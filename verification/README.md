# open-opticon: a verified model of the verification kernel

Honest Ear is an acoustic sensor that emits only a small signed statement ("alarm tone", "voice",
"none") and an ecosystem that lets anybody check it: a transparency log, independent witnesses that
cosign the log's checkpoints and gossip evidence of forks, a challenge server, threshold disclosure,
and a quorum of devices. This project models that checking machinery in Dafny and proves what it is
for. `dafny verify dfyconfig.toml` checks everything.

Main results, hardest first:

* **Merkle log.** Proofs are produced by a top-down recursion over the largest power of two and are
  checked by bottom-up loops over two shifting counters. `MerkleTurns` proves that the loops and the
  recursion take the same left/right turns at every size; on top of that `MerkleVerify` proves
  completeness and exactness of inclusion and consistency checks for all sizes. SHA-256 is an
  arbitrary function; where collisions matter the statement names the finite set of strings that
  must not collide. No injectivity axiom is used. `MerkleStack` says what the root is without any split
  point: appending to a stack of perfect subtrees ends in it.
* **Witnesses.** Whatever a log answers, the checkpoints one witness cosigns in a run form an
  append-only history (`Witness`), two cosigner quorums with 2t > n + f agree (`WitnessQuorum`), and
  evidence of equivocation never convicts a witness that follows the protocol alone (`Evidence`).
* **The witness daemon.** A class with the daemon's fields, refining a state machine whose runs are all
  interleavings of its timer goroutine with posted proofs and health requests: at every point the retained
  evidence is genuine, bounded and distinct as pairs of bodies, between any two points nothing is forgotten,
  and health never recovers after an alarm (`Daemon`). `Gossip` bounds the flood over any finite peer graph
  and proves, for a mesh that need only agree on the witnesses the evidence names, that without loss the
  flood reaches everybody reachable, and that with every push lost the periodic pull still carries evidence
  one peer edge a round. `DaemonRuns` says over whole runs exactly when the alarm is up and when a health
  request is answered healthy.
* **Device statements.** The C encoder and the Go decoder are exact inverses, the item skipper accepts
  exactly one grammar, COSE messages are unambiguous, and a bundle that passes end to end was measured by
  the pinned device (`Payload`, `PayloadEncoder`, `Items`, `Cose`, `LowS`, `Bundles`).
* **Detector.** The integer Goertzel filter never overflows 64 bits under the default configuration, for
  every recording. The invariant is the quadratic form s1^2 + s2^2 - c s1 s2, whose root grows by at most
  |x| + 1 per sample (`Goertzel`, `Detector`). What it measures is the power spectrum: the filter's form
  equals the sum of x_j x_k cos(w (j - k)), and the integer filter is the exact one on samples lowered by
  less than one (`Spectrum`). `CosineLaw` says how good the fixed-point cosine is, `VerdictLaw` what the
  verdict says about the recording. The Rust port returns the same verdict (`DetectorPort`).
* **Threshold disclosure.** Reconstruction and secrecy of Shamir sharing over an arbitrary prime, from
  modular inverses and the factor theorem up (`ModArith`, `Polynomials`, `Lagrange`, `Shamir`).
* **Challenge server and quorum counting** (`ChallengeServer`, `Quorum`), and the **canonical notes**
  with their grammars (`Text`, `Notes`, `TextExact`, `NotesExact`).

Methods follow the source's loops and in-place updates and are proved against specification functions;
the lemmas then say what those functions are worth.

Assumptions, all explicit in the statements: signature verification is a parameter, and "ideal" means
that a key verifies only what its holder signed (`SignsOnly`, `HonestKey`, `HonestPin`, `DeviceKey`); signing always
succeeds (`SigningWorks`); hashing is a parameter; network answers, clocks, random numbers and file
contents are arbitrary inputs.

Properties that turned out not to hold in full, each with its exact condition:

* The COSE head helper silently truncates lengths from 4 GiB on, although its comment says that it never
  does. The round trip holds exactly below 2^32 (`Cose.RoundTripExact`).
* Start-up refuses two peers of one name but accepts a peer named like the daemon itself. Then the key
  resolved for that name is the daemon's own, and the evidence it assembles can be refused by its own
  intake rule (`Daemon.SelfNamedPeerRefused`); names resolve to the configured keys exactly when no such
  peer has another key (`Daemon.PinsResolve`).
* The equivocation flag is not evidence of a fork. The cross-check asks the log for a proof to the log's
  current size, not to the peer's. For honest views of sizes m <= n of one honest log it raises the flag
  exactly when 0 < m < n and the log has meanwhile grown past n (`CrossCheck.FalseAlarmExactly`). Strong
  claims are therefore about the retained proofs.
* An honest log that grows between the two fetches of one poll can be refused, for the same reason. With a
  checkpoint of size n, a stored view of size m and the proof of the grown list, the poll is refused exactly
  when 0 < m < n and the list is longer than n, and accepted otherwise (`Witness.GrownLogRefused`).
* The fingerprint of evidence is described as that of the fork (origin, size and roots) but is that of the
  two body strings. The parser ignores trailing newlines, among other things, so the operator can sign one
  checkpoint in many spellings, and a witness cosigns each as unchanged (`Evidence.RespelledIsCosigned`).
  Every number of newlines gives the same fork another fingerprint (`Evidence.RespellingIsNew`), and 64 of
  them fill the evidence set, after which a second fork is dropped (`Daemon.OneForkFillsTheSet`). Equal
  fingerprints mean equal pairs of bodies (`Evidence.KeyIsThePair`); they mean equal forks when the bodies
  are spelled as the log prints them (`Evidence.KeyIsTheFork`).
* The detector doubles the tone count in 32 bits. Below 2^31 frames the verdict is always the intended one.
  A frame with the tone repeated n times gets the intended verdict exactly for n < 2^31; from there up to
  2^32 the alarm comes out as no event (`DetectorSpec.LongToneLosesAlarm`). For any recording the two
  verdicts agree exactly when the frame counter does not wrap and, with presence, fewer than 2^31 frames
  carry the tone (`DetectorSpec.WrapExactly`).
* The fixed-point cosine should fall on [0, pi]. It does on each half, up to one unit of 2^-28
  (`CosineLaw.FallsOnEachHalf`), but four Taylor terms miss zero at the right angle: the computed cosine is
  negative exactly on the last 239042 units before it (`CosineLaw.SignExactly`), so it rises between any two
  angles on both sides within that distance and falls between any two outside it
  (`CosineLaw.AcrossTheRightAngle`). The shipped probes are far from there.
* A PASS answered for a session that was dropped meanwhile records nothing and may repeat a counter
  (`ChallengeServer.DeadSessionRepeats`); PASS answers on live sessions never do
  (`ChallengeServer.LiveNeverRepeats`).
* A printed checkpoint parses back exactly when its origin has no newline, a receipt exactly when it also
  has the receipt origin, a 64-bit batch number and 32-byte digests (`Notes.CheckpointParsesBack`,
  `Notes.ReceiptParsesBack`).
* The comment on the evidence intake says that it does not push evidence on. The code does, on the first
  adoption, and the model follows the code.

## Model

| member | source | states |
|---|---|---|
| MerkleTree.MerkleLog.Add | src/verifier/transparency.go:41-44 | appending keeps every earlier entry and returns the new entry's index |
| MerkleTree.SplitUnique | src/verifier/transparency.go:57-63 | only one power of two k satisfies k < n <= 2k, and it is the split point |
| MerkleTree.LargestPow2Below | src/verifier/transparency.go:57-63 | the doubling loop finds that split point for every n > 1 |
| MerkleTree.PreimagesApart | src/verifier/transparency.go:46-54 | leaf, node and empty preimages never coincide, and a node preimage determines both children |
| MerkleStack.SmallTrees | src/verifier/transparency.go:46-75 | an empty log hashes to SHA-256 of nothing, a single entry to SHA-256 of a zero byte and the entry |
| MerkleStack.NodeAbove | src/verifier/transparency.go:46-75 | a perfect tree followed by one that is not larger: SHA-256 of a one byte and their two roots |
| MerkleStack.AppendingEndsInMth | src/verifier/transparency.go:36-75 | appending entries one by one to a stack of perfect subtrees, merging equal ones, with the prefix bytes 0 for leaves and 1 for nodes, and hashing the stack together ends in the tree hash, for every list and every hash |
| MerkleStack.SevenPaths | src/verifier/transparency.go:84-101 | for seven entries the root and the audit paths are those listed in section 2.1.5 of RFC 9162 |
| MerkleStack.SevenConsistencies | src/verifier/transparency.go:104-128 | ... and so are the consistency proofs from three, four and six entries |
| MerkleTurns.TurnsUnderLeft | src/verifier/transparency.go:132-155 | in a left subtree the shifting loop runs as if alone and then meets one right sibling |
| MerkleTurns.TurnsUnderRight | src/verifier/transparency.go:132-155 | in a right subtree the loop runs as if alone and then, through its inner shift, meets one left sibling |
| MerkleTurns.TurnsAreTreeTurns | src/verifier/transparency.go:132-155 | for every leaf and size the shifting loop takes exactly the turns of the recursive audit path |
| MerkleTurns.TurnsAreSubTurns | src/verifier/transparency.go:160-208 | for every pair of sizes the consistency loop takes exactly the turns of the recursive proof |
| MerkleTurns.StartIsOldRoot | src/verifier/transparency.go:160-208 | the verifier starts from the old root itself exactly when the old size is a power of two |
| MerkleVerify.VerifyInclusion | src/verifier/transparency.go:132-155 | the loop accepts exactly when the walk along the turns of (index, size) with this proof ends at the root, and refuses every index out of range |
| MerkleVerify.VerifyConsistency | src/verifier/transparency.go:160-208 | the loop accepts exactly when one walk reaches both the old and the new root; it refuses sizes out of order and decides equal and empty sizes by the roots and an empty proof |
| MerkleVerify.InclusionComplete | src/verifier/transparency.go:84-101 | every generated audit path is accepted, with no hypothesis on the hash |
| MerkleVerify.InclusionSound | src/verifier/transparency.go:132-155 | an accepted check against the root of a list proves that the entry is that list's element and the proof its path, unless hashed strings collide |
| MerkleVerify.InclusionExact | src/verifier/transparency.go:84-155 | against the root of a list exactly the true entry with exactly its audit path is accepted, up to a collision |
| MerkleVerify.ConsistencyComplete | src/verifier/transparency.go:104-208 | for every list and every older size the generated proof is accepted, with no hypothesis on the hash |
| MerkleVerify.ConsistencySound | src/verifier/transparency.go:160-208 | an accepted check against the root of a list proves that the old root is the tree hash of its prefix and the proof is the generated one, unless hashed strings collide |
| MerkleVerify.ConsistencyExact | src/verifier/transparency.go:104-208 | accepted if and only if the proof is the generated one and the old root the prefix's tree hash, up to a collision |
| MerkleGrowth.RootDeterminesList | src/verifier/transparency.go:66-75 | two lists with the same root are the same list, unless hashed strings collide |
| MerkleGrowth.GrownProofDiffers | src/verifier/transparency.go:104-128 | the consistency proof a log serves from one old size is different after it has grown, unless hashed strings collide |
| MerkleGrowth.GrownProofAccepted | src/verifier/transparency.go:104-208 | checked against an n-prefix, the proof from size m to the grown list is accepted if and only if m = 0 or the list is no longer than n, up to a collision |
| Text.ScanLines | src/verifier/receipt.go:75-86 | the index-scanning splitter returns the lines of the body, including the empty last one |
| Text.DecParses | src/verifier/transparency.go:214-274 | decimal numbers in range are parsed back by both integer parsers and contain no newline |
| Text.HexRoundTrip | src/verifier/transparency.go:287-314 | hex decoding inverts hex encoding for every byte string |
| Text.B64RoundTrip | src/verifier/transparency.go:214-274 | base64 decoding, which skips line breaks and ignores spare bits, inverts encoding for every byte string |
| TextExact.SplitExactly | src/verifier/transparency.go:214-274 | splitting gives exactly the newline-free parts that join to the string again |
| TextExact.TrimExactly | src/verifier/transparency.go:214-274 | trimming removes exactly the newlines at the end |
| TextExact.DecExamples | src/verifier/transparency.go:214-274 | 0, 9, 10 and 1234567890 print as their ASCII decimals |
| TextExact.UintExactly | src/verifier/receipt.go:75-117 | the unsigned parser accepts exactly the decimal numerals of 64-bit numbers, with leading zeros |
| TextExact.AtoiExactly | src/verifier/transparency.go:214-274 | the signed parser reads v >= 0 exactly from v's numeral below 2^63, with leading zeros and an optional plus, and zero also behind a minus |
| TextExact.HexEncExactly | src/verifier/transparency.go:287-314 | hex encoding writes two lower-case digits a byte, the high half first |
| TextExact.HexDecExactly | src/verifier/transparency.go:287-314 | a string decodes to b if and only if it has two digits of either case for every byte of b |
| TextExact.Alphabet | src/verifier/transparency.go:214-274 | the base64 characters are A to Z, a to z, 0 to 9, + and /, and only they have values |
| TextExact.GroupDigits | src/verifier/transparency.go:214-274 | the four characters of a group are the base-64 digits of the number its three bytes make |
| TextExact.B64DecExactly | src/verifier/transparency.go:214-274 | base64 decoding gives b if and only if the string, without line breaks, is the padded encoding of b up to the spare bits before the padding |
| TextExact.BreaksIgnored | src/verifier/transparency.go:214-274 | ... where a newline or carriage return anywhere makes no difference |
| TextExact.B64Examples | src/verifier/transparency.go:214-274 | f, fo, foo and foobar encode as in section 10 of RFC 4648 |
| Notes.CheckpointParsesBack | src/verifier/transparency.go:214-274 | a checkpoint of any 63-bit size and any root parses back if and only if its origin has no newline |
| Notes.EndorsementParsesBack | src/verifier/transparency.go:287-314 | every endorsement that is printed at all parses back to itself |
| Notes.ParseReceipt | src/verifier/receipt.go:75-117 | every printed receipt is returned as it was, nothing that could not have been printed is returned, and whatever is returned prints and parses back to itself |
| Notes.ReceiptParsesBack | src/verifier/receipt.go:55-128 | a receipt parses back if and only if it has the receipt origin, a newline-free session, a 64-bit batch and three 32-byte digests |
| NotesExact.CheckpointExactly | src/verifier/transparency.go:259-274 | a body parses to a checkpoint if and only if it consists of the origin, a numeral of the size and an encoding of the root on a line each, and closing newlines |
| NotesExact.EndorsementExactly | src/verifier/transparency.go:287-314 | a body parses to an endorsement if and only if it has the schema line, the endorser and two 32-byte coordinates in hex on a line each, and closing newlines; any other schema or line count is refused |
| NotesExact.ReceiptExactly | src/verifier/receipt.go:75-117 | a body parses to a receipt if and only if it is seven closed lines: the receipt origin, the session, a 64-bit numeral, two 32-byte digests in hex, 0 or 1, and a digest |
| NotesExact.PrintedNotes | src/verifier/transparency.go:214-314 | a checkpoint and an endorsement are printed line by line as their formats say, an endorsement only with a newline-free name and 32-byte coordinates |
| Witness.WitnessState.Advance | src/verifier/cmd/he-witness/main.go:1083-1087 | the stored view becomes the checkpoint's origin, size and hex root |
| Witness.DecodeHexes | src/verifier/cmd/he-witness/main.go:1099-1109 | a proof decodes exactly when every element is 32 bytes of hex, to those digests in order, whatever it is compared with |
| Witness.Poll | src/verifier/cmd/he-witness/main.go:1010-1065 | one poll against any answer of the log: the new state and the result are those of the decision function, all refusals and failures included |
| Witness.AcceptedStep | src/verifier/cmd/he-witness/main.go:1010-1065 | whatever is cosigned parses, names the own origin, is what the state now stores, and follows the previous view |
| Witness.RefusedStep | src/verifier/cmd/he-witness/main.go:1010-1065 | a refused or failed poll leaves the stored view unchanged |
| Witness.RunIsHistory | src/verifier/cmd/he-witness/main.go:1010-1065 | over any run against any log each cosigned checkpoint equals or verifiably extends the one before it |
| Witness.RestartIsOneRun | src/verifier/cmd/he-witness/main.go:1131-1163 | a process restarted from the view it saved cosigns exactly what one uninterrupted run would |
| Witness.SizesGrow | src/verifier/cmd/he-witness/main.go:1038-1064 | in a history sizes never decrease and equal sizes have equal roots, whatever the hash |
| Witness.HistoryOpens | src/verifier/cmd/he-witness/main.go:1038-1064 | once a list opens a checkpoint of a history, every earlier root is the hash of a prefix of it |
| Witness.NoEquivocation | src/verifier/cmd/he-witness/main.go:1010-1065 | of any two checkpoints cosigned in a run, equal sizes mean equal roots, and the smaller is a prefix of any list opening the larger |
| Witness.HonestLogAccepted | src/verifier/cmd/he-witness/main.go:1010-1065 | an append-only log, empty or not, unchanged between the two fetches is never refused, the proof mattering only when it has grown past a stored view; the state then stores its root and size |
| Witness.PollJudges | src/verifier/cmd/he-witness/main.go:1010-1065 | a witness that has seen one list and is shown another with any proof accepts if and only if the list shown begins with the list seen and, if longer, the proof decodes to the right one; it fails if and only if a needed proof cannot be read, and refuses otherwise, up to a collision |
| Witness.GrownLogRefused | src/verifier/cmd/he-witness/main.go:1050-1064 | when an honest list grows between the two fetches, a poll with a stored view of size m and a checkpoint of size n is refused if and only if 0 < m < n and the list is longer than n, and accepted otherwise, up to a collision |
| WitnessQuorum.MatchWitness | src/verifier/transparency.go:450-459 | a cosignature matches exactly when some enrolled entry has both its name and its key |
| WitnessQuorum.VerifyCheckpointWitnesses | src/verifier/transparency.go:430-444 | the result lists exactly once each non-empty name under which some cosignature of an enrolled name and key verifies over the body, and nobody else |
| WitnessQuorum.QuorumsAgree | src/verifier/transparency.go:423-459 | with n enrolled names, at most f not following poll and 2t > n + f, two checkpoints that both reach t agree and are prefix-consistent |
| CrossCheck.AgreementIsPrefix | src/verifier/cmd/he-witness/main.go:323-348 | when a peer is found to agree and its root is opened by a list, our root is the hash of a prefix of that list, up to a collision |
| CrossCheck.AlarmExactlyOnFork | src/verifier/cmd/he-witness/main.go:323-348 | with the right proof the alarm is raised if and only if our root is not that of the prefix of the list that opens the peer's root, up to a collision |
| CrossCheck.AlarmOnOtherProof | src/verifier/cmd/he-witness/main.go:323-348 | for two honest views the alarm is raised if and only if the peer is ahead and the proof is another one than that for the peer's size, up to a collision |
| CrossCheck.AnySizesAlarm | src/verifier/cmd/he-witness/main.go:323-348 | for honest views of any two sizes m and n of one list the alarm is raised if and only if m < n and the proof is another one than that from m to n; against a peer of our size or behind us never, up to a collision |
| CrossCheck.FalseAlarmExactly | src/verifier/cmd/he-witness/main.go:702-731 | an honest log is asked for a proof to its own current size; for honest views of sizes m <= n of one list the verdict is a false alarm if and only if 0 < m < n and the list is longer than n, and agreement otherwise, up to a collision |
| Evidence.AcceptedIsSigned | src/verifier/cmd/he-witness/main.go:1016-1023 | a witness cosigns only bodies that the operator's pinned key signed |
| Evidence.EvidenceConvictsLog | src/verifier/transparency.go:382-421 | evidence under the keys of two protocol-following witnesses proves that the operator signed two roots for one size |
| Evidence.OneWitnessIsInnocent | src/verifier/transparency.go:382-421 | evidence under the key of one protocol-following witness alone is impossible, whatever the log does |
| Evidence.KeyIgnoresOrder | src/verifier/cmd/he-witness/main.go:623-635 | the fingerprint does not depend on which half comes first |
| Evidence.KeyText | src/verifier/cmd/he-witness/main.go:623-635 | the fingerprint is the hex digest of the two bodies in byte order with two bars between them |
| Evidence.ParsedIsBarFree | src/verifier/transparency.go:259-274 | a body that parses as a checkpoint has no bar character after its origin |
| Evidence.KeyIsThePair | src/verifier/cmd/he-witness/main.go:623-635 | two pieces of evidence of one log have the same fingerprint if and only if they conflict over the same two body strings, up to a collision |
| Evidence.KeyIsTheFork | src/verifier/cmd/he-witness/main.go:623-635 | when all bodies are spelled as the log prints them, two pieces of evidence of one log have the same fingerprint if and only if they set the same two checkpoints (origin, size, root) against each other, up to a collision |
| Evidence.RespelledIsCosigned | src/verifier/cmd/he-witness/main.go:1010-1049 | a signed body that spells the stored checkpoint with any number of added newlines is cosigned as unchanged |
| Evidence.RespellingIsNew | src/verifier/cmd/he-witness/main.go:623-635 | a fork with m and with n newlines added to one body conflicts over the same two checkpoints, and the two fingerprints are equal only for m = n, up to a collision |
| Daemon.PinsResolve | src/verifier/cmd/he-witness/main.go:242-277 | every configured key is the one resolved for its name if and only if no peer has the daemon's name under another key |
| Daemon.GenuineIsAdoptable | src/verifier/cmd/he-witness/main.go:888-912 | without such a peer, evidence genuine under configured keys is exactly the evidence that is adopted |
| Daemon.SelfNamedPeerRefused | src/verifier/cmd/he-witness/main.go:843-854 | with such a peer, evidence the daemon assembles is genuine and yet refused by its own intake rule |
| Daemon.GenuineConvicts | src/verifier/cmd/he-witness/main.go:888-912 | if the two witnesses the evidence names follow the protocol, holding it proves that the operator signed both conflicting halves |
| Daemon.ForkExactly | src/verifier/cmd/he-witness/main.go:681-731 | a peer's reply is taken as a fork if and only if our published checkpoint and that reply pass as evidence under our key and the peer's pinned key |
| Daemon.SurveyedExact | src/verifier/cmd/he-witness/main.go:681-731 | the survey alarms exactly when some peer's pinned, signed checkpoint of our log has another root at our size, or is ahead and the served proof is refused; the fork it keeps is the reply of the first peer of the former kind and contradicts our view |
| Daemon.Survey | src/verifier/cmd/he-witness/main.go:681-731 | the unlocked loop alarms and keeps a fork exactly so |
| Daemon.HonestPeersAlarm | src/verifier/cmd/he-witness/main.go:681-731 | against peers whose checkpoints are prefixes of one list, of any sizes on either side of ours, the survey alarms if and only if some peer is ahead of us and its pinned, signed reply came with a decodable proof other than the one from our size to its size; nobody is taken for a fork, up to a collision |
| Daemon.NoViewNoAlarm | src/verifier/cmd/he-witness/main.go:323-327 | without a view of our own the survey never alarms |
| Daemon.AcceptedMatches | src/verifier/cmd/he-witness/main.go:771-798 | after an accepted poll the published checkpoint carries exactly the stored size and root and a valid own cosignature |
| Daemon.AssembledIsGenuine | src/verifier/cmd/he-witness/main.go:733-758 | our published checkpoint with a contradicting half is genuine evidence |
| Daemon.RecordedRetained | src/verifier/cmd/he-witness/main.go:637-653 | recording keeps the evidence set genuine, distinct as pairs of bodies, at most 64, with the representative first |
| Daemon.WitnessDaemon.RecordProofLocked | src/verifier/cmd/he-witness/main.go:640-653 | a proof is added exactly when the fingerprint of its pair of bodies is new and fewer than 64 are held, and the fingerprint set follows |
| Daemon.OneForkFillsTheSet | src/verifier/cmd/he-witness/main.go:637-653 | 64 spellings of one fork are a well-kept evidence set, and then whatever else is recorded is dropped |
| Daemon.WitnessDaemon.Once | src/verifier/cmd/he-witness/main.go:771-798 | one poll updates view, published checkpoint and health as the poll result says and keeps the invariant |
| Daemon.WitnessDaemon.CommitCheck | src/verifier/cmd/he-witness/main.go:733-768 | the locked end of a cross-check: alarm latch; if a fork was found and no proof is held, the proof of our published checkpoint and signature against the fork, its record and its push; with the invariant kept |
| Daemon.WitnessDaemon.TryAdopt | src/verifier/cmd/he-witness/main.go:888-941 | evidence is adopted if and only if both cosignatures verify under the keys we resolve for the two names and the two bodies are checkpoints of our own origin, of one size, with different roots; it latches the alarm, is recorded, and is pushed exactly on first adoption |
| Daemon.NeverHealthyAgain | src/verifier/cmd/he-witness/main.go:980-1004 | in every run, once the alarm was up at some point, no later health request is answered healthy |
| Daemon.StepKeeps | src/verifier/cmd/he-witness/main.go:593-1004 | every locked step keeps the invariant (published checkpoint is the stored one; evidence genuine, distinct as pairs of bodies, at most 64, representative first; evidence implies alarm) and forgets no proof, entry or alarm |
| Daemon.RunGood | src/verifier/cmd/he-witness/main.go:546-580 | the invariant holds at every point of every interleaving of timer steps, intake and health requests |
| Daemon.RunStays | src/verifier/cmd/he-witness/main.go:546-580 | between any two points of a run a held proof stays the same, retained evidence stays in place and an alarm stays up |
| Daemon.PushesOnce | src/verifier/cmd/he-witness/main.go:916-940 | at most one event of a run makes the daemon push |
| Daemon.WitnessDaemon.Step | src/verifier/cmd/he-witness/main.go:546-580 | one locked step of the object is one step of the machine, with its push and its health answer |
| Daemon.WitnessDaemon.Serve | src/verifier/cmd/he-witness/main.go:546-580 | the states of the object over any interleaving, from any point of the timer cycle, are a run of the machine; invariant at every point, nothing forgotten between any two points, no healthy answer after an alarm, exactly the first held proof pushed |
| DaemonRuns.AlarmExactly | src/verifier/cmd/he-witness/main.go:546-580 | in every run of the process, whenever no survey result awaits the lock, the alarm is up if and only if evidence was adopted before or a survey found a diverging peer |
| DaemonRuns.HealthyExactly | src/verifier/cmd/he-witness/main.go:980-1004 | in every run a health request is answered healthy if and only if the last poll before it was accepted and saved, no evidence was adopted and no survey found a diverging peer before |
| DaemonRuns.RetainedAreForks | src/verifier/cmd/he-witness/main.go:637-653 | at every point of every run each retained proof is two checkpoints of our origin and of one size with different roots, each cosigned under a key configured for the name it carries; at most 64 are retained |
| DaemonRuns.EachCycle | src/verifier/cmd/he-witness/main.go:546-580 | between any two successive polls of any run the peers are surveyed, the finding is committed and, unless a proof is held by then, every peer is asked for its proof in turn or one is adopted on the way |
| Gossip.Receive | src/verifier/cmd/he-witness/main.go:888-941 | the network step of one daemon is what the daemon object does on a received proof |
| Gossip.Assemble | src/verifier/cmd/he-witness/main.go:733-768 | a detection of the network model is what the daemon object does at the end of a cross-check, and the proof it pushes is genuine |
| Gossip.AlikeByConfiguration | src/verifier/cmd/he-witness/main.go:242-277 | daemons that were all configured with the same key for each of some names resolve those names alike |
| Gossip.FloodIsBounded | src/verifier/cmd/he-witness/main.go:916-940 | in every run over every finite peer graph each daemon pushes at most once, pushes are the edges leaving holders and at most all edges, and all are accounted for |
| Gossip.RunFlooding | src/verifier/cmd/he-witness/main.go:888-969 | in any mesh of daemons that resolve the witnesses named by the evidence alike, however they are linked and whatever happens outside, every peer of a holder holds evidence or has adoptable evidence on its way, if no push to the mesh is lost |
| Gossip.FloodReachesAll | src/verifier/cmd/he-witness/main.go:888-969 | once no push to the mesh is in flight every daemon reachable from a holder along peer edges of the mesh holds evidence |
| Gossip.PullCatchesUp | src/verifier/cmd/he-witness/main.go:943-969 | whatever pushes are lost, a daemon of the mesh that completes one pull holds evidence at its end if some mesh peer held evidence at its beginning and answered if it was asked |
| Gossip.RoundsReachAll | src/verifier/cmd/he-witness/main.go:943-969 | if in every round each daemon of the mesh completes a pull that its mesh peers answer, evidence travels one peer edge a round along every path, though all pushes be lost |
| ModArith.InverseExists | src/verifier/threshold.go:124-127 | modulo a prime the extended Euclidean inverse exists for every residue but zero |
| Polynomials.FactorTheorem | src/verifier/threshold.go:60-81 | dividing by x - a leaves the value at a |
| Polynomials.RootCount | src/verifier/threshold.go:60-81 | modulo a prime a polynomial shorter than its number of distinct roots has only zero coefficients |
| Polynomials.AgreeingAreEqual | src/verifier/threshold.go:60-81 | two reduced polynomials that agree at as many points as they have coefficients are equal |
| Lagrange.LagrangeAtZero | src/verifier/threshold.go:108-135 | the combiner's weighted sum of values is the polynomial's value at 0, for every short enough polynomial and every set of distinct points |
| Shamir.Horner | src/verifier/threshold.go:72-79 | the loop reducing at every step computes the polynomial's value modulo p |
| Shamir.ShamirSplit | src/verifier/threshold.go:52-83 | accepts exactly 2 <= k <= n <= 255 with a secret below p, and then returns shares 1 to n of the polynomial |
| Shamir.ShamirCombine | src/verifier/threshold.go:94-136 | refuses fewer than two, non-positive or repeated X and non-invertible denominators, and otherwise returns the interpolated value |
| Shamir.DealtInvertible | src/verifier/threshold.go:124-127 | for dealt shares no denominator is ever non-invertible |
| Shamir.Reconstruction | src/verifier/threshold.go:94-136 | for every prime above 255, any k or more dealt shares with distinct X in any order combine to the secret |
| Shamir.CombinesByInterpolation | src/verifier/threshold.go:94-136 | whatever shares are combined, dealt or not: with X distinct modulo the prime the result is the value at 0 of any polynomial with as many coefficients that goes through them |
| Shamir.EverySecretEquallyLikely | src/verifier/threshold.go:60-93 | for any k-1 shares and any candidate secret exactly one choice of random coefficients deals those shares |
| Shamir.ThresholdOpen | src/verifier/threshold.go:203-217 | refuses too few shares and keys over 32 bytes, and otherwise opens with the 32-byte key of the combined value |
| Shamir.OpensWithTheKey | src/verifier/threshold.go:184-217 | the key that reaches decryption is the key that was split, leading zeros included |
| Goertzel.FormGrows | src/common/he_detector.c:153-161 | one sample raises the root of the quadratic form by at most its magnitude plus one, rounding included |
| Goertzel.RunBounded | src/common/he_detector.c:153-161 | for every input and every coefficient in range the filter state stays within a bound quadratic in the number of samples |
| Goertzel.PowerFloor | src/common/he_detector.c:171-178 | the rounded power before clamping is never below -abs(s2) |
| Spectrum.ExactPowerIsSpectrum | src/common/he_detector.c:153-178 | without rounding, the quadratic form of the filter state is the power spectrum of the samples: the sum of x_j x_k cos(w (j - k)) over all pairs, for coefficient 2 cos w |
| Spectrum.IntegerRunIsExact | src/common/he_detector.c:153-161 | the integer filter is the exact one on samples lowered by less than one each |
| Spectrum.ProbeMeasuresSpectrum | src/common/he_detector.c:153-178 | so the integer power is, up to the magnitude of the older state value, the power spectrum of samples lowered by less than one each, for every input and coefficient |
| Detector.DefaultIsSafe | src/common/he_detector.c:49-62 | the default configuration meets the bounds under which nothing overflows |
| Detector.CosRange | src/common/he_detector.c:19-47 | the fixed-point cosine stays in [-2^28, 2^28] for every angle |
| Detector.CoeffRange | src/common/he_detector.c:103-108 | every coefficient lies in [-65536, 65536] |
| CosineLaw.Landmarks | src/common/he_detector.c:19-47 | the cosine is 2^28 at 0, -2^28 at pi and -240121 at the right angle, which then jumps to 240121 |
| CosineLaw.Reflected | src/common/he_detector.c:19-47 | cos(pi - a) = -cos(a) on [0, pi] |
| CosineLaw.Even | src/common/he_detector.c:19-47 | cos(-a) = cos(a) for every angle |
| CosineLaw.Periodic | src/common/he_detector.c:19-47 | the cosine has the period 2 pi for every angle |
| CosineLaw.FallsOnEachHalf | src/common/he_detector.c:19-47 | on each half of [0, pi] the cosine never rises by more than one unit of 2^-28 |
| CosineLaw.SignExactly | src/common/he_detector.c:19-47 | on [0, pi/2] the computed cosine is not negative if and only if the angle is at most 421418386, which is 239042 units short of the right angle |
| CosineLaw.AcrossTheRightAngle | src/common/he_detector.c:19-47 | across the right angle the cosine falls between angles outside that distance and rises between angles within it |
| CosineLaw.CloseToPolynomial | src/common/he_detector.c:19-47 | on [0, pi/2] the cosine is within 2.1 units of 2^-28 of the polynomial 1 - x^2/2 + x^4/24 - x^6/720 |
| CosineLaw.CoefficientExactly | src/common/he_detector.c:103-108 | a coefficient is the cosine of the phase step 2 pi f / fs, rounded down to Q28, doubled and rounded down to Q15 |
| CosineLaw.ProbesSpread | src/common/he_detector.c:110-118 | a single probe lies at the centre; otherwise the first and last lie at the ends of the band and the others at equal steps, rounded down |
| CosineLaw.DefaultCoefficients | src/common/he_detector.c:49-62 | the shipped detector probes 2900, 3100 and 3300 Hz with the coefficients 27432, 22675 and 17776 |
| Detector.Cosine | src/common/he_detector.c:19-47 | on 64-bit integers, with truncating division, no intermediate overflows and the specified value is returned |
| Detector.FrameStateSmall | src/common/he_detector.c:120-196 | for every recording the filter state along a frame stays within 2^30 |
| Detector.NextState | src/common/he_detector.c:153-161 | the filter step on 64-bit integers does not overflow and is exact |
| Detector.PowerOf | src/common/he_detector.c:171-178 | the power formula on 64-bit integers does not overflow and is exact |
| Detector.EnergyFits | src/common/he_detector.c:153-181 | frame energy, and energy times the tone ratio, fit 64 bits |
| DetectorSpec.ScaleShifts | src/common/he_detector.c:153-156 | a scaled sample y of x satisfies 2^s y <= x < 2^s (y + 1): an arithmetic shift, also of negative samples |
| Detector.ShiftRight | src/common/he_detector.c:153-156 | the shift of the C loop, computed on 64-bit integers, is that value |
| VerdictLaw.VerdictExactly | src/common/he_detector.c:120-196 | for every recording, with a frame loud when the sum of its squared shifted samples reaches the floor and tonal when moreover some probe's power reaches that sum times the ratio: presence if and only if enough frames are loud, alarm if and only if moreover at least half of them are tonal, voice if and only if presence without alarm and enough loud frames that are not tonal, no event otherwise; the counts are the numbers of those frames |
| VerdictLaw.FramesOf | src/common/he_detector.c:136-139 | every recording has such frames |
| VerdictLaw.FullScaleIsHeard | src/common/he_detector.c:49-62 | the shipped detector reports presence and an event for eight frames at full scale |
| DetectorSpec.WrapExactly | src/common/he_detector.c:183-196 | the 32-bit verdict is the intended one if and only if the frame counter does not wrap and, with presence, fewer than 2^31 frames carry the tone; fewer than 2^31 frames in all are always enough |
| DetectorSpec.CountersWrap | src/common/he_detector.c:158-181 | the reported counters are the true counts modulo 2^32 |
| DetectorSpec.LongToneLosesAlarm | src/common/he_detector.c:183-196 | a frame with the tone, repeated n times, gets the intended verdict if and only if n < 2^31; below 2^32 the alarm that was meant comes out as no event |
| DetectorSpec.AnyFrameHasTone | src/common/he_detector.c:166-185 | under a configuration without energy floor and tone ratio every frame counts as carrying the tone |
| Detector.RunDetector | src/common/he_detector.c:120-196 | on fixed-width integers, wrapping counters and reused state buffers the loops return the 32-bit verdict for every recording without signed overflow, and the intended one below 2^31 frames |
| DetectorPort.PortDetect | zk/oo-detector/src/lib.rs:69-113 | the port's loops have no signed overflow and return the same 32-bit verdict for every recording, and the intended one below 2^31 frames |
| DetectorPort.SameVerdict | zk/oo-detector/src/lib.rs:1-113 | the C detector and the Rust port return the same verdict on every recording of any length |
| Cbor.HeadSound | src/verifier/bound.go:319-368 | whatever head is read is the shortest encoding of its major type and argument, standing at that position |
| Cbor.HeadComplete | src/verifier/bound.go:319-368 | every shortest head is read back |
| Cbor.HeadMeaning | src/verifier/bound.go:319-368 | the shortest head has the major type in its top three bits and the argument in the rest or in 1, 2, 4 or 8 big-endian bytes, as few as will do |
| Cbor.HeadExamples | src/verifier/bound.go:319-368 | 0, 23, 24, 1000, 1000000, 2^64 - 1, -7 and a byte string encode as in appendix A of RFC 8949 |
| Cbor.BstrExact | src/verifier/bound.go:393-410 | a byte string is read exactly where its deterministic encoding stands |
| Cbor.UintExact | src/verifier/bound.go:382-391 | an unsigned integer is read exactly where its shortest encoding stands |
| Cbor.Reader.ReadN | src/verifier/bound.go:370-380 | the shifting accumulator reads n big-endian bytes without overflow, or fails at the end of the buffer |
| Cbor.Reader.ReadHead | src/verifier/bound.go:319-368 | the reader returns the specified head and moves right behind it, and refuses non-minimal, reserved and truncated heads |
| Cbor.Reader.ReadBstr | src/verifier/bound.go:393-410 | the reader returns the string and moves right behind it, and never reads past the end |
| Payload.DecodePayload | src/verifier/bound.go:428-509 | the loop over map entries with its seen set and last key is the specified decoder |
| Payload.DecodeExact | src/verifier/bound.go:428-509 | a byte string decodes to p if and only if p is valid and the string is its deterministic encoding |
| Payload.EncodeSpelled | src/verifier/bound.go:428-509 | the encoding is a map of eleven entries under the keys 0 to 10: version, nonce, event, voice flag, presence, frames, window, counter, configuration hash, input hash, previous digest |
| Payload.ValidSpelled | src/verifier/bound.go:428-509 | valid means a nonce of at most 64 bytes, three 32-byte digests and 64-bit numbers |
| Payload.NoSecondEncoding | src/verifier/bound.go:428-509 | no two byte strings decode to the same predicate |
| Payload.GatesExact | src/verifier/bound.go:201-244 | a payload passes if and only if it is the encoding of a valid version-1 predicate with the expected nonce, a larger counter and the expected previous digest |
| Payload.StreamNeverReplays | src/verifier/bound.go:201-244 | over a stream checked with a threaded last counter, accepted counters strictly increase whatever nonces are expected, and no payload is accepted twice |
| Writer.PutHead | src/common/he_payload.c:24-57 | writes the shortest head byte by byte, or fails, never at or past the capacity |
| Writer.PutBstr | src/common/he_payload.c:68-78 | writes the deterministic byte string, or fails, never at or past the capacity |
| PayloadEncoder.PayloadEncode | src/common/he_payload.c:86-147 | writes exactly the deterministic encoding if it fits and reports overflow otherwise; nothing at or past the capacity changes; an over-long nonce is refused untouched |
| PayloadEncoder.DeviceBytes | src/common/he_payload.c:86-147 | what the device writes, byte for byte, from the fields of its struct |
| PayloadEncoder.FitsStaticBuffer | src/common/he_payload.c:86-147 | every struct encodes to at most 215 bytes, so the static buffer of 240 never overflows |
| PayloadEncoder.DeviceRoundTrip | src/common/he_payload.c:86-147 | what the device writes the verifier decodes to the same predicate |
| Items.ItemReader.SkipValue | src/verifier/cose.go:195-238 | the mutable recursive skipper terminates for every claimed count, restores the depth and stops where the specification says |
| Items.SkipExact | src/verifier/cose.go:195-238 | the skipper succeeds exactly where one well-formed item with minimal heads stands within the depth cap, and stops right behind it |
| Items.Unambiguous | src/verifier/cose.go:195-238 | at most one item stands at a position |
| Items.SkipExamples | src/verifier/cose.go:195-238 | a tagged time, arrays, a map with an array inside, true, 1.1, -1 and a byte string as encoded in appendix A of RFC 8949 are skipped to their ends |
| Items.DepthCap | src/verifier/cose.go:195-238 | n arrays around an array are skipped if and only if n < 64 |
| Cose.BstrHeadExact | src/verifier/cose_encode.go:19-30 | the head helper is the deterministic head if and only if the length is below 2^32 |
| Cose.RequiresExact | src/verifier/cose.go:161-191 | the protected header is accepted if and only if it is a map whose entries before the first label 1 are other labels with one well-formed item each and whose label 1 carries -7 |
| Cose.OnlyES256 | src/verifier/cose.go:161-191 | the header {1: -7} is accepted; those of EdDSA and ES384 and the empty one are not |
| Cose.CheckES256 | src/verifier/cose.go:161-191 | the loop on the mutable reader accepts exactly the headers of that grammar |
| Cose.ParseSign1 | src/verifier/cose.go:107-157 | the parser on the mutable reader returns the specified parts or refuses |
| Cose.ParseComplete | src/verifier/cose.go:107-157 | every message of the wire format, tagged or not and with any unprotected item, parses to its own parts |
| Cose.ParseSound | src/verifier/cose.go:107-157 | whatever parses is a message of the wire format, and the returned spans are deterministic encodings |
| Cose.RoundTrip | src/verifier/cose_encode.go:36-55 | an emitted message parses to its payload and signature and rebuilds exactly the signed bytes |
| Cose.LargePayloadLost | src/verifier/cose_encode.go:15-30 | from 4 GiB on the payload never comes back |
| Cose.RoundTripExact | src/verifier/cose_encode.go:15-55 | the round trip holds if and only if the payload is shorter than 2^32 |
| Cose.EmittedBytes | src/verifier/cose_encode.go:36-55 | the emitted message and the signed bytes, byte for byte around payload and signature, below 4 GiB |
| Cose.SigStructInjective | src/verifier/cose.go:92-100 | two pairs of protected header and payload with equal signed bytes are equal |
| Cose.SignatureBindsPayload | src/verifier/cose.go:92-157 | two parsed messages with the same signed bytes carry the same payload and header |
| Cose.CoseSign1 | src/common/he_cose.c:91-117 | the C encoder writes exactly the Go message for payloads up to 65535 bytes that fit, refuses others, and never writes at or past the capacity |
| Cose.CoseSigStructure | src/common/he_cose.c:66-89 | the C encoder writes exactly the bytes the Go side signs, under the same limits |
| LowS.NBytes | src/optee/pta/pta_sign_data.c:54-57 | the byte constant is the order of P-256 |
| LowS.OrderOfP256 | src/optee/pta/pta_sign_data.c:54-57 | the order is odd and 2^256 - 2^224 + 2^192 less 0x4319055258E8617B0C46353D039CDAAF |
| LowS.NHalfBytes | src/optee/pta/pta_sign_data.c:58-61 | the second byte constant is half that order, rounded down |
| LowS.NormalizeIsCanonical | src/verifier/bound.go:284-290 | normalising is idempotent, lands in the lower half, and identifies exactly s and N - s |
| LowS.Greater | src/optee/pta/pta_sign_data.c:63-66 | the byte-wise comparison decides the order of the integers |
| LowS.SubtractFrom | src/optee/pta/pta_sign_data.c:69-74 | the in-place borrow loop leaves n - s up to the final borrow, and r untouched |
| LowS.HeNormalizeLowS | src/optee/pta/pta_sign_data.c:51-75 | r is untouched and s becomes its device form, in place |
| LowS.DeviceMatchesInteger | src/optee/pta/pta_sign_data.c:51-75 | for every s below N the device's 32 bytes are those of the integer normalisation, accepted as low-s, and stable |
| LowS.NoFinalBorrow | src/optee/pta/pta_sign_data.c:69-74 | the loop ends without a borrow exactly when s is at most N |
| Bundles.RawExact | src/verifier/bound.go:147-195 | a raw bundle passes if and only if it is the low-s signed, only encoding of a fresh, advancing, chained predicate under the pinned key |
| Bundles.CoseExact | src/verifier/cose.go:29-86 | a COSE bundle passes if and only if it is a COSE_Sign1 message, tagged or not, that names ES256 and carries the only encoding of a fresh, advancing, chained predicate with a low-s signature, under the pinned key, over "Signature1", its own header and payload |
| Bundles.EnvelopesApart | src/verifier/cose.go:88-100 | no payload equals any COSE signed structure, so neither kind of signature passes for the other |
| Bundles.SignedPayload | src/verifier/cose.go:29-70 | what was signed for one predicate opens, in either envelope, to that predicate only |
| Bundles.AcceptedWasMeasured | src/verifier/bound.go:145-244 | a bundle that passes pinned to a device key, raw or COSE, carries a predicate that device measured, for this challenge and beyond the last counter |
| ChallengeServer.PassIsMeasured | src/verifier/cmd/he-challenge/main.go:243-256 | a check that passes pinned to a device key means that device measured the predicate for this session's nonce, beyond the snapshot counter |
| ChallengeServer.Session.Record | src/verifier/cmd/he-challenge/main.go:257-288 | the compare-and-advance: on a live session PASS needs a larger counter and is recorded with its proof, FAIL clears the proof; on a dropped one nothing is recorded |
| ChallengeServer.LiveNeverRepeats | src/verifier/cmd/he-challenge/main.go:257-266 | of two PASS answers on a live session the later has the larger counter |
| ChallengeServer.DeadSessionRepeats | src/verifier/cmd/he-challenge/main.go:257-266 | on a dropped session one bundle is answered PASS twice |
| ChallengeServer.Server.GcLocked | src/verifier/cmd/he-challenge/main.go:581-588 | exactly the sessions older than the time to live are dropped |
| ChallengeServer.Server.HandleChallenge | src/verifier/cmd/he-challenge/main.go:157-177 | a session is issued if and only if fewer than 10000 unexpired ones are left, with the drawn nonce, its creation time, counter 0 and no verdict; other sessions keep their objects, and only expired ones leave |
| ChallengeServer.Server.CommitVerdict | src/verifier/cmd/he-challenge/main.go:243-300 | the verdict of a request committed after any number of others, on the session object it looked up |
| ChallengeServer.Server.Step | src/verifier/cmd/he-challenge/main.go:179-300 | one locked section: a lookup that finds a session adds a request, a snapshot reads its counter, a commit answers it by whether the bundle passes against the session's nonce and the counter read and, if the session is still listed, beats the counter of that moment, and records that verdict; nothing else changes |
| ChallengeServer.Server.Serve | src/verifier/cmd/he-challenge/main.go:157-300 | in every interleaving of challenges, lookups, snapshots and commits, from any requests in progress: at most 10000 sessions, live PASS counters of every session strictly increase, a proof is kept exactly while the verdict is PASS, no answer is rewritten; every request whose session was found is still in progress or was served once, and what a session answered is what was served on it, in order |
| Quorum.MatchKeyHex | src/verifier/quorum.go:48-64 | returns the first enrolled root whose two coordinates these are in hex, or none |
| Quorum.CountVotes | src/verifier/quorum.go:135-152 | the voting loop keeps the first passing bundle of every root name |
| Quorum.TallySound | src/verifier/quorum.go:135-152 | every vote was cast by a bundle that verifies, under the first root of its key, and no earlier bundle votes under that name |
| Quorum.TallyComplete | src/verifier/quorum.go:135-152 | every bundle that verifies under an enrolled key is represented by its root's name |
| Quorum.QuorumCore | src/verifier/quorum.go:131-171 | with the threshold in range and enough names voting: alarm if and only if every vote has event 2, voice if and only if every vote has event 1, no event if and only if no vote has 1 or 2; votes that differ in one of these give no quorum |
| Quorum.QuorumCounts | src/verifier/quorum.go:131-171 | a quorum means at least threshold pairwise distinct enrolled keys that each verified a bundle for this nonce and reported the one event class, even with repeated enrolments |
| Quorum.VouchIsMeasured | src/verifier/quorum.go:131-171 | a vouching device key means that its device measured this event for this nonce |
| Quorum.EveryKeyCounts | src/verifier/quorum.go:131-152 | with one key per name, every enrolled key under which some bundle verifies counts |

## Left out

- ECDSA, curve membership, SHA-256 and AES-GCM: parameters of the model; only what their callers do with them is proved.
- HTTP, JSON, flags, files, QR codes and HTML: their results are arbitrary inputs of the modelled steps.
- Data races: locked sections are atomic steps; code outside the lock reads only constants and its own snapshot, as in the source.
- Sampling of random numbers: the drawn coefficients, nonces and session ids are parameters, so nothing is said about their distribution beyond the counting statement of secrecy.
- Restarts after a failed save: runs are stated from a stored view, and a restart continues the run only when the view was saved.
- Detector.RunDetector: requires a configuration within stated bounds, which the default one meets; outside them signed arithmetic may overflow, and C then defines no result.
- DetectorPort.PortDetect: its unsigned counters wrap, as in a release build of the port; a debug build stops at that point instead.
- Shamir.ShamirSplit: takes the drawn coefficients as an argument and an arbitrary prime instead of the fixed 521-bit one.
- Quorum.QuorumCore: returns the set of names; their sorted order is not modelled.
- Payload.DecodePayload: its bitmask of seen keys is a set, and error texts are one error value.
- Text.ScanLines: byte strings stand for Go strings, so the replacement of invalid UTF-8 by JSON is not modelled.
- MerkleTree.LargestPow2Below: uses unbounded integers; lists longer than 2^62 entries, where the doubling would overflow, are not considered.
- Log-side endorsement checks (src/verifier/transparency.go:319-359), window disclosure (src/verifier/threshold.go:230-247) and receipt chains (src/verifier/receipt.go:162-196): compositions of members modelled here.
- Co-attestation (src/verifier/quorum.go:225-250): the same vote counting without the agreement on an event.
- The EAT appraiser, the vision sensor, configuration blobs, OP-TEE calls, tamper erasure, the zkVM guest and the contracts: they reuse the modelled codecs or live in foreign interfaces.
