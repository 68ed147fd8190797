/** Bytes, digests, the hash parameter and the arithmetic every other module shares. */
module Basics {

  type byte = x: int | 0 <= x < 256

  type Bytes = seq<byte>

  /** A 32-byte SHA-256 value. */
  type Digest = d: Bytes | |d| == 32 witness seq(32, _ => 0)

  /** SHA-256 is a parameter: nothing is assumed of it beyond its type. */
  type Sha = Bytes -> Digest

  /** An affine public key, as its two coordinate byte strings. */
  datatype PubKey = PubKey(x: Bytes, y: Bytes)

  /** Ideal signatures: whether a 64-byte signature verifies over a message under a key. */
  type Verify = (PubKey, Bytes, Bytes) -> bool

  /** One enrolled witness or device root. */
  datatype Prover = Prover(name: Bytes, key: PubKey)

  datatype Option<+T> = None | Some(value: T)

  datatype Result<+T> = Ok(value: T) | Err

  predicate Hashed(x: Bytes, hashed: set<Bytes>) {
    x in hashed
  }

  /** No two distinct strings of the finite set `hashed` have the same digest. */
  ghost predicate CollisionFree(sha: Sha, hashed: set<Bytes>) {
    forall x, y {:trigger Hashed(x, hashed), Hashed(y, hashed)} ::
      Hashed(x, hashed) && Hashed(y, hashed) && sha(x) == sha(y) ==> x == y
  }

  /** 2 to the power `e`. */
  function Pow2(e: nat): (r: nat)
    ensures r >= 1
  {
    if e == 0 then 1 else 2 * Pow2(e - 1)
  }

  function Last<T>(s: seq<T>): T
    requires s != []
  {
    s[|s| - 1]
  }

  function Front<T>(s: seq<T>): seq<T>
    requires s != []
  {
    s[..|s| - 1]
  }
}
