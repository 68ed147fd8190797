/** Skipping one CBOR item of any shape: a grammar of items, and the skipper against it. */
module Items {
  import opened Basics
  import opened BigEndian
  import opened Cbor

  const MAX_DEPTH := 64

  /** A data item. Simple values and floats carry only their head. A map lists keys and values
      alternately. */
  datatype Item =
    | Atom(major: nat, arg: nat)
    | Text(major: nat, content: Bytes)
    | Arr(items: seq<Item>)
    | Map(entries: seq<Item>)
    | Tag(arg: nat, item: Item)

  predicate WellFormed(x: Item) {
    match x
    case Atom(major, arg) => major in {0, 1, 7} && arg < MAX_ARG
    case Text(major, content) => major in {2, 3} && |content| < MAX_ARG
    case Arr(items) => |items| < MAX_ARG && AllWellFormed(items)
    case Map(entries) => |entries| % 2 == 0 && |entries| / 2 < MAX_ARG && AllWellFormed(entries)
    case Tag(arg, item) => arg < MAX_ARG && WellFormed(item)
  }

  predicate AllWellFormed(xs: seq<Item>) {
    if xs == [] then true else WellFormed(xs[0]) && AllWellFormed(xs[1..])
  }

  function Enc(x: Item): (e: Bytes)
    requires WellFormed(x)
    ensures |e| >= 1
  {
    match x
    case Atom(major, arg) => EncHead(major, arg)
    case Text(major, content) => EncHead(major, |content|) + content
    case Arr(items) => EncHead(4, |items|) + EncAll(items)
    case Map(entries) => EncHead(5, |entries| / 2) + EncAll(entries)
    case Tag(arg, item) => EncHead(6, arg) + Enc(item)
  }

  function EncAll(xs: seq<Item>): Bytes
    requires AllWellFormed(xs)
  {
    if xs == [] then [] else Enc(xs[0]) + EncAll(xs[1..])
  }

  /** Levels of nesting; an item without children has one. */
  function Depth(x: Item): (d: nat)
    ensures d >= 1
  {
    match x
    case Atom(_, _) => 1
    case Text(_, _) => 1
    case Arr(items) => 1 + DepthAll(items)
    case Map(entries) => 1 + DepthAll(entries)
    case Tag(_, item) => 1 + Depth(item)
  }

  function DepthAll(xs: seq<Item>): nat {
    if xs == [] then 0
    else
      var d, e := Depth(xs[0]), DepthAll(xs[1..]);
      if d > e then d else e
  }

  /** The item x stands at pos, ends at pos', and nests within the cap from `depth` on. */
  ghost predicate Stands(b: Bytes, pos: nat, x: Item, pos': nat, depth: nat) {
    WellFormed(x) && StartsWith(b, pos, Enc(x)) && pos' == pos + |Enc(x)| && depth + Depth(x) <= MAX_DEPTH
  }

  ghost predicate StandAll(b: Bytes, pos: nat, xs: seq<Item>, pos': nat, depth: nat) {
    AllWellFormed(xs) && StartsWith(b, pos, EncAll(xs)) && pos' == pos + |EncAll(xs)| &&
      depth + DepthAll(xs) <= MAX_DEPTH
  }

  // ---- the skipper ----

  /** Position after the item at pos, if one stands there within the depth cap. */
  function SkipOne(b: Bytes, pos: nat, depth: nat): (r: Option<nat>)
    ensures r.Some? ==> pos < r.value <= |b|
    decreases |b| - pos, 0, 0
  {
    if depth >= MAX_DEPTH then None
    else
      match HeadAt(b, pos)
      case Fail => None
      case Got(h, pos') =>
        if h.major in {0, 1, 7} then Some(pos')
        else if h.major in {2, 3} then
          if h.arg > |b| - pos' then None else Some(pos' + h.arg)
        else if h.major == 4 then SkipMany(b, pos', depth + 1, h.arg)
        else if h.major == 5 then SkipMany(b, pos', depth + 1, 2 * h.arg)
        else SkipOne(b, pos', depth + 1)
  }

  /** Position after n items; every item takes a byte, so a huge n runs into the end. */
  function SkipMany(b: Bytes, pos: nat, depth: nat, n: nat): (r: Option<nat>)
    requires pos <= |b|
    ensures r.Some? ==> pos <= r.value <= |b|
    decreases |b| - pos, 1, n
  {
    if n == 0 then Some(pos)
    else
      match SkipOne(b, pos, depth)
      case None => None
      case Some(pos') => SkipMany(b, pos', depth, n - 1)
  }

  /** The reader together with its current nesting depth. */
  class ItemReader {
    const r: Reader
    var depth: nat

    constructor (r: Reader)
      ensures this.r == r && depth == 0
    {
      this.r := r;
      depth := 0;
    }

    /** Recursive descent; the depth counter is restored on every path. */
    method SkipValue() returns (ok: bool)
      requires r.pos <= |r.b|
      modifies r`pos, this`depth
      ensures depth == old(depth) && r.pos <= |r.b| && old(r.pos) <= r.pos
      ensures ok <==> SkipOne(r.b, old(r.pos), depth).Some?
      ensures ok ==> SkipOne(r.b, old(r.pos), depth) == Some(r.pos)
      decreases |r.b| - r.pos, 0
    {
      hide HeadAt;
      if depth >= MAX_DEPTH { return false; }
      ghost var start := r.pos;
      depth := depth + 1;
      var h := r.ReadHead();
      if h.None? {
        depth := depth - 1;
        return false;
      }
      var major, n := h.value.major, h.value.arg;
      if major in {0, 1, 7} {
        ok := true;
      } else if major in {2, 3} {
        ok := n <= |r.b| - r.pos;
        if ok { r.pos := r.pos + n; }
      } else if major == 4 {
        ok := SkipItems(n);
      } else if major == 5 {
        ok := SkipPairs(n);
      } else {
        ok := SkipValue();
      }
      depth := depth - 1;
    }

    method SkipItems(n: nat) returns (ok: bool)
      requires r.pos <= |r.b|
      modifies r`pos, this`depth
      ensures depth == old(depth) && r.pos <= |r.b| && old(r.pos) <= r.pos
      ensures ok <==> SkipMany(r.b, old(r.pos), depth, n).Some?
      ensures ok ==> SkipMany(r.b, old(r.pos), depth, n) == Some(r.pos)
      decreases |r.b| - r.pos, 1
    {
      ghost var start, d := r.pos, depth;
      var i := 0;
      while i < n
        invariant 0 <= i <= n && depth == d && start <= r.pos <= |r.b|
        invariant SkipMany(r.b, start, d, n) == SkipMany(r.b, r.pos, d, n - i)
        decreases n - i
      {
        ok := SkipValue();
        if !ok { return false; }
        i := i + 1;
      }
      return true;
    }

    method SkipPairs(n: nat) returns (ok: bool)
      requires r.pos <= |r.b|
      modifies r`pos, this`depth
      ensures depth == old(depth) && r.pos <= |r.b| && old(r.pos) <= r.pos
      ensures ok <==> SkipMany(r.b, old(r.pos), depth, 2 * n).Some?
      ensures ok ==> SkipMany(r.b, old(r.pos), depth, 2 * n) == Some(r.pos)
      decreases |r.b| - r.pos, 1
    {
      ghost var start, d := r.pos, depth;
      var i := 0;
      while i < n
        invariant 0 <= i <= n && depth == d && start <= r.pos <= |r.b|
        invariant SkipMany(r.b, start, d, 2 * n) == SkipMany(r.b, r.pos, d, 2 * (n - i))
        decreases n - i
      {
        ghost var p := r.pos;
        ok := SkipValue();
        if !ok { return false; }
        assert SkipMany(r.b, p, d, 2 * (n - i)) == SkipMany(r.b, r.pos, d, 2 * (n - i) - 1);
        ok := SkipValue();
        if !ok { return false; }
        i := i + 1;
      }
      return true;
    }
  }

  // ---- exactness ----

  lemma TextStands(b: Bytes, pos: nat, major: nat, content: Bytes, depth: nat)
    requires major in {2, 3} && |content| < MAX_ARG && depth < MAX_DEPTH
    requires StartsWith(b, pos, EncHead(major, |content|)) && StartsWith(b, pos + |EncHead(major, |content|)|, content)
    ensures Stands(b, pos, Text(major, content), pos + |EncHead(major, |content|)| + |content|, depth)
  {
    hide EncHead;
    ConcatAt(b, pos, EncHead(major, |content|), content);
  }

  lemma ArrStands(b: Bytes, pos: nat, xs: seq<Item>, end: nat, depth: nat)
    requires |xs| < MAX_ARG && StartsWith(b, pos, EncHead(4, |xs|))
    requires StandAll(b, pos + |EncHead(4, |xs|)|, xs, end, depth + 1)
    ensures Stands(b, pos, Arr(xs), end, depth)
  {
    hide EncHead, EncAll, AllWellFormed, DepthAll;
    ConcatAt(b, pos, EncHead(4, |xs|), EncAll(xs));
  }

  lemma MapStands(b: Bytes, pos: nat, xs: seq<Item>, end: nat, depth: nat)
    requires |xs| % 2 == 0 && |xs| / 2 < MAX_ARG && StartsWith(b, pos, EncHead(5, |xs| / 2))
    requires StandAll(b, pos + |EncHead(5, |xs| / 2)|, xs, end, depth + 1)
    ensures Stands(b, pos, Map(xs), end, depth)
  {
    hide EncHead, EncAll, AllWellFormed, DepthAll;
    ConcatAt(b, pos, EncHead(5, |xs| / 2), EncAll(xs));
  }

  lemma TagStands(b: Bytes, pos: nat, arg: nat, y: Item, end: nat, depth: nat)
    requires arg < MAX_ARG && StartsWith(b, pos, EncHead(6, arg)) &&
             Stands(b, pos + |EncHead(6, arg)|, y, end, depth + 1)
    ensures Stands(b, pos, Tag(arg, y), end, depth)
  {
    hide EncHead;
    ConcatAt(b, pos, EncHead(6, arg), Enc(y));
  }

  /** What the skipper accepts is an item of the grammar, and it stops right behind it. */
  lemma {:induction false} SkipSound(b: Bytes, pos: nat, depth: nat) returns (x: Item)
    requires SkipOne(b, pos, depth).Some?
    ensures Stands(b, pos, x, SkipOne(b, pos, depth).value, depth)
    decreases |b| - pos, 0, 0
  {
    hide EncHead, HeadAt, EncAll, AllWellFormed, DepthAll, StandAll;
    var h, pos' := HeadAt(b, pos).value, HeadAt(b, pos).pos;
    HeadSound(b, pos);
    if h.major in {0, 1, 7} {
      x := Atom(h.major, h.arg);
    } else if h.major in {2, 3} {
      x := Text(h.major, b[pos'..pos' + h.arg]);
      TextStands(b, pos, h.major, x.content, depth);
    } else if h.major == 4 {
      var xs := SkipManySound(b, pos', depth + 1, h.arg);
      x := Arr(xs);
      ArrStands(b, pos, xs, SkipOne(b, pos, depth).value, depth);
    } else if h.major == 5 {
      var xs := SkipManySound(b, pos', depth + 1, 2 * h.arg);
      x := Map(xs);
      MapStands(b, pos, xs, SkipOne(b, pos, depth).value, depth);
    } else {
      var y := SkipSound(b, pos', depth + 1);
      x := Tag(h.arg, y);
      TagStands(b, pos, h.arg, y, SkipOne(b, pos, depth).value, depth);
    }
  }

  lemma {:induction false} SkipManySound(b: Bytes, pos: nat, depth: nat, n: nat) returns (xs: seq<Item>)
    requires pos <= |b| && depth <= MAX_DEPTH && SkipMany(b, pos, depth, n).Some?
    ensures |xs| == n && StandAll(b, pos, xs, SkipMany(b, pos, depth, n).value, depth)
    decreases |b| - pos, 1, n
  {
    hide EncHead, HeadAt, SkipOne, Enc, Depth, WellFormed;
    if n == 0 {
      xs := [];
    } else {
      var pos' := SkipOne(b, pos, depth).value;
      var x := SkipSound(b, pos, depth);
      var rest := SkipManySound(b, pos', depth, n - 1);
      xs := [x] + rest;
      assert xs[1..] == rest;
      ConcatAt(b, pos, Enc(x), EncAll(rest));
    }
  }

  /** One step of the skipper, by the head it reads. */
  lemma SkipStep(b: Bytes, pos: nat, depth: nat)
    requires depth < MAX_DEPTH
    ensures HeadAt(b, pos).Got? ==>
            var (h, end) := (HeadAt(b, pos).value, HeadAt(b, pos).pos);
            && (h.major in {0, 1, 7} ==> SkipOne(b, pos, depth) == Some(end))
            && (h.major in {2, 3} && h.arg <= |b| - end ==> SkipOne(b, pos, depth) == Some(end + h.arg))
            && (h.major == 4 ==> SkipOne(b, pos, depth) == SkipMany(b, end, depth + 1, h.arg))
            && (h.major == 5 ==> SkipOne(b, pos, depth) == SkipMany(b, end, depth + 1, 2 * h.arg))
            && (h.major == 6 ==> SkipOne(b, pos, depth) == SkipOne(b, end, depth + 1))
  {
    if HeadAt(b, pos).Got? { HeadSound(b, pos); }
    hide HeadAt, EncHead, SkipMany;
  }

  /** Every item of the grammar within the depth cap is skipped. */
  lemma {:induction false} SkipComplete(b: Bytes, pos: nat, x: Item, pos': nat, depth: nat)
    requires Stands(b, pos, x, pos', depth)
    ensures SkipOne(b, pos, depth) == Some(pos')
    decreases x
  {
    hide EncHead, HeadAt, SkipMany, EncAll, AllWellFormed, DepthAll, SkipOne;
    SkipStep(b, pos, depth);
    match x {
      case Atom(major, arg) =>
        HeadComplete(b, pos, major, arg);
      case Text(major, content) =>
        ConcatAt(b, pos, EncHead(major, |content|), content);
        HeadComplete(b, pos, major, |content|);
      case Arr(items) =>
        ConcatAt(b, pos, EncHead(4, |items|), EncAll(items));
        HeadComplete(b, pos, 4, |items|);
        SkipManyComplete(b, pos + |EncHead(4, |items|)|, items, pos', depth + 1);
      case Map(entries) =>
        var n := |entries| / 2;
        ConcatAt(b, pos, EncHead(5, n), EncAll(entries));
        HeadComplete(b, pos, 5, n);
        SkipManyComplete(b, pos + |EncHead(5, n)|, entries, pos', depth + 1);
      case Tag(arg, item) =>
        ConcatAt(b, pos, EncHead(6, arg), Enc(item));
        HeadComplete(b, pos, 6, arg);
        SkipComplete(b, pos + |EncHead(6, arg)|, item, pos', depth + 1);
    }
  }

  lemma {:induction false} SkipManyComplete(b: Bytes, pos: nat, xs: seq<Item>, pos': nat, depth: nat)
    requires pos <= |b| && StandAll(b, pos, xs, pos', depth)
    ensures SkipMany(b, pos, depth, |xs|) == Some(pos')
    decreases xs
  {
    hide EncHead, HeadAt, SkipOne, Enc, Depth, WellFormed;
    if xs != [] {
      ConcatAt(b, pos, Enc(xs[0]), EncAll(xs[1..]));
      SkipComplete(b, pos, xs[0], pos + |Enc(xs[0])|, depth);
      SkipManyComplete(b, pos + |Enc(xs[0])|, xs[1..], pos', depth);
    }
  }

  /** The skipper succeeds exactly where an item of the grammar stands within the depth cap,
      and then stops right behind it. */
  lemma {:induction false} SkipExact(b: Bytes, pos: nat, pos': nat, depth: nat)
    ensures SkipOne(b, pos, depth) == Some(pos') <==> exists x :: Stands(b, pos, x, pos', depth)
  {
    hide SkipOne, Stands;
    if SkipOne(b, pos, depth) == Some(pos') {
      var x := SkipSound(b, pos, depth);
    }
    if x :| Stands(b, pos, x, pos', depth) {
      SkipComplete(b, pos, x, pos', depth);
    }
  }

  /** Two items standing at the same position are the same item. */
  lemma {:induction false} Unambiguous(b: Bytes, pos: nat, x: Item, y: Item)
    requires WellFormed(x) && WellFormed(y) && StartsWith(b, pos, Enc(x)) && StartsWith(b, pos, Enc(y))
    ensures x == y
    decreases x, 1
  {
    hide EncHead, HeadAt, Enc, EncAll, AllWellFormed, HeadItem;
    HeadOf(b, pos, x);
    HeadOf(b, pos, y);
    SameShape(x, y);
    match x {
      case Atom(_, _) =>
      case Text(_, _) =>
        TextBody(b, pos, x);
        TextBody(b, pos, y);
      case Arr(_) => UnambiguousArr(b, pos, x, y);
      case Map(_) => UnambiguousMap(b, pos, x, y);
      case Tag(_, _) => UnambiguousTag(b, pos, x, y);
    }
  }

  lemma {:induction false} UnambiguousArr(b: Bytes, pos: nat, x: Item, y: Item)
    requires x.Arr? && y.Arr? && |x.items| == |y.items|
    requires WellFormed(x) && WellFormed(y) && StartsWith(b, pos, Enc(x)) && StartsWith(b, pos, Enc(y))
    ensures x == y
    decreases x, 0
  {
    hide EncHead, EncAll, AllWellFormed;
    ConcatAt(b, pos, EncHead(4, |x.items|), EncAll(x.items));
    ConcatAt(b, pos, EncHead(4, |x.items|), EncAll(y.items));
    UnambiguousAll(b, pos + |EncHead(4, |x.items|)|, x.items, y.items);
  }

  lemma {:induction false} UnambiguousMap(b: Bytes, pos: nat, x: Item, y: Item)
    requires x.Map? && y.Map? && |x.entries| == |y.entries|
    requires WellFormed(x) && WellFormed(y) && StartsWith(b, pos, Enc(x)) && StartsWith(b, pos, Enc(y))
    ensures x == y
    decreases x, 0
  {
    hide EncHead, EncAll, AllWellFormed;
    var head := EncHead(5, |x.entries| / 2);
    ConcatAt(b, pos, head, EncAll(x.entries));
    ConcatAt(b, pos, head, EncAll(y.entries));
    UnambiguousAll(b, pos + |head|, x.entries, y.entries);
  }

  lemma {:induction false} UnambiguousTag(b: Bytes, pos: nat, x: Item, y: Item)
    requires x.Tag? && y.Tag? && x.arg == y.arg
    requires WellFormed(x) && WellFormed(y) && StartsWith(b, pos, Enc(x)) && StartsWith(b, pos, Enc(y))
    ensures x == y
    decreases x, 0
  {
    hide EncHead;
    ConcatAt(b, pos, EncHead(6, x.arg), Enc(x.item));
    ConcatAt(b, pos, EncHead(6, x.arg), Enc(y.item));
    Unambiguous(b, pos + |EncHead(6, x.arg)|, x.item, y.item);
  }

  lemma TextBody(b: Bytes, pos: nat, x: Item)
    requires x.Text? && WellFormed(x) && StartsWith(b, pos, Enc(x))
    ensures StartsWith(b, pos + |EncHead(x.major, |x.content|)|, x.content)
  {
    hide EncHead;
    ConcatAt(b, pos, EncHead(x.major, |x.content|), x.content);
  }

  /** Items with equal heads are of one kind and equally long. */
  lemma SameShape(x: Item, y: Item)
    requires WellFormed(x) && WellFormed(y) && HeadItem(x) == HeadItem(y)
    ensures x.Atom? ==> x == y
    ensures x.Text? ==> y.Text? && x.major == y.major && |x.content| == |y.content|
    ensures x.Arr? ==> y.Arr? && |x.items| == |y.items|
    ensures x.Map? ==> y.Map? && |x.entries| == |y.entries|
    ensures x.Tag? ==> y.Tag? && x.arg == y.arg
  {
    hide AllWellFormed;
  }

  lemma EncAllCons(x: Item, xs: seq<Item>)
    requires WellFormed(x) && AllWellFormed(xs)
    ensures AllWellFormed([x] + xs) && EncAll([x] + xs) == Enc(x) + EncAll(xs)
    ensures DepthAll([x] + xs) == if Depth(x) > DepthAll(xs) then Depth(x) else DepthAll(xs)
  {
    assert ([x] + xs)[1..] == xs;
    hide Enc, WellFormed, Depth;
  }

  /** A whole byte string that is one item is skipped to its end. */
  lemma WholeItem(b: Bytes, x: Item)
    requires WellFormed(x) && Enc(x) == b && Depth(x) <= 64
    ensures SkipOne(b, 0, 0) == Some(|b|)
  {
    hide SkipOne, Enc, WellFormed, Depth;
    assert b[0..|b|] == b;
    SkipComplete(b, 0, x, |b|, 0);
  }

  lemma SmallItems()
    ensures forall n: nat :: n < 24 ==> WellFormed(Atom(0, n)) && Enc(Atom(0, n)) == [n] && Depth(Atom(0, n)) == 1
    ensures forall c: byte :: WellFormed(Text(3, [c])) && Enc(Text(3, [c])) == [0x61, c] && Depth(Text(3, [c])) == 1
    ensures AllWellFormed([]) && EncAll([]) == [] && DepthAll([]) == 0
  {
  }

  lemma ArrayOfTwo()
    ensures var x := Arr([Atom(0, 2)] + ([Atom(0, 3)] + []));
            WellFormed(x) && Enc(x) == [0x82, 2, 3] && Depth(x) == 2
  {
    SmallItems();
    EncAllCons(Atom(0, 3), []);
    EncAllCons(Atom(0, 2), [Atom(0, 3)] + []);
    assert EncHead(4, 2) == [0x82];
    hide EncHead, EncAll, AllWellFormed, DepthAll;
  }

  /** Items of RFC 8949 appendix A: a tagged time 1(1363896240), [2, 3], {"a": 1, "b": [2, 3]},
      true, 1.1, -1, h'0102' and []. */
  lemma SkipExamples()
    ensures SkipOne([0xc1, 0x1a, 0x51, 0x4b, 0x67, 0xb0], 0, 0) == Some(6)
    ensures SkipOne([0x82, 0x02, 0x03], 0, 0) == Some(3)
    ensures SkipOne([0xa2, 0x61, 0x61, 0x01, 0x61, 0x62, 0x82, 0x02, 0x03], 0, 0) == Some(9)
    ensures SkipOne([0xf5], 0, 0) == Some(1)
    ensures SkipOne([0xfb, 0x3f, 0xf1, 0x99, 0x99, 0x99, 0x99, 0x99, 0x9a], 0, 0) == Some(9)
    ensures SkipOne([0x20], 0, 0) == Some(1) && SkipOne([0x42, 0x01, 0x02], 0, 0) == Some(3)
    ensures SkipOne([0x80], 0, 0) == Some(1)
  {
    hide SkipOne;
    ShortExamples();
    TagExample();
    MapExample();
    ArrayOfTwo();
    WholeItem([0x82, 2, 3], Arr([Atom(0, 2)] + ([Atom(0, 3)] + [])));
    AtomExamples();
  }

  lemma TagExample()
    ensures SkipOne([0xc1, 0x1a, 0x51, 0x4b, 0x67, 0xb0], 0, 0) == Some(6)
  {
    hide SkipOne;
    assert Fixed(1363896240, 4) == [0x51, 0x4b, 0x67, 0xb0];
    assert EncHead(6, 1) == [0xc1] && EncHead(0, 1363896240) == [0x1a, 0x51, 0x4b, 0x67, 0xb0];
    WholeItem([0xc1, 0x1a, 0x51, 0x4b, 0x67, 0xb0], Tag(1, Atom(0, 1363896240)));
  }

  lemma AtomExamples()
    ensures SkipOne([0xf5], 0, 0) == Some(1)
    ensures SkipOne([0xfb, 0x3f, 0xf1, 0x99, 0x99, 0x99, 0x99, 0x99, 0x9a], 0, 0) == Some(9)
  {
    hide SkipOne;
    WholeItem([0xf5], Atom(7, 21));
    FloatHead();
    hide EncHead;
    WholeItem([0xfb, 0x3f, 0xf1, 0x99, 0x99, 0x99, 0x99, 0x99, 0x9a], Atom(7, 0x3ff1_9999_9999_999a));
  }

  lemma ShortExamples()
    ensures SkipOne([0x20], 0, 0) == Some(1) && SkipOne([0x42, 0x01, 0x02], 0, 0) == Some(3)
    ensures SkipOne([0x80], 0, 0) == Some(1)
  {
    hide SkipOne;
    WholeItem([0x20], Atom(1, 0));
    assert EncHead(2, 2) + [1, 2] == [0x42, 0x01, 0x02];
    WholeItem([0x42, 0x01, 0x02], Text(2, [1, 2]));
    assert EncHead(4, 0) + EncAll([]) == [0x80];
    WholeItem([0x80], Arr([]));
  }

  lemma FloatHead()
    ensures EncHead(7, 0x3ff1_9999_9999_999a) == [0xfb, 0x3f, 0xf1, 0x99, 0x99, 0x99, 0x99, 0x99, 0x9a]
  {
    assert Fixed(0x3ff1_9999_9999_999a, 8) == [0x3f, 0xf1, 0x99, 0x99, 0x99, 0x99, 0x99, 0x9a];
    hide Fixed;
  }

  lemma MapExample()
    ensures SkipOne([0xa2, 0x61, 0x61, 0x01, 0x61, 0x62, 0x82, 0x02, 0x03], 0, 0) == Some(9)
  {
    SmallItems();
    ArrayOfTwo();
    hide SkipOne, Enc, Depth, WellFormed, EncAll, DepthAll, AllWellFormed;
    var two := Arr([Atom(0, 2)] + ([Atom(0, 3)] + []));
    EncAllCons(two, []);
    EncAllCons(Text(3, [0x62]), [two] + []);
    EncAllCons(Atom(0, 1), [Text(3, [0x62])] + ([two] + []));
    var entries := [Text(3, [0x61])] + ([Atom(0, 1)] + ([Text(3, [0x62])] + ([two] + [])));
    EncAllCons(Text(3, [0x61]), [Atom(0, 1)] + ([Text(3, [0x62])] + ([two] + [])));
    MapOf(entries);
    assert EncAll(entries) == [0x61, 0x61, 0x01, 0x61, 0x62, 0x82, 0x02, 0x03];
    WholeItem([0xa2, 0x61, 0x61, 0x01, 0x61, 0x62, 0x82, 0x02, 0x03], Map(entries));
  }

  lemma MapOf(entries: seq<Item>)
    requires |entries| == 4 && AllWellFormed(entries)
    ensures WellFormed(Map(entries)) && Enc(Map(entries)) == [0xa2] + EncAll(entries)
    ensures Depth(Map(entries)) == 1 + DepthAll(entries)
  {
    assert EncHead(5, 2) == [0xa2];
    hide EncHead, EncAll, AllWellFormed, DepthAll;
  }

  /** n arrays around nothing. */
  function Nested(n: nat): (x: Item)
    ensures WellFormed(x)
  {
    if n == 0 then Arr([]) else Arr([Nested(n - 1)])
  }

  lemma {:induction false} NestedDepth(n: nat)
    ensures Depth(Nested(n)) == n + 1
  {
    if n > 0 {
      NestedDepth(n - 1);
      EncAllCons(Nested(n - 1), []);
      assert [Nested(n - 1)] + [] == [Nested(n - 1)];
    }
  }

  /** The cap is 64 levels: 64 nested arrays are skipped, 65 are refused. */
  lemma DepthCap(n: nat)
    ensures SkipOne(Enc(Nested(n)), 0, 0).Some? <==> n < 64
  {
    NestedDepth(n);
    hide SkipOne, Enc, WellFormed, Depth, Nested;
    var b := Enc(Nested(n));
    assert b[0..|b|] == b;
    if n < 64 { WholeItem(b, Nested(n)); }
    if SkipOne(b, 0, 0).Some? {
      var x := SkipSound(b, 0, 0);
      Unambiguous(b, 0, x, Nested(n));
    }
  }

  function HeadItem(x: Item): Head {
    match x
    case Atom(major, arg) => Head(major, arg)
    case Text(major, content) => Head(major, |content|)
    case Arr(items) => Head(4, |items|)
    case Map(entries) => Head(5, |entries| / 2)
    case Tag(arg, _) => Head(6, arg)
  }

  lemma HeadOf(b: Bytes, pos: nat, x: Item)
    requires WellFormed(x) && StartsWith(b, pos, Enc(x))
    ensures HeadAt(b, pos).Got? && HeadAt(b, pos).value == HeadItem(x)
  {
    hide EncHead, HeadAt;
    var h := HeadItem(x);
    var rest := Enc(x)[|EncHead(h.major, h.arg)|..];
    assert Enc(x) == EncHead(h.major, h.arg) + rest;
    ConcatAt(b, pos, EncHead(h.major, h.arg), rest);
    HeadComplete(b, pos, h.major, h.arg);
  }

  lemma {:induction false} UnambiguousAll(b: Bytes, pos: nat, xs: seq<Item>, ys: seq<Item>)
    requires AllWellFormed(xs) && AllWellFormed(ys) && |xs| == |ys|
    requires StartsWith(b, pos, EncAll(xs)) && StartsWith(b, pos, EncAll(ys))
    ensures xs == ys
    decreases xs, 1
  {
    hide EncHead, Enc, WellFormed;
    if xs != [] {
      ConcatAt(b, pos, Enc(xs[0]), EncAll(xs[1..]));
      ConcatAt(b, pos, Enc(ys[0]), EncAll(ys[1..]));
      Unambiguous(b, pos, xs[0], ys[0]);
      UnambiguousAll(b, pos + |Enc(xs[0])|, xs[1..], ys[1..]);
      assert xs == [xs[0]] + xs[1..] && ys == [ys[0]] + ys[1..];
    }
  }
}
