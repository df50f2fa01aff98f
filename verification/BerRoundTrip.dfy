/** The outermost element: which encodings of segmented strings OCTET_STRING_decode_ber takes, and what it makes
    of them. */
module BerRoundTrip {
  import opened Octets
  import opened BerTlv
  import opened BerMachine
  import opened BerBuffer
  import opened BerTree
  import opened BitCodec

  // ---------------------------------------------------------------- the meaning of a tree

  /** The octets that a primitive segment contributes. */
  function LeafPayload(d: Descriptor, body: seq<Octet>): seq<Octet> {
    if d.variant.Bits? && body != [] then body[1..] else body
  }

  /** The in-order concatenation of the segments. */
  function Payload(d: Descriptor, t: Tree): seq<Octet> {
    match t
    case Leaf(_, body) => LeafPayload(d, body)
    case Node(_, _, kids) => PayloadAll(d, kids)
  }

  function PayloadAll(d: Descriptor, f: Forest): seq<Octet> {
    match f
    case Nil => []
    case Cons(t, rest) => Payload(d, t) + PayloadAll(d, rest)
  }

  /** The unused-bits count of the last segment that has contents octets. */
  function Unused(d: Descriptor, t: Tree, before: Octet): Octet
    decreases t
  {
    match t
    case Leaf(_, body) => if d.variant.Bits? && body != [] then body[0] else before
    case Node(_, _, kids) => UnusedAll(d, kids, before)
  }

  function UnusedAll(d: Descriptor, f: Forest, before: Octet): Octet
    decreases f
  {
    match f
    case Nil => before
    case Cons(t, rest) => UnusedAll(d, rest, Unused(d, t, before))
  }

  /** Every element carries the tag that the descriptor's table has for its depth. */
  predicate TagsMatch(d: Descriptor, depth: nat, t: Tree)
    decreases t
  {
    && TagOf(t) == Expected(d, depth, TagOf(t))
    && (t.Node? ==> TagsMatchAll(d, depth + 1, t.kids))
  }

  predicate TagsMatchAll(d: Descriptor, depth: nat, f: Forest)
    decreases f
  {
    match f
    case Nil => true
    case Cons(t, rest) => TagsMatch(d, depth, t) && TagsMatchAll(d, depth, rest)
  }

  /** Each segment fits the `int` in which its size is counted. */
  predicate SegmentsFit(t: Tree) {
    match t
    case Leaf(_, body) => |body| < INT_LIMIT
    case Node(_, _, kids) => SegmentsFitAll(kids)
  }

  predicate SegmentsFitAll(f: Forest) {
    match f
    case Nil => true
    case Cons(t, rest) => SegmentsFit(t) && SegmentsFitAll(rest)
  }

  predicate Accepted(d: Descriptor, t: Tree) {
    TagOf(t) == d.tag && TagsMatch(d, 0, t) && |Payload(d, t)| < MAX_SIZE
  }

  /** The value of a BIT STRING has its unused bits cleared. */
  function Trimmed(d: Descriptor, bytes: seq<Octet>, unused: Octet): seq<Octet> {
    if d.variant.Bits? && bytes != [] then bytes[|bytes| - 1 := Masked(bytes[|bytes| - 1], unused)] else bytes
  }

  // ---------------------------------------------------------------- recursive descent computes the meaning

  ghost predicate Holds(k: Sink, buf: seq<Octet>, unused: Octet) {
    SinkOk(k) && k.buf == buf && k.bitsUnused == unused
  }

  lemma {:induction false} AbsorbMeans(d: Descriptor, depth: nat, k: Sink, t: Tree)
    requires SinkOk(k) && SegmentsFit(t)
    ensures Absorb(d, depth, k, t).Some? <==> TagsMatch(d, depth, t) && |k.buf| + |Payload(d, t)| < MAX_SIZE
    ensures Absorb(d, depth, k, t).Some?
            ==> Holds(Absorb(d, depth, k, t).value, k.buf + Payload(d, t), Unused(d, t, k.bitsUnused))
    decreases t
  {
    match t
    case Leaf(_, body) =>
      if body != [] {
        if d.variant.Bits? {
          AppendStores(k.(bitsUnused := body[0]), body[1..]);
        } else {
          AppendStores(k, body);
        }
      }
    case Node(_, _, kids) => AbsorbAllMeans(d, depth + 1, k, kids);
  }

  lemma {:induction false} AbsorbAllMeans(d: Descriptor, depth: nat, k: Sink, f: Forest)
    requires SinkOk(k) && SegmentsFitAll(f)
    ensures AbsorbAll(d, depth, k, f).Some? <==> TagsMatchAll(d, depth, f) && |k.buf| + |PayloadAll(d, f)| < MAX_SIZE
    ensures AbsorbAll(d, depth, k, f).Some?
            ==> Holds(AbsorbAll(d, depth, k, f).value, k.buf + PayloadAll(d, f), UnusedAll(d, f, k.bitsUnused))
    decreases f
  {
    match f
    case Nil =>
    case Cons(t, rest) =>
      AbsorbMeans(d, depth, k, t);
      match Absorb(d, depth, k, t)
      case None =>
      case Some(k') =>
        AbsorbAllMeans(d, depth, k', rest);
        assert k.buf + Payload(d, t) + PayloadAll(d, rest) == k.buf + (Payload(d, t) + PayloadAll(d, rest));
  }

  // ---------------------------------------------------------------- the outermost element

  /** Phase 0 in full view of the outermost header. */
  lemma RootStarts(d: Descriptor, t: Tree, rest: seq<Octet>)
    requires Valid(t) && |Encode(t)| < SSIZE_LIMIT
    ensures Step(d, FRESH, Encode(t) + rest)
            == if TagOf(t) != d.tag then Stop(Fail, FRESH)
               else if t.Node? then Next(FRESH.(phase := Expect), 0)
               else Next(FRESH.(phase := Primitive, left := |t.body|), |t.head|)
  {
    hide FetchTag, FetchLength, HeadFor;
    HeadIsNotEmpty(t);
    var tail := Encode(t)[|t.head|..] + rest;
    assert Encode(t) + rest == t.head + tail;
    var len := if t.Leaf? then |t.body| else if t.definite then |EncodeAll(t.kids)| else INDEFINITE;
    HeadsExactly(t.head, t.Node?, len);
    HeadIsRead(FRESH, t.head, t.Node?, len, tail);
  }

  /** The run over Encode(t) + rest stops with the verdict, the count and the value that the tree calls for. */
  ghost predicate DecodesTo(d: Descriptor, t: Tree, rest: seq<Octet>) {
    var r := Run(d, FRESH, Encode(t) + rest);
    if Accepted(d, t) then
      && r.outcome == Done && r.used == |Encode(t)|
      && r.s.sink.buf == Trimmed(d, Payload(d, t), Unused(d, t, 0))
      && r.s.sink.bitsUnused == Unused(d, t, 0)
    else r.outcome == Fail
  }

  lemma FinishRuns(d: Descriptor, s: State, rest: seq<Octet>)
    requires Wf(s) && s.phase.Finished?
    ensures Run(d, s, rest) == Result(Done, 0, s.(sink := Finalized(d, s.sink)))
  {
  }

  /** Phase 3 with all the contents octets in view. */
  lemma PrimitiveRuns(d: Descriptor, body: seq<Octet>, rest: seq<Octet>)
    requires |body| < INT_LIMIT
    ensures var r := Run(d, FRESH.(phase := Primitive, left := |body|), body + rest);
            if |LeafPayload(d, body)| < MAX_SIZE then
              && r.outcome == Done && r.used == |body|
              && r.s.sink.buf == Trimmed(d, LeafPayload(d, body), if d.variant.Bits? && body != [] then body[0] else 0)
              && r.s.sink.bitsUnused == if d.variant.Bits? && body != [] then body[0] else 0
            else r.outcome == Fail
  {
    hide Run;
    var s1 := FRESH.(phase := Primitive, left := |body|);
    OneStep(d, s1, body + rest);
    assert (body + rest)[..|body|] == body;
    if d.variant.Bits? && body != [] {
      AppendStores(FRESH.sink.(bitsUnused := body[0]), body[1..]);
    } else {
      AppendStores(FRESH.sink, body);
    }
    match Store(d, FRESH.sink, false, body)
    case None =>
    case Some(k) => FinishRuns(d, s1.(phase := Finished, left := 0, sink := k), (body + rest)[|body|..]);
  }

  lemma LeafRoot(d: Descriptor, t: Tree, rest: seq<Octet>)
    requires t.Leaf? && Valid(t) && |Encode(t)| < SSIZE_LIMIT && SegmentsFit(t)
    ensures DecodesTo(d, t, rest)
  {
    hide Run, Step;
    RootStarts(d, t, rest);
    OneStep(d, FRESH, Encode(t) + rest);
    assert (Encode(t) + rest)[|t.head|..] == t.body + rest;
    PrimitiveRuns(d, t.body, rest);
  }

  /** The frame of the outermost element is closed, and decoding is over. */
  lemma RootCloses(d: Descriptor, t: Tree, k: Sink, rest: seq<Octet>)
    requires t.Node? && |Encode(t)| < SSIZE_LIMIT
    ensures var f := Charge(RootFrame(t), |EncodeAll(t.kids)|);
            var s := State(Expect, 0, [f], k);
            && Wf(s)
            && Run(d, s, Trailer(t) + rest) == Result(Done, |Trailer(t)|, State(Finished, 0, [], Finalized(d, k)))
  {
    var f := Charge(RootFrame(t), |EncodeAll(t.kids)|);
    var s := State(Expect, 0, [f], k);
    var s3 := State(Finished, 0, [], k);
    FinishRuns(d, s3, rest);
    assert rest[0..] == rest;
    if t.definite {
      assert Trailer(t) + rest == rest;
      assert Step(d, s, rest) == Next(s3, 0);
    } else {
      var s2 := State(Expect, 0, [EndOfContents(f)], k);
      assert (Trailer(t) + rest)[2..] == rest;
      assert Step(d, s, Trailer(t) + rest) == Next(s2, 2);
      assert Step(d, s2, rest) == Next(s3, 0);
    }
  }

  function RootFrame(t: Tree): Frame
    requires t.Node?
  {
    NodeFrame(t, Frame(-1, 0, true, false))
  }

  lemma RootOpens(d: Descriptor, t: Tree, rest: seq<Octet>)
    requires t.Node? && Valid(t) && |Encode(t)| < SSIZE_LIMIT && TagOf(t) == d.tag
    ensures Run(d, FRESH, Encode(t) + rest)
            == Via(d, State(Expect, 0, [RootFrame(t)], FRESH.sink), |t.head|, EncodeAll(t.kids) + (Trailer(t) + rest))
  {
    hide Run, Step, HeadFor, FetchTag, FetchLength, EncodeAll;
    var s0 := FRESH.(phase := Expect);
    var input := Encode(t) + rest;
    RootStarts(d, t, rest);
    OneStep(d, FRESH, input);
    assert input[0..] == input;
    HeadIsPushed(d, s0, t, rest);
    OneStep(d, s0, input);
    assert [] + [RootFrame(t)] == [RootFrame(t)];
    assert Step(d, s0, input) == Next(State(Expect, 0, [RootFrame(t)], FRESH.sink), |t.head|);
    assert input[|t.head|..] == EncodeAll(t.kids) + (Trailer(t) + rest);
  }

  lemma NodeRoot(d: Descriptor, t: Tree, rest: seq<Octet>)
    requires t.Node? && Valid(t) && |Encode(t)| < SSIZE_LIMIT && SegmentsFit(t)
    ensures DecodesTo(d, t, rest)
  {
    hide Run, Step, FetchTag, FetchLength, Masked, SinkOk, HeadFor;
    match t
    case Node(head, definite, kids) =>
      if TagOf(t) != d.tag {
        RootStarts(d, t, rest);
        OneStep(d, FRESH, Encode(t) + rest);
      } else {
        RootOpens(d, t, rest);
        var s1 := State(Expect, 0, [RootFrame(t)], FRESH.sink);
        ForestRun(d, s1, kids, Trailer(t) + rest);
        AbsorbAllMeans(d, 1, FRESH.sink, kids);
        match AbsorbAll(d, 1, FRESH.sink, kids)
        case None =>
        case Some(k) =>
          assert Charged(s1, k, |EncodeAll(kids)|) == State(Expect, 0, [Charge(RootFrame(t), |EncodeAll(kids)|)], k);
          RootCloses(d, t, k, rest);
      }
  }

  /**
   * Every valid encoding of every tree of segments, definite and indefinite frames mixed at any depth, whatever
   * follows it: decoding succeeds exactly when the tags match the descriptor and the value stays below 2^30 octets;
   * it then consumes exactly the encoding and yields the concatenation of the segments.
   */
  lemma DecodesEveryTree(d: Descriptor, t: Tree, rest: seq<Octet>)
    requires Valid(t) && |Encode(t)| < SSIZE_LIMIT && SegmentsFit(t)
    ensures DecodesTo(d, t, rest)
  {
    hide Run, Step;
    if t.Leaf? {
      LeafRoot(d, t, rest);
    } else {
      NodeRoot(d, t, rest);
    }
  }

  // ---------------------------------------------------------------- heads and indefinite lengths in octets

  /** One identifier octet for a number from 1 to 30, and any length octets. */
  lemma ShortHead(first: Octet, l: seq<Octet>, constructed: bool, len: int)
    requires first % 32 < 31 && first != 0 && (first % 32 != 0 || first >= 64) && IsConstructed(first) == constructed
    requires IsLength(l, constructed, len)
    ensures HeadFor([first] + l, constructed, len) && FetchTag([first] + l) == Got(1, first % 32 * 4 + first / 64)
  {
    hide IsLength, IsConstructed;
    var head := [first] + l;
    assert head[..1] == [first] && head[1..] == l;
    FirstOctet(first, first % 32, first / 64, constructed);
    assert IsHeadAt(head, 1, constructed, len);
  }

  /** The constructed encoding of indefinite length that begins with `first`, octet by octet. */
  function Indefinite(first: Octet, kids: Forest): seq<Octet> {
    [first, 0x80] + EncodeAll(kids) + [0, 0]
  }

  /** `first` is the identifier octet of the constructed form, of a tag that has one octet. */
  predicate IsConstructedFirst(d: Descriptor, first: Octet) {
    IsConstructed(first) && first % 32 < 31 && d.tag == first % 32 * 4 + first / 64 && d.tag != 0
  }

  /** An element of indefinite length, whatever is in it: it ends at the two zero octets after its segments, is
      consumed whole, and yields the concatenation of the segments. */
  lemma DecodesIndefinite(d: Descriptor, first: Octet, kids: Forest, rest: seq<Octet>)
    requires IsConstructedFirst(d, first) && ValidAll(kids) && SegmentsFitAll(kids)
    requires |Indefinite(first, kids)| < SSIZE_LIMIT
    ensures Valid(Node([first, 0x80], false, kids))
    ensures var r := Run(d, FRESH, Indefinite(first, kids) + rest);
            if TagsMatchAll(d, 1, kids) && |PayloadAll(d, kids)| < MAX_SIZE then
              && r.outcome == Done && r.used == |Indefinite(first, kids)|
              && r.s.sink.buf == Trimmed(d, PayloadAll(d, kids), UnusedAll(d, kids, 0))
            else r.outcome == Fail
  {
    hide Run, Step, IsConstructed, FetchTag, HeadFor;
    var t := Node([first, 0x80], false, kids);
    assert IsLength([0x80], true, INDEFINITE);
    TagNotZero(first);
    ShortHead(first, [0x80], true, INDEFINITE);
    assert [first] + [0x80] == [first, 0x80];
    assert Encode(t) == Indefinite(first, kids);
    DecodesEveryTree(d, t, rest);
  }

  lemma TagNotZero(first: Octet)
    ensures first % 32 * 4 + first / 64 != 0 ==> first % 32 != 0 || first >= 64
  {
  }

  /** OCTET STRING: [UNIVERSAL 4]. */
  const OCTET_STRING := Descriptor(Chars, 4 * 4, [4 * 4])

  /** The shortest one: 24 80 04 01 61 00 00 is the string "a", of seven octets. */
  lemma IndefiniteExample(rest: seq<Octet>)
    ensures var r := Run(OCTET_STRING, FRESH, [0x24, 0x80, 0x04, 0x01, 0x61, 0x00, 0x00] + rest);
            r.outcome == Done && r.used == 7 && r.s.sink.buf == [0x61]
  {
    hide Run, HeadFor, FetchTag;
    var kids := Cons(Leaf([4, 1], [0x61]), Nil);
    OneSegment();
    assert Indefinite(0x24, kids) == [0x24, 0x80, 0x04, 0x01, 0x61, 0x00, 0x00];
    DecodesIndefinite(OCTET_STRING, 0x24, kids, rest);
  }

  /** The segment "a" of an OCTET STRING. */
  lemma OneSegment()
    ensures var kids := Cons(Leaf([4, 1], [0x61]), Nil);
            && ValidAll(kids) && SegmentsFitAll(kids) && EncodeAll(kids) == [4, 1, 0x61]
            && TagsMatchAll(OCTET_STRING, 1, kids) && PayloadAll(OCTET_STRING, kids) == [0x61]
  {
    hide HeadFor, FetchTag;
    var segment := Leaf([4, 1], [0x61]);
    ShortHead(4, [1], false, 1);
    assert [4] + [1] == [4, 1];
    assert Encode(segment) == [4, 1, 0x61];
    assert EncodeAll(Cons(segment, Nil)) == Encode(segment) + EncodeAll(Nil) == [4, 1, 0x61];
    assert PayloadAll(OCTET_STRING, Cons(segment, Nil)) == [0x61] + PayloadAll(OCTET_STRING, Nil) == [0x61];
  }

  // ---------------------------------------------------------------- which bits and which tags

  /** Clearing n unused bits keeps the bits from n up and zeroes the ones below. */
  lemma {:induction false} MaskedBits(b: Octet, n: Octet, k: nat)
    requires k < 8
    ensures BitOf(Masked(b, n), k) <==> k >= n && BitOf(b, k)
    decreases n
  {
    hide Masked;
    if n >= 8 {
      MaskedAll(b, n);
      NoBit(k);
    } else if n == 0 {
      MaskedNone(b);
    } else {
      MaskedHalf(b, n);
      if k > 0 {
        MaskedBits(b / 2, n - 1, k - 1);
      }
    }
  }

  lemma MaskedAll(b: Octet, n: Octet)
    requires n >= 8
    ensures Masked(b, n) == 0
  {
  }

  lemma MaskedNone(b: Octet)
    ensures Masked(b, 0) == b
  {
  }

  lemma MaskedHalf(b: Octet, n: Octet)
    requires 1 <= n < 8
    ensures Masked(b, n) == 2 * Masked(b / 2, n - 1)
  {
    var (unit, half) := ([1, 2, 4, 8, 16, 32, 64, 128][n], [1, 2, 4, 8, 16, 32, 64, 128][n - 1]);
    assert unit == 2 * half;
    Quotients(b);
    assert b / unit == b / 2 / half;
    assert b / unit * unit == 2 * (b / unit * half);
  }

  lemma Quotients(b: nat)
    ensures b / 4 == b / 2 / 2 && b / 8 == b / 2 / 4 && b / 16 == b / 2 / 8 && b / 32 == b / 2 / 16
    ensures b / 64 == b / 2 / 32 && b / 128 == b / 2 / 64
  {
  }

  lemma {:induction false} NoBit(k: nat)
    ensures !BitOf(0, k)
  {
    if k > 0 {
      NoBit(k - 1);
    }
  }

  /** Every element of the forest, at every depth, has the tag v. */
  predicate AllTagged(f: Forest, v: int) {
    match f
    case Nil => true
    case Cons(t, rest) => TagOf(t) == v && (t.Node? ==> AllTagged(t.kids, v)) && AllTagged(rest, v)
  }

  /** The elements of the forest have the tag v, and all elements inside them the tag w. */
  predicate TaggedThen(f: Forest, v: int, w: int) {
    match f
    case Nil => true
    case Cons(t, rest) => TagOf(t) == v && (t.Node? ==> AllTagged(t.kids, w)) && TaggedThen(rest, v, w)
  }

  lemma {:induction false} DeepTags(d: Descriptor, depth: nat, f: Forest)
    requires d.allTags != [] && depth >= |d.allTags|
    ensures TagsMatchAll(d, depth, f) <==> AllTagged(f, d.allTags[|d.allTags| - 1])
    decreases f
  {
    match f
    case Nil =>
    case Cons(t, rest) =>
      if t.Node? {
        DeepTags(d, depth + 1, t.kids);
      }
      DeepTags(d, depth, rest);
  }

  /** The segments of an OCTET STRING or BIT STRING have that tag at every depth; those of a string type with a tag of
      its own have that tag just inside the outermost element, and the tag of OCTET STRING only further in. */
  lemma {:induction false} SegmentTags(d: Descriptor, kids: Forest)
    requires 1 <= |d.allTags| <= 2
    ensures TagsMatchAll(d, 1, kids)
            <==> if |d.allTags| == 1 then AllTagged(kids, d.allTags[0])
                 else TaggedThen(kids, d.allTags[0], d.allTags[1])
    decreases kids
  {
    if |d.allTags| == 1 {
      DeepTags(d, 1, kids);
    } else {
      match kids
      case Nil =>
      case Cons(t, rest) =>
        if t.Node? {
          DeepTags(d, 2, t.kids);
        }
        SegmentTags(d, rest);
    }
  }

  // ---------------------------------------------------------------- a deviation from the standard

  /** UTF8String: [UNIVERSAL 12] IMPLICIT OCTET STRING (src/msg/UTF8String.c:12-43). */
  const UTF8_STRING := Descriptor(Chars, 12 * 4, [12 * 4, 4 * 4])

  /** The constructed encoding of "a" with its segment tagged OCTET STRING, as section 8.23 of X.690 wants it. */
  const UTF8_SEGMENTED := Node([0x2c, 3], true, Cons(Leaf([4, 1], [0x61]), Nil))

  /**
   * The level of a segment is looked up in the table by the level of the frame around it, so the segments of a
   * UTF8String are held against tag 12 instead of 4: a standard encoding is refused, whatever follows it.
   */
  lemma StandardSegmentsOfUtf8StringRefused(rest: seq<Octet>)
    ensures Valid(UTF8_SEGMENTED)
    ensures Run(UTF8_STRING, FRESH, Encode(UTF8_SEGMENTED) + rest).outcome == Fail
  {
    hide Run, Step, HeadFor, FetchTag;
    var segment := Leaf([4, 1], [0x61]);
    OneSegment();
    ShortHead(4, [1], false, 1);
    ShortHead(0x2c, [3], true, 3);
    assert [4] + [1] == [4, 1] && [0x2c] + [3] == [0x2c, 3];
    assert !TagsMatch(UTF8_STRING, 1, segment);
    DecodesEveryTree(UTF8_STRING, UTF8_SEGMENTED, rest);
  }
}
