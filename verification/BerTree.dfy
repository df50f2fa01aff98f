/** Segmented strings as trees (sections 8.6.4 and 8.7.3 of ITU-T X.690), and the proof that the
    decoder's explicit stack reads every encoding of a tree as recursive descent over it would. */
module BerTree {
  import opened Octets
  import opened Options
  import opened BerTlv
  import opened BerMachine

  /** `head` is any identifier and length octets that X.690 allows; see Valid. */
  datatype Tree = Leaf(head: seq<Octet>, body: seq<Octet>) | Node(head: seq<Octet>, definite: bool, kids: Forest)
  datatype Forest = Nil | Cons(first: Tree, rest: Forest)

  function Encode(t: Tree): seq<Octet> {
    match t
    case Leaf(head, body) => head + body
    case Node(head, definite, kids) => head + EncodeAll(kids) + (if definite then [] else [0, 0])
  }

  function EncodeAll(f: Forest): seq<Octet> {
    match f
    case Nil => []
    case Cons(t, rest) => Encode(t) + EncodeAll(rest)
  }

  /** The tag of identifier octets, its class in the two low bits. */
  function TagFrom(id: seq<Octet>): nat
    requires id != []
  {
    (if |id| == 1 then id[0] % 32 else Septets(id[1..])) * 4 + id[0] / 64
  }

  /** `head` is identifier octets for a tag other than 0, up to k, and length octets for `len`. */
  predicate IsHeadAt(head: seq<Octet>, k: nat, constructed: bool, len: int)
    requires 0 < k <= |head|
  {
    var tag := TagFrom(head[..k]);
    && 0 < tag < 0x1_0000_0000 && IsIdentifier(head[..k], tag % 4, constructed, tag / 4)
    && IsLength(head[k..], constructed, len)
  }

  /** `head` is exactly one identifier followed by the length `len`, in any form. */
  predicate HeadFor(head: seq<Octet>, constructed: bool, len: int) {
    exists k | 0 < k <= |head| :: IsHeadAt(head, k, constructed, len)
  }

  /** The fetch functions find a tag and then the length at the end of `head`. */
  predicate Fetched(head: seq<Octet>, constructed: bool, len: int) {
    && head != [] && IsConstructed(head[0]) == constructed
    && FetchTag(head).Got? && FetchTag(head).value != 0
    && FetchLength(constructed, head[FetchTag(head).used..]) == Got(|head| - FetchTag(head).used, len)
  }

  lemma HeadAtIsFetched(head: seq<Octet>, k: nat, constructed: bool, len: int)
    requires 0 < k <= |head| && IsHeadAt(head, k, constructed, len)
    ensures Fetched(head, constructed, len) && FetchTag(head) == Got(k, TagFrom(head[..k]))
  {
    hide FetchTag, FetchLength, IsIdentifier, IsLength, IsConstructed, TagFrom;
    TagExactly(head[..k], TagFrom(head[..k]), constructed);
    LengthExactly(constructed, head[k..], len);
    FetchTagStable(head[..k], head);
  }

  lemma TagFromIs(id: seq<Octet>, v: nat, constructed: bool)
    requires v < 0x1_0000_0000 && IsIdentifier(id, v % 4, constructed, v / 4)
    ensures TagFrom(id) == v
  {
  }

  /** The heads that the fetch functions read off are exactly those with identifier and length octets in form. */
  lemma HeadsExactly(head: seq<Octet>, constructed: bool, len: int)
    ensures HeadFor(head, constructed, len) <==> Fetched(head, constructed, len)
  {
    hide FetchTag, FetchLength, IsIdentifier, IsLength, IsConstructed, TagFrom, IsHeadAt;
    if HeadFor(head, constructed, len) {
      var k :| 0 < k <= |head| && IsHeadAt(head, k, constructed, len);
      HeadAtIsFetched(head, k, constructed, len);
    }
    if Fetched(head, constructed, len) {
      FetchedIsHeadAt(head, constructed, len);
    }
  }

  lemma FetchedIsHeadAt(head: seq<Octet>, constructed: bool, len: int)
    requires Fetched(head, constructed, len)
    ensures IsHeadAt(head, FetchTag(head).used, constructed, len)
  {
    hide FetchTag, FetchLength, IsIdentifier, IsLength, IsConstructed, TagFrom;
    var (k, v) := (FetchTag(head).used, FetchTag(head).value);
    TagOctetsSuffice(head);
    TagExactly(head[..k], v, constructed);
    TagFromIs(head[..k], v, constructed);
    LengthExactly(constructed, head[k..], len);
  }

  predicate Valid(t: Tree) {
    match t
    case Leaf(head, body) => HeadFor(head, false, |body|)
    case Node(head, definite, kids) =>
      HeadFor(head, true, if definite then |EncodeAll(kids)| else INDEFINITE) && ValidAll(kids)
  }

  predicate ValidAll(f: Forest) {
    match f
    case Nil => true
    case Cons(t, rest) => Valid(t) && ValidAll(rest)
  }

  function TagOf(t: Tree): int {
    var r := FetchTag(t.head);
    if r.Got? then r.value else 0
  }

  // ---------------------------------------------------------------- recursive descent

  /** Read a tree that stands inside `depth` open frames: None when a tag or the size is refused. */
  function Absorb(d: Descriptor, depth: nat, k: Sink, t: Tree): Option<Sink>
    decreases t
  {
    if TagOf(t) != Expected(d, depth, TagOf(t)) then None
    else
      match t
      case Leaf(_, body) => if body == [] then Some(k) else Store(d, k, false, body)
      case Node(_, _, kids) => AbsorbAll(d, depth + 1, k, kids)
  }

  function AbsorbAll(d: Descriptor, depth: nat, k: Sink, f: Forest): Option<Sink>
    decreases f
  {
    match f
    case Nil => Some(k)
    case Cons(t, rest) =>
      match Absorb(d, depth, k, t)
      case None => None
      case Some(k') => AbsorbAll(d, depth, k', rest)
  }

  // ---------------------------------------------------------------- machine runs on trees

  /** The frame admits at least n more octets. */
  ghost predicate Admits(f: Frame, n: nat) {
    (f.left == -1 && f.wantNulls) || f.left >= n
  }

  /** The state after the innermost frame took in n octets that left the buffer as `k`. */
  function Charged(s: State, k: Sink, n: nat): State
    requires s.stack != []
  {
    WithTop(s, Charge(Top(s), n)).(sink := k)
  }

  /** What Run gives when `n` octets take the machine from `s` to `s'`. */
  function Via(d: Descriptor, s': State, n: nat, rest: seq<Octet>): Result
    requires Wf(s')
  {
    Later(n, Run(d, s', rest))
  }

  /** The machine takes `code` off the input, charges it to the innermost frame and leaves the buffer as
      `taken` says; when `taken` is None it fails. */
  ghost predicate Reads(d: Descriptor, s: State, code: seq<Octet>, taken: Option<Sink>, rest: seq<Octet>)
    requires Wf(s) && s.stack != []
  {
    match taken
    case None => Run(d, s, code + rest).outcome == Fail
    case Some(k) =>
      && Wf(Charged(s, k, |code|))
      && Run(d, s, code + rest) == Via(d, Charged(s, k, |code|), |code|, rest)
  }

  lemma OneStep(d: Descriptor, s: State, input: seq<Octet>)
    requires Wf(s)
    ensures var next := Step(d, s, input);
            Run(d, s, input)
            == if next.Next? then Via(d, next.s, next.used, input[next.used..]) else Result(next.outcome, 0, next.s)
  {
    hide Step;
  }

  lemma HeadIsNotEmpty(t: Tree)
    requires Valid(t)
    ensures |Encode(t)| >= |t.head| >= 2
  {
    hide IsIdentifier, TagFrom;
  }

  /** A header in full view is read off, whatever follows it. */
  lemma HeadIsRead(s: State, head: seq<Octet>, constructed: bool, len: int, rest: seq<Octet>)
    requires Wf(s) && Fetched(head, constructed, len)
    requires s.stack == [] || Admits(Top(s), |head|)
    ensures var window := Window(s, head + rest);
            var tl := FetchTag(head).used;
            && FetchTag(window) == FetchTag(head)
            && FetchLength(constructed, window[tl..]) == Got(|head| - tl, len)
            && (head + rest)[0] == head[0]
            && !(head[0] == 0)
  {
    var window := Window(s, head + rest);
    var tl := FetchTag(head).used;
    assert head <= window;
    assert head[tl..] <= window[tl..];
    FetchTagStable(head, window);
    FetchLengthStable(constructed, head[tl..], window[tl..]);
  }

  lemma HeadStep(d: Descriptor, s: State, head: seq<Octet>, constructed: bool, len: int, rest: seq<Octet>)
    requires Wf(s) && s.phase.Expect? && Fetched(head, constructed, len)
    requires s.stack == [] || (Admits(Top(s), |head|) && (Top(s).wantNulls || Top(s).left > 0))
    ensures Step(d, s, head + rest) == PushStep(d, s, FetchTag(head).value, constructed, |head|, len)
  {
    hide FetchTag, FetchLength, PushStep, Run;
    HeadIsRead(s, head, constructed, len, rest);
  }

  /** The push of a frame for a tree at the front of the input. */
  lemma HeadIsPushed(d: Descriptor, s: State, t: Tree, rest: seq<Octet>)
    requires Wf(s) && s.phase.Expect? && Valid(t) && |Encode(t)| < SSIZE_LIMIT
    requires s.stack == [] || Admits(Top(s), |Encode(t)|)
    ensures Encode(t) + rest == t.head + (Encode(t)[|t.head|..] + rest)
    ensures var len := if t.Leaf? then |t.body| else if t.definite then |EncodeAll(t.kids)| else INDEFINITE;
            Step(d, s, Encode(t) + rest) == PushStep(d, s, TagOf(t), t.Node?, |t.head|, len)
  {
    hide FetchTag, FetchLength, PushStep, Run, Step, HeadFor;
    assert Encode(t) + rest == t.head + (Encode(t)[|t.head|..] + rest);
    var len := if t.Leaf? then |t.body| else if t.definite then |EncodeAll(t.kids)| else INDEFINITE;
    HeadIsNotEmpty(t);
    HeadsExactly(t.head, t.Node?, len);
    HeadStep(d, s, t.head, t.Node?, len, Encode(t)[|t.head|..] + rest);
  }

  /** A frame that is used up is popped and charged to the frame around it. */
  lemma PopRuns(d: Descriptor, s: State, f: Frame, k: Sink, n: nat, rest: seq<Octet>)
    requires Wf(s) && s.phase.Expect? && s.stack != [] && Admits(Top(s), n)
    requires f.left == 0 && f.got == n && !f.wantNulls
    ensures var inner := s.(stack := s.stack + [f], sink := k);
            Wf(inner) && Wf(Charged(s, k, n)) && Run(d, inner, rest) == Run(d, Charged(s, k, n), rest)
  {
    var inner := s.(stack := s.stack + [f], sink := k);
    assert inner.stack[..|inner.stack| - 1] == s.stack;
    assert Top(s) in s.stack;
    assert Step(d, inner, rest) == Next(Charged(s, k, n), 0);
    assert rest[0..] == rest;
  }

  lemma LeafOpens(d: Descriptor, s: State, t: Tree, rest: seq<Octet>)
    requires Wf(s) && s.phase.Expect? && s.stack != []
    requires t.Leaf? && Valid(t) && |Encode(t)| < SSIZE_LIMIT && Admits(Top(s), |Encode(t)|)
    ensures if TagOf(t) != Expected(d, |s.stack|, TagOf(t)) then Run(d, s, Encode(t) + rest).outcome == Fail
            else
              var s1 := s.(phase := Contents, stack := s.stack + [Frame(|t.body|, |t.head|, false, false)]);
              && Wf(s1)
              && Run(d, s, Encode(t) + rest) == Via(d, s1, |t.head|, t.body + rest)
  {
    HeadIsPushed(d, s, t, rest);
    HeadIsNotEmpty(t);
    assert (Encode(t) + rest)[|t.head|..] == t.body + rest;
  }

  /** Leave phase 2 and pop the frame of a primitive element whose contents are all stored. */
  lemma LeafCloses(d: Descriptor, s: State, f: Frame, k: Sink, n: nat, rest: seq<Octet>)
    requires Wf(s) && s.phase.Expect? && s.stack != [] && Admits(Top(s), n)
    requires f.left == 0 && f.got == n && !f.wantNulls
    ensures var inner := s.(phase := Contents, stack := s.stack + [f], sink := k);
            Wf(inner) && Wf(Charged(s, k, n)) && Run(d, inner, rest) == Run(d, Charged(s, k, n), rest)
  {
    var inner := s.(phase := Contents, stack := s.stack + [f], sink := k);
    PopRuns(d, s, f, k, n, rest);
    assert Step(d, inner, rest) == Next(inner.(phase := Expect), 0);
    assert rest[0..] == rest;
  }

  /** Phase 2 with all the contents in view. */
  lemma LeafStores(d: Descriptor, s: State, t: Tree, rest: seq<Octet>)
    requires Wf(s) && t.Leaf? && t.body != []
    ensures var s1 := s.(phase := Contents, stack := s.stack + [Frame(|t.body|, |t.head|, false, false)]);
            var f := Frame(0, |t.head| + |t.body|, false, d.variant.Bits?);
            match Store(d, s.sink, false, t.body)
            case None => Run(d, s1, t.body + rest).outcome == Fail
            case Some(k) =>
              var s2 := s.(phase := Contents, stack := s.stack + [f], sink := k);
              Wf(s2) && Run(d, s1, t.body + rest) == Via(d, s2, |t.body|, rest)
  {
    var s1 := s.(phase := Contents, stack := s.stack + [Frame(|t.body|, |t.head|, false, false)]);
    assert s1.stack[..|s1.stack| - 1] == s.stack;
    assert (t.body + rest)[..|t.body|] == t.body;
    assert (t.body + rest)[|t.body|..] == rest;
  }

  lemma LeafRun(d: Descriptor, s: State, t: Tree, rest: seq<Octet>)
    requires Wf(s) && s.phase.Expect? && s.stack != []
    requires t.Leaf? && Valid(t) && |Encode(t)| < SSIZE_LIMIT && Admits(Top(s), |Encode(t)|)
    ensures Reads(d, s, Encode(t), Absorb(d, |s.stack|, s.sink, t), rest)
  {
    hide Run;
    LeafOpens(d, s, t, rest);
    if TagOf(t) == Expected(d, |s.stack|, TagOf(t)) {
      if t.body == [] {
        assert t.body + rest == rest;
        LeafCloses(d, s, Frame(0, |t.head|, false, false), s.sink, |Encode(t)|, rest);
      } else {
        LeafStores(d, s, t, rest);
        match Store(d, s.sink, false, t.body)
        case None =>
        case Some(k) =>
          LeafCloses(d, s, Frame(0, |Encode(t)|, false, d.variant.Bits?), k, |Encode(t)|, rest);
      }
    }
  }

  /** The frame pushed for a node, given the frame around it. */
  function NodeFrame(t: Tree, outer: Frame): Frame
    requires t.Node?
  {
    var left := if t.definite then |EncodeAll(t.kids)| else if outer.left != -1 then outer.left - |t.head| else -1;
    Frame(left, |t.head|, !t.definite, false)
  }

  function Trailer(t: Tree): seq<Octet>
    requires t.Node?
  {
    if t.definite then [] else [0, 0]
  }

  lemma NodeOpens(d: Descriptor, s: State, t: Tree, rest: seq<Octet>)
    requires Wf(s) && s.phase.Expect? && s.stack != []
    requires t.Node? && Valid(t) && |Encode(t)| < SSIZE_LIMIT && Admits(Top(s), |Encode(t)|)
    ensures if TagOf(t) != Expected(d, |s.stack|, TagOf(t)) then Run(d, s, Encode(t) + rest).outcome == Fail
            else
              var s1 := s.(stack := s.stack + [NodeFrame(t, Top(s))]);
              && Wf(s1) && Admits(Top(s1), |EncodeAll(t.kids)|)
              && Run(d, s, Encode(t) + rest) == Via(d, s1, |t.head|, EncodeAll(t.kids) + (Trailer(t) + rest))
  {
    hide Run, Step;
    HeadIsPushed(d, s, t, rest);
    HeadIsNotEmpty(t);
    OneStep(d, s, Encode(t) + rest);
    assert (Encode(t) + rest)[|t.head|..] == EncodeAll(t.kids) + (Trailer(t) + rest);
  }

  /** After its children a definite frame is used up. */
  lemma DefiniteCloses(d: Descriptor, s: State, t: Tree, k: Sink, rest: seq<Octet>)
    requires Wf(s) && s.phase.Expect? && s.stack != [] && Admits(Top(s), |Encode(t)|)
    requires t.Node? && t.definite
    ensures var inner := s.(stack := s.stack + [Charge(NodeFrame(t, Top(s)), |EncodeAll(t.kids)|)], sink := k);
            && Wf(inner) && Wf(Charged(s, k, |Encode(t)|))
            && Run(d, inner, Trailer(t) + rest) == Via(d, Charged(s, k, |Encode(t)|), |Trailer(t)|, rest)
  {
    assert [] + rest == rest;
    PopRuns(d, s, Charge(NodeFrame(t, Top(s)), |EncodeAll(t.kids)|), k, |Encode(t)|, rest);
  }

  /** After its children an indefinite frame eats its end-of-contents octets. */
  lemma IndefiniteCloses(d: Descriptor, s: State, t: Tree, k: Sink, rest: seq<Octet>)
    requires Wf(s) && s.phase.Expect? && s.stack != [] && Admits(Top(s), |Encode(t)|)
    requires t.Node? && !t.definite
    ensures var inner := s.(stack := s.stack + [Charge(NodeFrame(t, Top(s)), |EncodeAll(t.kids)|)], sink := k);
            && Wf(inner) && Wf(Charged(s, k, |Encode(t)|))
            && Run(d, inner, Trailer(t) + rest) == Via(d, Charged(s, k, |Encode(t)|), |Trailer(t)|, rest)
  {
    var f := Charge(NodeFrame(t, Top(s)), |EncodeAll(t.kids)|);
    var inner := s.(stack := s.stack + [f], sink := k);
    var input := [0, 0] + rest;
    var window := Window(inner, input);
    assert window[0] == 0 && window[1..][0] == 0;
    assert inner.stack[..|inner.stack| - 1] == s.stack;
    var g := EndOfContents(f);
    assert Step(d, inner, input) == Next(s.(stack := s.stack + [g], sink := k), 2);
    assert input[2..] == rest;
    PopRuns(d, s, g, k, |Encode(t)|, rest);
  }

  lemma {:induction false} TreeRun(d: Descriptor, s: State, t: Tree, rest: seq<Octet>)
    requires Wf(s) && s.phase.Expect? && s.stack != []
    requires Valid(t) && |Encode(t)| < SSIZE_LIMIT && Admits(Top(s), |Encode(t)|)
    ensures Reads(d, s, Encode(t), Absorb(d, |s.stack|, s.sink, t), rest)
    decreases t
  {
    hide Run, Step;
    match t
    case Leaf(_, _) => LeafRun(d, s, t, rest);
    case Node(head, definite, kids) =>
      NodeOpens(d, s, t, rest);
      if TagOf(t) == Expected(d, |s.stack|, TagOf(t)) {
        var s1 := s.(stack := s.stack + [NodeFrame(t, Top(s))]);
        ForestRun(d, s1, kids, Trailer(t) + rest);
        match AbsorbAll(d, |s1.stack|, s.sink, kids)
        case None =>
        case Some(k) =>
          assert Charged(s1, k, |EncodeAll(kids)|)
              == s.(stack := s.stack + [Charge(NodeFrame(t, Top(s)), |EncodeAll(kids)|)], sink := k);
          if definite {
            DefiniteCloses(d, s, t, k, rest);
          } else {
            IndefiniteCloses(d, s, t, k, rest);
          }
      }
  }

  lemma {:induction false} ForestRun(d: Descriptor, s: State, f: Forest, rest: seq<Octet>)
    requires Wf(s) && s.phase.Expect? && s.stack != []
    requires ValidAll(f) && |EncodeAll(f)| < SSIZE_LIMIT && Admits(Top(s), |EncodeAll(f)|)
    ensures Reads(d, s, EncodeAll(f), AbsorbAll(d, |s.stack|, s.sink, f), rest)
    decreases f
  {
    hide Run, Step;
    match f
    case Nil => NothingIsRead(d, s, rest);
    case Cons(t, more) =>
      TreeRun(d, s, t, EncodeAll(more) + rest);
      match Absorb(d, |s.stack|, s.sink, t)
      case None =>
        assert EncodeAll(f) + rest == Encode(t) + (EncodeAll(more) + rest);
      case Some(k) =>
        var s1 := Charged(s, k, |Encode(t)|);
        ForestRun(d, s1, more, rest);
        ReadsCompose(d, s, Encode(t), k, EncodeAll(more), AbsorbAll(d, |s.stack|, k, more), rest);
  }

  lemma NothingIsRead(d: Descriptor, s: State, rest: seq<Octet>)
    requires Wf(s) && s.stack != []
    ensures Reads(d, s, [], Some(s.sink), rest)
  {
    assert [] + rest == rest;
    assert Charged(s, s.sink, 0) == s;
  }

  lemma ReadsCompose(d: Descriptor, s: State, a: seq<Octet>, k: Sink, b: seq<Octet>, taken: Option<Sink>,
                     rest: seq<Octet>)
    requires Wf(s) && s.stack != [] && Admits(Top(s), |a| + |b|)
    requires Reads(d, s, a, Some(k), b + rest)
    requires Wf(Charged(s, k, |a|)) && Reads(d, Charged(s, k, |a|), b, taken, rest)
    ensures Reads(d, s, a + b, taken, rest)
  {
    hide Run;
    assert (a + b) + rest == a + (b + rest);
    var s1 := Charged(s, k, |a|);
    match taken
    case None =>
    case Some(k') =>
      ChargedTwice(s, k, |a|, k', |b|);
      LaterTwice(|a|, |b|, Run(d, s, a + (b + rest)), Run(d, s1, b + rest), Run(d, Charged(s1, k', |b|), rest));
  }

  lemma LaterTwice(n: nat, m: nat, r: Result, r1: Result, r2: Result)
    requires r == Later(n, r1) && r1 == Later(m, r2)
    ensures r == Later(n + m, r2)
  {
  }

  lemma ChargedTwice(s: State, k: Sink, n: nat, k': Sink, m: nat)
    requires s.stack != [] && Admits(Top(s), n + m)
    ensures Charged(Charged(s, k, n), k', m) == Charged(s, k', n + m)
  {
  }
}
