/** What OCTET_STRING_decode_ber accepts: not only is every valid encoding decoded, but whatever is decoded is one. */
module BerExact {
  import opened Octets
  import opened BerTlv
  import opened BerMachine
  import opened BerTree
  import opened BerRoundTrip

  // ---------------------------------------------------------------- elements that are not complete

  /** An element that has been begun: its head with the length in it, and the segments or the contents octets so far;
      `closed` when its end-of-contents octets have been seen. */
  datatype Open = Open(head: seq<Octet>, constructed: bool, len: int, kids: Forest, body: seq<Octet>, closed: bool)

  /** The octets of the element so far. */
  function SoFar(o: Open): seq<Octet> {
    o.head + EncodeAll(o.kids) + o.body + if o.closed then [0, 0] else []
  }

  function AllSoFar(z: seq<Open>): seq<Octet> {
    if z == [] then [] else AllSoFar(z[..|z| - 1]) + SoFar(z[|z| - 1])
  }

  /** The stack element for it. */
  predicate Matches(f: Frame, o: Open) {
    && f.got == |SoFar(o)| && HeadFor(o.head, o.constructed, o.len)
    && if o.constructed then
         && ValidAll(o.kids) && o.body == []
         && if o.len == INDEFINITE then f.wantNulls == !o.closed && (o.closed ==> f.left == 0)
            else !f.wantNulls && !o.closed && 0 <= f.left == o.len - |EncodeAll(o.kids)|
       else !f.wantNulls && !o.closed && o.kids == Nil && 0 <= f.left == o.len - |o.body|
  }

  /** The elements that are open match the stack; only the innermost can be primitive, or closed. */
  predicate Shape(s: State, z: seq<Open>) {
    && |z| == |s.stack| && (forall i | 0 <= i < |z| :: Matches(s.stack[i], z[i]))
    && (forall i | 0 <= i < |z| - 1 :: z[i].constructed && !z[i].closed)
    && (s.phase.Contents? ==> z != [] && !z[|z| - 1].constructed)
    && (s.phase.Expect? && z != [] ==> z[|z| - 1].constructed || s.stack[|z| - 1].left == 0)
  }

  function Snoc(f: Forest, t: Tree): Forest {
    match f
    case Nil => Cons(t, Nil)
    case Cons(first, rest) => Cons(first, Snoc(rest, t))
  }

  lemma {:induction false} SnocEncodes(f: Forest, t: Tree)
    ensures EncodeAll(Snoc(f, t)) == EncodeAll(f) + Encode(t)
    ensures ValidAll(Snoc(f, t)) <==> ValidAll(f) && Valid(t)
    decreases f
  {
    hide HeadFor;
    match f
    case Nil => assert EncodeAll(Cons(t, Nil)) == Encode(t) + [] == [] + Encode(t);
    case Cons(first, rest) => SnocEncodes(rest, t);
  }

  /** The tree that a complete element is. */
  function Completed(o: Open): Tree {
    if o.constructed then Node(o.head, o.len != INDEFINITE, o.kids) else Leaf(o.head, o.body)
  }

  /** An element whose stack element is popped is complete. */
  lemma PoppedIsComplete(f: Frame, o: Open)
    requires Matches(f, o) && f.left <= 0 && !f.wantNulls
    ensures Valid(Completed(o)) && Encode(Completed(o)) == SoFar(o)
  {
    hide HeadFor;
  }

  // ---------------------------------------------------------------- what each step adds

  lemma SoFarOfTop(z: seq<Open>, o: Open)
    ensures AllSoFar(z + [o]) == AllSoFar(z) + SoFar(o)
  {
    assert (z + [o])[..|z|] == z;
  }

  /** The elements z, with the innermost one replaced. */
  function WithLast(z: seq<Open>, o: Open): seq<Open>
    requires z != []
  {
    z[..|z| - 1] + [o]
  }

  lemma LastGrows(z: seq<Open>, o: Open, more: seq<Octet>)
    requires z != [] && SoFar(o) == SoFar(z[|z| - 1]) + more
    ensures AllSoFar(WithLast(z, o)) == AllSoFar(z) + more
  {
    hide SoFar, AllSoFar;
    var n := |z| - 1;
    LastSoFar(z);
    LastSoFar(WithLast(z, o));
    assert WithLast(z, o)[..n] == z[..n];
    Regrouped(AllSoFar(z[..n]), SoFar(z[n]), more);
  }

  lemma LastSoFar(z: seq<Open>)
    requires z != []
    ensures AllSoFar(z) == AllSoFar(z[..|z| - 1]) + SoFar(z[|z| - 1])
  {
  }

  lemma Regrouped(a: seq<Octet>, b: seq<Octet>, c: seq<Octet>)
    ensures a + (b + c) == a + b + c
  {
  }

  /** z' is what z becomes when n octets of the input are read, and the state s' has that shape. */
  ghost predicate Grown(s': State, z: seq<Open>, z': seq<Open>, input: seq<Octet>, n: nat)
    requires n <= |input|
  {
    && (s'.phase.Expect? || s'.phase.Contents?) && z' != []
    && Shape(s', z') && AllSoFar(z') == AllSoFar(z) + input[..n]
  }

  /** The outer element takes in the complete one. */
  function TakenIn(outer: Open, o: Open): Open {
    outer.(kids := Snoc(outer.kids, Completed(o)))
  }

  lemma TakesIn(f: Frame, g: Frame, outer: Open, o: Open)
    requires Matches(f, outer) && outer.constructed && !outer.closed
    requires Matches(g, o) && g.left <= 0 && !g.wantNulls
    requires f.left != -1 ==> f.left >= g.got
    ensures Matches(Charge(f, g.got), TakenIn(outer, o)) && SoFar(TakenIn(outer, o)) == SoFar(outer) + SoFar(o)
  {
    hide HeadFor;
    PoppedIsComplete(g, o);
    SnocEncodes(outer.kids, Completed(o));
  }

  lemma PopGrows(s: State, z: seq<Open>, input: seq<Octet>)
    requires Wf(s) && s.phase.Expect? && Shape(s, z) && |z| > 1
    requires Top(s).left <= 0 && !Top(s).wantNulls && PopStep(s).Next?
    ensures var z' := WithLast(z[..|z| - 1], TakenIn(z[|z| - 2], z[|z| - 1])); Grown(PopStep(s).s, z, z', input, 0)
  {
    hide Matches, SoFar;
    var n := |z| - 1;
    var (outer, o) := (z[n - 1], z[n]);
    var (f, g) := (s.stack[n - 1], s.stack[n]);
    assert s.stack[..n][n - 1] == f;
    TakesIn(f, g, outer, o);
    LastGrows(z[..n], TakenIn(outer, o), SoFar(o));
    SoFarOfTop(z[..n], o);
    assert z == z[..n] + [o] && input[..0] == [];
    assert PopStep(s).s.stack == s.stack[..n - 1] + [Charge(f, g.got)];
  }

  lemma ClosedMatches(f: Frame, o: Open)
    requires Matches(f, o) && f.wantNulls
    ensures o.constructed && Matches(EndOfContents(f), o.(closed := true))
    ensures SoFar(o.(closed := true)) == SoFar(o) + [0, 0]
  {
    hide HeadFor;
  }

  lemma EndGrows(s: State, z: seq<Open>, input: seq<Octet>)
    requires Wf(s) && s.phase.Expect? && Shape(s, z) && z != [] && Top(s).wantNulls
    requires |input| >= 2 && input[0] == 0 && input[1] == 0
    ensures Grown(WithTop(s, EndOfContents(Top(s))), z, WithLast(z, z[|z| - 1].(closed := true)), input, 2)
  {
    hide Matches, SoFar;
    var n := |z| - 1;
    ClosedMatches(s.stack[n], z[n]);
    LastGrows(z, z[n].(closed := true), [0, 0]);
    assert input[..2] == [0, 0];
  }

  /** The element that a head begins. */
  function Begun(head: seq<Octet>, constructed: bool, len: int): Open {
    Open(head, constructed, len, Nil, [], false)
  }

  lemma BegunMatches(head: seq<Octet>, constructed: bool, len: int, left: int)
    requires HeadFor(head, constructed, len) && len >= INDEFINITE && (len == INDEFINITE ==> constructed)
    requires len != INDEFINITE ==> left == len
    ensures Matches(Frame(left, |head|, len == INDEFINITE, false), Begun(head, constructed, len))
    ensures SoFar(Begun(head, constructed, len)) == head
  {
    hide HeadFor;
  }

  /** The tags of segments are never 0. */
  predicate Tagged(d: Descriptor) {
    d.tag != 0 && d.allTags != [] && 0 !in d.allTags
  }

  lemma ExpectedIsTag(d: Descriptor, depth: nat, tag: int)
    requires Tagged(d) && depth > 0 && tag == Expected(d, depth, tag)
    ensures tag != 0
  {
    assert d.allTags[|d.allTags| - 1] in d.allTags;
    assert depth - 1 < |d.allTags| ==> d.allTags[depth - 1] in d.allTags;
  }

  /** The head that the fetch functions see in a window is the head that the window begins with. */
  lemma HeadInWindow(window: seq<Octet>, constructed: bool)
    requires window != [] && IsConstructed(window[0]) == constructed && FetchTag(window).Got?
    requires FetchTag(window).value != 0 && FetchLength(constructed, window[FetchTag(window).used..]).Got?
    ensures var (t, l) := (FetchTag(window), FetchLength(constructed, window[FetchTag(window).used..]));
            HeadFor(window[..t.used + l.used], constructed, l.value)
  {
    hide FetchTag, FetchLength, IsConstructed, HeadFor;
    var (t, l) := (FetchTag(window), FetchLength(constructed, window[FetchTag(window).used..]));
    var head := window[..t.used + l.used];
    TagOctetsSuffice(window);
    LengthOctetsSuffice(constructed, window[t.used..]);
    assert window[..t.used] <= head;
    FetchTagStable(window[..t.used], head);
    assert window[t.used..][..l.used] == head[t.used..];
    assert head[0] == window[0];
    HeadsExactly(head, constructed, l.value);
  }

  lemma PushGrows(d: Descriptor, s: State, z: seq<Open>, head: seq<Octet>, constructed: bool, len: int, tag: int,
                  input: seq<Octet>)
    requires Wf(s) && s.phase.Expect? && Shape(s, z) && (z != [] ==> z[|z| - 1].constructed && !z[|z| - 1].closed)
    requires HeadFor(head, constructed, len) && head <= input && head != []
    requires len >= INDEFINITE && (len == INDEFINITE ==> constructed)
    requires PushStep(d, s, tag, constructed, |head|, len).Next?
    ensures Grown(PushStep(d, s, tag, constructed, |head|, len).s, z, z + [Begun(head, constructed, len)], input,
                  |head|)
  {
    hide Matches, SoFar, HeadFor, PushStep, Begun;
    var s' := PushStep(d, s, tag, constructed, |head|, len).s;
    var o := Begun(head, constructed, len);
    var left := PushedLeft(d, s, tag, constructed, |head|, len);
    BegunMatches(head, constructed, len, left);
    SoFarOfTop(z, o);
    BegunIs(head, constructed, len);
    assert input[..|head|] == head;
  }

  lemma BegunIs(head: seq<Octet>, constructed: bool, len: int)
    ensures var o := Begun(head, constructed, len); o.constructed == constructed && !o.closed
  {
  }

  /** What the new stack element has left. */
  lemma PushedLeft(d: Descriptor, s: State, tag: int, constructed: bool, tlvl: nat, len: int) returns (left: int)
    requires Wf(s) && s.phase.Expect? && tlvl > 0 && len >= INDEFINITE && (len == INDEFINITE ==> constructed)
    requires PushStep(d, s, tag, constructed, tlvl, len).Next?
    ensures len != INDEFINITE ==> left == len
    ensures PushStep(d, s, tag, constructed, tlvl, len).s
            == s.(phase := if constructed then Expect else Contents,
                  stack := s.stack + [Frame(left, tlvl, len == INDEFINITE, false)])
  {
    left := PushStep(d, s, tag, constructed, tlvl, len).s.stack[|s.stack|].left;
  }

  lemma LeafGrows(f: Frame, o: Open, d: Descriptor, bytes: seq<Octet>)
    requires Matches(f, o) && !o.constructed && |bytes| <= f.left
    ensures var g := Charge(f, |bytes|).(chopped := f.chopped || d.variant.Bits?);
            Matches(g, o.(body := o.body + bytes)) && SoFar(o.(body := o.body + bytes)) == SoFar(o) + bytes
  {
    hide HeadFor;
    assert EncodeAll(Nil) == [];
  }

  lemma ContentsGrow(d: Descriptor, s: State, z: seq<Open>, input: seq<Octet>) returns (z': seq<Open>)
    requires Wf(s) && s.phase.Contents? && Shape(s, z) && ContentsStep(d, s, input).Next?
    ensures Grown(ContentsStep(d, s, input).s, z, z', input, ContentsStep(d, s, input).used)
  {
    hide Matches, SoFar, Store;
    var (n, f) := (|z| - 1, Top(s));
    assert Matches(f, z[n]);
    if f.left == 0 {
      z' := z;
      assert input[..0] == [];
    } else {
      var bytes := input[..ContentsStep(d, s, input).used];
      LeafGrows(f, z[n], d, bytes);
      z' := WithLast(z, z[n].(body := z[n].body + bytes));
      LastGrows(z, z[n].(body := z[n].body + bytes), bytes);
    }
  }

  /** The innermost element that is open is not a complete one. */
  lemma TopIsOpen(s: State, z: seq<Open>)
    requires Wf(s) && s.phase.Expect? && Shape(s, z) && z != [] && !(Top(s).left <= 0 && !Top(s).wantNulls)
    ensures z[|z| - 1].constructed && !z[|z| - 1].closed
  {
    hide HeadFor, SoFar;
    assert Matches(s.stack[|z| - 1], z[|z| - 1]);
  }

  lemma ExpectGrows(d: Descriptor, s: State, z: seq<Open>, input: seq<Octet>) returns (z': seq<Open>)
    requires Tagged(d) && Wf(s) && s.phase.Expect? && Shape(s, z) && z != [] && ExpectStep(d, s, input).Next?
    requires |z| == 1 ==> Top(s).left > 0 || Top(s).wantNulls
    ensures Grown(ExpectStep(d, s, input).s, z, z', input, ExpectStep(d, s, input).used)
  {
    hide Shape, Grown, FetchTag, FetchLength, PushStep, PopStep, EndOfContents, HeadFor, IsConstructed, Expected;
    SameHeight(s, z);
    if Top(s).left <= 0 && !Top(s).wantNulls {
      PopGrows(s, z, input);
      z' := WithLast(z[..|z| - 1], TakenIn(z[|z| - 2], z[|z| - 1]));
    } else {
      TopIsOpen(s, z);
      var window := Window(s, input);
      var t := FetchTag(window);
      assert window <= input;
      var constructed := IsConstructed(input[0]);
      var l := FetchLength(constructed, window[t.used..]);
      if Top(s).wantNulls && input[0] == 0 && input[1] == 0 {
        EndGrows(s, z, input);
        z' := WithLast(z, z[|z| - 1].(closed := true));
      } else {
        var head := window[..t.used + l.used];
        PushedTag(d, s, t.value, constructed, |head|, l.value);
        ExpectedIsTag(d, |s.stack|, t.value);
        HeadInWindow(window, constructed);
        PushGrows(d, s, z, head, constructed, l.value, t.value, input);
        z' := z + [Begun(head, constructed, l.value)];
      }
    }
  }

  lemma SameHeight(s: State, z: seq<Open>)
    requires Shape(s, z)
    ensures |z| == |s.stack|
  {
  }

  lemma PushedTag(d: Descriptor, s: State, tag: int, constructed: bool, tlvl: nat, len: int)
    requires Wf(s) && s.phase.Expect? && tlvl > 0 && len >= INDEFINITE && (len == INDEFINITE ==> constructed)
    requires PushStep(d, s, tag, constructed, tlvl, len).Next?
    ensures tag == Expected(d, |s.stack|, tag)
  {
  }

  // ---------------------------------------------------------------- a run that is done has read a tree

  /** The outermost element, once it is popped. */
  lemma LastPop(d: Descriptor, s: State, z: seq<Open>, input: seq<Octet>)
    requires Wf(s) && s.phase.Expect? && Shape(s, z) && |z| == 1 && Top(s).left <= 0 && !Top(s).wantNulls
    ensures Run(d, s, input).outcome == Done && Run(d, s, input).used == 0
    ensures Valid(Completed(z[0])) && Encode(Completed(z[0])) == AllSoFar(z)
  {
    hide Run, HeadFor, SoFar;
    assert Matches(s.stack[0], z[0]);
    PoppedIsComplete(s.stack[0], z[0]);
    OneStep(d, s, input);
    SoFarOfTop([], z[0]);
    assert [] + [z[0]] == z && AllSoFar([]) == [];
    FinishRuns(d, s.(stack := [], phase := Finished), input[0..]);
    assert s.stack[..0] == [];
  }

  /** Only a finished call is done. */
  lemma StepsOn(d: Descriptor, s: State, input: seq<Octet>)
    requires Wf(s) && !s.phase.Finished? && Run(d, s, input).outcome == Done
    ensures Step(d, s, input).Next?
    ensures Run(d, s, input) == Via(d, Step(d, s, input).s, Step(d, s, input).used, input[Step(d, s, input).used..])
  {
    hide Run, FetchTag, FetchLength, Store;
    OneStep(d, s, input);
  }

  /** From open elements on, whatever a call that is done consumes makes the outermost one a tree. */
  lemma {:induction false} Completes(d: Descriptor, s: State, z: seq<Open>, input: seq<Octet>) returns (t: Tree)
    requires Tagged(d) && Wf(s) && (s.phase.Expect? || s.phase.Contents?) && Shape(s, z) && z != []
    requires Run(d, s, input).outcome == Done
    ensures Valid(t) && Encode(t) == AllSoFar(z) + input[..Run(d, s, input).used]
    decreases |input|, Rank(s)
  {
    hide Run, Shape, Valid, ExpectStep, ContentsStep, AllSoFar, Encode, SoFar;
    SameHeight(s, z);
    StepsOn(d, s, input);
    if s.phase.Expect? && |z| == 1 && Top(s).left <= 0 && !Top(s).wantNulls {
      LastPop(d, s, z, input);
      t := Completed(z[0]);
      assert AllSoFar(z) + input[..0] == AllSoFar(z);
    } else {
      var z' := [];
      if s.phase.Expect? {
        z' := ExpectGrows(d, s, z, input);
      } else {
        z' := ContentsGrow(d, s, z, input);
      }
      var next := Step(d, s, input);
      t := Completes(d, next.s, z', input[next.used..]);
      PrefixJoins(AllSoFar(z), input, next.used, Run(d, next.s, input[next.used..]).used);
    }
  }

  lemma PrefixJoins(a: seq<Octet>, input: seq<Octet>, n: nat, m: nat)
    requires n <= |input| && m <= |input[n..]|
    ensures a + input[..n] + input[n..][..m] == a + input[..n + m]
  {
    assert input[..n] + input[n..][..m] == input[..n + m];
  }

  lemma PrimitiveDone(d: Descriptor, s: State, input: seq<Octet>)
    requires Wf(s) && s.phase.Primitive? && Run(d, s, input).outcome == Done
    ensures Run(d, s, input).used == s.left <= |input|
  {
    hide Run, Store;
    OneStep(d, s, input);
    var next := Step(d, s, input);
    if |input| < s.left {
      assert input[next.used..] == [];
      OneStep(d, next.s, []);
    } else {
      FinishRuns(d, next.s, input[next.used..]);
    }
  }

  lemma HeadAtStart(d: Descriptor, input: seq<Octet>) returns (n: nat, constructed: bool, len: int)
    requires Tagged(d) && StartStep(d, FRESH, input).Next?
    ensures 0 < n <= |input| && HeadFor(input[..n], constructed, len) && len >= INDEFINITE && (len < 0 ==> constructed)
    ensures StartStep(d, FRESH, input)
            == if constructed then Next(FRESH.(phase := Expect), 0)
               else Next(FRESH.(phase := Primitive, left := len), n)
    ensures constructed ==> ExpectStep(d, FRESH.(phase := Expect), input)
                            == PushStep(d, FRESH.(phase := Expect), d.tag, true, n, len)
  {
    hide HeadFor, FetchTag, FetchLength, PushStep, IsConstructed;
    HeadInWindow(input, IsConstructed(input[0]));
    var t := FetchTag(input);
    constructed := IsConstructed(input[0]);
    var l := FetchLength(constructed, input[t.used..]);
    n, len := t.used + l.used, l.value;
  }

  /** A call on a fresh structure that is done has read a valid encoding of a tree, and nothing more. */
  lemma DoneIsTree(d: Descriptor, input: seq<Octet>) returns (t: Tree)
    requires Tagged(d) && Run(d, FRESH, input).outcome == Done
    ensures Valid(t) && Encode(t) == input[..Run(d, FRESH, input).used]
  {
    hide Run, HeadFor, StartStep, ExpectStep, PushStep, Shape, SoFar, AllSoFar, Valid, Encode, Begun;
    StepsOn(d, FRESH, input);
    var n, constructed, len := HeadAtStart(d, input);
    var head := input[..n];
    assert input[0..] == input;
    if constructed {
      var s0 := FRESH.(phase := Expect);
      NothingOpen(s0);
      StepsOn(d, s0, input);
      PushGrows(d, s0, [], head, true, len, d.tag, input);
      var s1 := PushStep(d, s0, d.tag, true, n, len).s;
      var z := [] + [Begun(head, true, len)];
      t := Completes(d, s1, z, input[n..]);
      PushedUsed(d, s0, d.tag, true, n, len);
      NothingSoFar();
      PrefixJoins([], input, n, Run(d, s1, input[n..]).used);
      assert [] + input[..Run(d, FRESH, input).used] == input[..Run(d, FRESH, input).used];
    } else {
      var s1 := FRESH.(phase := Primitive, left := len);
      PrimitiveDone(d, s1, input[n..]);
      var body := input[n..][..len];
      t := Leaf(head, body);
      LeafIsValid(head, body);
      PrefixJoins([], input, n, len);
      assert [] + input[..n] == head && [] + input[..n + len] == input[..n + len];
    }
  }

  lemma NothingSoFar()
    ensures AllSoFar([]) == []
  {
  }

  lemma LeafIsValid(head: seq<Octet>, body: seq<Octet>)
    ensures Valid(Leaf(head, body)) <==> HeadFor(head, false, |body|)
    ensures Encode(Leaf(head, body)) == head + body
  {
    hide HeadFor;
  }

  lemma NothingOpen(s: State)
    requires s == FRESH.(phase := Expect)
    ensures Shape(s, []) && Wf(s)
  {
  }

  lemma PushedUsed(d: Descriptor, s: State, tag: int, constructed: bool, tlvl: nat, len: int)
    requires Wf(s) && s.phase.Expect? && tlvl > 0 && len >= INDEFINITE && (len == INDEFINITE ==> constructed)
    ensures PushStep(d, s, tag, constructed, tlvl, len).Next?
            ==> PushStep(d, s, tag, constructed, tlvl, len).used == tlvl
  {
  }

  // ---------------------------------------------------------------- exactly the valid encodings

  lemma {:induction false} ShortSegmentsFit(t: Tree)
    requires |Encode(t)| < INT_LIMIT
    ensures SegmentsFit(t)
    decreases t
  {
    match t
    case Leaf(_, _) =>
    case Node(_, _, kids) => ShortSegmentsAllFit(kids);
  }

  lemma {:induction false} ShortSegmentsAllFit(f: Forest)
    requires |EncodeAll(f)| < INT_LIMIT
    ensures SegmentsFitAll(f)
    decreases f
  {
    match f
    case Nil =>
    case Cons(t, rest) =>
      ShortSegmentsFit(t);
      ShortSegmentsAllFit(rest);
  }

  /** The input begins with an encoding of the tree that is valid and accepted. */
  predicate BeginsWith(d: Descriptor, input: seq<Octet>, t: Tree) {
    Valid(t) && Accepted(d, t) && Encode(t) <= input
  }

  /** For every input: the decoder is done if and only if the input begins with a valid encoding of a tree whose tags
      match and whose value is below 2^30 octets; it has then consumed exactly that and holds exactly that value. */
  lemma DoneExactly(d: Descriptor, input: seq<Octet>)
    requires Tagged(d) && |input| < INT_LIMIT
    ensures var r := Run(d, FRESH, input);
            && (r.outcome == Done <==> exists t :: BeginsWith(d, input, t))
            && forall t | BeginsWith(d, input, t) ::
                 && r.used == |Encode(t)|
                 && r.s.sink.buf == Trimmed(d, Payload(d, t), Unused(d, t, 0))
                 && r.s.sink.bitsUnused == Unused(d, t, 0)
  {
    hide Run, Valid, Accepted;
    var r := Run(d, FRESH, input);
    if r.outcome == Done {
      var t := DoneIsTree(d, input);
      TreeDecides(d, t, input);
      assert BeginsWith(d, input, t);
    }
    forall t | Valid(t) && Encode(t) <= input
      ensures r.outcome == Done <==> Accepted(d, t)
      ensures Accepted(d, t) ==>
                && r.used == |Encode(t)|
                && r.s.sink.buf == Trimmed(d, Payload(d, t), Unused(d, t, 0))
                && r.s.sink.bitsUnused == Unused(d, t, 0)
    {
      TreeDecides(d, t, input);
    }
  }

  lemma TreeDecides(d: Descriptor, t: Tree, input: seq<Octet>)
    requires Valid(t) && Encode(t) <= input && |input| < INT_LIMIT
    ensures var r := Run(d, FRESH, input);
            && (r.outcome == Done <==> Accepted(d, t))
            && (Accepted(d, t) ==>
                  && r.used == |Encode(t)|
                  && r.s.sink.buf == Trimmed(d, Payload(d, t), Unused(d, t, 0))
                  && r.s.sink.bitsUnused == Unused(d, t, 0))
  {
    hide Run, Valid, Accepted;
    var rest := input[|Encode(t)|..];
    assert input == Encode(t) + rest;
    ShortSegmentsFit(t);
    DecodesEveryTree(d, t, rest);
  }
}
