/** Feeding the decoder in pieces: unconsumed octets are offered again together with the next piece. */
module BerChunks {
  import opened Octets
  import opened BerTlv
  import opened BerMachine
  import opened BerBuffer
  import opened BerTree
  import opened BerRoundTrip

  /** What holds between calls. */
  ghost predicate Good(s: State) {
    Wf(s) && SinkOk(s.sink) && (s.phase.Start? ==> s.sink.buf == [])
  }

  /** Two runs agree: the same verdict and, unless both fail, the same count and the same state. */
  ghost predicate Agree(a: Result, b: Result) {
    a.outcome == b.outcome && (a.outcome != Fail ==> a == b)
  }

  /** A step that ran out of contents octets and stored what there was. */
  predicate Partial(s: State, input: seq<Octet>)
    requires Wf(s)
  {
    input != [] && ((s.phase.Contents? && |input| < Top(s).left) || (s.phase.Primitive? && |input| < s.left))
  }

  lemma WindowGrows(s: State, p: seq<Octet>, q: seq<Octet>)
    requires Wf(s)
    ensures Window(s, p) <= Window(s, p + q)
  {
  }

  lemma HeadStable(s: State, p: seq<Octet>, q: seq<Octet>, tl: nat, constructed: bool)
    requires Wf(s) && tl <= |Window(s, p)|
    ensures tl <= |Window(s, p + q)|
    ensures !FetchTag(Window(s, p)).Starved? ==> FetchTag(Window(s, p + q)) == FetchTag(Window(s, p))
    ensures var l := FetchLength(constructed, Window(s, p)[tl..]);
            !l.Starved? ==> FetchLength(constructed, Window(s, p + q)[tl..]) == l
  {
    hide FetchTag, FetchLength;
    WindowGrows(s, p, q);
    FetchTagStable(Window(s, p), Window(s, p + q));
    assert Window(s, p)[tl..] <= Window(s, p + q)[tl..];
    FetchLengthStable(constructed, Window(s, p)[tl..], Window(s, p + q)[tl..]);
  }

  lemma ExpectStable(d: Descriptor, s: State, p: seq<Octet>, q: seq<Octet>)
    requires Wf(s) && s.phase.Expect? && ExpectStep(d, s, p) != Stop(More, s)
    ensures ExpectStep(d, s, p + q) == ExpectStep(d, s, p)
  {
    hide FetchTag, FetchLength, PushStep, PopStep, Window;
    HeadStable(s, p, q, 0, false);
    var tag := FetchTag(Window(s, p));
    WindowInInput(s, p);
    WindowInInput(s, p + q);
    if tag.Got? {
      HeadStable(s, p, q, tag.used, IsConstructed(p[0]));
    }
  }

  lemma WindowInInput(s: State, p: seq<Octet>)
    requires Wf(s)
    ensures Window(s, p) <= p
  {
  }

  lemma StartStable(d: Descriptor, s: State, p: seq<Octet>, q: seq<Octet>)
    requires Wf(s) && s.phase.Start? && StartStep(d, s, p) != Stop(More, s)
    ensures StartStep(d, s, p + q) == StartStep(d, s, p)
  {
    hide FetchTag, FetchLength;
    HeadStable(s, p, q, 0, false);
    var tag := FetchTag(p);
    if tag.Got? {
      HeadStable(s, p, q, tag.used, IsConstructed(p[0]));
    }
  }

  /** A decided step does not depend on what follows, unless it stored an incomplete run of contents octets. */
  lemma StepStable(d: Descriptor, s: State, p: seq<Octet>, q: seq<Octet>)
    requires Wf(s) && !Partial(s, p) && Step(d, s, p) != Stop(More, s)
    ensures Step(d, s, p + q) == Step(d, s, p)
  {
    match s.phase
    case Start => StartStable(d, s, p, q);
    case Expect => ExpectStable(d, s, p, q);
    case Contents => assert Top(s).left <= |p| ==> (p + q)[..Top(s).left] == p[..Top(s).left];
    case Primitive => assert s.left <= |p| ==> (p + q)[..s.left] == p[..s.left];
    case Finished =>
  }

  lemma StepKeepsGood(d: Descriptor, s: State, p: seq<Octet>)
    requires Good(s) && |p| < INT_LIMIT
    ensures var r := Step(d, s, p); r.Next? ==> Good(r.s)
    ensures Step(d, s, p).Stop? && Step(d, s, p).outcome != Done ==> Step(d, s, p).s == s
  {
    hide FetchTag, FetchLength;
    match s.phase
    case Contents =>
      var len := if |p| < Top(s).left then |p| else Top(s).left;
      StoreKeepsOk(d, s.sink, Top(s).chopped, p[..len]);
    case Primitive =>
      var len := if |p| < s.left then |p| else s.left;
      StoreKeepsOk(d, s.sink, s.sink.alloc != 0, p[..len]);
    case _ =>
  }

  /** A partial step takes all there is; the next step carries on where it stopped. */
  ghost predicate Continues(d: Descriptor, s: State, p: seq<Octet>, q: seq<Octet>)
    requires Wf(s)
  {
    var first, whole := Step(d, s, p), Step(d, s, p + q);
    if first.Stop? then first.outcome == Fail && whole.Stop? && whole.outcome == Fail
    else
      && first.used == |p|
      && var second := Step(d, first.s, q);
         if second.Stop? then second.outcome == Fail && whole.Stop? && whole.outcome == Fail
         else second.used > 0 && whole == Next(second.s, |p| + second.used)
  }

  lemma ConsumedTwice(d: Descriptor, s: State, n: nat, k: Sink, m: nat, k': Sink)
    requires Wf(s) && s.phase.Contents? && n + m <= Top(s).left
    ensures Consumed(d, Consumed(d, s, n, k), m, k') == Consumed(d, s, n + m, k')
  {
  }

  lemma ContentsContinue(d: Descriptor, s: State, p: seq<Octet>, q: seq<Octet>)
    requires Good(s) && s.phase.Contents? && Partial(s, p) && q != [] && |p| + |q| < INT_LIMIT
    ensures Continues(d, s, p, q)
  {
    hide Store, SinkOk, Step, Consumed;
    var f := Top(s);
    var m := if |q| < f.left - |p| then |q| else f.left - |p|;
    assert (p + q)[..|p| + m] == p + q[..m];
    assert p[..|p|] == p;
    ContentsStepIs(d, s, p);
    ContentsStepIs(d, s, p + q);
    StoreTwice(d, s.sink, f.chopped, p, q[..m]);
    match Store(d, s.sink, f.chopped, p)
    case None =>
    case Some(k) =>
      var s1 := Consumed(d, s, |p|, k);
      ConsumedIs(d, s, |p|, k);
      ContentsStepIs(d, s1, q);
      match Store(d, k, f.chopped || d.variant.Bits?, q[..m])
      case None =>
      case Some(k') => ConsumedTwice(d, s, |p|, k, m, k');
  }

  lemma ContentsStepIs(d: Descriptor, s: State, p: seq<Octet>)
    requires Wf(s) && s.phase.Contents? && Top(s).left > 0 && p != []
    ensures var len := if |p| < Top(s).left then |p| else Top(s).left;
            Step(d, s, p) == match Store(d, s.sink, Top(s).chopped, p[..len])
                             case None => Stop(Fail, s)
                             case Some(k) => Next(Consumed(d, s, len, k), len)
  {
    hide Store, Consumed;
  }

  lemma ConsumedIs(d: Descriptor, s: State, n: nat, k: Sink)
    requires Wf(s) && s.phase.Contents? && n <= Top(s).left
    ensures var s1 := Consumed(d, s, n, k);
            && Wf(s1) && s1.phase.Contents? && s1.sink == k
            && Top(s1).left == Top(s).left - n && Top(s1).chopped == (Top(s).chopped || d.variant.Bits?)
  {
  }

  lemma PrimitiveContinues(d: Descriptor, s: State, p: seq<Octet>, q: seq<Octet>)
    requires Good(s) && s.phase.Primitive? && Partial(s, p) && q != [] && |p| + |q| < INT_LIMIT
    ensures Continues(d, s, p, q)
  {
    hide Append, SinkOk;
    var m := if |q| < s.left - |p| then |q| else s.left - |p|;
    assert (p + q)[..|p| + m] == p + q[..m];
    assert p[..|p|] == p;
    StoreTwice(d, s.sink, s.sink.alloc != 0, p, q[..m]);
    StoreKeepsOk(d, s.sink, s.sink.alloc != 0, p);
  }

  // ---------------------------------------------------------------- whole calls

  /** One call on p + q does what a call on p does, and, if that wants more, a second one on what p left over and q. */
  lemma {:induction false} RunSplit(d: Descriptor, s: State, p: seq<Octet>, q: seq<Octet>)
    requires Good(s) && |p| + |q| < INT_LIMIT
    ensures var r := Run(d, s, p);
            if r.outcome == More then Good(r.s) && Agree(Run(d, s, p + q), Via(d, r.s, r.used, p[r.used..] + q))
            else Run(d, s, p + q) == r
    decreases |p|, Rank(s)
  {
    hide Run, Step;
    var next := Step(d, s, p);
    OneStep(d, s, p);
    if next == Stop(More, s) {
      assert p[0..] == p;
    } else if Partial(s, p) {
      PartialSplit(d, s, p, q);
    } else {
      StepStable(d, s, p, q);
      StepKeepsGood(d, s, p);
      OneStep(d, s, p + q);
      match next
      case Stop(outcome, s') =>
        StopsAreMore(d, s, p);
      case Next(s', n) =>
        RunSplit(d, s', p[n..], q);
        assert (p + q)[n..] == p[n..] + q;
        var r := Run(d, s', p[n..]);
        assert p[n..][r.used..] == p[n + r.used..];
    }
  }

  lemma StopsAreMore(d: Descriptor, s: State, p: seq<Octet>)
    requires Wf(s)
    ensures Step(d, s, p).Stop? && Step(d, s, p).outcome == More ==> Step(d, s, p) == Stop(More, s)
  {
    hide FetchTag, FetchLength;
  }

  /** After a partial step the decoder waits. */
  lemma PartialWaits(d: Descriptor, s: State, p: seq<Octet>)
    requires Good(s) && Partial(s, p) && Step(d, s, p).Next? && |p| < INT_LIMIT
    ensures var s1 := Step(d, s, p).s;
            Good(s1) && Run(d, s, p) == Result(More, |p|, s1) && Run(d, s1, []) == Result(More, 0, s1)
  {
    hide Run, Store, SinkOk;
    StepKeepsGood(d, s, p);
    OneStep(d, s, p);
    var s1 := Step(d, s, p).s;
    assert p[|p|..] == [];
    assert Step(d, s1, []) == Stop(More, s1);
    OneStep(d, s1, []);
  }

  lemma PartialSplit(d: Descriptor, s: State, p: seq<Octet>, q: seq<Octet>)
    requires Good(s) && |p| + |q| < INT_LIMIT && Partial(s, p)
    ensures var r := Run(d, s, p);
            if r.outcome == More then Good(r.s) && Agree(Run(d, s, p + q), Via(d, r.s, r.used, p[r.used..] + q))
            else Run(d, s, p + q) == r
  {
    hide Run, Step;
    assert p[|p|..] + q == q;
    OneStep(d, s, p);
    OneStep(d, s, p + q);
    StepKeepsGood(d, s, p);
    if q != [] {
      if s.phase.Contents? {
        ContentsContinue(d, s, p, q);
      } else {
        PrimitiveContinues(d, s, p, q);
      }
      StepKeepsGood(d, s, p + q);
    } else {
      assert p + q == p;
    }
    var first := Step(d, s, p);
    if first.Next? {
      PartialWaits(d, s, p);
      OneStep(d, first.s, q);
      var second := Step(d, first.s, q);
      if q == [] {
        assert p[|p|..] + q == [];
      } else if second.Next? {
        assert (p + q)[|p| + second.used..] == q[second.used..];
      }
    }
  }

  // ---------------------------------------------------------------- a whole conversation

  /** The caller's loop: while the decoder wants more, offer what it left over followed by the next piece. */
  function Session(d: Descriptor, s: State, leftover: seq<Octet>, pieces: seq<seq<Octet>>): Result
    requires Wf(s)
    decreases |pieces|
  {
    if pieces == [] then Result(More, 0, s)
    else
      var input := leftover + pieces[0];
      var r := Run(d, s, input);
      if r.outcome != More then r
      else Later(r.used, Session(d, r.s, input[r.used..], pieces[1..]))
  }

  /** However the input is cut into pieces, the conversation ends as one call on the whole input does. */
  lemma {:induction false} SessionIsOneRun(d: Descriptor, s: State, leftover: seq<Octet>, pieces: seq<seq<Octet>>)
    requires Good(s) && pieces != [] && |leftover| + |Joined(pieces)| < INT_LIMIT
    ensures Agree(Session(d, s, leftover, pieces), Run(d, s, leftover + Joined(pieces)))
    decreases |pieces|
  {
    hide Run, Step;
    var input := leftover + pieces[0];
    var more := Joined(pieces[1..]);
    RunSplit(d, s, input, more);
    assert input + more == leftover + Joined(pieces);
    var r := Run(d, s, input);
    if r.outcome == More {
      if |pieces| > 1 {
        SessionIsOneRun(d, r.s, input[r.used..], pieces[1..]);
      } else {
        assert more == [] && input + more == input;
      }
    }
  }

  /** An encoding of a tree, cut anywhere into pieces, decodes to the tree's value and is consumed whole. */
  lemma TreeInPieces(d: Descriptor, t: Tree, pieces: seq<seq<Octet>>)
    requires Valid(t) && SegmentsFit(t) && Accepted(d, t)
    requires pieces != [] && Joined(pieces) == Encode(t) && |Encode(t)| < INT_LIMIT
    ensures var r := Session(d, FRESH, [], pieces);
            && r.outcome == Done && r.used == |Encode(t)|
            && r.s.sink.buf == Trimmed(d, Payload(d, t), Unused(d, t, 0))
  {
    hide Run, Step;
    assert Encode(t) + [] == [] + Joined(pieces) == Encode(t);
    DecodesEveryTree(d, t, []);
    SessionIsOneRun(d, FRESH, [], pieces);
  }
}
