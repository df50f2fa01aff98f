/** The bookkeeping of the expectation stack: every octet is charged to exactly one open frame, and
    no frame can promise more than the one around it has left. */
module BerAccounting {
  import opened Octets
  import opened BerTlv
  import opened BerMachine
  import opened BerTree
  import opened BerChunks

  predicate Bounded(outer: Frame, inner: Frame) {
    outer.left != -1 ==> inner.left >= 0 && inner.got + inner.left <= outer.left
  }

  ghost predicate Accounts(s: State) {
    && (forall f <- s.stack :: f.got >= 0 && (f.left == -1 ==> f.wantNulls))
    && (forall i :: 0 <= i < |s.stack| - 1 ==> Bounded(s.stack[i], s.stack[i + 1]))
  }

  function Charges(stack: seq<Frame>): int {
    if stack == [] then 0 else Charges(stack[..|stack| - 1]) + stack[|stack| - 1].got
  }

  lemma NothingCharged()
    ensures Charges([]) == 0
  {
  }

  lemma ChargesOfTop(stack: seq<Frame>, f: Frame)
    ensures Charges(stack + [f]) == Charges(stack) + f.got
  {
    assert (stack + [f])[..|stack|] == stack;
  }

  predicate InConstructed(s: State) {
    s.phase.Expect? || s.phase.Contents?
  }

  lemma TopChanges(s: State, f: Frame)
    requires Accounts(s) && s.stack != [] && f.got >= 0 && (f.left == -1 ==> f.wantNulls)
    requires |s.stack| > 1 ==> Bounded(s.stack[|s.stack| - 2], f)
    ensures Accounts(WithTop(s, f)) && Charges(WithTop(s, f).stack) == Charges(s.stack) - Top(s).got + f.got
  {
    hide Charges;
    var below := s.stack[..|s.stack| - 1];
    assert below + [Top(s)] == s.stack;
    ChargesOfTop(below, Top(s));
    ChargesOfTop(below, f);
    forall g | g in WithTop(s, f).stack ensures g.got >= 0 && (g.left == -1 ==> g.wantNulls) {
      assert g == f || g in below;
    }
  }

  /** In an accounted state a frame that is used up always fits what the frame around it has left. */
  lemma PopNeverFails(s: State)
    requires Wf(s) && s.phase.Expect? && Accounts(s) && s.stack != [] && Top(s).left <= 0 && !Top(s).wantNulls
    ensures var r := PopStep(s);
            && r.Next? && Accounts(r.s)
            && (|s.stack| > 1 ==> r.s.phase.Expect? && Charges(r.s.stack) == Charges(s.stack))
            && (|s.stack| == 1 ==> r.s.phase.Finished? && Charges(s.stack) == Top(s).got)
  {
    hide Charges;
    var below := s.stack[..|s.stack| - 1];
    assert below + [Top(s)] == s.stack;
    ChargesOfTop(below, Top(s));
    assert Top(s) in s.stack;
    if below == [] {
      assert Charges([]) == 0 by { NothingCharged(); }
    } else {
      var outer := s.(stack := below);
      OuterAccounts(s);
      TopChanges(outer, Charge(Top(outer), Top(s).got));
    }
  }

  /** What is left when the innermost frame goes is accounted, and that frame fits into the one around it. */
  lemma OuterAccounts(s: State)
    requires Wf(s) && Accounts(s) && |s.stack| > 1
    ensures var outer := s.(stack := s.stack[..|s.stack| - 1]);
            Accounts(outer) && Bounded(Top(outer), Top(s)) && Top(outer) in s.stack
  {
    var below := s.stack[..|s.stack| - 1];
    assert |below| > 1 ==> Bounded(s.stack[|below| - 2], s.stack[|below| - 1]);
    assert forall g | g in below :: g in s.stack;
  }

  lemma PushAccounts(d: Descriptor, s: State, tag: int, constructed: bool, tlvl: nat, len: int)
    requires Wf(s) && s.phase.Expect? && Accounts(s)
    requires tlvl > 0 && len >= INDEFINITE && (len == INDEFINITE ==> constructed)
    ensures var r := PushStep(d, s, tag, constructed, tlvl, len);
            r.Next? ==> Accounts(r.s) && InConstructed(r.s) && Charges(r.s.stack) == Charges(s.stack) + r.used
  {
    hide Expected, Charges;
    var r := PushStep(d, s, tag, constructed, tlvl, len);
    if r.Next? {
      var f := r.s.stack[|s.stack|];
      ChargesOfTop(s.stack, f);
      assert r.s.stack == s.stack + [f];
      assert s.stack != [] ==> Bounded(Top(s), f);
    }
  }

  lemma ContentsAccounts(d: Descriptor, s: State, input: seq<Octet>)
    requires Wf(s) && Accounts(s) && s.phase.Contents?
    ensures var r := Step(d, s, input);
            r.Next? ==> Accounts(r.s) && InConstructed(r.s) && Charges(r.s.stack) == Charges(s.stack) + r.used
  {
    hide Store, Charges;
    assert Top(s) in s.stack;
    assert |s.stack| > 1 ==> Bounded(s.stack[|s.stack| - 2], s.stack[|s.stack| - 1]);
    var r := Step(d, s, input);
    if r.Next? && Top(s).left > 0 {
      var f := Charge(Top(s), r.used).(chopped := Top(s).chopped || d.variant.Bits?);
      TopChanges(s, f);
      assert r.s.stack == WithTop(s, f).stack;
    }
  }

  /** Each step keeps the accounts and charges exactly the octets that it consumes. */
  lemma StepAccounts(d: Descriptor, s: State, input: seq<Octet>)
    requires Wf(s) && Accounts(s) && InConstructed(s)
    ensures var r := Step(d, s, input);
            r.Next? ==> Accounts(r.s)
                        && (if InConstructed(r.s) then Charges(r.s.stack) == Charges(s.stack) + r.used
                            else r.s.phase.Finished? && r.used == 0 && |s.stack| == 1 && Charges(s.stack) == Top(s).got)
  {
    hide FetchTag, FetchLength, PushStep, PopStep, Store, Charges;
    if s.phase.Contents? {
      ContentsAccounts(d, s, input);
    } else if s.stack != [] && Top(s).left <= 0 && !Top(s).wantNulls {
      PopNeverFails(s);
    } else {
      var window := Window(s, input);
      var tag := FetchTag(window);
      if tag.Got? {
        var length := FetchLength(IsConstructed(input[0]), window[tag.used..]);
        if length.Got? {
          if s.stack != [] && Top(s).wantNulls && input[0] == 0 && input[1] == 0 {
            assert |window| >= 2;
            assert Top(s) in s.stack;
            assert |s.stack| > 1 ==> Bounded(s.stack[|s.stack| - 2], s.stack[|s.stack| - 1]);
            TopChanges(s, EndOfContents(Top(s)));
          } else {
            PushAccounts(d, s, tag.value, IsConstructed(input[0]), tag.used + length.used, length.value);
          }
        }
      }
    }
  }

  /** `left + got` of a frame stays what it was when the frame was pushed, as long as the frame is open. */
  lemma FrameTotalsStay(d: Descriptor, s: State, input: seq<Octet>, i: nat)
    requires Wf(s) && InConstructed(s)
    ensures var r := Step(d, s, input);
            r.Next? && i < |s.stack| && i < |r.s.stack| ==>
              var (f, g) := (s.stack[i], r.s.stack[i]);
              && (f.left == -1 && g.wantNulls ==> g.left == -1)
              && (f.left != -1 && f.wantNulls == g.wantNulls ==> g.left + g.got == f.left + f.got)
  {
    hide FetchTag, FetchLength, Store, PushStep, Finalized;
    if s.phase.Expect? {
      var window := Window(s, input);
      var tag := FetchTag(window);
      if tag.Got? {
        var length := FetchLength(IsConstructed(input[0]), window[tag.used..]);
        if length.Got? {
          PushKeepsBelow(d, s, tag.value, IsConstructed(input[0]), tag.used + length.used, length.value);
        }
      }
    }
  }

  lemma PushKeepsBelow(d: Descriptor, s: State, tag: int, constructed: bool, tlvl: nat, len: int)
    requires Wf(s) && s.phase.Expect? && tlvl > 0 && len >= INDEFINITE && (len == INDEFINITE ==> constructed)
    ensures var r := PushStep(d, s, tag, constructed, tlvl, len); r.Next? ==> s.stack == r.s.stack[..|s.stack|]
  {
    hide Expected;
  }

  // ---------------------------------------------------------------- declared lengths

  /** What the header of an open element announced: its own octets, and the contents octets to follow or INDEFINITE. */
  datatype Header = Header(octets: int, length: int)

  /** The header that the tag and length readers see at the front of the input. */
  function SeenHeader(s: State, input: seq<Octet>): Header
    requires Wf(s)
  {
    var window := Window(s, input);
    var tag := FetchTag(window);
    if !tag.Got? then Header(0, 0)
    else
      var length := FetchLength(IsConstructed(window[0]), window[tag.used..]);
      if length.Got? then Header(tag.used + length.used, length.value) else Header(0, 0)
  }

  /** The headers of the open elements after a step: a push adds the one just read, a pop drops the last. */
  function StepHeaders(d: Descriptor, s: State, input: seq<Octet>, open: seq<Header>): seq<Header>
    requires Wf(s)
  {
    var depth := |Step(d, s, input).s.stack|;
    if depth > |open| then open + [SeenHeader(s, input)] else open[..depth]
  }

  /** The headers of the elements left open by a call. */
  function RunHeaders(d: Descriptor, s: State, input: seq<Octet>, open: seq<Header>): seq<Header>
    requires Wf(s)
    decreases |input|, Rank(s)
  {
    var next := Step(d, s, input);
    if next.Stop? then open else RunHeaders(d, next.s, input[next.used..], StepHeaders(d, s, input, open))
  }

  /** The frame of an element of declared length: `left` and the contents octets got so far add up to that length. */
  predicate Tallies(f: Frame, h: Header) {
    h.length != INDEFINITE ==> !f.wantNulls && f.left >= 0 && f.left + (f.got - h.octets) == h.length
  }

  ghost predicate AllTally(s: State, open: seq<Header>) {
    |open| == |s.stack| && forall i | 0 <= i < |open| :: Tallies(s.stack[i], open[i])
  }

  lemma PushTallies(d: Descriptor, s: State, tag: int, constructed: bool, h: Header, open: seq<Header>)
    requires Wf(s) && s.phase.Expect? && AllTally(s, open)
    requires h.octets > 0 && h.length >= INDEFINITE && (h.length == INDEFINITE ==> constructed)
    ensures var r := PushStep(d, s, tag, constructed, h.octets, h.length);
            if r.Next? then AllTally(r.s, open + [h]) else r.s == s
  {
    hide Expected;
  }

  lemma PopTallies(s: State, open: seq<Header>)
    requires Wf(s) && s.phase.Expect? && s.stack != [] && AllTally(s, open) && Accounts(s)
    requires Top(s).left <= 0 && !Top(s).wantNulls
    ensures var r := PopStep(s); |r.s.stack| == |open| - 1 && AllTally(r.s, open[..|open| - 1])
  {
    PopNeverFails(s);
    if |s.stack| > 1 {
      assert Bounded(s.stack[|s.stack| - 2], s.stack[|s.stack| - 1]);
    }
  }

  lemma ContentsTally(d: Descriptor, s: State, input: seq<Octet>, open: seq<Header>)
    requires Wf(s) && s.phase.Contents? && AllTally(s, open)
    ensures var r := Step(d, s, input); |r.s.stack| == |open| && AllTally(r.s, open)
  {
    hide Store;
  }

  /** Each step keeps the tally of every open element. */
  lemma StepTallies(d: Descriptor, s: State, input: seq<Octet>, open: seq<Header>)
    requires Wf(s) && InConstructed(s) && AllTally(s, open) && Accounts(s)
    ensures AllTally(Step(d, s, input).s, StepHeaders(d, s, input, open))
  {
    hide FetchTag, FetchLength, PushStep, PopStep, Store;
    assert open[..|open|] == open;
    if s.phase.Contents? {
      ContentsTally(d, s, input, open);
    } else if s.stack != [] && Top(s).left <= 0 && !Top(s).wantNulls {
      PopTallies(s, open);
    } else {
      var window := Window(s, input);
      var tag := FetchTag(window);
      if tag.Got? {
        var length := FetchLength(IsConstructed(input[0]), window[tag.used..]);
        if length.Got? && !(s.stack != [] && Top(s).wantNulls && input[0] == 0 && input[1] == 0) {
          PushTallies(d, s, tag.value, IsConstructed(input[0]), Header(tag.used + length.used, length.value), open);
        }
      }
    }
  }

  /** In every state that a call leaves, starting fresh or from such a state: `left` and the contents octets got of
      each open element of definite length add up to the length that its header declared. */
  lemma {:induction false} RunTallies(d: Descriptor, s: State, input: seq<Octet>, open: seq<Header>)
    requires Wf(s) && Accounts(s) && AllTally(s, open) && (s.phase.Start? || InConstructed(s))
    ensures var r := Run(d, s, input);
            InConstructed(r.s) ==> AllTally(r.s, RunHeaders(d, s, input, open))
    decreases |input|, Rank(s)
  {
    hide Run, Step, Accounts, AllTally;
    OneStep(d, s, input);
    HeadersStep(d, s, input, open);
    var next := Step(d, s, input);
    var headers := StepHeaders(d, s, input, open);
    if InConstructed(s) {
      StepAccounts(d, s, input);
      StepTallies(d, s, input, open);
      StopTallies(d, s, input, open);
    } else {
      StartTallies(d, s, input, open);
    }
    if next.Next? {
      if InConstructed(next.s) {
        RunTallies(d, next.s, input[next.used..], headers);
      } else {
        LaterPhasesStay(d, next.s, input[next.used..]);
      }
    }
  }

  lemma HeadersStep(d: Descriptor, s: State, input: seq<Octet>, open: seq<Header>)
    requires Wf(s)
    ensures var next := Step(d, s, input);
            RunHeaders(d, s, input, open)
            == if next.Stop? then open else RunHeaders(d, next.s, input[next.used..], StepHeaders(d, s, input, open))
  {
  }

  lemma StopTallies(d: Descriptor, s: State, input: seq<Octet>, open: seq<Header>)
    requires Wf(s) && AllTally(s, open)
    ensures var r := Step(d, s, input); r.Stop? ==> AllTally(r.s, open) && r.s.phase == s.phase
    ensures InConstructed(s) && Step(d, s, input).Next? && !InConstructed(Step(d, s, input).s)
            ==> Step(d, s, input).s.phase.Finished?
  {
    hide FetchTag, FetchLength, Store;
    StopsKeepStack(d, s, input);
  }

  lemma StartTallies(d: Descriptor, s: State, input: seq<Octet>, open: seq<Header>)
    requires Wf(s) && s.phase.Start? && AllTally(s, open)
    ensures var r := Step(d, s, input);
            if r.Stop? then r.s == s
            else
              && Accounts(r.s)
              && (r.s.phase.Primitive? || (r.s.phase.Expect? && AllTally(r.s, StepHeaders(d, s, input, open))))
  {
    hide FetchTag, FetchLength;
    StartAccounts(d, s, input);
  }

  // ---------------------------------------------------------------- a whole call

  /** Over a whole call on a fresh structure the open frames together account for every octet consumed. */
  lemma {:induction false} RunAccounts(d: Descriptor, s: State, input: seq<Octet>)
    requires Wf(s) && Accounts(s) && (s.phase.Start? || InConstructed(s))
    ensures var r := Run(d, s, input);
            InConstructed(r.s) ==> Accounts(r.s) && Charges(r.s.stack) == Charges(s.stack) + r.used
    decreases |input|, Rank(s)
  {
    hide Run, Step;
    OneStep(d, s, input);
    var next := Step(d, s, input);
    if InConstructed(s) {
      StepAccounts(d, s, input);
      StopsKeepStack(d, s, input);
      if next.Next? && InConstructed(next.s) {
        RunAccounts(d, next.s, input[next.used..]);
      } else if next.Next? {
        LaterPhasesStay(d, next.s, input[next.used..]);
      }
    } else {
      StartAccounts(d, s, input);
      if next.Next? && InConstructed(next.s) {
        RunAccounts(d, next.s, input[next.used..]);
      } else if next.Next? {
        LaterPhasesStay(d, next.s, input[next.used..]);
      }
    }
  }

  lemma StopsKeepStack(d: Descriptor, s: State, input: seq<Octet>)
    requires Wf(s)
    ensures var r := Step(d, s, input); r.Stop? ==> r.s.stack == s.stack && r.s.phase == s.phase
  {
    hide FetchTag, FetchLength, Store;
  }

  lemma StartAccounts(d: Descriptor, s: State, input: seq<Octet>)
    requires Wf(s) && s.phase.Start?
    ensures var r := Step(d, s, input);
            if r.Next? then r.s.stack == [] && (r.s.phase.Primitive? || (r.s.phase.Expect? && r.used == 0))
            else r.s == s
  {
    hide FetchTag, FetchLength;
  }

  lemma {:induction false} LaterPhasesStay(d: Descriptor, s: State, input: seq<Octet>)
    requires Wf(s) && (s.phase.Primitive? || s.phase.Finished?)
    ensures var r := Run(d, s, input); r.s.phase.Primitive? || r.s.phase.Finished?
    decreases |input|, Rank(s)
  {
    hide Run, Store;
    OneStep(d, s, input);
    var next := Step(d, s, input);
    if next.Next? {
      LaterPhasesStay(d, next.s, input[next.used..]);
    }
  }

  // ---------------------------------------------------------------- a whole conversation

  /** The accounts and tallies of a state that a call can be made on; a primitive string has no frames. */
  ghost predicate Tracked(s: State, open: seq<Header>) {
    s.phase.Primitive? || s.phase.Finished? || (Accounts(s) && AllTally(s, open))
  }

  lemma RunTracks(d: Descriptor, s: State, input: seq<Octet>, open: seq<Header>)
    requires Wf(s) && Tracked(s, open)
    ensures Tracked(Run(d, s, input).s, RunHeaders(d, s, input, open))
  {
    hide Run, Step, Accounts, AllTally, RunHeaders;
    if s.phase.Primitive? || s.phase.Finished? {
      LaterPhasesStay(d, s, input);
    } else {
      RunAccounts(d, s, input);
      RunTallies(d, s, input, open);
      if s.phase.Start? {
        StartOrStarted(d, s, input, open);
      } else {
        StartIsLeft(d, s, input);
      }
    }
  }

  lemma StartOrStarted(d: Descriptor, s: State, input: seq<Octet>, open: seq<Header>)
    requires Wf(s) && s.phase.Start?
    ensures var r := Run(d, s, input); r.s.phase.Start? ==> r.s == s && RunHeaders(d, s, input, open) == open
  {
    hide Run, Step, RunHeaders;
    OneStep(d, s, input);
    HeadersStep(d, s, input, open);
    StartAccounts(d, s, input);
    var next := Step(d, s, input);
    if next.Next? {
      StartIsLeft(d, next.s, input[next.used..]);
    }
  }

  /** No step goes back to phase 0. */
  lemma {:induction false} StartIsLeft(d: Descriptor, s: State, input: seq<Octet>)
    requires Wf(s) && !s.phase.Start?
    ensures !Run(d, s, input).s.phase.Start?
    decreases |input|, Rank(s)
  {
    hide Run, Step;
    OneStep(d, s, input);
    StepLeavesStart(d, s, input);
    var next := Step(d, s, input);
    if next.Next? {
      StartIsLeft(d, next.s, input[next.used..]);
    }
  }

  lemma StepLeavesStart(d: Descriptor, s: State, input: seq<Octet>)
    requires Wf(s) && !s.phase.Start?
    ensures !Step(d, s, input).s.phase.Start?
  {
    hide FetchTag, FetchLength, Store;
  }

  /** The headers of the elements left open by a conversation. */
  function SessionHeaders(d: Descriptor, s: State, leftover: seq<Octet>, pieces: seq<seq<Octet>>, open: seq<Header>):
      seq<Header>
    requires Wf(s)
    decreases |pieces|
  {
    if pieces == [] then open
    else
      var input := leftover + pieces[0];
      var (r, headers) := (Run(d, s, input), RunHeaders(d, s, input, open));
      if r.outcome != More then headers else SessionHeaders(d, r.s, input[r.used..], pieces[1..], headers)
  }

  /** Every state of every conversation with a fresh structure is accounted for: its frames never promise more than
      the ones around them have left, and those of definite length tally with what their headers declared. */
  lemma {:induction false} SessionTracks(d: Descriptor, s: State, leftover: seq<Octet>, pieces: seq<seq<Octet>>,
                                         open: seq<Header>)
    requires Wf(s) && Tracked(s, open)
    ensures Tracked(Session(d, s, leftover, pieces).s, SessionHeaders(d, s, leftover, pieces, open))
    decreases |pieces|
  {
    hide Run, RunHeaders, Tracked;
    if pieces != [] {
      var input := leftover + pieces[0];
      RunTracks(d, s, input, open);
      var r := Run(d, s, input);
      if r.outcome == More {
        SessionTracks(d, r.s, input[r.used..], pieces[1..], RunHeaders(d, s, input, open));
      }
    }
  }

  lemma FreshIsTracked()
    ensures Wf(FRESH) && Tracked(FRESH, [])
  {
  }
}
