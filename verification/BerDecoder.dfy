/** The structure that the decoder fills in place, and the decoder and DER encoder working on it. */
module BerDecoder {
  import opened Octets
  import opened Options
  import opened BerTlv
  import opened BerMachine
  import opened BerTree
  import opened BerRoundTrip

  /** The contents octets that are written out (src/msg/OCTET_STRING.c:554-571). */
  function DerContents(d: Descriptor, buf: seq<Octet>, bitsUnused: Octet): (r: seq<Octet>)
    ensures |r| == |buf| + if d.variant.Bits? then 1 else 0
  {
    if d.variant.Chars? then buf
    else
      var b := bitsUnused % 8;
      [b] + if b != 0 && buf != [] then buf[..|buf| - 1] + [Masked(buf[|buf| - 1], bitsUnused)] else buf
  }

  lemma MaskedTwice(b: Octet, n: Octet)
    ensures Masked(Masked(b, n), n) == Masked(b, n) && Masked(b, 0) == b
  {
    if n < 8 {
      var unit := [1, 2, 4, 8, 16, 32, 64, 128][n];
      assert b / unit * unit / unit == b / unit;
    }
  }

  lemma ContentsMean(d: Descriptor, buf: seq<Octet>, bitsUnused: Octet)
    requires d.variant.Bits? ==> bitsUnused < 8
    ensures var c := DerContents(d, buf, bitsUnused);
            && |LeafPayload(d, c)| == |buf|
            && Trimmed(d, LeafPayload(d, c), bitsUnused) == Trimmed(d, buf, bitsUnused)
            && (d.variant.Bits? ==> c != [] && c[0] == bitsUnused)
  {
    hide Masked;
    if d.variant.Bits? && buf != [] {
      MaskedTwice(buf[|buf| - 1], bitsUnused);
    }
  }

  lemma HeadJoins(tag: seq<Octet>, length: seq<Octet>, value: int, len: nat)
    requires tag != [] && !IsConstructed(tag[0]) && FetchTag(tag) == Got(|tag|, value) && value != 0
    requires FetchLength(false, length) == Got(|length|, len)
    ensures HeadFor(tag + length, false, len) && FetchTag(tag + length) == Got(|tag|, value)
  {
    hide FetchTag, FetchLength, HeadFor;
    assert (tag + length)[|tag|..] == length;
    FetchTagStable(tag, tag + length);
    HeadsExactly(tag + length, false, len);
  }

  /** BIT_STRING_t with its parsing context; `frames` keeps popped stack elements for reuse. */
  class OctetString {
    var buf: seq<Octet>
    var bitsUnused: Octet
    var phase: Phase
    var context: nat
    var left: int
    var frames: seq<Frame>
    var depth: nat

    /** The state of the abstract machine: only the stack elements up to `cur_ptr` matter. */
    ghost function Abs(): State
      reads this
      requires depth <= |frames|
    {
      State(phase, left, frames[..depth], Sink(buf, context, bitsUnused))
    }

    ghost predicate Valid()
      reads this
    {
      depth <= |frames| && Wf(Abs())
    }

    constructor ()
      ensures Valid() && Abs() == FRESH
    {
      buf, bitsUnused, phase, context, left, frames, depth := [], 0, Start, 0, 0, [], 0;
    }

    /** OS__add_stack_el: an element left over from an earlier push is used again. */
    method AddStackElement()
      requires Valid() && phase.Expect?
      modifies this`frames, this`depth
      ensures depth == old(depth) + 1 <= |frames|
      ensures frames[..depth - 1] == old(frames[..depth])
      ensures frames[depth - 1].got == 0 && !frames[depth - 1].chopped
    {
      if depth < |frames| {
        frames := frames[depth := frames[depth].(got := 0, chopped := false)];
      } else {
        frames := frames + [Frame(0, 0, false, false)];
      }
      depth := depth + 1;
    }

    /** The APPEND macro; false where it returns RC_FAIL. */
    method AppendBytes(bytes: seq<Octet>) returns (ok: bool)
      modifies this`buf, this`context
      ensures var r := Append(Sink(old(buf), old(context), bitsUnused), bytes);
              ok == r.Some? && (ok ==> r.value == Sink(buf, context, bitsUnused))
    {
      var es := |buf| + |bytes|;
      if es % UINT_LIMIT >= INT_LIMIT {
        return false;
      }
      if context <= es {
        var ns := if context == 0 then 16 else 2 * context;
        while ns <= es
          invariant ns > 0
          invariant Doubled(context, es) == if ns <= es then Doubled(ns, es) else ns
          decreases es - ns
        {
          ns := 2 * ns;
        }
        if ns % UINT_LIMIT >= INT_LIMIT {
          return false;
        }
        context := ns;
      }
      buf := (buf + bytes)[..es % UINT_LIMIT];
      ok := true;
    }

    /** What one turn of a phase has done, against the step of the machine. */
    ghost predicate Performed(d: Descriptor, s: State, input: seq<Octet>, code: Option<Outcome>, n: nat)
      requires Wf(s)
      reads this
    {
      && Valid()
      && match Step(d, s, input)
         case Next(s', m) => code == None && n == m && Abs() == s'
         case Stop(outcome, s') => code == Some(outcome) && n == 0 && (outcome != Fail ==> Abs() == s')
    }

    method StartPhase(d: Descriptor, input: seq<Octet>) returns (code: Option<Outcome>, n: nat)
      requires Valid() && phase.Start?
      modifies this
      ensures Performed(d, old(Abs()), input, code, n)
    {
      var tag := ReadTag(input);
      match tag {
        case Bad => return Some(Fail), 0;
        case Starved => return Some(More), 0;
        case Got(tl, value) =>
          if value != d.tag {
            return Some(Fail), 0;
          }
          var constructed := IsConstructed(input[0]);
          var length := ReadLength(constructed, input[tl..]);
          match length {
            case Bad => return Some(Fail), 0;
            case Starved => return Some(More), 0;
            case Got(ll, len) =>
              if len + tl + ll >= SSIZE_LIMIT {
                return Some(Fail), 0;
              }
              context := 0;
              if constructed {
                frames, depth, phase := [], 0, Expect;
                return None, 0;
              }
              left, phase := len, Primitive;
              return None, tl + ll;
          }
      }
    }

    method Pop() returns (code: Option<Outcome>)
      requires Valid() && phase.Expect? && depth > 0
      requires frames[depth - 1].left <= 0 && !frames[depth - 1].wantNulls
      modifies this`phase, this`frames, this`depth
      ensures forall d, input :: Performed(d, old(Abs()), input, code, 0)
    {
      assert Top(Abs()) == frames[depth - 1];
      if depth == 1 {
        depth, phase := 0, Finished;
        return None;
      }
      var prev, got := frames[depth - 2], frames[depth - 1].got;
      assert frames[..depth][..depth - 1] == frames[..depth - 1];
      if prev.left != -1 {
        if prev.left < got {
          return Some(Fail);
        }
        prev := prev.(left := prev.left - got);
      }
      frames := frames[depth - 2 := prev.(got := prev.got + got)];
      depth := depth - 1;
      code := None;
    }

    /** A new expectation (src/msg/OCTET_STRING.c:354-401); a refused one leaves its element behind. */
    method Push(d: Descriptor, tag: int, constructed: bool, tlvl: nat, len: int) returns (code: Option<Outcome>)
      requires Valid() && phase.Expect? && tlvl > 0 && len >= INDEFINITE && (len == INDEFINITE ==> constructed)
      modifies this`phase, this`frames, this`depth
      ensures Valid()
      ensures match PushStep(d, old(Abs()), tag, constructed, tlvl, len)
              case Next(s', _) => code == None && Abs() == s'
              case Stop(outcome, _) => outcome == Fail && code == Some(Fail)
    {
      assert depth > 0 ==> Top(Abs()) == frames[depth - 1];
      if tag != Expected(d, depth, tag) || len + tlvl >= SSIZE_LIMIT {
        return Some(Fail);
      }
      ghost var was := frames[..depth];
      AddStackElement();
      var sel := frames[depth - 1].(wantNulls := len == INDEFINITE);
      if depth > 1 && frames[depth - 2].left != -1 {
        var prev := frames[depth - 2];
        assert prev == was[depth - 2];
        if prev.left < tlvl + (if len == INDEFINITE then 0 else len) {
          depth := depth - 1;
          return Some(Fail);
        }
        sel := sel.(left := if len == INDEFINITE then prev.left - tlvl else len);
      } else {
        assert depth > 1 ==> frames[depth - 2] == was[depth - 2];
        sel := sel.(left := len);
      }
      frames := frames[depth - 1 := sel.(got := sel.got + tlvl)];
      assert frames[..depth] == was + [frames[depth - 1]];
      phase := if constructed then Expect else Contents;
      code := None;
    }

    method EatEndOfContents()
      requires Valid() && depth > 0
      modifies this`frames
      ensures Valid() && Abs() == WithTop(old(Abs()), EndOfContents(Top(old(Abs()))))
    {
      assert Top(Abs()) == frames[depth - 1];
      frames := frames[depth - 1 := EndOfContents(frames[depth - 1])];
      assert frames[..depth] == old(frames[..depth])[..depth - 1] + [frames[depth - 1]];
    }

    method ExpectPhase(d: Descriptor, input: seq<Octet>) returns (code: Option<Outcome>, n: nat)
      requires Valid() && phase.Expect?
      modifies this`phase, this`frames, this`depth
      ensures Performed(d, old(Abs()), input, code, n)
    {
      hide FetchTag, FetchLength, PushStep, PopStep, StartStep, ContentsStep, PrimitiveStep, EndOfContents, WithTop;
      assert depth > 0 ==> Top(Abs()) == frames[depth - 1];
      if depth > 0 && frames[depth - 1].left <= 0 && !frames[depth - 1].wantNulls {
        code := Pop();
        return code, 0;
      }
      var window := input;
      if depth > 0 && frames[depth - 1].left != -1 && frames[depth - 1].left < |input| {
        assert Top(Abs()) in Abs().stack;
        window := input[..frames[depth - 1].left];
      }
      var tag := ReadTag(window);
      match tag {
        case Bad => return Some(Fail), 0;
        case Starved => return Some(More), 0;
        case Got(tl, value) =>
          var constructed := IsConstructed(input[0]);
          var length := ReadLength(constructed, window[tl..]);
          match length {
            case Bad => return Some(Fail), 0;
            case Starved => return Some(More), 0;
            case Got(ll, len) =>
              if depth > 0 && frames[depth - 1].wantNulls && input[0] == 0 && input[1] == 0 {
                EatEndOfContents();
                return None, 2;
              }
              code := Push(d, value, constructed, tl + ll, len);
              n := if code == None then tl + ll else 0;
          }
      }
    }

    /** Store contents octets, putting the unused-bits octet of a BIT STRING away first. */
    method StoreBytes(d: Descriptor, chopped: bool, bytes: seq<Octet>) returns (ok: bool)
      modifies this`buf, this`context, this`bitsUnused
      ensures var r := Store(d, Sink(old(buf), old(context), old(bitsUnused)), chopped, bytes);
              ok == r.Some? && (ok ==> r.value == Sink(buf, context, bitsUnused))
    {
      if d.variant.Bits? && !chopped && |bytes| > 0 {
        bitsUnused := bytes[0];
        ok := AppendBytes(bytes[1..]);
      } else {
        ok := AppendBytes(bytes);
      }
    }

    method ContentsPhase(d: Descriptor, input: seq<Octet>) returns (code: Option<Outcome>, n: nat)
      requires Valid() && phase.Contents?
      modifies this
      ensures Performed(d, old(Abs()), input, code, n)
    {
      hide Append, Store, StartStep, ExpectStep, PrimitiveStep;
      var sel := frames[depth - 1];
      assert Top(Abs()) == sel;
      if sel.left == 0 {
        phase := Expect;
        return None, 0;
      }
      var len := if |input| < sel.left then |input| else sel.left;
      if len == 0 {
        return Some(More), 0;
      }
      var ok := StoreBytes(d, sel.chopped, input[..len]);
      if !ok {
        return Some(Fail), 0;
      }
      var chopped := sel.chopped || d.variant.Bits?;
      frames := frames[depth - 1 := Frame(sel.left - len, sel.got + len, sel.wantNulls, chopped)];
      assert frames[..depth] == old(frames[..depth])[..depth - 1] + [frames[depth - 1]];
      return None, len;
    }

    method PrimitivePhase(d: Descriptor, input: seq<Octet>) returns (code: Option<Outcome>, n: nat)
      requires Valid() && phase.Primitive?
      modifies this
      ensures Performed(d, old(Abs()), input, code, n)
    {
      hide Append, Store;
      if |input| < left && |input| == 0 {
        return Some(More), 0;
      }
      n := if |input| < left then |input| else left;
      var ok := StoreBytes(d, context != 0, input[..n]);
      if !ok {
        return Some(Fail), 0;
      }
      if |input| >= left {
        phase := Finished;
      }
      left := left - n;
      code := None;
    }

    /** Zero the unused bits (src/msg/OCTET_STRING.c:495-501). */
    method Finish(d: Descriptor)
      modifies this`buf
      ensures Sink(buf, context, bitsUnused) == Finalized(d, Sink(old(buf), context, bitsUnused))
    {
      if d.variant.Bits? && |buf| > 0 {
        buf := buf[|buf| - 1 := Masked(buf[|buf| - 1], bitsUnused)];
      }
    }

    /** One call: it ends exactly as the machine does, consumes what it consumes and leaves its state. */
    method DecodeBer(d: Descriptor, input: seq<Octet>) returns (code: Outcome, consumed: nat)
      requires Valid()
      modifies this
      ensures Valid()
      ensures var r := Run(d, old(Abs()), input);
              code == r.outcome && consumed == r.used && (code != Fail ==> Abs() == r.s)
    {
      hide Run, Step;
      consumed := 0;
      var turn: Option<Outcome> := None;
      assert input[0..] == input;
      while true
        invariant Valid() && consumed <= |input|
        invariant Run(d, old(Abs()), input) == Via(d, Abs(), consumed, input[consumed..])
        decreases |input| - consumed, Rank(Abs())
      {
        var rest := input[consumed..];
        ghost var s := Abs();
        OneStep(d, s, rest);
        var n := 0;
        match phase {
          case Start => turn, n := StartPhase(d, rest);
          case Expect => turn, n := ExpectPhase(d, rest);
          case Contents => turn, n := ContentsPhase(d, rest);
          case Primitive => turn, n := PrimitivePhase(d, rest);
          case Finished =>
            FinishRuns(d, s, rest);
            Finish(d);
            return Done, consumed;
        }
        if turn.Some? {
          return turn.value, consumed;
        }
        assert rest[n..] == input[consumed + n..];
        consumed := consumed + n;
      }
    }

    /** BIT_STRING_constraint (src/msg/BIT_STRING.c:47-68). */
    predicate PaddingOk(d: Descriptor)
      reads this
    {
      d.variant.Bits? ==> bitsUnused < 8 && (buf == [] ==> bitsUnused == 0)
    }

    /** The decoder, run on `code` and whatever follows, gives back this value with its unused bits cleared. */
    ghost predicate ReadBack(d: Descriptor, code: seq<Octet>, rest: seq<Octet>)
      reads this
    {
      var r := Run(d, FRESH, code + rest);
      && r.outcome == Done && r.used == |code|
      && r.s.sink.buf == Trimmed(d, buf, bitsUnused)
      && (d.variant.Bits? ==> r.s.sink.bitsUnused == bitsUnused)
    }

    /** OCTET_STRING_encode_der is undone by the decoder exactly when the value is below 2^30 octets. */
    method EncodeDer(d: Descriptor) returns (out: seq<Octet>)
      requires 0 < d.tag < UINT_LIMIT && |buf| < INT_LIMIT - 1
      ensures IsDer(out, d.tag, DerContents(d, buf, bitsUnused))
      ensures PaddingOk(d) ==> forall rest :: ReadBack(d, out, rest) <==> |buf| < MAX_SIZE
    {
      hide Run, FetchTag, FetchLength, DerContents, IsIdentifier, IsLength, HeadFor, IsDer;
      var tag := SerializeTag(d.tag);
      var contents := DerContents(d, buf, bitsUnused);
      var length := SerializeLength(|contents|);
      out := tag + length + contents;
      DerJoins(tag, length, d.tag, contents);
      if PaddingOk(d) {
        HeadJoins(tag, length, d.tag, |contents|);
        ContentsMean(d, buf, bitsUnused);
        ghost var t := Leaf(tag + length, contents);
        forall rest ensures ReadBack(d, out, rest) <==> |buf| < MAX_SIZE {
          DecodesEveryTree(d, t, rest);
        }
      }
    }
  }
}
