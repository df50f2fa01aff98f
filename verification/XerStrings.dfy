/** Reading a character string from XML text that may arrive in pieces: xer_decode_general
    (src/msg/xer_decoder.c:206-322) with the callbacks of OCTET_STRING_decode_xer_utf8
    (src/msg/OCTET_STRING.c:713-733, 959-1158), whose state is kept from one call to the next. */
module XerStrings {
  import opened Octets
  import opened XerText
  import opened XerTokens
  import opened EntityCodec
  import opened EntityText
  import opened Options

  /** ctx->phase and ctx->context, and the string so far. */
  datatype Reading = Reading(inside: bool, place: Place, text: seq<Octet>)

  /** RC_OK, RC_WMORE, RC_FAIL, or a failed assertion. */
  datatype Code = Closed | More | Refused | Crashed

  datatype Run = Run(code: Code, consumed: nat, state: Reading)

  const START := Reading(false, InText, [])

  function Past(n: nat, r: Run): Run {
    r.(consumed := n + r.consumed)
  }

  /** The control character that a tag of the escape table spells, or -1. */
  ghost function ControlOf(tag: seq<Octet>): (c: int)
    ensures c == -1 || (0 <= c < 32 && EscapeOf(c) == tag)
    ensures c == -1 ==> forall c: Octet | c < 32 :: EscapeOf(c) != tag
  {
    if exists c: Octet :: c < 32 && EscapeOf(c) == tag then
      var c: Octet :| c < 32 && EscapeOf(c) == tag;
      c
    else -1
  }

  /** A token leads to a state with some of it used, or ends the call. */
  datatype Taken = Goes(state: Reading, used: nat) | Ends(code: Code, used: nat, state: Reading)

  /** A token and the state after the tokenizer; `last` if the input ends with it. A text may be converted in part
      only, if it may go on; what is left of it is the next token then. */
  ghost function Take(need: seq<Octet>, st: Reading, kind: Kind, chunk: seq<Octet>, last: bool): (r: Taken)
    requires chunk != []
    ensures r.used <= |chunk| && (r.Goes? ==> r.used > 0)
  {
    match kind
    case CommentKind => Goes(st, |chunk|)
    case TextKind =>
      if !st.inside then Goes(st, |chunk|)
      else
        var e := Expand(chunk, !last);
        if e.Aborted? then Ends(Crashed, 0, st)
        else if e.used == 0 then Ends(More, 0, st)
        else Goes(st.(text := st.text + e.octets), e.used)
    case TagKind =>
      match TagSpec(chunk, need)
      case Known(Opening) => if st.inside then Ends(Refused, 0, st) else Goes(st.(inside := true), |chunk|)
      case Known(Closing) => if st.inside then Ends(Closed, |chunk|, st) else Ends(Refused, 0, st)
      case Known(Both) => if st.inside then Ends(Refused, 0, st) else Ends(Closed, |chunk|, st)
      case Unknown(Both) =>
        var c := ControlOf(chunk);
        if c == -1 then Ends(Refused, 0, st)
        else
          var read := st.(text := st.text + [c]);
          if st.inside then Goes(read, |chunk|) else Ends(Closed, |chunk|, read)
      case _ => Ends(Refused, 0, st)
  }

  /** A call on the input s. */
  ghost function Decode(need: seq<Octet>, st: Reading, s: seq<Octet>): (r: Run)
    ensures r.consumed <= |s|
    decreases |s|
  {
    match From(st.place, s, 0)
    case Wait => Run(More, 0, st)
    case Cut(kind, n, next) =>
      match Take(need, st.(place := next), kind, s[..n], n == |s|)
      case Goes(st', used) => Past(used, Decode(need, st', s[used..]))
      case Ends(code, used, st') => Run(code, used, st')
  }

  lemma DecodeStep(need: seq<Octet>, st: Reading, s: seq<Octet>)
    requires From(st.place, s, 0).Cut?
    ensures var token := From(st.place, s, 0);
            var (t, r) := (Take(need, st.(place := token.place), token.kind, s[..token.size], token.size == |s|),
                           Decode(need, st, s));
            && t.used <= |s|
            && (t.Goes? ==> r == Past(t.used, Decode(need, t.state, s[t.used..])))
            && (t.Ends? ==> r == Run(t.code, t.used, t.state))
  {
    hide Take;
  }

  // ---------------------------------------------------------------- the decoder

  /** OCTET_STRING__handle_control_chars. */
  method HandleControlChars(st: XerString, chunk: seq<Octet>) returns (ok: bool)
    requires st.Valid()
    modifies st
    ensures st.Valid() && (st.buf == old(st.buf) || fresh(st.buf))
    ensures ok <==> ControlOf(chunk) != -1
    ensures st.Contents() == old(st.Contents()) + if ok then [ControlOf(chunk)] else []
  {
    hide EscapeOf;
    ghost var was := st.Contents();
    var c := CheckEscapedControlChar(chunk);
    if c < 0 {
      assert st.Contents() == was + [];
      return false;
    }
    st.Reserve(st.size + 1);
    assert st.buf[..st.size] == st.buf[..st.size + 1][..st.size] == was;
    st.buf[st.size] := c;
    assert st.buf[..st.size + 1] == was + [c];
    st.size := st.size + 1;
    st.buf[st.size] := 0;
    ok := true;
  }

  /** The string, with its parsing context. */
  class StringReader {
    var inside: bool
    var place: Place
    const text: XerString

    ghost predicate Valid()
      reads this, text, text.buf
    {
      text.Valid()
    }

    ghost function Abs(): Reading
      reads this, text, text.buf
      requires Valid()
    {
      Reading(inside, place, text.Contents())
    }

    constructor ()
      ensures Valid() && fresh(text) && fresh(text.buf) && Abs() == START
    {
      inside, place := false, InText;
      text := new XerString();
      new;
      assert text.Contents() == [];
    }

    /** One call; after a crash nothing is said of the string. */
    method DecodeXer(need: seq<Octet>, buf: seq<Octet>) returns (code: Code, consumed: nat)
      requires Valid() && 0 !in need
      modifies this, text
      ensures text.buf == old(text.buf) || fresh(text.buf)
      ensures var r := Decode(need, old(Abs()), buf);
              code == r.code && consumed == r.consumed && (!code.Crashed? ==> Valid() && Abs() == r.state)
    {
      hide Decode, From, Take;
      consumed := 0;
      assert buf[0..] == buf;
      ghost var whole := Decode(need, Abs(), buf);
      while true
        invariant consumed <= |buf| && Valid() && (text.buf == old(text.buf) || fresh(text.buf))
        invariant whole == Past(consumed, Decode(need, Abs(), buf[consumed..]))
        decreases |buf| - consumed
      {
        ghost var st := Abs();
        var rest := buf[consumed..];
        var token := NextToken(place, rest);
        if token.Wait? {
          NoTokenYet(need, st, rest);
          return More, consumed;
        }
        DecodeStep(need, st, rest);
        place := token.place;
        assert Abs() == st.(place := token.place);
        var end, used := TakeToken(need, token.kind, rest[..token.size], token.size == |rest|);
        if end.Some? {
          return end.value, consumed + used;
        }
        assert rest[used..] == buf[consumed + used..];
        consumed := consumed + used;
      }
    }

    /** The body of the loop: the code that the call ends with, if it does. */
    method TakeToken(need: seq<Octet>, kind: Kind, chunk: seq<Octet>, last: bool)
        returns (end: Option<Code>, used: nat)
      requires Valid() && 0 !in need && chunk != []
      modifies this`inside, text
      ensures text.buf == old(text.buf) || fresh(text.buf)
      ensures var t := Take(need, old(Abs()), kind, chunk, last);
              && used == t.used && end == (if t.Ends? then Some(t.code) else None)
              && (end != Some(Crashed) ==> Valid() && Abs() == t.state)
    {
      hide TagSpec, Expand, ControlOf;
      ghost var st := Abs();
      assert st.text + [] == st.text;
      end, used := None, |chunk|;
      match kind {
        case CommentKind =>
        case TextKind =>
          if inside {
            var r := ConvertEntrefs(text, chunk, !last);
            if r.Aborted? {
              return Some(Crashed), 0;
            }
            used := r.used;
            if used == 0 && last {
              NothingUsed(chunk, !last);
              return Some(More), 0;
            }
          }
        case TagKind =>
          var check := XerCheckTag(chunk, need);
          match check {
            case Known(Opening) =>
              if inside {
                return Some(Refused), 0;
              }
              inside := true;
            case Known(Closing) =>
              return Some(if inside then Closed else Refused), if inside then used else 0;
            case Known(Both) =>
              if inside {
                return Some(Refused), 0;
              }
              ExpandEnds([], true);
              var r := ConvertEntrefs(text, [], true);
              return Some(Closed), used;
            case Unknown(Both) =>
              var ok := HandleControlChars(text, chunk);
              if !ok {
                return Some(Refused), 0;
              }
              if !inside {
                return Some(Closed), used;
              }
            case _ =>
              return Some(Refused), 0;
          }
      }
    }
  }

  lemma NoTokenYet(need: seq<Octet>, st: Reading, s: seq<Octet>)
    requires From(st.place, s, 0).Wait?
    ensures Decode(need, st, s) == Run(More, 0, st)
  {
  }

  lemma NothingUsed(t: seq<Octet>, last: bool)
    ensures Expand(t, last).Expanded? && Expand(t, last).used == 0 ==> Expand(t, last).octets == []
  {
    NeverLonger(t, last);
  }
}
