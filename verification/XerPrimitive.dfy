/** Reading a primitive element from XML text: xer_decode_general (src/msg/xer_decoder.c:206-322) with the callbacks
    of xer_decode_primitive (src/msg/asn_codecs_prim.c:136-312), for INTEGER. */
module XerPrimitive {
  import opened Octets
  import opened Options
  import opened EnumMap
  import opened IntegerText
  import opened Strtol
  import opened IntegerXer
  import opened XerTokens

  // ---------------------------------------------------------------- what an element means, token by token

  /** The end of the element with the octets of its value, input that ends before that, or a failure. */
  datatype Outcome = Done(consumed: nat, octets: seq<Octet>) | More | Fail

  predicate AllBlank(c: seq<Octet>) {
    LeadEnd(c, 0) == |c|
  }

  function Stripped(c: seq<Octet>): seq<Octet> {
    c[LeadEnd(c, 0)..]
  }

  function After(n: nat, o: Outcome): Outcome {
    if o.Done? then Done(n + o.consumed, o.octets) else o
  }

  /** A token is taken and the decoder goes on, or it ends the element, asks for more input, or is refused. */
  datatype Taken = Goes(inside: bool, got: Option<seq<Octet>>) | Ends(octets: seq<Octet>) | Wants | Refused

  /** One token from inside or outside the element, with the value read so far; `last` if the input ends with it. */
  ghost function Take(sp: Specifics, need: seq<Octet>, inside: bool, got: Option<seq<Octet>>, kind: Kind,
                      chunk: seq<Octet>, last: bool): Taken {
    match kind
    case CommentKind => Goes(inside, got)
    case TextKind =>
      if !inside || (got.Some? && AllBlank(chunk)) then Goes(inside, got)
      else if got.Some? then Refused
      else if last then Wants
      else
        var m := Meaning(sp, Stripped(chunk));
        if m.Consumed? then Goes(true, Some(m.octets)) else if m.NotBody? then Goes(true, None) else Refused
    case TagKind =>
      match TagSpec(chunk, need)
      case Known(Opening) => if inside then Refused else Goes(true, got)
      case Known(Closing) => if inside && got.Some? then Ends(got.value) else Refused
      case Unknown(Both) =>
        var m := Meaning(sp, chunk);
        if got.Some? || !m.Consumed? then Refused
        else if inside then Goes(true, Some(m.octets))
        else Ends(m.octets)
      case _ => Refused
  }

  /** What is left of the input from inside or outside the element. */
  ghost function Decode(sp: Specifics, need: seq<Octet>, inside: bool, place: Place, s: seq<Octet>,
                        got: Option<seq<Octet>>): (o: Outcome)
    ensures o.Done? ==> 0 < o.consumed <= |s|
    decreases |s|
  {
    match From(place, s, 0)
    case Wait => More
    case Cut(kind, n, next) =>
      match Take(sp, need, inside, got, kind, s[..n], n == |s|)
      case Goes(inside', got') => After(n, Decode(sp, need, inside', next, s[n..], got'))
      case Ends(octets) => Done(n, octets)
      case Wants => More
      case Refused => Fail
  }

  lemma DecodeStep(sp: Specifics, need: seq<Octet>, inside: bool, place: Place, s: seq<Octet>, got: Option<seq<Octet>>)
    ensures var (o, token) := (Decode(sp, need, inside, place, s, got), From(place, s, 0));
            if token.Wait? then o == More
            else
              var (n, t) := (token.size, Take(sp, need, inside, got, token.kind, s[..token.size], token.size == |s|));
              && (t.Goes? ==> o == After(n, Decode(sp, need, t.inside, token.place, s[n..], t.got)))
              && (t.Ends? ==> o == Done(n, t.octets))
              && (t.Wants? ==> o == More)
              && (t.Refused? ==> o == Fail)
  {
  }

  /** No tag or text up to the closing tag names something that goes on with a zero octet after the name of an item. */
  ghost predicate AllReadable(sp: Specifics, need: seq<Octet>, place: Place, s: seq<Octet>)
    decreases |s|
  {
    match From(place, s, 0)
    case Wait => true
    case Cut(kind, n, next) =>
      var chunk := s[..n];
      if kind.TagKind? && TagSpec(chunk, need) == Known(Closing) then true
      else
        && (kind.TagKind? && TagSpec(chunk, need) == Unknown(Both) ==> Readable(sp, chunk))
        && (kind.TextKind? && StartsTag(chunk) ==> Readable(sp, Stripped(chunk)))
        && AllReadable(sp, need, next, s[n..])
  }

  // ---------------------------------------------------------------- the two callers of the parser

  /** struct xdp_arg_s, with the INTEGER that is filled. */
  class PrimitiveReader {
    var decodedSomething: bool
    var wantMore: bool
    var octets: seq<Octet>

    constructor ()
      ensures !decodedSomething && !wantMore
    {
      decodedSomething, wantMore, octets := false, false, [];
    }

    function Got(): Option<seq<Octet>>
      reads this
    {
      if decodedSomething then Some(octets) else None
    }

    /** xer_decode__unexpected_tag; its assertion holds of every tag. */
    method UnexpectedTag(sp: Specifics, chunk: seq<Octet>) returns (ok: bool)
      requires WellFormed(sp) && chunk != [] && chunk[0] == LESS && Readable(sp, chunk)
      modifies this`decodedSomething, this`octets
      ensures ok <==> !old(decodedSomething) && Meaning(sp, chunk).Consumed?
      ensures ok ==> Got() == Some(Meaning(sp, chunk).octets)
    {
      hide WellFormed, Meaning, Readable;
      if decodedSomething {
        return false;
      }
      var r := XerBodyDecode(sp, chunk);
      TagIsNoBlank(sp, chunk);
      match r
      case Consumed(o) => decodedSomething, octets, ok := true, o, true;
      case NotBody => assert false;
      case DecoderLimit => ok := false;
      case Broken => ok := false;
    }

    /** xer_decode__primitive_body: -1, or the characters used, which are then all of them. */
    method PrimitiveBody(sp: Specifics, chunk: seq<Octet>, haveMore: bool) returns (used: int)
      requires WellFormed(sp) && (StartsTag(chunk) ==> Readable(sp, Stripped(chunk)))
      modifies this
      ensures wantMore == (old(wantMore) || (!old(decodedSomething) && !haveMore))
      ensures old(decodedSomething) ==> used == (if AllBlank(chunk) then |chunk| else -1) && Got() == old(Got())
      ensures !old(decodedSomething) ==>
                var m := Meaning(sp, Stripped(chunk));
                && used == (if haveMore && (m.Consumed? || m.NotBody?) then |chunk| else -1)
                && (used >= 0 ==> Got() == if m.Consumed? then Some(m.octets) else None)
    {
      hide WellFormed, Meaning, Readable;
      var lead := LeadEnd(chunk, 0);
      if decodedSomething {
        return if lead == |chunk| then |chunk| else -1;
      }
      if !haveMore {
        wantMore := true;
        return -1;
      }
      var rest := chunk[lead..];
      StrippedStarts(sp, chunk);
      var r := XerBodyDecode(sp, rest);
      match r
      case Consumed(o) => decodedSomething, octets, used := true, o, lead + |rest|;
      case NotBody => octets, used := [], lead + |rest|;
      case DecoderLimit => used := -1;
      case Broken => used := -1;
    }
  }

  lemma TagIsNoBlank(sp: Specifics, c: seq<Octet>)
    requires c != [] && c[0] == LESS
    ensures Meaning(sp, c) != NotBody
  {
  }

  lemma NothingFromNothing(sp: Specifics)
    ensures Meaning(sp, []) == NotBody && !StartsTag([]) && Stripped([]) == []
  {
  }

  /** What is left of a text without the blanks before it has a tag in it exactly if the text has one. */
  lemma StrippedStarts(sp: Specifics, c: seq<Octet>)
    ensures StartsTag(Stripped(c)) <==> StartsTag(c)
  {
  }

  // ---------------------------------------------------------------- the decoder

  datatype Code = Ok | WantMore | Failed

  /** What a return code stands for, given what the callbacks have noted down. */
  ghost predicate Reports(code: Code, consumed: nat, got: Option<seq<Octet>>, wantMore: bool, o: Outcome) {
    match code
    case Ok => o == if got.Some? then Done(consumed, got.value) else Fail
    case WantMore => o == More
    case Failed => o == if wantMore then More else Fail
  }

  /** xer_decode_general with the two callbacks; the code, and what has been consumed with it. */
  method DecodeGeneral(arg: PrimitiveReader, sp: Specifics, need: seq<Octet>, buf: seq<Octet>)
      returns (code: Code, consumed: nat)
    requires WellFormed(sp) && 0 !in need && AllReadable(sp, need, InText, buf)
    requires !arg.decodedSomething && !arg.wantMore
    modifies arg
    ensures Reports(code, consumed, arg.Got(), arg.wantMore, Decode(sp, need, false, InText, buf, None))
  {
    hide WellFormed, Meaning, Readable, TagSpec, LeadEnd, From, Stripped, StartsTag;
    var place, inside := InText, false;
    consumed := 0;
    assert buf[0..] == buf;
    while true
      invariant consumed <= |buf| && !arg.wantMore && (!inside ==> !arg.decodedSomething)
      invariant AllReadable(sp, need, place, buf[consumed..])
      invariant Decode(sp, need, false, InText, buf, None)
                == After(consumed, Decode(sp, need, inside, place, buf[consumed..], arg.Got()))
      decreases |buf| - consumed
    {
      var size := |buf| - consumed;
      var token := NextToken(place, buf[consumed..]);
      if token.Wait? {
        return WantMore, consumed;
      }
      var chunk := buf[consumed..][..token.size];
      assert buf[consumed..][token.size..] == buf[consumed + token.size..];
      match token.kind {
        case CommentKind =>
        case TextKind =>
          if inside {
            var used := arg.PrimitiveBody(sp, chunk, token.size < size);
            if used == -1 {
              return Failed, consumed;
            }
          }
        case TagKind =>
          var check := XerCheckTag(chunk, need);
          match check {
            case Known(Opening) =>
              if inside {
                return Failed, consumed;
              }
              inside := true;
            case Known(Both) =>
              if !inside {
                NothingFromNothing(sp);
                var used := arg.PrimitiveBody(sp, [], true);
                return Code.Ok, consumed + token.size;
              }
              return Failed, consumed;
            case Known(Closing) =>
              return if inside then Code.Ok else Failed, if inside then consumed + token.size else consumed;
            case Unknown(Both) =>
              UnknownIsTag(chunk, need);
              var ok := arg.UnexpectedTag(sp, chunk);
              if !ok {
                return Failed, consumed;
              }
              if !inside {
                return Code.Ok, consumed + token.size;
              }
            case _ =>
              return Failed, consumed;
          }
      }
      consumed, place := consumed + token.size, token.place;
    }
  }

  /** xer_decode_primitive for INTEGER. */
  method DecodePrimitive(sp: Specifics, need: seq<Octet>, buf: seq<Octet>) returns (o: Outcome)
    requires WellFormed(sp) && 0 !in need && AllReadable(sp, need, InText, buf)
    ensures o == Decode(sp, need, false, InText, buf, None)
  {
    hide WellFormed, Meaning, AllReadable, Decode;
    var arg := new PrimitiveReader();
    var code, consumed := DecodeGeneral(arg, sp, need, buf);
    match code {
      case Ok =>
        if !arg.decodedSomething {
          // The parser is offered an empty text, which it does not take.
          NothingFromNothing(sp);
          var last := XerBodyDecode(sp, []);
          assert last == NotBody;
          return Fail;
        }
        return Done(consumed, arg.octets);
      case WantMore => return More;
      case Failed => return if arg.wantMore then More else Fail;
    }
  }

  // ---------------------------------------------------------------- which elements have a value

  datatype Token = Token(kind: Kind, chunk: seq<Octet>)

  predicate Matters(t: Token) {
    t.kind.TagKind? || (t.kind.TextKind? && !AllBlank(t.chunk))
  }

  function Mattering(ts: seq<Token>): seq<Token> {
    if ts == [] then [] else (if Matters(ts[0]) then [ts[0]] else []) + Mattering(ts[1..])
  }

  /** A text without the blanks before it; of tags only empty-element tags other than the element's own are read. */
  ghost function TokenMeaning(sp: Specifics, need: seq<Octet>, t: Token): Body {
    match t.kind
    case CommentKind => NotBody
    case TextKind => Meaning(sp, Stripped(t.chunk))
    case TagKind => if TagSpec(t.chunk, need) == Unknown(Both) then Meaning(sp, t.chunk) else Broken
  }

  /** An element has a value exactly if one token in it matters, and that one has a meaning. */
  ghost function Verdict(sp: Specifics, need: seq<Octet>, ts: seq<Token>): Option<seq<Octet>> {
    var m := Mattering(ts);
    if |m| == 1 && TokenMeaning(sp, need, m[0]).Consumed? then Some(TokenMeaning(sp, need, m[0]).octets) else None
  }

  /** The first n octets of s are the tokens `ts` and then a closing tag. */
  predicate CutsInto(need: seq<Octet>, place: Place, s: seq<Octet>, ts: seq<Token>, n: nat)
    decreases |ts|
  {
    match From(place, s, 0)
    case Wait => false
    case Cut(kind, size, next) =>
      if ts == [] then kind.TagKind? && TagSpec(s[..size], need) == Known(Closing) && n == size
      else
        && ts[0] == Token(kind, s[..size]) && size <= n
        && (kind.TagKind? ==> TagSpec(s[..size], need) != Known(Closing))
        && CutsInto(need, next, s[size..], ts[1..], n - size)
  }

  /** Inside an element that is closed, the decoder comes to the verdict on its tokens and consumes exactly them. */
  lemma {:induction false} InsideMeans(sp: Specifics, need: seq<Octet>, place: Place, s: seq<Octet>,
                                       got: Option<seq<Octet>>, ts: seq<Token>, n: nat)
    requires CutsInto(need, place, s, ts, n)
    ensures var value := if got.None? then Verdict(sp, need, ts) else if Mattering(ts) == [] then got else None;
            Decode(sp, need, true, place, s, got) == if value.Some? then Done(n, value.value) else Fail
    decreases |ts|
  {
    hide Decode, Take, Meaning, TagSpec, From, TokenMeaning, Matters;
    DecodeStep(sp, need, true, place, s, got);
    var next, size := From(place, s, 0).place, From(place, s, 0).size;
    if ts == [] {
      TakeClosing(sp, need, got, s[..size], size == |s|);
    } else {
      var m := TokenMeaning(sp, need, ts[0]);
      var rest := s[size..];
      ClosingComes(need, next, rest, ts[1..], n - size);
      TakeInside(sp, need, got, ts[0]);
      if !Matters(ts[0]) {
        InsideMeans(sp, need, next, rest, got, ts[1..], n - size);
      } else if got.None? && m.Consumed? {
        InsideMeans(sp, need, next, rest, Some(m.octets), ts[1..], n - size);
      }
    }
  }

  lemma TakeClosing(sp: Specifics, need: seq<Octet>, got: Option<seq<Octet>>, chunk: seq<Octet>, last: bool)
    requires TagSpec(chunk, need) == Known(Closing)
    ensures Take(sp, need, true, got, TagKind, chunk, last) == if got.Some? then Ends(got.value) else Refused
  {
    hide Meaning, TagSpec;
  }

  /** Inside, a token that matters is read as the value if there is none yet. */
  lemma TakeInside(sp: Specifics, need: seq<Octet>, got: Option<seq<Octet>>, t: Token)
    requires t.kind.TagKind? ==> TagSpec(t.chunk, need) != Known(Closing)
    ensures var m := TokenMeaning(sp, need, t);
            Take(sp, need, true, got, t.kind, t.chunk, false)
            == if !Matters(t) then Goes(true, got)
               else if got.None? && m.Consumed? then Goes(true, Some(m.octets))
               else Refused
  {
    hide Meaning, TagSpec, Stripped, AllBlank;
    if t.kind.TextKind? {
      BlankMeansNothing(sp, need, t);
    }
  }

  lemma ClosingComes(need: seq<Octet>, place: Place, s: seq<Octet>, ts: seq<Token>, n: nat)
    requires CutsInto(need, place, s, ts, n)
    ensures s != []
  {
  }

  /** A text is passed over exactly if it is blank. */
  lemma BlankMeansNothing(sp: Specifics, need: seq<Octet>, t: Token)
    requires t.kind.TextKind?
    ensures TokenMeaning(sp, need, t).NotBody? <==> !Matters(t)
  {
    hide StrtolLim, HexOctets;
  }

  // ---------------------------------------------------------------- input that grows

  lemma NothingIsMore(sp: Specifics, need: seq<Octet>, inside: bool, place: Place, got: Option<seq<Octet>>)
    ensures Decode(sp, need, inside, place, [], got) == More
  {
  }

  /** Whether the input ends with it matters for texts only; there, what is taken in full is taken or waited for when
      it is cut short, and what is refused is refused however it goes on. */
  lemma TakeShort(sp: Specifics, need: seq<Octet>, inside: bool, got: Option<seq<Octet>>, kind: Kind,
                  chunk: seq<Octet>, part: seq<Octet>, last: bool)
    requires part <= chunk
    ensures var (whole, short) := (Take(sp, need, inside, got, kind, chunk, last),
                                   Take(sp, need, inside, got, kind, part, true));
            && (kind.TagKind? && part == chunk ==> short == whole)
            && (kind.CommentKind? ==> short.Goes?)
            && (!kind.TagKind? ==>
                  && !whole.Ends? && !short.Ends?
                  && (whole.Goes? ==> short.Goes? || short.Wants?)
                  && (short.Refused? ==> whole.Refused?))
  {
    hide Meaning, TagSpec, Stripped, AllBlank;
    BlankBefore(part, chunk);
  }

  lemma BlankBefore(a: seq<Octet>, b: seq<Octet>)
    requires a <= b
    ensures AllBlank(b) ==> AllBlank(a)
  {
  }

  /** A decision is the same however the input goes on. */
  lemma {:induction false} DecisionKept(sp: Specifics, need: seq<Octet>, inside: bool, place: Place, s: seq<Octet>,
                                        t: seq<Octet>, got: Option<seq<Octet>>)
    ensures var o := Decode(sp, need, inside, place, s, got);
            !o.More? ==> Decode(sp, need, inside, place, s + t, got) == o
    decreases |s|
  {
    hide Decode, Take, From;
    DecodeStep(sp, need, inside, place, s, got);
    DecodeStep(sp, need, inside, place, s + t, got);
    var token := From(place, s, 0);
    if token.Cut? {
      TokenKept(place, s, t, 0);
      var (n, more) := (token.size, From(place, s + t, 0));
      var taken := Take(sp, need, inside, got, token.kind, s[..n], n == |s|);
      if n == |s| {
        assert s[n..] == [] && s[..n] == s && (s + t)[..n] == s;
        if taken.Goes? {
          NothingIsMore(sp, need, taken.inside, token.place, taken.got);
        }
        if more.Cut? {
          TakeShort(sp, need, inside, got, token.kind, (s + t)[..more.size], s[..n], more.size == |s + t|);
        } else {
          TakeShort(sp, need, inside, got, token.kind, s[..n], s[..n], true);
        }
      } else {
        assert (s + t)[..n] == s[..n] && (s + t)[n..] == s[n..] + t;
        if taken.Goes? {
          DecisionKept(sp, need, taken.inside, token.place, s[n..], t, taken.got);
        }
      }
    }
  }

  /** As long as an element that can be read is not complete, the decoder wants more. */
  lemma {:induction false} PartWantsMore(sp: Specifics, need: seq<Octet>, inside: bool, place: Place, s: seq<Octet>,
                                         k: nat, got: Option<seq<Octet>>)
    requires Decode(sp, need, inside, place, s, got).Done? && k < Decode(sp, need, inside, place, s, got).consumed
    ensures Decode(sp, need, inside, place, s[..k], got) == More
    decreases |s|
  {
    hide Decode, Take, From;
    DecodeStep(sp, need, inside, place, s, got);
    DecodeStep(sp, need, inside, place, s[..k], got);
    var token := From(place, s, 0);
    TokenCutShort(place, s, k, 0);
    var (n, less) := (token.size, From(place, s[..k], 0));
    var taken := Take(sp, need, inside, got, token.kind, s[..n], n == |s|);
    if k > n {
      assert s[..k][..n] == s[..n] && s[..k][n..] == s[n..][..k - n];
      if taken.Goes? {
        PartWantsMore(sp, need, taken.inside, token.place, s[n..], k - n, taken.got);
      }
    } else if less.Cut? {
      assert s[..k][..k] == s[..k] && s[..k][k..] == [];
      TakeShort(sp, need, inside, got, token.kind, s[..n], s[..k], n == |s|);
      var short := Take(sp, need, inside, got, token.kind, s[..k], true);
      if short.Goes? {
        NothingIsMore(sp, need, short.inside, less.place, short.got);
      }
    }
  }
}
