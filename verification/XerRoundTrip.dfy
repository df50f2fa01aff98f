/** Writing an INTEGER as an XML element (src/msg/xer_encoder.c:12-38, src/msg/INTEGER.c:536-553), and reading the
    element back, with blanks in it and whatever follows it. */
module XerRoundTrip {
  import opened Octets
  import opened Options
  import opened IntegerCodec
  import opened EnumMap
  import opened IntegerText
  import opened IntegerDump
  import opened XerTokens
  import opened XerPrimitive
  import opened Strtol

  /** xer_encode and INTEGER_encode_xer; the texts handed to the callback, one after the other. */
  method EncodeElement(sp: Specifics, need: seq<Octet>, st: Integer, canonical: bool) returns (r: Printed)
    requires WellFormed(sp) && st.Valid()
    ensures r.Printed? <==> st.buf != null && Rendered(sp, st.Contents()).Printed?
    ensures r.Printed? ==>
              r.text == XmlElement(need, Rendered(sp, st.Contents()).text) + if canonical then [] else [0x0a]
  {
    hide WellFormed, Rendered;
    var out := [LESS] + need + [GREATER];
    if st.buf == null {
      return Unprintable;
    }
    var value := Dump(sp, st);
    if value.Unprintable? {
      return Unprintable;
    }
    out := out + value.text;
    out := out + ([LESS, SLASH] + need + if canonical then [GREATER] else [GREATER, 0x0a]);
    assert out == XmlElement(need, value.text) + if canonical then [] else [0x0a];
    return Printed(out);
  }

  // ---------------------------------------------------------------- the tokens of an element

  lemma CutsClosing(need: seq<Octet>, more: seq<Octet>)
    requires XmlName(need)
    ensures CutsInto(need, InText, ClosingTag(need) + more, [], |ClosingTag(need)|)
  {
    hide From;
    var t := ClosingTag(need);
    NamesMakeTags(need);
    SimpleTagToken(t, more);
    OwnTags(need);
    assert (t + more)[..|t|] == t;
  }

  lemma CutsText(need: seq<Octet>, t: seq<Octet>, rest: seq<Octet>, ts: seq<Token>, n: nat)
    requires t != [] && LESS !in t && rest != [] && rest[0] == LESS && CutsInto(need, InText, rest, ts, n)
    ensures CutsInto(need, InText, t + rest, [Token(TextKind, t)] + ts, |t| + n)
  {
    hide From, TagSpec;
    TextToken(t, rest);
    assert (t + rest)[..|t|] == t && (t + rest)[|t|..] == rest && ([Token(TextKind, t)] + ts)[1..] == ts;
  }

  lemma CutsTag(need: seq<Octet>, t: seq<Octet>, rest: seq<Octet>, ts: seq<Token>, n: nat)
    requires SimpleTag(t) && TagSpec(t, need) != Known(Closing) && CutsInto(need, InText, rest, ts, n)
    ensures CutsInto(need, InText, t + rest, [Token(TagKind, t)] + ts, |t| + n)
  {
    hide From, TagSpec, SimpleTag;
    SimpleTagToken(t, rest);
    assert (t + rest)[..|t|] == t && (t + rest)[|t|..] == rest && ([Token(TagKind, t)] + ts)[1..] == ts;
  }

  /** Blanks are a token only if there are some. */
  function BlankToken(a: seq<Octet>): seq<Token> {
    if a == [] then [] else [Token(TextKind, a)]
  }

  lemma CutsBlank(need: seq<Octet>, a: seq<Octet>, rest: seq<Octet>, ts: seq<Token>, n: nat)
    requires AllBlank(a) && rest != [] && rest[0] == LESS && CutsInto(need, InText, rest, ts, n)
    ensures CutsInto(need, InText, a + rest, BlankToken(a) + ts, |a| + n)
  {
    hide CutsInto;
    if a == [] {
      assert a + rest == rest && BlankToken(a) + ts == ts;
    } else {
      CutsText(need, a, rest, ts, n);
    }
  }

  // ---------------------------------------------------------------- printed values between blanks

  /** A text that is no tag and has no blanks around it. */
  predicate IsBare(p: seq<Octet>) {
    p != [] && !IsSpace(p[0]) && !IsSpace(p[|p| - 1]) && LESS !in p
  }

  /** Names as ASN.1 and XML have them. */
  predicate XmlNames(sp: Specifics) {
    forall e <- sp.value2enum :: XmlName(e.name)
  }

  /** What is printed is the tag of an item, or bare. */
  lemma PrintedIsBare(sp: Specifics, s: seq<Octet>)
    requires WellFormed(sp) && Rendered(sp, s).Printed?
    ensures var p, v := Rendered(sp, s).text, Number(sp, s);
            IsBare(p) || (exists e <- sp.value2enum :: p == Tag(e))
  {
    hide WellFormed, ByValue, Decimal, ColonHex, Number;
    var v := Number(sp, s);
    if FitsNative(sp, v) {
      var t := SignedDecimal(v);
      assert DigitRun(t, AfterSign(t), |t|) && AfterSign(t) < |t|;
    } else {
      LongFormIsLong(sp, s);
      ColonHexIsHex(s);
    }
  }

  lemma TagOfItem(need: seq<Octet>, e: Entry)
    requires XmlName(e.name)
    ensures TagSpec(Tag(e), need) == if e.name == need then Known(Both) else Unknown(Both)
    ensures SimpleTag(Tag(e)) && Tag(e)[0] == LESS && !IsBare(Tag(e))
  {
    NamesMakeTags(e.name);
    EmptyTagIs(need, e.name);
    assert Tag(e) == EmptyTag(e.name) && Tag(e)[0] in Tag(e);
  }

  lemma LeadOver(a: seq<Octet>, t: seq<Octet>)
    requires AllBlank(a) && (t == [] || !IsSpace(t[0]))
    ensures LeadEnd(a + t, 0) == |a| && (a + t)[|a|..] == t
  {
    LeadIs(a + t, 0, |a|) by {
      assert forall k | 0 <= k < |a| :: (a + t)[k] == a[k];
    }
  }

  lemma {:induction false} LeadIs(s: seq<Octet>, i: nat, w: nat)
    requires i <= w <= |s| && (forall k | i <= k < w :: IsSpace(s[k])) && (w < |s| ==> !IsSpace(s[w]))
    ensures LeadEnd(s, i) == w
    decreases w - i
  {
    if i < w {
      LeadIs(s, i + 1, w);
    }
  }

  lemma TrailOver(p: seq<Octet>, b: seq<Octet>)
    requires AllBlank(b) && p != [] && !IsSpace(p[|p| - 1])
    ensures TrailEnd(p + b, |p + b|) == |p|
  {
    assert forall k | 0 <= k < |p + b| :: (p + b)[k] == if k < |p| then p[k] else b[k - |p|];
  }

  /** Blanks around a text do not change what it means. */
  lemma BlanksAround(sp: Specifics, need: seq<Octet>, a: seq<Octet>, p: seq<Octet>, b: seq<Octet>)
    requires AllBlank(a) && AllBlank(b) && IsBare(p)
    ensures var t := Token(TextKind, a + p + b);
            TokenMeaning(sp, need, t) == Meaning(sp, p) && Matters(t) && !StartsTag(t.chunk)
  {
    hide StrtolLim, LeadEnd, TrailEnd;
    var t := p + b;
    assert p[0] in p && a + p + b == a + t;
    LeadOver(a, t);
    assert t[0] == p[0];
    NoBlanksAround(p);
    TrailOver(p, b);
    assert t[0..|p|] == p[0..|p|];
    SameTexts(p, t);
  }

  lemma SameTexts(p: seq<Octet>, t: seq<Octet>)
    requires p != [] && p <= t
    ensures DecimalText(t, 0, |p|) == DecimalText(p, 0, |p|)
    ensures HexText(t, 0, |p|) == HexText(p, 0, |p|)
    ensures HexText(p, 0, |p|) ==> HexOctets(t, 0, |p|) == HexOctets(p, 0, |p|)
  {
  }

  /** A tag is cut out of the blanks around it, and a text is not. */
  function TokensOf(a: seq<Octet>, p: seq<Octet>, b: seq<Octet>): seq<Token> {
    if p != [] && p[0] == LESS then BlankToken(a) + ([Token(TagKind, p)] + BlankToken(b))
    else [Token(TextKind, a + p + b)]
  }

  lemma NoTagInBlanks(a: seq<Octet>)
    requires AllBlank(a)
    ensures LESS !in a && !StartsTag(a)
  {
  }

  lemma BodyCuts(need: seq<Octet>, a: seq<Octet>, p: seq<Octet>, b: seq<Octet>, rest: seq<Octet>, ts: seq<Token>,
                 n: nat)
    requires AllBlank(a) && AllBlank(b)
    requires IsBare(p) || (SimpleTag(p) && TagSpec(p, need) != Known(Closing))
    requires rest != [] && rest[0] == LESS && CutsInto(need, InText, rest, ts, n)
    ensures CutsInto(need, InText, a + p + b + rest, TokensOf(a, p, b) + ts, |a + p + b| + n)
  {
    hide CutsInto, TagSpec, AllBlank, SimpleTag;
    if IsBare(p) {
      NoTagInBlanks(a);
      NoTagInBlanks(b);
      assert p[0] in p;
      CutsText(need, a + p + b, rest, ts, n);
    } else {
      TagBodyCuts(need, a, p, b, rest, ts, n);
      TagBegins(p);
    }
  }

  lemma TagBodyCuts(need: seq<Octet>, a: seq<Octet>, p: seq<Octet>, b: seq<Octet>, rest: seq<Octet>, ts: seq<Token>,
                    n: nat)
    requires AllBlank(a) && AllBlank(b) && SimpleTag(p) && TagSpec(p, need) != Known(Closing)
    requires rest != [] && rest[0] == LESS && CutsInto(need, InText, rest, ts, n)
    ensures CutsInto(need, InText, a + p + b + rest, BlankToken(a) + ([Token(TagKind, p)] + BlankToken(b)) + ts,
                     |a + p + b| + n)
  {
    hide CutsInto, TagSpec, AllBlank, SimpleTag, BlankToken;
    var inner := [Token(TagKind, p)] + (BlankToken(b) + ts);
    CutsBlank(need, b, rest, ts, n);
    CutsTag(need, p, b + rest, BlankToken(b) + ts, |b| + n);
    TagBegins(p);
    CutsBlank(need, a, p + (b + rest), inner, |p| + (|b| + n));
    assert a + (p + (b + rest)) == a + p + b + rest;
    assert BlankToken(a) + inner == BlankToken(a) + ([Token(TagKind, p)] + BlankToken(b)) + ts;
  }

  // ---------------------------------------------------------------- comments

  predicate AllComments(cs: seq<seq<Octet>>) {
    forall c <- cs :: IsComment(c)
  }

  function CommentTokens(cs: seq<seq<Octet>>): seq<Token> {
    if cs == [] then [] else [Token(CommentKind, cs[0])] + CommentTokens(cs[1..])
  }

  lemma CutsComment(need: seq<Octet>, c: seq<Octet>, rest: seq<Octet>, ts: seq<Token>, n: nat)
    requires IsComment(c) && CutsInto(need, InText, rest, ts, n)
    ensures CutsInto(need, InText, c + rest, [Token(CommentKind, c)] + ts, |c| + n)
  {
    hide From, IsComment, TagSpec;
    CommentToken(c, rest);
    assert (c + rest)[..|c|] == c && (c + rest)[|c|..] == rest && ([Token(CommentKind, c)] + ts)[1..] == ts;
  }

  lemma {:induction false} CutsComments(need: seq<Octet>, cs: seq<seq<Octet>>, rest: seq<Octet>, ts: seq<Token>, n: nat)
    requires AllComments(cs) && CutsInto(need, InText, rest, ts, n)
    ensures CutsInto(need, InText, Joined(cs) + rest, CommentTokens(cs) + ts, |Joined(cs)| + n)
    decreases |cs|
  {
    hide CutsInto, IsComment;
    if cs == [] {
      assert Joined(cs) + rest == rest && CommentTokens(cs) + ts == ts;
    } else {
      var (c, tail, us) := (cs[0], Joined(cs[1..]) + rest, CommentTokens(cs[1..]) + ts);
      assert forall d <- cs[1..] :: d in cs;
      CutsComments(need, cs[1..], rest, ts, n);
      CutsComment(need, c, tail, us, |Joined(cs[1..])| + n);
      assert Joined(cs) + rest == c + tail && CommentTokens(cs) + ts == [Token(CommentKind, c)] + us;
    }
  }

  lemma {:induction false} CommentsPass(cs: seq<seq<Octet>>)
    ensures Mattering(CommentTokens(cs)) == [] && forall t <- CommentTokens(cs) :: t.kind.CommentKind?
    decreases |cs|
  {
    if cs != [] {
      CommentsPass(cs[1..]);
      var all := CommentTokens(cs);
      assert all[0] == Token(CommentKind, cs[0]) && all[1..] == CommentTokens(cs[1..]);
    }
  }

  lemma {:induction false} MatteringJoins(ts: seq<Token>, us: seq<Token>)
    ensures Mattering(ts + us) == Mattering(ts) + Mattering(us)
    decreases |ts|
  {
    hide Matters;
    if ts == [] {
      assert ts + us == us;
    } else {
      assert (ts + us)[1..] == ts[1..] + us && (ts + us)[0] == ts[0];
      MatteringJoins(ts[1..], us);
      var first := if Matters(ts[0]) then [ts[0]] else [];
      assert first + (Mattering(ts[1..]) + Mattering(us)) == first + Mattering(ts[1..]) + Mattering(us);
    }
  }

  /** Comments before and after do not matter to the verdict. */
  lemma VerdictWithComments(sp: Specifics, need: seq<Octet>, before: seq<seq<Octet>>, ts: seq<Token>,
                            after: seq<seq<Octet>>)
    ensures Verdict(sp, need, CommentTokens(before) + (ts + CommentTokens(after))) == Verdict(sp, need, ts)
  {
    hide TokenMeaning;
    hide Mattering;
    CommentsPass(before);
    CommentsPass(after);
    MatteringJoins(CommentTokens(before), ts + CommentTokens(after));
    MatteringJoins(ts, CommentTokens(after));
    assert [] + (Mattering(ts) + []) == Mattering(ts);
  }

  lemma BodyMatters(a: seq<Octet>, p: seq<Octet>, b: seq<Octet>)
    requires AllBlank(a) && AllBlank(b)
    requires p != [] && (p[0] == LESS || Matters(Token(TextKind, a + p + b)))
    ensures Mattering(TokensOf(a, p, b)) == [if p[0] == LESS then Token(TagKind, p) else Token(TextKind, a + p + b)]
  {
    hide AllBlank;
    var t := Token(TagKind, p);
    var after := [t] + BlankToken(b);
    assert after[1..] == BlankToken(b);
    assert Mattering(BlankToken(b)) == [] && Mattering(after) == [t];
    assert a != [] ==> (BlankToken(a) + after)[1..] == after;
    assert a == [] ==> BlankToken(a) + after == after;
  }

  /** Printed text between any blanks comes to the meaning of that text, unless it is the element's own tag. */
  lemma VerdictOnPrinted(sp: Specifics, need: seq<Octet>, p: seq<Octet>, a: seq<Octet>, b: seq<Octet>)
    requires XmlName(need) && AllBlank(a) && AllBlank(b)
    requires IsBare(p) || (exists e <- sp.value2enum :: p == Tag(e) && XmlName(e.name))
    ensures var m := Meaning(sp, p);
            Verdict(sp, need, TokensOf(a, p, b))
            == if m.Consumed? && !IsOwnTag(need, p) then Some(m.octets) else None
  {
    hide Meaning, TagSpec, AllBlank, XmlName, Mattering;
    if IsBare(p) {
      assert p[0] in p && p[0] != LESS;
      BlanksAround(sp, need, a, p, b);
    } else {
      var e :| e in sp.value2enum && p == Tag(e) && XmlName(e.name);
      TagOfItem(need, e);
      OwnTagIs(need, e);
    }
    BodyMatters(a, p, b);
  }

  predicate IsOwnTag(need: seq<Octet>, p: seq<Octet>) {
    p == EmptyTag(need)
  }

  lemma OwnTagIs(need: seq<Octet>, e: Entry)
    ensures IsOwnTag(need, Tag(e)) <==> e.name == need
  {
    assert Tag(e)[1..|Tag(e)| - 2] == e.name;
    assert IsOwnTag(need, Tag(e)) ==> Tag(e)[1..|Tag(e)| - 2] == need;
  }

  lemma DecodeOpening(sp: Specifics, need: seq<Octet>, rest: seq<Octet>)
    requires XmlName(need)
    ensures var n := |OpeningTag(need)|;
            Decode(sp, need, false, InText, OpeningTag(need) + rest, None)
            == After(n, Decode(sp, need, true, InText, rest, None))
    ensures AllReadable(sp, need, InText, OpeningTag(need) + rest) <==> AllReadable(sp, need, InText, rest)
  {
    hide From, TagSpec, Meaning;
    var t := OpeningTag(need);
    NamesMakeTags(need);
    SimpleTagToken(t, rest);
    OwnTags(need);
    assert (t + rest)[..|t|] == t && (t + rest)[|t|..] == rest;
  }

  predicate TokenReadable(sp: Specifics, need: seq<Octet>, t: Token) {
    && (t.kind.TagKind? && TagSpec(t.chunk, need) == Unknown(Both) ==> t.chunk != [] && Readable(sp, t.chunk))
    && (t.kind.TextKind? ==> !StartsTag(t.chunk))
  }

  lemma {:induction false} ReadableTokens(sp: Specifics, need: seq<Octet>, place: Place, s: seq<Octet>, ts: seq<Token>,
                                          n: nat)
    requires CutsInto(need, place, s, ts, n) && forall t <- ts :: TokenReadable(sp, need, t)
    ensures AllReadable(sp, need, place, s)
    decreases |ts|
  {
    hide From, TagSpec, Readable, StartsTag;
    if ts != [] {
      assert TokenReadable(sp, need, ts[0]);
      var (next, size) := (From(place, s, 0).place, From(place, s, 0).size);
      ReadableTokens(sp, need, next, s[size..], ts[1..], n - size);
    }
  }

  lemma PrintedTokensReadable(sp: Specifics, need: seq<Octet>, p: seq<Octet>, a: seq<Octet>, b: seq<Octet>)
    requires AllBlank(a) && AllBlank(b) && p != [] && Readable(sp, p)
    requires IsBare(p) || p[0] == LESS
    ensures forall t <- TokensOf(a, p, b) :: TokenReadable(sp, need, t)
  {
    hide Readable, TagSpec, AllBlank;
    NoTagInBlanks(a);
    NoTagInBlanks(b);
    if IsBare(p) {
      assert p[0] in p;
      BlanksAround(sp, need, a, p, b);
    }
  }

  // ---------------------------------------------------------------- the round trip

  /** Whatever is printed for a buffer of any length, with any blanks around it in the element, any comments before and
      after, and whatever follows the element, is read as the same number, and exactly the element is consumed. Refused
      are only an unsigned number above LONG_MAX, and an item that has the name of the element. */
  lemma ElementReadsBack(sp: Specifics, need: seq<Octet>, s: seq<Octet>, before: seq<seq<Octet>>, a: seq<Octet>,
                         b: seq<Octet>, after: seq<seq<Octet>>, more: seq<Octet>)
    requires WellFormed(sp) && XmlNames(sp) && XmlName(need) && Rendered(sp, s).Printed?
    requires AllBlank(a) && AllBlank(b) && AllComments(before) && AllComments(after)
    ensures var p, v := Rendered(sp, s).text, Number(sp, s);
            var text := XmlElement(need, Joined(before) + (a + p + b) + Joined(after));
            var o := Decode(sp, need, false, InText, text + more, None);
            && AllReadable(sp, need, InText, text + more)
            && (o.Done? <==> !(sp.unsigned && LONG_MAX < v <= ULONG_MAX) && !IsOwnTag(need, p))
            && (o.Done? ==> o.consumed == |text| && Number(sp, o.octets) == v)
            && (!o.Done? ==> o == Fail)
  {
    hide WellFormed, Meaning, Number, Rendered, AllReadable, Decode, AllBlank, XmlName, CutsInto, TagSpec, Readable,
         Verdict, IsOwnTag, AllComments, TokensOf;
    var (p, end) := (Rendered(sp, s).text, ClosingTag(need) + more);
    SafeNames(sp);
    PrintedReadsBack(sp, s);
    PrintedIsBare(sp, s);
    PrintedIsReadable(sp, s);
    if !IsBare(p) {
      var e :| e in sp.value2enum && p == Tag(e);
      TagOfItem(need, e);
    }
    InnerReads(sp, need, p, before, a, b, after, more);
    var inner := Joined(before) + (a + p + b + (Joined(after) + end));
    DecodeOpening(sp, need, inner);
    assert XmlElement(need, Joined(before) + (a + p + b) + Joined(after)) + more == OpeningTag(need) + inner;
  }

  lemma InnerReads(sp: Specifics, need: seq<Octet>, p: seq<Octet>, before: seq<seq<Octet>>, a: seq<Octet>,
                   b: seq<Octet>, after: seq<seq<Octet>>, more: seq<Octet>)
    requires XmlName(need) && AllBlank(a) && AllBlank(b) && AllComments(before) && AllComments(after)
    requires IsBare(p) || (exists e <- sp.value2enum :: p == Tag(e) && XmlName(e.name))
    requires p != [] && Readable(sp, p)
    ensures var inner := Joined(before) + (a + p + b + (Joined(after) + (ClosingTag(need) + more)));
            var (n, m) := (|inner| - |more|, Meaning(sp, p));
            && AllReadable(sp, need, InText, inner)
            && Decode(sp, need, true, InText, inner, None)
               == if m.Consumed? && !IsOwnTag(need, p) then Done(n, m.octets) else Fail
  {
    hide Meaning, AllReadable, Decode, AllBlank, XmlName, CutsInto, TagSpec, Readable, Verdict, IsOwnTag, AllComments,
         TokensOf, SimpleTag, TokenReadable, IsBare;
    if !IsBare(p) {
      var e :| e in sp.value2enum && p == Tag(e) && XmlName(e.name);
      TagOfItem(need, e);
    }
    var inner := Joined(before) + (a + p + b + (Joined(after) + (ClosingTag(need) + more)));
    var ts := CommentTokens(before) + (TokensOf(a, p, b) + CommentTokens(after));
    var n := |Joined(before)| + (|a + p + b| + (|Joined(after)| + |ClosingTag(need)|));
    VerdictOnPrinted(sp, need, p, a, b);
    ElementCuts(need, before, a, p, b, after, more);
    VerdictWithComments(sp, need, before, TokensOf(a, p, b), after);
    InsideMeans(sp, need, InText, inner, None, ts, n);
    PrintedTokensReadable(sp, need, p, a, b);
    CommentsReadable(sp, need, before);
    CommentsReadable(sp, need, after);
    ReadableTokens(sp, need, InText, inner, ts, n);
  }

  lemma CommentsReadable(sp: Specifics, need: seq<Octet>, cs: seq<seq<Octet>>)
    ensures forall t <- CommentTokens(cs) :: TokenReadable(sp, need, t)
  {
    CommentsPass(cs);
  }

  lemma ElementCuts(need: seq<Octet>, before: seq<seq<Octet>>, a: seq<Octet>, p: seq<Octet>, b: seq<Octet>,
                    after: seq<seq<Octet>>, more: seq<Octet>)
    requires XmlName(need) && AllBlank(a) && AllBlank(b) && AllComments(before) && AllComments(after)
    requires IsBare(p) || (SimpleTag(p) && TagSpec(p, need) != Known(Closing))
    ensures CutsInto(need, InText, Joined(before) + (a + p + b + (Joined(after) + (ClosingTag(need) + more))),
                     CommentTokens(before) + (TokensOf(a, p, b) + CommentTokens(after)),
                     |Joined(before)| + (|a + p + b| + (|Joined(after)| + |ClosingTag(need)|)))
  {
    hide CutsInto, TagSpec, AllBlank, XmlName, SimpleTag, AllComments, TokensOf;
    var end := ClosingTag(need) + more;
    CutsClosing(need, more);
    CutsComments(need, after, end, [], |ClosingTag(need)|);
    assert CommentTokens(after) + [] == CommentTokens(after);
    CommentsBegin(after, end);
    BodyCuts(need, a, p, b, Joined(after) + end, CommentTokens(after), |Joined(after)| + |ClosingTag(need)|);
    CutsComments(need, before, a + p + b + (Joined(after) + end), TokensOf(a, p, b) + CommentTokens(after),
                 |a + p + b| + (|Joined(after)| + |ClosingTag(need)|));
  }

  lemma CommentsBegin(cs: seq<seq<Octet>>, rest: seq<Octet>)
    requires AllComments(cs) && rest != [] && rest[0] == LESS
    ensures Joined(cs) + rest != [] && (Joined(cs) + rest)[0] == LESS
  {
    if cs != [] {
      assert cs[0] in cs && cs[0][0] == LESS;
      assert Joined(cs)[0] == cs[0][0];
    }
  }

  /** Attributes of the opening tag are passed over, whatever is in them. */
  lemma AttributesPass(sp: Specifics, need: seq<Octet>, key: seq<Octet>, value: seq<Octet>, rest: seq<Octet>)
    requires XmlName(need) && XmlName(key) && QUOTE !in value
    ensures var (t, o) := (AttributeTag(need, key, value), Decode(sp, need, true, InText, rest, None));
            && Decode(sp, need, false, InText, t + rest, None) == After(|t|, o)
            && Decode(sp, need, false, InText, OpeningTag(need) + rest, None) == After(|OpeningTag(need)|, o)
  {
    hide From, TagSpec, Meaning;
    var t := AttributeTag(need, key, value);
    AttributeToken(need, key, value, rest);
    DecodeOpening(sp, need, rest);
    assert (t + rest)[..|t|] == t && (t + rest)[|t|..] == rest;
  }

  lemma SafeNames(sp: Specifics)
    requires XmlNames(sp)
    ensures forall e <- sp.value2enum :: TagSafe(e.name)
  {
  }

  /** Write an element and read it with the two methods of the codec. */
  method EncodeThenDecode(sp: Specifics, need: seq<Octet>, st: Integer, canonical: bool)
      returns (printed: Printed, read: Outcome)
    requires WellFormed(sp) && XmlNames(sp) && XmlName(need) && st.Valid() && st.buf != null
    ensures printed.Printed? ==>
              var (p, v) := (Rendered(sp, st.Contents()), Number(sp, st.Contents()));
              && p.Printed?
              && (read.Done? <==> !(sp.unsigned && LONG_MAX < v <= ULONG_MAX) && !IsOwnTag(need, p.text))
              && (read.Done? ==> read.consumed == |XmlElement(need, p.text)| && Number(sp, read.octets) == v)
  {
    hide WellFormed, Meaning, Number, Rendered, AllReadable, Decode, XmlName, IsOwnTag;
    printed := EncodeElement(sp, need, st, canonical);
    if printed.Unprintable? {
      return printed, Fail;
    }
    var p := Rendered(sp, st.Contents()).text;
    ElementReadsBack(sp, need, st.Contents(), [], [], [], [], if canonical then [] else [0x0a]);
    assert Joined([]) + ([] + p + []) + Joined([]) == p;
    assert 0 !in need by { NoZeroInName(need); }
    read := DecodePrimitive(sp, need, printed.text);
  }

  lemma NoZeroInName(name: seq<Octet>)
    requires XmlName(name)
    ensures 0 !in name
  {
  }

  // ---------------------------------------------------------------- outside the element

  /** Before its opening tag, text and comments are passed over, and a '<' that begins no tag with what follows it: so
      are blanks, an XML declaration, and anything else that is no tag. */
  lemma LeadPasses(sp: Specifics, need: seq<Octet>, x: seq<Octet>, c: Octet, comment: seq<Octet>, rest: seq<Octet>)
    requires rest != [] && rest[0] == LESS && LESS !in x && IsComment(comment)
    requires !IsAlpha(c) && c != SLASH && c != EXCLAM
    ensures var o := Decode(sp, need, false, InText, rest, None);
            && Decode(sp, need, false, InText, x + rest, None) == After(|x|, o)
            && Decode(sp, need, false, InText, comment + rest, None) == After(|comment|, o)
            && Decode(sp, need, false, InText, [LESS, c] + rest, None) == After(2, o)
            && Decode(sp, need, false, InText, [LESS, c] + (x + rest), None) == After(2 + |x|, o)
  {
    hide From, Meaning, TagSpec, Decode, IsComment;
    TextPasses(sp, need, x, rest);
    LonePasses(sp, need, c, rest);
    LonePasses(sp, need, c, x + rest);
    NotEmptyComment(comment);
    CommentToken(comment, rest);
    DecodeStep(sp, need, false, InText, comment + rest, None);
    assert (comment + rest)[..|comment|] == comment && (comment + rest)[|comment|..] == rest;
  }

  lemma NotEmptyComment(c: seq<Octet>)
    requires IsComment(c)
    ensures c != []
  {
  }

  lemma TextPasses(sp: Specifics, need: seq<Octet>, x: seq<Octet>, rest: seq<Octet>)
    requires rest != [] && rest[0] == LESS && LESS !in x
    ensures Decode(sp, need, false, InText, x + rest, None)
            == After(|x|, Decode(sp, need, false, InText, rest, None))
  {
    hide From, Meaning, TagSpec, Decode;
    if x == [] {
      assert x + rest == rest;
    } else {
      TextToken(x, rest);
      DecodeStep(sp, need, false, InText, x + rest, None);
      assert (x + rest)[..|x|] == x && (x + rest)[|x|..] == rest;
    }
  }

  lemma LonePasses(sp: Specifics, need: seq<Octet>, c: Octet, rest: seq<Octet>)
    requires !IsAlpha(c) && c != SLASH && c != EXCLAM
    ensures Decode(sp, need, false, InText, [LESS, c] + rest, None)
            == After(2, Decode(sp, need, false, InText, rest, None))
  {
    hide Meaning, TagSpec, Decode;
    var s := [LESS, c] + rest;
    FirstLess(s);
    assert From(TagStart, s, 1) == Cut(TextKind, 2, InText);
    DecodeStep(sp, need, false, InText, s, None);
    assert s[2..] == rest;
  }

  /** The tag of an item is taken for the whole of its element, if it stands where the opening tag should; the empty
      form of the element itself has no value. */
  lemma BareTag(sp: Specifics, need: seq<Octet>, v: Long, rest: seq<Octet>)
    requires WellFormed(sp) && ByValue(sp, v).Hit? && XmlName(ByValue(sp, v).entry.name) && XmlName(need)
    ensures var t := Tag(ByValue(sp, v).entry);
            Decode(sp, need, false, InText, t + rest, None)
            == if IsOwnTag(need, t) then Fail else Done(|t|, MinimalOctets(v))
    ensures Decode(sp, need, false, InText, EmptyTag(need) + rest, None) == Fail
  {
    hide From, TagSpec, Decode, WellFormed, Meaning, ByValue, MinimalOctets;
    var e := ByValue(sp, v).entry;
    TagMeans(sp, v);
    TagOfItem(need, e);
    OwnTagIs(need, e);
    TagAlone(sp, need, Tag(e), rest);
    NamesMakeTags(need);
    EmptyTagIs(need, need);
    TagAlone(sp, need, EmptyTag(need), rest);
  }

  lemma TagAlone(sp: Specifics, need: seq<Octet>, t: seq<Octet>, rest: seq<Octet>)
    requires SimpleTag(t)
    ensures TagSpec(t, need) == Known(Both) ==> Decode(sp, need, false, InText, t + rest, None) == Fail
    ensures TagSpec(t, need) == Unknown(Both) ==>
              var m := Meaning(sp, t);
              Decode(sp, need, false, InText, t + rest, None) == if m.Consumed? then Done(|t|, m.octets) else Fail
  {
    hide From, TagSpec, Decode, Meaning, SimpleTag;
    SimpleTagToken(t, rest);
    DecodeStep(sp, need, false, InText, t + rest, None);
    assert (t + rest)[..|t|] == t;
  }
}
