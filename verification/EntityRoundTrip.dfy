/** Character strings written as XML elements and read back, in any pieces (src/msg/xer_encoder.c:12-38,
    src/msg/OCTET_STRING.c:713-778, 959-1158). */
module EntityRoundTrip {
  import opened Octets
  import opened EnumMap
  import opened EntityCodec
  import opened EntityDecoder
  import opened EntityText
  import opened XerTokens
  import opened XerStrings
  import opened XerPieces

  /** The characters at the front that are not spelled as tags. */
  function PlainPrefix(s: seq<Octet>): (n: nat)
    ensures n <= |s| && (forall k | 0 <= k < n :: !IsTagged(s[k])) && (n < |s| ==> IsTagged(s[n]))
  {
    if s == [] || IsTagged(s[0]) then 0 else 1 + PlainPrefix(s[1..])
  }

  lemma OnePlain(c: Octet)
    requires !IsTagged(c)
    ensures LESS !in OneEscaped(c)
  {
  }

  lemma {:induction false} PlainHasNoLess(u: seq<Octet>)
    requires forall k | 0 <= k < |u| :: !IsTagged(u[k])
    ensures LESS !in Escaped(u)
    decreases |u|
  {
    hide OneEscaped, IsTagged;
    if u != [] {
      OnePlain(u[0]);
      PlainHasNoLess(u[1..]);
    }
  }

  lemma OneReference(c: Octet, more: seq<Octet>)
    requires c == AMP || c == LESS || c == GREATER
    ensures var t := OneEscaped(c) + more;
            t[0] == AMP && Entity(t) == Emit([c], |OneEscaped(c)|)
  {
    var t := OneEscaped(c) + more;
    var n := if |t| > 5 then 5 else |t|;
    var k := |OneEscaped(c)| - 1;
    assert t[1] != HASH && t[k] == SEMICOLON && forall j | 0 <= j < k :: t[j] != SEMICOLON;
    assert SemicolonWithin(t, 0, n) == k;
  }

  /** The entity decoder undoes the escaping of characters that are not spelled as tags. */
  lemma {:induction false} PlainReadsBack(u: seq<Octet>, last: bool)
    requires forall k | 0 <= k < |u| :: !IsTagged(u[k])
    ensures Expand(Escaped(u), last) == Expanded(u, |Escaped(u)|)
    decreases |u|
  {
    hide Expand, Entity, OneEscaped, IsTagged;
    var t := Escaped(u);
    if u == [] {
      ExpandEnds(t, last);
    } else {
      var c, rest := u[0], Escaped(u[1..]);
      PlainReadsBack(u[1..], last);
      ExpandStep(t, last);
      if c == AMP || c == LESS || c == GREATER {
        OneReference(c, rest);
        assert t[|OneEscaped(c)|..] == rest;
      } else {
        StandsForItself(c);
        assert t[1..] == rest;
      }
    }
  }

  lemma StandsForItself(c: Octet)
    requires !IsTagged(c) && c != AMP && c != LESS && c != GREATER
    ensures OneEscaped(c) == [c]
  {
  }

  // ---------------------------------------------------------------- the round trip

  lemma NothingLeft(u: seq<Octet>)
    ensures Escaped(u) == [] <==> u == []
  {
  }

  /** An item of the escape table that has the name of the element. */
  predicate IsNamesake(need: seq<Octet>, c: Octet) {
    IsTagged(c) && NameOf(c) == need
  }

  lemma TagOfControl(need: seq<Octet>, c: Octet)
    requires IsTagged(c)
    ensures var tag := OneEscaped(c);
            && SimpleTag(tag) && ControlOf(tag) == c && tag[0] == LESS
            && TagSpec(tag, need) == if IsNamesake(need, c) then Known(Both) else Unknown(Both)
  {
    NamesAreNames(c);
    NamesMakeTags(NameOf(c));
    EmptyTagIs(need, NameOf(c));
    hide NameOf;
    var tag := OneEscaped(c);
    assert tag == EscapeOf(c) == EmptyTag(NameOf(c));
    if ControlOf(tag) != -1 {
      EscapesDiffer(c, ControlOf(tag));
    }
  }

  lemma NamesAreNames(c: Octet)
    requires IsTagged(c)
    ensures XmlName(NameOf(c))
  {
  }

  /** The state and the input after the text of the characters before the next tag. */
  lemma RunReadsBack(need: seq<Octet>, st: Reading, u: seq<Octet>, rest: seq<Octet>)
    requires st.inside && st.place.InText? && u != [] && (forall k | 0 <= k < |u| :: !IsTagged(u[k]))
    requires rest != [] && rest[0] == LESS
    ensures Decode(need, st, Escaped(u) + rest)
            == Past(|Escaped(u)|, Decode(need, st.(text := st.text + u), rest))
  {
    hide Decode, From, Expand;
    var t := Escaped(u);
    NothingLeft(u);
    PlainHasNoLess(u);
    PlainReadsBack(u, true);
    TextToken(t, rest);
    DecodeStep(need, st, t + rest);
    assert (t + rest)[..|t|] == t && (t + rest)[|t|..] == rest && st.(place := InText) == st;
  }

  lemma TagReadsBack(need: seq<Octet>, st: Reading, c: Octet, rest: seq<Octet>)
    requires st.inside && st.place.InText? && IsTagged(c)
    ensures var r := Decode(need, st, OneEscaped(c) + rest);
            if IsNamesake(need, c) then r.code.Refused?
            else r == Past(|OneEscaped(c)|, Decode(need, st.(text := st.text + [c]), rest))
  {
    hide Decode, From, TagSpec, SimpleTag, OneEscaped, ControlOf, IsNamesake;
    var tag := OneEscaped(c);
    TagOfControl(need, c);
    SimpleTagToken(tag, rest);
    DecodeStep(need, st, tag + rest);
    assert (tag + rest)[..|tag|] == tag && (tag + rest)[|tag|..] == rest && st.(place := InText) == st;
  }

  lemma ClosingEnds(need: seq<Octet>, st: Reading, more: seq<Octet>)
    requires st.inside && st.place.InText? && XmlName(need)
    ensures Decode(need, st, ClosingTag(need) + more) == Run(Closed, |ClosingTag(need)|, st)
  {
    hide Decode, From, TagSpec, SimpleTag, XmlName;
    var tag := ClosingTag(need);
    NamesMakeTags(need);
    OwnTags(need);
    SimpleTagToken(tag, more);
    DecodeStep(need, st, tag + more);
    assert (tag + more)[..|tag|] == tag && st.(place := InText) == st;
  }

  /** The text of any string, up to the next tag or comment. */
  lemma {:induction false} TextReadsOn(need: seq<Octet>, st: Reading, s: seq<Octet>, end: seq<Octet>)
    requires st.inside && st.place.InText? && end != [] && end[0] == LESS
    ensures var r := Decode(need, st, Escaped(s) + end);
            if exists c <- s :: IsNamesake(need, c) then r.code.Refused?
            else r == Past(|Escaped(s)|, Decode(need, st.(text := st.text + s), end))
    decreases |s|
  {
    hide Decode, From, IsTagged, OneEscaped, Escaped, IsNamesake;
    var m := PlainPrefix(s);
    NothingLeft([]);
    if s == [] {
      assert Escaped([]) + end == end && st.text + [] == st.text;
    } else if m == 0 {
      var c, rest := s[0], Escaped(s[1..]) + end;
      EscapedFirst(s);
      assert Escaped(s) + end == OneEscaped(c) + rest;
      TagReadsBack(need, st, c, rest);
      TextReadsOn(need, st.(text := st.text + [c]), s[1..], end);
      assert s == [c] + s[1..] && st.text + [c] + s[1..] == st.text + s;
    } else {
      var (u, v) := (s[..m], s[m..]);
      var rest := Escaped(v) + end;
      assert s == u + v;
      EscapedJoin(u, v);
      NextIsTag(v, end);
      assert Escaped(s) + end == Escaped(u) + rest;
      RunReadsBack(need, st, u, rest);
      TextReadsOn(need, st.(text := st.text + u), v, end);
      PlainAreNoNamesakes(need, u);
      assert st.text + u + v == st.text + s;
    }
  }

  /** The text of any string, up to the closing tag. */
  lemma TextReadsBack(need: seq<Octet>, st: Reading, s: seq<Octet>, more: seq<Octet>)
    requires st.inside && st.place.InText? && XmlName(need)
    ensures var r := Decode(need, st, Escaped(s) + (ClosingTag(need) + more));
            if exists c <- s :: IsNamesake(need, c) then r.code.Refused?
            else r == Run(Closed, |Escaped(s)| + |ClosingTag(need)|, st.(text := st.text + s))
  {
    hide Decode, Escaped, XmlName, IsNamesake;
    TextReadsOn(need, st, s, ClosingTag(need) + more);
    ClosingEnds(need, st.(text := st.text + s), more);
  }

  // ---------------------------------------------------------------- comments and attributes

  lemma CommentPasses(need: seq<Octet>, st: Reading, c: seq<Octet>, rest: seq<Octet>)
    requires st.place.InText? && IsComment(c)
    ensures Decode(need, st, c + rest) == Past(|c|, Decode(need, st, rest))
  {
    hide Decode, From, IsComment;
    CommentToken(c, rest);
    DecodeStep(need, st, c + rest);
    assert (c + rest)[..|c|] == c && (c + rest)[|c|..] == rest && st.(place := InText) == st;
    TakesComment(need, st, c, |c| == |c + rest|);
  }

  /** A comment anywhere between two strings in an element, whatever is in it, is as if it were not there. */
  lemma CommentInside(need: seq<Octet>, s: seq<Octet>, c: seq<Octet>, t: seq<Octet>, more: seq<Octet>)
    requires XmlName(need) && IsComment(c) && forall x <- s + t :: !IsNamesake(need, x)
    ensures var e := XmlElement(need, Escaped(s) + c + Escaped(t));
            Decode(need, START, e + more) == Run(Closed, |e|, Reading(true, InText, s + t))
  {
    hide Decode, Escaped, OpeningTag, ClosingTag, XmlName, IsNamesake, IsComment;
    var end := ClosingTag(need) + more;
    var (st, tail) := (Reading(true, InText, []), c + (Escaped(t) + end));
    assert XmlElement(need, Escaped(s) + c + Escaped(t)) + more == OpeningTag(need) + (Escaped(s) + tail);
    OpeningBegins(need, Escaped(s) + tail);
    assert forall x <- s :: x in s + t;
    assert forall x <- t :: x in s + t;
    CommentBegins(c);
    TextReadsOn(need, st, s, tail);
    assert [] + s == s;
    CommentPasses(need, st.(text := s), c, Escaped(t) + end);
    TextReadsBack(need, st.(text := s), t, more);
  }

  lemma CommentBegins(c: seq<Octet>)
    requires IsComment(c)
    ensures c != [] && c[0] == LESS
  {
  }

  /** Attributes of the opening tag are passed over, whatever is in them. */
  lemma AttributesPass(need: seq<Octet>, key: seq<Octet>, value: seq<Octet>, rest: seq<Octet>)
    requires XmlName(need) && XmlName(key) && QUOTE !in value
    ensures var t := AttributeTag(need, key, value);
            Decode(need, START, t + rest) == Past(|t|, Decode(need, Reading(true, InText, []), rest))
  {
    hide Decode, From, TagSpec, XmlName, AttributeTag;
    var t := AttributeTag(need, key, value);
    AttributeToken(need, key, value, rest);
    DecodeStep(need, START, t + rest);
    assert (t + rest)[..|t|] == t && (t + rest)[|t|..] == rest;
  }

  // ---------------------------------------------------------------- what the written text looks like

  /** No control character besides tab, LF and CR; an ampersand only where a reference begins, a '<' only where a tag
      does. */
  predicate Tidy(t: seq<Octet>) {
    && (forall k | 0 <= k < |t| :: t[k] >= 0x20 || t[k] as char in "\t\n\r")
    && (forall k | 0 <= k < |t| && t[k] == AMP :: BeginsName(t[k..]))
    && (forall k | 0 <= k < |t| && t[k] == LESS :: k + 1 < |t| && IsAlpha(t[k + 1]))
  }

  predicate BeginsName(t: seq<Octet>) {
    Begins(t, "&amp;") || Begins(t, "&lt;") || Begins(t, "&gt;")
  }

  lemma BeginsLonger(a: seq<Octet>, b: seq<Octet>)
    requires BeginsName(a)
    ensures BeginsName(a + b)
  {
  }

  lemma TidyAt(t: seq<Octet>, k: nat)
    requires Tidy(t) && k < |t|
    ensures t[k] >= 0x20 || t[k] as char in "\t\n\r"
    ensures t[k] == AMP ==> BeginsName(t[k..])
    ensures t[k] == LESS ==> k + 1 < |t| && IsAlpha(t[k + 1])
  {
  }

  lemma TidyJoin(a: seq<Octet>, b: seq<Octet>)
    requires Tidy(a) && Tidy(b)
    ensures Tidy(a + b)
  {
    hide BeginsName, IsAlpha;
    var t := a + b;
    forall k: nat | k < |t|
      ensures t[k] >= 0x20 || t[k] as char in "\t\n\r"
      ensures t[k] == AMP ==> BeginsName(t[k..])
      ensures t[k] == LESS ==> k + 1 < |t| && IsAlpha(t[k + 1])
    {
      if k < |a| {
        TidyAt(a, k);
        assert t[k..] == a[k..] + b;
        if a[k] == AMP {
          BeginsLonger(a[k..], b);
        }
      } else {
        TidyAt(b, k - |a|);
        assert t[k..] == b[k - |a|..];
      }
    }
  }

  /** What is written is tidy. */
  lemma {:induction false} WrittenIsTidy(s: seq<Octet>)
    ensures Tidy(Escaped(s))
    decreases |s|
  {
    hide OneEscaped, Tidy;
    if s == [] {
      NothingIsTidy();
    } else {
      OneIsTidy(s[0]);
      WrittenIsTidy(s[1..]);
      TidyJoin(OneEscaped(s[0]), Escaped(s[1..]));
    }
  }

  lemma NothingIsTidy()
    ensures Tidy([])
  {
  }

  lemma OneIsTidy(c: Octet)
    ensures Tidy(OneEscaped(c))
  {
    hide OneEscaped, EscapeOf, NameOf, BeginsName, IsAlpha;
    if IsTagged(c) {
      TagWritten(c);
    } else if c == AMP || c == LESS || c == GREATER {
      NameWritten(c);
      assert OneEscaped(c)[0..] == OneEscaped(c);
    } else {
      StandsForItself(c);
    }
  }

  lemma NameWritten(c: Octet)
    requires c == AMP || c == LESS || c == GREATER
    ensures var t := OneEscaped(c);
            t[0] == AMP && BeginsName(t) && forall k | 1 <= k < |t| :: 0x3b <= t[k] < 0x80 && t[k] != LESS
  {
    hide NameOf;
    assert Begins(OneEscaped(c), if c == AMP then "&amp;" else if c == LESS then "&lt;" else "&gt;");
  }

  lemma TagWritten(c: Octet)
    requires IsTagged(c)
    ensures var t := OneEscaped(c);
            && (forall k | 0 <= k < |t| :: t[k] >= 0x20 && t[k] != AMP)
            && (forall k | 0 <= k < |t| && t[k] == LESS :: k + 1 < |t| && IsAlpha(t[k + 1]))
  {
    NamesAreNames(c);
    var (t, n) := (OneEscaped(c), NameOf(c));
    assert forall k | 0 <= k < |n| :: n[k] in n;
    assert t == [LESS] + n + [SLASH, GREATER];
  }

  lemma EscapedFirst(s: seq<Octet>)
    requires s != []
    ensures Escaped(s) == OneEscaped(s[0]) + Escaped(s[1..])
  {
  }

  lemma NextIsTag(v: seq<Octet>, end: seq<Octet>)
    requires end != [] && end[0] == LESS && (v != [] ==> IsTagged(v[0]))
    ensures Escaped(v) + end != [] && (Escaped(v) + end)[0] == LESS
  {
    hide IsTagged, NameOf;
    if v != [] {
      TagOfControl([], v[0]);
      EscapedFirst(v);
    }
  }

  lemma PlainAreNoNamesakes(need: seq<Octet>, u: seq<Octet>)
    requires forall k | 0 <= k < |u| :: !IsTagged(u[k])
    ensures forall c <- u :: !IsNamesake(need, c)
  {
  }

  lemma OpeningBegins(need: seq<Octet>, rest: seq<Octet>)
    requires XmlName(need)
    ensures Decode(need, START, OpeningTag(need) + rest)
            == Past(|OpeningTag(need)|, Decode(need, Reading(true, InText, []), rest))
  {
    hide Decode, From, TagSpec, SimpleTag, XmlName;
    var tag := OpeningTag(need);
    NamesMakeTags(need);
    OwnTags(need);
    SimpleTagToken(tag, rest);
    DecodeStep(need, START, tag + rest);
    assert (tag + rest)[..|tag|] == tag && (tag + rest)[|tag|..] == rest;
  }

  /** The element of any string, whatever follows it, is read back and consumed whole; refused are exactly the strings
      with a control character that is spelled as a tag with the name of the element. */
  lemma ElementReadsBack(need: seq<Octet>, s: seq<Octet>, more: seq<Octet>)
    requires XmlName(need)
    ensures var t := XmlElement(need, Escaped(s));
            var r := Decode(need, START, t + more);
            if exists c <- s :: IsNamesake(need, c) then r.code.Refused?
            else r == Run(Closed, |t|, Reading(true, InText, s))
  {
    hide Decode, Escaped, OpeningTag, ClosingTag, XmlName, IsNamesake;
    var rest := Escaped(s) + (ClosingTag(need) + more);
    assert XmlElement(need, Escaped(s)) + more == OpeningTag(need) + rest;
    OpeningBegins(need, rest);
    TextReadsBack(need, Reading(true, InText, []), s, more);
    assert [] + s == s;
  }

  // ---------------------------------------------------------------- references in an element

  /** An element of text without tags is read as what its text stands for. */
  lemma TextElement(need: seq<Octet>, x: seq<Octet>, more: seq<Octet>)
    requires XmlName(need) && LESS !in x && Expand(x, true).Expanded?
    ensures Decode(need, START, XmlElement(need, x) + more)
            == Run(Closed, |XmlElement(need, x)|, Reading(true, InText, Expand(x, true).octets))
  {
    hide Decode, Expand, OpeningTag, ClosingTag, XmlName;
    var (end, st) := (ClosingTag(need) + more, Reading(true, InText, []));
    assert XmlElement(need, x) + more == OpeningTag(need) + (x + end);
    OpeningBegins(need, x + end);
    NamesMakeTags(need);
    TagBegins(ClosingTag(need));
    ClosingEnds(need, st.(text := Expand(x, true).octets), more);
    if x == [] {
      ExpandEnds(x, true);
      assert x + end == end;
    } else {
      RunOfText(need, st, x, end);
      assert [] + Expand(x, true).octets == Expand(x, true).octets;
    }
  }

  /** A decimal or hexadecimal reference to a number in range, anywhere in an element, is read as the character with
      that number in UTF-8, and the text around it as ever. */
  lemma ReferenceElement(need: seq<Octet>, base: Base, digits: seq<nat>, d: seq<Octet>, before: seq<Octet>,
                         after: seq<Octet>, more: seq<Octet>)
    requires XmlName(need) && Writes(d, digits) && AMP !in before && LESS !in before && LESS !in after
    requires var b := if base.Ten? then 10 else 16;
             0 < PlaceValue(b, digits) && PlaceValue(b, digits) * b + b <= INT_MAX
    requires Expand(after, true).Expanded?
    ensures var v := PlaceValue(if base.Ten? then 10 else 16, digits);
            var t := XmlElement(need, before + Reference(base, d) + after);
            Decode(need, START, t + more)
            == Run(Closed, |t|, Reading(true, InText, before + Utf8(v) + Expand(after, true).octets))
  {
    hide Decode, Expand, PlaceValue, XmlName, XmlElement, Utf8, Writes, Reference;
    var x := before + Reference(base, d) + after;
    NoLessInReference(base, digits, d);
    ReferenceInText(base, digits, d, before, after, true);
    TextElement(need, x, more);
  }

  lemma NoLessInReference(base: Base, digits: seq<nat>, d: seq<Octet>)
    requires Writes(d, digits)
    ensures LESS !in Reference(base, d)
  {
    NumeralIsPlaceValue(base, d, digits);
  }

  // ---------------------------------------------------------------- outside the element

  /** Before its opening tag, text and comments are passed over, and a '<' that begins no tag with what follows it. */
  lemma LeadPasses(need: seq<Octet>, x: seq<Octet>, c: Octet, rest: seq<Octet>)
    requires rest != [] && rest[0] == LESS && LESS !in x
    requires !IsAlpha(c) && c != SLASH && c != EXCLAM
    ensures Decode(need, START, x + rest) == Past(|x|, Decode(need, START, rest))
    ensures Decode(need, START, [LESS, c] + rest) == Past(2, Decode(need, START, rest))
  {
    hide Decode;
    if x == [] {
      assert x + rest == rest;
    } else {
      TextToken(x, rest);
      DecodeStep(need, START, x + rest);
      assert (x + rest)[..|x|] == x && (x + rest)[|x|..] == rest;
    }
    var s := [LESS, c] + rest;
    LoneLessToken(InText, s);
    DecodeStep(need, START, s);
    assert s[2..] == rest;
  }

  /** The empty form of the element is the empty string, and the tag of a control character, if it stands where the
      opening tag should, is the string of that character. */
  lemma EmptyElement(need: seq<Octet>, c: Octet, more: seq<Octet>)
    requires XmlName(need) && IsTagged(c) && !IsNamesake(need, c)
    ensures Decode(need, START, EmptyTag(need) + more) == Run(Closed, |EmptyTag(need)|, START)
    ensures Decode(need, START, EscapeOf(c) + more) == Run(Closed, |EscapeOf(c)|, START.(text := [c]))
  {
    hide Decode, From, TagSpec, SimpleTag, XmlName, IsNamesake, ControlOf;
    var t := EmptyTag(need);
    NamesMakeTags(need);
    EmptyTagIs(need, need);
    SimpleTagToken(t, more);
    DecodeStep(need, START, t + more);
    assert (t + more)[..|t|] == t;
    var u := OneEscaped(c);
    TagOfControl(need, c);
    SimpleTagToken(u, more);
    DecodeStep(need, START, u + more);
    assert (u + more)[..|u|] == u && [] + [c] == [c];
  }

  // ---------------------------------------------------------------- in pieces

  predicate Clean(t: seq<Octet>) {
    NoLessAmp(t) && (t != [] ==> t[|t| - 1] != LESS)
  }

  lemma CleanJoin(a: seq<Octet>, b: seq<Octet>)
    requires Clean(a) && NoLessAmp(b)
    ensures NoLessAmp(a + b) && (Clean(b) ==> Clean(a + b))
  {
    var t := a + b;
    forall k | 0 < k < |t|
      ensures !(t[k - 1] == LESS && t[k] == AMP)
    {
      assert t[k - 1] == if k - 1 < |a| then a[k - 1] else b[k - 1 - |a|];
      assert t[k] == if k < |a| then a[k] else b[k - |a|];
    }
  }

  lemma OneIsClean(c: Octet)
    ensures Clean(OneEscaped(c))
  {
    if IsTagged(c) {
      TagOfControl([], c);
      TagIsClean(OneEscaped(c));
    } else {
      OnePlain(c);
      assert forall k | 0 <= k < |OneEscaped(c)| :: OneEscaped(c)[k] in OneEscaped(c);
    }
  }

  lemma TagIsClean(t: seq<Octet>)
    requires SimpleTag(t)
    ensures Clean(t)
  {
  }

  lemma {:induction false} EscapedIsClean(s: seq<Octet>)
    ensures Clean(Escaped(s))
    decreases |s|
  {
    hide OneEscaped;
    if s != [] {
      OneIsClean(s[0]);
      EscapedIsClean(s[1..]);
      CleanJoin(OneEscaped(s[0]), Escaped(s[1..]));
    }
  }

  lemma ElementIsClean(need: seq<Octet>, s: seq<Octet>)
    requires XmlName(need)
    ensures Clean(XmlElement(need, Escaped(s)))
  {
    hide Escaped, Clean;
    EscapedIsClean(s);
    TagsAreClean(need);
    CleanNoAmp(OpeningTag(need));
    CleanNoAmp(Escaped(s));
    CleanNoAmp(ClosingTag(need));
    CleanJoin(OpeningTag(need), Escaped(s));
    CleanNoAmp(OpeningTag(need) + Escaped(s));
    CleanJoin(OpeningTag(need) + Escaped(s), ClosingTag(need));
  }

  lemma CleanNoAmp(t: seq<Octet>)
    ensures Clean(t) ==> NoLessAmp(t)
  {
  }

  lemma TagsAreClean(need: seq<Octet>)
    requires XmlName(need)
    ensures Clean(OpeningTag(need)) && Clean(ClosingTag(need))
  {
    NamesMakeTags(need);
    TagIsClean(OpeningTag(need));
    TagIsClean(ClosingTag(need));
  }

  /** The element of a string, followed by anything without a "<&", read in any pieces. */
  lemma ElementInPieces(need: seq<Octet>, s: seq<Octet>, more: seq<Octet>, pieces: seq<seq<Octet>>)
    requires XmlName(need) && !(exists c <- s :: IsNamesake(need, c)) && NoLessAmp(more)
    requires pieces != [] && Joined(pieces) == XmlElement(need, Escaped(s)) + more
    ensures PieceByPiece(need, START, [], pieces)
            == Run(Closed, |XmlElement(need, Escaped(s))|, Reading(true, InText, s))
  {
    hide Decode, PieceByPiece, XmlElement, Escaped, NoLessAmp, XmlName, IsNamesake;
    ElementReadsBack(need, s, more);
    ElementIsClean(need, s);
    CleanJoin(XmlElement(need, Escaped(s)), more);
    assert [] + Joined(pieces) == Joined(pieces);
    PiecesAreOneCall(need, START, [], pieces);
  }

  // ---------------------------------------------------------------- writing and reading

  /** xer_encode and OCTET_STRING_encode_xer_utf8. */
  method EncodeElement(need: seq<Octet>, s: seq<Octet>, canonical: bool) returns (out: seq<Octet>)
    ensures out == XmlElement(need, Escaped(s)) + if canonical then [] else [0x0a]
  {
    hide Escaped;
    out := [LESS] + need + [GREATER];
    var body := EncodeUtf8(s);
    out := out + body + ([LESS, SLASH] + need + if canonical then [GREATER] else [GREATER, 0x0a]);
    assert out == XmlElement(need, Escaped(s)) + if canonical then [] else [0x0a];
  }

  /** A string is written as an element, and that is read in pieces. */
  method WriteThenRead(need: seq<Octet>, s: seq<Octet>, canonical: bool, pieces: seq<seq<Octet>>)
      returns (written: seq<Octet>, code: Code, consumed: nat, read: seq<Octet>)
    requires XmlName(need) && pieces != []
    ensures Joined(pieces) == written && (forall c <- s :: !IsNamesake(need, c))
            ==> code == Closed && read == s && consumed == |XmlElement(need, Escaped(s))|
  {
    hide Escaped, Decode, PieceByPiece, XmlElement, XmlName, IsNamesake, NoLessAmp;
    written := EncodeElement(need, s, canonical);
    NoZeroIn(need);
    LineEndIsClean();
    if Joined(pieces) == written && forall c <- s :: !IsNamesake(need, c) {
      ElementInPieces(need, s, if canonical then [] else [0x0a], pieces);
    }
    var reader;
    code, consumed, reader := DecodePieces(need, pieces);
    read := if code == Closed then reader.text.Contents() else [];
  }

  lemma NoZeroIn(name: seq<Octet>)
    requires XmlName(name)
    ensures 0 !in name
  {
  }

  lemma LineEndIsClean()
    ensures NoLessAmp([0x0a]) && NoLessAmp([])
  {
  }
}
