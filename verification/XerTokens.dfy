/** Cutting XML text into tokens: pxml_parse as xer_next_token drives it, up to its first token
    (src/msg/xer_support.c:75-227, src/msg/xer_decoder.c:43-101), and xer_check_tag (src/msg/xer_decoder.c:107-165). */
module XerTokens {
  import opened Octets
  import opened EnumMap

  const EXCLAM: Octet := 0x21
  const QUOTE: Octet := 0x22
  const DASH: Octet := 0x2d
  const EQUAL: Octet := 0x3d

  datatype Place =
    | InText | TagStart | TagBody | QuoteWait | Quoted | Unquoted
    | Dash1 | Dash2 | InComment | CloseDash2 | CloseAngle

  datatype Kind = TextKind | TagKind | CommentKind

  /** PXER_WMORE, or a token with its size and the state that is kept for the next one. */
  datatype Next = Wait | Cut(kind: Kind, size: nat, place: Place)

  predicate IsWhite(c: Octet) {
    c == 0x09 || c == 0x0a || c == 0x0c || c == 0x0d || c == 0x20
  }

  predicate IsAlpha(c: Octet) {
    0x41 <= c <= 0x5a || 0x61 <= c <= 0x7a
  }

  /** White space in a tag is tab, LF, form feed, CR and space; a tag's name ends at these, at a vertical tab, a slash
      or a bracket, and begins with one of 52 letters. */
  lemma MarkupCharacters(c: Octet)
    ensures IsWhite(c) <==> c as char in "\t\n\U{0C}\r "
    ensures EndsName(c) <==> c as char in "\t\n\U{0B}\U{0C}\r />"
    ensures IsAlpha(c) <==> 'A' <= c as char <= 'Z' || 'a' <= c as char <= 'z'
  {
  }

  // ---------------------------------------------------------------- the automaton

  /** A character moves the automaton on, or ends a token before it or with it. */
  datatype Turned = Move(place: Place) | EndsBefore(kind: Kind, place: Place) | EndsWith(kind: Kind, place: Place)

  function Turn(place: Place, c: Octet): Turned {
    match place
    case InText => if c == LESS then EndsBefore(TextKind, TagStart) else Move(InText)
    case TagStart =>
      if IsAlpha(c) || c == SLASH then Move(TagBody)
      else if c == EXCLAM then Move(Dash1)
      else EndsWith(TextKind, InText)
    case TagBody =>
      if c == GREATER then EndsWith(TagKind, InText)
      else if c == LESS then EndsBefore(TagKind, TagStart)
      else if c == EQUAL then Move(QuoteWait)
      else Move(TagBody)
    case QuoteWait =>
      if c == QUOTE then Move(Quoted)
      else if c == GREATER then EndsWith(TagKind, InText)
      else if IsWhite(c) then Move(QuoteWait)
      else Move(Unquoted)
    case Quoted => Move(if c == QUOTE then TagBody else Quoted)
    case Unquoted =>
      if c == GREATER then EndsWith(TagKind, InText)
      else Move(if IsWhite(c) then TagBody else Unquoted)
    case Dash1 => Move(if c == DASH then Dash2 else TagBody)
    case Dash2 => Move(if c == DASH then InComment else TagBody)
    case InComment => Move(if c == DASH then CloseDash2 else InComment)
    case CloseDash2 => Move(if c == DASH then CloseAngle else InComment)
    case CloseAngle =>
      if c == GREATER then EndsWith(CommentKind, InText)
      else Move(if c == DASH then CloseAngle else InComment)
  }

  /** The first token of s, of which i characters have been passed. At the end, text and the inside of a comment
      are handed over as far as they go. */
  function From(place: Place, s: seq<Octet>, i: nat): (n: Next)
    requires i <= |s|
    ensures n.Cut? ==> i <= n.size <= |s| && n.size > 0
    decreases |s| - i
  {
    if i == |s| then
      if i > 0 && place.InText? then Cut(TextKind, i, InText)
      else if i > 0 && place.InComment? then Cut(CommentKind, i, InComment)
      else Wait
    else
      match Turn(place, s[i])
      case Move(next) => From(next, s, i + 1)
      case EndsWith(kind, next) => Cut(kind, i + 1, next)
      case EndsBefore(kind, next) => if i == 0 then From(next, s, 1) else Cut(kind, i, place)
  }

  /** xer_next_token. */
  method NextToken(context: Place, s: seq<Octet>) returns (n: Next)
    ensures n == From(context, s, 0)
  {
    var place, p := context, 0;
    while p < |s|
      invariant p <= |s| && From(context, s, 0) == From(place, s, p)
    {
      match Turn(place, s[p]) {
        case Move(next) => place := next;
        case EndsWith(kind, next) => return Cut(kind, p + 1, next);
        case EndsBefore(kind, next) =>
          if p > 0 {
            return Cut(kind, p, place);
          }
          place := next;
      }
      p := p + 1;
    }
    if p > 0 && place.InComment? {
      return Cut(CommentKind, p, place);
    }
    if p > 0 && place.InText? {
      return Cut(TextKind, p, place);
    }
    return Wait;
  }

  // ---------------------------------------------------------------- what more input can change

  lemma {:induction false} TextGoesOn(s: seq<Octet>, i: nat)
    requires 0 < i <= |s|
    ensures From(InText, s, i).Cut? && From(InText, s, i).kind.TextKind?
    decreases |s| - i
  {
    if i < |s| && s[i] != LESS {
      TextGoesOn(s, i + 1);
    }
  }

  lemma {:induction false} CommentGoesOn(place: Place, s: seq<Octet>, i: nat)
    requires 0 < i <= |s| && (place.InComment? || place.CloseDash2? || place.CloseAngle?)
    ensures From(place, s, i).Cut? ==> From(place, s, i).kind.CommentKind?
    decreases |s| - i
  {
    if i < |s| && Turn(place, s[i]).Move? {
      CommentGoesOn(Turn(place, s[i]).place, s, i + 1);
    }
  }

  /** A tag, and any token that does not reach the end of the input, is the same token however the input goes on;
      a text that reaches the end stays a text, and a comment a comment. */
  lemma {:induction false} TokenKept(place: Place, s: seq<Octet>, t: seq<Octet>, i: nat)
    requires i <= |s| && From(place, s, i).Cut?
    ensures var n, more := From(place, s, i), From(place, s + t, i);
            && (n.size < |s| || n.kind.TagKind? ==> more == n)
            && (more.Cut? ==> more.kind == n.kind && more.size >= n.size)
            && (n.kind.TextKind? ==> more.Cut?)
    decreases |s| - i
  {
    if i == |s| {
      if place.InText? {
        TextGoesOn(s + t, i);
      } else {
        CommentGoesOn(place, s + t, i);
      }
    } else {
      assert (s + t)[i] == s[i];
      match Turn(place, s[i])
      case Move(next) => TokenKept(next, s, t, i + 1);
      case EndsWith(kind, next) =>
      case EndsBefore(kind, next) =>
        if i == 0 {
          TokenKept(next, s, t, 1);
        }
    }
  }

  /** Cut short, a token has no end, or it is a piece of a text or of a comment that reaches the end of the input. */
  lemma {:induction false} TokenCutShort(place: Place, s: seq<Octet>, m: nat, i: nat)
    requires i <= m <= |s| && From(place, s, i).Cut?
    ensures var n, less := From(place, s, i), From(place, s[..m], i);
            && (m > n.size ==> less == n)
            && (m <= n.size ==>
                  less == n || less.Wait? || (less.size == m && less.kind == n.kind && !less.kind.TagKind?))
    decreases m - i
  {
    if i == m {
      if i > 0 && place.InText? {
        TextGoesOn(s, i);
      } else if i > 0 && place.InComment? {
        CommentGoesOn(place, s, i);
      }
    } else {
      assert s[..m][i] == s[i];
      match Turn(place, s[i])
      case Move(next) => TokenCutShort(next, s, m, i + 1);
      case EndsWith(kind, next) =>
      case EndsBefore(kind, next) =>
        if i == 0 {
          TokenCutShort(next, s, m, 1);
        }
    }
  }

  // ---------------------------------------------------------------- tags and texts are what they look like

  /** A name that begins with a letter, with nothing in it that means something in a tag. */
  predicate XmlName(name: seq<Octet>) {
    name != [] && IsAlpha(name[0])
    && forall c <- name :: !EndsName(c) && c != LESS && c != EQUAL && c != 0
  }

  function OpeningTag(name: seq<Octet>): seq<Octet> {
    [LESS] + name + [GREATER]
  }

  function ClosingTag(name: seq<Octet>): seq<Octet> {
    [LESS, SLASH] + name + [GREATER]
  }

  function EmptyTag(name: seq<Octet>): seq<Octet> {
    [LESS] + name + [SLASH, GREATER]
  }

  /** What xer_encode writes (src/msg/xer_encoder.c:12-38), but for the line end. */
  function XmlElement(need: seq<Octet>, body: seq<Octet>): seq<Octet> {
    OpeningTag(need) + body + ClosingTag(need)
  }

  /** A tag: '<', a letter or a slash, and then nothing special up to the '>' that ends it. */
  predicate SimpleTag(t: seq<Octet>) {
    && |t| >= 3 && t[0] == LESS && (IsAlpha(t[1]) || t[1] == SLASH) && t[|t| - 1] == GREATER
    && forall k | 2 <= k < |t| - 1 :: t[k] != LESS && t[k] != GREATER && t[k] != EQUAL
  }

  lemma {:induction false} BodyEnds(s: seq<Octet>, i: nat, n: nat)
    requires i <= n < |s| && s[n] == GREATER
    requires forall k | i <= k < n :: s[k] != LESS && s[k] != GREATER && s[k] != EQUAL
    ensures From(TagBody, s, i) == Cut(TagKind, n + 1, InText)
    decreases n - i
  {
    if i < n {
      BodyEnds(s, i + 1, n);
    }
  }

  /** Whatever follows, a simple tag is one token. */
  lemma SimpleTagToken(t: seq<Octet>, more: seq<Octet>)
    requires SimpleTag(t)
    ensures From(InText, t + more, 0) == Cut(TagKind, |t|, InText)
  {
    hide From;
    var s := t + more;
    assert forall k | 0 <= k < |t| :: s[k] == t[k];
    FirstLess(s);
    OneMove(TagStart, s, 1);
    BodyEnds(s, 2, |t| - 1);
  }

  /** How much of a text comes before the first '<'. */
  function LessAt(s: seq<Octet>): (n: nat)
    ensures n <= |s| && (forall k | 0 <= k < n :: s[k] != LESS) && (n < |s| ==> s[n] == LESS)
  {
    if s == [] || s[0] == LESS then 0 else 1 + LessAt(s[1..])
  }

  lemma {:induction false} TextEnds(s: seq<Octet>, i: nat, n: nat)
    requires 0 < i <= n <= |s| && (n < |s| ==> s[n] == LESS) && forall k | i <= k < n :: s[k] != LESS
    ensures From(InText, s, i) == Cut(TextKind, n, InText)
    decreases n - i
  {
    if i < n {
      TextEnds(s, i + 1, n);
    }
  }

  /** A text goes up to the next '<', or to the end of the input. */
  lemma TextRun(s: seq<Octet>)
    requires s != [] && s[0] != LESS
    ensures From(InText, s, 0) == Cut(TextKind, LessAt(s), InText) && LessAt(s) > 0
  {
    TextEnds(s, 1, LessAt(s));
  }

  lemma LessAtIs(t: seq<Octet>, more: seq<Octet>)
    requires LESS !in t
    ensures LessAt(t + more) == |t| + LessAt(more)
  {
    var n := LessAt(t + more);
    assert forall k | 0 <= k < |t| :: (t + more)[k] == t[k] && t[k] in t;
    assert forall k | 0 <= k < |more| :: (t + more)[|t| + k] == more[k];
    assert n >= |t|;
  }

  /** A text up to the next '<' is one token. */
  lemma TextToken(t: seq<Octet>, more: seq<Octet>)
    requires t != [] && LESS !in t && more != [] && more[0] == LESS
    ensures From(InText, t + more, 0) == Cut(TextKind, |t|, InText)
  {
    assert t[0] in t;
    LessAtIs(t, more);
    TextRun(t + more);
  }

  lemma NamesMakeTags(name: seq<Octet>)
    requires XmlName(name)
    ensures SimpleTag(OpeningTag(name)) && SimpleTag(ClosingTag(name)) && SimpleTag(EmptyTag(name))
  {
    assert forall k | 0 <= k < |name| :: name[k] in name;
  }

  lemma TagBegins(t: seq<Octet>)
    requires SimpleTag(t)
    ensures t != [] && t[0] == LESS
  {
  }

  // ---------------------------------------------------------------- comments and attributes

  function Comment(c: seq<Octet>): seq<Octet> {
    [LESS, EXCLAM, DASH, DASH] + c + [DASH, DASH, GREATER]
  }

  /** Three characters from k on end a comment. */
  predicate EndsComment(s: seq<Octet>, k: nat)
    requires k + 3 <= |s|
  {
    s[k] == DASH && s[k + 1] == DASH && s[k + 2] == GREATER
  }

  /** A comment does not end before its end. */
  predicate IsComment(s: seq<Octet>) {
    && |s| >= 7 && s == Comment(s[4..|s| - 3])
    && forall k | 4 <= k < |s| - 3 :: !EndsComment(s, k)
  }

  /** Where the automaton is after i characters of a comment: how many dashes it has just seen. */
  function PlaceIn(s: seq<Octet>, i: nat): Place
    requires 4 <= i <= |s|
  {
    if i == 4 || s[i - 1] != DASH then InComment
    else if i == 5 || s[i - 2] != DASH then CloseDash2
    else CloseAngle
  }

  lemma {:induction false} CommentRuns(s: seq<Octet>, more: seq<Octet>, i: nat)
    requires IsComment(s) && 4 <= i < |s|
    ensures From(PlaceIn(s, i), s + more, i) == Cut(CommentKind, |s|, InText)
    decreases |s| - i
  {
    assert (s + more)[i] == s[i];
    assert s[|s| - 1] == GREATER && s[|s| - 2] == DASH && s[|s| - 3] == DASH;
    if i < |s| - 1 {
      assert i >= 6 ==> !EndsComment(s, i - 2);
      CommentRuns(s, more, i + 1);
    }
  }

  /** Whatever is in a comment, and whatever follows it, it is one token, up to the first "-->". */
  lemma CommentToken(s: seq<Octet>, more: seq<Octet>)
    requires IsComment(s)
    ensures From(InText, s + more, 0) == Cut(CommentKind, |s|, InText)
  {
    var t := s + more;
    assert t[0] == s[0] == LESS && t[1] == s[1] == EXCLAM && t[2] == s[2] == DASH && t[3] == s[3] == DASH;
    hide From;
    FirstLess(t);
    OneMove(TagStart, t, 1);
    OneMove(Dash1, t, 2);
    OneMove(Dash2, t, 3);
    CommentRuns(s, more, 4);
  }

  /** An opening tag with an attribute. */
  function AttributeTag(name: seq<Octet>, key: seq<Octet>, value: seq<Octet>): seq<Octet> {
    [LESS] + name + [0x20] + key + [EQUAL, QUOTE] + value + [QUOTE, GREATER]
  }

  lemma {:induction false} PlainBody(s: seq<Octet>, i: nat, n: nat)
    requires i <= n <= |s| && forall k | i <= k < n :: s[k] != LESS && s[k] != GREATER && s[k] != EQUAL
    ensures From(TagBody, s, i) == From(TagBody, s, n)
    decreases n - i
  {
    if i < n {
      PlainBody(s, i + 1, n);
    }
  }

  lemma {:induction false} QuotedRuns(s: seq<Octet>, i: nat, n: nat)
    requires i <= n <= |s| && forall k | i <= k < n :: s[k] != QUOTE
    ensures From(Quoted, s, i) == From(Quoted, s, n)
    decreases n - i
  {
    if i < n {
      QuotedRuns(s, i + 1, n);
    }
  }

  /** A quoted value may hold anything but a quote, brackets too: the tag is one token, and the one that is needed. */
  lemma AttributeToken(name: seq<Octet>, key: seq<Octet>, value: seq<Octet>, more: seq<Octet>)
    requires XmlName(name) && XmlName(key) && QUOTE !in value
    ensures var t := AttributeTag(name, key, value);
            && From(InText, t + more, 0) == Cut(TagKind, |t|, InText)
            && TagSpec(t, name) == Known(Opening)
  {
    hide AttributeTag, From, XmlName;
    var t := AttributeTag(name, key, value);
    AttributeAt(name, key, value, more);
    AttributeRuns(t + more, 2 + |name| + |key|, 4 + |name| + |key| + |value|);
    AttributeTagIs(name, key, value);
  }

  /** What stands where: '=' and a quote at b, the next quote and '>' at c. */
  lemma AttributeAt(name: seq<Octet>, key: seq<Octet>, value: seq<Octet>, more: seq<Octet>)
    requires XmlName(name) && XmlName(key) && QUOTE !in value
    ensures var (t, b, c) := (AttributeTag(name, key, value), 2 + |name| + |key|, 4 + |name| + |key| + |value|);
            && |t| == c + 2 && AttributeForm(t + more, b, c)
  {
    var s := AttributeTag(name, key, value) + more;
    var (a, b) := (1 + |name|, 2 + |name| + |key|);
    assert forall k | 0 <= k < |name| :: s[1 + k] == name[k] && name[k] in name;
    assert forall k | 0 <= k < |key| :: s[a + 1 + k] == key[k] && key[k] in key;
    assert forall k | 0 <= k < |value| :: s[b + 2 + k] == value[k] && value[k] in value;
    assert s[a] == 0x20;
    forall k | 2 <= k < b
      ensures s[k] != LESS && s[k] != GREATER && s[k] != EQUAL
    {
      if k < a {
        assert s[k] == name[k - 1];
      } else if k > a {
        assert s[k] == key[k - a - 1];
      }
    }
    forall k | b + 2 <= k < b + 2 + |value|
      ensures s[k] != QUOTE
    {
      assert s[k] == value[k - b - 2];
    }
  }

  predicate AttributeForm(s: seq<Octet>, b: nat, c: nat) {
    && 2 <= b && b + 2 <= c && c + 2 <= |s|
    && s[0] == LESS && IsAlpha(s[1]) && s[b] == EQUAL && s[b + 1] == QUOTE && s[c] == QUOTE && s[c + 1] == GREATER
    && (forall k | 2 <= k < b :: s[k] != LESS && s[k] != GREATER && s[k] != EQUAL)
    && (forall k | b + 2 <= k < c :: s[k] != QUOTE)
  }

  lemma OneMove(place: Place, s: seq<Octet>, i: nat)
    requires i < |s| && Turn(place, s[i]).Move?
    ensures From(place, s, i) == From(Turn(place, s[i]).place, s, i + 1)
  {
  }

  lemma FirstLess(s: seq<Octet>)
    requires s != [] && s[0] == LESS
    ensures From(InText, s, 0) == From(TagStart, s, 1)
  {
  }

  lemma LastOfTag(s: seq<Octet>, i: nat)
    requires i < |s| && s[i] == GREATER
    ensures From(TagBody, s, i) == Cut(TagKind, i + 1, InText)
  {
  }

  lemma AttributeRuns(s: seq<Octet>, b: nat, c: nat)
    requires AttributeForm(s, b, c)
    ensures From(InText, s, 0) == Cut(TagKind, c + 2, InText)
  {
    hide From;
    FirstLess(s);
    OneMove(TagStart, s, 1);
    PlainBody(s, 2, b);
    OneMove(TagBody, s, b);
    OneMove(QuoteWait, s, b + 1);
    QuotedRuns(s, b + 2, c);
    OneMove(Quoted, s, c);
    LastOfTag(s, c + 1);
  }

  /** A tag that another '<' breaks off is a token up to there, and a broken one. */
  lemma BrokenOffTag(t: seq<Octet>, need: seq<Octet>, more: seq<Octet>)
    requires |t| >= 2 && t[0] == LESS && (IsAlpha(t[1]) || t[1] == SLASH) && more != [] && more[0] == LESS
    requires forall k | 2 <= k < |t| :: t[k] != LESS && t[k] != GREATER && t[k] != EQUAL
    ensures From(InText, t + more, 0) == Cut(TagKind, |t|, TagBody) && TagSpec(t, need) == BrokenTag
  {
    hide From;
    var s := t + more;
    assert forall k | 0 <= k < |t| :: s[k] == t[k];
    assert s[|t|] == LESS;
    FirstLess(s);
    OneMove(TagStart, s, 1);
    PlainBody(s, 2, |t|);
    TagBreaksOff(s, |t|);
  }

  lemma TagBreaksOff(s: seq<Octet>, i: nat)
    requires 0 < i < |s| && s[i] == LESS
    ensures From(TagBody, s, i) == Cut(TagKind, i, TagBody)
  {
  }

  lemma {:induction false} UnquotedRuns(s: seq<Octet>, i: nat, n: nat)
    requires i <= n < |s| && s[n] == GREATER && forall k | i <= k < n :: s[k] != GREATER && !IsWhite(s[k])
    ensures From(Unquoted, s, i) == Cut(TagKind, n + 1, InText)
    decreases n - i
  {
    if i < n {
      UnquotedRuns(s, i + 1, n);
    }
  }

  /** An unquoted value goes up to white space or the end of the tag: after '=' at b the tag ends at the first '>'. */
  lemma UnquotedToken(s: seq<Octet>, b: nat, n: nat)
    requires 2 <= b && b + 1 < n < |s| && s[0] == LESS && IsAlpha(s[1]) && s[b] == EQUAL && s[n] == GREATER
    requires forall k | 2 <= k < b :: s[k] != LESS && s[k] != GREATER && s[k] != EQUAL
    requires s[b + 1] != QUOTE && forall k | b < k < n :: s[k] != GREATER && !IsWhite(s[k])
    ensures From(InText, s, 0) == Cut(TagKind, n + 1, InText)
  {
    hide From;
    FirstLess(s);
    OneMove(TagStart, s, 1);
    PlainBody(s, 2, b);
    OneMove(TagBody, s, b);
    OneMove(QuoteWait, s, b + 1);
    UnquotedRuns(s, b + 2, n);
  }

  lemma AttributeTagIs(name: seq<Octet>, key: seq<Octet>, value: seq<Octet>)
    requires XmlName(name)
    ensures TagSpec(AttributeTag(name, key, value), name) == Known(Opening)
  {
    var t := AttributeTag(name, key, value);
    assert t[1] == name[0] && name[0] in name;
    var tail := [0x20] + key + [EQUAL, QUOTE] + value + [QUOTE];
    assert t == [LESS] + (name + tail) + [GREATER];
    assert t[1..|t| - 1] == name + tail;
    assert (name + tail)[|name|] == 0x20;
  }

  // ---------------------------------------------------------------- telling tags apart

  datatype Form = Opening | Closing | Both

  /** XCT_BROKEN, or the form of the tag and whether its name is the one that is needed. */
  datatype TagCheck = BrokenTag | Known(form: Form) | Unknown(form: Form)

  /** A tag's name against the needed one, any name doing if none is needed. */
  function NameCheck(form: Form, name: seq<Octet>, need: seq<Octet>): TagCheck {
    if need == [] then Unknown(form)
    else if name == need then Known(form)
    else if need < name && name[|need|] == 0 then BrokenTag
    else if need < name && IsWhite(name[|need|]) then Known(form)
    else Unknown(form)
  }

  function TagSpec(buf: seq<Octet>, need: seq<Octet>): TagCheck {
    var n := |buf| - 1;
    if |buf| < 2 || buf[0] != LESS || buf[n] != GREATER then BrokenTag
    else if buf[1] == SLASH then
      if n > 2 && buf[n - 1] == SLASH then BrokenTag else NameCheck(Closing, buf[2..n], need)
    else if n > 1 && buf[n - 1] == SLASH then NameCheck(Both, buf[1..n - 1], need)
    else NameCheck(Opening, buf[1..n], need)
  }

  /** xer_check_tag; `need` is a C string. */
  method XerCheckTag(buf: seq<Octet>, need: seq<Octet>) returns (r: TagCheck)
    requires 0 !in need
    ensures r == TagSpec(buf, need)
  {
    if |buf| < 2 || buf[0] != LESS || buf[|buf| - 1] != GREATER {
      return BrokenTag;
    }
    var at, end, form := 1, |buf| - 1, Opening;
    if buf[1] == SLASH {
      at, form := 2, Closing;
      if end > at && buf[end - 1] == SLASH {
        return BrokenTag;
      }
    } else if end > at && buf[end - 1] == SLASH {
      form, end := Both, end - 1;
    }
    if |need| == 0 {
      return Unknown(form);
    }
    r := CheckName(form, buf[at..end], need);
  }

  method CheckName(form: Form, name: seq<Octet>, need: seq<Octet>) returns (r: TagCheck)
    requires need != [] && 0 !in need
    ensures r == NameCheck(form, name, need)
  {
    var i := 0;
    while i < |name|
      invariant i <= |name| && i <= |need| && name[..i] == need[..i]
    {
      var b, n := name[i], if i < |need| then need[i] else 0;
      if b != n {
        if n == 0 && IsWhite(b) {
          assert name[..i] == need;
          return Known(form);
        }
        assert i < |need| ==> name[i] != need[i];
        return Unknown(form);
      }
      if b == 0 {
        assert i == |need| && name[..i] == need;
        return BrokenTag;
      }
      i := i + 1;
    }
    assert name == name[..i];
    return if i < |need| then Unknown(form) else Known(form);
  }

  lemma UnknownIsTag(c: seq<Octet>, need: seq<Octet>)
    requires TagSpec(c, need).Unknown?
    ensures c != [] && c[0] == LESS
  {
  }

  lemma OwnTags(need: seq<Octet>)
    requires XmlName(need)
    ensures TagSpec(OpeningTag(need), need) == Known(Opening) && TagSpec(ClosingTag(need), need) == Known(Closing)
  {
    var (o, c) := (OpeningTag(need), ClosingTag(need));
    assert o[1..|o| - 1] == need && c[2..|c| - 1] == need;
    assert need[0] in need && need[|need| - 1] in need;
  }

  lemma EmptyTagIs(need: seq<Octet>, name: seq<Octet>)
    requires XmlName(name)
    ensures TagSpec(EmptyTag(name), need) == if name == need then Known(Both) else Unknown(Both)
  {
    var p := EmptyTag(name);
    assert p[1..|p| - 2] == name;
    assert name[0] in name;
    assert need < name ==> name[|need|] in name;
  }

  /** A tag of that form with `name` between the brackets. */
  function Bracketed(form: Form, name: seq<Octet>): seq<Octet> {
    match form
    case Opening => [LESS] + name + [GREATER]
    case Closing => [LESS, SLASH] + name + [GREATER]
    case Both => [LESS] + name + [SLASH, GREATER]
  }

  /** What may follow the name: nothing, or white space and anything; a slash at the end only where it belongs. */
  predicate MayFollow(form: Form, more: seq<Octet>) {
    more == [] || (IsWhite(more[0]) && (form.Both? || more[|more| - 1] != SLASH))
  }

  /** A tag is the needed one in one of the three forms exactly if it is written in that form with that name. */
  lemma KnownExactly(buf: seq<Octet>, need: seq<Octet>, form: Form)
    requires XmlName(need)
    ensures TagSpec(buf, need) == Known(form)
            <==> exists more :: MayFollow(form, more) && buf == Bracketed(form, need + more)
  {
    if TagSpec(buf, need) == Known(form) {
      KnownIsWritten(buf, need, form);
    }
    if more :| MayFollow(form, more) && buf == Bracketed(form, need + more) {
      WrittenIsKnown(need, form, more);
    }
  }

  function Middle(form: Form, buf: seq<Octet>): seq<Octet>
    requires |buf| >= 3
  {
    match form
    case Opening => buf[1..|buf| - 1]
    case Closing => buf[2..|buf| - 1]
    case Both => buf[1..|buf| - 2]
  }

  lemma KnownIsWritten(buf: seq<Octet>, need: seq<Octet>, form: Form)
    requires XmlName(need) && TagSpec(buf, need) == Known(form)
    ensures exists more :: MayFollow(form, more) && buf == Bracketed(form, need + more)
  {
    hide TagSpec, XmlName, NameCheck, IsWhite, MayFollow, Bracketed;
    NeedsThree(buf, need, form);
    MiddleIsChecked(buf, need, form);
    var name := Middle(form, buf);
    NameIsKnown(form, name, need);
    var more := name[|need|..];
    assert name == need + more;
    LastFollows(form, need, more);
  }

  lemma LastFollows(form: Form, need: seq<Octet>, more: seq<Octet>)
    requires need + more == need || IsWhite((need + more)[|need|])
    requires need + more != [] && !form.Both? ==> (need + more)[|need + more| - 1] != SLASH
    ensures MayFollow(form, more)
  {
    if more != [] {
      assert (need + more)[|need + more| - 1] == more[|more| - 1];
      assert (need + more)[|need|] == more[0];
    }
  }

  lemma NeedsThree(buf: seq<Octet>, need: seq<Octet>, form: Form)
    requires XmlName(need) && TagSpec(buf, need) == Known(form)
    ensures |buf| >= 3 && need != []
  {
  }

  lemma NameIsKnown(form: Form, name: seq<Octet>, need: seq<Octet>)
    requires need != [] && NameCheck(form, name, need) == Known(form)
    ensures need <= name && (name == need || IsWhite(name[|need|]))
  {
  }

  /** What lies between the brackets, without slashes, is compared with the name. */
  lemma MiddleIsChecked(buf: seq<Octet>, need: seq<Octet>, form: Form)
    requires |buf| >= 3 && need != [] && TagSpec(buf, need) == Known(form)
    ensures var name := Middle(form, buf);
            && NameCheck(form, name, need) == Known(form)
            && (name != [] && !form.Both? ==> name[|name| - 1] != SLASH)
            && buf == Bracketed(form, name)
  {
    hide NameCheck;
    var n := |buf| - 1;
    SameForm(buf, need);
    match form
    case Opening => assert buf == [buf[0]] + buf[1..n] + [buf[n]];
    case Closing => assert buf == [buf[0], buf[1]] + buf[2..n] + [buf[n]];
    case Both => assert buf == [buf[0]] + buf[1..n - 1] + [buf[n - 1], buf[n]];
  }

  /** The form of a check is that of the slashes. */
  lemma SameForm(buf: seq<Octet>, need: seq<Octet>)
    requires |buf| >= 3 && TagSpec(buf, need).Known?
    ensures var (n, r) := (|buf| - 1, TagSpec(buf, need));
            && buf[0] == LESS && buf[n] == GREATER
            && r.form == (if buf[1] == SLASH then Closing else if buf[n - 1] == SLASH then Both else Opening)
            && (buf[1] == SLASH && n > 2 ==> buf[n - 1] != SLASH)
            && r == NameCheck(r.form, Middle(r.form, buf), need)
  {
  }

  lemma WrittenIsKnown(need: seq<Octet>, form: Form, more: seq<Octet>)
    requires XmlName(need) && MayFollow(form, more)
    ensures TagSpec(Bracketed(form, need + more), need) == Known(form)
  {
    var buf := Bracketed(form, need + more);
    var name := need + more;
    assert Middle(form, buf) == name;
    assert need[0] in need && need[|need| - 1] in need;
    assert name[|name| - 1] == if more == [] then need[|need| - 1] else more[|more| - 1];
    assert more != [] ==> name[|need|] == more[0];
  }
}
