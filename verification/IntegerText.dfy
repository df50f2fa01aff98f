/** The text form of an INTEGER: what a text means, and INTEGER__xer_body_decode, which reads it in one
    pass and starts over when a decimal number turns out to be hexadecimal (src/msg/INTEGER.c:307-524). */
module IntegerText {
  import opened Octets
  import opened IntegerCodec
  import opened EnumMap
  import opened Strtol

  const COLON: Octet := 0x3a

  /** XPBD_NOT_BODY_IGNORE, XPBD_BROKEN_ENCODING, XPBD_DECODER_LIMIT, or the contents octets stored. */
  datatype Body = NotBody | Broken | DecoderLimit | Consumed(octets: seq<Octet>)

  predicate IsSpace(c: Octet) {
    c == 0x09 || c == 0x0a || c == 0x0d || c == 0x20
  }

  predicate IsSign(c: Octet) {
    c == MINUS || c == PLUS
  }

  predicate IsLetter(c: Octet) {
    0x41 <= c <= 0x46 || 0x61 <= c <= 0x66
  }

  predicate IsHexDigit(c: Octet) {
    IsDigit(c) || IsLetter(c)
  }

  function HexVal(c: Octet): (v: nat)
    ensures v < 16
  {
    if IsDigit(c) then c - 0x30 else if IsLetter(c) then (if c < 0x61 then c - 0x41 else c - 0x61) + 10 else 0
  }

  // ---------------------------------------------------------------- which characters these are

  /** 0 to 9 and then a to f, or A to F. */
  const LOWER_DIGITS: seq<Octet> :=
    [0x30, 0x31, 0x32, 0x33, 0x34, 0x35, 0x36, 0x37, 0x38, 0x39, 0x61, 0x62, 0x63, 0x64, 0x65, 0x66]
  const UPPER_DIGITS: seq<Octet> :=
    [0x30, 0x31, 0x32, 0x33, 0x34, 0x35, 0x36, 0x37, 0x38, 0x39, 0x41, 0x42, 0x43, 0x44, 0x45, 0x46]

  /** Each of these characters is a digit worth its place in the list. */
  lemma HexDigitValues(k: nat)
    requires k < 16
    ensures IsHexDigit(LOWER_DIGITS[k]) && HexVal(LOWER_DIGITS[k]) == k
    ensures IsHexDigit(UPPER_DIGITS[k]) && HexVal(UPPER_DIGITS[k]) == k
    ensures IsDigit(LOWER_DIGITS[k]) <==> k < 10
    ensures k < 10 ==> Digit(LOWER_DIGITS[k]) == k
  {
  }

  /** And there are no others. */
  lemma HexDigitsExactly(c: Octet)
    ensures IsHexDigit(c) <==> c in LOWER_DIGITS || c in UPPER_DIGITS
    ensures IsDigit(c) <==> c in LOWER_DIGITS[..10]
  {
    if IsHexDigit(c) {
      assert c == if c < 0x61 then UPPER_DIGITS[HexVal(c)] else LOWER_DIGITS[HexVal(c)];
    }
    if IsDigit(c) {
      assert c == LOWER_DIGITS[..10][HexVal(c)];
    }
  }

  /** Blanks are tab, LF, CR and space; signs are plus and minus. */
  lemma BlanksAndSigns(c: Octet)
    ensures IsSpace(c) <==> c as char in "\t\n\r "
    ensures IsSign(c) <==> c as char in "+-"
  {
  }

  /** The texts differ in the case of hexadecimal digits only. */
  predicate CaseOnly(a: seq<Octet>, b: seq<Octet>) {
    |a| == |b| && forall i | 0 <= i < |a| :: a[i] == b[i] || OtherCase(a[i], b[i]) || OtherCase(b[i], a[i])
  }

  predicate OtherCase(upper: Octet, lower: Octet) {
    exists k | 10 <= k < 16 :: upper == UPPER_DIGITS[k] && lower == LOWER_DIGITS[k]
  }

  lemma SameDigit(a: Octet, b: Octet)
    requires a == b || OtherCase(a, b) || OtherCase(b, a)
    ensures IsHexDigit(a) == IsHexDigit(b) && HexVal(a) == HexVal(b)
    ensures a == b || (IsLetter(a) && IsLetter(b))
  {
  }

  // ---------------------------------------------------------------- what a text means

  function LeadEnd(s: seq<Octet>, i: nat): (w: nat)
    requires i <= |s|
    ensures i <= w <= |s| && (forall k | i <= k < w :: IsSpace(s[k])) && (w < |s| ==> !IsSpace(s[w]))
    decreases |s| - i
  {
    if i < |s| && IsSpace(s[i]) then LeadEnd(s, i + 1) else i
  }

  function TrailEnd(s: seq<Octet>, n: nat): (e: nat)
    requires n <= |s|
    ensures e <= n && (forall k | e <= k < n :: IsSpace(s[k])) && (e > 0 ==> !IsSpace(s[e - 1]))
    decreases n
  {
    if n > 0 && IsSpace(s[n - 1]) then TrailEnd(s, n - 1) else n
  }

  function DigitsFrom(s: seq<Octet>, w: nat): (p: nat)
    requires w < |s|
    ensures w <= p <= w + 1
  {
    if IsSign(s[w]) then w + 1 else w
  }

  /** s[w..e] is an optional sign and one or more digits. */
  predicate DecimalText(s: seq<Octet>, w: nat, e: nat)
    requires w < |s| && e <= |s|
  {
    DigitsFrom(s, w) < e && DigitRun(s, DigitsFrom(s, w), e)
  }

  /** Counted from w, two hexadecimal digits and a colon take turns up to n. */
  predicate PairRun(s: seq<Octet>, w: nat, n: nat)
    requires w <= n <= |s|
  {
    forall k | w <= k < n :: if (k - w) % 3 == 2 then s[k] == COLON else IsHexDigit(s[k])
  }

  /** s[w..e] is one or more pairs of hexadecimal digits with colons between them. */
  predicate HexText(s: seq<Octet>, w: nat, e: nat)
    requires e <= |s|
  {
    w <= e && (e - w) % 3 == 2 && PairRun(s, w, e)
  }

  /** The octets of the pairs that are complete at n. */
  function HexOctets(s: seq<Octet>, w: nat, n: nat): (r: seq<Octet>)
    requires w <= n <= |s|
    ensures |r| == (n - w + 1) / 3
  {
    seq((n - w + 1) / 3, k requires 0 <= k < (n - w + 1) / 3 => 16 * HexVal(s[w + 3 * k]) + HexVal(s[w + 3 * k + 1]))
  }

  function FromDecimal(r: Parsed): Body
    requires r.Ok? ==> FitsLong(r.value)
  {
    if r.Ok? then Consumed(MinimalOctets(r.value)) else if r.Range? then DecoderLimit else Broken
  }

  /** The accepted language: blanks around a decimal number or around octets in hexadecimal, or the tag
      of an enumerated item. */
  ghost function Meaning(sp: Specifics, s: seq<Octet>): Body {
    var w := LeadEnd(s, 0);
    if w == |s| then NotBody
    else if s[w] == LESS then
      var el := Named(sp, s);
      if el.Hit? then Consumed(MinimalOctets(el.entry.value)) else Broken
    else
      var e := TrailEnd(s, |s|);
      if DecimalText(s, w, e) then FromDecimal(StrtolLim(s[w..e]))
      else if HexText(s, w, e) then Consumed(HexOctets(s, w, e))
      else Broken
  }

  lemma {:induction false} LeadSame(a: seq<Octet>, b: seq<Octet>, i: nat)
    requires CaseOnly(a, b) && i <= |a|
    ensures LeadEnd(a, i) == LeadEnd(b, i)
    decreases |a| - i
  {
    hide OtherCase;
    if i < |a| {
      SameDigit(a[i], b[i]);
      LeadSame(a, b, i + 1);
    }
  }

  lemma {:induction false} TrailSame(a: seq<Octet>, b: seq<Octet>, n: nat)
    requires CaseOnly(a, b) && n <= |a|
    ensures TrailEnd(a, n) == TrailEnd(b, n)
    decreases n
  {
    hide OtherCase;
    if n > 0 {
      SameDigit(a[n - 1], b[n - 1]);
      TrailSame(a, b, n - 1);
    }
  }

  /** In a text that is no tag the case of hexadecimal digits does not matter. */
  lemma CaseDoesNotMatter(sp: Specifics, a: seq<Octet>, b: seq<Octet>)
    requires CaseOnly(a, b) && !StartsTag(a)
    ensures Meaning(sp, b) == Meaning(sp, a) && !StartsTag(b)
  {
    hide StrtolLim, CaseOnly, LeadEnd, TrailEnd, Named, DecimalText, HexText, HexOctets;
    LeadSame(a, b, 0);
    TrailSame(a, b, |a|);
    assert |a| == |b| by { SameLength(a, b); }
    var (w, e) := (LeadEnd(a, 0), TrailEnd(a, |a|));
    if w < |a| {
      assert a[w] == LESS <==> b[w] == LESS by { SameLess(a, b, w); }
      DecimalSame(a, b, w, e);
      HexSame(a, b, w, e);
    }
  }

  lemma SameLength(a: seq<Octet>, b: seq<Octet>)
    requires CaseOnly(a, b)
    ensures |a| == |b|
  {
  }

  lemma SameLess(a: seq<Octet>, b: seq<Octet>, i: nat)
    requires CaseOnly(a, b) && i < |a|
    ensures a[i] == LESS <==> b[i] == LESS
  {
    hide OtherCase;
    SameDigit(a[i], b[i]);
  }

  lemma SameAt(a: seq<Octet>, b: seq<Octet>, i: nat)
    requires CaseOnly(a, b) && i < |a|
    ensures a[i] == b[i] || (IsLetter(a[i]) && IsLetter(b[i]))
    ensures IsHexDigit(a[i]) == IsHexDigit(b[i]) && HexVal(a[i]) == HexVal(b[i])
  {
    hide OtherCase;
    SameDigit(a[i], b[i]);
  }

  lemma DecimalSame(a: seq<Octet>, b: seq<Octet>, w: nat, e: nat)
    requires CaseOnly(a, b) && w < |a| && e <= |a|
    ensures DecimalText(a, w, e) == DecimalText(b, w, e)
    ensures DecimalText(a, w, e) ==> a[w..e] == b[w..e]
  {
    hide CaseOnly;
    SameLength(a, b);
    forall i: nat | i < |a|
      ensures a[i] == b[i] || (IsLetter(a[i]) && IsLetter(b[i]))
    {
      SameAt(a, b, i);
    }
    assert forall i | 0 <= i < |a| :: IsDigit(a[i]) == IsDigit(b[i]) && IsSign(a[i]) == IsSign(b[i]);
  }

  lemma HexSame(a: seq<Octet>, b: seq<Octet>, w: nat, e: nat)
    requires CaseOnly(a, b) && w < |a| && e <= |a|
    ensures HexText(a, w, e) == HexText(b, w, e)
    ensures HexText(a, w, e) ==> HexOctets(a, w, e) == HexOctets(b, w, e)
  {
    hide CaseOnly, HexVal;
    SameLength(a, b);
    forall i: nat | i < |a|
      ensures IsHexDigit(a[i]) == IsHexDigit(b[i]) && HexVal(a[i]) == HexVal(b[i])
      ensures a[i] == COLON <==> b[i] == COLON
    {
      SameAt(a, b, i);
    }
  }

  /** The first character that is no blank begins a tag. */
  predicate StartsTag(s: seq<Octet>) {
    LeadEnd(s, 0) < |s| && s[LeadEnd(s, 0)] == LESS
  }

  // ---------------------------------------------------------------- the one-pass parser

  datatype Mode =
    | LeadSpace | SkipSpHex | WaitDigits | InDigits | DigitsTrail
    | HexDigit1 | HexDigit2 | HexTrail | HexColon | EndEnum

  /** The variables of the loop; `stored` is st->buf[..st->size]. */
  datatype Scan = Scan(mode: Mode, lp: nat, decStart: nat, decEnd: nat, hexValue: int, decValue: Long,
                       stored: seq<Octet>)

  /** One turn either goes on or ends in XPBD_BROKEN_ENCODING. */
  datatype Turned = Go(st: Scan) | Halt

  ghost function Turn(sp: Specifics, s: seq<Octet>, st: Scan): Turned
    requires st.lp < |s|
  {
    var c, on := s[st.lp], st.(lp := st.lp + 1);
    if IsSpace(c) then
      match st.mode
      case LeadSpace | DigitsTrail | HexTrail | SkipSpHex => Go(on)
      case InDigits => Go(on.(decEnd := st.lp, mode := DigitsTrail))
      case HexColon => Go(on.(mode := HexTrail))
      case _ => Halt
    else if IsSign(c) then
      if st.mode.LeadSpace? then Go(on.(decStart := st.lp, mode := WaitDigits)) else Halt
    else if IsDigit(c) then
      match st.mode
      case InDigits => Go(on)
      case SkipSpHex | HexDigit1 => Go(on.(hexValue := (c - 0x30) * 16, mode := HexDigit2))
      case HexDigit2 => Go(on.(stored := st.stored + [(st.hexValue + (c - 0x30)) % 256], mode := HexColon))
      case LeadSpace => Go(on.(decStart := st.lp, mode := InDigits))
      case WaitDigits => Go(on.(mode := InDigits))
      case _ => Halt
    else if c == LESS then
      if st.mode.LeadSpace? && Named(sp, s).Hit? then
        Go(st.(decValue := Named(sp, s).entry.value, mode := EndEnum, lp := |s|))
      else Halt
    else if c == COLON then
      if st.mode.HexColon? then Go(on.(mode := HexDigit1))
      else if st.mode.InDigits? then Go(st.(mode := SkipSpHex, decStart := 0, lp := 0))
      else Halt
    else if IsLetter(c) then
      match st.mode
      case SkipSpHex | LeadSpace | HexDigit1 => Go(on.(hexValue := HexVal(c) * 16, mode := HexDigit2))
      case HexDigit2 => Go(on.(stored := st.stored + [(st.hexValue + HexVal(c)) % 256], mode := HexColon))
      case InDigits => Go(st.(mode := SkipSpHex, decStart := 0, lp := 0))
      case _ => Halt
    else Halt
  }

  /** What every turn keeps; each mode fixes what has been read since the first character w that is no blank. */
  ghost predicate Inv(sp: Specifics, s: seq<Octet>, st: Scan) {
    var w := LeadEnd(s, 0);
    && st.lp <= |s|
    && match st.mode
       case LeadSpace => st.lp <= w && st.stored == []
       case SkipSpHex => st.lp <= w < |s| && st.stored == [] && NotDecimal(s, w) && s[w] != LESS
       case WaitDigits => st.lp == w + 1 && IsSign(s[w]) && st.decStart == w && st.stored == []
       case InDigits =>
         && w < |s| && st.decStart == w && st.stored == []
         && DigitsFrom(s, w) < st.lp && DigitRun(s, DigitsFrom(s, w), st.lp)
       case DigitsTrail =>
         && w < |s| && st.decStart == w && st.stored == []
         && DigitsFrom(s, w) < st.decEnd < st.lp && DigitRun(s, DigitsFrom(s, w), st.decEnd)
         && TrailEnd(s, st.lp) == st.decEnd
       case HexDigit1 => InHex(s, w, st.lp, st.stored) && (st.lp - w) % 3 == 0
       case HexDigit2 =>
         InHex(s, w, st.lp, st.stored) && (st.lp - w) % 3 == 1 && st.hexValue == 16 * HexVal(s[st.lp - 1])
       case HexColon => InHex(s, w, st.lp, st.stored) && (st.lp - w) % 3 == 2
       case HexTrail =>
         var m := TrailEnd(s, st.lp);
         m < st.lp && InHex(s, w, m, st.stored) && (m - w) % 3 == 2
       case EndEnum =>
         && st.lp == |s| && w < |s| && s[w] == LESS && st.stored == []
         && Named(sp, s).Hit? && st.decValue == Named(sp, s).entry.value
  }

  predicate NotDecimal(s: seq<Octet>, w: nat)
    requires w < |s|
  {
    !DecimalText(s, w, TrailEnd(s, |s|))
  }

  ghost predicate InHex(s: seq<Octet>, w: nat, n: nat, stored: seq<Octet>) {
    w < n <= |s| && PairRun(s, w, n) && stored == HexOctets(s, w, n) && NotDecimal(s, w)
  }

  /** The result once the text is used up. */
  function Finish(s: seq<Octet>, st: Scan): Body
    requires st.mode.InDigits? ==> st.decStart <= |s|
    requires st.mode.DigitsTrail? ==> st.decStart <= st.decEnd <= |s|
  {
    match st.mode
    case EndEnum => Consumed(MinimalOctets(st.decValue))
    case InDigits => FromDecimal(StrtolLim(s[st.decStart..]))
    case DigitsTrail => FromDecimal(StrtolLim(s[st.decStart..st.decEnd]))
    case HexColon | HexTrail => Consumed(st.stored)
    case LeadSpace => NotBody
    case _ => Broken
  }

  /** A restart happens at most once: the modes that can restart are never entered again. */
  function Attempts(mode: Mode): nat {
    match mode
    case LeadSpace | WaitDigits | InDigits | DigitsTrail => 1
    case _ => 0
  }

  // ---------------------------------------------------------------- turns keep the invariant

  lemma NextPair(s: seq<Octet>, w: nat, n: nat)
    requires w <= n < |s| && PairRun(s, w, n)
    requires if (n - w) % 3 == 2 then s[n] == COLON else IsHexDigit(s[n])
    ensures PairRun(s, w, n + 1)
    ensures HexOctets(s, w, n + 1)
            == HexOctets(s, w, n) + if (n - w) % 3 == 1 then [16 * HexVal(s[n - 1]) + HexVal(s[n])] else []
  {
    var q := (n - w) / 3;
    assert n == w + 3 * q + (n - w) % 3;
    assert (n - w + 1) / 3 == if (n - w) % 3 == 2 then q + 1 else q;
    assert (n + 1 - w + 1) / 3 == if (n - w) % 3 >= 1 then q + 1 else q;
  }

  /** A character that is neither a digit nor a blank inside the number makes it no decimal number. */
  lemma NotDecimalAt(s: seq<Octet>, w: nat, k: nat)
    requires w < |s| && DigitsFrom(s, w) <= k < |s| && !IsDigit(s[k]) && !IsSpace(s[k])
    ensures NotDecimal(s, w)
  {
    assert k < TrailEnd(s, |s|);
  }

  lemma TurnKeepsLead(sp: Specifics, s: seq<Octet>, st: Scan)
    requires st.lp < |s| && Inv(sp, s, st) && Turn(sp, s, st).Go? && st.mode.LeadSpace?
    ensures Inv(sp, s, Turn(sp, s, st).st)
  {
    hide HexOctets, LeadEnd, Named, NotDecimal, TrailEnd;
    var w := LeadEnd(s, 0);
    if IsSpace(s[st.lp]) {
      assert st.lp != w;
    } else {
      assert st.lp == w;
      if IsLetter(s[w]) {
        NotDecimalAt(s, w, w);
        NoOctetsYet(s, w);
        NextPair(s, w, w);
      }
    }
  }

  lemma TurnKeepsDecimal(sp: Specifics, s: seq<Octet>, st: Scan)
    requires st.lp < |s| && Inv(sp, s, st) && Turn(sp, s, st).Go? && Attempts(st.mode) == 1 && !st.mode.LeadSpace?
    ensures Inv(sp, s, Turn(sp, s, st).st)
  {
    hide HexOctets, LeadEnd, Named, NotDecimal;
    var w := LeadEnd(s, 0);
    if st.mode.InDigits? {
      if IsSpace(s[st.lp]) {
        assert IsDigit(s[st.lp - 1]);
        assert TrailEnd(s, st.lp) == st.lp && TrailEnd(s, st.lp + 1) == st.lp;
      } else if !IsDigit(s[st.lp]) {
        NotDecimalAt(s, w, st.lp);
        assert s[w] != LESS;
      }
    } else if st.mode.DigitsTrail? {
      assert TrailEnd(s, st.lp + 1) == TrailEnd(s, st.lp);
    }
  }

  lemma NoOctetsYet(s: seq<Octet>, w: nat)
    requires w <= |s|
    ensures HexOctets(s, w, w) == []
  {
  }

  /** Inside a hexadecimal number, a digit or a colon in its place. */
  lemma TurnKeepsPairs(sp: Specifics, s: seq<Octet>, st: Scan)
    requires st.lp < |s| && Inv(sp, s, st) && Turn(sp, s, st).Go? && !IsSpace(s[st.lp])
    requires st.mode.HexDigit1? || st.mode.HexDigit2? || st.mode.HexColon?
    ensures Inv(sp, s, Turn(sp, s, st).st)
  {
    hide HexOctets, LeadEnd, Named, PairRun, NotDecimal, TrailEnd;
    NextPair(s, LeadEnd(s, 0), st.lp);
    if st.mode.HexDigit2? {
      OneOctet(st.hexValue / 16, s[st.lp]);
    }
  }

  lemma OneOctet(high: nat, c: Octet)
    requires high < 16 && IsHexDigit(c)
    ensures (high * 16 + HexVal(c)) % 256 == high * 16 + HexVal(c)
    ensures IsDigit(c) ==> c - 0x30 == HexVal(c)
  {
  }

  lemma TurnKeepsHex(sp: Specifics, s: seq<Octet>, st: Scan)
    requires st.lp < |s| && Inv(sp, s, st) && Turn(sp, s, st).Go? && Attempts(st.mode) == 0
    ensures Inv(sp, s, Turn(sp, s, st).st)
  {
    hide HexOctets, LeadEnd, Named, NotDecimal, Turn, Inv;
    if st.mode.SkipSpHex? {
      TurnKeepsSkip(sp, s, st);
    } else if !IsSpace(s[st.lp]) {
      HexModes(sp, s, st);
      TurnKeepsPairs(sp, s, st);
    } else {
      TurnKeepsTrail(sp, s, st);
    }
  }

  lemma HexModes(sp: Specifics, s: seq<Octet>, st: Scan)
    requires st.lp < |s| && Inv(sp, s, st) && Turn(sp, s, st).Go? && Attempts(st.mode) == 0
    requires !st.mode.SkipSpHex? && !IsSpace(s[st.lp])
    ensures st.mode.HexDigit1? || st.mode.HexDigit2? || st.mode.HexColon?
  {
  }

  lemma TurnKeepsSkip(sp: Specifics, s: seq<Octet>, st: Scan)
    requires st.lp < |s| && Inv(sp, s, st) && Turn(sp, s, st).Go? && st.mode.SkipSpHex?
    ensures Inv(sp, s, Turn(sp, s, st).st)
  {
    hide HexOctets, LeadEnd, Named, NotDecimal;
    NoOctetsYet(s, LeadEnd(s, 0));
    if !IsSpace(s[st.lp]) {
      NextPair(s, LeadEnd(s, 0), st.lp);
    }
  }

  lemma TurnKeepsTrail(sp: Specifics, s: seq<Octet>, st: Scan)
    requires st.lp < |s| && Inv(sp, s, st) && Turn(sp, s, st).Go? && Attempts(st.mode) == 0
    requires IsSpace(s[st.lp]) && !st.mode.SkipSpHex?
    ensures Inv(sp, s, Turn(sp, s, st).st)
  {
    hide HexOctets, LeadEnd, Named, NotDecimal, TrailEnd;
    OneMoreSpace(s, st.lp + 1);
    if st.mode.HexColon? {
      HexColonEndsPair(s, LeadEnd(s, 0), st.lp);
    } else {
      assert st.mode.HexTrail?;
    }
  }

  lemma OneMoreSpace(s: seq<Octet>, n: nat)
    requires 0 < n <= |s| && IsSpace(s[n - 1])
    ensures TrailEnd(s, n) == TrailEnd(s, n - 1)
  {
  }

  lemma HexColonEndsPair(s: seq<Octet>, w: nat, n: nat)
    requires w < n <= |s| && PairRun(s, w, n) && (n - w) % 3 == 2
    ensures TrailEnd(s, n) == n
  {
    assert IsHexDigit(s[n - 1]);
  }

  // ---------------------------------------------------------------- turns that end, and the end of the text

  /** A character out of place: the text is in neither language. */
  lemma NeitherAt(s: seq<Octet>, w: nat, k: nat)
    requires w == LeadEnd(s, 0) <= k < TrailEnd(s, |s|) && s[w] != LESS && DigitsFrom(s, w) <= k && !IsDigit(s[k])
    requires if (k - w) % 3 == 2 then s[k] != COLON else !IsHexDigit(s[k])
    ensures forall sp :: Meaning(sp, s) == Broken
  {
  }

  lemma HaltFirst(sp: Specifics, s: seq<Octet>, st: Scan)
    requires st.lp < |s| && Inv(sp, s, st) && Turn(sp, s, st).Halt? && Attempts(st.mode) == 1
    ensures Meaning(sp, s) == Broken
  {
    hide HexOctets, LeadEnd, Named, StrtolLim;
    var w := LeadEnd(s, 0);
    if st.mode.LeadSpace? && s[w] != LESS {
      NeitherAt(s, w, w);
    } else if st.mode.InDigits? {
      NeitherAt(s, w, st.lp);
    } else if st.mode.DigitsTrail? {
      assert !IsSpace(s[st.lp]) && IsSpace(s[st.decEnd]);
      NeitherAt(s, w, st.decEnd);
    } else if st.mode.WaitDigits? {
      assert !IsHexDigit(s[w]);
    }
  }

  lemma HaltHex(sp: Specifics, s: seq<Octet>, st: Scan)
    requires st.lp < |s| && Inv(sp, s, st) && Turn(sp, s, st).Halt? && Attempts(st.mode) == 0
    ensures Meaning(sp, s) == Broken
  {
    hide HexOctets, LeadEnd, Named, StrtolLim, Meaning;
    if st.mode.SkipSpHex? {
      assert !IsHexDigit(s[LeadEnd(s, 0)]);
      OffPattern(sp, s, LeadEnd(s, 0));
    } else if st.mode.HexTrail? {
      HaltTrail(sp, s, st);
    } else {
      HaltPairs(sp, s, st);
    }
  }

  lemma PairsBegin(s: seq<Octet>, w: nat, n: nat)
    requires w < n <= |s| && PairRun(s, w, n)
    ensures IsHexDigit(s[w]) && s[w] != LESS
    ensures n <= TrailEnd(s, |s|)
  {
    assert (w - w) % 3 == 0;
    assert !IsSpace(s[n - 1]);
  }

  lemma HaltTrail(sp: Specifics, s: seq<Octet>, st: Scan)
    requires st.lp < |s| && Inv(sp, s, st) && Turn(sp, s, st).Halt? && st.mode.HexTrail?
    ensures Meaning(sp, s) == Broken
  {
    hide HexOctets, LeadEnd, Named, StrtolLim, Meaning;
    var k := TrailEnd(s, st.lp);
    assert IsSpace(s[k]) && !IsSpace(s[st.lp]);
    assert k < st.lp < TrailEnd(s, |s|);
    assert LeadEnd(s, 0) <= k && (k - LeadEnd(s, 0)) % 3 == 2 && NotDecimal(s, LeadEnd(s, 0));
    assert s[k] != COLON;
    PairsBegin(s, LeadEnd(s, 0), k);
    OffPattern(sp, s, k);
  }

  lemma HaltPairs(sp: Specifics, s: seq<Octet>, st: Scan)
    requires st.lp < |s| && Inv(sp, s, st) && Turn(sp, s, st).Halt?
    requires st.mode.HexDigit1? || st.mode.HexDigit2? || st.mode.HexColon?
    ensures Meaning(sp, s) == Broken
  {
    hide HexOctets, LeadEnd, Named, StrtolLim, Meaning;
    var w, k := LeadEnd(s, 0), st.lp;
    PairsBegin(s, w, k);
    OutOfTurn(sp, s, st);
    assert k < TrailEnd(s, |s|) || (k == TrailEnd(s, |s|) && IsSpace(s[k]));
    OffPattern(sp, s, k);
  }

  lemma OutOfTurn(sp: Specifics, s: seq<Octet>, st: Scan)
    requires st.lp < |s| && Inv(sp, s, st) && Turn(sp, s, st).Halt?
    requires st.mode.HexDigit1? || st.mode.HexDigit2? || st.mode.HexColon?
    ensures if (st.lp - LeadEnd(s, 0)) % 3 == 2 then s[st.lp] != COLON && !IsSpace(s[st.lp]) else !IsHexDigit(s[st.lp])
  {
    hide HexOctets, LeadEnd, Named;
  }

  /** Where a text is no decimal number, one character or the end out of turn breaks it. */
  lemma OffPattern(sp: Specifics, s: seq<Octet>, k: nat)
    requires var w := LeadEnd(s, 0); w < |s| && w <= k && NotDecimal(s, w) && s[w] != LESS
    requires var w, e := LeadEnd(s, 0), TrailEnd(s, |s|);
             if k < e then if (k - w) % 3 == 2 then s[k] != COLON else !IsHexDigit(s[k])
             else e == k && (e - w) % 3 != 2
    ensures Meaning(sp, s) == Broken
  {
    hide HexOctets, LeadEnd, Named, StrtolLim;
  }

  lemma FinishMeans(sp: Specifics, s: seq<Octet>, st: Scan)
    requires st.lp == |s| && Inv(sp, s, st)
    ensures Finish(s, st) == Meaning(sp, s)
  {
    hide HexOctets, LeadEnd, Named, StrtolLim;
    var w := LeadEnd(s, 0);
    match st.mode
    case InDigits => assert s[w..] == s[w..|s|];
    case WaitDigits => assert !IsHexDigit(s[w]);
    case _ =>
  }

  lemma TurnKeeps(sp: Specifics, s: seq<Octet>, st: Scan)
    requires st.lp < |s| && Inv(sp, s, st) && Turn(sp, s, st).Go?
    ensures Inv(sp, s, Turn(sp, s, st).st)
  {
    hide Turn, Inv;
    if st.mode.LeadSpace? {
      TurnKeepsLead(sp, s, st);
    } else if Attempts(st.mode) == 1 {
      TurnKeepsDecimal(sp, s, st);
    } else {
      TurnKeepsHex(sp, s, st);
    }
  }

  lemma HaltMeansBroken(sp: Specifics, s: seq<Octet>, st: Scan)
    requires st.lp < |s| && Inv(sp, s, st) && Turn(sp, s, st).Halt?
    ensures Meaning(sp, s) == Broken
  {
    hide Turn, Inv, Meaning;
    if Attempts(st.mode) == 1 {
      HaltFirst(sp, s, st);
    } else {
      HaltHex(sp, s, st);
    }
  }

  /** There is room in chunk_size / 3 + 2 octets for the pair being read, and for the final zero. */
  lemma RoomForPair(sp: Specifics, s: seq<Octet>, st: Scan)
    requires Inv(sp, s, st)
    ensures |st.stored| <= |s| / 3 + 1
    ensures st.mode.HexDigit2? ==> |st.stored| + 1 <= |s| / 3 + 1 || st.lp == |s|
  {
    hide LeadEnd, Named, NotDecimal, TrailEnd, PairRun;
    var n := if st.mode.HexTrail? then TrailEnd(s, st.lp) else st.lp;
    var w := LeadEnd(s, 0);
    if w <= n {
      assert (n - w + 1) / 3 <= (|s| + 1) / 3 <= |s| / 3 + 1;
    }
  }

  lemma StartsWell(sp: Specifics, s: seq<Octet>, decValue: Long)
    ensures Inv(sp, s, Scan(LeadSpace, 0, 0, 0, 0, decValue, []))
  {
  }

  lemma TagStarts(sp: Specifics, s: seq<Octet>, st: Scan)
    requires st.lp < |s| && Inv(sp, s, st) && st.mode.LeadSpace? && s[st.lp] == LESS
    ensures StartsTag(s)
  {
  }

  lemma InvAtEnd(sp: Specifics, s: seq<Octet>, st: Scan)
    requires Inv(sp, s, st)
    ensures st.mode.InDigits? ==> st.decStart <= |s|
    ensures st.mode.DigitsTrail? ==> st.decStart <= st.decEnd <= |s|
  {
  }

  lemma FinishAt(s: seq<Octet>, st: Scan)
    requires st.mode.InDigits? ==> st.decStart <= |s|
    requires st.mode.DigitsTrail? ==> st.decStart <= st.decEnd <= |s|
    ensures Finish(s, st) == Finish(s, Scan(st.mode, |s|, st.decStart, st.decEnd, 0, st.decValue, st.stored))
  {
  }
}
