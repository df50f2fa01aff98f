/** Printing an INTEGER (src/msg/INTEGER.c:108-186), and reading the printed text back. */
module IntegerDump {
  import opened Octets
  import opened IntegerValue
  import opened IntegerCodec
  import opened EnumMap
  import opened Strtol
  import opened IntegerText
  import opened IntegerXer

  /** The digits that `%lu` prints. */
  function Decimal(n: nat): (t: seq<Octet>)
    ensures t != [] && DigitRun(t, 0, |t|)
  {
    if n < 10 then [0x30 + n] else Decimal(n / 10) + [0x30 + n % 10]
  }

  /** What `%ld` prints. */
  function SignedDecimal(v: int): seq<Octet> {
    if v < 0 then [MINUS] + Decimal(-v) else Decimal(v)
  }

  function UpperHex(v: nat): (c: Octet)
    requires v < 16
    ensures IsHexDigit(c) && HexVal(c) == v
  {
    if v < 10 then 0x30 + v else 0x41 + (v - 10)
  }

  /** Two hexadecimal digits and a colon for each octet. */
  function Spelled(s: seq<Octet>): (t: seq<Octet>)
    ensures |t| == 3 * |s|
  {
    seq(3 * |s|, k requires 0 <= k < 3 * |s| =>
      if k % 3 == 2 then COLON else UpperHex(if k % 3 == 0 then s[k / 3] / 16 else s[k / 3] % 16))
  }

  /** The xx:yy:zz form. */
  function ColonHex(s: seq<Octet>): seq<Octet> {
    if s == [] then [] else Spelled(s)[..3 * |s| - 1]
  }

  /** The number that a buffer stands for in a field of this type. */
  function Number(sp: Specifics, s: seq<Octet>): int {
    if sp.unsigned then Unsigned(s) else Signed(s)
  }

  predicate FitsNative(sp: Specifics, v: int) {
    if sp.unsigned then v <= ULONG_MAX else FitsLong(v)
  }

  /** The XER text of a buffer. */
  ghost function Rendered(sp: Specifics, s: seq<Octet>): Printed {
    var v := Number(sp, s);
    if FitsNative(sp, v) then
      if v <= LONG_MAX && ByValue(sp, v).Hit? then Printed(Tag(ByValue(sp, v).entry))
      else if sp.strict then Unprintable
      else Printed(SignedDecimal(v))
    else if sp.strict then Unprintable
    else Printed(ColonHex(s))
  }

  // ---------------------------------------------------------------- INTEGER__dump

  /** INTEGER__dump for XER; the texts handed to the callback, one after the other. */
  method Dump(sp: Specifics, st: Integer) returns (r: Printed)
    requires WellFormed(sp) && st.Valid() && st.buf != null
    ensures r == Rendered(sp, st.Contents())
  {
    hide WellFormed, Unsigned, Signed, ByValue, Decimal;
    var ret: Conversion;
    if sp.unsigned {
      ret := st.ToUlong();
    } else {
      ret := st.ToLong();
    }
    if ret.Value? {
      var el := Missing;
      if ret.value <= LONG_MAX {
        el := ValueToEnum(sp, ret.value);
      }
      if el.Hit? {
        return Printed([LESS] + el.entry.name + [SLASH, GREATER]);
      } else if sp.strict {
        return Unprintable;
      }
      var scr := SignedDecimal(ret.value);
      FitsScratch(ret.value);
      assert 0 < |scr| < 32;
      return Printed(scr);
    } else if sp.strict {
      return Unprintable;
    }
    var out := DumpHex(st);
    return Printed(out);
  }

  lemma FitsScratch(v: int)
    requires LONG_MIN <= v <= ULONG_MAX
    ensures 0 < |SignedDecimal(v)| < 32
  {
    assert Pow10(4) == 1_0000;
    assert Pow10(8) == 1_0000_0000;
    assert Pow10(12) == 1_0000_0000_0000;
    assert Pow10(16) == 1_0000_0000_0000_0000;
    DecimalLength(if v < 0 then -v else v, 20);
  }

  function Pow10(k: nat): nat {
    if k == 0 then 1 else 10 * Pow10(k - 1)
  }

  lemma {:induction false} DecimalLength(n: nat, k: nat)
    requires 0 < k && n < Pow10(k)
    ensures |Decimal(n)| <= k
    decreases k
  {
    if n >= 10 {
      DecimalLength(n / 10, k - 1);
    }
  }

  /** The long form goes through a scratch buffer of 32 characters that is flushed when nearly full. */
  method DumpHex(st: Integer) returns (out: seq<Octet>)
    requires st.Valid() && st.buf != null
    ensures out == ColonHex(st.Contents())
  {
    hide Spelled, UpperHex;
    ghost var s := st.Contents();
    var scratch := new Octet[32];
    var b, p := 0, 0;
    out := [];
    while b < st.size
      invariant b <= st.size && p <= 30
      invariant out + scratch[..p] == Spelled(s[..b])
      invariant b > 0 ==> p > 0
    {
      if p >= 32 - 4 {
        out := out + scratch[..p];
        p := 0;
      }
      ghost var done := scratch[..p];
      scratch[p], scratch[p + 1], scratch[p + 2] := UpperHex(st.buf[b] / 16), UpperHex(st.buf[b] % 16), COLON;
      assert scratch[..p + 3] == done + [scratch[p], scratch[p + 1], scratch[p + 2]];
      SpelledOneMore(s, b);
      b, p := b + 1, p + 3;
    }
    assert s[..b] == s;
    if p != 0 {
      assert out + scratch[..p - 1] == (out + scratch[..p])[..3 * b - 1];
      p := p - 1;
    }
    out := out + scratch[..p];
  }

  lemma SpelledOneMore(s: seq<Octet>, b: nat)
    requires b < |s|
    ensures Spelled(s[..b + 1]) == Spelled(s[..b]) + [UpperHex(s[b] / 16), UpperHex(s[b] % 16), COLON]
  {
  }

  /** Nothing is printed exactly for a strict enumeration and a number that none of its items has; the tag of an item
      exactly for the number that it has. */
  lemma PrintedExactly(sp: Specifics, s: seq<Octet>)
    ensures var (v, r) := (Number(sp, s), Rendered(sp, s));
            && (r.Unprintable? <==> sp.strict && !(FitsLong(v) && HasValue(sp, v)))
            && (r.Printed? && r.text != [] && r.text[0] == LESS <==> FitsLong(v) && HasValue(sp, v))
  {
    hide Unsigned, Signed, ColonHex, Decimal;
    var v := Number(sp, s);
    if FitsNative(sp, v) {
      var t := SignedDecimal(v);
      assert DigitRun(t, AfterSign(t), |t|) && AfterSign(t) < |t|;
      UnsignedIsNatural(sp, s);
    } else {
      LongFormIsLong(sp, s);
      ColonHexIsHex(s);
    }
  }

  lemma UnsignedIsNatural(sp: Specifics, s: seq<Octet>)
    ensures sp.unsigned ==> Number(sp, s) >= 0
  {
  }

  // ---------------------------------------------------------------- reading it back

  lemma {:induction false} DecimalMagnitude(n: nat)
    ensures Magnitude(Decimal(n)) == n
  {
    var t := Decimal(n);
    if n < 10 {
      assert t[..0] == [];
    } else {
      DecimalMagnitude(n / 10);
      assert t[..|t| - 1] == Decimal(n / 10);
    }
  }

  /** A text of digits in range is read exactly. */
  lemma ReadsDecimal(v: int)
    ensures FitsLong(v) ==> StrtolLim(SignedDecimal(v)) == Ok(|SignedDecimal(v)|, v)
    ensures v > LONG_MAX ==> StrtolLim(SignedDecimal(v)).Range?
  {
    hide StrtolLim, Magnitude, Decimal;
    var s := SignedDecimal(v);
    var m := if v < 0 then -v else v;
    DecimalMagnitude(m);
    var p := AfterSign(s);
    assert s[p..|s|] == Decimal(m);
    assert DigitRun(s, p, |s|);
    assert DigitsEnd(s, p) == |s|;
    ExactUnlessItFlips(s);
    if FitsLong(v) && v < 0 {
      NoFlipInRange(s);
    }
  }

  lemma NoFlipInRange(s: seq<Octet>)
    requires s != [] && DigitRun(s, 1, |s|) && Magnitude(s[1..|s|]) <= LONG_MAX + 1
    ensures !FlipsFrom(s, 1, 1)
  {
    hide Magnitude;
    forall j | 1 <= j && j + 1 < |s|
      ensures !FlipAt(s, 1, j)
    {
      if Magnitude(s[1..j]) == UPPER_BOUNDARY {
        OneMoreDigit(s, 1, j);
        OneMoreDigit(s, 1, j + 1);
        MagnitudeGrows(s, 1, j + 2, |s|);
      }
    }
  }

  /** The number that an optional sign and digits stand for. */
  function NumberOf(t: seq<Octet>): int {
    var m := Magnitude(t[AfterSign(t)..]);
    if t != [] && t[0] == MINUS then -m else m
  }

  /** A decimal text with blanks around it is accepted exactly if its number fits a long, which is then stored in its
      minimal octets, unless the number makes the decimal reader flip its sign with a digit to come. */
  lemma DecimalTextMeans(sp: Specifics, s: seq<Octet>)
    requires var w := LeadEnd(s, 0); w < |s| && DecimalText(s, w, TrailEnd(s, |s|))
    requires !Flips(s[LeadEnd(s, 0)..TrailEnd(s, |s|)])
    ensures var v := NumberOf(s[LeadEnd(s, 0)..TrailEnd(s, |s|)]);
            Meaning(sp, s) == if FitsLong(v) then Consumed(MinimalOctets(v)) else DecoderLimit
  {
    hide StrtolLim, Exact, NumberOf, MinimalOctets, LeadEnd, TrailEnd, HexOctets, Flips;
    var w, e := LeadEnd(s, 0), TrailEnd(s, |s|);
    var t := s[w..e];
    ExactUnlessItFlips(t);
    assert DigitRun(t, AfterSign(t), |t|) && AfterSign(t) < |t|;
    ExactOfDigits(t);
  }

  lemma ExactOfDigits(t: seq<Octet>)
    requires AfterSign(t) < |t| && DigitRun(t, AfterSign(t), |t|)
    ensures if FitsLong(NumberOf(t)) then Exact(t) == Ok(|t|, NumberOf(t)) else Exact(t).Range?
  {
    hide Magnitude;
    assert DigitsEnd(t, AfterSign(t)) == |t|;
    assert t[AfterSign(t)..|t|] == t[AfterSign(t)..];
    NotBelowZero(t, AfterSign(t));
  }

  lemma NotBelowZero(t: seq<Octet>, p: nat)
    requires p <= |t| && DigitRun(t, p, |t|)
    ensures Magnitude(t[p..|t|]) >= 0
  {
    NoDigitsYet(t, p);
    MagnitudeGrows(t, p, p, |t|);
  }

  /** The text that the decimal reader takes for 0 is accepted as 0. */
  lemma FlippedTextAccepted(sp: Specifics, s: seq<Octet>)
    requires IsFlippedExample(s)
    ensures Meaning(sp, s) == Consumed(MinimalOctets(0))
  {
    hide StrtolLim, MinimalOctets;
    FlippedExample(s);
    NoBlanksAround(s);
    assert s[0..|s|] == s;
    assert DecimalText(s, 0, |s|);
  }

  lemma NoBlanksAround(t: seq<Octet>)
    requires t != [] && !IsSpace(t[0]) && !IsSpace(t[|t| - 1])
    ensures LeadEnd(t, 0) == 0 && TrailEnd(t, |t|) == |t|
  {
  }

  lemma DecimalMeans(sp: Specifics, v: int)
    ensures FitsLong(v) ==> Meaning(sp, SignedDecimal(v)) == Consumed(MinimalOctets(v))
    ensures v > LONG_MAX ==> Meaning(sp, SignedDecimal(v)) == DecoderLimit
  {
    hide StrtolLim, Decimal, MinimalOctets;
    var t := SignedDecimal(v);
    var p := AfterSign(t);
    assert DigitRun(t, p, |t|) && p < |t|;
    NoBlanksAround(t);
    assert t[0..|t|] == t;
    ReadsDecimal(v);
  }

  lemma ColonHexAt(s: seq<Octet>, k: nat)
    requires k < 3 * |s| - 1
    ensures ColonHex(s)[k]
            == if k % 3 == 2 then COLON else UpperHex(if k % 3 == 0 then s[k / 3] / 16 else s[k / 3] % 16)
  {
  }

  lemma ColonHexIsHex(s: seq<Octet>)
    requires s != []
    ensures var t := ColonHex(s);
            |t| == 3 * |s| - 1 && HexText(t, 0, |t|) && IsHexDigit(t[0]) && IsHexDigit(t[|t| - 1])
  {
    hide Spelled;
    var t := ColonHex(s);
    forall k | 0 <= k < |t|
      ensures if (k - 0) % 3 == 2 then t[k] == COLON else IsHexDigit(t[k])
    {
      ColonHexAt(s, k);
    }
    assert (3 * (|s| - 1) + 2) % 3 == 2 && (3 * (|s| - 1) + 1) % 3 == 1;
  }

  lemma ColonHexOctets(s: seq<Octet>)
    requires s != []
    ensures HexOctets(ColonHex(s), 0, 3 * |s| - 1) == s
  {
    hide Spelled, UpperHex, ColonHex;
    ColonHexIsHex(s);
    var t := ColonHex(s);
    assert (|t| - 0 + 1) / 3 == |s|;
    forall k | 0 <= k < |s|
      ensures HexOctets(t, 0, |t|)[k] == s[k]
    {
      ColonHexAt(s, 3 * k);
      ColonHexAt(s, 3 * k + 1);
      assert (3 * k) % 3 == 0 && (3 * k) / 3 == k && (3 * k + 1) % 3 == 1 && (3 * k + 1) / 3 == k;
      assert t[3 * k] == UpperHex(s[k] / 16) && t[3 * k + 1] == UpperHex(s[k] % 16);
    }
  }

  lemma ColonHexMeans(sp: Specifics, s: seq<Octet>)
    requires |s| >= 2
    ensures Meaning(sp, ColonHex(s)) == Consumed(s)
  {
    hide StrtolLim, ColonHex, HexOctets, PairRun, LeadEnd, TrailEnd;
    var t := ColonHex(s);
    ColonHexIsHex(s);
    NoBlanksAround(t);
    ColonHexAt(s, 2);
    assert t[2] == COLON && !IsDigit(t[2]);
    ColonHexOctets(s);
  }

  /** The long form with any of its digits in lower case. */
  lemma AnyCaseMeans(sp: Specifics, s: seq<Octet>, t: seq<Octet>)
    requires |s| >= 2 && CaseOnly(ColonHex(s), t)
    ensures Meaning(sp, t) == Consumed(s)
  {
    hide Meaning, ColonHex, OtherCase;
    ColonHexMeans(sp, s);
    ColonHexIsHex(s);
    NoBlanksAround(ColonHex(s));
    CaseDoesNotMatter(sp, ColonHex(s), t);
  }

  lemma TagMeans(sp: Specifics, v: Long)
    requires WellFormed(sp) && ByValue(sp, v).Hit? && TagSafe(ByValue(sp, v).entry.name)
    ensures Meaning(sp, Tag(ByValue(sp, v).entry)) == Consumed(MinimalOctets(v))
  {
    hide WellFormed, Named, MinimalOctets;
    TagNamesItsItem(sp, v);
    assert LeadEnd(Tag(ByValue(sp, v).entry), 0) == 0;
  }

  /** A buffer whose number does not fit is longer than a long. */
  lemma LongFormIsLong(sp: Specifics, s: seq<Octet>)
    requires !FitsNative(sp, Number(sp, s))
    ensures |s| > LONG_SIZE
  {
    if s != [] && |s| <= LONG_SIZE {
      ShortFits(s);
      ShortUnsigned(s);
    }
  }

  lemma MinimalNumber(sp: Specifics, v: Long)
    requires sp.unsigned ==> v >= 0
    ensures Number(sp, MinimalOctets(v)) == v
  {
    hide Unsigned, Pow256;
    HeadBounds(MinimalOctets(v));
  }

  /** Whatever is printed for a buffer of any length reads back as the same number, and the long form as the
      same octets; but an unsigned number above LONG_MAX is printed in decimal and then refused. */
  lemma PrintedReadsBack(sp: Specifics, s: seq<Octet>)
    requires WellFormed(sp) && (forall e <- sp.value2enum :: TagSafe(e.name)) && Rendered(sp, s).Printed?
    ensures var r, v := Meaning(sp, Rendered(sp, s).text), Number(sp, s);
            && (r.Consumed? <==> !(sp.unsigned && LONG_MAX < v <= ULONG_MAX))
            && (r.Consumed? ==> Number(sp, r.octets) == v)
            && (!FitsNative(sp, v) ==> r == Consumed(s))
            && (!r.Consumed? ==> r == DecoderLimit)
  {
    hide WellFormed, Meaning, Unsigned, Signed, MinimalOctets, ByValue, SignedDecimal, ColonHex, Tag;
    var v := Number(sp, s);
    if FitsNative(sp, v) {
      if v <= LONG_MAX {
        MinimalNumber(sp, v);
        if ByValue(sp, v).Hit? {
          TagMeans(sp, v);
        }
      }
      DecimalMeans(sp, v);
    } else {
      LongFormIsLong(sp, s);
      ColonHexMeans(sp, s);
    }
  }

  lemma NoZeroPrinted(sp: Specifics, s: seq<Octet>)
    requires WellFormed(sp) && Rendered(sp, s).Printed?
    ensures 0 !in Rendered(sp, s).text
  {
    hide NamesSorted, Unsigned, Signed;
    var v := Number(sp, s);
    if FitsNative(sp, v) {
      assert DigitRun(SignedDecimal(v), AfterSign(SignedDecimal(v)), |SignedDecimal(v)|);
    }
  }

  lemma PrintedIsReadable(sp: Specifics, s: seq<Octet>)
    requires WellFormed(sp) && Rendered(sp, s).Printed?
    ensures var t := Rendered(sp, s).text; t != [] && Readable(sp, t)
  {
    hide WellFormed, Number, Decimal, NameEnd;
    NoZeroPrinted(sp, s);
    var t := Rendered(sp, s).text;
    PrintedIsText(sp, s);
    assert forall k | 0 <= k < |t| :: t[k] in t;
    NoZeroIsReadable(sp, t);
  }

  lemma PrintedIsText(sp: Specifics, s: seq<Octet>)
    requires Rendered(sp, s).Printed?
    ensures Rendered(sp, s).text != []
  {
    hide Unsigned, Signed;
    if !FitsNative(sp, Number(sp, s)) {
      LongFormIsLong(sp, s);
    }
  }

  /** Print and parse by the two methods of the codec. */
  method PrintThenParse(sp: Specifics, st: Integer) returns (printed: Printed, read: IntegerText.Body)
    requires WellFormed(sp) && (forall e <- sp.value2enum :: TagSafe(e.name)) && st.Valid() && st.buf != null
    ensures printed.Printed? && !(sp.unsigned && LONG_MAX < Number(sp, st.Contents()) <= ULONG_MAX)
            ==> read.Consumed? && Number(sp, read.octets) == Number(sp, st.Contents())
  {
    hide WellFormed, Meaning, Number;
    printed := Dump(sp, st);
    if printed.Unprintable? {
      return printed, NotBody;
    }
    PrintedReadsBack(sp, st.Contents());
    PrintedIsReadable(sp, st.Contents());
    read := XerBodyDecode(sp, printed.text);
  }
}
