/** INTEGER_t and its conversions to and from the machine's long and unsigned long. */
module IntegerCodec {
  import opened Octets
  import opened IntegerValue
  import opened BerTlv

  const LONG_MIN := -0x8000_0000_0000_0000
  const LONG_MAX := 0x7fff_ffff_ffff_ffff
  const ULONG_MAX := 0xffff_ffff_ffff_ffff
  const LONG_SIZE := 8

  type Long = x: int | LONG_MIN <= x <= LONG_MAX
  type Ulong = x: int | 0 <= x <= ULONG_MAX

  predicate FitsLong(v: int) {
    LONG_MIN <= v <= LONG_MAX
  }

  /** The unsigned long with the same bits. */
  function AsUnsigned(v: Long): Ulong {
    if v < 0 then v + ULONG_MAX + 1 else v
  }

  /** What is left of v in a long, and in an unsigned long. */
  function WrapLong(v: int): Long {
    (v - LONG_MIN) % (ULONG_MAX + 1) + LONG_MIN
  }

  function WrapUlong(v: int): Ulong {
    v % (ULONG_MAX + 1)
  }

  /** EINVAL, ERANGE, or the value stored through the result pointer. */
  datatype Conversion = Invalid | OutOfRange | Value(value: int)

  /** The octets that represent a long, most significant first. */
  function LongOctets(v: Long): seq<Octet> {
    Digits(AsUnsigned(v), LONG_SIZE)
  }

  // ---------------------------------------------------------------- ranges

  lemma Pow256Constants()
    ensures Pow256(0) == 1
    ensures Pow256(6) == 0x1_0000_0000_0000
    ensures Pow256(7) == 0x100_0000_0000_0000
    ensures Pow256(8) == ULONG_MAX + 1
  {
    assert Pow256(2) == 0x1_0000;
    assert Pow256(4) == 0x1_0000_0000;
  }

  /** A number fits a long exactly when its canonical form has at most eight octets. */
  lemma FitsWhenShort(s: seq<Octet>)
    requires s != []
    ensures FitsLong(Signed(s)) <==> |Strip(s)| <= LONG_SIZE
  {
    hide Unsigned, Pow256, Strip;
    var c := Strip(s);
    StripKeepsValue(s);
    Pow256Constants();
    if |c| <= LONG_SIZE {
      SignedBound(c);
      Pow256Grows(|c| - 1, 7);
    } else {
      CanonicalIsLarge(c);
      Pow256Grows(7, |c| - 2);
    }
  }

  /** Eight octets or fewer always fit, whether canonical or not. */
  lemma ShortFits(s: seq<Octet>)
    requires 0 < |s| <= LONG_SIZE
    ensures FitsLong(Signed(s))
  {
    FitsWhenShort(s);
  }

  /** The first i octets read with the sign of the whole; before the first octet only the sign is known. */
  function SignedPrefix(s: seq<Octet>, i: nat): int
    requires s != [] && i <= |s|
  {
    if i > 0 then Signed(s[..i]) else if s[0] >= 128 then -1 else 0
  }

  /** One turn of the conversion engine loses no bits. */
  lemma ShiftInSigned(s: seq<Octet>, i: nat)
    requires i < |s| <= LONG_SIZE
    ensures FitsLong(SignedPrefix(s, i) * 256)
    ensures WrapLong(SignedPrefix(s, i) * 256) + s[i] == SignedPrefix(s, i + 1) && FitsLong(SignedPrefix(s, i + 1))
  {
    hide Unsigned, Pow256;
    var next := s[..i + 1];
    assert next[..i] == s[..i];
    ShortFits(next);
    UnsignedTail(next);
    Pow256Step(i);
    if i == 0 {
      assert s[..0] == [];
      EmptyReading();
      Pow256Constants();
    } else {
      SignedBound(s[..i]);
      Pow256Constants();
      Pow256Grows(i - 1, 6);
    }
  }

  lemma EmptyReading()
    ensures Unsigned([]) == Signed([]) == 0
  {
  }

  lemma UnsignedTail(s: seq<Octet>)
    requires s != []
    ensures Unsigned(s) == Unsigned(s[..|s| - 1]) * 256 + s[|s| - 1]
  {
  }

  /** One turn of the unsigned engine. */
  lemma ShiftInUnsigned(s: seq<Octet>, i: nat)
    requires i < |s| <= LONG_SIZE
    ensures Unsigned(s[..i]) * 256 <= ULONG_MAX && Unsigned(s[..i]) * 256 + s[i] == Unsigned(s[..i + 1]) <= ULONG_MAX
  {
    hide Unsigned, Pow256;
    var next := s[..i + 1];
    assert next[..i] == s[..i];
    UnsignedTail(next);
    UnsignedBound(next);
    Pow256Constants();
    Pow256Grows(i + 1, 8);
  }

  lemma LeadingZero(s: seq<Octet>)
    requires |s| > LONG_SIZE
    ensures s[0] == 0 ==> Unsigned(s) == Unsigned(s[1..])
    ensures s[0] != 0 ==> Unsigned(s) > ULONG_MAX
  {
    hide Unsigned, Pow256;
    UnsignedHead(s);
    HeadBounds(s);
    Pow256Constants();
    Pow256Grows(8, |s| - 1);
  }

  // ---------------------------------------------------------------- octets of a long

  lemma {:induction false} DigitAt(u: nat, n: nat, i: nat)
    requires i < n
    ensures Digits(u, n)[i] == Shr8(u, n - 1 - i) % 256
    decreases n
  {
    if i < n - 1 {
      DigitAt(u / 256, n - 1, i);
    }
  }

  lemma HeadDigit(u: Ulong)
    ensures Digits(u, LONG_SIZE)[0] >= 128 <==> u > LONG_MAX
  {
    hide Digits, Unsigned, Pow256;
    Pow256Constants();
    DigitsValue(u, LONG_SIZE);
    HeadBounds(Digits(u, LONG_SIZE));
  }

  lemma LongOctetsMean(v: Long)
    ensures |LongOctets(v)| == LONG_SIZE && Signed(LongOctets(v)) == v
  {
    hide Digits, Unsigned, Pow256;
    Pow256Constants();
    DigitsValue(AsUnsigned(v), LONG_SIZE);
    HeadDigit(AsUnsigned(v));
  }

  /** The minimal octets of a long: what every encoder in this module produces for it. */
  function MinimalOctets(v: Long): (r: seq<Octet>)
    ensures r != [] && |r| <= LONG_SIZE && Canonical(r) && Signed(r) == v
  {
    LongOctetsMean(v);
    StripKeepsValue(LongOctets(v));
    Strip(LongOctets(v))
  }

  /** They are the only minimal octets for it. */
  lemma MinimalOctetsAreUnique(v: Long, s: seq<Octet>)
    requires s != [] && Canonical(s) && Signed(s) == v
    ensures s == MinimalOctets(v)
  {
    CanonicalIsUnique(s, MinimalOctets(v));
  }

  /** Stripping the octets of an unsigned long keeps its value exactly below 0xff80_0000_0000_0000:
      from there on a leading 0xff is taken for a sign extension. */
  lemma UnsignedSurvivesStripping(u: Ulong)
    ensures Unsigned(Strip(Digits(u, LONG_SIZE))) == u <==> u < 0xff80_0000_0000_0000
  {
    hide Digits, Unsigned, Pow256, Strip;
    var s := Digits(u, LONG_SIZE);
    Pow256Constants();
    DigitsValue(u, LONG_SIZE);
    HeadBounds(s);
    UnsignedHead(s);
    HeadBounds(s[1..]);
    if s[0] < 128 {
      StripKeepsValue(s);
    } else if Redundant(s) {
      StripShortens(s);
      UnsignedBound(Strip(s));
      Pow256Grows(|Strip(s)|, 7);
    } else {
      StripKeepsAll(s);
    }
  }

  lemma StripShortens(s: seq<Octet>)
    requires Redundant(s)
    ensures |Strip(s)| < |s|
  {
  }

  lemma StripDropsOne(s: seq<Octet>)
    requires Redundant(s)
    ensures Strip(s[1..]) == Strip(s)
  {
  }

  lemma StripKeepsAll(s: seq<Octet>)
    requires Canonical(s)
    ensures Strip(s) == s
  {
  }

  // ---------------------------------------------------------------- tag and length of a primitive element

  datatype Header = HeaderBad | HeaderMore | HeaderOk(used: nat, length: nat)

  /** ber_check_tags for one tag that must be in primitive form. */
  function CheckTag(tag: int, input: seq<Octet>): (r: Header)
    ensures r.HeaderOk? ==> r.used <= |input|
  {
    match FetchTag(input)
    case Bad => HeaderBad
    case Starved => HeaderMore
    case Got(tl, value) =>
      if value != tag || IsConstructed(input[0]) then HeaderBad
      else
        match FetchLength(false, input[tl..])
        case Bad => HeaderBad
        case Starved => HeaderMore
        case Got(ll, len) =>
          if len + tl + ll >= SSIZE_LIMIT then HeaderBad else HeaderOk(tl + ll, len)
  }

  /** RC_FAIL, RC_WMORE, or RC_OK with the octets consumed and the contents octets. */
  datatype Element = ElementBad | ElementMore | Element(used: nat, contents: seq<Octet>)

  function ReadElement(tag: int, input: seq<Octet>): Element {
    match CheckTag(tag, input)
    case HeaderBad => ElementBad
    case HeaderMore => ElementMore
    case HeaderOk(used, length) =>
      if length > |input| - used then ElementMore
      else Element(used + length, input[used..used + length])
  }

  const INT_LIMIT := 0x8000_0000

  /** The input begins with a primitive element of that tag: identifier octets up to k, length octets up to m, in any
      form, and the contents. */
  predicate HasElementAt(input: seq<Octet>, k: nat, m: nat, tag: nat, used: nat, contents: seq<Octet>)
    requires 0 < k <= m <= |input|
  {
    && IsIdentifier(input[..k], tag % 4, false, tag / 4) && IsLength(input[k..m], false, |contents|)
    && used == m + |contents| <= |input| && contents == input[m..used]
  }

  predicate HasElement(input: seq<Octet>, tag: nat, used: nat, contents: seq<Octet>) {
    exists k, m | 0 < k <= m <= |input| :: HasElementAt(input, k, m, tag, used, contents)
  }

  /** The element that is found is exactly the one that the input begins with, in any of the forms of its octets. */
  lemma ElementExactly(tag: nat, input: seq<Octet>, used: nat, contents: seq<Octet>)
    requires tag < 0x1_0000_0000 && |input| < SSIZE_LIMIT
    ensures ReadElement(tag, input) == Element(used, contents) <==> HasElement(input, tag, used, contents)
  {
    hide FetchTag, FetchLength, IsIdentifier, IsLength, IsConstructed, HasElementAt;
    if ReadElement(tag, input) == Element(used, contents) {
      ElementIsThere(tag, input, used, contents);
    }
    if HasElement(input, tag, used, contents) {
      var k, m :| 0 < k <= m <= |input| && HasElementAt(input, k, m, tag, used, contents);
      ElementIsFound(tag, input, k, m, used, contents);
    }
  }

  lemma ElementIsThere(tag: nat, input: seq<Octet>, used: nat, contents: seq<Octet>)
    requires ReadElement(tag, input) == Element(used, contents)
    ensures HasElement(input, tag, used, contents)
  {
    hide FetchTag, FetchLength, IsIdentifier, IsLength, IsConstructed;
    var k := FetchTag(input).used;
    var l := FetchLength(false, input[k..]);
    TagOctetsSuffice(input);
    assert input[..k][0] == input[0];
    TagExactly(input[..k], tag, false);
    LengthOctetsSuffice(false, input[k..]);
    assert input[k..][..l.used] == input[k..k + l.used];
    LengthExactly(false, input[k..k + l.used], l.value);
    assert HasElementAt(input, k, k + l.used, tag, used, contents);
  }

  lemma ElementIsFound(tag: nat, input: seq<Octet>, k: nat, m: nat, used: nat, contents: seq<Octet>)
    requires tag < 0x1_0000_0000 && |input| < SSIZE_LIMIT
    requires 0 < k <= m <= |input| && HasElementAt(input, k, m, tag, used, contents)
    ensures ReadElement(tag, input) == Element(used, contents)
  {
    hide FetchTag, FetchLength, IsIdentifier, IsLength, IsConstructed;
    TagExactly(input[..k], tag, false);
    FetchTagStable(input[..k], input);
    assert input[..k][0] == input[0];
    LengthExactly(false, input[k..m], |contents|);
    FetchLengthStable(false, input[k..m], input[k..]);
  }

  /** An element of another tag, or in constructed form, is refused as soon as its identifier octets are there. */
  lemma OtherElementsRefused(tag: nat, other: nat, constructed: bool, id: seq<Octet>, rest: seq<Octet>)
    requires other < 0x1_0000_0000 && IsIdentifier(id, other % 4, constructed, other / 4)
    requires other != tag || constructed
    ensures ReadElement(tag, id + rest) == ElementBad
  {
    hide FetchTag, FetchLength, IsIdentifier, IsConstructed;
    TagExactly(id, other, constructed);
    FetchTagStable(id, id + rest);
  }

  /** A proper part of an element in full makes the decoder want more. */
  lemma PartOfElement(tag: nat, input: seq<Octet>, n: nat)
    requires ReadElement(tag, input).Element? && n < ReadElement(tag, input).used
    ensures ReadElement(tag, input[..n]) == ElementMore
  {
    hide FetchTag, FetchLength, IsConstructed;
    var (t, k) := (FetchTag(input[..n]), FetchTag(input).used);
    if !t.Starved? {
      FetchTagStable(input[..n], input);
      assert input[..n][0] == input[0];
      assert input[..n][k..] <= input[k..];
      FetchLengthStable(false, input[..n][k..], input[k..]);
    }
  }

  /** der_write_tags and the contents: a DER encoding in which the decoder finds the contents again, whatever follows,
      but not when it looks for another tag, and for which it waits as long as any of it is missing. */
  method WriteElement(tag: nat, contents: seq<Octet>) returns (out: seq<Octet>)
    requires tag < 0x1_0000_0000 && |contents| < INT_LIMIT
    ensures IsDer(out, tag, contents)
    ensures forall rest :: ReadElement(tag, out + rest) == Element(|out|, contents)
    ensures forall other: nat, rest | other != tag :: ReadElement(other, out + rest) == ElementBad
    ensures forall n: nat | n < |out| :: ReadElement(tag, out[..n]) == ElementMore
  {
    hide FetchTag, FetchLength, IsIdentifier, IsLength, IsDer, ReadElement;
    var t := SerializeTag(tag);
    var l := SerializeLength(|contents|);
    out := t + l + contents;
    DerJoins(t, l, tag, contents);
    WrittenIsFound(t, l, tag, contents);
    WrittenIsNoOther(t, l, tag, contents);
    WrittenInPart(tag, out, contents);
  }

  lemma WrittenIsFound(t: seq<Octet>, l: seq<Octet>, tag: nat, contents: seq<Octet>)
    requires FetchTag(t) == Got(|t|, tag) && t != [] && !IsConstructed(t[0]) && |t| <= 6 && |l| <= 9
    requires FetchLength(false, l) == Got(|l|, |contents|) && |contents| < INT_LIMIT
    ensures forall rest :: ReadElement(tag, t + l + contents + rest) == Element(|t + l + contents|, contents)
  {
    hide FetchTag, FetchLength, IsConstructed;
    forall rest
      ensures ReadElement(tag, t + l + contents + rest) == Element(|t + l + contents|, contents)
    {
      var input := t + l + contents + rest;
      assert input == t + (l + contents + rest);
      FetchTagStable(t, input);
      assert input[|t|..] == l + (contents + rest);
      FetchLengthStable(false, l, input[|t|..]);
      assert input[|t| + |l|..|t + l + contents|] == contents;
    }
  }

  lemma WrittenIsNoOther(t: seq<Octet>, l: seq<Octet>, tag: nat, contents: seq<Octet>)
    requires tag < 0x1_0000_0000 && IsIdentifier(t, tag % 4, false, tag / 4)
    ensures forall other: nat, rest | other != tag :: ReadElement(other, t + l + contents + rest) == ElementBad
  {
    hide ReadElement, IsIdentifier;
    forall other: nat, rest | other != tag
      ensures ReadElement(other, t + l + contents + rest) == ElementBad
    {
      OtherElementsRefused(other, tag, false, t, l + contents + rest);
      assert t + l + contents + rest == t + (l + contents + rest);
    }
  }

  lemma WrittenInPart(tag: nat, out: seq<Octet>, contents: seq<Octet>)
    requires forall rest :: ReadElement(tag, out + rest) == Element(|out|, contents)
    ensures forall n: nat | n < |out| :: ReadElement(tag, out[..n]) == ElementMore
  {
    hide ReadElement;
    assert out + [] == out && ReadElement(tag, out + []) == Element(|out|, contents);
    forall n: nat | n < |out|
      ensures ReadElement(tag, out[..n]) == ElementMore
    {
      PartOfElement(tag, out, n);
    }
  }

  /** `for(; nb < end; nb++, buf++) *nb = *buf;` */
  method CopyDown(a: array<Octet>, shift: nat, n: nat)
    requires shift + n <= a.Length
    modifies a
    ensures a[..n] == old(a[shift..shift + n])
  {
    ghost var was := a[..];
    var nb := 0;
    while nb < n
      invariant nb <= n
      invariant a[..nb] == was[shift..shift + nb]
      invariant a[nb..] == was[nb..]
    {
      assert a[nb..][shift] == was[nb..][shift];
      a[nb] := a[nb + shift];
      nb := nb + 1;
    }
  }

  // ---------------------------------------------------------------- INTEGER_t

  class Integer {
    var buf: array?<Octet>
    var size: nat

    ghost predicate Valid()
      reads this
    {
      size <= if buf == null then 0 else buf.Length
    }

    function Contents(): (s: seq<Octet>)
      requires Valid()
      reads this, buf
      ensures |s| == size
    {
      if buf == null then [] else buf[..size]
    }

    constructor ()
      ensures Valid() && buf == null
    {
      buf, size := null, 0;
    }

    /** The canonicalisation at the head of INTEGER_encode_der, in place. */
    method Canonicalize()
      requires Valid()
      modifies this`size, buf
      ensures Valid() && Contents() == Strip(old(Contents()))
    {
      if buf != null {
        ghost var s := Contents();
        var shift := 0;
        while shift < size - 1
          invariant shift == 0 || shift < size
          invariant Strip(s[shift..]) == Strip(s)
          decreases size - shift
        {
          if (buf[shift] == 0x00 && buf[shift + 1] < 128) || (buf[shift] == 0xff && buf[shift + 1] >= 128) {
            assert s[shift..][1..] == s[shift + 1..];
            shift := shift + 1;
          } else {
            break;
          }
        }
        assert Strip(s) == s[shift..];
        if shift > 0 {
          MoveDown(shift);
        }
      }
    }

    /** Drop the first `shift` octets by moving the others down. */
    method MoveDown(shift: nat)
      requires Valid() && shift <= size && buf != null
      modifies this`size, buf
      ensures Valid() && Contents() == old(Contents())[shift..]
    {
      size := size - shift;
      CopyDown(buf, shift, size);
    }

    /** INTEGER_encode_der: the contents octets written are minimal and stand for the same number. */
    method EncodeDer(tag: nat) returns (out: seq<Octet>)
      requires Valid() && size < INT_LIMIT && tag < 0x1_0000_0000
      modifies this`size, buf
      ensures Valid() && Contents() == Strip(old(Contents()))
      ensures Canonical(Contents()) && Signed(Contents()) == old(Signed(Contents()))
      ensures IsDer(out, tag, Contents())
      ensures forall rest :: ReadElement(tag, out + rest) == Element(|out|, Contents())
    {
      StripKeepsValue(Contents());
      Canonicalize();
      out := WriteElement(tag, Contents());
    }

    /** ber_decode_primitive; false means RC_FAIL or RC_WMORE. */
    method DecodeBer(tag: int, input: seq<Octet>) returns (r: Element)
      requires Valid()
      modifies this
      ensures Valid()
      ensures var e := ReadElement(tag, input);
              if e.Element? && |e.contents| >= INT_LIMIT then r.ElementBad? && size == 0
              else r == e && (r.Element? ==> buf != null && Contents() == r.contents)
      ensures !r.Element? && !(ReadElement(tag, input).Element?) ==> buf == old(buf) && size == old(size)
    {
      var header := CheckTag(tag, input);
      match header
      case HeaderBad => return ElementBad;
      case HeaderMore => return ElementMore;
      case HeaderOk(used, length) =>
        if length > |input| - used {
          return ElementMore;
        }
        if length >= INT_LIMIT {
          size := 0;
          return ElementBad;
        }
        var p := new Octet[length + 1];
        forall k | 0 <= k < length {
          p[k] := input[used + k];
        }
        p[length] := 0;
        buf, size := p, length;
        assert p[..length] == input[used..used + length];
        return Element(used + length, input[used..used + length]);
    }

    /** asn_INTEGER2long: the value, for exactly the buffers whose number fits a long. */
    method ToLong() returns (r: Conversion)
      requires Valid()
      ensures r == if buf == null then Invalid
                   else if FitsLong(Signed(Contents())) then Value(Signed(Contents())) else OutOfRange
    {
      hide Unsigned, Signed, Pow256, Strip;
      if buf == null {
        return Invalid;
      }
      ghost var s := Contents();
      var b := 0;
      assert s[0..] == s;
      if size > LONG_SIZE {
        while b < size - 1
          invariant b < size
          invariant Strip(s[b..]) == Strip(s)
        {
          if (buf[b] == 0x00 && buf[b + 1] < 128) || (buf[b] == 0xff && buf[b + 1] >= 128) {
            assert s[b..][1..] == s[b + 1..];
            StripDropsOne(s[b..]);
            b := b + 1;
          } else {
            break;
          }
        }
        StripKeepsAll(s[b..]);
        FitsWhenShort(s);
        StripKeepsValue(s);
        if size - b > LONG_SIZE {
          return OutOfRange;
        }
      }
      if b == size {
        assert s == [];
        EmptyReading();
        return Value(0);
      }
      r := ConvertFrom(b);
    }

    /** The conversion engine, with the sign initialised from the first octet; `l` never leaves a long. */
    method ConvertFrom(start: nat) returns (r: Conversion)
      requires Valid() && buf != null && start < size <= start + LONG_SIZE
      ensures r == Value(Signed(Contents()[start..])) && FitsLong(r.value)
    {
      hide Unsigned, Signed, Pow256, Strip;
      ghost var c := Contents()[start..];
      ShortFits(c);
      var b := start;
      var l: Long := if buf[b] >= 128 then -1 else 0;
      while b < size
        invariant start <= b <= size
        invariant l == SignedPrefix(c, b - start)
      {
        ShiftInSigned(c, b - start);
        l := WrapLong(l * 256) + buf[b];
        b := b + 1;
      }
      assert c[..size - start] == c;
      return Value(l);
    }

    /** asn_INTEGER2ulong: the buffer read as an unsigned number, exactly when that fits. */
    method ToUlong() returns (r: Conversion)
      requires Valid()
      ensures r == if buf == null then Invalid
                   else if Unsigned(Contents()) <= ULONG_MAX then Value(Unsigned(Contents())) else OutOfRange
    {
      hide Unsigned, Pow256;
      if buf == null {
        return Invalid;
      }
      ghost var s := Contents();
      var b, left := 0, size;
      assert s[0..] == s;
      while left > LONG_SIZE
        invariant b + left == size && (left >= LONG_SIZE || b == 0)
        invariant Unsigned(s[b..]) == Unsigned(s)
        decreases left
      {
        LeadingZero(s[b..]);
        if buf[b] != 0 {
          return OutOfRange;
        }
        assert s[b..][1..] == s[b + 1..];
        b, left := b + 1, left - 1;
      }
      ghost var c, start := s[b..], b;
      var l: Ulong := 0;
      assert c[..0] == [];
      EmptyReading();
      while b < size
        invariant start <= b <= size
        invariant l == Unsigned(c[..b - start])
        invariant b == size ==> c[..b - start] == c
      {
        ShiftInUnsigned(c, b - start);
        l := WrapUlong(l * 256) + buf[b];
        b := b + 1;
      }
      return Value(l);
    }

    /** asn_long2INTEGER, on the octets of `value` from the most significant one. */
    method FromLong(value: Long)
      requires Valid()
      modifies this
      ensures Valid() && buf != null && fresh(buf) && Contents() == MinimalOctets(value)
    {
      hide Digits, Strip, Signed, LongOctets;
      LongOctetsMean(value);
      var octets := LongOctets(value);
      var p := 0;
      assert octets[0..] == octets;
      while p != LONG_SIZE - 1
        invariant p <= LONG_SIZE - 1
        invariant Strip(octets[p..]) == Strip(octets)
        decreases LONG_SIZE - p
      {
        if (octets[p] == 0x00 && octets[p + 1] < 128) || (octets[p] == 0xff && octets[p + 1] >= 128) {
          assert octets[p..][1..] == octets[p + 1..];
          StripDropsOne(octets[p..]);
          p := p + 1;
        } else {
          break;
        }
      }
      StripKeepsAll(octets[p..]);
      var b := new Octet[LONG_SIZE];
      var n := 0;
      ghost var start := p;
      while p != LONG_SIZE
        invariant n == p - start && p <= LONG_SIZE
        invariant b[..n] == octets[start..p]
      {
        b[n] := octets[p];
        n, p := n + 1, p + 1;
      }
      assert octets[start..p] == octets[start..];
      buf, size := b, n;
    }

    /** asn_ulong2INTEGER: a value beyond LONG_MAX gets a leading zero octet. */
    method FromUlong(value: Ulong)
      requires Valid()
      modifies this
      ensures Valid() && buf != null && fresh(buf) && Contents() != [] && Canonical(Contents())
      ensures Signed(Contents()) == Unsigned(Contents()) == value
    {
      if value <= LONG_MAX {
        FromLong(value);
        StripKeepsValue(LongOctets(value));
        HeadDigit(value);
        return;
      }
      var b := UlongOctets(value);
      buf, size := b, LONG_SIZE + 1;
      ZeroInFront(Contents(), value);
    }

    /** A long survives asn_long2INTEGER followed by asn_INTEGER2long. */
    method LongRoundTrip(value: Long) returns (r: Conversion)
      requires Valid()
      modifies this
      ensures r == Value(value)
    {
      FromLong(value);
      r := ToLong();
    }

    /** An unsigned long survives asn_ulong2INTEGER followed by asn_INTEGER2ulong. */
    method UlongRoundTrip(value: Ulong) returns (r: Conversion)
      requires Valid()
      modifies this
      ensures r == Value(value)
    {
      FromUlong(value);
      r := ToUlong();
    }
  }

  /** A zero octet and the eight octets of the value, the loop of asn_ulong2INTEGER. */
  method UlongOctets(value: Ulong) returns (b: array<Octet>)
    ensures fresh(b) && b[..] == [0] + Digits(value, LONG_SIZE)
  {
    hide Digits, Shr8;
    b := new Octet[LONG_SIZE + 1];
    b[0] := 0;
    ghost var digits := Digits(value, LONG_SIZE);
    var i := 1;
    while i < LONG_SIZE + 1
      invariant 1 <= i <= LONG_SIZE + 1
      invariant b[..i] == [0] + digits[..i - 1]
    {
      DigitAt(value, LONG_SIZE, i - 1);
      b[i] := Shr8(value, LONG_SIZE - i) % 256;
      assert digits[..i] == digits[..i - 1] + [digits[i - 1]];
      i := i + 1;
    }
    assert digits[..LONG_SIZE] == digits && b[..] == b[..LONG_SIZE + 1];
  }

  lemma ZeroInFront(s: seq<Octet>, u: Ulong)
    requires |s| == LONG_SIZE + 1 && s[0] == 0 && s[1..] == Digits(u, LONG_SIZE) && u > LONG_MAX
    ensures Canonical(s) && Unsigned(s) == u
  {
    hide Digits, Unsigned, Pow256;
    HeadDigit(u);
    Pow256Constants();
    DigitsValue(u, LONG_SIZE);
    UnsignedHead(s);
    assert s[1] == s[1..][0];
  }

  // ---------------------------------------------------------------- the native integer

  lemma DigitsStep(u: nat, n: nat, done: seq<Octet>)
    requires n > 0
    ensures Digits(u, n) + done == Digits(u / 256, n - 1) + ([u % 256] + done)
  {
  }

  lemma NoDigits(u: nat)
    ensures Digits(u, 0) == []
  {
  }

  /** The array that NativeInteger_encode_der fills from its last octet. */
  method NativeOctets(native: Ulong) returns (b: array<Octet>)
    ensures fresh(b) && b[..] == Digits(native, LONG_SIZE)
  {
    hide Digits;
    b := new Octet[LONG_SIZE];
    var p, rest := LONG_SIZE - 1, native;
    assert b[LONG_SIZE..] == [];
    while p >= 0
      invariant -1 <= p < LONG_SIZE
      invariant Digits(native, LONG_SIZE) == Digits(rest, p + 1) + b[p + 1..]
      decreases p
    {
      ghost var done := b[p + 1..];
      b[p] := rest % 256;
      assert b[p..] == [b[p]] + done;
      DigitsStep(rest, p + 1, done);
      rest := rest / 256;
      p := p - 1;
    }
    assert b[0..] == b[..];
    NoDigits(rest);
  }

  /** NativeInteger_encode_der of a long field: the same minimal octets that asn_long2INTEGER makes. */
  method EncodeNative(tag: nat, value: Long) returns (out: seq<Octet>)
    requires tag < 0x1_0000_0000
    ensures IsDer(out, tag, MinimalOctets(value))
    ensures forall rest :: ReadElement(tag, out + rest) == Element(|out|, MinimalOctets(value))
  {
    out := EncodeNativeBits(tag, AsUnsigned(value));
  }

  method EncodeNativeBits(tag: nat, native: Ulong) returns (out: seq<Octet>)
    requires tag < 0x1_0000_0000
    ensures IsDer(out, tag, Strip(Digits(native, LONG_SIZE)))
    ensures forall rest :: ReadElement(tag, out + rest) == Element(|out|, Strip(Digits(native, LONG_SIZE)))
  {
    var tmp := new Integer();
    var b := NativeOctets(native);
    tmp.buf, tmp.size := b, LONG_SIZE;
    assert tmp.Contents() == b[..];
    out := tmp.EncodeDer(tag);
  }

  datatype NativeResult = NativeBad | NativeMore | Native(used: nat, value: int)

  /** `(int)length`. */
  function IntSize(length: nat): (r: int)
    ensures r <= length && (length < INT_LIMIT ==> r == length)
  {
    (length + INT_LIMIT) % (2 * INT_LIMIT) - INT_LIMIT
  }

  /** What a native field of either kind makes of contents octets. */
  function NativeValue(unsigned: bool, contents: seq<Octet>): Conversion {
    var v := if unsigned then Unsigned(contents) else Signed(contents);
    if (if unsigned then v <= ULONG_MAX else FitsLong(v)) then Value(v) else OutOfRange
  }

  method ConvertContents(unsigned: bool, contents: seq<Octet>, size: nat) returns (c: Conversion)
    requires size <= |contents|
    ensures c == NativeValue(unsigned, contents[..size])
  {
    hide Unsigned, Signed;
    var tmp := new Integer();
    tmp.buf, tmp.size := new Octet[|contents|](i requires 0 <= i < |contents| => contents[i]), size;
    assert tmp.Contents() == contents[..size];
    if unsigned {
      c := tmp.ToUlong();
    } else {
      c := tmp.ToLong();
    }
  }

  /** NativeInteger_decode_ber. The length goes through an int: contents below 2^31 octets are read whole, and a number
      that does not fit the field is refused; longer contents are cut off to a size modulo 2^32, or refused where that
      is negative as an int. */
  method DecodeNative(tag: int, unsigned: bool, input: seq<Octet>) returns (r: NativeResult)
    ensures r == match ReadElement(tag, input)
                 case ElementBad => NativeBad
                 case ElementMore => NativeMore
                 case Element(used, contents) =>
                   var size := IntSize(|contents|);
                   if size < 0 then NativeBad
                   else
                     var c := NativeValue(unsigned, contents[..size]);
                     if c.Value? then Native(used, c.value) else NativeBad
  {
    hide NativeValue, ReadElement, IntSize;
    var e := ReadElement(tag, input);
    match e
    case ElementBad => return NativeBad;
    case ElementMore => return NativeMore;
    case Element(used, contents) =>
      var size := IntSize(|contents|);
      if size < 0 {
        return NativeBad;
      }
      var c := ConvertContents(unsigned, contents, size);
      return if c.Value? then Native(used, c.value) else NativeBad;
  }

  /** Every long goes through the native encoder and decoder unchanged, whatever follows it. */
  method NativeRoundTrip(tag: nat, value: Long, rest: seq<Octet>) returns (out: seq<Octet>, r: NativeResult)
    requires tag < 0x1_0000_0000
    ensures r == Native(|out|, value)
  {
    out := EncodeNative(tag, value);
    r := DecodeNative(tag, false, out + rest);
    assert MinimalOctets(value)[..|MinimalOctets(value)|] == MinimalOctets(value);
  }

  /** An unsigned field comes back unchanged exactly below 0xff80_0000_0000_0000. */
  method NativeUnsignedRoundTrip(tag: nat, value: Ulong, rest: seq<Octet>) returns (out: seq<Octet>, r: NativeResult)
    requires tag < 0x1_0000_0000
    ensures r.Native? && r.used == |out|
    ensures r.value == value <==> value < 0xff80_0000_0000_0000
  {
    hide ReadElement, Strip, Digits, Unsigned, IsDer;
    out := EncodeNativeBits(tag, value);
    r := DecodeNative(tag, true, out + rest);
    ghost var s := Strip(Digits(value, LONG_SIZE));
    assert s[..|s|] == s;
    UnsignedSurvivesStripping(value);
    ShortUnsigned(Strip(Digits(value, LONG_SIZE)));
  }

  lemma ShortUnsigned(s: seq<Octet>)
    requires |s| <= LONG_SIZE
    ensures Unsigned(s) <= ULONG_MAX
  {
    UnsignedBound(s);
    Pow256Constants();
    Pow256Grows(|s|, 8);
  }
}
