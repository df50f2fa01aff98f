/** Identifier and length octets (sections 8.1.2 and 8.1.3 of ITU-T X.690), src/msg/ber_tlv_tag.c
    and src/msg/ber_tlv_length.c. */
module BerTlv {
  import opened Octets
  import opened IntegerValue

  /** The three outcomes of the fetch functions: -1, 0, or the number of octets read. */
  datatype Fetch = Bad | Starved | Got(used: nat, value: int)

  const INDEFINITE := -1
  const SSIZE_LIMIT := 0x8000_0000_0000_0000

  predicate IsConstructed(first: Octet) {
    first / 32 % 2 == 1
  }

  // ---------------------------------------------------------------- the forms of the standard

  /** The digits of seven bits read as one number, first digit most significant. */
  function Septets(s: seq<Octet>): nat {
    if s == [] then 0 else Septets(s[..|s| - 1]) * 128 + s[|s| - 1] % 128
  }

  /** `t` is the identifier octets of that class, form and number: one octet for a number below 31, else a first octet
      with 31 and the digits of the number, all but the last of them with bit 8 set. */
  predicate IsIdentifier(t: seq<Octet>, tclass: nat, constructed: bool, number: nat) {
    && t != [] && tclass < 4
    && var first := 64 * tclass + if constructed then 32 else 0;
       if |t| == 1 then t[0] == first + number && number < 31
       else
         && t[0] == first + 31
         && (forall k | 1 <= k < |t| - 1 :: t[k] >= 128) && t[|t| - 1] < 128
         && number == Septets(t[1..])
  }

  /** `l` is length octets for `len`: the short form, the indefinite form of a constructed element, or the long form,
      with leading zeros or without. (The long form of no octets, which the standard does not have, is read as 0.) */
  predicate IsLength(l: seq<Octet>, constructed: bool, len: int) {
    if |l| == 1 then
      if l[0] < 128 then len == l[0]
      else l[0] == 0x80 && len == if constructed then INDEFINITE else 0
    else
      && l != [] && l[0] < 255 && l[0] == 128 + (|l| - 1)
      && len == Unsigned(l[1..]) && len < LENGTH_LIMIT
  }

  /** The fetch function leaves 1024 below the ssize_t limit. */
  const LENGTH_LIMIT := SSIZE_LIMIT - 1024

  // ---------------------------------------------------------------- identifier octets

  /** No 32-bit overflow: a fetched tag is always an unsigned 32-bit value. */
  function FetchTag(s: seq<Octet>): (r: Fetch)
    ensures r.Got? ==> 1 <= r.used <= |s| && 0 <= r.value < 0x1_0000_0000
  {
    if s == [] then Starved
    else if s[0] % 32 != 31 then Got(1, s[0] % 32 * 4 + s[0] / 64)
    else FetchLongTag(s, 1, 0)
  }

  /** The high-tag-number form; `val` holds the base-128 digits of s[1..i]. */
  function FetchLongTag(s: seq<Octet>, i: nat, val: nat): (r: Fetch)
    requires 1 <= i <= |s| && val < 0x80_0000
    ensures r.Got? ==> i < r.used <= |s| && 0 <= r.value < 0x1_0000_0000
    decreases |s| - i
  {
    if i == |s| then Starved
    else if s[i] < 128 then Got(i + 1, (val * 128 + s[i]) * 4 + s[0] / 64)
    else
      var next := val * 128 + s[i] % 128;
      if next >= 0x80_0000 then Bad else FetchLongTag(s, i + 1, next)
  }

  method ReadTag(s: seq<Octet>) returns (r: Fetch)
    ensures r == FetchTag(s)
  {
    if |s| == 0 {
      return Starved;
    }
    var val: nat := s[0] % 32;
    var tclass := s[0] / 64;
    if val != 31 {
      return Got(1, val * 4 + tclass);
    }
    val := 0;
    var skipped := 2;
    while skipped <= |s|
      invariant 2 <= skipped <= |s| + 1
      invariant val < 0x80_0000 && FetchTag(s) == FetchLongTag(s, skipped - 1, val)
    {
      var oct := s[skipped - 1];
      if oct >= 128 {
        val := val * 128 + oct % 128;
        if val >= 0x80_0000 {
          return Bad;
        }
      } else {
        val := val * 128 + oct;
        return Got(skipped, val * 4 + tclass);
      }
      skipped := skipped + 1;
    }
    return Starved;
  }

  lemma {:induction false} LongTagIs(s: seq<Octet>, i: nat, val: nat, n: nat)
    requires 1 <= i <= n < |s| && val == Septets(s[1..i]) < 0x80_0000
    requires (forall k | i <= k < n :: s[k] >= 128) && s[n] < 128
    ensures FetchLongTag(s, i, val)
            == if Septets(s[1..n]) < 0x80_0000 then Got(n + 1, Septets(s[1..n + 1]) * 4 + s[0] / 64) else Bad
    decreases n - i
  {
    SeptetsStep(s, i);
    if i < n {
      SeptetsGrow(s, i + 1, n);
      if val * 128 + s[i] % 128 < 0x80_0000 {
        LongTagIs(s, i + 1, val * 128 + s[i] % 128, n);
      }
    }
  }

  lemma SeptetsStep(s: seq<Octet>, i: nat)
    requires 1 <= i < |s|
    ensures Septets(s[1..i + 1]) == Septets(s[1..i]) * 128 + s[i] % 128
  {
    assert s[1..i + 1][..i - 1 + 0] == s[1..i];
  }

  lemma {:induction false} SeptetsGrow(s: seq<Octet>, i: nat, n: nat)
    requires 1 <= i <= n <= |s|
    ensures Septets(s[1..i]) <= Septets(s[1..n])
    decreases n - i
  {
    if i < n {
      SeptetsStep(s, n - 1);
      SeptetsGrow(s, i, n - 1);
    }
  }

  /** The digits up to the one that ends the tag number. */
  function DigitsTo(s: seq<Octet>, i: nat): (n: nat)
    requires i <= |s|
    ensures i <= n <= |s| && (forall k | i <= k < n :: s[k] >= 128) && (n < |s| ==> s[n] < 128)
    decreases |s| - i
  {
    if i == |s| || s[i] < 128 then i else DigitsTo(s, i + 1)
  }

  lemma {:induction false} OpenTagIs(s: seq<Octet>, i: nat, val: nat)
    requires 1 <= i <= |s| && val == Septets(s[1..i]) < 0x80_0000 && forall k | i <= k < |s| :: s[k] >= 128
    ensures FetchLongTag(s, i, val) == if Septets(s[1..]) < 0x80_0000 then Starved else Bad
    decreases |s| - i
  {
    assert s[1..|s|] == s[1..];
    if i < |s| {
      SeptetsStep(s, i);
      SeptetsGrow(s, i + 1, |s|);
      if val * 128 + s[i] % 128 < 0x80_0000 {
        OpenTagIs(s, i + 1, val * 128 + s[i] % 128);
      }
    }
  }

  lemma NoSeptets()
    ensures Septets([]) == 0
  {
  }

  /** Each fetch of a tag, by the octets alone: in the long form the digits before the last one must stay below 2^23,
      and are refused as soon as they do not. */
  lemma TagFetched(s: seq<Octet>)
    requires s != []
    ensures s[0] % 32 != 31 ==> FetchTag(s) == Got(1, s[0] % 32 * 4 + s[0] / 64)
    ensures s[0] % 32 == 31 ==>
              var n := DigitsTo(s, 1);
              FetchTag(s) == if Septets(s[1..n]) >= 0x80_0000 then Bad
                             else if n == |s| then Starved
                             else Got(n + 1, Septets(s[1..n + 1]) * 4 + s[0] / 64)
  {
    hide Septets, FetchLongTag;
    if s[0] % 32 == 31 {
      var n := DigitsTo(s, 1);
      assert s[1..1] == [];
      assert Septets([]) == 0 by { NoSeptets(); }
      if n == |s| {
        OpenTagIs(s, 1, 0);
        assert s[1..n] == s[1..];
      } else {
        LongTagIs(s, 1, 0, n);
      }
    }
  }

  /** The octets that are read as the tag v are exactly its identifier octets. */
  lemma TagExactly(t: seq<Octet>, v: nat, constructed: bool)
    ensures (FetchTag(t) == Got(|t|, v) && IsConstructed(t[0]) == constructed)
            <==> v < 0x1_0000_0000 && IsIdentifier(t, v % 4, constructed, v / 4)
  {
    hide FetchTag, Septets, IsConstructed;
    if t != [] {
      FirstOctet(t[0], v / 4, v % 4, constructed);
      TagFetched(t);
      if |t| > 1 {
        LongTagExactly(t, v, constructed);
      }
    }
  }

  lemma LongTagExactly(t: seq<Octet>, v: nat, constructed: bool)
    requires |t| > 1
    ensures (FetchTag(t) == Got(|t|, v) && IsConstructed(t[0]) == constructed)
            <==> v < 0x1_0000_0000 && IsIdentifier(t, v % 4, constructed, v / 4)
  {
    hide FetchTag, Septets, IsConstructed;
    TagFetched(t);
    FirstOctet(t[0], 31, v % 4, constructed);
    SeptetsStep(t, |t| - 1);
    assert t[1..|t|] == t[1..];
    var n := DigitsTo(t, 1);
    if (forall k | 1 <= k < |t| - 1 :: t[k] >= 128) && t[|t| - 1] < 128 {
      assert n == |t| - 1;
      Quotient(v, Septets(t[1..]), t[0] / 64);
    }
  }

  lemma Quotient(v: nat, number: nat, tclass: nat)
    requires tclass < 4
    ensures v == number * 4 + tclass <==> v / 4 == number && v % 4 == tclass
  {
  }

  lemma FirstOctet(c: Octet, number: nat, tclass: nat, constructed: bool)
    requires tclass < 4
    ensures number <= 31 ==>
              (c == 64 * tclass + (if constructed then 32 else 0) + number
               <==> c / 64 == tclass && IsConstructed(c) == constructed && c % 32 == number)
    ensures c / 64 < 4
  {
    assert c == 64 * (c / 64) + (if IsConstructed(c) then 32 else 0) + c % 32 by {
      assert c / 32 == 2 * (c / 64) + c / 32 % 2;
    }
  }

  lemma {:induction false} FetchLongTagStable(s: seq<Octet>, t: seq<Octet>, i: nat, val: nat)
    requires 1 <= i <= |s| && s <= t && val < 0x80_0000
    ensures !FetchLongTag(s, i, val).Starved? ==> FetchLongTag(t, i, val) == FetchLongTag(s, i, val)
    decreases |s| - i
  {
    if i < |s| && s[i] >= 128 && val * 128 + s[i] % 128 < 0x80_0000 {
      FetchLongTagStable(s, t, i + 1, val * 128 + s[i] % 128);
    }
  }

  /** Once decided, the answer does not depend on what follows. */
  lemma FetchTagStable(s: seq<Octet>, t: seq<Octet>)
    requires s <= t
    ensures !FetchTag(s).Starved? ==> FetchTag(t) == FetchTag(s)
  {
    if s != [] && s[0] % 32 == 31 {
      FetchLongTagStable(s, t, 1, 0);
    }
  }

  /** ber_tlv_tag_serialize into a large enough buffer, undone by the fetch for every 32-bit tag. */
  method SerializeTag(tag: nat) returns (out: seq<Octet>)
    requires tag < 0x1_0000_0000
    ensures 1 <= |out| <= 6 && !IsConstructed(out[0])
    ensures IsIdentifier(out, tag % 4, false, tag / 4) && (|out| > 1 ==> tag / 4 > 30 && out[1] != 0x80)
    ensures FetchTag(out) == Got(|out|, tag)
  {
    hide FetchTag, IsIdentifier;
    var tclass, tval := tag % 4, tag / 4;
    if tval <= 30 {
      ShortTagIs(tag);
      return [tclass * 64 + tval];
    }
    out := SerializeLongTag(tclass, tval);
    LongFirst(tclass);
    TagExactly(out, tag, false);
  }

  lemma ShortTagIs(tag: nat)
    requires tag / 4 <= 30
    ensures var c := tag % 4 * 64 + tag / 4;
            && 0 <= c < 256 && !IsConstructed(c) && IsIdentifier([c], tag % 4, false, tag / 4)
            && FetchTag([c]) == Got(1, tag)
  {
    FirstOctet(tag % 4 * 64 + tag / 4, tag / 4, tag % 4, false);
  }

  lemma LongFirst(tclass: nat)
    requires tclass < 4
    ensures !IsConstructed(tclass * 64 + 31)
  {
  }

  /** The number of base-128 digits of a tag number. */
  method TagOctets(tval: nat) returns (required: nat)
    requires tval < 0x4000_0000
    ensures 1 <= required <= 5 && Shr7(tval, required) == 0 && (required == 1 || Shr7(tval, required - 1) != 0)
  {
    required := 1;
    ghost var limit := 0x80_0000;
    while required < 5 && Shr7(tval, required) != 0
      invariant 1 <= required <= 5 && (required == 1 || Shr7(tval, required - 1) != 0)
      invariant Shr7(tval, required) < limit
      invariant limit == match required case 1 => 0x80_0000 case 2 => 0x1_0000 case 3 => 0x200 case 4 => 4 case _ => 1
    {
      Shr7DropsOne(tval, required);
      limit := if required == 4 then 1 else limit / 128;
      required := required + 1;
    }
  }

  /** A base-128 digit with bit 8 set: another one follows. */
  function Septet(v: nat, n: nat): Octet {
    128 + Shr7(v, n) % 128
  }

  method SerializeLongTag(tclass: nat, tval: nat) returns (out: seq<Octet>)
    requires tclass < 4 && 30 < tval < 0x4000_0000
    ensures 2 <= |out| <= 6 && out[0] == tclass * 64 + 31 && out[1] != 0x80
    ensures FetchTag(out) == Got(|out|, tval * 4 + tclass)
  {
    hide Septet, Shr7;
    var required := TagOctets(tval);
    out := [tclass * 64 + 31];
    var left := required;
    while left > 1
      invariant 1 <= left <= required
      invariant |out| == 1 + required - left && out[0] == tclass * 64 + 31
      invariant forall i :: 1 <= i < |out| ==> out[i] == Septet(tval, required - i)
    {
      left := left - 1;
      out := out + [Septet(tval, left)];
    }
    out := out + [tval % 128];
    LongTagFrom(out, tval, 1);
    if required > 1 {
      LeadingSeptet(tval, required - 1);
    }
  }

  lemma LeadingSeptet(v: nat, n: nat)
    requires Shr7(v, n) != 0 && Shr7(v, n + 1) == 0
    ensures Septet(v, n) != 0x80
  {
    Shr7DropsOne(v, n);
  }

  lemma {:induction false} LongTagFrom(s: seq<Octet>, tval: nat, i: nat)
    requires 1 <= i < |s| && tval < 0x4000_0000
    requires forall j :: 1 <= j < |s| - 1 ==> s[j] == Septet(tval, |s| - 1 - j)
    requires s[|s| - 1] == tval % 128
    ensures Shr7(tval, |s| - i) < 0x80_0000
    ensures FetchLongTag(s, i, Shr7(tval, |s| - i)) == Got(|s|, tval * 4 + s[0] / 64)
    decreases |s| - i
  {
    Shr7DropsOne(tval, |s| - 1 - i);
    Shr7Shrinks(tval, |s| - i);
    if i < |s| - 1 {
      LongTagFrom(s, tval, i + 1);
    }
  }

  lemma {:induction false} Shr7Shrinks(v: nat, n: nat)
    requires n >= 1
    ensures Shr7(v, n) <= v / 128
  {
    Shr7DropsOne(v, n - 1);
    if n > 1 {
      Shr7Shrinks(v, n - 1);
    }
  }

  /** The octets of a fetched tag are enough to fetch it. */
  lemma TagOctetsSuffice(s: seq<Octet>)
    requires FetchTag(s).Got?
    ensures FetchTag(s[..FetchTag(s).used]) == FetchTag(s)
  {
    hide FetchTag, Septets;
    TagFetched(s);
    var k := FetchTag(s).used;
    TagFetched(s[..k]);
    if s[0] % 32 == 31 {
      var n := DigitsTo(s, 1);
      assert DigitsTo(s[..k], 1) == n;
      assert s[..k][1..n] == s[1..n] && s[..k][1..n + 1] == s[1..n + 1];
    }
  }

  // ---------------------------------------------------------------- length octets

  /** A fetched length is INDEFINITE (only in the constructed form) or leaves 1024 below the ssize_t limit. */
  function FetchLength(constructed: bool, s: seq<Octet>): (r: Fetch)
    ensures r.Got? ==> 1 <= r.used <= |s| && INDEFINITE <= r.value < SSIZE_LIMIT - 1024
                       && (r.value == INDEFINITE ==> constructed)
  {
    if s == [] then Starved
    else if s[0] < 128 then Got(1, s[0])
    else if constructed && s[0] == 0x80 then Got(1, INDEFINITE)
    else if s[0] == 0xff then Bad
    else FetchLongLength(s, 1, 0, s[0] - 128)
  }

  /** The long form: `len` is the number read so far, `oct` the number of octets still to come. */
  function FetchLongLength(s: seq<Octet>, i: nat, len: nat, oct: nat): (r: Fetch)
    requires 1 <= i <= |s|
    ensures r.Got? ==> i <= r.used <= |s| && 0 <= r.value < SSIZE_LIMIT - 1024
    decreases oct
  {
    if oct == 0 then if len + 1024 >= SSIZE_LIMIT then Bad else Got(i, len)
    else if i == |s| then Starved
    else
      var next := len * 256 + s[i];
      if next >= SSIZE_LIMIT || (next >= 0x100_0000_0000_0000 && oct > 1) then Bad
      else FetchLongLength(s, i + 1, next, oct - 1)
  }

  method ReadLength(constructed: bool, s: seq<Octet>) returns (r: Fetch)
    ensures r == FetchLength(constructed, s)
  {
    if |s| == 0 {
      return Starved;
    }
    var oct := s[0];
    if oct < 128 {
      return Got(1, oct);
    }
    if constructed && oct == 0x80 {
      return Got(1, INDEFINITE);
    }
    if oct == 0xff {
      return Bad;
    }
    oct := oct - 128;
    var len, skipped := 0, 1;
    while oct > 0 && skipped < |s|
      invariant 0 <= oct && 1 <= skipped <= |s| && 0 <= len < SSIZE_LIMIT
      invariant FetchLength(constructed, s) == FetchLongLength(s, skipped, len, oct)
      decreases oct
    {
      len := len * 256 + s[skipped];
      if len >= SSIZE_LIMIT || (len >= 0x100_0000_0000_0000 && oct > 1) {
        return Bad;
      }
      skipped := skipped + 1;
      oct := oct - 1;
    }
    if oct == 0 {
      if len + 1024 >= SSIZE_LIMIT {
        return Bad;
      }
      return Got(skipped, len);
    }
    return Starved;
  }

  /** Too much of a long form has been read: no length can come of it, or none that is allowed. */
  predicate TooLong(s: seq<Octet>, n: nat, k: nat)
    requires 1 <= k <= n < 127 && k < |s|
  {
    Unsigned(s[1..k + 1]) >= if k < n then 0x100_0000_0000_0000 else LENGTH_LIMIT
  }

  lemma UnsignedStep(s: seq<Octet>, i: nat)
    requires 1 <= i < |s|
    ensures Unsigned(s[1..i + 1]) == Unsigned(s[1..i]) * 256 + s[i]
  {
    assert s[1..i + 1][..i - 1] == s[1..i];
  }

  lemma {:induction false} LongLengthIs(s: seq<Octet>, i: nat, len: nat, n: nat)
    requires 1 <= n && 1 <= i <= |s| && i <= n + 1 <= 127 && len == Unsigned(s[1..i])
    requires forall k | 1 <= k < i :: k == n || !TooLong(s, n, k)
    ensures var r := FetchLongLength(s, i, len, n + 1 - i);
            && (r.Bad? <==> exists k | 1 <= k <= n && k < |s| :: TooLong(s, n, k))
            && (r.Got? ==> |s| > n && r == Got(n + 1, Unsigned(s[1..n + 1])))
            && (r.Starved? ==> |s| <= n)
    decreases n + 1 - i
  {
    hide Unsigned;
    if i <= n && i < |s| {
      UnsignedStep(s, i);
      if !(i < n && TooLong(s, n, i)) && len * 256 + s[i] < SSIZE_LIMIT {
        LongLengthIs(s, i + 1, len * 256 + s[i], n);
      } else {
        assert TooLong(s, n, i);
      }
    } else if i > n {
      assert TooLong(s, n, n) <==> len >= LENGTH_LIMIT;
    }
  }

  /** Each fetch of a length, by the octets alone: the short form, the indefinite form, the reserved octet, and the long
      form, which is refused as soon as its octets so far are too large. */
  lemma LengthFetched(constructed: bool, s: seq<Octet>)
    requires s != []
    ensures s[0] < 128 ==> FetchLength(constructed, s) == Got(1, s[0])
    ensures s[0] == 0x80 ==> FetchLength(constructed, s) == Got(1, if constructed then INDEFINITE else 0)
    ensures s[0] == 0xff ==> FetchLength(constructed, s) == Bad
    ensures 0x80 < s[0] < 0xff ==>
              var (n, r) := (s[0] - 128, FetchLength(constructed, s));
              && (r.Bad? <==> exists k | 1 <= k <= n && k < |s| :: TooLong(s, n, k))
              && (!r.Bad? && |s| > n ==> r == Got(n + 1, Unsigned(s[1..n + 1])))
              && (!r.Bad? && |s| <= n ==> r.Starved?)
  {
    if 0x80 < s[0] < 0xff {
      assert s[1..1] == [];
      LongLengthIs(s, 1, 0, s[0] - 128);
    }
  }

  lemma {:induction false} UnsignedGrows(s: seq<Octet>, k: nat)
    requires 1 <= k < |s|
    ensures Unsigned(s[1..]) >= Unsigned(s[1..k + 1]) * if k + 1 < |s| then 256 else 1
    decreases |s|
  {
    if k + 1 < |s| {
      var t := s[..|s| - 1];
      UnsignedStep(s, |s| - 1);
      assert s[1..|s|] == s[1..] && s[1..|s| - 1] == t[1..] && t[1..k + 1] == s[1..k + 1];
      UnsignedGrows(t, k);
    } else {
      assert s[1..k + 1] == s[1..];
    }
  }

  /** The octets that are read as the length `len` are exactly its length octets. */
  lemma LengthExactly(constructed: bool, l: seq<Octet>, len: int)
    ensures FetchLength(constructed, l) == Got(|l|, len) <==> IsLength(l, constructed, len)
  {
    hide FetchLength, Unsigned;
    if l != [] {
      LengthFetched(constructed, l);
      if 0x80 < l[0] < 0xff && |l| == l[0] - 127 {
        var n := l[0] - 128;
        assert l[1..n + 1] == l[1..];
        forall k | 1 <= k <= n
          ensures TooLong(l, n, k) ==> TooLong(l, n, n)
        {
          UnsignedGrows(l, k);
        }
      }
    }
  }

  lemma {:induction false} FetchLongLengthStable(s: seq<Octet>, t: seq<Octet>, i: nat, len: nat, oct: nat)
    requires 1 <= i <= |s| && s <= t
    ensures !FetchLongLength(s, i, len, oct).Starved?
            ==> FetchLongLength(t, i, len, oct) == FetchLongLength(s, i, len, oct)
    decreases oct
  {
    if oct != 0 && i < |s| {
      FetchLongLengthStable(s, t, i + 1, len * 256 + s[i], oct - 1);
    }
  }

  lemma FetchLengthStable(constructed: bool, s: seq<Octet>, t: seq<Octet>)
    requires s <= t
    ensures !FetchLength(constructed, s).Starved? ==> FetchLength(constructed, t) == FetchLength(constructed, s)
  {
    if s != [] && 128 <= s[0] < 255 {
      FetchLongLengthStable(s, t, 1, 0, s[0] - 128);
    }
  }

  /** der_tlv_length_serialize into a large enough buffer, undone by the fetch in either form. */
  method SerializeLength(len: nat) returns (out: seq<Octet>)
    requires len < SSIZE_LIMIT - 1024
    ensures |out| <= 9 && IsLength(out, false, len) && (|out| > 1 ==> len > 127 && out[1] != 0)
    ensures forall constructed :: FetchLength(constructed, out) == Got(|out|, len)
  {
    if len <= 127 {
      return [len];
    }
    var required := 1;
    while required < 8 && Shr8(len, required) != 0
      invariant 1 <= required <= 8 && Shr8(len, required - 1) != 0
      invariant Shr8(len, required)
                < [SSIZE_LIMIT, 0x80_0000_0000_0000, 0x8000_0000_0000, 0x80_0000_0000, 0x8000_0000,
                   0x80_0000, 0x8000, 0x80, 1][required]
    {
      Shr8DropsOne(len, required);
      required := required + 1;
    }
    Shr8DropsOne(len, required - 1);
    out := [0x80 + required];
    var left := required;
    while left > 0
      invariant 0 <= left <= required
      invariant |out| == 1 + required - left && out[0] == 0x80 + required
      invariant forall i :: 1 <= i < |out| ==> out[i] == Shr8(len, required - i) % 256
    {
      left := left - 1;
      out := out + [Shr8(len, left) % 256];
    }
    LongLengthFrom(out, len, 1);
    LengthExactly(false, out, len);
  }

  lemma {:induction false} LongLengthFrom(s: seq<Octet>, len: nat, i: nat)
    requires 1 <= i <= |s| && len < SSIZE_LIMIT - 1024
    requires forall j :: 1 <= j < |s| ==> s[j] == Shr8(len, |s| - 1 - j) % 256
    ensures FetchLongLength(s, i, Shr8(len, |s| - i), |s| - i) == Got(|s|, len)
    decreases |s| - i
  {
    if i < |s| {
      Shr8DropsOne(len, |s| - 1 - i);
      if |s| - 1 - i >= 1 {
        Shr8Shrinks(len, |s| - 1 - i);
      }
      LongLengthFrom(s, len, i + 1);
    }
  }

  lemma {:induction false} Shr8Shrinks(v: nat, n: nat)
    requires n >= 1
    ensures Shr8(v, n) <= v / 256
  {
    Shr8DropsOne(v, n - 1);
    if n > 1 {
      Shr8Shrinks(v, n - 1);
    }
  }

  /** The octets of a fetched length are enough to fetch it. */
  lemma LengthOctetsSuffice(constructed: bool, s: seq<Octet>)
    requires FetchLength(constructed, s).Got?
    ensures var k := FetchLength(constructed, s).used; FetchLength(constructed, s[..k]) == FetchLength(constructed, s)
  {
    hide FetchLength, Unsigned;
    LengthFetched(constructed, s);
    var k := FetchLength(constructed, s).used;
    LengthFetched(constructed, s[..k]);
    FetchLengthStable(constructed, s[..k], s);
  }

  // ---------------------------------------------------------------- primitive elements in DER

  /** Identifier and length octets in their shortest forms (sections 8.1.2.4 and 10.1 of X.690), and the contents. */
  predicate IsDerAt(code: seq<Octet>, k: nat, m: nat, tag: nat, contents: seq<Octet>)
    requires 0 < k < m <= |code|
  {
    && IsIdentifier(code[..k], tag % 4, false, tag / 4) && (k > 1 ==> tag / 4 > 30 && code[1] != 0x80)
    && IsLength(code[k..m], false, |contents|) && (m - k > 1 ==> |contents| > 127 && code[k + 1] != 0)
    && code[m..] == contents
  }

  predicate IsDer(code: seq<Octet>, tag: nat, contents: seq<Octet>) {
    exists k, m | 0 < k < m <= |code| :: IsDerAt(code, k, m, tag, contents)
  }

  lemma DerJoins(t: seq<Octet>, l: seq<Octet>, tag: nat, contents: seq<Octet>)
    requires IsIdentifier(t, tag % 4, false, tag / 4) && (|t| > 1 ==> tag / 4 > 30 && t[1] != 0x80)
    requires IsLength(l, false, |contents|) && (|l| > 1 ==> |contents| > 127 && l[1] != 0)
    ensures IsDer(t + l + contents, tag, contents)
  {
    hide IsIdentifier, IsLength;
    var code := t + l + contents;
    assert l != [] && t != [] by { NotEmpty(t, l, tag, |contents|); }
    assert code[..|t|] == t && code[|t|..|t| + |l|] == l && code[|t| + |l|..] == contents;
    assert |l| > 1 ==> code[|t| + 1] == l[1];
    assert IsDerAt(code, |t|, |t| + |l|, tag, contents);
  }

  lemma NotEmpty(t: seq<Octet>, l: seq<Octet>, tag: nat, len: nat)
    requires IsIdentifier(t, tag % 4, false, tag / 4) && IsLength(l, false, len)
    ensures t != [] && l != []
  {
  }
}
