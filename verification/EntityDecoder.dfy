/** OCTET_STRING__convert_entrefs (src/msg/OCTET_STRING.c:919-1097), which undoes EntityCodec. */
module EntityDecoder {
  import opened Octets
  import opened IntegerText
  import opened EntityCodec

  const INT_MAX := 0x7fff_ffff

  type Int32 = x: int | -INT_MAX - 1 <= x <= INT_MAX

  /** What a 32-bit signed number keeps of v. */
  function Wrap32(v: int): Int32 {
    (v + INT_MAX + 1) % 0x1_0000_0000 - INT_MAX - 1
  }

  // ---------------------------------------------------------------- numeric references

  /** -1, the whole text used up without a semicolon, or the characters used and the number. */
  datatype Ent = BadEnt | RanOut | Ent(used: nat, value: Int32)

  datatype Base = Ten | Sixteen

  /** `val * base + x`. */
  function Next(base: Base, val: int, x: int): int {
    if base.Ten? then val * 10 + x else val * 16 + x
  }

  function Radix(base: Base): nat {
    if base.Ten? then 10 else 16
  }

  predicate Fires(base: Base, val: int) {
    Wrap32(Next(base, val, Radix(base))) < 0
  }

  /** OS__strtoent: letters are digits whatever the base, and overflow is looked for after it may have happened. */
  function StrToEnt(base: Base, t: seq<Octet>, val: Int32): (r: Ent)
    ensures r.Ent? ==> 1 <= r.used <= |t| && t[r.used - 1] == SEMICOLON
  {
    if t == [] then RanOut
    else if Fires(base, val) then BadEnt
    else if t[0] == SEMICOLON then Ent(1, val)
    else if IsHexDigit(t[0]) then
      var r := StrToEnt(base, t[1..], Wrap32(Next(base, val, HexVal(t[0]))));
      if r.Ent? then Ent(r.used + 1, r.value) else r
    else BadEnt
  }

  /** The loop of OS__strtoent. */
  method ReadEnt(base: Base, t: seq<Octet>) returns (r: Ent)
    ensures r == StrToEnt(base, t, 0)
  {
    var val: Int32, p := 0, 0;
    assert t[0..] == t;
    while p < |t|
      invariant p <= |t|
      invariant StrToEnt(base, t, 0) == After(p, StrToEnt(base, t[p..], val))
    {
      if Wrap32(Next(base, val, Radix(base))) < 0 {
        return BadEnt;
      }
      var c := t[p];
      assert t[p..][1..] == t[p + 1..];
      if c == SEMICOLON {
        return Ent(p + 1, val);
      } else if IsHexDigit(c) {
        val := Wrap32(Next(base, val, HexVal(c)));
      } else {
        return BadEnt;
      }
      p := p + 1;
    }
    return RanOut;
  }

  function After(p: nat, r: Ent): Ent {
    if r.Ent? then Ent(p + r.used, r.value) else r
  }

  /** The number that digits stand for. */
  function Numeral(base: Base, d: seq<Octet>): nat {
    if d == [] then 0 else Next(base, Numeral(base, d[..|d| - 1]), HexVal(d[|d| - 1]))
  }

  /** The intended result for digits and a semicolon: their number, or -1 from the limit on. */
  function RightEnt(base: Base, d: seq<Octet>): Ent {
    var v := Numeral(base, d);
    if Next(base, v, Radix(base)) <= INT_MAX then Ent(|d| + 1, v) else BadEnt
  }

  /** The overflow check comes out negative for some beginning of the digits. */
  predicate SomeFires(base: Base, d: seq<Octet>, k: nat)
    requires k <= |d|
  {
    exists i | k <= i <= |d| :: Fires(base, Numeral(base, d[..i]))
  }

  lemma WrapAgain(v: int, x: int, base: Base)
    ensures Wrap32(Next(base, Wrap32(v), x)) == Wrap32(Next(base, v, x))
  {
    var q := (v + INT_MAX + 1) / 0x1_0000_0000;
    assert Wrap32(v) == v - 0x1_0000_0000 * q;
    WrapShift(Next(base, v, x), if base.Ten? then -10 * q else -16 * q);
  }

  lemma WrapShift(v: int, q: int)
    ensures Wrap32(v + 0x1_0000_0000 * q) == Wrap32(v)
  {
    var a := v + INT_MAX + 1;
    assert (a + 0x1_0000_0000 * q) % 0x1_0000_0000 == a % 0x1_0000_0000;
  }

  lemma {:induction false} ReadsFrom(base: Base, d: seq<Octet>, rest: seq<Octet>, k: nat)
    requires k <= |d| && forall c <- d :: IsHexDigit(c)
    ensures StrToEnt(base, d[k..] + [SEMICOLON] + rest, Wrap32(Numeral(base, d[..k])))
            == if SomeFires(base, d, k) then BadEnt else Ent(|d| - k + 1, Wrap32(Numeral(base, d)))
    decreases |d| - k
  {
    hide Wrap32, IsHexDigit, HexVal, Next;
    var t := d[k..] + [SEMICOLON] + rest;
    var v := Numeral(base, d[..k]);
    WrapAgain(v, Radix(base), base);
    assert Fires(base, Wrap32(v)) == Fires(base, v);
    if k == |d| {
      assert d[..k] == d;
      SemicolonIsNoDigit();
    } else {
      assert d[k] in d;
      assert t[0] == d[k] && t[1..] == d[k + 1..] + [SEMICOLON] + rest;
      assert d[..k + 1][..k] == d[..k];
      SemicolonIsNoDigit();
      WrapAgain(v, HexVal(d[k]), base);
      ReadsFrom(base, d, rest, k + 1);
    }
  }

  lemma SemicolonIsNoDigit()
    ensures !IsHexDigit(SEMICOLON)
  {
  }

  /** Digits without a semicolon after them: another character makes them no reference, the end leaves it open. */
  lemma {:induction false} ReadsNone(base: Base, d: seq<Octet>, tail: seq<Octet>, k: nat)
    requires k <= |d| && (forall c <- d :: IsHexDigit(c))
    requires tail != [] ==> !IsHexDigit(tail[0]) && tail[0] != SEMICOLON
    ensures StrToEnt(base, d[k..] + tail, Wrap32(Numeral(base, d[..k])))
            == if tail == [] && forall i | k <= i < |d| :: !Fires(base, Numeral(base, d[..i])) then RanOut else BadEnt
    decreases |d| - k
  {
    hide Wrap32, IsHexDigit, HexVal, Next;
    var t := d[k..] + tail;
    var v := Numeral(base, d[..k]);
    WrapAgain(v, Radix(base), base);
    assert Fires(base, Wrap32(v)) == Fires(base, v);
    if k < |d| {
      assert d[k] in d;
      assert t[0] == d[k] && t[1..] == d[k + 1..] + tail;
      assert d[..k + 1][..k] == d[..k];
      SemicolonIsNoDigit();
      WrapAgain(v, HexVal(d[k]), base);
      ReadsNone(base, d, tail, k + 1);
    }
  }

  // ---------------------------------------------------------------- numbers by place value

  function Power(b: nat, n: nat): nat {
    if n == 0 then 1 else b * Power(b, n - 1)
  }

  /** The number that has these digits in base b, each counted by its place. */
  function PlaceValue(b: nat, digits: seq<nat>): nat {
    if digits == [] then 0 else digits[0] * Power(b, |digits| - 1) + PlaceValue(b, digits[1..])
  }

  /** The digits as characters, letters in either case. */
  predicate Writes(d: seq<Octet>, digits: seq<nat>) {
    && |d| == |digits|
    && forall i | 0 <= i < |d| :: digits[i] < 16 && (d[i] == LOWER_DIGITS[digits[i]] || d[i] == UPPER_DIGITS[digits[i]])
  }

  lemma {:induction false} LastPlace(b: nat, digits: seq<nat>)
    requires digits != []
    ensures PlaceValue(b, digits) == PlaceValue(b, digits[..|digits| - 1]) * b + digits[|digits| - 1]
    decreases |digits|
  {
    var n := |digits| - 1;
    if n == 0 {
      assert digits[1..] == [] && digits[..0] == [];
    } else {
      var (init, tail) := (digits[..n], digits[1..]);
      LastPlace(b, tail);
      assert tail[..n - 1] == init[1..];
      FirstPlace(b, digits);
      FirstPlace(b, init);
      Shifted(digits[0], Power(b, n - 1), PlaceValue(b, init[1..]), b);
    }
  }

  lemma FirstPlace(b: nat, digits: seq<nat>)
    requires digits != []
    ensures PlaceValue(b, digits) == digits[0] * Power(b, |digits| - 1) + PlaceValue(b, digits[1..])
    ensures |digits| > 1 ==> Power(b, |digits| - 1) == b * Power(b, |digits| - 2)
  {
  }

  lemma Shifted(d: nat, p: nat, v: nat, b: nat)
    ensures (d * p + v) * b == d * (b * p) + v * b
  {
  }

  /** Base ten and base sixteen read a text of digits as its number by place value; letters, too, in base ten. */
  lemma {:induction false} NumeralIsPlaceValue(base: Base, d: seq<Octet>, digits: seq<nat>)
    requires Writes(d, digits)
    ensures Numeral(base, d) == PlaceValue(if base.Ten? then 10 else 16, digits)
    ensures forall c <- d :: IsHexDigit(c)
    decreases |d|
  {
    hide HexVal, IsHexDigit, PlaceValue;
    if d == [] {
      assert digits == [];
      NoPlaces(if base.Ten? then 10 else 16);
    } else {
      var n := |d| - 1;
      HexDigitValues(digits[n]);
      LastPlace(if base.Ten? then 10 else 16, digits);
      NumeralIsPlaceValue(base, d[..n], digits[..n]);
      assert d == d[..n] + [d[n]];
    }
  }

  lemma NoPlaces(b: nat)
    ensures PlaceValue(b, []) == 0
  {
  }

  lemma NumeralGrows(base: Base, d: seq<Octet>, i: nat)
    requires i <= |d|
    ensures Numeral(base, d[..i]) <= Numeral(base, d)
  {
    if i == |d| {
      assert d[..i] == d;
    } else {
      assert d[..|d| - 1][..i] == d[..i];
      NumeralGrows(base, d[..|d| - 1], i);
    }
  }

  /** A numeric reference is read right if and only if its number is below the limit or the overflow check
      fires at some digit; the numbers for which it stays silent are read modulo 2^32. */
  lemma RightUnlessSilent(base: Base, d: seq<Octet>, rest: seq<Octet>)
    requires forall c <- d :: IsHexDigit(c)
    ensures StrToEnt(base, d + [SEMICOLON] + rest, 0) == RightEnt(base, d)
            <==> Next(base, Numeral(base, d), Radix(base)) <= INT_MAX || SomeFires(base, d, 0)
  {
    hide StrToEnt, HexVal, IsHexDigit, Numeral;
    assert d[..0] == [] && d[0..] == d;
    NoDigitsYet(base);
    ReadsFrom(base, d, rest, 0);
    var v := Numeral(base, d);
    if Next(base, v, Radix(base)) <= INT_MAX {
      forall i | 0 <= i <= |d|
        ensures !Fires(base, Numeral(base, d[..i]))
      {
        NumeralGrows(base, d, i);
      }
    }
  }

  lemma NoDigitsYet(base: Base)
    ensures Wrap32(Numeral(base, [])) == Numeral(base, []) == 0
  {
  }

  lemma NumeralStep(base: Base, d: seq<Octet>, i: nat)
    requires i < |d|
    ensures Numeral(base, d[..i + 1]) == Next(base, Numeral(base, d[..i]), HexVal(d[i]))
  {
    assert d[..i + 1][..i] == d[..i];
  }

  /** The digits 100000041. */
  predicate IsSilentExample(d: seq<Octet>) {
    && |d| == 9 && d[0] == 0x31 && d[1] == 0x30 && d[2] == 0x30 && d[3] == 0x30 && d[4] == 0x30
    && d[5] == 0x30 && d[6] == 0x30 && d[7] == 0x34 && d[8] == 0x31
  }

  /** In base 16 they are far out of range, but they are read as the number 0x41. */
  lemma SilentOverflow(d: seq<Octet>, rest: seq<Octet>)
    requires IsSilentExample(d)
    ensures StrToEnt(Sixteen, d + [SEMICOLON] + rest, 0) == Ent(10, 0x41)
  {
    hide StrToEnt, Numeral;
    NoDigitsYet(Sixteen);
    assert d[..0] == [] && d[0..] == d && d[..9] == d;
    NumeralStep(Sixteen, d, 0);
    NumeralStep(Sixteen, d, 1);
    NumeralStep(Sixteen, d, 2);
    NumeralStep(Sixteen, d, 3);
    NumeralStep(Sixteen, d, 4);
    NumeralStep(Sixteen, d, 5);
    NumeralStep(Sixteen, d, 6);
    NumeralStep(Sixteen, d, 7);
    NumeralStep(Sixteen, d, 8);
    assert Numeral(Sixteen, d) == 0x1_0000_0041;
    ReadsFrom(Sixteen, d, rest, 0);
    assert !SomeFires(Sixteen, d, 0);
  }

  // ---------------------------------------------------------------- UTF-8

  /** The octets written for a number: UTF-8 with the five and six octet forms of its first definition. */
  function Utf8(v: nat): (o: seq<Octet>)
    requires v <= INT_MAX
    ensures 1 <= |o| <= 6
  {
    if v < 0x80 then [v]
    else if v < 0x800 then [0xc0 + v / 0x40, Tail(v)]
    else if v < 0x10000 then [0xe0 + v / 0x1000, Tail(v / 0x40), Tail(v)]
    else if v < 0x200000 then [0xf0 + v / 0x40000, Tail(v / 0x1000), Tail(v / 0x40), Tail(v)]
    else if v < 0x4000000 then
      [0xf8 + v / 0x1000000, Tail(v / 0x40000), Tail(v / 0x1000), Tail(v / 0x40), Tail(v)]
    else
      [0xfc + v / 0x40000000 % 2, Tail(v / 0x1000000), Tail(v / 0x40000), Tail(v / 0x1000), Tail(v / 0x40), Tail(v)]
  }

  function Tail(v: nat): Octet {
    0x80 + v % 0x40
  }

  /** The number that octets of the UTF-8 form stand for. */
  function FromUtf8(o: seq<Octet>): int
    requires 1 <= |o| <= 6
  {
    TailsFrom(o, 1, o[0] as int - [0, 0xc0, 0xe0, 0xf0, 0xf8, 0xfc][|o| - 1])
  }

  function TailsFrom(o: seq<Octet>, i: nat, v: int): int
    requires i <= |o|
    decreases |o| - i
  {
    if i == |o| then v else TailsFrom(o, i + 1, v * 0x40 + (o[i] as int - 0x80))
  }

  lemma TailStep(o: seq<Octet>, i: nat, v: nat, w: nat)
    requires i < |o| && o[i] == Tail(w) && w / 0x40 == v
    ensures TailsFrom(o, i, v) == TailsFrom(o, i + 1, w)
  {
  }

  /** The octets written for a number stand for that number, in the shortest of the six forms. */
  lemma Utf8StandsForIt(v: nat)
    requires v <= INT_MAX
    ensures FromUtf8(Utf8(v)) == v
    ensures |Utf8(v)| == (if v < 0x80 then 1 else if v < 0x800 then 2 else if v < 0x10000 then 3
                          else if v < 0x200000 then 4 else if v < 0x4000000 then 5 else 6)
  {
    hide TailsFrom, Tail;
    var o := Utf8(v);
    var (a, b, c, d, e) := (v / 0x40, v / 0x1000, v / 0x40000, v / 0x1000000, v / 0x40000000);
    assert a / 0x40 == b && b / 0x40 == c && c / 0x40 == d && d / 0x40 == e;
    var n := |o|;
    if n >= 6 { TailStep(o, n - 5, e, d); }
    if n >= 5 { TailStep(o, n - 4, d, c); }
    if n >= 4 { TailStep(o, n - 3, c, b); }
    if n >= 3 { TailStep(o, n - 2, b, a); }
    if n >= 2 { TailStep(o, n - 1, a, v); }
    TailsEnd(o, v);
  }

  lemma TailsEnd(o: seq<Octet>, v: int)
    ensures TailsFrom(o, |o|, v) == v
  {
  }
}
