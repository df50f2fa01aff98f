/** asn_strtol_lim (src/msg/INTEGER.c:966-1024): decimal text to a long, with its overflow edge. */
module Strtol {
  import opened Octets
  import opened IntegerCodec

  /** The result code with the position left in `*end`, and the number stored where there is one. */
  datatype Parsed =
    | Inval
    | ExpectMore(end: nat)
    | Range(end: nat)
    | ExtraData(end: nat, value: int)
    | Ok(end: nat, value: int)

  const UPPER_BOUNDARY := LONG_MAX / 10
  const MINUS: Octet := 0x2d
  const PLUS: Octet := 0x2b

  predicate IsDigit(c: Octet) {
    0x30 <= c <= 0x39
  }

  /** Every octet of s[i..n] is a digit. */
  predicate DigitRun(s: seq<Octet>, i: nat, n: nat)
    requires n <= |s|
  {
    forall k | i <= k < n :: IsDigit(s[k])
  }

  function Digit(c: Octet): int {
    c as int - 0x30
  }

  predicate HasSign(s: seq<Octet>) {
    s != [] && (s[0] == MINUS || s[0] == PLUS)
  }

  function AfterSign(s: seq<Octet>): (p: nat)
    ensures p <= |s| && p <= 1
  {
    if HasSign(s) then 1 else 0
  }

  // ---------------------------------------------------------------- what the text means

  /** The number that digits stand for. */
  function Magnitude(s: seq<Octet>): int {
    if s == [] then 0 else Magnitude(s[..|s| - 1]) * 10 + Digit(s[|s| - 1])
  }

  function DigitsEnd(s: seq<Octet>, i: nat): (n: nat)
    requires i <= |s|
    ensures i <= n <= |s| && DigitRun(s, i, n) && (n < |s| ==> !IsDigit(s[n]))
    decreases |s| - i
  {
    if i == |s| || !IsDigit(s[i]) then i
    else
      DigitsEnd(s, i + 1)
  }

  /** The largest magnitude that a number with this sign may have. */
  function Limit(negative: bool): int {
    if negative then LONG_MAX + 1 else LONG_MAX
  }

  /** The digit with which the number s[p..] leaves the range. */
  function FirstOver(s: seq<Octet>, p: nat, k: nat, n: nat, limit: int): nat
    requires p <= k < n <= |s| && Magnitude(s[p..n]) > limit
    decreases n - k
  {
    if k + 1 == n || Magnitude(s[p..k + 1]) > limit then k else FirstOver(s, p, k + 1, n, limit)
  }

  /** The intended result: the exact number, or the place where it stops being one. */
  function Exact(s: seq<Octet>): Parsed {
    if s == [] then Inval
    else if HasSign(s) && |s| == 1 then ExpectMore(1)
    else ExactFrom(s, AfterSign(s), AfterSign(s))
  }

  /** `k` is where the search for the digit out of range begins. */
  function ExactFrom(s: seq<Octet>, p: nat, k: nat): Parsed
    requires s != [] && p <= k <= |s| && p <= 1 && DigitRun(s, p, k)
  {
    var n, negative := DigitsEnd(s, k), s[0] == MINUS;
    var m := Magnitude(s[p..n]);
    if m > Limit(negative) then (if k < n then Range(FirstOver(s, p, k, n, Limit(negative))) else Inval)
    else
      var value := if negative then -m else m;
      if n == |s| then Ok(n, value) else ExtraData(n, value)
  }

  // ---------------------------------------------------------------- what the code does

  /** The loop: `l` and `sign` as in the code, signed overflow taken to wrap around. */
  function Loop(s: seq<Octet>, i: nat, l: Long, sign: int, lastDigitMax: int): (r: Parsed)
    requires i <= |s| && (sign == 1 || sign == -1)
    ensures r.Ok? ==> FitsLong(r.value)
    decreases |s| - i
  {
    if i == |s| then Ok(i, WrapLong(sign * l))
    else if !IsDigit(s[i]) then ExtraData(i, WrapLong(sign * l))
    else
      var d := Digit(s[i]);
      if l < UPPER_BOUNDARY then Loop(s, i + 1, WrapLong(l * 10 + d), sign, lastDigitMax)
      else if l == UPPER_BOUNDARY && d <= lastDigitMax then
        if sign > 0 then Loop(s, i + 1, WrapLong(l * 10 + d), sign, lastDigitMax)
        else Loop(s, i + 1, WrapLong(-l * 10 - d), 1, lastDigitMax)
      else Range(i)
  }

  function StrtolLim(s: seq<Octet>): (r: Parsed)
    ensures r.Ok? ==> FitsLong(r.value)
  {
    if s == [] then Inval
    else if HasSign(s) && |s| == 1 then ExpectMore(1)
    else
      var negative := s[0] == MINUS;
      Loop(s, AfterSign(s), 0, if negative then -1 else 1, LONG_MAX % 10 + if negative then 1 else 0)
  }

  /** The code, exact on every text outside the family that makes it flip its sign and go on. */
  method ReadLong(s: seq<Octet>) returns (r: Parsed)
    ensures r == StrtolLim(s)
    ensures r == Exact(s) <==> !Flips(s)
  {
    ExactUnlessItFlips(s);
    var sign, lastDigitMax := 1, LONG_MAX % 10;
    if |s| == 0 {
      return Inval;
    }
    var str := 0;
    if s[0] == MINUS {
      lastDigitMax, sign := lastDigitMax + 1, -1;
    }
    if s[0] == MINUS || s[0] == PLUS {
      str := 1;
      if str >= |s| {
        return ExpectMore(str);
      }
    }
    var l: Long := 0;
    while str < |s|
      invariant str <= |s| && (sign == 1 || sign == -1)
      invariant Loop(s, str, l, sign, lastDigitMax) == StrtolLim(s)
    {
      if !IsDigit(s[str]) {
        return ExtraData(str, WrapLong(sign * l));
      }
      var d := Digit(s[str]);
      if l < UPPER_BOUNDARY {
        l := WrapLong(l * 10 + d);
      } else if l == UPPER_BOUNDARY {
        if d <= lastDigitMax {
          if sign > 0 {
            l := WrapLong(l * 10 + d);
          } else {
            sign := 1;
            l := WrapLong(-l * 10 - d);
          }
        } else {
          return Range(str);
        }
      } else {
        return Range(str);
      }
      str := str + 1;
    }
    return Ok(str, WrapLong(sign * l));
  }

  // ---------------------------------------------------------------- where they agree

  /** At j the magnitude of a negative number reaches LONG_MAX / 10, the digit there is one that still
      fits, and yet another digit follows. */
  predicate FlipAt(s: seq<Octet>, p: nat, j: nat) {
    && p <= j && j + 1 < |s| && DigitRun(s, p, j + 2)
    && Magnitude(s[p..j]) == UPPER_BOUNDARY && s[j] <= 0x38
  }

  predicate FlipsFrom(s: seq<Octet>, p: nat, i: nat) {
    exists j | i <= j < |s| :: FlipAt(s, p, j)
  }

  predicate Flips(s: seq<Octet>) {
    s != [] && s[0] == MINUS && FlipsFrom(s, 1, 1)
  }

  lemma OneMoreDigit(s: seq<Octet>, p: nat, i: nat)
    requires p <= i < |s|
    ensures Magnitude(s[p..i + 1]) == Magnitude(s[p..i]) * 10 + Digit(s[i])
    ensures DigitRun(s, p, i) && IsDigit(s[i]) ==> DigitRun(s, p, i + 1)
  {
    assert s[p..i + 1][..i - p] == s[p..i];
  }

  /** Once out of range, more digits stay out of range. */
  lemma {:induction false} MagnitudeGrows(s: seq<Octet>, p: nat, i: nat, n: nat)
    requires p <= i <= n <= |s| && DigitRun(s, i, n) && Magnitude(s[p..i]) >= 0
    ensures Magnitude(s[p..n]) >= Magnitude(s[p..i])
    decreases n - i
  {
    if i < n {
      OneMoreDigit(s, p, i);
      MagnitudeGrows(s, p, i + 1, n);
    }
  }

  /** A digit within range moves the search on. */
  lemma ExactMovesOn(s: seq<Octet>, p: nat, i: nat)
    requires s != [] && p <= i < |s| && p <= 1 && DigitRun(s, p, i) && IsDigit(s[i])
    requires 0 <= Magnitude(s[p..i]) && Magnitude(s[p..i + 1]) <= Limit(s[0] == MINUS)
    ensures DigitRun(s, p, i + 1) && ExactFrom(s, p, i) == ExactFrom(s, p, i + 1)
  {
    OneMoreDigit(s, p, i);
  }

  /** A digit out of range is where the result points. */
  lemma ExactStops(s: seq<Octet>, p: nat, i: nat)
    requires s != [] && p <= i < |s| && p <= 1 && DigitRun(s, p, i) && IsDigit(s[i])
    requires 0 <= Magnitude(s[p..i]) && Magnitude(s[p..i + 1]) > Limit(s[0] == MINUS)
    ensures ExactFrom(s, p, i) == Range(i)
  {
    var n := DigitsEnd(s, i);
    MagnitudeGrows(s, p, i + 1, n);
  }

  /** After a flip that another digit follows, the loop goes on past the digit that is out of range. */
  lemma {:induction false} GoesOn(s: seq<Octet>, i: nat, l: Long, sign: int, m: int)
    requires i <= |s| && (sign == 1 || sign == -1)
    ensures var r := Loop(s, i, l, sign, m); (r.Range? || r.Ok? || r.ExtraData?) && r.end >= i
    decreases |s| - i
  {
    if i < |s| && IsDigit(s[i]) {
      var d := Digit(s[i]);
      if l < UPPER_BOUNDARY {
        GoesOn(s, i + 1, WrapLong(l * 10 + d), sign, m);
      } else if l == UPPER_BOUNDARY && d <= m {
        if sign > 0 {
          GoesOn(s, i + 1, WrapLong(l * 10 + d), sign, m);
        } else {
          GoesOn(s, i + 1, WrapLong(-l * 10 - d), 1, m);
        }
      }
    }
  }

  lemma ExactEnds(s: seq<Octet>, p: nat, i: nat)
    requires s != [] && p <= i <= |s| && p <= 1 && DigitRun(s, p, i) && (i < |s| ==> !IsDigit(s[i]))
    requires Magnitude(s[p..i]) <= Limit(s[0] == MINUS)
    ensures var m := Magnitude(s[p..i]);
            var value := if s[0] == MINUS then -m else m;
            ExactFrom(s, p, i) == if i == |s| then Ok(i, value) else ExtraData(i, value)
  {
    assert DigitsEnd(s, i) == i;
  }

  lemma WrapFits(v: int)
    requires FitsLong(v)
    ensures WrapLong(v) == v
  {
  }

  /** The digit that makes the code flip its sign. */
  lemma AtFlip(s: seq<Octet>, i: nat)
    requires s != [] && s[0] == MINUS && 1 <= i < |s| && DigitRun(s, 1, i) && IsDigit(s[i]) && s[i] <= 0x38
    requires Magnitude(s[1..i]) == UPPER_BOUNDARY
    ensures Loop(s, i, UPPER_BOUNDARY, -1, 8) == ExactFrom(s, 1, i) <==> !FlipsFrom(s, 1, i)
  {
    hide ExactFrom, Magnitude, WrapLong, Loop;
    OneMoreDigit(s, 1, i);
    ExactMovesOn(s, 1, i);
    var l := -UPPER_BOUNDARY * 10 - Digit(s[i]);
    WrapFits(l);
    FlipStep(s, i);
    if i + 1 < |s| && IsDigit(s[i + 1]) {
      OneMoreDigit(s, 1, i + 1);
      assert FlipAt(s, 1, i);
      ExactStops(s, 1, i + 1);
      FlippedStep(s, i + 1, l);
      GoesOn(s, i + 2, WrapLong(l * 10 + Digit(s[i + 1])), 1, 8);
    } else {
      ExactEnds(s, 1, i + 1);
      LoopEnds(s, i + 1, l, 1, 8);
      WrapFits(1 * l);
      NoDigitToCome(s, 1, i);
    }
  }

  lemma NoDigitToCome(s: seq<Octet>, p: nat, i: nat)
    requires p <= i < |s| && (i + 1 < |s| ==> !IsDigit(s[i + 1]))
    ensures !FlipsFrom(s, p, i)
  {
    forall j | i <= j < |s| && j + 1 < |s|
      ensures !FlipAt(s, p, j)
    {
      assert p <= i + 1 < j + 2;
    }
  }

  lemma FlipStep(s: seq<Octet>, i: nat)
    requires i < |s| && IsDigit(s[i]) && s[i] <= 0x38
    ensures Loop(s, i, UPPER_BOUNDARY, -1, 8) == Loop(s, i + 1, WrapLong(-UPPER_BOUNDARY * 10 - Digit(s[i])), 1, 8)
  {
  }

  lemma FlippedStep(s: seq<Octet>, i: nat, l: Long)
    requires i < |s| && IsDigit(s[i]) && l < UPPER_BOUNDARY
    ensures Loop(s, i, l, 1, 8) == Loop(s, i + 1, WrapLong(l * 10 + Digit(s[i])), 1, 8)
  {
  }

  lemma LoopEnds(s: seq<Octet>, i: nat, l: Long, sign: int, m: int)
    requires i <= |s| && (sign == 1 || sign == -1) && (i < |s| ==> !IsDigit(s[i]))
    ensures Loop(s, i, l, sign, m) == if i == |s| then Ok(i, WrapLong(sign * l)) else ExtraData(i, WrapLong(sign * l))
  {
  }

  lemma NoFlipHere(s: seq<Octet>, p: nat, i: nat)
    requires i < |s| && !FlipAt(s, p, i)
    ensures FlipsFrom(s, p, i) <==> FlipsFrom(s, p, i + 1)
  {
    if FlipsFrom(s, p, i) {
      var j :| i <= j < |s| && FlipAt(s, p, j);
      assert j != i;
    }
  }

  predicate StaysInRange(l: Long, d: int, negative: bool) {
    l < UPPER_BOUNDARY || (l == UPPER_BOUNDARY && d <= 7 && !negative)
  }

  lemma PlainStep(s: seq<Octet>, i: nat, l: Long, negative: bool)
    requires i < |s| && IsDigit(s[i]) && l >= 0
    ensures var (sign, m) := (if negative then -1 else 1, if negative then 8 else 7);
            var next := l * 10 + Digit(s[i]);
            if StaysInRange(l, Digit(s[i]), negative) then
              0 <= next <= LONG_MAX && Loop(s, i, l, sign, m) == Loop(s, i + 1, next, sign, m)
            else (l == UPPER_BOUNDARY && Digit(s[i]) <= 8 && negative)
                 || (Loop(s, i, l, sign, m) == Range(i) && next > Limit(negative))
  {
    hide WrapLong;
    if StaysInRange(l, Digit(s[i]), negative) {
      WrapFits(l * 10 + Digit(s[i]));
    }
  }

  lemma {:induction false} LoopIsExact(s: seq<Octet>, p: nat, i: nat, l: Long)
    requires s != [] && p == AfterSign(s) <= i <= |s| && DigitRun(s, p, i)
    requires l == Magnitude(s[p..i]) >= 0
    ensures var negative := s[0] == MINUS;
            Loop(s, i, l, if negative then -1 else 1, if negative then 8 else 7) == ExactFrom(s, p, i)
            <==> !(negative && FlipsFrom(s, p, i))
    decreases |s| - i
  {
    hide ExactFrom, Magnitude, WrapLong, Loop, FlipsFrom;
    var negative := s[0] == MINUS;
    if i < |s| && IsDigit(s[i]) {
      var d := Digit(s[i]);
      OneMoreDigit(s, p, i);
      PlainStep(s, i, l, negative);
      if StaysInRange(l, d, negative) {
        ExactMovesOn(s, p, i);
        LoopIsExact(s, p, i + 1, l * 10 + d);
        if negative {
          NoFlipHere(s, p, i);
        }
      } else if l == UPPER_BOUNDARY && d <= 8 && negative {
        AtFlip(s, i);
      } else {
        ExactStops(s, p, i);
        if negative {
          NoMoreFlips(s, p, i);
        }
      }
    } else {
      ExactEnds(s, p, i);
      var sign := if negative then -1 else 1;
      LoopEnds(s, i, l, sign, if negative then 8 else 7);
      WrapFits(sign * l);
      NoMoreFlips(s, p, i);
    }
  }

  /** No flip can come where the text ends, at a character that is no digit, or out of range. */
  lemma NoMoreFlips(s: seq<Octet>, p: nat, i: nat)
    requires p <= i <= |s| && DigitRun(s, p, i)
    requires i < |s| && IsDigit(s[i])
             ==> Magnitude(s[p..i]) > UPPER_BOUNDARY || (Magnitude(s[p..i]) == UPPER_BOUNDARY && s[i] > 0x38)
    ensures !FlipsFrom(s, p, i)
  {
    hide Magnitude;
    forall j | i <= j && j + 1 < |s| && DigitRun(s, p, j + 2)
      ensures !FlipAt(s, p, j)
    {
      assert IsDigit(s[i]);
      MagnitudeGrows(s, p, i, j);
      OneMoreDigit(s, p, i);
      if j > i {
        MagnitudeGrows(s, p, i + 1, j);
      }
    }
  }

  /** The reader returns the exact number, or the exact place where it leaves the range or the digits end,
      if and only if it does not flip with a digit to come. */
  lemma ExactUnlessItFlips(s: seq<Octet>)
    ensures StrtolLim(s) == Exact(s) <==> !Flips(s)
  {
    if s != [] && !(HasSign(s) && |s| == 1) {
      LoopIsExact(s, AfterSign(s), AfterSign(s), 0);
    }
  }


  lemma {:induction false} ReachesBoundary(s: seq<Octet>, i: nat, k: nat)
    requires 1 <= i <= k <= |s| && DigitRun(s, 1, k) 
    requires 0 <= Magnitude(s[1..i]) <= Magnitude(s[1..k]) <= UPPER_BOUNDARY
    ensures Loop(s, i, Magnitude(s[1..i]), -1, 8) == Loop(s, k, Magnitude(s[1..k]), -1, 8)
    decreases k - i
  {
    hide Loop, Magnitude;
    if i < k {
      OneMoreDigit(s, 1, i);
      MagnitudeGrows(s, 1, i + 1, k);
      PlainStep(s, i, Magnitude(s[1..i]), true);
      ReachesBoundary(s, i + 1, k);
    }
  }

  /** Ten times the magnitude of LONG_MIN is out of range, but the code returns zero for it. */
  lemma FlippedNumberIsZero(s: seq<Octet>)
    requires |s| >= 4 && s[0] == MINUS && FlipAt(s, 1, |s| - 2) && s[|s| - 2] == 0x38 && s[|s| - 1] == 0x30
    ensures StrtolLim(s) == Ok(|s|, 0)
  {
    hide Loop, Magnitude, WrapLong;
    NoDigitsYet(s, 1);
    ReachesBoundary(s, 1, |s| - 2);
    FlipStep(s, |s| - 2);
    WrapFits(LONG_MIN);
    FlippedStep(s, |s| - 1, LONG_MIN);
    TenTimesMin();
    LoopEnds(s, |s|, 0, 1, 8);
    WrapFits(0);
  }

  lemma TenTimesMin()
    ensures WrapLong(LONG_MIN * 10 + Digit(0x30)) == 0
  {
  }

  lemma NoDigitsYet(s: seq<Octet>, p: nat)
    requires p <= |s|
    ensures Magnitude(s[p..p]) == 0
  {
  }

  lemma ThreeDigits(s: seq<Octet>, i: nat, m: int, three: int)
    requires 1 <= i && i + 3 <= |s| && DigitRun(s, i, i + 3) && Magnitude(s[1..i]) == m
    requires three == 100 * Digit(s[i]) + 10 * Digit(s[i + 1]) + Digit(s[i + 2])
    ensures Magnitude(s[1..i + 3]) == m * 1000 + three
  {
    hide Magnitude;
    OneMoreDigit(s, 1, i);
    OneMoreDigit(s, 1, i + 1);
    OneMoreDigit(s, 1, i + 2);
  }

  /** The text "-922 337 203 685 477 580 80" without the blanks. */
  predicate IsFlippedExample(s: seq<Octet>) {
    && |s| == 21 && s[0] == 0x2d
    && s[1] == 0x39 && s[2] == 0x32 && s[3] == 0x32
    && s[4] == 0x33 && s[5] == 0x33 && s[6] == 0x37
    && s[7] == 0x32 && s[8] == 0x30 && s[9] == 0x33
    && s[10] == 0x36 && s[11] == 0x38 && s[12] == 0x35
    && s[13] == 0x34 && s[14] == 0x37 && s[15] == 0x37
    && s[16] == 0x35 && s[17] == 0x38 && s[18] == 0x30
    && s[19] == 0x38 && s[20] == 0x30
  }

  /** It is out of range, but is read as the number 0. */
  lemma FlippedExample(s: seq<Octet>)
    requires IsFlippedExample(s)
    ensures StrtolLim(s) == Ok(21, 0) && Exact(s) != Ok(21, 0)
  {
    hide StrtolLim, Magnitude, Exact;
    NoDigitsYet(s, 1);
    ThreeDigits(s, 1, 0, 922);
    ThreeDigits(s, 4, 922, 337);
    ThreeDigits(s, 7, 922337, 203);
    ThreeDigits(s, 10, 922337203, 685);
    ThreeDigits(s, 13, 922337203685, 477);
    ThreeDigits(s, 16, 922337203685477, 580);
    assert FlipAt(s, 1, 19);
    FlippedNumberIsZero(s);
    ExactUnlessItFlips(s);
  }
}
