/** INTEGER contents octets as two's-complement numbers of any length (section 8.3 of ITU-T X.690). */
module IntegerValue {
  import opened Octets

  function Pow256(n: nat): (r: nat)
    ensures r >= 1
  {
    if n == 0 then 1 else 256 * Pow256(n - 1)
  }

  /** The octets read as one unsigned number, first octet most significant. */
  function Unsigned(s: seq<Octet>): nat {
    if s == [] then 0 else Unsigned(s[..|s| - 1]) * 256 + s[|s| - 1]
  }

  function Signed(s: seq<Octet>): int {
    if s != [] && s[0] >= 128 then Unsigned(s) - Pow256(|s|) else Unsigned(s)
  }

  /** Bits of the first octet and bit 8 of the second are all zeros or all ones (section 8.3.2). */
  predicate Redundant(s: seq<Octet>) {
    |s| >= 2 && ((s[0] == 0x00 && s[1] < 128) || (s[0] == 0xff && s[1] >= 128))
  }

  predicate Canonical(s: seq<Octet>) {
    !Redundant(s)
  }

  function Strip(s: seq<Octet>): (r: seq<Octet>)
    ensures Canonical(r) && |r| <= |s| && (s != [] ==> r != [] && (r[0] >= 128 <==> s[0] >= 128))
  {
    if Redundant(s) then Strip(s[1..]) else s
  }

  /** The n low-order octets of u. */
  function Digits(u: nat, n: nat): (r: seq<Octet>)
    ensures |r| == n
    decreases n
  {
    if n == 0 then [] else Digits(u / 256, n - 1) + [u % 256]
  }

  // ---------------------------------------------------------------- unsigned reading

  lemma {:induction false} UnsignedHead(s: seq<Octet>)
    requires s != []
    ensures Unsigned(s) == s[0] * Pow256(|s| - 1) + Unsigned(s[1..])
    decreases |s|
  {
    if |s| == 1 {
      assert s[..0] == [] && s[1..] == [];
    } else {
      var init := s[..|s| - 1];
      UnsignedHead(init);
      assert init[1..] == s[1..][..|s| - 2];
      assert s[0] * Pow256(|s| - 1) == 256 * (s[0] * Pow256(|s| - 2));
    }
  }

  lemma {:induction false} UnsignedBound(s: seq<Octet>)
    ensures Unsigned(s) < Pow256(|s|)
    decreases |s|
  {
    if s != [] {
      UnsignedBound(s[..|s| - 1]);
    }
  }

  lemma {:induction false} UnsignedInjective(a: seq<Octet>, b: seq<Octet>)
    requires |a| == |b| && Unsigned(a) == Unsigned(b)
    ensures a == b
    decreases |a|
  {
    if a != [] {
      var (x, y) := (a[..|a| - 1], b[..|b| - 1]);
      assert Unsigned(x) == Unsigned(y);
      UnsignedInjective(x, y);
      assert a == x + [a[|a| - 1]] && b == y + [b[|b| - 1]];
    }
  }

  lemma {:induction false} DigitsValue(u: nat, n: nat)
    requires u < Pow256(n)
    ensures Unsigned(Digits(u, n)) == u
    decreases n
  {
    if n != 0 {
      DigitsValue(u / 256, n - 1);
      assert Digits(u, n)[..n - 1] == Digits(u / 256, n - 1);
    }
  }

  lemma {:induction false} Pow256Grows(a: nat, b: nat)
    requires a <= b
    ensures Pow256(a) <= Pow256(b)
    decreases b - a
  {
    if a < b {
      Pow256Grows(a + 1, b);
    }
  }

  // ---------------------------------------------------------------- signed reading

  /** n octets hold exactly the numbers that fit 8n bits. */
  lemma SignedBound(s: seq<Octet>)
    requires s != []
    ensures -128 * Pow256(|s| - 1) <= Signed(s) < 128 * Pow256(|s| - 1)
  {
    HeadBounds(s);
  }

  lemma HeadBounds(s: seq<Octet>)
    requires s != []
    ensures s[0] * Pow256(|s| - 1) <= Unsigned(s) < (s[0] + 1) * Pow256(|s| - 1)
    ensures s[0] < 128 ==> Unsigned(s) < 128 * Pow256(|s| - 1)
    ensures s[0] >= 128 ==> Unsigned(s) >= 128 * Pow256(|s| - 1)
    ensures s[0] >= 1 ==> Unsigned(s) >= Pow256(|s| - 1)
    ensures s[0] < 255 ==> Unsigned(s) < 255 * Pow256(|s| - 1)
    ensures Unsigned(s) < Pow256(|s|)
  {
    UnsignedHead(s);
    UnsignedBound(s[1..]);
    UnsignedBound(s);
    var p := Pow256(|s| - 1);
    Times(s[0], p);
  }

  lemma Times(x: Octet, p: nat)
    ensures x < 128 ==> x * p <= 127 * p
    ensures x >= 128 ==> x * p >= 128 * p
    ensures x >= 1 ==> x * p >= p
    ensures x < 255 ==> x * p <= 254 * p
    ensures x <= 255 ==> x * p <= 255 * p
    ensures (x + 1) * p == x * p + p
  {
    Scaled(if x < 128 then x else 128, if x < 128 then 127 else x, p);
    Scaled(x, 255, p);
    if x < 255 {
      Scaled(x, 254, p);
    }
    if x >= 1 {
      Scaled(1, x, p);
    }
  }

  lemma Scaled(a: nat, b: nat, p: nat)
    requires a <= b
    ensures a * p <= b * p
  {
  }

  /** A canonical string of two octets or more is too large for one octet less. */
  lemma CanonicalIsLarge(s: seq<Octet>)
    requires |s| >= 2 && Canonical(s)
    ensures Signed(s) < -128 * Pow256(|s| - 2) || Signed(s) >= 128 * Pow256(|s| - 2)
  {
    HeadBounds(s);
    HeadBounds(s[1..]);
    UnsignedHead(s);
  }

  /** A leading 0x00 before a clear bit 8, or 0xff before a set one, carries no information. */
  lemma StripKeepsOne(s: seq<Octet>)
    requires Redundant(s)
    ensures Signed(s[1..]) == Signed(s)
    ensures s[0] == 0 ==> Unsigned(s[1..]) == Unsigned(s)
  {
    hide Unsigned, Pow256;
    UnsignedHead(s);
    Pow256Step(|s| - 1);
    if s[0] == 0 {
      assert s[1..][0] < 128;
    } else {
      assert s[1..][0] >= 128;
    }
  }

  lemma Pow256Step(n: nat)
    ensures Pow256(n + 1) == 256 * Pow256(n)
  {
  }

  /** Dropping superfluous leading octets keeps the number. */
  lemma {:induction false} StripKeepsValue(s: seq<Octet>)
    ensures Signed(Strip(s)) == Signed(s)
    ensures s != [] && s[0] < 128 ==> Unsigned(Strip(s)) == Unsigned(s)
    decreases |s|
  {
    if Redundant(s) {
      StripKeepsOne(s);
      StripKeepsValue(s[1..]);
    }
  }

  /** The canonical form of a number is unique (section 8.3.2): one canonical string for each value. */
  lemma CanonicalIsUnique(a: seq<Octet>, b: seq<Octet>)
    requires a != [] && b != [] && Canonical(a) && Canonical(b) && Signed(a) == Signed(b)
    ensures a == b
  {
    if |a| < |b| {
      LengthsDiffer(a, b);
    } else if |b| < |a| {
      LengthsDiffer(b, a);
    } else {
      HeadBounds(a);
      HeadBounds(b);
      UnsignedInjective(a, b);
    }
  }

  lemma LengthsDiffer(a: seq<Octet>, b: seq<Octet>)
    requires a != [] && |a| < |b| && Canonical(b)
    ensures Signed(a) != Signed(b)
  {
    SignedBound(a);
    CanonicalIsLarge(b);
    Pow256Grows(|a| - 1, |b| - 2);
  }

  /** Canonical is shortest: no other string for the same number has fewer octets, and stripping reaches it. */
  lemma StripIsShortest(s: seq<Octet>, t: seq<Octet>)
    requires s != [] && t != [] && Signed(s) == Signed(t)
    ensures |Strip(s)| <= |t| && Strip(s) == Strip(t) && Strip(Strip(s)) == Strip(s)
  {
    StripKeepsValue(s);
    StripKeepsValue(t);
    CanonicalIsUnique(Strip(s), Strip(t));
  }
}
