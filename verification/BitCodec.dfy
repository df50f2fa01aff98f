/** BIT STRING as text of zeros and ones (src/msg/BIT_STRING.c:75-134, src/msg/OCTET_STRING.c:860-917). */
module BitCodec {
  import opened Octets
  import opened XerText

  const ZERO: Octet := 0x30
  const ONE: Octet := 0x31

  // ---------------------------------------------------------------- bits and octets

  /** `(o & (1 << k)) != 0`. */
  predicate BitOf(o: nat, k: nat)
    decreases k
  {
    if k == 0 then o % 2 == 1 else BitOf(o / 2, k - 1)
  }

  /** `o | bit << k`. */
  function WithBit(o: nat, k: nat, bit: bool): nat
    decreases k
  {
    if k > 0 then 2 * WithBit(o / 2, k - 1, bit) + o % 2
    else if bit && o % 2 == 0 then o + 1 else o
  }

  lemma {:induction false} WithBitSets(o: nat, k: nat, bit: bool, j: nat)
    ensures BitOf(WithBit(o, k, bit), j) == if j == k then BitOf(o, k) || bit else BitOf(o, j)
    decreases k
  {
    if k > 0 && j > 0 {
      WithBitSets(o / 2, k - 1, bit, j - 1);
    }
  }

  lemma {:induction false} WithBitBound(o: nat, k: nat, bit: bool, n: nat)
    requires o < Pow2(n) && k < n
    ensures WithBit(o, k, bit) < Pow2(n)
    decreases k
  {
    var half := Pow2(n - 1);
    assert Pow2(n) == 2 * half && o / 2 < half;
    if k > 0 {
      WithBitBound(o / 2, k - 1, bit, n - 1);
    }
  }

  /** The same for an octet. */
  function SetBit(o: Octet, k: nat, bit: bool): (r: Octet)
    requires k < 8
    ensures forall j | 0 <= j < 8 :: BitOf(r, j) == if j == k then BitOf(o, k) || bit else BitOf(o, j)
  {
    assert Pow2(8) == 256;
    WithBitBound(o, k, bit, 8);
    assert forall j | 0 <= j < 8 ::
        BitOf(WithBit(o, k, bit), j) == if j == k then BitOf(o, k) || bit else BitOf(o, j) by {
      forall j | 0 <= j < 8
        ensures BitOf(WithBit(o, k, bit), j) == if j == k then BitOf(o, k) || bit else BitOf(o, j)
      {
        WithBitSets(o, k, bit, j);
      }
    }
    WithBit(o, k, bit)
  }

  lemma {:induction false} SameNumber(a: nat, b: nat, n: nat)
    requires a < Pow2(n) && b < Pow2(n) && forall k | 0 <= k < n :: BitOf(a, k) == BitOf(b, k)
    ensures a == b
    decreases n
  {
    if n > 0 {
      assert BitOf(a, 0) == BitOf(b, 0);
      forall k | 0 <= k < n - 1
        ensures BitOf(a / 2, k) == BitOf(b / 2, k)
      {
        assert BitOf(a, k + 1) == BitOf(b, k + 1);
      }
      SameNumber(a / 2, b / 2, n - 1);
    }
  }

  lemma SameBits(a: Octet, b: Octet)
    requires forall k | 0 <= k < 8 :: BitOf(a, k) == BitOf(b, k)
    ensures a == b
  {
    assert Pow2(8) == 256;
    SameNumber(a, b, 8);
  }

  lemma {:induction false} NoBits(k: nat)
    ensures !BitOf(0, k)
    decreases k
  {
    if k > 0 {
      NoBits(k - 1);
    }
  }

  /** The value bits of octets whose last `unused` bits do not count. */
  function Bits(s: seq<Octet>, unused: nat): (b: seq<bool>)
    requires unused <= 8 * |s|
    ensures |b| == 8 * |s| - unused
  {
    seq(8 * |s| - unused, i requires 0 <= i < 8 * |s| - unused => BitOf(s[i / 8], 7 - i % 8))
  }

  /** How many octets n bits take. */
  function Cells(n: nat): nat {
    (n + 7) / 8
  }

  /** `s` holds exactly the bits b, with zeros after them: bit string contents with zero padding. */
  predicate Holds(s: seq<Octet>, b: seq<bool>) {
    && |s| == Cells(|b|)
    && forall i | 0 <= i < 8 * |s| :: BitOf(s[i / 8], 7 - i % 8) == (i < |b| && b[i])
  }

  /** The number of padding bits. */
  function Padding(n: nat): (u: Octet)
    ensures u < 8 && (n + u) % 8 == 0
  {
    (8 - n % 8) % 8
  }

  /** The bits a text stands for. */
  function TextBits(t: seq<Octet>): (b: seq<bool>)
    ensures |b| <= |t|
  {
    if t == [] then []
    else
      var c := t[|t| - 1];
      TextBits(t[..|t| - 1]) + if c == ZERO || c == ONE then [c == ONE] else []
  }

  predicate Convertible(t: seq<Octet>) {
    forall c <- t :: IsBlank(c) || c == ZERO || c == ONE
  }

  /** There is only one way to hold given bits. */
  lemma HeldOnce(s: seq<Octet>, t: seq<Octet>, b: seq<bool>)
    requires Holds(s, b) && Holds(t, b)
    ensures s == t
  {
    forall k | 0 <= k < |s|
      ensures s[k] == t[k]
    {
      forall j | 0 <= j < 8
        ensures BitOf(s[k], j) == BitOf(t[k], j)
      {
        var i := 8 * k + (7 - j);
        assert i / 8 == k && 7 - i % 8 == j;
      }
      SameBits(s[k], t[k]);
    }
  }

  lemma {:induction false} TextBitsJoin(a: seq<Octet>, b: seq<Octet>)
    ensures TextBits(a + b) == TextBits(a) + TextBits(b)
    decreases |b|
  {
    if b == [] {
      assert a + b == a;
    } else {
      var c := b[|b| - 1];
      var bit := if c == ZERO || c == ONE then [c == ONE] else [];
      TextBitsJoin(a, b[..|b| - 1]);
      assert (a + b)[..|a + b| - 1] == a + b[..|b| - 1] && (a + b)[|a + b| - 1] == c;
      assert TextBits(a + b) == TextBits(a + b[..|b| - 1]) + bit;
      assert TextBits(b) == TextBits(b[..|b| - 1]) + bit;
    }
  }

  lemma ConvertibleJoin(a: seq<Octet>, b: seq<Octet>)
    ensures Convertible(a + b) <==> Convertible(a) && Convertible(b)
  {
    assert forall c <- a :: c in a + b;
    assert forall c <- b :: c in a + b;
  }

  // ---------------------------------------------------------------- the converter

  /** A string that the converter may go on filling: it holds some bits, zero padded. */
  ghost predicate Filling(st: XerString, b: seq<bool>)
    reads st, st.buf
  {
    st.Valid() && st.bitsUnused == Padding(|b|) && Holds(st.Contents(), b)
  }

  /** One more bit goes into the last octet, or into a zero octet after it. */
  lemma OneMoreBit(s: seq<Octet>, b: seq<bool>, bit: bool)
    requires Holds(s, b)
    ensures Holds(Appended(s, |b|, bit), b + [bit])
  {
    hide BitOf;
    var n, t := |b|, Appended(s, |b|, bit);
    assert Cells(n + 1) == n / 8 + 1;
    forall i | 0 <= i < 8 * |t|
      ensures BitOf(t[i / 8], 7 - i % 8) == (i < n + 1 && (b + [bit])[i])
    {
      if i / 8 == n / 8 {
        if n % 8 == 0 {
          NoBits(7 - i % 8);
        }
      }
    }
  }

  /** Contents with the bit in place n set, where n is just after the bits that they hold. */
  function Appended(s: seq<Octet>, n: nat, bit: bool): seq<Octet>
    requires |s| == Cells(n)
  {
    if n % 8 == 0 then s + [SetBit(0, 7, bit)] else s[n / 8 := SetBit(s[n / 8], 7 - n % 8, bit)]
  }

  lemma OneMoreChar(t: seq<Octet>, p: nat)
    requires p < |t|
    ensures TextBits(t[..p + 1]) == TextBits(t[..p]) + if t[p] == ZERO || t[p] == ONE then [t[p] == ONE] else []
    ensures Convertible(t[..p + 1]) <==> Convertible(t[..p]) && (IsBlank(t[p]) || t[p] == ZERO || t[p] == ONE)
  {
    assert t[..p + 1][..p] == t[..p];
    assert t[..p + 1] == t[..p] + [t[p]];
  }

  lemma StaysBad(t: seq<Octet>, p: nat)
    requires p <= |t| && !Convertible(t[..p])
    ensures !Convertible(t)
  {
  }

  /** Where the next bit goes: `unused` is 8 only before the first bit, in an octet that is still to be counted. */
  predicate Places(n: nat, at: nat, unused: int) {
    if unused == 8 then n % 8 == 0 && at == n / 8
    else n > 0 && unused == Padding(n) && at == (n - 1) / 8
  }

  /** OCTET_STRING__convert_binary appends the bits of a chunk, within the estimated capacity. */
  method ConvertBinary(st: XerString, chunk: seq<Octet>, ghost was: seq<bool>) returns (r: Converted)
    requires Filling(st, was)
    modifies st
    ensures fresh(st.buf) && st.buf.Length == old(st.size) + (|chunk| + 7) / 8 + 1
    ensures if Convertible(chunk) then r == Converted([], |chunk|) && Filling(st, was + TextBits(chunk))
            else r.Rejected?
  {
    hide Holds, TextBits, Convertible;
    ghost var before := st.Contents();
    assert |before| == Cells(|was|) by {
      HoldsSize(before, was);
    }
    st.Reserve(st.size + (|chunk| + 7) / 8);
    assert st.buf[..st.size + 1][..st.size] == before && st.buf[..st.size + 1][st.size] == 0;
    var ok, at, unused := ConvertBits(st.buf, st.size, st.bitsUnused, chunk, was);
    if !ok {
      st.bitsUnused := unused;
      return Rejected;
    }
    if unused == 8 {
      st.size, st.bitsUnused := at, 0;
    } else {
      st.size, st.bitsUnused := at + 1, unused;
    }
    Terminate(st.buf, st.size);
    return Converted([], |chunk|);
  }

  lemma HoldsSize(s: seq<Octet>, b: seq<bool>)
    requires Holds(s, b)
    ensures |s| == Cells(|b|)
  {
  }

  /** Put one bit where it goes. */
  method PutBit(buf: array<Octet>, at: nat, unused: int, bit: bool, ghost b: seq<bool>)
      returns (next: nat, left: int)
    requires Places(|b|, at, unused) && (unused == 8 ==> at < buf.Length && buf[at] == 0)
    requires Cells(|b|) <= Cells(|b| + 1) <= buf.Length && Holds(buf[..Cells(|b|)], b)
    modifies buf
    ensures 0 <= left < 8 && Places(|b| + 1, next, left)
    ensures next + 1 == Cells(|b| + 1) && Holds(buf[..next + 1], b + [bit])
  {
    hide Holds, Appended, SetBit, Padding, Places, Cells;
    ghost var held := buf[..Cells(|b|)];
    OneMoreBit(held, b, bit);
    PlaceNext(|b|, at, unused);
    next, left := at, unused;
    if left <= 0 {
      next := next + 1;
      buf[next] := 0;
      left := 7;
    } else {
      left := left - 1;
    }
    buf[next] := SetBit(buf[next], left, bit);
    AppendedIs(held, |b|, bit, buf[..next + 1]);
  }

  /** The loop over the characters of a chunk. */
  method ConvertBits(buf: array<Octet>, size: nat, bitsUnused: Octet, chunk: seq<Octet>, ghost was: seq<bool>)
      returns (ok: bool, at: nat, unused: int)
    requires size == Cells(|was|) && buf.Length == size + (|chunk| + 7) / 8 + 1
    requires Holds(buf[..size], was) && buf[size] == 0 && bitsUnused == Padding(|was|)
    modifies buf
    ensures ok == Convertible(chunk) && 0 <= unused <= 8
    ensures ok ==> var b := was + TextBits(chunk);
                   && Places(|b|, at, unused)
                   && Cells(|b|) < buf.Length && Holds(buf[..Cells(|b|)], b)
  {
    hide Holds, Convertible, TextBits, IsBlank, Places, Padding, Cells;
    at, unused := PlaceFirst(size, bitsUnused, |was|);
    ghost var b := was;
    var p := 0;
    assert chunk[..0] == [];
    NothingRead();
    while p < |chunk|
      invariant p <= |chunk| && Convertible(chunk[..p])
      invariant b == was + TextBits(chunk[..p]) && |b| <= |was| + p
      invariant 0 <= unused <= 8 && Places(|b|, at, unused) && (unused == 8 ==> at < buf.Length && buf[at] == 0)
      invariant Cells(|b|) < buf.Length && Holds(buf[..Cells(|b|)], b)
    {
      var c := chunk[p];
      OneMoreChar(chunk, p);
      p := p + 1;
      if IsBlank(c) {
        BlankIsNoBit(c);
      } else if c == ZERO || c == ONE {
        Room(|was|, |chunk|, |b|);
        at, unused := PutBit(buf, at, unused, c == ONE, b);
        b := b + [c == ONE];
      } else {
        StaysBad(chunk, p);
        return false, at, unused;
      }
    }
    assert chunk[..p] == chunk;
    ok := true;
  }

  /** The setting of the write position before the loop. */
  method PlaceFirst(size: nat, bitsUnused: Octet, ghost n: nat) returns (at: nat, unused: int)
    requires size == Cells(n) && bitsUnused == Padding(n)
    ensures 0 <= unused <= 8 && Places(n, at, unused) && (unused == 8 ==> at == size)
  {
    at, unused := size, bitsUnused % 8;
    if unused == 0 {
      unused := 8;
    } else if size > 0 {
      at := at - 1;
    }
  }

  lemma NothingRead()
    ensures TextBits([]) == [] && Convertible([])
  {
  }

  lemma BlankIsNoBit(c: Octet)
    requires IsBlank(c)
    ensures c != ZERO && c != ONE
  {
  }

  lemma Room(was: nat, chunk: nat, n: nat)
    requires n < was + chunk
    ensures Cells(n) <= Cells(n + 1) <= Cells(was) + (chunk + 7) / 8
  {
  }

  /** The cell and the place in it for bit n. */
  lemma PlaceNext(n: nat, at: nat, unused: int)
    requires Places(n, at, unused)
    ensures var (a, u) := if unused <= 0 then (at + 1, 7) else (at, unused - 1);
            a == n / 8 && u == 7 - n % 8 && Places(n + 1, a, u) && Cells(n + 1) == a + 1
            && Cells(n) == (if n % 8 == 0 then a else a + 1)
            && (n % 8 == 0 <==> unused <= 0 || unused == 8)
  {
    var q, r := n / 8, n % 8;
    assert n == 8 * q + r;
  }

  /** Setting a bit in a cell array is appending it. */
  lemma AppendedIs(held: seq<Octet>, n: nat, bit: bool, after: seq<Octet>)
    requires |held| == Cells(n) && |after| == n / 8 + 1 && after[..n / 8] == held[..n / 8]
    requires after[n / 8] == SetBit(if n % 8 == 0 then 0 else held[n / 8], 7 - n % 8, bit)
    ensures after == Appended(held, n, bit)
  {
    hide SetBit;
  }

  // ---------------------------------------------------------------- chunks

  /** However a text is cut into chunks, the string ends up holding the bits of the whole text. */
  method ConvertPieces(st: XerString, pieces: seq<seq<Octet>>, ghost was: seq<bool>) returns (ok: bool)
    requires Filling(st, was)
    modifies st
    ensures ok == Convertible(Joined(pieces))
    ensures ok ==> Filling(st, was + TextBits(Joined(pieces)))
  {
    hide Filling, Convertible, TextBits;
    ok := true;
    var k := 0;
    ghost var b := was;
    NothingRead();
    assert pieces[0..] == pieces;
    while k < |pieces|
      invariant k <= |pieces| && Filling(st, b)
      invariant was + TextBits(Joined(pieces)) == b + TextBits(Joined(pieces[k..]))
      invariant Convertible(Joined(pieces)) == Convertible(Joined(pieces[k..]))
    {
      assert Joined(pieces[k..]) == pieces[k] + Joined(pieces[k..][1..]);
      assert pieces[k..][1..] == pieces[k + 1..];
      TextBitsJoin(pieces[k], Joined(pieces[k + 1..]));
      ConvertibleJoin(pieces[k], Joined(pieces[k + 1..]));
      var r := ConvertBinary(st, pieces[k], b);
      if r.Rejected? {
        return false;
      }
      b := b + TextBits(pieces[k]);
      k := k + 1;
    }
    assert Joined(pieces[k..]) == [];
    assert b + [] == b;
  }

  // ---------------------------------------------------------------- the encoder

  /** The four characters of a row of the table of bit patterns. */
  function Pattern(v: nat): (t: seq<Octet>)
    requires v < 16
    ensures |t| == 4
  {
    [ZERO + v / 8, ZERO + v / 4 % 2, ZERO + v / 2 % 2, ZERO + v % 2]
  }

  /** Four bits from place 3 down. */
  function LowBits(o: nat): (b: seq<bool>)
    ensures |b| == 4
  {
    [BitOf(o, 3), BitOf(o, 2), BitOf(o, 1), BitOf(o, 0)]
  }

  lemma PatternBits(v: nat)
    requires v < 16
    ensures Convertible(Pattern(v)) && TextBits(Pattern(v)) == LowBits(v)
  {
    var t := Pattern(v);
    assert t[..3][..2] == t[..2] && t[..2][..1] == t[..1] && t[..1][..0] == [];
    assert TextBits(t[..1]) == [t[0] == ONE];
    assert TextBits(t[..2]) == [t[0] == ONE, t[1] == ONE];
    assert TextBits(t[..3]) == [t[0] == ONE, t[1] == ONE, t[2] == ONE];
    assert v / 2 / 2 == v / 4 && v / 4 / 2 == v / 8;
    assert BitOf(v, 3) == BitOf(v / 4, 1) && BitOf(v, 2) == BitOf(v / 4, 0);
  }

  lemma BitHigh(o: nat, k: nat)
    ensures BitOf(o, k + 4) == BitOf(o / 16, k)
  {
    var a, b, c := o / 2, o / 4, o / 8;
    assert a / 2 == b && b / 2 == c && c / 2 == o / 16;
    assert BitOf(o, k + 4) == BitOf(a, k + 3);
    assert BitOf(a, k + 3) == BitOf(b, k + 2);
    assert BitOf(b, k + 2) == BitOf(c, k + 1);
  }

  lemma HalfOfRest16(o: nat)
    ensures o % 16 / 2 == o / 2 % 8 && o % 16 % 2 == o % 2
  {
    var q, r := o / 16, o % 16;
    assert o == 16 * q + r;
    assert o / 2 == 8 * q + r / 2;
  }

  lemma HalfOfRest8(o: nat)
    ensures o % 8 / 2 == o / 2 % 4 && o % 8 % 2 == o % 2
  {
    var q, r := o / 8, o % 8;
    assert o == 8 * q + r;
    assert o / 2 == 4 * q + r / 2;
  }

  lemma HalfOfRest4(o: nat)
    ensures o % 4 / 2 == o / 2 % 2 && o % 4 % 2 == o % 2
  {
    var q, r := o / 4, o % 4;
    assert o == 4 * q + r;
    assert o / 2 == 2 * q + r / 2;
  }

  lemma BitLow(o: nat, k: nat)
    requires k < 4
    ensures BitOf(o % 16, k) == BitOf(o, k)
  {
    HalfOfRest16(o);
    if k > 0 {
      BitLow8(o / 2, k - 1);
    }
  }

  lemma BitLow8(o: nat, k: nat)
    requires k < 3
    ensures BitOf(o % 8, k) == BitOf(o, k)
  {
    HalfOfRest8(o);
    if k > 0 {
      BitLow4(o / 2, k - 1);
    }
  }

  lemma BitLow4(o: nat, k: nat)
    requires k < 2
    ensures BitOf(o % 4, k) == BitOf(o, k)
  {
    HalfOfRest4(o);
    if k > 0 {
      assert BitOf(o % 4, 1) == BitOf(o / 2 % 2, 0);
    }
  }

  /** An octet is its two rows. */
  lemma OctetBits(o: Octet, k: nat)
    requires k < 8
    ensures BitOf(o, k) == if k >= 4 then LowBits(o / 16)[7 - k] else LowBits(o % 16)[3 - k]
  {
    hide BitOf;
    if k >= 4 {
      BitHigh(o, k - 4);
    } else {
      BitLow(o, k);
    }
  }

  /** `t` spells the first n bits of s. */
  ghost predicate Spells(t: seq<Octet>, s: seq<Octet>, n: nat) {
    n <= 8 * |s| && Convertible(t) && TextBits(t) == Bits(s, 8 * |s| - n)
  }

  lemma SpellsBlanks(t: seq<Octet>, blanks: seq<Octet>, s: seq<Octet>, n: nat)
    requires Spells(t, s, n) && forall c <- blanks :: IsBlank(c)
    ensures Spells(t + blanks, s, n)
  {
    hide Bits;
    NoBitsInBlanks(blanks);
    TextBitsJoin(t, blanks);
    ConvertibleJoin(t, blanks);
  }

  lemma {:induction false} NoBitsInBlanks(blanks: seq<Octet>)
    requires forall c <- blanks :: IsBlank(c)
    ensures TextBits(blanks) == []
    decreases |blanks|
  {
    if blanks != [] {
      NoBitsInBlanks(blanks[..|blanks| - 1]);
      assert blanks[|blanks| - 1] in blanks;
    }
  }

  /** The eight characters of an octet. */
  function Digits(o: Octet): (t: seq<Octet>)
    ensures |t| == 8
  {
    Pattern(o / 16) + Pattern(o % 16)
  }

  /** One more whole octet. */
  lemma SpellsOctet(t: seq<Octet>, s: seq<Octet>, k: nat)
    requires k < |s| && Spells(t, s, 8 * k)
    ensures Spells(t + Digits(s[k]), s, 8 * (k + 1))
  {
    hide Pattern, BitOf, TextBits, LowBits, Bits;
    var (high, low) := (Pattern(s[k] / 16), Pattern(s[k] % 16));
    PatternBits(s[k] / 16);
    PatternBits(s[k] % 16);
    TextBitsJoin(high, low);
    ConvertibleJoin(high, low);
    TextBitsJoin(t, high + low);
    ConvertibleJoin(t, high + low);
    WholeOctet(s, k);
  }

  lemma WholeOctet(s: seq<Octet>, k: nat)
    requires k < |s|
    ensures Bits(s, 8 * |s| - 8 * (k + 1)) == Bits(s, 8 * |s| - 8 * k) + (LowBits(s[k] / 16) + LowBits(s[k] % 16))
  {
    hide BitOf, LowBits;
    var n := 8 * k;
    var next := Bits(s, 8 * |s| - 8 * (k + 1));
    forall i | n <= i < n + 8
      ensures next[i] == (LowBits(s[k] / 16) + LowBits(s[k] % 16))[i - n]
    {
      assert i / 8 == k && i % 8 == i - n;
      OctetBits(s[k], 7 - (i - n));
    }
    assert next[..n] == Bits(s, 8 * |s| - 8 * k);
  }

  /** One more bit of the last octet. */
  lemma SpellsBit(t: seq<Octet>, s: seq<Octet>, n: nat)
    requires n < 8 * |s| && Spells(t, s, n)
    ensures Spells(t + [if BitOf(s[n / 8], 7 - n % 8) then ONE else ZERO], s, n + 1)
  {
    hide BitOf, TextBits, Convertible;
    var bit := BitOf(s[n / 8], 7 - n % 8);
    var c := if bit then ONE else ZERO;
    assert (t + [c])[..|t|] == t && (t + [c])[..|t| + 1] == t + [c];
    assert Bits(s, 8 * |s| - (n + 1)) == Bits(s, 8 * |s| - n) + [bit];
    OneMoreChar(t + [c], |t|);
  }

  /** Each 1 of a text is a set bit and each 0 a clear one; besides them it may have blanks only. */
  lemma OneCharacter(c: Octet)
    ensures Convertible([c]) <==> c as char in "\t\n\U{0C}\r 01"
    ensures TextBits([c]) == if c as char == '1' then [true] else if c as char == '0' then [false] else []
  {
    assert [c][..0] == [] && c in [c];
  }

  // ---------------------------------------------------------------- the layout

  const ROW := 8

  function Line(s: seq<Octet>): seq<Octet> {
    if s == [] then [] else Line(s[..|s| - 1]) + Digits(s[|s| - 1])
  }

  /** Eight octets to a row, each row on a line of its own. */
  function Lines(s: seq<Octet>, level: int): seq<Octet> {
    if s == [] then []
    else
      var n := if |s| < ROW then |s| else ROW;
      Indent(level) + Line(s[..n]) + Lines(s[n..], level)
  }

  /** All octets but the last one. The line break that follows a full row is handed over before that row, which
      then has two line breaks before it, and the last octet on its line. */
  function WholeText(s: seq<Octet>, canonical: bool, level: int): seq<Octet> {
    if canonical then Line(s)
    else if |s| % ROW != 0 then Lines(s, level)
    else if s == [] then Indent(level)
    else Lines(s[..|s| - ROW], level) + Indent(level) + Indent(level) + Line(s[|s| - ROW..])
  }

  /** The bits of the last octet that are used. */
  function LastBits(o: Octet, bitsUnused: Octet): seq<Octet> {
    seq(if bitsUnused < 8 then 8 - bitsUnused else 0, j requires 0 <= j < 8 => if BitOf(o, 7 - j) then ONE else ZERO)
  }

  function Layout(s: seq<Octet>, bitsUnused: Octet, canonical: bool, level: int): seq<Octet> {
    WholeText(Front(s), canonical, level)
    + (if s == [] then [] else LastBits(s[|s| - 1], bitsUnused))
    + (if canonical then [] else Indent(level - 1))
  }

  function Front(s: seq<Octet>): seq<Octet> {
    if s == [] then [] else s[..|s| - 1]
  }

  lemma {:induction false} LinesGrow(s: seq<Octet>, level: int)
    requires s != []
    ensures var n := |s| - 1;
            Lines(s, level) == Lines(s[..n], level) + (if n % ROW == 0 then Indent(level) else []) + Digits(s[n])
    decreases |s|
  {
    hide Digits, Indent, Lines, Line;
    var n := |s| - 1;
    if |s| <= ROW {
      FirstLineGrows(s, level);
    } else {
      LinesGrow(s[ROW..], level);
      LinesFrom(s, level);
      LinesFrom(s[..n], level);
      assert s[ROW..][..n - ROW] == s[..n][ROW..] && s[..n][..ROW] == s[..ROW];
      SameColumn(n);
      var more := if n % ROW == 0 then Indent(level) else [];
      RightFirst(Indent(level) + Line(s[..ROW]), Lines(s[..n][ROW..], level), more, Digits(s[n]));
    }
  }

  lemma FirstLineGrows(s: seq<Octet>, level: int)
    requires 0 < |s| <= ROW
    ensures var n := |s| - 1;
            Lines(s, level) == Lines(s[..n], level) + (if n % ROW == 0 then Indent(level) else []) + Digits(s[n])
  {
    hide Digits, Indent, Lines, Line;
    var n := |s| - 1;
    FirstLine(s, level);
    FirstLine(s[..n], level);
    LineGrows(s);
    FirstColumn(n);
    Regrouped(Indent(level), Line(s[..n]), Digits(s[n]));
    assert s[..0] == [];
  }

  lemma FirstColumn(n: nat)
    requires n < ROW
    ensures n % ROW == 0 <==> n == 0
  {
  }

  lemma FirstLine(s: seq<Octet>, level: int)
    requires |s| <= ROW
    ensures Lines(s, level) == if s == [] then [] else Indent(level) + Line(s)
  {
    assert s[..|s|] == s;
  }

  lemma LinesFrom(s: seq<Octet>, level: int)
    requires |s| >= ROW
    ensures Lines(s, level) == Indent(level) + Line(s[..ROW]) + Lines(s[ROW..], level)
  {
  }

  lemma LineGrows(s: seq<Octet>)
    requires s != []
    ensures Line(s) == Line(s[..|s| - 1]) + Digits(s[|s| - 1])
    ensures Line([]) == []
  {
  }

  lemma SameColumn(n: nat)
    requires n >= ROW
    ensures (n - ROW) % ROW == n % ROW
  {
  }

  /** A text is its rows up to r, and the octets since then on one more line. */
  lemma {:induction false} LastLine(s: seq<Octet>, r: nat, level: int)
    requires r < |s| <= r + ROW && r % ROW == 0
    ensures Lines(s, level) == Lines(s[..r], level) + Indent(level) + Line(s[r..])
    decreases |s|
  {
    hide Digits, Indent, Lines, Line;
    var n := |s| - 1;
    LinesGrow(s, level);
    LineGrows(s[r..]);
    assert s[r..][..n - r] == s[..n][r..];
    if n > r {
      LastLine(s[..n], r, level);
      assert s[..n][..r] == s[..r];
    } else {
      assert s[..n][r..] == [];
    }
  }

  // ---------------------------------------------------------------- the encoder, and what its text spells

  /** BIT_STRING_encode_xer; the texts handed to the callback, one after the other. */
  method EncodeXer(s: seq<Octet>, bitsUnused: Octet, canonical: bool, level: int) returns (out: seq<Octet>)
    ensures out == Layout(s, bitsUnused, canonical, level)
    ensures Spells(out, s, if s == [] then 0 else 8 * |s| - if bitsUnused < 8 then bitsUnused else 8)
  {
    hide Spells, WholeText, BitOf, Indent;
    var scratch := new Octet[128];
    out := EncodeWhole(s, scratch, canonical, level);
    if |s| > 0 {
      var p := EncodeLast(scratch, s[|s| - 1], bitsUnused);
      out := out + scratch[..p];
    }
    if !canonical {
      out := out + Indent(level - 1);
    }
    LayoutSpells(s, bitsUnused, canonical, level);
  }

  /** All octets but the last one. */
  method EncodeWhole(s: seq<Octet>, scratch: array<Octet>, canonical: bool, level: int) returns (out: seq<Octet>)
    requires scratch.Length == 128
    modifies scratch
    ensures out == WholeText(Front(s), canonical, level)
  {
    hide Digits, Indent, Line, Buffered, WholeText;
    var p, k := 0, 0;
    out := [];
    ghost var r, whole := 0, Front(s);
    assert out + scratch[..p] == [];
    NothingWritten(whole, level);
    while k < |s| - 1
      invariant k <= |whole| && p < 126
      invariant if canonical then out + scratch[..p] == Line(whole[..k])
                else Buffered(whole, r, k, level, out, scratch[..p])
    {
      ghost var was, row := out, scratch[..p];
      var nline := !canonical && k % 8 == 0;
      if p >= 128 - 10 || nline {
        out := out + scratch[..p];
        p := 0;
        if nline {
          out := out + Indent(level);
        }
      }
      ghost var kept := scratch[..p];
      p := PutDigits(scratch, p, s[k]);
      assert scratch[..p] == kept + Digits(whole[k]);
      if canonical {
        OneMoreInLine(whole, k);
        assert out + (kept + Digits(whole[k])) == out + kept + Digits(whole[k]);
        assert out + kept == was + row;
      } else {
        BufferGrows(whole, r, k, level, was, row);
        r := if k % 8 == 0 then k else r;
      }
      k := k + 1;
    }
    assert whole[..k] == whole;
    if canonical {
      CanonicalText(whole, level);
    } else {
      BufferEnds(whole, r, level, out, scratch[..p]);
    }
    if !canonical && k % 8 == 0 {
      out := out + Indent(level);
    }
    out := out + scratch[..p];
  }

  method PutDigits(scratch: array<Octet>, p: nat, o: Octet) returns (next: nat)
    requires p + 8 <= scratch.Length
    modifies scratch
    ensures next == p + 8 && scratch[..next] == old(scratch[..p]) + Digits(o)
  {
    hide Pattern;
    next := PutText(scratch, p, Pattern(o / 16));
    next := PutText(scratch, next, Pattern(o % 16));
  }

  /** The octets since the row that starts at r are still in the scratch buffer. */
  ghost predicate Buffered(s: seq<Octet>, r: nat, k: nat, level: int, out: seq<Octet>, row: seq<Octet>) {
    && r <= k <= |s| && k <= r + ROW && r % ROW == 0 && (k > 0 ==> r < k)
    && |row| == 8 * (k - r) && row == Line(s[r..k])
    && out == Lines(s[..r], level) + if k > 0 then Indent(level) else []
  }

  lemma NothingWritten(s: seq<Octet>, level: int)
    ensures Line(s[..0]) == [] && Buffered(s, 0, 0, level, [], [])
  {
  }

  lemma OneMoreInLine(s: seq<Octet>, k: nat)
    requires k < |s|
    ensures Line(s[..k + 1]) == Line(s[..k]) + Digits(s[k])
  {
    hide Digits;
    assert s[..k + 1][..k] == s[..k];
  }

  lemma BufferGrows(s: seq<Octet>, r: nat, k: nat, level: int, out: seq<Octet>, row: seq<Octet>)
    requires k < |s| && Buffered(s, r, k, level, out, row)
    ensures |row| <= 64
    ensures if k % 8 == 0 then Buffered(s, k, k + 1, level, out + row + Indent(level), [] + Digits(s[k]))
            else Buffered(s, r, k + 1, level, out, row + Digits(s[k]))
  {
    hide Digits, Indent, Lines, Line;
    if k % 8 == 0 {
      if k > 0 {
        LastLine(s[..k], r, level);
        assert s[..k][..r] == s[..r] && s[..k][r..] == s[r..k];
      } else {
        assert out + row == out;
        assert s[..0] == s[..r];
      }
      OneInLine(s[k]);
      assert s[k..k + 1] == [s[k]];
    } else {
      LineGrows(s[r..k + 1]);
      assert s[r..k + 1][..k - r] == s[r..k] && s[r..k + 1][k - r] == s[k];
      InsideRow(r, k);
    }
  }

  lemma InsideRow(r: nat, k: nat)
    requires r % ROW == 0 && r <= k <= r + ROW
    ensures k % ROW != 0 <==> r < k < r + ROW
  {
  }

  lemma OneInLine(o: Octet)
    ensures Line([o]) == [] + Digits(o)
  {
    assert [o][..0] == [];
  }

  lemma BufferEnds(s: seq<Octet>, r: nat, level: int, out: seq<Octet>, row: seq<Octet>)
    requires Buffered(s, r, |s|, level, out, row)
    ensures WholeText(s, false, level) == out + (if |s| % 8 == 0 then Indent(level) else []) + row
  {
    hide Digits, Indent, Lines, Line;
    InsideRow(r, |s|);
    assert s[r..|s|] == s[r..];
    if s == [] {
      assert s[..r] == [];
      NothingWritten(s, level);
    } else {
      LastLine(s, r, level);
    }
  }

  lemma CanonicalText(s: seq<Octet>, level: int)
    ensures WholeText(s, true, level) == Line(s)
  {
  }

  /** The bits of the last octet. */
  method EncodeLast(scratch: array<Octet>, v: Octet, bitsUnused: Octet) returns (p: nat)
    requires scratch.Length == 128
    modifies scratch
    ensures p <= 8 && scratch[..p] == LastBits(v, bitsUnused)
  {
    hide BitOf;
    p := 0;
    var i := 7;
    while i >= bitsUnused
      invariant -1 <= i <= 7 && (i >= bitsUnused - 1 || i == 7) && p == 7 - i
      invariant scratch[..p] == LastBits(v, bitsUnused)[..p]
      decreases i
    {
      p := Put(scratch, p, if BitOf(v, i) then ONE else ZERO);
      i := i - 1;
    }
  }

  lemma LayoutSpells(s: seq<Octet>, bitsUnused: Octet, canonical: bool, level: int)
    ensures Spells(Layout(s, bitsUnused, canonical, level), s,
                   if s == [] then 0 else 8 * |s| - if bitsUnused < 8 then bitsUnused else 8)
  {
    hide Spells, WholeText, BitOf, Indent, LastBits;
    var text, n := WholeText(Front(s), canonical, level), |Front(s)|;
    WholeTextSpells(s, n, canonical, level);
    var shown := 0;
    if s != [] {
      shown := 8 * |s| - if bitsUnused < 8 then bitsUnused else 8;
      LastBitsSpell(text, s, bitsUnused);
      text := text + LastBits(s[n], bitsUnused);
    } else {
      assert text + [] == text;
    }
    if !canonical {
      SpellsBlanks(text, Indent(level - 1), s, shown);
    } else {
      assert text + [] == text;
    }
  }

  lemma LastBitsSpell(t: seq<Octet>, s: seq<Octet>, bitsUnused: Octet)
    requires s != [] && Spells(t, s, 8 * (|s| - 1))
    ensures Spells(t + LastBits(s[|s| - 1], bitsUnused), s, 8 * |s| - if bitsUnused < 8 then bitsUnused else 8)
  {
    hide Spells, BitOf;
    var bits := LastBits(s[|s| - 1], bitsUnused);
    BitsSpell(t, s, bitsUnused, |bits|);
    assert bits[..|bits|] == bits;
  }

  lemma {:induction false} BitsSpell(t: seq<Octet>, s: seq<Octet>, bitsUnused: Octet, m: nat)
    requires s != [] && Spells(t, s, 8 * (|s| - 1)) && m <= |LastBits(s[|s| - 1], bitsUnused)|
    ensures Spells(t + LastBits(s[|s| - 1], bitsUnused)[..m], s, 8 * (|s| - 1) + m)
    decreases m
  {
    hide Spells, BitOf;
    var bits, n := LastBits(s[|s| - 1], bitsUnused), 8 * (|s| - 1);
    if m == 0 {
      assert t + bits[..0] == t;
    } else {
      BitsSpell(t, s, bitsUnused, m - 1);
      SpellsBit(t + bits[..m - 1], s, n + m - 1);
      assert (n + m - 1) / 8 == |s| - 1 && (n + m - 1) % 8 == m - 1;
      assert t + bits[..m] == t + bits[..m - 1] + [bits[m - 1]];
    }
  }

  lemma {:induction false} LineSpells(s: seq<Octet>, n: nat)
    requires n <= |s|
    ensures Spells(Line(s[..n]), s, 8 * n)
    decreases n
  {
    hide Spells, Digits;
    if n == 0 {
      SpellsNothing(s);
    } else {
      LineSpells(s, n - 1);
      OneMoreInLine(s, n - 1);
      SpellsOctet(Line(s[..n - 1]), s, n - 1);
    }
  }

  lemma {:induction false} LinesSpell(s: seq<Octet>, n: nat, level: int)
    requires n <= |s|
    ensures Spells(Lines(s[..n], level), s, 8 * n)
    decreases n
  {
    hide Spells, Digits, Indent, Lines;
    if n == 0 {
      SpellsNothing(s);
      FirstLine([], level);
      assert s[..0] == [];
    } else {
      LinesSpell(s, n - 1, level);
      LinesGrow(s[..n], level);
      var t := Lines(s[..n - 1], level);
      assert s[..n][..n - 1] == s[..n - 1] && s[..n][n - 1] == s[n - 1];
      var more := if (n - 1) % ROW == 0 then Indent(level) else [];
      SpellsBlanks(t, more, s, 8 * (n - 1));
      SpellsOctet(t + more, s, n - 1);
    }
  }

  lemma WholeTextSpells(s: seq<Octet>, n: nat, canonical: bool, level: int)
    requires n <= |s|
    ensures Spells(WholeText(s[..n], canonical, level), s, 8 * n)
  {
    hide Spells, Indent, Lines, Line;
    if canonical {
      LineSpells(s, n);
    } else if n == 0 {
      SpellsNothing(s);
      SpellsBlanks([], Indent(level), s, 0);
      assert [] + Indent(level) == Indent(level);
    } else {
      LinesSpell(s, n, level);
      if n % ROW == 0 {
        var w := s[..n];
        LastLine(w, n - ROW, level);
        SpellsIndentInside(Lines(w[..n - ROW], level) + Indent(level), Indent(level), Line(w[n - ROW..]), s, 8 * n);
      }
    }
  }

  lemma SpellsNothing(s: seq<Octet>)
    ensures Spells([], s, 0)
  {
  }

  lemma SpellsIndentInside(a: seq<Octet>, blanks: seq<Octet>, b: seq<Octet>, s: seq<Octet>, n: nat)
    requires Spells(a + b, s, n) && forall c <- blanks :: IsBlank(c)
    ensures Spells(a + blanks + b, s, n)
  {
    hide Bits;
    NoBitsInBlanks(blanks);
    TextBitsJoin(a, b);
    TextBitsJoin(a, blanks);
    TextBitsJoin(a + blanks, b);
    ConvertibleJoin(a, b);
    ConvertibleJoin(a, blanks);
    ConvertibleJoin(a + blanks, b);
  }

  /** Printing, and then converting the text in any pieces into a new string, gives back the bits and the
      number of unused bits; the octets are the same up to zeroed padding. */
  method PrintThenConvert(s: seq<Octet>, bitsUnused: Octet, canonical: bool, level: int, pieces: seq<seq<Octet>>)
      returns (text: seq<Octet>, st: XerString, ok: bool)
    requires bitsUnused < 8 && (s == [] ==> bitsUnused == 0)
    ensures Joined(pieces) == text ==> ok && Filling(st, Bits(s, bitsUnused)) && st.bitsUnused == bitsUnused
    ensures Joined(pieces) == text && Holds(s, Bits(s, bitsUnused)) ==> st.Contents() == s
  {
    hide TextBits, Bits, Convertible, Holds, Layout;
    text := EncodeXer(s, bitsUnused, canonical, level);
    st := new XerString();
    HoldsNothing();
    ok := ConvertPieces(st, pieces, []);
    if Joined(pieces) == text {
      assert [] + TextBits(text) == TextBits(text);
      PaddingIs(|s|, bitsUnused);
      if Holds(s, Bits(s, bitsUnused)) {
        HeldOnce(s, st.Contents(), Bits(s, bitsUnused));
      }
    }
  }

  lemma HoldsNothing()
    ensures Holds([], [])
  {
  }

  lemma PaddingIs(size: nat, unused: Octet)
    requires unused < 8 && unused <= 8 * size
    ensures Padding(8 * size - unused) == unused
  {
  }
}
