/** OCTET STRING as hexadecimal text (src/msg/OCTET_STRING.c:579-640, 783-855). */
module HexCodec {
  import opened Octets
  import opened XerText
  import opened IntegerText
  import opened IntegerDump

  // ---------------------------------------------------------------- what a text stands for

  predicate Convertible(t: seq<Octet>) {
    forall c <- t :: IsBlank(c) || IsHexDigit(c)
  }

  type Nibble = x: int | 0 <= x < 16

  /** The values of the hexadecimal digits, blanks left out. */
  function Nibbles(t: seq<Octet>): (n: seq<Nibble>)
    ensures |n| <= |t|
  {
    if t == [] then []
    else Nibbles(t[..|t| - 1]) + if IsHexDigit(t[|t| - 1]) then [HexVal(t[|t| - 1])] else []
  }

  function PairAt(n: seq<Nibble>, k: nat): Octet
    requires 2 * k + 1 < |n|
  {
    n[2 * k] as int * 16 + n[2 * k + 1]
  }

  /** How many pairs k nibbles make, and how many are left over. */
  function Pairs(k: nat): nat {
    k / 2
  }

  function Odd(k: nat): (r: nat)
    ensures r <= 1
  {
    k % 2
  }

  /** Two nibbles to an octet; an odd one at the end is left out. */
  function Pack(n: seq<Nibble>): (r: seq<Octet>)
    ensures |r| == Pairs(|n|)
  {
    seq(|n| / 2, k requires 0 <= k < |n| / 2 => PairAt(n, k))
  }

  function NibbleAt(s: seq<Octet>, k: nat): Nibble
    requires k < 2 * |s|
  {
    if k % 2 == 0 then s[k / 2] / 16 else s[k / 2] % 16
  }

  function Unpack(s: seq<Octet>): (n: seq<Nibble>)
    ensures |n| == 2 * |s|
  {
    seq(2 * |s|, k requires 0 <= k < 2 * |s| => NibbleAt(s, k))
  }

  lemma PackUnpack(s: seq<Octet>)
    ensures Pack(Unpack(s)) == s
  {
    forall k | 0 <= k < |s|
      ensures Pack(Unpack(s))[k] == s[k]
    {
      assert (2 * k) % 2 == 0 && (2 * k + 1) % 2 == 1 && (2 * k) / 2 == k && (2 * k + 1) / 2 == k;
    }
  }

  /** The position after the digit that completes the last pair. */
  function PairEnd(t: seq<Octet>): (k: nat)
    ensures k <= |t|
  {
    if t == [] then 0
    else if IsHexDigit(t[|t| - 1]) && Odd(|Nibbles(t)|) == 0 then |t|
    else PairEnd(t[..|t| - 1])
  }

  /** A chunk: an odd digit waits for the next chunk unless there is none, when a zero completes it. */
  function Hex(t: seq<Octet>, last: bool): Converted {
    var n := Nibbles(t);
    if !Convertible(t) then Rejected
    else if Odd(|n|) == 0 then Converted(Pack(n), |t|)
    else if last then Converted(Pack(n) + [n[|n| - 1] as int * 16], |t|)
    else Converted(Pack(n), PairEnd(t))
  }

  lemma PackOneMore(n: seq<Nibble>, v: Nibble)
    ensures Pack(n + [v]) == if Odd(|n|) == 0 then Pack(n) else Pack(n) + [n[|n| - 1] as int * 16 + v]
  {
    if |n| % 2 == 1 {
      var h := |n| / 2;
      assert |n| == 2 * h + 1 && (|n| + 1) / 2 == h + 1;
    }
  }

  lemma OneMoreChar(t: seq<Octet>, p: nat)
    requires p < |t|
    ensures var (n, m) := (Nibbles(t[..p]), Nibbles(t[..p + 1]));
            && m == n + (if IsHexDigit(t[p]) then [HexVal(t[p])] else [])
            && PairEnd(t[..p + 1]) == (if IsHexDigit(t[p]) && Odd(|m|) == 0 then p + 1 else PairEnd(t[..p]))
            && (Convertible(t[..p + 1]) <==> Convertible(t[..p]) && (IsBlank(t[p]) || IsHexDigit(t[p])))
  {
    assert t[..p + 1][..p] == t[..p];
    assert t[..p + 1] == t[..p] + [t[p]];
  }

  lemma BlankIsNoDigit(c: Octet)
    requires IsBlank(c)
    ensures !IsHexDigit(c)
  {
  }

  lemma NothingRead(t: seq<Octet>)
    ensures Nibbles(t[..0]) == [] && Pack([]) == [] && PairEnd(t[..0]) == 0 && Convertible(t[..0])
  {
  }

  /** What is written last, with the digits read so far. */
  lemma HexIs(t: seq<Octet>, last: bool)
    ensures !Convertible(t) ==> Hex(t, last) == Rejected
    ensures Convertible(t) ==>
              var n := Nibbles(t);
              Hex(t, last) == if Odd(|n|) == 0 then Converted(Pack(n), |t|)
                              else if last then Converted(Pack(n) + [n[|n| - 1] as int * 16], |t|)
                              else Converted(Pack(n), PairEnd(t))
  {
  }

  // ---------------------------------------------------------------- the digits

  /** Two digits are the octet that the first one counts sixteen times and the second one once. */
  lemma TwoDigitsMean(high: nat, low: nat, last: bool)
    requires high < 16 && low < 16
    ensures Hex([LOWER_DIGITS[high], LOWER_DIGITS[low]], last) == Converted([16 * high + low], 2)
  {
    hide Hex, HexVal, IsHexDigit;
    HexDigitValues(high);
    HexDigitValues(low);
    PairConverts(LOWER_DIGITS[high], LOWER_DIGITS[low], last);
  }

  lemma PairConverts(a: Octet, b: Octet, last: bool)
    requires IsHexDigit(a) && IsHexDigit(b)
    ensures Hex([a, b], last) == Converted([16 * HexVal(a) + HexVal(b)], 2)
  {
    hide HexVal, IsHexDigit;
    var t := [a, b];
    assert t[..1] == [a] && t[..1][..0] == [];
    assert Nibbles(t[..1]) == [HexVal(a)];
    assert Nibbles(t) == [HexVal(a), HexVal(b)];
  }

  /** At the end, a digit that is left over reads as if a zero followed it. */
  lemma OddMeansZero(t: seq<Octet>)
    requires Convertible(t) && Odd(|Nibbles(t)|) == 1
    ensures Hex(t, true).Converted? && Hex(t + [0x30], true).Converted?
    ensures Hex(t, true).octets == Hex(t + [0x30], true).octets
  {
    hide Pack, Nibbles, Convertible, PairEnd, Hex, Odd, IsHexDigit, HexVal;
    var u := t + [0x30];
    assert u[..|t|] == t && u[..|t| + 1] == u;
    OneMoreChar(u, |t|);
    ZeroIsZero();
    PackOneMore(Nibbles(t), 0);
    PairsGrow(|Nibbles(t)|);
    HexIs(t, true);
    HexIs(u, true);
  }

  lemma ZeroIsZero()
    ensures IsHexDigit(0x30) && HexVal(0x30) == 0
  {
  }

  /** A text is refused exactly if it has a character that is neither a blank nor a digit. */
  lemma RefusedExactly(t: seq<Octet>, last: bool)
    ensures Hex(t, last).Rejected?
            <==> exists c <- t :: c as char !in "\t\n\U{0C}\r 0123456789abcdefABCDEF"
  {
    hide Pack, Nibbles, PairEnd;
    forall c <- t
      ensures IsBlank(c) || IsHexDigit(c) <==> c as char in "\t\n\U{0C}\r 0123456789abcdefABCDEF"
    {
      HexCharacter(c);
    }
  }

  lemma HexCharacter(c: Octet)
    ensures IsBlank(c) || IsHexDigit(c) <==> c as char in "\t\n\U{0C}\r 0123456789abcdefABCDEF"
  {
  }

  lemma {:induction false} CaseSpellsSame(a: seq<Octet>, b: seq<Octet>)
    requires CaseOnly(a, b)
    ensures Nibbles(b) == Nibbles(a) && PairEnd(b) == PairEnd(a) && (Convertible(b) <==> Convertible(a))
    decreases |a|
  {
    hide OtherCase, IsHexDigit, HexVal, IsBlank, Nibbles, PairEnd, Convertible, IsLetter;
    if a != [] {
      var n := |a| - 1;
      SameDigit(a[n], b[n]);
      LettersAreNoBlanks(a[n], b[n]);
      CaseSpellsSame(a[..n], b[..n]);
      assert a[..n + 1] == a && b[..n + 1] == b;
      OneMoreChar(a, n);
      OneMoreChar(b, n);
    }
  }

  lemma LettersAreNoBlanks(a: Octet, b: Octet)
    ensures IsLetter(a) ==> !IsBlank(a) && IsHexDigit(a)
    ensures IsLetter(b) ==> !IsBlank(b) && IsHexDigit(b)
  {
  }

  /** The case of the digits does not matter. */
  lemma CaseConvertsSame(a: seq<Octet>, b: seq<Octet>, last: bool)
    requires CaseOnly(a, b)
    ensures Hex(b, last) == Hex(a, last)
  {
    CaseSpellsSame(a, b);
  }

  // ---------------------------------------------------------------- the converter

  const UINT_LIMIT := 0x1_0000_0000

  /** `(clv << 4) + v` in 32 bits. */
  function ShiftIn(clv: nat, v: Nibble): nat {
    (clv * 16 + v) % UINT_LIMIT
  }

  function LastDigit(clv: nat): Nibble {
    clv % 16
  }

  /** `(uint8_t)clv`. */
  function LastOctet(clv: nat): Octet {
    clv % 256
  }

  /** Shifting in keeps the last two digits in the low octet. */
  lemma LastTwo(clv: nat, v: Nibble)
    ensures LastDigit(ShiftIn(clv, v)) == v && LastOctet(ShiftIn(clv, v)) == LastDigit(clv) as int * 16 + v
  {
    var whole := clv * 16 + v;
    var k := whole / UINT_LIMIT;
    var a := clv / 16 - 0x100_0000 * k;
    assert whole % UINT_LIMIT == 256 * a + (clv % 16 * 16 + v);
    LowOctet(a, clv % 16 * 16 + v);
    LowNibble(16 * a + clv % 16, v);
  }

  /** One more digit either is left over or completes a pair. */
  lemma PairsGrow(k: nat)
    ensures Odd(k + 1) == 1 - Odd(k) && Pairs(k + 1) == Pairs(k) + Odd(k)
  {
  }

  lemma NoPairs()
    ensures Odd(0) == 0 && Pairs(0) == 0
  {
  }

  /** The estimated capacity has room for the pairs of k digits, and for the one left over. */
  lemma RoomForPairs(k: nat, chunk: nat)
    requires k <= chunk
    ensures Pairs(k) + Odd(k) <= Pairs(chunk + 1)
  {
  }

  lemma LowOctet(a: int, t: nat)
    requires t < 256
    ensures (256 * a + t) % 256 == t
  {
  }

  lemma LowNibble(a: int, t: nat)
    requires t < 16
    ensures (16 * a + t) % 16 == t
  {
  }

  /** OCTET_STRING__convert_hexadecimal: the octets are appended, within the estimated capacity. */
  method ConvertHexadecimal(st: XerString, chunk: seq<Octet>, haveMore: bool) returns (r: Converted)
    requires st.Valid()
    modifies st
    ensures fresh(st.buf) && st.buf.Length == old(st.size) + (|chunk| + 1) / 2 + 1
    ensures st.bitsUnused == old(st.bitsUnused)
    ensures r == Hex(chunk, haveMore)
    ensures r.Rejected? ==> st.size == old(st.size) && st.Contents() == old(st.Contents())
    ensures r.Converted? ==> st.Valid() && st.Contents() == old(st.Contents()) + r.octets
  {
    hide Hex;
    ghost var was := st.Contents();
    st.Reserve(st.size + (|chunk| + 1) / 2);
    assert st.buf[..st.size] == st.buf[..st.size + 1][..st.size] == was;
    var at;
    r, at := ConvertDigits(st.buf, st.size, chunk, haveMore);
    if r.Converted? {
      st.size := at;
    }
  }

  /** The loop, which writes from `base` on. */
  method ConvertDigits(buf: array<Octet>, base: nat, chunk: seq<Octet>, haveMore: bool)
      returns (r: Converted, at: nat)
    requires buf.Length == base + Pairs(|chunk| + 1) + 1
    modifies buf
    ensures r == Hex(chunk, haveMore)
    ensures buf[..base] == old(buf[..base])
    ensures r.Converted? ==> at < buf.Length && buf[at] == 0 && buf[..at] == old(buf[..base]) + r.octets
  {
    hide Hex, Pack, Nibbles, PairEnd, Convertible, HexVal, IsBlank, IsHexDigit;
    hide Pairs, Odd, ShiftIn, LastDigit, LastOctet;
    ghost var was := buf[..base];
    at := base;
    var p, stop, half := 0, 0, 0;
    var clv: nat := 0;
    ghost var n: seq<Nibble> := [];
    NothingRead(chunk);
    NoPairs();
    RoomForPairs(0, |chunk|);
    while p < |chunk|
      invariant p <= |chunk| && half == Odd(|n|)
      invariant n == Nibbles(chunk[..p]) && at == base + Pairs(|n|) && at + half < buf.Length
      invariant Convertible(chunk[..p]) && stop == PairEnd(chunk[..p])
      invariant buf[..at] == was + Pack(n)
      invariant half == 1 ==> LastDigit(clv) == n[|n| - 1]
    {
      var c := chunk[p];
      OneMoreChar(chunk, p);
      p := p + 1;
      if IsBlank(c) {
        BlankIsNoDigit(c);
        continue;
      }
      if !IsHexDigit(c) {
        Terminate(buf, at);
        assert buf[..base] == buf[..at][..base];
        StaysBad(chunk, p);
        HexIs(chunk, haveMore);
        return Rejected, at;
      }
      PackOneMore(n, HexVal(c));
      LastTwo(clv, HexVal(c));
      PairsGrow(|n|);
      n := n + [HexVal(c)];
      RoomForPairs(|n|, |chunk|);
      clv := ShiftIn(clv, HexVal(c));
      if half == 1 {
        half := 0;
        at := Put(buf, at, LastOctet(clv));
        stop := p;
      } else {
        half := 1;
      }
    }
    assert chunk[..p] == chunk;
    assert buf[..base] == buf[..at][..base];
    r, at := EndDigits(buf, base, at, clv, half, stop, chunk, haveMore);
  }

  /** After the last character: a digit that is left over is completed with a zero if nothing follows. */
  method EndDigits(buf: array<Octet>, base: nat, full: nat, clv: nat, half: nat, whole: nat, chunk: seq<Octet>,
                   haveMore: bool)
      returns (r: Converted, at: nat)
    requires base <= full && full + half < buf.Length && Convertible(chunk) && whole == PairEnd(chunk)
    requires var n := Nibbles(chunk);
             && half == Odd(|n|)
             && buf[..full] == buf[..base] + Pack(n)
             && (half == 1 ==> LastDigit(clv) == n[|n| - 1])
    modifies buf
    ensures r == Hex(chunk, haveMore) && r.Converted? && buf[..base] == old(buf[..base])
    ensures at < buf.Length && buf[at] == 0 && buf[..at] == old(buf[..base]) + r.octets
  {
    hide Hex, Pack, Nibbles, PairEnd, Convertible, ShiftIn, LastDigit, LastOctet;
    HexIs(chunk, haveMore);
    ghost var was, octets := buf[..base], Pack(Nibbles(chunk));
    var stop := whole;
    at := full;
    if half == 0 {
      stop := |chunk|;
    } else if haveMore {
      LastTwo(clv, 0);
      octets := octets + [LastOctet(ShiftIn(clv, 0))];
      at := Put(buf, at, LastOctet(ShiftIn(clv, 0)));
      stop := |chunk|;
    }
    Terminate(buf, at);
    assert buf[..at] == was + octets;
    assert buf[..base] == buf[..at][..base];
    r := Converted(buf[base..at], stop);
  }

  lemma StaysBad(t: seq<Octet>, p: nat)
    requires p <= |t| && !Convertible(t[..p])
    ensures !Convertible(t)
  {
  }

  // ---------------------------------------------------------------- chunks

  lemma {:induction false} NibblesJoin(a: seq<Octet>, b: seq<Octet>)
    ensures Nibbles(a + b) == Nibbles(a) + Nibbles(b)
    decreases |b|
  {
    if b == [] {
      assert a + b == a;
    } else {
      NibblesJoin(a, b[..|b| - 1]);
      assert (a + b)[..|a + b| - 1] == a + b[..|b| - 1];
    }
  }

  lemma PackJoin(m: seq<Nibble>, n: seq<Nibble>)
    requires |m| % 2 == 0
    ensures Pack(m + n) == Pack(m) + Pack(n)
  {
    var h := |m| / 2;
    forall k | 0 <= k < |m + n| / 2
      ensures Pack(m + n)[k] == (Pack(m) + Pack(n))[k]
    {
      if k >= h {
        assert (m + n)[2 * k] == n[2 * (k - h)] && (m + n)[2 * k + 1] == n[2 * (k - h) + 1];
      }
    }
  }

  /** The unconverted rest of a chunk holds one digit at most, and what was converted holds whole pairs. */
  lemma {:induction false} PairsBefore(t: seq<Octet>)
    ensures var k := PairEnd(t); |Nibbles(t[..k])| % 2 == 0 && Pack(Nibbles(t[..k])) == Pack(Nibbles(t))
    decreases |t|
  {
    if t == [] || (IsHexDigit(t[|t| - 1]) && |Nibbles(t)| % 2 == 0) {
      assert t[..|t|] == t;
    } else {
      var u := t[..|t| - 1];
      PairsBefore(u);
      assert t[..PairEnd(t)] == u[..PairEnd(u)];
      if IsHexDigit(t[|t| - 1]) {
        PackOneMore(Nibbles(u), HexVal(t[|t| - 1]));
      }
    }
  }

  /** Splitting after whole pairs does not change the octets. */
  lemma SplitAtPair(x: seq<Octet>, y: seq<Octet>, last: bool)
    requires |Nibbles(x)| % 2 == 0 && Convertible(x)
    ensures var (r, w) := (Hex(y, last), Hex(x + y, last));
            && (r.Rejected? <==> w.Rejected?)
            && (r.Converted? ==> w.octets == Pack(Nibbles(x)) + r.octets)
            && (r.Converted? && last ==> w.used == |x| + r.used == |x + y|)
  {
    hide Nibbles, Pack, PairEnd;
    NibblesJoin(x, y);
    PackJoin(Nibbles(x), Nibbles(y));
    assert Convertible(x + y) <==> Convertible(x) && Convertible(y) by {
      assert forall c <- x :: c in x + y;
      assert forall c <- y :: c in x + y;
    }
  }

  /** A chunk, and then its unconverted rest with more text, give what the whole text gives. */
  lemma ChunkThenRest(a: seq<Octet>, b: seq<Octet>, last: bool)
    ensures var (first, whole) := (Hex(a, false), Hex(a + b, last));
            if first.Rejected? then whole.Rejected?
            else
              first.used <= |a| &&
              var rest := Hex(a[first.used..] + b, last);
              && (rest.Rejected? <==> whole.Rejected?)
              && (rest.Converted? ==> whole.octets == first.octets + rest.octets)
              && (rest.Converted? && last ==> first.used + rest.used == whole.used == |a + b|)
  {
    hide Nibbles, Pack, PairEnd;
    var first := Hex(a, false);
    if first.Rejected? {
      var c :| c in a && !(IsBlank(c) || IsHexDigit(c));
      assert c in a + b;
    } else {
      var k := first.used;
      PairsBefore(a);
      assert a[..|a|] == a;
      assert a + b == a[..k] + (a[k..] + b);
      assert Convertible(a[..k]);
      SplitAtPair(a[..k], a[k..] + b, last);
    }
  }

  /** A text handed over in pieces, the unconverted rest of each call in front of the next piece. */
  function Session(tail: seq<Octet>, pieces: seq<seq<Octet>>): Converted
    requires pieces != []
    decreases |pieces|
  {
    if |pieces| == 1 then Hex(tail + pieces[0], true)
    else
      var r := Hex(tail + pieces[0], false);
      if r.Rejected? then Rejected
      else
        var more := Session((tail + pieces[0])[r.used..], pieces[1..]);
        if more.Rejected? then Rejected else Converted(r.octets + more.octets, r.used + more.used)
  }

  /** However a text is cut into pieces, the octets and the number of characters used are those of the whole. */
  lemma {:induction false} SessionIsWhole(tail: seq<Octet>, pieces: seq<seq<Octet>>)
    requires pieces != []
    ensures Session(tail, pieces) == Hex(tail + Joined(pieces), true)
    decreases |pieces|
  {
    hide Hex, Nibbles, Pack, PairEnd;
    var a, b := tail + pieces[0], Joined(pieces[1..]);
    assert tail + Joined(pieces) == a + b;
    if |pieces| == 1 {
      assert Joined(pieces[1..]) == [];
      assert a + b == a;
    } else {
      ChunkThenRest(a, b, true);
      var r := Hex(a, false);
      if r.Converted? {
        SessionIsWhole(a[r.used..], pieces[1..]);
      }
    }
  }

  // ---------------------------------------------------------------- the encoder

  /** Two digits for each octet and nothing else. */
  function UpperDigits(s: seq<Octet>): (t: seq<Octet>)
    ensures |t| == 2 * |s|
  {
    seq(2 * |s|, k requires 0 <= k < 2 * |s| => UpperHex(NibbleAt(s, k)))
  }

  lemma {:induction false} UpperDigitsSpell(s: seq<Octet>)
    ensures Convertible(UpperDigits(s)) && Nibbles(UpperDigits(s)) == Unpack(s)
    decreases |s|
  {
    hide UpperHex;
    if s != [] {
      var n := |s| - 1;
      UpperDigitsSpell(s[..n]);
      OneMoreOctet(s, n);
      assert s[..n + 1] == s;
      var pair := [UpperHex(s[n] / 16), UpperHex(s[n] % 16)];
      TwoDigits(s[n]);
      NibblesJoin(UpperDigits(s[..n]), pair);
      assert forall c <- UpperDigits(s) :: c in UpperDigits(s[..n]) || c in pair;
    } else {
      assert UpperDigits(s) == [];
    }
  }

  lemma TwoDigits(o: Octet)
    ensures var pair := [UpperHex(o / 16), UpperHex(o % 16)];
            Nibbles(pair) == [o / 16, o % 16] && Convertible(pair)
  {
    var pair := [UpperHex(o / 16), UpperHex(o % 16)];
    assert pair[..1] == [UpperHex(o / 16)] && pair[..1][..0] == [];
  }

  lemma OneMoreOctet(s: seq<Octet>, n: nat)
    requires n < |s|
    ensures UpperDigits(s[..n + 1]) == UpperDigits(s[..n]) + [UpperHex(s[n] / 16), UpperHex(s[n] % 16)]
    ensures Unpack(s[..n + 1]) == Unpack(s[..n]) + [s[n] / 16, s[n] % 16]
  {
  }

  /** OCTET_STRING_encode_xer; the texts handed to the callback, one after the other. Either layout spells
      exactly the octets. */
  method EncodeXer(s: seq<Octet>, canonical: bool, level: int) returns (out: seq<Octet>)
    ensures out == if canonical then UpperDigits(s) else Basic(s, level)
    ensures Convertible(out) && Nibbles(out) == Unpack(s)
  {
    hide Basic;
    if canonical {
      out := EncodeCanonical(s);
      UpperDigitsSpell(s);
    } else {
      out := EncodeBasic(s, level);
      BasicSpells(s, level);
    }
  }

  // ---------------------------------------------------------------- the indented layout

  const ROW := 16

  /** The digits of an octet and a blank. */
  function Triple(o: Octet): seq<Octet> {
    [UpperHex(o / 16), UpperHex(o % 16), 0x20]
  }

  function Spaced(s: seq<Octet>): seq<Octet> {
    if s == [] then [] else Spaced(s[..|s| - 1]) + Triple(s[|s| - 1])
  }

  /** Sixteen octets to a row, each row on a line of its own. */
  function Rows(s: seq<Octet>, level: int): seq<Octet> {
    if s == [] then []
    else
      var n := if |s| < ROW then |s| else ROW;
      Indent(level) + Spaced(s[..n]) + Rows(s[n..], level)
  }

  /** Up to sixteen octets stay on the line; only then there are rows, and the closing tag gets its own line. */
  function Shown(s: seq<Octet>, rows: bool, level: int): seq<Octet> {
    if rows then Rows(s, level) else Spaced(s)
  }

  /** The layout that is not canonical; no blank follows the last octet. */
  function Basic(s: seq<Octet>, level: int): seq<Octet> {
    if s == [] then []
    else
      ShownGrows(s, |s| > ROW, level);
      var t := Shown(s, |s| > ROW, level);
      t[..|t| - 1] + if |s| > ROW then Indent(level - 1) else []
  }

  lemma {:induction false} RowsGrow(s: seq<Octet>, level: int)
    requires s != []
    ensures var n := |s| - 1;
            Rows(s, level) == Rows(s[..n], level) + (if n % ROW == 0 then Indent(level) else []) + Triple(s[n])
    decreases |s|
  {
    hide Triple, Indent, Rows, Spaced;
    var n := |s| - 1;
    if |s| <= ROW {
      FirstRowGrows(s, level);
    } else {
      RowsGrow(s[ROW..], level);
      RowsFrom(s, level);
      RowsFrom(s[..n], level);
      assert s[ROW..][..n - ROW] == s[..n][ROW..] && s[..n][..ROW] == s[..ROW];
      SameColumn(n);
      var more := if n % ROW == 0 then Indent(level) else [];
      RightFirst(Indent(level) + Spaced(s[..ROW]), Rows(s[..n][ROW..], level), more, Triple(s[n]));
    }
  }

  lemma FirstRowGrows(s: seq<Octet>, level: int)
    requires 0 < |s| <= ROW
    ensures var n := |s| - 1;
            Rows(s, level) == Rows(s[..n], level) + (if n % ROW == 0 then Indent(level) else []) + Triple(s[n])
  {
    hide Triple, Indent, Rows, Spaced;
    var n := |s| - 1;
    FirstRow(s, level);
    FirstRow(s[..n], level);
    SpacedGrows(s);
    FirstColumn(n);
    Regrouped(Indent(level), Spaced(s[..n]), Triple(s[n]));
    assert s[..0] == [];
  }

  lemma FirstColumn(n: nat)
    requires n < ROW
    ensures n % ROW == 0 <==> n == 0
  {
  }

  lemma FirstRow(s: seq<Octet>, level: int)
    requires |s| <= ROW
    ensures Rows(s, level) == if s == [] then [] else Indent(level) + Spaced(s)
  {
    assert s[..|s|] == s;
  }

  lemma RowsFrom(s: seq<Octet>, level: int)
    requires |s| >= ROW
    ensures Rows(s, level) == Indent(level) + Spaced(s[..ROW]) + Rows(s[ROW..], level)
  {
  }

  lemma SpacedGrows(s: seq<Octet>)
    requires s != []
    ensures Spaced(s) == Spaced(s[..|s| - 1]) + Triple(s[|s| - 1])
    ensures Spaced([]) == []
  {
  }

  lemma SameColumn(n: nat)
    requires n >= ROW
    ensures (n - ROW) % ROW == n % ROW
  {
  }

  lemma ShownGrows(s: seq<Octet>, rows: bool, level: int)
    requires s != []
    ensures var n := |s| - 1;
            Shown(s, rows, level)
            == Shown(s[..n], rows, level) + (if rows && n % ROW == 0 then Indent(level) else []) + Triple(s[n])
  {
    hide Triple, Indent, Rows, Spaced;
    RowsGrow(s, level);
    SpacedGrows(s);
  }

  lemma {:induction false} ShownSpells(s: seq<Octet>, n: nat, rows: bool, level: int)
    requires n <= |s|
    ensures Spells(Shown(s[..n], rows, level), s, n)
    decreases n
  {
    hide Spells, Indent, Triple, Shown;
    if n == 0 {
      SpellsNothing(s);
      NothingShown(rows, level);
      assert s[..0] == [];
    } else {
      ShownSpells(s, n - 1, rows, level);
      ShownGrows(s[..n], rows, level);
      assert s[..n][..n - 1] == s[..n - 1];
      var t := Shown(s[..n - 1], rows, level);
      SpellsWithBlanks(t, Indent(level), s, n - 1);
      var broken := if rows && (n - 1) % ROW == 0 then Indent(level) else [];
      assert t + [] == t;
      assert s[..n][n - 1] == s[n - 1];
      SpellsMore(t + broken, s, n - 1);
    }
  }

  lemma NothingShown(rows: bool, level: int)
    ensures Shown([], rows, level) == []
  {
  }

  lemma TripleIs(o: Octet)
    ensures Triple(o) == [UpperHex(o / 16), UpperHex(o % 16)] + [0x20]
  {
  }

  lemma BasicSpells(s: seq<Octet>, level: int)
    ensures Convertible(Basic(s, level)) && Nibbles(Basic(s, level)) == Unpack(s)
  {
    hide Indent, Triple, Shown, IsBlank, Convertible, Nibbles;
    assert s[..|s|] == s;
    if s == [] {
      NoDigits(s);
    } else {
      var t := Shown(s, |s| > ROW, level);
      ShownSpells(s, |s|, |s| > ROW, level);
      ShownGrows(s, |s| > ROW, level);
      TripleIs(s[|s| - 1]);
      assert t == t[..|t| - 1] + [0x20];
      SpaceIsBlank();
      SpellsWithBlanks(t[..|t| - 1], [0x20], s, |s|);
      SpellsWithBlanks(t[..|t| - 1], Indent(level - 1), s, |s|);
      assert t[..|t| - 1] + [] == t[..|t| - 1];
    }
  }

  // ---------------------------------------------------------------- the encoders

  /** The two digits of an octet. */
  method PutPair(scratch: array<Octet>, p: nat, o: Octet) returns (next: nat)
    requires p + 2 <= scratch.Length
    modifies scratch
    ensures next == p + 2 && scratch[..next] == old(scratch[..p]) + [UpperHex(o / 16), UpperHex(o % 16)]
  {
    hide UpperHex;
    next := Put(scratch, p, UpperHex(o / 16));
    next := Put(scratch, next, UpperHex(o % 16));
  }

  method PutTriple(scratch: array<Octet>, p: nat, o: Octet) returns (next: nat)
    requires p + 3 <= scratch.Length
    modifies scratch
    ensures next == p + 3 && scratch[..next] == old(scratch[..p]) + Triple(o)
  {
    hide UpperHex;
    next := PutPair(scratch, p, o);
    next := Put(scratch, next, 0x20);
  }

  method EncodeCanonical(s: seq<Octet>) returns (out: seq<Octet>)
    ensures out == UpperDigits(s)
  {
    hide UpperDigits, UpperHex;
    var scratch := new Octet[16 * 3 + 4];
    var b, p := 0, 0;
    out := [];
    NoDigits(s);
    while b < |s|
      invariant b <= |s| && p <= 52
      invariant out + scratch[..p] == UpperDigits(s[..b])
    {
      if p >= scratch.Length - 2 {
        out := out + scratch[..p];
        p := 0;
      }
      p := PutPair(scratch, p, s[b]);
      OneMoreOctet(s, b);
      b := b + 1;
    }
    assert s[..b] == s;
    out := out + scratch[..p];
  }

  lemma NoDigits(s: seq<Octet>)
    ensures UpperDigits(s[..0]) == [] && Nibbles([]) == Unpack(s[..0]) && Convertible([])
  {
  }

  lemma BlanksAdd(t: seq<Octet>, blanks: seq<Octet>)
    requires forall c <- blanks :: IsBlank(c)
    ensures Nibbles(t + blanks) == Nibbles(t)
    ensures Convertible(t + blanks) <==> Convertible(t)
  {
    NoNibbles(blanks);
    NibblesJoin(t, blanks);
    assert forall c <- t :: c in t + blanks;
  }

  lemma {:induction false} NoNibbles(blanks: seq<Octet>)
    requires forall c <- blanks :: IsBlank(c)
    ensures Nibbles(blanks) == []
    decreases |blanks|
  {
    if blanks != [] {
      NoNibbles(blanks[..|blanks| - 1]);
      assert blanks[|blanks| - 1] in blanks;
    }
  }

  /** `t` spells the first n octets of s. */
  predicate Spells(t: seq<Octet>, s: seq<Octet>, n: nat)
    requires n <= |s|
  {
    Convertible(t) && Nibbles(t) == Unpack(s[..n])
  }

  lemma SpellsMore(t: seq<Octet>, s: seq<Octet>, n: nat)
    requires n < |s| && Spells(t, s, n)
    ensures Spells(t + Triple(s[n]), s, n + 1)
  {
    hide UpperHex, Nibbles, Unpack, UpperDigits;
    var pair := [UpperHex(s[n] / 16), UpperHex(s[n] % 16)];
    TwoDigits(s[n]);
    NibblesJoin(t, pair);
    OneMoreOctet(s, n);
    assert t + Triple(s[n]) == t + pair + [0x20];
    BlanksAdd(t + pair, [0x20]);
  }

  lemma SpellsWithBlanks(t: seq<Octet>, blanks: seq<Octet>, s: seq<Octet>, n: nat)
    requires n <= |s| && forall c <- blanks :: IsBlank(c)
    ensures Spells(t + blanks, s, n) <==> Spells(t, s, n)
  {
    BlanksAdd(t, blanks);
  }

  /** How much of the scratch buffer is taken after i octets, before any flush. */
  function Filled(i: nat): nat {
    if i == 0 then 0 else 3 * ((i - 1) % 16 + 1)
  }

  lemma FilledNext(i: nat)
    ensures Filled(i) <= 48 && (Filled(i) == 0 <==> i == 0)
    ensures Filled(i + 1) == if i % 16 == 0 then 3 else Filled(i) + 3
    ensures i % 16 != 0 ==> Filled(i) <= 45
  {
  }

  method EncodeBasic(s: seq<Octet>, level: int) returns (out: seq<Octet>)
    ensures out == Basic(s, level)
  {
    hide UpperHex, Indent, Filled, Shown, Triple;
    var scratch := new Octet[16 * 3 + 4];
    var i, p := 0, 0;
    out := [];
    ghost var rows := |s| > ROW;
    NothingShown(rows, level);
    FilledNext(0);
    assert out + scratch[..p] == [] && s[..0] == [];
    while i < |s|
      invariant i <= |s| && p == Filled(i) <= 48
      invariant out + scratch[..p] == Shown(s[..i], rows, level)
    {
      FilledNext(i);
      ShownGrows(s[..i + 1], rows, level);
      assert s[..i + 1][..i] == s[..i];
      if i % 16 == 0 && (i > 0 || |s| > 16) {
        out := out + scratch[..p] + Indent(level);
        p := 0;
        assert out + scratch[..p] == out;
      }
      ghost var before := out + scratch[..p];
      p := PutTriple(scratch, p, s[i]);
      assert out + scratch[..p] == before + Triple(s[i]);
      i := i + 1;
    }
    assert s[..i] == s;
    FilledNext(i);
    if p > 0 {
      p := p - 1;
      ghost var t := Shown(s, rows, level);
      assert out + scratch[..p + 1] == t;
      assert out + scratch[..p] == (out + scratch[..p + 1])[..|t| - 1];
      out := out + scratch[..p];
      if |s| > 16 {
        out := out + Indent(level - 1);
      }
    } else {
      assert out + scratch[..p] == out;
    }
  }

  lemma SpaceIsBlank()
    ensures IsBlank(0x20)
  {
  }

  lemma SpellsNothing(s: seq<Octet>)
    ensures Spells([], s, 0)
  {
  }

  /** Any text that spells the octets, with blanks anywhere in it, is converted into them. */
  lemma SpelledReadsBack(t: seq<Octet>, s: seq<Octet>, last: bool)
    requires Convertible(t) && Nibbles(t) == Unpack(s)
    ensures Hex(t, last) == Converted(s, |t|)
  {
    PackUnpack(s);
  }

  /** Either layout in any case, also with only some of its digits in lower case, is converted back. */
  lemma AnyCaseReadsBack(s: seq<Octet>, canonical: bool, level: int, t: seq<Octet>, last: bool)
    requires CaseOnly(if canonical then UpperDigits(s) else Basic(s, level), t)
    ensures Hex(t, last) == Converted(s, |t|)
  {
    hide Hex, Basic, UpperDigits, Convertible, Nibbles, Unpack;
    UpperDigitsSpell(s);
    BasicSpells(s, level);
    var u := if canonical then UpperDigits(s) else Basic(s, level);
    SpelledReadsBack(u, s, last);
    CaseConvertsSame(u, t, last);
  }

  /** Encoding, and then converting the text in any pieces, gives back the octets. */
  method EncodeThenSession(s: seq<Octet>, canonical: bool, level: int) returns (out: seq<Octet>)
    ensures forall pieces | pieces != [] && Joined(pieces) == out :: Session([], pieces) == Converted(s, |out|)
  {
    hide Hex, Session, Nibbles, Unpack;
    out := EncodeXer(s, canonical, level);
    SpelledReadsBack(out, s, true);
    forall pieces | pieces != [] && Joined(pieces) == out
      ensures Session([], pieces) == Converted(s, |out|)
    {
      SessionIsWhole([], pieces);
      assert [] + Joined(pieces) == out;
    }
  }
}
