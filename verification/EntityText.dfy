/** OCTET_STRING__convert_entrefs over a chunk of text, and texts that arrive in pieces
    (src/msg/OCTET_STRING.c:959-1097). */
module EntityText {
  import opened Octets
  import opened XerText
  import opened EnumMap
  import opened EntityCodec
  import opened EntityDecoder

  // ---------------------------------------------------------------- one entity reference

  /** At an ampersand: octets to write and characters to pass, not enough text to tell, or a failed assert. */
  datatype Seen = Emit(octets: seq<Octet>, used: nat) | Stall | Abort

  function SemicolonWithin(t: seq<Octet>, i: nat, n: nat): (k: nat)
    requires i <= n <= |t|
    ensures i <= k <= n && (k < n ==> t[k] == SEMICOLON) && (forall j | i <= j < k :: t[j] != SEMICOLON)
    decreases n - i
  {
    if i == n || t[i] == SEMICOLON then i else SemicolonWithin(t, i + 1, n)
  }

  function Numeric(base: Base, t: seq<Octet>, digits: nat): Seen
    requires digits <= |t|
  {
    match StrToEnt(base, t[digits..], 0)
    case BadEnt => Emit([AMP], 1)
    case RanOut => Stall
    case Ent(used, val) => if val <= 0 then Abort else Emit(Utf8(val), digits + used)
  }

  function Named(t: seq<Octet>): Seen
    requires |t| >= 2
  {
    var n := if |t| > 5 then 5 else |t|;
    var k := SemicolonWithin(t, 0, n);
    if k == n then Stall
    else if k == 4 && t[1] == 0x61 && t[2] == 0x6d && t[3] == 0x70 then Emit([AMP], 5)
    else if k == 3 && t[1] == 0x6c && t[2] == 0x74 then Emit([LESS], 4)
    else if k == 3 && t[1] == 0x67 && t[2] == 0x74 then Emit([GREATER], 4)
    else Emit([AMP], 1)
  }

  /** The text from an ampersand on. */
  function Entity(t: seq<Octet>): Seen
    requires t != [] && t[0] == AMP
  {
    if |t| == 1 then Stall
    else if t[1] != HASH then Named(t)
    else if |t| == 2 then Stall
    else if t[2] == 0x78 then Numeric(Sixteen, t, 3)
    else Numeric(Ten, t, 2)
  }

  // ---------------------------------------------------------------- a chunk

  /** The octets appended and the characters used, or a failed assert. */
  datatype Expansion = Aborted | Expanded(octets: seq<Octet>, used: nat)

  function Then(octets: seq<Octet>, used: nat, r: Expansion): Expansion {
    if r.Aborted? then Aborted else Expanded(octets + r.octets, used + r.used)
  }

  /** `last` says that no more text follows, so that an unfinished reference is copied as it stands. */
  function Expand(t: seq<Octet>, last: bool): (r: Expansion)
    ensures r.Expanded? ==> r.used <= |t| && (last ==> r.used == |t|)
    decreases |t|
  {
    if t == [] then Expanded([], 0)
    else if t[0] != AMP then Then([t[0]], 1, Expand(t[1..], last))
    else
      match Entity(t)
      case Abort => Aborted
      case Stall => if last then Then([AMP], 1, Expand(t[1..], last)) else Expanded([], 0)
      case Emit(octets, used) => EntityFits(t); Then(octets, used, Expand(t[used..], last))
  }

  // ---------------------------------------------------------------- what is written is no longer than what is read

  function Pow16(n: nat): nat {
    if n == 0 then 1 else 16 * Pow16(n - 1)
  }

  lemma {:induction false} Pow16Grows(a: nat, b: nat)
    requires a <= b
    ensures Pow16(a) <= Pow16(b)
    decreases b
  {
    if a < b {
      Pow16Grows(a, b - 1);
    }
  }

  lemma Pow16Constants()
    ensures Pow16(0) == 1 && Pow16(5) == 0x10_0000 && Pow16(7) == 0x1000_0000 && Pow16(8) == 0x1_0000_0000
  {
    assert Pow16(3) == 0x1000;
  }

  /** After n digits the running number is below 16^n, and it is not negative before it can have wrapped. */
  predicate Small(val: Int32, n: nat) {
    val < Pow16(n) && (n < 8 ==> val >= 0)
  }

  lemma SmallStep(base: Base, val: Int32, n: nat, d: nat)
    requires Small(val, n) && d < 16
    ensures Small(Wrap32(Next(base, val, d)), n + 1)
  {
    Pow16Constants();
    if n + 1 >= 8 {
      Pow16Grows(8, n + 1);
    } else {
      Pow16Grows(n + 1, 7);
      assert 0 <= Next(base, val, d) < 16 * Pow16(n);
    }
  }

  lemma {:induction false} EntIsSmall(base: Base, t: seq<Octet>, val: Int32, n: nat)
    requires Small(val, n)
    ensures var r := StrToEnt(base, t, val); r.Ent? ==> Small(r.value, n + r.used - 1)
    decreases |t|
  {
    hide Small, Wrap32, Fires, Next;
    if t != [] && t[0] != SEMICOLON && IntegerText.IsHexDigit(t[0]) {
      SmallStep(base, val, n, IntegerText.HexVal(t[0]));
      EntIsSmall(base, t[1..], Wrap32(Next(base, val, IntegerText.HexVal(t[0]))), n + 1);
    }
  }

  lemma NumericFits(base: Base, t: seq<Octet>, digits: nat)
    requires 2 <= digits <= |t|
    ensures var r := Numeric(base, t, digits);
            r.Emit? ==> 1 <= |r.octets| <= r.used <= |t|
  {
    hide StrToEnt, Utf8;
    Pow16Constants();
    EntIsSmall(base, t[digits..], 0, 0);
    var e := StrToEnt(base, t[digits..], 0);
    if e.Ent? && e.value > 0 {
      Utf8StandsForIt(e.value);
      if e.used - 1 <= 5 {
        Pow16Grows(e.used - 1, 5);
      }
    }
  }

  lemma EntityFits(t: seq<Octet>)
    requires t != [] && t[0] == AMP
    ensures Entity(t).Emit? ==> 1 <= |Entity(t).octets| <= Entity(t).used <= |t|
  {
    hide Numeric;
    if |t| > 2 && t[1] == HASH {
      NumericFits(if t[2] == 0x78 then Sixteen else Ten, t, if t[2] == 0x78 then 3 else 2);
    }
  }

  /** The decoder never writes more octets than it has consumed. */
  lemma {:induction false} NeverLonger(t: seq<Octet>, last: bool)
    ensures Expand(t, last).Expanded? ==> |Expand(t, last).octets| <= Expand(t, last).used
    decreases |t|
  {
    hide Entity;
    if t != [] {
      if t[0] == AMP {
        EntityFits(t);
        if Entity(t).Emit? {
          NeverLonger(t[Entity(t).used..], last);
        } else {
          NeverLonger(t[1..], last);
        }
      } else {
        NeverLonger(t[1..], last);
      }
    }
  }

  // ---------------------------------------------------------------- the converter

  lemma ThenThen(a: seq<Octet>, i: nat, b: seq<Octet>, j: nat, r: Expansion)
    ensures Then(a, i, Then(b, j, r)) == Then(a + b, i + j, r)
  {
    if r.Expanded? {
      assert a + (b + r.octets) == a + b + r.octets;
    }
  }

  lemma ThenNothing(a: seq<Octet>, i: nat)
    ensures Then(a, i, Expanded([], 0)) == Expanded(a, i)
  {
    assert a + [] == a;
  }

  /** What one turn of the loop writes and passes. */
  method SeeEntity(t: seq<Octet>) returns (r: Seen)
    requires t != [] && t[0] == AMP
    ensures r == Entity(t)
  {
    hide StrToEnt;
    if |t| == 1 {
      return Stall;
    }
    if t[1] == HASH {
      if |t| == 2 {
        return Stall;
      }
      var base, digits := Ten, 2;
      if t[2] == 0x78 {
        base, digits := Sixteen, 3;
      }
      var e := ReadEnt(base, t[digits..]);
      match e
      case BadEnt => return Emit([AMP], 1);
      case RanOut => return Stall;
      case Ent(used, val) =>
        if val <= 0 {
          return Abort;
        }
        return Emit(Utf8(val), digits + used);
    }
    var n := if |t| > 5 then 5 else |t|;
    var sc := SemicolonWithin(t, 0, n);
    if sc == n {
      return Stall;
    }
    if sc == 4 && t[1] == 0x61 && t[2] == 0x6d && t[3] == 0x70 {
      return Emit([AMP], 5);
    }
    if sc == 3 {
      if t[1] == 0x6c {
        r := Emit([LESS], 4);
      } else if t[1] == 0x67 {
        r := Emit([GREATER], 4);
      } else {
        return Emit([AMP], 1);
      }
      return if t[2] != 0x74 then Emit([AMP], 1) else r;
    }
    return Emit([AMP], 1);
  }

  /** OCTET_STRING__convert_entrefs: what a chunk stands for is appended, within the space of the chunk. */
  method ConvertEntrefs(st: XerString, chunk: seq<Octet>, haveMore: bool) returns (r: Expansion)
    requires st.Valid()
    modifies st
    ensures fresh(st.buf) && st.buf.Length == old(st.size) + |chunk| + 1 && st.bitsUnused == old(st.bitsUnused)
    ensures r == Expand(chunk, haveMore)
    ensures r.Expanded? ==> st.Valid() && st.Contents() == old(st.Contents()) + r.octets
  {
    hide Expand;
    ghost var was := st.Contents();
    st.Reserve(st.size + |chunk|);
    assert st.buf[..st.size] == st.buf[..st.size + 1][..st.size] == was;
    var at;
    r, at := ConvertFrom(st.buf, st.size, chunk, haveMore);
    if r.Expanded? {
      st.size := at;
    }
  }

  /** The loop, which writes from `base` on. */
  method ConvertFrom(buf: array<Octet>, base: nat, chunk: seq<Octet>, haveMore: bool) returns (r: Expansion, at: nat)
    requires buf.Length == base + |chunk| + 1
    modifies buf
    ensures r == Expand(chunk, haveMore)
    ensures r.Expanded? ==> at < buf.Length && buf[at] == 0 && buf[..at] == old(buf[..base]) + r.octets
  {
    hide Expand, Entity;
    ghost var was := buf[..base];
    at := base;
    var p := 0;
    ghost var done: seq<Octet> := [];
    assert chunk[0..] == chunk;
    StartsExpanding(chunk, haveMore);
    while p < |chunk|
      invariant p <= |chunk| && |done| <= p && at == base + |done|
      invariant buf[..at] == was + done
      invariant Expand(chunk, haveMore) == Then(done, p, Expand(chunk[p..], haveMore))
    {
      ghost var rest := chunk[p..];
      ExpandStep(rest, haveMore);
      var octets, used := [chunk[p]], 1;
      if chunk[p] == AMP {
        var seen := SeeEntity(chunk[p..]);
        EntityFits(rest);
        match seen {
          case Abort => return Aborted, at;
          case Emit(o, n) => octets, used := o, n;
          case Stall =>
            if !haveMore {
              break;
            }
        }
      }
      ThenThen(done, p, octets, used, Expand(rest[used..], haveMore));
      assert rest[used..] == chunk[p + used..];
      at := PutText(buf, at, octets);
      done := done + octets;
      p := p + used;
    }
    ExpandEnds(chunk[p..], haveMore);
    ThenNothing(done, p);
    Terminate(buf, at);
    assert buf[base..at] == done;
    return Expanded(buf[base..at], p), at;
  }

  lemma StartsExpanding(t: seq<Octet>, last: bool)
    ensures Expand(t, last) == Then([], 0, Expand(t, last))
  {
    if Expand(t, last).Expanded? {
      assert [] + Expand(t, last).octets == Expand(t, last).octets;
    }
  }

  lemma ExpandStep(t: seq<Octet>, last: bool)
    requires t != []
    ensures t[0] != AMP ==> Expand(t, last) == Then([t[0]], 1, Expand(t[1..], last))
    ensures t[0] == AMP && Entity(t).Abort? ==> Expand(t, last) == Aborted
    ensures t[0] == AMP && Entity(t).Stall? && last ==> Expand(t, last) == Then([AMP], 1, Expand(t[1..], last))
    ensures t[0] == AMP && Entity(t).Emit?
            ==> Entity(t).used <= |t|
                && Expand(t, last) == Then(Entity(t).octets, Entity(t).used, Expand(t[Entity(t).used..], last))
  {
    if t[0] == AMP {
      EntityFits(t);
    }
  }

  lemma ExpandEnds(t: seq<Octet>, last: bool)
    requires t == [] || (t[0] == AMP && Entity(t).Stall? && !last)
    ensures Expand(t, last) == Expanded([], 0)
  {
  }

  // ---------------------------------------------------------------- chunks

  lemma {:induction false} EntStable(base: Base, a: seq<Octet>, b: seq<Octet>, val: Int32)
    ensures var r := StrToEnt(base, a, val); !r.RanOut? ==> StrToEnt(base, a + b, val) == r
    decreases |a|
  {
    hide Wrap32, Next, Fires;
    if a != [] {
      assert (a + b)[1..] == a[1..] + b;
      EntStable(base, a[1..], b, Wrap32(Next(base, val, IntegerText.HexVal(a[0]))));
    }
  }

  lemma {:induction false} SemicolonStable(a: seq<Octet>, b: seq<Octet>, i: nat, n: nat, m: nat)
    requires i <= n <= |a| && n <= m <= |a + b|
    ensures SemicolonWithin(a, i, n) < n ==> SemicolonWithin(a + b, i, m) == SemicolonWithin(a, i, n)
    ensures n == m ==> SemicolonWithin(a + b, i, m) == SemicolonWithin(a, i, n)
    decreases n - i
  {
    if i < n {
      SemicolonStable(a, b, i + 1, n, m);
    }
  }

  /** What can be told of a reference stays the same when more text follows. */
  lemma EntityStable(a: seq<Octet>, b: seq<Octet>)
    requires a != [] && a[0] == AMP
    ensures !Entity(a).Stall? ==> Entity(a + b) == Entity(a)
  {
    hide StrToEnt, Utf8;
    var t := a + b;
    if |a| > 2 && a[1] == HASH {
      var digits := if a[2] == 0x78 then 3 else 2;
      EntStable(if a[2] == 0x78 then Sixteen else Ten, a[digits..], b, 0);
      assert t[digits..] == a[digits..] + b;
    } else if |a| > 1 && a[1] != HASH {
      SemicolonStable(a, b, 0, if |a| > 5 then 5 else |a|, if |t| > 5 then 5 else |t|);
    }
  }

  /** A chunk, and then its unconverted rest with more text, stand for what the whole text stands for. */
  lemma {:induction false} ChunkThenRest(a: seq<Octet>, b: seq<Octet>, last: bool)
    ensures var first := Expand(a, false);
            Expand(a + b, last)
            == if first.Aborted? then Aborted
               else Then(first.octets, first.used, Expand(a[first.used..] + b, last))
    decreases |a|
  {
    hide Expand, Entity;
    var t := a + b;
    if a == [] {
      ExpandEnds(a, false);
      assert a[0..] + b == t;
      StartsExpanding(t, last);
    } else {
      ExpandStep(a, false);
      ExpandStep(t, last);
      if a[0] != AMP {
        assert t[1..] == a[1..] + b;
        ChunkThenRest(a[1..], b, last);
        StepThenRest(a, b, last, [a[0]], 1);
      } else {
        EntityStable(a, b);
        if Entity(a).Stall? {
          ExpandEnds(a, false);
          assert a[0..] + b == t;
          StartsExpanding(t, last);
        } else if Entity(a).Emit? {
          var n := Entity(a).used;
          EntityFits(a);
          assert t[n..] == a[n..] + b;
          ChunkThenRest(a[n..], b, last);
          StepThenRest(a, b, last, Entity(a).octets, n);
        }
      }
    }
  }

  lemma StepThenRest(a: seq<Octet>, b: seq<Octet>, last: bool, octets: seq<Octet>, n: nat)
    requires 0 < n <= |a| && Expand(a, false) == Then(octets, n, Expand(a[n..], false))
    ensures var (first, tail) := (Expand(a, false), Expand(a[n..], false));
            first.Expanded? ==>
              && a[n..][tail.used..] == a[first.used..]
              && Then(octets, n, Then(tail.octets, tail.used, Expand(a[first.used..] + b, last)))
                 == Then(first.octets, first.used, Expand(a[first.used..] + b, last))
  {
    hide Expand;
    var tail := Expand(a[n..], false);
    if tail.Expanded? {
      ThenThen(octets, n, tail.octets, tail.used, Expand(a[n + tail.used..] + b, last));
    }
  }

  /** The pieces of a text, the unconverted rest of each call in front of the next piece. */
  function Session(tail: seq<Octet>, pieces: seq<seq<Octet>>): Expansion
    requires pieces != []
    decreases |pieces|
  {
    if |pieces| == 1 then Expand(tail + pieces[0], true)
    else
      var r := Expand(tail + pieces[0], false);
      if r.Aborted? then Aborted else Then(r.octets, r.used, Session((tail + pieces[0])[r.used..], pieces[1..]))
  }

  /** However a text is cut into pieces, it stands for the same octets. */
  lemma {:induction false} SessionIsWhole(tail: seq<Octet>, pieces: seq<seq<Octet>>)
    requires pieces != []
    ensures Session(tail, pieces) == Expand(tail + Joined(pieces), true)
    decreases |pieces|
  {
    hide Expand;
    var a, b := tail + pieces[0], Joined(pieces[1..]);
    assert tail + Joined(pieces) == a + b;
    if |pieces| == 1 {
      assert a + b == a;
    } else {
      ChunkThenRest(a, b, true);
      var r := Expand(a, false);
      if r.Expanded? {
        SessionIsWhole(a[r.used..], pieces[1..]);
      }
    }
  }

  // ---------------------------------------------------------------- a reference against its characters

  /** Text without ampersands stands for itself. */
  lemma {:induction false} PlainFront(a: seq<Octet>, b: seq<Octet>, last: bool)
    requires AMP !in a
    ensures Expand(a + b, last) == Then(a, |a|, Expand(b, last))
    decreases |a|
  {
    hide Expand;
    if a == [] {
      assert a + b == b;
      StartsExpanding(b, last);
    } else {
      ExpandStep(a + b, last);
      assert (a + b)[1..] == a[1..] + b && [a[0]] + a[1..] == a && (a + b)[0] in a;
      PlainFront(a[1..], b, last);
      ThenThen([a[0]], 1, a[1..], |a| - 1, Expand(b, last));
    }
  }

  lemma {:induction false} NoAmpInDigits(base: Base, t: seq<Octet>, val: Int32)
    ensures var r := StrToEnt(base, t, val); r.Ent? ==> 0 < r.used <= |t| && AMP !in t[..r.used]
    decreases |t|
  {
    hide Wrap32, Next, Fires;
    if t != [] {
      var v := Wrap32(Next(base, val, IntegerText.HexVal(t[0])));
      NoAmpInDigits(base, t[1..], v);
      var r := StrToEnt(base, t[1..], v);
      assert r.Ent? ==> t[..r.used + 1] == [t[0]] + t[1..][..r.used];
      assert t[..1] == [t[0]];
    }
  }

  /** A reference that is one is longer than what it stands for, and has no ampersand in it. */
  lemma ReferenceShape(t: seq<Octet>)
    requires t != [] && t[0] == AMP && Entity(t).Emit? && Entity(t) != Emit([AMP], 1)
    ensures var r := Entity(t); |r.octets| < r.used <= |t| && AMP !in t[1..r.used]
  {
    hide StrToEnt, Utf8;
    EntityFits(t);
    if t[1] == HASH {
      var base, digits := if t[2] == 0x78 then Sixteen else Ten, if t[2] == 0x78 then 3 else 2;
      var e := StrToEnt(base, t[digits..], 0);
      NoAmpInDigits(base, t[digits..], 0);
      EntIsSmall(base, t[digits..], 0, 0);
      Pow16Constants();
      Utf8StandsForIt(e.value);
      assert Pow16(1) == 16;
      if e.used - 1 <= 5 {
        Pow16Grows(e.used - 1, 5);
      }
      assert t[1..digits + e.used] == t[1..digits] + t[digits..][..e.used];
    }
  }

  /** An ampersand stands for itself and leaves the text after it as it is exactly if it begins no reference. */
  lemma ReferenceMatters(t: seq<Octet>)
    requires t != [] && t[0] == AMP && Expand(t[1..], true).Expanded?
    ensures Expand(t, true) == Then([AMP], 1, Expand(t[1..], true))
            <==> Entity(t).Stall? || Entity(t) == Emit([AMP], 1)
  {
    hide Expand, Entity;
    ExpandStep(t, true);
    if Entity(t).Emit? && Entity(t) != Emit([AMP], 1) {
      var u := Entity(t).used;
      ReferenceShape(t);
      PlainFront(t[1..u], t[u..], true);
      assert t[1..] == t[1..u] + t[u..];
      assert |Expand(t, true).octets| < u + |Expand(t[u..], true).octets|;
    }
  }

  // ---------------------------------------------------------------- what the references are

  /** A decimal or a hexadecimal reference, octet by octet. */
  function Reference(base: Base, d: seq<Octet>): seq<Octet> {
    (if base.Ten? then [AMP, HASH] else [AMP, HASH, 0x78]) + d + [SEMICOLON]
  }

  /** After "&#" the digits are read in base ten and after "&#x" in base sixteen. A number in range is written in
      UTF-8; the number zero hits the assertion; the overflow check leaves the ampersand as it is. */
  lemma ReferenceMeans(base: Base, digits: seq<nat>, d: seq<Octet>, rest: seq<Octet>)
    requires Writes(d, digits)
    ensures var (v, b) := (PlaceValue(if base.Ten? then 10 else 16, digits), if base.Ten? then 10 else 16);
            var (t, e) := (Reference(base, d) + rest, Entity(Reference(base, d) + rest));
            && (0 < v && v * b + b <= INT_MAX ==> e == Emit(Utf8(v), |Reference(base, d)|))
            && (v == 0 ==> e == Abort)
            && (SomeFires(base, d, 0) ==> e == Emit([AMP], 1))
  {
    hide StrToEnt, Utf8, Numeral, PlaceValue, Writes, IntegerText.HexVal;
    NumeralIsPlaceValue(base, d, digits);
    RightUnlessSilent(base, d, rest);
    ReferenceReads(base, d, rest);
    assert d[..0] == [] && d[0..] == d;
    NoDigitsYet(base);
    ReadsFrom(base, d, rest, 0);
    InRange(base, Numeral(base, d));
  }

  lemma InRange(base: Base, v: nat)
    ensures var b := if base.Ten? then 10 else 16;
            v * b + b <= INT_MAX <==> Next(base, v, Radix(base)) <= INT_MAX
    ensures v == 0 ==> Next(base, v, Radix(base)) <= INT_MAX
  {
  }

  lemma ReferenceReads(base: Base, d: seq<Octet>, rest: seq<Octet>)
    requires forall c <- d :: IntegerText.IsHexDigit(c)
    ensures var t := Reference(base, d) + rest;
            Entity(t) == match StrToEnt(base, d + [SEMICOLON] + rest, 0)
                         case BadEnt => Emit([AMP], 1)
                         case RanOut => Stall
                         case Ent(used, val) =>
                           if val <= 0 then Abort else Emit(Utf8(val), |Reference(base, d)| - |d| - 1 + used)
  {
    hide StrToEnt, Utf8;
    var t := Reference(base, d) + rest;
    var n := if base.Ten? then 2 else 3;
    assert t[n..] == d + [SEMICOLON] + rest;
    assert t[0] == AMP && t[1] == HASH;
    if base.Ten? {
      assert d != [] ==> d[0] in d;
      assert t[2] != 0x78;
    }
  }

  /** A reference in a text, with anything after it and no ampersand before it, becomes its character in UTF-8. */
  lemma ReferenceInText(base: Base, digits: seq<nat>, d: seq<Octet>, before: seq<Octet>, after: seq<Octet>, last: bool)
    requires Writes(d, digits) && AMP !in before
    requires var b := if base.Ten? then 10 else 16;
             0 < PlaceValue(b, digits) && PlaceValue(b, digits) * b + b <= INT_MAX
    ensures var v := PlaceValue(if base.Ten? then 10 else 16, digits);
            var n := |before| + |Reference(base, d)|;
            Expand(before + Reference(base, d) + after, last)
            == Then(before + Utf8(v), n, Expand(after, last))
  {
    hide Expand, Entity, PlaceValue, Writes, Reference, Utf8, SomeFires;
    var v := PlaceValue(if base.Ten? then 10 else 16, digits);
    var ref := Reference(base, d);
    var t := ref + after;
    ReferenceMeans(base, digits, d, after);
    ReferenceStarts(base, d);
    ExpandStep(t, last);
    assert t[|ref|..] == after;
    assert before + ref + after == before + t;
    PlainFront(before, t, last);
    ThenThen(before, |before|, Utf8(v), |ref|, Expand(after, last));
  }

  lemma ReferenceStarts(base: Base, d: seq<Octet>)
    ensures Reference(base, d) != [] && Reference(base, d)[0] == AMP
  {
  }

  /** The named references are exactly these three; with a semicolon among the five characters from the ampersand on,
      any other name leaves the ampersand as it is, and without one it is open whether a name comes. */
  lemma NamedExactly(t: seq<Octet>)
    requires |t| >= 2 && t[0] == AMP && t[1] != HASH
    ensures Entity(t) == if Begins(t, "&amp;") then Emit([0x26], 5)
                         else if Begins(t, "&lt;") then Emit([0x3c], 4)
                         else if Begins(t, "&gt;") then Emit([0x3e], 4)
                         else if exists k | 0 <= k < 5 && k < |t| :: t[k] as char == ';' then Emit([0x26], 1)
                         else Stall
  {
    var n := if |t| > 5 then 5 else |t|;
    var k := SemicolonWithin(t, 0, n);
    if Begins(t, "&amp;") {
      assert t[4] as char == ';' && forall j | 0 <= j < 4 :: t[j] as char == "&amp;"[j];
      assert k == 4;
    } else if Begins(t, "&lt;") {
      assert t[3] as char == ';' && forall j | 0 <= j < 3 :: t[j] as char == "&lt;"[j];
      assert k == 3;
    } else if Begins(t, "&gt;") {
      assert t[3] as char == ';' && forall j | 0 <= j < 3 :: t[j] as char == "&gt;"[j];
      assert k == 3;
    }
  }

  predicate Begins(t: seq<Octet>, name: string) {
    |name| <= |t| && forall i | 0 <= i < |name| :: t[i] as char == name[i]
  }

  /** After "&#" or "&#x" and digits, a character other than a semicolon makes it no reference; at the end of the text
      it is open, unless the overflow check has found it too large. */
  lemma BrokenReference(base: Base, d: seq<Octet>, tail: seq<Octet>)
    requires forall c <- d :: IntegerText.IsHexDigit(c)
    requires tail != [] ==> !IntegerText.IsHexDigit(tail[0]) && tail[0] != SEMICOLON
    requires base.Ten? && d == [] && tail != [] ==> tail[0] != 0x78
    ensures var t := (if base.Ten? then [AMP, HASH] else [AMP, HASH, 0x78]) + d + tail;
            Entity(t) == if tail == [] && forall i | 0 <= i < |d| :: !Fires(base, Numeral(base, d[..i])) then Stall
                         else Emit([AMP], 1)
  {
    hide StrToEnt, Utf8, Numeral, Fires;
    var n := if base.Ten? then 2 else 3;
    var t := (if base.Ten? then [AMP, HASH] else [AMP, HASH, 0x78]) + d + tail;
    assert t[n..] == d + tail && t[0] == AMP && t[1] == HASH;
    assert d[..0] == [] && d[0..] == d;
    NoDigitsYet(base);
    ReadsNone(base, d, tail, 0);
    if base.Ten? && |t| > 2 {
      assert d != [] ==> d[0] in d;
      assert t[2] != 0x78;
    }
  }
}
