/** The APPEND macro (src/msg/OCTET_STRING.c:78-105): what it stores, what it allocates and when it refuses. */
module BerBuffer {
  import opened Octets
  import opened Options
  import opened BerMachine

  /** The allocation that holds n octets and their terminator: the first of 16, 32, 64, ... above n. */
  function Capacity(n: nat): nat {
    Doubled(0, n)
  }

  /** The buffer of every reachable state: nothing was stored yet, or the size stays below the allocation. */
  ghost predicate SinkOk(k: Sink) {
    || (k.alloc == 0 && k.buf == [])
    || (k.alloc == Capacity(|k.buf|) && |k.buf| < MAX_SIZE)
  }

  lemma SinkHasRoom(k: Sink)
    requires SinkOk(k)
    ensures k.alloc == 0 || |k.buf| < k.alloc <= MAX_SIZE
  {
    if k.alloc != 0 {
      CapacityBounds(|k.buf|);
    }
  }

  /** Growing in two goes ends at the same allocation as growing in one. */
  lemma {:induction false} DoubledAgain(ns: nat, a: nat, b: nat)
    requires ns <= a <= b
    ensures Doubled(ns, b) == if Doubled(ns, a) <= b then Doubled(Doubled(ns, a), b) else Doubled(ns, a)
    decreases a - ns
  {
    var next := if ns == 0 then 16 else 2 * ns;
    if next <= a {
      DoubledAgain(next, a, b);
    }
  }

  lemma {:induction false} DoubledFromPow2(k: nat, top: nat, es: nat)
    requires k < top && Pow2(k) <= es < Pow2(top)
    ensures Doubled(Pow2(k), es) <= Pow2(top)
    ensures Pow2(top - 1) <= es ==> Doubled(Pow2(k), es) == Pow2(top)
    decreases top - k
  {
    if Pow2(k + 1) <= es {
      DoubledFromPow2(k + 1, top, es);
    } else if k + 1 < top {
      Pow2Grows(k + 1, top - 1);
    }
  }

  lemma {:induction false} Pow2Grows(a: nat, b: nat)
    requires a <= b
    ensures Pow2(a) <= Pow2(b)
    decreases b - a
  {
    if a < b {
      Pow2Grows(a + 1, b);
    }
  }

  lemma CapacityBounds(n: nat)
    requires n < INT_LIMIT
    ensures n < Capacity(n)
    ensures n < MAX_SIZE ==> Capacity(n) <= MAX_SIZE
    ensures n >= MAX_SIZE ==> Capacity(n) == INT_LIMIT
  {
    assert Pow2(4) == 16 && Pow2(8) == 0x100 && Pow2(12) == 0x1000 && Pow2(16) == 0x1_0000 && Pow2(20) == 0x10_0000;
    assert Pow2(24) == 0x100_0000 && Pow2(28) == 0x1000_0000 && Pow2(30) == MAX_SIZE && Pow2(31) == INT_LIMIT;
    if n >= 16 {
      DoubledFromPow2(4, if n < MAX_SIZE then 30 else 31, n);
    }
  }

  /** Append stores exactly the octets it is given, or refuses when the string would reach 2^30 octets. */
  lemma AppendStores(k: Sink, bytes: seq<Octet>)
    requires SinkOk(k) && |bytes| < INT_LIMIT
    ensures Append(k, bytes)
            == if |k.buf| + |bytes| < MAX_SIZE
               then Some(Sink(k.buf + bytes, Capacity(|k.buf| + |bytes|), k.bitsUnused)) else None
    ensures Append(k, bytes).Some? ==> SinkOk(Append(k, bytes).value)
  {
    var es := |k.buf| + |bytes|;
    if es < INT_LIMIT {
      assert es % UINT_LIMIT == es;
      CapacityBounds(es);
      CapacityBounds(|k.buf|);
      DoubledAgain(0, |k.buf|, es);
      assert (k.buf + bytes)[..es] == k.buf + bytes;
    }
  }

  lemma {:induction false} DoubledIsPow2(k: nat, es: nat) returns (m: nat)
    requires Pow2(k) <= es
    ensures Doubled(Pow2(k), es) == Pow2(m)
    decreases es - Pow2(k)
  {
    assert Pow2(k + 1) == 2 * Pow2(k);
    m := k + 1;
    if Pow2(k + 1) <= es {
      m := DoubledIsPow2(k + 1, es);
    }
  }

  lemma {:induction false} Pow2Multiple(m: nat)
    requires m >= 32
    ensures Pow2(m) % UINT_LIMIT == 0
    decreases m
  {
    if m == 32 {
      CapacityConstants();
    } else {
      Pow2Multiple(m - 1);
      assert Pow2(m) == 2 * Pow2(m - 1);
      TwiceMultiple(Pow2(m - 1));
    }
  }

  lemma TwiceMultiple(n: nat)
    requires n % UINT_LIMIT == 0
    ensures 2 * n % UINT_LIMIT == 0
  {
  }

  lemma CapacityConstants()
    ensures Pow2(4) == 16 && Pow2(32) == UINT_LIMIT
  {
    assert Pow2(8) == 0x100 && Pow2(12) == 0x1000 && Pow2(16) == 0x1_0000 && Pow2(20) == 0x10_0000;
    assert Pow2(24) == 0x100_0000 && Pow2(28) == 0x1000_0000;
  }

  /** The allocation for 2^32 octets or more is zero as an int. */
  lemma HugeCapacity(n: nat)
    requires n >= UINT_LIMIT
    ensures Capacity(n) % UINT_LIMIT == 0
  {
    CapacityConstants();
    assert Doubled(0, n) == Doubled(16, n);
    var m := DoubledIsPow2(4, n);
    if m <= 32 {
      Pow2Grows(m, 32);
    } else {
      Pow2Multiple(m);
    }
  }

  /** For appends of any length: the outcome is the right one, stored below 2^30 octets and refused from there on, if
      and only if the expected size is not one of those from 2^32 on that look small as an int; those are taken and
      cut off. */
  lemma AppendIsRightUnlessHuge(k: Sink, bytes: seq<Octet>)
    requires SinkOk(k)
    ensures var n := |k.buf| + |bytes|;
            Append(k, bytes) == (if n < MAX_SIZE then Some(Sink(k.buf + bytes, Capacity(n), k.bitsUnused)) else None)
            <==> !(n >= UINT_LIMIT && n % UINT_LIMIT < INT_LIMIT)
  {
    var n := |k.buf| + |bytes|;
    SinkHasRoom(k);
    if n < INT_LIMIT {
      AppendStores(k, bytes);
    } else if n >= UINT_LIMIT {
      HugeCapacity(n);
      if k.alloc != 0 {
        DoubledAgain(0, |k.buf|, n);
      }
    }
  }

  /** Storing two pieces is storing their concatenation. */
  lemma StoreTwice(d: Descriptor, k: Sink, chopped: bool, a: seq<Octet>, b: seq<Octet>)
    requires SinkOk(k) && a != [] && |a| + |b| < INT_LIMIT
    ensures Store(d, k, chopped, a + b)
            == match Store(d, k, chopped, a)
               case None => None
               case Some(k') => Store(d, k', chopped || d.variant.Bits?, b)
  {
    var first := d.variant.Bits? && !chopped;
    var (k0, a0) := if first then (k.(bitsUnused := a[0]), a[1..]) else (k, a);
    assert SinkOk(k0);
    AppendStores(k0, a0);
    AppendStores(k0, a0 + b);
    assert first ==> (a + b)[0] == a[0] && (a + b)[1..] == a0 + b;
    if |k0.buf| + |a0| < MAX_SIZE {
      AppendStores(Append(k0, a0).value, b);
      assert k0.buf + a0 + b == k0.buf + (a0 + b);
    }
  }

  lemma StoreKeepsOk(d: Descriptor, k: Sink, chopped: bool, a: seq<Octet>)
    requires SinkOk(k) && |a| < INT_LIMIT
    ensures var r := Store(d, k, chopped, a); r.Some? ==> SinkOk(r.value) && r.value.alloc > 0
  {
    var (k0, a0) := if d.variant.Bits? && !chopped && a != [] then (k.(bitsUnused := a[0]), a[1..]) else (k, a);
    AppendStores(k0, a0);
    if |k0.buf| + |a0| < MAX_SIZE {
      CapacityBounds(|k0.buf| + |a0|);
    }
  }
}
