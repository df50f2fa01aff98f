/** Octets, and the right shifts by whole digits that the serializers are written with. */
module Octets {
  type Octet = x: int | 0 <= x < 256

  function Pow2(n: nat): (r: nat)
    ensures r >= 1
  {
    if n == 0 then 1 else 2 * Pow2(n - 1)
  }

  /** `v >> (7 * n)`. */
  function Shr7(v: nat, n: nat): nat
    decreases n
  {
    if n == 0 then v else Shr7(v / 128, n - 1)
  }

  lemma {:induction false} Shr7DropsOne(v: nat, n: nat)
    ensures Shr7(v, n + 1) == Shr7(v, n) / 128
    decreases n
  {
    if n != 0 {
      Shr7DropsOne(v / 128, n - 1);
    }
  }

  /** `v >> (8 * n)`. */
  function Shr8(v: nat, n: nat): nat
    decreases n
  {
    if n == 0 then v else Shr8(v / 256, n - 1)
  }

  lemma {:induction false} Shr8DropsOne(v: nat, n: nat)
    ensures Shr8(v, n + 1) == Shr8(v, n) / 256
    decreases n
  {
    if n != 0 {
      Shr8DropsOne(v / 256, n - 1);
    }
  }

  /** Octets handed over in pieces. */
  function Joined(pieces: seq<seq<Octet>>): seq<Octet> {
    if pieces == [] then [] else pieces[0] + Joined(pieces[1..])
  }
}
