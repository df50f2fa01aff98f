/** Enumeration tables, and the two binary searches over them (src/msg/INTEGER.c:208-288). */
module EnumMap {
  import opened Octets
  import opened IntegerCodec

  /** One enumerated item; its name is a C string without the terminating zero. */
  datatype Entry = Entry(value: Long, name: seq<Octet>)

  /** asn_INTEGER_specifics_t; an absent one is the same as one without items. */
  datatype Specifics = Specifics(value2enum: seq<Entry>, enum2value: seq<nat>, strict: bool, unsigned: bool)

  datatype Found = Missing | Hit(entry: Entry)

  // ---------------------------------------------------------------- the order of names

  /** Lexicographic order of unsigned octets, a proper prefix coming first. */
  predicate Before(a: seq<Octet>, b: seq<Octet>) {
    exists k | 0 <= k <= |a| && k <= |b| :: DiffersAt(a, b, k)
  }

  predicate DiffersAt(a: seq<Octet>, b: seq<Octet>, k: nat)
    requires k <= |a| && k <= |b|
  {
    a[..k] == b[..k] && k < |b| && (k < |a| ==> a[k] < b[k])
  }

  lemma NotBothWays(a: seq<Octet>, b: seq<Octet>, k: nat, j: nat)
    requires k <= |a| && k <= |b| && j <= |a| && j <= |b|
    requires DiffersAt(a, b, k)
    ensures !DiffersAt(b, a, j)
  {
    assert j < k ==> a[..k][j] == b[..k][j];
  }

  lemma BeforeIsStrict(a: seq<Octet>, b: seq<Octet>)
    requires Before(a, b)
    ensures a != b && !Before(b, a)
  {
    var k :| 0 <= k <= |a| && k <= |b| && DiffersAt(a, b, k);
    forall j | 0 <= j <= |b| && j <= |a|
      ensures !DiffersAt(b, a, j)
    {
      NotBothWays(a, b, k, j);
    }
  }

  lemma BeforeIsTransitive(a: seq<Octet>, b: seq<Octet>, c: seq<Octet>)
    requires Before(a, b) && Before(b, c)
    ensures Before(a, c)
  {
    var i :| 0 <= i <= |a| && i <= |b| && DiffersAt(a, b, i);
    var j :| 0 <= j <= |b| && j <= |c| && DiffersAt(b, c, j);
    var k := if i < j then i else j;
    assert a[..k] == a[..i][..k] == b[..i][..k] == b[..k] == b[..j][..k] == c[..j][..k] == c[..k];
    if i < j {
      assert b[..j][i] == c[..j][i];
    }
    assert DiffersAt(a, c, k);
  }

  /** The key goes on with a zero octet where the name ends: the comparison would read past the end of the name. */
  predicate Overruns(key: seq<Octet>, name: seq<Octet>) {
    |name| < |key| && key[..|name|] == name && key[|name|] == 0
  }

  /** The comparison of a key with a stored name, octet by octet; the name ends in a zero. */
  method Compare(key: seq<Octet>, name: seq<Octet>) returns (r: int)
    requires !Overruns(key, name) && 0 !in name
    ensures r < 0 <==> Before(key, name)
    ensures r == 0 <==> key == name
    ensures r > 0 <==> Before(name, key)
  {
    var i := 0;
    while i < |key|
      invariant i <= |key| && i <= |name| && key[..i] == name[..i]
    {
      var c := if i < |name| then name[i] else 0;
      if key[i] != c {
        if key[i] < c {
          assert DiffersAt(key, name, i);
          BeforeIsStrict(key, name);
        } else {
          assert DiffersAt(name, key, i);
          BeforeIsStrict(name, key);
        }
        return key[i] as int - c as int;
      }
      i := i + 1;
    }
    assert key == name[..i];
    if i < |name| && name[i] != 0 {
      assert DiffersAt(key, name, i);
      BeforeIsStrict(key, name);
      return -1;
    }
    return 0;
  }

  // ---------------------------------------------------------------- tables

  predicate ValuesSorted(t: seq<Entry>) {
    forall i, j | 0 <= i < j < |t| :: t[i].value < t[j].value
  }

  /** The name that the second index puts at place i. */
  function NameAt(sp: Specifics, i: nat): seq<Octet>
    requires i < |sp.enum2value| && sp.enum2value[i] < |sp.value2enum|
  {
    sp.value2enum[sp.enum2value[i]].name
  }

  predicate NamesSorted(sp: Specifics)
    requires forall i | 0 <= i < |sp.enum2value| :: sp.enum2value[i] < |sp.value2enum|
  {
    forall i, j | 0 <= i < j < |sp.enum2value| :: Before(NameAt(sp, i), NameAt(sp, j))
  }

  /** What the ASN.1 compiler guarantees of the tables it writes: the first is sorted by value, and the
      second is a permutation that sorts it by name. */
  predicate WellFormed(sp: Specifics) {
    && ValuesSorted(sp.value2enum)
    && |sp.enum2value| == |sp.value2enum|
    && (forall i | 0 <= i < |sp.enum2value| :: sp.enum2value[i] < |sp.value2enum|)
    && (forall k | 0 <= k < |sp.value2enum| :: k in sp.enum2value)
    && (forall e <- sp.value2enum :: 0 !in e.name)
    && NamesSorted(sp)
  }

  ghost predicate HasValue(sp: Specifics, v: int) {
    exists e <- sp.value2enum :: e.value == v
  }

  ghost predicate HasName(sp: Specifics, name: seq<Octet>) {
    exists e <- sp.value2enum :: e.name == name
  }

  /** The item with a value, and the item with a name: a plain scan of the table. */
  ghost function ByValue(sp: Specifics, v: int): (r: Found)
    ensures r.Hit? ==> r.entry in sp.value2enum && r.entry.value == v
    ensures r.Missing? ==> !HasValue(sp, v)
  {
    if HasValue(sp, v) then var e :| e in sp.value2enum && e.value == v; Hit(e) else Missing
  }

  ghost function ByName(sp: Specifics, name: seq<Octet>): (r: Found)
    ensures r.Hit? ==> r.entry in sp.value2enum && r.entry.name == name
    ensures r.Missing? ==> !HasName(sp, name)
  {
    if HasName(sp, name) then var e :| e in sp.value2enum && e.name == name; Hit(e) else Missing
  }

  /** INTEGER_map_value2enum is sound and complete. */
  method ValueToEnum(sp: Specifics, v: Long) returns (r: Found)
    requires WellFormed(sp)
    ensures r == ByValue(sp, v)
  {
    var t := sp.value2enum;
    var l: nat, u: nat := 0, |t|;
    while l < u
      invariant l <= u <= |t|
      invariant forall k | 0 <= k < |t| && t[k].value == v :: l <= k < u
    {
      var mid := (l + u) / 2;
      if v < t[mid].value {
        u := mid;
      } else if v == t[mid].value {
        return Hit(t[mid]);
      } else {
        l := mid + 1;
      }
    }
    return Missing;
  }

  /** The search of INTEGER_map_enum2value goes through the second index, and finds a name when it is there. */
  method NameToEnum(sp: Specifics, key: seq<Octet>) returns (r: Found)
    requires WellFormed(sp) && forall e <- sp.value2enum :: !Overruns(key, e.name)
    ensures r == ByName(sp, key)
  {
    hide Before;
    var l: nat, u: nat := 0, |sp.enum2value|;
    while l < u
      invariant l <= u <= |sp.enum2value|
      invariant forall k | 0 <= k < |sp.enum2value| && NameAt(sp, k) == key :: l <= k < u
    {
      var mid := (l + u) / 2;
      var c := Compare(key, NameAt(sp, mid));
      if c < 0 {
        NoneFrom(sp, key, mid);
        u := mid;
      } else if c == 0 {
        NamesDiffer(sp);
        return Hit(sp.value2enum[sp.enum2value[mid]]);
      } else {
        NoneUpTo(sp, key, mid);
        l := mid + 1;
      }
    }
    forall e | e in sp.value2enum
      ensures e.name != key
    {
      var k :| 0 <= k < |sp.value2enum| && sp.value2enum[k] == e;
      assert k in sp.enum2value;
      var i :| 0 <= i < |sp.enum2value| && sp.enum2value[i] == k;
      assert NameAt(sp, i) == e.name;
    }
    return Missing;
  }

  lemma NoneFrom(sp: Specifics, key: seq<Octet>, mid: nat)
    requires WellFormed(sp) && mid < |sp.enum2value| && Before(key, NameAt(sp, mid))
    ensures forall k | mid <= k < |sp.enum2value| :: NameAt(sp, k) != key
  {
    hide Before;
    BeforeIsStrict(key, NameAt(sp, mid));
    forall k | mid < k < |sp.enum2value|
      ensures NameAt(sp, k) != key
    {
      BeforeIsTransitive(key, NameAt(sp, mid), NameAt(sp, k));
      BeforeIsStrict(key, NameAt(sp, k));
    }
  }

  lemma NoneUpTo(sp: Specifics, key: seq<Octet>, mid: nat)
    requires WellFormed(sp) && mid < |sp.enum2value| && Before(NameAt(sp, mid), key)
    ensures forall k | 0 <= k <= mid :: NameAt(sp, k) != key
  {
    hide Before;
    BeforeIsStrict(NameAt(sp, mid), key);
    forall k | 0 <= k < mid
      ensures NameAt(sp, k) != key
    {
      BeforeIsTransitive(NameAt(sp, k), NameAt(sp, mid), key);
      BeforeIsStrict(NameAt(sp, k), key);
    }
  }

  /** No two items share a name. */
  lemma NamesDiffer(sp: Specifics)
    requires WellFormed(sp)
    ensures forall d, e | d in sp.value2enum && e in sp.value2enum && d.name == e.name :: d == e
  {
    forall d, e | d in sp.value2enum && e in sp.value2enum && d != e
      ensures d.name != e.name
    {
      var a :| 0 <= a < |sp.value2enum| && sp.value2enum[a] == d;
      var b :| 0 <= b < |sp.value2enum| && sp.value2enum[b] == e;
      assert a in sp.enum2value && b in sp.enum2value;
      var i :| 0 <= i < |sp.enum2value| && sp.enum2value[i] == a;
      var j :| 0 <= j < |sp.enum2value| && sp.enum2value[j] == b;
      if i < j {
        BeforeIsStrict(NameAt(sp, i), NameAt(sp, j));
      } else {
        BeforeIsStrict(NameAt(sp, j), NameAt(sp, i));
      }
    }
  }

  // ---------------------------------------------------------------- tags

  const LESS: Octet := 0x3c
  const SLASH: Octet := 0x2f
  const GREATER: Octet := 0x3e

  /** The characters that end a tag name. */
  predicate EndsName(c: Octet) {
    9 <= c <= 13 || c == 32 || c == SLASH || c == GREATER
  }

  /** How much of s[i..] belongs to the name. */
  function NameEnd(s: seq<Octet>, i: nat): (n: nat)
    requires i <= |s|
    ensures i <= n <= |s| && (forall k | i <= k < n :: !EndsName(s[k])) && (n < |s| ==> EndsName(s[n]))
    decreases |s| - i
  {
    if i == |s| || EndsName(s[i]) then i else NameEnd(s, i + 1)
  }

  /** The item that a text names: the first octet is skipped whatever it is, and the name has to end. */
  ghost function Named(sp: Specifics, s: seq<Octet>): Found
    requires s != []
  {
    var n := NameEnd(s, 1);
    if n == |s| then Missing else ByName(sp, s[1..n])
  }

  /** If the text has a name, the name does not run past the end of an item's name. */
  predicate Readable(sp: Specifics, s: seq<Octet>)
    requires s != []
  {
    var n := NameEnd(s, 1);
    n < |s| ==> forall e <- sp.value2enum :: !Overruns(s[1..n], e.name)
  }

  /** A name without zero octets never does. */
  lemma NoZeroIsReadable(sp: Specifics, s: seq<Octet>)
    requires s != [] && forall k | 1 <= k < NameEnd(s, 1) :: s[k] != 0
    ensures Readable(sp, s)
  {
  }

  /** INTEGER_map_enum2value. */
  method TagToEnum(sp: Specifics, s: seq<Octet>) returns (r: Found)
    requires WellFormed(sp) && s != [] && Readable(sp, s)
    ensures r == Named(sp, s)
  {
    if |sp.value2enum| == 0 {
      return Missing;
    }
    var lp := 1;
    while lp < |s| && !EndsName(s[lp])
      invariant 1 <= lp <= |s| && NameEnd(s, lp) == NameEnd(s, 1)
    {
      lp := lp + 1;
    }
    if lp == |s| {
      return Missing;
    }
    r := NameToEnum(sp, s[1..lp]);
  }

  /** The empty-element tag that is printed for an item. */
  function Tag(e: Entry): seq<Octet> {
    [LESS] + e.name + [SLASH, GREATER]
  }

  /** Names that can stand in a tag; ASN.1 identifiers are letters, digits and hyphens. */
  predicate TagSafe(name: seq<Octet>) {
    forall c <- name :: !EndsName(c)
  }

  datatype Printed = Unprintable | Printed(text: seq<Octet>)

  /** NativeEnumerated_encode_xer: exactly the values of the table have a text. */
  method PrintEnumerated(sp: Specifics, v: Long) returns (r: Printed)
    requires WellFormed(sp)
    ensures r.Unprintable? <==> !HasValue(sp, v)
    ensures r.Printed? ==> HasValue(sp, v) && r.text == Tag(ByValue(sp, v).entry)
  {
    var el := ValueToEnum(sp, v);
    return if el.Missing? then Unprintable else Printed([LESS] + el.entry.name + [SLASH, GREATER]);
  }

  /** A printed tag names the item it was printed for, so the printed value comes back. */
  lemma TagNamesItsItem(sp: Specifics, v: Long)
    requires WellFormed(sp) && HasValue(sp, v) && TagSafe(ByValue(sp, v).entry.name)
    ensures Named(sp, Tag(ByValue(sp, v).entry)) == ByValue(sp, v) && ByValue(sp, v).entry.value == v
  {
    hide NamesSorted;
    var e := ByValue(sp, v).entry;
    var s := Tag(e);
    NameEndIs(s, 1, |e.name| + 1);
    assert s[1..|e.name| + 1] == e.name;
    NamesDiffer(sp);
  }

  lemma {:induction false} NameEndIs(s: seq<Octet>, i: nat, n: nat)
    requires i <= n < |s| && EndsName(s[n]) && forall k | i <= k < n :: !EndsName(s[k])
    ensures NameEnd(s, i) == n
    decreases n - i
  {
    if i < n {
      NameEndIs(s, i + 1, n);
    }
  }
}
