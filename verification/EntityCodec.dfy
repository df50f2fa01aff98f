/** Character strings as XML text: control characters become tags and markup characters become entity
    references (src/msg/OCTET_STRING.c:642-778), and both are undone when the text is read
    (src/msg/OCTET_STRING.c:695-733, 919-1097). */
module EntityCodec {
  import opened Octets
  import opened EnumMap

  const AMP: Octet := 0x26
  const HASH: Octet := 0x23
  const SEMICOLON: Octet := 0x3b

  // ---------------------------------------------------------------- the escape table

  /** The control characters that the table spells as tags. */
  predicate IsTagged(c: Octet) {
    c < 32 && c != 9 && c != 10 && c != 13
  }

  /** Their names in X.680 section 11.15.5. */
  function NameOf(c: Octet): (n: seq<Octet>)
    requires IsTagged(c)
    ensures 2 <= |n| <= 3 && (forall x <- n :: 0x31 <= x <= 0x7a && !EndsName(x) && x != LESS)
  {
    match c
    case 0 => [0x6e, 0x75, 0x6c] // nul
    case 1 => [0x73, 0x6f, 0x68] // soh
    case 2 => [0x73, 0x74, 0x78] // stx
    case 3 => [0x65, 0x74, 0x78] // etx
    case 4 => [0x65, 0x6f, 0x74] // eot
    case 5 => [0x65, 0x6e, 0x71] // enq
    case 6 => [0x61, 0x63, 0x6b] // ack
    case 7 => [0x62, 0x65, 0x6c] // bel
    case 8 => [0x62, 0x73] // bs
    case 11 => [0x76, 0x74] // vt
    case 12 => [0x66, 0x66] // ff
    case 14 => [0x73, 0x6f] // so
    case 15 => [0x73, 0x69] // si
    case 16 => [0x64, 0x6c, 0x65] // dle
    case 17 => [0x64, 0x63, 0x31] // dc1
    case 18 => [0x64, 0x63, 0x32] // dc2
    case 19 => [0x64, 0x63, 0x33] // dc3
    case 20 => [0x64, 0x63, 0x34] // dc4
    case 21 => [0x6e, 0x61, 0x6b] // nak
    case 22 => [0x73, 0x79, 0x6e] // syn
    case 23 => [0x65, 0x74, 0x62] // etb
    case 24 => [0x63, 0x61, 0x6e] // can
    case 25 => [0x65, 0x6d] // em
    case 26 => [0x73, 0x75, 0x62] // sub
    case 27 => [0x65, 0x73, 0x63] // esc
    case 28 => [0x69, 0x73, 0x34] // is4
    case 29 => [0x69, 0x73, 0x33] // is3
    case 30 => [0x69, 0x73, 0x32] // is2
    case 31 => [0x69, 0x73, 0x31] // is1
  }

  function Key(n: seq<Octet>): int
    requires |n| >= 2
  {
    n[0] as int * 65536 + n[1] as int * 256 + if |n| == 3 then n[2] as int else 0
  }

  function FromKey(k: int): int {
    match k
    case 0x6e756c => 0
    case 0x736f68 => 1
    case 0x737478 => 2
    case 0x657478 => 3
    case 0x656f74 => 4
    case 0x656e71 => 5
    case 0x61636b => 6
    case 0x62656c => 7
    case 0x627300 => 8
    case 0x767400 => 11
    case 0x666600 => 12
    case 0x736f00 => 14
    case 0x736900 => 15
    case 0x646c65 => 16
    case 0x646331 => 17
    case 0x646332 => 18
    case 0x646333 => 19
    case 0x646334 => 20
    case 0x6e616b => 21
    case 0x73796e => 22
    case 0x657462 => 23
    case 0x63616e => 24
    case 0x656d00 => 25
    case 0x737562 => 26
    case 0x657363 => 27
    case 0x697334 => 28
    case 0x697333 => 29
    case 0x697332 => 30
    case 0x697331 => 31
    case _ => -1
  }

  lemma NamesDiffer(c: Octet)
    requires IsTagged(c)
    ensures FromKey(Key(NameOf(c))) == c
  {
  }

  /** What a character is replaced with; characters that stand for themselves have no entry. */
  function EscapeOf(c: Octet): seq<Octet> {
    if IsTagged(c) then [LESS] + NameOf(c) + [SLASH, GREATER]
    else if c < 32 then [c]
    else if c == AMP then [0x26, 0x61, 0x6d, 0x70, 0x3b]
    else if c == LESS then [0x26, 0x6c, 0x74, 0x3b]
    else if c == GREATER then [0x26, 0x67, 0x74, 0x3b]
    else []
  }

  function OneEscaped(c: Octet): (t: seq<Octet>)
    ensures t != []
  {
    if EscapeOf(c) == [] then [c] else EscapeOf(c)
  }

  function Escaped(s: seq<Octet>): seq<Octet> {
    if s == [] then [] else OneEscaped(s[0]) + Escaped(s[1..])
  }

  lemma {:induction false} EscapedJoin(a: seq<Octet>, b: seq<Octet>)
    ensures Escaped(a + b) == Escaped(a) + Escaped(b)
    decreases |a|
  {
    hide OneEscaped;
    if a == [] {
      assert a + b == b;
    } else {
      assert (a + b)[1..] == a[1..] + b;
      EscapedJoin(a[1..], b);
    }
  }

  /** OCTET_STRING_encode_xer_utf8: runs of plain characters are handed over whole. */
  method EncodeUtf8(s: seq<Octet>) returns (out: seq<Octet>)
    ensures out == Escaped(s)
  {
    hide EscapeOf, OneEscaped;
    out := [];
    var buf, ss := 0, 0;
    assert s[..0] == [];
    while buf < |s|
      invariant ss <= buf <= |s|
      invariant out + s[ss..buf] == Escaped(s[..buf])
    {
      var c := s[buf];
      assert s[..buf + 1] == s[..buf] + [c];
      EscapedJoin(s[..buf], [c]);
      EscapedOne(c);
      if |EscapeOf(c)| != 0 {
        out := out + s[ss..buf] + EscapeOf(c);
        ss := buf + 1;
      } else {
        assert s[ss..buf + 1] == s[ss..buf] + [c];
      }
      buf := buf + 1;
    }
    assert s[..buf] == s;
    out := out + s[ss..buf];
  }

  lemma EscapedOne(c: Octet)
    ensures Escaped([c]) == OneEscaped(c) == if EscapeOf(c) == [] then [c] else EscapeOf(c)
  {
    assert [c][1..] == [];
  }

  /** OS__check_escaped_control_char: a text of the bottom part of the table gives its character, any other -1. */
  method CheckEscapedControlChar(t: seq<Octet>) returns (r: int)
    ensures -1 <= r < 32
    ensures r >= 0 ==> EscapeOf(r) == t
    ensures forall c: Octet | c < 32 && EscapeOf(c) == t :: r == c
  {
    hide EscapeOf;
    var i := 0;
    while i < 32
      invariant 0 <= i <= 32
      invariant forall c: Octet | c < i :: EscapeOf(c) != t
    {
      if EscapeOf(i) == t {
        forall c: Octet | c < 32 && EscapeOf(c) == t
          ensures c == i
        {
          EscapesDiffer(c, i);
        }
        return i;
      }
      i := i + 1;
    }
    return -1;
  }

  /** No two control characters are escaped alike. */
  lemma EscapesDiffer(c: Octet, d: Octet)
    requires c < 32 && d < 32 && EscapeOf(c) == EscapeOf(d)
    ensures c == d
  {
    hide NameOf, FromKey;
    var t := EscapeOf(c);
    if IsTagged(c) && IsTagged(d) {
      assert NameOf(c) == t[1..|t| - 2] == NameOf(d);
      NamesDiffer(c);
      NamesDiffer(d);
    }
  }
}
