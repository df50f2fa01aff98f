/** What the text codecs share: the string they fill, blanks, and the splitting of a text into chunks. */
module XerText {
  import opened Octets

  /** -1, or the number of characters converted with the octets appended. */
  datatype Converted = Rejected | Converted(octets: seq<Octet>, used: nat)

  /** The characters that the hexadecimal and binary converters ignore. */
  predicate IsBlank(c: Octet) {
    c == 0x09 || c == 0x0a || c == 0x0c || c == 0x0d || c == 0x20
  }

  /** Tab, LF, form feed, CR and space. */
  lemma BlankCharacters(c: Octet)
    ensures IsBlank(c) <==> c as char in "\t\n\U{0C}\r "
  {
  }

  /** ASN__TEXT_INDENT(1, level) (src/msg/asn_internal.h:82-91). */
  function Indent(level: int): (t: seq<Octet>)
    ensures forall c <- t :: IsBlank(c)
  {
    var n := if level < 0 then 0 else level;
    [0x0a] + seq(4 * n, _ => 0x20)
  }

  lemma RightFirst(a: seq<Octet>, b: seq<Octet>, c: seq<Octet>, d: seq<Octet>)
    ensures a + (b + c + d) == a + b + c + d
  {
  }

  lemma Regrouped(a: seq<Octet>, b: seq<Octet>, c: seq<Octet>)
    ensures a + (b + c) == a + b + [] + c && a + ([] + c) == [] + a + c
  {
  }

  /** `*buf++ = v`, as one more octet of the text read so far. */
  method Put(buf: array<Octet>, at: nat, v: Octet) returns (next: nat)
    requires at < buf.Length
    modifies buf
    ensures next == at + 1 && buf[..next] == old(buf[..at]) + [v]
  {
    buf[at] := v;
    next := at + 1;
  }

  /** memcpy of a text to the end of what has been written so far. */
  method PutText(buf: array<Octet>, at: nat, text: seq<Octet>) returns (next: nat)
    requires at + |text| <= buf.Length
    modifies buf
    ensures next == at + |text| && buf[..next] == old(buf[..at]) + text
  {
    forall k | 0 <= k < |text| {
      buf[at + k] := text[k];
    }
    next := at + |text|;
  }

  /** `*buf = 0`. */
  method Terminate(buf: array<Octet>, at: nat)
    requires at < buf.Length
    modifies buf
    ensures buf[..at] == old(buf[..at]) && buf[at] == 0
  {
    buf[at] := 0;
  }

  /** OCTET_STRING_t and BIT_STRING_t while a text is read into them; there is always room for a final zero. */
  class XerString {
    var buf: array<Octet>
    var size: nat
    var bitsUnused: Octet

    ghost predicate Valid()
      reads this, buf
    {
      size < buf.Length && buf[size] == 0
    }

    function Contents(): (s: seq<Octet>)
      reads this, buf
      requires size <= buf.Length
      ensures |s| == size
    {
      buf[..size]
    }

    /** What OCTET_STRING__decode_xer makes of a fresh structure (src/msg/OCTET_STRING.c:1124-1143). */
    constructor ()
      ensures Valid() && fresh(buf) && size == 0 && bitsUnused == 0
    {
      buf := new Octet[1](_ => 0);
      size, bitsUnused := 0, 0;
    }

    /** REALLOC to `ns + 1` octets. */
    method Reserve(ns: nat)
      requires size <= ns && size < buf.Length
      modifies this`buf
      ensures fresh(buf) && buf.Length == ns + 1 && buf[..size + 1] == old(buf[..size + 1])
    {
      var kept := buf[..size + 1];
      var p := new Octet[ns + 1];
      forall k | 0 <= k < |kept| {
        p[k] := kept[k];
      }
      buf := p;
    }
  }
}
