/** The imperative text parser of INTEGER, which computes the meaning of its text (src/msg/INTEGER.c:307-524). */
module IntegerXer {
  import opened Octets
  import opened IntegerCodec
  import opened EnumMap
  import opened Strtol
  import opened IntegerText
  import opened XerText

  /** INTEGER__xer_body_decode: it ends, writes only inside the octets it allocated, and gives a text its
      meaning. */
  method XerBodyDecode(sp: Specifics, s: seq<Octet>) returns (r: Body)
    requires WellFormed(sp) && (StartsTag(s) ==> Readable(sp, s))
    ensures r == Meaning(sp, s)
  {
    hide Meaning, Inv, Finish, StartsTag, Readable, LeadEnd, Named, WellFormed, MinimalOctets, IsSpace, IsSign,
         IsDigit, IsLetter, HexVal;
    var buf := new Octet[|s| / 3 + 1 + 1];
    var size: nat, lp: nat, decStart: nat, decEnd: nat := 0, 0, 0, 0;
    var mode, hexValue := LeadSpace, 0;
    var decValue: Long := 0;
    ghost var stored: seq<Octet> := [];
    StartsWell(sp, s, decValue);
    while lp < |s|
      invariant lp <= |s| && size < buf.Length
      invariant buf[..size] == stored
      invariant Inv(sp, s, Scan(mode, lp, decStart, decEnd, hexValue, decValue, stored))
      decreases Attempts(mode), |s| - lp
    {
      ghost var st := Scan(mode, lp, decStart, decEnd, hexValue, decValue, stored);
      RoomForPair(sp, s, st);
      var c, broken := s[lp], false;
      if IsSpace(c) {
        match mode
        case LeadSpace | DigitsTrail | HexTrail | SkipSpHex => lp := lp + 1;
        case InDigits => decEnd, mode, lp := lp, DigitsTrail, lp + 1;
        case HexColon => mode, lp := HexTrail, lp + 1;
        case _ => broken := true;
      } else if IsSign(c) {
        if mode.LeadSpace? {
          decStart, mode, lp := lp, WaitDigits, lp + 1;
        } else {
          broken := true;
        }
      } else if IsDigit(c) {
        match mode
        case InDigits => lp := lp + 1;
        case SkipSpHex | HexDigit1 => hexValue, mode, lp := (c - 0x30) * 16, HexDigit2, lp + 1;
        case HexDigit2 =>
          stored := stored + [(hexValue + (c - 0x30)) % 256];
          size := Put(buf, size, (hexValue + (c - 0x30)) % 256);
          mode, lp := HexColon, lp + 1;
        case LeadSpace => decStart, mode, lp := lp, InDigits, lp + 1;
        case WaitDigits => mode, lp := InDigits, lp + 1;
        case _ => broken := true;
      } else if c == LESS {
        broken := true;
        if mode.LeadSpace? {
          TagStarts(sp, s, st);
          var el := TagToEnum(sp, s);
          if el.Hit? {
            decValue, mode, lp, broken := el.entry.value, EndEnum, |s|, false;
          }
        }
      } else if c == COLON {
        match mode
        case HexColon => mode, lp := HexDigit1, lp + 1;
        case InDigits => mode, decStart, lp := SkipSpHex, 0, 0;
        case _ => broken := true;
      } else if IsLetter(c) {
        match mode
        case SkipSpHex | LeadSpace | HexDigit1 => hexValue, mode, lp := HexVal(c) * 16, HexDigit2, lp + 1;
        case HexDigit2 =>
          stored := stored + [(hexValue + HexVal(c)) % 256];
          size := Put(buf, size, (hexValue + HexVal(c)) % 256);
          mode, lp := HexColon, lp + 1;
        case InDigits => mode, decStart, lp := SkipSpHex, 0, 0;
        case _ => broken := true;
      } else {
        broken := true;
      }
      assert Turn(sp, s, st) == if broken then Halt
                                else Go(Scan(mode, lp, decStart, decEnd, hexValue, decValue, stored));
      if broken {
        HaltMeansBroken(sp, s, st);
        return Broken;
      }
      TurnKeeps(sp, s, st);
    }
    ghost var st := Scan(mode, lp, decStart, decEnd, hexValue, decValue, stored);
    FinishMeans(sp, s, st);
    InvAtEnd(sp, s, st);
    RoomForPair(sp, s, st);
    r := Conclude(s, mode, decStart, decEnd, decValue, buf, size);
    FinishAt(s, st);
  }

  /** The switch after the loop. */
  method Conclude(s: seq<Octet>, mode: Mode, decStart: nat, decEnd: nat, decValue: Long, buf: array<Octet>, size: nat)
      returns (r: Body)
    requires mode.InDigits? ==> decStart <= |s|
    requires mode.DigitsTrail? ==> decStart <= decEnd <= |s|
    requires size < buf.Length
    modifies buf
    ensures r == Finish(s, Scan(mode, |s|, decStart, decEnd, 0, decValue, old(buf[..size])))
  {
    hide StrtolLim, MinimalOctets;
    var value := decValue;
    match mode {
      case EndEnum =>
      case InDigits | DigitsTrail =>
        var end := if mode.InDigits? then |s| else decEnd;
        assert s[decStart..|s|] == s[decStart..];
        var n := ReadLong(s[decStart..end]);
        match n {
          case Ok(_, v) => value := v;
          case Range(_) => return DecoderLimit;
          case _ => return Broken;
        }
      case HexColon | HexTrail =>
        buf[size] := 0;
        return Consumed(buf[..size]);
      case LeadSpace => return NotBody;
      case _ => return Broken;
    }
    var st := new Integer();
    st.FromLong(value);
    return Consumed(st.Contents());
  }
}
