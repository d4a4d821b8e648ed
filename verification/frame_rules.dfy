/** The frame classifier restated over the bytes themselves: each hex-text
    test of `Classifier` becomes a test on byte values, positions and the
    frame length. `NameMatchesFrameRules` proves the two agree on every
    frame, so the properties below can be read in bytes. */
module FrameRules {
  import opened Results
  import opened Strings
  import opened HexCodec
  import opened Events
  import opened Classifier

  function Last(d: seq<byte>): byte
    requires |d| > 0
  {
    d[|d| - 1]
  }

  function MagSafeNumber(b: byte): string {
    if b == 0x7a then "1"
    else if b == 0x7b then "2"
    else if b == 0x7c then "3"
    else if b == 0x7d then "4"
    else "U"
  }

  /** ECP1: the whole frame against the fixed variants, else a transit frame
      `6a 01 03 ..` named by the bytes from offset 2 on. */
  function Ecp1Rule(d: seq<byte>): string {
    if Hex(d) in Ecp1Variants then Ecp1Variants[Hex(d)]
    else if |d| >= 3 && d[0] == 0x6a && d[1] == 0x01 && d[2] == 0x03 then
      "TRANSIT_" + Lookup(EcpTransitTciCodes, Hex(d[2..]))
    else "UNKNOWN"
  }

  /** ECP2: byte 3 selects the sub-protocol; TRANSIT reads bytes 5..7 and
      ACCESS reads byte 4, failing when the frame is too short for them. */
  function Ecp2Rule(d: seq<byte>): Result<string>
    requires |d| >= 4
  {
    if d[3] == 0x01 then
      if |d| < 8 then Err(IndexOutOfBounds(10, 16, 2 * |d|))
      else Ok("TRANSIT_" + Lookup(EcpTransitTciCodes, Hex(d[5..8])))
    else if d[3] == 0x02 then
      if |d| < 5 then Err(IndexOutOfBounds(8, 10, 2 * |d|))
      else Ok("ACCESS_" + Lookup(EcpAccessSubtypes, ByteHex(d[4])))
    else if d[3] == 0x03 then Ok("IDENTITY")
    else if d[3] == 0x05 then Ok("HANDOVER")
    else Ok("UNKNOWN")
  }

  /** The fallback decoder over bytes. */
  function OtherRule(d: seq<byte>): Result<string> {
    if d == [0x01, 0x0b, 0x3f, 0x80] then Ok("APGEN")
    else if d == [0x06, 0x00] then Ok("INITIATE")
    else if d == [0x10] then Ok("REQT")
    else if d == [0x50, 0x00] then Ok("HLTA")
    else if |d| == 5 && d[0] == 0x50 then Ok("HLTB")
    else if 1 <= |d| <= 2 && Last(d) == 0x0a then Ok("ACTALL")
    else if 1 <= |d| <= 2 && Last(d) == 0x0c then Ok("IDENTIFY")
    else if |d| >= 4 && d[0] == 0x6a then
      if d[1] == 0x01 then Ok("ECP1_" + Ecp1Rule(d))
      else if d[1] == 0x02 then
        var ecp2 :- Ecp2Rule(d);
        Ok("ECP2_" + ecp2)
      else Ok("ECP_UNKNOWN")
    else if |d| == 1 && d[0] / 16 == 7 then Ok("MAGWUP" + MagSafeNumber(d[0]))
    else if d == [0x40] || d == [0x20] then Ok("WUPC1")
    else if d == [0x43] || d == [0x23] then Ok("WUPC2")
    else Ok("PLF")
  }

  /** The name of a frame of type `t` with bytes `d`. */
  function FrameName(t: FrameType, d: seq<byte>): Result<string> {
    match t
    case A =>
      if |d| >= 1 && d[0] == 0x52 then Ok("WUPA")
      else if |d| >= 1 && d[0] == 0x26 then Ok("REQA")
      else OtherRule(d)
    case B =>
      if |d| >= 1 && d[0] == 0x05 then Ok(if Bit3(Last(d)) then "WUPB" else "REQB")
      else OtherRule(d)
    case F =>
      if |d| >= 3 then Ok(Lookup(FeliCaSystemCodes, Hex(d[1..3])))
      else OtherRule(d)
    case On | Off => Ok("")
    case Unknown => OtherRule(d)
  }

  lemma Ecp1RuleMatches(d: seq<byte>)
    ensures ParseEcp1(Hex(d)) == Ecp1Rule(d)
  {
    Ecp1TransitPrefix(d);
    if |d| >= 3 && d[0] == 0x6a && d[1] == 0x01 && d[2] == 0x03 {
      Ecp1TransitDigits(d);
    }
  }

  /** The ECP1 transit test, read in bytes. */
  lemma Ecp1TransitPrefix(d: seq<byte>)
    ensures StartsWith(Hex(d), "6a0103") <==> |d| >= 3 && d[0] == 0x6a && d[1] == 0x01 && d[2] == 0x03
  {
    if |d| >= 3 {
      HexAt(d, 0);
      HexAt(d, 1);
      HexAt(d, 2);
      Ecp1TransitPrefixText(Hex(d), d);
    }
  }

  lemma Ecp1TransitPrefixText(s: string, d: seq<byte>)
    requires |d| >= 3 && |s| == 2 * |d|
    requires s[0..2] == ByteHex(d[0]) && s[2..4] == ByteHex(d[1]) && s[4..6] == ByteHex(d[2])
    ensures StartsWith(s, "6a0103") <==> d[0] == 0x6a && d[1] == 0x01 && d[2] == 0x03
  {
    assert ByteHex(0x6a) == "6a" && ByteHex(0x01) == "01" && ByteHex(0x03) == "03";
    ByteHexInjective(d[0], 0x6a);
    ByteHexInjective(d[1], 0x01);
    ByteHexInjective(d[2], 0x03);
    var p := s[..6];
    assert p[0..2] == s[0..2] && p[2..4] == s[2..4] && p[4..6] == s[4..6];
    assert "6a0103"[0..2] == "6a" && "6a0103"[2..4] == "01" && "6a0103"[4..6] == "03";
    PairsEqual(p, "6a0103");
  }

  /** Six characters agree exactly when their three pairs do. */
  lemma PairsEqual(x: string, y: string)
    requires |x| == 6 && |y| == 6
    ensures x == y <==> x[0..2] == y[0..2] && x[2..4] == y[2..4] && x[4..6] == y[4..6]
  {
    if x[0..2] == y[0..2] && x[2..4] == y[2..4] && x[4..6] == y[4..6] {
      assert x == x[0..2] + x[2..4] + x[4..6];
      assert y == y[0..2] + y[2..4] + y[4..6];
    }
  }

  /** The digits of a transit frame from offset 4 on are the text of the
      bytes from offset 2 on. */
  lemma Ecp1TransitDigits(d: seq<byte>)
    requires |d| >= 2
    ensures Hex(d)[4..] == Hex(d[2..]) && Lower(Hex(d[2..])) == Hex(d[2..])
  {
    var s := Hex(d);
    var tail := d[2..];
    HexSlice(d, 2, |d|);
    assert d[2..|d|] == tail;
    assert s[4..] == s[4..2 * |d|];
    HexIsLower(tail);
  }

  /** Comparing the two digits at byte position `i` with those of `b` is
      comparing the byte with `b`. */
  lemma ByteAtText(d: seq<byte>, i: nat, b: byte)
    requires i < |d|
    ensures Hex(d)[2 * i..2 * i + 2] == ByteHex(b) <==> d[i] == b
  {
    HexAt(d, i);
    ByteHexInjective(d[i], b);
  }

  /** The TRANSIT digits of an ECP2 frame are the text of bytes 5..7. */
  lemma Ecp2TransitText(d: seq<byte>)
    requires |d| >= 8
    ensures Substring(Hex(d), 10, 16) == Ok(Hex(d[5..8]))
    ensures Lower(Hex(d[5..8])) == Hex(d[5..8])
  {
    HexSlice(d, 5, 8);
    HexIsLower(d[5..8]);
  }

  /** The ACCESS digits of an ECP2 frame are the text of byte 4. */
  lemma Ecp2AccessText(d: seq<byte>)
    requires |d| >= 5
    ensures Substring(Hex(d), 8, 10) == Ok(ByteHex(d[4]))
    ensures Lower(ByteHex(d[4])) == ByteHex(d[4])
  {
    HexAt(d, 4);
    HexIsLower([d[4]]);
    assert Hex([d[4]]) == ByteHex(d[4]);
  }

  lemma Ecp2RuleMatches(d: seq<byte>)
    requires |d| >= 4
    ensures ParseEcp2(Hex(d)) == Ecp2Rule(d)
  {
    HexAt(d, 3);
    if |d| >= 8 {
      Ecp2TransitText(d);
    }
    if |d| >= 5 {
      Ecp2AccessText(d);
    }
    Ecp2TextMatches(Hex(d), d);
  }

  /** `ParseEcp2` on any text that carries the ECP2 fields of `d` where
      the hex text of `d` carries them. */
  lemma Ecp2TextMatches(s: string, d: seq<byte>)
    requires |d| >= 4 && |s| == 2 * |d|
    requires s[6..8] == ByteHex(d[3])
    requires |d| >= 8 ==> Substring(s, 10, 16) == Ok(Hex(d[5..8])) && Lower(Hex(d[5..8])) == Hex(d[5..8])
    requires |d| >= 5 ==> Substring(s, 8, 10) == Ok(ByteHex(d[4])) && Lower(ByteHex(d[4])) == ByteHex(d[4])
    ensures ParseEcp2(s) == Ecp2Rule(d)
  {
    var selector := s[6..8];
    ByteHexInjective(d[3], 0x01);
    ByteHexInjective(d[3], 0x02);
    ByteHexInjective(d[3], 0x03);
    ByteHexInjective(d[3], 0x05);
    if d[3] == 0x01 {
      assert selector == "01";
    } else if d[3] == 0x02 {
      assert selector != "01" && selector == "02";
    } else if d[3] == 0x03 {
      assert selector != "01" && selector != "02" && selector == "03";
    } else if d[3] == 0x05 {
      assert selector != "01" && selector != "02" && selector != "03" && selector == "05";
    } else {
      assert selector != "01" && selector != "02" && selector != "03" && selector != "05";
    }
  }

  lemma OneByteTexts()
    ensures Hex([0x10]) == "10"
    ensures Hex([0x40]) == "40" && Hex([0x20]) == "20"
    ensures Hex([0x43]) == "43" && Hex([0x23]) == "23"
  {
  }

  lemma LongerTexts()
    ensures Hex([0x01, 0x0b, 0x3f, 0x80]) == "010b3f80"
    ensures Hex([0x06, 0x00]) == "0600"
    ensures Hex([0x50, 0x00]) == "5000"
  {
  }

  /** The whole-frame tests of the fallback decoder, read in bytes. */
  lemma OtherLiteralTests(d: seq<byte>)
    ensures Hex(d) == "010b3f80" <==> d == [0x01, 0x0b, 0x3f, 0x80]
    ensures Hex(d) == "0600" <==> d == [0x06, 0x00]
    ensures Hex(d) == "5000" <==> d == [0x50, 0x00]
  {
    LongerTexts();
    HexEqualsText(d, [0x01, 0x0b, 0x3f, 0x80], "010b3f80");
    HexEqualsText(d, [0x06, 0x00], "0600");
    HexEqualsText(d, [0x50, 0x00], "5000");
  }

  /** The one-byte whole-frame tests of the fallback decoder, read in bytes. */
  lemma OtherOneByteTests(d: seq<byte>)
    ensures Hex(d) == "10" <==> d == [0x10]
    ensures Hex(d) == "40" || Hex(d) == "20" <==> d == [0x40] || d == [0x20]
    ensures Hex(d) == "43" || Hex(d) == "23" <==> d == [0x43] || d == [0x23]
  {
    OneByteTexts();
    HexEqualsText(d, [0x10], "10");
    HexEqualsText(d, [0x40], "40");
    HexEqualsText(d, [0x20], "20");
    HexEqualsText(d, [0x43], "43");
    HexEqualsText(d, [0x23], "23");
  }

  /** The prefix, suffix and length tests of the fallback decoder, read in bytes. */
  lemma OtherShapeTests(d: seq<byte>)
    ensures StartsWith(Hex(d), "50") && |Hex(d)| == 10 <==> |d| == 5 && d[0] == 0x50
    ensures 2 <= |Hex(d)| <= 4 && EndsWith(Hex(d), "0a") <==> 1 <= |d| <= 2 && Last(d) == 0x0a
    ensures 2 <= |Hex(d)| <= 4 && EndsWith(Hex(d), "0c") <==> 1 <= |d| <= 2 && Last(d) == 0x0c
    ensures StartsWith(Hex(d), "6a") && |Hex(d)| >= 8 <==> |d| >= 4 && d[0] == 0x6a
    ensures StartsWith(Hex(d), "7") && |Hex(d)| == 2 <==> |d| == 1 && d[0] / 16 == 7
  {
    assert ByteHex(0x50) == "50" && ByteHex(0x0a) == "0a" && ByteHex(0x0c) == "0c" && ByteHex(0x6a) == "6a";
    HexStartsWithByte(d, 0x50);
    HexEndsWithByte(d, 0x0a);
    HexEndsWithByte(d, 0x0c);
    HexStartsWithByte(d, 0x6a);
    if |d| >= 1 {
      assert HexChar(7) == '7';
      HexFirstDigit(d, 7);
    }
  }

  /** The protocol test of the ECP branch, read in bytes. */
  lemma EcpProtocolTests(d: seq<byte>)
    requires |d| >= 2
    ensures Hex(d)[2..4] == "01" <==> d[1] == 0x01
    ensures Hex(d)[2..4] == "02" <==> d[1] == 0x02
  {
    assert ByteHex(0x01) == "01" && ByteHex(0x02) == "02";
    ByteAtText(d, 1, 0x01);
    ByteAtText(d, 1, 0x02);
  }

  lemma MagSafeMatches(d: seq<byte>)
    requires |d| == 1
    ensures MagSafeSuffix(Hex(d)) == MagSafeNumber(d[0])
  {
    var b := d[0];
    assert d == [b];
    assert Hex(d) == ByteHex(b);
    MagSafeTextMatches(b);
  }

  lemma MagSafeTextMatches(b: byte)
    ensures MagSafeSuffix(ByteHex(b)) == MagSafeNumber(b)
  {
    assert ByteHex(0x7a) == "7a" && ByteHex(0x7b) == "7b" && ByteHex(0x7c) == "7c" && ByteHex(0x7d) == "7d";
    ByteHexInjective(b, 0x7a);
    ByteHexInjective(b, 0x7b);
    ByteHexInjective(b, 0x7c);
    ByteHexInjective(b, 0x7d);
  }

  lemma OtherRuleMatches(d: seq<byte>)
    ensures ParseOtherFrameTypes(Hex(d)) == OtherRule(d)
  {
    var t := Hex(d);
    OtherLiteralTests(d);
    OtherOneByteTests(d);
    OtherShapeTests(d);
    if |d| >= 4 && d[0] == 0x6a {
      EcpProtocolTests(d);
      Ecp1RuleMatches(d);
      Ecp2RuleMatches(d);
    }
    if |d| == 1 {
      MagSafeMatches(d);
    }
    assert LiteralsMirror(t, d);
    assert ShapesMirror(t, d);
    assert EcpMirrors(t, d);
    assert MagSafeMirrors(t, d);
    OtherTextMatches(t, d);
  }

  /** The whole-text tests of the fallback decoder on `t` are the
      whole-frame tests on `d`. */
  predicate LiteralsMirror(t: string, d: seq<byte>) {
    (t == "010b3f80" <==> d == [0x01, 0x0b, 0x3f, 0x80])
    && (t == "0600" <==> d == [0x06, 0x00])
    && (t == "10" <==> d == [0x10])
    && (t == "5000" <==> d == [0x50, 0x00])
    && (t == "40" || t == "20" <==> d == [0x40] || d == [0x20])
    && (t == "43" || t == "23" <==> d == [0x43] || d == [0x23])
  }

  /** The prefix, suffix and length tests on `t` are the byte tests on `d`. */
  predicate ShapesMirror(t: string, d: seq<byte>) {
    (StartsWith(t, "50") && |t| == 10 <==> |d| == 5 && d[0] == 0x50)
    && (2 <= |t| <= 4 && EndsWith(t, "0a") <==> 1 <= |d| <= 2 && Last(d) == 0x0a)
    && (2 <= |t| <= 4 && EndsWith(t, "0c") <==> 1 <= |d| <= 2 && Last(d) == 0x0c)
    && (StartsWith(t, "6a") && |t| >= 8 <==> |d| >= 4 && d[0] == 0x6a)
    && (StartsWith(t, "7") && |t| == 2 <==> |d| == 1 && d[0] / 16 == 7)
  }

  /** On an ECP frame the protocol selector and both decoders agree. */
  predicate EcpMirrors(t: string, d: seq<byte>) {
    |d| >= 4 && d[0] == 0x6a ==>
      |t| >= 4
      && (t[2..4] == "01" <==> d[1] == 0x01)
      && (t[2..4] == "02" <==> d[1] == 0x02)
      && ParseEcp1(t) == Ecp1Rule(d)
      && ParseEcp2(t) == Ecp2Rule(d)
  }

  predicate MagSafeMirrors(t: string, d: seq<byte>) {
    |d| == 1 ==> MagSafeSuffix(t) == MagSafeNumber(d[0])
  }

  /** `parseOtherFrameTypes` on any text whose tests mirror those on `d`. */
  lemma OtherTextMatches(t: string, d: seq<byte>)
    requires LiteralsMirror(t, d) && ShapesMirror(t, d) && EcpMirrors(t, d) && MagSafeMirrors(t, d)
    ensures ParseOtherFrameTypes(t) == OtherRule(d)
  {
  }

  lemma TypeARuleMatches(d: seq<byte>)
    ensures ParseTypeAFrame(Hex(d)) == FrameName(A, d)
  {
    assert ByteHex(0x52) == "52" && ByteHex(0x26) == "26";
    HexStartsWithByte(d, 0x52);
    HexStartsWithByte(d, 0x26);
    OtherRuleMatches(d);
  }

  lemma TypeBRuleMatches(d: seq<byte>)
    ensures ParseTypeBFrame(Hex(d)) == FrameName(B, d)
  {
    assert ByteHex(0x05) == "05";
    HexStartsWithByte(d, 0x05);
    OtherRuleMatches(d);
    if |d| >= 1 {
      HexLast(d);
      HexToByteOfByteHex(Last(d));
      TypeBTextMatches(Hex(d), d);
    }
  }

  lemma TypeBTextMatches(s: string, d: seq<byte>)
    requires |d| >= 1 && |s| == 2 * |d|
    requires StartsWith(s, "05") <==> d[0] == 0x05
    requires HexToByte(s[|s| - 2..]) == Ok(Last(d))
    requires ParseOtherFrameTypes(s) == OtherRule(d)
    ensures ParseTypeBFrame(s) == FrameName(B, d)
  {
  }

  lemma TypeFRuleMatches(d: seq<byte>)
    ensures ParseTypeFFrame(Hex(d)) == FrameName(F, d)
  {
    if |d| >= 3 {
      HexSlice(d, 1, 3);
      HexIsLower(d[1..3]);
    } else {
      OtherRuleMatches(d);
    }
  }

  /** The string-level classifier and the byte-level rules name every frame
      alike, failures included. */
  lemma NameMatchesFrameRules(e: PollingLoopEvent)
    ensures Name(e) == FrameName(e.frameType, e.data)
  {
    HexIsLower(e.data);
    match e.frameType
    case A => TypeARuleMatches(e.data);
    case B => TypeBRuleMatches(e.data);
    case F => TypeFRuleMatches(e.data);
    case On =>
    case Off =>
    case Unknown => OtherRuleMatches(e.data);
  }

  /** The frames `Name` hands to the fallback decoder. */
  predicate ReachesFallback(t: FrameType, d: seq<byte>) {
    || t == Unknown
    || (t == A && !(|d| >= 1 && (d[0] == 0x52 || d[0] == 0x26)))
    || (t == B && !(|d| >= 1 && d[0] == 0x05))
    || (t == F && |d| < 3)
  }

  /** How `Name` dispatches on the frame type. */
  lemma NameDispatch(e: PollingLoopEvent)
    ensures e.frameType == On || e.frameType == Off ==> Name(e) == Ok("")
    ensures e.frameType == A && |e.data| >= 1 && e.data[0] == 0x52 ==> Name(e) == Ok("WUPA")
    ensures e.frameType == A && |e.data| >= 1 && e.data[0] == 0x26 ==> Name(e) == Ok("REQA")
    ensures e.frameType == B && |e.data| >= 1 && e.data[0] == 0x05 ==>
              (Name(e) == Ok("WUPB") <==> Bit3(Last(e.data))) && (Name(e) == Ok("REQB") <==> !Bit3(Last(e.data)))
    ensures e.frameType == F && |e.data| >= 3 ==> Name(e) == Ok(Lookup(FeliCaSystemCodes, Hex(e.data[1..3])))
    ensures ReachesFallback(e.frameType, e.data) ==> Name(e) == ParseOtherFrameTypes(Hex(e.data))
  {
    NameMatchesFrameRules(e);
    OtherRuleMatches(e.data);
  }

  /** The ST SRx INITIATE and ISO/IEC 14443-3 HLTA frames. */
  lemma FallbackFixedFrames()
    ensures ParseOtherFrameTypes("0600") == Ok("INITIATE")
    ensures ParseOtherFrameTypes("5000") == Ok("HLTA")
  {
  }

  /** The ECP branch is reached by every ten-digit text starting "6a". */
  lemma EcpFallbackReached(s: string)
    requires |s| == 10 && s[0] == '6' && s[1] == 'a'
    ensures ParseOtherFrameTypes(s) == (
      var protocol := s[2..4];
      if protocol == "01" then Ok("ECP1_" + ParseEcp1(s))
      else if protocol == "02" then
        var ecp2 :- ParseEcp2(s);
        Ok("ECP2_" + ecp2)
      else Ok("ECP_UNKNOWN"))
  {
    assert s[..2] == "6a";
    assert s != "010b3f80" && s != "0600" && s != "10" && s != "5000";
    assert !StartsWith(s, "50");
  }

  /** An ECP1 frame found in the variant table. */
  lemma FallbackEcp1Payment()
    ensures ParseOtherFrameTypes("6a01000000") == Ok("ECP1_VAS_OR_PAYMENT")
  {
    var p := "6a01000000";
    EcpFallbackReached(p);
    assert p[2..4] == "01";
    assert ParseEcp1(p) == "VAS_OR_PAYMENT";
    assert "ECP1_" + "VAS_OR_PAYMENT" == "ECP1_VAS_OR_PAYMENT";
  }

  /** An ECP1 transit frame: the digits from offset 4 on, "030000", name
      the transit system. */
  lemma FallbackEcp1Transit()
    ensures ParseOtherFrameTypes("6a01030000") == Ok("ECP1_TRANSIT_VENTRA")
  {
    var t := "6a01030000";
    EcpFallbackReached(t);
    assert t[2..4] == "01";
    assert t !in Ecp1Variants;
    assert StartsWith(t, "6a0103");
    assert t[4..] == "030000";
    LowerOfLower("030000");
    assert ParseEcp1(t) == "TRANSIT_VENTRA";
    assert "ECP1_" + "TRANSIT_VENTRA" == "ECP1_TRANSIT_VENTRA";
  }

  /** Only a 5-byte transit frame can carry a listed TCI: every other
      ECP1 frame `6a 01 03 ..` of 4 or more bytes, such as
      `6a 01 03 03 00 00`, names ECP1_TRANSIT_UNKNOWN. */
  lemma Ecp1TransitNeedsFiveBytes(d: seq<byte>)
    requires |d| >= 4 && |d| != 5 && d[0] == 0x6a && d[1] == 0x01 && d[2] == 0x03
    ensures ParseOtherFrameTypes(Hex(d)) == Ok("ECP1_TRANSIT_UNKNOWN")
  {
    OtherRuleMatches(d);
    TransitBytesUnlisted(d);
    UnlistedTransit(d);
    OtherRuleEcp1(d);
    UnknownTransitName();
  }

  lemma UnknownTransitName()
    ensures "ECP1_" + "TRANSIT_UNKNOWN" == "ECP1_TRANSIT_UNKNOWN"
  {
  }

  lemma TransitBytesUnlisted(d: seq<byte>)
    requires |d| >= 4 && |d| != 5
    ensures Hex(d) !in Ecp1Variants && Hex(d[2..]) !in EcpTransitTciCodes
  {
    var whole, tail := Hex(d), Hex(d[2..]);
    assert |whole| != 10 && |tail| != 6;
    TableKeyLengths(whole);
    TableKeyLengths(tail);
  }

  /** Every ECP1 variant key is five bytes of hex and every TCI key three. */
  lemma TableKeyLengths(k: string)
    ensures k in Ecp1Variants ==> |k| == 10
    ensures k in EcpTransitTciCodes ==> |k| == 6
  {
  }

  lemma OtherRuleEcp1(d: seq<byte>)
    requires |d| >= 4 && d[0] == 0x6a && d[1] == 0x01
    ensures OtherRule(d) == Ok("ECP1_" + Ecp1Rule(d))
  {
  }

  lemma UnlistedTransit(d: seq<byte>)
    requires |d| >= 3 && d[0] == 0x6a && d[1] == 0x01 && d[2] == 0x03
    requires Hex(d) !in Ecp1Variants && Hex(d[2..]) !in EcpTransitTciCodes
    ensures Ecp1Rule(d) == "TRANSIT_UNKNOWN"
  {
    assert Lookup(EcpTransitTciCodes, Hex(d[2..])) == "UNKNOWN";
    assert "TRANSIT_" + "UNKNOWN" == "TRANSIT_UNKNOWN";
  }

  /** Every five-byte frame starting 0x50 is an ISO/IEC 14443-3 HLTB. */
  lemma FallbackHltb(d: seq<byte>)
    requires |d| == 5 && d[0] == 0x50
    ensures ParseOtherFrameTypes(Hex(d)) == Ok("HLTB")
  {
    OtherRuleMatches(d);
  }

  /** Every one- or two-byte frame ending 0x0a is a Picopass ACTALL. */
  lemma FallbackActall(d: seq<byte>)
    requires 1 <= |d| <= 2 && Last(d) == 0x0a
    ensures ParseOtherFrameTypes(Hex(d)) == Ok("ACTALL")
  {
    OtherRuleMatches(d);
    ActallRule(d);
  }

  lemma ActallRule(d: seq<byte>)
    requires 1 <= |d| <= 2 && Last(d) == 0x0a
    ensures OtherRule(d) == Ok("ACTALL")
  {
    assert d != [0x01, 0x0b, 0x3f, 0x80] && !(|d| == 5);
    assert d != [0x06, 0x00] && d != [0x10] && d != [0x50, 0x00];
  }

  /** Single bytes 0x7a..0x7d are MagSafe wakeups 1..4, other single bytes
      0x70..0x7f an unnumbered one. */
  lemma FallbackMagSafe(b: byte)
    requires 0x70 <= b <= 0x7f
    ensures 0x7a <= b <= 0x7d ==> ParseOtherFrameTypes(Hex([b])) == Ok("MAGWUP" + [DigitChar(b - 0x79)])
    ensures !(0x7a <= b <= 0x7d) ==> ParseOtherFrameTypes(Hex([b])) == Ok("MAGWUPU")
  {
    OtherRuleMatches([b]);
    var d := [b];
    assert !(0x7a <= b <= 0x7d) ==> MagSafeNumber(b) == "U";
    assert "MAGWUP" + "U" == "MAGWUPU";
    assert !(d == [0x40] || d == [0x20]);
    assert d != [0x10] && d != [0x06, 0x00] && d != [0x50, 0x00] && d != [0x01, 0x0b, 0x3f, 0x80];
    assert Last(d) == b && b / 16 == 7;
    assert OtherRule(d) == Ok("MAGWUP" + MagSafeNumber(b));
  }

  lemma Ecp2RuleFailure(d: seq<byte>)
    requires |d| >= 4
    ensures Ecp2Rule(d).Err? <==> (d[3] == 0x01 && |d| < 8) || (d[3] == 0x02 && |d| < 5)
  {
  }

  lemma OtherRuleFailure(d: seq<byte>)
    ensures OtherRule(d).Err? <==> |d| >= 4 && d[0] == 0x6a && d[1] == 0x02 && Ecp2Rule(d).Err?
  {
    if |d| >= 4 && d[0] == 0x6a {
      assert d != [0x01, 0x0b, 0x3f, 0x80];
    }
  }

  /** The frames whose name the source cannot compute: ECP2 TRANSIT frames of
      4 to 7 bytes and ECP2 ACCESS frames of 4 bytes, where `substring`
      runs past the end of the text. */
  predicate ShortEcp2(t: FrameType, d: seq<byte>) {
    && ReachesFallback(t, d)
    && |d| >= 4 && d[0] == 0x6a && d[1] == 0x02
    && ((d[3] == 0x01 && |d| < 8) || (d[3] == 0x02 && |d| < 5))
  }

  /** Naming fails exactly on the short ECP2 frames. */
  lemma NameFailsExactlyOnShortEcp2(e: PollingLoopEvent)
    ensures Name(e).Err? <==> ShortEcp2(e.frameType, e.data)
  {
    NameMatchesFrameRules(e);
    OtherRuleFailure(e.data);
    if |e.data| >= 4 {
      Ecp2RuleFailure(e.data);
    }
  }
}
