/** The frame classifier: `PollingLoopEvent.name` and the `parse*` family,
    which name a frame by string tests on the lower-case hex text of its
    bytes. A test that would throw in the source yields `Err`. */
module Classifier {
  import opened Results
  import opened Strings
  import opened HexCodec
  import opened Events

  const FeliCaSystemCodes: map<string, string> := map[
    "ffff" := "WILDCARD",
    "0003" := "CJRC",
    "8008" := "OCTOPUS",
    "fe00" := "COMMON",
    "12fc" := "NDEF",
    "88b4" := "LITE",
    "957a" := "ID"]

  const EcpTransitTciCodes: map<string, string> := map[
    "030000" := "VENTRA",
    "030400" := "HOPCARD",
    "030002" := "TFL",
    "030001" := "WMATA",
    "030005" := "LATAP",
    "030007" := "CLIPPER",
    "03095a" := "NAVIGO"]

  const EcpAccessSubtypes: map<string, string> := map[
    "00" := "UNIVERSITY",
    "01" := "AUTOMOTIVE",
    "08" := "AUTOMOTIVE",
    "09" := "AUTOMOTIVE",
    "0a" := "AUTOMOTIVE",
    "0b" := "AUTOMOTIVE",
    "06" := "HOME"]

  /** The fixed whole-frame ECP1 variants. */
  const Ecp1Variants: map<string, string> := map[
    "6a01000000" := "VAS_OR_PAYMENT",
    "6a01000001" := "VAS_AND_PAYMENT",
    "6a01000002" := "VAS_ONLY",
    "6a01000003" := "PAY_ONLY",
    "6a01cf0000" := "IGNORE",
    "6a01c30000" := "GYMKIT"]

  /** A `when` over a table with an `else -> "UNKNOWN"` branch. */
  function Lookup(table: map<string, string>, key: string): string {
    if key in table then table[key] else "UNKNOWN"
  }

  function ParseFeliCaSystemCode(systemCode: string): string {
    Lookup(FeliCaSystemCodes, Lower(systemCode))
  }

  function ParseEcpTransitTci(tci: string): string {
    Lookup(EcpTransitTciCodes, Lower(tci))
  }

  function ParseEcpAccessSubtype(value: string): string {
    Lookup(EcpAccessSubtypes, Lower(value))
  }

  function ParseEcp1(value: string): string {
    if value in Ecp1Variants then Ecp1Variants[value]
    else if StartsWith(value, "6a0103") then "TRANSIT_" + ParseEcpTransitTci(value[4..])
    else "UNKNOWN"
  }

  /** Fails on a TRANSIT selector with fewer than 16 digits and on an ACCESS
      selector with fewer than 10, where the source's `substring` throws. */
  function ParseEcp2(value: string): Result<string> {
    if |value| < 8 then Ok("UNKNOWN")
    else
      var selector := value[6..8];
      if selector == "01" then
        var tci :- Substring(value, 10, 16);
        Ok("TRANSIT_" + ParseEcpTransitTci(tci))
      else if selector == "02" then
        var subtype :- Substring(value, 8, 10);
        Ok("ACCESS_" + ParseEcpAccessSubtype(subtype))
      else if selector == "03" then Ok("IDENTITY")
      else if selector == "05" then Ok("HANDOVER")
      else Ok("UNKNOWN")
  }

  function MagSafeSuffix(data: string): string {
    if data == "7a" then "1"
    else if data == "7b" then "2"
    else if data == "7c" then "3"
    else if data == "7d" then "4"
    else "U"
  }

  /** The fallback decoder, rules in source order, "PLF" when none applies. */
  function ParseOtherFrameTypes(data: string): Result<string> {
    if data == "010b3f80" then Ok("APGEN")
    else if data == "0600" then Ok("INITIATE")
    else if data == "10" then Ok("REQT")
    else if data == "5000" then Ok("HLTA")
    else if StartsWith(data, "50") && |data| == 10 then Ok("HLTB")
    else if 2 <= |data| <= 4 && EndsWith(data, "0a") then Ok("ACTALL")
    else if 2 <= |data| <= 4 && EndsWith(data, "0c") then Ok("IDENTIFY")
    else if StartsWith(data, "6a") && |data| >= 8 then
      var protocol := data[2..4];
      if protocol == "01" then Ok("ECP1_" + ParseEcp1(data))
      else if protocol == "02" then
        var ecp2 :- ParseEcp2(data);
        Ok("ECP2_" + ecp2)
      else Ok("ECP_UNKNOWN")
    else if StartsWith(data, "7") && |data| == 2 then Ok("MAGWUP" + MagSafeSuffix(data))
    else if |data| == 2 && (data == "40" || data == "20") then Ok("WUPC1")
    else if |data| == 2 && (data == "43" || data == "23") then Ok("WUPC2")
    else Ok("PLF")
  }

  function ParseTypeAFrame(data: string): Result<string> {
    if StartsWith(data, "52") then Ok("WUPA")
    else if StartsWith(data, "26") then Ok("REQA")
    else ParseOtherFrameTypes(data)
  }

  /** Bit 0x08 of a byte. */
  predicate Bit3(b: byte) {
    (b / 8) % 2 == 1
  }

  function ParseTypeBFrame(data: string): Result<string> {
    if StartsWith(data, "05") then
      var last :- HexToByte(data[|data| - 2..]);
      if Bit3(last) then Ok("WUPB") else Ok("REQB")
    else ParseOtherFrameTypes(data)
  }

  function ParseTypeFFrame(data: string): Result<string> {
    if |data| >= 6 then Ok(ParseFeliCaSystemCode(data[2..6]))
    else ParseOtherFrameTypes(data)
  }

  /** `PollingLoopEvent.name` */
  function Name(e: PollingLoopEvent): Result<string> {
    var hex := Lower(Hex(e.data));
    match e.frameType
    case A => ParseTypeAFrame(hex)
    case B => ParseTypeBFrame(hex)
    case F => ParseTypeFFrame(hex)
    case On | Off => Ok("")
    case Unknown => ParseOtherFrameTypes(hex)
  }
}
