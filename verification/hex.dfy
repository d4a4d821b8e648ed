/** Bytes and their hexadecimal text (`ByteArray.toHexString()` and
    `String.hexToByte()`), plus the facts that let string tests on that text
    be read as tests on the bytes. */
module HexCodec {
  import opened Results
  import opened Strings

  /** An element of a `ByteArray`, as its unsigned value. */
  type byte = x: int | 0 <= x < 256

  /** Kotlin's `Byte` is signed: the value of `b` read as two's complement. */
  function Signed(b: byte): (v: int)
    ensures -128 <= v < 128
    ensures v % 256 == b % 256
  {
    if b < 128 then b else b - 256
  }

  /** The lower-case digit for a nibble. */
  function HexChar(v: int): (c: char)
    requires 0 <= v < 16
  {
    if v < 10 then ('0' as int + v) as char else ('a' as int + v - 10) as char
  }

  /** The value of one hexadecimal digit, either case. */
  function NibbleValue(c: char): (r: Option<nat>)
    ensures r.Some? ==> r.value < 16
  {
    if '0' <= c <= '9' then Some(c as int - '0' as int)
    else if 'a' <= c <= 'f' then Some(c as int - 'a' as int + 10)
    else if 'A' <= c <= 'F' then Some(c as int - 'A' as int + 10)
    else None
  }

  lemma NibbleOfHexChar(v: int)
    requires 0 <= v < 16
    ensures NibbleValue(HexChar(v)) == Some(v)
  {
  }

  /** The two lower-case digits of one byte, high nibble first. */
  function ByteHex(b: byte): (s: string)
    ensures |s| == 2
  {
    [HexChar(b / 16), HexChar(b % 16)]
  }

  /** `ByteArray.toHexString()`: two lower-case digits per byte. */
  function Hex(d: seq<byte>): (s: string)
    ensures |s| == 2 * |d|
  {
    if |d| == 0 then "" else ByteHex(d[0]) + Hex(d[1..])
  }

  /** `String.hexToByte()` on a two-character string. */
  function HexToByte(pair: string): (r: Result<byte>)
    requires |pair| == 2
  {
    match (NibbleValue(pair[0]), NibbleValue(pair[1]))
    case (Some(hi), Some(lo)) => Ok(hi * 16 + lo)
    case _ => Err(NumberFormat(pair))
  }

  /** Decodes hexadecimal text of even length, either case. */
  function Unhex(s: string): (r: Option<seq<byte>>)
    ensures r.Some? ==> 2 * |r.value| == |s|
    decreases |s|
  {
    if |s| == 0 then Some([])
    else if |s| == 1 then None
    else match (HexToByte(s[..2]), Unhex(s[2..]))
      case (Ok(b), Some(rest)) => Some([b] + rest)
      case _ => None
  }

  lemma HexToByteOfByteHex(b: byte)
    ensures HexToByte(ByteHex(b)) == Ok(b)
  {
    NibbleOfHexChar(b / 16);
    NibbleOfHexChar(b % 16);
  }

  /** Decoding the text of a byte array gives the array back. */
  lemma {:induction false} UnhexOfHex(d: seq<byte>)
    ensures Unhex(Hex(d)) == Some(d)
    decreases |d|
  {
    if |d| > 0 {
      var s := Hex(d);
      assert s[..2] == ByteHex(d[0]);
      assert s[2..] == Hex(d[1..]);
      HexToByteOfByteHex(d[0]);
      UnhexOfHex(d[1..]);
      assert [d[0]] + d[1..] == d;
    }
  }

  /** Different byte arrays have different texts. */
  lemma HexInjective(a: seq<byte>, b: seq<byte>)
    ensures Hex(a) == Hex(b) <==> a == b
  {
    if Hex(a) == Hex(b) {
      UnhexOfHex(a);
      UnhexOfHex(b);
    }
  }

  /** Comparing the text with a literal is comparing the bytes. */
  lemma HexEqualsText(d: seq<byte>, literal: seq<byte>, text: string)
    requires Hex(literal) == text
    ensures Hex(d) == text <==> d == literal
  {
    HexInjective(d, literal);
  }

  lemma ByteHexInjective(a: byte, b: byte)
    ensures ByteHex(a) == ByteHex(b) <==> a == b
  {
    if ByteHex(a) == ByteHex(b) {
      HexToByteOfByteHex(a);
      HexToByteOfByteHex(b);
    }
  }

  /** The text of a slice is the corresponding slice of the text. */
  lemma {:induction false} HexSlice(d: seq<byte>, i: nat, j: nat)
    requires i <= j <= |d|
    ensures Hex(d)[2 * i..2 * j] == Hex(d[i..j])
    decreases j - i
  {
    if i < j {
      var s := Hex(d);
      HexSlice(d, i + 1, j);
      HexAt(d, i);
      SliceSplit(s, 2 * i, 2 * i + 2, 2 * j);
      var x := d[i..j];
      assert x[0] == d[i] && x[1..] == d[i + 1..j];
      assert Hex(x) == ByteHex(d[i]) + Hex(d[i + 1..j]);
    }
  }

  /** A slice is the concatenation of its two halves at any cut. */
  lemma SliceSplit<T>(s: seq<T>, a: nat, b: nat, c: nat)
    requires a <= b <= c <= |s|
    ensures s[a..c] == s[a..b] + s[b..c]
  {
  }

  /** The two digits at byte position `i`. */
  lemma {:induction false} HexAt(d: seq<byte>, i: nat)
    requires i < |d|
    ensures Hex(d)[2 * i..2 * i + 2] == ByteHex(d[i])
    decreases i
  {
    if i > 0 {
      HexAt(d[1..], i - 1);
      var s := Hex(d);
      assert s[2 * i..2 * i + 2] == Hex(d[1..])[2 * (i - 1)..2 * (i - 1) + 2];
    }
  }

  predicate NoUpper(s: string) {
    forall k :: 0 <= k < |s| ==> !IsUpper(s[k])
  }

  lemma {:induction false} HexHasNoUpper(d: seq<byte>)
    ensures NoUpper(Hex(d))
    decreases |d|
  {
    if |d| > 0 {
      HexHasNoUpper(d[1..]);
      assert Hex(d) == ByteHex(d[0]) + Hex(d[1..]);
    }
  }

  /** The text holds digits only, all of them lower case. */
  lemma HexIsLower(d: seq<byte>)
    ensures Lower(Hex(d)) == Hex(d)
  {
    HexHasNoUpper(d);
    LowerOfLower(Hex(d));
  }

  /** A text test on a prefix is a test on the leading bytes. */
  lemma HexStartsWithBytes(d: seq<byte>, p: seq<byte>)
    ensures StartsWith(Hex(d), Hex(p)) <==> |p| <= |d| && d[..|p|] == p
  {
    if |p| <= |d| {
      HexSlice(d, 0, |p|);
      HexInjective(d[..|p|], p);
    }
  }

  /** A text test on a two-digit prefix is a test on the first byte. */
  lemma HexStartsWithByte(d: seq<byte>, b: byte)
    ensures StartsWith(Hex(d), ByteHex(b)) <==> |d| >= 1 && d[0] == b
  {
    if |d| >= 1 {
      HexAt(d, 0);
      ByteHexInjective(d[0], b);
    }
  }

  /** A text test on a two-digit suffix is a test on the last byte. */
  lemma HexEndsWithByte(d: seq<byte>, b: byte)
    ensures EndsWith(Hex(d), ByteHex(b)) <==> |d| >= 1 && d[|d| - 1] == b
  {
    if |d| >= 1 {
      HexLast(d);
      ByteHexInjective(d[|d| - 1], b);
    }
  }

  /** The last two digits are those of the last byte. */
  lemma HexLast(d: seq<byte>)
    requires |d| >= 1
    ensures Hex(d)[|Hex(d)| - 2..] == ByteHex(d[|d| - 1])
  {
    var s := Hex(d);
    var n := |d| - 1;
    HexAt(d, n);
    assert |s| - 2 == 2 * n;
    assert s[|s| - 2..] == s[2 * n..2 * n + 2];
  }

  /** The first digit of the text is the high nibble of the first byte. */
  lemma HexFirstDigit(d: seq<byte>, v: int)
    requires |d| >= 1 && 0 <= v < 16
    ensures Hex(d)[0] == HexChar(v) <==> d[0] / 16 == v
  {
    HexAt(d, 0);
    assert Hex(d)[0] == Hex(d)[0..2][0] == HexChar(d[0] / 16);
  }
}
