/**
 * Reading and writing curve points in libsnark's raw format: a G1 point is
 * 64 bytes, two 32-byte coordinates; a G2 point over the quadratic
 * extension is 128 bytes, four coordinates. In memory a coordinate is a
 * "0x"-prefixed lowercase hexadecimal string.
 */
module Serialization {
  import opened Wrappers
  import opened Bytes
  import Arith

  const HexDigits: string := "0123456789abcdef"

  function HexChar(n: nat): char
    requires n < 16
  {
    HexDigits[n]
  }

  /** The value of a hexadecimal digit; upper- and lowercase letters are both accepted. */
  function DigitValue(c: char): Option<nat> {
    if '0' <= c <= '9' then Some(c as int - '0' as int)
    else if 'a' <= c <= 'f' then Some(c as int - 'a' as int + 10)
    else if 'A' <= c <= 'F' then Some(c as int - 'A' as int + 10)
    else None
  }

  lemma DigitRoundTrip(n: nat)
    requires n < 16
    ensures DigitValue(HexChar(n)) == Some(n)
  {
    assert HexDigits == ['0', '1', '2', '3', '4', '5', '6', '7', '8', '9', 'a', 'b', 'c', 'd', 'e', 'f'];
  }

  predicate IsLowerDigit(c: char) {
    ('0' <= c <= '9') || ('a' <= c <= 'f')
  }

  lemma CharRoundTrip(c: char)
    requires IsLowerDigit(c)
    ensures DigitValue(c).Some? && DigitValue(c).value < 16 && HexChar(DigitValue(c).value) == c
  {
    assert HexDigits == ['0', '1', '2', '3', '4', '5', '6', '7', '8', '9', 'a', 'b', 'c', 'd', 'e', 'f'];
  }

  /** `hex::encode`: two lowercase digits per byte, high nibble first. */
  function HexEncode(data: seq<Byte>): (s: string)
    ensures |s| == 2 * |data|
    ensures forall i | 0 <= i < |s| :: IsLowerDigit(s[i])
  {
    if data == [] then []
    else
      assert HexDigits == ['0', '1', '2', '3', '4', '5', '6', '7', '8', '9', 'a', 'b', 'c', 'd', 'e', 'f'];
      [HexChar(data[0] / 16), HexChar(data[0] % 16)] + HexEncode(data[1..])
  }

  function DecodePairs(s: string): Option<seq<Byte>>
    requires |s| % 2 == 0
  {
    if s == [] then Some([])
    else
      var hi := DigitValue(s[0]);
      var lo := DigitValue(s[1]);
      if hi.None? || lo.None? then None
      else
        var rest := DecodePairs(s[2..]);
        if rest.None? then None else Some([hi.value * 16 + lo.value] + rest.value)
  }

  /** `hex::decode`: fails on an odd length or on a character that is not a digit. */
  function HexDecode(s: string): Option<seq<Byte>> {
    if |s| % 2 != 0 then None else DecodePairs(s)
  }

  /** Decoding what was encoded gives the bytes back. */
  lemma {:induction false} HexRoundTrip(data: seq<Byte>)
    ensures HexDecode(HexEncode(data)) == Some(data)
  {
    if data != [] {
      HexRoundTrip(data[1..]);
      HexStep(data[0], data[1..]);
      assert data == [data[0]] + data[1..];
    }
  }

  /** One byte in front of bytes that round-trip round-trips too. */
  lemma HexStep(b: Byte, rest: seq<Byte>)
    requires HexDecode(HexEncode(rest)) == Some(rest)
    ensures HexDecode(HexEncode([b] + rest)) == Some([b] + rest)
  {
    var hi, lo := b / 16, b % 16;
    var t := HexEncode(rest);
    var s := [HexChar(hi), HexChar(lo)] + t;
    DigitRoundTrip(hi);
    DigitRoundTrip(lo);
    assert s[2..] == t;
    DecodeStep(s);
    assert hi * 16 + lo == b;
    EncodeCons(b, rest);
  }

  /** Two digits in front decode to one byte in front. */
  lemma DecodeStep(s: string)
    requires |s| >= 2 && |s| % 2 == 0 && DigitValue(s[0]).Some? && DigitValue(s[1]).Some?
    ensures DecodePairs(s) ==
      if DecodePairs(s[2..]).None? then None
      else Some([DigitValue(s[0]).value * 16 + DigitValue(s[1]).value] + DecodePairs(s[2..]).value)
  {
  }

  predicate IsLowerHex(s: string) {
    |s| % 2 == 0 && forall i | 0 <= i < |s| :: IsLowerDigit(s[i])
  }

  /** Two digits make one byte and are read back from it. */
  lemma Nibbles(hi: nat, lo: nat)
    requires hi < 16 && lo < 16
    ensures 0 <= hi * 16 + lo < 256 && (hi * 16 + lo) / 16 == hi && (hi * 16 + lo) % 16 == lo
  {
    Arith.ModUnique(hi * 16 + lo, 16, hi, lo);
  }

  lemma LowerHexTail(s: string)
    requires IsLowerHex(s) && s != []
    ensures |s| >= 2 && IsLowerHex(s[2..])
  {
    forall i | 0 <= i < |s[2..]| ensures IsLowerDigit(s[2..][i]) {
      assert s[2..][i] == s[i + 2];
    }
  }

  /** A lowercase hexadecimal string of even length decodes, and encodes back to itself. */
  lemma {:induction false} LowerHexRoundTrip(s: string)
    requires IsLowerHex(s)
    ensures HexDecode(s).Some? && |HexDecode(s).value| * 2 == |s| && HexEncode(HexDecode(s).value) == s
  {
    if s != [] {
      LowerHexTail(s);
      LowerHexRoundTrip(s[2..]);
      LowerHexStep(s);
    }
  }

  /** Two lowercase digits in front of a string that round-trips give a string that round-trips. */
  lemma LowerHexStep(s: string)
    requires |s| >= 2 && |s| % 2 == 0 && IsLowerDigit(s[0]) && IsLowerDigit(s[1])
    requires HexDecode(s[2..]).Some? && |HexDecode(s[2..]).value| * 2 == |s| - 2
    requires HexEncode(HexDecode(s[2..]).value) == s[2..]
    ensures HexDecode(s).Some? && |HexDecode(s).value| * 2 == |s| && HexEncode(HexDecode(s).value) == s
  {
    CharRoundTrip(s[0]);
    CharRoundTrip(s[1]);
    var hi, lo := DigitValue(s[0]).value, DigitValue(s[1]).value;
    Nibbles(hi, lo);
    var b: Byte := hi * 16 + lo;
    DecodeStep(s);
    EncodeFront(s, b, HexDecode(s[2..]).value);
  }

  /** A byte whose digits are the first two characters, in front of the encoding of the rest. */
  lemma EncodeFront(s: string, b: Byte, rest: seq<Byte>)
    requires |s| >= 2 && HexChar(b / 16) == s[0] && HexChar(b % 16) == s[1] && HexEncode(rest) == s[2..]
    ensures HexEncode([b] + rest) == s
  {
    EncodeCons(b, rest);
    assert s == [s[0], s[1]] + s[2..];
  }

  lemma EncodeCons(b: Byte, rest: seq<Byte>)
    ensures HexEncode([b] + rest) == [HexChar(b / 16), HexChar(b % 16)] + HexEncode(rest)
  {
    assert ([b] + rest)[1..] == rest;
  }

  /** `encode_hex`: "0x" followed by the lowercase digits. */
  function EncodeHex(data: seq<Byte>): (s: string)
    ensures |s| == 2 + 2 * |data| && s[..2] == "0x"
  {
    "0x" + HexEncode(data)
  }

  /** What `decode_hex` accepts: a "0x" prefix followed by digits of even length. */
  predicate Decodable(value: string) {
    |value| >= 2 && value[..2] == "0x" && HexDecode(value[2..]).Some?
  }

  /** `decode_hex`: the prefix is required and the digits must decode. */
  function DecodeHex(value: string): seq<Byte>
    requires Decodable(value)
  {
    HexDecode(value[2..]).value
  }

  lemma EncodeDecode(data: seq<Byte>)
    ensures Decodable(EncodeHex(data)) && DecodeHex(EncodeHex(data)) == data
  {
    assert EncodeHex(data)[2..] == HexEncode(data);
    HexRoundTrip(data);
  }

  /** A coordinate as `read_g1` and `read_g2` produce it: "0x" and 64 lowercase digits. */
  predicate IsCoordinate(value: string) {
    |value| == 66 && value[..2] == "0x" && IsLowerHex(value[2..])
  }

  lemma CoordinateRoundTrip(value: string)
    requires IsCoordinate(value)
    ensures Decodable(value) && |DecodeHex(value)| == 32 && EncodeHex(DecodeHex(value)) == value
  {
    LowerHexRoundTrip(value[2..]);
    assert value == "0x" + value[2..];
  }

  lemma EncodedIsCoordinate(data: seq<Byte>)
    requires |data| == 32
    ensures IsCoordinate(EncodeHex(data))
  {
    assert EncodeHex(data)[2..] == HexEncode(data);
  }

  // ---------------------------------------------------------------------
  // Points
  // ---------------------------------------------------------------------

  datatype G1Affine = G1Affine(x: string, y: string)

  /** A G2 point: over the quadratic extension, or over the base field. */
  datatype G2Affine =
    | Fq2(x: (string, string), y: (string, string))
    | Fq(x0: string, y0: string)

  datatype IoError = UnexpectedEof

  /** `read_g1`: exactly 64 bytes are read, the rest of the input is left. */
  function ReadG1(input: seq<Byte>): (r: Result<(G1Affine, seq<Byte>), IoError>)
    ensures r.Ok? <==> |input| >= 64
    ensures r.Ok? ==> r.value.1 == input[64..] && IsCoordinate(r.value.0.x) && IsCoordinate(r.value.0.y)
  {
    if |input| < 64 then Err(UnexpectedEof)
    else
      EncodedIsCoordinate(input[0..32]);
      EncodedIsCoordinate(input[32..64]);
      Ok((G1Affine(EncodeHex(input[0..32]), EncodeHex(input[32..64])), input[64..]))
  }

  /** `read_g2`: exactly 128 bytes are read, always as a point over the extension. */
  function ReadG2(input: seq<Byte>): (r: Result<(G2Affine, seq<Byte>), IoError>)
    ensures r.Ok? <==> |input| >= 128
    ensures r.Ok? ==>
      r.value.1 == input[128..] && r.value.0.Fq2?
      && IsCoordinate(r.value.0.x.0) && IsCoordinate(r.value.0.x.1)
      && IsCoordinate(r.value.0.y.0) && IsCoordinate(r.value.0.y.1)
  {
    if |input| < 128 then Err(UnexpectedEof)
    else
      EncodedIsCoordinate(input[0..32]);
      EncodedIsCoordinate(input[32..64]);
      EncodedIsCoordinate(input[64..96]);
      EncodedIsCoordinate(input[96..128]);
      Ok((Fq2((EncodeHex(input[0..32]), EncodeHex(input[32..64])),
              (EncodeHex(input[64..96]), EncodeHex(input[96..128]))),
          input[128..]))
  }

  /** `write_g1`: the two coordinates' bytes appended to what was written before. */
  function WriteG1(out: seq<Byte>, g1: G1Affine): seq<Byte>
    requires Decodable(g1.x) && Decodable(g1.y)
  {
    out + DecodeHex(g1.x) + DecodeHex(g1.y)
  }

  /** `write_g2`: defined for points over the extension only. */
  function WriteG2(out: seq<Byte>, g2: G2Affine): seq<Byte>
    requires g2.Fq2?
    requires Decodable(g2.x.0) && Decodable(g2.x.1) && Decodable(g2.y.0) && Decodable(g2.y.1)
  {
    out + DecodeHex(g2.x.0) + DecodeHex(g2.x.1) + DecodeHex(g2.y.0) + DecodeHex(g2.y.1)
  }

  /** Two 32-byte coordinates encoded and decoded again give back their 64 bytes. */
  lemma ReadWritePair(input: seq<Byte>)
    requires |input| >= 64
    ensures Decodable(EncodeHex(input[0..32])) && Decodable(EncodeHex(input[32..64]))
    ensures DecodeHex(EncodeHex(input[0..32])) + DecodeHex(EncodeHex(input[32..64])) == input[..64]
  {
    EncodeDecode(input[0..32]);
    EncodeDecode(input[32..64]);
    assert input[..64] == input[0..32] + input[32..64];
  }

  /** Writing back a point that was read reproduces the bytes it was read from. */
  lemma ReadWriteG1(input: seq<Byte>)
    requires |input| >= 64
    ensures var g := ReadG1(input).value.0;
      Decodable(g.x) && Decodable(g.y) && WriteG1([], g) == input[..64]
  {
    ReadWritePair(input);
  }

  lemma ReadWriteG2(input: seq<Byte>)
    requires |input| >= 128
    ensures var g := ReadG2(input).value.0;
      g.Fq2? && Decodable(g.x.0) && Decodable(g.x.1) && Decodable(g.y.0) && Decodable(g.y.1)
      && WriteG2([], g) == input[..128]
  {
    ReadWritePair(input);
    var rest := input[64..];
    ReadWritePair(rest);
    assert rest[0..32] == input[64..96] && rest[32..64] == input[96..128];
    assert input[..128] == input[..64] + rest[..64];
  }

  /** Reading what was written gives the point back, when its coordinates are as `read_g1` makes them. */
  lemma WriteReadG1(g: G1Affine, rest: seq<Byte>)
    requires IsCoordinate(g.x) && IsCoordinate(g.y)
    ensures Decodable(g.x) && Decodable(g.y)
    ensures ReadG1(WriteG1([], g) + rest) == Ok((g, rest))
  {
    CoordinateRoundTrip(g.x);
    CoordinateRoundTrip(g.y);
    var bs := WriteG1([], g) + rest;
    assert bs[0..32] == DecodeHex(g.x);
    assert bs[32..64] == DecodeHex(g.y);
    assert bs[64..] == rest;
  }

  lemma WriteReadG2(g: G2Affine, rest: seq<Byte>)
    requires g.Fq2?
    requires IsCoordinate(g.x.0) && IsCoordinate(g.x.1) && IsCoordinate(g.y.0) && IsCoordinate(g.y.1)
    ensures Decodable(g.x.0) && Decodable(g.x.1) && Decodable(g.y.0) && Decodable(g.y.1)
    ensures ReadG2(WriteG2([], g) + rest) == Ok((g, rest))
  {
    CoordinateRoundTrip(g.x.0);
    CoordinateRoundTrip(g.x.1);
    CoordinateRoundTrip(g.y.0);
    CoordinateRoundTrip(g.y.1);
    var bs := WriteG2([], g) + rest;
    assert bs[0..32] == DecodeHex(g.x.0);
    assert bs[32..64] == DecodeHex(g.x.1);
    assert bs[64..96] == DecodeHex(g.y.0);
    assert bs[96..128] == DecodeHex(g.y.1);
    assert bs[128..] == rest;
  }
}
