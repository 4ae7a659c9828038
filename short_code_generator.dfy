/** The random short-code generator (services/short_code_generator.go). The
    three bytes `crypto/rand` fills are a parameter; what remains is
    `hex.EncodeToString(bytes)[:5]`. */
module ShortCodes {

  type Byte = x: int | 0 <= x < 256

  const HexDigits: string := "0123456789abcdef"
  const CodeLength: nat := 5

  /** `hex.EncodeToString`: two lower-case hex digits per byte, high nibble first. */
  function HexEncode(bytes: seq<Byte>): (s: string)
    ensures |s| == 2 * |bytes|
  {
    if bytes == [] then []
    else [HexDigits[bytes[0] / 16], HexDigits[bytes[0] % 16]] + HexEncode(bytes[1..])
  }

  /** Where each byte's digits land in the encoding. */
  lemma {:induction false} HexEncodeAt(bytes: seq<Byte>, i: nat)
    requires i < |bytes|
    ensures HexEncode(bytes)[2 * i] == HexDigits[bytes[i] / 16]
    ensures HexEncode(bytes)[2 * i + 1] == HexDigits[bytes[i] % 16]
  {
    if i > 0 {
      HexEncodeAt(bytes[1..], i - 1);
    }
  }

  /** Generate, given the random bytes it reads. */
  function Generate(bytes: seq<Byte>): (code: string)
    requires |bytes| == 3
    ensures |code| == CodeLength
  {
    HexEncode(bytes)[..CodeLength]
  }

  predicate IsHexDigit(c: char)
  {
    c in HexDigits
  }

  /** The five characters are the hex digits of byte 0, of byte 1, and the high
      nibble of byte 2. */
  lemma GenerateDigits(bytes: seq<Byte>)
    requires |bytes| == 3
    ensures |Generate(bytes)| == CodeLength
    ensures Generate(bytes) == [HexDigits[bytes[0] / 16], HexDigits[bytes[0] % 16],
                                HexDigits[bytes[1] / 16], HexDigits[bytes[1] % 16],
                                HexDigits[bytes[2] / 16]]
  {
    HexEncodeAt(bytes, 0);
    HexEncodeAt(bytes, 1);
    HexEncodeAt(bytes, 2);
  }

  /** Every code is five lower-case hex digits. */
  lemma GenerateIsHex(bytes: seq<Byte>)
    requires |bytes| == 3
    ensures |Generate(bytes)| == CodeLength
    ensures forall k :: 0 <= k < |Generate(bytes)| ==> IsHexDigit(Generate(bytes)[k])
  {
    GenerateDigits(bytes);
  }

  /** The digits of HexDigits are pairwise distinct. */
  lemma HexDigitInjective(a: nat, b: nat)
    requires a < 16 && b < 16
    ensures HexDigits[a] == HexDigits[b] <==> a == b
  {
  }

  /** Two byte triples give the same code exactly when they agree on their
      first 20 bits: the low nibble of the third byte is thrown away. */
  lemma GenerateEqualIff(x: seq<Byte>, y: seq<Byte>)
    requires |x| == 3 && |y| == 3
    ensures Generate(x) == Generate(y) <==> x[0] == y[0] && x[1] == y[1] && x[2] / 16 == y[2] / 16
  {
    GenerateDigits(x);
    GenerateDigits(y);
    if Generate(x) == Generate(y) {
      assert Generate(x)[0] == Generate(y)[0] && Generate(x)[1] == Generate(y)[1];
      HexDigitInjective(x[0] / 16, y[0] / 16);
      HexDigitInjective(x[0] % 16, y[0] % 16);
      assert Generate(x)[2] == Generate(y)[2] && Generate(x)[3] == Generate(y)[3];
      HexDigitInjective(x[1] / 16, y[1] / 16);
      HexDigitInjective(x[1] % 16, y[1] % 16);
      assert Generate(x)[4] == Generate(y)[4];
      HexDigitInjective(x[2] / 16, y[2] / 16);
    }
  }

  /** So there are only 2^20 distinct codes: bytes that differ in the dropped
      nibble collide. */
  lemma DroppedNibbleCollides()
    ensures Generate([0xab, 0xcd, 0xe0]) == Generate([0xab, 0xcd, 0xef]) == "abcde"
  {
    GenerateDigits([0xab, 0xcd, 0xe0]);
    GenerateDigits([0xab, 0xcd, 0xef]);
  }
}
