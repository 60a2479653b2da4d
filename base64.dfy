/**
 * The global `btoa` of lib/VM/JSLib/Base64.cpp: work out the length of the
 * output, refuse lengths that do not fit in 32 bits, create a string builder
 * of exactly that capacity, run the encoder on the string's 8-bit or 16-bit
 * storage and turn an encoder failure into an error.
 */
module Base64 {
  import opened Base64Util

  const UInt32Max: nat := 0xFFFF_FFFF
  const TwoTo32: nat := 0x1_0000_0000

  /** A string length as the runtime stores it. */
  type UInt32 = x: nat | x <= 0xFFFF_FFFF

  const TooLongMessage: string := "String length to convert to base64 is too long"
  const InvalidCharacterMessage: string := "Found invalid character when converting to base64"

  /** The argument after conversion to a string: a string primitive keeps
      either 8-bit ("ASCII") or 16-bit code units. */
  datatype StringPrim = Ascii(chars: seq<CodeUnit8>) | Utf16(units: seq<CodeUnit16>)

  /** The code units the encoder reads: the 8-bit storage for an ASCII
      string and the 16-bit storage otherwise. */
  function Units(s: StringPrim): (u: seq<nat>)
    ensures |u| == (if s.Ascii? then |s.chars| else |s.units|)
    ensures s.Ascii? ==> AllBytes(u)
  {
    match s
    case Ascii(chars) => chars
    case Utf16(units) => units
  }

  /** What btoa returns: the encoded string, or an error with its message. */
  datatype Outcome = Value(text: string) | Error(message: string)

  /** The expected output length as the source writes it: the length is a
      32-bit unsigned value, so `len + 2`, the quotient and the product by 4
      are all computed modulo 2^32 before the result is widened to 64 bits. */
  function ExpectedLengthAsWritten(len: UInt32): (r: nat)
    ensures r <= UInt32Max
  {
    (((len + 2) % TwoTo32) / 3 * 4) % TwoTo32
  }

  /** The expected output length computed without wrap-around, which is what
      the 64-bit variable and the overflow test after it are meant for. */
  function ExpectedLength(len: UInt32): (r: nat)
    ensures r == EncodedLength(len) && r < 0x1_0000_0000_0000_0000
  {
    (len + 2) / 3 * 4
  }

  /** The as-written check `expectedLength > UINT32_MAX` never fires. */
  lemma AsWrittenNeverTooLong(len: UInt32)
    ensures !(ExpectedLengthAsWritten(len) > UInt32Max)
  {
  }

  /** The as-written length is right below 3 * 2^30 - 2 units. */
  lemma AsWrittenAgreesBelow(len: UInt32)
    requires len < 3 * 0x4000_0000 - 2
    ensures ExpectedLengthAsWritten(len) == EncodedLength(len)
  {
    assert (len + 2) / 3 * 4 < TwoTo32;
  }

  /** At 3 * 2^30 - 2 units the product wraps to 0: the builder would be
      created empty although the encoding takes 2^32 characters. */
  lemma AsWrittenWrapsAtLimit()
    ensures ExpectedLengthAsWritten(3 * 0x4000_0000 - 2) == 0
    ensures EncodedLength(3 * 0x4000_0000 - 2) == TwoTo32
  {
  }

  /** With the corrected length, the "too long" error is raised exactly for
      strings of 3 * 2^30 - 2 units or more. */
  lemma TooLongExactly(len: UInt32)
    ensures ExpectedLength(len) > UInt32Max <==> len >= 3 * 0x4000_0000 - 2
  {
    if len >= 3 * 0x4000_0000 - 2 {
      assert (len + 2) / 3 >= 0x4000_0000;
    } else {
      assert (len + 2) / 3 < 0x4000_0000;
    }
  }

  /** btoa on a string argument. The "too long" error comes before any
      builder exists; otherwise the builder's capacity is exactly the
      length a successful encoding has. */
  method Btoa(str: StringPrim) returns (r: Outcome)
    requires |Units(str)| <= UInt32Max
    ensures ExpectedLength(|Units(str)|) > UInt32Max ==> r == Error(TooLongMessage)
    ensures ExpectedLength(|Units(str)|) <= UInt32Max && AllBytes(Units(str))
            ==> r == Value(Encoding(Units(str)))
    ensures ExpectedLength(|Units(str)|) <= UInt32Max && !AllBytes(Units(str))
            ==> r == Error(InvalidCharacterMessage)
  {
    var units := Units(str);
    var expectedLength := ExpectedLength(|units|);
    if expectedLength > UInt32Max {
      return Error(TooLongMessage);
    }
    var builder := new StringBuilder(expectedLength);
    var success := Base64Encode(units, builder);
    if !success {
      return Error(InvalidCharacterMessage);
    }
    return Value(builder.chars);
  }

  /** An ASCII string below the length limit always encodes: every 8-bit
      unit is a byte. */
  lemma AsciiNeverInvalid(chars: seq<CodeUnit8>)
    requires |chars| < 3 * 0x4000_0000 - 2
    ensures ExpectedLength(|chars|) <= UInt32Max && AllBytes(Units(Ascii(chars)))
  {
    TooLongExactly(|chars|);
  }

  /** The output of a successful btoa is base64 text of the expected
      length: table characters, then the padding the leftover units need. */
  lemma BtoaOutput(str: StringPrim)
    requires |Units(str)| <= UInt32Max && AllBytes(Units(str))
    ensures |Encoding(Units(str))| == ExpectedLength(|Units(str)|)
    ensures Shaped(Encoding(Units(str)), PadCount(|Units(str)|))
  {
    EncodingShape(Units(str));
  }
}
