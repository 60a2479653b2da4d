/**
 * The base64 encoder of lib/VM/JSLib/Base64Util.cpp: the encoding of
 * section 4 of RFC 4648 over a sequence of code units, written into a
 * string builder one character at a time.
 *
 * The source is a template instantiated for 8-bit and for 16-bit code units;
 * both instantiations run the same code on the unit values, so the model has
 * one encoder over unit values (`seq<nat>`) and the two unit widths are the
 * subset types CodeUnit8 and CodeUnit16, both assignable to it.
 */
module Base64Util {

  type CodeUnit8 = x: nat | x < 0x100
  type CodeUnit16 = x: nat | x < 0x1_0000

  // The 64-character table, indexed by a 6-bit value (section 4 of RFC 4648,
  // Table 1). It is written as four runs so that each run can be indexed
  // on its own.
  const Upper: string := "ABCDEFGHIJKLMNOPQRSTUVWXYZ"
  const Lower: string := "abcdefghijklmnopqrstuvwxyz"
  const Digits: string := "0123456789"
  const Base64Chars: string := Upper + Lower + Digits + "+/"

  /** The padding character. */
  const Pad: char := '='

  /** Table 1 of RFC 4648: the character that stands for a 6-bit value,
      given by ranges: 'A'..'Z', 'a'..'z', '0'..'9', '+', '/'. */
  function Char(sextet: nat): char
    requires sextet < 64
  {
    if sextet < 26 then ('A' as int + sextet) as char
    else if sextet < 52 then ('a' as int + sextet - 26) as char
    else if sextet < 62 then ('0' as int + sextet - 52) as char
    else if sextet == 62 then '+'
    else '/'
  }

  /** The value a character stands for in Table 1, or -1. */
  function SextetOf(c: char): int
  {
    if 'A' <= c <= 'Z' then c as int - 'A' as int
    else if 'a' <= c <= 'z' then c as int - 'a' as int + 26
    else if '0' <= c <= '9' then c as int - '0' as int + 52
    else if c == '+' then 62
    else if c == '/' then 63
    else -1
  }

  /** The 64 characters are distinct and none is the padding character:
      reading one back gives its value. */
  lemma CharInverse(k: nat)
    requires k < 64
    ensures SextetOf(Char(k)) == k && Char(k) != Pad
  {
  }

  lemma UpperAt(k: nat)
    requires k < 26
    ensures Upper[k] as int == 'A' as int + k
  {
  }

  lemma LowerAt(k: nat)
    requires k < 26
    ensures Lower[k] as int == 'a' as int + k
  {
  }

  lemma DigitAt(k: nat)
    requires k < 10
    ensures Digits[k] as int == '0' as int + k
  {
  }

  /** The encoder's table is Table 1 of RFC 4648. */
  lemma TableIsAlphabet(k: nat)
    requires k < 64
    ensures |Base64Chars| == 64 && Base64Chars[k] == Char(k)
  {
    TableParts();
    if k < 26 {
      UpperAt(k);
    } else if k < 52 {
      LowerAt(k - 26);
    } else if k < 62 {
      DigitAt(k - 52);
    }
  }

  /** Where each part of the table sits. */
  lemma TableParts()
    ensures |Upper| == 26 && |Lower| == 26 && |Digits| == 10 && |Base64Chars| == 64
    ensures forall k :: 0 <= k < 26 ==> Base64Chars[k] == Upper[k]
    ensures forall k :: 26 <= k < 52 ==> Base64Chars[k] == Lower[k - 26]
    ensures forall k :: 52 <= k < 62 ==> Base64Chars[k] == Digits[k - 52]
    ensures Base64Chars[62] == '+' && Base64Chars[63] == '/'
  {
  }

  /** Every unit fits in 8 bits, the condition under which encoding succeeds. */
  predicate AllBytes(s: seq<nat>)
  {
    forall i :: 0 <= i < |s| ==> s[i] <= 0xFF
  }

  /** The number of characters the encoding of n units takes. */
  function EncodedLength(n: nat): (len: nat)
    ensures len % 4 == 0
  {
    4 * ((n + 2) / 3)
  }

  // ---------------------------------------------------------------------
  // Reference definition: section 4 of RFC 4648. A 24-bit input group is
  // read as one number and cut into four 6-bit groups; a final group of 16
  // or 8 bits is padded with zero bits to a whole number of 6-bit groups
  // and the output with '=' to four characters.
  // ---------------------------------------------------------------------

  function FullQuantum(a: nat, b: nat, c: nat): (r: string)
    requires a <= 0xFF && b <= 0xFF && c <= 0xFF
  {
    var n := a * 0x1_0000 + b * 0x100 + c;
    [Char(n / 0x4_0000), Char(n / 0x1000 % 64), Char(n / 0x40 % 64), Char(n % 64)]
  }

  function TwoUnitQuantum(a: nat, b: nat): (r: string)
    requires a <= 0xFF && b <= 0xFF
  {
    var n := (a * 0x100 + b) * 4;
    [Char(n / 0x1000), Char(n / 0x40 % 64), Char(n % 64), Pad]
  }

  function OneUnitQuantum(a: nat): (r: string)
    requires a <= 0xFF
  {
    var n := a * 0x10;
    [Char(n / 0x40), Char(n % 64), Pad, Pad]
  }

  /** The base64 encoding of a sequence of bytes. */
  function Encoding(s: seq<nat>): (r: string)
    requires AllBytes(s)
    ensures |r| == EncodedLength(|s|)
    decreases |s|
  {
    if |s| == 0 then []
    else if |s| == 1 then OneUnitQuantum(s[0])
    else if |s| == 2 then TwoUnitQuantum(s[0], s[1])
    else
      assert s[0] <= 0xFF && s[1] <= 0xFF && s[2] <= 0xFF && AllBytes(s[3..]);
      assert EncodedLength(|s|) == 4 + EncodedLength(|s| - 3);
      FullQuantum(s[0], s[1], s[2]) + Encoding(s[3..])
  }

  // ---------------------------------------------------------------------
  // The encoder's own arithmetic. The source computes each 6-bit field with
  // shifts and masks on 8-bit values: a left shift by k is a product with
  // 2^k, a right shift a quotient, a mask with 0x3f a remainder modulo 64,
  // and the "or" of a left-shifted unit with the high bits of the next one
  // is a sum because their bits do not overlap.
  // ---------------------------------------------------------------------

  /** Quotient and remainder are determined by any decomposition n == q * d + r
      with 0 <= r < d. */
  lemma DivModUnique(n: int, d: int, q: int, r: int)
    requires d > 0 && 0 <= r < d && n == q * d + r
    ensures n / d == q && n % d == r
  {
    var q' := n / d;
    if q' < q {
      MulMonotone(q' + 1, q, d);
    } else if q < q' {
      MulMonotone(q + 1, q', d);
    }
  }

  lemma MulMonotone(x: int, y: int, d: int)
    requires x <= y && d > 0
    ensures x * d <= y * d
  {
    assert (y - x) * d >= 0;
  }

  /** The four fields of a full group, as the encoder computes them, are the
      four 6-bit groups of the 24-bit number the three units form, and they
      recompose to it. */
  lemma FullGroupArith(a: nat, b: nat, c: nat)
    requires a <= 0xFF && b <= 0xFF && c <= 0xFF
    ensures var n := a * 0x1_0000 + b * 0x100 + c;
      var aaa, bbb, ccc, ddd := a / 4, (a * 16 + b / 16) % 64, (b * 4 + c / 64) % 64, c % 64;
      && n / 0x4_0000 == aaa && n / 0x1000 % 64 == bbb && n / 0x40 % 64 == ccc && n % 64 == ddd
      && aaa * 0x4_0000 + bbb * 0x1000 + ccc * 0x40 + ddd == n
  {
    var n := a * 0x1_0000 + b * 0x100 + c;
    var a1, a0, b1, b0, c1, c0 := a / 4, a % 4, b / 16, b % 16, c / 64, c % 64;
    var hi := a1 * 64 + a0 * 16 + b1;
    var mid := hi * 64 + b0 * 4 + c1;
    assert n == mid * 64 + c0;
    DivModUnique(a * 16 + b / 16, 64, a1, a0 * 16 + b1);
    DivModUnique(b * 4 + c / 64, 64, b1, b0 * 4 + c1);
    DivModUnique(mid, 64, hi, b0 * 4 + c1);
    DivModUnique(hi, 64, a1, a0 * 16 + b1);
    DivModUnique(n, 0x40, mid, c0);
    DivModUnique(n, 0x1000, hi, (b0 * 4 + c1) * 64 + c0);
    DivModUnique(n, 0x4_0000, a1, (a0 * 16 + b1) * 0x1000 + (b0 * 4 + c1) * 64 + c0);
  }

  /** The encoder's four characters for a full group are those of the
      reference encoding. */
  lemma FullGroupFields(a: nat, b: nat, c: nat)
    requires a <= 0xFF && b <= 0xFF && c <= 0xFF
    ensures FullQuantum(a, b, c)
         == [Char(a / 4), Char((a * 16 + b / 16) % 64), Char((b * 4 + c / 64) % 64), Char(c % 64)]
  {
    FullGroupArith(a, b, c);
  }

  /** The same for a two-unit tail: three fields, the last one with two zero
      bits shifted in. */
  lemma TwoUnitArith(a: nat, b: nat)
    requires a <= 0xFF && b <= 0xFF
    ensures var n := (a * 0x100 + b) * 4;
      n / 0x1000 == a / 4 && n / 0x40 % 64 == (a * 16 + b / 16) % 64 && n % 64 == (b * 4) % 64
  {
    var n := (a * 0x100 + b) * 4;
    var a1, a0, b1, b0 := a / 4, a % 4, b / 16, b % 16;
    var hi := a1 * 64 + a0 * 16 + b1;
    assert n == hi * 64 + b0 * 4;
    DivModUnique(a * 16 + b / 16, 64, a1, a0 * 16 + b1);
    DivModUnique(b * 4, 64, b1, b0 * 4);
    DivModUnique(hi, 64, a1, a0 * 16 + b1);
    DivModUnique(n, 0x40, hi, b0 * 4);
    DivModUnique(n, 0x1000, a1, (a0 * 16 + b1) * 64 + b0 * 4);
  }

  /** The encoder's three characters for a two-unit tail, then one padding
      character, are the reference encoding of that tail. */
  lemma TwoUnitFields(a: nat, b: nat)
    requires a <= 0xFF && b <= 0xFF
    ensures TwoUnitQuantum(a, b) == [Char(a / 4), Char((a * 16 + b / 16) % 64), Char((b * 4) % 64), Pad]
  {
    TwoUnitArith(a, b);
  }

  /** And for a one-unit tail: two fields, the last one with four zero bits,
      then two padding characters. */
  lemma OneUnitFields(a: nat)
    requires a <= 0xFF
    ensures OneUnitQuantum(a) == [Char(a / 4), Char((a * 16) % 64), Pad, Pad]
  {
    DivModUnique(a * 16, 64, a / 4, (a % 4) * 16);
  }

  // ---------------------------------------------------------------------
  // Properties of the reference encoding.
  // ---------------------------------------------------------------------

  /** Encoding is compositional at group boundaries: a prefix made of whole
      3-unit groups is encoded on its own. */
  lemma {:induction false} EncodingConcat(p: seq<nat>, q: seq<nat>)
    requires |p| % 3 == 0 && AllBytes(p) && AllBytes(q)
    ensures AllBytes(p + q) && Encoding(p + q) == Encoding(p) + Encoding(q)
  {
    AllBytesConcat(p, q);
    if |p| == 0 {
      assert p + q == q;
    } else {
      var r := p + q;
      assert r[0] == p[0] && r[1] == p[1] && r[2] == p[2];
      assert r[3..] == p[3..] + q;
      EncodingConcat(p[3..], q);
      EncodingFront(r);
      EncodingFront(p);
      AppendAssoc(FullQuantum(p[0], p[1], p[2]), Encoding(p[3..]), Encoding(q));
    }
  }

  lemma AllBytesConcat(p: seq<nat>, q: seq<nat>)
    requires AllBytes(p) && AllBytes(q)
    ensures AllBytes(p + q)
  {
    forall k | 0 <= k < |p + q|
      ensures (p + q)[k] <= 0xFF
    {
      if k < |p| {
        assert (p + q)[k] == p[k];
      } else {
        assert (p + q)[k] == q[k - |p|];
      }
    }
  }

  /** One step of the definition, for a sequence of at least three units. */
  lemma EncodingFront(s: seq<nat>)
    requires AllBytes(s) && |s| >= 3
    ensures AllBytes(s[3..]) && Encoding(s) == FullQuantum(s[0], s[1], s[2]) + Encoding(s[3..])
  {
  }

  /** The number of padding characters that ends the encoding of n units. */
  function PadCount(n: nat): (p: nat)
  {
    (3 - n % 3) % 3
  }

  /** A character of Table 1. */
  predicate IsAlphabetChar(c: char)
  {
    SextetOf(c) >= 0
  }

  /** The characters of Table 1 are exactly those of the encoder's table. */
  lemma AlphabetChars(c: char)
    ensures IsAlphabetChar(c) <==> c in Base64Chars
  {
    if IsAlphabetChar(c) {
      var k := SextetOf(c);
      TableIsAlphabet(k);
      assert Char(k) == c;
      assert Base64Chars[k] == c;
    }
    if c in Base64Chars {
      var k :| 0 <= k < |Base64Chars| && Base64Chars[k] == c;
      TableIsAlphabet(k);
      CharInverse(k);
    }
  }

  /** The last `pads` characters of r are padding, and only they; every
      other character is from Table 1. */
  predicate Shaped(r: string, pads: nat)
  {
    && pads <= |r|
    && forall i :: 0 <= i < |r| ==>
         && (r[i] == Pad <==> i >= |r| - pads)
         && (r[i] == Pad || IsAlphabetChar(r[i]))
  }

  lemma FullQuantumShape(a: nat, b: nat, c: nat)
    requires a <= 0xFF && b <= 0xFF && c <= 0xFF
    ensures Shaped(FullQuantum(a, b, c), 0)
  {
    FullGroupFields(a, b, c);
    CharInverse(a / 4);
    CharInverse((a * 16 + b / 16) % 64);
    CharInverse((b * 4 + c / 64) % 64);
    CharInverse(c % 64);
  }

  lemma TwoUnitShape(a: nat, b: nat)
    requires a <= 0xFF && b <= 0xFF
    ensures Shaped(TwoUnitQuantum(a, b), 1)
  {
    TwoUnitFields(a, b);
    CharInverse(a / 4);
    CharInverse((a * 16 + b / 16) % 64);
    CharInverse((b * 4) % 64);
  }

  lemma OneUnitShape(a: nat)
    requires a <= 0xFF
    ensures Shaped(OneUnitQuantum(a), 2)
  {
    OneUnitFields(a);
    CharInverse(a / 4);
    CharInverse((a * 16) % 64);
  }

  lemma ShapedConcat(q: string, rest: string, pads: nat)
    requires Shaped(q, 0) && Shaped(rest, pads)
    ensures Shaped(q + rest, pads)
  {
    var r := q + rest;
    forall i | 0 <= i < |r|
      ensures (r[i] == Pad <==> i >= |r| - pads) && (r[i] == Pad || IsAlphabetChar(r[i]))
    {
      if i < |q| {
        assert r[i] == q[i];
      } else {
        assert r[i] == rest[i - |q|];
      }
    }
  }

  lemma ShapeBase(s: seq<nat>)
    requires AllBytes(s) && |s| < 3
    ensures Shaped(Encoding(s), PadCount(|s|))
  {
    if |s| == 1 {
      EncodingOfOne(s);
      OneUnitShape(s[0]);
    } else if |s| == 2 {
      EncodingOfTwo(s);
      TwoUnitShape(s[0], s[1]);
    }
  }

  lemma EncodingOfOne(s: seq<nat>)
    requires AllBytes(s) && |s| == 1
    ensures s[0] <= 0xFF && Encoding(s) == OneUnitQuantum(s[0]) && PadCount(|s|) == 2
  {
  }

  lemma EncodingOfTwo(s: seq<nat>)
    requires AllBytes(s) && |s| == 2
    ensures s[0] <= 0xFF && s[1] <= 0xFF && Encoding(s) == TwoUnitQuantum(s[0], s[1]) && PadCount(|s|) == 1
  {
  }

  lemma ShapeStep(s: seq<nat>)
    requires AllBytes(s) && |s| >= 3 && AllBytes(s[3..])
    requires Shaped(Encoding(s[3..]), PadCount(|s[3..]|))
    ensures Shaped(Encoding(s), PadCount(|s|))
  {
    PadCountStep(|s|);
    FullQuantumShape(s[0], s[1], s[2]);
    EncodingFront(s);
    ShapedConcat(FullQuantum(s[0], s[1], s[2]), Encoding(s[3..]), PadCount(|s|));
  }

  lemma PadCountStep(n: nat)
    requires n >= 3
    ensures PadCount(n - 3) == PadCount(n)
  {
  }

  /** Every character of an encoding is a character of Table 1 or the
      padding character; padding fills exactly the last PadCount positions,
      so no '=' appears when the length is a multiple of 3, "==" ends it when
      one unit is left over and a single '=' when two are. */
  lemma {:induction false} EncodingShape(s: seq<nat>)
    requires AllBytes(s)
    ensures Shaped(Encoding(s), PadCount(|s|))
  {
    if |s| < 3 {
      ShapeBase(s);
    } else {
      EncodingShape(s[3..]);
      ShapeStep(s);
    }
  }

  // ---------------------------------------------------------------------
  // The inverse: decoding a well-formed encoding. Each group of four
  // characters gives back 3, 2 or 1 units, as it carries no, one or two
  // padding characters.
  // ---------------------------------------------------------------------

  function DecodeQuantum(t: string): (bytes: seq<int>)
    requires |t| == 4
  {
    var s0, s1, s2, s3 := SextetOf(t[0]), SextetOf(t[1]), SextetOf(t[2]), SextetOf(t[3]);
    if t[2] == Pad then [s0 * 4 + s1 / 16]
    else if t[3] == Pad then [s0 * 4 + s1 / 16, (s1 % 16) * 16 + s2 / 4]
    else [s0 * 4 + s1 / 16, (s1 % 16) * 16 + s2 / 4, (s2 % 4) * 64 + s3]
  }

  function Decoding(t: string): (bytes: seq<int>)
    requires |t| % 4 == 0
    decreases |t|
  {
    if |t| == 0 then [] else DecodeQuantum(t[..4]) + Decoding(t[4..])
  }

  lemma FullQuantumRoundTrip(a: nat, b: nat, c: nat)
    requires a <= 0xFF && b <= 0xFF && c <= 0xFF
    ensures DecodeQuantum(FullQuantum(a, b, c)) == [a, b, c]
  {
    FullGroupFields(a, b, c);
    CharInverse(a / 4);
    CharInverse((a * 16 + b / 16) % 64);
    CharInverse((b * 4 + c / 64) % 64);
    CharInverse(c % 64);
    FullFieldsRecompose(a, b, c);
  }

  /** The decoder's arithmetic on the four fields gives back the three units. */
  lemma FullFieldsRecompose(a: nat, b: nat, c: nat)
    requires a <= 0xFF && b <= 0xFF && c <= 0xFF
    ensures var s0, s1, s2, s3 := a / 4, (a * 16 + b / 16) % 64, (b * 4 + c / 64) % 64, c % 64;
      s0 * 4 + s1 / 16 == a && (s1 % 16) * 16 + s2 / 4 == b && (s2 % 4) * 64 + s3 == c
  {
    var s1, s2 := (a * 16 + b / 16) % 64, (b * 4 + c / 64) % 64;
    DivModUnique(a * 16 + b / 16, 64, a / 4, (a % 4) * 16 + b / 16);
    DivModUnique(b * 4 + c / 64, 64, b / 16, (b % 16) * 4 + c / 64);
    DivModUnique(s1, 16, a % 4, b / 16);
    DivModUnique(s2, 4, b % 16, c / 64);
  }

  lemma TwoUnitRoundTrip(a: nat, b: nat)
    requires a <= 0xFF && b <= 0xFF
    ensures DecodeQuantum(TwoUnitQuantum(a, b)) == [a, b]
  {
    TwoUnitFields(a, b);
    CharInverse(a / 4);
    CharInverse((a * 16 + b / 16) % 64);
    CharInverse((b * 4) % 64);
    TwoFieldsRecompose(a, b);
  }

  lemma TwoFieldsRecompose(a: nat, b: nat)
    requires a <= 0xFF && b <= 0xFF
    ensures var s0, s1, s2 := a / 4, (a * 16 + b / 16) % 64, (b * 4) % 64;
      s0 * 4 + s1 / 16 == a && (s1 % 16) * 16 + s2 / 4 == b
  {
    var s1, s2 := (a * 16 + b / 16) % 64, (b * 4) % 64;
    DivModUnique(a * 16 + b / 16, 64, a / 4, (a % 4) * 16 + b / 16);
    DivModUnique(b * 4, 64, b / 16, (b % 16) * 4);
    DivModUnique(s1, 16, a % 4, b / 16);
    DivModUnique(s2, 4, b % 16, 0);
  }

  lemma OneUnitRoundTrip(a: nat)
    requires a <= 0xFF
    ensures DecodeQuantum(OneUnitQuantum(a)) == [a]
  {
    OneUnitFields(a);
    CharInverse(a / 4);
    CharInverse((a * 16) % 64);
    DivModUnique(a * 16, 64, a / 4, (a % 4) * 16);
    DivModUnique((a * 16) % 64, 16, a % 4, 0);
  }

  lemma DecodeBase(s: seq<nat>)
    requires AllBytes(s) && |s| < 3
    ensures Decoding(Encoding(s)) == s
  {
    var r := Encoding(s);
    if |s| == 1 {
      assert r == OneUnitQuantum(s[0]);
      OneUnitRoundTrip(s[0]);
      assert r[..4] == r && r[4..] == [];
    } else if |s| == 2 {
      assert r == TwoUnitQuantum(s[0], s[1]);
      TwoUnitRoundTrip(s[0], s[1]);
      assert r[..4] == r && r[4..] == [];
      assert s == [s[0], s[1]];
    }
  }

  lemma DecodeStep(s: seq<nat>)
    requires AllBytes(s) && |s| >= 3 && Decoding(Encoding(s[3..])) == s[3..]
    ensures Decoding(Encoding(s)) == s
  {
    EncodingFront(s);
    FullQuantumRoundTrip(s[0], s[1], s[2]);
    DecodingFront(FullQuantum(s[0], s[1], s[2]), Encoding(s[3..]));
    FrontSplit(s);
  }

  lemma DecodingFront(q: string, rest: string)
    requires |q| == 4 && |rest| % 4 == 0
    ensures Decoding(q + rest) == DecodeQuantum(q) + Decoding(rest)
  {
    assert (q + rest)[..4] == q && (q + rest)[4..] == rest;
  }

  lemma FrontSplit(s: seq<nat>)
    requires |s| >= 3
    ensures s == [s[0], s[1], s[2]] + s[3..]
  {
  }

  /** Decoding undoes encoding: no information is lost (section 4 of
      RFC 4648). */
  lemma {:induction false} DecodeEncode(s: seq<nat>)
    requires AllBytes(s)
    ensures Decoding(Encoding(s)) == s
  {
    if |s| < 3 {
      DecodeBase(s);
    } else {
      DecodeEncode(s[3..]);
      DecodeStep(s);
    }
  }

  // ---------------------------------------------------------------------
  // Failure: the encoder stops at the first unit above 0xFF, after it has
  // already appended the output of the groups before it.
  // ---------------------------------------------------------------------

  /** The index of the first unit that does not fit in 8 bits. */
  function FirstNonByte(s: seq<nat>): (f: nat)
    requires !AllBytes(s)
    ensures f < |s| && s[f] > 0xFF
    ensures forall k :: 0 <= k < f ==> s[k] <= 0xFF
  {
    if s[0] > 0xFF then 0 else FirstNonByte(s[1..]) + 1
  }

  /** What the encoder has appended when it fails: the encoding of every
      complete group before the group of the first offending unit and, when
      that unit is the second of a two-unit tail, the first character of the
      tail, which is written before the second unit is checked. */
  function EncodedBeforeFailure(s: seq<nat>): (r: string)
    requires !AllBytes(s)
  {
    var f := FirstNonByte(s);
    var g := f - f % 3;
    assert AllBytes(s[..g]);
    Encoding(s[..g]) + (if f == g + 1 && g + 2 == |s| then [Char(s[g] / 4)] else [])
  }

  /** The partial output on failure is never more than the full output would
      have been, and it is a prefix of the encoding of the units before the
      offending one, so it holds no padding. */
  lemma EncodedBeforeFailureBound(s: seq<nat>)
    requires !AllBytes(s)
    ensures |EncodedBeforeFailure(s)| < EncodedLength(|s|)
    ensures Pad !in EncodedBeforeFailure(s)
  {
    var f := FirstNonByte(s);
    var g := f - f % 3;
    var prefix := s[..g];
    assert AllBytes(prefix);
    DivModUnique(g, 3, f / 3, 0);
    DivModUnique(g + 2, 3, f / 3, 2);
    assert EncodedLength(g) == 4 * (f / 3);
    assert (|s| + 2) / 3 >= (g + 3) / 3 == f / 3 + 1;
    EncodingShape(prefix);
    assert PadCount(g) == 0;
    assert Pad !in Encoding(prefix);
    if f == g + 1 && g + 2 == |s| {
      CharInverse(s[g] / 4);
    }
  }

  /** The string builder the encoder writes into: a fixed capacity set when
      it is created and the characters appended so far. */
  class StringBuilder {
    const capacity: nat
    var chars: string

    constructor (capacity: nat)
      ensures this.capacity == capacity && chars == []
    {
      this.capacity := capacity;
      chars := [];
    }

    method AppendCharacter(c: char)
      requires |chars| < capacity
      modifies this
      ensures chars == old(chars) + [c]
    {
      chars := chars + [c];
    }
  }

  /** Appends the base64 encoding of str to builder. Returns false, with the
      output of the groups already encoded left in the builder, as soon as a
      unit does not fit in 8 bits. */
  method Base64Encode(str: seq<nat>, builder: StringBuilder) returns (ok: bool)
    requires |builder.chars| + EncodedLength(|str|) <= builder.capacity
    modifies builder
    ensures ok == AllBytes(str)
    ensures ok ==> builder.chars == old(builder.chars) + Encoding(str)
    ensures !ok ==> builder.chars == old(builder.chars) + EncodedBeforeFailure(str)
  {
    var strLength := |str|;
    var i := 0;
    while strLength - i >= 3
      invariant 0 <= i <= strLength && i % 3 == 0
      invariant AllBytes(str[..i])
      invariant builder.chars == old(builder.chars) + Encoding(str[..i])
    {
      if str[i] > 0xFF || str[i + 1] > 0xFF || str[i + 2] > 0xFF {
        FailsBefore(str, i);
        return false;
      }
      assert (i + 3) % 3 == 0;
      EncodedLengthSplit(i, strLength);
      ghost var before := builder.chars;
      var aaab, bbcc, cddd := str[i], str[i + 1], str[i + 2];
      var aaa := aaab / 4;
      var bbb := (aaab * 16 + bbcc / 16) % 64;
      var ccc := (bbcc * 4 + cddd / 64) % 64;
      var ddd := cddd % 64;
      AppendGroup(str[..i], aaab, bbcc, cddd);
      TakeNext3(str, i);
      builder.AppendCharacter(Base64Chars[aaa]);
      builder.AppendCharacter(Base64Chars[bbb]);
      builder.AppendCharacter(Base64Chars[ccc]);
      builder.AppendCharacter(Base64Chars[ddd]);
      AppendFour(before, Base64Chars[aaa], Base64Chars[bbb], Base64Chars[ccc], Base64Chars[ddd]);
      AppendAssoc(old(builder.chars), Encoding(str[..i]), [Base64Chars[aaa], Base64Chars[bbb], Base64Chars[ccc], Base64Chars[ddd]]);
      i := i + 3;
    }

    EncodedLengthSplit(i, strLength);
    ok := EncodeTail(str, i, builder, old(builder.chars));
  }

  /** The part of the encoder after the last full group: at most two units
      remain, and the output so far is base followed by the encoding of
      the units before i. */
  method EncodeTail(str: seq<nat>, i: nat, builder: StringBuilder, ghost base: string) returns (ok: bool)
    requires i % 3 == 0 && i <= |str| <= i + 2 && AllBytes(str[..i])
    requires builder.chars == base + Encoding(str[..i])
    requires |builder.chars| + EncodedLength(|str| - i) <= builder.capacity
    modifies builder
    ensures ok == AllBytes(str)
    ensures ok ==> builder.chars == base + Encoding(str)
    ensures !ok ==> builder.chars == base + EncodedBeforeFailure(str)
  {
    var strLength := |str|;
    if i == strLength {
      assert str[..i] == str;
      return true;
    }

    if str[i] > 0xFF {
      FailsBefore(str, i);
      return false;
    }
    assert EncodedLength(strLength - i) == 4;
    ghost var before := builder.chars;
    var aaab := str[i];
    var aaa := aaab / 4;
    TableIsAlphabet(aaa);
    builder.AppendCharacter(Base64Chars[aaa]);

    if strLength - i == 1 {
      var b00 := (aaab * 16) % 64;
      LastOne(str, i);
      AppendOneUnit(str[..i], aaab);
      builder.AppendCharacter(Base64Chars[b00]);
      builder.AppendCharacter(Pad);
      builder.AppendCharacter(Pad);
      AppendFour(before, Base64Chars[aaa], Base64Chars[b00], Pad, Pad);
      AppendAssoc(base, Encoding(str[..i]), [Base64Chars[aaa], Base64Chars[b00], Pad, Pad]);
      return true;
    }

    // Two units are left.
    if str[i + 1] > 0xFF {
      FailsAfterFirst(str, i);
      AppendAssoc(base, Encoding(str[..i]), [Base64Chars[aaa]]);
      return false;
    }
    var bbcc := str[i + 1];
    var bbb := (aaab * 16 + bbcc / 16) % 64;
    var cc0 := (bbcc * 4) % 64;
    LastTwo(str, i);
    AppendTwoUnits(str[..i], aaab, bbcc);
    builder.AppendCharacter(Base64Chars[bbb]);
    builder.AppendCharacter(Base64Chars[cc0]);
    builder.AppendCharacter(Pad);
    AppendFour(before, Base64Chars[aaa], Base64Chars[bbb], Base64Chars[cc0], Pad);
    AppendAssoc(base, Encoding(str[..i]), [Base64Chars[aaa], Base64Chars[bbb], Base64Chars[cc0], Pad]);
    return true;
  }

  /** Four single-character appends add those four characters. */
  lemma AppendFour(s: string, a: char, b: char, c: char, d: char)
    ensures s + [a] + [b] + [c] + [d] == s + [a, b, c, d]
  {
  }

  /** The output of the groups before a group boundary and the output of
      the rest add up to the whole output. */
  lemma EncodedLengthSplit(i: nat, n: nat)
    requires i % 3 == 0 && i <= n
    ensures EncodedLength(i) + EncodedLength(n - i) == EncodedLength(n)
    ensures n - i >= 3 ==> EncodedLength(n - i) >= 4
  {
  }

  /** Appending to a concatenation is appending to its last part. */
  lemma AppendAssoc(a: string, b: string, c: string)
    ensures a + (b + c) == (a + b) + c
  {
  }

  /** Three units after i: the prefix grows by exactly those three. */
  lemma TakeNext3(s: seq<nat>, i: nat)
    requires i + 3 <= |s|
    ensures s[..i + 3] == s[..i] + [s[i], s[i + 1], s[i + 2]]
  {
  }

  /** Encoding is compositional at group boundaries, for a part whose
      encoding is already known. */
  lemma ConcatKnown(p: seq<nat>, g: seq<nat>, q: string)
    requires |p| % 3 == 0 && AllBytes(p) && AllBytes(g) && Encoding(g) == q
    ensures AllBytes(p + g) && Encoding(p + g) == Encoding(p) + q
  {
    EncodingConcat(p, g);
  }

  /** One more group of three bytes appends the four table characters the
      encoder computes with shifts and masks. */
  lemma AppendGroup(p: seq<nat>, a: nat, b: nat, c: nat)
    requires |p| % 3 == 0 && AllBytes(p) && a <= 0xFF && b <= 0xFF && c <= 0xFF
    ensures AllBytes(p + [a, b, c])
    ensures |Base64Chars| == 64
    ensures Encoding(p + [a, b, c]) == Encoding(p)
      + [Base64Chars[a / 4], Base64Chars[(a * 16 + b / 16) % 64],
         Base64Chars[(b * 4 + c / 64) % 64], Base64Chars[c % 64]]
  {
    EncodedGroup(a, b, c);
    ConcatKnown(p, [a, b, c], [Base64Chars[a / 4], Base64Chars[(a * 16 + b / 16) % 64],
                               Base64Chars[(b * 4 + c / 64) % 64], Base64Chars[c % 64]]);
  }

  /** The encoding of one group, written with the encoder's table lookups. */
  lemma EncodedGroup(a: nat, b: nat, c: nat)
    requires a <= 0xFF && b <= 0xFF && c <= 0xFF
    ensures AllBytes([a, b, c]) && |Base64Chars| == 64
    ensures Encoding([a, b, c]) == [Base64Chars[a / 4], Base64Chars[(a * 16 + b / 16) % 64],
                                    Base64Chars[(b * 4 + c / 64) % 64], Base64Chars[c % 64]]
  {
    var g := [a, b, c];
    assert g[0] == a && g[1] == b && g[2] == c;
    assert g[3..] == [];
    TableIsAlphabet(a / 4);
    TableIsAlphabet((a * 16 + b / 16) % 64);
    TableIsAlphabet((b * 4 + c / 64) % 64);
    TableIsAlphabet(c % 64);
    FullGroupFields(a, b, c);
  }

  /** The input ends with exactly one unit after i. */
  lemma LastOne(s: seq<nat>, i: nat)
    requires i + 1 == |s|
    ensures s == s[..i] + [s[i]]
  {
  }

  /** A final single byte appends two table characters and two pads. */
  lemma AppendOneUnit(p: seq<nat>, a: nat)
    requires |p| % 3 == 0 && AllBytes(p) && a <= 0xFF
    ensures AllBytes(p + [a])
    ensures |Base64Chars| == 64
    ensures Encoding(p + [a]) == Encoding(p) + [Base64Chars[a / 4], Base64Chars[(a * 16) % 64], Pad, Pad]
  {
    EncodedOneUnit(a);
    ConcatKnown(p, [a], [Base64Chars[a / 4], Base64Chars[(a * 16) % 64], Pad, Pad]);
  }

  lemma EncodedOneUnit(a: nat)
    requires a <= 0xFF
    ensures AllBytes([a]) && |Base64Chars| == 64
    ensures Encoding([a]) == [Base64Chars[a / 4], Base64Chars[(a * 16) % 64], Pad, Pad]
  {
    assert [a][0] == a;
    TableIsAlphabet(a / 4);
    TableIsAlphabet((a * 16) % 64);
    OneUnitFields(a);
  }

  /** The input ends with exactly two units after i. */
  lemma LastTwo(s: seq<nat>, i: nat)
    requires i + 2 == |s|
    ensures s == s[..i] + [s[i], s[i + 1]]
  {
  }

  /** A final pair of bytes appends three table characters and one pad. */
  lemma AppendTwoUnits(p: seq<nat>, a: nat, b: nat)
    requires |p| % 3 == 0 && AllBytes(p) && a <= 0xFF && b <= 0xFF
    ensures AllBytes(p + [a, b])
    ensures |Base64Chars| == 64
    ensures Encoding(p + [a, b]) == Encoding(p)
      + [Base64Chars[a / 4], Base64Chars[(a * 16 + b / 16) % 64], Base64Chars[(b * 4) % 64], Pad]
  {
    EncodedTwoUnits(a, b);
    ConcatKnown(p, [a, b], [Base64Chars[a / 4], Base64Chars[(a * 16 + b / 16) % 64], Base64Chars[(b * 4) % 64], Pad]);
  }

  lemma EncodedTwoUnits(a: nat, b: nat)
    requires a <= 0xFF && b <= 0xFF
    ensures AllBytes([a, b]) && |Base64Chars| == 64
    ensures Encoding([a, b]) == [Base64Chars[a / 4], Base64Chars[(a * 16 + b / 16) % 64], Base64Chars[(b * 4) % 64], Pad]
  {
    assert [a, b][0] == a && [a, b][1] == b;
    TableIsAlphabet(a / 4);
    TableIsAlphabet((a * 16 + b / 16) % 64);
    TableIsAlphabet((b * 4) % 64);
    TwoUnitFields(a, b);
  }

  /** When the units before the group at i are bytes and some unit of that
      group (or of the tail starting at i) is not, the first offending unit
      is in that group, so the output before failure is the encoding of the
      prefix up to i, plus the tail's first character in the one case the
      encoder writes it early. */
  lemma FailsInGroup(s: seq<nat>, i: nat)
    requires i % 3 == 0 && i < |s| && AllBytes(s[..i])
    requires exists j :: i <= j < i + 3 && j < |s| && s[j] > 0xFF
    ensures !AllBytes(s)
    ensures var f := FirstNonByte(s); i <= f < i + 3 && f - f % 3 == i
  {
    var j :| i <= j < i + 3 && j < |s| && s[j] > 0xFF;
    NonByteAt(s, j);
    BytesBefore(s, i);
    var f := FirstNonByte(s);
    DivModUnique(f, 3, i / 3, f - i);
  }

  /** The first unit that is not a byte comes no later than any such unit. */
  lemma NonByteAt(s: seq<nat>, j: nat)
    requires j < |s| && s[j] > 0xFF
    ensures !AllBytes(s) && FirstNonByte(s) <= j
  {
  }

  /** ... and no earlier than the end of a prefix made of bytes. */
  lemma BytesBefore(s: seq<nat>, i: nat)
    requires !AllBytes(s) && i <= |s| && AllBytes(s[..i])
    ensures i <= FirstNonByte(s)
  {
    var f := FirstNonByte(s);
    assert s[f] > 0xFF;
    assert forall k :: 0 <= k < i ==> s[k] <= 0xFF by {
      forall k | 0 <= k < i
        ensures s[k] <= 0xFF
      {
        assert s[..i][k] == s[k];
      }
    }
  }

  /** Failure at the first unit of the group at i, or anywhere in a full
      group: the output is exactly the encoding of the prefix before i. */
  lemma FailsBefore(s: seq<nat>, i: nat)
    requires i % 3 == 0 && i < |s| && AllBytes(s[..i])
    requires s[i] > 0xFF || (i + 3 <= |s| && (s[i + 1] > 0xFF || s[i + 2] > 0xFF))
    ensures !AllBytes(s)
    ensures EncodedBeforeFailure(s) == Encoding(s[..i])
  {
    var j := if s[i] > 0xFF then i else if s[i + 1] > 0xFF then i + 1 else i + 2;
    assert i <= j < i + 3 && j < |s| && s[j] > 0xFF;
    FailsInGroup(s, i);
  }

  /** Failure at the second unit of a two-unit tail: the encoder has already
      written the character for the first unit's high six bits. */
  lemma FailsAfterFirst(s: seq<nat>, i: nat)
    requires i % 3 == 0 && i + 2 == |s| && AllBytes(s[..i])
    requires s[i] <= 0xFF && s[i + 1] > 0xFF
    ensures !AllBytes(s)
    ensures |Base64Chars| == 64
    ensures EncodedBeforeFailure(s) == Encoding(s[..i]) + [Base64Chars[s[i] / 4]]
  {
    assert i <= i + 1 < i + 3 && s[i + 1] > 0xFF;
    FailsInGroup(s, i);
    assert FirstNonByte(s) != i;
    TableIsAlphabet(s[i] / 4);
  }
}
