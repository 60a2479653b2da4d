/**
 * The encoder's unit-test vectors (unittests/VMRuntime/Base64UtilTest.cpp),
 * proved about the reference encoding that Base64Util.Base64Encode appends,
 * and the partial output the encoder leaves on the failing inputs.
 */
module Base64Vectors {
  import opened Base64Util

  /** A one-unit input spelled out: its two characters, then two pads. */
  lemma SpellOne(a: nat, w: char, x: char)
    requires a <= 0xFF && Char(a / 4) == w && Char((a * 16) % 64) == x
    ensures AllBytes([a]) && Encoding([a]) == [w, x, Pad, Pad]
  {
    EncodingOfOne([a]);
    OneUnitFields(a);
  }

  /** A two-unit input spelled out: three characters, then one pad. */
  lemma SpellTwo(a: nat, b: nat, w: char, x: char, y: char)
    requires a <= 0xFF && b <= 0xFF
    requires Char(a / 4) == w && Char((a * 16 + b / 16) % 64) == x && Char((b * 4) % 64) == y
    ensures AllBytes([a, b]) && Encoding([a, b]) == [w, x, y, Pad]
  {
    EncodingOfTwo([a, b]);
    TwoUnitFields(a, b);
  }

  /** A full group spelled out: four characters. */
  lemma SpellGroup(a: nat, b: nat, c: nat, w: char, x: char, y: char, z: char)
    requires a <= 0xFF && b <= 0xFF && c <= 0xFF
    requires Char(a / 4) == w && Char((a * 16 + b / 16) % 64) == x
    requires Char((b * 4 + c / 64) % 64) == y && Char(c % 64) == z
    ensures AllBytes([a, b, c]) && Encoding([a, b, c]) == [w, x, y, z]
  {
    EncodingFront([a, b, c]);
    assert [a, b, c][3..] == [];
    FullGroupFields(a, b, c);
  }

  /** A group in front of a known encoding. */
  lemma Then(g: seq<nat>, rest: seq<nat>, q: string, r: string)
    requires |g| == 3 && AllBytes(g) && AllBytes(rest) && Encoding(g) == q && Encoding(rest) == r
    ensures AllBytes(g + rest) && Encoding(g + rest) == q + r
  {
    EncodingConcat(g, rest);
  }

  lemma EncodesEmpty()
    ensures Encoding([]) == ""
  {
  }

  lemma EncodesOneUnit()
    ensures Encoding([97]) == "YQ==" && Encoding([1]) == "AQ=="
  {
    SpellOne(97, 'Y', 'Q');
    SpellOne(1, 'A', 'Q');
  }

  lemma EncodesTwoUnits()
    ensures Encoding([97, 98]) == "YWI=" && Encoding([1, 0]) == "AQA="
  {
    SpellTwo(97, 98, 'Y', 'W', 'I');
    SpellTwo(1, 0, 'A', 'Q', 'A');
  }

  lemma EncodesOneGroup()
    ensures Encoding([97, 98, 99]) == "YWJj"
  {
    SpellGroup(97, 98, 99, 'Y', 'W', 'J', 'j');
  }

  lemma EncodesZeros()
    ensures Encoding([0, 0, 0]) == "AAAA"
  {
    SpellGroup(0, 0, 0, 'A', 'A', 'A', 'A');
  }

  lemma EncodesOneThenZeros()
    ensures Encoding([1, 0, 0]) == "AQAA"
  {
    SpellGroup(1, 0, 0, 'A', 'Q', 'A', 'A');
  }

  lemma EncodesGroupThenOne()
    ensures Encoding([97, 98, 99, 100]) == "YWJjZA=="
  {
    SpellGroup(97, 98, 99, 'Y', 'W', 'J', 'j');
    SpellOne(100, 'Z', 'A');
    Then([97, 98, 99], [100], "YWJj", "ZA==");
    assert [97, 98, 99] + [100] == [97, 98, 99, 100];
  }

  lemma EncodesGroupThenTwo()
    ensures Encoding([60, 62, 63, 115, 117]) == "PD4/c3U="
  {
    SpellGroup(60, 62, 63, 'P', 'D', '4', '/');
    SpellTwo(115, 117, 'c', '3', 'U');
    Then([60, 62, 63], [115, 117], "PD4/", "c3U=");
    assert [60, 62, 63] + [115, 117] == [60, 62, 63, 115, 117];
  }

  lemma EncodesGroupThenTwoLetters()
    ensures Encoding([97, 98, 99, 100, 101]) == "YWJjZGU="
  {
    SpellGroup(97, 98, 99, 'Y', 'W', 'J', 'j');
    SpellTwo(100, 101, 'Z', 'G', 'U');
    Then([97, 98, 99], [100, 101], "YWJj", "ZGU=");
    assert [97, 98, 99] + [100, 101] == [97, 98, 99, 100, 101];
  }

  lemma EncodesTwoGroups()
    ensures Encoding([97, 98, 99, 100, 101, 102]) == "YWJjZGVm"
  {
    SpellGroup(97, 98, 99, 'Y', 'W', 'J', 'j');
    SpellGroup(100, 101, 102, 'Z', 'G', 'V', 'm');
    Then([97, 98, 99], [100, 101, 102], "YWJj", "ZGVm");
    assert [97, 98, 99] + [100, 101, 102] == [97, 98, 99, 100, 101, 102];
  }

  /** U+1F600 is the surrogate pair 0xD83D 0xDE00: nothing is written. */
  lemma FailsOnSurrogates()
    ensures !AllBytes([0xD83D, 0xDE00]) && EncodedBeforeFailure([0xD83D, 0xDE00]) == ""
  {
    FailsBefore([0xD83D, 0xDE00], 0);
  }

  /** A surrogate inside the first group: the group is never written. */
  lemma FailsInFirstGroup()
    ensures !AllBytes([97, 0xD83D, 0xDE00]) && EncodedBeforeFailure([97, 0xD83D, 0xDE00]) == ""
    ensures !AllBytes([97, 98, 0xD83D, 0xDE00]) && EncodedBeforeFailure([97, 98, 0xD83D, 0xDE00]) == ""
    ensures !AllBytes([0xD83D, 0xDE00, 120, 121, 122])
    ensures EncodedBeforeFailure([0xD83D, 0xDE00, 120, 121, 122]) == ""
  {
    FailsBefore([97, 0xD83D, 0xDE00], 0);
    FailsBefore([97, 98, 0xD83D, 0xDE00], 0);
    FailsBefore([0xD83D, 0xDE00, 120, 121, 122], 0);
  }

  /** A surrogate starting the tail after a full group. */
  lemma FailsOnTail()
    ensures !AllBytes([97, 98, 99, 0xD83D, 0xDE00])
    ensures EncodedBeforeFailure([97, 98, 99, 0xD83D, 0xDE00]) == "YWJj"
  {
    var s := [97, 98, 99, 0xD83D, 0xDE00];
    assert s[..3] == [97, 98, 99];
    SpellGroup(97, 98, 99, 'Y', 'W', 'J', 'j');
    FailsBefore(s, 3);
  }

  /** The group before the offending unit stays in the builder. */
  lemma FailsAfterGroup()
    ensures !AllBytes([97, 98, 99, 0xD83D, 0xDE00, 120, 121, 122])
    ensures EncodedBeforeFailure([97, 98, 99, 0xD83D, 0xDE00, 120, 121, 122]) == "YWJj"
  {
    var s := [97, 98, 99, 0xD83D, 0xDE00, 120, 121, 122];
    assert s[..3] == [97, 98, 99];
    SpellGroup(97, 98, 99, 'Y', 'W', 'J', 'j');
    FailsBefore(s, 3);
  }

  /** The tail's first character is written before its second unit is checked. */
  lemma FailsOnSecondOfTail()
    ensures !AllBytes([97, 0xD83D]) && EncodedBeforeFailure([97, 0xD83D]) == "Y"
  {
    FailsAfterFirst([97, 0xD83D], 0);
    assert [97, 0xD83D][..0] == [];
    TableIsAlphabet(24);
  }
}
