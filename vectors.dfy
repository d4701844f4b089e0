/** The parametrised cases of the engineering functions' tests, each stated
    as a fact about the model. */
module Vectors {
  import opened Digits
  import opened Cells
  import opened Radix
  import opened Bitwise

  // The shortest digits of the unsigned patterns the cases use. Each is
  // its own lemma: the solver evaluates one such literal cheaply, but not
  // several side by side.

  lemma BinaryLargest()
    ensures ToDigits(511, 2) == "111111111"
  {
  }

  lemma BinarySignBit()
    ensures ToDigits(512, 2) == "1000000000"
  {
  }

  lemma BinaryAllOnes()
    ensures ToDigits(1023, 2) == "1111111111"
  {
  }

  lemma BinaryMinusTwo()
    ensures ToDigits(1022, 2) == "1111111110"
  {
  }

  lemma OctalOf511()
    ensures ToDigits(511, 8) == "777"
  {
  }

  lemma OctalLargest()
    ensures ToDigits(536870911, 8) == "3777777777"
  {
  }

  lemma OctalSignBit()
    ensures ToDigits(536870912, 8) == "4000000000"
  {
  }

  lemma OctalAllOnes()
    ensures ToDigits(1073741823, 8) == "7777777777"
  {
  }

  lemma OctalMinus512()
    ensures ToDigits(1073741312, 8) == "7777777000"
  {
  }

  lemma OctalMinusTwo()
    ensures ToDigits(1073741822, 8) == "7777777776"
  {
  }

  lemma HexOf511()
    ensures ToDigits(511, 16) == "1FF"
  {
  }

  lemma HexLargest()
    ensures ToDigits(549755813887, 16) == "7FFFFFFFFF"
  {
  }

  lemma HexSignBit()
    ensures ToDigits(549755813888, 16) == "8000000000"
  {
  }

  lemma HexNines()
    ensures ToDigits(659706976665, 16) == "9999999999"
  {
  }

  lemma HexF1()
    ensures ToDigits(1035087118367, 16) == "F10000001F"
  {
  }

  lemma HexMinus512()
    ensures ToDigits(1099511627264, 16) == "FFFFFFFE00"
  {
  }

  lemma HexMinusTwo()
    ensures ToDigits(1099511627774, 16) == "FFFFFFFFFE"
  {
  }

  lemma HexAllOnes()
    ensures ToDigits(1099511627775, 16) == "FFFFFFFFFF"
  {
  }

  /** The shortest digits of `u` decode to the two's-complement reading
      of `u`. */
  lemma DecodesAs(s: string, b: Base, u: nat)
    requires u < Modulus(b) && ToDigits(u, b) == s && |s| <= MaxDigits
    ensures Decode(Text(s), b) == Ok(Signed(u, b))
  {
    ParseToDigits(u, b);
    UnsignedInjective(DecodeDigits(s, b).value, Signed(u, b), b);
  }

  /** A conversion decodes and then encodes. */
  lemma ConvertsAs(s: string, baseIn: Base, baseOut: Base, n: int, t: string)
    requires s != []
    requires Decode(Text(s), baseIn) == Ok(n) && Encode(Int(n), baseOut, None) == Ok(t)
    ensures Convert(Text(s), baseIn, baseOut) == Ok(t)
  {
    ConvertFails(Text(s), baseIn, baseOut);
  }

  // _base2dec

  lemma DecodeZeroCases()
    ensures Decode(Text("0"), 2) == Ok(0)
    ensures Decode(Int(0), 8) == Decode(Int(0), 16) == Ok(0)
    ensures Decode(Absent, 2) == Decode(Absent, 8) == Decode(Absent, 16) == Ok(0)
  {
    SizeMask();
    DecodesAs("0", 2, 0);
    DecodesAs("0", 8, 0);
    DecodesAs("0", 16, 0);
  }

  lemma DecodeBinaryLargest()
    ensures Decode(Text("111111111"), 2) == Ok(511)
  {
    SizeMask();
    BinaryLargest();
    DecodesAs("111111111", 2, 511);
  }

  lemma DecodeBinarySignBit()
    ensures Decode(Text("1000000000"), 2) == Ok(-512)
  {
    SizeMask();
    BinarySignBit();
    DecodesAs("1000000000", 2, 512);
  }

  lemma DecodeOctalAllOnes()
    ensures Decode(Text("7777777777"), 8) == Ok(-1)
  {
    SizeMask();
    OctalAllOnes();
    DecodesAs("7777777777", 8, 1073741823);
  }

  lemma DecodeHexNines()
    ensures Decode(Text("9999999999"), 16) == Ok(-439804651111)
  {
    SizeMask();
    HexNines();
    DecodesAs("9999999999", 16, 659706976665);
  }

  lemma DecodeHexLowerCase()
    ensures Decode(Text("f10000001f"), 16) == Ok(-64424509409)
  {
    SizeMask();
    HexF1();
    DecodeIgnoresCase("f10000001f", "F10000001F", 16);
    DecodesAs("F10000001F", 16, 1035087118367);
  }

  lemma DecodeHexMinusTwo()
    ensures Decode(Text("fffffffffe"), 16) == Ok(-2)
  {
    SizeMask();
    HexMinusTwo();
    DecodeIgnoresCase("fffffffffe", "FFFFFFFFFE", 16);
    DecodesAs("FFFFFFFFFE", 16, 1099511627774);
  }

  lemma DecodeRejectCases()
    ensures Decode(Real, 2) == Decode(Real, 8) == Fail(NumError)
    ensures Decode(Text("3.5"), 16) == Fail(NumError)
    ensures Decode(Text("11111111111"), 8) == Decode(Text("11111111111"), 16) == Fail(NumError)
    ensures Decode(Int(-1), 2) == Decode(Int(-1), 8) == Decode(Int(-1), 16) == Fail(NumError)
    ensures Decode(Text("xyzzy"), 2) == Fail(NumError)
    ensures Decode(Text("a"), 8) == Fail(NumError)
    ensures Decode(Bool(true), 2) == Decode(Bool(true), 8) == Decode(Bool(true), 16) == Fail(ValueError)
  {
    assert !IsDigit("3.5"[1], 16);
    assert !IsDigit("xyzzy"[0], 2);
    assert !IsDigit("a"[0], 8);
  }

  /** The cases of the `_base2dec` test that read a digit string as a
      number other than 0. */
  lemma DecodeCases()
    ensures Decode(Text("111111111"), 2) == Ok(511)
    ensures Decode(Text("7777777777"), 8) == Ok(-1)
    ensures Decode(Text("9999999999"), 16) == Ok(-439804651111)
    ensures Decode(Text("1000000000"), 2) == Ok(-512)
    ensures Decode(Text("f10000001f"), 16) == Ok(-64424509409)
  {
    DecodeBinaryLargest();
    DecodeOctalAllOnes();
    DecodeHexNines();
    DecodeBinarySignBit();
    DecodeHexLowerCase();
  }

  // _dec2base

  lemma EncodeOutOfRangeCases()
    ensures Encode(Int(512), 2, None) == Fail(NumError)
    ensures Encode(Int(536870912), 8, None) == Fail(NumError)
    ensures Encode(Int(549755813888), 16, None) == Fail(NumError)
    ensures Encode(Int(-513), 2, None) == Fail(NumError)
    ensures Encode(Int(-536870913), 8, None) == Fail(NumError)
    ensures Encode(Int(-549755813889), 16, None) == Fail(NumError)
  {
    SizeMask();
  }

  lemma EncodeLargestBinary()
    ensures Encode(Int(511), 2, None) == Ok("111111111")
  {
    SizeMask();
    BinaryLargest();
    EncodeShortest(511, 2);
  }

  lemma EncodeLargestOctal()
    ensures Encode(Int(536870911), 8, None) == Ok("3777777777")
  {
    SizeMask();
    OctalLargest();
    EncodeShortest(536870911, 8);
  }

  lemma EncodeLargestHex()
    ensures Encode(Int(549755813887), 16, None) == Ok("7FFFFFFFFF")
  {
    SizeMask();
    HexLargest();
    EncodeShortest(549755813887, 16);
  }

  lemma EncodeMostNegativeBinary()
    ensures Encode(Int(-512), 2, None) == Ok("1000000000")
  {
    SizeMask();
    BinarySignBit();
    EncodeShortest(-512, 2);
  }

  lemma EncodeMostNegativeOctal()
    ensures Encode(Int(-536870912), 8, None) == Ok("4000000000")
  {
    SizeMask();
    OctalSignBit();
    EncodeShortest(-536870912, 8);
  }

  lemma EncodeMostNegativeHex()
    ensures Encode(Int(-549755813888), 16, None) == Ok("8000000000")
  {
    SizeMask();
    HexSignBit();
    EncodeShortest(-549755813888, 16);
  }

  lemma EncodeMinus512Octal()
    ensures Encode(Int(-512), 8, None) == Ok("7777777000")
  {
    SizeMask();
    OctalMinus512();
    EncodeShortest(-512, 8);
  }

  lemma EncodeMinus512Hex()
    ensures Encode(Int(-512), 16, None) == Ok("FFFFFFFE00")
  {
    SizeMask();
    HexMinus512();
    EncodeShortest(-512, 16);
  }

  lemma EncodeMinusOneBinary()
    ensures Encode(Int(-1), 2, None) == Ok("1111111111")
  {
    SizeMask();
    BinaryAllOnes();
    EncodeShortest(-1, 2);
  }

  lemma EncodeMinusOneHex()
    ensures Encode(Int(-1), 16, None) == Ok("FFFFFFFFFF")
  {
    SizeMask();
    HexAllOnes();
    EncodeShortest(-1, 16);
  }

  lemma EncodeMinusTwoBinary()
    ensures Encode(Int(-2), 2, None) == Ok("1111111110")
  {
    SizeMask();
    BinaryMinusTwo();
    EncodeShortest(-2, 2);
  }

  lemma EncodeMinusTwoOctal()
    ensures Encode(Int(-2), 8, None) == Ok("7777777776")
  {
    SizeMask();
    OctalMinusTwo();
    EncodeShortest(-2, 8);
  }

  lemma Encode511Octal()
    ensures Encode(Int(511), 8, None) == Ok("777")
  {
    SizeMask();
    OctalOf511();
    EncodeShortest(511, 8);
  }

  lemma Encode511Hex()
    ensures Encode(Int(511), 16, None) == Ok("1FF")
  {
    SizeMask();
    HexOf511();
    EncodeShortest(511, 16);
  }

  lemma EncodeRejectCases()
    ensures Encode(Text("xyzzy"), 2, None) == Encode(Text("xyzzy"), 8, None) == Fail(ValueError)
    ensures Encode(Text("xyzzy"), 16, None) == Fail(ValueError)
    ensures Encode(Bool(true), 2, None) == Encode(Bool(true), 8, None) == Fail(ValueError)
    ensures Encode(Bool(true), 16, None) == Fail(ValueError)
  {
  }

  /** The cases of the `_dec2base` test that write both ends of the range. */
  lemma EncodeCases()
    ensures Encode(Int(511), 2, None) == Ok("111111111")
    ensures Encode(Int(536870911), 8, None) == Ok("3777777777")
    ensures Encode(Int(549755813887), 16, None) == Ok("7FFFFFFFFF")
    ensures Encode(Int(-512), 2, None) == Ok("1000000000")
    ensures Encode(Int(-536870912), 8, None) == Ok("4000000000")
    ensures Encode(Int(-549755813888), 16, None) == Ok("8000000000")
  {
    EncodeLargestBinary();
    EncodeLargestOctal();
    EncodeLargestHex();
    EncodeMostNegativeBinary();
    EncodeMostNegativeOctal();
    EncodeMostNegativeHex();
  }

  /** The cases with `places`. */
  lemma PlacesCases()
    ensures Encode(Int(100), 2, Some(1)) == Fail(NumError)
    ensures Encode(Int(100), 8, Some(1)) == Fail(NumError)
    ensures Encode(Int(100), 16, Some(1)) == Fail(NumError)
    ensures Encode(Absent, 2, Some(3)) == Ok("000")
    ensures Encode(Absent, 8, Some(0)) == Fail(NumError)
    ensures Encode(Absent, 16, Some(1)) == Ok("0")
  {
    SizeMask();
    assert Pad("0", 3) == "000";
  }

  // _base2base

  lemma ConvertBinaryToOctal()
    ensures Convert(Text("111111111"), 2, 8) == Ok("777")
  {
    DecodeBinaryLargest();
    Encode511Octal();
    ConvertsAs("111111111", 2, 8, 511, "777");
  }

  lemma ConvertBinaryToHex()
    ensures Convert(Text("111111111"), 2, 16) == Ok("1FF")
  {
    DecodeBinaryLargest();
    Encode511Hex();
    ConvertsAs("111111111", 2, 16, 511, "1FF");
  }

  lemma ConvertOctalToBinary()
    ensures Convert(Text("7777777777"), 8, 2) == Ok("1111111111")
  {
    DecodeOctalAllOnes();
    EncodeMinusOneBinary();
    ConvertsAs("7777777777", 8, 2, -1, "1111111111");
  }

  lemma ConvertOctalToHex()
    ensures Convert(Text("7777777777"), 8, 16) == Ok("FFFFFFFFFF")
  {
    DecodeOctalAllOnes();
    EncodeMinusOneHex();
    ConvertsAs("7777777777", 8, 16, -1, "FFFFFFFFFF");
  }

  lemma ConvertSignBitToOctal()
    ensures Convert(Text("1000000000"), 2, 8) == Ok("7777777000")
  {
    DecodeBinarySignBit();
    EncodeMinus512Octal();
    ConvertsAs("1000000000", 2, 8, -512, "7777777000");
  }

  lemma ConvertSignBitToHex()
    ensures Convert(Text("1000000000"), 2, 16) == Ok("FFFFFFFE00")
  {
    DecodeBinarySignBit();
    EncodeMinus512Hex();
    ConvertsAs("1000000000", 2, 16, -512, "FFFFFFFE00");
  }

  lemma ConvertHexToBinary()
    ensures Convert(Text("fffffffffe"), 16, 2) == Ok("1111111110")
  {
    DecodeHexMinusTwo();
    EncodeMinusTwoBinary();
    ConvertsAs("fffffffffe", 16, 2, -2, "1111111110");
  }

  lemma ConvertHexToOctal()
    ensures Convert(Text("fffffffffe"), 16, 8) == Ok("7777777776")
  {
    DecodeHexMinusTwo();
    EncodeMinusTwoOctal();
    ConvertsAs("fffffffffe", 16, 8, -2, "7777777776");
  }

  /** -439804651111 has no ten-digit binary or octal pattern. */
  lemma ConvertHexTooNegative()
    ensures Convert(Text("9999999999"), 16, 2) == Fail(NumError)
    ensures Convert(Text("9999999999"), 16, 8) == Fail(NumError)
  {
    SizeMask();
    DecodeHexNines();
    ConvertFails(Text("9999999999"), 16, 2);
    ConvertFails(Text("9999999999"), 16, 8);
  }

  lemma ConvertRejectCases()
    ensures Convert(Text("11111111111"), 8, 2) == Convert(Text("11111111111"), 8, 16) == Fail(NumError)
    ensures Convert(Text("11111111111"), 16, 2) == Convert(Text("11111111111"), 16, 8) == Fail(NumError)
    ensures Convert(Text("fffffffffe"), 2, 8) == Convert(Text("fffffffffe"), 2, 16) == Fail(NumError)
    ensures Convert(Text("a"), 8, 2) == Convert(Text("a"), 8, 16) == Fail(NumError)
  {
    assert !IsDigit("fffffffffe"[0], 2);
    assert !IsDigit("a"[0], 8);
  }

  /** The absent argument: `#NUM!` from binary, "0" from octal and
      hexadecimal. */
  lemma ConvertAbsentCases()
    ensures Convert(Absent, 2, 8) == Convert(Absent, 2, 16) == Fail(NumError)
    ensures Convert(Absent, 8, 2) == Convert(Absent, 8, 16) == Ok("0")
    ensures Convert(Absent, 16, 2) == Convert(Absent, 16, 8) == Ok("0")
  {
    SizeMask();
  }

  /** Empty text reads as an absent argument. */
  lemma ConvertBlankTextCases()
    ensures Decode(Text(""), 2) == Decode(Text(""), 16) == Ok(0)
    ensures Convert(Text(""), 2, 8) == Fail(NumError)
    ensures Convert(Text(""), 8, 16) == Ok("0")
  {
    SizeMask();
  }

  /** Every case of the `_base2base` test with a digit string that
      converts. */
  lemma ConvertCases()
    ensures Convert(Text("111111111"), 2, 8) == Ok("777")
    ensures Convert(Text("111111111"), 2, 16) == Ok("1FF")
    ensures Convert(Text("7777777777"), 8, 2) == Ok("1111111111")
    ensures Convert(Text("7777777777"), 8, 16) == Ok("FFFFFFFFFF")
    ensures Convert(Text("1000000000"), 2, 8) == Ok("7777777000")
    ensures Convert(Text("1000000000"), 2, 16) == Ok("FFFFFFFE00")
    ensures Convert(Text("fffffffffe"), 16, 2) == Ok("1111111110")
    ensures Convert(Text("fffffffffe"), 16, 8) == Ok("7777777776")
  {
    ConvertBinaryToOctal();
    ConvertBinaryToHex();
    ConvertOctalToBinary();
    ConvertOctalToHex();
    ConvertSignBitToOctal();
    ConvertSignBitToHex();
    ConvertHexToBinary();
    ConvertHexToOctal();
  }

  lemma ConvertAllBasesRejects(baseIn: Base, baseOut: Base)
    ensures Convert(Bool(true), baseIn, baseOut) == Fail(ValueError)
    ensures Convert(Int(-1), baseIn, baseOut) == Fail(NumError)
    ensures Convert(Text("-1"), baseIn, baseOut) == Fail(NumError)
    ensures Convert(Text("3.5"), baseIn, baseOut) == Fail(NumError)
    ensures Convert(Real, baseIn, baseOut) == Fail(NumError)
  {
    assert !IsDigit("-1"[0], baseIn);
    assert !IsDigit("3.5"[1], baseIn);
  }

  lemma ConvertAllBasesZero(baseIn: Base, baseOut: Base)
    ensures Convert(Text("0"), baseIn, baseOut) == Ok("0")
    ensures Convert(Int(0), baseIn, baseOut) == Ok("0")
  {
    DecodesAs("0", baseIn, 0);
    assert Decode(Int(0), baseIn) == Ok(0);
    EncodeShortest(0, baseOut);
    ConvertFails(Text("0"), baseIn, baseOut);
    ConvertFails(Int(0), baseIn, baseOut);
  }

  /** Every pair of bases, the same or different, treats these arguments
      alike. */
  lemma ConvertAllBasesCases(baseIn: Base, baseOut: Base)
    ensures Convert(Bool(true), baseIn, baseOut) == Fail(ValueError)
    ensures Convert(Int(-1), baseIn, baseOut) == Fail(NumError)
    ensures Convert(Text("-1"), baseIn, baseOut) == Fail(NumError)
    ensures Convert(Text("3.5"), baseIn, baseOut) == Fail(NumError)
    ensures Convert(Real, baseIn, baseOut) == Fail(NumError)
    ensures Convert(Text("0"), baseIn, baseOut) == Ok("0")
    ensures Convert(Int(0), baseIn, baseOut) == Ok("0")
  {
    ConvertAllBasesRejects(baseIn, baseOut);
    ConvertAllBasesZero(baseIn, baseOut);
  }

  // bitand, bitor, bitxor, bitlshift, bitrshift

  lemma BitAndShared()
    ensures BitAnd(Int(32), Int(48)) == Ok(32)
  {
  }

  lemma BitAndDisjoint()
    ensures BitAnd(Int(1), Int(2)) == Ok(0)
  {
  }

  lemma BitAndRejectCases()
    ensures BitAnd(Err(Div0Error), Int(1)) == BitAnd(Int(1), Err(Div0Error)) == Fail(Div0Error)
    ensures BitAnd(Text("er"), Int(1)) == BitAnd(Int(2), Text("ze")) == Fail(ValueError)
    ensures BitAnd(Err(NumError), Int(1)) == BitAnd(Int(1), Err(NumError)) == Fail(NumError)
    ensures BitAnd(Int(-1), Int(1)) == BitAnd(Int(1), Int(-1)) == Fail(NumError)
  {
  }

  /** Every case of the `bitand` test. */
  lemma BitAndCases()
    ensures BitAnd(Int(32), Int(48)) == Ok(32)
    ensures BitAnd(Int(1), Int(2)) == Ok(0)
    ensures BitAnd(Err(Div0Error), Int(1)) == BitAnd(Int(1), Err(Div0Error)) == Fail(Div0Error)
    ensures BitAnd(Text("er"), Int(1)) == BitAnd(Int(2), Text("ze")) == Fail(ValueError)
    ensures BitAnd(Err(NumError), Int(1)) == BitAnd(Int(1), Err(NumError)) == Fail(NumError)
    ensures BitAnd(Int(-1), Int(1)) == BitAnd(Int(1), Int(-1)) == Fail(NumError)
  {
    BitAndShared();
    BitAndDisjoint();
    BitAndRejectCases();
  }

  lemma BitOrDisjoint()
    ensures BitOr(Int(32), Int(16)) == Ok(48)
  {
  }

  lemma BitOrLow()
    ensures BitOr(Int(1), Int(2)) == Ok(3)
  {
  }

  lemma BitOrRejectCases()
    ensures BitOr(Int(-1), Int(1)) == BitOr(Int(1), Int(-1)) == Fail(NumError)
  {
  }

  /** Every case of the `bitor` test. */
  lemma BitOrCases()
    ensures BitOr(Int(32), Int(16)) == Ok(48)
    ensures BitOr(Int(1), Int(2)) == Ok(3)
    ensures BitOr(Int(-1), Int(1)) == BitOr(Int(1), Int(-1)) == Fail(NumError)
  {
    BitOrDisjoint();
    BitOrLow();
    BitOrRejectCases();
  }

  lemma BitXorDisjoint()
    ensures BitXor(Int(16), Int(15)) == Ok(31)
  {
  }

  lemma BitXorOverlapping()
    ensures BitXor(Int(1), Int(3)) == Ok(2)
  {
  }

  lemma BitXorRejectCases()
    ensures BitXor(Int(-1), Int(1)) == BitXor(Int(1), Int(-1)) == Fail(NumError)
  {
  }

  /** Every case of the `bitxor` test. */
  lemma BitXorCases()
    ensures BitXor(Int(16), Int(15)) == Ok(31)
    ensures BitXor(Int(1), Int(3)) == Ok(2)
    ensures BitXor(Int(-1), Int(1)) == BitXor(Int(1), Int(-1)) == Fail(NumError)
  {
    BitXorDisjoint();
    BitXorOverlapping();
    BitXorRejectCases();
  }

  lemma BitLShiftUp()
    ensures BitLShift(Int(6), Int(1)) == Ok(12)
  {
    assert Operands(Int(6), Int(1)) == Ok((6, 1));
    assert Pow(2, 1) == 2;
    assert ShiftWord(6, 1) == Ok(12);
  }

  lemma BitLShiftDown()
    ensures BitLShift(Int(6), Int(-1)) == Ok(3)
  {
    assert Operands(Int(6), Int(-1)) == Ok((6, -1));
    assert Pow(2, 1) == 2;
    assert ShiftWord(6, -1) == Ok(3);
  }

  lemma BitLShiftZero()
    ensures BitLShift(Int(6), Int(0)) == Ok(6)
  {
    assert Operands(Int(6), Int(0)) == Ok((6, 0));
    assert Pow(2, 0) == 1;
    assert ShiftWord(6, 0) == Ok(6);
  }

  lemma BitLShiftRejectText()
    ensures BitLShift(Text("er"), Int(1)) == BitLShift(Int(2), Text("ze")) == Fail(ValueError)
  {
    BitwiseErrors(Text("er"), Int(1));
    BitwiseErrors(Int(2), Text("ze"));
  }

  lemma BitLShiftRejectNumber()
    ensures BitLShift(Int(-1), Int(0)) == BitLShift(Int(281474976710656), Int(0)) == Fail(NumError)
  {
    WordSize();
    BitwiseErrors(Int(-1), Int(0));
    BitwiseErrors(Int(281474976710656), Int(0));
  }

  lemma BitLShiftRejectAmount()
    ensures BitLShift(Int(6), Int(54)) == BitLShift(Int(6), Int(-54)) == Fail(NumError)
  {
    BitwiseErrors(Int(6), Int(54));
    BitwiseErrors(Int(6), Int(-54));
  }

  /** Every case of the `bitlshift` test. */
  lemma BitLShiftCases()
    ensures BitLShift(Int(6), Int(1)) == Ok(12)
    ensures BitLShift(Int(6), Int(-1)) == Ok(3)
    ensures BitLShift(Int(6), Int(0)) == Ok(6)
    ensures BitLShift(Text("er"), Int(1)) == BitLShift(Int(2), Text("ze")) == Fail(ValueError)
    ensures BitLShift(Int(-1), Int(0)) == BitLShift(Int(281474976710656), Int(0)) == Fail(NumError)
    ensures BitLShift(Int(6), Int(54)) == BitLShift(Int(6), Int(-54)) == Fail(NumError)
  {
    BitLShiftUp();
    BitLShiftDown();
    BitLShiftZero();
    BitLShiftRejectText();
    BitLShiftRejectNumber();
    BitLShiftRejectAmount();
  }

  lemma BitRShiftDown()
    ensures BitRShift(Int(6), Int(1)) == Ok(3)
  {
    assert Operands(Int(6), Int(1)) == Ok((6, 1));
    assert Pow(2, 1) == 2;
    assert ShiftWord(6, -1) == Ok(3);
  }

  lemma BitRShiftUp()
    ensures BitRShift(Int(6), Int(-1)) == Ok(12)
  {
    assert Operands(Int(6), Int(-1)) == Ok((6, -1));
    assert Pow(2, 1) == 2;
    assert ShiftWord(6, 1) == Ok(12);
  }

  lemma BitRShiftZero()
    ensures BitRShift(Int(6), Int(0)) == Ok(6)
  {
    assert Operands(Int(6), Int(0)) == Ok((6, 0));
    assert Pow(2, 0) == 1;
    assert ShiftWord(6, 0) == Ok(6);
  }

  lemma BitRShiftRejectText()
    ensures BitRShift(Text("er"), Int(1)) == BitRShift(Int(2), Text("ze")) == Fail(ValueError)
  {
    BitwiseErrors(Text("er"), Int(1));
    BitwiseErrors(Int(2), Text("ze"));
  }

  lemma BitRShiftRejectNumber()
    ensures BitRShift(Int(-1), Int(0)) == BitRShift(Int(281474976710656), Int(0)) == Fail(NumError)
  {
    WordSize();
    BitwiseErrors(Int(-1), Int(0));
    BitwiseErrors(Int(281474976710656), Int(0));
  }

  lemma BitRShiftRejectAmount()
    ensures BitRShift(Int(6), Int(54)) == BitRShift(Int(6), Int(-54)) == Fail(NumError)
  {
    BitwiseErrors(Int(6), Int(54));
    BitwiseErrors(Int(6), Int(-54));
  }

  /** Every case of the `bitrshift` test. */
  lemma BitRShiftCases()
    ensures BitRShift(Int(6), Int(1)) == Ok(3)
    ensures BitRShift(Int(6), Int(-1)) == Ok(12)
    ensures BitRShift(Int(6), Int(0)) == Ok(6)
    ensures BitRShift(Text("er"), Int(1)) == BitRShift(Int(2), Text("ze")) == Fail(ValueError)
    ensures BitRShift(Int(-1), Int(0)) == BitRShift(Int(281474976710656), Int(0)) == Fail(NumError)
    ensures BitRShift(Int(6), Int(54)) == BitRShift(Int(6), Int(-54)) == Fail(NumError)
  {
    BitRShiftDown();
    BitRShiftUp();
    BitRShiftZero();
    BitRShiftRejectText();
    BitRShiftRejectNumber();
    BitRShiftRejectAmount();
  }
}
