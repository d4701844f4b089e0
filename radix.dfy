/** The radix codec of the engineering functions: BIN2DEC, OCT2DEC and
    HEX2DEC (`Decode`), DEC2BIN, DEC2OCT and DEC2HEX (`Encode`), and the six
    base-to-base converters (`Convert`). A base has ten digits, so a binary
    number has 10 bits, an octal one 30 and a hexadecimal one 40, read as
    two's complement. */
module Radix {
  import opened Digits
  import opened Cells

  type Base = b: Radix | b == 2 || b == 8 || b == 16 witness 2

  /** The most digits a number may have, read or written. */
  const MaxDigits := 10

  function BitsPerDigit(b: Base): nat {
    if b == 2 then 1 else if b == 8 then 3 else 4
  }

  function Width(b: Base): nat {
    MaxDigits * BitsPerDigit(b)
  }

  /** The sign bit of a `Width(b)`-bit pattern: patterns at or above it are
      negative. This is the table `_SIZE_MASK`. */
  function Threshold(b: Base): int {
    Pow(2, Width(b) - 1)
  }

  function Modulus(b: Base): int {
    2 * Threshold(b)
  }

  predicate InRange(n: int, b: Base) {
    -Threshold(b) <= n < Threshold(b)
  }

  /** `2^Width(b)` is the number of ten-digit strings in base `b`. */
  lemma ModulusIsTenDigits(b: Base)
    ensures Modulus(b) == Pow(2, Width(b)) == Pow(b, MaxDigits)
  {
    assert b == Pow(2, BitsPerDigit(b));
    PowMul(2, BitsPerDigit(b), MaxDigits);
  }

  lemma SizeMask()
    ensures Threshold(2) == 512 && Threshold(8) == 536870912 && Threshold(16) == 549755813888
  {
    PowAdd(2, 9, 20);
    PowAdd(2, 29, 10);
  }

  /** The signed number a `Width(b)`-bit pattern denotes in two's complement. */
  function Signed(u: nat, b: Base): (n: int)
    requires u < Modulus(b)
    ensures InRange(n, b) && Unsigned(n, b) == u
  {
    if u >= Threshold(b) then u - Modulus(b) else u
  }

  /** The `Width(b)`-bit two's-complement pattern of a number in range. */
  function Unsigned(n: int, b: Base): (u: nat)
    requires InRange(n, b)
    ensures u < Modulus(b)
  {
    if n < 0 then n + Modulus(b) else n
  }

  /** Two numbers in range with the same pattern are equal. */
  lemma UnsignedInjective(x: int, y: int, b: Base)
    requires InRange(x, b) && InRange(y, b) && Unsigned(x, b) == Unsigned(y, b)
    ensures x == y
  {
  }

  /** `_base2dec` on a digit string: at most ten digits of the base, letters
      in either case, read as a two's-complement pattern. */
  function DecodeDigits(s: string, b: Base): (r: Outcome<int>)
    ensures r.Fail? <==> !(1 <= |s| <= MaxDigits && AllDigits(s, b))
    ensures r.Fail? ==> r.error == NumError
    ensures r.Ok? ==> InRange(r.value, b) && Unsigned(r.value, b) == Parse(s, b)
  {
    if 1 <= |s| <= MaxDigits && AllDigits(s, b) then
      PowMono(b, |s|, MaxDigits);
      ModulusIsTenDigits(b);
      Ok(Signed(Parse(s, b), b))
    else
      Fail(NumError)
  }

  /** The digit string "0" decodes to 0 in every base. */
  lemma ZeroDigit(b: Base)
    ensures DecodeDigits("0", b) == Ok(0)
  {
    assert AllDigits("0", b);
    assert Parse("0", b) == 0;
  }

  /** `_base2dec`: an error is passed on; a boolean is a `#VALUE!`; an absent
      argument or empty text reads as "0"; a non-negative whole number is read through its
      decimal digits; a negative or fractional number is a `#NUM!`. */
  function Decode(v: Cell, b: Base): (r: Outcome<int>)
    ensures v.Err? ==> r == Fail(v.code)
    ensures v.Bool? ==> r == Fail(ValueError)
    ensures IsBlank(v) ==> r == Ok(0)
    ensures v.Real? || (v.Int? && v.i < 0) ==> r == Fail(NumError)
    ensures v.Text? && v.s != [] ==> r == DecodeDigits(v.s, b)
    ensures v.Int? && v.i >= 0 ==> r == DecodeDigits(DecimalText(v.i), b)
    ensures r.Ok? ==> InRange(r.value, b)
  {
    match v
    case Err(e) => Fail(e)
    case Bool(_) => Fail(ValueError)
    case Absent => ZeroDigit(b); DecodeDigits("0", b)
    case Int(i) => if i < 0 then Fail(NumError) else DecodeDigits(DecimalText(i), b)
    case Real => Fail(NumError)
    case Text(s) => if s == [] then ZeroDigit(b); DecodeDigits("0", b) else DecodeDigits(s, b)
  }

  /** `_dec2base` on a number: its two's-complement pattern in base `b` with
      upper-case letters, left-padded with zeros to `places` digits when
      `places` is given. Out of range, or more digits than `places`, is a
      `#NUM!`. */
  function EncodeInt(n: int, b: Base, places: Option<int>): (r: Outcome<string>)
    ensures r.Fail? ==> r.error == NumError
    ensures places.None? ==> (r.Ok? <==> InRange(n, b))
    ensures places.Some? ==>
      (r.Ok? <==> InRange(n, b) && places.value >= 1 && Unsigned(n, b) < Pow(b, places.value))
    ensures r.Ok? ==> AllDigits(r.value, b) && Parse(r.value, b) == Unsigned(n, b)
    ensures r.Ok? && places.None? ==> Canonical(r.value, b) && |r.value| <= MaxDigits
    ensures r.Ok? && places.Some? ==> |r.value| == places.value
    ensures r.Ok? ==> UpperCase(r.value)
  {
    if !InRange(n, b) then Fail(NumError)
    else
      var digits := ToDigits(Unsigned(n, b), b);
      ParseToDigits(Unsigned(n, b), b);
      ModulusIsTenDigits(b);
      DigitsLength(Unsigned(n, b), b, MaxDigits);
      match places
      case None => Ok(digits)
      case Some(p) =>
        DigitsLength(Unsigned(n, b), b, p);
        if p < |digits| then Fail(NumError)
        else
          PadDigits(digits, p, b);
          Ok(Pad(digits, p))
  }

  /** `_dec2base`: the argument is coerced to a whole number first (see
      `ToNumber`), then written out by `EncodeInt`. */
  function Encode(v: Cell, b: Base, places: Option<int>): (r: Outcome<string>)
    ensures ToNumber(v).Fail? ==> r == Fail(ToNumber(v).error)
    ensures ToNumber(v).Ok? ==> r == EncodeInt(ToNumber(v).value, b, places)
  {
    match ToNumber(v)
    case Fail(e) => Fail(e)
    case Ok(n) => EncodeInt(n, b, places)
  }

  /** `_base2base`: decode in `baseIn`, then encode in `baseOut` without
      padding. An absent argument (or empty text) is a `#NUM!` when reading
      binary, as the tests require, although BIN2DEC reads it as 0. */
  function Convert(v: Cell, baseIn: Base, baseOut: Base): (r: Outcome<string>)
    ensures IsBlank(v) && baseIn == 2 ==> r == Fail(NumError)
    ensures r.Ok? ==> Canonical(r.value, baseOut) && |r.value| <= MaxDigits
  {
    if IsBlank(v) && baseIn == 2 then Fail(NumError)
    else
      match Decode(v, baseIn)
      case Fail(e) => Fail(e)
      case Ok(n) => EncodeInt(n, baseOut, None)
  }

  /** Letters read the same in either case. */
  lemma DecodeIgnoresCase(s: string, t: string, b: Base)
    requires |s| == |t| && forall i :: 0 <= i < |s| ==> DigitValue(s[i]) == DigitValue(t[i])
    ensures Decode(Text(s), b) == Decode(Text(t), b)
  {
    if AllDigits(s, b) {
      ParseSameValues(s, t, b);
    }
    if 1 <= |s| <= MaxDigits && AllDigits(s, b) {
      UnsignedInjective(DecodeDigits(s, b).value, DecodeDigits(t, b).value, b);
    } else if AllDigits(t, b) {
      ParseSameValues(t, s, b);
    }
  }

  /** Writing a number in range and reading it back gives the number, with
      or without padding up to ten digits. */
  lemma RoundTrip(n: int, b: Base, places: Option<int>)
    requires InRange(n, b)
    requires places.Some? ==> places.value <= MaxDigits
    ensures Encode(Int(n), b, places).Ok? ==> Decode(Text(Encode(Int(n), b, places).value), b) == Ok(n)
    ensures places.None? ==> Encode(Int(n), b, places).Ok?
  {
    var r := EncodeInt(n, b, places);
    if r.Ok? {
      var d := DecodeDigits(r.value, b);
      UnsignedInjective(d.value, n, b);
    }
  }

  /** Reading a canonical string of at most ten digits and writing the
      number back gives the same string. */
  lemma DecodeEncode(s: string, b: Base)
    requires Canonical(s, b) && |s| <= MaxDigits
    ensures Decode(Text(s), b).Ok?
    ensures Encode(Int(Decode(Text(s), b).value), b, None) == Ok(s)
  {
    var n := DecodeDigits(s, b).value;
    var t := EncodeInt(n, b, None).value;
    CanonicalUnique(s, t, b);
  }

  /** The sign bit alone takes all ten digits. */
  lemma ThresholdDigits(b: Base)
    ensures |ToDigits(Threshold(b), b)| == MaxDigits
  {
    var t, p := Threshold(b), Pow(b, MaxDigits - 1);
    ModulusIsTenDigits(b);
    assert Pow(b, MaxDigits) == b * p;
    MulLe(2, b, p);
    DigitsLength(t, b, MaxDigits);
    DigitsLength(t, b, MaxDigits - 1);
  }

  /** One past either end of the range is a `#NUM!`. */
  lemma EncodeOutOfRange(b: Base)
    ensures Encode(Int(Threshold(b)), b, None) == Fail(NumError)
    ensures Encode(Int(-Threshold(b) - 1), b, None) == Fail(NumError)
  {
  }

  /** Without `places`, a number in range is written as the shortest digits
      of its two's-complement pattern. */
  lemma EncodeShortest(n: int, b: Base)
    requires InRange(n, b)
    ensures Encode(Int(n), b, None) == Ok(ToDigits(Unsigned(n, b), b))
  {
    var u := Unsigned(n, b);
    ParseToDigits(u, b);
    CanonicalUnique(EncodeInt(n, b, None).value, ToDigits(u, b), b);
  }

  /** Both ends of the range are written: the largest number as its
      shortest digits, the most negative one as the sign bit alone, which
      takes all ten digits. */
  lemma EncodeExtremes(b: Base)
    ensures Encode(Int(Threshold(b) - 1), b, None) == Ok(ToDigits(Threshold(b) - 1, b))
    ensures Encode(Int(-Threshold(b)), b, None) == Ok(ToDigits(Threshold(b), b))
    ensures |ToDigits(Threshold(b), b)| == MaxDigits
  {
    ThresholdDigits(b);
    EncodeShortest(Threshold(b) - 1, b);
    EncodeShortest(-Threshold(b), b);
  }

  /** A converted string reads back in the output base as the number read
      in the input base. */
  lemma ConvertKeepsValue(v: Cell, baseIn: Base, baseOut: Base)
    requires Convert(v, baseIn, baseOut).Ok?
    ensures Decode(Text(Convert(v, baseIn, baseOut).value), baseOut) == Decode(v, baseIn)
  {
    var n := Decode(v, baseIn).value;
    RoundTrip(n, baseOut, None);
  }

  /** When conversion fails: an absent argument read as binary, an argument
      the input base rejects (with that error), or a number outside the
      output base's range (`#NUM!`). */
  lemma ConvertFails(v: Cell, baseIn: Base, baseOut: Base)
    ensures IsBlank(v) && baseIn == 2 ==> Convert(v, baseIn, baseOut) == Fail(NumError)
    ensures !(IsBlank(v) && baseIn == 2) && Decode(v, baseIn).Fail? ==>
      Convert(v, baseIn, baseOut) == Fail(Decode(v, baseIn).error)
    ensures !(IsBlank(v) && baseIn == 2) && Decode(v, baseIn).Ok? ==>
      (Convert(v, baseIn, baseOut).Fail? <==> !InRange(Decode(v, baseIn).value, baseOut))
    ensures Convert(v, baseIn, baseOut).Fail? && Decode(v, baseIn).Ok? ==>
      Convert(v, baseIn, baseOut).error == NumError
  {
    if !(IsBlank(v) && baseIn == 2) && Decode(v, baseIn).Ok? {
      assert Convert(v, baseIn, baseOut) == EncodeInt(Decode(v, baseIn).value, baseOut, None);
    }
  }

  /** Converting a canonical string there and back gives it again, when its
      number fits the other base. */
  lemma ConvertThereAndBack(s: string, baseIn: Base, baseOut: Base)
    requires Canonical(s, baseIn) && |s| <= MaxDigits
    requires InRange(Decode(Text(s), baseIn).value, baseOut)
    ensures Convert(Text(s), baseIn, baseOut).Ok?
    ensures Convert(Text(Convert(Text(s), baseIn, baseOut).value), baseOut, baseIn) == Ok(s)
  {
    var n := Decode(Text(s), baseIn).value;
    var t := EncodeInt(n, baseOut, None).value;
    RoundTrip(n, baseOut, None);
    DecodeEncode(s, baseIn);
  }

  /** Converting a canonical string to its own base gives it back. */
  lemma ConvertSameBase(s: string, b: Base)
    requires Canonical(s, b) && |s| <= MaxDigits
    ensures Convert(Text(s), b, b) == Ok(s)
  {
    DecodeEncode(s, b);
  }

  /** An error argument comes back unchanged from every base and pair of
      bases. */
  lemma ErrorsPassThrough(e: ErrorCode, b: Base, baseOut: Base, places: Option<int>)
    ensures Decode(Err(e), b) == Fail(e)
    ensures Encode(Err(e), b, places) == Fail(e)
    ensures Convert(Err(e), b, baseOut) == Fail(e)
  {
  }

  /** A boolean is a `#VALUE!` whatever its value and whatever the bases. */
  lemma BooleansRejected(x: bool, b: Base, baseOut: Base, places: Option<int>)
    ensures Decode(Bool(x), b) == Fail(ValueError)
    ensures Encode(Bool(x), b, places) == Fail(ValueError)
    ensures Convert(Bool(x), b, baseOut) == Fail(ValueError)
  {
  }
}
