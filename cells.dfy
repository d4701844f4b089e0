/** The error and coercion layer shared by the engineering functions: the
    error tags a cell can carry, the kinds of scalar a function receives, and
    the rule that turns a scalar into a number or rejects it. */
module Cells {
  import opened Digits

  /** `#VALUE!`, `#NUM!`, `#DIV/0!`, and any other error tag of the
      spreadsheet, which the functions pass on unchanged. */
  datatype ErrorCode = ValueError | NumError | Div0Error | OtherError(name: string)

  /** A scalar argument as the functions receive it. `Int` is any integral
      number; `Real` stands for a number with a fractional part, whose value
      no function here uses. */
  datatype Cell =
    | Absent
    | Bool(b: bool)
    | Int(i: int)
    | Real
    | Text(s: string)
    | Err(code: ErrorCode)

  datatype Option<T> = None | Some(value: T)

  /** A number or digit string, or the error a function returns instead. */
  datatype Outcome<T> = Ok(value: T) | Fail(error: ErrorCode)

  predicate IsDecimal(s: string) {
    |s| >= 1 && AllDigits(s, 10)
  }

  /** Reads a base-10 integer written as decimal digits with an optional
      leading minus sign; anything else is not a number. */
  function ParseDecimal(s: string): (r: Option<int>)
    ensures r.Some? <==> IsDecimal(s) || (|s| >= 2 && s[0] == '-' && IsDecimal(s[1..]))
    ensures IsDecimal(s) ==> r == Some(Parse(s, 10))
    ensures |s| >= 2 && s[0] == '-' && IsDecimal(s[1..]) ==> r == Some(-(Parse(s[1..], 10) as int))
  {
    if |s| >= 1 && s[0] == '-' then
      if IsDecimal(s[1..]) then Some(-(Parse(s[1..], 10) as int)) else None
    else if IsDecimal(s) then Some(Parse(s, 10))
    else None
  }

  /** The decimal text of an integer: its shortest digits, with a minus sign
      when it is negative. */
  function DecimalText(n: int): (s: string)
  {
    if n < 0 then "-" + ToDigits(-n, 10) else ToDigits(n, 10)
  }

  lemma ParseDecimalText(n: int)
    ensures ParseDecimal(DecimalText(n)) == Some(n)
  {
    if n < 0 {
      ParseNegativeText(n);
    } else {
      ParseNonNegativeText(n);
    }
  }

  lemma ParseNegativeText(n: int)
    requires n < 0
    ensures ParseDecimal(DecimalText(n)) == Some(n)
  {
    var s, t := DecimalText(n), ToDigits(-n, 10);
    ParseToDigits(-n, 10);
    assert |s| >= 2 && s[0] == '-' && s[1..] == t;
    assert IsDecimal(s[1..]) && Parse(s[1..], 10) == -n;
  }

  lemma ParseNonNegativeText(n: nat)
    ensures ParseDecimal(DecimalText(n)) == Some(n)
  {
    var t := ToDigits(n, 10);
    ParseToDigits(n, 10);
    assert t[0] != '-' by { assert IsDigit(t[0], 10); }
  }

  /** An absent argument or empty text: both stand for zero. */
  predicate IsBlank(v: Cell) {
    v.Absent? || v == Text("")
  }

  /** The number an argument stands for where a number is needed: an error
      is passed on, a boolean is a `#VALUE!`, an absent argument or empty
      text is 0, other text must be a decimal integer (else `#VALUE!`), and
      a fractional number is a `#NUM!`. */
  function ToNumber(v: Cell): (r: Outcome<int>)
    ensures v.Err? ==> r == Fail(v.code)
    ensures v.Bool? ==> r == Fail(ValueError)
    ensures IsBlank(v) ==> r == Ok(0)
    ensures v.Int? ==> r == Ok(v.i)
    ensures v.Text? && v.s != [] ==> (r.Ok? <==> ParseDecimal(v.s).Some?)
    ensures v.Text? && v.s != [] && r.Ok? ==> ParseDecimal(v.s) == Some(r.value)
    ensures v.Text? && r.Fail? ==> r.error == ValueError
    ensures v.Real? ==> r == Fail(NumError)
  {
    match v
    case Err(e) => Fail(e)
    case Bool(_) => Fail(ValueError)
    case Absent => Ok(0)
    case Int(i) => Ok(i)
    case Real => Fail(NumError)
    case Text(s) =>
      if s == [] then Ok(0)
      else match ParseDecimal(s)
      case Some(n) => Ok(n)
      case None => Fail(ValueError)
  }
}
