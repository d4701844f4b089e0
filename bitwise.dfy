/** BITAND, BITOR, BITXOR, BITLSHIFT and BITRSHIFT on 48-bit words. The
    operations are the integer operations `&`, `|`, `^`, `<<` and `>>` on
    non-negative numbers, written out digit by digit in base 2, and proved
    against a bit-by-bit description. */
module Bitwise {
  import opened Digits
  import opened Cells

  const WordBits := 48
  /** The largest shift, either way. */
  const MaxShift := 53

  lemma WordSize()
    ensures Pow(2, WordBits) == 281474976710656
  {
    assert Pow(2, 12) == 4096;
    PowAdd(2, 12, 12);
    PowAdd(2, 24, 24);
  }

  predicate IsWord(n: int) {
    0 <= n < Pow(2, WordBits)
  }

  /** Bit `i` of `x`, counting from the least significant bit. */
  predicate Bit(x: nat, i: nat) {
    (x / Pow(2, i)) % 2 == 1
  }

  /** `x & y`: never more than either operand. */
  function And(x: nat, y: nat): (a: nat)
    ensures a <= x && a <= y
  {
    if x == 0 || y == 0 then 0
    else 2 * And(x / 2, y / 2) + (if x % 2 == 1 && y % 2 == 1 then 1 else 0)
  }

  /** `x | y`: at least either operand, at most their sum. */
  function Or(x: nat, y: nat): (o: nat)
    ensures x <= o && y <= o && o <= x + y
  {
    if x == 0 then y
    else if y == 0 then x
    else 2 * Or(x / 2, y / 2) + (if x % 2 == 1 || y % 2 == 1 then 1 else 0)
  }

  /** `x ^ y`: at most the sum of the operands. */
  function Xor(x: nat, y: nat): (z: nat)
    ensures z <= x + y
  {
    if x == 0 then y
    else if y == 0 then x
    else 2 * Xor(x / 2, y / 2) + (if x % 2 != y % 2 then 1 else 0)
  }

  lemma DivDiv(x: nat, a: nat, b: nat)
    requires a > 0 && b > 0
    ensures x / a / b == x / (a * b)
  {
    var q, r := x / a, x % a;
    var q2, r2 := q / b, q % b;
    assert x == a * q + r;
    assert q == b * q2 + r2;
    assert x == (a * b) * q2 + (a * r2 + r) by {
      assert a * q == a * (b * q2) + a * r2;
    }
    MulLe(r2, b - 1, a);
    assert (b - 1) * a == a * b - a;
    DivModUnique(x, a * b, q2, a * r2 + r);
  }

  lemma MulAssoc(a: int, b: int, c: int)
    ensures a * (b * c) == (a * b) * c
  {
  }

  /** Bit `i + 1` of `z` is bit `i` of `z / 2`. */
  lemma BitOfHalf(z: nat, i: nat)
    ensures Bit(z, i + 1) == Bit(z / 2, i)
  {
    DivDiv(z, 2, Pow(2, i));
  }

  /** Bit `i` of `2 * h + d` for a binary digit `d`. */
  lemma BitOfTwice(h: nat, d: nat, i: nat)
    requires d < 2
    ensures Bit(2 * h + d, i) == if i == 0 then d == 1 else Bit(h, i - 1)
  {
    if i > 0 {
      BitOfHalf(2 * h + d, i - 1);
    }
  }

  lemma BitOfZero(i: nat)
    ensures !Bit(0, i)
  {
  }

  lemma {:induction false} AndBit(x: nat, y: nat, i: nat)
    ensures Bit(And(x, y), i) == (Bit(x, i) && Bit(y, i))
    decreases x
  {
    BitOfZero(i);
    if x != 0 && y != 0 {
      var d := if x % 2 == 1 && y % 2 == 1 then 1 else 0;
      BitOfTwice(And(x / 2, y / 2), d, i);
      BitOfTwice(x / 2, x % 2, i);
      BitOfTwice(y / 2, y % 2, i);
      if i > 0 {
        AndBit(x / 2, y / 2, i - 1);
      }
    }
  }

  lemma {:induction false} OrBit(x: nat, y: nat, i: nat)
    ensures Bit(Or(x, y), i) == (Bit(x, i) || Bit(y, i))
    decreases x
  {
    BitOfZero(i);
    if x != 0 && y != 0 {
      var d := if x % 2 == 1 || y % 2 == 1 then 1 else 0;
      BitOfTwice(Or(x / 2, y / 2), d, i);
      BitOfTwice(x / 2, x % 2, i);
      BitOfTwice(y / 2, y % 2, i);
      if i > 0 {
        OrBit(x / 2, y / 2, i - 1);
      }
    }
  }

  lemma {:induction false} XorBit(x: nat, y: nat, i: nat)
    ensures Bit(Xor(x, y), i) == (Bit(x, i) != Bit(y, i))
    decreases x
  {
    BitOfZero(i);
    if x != 0 && y != 0 {
      var d := if x % 2 != y % 2 then 1 else 0;
      BitOfTwice(Xor(x / 2, y / 2), d, i);
      BitOfTwice(x / 2, x % 2, i);
      BitOfTwice(y / 2, y % 2, i);
      if i > 0 {
        XorBit(x / 2, y / 2, i - 1);
      }
    }
  }

  /** Numbers with the same bits are equal. */
  lemma {:induction false} BitsDetermine(x: nat, y: nat)
    requires forall i: nat :: Bit(x, i) == Bit(y, i)
    ensures x == y
    decreases x + y
  {
    if x + y > 0 {
      forall i: nat
        ensures Bit(x / 2, i) == Bit(y / 2, i)
      {
        BitOfHalf(x, i);
        BitOfHalf(y, i);
      }
      BitsDetermine(x / 2, y / 2);
      assert Bit(x, 0) == Bit(y, 0);
    }
  }

  /** The results of the three operations on numbers below `2^k` are below `2^k`. */
  lemma {:induction false} BelowPowerOfTwo(x: nat, y: nat, k: nat)
    requires x < Pow(2, k) && y < Pow(2, k)
    ensures And(x, y) < Pow(2, k) && Or(x, y) < Pow(2, k) && Xor(x, y) < Pow(2, k)
    decreases k
  {
    if k > 0 && x != 0 && y != 0 {
      BelowPowerOfTwo(x / 2, y / 2, k - 1);
    }
  }

  /** Both arguments of an operation as whole numbers, with the errors in
      the order the functions report them: an error argument (the first
      before the second), then text or a boolean that is no number
      (`#VALUE!`), then a fraction (`#NUM!`). */
  function Operands(x: Cell, y: Cell): (r: Outcome<(int, int)>)
    ensures x.Err? ==> r == Fail(x.code)
    ensures !x.Err? && y.Err? ==> r == Fail(y.code)
    ensures r.Ok? <==> ToNumber(x).Ok? && ToNumber(y).Ok?
    ensures r.Ok? ==> r.value == (ToNumber(x).value, ToNumber(y).value)
    ensures r.Fail? && !x.Err? && !y.Err? ==>
      (r.error == ValueError <==> ToNumber(x) == Fail(ValueError) || ToNumber(y) == Fail(ValueError))
    ensures r.Fail? && !x.Err? && !y.Err? ==> r.error == ValueError || r.error == NumError
  {
    if x.Err? then Fail(x.code)
    else if y.Err? then Fail(y.code)
    else if ToNumber(x) == Fail(ValueError) || ToNumber(y) == Fail(ValueError) then Fail(ValueError)
    else if ToNumber(x).Fail? || ToNumber(y).Fail? then Fail(NumError)
    else Ok((ToNumber(x).value, ToNumber(y).value))
  }

  /** The two operands of BITAND, BITOR and BITXOR: `Operands`, and then a
      `#NUM!` unless both are 48-bit words. */
  function WordOperands(x: Cell, y: Cell): (r: Outcome<(nat, nat)>)
    ensures Operands(x, y).Fail? ==> r == Fail(Operands(x, y).error)
    ensures r.Ok? <==> Operands(x, y).Ok? && IsWord(Operands(x, y).value.0) && IsWord(Operands(x, y).value.1)
    ensures r.Ok? ==> r.value.0 == Operands(x, y).value.0 && r.value.1 == Operands(x, y).value.1
    ensures Operands(x, y).Ok? && r.Fail? ==> r.error == NumError
    ensures r.Ok? ==> IsWord(r.value.0) && IsWord(r.value.1)
  {
    match Operands(x, y)
    case Fail(e) => Fail(e)
    case Ok((a, c)) => if IsWord(a) && IsWord(c) then Ok((a, c)) else Fail(NumError)
  }

  /** BITAND: a 48-bit word whose bits are set where both operands' are. */
  function BitAnd(x: Cell, y: Cell): (r: Outcome<int>)
    ensures r.Ok? <==> WordOperands(x, y).Ok?
    ensures r.Fail? ==> r == Fail(WordOperands(x, y).error)
    ensures r.Ok? ==> IsWord(r.value)
    ensures r.Ok? ==> var (a, c) := WordOperands(x, y).value;
      forall i: nat :: Bit(r.value, i) == (Bit(a, i) && Bit(c, i))
  {
    match WordOperands(x, y)
    case Fail(e) => Fail(e)
    case Ok((a, c)) =>
      BelowPowerOfTwo(a, c, WordBits);
      AndBits(a, c);
      Ok(And(a, c))
  }

  /** BITOR: a 48-bit word whose bits are set where either operand's is. */
  function BitOr(x: Cell, y: Cell): (r: Outcome<int>)
    ensures r.Ok? <==> WordOperands(x, y).Ok?
    ensures r.Fail? ==> r == Fail(WordOperands(x, y).error)
    ensures r.Ok? ==> IsWord(r.value)
    ensures r.Ok? ==> var (a, c) := WordOperands(x, y).value;
      forall i: nat :: Bit(r.value, i) == (Bit(a, i) || Bit(c, i))
  {
    match WordOperands(x, y)
    case Fail(e) => Fail(e)
    case Ok((a, c)) =>
      BelowPowerOfTwo(a, c, WordBits);
      OrBits(a, c);
      Ok(Or(a, c))
  }

  /** BITXOR: a 48-bit word whose bits are set where the operands' differ. */
  function BitXor(x: Cell, y: Cell): (r: Outcome<int>)
    ensures r.Ok? <==> WordOperands(x, y).Ok?
    ensures r.Fail? ==> r == Fail(WordOperands(x, y).error)
    ensures r.Ok? ==> IsWord(r.value)
    ensures r.Ok? ==> var (a, c) := WordOperands(x, y).value;
      forall i: nat :: Bit(r.value, i) == (Bit(a, i) != Bit(c, i))
  {
    match WordOperands(x, y)
    case Fail(e) => Fail(e)
    case Ok((a, c)) =>
      BelowPowerOfTwo(a, c, WordBits);
      XorBits(a, c);
      Ok(Xor(a, c))
  }

  lemma AndBits(x: nat, y: nat)
    ensures forall i: nat :: Bit(And(x, y), i) == (Bit(x, i) && Bit(y, i))
  {
    forall i: nat ensures Bit(And(x, y), i) == (Bit(x, i) && Bit(y, i)) {
      AndBit(x, y, i);
    }
  }

  lemma OrBits(x: nat, y: nat)
    ensures forall i: nat :: Bit(Or(x, y), i) == (Bit(x, i) || Bit(y, i))
  {
    forall i: nat ensures Bit(Or(x, y), i) == (Bit(x, i) || Bit(y, i)) {
      OrBit(x, y, i);
    }
  }

  lemma XorBits(x: nat, y: nat)
    ensures forall i: nat :: Bit(Xor(x, y), i) == (Bit(x, i) != Bit(y, i))
  {
    forall i: nat ensures Bit(Xor(x, y), i) == (Bit(x, i) != Bit(y, i)) {
      XorBit(x, y, i);
    }
  }

  /** AND and OR of a word with itself give the word; XOR gives 0. */
  lemma SelfOperations(x: nat)
    ensures And(x, x) == x && Or(x, x) == x && Xor(x, x) == 0
  {
    AndBits(x, x);
    OrBits(x, x);
    XorBits(x, x);
    forall i: nat ensures !Bit(Xor(x, x), i) {
      BitOfZero(i);
    }
    BitsDetermine(And(x, x), x);
    BitsDetermine(Or(x, x), x);
    BitsDetermine(Xor(x, x), 0);
  }

  /** The three operations relate: AND is OR with XOR's bits cleared, OR is
      AND plus XOR, and AND plus OR is the sum of the operands. */
  lemma {:induction false} Identities(x: nat, y: nat)
    ensures Xor(Or(x, y), Xor(x, y)) == And(x, y)
    ensures Or(x, y) == And(x, y) + Xor(x, y)
    ensures And(x, y) + Or(x, y) == x + y
    decreases x
  {
    OrBits(x, y);
    XorBits(x, y);
    AndBits(x, y);
    XorBits(Or(x, y), Xor(x, y));
    BitsDetermine(Xor(Or(x, y), Xor(x, y)), And(x, y));
    if x != 0 && y != 0 {
      Identities(x / 2, y / 2);
    }
  }

  lemma Commutative(x: nat, y: nat)
    ensures And(x, y) == And(y, x) && Or(x, y) == Or(y, x) && Xor(x, y) == Xor(y, x)
  {
    AndBits(x, y);
    AndBits(y, x);
    OrBits(x, y);
    OrBits(y, x);
    XorBits(x, y);
    XorBits(y, x);
    BitsDetermine(And(x, y), And(y, x));
    BitsDetermine(Or(x, y), Or(y, x));
    BitsDetermine(Xor(x, y), Xor(y, x));
  }

  lemma PowTwoAtLeastTwo(m: nat)
    requires m >= 1
    ensures Pow(2, m) >= 2
  {
    PowMono(2, 1, m);
  }

  /** `number` shifted left by `amount` bits, or right when `amount` is
      negative; a shift of more than 53 places either way, a number that is
      not a 48-bit word, or a left shift past 48 bits is a `#NUM!`. */
  function ShiftWord(n: int, k: int): (r: Outcome<int>)
    ensures r.Fail? ==> r.error == NumError
    ensures r.Ok? ==> IsWord(r.value)
    ensures r.Ok? <==> IsWord(n) && -MaxShift <= k <= MaxShift && (k >= 0 ==> n * Pow(2, k) < Pow(2, WordBits))
  {
    if !IsWord(n) || k < -MaxShift || k > MaxShift then Fail(NumError)
    else if k >= 0 then
      var m := n * Pow(2, k);
      if m < Pow(2, WordBits) then MulLe(0, n, Pow(2, k)); Ok(m) else Fail(NumError)
    else
      var p := Pow(2, -k);
      PowTwoAtLeastTwo(-k);
      DivBasics(n, p);
      Ok(n / p)
  }

  lemma EvenQuotient(n: nat, f: nat, p: nat)
    requires p > 0
    ensures (n * ((2 * f) * p)) / p % 2 == 0
  {
    MulAssoc(n, 2 * f, p);
    MulAssoc(n, 2, f);
    DivModUnique(n * ((2 * f) * p), p, 2 * (n * f), 0);
  }

  /** The bits of `n * 2^k` below bit `k` are 0. */
  lemma LowBitsOfProduct(n: nat, k: nat, i: nat)
    requires i < k
    ensures !Bit(n * Pow(2, k), i)
  {
    var pi, f := Pow(2, i), Pow(2, k - i - 1);
    PowAdd(2, k - i, i);
    assert Pow(2, k - i) == 2 * f;
    assert Pow(2, k) == (2 * f) * pi;
    EvenQuotient(n, f, pi);
  }

  /** Bit `i` of `n * 2^k` is bit `i - k` of `n`, and 0 below bit `k`. */
  lemma BitOfProduct(n: nat, k: nat, i: nat)
    ensures Bit(n * Pow(2, k), i) == (i >= k && Bit(n, i - k))
  {
    if i >= k {
      var m := n * Pow(2, k);
      PowAdd(2, k, i - k);
      DivModUnique(m, Pow(2, k), n, 0);
      DivDiv(m, Pow(2, k), Pow(2, i - k));
    } else {
      LowBitsOfProduct(n, k, i);
    }
  }

  /** Bit `i` of `n / 2^m` is bit `i + m` of `n`. */
  lemma BitOfQuotient(n: nat, m: nat, i: nat)
    ensures Bit(n / Pow(2, m), i) == Bit(n, i + m)
  {
    PowAdd(2, m, i);
    DivDiv(n, Pow(2, m), Pow(2, i));
  }

  /** A shift moves every bit by `k` places: bit `i` of the result is bit
      `i - k` of the number, and 0 where `i - k` is negative. */
  lemma ShiftMovesBits(n: nat, k: int, i: nat)
    requires ShiftWord(n, k).Ok?
    ensures Bit(ShiftWord(n, k).value, i) == (i - k >= 0 && Bit(n, i - k))
  {
    if k >= 0 {
      BitOfProduct(n, k, i);
    } else {
      BitOfQuotient(n, -k, i);
    }
  }

  lemma ShiftMovesAllBits(n: int, k: int)
    ensures ShiftWord(n, k).Ok? ==>
      n >= 0 && forall i: nat :: Bit(ShiftWord(n, k).value, i) == (i - k >= 0 && Bit(n, i - k))
  {
    if ShiftWord(n, k).Ok? {
      forall i: nat
        ensures Bit(ShiftWord(n, k).value, i) == (i - k >= 0 && Bit(n, i - k))
      {
        ShiftMovesBits(n, k, i);
      }
    }
  }

  /** BITLSHIFT: coerces both arguments to whole numbers by `Operands`,
      then shifts; unlike BITAND, the amount need not be a word. */
  function BitLShift(number: Cell, amount: Cell): (r: Outcome<int>)
    ensures Operands(number, amount).Fail? ==> r == Fail(Operands(number, amount).error)
    ensures Operands(number, amount).Ok? ==> var (n, k) := Operands(number, amount).value;
      && (r.Ok? <==> IsWord(n) && -MaxShift <= k <= MaxShift && (k >= 0 ==> n * Pow(2, k) < Pow(2, WordBits)))
      && (r.Fail? ==> r.error == NumError)
      && (r.Ok? ==> IsWord(r.value) && forall i: nat :: Bit(r.value, i) == (i - k >= 0 && Bit(n, i - k)))
  {
    match Operands(number, amount)
    case Fail(e) => Fail(e)
    case Ok((n, k)) =>
      ShiftMovesAllBits(n, k);
      ShiftWord(n, k)
  }

  /** BITRSHIFT: BITLSHIFT by the opposite amount. */
  function BitRShift(number: Cell, amount: Cell): (r: Outcome<int>)
    ensures Operands(number, amount).Fail? ==> r == Fail(Operands(number, amount).error)
    ensures Operands(number, amount).Ok? ==> var (n, k) := Operands(number, amount).value;
      && (r.Ok? <==> IsWord(n) && -MaxShift <= k <= MaxShift && (k <= 0 ==> n * Pow(2, -k) < Pow(2, WordBits)))
      && (r.Fail? ==> r.error == NumError)
      && (r.Ok? ==> IsWord(r.value) && forall i: nat :: Bit(r.value, i) == (i + k >= 0 && Bit(n, i + k)))
  {
    match Operands(number, amount)
    case Fail(e) => Fail(e)
    case Ok((n, k)) =>
      ShiftMovesAllBits(n, -k);
      ShiftWord(n, -k)
  }

  /** A left shift with no bit lost past 48 bits is undone by the right
      shift of the same amount. */
  lemma ShiftLeftThenRight(n: int, k: nat)
    requires BitLShift(Int(n), Int(k)).Ok?
    ensures BitRShift(Int(BitLShift(Int(n), Int(k)).value), Int(k)) == Ok(n)
  {
    var p := Pow(2, k);
    if k > 0 {
      DivModUnique(n * p, p, n, 0);
    }
  }

  /** A right shift of a multiple of `2^k` is undone by the left shift of
      the same amount. */
  lemma ShiftRightThenLeft(n: int, k: nat)
    requires BitRShift(Int(n), Int(k)).Ok?
    requires n % Pow(2, k) == 0
    ensures BitLShift(Int(BitRShift(Int(n), Int(k)).value), Int(k)) == Ok(n)
  {
    var p := Pow(2, k);
    if k > 0 {
      DivBasics(n, p);
      assert n == (n / p) * p;
    }
  }

  /** BITRSHIFT by `k` is BITLSHIFT by `-k`. */
  lemma RightIsNegatedLeft(x: Cell, k: int)
    ensures BitRShift(x, Int(k)) == BitLShift(x, Int(-k))
  {
  }

  /** The errors of the five operations: an error argument is returned (the
      first argument's before the second's); then text that is no number or
      a boolean is a `#VALUE!`; a fraction or a number outside the 48-bit
      words is a `#NUM!`, and so is a shift of more than 53 places. */
  lemma BitwiseErrors(x: Cell, y: Cell)
    ensures x.Err? ==> BitAnd(x, y) == BitOr(x, y) == BitXor(x, y) == BitLShift(x, y) == BitRShift(x, y) == Fail(x.code)
    ensures !x.Err? && y.Err? ==>
      BitAnd(x, y) == BitOr(x, y) == BitXor(x, y) == BitLShift(x, y) == BitRShift(x, y) == Fail(y.code)
    ensures !x.Err? && !y.Err? && (ToNumber(x) == Fail(ValueError) || ToNumber(y) == Fail(ValueError)) ==>
      BitAnd(x, y) == BitOr(x, y) == BitXor(x, y) == BitLShift(x, y) == BitRShift(x, y) == Fail(ValueError)
    ensures ToNumber(x).Ok? && ToNumber(y).Ok? && !(IsWord(ToNumber(x).value) && IsWord(ToNumber(y).value)) ==>
      BitAnd(x, y) == BitOr(x, y) == BitXor(x, y) == Fail(NumError)
    ensures ToNumber(x).Ok? && ToNumber(y).Ok? && (!IsWord(ToNumber(x).value) || !(-MaxShift <= ToNumber(y).value <= MaxShift)) ==>
      BitLShift(x, y) == BitRShift(x, y) == Fail(NumError)
    ensures !x.Err? && !y.Err? && ToNumber(x) != Fail(ValueError) && ToNumber(y) != Fail(ValueError) && (x.Real? || y.Real?) ==>
      BitAnd(x, y) == BitOr(x, y) == BitXor(x, y) == BitLShift(x, y) == BitRShift(x, y) == Fail(NumError)
  {
  }
}
