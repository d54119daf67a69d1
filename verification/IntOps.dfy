/** Checked integer arithmetic at every width and sign, through 128-bit words. */
module IntOps {
  import opened Bitwise
  import opened Values
  import opened Wrappers

  datatype IntType = Int8 | Int16 | Int32 | Int64 | UInt8 | UInt16 | UInt32 | UInt64
  datatype BinOp = Add | Div | Mod | Mul | Sub | Eq | NotEq | Gt | GtEq | Lt | LtEq

  function Width(ty: IntType): nat {
    match ty
    case Int8 => 8 case UInt8 => 8
    case Int16 => 16 case UInt16 => 16
    case Int32 => 32 case UInt32 => 32
    case Int64 => 64 case UInt64 => 64
  }

  predicate IsUnsigned(ty: IntType) {
    ty.UInt8? || ty.UInt16? || ty.UInt32? || ty.UInt64?
  }

  predicate IsArith(op: BinOp) {
    op.Add? || op.Div? || op.Mod? || op.Mul? || op.Sub?
  }

  predicate IsOrder(op: BinOp) {
    op.Gt? || op.GtEq? || op.Lt? || op.LtEq?
  }

  /** Least value of the type. */
  function Min(ty: IntType): int {
    if IsUnsigned(ty) then 0 else 0 - Pow2(Width(ty) - 1)
  }

  /** Greatest value of the type. */
  function Max(ty: IntType): int {
    if IsUnsigned(ty) then Pow2(Width(ty)) - 1 else Pow2(Width(ty) - 1) - 1
  }

  predicate InRange(ty: IntType, x: int) {
    Min(ty) <= x <= Max(ty)
  }

  /** The mathematical value of a stored word: unsigned types reread the bit pattern. */
  function IntOperand(ty: IntType, stored: int): int {
    if IsUnsigned(ty) then Truncate(stored, 64) else stored
  }

  /** `x as u64 as i64`. */
  function StoreWord(x: int): int {
    AsSigned(Truncate(x, 64), 64)
  }

  /** 128-bit signed wrap-around. */
  function Wrap128(x: int): int {
    AsSigned(Truncate(x, 128), 128)
  }

  /** Division rounding toward zero. */
  function TruncDiv(a: int, b: int): int
    requires b != 0
  {
    if a >= 0 then a / b else -((-a) / b)
  }

  /** The remainder of `TruncDiv`, with the sign of the dividend. */
  function TruncRem(a: int, b: int): int
    requires b != 0
  {
    a - b * TruncDiv(a, b)
  }

  /** The exact mathematical result. */
  function Exact(op: BinOp, a: int, b: int): int
    requires IsArith(op) && (op.Div? || op.Mod? ==> b != 0)
  {
    match op
    case Add => a + b
    case Div => TruncDiv(a, b)
    case Mod => TruncRem(a, b)
    case Mul => a * b
    case _ => a - b
  }

  function Symbol(op: BinOp): string {
    match op
    case Add => "+" case Div => "/" case Mod => "%" case Mul => "*" case Sub => "-"
    case Eq => "==" case NotEq => "!=" case Gt => ">" case GtEq => ">=" case Lt => "<" case LtEq => "<="
  }

  function DivisionByZero(op: BinOp): RuntimeError {
    Panicked("division by zero in " + Symbol(op))
  }

  function Overflow(op: BinOp): RuntimeError {
    Panicked("integer overflow in " + Symbol(op))
  }

  function ApplyIntArith(op: BinOp, ty: IntType, lhs: Value, rhs: Value): Result<Value, RuntimeError>
    requires IsArith(op)
  {
    if !(lhs.Int? && rhs.Int?) then Err(OperandMismatch)
    else
      var a, b := IntOperand(ty, lhs.word), IntOperand(ty, rhs.word);
      if (op.Div? || op.Mod?) && b == 0 then Err(DivisionByZero(op))
      else
        var exact := Wrap128(Exact(op, a, b));
        if exact < Min(ty) || exact > Max(ty) then Err(Overflow(op)) else Ok(Int(StoreWord(exact)))
  }

  function ApplyIntCompare(op: BinOp, ty: IntType, lhs: Value, rhs: Value): Result<Value, RuntimeError>
    requires IsOrder(op)
  {
    if !(lhs.Int? && rhs.Int?) then Err(OperandMismatch)
    else
      var a, b := IntOperand(ty, lhs.word), IntOperand(ty, rhs.word);
      Ok(Bool(match op case Gt => a > b case GtEq => a >= b case Lt => a < b case _ => a <= b))
  }

  /** `==` and `!=` on the primitive kinds; any other pairing is a mismatch. */
  function ApplyEquality(op: BinOp, lhs: Value, rhs: Value): Result<Value, RuntimeError>
    requires op.Eq? || op.NotEq?
  {
    match (lhs, rhs)
    case (Bool(a), Bool(b)) => Ok(Bool((a == b) == op.Eq?))
    case (Int(a), Int(b)) => Ok(Bool((a == b) == op.Eq?))
    case (String(a), String(b)) => Ok(Bool((a == b) == op.Eq?))
    case (Unit, Unit) => Ok(Bool(op.Eq?))
    case _ => Err(OperandMismatch)
  }

  function ApplyBinaryOp(op: BinOp, ty: IntType, lhs: Value, rhs: Value): Result<Value, RuntimeError> {
    if IsArith(op) then ApplyIntArith(op, ty, lhs, rhs)
    else if IsOrder(op) then ApplyIntCompare(op, ty, lhs, rhs)
    else ApplyEquality(op, lhs, rhs)
  }

  /** Unary minus reads the stored word directly, whatever the type. */
  function ApplyNeg(ty: IntType, operand: Value): Result<Value, RuntimeError> {
    if !operand.Int? then Err(OperandMismatch)
    else
      var negated := -operand.word;
      if negated < Min(ty) || negated > Max(ty) then Err(Panicked("integer overflow in unary -"))
      else Ok(Int(StoreWord(negated)))
  }

  // ----- exactness -----

  /** The canonical storage of a value of the type. */
  predicate Stored(ty: IntType, word: int) {
    0 - Pow2(63) <= word < Pow2(63) && InRange(ty, IntOperand(ty, word))
  }

  lemma Words()
    ensures Pow2(7) == 0x80 && Pow2(8) == 0x100 && Pow2(15) == 0x8000 && Pow2(16) == 0x1_0000
    ensures Pow2(31) == 0x8000_0000 && Pow2(32) == 0x1_0000_0000
    ensures Pow2(63) == 0x8000_0000_0000_0000 && Pow2(64) == 0x1_0000_0000_0000_0000
    ensures Pow2(127) == 0x8000_0000_0000_0000_0000_0000_0000_0000
    ensures Pow2(128) == 0x1_0000_0000_0000_0000_0000_0000_0000_0000
  {
    assert Pow2(4) == 16;
    hide Pow2;
    Square(4, 16);
    Square(8, 0x100);
    Square(16, 0x1_0000);
    Square(32, 0x1_0000_0000);
    Square(64, 0x1_0000_0000_0000_0000);
    Half(8);
    Half(16);
    Half(32);
    Half(64);
    Half(128);
  }

  lemma Square(n: nat, power: nat)
    requires Pow2(n) == power
    ensures Pow2(2 * n) == power * power
  {
    Pow2Adds(n, n);
  }

  lemma Half(n: nat)
    requires n > 0
    ensures Pow2(n) == 2 * Pow2(n - 1)
  {
  }

  lemma RangeBounds(ty: IntType)
    ensures Min(ty) <= 0 < Max(ty)
    ensures IsUnsigned(ty) ==> Min(ty) == 0 && Max(ty) < 0x1_0000_0000_0000_0000
    ensures !IsUnsigned(ty) ==> -0x8000_0000_0000_0000 <= Min(ty) && Max(ty) < 0x8000_0000_0000_0000
    ensures !IsUnsigned(ty) ==> Min(ty) == -1 - Max(ty)
  {
    Words();
  }

  /** Storing a value in range and reading it back is the identity. */
  lemma StoreRoundTrip(ty: IntType, x: int)
    requires InRange(ty, x)
    ensures Stored(ty, StoreWord(x)) && IntOperand(ty, StoreWord(x)) == x
  {
    Words();
    RangeBounds(ty);
    if x >= 0 {
      DivModUnique(x, Pow2(64), 0, x);
    } else {
      DivModUnique(x, Pow2(64), -1, x + Pow2(64));
    }
    if IsUnsigned(ty) {
      var word := StoreWord(x);
      if x < Pow2(63) {
        DivModUnique(word, Pow2(64), 0, x);
      } else {
        DivModUnique(word, Pow2(64), -1, x);
      }
    }
  }

  lemma WrapWithin(x: int)
    ensures 0 - Pow2(127) <= x < Pow2(127) ==> Wrap128(x) == x
    ensures Pow2(127) <= x < Pow2(128) ==> Wrap128(x) == x - Pow2(128)
  {
    Words();
    if 0 <= x < Pow2(128) {
      DivModUnique(x, Pow2(128), 0, x);
    } else if 0 - Pow2(127) <= x < 0 {
      DivModUnique(x, Pow2(128), -1, x + Pow2(128));
    }
  }

  function Abs(x: int): nat {
    if x < 0 then -x else x
  }

  /** `TruncDiv` and `TruncRem` are the quotient and remainder that round toward zero. */
  lemma TruncatesTowardZero(a: int, b: int)
    requires b != 0
    ensures a == b * TruncDiv(a, b) + TruncRem(a, b)
    ensures Abs(TruncRem(a, b)) < Abs(b)
    ensures a >= 0 ==> TruncRem(a, b) >= 0
    ensures a <= 0 ==> TruncRem(a, b) <= 0
  {
    if a < 0 {
      assert b * -((-a) / b) == -(b * ((-a) / b));
    }
  }

  lemma QuotientBound(a: int, b: int)
    requires b != 0
    ensures Abs(TruncDiv(a, b)) <= Abs(a) && Abs(TruncRem(a, b)) <= Abs(a)
  {
    hide TruncDiv, TruncRem;
    TruncatesTowardZero(a, b);
    var q, r := TruncDiv(a, b), TruncRem(a, b);
    AbsMul(b, q);
    if q != 0 {
      MulAtLeast(Abs(q), Abs(b));
      MulAtLeast(Abs(b), Abs(q));
      assert Abs(b) * Abs(q) >= Abs(q) && Abs(b) * Abs(q) >= Abs(b);
      SameSign(a, b, q, r);
    }
  }

  lemma AbsMul(x: int, y: int)
    ensures Abs(x * y) == Abs(x) * Abs(y)
  {
    assert (-x) * y == -(x * y) && x * (-y) == -(x * y) && (-x) * (-y) == x * y;
    SignOfProduct(Abs(x), Abs(y));
  }

  lemma SignOfProduct(x: nat, y: nat)
    ensures x * y >= 0
  {
  }

  lemma SameSign(a: int, b: int, q: int, r: int)
    requires a == b * q + r && Abs(r) < Abs(b) && q != 0 && Abs(b * q) >= Abs(b)
    requires (a >= 0 ==> r >= 0) && (a <= 0 ==> r <= 0)
    ensures Abs(b * q) <= Abs(a) && Abs(r) <= Abs(a)
  {
  }

  lemma MulMonotone(x: nat, y: nat, m: nat)
    requires x <= m
    ensures x * y <= m * y
  {
    SignOfProduct(m - x, y);
    assert (m - x) * y == m * y - x * y;
  }

  lemma MulBound(x: int, y: int, m: nat)
    requires Abs(x) <= m && Abs(y) <= m
    ensures Abs(x * y) <= m * m
  {
    AbsMul(x, y);
    MulMonotone(Abs(x), Abs(y), m);
    MulMonotone(Abs(y), m, m);
  }

  lemma ProductSize(ty: IntType, a: int, b: int)
    requires InRange(ty, a) && InRange(ty, b)
    ensures ty.UInt64? ==> 0 <= a * b < 0x1_0000_0000_0000_0000_0000_0000_0000_0000
    ensures !ty.UInt64? ==> Abs(a * b) < 0x8000_0000_0000_0000_0000_0000_0000_0000
  {
    OperandSize(ty, a);
    OperandSize(ty, b);
    hide InRange, Abs;
    if ty.UInt64? {
      SignOfProduct(a, b);
      MulBound(a, b, 0xFFFF_FFFF_FFFF_FFFF);
      AbsOfProduct(a, b);
    } else {
      MulBound(a, b, 0x8000_0000_0000_0000);
    }
  }

  lemma OperandSize(ty: IntType, a: int)
    requires InRange(ty, a)
    ensures ty.UInt64? ==> a >= 0 && Abs(a) <= 0xFFFF_FFFF_FFFF_FFFF
    ensures !ty.UInt64? ==> Abs(a) <= 0x8000_0000_0000_0000
  {
    Words();
    RangeBounds(ty);
  }

  lemma AbsOfProduct(x: nat, y: nat)
    ensures Abs(x * y) == x * y
  {
    SignOfProduct(x, y);
  }

  /** Only a `UInt64` product leaves the 128-bit signed range, and never past 2^128. */
  lemma ExactSize(op: BinOp, ty: IntType, a: int, b: int)
    requires IsArith(op) && (op.Div? || op.Mod? ==> b != 0)
    requires InRange(ty, a) && InRange(ty, b)
    ensures !(op.Mul? && ty.UInt64?) ==> Abs(Exact(op, a, b)) < 0x8000_0000_0000_0000_0000_0000_0000_0000
    ensures op.Mul? && ty.UInt64? ==> 0 <= Exact(op, a, b) < 0x1_0000_0000_0000_0000_0000_0000_0000_0000
  {
    RangeBounds(ty);
    if op.Mul? {
      ProductSize(ty, a, b);
    } else if op.Div? || op.Mod? {
      QuotientBound(a, b);
    }
  }

  /** Wrapping at 128 bits never turns an out-of-range result into one in range. */
  lemma WrapIsHarmless(op: BinOp, ty: IntType, a: int, b: int)
    requires IsArith(op) && (op.Div? || op.Mod? ==> b != 0)
    requires InRange(ty, a) && InRange(ty, b)
    ensures InRange(ty, Wrap128(Exact(op, a, b))) <==> InRange(ty, Exact(op, a, b))
    ensures InRange(ty, Exact(op, a, b)) ==> Wrap128(Exact(op, a, b)) == Exact(op, a, b)
    ensures Exact(op, a, b) >= Pow2(127) ==> op.Mul? && ty.UInt64? && Wrap128(Exact(op, a, b)) < 0
  {
    Words();
    RangeBounds(ty);
    ExactSize(op, ty, a, b);
    var x := Exact(op, a, b);
    WrapWithin(x);
  }

  /** `v` is the canonical storage of the mathematical value `x`. */
  predicate Represents(ty: IntType, v: Value, x: int) {
    v.Int? && Stored(ty, v.word) && IntOperand(ty, v.word) == x
  }

  lemma OperandsInRange(ty: IntType, x: int)
    requires Stored(ty, x)
    ensures InRange(ty, IntOperand(ty, x))
  {
  }

  lemma ArithOutcome(op: BinOp, ty: IntType, x: int, y: int)
    requires IsArith(op)
    ensures var a, b := IntOperand(ty, x), IntOperand(ty, y);
            ApplyIntArith(op, ty, Int(x), Int(y)) ==
            if (op.Div? || op.Mod?) && b == 0 then Err(DivisionByZero(op))
            else if InRange(ty, Wrap128(Exact(op, a, b))) then Ok(Int(StoreWord(Wrap128(Exact(op, a, b)))))
            else Err(Overflow(op))
  {
    hide Wrap128, Exact, StoreWord, Pow2, IntOperand, Min, Max;
  }

  lemma ArithByExact(op: BinOp, ty: IntType, x: int, y: int)
    requires IsArith(op) && Stored(ty, x) && Stored(ty, y)
    ensures var a, b := IntOperand(ty, x), IntOperand(ty, y);
            var result := ApplyIntArith(op, ty, Int(x), Int(y));
            if (op.Div? || op.Mod?) && b == 0 then result == Err(DivisionByZero(op))
            else if InRange(ty, Exact(op, a, b)) then result.Ok? && Represents(ty, result.value, Exact(op, a, b))
            else result == Err(Overflow(op))
  {
    OperandsInRange(ty, x);
    OperandsInRange(ty, y);
    ArithOutcome(op, ty, x, y);
    hide Wrap128, Exact, StoreWord, Pow2, Stored, IntOperand, InRange, ApplyIntArith;
    var a, b := IntOperand(ty, x), IntOperand(ty, y);
    if !((op.Div? || op.Mod?) && b == 0) {
      WrapIsHarmless(op, ty, a, b);
      if InRange(ty, Exact(op, a, b)) {
        StoreRoundTrip(ty, Exact(op, a, b));
      }
    }
  }

  /** The result holds `x`, or the operation has overflowed because `x` is out of range. */
  predicate Answers(op: BinOp, ty: IntType, result: Result<Value, RuntimeError>, x: int) {
    if InRange(ty, x) then result.Ok? && Represents(ty, result.value, x) else result == Err(Overflow(op))
  }

  /** Quotient and remainder of the division that rounds toward zero. */
  predicate Divides(a: int, b: int, q: int, r: int) {
    a == b * q + r && Abs(r) < Abs(b) && (a >= 0 ==> r >= 0) && (a <= 0 ==> r <= 0)
  }

  /** Arithmetic on stored integers is exact at every width and sign, or faults. */
  lemma ArithIsExact(op: BinOp, ty: IntType, x: int, y: int)
    requires IsArith(op) && Stored(ty, x) && Stored(ty, y)
    ensures var a, b := IntOperand(ty, x), IntOperand(ty, y);
            var result := ApplyBinaryOp(op, ty, Int(x), Int(y));
            && (op.Add? ==> Answers(op, ty, result, a + b))
            && (op.Sub? ==> Answers(op, ty, result, a - b))
            && (op.Mul? ==> Answers(op, ty, result, a * b))
            && ((op.Div? || op.Mod?) && b == 0 ==> result == Err(DivisionByZero(op)))
            && ((op.Div? || op.Mod?) && b != 0 ==>
                  exists q, r :: Divides(a, b, q, r) && Answers(op, ty, result, if op.Div? then q else r))
  {
    hide Stored, IntOperand, InRange, ApplyIntArith, TruncDiv, TruncRem, Represents;
    ArithByExact(op, ty, x, y);
    var a, b := IntOperand(ty, x), IntOperand(ty, y);
    if (op.Div? || op.Mod?) && b != 0 {
      TruncatesTowardZero(a, b);
      assert Divides(a, b, TruncDiv(a, b), TruncRem(a, b));
    }
  }

  /** There is one such quotient and remainder. */
  lemma DivisionIsUnique(a: int, b: int, q: int, r: int)
    requires b != 0 && Divides(a, b, q, r)
    ensures q == TruncDiv(a, b) && r == TruncRem(a, b)
  {
    hide TruncDiv, TruncRem;
    TruncatesTowardZero(a, b);
    var other := TruncDiv(a, b);
    assert b * (q - other) == b * q - b * other;
    if q != other {
      AbsMul(b, q - other);
      MulAtLeast(Abs(b), Abs(q - other));
      assert false;
    }
  }

  /** The ranges of the integer types. */
  lemma RangesAre()
    ensures Min(Int8) == -0x80 && Max(Int8) == 0x7F && Min(UInt8) == 0 && Max(UInt8) == 0xFF
    ensures Min(Int16) == -0x8000 && Max(Int16) == 0x7FFF && Min(UInt16) == 0 && Max(UInt16) == 0xFFFF
    ensures Min(Int32) == -0x8000_0000 && Max(Int32) == 0x7FFF_FFFF && Min(UInt32) == 0 && Max(UInt32) == 0xFFFF_FFFF
    ensures Min(Int64) == -0x8000_0000_0000_0000 && Max(Int64) == 0x7FFF_FFFF_FFFF_FFFF
    ensures Min(UInt64) == 0 && Max(UInt64) == 0xFFFF_FFFF_FFFF_FFFF
  {
    hide Pow2;
    Words();
  }

  /** Comparison follows the mathematical order, also where stored words do not. */
  lemma CompareIsExact(op: BinOp, ty: IntType, a: int, b: int)
    requires IsOrder(op) && InRange(ty, a) && InRange(ty, b)
    ensures ApplyBinaryOp(op, ty, Int(StoreWord(a)), Int(StoreWord(b))) ==
            Ok(Bool(match op case Gt => a > b case GtEq => a >= b case Lt => a < b case _ => a <= b))
  {
    StoreRoundTrip(ty, a);
    StoreRoundTrip(ty, b);
  }

  /** What a fault says. */
  lemma FaultsSay()
    ensures Overflow(Add) == Panicked("integer overflow in +") && Overflow(Sub) == Panicked("integer overflow in -")
    ensures Overflow(Mul) == Panicked("integer overflow in *") && Overflow(Div) == Panicked("integer overflow in /")
    ensures Overflow(Mod) == Panicked("integer overflow in %")
    ensures DivisionByZero(Div) == Panicked("division by zero in /")
    ensures DivisionByZero(Mod) == Panicked("division by zero in %")
  {
  }

  /** Arithmetic and order are for integers. */
  lemma OnlyIntegers(op: BinOp, ty: IntType, lhs: Value, rhs: Value)
    requires (IsArith(op) || IsOrder(op)) && !(lhs.Int? && rhs.Int?)
    ensures ApplyBinaryOp(op, ty, lhs, rhs) == Err(OperandMismatch)
  {
  }

  /** Values of one kind that `==` compares. */
  predicate Comparable(lhs: Value, rhs: Value) {
    (lhs.Unit? && rhs.Unit?) || (lhs.Bool? && rhs.Bool?) || (lhs.Int? && rhs.Int?) || (lhs.String? && rhs.String?)
  }

  /** Equality of two values of a primitive kind is being the same value; other pairs mismatch. */
  lemma EqualityIsExact(op: BinOp, ty: IntType, lhs: Value, rhs: Value)
    requires op.Eq? || op.NotEq?
    ensures !Comparable(lhs, rhs) ==> ApplyBinaryOp(op, ty, lhs, rhs) == Err(OperandMismatch)
    ensures Comparable(lhs, rhs) && op.Eq? ==> ApplyBinaryOp(op, ty, lhs, rhs) == Ok(Bool(lhs == rhs))
    ensures Comparable(lhs, rhs) && op.NotEq? ==> ApplyBinaryOp(op, ty, lhs, rhs) == Ok(Bool(lhs != rhs))
  {
  }

  /** Stored integers are the same word exactly when they are the same number. */
  lemma StoredOnce(ty: IntType, x: int, y: int)
    requires Stored(ty, x) && Stored(ty, y)
    ensures x == y <==> IntOperand(ty, x) == IntOperand(ty, y)
  {
    Words();
    hide IntOperand, Pow2;
    if IsUnsigned(ty) {
      UnsignedOperand(ty, x);
      UnsignedOperand(ty, y);
    } else {
      SignedOperand(ty, x);
      SignedOperand(ty, y);
    }
  }

  lemma SignedOperand(ty: IntType, x: int)
    requires !IsUnsigned(ty)
    ensures IntOperand(ty, x) == x
  {
  }

  /** The remainder by minus one is zero, the least value included: it never faults. */
  lemma RemainderByMinusOne(ty: IntType, x: int)
    requires !IsUnsigned(ty) && Stored(ty, x)
    ensures ApplyIntArith(Mod, ty, Int(x), Int(-1)) == Ok(Int(0))
  {
    Words();
    RangeBounds(ty);
    ArithByExact(Mod, ty, x, -1);
    TruncatesTowardZero(x, -1);
  }

  // ----- negation -----

  /** Negation of the value the word stands for, or a fault when it is out of range. */
  ghost predicate NegIsRight(ty: IntType, x: int) {
    var a, result := IntOperand(ty, x), ApplyNeg(ty, Int(x));
    if InRange(ty, -a) then result.Ok? && Represents(ty, result.value, -a) else result.Err?
  }

  /** What an unsigned word stands for. */
  lemma UnsignedOperand(ty: IntType, x: int)
    requires IsUnsigned(ty) && Stored(ty, x)
    ensures IntOperand(ty, x) == if x >= 0 then x else x + 0x1_0000_0000_0000_0000
    ensures x < 0 ==> ty.UInt64?
  {
    Words();
    if x >= 0 {
      DivModUnique(x, Pow2(64), 0, x);
    } else {
      DivModUnique(x, Pow2(64), -1, x + Pow2(64));
    }
  }

  lemma NegOutcome(ty: IntType, x: int)
    ensures ApplyNeg(ty, Int(x)).Ok? <==> InRange(ty, -x)
    ensures InRange(ty, -x) ==> ApplyNeg(ty, Int(x)).Ok? && Represents(ty, ApplyNeg(ty, Int(x)).value, -x)
  {
    hide StoreWord, Stored, IntOperand, Min, Max;
    if InRange(ty, -x) {
      StoreRoundTrip(ty, -x);
    }
  }

  lemma NegOfSigned(ty: IntType, x: int)
    requires !IsUnsigned(ty) && Stored(ty, x)
    ensures NegIsRight(ty, x)
  {
    NegOutcome(ty, x);
  }

  lemma NegOfSmallUnsigned(ty: IntType, x: int)
    requires IsUnsigned(ty) && Stored(ty, x) && x >= 0
    ensures NegIsRight(ty, x)
  {
    UnsignedOperand(ty, x);
    NegOutcome(ty, x);
  }

  lemma NegOfLargeUInt64(x: int)
    requires Stored(UInt64, x) && x < 0
    ensures ApplyNeg(UInt64, Int(x)).Ok? && !InRange(UInt64, -IntOperand(UInt64, x))
  {
    Words();
    RangeBounds(UInt64);
    UnsignedOperand(UInt64, x);
  }

  /** Unary minus is right exactly when the word is not a `UInt64` past 2^63. */
  lemma NegIsRightIff(ty: IntType, x: int)
    requires Stored(ty, x)
    ensures NegIsRight(ty, x) <==> !(ty.UInt64? && x < 0)
  {
    if !IsUnsigned(ty) {
      NegOfSigned(ty, x);
    } else if x >= 0 {
      NegOfSmallUnsigned(ty, x);
    } else {
      UnsignedOperand(ty, x);
      NegOfLargeUInt64(x);
    }
  }

  /** The greatest `UInt64` negates to one instead of faulting. */
  lemma NegOfGreatestUInt64()
    ensures IntOperand(UInt64, -1) == 0xFFFF_FFFF_FFFF_FFFF
    ensures ApplyNeg(UInt64, Int(-1)) == Ok(Int(1))
  {
    Words();
    DivModUnique(-1, Pow2(64), -1, Pow2(64) - 1);
    DivModUnique(1, Pow2(64), 0, 1);
  }
}
