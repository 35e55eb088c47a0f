// Arithmetic and comparison over tagged values: small integers, heap integers
// and floats. The operations are written once over the accessors of a value, so
// a value is modelled by what those accessors reveal; `Words` reads it off the
// tagged word.
module Arith {
  import opened Wrappers
  import opened NanBox

  type Handle = nat

  // Finite doubles are compared as the reals they are. The result of a float
  // operation is not modelled, only that it is a float.
  datatype F64 = Finite(r: real) | Infinity(positive: bool) | NaN

  datatype Value =
    | SmallInt(i: int)
    | BigInt(h: Handle)
    | Float(f: F64)
    | Bool(b: bool)
    | Nil
    | Symbol(idx: nat)
    | Complex(id: nat)
    | Other(id: nat)

  // A heap integer and the number of references to it.
  datatype Cell = Cell(n: int, strong: nat)

  type Cells = map<Handle, Cell>

  // What an operation hands to the boxing step.
  datatype Boxed = Inline(v: Value) | Allocate(n: int) | SomeFloat | SomeComplex

  datatype ArithError = TypeError | ZeroDivision

  datatype Result<+T> = Ok(value: T) | Err(error: ArithError)

  // The caller guarantees that operands are live.
  predicate Live(cells: Cells, v: Value) {
    && (v.SmallInt? ==> Fits47(v.i))
    && (v.BigInt? ==> v.h in cells)
  }

  predicate Fits47(n: int) {
    SMALLINT_MIN <= n <= SMALLINT_MAX
  }

  predicate FitsI64(n: int) {
    I64_MIN <= n <= I64_MAX
  }

  predicate IsInteger(v: Value) {
    v.SmallInt? || v.BigInt?
  }

  // The integer a value stands for.
  function Denotes(cells: Cells, v: Value): int
    requires IsInteger(v) && Live(cells, v)
  {
    if v.SmallInt? then v.i else cells[v.h].n
  }

  // The one box of an integer: inline when it fits 47 bits, on the heap otherwise.
  function Canonical(n: int): Boxed {
    if Fits47(n) then Inline(SmallInt(n)) else Allocate(n)
  }

  // ---- Boxing ----

  function TryFromInt(n: int): Option<Value> {
    if Fits47(n) then Some(SmallInt(n)) else None
  }

  // Unchecked: keeps the low 47 bits (`NanBox.IntReadsBack`).
  function FromIntUnchecked(n: int): Value {
    SmallInt(Wrap47(n))
  }

  function FromBigIntOrDemote(n: int): Boxed {
    if FitsI64(n) && TryFromInt(n).Some? then Inline(TryFromInt(n).value) else Allocate(n)
  }

  // An i64 operation that reports overflow.
  function Checked(n: int): Option<int> {
    if FitsI64(n) then Some(n) else None
  }

  // ---- Binary operations ----

  datatype RingOp = Add | Sub | Mul

  function Exact(op: RingOp, x: int, y: int): int {
    match op
    case Add => x + y
    case Sub => x - y
    case Mul => x * y
  }

  predicate HasFloat(v: Value) {
    v.Float? || IsInteger(v)
  }

  predicate HasComplex(v: Value) {
    v.Complex? || HasFloat(v)
  }

  function BigIntBinop(cells: Cells, a: Value, b: Value, op: (int, int) -> int): Option<Boxed>
    requires Live(cells, a) && Live(cells, b)
  {
    if a.BigInt? && b.BigInt? then Some(FromBigIntOrDemote(op(cells[a.h].n, cells[b.h].n)))
    else if a.BigInt? && b.SmallInt? then Some(FromBigIntOrDemote(op(cells[a.h].n, b.i)))
    else if b.BigInt? && a.SmallInt? then Some(FromBigIntOrDemote(op(a.i, cells[b.h].n)))
    else None
  }

  // `numeric_add`, `numeric_sub` and `numeric_mul`.
  function NumericRing(op: RingOp, cells: Cells, a: Value, b: Value): Result<Boxed>
    requires Live(cells, a) && Live(cells, b)
  {
    if (a.Complex? || b.Complex?) && HasComplex(a) && HasComplex(b) then Ok(SomeComplex)
    else if a.SmallInt? && b.SmallInt? then
      var n := Checked(Exact(op, a.i, b.i));
      if n.Some? && TryFromInt(n.value).Some? then Ok(Inline(TryFromInt(n.value).value))
      else Ok(FromBigIntOrDemote(Exact(op, a.i, b.i)))
    else
      var big := if a.BigInt? || b.BigInt? then BigIntBinop(cells, a, b, (x, y) => Exact(op, x, y)) else None;
      if big.Some? then Ok(big.value)
      else if HasFloat(a) && HasFloat(b) then Ok(SomeFloat)
      else Err(TypeError)
  }

  // Division of i64 truncates towards zero, and the remainder has the sign of
  // the dividend.
  function TruncDiv(a: int, b: int): int
    requires b != 0
  {
    if a >= 0 then a / b else -((-a) / b)
  }

  function TruncRem(a: int, b: int): int
    requires b != 0
  {
    if a >= 0 then a % b else -((-a) % b)
  }

  // The sign bit of `x ^ y`.
  predicate XorIsNegative(x: int, y: int) {
    (x < 0) != (y < 0)
  }

  function I64DivFloor(a: int, b: int): int
    requires b != 0
  {
    var d, r := TruncDiv(a, b), TruncRem(a, b);
    if r != 0 && XorIsNegative(r, b) then d - 1 else d
  }

  function I64ModFloor(a: int, b: int): int
    requires b != 0
  {
    var r := TruncRem(a, b);
    if r != 0 && XorIsNegative(r, b) then r + b else r
  }

  // The floor of the exact quotient, as the big-integer library computes it.
  function FloorDiv(a: int, b: int): int
    requires b != 0
  {
    if b > 0 then a / b else (-a) / (-b)
  }

  function FloorMod(a: int, b: int): int
    requires b != 0
  {
    a - FloorDiv(a, b) * b
  }

  function NumericFloorDiv(cells: Cells, a: Value, b: Value): Result<Boxed>
    requires Live(cells, a) && Live(cells, b)
  {
    if a.SmallInt? && b.SmallInt? then
      if b.i == 0 then Err(ZeroDivision) else Ok(Inline(FromIntUnchecked(I64DivFloor(a.i, b.i))))
    else if (a.BigInt? || b.BigInt?) && IsInteger(b) && Denotes(cells, b) == 0 then Err(ZeroDivision)
    else if a.BigInt? || b.BigInt? then
      var big := BigIntBinop(cells, a, b, (x, y) => if y == 0 then 0 else FloorDiv(x, y));
      if big.Some? then Ok(big.value) else Err(TypeError)
    else FloatDivision(a, b)
  }

  function NumericMod(cells: Cells, a: Value, b: Value): Result<Boxed>
    requires Live(cells, a) && Live(cells, b)
  {
    if a.SmallInt? && b.SmallInt? then
      if b.i == 0 then Err(ZeroDivision) else Ok(Inline(FromIntUnchecked(I64ModFloor(a.i, b.i))))
    else if (a.BigInt? || b.BigInt?) && IsInteger(b) && Denotes(cells, b) == 0 then Err(ZeroDivision)
    else if a.BigInt? || b.BigInt? then
      var big := BigIntBinop(cells, a, b, (x, y) => if y == 0 then 0 else FloorMod(x, y));
      if big.Some? then Ok(big.value) else Err(TypeError)
    else FloatDivision(a, b)
  }

  // A heap integer with a float operand is a type error for `//` and `%`.
  function FloatDivision(a: Value, b: Value): Result<Boxed>
    requires !a.BigInt? && !b.BigInt?
  {
    if HasFloat(a) && HasFloat(b) then
      if AsF64(b) == Some(Finite(0.0)) then Err(ZeroDivision) else Ok(SomeFloat)
    else Err(TypeError)
  }

  function Pow(x: int, n: nat): int {
    if n == 0 then 1 else x * Pow(x, n - 1)
  }

  function NumericPow(cells: Cells, a: Value, b: Value): Result<Boxed>
    requires Live(cells, a) && Live(cells, b)
  {
    if (a.Complex? || b.Complex?) && HasComplex(a) && HasComplex(b) then Ok(SomeComplex)
    else if a.SmallInt? && b.SmallInt? then
      if b.i >= 0 then
        var n := if b.i <= 64 then Checked(Pow(a.i, b.i)) else None;
        if n.Some? && TryFromInt(n.value).Some? then Ok(Inline(TryFromInt(n.value).value))
        else if b.i < 0x1_0000_0000 then Ok(FromBigIntOrDemote(Pow(a.i, b.i)))
        else Ok(SomeFloat)
      else Ok(SomeFloat)
    else if IsInteger(a) && b.SmallInt? && 0 <= b.i < 0x1_0000_0000 then
      Ok(FromBigIntOrDemote(Pow(Denotes(cells, a), b.i)))
    else if HasFloat(a) && HasFloat(b) then Ok(SomeFloat)
    else Err(TypeError)
  }

  function NumericNeg(cells: Cells, a: Value): Result<Boxed>
    requires Live(cells, a)
  {
    match a
    case Complex(_) => Ok(SomeComplex)
    case SmallInt(i) =>
      if TryFromInt(-i).Some? then Ok(Inline(TryFromInt(-i).value)) else Ok(FromBigIntOrDemote(-i))
    case BigInt(h) => Ok(FromBigIntOrDemote(-cells[h].n))
    case Float(_) => Ok(SomeFloat)
    case _ => Err(TypeError)
  }

  // The binary operations that can give an integer.
  datatype Op = Ring(ring: RingOp) | FloorDivide | Modulo | Power

  function Operate(op: Op, cells: Cells, a: Value, b: Value): Result<Boxed>
    requires Live(cells, a) && Live(cells, b)
  {
    match op
    case Ring(ring) => NumericRing(ring, cells, a, b)
    case FloorDivide => NumericFloorDiv(cells, a, b)
    case Modulo => NumericMod(cells, a, b)
    case Power => NumericPow(cells, a, b)
  }

  // What can be handed to the boxing step: inline results are small integers
  // within range.
  predicate Boxable(r: Result<Boxed>) {
    r.Ok? && r.value.Inline? ==> r.value.v.SmallInt? && Fits47(r.value.v.i)
  }

  lemma OperateBoxes(op: Op, cells: Cells, a: Value, b: Value)
    requires Live(cells, a) && Live(cells, b)
    ensures Boxable(Operate(op, cells, a, b)) && Boxable(NumericNeg(cells, a))
  {
  }

  // ---- Comparison ----

  datatype CmpOp = Lt | Le | Gt | Ge

  predicate Holds(op: CmpOp, x: real, y: real) {
    match op
    case Lt => x < y
    case Le => x <= y
    case Gt => x > y
    case Ge => x >= y
  }

  predicate HoldsInt(op: CmpOp, x: int, y: int) {
    match op
    case Lt => x < y
    case Le => x <= y
    case Gt => x > y
    case Ge => x >= y
  }

  // IEEE comparison: NaN is unordered, infinities are extreme.
  predicate HoldsF64(op: CmpOp, x: F64, y: F64) {
    match (x, y)
    case (Finite(r), Finite(s)) => Holds(op, r, s)
    case (NaN, _) => false
    case (_, NaN) => false
    case _ => Holds(op, Sign(x), Sign(y))
  }

  function Sign(x: F64): real
    requires !x.NaN?
  {
    match x
    case Finite(_) => 0.0
    case Infinity(positive) => if positive then 1.0 else -1.0
  }

  predicate EqualF64(x: F64, y: F64) {
    !x.NaN? && x == y
  }

  // A small integer converts exactly (`Words.SmallIntIsDouble`).
  function AsF64(v: Value): Option<F64> {
    match v
    case Float(f) => Some(f)
    case SmallInt(i) => Some(Finite(i as real))
    case _ => None
  }

  function BigIntCmp(cells: Cells, a: Value, b: Value, cmp: (int, int) -> bool): Option<bool>
    requires Live(cells, a) && Live(cells, b)
  {
    if a.BigInt? && b.BigInt? then Some(cmp(cells[a.h].n, cells[b.h].n))
    else if a.BigInt? && b.SmallInt? then Some(cmp(cells[a.h].n, b.i))
    else if b.BigInt? && a.SmallInt? then Some(cmp(a.i, cells[b.h].n))
    else None
  }

  // `numeric_lt`, `numeric_le`, `numeric_gt` and `numeric_ge`.
  function NumericCompare(op: CmpOp, cells: Cells, a: Value, b: Value): Result<bool>
    requires Live(cells, a) && Live(cells, b)
  {
    if a.SmallInt? && b.SmallInt? then Ok(HoldsInt(op, a.i, b.i))
    else
      var big := if a.BigInt? || b.BigInt? then BigIntCmp(cells, a, b, (x, y) => HoldsInt(op, x, y)) else None;
      if big.Some? then Ok(big.value)
      else if AsF64(a).Some? && AsF64(b).Some? then Ok(HoldsF64(op, AsF64(a).value, AsF64(b).value))
      else Err(TypeError)
  }

  // Equality is decided, or compares the float parts of complex numbers (not
  // modelled), or is left to the caller.
  datatype Verdict = Decided(equal: bool) | ByComplexParts | NotDecidable

  function EqScalar(cells: Cells, a: Value, b: Value): Verdict
    requires Live(cells, a) && Live(cells, b)
  {
    if a.Nil? || b.Nil? then Decided(a.Nil? && b.Nil?)
    else if a.SmallInt? && b.SmallInt? then Decided(a.i == b.i)
    else if a.Bool? && b.Bool? then Decided(a.b == b.b)
    else if (a.Complex? || b.Complex?) && HasComplex(a) && HasComplex(b) then ByComplexParts
    else if a.BigInt? || b.BigInt? then
      var eq := BigIntCmp(cells, a, b, (x, y) => x == y);
      if eq.Some? then Decided(eq.value) else NotDecidable
    else if AsF64(a).Some? && AsF64(b).Some? then Decided(EqualF64(AsF64(a).value, AsF64(b).value))
    else NotDecidable
  }

  // ---- Laws ----

  // On integers in any mix of representations, sum, difference and product are
  // exact and the result is boxed canonically.
  lemma RingIsExact(op: RingOp, cells: Cells, a: Value, b: Value)
    requires Live(cells, a) && Live(cells, b) && IsInteger(a) && IsInteger(b)
    ensures NumericRing(op, cells, a, b) == Ok(Canonical(Exact(op, Denotes(cells, a), Denotes(cells, b))))
  {
  }

  lemma SumsAndProductsAreExact(cells: Cells, a: Value, b: Value)
    requires Live(cells, a) && Live(cells, b) && IsInteger(a) && IsInteger(b)
    ensures NumericRing(Add, cells, a, b) == Ok(Canonical(Denotes(cells, a) + Denotes(cells, b)))
    ensures NumericRing(Sub, cells, a, b) == Ok(Canonical(Denotes(cells, a) - Denotes(cells, b)))
    ensures NumericRing(Mul, cells, a, b) == Ok(Canonical(Denotes(cells, a) * Denotes(cells, b)))
  {
    RingIsExact(Add, cells, a, b);
    RingIsExact(Sub, cells, a, b);
    RingIsExact(Mul, cells, a, b);
  }

  predicate IsNumber(v: Value) {
    v.SmallInt? || v.BigInt? || v.Float? || v.Complex?
  }

  // With an operand of another kind: complex numbers win over floats, floats over
  // integers, and everything else is a type error.
  lemma RingOnOtherKinds(op: RingOp, cells: Cells, a: Value, b: Value)
    requires Live(cells, a) && Live(cells, b) && !(IsInteger(a) && IsInteger(b))
    ensures NumericRing(op, cells, a, b) ==
            if !IsNumber(a) || !IsNumber(b) then Err(TypeError)
            else if a.Complex? || b.Complex? then Ok(SomeComplex)
            else Ok(SomeFloat)
  {
  }

  // Division with a float works on floats and small integers, and fails on a zero
  // divisor; a heap integer and a float do not divide.
  lemma DivisionOnOtherKinds(cells: Cells, a: Value, b: Value)
    requires Live(cells, a) && Live(cells, b) && !(IsInteger(a) && IsInteger(b))
    ensures var r := if (a.Float? || a.SmallInt?) && (b.Float? || b.SmallInt?) then
                       if b == Float(Finite(0.0)) || b == SmallInt(0) then Err(ZeroDivision) else Ok(SomeFloat)
                     else if a.BigInt? || b.BigInt? then
                       if b == SmallInt(0) || (b.BigInt? && cells[b.h].n == 0) then Err(ZeroDivision)
                       else Err(TypeError)
                     else Err(TypeError);
            NumericFloorDiv(cells, a, b) == r && NumericMod(cells, a, b) == r
  {
  }

  lemma PowOnOtherKinds(cells: Cells, a: Value, b: Value)
    requires Live(cells, a) && Live(cells, b) && !(IsInteger(a) && IsInteger(b))
    ensures NumericPow(cells, a, b) ==
            if !IsNumber(a) || !IsNumber(b) then Err(TypeError)
            else if a.Complex? || b.Complex? then Ok(SomeComplex)
            else Ok(SomeFloat)
  {
  }

  lemma NegOnOtherKinds(cells: Cells, a: Value)
    requires Live(cells, a) && !IsInteger(a)
    ensures NumericNeg(cells, a) ==
            if a.Complex? then Ok(SomeComplex) else if a.Float? then Ok(SomeFloat) else Err(TypeError)
  {
  }

  lemma NegIsExact(cells: Cells, a: Value)
    requires Live(cells, a) && IsInteger(a)
    ensures NumericNeg(cells, a) == Ok(Canonical(-Denotes(cells, a)))
  {
  }

  // Powers are exact up to the exponents that fit a u32; past them, for negative
  // exponents and for heap exponents the result is a float.
  lemma PowIsExact(cells: Cells, a: Value, b: Value)
    requires Live(cells, a) && Live(cells, b) && IsInteger(a) && IsInteger(b)
    ensures b.SmallInt? && 0 <= b.i < 0x1_0000_0000 ==>
              NumericPow(cells, a, b) == Ok(Canonical(Pow(Denotes(cells, a), b.i)))
    ensures !(b.SmallInt? && 0 <= b.i < 0x1_0000_0000) ==> NumericPow(cells, a, b) == Ok(SomeFloat)
  {
  }

  // Powers are repeated products.
  lemma {:induction false} PowAdds(x: int, m: nat, n: nat)
    ensures Pow(x, 0) == 1 && Pow(x, 1) == x
    ensures Pow(x, m + n) == Pow(x, m) * Pow(x, n)
  {
    assert Pow(x, 1) == x * Pow(x, 0);
    if m > 0 {
      PowAdds(x, m - 1, n);
      assert Pow(x, m + n) == x * (Pow(x, m - 1) * Pow(x, n)) == (x * Pow(x, m - 1)) * Pow(x, n);
    }
  }

  // ---- Floor division ----

  lemma TruncDivLaw(a: int, b: int)
    requires b != 0
    ensures a == TruncDiv(a, b) * b + TruncRem(a, b)
    ensures -Abs(b) < TruncRem(a, b) < Abs(b)
    ensures a >= 0 ==> TruncRem(a, b) >= 0
    ensures a <= 0 ==> TruncRem(a, b) <= 0
  {
    var x := if a >= 0 then a else -a;
    assert x == (x / b) * b + x % b;
    assert -((x / b) * b) == (-(x / b)) * b;
  }

  function Abs(x: int): int {
    if x < 0 then -x else x
  }

  // `r` has the sign of the divisor, or is zero, and is smaller than it.
  predicate IsFloorRemainder(r: int, b: int) {
    if b > 0 then 0 <= r < b else b < r <= 0
  }

  // There is one quotient whose remainder has the sign of the divisor: it is the
  // floor of the exact quotient.
  lemma FloorQuotientUnique(a: int, b: int, p: int, q: int)
    requires b != 0 && IsFloorRemainder(a - p * b, b) && IsFloorRemainder(a - q * b, b)
    ensures p == q
  {
    assert (p - q) * b == (a - q * b) - (a - p * b);
    assert (q - p) * b == (a - p * b) - (a - q * b);
    if p - q >= 1 {
      FactorAtLeast(p - q, b);
    } else if q - p >= 1 {
      FactorAtLeast(q - p, b);
    }
  }

  lemma FactorAtLeast(k: int, b: int)
    requires k >= 1
    ensures b >= 0 ==> k * b >= b
    ensures b <= 0 ==> k * b <= b
  {
  }

  lemma FloorDivLaw(a: int, b: int)
    requires b != 0
    ensures IsFloorRemainder(a - FloorDiv(a, b) * b, b)
    ensures FloorDiv(a, b) == (a as real / b as real).Floor
  {
    var q := FloorDiv(a, b);
    if b > 0 {
      assert a == (a / b) * b + a % b;
    } else {
      assert -a == ((-a) / (-b)) * (-b) + (-a) % (-b);
      assert q * b == -(q * (-b));
    }
    FloorOfQuotient(a, b, q);
  }

  lemma FloorOfQuotient(a: int, b: int, q: int)
    requires b != 0 && IsFloorRemainder(a - q * b, b)
    ensures q == (a as real / b as real).Floor
  {
    var x, y, r := a as real, b as real, (a - q * b) as real;
    assert (q * b) as real == q as real * y;
    var u := x / y - q as real;
    assert u * y == x - q as real * y == r;
    if b > 0 { UnitRatio(u, y, r); } else { assert u * -y == -r; UnitRatio(u, -y, -r); }
  }

  lemma UnitRatio(u: real, y: real, r: real)
    requires y > 0.0 && u * y == r && 0.0 <= r < y
    ensures 0.0 <= u < 1.0
  {
    if u < 0.0 {
      ScaleReal(u, 0.0, y);
    } else if u >= 1.0 {
      ScaleReal(1.0, u, y);
    }
  }

  lemma ScaleReal(u: real, v: real, y: real)
    requires y > 0.0
    ensures u < v ==> u * y < v * y
    ensures u <= v ==> u * y <= v * y
  {
  }

  // The machine-integer form with its sign test computes the floor division.
  lemma I64FormsAgree(a: int, b: int)
    requires b != 0
    ensures I64DivFloor(a, b) == FloorDiv(a, b)
    ensures I64ModFloor(a, b) == FloorMod(a, b)
  {
    TruncDivLaw(a, b);
    FloorDivLaw(a, b);
    var d, r := TruncDiv(a, b), TruncRem(a, b);
    if r != 0 && XorIsNegative(r, b) {
      assert (d - 1) * b == d * b - b;
      FloorQuotientUnique(a, b, d - 1, FloorDiv(a, b));
    } else {
      FloorQuotientUnique(a, b, d, FloorDiv(a, b));
    }
  }

  // Division law on the tower: q * b + r == a, r has the divisor's sign, and
  // only a zero divisor is an error.
  lemma DivModLaw(a: int, b: int)
    requires b != 0
    ensures I64DivFloor(a, b) * b + I64ModFloor(a, b) == a
    ensures IsFloorRemainder(I64ModFloor(a, b), b)
  {
    I64FormsAgree(a, b);
    FloorDivLaw(a, b);
  }

  lemma QuotientRange(a: int, b: int)
    requires Fits47(a) && Fits47(b) && b != 0
    ensures Fits47(I64DivFloor(a, b)) <==> !(a == SMALLINT_MIN && b == -1)
    ensures a == SMALLINT_MIN && b == -1 ==> I64DivFloor(a, b) == SMALLINT_MAX + 1
    ensures Fits47(I64ModFloor(a, b))
  {
    I64FormsAgree(a, b);
    DivModLaw(a, b);
    var q := I64DivFloor(a, b);
    if b == 1 {
    } else if b == -1 {
      assert q == -a;
    } else {
      QuotientShrinks(a, b, q);
    }
  }

  lemma QuotientShrinks(a: int, b: int, q: int)
    requires Abs(b) >= 2 && IsFloorRemainder(a - q * b, b)
    ensures q >= 1 ==> 2 * q <= Abs(a)
    ensures q <= -2 ==> -2 * q - 2 <= Abs(a)
  {
    var c := Abs(b);
    assert b < 0 ==> q * c == -(q * b);
    if q >= 1 {
      MulMono(q, 2, c);
    } else if q <= -2 {
      MulMono(-q - 1, 2, c);
      assert (-q - 1) * c == -(q * c) - c;
    }
  }

  lemma MulMono(k: int, x: int, y: int)
    requires k >= 0 && x <= y
    ensures k * x <= k * y
  {
  }

  // Floor division and remainder of integers in any mix of representations are
  // exact and canonical, with one exception: the smallest small integer divided
  // by minus one, whose quotient no longer fits and reads back negated.
  lemma FloorDivIsExact(cells: Cells, a: Value, b: Value)
    requires Live(cells, a) && Live(cells, b) && IsInteger(a) && IsInteger(b)
    ensures var x, y := Denotes(cells, a), Denotes(cells, b);
            if y == 0 then
              NumericFloorDiv(cells, a, b) == Err(ZeroDivision) && NumericMod(cells, a, b) == Err(ZeroDivision)
            else
              && (NumericFloorDiv(cells, a, b) == Ok(Canonical(FloorDiv(x, y))) <==>
                  !(a == SmallInt(SMALLINT_MIN) && b == SmallInt(-1)))
              && NumericMod(cells, a, b) == Ok(Canonical(FloorMod(x, y)))
    ensures a == SmallInt(SMALLINT_MIN) && b == SmallInt(-1) ==>
              NumericFloorDiv(cells, a, b) == Ok(Inline(SmallInt(SMALLINT_MIN)))
  {
    if a.SmallInt? && b.SmallInt? && b.i != 0 {
      SmallQuotient(a.i, b.i);
    }
  }

  lemma SmallQuotient(x: int, y: int)
    requires Fits47(x) && Fits47(y) && y != 0
    ensures Fits47(FloorMod(x, y)) && FromIntUnchecked(I64ModFloor(x, y)) == SmallInt(FloorMod(x, y))
    ensures if x == SMALLINT_MIN && y == -1 then
              !Fits47(FloorDiv(x, y)) && FromIntUnchecked(I64DivFloor(x, y)) == SmallInt(SMALLINT_MIN)
            else
              Fits47(FloorDiv(x, y)) && FromIntUnchecked(I64DivFloor(x, y)) == SmallInt(FloorDiv(x, y))
  {
    I64FormsAgree(x, y);
    QuotientRange(x, y);
  }

  // ---- One order ----

  predicate IsReal(v: Value) {
    IsInteger(v) || (v.Float? && v.f.Finite?)
  }

  // The real number a value stands for.
  function RealValue(cells: Cells, v: Value): real
    requires IsReal(v) && Live(cells, v)
  {
    if v.Float? then v.f.r else Denotes(cells, v) as real
  }

  // A heap integer cannot be compared with a float.
  predicate Comparable(a: Value, b: Value) {
    !(a.BigInt? && b.Float?) && !(a.Float? && b.BigInt?)
  }

  // The four comparisons and equality are one order, that of the real numbers,
  // in every mix of representations that they accept.
  lemma ComparisonIsOneOrder(cells: Cells, a: Value, b: Value)
    requires Live(cells, a) && Live(cells, b) && IsReal(a) && IsReal(b)
    ensures var x, y := RealValue(cells, a), RealValue(cells, b);
            if Comparable(a, b) then
              && NumericCompare(Lt, cells, a, b) == Ok(x < y) && NumericCompare(Le, cells, a, b) == Ok(x <= y)
              && NumericCompare(Gt, cells, a, b) == Ok(x > y) && NumericCompare(Ge, cells, a, b) == Ok(x >= y)
              && EqScalar(cells, a, b) == Decided(x == y)
            else
              (forall op :: NumericCompare(op, cells, a, b) == Err(TypeError)) && EqScalar(cells, a, b) == NotDecidable
  {
    forall op ensures Comparable(a, b) || NumericCompare(op, cells, a, b) == Err(TypeError) {
    }
  }

  // `x` comes before `y`: a NaN before and after nothing, the infinities at the ends.
  predicate ComesBefore(x: F64, y: F64) {
    match (x, y)
    case (NaN, _) => false
    case (_, NaN) => false
    case (Finite(r), Finite(s)) => r < s
    case (Finite(_), Infinity(positive)) => positive
    case (Infinity(positive), Finite(_)) => !positive
    case (Infinity(p), Infinity(q)) => !p && q
  }

  // The same for all doubles: every comparison with a NaN is false, and so is
  // equality, even with itself.
  lemma DoublesCompare(cells: Cells, a: Value, b: Value)
    requires Live(cells, a) && Live(cells, b) && AsF64(a).Some? && AsF64(b).Some? && (a.Float? || b.Float?)
    ensures var x, y := AsF64(a).value, AsF64(b).value;
            var same := x == y && !x.NaN?;
            && NumericCompare(Lt, cells, a, b) == Ok(ComesBefore(x, y))
            && NumericCompare(Le, cells, a, b) == Ok(ComesBefore(x, y) || same)
            && NumericCompare(Gt, cells, a, b) == Ok(ComesBefore(y, x))
            && NumericCompare(Ge, cells, a, b) == Ok(ComesBefore(y, x) || same)
            && EqScalar(cells, a, b) == Decided(same)
  {
  }

  // Nil equals nil and nothing else, booleans equal themselves, complex numbers
  // compare by their parts with every number, and the rest is left to the caller.
  // Only numbers that are not complex can be ordered.
  lemma OtherKindsCompare(cells: Cells, a: Value, b: Value)
    requires Live(cells, a) && Live(cells, b)
    ensures a.Nil? ==> EqScalar(cells, a, b) == Decided(b.Nil?) && EqScalar(cells, b, a) == Decided(b.Nil?)
    ensures a.Bool? && b.Bool? ==> EqScalar(cells, a, b) == Decided(a.b == b.b)
    ensures a.Complex? && IsNumber(b) ==> EqScalar(cells, a, b) == EqScalar(cells, b, a) == ByComplexParts
    ensures !a.Nil? && !b.Nil? && !(a.Bool? && b.Bool?) && !(IsNumber(a) && IsNumber(b)) ==>
              EqScalar(cells, a, b) == NotDecidable
    ensures !IsNumber(a) || a.Complex? || !IsNumber(b) || b.Complex? ==>
              forall op :: NumericCompare(op, cells, a, b) == Err(TypeError)
  {
  }

  // ---- All operations on integers ----

  // The result over the integers. Powers are integers for exponents that are small
  // integers and fit a u32.
  datatype Expected = Integer(n: int) | DivisionByZero | Inexact

  function Expect(op: Op, x: int, y: int, inline: bool): Expected {
    match op
    case Ring(ring) => Integer(Exact(ring, x, y))
    case FloorDivide => if y == 0 then DivisionByZero else Integer(FloorDiv(x, y))
    case Modulo => if y == 0 then DivisionByZero else Integer(FloorMod(x, y))
    case Power => if inline && 0 <= y < 0x1_0000_0000 then Integer(Pow(x, y)) else Inexact
  }

  // The quotient that does not fit the box it is put into.
  predicate IsOverflow(op: Op, a: Value, b: Value) {
    op == FloorDivide && a == SmallInt(SMALLINT_MIN) && b == SmallInt(-1)
  }

  lemma OperateIsExact(op: Op, cells: Cells, a: Value, b: Value)
    requires Live(cells, a) && Live(cells, b) && IsInteger(a) && IsInteger(b)
    ensures Operate(op, cells, a, b) ==
            match Expect(op, Denotes(cells, a), Denotes(cells, b), b.SmallInt?)
            case Integer(n) => Ok(if IsOverflow(op, a, b) then Inline(SmallInt(SMALLINT_MIN)) else Canonical(n))
            case DivisionByZero => Err(ZeroDivision)
            case Inexact => Ok(SomeFloat)
  {
    match op
    case Ring(ring) => RingIsExact(ring, cells, a, b);
    case Power => PowIsExact(cells, a, b);
    case _ => FloorDivIsExact(cells, a, b);
  }

  // ---- Integer expressions ----

  datatype Expr = Literal(n: int) | Minus(e: Expr) | Node(op: Op, left: Expr, right: Expr)

  // One operation on integers in their canonical boxes; none where it fails or has
  // no integer result. The machine boxes the overflowing quotient as it can.
  function StepExactly(op: Op, x: int, y: int): Option<int> {
    match Expect(op, x, y, Fits47(y))
    case Integer(n) => Some(n)
    case _ => None
  }

  function StepBoxed(op: Op, x: int, y: int): Option<int> {
    if op == FloorDivide && x == SMALLINT_MIN && y == -1 then Some(SMALLINT_MIN) else StepExactly(op, x, y)
  }

  // The value of an expression over the integers.
  function Meaning(e: Expr): Option<int> {
    match e
    case Literal(n) => Some(n)
    case Minus(f) => if Meaning(f).Some? then Some(-Meaning(f).value) else None
    case Node(op, l, r) =>
      if Meaning(l).Some? && Meaning(r).Some? then StepExactly(op, Meaning(l).value, Meaning(r).value) else None
  }

  // The value that the machine arrives at.
  function BoxedMeaning(e: Expr): Option<int> {
    match e
    case Literal(n) => Some(n)
    case Minus(f) => if BoxedMeaning(f).Some? then Some(-BoxedMeaning(f).value) else None
    case Node(op, l, r) =>
      if BoxedMeaning(l).Some? && BoxedMeaning(r).Some?
      then StepBoxed(op, BoxedMeaning(l).value, BoxedMeaning(r).value) else None
  }

  // Somewhere the smallest small integer is divided by minus one.
  predicate Overflows(e: Expr) {
    match e
    case Literal(_) => false
    case Minus(f) => Overflows(f)
    case Node(op, l, r) =>
      Overflows(l) || Overflows(r) ||
      (op == FloorDivide && Meaning(l) == Some(SMALLINT_MIN) && Meaning(r) == Some(-1))
  }

  // Apart from that quotient, the machine computes with integers.
  lemma {:induction false} BoxedMeaningIsExact(e: Expr)
    requires !Overflows(e)
    ensures BoxedMeaning(e) == Meaning(e)
  {
    match e
    case Literal(_) =>
    case Minus(f) => BoxedMeaningIsExact(f);
    case Node(op, l, r) =>
      BoxedMeaningIsExact(l);
      BoxedMeaningIsExact(r);
  }

  lemma StepsMean(x: int, y: int)
    ensures StepExactly(Ring(Add), x, y) == Some(x + y)
    ensures StepExactly(Ring(Sub), x, y) == Some(x - y)
    ensures StepExactly(Ring(Mul), x, y) == Some(x * y)
    ensures StepExactly(Power, x, y) == if 0 <= y < 0x1_0000_0000 then Some(Pow(x, y)) else None
  {
  }

  lemma DivisionsMean(x: int, y: int)
    ensures y == 0 ==> StepExactly(FloorDivide, x, y) == None && StepExactly(Modulo, x, y) == None
    ensures y != 0 ==>
              var q := (x as real / y as real).Floor;
              StepExactly(FloorDivide, x, y) == Some(q) && StepExactly(Modulo, x, y) == Some(x - q * y)
  {
    if y != 0 {
      FloorDivLaw(x, y);
    }
  }

  // What the operations of an expression mean, in the arithmetic of the integers and
  // of the reals.
  lemma MeaningOfNodes(l: Expr, r: Expr, x: int, y: int)
    requires Meaning(l) == Some(x) && Meaning(r) == Some(y)
    ensures Meaning(Minus(l)) == Some(-x)
    ensures Meaning(Node(Ring(Add), l, r)) == Some(x + y)
    ensures Meaning(Node(Ring(Sub), l, r)) == Some(x - y)
    ensures Meaning(Node(Ring(Mul), l, r)) == Some(x * y)
    ensures Meaning(Node(Power, l, r)) == if 0 <= y < 0x1_0000_0000 then Some(Pow(x, y)) else None
    ensures y == 0 ==> Meaning(Node(FloorDivide, l, r)) == Meaning(Node(Modulo, l, r)) == None
    ensures y != 0 ==>
              var q := (x as real / y as real).Floor;
              Meaning(Node(FloorDivide, l, r)) == Some(q) && Meaning(Node(Modulo, l, r)) == Some(x - q * y)
  {
    StepsMean(x, y);
    DivisionsMean(x, y);
  }
}
