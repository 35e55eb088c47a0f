// Arithmetic on tagged words. A word and the heap denote an integer; the
// operations give the word, and the heap, that denote the exact result.
module Words {
  import opened Wrappers
  import opened Bits
  import opened NanBox
  import opened Arith
  import Ledger

  // ---- What a word denotes ----

  // The integer in a word, or behind it.
  function Decode(heap: Cells, w: Word): Option<int> {
    if IsInt(w) then AsInt(w)
    else if IsBigInt(w) && Payload(w) in heap then Some(heap[Payload(w)].n)
    else None
  }

  function PowerOfTwo(e: int): real
    decreases if e < 0 then -e else e
  {
    if e == 0 then 1.0
    else if e > 0 then 2.0 * PowerOfTwo(e - 1)
    else PowerOfTwo(e + 1) / 2.0
  }

  // The double of a 64-bit interchange format (IEEE 754-2008, section 3.4).
  function F64Of(bits: Word): F64 {
    DoubleOf(bits < 0x8000_0000_0000_0000, Field(bits, 11, 52), Low(bits, 52))
  }

  // Exponent 0 is that of the subnormal numbers, which have no leading one.
  function DoubleOf(positive: bool, exponent: nat, mantissa: nat): F64 {
    if exponent == 0x7FF then if mantissa == 0 then Infinity(positive) else NaN
    else
      var significand := if exponent == 0 then mantissa else 0x10_0000_0000_0000 + mantissa;
      var magnitude := significand as real * PowerOfTwo(Max(exponent, 1) - 1075);
      Finite(if positive then magnitude else -magnitude)
  }

  // What the accessors reveal of a word. Tags that a virtual machine adds for its
  // own heap values are `Other`.
  function Reads(w: Word): Value {
    if IsFloat(w) then Float(F64Of(w))
    else if IsInt(w) then SmallInt(AsInt(w).value)
    else if IsBigInt(w) then BigInt(Payload(w))
    else if IsBool(w) then Bool(AsBool(w).value)
    else if IsSymbol(w) then Symbol(AsSymbol(w).value)
    else if IsNil(w) then Nil
    else Other(w)
  }

  lemma AsIntInRange(w: Word)
    requires IsInt(w)
    ensures Fits47(AsInt(w).value)
  {
    PayloadBound(w);
    SignExtended(Payload(w));
  }

  lemma ReadsInteger(heap: Cells, w: Word)
    ensures Decode(heap, w).Some? <==> IsInteger(Reads(w)) && Live(heap, Reads(w))
    ensures Decode(heap, w).Some? ==> Denotes(heap, Reads(w)) == Decode(heap, w).value
    ensures Decode(heap, w).Some? ==> (Reads(w).SmallInt? <==> IsInt(w))
  {
    EveryWordHasOneClass(w);
    if IsInt(w) {
      AsIntInRange(w);
    }
  }

  // Every word reads as what was boxed in it; whatever has none of these tags is
  // left to others.
  lemma WordsReadAsBoxed(b: bool, idx: nat, ptr: nat, w: Word)
    requires idx < 0x1_0000_0000 && ptr <= PAYLOAD_MASK
    ensures Reads(FromBool(b)) == Bool(b) && Reads(FromSymbol(idx)) == Symbol(idx)
    ensures Reads(FromHandle(ptr)) == BigInt(ptr)
    ensures Reads(w) == Nil <==> IsNil(w)
    ensures Reads(w).Other? <==> !IsFloat(w) && !IsInt(w) && !IsBigInt(w) && !IsBool(w) && !IsSymbol(w) && !IsNil(w)
  {
    BoolReadsBack(b);
    SymbolReadsBack(idx);
    HandleReadsBack(ptr);
    EveryWordHasOneClass(FromBool(b));
    EveryWordHasOneClass(FromSymbol(idx));
    EveryWordHasOneClass(FromHandle(ptr));
    EveryWordHasOneClass(w);
  }

  // Boxing keeps the number that a double stands for.
  lemma BoxedDouble(bits: Word)
    ensures Reads(FromFloat(bits)) == Float(F64Of(bits))
    ensures F64Of(bits).NaN? <==> IsNaN(bits)
  {
    FloatReadsBack(bits);
  }

  // ---- Small integers as doubles ----

  lemma {:induction false} ShlTwice(x: nat, k: nat)
    ensures Shl(2 * x, k) == 2 * Shl(x, k)
  {
    if k > 0 {
      ShlTwice(x, k - 1);
    }
  }

  // The shift that brings the leading one of `x` to bit 52.
  lemma {:induction false} Normalized(x: nat, j: nat) returns (k: nat)
    requires Shl(1, j) <= x < 0x20_0000_0000_0000 && j <= 52
    ensures 0x10_0000_0000_0000 <= Shl(x, k) < 0x20_0000_0000_0000 && j + k <= 52
    decreases 0x20_0000_0000_0000 - x
  {
    if x >= 0x10_0000_0000_0000 {
      k := 0;
    } else {
      LeadingOne();
      PositiveShift(j);
      k := Normalized(2 * x, j + 1);
      ShlTwice(x, k);
      ShiftsUp(x, k);
      k := k + 1;
    }
  }

  lemma LeadingOne()
    ensures Shl(1, 52) == 0x10_0000_0000_0000
  {
    ShlIsTimes(1);
    assert Shl(1, 52) == 2 * Shl(1, 51);
  }

  lemma {:induction false} PositiveShift(j: nat)
    ensures Shl(1, j) >= 1
  {
    if j > 0 {
      PositiveShift(j - 1);
    }
  }

  lemma ShiftsUp(x: nat, k: nat)
    ensures Shl(x, k + 1) == 2 * Shl(x, k)
  {
  }

  lemma {:induction false} ShiftThenScale(x: nat, k: nat)
    ensures Shl(x, k) as real * PowerOfTwo(0 - k) == x as real
  {
    if k > 0 {
      ShiftThenScale(x, k - 1);
      assert PowerOfTwo(0 - k) == PowerOfTwo(1 - k) / 2.0;
      Halved(Shl(x, k - 1) as real, PowerOfTwo(1 - k));
    }
  }

  lemma Halved(a: real, b: real)
    ensures (2.0 * a) * (b / 2.0) == a * b
  {
  }

  // The fields of a double with a given sign, exponent and mantissa.
  lemma FieldsOf(sign: nat, exponent: nat, mantissa: nat)
    requires sign <= 1 && exponent < 0x800 && mantissa < 0x10_0000_0000_0000
    ensures var bits := (sign * 0x800 + exponent) * 0x10_0000_0000_0000 + mantissa;
            bits < 0x1_0000_0000_0000_0000 && (bits < 0x8000_0000_0000_0000 <==> sign == 0) &&
            Field(bits, 11, 52) == exponent && Low(bits, 52) == mantissa
  {
    var high := sign * 0x800 + exponent;
    MantissaWidth(high);
    OnesOfEleven();
    ShrShl(high, mantissa, 52);
    LowShl(high, mantissa, 52);
    ExponentWidth(sign);
    LowShl(sign, exponent, 11);
  }

  lemma MantissaWidth(x: nat)
    ensures Ones(52) == 0xF_FFFF_FFFF_FFFF && Shl(x, 52) == x * 0x10_0000_0000_0000
  {
    OnesFillUp(52);
    LeadingOne();
    ShlIsTimes(x);
    ShiftsUp(x, 51);
  }

  lemma ExponentWidth(x: nat)
    ensures Shl(x, 11) == x * 0x800
  {
    ShlFour(x);
    ShlFour(16 * x);
    ShlShl(x, 4, 4);
    ShlShl(x, 8, 3);
    ShlThree(256 * x);
  }

  lemma ShlThree(x: nat)
    ensures Shl(x, 3) == 8 * x
  {
    assert Shl(x, 1) == 2 * x;
    assert Shl(x, 2) == 2 * Shl(x, 1);
  }

  lemma Magnitude(positive: bool, exponent: nat, mantissa: nat, k: nat, x: nat)
    requires k <= 52 && exponent == 1075 - k && mantissa + 0x10_0000_0000_0000 == Shl(x, k)
    requires Shl(x, k) as real * PowerOfTwo(0 - k) == x as real
    ensures DoubleOf(positive, exponent, mantissa) == Finite(if positive then x as real else -(x as real))
  {
  }

  lemma NaturalIsDouble(x: nat, sign: nat) returns (bits: Word)
    requires 0 < x < 0x20_0000_0000_0000 && sign <= 1
    ensures F64Of(bits) == Finite(if sign == 0 then x as real else -(x as real))
  {
    var k := Normalized(x, 0);
    var exponent, mantissa := 1075 - k, Shl(x, k) - 0x10_0000_0000_0000;
    FieldsOf(sign, exponent, mantissa);
    ShiftThenScale(x, k);
    Magnitude(sign == 0, exponent, mantissa, k, x);
    bits := (sign * 0x800 + exponent) * 0x10_0000_0000_0000 + mantissa;
  }

  lemma ZeroIsDouble(exponent: nat, mantissa: nat)
    requires exponent == 0 && mantissa == 0
    ensures DoubleOf(true, exponent, mantissa) == Finite(0.0)
  {
  }

  // Every small integer is a double, so that converting one is exact.
  lemma SmallIntIsDouble(i: int) returns (bits: Word)
    requires Fits47(i)
    ensures F64Of(bits) == Finite(i as real)
  {
    if i > 0 {
      bits := NaturalIsDouble(i, 0);
    } else if i < 0 {
      bits := NaturalIsDouble(-i, 1);
    } else {
      FieldsOf(0, 0, 0);
      ZeroIsDouble(0, 0);
      bits := (0 * 0x800 + 0) * 0x10_0000_0000_0000 + 0;
    }
  }

  // ---- How doubles are spaced ----

  function Magnitude64(exponent: nat, mantissa: nat): real
    requires exponent < 0x7FF
  {
    DoubleOf(true, exponent, mantissa).r
  }

  // The distance between neighbours with one exponent.
  function Spacing(exponent: nat): real
    requires exponent < 0x7FF
  {
    Magnitude64(exponent, 1) - Magnitude64(exponent, 0)
  }

  lemma OneMoreUnit(n: int, unit: real)
    ensures (n + 1) as real * unit == n as real * unit + unit
  {
  }

  lemma SpacingIsUnit(exponent: nat, mantissa: nat)
    requires exponent < 0x7FF
    ensures Spacing(exponent) == PowerOfTwo(Max(exponent, 1) - 1075)
    ensures Magnitude64(exponent, mantissa + 1) == Magnitude64(exponent, mantissa) + Spacing(exponent)
  {
    var unit := PowerOfTwo(Max(exponent, 1) - 1075);
    var least := if exponent == 0 then 0 else 0x10_0000_0000_0000;
    OneMoreUnit(least, unit);
    OneMoreUnit(least + mantissa, unit);
  }

  // Doubles of one exponent are evenly spaced; the next exponent goes on where they
  // end, with twice the spacing, or with the same after the subnormal numbers.
  // Negative ones mirror them.
  lemma DoublesAreSpaced(exponent: nat, mantissa: nat)
    requires exponent < 0x7FF
    ensures Magnitude64(exponent, mantissa + 1) == Magnitude64(exponent, mantissa) + Spacing(exponent)
    ensures exponent + 1 < 0x7FF ==> Magnitude64(exponent + 1, 0) == Magnitude64(exponent, 0x10_0000_0000_0000)
    ensures exponent + 1 < 0x7FF ==> Spacing(exponent + 1) == (if exponent == 0 then 1.0 else 2.0) * Spacing(exponent)
    ensures DoubleOf(false, exponent, mantissa) == Finite(-Magnitude64(exponent, mantissa))
  {
    SpacingIsUnit(exponent, mantissa);
    if exponent + 1 < 0x7FF {
      SpacingIsUnit(exponent + 1, 0);
      UnitDoubles(exponent);
      Carries(PowerOfTwo(Max(exponent, 1) - 1075));
    }
  }

  lemma UnitDoubles(exponent: nat)
    ensures var unit := PowerOfTwo(Max(exponent, 1) - 1075);
            PowerOfTwo(exponent + 1 - 1075) == (if exponent == 0 then 1.0 else 2.0) * unit
  {
    if exponent > 0 {
      PowerDoubles(exponent - 1075);
    }
  }

  lemma PowerDoubles(e: int)
    ensures PowerOfTwo(e + 1) == 2.0 * PowerOfTwo(e)
  {
  }

  lemma Carries(unit: real)
    ensures 0x20_0000_0000_0000 as real * unit == 0x10_0000_0000_0000 as real * (2.0 * unit)
  {
  }

  // They start at zero, and one is among them.
  lemma ZeroAndOne()
    ensures Magnitude64(0, 0) == 0.0 && Magnitude64(1023, 0) == 1.0
  {
    LeadingOne();
    ShiftThenScale(1, 52);
    Magnitude(true, 1023, 0, 52, 1);
  }

  // Beyond the last exponent are the infinities, and what is no number.
  lemma LastExponent(positive: bool, mantissa: nat)
    ensures DoubleOf(positive, 0x7FF, mantissa) == if mantissa == 0 then Infinity(positive) else NaN
  {
  }

  // ---- Boxing ----

  // The word of a result, and the heap with what it allocates at `addr`. `other`
  // is the double or the complex word of a result that is not modelled.
  function BoxWord(heap: Cells, b: Boxed, addr: nat, other: Word): (Word, Cells)
    requires Boxable(Ok(b)) && addr <= PAYLOAD_MASK
  {
    match b
    case Inline(v) => (FromInt(v.i), heap)
    case Allocate(n) => (FromHandle(addr), heap[addr := Cell(n, 1)])
    case SomeFloat => (FromFloat(other), heap)
    case SomeComplex => (other, heap)
  }

  // Boxing without a range check is boxing of the low 47 bits.
  lemma UncheckedBoxing(i: I64)
    ensures FromInt(i) == FromInt(Wrap47(i))
  {
    PayloadOfInt(AsU64(i));
    PayloadOfInt(AsU64(Wrap47(i)));
    SameLowBits(i);
  }

  lemma SameLowBits(i: I64)
    ensures AsU64(Wrap47(i)) % 0x8000_0000_0000 == AsU64(i) % 0x8000_0000_0000
  {
    var p := AsU64(i) % 0x8000_0000_0000;
    LowBitsWrap(i);
    if p > SMALLINT_MAX {
      assert AsU64(Wrap47(i)) == p + 0x1_FFFF * 0x8000_0000_0000;
    }
  }

  // `w` in the heap `after` is the one word of `n`: inline when it fits 47 bits,
  // or else a new heap integer with one reference at `addr`.
  predicate IsWordOf(before: Cells, addr: nat, after: Cells, w: Word, n: int) {
    && Decode(after, w) == Some(n)
    && (IsInt(w) <==> Fits47(n)) && (IsBigInt(w) <==> !Fits47(n))
    && (!Fits47(n) ==> Payload(w) == addr)
    && after == if Fits47(n) then before else before[addr := Cell(n, 1)]
  }

  lemma CanonicalWord(heap: Cells, n: int, addr: nat, other: Word)
    requires addr <= PAYLOAD_MASK && addr !in heap
    ensures var (w, after) := BoxWord(heap, Canonical(n), addr, other); IsWordOf(heap, addr, after, w, n)
  {
    if Fits47(n) {
      IntReadsBack(n);
      EveryWordHasOneClass(FromInt(n));
    } else {
      HandleReadsBack(addr);
      EveryWordHasOneClass(FromHandle(addr));
    }
  }

  // ---- The operations on words ----

  function Apply(op: Op, heap: Cells, a: Word, b: Word, addr: nat, other: Word): Result<(Word, Cells)>
    requires Live(heap, Reads(a)) && Live(heap, Reads(b)) && addr <= PAYLOAD_MASK
  {
    var r := Operate(op, heap, Reads(a), Reads(b));
    OperateBoxes(op, heap, Reads(a), Reads(b));
    if r.Ok? then Ok(BoxWord(heap, r.value, addr, other)) else Err(r.error)
  }

  function ApplyNeg(heap: Cells, a: Word, addr: nat, other: Word): Result<(Word, Cells)>
    requires Live(heap, Reads(a)) && addr <= PAYLOAD_MASK
  {
    var r := NumericNeg(heap, Reads(a));
    OperateBoxes(Power, heap, Reads(a), Reads(a));
    if r.Ok? then Ok(BoxWord(heap, r.value, addr, other)) else Err(r.error)
  }

  lemma OperatesExactly(op: Op, heap: Cells, a: Word, b: Word)
    requires Decode(heap, a).Some? && Decode(heap, b).Some?
    ensures Live(heap, Reads(a)) && Live(heap, Reads(b))
    ensures Operate(op, heap, Reads(a), Reads(b)) ==
            match Expect(op, Decode(heap, a).value, Decode(heap, b).value, IsInt(b))
            case Integer(n) =>
              Ok(if IsOverflow(op, Reads(a), Reads(b)) then Inline(SmallInt(SMALLINT_MIN)) else Canonical(n))
            case DivisionByZero => Err(ZeroDivision)
            case Inexact => Ok(SomeFloat)
  {
    ReadsInteger(heap, a);
    ReadsInteger(heap, b);
    OperateIsExact(op, heap, Reads(a), Reads(b));
  }

  // On words that denote integers, in any mix of representations, every operation
  // gives a word that denotes the exact result and is inline exactly when that
  // fits 47 bits; one quotient excepted.
  lemma WordsCompute(op: Op, heap: Cells, a: Word, b: Word, addr: nat, other: Word)
    requires Decode(heap, a).Some? && Decode(heap, b).Some?
    requires addr <= PAYLOAD_MASK && addr !in heap
    ensures Live(heap, Reads(a)) && Live(heap, Reads(b))
    ensures var r := Apply(op, heap, a, b, addr, other);
            match Expect(op, Decode(heap, a).value, Decode(heap, b).value, IsInt(b))
            case Integer(n) =>
              r.Ok? && (IsWordOf(heap, addr, r.value.1, r.value.0, n) <==> !IsOverflow(op, Reads(a), Reads(b)))
            case DivisionByZero => r == Err(ZeroDivision)
            case Inexact => r.Ok? && IsFloat(r.value.0) && r.value.1 == heap
    ensures IsOverflow(op, Reads(a), Reads(b)) ==>
              Apply(op, heap, a, b, addr, other) == Ok((FromInt(SMALLINT_MIN), heap))
  {
    OperatesExactly(op, heap, a, b);
    match Expect(op, Decode(heap, a).value, Decode(heap, b).value, IsInt(b))
    case Integer(n) =>
      if IsOverflow(op, Reads(a), Reads(b)) {
        OverflowedQuotient(heap, addr, n);
      } else {
        CanonicalWord(heap, n, addr, other);
      }
    case DivisionByZero =>
    case Inexact => FloatReadsBack(other);
  }

  // Sum, difference and product of two words, in the arithmetic of the integers.
  lemma WordsAddUp(heap: Cells, a: Word, b: Word, addr: nat, other: Word)
    requires Decode(heap, a).Some? && Decode(heap, b).Some?
    requires addr <= PAYLOAD_MASK && addr !in heap
    ensures Live(heap, Reads(a)) && Live(heap, Reads(b))
    ensures var x, y := Decode(heap, a).value, Decode(heap, b).value;
            && IsResult(Apply(Ring(Add), heap, a, b, addr, other), heap, addr, x + y)
            && IsResult(Apply(Ring(Sub), heap, a, b, addr, other), heap, addr, x - y)
            && IsResult(Apply(Ring(Mul), heap, a, b, addr, other), heap, addr, x * y)
  {
    RingWord(Add, heap, a, b, addr, other);
    RingWord(Sub, heap, a, b, addr, other);
    RingWord(Mul, heap, a, b, addr, other);
  }

  lemma RingWord(op: RingOp, heap: Cells, a: Word, b: Word, addr: nat, other: Word)
    requires Decode(heap, a).Some? && Decode(heap, b).Some?
    requires addr <= PAYLOAD_MASK && addr !in heap
    ensures Live(heap, Reads(a)) && Live(heap, Reads(b))
    ensures var n := Exact(op, Decode(heap, a).value, Decode(heap, b).value);
            IsResult(Apply(Ring(op), heap, a, b, addr, other), heap, addr, n)
  {
    WordsCompute(Ring(op), heap, a, b, addr, other);
  }

  predicate IsResult(r: Result<(Word, Cells)>, heap: Cells, addr: nat, n: int) {
    r.Ok? && IsWordOf(heap, addr, r.value.1, r.value.0, n)
  }

  lemma OverflowedQuotient(heap: Cells, addr: nat, n: int)
    requires n == FloorDiv(SMALLINT_MIN, -1)
    ensures !IsWordOf(heap, addr, heap, FromInt(SMALLINT_MIN), n)
  {
    IntReadsBack(SMALLINT_MIN);
    assert n == -SMALLINT_MIN;
    EveryWordHasOneClass(FromInt(SMALLINT_MIN));
  }

  lemma WordsNegate(heap: Cells, a: Word, addr: nat, other: Word)
    requires Decode(heap, a).Some? && addr <= PAYLOAD_MASK && addr !in heap
    ensures Live(heap, Reads(a))
    ensures var r := ApplyNeg(heap, a, addr, other);
            r.Ok? && IsWordOf(heap, addr, r.value.1, r.value.0, -Decode(heap, a).value)
  {
    ReadsInteger(heap, a);
    NegIsExact(heap, Reads(a));
    CanonicalWord(heap, -Decode(heap, a).value, addr, other);
  }

  // Comparing words compares the integers they denote.
  lemma WordsCompare(heap: Cells, a: Word, b: Word)
    requires Decode(heap, a).Some? && Decode(heap, b).Some?
    ensures Live(heap, Reads(a)) && Live(heap, Reads(b))
    ensures var x, y := Decode(heap, a).value, Decode(heap, b).value;
            && NumericCompare(Lt, heap, Reads(a), Reads(b)) == Ok(x < y)
            && NumericCompare(Le, heap, Reads(a), Reads(b)) == Ok(x <= y)
            && NumericCompare(Gt, heap, Reads(a), Reads(b)) == Ok(x > y)
            && NumericCompare(Ge, heap, Reads(a), Reads(b)) == Ok(x >= y)
    ensures EqScalar(heap, Reads(a), Reads(b)) == Decided(Decode(heap, a).value == Decode(heap, b).value)
  {
    ReadsInteger(heap, a);
    ReadsInteger(heap, b);
    ComparisonIsOneOrder(heap, Reads(a), Reads(b));
  }

  // ---- Whole expressions ----

  // The heap with the cell of `n`, if it has one.
  function Plus(heap: Cells, n: int, addr: nat): Cells {
    if Fits47(n) then heap else heap[addr := Cell(n, 1)]
  }

  // Releases the reference behind a word; the last one frees the integer.
  function Drop(heap: Cells, w: Word): Cells {
    if Live(heap, Reads(w)) then Ledger.Released(heap, Reads(w)) else heap
  }

  // The addresses that the allocator will give out.
  predicate Unused(heap: Cells, free: seq<nat>) {
    && (forall k | 0 <= k < |free| :: free[k] <= PAYLOAD_MASK && free[k] !in heap)
    && (forall k, l | 0 <= k < l < |free| :: free[k] != free[l])
  }

  // `w` is the one word of `n`, and `after` is `heap` with the cell behind it.
  predicate Holds(heap: Cells, after: Cells, w: Word, n: int) {
    && Decode(after, w) == Some(n) && (IsInt(w) <==> Fits47(n)) && (IsBigInt(w) <==> !Fits47(n))
    && after == Plus(heap, n, Payload(w)) && (!Fits47(n) ==> Payload(w) !in heap && Payload(w) <= PAYLOAD_MASK)
  }

  // Dropping the word below the latest one leaves the latest one.
  lemma DropBelow(heap: Cells, after: Cells, w: Word, x: int, n: int, addr: nat)
    requires Holds(heap, after, w, x) && (!Fits47(n) ==> addr !in after)
    ensures Drop(Plus(after, n, addr), w) == Plus(heap, n, addr)
  {
    EveryWordHasOneClass(w);
    ReadsInteger(after, w);
  }

  lemma StillHolds(heap: Cells, after: Cells, w: Word, n: int, other: Cells)
    requires Holds(heap, after, w, n) && (!Fits47(n) ==> Payload(w) !in other)
    ensures Holds(other, Plus(other, n, Payload(w)), w, n)
  {
    EveryWordHasOneClass(w);
  }

  // A word, the heap, and the addresses to come.
  datatype Machine = Machine(w: Word, heap: Cells, free: seq<nat>)

  // What computing gives: the word of `n`, beside what was there.
  predicate Computed(heap: Cells, free: seq<nat>, m: Machine, n: int) {
    && Holds(heap, m.heap, m.w, n) && |m.heap| == |heap| + (if Fits47(n) then 0 else 1)
    && Unused(m.heap, m.free) && |m.free| == |free| - (if Fits47(n) then 0 else 1)
  }

  function Release(m: Machine, w: Word): Machine {
    Machine(m.w, Drop(m.heap, w), if IsBigInt(w) then [Payload(w)] + m.free else m.free)
  }

  lemma AddressBack(heap: Cells, free: seq<nat>, addr: nat, after: Cells)
    requires Unused(heap, free) && addr in heap && addr <= PAYLOAD_MASK && after.Keys <= heap.Keys - {addr}
    ensures Unused(after, [addr] + free)
  {
  }

  lemma PlusOne(heap: Cells, n: int, addr: nat)
    requires !Fits47(n) ==> addr !in heap
    ensures |Plus(heap, n, addr)| == |heap| + if Fits47(n) then 0 else 1
  {
    if !Fits47(n) {
      assert Plus(heap, n, addr).Keys == heap.Keys + {addr};
    }
  }

  // After an operation, releasing the operand below the result leaves the result.
  lemma ReleaseBelow(heap: Cells, free: seq<nat>, a: Machine, x: int, r: Machine, n: int)
    requires Computed(heap, free, a, x) && Computed(a.heap, a.free, r, n)
    ensures Computed(heap, free, Release(r, a.w), n)
  {
    DropBelow(heap, a.heap, a.w, x, n, Payload(r.w));
    StillHolds(a.heap, r.heap, r.w, n, heap);
    PlusOne(heap, n, Payload(r.w));
    var after := Plus(heap, n, Payload(r.w));
    assert Drop(r.heap, a.w) == after;
    if !Fits47(x) {
      AddressBack(r.heap, r.free, Payload(a.w), after);
    }
  }

  // Boxing at the next address, if the result takes one.
  function Advance(heap: Cells, free: seq<nat>, r: (Word, Cells)): Machine
    requires free != []
  {
    Machine(r.0, r.1, if IsBigInt(r.0) then free[1..] else free)
  }

  lemma Advanced(heap: Cells, free: seq<nat>, r: (Word, Cells), n: int)
    requires Unused(heap, free) && free != [] && IsWordOf(heap, free[0], r.1, r.0, n)
    ensures Computed(heap, free, Advance(heap, free, r), n)
  {
    PlusOne(heap, n, free[0]);
  }

  // The operation of an expression on words; `other` is the word that a result of
  // another kind would have.
  lemma StepsAsBoxed(op: Op, heap: Cells, a: Word, b: Word, addr: nat, other: Word)
    requires Decode(heap, a).Some? && Decode(heap, b).Some?
    requires (IsInt(b) <==> Fits47(Decode(heap, b).value)) && (IsInt(a) <==> Fits47(Decode(heap, a).value))
    requires addr <= PAYLOAD_MASK && addr !in heap
    ensures Live(heap, Reads(a)) && Live(heap, Reads(b))
    ensures var r, n := Apply(op, heap, a, b, addr, other), StepBoxed(op, Decode(heap, a).value, Decode(heap, b).value);
            if n.None? then r.Err? || IsFloat(r.value.0)
            else r.Ok? && IsWordOf(heap, addr, r.value.1, r.value.0, n.value)
  {
    WordsCompute(op, heap, a, b, addr, other);
    ReadsInteger(heap, a);
    ReadsInteger(heap, b);
    if IsOverflow(op, Reads(a), Reads(b)) {
      IntReadsBack(SMALLINT_MIN);
      EveryWordHasOneClass(FromInt(SMALLINT_MIN));
    }
  }

  function Push(n: int, heap: Cells, free: seq<nat>, other: Word): (m: Machine)
    requires Unused(heap, free) && free != []
    ensures Computed(heap, free, m, n)
  {
    CanonicalWord(heap, n, free[0], other);
    var r := BoxWord(heap, FromBigIntOrDemote(n), free[0], other);
    Advanced(heap, free, r, n);
    Advance(heap, free, r)
  }

  function Negate(m: Machine, x: int, other: Word): (after: Machine)
    requires Unused(m.heap, m.free) && m.free != [] && Decode(m.heap, m.w) == Some(x)
    ensures Computed(m.heap, m.free, after, -x)
  {
    WordsNegate(m.heap, m.w, m.free[0], other);
    var r := ApplyNeg(m.heap, m.w, m.free[0], other).value;
    Advanced(m.heap, m.free, r, -x);
    Advance(m.heap, m.free, r)
  }

  // None where the operation fails or its result is no integer.
  function Combine(op: Op, w: Word, x: int, m: Machine, y: int, other: Word): (after: Option<Machine>)
    requires Unused(m.heap, m.free) && m.free != []
    requires Decode(m.heap, w) == Some(x) && Decode(m.heap, m.w) == Some(y)
    requires (IsInt(w) <==> Fits47(x)) && (IsInt(m.w) <==> Fits47(y))
    ensures after.Some? <==> StepBoxed(op, x, y).Some?
    ensures after.Some? ==> Computed(m.heap, m.free, after.value, StepBoxed(op, x, y).value)
  {
    StepsAsBoxed(op, m.heap, w, m.w, m.free[0], other);
    var r := Apply(op, m.heap, w, m.w, m.free[0], other);
    if r.Err? || IsFloat(r.value.0) then
      FloatIsNoInteger(r);
      None
    else
      Advanced(m.heap, m.free, r.value, StepBoxed(op, x, y).value);
      Some(Advance(m.heap, m.free, r.value))
  }

  lemma FloatIsNoInteger(r: Result<(Word, Cells)>)
    ensures r.Ok? && IsFloat(r.value.0) ==> !IsInt(r.value.0) && !IsBigInt(r.value.0)
  {
    if r.Ok? {
      EveryWordHasOneClass(r.value.0);
    }
  }

  // The addresses that are in use at once.
  function Need(e: Expr): nat {
    match e
    case Literal(_) => 1
    case Minus(f) => Max(Need(f), 2)
    case Node(_, l, r) => Max(Need(l), Max(1 + Need(r), 3))
  }

  lemma KeptBelow(heap: Cells, free: seq<nat>, a: Machine, x: int, b: Machine, y: int)
    requires Computed(heap, free, a, x) && Computed(a.heap, a.free, b, y)
    ensures Decode(b.heap, a.w) == Some(x)
  {
    EveryWordHasOneClass(a.w);
  }

  // An expression of any size, evaluated word by word, with every operand released
  // when it was used: the one word of its value is all that is new.
  function Compute(e: Expr, heap: Cells, free: seq<nat>, other: Word): (m: Option<Machine>)
    requires Unused(heap, free) && |free| >= Need(e)
    ensures m.Some? <==> BoxedMeaning(e).Some?
    ensures m.Some? ==> Computed(heap, free, m.value, BoxedMeaning(e).value)
  {
    match e
    case Literal(n) => Some(Push(n, heap, free, other))
    case Minus(f) =>
      var m := Compute(f, heap, free, other);
      if m.None? then None
      else
        var x := BoxedMeaning(f).value;
        var r := Negate(m.value, x, other);
        ReleaseBelow(heap, free, m.value, x, r, -x);
        Some(Release(r, m.value.w))
    case Node(op, l, r) =>
      var a := Compute(l, heap, free, other);
      if a.None? then None
      else
        var b := Compute(r, a.value.heap, a.value.free, other);
        if b.None? then None
        else CombineAndRelease(op, heap, free, a.value, BoxedMeaning(l).value, b.value, BoxedMeaning(r).value, other)
  }

  function CombineAndRelease(op: Op, heap: Cells, free: seq<nat>, a: Machine, x: int, b: Machine, y: int, other: Word)
    : (m: Option<Machine>)
    requires |free| >= 3 && Computed(heap, free, a, x) && Computed(a.heap, a.free, b, y)
    ensures m.Some? <==> StepBoxed(op, x, y).Some?
    ensures m.Some? ==> Computed(heap, free, m.value, StepBoxed(op, x, y).value)
  {
    KeptBelow(heap, free, a, x, b, y);
    var r := Combine(op, a.w, x, b, y, other);
    if r.None? then None
    else
      var n := StepBoxed(op, x, y).value;
      ReleaseBelow(a.heap, a.free, b, y, r.value, n);
      ReleaseBelow(heap, free, a, x, Release(r.value, b.w), n);
      Some(Release(Release(r.value, b.w), a.w))
  }

  // In particular the ledger, which counts the heap integers, grows by one for a
  // result that does not fit a word and not at all otherwise; and the value is the
  // exact one, unless the smallest small integer is divided by minus one somewhere.
  lemma ComputeIsExact(e: Expr, heap: Cells, free: seq<nat>, other: Word)
    requires Unused(heap, free) && |free| >= Need(e) && !Overflows(e)
    ensures var m := Compute(e, heap, free, other);
            match Meaning(e)
            case None => m == None
            case Some(n) =>
              m.Some? && Decode(m.value.heap, m.value.w) == Some(n) && (IsInt(m.value.w) <==> Fits47(n)) &&
              |m.value.heap| == |heap| + if Fits47(n) then 0 else 1
  {
    BoxedMeaningIsExact(e);
  }
}
