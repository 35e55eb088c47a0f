// Reference counts of heap integers and the ledger of live ones. Arithmetic
// borrows its operands; coercion to float consumes its operand unless it fails.
module Ledger {
  import opened Wrappers
  import opened NanBox
  import opened Arith

  // Declared types of the coercion boundary.
  datatype TypeCode = IntCode | FloatCode | BoolCode | NoneCode | OtherCode

  datatype Coercion = Coerced(v: Value) | HugeInt | Mismatch | Unhandled

  lemma {:induction false} UnusedAddress(used: set<Handle>) returns (h: Handle)
    ensures h !in used
    ensures forall u | u in used :: u < h
  {
    h := 0;
    if used != {} {
      var u :| u in used;
      var g := UnusedAddress(used - {u});
      h := if g > u then g else u + 1;
      assert forall x | x in used :: x == u || x in used - {u};
    }
  }

  // The ledger counts the heap integers; each has one reference for each time
  // the program holds it, and everything the program holds is alive.
  ghost predicate WellCounted(cells: Cells, live: int, owned: multiset<Value>) {
    && live == |cells|
    && (forall h | h in cells :: 0 < cells[h].strong == owned[BigInt(h)])
    && (forall v | v in owned :: Live(cells, v))
  }

  function Released(cells: Cells, v: Value): Cells
    requires Live(cells, v)
  {
    if !v.BigInt? then cells
    else if cells[v.h].strong <= 1 then cells - {v.h}
    else cells[v.h := Cell(cells[v.h].n, cells[v.h].strong - 1)]
  }

  // Giving up one reference keeps the count; the last one frees the integer.
  lemma ReleaseKeepsCount(cells: Cells, live: int, owned: multiset<Value>, v: Value)
    requires WellCounted(cells, live, owned) && v in owned
    ensures WellCounted(Released(cells, v), live - if v.BigInt? && owned[v] == 1 then 1 else 0, owned - multiset{v})
    ensures forall h | h in Released(cells, v) :: h in cells && Released(cells, v)[h].n == cells[h].n
  {
    if v.BigInt? && cells[v.h].strong == 1 {
      assert cells.Keys == (cells - {v.h}).Keys + {v.h};
    }
  }

  class BigIntHeap {
    var cells: Cells
    var live: int
    // The values the program holds, one entry for each reference it owns.
    ghost var owned: multiset<Value>

    ghost predicate Valid()
      reads this
    {
      WellCounted(cells, live, owned)
    }

    constructor ()
      ensures Valid() && owned == multiset{} && live == 0
    {
      cells, live, owned := map[], 0, multiset{};
    }

    method FromBigInt(n: int) returns (v: Value)
      requires Valid()
      modifies this
      ensures Valid() && v.BigInt? && owned == old(owned) + multiset{v}
      ensures v.h !in old(cells) && cells == old(cells)[v.h := Cell(n, 1)]
      ensures live == old(live) + 1 && v !in old(owned)
    {
      ghost var unused := UnusedAddress(cells.Keys);
      var h: Handle :| h !in cells;
      assert BigInt(h) !in owned;
      live := live + 1;
      cells := cells[h := Cell(n, 1)];
      v := BigInt(h);
      owned := owned + multiset{v};
    }

    // The boxing step. `float` and `complex` stand for results that are not
    // modelled.
    method Box(b: Boxed, float: F64, complex: nat) returns (v: Value)
      requires Valid()
      requires b.Inline? ==> Live(cells, b.v) && !b.v.BigInt?
      modifies this
      ensures Valid() && owned == old(owned) + multiset{v}
      ensures live == old(live) + if b.Allocate? then 1 else 0
      ensures forall h | h in old(cells) :: h in cells && cells[h] == old(cells)[h]
      ensures v.BigInt? <==> b.Allocate?
      ensures b.Allocate? ==> v !in old(owned)
      ensures b.Allocate? ==> v.h !in old(cells) && v.h in cells && cells[v.h].n == b.n
      ensures b.Inline? ==> v == b.v
      ensures b.SomeFloat? ==> v == Float(float)
      ensures b.SomeComplex? ==> v == Complex(complex)
    {
      match b
      case Allocate(n) => v := FromBigInt(n);
      case Inline(w) => v := w; Hold(v);
      case SomeFloat => v := Float(float); Hold(v);
      case SomeComplex => v := Complex(complex); Hold(v);
    }

    // Boxes the result of an operation. Only what the result allocates is new.
    method Deliver(r: Result<Boxed>, float: F64, complex: nat) returns (out: Result<Value>)
      requires Valid() && Boxable(r)
      modifies this
      ensures Valid()
      ensures out.Ok? <==> r.Ok?
      ensures r.Err? ==> owned == old(owned) && live == old(live) && cells == old(cells) && out.error == r.error
      ensures r.Ok? ==> owned == old(owned) + multiset{out.value} && live == old(live) + HeapCost(out.value)
      ensures r.Ok? && out.value.BigInt? ==> out.value !in old(owned)
      ensures forall h | h in old(cells) :: h in cells && cells[h] == old(cells)[h]
      ensures r.Ok? && r.value.Inline? ==> out.value == r.value.v
      ensures r.Ok? && r.value.SomeFloat? ==> out.value == Float(float)
      ensures r.Ok? && r.value.SomeComplex? ==> out.value == Complex(complex)
      ensures r.Ok? && r.value.Allocate? ==>
                out.value.BigInt? && out.value.h in cells && cells[out.value.h].n == r.value.n
    {
      if r.Err? {
        return Err(r.error);
      }
      var v := Box(r.value, float, complex);
      return Ok(v);
    }

    method Binary(op: Op, a: Value, b: Value, float: F64, complex: nat) returns (r: Result<Value>)
      requires Valid() && a in owned && b in owned
      modifies this
      ensures Valid()
      ensures r.Ok? <==> Operate(op, old(cells), a, b).Ok?
      ensures r.Err? ==> owned == old(owned) && live == old(live) && cells == old(cells)
                         && r.error == Operate(op, old(cells), a, b).error
      ensures r.Ok? ==> owned == old(owned) + multiset{r.value} && live == old(live) + HeapCost(r.value)
      ensures r.Ok? && r.value.BigInt? ==> r.value !in old(owned)
      ensures forall h | h in old(cells) :: h in cells && cells[h] == old(cells)[h]
      ensures r.Ok? ==> var boxed := Operate(op, old(cells), a, b).value;
                        Delivers(boxed, r.value, cells, float, complex)
    {
      OperateBoxes(op, cells, a, b);
      r := Deliver(Operate(op, cells, a, b), float, complex);
    }

    method Negate(a: Value, float: F64, complex: nat) returns (r: Result<Value>)
      requires Valid() && a in owned
      modifies this
      ensures Valid()
      ensures r.Ok? <==> NumericNeg(old(cells), a).Ok?
      ensures r.Err? ==> owned == old(owned) && live == old(live) && cells == old(cells)
                         && r.error == NumericNeg(old(cells), a).error
      ensures r.Ok? ==> owned == old(owned) + multiset{r.value} && live == old(live) + HeapCost(r.value)
      ensures r.Ok? && r.value.BigInt? ==> r.value !in old(owned)
      ensures forall h | h in old(cells) :: h in cells && cells[h] == old(cells)[h]
      ensures r.Ok? ==> var boxed := NumericNeg(old(cells), a).value;
                        Delivers(boxed, r.value, cells, float, complex)
    {
      OperateBoxes(Power, cells, a, a);
      r := Deliver(NumericNeg(cells, a), float, complex);
    }

    // `GmpInt::clone`: a second integer of the same value, with its own entry in
    // the ledger. `CloneRef` makes a second reference instead.
    method CloneInteger(v: Value) returns (w: Value)
      requires Valid() && v in owned && v.BigInt?
      modifies this
      ensures Valid() && w.BigInt? && w != v && w !in old(owned)
      ensures owned == old(owned) + multiset{w} && live == old(live) + 1
      ensures w.h in cells && v.h in cells && cells[w.h].n == cells[v.h].n
      ensures forall h | h in old(cells) :: h in cells && cells[h] == old(cells)[h]
    {
      w := FromBigInt(cells[v.h].n);
    }

    // A second reference to a held value.
    method CloneRef(v: Value)
      requires Valid() && v in owned
      modifies this
      ensures Valid() && owned == old(owned) + multiset{v} && live == old(live)
      ensures forall h | h in cells :: h in old(cells) && cells[h].n == old(cells)[h].n
    {
      if v.BigInt? {
        cells := cells[v.h := Cell(cells[v.h].n, cells[v.h].strong + 1)];
      }
      owned := owned + multiset{v};
    }

    // Releases the reference behind a heap integer; the last one frees it.
    method Decref(v: Value)
      requires Valid() && v in owned
      modifies this
      ensures Valid() && owned == old(owned) - multiset{v}
      ensures live == old(live) - if v.BigInt? && old(owned)[v] == 1 then 1 else 0
      ensures cells == Released(old(cells), v)
      ensures forall h | h in cells :: h in old(cells) && cells[h].n == old(cells)[h].n
    {
      ReleaseKeepsCount(cells, live, owned, v);
      if v.BigInt? && cells[v.h].strong == 1 {
        live := live - 1;
      }
      cells := Released(cells, v);
      owned := owned - multiset{v};
    }

    // The program comes to hold an inline value.
    ghost method Hold(w: Value)
      requires Valid() && !w.BigInt? && Live(cells, w)
      modifies this`owned
      ensures Valid() && owned == old(owned) + multiset{w}
    {
      owned := owned + multiset{w};
    }

    // An inline value takes the place of another.
    ghost method Replace(v: Value, w: Value)
      requires Valid() && v in owned && !v.BigInt? && !w.BigInt? && Live(cells, w)
      modifies this`owned
      ensures Valid() && owned == old(owned) - multiset{v} + multiset{w}
    {
      owned := owned - multiset{v} + multiset{w};
    }

    method CoerceToFloat(v: Value, finite: bool, float: F64) returns (c: Coercion)
      requires Valid() && v in owned
      modifies this
      ensures Valid()
      ensures !c.Coerced? ==> owned == old(owned) && cells == old(cells) && live == old(live)
      ensures c.Coerced? ==> owned == old(owned) - multiset{v} + multiset{c.v}
      ensures c.HugeInt? <==> v.BigInt? && !finite
      ensures !c.Unhandled?
      ensures c.Coerced? <==> Takes(FloatCode, v, finite)
      ensures c.Coerced? ==> Converts(FloatCode, v, finite, float, c.v)
      ensures live == old(live) - if c.Coerced? && v.BigInt? && old(owned)[v] == 1 then 1 else 0
      ensures forall h | h in cells :: h in old(cells) && cells[h].n == old(cells)[h].n
    {
      if v.Float? {
        return Coerced(v);
      } else if v.Bool? {
        c := Coerced(Float(Finite(if v.b then 1.0 else 0.0)));
        Replace(v, c.v);
        return;
      } else if v.SmallInt? {
        c := Coerced(Float(Finite(v.i as real)));
        Replace(v, c.v);
        return;
      } else if v.BigInt? {
        if finite {
          Decref(v);
          c := Coerced(Float(float));
          Hold(c.v);
          return;
        }
        return HugeInt;
      }
      return Mismatch;
    }

    // `finite` says whether the heap integer converts to a finite double, and
    // `float` is that double.
    method Coerce(v: Value, code: TypeCode, finite: bool, float: F64) returns (c: Coercion)
      requires Valid() && v in owned
      modifies this
      ensures Valid()
      ensures !c.Coerced? ==> owned == old(owned) && cells == old(cells) && live == old(live)
      ensures c.Coerced? ==> owned == old(owned) - multiset{v} + multiset{c.v}
      ensures c.HugeInt? <==> code.FloatCode? && v.BigInt? && !finite
      ensures c.Unhandled? <==> code.OtherCode?
      ensures c.Coerced? <==> Takes(code, v, finite)
      ensures c.Coerced? ==> Converts(code, v, finite, float, c.v)
      ensures live == old(live) - if c.Coerced? && code.FloatCode? && v.BigInt? && old(owned)[v] == 1 then 1 else 0
      ensures forall h | h in cells :: h in old(cells) && cells[h].n == old(cells)[h].n
    {
      match code {
        case IntCode =>
          if v.SmallInt? || v.BigInt? {
            return Coerced(v);
          } else if v.Bool? {
            c := Coerced(SmallInt(if v.b then 1 else 0));
            Replace(v, c.v);
            return;
          }
          return Mismatch;
        case FloatCode =>
          c := CoerceToFloat(v, finite, float);
        case BoolCode => return if v.Bool? then Coerced(v) else Mismatch;
        case NoneCode => return if v.Nil? then Coerced(v) else Mismatch;
        case OtherCode => return Unhandled;
      }
    }
  }

  function HeapCost(v: Value): nat {
    if v.BigInt? then 1 else 0
  }

  // ---- Whole runs ----

  // What a program does with the values it holds, addressed by position.
  datatype Command =
    | Push(n: int)
    | Compute(op: Op, i: nat, j: nat)
    | Opposite(i: nat)
    | Duplicate(i: nat)
    | CopyInteger(i: nat)
    | Drop(i: nat)
    | CoerceTo(code: TypeCode, i: nat, finite: bool)

  function Without(held: seq<Value>, i: nat): (rest: seq<Value>)
    requires i < |held|
    ensures |rest| == |held| - 1
    ensures multiset(held) == multiset(rest) + multiset{held[i]}
  {
    assert held == held[..i] + [held[i]] + held[i + 1..];
    held[..i] + held[i + 1..]
  }

  function With(held: seq<Value>, v: Value): (more: seq<Value>)
    ensures multiset(more) == multiset(held) + multiset{v}
  {
    held + [v]
  }

  // One value in the place of another, as multisets count.
  lemma Exchanged(held: seq<Value>, i: nat, v: Value, now: seq<Value>)
    requires i < |held| && now == With(Without(held, i), v)
    ensures multiset(now) == multiset(held) - multiset{held[i]} + multiset{v}
    ensures Adds(Without(held, i), now) && now[|held| - 1] == v
  {
    assert multiset(held) - multiset{held[i]} == multiset(Without(held, i));
  }

  // The box of a result. `float` and `complex` stand for what is not modelled.
  predicate Delivers(b: Boxed, v: Value, cells: Cells, float: F64, complex: nat) {
    match b
    case Inline(w) => v == w
    case Allocate(n) => v.BigInt? && v.h in cells && cells[v.h].n == n
    case SomeFloat => v == Float(float)
    case SomeComplex => v == Complex(complex)
  }

  // Which values a declared type takes, and as what.
  predicate Converts(code: TypeCode, v: Value, finite: bool, float: F64, w: Value) {
    match code
    case IntCode => (IsInteger(v) && w == v) || (v.Bool? && w == SmallInt(if v.b then 1 else 0))
    case FloatCode =>
      || (v.Float? && w == v)
      || (v.Bool? && w == Float(Finite(if v.b then 1.0 else 0.0)))
      || (v.SmallInt? && w == Float(Finite(v.i as real)))
      || (v.BigInt? && finite && w == Float(float))
    case BoolCode => v.Bool? && w == v
    case NoneCode => v.Nil? && w == v
    case OtherCode => false
  }

  predicate Takes(code: TypeCode, v: Value, finite: bool) {
    match code
    case IntCode => IsInteger(v) || v.Bool?
    case FloatCode => v.Float? || v.Bool? || v.SmallInt? || (v.BigInt? && finite)
    case BoolCode => v.Bool?
    case NoneCode => v.Nil?
    case OtherCode => false
  }

  // A declared type takes the values that it has a conversion for. What comes out is of
  // that type and stays as it is when coerced again. Integers and floats keep their
  // number, apart from the heap integers that become a float; true is one, false zero.
  lemma ConvertedValues(code: TypeCode, v: Value, finite: bool, float: F64, cells: Cells)
    requires Live(cells, v)
    ensures Takes(code, v, finite) <==> exists w :: Converts(code, v, finite, float, w)
    ensures forall w | Converts(code, v, finite, float, w) ::
              && Converts(code, w, finite, float, w)
              && (code == IntCode ==> IsInteger(w)) && (code == FloatCode ==> w.Float?)
              && (code == BoolCode ==> w.Bool?) && (code == NoneCode ==> w.Nil?)
              && (IsReal(v) && !(code == FloatCode && v.BigInt?) ==> EqScalar(cells, v, w) == Decided(true))
              && (v.Bool? && code != BoolCode ==> IsReal(w) && RealValue(cells, w) == if v.b then 1.0 else 0.0)
  {
    if Takes(code, v, finite) {
      var w := ConversionOf(code, v, finite, float);
    }
  }

  lemma ConversionOf(code: TypeCode, v: Value, finite: bool, float: F64) returns (w: Value)
    requires Takes(code, v, finite)
    ensures Converts(code, v, finite, float, w)
  {
    var n := if v.Bool? && v.b then 1 else if v.SmallInt? then v.i else 0;
    w := if code == IntCode && v.Bool? then SmallInt(n)
         else if code != FloatCode || v.Float? then v
         else if v.BigInt? then Float(float)
         else Float(Finite(n as real));
  }

  // What a command does with the values held: it adds one at the end, takes one out,
  // or leaves them as they are where it has nothing to work on or fails.
  ghost predicate Performed(before: Cells, after: Cells, held: seq<Value>, c: Command, now: seq<Value>,
                            float: F64, complex: nat)
  {
    match c
    case Push(n) => Adds(held, now) && IsBoxOf(after, now[|held|], n)
    case Compute(op, i, j) =>
      if i < |held| && j < |held| && Live(before, held[i]) && Live(before, held[j]) then
        var r := Operate(op, before, held[i], held[j]);
        if r.Ok? then Adds(held, now) && Delivers(r.value, now[|held|], after, float, complex) else now == held
      else now == held
    case Opposite(i) =>
      if i < |held| && Live(before, held[i]) then
        var r := NumericNeg(before, held[i]);
        if r.Ok? then Adds(held, now) && Delivers(r.value, now[|held|], after, float, complex) else now == held
      else now == held
    case Duplicate(i) => now == if i < |held| then held + [held[i]] else held
    case CopyInteger(i) =>
      if i < |held| && held[i].BigInt? && held[i].h in after then
        Adds(held, now) && Delivers(Allocate(after[held[i].h].n), now[|held|], after, float, complex) &&
        now[|held|] != held[i]
      else now == held
    case Drop(i) => now == if i < |held| then held[..i] + held[i + 1..] else held
    case CoerceTo(code, i, finite) =>
      if i < |held| && Takes(code, held[i], finite) then Recast(held, i, code, finite, float, now) else now == held
  }

  // The value at `i` is taken out, and what it converts to put at the end.
  predicate Recast(held: seq<Value>, i: nat, code: TypeCode, finite: bool, float: F64, now: seq<Value>)
    requires i < |held|
  {
    Adds(Without(held, i), now) && Converts(code, held[i], finite, float, now[|held| - 1])
  }

  // One more value at the end.
  predicate Adds(held: seq<Value>, now: seq<Value>) {
    |now| == |held| + 1 && now[..|held|] == held
  }

  // One command; a command on a position that does not exist does nothing.
  method Perform(heap: BigIntHeap, held: seq<Value>, c: Command, float: F64, complex: nat)
    returns (now: seq<Value>)
    requires heap.Valid() && heap.owned == multiset(held)
    modifies heap
    ensures heap.Valid() && heap.owned == multiset(now)
    ensures Performed(old(heap.cells), heap.cells, held, c, now, float, complex)
  {
    match c {
      case Push(n) =>
        var v := heap.Box(FromBigIntOrDemote(n), float, complex);
        now := With(held, v);
      case Compute(op, i, j) => now := PerformBinary(heap, held, op, i, j, float, complex);
      case Opposite(i) => now := PerformNegation(heap, held, i, float, complex);
      case Duplicate(i) => now := PerformDuplicate(heap, held, i, float, complex);
      case CopyInteger(i) => now := PerformCopy(heap, held, i, float, complex);
      case Drop(i) => now := PerformDrop(heap, held, i, float, complex);
      case CoerceTo(code, i, finite) => now := PerformCoercion(heap, held, code, i, finite, float, complex);
    }
  }

  method PerformDuplicate(heap: BigIntHeap, held: seq<Value>, i: nat, float: F64, complex: nat)
    returns (now: seq<Value>)
    requires heap.Valid() && heap.owned == multiset(held)
    modifies heap
    ensures heap.Valid() && heap.owned == multiset(now)
    ensures Performed(old(heap.cells), heap.cells, held, Duplicate(i), now, float, complex)
  {
    now := held;
    if i < |held| {
      heap.CloneRef(held[i]);
      now := With(held, held[i]);
    }
  }

  method PerformCopy(heap: BigIntHeap, held: seq<Value>, i: nat, float: F64, complex: nat)
    returns (now: seq<Value>)
    requires heap.Valid() && heap.owned == multiset(held)
    modifies heap
    ensures heap.Valid() && heap.owned == multiset(now)
    ensures Performed(old(heap.cells), heap.cells, held, CopyInteger(i), now, float, complex)
  {
    now := held;
    if i < |held| && held[i].BigInt? {
      var v := heap.CloneInteger(held[i]);
      now := With(held, v);
    }
  }

  method PerformDrop(heap: BigIntHeap, held: seq<Value>, i: nat, float: F64, complex: nat)
    returns (now: seq<Value>)
    requires heap.Valid() && heap.owned == multiset(held)
    modifies heap
    ensures heap.Valid() && heap.owned == multiset(now)
    ensures Performed(old(heap.cells), heap.cells, held, Drop(i), now, float, complex)
  {
    now := held;
    if i < |held| {
      heap.Decref(held[i]);
      now := Without(held, i);
    }
  }

  method PerformBinary(heap: BigIntHeap, held: seq<Value>, op: Op, i: nat, j: nat, float: F64, complex: nat)
    returns (now: seq<Value>)
    requires heap.Valid() && heap.owned == multiset(held)
    modifies heap
    ensures heap.Valid() && heap.owned == multiset(now)
    ensures Performed(old(heap.cells), heap.cells, held, Compute(op, i, j), now, float, complex)
  {
    now := held;
    if i < |held| && j < |held| {
      var r := heap.Binary(op, held[i], held[j], float, complex);
      if r.Ok? {
        now := With(held, r.value);
      }
    }
  }

  method PerformNegation(heap: BigIntHeap, held: seq<Value>, i: nat, float: F64, complex: nat)
    returns (now: seq<Value>)
    requires heap.Valid() && heap.owned == multiset(held)
    modifies heap
    ensures heap.Valid() && heap.owned == multiset(now)
    ensures Performed(old(heap.cells), heap.cells, held, Opposite(i), now, float, complex)
  {
    now := held;
    if i < |held| {
      var r := heap.Negate(held[i], float, complex);
      if r.Ok? {
        now := With(held, r.value);
      }
    }
  }

  method PerformCoercion(heap: BigIntHeap, held: seq<Value>, code: TypeCode, i: nat, finite: bool, float: F64,
                         complex: nat)
    returns (now: seq<Value>)
    requires heap.Valid() && heap.owned == multiset(held)
    modifies heap
    ensures heap.Valid() && heap.owned == multiset(now)
    ensures Performed(old(heap.cells), heap.cells, held, CoerceTo(code, i, finite), now, float, complex)
  {
    now := held;
    if i < |held| {
      var k := heap.Coerce(held[i], code, finite, float);
      if k.Coerced? {
        now := With(Without(held, i), k.v);
        Exchanged(held, i, k.v, now);
      }
    }
  }

  // A program that performs any commands and then releases what it still holds
  // leaves no heap integer behind.
  method Lifecycle(program: seq<Command>, float: F64, complex: nat) returns (leaked: int)
    ensures leaked == 0
  {
    var heap := new BigIntHeap();
    var held: seq<Value> := [];
    for k := 0 to |program|
      invariant heap.Valid() && heap.owned == multiset(held) && fresh(heap)
    {
      held := Perform(heap, held, program[k], float, complex);
    }
    while held != []
      invariant heap.Valid() && heap.owned == multiset(held) && fresh(heap)
      decreases |held|
    {
      heap.Decref(held[0]);
      held := Without(held, 0);
    }
    NothingHeldNothingLive(heap);
    leaked := heap.live;
  }

  lemma NothingHeldNothingLive(heap: BigIntHeap)
    requires heap.Valid() && forall h :: BigInt(h) !in heap.owned
    ensures heap.live == 0
  {
    assert forall h | h in heap.cells :: BigInt(h) in heap.owned;
    assert heap.cells == map[];
  }

  // ---- Whole expressions ----

  // `v` is the one box of `n`.
  predicate IsBoxOf(cells: Cells, v: Value, n: int) {
    if Fits47(n) then v == SmallInt(n) else v.BigInt? && v.h in cells && cells[v.h].n == n
  }

  // The heap integers among `held` are still there, with the same values.
  ghost predicate Keeps(before: Cells, after: Cells, held: multiset<Value>) {
    forall v | v in held && v.BigInt? :: v.h in before && v.h in after && after[v.h].n == before[v.h].n
  }

  lemma KeepsOn(a: Cells, b: Cells, c: Cells, held: multiset<Value>, more: multiset<Value>)
    requires Keeps(a, b, held) && Keeps(b, c, more) && held <= more
    ensures Keeps(a, c, held)
  {
  }

  // What evaluating leaves behind: the one box of `n` beside what was held, or
  // nothing when there is no integer result.
  ghost predicate Evaluated(heap: BigIntHeap, v: Option<Value>, n: Option<int>, live: int, before: Cells,
                            held: multiset<Value>)
    reads heap
  {
    && heap.Valid() && Keeps(before, heap.cells, held) && (v.Some? <==> n.Some?)
    && (v.Some? ==>
          && heap.owned == held + multiset{v.value} && IsBoxOf(heap.cells, v.value, n.value)
          && (v.value.BigInt? ==> v.value !in held)
          && heap.live == live + if Fits47(n.value) then 0 else 1)
    && (v.None? ==> heap.owned == held && heap.live == live)
  }

  // Evaluating an expression gives the value that the machine arrives at, which is
  // the one over the integers (`Arith.BoxedMeaningIsExact`), in canonical form and
  // whatever the intermediate results overflow to. The ledger grows by one for a
  // heap result and not at all otherwise, also when an operation fails or leaves
  // the integers.
  method Evaluate(heap: BigIntHeap, e: Expr) returns (v: Option<Value>)
    requires heap.Valid()
    modifies heap
    ensures Evaluated(heap, v, BoxedMeaning(e), old(heap.live), old(heap.cells), old(heap.owned))
    decreases e, 2
  {
    match e
    case Literal(n) => v := EvaluateLiteral(heap, n);
    case Minus(f) => v := EvaluateMinus(heap, f);
    case Node(op, l, r) => v := EvaluateNode(heap, op, l, r);
  }

  method EvaluateLiteral(heap: BigIntHeap, n: int) returns (v: Option<Value>)
    requires heap.Valid()
    modifies heap
    ensures Evaluated(heap, v, Some(n), old(heap.live), old(heap.cells), old(heap.owned))
  {
    var box := heap.Box(FromBigIntOrDemote(n), NaN, 0);
    v := Some(box);
  }

  method EvaluateMinus(heap: BigIntHeap, f: Expr) returns (v: Option<Value>)
    requires heap.Valid()
    modifies heap
    ensures Evaluated(heap, v, BoxedMeaning(Minus(f)), old(heap.live), old(heap.cells), old(heap.owned))
    decreases f, 3
  {
    var a := Evaluate(heap, f);
    if a.None? {
      return None;
    }
    var w := ConsumeOne(heap, a.value, BoxedMeaning(f).value, old(heap.cells), old(heap.owned));
    v := Some(w);
  }

  method EvaluateNode(heap: BigIntHeap, op: Op, l: Expr, r: Expr) returns (v: Option<Value>)
    requires heap.Valid()
    modifies heap
    ensures Evaluated(heap, v, BoxedMeaning(Node(op, l, r)), old(heap.live), old(heap.cells), old(heap.owned))
    decreases Node(op, l, r), 1
  {
    var a := Evaluate(heap, l);
    if a.None? {
      return None;
    }
    NodeSteps(op, l, r);
    v := EvaluateRight(heap, op, r, a.value, BoxedMeaning(l).value, old(heap.live), old(heap.cells), old(heap.owned));
  }

  // The right operand and the operation, when the left one is there.
  method EvaluateRight(heap: BigIntHeap, op: Op, r: Expr, a: Value, ghost x: int, ghost live: int,
                       ghost before: Cells, ghost held: multiset<Value>)
    returns (v: Option<Value>)
    requires Evaluated(heap, Some(a), Some(x), live, before, held)
    modifies heap
    ensures Evaluated(heap, v, StepRight(op, x, BoxedMeaning(r)), live, before, held)
    decreases r, 4
  {
    var b := EvaluateBeside(heap, r, a, x, before, held);
    if b.None? {
      GiveUp(heap, a, before, held);
      return None;
    }
    v := Consume(heap, op, a, b.value, x, BoxedMeaning(r).value, before, held);
  }

  // The operation on a left operand `x` and what the right one gives.
  function StepRight(op: Op, x: int, y: Option<int>): Option<int> {
    if y.None? then None else StepBoxed(op, x, y.value)
  }

  lemma NodeSteps(op: Op, l: Expr, r: Expr)
    requires BoxedMeaning(l).Some?
    ensures BoxedMeaning(Node(op, l, r)) == StepRight(op, BoxedMeaning(l).value, BoxedMeaning(r))
  {
  }

  // Evaluates while `a` is held besides.
  method EvaluateBeside(heap: BigIntHeap, r: Expr, a: Value, ghost x: int, ghost before: Cells,
                        ghost held: multiset<Value>)
    returns (b: Option<Value>)
    requires heap.Valid() && heap.owned == held + multiset{a} && IsBoxOf(heap.cells, a, x)
    requires Keeps(before, heap.cells, held)
    modifies heap
    ensures heap.Valid() && Keeps(before, heap.cells, held) && IsBoxOf(heap.cells, a, x)
    ensures b.Some? <==> BoxedMeaning(r).Some?
    ensures b.Some? ==> heap.owned == held + multiset{a} + multiset{b.value}
    ensures b.Some? ==> heap.live == old(heap.live) + HeapCost(b.value)
    ensures b.Some? ==> IsBoxOf(heap.cells, b.value, BoxedMeaning(r).value)
    ensures b.Some? && b.value.BigInt? ==> b.value !in held && b.value != a
    ensures b.None? ==> heap.owned == held + multiset{a} && heap.live == old(heap.live)
    decreases r, 3
  {
    b := Evaluate(heap, r);
    assert a in held + multiset{a};
    KeepsOn(before, old(heap.cells), heap.cells, held, held + multiset{a});
  }

  // Releases the left operand when the right one failed.
  method GiveUp(heap: BigIntHeap, a: Value, ghost before: Cells, ghost held: multiset<Value>)
    requires heap.Valid() && heap.owned == held + multiset{a} && Keeps(before, heap.cells, held)
    requires a.BigInt? ==> a !in held
    modifies heap
    ensures heap.Valid() && heap.owned == held && Keeps(before, heap.cells, held)
    ensures heap.live == old(heap.live) - HeapCost(a)
  {
    Release(heap, a, held);
    KeepsOn(before, old(heap.cells), heap.cells, held, held);
  }

  // Applies an operation to two operands that the program holds besides `held`,
  // and releases them.
  method Consume(heap: BigIntHeap, op: Op, a: Value, b: Value, ghost x: int, ghost y: int,
                 ghost before: Cells, ghost held: multiset<Value>)
    returns (v: Option<Value>)
    requires heap.Valid() && heap.owned == held + multiset{a} + multiset{b}
    requires a.BigInt? ==> a !in held && a != b
    requires b.BigInt? ==> b !in held
    requires IsBoxOf(heap.cells, a, x) && IsBoxOf(heap.cells, b, y)
    requires Keeps(before, heap.cells, held)
    modifies heap
    ensures Evaluated(heap, v, StepBoxed(op, x, y), old(heap.live) - HeapCost(a) - HeapCost(b), before, held)
  {
    v := Combine(heap, op, a, b, x, y);
    KeepsOn(before, old(heap.cells), heap.cells, held, old(heap.owned));
    if v.Some? {
      assert heap.owned == held + multiset{v.value} + multiset{a} + multiset{b};
      Finish(heap, a, b, v.value, StepBoxed(op, x, y).value, before, held);
    } else {
      ghost var cells := heap.cells;
      ReleaseBoth(heap, a, b, held);
      KeepsOn(before, cells, heap.cells, held, held);
    }
  }

  // Releases both operands below the result.
  method Finish(heap: BigIntHeap, a: Value, b: Value, v: Value, ghost n: int, ghost before: Cells,
                ghost held: multiset<Value>)
    requires heap.Valid() && heap.owned == held + multiset{v} + multiset{a} + multiset{b}
    requires a.BigInt? ==> a !in held && a != b && a != v
    requires b.BigInt? ==> b !in held && b != v
    requires v.BigInt? ==> v !in held
    requires IsBoxOf(heap.cells, v, n) && Keeps(before, heap.cells, held)
    modifies heap
    ensures Evaluated(heap, Some(v), Some(n), old(heap.live) - HeapCost(v) - HeapCost(a) - HeapCost(b), before, held)
  {
    ReleaseBoth(heap, a, b, held + multiset{v});
    assert v in held + multiset{v};
    KeepsOn(before, old(heap.cells), heap.cells, held, held + multiset{v});
  }

  method ConsumeOne(heap: BigIntHeap, a: Value, ghost x: int, ghost before: Cells, ghost held: multiset<Value>)
    returns (v: Value)
    requires heap.Valid() && heap.owned == held + multiset{a}
    requires a.BigInt? ==> a !in held
    requires IsBoxOf(heap.cells, a, x) && Keeps(before, heap.cells, held)
    modifies heap
    ensures Evaluated(heap, Some(v), Some(-x), old(heap.live) - HeapCost(a), before, held)
  {
    v := Flip(heap, a, x);
    assert v.BigInt? ==> v !in held && v != a;
    ghost var cells := heap.cells;
    KeepsOn(before, old(heap.cells), cells, held, old(heap.owned));
    assert heap.owned == held + multiset{v} + multiset{a};
    Release(heap, a, held + multiset{v});
    KeepsOn(before, cells, heap.cells, held, held + multiset{v});
    assert v in held + multiset{v};
  }

  lemma OperateSteps(op: Op, cells: Cells, a: Value, b: Value, x: int, y: int)
    requires Live(cells, a) && Live(cells, b) && IsBoxOf(cells, a, x) && IsBoxOf(cells, b, y)
    ensures var r, n := Operate(op, cells, a, b), StepBoxed(op, x, y);
            if n.Some? then r == Ok(Canonical(n.value)) else r.Err? || r.value == SomeFloat
  {
    OperateIsExact(op, cells, a, b);
  }

  // None where the operation fails, or gives a float, which is dropped.
  method Combine(heap: BigIntHeap, op: Op, a: Value, b: Value, ghost x: int, ghost y: int) returns (v: Option<Value>)
    requires heap.Valid() && a in heap.owned && b in heap.owned
    requires IsBoxOf(heap.cells, a, x) && IsBoxOf(heap.cells, b, y)
    modifies heap
    ensures Evaluated(heap, v, StepBoxed(op, x, y), old(heap.live), old(heap.cells), old(heap.owned))
  {
    OperateSteps(op, heap.cells, a, b, x, y);
    var r := heap.Binary(op, a, b, NaN, 0);
    if r.Err? {
      return None;
    }
    if r.value.Float? {
      DropFloat(heap, r.value, old(heap.owned));
      return None;
    }
    v := Some(r.value);
  }

  method DropFloat(heap: BigIntHeap, v: Value, ghost held: multiset<Value>)
    requires heap.Valid() && v.Float? && heap.owned == held + multiset{v}
    modifies heap
    ensures heap.Valid() && heap.owned == held && heap.live == old(heap.live) && heap.cells == old(heap.cells)
  {
    heap.Decref(v);
    assert heap.owned == held;
  }

  method Flip(heap: BigIntHeap, a: Value, ghost x: int) returns (v: Value)
    requires heap.Valid() && a in heap.owned && IsBoxOf(heap.cells, a, x)
    modifies heap
    ensures heap.Valid() && heap.owned == old(heap.owned) + multiset{v}
    ensures IsBoxOf(heap.cells, v, -x)
    ensures heap.live == old(heap.live) + HeapCost(v)
    ensures v.BigInt? ==> v !in old(heap.owned)
    ensures Keeps(old(heap.cells), heap.cells, old(heap.owned))
  {
    NegIsExact(heap.cells, a);
    var r := heap.Negate(a, NaN, 0);
    v := r.value;
  }

  method ReleaseBoth(heap: BigIntHeap, a: Value, b: Value, ghost held: multiset<Value>)
    requires heap.Valid() && heap.owned == held + multiset{a} + multiset{b}
    requires a.BigInt? ==> a !in held && a != b
    requires b.BigInt? ==> b !in held
    modifies heap
    ensures heap.Valid() && heap.owned == held
    ensures heap.live == old(heap.live) - HeapCost(a) - HeapCost(b)
    ensures Keeps(old(heap.cells), heap.cells, held)
  {
    Release(heap, a, held + multiset{b});
    ghost var cells := heap.cells;
    Release(heap, b, held);
    KeepsOn(old(heap.cells), cells, heap.cells, held, held);
  }

  method Release(heap: BigIntHeap, a: Value, ghost held: multiset<Value>)
    requires heap.Valid() && heap.owned == held + multiset{a}
    requires a.BigInt? ==> a !in held
    modifies heap
    ensures heap.Valid() && heap.owned == held
    ensures heap.live == old(heap.live) - HeapCost(a)
    ensures Keeps(old(heap.cells), heap.cells, held)
  {
    heap.Decref(a);
    assert heap.owned == held;
    forall v | v in held && v.BigInt?
      ensures v.h in heap.cells
    {
      assert Live(heap.cells, v);
    }
  }
}
