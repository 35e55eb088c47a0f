// Freezing values to a nominal form and thawing them into another registry,
// where the same struct types may list their fields in another order.
module Freeze {
  import NanBox
  import opened Wrappers

  // Python objects that can meet the boundary. Sets keep their elements, and
  // dicts their keys with the values beside them, in iteration order.
  datatype Py =
    | PyNone | PyBool(b: bool) | PyInt(i: int) | PyFloat(bits: nat)
    | PyStr(s: string) | PyBytes(bytes: seq<nat>)
    | PyList(items: seq<Py>) | PyTuple(items: seq<Py>)
    | PyDict(keys: seq<Py>, values: seq<Py>)
    | PySet(items: seq<Py>) | PyFrozenSet(items: seq<Py>)
    | PyOther(kind: string)

  datatype Frozen =
    | FNone | FBool(b: bool) | FInt(i: int) | FFloat(bits: nat)
    | FString(s: string) | FBytes(bytes: seq<nat>)
    | FList(items: seq<Frozen>) | FTuple(items: seq<Frozen>) | FSet(items: seq<Frozen>)
    | FDict(keys: seq<Frozen>, values: seq<Frozen>)
    | FStruct(typeName: string, names: seq<string>, fields: seq<Frozen>)

  // ---- Python objects ----

  function FreezePy(p: Py): Option<Frozen>
    decreases p, 1
  {
    match p
    case PyNone => Some(FNone)
    case PyBool(b) => Some(FBool(b))
    case PyInt(i) => if NanBox.I64_MIN <= i <= NanBox.I64_MAX then Some(FInt(i)) else None
    case PyFloat(bits) => Some(FFloat(bits))
    case PyStr(s) => Some(FString(s))
    case PyBytes(b) => Some(FBytes(b))
    case PyList(items) => var fs := FreezeItems(items); if fs.Some? then Some(FList(fs.value)) else None
    case PyTuple(items) => var fs := FreezeItems(items); if fs.Some? then Some(FTuple(fs.value)) else None
    case PyDict(keys, values) =>
      var ks, vs := FreezeItems(keys), FreezeItems(values);
      if ks.Some? && vs.Some? then Some(FDict(ks.value, vs.value)) else None
    case PySet(items) => var fs := FreezeItems(items); if fs.Some? then Some(FSet(fs.value)) else None
    case PyFrozenSet(items) => var fs := FreezeItems(items); if fs.Some? then Some(FSet(fs.value)) else None
    case PyOther(_) => None
  }

  function FreezeItems(items: seq<Py>): (r: Option<seq<Frozen>>)
    ensures r.Some? ==> |r.value| == |items|
    decreases items, 0
  {
    if items == [] then Some([])
    else
      var f, rest := FreezePy(items[0]), FreezeItems(items[1..]);
      if f.Some? && rest.Some? then Some([f.value] + rest.value) else None
  }

  predicate Hashable(p: Py)
    decreases p
  {
    match p
    case PyTuple(items) => forall q <- items :: Hashable(q)
    case PyList(_) | PyDict(_, _) | PySet(_) => false
    case _ => true
  }

  // Adds elements to a set one by one; `eq` is the equality of keys.
  function AddAll(items: seq<Py>, eq: (Py, Py) -> bool): Option<seq<Py>> {
    if items == [] then Some([])
    else
      var x, before := items[|items| - 1], AddAll(items[..|items| - 1], eq);
      if before.None? || !Hashable(x) then None
      else if exists y <- before.value :: eq(y, x) then before
      else Some(before.value + [x])
  }

  // Sets the items of a dict one by one.
  function SetAll(keys: seq<Py>, values: seq<Py>, eq: (Py, Py) -> bool): (r: Option<(seq<Py>, seq<Py>)>)
    requires |keys| == |values|
    ensures r.Some? ==> |r.value.0| == |r.value.1|
  {
    if keys == [] then Some(([], []))
    else
      var n := |keys| - 1;
      var k, v, before := keys[n], values[n], SetAll(keys[..n], values[..n], eq);
      if before.None? || !Hashable(k) then None
      else
        var (ks, vs) := before.value;
        if exists y <- ks :: eq(y, k) then
          Some((ks, seq(|vs|, i requires 0 <= i < |vs| && |ks| == |vs| => if eq(ks[i], k) then v else vs[i])))
        else Some((ks + [k], vs + [v]))
  }

  function ThawPy(f: Frozen, eq: (Py, Py) -> bool): Option<Py>
    decreases f, 1
  {
    match f
    case FNone => Some(PyNone)
    case FBool(b) => Some(PyBool(b))
    case FInt(i) => Some(PyInt(i))
    case FFloat(bits) => Some(PyFloat(bits))
    case FString(s) => Some(PyStr(s))
    case FBytes(b) => Some(PyBytes(b))
    case FList(items) => var ps := ThawItems(items, eq); if ps.Some? then Some(PyList(ps.value)) else None
    case FTuple(items) => var ps := ThawItems(items, eq); if ps.Some? then Some(PyTuple(ps.value)) else None
    case FDict(keys, values) =>
      var ks, vs := ThawItems(keys, eq), ThawItems(values, eq);
      if ks.None? || vs.None? || |keys| != |values| then None
      else
        var d := SetAll(ks.value, vs.value, eq);
        if d.Some? then Some(PyDict(d.value.0, d.value.1)) else None
    case FSet(items) =>
      var ps := ThawItems(items, eq);
      var s := if ps.Some? then AddAll(ps.value, eq) else None;
      if s.Some? then Some(PySet(s.value)) else None
    case FStruct(_, _, _) => None
  }

  function ThawItems(items: seq<Frozen>, eq: (Py, Py) -> bool): (r: Option<seq<Py>>)
    ensures r.Some? ==> |r.value| == |items|
    decreases items, 0
  {
    if items == [] then Some([])
    else
      var p, rest := ThawPy(items[0], eq), ThawItems(items[1..], eq);
      if p.Some? && rest.Some? then Some([p.value] + rest.value) else None
  }

  // ---- What can be frozen ----

  // `q` is in `p`, at any depth.
  predicate Reaches(p: Py, q: Py)
    decreases p
  {
    p == q ||
    match p
    case PyList(items) => exists x <- items :: Reaches(x, q)
    case PyTuple(items) => exists x <- items :: Reaches(x, q)
    case PySet(items) => exists x <- items :: Reaches(x, q)
    case PyFrozenSet(items) => exists x <- items :: Reaches(x, q)
    case PyDict(keys, values) => (exists x <- keys :: Reaches(x, q)) || (exists x <- values :: Reaches(x, q))
    case _ => false
  }

  // An object of a known type, and no integer beyond 64 bits.
  predicate Plain(q: Py) {
    !q.PyOther? && (q.PyInt? ==> NanBox.I64_MIN <= q.i <= NanBox.I64_MAX)
  }

  ghost predicate AllPlain(p: Py) {
    forall q | Reaches(p, q) :: Plain(q)
  }

  lemma {:induction false} ItemsFreezeExactly(items: seq<Py>)
    ensures FreezeItems(items).Some? <==> forall x <- items :: AllPlain(x)
    decreases items, 0
  {
    if items != [] {
      assert items == [items[0]] + items[1..] && items[0] in items;
      assert forall x <- items[1..] :: x in items;
      FreezesExactly(items[0]);
      ItemsFreezeExactly(items[1..]);
    }
  }

  // An object can be frozen exactly when everything in it is plain.
  lemma {:induction false} FreezesExactly(p: Py)
    ensures FreezePy(p).Some? <==> AllPlain(p)
    decreases p, 1
  {
    match p
    case PyList(items) => ContainerFreezes(p, items, []);
    case PyTuple(items) => ContainerFreezes(p, items, []);
    case PySet(items) => ContainerFreezes(p, items, []);
    case PyFrozenSet(items) => ContainerFreezes(p, items, []);
    case PyDict(keys, values) => ContainerFreezes(p, keys, values);
    case _ => assert Reaches(p, p);
  }

  // `p` is a container of `items` and `more`.
  predicate IsContainer(p: Py, items: seq<Py>, more: seq<Py>) {
    match p
    case PyList(xs) => items == xs && more == []
    case PyTuple(xs) => items == xs && more == []
    case PySet(xs) => items == xs && more == []
    case PyFrozenSet(xs) => items == xs && more == []
    case PyDict(ks, vs) => items == ks && more == vs
    case _ => false
  }

  lemma ContainerReaches(p: Py, items: seq<Py>, more: seq<Py>, q: Py)
    requires IsContainer(p, items, more)
    ensures Reaches(p, q) <==> q == p || (exists x <- items :: Reaches(x, q)) || (exists x <- more :: Reaches(x, q))
  {
  }

  lemma ContainerIsPlain(p: Py, items: seq<Py>, more: seq<Py>)
    requires IsContainer(p, items, more)
    ensures AllPlain(p) <==> (forall x <- items :: AllPlain(x)) && (forall x <- more :: AllPlain(x))
  {
    forall q
      ensures Reaches(p, q) <==> q == p || (exists x <- items :: Reaches(x, q)) || (exists x <- more :: Reaches(x, q))
    {
      ContainerReaches(p, items, more, q);
    }
  }

  lemma {:induction false} ContainerFreezes(p: Py, items: seq<Py>, more: seq<Py>)
    requires IsContainer(p, items, more)
    ensures FreezePy(p).Some? <==> AllPlain(p)
    decreases p, 0
  {
    ContainerIsPlain(p, items, more);
    ItemsFreezeExactly(items);
    if more != [] {
      ItemsFreezeExactly(more);
    }
  }

  // `fs` are the frozen `ps`, in order.
  predicate FrozenEach(ps: seq<Py>, fs: seq<Frozen>) {
    |fs| == |ps| && forall i | 0 <= i < |ps| :: FreezePy(ps[i]) == Some(fs[i])
  }

  lemma {:induction false} ItemsFreezeInOrder(items: seq<Py>)
    requires FreezeItems(items).Some?
    ensures FrozenEach(items, FreezeItems(items).value)
  {
    if items != [] {
      ItemsFreezeInOrder(items[1..]);
    }
  }

  // Every kind of object keeps its kind and its items, but for frozen sets, which
  // freeze as sets do.
  lemma FrozenKinds(p: Py)
    requires FreezePy(p).Some?
    ensures var f := FreezePy(p).value;
            match p
            case PyNone => f == FNone
            case PyBool(b) => f == FBool(b)
            case PyInt(i) => f == FInt(i)
            case PyFloat(bits) => f == FFloat(bits)
            case PyStr(s) => f == FString(s)
            case PyBytes(b) => f == FBytes(b)
            case PyList(items) => f.FList? && FrozenEach(items, f.items)
            case PyTuple(items) => f.FTuple? && FrozenEach(items, f.items)
            case PySet(items) => f.FSet? && FrozenEach(items, f.items)
            case PyFrozenSet(items) => f.FSet? && FrozenEach(items, f.items)
            case PyDict(keys, values) => f.FDict? && FrozenEach(keys, f.keys) && FrozenEach(values, f.values)
            case PyOther(_) => false
  {
    match p
    case PyList(items) => ItemsFreezeInOrder(items);
    case PyTuple(items) => ItemsFreezeInOrder(items);
    case PySet(items) => ItemsFreezeInOrder(items);
    case PyFrozenSet(items) => ItemsFreezeInOrder(items);
    case PyDict(keys, values) =>
      ItemsFreezeInOrder(keys);
      ItemsFreezeInOrder(values);
    case _ =>
  }

  // Of equal keys the first one stays, with the last value.
  lemma LaterItemWins(keys: seq<Py>, values: seq<Py>, eq: (Py, Py) -> bool)
    requires keys != [] && |keys| == |values| && SetAll(keys, values, eq).Some?
    ensures var (ks, vs) := SetAll(keys, values, eq).value;
            var k, v := keys[|keys| - 1], values[|values| - 1];
            && (forall i | 0 <= i < |ks| && eq(ks[i], k) :: vs[i] == v)
            && (exists i :: 0 <= i < |ks| && (ks[i] == k || eq(ks[i], k)) && vs[i] == v)
  {
    var n := |keys| - 1;
    var (ks, vs) := SetAll(keys[..n], values[..n], eq).value;
    var (now, vals) := SetAll(keys, values, eq).value;
    if exists y <- ks :: eq(y, keys[n]) {
      var i :| 0 <= i < |ks| && eq(ks[i], keys[n]);
      assert now[i] == ks[i] && vals[i] == values[n];
    } else {
      assert now[|ks|] == keys[n] && vals[|ks|] == values[n];
      assert forall i | 0 <= i < |ks| :: now[i] in ks;
    }
  }

  // ---- What comes back of a Python object ----

  // Frozen sets come back as sets.
  function Melted(p: Py): Py
    decreases p, 1
  {
    match p
    case PyList(items) => PyList(MeltedAll(items))
    case PyTuple(items) => PyTuple(MeltedAll(items))
    case PyDict(keys, values) => PyDict(MeltedAll(keys), MeltedAll(values))
    case PySet(items) => PySet(MeltedAll(items))
    case PyFrozenSet(items) => PySet(MeltedAll(items))
    case _ => p
  }

  function MeltedAll(items: seq<Py>): (r: seq<Py>)
    ensures |r| == |items|
    decreases items, 0
  {
    if items == [] then [] else [Melted(items[0])] + MeltedAll(items[1..])
  }

  predicate Distinct(items: seq<Py>, eq: (Py, Py) -> bool) {
    forall i, j | 0 <= i < j < |items| :: !eq(items[i], items[j])
  }

  predicate AllHashable(items: seq<Py>) {
    forall q <- items :: Hashable(q)
  }

  // Keys and elements are hashable and differ from one another.
  predicate WellFormed(p: Py, eq: (Py, Py) -> bool)
    decreases p
  {
    match p
    case PyList(items) => forall q <- items :: WellFormed(q, eq)
    case PyTuple(items) => forall q <- items :: WellFormed(q, eq)
    case PyDict(keys, values) =>
      |keys| == |values| && AllHashable(keys) && Distinct(keys, eq) &&
      (forall q <- keys :: WellFormed(q, eq)) && (forall q <- values :: WellFormed(q, eq))
    case PySet(items) => AllHashable(items) && Distinct(items, eq) && forall q <- items :: WellFormed(q, eq)
    case PyFrozenSet(items) => AllHashable(items) && Distinct(items, eq) && forall q <- items :: WellFormed(q, eq)
    case _ => true
  }

  // A frozen set, or a tuple with one in it at any depth.
  predicate HasFrozenSet(p: Py)
    decreases p
  {
    match p
    case PyFrozenSet(_) => true
    case PyTuple(items) => exists q <- items :: HasFrozenSet(q)
    case _ => false
  }

  // Somewhere a key or an element is, or has in a tuple, a frozen set.
  predicate HashesFrozenSet(p: Py)
    decreases p
  {
    match p
    case PyList(items) => exists q <- items :: HashesFrozenSet(q)
    case PyTuple(items) => exists q <- items :: HashesFrozenSet(q)
    case PyDict(keys, values) =>
      (exists q <- keys :: HasFrozenSet(q) || HashesFrozenSet(q)) || (exists q <- values :: HashesFrozenSet(q))
    case PySet(items) => exists q <- items :: HasFrozenSet(q) || HashesFrozenSet(q)
    case PyFrozenSet(items) => exists q <- items :: HasFrozenSet(q) || HashesFrozenSet(q)
    case _ => false
  }

  lemma {:induction false} AddAllDistinct(items: seq<Py>, eq: (Py, Py) -> bool)
    requires Distinct(items, eq)
    ensures AddAll(items, eq) == if AllHashable(items) then Some(items) else None
  {
    if items != [] {
      var before := items[..|items| - 1];
      AddAllDistinct(before, eq);
      assert items == before + [items[|items| - 1]];
      assert forall q <- before :: q in items;
      forall y | y in before
        ensures !eq(y, items[|items| - 1])
      {
        var i :| 0 <= i < |before| && before[i] == y;
        assert items[i] == y;
      }
    }
  }

  lemma {:induction false} AddAllUnhashable(items: seq<Py>, eq: (Py, Py) -> bool)
    requires !AllHashable(items)
    ensures AddAll(items, eq) == None
  {
    var before := items[..|items| - 1];
    assert items == before + [items[|items| - 1]];
    if Hashable(items[|items| - 1]) {
      assert !AllHashable(before);
      AddAllUnhashable(before, eq);
    }
  }

  lemma {:induction false} SetAllDistinct(keys: seq<Py>, values: seq<Py>, eq: (Py, Py) -> bool)
    requires |keys| == |values| && Distinct(keys, eq) && AllHashable(keys)
    ensures SetAll(keys, values, eq) == Some((keys, values))
  {
    if keys != [] {
      var n := |keys| - 1;
      assert keys == keys[..n] + [keys[n]] && values == values[..n] + [values[n]];
      assert forall q <- keys[..n] :: q in keys;
      SetAllDistinct(keys[..n], values[..n], eq);
      forall y | y in keys[..n]
        ensures !eq(y, keys[n])
      {
        var i :| 0 <= i < n && keys[..n][i] == y;
        assert keys[i] == y;
      }
    }
  }

  lemma {:induction false} SetAllUnhashable(keys: seq<Py>, values: seq<Py>, eq: (Py, Py) -> bool)
    requires |keys| == |values| && !AllHashable(keys)
    ensures SetAll(keys, values, eq) == None
  {
    var n := |keys| - 1;
    assert keys == keys[..n] + [keys[n]];
    if Hashable(keys[n]) {
      assert !AllHashable(keys[..n]);
      SetAllUnhashable(keys[..n], values[..n], eq);
    }
  }

  // A hashable value without frozen sets is untouched; with one it comes back
  // unhashable.
  lemma {:induction false} HashableMelts(p: Py)
    requires Hashable(p)
    ensures if HasFrozenSet(p) then !Hashable(Melted(p)) else Melted(p) == p
    decreases p, 1
  {
    if p.PyTuple? {
      HashablesMelt(p.items);
    }
  }

  lemma {:induction false} HashablesMelt(items: seq<Py>)
    requires AllHashable(items)
    ensures if exists q <- items :: HasFrozenSet(q) then !AllHashable(MeltedAll(items)) else MeltedAll(items) == items
    decreases items, 0
  {
    if items != [] {
      var rest := items[1..];
      assert items == [items[0]] + rest && items[0] in items;
      assert forall q <- rest :: q in items;
      HashableMelts(items[0]);
      HashablesMelt(rest);
      var m := MeltedAll(items);
      assert m == [Melted(items[0])] + MeltedAll(rest);
      assert m[0] in m && forall q <- MeltedAll(rest) :: q in m;
    }
  }

  predicate AnyHasFrozenSet(items: seq<Py>) {
    exists q <- items :: HasFrozenSet(q)
  }

  predicate AnyHashesFrozenSet(items: seq<Py>) {
    exists q <- items :: HashesFrozenSet(q)
  }

  // A Python object comes back with its frozen sets as sets; but if a frozen set
  // is used as a key or an element, which a set cannot be, nothing comes back.
  lemma {:induction false} PyRoundTrip(p: Py, eq: (Py, Py) -> bool)
    requires WellFormed(p, eq) && FreezePy(p).Some?
    ensures ThawPy(FreezePy(p).value, eq) == if HashesFrozenSet(p) then None else Some(Melted(p))
    decreases p, 1
  {
    match p
    case PyList(items) => ItemsRoundTrip(items, eq);
    case PyTuple(items) => ItemsRoundTrip(items, eq);
    case PySet(items) => SetRoundTrip(items, eq);
    case PyFrozenSet(items) => SetRoundTrip(items, eq);
    case PyDict(keys, values) => DictRoundTrip(p, eq);
    case _ =>
  }

  lemma MeltedKeys(keys: seq<Py>, values: seq<Py>, eq: (Py, Py) -> bool)
    requires |keys| == |values| && AllHashable(keys) && Distinct(keys, eq)
    ensures SetAll(MeltedAll(keys), values, eq) ==
            if AnyHasFrozenSet(keys) then None else Some((MeltedAll(keys), values))
  {
    HashablesMelt(keys);
    if AnyHasFrozenSet(keys) {
      SetAllUnhashable(MeltedAll(keys), values, eq);
    } else {
      SetAllDistinct(keys, values, eq);
    }
  }

  // A dict of frozen keys and values, from what becomes of the two lists.
  lemma DictThaws(ks: seq<Frozen>, vs: seq<Frozen>, ps: seq<Py>, qs: seq<Py>, eq: (Py, Py) -> bool)
    requires |ks| == |vs| && ThawItems(ks, eq) == Some(ps) && ThawItems(vs, eq) == Some(qs)
    ensures |ps| == |qs|
    ensures ThawPy(FDict(ks, vs), eq) ==
            var d := SetAll(ps, qs, eq); if d.Some? then Some(PyDict(d.value.0, d.value.1)) else None
  {
  }

  lemma DictHashes(p: Py)
    requires p.PyDict?
    ensures HashesFrozenSet(p) <==>
            AnyHasFrozenSet(p.keys) || AnyHashesFrozenSet(p.keys) || AnyHashesFrozenSet(p.values)
  {
  }

  lemma {:induction false} DictRoundTrip(p: Py, eq: (Py, Py) -> bool)
    requires p.PyDict? && WellFormed(p, eq) && FreezePy(p).Some?
    ensures ThawPy(FreezePy(p).value, eq) == if HashesFrozenSet(p) then None else Some(Melted(p))
    decreases p, 0
  {
    DictHashes(p);
    ItemsRoundTrip(p.keys, eq);
    ItemsRoundTrip(p.values, eq);
    var ks, vs := FreezeItems(p.keys).value, FreezeItems(p.values).value;
    if AnyHashesFrozenSet(p.keys) || AnyHashesFrozenSet(p.values) {
      assert ThawItems(ks, eq).None? || ThawItems(vs, eq).None?;
    } else {
      DictThaws(ks, vs, MeltedAll(p.keys), MeltedAll(p.values), eq);
      MeltedKeys(p.keys, MeltedAll(p.values), eq);
    }
  }

  // A frozen set as a dict key, which is a legal object, is such a case.
  lemma FrozenSetKeyIsLost(eq: (Py, Py) -> bool)
    ensures var p := PyDict([PyFrozenSet([])], [PyNone]);
            WellFormed(p, eq) && FreezePy(p).Some? && ThawPy(FreezePy(p).value, eq) == None
  {
    var p := PyDict([PyFrozenSet([])], [PyNone]);
    assert p.keys[1..] == [] && p.values[1..] == [];
    assert p.keys[0] in p.keys && HasFrozenSet(p.keys[0]);
    PyRoundTrip(p, eq);
  }

  // Freezing again gives the same frozen value.
  lemma {:induction false} MeltedFreezesAlike(p: Py)
    ensures FreezePy(Melted(p)) == FreezePy(p)
    decreases p, 1
  {
    match p
    case PyList(items) => MeltedItemsFreezeAlike(items);
    case PyTuple(items) => MeltedItemsFreezeAlike(items);
    case PySet(items) => MeltedItemsFreezeAlike(items);
    case PyFrozenSet(items) => MeltedItemsFreezeAlike(items);
    case PyDict(keys, values) =>
      MeltedItemsFreezeAlike(keys);
      MeltedItemsFreezeAlike(values);
    case _ =>
  }

  lemma {:induction false} MeltedItemsFreezeAlike(items: seq<Py>)
    ensures FreezeItems(MeltedAll(items)) == FreezeItems(items)
    decreases items, 0
  {
    if items != [] {
      MeltedFreezesAlike(items[0]);
      MeltedItemsFreezeAlike(items[1..]);
      assert MeltedAll(items)[1..] == MeltedAll(items[1..]);
    }
  }

  lemma {:induction false} SetRoundTrip(items: seq<Py>, eq: (Py, Py) -> bool)
    requires AllHashable(items) && Distinct(items, eq) && forall q <- items :: WellFormed(q, eq)
    requires FreezeItems(items).Some?
    ensures ThawPy(FSet(FreezeItems(items).value), eq) ==
            if exists q <- items :: HasFrozenSet(q) || HashesFrozenSet(q) then None else Some(PySet(MeltedAll(items)))
    decreases items, 1
  {
    ItemsRoundTrip(items, eq);
    HashablesMelt(items);
    if !AnyHashesFrozenSet(items) {
      if exists q <- items :: HasFrozenSet(q) {
        AddAllUnhashable(MeltedAll(items), eq);
      } else {
        AddAllDistinct(items, eq);
      }
    }
  }

  lemma {:induction false} ItemsRoundTrip(items: seq<Py>, eq: (Py, Py) -> bool)
    requires (forall q <- items :: WellFormed(q, eq)) && FreezeItems(items).Some?
    ensures ThawItems(FreezeItems(items).value, eq) ==
            if AnyHashesFrozenSet(items) then None else Some(MeltedAll(items))
    decreases items, 0
  {
    if items != [] {
      var fs := FreezeItems(items).value;
      assert items == [items[0]] + items[1..] && items[0] in items;
      assert forall q <- items[1..] :: q in items;
      assert fs[1..] == FreezeItems(items[1..]).value;
      PyRoundTrip(items[0], eq);
      ItemsRoundTrip(items[1..], eq);
    }
  }

  // ---- Values and the struct registry ----

  datatype Value = Nil | Bool(b: bool) | SmallInt(i: int) | Float(bits: nat) | PyObj(p: Py) | Struct(idx: nat) | Opaque

  datatype StructType = StructType(name: string, fields: seq<string>)

  datatype Instance = Instance(typeId: nat, fields: seq<Value>)

  // `free` is the stack of reusable slots.
  datatype Registry = Registry(types: seq<StructType>, instances: seq<Option<Instance>>, free: seq<nat>)

  function FindInstance(reg: Registry, idx: nat): Option<Instance> {
    if idx < |reg.instances| then reg.instances[idx] else None
  }

  // The latest definition of a name.
  function FindType(types: seq<StructType>, name: string): (id: Option<nat>)
    ensures id.Some? ==> id.value < |types| && types[id.value].name == name
    ensures forall k | (if id.Some? then id.value + 1 else 0) <= k < |types| :: types[k].name != name
  {
    if types == [] then None
    else if types[|types| - 1].name == name then Some(|types| - 1)
    else FindType(types[..|types| - 1], name)
  }

  function FieldIndex(fields: seq<string>, name: string): (i: Option<nat>)
    ensures i.Some? ==> i.value < |fields| && fields[i.value] == name && name !in fields[..i.value]
    ensures i.None? <==> name !in fields
  {
    if fields == [] then None
    else if fields[0] == name then Some(0)
    else
      var i := FieldIndex(fields[1..], name);
      if i.Some? then Some(i.value + 1) else None
  }

  // Structs are nested at most `d` deep.
  predicate Nests(reg: Registry, v: Value, d: nat)
    decreases d
  {
    v.Struct? ==>
      d > 0 && (FindInstance(reg, v.idx).Some? ==>
        forall w <- FindInstance(reg, v.idx).value.fields :: Nests(reg, w, d - 1))
  }

  function FreezeValue(reg: Registry, v: Value, d: nat): Option<Frozen>
    requires Nests(reg, v, d)
    decreases d, 1, 0
  {
    match v
    case Nil => Some(FNone)
    case Bool(b) => Some(FBool(b))
    case SmallInt(i) => Some(FInt(i))
    case Float(bits) => Some(FFloat(bits))
    case PyObj(p) => FreezePy(p)
    case Struct(idx) =>
      var inst := FindInstance(reg, idx);
      if inst.None? || inst.value.typeId >= |reg.types| then None
      else
        var t := reg.types[inst.value.typeId];
        var n := if |t.fields| <= |inst.value.fields| then |t.fields| else |inst.value.fields|;
        assert forall w <- inst.value.fields[..n] :: w in inst.value.fields;
        var fs := FreezeFields(reg, inst.value.fields[..n], d - 1);
        if fs.Some? then Some(FStruct(t.name, t.fields[..n], fs.value)) else None
    case Opaque => None
  }

  function FreezeFields(reg: Registry, vs: seq<Value>, d: nat): (r: Option<seq<Frozen>>)
    requires forall w <- vs :: Nests(reg, w, d)
    ensures r.Some? ==> |r.value| == |vs|
    decreases d, 2, |vs|
  {
    if vs == [] then Some([])
    else
      assert forall w <- vs[1..] :: w in vs;
      var f, rest := FreezeValue(reg, vs[0], d), FreezeFields(reg, vs[1..], d);
      if f.Some? && rest.Some? then Some([f.value] + rest.value) else None
  }

  // The integers that a word holds.
  predicate FitsWord(i: int) {
    NanBox.SMALLINT_MIN <= i <= NanBox.SMALLINT_MAX
  }

  // `Value::from_pyobject` unboxes natives.
  function FromPy(p: Py): Value {
    match p
    case PyNone => Nil
    case PyBool(b) => Bool(b)
    case PyInt(i) => if FitsWord(i) then SmallInt(i) else Opaque
    case PyFloat(bits) => Float(bits)
    case _ => PyObj(p)
  }

  function CreateInstance(reg: Registry, inst: Instance): (Registry, nat) {
    if reg.free != [] && reg.free[|reg.free| - 1] < |reg.instances| then
      var idx := reg.free[|reg.free| - 1];
      (reg.(free := reg.free[..|reg.free| - 1], instances := reg.instances[idx := Some(inst)]), idx)
    else (reg.(instances := reg.instances + [Some(inst)]), |reg.instances|)
  }

  function ThawValue(reg: Registry, f: Frozen, eq: (Py, Py) -> bool): (Registry, Value)
    decreases f, 1
  {
    match f
    case FNone => (reg, Nil)
    case FBool(b) => (reg, Bool(b))
    case FInt(i) => (reg, SmallInt(NanBox.Wrap47(i)))
    case FFloat(bits) => (reg, Float(bits))
    case FStruct(name, names, fields) =>
      var id := FindType(reg.types, name);
      if id.None? || |names| != |fields| then (reg, Nil)
      else
        var (reg', positional) := ThawFields(reg, reg.types[id.value].fields, names, fields, eq);
        var (reg'', idx) := CreateInstance(reg', Instance(id.value, positional));
        (reg'', Struct(idx))
    case _ =>
      var p := ThawPy(f, eq);
      (reg, if p.Some? then FromPy(p.value) else Nil)
  }

  // The positional fields after the frozen ones went to their slots; a field the
  // type does not have is dropped, a slot that gets none stays nil.
  function ThawFields(reg: Registry, slots: seq<string>, names: seq<string>, fields: seq<Frozen>, eq: (Py, Py) -> bool)
    : (r: (Registry, seq<Value>))
    requires |names| == |fields|
    ensures |r.1| == |slots|
    decreases fields, 0
  {
    if fields == [] then (reg, seq(|slots|, _ => Nil))
    else
      var n := |fields| - 1;
      var (reg', positional) := ThawFields(reg, slots, names[..n], fields[..n], eq);
      PutField(reg', positional, FieldIndex(slots, names[n]), fields[n], eq)
  }

  function PutField(reg: Registry, positional: seq<Value>, at: Option<nat>, f: Frozen, eq: (Py, Py) -> bool)
    : (r: (Registry, seq<Value>))
    requires at.Some? ==> at.value < |positional|
    ensures |r.1| == |positional|
    decreases f, 2
  {
    if at.None? then (reg, positional)
    else
      var (reg', v) := ThawValue(reg, f, eq);
      (reg', positional[at.value := v])
  }

  // ---- What a value stands for ----

  predicate DistinctNames(names: seq<string>) {
    forall i, j | 0 <= i < j < |names| :: names[i] != names[j]
  }

  predicate SameNames(a: seq<string>, b: seq<string>) {
    (forall n <- a :: n in b) && (forall n <- b :: n in a)
  }

  // Two lists of the same distinct names, in any order.
  predicate Permuted(a: seq<string>, b: seq<string>) {
    DistinctNames(a) && DistinctNames(b) && SameNames(a, b)
  }

  // `v` stands for the nominal value `f`: struct by type name, fields by name.
  predicate Represents(reg: Registry, v: Value, f: Frozen)
    decreases f
  {
    match f
    case FNone => v == Nil
    case FBool(b) => v == Bool(b)
    case FInt(i) => v == SmallInt(i)
    case FFloat(bits) => v == Float(bits)
    case FStruct(name, names, fields) =>
      v.Struct? && |names| == |fields| &&
      var inst := FindInstance(reg, v.idx);
      inst.Some? && inst.value.typeId < |reg.types| &&
      var t := reg.types[inst.value.typeId];
      t.name == name && |t.fields| == |inst.value.fields| && Permuted(t.fields, names) &&
      forall j | 0 <= j < |names| :: Represents(reg, FieldNamed(t, inst.value, names[j]), fields[j])
    case _ => v.PyObj? && FreezePy(v.p) == Some(f)
  }

  function FieldNamed(t: StructType, inst: Instance, name: string): Value
    requires |t.fields| == |inst.fields| && name in t.fields
  {
    inst.fields[FieldIndex(t.fields, name).value]
  }

  // What a registry needs to know for `f` to come back.
  predicate Thawable(types: seq<StructType>, f: Frozen, eq: (Py, Py) -> bool)
    decreases f
  {
    match f
    case FNone => true
    case FBool(_) => true
    case FFloat(_) => true
    case FInt(i) => FitsWord(i)
    case FStruct(name, names, fields) =>
      var id := FindType(types, name);
      id.Some? && |names| == |fields| && Permuted(types[id.value].fields, names) &&
      forall j | 0 <= j < |fields| :: Thawable(types, fields[j], eq)
    case _ => ThawPy(f, eq).Some? && FreezePy(ThawPy(f, eq).value) == Some(f)
  }

  // ---- Freezing keeps what a value stands for ----

  // Natives are unboxed.
  predicate ValueOk(v: Value) {
    v.PyObj? ==> FromPy(v.p) == v
  }

  predicate InstanceOk(reg: Registry, inst: Instance) {
    && inst.typeId < |reg.types| && |inst.fields| == |reg.types[inst.typeId].fields|
    && DistinctNames(reg.types[inst.typeId].fields)
    && forall w <- inst.fields :: ValueOk(w)
  }

  predicate RegistryOk(reg: Registry) {
    forall slot <- reg.instances | slot.Some? :: InstanceOk(reg, slot.value)
  }

  lemma {:induction false} FrozenFieldAt(reg: Registry, vs: seq<Value>, d: nat, j: nat)
    requires forall w <- vs :: Nests(reg, w, d)
    requires FreezeFields(reg, vs, d).Some? && j < |vs|
    ensures vs[j] in vs && FreezeValue(reg, vs[j], d) == Some(FreezeFields(reg, vs, d).value[j])
  {
    if j > 0 {
      assert forall w <- vs[1..] :: w in vs;
      FrozenFieldAt(reg, vs[1..], d, j - 1);
    }
  }

  lemma {:induction false} FieldIndexOf(fields: seq<string>, j: nat)
    requires DistinctNames(fields) && j < |fields|
    ensures FieldIndex(fields, fields[j]) == Some(j)
  {
    var i := FieldIndex(fields, fields[j]);
    assert fields[i.value] == fields[j];
  }

  lemma {:induction false} FreezeRepresents(reg: Registry, v: Value, d: nat)
    requires RegistryOk(reg) && ValueOk(v) && Nests(reg, v, d) && FreezeValue(reg, v, d).Some?
    ensures Represents(reg, v, FreezeValue(reg, v, d).value)
    decreases d
  {
    if v.Struct? {
      var inst := FindInstance(reg, v.idx).value;
      assert Some(inst) in reg.instances;
      var t := reg.types[inst.typeId];
      assert inst.fields[..|inst.fields|] == inst.fields && t.fields[..|t.fields|] == t.fields;
      var fs := FreezeFields(reg, inst.fields, d - 1).value;
      forall j | 0 <= j < |t.fields|
        ensures Represents(reg, FieldNamed(t, inst, t.fields[j]), fs[j])
      {
        FrozenFieldAt(reg, inst.fields, d - 1, j);
        FieldIndexOf(t.fields, j);
        FreezeRepresents(reg, inst.fields[j], d - 1);
      }
    }
  }

  // A value can be frozen exactly when every struct it reaches is there with its
  // type, and everything else in it is a native or a plain object.
  ghost predicate CanFreeze(reg: Registry, v: Value, d: nat)
    requires Nests(reg, v, d)
    decreases d
  {
    match v
    case PyObj(p) => AllPlain(p)
    case Struct(idx) =>
      var inst := FindInstance(reg, idx);
      inst.Some? && inst.value.typeId < |reg.types| &&
      var n := Min(|reg.types[inst.value.typeId].fields|, |inst.value.fields|);
      assert forall w <- inst.value.fields[..n] :: w in inst.value.fields;
      forall w <- inst.value.fields[..n] :: CanFreeze(reg, w, d - 1)
    case Opaque => false
    case _ => true
  }

  lemma {:induction false} ValueFreezesExactly(reg: Registry, v: Value, d: nat)
    requires Nests(reg, v, d)
    ensures FreezeValue(reg, v, d).Some? <==> CanFreeze(reg, v, d)
    decreases d, 1, 0
  {
    match v
    case PyObj(p) => FreezesExactly(p);
    case Struct(idx) =>
      var inst := FindInstance(reg, idx);
      if inst.Some? && inst.value.typeId < |reg.types| {
        var vs := inst.value.fields;
        var n := Min(|reg.types[inst.value.typeId].fields|, |vs|);
        assert forall w <- vs[..n] :: w in vs;
        FieldsFreezeExactly(reg, vs[..n], d - 1);
      }
    case _ =>
  }

  lemma {:induction false} FieldsFreezeExactly(reg: Registry, vs: seq<Value>, d: nat)
    requires forall w <- vs :: Nests(reg, w, d)
    ensures FreezeFields(reg, vs, d).Some? <==> forall w <- vs :: CanFreeze(reg, w, d)
    decreases d, 2, |vs|
  {
    if vs != [] {
      assert vs == [vs[0]] + vs[1..] && vs[0] in vs && forall w <- vs[1..] :: w in vs;
      ValueFreezesExactly(reg, vs[0], d);
      FieldsFreezeExactly(reg, vs[1..], d);
    }
  }

  // Unboxing changes nothing about freezing, but for the integers beyond 47 bits,
  // which no word holds.
  lemma UnboxedFreezesAlike(reg: Registry, p: Py)
    ensures FromPy(p) == Opaque <==> p.PyInt? && !(-0x4000_0000_0000 <= p.i < 0x4000_0000_0000)
    ensures Nests(reg, FromPy(p), 0)
    ensures FreezeValue(reg, FromPy(p), 0) == if FromPy(p) == Opaque then None else FreezePy(p)
  {
  }

  // ---- Thawing ----

  // Everything in `a` is still in `b`.
  predicate Extends(a: Registry, b: Registry) {
    a.types == b.types &&
    forall idx | 0 <= idx < |a.instances| && a.instances[idx].Some? ::
      idx < |b.instances| && b.instances[idx] == a.instances[idx]
  }

  // Reusable slots are empty and listed once.
  predicate FreeOk(reg: Registry) {
    && (forall k | 0 <= k < |reg.free| :: reg.free[k] < |reg.instances| && reg.instances[reg.free[k]].None?)
    && (forall k, l | 0 <= k < l < |reg.free| :: reg.free[k] != reg.free[l])
  }

  lemma ExtendsTransitive(a: Registry, b: Registry, c: Registry)
    requires Extends(a, b) && Extends(b, c)
    ensures Extends(a, c)
  {
  }

  lemma CreateExtends(reg: Registry, inst: Instance)
    requires FreeOk(reg)
    ensures var (reg', idx) := CreateInstance(reg, inst);
            Extends(reg, reg') && FreeOk(reg') && FindInstance(reg', idx) == Some(inst)
  {
  }

  // A new instance takes the slot that was freed last, or a new one.
  lemma FreedSlotIsReused(reg: Registry, inst: Instance)
    requires FreeOk(reg)
    ensures var (now, idx) := CreateInstance(reg, inst);
            if reg.free == [] then idx == |reg.instances| && |now.instances| == |reg.instances| + 1
            else idx == reg.free[|reg.free| - 1] && |now.instances| == |reg.instances| &&
                 now.free + [idx] == reg.free
  {
  }

  // A slot that no frozen field has the name of stays nil.
  lemma {:induction false} OtherSlotsStayNil(reg: Registry, slots: seq<string>, names: seq<string>, fields: seq<Frozen>,
                                             eq: (Py, Py) -> bool, k: nat)
    requires |names| == |fields| && k < |slots| && slots[k] !in names
    ensures ThawFields(reg, slots, names, fields, eq).1[k] == Nil
  {
    if fields != [] {
      var n := |fields| - 1;
      assert names == names[..n] + [names[n]];
      OtherSlotsStayNil(reg, slots, names[..n], fields[..n], eq, k);
    }
  }

  // A thawed value stands for the frozen one, then and in every later state of
  // the registry, exactly when the registry knows its types with the same fields
  // and its Python objects can come back. Nothing that was there is touched.
  lemma {:induction false} ThawRepresents(reg: Registry, f: Frozen, eq: (Py, Py) -> bool, later: Registry)
    requires FreeOk(reg)
    ensures Extends(reg, ThawValue(reg, f, eq).0) && FreeOk(ThawValue(reg, f, eq).0)
    ensures Extends(ThawValue(reg, f, eq).0, later) ==>
              (Represents(later, ThawValue(reg, f, eq).1, f) <==> Thawable(reg.types, f, eq))
    decreases f, 1
  {
    match f
    case FStruct(name, names, fields) =>
      var id := FindType(reg.types, name);
      if id.Some? && |names| == |fields| {
        var t := reg.types[id.value];
        var (reg', positional) := ThawFields(reg, t.fields, names, fields, eq);
        var inst := Instance(id.value, positional);
        var (reg'', idx) := CreateInstance(reg', inst);
        FieldsRepresent(reg, t.fields, names, fields, eq, later);
        CreateExtends(reg', inst);
        ExtendsTransitive(reg, reg', reg'');
        if Extends(reg'', later) {
          ExtendsTransitive(reg', reg'', later);
          StructRepresents(reg, later, idx, id.value, positional, f, eq);
        }
      }
    case _ =>
  }

  lemma {:induction false} StructRepresents(reg: Registry, later: Registry, idx: nat, id: nat, positional: seq<Value>,
                                            f: Frozen, eq: (Py, Py) -> bool)
    requires f.FStruct? && |f.names| == |f.fields| && later.types == reg.types
    requires FindType(reg.types, f.typeName) == Some(id) && |positional| == |reg.types[id].fields|
    requires FindInstance(later, idx) == Some(Instance(id, positional))
    requires DistinctNames(f.names) ==>
               SlotsRepresent(later, reg.types, positional, reg.types[id].fields, f.names, f.fields, eq)
    ensures Represents(later, Struct(idx), f) <==> Thawable(reg.types, f, eq)
  {
    var t := reg.types[id];
    if Permuted(t.fields, f.names) {
      forall j | 0 <= j < |f.names|
        ensures Represents(later, FieldNamed(t, Instance(id, positional), f.names[j]), f.fields[j])
                <==> Thawable(reg.types, f.fields[j], eq)
      {
        assert f.names[j] in t.fields;
      }
    }
  }

  lemma {:induction false} FieldsRepresent(reg: Registry, slots: seq<string>, names: seq<string>, fields: seq<Frozen>,
                                           eq: (Py, Py) -> bool, later: Registry)
    requires FreeOk(reg) && |names| == |fields|
    ensures var (reg', positional) := ThawFields(reg, slots, names, fields, eq);
            && Extends(reg, reg') && FreeOk(reg')
            && (Extends(reg', later) && DistinctNames(names) ==>
                  SlotsRepresent(later, reg.types, positional, slots, names, fields, eq))
    decreases fields, 0
  {
    if fields != [] {
      var n := |fields| - 1;
      var (before, positional) := ThawFields(reg, slots, names[..n], fields[..n], eq);
      FieldsRepresent(reg, slots, names[..n], fields[..n], eq, later);
      ThawRepresents(before, fields[n], eq, later);
      var (reg', after) := PutField(before, positional, FieldIndex(slots, names[n]), fields[n], eq);
      ExtendsTransitive(reg, before, reg');
      if Extends(reg', later) && DistinctNames(names) {
        ExtendsTransitive(before, reg', later);
        PutKeepsSlots(later, reg.types, positional, slots, names, fields, eq, ThawValue(before, fields[n], eq).1);
      }
    }
  }

  // Every frozen field that has a slot is represented there as far as it can be.
  ghost predicate SlotsRepresent(later: Registry, types: seq<StructType>, positional: seq<Value>, slots: seq<string>,
                                 names: seq<string>, fields: seq<Frozen>, eq: (Py, Py) -> bool)
    requires |names| == |fields| && |positional| == |slots|
  {
    forall j | 0 <= j < |names| && names[j] in slots ::
      Represents(later, positional[FieldIndex(slots, names[j]).value], fields[j]) <==> Thawable(types, fields[j], eq)
  }

  lemma PutKeepsSlots(later: Registry, types: seq<StructType>, positional: seq<Value>, slots: seq<string>,
                      names: seq<string>, fields: seq<Frozen>, eq: (Py, Py) -> bool, v: Value)
    requires |names| == |fields| > 0 && |positional| == |slots| && DistinctNames(names)
    requires SlotsRepresent(later, types, positional, slots, names[..|names| - 1], fields[..|names| - 1], eq)
    requires names[|names| - 1] in slots ==>
               (Represents(later, v, fields[|names| - 1]) <==> Thawable(types, fields[|names| - 1], eq))
    ensures var at := FieldIndex(slots, names[|names| - 1]);
            var after := if at.Some? then positional[at.value := v] else positional;
            SlotsRepresent(later, types, after, slots, names, fields, eq)
  {
    var n := |names| - 1;
    var at := FieldIndex(slots, names[n]);
    var after := if at.Some? then positional[at.value := v] else positional;
    forall j | 0 <= j < |names| && names[j] in slots
      ensures Represents(later, after[FieldIndex(slots, names[j]).value], fields[j]) <==> Thawable(types, fields[j], eq)
    {
      if j < n {
        assert names[..n][j] == names[j] && fields[..n][j] == fields[j];
        assert at.Some? ==> FieldIndex(slots, names[j]).value != at.value;
      }
    }
  }

  // The round trip: a value and what it becomes in another registry stand for the
  // same nominal value, at every depth and whatever the order of the fields,
  // exactly when the other registry can take it.
  lemma FreezeThenThaw(reg: Registry, v: Value, d: nat, other: Registry, eq: (Py, Py) -> bool)
    requires RegistryOk(reg) && ValueOk(v) && Nests(reg, v, d) && FreezeValue(reg, v, d).Some? && FreeOk(other)
    ensures var f := FreezeValue(reg, v, d).value;
            var (now, w) := ThawValue(other, f, eq);
            && Represents(reg, v, f)
            && (Represents(now, w, f) <==> Thawable(other.types, f, eq))
            && Extends(other, now)
  {
    var f := FreezeValue(reg, v, d).value;
    FreezeRepresents(reg, v, d);
    ThawRepresents(other, f, eq, ThawValue(other, f, eq).0);
  }

  // Two values that stand for the same struct agree field by name.
  lemma AgreeByName(a: Registry, v: Value, b: Registry, w: Value, f: Frozen, name: string)
    requires f.FStruct? && Represents(a, v, f) && Represents(b, w, f)
    ensures var s, t := FindInstance(a, v.idx).value, FindInstance(b, w.idx).value;
            var sType, tType := a.types[s.typeId], b.types[t.typeId];
            && sType.name == tType.name && |sType.fields| == |s.fields| && |tType.fields| == |t.fields|
            && (name in sType.fields <==> name in tType.fields)
            && (name in sType.fields ==>
                  exists g <- f.fields ::
                    Represents(a, FieldNamed(sType, s, name), g) && Represents(b, FieldNamed(tType, t, name), g))
  {
    var s, t := FindInstance(a, v.idx).value, FindInstance(b, w.idx).value;
    if name in a.types[s.typeId].fields {
      var j :| 0 <= j < |f.names| && f.names[j] == name;
      assert f.fields[j] in f.fields;
    }
  }

  // A registry knows the types of another: by name, with the same fields.
  predicate Knows(types: seq<StructType>, t: StructType) {
    var id := FindType(types, t.name);
    id.Some? && Permuted(types[id.value].fields, t.fields)
  }

  // A value whose parts can all come back: integers that fit, and Python objects
  // that do not use a frozen set as a key or an element.
  predicate CanComeBack(v: Value, eq: (Py, Py) -> bool) {
    && (v.SmallInt? ==> FitsWord(v.i))
    && (v.PyObj? ==> WellFormed(v.p, eq) && !HashesFrozenSet(v.p))
  }

  // The Python objects among the fields of a registry.
  predicate ObjectsOk(reg: Registry, eq: (Py, Py) -> bool) {
    forall slot <- reg.instances | slot.Some? ::
      forall w <- slot.value.fields :: w.PyObj? ==> WellFormed(w.p, eq)
  }

  // What it takes for a value to arrive elsewhere: the type of every struct it
  // reaches is known there, and everything else in it comes back.
  predicate Arrives(reg: Registry, v: Value, d: nat, known: StructType -> bool)
    requires Nests(reg, v, d)
    decreases d
  {
    match v
    case SmallInt(i) => FitsWord(i)
    case PyObj(p) => !HashesFrozenSet(p)
    case Struct(idx) =>
      var inst := FindInstance(reg, idx);
      inst.Some? && inst.value.typeId < |reg.types| && known(reg.types[inst.value.typeId]) &&
      forall w <- inst.value.fields :: Arrives(reg, w, d - 1, known)
    case _ => true
  }

  // A frozen struct, with the fields of its whole type.
  lemma FrozenStruct(reg: Registry, v: Value, d: nat)
    requires RegistryOk(reg) && v.Struct? && Nests(reg, v, d) && FreezeValue(reg, v, d).Some?
    ensures FindInstance(reg, v.idx).Some?
    ensures var inst := FindInstance(reg, v.idx).value;
            && InstanceOk(reg, inst)
            && (forall w <- inst.fields :: Nests(reg, w, d - 1))
            && FreezeFields(reg, inst.fields, d - 1).Some?
            && FreezeValue(reg, v, d).value ==
               FStruct(reg.types[inst.typeId].name, reg.types[inst.typeId].fields,
                       FreezeFields(reg, inst.fields, d - 1).value)
  {
    var inst := FindInstance(reg, v.idx).value;
    assert Some(inst) in reg.instances;
    var t := reg.types[inst.typeId];
    assert inst.fields[..|inst.fields|] == inst.fields && t.fields[..|t.fields|] == t.fields;
  }

  lemma {:induction false} FrozenIsThawable(reg: Registry, v: Value, d: nat, types: seq<StructType>,
                                            known: StructType -> bool, eq: (Py, Py) -> bool)
    requires RegistryOk(reg) && ValueOk(v) && Nests(reg, v, d) && FreezeValue(reg, v, d).Some?
    requires ObjectsOk(reg, eq) && (v.PyObj? ==> WellFormed(v.p, eq))
    requires forall t :: known(t) <==> Knows(types, t)
    ensures Thawable(types, FreezeValue(reg, v, d).value, eq) <==> Arrives(reg, v, d, known)
    decreases d
  {
    if v.PyObj? {
      PyRoundTrip(v.p, eq);
      MeltedFreezesAlike(v.p);
    } else if v.Struct? {
      FrozenStruct(reg, v, d);
      var inst := FindInstance(reg, v.idx).value;
      assert Some(inst) in reg.instances;
      var fs := FreezeFields(reg, inst.fields, d - 1).value;
      forall j | 0 <= j < |fs|
        ensures Thawable(types, fs[j], eq) <==> Arrives(reg, inst.fields[j], d - 1, known)
      {
        FrozenFieldAt(reg, inst.fields, d - 1, j);
        FrozenIsThawable(reg, inst.fields[j], d - 1, types, known, eq);
      }
      FieldsArrive(reg, inst.fields, d - 1, types, known, fs, eq);
    }
  }

  lemma FieldsArrive(reg: Registry, vs: seq<Value>, d: nat, types: seq<StructType>, known: StructType -> bool,
                     fs: seq<Frozen>, eq: (Py, Py) -> bool)
    requires |fs| == |vs| && forall w <- vs :: Nests(reg, w, d)
    requires forall j | 0 <= j < |fs| :: Thawable(types, fs[j], eq) <==> Arrives(reg, vs[j], d, known)
    ensures (forall j | 0 <= j < |fs| :: Thawable(types, fs[j], eq)) <==> (forall w <- vs :: Arrives(reg, w, d, known))
  {
    if forall w <- vs :: Arrives(reg, w, d, known) {
      forall j | 0 <= j < |fs| ensures Thawable(types, fs[j], eq) {
        assert vs[j] in vs;
      }
    }
  }

  // A registry that knows all types can take every value whose parts can come
  // back.
  lemma {:induction false} KnownTypesSuffice(reg: Registry, v: Value, d: nat, known: StructType -> bool,
                                             eq: (Py, Py) -> bool)
    requires RegistryOk(reg) && ValueOk(v) && Nests(reg, v, d) && FreezeValue(reg, v, d).Some?
    requires CanComeBack(v, eq)
    requires forall slot <- reg.instances | slot.Some? :: forall w <- slot.value.fields :: CanComeBack(w, eq)
    requires forall t <- reg.types :: known(t)
    ensures Arrives(reg, v, d, known)
    decreases d
  {
    if v.Struct? {
      FrozenStruct(reg, v, d);
      var inst := FindInstance(reg, v.idx).value;
      assert Some(inst) in reg.instances;
      assert reg.types[inst.typeId] in reg.types;
      forall w | w in inst.fields
        ensures Arrives(reg, w, d - 1, known)
      {
        var j :| 0 <= j < |inst.fields| && inst.fields[j] == w;
        FrozenFieldAt(reg, inst.fields, d - 1, j);
        KnownTypesSuffice(reg, w, d - 1, known, eq);
      }
    }
  }

  // ---- Shipping the types ----

  // Registers the definitions whose name is not there yet.
  function Registered(types: seq<StructType>, defs: seq<StructType>): seq<StructType> {
    if defs == [] then types
    else
      var before, td := Registered(types, defs[..|defs| - 1]), defs[|defs| - 1];
      if FindType(before, td.name).Some? then before else before + [td]
  }

  lemma {:induction false} RegisteredKeeps(types: seq<StructType>, defs: seq<StructType>)
    ensures types <= Registered(types, defs)
    ensures forall name :: FindType(types, name).Some? ==>
              FindType(Registered(types, defs), name) == FindType(types, name)
    ensures forall td <- defs :: FindType(Registered(types, defs), td.name).Some?
  {
    if defs != [] {
      var before, td := Registered(types, defs[..|defs| - 1]), defs[|defs| - 1];
      RegisteredKeeps(types, defs[..|defs| - 1]);
      var now := before + [td];
      assert now[..|now| - 1] == before;
      assert defs == defs[..|defs| - 1] + [td];
    }
  }

  // Registering again changes nothing.
  lemma RegisterIsIdempotent(types: seq<StructType>, defs: seq<StructType>)
    ensures Registered(Registered(types, defs), defs) == Registered(types, defs)
  {
    RegisteredKeeps(types, defs);
    AllThere(Registered(types, defs), defs);
  }

  lemma {:induction false} AllThere(types: seq<StructType>, defs: seq<StructType>)
    requires forall td <- defs :: FindType(types, td.name).Some?
    ensures Registered(types, defs) == types
  {
    if defs != [] {
      assert defs == defs[..|defs| - 1] + [defs[|defs| - 1]];
      AllThere(types, defs[..|defs| - 1]);
    }
  }

  // The earliest definition of a name.
  function FirstDefinition(defs: seq<StructType>, name: string): (t: Option<StructType>)
    ensures t.None? <==> forall td <- defs :: td.name != name
    ensures t.Some? ==> t.value.name == name && t.value in defs
  {
    if defs == [] then None
    else
      var before, td := FirstDefinition(defs[..|defs| - 1], name), defs[|defs| - 1];
      assert defs == defs[..|defs| - 1] + [td];
      if before.Some? then before else if td.name == name then Some(td) else None
  }

  // Registration keeps the first of several definitions of a name, where the
  // registry they come from would find the latest.
  lemma {:induction false} FirstDefinitionWins(defs: seq<StructType>, name: string)
    ensures var now := Registered([], defs);
            var id := FindType(now, name);
            if id.Some? then FirstDefinition(defs, name) == Some(now[id.value]) else FirstDefinition(defs, name) == None
  {
    if defs != [] {
      var before, td := Registered([], defs[..|defs| - 1]), defs[|defs| - 1];
      FirstDefinitionWins(defs[..|defs| - 1], name);
      FirstDefinitionWins(defs[..|defs| - 1], td.name);
      var now := before + [td];
      assert now[..|now| - 1] == before;
    }
  }

  // The fields of `t` are those of the first definition of its name.
  predicate KeptItsFields(defs: seq<StructType>, t: StructType) {
    var first := FirstDefinition(defs, t.name);
    first.Some? && Permuted(first.value.fields, t.fields)
  }

  // A worker that got all types of a registry.
  function Worker(types: seq<StructType>): Registry {
    Registry(Registered([], types), [], [])
  }

  lemma WorkerKnows(types: seq<StructType>, t: StructType)
    ensures Knows(Worker(types).types, t) <==> KeptItsFields(types, t)
  {
    FirstDefinitionWins(types, t.name);
  }

  // A value shipped together with all types of its registry arrives as it was if
  // and only if, at every depth, each struct is of a type with the fields of the
  // first definition of its name, and no frozen set is used as a key or an
  // element.
  lemma ShippedValueArrives(reg: Registry, v: Value, d: nat, eq: (Py, Py) -> bool)
    requires RegistryOk(reg) && ValueOk(v) && Nests(reg, v, d) && FreezeValue(reg, v, d).Some?
    requires ObjectsOk(reg, eq) && (v.PyObj? ==> WellFormed(v.p, eq))
    ensures var f := FreezeValue(reg, v, d).value;
            var (now, w) := ThawValue(Worker(reg.types), f, eq);
            Represents(now, w, f) <==> Arrives(reg, v, d, t => KeptItsFields(reg.types, t))
  {
    var worker := Worker(reg.types);
    FreezeThenThaw(reg, v, d, worker, eq);
    forall t ensures KeptItsFields(reg.types, t) <==> Knows(worker.types, t) {
      WorkerKnows(reg.types, t);
    }
    FrozenIsThawable(reg, v, d, worker.types, t => KeptItsFields(reg.types, t), eq);
  }

  // A type that got one more field later, and an instance of the later one.
  const OLD_POINT := StructType("Point", ["x"])
  const NEW_POINT := StructType("Point", ["x", "y"])
  const POINTS := Registry([OLD_POINT, NEW_POINT], [Some(Instance(1, [SmallInt(1), SmallInt(2)]))], [])
  const FROZEN_POINT := FStruct("Point", ["x", "y"], [FInt(1), FInt(2)])

  lemma FrozenPoint()
    ensures Nests(POINTS, Struct(0), 1) && FreezeValue(POINTS, Struct(0), 1) == Some(FROZEN_POINT)
  {
    var vs := [SmallInt(1), SmallInt(2)];
    var rest := [SmallInt(2)];
    assert vs[..2] == vs && vs[1..] == rest && rest[1..] == [];
    assert NEW_POINT.fields[..2] == NEW_POINT.fields;
    assert FindInstance(POINTS, 0) == Some(Instance(1, vs));
    assert FreezeFields(POINTS, rest[1..], 0) == Some([]);
    assert FreezeFields(POINTS, rest, 0) == Some([FInt(2)]) by {
      assert [FInt(2)] + [] == [FInt(2)];
    }
    assert [FInt(1)] + [FInt(2)] == [FInt(1), FInt(2)];
    assert FreezeFields(POINTS, vs, 0) == Some([FInt(1), FInt(2)]);
  }

  lemma WorkerHasOldPoint()
    ensures Worker(POINTS.types) == Registry([OLD_POINT], [], [])
    ensures FindType([OLD_POINT], "Point") == Some(0)
  {
    var defs := POINTS.types;
    assert defs[..1] == [OLD_POINT] && [OLD_POINT][..0] == [];
    assert Registered([], [OLD_POINT]) == [OLD_POINT];
  }

  lemma ThawedPointFields(eq: (Py, Py) -> bool)
    ensures ThawFields(Worker(POINTS.types), ["x"], ["x", "y"], [FInt(1), FInt(2)], eq) ==
            (Worker(POINTS.types), [SmallInt(1)])
  {
    var names, fields := ["x", "y"], [FInt(1), FInt(2)];
    assert names[..1] == ["x"] && fields[..1] == [FInt(1)];
    assert ["x"][..0] == [] && [FInt(1)][..0] == [];
    assert "y" !in ["x"] by {
      assert "x"[0] != "y"[0];
    }
    var w := Worker(POINTS.types);
    assert seq(1, _ => Nil) == [Nil];
    assert ThawFields(w, ["x"], [], [], eq) == (w, [Nil]);
    assert FieldIndex(["x"], "x") == Some(0) && NanBox.Wrap47(1) == 1;
    assert [Nil][0 := SmallInt(1)] == [SmallInt(1)];
    assert ThawFields(w, ["x"], ["x"], [FInt(1)], eq) == PutField(w, [Nil], Some(0), FInt(1), eq);
  }

  // The instance of the later type arrives as one of the earlier, and loses a field.
  lemma RedefinedPointLosesField(eq: (Py, Py) -> bool)
    ensures RegistryOk(POINTS) && Nests(POINTS, Struct(0), 1)
    ensures FreezeValue(POINTS, Struct(0), 1) == Some(FROZEN_POINT)
    ensures var (now, w) := ThawValue(Worker(POINTS.types), FROZEN_POINT, eq);
            now == Registry([OLD_POINT], [Some(Instance(0, [SmallInt(1)]))], []) && w == Struct(0) &&
            !Represents(now, w, FROZEN_POINT)
  {
    FrozenPoint();
    WorkerHasOldPoint();
    ThawedPointFields(eq);
  }

  // ---- The registry object ----

  // Pushes the frozen fields one by one; one that cannot be frozen ends it all.
  method FreezeEach(reg: Registry, vs: seq<Value>, d: nat) returns (r: Option<seq<Frozen>>)
    requires forall w <- vs :: Nests(reg, w, d)
    ensures r == FreezeFields(reg, vs, d)
  {
    var fields: seq<Frozen> := [];
    var rest := vs;
    while rest != []
      invariant forall w <- rest :: Nests(reg, w, d)
      invariant FreezeFields(reg, vs, d) == Prepended(fields, FreezeFields(reg, rest, d))
      decreases |rest|
    {
      assert rest[0] in rest && forall w <- rest[1..] :: w in rest;
      var f := FreezeValue(reg, rest[0], d);
      if f.None? {
        return None;
      }
      PrependedOnce(fields, f.value, FreezeFields(reg, rest[1..], d));
      fields := fields + [f.value];
      rest := rest[1..];
    }
    return Some(fields);
  }

  lemma PrependedOnce(fields: seq<Frozen>, f: Frozen, rest: Option<seq<Frozen>>)
    ensures Prepended(fields, Prepended([f], rest)) == Prepended(fields + [f], rest)
  {
    if rest.Some? {
      assert fields + ([f] + rest.value) == (fields + [f]) + rest.value;
    }
  }

  class StructRegistry {
    var types: seq<StructType>
    var instances: seq<Option<Instance>>
    var free: seq<nat>

    function AsRegistry(): Registry
      reads this
    {
      Registry(types, instances, free)
    }

    method Create(inst: Instance) returns (idx: nat)
      modifies `instances, `free
      ensures (AsRegistry(), idx) == CreateInstance(old(AsRegistry()), inst)
    {
      if free != [] && free[|free| - 1] < |instances| {
        idx := free[|free| - 1];
        free := free[..|free| - 1];
        instances := instances[idx := Some(inst)];
      } else {
        idx := |instances|;
        instances := instances + [Some(inst)];
      }
    }

    method StructToFrozen(idx: nat, d: nat) returns (f: Option<Frozen>)
      requires Nests(AsRegistry(), Struct(idx), d)
      ensures f == FreezeValue(AsRegistry(), Struct(idx), d)
    {
      var reg := AsRegistry();
      var inst := FindInstance(reg, idx);
      if inst.None? || inst.value.typeId >= |types| {
        return None;
      }
      var t, vs := types[inst.value.typeId], inst.value.fields;
      var n := if |t.fields| <= |vs| then |t.fields| else |vs|;
      assert forall w <- vs[..n] :: w in vs;
      var fields := FreezeEach(reg, vs[..n], d - 1);
      return if fields.Some? then Some(FStruct(t.name, t.fields[..n], fields.value)) else None;
    }

    // Fills the positional vector slot by slot.
    method StructFromFrozen(name: string, names: seq<string>, fields: seq<Frozen>, eq: (Py, Py) -> bool)
      returns (v: Value)
      requires |names| == |fields|
      modifies `instances, `free
      ensures (AsRegistry(), v) == ThawValue(old(AsRegistry()), FStruct(name, names, fields), eq)
      decreases fields, 1
    {
      var id := FindType(types, name);
      if id.None? {
        return Nil;
      }
      var slots := types[id.value].fields;
      var positional: seq<Value> := seq(|slots|, _ => Nil);
      for i := 0 to |fields|
        invariant types == old(types) && |positional| == |slots|
        invariant (AsRegistry(), positional) == ThawFields(old(AsRegistry()), slots, names[..i], fields[..i], eq)
      {
        assert names[..i + 1][..i] == names[..i] && fields[..i + 1][..i] == fields[..i];
        var at := FieldIndex(slots, names[i]);
        if at.Some? {
          var w := FrozenToValue(fields[i], eq);
          positional := positional[at.value := w];
        }
      }
      assert names[..|fields|] == names && fields[..|fields|] == fields;
      var idx := Create(Instance(id.value, positional));
      return Struct(idx);
    }

    method FrozenToValue(f: Frozen, eq: (Py, Py) -> bool) returns (v: Value)
      modifies `instances, `free
      ensures (AsRegistry(), v) == ThawValue(old(AsRegistry()), f, eq)
      decreases f
    {
      match f
      case FNone => v := Nil;
      case FBool(b) => v := Bool(b);
      case FInt(i) => v := SmallInt(NanBox.Wrap47(i));
      case FFloat(bits) => v := Float(bits);
      case FStruct(name, names, fields) =>
        if |names| == |fields| {
          v := StructFromFrozen(name, names, fields, eq);
        } else {
          v := Nil;
        }
      case _ =>
        var p := ThawPy(f, eq);
        v := if p.Some? then FromPy(p.value) else Nil;
    }

    method RegisterTypes(defs: seq<StructType>)
      modifies `types
      ensures types == Registered(old(types), defs)
    {
      for i := 0 to |defs|
        invariant types == Registered(old(types), defs[..i])
      {
        assert defs[..i + 1][..i] == defs[..i];
        if FindType(types, defs[i].name).None? {
          types := types + [defs[i]];
        }
      }
      assert defs[..|defs|] == defs;
    }
  }

  function Prepended(fields: seq<Frozen>, rest: Option<seq<Frozen>>): (r: Option<seq<Frozen>>)
    ensures fields == [] ==> r == rest
    ensures rest == Some([]) ==> r == Some(fields)
  {
    if rest.None? then None
    else
      assert [] + rest.value == rest.value && fields + [] == fields;
      Some(fields + rest.value)
  }
}
