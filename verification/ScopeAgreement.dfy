// The upward and the downward walk agree: the references collected from a scope
// are exactly the occurrences that resolve to it.
module ScopeAgreement {
  import opened Wrappers
  import opened Syntax
  import opened LexicalScopes

  // No scope lies strictly between `s` and `q`.
  predicate NoScopeBetween(root: Node, s: Path, q: Path)
    requires Valid(root, q)
    decreases |q|
  {
    |q| <= |s| + 1 || (!IsScope(At(root, Parent(q)).kind) && NoScopeBetween(root, s, Parent(q)))
  }

  // No scope strictly between `s` and `q` rebinds `name`.
  predicate NoShadowBetween(root: Node, s: Path, q: Path, name: string)
    requires Valid(root, q)
    decreases |q|
  {
    |q| <= |s| + 1 || (!Shadows(root, Parent(q), name) && NoShadowBetween(root, s, Parent(q), name))
  }

  lemma AboveParent(s: Path, q: Path)
    requires q != []
    ensures Above(s, q) <==> Within(s, Parent(q))
    ensures Within(s, Parent(q)) ==> (|q| <= |s| + 1 <==> s == Parent(q))
  {
  }

  lemma {:induction false} NoScopeNoShadow(root: Node, s: Path, q: Path, name: string)
    requires Valid(root, q) && NoScopeBetween(root, s, q)
    ensures NoShadowBetween(root, s, q, name)
    decreases |q|
  {
    if |q| > |s| + 1 {
      NoScopeNoShadow(root, s, Parent(q), name);
    }
  }

  // ---- Which binders a scope sees ----

  lemma {:induction false} EnclosingScopeIsNearest(root: Node, q: Path, s: Path)
    requires Valid(root, q) && Valid(root, s)
    ensures EnclosingScope(root, q) == Some(s) <==>
            Above(s, q) && IsScope(At(root, s).kind) && NoScopeBetween(root, s, q)
    decreases |q|
  {
    if q != [] {
      EnclosingScopeIsNearest(root, Parent(q), s);
      AboveParent(s, q);
    }
  }

  lemma {:induction false} NoScopeBelowChild(root: Node, s: Path, c: Path, q: Path)
    requires Valid(root, q) && Valid(root, c) && |c| == |s| + 1 && Above(c, q)
    ensures NoScopeBetween(root, s, q) <==> !IsScope(At(root, c).kind) && NoScopeBetween(root, c, q)
    decreases |q|
  {
    AboveParent(c, q);
    if Parent(q) != c {
      NoScopeBelowChild(root, s, c, Parent(q));
    }
  }

  lemma {:induction false} BinderBelow(root: Node, s: Path, name: string, i: nat) returns (q: Path)
    requires Valid(root, s) && i <= |At(root, s).children| && BindsBelow(root, s, name, i)
    ensures Valid(root, q) && Binder(root, q, name) && Above(s, q) && NoScopeBetween(root, s, q)
    decreases At(root, s), |At(root, s).children| - i
  {
    ChildStep(root, s, i);
    var c := s + [i];
    if Binder(root, c, name) {
      q := c;
    } else if !IsScope(At(root, c).kind) && BindsBelow(root, c, name, 0) {
      q := BinderBelow(root, c, name, 0);
      NoScopeBelowChild(root, s, c, q);
    } else {
      q := BinderBelow(root, s, name, i + 1);
    }
  }

  lemma {:induction false} BinderIsFound(root: Node, s: Path, name: string, i: nat, q: Path)
    requires Valid(root, s) && i <= |At(root, s).children|
    requires Valid(root, q) && Binder(root, q, name) && Above(s, q) && i <= q[|s|] && NoScopeBetween(root, s, q)
    ensures BindsBelow(root, s, name, i)
    decreases At(root, s), |At(root, s).children| - i
  {
    ChildTowards(root, s, q);
    ChildStep(root, s, i);
    var c := s + [i];
    if i < q[|s|] {
      BinderIsFound(root, s, name, i + 1, q);
    } else if c != q {
      NoScopeBelowChild(root, s, c, q);
      BinderIsFound(root, c, name, 0, q);
    }
  }

  // A scope binds a name exactly when some binding occurrence of the name has
  // that scope as its nearest enclosing one.
  lemma ScopeBindsExactly(root: Node, s: Path, name: string)
    requires Valid(root, s) && IsScope(At(root, s).kind)
    ensures ScopeBinds(root, s, name) <==>
            exists q :: Valid(root, q) && Binder(root, q, name) && EnclosingScope(root, q) == Some(s)
  {
    if ScopeBinds(root, s, name) {
      var q := BinderBelow(root, s, name, 0);
      EnclosingScopeIsNearest(root, q, s);
    }
    forall q | Valid(root, q) && Binder(root, q, name) && EnclosingScope(root, q) == Some(s)
      ensures ScopeBinds(root, s, name)
    {
      EnclosingScopeIsNearest(root, q, s);
      BinderIsFound(root, s, name, 0, q);
    }
  }

  // ---- Where an occurrence resolves ----

  lemma {:induction false} BindingScopeStep(root: Node, p: Path, name: string)
    requires Valid(root, p) && p != []
    ensures BindingScope(root, p, name) ==
            if Shadows(root, Parent(p), name) then Parent(p) else BindingScope(root, Parent(p), name)
  {
  }

  // A possible owner of `name`: a scope that binds it, or the root.
  predicate CanOwn(root: Node, s: Path, name: string)
    requires Valid(root, s)
  {
    s == [] || Shadows(root, s, name)
  }

  lemma {:induction false} BindingScopeIsNearest(root: Node, q: Path, s: Path, name: string)
    requires Valid(root, q) && Valid(root, s) && CanOwn(root, s, name)
    ensures BindingScope(root, q, name) == s <==>
            (s == q == [] || (Above(s, q) && NoShadowBetween(root, s, q, name)))
    decreases |q|
  {
    if q != [] {
      BindingScopeStep(root, q, name);
      BindingScopeIsNearest(root, Parent(q), s, name);
      AboveParent(s, q);
    }
  }

  lemma {:induction false} BindingScopeCanOwn(root: Node, p: Path, name: string)
    requires Valid(root, p)
    ensures CanOwn(root, BindingScope(root, p, name), name)
    ensures Within(BindingScope(root, p, name), p)
    decreases |p|
  {
    if p != [] {
      BindingScopeStep(root, p, name);
      BindingScopeCanOwn(root, Parent(p), name);
    }
  }

  // ---- What is collected ----

  // What the walk should collect from the i-th child of `s` on, and from one
  // child `c`: the occurrences below that nothing on the way rebinds.
  predicate BelongsFrom(root: Node, s: Path, name: string, i: nat, q: Path) {
    Valid(root, q) && Occurrence(root, q, name) && Above(s, q) && i <= q[|s|] && NoShadowBetween(root, s, q, name)
  }

  predicate BelongsUnder(root: Node, c: Path, name: string, q: Path)
    requires Valid(root, c)
  {
    Valid(root, q) && Occurrence(root, q, name) && Within(c, q) &&
    (q == c || (!Shadows(root, c, name) && NoShadowBetween(root, c, q, name)))
  }

  lemma {:induction false} NoShadowBelowChild(root: Node, s: Path, c: Path, q: Path, name: string)
    requires Valid(root, q) && Valid(root, c) && |c| == |s| + 1 && Within(c, q)
    ensures NoShadowBetween(root, s, q, name) <==>
            q == c || (!Shadows(root, c, name) && NoShadowBetween(root, c, q, name))
    decreases |q|
  {
    if q != c {
      AboveParent(c, q);
      NoShadowBelowChild(root, s, c, Parent(q), name);
    }
  }

  lemma ChildWithin(s: Path, i: nat, q: Path)
    ensures Within(s + [i], q) <==> Above(s, q) && q[|s|] == i
  {
    if Within(s + [i], q) {
      assert s == (s + [i])[..|s|] <= q && q[|s|] == (s + [i])[|s|];
    }
  }

  lemma BelongsSplit(root: Node, s: Path, name: string, i: nat, q: Path)
    requires Valid(root, s) && Valid(root, s + [i])
    ensures BelongsFrom(root, s, name, i, q) <==>
            BelongsUnder(root, s + [i], name, q) || BelongsFrom(root, s, name, i + 1, q)
  {
    ChildWithin(s, i, q);
    if Valid(root, q) && Within(s + [i], q) {
      NoShadowBelowChild(root, s, s + [i], q, name);
    }
  }

  lemma CollectedStep(root: Node, s: Path, name: string, i: nat, c: Path, q: Path)
    requires Valid(root, s) && i < |At(root, s).children| && c == s + [i] && Valid(root, c)
    requires q in RefsFrom(root, c, name) <==> BelongsUnder(root, c, name, q)
    requires q in Refs(root, s, name, i + 1) <==> BelongsFrom(root, s, name, i + 1, q)
    ensures q in Refs(root, s, name, i) <==> BelongsFrom(root, s, name, i, q)
  {
    RefsStep(root, s, name, i, c);
    BelongsSplit(root, s, name, i, q);
  }

  lemma {:induction false} CollectedExactly(root: Node, s: Path, name: string, i: nat, q: Path)
    requires Valid(root, s) && i <= |At(root, s).children|
    ensures q in Refs(root, s, name, i) <==> BelongsFrom(root, s, name, i, q)
    decreases At(root, s), |At(root, s).children| - i, 0
  {
    if i < |At(root, s).children| {
      var c := s + [i];
      ChildStep(root, s, i);
      CollectedUnder(root, c, name, q);
      CollectedExactly(root, s, name, i + 1, q);
      CollectedStep(root, s, name, i, c, q);
    } else if Valid(root, q) && Above(s, q) {
      ChildTowards(root, s, q);
    }
  }

  lemma {:induction false} CollectedUnder(root: Node, c: Path, name: string, q: Path)
    requires Valid(root, c)
    ensures q in RefsFrom(root, c, name) <==> BelongsUnder(root, c, name, q)
    decreases At(root, c), |At(root, c).children| + 1
  {
    CollectedExactly(root, c, name, 0, q);
    assert Within(c, q) <==> q == c || Above(c, q);
    assert q in RefsFrom(root, c, name) <==>
           (q == c && Occurrence(root, c, name)) || (!Shadows(root, c, name) && q in Refs(root, c, name, 0));
  }

  // Strictly increasing in document order, so without repetition.
  predicate InOrder(refs: seq<Path>) {
    forall i, j | 0 <= i < j < |refs| :: Precedes(refs[i], refs[j])
  }

  lemma InOrderConcat(a: seq<Path>, b: seq<Path>)
    requires InOrder(a) && InOrder(b)
    requires forall q, r | q in a && r in b :: Precedes(q, r)
    ensures InOrder(a + b)
  {
  }

  lemma ChildBeforeRest(root: Node, s: Path, name: string, i: nat, c: Path, q: Path, r: Path)
    requires Valid(root, s) && i < |At(root, s).children| && c == s + [i] && Valid(root, c)
    requires q in RefsFrom(root, c, name) && r in Refs(root, s, name, i + 1)
    ensures Precedes(q, r)
  {
    CollectedUnder(root, c, name, q);
    CollectedExactly(root, s, name, i + 1, r);
    ChildWithin(s, r[|s|], r);
    SiblingsPrecede(s, i, r[|s|], q, r);
  }

  lemma {:induction false} CollectedInOrder(root: Node, s: Path, name: string, i: nat)
    requires Valid(root, s) && i <= |At(root, s).children|
    ensures InOrder(Refs(root, s, name, i))
    decreases At(root, s), |At(root, s).children| - i, 0
  {
    if i < |At(root, s).children| {
      var c := s + [i];
      RefsStep(root, s, name, i, c);
      CollectedInOrder(root, s, name, i + 1);
      UnderInOrder(root, c, name);
      forall q, r | q in RefsFrom(root, c, name) && r in Refs(root, s, name, i + 1)
        ensures Precedes(q, r)
      {
        ChildBeforeRest(root, s, name, i, c, q, r);
      }
      InOrderConcat(RefsFrom(root, c, name), Refs(root, s, name, i + 1));
    }
  }

  lemma {:induction false} UnderInOrder(root: Node, c: Path, name: string)
    requires Valid(root, c)
    ensures InOrder(RefsFrom(root, c, name))
    decreases At(root, c), |At(root, c).children| + 1
  {
    CollectedInOrder(root, c, name, 0);
    forall q | q in Refs(root, c, name, 0)
      ensures Precedes(c, q)
    {
      CollectedExactly(root, c, name, 0, q);
      AncestorPrecedes(c, q);
    }
  }

  // ---- The walks agree ----

  lemma OwnedExactly(root: Node, s: Path, name: string, q: Path)
    requires Valid(root, s) && CanOwn(root, s, name)
    ensures q in OwnedBy(root, s, name) <==>
            Valid(root, q) && Occurrence(root, q, name) && BindingScope(root, q, name) == s
  {
    CollectedExactly(root, s, name, 0, q);
    if Valid(root, q) {
      BindingScopeIsNearest(root, q, s, name);
    }
  }

  // From any variable occurrence, `find_references` succeeds and lists, in
  // document order and once each, the variable occurrences of that name which
  // resolve to the same scope, itself included.
  lemma ReferencesAreTheVariable(root: Node, o: Path)
    requires Valid(root, o) && Occurrence(root, o, At(root, o).text)
    ensures var name := At(root, o).text;
            FindReferences(root, o).Some? &&
            var refs := FindReferences(root, o).value;
            o in refs && InOrder(refs) &&
            forall q :: q in refs <==>
              Valid(root, q) && Occurrence(root, q, name) &&
              BindingScope(root, q, name) == BindingScope(root, o, name)
  {
    var name := At(root, o).text;
    var s := BindingScope(root, o, name);
    BindingScopeCanOwn(root, o, name);
    forall q {
      OwnedExactly(root, s, name, q);
    }
    CollectedInOrder(root, s, name, 0);
    forall q | q in Refs(root, s, name, 0)
      ensures Precedes(s, q)
    {
      CollectedExactly(root, s, name, 0, q);
      AncestorPrecedes(s, q);
    }
  }

  // `find_references` splits the occurrences of a name into variables: two
  // starting points give the same list or lists with no common element.
  lemma ReferencesPartition(root: Node, o: Path, p: Path)
    requires Valid(root, o) && Occurrence(root, o, At(root, o).text)
    requires Valid(root, p) && Occurrence(root, p, At(root, p).text)
    requires At(root, o).text == At(root, p).text
    ensures FindReferences(root, o).Some? && FindReferences(root, p).Some?
    ensures p in FindReferences(root, o).value <==> FindReferences(root, p) == FindReferences(root, o)
    ensures p !in FindReferences(root, o).value ==>
              forall q :: !(q in FindReferences(root, o).value && q in FindReferences(root, p).value)
  {
    ReferencesAreTheVariable(root, o);
    ReferencesAreTheVariable(root, p);
  }
}
