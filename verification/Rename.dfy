// Rename: every reference found from an occurrence gets the new text. The main
// theorem says exactly when this keeps the meaning of the program.
module Rename {
  import opened Wrappers
  import opened Syntax
  import opened LexicalScopes
  import opened ScopeAgreement

  // The tree with the text of the nodes in `targets` replaced.
  function WithText(n: Node, here: Path, targets: set<Path>, text: string): Node
    decreases n
  {
    Node(n.kind, n.field, if here in targets then text else n.text,
         seq(|n.children|, i requires 0 <= i < |n.children| => WithText(n.children[i], here + [i], targets, text)))
  }

  function Targets(root: Node, o: Path): set<Path>
    requires Valid(root, o)
  {
    match FindReferences(root, o)
    case None => {}
    case Some(refs) => set q | q in refs
  }

  function Renamed(root: Node, o: Path, newName: string): Node
    requires Valid(root, o)
  {
    WithText(root, [], Targets(root, o), newName)
  }

  predicate IsVariable(root: Node, p: Path) {
    Valid(root, p) && Occurrence(root, p, At(root, p).text)
  }

  // The scope that owns the variable at `p`.
  function Owner(root: Node, p: Path): Path
    requires Valid(root, p)
  {
    BindingScope(root, p, At(root, p).text)
  }

  ghost predicate SameVariable(root: Node, p: Path, q: Path)
    requires Valid(root, p) && Valid(root, q)
  {
    At(root, p).text == At(root, q).text && Owner(root, p) == Owner(root, q)
  }

  // Both trees have their variables at the same places, each variable keeps its
  // owner, and no two variables are merged or split.
  ghost predicate SameMeaning(before: Node, after: Node) {
    && (forall p :: IsVariable(before, p) <==> IsVariable(after, p))
    && (forall p | IsVariable(before, p) :: Valid(after, p) && Owner(after, p) == Owner(before, p))
    && (forall p, q | IsVariable(before, p) && IsVariable(before, q) ::
          Valid(after, p) && Valid(after, q) && (SameVariable(after, p, q) <==> SameVariable(before, p, q)))
  }

  // What a caller has to check before renaming the variable at `o`: at none of
  // its occurrences does the new name already resolve inside its scope, and no
  // occurrence of the new name in its scope resolves to that scope or beyond.
  ghost predicate NoCapture(root: Node, o: Path, newName: string)
    requires Valid(root, o)
  {
    var s := Owner(root, o);
    && (forall p | p in Targets(root, o) && Valid(root, p) :: !Above(s, BindingScope(root, p, newName)))
    && (forall p | Valid(root, p) && Occurrence(root, p, newName) && Within(s, p) ::
          !Within(BindingScope(root, p, newName), s))
  }

  // ---- The shape of the tree is untouched ----

  lemma {:induction false} WithTextAt(root: Node, targets: set<Path>, text: string, p: Path)
    ensures var after := WithText(root, [], targets, text);
            Valid(after, p) <==> Valid(root, p)
    ensures var after := WithText(root, [], targets, text);
            Valid(root, p) ==> At(after, p) == WithText(At(root, p), p, targets, text)
    decreases |p|
  {
    if p != [] {
      WithTextAt(root, targets, text, Parent(p));
      assert Parent(p) + [p[|p| - 1]] == p;
    }
  }

  // What stays the same at a node: everything but the text of a target.
  lemma SameShape(root: Node, targets: set<Path>, text: string, p: Path)
    ensures var after := WithText(root, [], targets, text);
            Valid(after, p) <==> Valid(root, p)
    ensures var after := WithText(root, [], targets, text);
            Valid(root, p) ==>
              && At(after, p).kind == At(root, p).kind
              && FieldInParent(after, p) == FieldInParent(root, p)
              && At(after, p).text == (if p in targets then text else At(root, p).text)
              && IsNonVariablePosition(after, p) == IsNonVariablePosition(root, p)
  {
    WithTextAt(root, targets, text, p);
    if p != [] {
      WithTextAt(root, targets, text, Parent(p));
    }
  }

  lemma {:induction false} SameBindsFrom(root: Node, targets: set<Path>, text: string, node: Path, current: Path)
    requires Valid(root, node) && Valid(root, current)
    ensures var after := WithText(root, [], targets, text);
            Valid(after, node) && Valid(after, current) &&
            BindsFrom(after, node, current) == BindsFrom(root, node, current)
    decreases |current|
  {
    SameShape(root, targets, text, node);
    SameShape(root, targets, text, current);
    if current != [] {
      SameShape(root, targets, text, Parent(current));
      SameBindsFrom(root, targets, text, node, Parent(current));
    }
  }

  lemma {:induction false} SameEnclosingScope(root: Node, targets: set<Path>, text: string, p: Path)
    requires Valid(root, p)
    ensures var after := WithText(root, [], targets, text);
            Valid(after, p) && EnclosingScope(after, p) == EnclosingScope(root, p)
    decreases |p|
  {
    SameShape(root, targets, text, p);
    if p != [] {
      SameShape(root, targets, text, Parent(p));
      SameEnclosingScope(root, targets, text, Parent(p));
    }
  }

  // ---- Which scopes bind which names afterwards ----

  // No identifier both introduces a binding and sits in a non-variable position.
  lemma BinderIsOccurrence(root: Node, p: Path, name: string)
    requires Valid(root, p) && Binder(root, p, name)
    ensures Occurrence(root, p, name)
  {
  }

  // A binding occurrence belongs to the scope it binds in.
  lemma BinderBelongsToItsScope(root: Node, q: Path, name: string, s: Path)
    requires Valid(root, q) && Binder(root, q, name) && EnclosingScope(root, q) == Some(s)
    ensures Shadows(root, s, name) && BindingScope(root, q, name) == s
  {
    ScopeBindsExactly(root, s, name);
  }

  // Scope `x` binds `name` in the renamed tree: the chosen scope trades the old
  // name for the new one, every other scope keeps what it had.
  predicate BindsAfter(root: Node, s: Path, oldName: string, newName: string, x: Path, name: string)
    requires Valid(root, x) && Valid(root, s)
  {
    if name == newName then Shadows(root, x, name) || (x == s && Shadows(root, s, oldName))
    else if name == oldName then Shadows(root, x, name) && x != s
    else Shadows(root, x, name)
  }

  lemma TargetsAreTheVariable(root: Node, o: Path, q: Path)
    requires IsVariable(root, o)
    ensures q in Targets(root, o) <==>
            Valid(root, q) && Occurrence(root, q, At(root, o).text) &&
            BindingScope(root, q, At(root, o).text) == Owner(root, o)
  {
    ReferencesAreTheVariable(root, o);
  }

  lemma RenamedBinder(root: Node, o: Path, newName: string, q: Path, name: string)
    requires IsVariable(root, o) && Valid(root, q)
    ensures var after := Renamed(root, o, newName);
            Valid(after, q) && EnclosingScope(after, q) == EnclosingScope(root, q) &&
            (Binder(after, q, name) <==>
             if q in Targets(root, o) then name == newName && Binder(root, q, At(root, o).text)
             else Binder(root, q, name))
  {
    var targets := Targets(root, o);
    SameShape(root, targets, newName, q);
    SameBindsFrom(root, targets, newName, q, q);
    SameEnclosingScope(root, targets, newName, q);
    TargetsAreTheVariable(root, o, q);
  }

  lemma OnlyTheChosenScopeChanges(root: Node, o: Path, newName: string, x: Path, name: string)
    requires IsVariable(root, o) && newName != At(root, o).text && Valid(root, x)
    ensures Valid(Renamed(root, o, newName), x)
    ensures Shadows(Renamed(root, o, newName), x, name) <==>
            BindsAfter(root, Owner(root, o), At(root, o).text, newName, x, name)
  {
    var after := Renamed(root, o, newName);
    SameShape(root, Targets(root, o), newName, x);
    if IsScope(At(root, x).kind) {
      if Shadows(after, x, name) {
        ChosenScopeForward(root, o, newName, x, name);
      }
      if BindsAfter(root, Owner(root, o), At(root, o).text, newName, x, name) {
        ChosenScopeBackward(root, o, newName, x, name);
      }
    }
  }

  lemma ChosenScopeForward(root: Node, o: Path, newName: string, x: Path, name: string)
    requires IsVariable(root, o) && newName != At(root, o).text && Valid(root, x)
    requires Valid(Renamed(root, o, newName), x) && Shadows(Renamed(root, o, newName), x, name)
    requires IsScope(At(root, x).kind)
    ensures BindsAfter(root, Owner(root, o), At(root, o).text, newName, x, name)
  {
    var after, oldName := Renamed(root, o, newName), At(root, o).text;
    ScopeBindsExactly(after, x, name);
    var q :| Valid(after, q) && Binder(after, q, name) && EnclosingScope(after, q) == Some(x);
    SameShape(root, Targets(root, o), newName, q);
    RenamedBinder(root, o, newName, q, name);
    TargetsAreTheVariable(root, o, q);
    if q in Targets(root, o) {
      BinderBelongsToItsScope(root, q, oldName, x);
    } else {
      BinderBelongsToItsScope(root, q, name, x);
      BinderIsOccurrence(root, q, name);
    }
  }

  lemma ChosenScopeBackward(root: Node, o: Path, newName: string, x: Path, name: string)
    requires IsVariable(root, o) && newName != At(root, o).text && Valid(root, x)
    requires BindsAfter(root, Owner(root, o), At(root, o).text, newName, x, name)
    requires Valid(Renamed(root, o, newName), x) && IsScope(At(Renamed(root, o, newName), x).kind)
    requires IsScope(At(root, x).kind)
    ensures Shadows(Renamed(root, o, newName), x, name)
  {
    var after, oldName := Renamed(root, o, newName), At(root, o).text;
    var was := if Shadows(root, x, name) then name else oldName;
    ScopeBindsExactly(root, x, was);
    var q :| Valid(root, q) && Binder(root, q, was) && EnclosingScope(root, q) == Some(x);
    BinderBelongsToItsScope(root, q, was, x);
    BinderIsOccurrence(root, q, was);
    TargetsAreTheVariable(root, o, q);
    RenamedBinder(root, o, newName, q, name);
    ScopeBindsExactly(after, x, name);
  }

  // ---- Where occurrences resolve afterwards ----

  lemma {:induction false} OtherNamesResolveAsBefore(root: Node, o: Path, newName: string, p: Path, name: string)
    requires IsVariable(root, o) && newName != At(root, o).text && Valid(root, p)
    requires name != newName
    requires name == At(root, o).text ==> BindingScope(root, p, name) != Owner(root, o)
    ensures Valid(Renamed(root, o, newName), p)
    ensures BindingScope(Renamed(root, o, newName), p, name) == BindingScope(root, p, name)
    decreases |p|
  {
    var after := Renamed(root, o, newName);
    SameShape(root, Targets(root, o), newName, p);
    if p != [] {
      BindingScopeStep(root, p, name);
      OnlyTheChosenScopeChanges(root, o, newName, Parent(p), name);
      BindingScopeStep(after, p, name);
      if !Shadows(root, Parent(p), name) {
        OtherNamesResolveAsBefore(root, o, newName, Parent(p), name);
      }
    }
  }

  // Where the new name resolves: the chosen scope catches it if it bound the
  // old name, unless an inner scope already did.
  function NewNameResolvesTo(root: Node, s: Path, oldName: string, newName: string, p: Path): Path
    requires Valid(root, p) && Valid(root, s)
  {
    var before := BindingScope(root, p, newName);
    if Above(s, p) && Shadows(root, s, oldName) && !Above(s, before) then s else before
  }

  lemma {:induction false} NewNameResolves(root: Node, o: Path, newName: string, p: Path)
    requires IsVariable(root, o) && newName != At(root, o).text && Valid(root, p)
    ensures Valid(Renamed(root, o, newName), p)
    ensures BindingScope(Renamed(root, o, newName), p, newName) ==
            NewNameResolvesTo(root, Owner(root, o), At(root, o).text, newName, p)
    decreases |p|
  {
    var after, s := Renamed(root, o, newName), Owner(root, o);
    SameShape(root, Targets(root, o), newName, p);
    if p != [] {
      var q := Parent(p);
      BindingScopeStep(root, p, newName);
      OnlyTheChosenScopeChanges(root, o, newName, q, newName);
      BindingScopeStep(after, p, newName);
      NewNameResolves(root, o, newName, q);
      BindingScopeCanOwn(root, q, newName);
      assert Above(s, p) <==> Within(s, q);
    }
  }

  // ---- The theorem ----

  lemma TextAfter(root: Node, o: Path, newName: string, p: Path)
    requires IsVariable(root, o)
    ensures IsVariable(root, p) <==> IsVariable(Renamed(root, o, newName), p)
    ensures Valid(root, p) ==> Valid(Renamed(root, o, newName), p)
    ensures Valid(root, p) ==>
              At(Renamed(root, o, newName), p).text == if p in Targets(root, o) then newName else At(root, p).text
  {
    SameShape(root, Targets(root, o), newName, p);
  }

  lemma OwnersKept(root: Node, o: Path, newName: string, p: Path)
    requires IsVariable(root, o) && newName != At(root, o).text && IsVariable(root, p)
    requires NoCapture(root, o, newName)
    ensures Valid(Renamed(root, o, newName), p)
    ensures Owner(Renamed(root, o, newName), p) == Owner(root, p)
  {
    var s, oldName := Owner(root, o), At(root, o).text;
    TextAfter(root, o, newName, p);
    TargetsAreTheVariable(root, o, p);
    BindingScopeCanOwn(root, p, At(root, p).text);
    BindingScopeCanOwn(root, o, oldName);
    if p in Targets(root, o) {
      NewNameResolves(root, o, newName, p);
      BindingScopeCanOwn(root, p, newName);
      if p == s {
        assert CanOwn(root, s, oldName) && s == [];
      }
    } else if At(root, p).text == newName {
      NewNameResolves(root, o, newName, p);
      PrefixesCompare(s, Owner(root, p), p);
    } else {
      OtherNamesResolveAsBefore(root, o, newName, p, At(root, p).text);
    }
  }

  // Two ancestors of one node are comparable.
  lemma PrefixesCompare(a: Path, b: Path, p: Path)
    requires Within(b, p)
    ensures Within(a, p) ==> Above(a, b) || Within(b, a)
  {
    if Within(a, p) {
      assert a == p[..|a|] && b == p[..|b|];
    }
  }

  lemma NoCaptureSuffices(root: Node, o: Path, newName: string)
    requires IsVariable(root, o) && newName != At(root, o).text && NoCapture(root, o, newName)
    ensures SameMeaning(root, Renamed(root, o, newName))
  {
    var after := Renamed(root, o, newName);
    forall p
      ensures IsVariable(root, p) <==> IsVariable(after, p)
      ensures IsVariable(root, p) ==> Valid(after, p) && Owner(after, p) == Owner(root, p)
    {
      TextAfter(root, o, newName, p);
      if IsVariable(root, p) {
        OwnersKept(root, o, newName, p);
      }
    }
    forall p, q | IsVariable(root, p) && IsVariable(root, q)
      ensures Valid(after, p) && Valid(after, q)
      ensures SameVariable(after, p, q) <==> SameVariable(root, p, q)
    {
      VariablesStayApart(root, o, newName, p, q);
      VariablesStayApart(root, o, newName, q, p);
    }
  }

  lemma VariablesStayApart(root: Node, o: Path, newName: string, p: Path, q: Path)
    requires IsVariable(root, o) && newName != At(root, o).text && NoCapture(root, o, newName)
    requires IsVariable(root, p) && IsVariable(root, q)
    ensures var after := Renamed(root, o, newName);
            Valid(after, p) && Valid(after, q) && Owner(after, p) == Owner(root, p) && Owner(after, q) == Owner(root, q)
    ensures p in Targets(root, o) ==>
              (SameVariable(Renamed(root, o, newName), p, q) <==> SameVariable(root, p, q))
    ensures p !in Targets(root, o) && q !in Targets(root, o) ==>
              (SameVariable(Renamed(root, o, newName), p, q) <==> SameVariable(root, p, q))
  {
    TextAfter(root, o, newName, p);
    TextAfter(root, o, newName, q);
    OwnersKept(root, o, newName, p);
    OwnersKept(root, o, newName, q);
    TargetsAreTheVariable(root, o, p);
    TargetsAreTheVariable(root, o, q);
    BindingScopeCanOwn(root, q, At(root, q).text);
  }

  lemma NoCaptureIsNeeded(root: Node, o: Path, newName: string)
    requires IsVariable(root, o) && newName != At(root, o).text
    requires SameMeaning(root, Renamed(root, o, newName))
    ensures NoCapture(root, o, newName)
  {
    var after, s := Renamed(root, o, newName), Owner(root, o);
    forall p | p in Targets(root, o) && Valid(root, p)
      ensures !Above(s, BindingScope(root, p, newName))
    {
      TargetsAreTheVariable(root, o, p);
      TextAfter(root, o, newName, p);
      NewNameResolves(root, o, newName, p);
    }
    forall p | Valid(root, p) && Occurrence(root, p, newName) && Within(s, p)
      ensures !Within(BindingScope(root, p, newName), s)
    {
      if Within(BindingScope(root, p, newName), s) {
        CaughtOccurrence(root, o, newName, p);
      }
    }
  }

  // An occurrence of the new name that resolves to the scope or beyond it is
  // caught by the rename: it is merged with the renamed variable, or it moves.
  lemma CaughtOccurrence(root: Node, o: Path, newName: string, p: Path)
    requires IsVariable(root, o) && newName != At(root, o).text
    requires Valid(root, p) && Occurrence(root, p, newName) && Within(Owner(root, o), p)
    requires Within(BindingScope(root, p, newName), Owner(root, o))
    ensures !SameMeaning(root, Renamed(root, o, newName))
  {
    TextAfter(root, o, newName, p);
    TargetsAreTheVariable(root, o, p);
    if Owner(root, p) == Owner(root, o) {
      MergedOccurrence(root, o, newName, p);
    } else {
      MovedOccurrence(root, o, newName, p);
    }
  }

  lemma MergedOccurrence(root: Node, o: Path, newName: string, p: Path)
    requires IsVariable(root, o) && newName != At(root, o).text
    requires Valid(root, p) && Occurrence(root, p, newName) && Owner(root, p) == Owner(root, o)
    ensures !SameMeaning(root, Renamed(root, o, newName))
  {
    var after := Renamed(root, o, newName);
    TextAfter(root, o, newName, p);
    TextAfter(root, o, newName, o);
    TargetsAreTheVariable(root, o, o);
    assert IsVariable(root, p) && !SameVariable(root, p, o);
    if SameMeaning(root, after) {
      assert Owner(after, p) == Owner(after, o);
      assert SameVariable(after, p, o);
    }
  }

  lemma MovedOccurrence(root: Node, o: Path, newName: string, p: Path)
    requires IsVariable(root, o) && newName != At(root, o).text
    requires Valid(root, p) && Occurrence(root, p, newName) && Within(Owner(root, o), p)
    requires Above(Owner(root, p), Owner(root, o))
    ensures !SameMeaning(root, Renamed(root, o, newName))
  {
    var s := Owner(root, o);
    BindingScopeCanOwn(root, o, At(root, o).text);
    assert IsScope(At(root, s).kind);
    assert s != p;
    TextAfter(root, o, newName, p);
    TargetsAreTheVariable(root, o, p);
    NewNameResolves(root, o, newName, p);
    assert Owner(Renamed(root, o, newName), p) == s;
    assert IsVariable(root, p);
  }

  lemma {:induction false} WithSameText(root: Node, n: Node, here: Path, targets: set<Path>, text: string)
    requires Valid(root, here) && n == At(root, here)
    requires forall p | p in targets && Valid(root, p) :: At(root, p).text == text
    ensures WithText(n, here, targets, text) == n
    decreases n
  {
    var children := WithText(n, here, targets, text).children;
    forall i | 0 <= i < |n.children|
      ensures children[i] == n.children[i]
    {
      ChildStep(root, here, i);
      WithSameText(root, n.children[i], here + [i], targets, text);
    }
  }

  // Renaming is alpha-conversion exactly when the new name captures nothing.
  lemma RenameIsAlphaConversion(root: Node, o: Path, newName: string)
    requires IsVariable(root, o)
    ensures SameMeaning(root, Renamed(root, o, newName)) <==>
            (newName == At(root, o).text || NoCapture(root, o, newName))
  {
    if newName == At(root, o).text {
      forall p | p in Targets(root, o)
        ensures Valid(root, p) && At(root, p).text == newName
      {
        TargetsAreTheVariable(root, o, p);
      }
      WithSameText(root, root, [], Targets(root, o), newName);
    } else {
      if NoCapture(root, o, newName) {
        NoCaptureSuffices(root, o, newName);
      }
      if SameMeaning(root, Renamed(root, o, newName)) {
        NoCaptureIsNeeded(root, o, newName);
      }
    }
  }

  // A name that no identifier of the tree carries is always safe.
  lemma FreshNameIsSafe(root: Node, o: Path, newName: string)
    requires IsVariable(root, o)
    requires forall p | Valid(root, p) :: !IsIdentifier(root, p, newName)
    ensures SameMeaning(root, Renamed(root, o, newName))
  {
    forall p | p in Targets(root, o) && Valid(root, p)
      ensures !Above(Owner(root, o), BindingScope(root, p, newName))
    {
      UnboundNameResolvesToRoot(root, p, newName);
    }
    RenameIsAlphaConversion(root, o, newName);
  }

  lemma {:induction false} UnboundNameResolvesToRoot(root: Node, p: Path, name: string)
    requires Valid(root, p)
    requires forall q | Valid(root, q) :: !IsIdentifier(root, q, name)
    ensures BindingScope(root, p, name) == []
    decreases |p|
  {
    if p != [] {
      var q := Parent(p);
      BindingScopeStep(root, p, name);
      if Shadows(root, q, name) {
        ScopeBindsExactly(root, q, name);
      }
      UnboundNameResolvesToRoot(root, q, name);
    }
  }

  lemma {:induction false} WithTextTwice(n: Node, here: Path, targets: set<Path>, a: string, b: string)
    ensures WithText(WithText(n, here, targets, a), here, targets, b) == WithText(n, here, targets, b)
    decreases n
  {
    var once := WithText(n, here, targets, a);
    var l, r := WithText(once, here, targets, b).children, WithText(n, here, targets, b).children;
    forall i | 0 <= i < |n.children|
      ensures l[i] == r[i]
    {
      WithTextTwice(n.children[i], here + [i], targets, a, b);
    }
  }

  // A safe rename is undone by renaming the same occurrence back.
  lemma RenameBack(root: Node, o: Path, newName: string)
    requires IsVariable(root, o) && NoCapture(root, o, newName)
    ensures Valid(Renamed(root, o, newName), o)
    ensures Targets(Renamed(root, o, newName), o) == Targets(root, o)
    ensures Renamed(Renamed(root, o, newName), o, At(root, o).text) == root
  {
    var after, name := Renamed(root, o, newName), At(root, o).text;
    TargetsAreTheVariable(root, o, o);
    BindingScopeCanOwn(root, o, name);
    BindingScopeCanOwn(root, o, newName);
    TextAfter(root, o, newName, o);
    NoCaptureSuffices(root, o, newName);
    forall q
      ensures q in Targets(after, o) <==> q in Targets(root, o)
    {
      TextAfter(root, o, newName, q);
      TargetsAreTheVariable(root, o, q);
      TargetsAreTheVariable(after, o, q);
      if IsVariable(root, q) {
        assert SameVariable(after, o, q) <==> SameVariable(root, o, q);
      }
    }
    WithTextTwice(root, [], Targets(root, o), newName, name);
    forall p | p in Targets(root, o)
      ensures Valid(root, p) && At(root, p).text == name
    {
      TargetsAreTheVariable(root, o, p);
    }
    WithSameText(root, root, [], Targets(root, o), name);
  }

  // ---- Names in a loop ----

  // An occurrence in a `for` statement, in its header as well as in its body, whose
  // name nothing nearer binds: the loop owns it if it binds the name, and only then
  // is it another variable than the name is outside. A rename of that variable
  // reaches the occurrence exactly when the loop does not bind the name.
  lemma LoopTakesItsNames(root: Node, l: Path, p: Path)
    requires Valid(root, l) && At(root, l).kind.ForStmt?
    requires IsVariable(root, p) && Above(l, p) && NoShadowBetween(root, l, p, At(root, p).text)
    ensures var name := At(root, p).text;
            Owner(root, p) == if ScopeBinds(root, l, name) then l else BindingScope(root, l, name)
    ensures var name := At(root, p).text;
            l != [] ==> (Owner(root, p) == BindingScope(root, l, name) <==> !ScopeBinds(root, l, name))
    ensures var name := At(root, p).text;
            l != [] ==>
              forall o | IsVariable(root, o) && IsNameAt(root, o, name, BindingScope(root, l, name)) ::
                p in Targets(root, o) <==> !ScopeBinds(root, l, name)
  {
    var name := At(root, p).text;
    OwnerInLoop(root, l, p, name);
    if l != [] {
      LoopOwnsNoneAbove(root, l, name);
    }
    forall o | l != [] && IsVariable(root, o) && IsNameAt(root, o, name, BindingScope(root, l, name))
      ensures p in Targets(root, o) <==> !ScopeBinds(root, l, name)
    {
      TargetsAreTheVariable(root, o, p);
    }
  }

  // The identifier at `o` is `name`, and the scope `s` owns it.
  predicate IsNameAt(root: Node, o: Path, name: string, s: Path)
    requires Valid(root, o)
  {
    At(root, o).text == name && Owner(root, o) == s
  }

  lemma {:induction false} OwnerInLoop(root: Node, l: Path, p: Path, name: string)
    requires Valid(root, l) && At(root, l).kind.ForStmt?
    requires Valid(root, p) && Above(l, p) && NoShadowBetween(root, l, p, name)
    ensures BindingScope(root, p, name) == if ScopeBinds(root, l, name) then l else BindingScope(root, l, name)
    decreases |p|
  {
    BindingScopeStep(root, p, name);
    AboveParent(l, p);
    if Parent(p) != l {
      OwnerInLoop(root, l, Parent(p), name);
    }
  }

  lemma LoopOwnsNoneAbove(root: Node, l: Path, name: string)
    requires Valid(root, l) && l != []
    ensures BindingScope(root, l, name) != l
  {
    BindingScopeStep(root, l, name);
    BindingScopeCanOwn(root, Parent(l), name);
  }

  // The loop binds every identifier directly under it, its iterable as well as its
  // target. A rename that starts outside the loop therefore leaves a bare iterable
  // alone, whatever the name meant before the loop.
  lemma ForIterableIsLocalToTheLoop(root: Node, p: Path)
    requires IsVariable(root, p) && p != [] && At(root, Parent(p)).kind.ForStmt?
    ensures ScopeBinds(root, Parent(p), At(root, p).text) && Owner(root, p) == Parent(p)
    ensures forall o | IsVariable(root, o) && p in Targets(root, o) :: Within(Parent(p), o)
  {
    var name, loop := At(root, p).text, Parent(p);
    assert Binder(root, p, name);
    assert EnclosingScope(root, p) == Some(loop);
    ScopeBindsExactly(root, loop, name);
    OwnerInLoop(root, loop, p, name);
    forall o | IsVariable(root, o) && p in Targets(root, o)
      ensures Within(loop, o)
    {
      TargetsAreTheVariable(root, o, p);
      BindingScopeCanOwn(root, o, name);
    }
  }

  // ---- Three programs ----

  function Leaf(rule: string): Node {
    Node(OtherKind(rule), NoField, rule, [])
  }

  function Inner(kind: Kind, children: seq<Node>): Node {
    Node(kind, NoField, "", children)
  }

  function Ident(name: string): Node {
    Node(Identifier, NoField, name, [])
  }

  // The statement `name = None`.
  function Assignment(name: string): Node {
    Inner(OtherKind("statement"), [
      Inner(OtherKind("assignment"), [
        Inner(Lvalue, [Inner(UnpackTarget, [Ident(name)])]), Leaf("="), Inner(OtherKind("literal"), [Leaf("None")])])])
  }

  // `a = None; b = None`
  const TWO_NAMES: Node := Inner(SourceFile, [Assignment("a"), Leaf(";"), Assignment("b")])

  // `a = None; for i in a {}`
  const LOOP: Node := Inner(SourceFile, [Assignment("a"), Leaf(";"), Inner(OtherKind("statement"), [
    Inner(ForStmt, [Leaf("for"), Inner(UnpackTarget, [Ident("i")]), Leaf("in"), Ident("a"),
      Inner(Block, [Leaf("{"), Leaf("}")])])])])

  // `x = None; for x in f(x) {}`
  const CALL: Node := Inner(OtherKind("call"), [Ident("f"), Inner(OtherKind("arguments"), [
    Leaf("("), Inner(OtherKind("args"), [Ident("x")]), Leaf(")")])])

  const CALL_LOOP: Node := Inner(SourceFile, [Assignment("x"), Leaf(";"), Inner(OtherKind("statement"), [
    Inner(ForStmt, [Leaf("for"), Inner(UnpackTarget, [Ident("x")]), Leaf("in"), CALL,
      Inner(Block, [Leaf("{"), Leaf("}")])])])])

  // `p` is below no scope but the whole file.
  predicate AtTop(root: Node, p: Path) {
    Valid(root, p) && NoScopeBetween(root, [], p)
  }

  lemma Down(root: Node, p: Path, i: nat, q: Path)
    requires AtTop(root, p) && i < |At(root, p).children| && q == p + [i]
    requires p == [] || !IsScope(At(root, p).kind)
    ensures AtTop(root, q) && At(root, q) == At(root, p).children[i]
  {
    ChildStep(root, p, i);
  }

  // The parts of an assignment at the top.
  lemma TopParts(root: Node, i: nat, name: string)
    requires i < |root.children| && root.children[i] == Assignment(name)
    ensures AtTop(root, [i, 0, 0])
    ensures At(root, [i, 0, 0]) == Inner(Lvalue, [Inner(UnpackTarget, [Ident(name)])])
  {
    var s: Path, a: Path, l: Path := [i], [i, 0], [i, 0, 0];
    assert s == [] + [i] && a == s + [0] && l == a + [0];
    Down(root, [], i, s);
    Down(root, s, 0, a);
    Down(root, a, 0, l);
  }

  lemma TargetParts(root: Node, p: Path, name: string)
    requires AtTop(root, p) && At(root, p) == Inner(Lvalue, [Inner(UnpackTarget, [Ident(name)])])
    ensures AtTop(root, p + [0]) && At(root, p + [0]).kind == UnpackTarget
    ensures AtTop(root, p + [0] + [0]) && At(root, p + [0] + [0]) == Ident(name)
  {
    Down(root, p, 0, p + [0]);
    Down(root, p + [0], 0, p + [0] + [0]);
  }

  // The target of an assignment at the top belongs to the whole file.
  lemma TopTarget(root: Node, i: nat, name: string)
    requires i < |root.children| && root.children[i] == Assignment(name)
    ensures IsVariable(root, [i, 0, 0, 0, 0]) && At(root, [i, 0, 0, 0, 0]) == Ident(name)
    ensures Owner(root, [i, 0, 0, 0, 0]) == []
  {
    var l: Path := [i, 0, 0];
    TopParts(root, i, name);
    TargetParts(root, l, name);
    TopOwns(root, l + [0], l + [0] + [0], name);
    assert l + [0] + [0] == [i, 0, 0, 0, 0];
  }

  lemma TopOwns(root: Node, u: Path, p: Path, name: string)
    requires AtTop(root, u) && At(root, u).kind.UnpackTarget? && p == u + [0]
    requires AtTop(root, p) && At(root, p) == Ident(name)
    ensures IsVariable(root, p) && Owner(root, p) == []
  {
    assert Parent(p) == u;
    NoScopeNoShadow(root, [], p, name);
    BindingScopeIsNearest(root, p, [], name);
  }

  // Renaming `a` to `b` in the first program merges two variables.
  lemma RenameCanCapture()
    ensures var o: Path := [0, 0, 0, 0, 0];
            IsVariable(TWO_NAMES, o) && At(TWO_NAMES, o) == Ident("a") &&
            !SameMeaning(TWO_NAMES, Renamed(TWO_NAMES, o, "b"))
  {
    TopTarget(TWO_NAMES, 0, "a");
    TopTarget(TWO_NAMES, 2, "b");
    MergedOccurrence(TWO_NAMES, [0, 0, 0, 0, 0], "b", [2, 0, 0, 0, 0]);
  }

  // Renaming the `a` of the second program leaves the one that the loop runs over.
  lemma RenameMissesIterable()
    ensures var o: Path, p: Path := [0, 0, 0, 0, 0], [2, 0, 3];
            IsVariable(LOOP, o) && IsVariable(LOOP, p) && At(LOOP, o) == At(LOOP, p) == Ident("a") &&
            p !in Targets(LOOP, o)
  {
    var s: Path, l: Path, p: Path := [2], [2, 0], [2, 0, 3];
    TopTarget(LOOP, 0, "a");
    assert Parent(s) == [] && Parent(l) == s && Parent(p) == l;
    assert At(LOOP, l).kind.ForStmt?;
    ForIterableIsLocalToTheLoop(LOOP, p);
  }

  lemma LoopParts(root: Node, target: Path, call: Path)
    requires root == CALL_LOOP && target == [2, 0, 1] && call == [2, 0, 3]
    ensures Valid(root, [2, 0]) && At(root, [2, 0]).kind.ForStmt?
    ensures Valid(root, target) && At(root, target) == Inner(UnpackTarget, [Ident("x")])
    ensures Valid(root, call) && At(root, call) == CALL
  {
    ChildStep(root, [], 2);
    assert [] + [2] == [2];
    ChildStep(root, [2], 0);
    assert [2] + [0] == [2, 0];
    ChildStep(root, [2, 0], 1);
    assert [2, 0] + [1] == target;
    ChildStep(root, [2, 0], 3);
    assert [2, 0] + [3] == call;
  }

  // The argument of the call in the header.
  lemma ArgumentParts(root: Node, l: Path, call: Path, x: Path)
    requires Valid(root, call) && At(root, call) == CALL && |call| == |l| + 1 && x == call + [1] + [1] + [0]
    ensures IsVariable(root, x) && At(root, x) == Ident("x") && NoScopeBetween(root, l, x)
  {
    ChildStep(root, call, 1);
    ChildStep(root, call + [1], 1);
    ChildStep(root, call + [1] + [1], 0);
    assert NoScopeBetween(root, l, call);
  }

  // The target of the loop binds its name.
  lemma LoopBindsTarget(root: Node, l: Path, target: Path)
    requires Valid(root, target) && target != [] && Parent(target) == l
    requires At(root, l).kind.ForStmt? && At(root, target) == Inner(UnpackTarget, [Ident("x")])
    ensures ScopeBinds(root, l, "x")
  {
    ChildStep(root, target, 0);
    var q := target + [0];
    assert Parent(q) == target;
    assert BindsFrom(root, q, target);
    assert Binder(root, q, "x");
    assert EnclosingScope(root, q) == Some(l);
    ScopeBindsExactly(root, l, "x");
  }

  // Renaming the first `x` of the third program leaves the one that is passed to
  // the call, which is not directly under the loop.
  lemma RenameMissesArgument()
    ensures var o: Path, x: Path := [0, 0, 0, 0, 0], [2, 0, 3, 1, 1, 0];
            && IsVariable(CALL_LOOP, o) && IsVariable(CALL_LOOP, x)
            && At(CALL_LOOP, o) == At(CALL_LOOP, x) == Ident("x") && x !in Targets(CALL_LOOP, o)
  {
    var l: Path, target: Path, call: Path := [2, 0], [2, 0, 1], [2, 0, 3];
    var x: Path := [2, 0, 3, 1, 1, 0];
    TopTarget(CALL_LOOP, 0, "x");
    LoopParts(CALL_LOOP, target, call);
    assert x == call + [1] + [1] + [0];
    ArgumentParts(CALL_LOOP, l, call, x);
    LoopBindsTarget(CALL_LOOP, l, target);
    OutsideMisses(CALL_LOOP, l, [0, 0, 0, 0, 0], x);
  }

  lemma OutsideMisses(root: Node, l: Path, o: Path, x: Path)
    requires Valid(root, l) && l != [] && At(root, l).kind.ForStmt?
    requires IsVariable(root, x) && Above(l, x) && NoScopeBetween(root, l, x)
    requires IsVariable(root, o) && Owner(root, o) == []
    requires At(root, o).text == At(root, x).text && ScopeBinds(root, l, At(root, x).text)
    ensures x !in Targets(root, o)
  {
    NoScopeNoShadow(root, l, x, At(root, x).text);
    LoopTakesItsNames(root, l, x);
    TargetsAreTheVariable(root, o, x);
  }
}
