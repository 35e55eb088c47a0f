// What each construct of the language means for scope resolution and rename, in
// terms of the syntax tree: which constructs open a scope, which identifiers they
// bind, and which identifiers are no variables at all.
module Constructs {
  import opened Wrappers
  import opened Syntax
  import opened LexicalScopes
  import opened ScopeAgreement
  import opened Rename

  // ---- Scopes ----

  // Files, blocks, lambdas and the two loops open a scope; nothing else does.
  lemma FiveConstructsOpenScopes(root: Node, p: Path)
    requires Valid(root, p) && p != []
    ensures EnclosingScope(root, p) ==
            match At(root, Parent(p)).kind
            case SourceFile => Some(Parent(p))
            case Block => Some(Parent(p))
            case LambdaExpr => Some(Parent(p))
            case ForStmt => Some(Parent(p))
            case WhileStmt => Some(Parent(p))
            case _ => EnclosingScope(root, Parent(p))
  {
  }

  // ---- Binding constructs ----

  // Only unpacking stands strictly between `a` and `q`.
  predicate Unpacked(root: Node, a: Path, q: Path)
    requires Valid(root, q)
    decreases |q|
  {
    || |q| <= |a| + 1
    || (At(root, Parent(q)).kind in {UnpackTarget, UnpackTuple, UnpackSequence, UnpackItems} &&
        Unpacked(root, a, Parent(q)))
  }

  // The identifier at `q` has the place of a bound name in the construct at `a`.
  predicate IsNameOf(root: Node, a: Path, q: Path)
    requires Valid(root, a) && Valid(root, q)
  {
    var kind, field := At(root, a).kind, FieldInParent(root, q);
    || kind == Lvalue || kind == ForStmt
    || ((kind == LambdaParam || kind == VariadicParam || kind == WithBinding) && field == Name)
    || (kind == ExceptClause && field == Binding)
  }

  // An identifier is a binding occurrence exactly when it is, directly or unpacked,
  // the name in an assignment target, in a `for`, of a parameter, of a `with` name
  // or of an `except` binding.
  lemma BindingOccurrences(root: Node, q: Path)
    requires Valid(root, q)
    ensures IsBindingOccurrence(root, q) <==>
            exists a :: Valid(root, a) && Above(a, q) && Unpacked(root, a, q) && IsNameOf(root, a, q)
  {
    if IsBindingOccurrence(root, q) {
      var a := BindingConstruct(root, q, q);
    }
    forall a | Valid(root, a) && Above(a, q) && Unpacked(root, a, q) && IsNameOf(root, a, q)
      ensures IsBindingOccurrence(root, q)
    {
      NameIsBound(root, a, q, q);
    }
  }

  lemma {:induction false} BindingConstruct(root: Node, q: Path, c: Path) returns (a: Path)
    requires Valid(root, q) && Valid(root, c) && BindsFrom(root, q, c)
    ensures Valid(root, a) && Above(a, c) && Unpacked(root, a, c) && IsNameOf(root, a, q)
    decreases |c|
  {
    var p := Parent(c);
    if At(root, p).kind in {UnpackTarget, UnpackTuple, UnpackSequence, UnpackItems} {
      a := BindingConstruct(root, q, p);
    } else {
      a := p;
    }
  }

  lemma {:induction false} NameIsBound(root: Node, a: Path, q: Path, c: Path)
    requires Valid(root, a) && Valid(root, q) && Valid(root, c)
    requires Above(a, c) && Unpacked(root, a, c) && IsNameOf(root, a, q)
    ensures BindsFrom(root, q, c)
    decreases |c|
  {
    AboveParent(a, c);
    if Parent(c) != a {
      NameIsBound(root, a, q, Parent(c));
    }
  }

  // `s` owns every occurrence of `name` in it that nothing nearer rebinds, and a
  // rename from outside leaves them alone.
  ghost predicate KeepsName(root: Node, s: Path, name: string)
    requires Valid(root, s)
  {
    forall p | IsVariable(root, p) && At(root, p).text == name && Above(s, p) && NoShadowBetween(root, s, p, name) ::
      Owner(root, p) == s && forall o | IsVariable(root, o) && p in Targets(root, o) :: Within(s, o)
  }

  lemma BinderKeepsName(root: Node, s: Path, q: Path)
    requires Valid(root, s) && IsScope(At(root, s).kind)
    requires Valid(root, q) && At(root, q).kind.Identifier? && IsBindingOccurrence(root, q)
    requires Above(s, q) && NoScopeBetween(root, s, q)
    ensures KeepsName(root, s, At(root, q).text) && IsVariable(root, q) && Owner(root, q) == s
  {
    var name := At(root, q).text;
    EnclosingScopeIsNearest(root, q, s);
    ScopeBindsExactly(root, s, name);
    BinderIsOccurrence(root, q, name);
    NoScopeNoShadow(root, s, q, name);
    BindingScopeIsNearest(root, q, s, name);
    forall p | IsVariable(root, p) && At(root, p).text == name && Above(s, p) && NoShadowBetween(root, s, p, name)
      ensures Owner(root, p) == s && forall o | IsVariable(root, o) && p in Targets(root, o) :: Within(s, o)
    {
      BindingScopeIsNearest(root, p, s, name);
      OutsiderMisses(root, s, p);
    }
  }

  lemma OutsiderMisses(root: Node, s: Path, p: Path)
    requires IsVariable(root, p) && Owner(root, p) == s
    ensures forall o | IsVariable(root, o) && p in Targets(root, o) :: Within(s, o)
  {
    forall o | IsVariable(root, o) && p in Targets(root, o)
      ensures Within(s, o)
    {
      TargetsAreTheVariable(root, o, p);
      BindingScopeCanOwn(root, o, At(root, o).text);
    }
  }

  // `q` is the name of a parameter `c`, in a list of parameters `d` of the node `m`.
  predicate IsParameterOf(root: Node, m: Path, d: Path, c: Path, q: Path) {
    && Valid(root, m) && Valid(root, d) && Valid(root, c) && Valid(root, q)
    && q != [] && c == Parent(q) && c != [] && d == Parent(c) && d != [] && m == Parent(d)
    && At(root, q).kind.Identifier? && FieldInParent(root, q) == Name
    && At(root, c).kind in {LambdaParam, VariadicParam} && At(root, d).kind == OtherKind("lambda_params")
  }

  // A parameter belongs to its lambda.
  lemma LambdaOwnsParameter(root: Node, l: Path, d: Path, c: Path, q: Path)
    requires IsParameterOf(root, l, d, c, q) && At(root, l).kind == LambdaExpr
    ensures KeepsName(root, l, At(root, q).text) && IsVariable(root, q) && Owner(root, q) == l
  {
    NameIsBound(root, c, q, q);
    assert EnclosingScope(root, d) == Some(l);
    assert EnclosingScope(root, c) == EnclosingScope(root, d);
    EnclosingScopeIsNearest(root, q, l);
    BinderKeepsName(root, l, q);
  }

  // A parameter of a struct method does not belong to the method, which opens no
  // scope: it belongs to whatever scope the struct is declared in.
  lemma MethodSharesParameter(root: Node, s: Path, m: Path, d: Path, c: Path, q: Path)
    requires IsParameterOf(root, m, d, c, q) && At(root, m).kind == StructMethod
    requires EnclosingScope(root, m) == Some(s)
    ensures KeepsName(root, s, At(root, q).text) && IsVariable(root, q) && Owner(root, q) == s
  {
    NameIsBound(root, c, q, q);
    assert EnclosingScope(root, d) == EnclosingScope(root, m);
    assert EnclosingScope(root, c) == EnclosingScope(root, d);
    EnclosingScopeIsNearest(root, q, s);
    BinderKeepsName(root, s, q);
  }

  // A target, alone or unpacked, belongs to the nearest scope around the assignment.
  lemma TargetBelongsToScope(root: Node, s: Path, a: Path, q: Path)
    requires Valid(root, q) && At(root, q).kind.Identifier? && EnclosingScope(root, q) == Some(s)
    requires Valid(root, a) && At(root, a).kind == Lvalue && Above(a, q) && Unpacked(root, a, q)
    ensures KeepsName(root, s, At(root, q).text) && IsVariable(root, q) && Owner(root, q) == s
  {
    EnclosingScopeIsNearest(root, q, s);
    NameIsBound(root, a, q, q);
    BinderKeepsName(root, s, q);
  }

  // So do the binding of an `except` clause and a name of a `with`.
  lemma ExceptBindingBelongsToScope(root: Node, s: Path, q: Path)
    requires Valid(root, q) && q != [] && At(root, q).kind.Identifier? && EnclosingScope(root, q) == Some(s)
    requires At(root, Parent(q)).kind == ExceptClause && FieldInParent(root, q) == Binding
    ensures KeepsName(root, s, At(root, q).text) && IsVariable(root, q) && Owner(root, q) == s
  {
    EnclosingScopeIsNearest(root, q, s);
    NameIsBound(root, Parent(q), q, q);
    BinderKeepsName(root, s, q);
  }

  lemma WithNameBelongsToScope(root: Node, s: Path, q: Path)
    requires Valid(root, q) && q != [] && At(root, q).kind.Identifier? && EnclosingScope(root, q) == Some(s)
    requires At(root, Parent(q)).kind == WithBinding && FieldInParent(root, q) == Name
    ensures KeepsName(root, s, At(root, q).text) && IsVariable(root, q) && Owner(root, q) == s
  {
    EnclosingScopeIsNearest(root, q, s);
    NameIsBound(root, Parent(q), q, q);
    BinderKeepsName(root, s, q);
  }

  // A target of a `for`, alone or unpacked, belongs to the loop.
  lemma LoopOwnsTarget(root: Node, l: Path, q: Path)
    requires Valid(root, q) && At(root, q).kind.Identifier?
    requires Valid(root, l) && At(root, l).kind == ForStmt && Above(l, q) && Unpacked(root, l, q)
    ensures KeepsName(root, l, At(root, q).text) && IsVariable(root, q) && Owner(root, q) == l
  {
    UnpackingIsNoScope(root, l, q);
    NameIsBound(root, l, q, q);
    BinderKeepsName(root, l, q);
  }

  lemma {:induction false} UnpackingIsNoScope(root: Node, a: Path, q: Path)
    requires Valid(root, q) && Unpacked(root, a, q)
    ensures NoScopeBetween(root, a, q)
    decreases |q|
  {
    if |q| > |a| + 1 {
      UnpackingIsNoScope(root, a, Parent(q));
    }
  }

  // ---- Identifiers that are no variables ----

  // Member names, keyword keys and declared names are no variables; every other
  // identifier is one.
  lemma VariablesAreTheOtherIdentifiers(root: Node, p: Path)
    requires Valid(root, p) && p != [] && At(root, p).kind.Identifier?
    ensures var parent, field := At(root, Parent(p)).kind, FieldInParent(root, p);
            !IsVariable(root, p) <==>
            || parent in {GetAttr, CallAttr}
            || (parent in {Kwarg, DictKwarg} && field == Key)
            || (parent in {StructStmt, TraitStmt, EnumStmt} && field == Name)
            || (parent == StructMethod && field == MethodName)
  {
  }

  // They start no rename and none touches them.
  lemma OtherNamesAreUntouched(root: Node, p: Path)
    requires Valid(root, p) && At(root, p).kind.Identifier? && !IsVariable(root, p)
    ensures FindReferences(root, p) == None
    ensures forall o | IsVariable(root, o) :: p !in Targets(root, o)
  {
    forall o | IsVariable(root, o)
      ensures p !in Targets(root, o)
    {
      TargetsAreTheVariable(root, o, p);
    }
  }

  // ---- A program with a shadowing parameter ----

  function Statement(n: Node): Node {
    Inner(OtherKind("statement"), [n])
  }

  // `(name`, as a parameter.
  function Parameter(name: string): Node {
    Inner(OtherKind("lambda_params"), [Inner(LambdaParam, [Node(Identifier, Name, name, [])])])
  }

  function NameBlock(name: string): Node {
    Inner(Block, [Leaf("{"), Statement(Ident(name)), Leaf("}")])
  }

  // `x = None; (x) => { x }; x`
  const SHADOW: Node := Inner(SourceFile, [Assignment("x"), Leaf(";"),
    Statement(Inner(LambdaExpr, [Leaf("("), Parameter("x"), Leaf(")"), Leaf("=>"), NameBlock("x")])), Leaf(";"),
    Statement(Ident("x"))])

  lemma Child(root: Node, p: Path, i: nat, q: Path)
    requires Valid(root, p) && i < |At(root, p).children| && q == p + [i]
    ensures Valid(root, q) && Parent(q) == p && At(root, q) == At(root, p).children[i]
  {
    ChildStep(root, p, i);
  }

  lemma LeafBindsNothing(root: Node, c: Path, other: string)
    requires Valid(root, c) && At(root, c).kind.OtherKind? && At(root, c).children == []
    ensures !Binder(root, c, other) && !BindsBelow(root, c, other, 0)
  {
  }

  lemma NameInStatement(root: Node, c: Path, d: Path, other: string)
    requires Valid(root, d) && d != [] && Parent(d) == c && At(root, c).kind.OtherKind? && At(root, d).children == []
    ensures !Binder(root, d, other) && !BindsBelow(root, d, other, 0)
  {
    assert !BindsFrom(root, d, d);
  }

  lemma StatementBindsNothing(root: Node, c: Path, name: string, other: string)
    requires Valid(root, c) && At(root, c) == Statement(Ident(name))
    ensures !Binder(root, c, other) && !BindsBelow(root, c, other, 0)
  {
    var d := c + [0];
    Child(root, c, 0, d);
    NameInStatement(root, c, d, other);
    assert !BindsBelow(root, c, other, 1);
  }

  // The block `{ name }` binds nothing.
  lemma NameBlockBindsNothing(root: Node, b: Path, name: string, other: string)
    requires Valid(root, b) && At(root, b) == NameBlock(name)
    ensures !ScopeBinds(root, b, other)
  {
    Child(root, b, 0, b + [0]);
    Child(root, b, 1, b + [1]);
    Child(root, b, 2, b + [2]);
    LeafBindsNothing(root, b + [0], other);
    StatementBindsNothing(root, b + [1], name, other);
    LeafBindsNothing(root, b + [2], other);
    assert !BindsBelow(root, b, other, 3);
    assert !BindsBelow(root, b, other, 2);
    assert !BindsBelow(root, b, other, 1);
  }

  lemma ShadowLambda(root: Node, l: Path, d: Path, b: Path)
    requires root == SHADOW && l == [2, 0] && d == [2, 0, 1] && b == [2, 0, 4]
    ensures Valid(root, l) && At(root, l).kind == LambdaExpr
    ensures Valid(root, d) && At(root, d) == Parameter("x") && Parent(d) == l
    ensures Valid(root, b) && At(root, b) == NameBlock("x")
  {
    var s: Path := [2];
    assert s == [] + [2] && l == s + [0] && d == l + [1] && b == l + [4];
    Child(root, [], 2, s);
    Child(root, s, 0, l);
    Child(root, l, 1, d);
    Child(root, l, 4, b);
  }

  lemma ShadowLast(root: Node, e: Path, last: Path)
    requires root == SHADOW && e == [4] && last == [4, 0]
    ensures AtTop(root, last) && At(root, last) == Ident("x") && !IsNonVariablePosition(root, last)
  {
    assert e == [] + [4] && last == e + [0];
    Down(root, [], 4, e);
    Down(root, e, 0, last);
    assert Parent(last) == e;
  }

  lemma ParameterParts(root: Node, d: Path, q: Path)
    requires Valid(root, d) && At(root, d) == Parameter("x") && q == d + [0] + [0]
    ensures Valid(root, d + [0])
    ensures At(root, d + [0]).kind == LambdaParam && Parent(d + [0]) == d
    ensures Valid(root, q) && At(root, q) == Node(Identifier, Name, "x", []) && Parent(q) == d + [0]
  {
    Child(root, d, 0, d + [0]);
    Child(root, d + [0], 0, q);
  }

  lemma NameBlockParts(root: Node, l: Path, b: Path, q: Path)
    requires Valid(root, b) && At(root, b) == NameBlock("x") && |b| == |l| + 1 && Above(l, b) && q == b + [1] + [0]
    ensures IsVariable(root, q) && At(root, q) == Ident("x") && Above(l, q) && NoShadowBetween(root, l, q, "x")
  {
    Child(root, b, 1, b + [1]);
    Child(root, b + [1], 0, q);
    NameBlockBindsNothing(root, b, "x", "x");
    assert NoShadowBetween(root, l, b, "x") && NoShadowBetween(root, l, b + [1], "x");
  }

  lemma TopNameIsGlobal(root: Node, p: Path)
    requires p != [] && AtTop(root, p) && At(root, p) == Ident("x") && !IsNonVariablePosition(root, p)
    ensures IsVariable(root, p) && Owner(root, p) == []
  {
    NoScopeNoShadow(root, [], p, "x");
    BindingScopeIsNearest(root, p, [], "x");
  }

  // The identifier at `p` is a variable `name` that `s` owns.
  predicate IsVariableOf(root: Node, p: Path, name: string, s: Path) {
    IsVariable(root, p) && IsNameAt(root, p, name, s)
  }

  lemma ShadowOuter(o: Path, last: Path)
    requires o == [0, 0, 0, 0, 0] && last == [4, 0]
    ensures IsVariableOf(SHADOW, o, "x", []) && IsVariableOf(SHADOW, last, "x", [])
  {
    ShadowLast(SHADOW, [4], last);
    TopTarget(SHADOW, 0, "x");
    TopNameIsGlobal(SHADOW, last);
  }

  lemma ShadowInner(l: Path, d: Path, b: Path, param: Path, use: Path)
    requires l == [2, 0] && d == [2, 0, 1] && b == [2, 0, 4]
    requires param == [2, 0, 1, 0, 0] && use == [2, 0, 4, 1, 0]
    ensures IsVariableOf(SHADOW, param, "x", l) && IsVariableOf(SHADOW, use, "x", l)
  {
    ShadowLambda(SHADOW, l, d, b);
    assert d + [0] + [0] == param && b + [1] + [0] == use;
    ParameterParts(SHADOW, d, param);
    LambdaOwnsParameter(SHADOW, l, d, d + [0], param);
    NameBlockParts(SHADOW, l, b, use);
  }

  lemma SameOwnerSameTargets(root: Node, o: Path, p: Path, name: string, s: Path, t: Path)
    requires IsVariableOf(root, o, name, s) && IsVariableOf(root, p, name, t)
    ensures p in Targets(root, o) <==> s == t
  {
    TargetsAreTheVariable(root, o, p);
  }

  // Renaming the outer `x` reaches the last one, and neither the parameter nor its
  // use; renaming the parameter reaches its use alone.
  lemma ShadowedNameStaysApart(o: Path, param: Path, use: Path, last: Path)
    requires o == [0, 0, 0, 0, 0] && param == [2, 0, 1, 0, 0] && use == [2, 0, 4, 1, 0] && last == [4, 0]
    ensures IsVariable(SHADOW, o) && last in Targets(SHADOW, o)
    ensures param !in Targets(SHADOW, o) && use !in Targets(SHADOW, o)
    ensures IsVariable(SHADOW, param) && use in Targets(SHADOW, param)
    ensures o !in Targets(SHADOW, param) && last !in Targets(SHADOW, param)
  {
    var l: Path := [2, 0];
    ShadowOuter(o, last);
    ShadowInner(l, [2, 0, 1], [2, 0, 4], param, use);
    SameOwnerSameTargets(SHADOW, o, last, "x", [], []);
    SameOwnerSameTargets(SHADOW, o, param, "x", [], l);
    SameOwnerSameTargets(SHADOW, o, use, "x", [], l);
    SameOwnerSameTargets(SHADOW, param, use, "x", l, l);
    SameOwnerSameTargets(SHADOW, param, o, "x", l, []);
    SameOwnerSameTargets(SHADOW, param, last, "x", l, []);
  }

  // ---- A program with a method parameter ----

  // `x = None; struct P { m(x) }`
  const METHOD: Node := Inner(SourceFile, [Assignment("x"), Leaf(";"), Statement(
    Inner(StructStmt, [Leaf("struct"), Node(Identifier, Name, "P", []), Leaf("{"),
      Inner(StructMethod, [Node(Identifier, MethodName, "m", []), Leaf("("), Parameter("x"), Leaf(")")]),
      Leaf("}")]))])

  lemma MethodParts(root: Node, m: Path, d: Path)
    requires root == METHOD && m == [2, 0, 3] && d == [2, 0, 3, 2]
    ensures AtTop(root, m) && At(root, m).kind == StructMethod
    ensures Valid(root, d) && At(root, d) == Parameter("x") && Parent(d) == m
  {
    var s: Path, t: Path := [2], [2, 0];
    assert s == [] + [2] && t == s + [0] && m == t + [3] && d == m + [2];
    MethodStruct(root, s, t);
    Down(root, t, 3, m);
    Child(root, m, 2, d);
  }

  lemma MethodStruct(root: Node, s: Path, t: Path)
    requires root == METHOD && s == [] + [2] && t == s + [0]
    ensures AtTop(root, t) && At(root, t) == METHOD.children[2].children[0]
  {
    Down(root, [], 2, s);
    Down(root, s, 0, t);
  }

  // Renaming the outer `x` takes the parameter of the method along.
  lemma RenameTakesMethodParameter(o: Path, param: Path)
    requires o == [0, 0, 0, 0, 0] && param == [2, 0, 3, 2, 0, 0]
    ensures IsVariable(METHOD, o) && param in Targets(METHOD, o)
  {
    var m: Path, d: Path := [2, 0, 3], [2, 0, 3, 2];
    TopTarget(METHOD, 0, "x");
    MethodParts(METHOD, m, d);
    assert param == d + [0] + [0];
    ParameterParts(METHOD, d, param);
    EnclosingScopeIsNearest(METHOD, m, []);
    MethodSharesParameter(METHOD, [], m, d, d + [0], param);
    SameOwnerSameTargets(METHOD, o, param, "x", [], []);
  }
}
