// Lexical scope resolution and reference collection. Two walks that share no
// code decide which variable an identifier belongs to: an upward one finds the
// scope that owns an occurrence, a downward one gathers the occurrences a scope
// owns. The functions below are the specifications of the methods that follow.
module LexicalScopes {
  import opened Syntax
  import opened Wrappers

  predicate IsScope(kind: Kind) {
    kind.SourceFile? || kind.Block? || kind.LambdaExpr? || kind.ForStmt? || kind.WhileStmt?
  }

  predicate IsIdentifier(root: Node, p: Path, name: string)
    requires Valid(root, p)
  {
    At(root, p).kind.Identifier? && At(root, p).text == name
  }

  // Member names, keyword keys and declared type names are not variables.
  predicate IsNonVariablePosition(root: Node, p: Path)
    requires Valid(root, p)
  {
    p != [] &&
    match At(root, Parent(p)).kind
    case GetAttr | CallAttr => true
    case Kwarg | DictKwarg => FieldInParent(root, p) == Key
    case StructStmt | TraitStmt | EnumStmt => FieldInParent(root, p) == Name
    case StructMethod => FieldInParent(root, p) == MethodName
    case _ => false
  }

  // ---- Upward walk ----

  function EnclosingScope(root: Node, p: Path): (s: Option<Path>)
    requires Valid(root, p)
    ensures s.Some? ==> Above(s.value, p) && Valid(root, s.value) && IsScope(At(root, s.value).kind)
    decreases |p|
  {
    if p == [] then None
    else if IsScope(At(root, Parent(p)).kind) then Some(Parent(p))
    else EnclosingScope(root, Parent(p))
  }

  // Whether the walk from `current` to the root meets a construct that binds
  // the identifier at `node`.
  predicate BindsFrom(root: Node, node: Path, current: Path)
    requires Valid(root, node) && Valid(root, current)
    decreases |current|
  {
    current != [] &&
    match At(root, Parent(current)).kind
    case Lvalue => true
    case UnpackTarget | UnpackTuple | UnpackSequence | UnpackItems => BindsFrom(root, node, Parent(current))
    case LambdaParam | VariadicParam => FieldInParent(root, node) == Name
    case ForStmt => true
    case ExceptClause => FieldInParent(root, node) == Binding
    case WithBinding => FieldInParent(root, node) == Name
    case _ => false
  }

  predicate IsBindingOccurrence(root: Node, p: Path)
    requires Valid(root, p)
  {
    BindsFrom(root, p, p)
  }

  predicate Binder(root: Node, p: Path, name: string)
    requires Valid(root, p)
  {
    IsIdentifier(root, p, name) && IsBindingOccurrence(root, p)
  }

  // A variable occurrence of `name`.
  predicate Occurrence(root: Node, p: Path, name: string)
    requires Valid(root, p)
  {
    IsIdentifier(root, p, name) && !IsNonVariablePosition(root, p)
  }

  // ---- Downward walks ----

  // Whether `walk_until_scope`, from the i-th child of `scope` on, visits a
  // binding occurrence of `name`. It visits nested scopes but not their insides.
  predicate BindsBelow(root: Node, scope: Path, name: string, i: nat)
    requires Valid(root, scope) && i <= |At(root, scope).children|
    decreases At(root, scope), |At(root, scope).children| - i
  {
    if i == |At(root, scope).children| then false
    else
      ChildStep(root, scope, i);
      var c := scope + [i];
      Binder(root, c, name) ||
      (!IsScope(At(root, c).kind) && BindsBelow(root, c, name, 0)) ||
      BindsBelow(root, scope, name, i + 1)
  }

  predicate ScopeBinds(root: Node, scope: Path, name: string)
    requires Valid(root, scope)
  {
    BindsBelow(root, scope, name, 0)
  }

  function BindingScopeFrom(root: Node, scope: Option<Path>, name: string): (s: Path)
    requires scope.Some? ==> Valid(root, scope.value)
    ensures Valid(root, s)
    decreases if scope.Some? then 1 + |scope.value| else 0
  {
    if scope.None? then []
    else if ScopeBinds(root, scope.value, name) then scope.value
    else BindingScopeFrom(root, EnclosingScope(root, scope.value), name)
  }

  // The scope that owns `name` at `p`, the root when no scope binds it.
  function BindingScope(root: Node, p: Path, name: string): (s: Path)
    requires Valid(root, p)
    ensures Valid(root, s)
  {
    BindingScopeFrom(root, EnclosingScope(root, p), name)
  }

  predicate Shadows(root: Node, p: Path, name: string)
    requires Valid(root, p)
  {
    IsScope(At(root, p).kind) && ScopeBinds(root, p, name)
  }

  // What `collect_refs` adds from the i-th child of `scope` on.
  function Refs(root: Node, scope: Path, name: string, i: nat): (refs: seq<Path>)
    requires Valid(root, scope) && i <= |At(root, scope).children|
    ensures forall q <- refs :: Valid(root, q)
    decreases At(root, scope), |At(root, scope).children| - i
  {
    if i == |At(root, scope).children| then []
    else
      ChildStep(root, scope, i);
      var c := scope + [i];
      RefsFrom(root, c, name) + Refs(root, scope, name, i + 1)
  }

  // What one child adds: itself, then its subtree unless it shadows `name`.
  function RefsFrom(root: Node, child: Path, name: string): (refs: seq<Path>)
    requires Valid(root, child)
    ensures forall q <- refs :: Valid(root, q)
    decreases At(root, child), |At(root, child).children| + 1
  {
    (if Occurrence(root, child, name) then [child] else []) +
    (if Shadows(root, child, name) then [] else Refs(root, child, name, 0))
  }

  function OwnedBy(root: Node, scope: Path, name: string): (refs: seq<Path>)
    requires Valid(root, scope)
    ensures forall q <- refs :: Valid(root, q)
  {
    (if Occurrence(root, scope, name) then [scope] else []) + Refs(root, scope, name, 0)
  }

  function FindReferences(root: Node, ident: Path): (r: Option<seq<Path>>)
    requires Valid(root, ident)
    ensures r.Some? ==> forall q <- r.value :: Valid(root, q)
  {
    if IsNonVariablePosition(root, ident) then None
    else
      var name := At(root, ident).text;
      var refs := OwnedBy(root, BindingScope(root, ident, name), name);
      if refs == [] then None else Some(refs)
  }

  // ---- The walks as the server runs them ----

  method WalkEnclosingScope(root: Node, node: Path) returns (s: Option<Path>)
    requires Valid(root, node)
    ensures s == EnclosingScope(root, node)
  {
    if node == [] {
      return None;
    }
    var current := Parent(node);
    while true
      invariant Valid(root, current)
      invariant EnclosingScope(root, node) ==
                if IsScope(At(root, current).kind) then Some(current) else EnclosingScope(root, current)
      decreases |current|
    {
      if IsScope(At(root, current).kind) {
        return Some(current);
      }
      if current == [] {
        return None;
      }
      current := Parent(current);
    }
  }

  method WalkIsBindingOccurrence(root: Node, node: Path) returns (binds: bool)
    requires Valid(root, node)
    ensures binds == IsBindingOccurrence(root, node)
  {
    var current := node;
    while current != []
      invariant Valid(root, current)
      invariant IsBindingOccurrence(root, node) == BindsFrom(root, node, current)
      decreases |current|
    {
      var parent := Parent(current);
      match At(root, parent).kind {
        case Lvalue => return true;
        case UnpackTarget | UnpackTuple | UnpackSequence | UnpackItems => current := parent;
        case LambdaParam | VariadicParam => return FieldInParent(root, node) == Name;
        case ForStmt => return true;
        case ExceptClause => return FieldInParent(root, node) == Binding;
        case WithBinding => return FieldInParent(root, node) == Name;
        case _ => return false;
      }
    }
    return false;
  }

  // `walk_until_scope` with the visitor of `scope_binds`, which raises `found`
  // at a binding occurrence of `name`.
  method WalkUntilScope(root: Node, scope: Path, name: string, already: bool) returns (found: bool)
    requires Valid(root, scope)
    ensures found == (already || ScopeBinds(root, scope, name))
    decreases At(root, scope)
  {
    found := already;
    var i := 0;
    while i < |At(root, scope).children|
      invariant i <= |At(root, scope).children|
      invariant (found || BindsBelow(root, scope, name, i)) == (already || ScopeBinds(root, scope, name))
    {
      var child := scope + [i];
      ChildStep(root, scope, i);
      if IsIdentifier(root, child, name) {
        var binds := WalkIsBindingOccurrence(root, child);
        found := found || binds;
      }
      if !IsScope(At(root, child).kind) {
        found := WalkUntilScope(root, child, name, found);
      }
      i := i + 1;
    }
  }

  method WalkBindingScope(root: Node, node: Path, name: string) returns (s: Path)
    requires Valid(root, node)
    ensures s == BindingScope(root, node, name)
  {
    var scope := WalkEnclosingScope(root, node);
    while scope.Some?
      invariant scope.Some? ==> Valid(root, scope.value)
      invariant BindingScope(root, node, name) == BindingScopeFrom(root, scope, name)
      decreases if scope.Some? then 1 + |scope.value| else 0
    {
      var binds := WalkUntilScope(root, scope.value, name, false);
      if binds {
        return scope.value;
      }
      scope := WalkEnclosingScope(root, scope.value);
    }
    return [];
  }

  // One turn of the loop in `collect_refs`.
  lemma RefsStep(root: Node, scope: Path, name: string, i: nat, child: Path)
    requires Valid(root, scope) && i < |At(root, scope).children| && child == scope + [i]
    ensures Valid(root, child) && At(root, child) == At(root, scope).children[i]
    ensures Refs(root, scope, name, i) == RefsFrom(root, child, name) + Refs(root, scope, name, i + 1)
  {
    ChildStep(root, scope, i);
  }

  lemma Regroup<T>(a: seq<T>, b: seq<T>, c: seq<T>)
    ensures a + (b + c) == (a + b) + c
  {
  }

  method CollectRefs(root: Node, scope: Path, name: string, before: seq<Path>) returns (refs: seq<Path>)
    requires Valid(root, scope)
    ensures refs == before + Refs(root, scope, name, 0)
    decreases At(root, scope), 0
  {
    refs := before;
    var i := 0;
    while i < |At(root, scope).children|
      invariant i <= |At(root, scope).children|
      invariant refs + Refs(root, scope, name, i) == before + Refs(root, scope, name, 0)
    {
      var child := scope + [i];
      RefsStep(root, scope, name, i, child);
      Regroup(refs, RefsFrom(root, child, name), Refs(root, scope, name, i + 1));
      refs := CollectFrom(root, child, name, refs);
      i := i + 1;
    }
  }

  // The body of that loop.
  method CollectFrom(root: Node, child: Path, name: string, before: seq<Path>) returns (refs: seq<Path>)
    requires Valid(root, child)
    ensures refs == before + RefsFrom(root, child, name)
    decreases At(root, child), 1
  {
    refs := before;
    if IsIdentifier(root, child, name) && !IsNonVariablePosition(root, child) {
      refs := refs + [child];
    }
    var shadows := false;
    if IsScope(At(root, child).kind) {
      shadows := WalkUntilScope(root, child, name, false);
    }
    if !shadows {
      refs := CollectRefs(root, child, name, refs);
    }
  }

  method FindReferencesAt(root: Node, ident: Path) returns (r: Option<seq<Path>>)
    requires Valid(root, ident)
    ensures r == FindReferences(root, ident)
  {
    if IsNonVariablePosition(root, ident) {
      return None;
    }
    var name := At(root, ident).text;
    var scope := WalkBindingScope(root, ident, name);
    var refs := [];
    if IsIdentifier(root, scope, name) && !IsNonVariablePosition(root, scope) {
      refs := refs + [scope];
    }
    refs := CollectRefs(root, scope, name, refs);
    assert refs == OwnedBy(root, scope, name);
    return if refs == [] then None else Some(refs);
  }
}
