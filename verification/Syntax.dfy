// The concrete syntax tree that the language server resolves names in. A node
// is addressed by its path from the root (the child index taken at each level),
// which plays the role of the parser's node identity.
module Syntax {

  // Node kinds that scope resolution distinguishes. Every other grammar rule is
  // an `OtherKind`.
  datatype Kind =
    | SourceFile | Block | LambdaExpr | ForStmt | WhileStmt
    | Identifier
    | GetAttr | CallAttr | Kwarg | DictKwarg
    | StructStmt | TraitStmt | EnumStmt | StructMethod
    | Lvalue | UnpackTarget | UnpackTuple | UnpackSequence | UnpackItems
    | LambdaParam | VariadicParam | ExceptClause | WithBinding
    | OtherKind(rule: string)

  // Label of the edge from a node to its parent.
  datatype Field = NoField | Name | Key | MethodName | Binding | OtherField(rule: string)

  // `text` is the source text of a leaf; only the text of identifiers is read.
  datatype Node = Node(kind: Kind, field: Field, text: string, children: seq<Node>)

  type Path = seq<nat>

  function Parent(p: Path): Path
    requires p != []
  {
    p[..|p| - 1]
  }

  // `p` addresses a node of the tree.
  predicate Valid(root: Node, p: Path)
    decreases |p|, 0
  {
    p == [] || (Valid(root, Parent(p)) && p[|p| - 1] < |At(root, Parent(p)).children|)
  }

  function At(root: Node, p: Path): Node
    requires Valid(root, p)
    decreases |p|, 1
  {
    if p == [] then root else At(root, Parent(p)).children[p[|p| - 1]]
  }

  // `p` is `q` or an ancestor of `q`.
  predicate Within(p: Path, q: Path) {
    p <= q
  }

  // `p` is a proper ancestor of `q`.
  predicate Above(p: Path, q: Path) {
    p < q
  }

  function FieldInParent(root: Node, p: Path): Field
    requires Valid(root, p)
  {
    if p == [] then NoField else At(root, p).field
  }

  // Document order: an ancestor comes before its descendants, and siblings come
  // in child order.
  predicate Precedes(p: Path, q: Path) {
    if p == [] || q == [] then p == [] && q != []
    else p[0] < q[0] || (p[0] == q[0] && Precedes(p[1..], q[1..]))
  }

  lemma PrefixValid(root: Node, p: Path, q: Path)
    requires Valid(root, q) && Within(p, q)
    ensures Valid(root, p)
  {
    if p == q {
    } else {
      assert p <= Parent(q);
      PrefixValid(root, p, Parent(q));
    }
  }

  lemma ChildStep(root: Node, p: Path, i: nat)
    requires Valid(root, p) && i < |At(root, p).children|
    ensures Valid(root, p + [i]) && Parent(p + [i]) == p
    ensures At(root, p + [i]) == At(root, p).children[i]
  {
    assert Parent(p + [i]) == p;
  }

  // The child of `p` on the way down to its descendant `q`.
  lemma ChildTowards(root: Node, p: Path, q: Path)
    requires Valid(root, q) && Above(p, q)
    ensures Valid(root, p) && q[|p|] < |At(root, p).children|
    ensures Within(p + [q[|p|]], q) && p + [q[|p|]] == q[..|p| + 1]
  {
    var c := q[..|p| + 1];
    PrefixValid(root, c, q);
    assert Parent(c) == p;
  }

  // ---- Document order is a strict order ----

  lemma {:induction false} PrecedesIrreflexive(p: Path)
    ensures !Precedes(p, p)
  {
    if p != [] {
      PrecedesIrreflexive(p[1..]);
    }
  }

  lemma {:induction false} PrecedesTransitive(p: Path, q: Path, r: Path)
    requires Precedes(p, q) && Precedes(q, r)
    ensures Precedes(p, r)
  {
    if p != [] && p[0] == q[0] == r[0] {
      PrecedesTransitive(p[1..], q[1..], r[1..]);
    }
  }

  lemma {:induction false} AncestorPrecedes(p: Path, q: Path)
    requires Above(p, q)
    ensures Precedes(p, q)
  {
    if p != [] {
      assert p[1..] < q[1..];
      AncestorPrecedes(p[1..], q[1..]);
    }
  }

  lemma {:induction false} SiblingsPrecede(p: Path, i: nat, j: nat, q: Path, r: Path)
    requires i < j && Within(p + [i], q) && Within(p + [j], r)
    ensures Precedes(q, r)
  {
    if p == [] {
      assert q[0] == ([i])[0] && r[0] == ([j])[0];
    } else {
      assert (p + [i])[1..] == p[1..] + [i] && (p + [j])[1..] == p[1..] + [j];
      assert q[0] == (p + [i])[0] == (p + [j])[0] == r[0];
      assert (p + [i])[1..] <= q[1..] && (p + [j])[1..] <= r[1..];
      SiblingsPrecede(p[1..], i, j, q[1..], r[1..]);
    }
  }
}
