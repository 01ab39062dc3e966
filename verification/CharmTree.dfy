// The expression tree as linked nodes, and the pass that rewrites references in place.
module CharmTree {
  import opened CharmMeaning

  datatype Kind =
    | KLit(d: Datum)
    | KRef(s: Symbol)
    | KUnary(uop: Operator)
    | KBinary(bop: BinaryOp)
    | KOther(what: Operator)

  // An expression, or anything else that has expressions below it. first is the operand of a
  // unary operator and the left operand of a binary one.
  class AstNode {
    const kind: Kind
    var parent: AstNode?
    var first: AstNode?
    var second: AstNode?

    constructor (kind: Kind)
      ensures this.kind == kind
    {
      this.kind := kind;
      parent, first, second := null, null, null;
    }

    // Building an operator makes it the parent of its operands.
    constructor DotExp(lhs: AstNode, rhs: AstNode)
      requires lhs != rhs
      modifies lhs`parent, rhs`parent
      ensures kind == KBinary(Dot) && first == lhs && second == rhs
      ensures lhs.parent == this && rhs.parent == this
    {
      kind := KBinary(Dot);
      parent, first, second := null, lhs, rhs;
      new;
      lhs.parent := this;
      rhs.parent := this;
    }

    method SetFirst(e: AstNode)
      modifies this`first, e`parent
      ensures first == e && e.parent == this
    {
      first := e;
      e.parent := this;
    }

    method SetSecond(e: AstNode)
      modifies this`second, e`parent
      ensures second == e && e.parent == this
    {
      second := e;
      e.parent := this;
    }
  }

  // ----- the shape of the tree -----

  datatype Shape = Leaf(n: AstNode) | One(n: AstNode, e: Shape) | Two(n: AstNode, l: Shape, r: Shape)

  datatype Edge = Edge(p: AstNode, left: bool, c: AstNode)

  ghost predicate WellKinded(a: Shape) {
    match a
    case Leaf(n) => n.kind.KLit? || n.kind.KRef?
    case One(n, e) => n.kind.KUnary? && WellKinded(e)
    case Two(n, l, r) => (n.kind.KBinary? || n.kind.KOther?) && WellKinded(l) && WellKinded(r)
  }

  /** The expression a shape stands for. */
  ghost function TreeOf(a: Shape): Tree
    requires WellKinded(a)
  {
    match a
    case Leaf(n) => if n.kind.KLit? then Lit(n.kind.d) else Ref(n.kind.s)
    case One(n, e) => Unary(n.kind.uop, TreeOf(e))
    case Two(n, l, r) =>
      if n.kind.KBinary? then Binary(n.kind.bop, TreeOf(l), TreeOf(r)) else Other(n.kind.what, TreeOf(l), TreeOf(r))
  }

  ghost function Edges(a: Shape): set<Edge> {
    match a
    case Leaf(_) => {}
    case One(n, e) => {Edge(n, true, e.n)} + Edges(e)
    case Two(n, l, r) => {Edge(n, true, l.n), Edge(n, false, r.n)} + Edges(l) + Edges(r)
  }

  ghost function Leaves(a: Shape): set<AstNode> {
    match a
    case Leaf(n) => {n}
    case One(_, e) => Leaves(e)
    case Two(_, l, r) => Leaves(l) + Leaves(r)
  }

  ghost function NodesOf(a: Shape): set<AstNode> {
    match a
    case Leaf(n) => {n}
    case One(n, e) => {n} + NodesOf(e)
    case Two(n, l, r) => {n} + NodesOf(l) + NodesOf(r)
  }

  // The child and parent fields are those of the edges.
  ghost predicate Mirrored(es: set<Edge>)
    reads set e | e in es :: e.p, set e | e in es :: e.c
  {
    forall e :: e in es ==> e.c.parent == e.p && e.c == if e.left then e.p.first else e.p.second
  }

  // No node is both operands of another.
  ghost predicate NoTwins(es: set<Edge>) {
    forall e, f :: e in es && f in es && e.p == f.p && e.c == f.c ==> e.left == f.left
  }

  // ----- wrapping references -----

  datatype Wrapper = Wrapper(dot: AstNode, lhs: AstNode)

  /** a with each reference of w replaced by `lhs . reference`. */
  ghost function Wrapped(a: Shape, w: map<AstNode, Wrapper>): Shape {
    match a
    case Leaf(n) => if n in w then Two(w[n].dot, Leaf(w[n].lhs), a) else a
    case One(n, e) => One(n, Wrapped(e, w))
    case Two(n, l, r) => Two(n, Wrapped(l, w), Wrapped(r, w))
  }

  ghost predicate Wrappers(globals: Symbol, a: Shape, w: map<AstNode, Wrapper>) {
    forall n :: n in w ==>
      && n.kind.KRef?
      && w[n].dot.kind == KBinary(Dot) && w[n].lhs.kind == KRef(globals)
      && w[n].dot !in NodesOf(a) && w[n].lhs !in NodesOf(a)
  }

  ghost function Renamed(e: Edge, r: AstNode, dot: AstNode): Edge {
    if e.c == r then Edge(e.p, e.left, dot) else e
  }

  ghost function Rename(es: set<Edge>, r: AstNode, dot: AstNode): set<Edge> {
    set e | e in es :: Renamed(e, r, dot)
  }

  // The edges inside the new expression `lhs . r`.
  ghost function NewEdges(r: AstNode, x: Wrapper): set<Edge> {
    {Edge(x.dot, true, x.lhs), Edge(x.dot, false, r)}
  }

  lemma RenameUnion(a: set<Edge>, b: set<Edge>, r: AstNode, dot: AstNode)
    ensures Rename(a + b, r, dot) == Rename(a, r, dot) + Rename(b, r, dot)
  {
  }

  lemma WrapTop(a: Shape, w: map<AstNode, Wrapper>, r: AstNode, x: Wrapper)
    requires WellKinded(a) && r.kind.KRef? && r !in w
    requires forall n :: n in w ==> w[n].lhs != r && w[n].dot != r
    ensures Wrapped(a, w[r := x]).n == if Wrapped(a, w).n == r then x.dot else Wrapped(a, w).n
  {
  }

  /** The edges after one more reference r is wrapped. */
  lemma {:induction false} WrapOne(a: Shape, w: map<AstNode, Wrapper>, r: AstNode, x: Wrapper)
    requires WellKinded(a) && r.kind.KRef? && r !in w
    requires forall n :: n in w ==> w[n].lhs != r && w[n].dot != r
    ensures Edges(Wrapped(a, w[r := x]))
         == Rename(Edges(Wrapped(a, w)), r, x.dot) + if r in Leaves(a) then NewEdges(r, x) else {}
  {
    match a {
      case Leaf(n) =>
      case One(n, e) =>
        WrapOne(e, w, r, x);
        WrapTop(e, w, r, x);
        var b := Wrapped(e, w);
        RenameUnion({Edge(n, true, b.n)}, Edges(b), r, x.dot);
        RenameOne(Edge(n, true, b.n), r, x.dot);
      case Two(n, l, m) =>
        WrapOne(l, w, r, x);
        WrapOne(m, w, r, x);
        WrapTop(l, w, r, x);
        WrapTop(m, w, r, x);
        hide Rename, NewEdges;
        var b, c := Wrapped(l, w), Wrapped(m, w);
        RenameTwo(n, b, c, r, x.dot);
        Glue({Renamed(Edge(n, true, b.n), r, x.dot), Renamed(Edge(n, false, c.n), r, x.dot)},
             Rename(Edges(b), r, x.dot), Rename(Edges(c), r, x.dot), NewEdges(r, x), r in Leaves(l), r in Leaves(m));
    }
  }

  lemma Glue(a: set<Edge>, b: set<Edge>, c: set<Edge>, x: set<Edge>, inB: bool, inC: bool)
    ensures a + (b + (if inB then x else {})) + (c + (if inC then x
            else {})) == a + b + c + (if inB || inC then x else {})
  {
  }

  lemma RenameTwo(n: AstNode, l: Shape, m: Shape, r: AstNode, dot: AstNode)
    ensures Rename(Edges(Two(n, l, m)), r, dot)
         == {Renamed(Edge(n, true, l.n), r, dot), Renamed(Edge(n, false, m.n), r, dot)}
            + Rename(Edges(l), r, dot) + Rename(Edges(m), r, dot)
  {
    var e, f := Edge(n, true, l.n), Edge(n, false, m.n);
    RenameUnion({e, f} + Edges(l), Edges(m), r, dot);
    RenameUnion({e, f}, Edges(l), r, dot);
    RenameUnion({e}, {f}, r, dot);
    assert {e, f} == {e} + {f};
    RenameOne(e, r, dot);
    RenameOne(f, r, dot);
  }

  lemma RenameOne(e: Edge, r: AstNode, dot: AstNode)
    ensures Rename({e}, r, dot) == {Renamed(e, r, dot)}
  {
    assert e in {e};
  }

  // Every node but the top one hangs below another.
  lemma {:induction false} HasParent(a: Shape, n: AstNode)
    requires n in NodesOf(a) && n != a.n
    ensures exists e :: e in Edges(a) && e.c == n
  {
    match a {
      case Leaf(_) =>
      case One(p, b) =>
        if n == b.n {
          assert Edge(p, true, n) in Edges(a);
        } else {
          HasParent(b, n);
        }
      case Two(p, l, m) =>
        if n == l.n {
          assert Edge(p, true, n) in Edges(a);
        } else if n == m.n {
          assert Edge(p, false, n) in Edges(a);
        } else if n in NodesOf(l) {
          HasParent(l, n);
        } else {
          HasParent(m, n);
        }
    }
  }

  // What the kind of a parent says about its edges.
  lemma {:induction false} EdgeKinds(a: Shape, e: Edge)
    requires WellKinded(a) && e in Edges(a)
    ensures !e.p.kind.KRef? && !e.p.kind.KLit?
    ensures e.p.kind.KUnary? ==> e.left
    ensures !e.left ==> exists f :: f in Edges(a) && f.p == e.p && f.left
    ensures e.p in NodesOf(a) && e.c in NodesOf(a)
  {
    match a {
      case Leaf(_) =>
      case One(p, b) =>
        if e in Edges(b) {
          EdgeKinds(b, e);
        }
      case Two(p, l, m) =>
        if e in Edges(l) {
          EdgeKinds(l, e);
        } else if e in Edges(m) {
          EdgeKinds(m, e);
        } else {
          assert Edge(p, true, l.n) in Edges(a);
        }
    }
  }

  lemma {:induction false} WrappedShape(globals: Symbol, a: Shape, w: map<AstNode, Wrapper>)
    requires WellKinded(a) && Wrappers(globals, a, w)
    ensures WellKinded(Wrapped(a, w)) && NodesOf(a) <= NodesOf(Wrapped(a, w))
    ensures forall n :: n in NodesOf(Wrapped(a, w)) ==>
              n in NodesOf(a) || exists k :: k in w && (n == w[k].dot || n == w[k].lhs)
  {
    match a {
      case Leaf(n) =>
      case One(n, e) => WrappedShape(globals, e, w);
      case Two(n, l, m) => WrappedShape(globals, l, w); WrappedShape(globals, m, w);
    }
  }

  // ----- the pass over the references -----

  // p is a unary or a binary operator.
  predicate OperandOf(p: AstNode?) {
    p != null && (p.kind.KUnary? || p.kind.KBinary?)
  }

  ghost predicate ApartFrom(a: Shape, w: map<AstNode, Wrapper>, r: AstNode) {
    forall n :: n in w ==> w[n].lhs != r && w[n].dot != r
  }

  // The tree is linked as the shape says, with the references of w wrapped.
  ghost predicate Linked(globals: Symbol, a: Shape, w: map<AstNode, Wrapper>)
    reads set e | e in Edges(Wrapped(a, w)) :: e.p, set e | e in Edges(Wrapped(a, w)) :: e.c
  {
    && WellKinded(a) && Wrappers(globals, a, w)
    && Mirrored(Edges(Wrapped(a, w))) && NoTwins(Edges(Wrapped(a, w)))
  }

  // The only edge to a reference not wrapped yet.
  lemma ParentEdge(globals: Symbol, a: Shape, w: map<AstNode, Wrapper>, r: AstNode) returns (e: Edge)
    requires Linked(globals, a, w) && r in Leaves(a) && r.kind.KRef? && !a.Leaf?
    ensures var es := Edges(Wrapped(a, w));
            && e in es && e.c == r && r.parent == e.p
            && (forall f :: f in es && f.c == r ==> f == e)
            && (if e.left then e.p.first == r else e.p.second == r && e.p.first != r)
            && (e.p.kind.KUnary? ==> e.left)
            && e.p != r
            && (e.p in NodesOf(a) || exists k :: k in w && (e.p == w[k].dot || e.p == w[k].lhs))
    ensures r in NodesOf(a)
  {
    var b := Wrapped(a, w);
    LeafInside(a, r);
    WrappedShape(globals, a, w);
    HasParent(b, r);
    e :| e in Edges(b) && e.c == r;
    EdgeKinds(b, e);
    if !e.left {
      var f :| f in Edges(b) && f.p == e.p && f.left;
      assert f.c != r;
    }
  }

  lemma {:induction false} LeafInside(a: Shape, r: AstNode)
    requires r in Leaves(a)
    ensures r in NodesOf(a)
  {
    match a {
      case Leaf(_) =>
      case One(_, e) => LeafInside(e, r);
      case Two(_, l, m) => if r in Leaves(l) { LeafInside(l, r); } else { LeafInside(m, r); }
    }
  }

  ghost predicate Outside(es: set<Edge>, n: AstNode) {
    forall e :: e in es ==> e.p != n && e.c != n
  }

  lemma NoNewTwins(es: set<Edge>, r: AstNode, x: Wrapper)
    requires NoTwins(es) && Outside(es, x.dot) && Outside(es, x.lhs) && x.lhs != r && x.dot != r && x.lhs != x.dot
    ensures NoTwins(Rename(es, r, x.dot) + NewEdges(r, x))
  {
    var fs := Rename(es, r, x.dot) + NewEdges(r, x);
    forall e, f | e in fs && f in fs && e.p == f.p && e.c == f.c
      ensures e.left == f.left
    {
      if e in Rename(es, r, x.dot) && f in Rename(es, r, x.dot) {
        var e0 :| e0 in es && Renamed(e0, r, x.dot) == e;
        var f0 :| f0 in es && Renamed(f0, r, x.dot) == f;
        assert e0.c == f0.c;
      }
    }
  }

  method ReplaceOperand(parent: AstNode, r: AstNode, dot: AstNode, ghost e: Edge)
    requires (parent.kind.KUnary? || parent.kind.KBinary?) && parent == e.p && r == e.c && dot != parent
    requires if e.left then parent.first == r else parent.second == r && parent.first != r
    requires parent.kind.KUnary? ==> e.left
    modifies parent, dot`parent
    ensures parent.first == if e.left then dot else old(parent.first)
    ensures parent.second == if e.left then old(parent.second) else dot
    ensures parent.parent == old(parent.parent) && dot.parent == parent
  {
    if parent.kind.KUnary? {
      parent.SetFirst(dot);
    } else if parent.first == r {
      parent.SetFirst(dot);
    } else {
      parent.SetSecond(dot);
    }
  }

  // Builds `globals.r` and puts it in the place of r, the child of the edge e.
  method Relink(r: AstNode, parent: AstNode, globals: Symbol, ghost es: set<Edge>, ghost e: Edge)
    returns (ghost x: Wrapper)
    requires Mirrored(es) && e in es && e.c == r && e.p == parent && (forall f :: f in es && f.c == r ==> f == e)
    requires (parent.kind.KUnary? || parent.kind.KBinary?) && (parent.kind.KUnary? ==> e.left) && parent != r
    requires if e.left then parent.first == r else parent.second == r && parent.first != r
    modifies r`parent, parent
    ensures fresh(x.dot) && fresh(x.lhs) && x.dot != x.lhs
    ensures x.dot.kind == KBinary(Dot) && x.lhs.kind == KRef(globals)
    ensures Outside(es, x.dot) && Outside(es, x.lhs)
    ensures Mirrored(Rename(es, r, x.dot) + NewEdges(r, x))
  {
    assert forall f :: f in es ==> allocated(f.p) && allocated(f.c);
    var lhs := new AstNode(KRef(globals));
    var dot := new AstNode.DotExp(lhs, r);
    x := Wrapper(dot, lhs);
    ReplaceOperand(parent, r, dot, e);
  }

  // One reference: x becomes globals.x below its parent. ok is false where the program aborts.
  method WrapReference(r: AstNode, globals: Symbol, ghost a: Shape, ghost w: map<AstNode, Wrapper>,
                       ghost es: set<Edge>, ghost nodes: set<AstNode>)
    returns (ok: bool, ghost x: Wrapper)
    requires es == Edges(Wrapped(a, w)) && nodes == NodesOf(a)
    requires Linked(globals, a, w) && r in Leaves(a) && r.kind.KRef? && r !in w && !a.Leaf? && ApartFrom(a, w, r)
    modifies r`parent, r.parent
    ensures ok <==> old(r.parent) != null && (old(r.parent).kind.KUnary? || old(r.parent).kind.KBinary?)
    ensures ok ==> fresh(x.dot) && fresh(x.lhs) && Linked(globals, a, w[r := x])
  {
    hide Wrapped, Edges, NodesOf, NoTwins, WellKinded, Leaves, Mirrored, Rename, NewEdges;
    ghost var e := ParentEdge(globals, a, w, r);
    assert forall n :: n in nodes ==> allocated(n);
    var parent := r.parent;
    if !parent.kind.KUnary? && !parent.kind.KBinary? {
      return false, Wrapper(r, r);
    }
    ok := true;
    x := Relink(r, parent, globals, es, e);
    WrapOne(a, w, r, x);
    NoNewTwins(es, r, x);
  }

  /** Rewrites the references in any order. The program is aborted, and ok false, exactly when
      some reference is not an operand of a unary or binary operator. */
  method FixupReferences(refs: seq<AstNode>, globals: Symbol, ghost a: Shape)
    returns (ok: bool, ghost w: map<AstNode, Wrapper>)
    requires Linked(globals, a, map[]) && !a.Leaf?
    requires forall i :: 0 <= i < |refs| ==> refs[i] in Leaves(a) && refs[i].kind.KRef?
    requires forall i, j :: 0 <= i < j < |refs| ==> refs[i] != refs[j]
    modifies NodesOf(a)
    ensures ok <==> forall i :: 0 <= i < |refs| ==> OperandOf(old(refs[i].parent))
    ensures ok ==> Linked(globals, a, w) && w.Keys == set r | r in refs
    ensures ok ==> forall r :: r in w ==> fresh(w[r].dot) && fresh(w[r].lhs)
  {
    hide Wrapped, Edges, NodesOf, NoTwins, WellKinded, Leaves, Mirrored, Wrappers;
    w := map[];
    for k := 0 to |refs|
      invariant Linked(globals, a, w) && w.Keys == set r | r in refs[..k]
      invariant forall r :: r in w ==> fresh(w[r].dot) && fresh(w[r].lhs)
      invariant forall i :: 0 <= i < k ==> OperandOf(old(refs[i].parent))
      invariant forall i :: k <= i < |refs| ==> refs[i].parent == old(refs[i].parent)
    {
      ghost var x;
      var r := refs[k];
      ghost var e := ParentEdge(globals, a, w, r);
      assert e.p in NodesOf(a) || fresh(e.p);
      ok, x := WrapReference(r, globals, a, w, Edges(Wrapped(a, w)), NodesOf(a));
      if !ok {
        return;
      }
      w := w[r := x];
      assert refs[..k + 1] == refs[..k] + [r];
    }
    ok := true;
    assert refs[..|refs|] == refs;
  }

  predicate IsGlobalReference(n: AstNode) {
    n.kind.KRef? && n.kind.s.scope.Global?
  }

  lemma {:induction false} WrappedIsRewrite(globals: Symbol, a: Shape, w: map<AstNode, Wrapper>)
    requires WellKinded(a) && WellKinded(Wrapped(a, w)) && Wrappers(globals, a, w)
    requires forall n :: n in Leaves(a) ==> (n in w <==> IsGlobalReference(n))
    ensures TreeOf(Wrapped(a, w)) == Rewrite(globals, TreeOf(a))
  {
    match a {
      case Leaf(n) =>
      case One(n, e) => WrappedIsRewrite(globals, e, w);
      case Two(n, l, m) =>
        WrappedIsRewrite(globals, l, w);
        WrappedIsRewrite(globals, m, w);
    }
  }

  /** Every wrapped reference hangs below its own dot, which took its place; every other edge,
      among them those to local variables, is as it was. */
  lemma {:induction false} WrappedInPlace(a: Shape, w: map<AstNode, Wrapper>)
    requires WellKinded(a) && forall n :: n in w ==> n.kind.KRef?
    ensures forall e :: e in Edges(a) ==>
              Edge(e.p, e.left, if e.c in w then w[e.c].dot else e.c) in Edges(Wrapped(a, w))
    ensures forall r :: r in Leaves(a) && r in w ==>
              Edge(w[r].dot, true, w[r].lhs) in Edges(Wrapped(a, w)) && Edge(w[r].dot, false, r) in Edges(Wrapped(a, w))
  {
    match a {
      case Leaf(n) =>
      case One(n, e) => WrappedInPlace(e, w);
      case Two(n, l, m) =>
        WrappedInPlace(l, w);
        WrappedInPlace(m, w);
    }
  }

  ghost function References(a: Shape): set<AstNode> {
    set n | n in Leaves(a) && n.kind.KRef?
  }

  // The global references among the nodes the query found, in the order it found them.
  method GlobalReferences(nodeList: seq<AstNode>) returns (refs: seq<AstNode>)
    requires forall i :: 0 <= i < |nodeList| ==> nodeList[i].kind.KRef?
    requires forall i, j :: 0 <= i < j < |nodeList| ==> nodeList[i] != nodeList[j]
    ensures forall i :: 0 <= i < |refs| ==> refs[i] in nodeList && IsGlobalReference(refs[i])
    ensures forall i :: 0 <= i < |nodeList| && IsGlobalReference(nodeList[i]) ==> nodeList[i] in refs
    ensures forall i, j :: 0 <= i < j < |refs| ==> refs[i] != refs[j]
  {
    refs := [];
    for i := 0 to |nodeList|
      invariant forall j :: 0 <= j < |refs| ==> refs[j] in nodeList[..i] && IsGlobalReference(refs[j])
      invariant forall j :: 0 <= j < i && IsGlobalReference(nodeList[j]) ==> nodeList[j] in refs
      invariant forall i, j :: 0 <= i < j < |refs| ==> refs[i] != refs[j]
    {
      assert nodeList[..i + 1] == nodeList[..i] + [nodeList[i]];
      if nodeList[i].kind.s.scope.Global? {
        assert nodeList[i] !in nodeList[..i];
        refs := refs + [nodeList[i]];
      }
    }
    assert nodeList[..|nodeList|] == nodeList;
  }

  ghost predicate SameMeaning(globals: Symbol, t: Tree, t': Tree) {
    forall sem, st, st' :: Blind(sem, globals) && Corresponds(sem, globals, st, st') ==>
      SameResult(sem, globals, Eval(sem, t, st), Eval(sem, t', st'))
  }

  /** The whole pass over the references of a file, found in any order: unless it aborts, the
      linked tree it leaves means the same once the globals live in the struct. */
  method TransformReferences(nodeList: seq<AstNode>, globals: Symbol, ghost a: Shape, ghost es: set<Edge>)
    returns (ok: bool, ghost b: Shape, ghost w: map<AstNode, Wrapper>)
    requires es == Edges(a) && WellKinded(a) && Mirrored(es) && NoTwins(es) && !a.Leaf?
    requires Source(globals, TreeOf(a))
    requires forall i :: 0 <= i < |nodeList| ==> nodeList[i] in References(a)
    requires References(a) <= set n | n in nodeList
    requires forall i, j :: 0 <= i < j < |nodeList| ==> nodeList[i] != nodeList[j]
    modifies NodesOf(a)
    ensures ok <==> Rewritable(TreeOf(a))
    ensures ok ==> b == Wrapped(a, w) && WellKinded(b) && Mirrored(Edges(b)) && NoTwins(Edges(b))
    ensures ok ==> TreeOf(b) == Rewrite(globals, TreeOf(a)) && SameMeaning(globals, TreeOf(a), TreeOf(b))
    ensures ok ==> w.Keys == set n | n in References(a) && IsGlobalReference(n)
  {
    hide Edges, NoTwins, Mirrored, Source, Blind, Corresponds, SameResult, Eval;
    assert forall e :: e in es ==> allocated(e.p) && allocated(e.c);
    var refs := GlobalReferences(nodeList);
    NothingLinked(globals, a);
    hide WellKinded, Wrapped, Leaves, NodesOf;
    ParentsOperate(a, es, refs);
    ok, w := FixupReferences(refs, globals, a);
    b := Wrapped(a, w);
    if ok {
      assert w.Keys == set n | n in References(a) && IsGlobalReference(n);
      WrappedShape(globals, a, w);
      WrappedIsRewrite(globals, a, w);
      forall sem, st, st' | Blind(sem, globals) && Corresponds(sem, globals, st, st')
        ensures SameResult(sem, globals, Eval(sem, TreeOf(a), st), Eval(sem, TreeOf(b), st'))
      {
        MeaningPreserved(sem, globals, TreeOf(a), st, st');
      }
    }
  }

  // A global reference that is not the whole tree can be rewritten just if its parent is an operator.
  lemma {:induction false} EdgesOperate(a: Shape)
    requires WellKinded(a)
    ensures Rewritable(TreeOf(a)) <==>
            forall e :: e in Edges(a) && IsGlobalReference(e.c) ==> e.p.kind.KUnary? || e.p.kind.KBinary?
  {
    match a {
      case Leaf(_) =>
      case One(n, e) =>
        EdgesOperate(e);
        TopOfTree(e);
      case Two(n, l, m) =>
        EdgesOperate(l);
        EdgesOperate(m);
        TopOfTree(l);
        TopOfTree(m);
        assert Edge(n, true, l.n) in Edges(a) && Edge(n, false, m.n) in Edges(a);
    }
  }

  lemma TopOfTree(a: Shape)
    requires WellKinded(a)
    ensures IsGlobal(TreeOf(a)) <==> IsGlobalReference(a.n)
  {
  }

  // Below an edge there is a leaf if there is a reference.
  lemma {:induction false} ReferenceBelow(a: Shape, e: Edge)
    requires WellKinded(a) && e in Edges(a) && e.c.kind.KRef?
    ensures e.c in Leaves(a)
  {
    match a {
      case Leaf(_) =>
      case One(_, b) => if e in Edges(b) { ReferenceBelow(b, e); }
      case Two(_, l, m) =>
        if e in Edges(l) {
          ReferenceBelow(l, e);
        } else if e in Edges(m) {
          ReferenceBelow(m, e);
        }
    }
  }

  lemma ParentsOperate(a: Shape, es: set<Edge>, refs: seq<AstNode>)
    requires es == Edges(a) && WellKinded(a) && Mirrored(es) && !a.Leaf?
    requires forall i :: 0 <= i < |refs| ==> refs[i] in Leaves(a) && IsGlobalReference(refs[i])
    requires forall n :: n in References(a) && IsGlobalReference(n) ==> n in refs
    ensures Rewritable(TreeOf(a)) <==> forall i :: 0 <= i < |refs| ==> OperandOf(refs[i].parent)
  {
    hide Edges, Leaves, WellKinded, TreeOf, Rewritable;
    EdgesOperate(a);
    forall i | 0 <= i < |refs|
      ensures exists e :: e in es && e.c == refs[i] && refs[i].parent == e.p
    {
      LeafInside(a, refs[i]);
      TopIsNoLeaf(a);
      HasParent(a, refs[i]);
    }
    forall e | e in es && IsGlobalReference(e.c)
      ensures e.c in refs && e.c.parent == e.p
    {
      ReferenceBelow(a, e);
    }
  }

  lemma TopIsNoLeaf(a: Shape)
    requires WellKinded(a) && !a.Leaf?
    ensures !a.n.kind.KRef?
  {
  }

  lemma NothingLinked(globals: Symbol, a: Shape)
    requires WellKinded(a) && Mirrored(Edges(a)) && NoTwins(Edges(a))
    ensures Linked(globals, a, map[])
  {
    NothingWrapped(a);
  }

  lemma {:induction false} NothingWrapped(a: Shape)
    ensures Wrapped(a, map[]) == a
  {
    match a {
      case Leaf(_) =>
      case One(_, e) => NothingWrapped(e);
      case Two(_, l, m) => NothingWrapped(l); NothingWrapped(m);
    }
  }
}
