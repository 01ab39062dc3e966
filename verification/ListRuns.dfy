// Runs of the list's operations on two lists.
module ListRuns {
  import opened List

  // What the first list of a pair is asked to do; the nodes to splice come from the second, or from itself.
  datatype Op =
    | Insert(p: nat, val: Value)
    | Erase(p: nat)
    | SpliceAll(p: nat)
    | SpliceOne(p: nat, same: bool, i: nat)
    | SpliceRange(p: nat, same: bool, i: nat, j: nat)
    | MoveAssign

  /** The places an operation may name, in lists of n and m elements. */
  predicate Legal(op: Op, n: nat, m: nat) {
    match op
    case Insert(p, _) => p <= n
    case Erase(p) => p < n
    case SpliceAll(p) => p <= n
    case SpliceOne(p, same, i) => p <= n && i < if same then n else m
    case SpliceRange(p, same, i, j) => p <= n && i <= j <= (if same then n else m) && (same ==> !(i <= p < j))
    case MoveAssign => true
  }

  ghost function Moved(s: seq<ListNode>, p: nat, i: nat, j: nat): seq<ListNode>
    requires i <= j <= |s| && p <= |s| && !(i < p < j)
  {
    if p <= i then SwapBlocks(s, p, i, j) else SwapBlocks(s, i, j, p)
  }

  /** The elements s and t become s' and t'. */
  ghost predicate Stepped(op: Op, s: seq<ListNode>, t: seq<ListNode>, s': seq<ListNode>, t': seq<ListNode>)
    requires Legal(op, |s|, |t|)
  {
    match op
    case Insert(p, v) =>
      |s'| > p && s'[p] !in s && s'[p] !in t && s'[p].val == v && s' == InsertAll(s, p, [s'[p]]) && t' == t
    case Erase(p) => s' == Without(s, p, p + 1) && t' == t
    case SpliceAll(p) => s' == InsertAll(s, p, t) && t' == []
    case SpliceOne(p, same, i) =>
      if same then s' == Moved(s, p, i, i + 1) && t' == t
          else s' == InsertAll(s, p, t[i..i + 1]) && t' == Without(t, i, i + 1)
    case SpliceRange(p, same, i, j) =>
      if same then s' == Moved(s, p, i, j) && t' == t else s' == InsertAll(s, p, t[i..j]) && t' == Without(t, i, j)
    case MoveAssign => s' == t && t' == []
  }

  // block is in s' at place k, and without it s' is rest.
  ghost predicate HasBlock(s': seq<ListNode>, k: nat, block: seq<ListNode>, rest: seq<ListNode>) {
    k + |block| <= |s'| && s'[k..k + |block|] == block && s'[..k] + s'[k + |block|..] == rest
  }

  lemma InsertedBlock(s: seq<ListNode>, p: nat, block: seq<ListNode>)
    requires p <= |s|
    ensures HasBlock(InsertAll(s, p, block), p, block, s)
  {
    assert s == s[..p] + s[p..];
  }

  /** Moving a block within a list: the others keep their order, and it ends right before the place. */
  lemma MovedBlock(s: seq<ListNode>, p: nat, i: nat, j: nat)
    requires i <= j <= |s| && p <= |s| && !(i < p < j)
    ensures HasBlock(Moved(s, p, i, j), if p <= i then p else p - (j - i), s[i..j], s[..i] + s[j..])
  {
    var m := j - i;
    if p <= i {
      MovedBack(s, p, i, j);
    } else {
      MovedOn(s, i, j, p);
    }
  }

  lemma MovedBack(s: seq<ListNode>, p: nat, i: nat, j: nat)
    requires p <= i <= j <= |s|
    ensures HasBlock(SwapBlocks(s, p, i, j), p, s[i..j], s[..i] + s[j..])
  {
    var t := SwapBlocks(s, p, i, j);
    assert t == s[..p] + s[i..j] + (s[p..i] + s[j..]);
    assert t[p + (j - i)..] == s[p..i] + s[j..];
    assert s[..p] + (s[p..i] + s[j..]) == s[..i] + s[j..];
  }

  lemma MovedOn(s: seq<ListNode>, i: nat, j: nat, p: nat)
    requires i <= j <= p <= |s|
    ensures HasBlock(SwapBlocks(s, i, j, p), p - (j - i), s[i..j], s[..i] + s[j..])
  {
    var t := SwapBlocks(s, i, j, p);
    var u := s[..i] + s[j..p];
    assert t == u + s[i..j] + s[p..];
    assert t[..|u|] == u && t[|u|..|u| + (j - i)] == s[i..j] && t[|u| + (j - i)..] == s[p..];
    assert u + s[p..] == s[..i] + s[j..];
  }

  /** What the operations on whole elements do, where their places are in the list: the others keep their order. */
  lemma StepIs(op: Op, s: seq<ListNode>, t: seq<ListNode>, s': seq<ListNode>, t': seq<ListNode>)
    requires Legal(op, |s|, |t|) ==> Stepped(op, s, t, s', t')
    ensures op.Insert? && op.p <= |s| ==>
              && t' == t && op.p < |s'| && HasBlock(s', op.p, [s'[op.p]], s)
              && s'[op.p].val == op.val && s'[op.p] !in s + t
    ensures op.Erase? && op.p < |s| ==> t' == t && HasBlock(s, op.p, [s[op.p]], s')
    ensures op.SpliceAll? && op.p <= |s| ==> t' == [] && HasBlock(s', op.p, t, s)
    ensures op.MoveAssign? ==> s' == t && t' == []
  {
    hide HasBlock, InsertAll, SwapBlocks, Moved, Without;
    if Legal(op, |s|, |t|) {
      match op
      case Insert(p, v) => InsertedBlock(s, p, [s'[p]]);
      case Erase(p) => ErasedBlock(s, p, p + 1);
      case SpliceAll(p) => InsertedBlock(s, p, t);
      case _ =>
    }
  }

  /** What splicing one element does, between two lists and within one. */
  lemma SpliceOneIs(p: nat, same: bool, i: nat,
                    s: seq<ListNode>, t: seq<ListNode>, s': seq<ListNode>, t': seq<ListNode>)
    requires Legal(SpliceOne(p, same, i), |s|, |t|) ==> Stepped(SpliceOne(p, same, i), s, t, s', t')
    ensures !same && p <= |s| && i < |t| ==> HasBlock(s', p, [t[i]], s) && HasBlock(t, i, [t[i]], t')
    ensures same && p <= |s| && i < |s| ==>
              t' == t && HasBlock(s', if p <= i then p else p - 1, [s[i]], s[..i] + s[i + 1..])
  {
    hide HasBlock, InsertAll, SwapBlocks, Moved, Without;
    if same && p <= |s| && i < |s| {
      MovedBlock(s, p, i, i + 1);
      assert s[i..i + 1] == [s[i]];
    } else if !same && p <= |s| && i < |t| {
      InsertedBlock(s, p, t[i..i + 1]);
      ErasedBlock(t, i, i + 1);
      assert t[i..i + 1] == [t[i]];
    }
  }

  /** What splicing a range does, between two lists and within one, where the place is not in the range. */
  lemma SpliceRangeIs(p: nat, same: bool, i: nat, j: nat,
                      s: seq<ListNode>, t: seq<ListNode>, s': seq<ListNode>, t': seq<ListNode>)
    requires Legal(SpliceRange(p, same, i, j), |s|, |t|) ==> Stepped(SpliceRange(p, same, i, j), s, t, s', t')
    ensures !same && p <= |s| && i <= j <= |t| ==> HasBlock(s', p, t[i..j], s) && HasBlock(t, i, t[i..j], t')
    ensures same && p <= |s| && i <= j <= |s| && !(i <= p < j) ==>
              t' == t && HasBlock(s', if p <= i then p else p - (j - i), s[i..j], s[..i] + s[j..])
  {
    hide HasBlock, InsertAll, SwapBlocks, Moved, Without;
    if same && p <= |s| && i <= j <= |s| && !(i <= p < j) {
      MovedBlock(s, p, i, j);
    } else if !same && p <= |s| && i <= j <= |t| {
      InsertedBlock(s, p, t[i..j]);
      ErasedBlock(t, i, j);
    }
  }

  lemma ErasedBlock(s: seq<ListNode>, i: nat, j: nat)
    requires i <= j <= |s|
    ensures HasBlock(s, i, s[i..j], Without(s, i, j))
    ensures j == i + 1 ==> s[i..j] == [s[i]]
  {
  }

  /** A splice, between two lists or within one, keeps every node. */
  lemma SpliceConserves(op: Op, s: seq<ListNode>, t: seq<ListNode>, s': seq<ListNode>, t': seq<ListNode>)
    requires Legal(op, |s|, |t|) && Stepped(op, s, t, s', t') && (op.SpliceAll? || op.SpliceOne? || op.SpliceRange?)
    ensures multiset(s') + multiset(t') == multiset(s) + multiset(t) && |s'| + |t'| == |s| + |t|
  {
    match op
    case SpliceAll(p) => InsertedNodes(s, p, t);
    case SpliceOne(p, same, i) => SplicedNodes(s, p, same, t, i, i + 1);
    case SpliceRange(p, same, i, j) => SplicedNodes(s, p, same, t, i, j);
  }

  lemma SplicedNodes(s: seq<ListNode>, p: nat, same: bool, t: seq<ListNode>, i: nat, j: nat)
    requires p <= |s| && i <= j <= (if same then |s| else |t|) && (same ==> !(i < p < j))
    ensures same ==> multiset(Moved(s, p, i, j)) == multiset(s) && |Moved(s, p, i, j)| == |s|
    ensures !same ==> multiset(InsertAll(s, p, t[i..j])) + multiset(Without(t, i, j)) == multiset(s) + multiset(t)
    ensures !same ==> |InsertAll(s, p, t[i..j])| + |Without(t, i, j)| == |s| + |t|
  {
    if same {
      if p <= i {
        SwappedNodes(s, p, i, j);
      } else {
        SwappedNodes(s, i, j, p);
      }
    } else {
      InsertedNodes(s, p, t[i..j]);
      assert t == t[..i] + t[i..j] + t[j..];
    }
  }

  lemma InsertedNodes(s: seq<ListNode>, p: nat, t: seq<ListNode>)
    requires p <= |s|
    ensures multiset(InsertAll(s, p, t)) == multiset(s) + multiset(t)
  {
    assert s == s[..p] + s[p..];
  }

  lemma SwappedNodes(s: seq<ListNode>, a: nat, b: nat, c: nat)
    requires a <= b <= c <= |s|
    ensures multiset(SwapBlocks(s, a, b, c)) == multiset(s) && |SwapBlocks(s, a, b, c)| == |s|
  {
    assert s == s[..a] + s[a..b] + s[b..c] + s[c..];
  }

  // ----- the elements are the ring without its sentinel -----

  lemma TailInsert(r: seq<ListNode>, p: nat, x: seq<ListNode>)
    requires p < |r|
    ensures InsertAll(r, p + 1, x)[1..] == InsertAll(r[1..], p, x)
  {
  }

  lemma TailWithout(r: seq<ListNode>, i: nat, j: nat)
    requires i <= j < |r|
    ensures Without(r, i + 1, j + 1)[1..] == Without(r[1..], i, j)
  {
  }

  lemma TailSlice(r: seq<ListNode>, i: nat, j: nat)
    requires i <= j < |r|
    ensures r[i + 1..j + 1] == r[1..][i..j]
  {
    var x, y := r[i + 1..j + 1], r[1..][i..j];
    assert forall k :: 0 <= k < j - i ==> x[k] == r[i + 1 + k] == y[k];
  }

  lemma TailSwap(r: seq<ListNode>, a: nat, b: nat, c: nat)
    requires a <= b <= c < |r|
    ensures SwapBlocks(r, a + 1, b + 1, c + 1)[1..] == SwapBlocks(r[1..], a, b, c)
  {
    hide SwapBlocks;
    SwappedAt(r, a + 1, b + 1, c + 1);
    SwappedAt(r[1..], a, b, c);
  }

  lemma NothingMoved(s: seq<ListNode>, i: nat, j: nat)
    requires i <= j <= |s|
    ensures SwapBlocks(s, i, i, j) == s && SwapBlocks(s, i, j, j) == s
  {
  }

  // begin() + p
  method IteratorAt(l: List, p: nat) returns (n: ListNode)
    requires l.Valid() && p < |l.ring|
    ensures n == At(l.ring, p + 1)
  {
    n := l.node.next;
    for k := 0 to p
      invariant n == At(l.ring, k + 1)
    {
      n := n.next;
    }
  }

  ghost predicate Both(a: List, b: List)
    reads a, b, a.ring, b.ring
  {
    a != b && a.Valid() && b.Valid() && Nodes(a.ring) !! Nodes(b.ring)
  }

  ghost function Nodes(r: seq<ListNode>): set<ListNode> {
    set n | n in r
  }

  lemma ApartNodes(r: seq<ListNode>, q: seq<ListNode>)
    ensures Apart(r, q) <==> Nodes(r) !! Nodes(q)
  {
    if Apart(r, q) {
      forall n | n in Nodes(r)
        ensures n !in Nodes(q)
      {
        var i :| 0 <= i < |r| && r[i] == n;
      }
    } else {
      var i, j :| 0 <= i < |r| && 0 <= j < |q| && r[i] == q[j];
      assert r[i] in Nodes(r) && q[j] in Nodes(q);
    }
  }

  method DoInsert(a: List, b: List, p: nat, val: Value)
    requires Both(a, b) && p <= |a.Elements()|
    modifies a, a.ring
    ensures Both(a, b) && fresh(Nodes(a.ring) - old(Nodes(a.ring))) && b.ring == old(b.ring)
    ensures Stepped(Insert(p, val), old(a.Elements()), old(b.Elements()), a.Elements(), b.Elements())
  {
    hide Ring, InsertAll;
    ghost var r := a.ring;
    ApartNodes(r, b.ring);
    var position := IteratorAt(a, p);
    var n := a.Insert(position, val, p + 1);
    TailInsert(r, p, [n]);
    InsertedPlaces(r, p + 1, n);
    InsertedPlaces(r[1..], p, n);
  }

  lemma InsertedPlaces(r: seq<ListNode>, p: nat, n: ListNode)
    requires p <= |r|
    ensures |InsertAll(r, p, [n])| == |r| + 1 && InsertAll(r, p, [n])[p] == n
    ensures Nodes(InsertAll(r, p, [n])) == Nodes(r) + {n}
  {
    var x := InsertAll(r, p, [n]);
    assert forall k {:trigger r[k]} :: 0 <= k < |r| ==> r[k] == x[if k < p then k else k + 1];
  }

  method DoErase(a: List, b: List, p: nat)
    requires Both(a, b) && p < |a.Elements()|
    modifies a, a.ring
    ensures Both(a, b) && Nodes(a.ring) <= old(Nodes(a.ring)) && b.ring == old(b.ring)
    ensures Stepped(Erase(p), old(a.Elements()), old(b.Elements()), a.Elements(), b.Elements())
  {
    hide Ring;
    ghost var r := a.ring;
    ApartNodes(r, b.ring);
    var position := IteratorAt(a, p);
    var n := a.Erase(position, p + 1);
    TailWithout(r, p, p + 1);
  }

  method DoSpliceAll(a: List, b: List, p: nat)
    requires Both(a, b) && p <= |a.Elements()|
    modifies a, b, a.ring, b.ring
    ensures Both(a, b) && Nodes(a.ring) + Nodes(b.ring) == old(Nodes(a.ring) + Nodes(b.ring))
    ensures Stepped(SpliceAll(p), old(a.Elements()), old(b.Elements()), a.Elements(), b.Elements())
  {
    hide Ring, InsertAll, Apart;
    ghost var r, q := a.ring, b.ring;
    ApartNodes(r, q);
    var position := IteratorAt(a, p);
    MovedNodes(r, p + 1, q, 1, |q|);
    a.SpliceAll(position, b, p + 1);
    TailInsert(r, p, q[1..]);
    assert q[1..|q|] == q[1..] && Without(q, 1, |q|) == [q[0]];
    assert b.ring == [b.ring[0]] + b.Elements();
  }

  lemma MovedNodes(r: seq<ListNode>, p: nat, q: seq<ListNode>, i: nat, j: nat)
    requires Ring(r) && Ring(q) && Nodes(r) !! Nodes(q) && p <= |r| && i <= j <= |q|
    ensures Nodes(InsertAll(r, p, q[i..j])) + Nodes(Without(q, i, j)) == Nodes(r) + Nodes(q)
    ensures Nodes(InsertAll(r, p, q[i..j])) !! Nodes(Without(q, i, j))
  {
    ApartNodes(r, q);
    DistinctMoved(r, p, q, i, j);
    ApartNodes(InsertAll(r, p, q[i..j]), Without(q, i, j));
    assert r == r[..p] + r[p..] && q == q[..i] + q[i..j] + q[j..];
  }

  method DoSpliceRange(a: List, b: List, p: nat, i: nat, j: nat)
    requires Both(a, b) && p <= |a.Elements()| && i <= j <= |b.Elements()|
    modifies a, b, a.ring, b.ring
    ensures Both(a, b) && Nodes(a.ring) + Nodes(b.ring) == old(Nodes(a.ring) + Nodes(b.ring))
    ensures Stepped(SpliceRange(p, false, i, j), old(a.Elements()), old(b.Elements()), a.Elements(), b.Elements())
  {
    hide Ring, InsertAll, Without, Apart;
    ghost var r, q := a.ring, b.ring;
    ApartNodes(r, q);
    MovedNodes(r, p + 1, q, i + 1, j + 1);
    var position := IteratorAt(a, p);
    var first := IteratorAt(b, i);
    var last := IteratorAt(b, j);
    a.SpliceRange(position, b, first, last, p + 1, i + 1, j + 1);
    TailMove(r, p, q, i, j);
  }

  lemma TailMove(r: seq<ListNode>, p: nat, q: seq<ListNode>, i: nat, j: nat)
    requires p < |r| && i <= j < |q|
    ensures InsertAll(r, p + 1, q[i + 1..j + 1])[1..] == InsertAll(r[1..], p, q[1..][i..j])
    ensures Without(q, i + 1, j + 1)[1..] == Without(q[1..], i, j)
  {
    TailInsert(r, p, q[i + 1..j + 1]);
    TailSlice(q, i, j);
    TailWithout(q, i, j);
  }

  method DoSpliceOne(a: List, b: List, p: nat, i: nat)
    requires Both(a, b) && p <= |a.Elements()| && i < |b.Elements()|
    modifies a, b, a.ring, b.ring
    ensures Both(a, b) && Nodes(a.ring) + Nodes(b.ring) == old(Nodes(a.ring) + Nodes(b.ring))
    ensures Stepped(SpliceOne(p, false, i), old(a.Elements()), old(b.Elements()), a.Elements(), b.Elements())
  {
    hide Ring, InsertAll, Without, Apart;
    ghost var r, q := a.ring, b.ring;
    ApartNodes(r, q);
    MovedNodes(r, p + 1, q, i + 1, i + 2);
    var position := IteratorAt(a, p);
    var at := IteratorAt(b, i);
    a.SpliceOne(position, b, at, p + 1, i + 1);
    TailMove(r, p, q, i, i + 1);
  }

  lemma TailMoved(r: seq<ListNode>, p: nat, i: nat, j: nat)
    requires p < |r| && i <= j < |r| && !(i < p < j)
    ensures Moved(r, p + 1, i + 1, j + 1)[1..] == Moved(r[1..], p, i, j)
    ensures Nodes(Moved(r, p + 1, i + 1, j + 1)) == Nodes(r)
  {
    hide SwapBlocks;
    if p <= i {
      TailSwap(r, p, i, j);
      SwappedSet(r, p + 1, i + 1, j + 1);
    } else {
      TailSwap(r, i, j, p);
      SwappedSet(r, i + 1, j + 1, p + 1);
    }
  }

  lemma SwappedSet(r: seq<ListNode>, a: nat, b: nat, c: nat)
    requires a <= b <= c <= |r|
    ensures Nodes(SwapBlocks(r, a, b, c)) == Nodes(r)
  {
    assert r == r[..a] + r[a..b] + r[b..c] + r[c..];
  }

  method DoMoveRange(a: List, b: List, p: nat, i: nat, j: nat)
    requires Both(a, b) && p <= |a.Elements()| && i <= j <= |a.Elements()| && !(i <= p < j)
    modifies a, a.ring
    ensures Both(a, b) && Nodes(a.ring) == old(Nodes(a.ring)) && b.ring == old(b.ring)
    ensures Stepped(SpliceRange(p, true, i, j), old(a.Elements()), old(b.Elements()), a.Elements(), b.Elements())
  {
    hide Ring, InsertAll, SwapBlocks;
    ghost var r := a.ring;
    ApartNodes(r, b.ring);
    var position := IteratorAt(a, p);
    var first := IteratorAt(a, i);
    var last := IteratorAt(a, j);
    a.SpliceRange(position, a, first, last, p + 1, i + 1, j + 1);
    TailMoved(r, p, i, j);
  }

  method DoMoveOne(a: List, b: List, p: nat, i: nat)
    requires Both(a, b) && p <= |a.Elements()| && i < |a.Elements()|
    modifies a, a.ring
    ensures Both(a, b) && Nodes(a.ring) == old(Nodes(a.ring)) && b.ring == old(b.ring)
    ensures Stepped(SpliceOne(p, true, i), old(a.Elements()), old(b.Elements()), a.Elements(), b.Elements())
  {
    hide Ring, InsertAll, SwapBlocks;
    ghost var r := a.ring;
    ApartNodes(r, b.ring);
    var position := IteratorAt(a, p);
    var at := IteratorAt(a, i);
    a.SpliceOne(position, a, at, p + 1, i + 1);
    TailMoved(r, p, i, i + 1);
    if p == i {
      NothingMoved(r, p + 1, i + 2);
    }
  }

  lemma TakenNodes(n: ListNode, q: seq<ListNode>)
    requires q != [] && Distinct(q) && n !in q
    ensures Nodes([n] + q[1..]) !! Nodes([q[0]]) && Nodes([n] + q[1..]) + Nodes([q[0]]) == Nodes(q) + {n}
  {
    assert q == [q[0]] + q[1..];
    assert forall k :: 1 <= k < |q| ==> q[0] != q[k];
  }

  method DoMoveAssign(a: List, b: List)
    requires Both(a, b)
    modifies a, b, a.node, b.ring
    ensures Both(a, b) && Nodes(a.ring) + Nodes(b.ring) <= old(Nodes(a.ring) + Nodes(b.ring))
    ensures Stepped(MoveAssign, old(a.Elements()), old(b.Elements()), a.Elements(), b.Elements())
  {
    ghost var r, q := a.ring, b.ring;
    assert a.node in Nodes(r);
    TakenNodes(a.node, q);
    hide Ring;
    a.MoveAssign(b);
    assert a.ring == [a.node] + q[1..] && b.ring == [q[0]];
  }

  // op on a, with b as the other list.
  method Do(a: List, b: List, op: Op)
    requires Both(a, b) && Legal(op, |a.Elements()|, |b.Elements()|)
    modifies a, b, a.ring, b.ring
    ensures Both(a, b) && fresh(Nodes(a.ring) + Nodes(b.ring) - old(Nodes(a.ring) + Nodes(b.ring)))
    ensures Stepped(op, old(a.Elements()), old(b.Elements()), a.Elements(), b.Elements())
  {
    hide Ring, InsertAll, Without, SwapBlocks, Nodes, Stepped;
    match op
    case Insert(p, v) => DoInsert(a, b, p, v);
    case Erase(p) => DoErase(a, b, p);
    case SpliceAll(p) => DoSpliceAll(a, b, p);
    case SpliceOne(p, same, i) =>
      if same {
        DoMoveOne(a, b, p, i);
      } else {
        DoSpliceOne(a, b, p, i);
      }
    case SpliceRange(p, same, i, j) =>
      if same {
        DoMoveRange(a, b, p, i, j);
      } else {
        DoSpliceRange(a, b, p, i, j);
      }
    case MoveAssign => DoMoveAssign(a, b);
  }

  // The elements of the two lists.
  datatype State = State(s: seq<ListNode>, t: seq<ListNode>)

  ghost predicate Next(op: Op, flip: bool, x: State, y: State) {
    if flip then Legal(op, |x.t|, |x.s|) && Stepped(op, x.t, x.s, y.t, y.s)
        else Legal(op, |x.s|, |x.t|) && Stepped(op, x.s, x.t, y.s, y.t)
  }

  lemma OnlySentinel(l: List)
    requires l.Valid() && l.Elements() == []
    ensures Nodes(l.ring) == {l.node}
  {
    assert l.ring == [l.node];
  }

  // The stored sizes of the list asked and of the other one.
  function Asked(flip: bool, sizes: (nat, nat)): nat {
    if flip then sizes.1 else sizes.0
  }

  function Other(flip: bool, sizes: (nat, nat)): nat {
    if flip then sizes.0 else sizes.1
  }

  // Step k of a run; an operation that is not legal where it comes is passed over.
  ghost predicate RanStep(op: Op, flip: bool, sizes: (nat, nat), x: State, y: State) {
    if Legal(op, Asked(flip, sizes), Other(flip, sizes)) then Next(op, flip, x, y) else y == x
  }

  ghost predicate Ran(ops: seq<(Op, bool)>, trace: seq<State>, sizes: seq<(nat, nat)>) {
    && |trace| == |sizes| == |ops| + 1 && trace[0] == State([], [])
    && (forall k :: 0 <= k <= |ops| ==> sizes[k] == (|trace[k].s|, |trace[k].t|))
    && (forall k {:trigger ops[k]} :: 0 <= k < |ops| ==> RanStep(ops[k].0, ops[k].1, sizes[k], trace[k], trace[k + 1]))
  }

  /** Any run on two new lists, in which either may be the one asked: both end as well-formed rings that
      share no node, each step does to the elements what Stepped says, and the stored sizes are the
      numbers of elements. */
  method Run(ops: seq<(Op, bool)>) returns (a: List, b: List, ghost trace: seq<State>, sizes: seq<(nat, nat)>)
    ensures Both(a, b) && fresh(a) && fresh(b)
    ensures Ran(ops, trace, sizes) && trace[|ops|] == State(a.Elements(), b.Elements())
  {
    hide Ring, Stepped, Legal;
    a := new List();
    b := new List();
    trace, sizes := [State([], [])], [(0, 0)];
    OnlySentinel(a);
    OnlySentinel(b);
    for k := 0 to |ops|
      invariant fresh(a) && fresh(b) && Both(a, b) && fresh(Nodes(a.ring) + Nodes(b.ring))
      invariant |trace| == |sizes| == k + 1 && trace[k] == State(a.Elements(), b.Elements())
      invariant Ran(ops[..k], trace, sizes)
    {
      var (op, flip) := ops[k];
      if Legal(op, if flip then b.size else a.size, if flip then a.size else b.size) {
        if flip {
          Do(b, a, op);
        } else {
          Do(a, b, op);
        }
      }
      ExtendRun(ops, k, trace, sizes, State(a.Elements(), b.Elements()), (a.size, b.size));
      trace, sizes := trace + [State(a.Elements(), b.Elements())], sizes + [(a.size, b.size)];
    }
    assert ops[..|ops|] == ops;
  }

  lemma ExtendRun(ops: seq<(Op, bool)>, k: nat, trace: seq<State>, sizes: seq<(nat, nat)>, y: State, size: (nat, nat))
    requires k < |ops| && Ran(ops[..k], trace, sizes) && size == (|y.s|, |y.t|)
    requires RanStep(ops[k].0, ops[k].1, sizes[k], trace[k], y)
    ensures Ran(ops[..k + 1], trace + [y], sizes + [size])
  {
    hide RanStep;
    var o, t, z := ops[..k + 1], trace + [y], sizes + [size];
    forall m {:trigger o[m]} | 0 <= m < |o|
      ensures RanStep(o[m].0, o[m].1, z[m], t[m], t[m + 1])
    {
      if m < k {
        assert o[m] == ops[..k][m];
      }
    }
  }

  // How many nodes a legal operation on a list of n elements adds to the two lists.
  function Gain(op: Op, n: nat): int {
    match op
    case Insert(_, _) => 1
    case Erase(_) => -1
    case MoveAssign => 0 - n
    case _ => 0
  }

  function Balance(ops: seq<(Op, bool)>, sizes: seq<(nat, nat)>, k: nat): int
    requires k <= |ops| && |sizes| == |ops| + 1
  {
    if k == 0 then 0 else
      var (op, flip) := ops[k - 1];
      var n, m := Asked(flip, sizes[k - 1]), Other(flip, sizes[k - 1]);
      Balance(ops, sizes, k - 1) + if Legal(op, n, m) then Gain(op, n) else 0
  }

  /** The stored sizes balance: the nodes in the two lists are those inserted, less those erased
      and those a move assignment freed; splices and moves neither make nor lose any. */
  lemma {:induction false} RunBalance(ops: seq<(Op, bool)>, trace: seq<State>, sizes: seq<(nat, nat)>, k: nat)
    requires Ran(ops, trace, sizes) && k <= |ops|
    ensures sizes[k].0 + sizes[k].1 == Balance(ops, sizes, k)
  {
    if k > 0 {
      RunBalance(ops, trace, sizes, k - 1);
      var (op, flip) := ops[k - 1];
      var x, y := trace[k - 1], trace[k];
      assert RanStep(op, flip, sizes[k - 1], x, y);
      hide Ran;
      if Legal(op, Asked(flip, sizes[k - 1]), Other(flip, sizes[k - 1])) {
        if flip {
          StepGain(op, x.t, x.s, y.t, y.s);
        } else {
          StepGain(op, x.s, x.t, y.s, y.t);
        }
      }
    }
  }

  lemma StepGain(op: Op, s: seq<ListNode>, t: seq<ListNode>, s': seq<ListNode>, t': seq<ListNode>)
    requires Legal(op, |s|, |t|) && Stepped(op, s, t, s', t')
    ensures |s'| + |t'| == |s| + |t| + Gain(op, |s|)
  {
    if op.SpliceAll? || op.SpliceOne? || op.SpliceRange? {
      SpliceConserves(op, s, t, s', t');
    }
  }
}
