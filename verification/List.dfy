// The list: a circular, doubly linked ring of nodes through a sentinel, and a stored size.
module List {

  type Value(0)

  class ListNode {
    const val: Value
    var next: ListNode
    var prev: ListNode

    constructor Sentinel()
      ensures next == this && prev == this
    {
      next := this;
      prev := this;
    }

    constructor (val: Value)
      ensures this.val == val
    {
      this.val := val;
      next := this;
      prev := this;
    }
  }

  ghost predicate Distinct(r: seq<ListNode>) {
    forall i, j :: 0 <= i < j < |r| ==> r[i] != r[j]
  }

  ghost predicate Apart(r: seq<ListNode>, q: seq<ListNode>) {
    forall i, j :: 0 <= i < |r| && 0 <= j < |q| ==> r[i] != q[j]
  }

  // The node after place i of the ring, which closes at its end.
  ghost function At(r: seq<ListNode>, i: nat): ListNode
    requires r != [] && i <= |r|
  {
    if i < |r| then r[i] else r[0]
  }

  ghost function Before(r: seq<ListNode>, i: nat): ListNode
    requires i < |r|
  {
    r[if i == 0 then |r| - 1 else i - 1]
  }

  /** Following next around the ring visits r in order, and prev undoes next. */
  ghost predicate Ring(r: seq<ListNode>)
    reads r
  {
    && r != [] && Distinct(r)
    && (forall i {:trigger r[i].next} :: 0 <= i < |r| ==> r[i].next == At(r, i + 1))
    && (forall i {:trigger r[i].prev} :: 0 <= i < |r| ==> r[i].prev == Before(r, i))
  }

  /** From every node one can go round: its neighbours are in the ring and point back to it. */
  lemma RingUndoes(r: seq<ListNode>, n: ListNode)
    requires Ring(r) && n in r
    ensures n.next in r && n.prev in r && n.next.prev == n && n.prev.next == n
  {
    var i :| 0 <= i < |r| && r[i] == n;
    var j, k := if i + 1 < |r| then i + 1 else 0, if i == 0 then |r| - 1 else i - 1;
    assert r[j] == n.next && r[k] == n.prev;
    assert Before(r, j) == r[i] && At(r, k + 1) == r[i];
  }

  ghost function InsertAll(r: seq<ListNode>, p: nat, s: seq<ListNode>): seq<ListNode>
    requires p <= |r|
  {
    r[..p] + s + r[p..]
  }

  ghost function Without(r: seq<ListNode>, i: nat, j: nat): seq<ListNode>
    requires i <= j <= |r|
  {
    r[..i] + r[j..]
  }

  // Each place of the two rings together, after the block q[i..j] has moved before place p of r.
  lemma MovedAt(r: seq<ListNode>, p: nat, q: seq<ListNode>, i: nat, j: nat)
    requires p <= |r| && i <= j <= |q|
    ensures var x, y := InsertAll(r, p, q[i..j]), Without(q, i, j);
            && |x| == |r| + (j - i) && |y| == |q| - (j - i)
            && (forall a {:trigger x[a]} :: 0 <= a < |x| ==> x[a] == (r + q)[Origin(|r|, p, i, j, a)])
            && (forall a {:trigger y[a]} :: 0 <= a < |y| ==> y[a] == (r + q)[Origin(|r|, p, i, j, |x| + a)])
  {
  }

  lemma DistinctBoth(r: seq<ListNode>, q: seq<ListNode>)
    requires Distinct(r) && Distinct(q) && Apart(r, q)
    ensures Distinct(r + q)
  {
  }

  // Places that come from different places hold different nodes.
  lemma MovedApart(r: seq<ListNode>, p: nat, q: seq<ListNode>, i: nat, j: nat, a: nat, b: nat)
    requires Distinct(r + q) && p <= |r| && i <= j <= |q| && a < b < |r| + |q|
    ensures 0 <= Origin(|r|, p, i, j, a) < |r + q| && 0 <= Origin(|r|, p, i, j, b) < |r + q|
    ensures (r + q)[Origin(|r|, p, i, j, a)] != (r + q)[Origin(|r|, p, i, j, b)]
  {
    var s, k, m := r + q, Origin(|r|, p, i, j, a), Origin(|r|, p, i, j, b);
    if k < m {
      assert s[k] != s[m];
    } else {
      assert s[m] != s[k];
    }
  }

  lemma DistinctMoved(r: seq<ListNode>, p: nat, q: seq<ListNode>, i: nat, j: nat)
    requires Distinct(r) && Distinct(q) && Apart(r, q) && p <= |r| && i <= j <= |q|
    ensures Distinct(InsertAll(r, p, q[i..j])) && Distinct(Without(q, i, j))
    ensures Apart(InsertAll(r, p, q[i..j]), Without(q, i, j))
  {
    hide InsertAll, Without, Origin;
    DistinctBoth(r, q);
    MovedAt(r, p, q, i, j);
    var x, y := InsertAll(r, p, q[i..j]), Without(q, i, j);
    forall a, b | 0 <= a < b < |x|
      ensures x[a] != x[b]
    {
      MovedApart(r, p, q, i, j, a, b);
    }
    forall a, b | 0 <= a < b < |y|
      ensures y[a] != y[b]
    {
      MovedApart(r, p, q, i, j, |x| + a, |x| + b);
    }
    forall a, b | 0 <= a < |x| && 0 <= b < |y|
      ensures x[a] != y[b]
    {
      MovedApart(r, p, q, i, j, a, |x| + b);
    }
  }

  // Where the a-th node came from.
  function Origin(n: nat, p: nat, i: nat, j: nat, a: nat): int
    requires i <= j && p <= n
  {
    if a < p then a
    else if a < p + (j - i) then n + i + (a - p)
    else if a < n + (j - i) then a - (j - i)
    else if a < n + j then a - (j - i)
    else a
  }

  // The links after the block q[i..j] has moved before place p of r.
  ghost predicate MovedNext(r: seq<ListNode>, p: nat, q: seq<ListNode>, i: nat, j: nat)
    requires 1 <= p <= |r| && 1 <= i < j <= |q|
    reads r, q
  {
    && (forall k {:trigger r[k].next} :: 0 <= k < |r| ==> r[k].next == if k == p - 1 then q[i] else At(r, k + 1))
    && (forall k {:trigger q[k].next} :: 0 <= k < |q| ==>
          q[k].next == if k == j - 1 then At(r, p) else if k == i - 1 then At(q, j) else At(q, k + 1))
  }

  ghost predicate MovedPrev(r: seq<ListNode>, p: nat, q: seq<ListNode>, i: nat, j: nat)
    requires 1 <= p <= |r| && 1 <= i < j <= |q|
    reads r, q
  {
    && (forall k {:trigger r[k].prev} :: 0 <= k < |r| ==>
          r[k].prev == if r[k] == At(r, p) then q[j - 1] else Before(r, k))
    && (forall k {:trigger q[k].prev} :: 0 <= k < |q| ==>
          q[k].prev == if k == i then r[p - 1] else if q[k] == At(q, j) then q[i - 1] else Before(q, k))
  }

  lemma InsertedAt(r: seq<ListNode>, p: nat, q: seq<ListNode>, i: nat, j: nat)
    requires p <= |r| && i <= j <= |q|
    ensures var r', m := InsertAll(r, p, q[i..j]), j - i;
            && |r'| == |r| + m
            && forall k {:trigger r'[k]} :: 0 <= k < |r'| ==>
                 r'[k] == if k < p then r[k] else if k < p + m then q[i + k - p] else r[k - m]
  {
  }

  lemma WithoutAt(q: seq<ListNode>, i: nat, j: nat)
    requires i <= j <= |q|
    ensures var q', m := Without(q, i, j), j - i;
            |q'| == |q| - m && forall k {:trigger q'[k]} :: 0 <= k < |q'| ==> q'[k] == if k < i then q[k] else q[k + m]
  {
  }

  lemma MovedInto(r: seq<ListNode>, p: nat, q: seq<ListNode>, i: nat, j: nat)
    requires Distinct(r) && Distinct(q) && Apart(r, q) && 1 <= p <= |r| && 1 <= i < j <= |q|
    requires MovedNext(r, p, q, i, j) && MovedPrev(r, p, q, i, j)
    ensures Ring(InsertAll(r, p, q[i..j]))
  {
    hide InsertAll;
    DistinctMoved(r, p, q, i, j);
    InsertedAt(r, p, q, i, j);
    SamePlaces(r, p);
  }

  lemma MovedOut(r: seq<ListNode>, p: nat, q: seq<ListNode>, i: nat, j: nat)
    requires Distinct(r) && Distinct(q) && Apart(r, q) && 1 <= p <= |r| && 1 <= i < j <= |q|
    requires MovedNext(r, p, q, i, j) && MovedPrev(r, p, q, i, j)
    ensures Ring(Without(q, i, j))
  {
    hide Without;
    DistinctMoved(r, p, q, i, j);
    WithoutAt(q, i, j);
    SamePlaces(q, j);
  }

  // What the assignments of a relinking do to the next and to the prev links of r.
  twostate predicate RelinkedNext(r: seq<ListNode>, position: ListNode, first: ListNode, last: ListNode)
    reads r
  {
    forall k {:trigger r[k].next} :: 0 <= k < |r| ==>
      r[k].next == if r[k] == old(last.prev) then position else if r[k] == old(first.prev) then last
                   else if r[k] == old(position.prev) then first else old(r[k].next)
  }

  twostate predicate RelinkedPrev(r: seq<ListNode>, position: ListNode, first: ListNode, last: ListNode)
    reads r
  {
    forall k {:trigger r[k].prev} :: 0 <= k < |r| ==>
      r[k].prev == if r[k] == position then old(last.prev) else if r[k] == last then old(first.prev)
                   else if r[k] == first then old(position.prev) else old(r[k].prev)
  }

  twostate predicate Relinked(r: seq<ListNode>, position: ListNode, first: ListNode, last: ListNode)
    reads r
  {
    RelinkedNext(r, position, first, last) && RelinkedPrev(r, position, first, last)
  }

  // All that a relinking asks of its nodes.
  ghost predicate Relinkable(position: ListNode, first: ListNode, last: ListNode, r: seq<ListNode>, q: seq<ListNode>)
    reads position, first, last
  {
    && position != first && position != last && first != last
    && position.prev != first.prev && position.prev != last.prev && first.prev != last.prev
    && position in r && position.prev in r
    && (first in r || first in q) && (last in r || last in q)
    && (first.prev in r || first.prev in q) && (last.prev in r || last.prev in q)
  }

  method RelinkNext(position: ListNode, first: ListNode, last: ListNode, ghost r: seq<ListNode>, ghost q: seq<ListNode>)
    requires Relinkable(position, first, last, r, q)
    modifies r`next, q`next
    ensures RelinkedNext(r, position, first, last) && RelinkedNext(q, position, first, last)
  {
    last.prev.next := position;
    first.prev.next := last;
    position.prev.next := first;
  }

  method RelinkPrev(position: ListNode, first: ListNode, last: ListNode, ghost r: seq<ListNode>, ghost q: seq<ListNode>)
    requires Relinkable(position, first, last, r, q)
    modifies r`prev, q`prev
    ensures RelinkedPrev(r, position, first, last) && RelinkedPrev(q, position, first, last)
  {
    var tmp := position.prev;
    position.prev := last.prev;
    last.prev := first.prev;
    first.prev := tmp;
  }

  // The nodes [first, last) go before position.
  method Relink(position: ListNode, first: ListNode, last: ListNode, ghost r: seq<ListNode>, ghost q: seq<ListNode>)
    requires Relinkable(position, first, last, r, q)
    modifies r, q
    ensures Relinked(r, position, first, last) && Relinked(q, position, first, last)
  {
    RelinkNext(position, first, last, r, q);
    RelinkPrev(position, first, last, r, q);
  }

  // The nodes [first, last) of another ring move before position.
  method Transfer(position: ListNode, first: ListNode, last: ListNode,
                  ghost r: seq<ListNode>, ghost p: nat, ghost q: seq<ListNode>, ghost i: nat, ghost j: nat)
    requires Ring(r) && Ring(q) && Apart(r, q)
    requires 1 <= p <= |r| && position == At(r, p)
    requires 1 <= i < j <= |q| && first == q[i] && last == At(q, j)
    modifies r, q
    ensures Ring(InsertAll(r, p, q[i..j])) && Ring(Without(q, i, j))
  {
    Relink(position, first, last, r, q);
    assert MovedNext(r, p, q, i, j);
    assert MovedPrev(r, p, q, i, j);
    hide MovedNext, MovedPrev, Ring, Distinct, Apart;
    MovedInto(r, p, q, i, j);
    MovedOut(r, p, q, i, j);
  }

  // The blocks r[a..b] and r[b..c] change places.
  ghost function SwapBlocks(r: seq<ListNode>, a: nat, b: nat, c: nat): seq<ListNode>
    requires a <= b <= c <= |r|
  {
    r[..a] + r[b..c] + r[a..b] + r[c..]
  }

  ghost predicate SwappedLinks(r: seq<ListNode>, a: nat, b: nat, c: nat)
    requires 1 <= a < b < c <= |r|
    reads r
  {
    && (forall k {:trigger r[k].next} :: 0 <= k < |r| ==>
          r[k].next == if k == a - 1 then r[b] else if k == c - 1 then r[a] else if k == b - 1 then At(r, c)
                       else At(r, k + 1))
    && (forall k {:trigger r[k].prev} :: 0 <= k < |r| ==>
          r[k].prev == if k == b then r[a - 1] else if k == a then r[c - 1] else if r[k] == At(r, c) then r[b - 1]
                       else Before(r, k))
  }

  lemma SwappedRing(r: seq<ListNode>, a: nat, b: nat, c: nat)
    requires Distinct(r) && 1 <= a < b < c <= |r| && SwappedLinks(r, a, b, c)
    ensures Ring(SwapBlocks(r, a, b, c))
  {
    hide SwapBlocks;
    SwappedAt(r, a, b, c);
    SwappedDistinct(r, a, b, c);
    SwappedNext(r, a, b, c);
    SwappedPrev(r, a, b, c);
  }

  lemma SwappedNext(r: seq<ListNode>, a: nat, b: nat, c: nat)
    requires 1 <= a < b < c <= |r| && SwappedLinks(r, a, b, c)
    ensures var r' := SwapBlocks(r, a, b, c);
            |r'| == |r| && forall k {:trigger r'[k].next} :: 0 <= k < |r'| ==> r'[k].next == At(r', k + 1)
  {
    hide SwapBlocks;
    SwappedAt(r, a, b, c);
  }

  lemma SwappedPrev(r: seq<ListNode>, a: nat, b: nat, c: nat)
    requires Distinct(r) && 1 <= a < b < c <= |r| && SwappedLinks(r, a, b, c)
    ensures var r' := SwapBlocks(r, a, b, c);
            |r'| == |r| && forall k {:trigger r'[k].prev} :: 0 <= k < |r'| ==> r'[k].prev == Before(r', k)
  {
    hide SwapBlocks;
    SwappedAt(r, a, b, c);
  }

  lemma SwappedDistinct(r: seq<ListNode>, a: nat, b: nat, c: nat)
    requires Distinct(r) && a <= b <= c <= |r|
    ensures Distinct(SwapBlocks(r, a, b, c))
  {
    hide SwapBlocks;
    SwappedAt(r, a, b, c);
    var r' := SwapBlocks(r, a, b, c);
    forall x, y | 0 <= x < y < |r'|
      ensures r'[x] != r'[y]
    {
      assert r'[x] == r[SwapOrigin(a, b, c, x)] && r'[y] == r[SwapOrigin(a, b, c, y)];
    }
  }

  function SwapOrigin(a: nat, b: nat, c: nat, k: nat): int
    requires a <= b <= c
  {
    if a <= k < a + c - b then k + b - a else if a + c - b <= k < c then k - (c - b) else k
  }

  lemma SwappedAt(r: seq<ListNode>, a: nat, b: nat, c: nat)
    requires a <= b <= c <= |r|
    ensures |SwapBlocks(r, a, b, c)| == |r|
    ensures forall k {:trigger SwapBlocks(r, a, b, c)[k]} :: 0 <= k < |r| ==>
              SwapBlocks(r, a, b, c)[k] == r[SwapOrigin(a, b, c, k)]
  {
  }

  // The links after the block r[i..j] has moved before place p of its own ring.
  ghost predicate WithinNext(r: seq<ListNode>, p: nat, i: nat, j: nat)
    requires 1 <= i < j <= |r| && 1 <= p <= |r|
    reads r
  {
    forall k {:trigger r[k].next} :: 0 <= k < |r| ==>
      r[k].next == if k == p - 1 then r[i] else if k == i - 1 then At(r, j) else if k == j - 1 then At(r, p)
                   else At(r, k + 1)
  }

  ghost predicate WithinPrev(r: seq<ListNode>, p: nat, i: nat, j: nat)
    requires 1 <= i < j <= |r| && 1 <= p <= |r|
    reads r
  {
    forall k {:trigger r[k].prev} :: 0 <= k < |r| ==>
      r[k].prev == if k == i then r[p - 1] else if r[k] == At(r, j) then r[i - 1] else if r[k] == At(r, p) then r[j - 1]
                   else Before(r, k)
  }

  lemma WithinRing(r: seq<ListNode>, p: nat, i: nat, j: nat)
    requires Distinct(r) && 1 <= i < j <= |r| && 1 <= p <= |r| && (p < i || j < p)
    requires WithinNext(r, p, i, j) && WithinPrev(r, p, i, j)
    ensures Ring(if p < i then SwapBlocks(r, p, i, j) else SwapBlocks(r, i, j, p))
  {
    hide SwapBlocks;
    if p < i {
      SwappedRing(r, p, i, j);
    } else {
      SwappedRing(r, i, j, p);
    }
  }

  // The prev links of a ring, whose next links may be on the way.
  ghost predicate PrevRing(r: seq<ListNode>)
    reads r
  {
    r != [] && Distinct(r) && forall k {:trigger r[k].prev} :: 0 <= k < |r| ==> r[k].prev == Before(r, k)
  }

  method RelinkNextWithin(position: ListNode, first: ListNode, last: ListNode, ghost r: seq<ListNode>,
                          ghost p: nat, ghost i: nat, ghost j: nat)
    requires Ring(r) && 1 <= i < j <= |r| && first == r[i] && last == At(r, j)
    requires 1 <= p <= |r| && position == At(r, p) && (p < i || j < p)
    modifies r`next
    ensures WithinNext(r, p, i, j)
  {
    assert last.prev == r[j - 1] && first.prev == r[i - 1] && position.prev == r[p - 1];
    RelinkNext(position, first, last, r, []);
  }

  method RelinkPrevWithin(position: ListNode, first: ListNode, last: ListNode, ghost r: seq<ListNode>,
                          ghost p: nat, ghost i: nat, ghost j: nat)
    requires PrevRing(r) && 1 <= i < j <= |r| && first == r[i] && last == At(r, j)
    requires 1 <= p <= |r| && position == At(r, p) && (p < i || j < p)
    modifies r`prev
    ensures WithinPrev(r, p, i, j)
  {
    assert last.prev == r[j - 1] && first.prev == r[i - 1] && position.prev == r[p - 1];
    RelinkPrev(position, first, last, r, []);
  }

  // The nodes [first, last) move before position in their own ring.
  method TransferWithin(position: ListNode, first: ListNode, last: ListNode, ghost r: seq<ListNode>,
                        ghost p: nat, ghost i: nat, ghost j: nat)
    requires Ring(r) && 1 <= i < j <= |r| && first == r[i] && last == At(r, j)
    requires 1 <= p <= |r| && position == At(r, p) && !(i <= p < j)
    modifies r
    ensures Ring(if p < i then SwapBlocks(r, p, i, j) else SwapBlocks(r, i, j, p))
  {
    hide SwapBlocks;
    if position == last {
      NothingSwapped(r, i, j);
      return;
    }
    RelinkNextWithin(position, first, last, r, p, i, j);
    RelinkPrevWithin(position, first, last, r, p, i, j);
    WithinRing(r, p, i, j);
  }

  lemma NothingSwapped(r: seq<ListNode>, i: nat, j: nat)
    requires i <= j <= |r|
    ensures SwapBlocks(r, i, j, j) == r
  {
  }

  // The links after x has gone in before place p of r.
  ghost predicate HookedLinks(r: seq<ListNode>, p: nat, x: ListNode)
    requires 1 <= p <= |r|
    reads r, x
  {
    && x.next == At(r, p) && x.prev == r[p - 1]
    && (forall k {:trigger r[k].next} :: 0 <= k < |r| ==> r[k].next == if k == p - 1 then x else At(r, k + 1))
    && (forall k {:trigger r[k].prev} :: 0 <= k < |r| ==> r[k].prev == if r[k] == At(r, p) then x else Before(r, k))
  }

  lemma HookedRing(r: seq<ListNode>, p: nat, x: ListNode)
    requires Distinct(r) && x !in r && 1 <= p <= |r| && HookedLinks(r, p, x)
    ensures Ring(InsertAll(r, p, [x]))
  {
    hide InsertAll;
    HookedAt(r, p, x);
    HookedDistinct(r, p, x);
    SamePlaces(r, p);
  }

  lemma HookedAt(r: seq<ListNode>, p: nat, x: ListNode)
    requires p <= |r|
    ensures var r' := InsertAll(r, p, [x]);
            |r'| == |r| + 1 && forall k {:trigger r'[k]} :: 0 <= k < |r'| ==>
              r'[k] == if k < p then r[k] else if k == p then x else r[k - 1]
  {
  }

  lemma HookedDistinct(r: seq<ListNode>, p: nat, x: ListNode)
    requires Distinct(r) && x !in r && p <= |r|
    ensures Distinct(InsertAll(r, p, [x]))
  {
    hide InsertAll;
    HookedAt(r, p, x);
  }

  lemma SamePlaces(r: seq<ListNode>, p: nat)
    requires Distinct(r) && 1 <= p <= |r|
    ensures forall k {:trigger r[k]} :: 0 <= k < |r| ==> (r[k] == At(r, p) <==> k == if p < |r| then p else 0)
  {
  }

  // x goes in before position.
  method Hook(x: ListNode, position: ListNode, ghost r: seq<ListNode>, ghost p: nat)
    requires Ring(r) && x !in r && 1 <= p <= |r| && position == At(r, p)
    modifies r, x
    ensures Ring(InsertAll(r, p, [x]))
  {
    hide InsertAll;
    SamePlaces(r, p);
    x.next := position;
    x.prev := position.prev;
    position.prev.next := x;
    position.prev := x;
    HookedRing(r, p, x);
  }

  // The links after the node at place i of r has been passed over.
  ghost predicate UnhookedLinks(r: seq<ListNode>, i: nat)
    requires 1 <= i < |r|
    reads r
  {
    && (forall k {:trigger r[k].next} :: 0 <= k < |r| ==>
          r[k].next == if k == i - 1 then At(r, i + 1) else At(r, k + 1))
    && (forall k {:trigger r[k].prev} :: 0 <= k < |r| ==>
          r[k].prev == if r[k] == At(r, i + 1) then r[i - 1] else Before(r, k))
  }

  lemma UnhookedRing(r: seq<ListNode>, i: nat)
    requires Distinct(r) && 1 <= i < |r| && UnhookedLinks(r, i)
    ensures Ring(Without(r, i, i + 1))
  {
    SamePlaces(r, i + 1);
    var r' := Without(r, i, i + 1);
    assert forall k {:trigger r'[k]} :: 0 <= k < |r'| ==> r'[k] == if k < i then r[k] else r[k + 1];
  }

  method Unhook(x: ListNode, ghost r: seq<ListNode>, ghost i: nat)
    requires Ring(r) && 1 <= i < |r| && x == r[i]
    modifies r
    ensures Ring(Without(r, i, i + 1))
  {
    hide Without;
    SamePlaces(r, i + 1);
    var n, p := x.next, x.prev;
    p.next := n;
    n.prev := p;
    UnhookedRing(r, i);
  }

  // The number of steps from first to last.
  method Distance(first: ListNode, last: ListNode, ghost r: seq<ListNode>, ghost i: nat, ghost j: nat) returns (n: nat)
    requires Ring(r) && 1 <= i <= j <= |r| && first == At(r, i) && last == At(r, j)
    ensures n == j - i
  {
    n := 0;
    var at := first;
    while at != last
      invariant i + n <= j && at == At(r, i + n)
      decreases j - i - n
    {
      at := at.next;
      n := n + 1;
    }
  }

  lemma SplicedSizes(r: seq<ListNode>, p: nat, q: seq<ListNode>, i: nat, j: nat)
    requires 1 <= i <= j <= |q| && 1 <= p <= |r|
    ensures |InsertAll(r, p, q[i..j])| == |r| + (j - i) && InsertAll(r, p, q[i..j])[0] == r[0]
    ensures |Without(q, i, j)| == |q| - (j - i) && Without(q, i, j)[0] == q[0]
  {
  }

  lemma SwappedSizes(r: seq<ListNode>, a: nat, b: nat, c: nat)
    requires 1 <= a <= b <= c <= |r|
    ensures |SwapBlocks(r, a, b, c)| == |r| && SwapBlocks(r, a, b, c)[0] == r[0]
  {
  }

  lemma SamePlace(r: seq<ListNode>, a: nat, b: nat)
    requires Ring(r) && 1 <= a <= |r| && 1 <= b <= |r|
    ensures At(r, a) == At(r, b) <==> a == b
  {
  }

  // The links once n has taken the place of the sentinel q[0].
  ghost predicate TakenLinks(n: ListNode, q: seq<ListNode>)
    requires |q| > 1
    reads n, q
  {
    && n.next == q[1] && n.prev == q[|q| - 1]
    && (forall k {:trigger q[k].next} :: 1 <= k < |q| ==> q[k].next == if k == |q| - 1 then n else q[k + 1])
    && (forall k {:trigger q[k].prev} :: 1 <= k < |q| ==> q[k].prev == if k == 1 then n else q[k - 1])
  }

  lemma TakenRing(n: ListNode, q: seq<ListNode>)
    requires |q| > 1 && Distinct(q) && n !in q && TakenLinks(n, q)
    ensures Ring([n] + q[1..])
  {
    var r := [n] + q[1..];
    assert forall k {:trigger r[k]} :: 1 <= k < |r| ==> r[k] == q[k];
  }

  class List {
    const node: ListNode
    var size: nat
    ghost var ring: seq<ListNode>

    ghost predicate Valid()
      reads this, ring
    {
      ring != [] && ring[0] == node && Ring(ring) && size == |ring| - 1
    }

    ghost function Elements(): seq<ListNode>
      requires ring != []
      reads this
    {
      ring[1..]
    }

    constructor ()
      ensures Valid() && Elements() == [] && fresh(node)
    {
      node := new ListNode.Sentinel();
      size, ring := 0, [];
      new;
      Init();
    }

    /** Takes the nodes of x, which is left empty. */
    constructor MoveFrom(x: List)
      requires x.Valid()
      modifies x, x.ring
      ensures Valid() && x.Valid() && Elements() == old(x.Elements()) && x.Elements() == [] && fresh(node)
    {
      node := new ListNode.Sentinel();
      size, ring := 0, [];
      new;
      MoveNodes(x);
    }

    method Init()
      modifies this, node
      ensures Valid() && Elements() == []
    {
      node.next := node;
      node.prev := node;
      size := 0;
      ring := [node];
    }

    // This list's own nodes, if any, are forgotten.
    method MoveNodes(x: List)
      requires x.Valid() && x != this && node !in x.ring
      modifies this, x, node, x.ring
      ensures Valid() && x.Valid() && Elements() == old(x.Elements()) && x.Elements() == [] && size == old(x.size)
    {
      ghost var q := x.ring;
      var xnode := x.node;
      if xnode.next == xnode {
        assert |q| == 1;
        Init();
      } else {
        node.next := xnode.next;
        node.prev := xnode.prev;
        node.prev.next := node;
        node.next.prev := node;
        size := x.size;
        ring := [node] + q[1..];
        TakenRing(node, q);
        x.Init();
      }
    }

    method Empty() returns (e: bool)
      requires Valid()
      ensures e <==> Elements() == []
    {
      e := node.next == node;
    }

    /** The nodes of x replace this list's own, which are freed. */
    method MoveAssign(x: List)
      requires x.Valid() && x != this && node !in x.ring
      modifies this, x, node, x.ring
      ensures Valid() && x.Valid() && Elements() == old(x.Elements()) && x.Elements() == [] && size == old(x.size)
    {
      ghost var q := x.ring;
      var e := x.Empty();
      if e {
        Init();
      } else {
        node.next := x.node.next;
        node.next.prev := node;
        node.prev := x.node.prev;
        node.prev.next := node;
        size := x.size;
        ring := [node] + q[1..];
        TakenRing(node, q);
        x.Init();
      }
    }

    method Insert(position: ListNode, val: Value, ghost p: nat) returns (n: ListNode)
      requires Valid() && 1 <= p <= |ring| && position == At(ring, p)
      modifies this, ring
      ensures Valid() && fresh(n) && n.val == val && ring == InsertAll(old(ring), p, [n])
    {
      n := new ListNode(val);
      Hook(n, position, ring, p);
      size := size + 1;
      ring := InsertAll(ring, p, [n]);
    }

    method Erase(position: ListNode, ghost p: nat) returns (next: ListNode)
      requires Valid() && 1 <= p < |ring| && position == ring[p]
      modifies this, ring
      ensures Valid() && ring == Without(old(ring), p, p + 1) && next == At(ring, p)
    {
      next := position.next;
      size := size - 1;
      Unhook(position, ring, p);
      ring := Without(ring, p, p + 1);
    }

    // All of x, which must be another list, before position.
    method SpliceAll(position: ListNode, x: List, ghost p: nat)
      requires Valid() && x.Valid() && this != x && Apart(ring, x.ring)
      requires 1 <= p <= |ring| && position == At(ring, p)
      modifies this, x, ring, x.ring
      ensures Valid() && x.Valid()
      ensures ring == InsertAll(old(ring), p, old(x.Elements())) && x.Elements() == []
    {
      var e := x.Empty();
      ghost var q := x.ring;
      if !e {
        Transfer(position, x.node.next, x.node, ring, p, q, 1, |q|);
        size := size + x.size;
        x.size := 0;
        ring, x.ring := InsertAll(ring, p, q[1..|q|]), Without(q, 1, |q|);
        assert q[1..|q|] == q[1..];
      } else {
        assert InsertAll(ring, p, []) == ring;
      }
    }

    // The block x.ring[i..j] moved before place p.
    ghost function Spliced(p: nat, same: bool, q: seq<ListNode>, i: nat, j: nat): seq<ListNode>
      requires 1 <= i <= j <= |q| && p <= |ring| && (same ==> q == ring && !(i <= p < j))
      reads this
    {
      if !same then InsertAll(ring, p, q[i..j])
      else if p < i then SwapBlocks(ring, p, i, j)
      else SwapBlocks(ring, i, j, p)
    }

    // The nodes [first, last) of x, which may be this list, before position.
    method SpliceRange(position: ListNode, x: List, first: ListNode, last: ListNode,
                       ghost p: nat, ghost i: nat, ghost j: nat)
      requires Valid() && x.Valid() && (this == x || Apart(ring, x.ring))
      requires 1 <= p <= |ring| && position == At(ring, p)
      requires 1 <= i <= j <= |x.ring| && first == At(x.ring, i) && last == At(x.ring, j)
      requires this == x ==> !(i <= p < j)
      modifies this, x, ring, x.ring
      ensures Valid() && x.Valid()
      ensures ring == old(Spliced(p, this == x, x.ring, i, j))
      ensures this != x ==> x.ring == Without(old(x.ring), i, j)
    {
      hide Ring, InsertAll, Without, SwapBlocks;
      ghost var q := x.ring;
      SamePlace(q, i, j);
      if first != last {
        var n := Distance(first, last, q, i, j);
        size := size + n;
        x.size := x.size - n;
        if this == x {
          SwappedSizes(q, if p < i then p else i, if p < i then i else j, if p < i then j else p);
          TransferWithin(position, first, last, ring, p, i, j);
          ring := Spliced(p, true, q, i, j);
        } else {
          SplicedSizes(ring, p, q, i, j);
          Transfer(position, first, last, ring, p, q, i, j);
          ring, x.ring := Spliced(p, false, q, i, j), Without(q, i, j);
        }
      } else {
        NothingSpliced(p, this == x, q, i);
      }
    }

    lemma NothingSpliced(p: nat, same: bool, q: seq<ListNode>, i: nat)
      requires 1 <= i <= |q| && p <= |ring| && (same ==> q == ring)
      ensures Spliced(p, same, q, i, i) == ring && Without(q, i, i) == q
    {
    }

    // The one element at of x, which may be this list, before position.
    method SpliceOne(position: ListNode, x: List, at: ListNode, ghost p: nat, ghost i: nat)
      requires Valid() && x.Valid() && (this == x || Apart(ring, x.ring))
      requires 1 <= p <= |ring| && position == At(ring, p)
      requires 1 <= i < |x.ring| && at == x.ring[i]
      modifies this, x, ring, x.ring
      ensures Valid() && x.Valid()
      ensures this == x && p == i ==> ring == old(ring)
      ensures !(this == x && p == i) ==> ring == old(Spliced(p, this == x, x.ring, i, i + 1))
      ensures this != x ==> x.ring == Without(old(x.ring), i, i + 1)
    {
      hide Distinct, InsertAll, Without, SwapBlocks;
      ghost var q := x.ring;
      var j := at.next;
      if position == at || position == j {
        if this == x {
          SamePlace(q, p, i);
          SamePlace(q, p, i + 1);
          NothingSwapped(q, i, i + 1);
        }
        return;
      }
      if this == x {
        SamePlace(q, p, i);
        SwappedSizes(q, if p < i then p else i, if p < i then i else i + 1, if p < i then i + 1 else p);
        TransferWithin(position, at, j, ring, p, i, i + 1);
        ring := Spliced(p, true, q, i, i + 1);
      } else {
        SplicedSizes(ring, p, q, i, i + 1);
        Transfer(position, at, j, ring, p, q, i, i + 1);
        ring, x.ring := Spliced(p, false, q, i, i + 1), Without(q, i, i + 1);
      }
      size := size + 1;
      x.size := x.size - 1;
    }
  }
}
