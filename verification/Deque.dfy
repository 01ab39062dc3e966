// The deque: elements in nodes of b elements each, the nodes in a map of slots.
module Deque {
  import opened DequeIterator

  // ----- the elements of a row of nodes -----

  ghost predicate Uniform(nodes: seq<seq<Elem>>, b: nat) {
    forall i {:trigger nodes[i]} :: 0 <= i < |nodes| ==> |nodes[i]| == b
  }

  ghost function Concat(nodes: seq<seq<Elem>>): seq<Elem> {
    if nodes == [] then [] else Concat(nodes[..|nodes| - 1]) + nodes[|nodes| - 1]
  }

  lemma {:induction false} ConcatSize(nodes: seq<seq<Elem>>, b: nat)
    requires Uniform(nodes, b)
    ensures |Concat(nodes)| == |nodes| * b
  {
    if nodes != [] {
      ConcatSize(nodes[..|nodes| - 1], b);
      assert |nodes| * b == (|nodes| - 1) * b + b;
    }
  }

  lemma {:induction false} ConcatSplit(nodes: seq<seq<Elem>>, k: nat)
    requires k <= |nodes|
    ensures Concat(nodes) == Concat(nodes[..k]) + Concat(nodes[k..])
  {
    if k == |nodes| {
      assert nodes[..k] == nodes;
    } else {
      var n := |nodes| - 1;
      ConcatSplit(nodes[..n], k);
      assert nodes[..n][..k] == nodes[..k] && nodes[..n][k..] == nodes[k..][..n - k];
    }
  }

  lemma ConcatOne(node: seq<Elem>)
    ensures Concat([node]) == node
  {
    assert [node][..0] == [];
  }

  lemma {:induction false} ConcatAt(nodes: seq<seq<Elem>>, b: nat, k: nat, off: nat)
    requires Uniform(nodes, b) && k < |nodes| && off < b
    ensures k * b + off < |Concat(nodes)| && Concat(nodes)[k * b + off] == nodes[k][off]
  {
    hide Concat;
    ConcatSplit(nodes, k);
    ConcatSize(nodes[..k], b);
    ConcatCons(nodes[k..]);
  }

  /** The elements from place x of the first node to place y of the last. */
  ghost function Window(nodes: seq<seq<Elem>>, b: nat, x: nat, y: nat): seq<Elem>
    requires Uniform(nodes, b) && x < b && y < b && nodes != [] && (|nodes| == 1 ==> x <= y)
  {
    WindowFits(nodes, b, x, y);
    Concat(nodes)[x..|Concat(nodes)| - b + y]
  }

  lemma WindowFits(nodes: seq<seq<Elem>>, b: nat, x: nat, y: nat)
    requires Uniform(nodes, b) && x < b && y < b && nodes != [] && (|nodes| == 1 ==> x <= y)
    ensures x <= |Concat(nodes)| - b + y <= |Concat(nodes)| && |Concat(nodes)| == |nodes| * b
  {
    ConcatSize(nodes, b);
    if |nodes| > 1 {
      NodeEnds(b, 1, |nodes|);
    }
  }

  lemma WindowAt(nodes: seq<seq<Elem>>, b: nat, x: nat, y: nat, k: nat, off: nat, i: nat)
    requires Uniform(nodes, b) && x < b && y < b && nodes != [] && (|nodes| == 1 ==> x <= y)
    requires k < |nodes| && off < b && k * b + off == x + i && i < |Window(nodes, b, x, y)|
    ensures Window(nodes, b, x, y)[i] == nodes[k][off]
  {
    hide Concat;
    WindowFits(nodes, b, x, y);
    ConcatAt(nodes, b, k, off);
  }

  lemma WindowPushBack(nodes: seq<seq<Elem>>, b: nat, x: nat, y: nat, e: Elem)
    requires Uniform(nodes, b) && x < b && y + 1 < b && nodes != [] && (|nodes| == 1 ==> x <= y)
    ensures var n := |nodes| - 1;
            var nodes' := nodes[n := nodes[n][y := e]];
            Uniform(nodes', b) && Window(nodes', b, x, y + 1) == Window(nodes, b, x, y) + [e]
  {
    var n := |nodes| - 1;
    var nodes' := nodes[n := nodes[n][y := e]];
    WindowFits(nodes, b, x, y);
    assert nodes'[..n] == nodes[..n];
    assert Concat(nodes') == Concat(nodes[..n]) + nodes[n][y := e];
  }

  lemma WindowPushFront(nodes: seq<seq<Elem>>, b: nat, x: nat, y: nat, e: Elem)
    requires Uniform(nodes, b) && 0 < x < b && y < b && nodes != [] && (|nodes| == 1 ==> x <= y)
    ensures var nodes' := nodes[0 := nodes[0][x - 1 := e]];
            Uniform(nodes', b) && Window(nodes', b, x - 1, y) == [e] + Window(nodes, b, x, y)
  {
    hide Concat;
    var nodes' := nodes[0 := nodes[0][x - 1 := e]];
    WindowFits(nodes, b, x, y);
    WindowFits(nodes', b, x - 1, y);
    ConcatCons(nodes);
    ConcatCons(nodes');
    assert nodes'[1..] == nodes[1..];
    FrontUpdate(nodes[0], Concat(nodes[1..]), x, |Concat(nodes)| - b + y, e);
  }

  lemma FrontUpdate(h: seq<Elem>, t: seq<Elem>, x: nat, m: nat, e: Elem)
    requires 0 < x <= |h| && x <= m <= |h + t|
    ensures (h[x - 1 := e] + t)[x - 1..m] == [e] + (h + t)[x..m]
  {
  }

  lemma ConcatCons(nodes: seq<seq<Elem>>)
    requires nodes != []
    ensures Concat(nodes) == nodes[0] + Concat(nodes[1..])
  {
    ConcatSplit(nodes, 1);
    assert nodes[..1] == [nodes[0]];
    ConcatOne(nodes[0]);
  }

  // Dropping whole nodes at the front, and starting at place z of the next.
  lemma WindowDrop(nodes: seq<seq<Elem>>, b: nat, x: nat, y: nat, k: nat, z: nat)
    requires Uniform(nodes, b) && x < b && y < b && z < b && k < |nodes| && (|nodes| == 1 ==> x <= y)
    requires (k == 0 ==> x <= z) && (k == |nodes| - 1 ==> z <= y)
    ensures 0 <= k * b + z - x <= |Window(nodes, b, x, y)|
    ensures Uniform(nodes[k..], b) && Window(nodes[k..], b, z, y) == Window(nodes, b, x, y)[k * b + z - x..]
  {
    hide Concat;
    var s, t := Concat(nodes[..k]), Concat(nodes[k..]);
    WindowFits(nodes, b, x, y);
    WindowFits(nodes[k..], b, z, y);
    ConcatSplit(nodes, k);
    ConcatSize(nodes[..k], b);
    DropBounds(b, x, y, k, z, |nodes|);
    SliceDrop(s, t, x, |s + t| - b + y, z);
  }

  lemma DropBounds(b: nat, x: nat, y: nat, k: nat, z: nat, n: nat)
    requires x < b && y < b && z < b && k < n && (k == 0 ==> x <= z) && (k == n - 1 ==> z <= y)
    ensures 0 <= k * b + z - x && k * b + z <= n * b - b + y
  {
    TakeBounds(b, x, y, k, z, n);
  }

  lemma SliceDrop(s: seq<Elem>, t: seq<Elem>, x: nat, m: nat, z: nat)
    requires x <= |s| + z <= m <= |s + t|
    ensures (s + t)[x..m][|s| + z - x..] == t[z..m - |s|]
  {
  }

  // Dropping whole nodes at the back, and ending at place z of the last one left.
  lemma WindowTake(nodes: seq<seq<Elem>>, b: nat, x: nat, y: nat, k: nat, z: nat)
    requires Uniform(nodes, b) && x < b && y < b && z < b && k < |nodes| && (|nodes| == 1 ==> x <= y)
    requires (k == 0 ==> x <= z) && (k == |nodes| - 1 ==> z <= y)
    ensures 0 <= k * b + z - x <= |Window(nodes, b, x, y)|
    ensures Uniform(nodes[..k + 1], b) && Window(nodes[..k + 1], b, x, z) == Window(nodes, b, x, y)[..k * b + z - x]
  {
    hide Concat;
    var s, t := Concat(nodes[..k + 1]), Concat(nodes[k + 1..]);
    WindowFits(nodes, b, x, y);
    WindowFits(nodes[..k + 1], b, x, z);
    ConcatSplit(nodes, k + 1);
    TakeBounds(b, x, y, k, z, |nodes|);
    SliceTake(s, t, x, |s + t| - b + y, k * b + z - x);
  }

  lemma TakeBounds(b: nat, x: nat, y: nat, k: nat, z: nat, n: nat)
    requires x < b && y < b && z < b && k < n && (k == 0 ==> x <= z) && (k == n - 1 ==> z <= y)
    ensures 0 <= k * b + z - x && k * b + z <= n * b - b + y && (k + 1) * b == k * b + b
  {
    if k > 0 {
      NodeEnds(b, 0, k);
    }
    if k + 1 < n {
      NodeEnds(b, k + 1, n);
    }
  }

  lemma SliceTake(s: seq<Elem>, t: seq<Elem>, x: nat, m: nat, w: nat)
    requires x + w <= |s| && x + w <= m <= |s + t|
    ensures (s + t)[x..m][..w] == s[x..x + w]
  {
  }

  // Exactly the slots lo..hi hold nodes, each another one, and these are the live ones.
  ghost predicate InUse(s: seq<array?<Elem>>, b: nat, lo: int, hi: int, live: set<array<Elem>>) {
    && 0 <= lo <= hi <= |s|
    && (forall i {:trigger s[i]} :: 0 <= i < |s| ==> (s[i] != null && s[i] in live <==> lo <= i < hi))
    && (forall i {:trigger s[i]} :: lo <= i < hi ==> s[i].Length == b)
    && (forall i, j {:trigger s[i], s[j]} :: lo <= i < j < hi ==> s[i] != s[j])
    && (forall a :: a in live ==> exists i :: lo <= i < hi && s[i] == a)
  }

  ghost function NodeSet(s: seq<array?<Elem>>, lo: int, hi: int): set<array<Elem>> {
    set i | 0 <= i < |s| && lo <= i < hi && s[i] != null :: s[i]
  }

  lemma FewerNodes(s: seq<array?<Elem>>, b: nat, lo: int, hi: int, lo': int, hi': int, live: set<array<Elem>>)
    requires InUse(s, b, lo, hi, live) && lo <= lo' <= hi' <= hi
    ensures InUse(s, b, lo', hi', live - (NodeSet(s, lo, lo') + NodeSet(s, hi', hi)))
    ensures NodeSet(s, lo, lo) == NodeSet(s, hi, hi) == {}
    ensures forall i {:trigger s[i]} :: lo' <= i < hi' ==>
            s[i] != null && s[i] !in NodeSet(s, lo, lo') + NodeSet(s, hi', hi)
  {
  }

  lemma OneNode(s: seq<array?<Elem>>, b: nat, lo: int, live: set<array<Elem>>)
    requires InUse(s, b, lo, lo + 1, live)
    ensures |live| == 1 && s[lo] != null && live == {s[lo]}
  {
    assert live == {s[lo]};
  }

  lemma LiveNodes(s: seq<array?<Elem>>, b: nat, lo: int, hi: int, live: set<array<Elem>>)
    requires InUse(s, b, lo, hi, live)
    ensures NodeSet(s, lo + 1, hi) <= live
  {
  }

  lemma SnapshotNodes(s: seq<array?<Elem>>, b: nat, lo: int, hi: int, live: set<array<Elem>>)
    requires InUse(s, b, lo, hi, live)
    ensures forall i {:trigger s[i]} :: lo <= i < hi ==> s[i] != null && s[i] in live
  {
  }

  lemma OtherNodes(s: seq<array?<Elem>>, b: nat, lo: int, hi: int, live: set<array<Elem>>, k: int)
    requires InUse(s, b, lo, hi, live) && lo <= k < hi
    ensures forall i {:trigger s[i]} :: lo <= i < hi ==> s[i] != null && s[i].Length == b && (i != k ==> s[i] != s[k])
  {
  }

  lemma NodeSetNext(s: seq<array?<Elem>>, lo: int, n: int)
    requires 0 <= lo <= n < |s| && s[n] != null
    ensures NodeSet(s, lo, n + 1) == NodeSet(s, lo, n) + {s[n]}
  {
  }

  lemma OneMoreNode(s: seq<array?<Elem>>, b: nat, lo: int, hi: int, live: set<array<Elem>>, p: array<Elem>)
    requires InUse(s, b, lo, hi, live) && hi < |s| && p !in live && p.Length == b
    requires forall i {:trigger s[i]} :: 0 <= i < |s| ==> s[i] != p
    ensures InUse(s[hi := p], b, lo, hi + 1, live + {p})
  {
    var s' := s[hi := p];
    assert s'[hi] == p;
    forall a | a in live + {p}
      ensures exists i :: lo <= i < hi + 1 && s'[i] == a
    {
      if a != p {
        var i :| lo <= i < hi && s[i] == a;
        assert s'[i] == a;
      }
    }
  }

  // The nodes n elements need, with a place after the last one.
  function NumNodes(n: nat, b: nat): (k: nat)
    requires b >= 1
    ensures k >= 1 && (k - 1) * b <= n < k * b
  {
    assert n == (n / b) * b + n % b;
    assert (n / b + 1) * b == (n / b) * b + b;
    n / b + 1
  }

  class Deque {
    const b: nat
    const start: Iterator
    const finish: Iterator
    var slots: array<array?<Elem>>
    // The nodes allocated and not yet freed.
    ghost var live: set<array<Elem>>
    // All nodes ever allocated, and how often each has been freed.
    ghost var made: set<array<Elem>>
    ghost var freed: multiset<array<Elem>>

    // Every node allocated is either live or has been freed, once.
    ghost predicate Accounted()
      reads this
    {
      freed + multiset(live) == multiset(made)
    }

    // The class invariant the source writes down, and exactly the nodes in use are live.
    ghost predicate Valid()
      reads this, start, finish, slots
    {
      && b >= 1 && start != finish && start.b == finish.b == b
      && start.slots == finish.slots == slots
      && start.Valid() && finish.Valid()
      && start.node <= finish.node && start.Position() <= finish.Position()
      && InUse(slots[..], b, start.node, finish.node + 1, live)
      && Accounted()
    }

    /** What the nodes in use hold, initialized or not. */
    ghost function Snapshot(): (nodes: seq<seq<Elem>>)
      requires Valid()
      reads this, start, finish, slots, live
      ensures |nodes| == finish.node - start.node + 1 && Uniform(nodes, b)
    {
      seq(finish.node - start.node + 1, i requires 0 <= i < finish.node - start.node + 1 && Valid()
                                          reads this, start, finish, slots, live =>
        assert slots[..][start.node + i] == slots[start.node + i];
        slots[start.node + i][..])
    }

    /** The elements from start to finish. */
    ghost function Contents(): (s: seq<Elem>)
      requires Valid()
      reads this, start, finish, slots, live
      ensures |s| == finish.Position() - start.Position()
    {
      SizeIsDistance();
      Window(Snapshot(), b, start.cur.off, finish.cur.off)
    }

    lemma SizeIsDistance()
      requires Valid()
      ensures start.node == finish.node ==> start.cur.off <= finish.cur.off
      ensures |Window(Snapshot(), b, start.cur.off, finish.cur.off)| == finish.Position() - start.Position()
    {
      PlaceOrder(b, finish.node, finish.cur.off, start.node, start.cur.off);
      WindowFits(Snapshot(), b, start.cur.off, finish.cur.off);
      assert (finish.node - start.node + 1) * b == finish.node * b - start.node * b + b;
    }

    /** The element i places after start is the one in the node and at the offset of that place. */
    lemma ElementAt(i: nat, node: int, off: nat)
      requires Valid() && i < |Contents()| && off < b && node * b + off == start.Position() + i
      ensures start.node <= node <= finish.node && slots[node] != null && slots[node].Length == b
      ensures Contents()[i] == slots[node][off]
    {
      hide Window, Concat, InUse;
      PlaceOrder(b, node, off, start.node, start.cur.off);
      PlaceOrder(b, finish.node, finish.cur.off, node, off);
      OtherNodes(slots[..], b, start.node, finish.node + 1, live, start.node);
      assert slots[..][node] == slots[node];
      SizeIsDistance();
      assert (node - start.node) * b == node * b - start.node * b;
      assert Snapshot()[node - start.node] == slots[node][..];
      WindowAt(Snapshot(), b, start.cur.off, finish.cur.off, node - start.node, off, i);
    }

    /** size() is finish - start. */
    function Size(): (n: int)
      requires Valid()
      reads this, start, finish, slots, live
      ensures n == |Contents()|
    {
      finish.Minus(start)
    }

    // Nodes of limit bytes at most, but of one element at least, for elements of the given size.
    constructor (limit: nat, size: nat, n: nat)
      requires size >= 1
      ensures Valid() && b == BufSize(limit, size) && |Contents()| == n
      ensures start.node >= 1 && finish.node + 1 < slots.Length && start.cur.off == 0
      ensures fresh(start) && fresh(finish) && forall a :: a in live ==> fresh(a)
    {
      b := BufSize(limit, size);
      start := new Iterator.Singular(BufSize(limit, size));
      finish := new Iterator.Singular(BufSize(limit, size));
      slots := new array?<Elem>[0];
      live, made, freed := {}, {}, multiset{};
      new;
      InitializeMap(n);
    }

    // Room for n elements, in the middle of the map, with a spare slot at each end.
    method InitializeMap(n: nat)
      requires b >= 1 && start != finish && start.b == finish.b == b && live == {} && Accounted()
      modifies this, start, finish
      ensures Valid() && |Contents()| == n && start.cur.off == 0
      ensures start.node >= 1 && finish.node + 1 < slots.Length && slots.Length >= 8
      ensures fresh(slots) && forall a :: a in live ==> fresh(a)
    {
      hide InUse, Window, Concat, NodeSet, NumNodes;
      var numNodes := NumNodes(n, b);
      var mapSize := if numNodes + 2 > 8 then numNodes + 2 else 8;
      slots := new array?<Elem>[mapSize];
      var nstart := (mapSize - numNodes) / 2;
      var nfinish := nstart + numNodes;
      assert 1 <= nstart && nfinish < mapSize;
      CreateNodes(nstart, nfinish);
      SetEnds(nstart, nfinish, n);
    }

    method SetEnds(nstart: nat, nfinish: nat, n: nat)
      requires b >= 1 && start != finish && start.b == finish.b == b && nfinish == nstart + NumNodes(n, b)
      requires InUse(slots[..], b, nstart, nfinish, live) && Accounted()
      modifies start, finish
      ensures Valid() && |Contents()| == n && start.cur.off == 0
      ensures start.node == nstart && finish.node == nfinish - 1
    {
      hide Window, Concat;
      Room(n, NumNodes(n, b), nstart);
      assert slots[..][nstart] == slots[nstart] && slots[..][nfinish - 1] == slots[nfinish - 1];
      start.slots, finish.slots := slots, slots;
      start.SetNode(nstart);
      finish.SetNode(nfinish - 1);
      start.cur := start.first;
      finish.cur := Ptr(finish.first.buf, finish.first.off + n % b);
    }

    lemma Room(n: nat, numNodes: nat, nstart: nat)
      requires b >= 1 && numNodes == n / b + 1
      ensures nstart * b <= (nstart + numNodes - 1) * b + n % b
      ensures (nstart + numNodes - 1) * b + n % b - nstart * b == n
    {
      assert (nstart + n / b) * b == nstart * b + (n / b) * b;
    }

    method AllocateNode() returns (p: array<Elem>)
      requires Accounted()
      modifies `live, `made
      ensures fresh(p) && p.Length == b && live == old(live) + {p} && Accounted()
    {
      p := new Elem[b];
      assert p !in live && p !in made;
      assert multiset(live + {p}) == multiset(live) + multiset{p};
      assert multiset(made + {p}) == multiset(made) + multiset{p};
      live, made := live + {p}, made + {p};
    }

    // Only a live node may be freed; its contents are lost.
    method DeallocateNode(p: array<Elem>)
      requires p in live && Accounted()
      modifies `live, `freed, p
      ensures live == old(live) - {p} && freed == old(freed) + multiset{p} && Accounted()
    {
      assert multiset(live) == multiset(live - {p}) + multiset{p};
      live, freed := live - {p}, freed + multiset{p};
    }

    method CreateNodes(nstart: nat, nfinish: nat)
      requires nstart <= nfinish <= slots.Length
      requires live == {} && Accounted()
      modifies `live, `made, slots
      ensures InUse(slots[..], b, nstart, nfinish, live) && Accounted() && forall a :: a in live ==> fresh(a)
    {
      var cur := nstart;
      while cur < nfinish
        invariant nstart <= cur <= nfinish
        invariant InUse(slots[..], b, nstart, cur, live) && Accounted() && forall a :: a in live ==> fresh(a)
      {
        var p := AllocateNode();
        ghost var s := slots[..];
        slots[cur] := p;
        assert slots[..] == s[cur := p];
        OneMoreNode(s, b, nstart, cur, live - {p}, p);
        assert live == live - {p} + {p};
        cur := cur + 1;
      }
    }

    // ----- pushing and popping away from the ends of nodes -----

    method PushBack(x: Elem)
      requires Valid() && finish.cur.off != b - 1
      modifies finish`cur, slots[finish.node]
      ensures Valid() && Contents() == old(Contents()) + [x]
    {
      hide Window, Concat, InUse;
      ghost var nodes, y := Snapshot(), finish.cur.off;
      OtherNodes(slots[..], b, start.node, finish.node + 1, live, finish.node);
      PlaceOrder(b, finish.node, finish.cur.off, start.node, start.cur.off);
      WindowPushBack(nodes, b, start.cur.off, y, x);
      finish.cur.buf[finish.cur.off] := x;
      finish.cur := Ptr(finish.cur.buf, finish.cur.off + 1);
      assert Snapshot() == nodes[|nodes| - 1 := nodes[|nodes| - 1][y := x]];
    }

    method PushFront(x: Elem)
      requires Valid() && start.cur.off != 0
      modifies start`cur, slots[start.node]
      ensures Valid() && Contents() == [x] + old(Contents())
    {
      hide Window, Concat, InUse;
      ghost var nodes, y := Snapshot(), start.cur.off;
      OtherNodes(slots[..], b, start.node, finish.node + 1, live, start.node);
      PlaceOrder(b, finish.node, finish.cur.off, start.node, start.cur.off);
      WindowPushFront(nodes, b, y, finish.cur.off, x);
      start.cur.buf[start.cur.off - 1] := x;
      start.cur := Ptr(start.cur.buf, start.cur.off - 1);
      assert Snapshot() == nodes[0 := nodes[0][y - 1 := x]];
    }

    method PopFront()
      requires Valid() && Contents() != [] && start.cur.off != b - 1
      modifies start`cur
      ensures Valid() && Contents() == old(Contents())[1..]
    {
      hide Window, Concat, InUse;
      ghost var nodes, x := Snapshot(), start.cur.off;
      PlaceOrder(b, start.node, x, finish.node, finish.cur.off);
      start.cur := Ptr(start.cur.buf, start.cur.off + 1);
      assert Snapshot() == nodes;
      WindowDrop(nodes, b, x, finish.cur.off, 0, x + 1);
      assert nodes[0..] == nodes;
    }

    method PopBack()
      requires Valid() && Contents() != [] && finish.cur.off != 0
      modifies finish`cur
      ensures Valid() && Contents() == old(Contents())[..|old(Contents())| - 1]
    {
      hide Window, Concat, InUse;
      ghost var nodes, y := Snapshot(), finish.cur.off;
      PlaceOrder(b, start.node, start.cur.off, finish.node, y);
      finish.cur := Ptr(finish.cur.buf, finish.cur.off - 1);
      assert Snapshot() == nodes;
      var k := |nodes| - 1;
      WindowTake(nodes, b, start.cur.off, y, k, y - 1);
      assert nodes[..k + 1] == nodes;
    }

    // ----- erasing whole ends -----

    method DestroyNodes(nstart: nat, nfinish: nat, ghost lo: int, ghost hi: int)
      requires InUse(slots[..], b, lo, hi, live) && Accounted() && lo <= nstart <= nfinish <= hi
      modifies `live, `freed, NodeSet(slots[..], nstart, nfinish)
      ensures live == old(live) - NodeSet(slots[..], nstart, nfinish) && Accounted()
    {
      ghost var s := slots[..];
      var n := nstart;
      while n < nfinish
        invariant nstart <= n <= nfinish
        invariant live == old(live) - NodeSet(s, nstart, n) && Accounted()
      {
        assert s[n] == slots[n];
        DeallocateNode(slots[n]);
        NodeSetNext(s, nstart, n);
        n := n + 1;
      }
    }

    // A position inside the deque.
    ghost predicate Inside(pos: Iterator)
      requires Valid()
      reads this, start, finish, slots, live, pos
    {
      && pos != start && pos != finish && pos.b == b && pos.slots == slots && pos.Valid()
      && start.Position() <= pos.Position() <= finish.Position()
    }

    method EraseAtEnd(pos: Iterator)
      requires Valid() && Inside(pos)
      modifies finish, `live, `freed, NodeSet(slots[..], pos.node + 1, finish.node + 1)
      ensures Valid() && Contents() == old(Contents())[..pos.Position() - start.Position()]
      ensures finish.node == pos.node && live <= old(live)
    {
      hide InUse, Window, Concat, NodeSet;
      ghost var nodes, s, x, y := Snapshot(), slots[..], start.cur.off, finish.cur.off;
      ghost var k := pos.node - start.node;
      CutPlaces(pos);
      WindowTake(nodes, b, x, y, k, pos.cur.off);
      FewerNodes(s, b, start.node, finish.node + 1, start.node, pos.node + 1, live);
      assert {} + NodeSet(s, pos.node + 1, finish.node + 1) == NodeSet(s, pos.node + 1, finish.node + 1);
      DestroyNodes(pos.node + 1, finish.node + 1, start.node, finish.node + 1);
      finish.Assign(pos);
      assert forall i {:trigger s[i]} :: start.node <= i <= pos.node ==> s[i] == slots[i];
      assert Snapshot() == nodes[..k + 1];
    }

    lemma CutPlaces(pos: Iterator)
      requires Valid() && Inside(pos)
      ensures start.node <= pos.node <= finish.node
      ensures start.node == pos.node ==> start.cur.off <= pos.cur.off
      ensures pos.node == finish.node ==> pos.cur.off <= finish.cur.off
      ensures start.node == finish.node ==> start.cur.off <= finish.cur.off
      ensures (pos.node - start.node) * b + pos.cur.off - start.cur.off == pos.Position() - start.Position()
    {
      PlaceOrder(b, pos.node, pos.cur.off, start.node, start.cur.off);
      PlaceOrder(b, finish.node, finish.cur.off, pos.node, pos.cur.off);
      PlaceOrder(b, finish.node, finish.cur.off, start.node, start.cur.off);
      assert (pos.node - start.node) * b == pos.node * b - start.node * b;
    }

    method EraseAtBegin(pos: Iterator)
      requires Valid() && Inside(pos)
      modifies start, `live, `freed, NodeSet(slots[..], start.node, pos.node)
      ensures Valid() && Contents() == old(Contents())[pos.Position() - old(start.Position())..]
      ensures live <= old(live)
    {
      hide InUse, Window, Concat, NodeSet;
      ghost var nodes, s, x, y := Snapshot(), slots[..], start.cur.off, finish.cur.off;
      ghost var k := pos.node - start.node;
      CutPlaces(pos);
      WindowDrop(nodes, b, x, y, k, pos.cur.off);
      FewerNodes(s, b, start.node, finish.node + 1, pos.node, finish.node + 1, live);
      assert NodeSet(s, start.node, pos.node) + {} == NodeSet(s, start.node, pos.node);
      DestroyNodes(start.node, pos.node, start.node, finish.node + 1);
      start.Assign(pos);
      assert forall i {:trigger s[i]} :: start.node <= i <= finish.node ==> s[i] == slots[i];
      assert Snapshot() == nodes[k..];
    }

    // Exactly one node stays.
    method Clear()
      requires Valid()
      modifies finish, `live, `freed, NodeSet(slots[..], start.node + 1, finish.node + 1)
      ensures Valid() && Contents() == [] && finish.node == start.node && |live| == 1 && live <= old(live)
    {
      hide InUse, Window, Concat, NodeSet;
      var pos := new Iterator.Copy(start);
      CutPlaces(pos);
      EraseAtEnd(pos);
      OneNode(slots[..], b, start.node, live);
    }

    // Every node still allocated is freed, once.
    method Destroy()
      requires Valid()
      modifies `live, `freed, NodeSet(slots[..], start.node, finish.node + 1)
      ensures live == {} && freed == multiset(made)
    {
      FewerNodes(slots[..], b, start.node, finish.node + 1, finish.node + 1, finish.node + 1, live);
      DestroyNodes(start.node, finish.node + 1, start.node, finish.node + 1);
    }

    // Frees all storage, after which the deque is no longer valid.
    method Release()
      requires Valid()
      modifies this, finish, live
      ensures live == {} && freed == multiset(made) && made == old(made)
    {
      hide InUse, Window, Concat, NodeSet;
      LiveNodes(slots[..], b, start.node, finish.node + 1, live);
      Clear();
      OneNode(slots[..], b, start.node, live);
      assert slots[..][start.node] == slots[start.node];
      DeallocateNode(slots[start.node]);
      slots := new array?<Elem>[0];
    }

    // The storage of x, in place of this deque's own; x keeps none.
    method ReplaceMap(x: Deque)
      requires Valid() && x.Valid() && x != this && x.b == b && x.live !! live && x.slots != slots
      requires {start, finish} !! {x.start, x.finish}
      modifies this, x, start, finish, x.start, x.finish, live
      ensures Valid() && Contents() == old(x.Contents()) && live == old(x.live)
      ensures x.live == {} && x.made == old(made) && x.freed == multiset(x.made)
    {
      hide InUse, Window, Concat, NodeSet;
      ghost var nodes, s := x.Snapshot(), x.slots[..];
      SnapshotNodes(s, b, x.start.node, x.finish.node + 1, x.live);
      Release();
      SwapData(x);
      assert slots[..] == s;
      assert Snapshot() == nodes;
    }

    // Exchanges all fields of two deques, which may be one.
    method SwapData(x: Deque)
      requires (x == this || {start, finish} !! {x.start, x.finish}) && start != finish && x.start != x.finish
      requires b == start.b == finish.b == x.start.b == x.finish.b
      modifies this, x, start, finish, x.start, x.finish
      ensures slots == old(x.slots) && x.slots == old(slots) && live == old(x.live) && x.live == old(live)
      ensures made == old(x.made) && x.made == old(made) && freed == old(x.freed) && x.freed == old(freed)
      ensures start.Takes(old(x.start.Fields())) && x.start.Takes(old(start.Fields()))
      ensures finish.Takes(old(x.finish.Fields())) && x.finish.Takes(old(finish.Fields()))
    {
      start.Swap(x.start);
      finish.Swap(x.finish);
      slots, x.slots := x.slots, slots;
      live, x.live := x.live, live;
      made, x.made := x.made, made;
      freed, x.freed := x.freed, freed;
    }
  }
}
