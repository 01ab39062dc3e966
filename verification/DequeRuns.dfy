// Runs of the deque's operations, and the laws of its iterators.
module DequeRuns {
  import opened DequeIterator
  import opened Deque

  datatype Op =
    | PushBack(x: Elem)
    | PushFront(x: Elem)
    | PopBack
    | PopFront
    | DropFront(n: nat)
    | DropBack(n: nat)
    | Clear

  // The elements, and the places of the first one and after the last one.
  datatype State = State(elements: seq<Elem>, first: int, last: int)

  // Whether a push or pop stays within a node; where it does not, it is not done here.
  ghost predicate Stays(op: Op, b: nat, s: State)
    requires b >= 1
  {
    match op
    case PushBack(_) => s.last % b != b - 1
    case PushFront(_) => s.first % b != 0
    case PopBack => s.last % b != 0
    case PopFront => s.first % b != b - 1
    case _ => true
  }

  /** What an operation does to a sequence. */
  ghost function After(op: Op, s: seq<Elem>): seq<Elem> {
    match op
    case PushBack(x) => s + [x]
    case PushFront(x) => [x] + s
    case PopBack => if s == [] then s else s[..|s| - 1]
    case PopFront => if s == [] then s else s[1..]
    case DropFront(n) => if n <= |s| then s[n..] else s
    case DropBack(n) => if n <= |s| then s[..|s| - n] else s
    case Clear => []
  }

  /** One step: places grow to the back and to the front as elements come, and shrink as they go. */
  ghost predicate Next(op: Op, b: nat, s: State, s': State)
    requires b >= 1
  {
    if !Stays(op, b, s) then s' == s else
      && s'.elements == After(op, s.elements) && s'.last - s'.first == |s'.elements|
      && if op.PushFront? || op.PopFront? || op.DropFront? then s'.last == s.last else s'.first == s.first
  }

  /** What a step does to the elements s.elements, in nodes of b places: just a push to a full node and a pop
      from an empty end of one are passed over. */
  lemma NextIs(op: Op, b: nat, s: State, s': State)
    requires b >= 1 && Next(op, b, s, s')
    ensures op.PushBack? ==> s'.elements == if (s.last + 1) % b == 0 then s.elements else s.elements + [op.x]
    ensures op.PushFront? ==> s'.elements == if s.first % b == 0 then s.elements else [op.x] + s.elements
    ensures op.PopBack? && s.elements != [] && s.last % b != 0 ==>
              s'.elements + [s.elements[|s.elements| - 1]] == s.elements
    ensures op.PopFront? && s.elements != [] && (s.first + 1) % b != 0 ==> [s.elements[0]] + s'.elements == s.elements
    ensures op.DropFront? && op.n <= |s.elements| ==> s.elements[..op.n] + s'.elements == s.elements
    ensures op.DropBack? && op.n <= |s.elements| ==>
              s'.elements + s.elements[|s.elements| - op.n..] == s.elements && |s'.elements| == |s.elements| - op.n
    ensures op.Clear? ==> s'.elements == []
  {
    NextRemainder(s.last, b);
    NextRemainder(s.first, b);
  }

  lemma NextRemainder(x: int, b: nat)
    requires b >= 1
    ensures (x + 1) % b == 0 <==> x % b == b - 1
  {
    var q, r := x / b, x % b;
    assert x == q * b + r;
    if r == b - 1 {
      assert x + 1 == (q + 1) * b + 0;
      Remainder(b, q + 1, 0);
    } else {
      assert x + 1 == q * b + (r + 1);
      Remainder(b, q, r + 1);
    }
  }

  ghost function StateOf(d: Deque): State
    requires d.Valid()
    reads d, d.start, d.finish, d.slots, d.live
  {
    State(d.Contents(), d.start.Position(), d.finish.Position())
  }

  // The place within its node is the remainder of an iterator's place.
  lemma Remainder(b: nat, node: int, off: int)
    requires 0 <= off < b
    ensures (node * b + off) % b == off
  {
    var q, r := (node * b + off) / b, (node * b + off) % b;
    SamePlace(b, node, off, q, r);
  }

  lemma Remainders(d: Deque)
    requires d.Valid()
    ensures StateOf(d).first % d.b == d.start.cur.off && StateOf(d).last % d.b == d.finish.cur.off
  {
    Remainder(d.b, d.start.node, d.start.cur.off);
    Remainder(d.b, d.finish.node, d.finish.cur.off);
  }

  // Every place from begin to end is in a node in use.
  lemma InsidePlaces(d: Deque, p: int)
    requires d.Valid() && d.start.Position() <= p <= d.finish.Position()
    ensures forall m {:trigger HasNode(d.slots, m, d.b)} :: m * d.b <= p < m * d.b + d.b ==> HasNode(d.slots, m, d.b)
  {
    forall m {:trigger HasNode(d.slots, m, d.b)} | m * d.b <= p < m * d.b + d.b
      ensures HasNode(d.slots, m, d.b)
    {
      PlaceOrder(d.b, m, p - m * d.b, d.start.node, d.start.cur.off);
      PlaceOrder(d.b, d.finish.node, d.finish.cur.off, m, p - m * d.b);
      assert d.slots[..][m] == d.slots[m];
    }
  }

  // begin() + n
  method IteratorAt(d: Deque, n: nat) returns (pos: Iterator)
    requires d.Valid() && n <= |d.Contents()|
    ensures fresh(pos) && d.Valid() && d.Inside(pos) && pos.Position() == d.start.Position() + n
  {
    pos := new Iterator.Copy(d.start);
    InsidePlaces(d, pos.Position() + n);
    pos.Advance(n);
  }

  // A push, unless it has to go to another node, which is not done here.
  method DoPush(d: Deque, op: Op)
    requires d.Valid() && (op.PushBack? || op.PushFront?)
    modifies d`live, d`freed, d.start, d.finish, d.live
    ensures d.Valid() && Next(op, d.b, old(StateOf(d)), StateOf(d))
    ensures d.live <= old(d.live)
  {
    hide InUse, Window, Concat;
    InUseNodes(d);
    Remainders(d);
    if op.PushBack? {
      if d.finish.cur.off != d.finish.last.off - 1 {
        d.PushBack(op.x);
      }
    } else {
      if d.start.cur != d.start.first {
        d.PushFront(op.x);
      }
    }
  }

  method DoPop(d: Deque, op: Op)
    requires d.Valid() && (op.PopBack? || op.PopFront?)
    modifies d`live, d`freed, d.start, d.finish, d.live
    ensures d.Valid() && Next(op, d.b, old(StateOf(d)), StateOf(d))
    ensures d.live <= old(d.live)
  {
    hide InUse, Window, Concat;
    InUseNodes(d);
    Remainders(d);
    var size := d.Size();
    if size != 0 {
      if op.PopBack? {
        if d.finish.cur != d.finish.first {
          d.PopBack();
        }
      } else {
        if d.start.cur.off != d.start.last.off - 1 {
          d.PopFront();
        }
      }
    }
  }

  lemma DroppedNodes(d: Deque, pos: Iterator)
    requires d.Valid() && d.Inside(pos)
    ensures d.start.node <= pos.node <= d.finish.node
    ensures NodeSet(d.slots[..], d.start.node, pos.node) <= d.live
    ensures NodeSet(d.slots[..], pos.node + 1, d.finish.node + 1) <= d.live
  {
    d.CutPlaces(pos);
    InUseNodes(d);
  }

  method DropFront(d: Deque, n: nat)
    requires d.Valid() && n <= |d.Contents()|
    modifies d`live, d`freed, d.start, d.live
    ensures d.Valid() && d.Contents() == old(d.Contents())[n..] && d.live <= old(d.live)
    ensures d.finish.Position() == old(d.finish.Position())
  {
    hide InUse, Window, Concat, NodeSet;
    var pos := IteratorAt(d, n);
    DroppedNodes(d, pos);
    d.EraseAtBegin(pos);
  }

  method DropBack(d: Deque, n: nat)
    requires d.Valid() && n <= |d.Contents()|
    modifies d`live, d`freed, d.finish, d.live
    ensures d.Valid() && d.Contents() == old(d.Contents())[..n] && d.live <= old(d.live)
    ensures d.start.Position() == old(d.start.Position())
  {
    hide InUse, Window, Concat, NodeSet;
    var pos := IteratorAt(d, n);
    DroppedNodes(d, pos);
    d.EraseAtEnd(pos);
  }

  method DoDrop(d: Deque, op: Op)
    requires d.Valid() && (op.DropFront? || op.DropBack? || op.Clear?)
    modifies d`live, d`freed, d.start, d.finish, d.live
    ensures d.Valid() && Next(op, d.b, old(StateOf(d)), StateOf(d)) && d.live <= old(d.live)
  {
    hide InUse, Window, Concat, NodeSet;
    var size := d.Size();
    match op
    case DropFront(n) =>
      if n <= size {
        DropFront(d, n);
      }
    case DropBack(n) =>
      if n <= size {
        DropBack(d, size - n);
      }
    case Clear =>
      InUseNodes(d);
      d.Clear();
  }

  method Do(d: Deque, op: Op)
    requires d.Valid()
    modifies d`live, d`freed, d.start, d.finish, d.live
    ensures d.Valid() && Next(op, d.b, old(StateOf(d)), StateOf(d))
    ensures d.live <= old(d.live)
  {
    if op.PushBack? || op.PushFront? {
      DoPush(d, op);
    } else if op.PopBack? || op.PopFront? {
      DoPop(d, op);
    } else {
      DoDrop(d, op);
    }
  }

  lemma InUseNodes(d: Deque)
    requires d.Valid()
    ensures d.slots[d.start.node] in d.live && d.slots[d.finish.node] in d.live
    ensures forall lo, hi :: d.start.node <= lo <= hi <= d.finish.node + 1 ==> NodeSet(d.slots[..], lo, hi) <= d.live
  {
    assert d.slots[..][d.start.node] == d.slots[d.start.node] && d.slots[..][d.finish.node] == d.slots[d.finish.node];
  }

  method DoAll(d: Deque, ops: seq<Op>) returns (ghost trace: seq<State>)
    requires d.Valid()
    modifies d`live, d`freed, d.start, d.finish, d.live
    ensures d.Valid() && d.live <= old(d.live)
    ensures |trace| == |ops| + 1 && trace[0] == old(StateOf(d))
    ensures forall i :: 0 <= i < |ops| ==> Next(ops[i], d.b, trace[i], trace[i + 1])
  {
    hide Next, InUse, Window, Concat, StateOf;
    trace := [StateOf(d)];
    for i := 0 to |ops|
      invariant d.Valid() && d.live <= old(d.live)
      invariant |trace| == i + 1 && trace[0] == old(StateOf(d)) && trace[i] == StateOf(d)
      invariant forall j :: 0 <= j < i ==> Next(ops[j], d.b, trace[j], trace[j + 1])
    {
      Do(d, ops[i]);
      trace := trace + [StateOf(d)];
    }
  }

  // The end of a deque.
  method Finish(d: Deque)
    requires d.Valid()
    modifies d`live, d`freed, d.live
    ensures d.live == {} && d.made == old(d.made) != {} && d.freed == multiset(d.made)
  {
    hide InUse, NodeSet;
    InUseNodes(d);
    assert d.slots[d.start.node] in multiset(d.made);
    d.Destroy();
  }

  /** Any run on a new deque refines the run on a sequence; the nodes freed in it and in the end are
      those allocated, each freed once. */
  method Run(limit: nat, size: nat, n: nat, ops: seq<Op>)
    returns (b: nat, ghost trace: seq<State>, ghost made: set<array<Elem>>, ghost freed: multiset<array<Elem>>)
    requires size >= 1
    ensures freed == multiset(made) && made != {} && b == BufSize(limit, size)
    ensures |trace| == |ops| + 1 && trace[0].first % b == 0
    ensures |trace[0].elements| == n == trace[0].last - trace[0].first
    ensures forall i :: 0 <= i < |ops| ==> Next(ops[i], b, trace[i], trace[i + 1])
  {
    hide Next, InUse, Window, Concat;
    var d := new Deque(limit, size, n);
    b := d.b;
    Remainders(d);
    trace := DoAll(d, ops);
    Finish(d);
    made, freed := d.made, d.freed;
  }

  // ----- iterators add like integers -----

  /** x + n, x + n + m and x + (n + m), where they exist: (x + n) - x is n, and the last two are equal. */
  method Sums(x: Iterator, n: int, m: int) returns (y: Iterator, z: Iterator, w: Iterator)
    requires x.Valid()
    requires forall k {:trigger HasNode(x.slots, k, x.b)} ::
               k * x.b <= x.Position() + n < k * x.b + x.b || k * x.b <= x.Position() + n + m < k * x.b + x.b ==>
                 HasNode(x.slots, k, x.b)
    ensures y.Valid() && z.Valid() && w.Valid() && y.slots == z.slots == w.slots == x.slots && y.b == z.b == w.b == x.b
    ensures y.Minus(x) == n && z.Minus(y) == m
    ensures z.Position() == w.Position() && z.node == w.node && z.cur == w.cur
    ensures x.Less(y) <==> 0 < n
  {
    y := new Iterator.Copy(x);
    y.Advance(n);
    z := new Iterator.Copy(y);
    z.Advance(m);
    w := new Iterator.Copy(x);
    w.Advance(n + m);
    SamePlace(x.b, z.node, z.cur.off, w.node, w.cur.off);
  }
}
