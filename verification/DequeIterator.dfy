// The iterator of the deque: a place in a segmented array.
module DequeIterator {

  type Value(0)

  datatype Elem = Elem(value: Value)

  // A pointer into a node, possibly one past its end.
  datatype Ptr = Ptr(buf: array<Elem>, off: int)

  /** The elements of a node: as many as fit the limit, 512 bytes unless configured otherwise, and one if none does. */
  function BufSize(limit: nat, size: nat): (b: nat)
    requires size >= 1
    ensures b >= 1 && limit < (b + 1) * size && (b * size <= limit || b == 1)
  {
    assert limit == (limit / size) * size + limit % size;
    assert (limit / size + 1) * size == (limit / size) * size + size;
    if size < limit then limit / size else 1
  }

  /** The node offset that the iterator computes by hand with truncating division. */
  function NodeOffset(offset: int, b: nat): int
    requires b >= 1 && !(0 <= offset < b)
  {
    if offset > 0 then offset / b else -((-offset - 1) / b) - 1
  }

  /** Whatever the sign of the offset, the division rounds down: 0 <= remainder < b. */
  lemma NodeOffsetRoundsDown(offset: int, b: nat)
    requires b >= 1 && !(0 <= offset < b)
    ensures 0 <= offset - NodeOffset(offset, b) * b < b
  {
    if offset <= 0 {
      var m := -offset - 1;
      assert m == (m / b) * b + m % b;
      assert NodeOffset(offset, b) * b == -((m / b) * b) - b;
    } else {
      assert offset == (offset / b) * b + offset % b;
    }
  }

  lemma {:induction false} NodeEnds(b: nat, i: int, j: int)
    requires i < j
    ensures i * b + b <= j * b
    decreases j - i
  {
    if i + 1 < j {
      NodeEnds(b, i + 1, j);
    }
    assert (i + 1) * b == i * b + b;
  }

  lemma PlaceOrder(b: nat, i: int, x: int, j: int, y: int)
    requires 0 <= x < b && 0 <= y < b
    ensures i * b + x < j * b + y <==> i < j || (i == j && x < y)
  {
    if i < j {
      NodeEnds(b, i, j);
    } else if j < i {
      NodeEnds(b, j, i);
    }
  }

  lemma SamePlace(b: nat, i: int, x: int, j: int, y: int)
    requires 0 <= x < b && 0 <= y < b
    ensures i * b + x == j * b + y <==> i == j && x == y
  {
    PlaceOrder(b, i, x, j, y);
    PlaceOrder(b, j, y, i, x);
  }

  class Iterator {
    const b: nat
    var cur: Ptr
    var first: Ptr
    var last: Ptr
    var slots: array<array?<Elem>>
    var node: int

    // The class invariant of a nonsingular iterator.
    ghost predicate Valid()
      reads this, slots
    {
      && b >= 1 && HasNode(slots, node, b)
      && first == Ptr(slots[node], 0) && last == Ptr(slots[node], b)
      && cur.buf == slots[node] && 0 <= cur.off < b
    }

    /** The integer an iterator stands for. */
    ghost function Position(): int
      reads this
    {
      node * b + cur.off
    }

    // An iterator that points nowhere yet.
    constructor Singular(b: nat)
      ensures this.b == b
    {
      this.b, node := b, 0;
      var none := new Elem[0];
      slots := new array?<Elem>[0];
      cur, first, last := Ptr(none, 0), Ptr(none, 0), Ptr(none, 0);
    }

    // A copy of it.
    constructor Copy(it: Iterator)
      ensures b == it.b && cur == it.cur && first == it.first && last == it.last && slots == it.slots && node == it.node
    {
      b, cur, first, last, slots, node := it.b, it.cur, it.first, it.last, it.slots, it.node;
    }

    constructor At(b: nat, slots: array<array?<Elem>>, node: nat, off: nat)
      requires off < b && HasNode(slots, node, b)
      ensures Valid() && this.b == b && this.slots == slots && this.node == node && cur.off == off
    {
      this.b, this.slots, this.node := b, slots, node;
      first, last, cur := Ptr(slots[node], 0), Ptr(slots[node], b), Ptr(slots[node], off);
    }

    method Assign(it: Iterator)
      requires b == it.b
      modifies this
      ensures cur == old(it.cur) && first == old(it.first) && last == old(it.last)
      ensures slots == old(it.slots) && node == old(it.node)
    {
      cur, first, last, slots, node := it.cur, it.first, it.last, it.slots, it.node;
    }

    // All that an iterator holds.
    ghost function Fields(): (Ptr, Ptr, Ptr, array<array?<Elem>>, int)
      reads this
    {
      (cur, first, last, slots, node)
    }

    ghost predicate Takes(f: (Ptr, Ptr, Ptr, array<array?<Elem>>, int))
      reads this
    {
      cur == f.0 && first == f.1 && last == f.2 && slots == f.3 && node == f.4
    }

    method Swap(it: Iterator)
      requires b == it.b
      modifies this, it
      ensures Takes(old(it.Fields())) && it.Takes(old(Fields()))
    {
      var x := new Iterator.Copy(this);
      Assign(it);
      it.Assign(x);
    }

    // Everything but cur, which the caller sets next.
    method SetNode(newNode: int)
      requires HasNode(slots, newNode, b)
      modifies `node, `first, `last
      ensures node == newNode && first == Ptr(slots[newNode], 0) && last == Ptr(slots[newNode], b)
    {
      node := newNode;
      first := Ptr(slots[newNode], 0);
      last := Ptr(first.buf, first.off + b);
    }

    method Increment()
      requires Valid() && (cur.off + 1 == b ==> HasNode(slots, node + 1, b))
      modifies `cur, `first, `last, `node
      ensures Valid() && Position() == old(Position()) + 1
    {
      ghost var n := node;
      cur := Ptr(cur.buf, cur.off + 1);
      if cur == last {
        SetNode(node + 1);
        cur := first;
        assert (n + 1) * b == n * b + b;
      }
    }

    method Decrement()
      requires Valid() && (cur.off == 0 ==> HasNode(slots, node - 1, b))
      modifies `cur, `first, `last, `node
      ensures Valid() && Position() == old(Position()) - 1
    {
      ghost var n := node;
      if cur == first {
        SetNode(node - 1);
        cur := last;
        assert (n - 1) * b == n * b - b;
      }
      cur := Ptr(cur.buf, cur.off - 1);
    }

    // += n for n of either sign, when the place it leads to is in a node.
    method Advance(n: int)
      requires Valid()
      requires forall m {:trigger HasNode(slots, m, b)} :: m * b <= Position() + n < m * b + b ==> HasNode(slots, m, b)
      modifies `cur, `first, `last, `node
      ensures Valid() && Position() == old(Position()) + n
    {
      var offset := n + (cur.off - first.off);
      if 0 <= offset < b {
        cur := Ptr(cur.buf, cur.off + n);
      } else {
        var nodeOffset := NodeOffset(offset, b);
        NodeOffsetRoundsDown(offset, b);
        assert (node + nodeOffset) * b == node * b + nodeOffset * b;
        assert HasNode(slots, node + nodeOffset, b);
        SetNode(node + nodeOffset);
        cur := Ptr(first.buf, first.off + (offset - nodeOffset * b));
      }
    }

    method Retreat(n: int)
      requires Valid()
      requires forall m {:trigger HasNode(slots, m, b)} :: m * b <= Position() - n < m * b + b ==> HasNode(slots, m, b)
      modifies `cur, `first, `last, `node
      ensures Valid() && Position() == old(Position()) - n
    {
      Advance(-n);
    }

    /** operator-: the difference of the positions. */
    function Minus(y: Iterator): (d: int)
      requires Valid() && y.Valid() && slots == y.slots && b == y.b
      reads this, slots, y
      ensures d == Position() - y.Position()
    {
      assert b * (node - y.node - 1) == node * b - y.node * b - b;
      b * (node - y.node - 1) + (cur.off - first.off) + (y.last.off - y.cur.off)
    }

    /** operator<: the order of the positions. */
    predicate Less(y: Iterator)
      requires Valid() && y.Valid() && slots == y.slots && b == y.b
      reads this, slots, y
      ensures Less(y) <==> Position() < y.Position()
    {
      PlaceOrder(b, node, cur.off, y.node, y.cur.off);
      if node == y.node then cur.off < y.cur.off else node < y.node
    }

    /** operator== compares cur alone; with different nodes different buffers, it is equality of positions. */
    predicate Equals(y: Iterator)
      requires Valid() && y.Valid() && slots == y.slots && b == y.b
      requires node != y.node ==> slots[node] != slots[y.node]
      reads this, slots, y
      ensures Equals(y) <==> Position() == y.Position()
    {
      SamePlace(b, node, cur.off, y.node, y.cur.off);
      cur == y.cur
    }
  }

  // The map slot i holds a node of b elements.
  ghost predicate HasNode(slots: array<array?<Elem>>, i: int, b: nat)
    reads slots
  {
    0 <= i < slots.Length && slots[i] != null && slots[i].Length == b
  }
}
