// Nodes, hashing and the bucket invariant of the hash table, on values:
// nothing here depends on the heap except the shape of the node list.
module HashNodes {

  type Key(0, !new)
  type Value(0, !new)
  type Class(==, !new)

  /** Equality and hashing. `cls` maps a key to its equivalence class, so two keys
      are equal when their classes are; `ranged(c, n)` is the bucket of class `c`
      among `n` buckets. Any equivalence relation, and any hash that agrees on equal
      keys, has this form. */
  datatype Hasher = Hasher(cls: Key -> Class, ranged: (Class, nat) -> nat)

  class Node {
    const key: Key
    const val: Value
    var nxt: Node?

    constructor (key: Key, val: Value)
      ensures this.key == key && this.val == val && nxt == null
    {
      this.key, this.val, nxt := key, val, null;
    }

    // The embedded node before the first element. Its element is never read.
    constructor BeforeBegin()
      ensures nxt == null
    {
      nxt := null;
    }
  }

  function KeyClass(h: Hasher, k: Key): Class {
    h.cls(k)
  }

  function NodeClass(h: Hasher, n: Node): Class {
    KeyClass(h, n.key)
  }

  function Index(h: Hasher, c: Class, count: nat): nat {
    h.ranged(c, count)
  }

  function Bucket(h: Hasher, count: nat, n: Node): nat {
    Index(h, NodeClass(h, n), count)
  }

  ghost predicate Lawful(h: Hasher) {
    forall c: Class, count: nat :: count >= 1 ==> Index(h, c, count) < count
  }

  // ----- the node list -----

  // A spine is the before-begin node followed by the element nodes in list order.
  ghost predicate Distinct(sp: seq<Node>) {
    forall i, j :: 0 <= i < j < |sp| ==> sp[i] != sp[j]
  }

  ghost function Succ(sp: seq<Node>, i: nat): Node? {
    if i + 1 < |sp| then sp[i + 1] else null
  }

  // The nodes sp[lo..hi] point to their successors in sp, the last node of sp to null.
  ghost predicate Linked(sp: seq<Node>, lo: nat, hi: nat)
    reads sp
  {
    forall i {:trigger sp[i].nxt} :: lo <= i < hi && i < |sp| ==> sp[i].nxt == Succ(sp, i)
  }

  ghost function InsertAt(s: seq<Node>, i: nat, x: Node): seq<Node>
    requires i <= |s|
  {
    s[..i] + [x] + s[i..]
  }

  ghost function Without(s: seq<Node>, i: nat, m: nat): seq<Node>
    requires i <= m <= |s|
  {
    s[..i] + s[m..]
  }

  // s' is s without n nodes that follow each other; the others keep their order.
  ghost predicate Cut(s: seq<Node>, s': seq<Node>, n: nat) {
    exists i, j :: 0 <= i <= j <= |s| && j - i == n && s' == Without(s, i, j)
  }

  lemma CutNothing(s: seq<Node>)
    ensures Cut(s, s, 0)
  {
    assert s == Without(s, 0, 0);
  }

  lemma DistinctTail(sp: seq<Node>)
    requires Distinct(sp) && |sp| >= 1
    ensures Distinct(sp[1..]) && forall k {:trigger sp[k]} :: 1 <= k < |sp| ==> sp[k] != sp[0]
  {
  }

  lemma InsertAtFacts(sp: seq<Node>, i: nat, x: Node)
    requires 1 <= i <= |sp|
    ensures var sp' := InsertAt(sp, i, x);
            && |sp'| == |sp| + 1 && sp'[0] == sp[0] && sp'[i] == x && (i > 1 ==> sp'[1] == sp[1])
            && sp'[1..] == InsertAt(sp[1..], i - 1, x)
            && forall n :: n in sp' ==> n == x || n in sp
  {
  }

  lemma InsertAtEmpty(x: Node)
    ensures InsertAt([], 0, x) == [x]
  {
  }

  lemma WithoutFacts(sp: seq<Node>, i: nat, m: nat)
    requires 1 <= i <= m <= |sp| && Distinct(sp)
    ensures var sp' := Without(sp, i, m);
            && |sp'| == |sp| - (m - i) && sp'[0] == sp[0]
            && (forall k {:trigger sp[k]} :: i <= k < m ==> sp[k] !in sp')
            && forall n :: n in sp' ==> n in sp
  {
  }

  lemma RestIsApart(s: seq<Node>, t: nat, sp: seq<Node>, at: nat)
    requires Distinct(s) && t < |s| && at <= |sp|
    requires forall k {:trigger s[k]} :: t <= k < |s| ==> s[k] !in sp
    ensures forall k {:trigger s[k]} :: t < k < |s| ==> s[k] !in InsertAt(sp, at, s[t])
  {
  }

  // x is linked in after prev: the two assignments every insertion ends with.
  method LinkAfter(prev: Node, x: Node, ghost sp: seq<Node>, ghost i: nat)
    requires Distinct(sp) && Linked(sp, 0, |sp|)
    requires i < |sp| && sp[i] == prev && x !in sp
    modifies prev`nxt, x`nxt
    ensures Distinct(InsertAt(sp, i + 1, x)) && Linked(InsertAt(sp, i + 1, x), 0, |sp| + 1)
  {
    x.nxt := prev.nxt;
    prev.nxt := x;
  }

  // A new last node.
  method LinkLast(prev: Node, x: Node, ghost sp: seq<Node>)
    requires |sp| >= 1 && Distinct(sp) && Linked(sp, 0, |sp|)
    requires prev == sp[|sp| - 1] && x !in sp && x.nxt == null
    modifies prev`nxt
    ensures Distinct(sp + [x]) && Linked(sp + [x], 0, |sp + [x]|)
  {
    prev.nxt := x;
  }

  // prev skips the nodes sp[i..m], whatever they now hold.
  method LinkPast(prev: Node, next: Node?, ghost sp: seq<Node>, ghost i: nat, ghost m: nat)
    requires Distinct(sp) && 1 <= i <= m <= |sp|
    requires Linked(sp, 0, i - 1) && Linked(sp, m, |sp|)
    requires prev == sp[i - 1] && next == Succ(sp, m - 1)
    modifies prev`nxt
    ensures Distinct(Without(sp, i, m)) && Linked(Without(sp, i, m), 0, |Without(sp, i, m)|)
  {
    prev.nxt := next;
    ghost var sp' := Without(sp, i, m);
    forall k {:trigger sp'[k].nxt} | 0 <= k < |sp'|
      ensures sp'[k].nxt == Succ(sp', k)
    {
      assert sp'[k] == if k < i then sp[k] else sp[k + m - i];
    }
  }

  // A deallocated node: nothing is known of what it holds.
  method Deallocate(n: Node)
    modifies n`nxt
  {
    n.nxt := null;
  }

  // ----- the bucket invariant -----

  ghost predicate Starts(h: Hasher, count: nat, sp: seq<Node>, i: nat)
    requires 1 <= i < |sp|
  {
    i == 1 || Bucket(h, count, sp[i - 1]) != Bucket(h, count, sp[i])
  }

  /** The slot of each bucket holds the node just before the bucket's first node, and
      is null exactly for the empty buckets (see BucketSlots, BucketContiguous). */
  ghost predicate Bucketed(h: Hasher, count: nat, sp: seq<Node>, slots: seq<Node?>) {
    && Lawful(h)
    && |slots| == count >= 1
    && |sp| >= 1
    && (forall i {:trigger Starts(h, count, sp, i)} :: 1 <= i < |sp| && Starts(h, count, sp, i) ==>
          slots[Bucket(h, count, sp[i])] == sp[i - 1])
    && (forall b :: 0 <= b < count && slots[b] != null ==>
          exists i :: 1 <= i < |sp| && Bucket(h, count, sp[i]) == b)
  }

  lemma LawfulBuckets(h: Hasher, count: nat, sp: seq<Node>, slots: seq<Node?>)
    requires Bucketed(h, count, sp, slots)
    ensures Lawful(h)
  {
  }

  // The first node of the bucket that sp[j] is in.
  lemma {:induction false} StartBefore(h: Hasher, count: nat, sp: seq<Node>, j: nat) returns (i: nat)
    requires 1 <= j < |sp|
    ensures 1 <= i <= j && Starts(h, count, sp, i)
    ensures forall k :: i <= k <= j ==> Bucket(h, count, sp[k]) == Bucket(h, count, sp[j])
  {
    if Starts(h, count, sp, j) {
      i := j;
    } else {
      i := StartBefore(h, count, sp, j - 1);
    }
  }

  // A bucket whose slot is set: its first node, and the node the slot holds.
  lemma SlotStart(h: Hasher, count: nat, sp: seq<Node>, slots: seq<Node?>, b: nat) returns (i: nat)
    requires Bucketed(h, count, sp, slots)
    requires b < count && slots[b] != null
    ensures 1 <= i < |sp| && Starts(h, count, sp, i)
    ensures Bucket(h, count, sp[i]) == b && slots[b] == sp[i - 1]
  {
    var j :| 1 <= j < |sp| && Bucket(h, count, sp[j]) == b;
    i := StartBefore(h, count, sp, j);
  }

  lemma BucketContiguous(h: Hasher, count: nat, sp: seq<Node>, slots: seq<Node?>, i: nat, j: nat)
    requires Distinct(sp) && Bucketed(h, count, sp, slots)
    requires 1 <= i <= j < |sp| && Bucket(h, count, sp[i]) == Bucket(h, count, sp[j])
    ensures forall k :: i <= k <= j ==> Bucket(h, count, sp[k]) == Bucket(h, count, sp[j])
  {
    var a := StartBefore(h, count, sp, i);
    var b := StartBefore(h, count, sp, j);
    assert sp[a - 1] == sp[b - 1];
  }

  lemma BucketSlots(h: Hasher, count: nat, sp: seq<Node>, slots: seq<Node?>, b: nat)
    requires Distinct(sp) && Bucketed(h, count, sp, slots) && b < count
    ensures slots[b] == null <==> forall i :: 1 <= i < |sp| ==> Bucket(h, count, sp[i]) != b
    ensures forall i :: 1 <= i < |sp| && slots[b] == sp[i - 1] ==>
              Bucket(h, count, sp[i]) == b && Starts(h, count, sp, i)
  {
    if j :| 1 <= j < |sp| && Bucket(h, count, sp[j]) == b {
      var i := StartBefore(h, count, sp, j);
      assert slots[b] == sp[i - 1];
    }
    if slots[b] != null {
      var i := SlotStart(h, count, sp, slots, b);
      assert forall k {:trigger sp[k]} :: 1 <= k < |sp| && slots[b] == sp[k - 1] ==> k == i;
    }
  }

  // The bucket array is determined by the node list.
  lemma SlotsUnique(h: Hasher, count: nat, sp: seq<Node>, s: seq<Node?>, t: seq<Node?>)
    requires Bucketed(h, count, sp, s) && Bucketed(h, count, sp, t)
    ensures s == t
  {
    forall b | 0 <= b < count
      ensures s[b] == t[b]
    {
      if s[b] != null {
        var i := SlotStart(h, count, sp, s, b);
      } else if t[b] != null {
        var i := SlotStart(h, count, sp, t, b);
      }
    }
  }

  /** Place at of the list is where x goes when it is inserted first in its bucket: before all others of
      the bucket, or at the front of the list if the bucket is empty. */
  ghost predicate AtBegin(h: Hasher, count: nat, sp: seq<Node>, at: nat, x: Node) {
    && 1 <= at <= |sp|
    && if at < |sp| && Bucket(h, count, sp[at]) == Bucket(h, count, x)
       then forall i :: 1 <= i < at ==> Bucket(h, count, sp[i]) != Bucket(h, count, x)
       else at == 1 && forall i :: 1 <= i < |sp| ==> Bucket(h, count, sp[i]) != Bucket(h, count, x)
  }

  lemma BeginOfBucket(h: Hasher, count: nat, sp: seq<Node>, slots: seq<Node?>, x: Node)
    requires Distinct(sp) && Bucketed(h, count, sp, slots)
    ensures slots[Bucket(h, count, x)] == null ==> AtBegin(h, count, sp, 1, x)
    ensures forall at {:trigger Starts(h, count, sp, at)} ::
              1 <= at < |sp| && Starts(h, count, sp, at) && Bucket(h, count, sp[at]) == Bucket(h, count, x) ==>
                AtBegin(h, count, sp, at, x)
  {
    BucketSlots(h, count, sp, slots, Bucket(h, count, x));
    forall at, i | 1 <= i < at < |sp| && Starts(h, count, sp, at) && Bucket(h, count, sp[at]) == Bucket(h, count, x)
      ensures Bucket(h, count, sp[i]) != Bucket(h, count, x)
    {
      if Bucket(h, count, sp[i]) == Bucket(h, count, x) {
        BucketContiguous(h, count, sp, slots, i, at);
      }
    }
  }

  lemma EmptyBuckets(h: Hasher, count: nat, sp: seq<Node>, slots: seq<Node?>)
    requires Lawful(h) && |sp| == 1 && |slots| == count >= 1
    requires forall b :: 0 <= b < count ==> slots[b] == null
    ensures Distinct(sp) && Bucketed(h, count, sp, slots)
  {
  }

  // ----- insertion -----

  lemma StartsBoundary(h: Hasher, count: nat, sp: seq<Node>, i: nat)
    requires 1 <= i < |sp|
    ensures Starts(h, count, sp, i) <==> i == 1 || Bucket(h, count, sp[i - 1]) != Bucket(h, count, sp[i])
  {
  }

  // The slots after x went in behind sp[j]: only when sp[j] was the last node of its
  // bucket does the next bucket's slot move.
  ghost function Repaired(h: Hasher, count: nat, sp: seq<Node>, j: nat, slots: seq<Node?>): seq<Node?>
    requires Lawful(h) && 1 <= j < |sp| && |slots| == count >= 1
  {
    if j + 1 < |sp| && Bucket(h, count, sp[j + 1]) != Bucket(h, count, sp[j])
    then slots[Bucket(h, count, sp[j + 1]) := sp[j]]
    else slots
  }

  lemma InsertInside(h: Hasher, count: nat, sp: seq<Node>, slots: seq<Node?>, j: nat, x: Node)
    requires Bucketed(h, count, sp, slots) && Distinct(sp)
    requires 1 <= j < |sp| && Bucket(h, count, x) == Bucket(h, count, sp[j])
    ensures var sp' := InsertAt(sp, j + 1, x); Bucketed(h, count, sp', Repaired(h, count, sp', j + 1, slots))
  {
    var sp' := InsertAt(sp, j + 1, x);
    var slots' := Repaired(h, count, sp', j + 1, slots);
    forall i {:trigger Starts(h, count, sp', i)} | 1 <= i < |sp'| && Starts(h, count, sp', i)
      ensures slots'[Bucket(h, count, sp'[i])] == sp'[i - 1]
    {
      if i <= j {
        assert Starts(h, count, sp, i);
        if j + 2 < |sp'| && Bucket(h, count, sp'[j + 2]) == Bucket(h, count, sp'[i]) {
          BucketContiguous(h, count, sp, slots, i, j + 1);
        }
      } else if i > j + 2 {
        assert Starts(h, count, sp, i - 1);
        if Bucket(h, count, sp'[j + 2]) == Bucket(h, count, sp'[i]) {
          BucketContiguous(h, count, sp, slots, j + 1, i - 1);
        }
      }
    }
    forall b | 0 <= b < count && slots'[b] != null
      ensures exists i :: 1 <= i < |sp'| && Bucket(h, count, sp'[i]) == b
    {
      if slots[b] != null {
        var i :| 1 <= i < |sp| && Bucket(h, count, sp[i]) == b;
        assert sp'[if i <= j then i else i + 1] == sp[i];
      }
    }
  }

  // While repairs are pending, the bucket array is the right one but for the next slot.
  lemma InsertPending(h: Hasher, count: nat, sp: seq<Node>, slots: seq<Node?>, j: nat, x: Node)
    requires Lawful(h) && |slots| == count >= 1 && Distinct(sp)
    requires 1 <= j < |sp| && Bucket(h, count, x) == Bucket(h, count, sp[j])
    requires Bucketed(h, count, sp, Repaired(h, count, sp, j, slots))
    ensures Bucketed(h, count, InsertAt(sp, j + 1, x), Repaired(h, count, InsertAt(sp, j + 1, x), j + 1, slots))
  {
    InsertInside(h, count, sp, Repaired(h, count, sp, j, slots), j, x);
    var sp' := InsertAt(sp, j + 1, x);
    assert Repaired(h, count, sp', j + 1, Repaired(h, count, sp, j, slots)) == Repaired(h, count, sp', j + 1, slots);
  }

  lemma NothingPending(h: Hasher, count: nat, sp: seq<Node>, slots: seq<Node?>, j: nat)
    requires Bucketed(h, count, sp, slots) && 1 <= j < |sp|
    ensures Repaired(h, count, sp, j, slots) == slots
  {
    assert j + 1 < |sp| && Bucket(h, count, sp[j + 1]) != Bucket(h, count, sp[j]) ==> Starts(h, count, sp, j + 1);
  }

  // x becomes the first node of the non-empty bucket that starts at i.
  lemma InsertFirst(h: Hasher, count: nat, sp: seq<Node>, slots: seq<Node?>, i: nat, x: Node)
    requires Bucketed(h, count, sp, slots) && Distinct(sp)
    requires 1 <= i < |sp| && Starts(h, count, sp, i)
    requires Bucket(h, count, x) == Bucket(h, count, sp[i])
    ensures Bucketed(h, count, InsertAt(sp, i, x), slots)
  {
    var sp' := InsertAt(sp, i, x);
    forall k {:trigger Starts(h, count, sp', k)} | 1 <= k < |sp'| && Starts(h, count, sp', k)
      ensures slots[Bucket(h, count, sp'[k])] == sp'[k - 1]
    {
      if k < i {
        assert Starts(h, count, sp, k);
      } else if k > i {
        assert Starts(h, count, sp, k - 1);
      }
    }
    forall b | 0 <= b < count && slots[b] != null
      ensures exists k :: 1 <= k < |sp'| && Bucket(h, count, sp'[k]) == b
    {
      var k :| 1 <= k < |sp| && Bucket(h, count, sp[k]) == b;
      assert sp'[if k < i then k else k + 1] == sp[k];
    }
  }

  // The slots after x, the only node of its bucket, went in at the front of the list.
  ghost function FrontSlots(h: Hasher, count: nat, sp: seq<Node>, slots: seq<Node?>, x: Node): seq<Node?>
    requires Bucketed(h, count, sp, slots) && Bucket(h, count, x) < count
  {
    var s := if |sp| > 1 then slots[Bucket(h, count, sp[1]) := x] else slots;
    s[Bucket(h, count, x) := sp[0]]
  }

  lemma InsertFront(h: Hasher, count: nat, sp: seq<Node>, slots: seq<Node?>, x: Node)
    requires Bucketed(h, count, sp, slots) && Distinct(sp)
    requires Bucket(h, count, x) < count && slots[Bucket(h, count, x)] == null
    ensures Bucketed(h, count, InsertAt(sp, 1, x), FrontSlots(h, count, sp, slots, x))
  {
    var sp' := InsertAt(sp, 1, x);
    var slots' := FrontSlots(h, count, sp, slots, x);
    BucketSlots(h, count, sp, slots, Bucket(h, count, x));
    forall k {:trigger Starts(h, count, sp', k)} | 1 <= k < |sp'| && Starts(h, count, sp', k)
      ensures slots'[Bucket(h, count, sp'[k])] == sp'[k - 1]
    {
      if k > 2 {
        assert Starts(h, count, sp, k - 1);
        if Bucket(h, count, sp[1]) == Bucket(h, count, sp[k - 1]) {
          BucketContiguous(h, count, sp, slots, 1, k - 1);
        }
      }
    }
    forall b | 0 <= b < count && slots'[b] != null
      ensures exists k :: 1 <= k < |sp'| && Bucket(h, count, sp'[k]) == b
    {
      if b == Bucket(h, count, x) {
        assert sp'[1] == x;
      } else if |sp| > 1 && b == Bucket(h, count, sp[1]) {
        assert sp'[2] == sp[1];
      } else {
        var k :| 1 <= k < |sp| && Bucket(h, count, sp[k]) == b;
        assert sp'[k + 1] == sp[k];
      }
    }
  }

  // ----- removal -----

  // The slots after the block sp[i..m], all of one bucket, is cut out.
  ghost function CutSlots(h: Hasher, count: nat, sp: seq<Node>, slots: seq<Node?>, i: nat, m: nat): seq<Node?>
    requires Bucketed(h, count, sp, slots)
    requires 1 <= i < m <= |sp|
  {
    var b := Bucket(h, count, sp[i]);
    if m < |sp| && Bucket(h, count, sp[m]) == b then slots
    else
      var s := if m < |sp| then slots[Bucket(h, count, sp[m]) := sp[i - 1]] else slots;
      if Starts(h, count, sp, i) then s[b := null] else s
  }

  lemma CutBlock(h: Hasher, count: nat, sp: seq<Node>, slots: seq<Node?>, i: nat, m: nat)
    requires Bucketed(h, count, sp, slots) && Distinct(sp)
    requires 1 <= i < m <= |sp|
    requires forall k :: i <= k < m ==> Bucket(h, count, sp[k]) == Bucket(h, count, sp[i])
    ensures Bucketed(h, count, Without(sp, i, m), CutSlots(h, count, sp, slots, i, m))
  {
    var sp' := Without(sp, i, m);
    var slots' := CutSlots(h, count, sp, slots, i, m);
    var b0 := Bucket(h, count, sp[i]);
    forall k {:trigger Starts(h, count, sp', k)} | 1 <= k < |sp'| && Starts(h, count, sp', k)
      ensures slots'[Bucket(h, count, sp'[k])] == sp'[k - 1]
    {
      CutStart(h, count, sp, slots, i, m, k);
    }
    forall b | 0 <= b < count && slots'[b] != null
      ensures exists k :: 1 <= k < |sp'| && Bucket(h, count, sp'[k]) == b
    {
      if m < |sp| && b == Bucket(h, count, sp[m]) {
        assert sp'[i] == sp[m];
      } else if b == b0 {
        assert sp'[i - 1] == sp[i - 1];
      } else {
        var k :| 1 <= k < |sp| && Bucket(h, count, sp[k]) == b;
        assert sp'[if k < i then k else k - (m - i)] == sp[k];
      }
    }
  }

  lemma CutStart(h: Hasher, count: nat, sp: seq<Node>, slots: seq<Node?>, i: nat, m: nat, k: nat)
    requires Bucketed(h, count, sp, slots) && Distinct(sp)
    requires 1 <= i < m <= |sp|
    requires forall k :: i <= k < m ==> Bucket(h, count, sp[k]) == Bucket(h, count, sp[i])
    requires 1 <= k < |Without(sp, i, m)| && Starts(h, count, Without(sp, i, m), k)
    ensures Bucket(h, count, Without(sp, i, m)[k]) < count
    ensures CutSlots(h, count, sp, slots, i, m)[Bucket(h, count, Without(sp, i, m)[k])] == Without(sp, i, m)[k - 1]
  {
    var b0 := Bucket(h, count, sp[i]);
    if k < i {
      assert Starts(h, count, sp, k);
      if Bucket(h, count, sp[k]) == b0 {
        BucketContiguous(h, count, sp, slots, k, i);
      }
      if m < |sp| && Bucket(h, count, sp[k]) == Bucket(h, count, sp[m]) {
        BucketContiguous(h, count, sp, slots, k, m);
      }
    } else if k > i {
      var k' := k + m - i;
      assert Starts(h, count, sp, k');
      if Bucket(h, count, sp[m]) == Bucket(h, count, sp[k']) {
        BucketContiguous(h, count, sp, slots, m, k');
      }
      if Bucket(h, count, sp[i]) == Bucket(h, count, sp[k']) {
        BucketContiguous(h, count, sp, slots, i, k');
      }
    } else {
      if Bucket(h, count, sp[m]) == b0 {
        assert Starts(h, count, sp, i);
      }
    }
  }

  // ----- removal of a range that spans buckets -----

  // A range removal has dropped sp[i..m] and goes on with sp[m]. Only the slot of sp[m]'s
  // bucket is out of date, and only when that bucket loses its first node (`begin`).
  ghost predicate Cutting(h: Hasher, count: nat, sp: seq<Node>, slots: seq<Node?>, i: nat, m: nat, begin: bool) {
    && Lawful(h) && |slots| == count >= 1 && Distinct(sp)
    && 1 <= i <= m < |sp|
    && var b := Bucket(h, count, sp[m]);
    && Bucketed(h, count, Without(sp, i, m), if begin then slots[b := sp[i - 1]] else slots)
    && (begin <==> Starts(h, count, Without(sp, i, m), i))
    && (begin && slots[b] == sp[0] ==> i == 1)
    && (!begin ==> m == i)
  }

  // The slots after _M_remove_bucket_begin.
  ghost function RemovedSlots(slots: seq<Node?>, bkt: nat, next: Node?, nextBkt: nat): seq<Node?>
    requires bkt < |slots| && (next != null ==> nextBkt < |slots|)
  {
    if next != null && nextBkt == bkt then slots
    else (if next != null then slots[nextBkt := slots[bkt]] else slots)[bkt := null]
  }

  lemma StartCutting(h: Hasher, count: nat, sp: seq<Node>, slots: seq<Node?>, i: nat)
    requires Bucketed(h, count, sp, slots) && Distinct(sp) && 1 <= i < |sp|
    ensures slots[Bucket(h, count, sp[i])] != null
    ensures Cutting(h, count, sp, slots, i, i, slots[Bucket(h, count, sp[i])] == sp[i - 1])
  {
    var b := Bucket(h, count, sp[i]);
    BucketSlots(h, count, sp, slots, b);
    assert Without(sp, i, i) == sp;
    assert slots[b] == sp[i - 1] ==> slots[b := sp[i - 1]] == slots;
  }

  lemma WithoutWithout(sp: seq<Node>, i: nat, m: nat, m': nat)
    requires 1 <= i <= m <= m' <= |sp|
    ensures var cur := Without(sp, i, m);
            && |cur| == |sp| - (m - i) && cur[i - 1] == sp[i - 1]
            && (forall k {:trigger cur[k]} :: i <= k < |cur| ==> cur[k] == sp[k + m - i])
            && Without(cur, i, i + m' - m) == Without(sp, i, m')
  {
  }

  // The step: sp[m..m'] go too, all of the bucket of sp[m].
  lemma CutMore(h: Hasher, count: nat, sp: seq<Node>, slots: seq<Node?>, i: nat, m: nat, begin: bool, m': nat)
    requires Cutting(h, count, sp, slots, i, m, begin) && m < m' <= |sp|
    requires forall k :: m <= k < m' ==> Bucket(h, count, sp[k]) == Bucket(h, count, sp[m])
    ensures var b, next := Bucket(h, count, sp[m]), Succ(sp, m' - 1);
            var nb := if next != null then Bucket(h, count, next) else b;
            var slots1 := if begin then RemovedSlots(slots, b, next, nb) else slots;
            && |slots1| == count
            && Bucketed(h, count, Without(sp, i, m'),
                        if next != null && (nb != b || begin) then slots1[nb := sp[i - 1]] else slots1)
            && (next != null && nb != b ==> Cutting(h, count, sp, slots1, i, m', true))
  {
    hide Bucketed, Starts, Distinct, CutSlots, Without;
    var b, next := Bucket(h, count, sp[m]), Succ(sp, m' - 1);
    var nb := if next != null then Bucket(h, count, next) else b;
    var cur := Without(sp, i, m);
    var S := if begin then slots[b := sp[i - 1]] else slots;
    WithoutWithout(sp, i, m, m');
    WithoutDistinct(sp, i, m);
    CutBlock(h, count, cur, S, i, i + m' - m);
    CutSlotsRange(h, count, sp, slots, i, m, begin, m');
    if next != null && nb != b {
      CutMoreNext(h, count, sp, slots, i, m, begin, m');
    }
  }

  lemma WithoutDistinct(sp: seq<Node>, i: nat, m: nat)
    requires Distinct(sp) && i <= m <= |sp|
    ensures Distinct(Without(sp, i, m))
  {
  }

  lemma CutSlotsRange(h: Hasher, count: nat, sp: seq<Node>, slots: seq<Node?>, i: nat, m: nat, begin: bool, m': nat)
    requires Cutting(h, count, sp, slots, i, m, begin) && m < m' <= |sp|
    ensures var b, next := Bucket(h, count, sp[m]), Succ(sp, m' - 1);
            var nb := if next != null then Bucket(h, count, next) else b;
            var slots1 := if begin then RemovedSlots(slots, b, next, nb) else slots;
            (if next != null && (nb != b || begin) then slots1[nb := sp[i - 1]] else slots1)
            == CutSlots(h, count, Without(sp, i, m), if begin then slots[b := sp[i - 1]] else slots, i, i + m' - m)
  {
    hide Bucketed;
    WithoutWithout(sp, i, m, m');
  }

  lemma CutMoreNext(h: Hasher, count: nat, sp: seq<Node>, slots: seq<Node?>, i: nat, m: nat, begin: bool, m': nat)
    requires Cutting(h, count, sp, slots, i, m, begin) && m < m' < |sp|
    requires Bucket(h, count, sp[m']) != Bucket(h, count, sp[m])
    requires forall k :: m <= k < m' ==> Bucket(h, count, sp[k]) == Bucket(h, count, sp[m])
    ensures Starts(h, count, Without(sp, i, m'), i)
    ensures !begin ==> slots[Bucket(h, count, sp[m'])] != sp[0]
  {
    hide Distinct, Bucketed;
    var cur := Without(sp, i, m);
    WithoutWithout(sp, i, m, m');
    WithoutDistinct(sp, i, m);
    var S := if begin then slots[Bucket(h, count, sp[m]) := sp[i - 1]] else slots;
    var k := i + m' - m;
    if i > 1 && Bucket(h, count, sp[i - 1]) == Bucket(h, count, sp[m']) {
      BucketContiguous(h, count, cur, S, i - 1, k);
      assert false;
    }
    if !begin {
      assert cur == sp;
      BucketBefore(h, count, sp, slots, m');
    }
  }

  lemma BucketBefore(h: Hasher, count: nat, sp: seq<Node>, slots: seq<Node?>, i: nat)
    requires Bucketed(h, count, sp, slots) && Distinct(sp) && 1 < i < |sp|
    requires Bucket(h, count, sp[i - 1]) != Bucket(h, count, sp[i])
    ensures slots[Bucket(h, count, sp[i])] == sp[i - 1] != sp[0]
  {
    assert Starts(h, count, sp, i);
  }

  // ----- copying and moving whole lists -----

  // Appending a copy of tp[t] to sp, a copy of tp[..t].
  lemma AppendCopy(h: Hasher, count: nat, tp: seq<Node>, tslots: seq<Node?>, sp: seq<Node>, slots: seq<Node?>, x: Node)
    requires Bucketed(h, count, tp, tslots) && Distinct(tp)
    requires Bucketed(h, count, sp, slots) && Distinct(sp) && |sp| < |tp|
    requires forall k {:trigger sp[k]} :: 1 <= k < |sp| ==> sp[k].key == tp[k].key
    requires x.key == tp[|sp|].key
    ensures var b := Bucket(h, count, x);
            Bucketed(h, count, sp + [x], if slots[b] == null then slots[b := sp[|sp| - 1]] else slots)
  {
    var b, t := Bucket(h, count, x), |sp|;
    var sp', slots' := sp + [x], if slots[b] == null then slots[b := sp[t - 1]] else slots;
    BucketSlots(h, count, sp, slots, b);
    forall k {:trigger Starts(h, count, sp', k)} | 1 <= k < |sp'| && Starts(h, count, sp', k)
      ensures slots'[Bucket(h, count, sp'[k])] == sp'[k - 1]
    {
      if k < t {
        assert Starts(h, count, sp, k);
      } else if slots[b] != null {
        var j := SlotStart(h, count, sp, slots, b);
        assert sp[j].key == tp[j].key && sp[t - 1].key == tp[t - 1].key;
        BucketContiguous(h, count, tp, tslots, j, t);
        assert false;
      }
    }
    forall c | 0 <= c < count && slots'[c] != null
      ensures exists k :: 1 <= k < |sp'| && Bucket(h, count, sp'[k]) == c
    {
      if c == b {
        assert sp'[t] == x;
      } else {
        var k :| 1 <= k < |sp| && Bucket(h, count, sp[k]) == c;
        assert sp'[k] == sp[k];
      }
    }
  }

  // The same nodes behind another before-begin node.
  ghost function Rehomed(sp: seq<Node>, bb: Node): seq<Node>
    requires |sp| >= 1
  {
    [bb] + sp[1..]
  }

  lemma RehomedBuckets(h: Hasher, count: nat, sp: seq<Node>, slots: seq<Node?>, bb: Node)
    requires Bucketed(h, count, sp, slots) && Distinct(sp) && bb !in sp[1..]
    ensures Distinct(Rehomed(sp, bb))
    ensures Bucketed(h, count, Rehomed(sp, bb), if |sp| > 1 then slots[Bucket(h, count, sp[1]) := bb] else slots)
  {
    var sp' := Rehomed(sp, bb);
    var slots' := if |sp| > 1 then slots[Bucket(h, count, sp[1]) := bb] else slots;
    forall k {:trigger Starts(h, count, sp', k)} | 1 <= k < |sp'| && Starts(h, count, sp', k)
      ensures slots'[Bucket(h, count, sp'[k])] == sp'[k - 1]
    {
      assert sp'[k] == sp[k] && Starts(h, count, sp, k);
      if k > 1 && Bucket(h, count, sp[1]) == Bucket(h, count, sp[k]) {
        BucketContiguous(h, count, sp, slots, 1, k);
      }
    }
    forall c | 0 <= c < count && slots'[c] != null
      ensures exists k :: 1 <= k < |sp'| && Bucket(h, count, sp'[k]) == c
    {
      if |sp| > 1 && c == Bucket(h, count, sp[1]) {
        assert sp'[1] == sp[1];
      } else {
        var k :| 1 <= k < |sp| && Bucket(h, count, sp[k]) == c;
        assert sp'[k] == sp[k];
      }
    }
  }
}
