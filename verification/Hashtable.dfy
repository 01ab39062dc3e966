module Hashtable {
  import opened HashNodes
  import opened HashGroups

  // The policy's answer when an element is about to be inserted.
  datatype NeedRehash = Keep | Rehash(count: nat)

  // How the policy sizes the bucket array.
  datatype Policy = Policy(nextBkt: nat -> nat, bktForElements: nat -> nat) {
    ghost predicate Lawful() {
      forall n :: nextBkt(n) >= n && nextBkt(n) >= 1
    }
  }

  // A class occurs only in its own bucket: outside the run sp[start..last] there is none.
  lemma OtherBuckets(h: Hasher, count: nat, sp: seq<Node>, slots: seq<Node?>, start: nat, last: nat, c: Class)
    requires Distinct(sp) && Bucketed(h, count, sp, slots)
    requires 1 <= start <= last < |sp| && Starts(h, count, sp, start)
    requires Bucket(h, count, sp[start]) == Index(h, c, count) == Bucket(h, count, sp[last])
    ensures forall i :: 1 <= i < start ==> NodeClass(h, sp[i]) != c
    ensures last + 1 < |sp| && Bucket(h, count, sp[last + 1]) != Bucket(h, count, sp[last]) ==>
              forall i :: last < i < |sp| ==> NodeClass(h, sp[i]) != c
  {
    forall i | 1 <= i < |sp| && NodeClass(h, sp[i]) == c
      ensures start <= i
      ensures last + 1 < |sp| && Bucket(h, count, sp[last + 1]) != Bucket(h, count, sp[last]) ==> i <= last
    {
      BucketContiguous(h, count, sp, slots, if i < start then i else start, if i < start then start else i);
    }
  }

  // A rehash has moved s[..t] into sp and is about to move p; nxt still links the rest of s.
  ghost predicate Moving(h: Hasher, sp: seq<Node>, s: seq<Node>, t: nat, p: Node?)
    reads sp, s
  {
    && t <= |s| && p == (if t < |s| then s[t] else null) && Linked(s, t, |s|)
    && |sp| == t + 1 && Distinct(sp) && Linked(sp, 0, |sp|)
    && (forall k {:trigger s[k]} :: t <= k < |s| ==> s[k] !in sp)
    && SameGroups(h, sp[1..], s[..t]) && Grouped(h, sp[1..])
  }

  lemma MovingNothing(h: Hasher, n: nat, sp: seq<Node>, s: seq<Node>, slots: seq<Node?>)
    requires Lawful(h) && |sp| == 1 && sp[0].nxt == null && sp[0] !in s && Linked(s, 0, |s|)
    requires |slots| == n >= 1 && forall b :: 0 <= b < n ==> slots[b] == null
    ensures Moving(h, sp, s, 0, if s == [] then null else s[0]) && Bucketed(h, n, sp, slots)
  {
    EmptyBuckets(h, n, sp, slots);
    assert sp[1..] == s[..0];
  }

  lemma NextToMove(h: Hasher, sp: seq<Node>, s: seq<Node>, t: nat, p: Node)
    requires Moving(h, sp, s, t, p)
    ensures t < |s| && p == s[t] && p.nxt == Succ(s, t) && |sp| == t + 1 && Linked(sp, 0, |sp|)
  {
  }

  lemma MovedAll(h: Hasher, sp: seq<Node>, s: seq<Node>, t: nat)
    requires Moving(h, sp, s, t, null)
    ensures |sp| == |s| + 1 && Distinct(sp) && Linked(sp, 0, |sp|)
    ensures SameGroups(h, sp[1..], s) && Grouped(h, sp[1..])
    ensures Unique(h, s) ==> Unique(h, sp[1..])
  {
    assert s[..t] == s;
    if Unique(h, s) {
      SameGroupsUnique(h, sp[1..], s);
    }
  }

  // p goes in behind the node moved last, which is in the same bucket.
  lemma MovedInside(h: Hasher, sp: seq<Node>, s: seq<Node>, t: nat, j: nat)
    requires 0 < t < |s| && Grouped(h, s) && 1 <= j < |sp| && sp[j] == s[t - 1] && Distinct(sp)
    requires SameGroups(h, sp[1..], s[..t]) && Grouped(h, sp[1..])
    ensures SameGroups(h, InsertAt(sp, j + 1, s[t])[1..], s[..t + 1])
    ensures Grouped(h, InsertAt(sp, j + 1, s[t])[1..])
  {
    hide Grouped, Group;
    var sq, x := sp[1..], s[t];
    DistinctTail(sp);
    hide Distinct;
    LastMoved(h, sq, s[..t], j - 1);
    GroupEmpty(h, sq[j..], NodeClass(h, sp[j]));
    assert j < |sq| ==> sq[j] == sq[j..][0];
    if NodeClass(h, x) == NodeClass(h, sp[j]) {
      MovedAfterLast(h, sq, s[..t], j - 1, x);
    } else {
      NewClass(h, s, t);
      MovedNew(h, sq, s[..t], j, x);
    }
    GroupedInsert(h, sq, j, x);
    InsertAtFacts(sp, j + 1, x);
    assert s[..t + 1] == s[..t] + [x];
  }

  // p starts its bucket anew.
  lemma MovedToBegin(h: Hasher, n: nat, sp: seq<Node>, s: seq<Node>, t: nat, at: nat)
    requires t < |s| && |sp| >= 1 && SameGroups(h, sp[1..], s[..t]) && Grouped(h, sp[1..])
    requires Group(h, s[..t], NodeClass(h, s[t])) == []
    requires 1 <= at <= |sp|
    requires 1 < at < |sp| ==> Bucket(h, n, sp[at - 1]) != Bucket(h, n, sp[at])
    ensures SameGroups(h, InsertAt(sp, at, s[t])[1..], s[..t + 1])
    ensures Grouped(h, InsertAt(sp, at, s[t])[1..])
  {
    hide Grouped, Group;
    MovedNew(h, sp[1..], s[..t], at - 1, s[t]);
    GroupedInsert(h, sp[1..], at - 1, s[t]);
    InsertAtFacts(sp, at, s[t]);
    assert s[..t + 1] == s[..t] + [s[t]];
  }

  lemma ErasedKeys(h: Hasher, sp: seq<Node>, i: nat, m: nat)
    requires 1 <= i <= m <= |sp| && Grouped(h, sp[1..])
    ensures Grouped(h, Without(sp, i, m)[1..])
    ensures Unique(h, sp[1..]) ==> Unique(h, Without(sp, i, m)[1..])
  {
    hide Grouped, Unique;
    assert Without(sp, i, m)[1..] == Without(sp[1..], i - 1, m - 1);
    GroupedWithout(h, sp[1..], i - 1, m - 1);
    if Unique(h, sp[1..]) {
      UniqueWithout(h, sp[1..], i - 1, m - 1);
    }
  }

  lemma ErasedNodes(sp: seq<Node>, i: nat, m: nat)
    requires 1 <= i <= m <= |sp|
    ensures Without(sp, i, m)[1..] == Without(sp[1..], i - 1, m - 1)
  {
  }

  lemma UniqueRun(h: Hasher, s: seq<Node>, i: nat)
    requires Unique(h, s) && i < |s|
    ensures Group(h, s, NodeClass(h, s[i])) == s[i..i + 1]
  {
    GroupIsRun(h, s, i, i + 1);
  }

  lemma BeginNotFirst(h: Hasher, count: nat, sp: seq<Node>, slots: seq<Node?>, i: nat, m: nat)
    requires Cutting(h, count, sp, slots, i, m, true)
    ensures slots[Bucket(h, count, sp[m])] == sp[0] ==> i == 1
  {
  }

  lemma BeginsBucket(h: Hasher, count: nat, sp: seq<Node>, slots: seq<Node?>, i: nat)
    requires Bucketed(h, count, sp, slots) && Distinct(sp) && Linked(sp, 0, |sp|) && 1 <= i < |sp|
    ensures var b := slots[Bucket(h, count, sp[i])]; b != null && (b.nxt == sp[i] <==> b == sp[i - 1])
  {
    BucketSlots(h, count, sp, slots, Bucket(h, count, sp[i]));
    var k := SlotStart(h, count, sp, slots, Bucket(h, count, sp[i]));
    assert sp[k - 1].nxt == Succ(sp, k - 1) && sp[i - 1].nxt == Succ(sp, i - 1);
  }

  lemma SameKeys(h: Hasher, s: seq<Node>, t: seq<Node>)
    requires |s| == |t| && forall k {:trigger s[k]} {:trigger t[k]} :: 0 <= k < |s| ==> s[k].key == t[k].key
    ensures Grouped(h, s) ==> Grouped(h, t)
    ensures Unique(h, s) ==> Unique(h, t)
  {
    assert forall k {:trigger NodeClass(h, t[k])} :: 0 <= k < |t| ==> NodeClass(h, t[k]) == NodeClass(h, s[k]);
  }

  lemma SwappedSpines(sp: seq<Node>, xsp: seq<Node>)
    requires |sp| >= 1 && |xsp| >= 1 && Distinct(sp) && Distinct(xsp) && forall n :: n in sp ==> n !in xsp
    ensures sp[0] != xsp[0] && sp[0] !in xsp[1..] && xsp[0] !in sp[1..] && sp[0] !in sp[1..] && xsp[0] !in xsp[1..]
    ensures forall n :: n in Rehomed(xsp, sp[0]) ==> n !in Rehomed(sp, xsp[0])
  {
    assert sp[0] in sp;
    assert forall k {:trigger sp[k]} :: 0 <= k < |sp| ==> sp[k] in sp;
  }

  lemma RehomedSelf(sp: seq<Node>)
    requires |sp| >= 1 && Distinct(sp)
    ensures sp[0] !in sp[1..] && Rehomed(sp, sp[0]) == sp
  {
  }

  lemma LinkedParts(sp: seq<Node>, i: nat)
    requires Linked(sp, 0, |sp|) && 1 <= i <= |sp|
    ensures Linked(sp, 0, i - 1) && Linked(sp, i, |sp|)
  {
  }

  lemma LinkedAround(sp: seq<Node>, i: nat, m: nat)
    requires Linked(sp, 0, |sp|) && 1 <= i < m <= |sp|
    ensures Linked(sp, 0, i - 1) && Linked(sp, m, |sp|) && sp[m - 1].nxt == Succ(sp, m - 1) && sp[i - 1].nxt == sp[i]
  {
  }

  lemma LinkedNext(sp: seq<Node>, i: nat)
    requires Linked(sp, 0, |sp|) && i < |sp|
    ensures sp[i].nxt == Succ(sp, i)
  {
  }

  lemma LinkedLess(sp: seq<Node>, i: nat)
    requires Linked(sp, 0, i) && i >= 1
    ensures Linked(sp, 0, i - 1)
  {
  }

  lemma EndsDiffer(sp: seq<Node>, i: nat, j: nat)
    requires Distinct(sp) && 1 <= i < j <= |sp|
    ensures Succ(sp, i - 1) != Succ(sp, j - 1)
  {
  }

  lemma WithoutNothing(sp: seq<Node>, i: nat)
    requires i <= |sp|
    ensures Without(sp, i, i) == sp
  {
  }

  lemma InsertedNew(h: Hasher, count: nat, sp: seq<Node>, at: nat, x: Node)
    requires 1 <= at <= |sp| && Grouped(h, sp[1..]) && Group(h, sp[1..], NodeClass(h, x)) == []
    requires 1 < at < |sp| ==> Bucket(h, count, sp[at - 1]) != Bucket(h, count, sp[at])
    ensures Grouped(h, InsertAt(sp[1..], at - 1, x))
    ensures Unique(h, sp[1..]) ==> Unique(h, InsertAt(sp[1..], at - 1, x))
    ensures Joined(h, sp[1..], InsertAt(sp[1..], at - 1, x), x, 0)
  {
    hide Group, Grouped, Unique;
    var s := sp[1..];
    GroupedInsert(h, s, at - 1, x);
    GroupsInsertNew(h, s, at - 1, x);
    if Unique(h, s) {
      UniqueInsert(h, s, at - 1, x);
    }
    GroupOne(h, x);
    InsertAtEmpty(x);
  }

  // Different nodes, the same elements in the same order.
  ghost predicate CopyOf(s: seq<Node>, t: seq<Node>) {
    |s| == |t| && forall i :: 0 <= i < |s| ==> s[i].key == t[i].key && s[i].val == t[i].val
  }

  class Table {
    const unique: bool
    const beforeBegin: Node
    const single: array<Node?>
    var h: Hasher
    var buckets: array<Node?>
    var bucketCount: nat
    var elementCount: nat
    ghost var spine: seq<Node>

    // Everything but the element count and the key discipline.
    ghost predicate Shape()
      reads this, buckets, spine
    {
      && Lawful(h)
      && single.Length == 1
      && buckets.Length == bucketCount >= 1
      && |spine| >= 1 && spine[0] == beforeBegin
      && Distinct(spine) && Linked(spine, 0, |spine|)
      && Bucketed(h, bucketCount, spine, buckets[..])
    }

    ghost predicate Valid()
      reads this, buckets, spine
    {
      && Shape()
      && elementCount == |spine| - 1
      && Grouped(h, spine[1..])
      && (unique ==> Unique(h, spine[1..]))
    }

    /** The elements in list order. */
    ghost function Nodes(): seq<Node>
      requires |spine| >= 1
      reads this
    {
      spine[1..]
    }

    /** The nodes whose keys are in class c, in list order. */
    ghost function Content(c: Class): seq<Node>
      requires |spine| >= 1
      reads this
    {
      Group(h, Nodes(), c)
    }

    ghost function Repr(): set<object>
      reads this
    {
      {this, buckets, single} + set n | n in spine
    }

    // Two tables that share neither nodes nor bucket arrays.
    ghost predicate Apart(x: Table)
      reads this, x
    {
      && this != x
      && {buckets, single} !! {x.buckets, x.single}
      && forall n :: n in spine ==> n !in x.spine
    }

    constructor (unique: bool, h: Hasher)
      requires Lawful(h)
      ensures Valid() && fresh(Repr()) && Nodes() == []
      ensures this.unique == unique && this.h == h && bucketCount == 1
    {
      this.unique, this.h := unique, h;
      beforeBegin := new Node.BeforeBegin();
      single := new Node?[1](_ => null);
      bucketCount, elementCount := 1, 0;
      new;
      buckets := single;
      spine := [beforeBegin];
    }

    /** The copy of a table: new nodes, same elements in the same order. */
    constructor Copy(ht: Table)
      requires ht.Valid()
      ensures Valid() && h == ht.h && unique == ht.unique && bucketCount == ht.bucketCount &&
              CopyOf(Nodes(), ht.Nodes())
      ensures fresh(beforeBegin) && fresh(single) && fresh(buckets) && forall n :: n in Nodes() ==> fresh(n)
    {
      unique, h := ht.unique, ht.h;
      bucketCount, elementCount := ht.bucketCount, ht.elementCount;
      beforeBegin := new Node.BeforeBegin();
      single := new Node?[1](_ => null);
      new;
      hide Distinct, Linked, Starts, Bucketed, Grouped, Unique, CopyOf;
      buckets := AllocateBuckets(bucketCount);
      Assign(ht);
    }

    /** Takes over the buckets and nodes of ht, which is left empty. */
    constructor MoveFrom(ht: Table)
      requires ht.Valid()
      modifies ht, ht.buckets, ht.single, ht.beforeBegin
      ensures Valid() && h == old(ht.h) && unique == ht.unique && bucketCount == old(ht.bucketCount) &&
              Nodes() == old(ht.Nodes())
      ensures fresh(beforeBegin) && fresh(single) && (buckets == single || buckets == old(ht.buckets) != ht.single)
      ensures ht.Valid() && ht.Nodes() == [] && ht.bucketCount == 1 && ht.buckets == ht.single
    {
      unique, h := ht.unique, ht.h;
      bucketCount, elementCount := ht.bucketCount, ht.elementCount;
      beforeBegin := new Node.BeforeBegin();
      single := new Node?[1](_ => null);
      buckets := ht.buckets;
      new;
      ghost var sp := ht.spine;
      assert forall k {:trigger sp[k]} :: 0 <= k < |sp| ==> sp[k] != beforeBegin;
      TakeFrom(ht);
      DistinctTail(sp);
      hide Distinct, Linked, Starts, Bucketed, Grouped, Unique;
      assert forall k {:trigger spine[k]} :: 0 <= k < |spine| ==> spine[k] != ht.beforeBegin;
      ht.Reset();
    }

    // The list and the buckets of ht, whose other fields this table has already.
    method TakeFrom(ht: Table)
      requires ht.Valid() && ht != this && beforeBegin !in ht.spine
      requires h == ht.h && unique == ht.unique && bucketCount == ht.bucketCount && elementCount == ht.elementCount
      requires buckets == ht.buckets && single.Length == 1 && single != ht.single && single != ht.buckets
      modifies this`buckets, this`spine, single, buckets, beforeBegin
      ensures Valid() && spine == Rehomed(ht.spine, beforeBegin)
      ensures buckets == if ht.UsesSingleBucket() then single else ht.buckets
    {
      DistinctTail(ht.spine);
      LinkedNext(ht.spine, 0);
      LinkedParts(ht.spine, 1);
      hide Distinct, Linked, Starts, Bucketed, Grouped, Unique;
      beforeBegin.nxt := ht.beforeBegin.nxt;
      if ht.UsesSingleBucket() {
        buckets := single;
        single[0] := ht.single[0];
      }
      assert buckets[..] == old(ht.buckets[..]);
      Rehome(ht.spine);
    }

    predicate UsesSingleBucket()
      reads this
    {
      buckets == single
    }

    // The list sp, so far behind another before-begin node, is now behind this table's.
    method Rehome(ghost sp: seq<Node>)
      requires single.Length == 1 && buckets.Length == bucketCount >= 1 && elementCount == |sp| - 1
      requires Distinct(sp) && Bucketed(h, bucketCount, sp, buckets[..]) && Linked(sp, 1, |sp|)
      requires beforeBegin !in sp[1..] && beforeBegin.nxt == Succ(sp, 0)
      requires Grouped(h, sp[1..]) && (unique ==> Unique(h, sp[1..]))
      modifies this`spine, buckets
      ensures Valid() && spine == Rehomed(sp, beforeBegin)
    {
      hide Starts, Bucketed, Grouped, Unique;
      LawfulBuckets(h, bucketCount, sp, buckets[..]);
      RehomedBuckets(h, bucketCount, sp, buckets[..], beforeBegin);
      hide Distinct;
      if beforeBegin.nxt != null {
        buckets[Bucket(h, bucketCount, beforeBegin.nxt)] := beforeBegin;
      }
      spine := Rehomed(sp, beforeBegin);
      assert spine[1..] == sp[1..];
    }

    method Reset()
      requires Lawful(h) && single.Length == 1
      modifies this, single, beforeBegin
      ensures Valid() && Nodes() == [] && bucketCount == 1 && buckets == single && h == old(h)
    {
      bucketCount := 1;
      single[0] := null;
      buckets := single;
      beforeBegin.nxt := null;
      elementCount := 0;
      spine := [beforeBegin];
    }

    method AllocateBuckets(n: nat) returns (b: array<Node?>)
      requires single.Length == 1 && n >= 1
      modifies single
      ensures b.Length == n && forall i :: 0 <= i < n ==> b[i] == null
      ensures if n == 1 then b == single else fresh(b) && unchanged(single)
    {
      if n == 1 {
        single[0] := null;
        return single;
      }
      b := new Node?[n](_ => null);
    }

    // ----- lookup -----

    method FindBeforeNode(bkt: nat, k: Key) returns (prev: Node?, ghost at: nat)
      requires Shape()
      requires bkt == Index(h, KeyClass(h, k), bucketCount)
      ensures prev == null ==> forall i :: 1 <= i < |spine| ==> NodeClass(h, spine[i]) != KeyClass(h, k)
      ensures prev != null ==>
                && 1 <= at < |spine| && prev == spine[at - 1] && NodeClass(h, spine[at]) == KeyClass(h, k)
                && forall i :: 1 <= i < at ==> NodeClass(h, spine[i]) != KeyClass(h, k)
    {
      at := 0;
      BucketSlots(h, bucketCount, spine, buckets[..], bkt);
      prev := buckets[bkt];
      if prev == null {
        return;
      }
      ghost var start := SlotStart(h, bucketCount, spine, buckets[..], bkt);
      at := start;
      var p := prev.nxt;
      forall i | 1 <= i < start
        ensures Bucket(h, bucketCount, spine[i]) != bkt
      {
        if Bucket(h, bucketCount, spine[i]) == bkt {
          BucketContiguous(h, bucketCount, spine, buckets[..], i, start);
        }
      }
      while true
        invariant start <= at < |spine| && p == spine[at] && prev == spine[at - 1]
        invariant Bucket(h, bucketCount, spine[at]) == bkt
        invariant forall i :: 1 <= i < at ==> NodeClass(h, spine[i]) != KeyClass(h, k)
        decreases |spine| - at
      {
        if KeyClass(h, k) == NodeClass(h, p) {
          return;
        }
        if p.nxt == null || Bucket(h, bucketCount, p.nxt) != bkt {
          break;
        }
        prev, p, at := p, p.nxt, at + 1;
      }
      forall i | at < i < |spine|
        ensures Bucket(h, bucketCount, spine[i]) != bkt
      {
        if Bucket(h, bucketCount, spine[i]) == bkt {
          BucketContiguous(h, bucketCount, spine, buckets[..], at, i);
        }
      }
      prev := null;
    }

    method Find(k: Key) returns (it: Node?)
      requires Valid()
      ensures it == null <==> Content(KeyClass(h, k)) == []
      ensures it != null ==> it == Content(KeyClass(h, k))[0]
    {
      hide Distinct, Starts, Bucketed, Group, Grouped;
      ghost var at;
      var prev;
      prev, at := FindBeforeNode(Index(h, KeyClass(h, k), bucketCount), k);
      GroupEmpty(h, Nodes(), KeyClass(h, k));
      if prev == null {
        return null;
      }
      it := prev.nxt;
      FirstOfGroup(h, Nodes(), at - 1);
    }

    // Walks only the key's bucket, and stops after the first run of equal keys.
    method Count(k: Key) returns (result: nat)
      requires Valid()
      ensures result == |Content(KeyClass(h, k))|
    {
      hide Distinct, Starts, Bucketed, Group, Grouped;
      var bkt := Index(h, KeyClass(h, k), bucketCount);
      ghost var c := KeyClass(h, k);
      ghost var s := Nodes();
      BucketSlots(h, bucketCount, spine, buckets[..], bkt);
      if buckets[bkt] == null {
        GroupEmpty(h, s, c);
        return 0;
      }
      ghost var start := SlotStart(h, bucketCount, spine, buckets[..], bkt);
      var p := buckets[bkt].nxt;
      ghost var at := start - 1;
      result := 0;
      OtherBuckets(h, bucketCount, spine, buckets[..], start, start, c);
      GroupEmpty(h, s[..at], c);
      while true
        invariant start <= at + 1 < |spine| && p == s[at] && Bucket(h, bucketCount, p) == bkt
        invariant result == |Group(h, s[..at], c)|
        decreases |spine| - at
      {
        GroupNext(h, s, at, c);
        if KeyClass(h, k) == NodeClass(h, p) {
          result := result + 1;
        } else if result != 0 {
          GroupEnds(h, s, at, c);
          return;
        }
        if p.nxt == null || Bucket(h, bucketCount, p.nxt) != bkt {
          break;
        }
        p, at := p.nxt, at + 1;
      }
      OtherBuckets(h, bucketCount, spine, buckets[..], start, at + 1, c);
      GroupSplit(h, s, at + 1, c);
      GroupEmpty(h, s[at + 1..], c);
    }

    // [first, last) is the run Nodes()[i..j], and that is all of class c.
    ghost predicate IsRange(first: Node?, last: Node?, c: Class, i: nat, j: nat)
      requires |spine| >= 1
      reads this
    {
      && i <= j <= |Nodes()| && Nodes()[i..j] == Content(c)
      && if i == j then first == null && last == null else first == Nodes()[i] && last == Succ(Nodes(), j - 1)
    }

    // The half-open range [first, last) of the nodes equal to k.
    method EqualRange(k: Key) returns (first: Node?, last: Node?)
      requires Valid()
      ensures exists i: nat, j: nat :: IsRange(first, last, KeyClass(h, k), i, j)
      ensures var g := Content(KeyClass(h, k));
              if g == [] then first == null && last == null
              else first == g[0] && (g[|g| - 1] in Nodes() && last == g[|g| - 1].nxt)
    {
      hide Distinct, Starts, Bucketed, Group, Grouped;
      var bkt := Index(h, KeyClass(h, k), bucketCount);
      ghost var s := Nodes();
      var prev;
      ghost var at;
      prev, at := FindBeforeNode(bkt, k);
      if prev == null {
        GroupEmpty(h, s, KeyClass(h, k));
        assert IsRange(null, null, KeyClass(h, k), 0, 0);
        return null, null;
      }
      first := prev.nxt;
      ghost var i, j := at - 1, at;
      last := first.nxt;
      while last != null && Bucket(h, bucketCount, last) == bkt && KeyClass(h, k) == NodeClass(h, last)
        invariant i < j <= |s| && last == Succ(s, j - 1)
        invariant forall k {:trigger s[k]} :: i <= k < j ==> NodeClass(h, s[k]) == NodeClass(h, s[i])
        decreases |s| - j
      {
        last, j := last.nxt, j + 1;
      }
      GroupIsRun(h, s, i, j);
      assert IsRange(first, last, KeyClass(h, k), i, j);
      assert s[j - 1] == s[i..j][j - 1 - i] && spine[j] == s[j - 1];
    }

    // ----- insertion -----

    method InsertBucketBegin(bkt: nat, node: Node) returns (ghost at: nat)
      requires Shape() && node !in spine
      requires bkt == Bucket(h, bucketCount, node)
      modifies this`spine, buckets, spine, node
      ensures Shape()
      ensures 1 <= at <= |old(spine)| && spine == InsertAt(old(spine), at, node)
      ensures AtBegin(h, bucketCount, old(spine), at, node)
      ensures 1 < at < |old(spine)| ==>
                Bucket(h, bucketCount, old(spine)[at - 1]) != Bucket(h, bucketCount, old(spine)[at])
    {
      hide Distinct, Starts, Linked, Bucketed;
      ghost var sp, slots := spine, buckets[..];
      BeginOfBucket(h, bucketCount, sp, slots, node);
      if buckets[bkt] != null {
        at := SlotStart(h, bucketCount, sp, slots, bkt);
        InsertFirst(h, bucketCount, sp, slots, at, node);
        LinkAfter(buckets[bkt], node, sp, at - 1);
      } else {
        at := 1;
        InsertFront(h, bucketCount, sp, slots, node);
        LinkAfter(beforeBegin, node, sp, 0);
        ghost var sp' := InsertAt(sp, 1, node);
        LinkedNext(sp', 1);
        if node.nxt != null {
          buckets[Bucket(h, bucketCount, node.nxt)] := node;
        }
        buckets[bkt] := beforeBegin;
        assert buckets[..] == FrontSlots(h, bucketCount, sp, slots, node);
      }
      spine := InsertAt(sp, at, node);
    }

    // ----- rehashing -----

    // The step both rehashes share: p, of a class not moved yet, goes to the front of its
    // new bucket. beginBkt is the bucket of the first node of the list built so far.
    method MoveToBucketBegin(newBuckets: array<Node?>, beginBkt: nat, p: Node,
                             ghost sp: seq<Node>, ghost s: seq<Node>, ghost t: nat)
      returns (newBegin: nat, ghost at: nat)
      requires Moving(h, sp, s, t, p) && sp[0] == beforeBegin && Group(h, s[..t], NodeClass(h, p)) == []
      requires Distinct(s) && Bucketed(h, newBuckets.Length, sp, newBuckets[..])
      requires |sp| > 1 ==> beginBkt == Bucket(h, newBuckets.Length, sp[1])
      modifies newBuckets, beforeBegin, p, sp
      ensures 1 <= at <= |sp| && Moving(h, InsertAt(sp, at, p), s, t + 1, Succ(s, t))
      ensures Bucketed(h, newBuckets.Length, InsertAt(sp, at, p), newBuckets[..])
      ensures newBegin == Bucket(h, newBuckets.Length, InsertAt(sp, at, p)[1])
    {
      hide Distinct, Starts, Group, Grouped, SameGroups;
      var n := newBuckets.Length;
      ghost var slots := newBuckets[..];
      var bkt := Bucket(h, n, p);
      newBegin := beginBkt;
      if newBuckets[bkt] == null {
        at := 1;
        BucketSlots(h, n, sp, slots, bkt);
        InsertFront(h, n, sp, slots, p);
        LinkAfter(beforeBegin, p, sp, 0);
        assert InsertAt(sp, 1, p)[1].nxt == Succ(InsertAt(sp, 1, p), 1);
        newBuckets[bkt] := beforeBegin;
        if p.nxt != null {
          newBuckets[beginBkt] := p;
        }
        newBegin := bkt;
        assert newBuckets[..] == FrontSlots(h, n, sp, slots, p);
      } else {
        at := SlotStart(h, n, sp, slots, bkt);
        StartsBoundary(h, n, sp, at);
        InsertFirst(h, n, sp, slots, at, p);
        LinkAfter(newBuckets[bkt], p, sp, at - 1);
      }
      MovedToBegin(h, n, sp, s, t, at);
      RestIsApart(s, t, sp, at);
    }

    // p goes in behind prev, the node moved last; the next bucket's slot is left unrepaired.
    method MoveAfterPrevious(newBuckets: array<Node?>, prev: Node, p: Node, ghost checkBucket: bool,
                             ghost sp: seq<Node>, ghost s: seq<Node>, ghost t: nat, ghost j: nat)
      requires Lawful(h) && newBuckets.Length >= 1 && Distinct(s) && Grouped(h, s)
      requires 0 < t && Moving(h, sp, s, t, p) && 1 <= j < |sp| && sp[j] == prev == s[t - 1]
      requires Bucket(h, newBuckets.Length, prev) == Bucket(h, newBuckets.Length, p)
      requires var slots := newBuckets[..];
               Bucketed(h, newBuckets.Length, sp,
                        if checkBucket then Repaired(h, newBuckets.Length, sp, j, slots) else slots)
      modifies prev`nxt, p`nxt
      ensures Moving(h, InsertAt(sp, j + 1, p), s, t + 1, Succ(s, t))
      ensures Bucketed(h, newBuckets.Length, InsertAt(sp, j + 1, p),
                       Repaired(h, newBuckets.Length, InsertAt(sp, j + 1, p), j + 1, newBuckets[..]))
    {
      hide Distinct, Starts, Group, Grouped, SameGroups, Bucketed, Repaired;
      var n := newBuckets.Length;
      if !checkBucket {
        NothingPending(h, n, sp, newBuckets[..], j);
      }
      InsertPending(h, n, sp, newBuckets[..], j, p);
      LinkAfter(prev, p, sp, j);
      MovedInside(h, sp, s, t, j);
      RestIsApart(s, t, sp, j + 1);
    }

    method InstallBuckets(newBuckets: array<Node?>, n: nat, ghost sp: seq<Node>)
      requires newBuckets.Length == n && single.Length == 1
      requires |sp| >= 1 && sp[0] == beforeBegin && Distinct(sp) && Linked(sp, 0, |sp|)
      requires Bucketed(h, n, sp, newBuckets[..])
      modifies this`buckets, this`bucketCount, this`spine
      ensures Shape() && spine == sp && buckets == newBuckets && bucketCount == n
    {
      bucketCount := n;
      buckets := newBuckets;
      spine := sp;
    }

    // Allocates the new buckets and detaches the node list from the table.
    method StartRehash(n: nat) returns (newBuckets: array<Node?>, p: Node?)
      requires Shape() && n >= 1
      modifies single, beforeBegin
      ensures newBuckets.Length == n && (newBuckets == single || fresh(newBuckets))
      ensures Moving(h, [beforeBegin], Nodes(), 0, p) && Distinct(Nodes())
      ensures Bucketed(h, n, [beforeBegin], newBuckets[..])
    {
      hide Starts, Group, Grouped, SameGroups, Bucketed;
      DistinctTail(spine);
      newBuckets := AllocateBuckets(n);
      p := beforeBegin.nxt;
      beforeBegin.nxt := null;
      MovingNothing(h, n, [beforeBegin], Nodes(), newBuckets[..]);
    }

    // Keys are unique: every node goes to the front of its new bucket.
    method RehashUnique(n: nat)
      requires Valid() && n >= 1 && unique
      modifies this, single, spine
      ensures Valid() && bucketCount == n && h == old(h) && elementCount == old(elementCount)
      ensures SameGroups(h, Nodes(), old(Nodes()))
      ensures forall x :: x in spine ==> x in old(spine)
      ensures buckets == single || fresh(buckets)
    {
      hide Linked, Moving, Distinct, Starts, Group, Grouped, Unique, SameGroups, Bucketed, InsertAt;
      ghost var s := Nodes();
      var newBuckets, p := StartRehash(n);
      var beginBkt := 0;
      ghost var sp: seq<Node>, t := [beforeBegin], 0;
      while p != null
        modifies newBuckets, spine
        invariant |sp| == t + 1 && t <= |s| && sp[0] == beforeBegin && Moving(h, sp, s, t, p)
        invariant forall x :: x in sp ==> x in spine
        invariant Bucketed(h, n, sp, newBuckets[..])
        invariant |sp| > 1 ==> beginBkt == Bucket(h, n, sp[1])
        decreases |s| - t
      {
        var next := p.nxt;
        NextToMove(h, sp, s, t, p);
        assert forall k {:trigger sp[k]} :: 0 <= k < |sp| ==> sp[k] in sp;
        NewUnique(h, s, t);
        ghost var at;
        beginBkt, at := MoveToBucketBegin(newBuckets, beginBkt, p, sp, s, t);
        InsertAtFacts(sp, at, p);
        sp, t := InsertAt(sp, at, p), t + 1;
        p := next;
      }
      MovedAll(h, sp, s, t);
      InstallBuckets(newBuckets, n, sp);
    }

    // The slot of the bucket after prev's must hold prev.
    method RepairNextBucket(newBuckets: array<Node?>, prev: Node, prevBkt: nat, ghost sp: seq<Node>, ghost j: nat)
      requires Lawful(h) && newBuckets.Length >= 1
      requires 1 <= j < |sp| && prev == sp[j] && Linked(sp, 0, |sp|) && prevBkt == Bucket(h, newBuckets.Length, prev)
      modifies newBuckets
      ensures newBuckets[..] == Repaired(h, newBuckets.Length, sp, j, old(newBuckets[..]))
    {
      if prev.nxt != null {
        var nextBkt := Bucket(h, newBuckets.Length, prev.nxt);
        if nextBkt != prevBkt {
          newBuckets[nextBkt] := prev;
        }
      }
    }

    // Keys may be equal: nodes that follow each other into one bucket stay in order.
    // checkBucket says that the next bucket's slot has not been repaired yet.
    method RehashMulti(n: nat)
      requires Valid() && n >= 1 && !unique
      modifies this, single, spine
      ensures Valid() && bucketCount == n && h == old(h) && elementCount == old(elementCount)
      ensures SameGroups(h, Nodes(), old(Nodes()))
      ensures forall x :: x in spine ==> x in old(spine)
      ensures buckets == single || fresh(buckets)
    {
      hide Linked, Moving, Distinct, Starts, Group, Grouped, Unique, SameGroups, Bucketed, Repaired, InsertAt;
      ghost var s := Nodes();
      var newBuckets, p := StartRehash(n);
      var beginBkt, prevBkt := 0, 0;
      var prev: Node? := null;
      var checkBucket := false;
      ghost var sp: seq<Node>, t, j := [beforeBegin], 0, 0;
      while p != null
        modifies newBuckets, spine
        invariant |sp| == t + 1 && t <= |s| && sp[0] == beforeBegin && Moving(h, sp, s, t, p)
        invariant forall x :: x in sp ==> x in spine
        invariant prev == null <==> t == 0
        invariant prev == null ==> !checkBucket
        invariant prev != null ==> 1 <= j < |sp| && sp[j] == prev == s[t - 1] && prevBkt == Bucket(h, n, prev)
        invariant Bucketed(h, n, sp, if checkBucket then Repaired(h, n, sp, j, newBuckets[..]) else newBuckets[..])
        invariant |sp| > 1 ==> beginBkt == Bucket(h, n, sp[1])
        decreases |s| - t
      {
        var next := p.nxt;
        var bkt := Bucket(h, n, p);
        NextToMove(h, sp, s, t, p);
        assert forall k {:trigger sp[k]} :: 0 <= k < |sp| ==> sp[k] in sp;
        ghost var at := j + 1;
        if prev != null && prevBkt == bkt {
          MoveAfterPrevious(newBuckets, prev, p, checkBucket, sp, s, t, j);
          checkBucket := true;
        } else {
          if checkBucket {
            RepairNextBucket(newBuckets, prev, prevBkt, sp, j);
            checkBucket := false;
          }
          NewClass(h, s, t);
          beginBkt, at := MoveToBucketBegin(newBuckets, beginBkt, p, sp, s, t);
        }
        InsertAtFacts(sp, at, p);
        sp, t, j := InsertAt(sp, at, p), t + 1, at;
        prev, prevBkt, p := p, bkt, next;
      }
      MovedAll(h, sp, s, t);
      if checkBucket {
        RepairNextBucket(newBuckets, prev, prevBkt, sp, j);
      }
      InstallBuckets(newBuckets, n, sp);
    }

    method RehashTo(n: nat)
      requires Valid() && n >= 1
      modifies this, single, spine
      ensures Valid() && bucketCount == n && h == old(h) && elementCount == old(elementCount)
      ensures SameGroups(h, Nodes(), old(Nodes()))
      ensures forall x :: x in spine ==> x in old(spine)
      ensures buckets == single || fresh(buckets)
    {
      if unique {
        RehashUnique(n);
      } else {
        RehashMulti(n);
      }
    }

    // The number of buckets is the policy's choice for the elements there are, at least n.
    method Rehash(n: nat, policy: Policy)
      requires Valid() && policy.Lawful()
      modifies this, single, spine
      ensures Valid() && bucketCount >= n && h == old(h) && elementCount == old(elementCount)
      ensures var wanted := policy.bktForElements(elementCount + 1);
              bucketCount == policy.nextBkt(if wanted < n then n else wanted)
      ensures SameGroups(h, Nodes(), old(Nodes()))
      ensures bucketCount == old(bucketCount) ==>
                spine == old(spine) && buckets == old(buckets) && buckets[..] == old(buckets[..])
      ensures forall x :: x in spine ==> x in old(spine)
      ensures buckets == old(buckets) || buckets == single || fresh(buckets)
    {
      var wanted := policy.bktForElements(elementCount + 1);
      if wanted < n {
        wanted := n;
      }
      var count := policy.nextBkt(wanted);
      if count != bucketCount {
        RehashTo(count);
      } else {
        SameGroupsRefl(h, Nodes());
      }
    }

    // ----- inserting one element -----

    lemma ValidShape()
      requires Valid()
      ensures Shape() && |spine| >= 1 && bucketCount >= 1
    {
    }

    // node goes in behind prev: the hint when it is equal to node, or else the node before
    // the first equal one. The hint may have been the last node of its bucket.
    method LinkMulti(prev: Node, hint: Node?, node: Node, bkt: nat, ghost j: nat)
      requires Shape() && node !in spine && j < |spine| && prev == spine[j]
      requires bkt == Bucket(h, bucketCount, node)
      requires || (prev == hint && j >= 1 && NodeClass(h, prev) == NodeClass(h, node))
               || (j + 1 < |spine| && NodeClass(h, spine[j + 1]) == NodeClass(h, node))
      modifies this`spine, buckets, prev, node
      ensures Shape() && spine == InsertAt(old(spine), j + 1, node)
    {
      hide Distinct, Starts, Bucketed;
      ghost var sp, slots := spine, buckets[..];
      ghost var sp' := InsertAt(sp, j + 1, node);
      if j == 0 || Bucket(h, bucketCount, prev) != bkt {
        StartsBoundary(h, bucketCount, sp, j + 1);
        InsertFirst(h, bucketCount, sp, slots, j + 1, node);
      } else {
        InsertInside(h, bucketCount, sp, slots, j, node);
      }
      LinkAfter(prev, node, sp, j);
      assert sp'[j + 1].nxt == Succ(sp', j + 1);
      if prev == hint {
        if node.nxt != null && NodeClass(h, node.nxt) != NodeClass(h, node) {
          var nextBkt := Bucket(h, bucketCount, node.nxt);
          if nextBkt != bkt {
            buckets[nextBkt] := node;
          }
        }
      }
      spine := sp';
    }

    method InsertUniqueNode(bkt: nat, node: Node, answer: NeedRehash) returns (it: Node)
      requires Valid() && unique && node !in spine && (answer.Rehash? ==> answer.count >= 1)
      requires bkt == Bucket(h, bucketCount, node) && Content(NodeClass(h, node)) == []
      modifies this, buckets, single, spine, node
      ensures Valid() && h == old(h) && it == node
      ensures bucketCount == if answer.Rehash? then answer.count else old(bucketCount)
      ensures elementCount == old(elementCount) + 1
      ensures Joined(h, old(Nodes()), Nodes(), node, 0)
      ensures answer.Keep? ==>
                exists at :: AtBegin(h, bucketCount, old(spine), at, node) && spine == InsertAt(old(spine), at, node)
      ensures forall x :: x in spine ==> x == node || x in old(spine)
      ensures buckets == old(buckets) || buckets == single || fresh(buckets)
    {
      hide Distinct, Linked, Starts, Group, Grouped, Unique, Bucketed, InsertAt;
      ghost var s := Nodes();
      var b := bkt;
      SameGroupsRefl(h, s);
      if answer.Rehash? {
        RehashTo(answer.count);
        b := Bucket(h, bucketCount, node);
      }
      ghost var sp := spine;
      assert forall k {:trigger sp[k]} :: 0 <= k < |sp| ==> sp[k] in sp;
      ghost var at := InsertBucketBegin(b, node);
      InsertAtFacts(sp, at, node);
      InsertedNew(h, bucketCount, sp, at, node);
      elementCount := elementCount + 1;
      it := node;
    }

    method Insert(k: Key, v: Value, answer: NeedRehash) returns (it: Node, inserted: bool)
      requires Valid() && unique && (answer.Rehash? ==> answer.count >= 1)
      modifies this, buckets, single, spine
      ensures Valid() && h == old(h)
      ensures inserted == (old(Content(KeyClass(h, k))) == [])
      ensures !inserted ==> [it] == old(Content(KeyClass(h, k)))
      ensures !inserted ==> spine == old(spine) && elementCount == old(elementCount)
      ensures inserted ==> fresh(it) && it.key == k && it.val == v && elementCount == old(elementCount) + 1
      ensures inserted ==> Joined(h, old(Nodes()), Nodes(), it, 0)
      ensures inserted && answer.Keep? ==>
                exists at :: AtBegin(h, bucketCount, old(spine), at, it) && spine == InsertAt(old(spine), at, it)
      ensures bucketCount == if inserted && answer.Rehash? then answer.count else old(bucketCount)
      ensures fresh(Repr() - old(Repr()))
    {
      hide Distinct, Starts, Bucketed, Group, Grouped, Unique;
      var bkt := Index(h, KeyClass(h, k), bucketCount);
      ghost var at;
      var prev;
      ValidShape();
      prev, at := FindBeforeNode(bkt, k);
      GroupEmpty(h, Nodes(), KeyClass(h, k));
      if prev != null {
        FirstOfGroup(h, Nodes(), at - 1);
        GroupUnique(h, Nodes(), KeyClass(h, k));
        return prev.nxt, false;
      }
      var node := new Node(k, v);
      it := InsertUniqueNode(bkt, node, answer);
      inserted := true;
    }

    // Equal keys stay together: behind the hint if it is equal, else before the first equal one.
    method PlaceMulti(hint: Node?, node: Node) returns (ghost p: nat)
      requires Valid() && !unique && node !in spine
      requires hint != null ==> hint in Nodes()
      modifies this, buckets, spine, node
      ensures Valid() && h == old(h) && buckets == old(buckets) && bucketCount == old(bucketCount)
      ensures elementCount == old(elementCount) + 1
      ensures Joined(h, old(Nodes()), Nodes(), node, p)
      ensures exists at :: 1 <= at <= |old(spine)| && spine == InsertAt(old(spine), at, node)
      ensures old(Content(NodeClass(h, node))) == [] ==>
                exists at :: AtBegin(h, bucketCount, old(spine), at, node) && spine == InsertAt(old(spine), at, node)
      ensures if hint != null && NodeClass(h, hint) == NodeClass(h, node)
              then p > 0 && old(Content(NodeClass(h, node)))[p - 1] == hint
              else p == 0
      ensures forall x :: x in spine ==> x == node || x in old(spine)
    {
      hide Distinct, Linked, Starts, Group, Grouped, Unique, Bucketed, InsertAt;
      var bkt := Bucket(h, bucketCount, node);
      ghost var sp := spine;
      assert forall k {:trigger sp[k]} :: 0 <= k < |sp| ==> sp[k] in sp;
      var prev: Node?;
      ghost var j;
      if hint != null && NodeClass(h, hint) == NodeClass(h, node) {
        prev := hint;
        j :| 1 <= j < |sp| && sp[j] == hint;
        assert sp[1..][j - 1] == hint;
      } else {
        prev, j := FindBeforeNode(bkt, node.key);
        assert prev != null ==> sp[1..][j - 1] == sp[j];
        j := if prev == null then 0 else j - 1;
      }
      GroupEmpty(h, Nodes(), NodeClass(h, node));
      if prev != null {
        LinkMulti(prev, hint, node, bkt, j);
        InsertAtFacts(sp, j + 1, node);
        p := GroupsInsertEqual(h, sp[1..], j, node);
      } else {
        j := InsertBucketBegin(bkt, node);
        InsertAtFacts(sp, j, node);
        InsertedNew(h, bucketCount, sp, j, node);
        p := 0;
        InsertAtEmpty(node);
      }
      elementCount := elementCount + 1;
    }

    method InsertMultiNode(hint: Node?, node: Node, answer: NeedRehash) returns (it: Node, ghost p: nat)
      requires Valid() && !unique && node !in spine && (answer.Rehash? ==> answer.count >= 1)
      requires hint != null ==> hint in Nodes()
      modifies this, buckets, single, spine, node
      ensures Valid() && h == old(h) && it == node
      ensures bucketCount == if answer.Rehash? then answer.count else old(bucketCount)
      ensures elementCount == old(elementCount) + 1
      ensures Joined(h, old(Nodes()), Nodes(), node, p)
      ensures answer.Keep? ==> exists at :: 1 <= at <= |old(spine)| && spine == InsertAt(old(spine), at, node)
      ensures answer.Keep? && old(Content(NodeClass(h, node))) == [] ==>
                exists at :: AtBegin(h, bucketCount, old(spine), at, node) && spine == InsertAt(old(spine), at, node)
      ensures if hint != null && NodeClass(h, hint) == NodeClass(h, node)
              then p > 0 && old(Content(NodeClass(h, node)))[p - 1] == hint
              else p == 0
      ensures forall x :: x in spine ==> x == node || x in old(spine)
      ensures buckets == old(buckets) || buckets == single || fresh(buckets)
    {
      hide Shape, Group, Grouped, Unique, InsertAt;
      ValidShape();
      SameGroupsRefl(h, Nodes());
      if answer.Rehash? {
        RehashTo(answer.count);
      }
      ValidShape();
      SameGroupsMembers(h, Nodes(), old(Nodes()));
      ghost var sp := spine;
      assert forall k {:trigger sp[k]} :: 0 <= k < |sp| ==> sp[k] in sp;
      p := PlaceMulti(hint, node);
      it := node;
    }

    method InsertHint(hint: Node?, k: Key, v: Value, answer: NeedRehash) returns (it: Node, ghost p: nat)
      requires Valid() && !unique && (answer.Rehash? ==> answer.count >= 1)
      requires hint != null ==> hint in Nodes()
      modifies this, buckets, single, spine
      ensures Valid() && h == old(h)
      ensures fresh(it) && it.key == k && it.val == v
      ensures elementCount == old(elementCount) + 1
      ensures Joined(h, old(Nodes()), Nodes(), it, p)
      ensures answer.Keep? ==> exists at :: 1 <= at <= |old(spine)| && spine == InsertAt(old(spine), at, it)
      ensures answer.Keep? && old(Content(KeyClass(h, k))) == [] ==>
                exists at :: AtBegin(h, bucketCount, old(spine), at, it) && spine == InsertAt(old(spine), at, it)
      ensures bucketCount == if answer.Rehash? then answer.count else old(bucketCount)
      ensures if hint != null && NodeClass(h, hint) == KeyClass(h, k)
              then p > 0 && old(Content(KeyClass(h, k)))[p - 1] == hint
              else p == 0
      ensures fresh(Repr() - old(Repr()))
    {
      hide Shape, Group, Grouped, Unique, InsertAt;
      ValidShape();
      var node := new Node(k, v);
      it, p := InsertMultiNode(hint, node, answer);
    }

    // ----- erasing -----

    // The first nodes of bucket bkt are going, up to next.
    method RemoveBucketBegin(bkt: nat, next: Node?, nextBkt: nat)
      requires bkt < buckets.Length && (next != null ==> nextBkt < buckets.Length)
      modifies buckets, beforeBegin`nxt
      ensures buckets[..] == RemovedSlots(old(buckets[..]), bkt, next, nextBkt)
      ensures beforeBegin.nxt == if (next == null || nextBkt != bkt) && old(buckets[bkt]) == beforeBegin
                                 then next else old(beforeBegin.nxt)
    {
      if next == null || nextBkt != bkt {
        if next != null {
          buckets[nextBkt] := buckets[bkt];
        }
        if beforeBegin == buckets[bkt] {
          beforeBegin.nxt := next;
        }
        buckets[bkt] := null;
      }
    }

    // Repairs the slots for the removal of spine[i..m], all of bucket bkt; next is spine[m].
    method UnslotBlock(bkt: nat, prev: Node, next: Node?, nextBkt: nat, ghost i: nat, ghost m: nat)
      requires Bucketed(h, bucketCount, spine, buckets[..]) && Distinct(spine) && spine[0] == beforeBegin
      requires 1 <= i < m <= |spine| && prev == spine[i - 1] && next == Succ(spine, m - 1)
      requires Linked(spine, 0, i - 1) && Linked(spine, m, |spine|)
      requires bkt == Bucket(h, bucketCount, spine[i])
      requires next != null ==> nextBkt == Bucket(h, bucketCount, next)
      requires forall k :: i <= k < m ==> Bucket(h, bucketCount, spine[k]) == bkt
      modifies buckets, beforeBegin`nxt
      ensures Bucketed(h, bucketCount, Without(spine, i, m), buckets[..])
      ensures Linked(spine, 0, i - 1) && Linked(spine, m, |spine|)
    {
      CutBlock(h, bucketCount, spine, buckets[..], i, m);
      BucketSlots(h, bucketCount, spine, buckets[..], bkt);
      DistinctTail(spine);
      hide Starts, Bucketed, Distinct;
      ghost var slots := buckets[..];
      if prev == buckets[bkt] {
        RemoveBucketBegin(bkt, next, nextBkt);
      } else if next != null && nextBkt != bkt {
        buckets[nextBkt] := prev;
      }
      assert buckets[..] == CutSlots(h, bucketCount, spine, slots, i, m);
    }

    // Takes spine[i..m] out of the buckets and out of the node list. The nodes themselves may
    // already be gone: only the links outside the block are read.
    method Detach(bkt: nat, prev: Node, next: Node?, nextBkt: nat, ghost i: nat, ghost m: nat)
      requires single.Length == 1 && buckets.Length == bucketCount >= 1
      requires Bucketed(h, bucketCount, spine, buckets[..]) && Distinct(spine) && spine[0] == beforeBegin
      requires Grouped(h, spine[1..]) && (unique ==> Unique(h, spine[1..]))
      requires 1 <= i < m <= |spine| && prev == spine[i - 1] && next == Succ(spine, m - 1)
      requires Linked(spine, 0, i - 1) && Linked(spine, m, |spine|)
      requires bkt == Bucket(h, bucketCount, spine[i])
      requires next != null ==> nextBkt == Bucket(h, bucketCount, next)
      requires forall k :: i <= k < m ==> Bucket(h, bucketCount, spine[k]) == bkt
      modifies this`spine, buckets, beforeBegin`nxt, prev`nxt
      ensures Shape() && spine == Without(old(spine), i, m)
      ensures Grouped(h, spine[1..]) && (unique ==> Unique(h, spine[1..]))
    {
      hide Distinct, Linked, Starts, Bucketed, Grouped, Unique, Without;
      UnslotBlock(bkt, prev, next, nextBkt, i, m);
      LinkPast(prev, next, spine, i, m);
      WithoutFacts(spine, i, m);
      ErasedKeys(h, spine, i, m);
      spine := Without(spine, i, m);
      LawfulBuckets(h, bucketCount, spine, buckets[..]);
    }

    // prev is the node before n in its bucket bkt.
    method EraseNode(bkt: nat, prev: Node, n: Node, ghost at: nat) returns (next: Node?)
      requires Valid() && 1 <= at < |spine| && prev == spine[at - 1] && n == spine[at]
      requires bkt == Bucket(h, bucketCount, n)
      modifies this`spine, this`elementCount, buckets, spine
      ensures Valid() && spine == Without(old(spine), at, at + 1) && elementCount == old(elementCount) - 1
      ensures next == Succ(old(spine), at)
    {
      hide Distinct, Linked, Starts, Bucketed, Grouped, Unique, Without;
      ghost var sp := spine;
      WithoutFacts(sp, at, at + 1);
      LinkedAround(sp, at, at + 1);
      next := n.nxt;
      Detach(bkt, prev, next, if next != null then Bucket(h, bucketCount, next) else 0, at, at + 1);
      Deallocate(n);
      elementCount := elementCount - 1;
    }

    method GetPreviousNode(bkt: nat, n: Node, ghost at: nat) returns (prev: Node)
      requires Shape() && 1 <= at < |spine| && n == spine[at] && bkt == Bucket(h, bucketCount, n)
      ensures prev == spine[at - 1]
    {
      ghost var i := StartBefore(h, bucketCount, spine, at);
      i := i - 1;
      prev := buckets[bkt];
      while prev.nxt != n
        invariant i < at && prev == spine[i]
        decreases at - i
      {
        prev, i := prev.nxt, i + 1;
      }
    }

    // The element an iterator points to.
    method EraseAt(it: Node, ghost at: nat) returns (next: Node?)
      requires Valid() && at < |Nodes()| && it == Nodes()[at]
      modifies this`spine, this`elementCount, buckets, spine
      ensures Valid() && elementCount == old(elementCount) - 1
      ensures Nodes() == Without(old(Nodes()), at, at + 1) && spine[0] == old(spine[0])
      ensures next == Succ(old(Nodes()), at)
    {
      ghost var s := Nodes();
      var bkt := Bucket(h, bucketCount, it);
      var prev := GetPreviousNode(bkt, it, at + 1);
      hide *;
      next := EraseNode(bkt, prev, it, at + 1);
      ErasedNodes(old(spine), at + 1, at + 2);
    }

    // Keys are unique: at most one element goes.
    method EraseUnique(k: Key) returns (erased: nat)
      requires Valid() && unique
      modifies this`spine, this`elementCount, buckets, spine
      ensures Valid() && erased == |old(Content(KeyClass(h, k)))|
      ensures elementCount == old(elementCount) - erased
      ensures ClassErased(h, old(Nodes()), Nodes(), KeyClass(h, k))
      ensures Cut(old(Nodes()), Nodes(), erased)
      ensures forall x :: x in spine ==> x in old(spine)
    {
      hide Distinct, Starts, Bucketed, Group, Grouped, Unique, Without;
      var bkt := Index(h, KeyClass(h, k), bucketCount);
      ghost var at;
      var prev;
      prev, at := FindBeforeNode(bkt, k);
      GroupEmpty(h, Nodes(), KeyClass(h, k));
      CutNothing(Nodes());
      if prev == null {
        return 0;
      }
      ghost var sp := spine;
      UniqueRun(h, Nodes(), at - 1);
      GroupsCutRun(h, Nodes(), at - 1, at);
      ErasedNodes(sp, at, at + 1);
      WithoutFacts(sp, at, at + 1);
      var next := EraseNode(bkt, prev, prev.nxt, at);
      erased := 1;
    }

    // Deallocates n and its successors up to last; the block spine[i..m] is detached afterwards.
    method DeallocateBlock(first: Node, last: Node?, ghost i: nat, ghost m: nat) returns (count: nat)
      requires Distinct(spine) && Linked(spine, 0, |spine|)
      requires 1 <= i < m <= |spine| && first == spine[i] && last == Succ(spine, m - 1)
      requires elementCount >= m - i
      modifies this`elementCount, set k | i <= k < m :: spine[k]
      ensures count == m - i && elementCount == old(elementCount) - count
      ensures Linked(spine, 0, i) && Linked(spine, m, |spine|) && buckets[..] == old(buckets[..])
    {
      count := 0;
      var n := first;
      ghost var d := i;
      while true
        invariant i <= d < m && n == spine[d] && count == d - i && elementCount == old(elementCount) - count
        invariant Linked(spine, 0, i) && Linked(spine, d, |spine|) && buckets[..] == old(buckets[..])
        decreases m - d
      {
        var p := n.nxt;
        Deallocate(n);
        count := count + 1;
        elementCount := elementCount - 1;
        d := d + 1;
        if p == last {
          break;
        }
        n := p;
      }
    }

    // The end of the run of nodes equal to k that starts at first, and its bucket.
    method EqualRunEnd(k: Key, bkt: nat, first: Node, ghost at: nat) returns (last: Node?, lastBkt: nat, ghost m: nat)
      requires Linked(spine, 0, |spine|) && 1 <= at < |spine| && first == spine[at]
      requires NodeClass(h, first) == KeyClass(h, k) && bkt == Bucket(h, bucketCount, first)
      ensures at < m <= |spine| && last == Succ(spine, m - 1)
      ensures forall i :: at <= i < m ==> NodeClass(h, spine[i]) == KeyClass(h, k)
      ensures last != null ==> NodeClass(h, last) != KeyClass(h, k) && lastBkt == Bucket(h, bucketCount, last)
    {
      last, lastBkt, m := first, bkt, at;
      while true
        invariant at <= m < |spine| && last == spine[m]
        invariant forall i :: at <= i <= m ==> NodeClass(h, spine[i]) == KeyClass(h, k)
        decreases |spine| - m
      {
        last, m := last.nxt, m + 1;
        if last == null {
          return;
        }
        lastBkt := Bucket(h, bucketCount, last);
        if lastBkt != bkt || NodeClass(h, last) != KeyClass(h, k) {
          return;
        }
      }
    }

    // Frees and takes out the run spine[i..m] of bucket bkt.
    method EraseRun(bkt: nat, prev: Node, first: Node, last: Node?, lastBkt: nat, ghost i: nat, ghost m: nat)
      returns (count: nat)
      requires Valid() && 1 <= i < m <= |spine| && prev == spine[i - 1] && first == spine[i]
      requires last == Succ(spine, m - 1) && bkt == Bucket(h, bucketCount, first)
      requires last != null ==> lastBkt == Bucket(h, bucketCount, last)
      requires forall k :: i <= k < m ==> Bucket(h, bucketCount, spine[k]) == bkt
      modifies this`spine, this`elementCount, buckets, spine
      ensures Valid() && spine == Without(old(spine), i, m)
      ensures count == m - i && elementCount == old(elementCount) - count
    {
      hide Distinct, Linked, Starts, Bucketed, Grouped, Unique, Without;
      WithoutFacts(spine, i, m);
      count := DeallocateBlock(first, last, i, m);
      LinkedLess(spine, i);
      Detach(bkt, prev, last, lastBkt, i, m);
    }

    // Keys may be equal: the whole run goes.
    method EraseMulti(k: Key) returns (erased: nat)
      requires Valid() && !unique
      modifies this`spine, this`elementCount, buckets, spine
      ensures Valid() && erased == |old(Content(KeyClass(h, k)))|
      ensures elementCount == old(elementCount) - erased
      ensures ClassErased(h, old(Nodes()), Nodes(), KeyClass(h, k))
      ensures Cut(old(Nodes()), Nodes(), erased)
      ensures forall x :: x in spine ==> x in old(spine)
    {
      hide Distinct, Linked, Starts, Bucketed, Group, Grouped, Unique, Without;
      var bkt := Index(h, KeyClass(h, k), bucketCount);
      ghost var at;
      var prev;
      prev, at := FindBeforeNode(bkt, k);
      GroupEmpty(h, Nodes(), KeyClass(h, k));
      CutNothing(Nodes());
      if prev == null {
        return 0;
      }
      LinkedAround(spine, at, at + 1);
      var n := prev.nxt;
      var last, lastBkt;
      ghost var m;
      last, lastBkt, m := EqualRunEnd(k, bkt, n, at);
      GroupIsRun(h, Nodes(), at - 1, m - 1);
      GroupsCutRun(h, Nodes(), at - 1, m - 1);
      ErasedNodes(spine, at, m);
      WithoutFacts(spine, at, m);
      erased := EraseRun(bkt, prev, n, last, lastBkt, at, m);
    }

    method BucketBegin(bkt: nat) returns (n: Node?)
      requires bkt < buckets.Length
      ensures n == if buckets[bkt] == null then null else buckets[bkt].nxt
    {
      n := if buckets[bkt] == null then null else buckets[bkt].nxt;
    }

    // Deallocates from n on, to the end of its bucket or up to last.
    method DeallocateRun(first: Node, last: Node?, bkt: nat, ghost m: nat, ghost j: nat)
      returns (n: Node?, nBkt: nat, ghost m': nat)
      requires Lawful(h) && Distinct(spine) && m < j <= |spine| && Linked(spine, m, |spine|)
      requires first == spine[m] && last == Succ(spine, j - 1) && bkt == Bucket(h, bucketCount, first)
      requires elementCount >= j - m
      modifies this`elementCount, set k | m <= k < j :: spine[k]
      ensures m < m' <= j && n == Succ(spine, m' - 1) && (n != null ==> nBkt == Bucket(h, bucketCount, n))
      ensures m' == j || (n != null && nBkt != bkt)
      ensures forall k :: m <= k < m' ==> Bucket(h, bucketCount, spine[k]) == bkt
      ensures elementCount == old(elementCount) - (m' - m)
      ensures Linked(spine, m', |spine|)
      ensures forall k :: 0 <= k < m ==> spine[k].nxt == old(spine[k].nxt)
      ensures buckets[..] == old(buckets[..])
    {
      n, nBkt, m' := first, bkt, m;
      while true
        invariant m <= m' < j && n == spine[m'] && nBkt == bkt == Bucket(h, bucketCount, spine[m'])
        invariant forall k :: m <= k < m' ==> Bucket(h, bucketCount, spine[k]) == bkt
        invariant elementCount == old(elementCount) - (m' - m)
        invariant Linked(spine, m', |spine|) && buckets[..] == old(buckets[..])
        invariant forall k :: 0 <= k < m ==> spine[k].nxt == old(spine[k].nxt)
        decreases j - m'
      {
        var tmp := n;
        n, m' := n.nxt, m' + 1;
        Deallocate(tmp);
        elementCount := elementCount - 1;
        if n == null {
          break;
        }
        nBkt := Bucket(h, bucketCount, n);
        if n == last || nBkt != bkt {
          break;
        }
      }
    }

    // One bucket's share of a range erase: the nodes from first on, to the end of bucket bkt or
    // up to last. begin says that the share starts the bucket.
    method EraseShare(first: Node, last: Node?, bkt: nat, begin: bool, ghost i: nat, ghost m: nat, ghost j: nat)
      returns (n: Node?, nBkt: nat, ghost m': nat)
      requires i <= m < j <= |spine| && first == spine[m] && last == Succ(spine, j - 1)
      requires buckets.Length == bucketCount >= 1 && spine[0] == beforeBegin
      requires bkt == Bucket(h, bucketCount, first) && Cutting(h, bucketCount, spine, buckets[..], i, m, begin)
      requires Linked(spine, 0, i - 1) && Linked(spine, m, |spine|) && elementCount >= j - m
      modifies this`elementCount, buckets, spine
      ensures m < m' <= j && n == Succ(spine, m' - 1) && (n != null ==> nBkt == Bucket(h, bucketCount, n))
      ensures elementCount == old(elementCount) - (m' - m)
      ensures Linked(spine, 0, i - 1) && Linked(spine, m', |spine|)
      ensures n != null ==> nBkt < bucketCount
      ensures Bucketed(h, bucketCount, Without(spine, i, m'),
                       if n != null && (nBkt != bkt || begin) then buckets[..][nBkt := spine[i - 1]] else buckets[..])
      ensures (n == last) == (m' == j)
      ensures n != last ==> n != null && Cutting(h, bucketCount, spine, buckets[..], i, m', true)
    {
      hide Starts, Bucketed, Without;
      ghost var slots := buckets[..];
      n, nBkt, m' := DeallocateRun(first, last, bkt, m, j);
      CutMore(h, bucketCount, spine, slots, i, m, begin, m');
      hide Cutting;
      if begin {
        BeginNotFirst(h, bucketCount, spine, slots, i, m);
        RemoveBucketBegin(bkt, n, nBkt);
      }
    }

    // The last step of a range erase: the slots are right, and prev is linked past the nodes spine[i..j].
    method CloseGap(prev: Node, next: Node?, ghost i: nat, ghost j: nat)
      requires single.Length == 1 && buckets.Length == bucketCount >= 1
      requires 1 <= i <= j <= |spine| && Distinct(spine) && spine[0] == beforeBegin
      requires Bucketed(h, bucketCount, Without(spine, i, j), buckets[..])
      requires Linked(spine, 0, i - 1) && Linked(spine, j, |spine|)
      requires prev == spine[i - 1] && next == Succ(spine, j - 1)
      requires Grouped(h, spine[1..]) && (unique ==> Unique(h, spine[1..]))
      requires elementCount == |spine| - 1 - (j - i)
      modifies this`spine, prev`nxt
      ensures Valid() && spine == Without(old(spine), i, j)
    {
      hide Distinct, Linked, Starts, Bucketed, Grouped, Unique, Without;
      LawfulBuckets(h, bucketCount, Without(spine, i, j), buckets[..]);
      LinkPast(prev, next, spine, i, j);
      WithoutFacts(spine, i, j);
      ErasedKeys(h, spine, i, j);
      spine := Without(spine, i, j);
    }

    // The elements in [first, last), over any number of buckets.
    method EraseRange(first: Node?, last: Node?, ghost i: nat, ghost j: nat) returns (next: Node?)
      requires Valid() && 1 <= i <= j <= |spine|
      requires first == Succ(spine, i - 1) && last == Succ(spine, j - 1)
      modifies this`spine, this`elementCount, buckets, spine
      ensures Valid() && next == last
      ensures spine == Without(old(spine), i, j) && elementCount == old(elementCount) - (j - i)
    {
      hide Distinct, Linked, Starts, Bucketed, Grouped, Unique, Without, Cutting;
      ghost var sp := spine;
      var n := first;
      if i < j {
        EndsDiffer(sp, i, j);
      }
      if n == last {
        WithoutNothing(sp, i);
        return n;
      }
      var bkt := Bucket(h, bucketCount, n);
      var prev := GetPreviousNode(bkt, n, i);
      StartCutting(h, bucketCount, sp, buckets[..], i);
      var b := BucketBegin(bkt);
      BeginsBucket(h, bucketCount, sp, buckets[..], i);
      var begin := n == b;
      var nBkt := bkt;
      ghost var m := i;
      LinkedParts(sp, i);
      while true
        modifies this`elementCount, buckets, sp
        invariant i <= m < j && n == sp[m] && bkt == Bucket(h, bucketCount, n)
        invariant Cutting(h, bucketCount, sp, buckets[..], i, m, begin)
        invariant Linked(sp, 0, i - 1) && Linked(sp, m, |sp|)
        invariant elementCount == old(elementCount) - (m - i)
        decreases j - m
      {
        n, nBkt, m := EraseShare(n, last, bkt, begin, i, m, j);
        if n == last {
          break;
        }
        begin := true;
        bkt := nBkt;
      }
      if n != null && (nBkt != bkt || begin) {
        buckets[nBkt] := prev;
      }
      CloseGap(prev, n, i, j);
      next := n;
    }

    // Frees all elements; the before-begin node still points to the first.
    method DeallocateNodes()
      requires Valid()
      modifies set k | 1 <= k < |spine| :: spine[k]
      ensures unchanged(beforeBegin)
    {
      hide Bucketed, Starts, Grouped, Unique;
      var n := beforeBegin.nxt;
      ghost var i := 1;
      while n != null
        modifies set k | 1 <= k < |spine| :: spine[k]
        invariant 1 <= i <= |spine| && n == Succ(spine, i - 1) && Linked(spine, i, |spine|)
        decreases |spine| - i
      {
        var tmp := n;
        n, i := n.nxt, i + 1;
        Deallocate(tmp);
      }
    }

    method Clear()
      requires Valid()
      modifies this`spine, this`elementCount, buckets, spine
      ensures Valid() && Nodes() == [] && elementCount == 0 && spine[0] == old(spine[0])
    {
      DeallocateNodes();
      forall b | 0 <= b < buckets.Length {
        buckets[b] := null;
      }
      elementCount := 0;
      beforeBegin.nxt := null;
      spine := [beforeBegin];
    }

    // ----- copying -----

    // x, a copy of the next node of tp, goes behind the last node of the copy sp so far.
    method AppendNode(x: Node, prev: Node, ghost tp: seq<Node>, ghost tslots: seq<Node?>, ghost sp: seq<Node>)
      requires buckets.Length == bucketCount && Distinct(tp) && Bucketed(h, bucketCount, tp, tslots)
      requires 1 <= |sp| < |tp| && Distinct(sp) && Linked(sp, 0, |sp|) && Bucketed(h, bucketCount, sp, buckets[..])
      requires forall k {:trigger sp[k]} :: 1 <= k < |sp| ==> sp[k].key == tp[k].key
      requires x.key == tp[|sp|].key && x !in sp && x.nxt == null && prev == sp[|sp| - 1]
      modifies buckets, prev`nxt
      ensures Distinct(sp + [x]) && Linked(sp + [x], 0, |sp + [x]|) && Bucketed(h, bucketCount, sp + [x], buckets[..])
    {
      hide Distinct, Linked, Starts;
      AppendCopy(h, bucketCount, tp, tslots, sp, buckets[..], x);
      LinkLast(prev, x, sp);
      var bkt := Bucket(h, bucketCount, x);
      if buckets[bkt] == null {
        buckets[bkt] := prev;
      }
    }

    // Node by node copies of ht's elements, in ht's order, into an emptied table.
    method Assign(ht: Table)
      requires ht.Valid() && ht != this && ht.unique == unique && h == ht.h
      requires buckets.Length == bucketCount == ht.bucketCount && elementCount == ht.elementCount
      requires single.Length == 1 && beforeBegin.nxt == null
      requires forall b :: 0 <= b < buckets.Length ==> buckets[b] == null
      requires beforeBegin !in ht.spine && buckets != ht.buckets
      modifies this`spine, buckets, beforeBegin`nxt
      ensures Valid() && CopyOf(Nodes(), ht.Nodes()) && forall n :: n in Nodes() ==> fresh(n)
    {
      hide Distinct, Starts, Bucketed, Grouped, Unique;
      ghost var tp, tslots, sp: seq<Node> := ht.spine, ht.buckets[..], [beforeBegin];
      EmptyBuckets(h, bucketCount, sp, buckets[..]);
      var n := ht.beforeBegin.nxt;
      var prev := beforeBegin;
      while n != null
        modifies buckets, beforeBegin`nxt
        invariant 1 <= |sp| <= |tp| && n == Succ(tp, |sp| - 1)
        invariant sp[0] == beforeBegin && prev == sp[|sp| - 1] && prev.nxt == null
        invariant forall k {:trigger sp[k]} :: 1 <= k < |sp| ==>
                  fresh(sp[k]) && sp[k].key == tp[k].key && sp[k].val == tp[k].val
        invariant Distinct(sp) && Linked(sp, 0, |sp|) && Bucketed(h, bucketCount, sp, buckets[..])
        decreases |tp| - |sp|
      {
        var x := new Node(n.key, n.val);
        assert forall y :: y in sp ==> allocated(y);
        AppendNode(x, prev, tp, tslots, sp);
        sp := sp + [x];
        prev, n := x, n.nxt;
      }
      spine := sp;
      SameKeys(h, ht.Nodes(), Nodes());
    }

    // n empty slots, the present ones cleared if there are as many.
    method EmptySlots(n: nat)
      requires n >= 1 && single.Length == 1 && buckets.Length == bucketCount
      modifies this`buckets, this`bucketCount, buckets, single
      ensures buckets.Length == bucketCount == n && forall b :: 0 <= b < n ==> buckets[b] == null
      ensures buckets == old(buckets) || buckets == single || fresh(buckets)
    {
      if bucketCount != n {
        buckets := AllocateBuckets(n);
        bucketCount := n;
      } else {
        forall b | 0 <= b < buckets.Length {
          buckets[b] := null;
        }
      }
    }

    // n empty slots for a copy. With an allocator that cannot free the present storage in the end, that is
    // all freed first.
    method SlotsForCopy(n: nat, replacesAllocator: bool)
      requires Valid() && n >= 1
      modifies this`buckets, this`bucketCount, buckets, single, set k | 1 <= k < |spine| :: spine[k]
      ensures buckets.Length == bucketCount == n && forall b :: 0 <= b < n ==> buckets[b] == null
      ensures buckets == old(buckets) || buckets == single || fresh(buckets)
    {
      hide Distinct, Linked, Starts, Bucketed, Grouped, Unique;
      if replacesAllocator {
        DeallocateNodes();
        buckets := AllocateBuckets(n);
        bucketCount := n;
      } else {
        EmptySlots(n);
      }
    }

    // Copy assignment; every node of the copy is a new one.
    method CopyFrom(ht: Table, replacesAllocator: bool)
      requires Valid() && ht.Valid() && unique == ht.unique
      requires this == ht || Apart(ht)
      modifies this, buckets, single, spine
      ensures Valid() && ht.Valid() && ht.Nodes() == old(ht.Nodes()) && h == old(ht.h)
      ensures bucketCount == old(ht.bucketCount) == ht.bucketCount
      ensures if this == ht then Nodes() == old(Nodes())
              else CopyOf(Nodes(), ht.Nodes()) && forall n :: n in Nodes() ==> fresh(n)
    {
      if ht == this {
        return;
      }
      hide Distinct, Linked, Starts, Bucketed, Grouped, Unique, CopyOf;
      assert beforeBegin == spine[0] && beforeBegin in spine;
      assert forall k {:trigger ht.spine[k]} :: 0 <= k < |ht.spine| ==> ht.spine[k] in ht.spine;
      SlotsForCopy(ht.bucketCount, replacesAllocator);
      h, elementCount := ht.h, ht.elementCount;
      beforeBegin.nxt := null;
      Assign(ht);
    }

    // The fields of two tables, exchanged as they are: each list is still behind the other
    // table's before-begin node in the bucket of its first element.
    method SwapFields(x: Table)
      requires single.Length == 1 && x.single.Length == 1
      requires this == x || (beforeBegin != x.beforeBegin && {buckets, single} !! {x.buckets, x.single})
      requires buckets.Length == bucketCount && x.buckets.Length == x.bucketCount
      modifies this, x, single, x.single, beforeBegin, x.beforeBegin
      ensures h == old(x.h) && bucketCount == old(x.bucketCount) && elementCount == old(x.elementCount)
      ensures x.h == old(h) && x.bucketCount == old(bucketCount) && x.elementCount == old(elementCount)
      ensures buckets[..] == old(x.buckets[..]) && x.buckets[..] == old(buckets[..])
      ensures buckets.Length == bucketCount && x.buckets.Length == x.bucketCount
      ensures beforeBegin.nxt == old(x.beforeBegin.nxt) && x.beforeBegin.nxt == old(beforeBegin.nxt)
      ensures buckets == (if old(x.UsesSingleBucket()) then single else old(x.buckets))
      ensures x.buckets == (if old(UsesSingleBucket()) then x.single else old(buckets))
    {
      h, x.h := x.h, h;
      if UsesSingleBucket() {
        if !x.UsesSingleBucket() {
          buckets := x.buckets;
          x.buckets := x.single;
        }
      } else if x.UsesSingleBucket() {
        x.buckets := buckets;
        buckets := single;
      } else {
        buckets, x.buckets := x.buckets, buckets;
      }
      bucketCount, x.bucketCount := x.bucketCount, bucketCount;
      beforeBegin.nxt, x.beforeBegin.nxt := x.beforeBegin.nxt, beforeBegin.nxt;
      elementCount, x.elementCount := x.elementCount, elementCount;
      single[0], x.single[0] := x.single[0], single[0];
    }

    // Exchanges the contents of two tables, which may be one, in all four cases of single and heap buckets.
    method Swap(x: Table)
      requires Valid() && x.Valid() && unique == x.unique && (this == x || Apart(x))
      modifies this, x, buckets, x.buckets, single, x.single, beforeBegin, x.beforeBegin
      ensures Valid() && x.Valid() && (this == x || Apart(x))
      ensures Nodes() == old(x.Nodes()) && x.Nodes() == old(Nodes())
      ensures h == old(x.h) && x.h == old(h) && bucketCount == old(x.bucketCount) && x.bucketCount == old(bucketCount)
      ensures UsesSingleBucket() == old(x.UsesSingleBucket()) && x.UsesSingleBucket() == old(UsesSingleBucket())
    {
      hide Distinct, Starts, Bucketed, Grouped, Unique;
      ghost var sp, xsp := spine, x.spine;
      if this == x {
        RehomedSelf(sp);
      } else {
        SwappedSpines(sp, xsp);
      }
      SwapFields(x);
      assert Linked(xsp, 1, |xsp|) && Linked(sp, 1, |sp|);
      Rehome(xsp);
      x.Rehome(sp);
    }
  }
}
