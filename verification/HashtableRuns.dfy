// Whole runs of operations on a table, and what they mean: for any keys, any hash and any
// answers of the policy, each step changes the groups of equal keys as its contract says,
// and a unique-key table is a finite map.
module HashtableRuns {
  import opened HashNodes
  import opened HashGroups
  import opened Hashtable

  datatype Op =
    | Insert(hint: nat, k: Key, v: Value, answer: NeedRehash)
    | EraseKey(k: Key)
    | EraseNth(i: nat)
    | EraseFromTo(i: nat, j: nat)
    | Resize(n: nat, policy: Policy)
    | Clear
  {
    // The policy's own contract.
    ghost predicate Allowed() {
      && (Insert? && answer.Rehash? ==> answer.count >= 1)
      && (Resize? ==> policy.Lawful())
    }
  }

  // Where a new element joins its class: right behind the hint if that is equal, else in front.
  ghost predicate AtHint(h: Hasher, unique: bool, hint: nat, s: seq<Node>, c: Class, p: nat) {
    if !unique && hint < |s| && NodeClass(h, s[hint]) == c
    then 0 < p <= |Group(h, s, c)| && Group(h, s, c)[p - 1] == s[hint]
    else p == 0
  }

  // x is among the others, which keep their order unless the policy asked for a rehash.
  ghost predicate Placed(s: seq<Node>, s': seq<Node>, x: Node, answer: NeedRehash) {
    answer.Keep? ==> exists at :: 0 <= at <= |s| && s' == InsertAt(s, at, x)
  }

  /** One step, on the elements in list order. With equal keys allowed, a new element goes right
      behind the hint if that is equal, and before all equal ones otherwise. Erasing takes a run of
      elements out, and only a rehash puts others in another order. */
  ghost predicate Steps(h: Hasher, unique: bool, op: Op, s: seq<Node>, s': seq<Node>) {
    match op
    case Insert(hint, k, v, answer) =>
      var c := KeyClass(h, k);
      if unique && Group(h, s, c) != [] then s' == s
      else exists x, p ::
        && x in s' && x !in s && x.key == k && x.val == v && Placed(s, s', x, answer)
        && Joined(h, s, s', x, p) && AtHint(h, unique, hint, s, c, p)
    case EraseKey(k) =>
      ClassErased(h, s, s', KeyClass(h, k)) && Cut(s, s', |Group(h, s, KeyClass(h, k))|)
    case EraseNth(i) => s' == if i < |s| then Without(s, i, i + 1) else s
    case EraseFromTo(i, j) => s' == if i <= j <= |s| then Without(s, i, j) else s
    case Resize(_, _) => SameGroups(h, s', s)
    case Clear => s' == []
  }

  // The i-th iterator from begin(), end() if there are fewer elements.
  method IteratorAt(t: Table, i: nat) returns (it: Node?)
    requires t.Valid()
    ensures it == if i < |t.Nodes()| then t.Nodes()[i] else null
  {
    it := t.beforeBegin.nxt;
    var k := 0;
    while k < i && it != null
      invariant k <= i && k <= |t.Nodes()| && it == if k < |t.Nodes()| then t.Nodes()[k] else null
    {
      it, k := it.nxt, k + 1;
    }
  }

  method DoInsert(t: Table, hint: nat, k: Key, v: Value, answer: NeedRehash)
    requires t.Valid() && (answer.Rehash? ==> answer.count >= 1)
    modifies t, t.buckets, t.single, t.spine
    ensures t.Valid() && t.h == old(t.h)
    ensures Steps(t.h, t.unique, Insert(hint, k, v, answer), old(t.Nodes()), t.Nodes())
    ensures forall x :: x in t.spine ==> x in old(t.spine) || fresh(x)
    ensures t.buckets == old(t.buckets) || t.buckets == t.single || fresh(t.buckets)
  {
    hide Group, Grouped, Unique, InsertAt, Placed, Bucketed, Distinct, Linked;
    ghost var s, c, sp := t.Nodes(), KeyClass(t.h, k), t.spine;
    if t.unique {
      var it, inserted := t.Insert(k, v, answer);
      if inserted {
        NewMember(t.h, s, t.Nodes(), it, 0);
        PlacedNode(sp, t.spine, it, answer);
        assert AtHint(t.h, true, hint, s, c, 0);
      }
    } else {
      var at := IteratorAt(t, hint);
      ghost var p;
      var it;
      it, p := t.InsertHint(at, k, v, answer);
      NewMember(t.h, s, t.Nodes(), it, p);
      PlacedNode(sp, t.spine, it, answer);
      assert AtHint(t.h, false, hint, s, c, p);
    }
  }

  lemma PlacedNode(sp: seq<Node>, sp': seq<Node>, x: Node, answer: NeedRehash)
    requires |sp| >= 1 && |sp'| >= 1
    requires answer.Keep? ==> exists at :: 1 <= at <= |sp| && sp' == InsertAt(sp, at, x)
    ensures Placed(sp[1..], sp'[1..], x, answer)
  {
    if answer.Keep? {
      var at :| 1 <= at <= |sp| && sp' == InsertAt(sp, at, x);
      InsertAtFacts(sp, at, x);
    }
  }

  lemma NewMember(h: Hasher, s: seq<Node>, s': seq<Node>, x: Node, p: nat)
    requires Joined(h, s, s', x, p)
    ensures x in s'
  {
    assert InsertAt(Group(h, s, NodeClass(h, x)), p, x)[p] == x;
    GroupMember(h, s', NodeClass(h, x), x);
  }

  method DoEraseRange(t: Table, i: nat, j: nat)
    requires t.Valid()
    modifies t`spine, t`elementCount, t.buckets, t.spine
    ensures t.Valid() && Steps(t.h, t.unique, EraseFromTo(i, j), old(t.Nodes()), t.Nodes())
    ensures forall x :: x in t.spine ==> x in old(t.spine)
  {
    hide Grouped, Unique, Group, Distinct, Linked, Bucketed;
    if i <= j <= t.elementCount {
      var first := IteratorAt(t, i);
      var last := IteratorAt(t, j);
      ErasedNodes(t.spine, i + 1, j + 1);
      WithoutFacts(t.spine, i + 1, j + 1);
      var next := t.EraseRange(first, last, i + 1, j + 1);
    }
  }

  method DoEraseNth(t: Table, i: nat)
    requires t.Valid()
    modifies t`spine, t`elementCount, t.buckets, t.spine
    ensures t.Valid() && Steps(t.h, t.unique, EraseNth(i), old(t.Nodes()), t.Nodes())
    ensures forall x :: x in t.spine ==> x in old(t.spine)
  {
    hide Grouped, Unique, Group, Distinct, Linked, Bucketed;
    var it := IteratorAt(t, i);
    if it != null {
      ghost var sp := t.spine;
      ErasedNodes(sp, i + 1, i + 2);
      WithoutFacts(sp, i + 1, i + 2);
      var next := t.EraseAt(it, i);
      assert t.spine == [t.spine[0]] + t.Nodes();
      assert Without(sp, i + 1, i + 2) == [sp[0]] + Without(sp[1..], i, i + 1);
    }
  }

  method Do(t: Table, op: Op)
    requires t.Valid() && op.Allowed()
    modifies t, t.buckets, t.single, t.spine
    ensures t.Valid() && t.h == old(t.h)
    ensures Steps(t.h, t.unique, op, old(t.Nodes()), t.Nodes())
    ensures forall x :: x in t.spine ==> x in old(t.spine) || fresh(x)
    ensures t.buckets == old(t.buckets) || t.buckets == t.single || fresh(t.buckets)
  {
    hide Group, Grouped, Unique, SameGroups;
    match op
    case Insert(hint, k, v, answer) =>
      DoInsert(t, hint, k, v, answer);
    case EraseKey(k) =>
      if t.unique {
        var n := t.EraseUnique(k);
      } else {
        var n := t.EraseMulti(k);
      }
    case EraseNth(i) =>
      DoEraseNth(t, i);
    case EraseFromTo(i, j) =>
      DoEraseRange(t, i, j);
    case Resize(n, policy) =>
      t.Rehash(n, policy);
    case Clear =>
      t.Clear();
  }

  /** Every run keeps the table well formed, and each step does what Steps says. trace holds the
      elements before the first step and after each one. */
  method Run(t: Table, ops: seq<Op>) returns (ghost trace: seq<seq<Node>>)
    requires t.Valid() && forall i :: 0 <= i < |ops| ==> ops[i].Allowed()
    modifies t, t.buckets, t.single, t.spine
    ensures t.Valid() && t.h == old(t.h)
    ensures |trace| == |ops| + 1 && trace[0] == old(t.Nodes()) && trace[|ops|] == t.Nodes()
    ensures forall i :: 0 <= i < |ops| ==> Steps(t.h, t.unique, ops[i], trace[i], trace[i + 1])
    ensures t.unique ==> forall s :: s in trace ==> Unique(t.h, s)
  {
    hide Steps, Grouped, Unique;
    trace := [t.Nodes()];
    for n := 0 to |ops|
      invariant t.Valid() && t.h == old(t.h)
      invariant |trace| == n + 1 && trace[0] == old(t.Nodes()) && trace[n] == t.Nodes()
      invariant forall i :: 0 <= i < n ==> Steps(t.h, t.unique, ops[i], trace[i], trace[i + 1])
      invariant t.unique ==> forall s :: s in trace ==> Unique(t.h, s)
      invariant forall x :: x in t.spine ==> x in old(t.spine) || fresh(x)
      invariant t.buckets == old(t.buckets) || t.buckets == t.single || fresh(t.buckets)
    {
      assert forall k {:trigger t.spine[k]} :: 0 <= k < |t.spine| ==> t.spine[k] in t.spine;
      Do(t, ops[n]);
      trace := trace + [t.Nodes()];
    }
  }

  // Erasing a range one element at a time ends in the same list, and so (SlotsUnique) in the
  // same bucket array as EraseRange.
  method EraseOneByOne(t: Table, i: nat, j: nat)
    requires t.Valid() && i <= j <= |t.Nodes()|
    modifies t`spine, t`elementCount, t.buckets, t.spine
    ensures t.Valid() && t.Nodes() == Without(old(t.Nodes()), i, j)
    ensures t.elementCount == old(t.elementCount) - (j - i)
  {
    hide Distinct, Linked, Bucketed, Grouped, Unique, Group;
    ghost var s := t.Nodes();
    var it := IteratorAt(t, i);
    var n := i;
    while n < j
      invariant i <= n <= j && t.Valid() && t.Nodes() == Without(s, i, n)
      invariant it == Succ(t.spine, i)
      invariant t.elementCount == old(t.elementCount) - (n - i)
      invariant t.buckets == old(t.buckets) && forall x :: x in t.spine ==> x in old(t.spine)
    {
      it := t.EraseAt(it, i);
      n := n + 1;
      OneMore(s, i, n);
    }
  }

  lemma OneMore(s: seq<Node>, i: nat, n: nat)
    requires i < n <= |s|
    ensures Without(Without(s, i, n - 1), i, i + 1) == Without(s, i, n)
  {
  }

  // ----- how many elements there are -----

  /** A node that joins a group is one node more in the list, wherever it is put. */
  lemma JoinedNodes(h: Hasher, s: seq<Node>, s': seq<Node>, x: Node, p: nat)
    requires Joined(h, s, s', x, p)
    ensures multiset(s') == multiset(s) + multiset{x} && |s'| == |s| + 1
  {
    hide Group;
    forall n: Node
      ensures multiset(s')[n] == (multiset(s) + multiset{x})[n]
    {
      var c := NodeClass(h, n);
      GroupCount(h, s, n);
      GroupCount(h, s', n);
      if c == NodeClass(h, x) {
        InsertedCount(Group(h, s, c), p, x, n);
      }
    }
    assert multiset(s') == multiset(s) + multiset{x};
    assert |multiset(s')| == |s'|;
  }

  lemma InsertedCount(s: seq<Node>, p: nat, x: Node, n: Node)
    requires p <= |s|
    ensures multiset(InsertAt(s, p, x))[n] == multiset(s)[n] + if x == n then 1 else 0
  {
    assert s == s[..p] + s[p..];
  }

  /** What a step does to the number of elements. */
  lemma StepSize(h: Hasher, unique: bool, op: Op, s: seq<Node>, s': seq<Node>)
    requires Steps(h, unique, op, s, s')
    ensures op.Insert? ==> |s'| == if unique && Group(h, s, KeyClass(h, op.k)) != [] then |s| else |s| + 1
    ensures op.EraseKey? ==> |s'| == |s| - |Group(h, s, KeyClass(h, op.k))|
    ensures op.EraseNth? ==> |s'| == if op.i < |s| then |s| - 1 else |s|
    ensures op.EraseFromTo? ==> |s'| == if op.i <= op.j <= |s| then |s| - (op.j - op.i) else |s|
    ensures op.Resize? ==> |s'| == |s|
    ensures op.Clear? ==> |s'| == 0
  {
    hide Group, Joined, SameGroups;
    match op
    case Insert(hint, k, v, answer) =>
      if !unique || Group(h, s, KeyClass(h, k)) == [] {
        var x, p :|
          && x in s' && x !in s && x.key == k && x.val == v && Placed(s, s', x, answer)
          && Joined(h, s, s', x, p) && AtHint(h, unique, hint, s, KeyClass(h, k), p);
        JoinedNodes(h, s, s', x, p);
      }
    case Resize(_, _) =>
      SameGroupsPermutation(h, s', s);
      assert |multiset(s')| == |multiset(s)|;
    case _ =>
  }

  // ----- the unique-key table as a finite map -----

  datatype Entry = Entry(key: Key, val: Value)

  type Model = map<Class, Entry>

  ghost function ModelOf(h: Hasher, s: seq<Node>): Model {
    if s == [] then map[]
    else ModelOf(h, s[..|s| - 1])[NodeClass(h, s[|s| - 1]) := Entry(s[|s| - 1].key, s[|s| - 1].val)]
  }

  lemma {:induction false} ModelIsGroups(h: Hasher, s: seq<Node>)
    requires Unique(h, s)
    ensures forall c :: c in ModelOf(h, s) <==> Group(h, s, c) != []
    ensures forall c :: c in ModelOf(h, s) ==>
              ModelOf(h, s)[c] == Entry(Group(h, s, c)[0].key, Group(h, s, c)[0].val)
    ensures |ModelOf(h, s)| == |s|
  {
    if s != [] {
      var p, x := s[..|s| - 1], s[|s| - 1];
      ModelIsGroups(h, p);
      NewUnique(h, s, |s| - 1);
    }
  }

  // The classes of the keys of s.
  ghost function Classes(h: Hasher, s: seq<Node>): set<Class> {
    set n | n in s :: NodeClass(h, n)
  }

  /** The same step on the map of the elements s, from m to m'. An erased iterator or range takes the keys
      of the elements there. */
  ghost predicate ModelSteps(h: Hasher, op: Op, s: seq<Node>, m: Model, m': Model) {
    match op
    case Insert(_, k, v, _) => m' == if KeyClass(h, k) in m then m else m[KeyClass(h, k) := Entry(k, v)]
    case EraseKey(k) => m' == m - {KeyClass(h, k)}
    case EraseNth(i) => m' == if i < |s| then m - {NodeClass(h, s[i])} else m
    case EraseFromTo(i, j) => m' == if i <= j <= |s| then m - Classes(h, s[i..j]) else m
    case Resize(_, _) => m' == m
    case Clear => m' == map[]
  }

  lemma SameModel(h: Hasher, s: seq<Node>, s': seq<Node>)
    requires Unique(h, s) && Unique(h, s') && SameGroups(h, s', s)
    ensures ModelOf(h, s') == ModelOf(h, s)
  {
    hide Group, Unique, ModelOf;
    ModelIsGroups(h, s);
    ModelIsGroups(h, s');
    assert forall c :: c in ModelOf(h, s) <==> c in ModelOf(h, s');
  }

  lemma ModelInsert(h: Hasher, s: seq<Node>, s': seq<Node>, x: Node)
    requires Unique(h, s) && Unique(h, s') && Joined(h, s, s', x, 0)
    requires Group(h, s, NodeClass(h, x)) == []
    ensures ModelOf(h, s') == ModelOf(h, s)[NodeClass(h, x) := Entry(x.key, x.val)]
  {
    hide Group, Unique, ModelOf;
    ModelIsGroups(h, s);
    ModelIsGroups(h, s');
    InsertAtEmpty(x);
  }

  lemma ModelErase(h: Hasher, s: seq<Node>, s': seq<Node>, c: Class)
    requires Unique(h, s) && Unique(h, s') && ClassErased(h, s, s', c)
    ensures ModelOf(h, s') == ModelOf(h, s) - {c}
  {
    hide Group, Unique, ModelOf;
    ModelIsGroups(h, s);
    ModelIsGroups(h, s');
  }

  // Which groups are left when s[i..j] goes.
  lemma WithoutGroups(h: Hasher, s: seq<Node>, i: nat, j: nat, c: Class)
    requires Unique(h, s) && i <= j <= |s|
    ensures Group(h, Without(s, i, j), c) == if c in Classes(h, s[i..j]) then [] else Group(h, s, c)
  {
    hide Group, Unique;
    GroupWithout(h, s, i, j, c);
    GroupSplit(h, s, i, c);
    GroupSplit(h, s[i..], j - i, c);
    assert s[i..][..j - i] == s[i..j] && s[i..][j - i..] == s[j..];
    GroupUnique(h, s, c);
    GroupEmpty(h, s[i..j], c);
    assert c in Classes(h, s[i..j]) <==> exists k :: 0 <= k < |s[i..j]| && NodeClass(h, s[i..j][k]) == c;
  }

  lemma ModelWithout(h: Hasher, s: seq<Node>, i: nat, j: nat)
    requires Unique(h, s) && i <= j <= |s|
    ensures ModelOf(h, Without(s, i, j)) == ModelOf(h, s) - Classes(h, s[i..j])
  {
    hide Group, ModelOf, Classes, Unique;
    var s' := Without(s, i, j);
    UniqueWithout(h, s, i, j);
    ModelIsGroups(h, s);
    ModelIsGroups(h, s');
    forall c
      ensures Group(h, s', c) == if c in Classes(h, s[i..j]) then [] else Group(h, s, c)
    {
      WithoutGroups(h, s, i, j, c);
    }
  }

  /** A unique-key table refines a finite map, step by step. */
  lemma StepRefinesMap(h: Hasher, op: Op, s: seq<Node>, s': seq<Node>)
    requires Unique(h, s) && Unique(h, s') && Steps(h, true, op, s, s')
    ensures ModelSteps(h, op, s, ModelOf(h, s), ModelOf(h, s'))
  {
    hide Group, Unique, ModelOf, Placed, Cut, Without;
    match op
    case Insert(hint, k, v, _) =>
      ModelIsGroups(h, s);
      if Group(h, s, KeyClass(h, k)) == [] {
        var x, p :|
          && x in s' && x !in s && x.key == k && x.val == v && Placed(s, s', x, op.answer)
          && Joined(h, s, s', x, p) && AtHint(h, true, hint, s, KeyClass(h, k), p);
        ModelInsert(h, s, s', x);
      }
    case EraseKey(k) => ModelErase(h, s, s', KeyClass(h, k));
    case EraseNth(i) =>
      if i < |s| {
        ModelWithout(h, s, i, i + 1);
        assert s[i..i + 1] == [s[i]] && Classes(h, [s[i]]) == {NodeClass(h, s[i])};
      }
    case EraseFromTo(i, j) => if i <= j <= |s| { ModelWithout(h, s, i, j); }
    case Resize(_, _) => SameModel(h, s, s');
    case Clear => ModelEmpty(h);
  }

  lemma ModelEmpty(h: Hasher)
    ensures ModelOf(h, []) == map[]
  {
  }

  /** Any run of a unique-key table, read as a run of a finite map. trace holds the elements in list order. */
  method RunUnique(t: Table, ops: seq<Op>) returns (ghost trace: seq<seq<Node>>, ghost models: seq<Model>)
    requires t.Valid() && t.unique && forall i :: 0 <= i < |ops| ==> ops[i].Allowed()
    modifies t, t.buckets, t.single, t.spine
    ensures t.Valid() && t.h == old(t.h)
    ensures |trace| == |models| == |ops| + 1 && trace[0] == old(t.Nodes()) && trace[|ops|] == t.Nodes()
    ensures forall i :: 0 <= i <= |ops| ==> models[i] == ModelOf(t.h, trace[i])
    ensures forall i :: 0 <= i < |ops| ==> Steps(t.h, true, ops[i], trace[i], trace[i + 1])
    ensures forall i :: 0 <= i < |ops| ==> ModelSteps(t.h, ops[i], trace[i], models[i], models[i + 1])
    ensures t.elementCount == |models[|ops|]|
  {
    hide Steps, ModelSteps, ModelOf, Unique;
    trace := Run(t, ops);
    ghost var h, u := t.h, trace;
    models := seq(|u|, i requires 0 <= i < |u| => ModelOf(h, u[i]));
    forall i | 0 <= i < |ops|
      ensures ModelSteps(t.h, ops[i], trace[i], models[i], models[i + 1])
    {
      assert trace[i] in trace && trace[i + 1] in trace;
      StepRefinesMap(t.h, ops[i], trace[i], trace[i + 1]);
    }
    ModelIsGroups(t.h, t.Nodes());
  }

  /** find hits exactly the keys of the map, and finds their entry. */
  method Lookup(t: Table, k: Key) returns (it: Node?)
    requires t.Valid() && t.unique
    ensures it != null <==> KeyClass(t.h, k) in ModelOf(t.h, t.Nodes())
    ensures it != null ==> ModelOf(t.h, t.Nodes())[KeyClass(t.h, k)] == Entry(it.key, it.val)
  {
    hide ModelOf, Group, Unique;
    ModelIsGroups(t.h, t.Nodes());
    it := t.Find(k);
  }

  // ----- copies -----

  function Entries(s: seq<Node>): seq<Entry> {
    seq(|s|, i requires 0 <= i < |s| => Entry(s[i].key, s[i].val))
  }

  /** A copy has the entries of the original, in order, and so means the same map. */
  lemma {:induction false} CopiesEntries(h: Hasher, s: seq<Node>, t: seq<Node>)
    ensures CopyOf(s, t) <==> Entries(s) == Entries(t)
    ensures CopyOf(s, t) ==> ModelOf(h, s) == ModelOf(h, t)
  {
    if Entries(s) == Entries(t) {
      assert |s| == |Entries(s)| && |t| == |Entries(t)|;
      forall i | 0 <= i < |s|
        ensures s[i].key == t[i].key && s[i].val == t[i].val
      {
        assert Entries(s)[i] == Entries(t)[i];
      }
    }
    if CopyOf(s, t) && s != [] {
      CopiesEntries(h, s[..|s| - 1], t[..|t| - 1]);
    }
  }
}
