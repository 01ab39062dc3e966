// What a hash table means: for every key class, the sequence of the nodes of that
// class in list order.
module HashGroups {
  import opened HashNodes

  /** The nodes of class c in s, in order. */
  ghost function Group(h: Hasher, s: seq<Node>, c: Class): (g: seq<Node>) {
    if s == [] then []
    else Group(h, s[..|s| - 1], c) + if NodeClass(h, s[|s| - 1]) == c then [s[|s| - 1]] else []
  }

  /** Nodes of one class are adjacent. */
  ghost predicate Grouped(h: Hasher, s: seq<Node>) {
    forall i, j {:trigger NodeClass(h, s[i]), NodeClass(h, s[j])} ::
      0 <= i < j < |s| && NodeClass(h, s[i]) == NodeClass(h, s[j]) ==> NodeClass(h, s[j - 1]) == NodeClass(h, s[j])
  }

  ghost predicate Unique(h: Hasher, s: seq<Node>) {
    forall i, j {:trigger NodeClass(h, s[i]), NodeClass(h, s[j])} :: 0 <= i < j < |s| ==>
      NodeClass(h, s[i]) != NodeClass(h, s[j])
  }

  /** s' is s with x added to its class at place p of that class. */
  ghost predicate Joined(h: Hasher, s: seq<Node>, s': seq<Node>, x: Node, p: nat) {
    && p <= |Group(h, s, NodeClass(h, x))|
    && Group(h, s', NodeClass(h, x)) == InsertAt(Group(h, s, NodeClass(h, x)), p, x)
    && forall c :: c != NodeClass(h, x) ==> Group(h, s', c) == Group(h, s, c)
  }

  /** s' is s without the nodes of class c. */
  ghost predicate ClassErased(h: Hasher, s: seq<Node>, s': seq<Node>, c: Class) {
    forall d :: Group(h, s', d) == if d == c then [] else Group(h, s, d)
  }

  // ----- groups -----

  lemma {:induction false} GroupConcat(h: Hasher, a: seq<Node>, b: seq<Node>, c: Class)
    ensures Group(h, a + b, c) == Group(h, a, c) + Group(h, b, c)
  {
    if b == [] {
      assert a + b == a;
    } else {
      assert (a + b)[..|a + b| - 1] == a + b[..|b| - 1];
      GroupConcat(h, a, b[..|b| - 1], c);
    }
  }

  lemma {:induction false} GroupMember(h: Hasher, s: seq<Node>, c: Class, n: Node)
    ensures n in Group(h, s, c) <==> n in s && NodeClass(h, n) == c
  {
    if s != [] {
      GroupMember(h, s[..|s| - 1], c, n);
      assert s == s[..|s| - 1] + [s[|s| - 1]];
    }
  }

  lemma GroupEmpty(h: Hasher, s: seq<Node>, c: Class)
    ensures Group(h, s, c) == [] <==> forall i {:trigger s[i]} :: 0 <= i < |s| ==> NodeClass(h, s[i]) != c
  {
    forall i {:trigger s[i]} | 0 <= i < |s|
      ensures Group(h, s, c) == [] ==> NodeClass(h, s[i]) != c
    {
      GroupMember(h, s, c, s[i]);
    }
    if Group(h, s, c) != [] {
      GroupMember(h, s, c, Group(h, s, c)[0]);
    }
  }

  lemma {:induction false} GroupAll(h: Hasher, s: seq<Node>, c: Class)
    requires forall i {:trigger s[i]} :: 0 <= i < |s| ==> NodeClass(h, s[i]) == c
    ensures Group(h, s, c) == s
  {
    if s != [] {
      GroupAll(h, s[..|s| - 1], c);
    }
  }

  /** The size of a group is the number of places in the list that hold a key of the class. */
  lemma {:induction false} GroupSize(h: Hasher, s: seq<Node>, c: Class)
    ensures |Group(h, s, c)| == |set i | 0 <= i < |s| && NodeClass(h, s[i]) == c|
  {
    if s != [] {
      var p, n := s[..|s| - 1], |s| - 1;
      GroupSize(h, p, c);
      var before := set i | 0 <= i < n && NodeClass(h, p[i]) == c;
      var all := set i | 0 <= i < |s| && NodeClass(h, s[i]) == c;
      assert forall i :: 0 <= i < n ==> p[i] == s[i];
      assert all == if NodeClass(h, s[n]) == c then before + {n} else before;
    }
  }

  lemma GroupInsert(h: Hasher, s: seq<Node>, i: nat, x: Node, c: Class)
    requires i <= |s|
    ensures Group(h, InsertAt(s, i, x), c)
         == Group(h, s[..i], c) + (if NodeClass(h, x) == c then [x] else []) + Group(h, s[i..], c)
  {
    GroupConcat(h, s[..i] + [x], s[i..], c);
    assert (s[..i] + [x])[..i] == s[..i];
  }

  lemma GroupSplit(h: Hasher, s: seq<Node>, i: nat, c: Class)
    requires i <= |s|
    ensures Group(h, s, c) == Group(h, s[..i], c) + Group(h, s[i..], c)
  {
    assert s == s[..i] + s[i..];
    GroupConcat(h, s[..i], s[i..], c);
  }

  lemma GroupWithout(h: Hasher, s: seq<Node>, i: nat, m: nat, c: Class)
    requires i <= m <= |s|
    ensures Group(h, Without(s, i, m), c) == Group(h, s[..i], c) + Group(h, s[m..], c)
  {
    GroupConcat(h, s[..i], s[m..], c);
  }

  lemma {:induction false} GroupUnique(h: Hasher, s: seq<Node>, c: Class)
    requires Unique(h, s)
    ensures |Group(h, s, c)| <= 1
  {
    if s != [] {
      var p := s[..|s| - 1];
      GroupUnique(h, p, c);
      GroupEmpty(h, p, c);
    }
  }

  // ----- adjacency -----

  lemma {:induction false} GroupedRun(h: Hasher, s: seq<Node>, i: nat, j: nat)
    requires Grouped(h, s) && i <= j < |s| && NodeClass(h, s[i]) == NodeClass(h, s[j])
    ensures forall k {:trigger s[k]} :: i <= k <= j ==> NodeClass(h, s[k]) == NodeClass(h, s[j])
  {
    if i < j {
      GroupedRun(h, s, i, j - 1);
    }
  }

  // x may go in at i: it splits no class, and it joins its own class if there is one.
  ghost predicate Fits(h: Hasher, s: seq<Node>, i: nat, x: Node)
    requires i <= |s|
  {
    && (0 < i < |s| && NodeClass(h, s[i - 1]) == NodeClass(h, s[i]) ==> NodeClass(h, x) == NodeClass(h, s[i]))
    && (|| (0 < i && NodeClass(h, s[i - 1]) == NodeClass(h, x))
        || (i < |s| && NodeClass(h, s[i]) == NodeClass(h, x))
        || Group(h, s, NodeClass(h, x)) == [])
  }

  // The place in s of what is at place k of s with x at i; k is not i.
  function InsertedFrom(i: nat, k: nat): int {
    if k < i then k else k - 1
  }

  lemma InsertedAt(s: seq<Node>, i: nat, x: Node)
    requires i <= |s|
    ensures var s' := InsertAt(s, i, x);
            |s'| == |s| + 1 && forall k {:trigger s'[k]} :: 0 <= k < |s'| ==>
                s'[k] == if k == i then x else s[InsertedFrom(i, k)]
  {
  }

  // Neighbours of one class before the insertion, with x between them perhaps.
  lemma InsertedBetween(h: Hasher, s: seq<Node>, i: nat, x: Node, a: nat, b: nat)
    requires Grouped(h, s) && i <= |s| && Fits(h, s, i, x)
    requires a < b <= |s| && a != i && b != i
    requires NodeClass(h, s[InsertedFrom(i, a)]) == NodeClass(h, s[InsertedFrom(i, b)])
    ensures NodeClass(h, if b - 1 == i then x else s[InsertedFrom(i, b - 1)]) == NodeClass(h, s[InsertedFrom(i, b)])
  {
    GroupedRun(h, s, InsertedFrom(i, a), InsertedFrom(i, b));
  }

  lemma GroupedInsert(h: Hasher, s: seq<Node>, i: nat, x: Node)
    requires Grouped(h, s) && i <= |s| && Fits(h, s, i, x)
    ensures Grouped(h, InsertAt(s, i, x))
  {
    InsertedAt(s, i, x);
    var s' := InsertAt(s, i, x);
    hide Fits, InsertAt, Group;
    forall a, b | 0 <= a < b < |s'| && NodeClass(h, s'[a]) == NodeClass(h, s'[b])
      ensures NodeClass(h, s'[b - 1]) == NodeClass(h, s'[b])
    {
      InsertedStep(h, s, i, x, a, b);
    }
  }

  lemma InsertedStep(h: Hasher, s: seq<Node>, i: nat, x: Node, a: nat, b: nat)
    requires Grouped(h, s) && i <= |s| && Fits(h, s, i, x)
    requires var s' := InsertAt(s, i, x); a < b < |s'| && NodeClass(h, s'[a]) == NodeClass(h, s'[b])
    ensures var s' := InsertAt(s, i, x); NodeClass(h, s'[b - 1]) == NodeClass(h, s'[b])
  {
    hide Grouped, Fits, InsertAt, Group;
    InsertedAt(s, i, x);
    if a == i {
      InsertedBefore(h, s, i, x, b - 1);
    } else if b == i {
      InsertedAfter(h, s, i, x, a);
    } else {
      InsertedBetween(h, s, i, x, a, b);
    }
  }

  lemma InsertedBefore(h: Hasher, s: seq<Node>, i: nat, x: Node, b: nat)
    requires Grouped(h, s) && i <= |s| && Fits(h, s, i, x)
    requires i <= b < |s| && NodeClass(h, s[b]) == NodeClass(h, x)
    ensures i < b ==> NodeClass(h, s[b - 1]) == NodeClass(h, x)
  {
    GroupEmpty(h, s, NodeClass(h, x));
    GroupedRun(h, s, if 0 < i && NodeClass(h, s[i - 1]) == NodeClass(h, x) then i - 1 else i, b);
  }

  lemma InsertedAfter(h: Hasher, s: seq<Node>, i: nat, x: Node, a: nat)
    requires Grouped(h, s) && i <= |s| && Fits(h, s, i, x)
    requires a < i && NodeClass(h, s[a]) == NodeClass(h, x)
    ensures NodeClass(h, s[i - 1]) == NodeClass(h, x)
  {
    GroupEmpty(h, s, NodeClass(h, x));
    if NodeClass(h, s[i - 1]) != NodeClass(h, x) {
      GroupedRun(h, s, a, i);
    }
  }

  lemma WithoutAt(s: seq<Node>, i: nat, m: nat)
    requires i <= m <= |s|
    ensures var s' := Without(s, i, m);
            |s'| == |s| - (m - i) && forall k {:trigger s'[k]} :: 0 <= k < |s'| ==>
                s'[k] == s[if k < i then k else k + m - i]
  {
  }

  lemma GroupedWithout(h: Hasher, s: seq<Node>, i: nat, m: nat)
    requires Grouped(h, s) && i <= m <= |s|
    ensures Grouped(h, Without(s, i, m))
  {
    WithoutAt(s, i, m);
    var s' := Without(s, i, m);
    hide Without;
    forall a, b | 0 <= a < b < |s'| && NodeClass(h, s'[a]) == NodeClass(h, s'[b])
      ensures NodeClass(h, s'[b - 1]) == NodeClass(h, s'[b])
    {
      WithoutStep(h, s, i, m, a, b);
    }
  }

  lemma WithoutStep(h: Hasher, s: seq<Node>, i: nat, m: nat, a: nat, b: nat)
    requires Grouped(h, s) && i <= m <= |s|
    requires var s' := Without(s, i, m); a < b < |s'| && NodeClass(h, s'[a]) == NodeClass(h, s'[b])
    ensures var s' := Without(s, i, m); NodeClass(h, s'[b - 1]) == NodeClass(h, s'[b])
  {
    hide Grouped, Without;
    WithoutAt(s, i, m);
    GroupedRun(h, s, if a < i then a else a + m - i, if b < i then b else b + m - i);
  }

  lemma UniqueWithout(h: Hasher, s: seq<Node>, i: nat, m: nat)
    requires Unique(h, s) && i <= m <= |s|
    ensures Unique(h, Without(s, i, m))
  {
    var s' := Without(s, i, m);
    forall a, b {:trigger NodeClass(h, s'[a]), NodeClass(h, s'[b])} | 0 <= a < b < |s'|
      ensures NodeClass(h, s'[a]) != NodeClass(h, s'[b])
    {
      assert s'[a] == s[if a < i then a else a + m - i];
      assert s'[b] == s[if b < i then b else b + m - i];
    }
  }

  lemma UniqueInsert(h: Hasher, s: seq<Node>, i: nat, x: Node)
    requires Unique(h, s) && i <= |s| && Group(h, s, NodeClass(h, x)) == []
    ensures Unique(h, InsertAt(s, i, x))
  {
    var s' := InsertAt(s, i, x);
    GroupEmpty(h, s, NodeClass(h, x));
    forall a, b {:trigger NodeClass(h, s'[a]), NodeClass(h, s'[b])} | 0 <= a < b < |s'|
      ensures NodeClass(h, s'[a]) != NodeClass(h, s'[b])
    {
      assert a != i ==> s'[a] == s[if a < i then a else a - 1];
      assert b != i ==> s'[b] == s[if b < i then b else b - 1];
    }
  }

  lemma NoneAfter(h: Hasher, s: seq<Node>, i: nat, j: nat)
    requires Grouped(h, s) && i < j < |s| && NodeClass(h, s[j]) != NodeClass(h, s[i])
    ensures forall k {:trigger s[k]} :: j <= k < |s| ==> NodeClass(h, s[k]) != NodeClass(h, s[i])
  {
    forall k {:trigger s[k]} | j <= k < |s|
      ensures NodeClass(h, s[k]) != NodeClass(h, s[i])
    {
      if NodeClass(h, s[k]) == NodeClass(h, s[i]) {
        GroupedRun(h, s, i, k);
      }
    }
  }

  // A maximal run of one class is the whole class.
  lemma GroupIsRun(h: Hasher, s: seq<Node>, i: nat, j: nat)
    requires Grouped(h, s) && i < j <= |s|
    requires forall k {:trigger s[k]} :: 0 <= k < i ==> NodeClass(h, s[k]) != NodeClass(h, s[i])
    requires forall k {:trigger s[k]} :: i <= k < j ==> NodeClass(h, s[k]) == NodeClass(h, s[i])
    requires j < |s| ==> NodeClass(h, s[j]) != NodeClass(h, s[i])
    ensures Group(h, s, NodeClass(h, s[i])) == s[i..j]
  {
    hide Group;
    var c := NodeClass(h, s[i]);
    if j < |s| {
      NoneAfter(h, s, i, j);
    }
    hide Grouped;
    GroupSplit(h, s, j, c);
    GroupSplit(h, s[..j], i, c);
    assert s[..j][..i] == s[..i] && s[..j][i..] == s[i..j];
    GroupEmpty(h, s[..i], c);
    GroupEmpty(h, s[j..], c);
    GroupAll(h, s[i..j], c);
  }

  lemma FirstOfGroup(h: Hasher, s: seq<Node>, i: nat)
    requires i < |s|
    requires forall k {:trigger s[k]} :: 0 <= k < i ==> NodeClass(h, s[k]) != NodeClass(h, s[i])
    ensures Group(h, s, NodeClass(h, s[i])) != [] && Group(h, s, NodeClass(h, s[i]))[0] == s[i]
  {
    var c := NodeClass(h, s[i]);
    GroupSplit(h, s, i + 1, c);
    GroupEmpty(h, s[..i], c);
    assert s[..i + 1][..i] == s[..i];
  }

  lemma GroupNext(h: Hasher, s: seq<Node>, i: nat, c: Class)
    requires i < |s|
    ensures Group(h, s[..i + 1], c) == Group(h, s[..i], c) + if NodeClass(h, s[i]) == c then [s[i]] else []
  {
    assert s[..i + 1][..i] == s[..i];
  }

  lemma GroupEnds(h: Hasher, s: seq<Node>, i: nat, c: Class)
    requires Grouped(h, s) && i < |s|
    requires Group(h, s[..i], c) != [] && NodeClass(h, s[i]) != c
    ensures Group(h, s, c) == Group(h, s[..i], c)
  {
    GroupEmpty(h, s[..i], c);
    var j :| 0 <= j < i && NodeClass(h, s[..i][j]) == c;
    assert s[j] == s[..i][j];
    NoneAfter(h, s, j, i);
    GroupEmpty(h, s[i..], c);
    GroupSplit(h, s, i, c);
  }

  // Insertions, and what they do to every class.

  lemma GroupOne(h: Hasher, x: Node)
    ensures forall c :: Group(h, [x], c) == if c == NodeClass(h, x) then [x] else []
  {
    assert [x][..0] == [];
  }

  lemma GroupsInsertNew(h: Hasher, s: seq<Node>, i: nat, x: Node)
    requires i <= |s| && Group(h, s, NodeClass(h, x)) == []
    ensures forall c :: Group(h, InsertAt(s, i, x), c) == Group(h, s, c) + Group(h, [x], c)
  {
    forall c
      ensures Group(h, InsertAt(s, i, x), c) == Group(h, s, c) + Group(h, [x], c)
    {
      GroupInsert(h, s, i, x, c);
      GroupSplit(h, s, i, c);
    }
  }

  // Two lists with the same classes in the same order within each class.
  ghost predicate SameGroups(h: Hasher, s: seq<Node>, t: seq<Node>) {
    forall c :: Group(h, s, c) == Group(h, t, c)
  }

  // ----- one step of a rehash: done is the part of the old list already moved to s -----

  lemma MovedNew(h: Hasher, s: seq<Node>, done: seq<Node>, i: nat, x: Node)
    requires SameGroups(h, s, done) && i <= |s| && Group(h, done, NodeClass(h, x)) == []
    ensures SameGroups(h, InsertAt(s, i, x), done + [x])
  {
    GroupsInsertNew(h, s, i, x);
    forall c
      ensures Group(h, InsertAt(s, i, x), c) == Group(h, done + [x], c)
    {
      GroupConcat(h, done, [x], c);
    }
  }

  // The node moved last is the last of its class.
  lemma LastMoved(h: Hasher, s: seq<Node>, done: seq<Node>, j: nat)
    requires SameGroups(h, s, done) && Distinct(s)
    requires j < |s| && done != [] && s[j] == done[|done| - 1]
    ensures Group(h, s[j + 1..], NodeClass(h, s[j])) == []
  {
    var c := NodeClass(h, s[j]);
    var rest := Group(h, s[j + 1..], c);
    GroupSplit(h, s, j + 1, c);
    if rest != [] {
      var n := rest[|rest| - 1];
      assert n == Group(h, done, c)[|Group(h, done, c)| - 1] == s[j];
      GroupMember(h, s[j + 1..], c, n);
    }
  }

  lemma MovedAfterLast(h: Hasher, s: seq<Node>, done: seq<Node>, j: nat, x: Node)
    requires SameGroups(h, s, done) && Distinct(s)
    requires j < |s| && done != [] && s[j] == done[|done| - 1]
    requires NodeClass(h, x) == NodeClass(h, s[j])
    ensures SameGroups(h, InsertAt(s, j + 1, x), done + [x])
  {
    LastMoved(h, s, done, j);
    forall c
      ensures Group(h, InsertAt(s, j + 1, x), c) == Group(h, done + [x], c)
    {
      GroupConcat(h, done, [x], c);
      GroupInsert(h, s, j + 1, x, c);
      GroupSplit(h, s, j + 1, c);
    }
  }

  // In a grouped list a class that differs from its predecessor's is new.
  lemma NewClass(h: Hasher, s: seq<Node>, t: nat)
    requires Grouped(h, s) && t < |s|
    requires t > 0 ==> NodeClass(h, s[t - 1]) != NodeClass(h, s[t])
    ensures Group(h, s[..t], NodeClass(h, s[t])) == []
  {
    GroupEmpty(h, s[..t], NodeClass(h, s[t]));
    forall i {:trigger s[..t][i]} | 0 <= i < t
      ensures NodeClass(h, s[..t][i]) != NodeClass(h, s[t])
    {
      assert s[..t][i] == s[i];
    }
  }

  lemma SameGroupsUnique(h: Hasher, s: seq<Node>, t: seq<Node>)
    requires SameGroups(h, s, t) && Unique(h, t) && Distinct(s)
    ensures Unique(h, s) && |s| == |t|
  {
    SameGroupsPermutation(h, s, t);
    assert |multiset(s)| == |s| && |multiset(t)| == |t|;
    forall i, j {:trigger NodeClass(h, s[i]), NodeClass(h, s[j])} | 0 <= i < j < |s|
      ensures NodeClass(h, s[i]) != NodeClass(h, s[j])
    {
      var c := NodeClass(h, s[i]);
      GroupUnique(h, t, c);
      GroupMember(h, s, c, s[i]);
      GroupMember(h, s, c, s[j]);
      if NodeClass(h, s[j]) == c {
        assert false;
      }
    }
  }

  lemma SameGroupsRefl(h: Hasher, s: seq<Node>)
    ensures SameGroups(h, s, s)
  {
  }

  lemma NewUnique(h: Hasher, s: seq<Node>, t: nat)
    requires Unique(h, s) && t < |s|
    ensures Group(h, s[..t], NodeClass(h, s[t])) == []
  {
    GroupEmpty(h, s[..t], NodeClass(h, s[t]));
    forall i {:trigger s[..t][i]} | 0 <= i < t
      ensures NodeClass(h, s[..t][i]) != NodeClass(h, s[t])
    {
      assert s[..t][i] == s[i];
    }
  }

  lemma SameGroupsMembers(h: Hasher, s: seq<Node>, t: seq<Node>)
    requires SameGroups(h, s, t)
    ensures forall n :: n in s <==> n in t
  {
    forall n: Node
      ensures n in s <==> n in t
    {
      GroupMember(h, s, NodeClass(h, n), n);
      GroupMember(h, t, NodeClass(h, n), n);
    }
  }

  lemma {:induction false} GroupCount(h: Hasher, s: seq<Node>, n: Node)
    ensures multiset(s)[n] == multiset(Group(h, s, NodeClass(h, n)))[n]
  {
    if s != [] {
      var p, x, c := s[..|s| - 1], s[|s| - 1], NodeClass(h, n);
      GroupCount(h, p, n);
      assert s == p + [x];
      CountLast(p, x, n);
      if NodeClass(h, x) == c {
        CountLast(Group(h, p, c), x, n);
      }
    }
  }

  lemma CountLast(p: seq<Node>, x: Node, n: Node)
    ensures multiset(p + [x])[n] == multiset(p)[n] + if x == n then 1 else 0
  {
  }

  /** Lists that agree class by class hold exactly the same nodes. */
  lemma SameGroupsPermutation(h: Hasher, s: seq<Node>, t: seq<Node>)
    requires SameGroups(h, s, t)
    ensures multiset(s) == multiset(t)
  {
    forall n: Node
      ensures multiset(s)[n] == multiset(t)[n]
    {
      GroupCount(h, s, n);
      GroupCount(h, t, n);
    }
  }

  // Two places of a group are two places of the list, in the same order.
  lemma {:induction false} GroupFrom(h: Hasher, s: seq<Node>, c: Class, a: nat, b: nat) returns (k: nat, m: nat)
    requires a < b < |Group(h, s, c)|
    ensures k < m < |s| && s[k] == Group(h, s, c)[a] && s[m] == Group(h, s, c)[b]
  {
    var front, n := s[..|s| - 1], |s| - 1;
    var g := Group(h, front, c);
    if b < |g| {
      k, m := GroupFrom(h, front, c, a, b);
    } else {
      m := n;
      GroupMember(h, front, c, g[a]);
      k :| 0 <= k < |front| && front[k] == g[a];
    }
  }

  // Two nodes of one class are in their order in its group.
  lemma GroupHas(h: Hasher, s: seq<Node>, i: nat, j: nat) returns (a: nat, b: nat)
    requires i < j < |s| && NodeClass(h, s[i]) == NodeClass(h, s[j])
    ensures var g := Group(h, s, NodeClass(h, s[j])); a < b < |g| && g[a] == s[i] && g[b] == s[j]
  {
    hide Group;
    var c := NodeClass(h, s[j]);
    GroupSplit(h, s, j + 1, c);
    GroupNext(h, s, j, c);
    GroupMember(h, s[..j], c, s[i]);
    assert s[..j][i] == s[i];
    var g := Group(h, s[..j], c);
    a :| 0 <= a < |g| && g[a] == s[i];
    b := |g|;
  }

  /** Lists with the same groups have equal keys in the same order. */
  lemma SameGroupsOrder(h: Hasher, s: seq<Node>, t: seq<Node>, i: nat, j: nat) returns (k: nat, m: nat)
    requires SameGroups(h, s, t) && i < j < |s| && NodeClass(h, s[i]) == NodeClass(h, s[j])
    ensures k < m < |t| && t[k] == s[i] && t[m] == s[j]
  {
    hide Group;
    var a, b := GroupHas(h, s, i, j);
    k, m := GroupFrom(h, t, NodeClass(h, s[j]), a, b);
  }

  /** What is left after a class has been erased is just what is not of it. */
  lemma ErasedMembers(h: Hasher, s: seq<Node>, s': seq<Node>, c: Class, n: Node)
    requires ClassErased(h, s, s', c)
    ensures n in s' <==> n in s && NodeClass(h, n) != c
  {
    GroupMember(h, s, NodeClass(h, n), n);
    GroupMember(h, s', NodeClass(h, n), n);
  }

  // x goes in right behind s[i - 1], an equal node, or before s[i], the first equal node.
  lemma GroupsInsertEqual(h: Hasher, s: seq<Node>, i: nat, x: Node) returns (p: nat)
    requires Grouped(h, s) && i <= |s|
    requires || (0 < i && NodeClass(h, s[i - 1]) == NodeClass(h, x))
             || (i < |s| && NodeClass(h, s[i]) == NodeClass(h, x)
                 && forall k {:trigger s[k]} :: 0 <= k < i ==> NodeClass(h, s[k]) != NodeClass(h, x))
    ensures Grouped(h, InsertAt(s, i, x))
    ensures Joined(h, s, InsertAt(s, i, x), x, p)
    ensures 0 < i && NodeClass(h, s[i - 1]) == NodeClass(h, x) ==>
            p > 0 && Group(h, s, NodeClass(h, x))[p - 1] == s[i - 1]
    ensures !(0 < i && NodeClass(h, s[i - 1]) == NodeClass(h, x)) ==> p == 0
  {
    var cx := NodeClass(h, x);
    p := |Group(h, s[..i], cx)|;
    hide Group;
    if 0 < i && NodeClass(h, s[i - 1]) == cx {
      GroupNext(h, s, i - 1, cx);
    } else {
      GroupEmpty(h, s[..i], cx);
    }
    GroupedInsertEqual(h, s, i, x);
    hide Grouped;
    GroupSplit(h, s, i, cx);
    JoinedAt(h, s, i, x);
  }

  lemma JoinedAt(h: Hasher, s: seq<Node>, i: nat, x: Node)
    requires i <= |s|
    ensures Joined(h, s, InsertAt(s, i, x), x, |Group(h, s[..i], NodeClass(h, x))|)
  {
    hide Group;
    var cx := NodeClass(h, x);
    var g, t := Group(h, s[..i], cx), Group(h, s[i..], cx);
    GroupInsert(h, s, i, x, cx);
    GroupSplit(h, s, i, cx);
    InsertJoin(g, t, x);
    forall c | c != cx
      ensures Group(h, InsertAt(s, i, x), c) == Group(h, s, c)
    {
      GroupInsert(h, s, i, x, c);
      GroupSplit(h, s, i, c);
      assert Group(h, s[..i], c) + [] == Group(h, s[..i], c);
    }
  }

  lemma InsertJoin(g: seq<Node>, t: seq<Node>, x: Node)
    ensures InsertAt(g + t, |g|, x) == g + [x] + t
  {
  }

  lemma GroupedInsertEqual(h: Hasher, s: seq<Node>, i: nat, x: Node)
    requires Grouped(h, s) && i <= |s|
    requires || (0 < i && NodeClass(h, s[i - 1]) == NodeClass(h, x))
             || (i < |s| && NodeClass(h, s[i]) == NodeClass(h, x))
    ensures Grouped(h, InsertAt(s, i, x))
  {
    GroupedInsert(h, s, i, x);
  }

  // Cutting out the run that is the whole of a class takes that class and nothing else.
  lemma GroupsCutRun(h: Hasher, s: seq<Node>, i: nat, j: nat)
    requires i < j <= |s| && Group(h, s, NodeClass(h, s[i])) == s[i..j]
    requires forall k {:trigger s[k]} :: i <= k < j ==> NodeClass(h, s[k]) == NodeClass(h, s[i])
    ensures ClassErased(h, s, Without(s, i, j), NodeClass(h, s[i]))
  {
    hide Group;
    var run := s[i..j];
    forall c
      ensures Group(h, Without(s, i, j), c) == if c == NodeClass(h, s[i]) then [] else Group(h, s, c)
    {
      GroupWithout(h, s, i, j, c);
      GroupSplit(h, s, i, c);
      GroupSplit(h, s[i..], j - i, c);
      assert s[i..][..j - i] == run && s[i..][j - i..] == s[j..];
      if c == NodeClass(h, s[i]) {
        GroupAll(h, run, c);
      } else {
        GroupEmpty(h, run, c);
      }
    }
  }
}
