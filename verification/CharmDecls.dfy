// Moving the declarations of the global variables into a class.
module CharmDecls {
  import opened CharmMeaning

  // A declaration in global scope: of variables, in order, or of anything else.
  class Declaration {
    const isVariable: bool
    const variables: seq<Symbol>

    constructor (isVariable: bool, variables: seq<Symbol>)
      ensures this.isVariable == isVariable && this.variables == variables
    {
      this.isVariable, this.variables := isVariable, variables;
    }
  }

  // An initialized name: the k-th variable of its parent declaration.
  datatype Variable = Variable(parent: Declaration, k: nat)

  class GlobalScope {
    var declarations: seq<Declaration>

    method ReplaceStatement(target: Declaration, d: Declaration)
      requires target in declarations
      modifies this
      ensures exists i: nat :: First(old(declarations), target, i) && declarations == old(declarations)[i := d]
    {
      var i := IndexOf(target);
      declarations := declarations[i := d];
    }

    method InsertStatementAfter(target: Declaration, d: Declaration)
      requires target in declarations
      modifies this
      ensures exists i: nat :: First(old(declarations), target, i)
                       && declarations == old(declarations)[..i + 1] + [d] + old(declarations)[i + 1..]
    {
      var i := IndexOf(target);
      declarations := declarations[..i + 1] + [d] + declarations[i + 1..];
    }

    // Nothing happens when d is not there.
    method RemoveStatement(d: Declaration)
      modifies this
      ensures declarations == RemoveFirst(old(declarations), d)
    {
      if d in declarations {
        var i := IndexOf(d);
        RemoveFirstAt(declarations, d, i);
        declarations := declarations[..i] + declarations[i + 1..];
      } else {
        RemoveAbsent(declarations, d);
      }
    }

    method IndexOf(d: Declaration) returns (i: nat)
      requires d in declarations
      ensures First(declarations, d, i)
    {
      i := 0;
      while declarations[i] != d
        invariant i < |declarations| && d !in declarations[..i]
        decreases |declarations| - i
      {
        i := i + 1;
      }
    }
  }

  class ClassDefinition {
    var members: seq<Declaration>

    constructor ()
      ensures members == []
    {
      members := [];
    }

    method AppendMember(d: Declaration)
      modifies this
      ensures members == old(members) + [d]
    {
      members := members + [d];
    }
  }

  ghost predicate First(s: seq<Declaration>, d: Declaration, i: nat) {
    i < |s| && s[i] == d && d !in s[..i]
  }

  ghost function RemoveFirst(s: seq<Declaration>, d: Declaration): seq<Declaration> {
    if s == [] then [] else if s[0] == d then s[1..] else [s[0]] + RemoveFirst(s[1..], d)
  }

  lemma {:induction false} RemoveFirstAt(s: seq<Declaration>, d: Declaration, i: nat)
    requires First(s, d, i)
    ensures RemoveFirst(s, d) == s[..i] + s[i + 1..]
  {
    if i > 0 {
      assert s[0] in s[..i];
      assert s[1..][..i - 1] == s[..i][1..];
      RemoveFirstAt(s[1..], d, i - 1);
      assert s[..i] == [s[0]] + s[1..][..i - 1];
    }
  }

  lemma {:induction false} RemoveAbsent(s: seq<Declaration>, d: Declaration)
    requires d !in s
    ensures RemoveFirst(s, d) == s
  {
    if s != [] {
      RemoveAbsent(s[1..], d);
    }
  }

  // ----- the list of global variables -----

  ghost function VariablesOf(d: Declaration): seq<Variable> {
    if d.isVariable then seq(|d.variables|, k requires 0 <= k < |d.variables| => Variable(d, k)) else []
  }

  ghost function Globals(s: seq<Declaration>): seq<Variable> {
    if s == [] then [] else Globals(s[..|s| - 1]) + VariablesOf(s[|s| - 1])
  }

  method BuildListOfGlobalVariables(scope: GlobalScope) returns (list: seq<Variable>)
    ensures list == Globals(scope.declarations)
  {
    list := [];
    var i := 0;
    while i < |scope.declarations|
      invariant i <= |scope.declarations| && list == Globals(scope.declarations[..i])
    {
      var d := scope.declarations[i];
      if d.isVariable {
        ghost var before := list;
        var k := 0;
        while k < |d.variables|
          invariant k <= |d.variables| && list == before + VariablesOf(d)[..k]
        {
          list := list + [Variable(d, k)];
          k := k + 1;
        }
      }
      i := i + 1;
      assert scope.declarations[..i][..i - 1] == scope.declarations[..i - 1];
    }
    assert scope.declarations[..i] == scope.declarations;
  }

  /** The variables of one declaration are in its order, and those of several come one declaration after another. */
  lemma {:induction false} GlobalsInOrder(a: seq<Declaration>, b: seq<Declaration>, d: Declaration)
    ensures Globals(a + b) == Globals(a) + Globals(b)
    ensures |Globals([d])| == if d.isVariable then |d.variables| else 0
    ensures forall k: nat :: k < |Globals([d])| ==> Globals([d])[k] == Variable(d, k)
  {
    assert [d][..0] == [] && Globals([d]) == [] + VariablesOf(d);
    if b == [] {
      assert a + b == a;
    } else {
      GlobalsInOrder(a, b[..|b| - 1], d);
      assert (a + b)[..|a + b| - 1] == a + b[..|b| - 1];
    }
  }

  // ----- moving them -----

  predicate Declares(d: Declaration) {
    d.isVariable && d.variables != []
  }

  ghost function Declaring(s: seq<Declaration>): set<Declaration> {
    set d | d in s && Declares(d)
  }

  ghost function Owners(vars: seq<Variable>): seq<Declaration> {
    seq(|vars|, i requires 0 <= i < |vars| => vars[i].parent)
  }

  ghost function Kept(s: seq<Declaration>, gone: set<Declaration>): seq<Declaration> {
    if s == [] then [] else (if s[0] in gone then [] else [s[0]]) + Kept(s[1..], gone)
  }

  ghost function Moved(s: seq<Declaration>): seq<Declaration> {
    if s == [] then [] else (if Declares(s[0]) then [s[0]] else []) + Moved(s[1..])
  }

  ghost predicate Distinct(s: seq<Declaration>) {
    forall i, j :: 0 <= i < j < |s| ==> s[i] != s[j]
  }

  lemma {:induction false} RemoveKept(p: seq<Declaration>, s: seq<Declaration>, gone: set<Declaration>, d: Declaration)
    requires Distinct(s) && d !in p
    ensures RemoveFirst(p + Kept(s, gone), d) == p + Kept(s, gone + {d})
  {
    if p != [] {
      assert (p + Kept(s, gone))[1..] == p[1..] + Kept(s, gone);
      RemoveKept(p[1..], s, gone, d);
    } else {
      assert p + Kept(s, gone) == Kept(s, gone) && p + Kept(s, gone + {d}) == Kept(s, gone + {d});
      if s != [] {
        if s[0] == d {
          KeptAbsent(s[1..], gone, d);
          KeptFrom(s[1..], gone);
          if d in gone {
            RemoveAbsent(Kept(s[1..], gone), d);
            assert Kept(s, gone) == Kept(s[1..], gone);
          } else {
            assert Kept(s, gone) == [d] + Kept(s[1..], gone);
            assert ([d] + Kept(s[1..], gone))[1..] == Kept(s[1..], gone);
          }
        } else {
          RemoveKept([], s[1..], gone, d);
          assert [] + Kept(s[1..], gone) == Kept(s[1..], gone);
          assert [] + Kept(s[1..], gone + {d}) == Kept(s[1..], gone + {d});
        }
      }
    }
  }

  lemma {:induction false} KeptAbsent(s: seq<Declaration>, gone: set<Declaration>, d: Declaration)
    requires d !in s
    ensures Kept(s, gone + {d}) == Kept(s, gone)
  {
    if s != [] {
      KeptAbsent(s[1..], gone, d);
    }
  }

  lemma {:induction false} KeptFrom(s: seq<Declaration>, gone: set<Declaration>)
    ensures forall d :: d in Kept(s, gone) ==> d in s && d !in gone
  {
    if s != [] {
      KeptFrom(s[1..], gone);
    }
  }

  // Everything before the first declaration of a variable, and after it.
  ghost function FirstDeclares(s: seq<Declaration>): (i: nat)
    ensures i <= |s| && (i < |s| ==> Declares(s[i])) && forall k :: 0 <= k < i ==> !Declares(s[k])
  {
    if s == [] || Declares(s[0]) then 0 else 1 + FirstDeclares(s[1..])
  }

  /** The global scope afterwards: the class and then its instance in the place of the first
      variable declaration, and no other variable declaration left. */
  ghost function ScopeAfter(s: seq<Declaration>, c: Declaration, instance: Declaration): seq<Declaration> {
    var i := FirstDeclares(s);
    if i == |s| then s
    else s[..i] + [c, instance] + Kept(s[i + 1..], Declaring(s))
  }

  ghost function OwnerSet(vars: seq<Variable>): set<Declaration> {
    set v | v in vars :: v.parent
  }

  lemma OwnerSetConcat(a: seq<Variable>, b: seq<Variable>)
    ensures OwnerSet(a + b) == OwnerSet(a) + OwnerSet(b)
  {
  }

  lemma OwnerSetOf(d: Declaration)
    ensures OwnerSet(VariablesOf(d)) == if Declares(d) then {d} else {}
  {
    if Declares(d) {
      assert VariablesOf(d)[0] in VariablesOf(d);
    }
  }

  lemma OwnersConcat(a: seq<Variable>, b: seq<Variable>)
    ensures Owners(a + b) == Owners(a) + Owners(b)
  {
  }

  lemma {:induction false} GlobalsOwners(s: seq<Declaration>)
    ensures OwnerSet(Globals(s)) == Declaring(s)
    ensures Globals(s) != [] <==> FirstDeclares(s) < |s|
    ensures Globals(s) != [] ==> Globals(s)[0].parent == s[FirstDeclares(s)]
  {
    if s != [] {
      var p, d := s[..|s| - 1], s[|s| - 1];
      GlobalsOwners(p);
      OwnerSetConcat(Globals(p), VariablesOf(d));
      OwnerSetOf(d);
      assert s == p + [d];
      FirstUnique(s, p);
      FirstOf(d);
      hide FirstDeclares, VariablesOf, OwnerSet, Declares;
    }
  }

  lemma FirstOf(d: Declaration)
    ensures VariablesOf(d) != [] <==> Declares(d)
    ensures Declares(d) ==> VariablesOf(d)[0].parent == d
  {
  }

  // The first variable declaration of a list is that of any prefix that has one.
  lemma FirstUnique(s: seq<Declaration>, p: seq<Declaration>)
    requires |p| <= |s| && p == s[..|p|]
    ensures FirstDeclares(p) < |p| ==> FirstDeclares(s) == FirstDeclares(p)
    ensures FirstDeclares(p) == |p| ==> FirstDeclares(s) >= |p|
  {
    assert forall k :: 0 <= k < |p| ==> p[k] == s[k];
  }

  lemma {:induction false} KeptAll(s: seq<Declaration>)
    ensures Kept(s, {}) == s
  {
    if s != [] {
      KeptAll(s[1..]);
    }
  }

  // The first variable declaration gives way to the class and its instance.
  method ReplaceFirst(scope: GlobalScope, d: Declaration, c: Declaration, instance: Declaration, ghost f: nat)
    requires Distinct(scope.declarations) && c !in scope.declarations
    requires f < |scope.declarations| && scope.declarations[f] == d
    modifies scope
    ensures var s := old(scope.declarations);
            scope.declarations == s[..f] + [c, instance] + Kept(s[f + 1..], {d})
  {
    hide Distinct, Kept;
    ghost var s := scope.declarations;
    DistinctAt(s, f);
    scope.ReplaceStatement(d, c);
    ghost var i: nat :| First(s, d, i) && scope.declarations == s[i := c];
    ghost var s' := scope.declarations;
    assert s'[f] == c;
    scope.InsertStatementAfter(c, instance);
    ghost var j: nat :| First(s', c, j) && scope.declarations == s'[..j + 1] + [instance] + s'[j + 1..];
    FirstReplaced(s, f, c, instance, j);
    KeptAll(s[f + 1..]);
    KeptAbsent(s[f + 1..], {}, d);
    assert {} + {d} == {d};
  }

  lemma DistinctAt(s: seq<Declaration>, f: nat)
    requires Distinct(s) && f < |s|
    ensures forall i: nat :: First(s, s[f], i) ==> i == f
    ensures s[f] !in s[f + 1..]
  {
  }

  lemma FirstReplaced(s: seq<Declaration>, f: nat, c: Declaration, instance: Declaration, j: nat)
    requires f < |s| && c !in s && First(s[f := c], c, j)
    ensures j == f && s[f := c][..j + 1] + [instance] + s[f := c][j + 1..] == s[..f] + [c, instance] + s[f + 1..]
  {
    assert forall k :: 0 <= k < |s| && k != f ==> s[f := c][k] == s[k] && s[k] in s;
  }

  lemma OutsidePrefix(s: seq<Declaration>, c: Declaration, instance: Declaration, d: Declaration)
    requires d in s && Declares(d) && c !in s && instance !in s
    ensures d !in s[..FirstDeclares(s)] + [c, instance]
  {
  }

  lemma DistinctFrom(s: seq<Declaration>, i: nat)
    requires Distinct(s) && i <= |s|
    ensures Distinct(s[i..])
  {
  }

  // The scope after n variables have gone.
  ghost function ScopeWithout(s: seq<Declaration>, vars: seq<Variable>, c: Declaration, instance: Declaration, n: nat)
    : seq<Declaration>
    requires n <= |vars| && (n > 0 ==> FirstDeclares(s) < |s|)
  {
    var f := FirstDeclares(s);
    if n == 0 then s else s[..f] + [c, instance] + Kept(s[f + 1..], OwnerSet(vars[..n]))
  }

  // The declaration of variable n leaves the scope; the first one gives way to the class and its instance.
  method TakeOut(scope: GlobalScope, vars: seq<Variable>, n: nat, c: Declaration, instance: Declaration,
                 ghost s: seq<Declaration>)
    requires vars == Globals(s) && Distinct(s) && c !in s && instance !in s && n < |vars|
    requires FirstDeclares(s) < |s| && scope.declarations == ScopeWithout(s, vars, c, instance, n)
    modifies scope
    ensures scope.declarations == ScopeWithout(s, vars, c, instance, n + 1)
  {
    hide Distinct, Kept, Globals, RemoveFirst, OwnerSet;
    ghost var f := FirstDeclares(s);
    GlobalsOwners(s);
    DistinctFrom(s, f + 1);
    OwnersNext(vars, n);
    hide FirstDeclares;
    if n == 0 {
      ReplaceFirst(scope, vars[n].parent, c, instance, f);
    } else {
      scope.RemoveStatement(vars[n].parent);
      OutsidePrefix(s, c, instance, vars[n].parent);
      RemoveKept(s[..f] + [c, instance], s[f + 1..], OwnerSet(vars[..n]), vars[n].parent);
    }
  }

  // x stands before y in s.
  ghost predicate Precedes(s: seq<Declaration>, x: Declaration, y: Declaration) {
    exists i, j :: 0 <= i < j < |s| && s[i] == x && s[j] == y
  }

  /** r is what is left of s without the declarations of variables: just the others, each once, in their order. */
  ghost predicate WithoutVariables(s: seq<Declaration>, r: seq<Declaration>) {
    && (forall d :: d in r ==> d in s && !(d.isVariable && d.variables != []))
    && (forall d :: d in s && !(d.isVariable && d.variables != []) ==> d in r)
    && Distinct(r)
    && forall i, j :: 0 <= i < j < |r| ==> Precedes(s, r[i], r[j])
  }

  /** Up to its first declaration of a variable, at place f, the scope s' is s; there stand the class and then
      its instance, and then what is left of the rest of s. Without a declaration of a variable s' is s. */
  ghost predicate Replaced(s: seq<Declaration>, s': seq<Declaration>, c: Declaration, instance: Declaration) {
    if forall d :: d in s ==> !(d.isVariable && d.variables != []) then s' == s
    else exists f ::
      && 0 <= f < |s| && s[f].isVariable && s[f].variables != []
      && (forall k :: 0 <= k < f ==> !(s[k].isVariable && s[k].variables != []))
      && |s'| >= f + 2 && s'[..f] == s[..f] && s'[f] == c && s'[f + 1] == instance
      && WithoutVariables(s[f + 1..], s'[f + 2..])
  }

  lemma {:induction false} KeptOrder(s: seq<Declaration>, gone: set<Declaration>)
    requires Distinct(s) && forall d :: d in s ==> (d in gone <==> d.isVariable && d.variables != [])
    ensures WithoutVariables(s, Kept(s, gone))
  {
    if s != [] {
      var d, t := s[0], s[1..];
      var k := Kept(t, gone);
      KeptOrder(t, gone);
      assert s == [d] + t;
      assert d !in t;
      var r := Kept(s, gone);
      forall i, j | 0 <= i < j < |r|
        ensures Precedes(s, r[i], r[j]) && r[i] != r[j]
      {
        KeptPlaces(d, t, k, d in gone, i, j);
      }
    }
  }

  lemma KeptPlaces(d: Declaration, t: seq<Declaration>, k: seq<Declaration>, gone: bool, i: nat, j: nat)
    requires d !in t && WithoutVariables(t, k)
    requires i < j < |(if gone then [] else [d]) + k|
    ensures var r := (if gone then [] else [d]) + k; Precedes([d] + t, r[i], r[j]) && r[i] != r[j]
  {
    var r, s := (if gone then [] else [d]) + k, [d] + t;
    var m := if gone then 0 else 1;
    assert r[j] == k[j - m] && k[j - m] in k && r[j] in t;
    if i >= m {
      assert r[i] == k[i - m] && Precedes(t, k[i - m], k[j - m]);
      var a, b :| 0 <= a < b < |t| && t[a] == r[i] && t[b] == r[j];
      assert s[a + 1] == r[i] && s[b + 1] == r[j];
    } else {
      var b :| 0 <= b < |t| && t[b] == r[j];
      assert s[0] == r[i] && s[b + 1] == r[j];
    }
  }

  lemma ScopePlaces(a: seq<Declaration>, c: Declaration, instance: Declaration, r: seq<Declaration>)
    ensures var t, f := a + [c, instance] + r, |a|;
            |t| >= f + 2 && t[..f] == a && t[f] == c && t[f + 1] == instance && t[f + 2..] == r
  {
  }

  lemma ScopeReplaced(s: seq<Declaration>, c: Declaration, instance: Declaration)
    requires Distinct(s)
    ensures Replaced(s, ScopeAfter(s, c, instance), c, instance)
  {
    hide Kept, Distinct, WithoutVariables;
    var f := FirstDeclares(s);
    if f < |s| {
      hide FirstDeclares;
      assert s[f] in s;
      DistinctFrom(s, f + 1);
      DeclaringRest(s, f + 1);
      KeptOrder(s[f + 1..], Declaring(s));
      ScopePlaces(s[..f], c, instance, Kept(s[f + 1..], Declaring(s)));
    }
  }

  lemma DeclaringRest(s: seq<Declaration>, i: nat)
    requires i <= |s|
    ensures forall d :: d in s[i..] ==> (d in Declaring(s) <==> d.isVariable && d.variables != [])
  {
  }

  /** The members of the class are the owners of the global variables, in order. */
  method PutGlobalVariablesIntoClass(vars: seq<Variable>, scope: GlobalScope, c: Declaration, instance: Declaration,
                                     definition: ClassDefinition)
    requires vars == Globals(scope.declarations) && Distinct(scope.declarations) && definition.members == []
    requires c !in scope.declarations && instance !in scope.declarations
    modifies scope, definition
    ensures definition.members == Owners(vars)
    ensures |definition.members| == |vars| && forall i :: 0 <= i < |vars| ==> definition.members[i] == vars[i].parent
    ensures scope.declarations == ScopeAfter(old(scope.declarations), c, instance)
    ensures Replaced(old(scope.declarations), scope.declarations, c, instance)
  {
    hide Replaced, ScopeAfter, Distinct, Kept, Globals, FirstDeclares, Owners, OwnerSet, ScopeWithout;
    ghost var s := scope.declarations;
    GlobalsOwners(s);
    OwnersEmpty();
    ScopeEnds(s, vars, c, instance);
    ScopeReplaced(s, c, instance);
    assert vars[..0] == [];
    var n := 0;
    while n < |vars|
      invariant n <= |vars| && definition.members == Owners(vars[..n])
      invariant scope.declarations == ScopeWithout(s, vars, c, instance, n)
    {
      OwnersNext(vars, n);
      TakeOut(scope, vars, n, c, instance, s);
      definition.AppendMember(vars[n].parent);
      n := n + 1;
    }
    assert vars[..|vars|] == vars;
    OwnersAre(vars);
  }

  lemma OwnersAre(vars: seq<Variable>)
    ensures |Owners(vars)| == |vars| && forall i :: 0 <= i < |vars| ==> Owners(vars)[i] == vars[i].parent
  {
  }

  lemma ScopeEnds(s: seq<Declaration>, vars: seq<Variable>, c: Declaration, instance: Declaration)
    requires vars == Globals(s)
    ensures vars != [] <==> FirstDeclares(s) < |s|
    ensures ScopeWithout(s, vars, c, instance, 0) == s
    ensures ScopeWithout(s, vars, c, instance, |vars|) == ScopeAfter(s, c, instance)
  {
    GlobalsOwners(s);
    assert vars[..|vars|] == vars;
  }

  lemma OwnersEmpty()
    ensures Owners([]) == [] && OwnerSet([]) == {}
  {
  }

  lemma OwnersNext(vars: seq<Variable>, n: nat)
    requires n < |vars|
    ensures Owners(vars[..n + 1]) == Owners(vars[..n]) + [vars[n].parent]
    ensures OwnerSet(vars[..n + 1]) == OwnerSet(vars[..n]) + {vars[n].parent}
    ensures n == 0 ==> OwnerSet(vars[..n + 1]) == {vars[n].parent}
    ensures vars[n].parent in OwnerSet(vars)
  {
    assert vars[..n + 1] == vars[..n] + [vars[n]];
    OwnersConcat(vars[..n], [vars[n]]);
    OwnerSetConcat(vars[..n], [vars[n]]);
    assert OwnerSet([vars[n]]) == {vars[n].parent};
    assert vars[n] in vars;
  }

  // ----- when declarations are conserved -----

  ghost predicate OneEach(s: seq<Declaration>) {
    forall d :: d in s && d.isVariable ==> |d.variables| <= 1
  }

  lemma {:induction false} OwnersOnce(s: seq<Declaration>)
    ensures |Owners(Globals(s))| >= |Moved(s)|
    ensures if OneEach(s) then Owners(Globals(s)) == Moved(s) else |Owners(Globals(s))| > |Moved(s)|
  {
    if s == [] {
      OwnersEmpty();
    } else {
      var p, d := s[..|s| - 1], s[|s| - 1];
      OwnersOnce(p);
      assert s == p + [d];
      OwnersMore(p, d);
      OneEachMore(p, d);
      OwnersOfOne(d);
      hide OneEach, Moved, Owners, VariablesOf, Globals;
    }
  }

  lemma OwnersMore(p: seq<Declaration>, d: Declaration)
    ensures Owners(Globals(p + [d])) == Owners(Globals(p)) + Owners(VariablesOf(d))
    ensures Moved(p + [d]) == Moved(p) + Moved([d])
  {
    hide Owners, Moved;
    assert (p + [d])[..|p|] == p;
    OwnersConcat(Globals(p), VariablesOf(d));
    MovedConcat(p, [d]);
  }

  lemma OneEachMore(p: seq<Declaration>, d: Declaration)
    ensures OneEach(p + [d]) <==> OneEach(p) && (d.isVariable ==> |d.variables| <= 1)
  {
    assert d in p + [d];
  }

  lemma OwnersOfOne(d: Declaration)
    ensures var o, m := Owners(VariablesOf(d)), Moved([d]);
            if d.isVariable && |d.variables| > 1 then |o| > |m| else o == m
  {
    assert Moved([d]) == if Declares(d) then [d] else [];
    if d.isVariable && |d.variables| == 1 {
      assert Owners(VariablesOf(d)) == [d];
    }
  }

  lemma {:induction false} MovedConcat(a: seq<Declaration>, b: seq<Declaration>)
    ensures Moved(a + b) == Moved(a) + Moved(b)
  {
    if a == [] {
      assert a + b == b;
    } else {
      assert (a + b)[1..] == a[1..] + b && (a + b)[0] == a[0];
      MovedConcat(a[1..], b);
      hide Declares;
      var x := if Declares(a[0]) then [a[0]] else [];
      assert x + (Moved(a[1..]) + Moved(b)) == (x + Moved(a[1..])) + Moved(b);
    }
  }

  lemma {:induction false} KeptAndMoved(s: seq<Declaration>, gone: set<Declaration>)
    requires forall d :: d in s ==> (d in gone <==> Declares(d))
    ensures multiset(Kept(s, gone)) + multiset(Moved(s)) == multiset(s)
  {
    if s != [] {
      KeptAndMoved(s[1..], gone);
      assert s == [s[0]] + s[1..];
    }
  }

  lemma {:induction false} MovedNone(s: seq<Declaration>)
    requires forall k :: 0 <= k < |s| ==> !Declares(s[k])
    ensures Moved(s) == []
  {
    if s != [] {
      MovedNone(s[1..]);
    }
  }

  lemma SplitAtFirst(s: seq<Declaration>, f: nat)
    requires f == FirstDeclares(s) < |s|
    ensures s == s[..f] + ([s[f]] + s[f + 1..])
    ensures forall k :: 0 <= k < |s[..f]| ==> !Declares(s[..f][k])
    ensures forall d :: d in s[f + 1..] ==> (d in Declaring(s) <==> Declares(d))
  {
  }

  lemma ScopeAndMoved(s: seq<Declaration>, c: Declaration, instance: Declaration)
    requires FirstDeclares(s) < |s|
    ensures multiset(Moved(s)) + multiset(ScopeAfter(s, c, instance)) == multiset(s) + multiset{c, instance}
  {
    hide Moved, Kept, FirstDeclares, Declares, Declaring;
    var f := FirstDeclares(s);
    SplitAtFirst(s, f);
    PartsAndMoved(s[..f], s[f], s[f + 1..], Declaring(s), c, instance);
  }

  lemma PartsAndMoved(a: seq<Declaration>, x: Declaration, t: seq<Declaration>, gone: set<Declaration>,
                      c: Declaration, instance: Declaration)
    requires (forall k :: 0 <= k < |a| ==> !Declares(a[k])) && Declares(x)
    requires forall d :: d in t ==> (d in gone <==> Declares(d))
    ensures multiset(Moved(a + ([x] + t))) + multiset(a + [c, instance] + Kept(t, gone))
         == multiset(a + ([x] + t)) + multiset{c, instance}
  {
    hide Moved, Kept, Declares;
    MovedSplit(a, x, t);
    KeptAndMoved(t, gone);
    Splice(a, x, t, Kept(t, gone), Moved(t), c, instance);
  }

  lemma MovedSplit(a: seq<Declaration>, x: Declaration, t: seq<Declaration>)
    requires (forall k :: 0 <= k < |a| ==> !Declares(a[k])) && Declares(x)
    ensures Moved(a + ([x] + t)) == [x] + Moved(t)
  {
    MovedNone(a);
    MovedConcat(a, [x] + t);
    MovedConcat([x], t);
    assert Moved([x]) == [x];
  }

  lemma Splice(a: seq<Declaration>, x: Declaration, t: seq<Declaration>, k: seq<Declaration>, m: seq<Declaration>,
               c: Declaration, instance: Declaration)
    requires multiset(k) + multiset(m) == multiset(t)
    ensures multiset([x] + m) + multiset(a + [c, instance] + k) == multiset(a + ([x] + t)) + multiset{c, instance}
  {
    assert multiset([c, instance]) == multiset{c, instance};
  }

  /** Moving conserves the declarations exactly when none declares two variables: then the class
      and the global scope together hold what there was, and the class and its instance. */
  lemma DeclarationsConserved(s: seq<Declaration>, c: Declaration, instance: Declaration)
    requires Distinct(s) && FirstDeclares(s) < |s|
    ensures multiset(Owners(Globals(s))) + multiset(ScopeAfter(s, c, instance)) == multiset(s) + multiset{c, instance}
            <==> OneEach(s)
  {
    hide Moved, Owners, Globals, ScopeAfter, OneEach;
    ScopeAndMoved(s, c, instance);
    OwnersOnce(s);
    var o, m, r := multiset(Owners(Globals(s))), multiset(Moved(s)), multiset(ScopeAfter(s, c, instance));
    assert |o + r| == |o| + |r| && |m + r| == |m| + |r|;
  }

  /** One declaration of two variables is not conserved: the class gets it twice. */
  lemma TwoVariables(d: Declaration, c: Declaration, instance: Declaration)
    requires d.isVariable && |d.variables| == 2
    ensures Owners(Globals([d])) == [d, d] && ScopeAfter([d], c, instance) == [c, instance]
    ensures multiset(Owners(Globals([d]))) + multiset(ScopeAfter([d], c, instance))
         != multiset([d]) + multiset{c, instance}
  {
    assert [d][..0] == [] && Globals([d]) == [] + VariablesOf(d);
    assert Kept([d][1..], Declaring([d])) == [];
    assert d in [d];
    DeclarationsConserved([d], c, instance);
  }

  // ----- which variables are members -----

  // x is a variable of the list.
  ghost predicate Lists(vars: seq<Variable>, x: Symbol) {
    exists v :: v in vars && v.k < |v.parent.variables| && v.parent.variables[v.k] == x
  }

  // Some declaration among s declares x.
  ghost predicate Declared(s: seq<Declaration>, x: Symbol) {
    exists d :: d in s && d.isVariable && x in d.variables
  }

  lemma {:induction false} GlobalsMembers(s: seq<Declaration>, v: Variable)
    ensures v in Globals(s) <==> v.parent in s && v.parent.isVariable && v.k < |v.parent.variables|
  {
    if s != [] {
      var p, d := s[..|s| - 1], s[|s| - 1];
      GlobalsMembers(p, v);
      assert s == p + [d];
      assert v in VariablesOf(d) <==> v.parent == d && d.isVariable && v.k < |d.variables| by {
        if v.parent == d && d.isVariable && v.k < |d.variables| {
          assert VariablesOf(d)[v.k] == v;
        }
      }
    }
  }

  /** The members of the class declare exactly the listed variables. */
  lemma MembersDeclare(s: seq<Declaration>, x: Symbol)
    ensures Declared(Owners(Globals(s)), x) <==> Lists(Globals(s), x)
  {
    var vars := Globals(s);
    var o := Owners(vars);
    if Declared(o, x) {
      var d :| d in o && d.isVariable && x in d.variables;
      var i :| 0 <= i < |o| && o[i] == d;
      var k :| 0 <= k < |d.variables| && d.variables[k] == x;
      GlobalsMembers(s, vars[i]);
      GlobalsMembers(s, Variable(d, k));
      assert Variable(d, k) in vars;
    }
    if Lists(vars, x) {
      var v :| v in vars && v.k < |v.parent.variables| && v.parent.variables[v.k] == x;
      var i :| 0 <= i < |vars| && vars[i] == v;
      GlobalsMembers(s, v);
      assert o[i] == v.parent && v.parent in o;
    }
  }

  /** If any variable is listed, the instance has been declared. */
  lemma InstanceDeclared(s: seq<Declaration>, x: Symbol, c: Declaration, instance: Declaration, globals: Symbol)
    requires Lists(Globals(s), x) && instance.isVariable && instance.variables == [globals]
    ensures Declared(ScopeAfter(s, c, instance), globals)
  {
    hide Globals, FirstDeclares, Kept, Declaring, OwnerSet;
    GlobalsOwners(s);
    InstanceInScope(s, c, instance);
    assert globals in instance.variables;
  }

  lemma InstanceInScope(s: seq<Declaration>, c: Declaration, instance: Declaration)
    requires FirstDeclares(s) < |s|
    ensures instance in ScopeAfter(s, c, instance)
  {
    hide FirstDeclares, Kept, Declaring;
    assert ScopeAfter(s, c, instance)[FirstDeclares(s) + 1] == instance;
  }
}
