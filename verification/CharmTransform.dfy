// The whole transformation of a file: its global variables go into a class, and every reference to one
// goes through the class's instance.
module CharmTransform {
  import opened CharmMeaning
  import opened CharmTree
  import D = CharmDecls

  // Every variable that a global reference names is among the listed ones.
  ghost predicate AllListed(vars: seq<D.Variable>, refs: set<AstNode>) {
    forall n :: n in refs && IsGlobalReference(n) ==> D.Lists(vars, n.kind.s)
  }

  // Every rewritten reference names a member of the class.
  ghost predicate NamesMembers(members: seq<D.Declaration>, refs: set<AstNode>) {
    forall r :: r in refs ==> r.kind.KRef? && D.Declared(members, r.kind.s)
  }

  lemma ListedAreMembers(s: seq<D.Declaration>, refs: set<AstNode>)
    requires forall n :: n in refs ==> n.kind.KRef?
    ensures NamesMembers(D.Owners(D.Globals(s)), set n | n in refs && IsGlobalReference(n)) <==>
            AllListed(D.Globals(s), refs)
  {
    hide D.Declared, D.Lists;
    forall n | n in refs
      ensures D.Declared(D.Owners(D.Globals(s)), n.kind.s) <==> D.Lists(D.Globals(s), n.kind.s)
    {
      D.MembersDeclare(s, n.kind.s);
    }
  }

  /** The declarations of the global variables become the members of the class, and each reference to one
      goes through the instance. What is rewritten names a member exactly when every global reference is to a
      listed variable (one declared in a block with extern need not be); then, unless some reference stands
      where it cannot be rewritten, each expression means what it meant. */
  method TransformGlobalVariablesToUseStruct(
      scope: D.GlobalScope, c: D.Declaration, instance: D.Declaration, definition: D.ClassDefinition,
      nodeList: seq<AstNode>, globals: Symbol, ghost a: Shape, ghost es: set<Edge>)
    returns (ok: bool, ghost b: Shape, ghost w: map<AstNode, Wrapper>)
    requires D.Distinct(scope.declarations) && definition.members == []
    requires c !in scope.declarations && instance !in scope.declarations
    requires instance.isVariable && instance.variables == [globals]
    requires es == Edges(a) && WellKinded(a) && Mirrored(es) && NoTwins(es) && !a.Leaf?
    requires Source(globals, TreeOf(a))
    requires forall i :: 0 <= i < |nodeList| ==> nodeList[i] in References(a)
    requires References(a) <= set n | n in nodeList
    requires forall i, j :: 0 <= i < j < |nodeList| ==> nodeList[i] != nodeList[j]
    modifies scope, definition, NodesOf(a)
    ensures definition.members == D.Owners(D.Globals(old(scope.declarations)))
    ensures scope.declarations == D.ScopeAfter(old(scope.declarations), c, instance)
    ensures D.Replaced(old(scope.declarations), scope.declarations, c, instance)
    ensures var s := old(scope.declarations);
            D.FirstDeclares(s) < |s| ==>
              (multiset(definition.members) + multiset(scope.declarations) == multiset(s) + multiset{c, instance}
               <==> D.OneEach(s))
    ensures ok <==> Rewritable(TreeOf(a))
    ensures ok ==> b == Wrapped(a, w) && WellKinded(b) && Mirrored(Edges(b)) && NoTwins(Edges(b))
    ensures ok ==> w.Keys == set n | n in References(a) && IsGlobalReference(n)
    ensures ok ==> (NamesMembers(definition.members, w.Keys) <==>
            AllListed(D.Globals(old(scope.declarations)), References(a)))
    ensures ok && NamesMembers(definition.members, w.Keys) ==>
              && (w.Keys != {} ==> D.Declared(scope.declarations, globals))
              && TreeOf(b) == Rewrite(globals, TreeOf(a)) && SameMeaning(globals, TreeOf(a), TreeOf(b))
  {
    hide Edges, NoTwins, Source, SameMeaning, WellKinded, Wrapped, Leaves, AllListed;
    hide D.Replaced, D.Globals, D.Owners, D.ScopeAfter, D.OneEach, D.Distinct, D.Declared, D.Lists;
    ghost var s := scope.declarations;
    var vars := D.BuildListOfGlobalVariables(scope);
    D.PutGlobalVariablesIntoClass(vars, scope, c, instance, definition);
    if D.FirstDeclares(s) < |s| {
      D.DeclarationsConserved(s, c, instance);
    }
    ListedAreMembers(s, References(a));
    ok, b, w := TransformReferences(nodeList, globals, a, es);
    if ok && NamesMembers(definition.members, w.Keys) && w.Keys != {} {
      ghost var r :| r in w.Keys;
      D.MembersDeclare(s, r.kind.s);
      D.InstanceDeclared(s, r.kind.s, c, instance, globals);
    }
  }
}
