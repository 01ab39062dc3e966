// What expressions mean before and after the globals move into a struct.
module CharmMeaning {

  type Datum(!new, 0)
  type Operator(!new, ==)

  datatype Option<T> = None | Some(value: T)

  datatype Scope = Global | Block(id: nat) | ClassMember(id: nat)

  // A variable symbol. Two variables of one name are two symbols.
  datatype Symbol = Symbol(id: nat, name: string, scope: Scope)

  datatype BinaryOp = Dot | Plain(op: Operator)

  datatype Tree =
    | Lit(d: Datum)
    | Ref(s: Symbol)
    | Unary(op: Operator, e: Tree)
    | Binary(bop: BinaryOp, l: Tree, r: Tree)
    | Other(what: Operator, first: Tree, second: Tree)

  // A variable, or a member or an element of the object at a location.
  datatype Location = Var(s: Symbol) | Member(of: Location, m: Symbol) | Elem(of: Location, index: Datum)

  datatype Value = Data(d: Datum) | Pointer(to: Location)

  // What an operator sees of an operand: its value, and where it is if it is an object.
  datatype Operand = Operand(at: Option<Location>, v: Value)

  /** What an operator does: it yields the object at a place, or else a value, after it has stored a
      value to its first operand, or copied an object there with all its members and elements, if it
      does; or it has no meaning for its operands. */
  datatype Effect =
    | Undefined
    | Effect(place: Option<Location>, value: Value, stored: Option<Value>, copied: Option<Location>)

  type Store = map<Location, Value>

  /** What the operators do, arbitrarily. short gives the value of a binary operator whose right
      operand is not evaluated; member is for a member of a value that is no object. */
  datatype Semantics = Semantics(
    unary: (Operator, Operand) -> Effect,
    binary: (Operator, Operand, Operand) -> Effect,
    short: (Operator, Operand) -> Option<Value>,
    other: (Operator, Operand, Operand) -> Effect,
    member: (Value, Symbol) -> Effect,
    unset: Value)

  function Read(sem: Semantics, st: Store, l: Location): Value {
    if l in st then st[l] else sem.unset
  }

  datatype Result = Stuck | Done(a: Operand, st: Store)

  // The object at l, as an operand.
  function Object(sem: Semantics, l: Location, st: Store): Result {
    Done(Operand(Some(l), Read(sem, st, l)), st)
  }

  // l is the object at base, or a part of it.
  predicate Below(l: Location, base: Location) {
    l == base ||
    match l
    case Var(_) => false
    case Member(of, _) => Below(of, base)
    case Elem(of, _) => Below(of, base)
  }

  // The part of the object at to that l is of the object at from.
  function Rebase(l: Location, from: Location, to: Location): Location
    requires Below(l, from)
  {
    if l == from then to else
      match l
      case Member(of, m) => Member(Rebase(of, from, to), m)
      case Elem(of, i) => Elem(Rebase(of, from, to), i)
  }

  // The parts of the object at from that the store has, in their places at to.
  function Parts(st: Store, from: Location, to: Location): set<Location> {
    set l | l in st.Keys && Below(l, from) :: Rebase(l, from, to)
  }

  // The object at to becomes a copy of the one at from.
  function Copy(st: Store, from: Location, to: Location): Store {
    (map l | l in st.Keys && !Below(l, to) :: st[l]) +
    map l | l in Parts(st, from, to) && Below(l, to) && Rebase(l, to, from) in st :: st[Rebase(l, to, from)]
  }

  function Update(st: Store, e: Effect, to: Location): Store
    requires e.Effect?
  {
    var st' := if e.stored.Some? then st[to := e.stored.value] else st;
    if e.copied.Some? then Copy(st', e.copied.value, to) else st'
  }

  predicate Updates(e: Effect) {
    e.Effect? && (e.stored.Some? || e.copied.Some?)
  }

  // An effect whose first operand is at a location, or nowhere.
  function Apply(sem: Semantics, e: Effect, first: Option<Location>, st: Store): Result {
    if e.Undefined? || (Updates(e) && first.None?) then Stuck
    else
      var st' := if Updates(e) then Update(st, e, first.value) else st;
      if e.place.Some? then Object(sem, e.place.value, st') else Done(Operand(None, e.value), st')
  }

  function Eval(sem: Semantics, t: Tree, st: Store): Result {
    match t
    case Lit(d) => Done(Operand(None, Data(d)), st)
    case Ref(s) => Object(sem, Var(s), st)
    case Unary(op, e) =>
      var x := Eval(sem, e, st);
      if x.Stuck? then Stuck else Apply(sem, sem.unary(op, x.a), x.a.at, x.st)
    case Binary(Dot, l, r) =>
      var x := Eval(sem, l, st);
      if x.Stuck? || !r.Ref? then Stuck
      else if x.a.at.Some? then Object(sem, Member(x.a.at.value, r.s), x.st)
      else Apply(sem, sem.member(x.a.v, r.s), None, x.st)
    case Binary(Plain(op), l, r) =>
      var x := Eval(sem, l, st);
      if x.Stuck? then Stuck
      else if sem.short(op, x.a).Some? then Done(Operand(None, sem.short(op, x.a).value), x.st)
      else
        var y := Eval(sem, r, x.st);
        if y.Stuck? then Stuck else Apply(sem, sem.binary(op, x.a, y.a), x.a.at, y.st)
    case Other(what, first, second) =>
      var x := Eval(sem, first, st);
      if x.Stuck? then Stuck
      else
        var y := Eval(sem, second, x.st);
        if y.Stuck? then Stuck else Apply(sem, sem.other(what, x.a, y.a), x.a.at, y.st)
  }

  /** The right operand of an operator, and the second of two expressions, see what the first has stored:
      after x = v, x is v. */
  lemma OperandsInOrder(sem: Semantics, asg: Operator, op: Operator, x: Symbol, v: Datum, st: Store)
    requires forall a, b :: sem.binary(asg, a, b) == Effect(a.at, b.v, Some(b.v), None)
    requires (forall a, b :: sem.other(op, a, b) == Effect(b.at, b.v, None, None))
    requires (forall a, b :: sem.binary(op, a, b) == Effect(None, b.v, None, None))
    requires forall o, a :: sem.short(o, a) == None
    ensures var write, to := Binary(Plain(asg), Ref(x), Lit(v)), st[Var(x) := Data(v)];
            && Eval(sem, write, st) == Done(Operand(Some(Var(x)), Data(v)), to)
            && Eval(sem, Other(op, write, Ref(x)), st) == Done(Operand(Some(Var(x)), Data(v)), to)
            && Eval(sem, Binary(Plain(op), write, Ref(x)), st) == Done(Operand(None, Data(v)), to)
  {
    assert Eval(sem, Binary(Plain(asg), Ref(x), Lit(v)), st) ==
           Done(Operand(Some(Var(x)), Data(v)), st[Var(x) := Data(v)]);
  }

  // ----- the rewriting -----

  /** Every reference x to a global becomes globals.x. */
  function Rewrite(globals: Symbol, t: Tree): Tree {
    match t
    case Lit(_) => t
    case Ref(s) => if s.scope.Global? then Binary(Dot, Ref(globals), t) else t
    case Unary(op, e) => Unary(op, Rewrite(globals, e))
    case Binary(op, l, r) => Binary(op, Rewrite(globals, l), Rewrite(globals, r))
    case Other(w, a, b) => Other(w, Rewrite(globals, a), Rewrite(globals, b))
  }

  predicate IsGlobal(t: Tree) {
    t.Ref? && t.s.scope.Global?
  }

  /** Every reference to a global is the operand of a unary or a binary operator: none is directly below
      anything else. */
  predicate Rewritable(t: Tree) {
    match t
    case Lit(_) => true
    case Ref(_) => true
    case Unary(_, e) => Rewritable(e)
    case Binary(_, l, r) => Rewritable(l) && Rewritable(r)
    case Other(_, a, b) => !IsGlobal(a) && !IsGlobal(b) && Rewritable(a) && Rewritable(b)
  }

  // The program does not know the new variable, and what follows a dot is a member.
  ghost predicate Source(globals: Symbol, t: Tree) {
    match t
    case Lit(_) => true
    case Ref(s) => s != globals
    case Unary(_, e) => Source(globals, e)
    case Binary(op, l, r) => Source(globals, l) && Source(globals, r) && (op.Dot? && r.Ref? ==> !r.s.scope.Global?)
    case Other(_, a, b) => Source(globals, a) && Source(globals, b)
  }

  // ----- where things live -----

  function RootOf(l: Location): Symbol {
    match l
    case Var(s) => s
    case Member(of, _) => RootOf(of)
    case Elem(of, _) => RootOf(of)
  }

  /** Where a location lives once the globals are members of the struct. */
  function Relocate(globals: Symbol, l: Location): Location {
    match l
    case Var(s) => if s.scope.Global? then Member(Var(globals), s) else l
    case Member(of, m) => Member(Relocate(globals, of), m)
    case Elem(of, i) => Elem(Relocate(globals, of), i)
  }

  // A pointer follows its object.
  function RelocateValue(globals: Symbol, v: Value): Value {
    if v.Pointer? then Pointer(Relocate(globals, v.to)) else v
  }

  function RelocatePlace(globals: Symbol, p: Option<Location>): Option<Location> {
    if p.Some? then Some(Relocate(globals, p.value)) else None
  }

  function RelocateOption(globals: Symbol, v: Option<Value>): Option<Value> {
    if v.Some? then Some(RelocateValue(globals, v.value)) else None
  }

  function RelocateOperand(globals: Symbol, a: Operand): Operand {
    Operand(RelocatePlace(globals, a.at), RelocateValue(globals, a.v))
  }

  function RelocateEffect(globals: Symbol, e: Effect): Effect {
    if e.Undefined? then Undefined
    else Effect(RelocatePlace(globals, e.place), RelocateValue(globals, e.value), RelocateOption(globals, e.stored),
                RelocatePlace(globals, e.copied))
  }

  // Nothing that leads to the new variable.
  predicate OldValue(globals: Symbol, v: Value) {
    v.Pointer? ==> RootOf(v.to) != globals
  }

  predicate OldPlace(globals: Symbol, p: Option<Location>) {
    p.Some? ==> RootOf(p.value) != globals
  }

  predicate OldOperand(globals: Symbol, a: Operand) {
    OldPlace(globals, a.at) && OldValue(globals, a.v)
  }

  predicate OldEffect(globals: Symbol, e: Effect) {
    e.Effect? ==>
      && OldPlace(globals, e.place) && OldValue(globals, e.value) && OldPlace(globals, e.copied)
      && (e.stored.Some? ==> OldValue(globals, e.stored.value))
  }

  // e' is the effect e among the objects of the struct.
  predicate Follows(globals: Symbol, e: Effect, e': Effect) {
    OldEffect(globals, e) && e' == RelocateEffect(globals, e)
  }

  /** The operators do not see where an object lives: on operands that have moved they do what they
      did, to the objects that have moved. They make no pointer to the new variable either. */
  ghost predicate Blind(sem: Semantics, globals: Symbol) {
    && sem.unset.Data?
    && (forall op, a :: OldOperand(globals, a) ==>
          Follows(globals, sem.unary(op, a), sem.unary(op, RelocateOperand(globals, a))))
    && (forall op, a, b :: OldOperand(globals, a) && OldOperand(globals, b) ==>
          var a', b' := RelocateOperand(globals, a), RelocateOperand(globals, b);
          && Follows(globals, sem.binary(op, a, b), sem.binary(op, a', b'))
          && Follows(globals, sem.other(op, a, b), sem.other(op, a', b')))
    && (forall op, a :: OldOperand(globals, a) ==>
          && (sem.short(op, a).Some? ==> OldValue(globals, sem.short(op, a).value))
          && sem.short(op, RelocateOperand(globals, a)) == RelocateOption(globals, sem.short(op, a)))
    && (forall v: Value, m: Symbol :: OldValue(globals, v) && !m.scope.Global? ==>
          Follows(globals, sem.member(v, m), sem.member(RelocateValue(globals, v), m)))
  }

  /** Every old object has its value, and pointers follow their objects. */
  ghost predicate Corresponds(sem: Semantics, globals: Symbol, st: Store, st': Store) {
    forall l :: RootOf(l) != globals ==> SameAt(sem, globals, st, st', l)
  }

  ghost predicate SameAt(sem: Semantics, globals: Symbol, st: Store, st': Store, l: Location) {
    && OldValue(globals, Read(sem, st, l))
    && Read(sem, st', Relocate(globals, l)) == RelocateValue(globals, Read(sem, st, l))
  }

  lemma {:induction false} RelocateInjective(globals: Symbol, a: Location, b: Location)
    requires RootOf(a) != globals && RootOf(b) != globals
    requires Relocate(globals, a) == Relocate(globals, b)
    ensures a == b
  {
    match (a, b) {
      case (Member(x, _), Member(y, _)) => RelocateInjective(globals, x, y);
      case (Elem(x, _), Elem(y, _)) => RelocateInjective(globals, x, y);
      case (Var(_), Member(y, _)) => NotTheStruct(globals, y);
      case (Member(x, _), Var(_)) => NotTheStruct(globals, x);
      case _ =>
    }
  }

  lemma NotTheStruct(globals: Symbol, l: Location)
    requires RootOf(l) != globals
    ensures Relocate(globals, l) != Var(globals)
  {
  }

  lemma WritesCorrespond(sem: Semantics, globals: Symbol, st: Store, st': Store, l: Location, v: Value)
    requires Corresponds(sem, globals, st, st') && RootOf(l) != globals && OldValue(globals, v)
    ensures Corresponds(sem, globals, st[l := v], st'[Relocate(globals, l) := RelocateValue(globals, v)])
  {
    var m, m' := st[l := v], st'[Relocate(globals, l) := RelocateValue(globals, v)];
    forall k | RootOf(k) != globals
      ensures SameAt(sem, globals, m, m', k)
    {
      if Relocate(globals, k) == Relocate(globals, l) {
        RelocateInjective(globals, k, l);
      } else {
        assert SameAt(sem, globals, st, st', k);
      }
    }
  }

  lemma {:induction false} RebaseBack(l: Location, from: Location, to: Location)
    requires Below(l, from)
    ensures var k := Rebase(l, from, to); Below(k, to) && RootOf(k) == RootOf(to) && (k == to <==> l == from)
    ensures Rebase(Rebase(l, from, to), to, from) == l
  {
    if l != from {
      match l {
        case Member(of, _) => RebaseBack(of, from, to); Longer(of, from, to);
        case Elem(of, _) => RebaseBack(of, from, to); Longer(of, from, to);
      }
    }
  }

  lemma {:induction false} Longer(l: Location, from: Location, to: Location)
    requires Below(l, from)
    ensures Depth(Rebase(l, from, to)) >= Depth(to)
  {
    if l != from {
      match l {
        case Member(of, _) => Longer(of, from, to);
        case Elem(of, _) => Longer(of, from, to);
      }
    }
  }

  function Depth(l: Location): nat {
    match l
    case Var(_) => 0
    case Member(of, _) => 1 + Depth(of)
    case Elem(of, _) => 1 + Depth(of)
  }

  /** A copy has the parts of the object copied, and nothing else has changed. */
  lemma ReadCopy(sem: Semantics, st: Store, from: Location, to: Location, l: Location)
    ensures Read(sem, Copy(st, from, to), l) ==
            if Below(l, to) then Read(sem, st, Rebase(l, to, from)) else Read(sem, st, l)
  {
    if Below(l, to) {
      RebaseBack(l, to, from);
    }
  }

  lemma {:induction false} BelowMoves(globals: Symbol, l: Location, base: Location)
    requires RootOf(l) != globals && RootOf(base) != globals
    ensures Below(l, base) <==> Below(Relocate(globals, l), Relocate(globals, base))
  {
    NotTheStruct(globals, base);
    if Relocate(globals, l) == Relocate(globals, base) {
      RelocateInjective(globals, l, base);
    }
    match l {
      case Var(_) =>
      case Member(of, _) => BelowMoves(globals, of, base);
      case Elem(of, _) => BelowMoves(globals, of, base);
    }
  }

  lemma {:induction false} RebaseMoves(globals: Symbol, l: Location, from: Location, to: Location)
    requires RootOf(l) != globals && RootOf(from) != globals && Below(l, from)
    ensures Below(Relocate(globals, l), Relocate(globals, from))
    ensures Rebase(Relocate(globals, l), Relocate(globals, from), Relocate(globals, to))
         == Relocate(globals, Rebase(l, from, to))
  {
    BelowMoves(globals, l, from);
    if l != from {
      if Relocate(globals, l) == Relocate(globals, from) {
        RelocateInjective(globals, l, from);
      }
      match l {
        case Member(of, _) => RebaseMoves(globals, of, from, to);
        case Elem(of, _) => RebaseMoves(globals, of, from, to);
      }
    }
  }

  lemma CopiesCorrespond(sem: Semantics, globals: Symbol, st: Store, st': Store, from: Location, to: Location)
    requires Corresponds(sem, globals, st, st') && RootOf(from) != globals && RootOf(to) != globals
    ensures Corresponds(sem, globals, Copy(st, from, to), Copy(st', Relocate(globals, from), Relocate(globals, to)))
  {
    hide Read, Copy, Below, Rebase;
    var m, m' := Copy(st, from, to), Copy(st', Relocate(globals, from), Relocate(globals, to));
    forall l | RootOf(l) != globals
      ensures SameAt(sem, globals, m, m', l)
    {
      ReadCopy(sem, st, from, to, l);
      ReadCopy(sem, st', Relocate(globals, from), Relocate(globals, to), Relocate(globals, l));
      BelowMoves(globals, l, to);
      if Below(l, to) {
        RebaseBack(l, to, from);
        RebaseMoves(globals, l, to, from);
        assert SameAt(sem, globals, st, st', Rebase(l, to, from));
      } else {
        assert SameAt(sem, globals, st, st', l);
      }
    }
  }

  lemma UpdatesCorrespond(sem: Semantics, globals: Symbol, e: Effect, to: Location, st: Store, st': Store)
    requires e.Effect? && OldEffect(globals, e) && RootOf(to) != globals && Corresponds(sem, globals, st, st')
    ensures Corresponds(sem, globals, Update(st, e, to),
                        Update(st', RelocateEffect(globals, e), Relocate(globals, to)))
  {
    hide Corresponds, Copy;
    var m, m' := st, st';
    if e.stored.Some? {
      WritesCorrespond(sem, globals, st, st', to, e.stored.value);
      m, m' := st[to := e.stored.value], st'[Relocate(globals, to) := RelocateValue(globals, e.stored.value)];
    }
    if e.copied.Some? {
      CopiesCorrespond(sem, globals, m, m', e.copied.value, to);
    }
  }

  /** The store with every global moved into the struct, and every pointer with it. */
  ghost function MoveGlobals(globals: Symbol, st: Store): Store {
    var moved := map l | l in st && RootOf(l) != globals :: Relocate(globals, l);
    map p | p in moved.Values :: (var l :| l in moved && moved[l] == p; RelocateValue(globals, st[l]))
  }

  lemma MovedStoreCorresponds(sem: Semantics, globals: Symbol, st: Store)
    requires sem.unset.Data? && forall l :: l in st && RootOf(l) != globals ==> OldValue(globals, st[l])
    ensures Corresponds(sem, globals, st, MoveGlobals(globals, st))
  {
    var st' := MoveGlobals(globals, st);
    var moved := map l | l in st && RootOf(l) != globals :: Relocate(globals, l);
    forall l | RootOf(l) != globals
      ensures SameAt(sem, globals, st, st', l)
    {
      if l in st {
        assert l in moved && moved[l] == Relocate(globals, l);
      }
      if Relocate(globals, l) in st' {
        var k :| k in moved && moved[k] == Relocate(globals, l) &&
            st'[Relocate(globals, l)] == RelocateValue(globals, st[k]);
        RelocateInjective(globals, k, l);
      }
    }
  }

  // ----- what the rewriting does to meaning -----

  ghost predicate SameResult(sem: Semantics, globals: Symbol, r: Result, r': Result) {
    match (r, r')
    case (Stuck, Stuck) => true
    case (Done(a, st), Done(a', st')) =>
      OldOperand(globals, a) && a' == RelocateOperand(globals, a) && Corresponds(sem, globals, st, st')
    case _ => false
  }

  lemma SameObject(sem: Semantics, globals: Symbol, l: Location, st: Store, st': Store)
    requires Corresponds(sem, globals, st, st') && RootOf(l) != globals
    ensures SameResult(sem, globals, Object(sem, l, st), Object(sem, Relocate(globals, l), st'))
  {
    assert SameAt(sem, globals, st, st', l);
  }

  lemma SameApplied(sem: Semantics, globals: Symbol, e: Effect, e': Effect, first: Option<Location>,
                    st: Store, st': Store)
    requires Corresponds(sem, globals, st, st') && OldPlace(globals, first) && Follows(globals, e, e')
    ensures SameResult(sem, globals, Apply(sem, e, first, st), Apply(sem, e', RelocatePlace(globals, first), st'))
  {
    hide Corresponds, Update;
    if e.Effect? && (Updates(e) ==> first.Some?) {
      var m, m' := st, st';
      if Updates(e) {
        UpdatesCorrespond(sem, globals, e, first.value, st, st');
        m, m' := Update(st, e, first.value), Update(st', e', Relocate(globals, first.value));
      }
      if e.place.Some? {
        SameObject(sem, globals, e.place.value, m, m');
      }
    }
  }

  /** Rewriting preserves meaning: from corresponding stores, the same value at the same object or the
      same failure, and corresponding stores again. */
  lemma {:induction false} MeaningPreserved(sem: Semantics, globals: Symbol, t: Tree, st: Store, st': Store)
    requires Blind(sem, globals) && Source(globals, t) && Corresponds(sem, globals, st, st')
    ensures SameResult(sem, globals, Eval(sem, t, st), Eval(sem, Rewrite(globals, t), st'))
  {
    hide Corresponds;
    match t {
      case Lit(_) =>
      case Ref(s) => SameObject(sem, globals, Var(s), st, st');
      case Unary(op, e) =>
        MeaningPreserved(sem, globals, e, st, st');
        var x, x' := Eval(sem, e, st), Eval(sem, Rewrite(globals, e), st');
        if x.Done? {
          SameApplied(sem, globals, sem.unary(op, x.a), sem.unary(op, x'.a), x.a.at, x.st, x'.st);
        }
      case Binary(Dot, l, r) =>
        MeaningPreserved(sem, globals, l, st, st');
        SameMember(sem, globals, l, r, st, st');
      case Binary(Plain(op), l, r) =>
        MeaningPreserved(sem, globals, l, st, st');
        var x, x' := Eval(sem, l, st), Eval(sem, Rewrite(globals, l), st');
        if x.Done? && sem.short(op, x.a).None? {
          MeaningPreserved(sem, globals, r, x.st, x'.st);
          var y, y' := Eval(sem, r, x.st), Eval(sem, Rewrite(globals, r), x'.st);
          if y.Done? {
            SameApplied(sem, globals, sem.binary(op, x.a, y.a), sem.binary(op, x'.a, y'.a), x.a.at, y.st, y'.st);
          }
        }
      case Other(what, first, second) =>
        MeaningPreserved(sem, globals, first, st, st');
        var x, x' := Eval(sem, first, st), Eval(sem, Rewrite(globals, first), st');
        if x.Done? {
          MeaningPreserved(sem, globals, second, x.st, x'.st);
          var y, y' := Eval(sem, second, x.st), Eval(sem, Rewrite(globals, second), x'.st);
          if y.Done? {
            SameApplied(sem, globals, sem.other(what, x.a, y.a), sem.other(what, x'.a, y'.a), x.a.at, y.st, y'.st);
          }
        }
    }
  }

  lemma SameMember(sem: Semantics, globals: Symbol, l: Tree, r: Tree, st: Store, st': Store)
    requires Blind(sem, globals) && (r.Ref? ==> !r.s.scope.Global?)
    requires SameResult(sem, globals, Eval(sem, l, st), Eval(sem, Rewrite(globals, l), st'))
    ensures var t := Binary(Dot, l, r);
            SameResult(sem, globals, Eval(sem, t, st), Eval(sem, Rewrite(globals, t), st'))
  {
    hide Corresponds;
    var x, x' := Eval(sem, l, st), Eval(sem, Rewrite(globals, l), st');
    if x.Done? && r.Ref? {
      if x.a.at.Some? {
        SameObject(sem, globals, Member(x.a.at.value, r.s), x.st, x'.st);
      } else {
        SameApplied(sem, globals, sem.member(x.a.v, r.s), sem.member(x'.a.v, r.s), None, x.st, x'.st);
      }
    }
  }
}
