// Operators in the manner of C, which do not see where their operands live.
module CharmOperators {
  import opened CharmMeaning

  // Arithmetic on data, whatever it is.
  datatype Arithmetic = Arithmetic(plus: (Datum, Datum) -> Datum, truth: bool -> Datum, field: (Datum, Symbol) -> Datum)

  datatype UnaryKind =
    | Address
    | Deref
    | Compute(f: Datum -> Datum)
    | Step(post: bool, change: Datum)

  datatype BinaryKind =
    | Index
    | Arrow
    | Assign
    | CopyStruct
    | Add
    | Equal
    | Combine(f: (Datum, Datum) -> Datum)
    | Update(f: (Datum, Datum) -> Datum)
    | Lazy(stop: Datum -> Option<Datum>, f: (Datum, Datum) -> Datum)

  datatype Kinds = Kinds(unary: Operator -> UnaryKind, binary: Operator -> BinaryKind)

  function Yield(v: Value): Effect {
    Effect(None, v, None, None)
  }

  // The object at l, whose value is read from the store.
  function ObjectAt(l: Location): Effect {
    Effect(Some(l), Pointer(l), None, None)
  }

  // The element i places after the one at l.
  function Shift(k: Arithmetic, l: Location, i: Datum): Location {
    if l.Elem? then Elem(l.of, k.plus(l.index, i)) else Elem(l, i)
  }

  function Sum(k: Arithmetic, v: Value, i: Datum): Value {
    match v
    case Data(d) => Data(k.plus(d, i))
    case Pointer(l) => Pointer(Shift(k, l, i))
  }

  function UnaryEffect(k: Arithmetic, u: UnaryKind, a: Operand): Effect {
    match u
    case Address => if a.at.Some? then Yield(Pointer(a.at.value)) else Undefined
    case Deref => if a.v.Pointer? then ObjectAt(a.v.to) else Undefined
    case Compute(f) => if a.v.Data? then Yield(Data(f(a.v.d))) else Undefined
    case Step(post, d) => Effect(None, if post then a.v else Sum(k, a.v, d), Some(Sum(k, a.v, d)), None)
  }

  function BinaryEffect(k: Arithmetic, u: BinaryKind, a: Operand, b: Operand): Effect {
    match u
    case Index =>
      if b.v.Pointer? then Undefined
      else if a.v.Pointer? then ObjectAt(Shift(k, a.v.to, b.v.d))
      else if a.at.Some? then ObjectAt(Elem(a.at.value, b.v.d))
      else Undefined
    case Arrow =>
      if a.v.Pointer? && b.at.Some? && b.at.value.Var? && !b.at.value.s.scope.Global?
      then ObjectAt(Member(a.v.to, b.at.value.s)) else Undefined
    case Assign => Effect(a.at, b.v, Some(b.v), None)
    case CopyStruct => if b.at.Some? then Effect(a.at, b.v, None, b.at) else Undefined
    case Add => if b.v.Data? then Yield(Sum(k, a.v, b.v.d)) else Undefined
    case Equal => Yield(Data(k.truth(a.v == b.v)))
    case Combine(f) => if a.v.Data? && b.v.Data? then Yield(Data(f(a.v.d, b.v.d))) else Undefined
    case Update(f) =>
      if a.v.Data? && b.v.Data? then
        var v := Data(f(a.v.d, b.v.d));
        Effect(a.at, v, Some(v), None)
      else Undefined
    case Lazy(_, f) => if a.v.Data? && b.v.Data? then Yield(Data(f(a.v.d, b.v.d))) else Undefined
  }

  function ShortValue(u: BinaryKind, a: Operand): Option<Value> {
    if u.Lazy? && a.v.Data? && u.stop(a.v.d).Some? then Some(Data(u.stop(a.v.d).value)) else None
  }

  // Two expressions one after the other: the second is the result.
  function SecondOf(a: Operand, b: Operand): Effect {
    Effect(b.at, b.v, None, None)
  }

  function MemberOf(k: Arithmetic, v: Value, m: Symbol): Effect {
    if v.Data? then Yield(Data(k.field(v.d, m))) else Undefined
  }

  function COperators(kinds: Kinds, k: Arithmetic, unset: Datum): Semantics {
    Semantics((op, a) => UnaryEffect(k, kinds.unary(op), a),
              (op, a, b) => BinaryEffect(k, kinds.binary(op), a, b),
              (op, a) => ShortValue(kinds.binary(op), a),
              (op, a, b) => SecondOf(a, b),
              (v, m) => MemberOf(k, v, m),
              Data(unset))
  }

  lemma ShiftMoves(globals: Symbol, k: Arithmetic, l: Location, i: Datum)
    requires RootOf(l) != globals
    ensures RootOf(Shift(k, l, i)) != globals
    ensures Relocate(globals, Shift(k, l, i)) == Shift(k, Relocate(globals, l), i)
  {
  }

  lemma SumMoves(globals: Symbol, k: Arithmetic, v: Value, i: Datum)
    requires OldValue(globals, v)
    ensures OldValue(globals, Sum(k, v, i))
    ensures RelocateValue(globals, Sum(k, v, i)) == Sum(k, RelocateValue(globals, v), i)
  {
    if v.Pointer? {
      ShiftMoves(globals, k, v.to, i);
    }
  }

  lemma EqualMoves(globals: Symbol, v: Value, w: Value)
    requires OldValue(globals, v) && OldValue(globals, w)
    ensures v == w <==> RelocateValue(globals, v) == RelocateValue(globals, w)
  {
    if v.Pointer? && w.Pointer? && Relocate(globals, v.to) == Relocate(globals, w.to) {
      RelocateInjective(globals, v.to, w.to);
    }
  }

  lemma UnaryBlind(globals: Symbol, k: Arithmetic, u: UnaryKind, a: Operand)
    requires OldOperand(globals, a)
    ensures Follows(globals, UnaryEffect(k, u, a), UnaryEffect(k, u, RelocateOperand(globals, a)))
  {
    if u.Step? {
      SumMoves(globals, k, a.v, u.change);
    }
  }

  lemma BinaryBlind(globals: Symbol, k: Arithmetic, u: BinaryKind, a: Operand, b: Operand)
    requires OldOperand(globals, a) && OldOperand(globals, b)
    ensures Follows(globals, BinaryEffect(k, u, a, b),
                    BinaryEffect(k, u, RelocateOperand(globals, a), RelocateOperand(globals, b)))
  {
    if b.v.Data? {
      SumMoves(globals, k, a.v, b.v.d);
    }
    EqualMoves(globals, a.v, b.v);
  }

  /** Taking an address, dereference, index, arrow, assignment of values and of structs, increments,
      pointer arithmetic, equality and whatever computes on data: none sees where an object lives. */
  lemma COperatorsBlind(globals: Symbol, kinds: Kinds, k: Arithmetic, unset: Datum)
    ensures Blind(COperators(kinds, k, unset), globals)
  {
    var sem := COperators(kinds, k, unset);
    forall op, a | OldOperand(globals, a)
      ensures Follows(globals, sem.unary(op, a), sem.unary(op, RelocateOperand(globals, a)))
    {
      UnaryBlind(globals, k, kinds.unary(op), a);
    }
    forall op, a, b | OldOperand(globals, a) && OldOperand(globals, b)
      ensures Follows(globals, sem.binary(op, a, b),
                      sem.binary(op, RelocateOperand(globals, a), RelocateOperand(globals, b)))
    {
      BinaryBlind(globals, k, kinds.binary(op), a, b);
    }
  }

  /** With these operators the rewriting preserves the meaning of every source expression. */
  lemma CMeaningPreserved(kinds: Kinds, k: Arithmetic, unset: Datum, globals: Symbol, t: Tree, st: Store, st': Store)
    requires Source(globals, t) && Corresponds(COperators(kinds, k, unset), globals, st, st')
    ensures var sem := COperators(kinds, k, unset);
            SameResult(sem, globals, Eval(sem, t, st), Eval(sem, Rewrite(globals, t), st'))
  {
    COperatorsBlind(globals, kinds, k, unset);
    MeaningPreserved(COperators(kinds, k, unset), globals, t, st, st');
  }

  /** Stores through an index, a dereference and an arrow are meaningful, and change just the object meant:
      g[i] = v, *p = v and p->m = v, where i and v are data and p points to an object. */
  lemma StoresThrough(kinds: Kinds, k: Arithmetic, unset: Datum, asg: Operator, idx: Operator,
                      drf: Operator, arw: Operator, g: Symbol, p: Symbol, m: Symbol, i: Datum, v: Datum, st: Store)
    requires kinds.binary(asg) == Assign && kinds.binary(idx) == Index && kinds.unary(drf) == Deref &&
             kinds.binary(arw) == Arrow
    requires var sem := COperators(kinds, k, unset);
             Read(sem, st, Var(g)).Data? && Read(sem, st, Var(p)).Pointer? && !m.scope.Global?
    ensures var sem, to := COperators(kinds, k, unset), Read(COperators(kinds, k, unset), st, Var(p)).to;
            var x := Lit(v);
            && Eval(sem, Binary(Plain(asg), Binary(Plain(idx), Ref(g), Lit(i)), x), st)
               == Object(sem, Elem(Var(g), i), st[Elem(Var(g), i) := Data(v)])
            && Eval(sem, Binary(Plain(asg), Unary(drf, Ref(p)), x), st) == Object(sem, to, st[to := Data(v)])
            && Eval(sem, Binary(Plain(asg), Binary(Plain(arw), Ref(p), Ref(m)), x), st)
               == Object(sem, Member(to, m), st[Member(to, m) := Data(v)])
  {
    var sem, to := COperators(kinds, k, unset), Read(COperators(kinds, k, unset), st, Var(p)).to;
    assert Eval(sem, Binary(Plain(idx), Ref(g), Lit(i)), st) == Object(sem, Elem(Var(g), i), st);
    assert Eval(sem, Unary(drf, Ref(p)), st) == Object(sem, to, st);
    assert Eval(sem, Binary(Plain(arw), Ref(p), Ref(m)), st) == Object(sem, Member(to, m), st);
  }

  // An operator that tells whether its operand is the variable g itself.
  function Peeking(g: Symbol, yes: Datum, no: Datum): Semantics {
    Semantics((op, a: Operand) => Yield(Data(if a.at == Some(Var(g)) then yes else no)),
              (op, a, b) => Undefined, (op, a) => None, (op, a, b) => Undefined, (v, m) => Undefined, Data(no))
  }

  /** Where an operator does see where an object lives, meaning is lost: a program that asks whether a
      global is a variable of its own gets another answer afterwards. */
  lemma PeekingChangesMeaning(g: Symbol, globals: Symbol, op: Operator, yes: Datum, no: Datum)
    requires g.scope.Global? && g != globals && yes != no
    ensures var sem, t := Peeking(g, yes, no), Unary(op, Ref(g));
            && Source(globals, t) && Corresponds(sem, globals, map[], map[])
            && !SameResult(sem, globals, Eval(sem, t, map[]), Eval(sem, Rewrite(globals, t), map[]))
  {
    var sem := Peeking(g, yes, no);
    var x := Object(sem, Member(Var(globals), g), map[]);
    assert Eval(sem, Rewrite(globals, Ref(g)), map[]) == x;
  }
}
