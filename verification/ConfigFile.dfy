// The configuration file: lines KEY = VALUE, each key also known by an older, shorter name.
module ConfigFile {
  import opened CStrings

  // ----- one line -----

  datatype Line = Skip | Bad | Entry(key: string, value: string)

  function TrimLeft(space: char -> bool, s: string): string {
    if s != "" && space(s[0]) then TrimLeft(space, s[1..]) else s
  }

  function TrimRight(space: char -> bool, s: string): string {
    if s != "" && space(s[|s| - 1]) then TrimRight(space, s[..|s| - 1]) else s
  }

  function Trim(space: char -> bool, s: string): string {
    TrimRight(space, TrimLeft(space, s))
  }

  /** The place of the first c, or the length of s. */
  function Find(s: string, c: char): (i: nat)
    ensures i <= |s| && c !in s[..i] && (i < |s| ==> s[i] == c)
  {
    if s == "" || s[0] == c then 0 else
      var i := 1 + Find(s[1..], c);
      assert s[..i] == [s[0]] + s[1..][..i - 1];
      i
  }

  predicate Letter(c: char) {
    'a' <= c <= 'z' || 'A' <= c <= 'Z'
  }

  predicate IsKey(s: string) {
    s != "" && Letter(s[0]) && forall c :: c in s ==> Letter(c) || '0' <= c <= '9' || c == '_'
  }

  function Parse(space: char -> bool, line: string): Line {
    var s := Trim(space, CStr(line));
    if s == "" || s[0] == '#' then Skip else
      var equal := Find(s, '=');
      var key := Trim(space, s[..equal]);
      if equal == |s| || !IsKey(key) then Bad else Entry(key, Trim(space, s[equal + 1..]))
  }

  function ToLower(c: char): char {
    if 'A' <= c <= 'Z' then 'a' + (c - 'A') else c
  }

  function Lower(s: string): string {
    seq(|s|, i requires 0 <= i < |s| => ToLower(s[i]))
  }

  // The key without its first five characters, in lower case.
  function ToOldKeyFormat(key: string): string
    requires |key| >= 5
  {
    Lower(key[5..])
  }

  // ----- all lines -----

  function Collect<S, T>(f: S -> seq<T>, s: seq<S>): seq<T> {
    if s == [] then [] else Collect(f, s[..|s| - 1]) + f(s[|s| - 1])
  }

  function ParseAll(space: char -> bool, lines: seq<string>): (ls: seq<Line>)
    ensures |ls| == |lines| && forall i :: 0 <= i < |lines| ==> ls[i] == Parse(space, lines[i])
  {
    seq(|lines|, i requires 0 <= i < |lines| => Parse(space, lines[i]))
  }

  // A key has to be long enough to have an old name.
  predicate Usable(l: Line) {
    l.Skip? || (l.Entry? && |l.key| >= 5)
  }

  function NamesOf(l: Line): seq<string> {
    if l.Entry? && |l.key| >= 5 then [l.key, ToOldKeyFormat(l.key)] else []
  }

  // The keys and old names that the lines define.
  function Names(ls: seq<Line>): seq<string> {
    Collect(NamesOf, ls)
  }

  ghost predicate NoneTwice(names: seq<string>) {
    forall x :: x in names ==> multiset(names)[x] == 1
  }

  const REQUIRED: seq<string> :=
    ["ROSE_CC", "ROSE_CXX", "ROSE_CPPFLAGS", "ROSE_CFLAGS", "ROSE_CXXFLAGS", "ROSE_LDFLAGS", "ROSE_LIBDIRS",
     "ROSE_PREFIX"]

  ghost predicate HasKey(ls: seq<Line>, key: string) {
    exists l :: l in ls && l.Entry? && l.key == key
  }

  // No line is malformed, and no two names clash.
  ghost predicate Clean(ls: seq<Line>) {
    (forall l :: l in ls ==> Usable(l)) && NoneTwice(Names(ls))
  }

  ghost predicate Acceptable(ls: seq<Line>) {
    Clean(ls) && forall k :: k in REQUIRED ==> HasKey(ls, k)
  }

  /** The table has exactly the names that the lines define, and a key and its old name have the key's value. */
  ghost predicate Tabulates(m: map<string, string>, ls: seq<Line>) {
    && (forall k :: k in m <==> k in Names(ls))
    && (forall l :: l in ls && l.Entry? && |l.key| >= 5 ==>
          l.key in m && ToOldKeyFormat(l.key) in m && m[l.key] == m[ToOldKeyFormat(l.key)] == l.value)
  }

  // ----- names -----

  lemma NameAdded(names: seq<string>, x: string)
    ensures NoneTwice(names + [x]) <==> NoneTwice(names) && x !in names
  {
    var m := multiset(names);
    assert multiset(names + [x]) == m + multiset{x};
    if NoneTwice(names + [x]) {
      assert x in names + [x];
      forall y | y in names
        ensures m[y] == 1
      {
        assert y in names + [x];
      }
    }
  }

  lemma NamesStep(ls: seq<Line>, l: Line)
    ensures Names(ls + [l]) == Names(ls) + NamesOf(l)
  {
    assert (ls + [l])[..|ls|] == ls;
  }

  // Adding a usable entry keeps the lines clean just if neither of its names has been taken.
  lemma EntryAdded(ls: seq<Line>, l: Line)
    requires l.Entry? && |l.key| >= 5
    ensures Clean(ls + [l]) <==> Clean(ls) && l.key !in Names(ls) && ToOldKeyFormat(l.key) !in Names(ls)
  {
    hide NoneTwice, Names;
    NamesStep(ls, l);
    var n, k, o := Names(ls), l.key, ToOldKeyFormat(l.key);
    NameAdded(n, k);
    NameAdded(n + [k], o);
    assert n + [k, o] == n + [k] + [o];
    assert forall x :: x in ls + [l] <==> x in ls || x == l;
  }

  lemma {:induction false} CleanPrefix(ls: seq<Line>, n: nat)
    requires n <= |ls| && Clean(ls)
    ensures Clean(ls[..n])
    decreases |ls| - n
  {
    if n < |ls| {
      CleanPrefix(ls, n + 1);
      assert ls[..n + 1] == ls[..n] + [ls[n]];
      NamesStep(ls[..n], ls[n]);
      assert ls[n] in ls;
      if ls[n].Entry? {
        EntryAdded(ls[..n], ls[n]);
      } else {
        assert Names(ls[..n]) + [] == Names(ls[..n]);
      }
    } else {
      assert ls[..n] == ls;
    }
  }

  lemma LowerHasNoCapital(s: string, c: char)
    requires 'A' <= c <= 'Z'
    ensures c !in Lower(s)
  {
  }

  /** A required key is never an old name, since those have no capital letter. */
  lemma {:induction false} RequiredName(ls: seq<Line>, k: string)
    requires k in REQUIRED && forall l :: l in ls ==> Usable(l)
    ensures k in Names(ls) <==> HasKey(ls, k)
  {
    assert k[0] == 'R';
    if ls != [] {
      var front, l := ls[..|ls| - 1], ls[|ls| - 1];
      assert ls == front + [l];
      RequiredName(front, k);
      NamesStep(front, l);
      if l.Entry? {
        assert l in ls;
        LowerHasNoCapital(l.key[5..], 'R');
      }
    }
  }

  // ----- reading -----

  // ShortKey stands for what the source leaves undefined: a key with fewer than five characters.
  datatype Outcome =
    | Accepted(config: map<string, string>)
    | SyntaxError(line: nat)
    | Duplicate(line: nat)
    | ShortKey(line: nat)
    | Missing(keys: seq<string>)

  // Why line n stops the reading.
  ghost predicate StopsAt(ls: seq<Line>, n: nat, r: Outcome) {
    n < |ls| && Clean(ls[..n]) &&
    match r
    case SyntaxError(_) => ls[n].Bad?
    case Duplicate(_) =>
      && ls[n].Entry?
      && (ls[n].key in Names(ls[..n]) || (|ls[n].key| >= 5 && ToOldKeyFormat(ls[n].key) in Names(ls[..n])))
    case ShortKey(_) => ls[n].Entry? && |ls[n].key| < 5 && ls[n].key !in Names(ls[..n])
    case _ => false
  }

  lemma TabulateEntry(m: map<string, string>, ls: seq<Line>, l: Line)
    requires l.Entry? && |l.key| >= 5 && Tabulates(m, ls) && (forall x :: x in ls ==> Usable(x))
    requires l.key !in m && ToOldKeyFormat(l.key) !in m
    ensures Tabulates(m[l.key := l.value][ToOldKeyFormat(l.key) := l.value], ls + [l])
  {
    hide Names;
    NamesStep(ls, l);
    assert |ToOldKeyFormat(l.key)| < |l.key|;
  }

  lemma NothingAdded(m: map<string, string>, ls: seq<Line>)
    requires Clean(ls) && Tabulates(m, ls)
    ensures Clean(ls + [Skip]) && Tabulates(m, ls + [Skip])
  {
    NamesStep(ls, Skip);
    assert Names(ls) + [] == Names(ls);
  }

  method ReadConfigFile(space: char -> bool, lines: seq<string>) returns (r: Outcome)
    ensures var ls := ParseAll(space, lines);
            && (r.Accepted? <==> Acceptable(ls))
            && (r.Accepted? ==> Tabulates(r.config, ls))
            && (r.Missing? <==> Clean(ls) && !Acceptable(ls))
            && (r.Missing? ==> forall k :: k in r.keys <==> k in REQUIRED && !HasKey(ls, k))
            && (!r.Accepted? && !r.Missing? ==> StopsAt(ls, r.line, r))
  {
    hide Names, NoneTwice, Parse;
    var retval: map<string, string> := map[];
    ghost var ls := ParseAll(space, lines);
    NoLines();
    for n := 0 to |lines|
      invariant Clean(ls[..n]) && Tabulates(retval, ls[..n])
    {
      var l := Parse(space, lines[n]);
      assert ls[..n + 1] == ls[..n] + [l];
      if l.Skip? {
        NothingAdded(retval, ls[..n]);
        continue;
      }
      if l.Bad? {
        Stopped(ls, n, SyntaxError(n));
        return SyntaxError(n);
      }
      if l.key in retval {
        Stopped(ls, n, Duplicate(n));
        return Duplicate(n);
      }
      if |l.key| < 5 {
        Stopped(ls, n, ShortKey(n));
        return ShortKey(n);
      }
      var oldKey := ToOldKeyFormat(l.key);
      TabulateEntryIf(retval, ls[..n], l);
      EntryAdded(ls[..n], l);
      retval := retval[l.key := l.value];
      if oldKey in retval {
        Stopped(ls, n, Duplicate(n));
        return Duplicate(n);
      }
      retval := retval[oldKey := l.value];
    }
    assert ls[..|lines|] == ls;
    var missing := [];
    for i := 0 to |REQUIRED|
      invariant forall k :: k in missing <==> k in REQUIRED[..i] && !HasKey(ls, k)
    {
      RequiredName(ls, REQUIRED[i]);
      assert REQUIRED[..i + 1] == REQUIRED[..i] + [REQUIRED[i]];
      if REQUIRED[i] !in retval {
        missing := missing + [REQUIRED[i]];
      }
    }
    assert REQUIRED[..|REQUIRED|] == REQUIRED;
    if missing == [] {
      return Accepted(retval);
    }
    assert missing[0] in missing;
    return Missing(missing);
  }

  lemma NoLines()
    ensures Clean([]) && Tabulates(map[], [])
  {
  }

  lemma TabulateEntryIf(m: map<string, string>, ls: seq<Line>, l: Line)
    requires l.Entry? && |l.key| >= 5 && Tabulates(m, ls) && (forall x :: x in ls ==> Usable(x)) && l.key !in m
    ensures |ToOldKeyFormat(l.key)| < |l.key|
    ensures ToOldKeyFormat(l.key) !in m ==> Tabulates(m[l.key := l.value][ToOldKeyFormat(l.key) := l.value], ls + [l])
  {
    if ToOldKeyFormat(l.key) !in m {
      TabulateEntry(m, ls, l);
    }
  }

  /** Lines at which the reading stops are not acceptable. */
  lemma Stopped(ls: seq<Line>, n: nat, r: Outcome)
    requires StopsAt(ls, n, r)
    ensures !Clean(ls)
  {
    hide Names, NoneTwice;
    if Clean(ls) {
      CleanPrefix(ls, n + 1);
      assert ls[n] in ls;
      assert ls[..n + 1] == ls[..n] + [ls[n]];
      EntryAdded(ls[..n], ls[n]);
      assert false;
    }
  }

  // ----- the order of the lines -----

  lemma {:induction false} CollectConcat<S, T>(f: S -> seq<T>, s: seq<S>, t: seq<S>)
    ensures Collect(f, s + t) == Collect(f, s) + Collect(f, t)
  {
    if t == [] {
      assert s + t == s;
    } else {
      var x := t[|t| - 1];
      CollectConcat(f, s, t[..|t| - 1]);
      assert (s + t)[..|s + t| - 1] == s + t[..|t| - 1];
    }
  }

  lemma {:induction false} CollectPermuted<S, T>(f: S -> seq<T>, s: seq<S>, t: seq<S>)
    requires multiset(s) == multiset(t)
    ensures multiset(Collect(f, s)) == multiset(Collect(f, t))
    decreases |s|
  {
    if s == [] {
      assert |multiset(t)| == 0;
    } else {
      var front, x := s[..|s| - 1], s[|s| - 1];
      assert s == front + [x];
      assert x in multiset(t);
      var j :| 0 <= j < |t| && t[j] == x;
      var a, b := t[..j], t[j + 1..];
      assert t == a + ([x] + b);
      RestPermuted(front, x, a, b);
      CollectPermuted(f, front, a + b);
      CollectConcat(f, a, b);
      CollectConcat(f, a, [x] + b);
      CollectConcat(f, [x], b);
      CollectOne(f, x);
    }
  }

  lemma RestPermuted<S>(s: seq<S>, x: S, a: seq<S>, b: seq<S>)
    requires multiset(s + [x]) == multiset(a + ([x] + b))
    ensures multiset(s) == multiset(a + b)
  {
    assert multiset(s) == multiset(s + [x]) - multiset{x};
    assert multiset(a + b) == multiset(a + ([x] + b)) - multiset{x};
  }

  lemma CollectOne<S, T>(f: S -> seq<T>, x: S)
    ensures Collect(f, [x]) == f(x)
  {
    assert [x][..0] == [];
  }

  lemma {:induction false} ParsedAll(space: char -> bool, lines: seq<string>)
    ensures ParseAll(space, lines) == Collect(line => [Parse(space, line)], lines)
  {
    hide Parse;
    if lines != [] {
      ParsedAll(space, lines[..|lines| - 1]);
    }
  }

  lemma CleanPermuted(ls: seq<Line>, ls': seq<Line>)
    requires multiset(ls) == multiset(ls') && Clean(ls)
    ensures Clean(ls')
  {
    hide Names;
    SameMembers(ls, ls');
    NamesPermuted(ls, ls');
    SameMembers(Names(ls), Names(ls'));
  }

  lemma NamesPermuted(ls: seq<Line>, ls': seq<Line>)
    requires multiset(ls) == multiset(ls')
    ensures multiset(Names(ls)) == multiset(Names(ls'))
  {
    CollectPermuted(NamesOf, ls, ls');
  }

  lemma AcceptablePermuted(ls: seq<Line>, ls': seq<Line>)
    requires multiset(ls) == multiset(ls') && Acceptable(ls)
    ensures Acceptable(ls')
  {
    hide Names;
    CleanPermuted(ls, ls');
    SameMembers(ls, ls');
    forall k | k in REQUIRED
      ensures HasKey(ls', k)
    {
      assert HasKey(ls, k);
    }
  }

  lemma TablePermuted(ls: seq<Line>, ls': seq<Line>, m: map<string, string>)
    requires multiset(ls) == multiset(ls') && Tabulates(m, ls)
    ensures Tabulates(m, ls')
  {
    hide Names;
    SameMembers(ls, ls');
    NamesPermuted(ls, ls');
    SameMembers(Names(ls), Names(ls'));
  }

  /** Whether the lines are accepted, and what table they give, does not depend on their order. */
  lemma AnyOrder(space: char -> bool, lines: seq<string>, lines': seq<string>, m: map<string, string>)
    requires multiset(lines) == multiset(lines')
    ensures Acceptable(ParseAll(space, lines)) <==> Acceptable(ParseAll(space, lines'))
    ensures Tabulates(m, ParseAll(space, lines)) <==> Tabulates(m, ParseAll(space, lines'))
  {
    hide Acceptable, Tabulates;
    var ls, ls' := ParseAll(space, lines), ParseAll(space, lines');
    ParsedPermuted(space, lines, lines');
    if Acceptable(ls) {
      AcceptablePermuted(ls, ls');
    }
    if Acceptable(ls') {
      AcceptablePermuted(ls', ls);
    }
    if Tabulates(m, ls) {
      TablePermuted(ls, ls', m);
    }
    if Tabulates(m, ls') {
      TablePermuted(ls', ls, m);
    }
  }

  lemma ParsedPermuted(space: char -> bool, lines: seq<string>, lines': seq<string>)
    requires multiset(lines) == multiset(lines')
    ensures multiset(ParseAll(space, lines)) == multiset(ParseAll(space, lines'))
  {
    hide Parse;
    CollectPermuted(line => [Parse(space, line)], lines, lines');
    ParsedAll(space, lines);
    ParsedAll(space, lines');
  }

  lemma SameMembers<T>(s: seq<T>, t: seq<T>)
    requires multiset(s) == multiset(t)
    ensures forall x :: x in s <==> x in t
  {
    forall x
      ensures x in s <==> x in t
    {
      assert x in s <==> x in multiset(s);
    }
  }

  /** The table is determined by the lines. */
  lemma OneTable(ls: seq<Line>, m: map<string, string>, m': map<string, string>)
    requires Clean(ls) && Tabulates(m, ls) && Tabulates(m', ls)
    ensures m == m'
  {
    forall k | k in m
      ensures m[k] == m'[k]
    {
      NamedBy(ls, k);
    }
  }

  lemma {:induction false} NamedBy(ls: seq<Line>, k: string)
    requires k in Names(ls)
    ensures exists l :: l in ls && l.Entry? && |l.key| >= 5 && (l.key == k || ToOldKeyFormat(l.key) == k)
  {
    var front, l := ls[..|ls| - 1], ls[|ls| - 1];
    assert ls == front + [l];
    if k in NamesOf(l) {
      assert l in ls;
    } else {
      NamedBy(front, k);
      var x :| x in front && x.Entry? && |x.key| >= 5 && (x.key == k || ToOldKeyFormat(x.key) == k);
      assert x in ls;
    }
  }
}
