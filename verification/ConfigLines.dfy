// What a line of the configuration file says, without the steps that find it out.
module ConfigLines {
  import opened CStrings
  import opened ConfigFile

  // ----- trimming -----

  ghost predicate White(space: char -> bool, s: string) {
    forall c :: c in s ==> space(c)
  }

  // No whitespace at either end.
  ghost predicate Bare(space: char -> bool, s: string) {
    s != "" ==> !space(s[0]) && !space(s[|s| - 1])
  }

  lemma {:induction false} TrimLeftIs(space: char -> bool, s: string) returns (a: string)
    ensures White(space, a) && s == a + TrimLeft(space, s)
    ensures TrimLeft(space, s) != "" ==> !space(TrimLeft(space, s)[0])
  {
    a := "";
    if s != "" && space(s[0]) {
      var t := TrimLeftIs(space, s[1..]);
      a := [s[0]] + t;
      assert s == [s[0]] + s[1..];
    }
  }

  lemma {:induction false} TrimRightIs(space: char -> bool, s: string) returns (d: string)
    ensures White(space, d) && s == TrimRight(space, s) + d
    ensures TrimRight(space, s) != "" ==> !space(TrimRight(space, s)[|TrimRight(space, s)| - 1])
  {
    d := "";
    if s != "" && space(s[|s| - 1]) {
      var t := TrimRightIs(space, s[..|s| - 1]);
      d := t + [s[|s| - 1]];
      assert s == s[..|s| - 1] + [s[|s| - 1]];
    }
  }

  /** What is trimmed off at both ends is whitespace, and what stays has none at its ends. */
  lemma TrimIs(space: char -> bool, s: string) returns (a: string, d: string)
    ensures White(space, a) && White(space, d) && Bare(space, Trim(space, s)) && s == a + Trim(space, s) + d
  {
    a := TrimLeftIs(space, s);
    var t := TrimLeft(space, s);
    d := TrimRightIs(space, t);
    assert Trim(space, s) != "" ==> Trim(space, s)[0] == t[0];
  }

  lemma {:induction false} TrimLeftOf(space: char -> bool, a: string, r: string)
    requires White(space, a) && (r != "" ==> !space(r[0]))
    ensures TrimLeft(space, a + r) == r
  {
    if a == "" {
      assert a + r == r;
    } else {
      assert (a + r)[1..] == a[1..] + r && a[0] in a;
      TrimLeftOf(space, a[1..], r);
    }
  }

  lemma {:induction false} TrimRightOf(space: char -> bool, r: string, d: string)
    requires White(space, d) && (r != "" ==> !space(r[|r| - 1]))
    ensures TrimRight(space, r + d) == r
  {
    if d == "" {
      assert r + d == r;
    } else {
      var n := |d| - 1;
      assert (r + d)[..|r + d| - 1] == r + d[..n] && d[n] in d;
      TrimRightOf(space, r, d[..n]);
    }
  }

  /** Trimming takes off just the whitespace at the ends, all of it. */
  lemma TrimOf(space: char -> bool, a: string, m: string, d: string)
    requires White(space, a) && White(space, d) && Bare(space, m)
    ensures Trim(space, a + m + d) == m
  {
    if m == "" {
      assert a + m + d == (a + d) + "";
      TrimLeftOf(space, a + d, "");
    } else {
      assert a + m + d == a + (m + d);
      TrimLeftOf(space, a, m + d);
      TrimRightOf(space, m, d);
    }
  }

  // ----- keys -----

  // Any number of letters, digits and underscores.
  predicate MatchesTail(s: string) {
    s == "" ||
    (('a' <= s[0] <= 'z' || 'A' <= s[0] <= 'Z' || '0' <= s[0] <= '9' || s[0] == '_') && MatchesTail(s[1..]))
  }

  /** A letter and then letters, digits and underscores. */
  predicate MatchesKey(s: string) {
    s != "" && ('a' <= s[0] <= 'z' || 'A' <= s[0] <= 'Z') && MatchesTail(s[1..])
  }

  lemma {:induction false} TailChars(s: string)
    ensures MatchesTail(s) <==> forall c :: c in s ==> Letter(c) || '0' <= c <= '9' || c == '_'
  {
    if s != "" {
      TailChars(s[1..]);
      assert s == [s[0]] + s[1..] && s[0] in s;
      assert forall c :: c in s <==> c == s[0] || c in s[1..];
    }
  }

  lemma KeyMatches(s: string)
    ensures IsKey(s) <==> MatchesKey(s)
  {
    if s != "" {
      TailChars(s[1..]);
      assert s == [s[0]] + s[1..];
    }
  }

  // ----- lines -----

  // No character of a key, no equal sign and no hash mark is whitespace.
  ghost predicate Ordinary(space: char -> bool) {
    forall c: char ::
      'a' <= c <= 'z' || 'A' <= c <= 'Z' || '0' <= c <= '9' || c == '_' || c == '=' || c == '#' ==> !space(c)
  }

  /** Nothing but whitespace, or a hash mark after it at most. */
  ghost predicate Ignored(space: char -> bool, s: string) {
    White(space, s) || exists i :: 0 <= i < |s| && s[i] == '#' && White(space, s[..i])
  }

  ghost predicate WrittenWith(space: char -> bool, s: string, key: string, value: string,
                              a: string, b: string, c: string, d: string) {
    && White(space, a) && White(space, b) && White(space, c) && White(space, d)
    && s == a + key + b + "=" + c + value + d
  }

  /** A key, an equal sign and a value, with whitespace around each. */
  ghost predicate Written(space: char -> bool, s: string, key: string, value: string) {
    && MatchesKey(key) && Bare(space, value)
    && exists a, b, c, d :: WrittenWith(space, s, key, value, a, b, c, d)
  }

  lemma FindAt(s: string, c: char, i: nat)
    requires i < |s| && s[i] == c && c !in s[..i]
    ensures Find(s, c) == i
  {
    var k := Find(s, c);
    assert forall j :: 0 <= j < i ==> s[j] in s[..i];
    assert forall j :: 0 <= j < k ==> s[j] in s[..k];
  }

  lemma KeyIsPlain(space: char -> bool, key: string)
    requires Ordinary(space) && MatchesKey(key)
    ensures Bare(space, key) && '=' !in key && key[0] != '#' && key != "" && !space(key[0])
  {
    KeyMatches(key);
    assert key[|key| - 1] in key;
  }

  // A key, an equal sign and a value with no whitespace around them.
  lemma ParseTrimmed(space: char -> bool, key: string, b: string, c: string, value: string)
    requires Ordinary(space) && MatchesKey(key) && Bare(space, value) && White(space, b) && White(space, c)
    ensures var m := key + b + "=" + c + value;
            var equal := Find(m, '=');
            && m[0] != '#' && equal < |m| && IsKey(Trim(space, m[..equal]))
            && Trim(space, m[..equal]) == key && Trim(space, m[equal + 1..]) == value
  {
    var m := key + b + "=" + c + value;
    KeyIsPlain(space, key);
    KeyMatches(key);
    assert m[..|key + b|] == key + b && m[|key + b|] == '=';
    FindAt(m, '=', |key + b|);
    assert key + b == "" + key + b;
    TrimOf(space, "", key, b);
    assert m[|key + b| + 1..] == c + value + "";
    TrimOf(space, c, value, "");
  }

  /** However such a line is spaced, it says just that. */
  lemma ParseWritten(space: char -> bool, line: string, key: string, value: string,
                     a: string, b: string, c: string, d: string)
    requires Ordinary(space) && MatchesKey(key) && Bare(space, value)
    requires WrittenWith(space, CStr(line), key, value, a, b, c, d)
    ensures Parse(space, line) == Entry(key, value)
  {
    hide Find, IsKey, Trim, MatchesKey, Ordinary;
    KeyIsPlain(space, key);
    if value == "" {
      var m := key + b + "=";
      assert CStr(line) == a + m + (c + d);
      EqualIsPlain(space);
      TrimOf(space, a, m, c + d);
      assert m == key + b + "=" + "" + "";
      ParseTrimmed(space, key, b, "", "");
    } else {
      var m := key + b + "=" + c + value;
      assert CStr(line) == a + m + d;
      TrimOf(space, a, m, d);
      ParseTrimmed(space, key, b, c, value);
    }
  }

  lemma EqualIsPlain(space: char -> bool)
    requires Ordinary(space)
    ensures !space('=') && !space('#')
  {
  }

  lemma Reassemble(a: string, a': string, key: string, b: string, left: string, c: string, value: string, d': string,
                   right: string, d: string)
    requires left == a' + key + b && right == c + value + d'
    ensures a + (left + "=" + right) + d == (a + a') + key + b + "=" + c + value + (d' + d)
  {
  }

  lemma WrittenParsed(space: char -> bool, line: string)
    requires Parse(space, line).Entry?
    ensures Written(space, CStr(line), Parse(space, line).key, Parse(space, line).value)
  {
    hide Trim, IsKey, Find, MatchesKey, Bare;
    var s0 := CStr(line);
    var s := Trim(space, s0);
    var equal := Find(s, '=');
    var l := Parse(space, line);
    var a, d := TrimIs(space, s0);
    var a', b := TrimIs(space, s[..equal]);
    var c, d' := TrimIs(space, s[equal + 1..]);
    KeyMatches(l.key);
    Reassemble(a, a', l.key, b, s[..equal], c, l.value, d', s[equal + 1..], d);
    assert s == s[..equal] + "=" + s[equal + 1..];
    assert WrittenWith(space, s0, l.key, l.value, a + a', b, c, d' + d);
  }

  lemma IgnoredTrimmed(space: char -> bool, s: string)
    requires !space('#')
    ensures Ignored(space, s) <==> Trim(space, s) == "" || Trim(space, s)[0] == '#'
  {
    hide Trim;
    var a, d := TrimIs(space, s);
    var m := Trim(space, s);
    if m != "" {
      assert s[|a|] == m[0] && m[0] in s && s[..|a|] == a;
      assert forall i :: 0 <= i < |a| ==> s[i] == a[i] && a[i] in a;
      assert forall i :: |a| < i <= |s| ==> s[|a|] in s[..i];
    }
  }

  /** Exactly which lines are skipped, which define a key and how, and which are syntax errors. */
  lemma ParseIs(space: char -> bool, line: string, key: string, value: string)
    requires Ordinary(space)
    ensures var l := Parse(space, line);
            && (l.Skip? <==> Ignored(space, CStr(line)))
            && (l == Entry(key, value) <==> Written(space, CStr(line), key, value))
            && (l.Bad? <==> !Ignored(space, CStr(line)) && !exists k, v :: Written(space, CStr(line), k, v))
  {
    hide Trim, IsKey, MatchesKey, Ignored, Bare;
    EqualIsPlain(space);
    IgnoredTrimmed(space, CStr(line));
    var l := Parse(space, line);
    if l.Entry? {
      WrittenParsed(space, line);
    }
    forall k, v | Written(space, CStr(line), k, v)
      ensures l == Entry(k, v)
    {
      var a, b, c, d :| WrittenWith(space, CStr(line), k, v, a, b, c, d);
      ParseWritten(space, line, k, v, a, b, c, d);
    }
  }

  /** Without NULs, whatever the whitespace a, b, c and d and whatever the value. */
  lemma ParseSpaced(space: char -> bool, key: string, value: string, a: string, b: string, c: string, d: string)
    requires Ordinary(space) && MatchesKey(key) && Bare(space, value)
    requires White(space, a) && White(space, b) && White(space, c) && White(space, d)
    requires '\0' !in a + key + b + "=" + c + value + d
    ensures Parse(space, a + key + b + "=" + c + value + d) == Entry(key, value)
  {
    hide Parse, Bare, MatchesKey;
    var line := a + key + b + "=" + c + value + d;
    CStrWhole(line);
    ParseWritten(space, line, key, value, a, b, c, d);
  }

  // ----- all lines -----

  // l defines the name x.
  ghost predicate Defines(l: Line, x: string) {
    l.Entry? && |l.key| >= 5 && (x == l.key || x == Lower(l.key[5..]))
  }

  // Neither a key nor its lower-cased rest is the other line's.
  ghost predicate Apart(l: Line, m: Line) {
    l.Entry? && m.Entry? && |l.key| >= 5 && |m.key| >= 5 ==>
      && l.key != m.key && l.key != Lower(m.key[5..])
      && Lower(l.key[5..]) != m.key && Lower(l.key[5..]) != Lower(m.key[5..])
  }

  lemma {:induction false} NamesAre(ls: seq<Line>, x: string)
    ensures x in Names(ls) <==> exists i :: 0 <= i < |ls| && Defines(ls[i], x)
  {
    if ls != [] {
      var n := |ls| - 1;
      var front, l := ls[..n], ls[n];
      NamesAre(front, x);
      NamesStep(front, l);
      assert ls == front + [l];
      assert x in NamesOf(l) <==> Defines(l, x);
      if i :| 0 <= i < |front| && Defines(front[i], x) {
        assert Defines(ls[i], x);
      }
      if i :| 0 <= i < |ls| && Defines(ls[i], x) {
        assert i < n ==> Defines(front[i], x);
      }
    }
  }

  // None is a syntax error, every key has five characters, and no two lines have a name in common.
  ghost predicate Harmless(ls: seq<Line>) {
    && (forall i :: 0 <= i < |ls| ==> !ls[i].Bad? && (ls[i].Entry? ==> |ls[i].key| >= 5))
    && forall i, j :: 0 <= i < j < |ls| ==> Apart(ls[i], ls[j])
  }

  lemma HarmlessMore(ls: seq<Line>, l: Line)
    ensures Harmless(ls + [l]) <==>
            && Harmless(ls) && !l.Bad? && (l.Entry? ==> |l.key| >= 5)
            && forall i :: 0 <= i < |ls| ==> Apart(ls[i], l)
  {
    hide Apart;
    var t := ls + [l];
    assert t[|ls|] == l && forall i :: 0 <= i < |ls| ==> t[i] == ls[i];
  }

  /** Lines are clean exactly if none is a syntax error, every key has five characters, and all keys and
      lower-cased rests of keys are different from each other. */
  lemma {:induction false} CleanIs(ls: seq<Line>)
    ensures Clean(ls) <==> Harmless(ls)
  {
    hide Clean, Harmless, Apart;
    if ls == [] {
      NoLines();
      NothingHarmful();
    } else {
      var front, l := ls[..|ls| - 1], ls[|ls| - 1];
      CleanIs(front);
      CleanMore(front, l);
      HarmlessMore(front, l);
      assert ls == front + [l];
    }
  }

  lemma NothingHarmful()
    ensures Harmless([])
  {
  }

  lemma CleanMore(ls: seq<Line>, l: Line)
    ensures Clean(ls + [l]) <==>
            && Clean(ls) && !l.Bad? && (l.Entry? ==> |l.key| >= 5)
            && forall i :: 0 <= i < |ls| ==> Apart(ls[i], l)
  {
    hide Names, NoneTwice;
    if Usable(l) {
      if l.Entry? {
        EntryAdded(ls, l);
        NamesAre(ls, l.key);
        NamesAre(ls, ToOldKeyFormat(l.key));
        ApartMeans(ls, l);
      } else {
        NamesStep(ls, l);
        assert Names(ls) + [] == Names(ls);
        assert forall x :: x in ls + [l] <==> x in ls || x == l;
      }
    } else {
      assert l in ls + [l];
    }
  }

  lemma ApartMeans(ls: seq<Line>, l: Line)
    requires l.Entry? && |l.key| >= 5
    ensures (forall i :: 0 <= i < |ls| ==> Apart(ls[i], l)) <==>
            && !(exists i :: 0 <= i < |ls| && Defines(ls[i], l.key))
            && !(exists i :: 0 <= i < |ls| && Defines(ls[i], ToOldKeyFormat(l.key)))
  {
    forall i | 0 <= i < |ls|
      ensures Apart(ls[i], l) <==> !Defines(ls[i], l.key) && !Defines(ls[i], ToOldKeyFormat(l.key))
    {
    }
  }

  /** The table of clean lines gives the value of a key for the key and for its lower-cased rest, and has
      nothing else. */
  lemma TableIs(m: map<string, string>, ls: seq<Line>, i: nat, k: string)
    requires Clean(ls) && Tabulates(m, ls)
    ensures i < |ls| && ls[i].Entry? ==>
              && |ls[i].key| >= 5 && ls[i].key in m && Lower(ls[i].key[5..]) in m
              && m[ls[i].key] == m[Lower(ls[i].key[5..])] == ls[i].value
    ensures k in m <==> exists n :: 0 <= n < |ls| && Defines(ls[n], k)
  {
    hide Names, NoneTwice, Defines, Lower;
    NamesAre(ls, k);
    if i < |ls| {
      assert ls[i] in ls;
    }
  }

  /** Lines are acceptable exactly if they are harmless and have each of the eight required keys. */
  lemma AcceptableIs(ls: seq<Line>)
    ensures Acceptable(ls) <==>
            && Harmless(ls)
            && HasLine(ls, "ROSE_CC") && HasLine(ls, "ROSE_CXX") && HasLine(ls, "ROSE_CPPFLAGS")
            && HasLine(ls, "ROSE_CFLAGS") && HasLine(ls, "ROSE_CXXFLAGS") && HasLine(ls, "ROSE_LDFLAGS")
            && HasLine(ls, "ROSE_LIBDIRS") && HasLine(ls, "ROSE_PREFIX")
  {
    hide Harmless, Clean;
    CleanIs(ls);
    forall k
      ensures k in REQUIRED ==> (HasKey(ls, k) <==> HasLine(ls, k))
    {
      HasLineKey(ls, k);
    }
    if Acceptable(ls) {
      forall k | k in REQUIRED
        ensures HasLine(ls, k)
      {
        assert HasKey(ls, k);
      }
      RequiredPlaces();
    }
    forall k | k in REQUIRED
      ensures Harmless(ls) && (forall n :: 0 <= n < 8 ==> HasLine(ls, REQUIRED[n])) ==> HasLine(ls, k)
    {
    }
  }

  lemma RequiredPlaces()
    ensures |REQUIRED| == 8 && forall n :: 0 <= n < 8 ==> REQUIRED[n] in REQUIRED
  {
  }

  ghost predicate HasLine(ls: seq<Line>, key: string) {
    exists i :: 0 <= i < |ls| && ls[i].Entry? && ls[i].key == key
  }

  lemma HasLineKey(ls: seq<Line>, key: string)
    ensures HasKey(ls, key) <==> HasLine(ls, key)
  {
    if HasLine(ls, key) {
      var i :| 0 <= i < |ls| && ls[i].Entry? && ls[i].key == key;
      assert ls[i] in ls;
    }
  }

  /** Reading stops at the first line that does harm: a syntax error, a name that a line before has, or a key
      that is too short; of a line with several faults it tells the first. */
  lemma StopIs(ls: seq<Line>, n: nat, r: Outcome)
    requires r.SyntaxError? || r.Duplicate? || r.ShortKey?
    ensures StopsAt(ls, n, r) <==>
            && n < |ls| && Harmless(ls[..n])
            && var l, taken := ls[n], x => exists i :: 0 <= i < n && Defines(ls[i], x);
               if r.SyntaxError? then l.Bad?
               else if r.ShortKey? then l.Entry? && |l.key| < 5 && !taken(l.key)
               else l.Entry? && (taken(l.key) || (|l.key| >= 5 && taken(Lower(l.key[5..]))))
  {
    hide Clean, Harmless, Names, Defines;
    if n < |ls| {
      CleanIs(ls[..n]);
      var l := ls[n];
      if l.Entry? {
        NamesBefore(ls, n, l.key);
        if |l.key| >= 5 {
          NamesBefore(ls, n, ToOldKeyFormat(l.key));
        }
      }
    }
  }

  lemma NamesBefore(ls: seq<Line>, n: nat, x: string)
    requires n <= |ls|
    ensures x in Names(ls[..n]) <==> exists i :: 0 <= i < n && Defines(ls[i], x)
  {
    hide Names, Defines;
    NamesAre(ls[..n], x);
    assert forall i :: 0 <= i < n ==> ls[..n][i] == ls[i];
  }

  // ----- old names -----

  /** Lower case moves each capital letter by the same distance, and leaves every other character. */
  lemma LowerIs(s: string)
    ensures |Lower(s)| == |s|
    ensures forall i :: 0 <= i < |s| ==>
              Lower(s)[i] as int == s[i] as int + if 'A' <= s[i] <= 'Z' then 32 else 0
  {
  }

  lemma OldNames()
    ensures ToOldKeyFormat("ROSE_CC") == "cc" && ToOldKeyFormat("ROSE_PREFIX") == "prefix"
  {
    assert "ROSE_CC"[5..] == "CC" && "ROSE_PREFIX"[5..] == "PREFIX";
    assert Lower("CC") == ['c', 'c'];
    assert Lower("PREFIX") == ['p', 'r', 'e', 'f', 'i', 'x'];
  }

  lemma RequiredNames(k: string)
    ensures k in REQUIRED <==>
            || k == "ROSE_CC" || k == "ROSE_CXX" || k == "ROSE_CPPFLAGS" || k == "ROSE_CFLAGS"
            || k == "ROSE_CXXFLAGS" || k == "ROSE_LDFLAGS" || k == "ROSE_LIBDIRS" || k == "ROSE_PREFIX"
  {
  }
}
