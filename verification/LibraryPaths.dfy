// The list of library search paths: a string of words with quoting becomes a colon-separated list.
module LibraryPaths {
  import opened CStrings

  // ----- what the characters of the string mean -----

  datatype Mark = Text(c: char) | Break

  // The marks, and the quote that is open at the end.
  datatype Lexed = Lexed(marks: seq<Mark>, quoted: char)

  // No quote.
  const NONE := '\0'

  /** A character after a backslash, a character within quotes and any ordinary character is text;
      a space outside quotes is a break; quotes that open or close mean nothing themselves. */
  function Lex(space: char -> bool, c: string, quoted: char): Lexed
    decreases |c|
  {
    if c == "" then Lexed([], quoted)
    else if c[0] == '\\' && |c| > 1 then Prepend([Text(c[1])], Lex(space, c[2..], quoted))
    else if c[0] != '\'' && c[0] != '"' then
      Prepend([if space(c[0]) && quoted == NONE then Break else Text(c[0])], Lex(space, c[1..], quoted))
    else if quoted == NONE then Lex(space, c[1..], c[0])
    else if quoted == c[0] then Lex(space, c[1..], NONE)
    else Prepend([Text(c[0])], Lex(space, c[1..], quoted))
  }

  function Prepend(m: seq<Mark>, l: Lexed): Lexed {
    Lexed(m + l.marks, l.quoted)
  }

  // ----- words are what lies between breaks -----

  function Pieces(m: seq<Mark>): (r: seq<string>)
    ensures r != []
  {
    if m == [] then [""] else
      var p := Pieces(m[1..]);
      if m[0].Break? then [""] + p else [[m[0].c] + p[0]] + p[1..]
  }

  function NonEmpty(p: seq<string>): seq<string> {
    if p == [] then [] else (if p[0] == "" then [] else [p[0]]) + NonEmpty(p[1..])
  }

  function Words(m: seq<Mark>): seq<string> {
    NonEmpty(Pieces(m))
  }

  function Texts(a: string): seq<Mark> {
    seq(|a|, i requires 0 <= i < |a| => Text(a[i]))
  }

  lemma TextPiece(c: char, m: seq<Mark>)
    ensures Pieces([Text(c)] + m) == [[c] + Pieces(m)[0]] + Pieces(m)[1..]
  {
    assert ([Text(c)] + m)[1..] == m;
  }

  lemma {:induction false} TextPieces(a: string, m: seq<Mark>)
    ensures Pieces(Texts(a) + m) == [a + Pieces(m)[0]] + Pieces(m)[1..]
  {
    hide Pieces;
    var h, t := Pieces(m)[0], Pieces(m)[1..];
    if a == "" {
      assert Texts(a) + m == m && a + h == h;
    } else {
      TextPieces(a[1..], m);
      assert Texts(a) + m == [Text(a[0])] + (Texts(a[1..]) + m);
      TextPiece(a[0], Texts(a[1..]) + m);
      assert [a[0]] + (a[1..] + h) == a + h;
      assert ([a[1..] + h] + t)[1..] == t;
    }
  }

  lemma LastWord(a: string)
    ensures Words(Texts(a)) == if a == "" then [] else [a]
  {
    TextPieces(a, []);
    assert Texts(a) + [] == Texts(a) && a + "" == a;
    assert Pieces(Texts(a)) == [a];
    OneWord(a);
  }

  lemma OneWord(a: string)
    ensures NonEmpty([a]) == if a == "" then [] else [a]
  {
    assert [a][1..] == [];
  }

  lemma PieceThenBreak(a: string, m: seq<Mark>)
    ensures Pieces(Texts(a) + ([Break] + m)) == [a] + Pieces(m)
  {
    var n := [Break] + m;
    assert n[1..] == m;
    TextPieces(a, n);
    assert a + "" == a;
  }

  lemma WordThenBreak(a: string, m: seq<Mark>)
    ensures Words(Texts(a) + ([Break] + m)) == (if a == "" then [] else [a]) + Words(m)
  {
    PieceThenBreak(a, m);
    assert ([a] + Pieces(m))[1..] == Pieces(m);
  }

  lemma MoreText(a: string, c: char, m: seq<Mark>)
    ensures Texts(a) + ([Text(c)] + m) == Texts(a + [c]) + m
  {
  }

  lemma {:induction false} NonEmptyWords(p: seq<string>)
    ensures forall w :: w in NonEmpty(p) <==> w in p && w != ""
    ensures NonEmpty(p) == p <==> "" !in p
    ensures |NonEmpty(p)| <= |p|
  {
    if p != [] {
      NonEmptyWords(p[1..]);
      assert p == [p[0]] + p[1..];
    }
  }

  // ----- joining, and splitting at a separator -----

  function Join(sep: char, p: seq<string>): string {
    if p == [] then "" else if |p| == 1 then p[0] else p[0] + ([sep] + Join(sep, p[1..]))
  }

  lemma {:induction false} JoinMore(sep: char, p: seq<string>, x: string)
    ensures Join(sep, p + [x]) == if p == [] then x else Join(sep, p) + ([sep] + x)
  {
    if |p| == 1 {
      assert (p + [x])[1..] == [x];
    } else if p != [] {
      JoinMore(sep, p[1..], x);
      assert (p + [x])[1..] == p[1..] + [x];
    } else {
      assert p + [x] == [x];
    }
  }

  lemma {:induction false} JoinEmpty(sep: char, p: seq<string>)
    requires "" !in p
    ensures Join(sep, p) == "" <==> p == []
  {
  }

  function Marked(sep: char, s: string): seq<Mark> {
    seq(|s|, i requires 0 <= i < |s| => if s[i] == sep then Break else Text(s[i]))
  }

  /** The fields of s, of which there is one more than there are separators. */
  function Fields(sep: char, s: string): seq<string> {
    Pieces(Marked(sep, s))
  }

  lemma {:induction false} FieldsOf(sep: char, p: seq<string>)
    requires p != [] && forall w :: w in p ==> sep !in w
    ensures Fields(sep, Join(sep, p)) == p
  {
    var w, rest := p[0], p[1..];
    assert w in p && sep !in w;
    if rest == [] {
      TextPieces(w, []);
      assert Marked(sep, w) == Texts(w) + [] && w + "" == w;
    } else {
      FieldsOf(sep, rest);
      MarkedJoin(sep, w, rest);
      PieceThenBreak(w, Marked(sep, Join(sep, rest)));
      assert p == [w] + rest;
    }
  }

  lemma MarkedJoin(sep: char, w: string, rest: seq<string>)
    requires sep !in w && rest != []
    ensures Marked(sep, Join(sep, [w] + rest)) == Texts(w) + ([Break] + Marked(sep, Join(sep, rest)))
  {
    assert ([w] + rest)[1..] == rest;
  }

  lemma {:induction false} PieceChars(m: seq<Mark>, w: string, c: char)
    requires w in Pieces(m) && c in w
    ensures Text(c) in m
  {
    if m != [] {
      var p := Pieces(m[1..]);
      if m[0].Break? {
        PieceChars(m[1..], w, c);
      } else if w in p[1..] {
        PieceChars(m[1..], w, c);
      } else if c in p[0] {
        PieceChars(m[1..], p[0], c);
      }
    }
  }

  /** A list can be taken apart again exactly when it is not empty and no part holds a separator. */
  lemma SplitsBack(sep: char, p: seq<string>)
    ensures Fields(sep, Join(sep, p)) == p <==> p != [] && forall w :: w in p ==> sep !in w
  {
    if p != [] && forall w :: w in p ==> sep !in w {
      FieldsOf(sep, p);
    } else if p != [] {
      var w :| w in p && sep in w;
      var m := Marked(sep, Join(sep, p));
      if w in Pieces(m) {
        PieceChars(m, w, sep);
        assert false;
      }
    }
  }

  /** Two lists that do not come back: no path becomes one empty path, and a path with a colon becomes two. */
  lemma DoNotSplitBack()
    ensures Join(':', []) == "" && Fields(':', "") == [""]
    ensures Join(':', ["a:b"]) == "a:b" && Fields(':', "a:b") == ["a", "b"]
  {
    FieldsOf(':', [""]);
    FieldsOf(':', ["a", "b"]);
    assert ["a", "b"][1..] == ["b"] && "a" + ([':'] + "b") == "a:b";
  }

  // ----- the tokenizer -----

  function Tokens(space: char -> bool, str: string): seq<string> {
    Words(Lex(space, CStr(str), NONE).marks)
  }

  predicate Matched(space: char -> bool, str: string) {
    Lex(space, CStr(str), NONE).quoted == NONE
  }

  datatype Result = Paths(paths: string) | MismatchedQuotes

  function SearchPaths(space: char -> bool, str: string): Result {
    if Matched(space, str) then Paths(Join(':', Tokens(space, str))) else MismatchedQuotes
  }

  // A backslash at place s, and something after it.
  predicate EscapeAt(str: string, s: nat)
    requires s < |str|
  {
    str[s] == '\\' && s + 1 < |str| && str[s + 1] != '\0'
  }

  // The lexed string from place s on.
  function LexFrom(space: char -> bool, str: string, s: nat, quoted: char): Lexed
    requires s <= |str|
  {
    Lex(space, CStr(str[s..]), quoted)
  }

  // What the character at place s means.
  lemma LexAt(space: char -> bool, str: string, s: nat, quoted: char)
    requires s < |str| && str[s] != '\0'
    ensures LexFrom(space, str, s, quoted) ==
            if EscapeAt(str, s) then Prepend([Text(str[s + 1])], LexFrom(space, str, s + 2, quoted))
            else if str[s] != '\'' && str[s] != '"' then
              Prepend([if space(str[s]) && quoted == NONE then Break else Text(str[s])],
                      LexFrom(space, str, s + 1, quoted))
            else if quoted == NONE then LexFrom(space, str, s + 1, str[s])
            else if quoted == str[s] then LexFrom(space, str, s + 1, NONE)
            else Prepend([Text(str[s])], LexFrom(space, str, s + 1, quoted))
  {
    CStrSteps(str, s);
  }

  lemma LexEnd(space: char -> bool, str: string, s: nat, quoted: char)
    requires s <= |str| && (s == |str| || str[s] == '\0')
    ensures LexFrom(space, str, s, quoted) == Lexed([], quoted)
  {
  }

  method Tokenize(space: char -> bool, str: string) returns (args: seq<string>, quoted: char)
    ensures args == Tokens(space, str)
    ensures quoted == Lex(space, CStr(str), NONE).quoted
  {
    hide Lex, LexFrom, CStr, Words, Texts;
    args, quoted := [], NONE;
    var arg, s := "", 0;
    ghost var all := Lex(space, CStr(str), NONE);
    WholeLex(space, str);
    EmptyText(all.marks);
    while s < |str| && str[s] != '\0'
      invariant 0 <= s <= |str|
      invariant all.quoted == LexFrom(space, str, s, quoted).quoted
      invariant Words(all.marks) == args + Words(Texts(arg) + LexFrom(space, str, s, quoted).marks)
    {
      LexAt(space, str, s, quoted);
      if str[s] == '\\' && s + 1 < |str| && str[s + 1] != '\0' {
        s := s + 1;
        MoreText(arg, str[s], LexFrom(space, str, s + 1, quoted).marks);
        arg := arg + [str[s]];
      } else if str[s] == '\'' || str[s] == '"' {
        if quoted == NONE {
          quoted := str[s];
        } else if quoted == str[s] {
          quoted := NONE;
        } else {
          MoreText(arg, str[s], LexFrom(space, str, s + 1, quoted).marks);
          arg := arg + [str[s]];
        }
      } else if space(str[s]) {
        if quoted != NONE {
          MoreText(arg, str[s], LexFrom(space, str, s + 1, quoted).marks);
          arg := arg + [str[s]];
        } else {
          WordThenBreak(arg, LexFrom(space, str, s + 1, quoted).marks);
          EmptyText(LexFrom(space, str, s + 1, quoted).marks);
          if arg != "" {
            args := args + [arg];
            arg := "";
          }
        }
      } else {
        MoreText(arg, str[s], LexFrom(space, str, s + 1, quoted).marks);
        arg := arg + [str[s]];
      }
      s := s + 1;
    }
    LexEnd(space, str, s, quoted);
    assert Texts(arg) + [] == Texts(arg);
    LastWord(arg);
    if arg != "" {
      args := args + [arg];
    }
  }

  lemma WholeLex(space: char -> bool, str: string)
    ensures LexFrom(space, str, 0, NONE) == Lex(space, CStr(str), NONE)
  {
    assert str[0..] == str;
  }

  lemma TextFirst(w: string)
    requires w != ""
    ensures Texts(w) == [Text(w[0])] + Texts(w[1..])
  {
  }

  lemma EmptyText(m: seq<Mark>)
    ensures Texts("") + m == m
  {
  }

  lemma CStrSteps(str: string, s: nat)
    requires s < |str| && str[s] != '\0'
    ensures CStr(str[s..]) == [str[s]] + CStr(str[s + 1..])
    ensures CStr(str[s..])[1..] == CStr(str[s + 1..])
    ensures s + 1 < |str| && str[s + 1] != '\0' <==> |CStr(str[s..])| > 1
    ensures |CStr(str[s..])| > 1 ==> CStr(str[s..])[1] == str[s + 1] && CStr(str[s..])[2..] == CStr(str[s + 2..])
  {
    assert str[s..][1..] == str[s + 1..];
    if s + 1 < |str| {
      assert str[s + 1..][1..] == str[s + 2..];
    }
  }

  /** The words of str with colons between them, unless a quote is left open. */
  method MakeLibrarySearchPaths(space: char -> bool, str: string) returns (r: Result)
    ensures r == SearchPaths(space, str)
    ensures r.MismatchedQuotes? <==> Lex(space, CStr(str), NONE).quoted != NONE
    ensures r.Paths? ==> r.paths == Join(':', Tokens(space, str))
  {
    hide Join, Tokens, Lex;
    var args, quoted := Tokenize(space, str);
    if quoted != NONE {
      return MismatchedQuotes;
    }
    TokensNonEmpty(space, str);
    var retval := "";
    JoinEmpty(':', args[..0]);
    for i := 0 to |args|
      invariant retval == Join(':', args[..i])
    {
      JoinNext(':', args, i);
      retval := retval + ((if retval == "" then "" else ":") + args[i]);
    }
    assert args[..|args|] == args;
    return Paths(retval);
  }

  lemma JoinNext(sep: char, p: seq<string>, i: nat)
    requires "" !in p && i < |p|
    ensures Join(sep, p[..i + 1]) == Join(sep, p[..i]) + ((if Join(sep, p[..i]) == "" then "" else [sep]) + p[i])
  {
    hide Join;
    JoinEmpty(sep, p[..i]);
    JoinMore(sep, p[..i], p[i]);
    assert p[..i + 1] == p[..i] + [p[i]];
  }

  /** No token is empty, so what has been joined is empty exactly before the first token. */
  lemma TokensNonEmpty(space: char -> bool, str: string)
    ensures "" !in Tokens(space, str)
    ensures forall i :: 0 <= i <= |Tokens(space, str)| ==> (Join(':', Tokens(space, str)[..i]) == "" <==> i == 0)
  {
    hide Lex, Join;
    var t := Tokens(space, str);
    NonEmptyWords(Pieces(Lex(space, CStr(str), NONE).marks));
    forall i | 0 <= i <= |t|
      ensures Join(':', t[..i]) == "" <==> i == 0
    {
      JoinEmpty(':', t[..i]);
    }
  }

  lemma {:induction false} LexChars(space: char -> bool, c: string, quoted: char, x: char)
    requires Text(x) in Lex(space, c, quoted).marks
    ensures x in c
    decreases |c|
  {
    if c != "" {
      if c[0] == '\\' && |c| > 1 {
        if x != c[1] {
          LexChars(space, c[2..], quoted, x);
        }
      } else if x != c[0] {
        LexChars(space, c[1..], if c[0] != '\'' && c[0] != '"' then quoted else if quoted == NONE then c[0] else
                 if quoted == c[0] then NONE else quoted, x);
      }
    }
  }

  /** Every character of a token is one of the string's, and none is NUL. */
  lemma TokenChars(space: char -> bool, str: string, w: string, x: char)
    requires w in Tokens(space, str) && x in w
    ensures x in CStr(str) && x != '\0'
  {
    var m := Lex(space, CStr(str), NONE).marks;
    NonEmptyWords(Pieces(m));
    PieceChars(m, w, x);
    LexChars(space, CStr(str), NONE, x);
    CStrWhole(str);
  }

  // ----- round trips -----

  /** e is a way to write w: wherever it is read outside quotes, it means the text w. */
  ghost predicate Spells(space: char -> bool, e: string, w: string) {
    forall rest {:trigger e + rest} :: Lex(space, e + rest, NONE) == Prepend(Texts(w), Lex(space, rest, NONE))
  }

  // A backslash before every character.
  function Escaped(w: string): string {
    if w == "" then "" else ['\\', w[0]] + Escaped(w[1..])
  }

  function EscapedAll(ws: seq<string>): (r: seq<string>)
    ensures |r| == |ws| && forall i :: 0 <= i < |ws| ==> r[i] == Escaped(ws[i])
  {
    seq(|ws|, i requires 0 <= i < |ws| => Escaped(ws[i]))
  }

  lemma LexEscape(space: char -> bool, x: char, rest: string, quoted: char)
    ensures Lex(space, ['\\', x] + rest, quoted) == Prepend([Text(x)], Lex(space, rest, quoted))
  {
    var c := ['\\', x] + rest;
    assert c[0] == '\\' && c[1] == x && c[2..] == rest;
  }

  lemma {:induction false} EscapedReads(space: char -> bool, w: string, rest: string)
    ensures Lex(space, Escaped(w) + rest, NONE) == Prepend(Texts(w), Lex(space, rest, NONE))
  {
    hide Lex;
    if w == "" {
      assert Escaped(w) + rest == rest;
    } else {
      EscapedReads(space, w[1..], rest);
      assert Escaped(w) + rest == ['\\', w[0]] + (Escaped(w[1..]) + rest);
      LexEscape(space, w[0], Escaped(w[1..]) + rest, NONE);
      TextFirst(w);
    }
  }

  lemma LexQuoted(space: char -> bool, q: char, x: char, rest: string)
    requires (q == '\'' || q == '"') && x != q && x != '\\'
    ensures Lex(space, [x] + rest, q) == Prepend([Text(x)], Lex(space, rest, q))
    ensures Lex(space, [q] + rest, q) == Lex(space, rest, NONE)
    ensures Lex(space, [q] + rest, NONE) == Lex(space, rest, q)
  {
    assert ([x] + rest)[1..] == rest && ([q] + rest)[1..] == rest;
  }

  lemma {:induction false} QuotedReads(space: char -> bool, q: char, w: string, rest: string)
    requires (q == '\'' || q == '"') && q !in w && '\\' !in w
    ensures Lex(space, w + ([q] + rest), q) == Prepend(Texts(w), Lex(space, rest, NONE))
  {
    hide Lex;
    if w == "" {
      LexQuoted(space, q, 'x', rest);
      assert w + ([q] + rest) == [q] + rest;
    } else {
      QuotedReads(space, q, w[1..], rest);
      LexQuoted(space, q, w[0], w[1..] + ([q] + rest));
      assert w + ([q] + rest) == [w[0]] + (w[1..] + ([q] + rest));
      TextFirst(w);
    }
  }

  /** Two ways to write any text at all, and any text without backslashes or the quote chosen. */
  lemma EscapedSpells(space: char -> bool, w: string)
    ensures Spells(space, Escaped(w), w)
  {
    forall rest {:trigger Escaped(w) + rest}
      ensures Lex(space, Escaped(w) + rest, NONE) == Prepend(Texts(w), Lex(space, rest, NONE))
    {
      EscapedReads(space, w, rest);
    }
  }

  lemma QuotedSpells(space: char -> bool, q: char, w: string)
    requires (q == '\'' || q == '"') && q !in w && '\\' !in w
    ensures Spells(space, [q] + w + [q], w)
  {
    var e := [q] + w + [q];
    forall rest {:trigger e + rest}
      ensures Lex(space, e + rest, NONE) == Prepend(Texts(w), Lex(space, rest, NONE))
    {
      QuotedReads(space, q, w, rest);
      LexQuoted(space, q, 'x', w + ([q] + rest));
      assert e + rest == [q] + (w + ([q] + rest));
    }
  }

  /** Text without spaces, quotes or backslashes writes itself. */
  lemma PlainSpells(space: char -> bool, w: string)
    requires forall c :: c in w ==> !space(c) && c != '\\' && c != '\'' && c != '"'
    ensures Spells(space, w, w)
  {
    forall rest {:trigger w + rest}
      ensures Lex(space, w + rest, NONE) == Prepend(Texts(w), Lex(space, rest, NONE))
    {
      PlainReads(space, w, rest);
    }
  }

  lemma LexPlain(space: char -> bool, x: char, rest: string)
    requires x != '\\' && x != '\'' && x != '"'
    ensures Lex(space, [x] + rest, NONE) == Prepend([if space(x) then Break else Text(x)], Lex(space, rest, NONE))
  {
    assert ([x] + rest)[1..] == rest;
  }

  lemma {:induction false} PlainReads(space: char -> bool, w: string, rest: string)
    requires forall c :: c in w ==> !space(c) && c != '\\' && c != '\'' && c != '"'
    ensures Lex(space, w + rest, NONE) == Prepend(Texts(w), Lex(space, rest, NONE))
  {
    if w == "" {
      assert w + rest == rest;
    } else {
      assert forall c :: c in w[1..] ==> c in w;
      PlainReads(space, w[1..], rest);
      assert w + rest == [w[0]] + (w[1..] + rest) && w[0] in w;
      LexPlain(space, w[0], w[1..] + rest);
      TextFirst(w);
      hide Lex;
    }
  }

  /** Between words there may be any whitespace, and as much as one likes. */
  lemma {:induction false} GapBetween(space: char -> bool, e: string, w: string, gap: string, rest: string)
    requires Spells(space, e, w) && gap != ""
    requires forall c :: c in gap ==> space(c) && c != '\\' && c != '\'' && c != '"'
    ensures var l, r := Lex(space, e + (gap + rest), NONE), Lex(space, rest, NONE);
            l.quoted == r.quoted && Words(l.marks) == (if w == "" then [] else [w]) + Words(r.marks)
    decreases |gap|
  {
    hide Lex, Words, Texts;
    var c := gap + rest;
    assert c == [gap[0]] + (gap[1..] + rest) && gap[0] in gap;
    LexPlain(space, gap[0], gap[1..] + rest);
    assert Lex(space, e + c, NONE) == Prepend(Texts(w), Lex(space, c, NONE));
    var tail := Lex(space, gap[1..] + rest, NONE);
    WordThenBreak(w, tail.marks);
    if |gap| > 1 {
      EmptySpells(space);
      assert forall x :: x in gap[1..] ==> x in gap;
      GapBetween(space, "", "", gap[1..], rest);
      assert "" + (gap[1..] + rest) == gap[1..] + rest;
    } else {
      assert gap[1..] + rest == rest;
    }
  }

  lemma EmptySpells(space: char -> bool)
    ensures Spells(space, "", "")
  {
    PlainSpells(space, "");
  }

  /** However each string is written, with spaces between them the strings that are not empty come back. */
  lemma {:induction false} SpelledPieces(space: char -> bool, es: seq<string>, ws: seq<string>)
    requires space(' ') && |es| == |ws| && forall i :: 0 <= i < |es| ==> Spells(space, es[i], ws[i])
    ensures var l := Lex(space, Join(' ', es), NONE); l.quoted == NONE && Words(l.marks) == NonEmpty(ws)
  {
    if |es| == 1 {
      assert es[0] + "" == es[0];
      assert Texts(ws[0]) + [] == Texts(ws[0]);
      LastWord(ws[0]);
    } else if es != [] {
      SpelledPieces(space, es[1..], ws[1..]);
      var rest := [' '] + Join(' ', es[1..]);
      assert Lex(space, es[0] + rest, NONE) == Prepend(Texts(ws[0]), Lex(space, rest, NONE));
      assert rest[1..] == Join(' ', es[1..]);
      WordThenBreak(ws[0], Lex(space, rest[1..], NONE).marks);
    }
  }

  // What is still to be read after some written strings ends with the same quote.
  lemma {:induction false} SpelledThen(space: char -> bool, es: seq<string>, ws: seq<string>, rest: string)
    requires |es| == |ws| && forall i :: 0 <= i < |es| ==> Spells(space, es[i], ws[i])
    ensures Lex(space, Join(' ', es) + rest, NONE).quoted == Lex(space, rest, NONE).quoted
  {
    if es == [] {
      assert Join(' ', es) + rest == rest;
    } else if |es| == 1 {
      assert Lex(space, es[0] + rest, NONE) == Prepend(Texts(ws[0]), Lex(space, rest, NONE));
    } else {
      SpelledThen(space, es[1..], ws[1..], rest);
      var t := Join(' ', es[1..]) + rest;
      var u := [' '] + t;
      assert Join(' ', es) + rest == es[0] + u;
      assert Lex(space, es[0] + u, NONE) == Prepend(Texts(ws[0]), Lex(space, u, NONE));
      assert u[1..] == t;
    }
  }

  lemma {:induction false} StaysOpen(space: char -> bool, q: char, w: string)
    requires (q == '\'' || q == '"') && q !in w && '\\' !in w
    ensures Lex(space, w, q).quoted == q
  {
    if w != "" {
      StaysOpen(space, q, w[1..]);
    }
  }

  /** A quote that is never closed is an error, whatever was written before it. */
  lemma OpenQuote(space: char -> bool, es: seq<string>, ws: seq<string>, q: char, w: string)
    requires |es| == |ws| && forall i :: 0 <= i < |es| ==> Spells(space, es[i], ws[i])
    requires (q == '\'' || q == '"') && q !in w && '\\' !in w
    requires '\0' !in Join(' ', es) + ([q] + w)
    ensures var str := Join(' ', es) + ([q] + w);
            Lex(space, CStr(str), NONE).quoted == q && SearchPaths(space, str) == MismatchedQuotes
  {
    CStrWhole(Join(' ', es) + ([q] + w));
    SpelledThen(space, es, ws, [q] + w);
    StaysOpen(space, q, w);
    assert ([q] + w)[1..] == w;
  }

  lemma {:induction false} EscapedNul(w: string)
    ensures '\0' in Escaped(w) <==> '\0' in w
  {
    if w != "" {
      EscapedNul(w[1..]);
      assert w == [w[0]] + w[1..];
    }
  }

  lemma {:induction false} JoinNul(p: seq<string>)
    ensures '\0' in Join(' ', p) <==> exists i :: 0 <= i < |p| && '\0' in p[i]
  {
    if |p| > 1 {
      JoinNul(p[1..]);
      assert forall i :: 1 <= i < |p| ==> p[i] == p[1..][i - 1];
    }
  }

  /** Strings written with a backslash before every character come back just as they were if and only
      if none is empty and none holds a NUL. */
  lemma RoundTrip(space: char -> bool, ws: seq<string>)
    requires space(' ')
    ensures var str := Join(' ', EscapedAll(ws));
            Matched(space, str) && Tokens(space, str) == ws <==> forall w :: w in ws ==> w != "" && '\0' !in w
  {
    var es := EscapedAll(ws);
    var str := Join(' ', es);
    if forall w :: w in ws ==> '\0' !in w {
      forall i | 0 <= i < |ws|
        ensures Spells(space, es[i], ws[i]) && '\0' !in es[i]
      {
        EscapedSpells(space, ws[i]);
        EscapedNul(ws[i]);
      }
      JoinNul(es);
      CStrWhole(str);
      SpelledPieces(space, es, ws);
      NonEmptyWords(ws);
    } else {
      var w :| w in ws && '\0' in w;
      if w in Tokens(space, str) {
        TokenChars(space, str, w, '\0');
        assert false;
      }
    }
  }

  /** Two lists that do not come back from the tokenizer: an empty string is lost, and what follows a NUL. */
  lemma DoNotComeBack(space: char -> bool)
    requires space(' ') && !space('\\')
    ensures Join(' ', EscapedAll([""])) == "" && Tokens(space, "") == []
    ensures Join(' ', EscapedAll(["\0"])) == "\\\0" && Tokens(space, "\\\0") == ["\\"]
  {
    assert EscapedAll([""]) == [Escaped("")];
    assert NonEmpty([""]) == [] by {
      OneWord("");
    }
    assert "\0"[1..] == "" && Escaped("\0") == ['\\', '\0'];
    var s := "\\\0";
    CStrSteps(s, 0);
    assert s[0..] == s && s[1..] == "\0" && CStr(s) == "\\";
    var m := [Text('\\')] + [];
    assert "\\"[1..] == "" && Lex(space, "\\", NONE).marks == m == Texts("\\");
    LastWord("\\");
  }

  /** The whole way: strings written so, found again in the colon-separated list. */
  lemma PathsRoundTrip(space: char -> bool, ws: seq<string>)
    requires space(' ') && forall w :: w in ws ==> w != "" && '\0' !in w
    ensures var r := SearchPaths(space, Join(' ', EscapedAll(ws)));
            && r == Paths(Join(':', ws))
            && (Fields(':', r.paths) == ws <==> ws != [] && forall w :: w in ws ==> ':' !in w)
  {
    RoundTrip(space, ws);
    SplitsBack(':', ws);
  }
}
