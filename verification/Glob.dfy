/**
  Wildcard patterns of the in-memory file system: they are rewritten into a regular expression,
  which is then matched by search. The two readings of a pattern must agree.
 */
module Glob {

  import opened Wrappers

  // ---- Wildcards: the intended meaning ------------------------------------------------------------

  predicate Wild(p: string, s: string)
    decreases |p| + |s|
  {
    if p == "" then s == ""
    else if p[0] == '*' then Wild(p[1..], s) || (s != "" && Wild(p, s[1..]))
    else s != "" && (p[0] == '?' || p[0] == s[0]) && Wild(p[1..], s[1..])
  }

  /** A star stands for any text, a question mark for one character, any other character for itself. */
  lemma WildOfOne(c: char, s: string)
    ensures Wild([c], s) <==> c == '*' || (|s| == 1 && (c == '?' || c == s[0]))
    decreases |s|
  {
    assert [c][1..] == "";
    if c == '*' && s != "" {
      WildOfOne(c, s[1..]);
    }
  }

  /** What is left of a pattern once its first character has taken one of the text. */
  function RestOf(p: string): string
    requires p != ""
  {
    if p[0] == '*' then p else p[1..]
  }

  predicate TakesFirst(p: string, s: string)
    requires p != ""
  {
    s != "" && (p[0] == '*' || p[0] == '?' || p[0] == s[0])
  }

  lemma WildUnfolds(p: string, s: string)
    requires p != ""
    ensures Wild(p, s) <==> (p[0] == '*' && Wild(p[1..], s)) || (TakesFirst(p, s) && Wild(RestOf(p), s[1..]))
  {
  }

  /** Cut at i, both parts of the text match their parts of the pattern. */
  ghost predicate Cuts(p: string, q: string, s: string, i: nat) {
    i <= |s| && Wild(p, s[..i]) && Wild(q, s[i..])
  }

  lemma CutsUnfold(p: string, q: string, s: string, i: nat)
    requires p != "" && i <= |s|
    ensures Cuts(p, q, s, i) <==>
            || (p[0] == '*' && Cuts(p[1..], q, s, i))
            || (i > 0 && TakesFirst(p, s) && Cuts(RestOf(p), q, s[1..], i - 1))
  {
    WildUnfolds(p, s[..i]);
    if i > 0 {
      assert s[..i][1..] == s[1..][..i - 1] && s[i..] == s[1..][i - 1..] && s[..i][0] == s[0];
    }
    hide Wild;
  }

  /** A pattern matches when the text can be cut so that its parts match. */
  lemma {:induction false} WildOfAppended(p: string, q: string, s: string)
    ensures Wild(p + q, s) <==> exists i: nat :: Cuts(p, q, s, i)
    decreases |p| + |s|
  {
    if p == "" {
      NothingCuts(q, s);
    } else {
      var pq := p + q;
      assert pq[0] == p[0] && pq[1..] == p[1..] + q && RestOf(pq) == RestOf(p) + q;
      WildUnfolds(pq, s);
      hide Wild, Cuts, RestOf;
      if p[0] == '*' {
        WildOfAppended(p[1..], q, s);
        if i: nat :| Cuts(p[1..], q, s, i) {
          CutsInside(p[1..], q, s, i);
          CutsUnfold(p, q, s, i);
        }
      }
      if TakesFirst(p, s) {
        RestIsNotLonger(p);
        WildOfAppended(RestOf(p), q, s[1..]);
        if i: nat :| Cuts(RestOf(p), q, s[1..], i) {
          CutsInside(RestOf(p), q, s[1..], i);
          CutsUnfold(p, q, s, i + 1);
        }
      }
      if i: nat :| Cuts(p, q, s, i) {
        CutsInside(p, q, s, i);
        CutsUnfold(p, q, s, i);
      }
    }
  }

  lemma NothingCuts(q: string, s: string)
    ensures Wild("" + q, s) <==> exists i: nat :: Cuts("", q, s, i)
  {
    assert "" + q == q && s[..0] == "" && s[0..] == s;
    assert Cuts("", q, s, 0) <==> Wild(q, s);
    assert forall i: nat :: Cuts("", q, s, i) ==> |s[..i]| == 0;
  }

  lemma CutsInside(p: string, q: string, s: string, i: nat)
    requires Cuts(p, q, s, i)
    ensures i <= |s|
  {
  }

  lemma RestIsNotLonger(p: string)
    requires p != ""
    ensures |RestOf(p)| <= |p|
  {
  }

  // ---- Regular expressions: the part that the rewriting produces --------------------------------

  datatype Atom = Lit(c: char) | Any {
    predicate Accepts(c: char) { if Any? then c != '\n' else c == this.c }
  }

  datatype Piece = One(atom: Atom) | Many(atom: Atom) | Maybe(atom: Atom)

  const META: set<char> := {'\\', '^', '$', '[', ']', '(', ')', '{', '}', '|', '+', '*', '?'}

  /** One atom and the text after it; None for syntax outside of this part. */
  function ParseAtom(s: string): (r: Option<(Atom, string)>)
    ensures r.Some? ==> |r.value.1| < |s|
  {
    if s == "" then None
    else if s[0] == '\\' then if |s| == 1 then None else Some((Lit(s[1]), s[2..]))
    else if s[0] == '.' then Some((Any, s[1..]))
    else if s[0] in META then None
    else Some((Lit(s[0]), s[1..]))
  }

  function Parse(s: string): Option<seq<Piece>>
    decreases |s|
  {
    if s == "" then Some([])
    else
      var first := ParseAtom(s);
      if first == None then None
      else
        var (atom, after) := first.value;
        var (piece, rest) :=
          if after != "" && after[0] == '*' then (Many(atom), after[1..])
          else if after != "" && after[0] == '?' then (Maybe(atom), after[1..])
          else (One(atom), after);
        var more := Parse(rest);
        if more == None then None else Some([piece] + more.value)
  }

  /** An expression between a line start and a line end. */
  function ParseAnchored(s: string): Option<seq<Piece>> {
    if |s| >= 2 && s[0] == '^' && s[|s| - 1] == '$' then Parse(s[1..|s| - 1]) else None
  }

  predicate Matches(re: seq<Piece>, s: string)
    decreases |re| + |s|
  {
    if re == [] then s == ""
    else
      var here := s != "" && re[0].atom.Accepts(s[0]);
      match re[0]
      case One(_) => here && Matches(re[1..], s[1..])
      case Many(_) => Matches(re[1..], s) || (here && Matches(re, s[1..]))
      case Maybe(_) => Matches(re[1..], s) || (here && Matches(re[1..], s[1..]))
  }

  /**
    The text from i to j starts at the start of a line and ends at the end of one. A newline at the
    end of the text opens no further line: the line-start anchor does not match behind it.
   */
  predicate LineBounds(s: string, i: nat, j: nat) {
    && i <= j <= |s|
    && (i == 0 || (i < |s| && s[i - 1] == '\n'))
    && (j == |s| || s[j] == '\n')
  }

  /** String#match?: the anchored expression matches somewhere in the text. */
  predicate Found(re: seq<Piece>, s: string) {
    exists i, j | 0 <= i <= |s| && 0 <= j <= |s| :: LineBounds(s, i, j) && Matches(re, s[i..j])
  }

  // ---- The rewriting ------------------------------------------------------------------------------

  /** String#gsub for one character. */
  function Gsub(s: string, c: char, to: string): string {
    if s == "" then "" else (if s[0] == c then to else [s[0]]) + Gsub(s[1..], c, to)
  }

  function Rewrite(pattern: string): string {
    Gsub(Gsub(Gsub(pattern, '.', "\\."), '*', ".*"), '?', ".")
  }

  function Expression(pattern: string): string { "^" + Rewrite(pattern) + "$" }

  /** No regular-expression syntax in the pattern but the dot and the two wildcards. */
  predicate Clean(pattern: string) { forall c | c in pattern :: c == '*' || c == '?' || c !in META }

  /** What one character of a pattern should become. */
  function PieceOf(c: char): Piece {
    if c == '*' then Many(Any) else if c == '?' then One(Any) else One(Lit(c))
  }

  function PiecesOf(pattern: string): (re: seq<Piece>)
    ensures |re| == |pattern|
  {
    if pattern == "" then [] else [PieceOf(pattern[0])] + PiecesOf(pattern[1..])
  }

  function RewriteOne(c: char): string {
    if c == '.' then "\\." else if c == '*' then ".*" else if c == '?' then "." else [c]
  }

  lemma {:induction false} GsubAppend(a: string, b: string, c: char, to: string)
    ensures Gsub(a + b, c, to) == Gsub(a, c, to) + Gsub(b, c, to)
    decreases |a|, 1
  {
    if a == "" {
      assert a + b == b;
    } else {
      GsubAppendStep(a, b, c, to);
    }
  }

  lemma {:induction false} GsubAppendStep(a: string, b: string, c: char, to: string)
    requires a != ""
    ensures Gsub(a + b, c, to) == Gsub(a, c, to) + Gsub(b, c, to)
    decreases |a|, 0
  {
    hide *;
    GsubAppend(a[1..], b, c, to);
    assert (a + b)[0] == a[0] && (a + b)[1..] == a[1..] + b;
    GsubUnfolds(a, c, to);
    GsubUnfolds(a + b, c, to);
    Associative(if a[0] == c then to else [a[0]], Gsub(a[1..], c, to), Gsub(b, c, to));
  }

  lemma GsubUnfolds(s: string, c: char, to: string)
    requires s != ""
    ensures Gsub(s, c, to) == (if s[0] == c then to else [s[0]]) + Gsub(s[1..], c, to)
  {
  }

  lemma GsubShort(c: char, to: string, x: char, y: char)
    ensures Gsub([x], c, to) == if x == c then to else [x]
    ensures Gsub([x, y], c, to) == (if x == c then to else [x]) + (if y == c then to else [y])
  {
    assert [x][1..] == "" && [x, y][1..] == [y] && [y][1..] == "";
    assert Gsub([y], c, to) == (if y == c then to else [y]) + "";
    assert Gsub([x], c, to) == (if x == c then to else [x]) + "";
  }

  /** The three passes do not disturb one another: every character is rewritten on its own. */
  lemma RewriteUnfolds(pattern: string)
    requires pattern != ""
    ensures Rewrite(pattern) == RewriteOne(pattern[0]) + Rewrite(pattern[1..])
  {
    var x, rest := pattern[0], pattern[1..];
    var first := if x == '.' then "\\." else [x];
    var second := if x == '*' then ".*" else first;
    var rest1 := Gsub(rest, '.', "\\.");
    var rest2 := Gsub(rest1, '*', ".*");
    assert Gsub(pattern, '.', "\\.") == first + rest1;
    GsubAppend(first, rest1, '*', ".*");
    GsubShort('*', ".*", x, x);
    GsubShort('*', ".*", '\\', '.');
    assert ['\\', '.'] == "\\." && ['\\'] + ['.'] == "\\.";
    assert Gsub(first, '*', ".*") == second;
    GsubAppend(second, rest2, '?', ".");
    GsubShort('?', ".", x, x);
    GsubShort('?', ".", '\\', '.');
    GsubShort('?', ".", '.', '*');
    assert ['.', '*'] == ".*" && ['.'] + ['*'] == ".*";
    assert Gsub(second, '?', ".") == RewriteOne(x);
  }

  lemma RewriteStarts(pattern: string)
    requires Clean(pattern)
    ensures Rewrite(pattern) == "" || (Rewrite(pattern)[0] != '*' && Rewrite(pattern)[0] != '?')
  {
    if pattern != "" {
      RewriteUnfolds(pattern);
      assert pattern[0] in pattern;
    }
  }

  /** The rewritten pattern is a regular expression, with one piece for every character. */
  lemma {:induction false} RewriteParses(pattern: string)
    requires Clean(pattern)
    ensures Parse(Rewrite(pattern)) == Some(PiecesOf(pattern))
  {
    if pattern != "" {
      var c, rest := pattern[0], pattern[1..];
      assert c in pattern && forall d | d in rest :: d in pattern;
      RewriteParses(rest);
      RewriteUnfolds(pattern);
      RewriteStarts(rest);
      var head, tail := RewriteOne(c), Rewrite(rest);
      assert (head + tail)[|head|..] == tail;
      ParseHead(c, tail);
    }
  }

  /** A rewritten character in front of text that does not start with a quantifier is one piece. */
  lemma ParseHead(c: char, tail: string)
    requires c == '*' || c == '?' || c !in META
    requires tail == "" || (tail[0] != '*' && tail[0] != '?')
    ensures var more := Parse(tail);
            Parse(RewriteOne(c) + tail) == if more == None then None else Some([PieceOf(c)] + more.value)
  {
    var s := RewriteOne(c) + tail;
    if c == '.' {
      assert s[2..] == tail && ParseAtom(s) == Some((Lit('.'), tail));
    } else if c == '*' {
      assert s[1..][1..] == tail && ParseAtom(s) == Some((Any, s[1..])) && s[1..][0] == '*';
    } else if c == '?' {
      assert s[1..] == tail && ParseAtom(s) == Some((Any, tail));
    } else {
      assert s[1..] == tail && ParseAtom(s) == Some((Lit(c), tail));
    }
  }

  lemma ExpressionParses(pattern: string)
    requires Clean(pattern)
    ensures ParseAnchored(Expression(pattern)) == Some(PiecesOf(pattern))
  {
    var s := Expression(pattern);
    assert s[1..|s| - 1] == Rewrite(pattern);
    RewriteParses(pattern);
  }

  // ---- The two readings agree -------------------------------------------------------------------

  lemma {:induction false} PiecesMatchWild(p: string, s: string)
    requires '\n' !in s
    ensures Matches(PiecesOf(p), s) <==> Wild(p, s)
    decreases |p| + |s|
  {
    if p != "" {
      assert PiecesOf(p)[1..] == PiecesOf(p[1..]);
      assert s != "" ==> s[0] in s;
      PiecesMatchWild(p[1..], s);
      if s != "" {
        PiecesMatchWild(p[1..], s[1..]);
        PiecesMatchWild(p, s[1..]);
      }
    }
  }

  /** A pattern without a newline never matches text with one. */
  lemma {:induction false} MatchesWithinLine(p: string, s: string)
    requires '\n' !in p && Matches(PiecesOf(p), s)
    ensures '\n' !in s
    decreases |p| + |s|
  {
    if p != "" {
      assert PiecesOf(p)[1..] == PiecesOf(p[1..]) && p[0] in p;
      if p[0] == '*' && Matches(PiecesOf(p[1..]), s) {
        MatchesWithinLine(p[1..], s);
      } else if p[0] == '*' {
        MatchesWithinLine(p, s[1..]);
      } else {
        MatchesWithinLine(p[1..], s[1..]);
      }
    }
  }

  /** Where the first line of a text ends. */
  function LineEnd(s: string): (n: nat)
    ensures n <= |s| && (n < |s| ==> s[n] == '\n')
    ensures forall i | 0 <= i < n :: s[i] != '\n'
  {
    if s == "" || s[0] == '\n' then 0 else 1 + LineEnd(s[1..])
  }

  function AfterFirstLine(s: string): (rest: string)
    ensures |rest| < |s| || rest == s == ""
  {
    if LineEnd(s) < |s| then s[LineEnd(s) + 1..] else ""
  }

  /** The lines of a text; a newline at its end belongs to the last of them. */
  function Lines(s: string): seq<string>
    decreases |s|
  {
    var rest := AfterFirstLine(s);
    [s[..LineEnd(s)]] + if rest == "" then [] else Lines(rest)
  }

  /** The stretch from i to j is one line, and this is it. */
  predicate IsLine(s: string, i: nat, j: nat, line: string) {
    LineBounds(s, i, j) && s[i..j] == line && '\n' !in line
  }

  ghost predicate HasLine(s: string, line: string) {
    exists i: nat, j: nat :: IsLine(s, i, j, line)
  }

  /** What lies between two line anchors with no newline in between is exactly one of the lines. */
  lemma BoundsAreLines(s: string, line: string)
    ensures HasLine(s, line) <==> line in Lines(s)
  {
    hide IsLine, Lines;
    if HasLine(s, line) {
      var i: nat, j: nat :| IsLine(s, i, j, line);
      LineIsListed(s, i, j, line);
    }
    if line in Lines(s) {
      ListedIsLine(s, line);
    }
  }

  lemma {:induction false} LineIsListed(s: string, i: nat, j: nat, line: string)
    requires IsLine(s, i, j, line)
    ensures line in Lines(s)
    decreases |s|
  {
    hide IsLine, Lines, LineEnd;
    var n := LineEnd(s);
    LinesUnfold(s, line);
    FirstLine(s, j, line);
    if i > 0 {
      LaterLine(s, i, j, line);
      ShiftLine(s, n + 1, i - n - 1, j - n - 1, line);
      LineIsListed(s[n + 1..], i - n - 1, j - n - 1, line);
    }
  }

  lemma {:induction false} ListedIsLine(s: string, line: string)
    requires line in Lines(s)
    ensures HasLine(s, line)
    decreases |s|
  {
    hide IsLine, Lines, LineEnd;
    var n := LineEnd(s);
    LinesUnfold(s, line);
    FirstLine(s, n, s[..n]);
    if line != s[..n] {
      ListedIsLine(s[n + 1..], line);
      var i: nat, j: nat :| IsLine(s[n + 1..], i, j, line);
      ShiftLine(s, n + 1, i, j, line);
    }
  }

  lemma LinesUnfold(s: string, line: string)
    ensures var n := LineEnd(s);
            line in Lines(s) <==> line == s[..n] || (n + 1 < |s| && line in Lines(s[n + 1..]))
  {
    hide Lines, LineEnd;
    LinesParts(s);
  }

  lemma LinesParts(s: string)
    ensures var n := LineEnd(s);
            Lines(s) == [s[..n]] + if n + 1 < |s| then Lines(s[n + 1..]) else []
  {
    RestOfLines(s);
    hide LineEnd, AfterFirstLine;
  }

  lemma RestOfLines(s: string)
    ensures AfterFirstLine(s) == if LineEnd(s) + 1 < |s| then s[LineEnd(s) + 1..] else ""
  {
    hide LineEnd;
  }

  lemma FirstLine(s: string, j: nat, line: string)
    ensures IsLine(s, 0, j, line) <==> j == LineEnd(s) && line == s[..j]
  {
    var n := LineEnd(s);
    hide LineEnd;
    if n < j <= |s| {
      assert s[0..j][n] == '\n';
    }
  }

  /** A line that is not the first starts behind the end of the first. */
  lemma LaterLine(s: string, i: nat, j: nat, line: string)
    requires IsLine(s, i, j, line) && i > 0
    ensures LineEnd(s) + 1 <= i <= j && i < |s|
  {
    hide LineEnd;
  }

  /** Lines of the text behind a newline are lines of the whole text. */
  lemma ShiftLine(s: string, m: nat, i: nat, j: nat, line: string)
    requires 0 < m < |s| && s[m - 1] == '\n'
    ensures IsLine(s[m..], i, j, line) <==> IsLine(s, m + i, m + j, line)
  {
    if i <= j <= |s| - m {
      assert s[m..][i..j] == s[m + i..m + j];
      assert i > 0 ==> s[m..][i - 1] == s[m + i - 1];
      assert j < |s| - m ==> s[m..][j] == s[m + j];
    }
  }

  /** Some line of the text matches the wildcards. */
  predicate SomeLineWild(p: string, s: string) {
    exists line | line in Lines(s) :: Wild(p, line)
  }

  /** For every clean pattern, the expression finds a key exactly when some line of the key matches. */
  lemma FoundIsSomeLine(p: string, s: string)
    requires Clean(p) && '\n' !in p
    ensures Found(PiecesOf(p), s) <==> SomeLineWild(p, s)
  {
    hide Lines, Wild, Matches, PiecesOf;
    if Found(PiecesOf(p), s) {
      var i, j :| 0 <= i <= |s| && 0 <= j <= |s| && LineBounds(s, i, j) && Matches(PiecesOf(p), s[i..j]);
      MatchesWithinLine(p, s[i..j]);
      PiecesMatchWild(p, s[i..j]);
      assert IsLine(s, i, j, s[i..j]);
      BoundsAreLines(s, s[i..j]);
    }
    if SomeLineWild(p, s) {
      var line :| line in Lines(s) && Wild(p, line);
      BoundsAreLines(s, line);
      var i: nat, j: nat :| IsLine(s, i, j, line);
      PiecesMatchWild(p, line);
      assert LineBounds(s, i, j) && Matches(PiecesOf(p), s[i..j]);
    }
  }

  /** For keys without newlines that is the wildcard meaning of the pattern. */
  lemma FoundIsWild(p: string, s: string)
    requires Clean(p) && '\n' !in s
    ensures Found(PiecesOf(p), s) <==> Wild(p, s)
  {
    assert s[0..|s|] == s;
    PiecesMatchWild(p, s);
    if Found(PiecesOf(p), s) {
      var i, j :| 0 <= i <= |s| && 0 <= j <= |s| && LineBounds(s, i, j) && Matches(PiecesOf(p), s[i..j]);
      assert forall k | 0 <= k < |s| :: s[k] in s;
      assert i == 0 && j == |s|;
    }
    if Wild(p, s) {
      assert LineBounds(s, 0, |s|);
    }
  }

  /** A key with a newline can be found by a pattern that does not match it as a whole. */
  lemma NewlineKeyIsFound()
    ensures Found(PiecesOf("a"), "a\nb") && !Wild("a", "a\nb")
  {
    var s := "a\nb";
    assert LineBounds(s, 0, 1) && s[0..1] == "a";
    PiecesMatchWild("a", "a");
    assert "a"[1..] == "" && s[1..] == "\nb";
  }

  /** The empty pattern finds an empty line, but none behind a final newline. */
  lemma FinalNewlineOpensNoLine()
    ensures !Found(PiecesOf(""), "a\n")
    ensures Found(PiecesOf(""), "a\n\n") && Found(PiecesOf(""), "")
  {
    assert LineBounds("a\n\n", 2, 2) && LineBounds("", 0, 0);
  }

  // ---- The listing, in order ---------------------------------------------------------------------

  /** String comparison: the first difference decides, a prefix comes first. */
  predicate Less(a: string, b: string) {
    b != "" && (a == "" || a[0] < b[0] || (a[0] == b[0] && Less(a[1..], b[1..])))
  }

  predicate Ascending(r: seq<string>) { forall i, j | 0 <= i < j < |r| :: Less(r[i], r[j]) }

  lemma {:induction false} LessTransitive(a: string, b: string, c: string)
    requires Less(a, b) && Less(b, c)
    ensures Less(a, c)
  {
    if a != "" && a[0] == b[0] == c[0] {
      LessTransitive(a[1..], b[1..], c[1..]);
    }
  }

  lemma {:induction false} LessIsTotal(a: string, b: string)
    ensures Less(a, b) || Less(b, a) || a == b
    ensures !(Less(a, b) && Less(b, a)) && !Less(a, a)
  {
    if a != "" {
      LessIsTotal(a[1..], a[1..]);
      if b != "" {
        LessIsTotal(a[1..], b[1..]);
        assert a == [a[0]] + a[1..] && b == [b[0]] + b[1..];
      }
    }
  }

  /** Both texts agree before n, and not at n. */
  ghost predicate FirstDiffers(a: string, b: string, n: nat) {
    && n <= |a| && n < |b|
    && (forall i | 0 <= i < n :: a[i] == b[i])
    && (n < |a| ==> a[n] != b[n])
  }

  lemma DiffersLater(a: string, b: string, n: nat)
    requires a != "" && b != "" && a[0] == b[0]
    ensures FirstDiffers(a, b, n + 1) <==> FirstDiffers(a[1..], b[1..], n)
    ensures !FirstDiffers(a, b, 0)
  {
    if FirstDiffers(a[1..], b[1..], n) {
      forall i | 0 <= i < n + 1
        ensures a[i] == b[i]
      {
        assert i > 0 ==> a[1..][i - 1] == b[1..][i - 1];
      }
    }
  }

  lemma DiffersAtOnce(a: string, b: string, n: nat)
    requires b != "" && (a != "" ==> a[0] != b[0])
    ensures FirstDiffers(a, b, n) <==> n == 0
  {
  }

  ghost predicate LessAt(a: string, b: string, n: nat) { FirstDiffers(a, b, n) && (n == |a| || a[n] < b[n]) }

  /** The order by the first difference: the lesser character, or the end of the text, comes first. */
  lemma {:induction false} LessIs(a: string, b: string)
    ensures Less(a, b) <==> exists n: nat :: LessAt(a, b, n)
  {
    if b != "" && a != "" && a[0] == b[0] {
      LessIs(a[1..], b[1..]);
      if n: nat :| LessAt(a[1..], b[1..], n) {
        DiffersLater(a, b, n);
        assert LessAt(a, b, n + 1);
      }
      if n: nat :| LessAt(a, b, n) {
        DiffersLater(a, b, if n > 0 then n - 1 else 0);
        assert LessAt(a[1..], b[1..], n - 1);
      }
    } else if b != "" {
      DiffersAtOnce(a, b, 0);
      if n: nat :| LessAt(a, b, n) {
        DiffersAtOnce(a, b, n);
      }
      assert Less(a, b) ==> LessAt(a, b, 0);
    }
  }

  /** One key put in its place among others that are in order. */
  method InsertSorted(r: seq<string>, k: string) returns (r': seq<string>)
    requires Ascending(r) && k !in r
    ensures Ascending(r') && forall x :: x in r' <==> x == k || x in r
  {
    var i := 0;
    while i < |r| && Less(r[i], k)
      invariant 0 <= i <= |r| && forall j | 0 <= j < i :: Less(r[j], k)
    {
      i := i + 1;
    }
    if i < |r| {
      LessIsTotal(r[i], k);
      forall j | i < j < |r|
        ensures Less(k, r[j])
      {
        LessTransitive(k, r[i], r[j]);
      }
    }
    r' := r[..i] + [k] + r[i..];
    assert r == r[..i] + r[i..];
  }

  /** The keys that an expression finds, in ascending order. */
  method SelectSorted(keys: seq<string>, re: seq<Piece>) returns (r: seq<string>)
    requires forall i, j | 0 <= i < j < |keys| :: keys[i] != keys[j]
    ensures Ascending(r) && forall k :: k in r <==> k in keys && Found(re, k)
  {
    r := [];
    for i := 0 to |keys|
      invariant Ascending(r) && forall k :: k in r <==> k in keys[..i] && Found(re, k)
    {
      assert keys[..i + 1] == keys[..i] + [keys[i]];
      if Found(re, keys[i]) {
        r := InsertSorted(r, keys[i]);
      }
    }
    assert keys[..|keys|] == keys;
  }

  /**
    The keys of the store that match a clean pattern, once each and in ascending order; a key with
    newlines matches when one of its lines does.
   */
  method Glob(keys: seq<string>, pattern: string) returns (r: seq<string>)
    requires forall i, j | 0 <= i < j < |keys| :: keys[i] != keys[j]
    requires Clean(pattern)
    ensures Ascending(r) && forall k | k in r :: k in keys
    ensures forall k | k in keys && '\n' !in k :: k in r <==> Wild(pattern, k)
    ensures '\n' !in pattern ==> forall k | k in keys :: k in r <==> SomeLineWild(pattern, k)
  {
    ExpressionParses(pattern);
    var re := ParseAnchored(Expression(pattern)).value;
    r := SelectSorted(keys, re);
    forall k | k in keys && '\n' !in k
      ensures k in r <==> Wild(pattern, k)
    {
      FoundIsWild(pattern, k);
    }
    if '\n' !in pattern {
      forall k | k in keys
        ensures k in r <==> SomeLineWild(pattern, k)
      {
        FoundIsSomeLine(pattern, k);
      }
    }
  }

  /** Ascending lists with the same members are the same list. */
  lemma {:induction false} AscendingIsUnique(a: seq<string>, b: seq<string>)
    requires Ascending(a) && Ascending(b) && forall x :: x in a <==> x in b
    ensures a == b
    decreases |a|
  {
    if a == [] {
      assert forall k | 0 <= k < |b| :: b[k] in b;
    } else {
      assert a[0] in a && a[0] in b;
      assert b[0] in b && b[0] in a;
      SmallestFirst(a, b[0]);
      SmallestFirst(b, a[0]);
      LessIsTotal(a[0], b[0]);
      forall x
        ensures x in a[1..] <==> x in b[1..]
      {
        TailMembers(a, x);
        TailMembers(b, x);
      }
      AscendingIsUnique(a[1..], b[1..]);
      assert a == [a[0]] + a[1..] && b == [b[0]] + b[1..];
    }
  }

  lemma SmallestFirst(a: seq<string>, x: string)
    requires Ascending(a) && x in a
    ensures a[0] == x || Less(a[0], x)
  {
  }

  lemma TailMembers(a: seq<string>, x: string)
    requires Ascending(a) && a != []
    ensures x in a[1..] <==> x in a && x != a[0]
  {
    LessIsTotal(a[0], a[0]);
    if x in a[1..] {
      var i :| 0 <= i < |a| - 1 && a[1..][i] == x;
      assert Less(a[0], a[i + 1]);
    }
  }
}
