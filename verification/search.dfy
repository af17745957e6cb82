/**
 * User and package search of v1/routes/search.js (and the same two handlers in v1.js): the
 * query check, the LIKE pattern, and the loop that collects one entry per matched row.
 */
module Search {
  import opened Text
  import opened Wrappers
  import opened Schema

  /** The input after its leading whitespace. */
  function SkipSpace(s: string): (r: string)
    ensures |r| <= |s| && r == s[|s| - |r|..]
    ensures r != [] ==> !IsWhitespace(r[0])
  {
    if s != [] && IsWhitespace(s[0]) then SkipSpace(s[1..]) else s
  }

  /** `.replace(/\s+/g, '%')`: every maximal run of whitespace becomes a single `%`. */
  function Collapse(s: string): (r: string)
    ensures forall i :: 0 <= i < |r| ==> !IsWhitespace(r[i])
    decreases |s|
  {
    if s == [] then []
    else if IsWhitespace(s[0]) then "%" + Collapse(SkipSpace(s[1..]))
    else [s[0]] + Collapse(s[1..])
  }

  /** `` `%${q.toLowerCase().replace(/\s+/g, '%')}%` `` */
  function Pattern(q: string): (r: string)
    ensures |r| >= 2 && r[0] == '%' && r[|r| - 1] == '%'
    ensures forall i :: 0 <= i < |r| ==> !IsWhitespace(r[i])
  {
    "%" + Collapse(Lower(q)) + "%"
  }

  /** Text without whitespace passes through the collapse unchanged. */
  lemma {:induction false} CollapseKeepsWords(s: string)
    requires forall i :: 0 <= i < |s| ==> !IsWhitespace(s[i])
    ensures Collapse(s) == s
    decreases |s|
  {
    if s != [] {
      CollapseKeepsWords(s[1..]);
      assert s == [s[0]] + s[1..];
    }
  }

  /** A whitespace-free query is folded and wrapped in `%`, nothing more. */
  lemma PatternOfWord(q: string)
    requires forall i :: 0 <= i < |q| ==> !IsWhitespace(q[i])
    ensures Pattern(q) == "%" + Lower(q) + "%"
  {
    forall i | 0 <= i < |Lower(q)| ensures !IsWhitespace(Lower(q)[i]) {
      LowerKeepsWhitespace(q[i]);
    }
    CollapseKeepsWords(Lower(q));
  }

  /**
   * SQL `LIKE` with its two wildcards: `%` matches any run of characters and `_` any one
   * character; every other character matches itself.
   */
  predicate Like(pat: string, s: string)
    decreases |pat| + |s|
  {
    if pat == [] then s == []
    else if pat[0] == '%' then Like(pat[1..], s) || (s != [] && Like(pat, s[1..]))
    else s != [] && (pat[0] == '_' || pat[0] == s[0]) && Like(pat[1..], s[1..])
  }

  /** A leading `%` skips any prefix. */
  lemma {:induction false} LikeSkips(pat: string, a: string, s: string)
    requires Like(pat, s)
    ensures Like("%" + pat, a + s)
    decreases |a|
  {
    var p := "%" + pat;
    assert p[0] == '%' && p[1..] == pat;
    if a == [] {
      assert a + s == s;
    } else {
      LikeSkips(pat, a[1..], s);
      assert (a + s)[1..] == a[1..] + s;
      assert Like(p, (a + s)[1..]);
    }
  }

  /** A trailing `%` swallows any rest. */
  lemma {:induction false} LikeRest(b: string)
    ensures Like("%", b)
    decreases |b|
  {
    if b != [] {
      LikeRest(b[1..]);
    }
  }

  /** A word without wildcards, then `%`, matches that word followed by anything. */
  lemma {:induction false} LikeWordThenRest(w: string, b: string)
    requires forall i :: 0 <= i < |w| ==> w[i] != '%' && w[i] != '_'
    ensures Like(w + "%", w + b)
    decreases |w|
  {
    if w == [] {
      LikeRest(b);
      assert w + "%" == "%" && w + b == b;
    } else {
      LikeWordThenRest(w[1..], b);
      assert (w + "%")[1..] == w[1..] + "%";
      assert (w + b)[1..] == w[1..] + b;
    }
  }

  /**
   * The search finds what it is meant to: a record containing the folded query, for a query
   * of one word without wildcard characters, matches the pattern.
   */
  lemma PatternFindsWord(q: string, a: string, b: string)
    requires forall i :: 0 <= i < |q| ==> !IsWhitespace(q[i]) && q[i] != '%' && q[i] != '_'
    ensures Like(Pattern(q), a + Lower(q) + b)
  {
    var w := Lower(q);
    forall i | 0 <= i < |w| ensures w[i] != '%' && w[i] != '_' {
      assert w[i] == LowerChar(q[i]);
    }
    PatternOfWord(q);
    LikeWordThenRest(w, b);
    LikeSkips(w + "%", a, w + b);
    assert "%" + (w + "%") == Pattern(q);
    assert a + (w + b) == a + w + b;
  }

  /** A run of whitespace is skipped up to the first character that is not whitespace. */
  lemma {:induction false} SkipSpaceRun(ws: string, rest: string)
    requires forall i :: 0 <= i < |ws| ==> IsWhitespace(ws[i])
    requires rest == [] || !IsWhitespace(rest[0])
    ensures SkipSpace(ws + rest) == rest
    decreases |ws|
  {
    if ws == [] {
      assert ws + rest == rest;
    } else {
      assert (ws + rest)[1..] == ws[1..] + rest;
      SkipSpaceRun(ws[1..], rest);
    }
  }

  /** A word, then a run of whitespace: the word is kept and the whole run becomes one `%`. */
  lemma {:induction false} CollapseWordThenRun(w: string, ws: string, rest: string)
    requires forall i :: 0 <= i < |w| ==> !IsWhitespace(w[i])
    requires |ws| > 0 && forall i :: 0 <= i < |ws| ==> IsWhitespace(ws[i])
    requires rest == [] || !IsWhitespace(rest[0])
    ensures Collapse(w + ws + rest) == w + "%" + Collapse(rest)
    decreases |w|
  {
    if w == [] {
      assert w + ws + rest == ws + rest;
      assert (ws + rest)[1..] == ws[1..] + rest;
      SkipSpaceRun(ws[1..], rest);
    } else {
      assert (w + ws + rest)[1..] == w[1..] + ws + rest;
      CollapseWordThenRun(w[1..], ws, rest);
    }
  }

  /** Folding distributes over the parts of a query. */
  lemma LowerOfThree(a: string, b: string, c: string)
    ensures Lower(a + b + c) == Lower(a) + Lower(b) + Lower(c)
  {
    var l, r := Lower(a + b + c), Lower(a) + Lower(b) + Lower(c);
    forall i | 0 <= i < |l| ensures l[i] == r[i] {
      assert l[i] == LowerChar((a + b + c)[i]);
    }
  }

  /** Folding a word without whitespace leaves a word without whitespace. */
  lemma LowerKeepsWord(q: string)
    requires forall i :: 0 <= i < |q| ==> !IsWhitespace(q[i])
    ensures forall i :: 0 <= i < |Lower(q)| ==> !IsWhitespace(Lower(q)[i])
  {
    forall i | 0 <= i < |q| ensures !IsWhitespace(Lower(q)[i]) {
      LowerKeepsWhitespace(q[i]);
    }
  }

  /** Folding a run of whitespace leaves a run of whitespace. */
  lemma LowerKeepsRun(ws: string)
    requires forall i :: 0 <= i < |ws| ==> IsWhitespace(ws[i])
    ensures forall i :: 0 <= i < |Lower(ws)| ==> IsWhitespace(Lower(ws)[i])
  {
    forall i | 0 <= i < |ws| ensures IsWhitespace(Lower(ws)[i]) {
      LowerKeepsWhitespace(ws[i]);
    }
  }

  /** The pattern of a query that folds to a word, a run of whitespace and a word. */
  lemma PatternOfFolded(q: string, w1: string, run: string, w2: string)
    requires Lower(q) == w1 + run + w2
    requires forall i :: 0 <= i < |w1| ==> !IsWhitespace(w1[i])
    requires |run| > 0 && forall i :: 0 <= i < |run| ==> IsWhitespace(run[i])
    requires forall i :: 0 <= i < |w2| ==> !IsWhitespace(w2[i])
    ensures Pattern(q) == "%" + w1 + "%" + w2 + "%"
  {
    CollapseWordThenRun(w1, run, w2);
    CollapseKeepsWords(w2);
  }

  /** A query of two words separated by any run of whitespace: both folded, joined and wrapped by `%`. */
  lemma PatternOfTwoWords(q1: string, ws: string, q2: string)
    requires forall i :: 0 <= i < |q1| ==> !IsWhitespace(q1[i])
    requires |ws| > 0 && forall i :: 0 <= i < |ws| ==> IsWhitespace(ws[i])
    requires forall i :: 0 <= i < |q2| ==> !IsWhitespace(q2[i])
    ensures Pattern(q1 + ws + q2) == "%" + Lower(q1) + "%" + Lower(q2) + "%"
  {
    LowerOfThree(q1, ws, q2);
    LowerKeepsWord(q1);
    LowerKeepsRun(ws);
    LowerKeepsWord(q2);
    PatternOfFolded(q1 + ws + q2, Lower(q1), Lower(ws), Lower(q2));
  }

  /** A word without wildcards in front of a pattern matches that word in front of what the pattern matches. */
  lemma {:induction false} LikeWordThen(w: string, pat: string, s: string)
    requires forall i :: 0 <= i < |w| ==> w[i] != '%' && w[i] != '_'
    requires Like(pat, s)
    ensures Like(w + pat, w + s)
    decreases |w|
  {
    if w == [] {
      assert w + pat == pat && w + s == s;
    } else {
      LikeWordThen(w[1..], pat, s);
      assert (w + pat)[1..] == w[1..] + pat;
      assert (w + s)[1..] == w[1..] + s;
    }
  }

  /** Two words without wildcards, each wrapped by `%`, match a text holding the first and, later, the second. */
  lemma LikeTwoWords(w1: string, w2: string, a: string, m: string, b: string)
    requires forall i :: 0 <= i < |w1| ==> w1[i] != '%' && w1[i] != '_'
    requires forall i :: 0 <= i < |w2| ==> w2[i] != '%' && w2[i] != '_'
    ensures Like("%" + w1 + "%" + w2 + "%", a + w1 + m + w2 + b)
  {
    LikeWordThenRest(w2, b);
    LikeSkips(w2 + "%", m, w2 + b);
    LikeWordThen(w1, "%" + (w2 + "%"), m + (w2 + b));
    LikeSkips(w1 + ("%" + (w2 + "%")), a, w1 + (m + (w2 + b)));
    assert "%" + (w1 + ("%" + (w2 + "%"))) == "%" + w1 + "%" + w2 + "%";
    assert a + (w1 + (m + (w2 + b))) == a + w1 + m + w2 + b;
  }

  /** Folding leaves no wildcard where the query had none. */
  lemma LowerKeepsWildcards(q: string)
    requires forall i :: 0 <= i < |q| ==> q[i] != '%' && q[i] != '_'
    ensures forall i :: 0 <= i < |Lower(q)| ==> Lower(q)[i] != '%' && Lower(q)[i] != '_'
  {
  }

  /**
   * The search for two words finds what it is meant to: any record holding the first folded
   * word and, somewhere after it, the second, matches the pattern.
   */
  lemma PatternFindsTwoWords(q1: string, ws: string, q2: string, a: string, m: string, b: string)
    requires forall i :: 0 <= i < |q1| ==> !IsWhitespace(q1[i]) && q1[i] != '%' && q1[i] != '_'
    requires |ws| > 0 && forall i :: 0 <= i < |ws| ==> IsWhitespace(ws[i])
    requires forall i :: 0 <= i < |q2| ==> !IsWhitespace(q2[i]) && q2[i] != '%' && q2[i] != '_'
    ensures Like(Pattern(q1 + ws + q2), a + Lower(q1) + m + Lower(q2) + b)
  {
    PatternOfTwoWords(q1, ws, q2);
    LowerKeepsWildcards(q1);
    LowerKeepsWildcards(q2);
    LikeTwoWords(Lower(q1), Lower(q2), a, m, b);
  }

  /** The query check shared by both routes: no truthy `q`, no search. */
  function Query(q: Option<string>): (r: Reply<string>)
    ensures !Present(q) <==> r == Fail(BadRequest, "No search query")
    ensures Present(q) ==> r == Ok(Pattern(q.value))
  {
    if !Present(q) then Fail(BadRequest, "No search query") else Ok(Pattern(q.value))
  }

  /** The records whose key matches, in the order the store returns them. */
  function Matching(rows: seq<string>, pat: string): seq<string> {
    if rows == [] then []
    else (if Like(pat, rows[0]) then [rows[0]] else []) + Matching(rows[1..], pat)
  }

  /** The search answers exactly the records that match, never more than there are. */
  lemma {:induction false} MatchingMembers(rows: seq<string>, pat: string)
    ensures forall x :: x in Matching(rows, pat) <==> x in rows && Like(pat, x)
    ensures |Matching(rows, pat)| <= |rows|
  {
    if rows != [] {
      MatchingMembers(rows[1..], pat);
      assert rows == [rows[0]] + rows[1..];
    }
  }

  /** One more record at the end of the store adds at most that record at the end of the answer. */
  lemma {:induction false} MatchingSnoc(rows: seq<string>, x: string, pat: string)
    ensures Matching(rows + [x], pat) == Matching(rows, pat) + (if Like(pat, x) then [x] else [])
  {
    var hit: seq<string> := if Like(pat, x) then [x] else [];
    if rows == [] {
      assert rows + [x] == [x] && [x][1..] == [];
    } else {
      var head: seq<string> := if Like(pat, rows[0]) then [rows[0]] else [];
      assert (rows + [x])[0] == rows[0];
      assert (rows + [x])[1..] == rows[1..] + [x];
      MatchingSnoc(rows[1..], x, pat);
      assert Matching(rows + [x], pat) == head + (Matching(rows[1..], pat) + hit);
      assert head + (Matching(rows[1..], pat) + hit) == (head + Matching(rows[1..], pat)) + hit;
    }
  }

  /** The `for … of` loop that pushes each matching record, in order. */
  method Collect(rows: seq<string>, p: string) returns (found: seq<string>)
    ensures found == Matching(rows, p)
  {
    found := [];
    var i := 0;
    while i < |rows|
      invariant 0 <= i <= |rows|
      invariant found == Matching(rows[..i], p)
    {
      assert rows[..i + 1] == rows[..i] + [rows[i]];
      MatchingSnoc(rows[..i], rows[i], p);
      if Like(p, rows[i]) {
        found := found + [rows[i]];
      }
      i := i + 1;
    }
    assert rows[..i] == rows;
  }

  /**
   * `GET /search/user` and `GET /search/package` over the keys `rows` (user names or package
   * names, in store order): one entry per matched record, pushed in order.
   */
  method Find(q: Option<string>, rows: seq<string>) returns (r: Reply<seq<string>>)
    ensures !Present(q) ==> r == Fail(BadRequest, "No search query")
    ensures Present(q) ==> r == Ok(Matching(rows, Pattern(q.value)))
  {
    var pat := Query(q);
    if pat.Fail? {
      return Fail(pat.kind, pat.message);
    }
    var found := Collect(rows, pat.value);
    r := Ok(found);
  }
}
