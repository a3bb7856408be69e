/** Character and string operations the user tools rely on: SQLite's `LIKE`
    operator (ASCII case folding, `%` and `_` wildcards, no ESCAPE clause) and
    Python's `str.join` / `str.split` on a single separator character. */
module Text {

  /** SQLite folds only the 26 ASCII upper-case letters when comparing under LIKE. */
  function FoldChar(c: char): char
  {
    if 'A' <= c <= 'Z' then (c as int + 32) as char else c
  }

  /** `Like(p, s)` is SQLite's `s LIKE p`: `%` matches any run of characters
      (possibly empty), `_` matches exactly one character, and every other
      character matches itself up to ASCII case. So every character of the
      pattern other than `%` consumes one character of the string. */
  function Like(p: string, s: string): (r: bool)
    ensures r ==> |p| - multiset(p)['%'] <= |s|
    ensures r && '%' !in p ==> |s| == |p|
    decreases |p| + |s|
  {
    if p == [] then s == []
    else
      assert p == [p[0]] + p[1..];
      if p[0] == '%' then Like(p[1..], s) || (|s| > 0 && Like(p, s[1..]))
      else |s| > 0 && (p[0] == '_' || FoldChar(p[0]) == FoldChar(s[0])) && Like(p[1..], s[1..])
  }

  /** The query text carries none of LIKE's wildcard characters. */
  predicate NoWildcards(q: string)
  {
    '%' !in q && '_' !in q
  }

  /** Reference definitions, independent of the matcher: `q` is a prefix of `s`,
      and `q` occurs somewhere in `s`, both up to ASCII case. */
  predicate FoldedPrefix(q: string, s: string)
  {
    |q| <= |s| && forall i | 0 <= i < |q| :: FoldChar(q[i]) == FoldChar(s[i])
  }

  predicate FoldedContains(s: string, q: string)
  {
    exists k | 0 <= k <= |s| - |q| :: FoldedPrefix(q, s[k..])
  }

  /** A lone `%` matches every string. */
  lemma {:induction false} PercentMatchesAll(s: string)
    ensures Like("%", s)
    decreases |s|
  {
    if |s| > 0 {
      PercentMatchesAll(s[1..]);
    }
  }

  /** For a query without wildcards, `q%` is exactly a case-insensitive prefix test. */
  lemma {:induction false} LikePrefix(q: string, s: string)
    requires NoWildcards(q)
    ensures Like(q + "%", s) <==> FoldedPrefix(q, s)
    decreases |q|
  {
    var p := q + "%";
    if q == [] {
      assert p == "%";
      PercentMatchesAll(s);
    } else {
      assert p[0] == q[0] && p[1..] == q[1..] + "%";
      assert q[0] in q;
      LikePrefix(q[1..], if |s| > 0 then s[1..] else s);
      if |s| > 0 && FoldChar(q[0]) == FoldChar(s[0]) && FoldedPrefix(q[1..], s[1..]) {
        forall i | 0 <= i < |q| ensures FoldChar(q[i]) == FoldChar(s[i]) {
          if i > 0 {
            assert q[1..][i - 1] == q[i] && s[1..][i - 1] == s[i];
          }
        }
      }
      if FoldedPrefix(q, s) {
        assert |s| > 0 && FoldChar(q[0]) == FoldChar(s[0]);
        forall i | 0 <= i < |q| - 1 ensures FoldChar(q[1..][i]) == FoldChar(s[1..][i]) {
          assert q[1..][i] == q[i + 1] && s[1..][i] == s[i + 1];
        }
      }
    }
  }

  /** For a query without wildcards, `%q%` is exactly case-insensitive substring containment. */
  lemma {:induction false} LikeContains(q: string, s: string)
    requires NoWildcards(q)
    ensures Like("%" + q + "%", s) <==> FoldedContains(s, q)
    decreases |s|
  {
    var p := "%" + q + "%";
    assert p[0] == '%' && p[1..] == q + "%";
    assert Like(p, s) <==> Like(q + "%", s) || (|s| > 0 && Like(p, s[1..]));
    LikePrefix(q, s);
    assert s[0..] == s;
    if |s| > 0 {
      LikeContains(q, s[1..]);
      ContainsShift(q, s);
    }
  }

  /** An occurrence in `s` is an occurrence at the front or one in `s[1..]`. */
  lemma ContainsShift(q: string, s: string)
    requires |s| > 0
    ensures FoldedContains(s, q) <==> FoldedPrefix(q, s) || FoldedContains(s[1..], q)
  {
    assert s[0..] == s;
    if FoldedContains(s, q) && !FoldedPrefix(q, s) {
      var k :| 0 <= k <= |s| - |q| && FoldedPrefix(q, s[k..]);
      assert s[1..][k - 1..] == s[k..];
    }
    if FoldedContains(s[1..], q) {
      var k :| 0 <= k <= |s[1..]| - |q| && FoldedPrefix(q, s[1..][k..]);
      assert s[1..][k..] == s[k + 1..];
    }
  }

  /** A pattern followed by `%` matches any string it is a prefix of, wildcards included:
      `%` and `_` in the pattern also match themselves. */
  lemma {:induction false} LikeSelfPrefix(p: string, t: string)
    ensures Like(p + "%", p + t)
    decreases |p|
  {
    if p == [] {
      assert p + "%" == "%" && p + t == t;
      PercentMatchesAll(t);
    } else {
      var pat, str := p + "%", p + t;
      assert pat[0] == p[0] && pat[1..] == p[1..] + "%";
      assert str[0] == p[0] && str[1..] == p[1..] + t;
      LikeSelfPrefix(p[1..], t);
      if p[0] == '%' {
        assert Like(pat, str[1..]);
      }
    }
  }

  /** Python's `sep.join(lines)`. */
  function Join(lines: seq<string>, sep: char): (r: string)
    ensures |lines| > 0 ==> lines[0] <= r
    ensures |lines| > 0 ==> |lines[|lines| - 1]| <= |r| && r[|r| - |lines[|lines| - 1]|..] == lines[|lines| - 1]
  {
    if |lines| == 0 then ""
    else if |lines| == 1 then lines[0]
    else lines[0] + [sep] + Join(lines[1..], sep)
  }

  /** Python's `s.split(sep)`: the pieces between separators, always at least one. */
  function Split(s: string, sep: char): (parts: seq<string>)
    ensures |parts| == multiset(s)[sep] + 1
    decreases |s|
  {
    if |s| == 0 then [""]
    else
      var rest := Split(s[1..], sep);
      assert s == [s[0]] + s[1..];
      if s[0] == sep then [""] + rest
      else [[s[0]] + rest[0]] + rest[1..]
  }

  /** A piece free of separators, followed by a separator, splits off as one piece. */
  lemma {:induction false} SplitAfterPiece(a: string, b: string, sep: char)
    requires sep !in a
    ensures Split(a + [sep] + b, sep) == [a] + Split(b, sep)
    ensures Split(a, sep) == [a]
    decreases |a|
  {
    var s := a + [sep] + b;
    if a == [] {
      assert s[0] == sep && s[1..] == b;
    } else {
      assert s[0] == a[0] && s[1..] == a[1..] + [sep] + b;
      assert a[0] in a;
      assert a == [a[0]] + a[1..];
      SplitAfterPiece(a[1..], b, sep);
    }
  }

  /** Splitting undoes joining, when no line contains the separator. */
  lemma {:induction false} SplitJoin(lines: seq<string>, sep: char)
    requires |lines| > 0
    requires forall i | 0 <= i < |lines| :: sep !in lines[i]
    ensures Split(Join(lines, sep), sep) == lines
    decreases |lines|
  {
    if |lines| == 1 {
      SplitAfterPiece(lines[0], "", sep);
    } else {
      SplitJoin(lines[1..], sep);
      SplitAfterPiece(lines[0], Join(lines[1..], sep), sep);
      assert lines == [lines[0]] + lines[1..];
    }
  }

  /** Joining one more line appends a separator and that line. */
  lemma {:induction false} JoinAppend(lines: seq<string>, x: string, sep: char)
    requires |lines| > 0
    ensures Join(lines + [x], sep) == Join(lines, sep) + [sep] + x
    decreases |lines|
  {
    var l := lines + [x];
    assert l[0] == lines[0] && l[1..] == lines[1..] + [x];
    if |lines| > 1 {
      JoinAppend(lines[1..], x, sep);
    }
  }
}
