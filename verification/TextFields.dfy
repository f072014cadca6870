/**
 The split of a text at a separator.
 `Split` and `Join` are the reference view of both address grammars: the scanners
 of the codecs never split anything, they read one character after the other.
 */
module TextFields {

  /** The fields of `s` between occurrences of `sep`; always at least one. */
  function Split(s: string, sep: char): (f: seq<string>)
    ensures |f| >= 1
  {
    if s == "" then [""] else
      var f := Split(s[..|s| - 1], sep);
      var c := s[|s| - 1];
      if c == sep then f + [""] else f[|f| - 1 := f[|f| - 1] + [c]]
  }

  function Join(f: seq<string>, sep: char): string
    requires |f| >= 1
  {
    if |f| == 1 then f[0] else Join(f[..|f| - 1], sep) + [sep] + f[|f| - 1]
  }

  ghost predicate Free(f: seq<string>, sep: char) {
    forall i :: 0 <= i < |f| ==> sep !in f[i]
  }

  /** One more character either extends the last field or opens a new one. */
  lemma {:induction false} SplitSnoc(s: string, c: char, sep: char)
    ensures var f := Split(s, sep);
            Split(s + [c], sep) == if c == sep then f + [""] else f[|f| - 1 := f[|f| - 1] + [c]]
  {
    assert (s + [c])[..|s|] == s;
  }

  lemma {:induction false} JoinExtendLast(f: seq<string>, r: string, sep: char)
    requires |f| >= 1
    ensures Join(f[|f| - 1 := f[|f| - 1] + r], sep) == Join(f, sep) + r
  {
    if |f| > 1 {
      assert f[|f| - 1 := f[|f| - 1] + r][..|f| - 1] == f[..|f| - 1];
    }
  }

  /** Splitting loses nothing, and no field holds the separator. */
  lemma {:induction false} JoinSplit(s: string, sep: char)
    ensures Join(Split(s, sep), sep) == s
    ensures Free(Split(s, sep), sep)
  {
    if s != "" {
      var p, c := s[..|s| - 1], s[|s| - 1];
      JoinSplit(p, sep);
      var f := Split(p, sep);
      assert s == p + [c];
      if c == sep {
        assert (f + [""])[..|f|] == f;
      } else {
        JoinExtendLast(f, [c], sep);
      }
    }
  }

  /** Fields without separators are recovered: with JoinSplit, the two are inverse. */
  lemma {:induction false} SplitJoin(f: seq<string>, sep: char)
    requires |f| >= 1 && Free(f, sep)
    ensures Split(Join(f, sep), sep) == f
    decreases |Join(f, sep)|
  {
    var n := |f| - 1;
    var last := f[n];
    if last != "" {
      var l, c := last[..|last| - 1], last[|last| - 1];
      assert last == l + [c];
      var g := f[n := l];
      assert g[n := g[n] + [c]] == f;
      JoinExtendLast(g, [c], sep);
      assert c in f[n];
      assert forall x :: x in l ==> x in last;
      SplitJoin(g, sep);
      SplitSnoc(Join(g, sep), c, sep);
    } else if n == 0 {
      assert f == [""];
    } else {
      var g := f[..n];
      assert Join(f, sep) == Join(g, sep) + [sep];
      SplitJoin(g, sep);
      SplitSnoc(Join(g, sep), sep, sep);
      assert f == g + [""];
    }
  }

  /** Text without the separator only grows the last field. */
  lemma {:induction false} SplitAppend(p: string, r: string, sep: char)
    requires sep !in r
    ensures var f := Split(p, sep);
            Split(p + r, sep) == f[|f| - 1 := f[|f| - 1] + r]
  {
    var f := Split(p, sep);
    if r == "" {
      assert p + r == p;
      assert f[|f| - 1] + r == f[|f| - 1];
    } else {
      var q, c := r[..|r| - 1], r[|r| - 1];
      assert p + r == (p + q) + [c] && f[|f| - 1] + r == (f[|f| - 1] + q) + [c];
      SplitAppend(p, q, sep);
      SplitSnoc(p + q, c, sep);
    }
  }

  /** The fields of a prefix: all but the last are fields of the whole, and
      the last is a prefix of the field in its place. */
  lemma {:induction false} SplitPrefix(p: string, r: string, sep: char)
    ensures var f, g := Split(p, sep), Split(p + r, sep);
            && |f| <= |g| && f[..|f| - 1] == g[..|f| - 1] && f[|f| - 1] <= g[|f| - 1]
            && (|g| > |f| <==> sep in r)
  {
    if r == "" {
      assert p + r == p;
    } else {
      var q, c := r[..|r| - 1], r[|r| - 1];
      assert p + r == (p + q) + [c];
      SplitPrefix(p, q, sep);
      SplitSnoc(p + q, c, sep);
      assert r == q + [c];
    }
  }

  /** A text without the separator is its own single field. */
  lemma {:induction false} SplitSingle(s: string, sep: char)
    requires sep !in s
    ensures Split(s, sep) == [s]
  {
    SplitAppend("", s, sep);
    assert "" + s == s;
  }
}
