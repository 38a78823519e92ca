/** Zim headings (converter.py:109-120): a line wrapped in two to six `=`
    marks on both sides, `====== Title ======` being the top level. The
    pattern `^(={2,6})\s*(.*?)\s*(?P=eq)\s*$` is decided here without a
    regular-expression engine: the mark count is tried from the longest
    down, as the greedy `={2,6}` does, and for a given count the closing
    marks can only sit just before the trailing whitespace. */
module Headings {
  import opened Wrappers
  import opened Strings

  /** `"=" * n`. */
  function Marks(n: nat): string {
    Repeat('=', n)
  }

  /** `max(1, min(7 - n, 6))`, the Markdown level for `n` marks. */
  function Level(n: nat): nat {
    var level := 7 - n;
    if level > 6 then 6 else if level < 1 then 1 else level
  }

  /** The heading the pattern yields when its `eq` group takes exactly `n`
      marks, if it matches that way. */
  function HeadingWith(line: Line, n: nat): Option<string>
    requires 2 <= n <= 6
  {
    if |line| < n || line[..n] != Marks(n) then None
    else
      var u := RStrip(line[n..]);
      if |u| < n || u[|u| - n..] != Marks(n) then None
      else
        var title := RStrip(LStrip(u[..|u| - n]));
        Some(Repeat('#', Level(n)) + " " + Strip(title))
  }

  /** Try `n` marks, then fewer, down to two. */
  function TryMarks(line: Line, n: nat): Option<string>
    requires n <= 6
  {
    if n < 2 then None
    else match HeadingWith(line, n)
      case Some(h) => Some(h)
      case None => TryMarks(line, n - 1)
  }

  /** `zim_heading_to_md`. */
  function ZimHeading(line: Line): Option<string> {
    TryMarks(line, 6)
  }

  /** The shape the pattern describes: `n` marks, whitespace, a title,
      whitespace, the same `n` marks, whitespace. */
  predicate Wrapped(line: string, n: nat, a: string, t: string, b: string, c: string) {
    && 2 <= n <= 6
    && line == Marks(n) + a + t + b + Marks(n) + c
    && AllSpace(a) && AllSpace(b) && AllSpace(c)
  }

  lemma MarksEnd(n: nat)
    requires n > 0
    ensures !IsSpace(Marks(n)[n - 1])
  {
  }

  /** A line of the wrapped shape matches with `n` marks, and the title is
      the stripped middle. */
  lemma WrappedMatches(line: Line, n: nat, a: string, t: string, b: string, c: string)
    requires Wrapped(line, n, a, t, b, c)
    ensures HeadingWith(line, n) == Some(Repeat('#', Level(n)) + " " + Strip(t))
  {
    WrappedParts(line, n, a, t, b, c);
    ClosingMarks(a + t + b, n, c);
    StripPadded(a, t, b);
    StripTwice(a + t + b);
  }

  lemma WrappedParts(line: Line, n: nat, a: string, t: string, b: string, c: string)
    requires Wrapped(line, n, a, t, b, c)
    ensures line[..n] == Marks(n) && line[n..] == a + t + b + Marks(n) + c
  {
    Regroup6(Marks(n), a, t, b, Marks(n), c);
  }

  /** After the closing marks only whitespace follows, so stripping it
      leaves the marks at the very end. */
  lemma ClosingMarks(v: string, n: nat, c: string)
    requires n > 0 && AllSpace(c)
    ensures var u := RStrip(v + Marks(n) + c);
      u == v + Marks(n) && u[..|u| - n] == v && u[|u| - n..] == Marks(n)
  {
    RStripPadded(v + Marks(n), c);
    MarksEnd(n);
  }

  lemma StripTwice(s: string)
    ensures Strip(RStrip(LStrip(s))) == Strip(s)
  {
    var r := Strip(s);
    if r != [] {
      assert LStrip(r) == r;
    } else {
      assert LStrip(r) == [];
    }
  }

  /** Whenever some count of marks matches, the search finds a heading. */
  lemma {:induction false} TryMarksFinds(line: Line, k: nat, n: nat)
    requires 2 <= n <= k <= 6
    requires HeadingWith(line, n).Some?
    ensures TryMarks(line, k).Some?
    decreases k
  {
    if k > n && HeadingWith(line, k).None? {
      TryMarksFinds(line, k - 1, n);
    }
  }

  /** Every wrapped line is a heading: `None` only for lines that have the
      shape for no mark count. */
  lemma WrappedIsHeading(line: Line, n: nat, a: string, t: string, b: string, c: string)
    requires Wrapped(line, n, a, t, b, c)
    ensures ZimHeading(line).Some?
  {
    WrappedMatches(line, n, a, t, b, c);
    TryMarksFinds(line, 6, n);
  }

  /** A heading with an unambiguous mark count: when the title side does not
      begin with another `=`, the line has exactly `n` leading marks, so the
      heading has `7 - n` hashes, a space and the stripped title. Six marks
      give `# `, two give `##### `. */
  lemma HeadingLevel(line: Line, n: nat, a: string, t: string, b: string, c: string)
    requires Wrapped(line, n, a, t, b, c)
    requires a + t != [] && (a + t)[0] != '='
    ensures ZimHeading(line) == Some(Repeat('#', 7 - n) + " " + Strip(t))
  {
    assert line[n] == (a + t)[0];
    WrappedMatches(line, n, a, t, b, c);
    MoreMarksFail(line, 6, n);
  }

  lemma {:induction false} MoreMarksFail(line: Line, k: nat, n: nat)
    requires 2 <= n <= k <= 6 && n < |line| && line[n] != '='
    requires HeadingWith(line, n).Some?
    ensures TryMarks(line, k) == HeadingWith(line, n)
    decreases k
  {
    if k > n {
      if |line| >= k {
        assert line[..k][n] == line[n];
        assert Marks(k)[n] == '=';
      }
      MoreMarksFail(line, k - 1, n);
    }
  }

  /** Every heading comes from a wrapped line: some mark count `n` and a
      decomposition of the line such that the heading is `Level(n)` hashes,
      a space and the stripped title. */
  lemma HeadingIsWrapped(line: Line)
    requires ZimHeading(line).Some?
    ensures exists n: nat, a, t, b, c :: (Wrapped(line, n, a, t, b, c)
      && ZimHeading(line).value == Repeat('#', Level(n)) + " " + Strip(t))
  {
    var n := FoundAt(line, 6);
    var v := WrappedOf(line, n);
  }

  /** The mark count the search succeeds with. */
  lemma {:induction false} FoundAt(line: Line, k: nat) returns (n: nat)
    requires k <= 6 && TryMarks(line, k).Some?
    ensures 2 <= n <= k && HeadingWith(line, n) == TryMarks(line, k)
    decreases k
  {
    if HeadingWith(line, k).Some? {
      n := k;
    } else {
      n := FoundAt(line, k - 1);
    }
  }

  /** The decomposition behind a match with `n` marks. */
  lemma WrappedOf(line: Line, n: nat) returns (t: string)
    requires 2 <= n <= 6 && HeadingWith(line, n).Some?
    ensures exists a, b, c :: Wrapped(line, n, a, t, b, c)
    ensures HeadingWith(line, n).value == Repeat('#', Level(n)) + " " + Strip(t)
  {
    var v, c := ClosingOf(line, n);
    var a, b;
    a, t, b := StripSplit(v);
    Rejoin(line, Marks(n), v + Marks(n) + c, v, a, t, b, c);
    assert Wrapped(line, n, a, t, b, c);
  }

  /** A match with `n` marks: the marks, the part before the closing marks,
      the closing marks and trailing whitespace. */
  lemma ClosingOf(line: Line, n: nat) returns (v: string, c: string)
    requires 2 <= n <= 6 && HeadingWith(line, n).Some?
    ensures line == Marks(n) + (v + Marks(n) + c) && AllSpace(c)
    ensures HeadingWith(line, n).value == Repeat('#', Level(n)) + " " + Strip(RStrip(LStrip(v)))
  {
    var r := line[n..];
    var u := RStrip(r);
    OpenedClosed(line, n);
    v := u[..|u| - n];
    c := r[|u|..];
    ClosingSplit(r, u, n);
    Cut(line, n);
  }

  /** A match has the marks at the start and again before the trailing
      whitespace. */
  lemma OpenedClosed(line: Line, n: nat)
    requires 2 <= n <= 6 && HeadingWith(line, n).Some?
    ensures var u := RStrip(line[n..]);
      line[..n] == Marks(n) && n <= |u| && u[|u| - n..] == Marks(n)
  {
  }

  lemma ClosingSplit(r: string, u: string, n: nat)
    requires u == RStrip(r) && n <= |u| && u[|u| - n..] == Marks(n)
    ensures r == u[..|u| - n] + Marks(n) + r[|u|..] && AllSpace(r[|u|..])
  {
    assert u == u[..|u| - n] + Marks(n);
    assert r == u + r[|u|..];
  }

  /** A string is its leading whitespace, its stripped form and its
      trailing whitespace. */
  lemma StripSplit(v: string) returns (a: string, t: string, b: string)
    ensures v == a + t + b && AllSpace(a) && AllSpace(b) && t == RStrip(LStrip(v))
  {
    var l := LStrip(v);
    t := RStrip(l);
    a := v[..|v| - |l|];
    b := l[|t|..];
    Cut(l, |t|);
    Cut(v, |v| - |l|);
    AppendAssoc(a, t, b);
  }

  lemma Cut(s: string, k: nat)
    requires k <= |s|
    ensures s == s[..k] + s[k..]
  {
  }

  lemma Rejoin(line: string, m: string, r: string, v: string, a: string, t: string, b: string, c: string)
    requires line == m + r && r == v + m + c && v == a + t + b
    ensures line == m + a + t + b + m + c
  {
    Regroup6(m, a, t, b, m, c);
  }

  /** A line that does not start with `=` is no heading. */
  lemma NotHeading(line: Line)
    requires line == [] || line[0] != '='
    ensures ZimHeading(line).None?
  {
    UnmarkedTry(line, 6);
  }

  lemma {:induction false} UnmarkedTry(line: Line, n: nat)
    requires n <= 6 && (line == [] || line[0] != '=')
    ensures TryMarks(line, n).None?
  {
    if n >= 2 {
      if |line| >= n {
        assert line[..n][0] != Marks(n)[0];
      }
      UnmarkedTry(line, n - 1);
    }
  }

  /** `====== t ======` is the top-level heading `# t`. */
  lemma TopHeading(line: Line, t: string)
    requires line == "====== " + t + " ======"
    requires t != [] && !IsSpace(t[0]) && !IsSpace(t[|t| - 1])
    ensures ZimHeading(line) == Some("# " + t)
  {
    SixMarks(t);
    HeadingLevel(line, 6, " ", t, " ", "");
    StrippedAlready(t);
    OneHash(t);
  }

  lemma SixMarks(t: string)
    ensures "====== " + t + " ======" == Marks(6) + " " + t + " " + Marks(6) + ""
  {
    assert Marks(6) == "======";
  }

  lemma OneHash(t: string)
    ensures Repeat('#', 7 - 6) + " " + t == "# " + t
  {
    assert Repeat('#', 1) == "#";
  }
}
