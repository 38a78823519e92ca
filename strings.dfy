/** The pieces of Python's `str` that the converter relies on: whitespace,
    `strip`, `replace`, `join`, `split`, `splitlines`, `lower` and `in`. */
module Strings {
  import opened Wrappers

  /** One physical line, as `str.splitlines` yields it. Every line rule of the
      converter only ever sees such a line, so in its regular expressions `.`
      matches any character and `$` is the end of the line. */
  type Line = s: string | '\n' !in s

  /** Python's `str.isspace`, which is also the class `\s` of a `str` pattern. */
  predicate IsSpace(c: char) {
    || ('\t' <= c <= '\r')
    || ('\U{1c}' <= c <= '\U{1f}')
    || c == ' ' || c == '\U{85}' || c == '\U{a0}' || c == '\U{1680}'
    || ('\U{2000}' <= c <= '\U{200a}')
    || c == '\U{2028}' || c == '\U{2029}' || c == '\U{202f}' || c == '\U{205f}' || c == '\U{3000}'
  }

  predicate AllSpace(s: string) {
    forall i :: 0 <= i < |s| ==> IsSpace(s[i])
  }

  /** `\d` restricted to the ASCII digits. */
  predicate IsDigit(c: char) {
    '0' <= c <= '9'
  }

  /** A prefix is a shorter prefix and the piece between them. */
  lemma PrefixCut(s: string, i: nat, j: nat)
    requires i <= j <= |s|
    ensures s[..j] == s[..i] + s[i..j]
  {
  }

  /** A string is the concatenation of its pieces between ascending cut points. */
  lemma Pieces6(s: string, i: nat, j: nat, k: nat, l: nat, m: nat)
    requires i <= j <= k <= l <= m <= |s|
    ensures s == s[..i] + s[i..j] + s[j..k] + s[k..l] + s[l..m] + s[m..]
  {
    PrefixCut(s, i, j);
    PrefixCut(s, j, k);
    PrefixCut(s, k, l);
    PrefixCut(s, l, m);
    PrefixCut(s, m, |s|);
    assert s[..|s|] == s;
  }

  /** No newline in any piece, none in their concatenation. */
  lemma NoNewline4(a: string, b: string, c: string, d: string)
    requires '\n' !in a && '\n' !in b && '\n' !in c && '\n' !in d
    ensures '\n' !in a + b + c + d
  {
  }

  /** `str.lstrip()`: what follows the leading whitespace. */
  function LStrip(s: string): string {
    s[RunEnd(s, 0, IsSpace)..]
  }

  /** `str.rstrip()`: what precedes the trailing whitespace. */
  function RStrip(s: string): string {
    s[..RunBack(s, |s|, IsSpace)]
  }

  /** `str.strip()`. */
  function Strip(s: string): string {
    RStrip(LStrip(s))
  }

  /** `strip` keeps a first character that is not whitespace. */
  lemma StripFirst(s: string)
    requires s != [] && !IsSpace(s[0])
    ensures Strip(s) != [] && Strip(s)[0] == s[0]
  {
    RunEndAt(s, 0, 0, IsSpace);
    assert LStrip(s) == s;
  }

  /** A stripped string neither starts nor ends with whitespace. */
  lemma StripEnds(s: string)
    ensures var r := Strip(s); r == [] || (!IsSpace(r[0]) && !IsSpace(r[|r| - 1]))
  {
    var l := LStrip(s);
    var r := RStrip(l);
    if r != [] {
      assert r[0] == l[0];
    }
  }

  /** Stripping adds no character. */
  lemma StripWithout(s: string, c: char)
    requires c !in s
    ensures c !in Strip(s)
  {
    var l := LStrip(s);
    assert l == s[|s| - |l|..];
    assert RStrip(l) == l[..|RStrip(l)|];
  }

  /** A string that neither starts nor ends with whitespace is stripped. */
  lemma StrippedAlready(s: string)
    requires s == [] || (!IsSpace(s[0]) && !IsSpace(s[|s| - 1]))
    ensures Strip(s) == s
  {
  }

  /** A string that does not start with `c` keeps all of it under `lstrip(c)`. */
  lemma LStripCharNone(s: string, c: char)
    requires s == [] || s[0] != c
    ensures LStripChar(s, c) == s
  {
  }

  /** A string strips to nothing exactly when it is all whitespace. */
  lemma StripEmpty(s: string)
    ensures Strip(s) == "" <==> AllSpace(s)
  {
    var l := LStrip(s);
    if Strip(s) == "" {
      assert AllSpace(l[0..]);
      assert l == [];
      assert s[..|s|] == s;
    }
  }

  /** Leading whitespace in front of `x` does not change its `lstrip`. */
  lemma {:induction false} LStripPadded(a: string, x: string)
    requires AllSpace(a)
    ensures LStrip(a + x) == LStrip(x)
  {
    if a != [] {
      assert (a + x)[1..] == a[1..] + x;
      LStripPadded(a[1..], x);
    } else {
      assert a + x == x;
    }
  }

  /** Trailing whitespace after `x` does not change its `rstrip`. */
  lemma {:induction false} RStripPadded(x: string, c: string)
    requires AllSpace(c)
    ensures RStrip(x + c) == RStrip(x)
  {
    if c != [] {
      assert (x + c)[..|x + c| - 1] == x + c[..|c| - 1];
      RStripPadded(x, c[..|c| - 1]);
    } else {
      assert x + c == x;
    }
  }

  /** `lstrip` leaves what follows the first non-space character alone. */
  lemma LStripAppend(x: string, y: string)
    requires LStrip(x) != []
    ensures LStrip(x + y) == LStrip(x) + y
  {
    var e := RunEnd(x, 0, IsSpace);
    forall k | 0 <= k < e ensures IsSpace((x + y)[k]) {
      assert (x + y)[k] == x[k];
    }
    assert (x + y)[e] == x[e];
    RunEndAt(x + y, 0, e, IsSpace);
    assert (x + y)[e..] == x[e..] + y;
  }

  /** `strip` ignores whitespace around its argument. */
  lemma StripPadded(a: string, t: string, b: string)
    requires AllSpace(a) && AllSpace(b)
    ensures Strip(a + t + b) == Strip(t)
  {
    assert a + t + b == a + (t + b);
    LStripPadded(a, t + b);
    if LStrip(t) != [] {
      LStripAppend(t, b);
      RStripPadded(LStrip(t), b);
    } else {
      assert AllSpace(t) by {
        assert t[..|t|] == t;
      }
      AllSpaceAppend(t, b);
      AllSpaceLStrip(t + b);
    }
  }

  lemma AllSpaceAppend(x: string, y: string)
    requires AllSpace(x) && AllSpace(y)
    ensures AllSpace(x + y)
  {
  }

  lemma AllSpaceLStrip(s: string)
    requires AllSpace(s)
    ensures LStrip(s) == []
  {
  }

  /** The characters equal to `c`. */
  function Is(c: char): char -> bool {
    x => x == c
  }

  /** `str.lstrip(c)` for a one-character argument. */
  function LStripChar(s: string, c: char): string {
    s[RunEnd(s, 0, Is(c))..]
  }

  /** `str.rstrip(c)` for a one-character argument. */
  function RStripChar(s: string, c: char): string {
    s[..RunBack(s, |s|, Is(c))]
  }

  /** `str.strip(c)` for a one-character argument. */
  function StripChar(s: string, c: char): string {
    RStripChar(LStripChar(s, c), c)
  }

  /** `str.replace(c, with)` for a one-character pattern: every `c` becomes `with`. */
  function Replace(s: string, c: char, with: string): (r: string)
    ensures c !in s ==> r == s
    ensures |with| == 1 ==> |r| == |s|
  {
    if s == [] then [] else (if s[0] == c then with else [s[0]]) + Replace(s[1..], c, with)
  }

  lemma {:induction false} ReplaceAppend(a: string, b: string, c: char, with: string)
    ensures Replace(a + b, c, with) == Replace(a, c, with) + Replace(b, c, with)
  {
    if a != [] {
      assert (a + b)[1..] == a[1..] + b;
      ReplaceAppend(a[1..], b, c, with);
    } else {
      assert a + b == b;
    }
  }

  /** With a one-character replacement the string keeps its length and every
      position holds the old character, or the replacement where `c` was. */
  lemma {:induction false} ReplaceAt(s: string, c: char, d: char, i: nat)
    requires i < |s|
    ensures |Replace(s, c, [d])| == |s|
    ensures Replace(s, c, [d])[i] == if s[i] == c then d else s[i]
  {
    if i > 0 {
      ReplaceAt(s[1..], c, d, i - 1);
    }
  }

  lemma {:induction false} ReplaceRemoves(s: string, c: char, with: string)
    requires c !in with
    ensures c !in Replace(s, c, with)
  {
    if s != [] {
      ReplaceRemoves(s[1..], c, with);
    }
  }

  /** A character absent from the string and from the replacement is absent
      from the result. */
  lemma {:induction false} ReplaceKeeps(s: string, c: char, with: string, d: char)
    requires d !in s && d !in with
    ensures d !in Replace(s, c, with)
  {
    if s != [] {
      ReplaceKeeps(s[1..], c, with, d);
    }
  }

  /** `s.count(c)` for a one-character argument. */
  function Count(s: string, c: char): nat {
    if s == [] then 0 else (if s[0] == c then 1 else 0) + Count(s[1..], c)
  }

  /** A two-character replacement adds one character for each one replaced. */
  lemma {:induction false} ReplaceLength(s: string, c: char, with: string)
    requires |with| == 2
    ensures |Replace(s, c, with)| == |s| + Count(s, c)
  {
    if s != [] {
      ReplaceLength(s[1..], c, with);
    }
  }

  /** `f` applied to every element, in order. */
  function MapSeq<S, T>(f: S -> T, s: seq<S>): seq<T> {
    if s == [] then [] else MapSeq(f, s[..|s| - 1]) + [f(s[|s| - 1])]
  }

  lemma {:induction false} MapSeqAt<S, T>(f: S -> T, s: seq<S>)
    ensures |MapSeq(f, s)| == |s|
    ensures forall i :: 0 <= i < |s| ==> MapSeq(f, s)[i] == f(s[i])
  {
    if s != [] {
      MapSeqAt(f, s[..|s| - 1]);
    }
  }

  /** Extending the input by one element extends the result by its image. */
  lemma MapSeqSnoc<S, T>(f: S -> T, s: seq<S>, i: nat)
    requires i < |s|
    ensures MapSeq(f, s[..i + 1]) == MapSeq(f, s[..i]) + [f(s[i])]
  {
    assert s[..i + 1][..i] == s[..i];
  }

  lemma MapSeqThree<S, T>(f: S -> T, s: seq<S>, a: S, b: S)
    requires s == [a, b, a]
    ensures MapSeq(f, s) == [f(a), f(b), f(a)]
  {
    assert s[..0] == [];
    MapSeqSnoc(f, s, 0);
    MapSeqSnoc(f, s, 1);
    MapSeqSnoc(f, s, 2);
    assert s[..3] == s;
  }

  /** `sep.join(parts)`. */
  function Join(sep: string, parts: seq<string>): string {
    if |parts| == 0 then ""
    else if |parts| == 1 then parts[0]
    else parts[0] + sep + Join(sep, parts[1..])
  }

  lemma AppendAssoc<T>(a: seq<T>, b: seq<T>, c: seq<T>)
    ensures a + (b + c) == a + b + c
  {
  }

  /** Regrouping a six-part concatenation around its first part. */
  lemma Regroup6<T>(p: seq<T>, a: seq<T>, t: seq<T>, b: seq<T>, q: seq<T>, c: seq<T>)
    ensures p + a + t + b + q + c == p + (a + t + b + q + c)
  {
    AppendAssoc(p, a, t);
    AppendAssoc(p, a + t, b);
    AppendAssoc(p, a + t + b, q);
    AppendAssoc(p, a + t + b + q, c);
  }

  /** Joining a list with one more part at the end appends the separator and
      that part. */
  lemma {:induction false} JoinSnoc(sep: string, parts: seq<string>, x: string)
    ensures Join(sep, parts + [x]) == if parts == [] then x else Join(sep, parts) + sep + x
  {
    if |parts| == 1 {
      assert parts + [x] == [parts[0], x];
    } else if |parts| > 1 {
      assert (parts + [x])[1..] == parts[1..] + [x];
      JoinSnoc(sep, parts[1..], x);
    }
  }

  /** The position of the first `c` in `s`. */
  function Find(s: string, c: char): (r: Option<nat>)
    ensures r.None? <==> c !in s
    ensures r.Some? ==> r.value < |s| && s[r.value] == c && c !in s[..r.value]
  {
    if s == [] then None
    else if s[0] == c then Some(0)
    else match Find(s[1..], c)
      case None => None
      case Some(i) => assert s[..i + 1] == [s[0]] + s[1..][..i]; Some(i + 1)
  }

  /** The first `c` is the one with no `c` before it. */
  lemma FindAt(s: string, c: char, i: nat)
    requires i < |s| && s[i] == c && c !in s[..i]
    ensures Find(s, c) == Some(i)
  {
  }

  /** The position of the last `c` in `s` (Python's `rfind`, with -1 as None). */
  function FindLast(s: string, c: char): (r: Option<nat>)
    ensures r.None? <==> c !in s
    ensures r.Some? ==> r.value < |s| && s[r.value] == c && c !in s[r.value + 1..]
  {
    if s == [] then None
    else if s[|s| - 1] == c then Some(|s| - 1)
    else match FindLast(s[..|s| - 1], c)
      case None => None
      case Some(i) => assert s[i + 1..] == s[..|s| - 1][i + 1..] + [s[|s| - 1]]; Some(i)
  }

  /** `s.split(c)`: the pieces between the separators, at least one. */
  function Split(s: string, c: char): (parts: seq<string>)
    ensures |parts| >= 1
    ensures forall i :: 0 <= i < |parts| ==> c !in parts[i]
    decreases |s|
  {
    match Find(s, c)
    case None => [s]
    case Some(i) => [s[..i]] + Split(s[i + 1..], c)
  }

  /** Joining the pieces of a split with the separator gives the string back. */
  lemma {:induction false} JoinSplit(s: string, c: char)
    ensures Join([c], Split(s, c)) == s
    decreases |s|
  {
    match Find(s, c)
    case None =>
    case Some(i) =>
      var rest := Split(s[i + 1..], c);
      assert Split(s, c) == [s[..i]] + rest;
      JoinSplit(s[i + 1..], c);
      JoinCons([c], s[..i], rest);
      Around(s, i);
  }

  /** Joining a first part with the rest puts the separator between. */
  lemma JoinCons(sep: string, a: string, rest: seq<string>)
    requires rest != []
    ensures Join(sep, [a] + rest) == a + sep + Join(sep, rest)
  {
    assert ([a] + rest)[1..] == rest;
  }

  /** A string is what precedes position `i`, the character there and what
      follows. */
  lemma Around(s: string, i: nat)
    requires i < |s|
    ensures s == s[..i] + [s[i]] + s[i + 1..]
  {
  }

  /** Splitting a join of separator-free pieces gives the pieces back. */
  lemma {:induction false} SplitJoin(parts: seq<string>, c: char)
    requires |parts| >= 1
    requires forall i :: 0 <= i < |parts| ==> c !in parts[i]
    ensures Split(Join([c], parts), c) == parts
  {
    if |parts| > 1 {
      var s := Join([c], parts);
      SplitAtFirst(parts, c);
      assert Split(s, c) == [parts[0]] + Split(Join([c], parts[1..]), c);
      assert forall i :: 0 <= i < |parts| - 1 ==> parts[1..][i] == parts[i + 1];
      SplitJoin(parts[1..], c);
    }
  }

  /** The first separator of a join ends its first piece. */
  lemma SplitAtFirst(parts: seq<string>, c: char)
    requires |parts| > 1 && c !in parts[0]
    ensures var s := Join([c], parts);
      && Find(s, c) == Some(|parts[0]|)
      && s[..|parts[0]|] == parts[0]
      && s[|parts[0]| + 1..] == Join([c], parts[1..])
  {
    var s := Join([c], parts);
    var n := |parts[0]|;
    assert s == parts[0] + [c] + Join([c], parts[1..]);
    assert s[n] == c;
    assert s[..n] == parts[0];
    FindAt(s, c, n);
  }

  /** Replacing the separator of a join replaces it between the pieces. */
  lemma {:induction false} ReplaceJoin(parts: seq<string>, c: char, with: string)
    requires forall i :: 0 <= i < |parts| ==> c !in parts[i]
    ensures Replace(Join([c], parts), c, with) == Join(with, parts)
  {
    if |parts| > 1 {
      var rest := Join([c], parts[1..]);
      assert Join([c], parts) == parts[0] + [c] + rest;
      ReplaceAppend(parts[0] + [c], rest, c, with);
      ReplaceAppend(parts[0], [c], c, with);
      assert Replace([c], c, with) == with + Replace([], c, with);
      ReplaceJoin(parts[1..], c, with);
    }
  }

  lemma {:induction false} JoinKeeps(sep: string, parts: seq<string>, c: char)
    requires c !in sep
    requires forall i :: 0 <= i < |parts| ==> c !in parts[i]
    ensures c !in Join(sep, parts)
  {
    if |parts| > 1 {
      JoinKeeps(sep, parts[1..], c);
    }
  }

  /** The line boundaries of `str.splitlines`. */
  predicate IsLineBreak(c: char) {
    || c == '\n' || c == '\r' || c == '\U{b}' || c == '\U{c}'
    || c == '\U{1c}' || c == '\U{1d}' || c == '\U{1e}'
    || c == '\U{85}' || c == '\U{2028}' || c == '\U{2029}'
  }

  predicate NoBreak(s: string) {
    forall i :: 0 <= i < |s| ==> !IsLineBreak(s[i])
  }

  /** The position of the first line boundary in `s`, or `|s|`. */
  function BreakAt(s: string): (j: nat)
    ensures j <= |s| && NoBreak(s[..j])
    ensures j < |s| ==> IsLineBreak(s[j])
  {
    if s == [] || IsLineBreak(s[0]) then 0
    else
      var j := BreakAt(s[1..]);
      assert s[..j + 1] == [s[0]] + s[1..][..j];
      j + 1
  }

  /** `str.splitlines()`: `\r\n` counts as one boundary and a boundary at the
      very end opens no further line. */
  function SplitLines(s: string): (lines: seq<Line>)
    ensures forall i :: 0 <= i < |lines| ==> NoBreak(lines[i])
    decreases |s|
  {
    if s == [] then []
    else
      var j := BreakAt(s);
      if j == |s| then assert s == s[..j]; [s]
      else
        var skip := if s[j] == '\r' && j + 1 < |s| && s[j + 1] == '\n' then 2 else 1;
        [s[..j]] + SplitLines(s[j + skip..])
  }

  /** A text whose only boundaries are `\n` and that does not end with one is
      the newline-join of its lines. */
  lemma {:induction false} JoinSplitLines(s: string)
    requires forall i :: 0 <= i < |s| ==> IsLineBreak(s[i]) ==> s[i] == '\n'
    requires s == [] || s[|s| - 1] != '\n'
    ensures Join("\n", SplitLines(s)) == s
    decreases |s|
  {
    if s != [] {
      var j := BreakAt(s);
      if j < |s| {
        var rest := s[j + 1..];
        assert rest != [];
        JoinSplitLines(rest);
        assert s == s[..j] + "\n" + rest;
        assert SplitLines(s) == [s[..j]] + SplitLines(rest);
        assert SplitLines(rest) != [];
      }
    }
  }

  /** Splitting the newline-join of lines gives them back, unless the last one
      is empty (a trailing boundary opens no line). */
  lemma {:induction false} SplitLinesJoin(lines: seq<string>)
    requires forall i :: 0 <= i < |lines| ==> NoBreak(lines[i])
    requires lines == [] || lines[|lines| - 1] != ""
    ensures SplitLines(Join("\n", lines)) == lines
  {
    if |lines| == 1 {
      assert BreakAt(lines[0]) == |lines[0]|;
    } else if |lines| > 1 {
      var s := Join("\n", lines);
      var a := lines[0];
      assert s == a + "\n" + Join("\n", lines[1..]);
      assert s[..|a|] == a;
      assert BreakAt(s) == |a| by {
        assert NoBreak(s[..|a|]);
        assert IsLineBreak(s[|a|]);
        BreakAtUnique(s, |a|);
      }
      assert s[|a| + 1..] == Join("\n", lines[1..]);
      SplitLinesJoin(lines[1..]);
    }
  }

  /** The first line ends at the first newline. */
  lemma SplitFirstLine(line: string, rest: string)
    requires NoBreak(line)
    ensures SplitLines(line + "\n" + rest) == [line] + SplitLines(rest)
  {
    var s := line + "\n" + rest;
    var j := |line|;
    assert s[..j] == line && s[j] == '\n';
    BreakAtUnique(s, j);
    assert s[j + 1..] == rest;
  }

  lemma {:induction false} BreakAtUnique(s: string, j: nat)
    requires j < |s| && NoBreak(s[..j]) && IsLineBreak(s[j])
    ensures BreakAt(s) == j
  {
    if j > 0 {
      assert s[1..][..j - 1] == s[..j][1..];
      BreakAtUnique(s[1..], j - 1);
    }
  }

  /** `str.lower()` of one character, exact for every character whose lower
      case is ASCII; any other character is kept as it is. */
  function LowerChar(c: char): string {
    if 'A' <= c <= 'Z' then [(c as int + 32) as char]
    else if c == '\U{130}' then "i\U{307}"
    else if c == '\U{212a}' then "k"
    else [c]
  }

  /** `str.lower()`, as far as comparisons with ASCII text can tell. */
  function Lower(s: string): string {
    if s == [] then [] else LowerChar(s[0]) + Lower(s[1..])
  }

  /** `p in s` for strings. */
  predicate IsInfix(p: string, s: string)
    decreases |s|
  {
    p <= s || (s != [] && IsInfix(p, s[1..]))
  }

  /** `c * n` for a one-character string. */
  function Repeat(c: char, n: nat): (r: string)
    ensures |r| == n && forall i :: 0 <= i < n ==> r[i] == c
  {
    seq(n, _ => c)
  }

  /** A run that the character at `e` stops ends there. */
  lemma {:induction false} RunEndAt(s: string, i: nat, e: nat, ok: char -> bool)
    requires i <= e <= |s|
    requires forall k :: i <= k < e ==> ok(s[k])
    requires e < |s| ==> !ok(s[e])
    ensures RunEnd(s, i, ok) == e
    decreases e - i
  {
    if i < e {
      RunEndAt(s, i + 1, e, ok);
    }
  }

  /** The start of the run of characters satisfying `ok` that ends at `j`. */
  function RunBack(s: string, j: nat, ok: char -> bool): (b: nat)
    requires j <= |s|
    ensures b <= j
    ensures forall k :: b <= k < j ==> ok(s[k])
    ensures b > 0 ==> !ok(s[b - 1])
  {
    if j > 0 && ok(s[j - 1]) then RunBack(s, j - 1, ok) else j
  }

  /** The end of the run of characters satisfying `ok` that starts at `i`. */
  function RunEnd(s: string, i: nat, ok: char -> bool): (e: nat)
    requires i <= |s|
    ensures i <= e <= |s|
    ensures forall k :: i <= k < e ==> ok(s[k])
    ensures e < |s| ==> !ok(s[e])
    decreases |s| - i
  {
    if i < |s| && ok(s[i]) then RunEnd(s, i + 1, ok) else i
  }
}
