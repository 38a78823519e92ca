/** Inline markup (converter.py:175-185), three substitutions in turn:
    `__text__` becomes `<u>text</u>`, `''text''` becomes `` `text` `` and
    `//text//` becomes `*text*`, the last not after a colon, so that the
    `//` of a URL survives. */
module Inline {
  import opened Wrappers
  import opened Strings
  import opened Scan

  predicate Delimits(d: char, c: char) {
    c == d || c == '\n'
  }

  /** Characters other than the delimiter and the newline. */
  function Outside(d: char): char -> bool {
    c => !Delimits(d, c)
  }

  /** Some character from `i` up to `e` is the delimiter `d` or a newline. */
  predicate Stopped(s: string, i: nat, e: nat, d: char) {
    exists k :: i <= k < e && k < |s| && Delimits(d, s[k])
  }

  /** `dd([^d\n]+)dd` at `p` for the delimiter `d`: the run between the
      delimiters is maximal, since it cannot hold `d`. */
  function PairedAt(s: string, p: nat, d: char, open: string, close: string): (r: Option<Hit>)
    ensures r.Some? ==> var e := r.value.end - 2;
      && p + 2 < e && e + 2 <= |s|
      && s[p] == d && s[p + 1] == d && s[e] == d && s[e + 1] == d
      && (forall i :: p + 2 <= i < e ==> s[i] != d && s[i] != '\n')
      && r.value.text == open + s[p + 2..e] + close
    ensures r.None? && p + 1 < |s| && s[p] == d && s[p + 1] == d ==>
      forall e :: p + 2 < e && e + 1 < |s| && s[e] == d && s[e + 1] == d ==> Stopped(s, p + 2, e, d)
  {
    if p + 1 < |s| && s[p] == d && s[p + 1] == d then
      var e := RunEnd(s, p + 2, Outside(d));
      if e > p + 2 && e + 1 < |s| && s[e] == d && s[e + 1] == d then
        Some(Hit(e + 2, open + s[p + 2..e] + close))
      else None
    else None
  }

  /** The first place from `e` on where `//` can close an italic opened at
      `p`: `(.+?)` is lazy and `(?<!\s)//` wants no whitespace before the
      closing slashes; `.` stops at a newline. */
  function ItalicClose(s: string, p: nat, e: nat): (r: Option<nat>)
    requires p + 3 <= e
    requires forall i :: p + 2 <= i < e - 1 && i < |s| ==> s[i] != '\n'
    ensures r.Some? ==> var c := r.value;
      && e <= c && c + 2 <= |s| && s[c] == '/' && s[c + 1] == '/' && !IsSpace(s[c - 1])
      && (forall i :: p + 2 <= i < c ==> s[i] != '\n')
      && forall x :: e <= x < c ==> !Closes(s, x)
    ensures r.None? ==> forall x :: e <= x && x + 2 <= |s| && Closes(s, x) ==> Stopped(s, p + 2, x, '\n')
    decreases |s| - e
  {
    if e + 2 > |s| then None
    else if s[e - 1] == '\n' then None
    else if Closes(s, e) then Some(e)
    else ItalicClose(s, p, e + 1)
  }

  /** `(?<!\s)//` at `x`. */
  predicate Closes(s: string, x: nat) {
    x >= 1 && x + 2 <= |s| && s[x] == '/' && s[x + 1] == '/' && !IsSpace(s[x - 1])
  }

  /** `(?<!:)//(?!\s)` at `p`. */
  predicate Opens(s: string, p: nat) {
    && p + 2 < |s| && s[p] == '/' && s[p + 1] == '/'
    && (p == 0 || s[p - 1] != ':') && !IsSpace(s[p + 2])
  }

  /** `(?<!:)//(?!\s)(.+?)(?<!\s)//` at `p`. */
  function ItalicAt(s: string, p: nat): (r: Option<Hit>)
    ensures r.Some? ==> Opens(s, p) && p + 4 < r.value.end <= |s|
  {
    if Opens(s, p) then
      match ItalicClose(s, p, p + 3)
      case Some(e) => Some(Hit(e + 2, "*" + s[p + 2..e] + "*"))
      case None => None
    else None
  }

  function Pairs(s: string, d: char, open: string, close: string): nat -> Option<Hit> {
    (k: nat) => PairedAt(s, k, d, open, close)
  }

  function Underlines(s: string): nat -> Option<Hit> {
    Pairs(s, '_', "<u>", "</u>")
  }

  function Verbatims(s: string): nat -> Option<Hit> {
    Pairs(s, '\'', "`", "`")
  }

  function Italics(s: string): nat -> Option<Hit> {
    (k: nat) => ItalicAt(s, k)
  }

  /** The first substitution. */
  function Underline(s: string): string {
    assert Proper(s, Underlines(s));
    Substitute(s, 0, Underlines(s))
  }

  /** The second substitution. */
  function Verbatim(s: string): string {
    assert Proper(s, Verbatims(s));
    Substitute(s, 0, Verbatims(s))
  }

  /** The third substitution. */
  function Italic(s: string): string {
    assert Proper(s, Italics(s));
    Substitute(s, 0, Italics(s))
  }

  /** `convert_inline_markup`. */
  function ConvertInline(text: Line): Line {
    var a := Underline(text);
    PairedKeepsLine(text, '_', "<u>", "</u>");
    var b := Verbatim(a);
    PairedKeepsLine(a, '\'', "`", "`");
    ItalicKeepsLine(b);
    Italic(b)
  }

  lemma PairedKeepsLine(s: Line, d: char, open: string, close: string)
    requires '\n' !in open && '\n' !in close
    ensures Proper(s, Pairs(s, d, open, close)) && '\n' !in Substitute(s, 0, Pairs(s, d, open, close))
  {
    var at := Pairs(s, d, open, close);
    forall k: nat | at(k).Some? ensures '\n' !in at(k).value.text {
      var e := at(k).value.end - 2;
      assert '\n' !in s[k + 2..e];
      NoNewline4(open, s[k + 2..e], close, "");
      assert at(k).value.text == open + s[k + 2..e] + close + "";
    }
    SubstituteKeepsLine(s, 0, at);
  }

  lemma ItalicKeepsLine(s: Line)
    ensures '\n' !in Italic(s)
  {
    forall k: nat | Italics(s)(k).Some? ensures '\n' !in Italics(s)(k).value.text {
      var e := Italics(s)(k).value.end - 2;
      assert '\n' !in s[k + 2..e];
      NoNewline4("*", s[k + 2..e], "*", "");
      assert Italics(s)(k).value.text == "*" + s[k + 2..e] + "*" + "";
    }
    SubstituteKeepsLine(s, 0, Italics(s));
  }

  /** No `//` except right after a colon. */
  predicate OnlyUrlSlashes(s: string) {
    forall p :: 0 <= p && p + 1 < |s| && s[p] == '/' && s[p + 1] == '/' ==> p > 0 && s[p - 1] == ':'
  }

  lemma UnderlineUnchanged(s: string)
    requires '_' !in s
    ensures Underline(s) == s
  {
    NoMatchUnchanged(s, 0, Underlines(s));
  }

  lemma VerbatimUnchanged(s: string)
    requires '\'' !in s
    ensures Verbatim(s) == s
  {
    NoMatchUnchanged(s, 0, Verbatims(s));
  }

  /** The `//` of `http://` or `file://` never opens an italic. */
  lemma ItalicUnchanged(s: string)
    requires OnlyUrlSlashes(s)
    ensures Italic(s) == s
  {
    NoMatchUnchanged(s, 0, Italics(s));
  }

  /** Text with no underscore, no single quote and no `//` except right
      after a colon (as in `http://`) is left exactly as it is. */
  lemma PlainTextUnchanged(s: Line)
    requires '_' !in s && '\'' !in s && OnlyUrlSlashes(s)
    ensures ConvertInline(s) == s
  {
    UnderlineUnchanged(s);
    VerbatimUnchanged(s);
    ItalicUnchanged(s);
  }

  /** A text between two doubled delimiters is one whole match. */
  lemma PairedWhole(x: string, d: char, open: string, close: string)
    requires x != [] && d !in x && '\n' !in x
    ensures var s := [d, d] + x + [d, d];
      Substitute(s, 0, Pairs(s, d, open, close)) == open + x + close
  {
    var s := [d, d] + x + [d, d];
    assert s[2..|s| - 2] == x;
    forall k | 2 <= k < |s| - 2 ensures Outside(d)(s[k]) {
      assert s[k] == x[k - 2];
    }
    RunEndAt(s, 2, |s| - 2, Outside(d));
    WholeMatch(s, Pairs(s, d, open, close), open + x + close);
  }

  /** `__x__` is underlined. */
  lemma UnderlineExample(x: Line)
    requires x != [] && '_' !in x && '\'' !in x && '/' !in x
    ensures ConvertInline("__" + x + "__") == "<u>" + x + "</u>"
  {
    var u := "<u>" + x + "</u>";
    PairedWhole(x, '_', "<u>", "</u>");
    assert ['_', '_'] + x + ['_', '_'] == "__" + x + "__";
    VerbatimUnchanged(u);
    ClosingTagSlash(x);
    ItalicUnchanged(u);
  }

  lemma ClosingTagSlash(x: string)
    requires '/' !in x
    ensures OnlyUrlSlashes("<u>" + x + "</u>")
  {
    var u := "<u>" + x + "</u>";
    assert forall p :: 3 <= p < 3 + |x| ==> u[p] == x[p - 3];
  }

  /** `''x''` is verbatim. */
  lemma VerbatimExample(x: Line)
    requires x != [] && '_' !in x && '\'' !in x && '/' !in x
    ensures ConvertInline("''" + x + "''") == "`" + x + "`"
  {
    var s := "''" + x + "''";
    var v := "`" + x + "`";
    UnderlineUnchanged(s);
    PairedWhole(x, '\'', "`", "`");
    assert ['\'', '\''] + x + ['\'', '\''] == s;
    BacktickedSlashFree(x);
    ItalicUnchanged(v);
  }

  lemma BacktickedSlashFree(x: string)
    requires '/' !in x
    ensures '/' !in "`" + x + "`"
  {
    var v := "`" + x + "`";
    assert forall p :: 1 <= p <= |x| ==> v[p] == x[p - 1];
  }

  /** `//x//` is italic when `x` neither starts nor ends with whitespace. */
  lemma ItalicExample(x: Line)
    requires x != [] && '_' !in x && '\'' !in x && '/' !in x
    requires !IsSpace(x[0]) && !IsSpace(x[|x| - 1])
    ensures ConvertInline("//" + x + "//") == "*" + x + "*"
  {
    var s := "//" + x + "//";
    var n := |s|;
    assert s[2..n - 2] == x;
    NoMatchUnchanged(s, 0, Underlines(s));
    NoMatchUnchanged(s, 0, Verbatims(s));
    assert Opens(s, 0);
    forall c | 3 <= c < n - 2 ensures !Closes(s, c) {
      assert s[c] == x[c - 2];
    }
    CloseAt(s, 0, 3, n - 2);
    WholeMatch(s, Italics(s), "*" + x + "*");
  }

  /** The lazy group stops at the first possible close. */
  lemma {:induction false} CloseAt(s: string, p: nat, e: nat, c: nat)
    requires p + 3 <= e <= c && Closes(s, c)
    requires forall i :: p + 2 <= i < c ==> s[i] != '\n'
    requires forall x :: e <= x < c ==> !Closes(s, x)
    ensures ItalicClose(s, p, e) == Some(c)
    decreases c - e
  {
    if e < c {
      CloseAt(s, p, e + 1, c);
    }
  }
}
