/** Images (converter.py:188-225): `{{target}}` becomes the Obsidian embed
    `![[target]]`, or `![[target|width]]` when a `width=` parameter follows
    the `?` of the target, and a target relative to the page (`./x`) is
    moved into the page's own attachment folder (`./Page/x`). */
module Images {
  import opened Wrappers
  import opened Strings
  import opened Scan

  /** `(?:^|&|\?)width=(\d+)` searched in `"?" + query`, matching at `j + 1`
      there: `width=` at `j` of the query, at its start (where the `?` put in
      front satisfies `\?`) or after a `&` or a `?`, and a digit after it. */
  predicate WidthAt(q: string, j: nat) {
    && j + 6 < |q|
    && (j == 0 || q[j - 1] == '&' || q[j - 1] == '?')
    && q[j] == 'w' && q[j + 1] == 'i' && q[j + 2] == 'd' && q[j + 3] == 't' && q[j + 4] == 'h' && q[j + 5] == '='
    && IsDigit(q[j + 6])
  }

  /** The first `width=` parameter at or after `j`, as `re.search` finds it. */
  function FindWidth(q: string, j: nat): (r: Option<nat>)
    ensures r.Some? ==> j <= r.value && WidthAt(q, r.value)
    decreases |q| - j
  {
    if j + 6 >= |q| then None
    else if WidthAt(q, j) then Some(j)
    else FindWidth(q, j + 1)
  }

  /** No `width=` parameter comes before the one found, and none at all
      when none is found. */
  lemma {:induction false} FindWidthFirst(q: string, j: nat, k: nat)
    requires j <= k
    requires FindWidth(q, j).None? || k < FindWidth(q, j).value
    ensures !WidthAt(q, k)
    decreases |q| - j
  {
    if j + 6 < |q| && !WidthAt(q, j) && j < k {
      FindWidthFirst(q, j + 1, k);
    }
  }

  /** `m.group(1)` for the query: the digits after its first `width=`
      parameter, if it has one. */
  function Width(query: string): Option<string> {
    match FindWidth(query, 0)
    case None => None
    case Some(j) => Some(query[j + 6..RunEnd(query, j + 6, IsDigit)])
  }

  /** The width found is a non-empty run of digits. */
  lemma WidthDigits(q: string)
    ensures Width(q).Some? ==> Width(q).value != [] && forall c :: c in Width(q).value ==> IsDigit(c)
  {
    match FindWidth(q, 0)
    case None =>
    case Some(j) =>
      var e := RunEnd(q, j + 6, IsDigit);
      assert forall i :: j + 6 <= i < e ==> IsDigit(q[i]);
  }

  /** `parse_image_target`: the stripped target and, after its first `?`,
      the stripped path before the `?` and the width in the query. */
  function ParseImageTarget(raw: string): (r: (string, Option<string>))
    ensures var target := Strip(raw);
      && ('?' !in target ==> r == (target, None))
      && ('?' in target ==> '?' !in r.0)
      && ('?' in target ==> CutAtFirst(target, r))
  {
    var target := Strip(raw);
    match Find(target, '?')
    case None => (target, None)
    case Some(i) =>
      StripWithout(target[..i], '?');
      var r := (Strip(target[..i]), Width(target[i + 1..]));
      assert CutAt(target, i, r);
      r
  }

  /** `target.split("?", 1)` at `i`, then the stripped base and the width
      in the query. */
  predicate CutAt(target: string, i: nat, r: (string, Option<string>)) {
    && i < |target| && target[i] == '?' && '?' !in target[..i]
    && r.0 == Strip(target[..i]) && r.1 == Width(target[i + 1..])
  }

  /** The path is what precedes the first `?`, stripped, and the width is
      read from what follows it. */
  ghost predicate CutAtFirst(target: string, r: (string, Option<string>)) {
    exists i: nat :: CutAt(target, i, r)
  }

  /** `rewrite_rel_to_page_attachment`: `./x` becomes `./stem/x`, any
      slashes at the start of `x` dropped; every other target is kept. */
  function RewriteRel(target: string, stem: string): (r: string)
    ensures !("./" <= target) ==> r == target
    ensures "./" <= target ==> "./" + stem + "/" <= r
    ensures "./" <= target ==> exists k: nat :: Moved(target, k, stem, r)
  {
    if "./" <= target then
      var e := RunEnd(target[2..], 0, Is('/'));
      var r := "./" + stem + "/" + LStripChar(target[2..], '/');
      assert target[2..][e..] == target[2 + e..];
      assert forall j :: 2 <= j < 2 + e ==> target[j] == target[2..][j - 2];
      assert Moved(target, 2 + e, stem, r);
      r
    else target
  }

  /** `./`, then the run of slashes ending at `k`, then the rest of the
      target: the rest is moved under `./stem/`. */
  predicate Moved(target: string, k: nat, stem: string, r: string) {
    && 2 <= k <= |target|
    && (forall j :: 2 <= j < k ==> target[j] == '/')
    && (k < |target| ==> target[k] != '/')
    && r == "./" + stem + "/" + target[k..]
  }

  /** The replacement of one `{{inner}}`. */
  function Embed(inner: string, stem: string): string {
    var (target, width) := ParseImageTarget(inner);
    var t := RewriteRel(target, stem);
    match width
    case Some(w) => "![[" + t + "|" + w + "]]"
    case None => "![[" + t + "]]"
  }

  predicate NotClosingBrace(c: char) {
    c != '}'
  }

  /** `\{\{([^}]+)\}\}` at `p`: the position of the closing braces. The run
      inside the braces is maximal, since it cannot hold `}`. */
  function BracesAt(s: string, p: nat): (r: Option<nat>)
    ensures r.Some? ==> var e := r.value;
      && p + 2 < e && e + 2 <= |s|
      && s[p] == '{' && s[p + 1] == '{' && s[e] == '}' && s[e + 1] == '}'
      && (forall i :: p + 2 <= i < e ==> s[i] != '}')
    ensures r.None? && p + 1 < |s| && s[p] == '{' && s[p + 1] == '{' ==>
      forall e :: p + 2 < e && e + 1 < |s| && s[e] == '}' && s[e + 1] == '}' ==> '}' in s[p + 2..e]
  {
    if p + 1 < |s| && s[p] == '{' && s[p + 1] == '{' then
      var e := RunEnd(s, p + 2, NotClosingBrace);
      if e > p + 2 && e + 1 < |s| && s[e] == '}' && s[e + 1] == '}' then Some(e)
      else None
    else None
  }

  /** The match at `p` and its embed. */
  function ImageAt(s: string, p: nat, stem: string): (r: Option<Hit>)
    ensures r.Some? ==> p < r.value.end <= |s|
  {
    match BracesAt(s, p)
    case Some(e) => Some(Hit(e + 2, Embed(s[p + 2..e], stem)))
    case None => None
  }

  /** A match wherever the braces close, replaced by the embed of what
      they enclose. */
  lemma ImageText(s: string, p: nat, stem: string)
    ensures ImageAt(s, p, stem).Some? <==> BracesAt(s, p).Some?
    ensures ImageAt(s, p, stem).Some? ==> var e := BracesAt(s, p).value;
      && ImageAt(s, p, stem).value.end == e + 2
      && ImageAt(s, p, stem).value.text == Embed(s[p + 2..e], stem)
  {
  }

  function Images(s: string, stem: string): nat -> Option<Hit> {
    (k: nat) => ImageAt(s, k, stem)
  }

  /** `convert_images`. */
  function ConvertImages(line: Line, stem: Line): Line {
    var at := Images(line, stem);
    assert Proper(line, at);
    forall k: nat | at(k).Some? ensures '\n' !in at(k).value.text {
      var e := BracesAt(line, k).value;
      assert '\n' !in line[k + 2..e];
      EmbedKeepsLine(line[k + 2..e], stem);
      ImageText(line, k, stem);
    }
    SubstituteKeepsLine(line, 0, at);
    Substitute(line, 0, at)
  }

  /** An embed holds no newline unless its target or the page name did. */
  lemma EmbedKeepsLine(inner: string, stem: string)
    requires '\n' !in inner && '\n' !in stem
    ensures '\n' !in Embed(inner, stem)
  {
    ParseKeepsLine(inner);
    var (base, width) := ParseImageTarget(inner);
    RewriteKeepsLine(base, stem);
    var t := RewriteRel(base, stem);
    match width
    case Some(w) => NoNewline4("![[" + t, "|", w, "]]");
    case None => NoNewline4("![[", t, "]]", "");
  }

  lemma ParseKeepsLine(inner: string)
    requires '\n' !in inner
    ensures '\n' !in ParseImageTarget(inner).0
    ensures ParseImageTarget(inner).1.Some? ==> '\n' !in ParseImageTarget(inner).1.value
  {
    var target := Strip(inner);
    StripWithout(inner, '\n');
    if '?' in target {
      var i := Find(target, '?').value;
      StripWithout(target[..i], '\n');
      WidthDigits(target[i + 1..]);
    }
  }

  lemma RewriteKeepsLine(target: string, stem: string)
    requires '\n' !in target && '\n' !in stem
    ensures '\n' !in RewriteRel(target, stem)
  {
    if "./" <= target {
      var rest := LStripChar(target[2..], '/');
      NoNewline4("./", stem, "/", rest);
    }
  }

  /** A query that starts with `width=` gives the digits that follow it. */
  lemma WidthFirst(digits: string, post: string)
    requires digits != [] && forall i :: 0 <= i < |digits| ==> IsDigit(digits[i])
    requires post == [] || !IsDigit(post[0])
    ensures Width("width=" + digits + post) == Some(digits)
  {
    var q := "width=" + digits + post;
    assert q[6..6 + |digits|] == digits;
    assert WidthAt(q, 0);
    RunEndAt(q, 6, 6 + |digits|, IsDigit);
  }

  lemma {:induction false} FirstWidth(q: string, j: nat, w: nat)
    requires j <= w && WidthAt(q, w)
    requires forall k :: j <= k < w ==> !WidthAt(q, k)
    ensures FindWidth(q, j) == Some(w)
    decreases w - j
  {
    if j < w {
      FirstWidth(q, j + 1, w);
    }
  }

  /** A relative image with a width, such as `{{./diagram.png?width=320}}`
      on the page `Demo`, embeds `./Demo/diagram.png` at that width. */
  lemma RelativeImageWithWidth(path: string, digits: string, stem: string)
    requires path != [] && '?' !in path && '}' !in path && path[0] != '/'
    requires !IsSpace(path[0]) && !IsSpace(path[|path| - 1])
    requires digits != [] && forall i :: 0 <= i < |digits| ==> IsDigit(digits[i])
    ensures Embed("./" + path + "?width=" + digits, stem) == "![[" + ("./" + stem + "/" + path) + "|" + digits + "]]"
  {
    var inner := "./" + path + "?width=" + digits;
    ParseRelative(inner, path, digits);
    var t := RelativeRewritten(path, stem);
    EmbedWidth(inner, stem, "./" + path, digits);
    AppendAssoc("![[", t, "|" + digits + "]]");
  }

  /** The embed of a target whose parse gives a width. */
  lemma EmbedWidth(inner: string, stem: string, base: string, w: string)
    requires ParseImageTarget(inner) == (base, Some(w))
    ensures Embed(inner, stem) == "![[" + RewriteRel(base, stem) + "|" + w + "]]"
  {
  }

  lemma RelativeRewritten(path: string, stem: string) returns (t: string)
    requires path == [] || path[0] != '/'
    ensures t == RewriteRel("./" + path, stem) == "./" + stem + "/" + path
  {
    assert ("./" + path)[2..] == path;
    LStripCharNone(path, '/');
    t := RewriteRel("./" + path, stem);
  }

  /** A target split at its first `?`, both halves already stripped. */
  lemma ParseAt(inner: string, i: nat)
    requires i < |inner| && inner[i] == '?' && '?' !in inner[..i]
    requires Strip(inner) == inner && Strip(inner[..i]) == inner[..i]
    ensures ParseImageTarget(inner) == (inner[..i], Width(inner[i + 1..]))
  {
    FindAt(inner, '?', i);
  }

  lemma ParseRelative(inner: string, path: string, digits: string)
    requires inner == "./" + path + "?width=" + digits
    requires path != [] && '?' !in path
    requires !IsSpace(path[|path| - 1])
    requires digits != [] && forall i :: 0 <= i < |digits| ==> IsDigit(digits[i])
    ensures ParseImageTarget(inner) == ("./" + path, Some(digits))
  {
    var i := 2 + |path|;
    var head := "./" + path;
    assert inner == head + ("?width=" + digits);
    assert inner[..i] == head;
    assert inner[i] == '?';
    assert '?' !in head;
    assert inner[|inner| - 1] == digits[|digits| - 1];
    StrippedAlready(inner);
    assert head[|head| - 1] == path[|path| - 1];
    StrippedAlready(head);
    assert inner[i + 1..] == "width=" + digits + "";
    WidthFirst(digits, "");
    ParseAt(inner, i);
  }

  /** The same image as it sits in a line: the whole `{{...}}` is replaced. */
  lemma RelativeImageLine(line: Line, path: string, digits: string, stem: Line)
    requires line == "{{./" + path + "?width=" + digits + "}}"
    requires path != [] && '?' !in path && '}' !in path && path[0] != '/'
    requires !IsSpace(path[0]) && !IsSpace(path[|path| - 1])
    requires digits != [] && forall i :: 0 <= i < |digits| ==> IsDigit(digits[i])
    ensures ConvertImages(line, stem) == "![[" + ("./" + stem + "/" + path) + "|" + digits + "]]"
  {
    var inner := "./" + path + "?width=" + digits;
    assert line == "{{" + inner + "}}";
    assert '}' !in "?width=" + digits;
    WholeImage(line, inner, stem);
    RelativeImageWithWidth(path, digits, stem);
  }

  /** The image of the converter's own example page `Demo`. */
  lemma DemoImage(line: Line)
    requires line == "{{./image.png?width=320}}"
    ensures ConvertImages(line, "Demo") == "![[./Demo/image.png|320]]"
  {
    var path, digits := "image.png", "320";
    assert line == "{{./" + path + "?width=" + digits + "}}";
    RelativeImageLine(line, path, digits, "Demo");
    DemoText();
  }

  lemma DemoText()
    ensures "![[" + ("./" + "Demo" + "/" + "image.png") + "|" + "320" + "]]" == "![[./Demo/image.png|320]]"
  {
  }

  /** A line that is a single `{{...}}` is the embed of what is inside. */
  lemma WholeImage(line: Line, inner: string, stem: Line)
    requires line == "{{" + inner + "}}" && inner != [] && '}' !in inner
    ensures ConvertImages(line, stem) == Embed(inner, stem)
  {
    var n := |line|;
    assert line[2..n - 2] == inner;
    forall k | 2 <= k < n - 2 ensures NotClosingBrace(line[k]) {
      assert line[k] == inner[k - 2];
    }
    RunEndAt(line, 2, n - 2, NotClosingBrace);
    assert BracesAt(line, 0) == Some(n - 2);
    ImageText(line, 0, stem);
    WholeMatch(line, Images(line, stem), Embed(inner, stem));
  }

  /** A target that neither starts with `./` nor holds `?` is embedded as
      it is written, surrounding whitespace aside. */
  lemma PlainImage(inner: string, stem: string)
    requires '?' !in inner && !("./" <= Strip(inner))
    ensures Embed(inner, stem) == "![[" + Strip(inner) + "]]"
  {
    StripWithout(inner, '?');
  }

  /** A line without `{` holds no image and is left as it is. */
  lemma NoImageUnchanged(line: Line, stem: Line)
    requires '{' !in line
    ensures ConvertImages(line, stem) == line
  {
    var at := Images(line, stem);
    assert Proper(line, at);
    forall k: nat | k < |line| ensures at(k).None? {
      assert line[k] != '{';
    }
    NoMatchUnchanged(line, 0, at);
    assert line[0..] == line;
  }
}
