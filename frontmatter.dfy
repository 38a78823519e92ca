/** The YAML front matter written at the top of every converted page
    (converter.py:78-106): the page's title, colon name and source path, the
    three well-known headers when they are set, and every header in sorted
    key order. */
module FrontMatter {
  import opened Wrappers
  import opened Strings
  import opened Pages
  import opened Headers
  import opened Sorting

  /** How one character appears between the quotes. */
  function EscapeChar(c: char): string {
    if c == '\\' then "\\\\" else if c == '"' then "\\\"" else [c]
  }

  /** The text between the quotes, character by character. */
  function Escaped(s: string): string {
    if s == [] then [] else EscapeChar(s[0]) + Escaped(s[1..])
  }

  /** `yaml_escape`: backslashes are doubled first, then quotes are escaped,
      and the result is put in double quotes. */
  function YamlEscape(s: string): string {
    "\"" + Replace(Replace(s, '\\', "\\\\"), '"', "\\\"") + "\""
  }

  /** The quoted text is the input escaped character by character: the
      backslashes the first replacement adds are not touched by the second. */
  lemma YamlEscapeByChar(s: string)
    ensures YamlEscape(s) == "\"" + Escaped(s) + "\""
  {
    ReplaceTwiceEscapes(s);
  }

  lemma {:induction false} ReplaceTwiceEscapes(s: string)
    ensures Replace(Replace(s, '\\', "\\\\"), '"', "\\\"") == Escaped(s)
  {
    if s != [] {
      var a := if s[0] == '\\' then "\\\\" else [s[0]];
      var rest := Replace(s[1..], '\\', "\\\\");
      assert Replace(s, '\\', "\\\\") == a + rest;
      ReplaceAppend(a, rest, '"', "\\\"");
      if s[0] == '\\' {
        assert '"' !in a;
      } else {
        assert Replace(a, '"', "\\\"") == (if s[0] == '"' then "\\\"" else [s[0]]) + Replace([], '"', "\\\"");
      }
      ReplaceTwiceEscapes(s[1..]);
    }
  }

  /** A reader of double-quoted YAML scalars restricted to the two escapes
      the writer produces; `None` for text the writer cannot produce. */
  function Unescape(s: string): Option<string> {
    if s == [] then Some([])
    else if s[0] == '\\' then
      if |s| >= 2 && (s[1] == '\\' || s[1] == '"') then
        match Unescape(s[2..])
        case None => None
        case Some(t) => Some([s[1]] + t)
      else None
    else if s[0] == '"' then None
    else
      match Unescape(s[1..])
      case None => None
      case Some(t) => Some([s[0]] + t)
  }

  function Unquote(q: string): Option<string> {
    if |q| >= 2 && q[0] == '"' && q[|q| - 1] == '"' then Unescape(q[1..|q| - 1]) else None
  }

  lemma {:induction false} UnescapeEscaped(s: string)
    ensures Unescape(Escaped(s)) == Some(s)
  {
    if s != [] {
      var e := Escaped(s);
      assert e == EscapeChar(s[0]) + Escaped(s[1..]);
      UnescapeEscaped(s[1..]);
      assert s == [s[0]] + s[1..];
      if s[0] == '\\' || s[0] == '"' {
        assert e[0] == '\\' && e[1] == s[0];
        assert e[2..] == Escaped(s[1..]);
      } else {
        assert EscapeChar(s[0]) == [s[0]];
        assert e[0] == s[0];
        assert e[1..] == Escaped(s[1..]);
        assert Unescape(e) == Some([s[0]] + s[1..]);
      }
    }
  }

  /** The quoted string reads back as the original: no quote or backslash in
      the value can end the scalar early or be lost. */
  lemma YamlEscapeRoundTrip(s: string)
    ensures Unquote(YamlEscape(s)) == Some(s)
  {
    var q := YamlEscape(s);
    YamlEscapeByChar(s);
    assert q[1..|q| - 1] == Escaped(s);
    UnescapeEscaped(s);
  }

  /** Python's truth value of `d.get(k)`: present and not empty. */
  predicate IsSet(v: Option<string>) {
    v.Some? && v.value != ""
  }

  /** `headers.get(a) or headers.get(b) or ""`. */
  function EitherHeader(headers: Dict, a: string, b: string): (r: string)
    ensures IsSet(Get(headers, a)) ==> Get(headers, a) == Some(r)
    ensures !IsSet(Get(headers, a)) && IsSet(Get(headers, b)) ==> Get(headers, b) == Some(r)
    ensures !IsSet(Get(headers, a)) && !IsSet(Get(headers, b)) ==> r == ""
  {
    if IsSet(Get(headers, a)) then Get(headers, a).value
    else if IsSet(Get(headers, b)) then Get(headers, b).value
    else ""
  }

  /** The value read is empty exactly when neither spelling holds a
      non-empty value; otherwise it is the value of one of them, the first
      spelling winning when both are set. */
  lemma EitherHeaderSet(headers: Dict, a: string, b: string)
    ensures var r := EitherHeader(headers, a, b);
      && (r != "" <==> IsSet(Get(headers, a)) || IsSet(Get(headers, b)))
      && (r != "" ==> Get(headers, a) == Some(r) || Get(headers, b) == Some(r))
      && (IsSet(Get(headers, a)) && IsSet(Get(headers, b)) ==> Get(headers, a) == Some(r))
  {
  }

  /** An optional `name: "value"` line, written only when the value is set;
      `name` ends with its colon and space. */
  function Field(name: string, v: string): seq<string> {
    if v != "" then [name + YamlEscape(v)] else []
  }

  /** `sorted(headers.keys())`. */
  function SortedKeys(headers: Dict): (ks: seq<string>)
    ensures multiset(ks) == multiset(Keys(headers))
    ensures Sorted(ks)
    ensures forall i :: 0 <= i < |ks| ==> ks[i] in Keys(headers)
  {
    var ks := Sort(Keys(headers));
    assert forall i :: 0 <= i < |ks| ==> ks[i] in multiset(ks);
    ks
  }

  /** `headers[k]` for a key the dict holds; the empty string stands for a
      key it does not hold, which the front matter never looks up. */
  function Value(headers: Dict, k: string): string {
    match Get(headers, k)
    case Some(v) => v
    case None => ""
  }

  /** The line listing key `k` under `zim_headers:`. */
  function HeaderLine(headers: Dict, k: string): string {
    "  " + k + ": " + YamlEscape(Value(headers, k))
  }

  /** The lines listing the keys `ks`, in that order. */
  function HeaderLines(headers: Dict, ks: seq<string>): seq<string> {
    MapSeq(Lister(headers), ks)
  }

  function Lister(headers: Dict): string -> string {
    k => HeaderLine(headers, k)
  }

  lemma HeaderLinesAt(headers: Dict, ks: seq<string>)
    ensures |HeaderLines(headers, ks)| == |ks|
    ensures forall j :: 0 <= j < |ks| ==> HeaderLines(headers, ks)[j] == HeaderLine(headers, ks[j])
  {
    MapSeqAt(Lister(headers), ks);
  }

  /** The three lines every page gets, after the opening `---`. */
  function PageLines(page: PageInfo): seq<string> {
    ["title: " + YamlEscape(Title(page)),
     "zim_page: " + YamlEscape(ColonName(page)),
     "zim_source: " + YamlEscape(page.source)]
  }

  /** The lines for the three well-known headers that are set. */
  function KnownHeaderLines(headers: Dict): seq<string> {
    Field("created: ", EitherHeader(headers, "Creation-Date", "creation-date"))
    + Field("zim_wiki_format: ", EitherHeader(headers, "Wiki-Format", "wiki-format"))
    + Field("zim_content_type: ", EitherHeader(headers, "Content-Type", "content-type"))
  }

  /** `zim_headers:` and the sorted header lines, when there are headers. */
  function HeaderBlock(headers: Dict): seq<string> {
    if headers != [] then ["zim_headers:"] + HeaderLines(headers, SortedKeys(headers)) else []
  }

  /** The lines of the front matter, before they are joined. */
  function FrontMatterLines(page: PageInfo, headers: Dict): seq<string> {
    ["---"] + PageLines(page) + KnownHeaderLines(headers) + HeaderBlock(headers) + ["---"]
  }

  /** What `build_frontmatter` returns. */
  function FrontMatterText(page: PageInfo, headers: Dict): string {
    Join("\n", FrontMatterLines(page, headers)) + "\n\n"
  }

  /** Each of the three well-known headers that is set gets its line in
      the front matter, and no line is written for one that is not. */
  lemma KnownHeadersListed(page: PageInfo, headers: Dict)
    ensures var c := EitherHeader(headers, "Creation-Date", "creation-date");
      var w := EitherHeader(headers, "Wiki-Format", "wiki-format");
      var t := EitherHeader(headers, "Content-Type", "content-type");
      var lines := FrontMatterLines(page, headers);
      && (c != "" ==> "created: " + YamlEscape(c) in lines)
      && (w != "" ==> "zim_wiki_format: " + YamlEscape(w) in lines)
      && (t != "" ==> "zim_content_type: " + YamlEscape(t) in lines)
      && |lines| == 5 + |HeaderBlock(headers)| + Present(c) + Present(w) + Present(t)
  {
    var c := EitherHeader(headers, "Creation-Date", "creation-date");
    var w := EitherHeader(headers, "Wiki-Format", "wiki-format");
    var t := EitherHeader(headers, "Content-Type", "content-type");
    var f1 := Field("created: ", c);
    var f2 := Field("zim_wiki_format: ", w);
    var f3 := Field("zim_content_type: ", t);
    var pre := ["---"] + PageLines(page);
    var post := HeaderBlock(headers) + ["---"];
    ListedIn(pre, f1, f2, f3, post, FrontMatterLines(page, headers));
  }

  /** One line for a value that is set, none for one that is not. */
  function Present(v: string): nat {
    if v != "" then 1 else 0
  }

  lemma ListedIn(pre: seq<string>, f1: seq<string>, f2: seq<string>, f3: seq<string>, post: seq<string>, lines: seq<string>)
    requires lines == pre + (f1 + f2 + f3) + post
    ensures forall x :: x in f1 || x in f2 || x in f3 ==> x in lines
    ensures |lines| == |pre| + |f1| + |f2| + |f3| + |post|
  {
  }

  /** The loop of `build_frontmatter` over the sorted keys: one line per key. */
  method ListHeaders(headers: Dict) returns (listed: seq<string>)
    ensures listed == HeaderLines(headers, SortedKeys(headers))
  {
    var ks := SortedKeys(headers);
    listed := [];
    for j := 0 to |ks|
      invariant listed == HeaderLines(headers, ks[..j])
    {
      MapSeqSnoc(Lister(headers), ks, j);
      listed := listed + [HeaderLine(headers, ks[j])];
    }
    assert ks[..|ks|] == ks;
  }

  /** `if v: fm_lines.append(f"{name}{yaml_escape(v)}")`. */
  method AppendField(fmLines: seq<string>, name: string, v: string) returns (out: seq<string>)
    ensures out == fmLines + Field(name, v)
  {
    out := fmLines;
    if v != "" {
      out := out + [name + YamlEscape(v)];
    }
  }

  /** `build_frontmatter`, appending one line at a time. */
  method BuildFrontmatter(page: PageInfo, headers: Dict) returns (text: string)
    ensures text == FrontMatterText(page, headers)
  {
    var created := EitherHeader(headers, "Creation-Date", "creation-date");
    var wikiFormat := EitherHeader(headers, "Wiki-Format", "wiki-format");
    var contentType := EitherHeader(headers, "Content-Type", "content-type");

    var fmLines := ["---"];
    fmLines := fmLines + ["title: " + YamlEscape(Title(page))];
    fmLines := fmLines + ["zim_page: " + YamlEscape(ColonName(page))];
    fmLines := fmLines + ["zim_source: " + YamlEscape(page.source)];
    ghost var s0 := fmLines;
    PageLinesAppended(page, s0);
    fmLines := AppendField(fmLines, "created: ", created);
    ghost var s1 := fmLines;
    fmLines := AppendField(fmLines, "zim_wiki_format: ", wikiFormat);
    ghost var s2 := fmLines;
    fmLines := AppendField(fmLines, "zim_content_type: ", contentType);
    ghost var s3 := fmLines;
    Appended3(s0, s1, s2, s3, Field("created: ", created), Field("zim_wiki_format: ", wikiFormat),
      Field("zim_content_type: ", contentType));
    assert s3 == s0 + KnownHeaderLines(headers);

    if headers != [] {
      fmLines := fmLines + ["zim_headers:"];
      var listed := ListHeaders(headers);
      fmLines := fmLines + listed;
      AppendAssoc(s3, ["zim_headers:"], listed);
    }
    assert fmLines == s3 + HeaderBlock(headers);

    fmLines := fmLines + ["---"];
    Framed(page, headers, s0, s3, fmLines);
    text := Join("\n", fmLines) + "\n\n";
  }

  lemma Framed(page: PageInfo, headers: Dict, s0: seq<string>, s3: seq<string>, fmLines: seq<string>)
    requires s0 == ["---"] + PageLines(page)
    requires s3 == s0 + KnownHeaderLines(headers)
    requires fmLines == s3 + HeaderBlock(headers) + ["---"]
    ensures fmLines == FrontMatterLines(page, headers)
  {
  }

  /** The three page lines, appended one at a time. */
  lemma PageLinesAppended(page: PageInfo, s0: seq<string>)
    requires s0 == ["---"] + ["title: " + YamlEscape(Title(page))] + ["zim_page: " + YamlEscape(ColonName(page))]
      + ["zim_source: " + YamlEscape(page.source)]
    ensures s0 == ["---"] + PageLines(page)
  {
  }

  lemma Appended3(s0: seq<string>, s1: seq<string>, s2: seq<string>, s3: seq<string>,
                  f1: seq<string>, f2: seq<string>, f3: seq<string>)
    requires s1 == s0 + f1 && s2 == s1 + f2 && s3 == s2 + f3
    ensures s3 == s0 + (f1 + f2 + f3)
  {
  }

  /** The front matter opens with a `---` line and closes with a `---` line
      followed by one blank line. */
  lemma FrontMatterDelimited(page: PageInfo, headers: Dict)
    ensures var text := FrontMatterText(page, headers);
      && "---\n" <= text
      && |text| >= 6 && text[|text| - 6..] == "\n---\n\n"
  {
    var lines := FrontMatterLines(page, headers);
    var init := ["---"] + PageLines(page) + KnownHeaderLines(headers) + HeaderBlock(headers);
    assert lines == init + ["---"];
    JoinFramed(init);
  }

  lemma JoinFramed(init: seq<string>)
    requires init != [] && init[0] == "---"
    ensures var text := Join("\n", init + ["---"]) + "\n\n";
      && "---\n" <= text
      && |text| >= 6 && text[|text| - 6..] == "\n---\n\n"
  {
    var lines := init + ["---"];
    JoinSnoc("\n", init, "---");
    var j := Join("\n", lines);
    assert j == Join("\n", init) + "\n" + "---";
    assert lines[1..] != [];
    assert j == "---" + "\n" + Join("\n", lines[1..]);
  }

  /** Without headers the front matter is just the three page lines between
      the delimiters. */
  lemma NoHeadersFrontMatter(page: PageInfo)
    ensures FrontMatterLines(page, []) == ["---"] + PageLines(page) + ["---"]
  {
    assert EitherHeader([], "Creation-Date", "creation-date") == "";
    assert EitherHeader([], "Wiki-Format", "wiki-format") == "";
    assert EitherHeader([], "Content-Type", "content-type") == "";
    assert KnownHeaderLines([]) == [];
    assert HeaderBlock([]) == [];
  }

  /** With headers, the front matter ends with the line `zim_headers:`, one
      line per header key in sorted key order, each giving the key and its
      quoted value, and the closing `---`. */
  lemma HeaderBlockListed(page: PageInfo, headers: Dict)
    requires headers != []
    ensures var lines := FrontMatterLines(page, headers);
      var ks := SortedKeys(headers);
      var n := |headers|;
      && |ks| == n
      && |lines| >= n + 2
      && lines[|lines| - n - 2] == "zim_headers:"
      && (forall j :: 0 <= j < n ==> lines[|lines| - n - 1 + j] == HeaderLine(headers, ks[j]))
      && lines[|lines| - 1] == "---"
  {
    var ks := SortedKeys(headers);
    var n := |headers|;
    SortedKeysLength(headers);
    HeaderLinesAt(headers, ks);
    var block := HeaderLines(headers, ks);
    assert |block| == n;
    var pre := ["---"] + PageLines(page) + KnownHeaderLines(headers);
    var lines := FrontMatterLines(page, headers);
    assert lines == pre + HeaderBlock(headers) + ["---"];
    BlockAt(lines, pre, HeaderBlock(headers), "zim_headers:", block, "---");
    ListedAt(lines, block, headers, ks);
  }

  lemma ListedAt(lines: seq<string>, block: seq<string>, headers: Dict, ks: seq<string>)
    requires |block| == |ks| && |lines| >= |block| + 2
    requires forall j :: 0 <= j < |block| ==> lines[|lines| - |block| - 1 + j] == block[j]
    requires forall j :: 0 <= j < |ks| ==> block[j] == HeaderLine(headers, ks[j])
    ensures forall j :: 0 <= j < |ks| ==> lines[|lines| - |ks| - 1 + j] == HeaderLine(headers, ks[j])
  {
  }

  lemma BlockAt(lines: seq<string>, pre: seq<string>, hb: seq<string>, m: string, block: seq<string>, e: string)
    requires hb == [m] + block && lines == pre + hb + [e]
    ensures lines[|lines| - |block| - 2] == m
    ensures forall j :: 0 <= j < |block| ==> lines[|lines| - |block| - 1 + j] == block[j]
    ensures lines[|lines| - 1] == e
  {
  }

  lemma SortedKeysLength(headers: Dict)
    ensures |SortedKeys(headers)| == |headers|
  {
    assert |multiset(SortedKeys(headers))| == |multiset(Keys(headers))|;
  }

  /** The sorted keys are the keys of the dict, each once, ascending. */
  lemma SortedKeysListed(headers: Dict)
    requires DistinctKeys(headers)
    ensures var ks := SortedKeys(headers);
      && |ks| == |headers|
      && (forall k :: k in ks <==> k in Keys(headers))
      && (forall k :: k in ks ==> Get(headers, k) == Some(Value(headers, k)))
      && (forall i, j :: 0 <= i < j < |ks| ==> Less(ks[i], ks[j]))
  {
    var ks := SortedKeys(headers);
    SortedKeysLength(headers);
    forall k ensures k in ks <==> k in Keys(headers) {
      assert k in ks <==> k in multiset(ks);
      assert k in Keys(headers) <==> k in multiset(Keys(headers));
    }
    forall i, j | 0 <= i < j < |Keys(headers)| ensures Keys(headers)[i] != Keys(headers)[j] {
      KeysAt(headers, i);
      KeysAt(headers, j);
    }
    SortDistinct(Keys(headers));
  }
}
