/** The page body pipeline (converter.py:300-349) and the conversion of one
    page's text once it has been read (converter.py:462-472). */
module Body {
  import opened Wrappers
  import opened Strings
  import opened Headers
  import opened Pages
  import Headings
  import HorizontalRule
  import Images
  import Links
  import ListItems
  import Inline
  import FrontMatter

  /** The Markdown code fence. */
  const Backticks: Line := "```"

  /** A Zim code fence: `'''` alone on its line, whitespace aside. */
  predicate IsFence(line: string) {
    Strip(line) == "'''"
  }

  /** The number of fence lines. */
  function FenceCount(lines: seq<string>): nat {
    if lines == [] then 0
    else FenceCount(lines[..|lines| - 1]) + (if IsFence(lines[|lines| - 1]) then 1 else 0)
  }

  /** Whether a code block is still open after the lines: each fence
      toggles it. */
  function Open(lines: seq<string>): bool {
    if lines == [] then false
    else if IsFence(lines[|lines| - 1]) then !Open(lines[..|lines| - 1])
    else Open(lines[..|lines| - 1])
  }

  /** A block is left open exactly when the number of fences is odd. */
  lemma {:induction false} OpenOdd(lines: seq<string>)
    ensures Open(lines) <==> FenceCount(lines) % 2 == 1
  {
    if lines != [] {
      var init := lines[..|lines| - 1];
      OpenOdd(init);
      Toggled(Open(init), FenceCount(init), IsFence(lines[|lines| - 1]));
    }
  }

  /** One more line toggles the block exactly when it adds one fence. */
  lemma Toggled(open: bool, count: nat, fence: bool)
    requires open <==> count % 2 == 1
    ensures (if fence then !open else open) <==> (count + if fence then 1 else 0) % 2 == 1
  {
  }

  /** One line after `convert_codeblocks`. */
  function Refenced(line: Line): Line {
    if IsFence(line) then Backticks else line
  }

  /** What `convert_codeblocks` returns. */
  function Codeblocks(lines: seq<Line>): seq<Line> {
    MapSeq(Refenced, lines) + if Open(lines) then [Backticks] else []
  }

  /** Every fence becomes a Markdown fence, every other line stays where it
      was, and exactly one fence is added, at the end, when the number of
      fences is odd. */
  lemma CodeblocksShape(lines: seq<Line>)
    ensures var out := Codeblocks(lines);
      && |out| == |lines| + FenceCount(lines) % 2
      && (forall i :: 0 <= i < |lines| ==> out[i] == if IsFence(lines[i]) then Backticks else lines[i])
      && (|out| > |lines| ==> out[|lines|] == Backticks)
  {
    OpenOdd(lines);
    MapSeqAt(Refenced, lines);
  }

  /** `convert_codeblocks`, toggling `inBlock` at every fence. */
  method ConvertCodeblocks(lines: seq<Line>) returns (out: seq<Line>)
    ensures out == Codeblocks(lines)
  {
    out := [];
    var inBlock := false;
    for i := 0 to |lines|
      invariant out == MapSeq(Refenced, lines[..i])
      invariant inBlock == Open(lines[..i])
    {
      assert lines[..i + 1][..i] == lines[..i];
      var line := lines[i];
      if Strip(line) == "'''" {
        out := out + [Backticks];
        inBlock := !inBlock;
      } else {
        out := out + [line];
      }
    }
    assert lines[..|lines|] == lines;
    if inBlock {
      out := out + [Backticks];
    }
  }

  /** One line through the rules in `convert_page_body`'s order: a heading
      replaces the whole line; any other line goes through the rule for
      horizontal rules, then images, links, list items and inline markup. */
  function ConvertLine(line: Line, page: PageInfo, index: PageIndex): string {
    match Headings.ZimHeading(line)
    case Some(h) => h
    case None =>
      var ruled := HorizontalRule.ConvertHr(line);
      var embedded := Images.ConvertImages(ruled, Stem(page));
      var linked := Links.ConvertLinks(embedded, page, index);
      var listed := ListItems.ConvertLists(linked);
      Inline.ConvertInline(listed)
  }

  function Converter(page: PageInfo, index: PageIndex): Line -> string {
    (line: Line) => ConvertLine(line, page, index)
  }

  /** Every line converted on its own: the rules never look at the lines
      around it. */
  function ConvertLines(lines: seq<Line>, page: PageInfo, index: PageIndex): seq<string> {
    MapSeq(Converter(page, index), lines)
  }

  /** One converted line per input line, each the conversion of the line
      at the same place. */
  lemma ConvertLinesAt(lines: seq<Line>, page: PageInfo, index: PageIndex)
    ensures |ConvertLines(lines, page, index)| == |lines|
    ensures forall i :: 0 <= i < |lines| ==> ConvertLines(lines, page, index)[i] == ConvertLine(lines[i], page, index)
  {
    MapSeqAt(Converter(page, index), lines);
  }

  /** `"\n".join(out).rstrip() + "\n"`. */
  function Finish(out: seq<string>): string {
    RStrip(Join("\n", out)) + "\n"
  }

  /** What `convert_page_body` returns. */
  function BodyText(body: string, page: PageInfo, index: PageIndex): string {
    Finish(ConvertLines(Codeblocks(SplitLines(body)), page, index))
  }

  /** A text that ends with one newline, with no whitespace before it. */
  predicate EndsWithOneNewline(text: string) {
    |text| >= 1 && text[|text| - 1] == '\n' && (|text| == 1 || !IsSpace(text[|text| - 2]))
  }

  /** `convert_page_body`, appending one converted line at a time. */
  method ConvertPageBody(body: string, page: PageInfo, index: PageIndex) returns (text: string)
    ensures text == BodyText(body, page, index)
    ensures EndsWithOneNewline(text)
  {
    var lines := SplitLines(body);
    lines := ConvertCodeblocks(lines);
    var out: seq<string> := [];
    for i := 0 to |lines|
      invariant out == ConvertLines(lines[..i], page, index)
    {
      var line := lines[i];
      var converted;
      var h := Headings.ZimHeading(line);
      if h.Some? {
        converted := h.value;
      } else {
        var ruled := HorizontalRule.ConvertHr(line);
        var embedded := Images.ConvertImages(ruled, Stem(page));
        var linked := Links.ConvertLinks(embedded, page, index);
        var listed := ListItems.ConvertLists(linked);
        converted := Inline.ConvertInline(listed);
      }
      assert converted == ConvertLine(line, page, index);
      MapSeqSnoc(Converter(page, index), lines, i);
      out := out + [converted];
    }
    assert lines[..|lines|] == lines;
    text := RStrip(Join("\n", out)) + "\n";
    FinishEnds(out);
  }

  /** The body always ends with exactly one newline. */
  lemma FinishEnds(out: seq<string>)
    ensures EndsWithOneNewline(Finish(out))
  {
    var s := Join("\n", out);
    var b := RunBack(s, |s|, IsSpace);
    assert RStrip(s) == s[..b];
  }

  /** When the joined lines end in something other than whitespace, nothing
      is cut before the newline is added. */
  lemma FinishKeeps(out: seq<string>)
    requires var s := Join("\n", out); s != [] && !IsSpace(s[|s| - 1])
    ensures Finish(out) == Join("\n", out) + "\n"
  {
    var s := Join("\n", out);
    assert RunBack(s, |s|, IsSpace) == |s|;
    assert s[..|s|] == s;
  }

  /** Cutting trailing whitespace keeps any prefix that ends in something
      other than whitespace. */
  lemma RStripKeepsPrefix(p: string, s: string)
    requires p <= s && p != [] && !IsSpace(p[|p| - 1])
    ensures p <= RStrip(s)
  {
    var b := RunBack(s, |s|, IsSpace);
    assert s[|p| - 1] == p[|p| - 1];
    assert |p| <= b;
  }

  /** The joined lines start with the first line. */
  lemma JoinStarts(parts: seq<string>)
    requires parts != []
    ensures parts[0] <= Join("\n", parts)
  {
  }

  /** The conversion of one page: `None` when its `Content-Type` header
      (either spelling) does not name Zim wiki text, in which case nothing
      is written for the page (and, being listed as a page, it is not
      copied as an attachment either); otherwise the front matter,
      unless it is turned off, followed by the converted body. */
  function PageText(raw: string, page: PageInfo, index: PageIndex, noFrontmatter: bool): Option<string> {
    var headers := HeadersOf(raw);
    var contentType := Lower(FrontMatter.EitherHeader(headers, "Content-Type", "content-type"));
    if !IsInfix(ZimContentType, contentType) then None
    else
      var frontmatter := if noFrontmatter then "" else FrontMatter.FrontMatterText(page, headers);
      Some(frontmatter + BodyText(BodyOf(raw), page, index))
  }

  /** The steps of the conversion loop of `convert` for one page, after the
      page's text has been read and before it is written. */
  method ConvertPage(raw: string, page: PageInfo, index: PageIndex, noFrontmatter: bool) returns (r: Option<string>)
    ensures r == PageText(raw, page, index, noFrontmatter)
  {
    var headers, body := ParseHeadersAndBody(raw);
    var contentType := Lower(FrontMatter.EitherHeader(headers, "Content-Type", "content-type"));
    if !IsInfix(ZimContentType, contentType) {
      return None;
    }
    var mdBody := ConvertPageBody(body, page, index);
    var frontmatter := "";
    if !noFrontmatter {
      frontmatter := FrontMatter.BuildFrontmatter(page, headers);
    }
    r := Some(frontmatter + mdBody);
  }

  /** A line that no rule before the list rule touches. */
  lemma Untouched(line: Line, page: PageInfo, index: PageIndex)
    requires line != [] && !IsSpace(line[0]) && line[0] != '-' && line[0] != '='
    requires '{' !in line && '[' !in line
    ensures ConvertLine(line, page, index) == Inline.ConvertInline(ListItems.ConvertLists(line))
  {
    Headings.NotHeading(line);
    HorizontalRule.NotRule(line);
    Images.NoImageUnchanged(line, Stem(page));
    Links.EmbedsUnchanged(line, page, index);
  }

  /** A `*` bullet with plain text, which no other rule touches, becomes a
      `-` bullet. */
  lemma BulletLine(line: Line, x: Line, page: PageInfo, index: PageIndex)
    requires line == "* " + x
    requires '{' !in x && '[' !in x && '_' !in x && '\'' !in x && '/' !in x
    ensures ConvertLine(line, page, index) == "- " + x
  {
    Untouched(line, page, index);
    BulletOf(line, x);
    var listed := ListItems.ConvertLists(line);
    Inline.PlainTextUnchanged(listed);
  }

  lemma BulletOf(line: Line, x: Line)
    requires line == "* " + x && '_' !in x && '\'' !in x && '/' !in x
    ensures ListItems.ConvertLists(line) == "- " + x
    ensures var s := "- " + x; '_' !in s && '\'' !in s && Inline.OnlyUrlSlashes(s)
  {
    assert line == "" + "* " + x;
    ListItems.Bullet(line, "", x);
    assert ListItems.Spaces("") == "";
  }

  /** The Markdown fence passes through every rule unchanged. */
  lemma FenceLine(fence: Line, page: PageInfo, index: PageIndex)
    requires fence == Backticks
    ensures ConvertLine(fence, page, index) == fence
  {
    FenceUntouched(fence, page, index);
    FenceListed(fence);
    FencePlain(fence);
  }

  lemma FenceUntouched(fence: Line, page: PageInfo, index: PageIndex)
    requires fence == Backticks
    ensures ConvertLine(fence, page, index) == Inline.ConvertInline(ListItems.ConvertLists(fence))
  {
    assert |fence| == 3 && fence[0] == '`';
    assert '{' !in fence && '[' !in fence;
    Untouched(fence, page, index);
  }

  lemma FenceListed(fence: Line)
    requires fence == Backticks
    ensures ListItems.ConvertLists(fence) == fence
  {
    assert ListItems.MatchBox(fence).None?;
    ListItems.OtherUnchanged(fence);
  }

  lemma FencePlain(fence: Line)
    requires fence == Backticks
    ensures Inline.ConvertInline(fence) == fence
  {
    assert '_' !in fence && '\'' !in fence && '/' !in fence;
    Inline.PlainTextUnchanged(fence);
  }

  /** The rules also apply between fences: a bullet in a code block comes
      out as a `-` bullet between Markdown fences. */
  lemma FencedBullet(lines: seq<Line>, x: Line, page: PageInfo, index: PageIndex)
    requires lines == ["'''", "* " + x, "'''"]
    requires '{' !in x && '[' !in x && '_' !in x && '\'' !in x && '/' !in x
    ensures Codeblocks(lines) == [Backticks, "* " + x, Backticks]
    ensures ConvertLines(Codeblocks(lines), page, index) == [Backticks, "- " + x, Backticks]
  {
    var fence := lines[0];
    var item := lines[1];
    ZimFence(fence);
    StripFirst(item);
    FencedBlock(lines, fence, item);
    var fenced := Codeblocks(lines);
    var md := fenced[0];
    FenceLine(md, page, index);
    BulletLine(item, x, page, index);
    ConvertThree(fenced, md, item, page, index);
  }

  lemma ConvertThree(lines: seq<Line>, fence: Line, item: Line, page: PageInfo, index: PageIndex)
    requires lines == [fence, item, fence]
    ensures ConvertLines(lines, page, index) == [ConvertLine(fence, page, index), ConvertLine(item, page, index), ConvertLine(fence, page, index)]
  {
    var f := Converter(page, index);
    MapSeqThree(f, lines, fence, item);
    assert f(fence) == ConvertLine(fence, page, index);
    assert f(item) == ConvertLine(item, page, index);
  }

  lemma ZimFence(fence: Line)
    requires fence == "'''"
    ensures IsFence(fence)
  {
    StrippedAlready(fence);
  }

  /** Two fences around a line: both become Markdown fences and none is
      added. */
  lemma FencedBlock(lines: seq<Line>, fence: Line, item: Line)
    requires lines == [fence, item, fence] && IsFence(fence) && !IsFence(item)
    ensures Codeblocks(lines) == [Backticks, item, Backticks]
  {
    FencedClosed(lines, fence, item);
    FencedMapped(lines, fence, item);
    var mapped := MapSeq(Refenced, lines);
    assert mapped + [] == mapped;
  }

  lemma FencedClosed(lines: seq<Line>, fence: Line, item: Line)
    requires lines == [fence, item, fence] && IsFence(fence) && !IsFence(item)
    ensures !Open(lines)
  {
    var one := lines[..1];
    var two := lines[..2];
    assert one[..0] == [] && one[0] == fence;
    assert Open(one);
    assert two[..1] == one && two[1] == item;
    assert Open(two);
    assert lines[..2] == two && lines[2] == fence;
  }

  lemma FencedMapped(lines: seq<Line>, fence: Line, item: Line)
    requires lines == [fence, item, fence] && IsFence(fence) && !IsFence(item)
    ensures MapSeq(Refenced, lines) == [Backticks, item, Backticks]
  {
    MapSeqThree(Refenced, lines, fence, item);
  }

  /** A body whose first line is the heading `====== t ======` starts,
      once converted, with `# t`. */
  lemma HeadingFirst(body: string, line: Line, rest: string, t: string, page: PageInfo, index: PageIndex)
    requires line == "====== " + t + " ======" && NoBreak(line)
    requires t != [] && !IsSpace(t[0]) && !IsSpace(t[|t| - 1])
    requires body == line + "\n" + rest
    ensures "# " + t <= BodyText(body, page, index)
  {
    SplitFirstLine(line, rest);
    assert !IsFence(line) by {
      StrippedAlready(line);
    }
    var out := FirstLineKept(SplitLines(body), page, index);
    Headings.TopHeading(line, t);
    HeadingLine(line, "# " + t, page, index);
    FinishPrefix(out, "# " + t);
  }

  /** A heading line is replaced by the heading alone. */
  lemma HeadingLine(line: Line, h: string, page: PageInfo, index: PageIndex)
    requires Headings.ZimHeading(line) == Some(h)
    ensures ConvertLine(line, page, index) == h
  {
  }

  /** A first line that is no fence is converted first. */
  lemma FirstLineKept(lines: seq<Line>, page: PageInfo, index: PageIndex) returns (out: seq<string>)
    requires lines != [] && !IsFence(lines[0])
    ensures out == ConvertLines(Codeblocks(lines), page, index)
    ensures out != [] && out[0] == ConvertLine(lines[0], page, index)
  {
    CodeblocksShape(lines);
    var fenced := Codeblocks(lines);
    ConvertLinesAt(fenced, page, index);
    out := ConvertLines(fenced, page, index);
  }

  /** Finishing keeps a prefix of the first line that ends in something
      other than whitespace. */
  lemma FinishPrefix(out: seq<string>, p: string)
    requires out != [] && p <= out[0] && p != [] && !IsSpace(p[|p| - 1])
    ensures p <= Finish(out)
  {
    JoinStarts(out);
    var joined := Join("\n", out);
    RStripKeepsPrefix(p, joined);
  }

  /** A page converted with front matter: the front matter, then the body. */
  lemma FramedPage(raw: string, page: PageInfo, index: PageIndex)
    requires PageText(raw, page, index, false).Some?
    ensures PageText(raw, page, index, false).value
      == FrontMatter.FrontMatterText(page, HeadersOf(raw)) + BodyText(BodyOf(raw), page, index)
  {
  }

  /** A page converted without front matter: the body alone. */
  lemma BarePage(raw: string, page: PageInfo, index: PageIndex)
    requires PageText(raw, page, index, true).Some?
    ensures PageText(raw, page, index, true).value == BodyText(BodyOf(raw), page, index)
  {
    assert "" + BodyText(BodyOf(raw), page, index) == BodyText(BodyOf(raw), page, index);
  }

  /** With front matter, a converted page starts with the `---` line. */
  lemma FrontMatterFirst(raw: string, page: PageInfo, index: PageIndex)
    requires PageText(raw, page, index, false).Some?
    ensures "---\n" <= PageText(raw, page, index, false).value
  {
    FramedPage(raw, page, index);
    FrontMatter.FrontMatterDelimited(page, HeadersOf(raw));
  }

  /** Without front matter, a page whose body starts with the heading
      `====== t ======` starts with `# t` and not with a `---` line. */
  lemma HeadingFirstPage(raw: string, line: Line, rest: string, t: string, page: PageInfo, index: PageIndex)
    requires PageText(raw, page, index, true).Some?
    requires line == "====== " + t + " ======" && NoBreak(line)
    requires t != [] && !IsSpace(t[0]) && !IsSpace(t[|t| - 1])
    requires BodyOf(raw) == line + "\n" + rest
    ensures var text := PageText(raw, page, index, true).value;
      "# " + t <= text && !("---" <= text)
  {
    BarePage(raw, page, index);
    HeadingFirst(BodyOf(raw), line, rest, t, page, index);
    var text := PageText(raw, page, index, true).value;
    assert text[0] == '#';
  }
}
