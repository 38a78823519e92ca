/** A page of the notebook and the names derived from its path: the logical
    path that keys the page index, the colon name, the title, and the test
    that tells a page file from an attachment. */
module Pages {
  import opened Wrappers
  import opened Strings

  /** One component of a path relative to the notebook root. A path component
      is never empty, never `.` and holds no `/`; the model also takes it to
      hold no newline. */
  type Segment = s: string | s != "" && s != "." && '/' !in s && '\n' !in s witness "a"

  /** A discovered page: where it was read from and its path relative to the
      notebook root with the extension removed, one segment per component. */
  datatype PageInfo = PageInfo(source: string, segments: seq<Segment>)

  /** The page index: the logical path of every page of the notebook. */
  type PageIndex = set<string>

  /** `rel_no_ext.as_posix()`, the key of the page in the index. */
  function LogicalPath(page: PageInfo): string {
    Join("/", page.segments)
  }

  /** `rel_no_ext.name`, the page's own name, which also names its attachment folder. */
  function Stem(page: PageInfo): Line {
    if page.segments == [] then "" else page.segments[|page.segments| - 1]
  }

  /** `rel_no_ext.parent.as_posix()`: `.` for a page at the root. */
  function FolderPath(page: PageInfo): string {
    if |page.segments| <= 1 then "." else Join("/", page.segments[..|page.segments| - 1])
  }

  /** `":".join(rel_no_ext.parts)`. */
  function ColonName(page: PageInfo): string {
    Join(":", page.segments)
  }

  /** `rel_no_ext.name.replace("_", " ")`. */
  function Title(page: PageInfo): string {
    Replace(Stem(page), '_', " ")
  }

  /** The index the converter builds from the discovered pages. */
  function IndexOf(pages: seq<PageInfo>): (index: PageIndex)
    ensures forall p :: p in pages ==> LogicalPath(p) in index
    ensures forall key :: key in index ==> exists p :: p in pages && LogicalPath(p) == key
  {
    set p | p in pages :: LogicalPath(p)
  }

  /** The title is the page name with every underscore made a space and no
      other character changed. */
  lemma TitleOfStem(page: PageInfo)
    ensures |Title(page)| == |Stem(page)|
    ensures forall i :: 0 <= i < |Stem(page)| ==>
      Title(page)[i] == if Stem(page)[i] == '_' then ' ' else Stem(page)[i]
  {
    forall i | 0 <= i < |Stem(page)|
      ensures Title(page)[i] == if Stem(page)[i] == '_' then ' ' else Stem(page)[i]
    {
      ReplaceAt(Stem(page), '_', ' ', i);
    }
  }

  /** The colon name lists the path segments in order: splitting it at `:`
      gives them back when no segment holds a colon. */
  lemma ColonNameSegments(page: PageInfo)
    requires page.segments != []
    requires forall i :: 0 <= i < |page.segments| ==> ':' !in page.segments[i]
    ensures Split(ColonName(page), ':') == page.segments
  {
    SplitJoin(page.segments, ':');
  }

  /** The logical path is the segments joined with `/`, and splitting it at
      `/` gives them back. */
  lemma LogicalPathSegments(page: PageInfo)
    requires page.segments != []
    ensures Split(LogicalPath(page), '/') == page.segments
  {
    SplitJoin(page.segments, '/');
  }

  /** pathlib's `suffix`: from the last dot of the name, unless that dot is
      the first or the last character. */
  function Suffix(name: string): (r: string)
    ensures r != [] ==> 2 <= |r| < |name| && r == name[|name| - |r|..] && r[0] == '.' && '.' !in r[1..]
    ensures forall i :: 0 < i < |name| - 1 && name[i] == '.' && '.' !in name[i + 1..] ==> r == name[i..]
  {
    match FindLast(name, '.')
    case None => ""
    case Some(j) => if 0 < j < |name| - 1 then name[j..] else ""
  }

  /** A file named `stem.txt` has the suffix `.txt`, whatever dots the stem
      holds, as long as the stem is not empty. */
  lemma TxtSuffix(stem: string)
    requires stem != []
    ensures Suffix(stem + ".txt") == ".txt"
  {
    var name := stem + ".txt";
    assert name[|stem|] == '.' && name[|stem| + 1..] == "txt";
    assert name[|stem|..] == ".txt";
  }

  const ZimContentType: string := "text/x-zim-wiki"

  /** `is_zim_page_file` once the first line has been read (`firstLine` is
      that line as read, before stripping): a `.txt` suffix in any case, and
      a first line that starts with `content-type:` and names the Zim wiki
      type, both compared in lower case. */
  predicate IsZimPageFile(name: string, firstLine: string) {
    && Lower(Suffix(name)) == ".txt"
    && var first := Lower(Strip(firstLine));
       "content-type:" <= first && IsInfix(ZimContentType, first)
  }

  /** The probe reads the literal first line: a file whose first line is
      blank is never taken for a page, whatever follows. */
  lemma BlankFirstLineIsNotPage(name: string, firstLine: string)
    requires AllSpace(firstLine)
    ensures !IsZimPageFile(name, firstLine)
  {
    assert Strip(firstLine) == "";
  }
}
