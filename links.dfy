/** Links (converter.py:226-297): `[[target]]` and `[[target|label]]`.
    External targets become Markdown links, targets with a `/` become
    Markdown links to attachments, and every other target is resolved to a
    page of the vault and stays a wikilink. A bare page name is looked up
    from the page's own folder up to the notebook root. */
module Links {
  import opened Wrappers
  import opened Strings
  import opened Scan
  import opened Pages
  import Images

  /** `is_external_link_target`: an `http://`, `https://` or `file://`
      target in any case. */
  predicate IsExternal(t: string) {
    var tl := Lower(t);
    "http://" <= tl || "https://" <= tl || "file://" <= tl
  }

  /** `replace(":", "/")`: Zim's namespace separator made a path separator. */
  function Slashed(s: string): string {
    Replace(s, ':', "/")
  }

  /** The folders of the first `i` of `parts`, then of fewer, down to the
      first part alone (the loop over `range(len(parts), 0, -1)`). */
  function Parents(parts: seq<string>, i: nat): seq<string>
    requires i <= |parts|
  {
    if i == 0 then [] else [Join("/", parts[..i])] + Parents(parts, i - 1)
  }

  /** `parents`: the folder of the page and each folder above it, deepest
      first, and the notebook root `""` last. */
  function Folders(page: PageInfo): seq<string> {
    var dir := FolderPath(page);
    var above := if dir != "" && dir != "." then Parents(Split(dir, '/'), |Split(dir, '/')|) else [];
    above + [""]
  }

  /** `f"{p}/{t}".strip("/")`: the name `t` looked up in the folder `p`. */
  function Candidate(folder: string, t: string): string {
    StripChar(folder + "/" + t, '/')
  }

  /** The first candidate, in the order of the folders, that names a page. */
  function FirstPage(folders: seq<string>, t: string, index: PageIndex): Option<string> {
    if folders == [] then None
    else if Candidate(folders[0], t) in index then Some(Candidate(folders[0], t))
    else FirstPage(folders[1..], t, index)
  }

  /** `resolve_internal`, for a target already stripped by the caller. */
  function Resolve(raw: string, page: PageInfo, index: PageIndex): string {
    var t := Strip(Slashed(raw));
    if ":" <= raw then StripChar(Slashed(raw[1..]), '/')
    else if "+" <= raw then StripChar(LogicalPath(page) + "/" + StripChar(Slashed(raw[1..]), '/'), '/')
    else if '/' in t then StripChar(t, '/')
    else match FirstPage(Folders(page), t, index)
      case Some(c) => c
      case None => t
  }

  /** `resolve_internal` as the source runs it: build the list of folders
      in a loop, then scan it for the first candidate in the index. */
  method ResolveInternal(raw: string, page: PageInfo, index: PageIndex) returns (r: string)
    ensures r == Resolve(raw, page, index)
  {
    var t := Strip(Slashed(raw));
    if ":" <= raw {
      return StripChar(Slashed(raw[1..]), '/');
    }
    if "+" <= raw {
      var sub := StripChar(Slashed(raw[1..]), '/');
      return StripChar(LogicalPath(page) + "/" + sub, '/');
    }
    if '/' in t {
      return StripChar(t, '/');
    }
    var parents := ParentFolders(page);
    var found := FirstCandidate(parents, t, index);
    if found.Some? {
      return found.value;
    }
    return t;
  }

  /** The loop that lists the folders to search, deepest first. */
  method ParentFolders(page: PageInfo) returns (parents: seq<string>)
    ensures parents == Folders(page)
  {
    parents := [];
    var dir := FolderPath(page);
    if dir != "" && dir != "." {
      var parts := Split(dir, '/');
      var i := |parts|;
      while i > 0
        invariant 0 <= i <= |parts|
        invariant parents + Parents(parts, i) == Parents(parts, |parts|)
      {
        assert Parents(parts, i) == [Join("/", parts[..i])] + Parents(parts, i - 1);
        AppendAssoc(parents, [Join("/", parts[..i])], Parents(parts, i - 1));
        parents := parents + [Join("/", parts[..i])];
        i := i - 1;
      }
    }
    parents := parents + [""];
  }

  /** The loop that returns the first candidate in the index. */
  method FirstCandidate(parents: seq<string>, t: string, index: PageIndex) returns (found: Option<string>)
    ensures found == FirstPage(parents, t, index)
  {
    var k := 0;
    while k < |parents|
      invariant 0 <= k <= |parents|
      invariant FirstPage(parents[k..], t, index) == FirstPage(parents, t, index)
    {
      var cand := Candidate(parents[k], t);
      assert parents[k..][0] == parents[k];
      if cand in index {
        return Some(cand);
      }
      assert parents[k..][1..] == parents[k + 1..];
      k := k + 1;
    }
    assert parents[k..] == [];
    return None;
  }

  /** The candidate found is the first of the folders' candidates that is a
      page, and every earlier one is not. */
  lemma {:induction false} FirstPageAt(folders: seq<string>, t: string, index: PageIndex) returns (k: nat)
    requires FirstPage(folders, t, index).Some?
    ensures k < |folders| && FirstPage(folders, t, index).value == Candidate(folders[k], t)
    ensures Candidate(folders[k], t) in index
    ensures forall j :: 0 <= j < k ==> Candidate(folders[j], t) !in index
  {
    if Candidate(folders[0], t) in index {
      k := 0;
    } else {
      var k' := FirstPageAt(folders[1..], t, index);
      k := k' + 1;
      assert FirstPage(folders, t, index) == FirstPage(folders[1..], t, index);
      assert folders[1..][k'] == folders[k];
      forall j | 0 <= j < k ensures Candidate(folders[j], t) !in index {
        if j > 0 {
          assert folders[j] == folders[1..][j - 1];
        }
      }
    }
  }

  /** Nothing is found exactly when no folder's candidate is a page. */
  lemma {:induction false} FirstPageNone(folders: seq<string>, t: string, index: PageIndex)
    ensures FirstPage(folders, t, index).None? <==> forall k :: 0 <= k < |folders| ==> Candidate(folders[k], t) !in index
  {
    if folders != [] {
      FirstPageNone(folders[1..], t, index);
      if Candidate(folders[0], t) !in index {
        assert forall k :: 1 <= k < |folders| ==> folders[k] == folders[1..][k - 1];
      }
    }
  }

  /** `r` is the candidate of some folder, and no earlier folder's
      candidate is a page. */
  predicate FoundFirst(fs: seq<string>, t: string, index: PageIndex, r: string) {
    exists k :: 0 <= k < |fs| && r == Candidate(fs[k], t) && forall j :: 0 <= j < k ==> Candidate(fs[j], t) !in index
  }

  /** A bare name: the first candidate, from the page's folder up to the
      root, that is a page of the index, or else the name itself when no
      candidate is. So a bare link resolves to a page of the index or to
      the name as written. */
  lemma BareLink(raw: string, page: PageInfo, index: PageIndex)
    requires !(":" <= raw) && !("+" <= raw) && '/' !in Strip(Slashed(raw))
    ensures var t := Strip(Slashed(raw));
      var fs := Folders(page);
      var r := Resolve(raw, page, index);
      || (r in index && FoundFirst(fs, t, index, r))
      || (r == t && forall k :: 0 <= k < |fs| ==> Candidate(fs[k], t) !in index)
  {
    var t := Strip(Slashed(raw));
    var fs := Folders(page);
    FirstPageNone(fs, t, index);
    if FirstPage(fs, t, index).Some? {
      var k := FirstPageAt(fs, t, index);
    }
  }

  /** A folder path has no `/` at either end: it is a join of segments. */
  lemma {:induction false} JoinEnds(parts: seq<Segment>)
    requires parts != []
    ensures var j := Join("/", parts); var last := parts[|parts| - 1];
      j != [] && j[0] == parts[0][0] && j[|j| - 1] == last[|last| - 1] && j[|j| - 1] != '/'
  {
    if |parts| > 1 {
      JoinEnds(parts[1..]);
      var rest := Join("/", parts[1..]);
      assert Join("/", parts) == parts[0] + "/" + rest;
    }
  }

  /** `strip("/")` keeps a string that neither starts nor ends with `/`. */
  lemma StripSlashNone(s: string)
    requires s == [] || (s[0] != '/' && s[|s| - 1] != '/')
    ensures StripChar(s, '/') == s
  {
    if s != [] {
      RunEndAt(s, 0, 0, Is('/'));
      assert RunBack(s, |s|, Is('/')) == |s|;
    }
  }

  /** A name looked up in a folder is the folder, a `/` and the name, and a
      name looked up at the root is the name itself. */
  lemma CandidateIn(folder: seq<Segment>, t: string)
    requires t != [] && t[0] != '/' && t[|t| - 1] != '/'
    ensures Candidate(Join("/", folder), t) == if folder == [] then t else Join("/", folder) + "/" + t
  {
    if folder == [] {
      assert Join("/", folder) == "";
      CandidateAtRoot(t);
    } else {
      CandidateBelow(folder, t);
    }
  }

  lemma CandidateAtRoot(t: string)
    requires t != [] && t[0] != '/' && t[|t| - 1] != '/'
    ensures Candidate("", t) == t
  {
    var s := "/" + t;
    assert "" + "/" + t == s;
    assert s[1..] == t;
    RunEndAt(s, 0, 1, Is('/'));
    assert LStripChar(s, '/') == t;
    StripSlashNone(t);
    RunEndAt(t, 0, 0, Is('/'));
    assert LStripChar(t, '/') == t;
  }

  lemma CandidateBelow(folder: seq<Segment>, t: string)
    requires folder != [] && t != [] && t[0] != '/' && t[|t| - 1] != '/'
    ensures Candidate(Join("/", folder), t) == Join("/", folder) + "/" + t
  {
    JoinEnds(folder);
    var s := Join("/", folder) + "/" + t;
    assert s[|s| - 1] == t[|t| - 1];
    StripSlashNone(s);
  }

  /** The folders of the first `i` parts in the order they are tried:
      position `k` holds the first `i - k` parts. */
  lemma {:induction false} ParentsAt(parts: seq<string>, i: nat, k: nat)
    requires k < i <= |parts|
    ensures |Parents(parts, i)| == i && Parents(parts, i)[k] == Join("/", parts[..i - k])
  {
    if k > 0 {
      ParentsAt(parts, i - 1, k - 1);
    } else if i > 1 {
      ParentsAt(parts, i - 1, 0);
    }
  }

  /** For a page below the root, the folders tried are the page's folder,
      each folder above it, and the root: folder `k` is the page's first
      `n - 1 - k` segments, and the last folder is the root. */
  lemma FoldersOfPage(page: PageInfo, k: nat)
    requires |page.segments| >= 2 && k < |page.segments| - 1
    ensures var n := |page.segments|;
      |Folders(page)| == n && Folders(page)[k] == Join("/", page.segments[..n - 1 - k]) && Folders(page)[n - 1] == ""
  {
    var n := |page.segments|;
    var up := page.segments[..n - 1];
    FolderParts(page);
    ParentsAt(up, n - 1, k);
    assert up[..n - 1 - k] == page.segments[..n - 1 - k];
  }

  /** The folder of a page below the root, and its parts. */
  lemma FolderParts(page: PageInfo)
    requires |page.segments| >= 2
    ensures var up := page.segments[..|page.segments| - 1];
      var dir := FolderPath(page);
      dir == Join("/", up) && dir != "" && dir != "." && Split(dir, '/') == up
  {
    var n := |page.segments|;
    var up := page.segments[..n - 1];
    var dir := Join("/", up);
    JoinEnds(up);
    if n > 2 {
      assert dir == up[0] + "/" + Join("/", up[1..]);
      assert dir[|up[0]|] == '/';
    }
    SplitJoin(up, '/');
  }

  /** A bare name, already trimmed and free of colons and slashes, is
      looked up in the folders. */
  lemma BareName(t: Segment, page: PageInfo, index: PageIndex)
    requires ':' !in t && t[0] != '+' && Trimmed(t)
    ensures Resolve(t, page, index) == match FirstPage(Folders(page), t, index) case Some(c) => c case None => t
  {
    assert Slashed(t) == t;
    StrippedAlready(t);
  }

  /** A page at the root looks a bare name up at the root only. */
  lemma FoldersAtRoot(page: PageInfo)
    requires |page.segments| <= 1
    ensures Folders(page) == [""]
  {
  }

  /** No segment holds a colon. */
  predicate ColonFree(names: seq<Segment>) {
    forall i :: 0 <= i < |names| ==> ':' !in names[i]
  }

  /** A colon path `X:Y:Z` written with slashes, `X/Y/Z`. */
  lemma ColonPath(names: seq<Segment>)
    requires names != [] && ColonFree(names)
    ensures Slashed(Join(":", names)) == Join("/", names)
    ensures StripChar(Join("/", names), '/') == Join("/", names)
  {
    ReplaceJoin(names, ':', "/");
    JoinEnds(names);
    StripSlashNone(Join("/", names));
  }

  /** A root link `[[:X:Y]]` resolves to `X/Y`, whatever the page and the
      index. */
  lemma RootLink(names: seq<Segment>, page: PageInfo, index: PageIndex)
    requires names != [] && ColonFree(names)
    ensures Resolve(":" + Join(":", names), page, index) == Join("/", names)
  {
    var raw := ":" + Join(":", names);
    assert raw[1..] == Join(":", names);
    ColonPath(names);
  }

  /** A subpage link `[[+X:Y]]` resolves below the current page, to
      `<page>/X/Y`, or to `X/Y` for the page with no path. */
  lemma SubpageLink(names: seq<Segment>, page: PageInfo, index: PageIndex)
    requires names != [] && ColonFree(names)
    ensures Resolve("+" + Join(":", names), page, index) ==
      if page.segments == [] then Join("/", names) else LogicalPath(page) + "/" + Join("/", names)
  {
    var raw := "+" + Join(":", names);
    assert raw[1..] == Join(":", names);
    ColonPath(names);
    var sub := Join("/", names);
    JoinEnds(names);
    assert names[0][0] in names[0];
    assert Resolve(raw, page, index) == Candidate(Join("/", page.segments), sub);
    CandidateIn(page.segments, sub);
  }

  /** A name that neither starts nor ends with whitespace. */
  predicate Trimmed(s: string) {
    s != [] && !IsSpace(s[0]) && !IsSpace(s[|s| - 1])
  }

  /** A namespaced link `[[X:Y]]` (or `[[X/Y]]`) resolves to `X/Y` as it
      is written, without a look at the index. */
  lemma NamespacedLink(names: seq<Segment>, page: PageInfo, index: PageIndex)
    requires |names| >= 2 && ColonFree(names) && names[0][0] != '+'
    requires Trimmed(Join("/", names))
    ensures Resolve(Join(":", names), page, index) == Join("/", names)
  {
    var raw := Join(":", names);
    var j := Join("/", names);
    ColonPath(names);
    StrippedAlready(j);
    JoinHead(names, ":");
    JoinHead(names, "/");
    PathLike(raw, j, page, index);
  }

  /** The first piece of a join of several pieces is followed by the
      separator. */
  lemma JoinHead(names: seq<Segment>, sep: string)
    requires |names| >= 2 && |sep| == 1
    ensures var j := Join(sep, names); |names[0]| < |j| && j[0] == names[0][0] && j[|names[0]|] == sep[0]
  {
    assert Join(sep, names) == names[0] + sep + Join(sep, names[1..]);
  }

  /** A target with a slash and no `:` or `+` in front is the slashed,
      stripped target with its outer slashes removed. */
  lemma PathLike(raw: string, j: string, page: PageInfo, index: PageIndex)
    requires raw != [] && raw[0] != ':' && raw[0] != '+'
    requires Strip(Slashed(raw)) == j && '/' in j
    ensures Resolve(raw, page, index) == StripChar(j, '/')
  {
  }

  /** A bare name is taken from the page's own folder whenever that folder
      holds a page of that name, even if the root holds one too. */
  lemma SiblingFirst(t: Segment, page: PageInfo, index: PageIndex)
    requires |page.segments| >= 2 && ':' !in t && t[0] != '+' && Trimmed(t)
    requires var n := |page.segments|; Join("/", page.segments[..n - 1]) + "/" + t in index
    ensures var n := |page.segments|; Resolve(t, page, index) == Join("/", page.segments[..n - 1]) + "/" + t
  {
    var n := |page.segments|;
    var up := page.segments[..n - 1];
    FoldersOfPage(page, 0);
    SiblingFound(up, Folders(page), t, index);
    BareFound(t, page, index, Join("/", up) + "/" + t);
  }

  /** A bare name resolves to the candidate found. */
  lemma BareFound(t: Segment, page: PageInfo, index: PageIndex, r: string)
    requires ':' !in t && t[0] != '+' && Trimmed(t)
    requires FirstPage(Folders(page), t, index) == Some(r)
    ensures Resolve(t, page, index) == r
  {
    BareName(t, page, index);
  }

  /** The first folder's candidate wins when it is a page. */
  lemma SiblingFound(up: seq<Segment>, folders: seq<string>, t: Segment, index: PageIndex)
    requires up != [] && folders != [] && folders[0] == Join("/", up)
    requires Join("/", up) + "/" + t in index
    ensures FirstPage(folders, t, index) == Some(Join("/", up) + "/" + t)
  {
    assert t[0] != '/' && t[|t| - 1] != '/';
    CandidateBelow(up, t);
  }

  /** A bare name that no folder of the page holds is looked up at the
      root. */
  lemma RootFallback(t: Segment, page: PageInfo, index: PageIndex)
    requires ':' !in t && t[0] != '+' && Trimmed(t)
    requires forall k :: 0 <= k < |Folders(page)| - 1 ==> Candidate(Folders(page)[k], t) !in index
    ensures Resolve(t, page, index) == t
  {
    BareName(t, page, index);
    var fs := Folders(page);
    CandidateIn([], t);
    assert Candidate(fs[|fs| - 1], t) == t;
    FirstPageNone(fs, t, index);
    if FirstPage(fs, t, index).Some? {
      var k := FirstPageAt(fs, t, index);
    }
  }

  /** The link `[[B]]` on the page `A/C`: the page `A/B` wins over a page
      `B` at the root, which is taken only when there is no `A/B`; with
      neither, the name is kept. */
  lemma SiblingExample(page: PageInfo, index: PageIndex)
    requires page.segments == ["A", "C"]
    ensures "A/B" in index ==> Resolve("B", page, index) == "A/B"
    ensures "A/B" !in index ==> Resolve("B", page, index) == "B"
  {
    var up: seq<Segment> := ["A"];
    assert page.segments[..1] == up;
    assert Join("/", up) == "A";
    assert "A" + "/" + "B" == "A/B";
    if "A/B" in index {
      SiblingFirst("B", page, index);
    } else {
      FoldersOfPage(page, 0);
      CandidateIn(up, "B");
      assert "A" + "/" + "B" == "A/B";
      RootFallback("B", page, index);
    }
  }

  predicate NotBracketOrBar(c: char) {
    c != ']' && c != '|'
  }

  predicate NotBracket(c: char) {
    c != ']'
  }

  /** A match of `(?<!!)\[\[([^\]|]+)(?:\|([^\]]+))?\]\]`: the target
      group, the caption group if it took part, and the end of the match. */
  datatype Link = Link(target: string, caption: Option<string>, end: nat)

  /** The link that starts at `p`, if one does. Neither group can hold a
      `]` and the target cannot hold a `|`, so each group is the longest
      run of its characters, and a failed caption leaves nothing else to try. */
  function LinkAt(s: string, p: nat): (r: Option<Link>)
    ensures r.Some? ==> p + 4 < r.value.end <= |s|
  {
    if p + 1 < |s| && s[p] == '[' && s[p + 1] == '[' && (p == 0 || s[p - 1] != '!') then
      var e := RunEnd(s, p + 2, NotBracketOrBar);
      if e == p + 2 || e + 1 >= |s| then None
      else if s[e] == '|' then
        var f := RunEnd(s, e + 1, NotBracket);
        if f > e + 1 && f + 1 < |s| && s[f + 1] == ']' then Some(Link(s[p + 2..e], Some(s[e + 1..f]), f + 2))
        else None
      else if s[e + 1] == ']' then Some(Link(s[p + 2..e], None, e + 2))
      else None
    else None
  }

  /** `os.path.basename`: what follows the last `/`. */
  function Basename(path: string): string {
    match FindLast(path, '/')
    case None => path
    case Some(i) => path[i + 1..]
  }

  /** `repl`: the replacement for a link with the target group `target`
      and the caption group `caption`. */
  function LinkText(target: string, caption: Option<string>, page: PageInfo, index: PageIndex): string {
    var raw := Strip(target);
    if IsExternal(raw) then ExternalText(raw, caption)
    else if '/' in raw || "./" <= raw || "~/" <= raw then FileText(Images.RewriteRel(raw, Stem(page)), caption)
    else WikiText(Resolve(raw, page, index), caption)
  }

  /** An external address, as a Markdown link when it has a caption. */
  function ExternalText(url: string, caption: Option<string>): string {
    match caption
    case Some(l) => "[" + l + "](" + url + ")"
    case None => url
  }

  /** A Markdown link to a file, shown by its caption or else its name. */
  function FileText(file: string, caption: Option<string>): string {
    var shown := match caption case Some(l) => l case None => Basename(file);
    "[" + shown + "](" + file + ")"
  }

  /** An Obsidian wikilink to a resolved page. */
  function WikiText(resolved: string, caption: Option<string>): string {
    match caption
    case Some(l) => "[[" + resolved + "|" + l + "]]"
    case None => "[[" + resolved + "]]"
  }

  /** The match at `p` and its replacement. */
  function LinkHit(s: string, p: nat, page: PageInfo, index: PageIndex): (r: Option<Hit>)
    ensures r.Some? ==> p < r.value.end <= |s|
  {
    match LinkAt(s, p)
    case Some(l) => Some(Hit(l.end, LinkText(l.target, l.caption, page, index)))
    case None => None
  }

  function LinkHits(s: string, page: PageInfo, index: PageIndex): nat -> Option<Hit> {
    (k: nat) => LinkHit(s, k, page, index)
  }

  /** `convert_links`. */
  function ConvertLinks(line: Line, page: PageInfo, index: PageIndex): Line {
    var at := LinkHits(line, page, index);
    assert Proper(line, at);
    forall k: nat | at(k).Some? ensures '\n' !in at(k).value.text {
      HitKeepsLine(line, k, page, index);
    }
    SubstituteKeepsLine(line, 0, at);
    Substitute(line, 0, at)
  }

  lemma HitKeepsLine(s: Line, k: nat, page: PageInfo, index: PageIndex)
    ensures LinkHit(s, k, page, index).Some? ==> '\n' !in LinkHit(s, k, page, index).value.text
  {
    match LinkAt(s, k)
    case None =>
    case Some(l) =>
      assert '\n' !in l.target;
      assert l.caption.Some? ==> '\n' !in l.caption.value;
      TextKeepsLine(l.target, l.caption, page, index);
  }

  lemma TextKeepsLine(target: string, caption: Option<string>, page: PageInfo, index: PageIndex)
    requires '\n' !in target && (caption.Some? ==> '\n' !in caption.value)
    ensures '\n' !in LinkText(target, caption, page, index)
  {
    var raw := Strip(target);
    StripWithout(target, '\n');
    if IsExternal(raw) {
    } else if '/' in raw || "./" <= raw || "~/" <= raw {
      var file := Images.RewriteRel(raw, Stem(page));
      Images.RewriteKeepsLine(raw, Stem(page));
      var shown := match caption case Some(l) => l case None => Basename(file);
      NoNewline4("[", shown, "](", file + ")");
    } else {
      var resolved := Resolve(raw, page, index);
      ResolveKeepsLine(raw, page, index);
      match caption
      case Some(l) => NoNewline4("[[", resolved, "|", l + "]]");
      case None => NoNewline4("[[", resolved, "]]", "");
    }
  }

  /** Stripping a character removes characters only. */
  lemma StripCharWithout(s: string, c: char, d: char)
    requires d !in s
    ensures d !in StripChar(s, c)
  {
    var l := LStripChar(s, c);
    assert forall x :: x in l ==> x in s;
  }

  /** A resolved name holds a newline only if the target does. */
  lemma ResolveKeepsLine(raw: string, page: PageInfo, index: PageIndex)
    requires '\n' !in raw
    ensures '\n' !in Resolve(raw, page, index)
  {
    ReplaceKeeps(raw, ':', "/", '\n');
    var t := Strip(Slashed(raw));
    StripWithout(Slashed(raw), '\n');
    if ":" <= raw || "+" <= raw {
      ReplaceKeeps(raw[1..], ':', "/", '\n');
      var sub := StripChar(Slashed(raw[1..]), '/');
      StripCharWithout(Slashed(raw[1..]), '/', '\n');
      JoinKeeps("/", page.segments, '\n');
      StripCharWithout(LogicalPath(page) + "/" + sub, '/', '\n');
    } else if '/' in t {
      StripCharWithout(t, '/', '\n');
    } else if FirstPage(Folders(page), t, index).Some? {
      var k := FirstPageAt(Folders(page), t, index);
      FolderKeepsLine(page, k);
      StripCharWithout(Folders(page)[k] + "/" + t, '/', '\n');
    }
  }

  /** No folder of a page holds a newline. */
  lemma FolderKeepsLine(page: PageInfo, k: nat)
    requires k < |Folders(page)|
    ensures '\n' !in Folders(page)[k]
  {
    if |page.segments| <= 1 {
      FoldersAtRoot(page);
    } else {
      FolderBelowKeepsLine(page, k);
    }
  }

  lemma FolderBelowKeepsLine(page: PageInfo, k: nat)
    requires |page.segments| >= 2 && k < |Folders(page)|
    ensures '\n' !in Folders(page)[k]
  {
    var n := |page.segments|;
    FoldersOfPage(page, 0);
    if k < n - 1 {
      FolderAboveKeepsLine(page, k);
    }
  }

  lemma FolderAboveKeepsLine(page: PageInfo, k: nat)
    requires |page.segments| >= 2 && k < |page.segments| - 1 && k < |Folders(page)|
    ensures '\n' !in Folders(page)[k]
  {
    var n := |page.segments|;
    FoldersOfPage(page, k);
    UpperKeepsLine(page.segments, n - 1 - k);
  }

  lemma UpperKeepsLine(segs: seq<Segment>, m: nat)
    requires m <= |segs|
    ensures '\n' !in Join("/", segs[..m])
  {
    JoinKeeps("/", segs[..m], '\n');
  }

  /** A line that is one link `[[x]]` becomes that link's replacement. */
  lemma WholeLink(line: Line, x: string, page: PageInfo, index: PageIndex)
    requires line == "[[" + x + "]]" && x != [] && ']' !in x && '|' !in x
    ensures ConvertLinks(line, page, index) == LinkText(x, None, page, index)
  {
    var n := |line|;
    assert line[2..n - 2] == x;
    forall k | 2 <= k < n - 2 ensures NotBracketOrBar(line[k]) {
      assert line[k] == x[k - 2];
    }
    RunEndAt(line, 2, n - 2, NotBracketOrBar);
    var l := LinkAt(line, 0);
    assert l.Some? && l.value.target == x && l.value.caption.None? && l.value.end == n;
    WholeMatch(line, LinkHits(line, page, index), LinkText(x, None, page, index));
  }

  /** A line that is one labelled link `[[x|c]]` becomes its replacement. */
  lemma WholeLabelledLink(line: Line, x: string, c: string, page: PageInfo, index: PageIndex)
    requires line == "[[" + x + "|" + c + "]]" && x != [] && ']' !in x && '|' !in x
    requires c != [] && ']' !in c
    ensures ConvertLinks(line, page, index) == LinkText(x, Some(c), page, index)
  {
    LabelledAt(line, x, c);
    WholeMatch(line, LinkHits(line, page, index), LinkText(x, Some(c), page, index));
  }

  lemma LabelledAt(line: string, x: string, c: string)
    requires line == "[[" + x + "|" + c + "]]" && x != [] && ']' !in x && '|' !in x
    requires c != [] && ']' !in c
    ensures var l := LinkAt(line, 0);
      l.Some? && l.value.target == x && l.value.caption == Some(c) && l.value.end == |line|
  {
    var n := |line|;
    var e := 2 + |x|;
    TargetRun(line, x, c);
    CaptionRun(line, x, c);
    assert line[2..e] == x && line[e] == '|';
    assert line[e + 1..n - 2] == c;
  }

  lemma TargetRun(line: string, x: string, c: string)
    requires line == "[[" + x + "|" + c + "]]" && '|' !in x && ']' !in x
    ensures RunEnd(line, 2, NotBracketOrBar) == 2 + |x|
  {
    forall k | 2 <= k < 2 + |x| ensures NotBracketOrBar(line[k]) {
      assert line[k] == x[k - 2];
    }
    assert line[2 + |x|] == '|';
    RunEndAt(line, 2, 2 + |x|, NotBracketOrBar);
  }

  lemma CaptionRun(line: string, x: string, c: string)
    requires line == "[[" + x + "|" + c + "]]" && ']' !in c
    ensures RunEnd(line, 3 + |x|, NotBracket) == |line| - 2
  {
    var n := |line|;
    var i := 3 + |x|;
    assert line[i..n - 2] == c;
    forall k | i <= k < n - 2 ensures NotBracket(line[k]) {
      assert line[k] == line[i..n - 2][k - i];
    }
    assert line[n - 2] == ']';
    RunEndAt(line, i, n - 2, NotBracket);
  }

  /** Every `[[` comes right after a `!`: the line holds embeds only. */
  predicate OnlyEmbeds(s: string) {
    forall p :: 0 <= p && p + 1 < |s| && s[p] == '[' && s[p + 1] == '[' ==> p > 0 && s[p - 1] == '!'
  }

  /** The lookbehind leaves the embeds written by the image rule alone. */
  lemma EmbedsUnchanged(line: Line, page: PageInfo, index: PageIndex)
    requires OnlyEmbeds(line)
    ensures ConvertLinks(line, page, index) == line
  {
    NoMatchUnchanged(line, 0, LinkHits(line, page, index));
  }

  /** An external link keeps its address and, when labelled, becomes a
      Markdown link. */
  lemma ExternalLink(url: string, c: Option<string>, page: PageInfo, index: PageIndex)
    requires Trimmed(url) && IsExternal(url)
    ensures LinkText(url, c, page, index) == match c case Some(l) => "[" + l + "](" + url + ")" case None => url
  {
    StrippedAlready(url);
  }

  /** `[[./path]]` links a file in the page's attachment folder and shows
      the file's name. */
  lemma FileLink(line: Line, path: string, page: PageInfo, index: PageIndex)
    requires line == "[[./" + path + "]]" && path != [] && !IsSpace(path[|path| - 1])
    requires '/' !in path && ']' !in path && '|' !in path
    ensures ConvertLinks(line, page, index) == "[" + path + "](" + ("./" + Stem(page) + "/" + path) + ")"
  {
    assert line == "[[" + ("./" + path) + "]]";
    WholeLink(line, "./" + path, page, index);
    FileLinkText(path, page, index);
  }

  lemma FileLinkText(path: string, page: PageInfo, index: PageIndex)
    requires path != [] && !IsSpace(path[|path| - 1]) && '/' !in path
    ensures LinkText("./" + path, None, page, index) == "[" + path + "](" + ("./" + Stem(page) + "/" + path) + ")"
  {
    var x := "./" + path;
    var dir := "./" + Stem(page);
    StrippedAlready(x);
    DotNotExternal(x);
    assert x[2..] == path;
    assert LStripChar(path, '/') == path;
    assert Images.RewriteRel(x, Stem(page)) == dir + "/" + path;
    LastSlash(dir, path);
  }

  /** A target holding a slash is a file link before any page lookup:
      `[[A/Foo]]` becomes `[Foo](A/Foo)`, so the slash case of the
      resolution is reached only through a colon, as in `A:B`. */
  lemma SlashIsFileLink(dir: string, name: string, page: PageInfo, index: PageIndex)
    requires dir != [] && !IsSpace(dir[0]) && dir[0] != '.' && dir[0] !in "hHfF"
    requires name != [] && !IsSpace(name[|name| - 1]) && '/' !in name
    ensures LinkText(dir + "/" + name, None, page, index) == "[" + name + "](" + (dir + "/" + name) + ")"
  {
    var x := dir + "/" + name;
    assert x[0] == dir[0] && x[|x| - 1] == name[|name| - 1];
    StrippedAlready(x);
    NotWebStart(x);
    assert x[|dir|] == '/';
    assert LinkText(x, None, page, index) == FileText(Images.RewriteRel(x, Stem(page)), None);
    assert Images.RewriteRel(x, Stem(page)) == x;
    LastSlash(dir, name);
  }

  /** A target whose first character lowers to neither `h` nor `f` is not
      an external address. */
  lemma NotWebStart(x: string)
    requires x != [] && x[0] !in "hHfF"
    ensures !IsExternal(x)
  {
    assert Lower(x) == LowerChar(x[0]) + Lower(x[1..]);
    var c := LowerChar(x[0]);
    assert c != [] && c[0] != 'h' && c[0] != 'f';
    assert Lower(x)[0] == c[0];
  }

  lemma DotNotExternal(x: string)
    requires x != [] && x[0] == '.'
    ensures !IsExternal(x)
  {
    assert LowerChar('.') == ".";
    assert Lower(x) == "." + Lower(x[1..]);
    assert Lower(x)[0] == '.';
  }

  lemma LastSlash(dir: string, name: string)
    requires '/' !in name
    ensures Basename(dir + "/" + name) == name
  {
    var s := dir + "/" + name;
    assert s[|dir|] == '/';
    assert s[|dir| + 1..] == name;
  }

  /** On the page `A:C`, `[[B|see]]` links the sibling `A/B` when that page
      exists, and `B` otherwise. */
  lemma SiblingLinkExample(line: Line, page: PageInfo, index: PageIndex)
    requires line == "[[B|see]]" && page.segments == ["A", "C"]
    ensures "A/B" in index ==> ConvertLinks(line, page, index) == "[[A/B|see]]"
    ensures "A/B" !in index ==> ConvertLinks(line, page, index) == "[[B|see]]"
  {
    assert line == "[[" + "B" + "|" + "see" + "]]";
    WholeLabelledLink(line, "B", "see", page, index);
    BareText(page, index);
    SiblingExample(page, index);
    WikiExamples();
  }

  lemma WikiExamples()
    ensures WikiText("A/B", Some("see")) == "[[A/B|see]]"
    ensures WikiText("B", Some("see")) == "[[B|see]]"
  {
    assert "[[" + "A/B" + "|" + "see" + "]]" == "[[A/B|see]]";
    assert "[[" + "B" + "|" + "see" + "]]" == "[[B|see]]";
  }

  lemma BareText(page: PageInfo, index: PageIndex)
    ensures LinkText("B", Some("see"), page, index) == WikiText(Resolve("B", page, index), Some("see"))
  {
    StrippedAlready("B");
    assert Lower("B") == "b";
  }
}
