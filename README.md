# zim-to-obsidian converter, modelled in Dafny

A model of the conversion core of zim-to-obsidian, which turns the pages of
a Zim desktop-wiki notebook into the Markdown files of an Obsidian vault.
It covers `src/zim_to_obsidian/converter.py`, and each line rule is
modelled with proofs about it:

- the split of a page file into its `key: value` header block and its body;
- the YAML front matter built from the headers;
- the line rules of the body:
  - Zim headings;
  - horizontal rules;
  - images `{{...}}`;
  - links `[[...]]`, with the lookup of a bare page name from the page's
    folder up to the notebook root;
  - checkboxes, bullets and numbered items;
  - the inline markup `__u__`, `''v''` and `//i//`;
- code fences `'''`;
- the per-page step of `convert`, which checks the `Content-Type` and puts
  front matter and body together.

Modules, one per part of the converter:

| module | file | part of the converter |
|---|---|---|
| `Strings` | strings.dfy | the pieces of Python `str` the converter uses: `strip` and its variants, `replace`, `split`, `join`, `splitlines`, `lower`, `in` |
| `Scan` | scan.dfy | `re.sub`, once for every pattern: a pattern is a function from a start position to the match found there |
| `Pages` | pages.dfy | page paths, the page index, colon name, title, `is_zim_page_file` |
| `Headers` | headers.dfy | `parse_zim_headers_and_body`; a `dict` is an insertion-ordered list of entries |
| `Sorting` | sorting.dfy | `sorted` on a list of strings, by code point |
| `FrontMatter` | frontmatter.dfy | `yaml_escape`, `build_frontmatter` |
| `Headings` | headings.dfy | `zim_heading_to_md` |
| `ListItems` | lists.dfy | `normalize_indent`, `convert_checkbox_line`, `convert_lists` |
| `Inline` | inline.dfy | `convert_inline_markup` |
| `Images` | images.dfy | `parse_image_target`, `rewrite_rel_to_page_attachment`, `convert_images` |
| `Links` | links.dfy | `is_external_link_target`, `convert_links`, `resolve_internal` |
| `HorizontalRule` | hr.dfy | `convert_hr` |
| `Body` | body.dfy | `convert_codeblocks`, `convert_page_body`, the per-page step of `convert` |

Where the source works through a loop, the model has a method with that
loop, and the method is proved equal to a function on values. These
methods are:

- `Headers.ParseHeadersAndBody`
- `FrontMatter.BuildFrontmatter` and `FrontMatter.ListHeaders`
- `Links.ResolveInternal`, `Links.ParentFolders` and `Links.FirstCandidate`
- `Body.ConvertCodeblocks`
- `Body.ConvertPageBody`
- `Body.ConvertPage`

The properties of the converter are lemmas about those functions. All
other operations are pure functions, as in the source.

Modelling choices:

- **Lines.** A body line (`Strings.Line`) holds no newline. Every rule only
  ever sees one line of `splitlines`, so the regular expressions' `.`
  matches any character of it and `$` is its end.
- **Path segments.** A path component (`Pages.Segment`) is non-empty, is not
  `.`, and holds no `/` and no newline.
- **Page index.** The index is the set of the pages' slash-joined paths
  without extension. `by_path_no_ext` is only ever asked whether it holds
  a key.
- **`re.sub`.** Each pattern is modelled once, by hand, as its match at a
  position (`Inline.PairedAt`, `Inline.ItalicAt`, `Images.BracesAt`,
  `Links.LinkAt`, `Headings.TryMarks`). A lookbehind reads the original
  string, as in Python. Backtracking is spelled out where it matters:
  - the greedy `.?` of the checkbox state tries one character, then none;
  - the lazy `(.+?)` of italics stops at the first possible close;
  - the heading's `={2,6}` tries six marks, then fewer.

## Model

| member | source | states |
|---|---|---|
| `Pages.IndexOf` | src/zim_to_obsidian/converter.py:429 | the index holds the logical path of every discovered page, and nothing else |
| `Pages.TitleOfStem` | src/zim_to_obsidian/converter.py:366 | the title has the page name's length, and every underscore of the name becomes a space, with no other character changed |
| `Pages.ColonNameSegments` | src/zim_to_obsidian/converter.py:365 | splitting the colon name at `:` gives back the path segments in order, when no segment holds a colon |
| `Pages.LogicalPathSegments` | src/zim_to_obsidian/converter.py:362 | splitting the logical path at `/` gives back the path segments |
| `Pages.Suffix` | src/zim_to_obsidian/converter.py:40 | a non-empty suffix is a proper tail of the name that starts with its only dot and is at least two characters long; conversely, a last dot that is neither the first nor the last character starts the suffix |
| `Pages.TxtSuffix` | src/zim_to_obsidian/converter.py:40 | `stem.txt` has the suffix `.txt` for any non-empty stem, dots in the stem included |
| `Pages.IsZimPageFile` | src/zim_to_obsidian/converter.py:37-48 | the page test once the first line is read: a `.txt` suffix in any case and a first line that, stripped and lowered, starts with `content-type:` and names `text/x-zim-wiki`; its properties are `Pages.TxtSuffix` and `Pages.BlankFirstLineIsNotPage` |
| `Pages.ColonName` | src/zim_to_obsidian/converter.py:365 | the colon name, the segments joined with `:`; `Pages.ColonNameSegments` proves it splits back |
| `Pages.Title` | src/zim_to_obsidian/converter.py:366 | the title, the page name with underscores made spaces; `Pages.TitleOfStem` proves the character-by-character relation |
| `Pages.BlankFirstLineIsNotPage` | src/zim_to_obsidian/converter.py:44-46 | a file whose first line is blank is never taken for a page: only the literal first line is probed |
| `Headers.Get` | src/zim_to_obsidian/converter.py:85-87 | a lookup fails exactly when the key is not among the dict's keys |
| `Headers.PutKeys` | src/zim_to_obsidian/converter.py:69 | `d[k] = v` appends a new key at the end and keeps an existing key in its place |
| `Headers.PutGet` | src/zim_to_obsidian/converter.py:69 | after `d[k] = v`, `k` maps to `v` and every other key keeps its value |
| `Headers.HeaderCount` | src/zim_to_obsidian/converter.py:62-72 | the header block is the longest run of leading lines that are not blank and hold a colon |
| `Headers.ParseHeadersAndBody` | src/zim_to_obsidian/converter.py:51-75 | the loop's dict is the dict filled by the header lines in order, and the body is the lines after the header block, and after the blank line that ends it if one does, joined with newlines |
| `Headers.HeadersOf` | src/zim_to_obsidian/converter.py:51-72 | the dict of the header block, the headers of a page as a value; the parse method is proved to return it |
| `Headers.BodyOf` | src/zim_to_obsidian/converter.py:58-75 | the body, the lines after the header block and its blank line joined with newlines; the parse method is proved to return it |
| `Headers.BodyResplits` | src/zim_to_obsidian/converter.py:74 | splitting the joined body again gives back exactly the body lines, unless the last line is empty |
| `Headers.CollectLastWins` | src/zim_to_obsidian/converter.py:67-69 | a key's value is the value on the last header line with that key |
| `Headers.CollectAbsent` | src/zim_to_obsidian/converter.py:67-69 | a key that no header line names is absent from the dict |
| `Headers.CollectDistinct` | src/zim_to_obsidian/converter.py:67-69 | each key appears once in the dict |
| `Sorting.Insert` | src/zim_to_obsidian/converter.py:102 | putting a string into a sorted list gives a sorted list with that string added |
| `Sorting.Sort` | src/zim_to_obsidian/converter.py:102 | `sorted` returns a permutation of its input, in ascending code-point order |
| `Sorting.Less` | src/zim_to_obsidian/converter.py:102 | the code-point order of `sorted`; `Sorting.LessTotal` and `Sorting.LessTransitive` prove it a strict total order |
| `Sorting.LessTotal` | src/zim_to_obsidian/converter.py:102 | any two distinct strings are ordered one way or the other |
| `Sorting.LessTransitive` | src/zim_to_obsidian/converter.py:102 | the string order is transitive |
| `Sorting.SortDistinct` | src/zim_to_obsidian/converter.py:102 | sorting distinct strings gives a strictly ascending list |
| `FrontMatter.YamlEscapeByChar` | src/zim_to_obsidian/converter.py:78-81 | the two replacements, backslash first, escape every backslash and every quote on its own, and the result is quoted |
| `FrontMatter.UnescapeEscaped` | src/zim_to_obsidian/converter.py:80 | reading the escapes back gives the original text |
| `FrontMatter.YamlEscapeRoundTrip` | src/zim_to_obsidian/converter.py:78-81 | a reader of the two escapes the writer emits, a backslash before a backslash or a quote, reads the quoted string back as the original |
| `FrontMatter.YamlEscape` | src/zim_to_obsidian/converter.py:78-81 | `yaml_escape`; `FrontMatter.YamlEscapeByChar` and `FrontMatter.YamlEscapeRoundTrip` prove what it escapes and that it reads back |
| `FrontMatter.EitherHeaderSet` | src/zim_to_obsidian/converter.py:85-87 | the value read for a known header is empty exactly when neither spelling holds a non-empty value; otherwise it is the value of one of them, the first spelling winning when both are set |
| `FrontMatter.KnownHeadersListed` | src/zim_to_obsidian/converter.py:93-98 | each of `created`, `zim_wiki_format` and `zim_content_type` whose header is set gets its `name: "value"` line, and the front matter has one line more for each that is set and none for one that is not |
| `FrontMatter.SortedKeys` | src/zim_to_obsidian/converter.py:102 | the keys in ascending order: a permutation of the dict's keys |
| `FrontMatter.SortedKeysListed` | src/zim_to_obsidian/converter.py:100-103 | the sorted keys are each key of the dict exactly once, strictly ascending, and each has its value in the dict |
| `FrontMatter.ListHeaders` | src/zim_to_obsidian/converter.py:102-103 | the loop emits one `  key: "value"` line per key, in sorted key order |
| `FrontMatter.BuildFrontmatter` | src/zim_to_obsidian/converter.py:84-106 | the lines appended one at a time are the front-matter lines: the marker, the title, the colon name and the source, then the three known headers that are set, then the header block, then the marker. Joined, they end with a blank line |
| `FrontMatter.FrontMatterDelimited` | src/zim_to_obsidian/converter.py:89-106 | the front matter starts with a `---` line and ends with a `---` line followed by one empty line |
| `FrontMatter.NoHeadersFrontMatter` | src/zim_to_obsidian/converter.py:89-92 | with no headers, the front matter is the three page lines between the two markers |
| `FrontMatter.HeaderBlockListed` | src/zim_to_obsidian/converter.py:100-105 | with headers, the front matter ends with `zim_headers:`, then one line per key in sorted order giving the key and its escaped value, then the marker |
| `FrontMatter.FrontMatterText` | src/zim_to_obsidian/converter.py:84-106 | the front matter text, its lines joined by newlines and closed by a blank line; `FrontMatter.FrontMatterDelimited` and `FrontMatter.BuildFrontmatter` are about it |
| `Headings.WrappedMatches` | src/zim_to_obsidian/converter.py:111-120 | a line of marks, a title and the same marks matches with that mark count, and the heading is `#` repeated for the level, a space and the stripped title |
| `Headings.WrappedIsHeading` | src/zim_to_obsidian/converter.py:111-113 | every line of the heading shape, from two to six marks, is a heading |
| `Headings.HeadingIsWrapped` | src/zim_to_obsidian/converter.py:111-120 | every heading comes from a line of the heading shape, and its text is the level's hashes, a space and the stripped title |
| `Headings.HeadingLevel` | src/zim_to_obsidian/converter.py:117-120 | `n` marks give the level `7 - n`: six marks are `#`, two are `#####` |
| `Headings.NotHeading` | src/zim_to_obsidian/converter.py:111-113 | a line that does not start with `=` is no heading |
| `Headings.TopHeading` | src/zim_to_obsidian/converter.py:110-120 | `====== t ======` becomes `# t` |
| `Headings.ZimHeading` | src/zim_to_obsidian/converter.py:109-120 | `zim_heading_to_md`, trying six marks and then fewer; `Headings.WrappedIsHeading` and `Headings.HeadingIsWrapped` prove both directions of its match |
| `HorizontalRule.RuleIff` | src/zim_to_obsidian/converter.py:320-323 | a line becomes `---` exactly when, stripped, it is five or more hyphens and nothing else; otherwise it is unchanged |
| `HorizontalRule.NotRule` | src/zim_to_obsidian/converter.py:321-323 | a line starting with neither whitespace nor a hyphen is unchanged |
| `HorizontalRule.ConvertHr` | src/zim_to_obsidian/converter.py:320-323 | `convert_hr`; `HorizontalRule.RuleIff` proves when it fires |
| `ListItems.SpacesOnly` | src/zim_to_obsidian/converter.py:129 | the normalized indentation is all spaces, one per space and two per tab |
| `ListItems.NormalizeIndent` | src/zim_to_obsidian/converter.py:123-130 | the line is its leading run of spaces and tabs followed by the rest, and the rest does not start with a space or a tab; the indentation comes back as spaces only, a tab counting two |
| `ListItems.ConvertCheckbox` | src/zim_to_obsidian/converter.py:133-137 | a checkbox is produced exactly when the checkbox pattern matches |
| `ListItems.ShapeMatches` | src/zim_to_obsidian/converter.py:135 | every line made of indentation, a bracketed state of at most one character, whitespace and a text matches with exactly those groups |
| `ListItems.MatchHasShape` | src/zim_to_obsidian/converter.py:135 | every match has that shape |
| `ListItems.OnlyStarChecked` | src/zim_to_obsidian/converter.py:143-154 | a task starts with the indentation in spaces, then `- [x] ` for the state `*` and `- [ ] ` for every other state |
| `ListItems.Open` | src/zim_to_obsidian/converter.py:143-144 | `[ ] text` becomes `- [ ] text` |
| `ListItems.Done` | src/zim_to_obsidian/converter.py:145-146 | `[*] text` becomes `- [x] text` |
| `ListItems.NotDone` | src/zim_to_obsidian/converter.py:147-148 | `[x]` and `[X]` become an open, struck-through task marked as not completed |
| `ListItems.Moved` | src/zim_to_obsidian/converter.py:149-150 | `[>]` becomes an open task marked as moved |
| `ListItems.MovedBack` | src/zim_to_obsidian/converter.py:151-152 | `[<]` becomes an open task marked as moved back |
| `ListItems.OtherState` | src/zim_to_obsidian/converter.py:153-154 | any other state, the empty one included, gives an open task `- [ ] text` followed by a comment `<!-- zim:state=... -->` that keeps the state |
| `ListItems.EmptyState` | src/zim_to_obsidian/converter.py:135-154 | `[] x` is an open task whose comment keeps the empty state: the optional state character gives way to let the `]` match |
| `ListItems.TaskLine` | src/zim_to_obsidian/converter.py:143-154 | the task written for a matched checkbox: the spaced indentation, the head for its state, the text and the tail for its state; the state lemmas above give it for each state |
| `ListItems.NoGap` | src/zim_to_obsidian/converter.py:135-137 | a bracket not followed by whitespace is no checkbox |
| `ListItems.Bullet` | src/zim_to_obsidian/converter.py:165-166 | `* item` becomes `- item`, with the indentation normalized |
| `ListItems.Numbered` | src/zim_to_obsidian/converter.py:169-170 | a numbered item keeps its text and only the tabs of its indentation change; with no tab, the line is kept as it is |
| `ListItems.OtherUnchanged` | src/zim_to_obsidian/converter.py:172 | a line that starts with neither indentation, a bracket, a `*`, a digit nor `a`/`A` is kept as it is |
| `ListItems.CheckboxFirst` | src/zim_to_obsidian/converter.py:160-162 | a line `[ ] x` is an open task with the text `x` even when `x` looks like a bullet or a numbered item: `[ ] * x` is a task, not a bullet |
| `ListItems.ConvertLists` | src/zim_to_obsidian/converter.py:157-172 | `convert_lists`: checkbox first, then bullet, then numbered item, else the line; `ListItems.Bullet`, `ListItems.Numbered`, `ListItems.OtherUnchanged` and `ListItems.CheckboxFirst` are about it |
| `Inline.PairedAt` | src/zim_to_obsidian/converter.py:177-180 | a match is two delimiters, a non-empty run of text without the delimiter or a newline, and two delimiters, and is replaced by the text between the tags; when two delimiters start a failed match, every later closing pair has a delimiter or newline before it |
| `Inline.ItalicClose` | src/zim_to_obsidian/converter.py:183 | the close found is the first `//` with no whitespace before it and no newline in between, and none is found only when a newline stops the run |
| `Inline.ItalicAt` | src/zim_to_obsidian/converter.py:183 | an italic match opens with `//` not after a colon and not before whitespace |
| `Inline.PlainTextUnchanged` | src/zim_to_obsidian/converter.py:175-185 | text with no underscore, no single quote and no `//` except right after a colon (as in `http://`) is left exactly as it is |
| `Inline.ItalicUnchanged` | src/zim_to_obsidian/converter.py:182-183 | the `//` of a URL after its colon never opens an italic |
| `Inline.UnderlineExample` | src/zim_to_obsidian/converter.py:176-177 | `__x__` becomes `<u>x</u>` |
| `Inline.VerbatimExample` | src/zim_to_obsidian/converter.py:179-180 | `''x''` becomes `` `x` `` |
| `Inline.ItalicExample` | src/zim_to_obsidian/converter.py:182-183 | `//x//` becomes `*x*` when `x` neither starts nor ends with whitespace |
| `Inline.ConvertInline` | src/zim_to_obsidian/converter.py:175-185 | `convert_inline_markup`, the three substitutions in turn, keeping the text one line; the lemmas above are about it |
| `Scan.LeftmostMatch` | src/zim_to_obsidian/converter.py:297 | `re.sub` copies the text before the leftmost match, emits its replacement and resumes after it, so matches never overlap |
| `Scan.NoMatchUnchanged` | src/zim_to_obsidian/converter.py:225 | where a pattern matches nowhere, `re.sub` leaves the text unchanged |
| `Scan.SubstituteKeepsLine` | src/zim_to_obsidian/converter.py:177-183 | a substitution puts no newline into a line unless a replacement holds one |
| `Scan.Substitute` | src/zim_to_obsidian/converter.py:225 | `re.sub` for one pattern given as its match at each position; `Scan.LeftmostMatch` and `Scan.NoMatchUnchanged` prove how it scans |
| `Images.FindWidth` | src/zim_to_obsidian/converter.py:197 | a `width=` parameter found is preceded by the start of the query, a `&` or a `?`, and is followed by a digit |
| `Images.FindWidthFirst` | src/zim_to_obsidian/converter.py:197 | `re.search` takes the first `width=` parameter: none comes before the one found |
| `Images.WidthDigits` | src/zim_to_obsidian/converter.py:197-199 | the width is a non-empty run of digits |
| `Images.WidthFirst` | src/zim_to_obsidian/converter.py:197-199 | a query `width=` followed by digits gives those digits |
| `Images.ParseImageTarget` | src/zim_to_obsidian/converter.py:188-201 | a target without `?` is returned stripped, with no width; a target with one is cut at its first `?`: the path is the stripped text before it and the width is read from the text after it |
| `Images.ParseAt` | src/zim_to_obsidian/converter.py:194-199 | a target is cut at its first `?` into the path and the query that gives the width |
| `Images.RewriteRel` | src/zim_to_obsidian/converter.py:204-210 | a `./` target is moved under `./<page>/`, the run of slashes after `./` is dropped and the rest from the first other character is kept whole; every other target is kept |
| `Images.BracesAt` | src/zim_to_obsidian/converter.py:225 | `{{x}}` matches with a non-empty `x` that has no `}`; a failed match at `{{` means that every later `}}` has a `}` before it |
| `Images.RelativeImageWithWidth` | src/zim_to_obsidian/converter.py:216-222 | `./path?width=N` becomes `![[./<page>/path\|N]]` |
| `Images.PlainImage` | src/zim_to_obsidian/converter.py:217-223 | a target that is not relative and has no `?` is embedded as it is, stripped |
| `Images.WholeImage` | src/zim_to_obsidian/converter.py:213-225 | a line that is a single `{{x}}` becomes the embed of `x` |
| `Images.RelativeImageLine` | src/zim_to_obsidian/converter.py:213-225 | a line `{{./path?width=N}}` becomes `![[./<page>/path\|N]]` |
| `Images.DemoImage` | tests/test_converter.py:45 | on the page `Demo`, `{{./image.png?width=320}}` becomes `![[./Demo/image.png\|320]]` |
| `Images.NoImageUnchanged` | src/zim_to_obsidian/converter.py:225 | a line without `{` has no image and is left as it is |
| `Images.Embed` | src/zim_to_obsidian/converter.py:216-223 | the replacement of one `{{...}}`: `![[target\|width]]` or `![[target]]`; `Images.RelativeImageWithWidth` and `Images.PlainImage` are about it |
| `Images.ConvertImages` | src/zim_to_obsidian/converter.py:213-225 | `convert_images`, `re.sub` of the braces pattern; `Images.WholeImage` and `Images.NoImageUnchanged` are about it |
| `Links.ResolveInternal` | src/zim_to_obsidian/converter.py:242-274 | the resolution, run as the source runs it, equals the `Resolve` function |
| `Links.Resolve` | src/zim_to_obsidian/converter.py:242-274 | `resolve_internal` as a value: the root, subpage, namespaced and bare cases; `Links.RootLink`, `Links.SubpageLink`, `Links.NamespacedLink` and `Links.BareLink` prove each case |
| `Links.ParentFolders` | src/zim_to_obsidian/converter.py:261-266 | the folder list built by the loop is the page's folder, then each folder above it, then the root |
| `Links.FirstCandidate` | src/zim_to_obsidian/converter.py:268-271 | the loop returns the first candidate, in folder order, that names a page, or nothing |
| `Links.FirstPageAt` | src/zim_to_obsidian/converter.py:268-271 | the candidate found is a page, and no earlier folder's candidate is one |
| `Links.FirstPageNone` | src/zim_to_obsidian/converter.py:268-274 | nothing is found exactly when no folder's candidate is a page |
| `Links.ParentsAt` | src/zim_to_obsidian/converter.py:263-265 | the loop lists the prefixes of the folder path, longest first |
| `Links.FoldersOfPage` | src/zim_to_obsidian/converter.py:261-266 | for a page below the root, the folders tried are its own folder, each folder above it and the root |
| `Links.FoldersAtRoot` | src/zim_to_obsidian/converter.py:262-266 | for a page at the root, only the root is tried |
| `Links.BareLink` | src/zim_to_obsidian/converter.py:260-274 | a bare name resolves to the first candidate from the page's folder up to the root that is a page, or else to the name itself when no candidate is a page |
| `Links.SiblingFirst` | src/zim_to_obsidian/converter.py:261-271 | a page in the same folder wins over every other candidate |
| `Links.RootFallback` | src/zim_to_obsidian/converter.py:268-274 | a name that no folder holds falls back to itself |
| `Links.SiblingExample` | src/zim_to_obsidian/converter.py:260-274 | on the page `A/C`, `B` resolves to `A/B` when that page exists and to `B` otherwise |
| `Links.RootLink` | src/zim_to_obsidian/converter.py:246-248 | `:X:Y` resolves to `X/Y`, whatever the page and the index |
| `Links.SubpageLink` | src/zim_to_obsidian/converter.py:250-254 | `+X:Y` resolves to `<page>/X/Y` |
| `Links.NamespacedLink` | src/zim_to_obsidian/converter.py:256-258 | `X:Y` resolves to `X/Y` as written, whatever the index |
| `Links.ExternalLink` | src/zim_to_obsidian/converter.py:280-284 | an external address is kept; with a label it becomes `[label](url)` |
| `Links.FileLinkText` | src/zim_to_obsidian/converter.py:286-290 | `./path` becomes a Markdown link to `./<page>/path`, shown by its file name |
| `Links.FileLink` | src/zim_to_obsidian/converter.py:286-297 | a line `[[./path]]` becomes `[path](./<page>/path)` |
| `Links.DotNotExternal` | src/zim_to_obsidian/converter.py:228-230 | a `./` target is never external |
| `Links.NotWebStart` | src/zim_to_obsidian/converter.py:228-230 | a target whose first character lowers to neither `h` nor `f` is not external |
| `Links.IsExternal` | src/zim_to_obsidian/converter.py:228-230 | `is_external_link_target`, the three prefixes compared in lower case; `Links.DotNotExternal` and `Links.NotWebStart` are about it |
| `Links.LastSlash` | src/zim_to_obsidian/converter.py:289 | `basename` of `dir/name` is `name` |
| `Links.WholeLink` | src/zim_to_obsidian/converter.py:276-297 | a line that is one link `[[x]]` becomes that link's replacement |
| `Links.WholeLabelledLink` | src/zim_to_obsidian/converter.py:276-297 | a line that is one link `[[x\|c]]` becomes that link's replacement, with the label as its caption |
| `Links.SlashIsFileLink` | src/zim_to_obsidian/converter.py:286-290 | a target `dir/name` not starting with `.` is a file link before any page lookup: `[[A/Foo]]` becomes `[Foo](A/Foo)` |
| `Links.LinkAt` | src/zim_to_obsidian/converter.py:297 | the link pattern at a position: `[[`, not after `!`, a target without `]` or `\|`, an optional caption, `]]`; `Links.EmbedsUnchanged` is about it |
| `Links.LinkText` | src/zim_to_obsidian/converter.py:276-295 | `repl`: external, then file, then wiki link; `Links.ExternalLink`, `Links.FileLinkText` and `Links.SlashIsFileLink` give each branch |
| `Links.ConvertLinks` | src/zim_to_obsidian/converter.py:233-297 | `convert_links`, `re.sub` of the link pattern; `Links.WholeLink` and `Links.SiblingLinkExample` are about it |
| `Links.EmbedsUnchanged` | src/zim_to_obsidian/converter.py:296-297 | a `[[` right after `!` is no link, so the embeds written by the image rule are left alone |
| `Links.SiblingLinkExample` | src/zim_to_obsidian/converter.py:292-295 | on the page `A:C`, `[[B\|see]]` becomes `[[A/B\|see]]` when `A/B` exists and `[[B\|see]]` otherwise |
| `Links.ResolveKeepsLine` | src/zim_to_obsidian/converter.py:242-274 | a resolved name holds a newline only if the target does |
| `Body.OpenOdd` | src/zim_to_obsidian/converter.py:306-315 | a code block is left open exactly when the number of fence lines is odd |
| `Body.CodeblocksShape` | src/zim_to_obsidian/converter.py:300-317 | every fence becomes a Markdown fence, every other line stays in its place, and one fence is added at the end exactly when the count of fences is odd |
| `Body.ConvertCodeblocks` | src/zim_to_obsidian/converter.py:300-317 | the loop that toggles `in_block` computes the `Codeblocks` function |
| `Body.Codeblocks` | src/zim_to_obsidian/converter.py:300-317 | `convert_codeblocks` as a value; `Body.CodeblocksShape` and `Body.OpenOdd` prove its shape |
| `Body.ConvertLinesAt` | src/zim_to_obsidian/converter.py:333-347 | one output line per input line, each the conversion of that line alone |
| `Body.ConvertPageBody` | src/zim_to_obsidian/converter.py:326-349 | the loop computes the body function, and the result ends with exactly one newline with no whitespace before it |
| `Body.BodyText` | src/zim_to_obsidian/converter.py:326-349 | `convert_page_body` as a value; the loop method is proved to compute it and `Body.HeadingFirst` is about it |
| `Body.FinishEnds` | src/zim_to_obsidian/converter.py:349 | the result always ends with one newline, with no whitespace before it |
| `Body.FinishKeeps` | src/zim_to_obsidian/converter.py:349 | nothing is cut when the joined lines end in non-whitespace |
| `Body.Untouched` | src/zim_to_obsidian/converter.py:336-345 | a line for which the heading, rule, image and link rules do nothing goes only through the list and inline rules |
| `Body.BulletLine` | src/zim_to_obsidian/converter.py:336-347 | `* x` with plain text becomes `- x` |
| `Body.FenceLine` | src/zim_to_obsidian/converter.py:336-347 | the Markdown fence passes every rule unchanged |
| `Body.FencedBullet` | src/zim_to_obsidian/converter.py:329-347 | the rules also fire between fences: a `* x` between two `'''` lines comes out as `- x` between two Markdown fences |
| `Body.ConvertLine` | src/zim_to_obsidian/converter.py:333-347 | one line of the loop: a heading alone, or the rule, image, link, list and inline rules in turn; `Body.Untouched` and `Body.BulletLine` are about it |
| `Body.HeadingFirst` | src/zim_to_obsidian/converter.py:326-349 | a body whose first line is `====== t ======` converts to a text that starts with `# t` |
| `Body.ConvertPage` | src/zim_to_obsidian/converter.py:462-472 | the per-page step computes the `PageText` function: nothing when the `Content-Type` does not name Zim wiki text; otherwise the front matter (unless switched off) followed by the converted body |
| `Body.PageText` | src/zim_to_obsidian/converter.py:461-472 | the text written for a page, or nothing for a page that is not Zim wiki text; `Body.FrontMatterFirst` and `Body.HeadingFirstPage` are about it |
| `Body.FrontMatterFirst` | tests/test_converter.py:41 | with front matter, a converted page starts with the `---` line |
| `Body.HeadingFirstPage` | tests/test_converter.py:55-56 | without front matter, a page whose body starts with `====== t ======` starts with `# t` and not with `---` |
| `Strings.SplitLinesJoin` | src/zim_to_obsidian/converter.py:327 | splitting the newline-join of lines gives them back, unless the last one is empty |
| `Strings.JoinSplitLines` | src/zim_to_obsidian/converter.py:74 | a text whose only line boundaries are `\n`, and that does not end with one, is the newline-join of its lines |
| `Strings.SplitLines` | src/zim_to_obsidian/converter.py:74 | `splitlines`; `Strings.SplitLinesJoin` and `Strings.JoinSplitLines` relate it to the newline join |
| `Strings.JoinSplit` | src/zim_to_obsidian/converter.py:263-265 | joining the pieces of a split with the separator gives the string back |
| `Strings.SplitJoin` | src/zim_to_obsidian/converter.py:263-265 | splitting a join of separator-free pieces gives the pieces back |
| `Strings.StripEmpty` | src/zim_to_obsidian/converter.py:64 | a line strips to nothing exactly when it is all whitespace |
| `Strings.ReplaceAt` | src/zim_to_obsidian/converter.py:244 | a one-character replacement keeps the length and replaces exactly the matching characters |

## Left out

- Reading and writing files, and the rest of `convert`, are not modelled:
  - discovering pages (`rglob`), reading their first line and their text;
  - copying attachments;
  - creating directories;
  - the `overwrite` and `dry_run` options;
  - the result record and its counters.
  The model takes over once the text of a page has been read. It takes the
  first line of a candidate file as a parameter of `Pages.IsZimPageFile`.
- The command line (`cli.py`, `scripts/zim2obsidian.py`) is not part of
  this model.
- Capturing an exception per page into `warnings` is not modelled. Nothing
  in the modelled core raises once the text has been read.
- Text encoding and decoding (`utf-8-sig`, `errors="replace"`) is left out.
  Text is a sequence of characters.
- `Strings.Lower`: `str.lower` is modelled only as far as comparisons with
  ASCII text can tell. The model is exact for every character whose
  lowercase is ASCII. It leaves other characters unchanged, so lowercasing
  of other scripts is not modelled.
- `Strings.IsDigit`: `\d` is modelled as the ASCII digits. Python also
  accepts other Unicode decimal digits in a `width=` query.
- `Pages.Segment`: a path component is taken to hold no newline, so file
  names with a newline in them are not modelled.
- The `PageInfo` record is reduced to the source path and the path
  segments. `dst_md_rel` only names the output file, which is not modelled.
- `FrontMatter.YamlEscapeRoundTrip`: the reader models only the two escapes `yaml_escape` writes. A full YAML reader also folds a raw line break inside a double-quoted scalar into a space and refuses raw control characters, so the round trip holds for full YAML only on single-line strings without control characters, as the source's comment says.
- `Body.ConvertPage`: the `zim_source` line of the front matter holds the
  source path as a string given with the page. How `str(Path)` prints it is
  not modelled.

## Notes on the source

Places where the code and its comments or documentation differ. The model
follows the code in each case.

- **Rules inside fences.** The comment at converter.py:329 says fences are
  converted early "to avoid aggressive inline rewrites in fences". In fact
  every rule still applies to the lines between fences; only the fence
  lines themselves are replaced. `Body.FencedBullet` shows a `* x` inside a
  code block becoming `- x`.
- **Non-Zim pages.** A file found by `discover_pages` whose parsed
  `Content-Type` header does not name Zim wiki text is skipped
  (converter.py:465-467). The comment there says "treat it as attachment",
  but the attachment copy skips every file listed as a page. So nothing is
  written for such a file: `Body.PageText` is `None` for it.
- **First-line probe.** `is_zim_page_file` reads only the literal first
  line of the file. A page whose header block follows a blank line is
  therefore not found (`Pages.BlankFirstLineIsNotPage`).
- **Second `?` in an image query.** The image query is searched with a `?`
  put in front of it. A second `?` inside the query can therefore also
  start the `width=` parameter (`Images.WidthAt`).
- **Rule order.** The line rules run in the order heading, horizontal rule,
  images, links, lists, inline markup. A heading line skips all the others.
- **Redundant checks.** The file-link test at converter.py:287 also checks
  for `./` and `~/` prefixes. Both already contain `/`, so these checks
  never decide anything; the model keeps them as written.
- **`splitlines` boundaries.** `splitlines` breaks lines at every Unicode
  line boundary, not only at `\n`. `Strings.IsLineBreak` lists these
  boundaries, and both the header split and the body split use them.
- **Slash links.** The comment at converter.py:256 gives `[[A/Foo]]` as a
  path-like page link. But a target holding `/` is sent to the file-link
  branch first (converter.py:287), so `[[A/Foo]]` becomes `[Foo](A/Foo)`
  (`Links.SlashIsFileLink`). The `/` case of `resolve_internal` is reached
  only by a target whose slashes come from a colon, as in `A:B`.
