/** List items (converter.py:123-172): the indentation of a line, Zim
    checkboxes, which become Markdown tasks, `*` bullets, which become `-`
    bullets, and numbered items, which are kept. */
module ListItems {
  import opened Wrappers
  import opened Strings

  predicate IsIndentChar(c: char) {
    c == ' ' || c == '\t'
  }

  predicate AllIndent(s: string) {
    forall i :: 0 <= i < |s| ==> IsIndentChar(s[i])
  }

  /** `indent.replace("\t", "  ")`. */
  function Spaces(indent: string): string {
    Replace(indent, '\t', "  ")
  }

  /** Spaces and tabs become spaces only, a tab counting two. */
  lemma {:induction false} SpacesOnly(indent: string)
    requires AllIndent(indent)
    ensures forall i :: 0 <= i < |Spaces(indent)| ==> Spaces(indent)[i] == ' '
    ensures |Spaces(indent)| == |indent| + Count(indent, '\t')
  {
    ReplaceLength(indent, '\t', "  ");
    if indent != [] {
      SpacesOnly(indent[1..]);
      assert AllIndent(indent[1..]) by {
        forall i | 0 <= i < |indent| - 1 ensures IsIndentChar(indent[1..][i]) {
          assert indent[1..][i] == indent[i + 1];
        }
      }
    }
  }

  /** `normalize_indent`: the leading run of spaces and tabs, made all
      spaces with a tab counting two, and the rest of the line, which does
      not start with a space or a tab. */
  function NormalizeIndent(line: Line): (r: (string, Line))
    ensures |r.1| <= |line|
    ensures var k := |line| - |r.1|;
      && r.1 == line[k..] && AllIndent(line[..k])
      && (r.1 == [] || !IsIndentChar(r.1[0]))
      && (forall i :: 0 <= i < |r.0| ==> r.0[i] == ' ')
      && |r.0| == k + Count(line[..k], '\t')
  {
    var k := RunEnd(line, 0, IsIndentChar);
    SpacesOnly(line[..k]);
    (Spaces(line[..k]), line[k..])
  }

  /** The groups of `^([ \t]*)\[(?P<state>.?)\]\s+(?P<text>.*)$`; `indent`
      is as written, tabs included. */
  datatype Box = Box(indent: string, state: string, text: string)

  /** The length of the state between the brackets, if the indentation
      ending at `k` is followed by a bracketed state and whitespace. One
      character is tried first, as the greedy `.?` does, then none. */
  function StateLength(line: Line, k: nat): (r: Option<nat>)
    requires k <= |line|
    ensures r.Some? ==> var s := r.value;
      && s <= 1 && k + 2 + s < |line|
      && line[k] == '[' && line[k + 1 + s] == ']' && IsSpace(line[k + 2 + s])
  {
    if k < |line| && line[k] == '[' then
      if k + 3 < |line| && line[k + 2] == ']' && IsSpace(line[k + 3]) then Some(1)
      else if k + 2 < |line| && line[k + 1] == ']' && IsSpace(line[k + 2]) then Some(0)
      else None
    else None
  }

  /** The checkbox match. The whitespace run after the bracket is maximal,
      so the text does not start with whitespace. */
  function MatchBox(line: Line): Option<Box> {
    var k := RunEnd(line, 0, IsIndentChar);
    match StateLength(line, k)
    case None => None
    case Some(s) => Some(Box(line[..k], line[k + 1..k + 1 + s], line[RunEnd(line, k + 2 + s, IsSpace)..]))
  }

  /** What precedes a task's text: a checked box for `*`, an open
      one otherwise, and the opening of a strike-through for `x`. */
  function TaskHead(state: string): string {
    if state == "*" then "- [x] "
    else if state != " " && Lower(state) == "x" then "- [ ] ~~"
    else "- [ ] "
  }

  /** What follows a task's text: nothing for `[ ]` and `[*]`, else
      the end of the strike-through and a comment recording the state. */
  function TaskTail(state: string): string {
    if state == " " || state == "*" then ""
    else if Lower(state) == "x" then "~~ <!-- zim:state=x (not completed) -->"
    else if state == ">" then " <!-- zim:state=> (moved) -->"
    else if state == "<" then " <!-- zim:state=< (moved back) -->"
    else " <!-- zim:state=" + state + " -->"
  }

  /** The Markdown task for a Zim checkbox, by state: `[ ]` open, `[*]`
      done, `[x]` not done (struck through), `[>]` moved, `[<]` moved back,
      any other state kept in a comment. */
  function TaskLine(b: Box): string {
    Spaces(b.indent) + TaskHead(b.state) + b.text + TaskTail(b.state)
  }

  lemma TaskKeepsLine(b: Box)
    requires '\n' !in b.indent && '\n' !in b.state && '\n' !in b.text
    ensures '\n' !in TaskLine(b)
  {
    ReplaceKeeps(b.indent, '\t', "  ", '\n');
    TailKeepsLine(b.state);
    NoNewline4(Spaces(b.indent), TaskHead(b.state), b.text, TaskTail(b.state));
  }

  lemma TailKeepsLine(state: string)
    requires '\n' !in state
    ensures '\n' !in TaskTail(state)
  {
    if state == " " || state == "*" {
    } else if Lower(state) == "x" {
      NotCompletedLine();
    } else if state == ">" {
      MovedLine();
    } else if state == "<" {
      MovedBackLine();
    } else {
      NoNewline4(" <!-- zim:state=", state, " -->", "");
      assert TaskTail(state) == " <!-- zim:state=" + state + " -->" + "";
    }
  }

  lemma NotCompletedLine()
    ensures '\n' !in "~~ <!-- zim:state=x (not completed) -->"
  {
  }

  lemma MovedLine()
    ensures '\n' !in " <!-- zim:state=> (moved) -->"
  {
  }

  lemma MovedBackLine()
    ensures '\n' !in " <!-- zim:state=< (moved back) -->"
  {
  }

  /** `convert_checkbox_line`. */
  function ConvertCheckbox(line: Line): (r: Option<Line>)
    ensures r.Some? <==> MatchBox(line).Some?
  {
    match MatchBox(line)
    case None => None
    case Some(b) =>
      assert '\n' !in b.indent && '\n' !in b.state && '\n' !in b.text;
      TaskKeepsLine(b);
      Some(TaskLine(b))
  }

  /** A checkbox line as it is written: indentation, the bracketed state of
      at most one character, whitespace and the text. */
  predicate BoxShape(line: string, indent: string, state: string, gap: string, text: string) {
    && line == indent + "[" + state + "]" + gap + text
    && AllIndent(indent) && |state| <= 1
    && gap != [] && AllSpace(gap) && (text == [] || !IsSpace(text[0]))
  }

  /** Every line of the checkbox shape matches, with these groups. */
  lemma ShapeMatches(line: Line, indent: string, state: string, gap: string, text: string)
    requires BoxShape(line, indent, state, gap, text)
    ensures MatchBox(line) == Some(Box(indent, state, text))
  {
    var k := |indent|;
    var s := |state|;
    var e := k + 2 + s + |gap|;
    PiecesOfShape(line, indent, state, gap, text);
    RunEndAt(line, 0, k, IsIndentChar);
    RunEndAt(line, k + 2 + s, e, IsSpace);
    StateOfShape(line, k, s);
    MatchOfPieces(line, k, s, e, indent, state, text);
  }

  lemma MatchOfPieces(line: Line, k: nat, s: nat, e: nat, indent: string, state: string, text: string)
    requires RunEnd(line, 0, IsIndentChar) == k && StateLength(line, k) == Some(s)
    requires RunEnd(line, k + 2 + s, IsSpace) == e
    requires line[..k] == indent && line[k + 1..k + 1 + s] == state && line[e..] == text
    ensures MatchBox(line) == Some(Box(indent, state, text))
  {
  }

  /** A bracket, at most one character, a bracket and whitespace: the
      state is that one character, or empty. */
  lemma StateOfShape(line: Line, k: nat, s: nat)
    requires s <= 1 && k + 2 + s < |line|
    requires line[k] == '[' && line[k + 1 + s] == ']' && IsSpace(line[k + 2 + s])
    ensures StateLength(line, k) == Some(s)
  {
    assert !IsSpace(']');
  }

  lemma PiecesOfShape(line: Line, indent: string, state: string, gap: string, text: string)
    requires BoxShape(line, indent, state, gap, text)
    ensures var k := |indent|; var s := |state|; var e := k + 2 + s + |gap|;
      && e <= |line| && line[..k] == indent && line[k] == '['
      && line[k + 1..k + 1 + s] == state && line[k + 1 + s] == ']'
      && (forall i :: k + 2 + s <= i < e ==> IsSpace(line[i]))
      && line[e..] == text
  {
    var k := |indent|;
    var s := |state|;
    var e := k + 2 + s + |gap|;
    assert forall i :: k + 2 + s <= i < e ==> line[i] == gap[i - (k + 2 + s)];
  }

  /** Every match has the checkbox shape. */
  lemma MatchHasShape(line: Line)
    requires MatchBox(line).Some?
    ensures var b := MatchBox(line).value;
      exists gap :: BoxShape(line, b.indent, b.state, gap, b.text)
  {
    var k := RunEnd(line, 0, IsIndentChar);
    var s := StateLength(line, k).value;
    var e := RunEnd(line, k + 2 + s, IsSpace);
    var b := MatchBox(line).value;
    var gap := line[k + 2 + s..e];
    ShapeOfPieces(line, k, s, e, b.indent, b.state, gap, b.text);
  }

  lemma ShapeOfPieces(line: string, k: nat, s: nat, e: nat, indent: string, state: string, gap: string, text: string)
    requires k + 2 + s < e <= |line| && s <= 1
    requires indent == line[..k] && AllIndent(indent)
    requires line[k] == '[' && state == line[k + 1..k + 1 + s] && line[k + 1 + s] == ']'
    requires gap == line[k + 2 + s..e] && AllSpace(gap)
    requires text == line[e..] && (e < |line| ==> !IsSpace(line[e]))
    ensures BoxShape(line, indent, state, gap, text)
  {
    Pieces6(line, k, k + 1, k + 1 + s, k + 2 + s, e);
    assert line[k..k + 1] == "[" && line[k + 1 + s..k + 2 + s] == "]";
  }

  /** Only `[*]` gives a checked task; every other state gives an open one. */
  lemma OnlyStarChecked(b: Box)
    ensures var n := |Spaces(b.indent)|;
      && |TaskLine(b)| >= n + 6
      && TaskLine(b)[..n] == Spaces(b.indent)
      && TaskLine(b)[n..n + 6] == (if b.state == "*" then "- [x] " else "- [ ] ")
  {
  }

  /** A bracketed state, one space and a text make a checkbox. */
  lemma BoxOf(line: Line, indent: string, state: string, text: string)
    requires line == indent + "[" + state + "] " + text
    requires AllIndent(indent) && |state| <= 1 && (text == [] || !IsSpace(text[0]))
    ensures ConvertCheckbox(line) == Some(TaskLine(Box(indent, state, text)))
  {
    assert line == indent + "[" + state + "]" + " " + text;
    ShapeMatches(line, indent, state, " ", text);
  }

  lemma TaskWith(indent: string, state: string, text: string, head: string, tail: string)
    requires TaskHead(state) == head && TaskTail(state) == tail
    ensures TaskLine(Box(indent, state, text)) == Spaces(indent) + head + text + tail
    ensures tail == "" ==> TaskLine(Box(indent, state, text)) == Spaces(indent) + head + text
  {
    assert Spaces(indent) + head + text + "" == Spaces(indent) + head + text;
  }

  /** `[ ]` is an open task. */
  lemma Open(line: Line, indent: string, text: string)
    requires line == indent + "[ ] " + text
    requires AllIndent(indent) && (text == [] || !IsSpace(text[0]))
    ensures ConvertCheckbox(line) == Some(Spaces(indent) + "- [ ] " + text)
  {
    assert line == indent + "[" + " " + "] " + text;
    BoxOf(line, indent, " ", text);
    assert TaskHead(" ") == "- [ ] " && TaskTail(" ") == "";
    TaskWith(indent, " ", text, "- [ ] ", "");
  }

  /** `[*]` is a completed task. */
  lemma Done(line: Line, indent: string, text: string)
    requires line == indent + "[*] " + text
    requires AllIndent(indent) && (text == [] || !IsSpace(text[0]))
    ensures ConvertCheckbox(line) == Some(Spaces(indent) + "- [x] " + text)
  {
    assert line == indent + "[" + "*" + "] " + text;
    BoxOf(line, indent, "*", text);
    assert TaskHead("*") == "- [x] " && TaskTail("*") == "";
    TaskWith(indent, "*", text, "- [x] ", "");
  }

  /** `[x]` and `[X]` are tasks not done: open, struck through and marked. */
  lemma NotDone(line: Line, indent: string, x: char, text: string)
    requires x == 'x' || x == 'X'
    requires line == indent + "[" + [x] + "] " + text
    requires AllIndent(indent) && (text == [] || !IsSpace(text[0]))
    ensures ConvertCheckbox(line)
      == Some(Spaces(indent) + "- [ ] ~~" + text + "~~ <!-- zim:state=x (not completed) -->")
  {
    assert Lower([x]) == "x";
    assert TaskHead([x]) == "- [ ] ~~";
    assert TaskTail([x]) == "~~ <!-- zim:state=x (not completed) -->";
    BoxOf(line, indent, [x], text);
    TaskWith(indent, [x], text, "- [ ] ~~", "~~ <!-- zim:state=x (not completed) -->");
  }

  /** `[>]` is an open task marked as moved. */
  lemma Moved(line: Line, indent: string, text: string)
    requires line == indent + "[>] " + text
    requires AllIndent(indent) && (text == [] || !IsSpace(text[0]))
    ensures ConvertCheckbox(line) == Some(Spaces(indent) + "- [ ] " + text + " <!-- zim:state=> (moved) -->")
  {
    assert line == indent + "[" + ">" + "] " + text;
    assert Lower(">") == ">";
    assert TaskHead(">") == "- [ ] ";
    assert TaskTail(">") == " <!-- zim:state=> (moved) -->";
    BoxOf(line, indent, ">", text);
    TaskWith(indent, ">", text, "- [ ] ", " <!-- zim:state=> (moved) -->");
  }

  /** `[<]` is an open task marked as moved back. */
  lemma MovedBack(line: Line, indent: string, text: string)
    requires line == indent + "[<] " + text
    requires AllIndent(indent) && (text == [] || !IsSpace(text[0]))
    ensures ConvertCheckbox(line) == Some(Spaces(indent) + "- [ ] " + text + " <!-- zim:state=< (moved back) -->")
  {
    assert line == indent + "[" + "<" + "] " + text;
    assert Lower("<") == "<";
    assert TaskHead("<") == "- [ ] ";
    assert TaskTail("<") == " <!-- zim:state=< (moved back) -->";
    BoxOf(line, indent, "<", text);
    TaskWith(indent, "<", text, "- [ ] ", " <!-- zim:state=< (moved back) -->");
  }

  /** Any other state, the empty one included, is an open task that keeps
      the state in a comment. */
  lemma OtherState(line: Line, indent: string, state: string, text: string)
    requires line == indent + "[" + state + "] " + text
    requires AllIndent(indent) && |state| <= 1 && (text == [] || !IsSpace(text[0]))
    requires state != " " && state != "*" && state != "x" && state != "X" && state != ">" && state != "<"
    ensures ConvertCheckbox(line) == Some(Spaces(indent) + "- [ ] " + text + " <!-- zim:state=" + state + " -->")
  {
    var tail := " <!-- zim:state=" + state + " -->";
    OtherParts(state);
    BoxOf(line, indent, state, text);
    TaskWith(indent, state, text, "- [ ] ", tail);
    Tailed(Spaces(indent) + "- [ ] " + text, " <!-- zim:state=", state, " -->");
  }

  lemma Tailed(p: string, a: string, b: string, c: string)
    ensures p + (a + b + c) == p + a + b + c
  {
  }

  lemma OtherParts(state: string)
    requires |state| <= 1
    requires state != " " && state != "*" && state != "x" && state != "X" && state != ">" && state != "<"
    ensures TaskHead(state) == "- [ ] " && TaskTail(state) == " <!-- zim:state=" + state + " -->"
  {
    NotCross(state);
  }

  /** Only `x` and `X` are lowered to `x`. */
  lemma NotCross(state: string)
    requires |state| <= 1 && state != "x" && state != "X"
    ensures Lower(state) != "x"
  {
    if state != [] {
      assert Lower(state) == LowerChar(state[0]) + Lower([]);
    }
  }

  /** `[] text`: the `.?` of the state gives up its one character, and the
      empty state is kept in a comment. */
  lemma EmptyState(line: Line, text: string)
    requires line == "[] " + text && (text == [] || !IsSpace(text[0]))
    ensures ConvertCheckbox(line) == Some("- [ ] " + text + " <!-- zim:state= -->")
  {
    assert line == "" + "[" + "" + "] " + text;
    OtherState(line, "", "", text);
    assert Spaces("") == "";
    var open := "- [ ] ";
    var tail := " <!-- zim:state= -->";
    assert "" + open == open;
    assert " <!-- zim:state=" + "" + " -->" == tail;
    Tailed(open + text, " <!-- zim:state=", "", " -->");
  }

  /** No whitespace after the bracket: no checkbox. */
  lemma NoGap(c: char, text: string)
    requires '\n' !in text && !IsSpace(c) && c != '\n'
    ensures ConvertCheckbox("[ ]" + [c] + text) == None
  {
    var line := "[ ]" + [c] + text;
    assert line[0] == '[' && line[2] == ']' && line[3] == c;
    assert RunEnd(line, 0, IsIndentChar) == 0;
  }

  /** `re.match(r"^(?:\d+|[aA])\.\s+", rest)`: digits or a single `a`/`A`,
      a dot and whitespace. */
  predicate IsNumbered(rest: string) {
    var d := RunEnd(rest, 0, IsDigit);
    || (d >= 1 && d + 1 < |rest| && rest[d] == '.' && IsSpace(rest[d + 1]))
    || (|rest| >= 3 && (rest[0] == 'a' || rest[0] == 'A') && rest[1] == '.' && IsSpace(rest[2]))
  }

  /** `convert_lists`. */
  function ConvertLists(line: Line): Line {
    var (indent, rest) := NormalizeIndent(line);
    match ConvertCheckbox(line)
    case Some(task) => task
    case None =>
      if "* " <= rest then indent + "- " + rest[2..]
      else if IsNumbered(rest) then indent + rest
      else line
  }

  /** A `*` bullet becomes a `-` bullet, indentation made spaces. */
  lemma Bullet(line: Line, indent: string, item: string)
    requires line == indent + "* " + item && AllIndent(indent)
    ensures ConvertLists(line) == Spaces(indent) + "- " + item
  {
    assert line[|indent|] == '*';
    RunEndAt(line, 0, |indent|, IsIndentChar);
    assert line[|indent|..] == "* " + item;
    assert MatchBox(line).None?;
    assert line[..|indent|] == indent;
    assert NormalizeIndent(line) == (Spaces(indent), "* " + item);
    assert ("* " + item)[2..] == item;
  }

  /** A numbered item keeps its text; only tabs in its indentation change. */
  lemma Numbered(line: Line, indent: string, rest: string)
    requires line == indent + rest && AllIndent(indent) && IsNumbered(rest)
    ensures ConvertLists(line) == Spaces(indent) + rest
    ensures '\t' !in indent ==> ConvertLists(line) == line
  {
    assert rest[0] != ' ' && rest[0] != '\t' && rest[0] != '[';
    assert line[|indent|] == rest[0];
    RunEndAt(line, 0, |indent|, IsIndentChar);
  }

  /** A line that starts with neither indentation, a bracket, a `*`, a
      digit nor `a`/`A` is kept as it is. */
  lemma OtherUnchanged(line: Line)
    requires line != [] && !IsIndentChar(line[0]) && line[0] != '[' && line[0] != '*'
    requires !IsDigit(line[0]) && line[0] != 'a' && line[0] != 'A'
    ensures ConvertLists(line) == line
  {
    assert RunEnd(line, 0, IsIndentChar) == 0;
    assert line[0..] == line;
    assert RunEnd(line, 0, IsDigit) == 0;
  }

  /** A checkbox wins over the bullet and number rules: `[ ] * x` is a
      task whose text is `* x`, and `[ ] 1. x` one whose text is `1. x`. */
  lemma CheckboxFirst(line: Line, indent: string, text: string)
    requires line == indent + "[ ] " + text
    requires AllIndent(indent) && (text == [] || !IsSpace(text[0]))
    ensures ConvertLists(line) == Spaces(indent) + "- [ ] " + text
  {
    Open(line, indent, text);
  }
}
