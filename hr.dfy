/** Horizontal rules (converter.py:320-323): a line of five or more hyphens,
    surrounding whitespace aside, becomes the Markdown rule `---`. */
module HorizontalRule {
  import opened Strings

  predicate IsHyphen(c: char) {
    c == '-'
  }

  /** `re.match(r"^-{5,}\s*$", s)`: a run of at least five hyphens and then
      nothing but whitespace. */
  predicate IsRule(s: string) {
    var k := RunEnd(s, 0, IsHyphen);
    k >= 5 && AllSpace(s[k..])
  }

  /** `convert_hr`. */
  function ConvertHr(line: Line): Line {
    if IsRule(Strip(line)) then "---" else line
  }

  /** A hyphen rule is exactly a line whose stripped form is five or more
      hyphens and nothing else; every other line is left as it is. */
  lemma RuleIff(line: Line)
    ensures var s := Strip(line);
      ConvertHr(line) == if |s| >= 5 && forall i :: 0 <= i < |s| ==> s[i] == '-' then "---" else line
  {
    var s := Strip(line);
    StripEnds(line);
    var k := RunEnd(s, 0, IsHyphen);
    if forall i :: 0 <= i < |s| ==> s[i] == '-' {
      assert k == |s|;
    }
  }

  /** A line that starts with something other than whitespace or a hyphen
      is left as it is. */
  lemma NotRule(line: Line)
    requires line != [] && !IsSpace(line[0]) && line[0] != '-'
    ensures ConvertHr(line) == line
  {
    StripFirst(line);
    var s := Strip(line);
    RunEndAt(s, 0, 0, IsHyphen);
  }
}
