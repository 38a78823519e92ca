/** Python's `re.sub(pattern, repl, s)`: scan left to right; wherever the
    pattern matches, emit the replacement and resume after the match,
    otherwise copy one character and move on. A pattern is given as a
    function from the start position to the match found there, if any, so a
    lookbehind reads the original string, as in Python. */
module Scan {
  import opened Wrappers

  /** A match: the position just after it and the text that replaces it. */
  datatype Hit = Hit(end: nat, text: string)

  /** Every match starts where it is asked for, consumes at least one
      character and stays inside `s`. */
  ghost predicate Proper(s: string, at: nat -> Option<Hit>) {
    forall k: nat :: at(k).Some? ==> k < at(k).value.end <= |s|
  }

  /** The output of the substitution for the part of `s` from `i` on. */
  function Substitute(s: string, i: nat, at: nat -> Option<Hit>): string
    requires Proper(s, at)
    decreases |s| - i
  {
    if |s| <= i then []
    else match at(i)
      case Some(h) => h.text + Substitute(s, h.end, at)
      case None => [s[i]] + Substitute(s, i + 1, at)
  }

  /** Positions where nothing matches are copied through. */
  lemma {:induction false} SkipUnmatched(s: string, i: nat, p: nat, at: nat -> Option<Hit>)
    requires Proper(s, at) && i <= p <= |s|
    requires forall k :: i <= k < p ==> at(k).None?
    ensures Substitute(s, i, at) == s[i..p] + Substitute(s, p, at)
    decreases p - i
  {
    if i < p {
      var rest := Substitute(s, p, at);
      assert at(i).None?;
      SkipUnmatched(s, i + 1, p, at);
      calc {
        Substitute(s, i, at);
        [s[i]] + Substitute(s, i + 1, at);
        [s[i]] + (s[i + 1..p] + rest);
        { Regroup(s[i..p], [s[i]], s[i + 1..p], rest); }
        s[i..p] + rest;
      }
    }
  }

  lemma Regroup(whole: string, a: string, b: string, c: string)
    requires whole == a + b
    ensures a + (b + c) == whole + c
  {
  }

  /** The leftmost match wins: the text before it is copied, the match is
      replaced and the scan resumes after it, so matches never overlap. */
  lemma LeftmostMatch(s: string, i: nat, p: nat, at: nat -> Option<Hit>)
    requires Proper(s, at) && i <= p < |s|
    requires forall k :: i <= k < p ==> at(k).None?
    requires at(p).Some?
    ensures Substitute(s, i, at) == s[i..p] + at(p).value.text + Substitute(s, at(p).value.end, at)
  {
    SkipUnmatched(s, i, p, at);
  }

  /** Where the pattern matches nowhere, the text is unchanged. */
  lemma NoMatchUnchanged(s: string, i: nat, at: nat -> Option<Hit>)
    requires Proper(s, at) && i <= |s|
    requires forall k :: i <= k < |s| ==> at(k).None?
    ensures Substitute(s, i, at) == s[i..]
  {
    SkipUnmatched(s, i, |s|, at);
  }

  /** A newline appears in the output only if the input or a replacement
      holds one. */
  lemma {:induction false} SubstituteKeepsLine(s: string, i: nat, at: nat -> Option<Hit>)
    requires Proper(s, at) && '\n' !in s
    requires forall k: nat :: at(k).Some? ==> '\n' !in at(k).value.text
    ensures '\n' !in Substitute(s, i, at)
    decreases |s| - i
  {
    if i < |s| {
      match at(i)
      case Some(h) => SubstituteKeepsLine(s, h.end, at);
      case None => SubstituteKeepsLine(s, i + 1, at);
    }
  }

  /** A string that is one whole match is its replacement. */
  lemma WholeMatch(s: string, at: nat -> Option<Hit>, r: string)
    requires Proper(s, at) && at(0).Some? && at(0).value.end == |s| && at(0).value.text == r
    ensures Substitute(s, 0, at) == r
  {
    assert Substitute(s, |s|, at) == [];
  }
}
