/** The header block of a Zim page (converter.py:51-75): the leading
    `key: value` lines, up to the first blank line, which is consumed, or the
    first line without a colon, which starts the body. */
module Headers {
  import opened Wrappers
  import opened Strings

  /** A Python `dict` of strings, in insertion order. */
  datatype Entry = Entry(key: string, value: string)
  type Dict = seq<Entry>

  function Keys(d: Dict): (ks: seq<string>)
    ensures |ks| == |d|
  {
    if d == [] then [] else [d[0].key] + Keys(d[1..])
  }

  lemma {:induction false} KeysAt(d: Dict, i: nat)
    requires i < |d|
    ensures Keys(d)[i] == d[i].key
  {
    if i > 0 {
      KeysAt(d[1..], i - 1);
    }
  }

  predicate DistinctKeys(d: Dict) {
    forall i, j :: 0 <= i < j < |d| ==> d[i].key != d[j].key
  }

  /** `d.get(k)`: the value of the entry with key `k`, if there is one. */
  function Get(d: Dict, k: string): (r: Option<string>)
    ensures r.None? <==> k !in Keys(d)
  {
    if d == [] then None
    else if d[0].key == k then Some(d[0].value)
    else Get(d[1..], k)
  }

  /** `d[k] = v`. */
  function Put(d: Dict, k: string, v: string): Dict {
    if d == [] then [Entry(k, v)]
    else if d[0].key == k then [Entry(k, v)] + d[1..]
    else [d[0]] + Put(d[1..], k, v)
  }

  /** A new key goes last; an existing key keeps its place. */
  lemma {:induction false} PutKeys(d: Dict, k: string, v: string)
    ensures Keys(Put(d, k, v)) == if k in Keys(d) then Keys(d) else Keys(d) + [k]
  {
    if d != [] {
      assert Keys(d) == [d[0].key] + Keys(d[1..]);
      if d[0].key != k {
        PutKeys(d[1..], k, v);
        assert Keys(Put(d, k, v)) == [d[0].key] + Keys(Put(d[1..], k, v));
      } else {
        assert Keys(Put(d, k, v)) == [k] + Keys(d[1..]);
      }
    }
  }

  /** After `d[k] = v`, `k` maps to `v` and every other key to what it mapped to. */
  lemma {:induction false} PutGet(d: Dict, k: string, v: string, k': string)
    ensures Get(Put(d, k, v), k') == if k' == k then Some(v) else Get(d, k')
  {
    if d != [] && d[0].key != k {
      PutGet(d[1..], k, v, k');
    }
  }

  lemma PutDistinct(d: Dict, k: string, v: string)
    requires DistinctKeys(d)
    ensures DistinctKeys(Put(d, k, v))
  {
    var r := Put(d, k, v);
    PutKeys(d, k, v);
    forall i | 0 <= i < |r| ensures r[i].key == Keys(r)[i] {
      KeysAt(r, i);
    }
    forall i | 0 <= i < |d| ensures d[i].key == Keys(d)[i] {
      KeysAt(d, i);
    }
  }

  /** A blank line, all whitespace: `line.strip() == ""` (see `StripEmpty`). */
  predicate IsBlank(line: string) {
    AllSpace(line)
  }

  /** A line the header loop takes as a header: not blank, with a colon. */
  predicate IsHeaderLine(line: string) {
    !IsBlank(line) && ':' in line
  }

  /** `k.strip()` after `line.split(":", 1)`. */
  function HeaderKey(line: string): string
    requires ':' in line
  {
    Strip(line[..Find(line, ':').value])
  }

  /** `v.strip()` after `line.split(":", 1)`. */
  function HeaderValue(line: string): string
    requires ':' in line
  {
    Strip(line[Find(line, ':').value + 1..])
  }

  /** The number of leading header lines. */
  function HeaderCount(lines: seq<string>): (n: nat)
    ensures n <= |lines|
    ensures forall i :: 0 <= i < n ==> IsHeaderLine(lines[i])
    ensures n < |lines| ==> !IsHeaderLine(lines[n])
  {
    if lines == [] || !IsHeaderLine(lines[0]) then 0
    else
      var m := HeaderCount(lines[1..]);
      assert forall i :: 0 <= i < m ==> lines[1..][i] == lines[i + 1];
      assert m < |lines| - 1 ==> lines[1..][m] == lines[m + 1];
      1 + m
  }

  /** Where the body starts: after the header lines, and after the blank line
      that ends them, if that is what ends them. */
  function BodyStart(lines: seq<string>): (b: nat)
    ensures b <= |lines|
  {
    var n := HeaderCount(lines);
    if n < |lines| && IsBlank(lines[n]) then n + 1 else n
  }

  /** The dict the header lines fill, one assignment per line in order. */
  function Collect(lines: seq<string>): Dict
    requires forall i :: 0 <= i < |lines| ==> ':' in lines[i]
  {
    if lines == [] then []
    else
      var last := lines[|lines| - 1];
      Put(Collect(lines[..|lines| - 1]), HeaderKey(last), HeaderValue(last))
  }

  /** The headers of a raw page text. */
  function HeadersOf(raw: string): Dict {
    var lines := SplitLines(raw);
    Collect(lines[..HeaderCount(lines)])
  }

  /** The body of a raw page text: the remaining lines joined with `\n`. */
  function BodyOf(raw: string): string {
    var lines := SplitLines(raw);
    Join("\n", lines[BodyStart(lines)..])
  }

  /** `parse_zim_headers_and_body`. */
  method ParseHeadersAndBody(raw: string) returns (headers: Dict, body: string)
    ensures headers == HeadersOf(raw)
    ensures body == BodyOf(raw)
  {
    var lines := SplitLines(raw);
    ghost var n := HeaderCount(lines);
    headers := [];
    var i := 0;
    while i < |lines|
      invariant 0 <= i <= n
      invariant headers == Collect(lines[..i])
    {
      var line := lines[i];
      StripEmpty(line);
      if Strip(line) == "" {
        assert i == n;
        i := i + 1;
        break;
      }
      if ':' in line {
        assert i < n;
        CollectSnoc(lines, i);
        headers := Put(headers, HeaderKey(line), HeaderValue(line));
      } else {
        assert i == n;
        break;
      }
      i := i + 1;
    }
    assert i == BodyStart(lines);
    body := if i < |lines| then Join("\n", lines[i..]) else "";
  }

  /** The lines of a page are its header lines, the blank line that ended
      them if any, and the body lines. */
  lemma HeaderBodyPartition(raw: string)
    ensures var lines := SplitLines(raw);
      var n := HeaderCount(lines);
      && (forall i :: 0 <= i < n ==> !IsBlank(lines[i]) && ':' in lines[i])
      && (n < |lines| ==> IsBlank(lines[n]) || ':' !in lines[n])
      && BodyStart(lines) == (if n < |lines| && IsBlank(lines[n]) then n + 1 else n)
      && lines == lines[..n] + lines[n..BodyStart(lines)] + lines[BodyStart(lines)..]
  {
    var lines := SplitLines(raw);
    var n := HeaderCount(lines);
    var b := BodyStart(lines);
    assert lines[..n] + lines[n..b] == lines[..b];
    assert lines[..b] + lines[b..] == lines;
  }

  lemma CollectSnoc(lines: seq<string>, i: nat)
    requires i < |lines| && forall j :: 0 <= j <= i ==> ':' in lines[j]
    ensures Collect(lines[..i + 1]) == Put(Collect(lines[..i]), HeaderKey(lines[i]), HeaderValue(lines[i]))
  {
    assert lines[..i + 1][..i] == lines[..i];
  }

  /** Re-splitting the body gives back exactly the body lines, unless the
      last of them is empty. */
  lemma BodyResplits(raw: string)
    requires var lines := SplitLines(raw); lines == [] || lines[|lines| - 1] != ""
    ensures var lines := SplitLines(raw); SplitLines(BodyOf(raw)) == lines[BodyStart(lines)..]
  {
    var lines := SplitLines(raw);
    TailResplits(lines, BodyStart(lines));
  }

  lemma TailResplits(lines: seq<string>, b: nat)
    requires b <= |lines|
    requires forall i :: 0 <= i < |lines| ==> NoBreak(lines[i])
    requires lines == [] || lines[|lines| - 1] != ""
    ensures SplitLines(Join("\n", lines[b..])) == lines[b..]
  {
    var rest := lines[b..];
    forall i | 0 <= i < |rest| ensures NoBreak(rest[i]) {
      assert rest[i] == lines[b + i];
    }
    if rest != [] {
      assert rest[|rest| - 1] == lines[|lines| - 1];
    }
    SplitLinesJoin(rest);
  }

  /** Every key of the header dict comes from one header line, and a later
      line with the same key overwrites an earlier one: the value is that of
      the last line with the key. */
  lemma {:induction false} CollectLastWins(lines: seq<string>, k: string, j: nat)
    requires forall i :: 0 <= i < |lines| ==> ':' in lines[i]
    requires j < |lines| && HeaderKey(lines[j]) == k
    requires forall i :: j < i < |lines| ==> HeaderKey(lines[i]) != k
    ensures Get(Collect(lines), k) == Some(HeaderValue(lines[j]))
  {
    var init := lines[..|lines| - 1];
    var last := lines[|lines| - 1];
    PutGet(Collect(init), HeaderKey(last), HeaderValue(last), k);
    if j < |lines| - 1 {
      assert forall i :: 0 <= i < |init| ==> init[i] == lines[i];
      CollectLastWins(init, k, j);
    }
  }

  /** A key that no header line names is absent. */
  lemma {:induction false} CollectAbsent(lines: seq<string>, k: string)
    requires forall i :: 0 <= i < |lines| ==> ':' in lines[i]
    requires forall i :: 0 <= i < |lines| ==> HeaderKey(lines[i]) != k
    ensures Get(Collect(lines), k) == None
  {
    if lines != [] {
      var init := lines[..|lines| - 1];
      var last := lines[|lines| - 1];
      assert forall i :: 0 <= i < |init| ==> init[i] == lines[i];
      PutGet(Collect(init), HeaderKey(last), HeaderValue(last), k);
      CollectAbsent(init, k);
    }
  }

  /** Each key appears once in the header dict. */
  lemma {:induction false} CollectDistinct(lines: seq<string>)
    requires forall i :: 0 <= i < |lines| ==> ':' in lines[i]
    ensures DistinctKeys(Collect(lines))
  {
    if lines != [] {
      var last := lines[|lines| - 1];
      CollectDistinct(lines[..|lines| - 1]);
      PutDistinct(Collect(lines[..|lines| - 1]), HeaderKey(last), HeaderValue(last));
    }
  }
}
