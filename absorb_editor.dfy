/** The `--edit-lines` editor text of absorb and its parser.

    Every line of the file history is shown as a row: four spaces, one
    column per visible revision holding `y` when the line exists in that
    revision, `" : "`, then the line itself. Header lines start with the
    template prefix followed by `:`. Parsing the edited text gives, for
    each revision, the concatenation of the rows flagged `y` in its
    column. */
module AbsorbEditor {
  import opened Wrappers

  datatype EditError = EmptyEditorText | MalformedLine(line: string)

  // ----- str.splitlines(True) -----

  /** The line boundaries of Python's `str.splitlines`. */
  predicate IsLineBoundary(c: char) {
    c in "\n\r\U{000B}\U{000C}\U{001C}\U{001D}\U{001E}\U{0085}\U{2028}\U{2029}"
  }

  /** The index just past the line that starts at `i`: past its boundary
      (`\r\n` counting as one), or the end of the text. */
  function LineEnd(s: string, i: nat): (e: nat)
    requires i <= |s|
    ensures i <= e <= |s|
    ensures i < |s| ==> i < e
    decreases |s| - i
  {
    if i == |s| then i
    else if s[i] == '\r' && i + 1 < |s| && s[i + 1] == '\n' then i + 2
    else if IsLineBoundary(s[i]) then i + 1
    else LineEnd(s, i + 1)
  }

  /** `s.splitlines(True)`: the lines of `s`, each keeping its boundary. */
  function SplitLines(s: string): seq<string>
    decreases |s|
  {
    if s == [] then [] else
      var e := LineEnd(s, 0);
      [s[..e]] + SplitLines(s[e..])
  }

  function Concat(ls: seq<string>): string {
    if ls == [] then "" else ls[0] + Concat(ls[1..])
  }

  lemma {:induction false} ConcatAppend(xs: seq<string>, ys: seq<string>)
    ensures Concat(xs + ys) == Concat(xs) + Concat(ys)
  {
    if xs != [] {
      assert (xs + ys)[1..] == xs[1..] + ys;
      ConcatAppend(xs[1..], ys);
      assert Concat(xs + ys) == xs[0] + Concat(xs[1..] + ys);
      assert xs[0] + (Concat(xs[1..]) + Concat(ys)) == (xs[0] + Concat(xs[1..])) + Concat(ys);
    } else {
      assert xs + ys == ys;
    }
  }

  /** Splitting keeps every character: the lines join back to the text, and
      none of them is empty. */
  lemma {:induction false} SplitLinesJoin(s: string)
    ensures Concat(SplitLines(s)) == s
    ensures forall l :: l in SplitLines(s) ==> l != []
    decreases |s|
  {
    if s != [] {
      var e := LineEnd(s, 0);
      SplitLinesJoin(s[e..]);
      assert s[..e] + s[e..] == s;
    }
  }

  /** A line ending in `\n` with no other boundary before it. */
  predicate Terminated(l: string) {
    |l| > 0 && l[|l| - 1] == '\n' && forall k :: 0 <= k < |l| - 1 ==> !IsLineBoundary(l[k])
  }

  lemma {:induction false} LineEndOfTerminated(s: string, i: nat, j: nat)
    requires i <= j < |s| && s[j] == '\n'
    requires forall k :: i <= k < j ==> !IsLineBoundary(s[k])
    ensures LineEnd(s, i) == j + 1
    decreases j - i
  {
    if i < j {
      LineEndOfTerminated(s, i + 1, j);
    }
  }

  /** Joining terminated lines and splitting again gives the lines back. */
  lemma {:induction false} JoinSplitLines(ls: seq<string>)
    requires forall l :: l in ls ==> Terminated(l)
    ensures SplitLines(Concat(ls)) == ls
  {
    if ls != [] {
      var s := Concat(ls);
      var l := ls[0];
      assert s == l + Concat(ls[1..]);
      assert l in ls;
      assert forall k :: 0 <= k < |l| ==> s[k] == l[k];
      LineEndOfTerminated(s, 0, |l| - 1);
      assert s[..|l|] == l && s[|l|..] == Concat(ls[1..]);
      JoinSplitLines(ls[1..]);
    }
  }

  // ----- the row format -----

  /** The columns start after four spaces of left padding. */
  const LeftPad: nat := 4

  /** Position just past the `" :"` separator of a row with `n` columns. */
  function ColonPos(n: nat): nat { LeftPad + n + 1 }

  /** A header line: starts with the template prefix followed by `:`. */
  predicate IsHeader(l: string, prefix: string) {
    |prefix| + 1 <= |l| && l[..|prefix| + 1] == prefix + ":"
  }

  /** A row for `n` columns: `" : "` sits right after the columns. */
  predicate IsRow(l: string, n: nat) {
    |l| >= ColonPos(n) + 2 && l[ColonPos(n) - 1..ColonPos(n) + 2] == " : "
  }

  /** The file line a row carries. */
  function RowContent(l: string, n: nat): string
    requires IsRow(l, n)
  {
    l[ColonPos(n) + 2..]
  }

  /** The indexes of the visible revisions among all `count` revisions, in
      stack order. */
  predicate ValidVisible(visible: seq<nat>, count: nat) {
    && (forall i, j :: 0 <= i < j < |visible| ==> visible[i] < visible[j])
    && (forall i :: 0 <= i < |visible| ==> visible[i] < count)
  }

  /** Appends the row's content to the revisions of the first `k` columns
      flagged `y`. */
  function AddColumns(contents: seq<string>, l: string, visible: seq<nat>, k: nat): (r: seq<string>)
    requires ValidVisible(visible, |contents|) && IsRow(l, |visible|) && k <= |visible|
    ensures |r| == |contents|
    ensures forall i :: 0 <= i < k ==>
      r[visible[i]] == contents[visible[i]] + (if l[LeftPad + i] == 'y' then RowContent(l, |visible|) else "")
    ensures forall j :: 0 <= j < |contents| && (forall i :: 0 <= i < k ==> visible[i] != j) ==> r[j] == contents[j]
  {
    if k == 0 then contents
    else
      var c := AddColumns(contents, l, visible, k - 1);
      var v := visible[k - 1];
      if l[LeftPad + k - 1] == 'y' then c[v := c[v] + RowContent(l, |visible|)] else c
  }

  /** The result of parsing the editor lines, line by line: header lines
      are skipped, the first line that is neither a header nor a row aborts,
      every row adds its content to its flagged revisions. */
  function ParseLines(lines: seq<string>, prefix: string, visible: seq<nat>, count: nat): (r: Result<seq<string>, EditError>)
    requires ValidVisible(visible, count)
    ensures r.Ok? ==> |r.value| == count
    ensures r.Err? ==> r.error.MalformedLine? && r.error.line in lines
  {
    if lines == [] then Ok(seq(count, _ => ""))
    else
      match ParseLines(lines[..|lines| - 1], prefix, visible, count)
      case Err(e) => Err(e)
      case Ok(c) =>
        var l := lines[|lines| - 1];
        if IsHeader(l, prefix) then Ok(c)
        else if !IsRow(l, |visible|) then Err(MalformedLine(l))
        else Ok(AddColumns(c, l, visible, |visible|))
  }

  /** The contents parsed from the edited text; empty text aborts. */
  function ParseText(text: string, prefix: string, visible: seq<nat>, count: nat): Result<seq<string>, EditError>
    requires ValidVisible(visible, count)
  {
    if text == "" then Err(EmptyEditorText) else ParseLines(SplitLines(text), prefix, visible, count)
  }

  /** Once a prefix of the lines fails, the whole parse fails the same way. */
  lemma {:induction false} ParseLinesErrPersists(lines: seq<string>, k: nat, prefix: string, visible: seq<nat>, count: nat)
    requires ValidVisible(visible, count)
    requires k <= |lines|
    requires ParseLines(lines[..k], prefix, visible, count).Err?
    ensures ParseLines(lines, prefix, visible, count) == ParseLines(lines[..k], prefix, visible, count)
    decreases |lines| - k
  {
    if k < |lines| {
      assert lines[..k + 1][..k] == lines[..k];
      ParseLinesErrPersists(lines, k + 1, prefix, visible, count);
    } else {
      assert lines[..k] == lines;
    }
  }

  /** The column loop of the parser: appends the row's content to the
      revision of every column flagged `y`. */
  method AddRow(contents: seq<string>, l: string, visible: seq<nat>) returns (r: seq<string>)
    requires ValidVisible(visible, |contents|) && IsRow(l, |visible|)
    ensures r == AddColumns(contents, l, visible, |visible|)
  {
    var lineContent := l[ColonPos(|visible|) + 2..];
    r := contents;
    for i := 0 to |visible|
      invariant r == AddColumns(contents, l, visible, i)
    {
      if l[LeftPad + i] == 'y' {
        r := r[visible[i] := r[visible[i]] + lineContent];
      }
    }
  }

  /** `_checkoutlinelogwithedits`, from the edited text on: parses it into
      one content per revision. */
  method ParseEditedText(text: string, prefix: string, visible: seq<nat>, count: nat)
    returns (r: Result<seq<string>, EditError>)
    requires ValidVisible(visible, count)
    ensures r == ParseText(text, prefix, visible, count)
  {
    if text == "" {
      return Err(EmptyEditorText);
    }
    var lines := SplitLines(text);
    var contents := seq(count, _ => "");
    var colonPos := LeftPad + |visible| + 1;
    for n := 0 to |lines|
      invariant ParseLines(lines[..n], prefix, visible, count) == Ok(contents)
      invariant |contents| == count
    {
      assert lines[..n + 1][..n] == lines[..n];
      var l := lines[n];
      if |l| >= |prefix| + 1 && l[..|prefix| + 1] == prefix + ":" {
        continue;
      }
      if !(|l| >= colonPos + 2 && l[colonPos - 1..colonPos + 2] == " : ") {
        ParseLinesErrPersists(lines, n + 1, prefix, visible, count);
        assert lines[..|lines|] == lines;
        return Err(MalformedLine(l));
      }
      contents := AddRow(contents, l, visible);
    }
    assert lines[..|lines|] == lines;
    return Ok(contents);
  }

  // ----- what the parse means -----

  /** The text gathered for column `i`: the contents of the rows flagged
      `y` in that column, in order. */
  function Column(lines: seq<string>, prefix: string, n: nat, i: nat): string
    requires i < n
  {
    if lines == [] then ""
    else
      var l := lines[|lines| - 1];
      Column(lines[..|lines| - 1], prefix, n, i)
        + (if !IsHeader(l, prefix) && IsRow(l, n) && l[LeftPad + i] == 'y' then RowContent(l, n) else "")
  }

  /** Parsing succeeds exactly when every line is a header or a row; it
      fails with the first line that is neither. On success the revision of
      column `i` receives exactly the rows flagged `y` in that column, and a
      revision without a column receives nothing. */
  lemma {:induction false} ParseLinesMeaning(lines: seq<string>, prefix: string, visible: seq<nat>, count: nat)
    requires ValidVisible(visible, count)
    ensures var r := ParseLines(lines, prefix, visible, count);
      && (r.Ok? <==> forall k :: 0 <= k < |lines| ==> IsHeader(lines[k], prefix) || IsRow(lines[k], |visible|))
      && (r.Err? ==> exists k :: (0 <= k < |lines| && r.error == MalformedLine(lines[k])
            && !IsHeader(lines[k], prefix) && !IsRow(lines[k], |visible|)
            && forall k' :: 0 <= k' < k ==> IsHeader(lines[k'], prefix) || IsRow(lines[k'], |visible|)))
      && (r.Ok? ==>
            && |r.value| == count
            && (forall i :: 0 <= i < |visible| ==> r.value[visible[i]] == Column(lines, prefix, |visible|, i))
            && (forall j :: 0 <= j < count && j !in visible ==> r.value[j] == ""))
  {
    if lines != [] {
      var init := lines[..|lines| - 1];
      var l := lines[|lines| - 1];
      ParseLinesMeaning(init, prefix, visible, count);
      assert forall k :: 0 <= k < |init| ==> init[k] == lines[k];
      var r := ParseLines(lines, prefix, visible, count);
      if r.Err? && ParseLines(init, prefix, visible, count).Ok? {
        assert r.error == MalformedLine(lines[|lines| - 1]);
      }
      if r.Ok? {
        var c := ParseLines(init, prefix, visible, count).value;
        if !IsHeader(l, prefix) {
          forall j | 0 <= j < count && j !in visible ensures r.value[j] == "" {
            assert forall i :: 0 <= i < |visible| ==> visible[i] != j;
          }
        }
      }
    }
  }

  // ----- rendering and parsing back -----

  /** One row of the editor text: its `y`/space flags, one per visible
      revision, and the file line it shows. */
  datatype EditorRow = EditorRow(flags: string, content: string)

  /** `"    %s : %s" % (flags, line)`. */
  function RenderRow(r: EditorRow): string {
    "    " + r.flags + " : " + r.content
  }

  function RenderRows(rows: seq<EditorRow>): seq<string> {
    if rows == [] then [] else RenderRows(rows[..|rows| - 1]) + [RenderRow(rows[|rows| - 1])]
  }

  /** The lines of the rows flagged `y` in column `i`. */
  function RowsColumn(rows: seq<EditorRow>, i: nat): string {
    if rows == [] then ""
    else
      var r := rows[|rows| - 1];
      RowsColumn(rows[..|rows| - 1], i) + (if i < |r.flags| && r.flags[i] == 'y' then r.content else "")
  }

  predicate GoodRow(r: EditorRow, n: nat) {
    |r.flags| == n && (forall k :: 0 <= k < n ==> r.flags[k] == 'y' || r.flags[k] == ' ') && Terminated(r.content)
  }

  lemma RenderedRow(r: EditorRow, prefix: string, n: nat)
    requires GoodRow(r, n)
    requires prefix != [] && prefix[0] != ' '
    ensures var l := RenderRow(r);
      && !IsHeader(l, prefix) && IsRow(l, n) && RowContent(l, n) == r.content
      && (forall i :: 0 <= i < n ==> l[LeftPad + i] == r.flags[i])
      && Terminated(l)
  {
    var l := RenderRow(r);
    var head := "    " + r.flags + " : ";
    assert l == head + r.content;
    assert |head| == ColonPos(n) + 2;
    assert !IsHeader(l, prefix) by {
      if |prefix| + 1 <= |l| {
        assert l[..|prefix| + 1][0] == ' ' != prefix[0] == (prefix + ":")[0];
      }
    }
    assert l[ColonPos(n) - 1..ColonPos(n) + 2] == head[ColonPos(n) - 1..] == " : ";
    assert RowContent(l, n) == r.content;
    assert forall k :: 0 <= k < |head| ==> head[k] == ' ' || head[k] == 'y' || head[k] == ':';
    forall k | 0 <= k < |l| - 1 ensures !IsLineBoundary(l[k]) {
      if k >= |head| {
        assert l[k] == r.content[k - |head|];
      } else {
        assert l[k] == head[k];
        assert !IsLineBoundary(' ') && !IsLineBoundary('y') && !IsLineBoundary(':');
      }
    }
  }

  lemma {:induction false} ColumnOfHeaders(headers: seq<string>, prefix: string, n: nat, i: nat)
    requires i < n
    requires forall h :: h in headers ==> IsHeader(h, prefix)
    ensures Column(headers, prefix, n, i) == ""
  {
    if headers != [] {
      ColumnOfHeaders(headers[..|headers| - 1], prefix, n, i);
    }
  }

  lemma {:induction false} ColumnOfRendered(headers: seq<string>, rows: seq<EditorRow>, prefix: string, n: nat, i: nat)
    requires i < n
    requires prefix != [] && prefix[0] != ' '
    requires forall h :: h in headers ==> IsHeader(h, prefix)
    requires forall r :: r in rows ==> GoodRow(r, n)
    ensures Column(headers + RenderRows(rows), prefix, n, i) == RowsColumn(rows, i)
  {
    if rows == [] {
      assert headers + RenderRows(rows) == headers;
      ColumnOfHeaders(headers, prefix, n, i);
    } else {
      var init := rows[..|rows| - 1];
      var r := rows[|rows| - 1];
      ColumnOfRendered(headers, init, prefix, n, i);
      RenderedRow(r, prefix, n);
      var ls := headers + RenderRows(rows);
      assert ls == (headers + RenderRows(init)) + [RenderRow(r)];
      assert ls[..|ls| - 1] == headers + RenderRows(init);
    }
  }

  lemma {:induction false} RenderRowsShape(rows: seq<EditorRow>, prefix: string, n: nat)
    requires prefix != [] && prefix[0] != ' '
    requires forall r :: r in rows ==> GoodRow(r, n)
    ensures |RenderRows(rows)| == |rows|
    ensures forall l :: l in RenderRows(rows) ==> Terminated(l) && IsRow(l, n)
  {
    if rows != [] {
      RenderRowsShape(rows[..|rows| - 1], prefix, n);
      RenderedRow(rows[|rows| - 1], prefix, n);
    }
  }

  /** Round trip: rendering header lines and rows, then parsing the text,
      gives each visible revision exactly the lines flagged `y` in its
      column, and every other revision nothing. */
  lemma EditorRoundTrip(headers: seq<string>, rows: seq<EditorRow>, prefix: string, visible: seq<nat>, count: nat)
    requires ValidVisible(visible, count)
    requires prefix != [] && prefix[0] != ' '
    requires headers != []
    requires forall h :: h in headers ==> IsHeader(h, prefix) && Terminated(h)
    requires forall r :: r in rows ==> GoodRow(r, |visible|)
    ensures var p := ParseText(Concat(headers + RenderRows(rows)), prefix, visible, count);
      && p.Ok?
      && |p.value| == count
      && (forall i :: 0 <= i < |visible| ==> p.value[visible[i]] == RowsColumn(rows, i))
      && (forall j :: 0 <= j < count && j !in visible ==> p.value[j] == "")
  {
    var ls := headers + RenderRows(rows);
    RenderRowsShape(rows, prefix, |visible|);
    JoinSplitLines(ls);
    assert Concat(ls) != "" by {
      ConcatAppend(headers, RenderRows(rows));
      assert Concat(headers) == headers[0] + Concat(headers[1..]);
    }
    ParseLinesMeaning(ls, prefix, visible, count);
    forall i | 0 <= i < |visible| ensures Column(ls, prefix, |visible|, i) == RowsColumn(rows, i) {
      ColumnOfRendered(headers, rows, prefix, |visible|, i);
    }
  }
}
