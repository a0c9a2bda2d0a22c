/**
 * Extraction of the line-shaped protected blocks, format-markdown.js lines
 * 18-37: every line that starts with `## ` (level-2 heading) or `### `
 * (level-3 heading), and every line that is exactly `* * *` (horizontal
 * rule), is replaced by a numbered marker while its text is recorded. The
 * three `replace` calls use multiline anchors, so they act line by line.
 */
module LineBlocks {
  import opened JsText
  import opened RegexLines
  import opened Placeholders

  type LineKind = k: Kind | k != CodeBlock witness Heading2

  /** What the extraction regex of kind `k` captures from a line, if it matches at all. */
  function LineMatch(k: LineKind, body: string): Option<string> {
    match k
    case Heading2 => if |body| >= 3 && body[..3] == "## " then Some(body[3..]) else None
    case Heading3 => if |body| >= 4 && body[..4] == "### " then Some(body[4..]) else None
    case Rule => if body == "* * *" then Some("* * *") else None
  }

  /** The lines after extraction and the texts recorded, in document order. */
  datatype RowScan = RowScan(rows: seq<Row>, captured: seq<string>)

  /**
   * The extraction pass over `rows`, line by line: a matching line becomes
   * marker `base + |captured|` (the array length before the push) and its
   * capture is appended to `captured`.
   */
  function ScanRows(k: LineKind, rows: seq<Row>, base: nat): (r: RowScan)
    ensures |r.rows| == |rows|
    decreases |rows|
  {
    if rows == [] then RowScan([], [])
    else ScanLine(k, ScanRows(k, rows[..|rows| - 1], base), rows[|rows| - 1], base)
  }

  /** The regex callback for one more line, after the scan `prev` of the lines before it. */
  function ScanLine(k: LineKind, prev: RowScan, line: Row, base: nat): (r: RowScan)
    ensures |r.rows| == |prev.rows| + 1
  {
    match LineMatch(k, line.body)
    case Some(c) => RowScan(prev.rows + [Row(Marker(k, base + |prev.captured|), line.brk)], prev.captured + [c])
    case None => RowScan(prev.rows + [line], prev.captured)
  }

  /** The scan of one more line extends the scan of the lines before it. */
  lemma ScanRowsSnoc(k: LineKind, rows: seq<Row>, i: nat, base: nat)
    requires i < |rows|
    ensures ScanRows(k, rows[..i + 1], base) == ScanLine(k, ScanRows(k, rows[..i], base), rows[i], base)
  {
    assert rows[..i + 1][..i] == rows[..i];
  }

  /** The callback on a matching line: its marker is numbered after the captures so far. */
  lemma ScanLineSome(k: LineKind, prev: RowScan, line: Row, base: nat, c: string)
    requires LineMatch(k, line.body) == Some(c)
    ensures ScanLine(k, prev, line, base) == RowScan(prev.rows + [Row(Marker(k, base + |prev.captured|), line.brk)], prev.captured + [c])
  {
  }

  /** The callback is not called on a line that does not match. */
  lemma ScanLineNone(k: LineKind, prev: RowScan, line: Row, base: nat)
    requires LineMatch(k, line.body).None?
    ensures ScanLine(k, prev, line, base) == RowScan(prev.rows + [line], prev.captured)
  {
  }

  /** How many of `rows` the extraction regex of kind `k` matches. */
  function MatchCount(k: LineKind, rows: seq<Row>): nat
    decreases |rows|
  {
    if rows == [] then 0
    else MatchCount(k, rows[..|rows| - 1]) + (if LineMatch(k, rows[|rows| - 1].body).Some? then 1 else 0)
  }

  lemma {:induction false} MatchCountMonotone(k: LineKind, rows: seq<Row>, j: nat)
    requires j <= |rows|
    ensures MatchCount(k, rows[..j]) <= MatchCount(k, rows)
    ensures j < |rows| && LineMatch(k, rows[j].body).Some? ==> MatchCount(k, rows[..j]) < MatchCount(k, rows)
    decreases |rows|
  {
    if j < |rows| {
      var init := rows[..|rows| - 1];
      assert init[..j] == rows[..j];
      if j < |rows| - 1 {
        MatchCountMonotone(k, init, j);
      } else {
        assert rows[..j] == init;
      }
    } else {
      assert rows[..j] == rows;
    }
  }

  /** Line `j` of `rows` was handled as the numbering promises in the scan result `out`. */
  predicate Numbered(k: LineKind, rows: seq<Row>, base: nat, out: RowScan, j: nat)
    requires j < |rows| && |out.rows| == |rows|
  {
    NumberedAt(k, rows[j], MatchCount(k, rows[..j]), base, out, j)
  }

  /** Row `j` of `out` stands for `line`, the line after `m` matching ones. */
  predicate NumberedAt(k: LineKind, line: Row, m: nat, base: nat, out: RowScan, j: nat)
    requires j < |out.rows|
  {
    && out.rows[j].brk == line.brk
    && (LineMatch(k, line.body).None? ==> out.rows[j] == line)
    && (LineMatch(k, line.body).Some? ==>
          && m < |out.captured|
          && out.rows[j].body == Marker(k, base + m)
          && out.captured[m] == LineMatch(k, line.body).value)
  }

  /** Numbering survives a longer scan that keeps row `j` and extends the captures. */
  lemma NumberedAtGrow(k: LineKind, line: Row, m: nat, base: nat, prev: RowScan, out: RowScan, j: nat)
    requires j < |prev.rows| && j < |out.rows| && out.rows[j] == prev.rows[j] && prev.captured <= out.captured
    requires NumberedAt(k, line, m, base, prev, j)
    ensures NumberedAt(k, line, m, base, out, j)
  {
    if LineMatch(k, line.body).Some? {
      assert out.captured[m] == prev.captured[m];
    }
  }

  /**
   * The numbering the source promises: the n-th matching line in document
   * order (counting from 0) becomes marker `base + n`, and `captured[n]` is
   * its text; every other line is left as it was, and nothing else is
   * recorded.
   */
  lemma {:induction false} ScanRowsNumbering(k: LineKind, rows: seq<Row>, base: nat)
    ensures |ScanRows(k, rows, base).rows| == |rows|
    ensures |ScanRows(k, rows, base).captured| == MatchCount(k, rows)
    ensures forall j :: 0 <= j < |rows| ==> Numbered(k, rows, base, ScanRows(k, rows, base), j)
    decreases |rows|
  {
    if rows != [] {
      var n := |rows| - 1;
      ScanRowsNumbering(k, rows[..n], base);
      var prev, out := ScanRowsLast(k, rows, base);
      forall j | 0 <= j < |rows| ensures Numbered(k, rows, base, out, j) {
        if j < n {
          NumberedKept(k, rows, base, j);
        } else {
          NumberedLast(k, rows, base);
        }
      }
    }
  }

  /** The last line is numbered after the matching lines before it. */
  lemma NumberedLast(k: LineKind, rows: seq<Row>, base: nat)
    requires rows != []
    requires |ScanRows(k, rows[..|rows| - 1], base).captured| == MatchCount(k, rows[..|rows| - 1])
    ensures Numbered(k, rows, base, ScanRows(k, rows, base), |rows| - 1)
  {
    var prev, out := ScanRowsLast(k, rows, base);
  }

  /** A line before the last keeps the numbering it had in the scan of the lines before the last. */
  lemma NumberedKept(k: LineKind, rows: seq<Row>, base: nat, j: nat)
    requires j < |rows| - 1
    requires Numbered(k, rows[..|rows| - 1], base, ScanRows(k, rows[..|rows| - 1], base), j)
    ensures Numbered(k, rows, base, ScanRows(k, rows, base), j)
  {
    var init := rows[..|rows| - 1];
    var prev, out := ScanRowsLast(k, rows, base);
    assert rows[..j] == init[..j] && rows[j] == init[j];
    assert out.rows[j] == prev.rows[j] by {
      assert out.rows[..|rows| - 1][j] == out.rows[j];
    }
    NumberedAtGrow(k, rows[j], MatchCount(k, rows[..j]), base, prev, out, j);
  }

  /** One step of the scan: the earlier lines keep their result and the last line is handled on its own. */
  lemma ScanRowsLast(k: LineKind, rows: seq<Row>, base: nat) returns (prev: RowScan, out: RowScan)
    requires rows != []
    ensures prev == ScanRows(k, rows[..|rows| - 1], base) && out == ScanRows(k, rows, base)
    ensures out.rows[..|rows| - 1] == prev.rows
    ensures prev.captured <= out.captured
    ensures out.rows[|rows| - 1].brk == rows[|rows| - 1].brk
    ensures LineMatch(k, rows[|rows| - 1].body).None? ==>
              out.rows[|rows| - 1] == rows[|rows| - 1] && out.captured == prev.captured
    ensures LineMatch(k, rows[|rows| - 1].body).Some? ==>
              && out.rows[|rows| - 1].body == Marker(k, base + |prev.captured|)
              && out.captured == prev.captured + [LineMatch(k, rows[|rows| - 1].body).value]
    ensures NumberedAt(k, rows[|rows| - 1], |prev.captured|, base, out, |rows| - 1)
  {
    prev := ScanRows(k, rows[..|rows| - 1], base);
    out := ScanRows(k, rows, base);
  }

  /** A line after the round trip: a matching line in canonical form, any other line as it was. */
  function RestoredLine(k: LineKind, body: string): string {
    match LineMatch(k, body)
    case Some(c) => Canonical(k, c)
    case None => body
  }

  /**
   * Round trip for one kind: extract (numbering from 0), then run the restore
   * loop over every recorded entry. Each matching line ends up in canonical
   * form (`## X` as `\n\n## X`, `### X` as `\n### X`, `* * *` as
   * `\n* * *\n`) and every other line is unchanged. The text must not
   * contain `@`, so that no user text can be taken for a marker.
   */
  lemma RestoreRoundTrip(k: LineKind, s: string)
    requires '@' !in s
    ensures
      var scan := ScanRows(k, Rows(s), 0);
      RestoredUpTo(Text(scan.rows), k, scan.captured, |scan.captured|) == MapLines(b => RestoredLine(k, b), s)
  {
    var rows := Rows(s);
    RowsLackAt(s);
    RestoreRows(k, rows);
    ScanRowsNumbering(k, rows, 0);
    PartialAll(k, rows);
  }

  /** The restore loop over every entry ends at the rows with every entry restored. */
  lemma RestoreRows(k: LineKind, rows: seq<Row>)
    requires RowsFreeOfAt(rows)
    ensures
      var scan := ScanRows(k, rows, 0);
      RestoredUpTo(Text(scan.rows), k, scan.captured, |scan.captured|) == Text(Partial(k, rows, |scan.captured|))
  {
    var scan := ScanRows(k, rows, 0);
    var texts := seq(|scan.captured| + 1, (j: nat) => Text(Partial(k, rows, j)));
    PartialNone(k, rows);
    RestoreSteps(k, rows, texts);
    RestoredUpToChain(Text(scan.rows), k, scan.captured, |scan.captured|, texts);
  }

  /**
   * Every round of the restore loop restores the next matching line: it
   * leads from the rows with `n` entries restored to those with `n + 1`.
   */
  lemma RestoreSteps(k: LineKind, rows: seq<Row>, texts: seq<string>)
    requires RowsFreeOfAt(rows)
    requires |texts| == |ScanRows(k, rows, 0).captured| + 1
    requires forall n :: 0 <= n < |texts| ==> texts[n] == Text(Partial(k, rows, n))
    ensures forall n :: 0 <= n < |ScanRows(k, rows, 0).captured| ==>
      ReplaceFirst(texts[n], Marker(k, n), Canonical(k, ScanRows(k, rows, 0).captured[n])) == texts[n + 1]
  {
    ScanRowsNumbering(k, rows, 0);
    forall n | 0 <= n < |ScanRows(k, rows, 0).captured|
      ensures ReplaceFirst(texts[n], Marker(k, n), Canonical(k, ScanRows(k, rows, 0).captured[n])) == texts[n + 1]
    {
      RestoreStep(k, rows, n);
    }
  }

  /** Before the first round every matching line holds its marker: the rows are the extraction's output. */
  lemma PartialNone(k: LineKind, rows: seq<Row>)
    ensures Partial(k, rows, 0) == ScanRows(k, rows, 0).rows
  {
    var scan := ScanRows(k, rows, 0);
    ScanRowsNumbering(k, rows, 0);
    forall j | 0 <= j < |rows| ensures Partial(k, rows, 0)[j] == scan.rows[j] {
      assert Numbered(k, rows, 0, scan, j);
      match LineMatch(k, rows[j].body)
      case Some(c) =>
        assert Partial(k, rows, 0)[j] == Row(Marker(k, MatchCount(k, rows[..j])), rows[j].brk);
        assert scan.rows[j].body == Marker(k, MatchCount(k, rows[..j]));
      case None =>
    }
  }

  /** After a round for every entry, every matching line is in canonical form. */
  lemma PartialAll(k: LineKind, rows: seq<Row>)
    ensures Partial(k, rows, MatchCount(k, rows)) == MapBodies(b => RestoredLine(k, b), rows)
  {
    forall j | 0 <= j < |rows|
      ensures Partial(k, rows, MatchCount(k, rows))[j] == MapBodies(b => RestoredLine(k, b), rows)[j]
    {
      MatchCountMonotone(k, rows, j);
    }
  }

  /** The rows after `n` rounds of the restore loop: entries below `n` restored, the rest still markers. */
  function Partial(k: LineKind, rows: seq<Row>, n: nat): (p: seq<Row>)
    ensures |p| == |rows|
  {
    seq(|rows|, j requires 0 <= j < |rows| =>
      match LineMatch(k, rows[j].body)
      case Some(c) =>
        if MatchCount(k, rows[..j]) < n then Row(Canonical(k, c), rows[j].brk)
        else Row(Marker(k, MatchCount(k, rows[..j])), rows[j].brk)
      case None => rows[j])
  }

  predicate RowsFreeOfAt(rows: seq<Row>) {
    forall j :: 0 <= j < |rows| ==> '@' !in rows[j].body && '@' !in rows[j].brk
  }

  lemma {:induction false} RowsLackAt(s: string)
    requires '@' !in s
    ensures RowsFreeOfAt(Rows(s))
    decreases |s|
  {
    var k := RowsUnfold(s);
    if k < |s| {
      var rest := s[k + 1..];
      assert forall c :: c in rest ==> c in s;
      RowsLackAt(rest);
      assert forall c :: c in s[..k] ==> c in s;
      RowsFreeOfAtCons(Row(s[..k], [s[k]]), Rows(rest));
    }
  }

  lemma RowsFreeOfAtCons(r: Row, rows: seq<Row>)
    requires '@' !in r.body && '@' !in r.brk && RowsFreeOfAt(rows)
    ensures RowsFreeOfAt([r] + rows)
  {
    assert forall j :: 1 <= j < |[r] + rows| ==> ([r] + rows)[j] == rows[j - 1];
  }

  lemma {:induction false} TextLacksAt(rows: seq<Row>)
    requires RowsFreeOfAt(rows)
    ensures '@' !in Text(rows)
  {
    if rows != [] {
      assert RowsFreeOfAt(rows[1..]) by {
        assert forall j :: 0 <= j < |rows| - 1 ==> rows[1..][j] == rows[j + 1];
      }
      TextLacksAt(rows[1..]);
      assert '@' !in rows[0].body && '@' !in rows[0].brk;
    }
  }

  /** The line holding entry `n`: the matching line with `n` matching lines before it. */
  function RowOf(k: LineKind, rows: seq<Row>, n: nat): (j: nat)
    requires n < MatchCount(k, rows)
    ensures j < |rows| && LineMatch(k, rows[j].body).Some? && MatchCount(k, rows[..j]) == n
    decreases |rows|
  {
    var init := rows[..|rows| - 1];
    if n < MatchCount(k, init) then
      var j := RowOf(k, init, n);
      assert init[..j] == rows[..j];
      j
    else
      |rows| - 1
  }

  /** Rows other than the one holding entry `n` look the same before and after round `n`. */
  lemma PartialUnchangedElsewhere(k: LineKind, rows: seq<Row>, n: nat, j: nat, i: nat)
    requires n < MatchCount(k, rows) && j == RowOf(k, rows, n)
    requires i < |rows| && i != j
    ensures Partial(k, rows, n)[i] == Partial(k, rows, n + 1)[i]
  {
    if LineMatch(k, rows[i].body).Some? {
      if i < j {
        MatchCountMonotone(k, rows[..j], i);
        assert rows[..j][..i] == rows[..i];
        assert rows[..j][i] == rows[i];
      } else {
        MatchCountMonotone(k, rows[..i], j);
        assert rows[..i][..j] == rows[..j];
        assert rows[..i][j] == rows[j];
      }
    }
  }

  /** Before the row holding entry `n`, every entry is already restored, so no `@` is left there. */
  lemma PartialPrefixFreeOfAt(k: LineKind, rows: seq<Row>, n: nat, j: nat)
    requires RowsFreeOfAt(rows)
    requires n < MatchCount(k, rows) && j == RowOf(k, rows, n)
    ensures RowsFreeOfAt(Partial(k, rows, n)[..j])
  {
    var p := Partial(k, rows, n);
    forall i | 0 <= i < j ensures '@' !in p[..j][i].body && '@' !in p[..j][i].brk {
      assert p[..j][i] == p[i];
      match LineMatch(k, rows[i].body)
      case Some(ci) =>
        MatchCountMonotone(k, rows[..j], i);
        assert rows[..j][..i] == rows[..i];
        assert rows[..j][i] == rows[i];
        assert p[i] == Row(Canonical(k, ci), rows[i].brk);
        assert forall ch :: ch in ci ==> ch in rows[i].body;
      case None =>
    }
  }

  /** One round of the restore loop turns `Partial(n)` into `Partial(n + 1)`. */
  lemma RestoreStep(k: LineKind, rows: seq<Row>, n: nat)
    requires RowsFreeOfAt(rows)
    requires n < MatchCount(k, rows)
    ensures
      var scan := ScanRows(k, rows, 0);
      n < |scan.captured| &&
      ReplaceFirst(Text(Partial(k, rows, n)), Marker(k, n), Canonical(k, scan.captured[n]))
        == Text(Partial(k, rows, n + 1))
  {
    var j, c := StepRows(k, rows, n);
    var p, q := Partial(k, rows, n), Partial(k, rows, n + 1);
    PartialPrefixFreeOfAt(k, rows, n, j);
    TextLacksAt(p[..j]);
    SwapRow(p, q, j);
    SpliceMarker(Text(p), Text(p[..j]), Marker(k, n), Canonical(k, c), rows[j].brk, Text(p[j + 1..]));
  }

  /** Round `n` changes one row only: the one holding entry `n`, from its marker to its canonical form. */
  lemma StepRows(k: LineKind, rows: seq<Row>, n: nat) returns (j: nat, c: string)
    requires n < MatchCount(k, rows)
    ensures j == RowOf(k, rows, n)
    ensures n < |ScanRows(k, rows, 0).captured| && ScanRows(k, rows, 0).captured[n] == c
    ensures Partial(k, rows, n)[j] == Row(Marker(k, n), rows[j].brk)
    ensures Partial(k, rows, n + 1)[j] == Row(Canonical(k, c), rows[j].brk)
    ensures Partial(k, rows, n)[..j] == Partial(k, rows, n + 1)[..j]
    ensures Partial(k, rows, n)[j + 1..] == Partial(k, rows, n + 1)[j + 1..]
  {
    var scan := ScanRows(k, rows, 0);
    ScanRowsNumbering(k, rows, 0);
    j := RowOf(k, rows, n);
    assert Numbered(k, rows, 0, scan, j);
    c := LineMatch(k, rows[j].body).value;
    var p, q := Partial(k, rows, n), Partial(k, rows, n + 1);
    forall i | 0 <= i < |rows| && i != j ensures p[i] == q[i] {
      PartialUnchangedElsewhere(k, rows, n, j, i);
    }
    assert p[..j] == q[..j];
    assert p[j + 1..] == q[j + 1..];
  }

  /** Two row sequences that differ at row `j` only have texts that differ only there. */
  lemma SwapRow(p: seq<Row>, q: seq<Row>, j: nat)
    requires j < |p| == |q|
    requires p[..j] == q[..j] && p[j + 1..] == q[j + 1..]
    ensures Text(p) == Text(p[..j]) + p[j].body + p[j].brk + Text(p[j + 1..])
    ensures Text(q) == Text(p[..j]) + q[j].body + q[j].brk + Text(p[j + 1..])
  {
    TextAround(p, j);
    TextAround(q, j);
  }
}
