/**
 * Lines as a multiline-mode regular expression sees them. With the `m` flag,
 * `^` anchors after every line terminator (LF, CR, LS, PS), `$` before one,
 * and `.` never crosses one; so a rewrite whose matches stay inside one line
 * is a map over these lines. This is a finer split than `split('\n')`, which
 * only breaks at LF.
 */
module RegexLines {
  import opened JsText

  /** One line: its body and the terminator that ends it ("" for the last line). */
  datatype Row = Row(body: string, brk: string)

  function Text(rows: seq<Row>): string {
    if rows == [] then [] else rows[0].body + rows[0].brk + Text(rows[1..])
  }

  /** Index of the first line terminator in `s`, or `|s|`. */
  function BreakIndex(s: string): (k: nat)
    ensures k <= |s| && NoBreak(s[..k])
    ensures k < |s| ==> IsLineTerminator(s[k])
  {
    if s == [] || IsLineTerminator(s[0]) then 0
    else
      var m := BreakIndex(s[1..]);
      assert s[..1 + m] == [s[0]] + s[1..][..m];
      1 + m
  }

  predicate IsBreak(b: string) {
    |b| == 1 && IsLineTerminator(b[0])
  }

  /** Every body is free of terminators, every row but the last ends in exactly one, the last in none. */
  predicate WellFormed(rows: seq<Row>) {
    && |rows| >= 1
    && rows[|rows| - 1].brk == []
    && (forall i :: 0 <= i < |rows| ==> NoBreak(rows[i].body))
    && (forall i :: 0 <= i < |rows| - 1 ==> IsBreak(rows[i].brk))
  }

  /** The lines of `s`. */
  function Rows(s: string): (rows: seq<Row>)
    ensures WellFormed(rows)
    decreases |s|
  {
    var k := BreakIndex(s);
    if k == |s| then
      assert s[..k] == s;
      [Row(s, "")]
    else
      var rest := Rows(s[k + 1..]);
      WellFormedCons(Row(s[..k], [s[k]]), rest);
      [Row(s[..k], [s[k]])] + rest
  }

  /** A terminated line before well-formed rows keeps them well formed. */
  lemma WellFormedCons(r: Row, rest: seq<Row>)
    requires NoBreak(r.body) && IsBreak(r.brk) && WellFormed(rest)
    ensures WellFormed([r] + rest)
  {
    var rows := [r] + rest;
    assert forall i :: 1 <= i < |rows| ==> rows[i] == rest[i - 1];
  }

  lemma {:induction false} TextOfRows(s: string)
    ensures Text(Rows(s)) == s
    decreases |s|, 1
  {
    var k := RowsUnfold(s);
    if k < |s| {
      TextOfRowsBreak(s, k);
    } else {
      TextCons(Row(s, ""), []);
    }
  }

  lemma {:induction false} TextOfRowsBreak(s: string, k: nat)
    requires k == BreakIndex(s) && k < |s|
    ensures Text(Rows(s)) == s
    decreases |s|, 0
  {
    var rest := s[k + 1..];
    var _ := RowsUnfold(s);
    TextOfRows(rest);
    TextCons(Row(s[..k], [s[k]]), Rows(rest));
    AroundIndex(s, k);
  }

  lemma AroundIndex<T>(s: seq<T>, k: nat)
    requires k < |s|
    ensures s == s[..k] + [s[k]] + s[k + 1..]
  {
  }

  /** The first line of `s` and the lines after it. */
  lemma RowsUnfold(s: string) returns (k: nat)
    ensures k == BreakIndex(s)
    ensures k == |s| ==> Rows(s) == [Row(s, "")] + []
    ensures k < |s| ==> Rows(s) == [Row(s[..k], [s[k]])] + Rows(s[k + 1..])
  {
    k := BreakIndex(s);
    if k == |s| {
      assert s[..k] == s;
    }
  }

  lemma TextCons(r: Row, rest: seq<Row>)
    ensures Text([r] + rest) == r.body + r.brk + Text(rest)
  {
    assert ([r] + rest)[1..] == rest;
  }

  /** A text of terminator-free lines joined by terminators splits back into those lines. */
  lemma {:induction false} RowsOfText(rows: seq<Row>)
    requires WellFormed(rows)
    ensures Rows(Text(rows)) == rows
  {
    var r, rest := rows[0], rows[1..];
    assert rows == [r] + rest;
    TextCons(r, rest);
    var s := Text(rows);
    assert NoBreak(r.body);
    if |rows| == 1 {
      assert s == r.body;
      var k := RowsUnfold(s);
    } else {
      assert WellFormed(rest) by {
        assert forall i :: 0 <= i < |rest| ==> rest[i] == rows[i + 1];
      }
      RowsOfText(rest);
      assert IsBreak(r.brk);
      RowsOfLine(s, r, Text(rest));
    }
  }

  /** A terminator-free body, one terminator and a tail: the first line is that body. */
  lemma RowsOfLine(s: string, r: Row, tail: string)
    requires NoBreak(r.body) && IsBreak(r.brk) && s == r.body + r.brk + tail
    ensures Rows(s) == [r] + Rows(tail)
  {
    var b := r.body;
    assert s[|b|] == r.brk[0];
    assert s[..|b|] == b;
    BreakIndexFirst(s, |b|);
    var k := RowsUnfold(s);
    assert s[k + 1..] == tail;
    assert [s[k]] == r.brk;
  }

  /** `BreakIndex` is the first terminator: a terminator at `k` after a terminator-free prefix fixes it. */
  lemma BreakIndexFirst(s: string, k: nat)
    requires k < |s| && IsLineTerminator(s[k]) && NoBreak(s[..k])
    ensures BreakIndex(s) == k
  {
    var j := BreakIndex(s);
    assert forall i :: 0 <= i < j ==> s[..j][i] == s[i];
    assert forall i :: 0 <= i < k ==> s[..k][i] == s[i];
  }

  lemma {:induction false} TextAppend(a: seq<Row>, b: seq<Row>)
    ensures Text(a + b) == Text(a) + Text(b)
  {
    if a != [] {
      assert (a + b)[1..] == a[1..] + b;
      TextAppend(a[1..], b);
    } else {
      assert a + b == b;
    }
  }

  /** The text around row `j`: everything before it, its body and terminator, everything after it. */
  lemma TextAround(rows: seq<Row>, j: nat)
    requires j < |rows|
    ensures Text(rows) == Text(rows[..j]) + rows[j].body + rows[j].brk + Text(rows[j + 1..])
  {
    var pre, post := rows[..j], rows[j..];
    assert rows == pre + post;
    TextAppend(pre, post);
    assert post == [rows[j]] + rows[j + 1..];
    TextCons(rows[j], rows[j + 1..]);
    Regroup3(Text(pre), rows[j].body, rows[j].brk, Text(rows[j + 1..]));
  }

  lemma Regroup3(a: string, x: string, y: string, z: string)
    ensures a + (x + y + z) == a + x + y + z
  {
  }

  function MapBodies(f: string -> string, rows: seq<Row>): (r: seq<Row>)
    ensures |r| == |rows|
    ensures forall i :: 0 <= i < |rows| ==> r[i] == Row(f(rows[i].body), rows[i].brk)
  {
    seq(|rows|, i requires 0 <= i < |rows| => Row(f(rows[i].body), rows[i].brk))
  }

  /** A global regex rewrite whose every match lies inside one line: rewrite each line with `f`. */
  function MapLines(f: string -> string, s: string): string {
    Text(MapBodies(f, Rows(s)))
  }

  /** When `f` introduces no terminator, the lines of the result are the rewritten lines. */
  lemma RowsOfMapLines(f: string -> string, s: string)
    requires forall b :: NoBreak(b) ==> NoBreak(f(b))
    ensures Rows(MapLines(f, s)) == MapBodies(f, Rows(s))
  {
    var rows := Rows(s);
    var mapped := MapBodies(f, rows);
    assert forall i :: 0 <= i < |rows| ==> NoBreak(rows[i].body);
    assert WellFormed(mapped);
    RowsOfText(mapped);
  }

  /** Position `i` of `s` is where `^` matches in multiline mode. */
  predicate AtLineStart(s: string, i: int) {
    i == 0 || (0 < i <= |s| && IsLineTerminator(s[i - 1]))
  }

  /** The first terminator at or after `j`, or `|s|`: where `.*` started at `j` stops. */
  function LineEnd(s: string, j: nat): (e: nat)
    requires j <= |s|
    ensures j <= e <= |s| && NoBreak(s[j..e])
    ensures e < |s| ==> IsLineTerminator(s[e])
  {
    var k := BreakIndex(s[j..]);
    assert s[j..][..k] == s[j..j + k];
    j + k
  }
}
