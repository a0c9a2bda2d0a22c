/**
 * The placeholder store of format-markdown.js lines 6-9 and the passes that
 * fill it (lines 12-37) and empty it back into the text (lines 81-96). The
 * four arrays are fields that the extraction callbacks push onto; the
 * restore loops only read them.
 */
module Store {
  import opened JsText
  import opened RegexLines
  import opened Placeholders
  import opened LineBlocks
  import opened CodeBlocks

  /** Appending a piece and then the rest is appending the piece-led rest. */
  lemma Assoc<T>(a: seq<T>, b: seq<T>, c: seq<T>)
    ensures (a + b) + c == a + (b + c)
  {
  }

  /** The row a callback emits for a matching line is the one the scan records. */
  lemma MarkerSnoc(k: LineKind, scan: RowScan, line: Row, base: nat, c: string, idx: nat)
    requires LineMatch(k, line.body) == Some(c) && idx == base + |scan.captured|
    ensures scan.rows + [Row(Marker(k, idx), line.brk)] == ScanLine(k, scan, line, base).rows
  {
    ScanLineSome(k, scan, line, base, c);
  }

  class PlaceholderStore {
    var codeBlocks: seq<string>
    var h2Headings: seq<string>
    var h3Headings: seq<string>
    var hrules: seq<string>

    /** Four empty arrays. */
    constructor ()
      ensures codeBlocks == [] && h2Headings == [] && h3Headings == [] && hrules == []
    {
      codeBlocks, h2Headings, h3Headings, hrules := [], [], [], [];
    }

    /** The array that holds the blocks of kind `k`. */
    function Entries(k: Kind): seq<string>
      reads this
    {
      match k
      case CodeBlock => codeBlocks
      case Heading2 => h2Headings
      case Heading3 => h3Headings
      case Rule => hrules
    }

    /**
     * A callback's bookkeeping: the marker index is the array length before
     * the push, then the text is appended. The other arrays are untouched.
     */
    method Push(k: Kind, c: string) returns (idx: nat)
      modifies this
      ensures idx == |old(Entries(k))|
      ensures Entries(k) == old(Entries(k)) + [c]
      ensures k != CodeBlock ==> codeBlocks == old(codeBlocks)
      ensures k != Heading2 ==> h2Headings == old(h2Headings)
      ensures k != Heading3 ==> h3Headings == old(h3Headings)
      ensures k != Rule ==> hrules == old(hrules)
    {
      idx := |Entries(k)|;
      match k
      case CodeBlock => codeBlocks := codeBlocks + [c];
      case Heading2 => h2Headings := h2Headings + [c];
      case Heading3 => h3Headings := h3Headings + [c];
      case Rule => hrules := hrules + [c];
    }

    /**
     * Line 12: the global replace of the code-block regex, left to right; each
     * match is pushed and replaced by `\n\n<marker>\n\n`, the scan resuming
     * after the match.
     */
    method ProtectCodeBlocks(text: string) returns (out: string)
      modifies this
      ensures
        var scan := CodeScanFrom(text, CodeMatcher(text), 0, |old(codeBlocks)|);
        out == scan.text && codeBlocks == old(codeBlocks) + scan.captured
      ensures h2Headings == old(h2Headings) && h3Headings == old(h3Headings) && hrules == old(hrules)
    {
      out := ReplaceMatches(text, CodeMatcher(text));
    }

    /**
     * The replace loop itself, for any matcher `m` that finds the next match
     * at a position: the matched text is pushed and replaced by its block.
     */
    method ReplaceMatches(text: string, m: nat -> Option<(nat, nat)>) returns (out: string)
      requires Sound(text, m)
      modifies this
      ensures
        var scan := CodeScanFrom(text, m, 0, |old(codeBlocks)|);
        out == scan.text && codeBlocks == old(codeBlocks) + scan.captured
      ensures h2Headings == old(h2Headings) && h3Headings == old(h3Headings) && hrules == old(hrules)
    {
      ghost var full := CodeScanFrom(text, m, 0, |codeBlocks|);
      ghost var start := codeBlocks;
      out := [];
      var p := 0;
      while p < |text|
        invariant p <= |text|
        invariant out + CodeScanFrom(text, m, p, |codeBlocks|).text == full.text
        invariant codeBlocks + CodeScanFrom(text, m, p, |codeBlocks|).captured == start + full.captured
        invariant h2Headings == old(h2Headings) && h3Headings == old(h3Headings) && hrules == old(hrules)
        decreases |text| - p
      {
        var b := |codeBlocks|;
        CodeScanAt(text, m, p, b);
        match m(p) {
          case Some((g, e)) =>
            ghost var rest := CodeScanFrom(text, m, e, b + 1);
            Assoc(codeBlocks, [text[g..e]], rest.captured);
            Assoc(out, Block(b), rest.text);
            codeBlocks := codeBlocks + [text[g..e]];
            out := out + Block(b);
            p := e;
          case None =>
            Assoc(out, [text[p]], CodeScanFrom(text, m, p + 1, b).text);
            out := out + [text[p]];
            p := p + 1;
        }
      }
    }

    /**
     * Lines 19-37: the global replace of a line-anchored regex, line by line;
     * each matching line is pushed and replaced by its marker.
     */
    method ProtectLines(k: LineKind, text: string) returns (out: string)
      modifies this
      ensures
        var scan := ScanRows(k, Rows(text), |old(Entries(k))|);
        out == Text(scan.rows) && Entries(k) == old(Entries(k)) + scan.captured
      ensures codeBlocks == old(codeBlocks)
      ensures k != Heading2 ==> h2Headings == old(h2Headings)
      ensures k != Heading3 ==> h3Headings == old(h3Headings)
      ensures k != Rule ==> hrules == old(hrules)
    {
      var rows := ReplaceRows(k, Rows(text));
      out := Text(rows);
    }

    /** The per-line replace loop over the regex lines `rows`. */
    method ReplaceRows(k: LineKind, rows: seq<Row>) returns (acc: seq<Row>)
      modifies this
      ensures
        var scan := ScanRows(k, rows, |old(Entries(k))|);
        acc == scan.rows && Entries(k) == old(Entries(k)) + scan.captured
      ensures codeBlocks == old(codeBlocks)
      ensures k != Heading2 ==> h2Headings == old(h2Headings)
      ensures k != Heading3 ==> h3Headings == old(h3Headings)
      ensures k != Rule ==> hrules == old(hrules)
    {
      ghost var start := Entries(k);
      ghost var base := |start|;
      ghost var scan := RowScan([], []);
      acc := [];
      var i := 0;
      while i < |rows|
        invariant i <= |rows|
        invariant scan == ScanRows(k, rows[..i], base)
        invariant acc == scan.rows && Entries(k) == start + scan.captured
        invariant codeBlocks == old(codeBlocks)
        invariant k != Heading2 ==> h2Headings == old(h2Headings)
        invariant k != Heading3 ==> h3Headings == old(h3Headings)
        invariant k != Rule ==> hrules == old(hrules)
      {
        var line := rows[i];
        ScanRowsSnoc(k, rows, i, base);
        match LineMatch(k, line.body) {
          case Some(c) =>
            var idx := Push(k, c);
            assert idx == base + |scan.captured|;
            Assoc(start, scan.captured, [c]);
            MarkerSnoc(k, scan, line, base, c, idx);
            acc := acc + [Row(Marker(k, idx), line.brk)];
          case None =>
            ScanLineNone(k, scan, line, base);
            acc := acc + [line];
            assert acc == ScanLine(k, scan, line, base).rows;
        }
        scan := ScanLine(k, scan, line, base);
        i := i + 1;
      }
      assert rows[..|rows|] == rows;
    }

    /**
     * One restore loop (lines 81-96): for i = 0, 1, ..., the first
     * occurrence of marker i is replaced by entry i in canonical form.
     */
    method Restore(k: Kind, text: string) returns (out: string)
      ensures out == RestoredUpTo(text, k, Entries(k), |Entries(k)|)
    {
      out := text;
      var entries := Entries(k);
      for i := 0 to |entries|
        invariant out == RestoredUpTo(text, k, entries, i)
      {
        out := ReplaceFirst(out, Marker(k, i), Canonical(k, entries[i]));
      }
    }
  }
}
