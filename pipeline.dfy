/**
 * The whole script, format-markdown.js lines 2-106: protect the blocks,
 * standardise the syntax, fix the spacing, restore the blocks, clean up.
 * The draft's content comes in as a string and the result goes out as one.
 */
module Pipeline {
  import opened JsText
  import opened RegexLines
  import opened Placeholders
  import LineBlocks
  import CodeBlocks
  import Store
  import Normalize
  import Spacing
  import Cleanup

  /** The text once every block is replaced by its marker, and the four arrays. */
  datatype Protected = Protected(text: string, code: seq<string>, h2: seq<string>, h3: seq<string>, hr: seq<string>)

  /** Lines 6-37 on an empty store. */
  function Protection(content: string): Protected {
    var code := CodeBlocks.ExtractCode(content);
    var h2 := LineBlocks.ScanRows(Heading2, Rows(code.text), 0);
    var h3 := LineBlocks.ScanRows(Heading3, Rows(Text(h2.rows)), 0);
    var hr := LineBlocks.ScanRows(Rule, Rows(Text(h3.rows)), 0);
    Protected(Text(hr.rows), code.captured, h2.captured, h3.captured, hr.captured)
  }

  /** Lines 81-96: the four restore loops, in the order of the script. */
  function Restoration(text: string, p: Protected): string {
    var back2 := RestoredUpTo(text, Heading2, p.h2, |p.h2|);
    var back3 := RestoredUpTo(back2, Heading3, p.h3, |p.h3|);
    var backHr := RestoredUpTo(back3, Rule, p.hr, |p.hr|);
    RestoredUpTo(backHr, CodeBlock, p.code, |p.code|)
  }

  /** What the script leaves in the draft. */
  function Formatted(content: string): string {
    var p := Protection(content);
    var spaced := Join(Spacing.Spaced(Split(Normalize.Standardize(p.text))));
    Cleanup.Tidy(Restoration(spaced, p))
  }

  /**
   * Lines 2-106 on a fresh store: the result is `Formatted(content)`, has no
   * run of three newlines and does not start with white space.
   */
  method Format(content: string) returns (text: string)
    ensures text == Formatted(content)
    ensures Cleanup.NoTriple(text)
    ensures text == [] || !IsSpace(text[0])
  {
    var store := new Store.PlaceholderStore();
    ghost var p := Protection(content);
    text := ProtectAll(store, content);
    text := Normalize.Standardize(text);
    text := Spacing.Reformat(text);
    text := RestoreAll(store, text, p);
    ghost var restored := text;
    text := Cleanup.TitleGap(text);
    text := Cleanup.Tight(text);
    text := Cleanup.Collapse(text);
    text := TrimStart(text);
    Cleanup.TidyShape(restored);
  }

  /** Lines 11-37: the four extraction passes fill the empty store. */
  method ProtectAll(store: Store.PlaceholderStore, content: string) returns (text: string)
    requires store.codeBlocks == [] && store.h2Headings == [] && store.h3Headings == [] && store.hrules == []
    modifies store
    ensures
      var p := Protection(content);
      && text == p.text && store.codeBlocks == p.code && store.h2Headings == p.h2
      && store.h3Headings == p.h3 && store.hrules == p.hr
  {
    text := store.ProtectCodeBlocks(content);
    text := ProtectHeadings(store, text);
  }

  /** Lines 14-37: the `##`, `###` and rule passes, one after another, on empty arrays. */
  method ProtectHeadings(store: Store.PlaceholderStore, text: string) returns (out: string)
    requires store.h2Headings == [] && store.h3Headings == [] && store.hrules == []
    modifies store
    ensures
      var h2 := LineBlocks.ScanRows(Heading2, Rows(text), 0);
      var h3 := LineBlocks.ScanRows(Heading3, Rows(Text(h2.rows)), 0);
      var hr := LineBlocks.ScanRows(Rule, Rows(Text(h3.rows)), 0);
      && out == Text(hr.rows) && store.h2Headings == h2.captured
      && store.h3Headings == h3.captured && store.hrules == hr.captured
    ensures store.codeBlocks == old(store.codeBlocks)
  {
    out := store.ProtectLines(Heading2, text);
    out := store.ProtectLines(Heading3, out);
    out := store.ProtectLines(Rule, out);
  }

  /** Lines 81-96: the four restore loops, reading the store. */
  method RestoreAll(store: Store.PlaceholderStore, text: string, ghost p: Protected) returns (out: string)
    requires store.codeBlocks == p.code && store.h2Headings == p.h2 && store.h3Headings == p.h3 && store.hrules == p.hr
    ensures out == Restoration(text, p)
  {
    out := store.Restore(Heading2, text);
    out := store.Restore(Heading3, out);
    out := store.Restore(Rule, out);
    out := store.Restore(CodeBlock, out);
  }
}
