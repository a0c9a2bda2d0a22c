/**
 * The spacing pass, format-markdown.js lines 48-76: the text is split at
 * `\n`, every line is copied to the output in order, and an empty line is
 * pushed in front of a line when the rule of lines 62-68 asks for one. The
 * loop remembers what it learnt about the previous line in a record `prev`.
 */
module Spacing {
  import opened JsText

  /** Line 54: a copy of the line with every U+00A0 turned into a space, used only to classify it. */
  function Clean(l: string): (c: string)
    ensures |c| == |l|
    ensures forall i :: 0 <= i < |l| ==> c[i] == (if l[i] == '\U{00A0}' then ' ' else l[i])
  {
    seq(|l|, i requires 0 <= i < |l| => if l[i] == '\U{00A0}' then ' ' else l[i])
  }

  /** Length of the run of ASCII digits that starts at `k`. */
  function DigitRun(l: string, k: nat): (n: nat)
    requires k <= |l|
    ensures k + n <= |l|
    ensures forall i :: k <= i < k + n ==> IsDigit(l[i])
    ensures k + n < |l| ==> !IsDigit(l[k + n])
    decreases |l| - k
  {
    if k < |l| && IsDigit(l[k]) then 1 + DigitRun(l, k + 1) else 0
  }

  /** `/^\s*\d+\./.test(l)`: white space, at least one digit, a dot. */
  predicate Ordered(l: string) {
    var k := LeadingSpace(l);
    var d := DigitRun(l, k);
    d > 0 && k + d < |l| && l[k + d] == '.'
  }

  /** Line 55, `/^\s*[-+.\d]/.test(l)`: the first non-blank character is `-`, `+`, `.` or a digit. */
  predicate IsListItem(l: string) {
    var k := LeadingSpace(l);
    k < |l| && (l[k] == '-' || l[k] == '+' || l[k] == '.' || IsDigit(l[k]))
  }

  /** Line 56, `l.trim() === ''`. */
  predicate IsBlank(l: string) {
    Trim(l) == []
  }

  /** What the loop keeps about the line before (line 51 and lines 71-74). */
  datatype Prev = Prev(line: string, isListItem: bool, isBlank: bool, indent: int)

  /** The record before the first line: `isBlank` is true, so nothing is inserted before line 0. */
  const Initial := Prev("", false, true, -1)

  /** Lines 54-57 and 71-74: the record that a line leaves behind. */
  function Classify(l: string): Prev {
    var c := Clean(l);
    Prev(c, IsListItem(c), IsBlank(c), LeadingSpace(c))
  }

  /** Lines 62-66: whether an empty line is pushed before `l` when the previous line left `prev`. */
  predicate AddsBlank(prev: Prev, l: string) {
    Ordered(Clean(l)) && prev.isListItem && Ordered(prev.line) && !prev.isBlank
  }

  /** The record `prev` after the loop has seen `lines`. */
  function PrevAfter(lines: seq<string>): Prev {
    if lines == [] then Initial else Classify(lines[|lines| - 1])
  }

  /** `newLines` after the loop has seen `lines`. */
  function Spaced(lines: seq<string>): seq<string>
    decreases |lines|
  {
    if lines == [] then []
    else
      var init, last := lines[..|lines| - 1], lines[|lines| - 1];
      Spaced(init) + (if AddsBlank(PrevAfter(init), last) then [""] else []) + [last]
  }

  /** Lines 48-76. */
  method Reformat(text: string) returns (out: string)
    ensures out == Join(Spaced(Split(text)))
  {
    var newLines := SpaceLines(Split(text));
    out := Join(newLines);
  }

  /** The loop of lines 53-75 over the lines of the text. */
  method SpaceLines(lines: seq<string>) returns (newLines: seq<string>)
    ensures newLines == Spaced(lines)
  {
    newLines := [];
    var prev := Initial;
    for i := 0 to |lines|
      invariant newLines == Spaced(lines[..i])
      invariant prev == PrevAfter(lines[..i])
    {
      SpacedSnoc(lines, i);
      prev, newLines := Visit(prev, newLines, lines[i]);
    }
    assert lines[..|lines|] == lines;
  }

  /** The loop body, lines 54-74: classify the cleaned line, maybe push an empty line, push the line, update `prev`. */
  method Visit(prev: Prev, newLines: seq<string>, currentLine: string) returns (prev': Prev, newLines': seq<string>)
    ensures newLines' == newLines + (if AddsBlank(prev, currentLine) then [""] else []) + [currentLine]
    ensures prev' == Classify(currentLine)
  {
    var cleanLine := Clean(currentLine);
    var isListItem := IsListItem(cleanLine);
    var isBlank := IsBlank(cleanLine);
    var indent := LeadingSpace(cleanLine);
    var addBlankLine := false;
    if Ordered(cleanLine) && prev.isListItem && Ordered(prev.line) {
      addBlankLine := true;
    }
    assert addBlankLine && !prev.isBlank <==> AddsBlank(prev, currentLine);
    newLines' := newLines;
    if addBlankLine && !prev.isBlank {
      newLines' := newLines' + [""];
    }
    newLines' := newLines' + [currentLine];
    prev' := prev.(line := cleanLine, isListItem := isListItem, isBlank := isBlank, indent := indent);
  }

  /** One more line: the loop state after `lines[..i + 1]` in terms of the state after `lines[..i]`. */
  lemma SpacedSnoc(lines: seq<string>, i: nat)
    requires i < |lines|
    ensures Spaced(lines[..i + 1]) ==
      Spaced(lines[..i]) + (if AddsBlank(PrevAfter(lines[..i]), lines[i]) then [""] else []) + [lines[i]]
    ensures PrevAfter(lines[..i + 1]) == Classify(lines[i])
  {
    assert lines[..i + 1][..i] == lines[..i];
  }

  // ---------------------------------------------------------------------
  // Where the blank lines go
  // ---------------------------------------------------------------------

  /** The rule as a property of the lines: a blank goes before line `i` when it and the line before are ordered items. */
  predicate Gap(lines: seq<string>, i: int)
    requires 0 <= i < |lines|
  {
    i > 0 && Ordered(Clean(lines[i - 1])) && Ordered(Clean(lines[i]))
  }

  /** An ordered item is a list item and not blank. */
  lemma OrderedIsListItem(l: string)
    requires Ordered(l)
    ensures IsListItem(l) && !IsBlank(l)
  {
    var k := LeadingSpace(l);
    assert IsDigit(l[k]);
    BlankIsAllSpace(l);
  }

  /**
   * The code tests three things about the previous line, but `Ordered`
   * implies the other two: the decision depends only on the two lines.
   */
  lemma AddsBlankIsGap(lines: seq<string>, i: nat)
    requires i < |lines|
    ensures AddsBlank(PrevAfter(lines[..i]), lines[i]) <==> Gap(lines, i)
  {
    if i > 0 {
      assert lines[..i][i - 1] == lines[i - 1];
      var c := Clean(lines[i - 1]);
      if Ordered(c) {
        OrderedIsListItem(c);
      }
    }
  }

  /** The reference layout: line `i` preceded by an empty line exactly where `ins[i]` says. */
  function Expand(lines: seq<string>, ins: seq<bool>): seq<string>
    requires |ins| == |lines|
    decreases |lines|
  {
    if lines == [] then []
    else
      var n := |lines| - 1;
      Expand(lines[..n], ins[..n]) + (if ins[n] then [""] else []) + [lines[n]]
  }

  function Gaps(lines: seq<string>): (ins: seq<bool>)
    ensures |ins| == |lines|
  {
    seq(|lines|, i requires 0 <= i < |lines| => Gap(lines, i))
  }

  /** The loop's output is the reference layout with an empty line before every gap and nowhere else. */
  lemma {:induction false} SpacedIsExpand(lines: seq<string>)
    ensures Spaced(lines) == Expand(lines, Gaps(lines))
    decreases |lines|
  {
    if lines != [] {
      var n := |lines| - 1;
      SpacedIsExpand(lines[..n]);
      GapsPrefix(lines, n);
      AddsBlankIsGap(lines, n);
      SpacedLast(lines);
      ExpandLast(lines, Gaps(lines));
    }
  }

  /** The gaps of the first `n` lines are the first `n` gaps. */
  lemma GapsPrefix(lines: seq<string>, n: nat)
    requires n < |lines|
    ensures Gaps(lines)[..n] == Gaps(lines[..n]) && Gaps(lines)[n] == Gap(lines, n)
  {
    var init := lines[..n];
    forall i | 0 <= i < n ensures Gaps(lines)[i] == Gaps(init)[i] {
      assert init[i] == lines[i];
      assert i > 0 ==> init[i - 1] == lines[i - 1];
    }
  }

  lemma SpacedLast(lines: seq<string>)
    requires lines != []
    ensures
      var n := |lines| - 1;
      Spaced(lines) == Spaced(lines[..n]) + (if AddsBlank(PrevAfter(lines[..n]), lines[n]) then [""] else []) + [lines[n]]
  {
  }

  lemma ExpandLast(lines: seq<string>, ins: seq<bool>)
    requires |ins| == |lines| && lines != []
    ensures
      var n := |lines| - 1;
      Expand(lines, ins) == Expand(lines[..n], ins[..n]) + (if ins[n] then [""] else []) + [lines[n]]
  {
  }

  /** Undoes `Expand`: drops the entry in front of every line that `ins` marks. */
  function Erase(out: seq<string>, ins: seq<bool>): seq<string>
    decreases |ins|
  {
    if ins == [] || out == [] then []
    else
      var last := ins[|ins| - 1];
      var keep := if last && |out| >= 2 then |out| - 2 else |out| - 1;
      Erase(out[..keep], ins[..|ins| - 1]) + [out[|out| - 1]]
  }

  /** Deleting the inserted entries gives back exactly the lines, in order. */
  lemma {:induction false} EraseExpand(lines: seq<string>, ins: seq<bool>)
    requires |ins| == |lines|
    ensures Erase(Expand(lines, ins), ins) == lines
    decreases |lines|
  {
    if lines != [] {
      var n := |lines| - 1;
      var front := Expand(lines[..n], ins[..n]);
      var out := Expand(lines, ins);
      EraseExpand(lines[..n], ins[..n]);
      if ins[n] {
        assert out == front + [""] + [lines[n]];
        assert out[..|out| - 2] == front;
      } else {
        assert out == front + [lines[n]];
        assert out[..|out| - 1] == front;
      }
      assert lines == lines[..n] + [lines[n]];
    }
  }

  /** How many lines `ins` marks for an empty line in front. */
  function Marked(ins: seq<bool>): (n: nat)
    ensures n <= |ins|
    decreases |ins|
  {
    if ins == [] then 0 else Marked(ins[..|ins| - 1]) + (if ins[|ins| - 1] then 1 else 0)
  }

  /** Nothing is marked exactly when no entry of `ins` is set. */
  lemma {:induction false} MarkedNone(ins: seq<bool>)
    ensures Marked(ins) == 0 <==> forall i :: 0 <= i < |ins| ==> !ins[i]
    decreases |ins|
  {
    if ins != [] {
      var n := |ins| - 1;
      MarkedNone(ins[..n]);
      assert forall i :: 0 <= i < n ==> ins[..n][i] == ins[i];
    }
  }

  /**
   * The output has one entry per line plus one per marked gap, so it is as
   * long as the input exactly when nothing is inserted, and then it is the
   * input.
   */
  lemma {:induction false} ExpandLength(lines: seq<string>, ins: seq<bool>)
    requires |ins| == |lines|
    ensures |Expand(lines, ins)| == |lines| + Marked(ins) <= 2 * |lines|
    ensures |Expand(lines, ins)| == |lines| <==> forall i :: 0 <= i < |ins| ==> !ins[i]
    ensures (forall i :: 0 <= i < |ins| ==> !ins[i]) ==> Expand(lines, ins) == lines
    decreases |lines|
  {
    MarkedNone(ins);
    if lines != [] {
      var n := |lines| - 1;
      ExpandLength(lines[..n], ins[..n]);
      assert forall i :: 0 <= i < n ==> ins[..n][i] == ins[i];
      assert lines == lines[..n] + [lines[n]];
    }
  }

  /** No empty line is ever put in front of the first line. */
  lemma NoGapFirst(lines: seq<string>)
    requires |lines| > 0
    ensures !Gaps(lines)[0]
  {
  }

  /** When no two consecutive lines are ordered items, the pass gives the text back unchanged. */
  lemma SpacingIdentity(text: string)
    requires forall i :: 0 < i < |Split(text)| ==> !(Ordered(Clean(Split(text)[i - 1])) && Ordered(Clean(Split(text)[i])))
    ensures Join(Spaced(Split(text))) == text
  {
    var lines := Split(text);
    SpacedIsExpand(lines);
    NoGaps(lines);
    ExpandLength(lines, Gaps(lines));
    JoinSplit(text);
  }

  /** Without two consecutive ordered items there is no gap. */
  lemma NoGaps(lines: seq<string>)
    requires forall i :: 0 < i < |lines| ==> !(Ordered(Clean(lines[i - 1])) && Ordered(Clean(lines[i])))
    ensures forall i :: 0 <= i < |Gaps(lines)| ==> !Gaps(lines)[i]
  {
    forall i | 0 <= i < |lines| ensures !Gaps(lines)[i] {
      assert Gaps(lines)[i] == Gap(lines, i);
    }
  }

  /** Two consecutive ordered items get an empty line between them. */
  lemma SpacingPair(lines: seq<string>)
    requires |lines| == 2 && Ordered(Clean(lines[0])) && Ordered(Clean(lines[1]))
    ensures Spaced(lines) == [lines[0], "", lines[1]]
  {
    SpacedIsExpand(lines);
    var ins := Gaps(lines);
    assert ins == [false, true] by {
      assert Gap(lines, 1) && !Gap(lines, 0);
    }
    ExpandPair(lines, ins);
  }

  lemma ExpandPair(lines: seq<string>, ins: seq<bool>)
    requires |lines| == 2 && ins == [false, true]
    ensures Expand(lines, ins) == [lines[0], "", lines[1]]
  {
    assert lines[..1][..0] == [] && ins[..1][..0] == [];
    assert Expand(lines[..1], ins[..1]) == [lines[0]];
  }

  lemma SpacingExample()
    ensures Spaced(["1. a", "2. b"]) == ["1. a", "", "2. b"]
  {
    ExampleOrdered("1. a");
    ExampleOrdered("2. b");
    SpacingPair(["1. a", "2. b"]);
  }

  /** A line that starts with a digit and a dot is an ordered item. */
  lemma ExampleOrdered(l: string)
    requires |l| >= 2 && IsDigit(l[0]) && l[1] == '.'
    ensures Ordered(Clean(l))
  {
    var c := Clean(l);
    assert c[0] == l[0] && c[1] == '.';
    assert LeadingSpace(c) == 0;
    assert DigitRun(c, 1) == 0;
    assert DigitRun(c, 0) == 1;
  }

  // ---------------------------------------------------------------------
  // The U+00A0 copy
  // ---------------------------------------------------------------------

  lemma {:induction false} CleanLeadingSpace(l: string)
    ensures LeadingSpace(Clean(l)) == LeadingSpace(l)
  {
    if |l| > 0 {
      assert Clean(l)[1..] == Clean(l[1..]);
      CleanLeadingSpace(l[1..]);
    }
  }

  lemma {:induction false} CleanDigitRun(l: string, k: nat)
    requires k <= |l|
    ensures DigitRun(Clean(l), k) == DigitRun(l, k)
    decreases |l| - k
  {
    if k < |l| {
      CleanDigitRun(l, k + 1);
    }
  }

  /**
   * U+00A0 is itself in `\s`, so the cleaned copy is classified exactly as
   * the original line would be; the output keeps the original line.
   */
  lemma CleanClassifiesAlike(l: string)
    ensures Ordered(Clean(l)) == Ordered(l)
    ensures IsListItem(Clean(l)) == IsListItem(l)
    ensures IsBlank(Clean(l)) == IsBlank(l)
    ensures LeadingSpace(Clean(l)) == LeadingSpace(l)
  {
    CleanLeadingSpace(l);
    var k := LeadingSpace(l);
    CleanDigitRun(l, k);
    if IsBlank(l) != IsBlank(Clean(l)) {
      BlankIsAllSpace(l);
      BlankIsAllSpace(Clean(l));
    }
  }

  lemma BlankIsAllSpace(l: string)
    ensures IsBlank(l) <==> AllSpace(l)
  {
    var k := LeadingSpace(l);
    var t := TrimStart(l);
    assert t == l[k..];
    if k == |l| {
      assert l[..k] == l;
      assert t == [];
    } else {
      assert t[0] == l[k] && !IsSpace(t[0]);
      var n := TrailingSpace(t);
      assert Trim(l) == t[..|t| - n];
    }
  }
}
