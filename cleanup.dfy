/**
 * The final clean-up, format-markdown.js lines 100-106: a blank line after a
 * `# ` title line, no blank lines between `-` list items, no run of three or
 * more newlines, and no white space at the start of the document. Each
 * global replace is a scan from left to right that copies the text and
 * rewrites each match, resuming after it.
 */
module Cleanup {
  import opened JsText
  import opened RegexLines

  // ---------------------------------------------------------------------
  // Line 100: /(^# .*)\n(?![\n\s])/gm  ->  '$1\n\n'
  // ---------------------------------------------------------------------

  /**
   * A title line starts at `p`: `# `, the rest of the line, then `\n` not
   * followed by white space. The result is the position of that `\n`.
   */
  function TitleMatch(s: string, p: nat): (r: Option<nat>)
    requires p <= |s|
    ensures r.Some? ==> p + 2 <= r.value < |s| && s[r.value] == '\n'
  {
    if AtLineStart(s, p) && p + 2 <= |s| && s[p] == '#' && s[p + 1] == ' ' then
      var e := LineEnd(s, p + 2);
      if e < |s| && s[e] == '\n' && (e + 1 == |s| || !IsSpace(s[e + 1])) then Some(e) else None
    else None
  }

  function TitleGapFrom(s: string, p: nat): string
    requires p <= |s|
    decreases |s| - p
  {
    if p == |s| then []
    else
      match TitleMatch(s, p)
      case Some(e) => s[p..e + 1] + "\n" + TitleGapFrom(s, e + 1)
      case None => [s[p]] + TitleGapFrom(s, p + 1)
  }

  function TitleGap(s: string): string {
    TitleGapFrom(s, 0)
  }

  // ---------------------------------------------------------------------
  // Line 102: /(^\s*-\s.*)\n\n+(?=\s*-)/gm  ->  '$1\n'
  // ---------------------------------------------------------------------

  /**
   * A list item followed by blank lines and another item starts at `p`.
   * `\s*` takes all the white space (it cannot give any back, since `-` is
   * not white space), `.*` the rest of the line; then come at least two `\n`,
   * and after the whole `\n` run, white space and a `-`. The result is the
   * position `e` of the first `\n` and the end `f` of the run.
   */
  function ItemMatch(s: string, p: nat): (r: Option<(nat, nat)>)
    requires p <= |s|
    ensures r.Some? ==> p < r.value.0 && r.value.0 + 2 <= r.value.1 <= |s|
    ensures r.Some? ==> forall i :: r.value.0 <= i < r.value.1 ==> s[i] == '\n'
  {
    if !AtLineStart(s, p) then None
    else
      var d := SpaceEnd(s, p);
      if d + 2 <= |s| && s[d] == '-' && IsSpace(s[d + 1]) then ItemGap(s, LineEnd(s, d + 2))
      else None
  }

  /** Where `\s*` started at `p` stops: the first position from `p` on that is not white space. */
  function SpaceEnd(s: string, p: nat): (d: nat)
    requires p <= |s|
    ensures p <= d <= |s|
    ensures d < |s| ==> !IsSpace(s[d])
    decreases |s| - p
  {
    if p < |s| && IsSpace(s[p]) then SpaceEnd(s, p + 1) else p
  }

  /** What `\s*` passes over is white space. */
  lemma {:induction false} SpaceEndSpaces(s: string, p: nat)
    requires p <= |s|
    ensures forall i :: p <= i < SpaceEnd(s, p) ==> IsSpace(s[i])
    decreases |s| - p
  {
    if p < |s| && IsSpace(s[p]) {
      SpaceEndSpaces(s, p + 1);
    }
  }

  /**
   * The rest of line 102's pattern from the end `e` of the first item's
   * line: `\n\n\n*`, white space, and the `-` of the next item.
   */
  function ItemGap(s: string, e: nat): (r: Option<(nat, nat)>)
    requires e <= |s|
    ensures r.Some? ==> r.value.0 == e && e + 2 <= r.value.1 <= |s|
    ensures r.Some? ==> forall i :: e <= i < r.value.1 ==> s[i] == '\n'
  {
    if e + 2 <= |s| && s[e] == '\n' && s[e + 1] == '\n' then
      var f := e + 1 + Run(s, e + 1, '\n');
      var q := SpaceEnd(s, f);
      if q < |s| && s[q] == '-' then Some((e, f)) else None
    else None
  }

  /** The newlines that a match drops from `s` lie between `e` and `f`. */
  predicate NewlinesOnly(s: string, e: nat, f: nat)
    requires e <= f <= |s|
  {
    forall i :: e <= i < f ==> s[i] == '\n'
  }

  /**
   * What the scans below need of a match function `m`: a match found at
   * `p` keeps the text up to its first newline `e` and drops the newlines
   * after it up to `f`.
   */
  predicate GapSound(s: string, m: nat -> Option<(nat, nat)>) {
    forall p: nat :: p <= |s| && m(p).Some? ==>
      p < m(p).value.0 < m(p).value.1 <= |s| && NewlinesOnly(s, m(p).value.0, m(p).value.1)
  }

  function ItemMatcher(s: string): (m: nat -> Option<(nat, nat)>)
    ensures GapSound(s, m)
  {
    (q: nat) => if q <= |s| then ItemMatch(s, q) else None
  }

  /** The global replace of line 102 from position `p` on, with the matches that `m` finds. */
  function TightFrom(s: string, m: nat -> Option<(nat, nat)>, p: nat): string
    requires p <= |s| && GapSound(s, m)
    decreases |s| - p
  {
    if p == |s| then []
    else
      match m(p)
      case Some((e, f)) => s[p..e + 1] + TightFrom(s, m, f)
      case None => [s[p]] + TightFrom(s, m, p + 1)
  }

  function Tight(s: string): string {
    TightFrom(s, ItemMatcher(s), 0)
  }

  // ---------------------------------------------------------------------
  // Line 104: /\n{3,}/g  ->  '\n\n'
  // ---------------------------------------------------------------------

  function CollapseFrom(s: string, p: nat): string
    requires p <= |s|
    decreases |s| - p
  {
    if p == |s| then []
    else
      var n := Run(s, p, '\n');
      if n >= 3 then "\n\n" + CollapseFrom(s, p + n)
      else [s[p]] + CollapseFrom(s, p + 1)
  }

  function Collapse(s: string): string {
    CollapseFrom(s, 0)
  }

  /** Lines 100-106 in order. */
  function Tidy(s: string): string {
    TrimStart(Collapse(Tight(TitleGap(s))))
  }

  // ---------------------------------------------------------------------
  // No run of three newlines
  // ---------------------------------------------------------------------

  predicate NoTriple(t: string) {
    forall i :: 0 <= i && i + 2 < |t| ==> !(t[i] == '\n' && t[i + 1] == '\n' && t[i + 2] == '\n')
  }

  /** How many `\n` the text starts with. */
  function Lead(t: string): nat {
    Run(t, 0, '\n')
  }

  lemma LeadOfCons(c: char, t: string)
    ensures Lead([c] + t) == if c == '\n' then 1 + Lead(t) else 0
  {
    var u := [c] + t;
    if c == '\n' {
      LeadShift(u, 1);
      assert u[1..] == t;
    }
  }

  /** The newline run at `p` is the leading run of the suffix from `p`. */
  lemma {:induction false} LeadShift(s: string, p: nat)
    requires p <= |s|
    ensures Run(s, p, '\n') == Lead(s[p..])
    decreases |s| - p
  {
    if p < |s| && s[p] == '\n' {
      LeadShift(s, p + 1);
      var t := s[p..];
      assert t[1..] == s[p + 1..];
      LeadShift(t, 1);
    }
  }

  /**
   * The collapse output from `p` has no triple newline, and starts with as
   * many newlines as the input from `p`, but at most two.
   */
  lemma {:induction false} CollapseFromShape(s: string, p: nat)
    requires p <= |s|
    ensures NoTriple(CollapseFrom(s, p))
    ensures Lead(CollapseFrom(s, p)) == if Run(s, p, '\n') < 2 then Run(s, p, '\n') else 2
    decreases |s| - p, 1
  {
    if p < |s| {
      if Run(s, p, '\n') >= 3 {
        CollapseShapeRun(s, p);
      } else {
        CollapseShapeChar(s, p);
      }
    }
  }

  /** A run of three or more newlines becomes exactly two, followed by a character that is not a newline. */
  lemma {:induction false} CollapseShapeRun(s: string, p: nat)
    requires p < |s| && Run(s, p, '\n') >= 3
    ensures NoTriple(CollapseFrom(s, p))
    ensures Lead(CollapseFrom(s, p)) == 2
    decreases |s| - p, 0
  {
    var n := Run(s, p, '\n');
    var rest := CollapseFrom(s, p + n);
    CollapseRunAt(s, p);
    CollapseFromShape(s, p + n);
    PairShape(rest);
  }

  /** Any other character is copied. */
  lemma {:induction false} CollapseShapeChar(s: string, p: nat)
    requires p < |s| && Run(s, p, '\n') < 3
    ensures NoTriple(CollapseFrom(s, p))
    ensures Lead(CollapseFrom(s, p)) == if Run(s, p, '\n') < 2 then Run(s, p, '\n') else 2
    decreases |s| - p, 0
  {
    var rest := CollapseFrom(s, p + 1);
    CollapseCharAt(s, p);
    CollapseFromShape(s, p + 1);
    if s[p] == '\n' {
      assert Run(s, p, '\n') == 1 + Run(s, p + 1, '\n');
    }
    ConsShape(s[p], rest);
  }

  lemma PairShape(rest: string)
    requires NoTriple(rest) && Lead(rest) == 0
    ensures NoTriple("\n\n" + rest) && Lead("\n\n" + rest) == 2
  {
    var r := "\n\n" + rest;
    LeadOfCons('\n', "\n" + rest);
    LeadOfCons('\n', rest);
    assert r == ['\n'] + (['\n'] + rest);
    assert rest != [] ==> rest[0] != '\n' by {
      if rest != [] {
        LeadOfCons(rest[0], rest[1..]);
        assert rest == [rest[0]] + rest[1..];
      }
    }
    forall i | 0 <= i && i + 2 < |r| ensures !(r[i] == '\n' && r[i + 1] == '\n' && r[i + 2] == '\n') {
      if i >= 2 {
        assert r[i] == rest[i - 2] && r[i + 1] == rest[i - 1] && r[i + 2] == rest[i];
      }
    }
  }

  lemma ConsShape(c: char, rest: string)
    requires NoTriple(rest) && (c == '\n' ==> Lead(rest) < 2)
    ensures NoTriple([c] + rest)
    ensures Lead([c] + rest) == if c == '\n' then 1 + Lead(rest) else 0
  {
    LeadOfCons(c, rest);
    var r := [c] + rest;
    if c == '\n' && |rest| >= 2 {
      LeadBelowTwo(rest);
    }
    forall i | 0 <= i && i + 2 < |r| ensures !(r[i] == '\n' && r[i + 1] == '\n' && r[i + 2] == '\n') {
      if i >= 1 {
        assert r[i] == rest[i - 1] && r[i + 1] == rest[i] && r[i + 2] == rest[i + 1];
      }
    }
  }

  /** A text that starts with fewer than two newlines does not start with two. */
  lemma LeadBelowTwo(t: string)
    requires |t| >= 2 && Lead(t) < 2
    ensures !(t[0] == '\n' && t[1] == '\n')
  {
    if t[0] == '\n' {
      assert Run(t, 0, '\n') == 1 + Run(t, 1, '\n');
    }
  }

  /** One step of line 104 at a run of three or more newlines. */
  lemma CollapseRunAt(s: string, p: nat)
    requires p < |s| && Run(s, p, '\n') >= 3
    ensures CollapseFrom(s, p) == "\n\n" + CollapseFrom(s, p + Run(s, p, '\n'))
  {
  }

  /** One step of line 104 at any other character. */
  lemma CollapseCharAt(s: string, p: nat)
    requires p < |s| && Run(s, p, '\n') < 3
    ensures CollapseFrom(s, p) == [s[p]] + CollapseFrom(s, p + 1)
  {
  }

  /** Without a triple newline, no run of newlines is three long. */
  lemma RunBelowThree(s: string, p: nat)
    requires p < |s| && NoTriple(s)
    ensures Run(s, p, '\n') < 3
  {
    if p + 2 < |s| {
      assert !(s[p] == '\n' && s[p + 1] == '\n' && s[p + 2] == '\n');
    }
  }

  /** Line 104: after it, no three newlines follow one another. */
  lemma CollapseNoTriple(s: string)
    ensures NoTriple(Collapse(s))
  {
    CollapseFromShape(s, 0);
  }

  /** A text without a triple newline is left as it is. */
  lemma {:induction false} CollapseKeeps(s: string, p: nat)
    requires p <= |s| && NoTriple(s)
    ensures CollapseFrom(s, p) == s[p..]
    decreases |s| - p
  {
    if p < |s| {
      RunBelowThree(s, p);
      CollapseCharAt(s, p);
      CollapseKeeps(s, p + 1);
      assert s[p..] == [s[p]] + s[p + 1..];
    }
  }

  /** Applying line 104 twice is the same as once. */
  lemma CollapseIdempotent(s: string)
    ensures Collapse(Collapse(s)) == Collapse(s)
  {
    CollapseNoTriple(s);
    var c := Collapse(s);
    CollapseKeeps(c, 0);
    assert c[0..] == c;
  }

  /** Dropping leading white space keeps the property. */
  lemma SuffixNoTriple(t: string, k: nat)
    requires k <= |t| && NoTriple(t)
    ensures NoTriple(t[k..])
  {
    var u := t[k..];
    forall i | 0 <= i && i + 2 < |u| ensures !(u[i] == '\n' && u[i + 1] == '\n' && u[i + 2] == '\n') {
      assert u[i] == t[k + i] && u[i + 1] == t[k + i + 1] && u[i + 2] == t[k + i + 2];
    }
  }

  /** The document after lines 100-106: no triple newline, and no white space at its start. */
  lemma TidyShape(s: string)
    ensures NoTriple(Tidy(s))
    ensures Tidy(s) == [] || !IsSpace(Tidy(s)[0])
  {
    var c := Collapse(Tight(TitleGap(s)));
    CollapseNoTriple(Tight(TitleGap(s)));
    SuffixNoTriple(c, |c| - |TrimStart(c)|);
  }

  // ---------------------------------------------------------------------
  // Only newlines change
  // ---------------------------------------------------------------------

  /** The text with every `\n` removed. */
  function DropNewlines(t: string): string
    decreases |t|
  {
    if |t| == 0 then [] else (if t[0] == '\n' then [] else [t[0]]) + DropNewlines(t[1..])
  }

  lemma {:induction false} DropAppend(a: string, b: string)
    ensures DropNewlines(a + b) == DropNewlines(a) + DropNewlines(b)
    decreases |a|
  {
    if a != [] {
      var h := if a[0] == '\n' then [] else [a[0]];
      assert (a + b)[1..] == a[1..] + b;
      assert DropNewlines(a + b) == h + DropNewlines(a[1..] + b);
      DropAppend(a[1..], b);
      assert DropNewlines(a) == h + DropNewlines(a[1..]);
    } else {
      assert a + b == b;
    }
  }

  lemma {:induction false} DropNewlineRun(t: string)
    requires forall i :: 0 <= i < |t| ==> t[i] == '\n'
    ensures DropNewlines(t) == []
    decreases |t|
  {
    if t != [] {
      DropNewlineRun(t[1..]);
    }
  }

  /** Removing newlines from a suffix, one character at a time. */
  lemma DropCons(s: string, p: nat, rest: string)
    requires p < |s| && DropNewlines(rest) == DropNewlines(s[p + 1..])
    ensures DropNewlines([s[p]] + rest) == DropNewlines(s[p..])
  {
    DropAppend([s[p]], rest);
    assert s[p..] == [s[p]] + s[p + 1..];
    DropAppend([s[p]], s[p + 1..]);
  }

  lemma DropSplit(s: string, p: nat, q: nat)
    requires p <= q <= |s|
    ensures DropNewlines(s[p..]) == DropNewlines(s[p..q]) + DropNewlines(s[q..])
  {
    assert s[p..] == s[p..q] + s[q..];
    DropAppend(s[p..q], s[q..]);
  }

  /** A run of `n` newlines at `p` disappears once newlines are removed. */
  lemma DropRunAt(s: string, p: nat, n: nat)
    requires p + n <= |s| && forall i :: p <= i < p + n ==> s[i] == '\n'
    ensures DropNewlines(s[p..]) == DropNewlines(s[p + n..])
  {
    DropSplit(s, p, p + n);
    var gap := s[p..p + n];
    assert forall i :: 0 <= i < |gap| ==> gap[i] == s[p + i];
    DropNewlineRun(gap);
  }

  /** Line 100 only inserts newlines. */
  lemma {:induction false} TitleGapDrop(s: string, p: nat)
    requires p <= |s|
    ensures DropNewlines(TitleGapFrom(s, p)) == DropNewlines(s[p..])
    decreases |s| - p, 1
  {
    if p < |s| {
      if TitleMatch(s, p).Some? {
        TitleGapDropMatch(s, p);
      } else {
        TitleGapDrop(s, p + 1);
        DropCons(s, p, TitleGapFrom(s, p + 1));
      }
    }
  }

  /** A title line at `p`: the newline it adds is dropped again. */
  lemma {:induction false} TitleGapDropMatch(s: string, p: nat)
    requires p < |s| && TitleMatch(s, p).Some?
    ensures DropNewlines(TitleGapFrom(s, p)) == DropNewlines(s[p..])
    decreases |s| - p, 0
  {
    var e := TitleMatch(s, p).value;
    assert TitleGapFrom(s, p) == s[p..e + 1] + "\n" + TitleGapFrom(s, e + 1);
    TitleGapDrop(s, e + 1);
    DropSplit(s, p, e + 1);
    DropInserted(s[p..e + 1], TitleGapFrom(s, e + 1));
  }

  /** A newline inserted between two texts disappears once newlines are removed. */
  lemma DropInserted(head: string, rest: string)
    ensures DropNewlines(head + "\n" + rest) == DropNewlines(head) + DropNewlines(rest)
  {
    DropAppend(head + "\n", rest);
    DropAppend(head, "\n");
    DropNewlineRun("\n");
  }

  /** One step of line 102 at a match. */
  lemma TightMatchAt(s: string, m: nat -> Option<(nat, nat)>, p: nat)
    requires p < |s| && GapSound(s, m) && m(p).Some?
    ensures TightFrom(s, m, p) == s[p..m(p).value.0 + 1] + TightFrom(s, m, m(p).value.1)
  {
  }

  /** One step of line 102 where no match starts. */
  lemma TightCharAt(s: string, m: nat -> Option<(nat, nat)>, p: nat)
    requires p < |s| && GapSound(s, m) && m(p).None?
    ensures TightFrom(s, m, p) == [s[p]] + TightFrom(s, m, p + 1)
  {
  }

  /** Line 102 only removes newlines. */
  lemma {:induction false} TightDrop(s: string, m: nat -> Option<(nat, nat)>, p: nat)
    requires p <= |s| && GapSound(s, m)
    ensures DropNewlines(TightFrom(s, m, p)) == DropNewlines(s[p..])
    decreases |s| - p, 1
  {
    if p < |s| {
      if m(p).Some? {
        TightDropMatch(s, m, p);
      } else {
        TightDrop(s, m, p + 1);
        DropCons(s, p, TightFrom(s, m, p + 1));
      }
    }
  }

  /** A match at `p`: the text up to its first newline is kept, the newlines after it dropped. */
  lemma {:induction false} TightDropMatch(s: string, m: nat -> Option<(nat, nat)>, p: nat)
    requires p < |s| && GapSound(s, m) && m(p).Some?
    ensures DropNewlines(TightFrom(s, m, p)) == DropNewlines(s[p..])
    decreases |s| - p, 0
  {
    var (e, f) := m(p).value;
    TightMatchAt(s, m, p);
    TightDrop(s, m, f);
    DropKeepGap(s, p, e, f, TightFrom(s, m, f));
  }

  /** Keeping the text up to `e` and dropping the newlines from `e + 1` to `f` changes nothing once newlines are removed. */
  lemma DropKeepGap(s: string, p: nat, e: nat, f: nat, rest: string)
    requires p <= e < f <= |s| && NewlinesOnly(s, e, f)
    requires DropNewlines(rest) == DropNewlines(s[f..])
    ensures DropNewlines(s[p..e + 1] + rest) == DropNewlines(s[p..])
  {
    calc {
      DropNewlines(s[p..e + 1] + rest);
      == { DropAppend(s[p..e + 1], rest); }
      DropNewlines(s[p..e + 1]) + DropNewlines(rest);
      == { DropGapRun(s, e, f); }
      DropNewlines(s[p..e + 1]) + DropNewlines(s[e + 1..]);
      == { DropSplit(s, p, e + 1); }
      DropNewlines(s[p..]);
    }
  }

  /** The newlines that a match drops disappear anyway once newlines are removed. */
  lemma DropGapRun(s: string, e: nat, f: nat)
    requires e < f <= |s| && NewlinesOnly(s, e, f)
    ensures DropNewlines(s[e + 1..]) == DropNewlines(s[f..])
  {
    var n := f - (e + 1);
    assert forall i :: e + 1 <= i < e + 1 + n ==> s[i] == '\n';
    DropRunAt(s, e + 1, n);
  }

  /** Line 104 only removes newlines. */
  lemma {:induction false} CollapseDrop(s: string, p: nat)
    requires p <= |s|
    ensures DropNewlines(CollapseFrom(s, p)) == DropNewlines(s[p..])
    decreases |s| - p, 1
  {
    if p < |s| {
      if Run(s, p, '\n') >= 3 {
        CollapseDropRun(s, p);
      } else {
        CollapseDrop(s, p + 1);
        DropCons(s, p, CollapseFrom(s, p + 1));
      }
    }
  }

  /** A run of three or more newlines at `p` becomes two, and both runs vanish once newlines are removed. */
  lemma {:induction false} CollapseDropRun(s: string, p: nat)
    requires p < |s| && Run(s, p, '\n') >= 3
    ensures DropNewlines(CollapseFrom(s, p)) == DropNewlines(s[p..])
    decreases |s| - p, 0
  {
    var n := Run(s, p, '\n');
    CollapseRunAt(s, p);
    CollapseDrop(s, p + n);
    DropPair(CollapseFrom(s, p + n));
    DropRunAt(s, p, n);
  }

  lemma DropPair(rest: string)
    ensures DropNewlines("\n\n" + rest) == DropNewlines(rest)
  {
    DropAppend("\n\n", rest);
    DropNewlineRun("\n\n");
  }

  /** Lines 100-104 together change only where the newlines are. */
  lemma TidyKeepsText(s: string)
    ensures DropNewlines(Collapse(Tight(TitleGap(s)))) == DropNewlines(s)
  {
    assert s[0..] == s;
    TitleGapDrop(s, 0);
    var a := TitleGap(s);
    assert a[0..] == a;
    TightDrop(a, ItemMatcher(a), 0);
    var b := Tight(a);
    assert b[0..] == b;
    CollapseDrop(b, 0);
  }

  // ---------------------------------------------------------------------
  // Line 100 against a reference: one more `\n` after every title line
  // ---------------------------------------------------------------------

  /** Position `i` holds the `\n` that ends a title line that line 100 matches. */
  predicate TitleEnd(s: string, i: nat)
    requires i < |s|
  {
    exists q: nat :: q <= i && TitleMatch(s, q) == Some(i)
  }

  /** Line 100 as a reference, position by position: every title line's `\n` is doubled and nothing else changes. */
  function TitleSpread(s: string, p: nat): string
    requires p <= |s|
    decreases |s| - p
  {
    if p == |s| then []
    else [s[p]] + (if TitleEnd(s, p) then "\n" else []) + TitleSpread(s, p + 1)
  }

  /** Every title match that starts before `p` ends before `p`: the scan is not inside one. */
  predicate TitlesBefore(s: string, p: nat)
    requires p <= |s|
  {
    forall q :: 0 <= q < p && TitleMatch(s, q).Some? ==> TitleMatch(s, q).value < p
  }

  /** The global replace of line 100 doubles exactly the `\n` of every title line it matches. */
  lemma TitleGapIsSpread(s: string)
    ensures TitleGap(s) == TitleSpread(s, 0)
  {
    TitleGapSpread(s, 0);
  }

  lemma {:induction false} TitleGapSpread(s: string, p: nat)
    requires p <= |s| && TitlesBefore(s, p)
    ensures TitleGapFrom(s, p) == TitleSpread(s, p)
    decreases |s| - p, 1
  {
    if p < |s| {
      if TitleMatch(s, p).Some? {
        TitleSpreadMatch(s, p, TitleMatch(s, p).value);
      } else {
        TitleNotEnd(s, p);
        TitleGapSpread(s, p + 1);
      }
    }
  }

  /** Where no title line starts and none is open, the character is copied by both. */
  lemma TitleNotEnd(s: string, p: nat)
    requires p < |s| && TitlesBefore(s, p) && TitleMatch(s, p).None?
    ensures !TitleEnd(s, p) && TitlesBefore(s, p + 1)
    ensures TitleGapFrom(s, p) == [s[p]] + TitleGapFrom(s, p + 1)
    ensures TitleSpread(s, p) == [s[p]] + TitleSpread(s, p + 1)
  {
  }

  /** A title line at `p`: both copy it up to its `\n` and add one `\n` after it. */
  lemma {:induction false} TitleSpreadMatch(s: string, p: nat, e: nat)
    requires p < |s| && TitlesBefore(s, p) && TitleMatch(s, p) == Some(e)
    ensures TitleGapFrom(s, p) == TitleSpread(s, p)
    decreases |s| - p, 0
  {
    TitleScanStep(s, p, e);
    TitleSpreadStep(s, p, e);
    TitleGapSpread(s, e + 1);
  }

  /** The scan at a title line: it copies the line with its `\n`, adds one, and resumes outside every match. */
  lemma TitleScanStep(s: string, p: nat, e: nat)
    requires p < |s| && TitlesBefore(s, p) && TitleMatch(s, p) == Some(e)
    ensures e < |s| && TitlesBefore(s, e + 1)
    ensures TitleGapFrom(s, p) == s[p..e + 1] + "\n" + TitleGapFrom(s, e + 1)
  {
    TitleGapAt(s, p, e);
    TitleResume(s, p, e);
  }

  lemma TitleGapAt(s: string, p: nat, e: nat)
    requires p < |s| && TitleMatch(s, p) == Some(e)
    ensures TitleGapFrom(s, p) == s[p..e + 1] + "\n" + TitleGapFrom(s, e + 1)
  { }

  /** After a title line no match is still open. */
  lemma TitleResume(s: string, p: nat, e: nat)
    requires p < |s| && TitlesBefore(s, p) && TitleMatch(s, p) == Some(e)
    ensures TitlesBefore(s, e + 1)
  {
    forall q | p < q <= e ensures TitleMatch(s, q).None? {
      TitleLineInside(s, p, q);
    }
  }

  /** The reference at a title line: the same line, the same `\n` added. */
  lemma TitleSpreadStep(s: string, p: nat, e: nat)
    requires p < |s| && TitlesBefore(s, p) && TitleMatch(s, p) == Some(e)
    ensures e < |s| && TitleSpread(s, p) == s[p..e + 1] + "\n" + TitleSpread(s, e + 1)
  {
    TitleQuiet(s, p);
    SpreadCopies(s, p, e);
    SpreadAtEnd(s, p, e);
    SliceSnoc(s, p, e);
    Regroup(s[p..e], s[e], TitleSpread(s, e + 1));
  }

  /** No `\n` before the end of a title line ends a title line. */
  lemma TitleQuiet(s: string, p: nat)
    requires p < |s| && TitlesBefore(s, p) && TitleMatch(s, p).Some?
    ensures forall i :: p <= i < TitleMatch(s, p).value ==> !TitleEnd(s, i)
  {
    var e := TitleMatch(s, p).value;
    forall q | p < q <= e ensures TitleMatch(s, q).None? {
      TitleLineInside(s, p, q);
    }
  }

  lemma SpreadAtEnd(s: string, p: nat, e: nat)
    requires p <= e < |s| && TitleMatch(s, p) == Some(e)
    ensures TitleSpread(s, e) == [s[e]] + "\n" + TitleSpread(s, e + 1)
  {
    assert TitleEnd(s, e);
  }

  lemma SliceSnoc(s: string, p: nat, e: nat)
    requires p <= e < |s|
    ensures s[p..e + 1] == s[p..e] + [s[e]]
  { }

  lemma Regroup(x: string, c: char, t: string)
    ensures (x + [c]) + "\n" + t == x + ([c] + "\n" + t)
  { }

  lemma TitleLineInside(s: string, p: nat, q: nat)
    requires p <= |s| && TitleMatch(s, p).Some? && p < q <= TitleMatch(s, p).value
    ensures !AtLineStart(s, q)
  {
    var e := LineEnd(s, p + 2);
    assert TitleMatch(s, p).value == e;
    if q >= p + 3 {
      assert s[q - 1] == s[p + 2..e][q - 1 - (p + 2)];
    }
  }

  /** Where no title line ends, the reference copies the text. */
  lemma {:induction false} SpreadCopies(s: string, a: nat, b: nat)
    requires a <= b <= |s| && forall i :: a <= i < b ==> !TitleEnd(s, i)
    ensures TitleSpread(s, a) == s[a..b] + TitleSpread(s, b)
    decreases b - a
  {
    if a < b {
      SpreadCopies(s, a + 1, b);
      SliceCons(s, a, b);
    }
  }

  // ---------------------------------------------------------------------
  // Line 102 against a reference: drop the blank lines inside every match
  // ---------------------------------------------------------------------

  /** Position `i` lies strictly inside the `\n` run of the match that `m` finds at `q`. */
  predicate InGap(s: string, m: nat -> Option<(nat, nat)>, q: nat, i: nat) {
    q <= |s| && m(q).Some? && m(q).value.0 < i < m(q).value.1
  }

  /** Some match, wherever it starts, drops position `i`. */
  predicate Dropped(s: string, m: nat -> Option<(nat, nat)>, i: nat) {
    exists q: nat :: q <= |s| && InGap(s, m, q, i)
  }

  /** The global replace as a reference, position by position: keep what no match drops. */
  function TightKeep(s: string, m: nat -> Option<(nat, nat)>, p: nat): string
    requires p <= |s|
    decreases |s| - p
  {
    if p == |s| then []
    else (if Dropped(s, m, p) then [] else [s[p]]) + TightKeep(s, m, p + 1)
  }

  /**
   * What line 102's pattern guarantees of its matches (`ItemNested`): a
   * match that starts inside the match from `p` to `f` starts its `\n` run
   * no earlier, and it ends by `f` or is the match at `f`.
   */
  predicate Nested(s: string, m: nat -> Option<(nat, nat)>) {
    forall p: nat, q: nat, f: nat :: p <= q < f <= |s| ==> NestedTriple(s, m, p, q, f)
  }

  /** A match from `q` inside the match from `p`, which ends at `f`, stays inside it or is the match from `f`. */
  predicate NestedTriple(s: string, m: nat -> Option<(nat, nat)>, p: nat, q: nat, f: nat) {
    m(p).Some? && m(p).value.1 == f && m(q).Some? ==>
      m(q).value.0 >= m(p).value.0 && (m(q).value.1 <= f || m(q) == m(f))
  }

  /** Every match that starts before `p` has ended by `p`, or is the match at `p`. */
  predicate GapsBefore(s: string, m: nat -> Option<(nat, nat)>, p: nat) {
    forall q :: 0 <= q < p && m(q).Some? ==> m(q).value.1 <= p || m(q) == m(p)
  }

  /**
   * The global replace of line 102 drops exactly the characters that lie
   * inside the `\n` run of some match of its pattern, including matches
   * that start inside text an earlier match has already consumed.
   */
  lemma TightIsKeep(s: string)
    ensures Tight(s) == TightKeep(s, ItemMatcher(s), 0)
  {
    ItemNested(s);
    TightKeepFrom(s, ItemMatcher(s), 0);
  }

  lemma {:induction false} TightKeepFrom(s: string, m: nat -> Option<(nat, nat)>, p: nat)
    requires p <= |s| && GapSound(s, m) && Nested(s, m) && GapsBefore(s, m, p)
    ensures TightFrom(s, m, p) == TightKeep(s, m, p)
    decreases |s| - p, 1
  {
    if p < |s| {
      if m(p).Some? {
        TightKeepMatch(s, m, p, m(p).value.0, m(p).value.1);
      } else {
        TightCharAt(s, m, p);
        KeepChar(s, m, p);
        TightKeepFrom(s, m, p + 1);
      }
    }
  }

  /** No match at `p`: both keep `s[p]`, and no match is open after it. */
  lemma KeepChar(s: string, m: nat -> Option<(nat, nat)>, p: nat)
    requires p < |s| && GapSound(s, m) && GapsBefore(s, m, p) && m(p).None?
    ensures GapsBefore(s, m, p + 1)
    ensures TightKeep(s, m, p) == [s[p]] + TightKeep(s, m, p + 1)
  {
    assert !Dropped(s, m, p);
  }

  lemma {:induction false} TightKeepMatch(s: string, m: nat -> Option<(nat, nat)>, p: nat, e: nat, f: nat)
    requires p < |s| && GapSound(s, m) && Nested(s, m) && GapsBefore(s, m, p) && m(p) == Some((e, f))
    ensures TightFrom(s, m, p) == TightKeep(s, m, p)
    decreases |s| - p, 0
  {
    TightMatchAt(s, m, p);
    KeepLine(s, m, p, e, f);
    KeepGap(s, m, p, e, f);
    GapsAfter(s, m, p, e, f);
    TightKeepFrom(s, m, f);
  }

  /** Up to the first `\n` of the match at `p` the reference copies the text. */
  lemma KeepLine(s: string, m: nat -> Option<(nat, nat)>, p: nat, e: nat, f: nat)
    requires p < |s| && GapSound(s, m) && Nested(s, m) && GapsBefore(s, m, p) && m(p) == Some((e, f))
    ensures e < f <= |s| && TightKeep(s, m, p) == s[p..e + 1] + TightKeep(s, m, e + 1)
  {
    forall i | p <= i < e + 1 ensures !Dropped(s, m, i) {
      MatchKept(s, m, p, e, f, i);
    }
    KeepCopies(s, m, p, e + 1);
  }

  /** The rest of the `\n` run of the match at `p` the reference drops. */
  lemma KeepGap(s: string, m: nat -> Option<(nat, nat)>, p: nat, e: nat, f: nat)
    requires p < |s| && GapSound(s, m) && m(p) == Some((e, f))
    ensures e < f <= |s| && TightKeep(s, m, e + 1) == TightKeep(s, m, f)
  {
    forall i | e + 1 <= i < f ensures Dropped(s, m, i) {
      assert InGap(s, m, p, i);
    }
    KeepSkips(s, m, e + 1, f);
  }

  /** Nothing up to the first `\n` of a match is dropped, by that match or any other. */
  lemma MatchKept(s: string, m: nat -> Option<(nat, nat)>, p: nat, e: nat, f: nat, i: nat)
    requires p < |s| && GapSound(s, m) && Nested(s, m) && GapsBefore(s, m, p) && m(p) == Some((e, f))
    requires p <= i <= e
    ensures !Dropped(s, m, i)
  {
    SoundAt(s, m, p);
    forall q: nat | q <= |s| && m(q).Some? ensures !InGap(s, m, q, i) {
      if q < p {
        assert m(q).value.1 <= p || m(q) == m(p);
      } else if q < f {
        NestedAt(s, m, p, q, f);
      } else {
        SoundAt(s, m, q);
      }
    }
  }

  lemma SoundAt(s: string, m: nat -> Option<(nat, nat)>, p: nat)
    requires GapSound(s, m) && p <= |s| && m(p).Some?
    ensures p < m(p).value.0 < m(p).value.1 <= |s|
  { }

  lemma NestedAt(s: string, m: nat -> Option<(nat, nat)>, p: nat, q: nat, f: nat)
    requires Nested(s, m) && p <= q < f <= |s| && m(p).Some? && m(p).value.1 == f && m(q).Some?
    ensures m(q).value.0 >= m(p).value.0 && (m(q).value.1 <= f || m(q) == m(f))
  {
    assert NestedTriple(s, m, p, q, f);
  }

  /** After a match the scan resumes at `f`, where no earlier match is still open. */
  lemma GapsAfter(s: string, m: nat -> Option<(nat, nat)>, p: nat, e: nat, f: nat)
    requires p < |s| && GapSound(s, m) && Nested(s, m) && GapsBefore(s, m, p) && m(p) == Some((e, f))
    ensures GapsBefore(s, m, f)
  {
    SoundAt(s, m, p);
    forall q | 0 <= q < f && m(q).Some? ensures m(q).value.1 <= f || m(q) == m(f) {
      if q < p {
        assert m(q).value.1 <= p || m(q) == m(p);
      } else {
        NestedAt(s, m, p, q, f);
      }
    }
  }

  /** Where nothing is dropped the reference copies the text. */
  lemma {:induction false} KeepCopies(s: string, m: nat -> Option<(nat, nat)>, a: nat, b: nat)
    requires a <= b <= |s| && forall i :: a <= i < b ==> !Dropped(s, m, i)
    ensures TightKeep(s, m, a) == s[a..b] + TightKeep(s, m, b)
    decreases b - a
  {
    if a < b {
      KeepCopies(s, m, a + 1, b);
      SliceCons(s, a, b);
    }
  }

  /** Where everything is dropped the reference skips the text. */
  lemma {:induction false} KeepSkips(s: string, m: nat -> Option<(nat, nat)>, a: nat, b: nat)
    requires a <= b <= |s| && forall i :: a <= i < b ==> Dropped(s, m, i)
    ensures TightKeep(s, m, a) == TightKeep(s, m, b)
    decreases b - a
  {
    if a < b {
      KeepSkips(s, m, a + 1, b);
    }
  }

  /** Line 102's pattern nests its matches. */
  lemma ItemNested(s: string)
    ensures Nested(s, ItemMatcher(s))
  {
    forall p: nat, q: nat, f: nat | p <= q < f <= |s|
      ensures NestedTriple(s, ItemMatcher(s), p, q, f)
    {
      var m := ItemMatcher(s);
      if m(p).Some? && m(p).value.1 == f && m(q).Some? {
        NestedItem(s, p, q, f);
      }
    }
  }

  lemma NestedItem(s: string, p: nat, q: nat, f: nat)
    requires p <= q < f <= |s| && ItemMatcher(s)(p).Some? && ItemMatcher(s)(p).value.1 == f && ItemMatcher(s)(q).Some?
    ensures ItemMatcher(s)(q).value.0 >= ItemMatcher(s)(p).value.0
    ensures ItemMatcher(s)(q).value.1 <= f || ItemMatcher(s)(q) == ItemMatcher(s)(f)
  {
    MatcherAt(s, p);
    MatcherAt(s, q);
    MatcherAt(s, f);
    ItemLater(s, p, ItemMatch(s, p).value.0, f, q);
  }

  lemma MatcherAt(s: string, x: nat)
    requires x <= |s|
    ensures ItemMatcher(s)(x) == ItemMatch(s, x)
  { }

  /**
   * A match that starts inside the match from `p` to `f` starts its `\n`
   * run no earlier, and it either ends by `f` or is the match at `f`.
   */
  lemma ItemLater(s: string, p: nat, e: nat, f: nat, q: nat)
    requires p <= |s| && ItemMatch(s, p) == Some((e, f)) && p <= q < f && ItemMatch(s, q).Some?
    ensures ItemMatch(s, q).value.0 >= e
    ensures ItemMatch(s, q).value.1 <= f || ItemMatch(s, q) == ItemMatch(s, f)
  {
    if q <= SpaceEnd(s, p) {
      LaterIndent(s, p, e, f, q);
    } else if q <= e && SpaceEnd(s, q) < e {
      LaterOnLine(s, p, e, f, q);
    } else {
      LaterInGap(s, p, e, f, q);
    }
  }

  lemma LaterIndent(s: string, p: nat, e: nat, f: nat, q: nat)
    requires p <= |s| && ItemMatch(s, p) == Some((e, f)) && p <= q < f && ItemMatch(s, q).Some?
    requires q <= SpaceEnd(s, p)
    ensures ItemMatch(s, q).value.0 >= e && ItemMatch(s, q).value.1 <= f
  {
    SameIndent(s, p, q);
  }

  /** A match, if any, whose `\n` run lies within the one from `e` to `f` and ends with it. */
  predicate GapIn(g: Option<(nat, nat)>, e: nat, f: nat) {
    g.Some? ==> g.value.0 >= e && g.value.1 == f
  }

  lemma LaterOnLine(s: string, p: nat, e: nat, f: nat, q: nat)
    requires p <= |s| && ItemMatch(s, p) == Some((e, f)) && q <= |s| && ItemMatch(s, q).Some?
    requires SpaceEnd(s, p) < q <= e && SpaceEnd(s, q) < e
    ensures GapIn(ItemMatch(s, q), e, f)
  {
    ItemDash(s, p, e, f);
    DashOnLine(s, SpaceEnd(s, p), q, e, f);
  }

  /** A match starting after the dash at `d` but before the line's end takes the same gap. */
  lemma DashOnLine(s: string, d: nat, q: nat, e: nat, f: nat)
    requires DashLine(s, d, e, f) && d < q <= |s| && ItemMatch(s, q).Some? && SpaceEnd(s, q) < e
    ensures GapIn(ItemMatch(s, q), e, f)
  {
    ItemStarts(s, q);
    SameLine(s, d, SpaceEnd(s, q), e, f);
    GapOfStart(s, q, e, f);
  }

  /** The match at `q` is the gap that follows the line of its dash. */
  lemma GapOfStart(s: string, q: nat, e: nat, f: nat)
    requires q <= |s| && SpaceEnd(s, q) + 2 <= |s| && ItemMatch(s, q).Some?
    requires GapIn(ItemGap(s, LineEnd(s, SpaceEnd(s, q) + 2)), e, f)
    ensures GapIn(ItemMatch(s, q), e, f)
  {
    ItemStarts(s, q);
  }


  lemma LaterInGap(s: string, p: nat, e: nat, f: nat, q: nat)
    requires p <= |s| && ItemMatch(s, p) == Some((e, f)) && p <= q < f && ItemMatch(s, q).Some?
    requires SpaceEnd(s, p) < q && (q <= e ==> SpaceEnd(s, q) >= e)
    ensures ItemMatch(s, q).value.0 >= e && ItemMatch(s, q) == ItemMatch(s, f)
  {
    SpacesToGap(s, p, e, f, q);
  }

  /** An item's `-` at `d`, the first `\n` after it at `e`, and the gap from `e` to `f`. */
  predicate DashLine(s: string, d: nat, e: nat, f: nat) {
    d + 2 <= |s| && e == LineEnd(s, d + 2) && d + 2 <= e && ItemGap(s, e) == Some((e, f))
  }

  /** The `-` of a match at `p` and the first `\n` after it. */
  lemma ItemDash(s: string, p: nat, e: nat, f: nat)
    requires p <= |s| && ItemMatch(s, p) == Some((e, f))
    ensures DashLine(s, SpaceEnd(s, p), e, f)
  {
    ItemStarts(s, p);
  }

  lemma ItemLineStart(s: string, q: nat)
    requires q <= |s| && ItemMatch(s, q).Some?
    ensures AtLineStart(s, q)
  { }

  /** A match at `q`: where its `-` is, and that it continues after the end of that line. */
  lemma ItemStarts(s: string, q: nat)
    requires q <= |s| && ItemMatch(s, q).Some?
    ensures SpaceEnd(s, q) + 2 <= |s| && s[SpaceEnd(s, q)] == '-'
      && ItemMatch(s, q) == ItemGap(s, LineEnd(s, SpaceEnd(s, q) + 2))
  { }

  /** A match at `q` inside the indentation of the match at `p` is that match. */
  lemma SameIndent(s: string, p: nat, q: nat)
    requires p <= |s| && p <= q <= SpaceEnd(s, p) && ItemMatch(s, p).Some? && ItemMatch(s, q).Some?
    ensures ItemMatch(s, q) == ItemMatch(s, p)
  {
    SpaceEndSpaces(s, p);
    SpaceSkip(s, p, q);
    ItemLineStart(s, p);
    ItemLineStart(s, q);
    SameDash(s, p, q);
  }

  /** Two line starts whose `\s*` stops at the same place find the same match. */
  lemma SameDash(s: string, a: nat, b: nat)
    requires a <= |s| && b <= |s| && AtLineStart(s, a) && AtLineStart(s, b)
    requires SpaceEnd(s, a) == SpaceEnd(s, b)
    ensures ItemMatch(s, a) == ItemMatch(s, b)
  {
    ItemAtDash(s, a);
    ItemAtDash(s, b);
  }

  /** What line 102's pattern finds once `\s*` has stopped at `d`. */
  function DashMatch(s: string, d: nat): Option<(nat, nat)>
    requires d <= |s|
  {
    if d + 2 <= |s| && s[d] == '-' && IsSpace(s[d + 1]) then ItemGap(s, LineEnd(s, d + 2)) else None
  }

  /** At a line start the match depends only on where `\s*` stops. */
  lemma ItemAtDash(s: string, a: nat)
    requires a <= |s| && AtLineStart(s, a)
    ensures ItemMatch(s, a) == DashMatch(s, SpaceEnd(s, a))
  { }

  /** The same `^\s*` stop from `a` and from `b` when only white space lies between. */
  lemma {:induction false} SpaceSkip(s: string, a: nat, b: nat)
    requires a <= b <= |s| && forall i :: a <= i < b ==> IsSpace(s[i])
    ensures SpaceEnd(s, a) == SpaceEnd(s, b)
    decreases b - a
  {
    if a < b {
      SpaceSkip(s, a + 1, b);
    }
  }

  /**
   * A match at `q` whose `\s*` runs into the `\n` run of the match from
   * `p` to `f`, or starts inside that run, is the match at `f`.
   */
  lemma SpacesToGap(s: string, p: nat, e: nat, f: nat, q: nat)
    requires p <= |s| && ItemMatch(s, p) == Some((e, f)) && p < q < f && ItemMatch(s, q).Some?
    requires q <= e ==> SpaceEnd(s, q) >= e
    ensures ItemMatch(s, q) == ItemMatch(s, f)
  {
    if q <= e {
      LineSpaces(s, q, e, f);
    } else {
      RunSpaces(s, q, e, f);
    }
    SpaceSkip(s, q, f);
    ItemLineStart(s, q);
    assert AtLineStart(s, f) by {
      assert s[f - 1] == '\n';
    }
    SameDash(s, q, f);
  }

  lemma RunSpaces(s: string, q: nat, e: nat, f: nat)
    requires e <= q <= f <= |s| && forall i :: e <= i < f ==> s[i] == '\n'
    ensures forall i :: q <= i < f ==> IsSpace(s[i])
  { }

  /** `\s*` from `q` that reaches the `\n` run from `e` to `f` passes all of it. */
  lemma LineSpaces(s: string, q: nat, e: nat, f: nat)
    requires q <= e <= f <= |s| && forall i :: e <= i < f ==> s[i] == '\n'
    requires SpaceEnd(s, q) >= e
    ensures forall i :: q <= i < f ==> IsSpace(s[i])
  {
    SpaceEndSpaces(s, q);
  }

  /**
   * A `-` at `d'` on the line of the `-` at `d`, whose first `\n` is `e` with
   * the gap up to `f` after it: what follows its line is that gap or a part of it.
   */
  lemma SameLine(s: string, d: nat, d': nat, e: nat, f: nat)
    requires DashLine(s, d, e, f) && d < d' < e
    ensures GapIn(ItemGap(s, LineEnd(s, d' + 2)), e, f)
  {
    if d' + 1 < e {
      SameLineInside(s, d, d', e, f);
    } else {
      SameLineAtBreak(s, d, e, f);
    }
  }

  /** A dash before the line's last character finds the same line end. */
  lemma SameLineInside(s: string, d: nat, d': nat, e: nat, f: nat)
    requires DashLine(s, d, e, f) && d < d' && d' + 1 < e
    ensures LineEnd(s, d' + 2) == e
  {
    LineEndSame(s, d + 2, d' + 2);
  }

  /** A dash as the line's last character looks past the first `\n` of the gap. */
  lemma SameLineAtBreak(s: string, d: nat, e: nat, f: nat)
    requires DashLine(s, d, e, f) && e + 1 <= |s|
    ensures LineEnd(s, e + 1) == e + 1
    ensures GapIn(ItemGap(s, e + 1), e, f)
  {
    LineEndAtBreak(s, e + 1);
    GapShift(s, e, f);
  }

  lemma LineEndAtBreak(s: string, j: nat)
    requires j < |s| && IsLineTerminator(s[j])
    ensures LineEnd(s, j) == j
  {
    assert s[j..][0] == s[j];
  }

  /** A gap found one `\n` later ends at the same place. */
  lemma GapShift(s: string, e: nat, f: nat)
    requires e + 1 <= |s| && ItemGap(s, e) == Some((e, f))
    ensures ItemGap(s, e + 1).Some? ==> ItemGap(s, e + 1).value.1 == f
  {
    NewlineRunStep(s, e + 1);
  }

  /** `.*` started anywhere up to where it stops stops at the same place. */
  lemma {:induction false} LineEndSame(s: string, j: nat, k: nat)
    requires j <= |s| && j <= k <= LineEnd(s, j)
    ensures LineEnd(s, k) == LineEnd(s, j)
    decreases k - j
  {
    if j < k {
      assert s[j] == s[j..LineEnd(s, j)][0];
      LineEndStep(s, j);
      LineEndSame(s, j + 1, k);
    }
  }

  /** `.*` passes a character that is not a line terminator. */
  lemma LineEndStep(s: string, j: nat)
    requires j < |s| && !IsLineTerminator(s[j])
    ensures LineEnd(s, j) == LineEnd(s, j + 1)
  {
    assert s[j..][0] == s[j];
    assert s[j..][1..] == s[j + 1..];
  }

  lemma NewlineRunStep(s: string, p: nat)
    requires p < |s| && s[p] == '\n'
    ensures Run(s, p, '\n') == 1 + Run(s, p + 1, '\n')
  { }

  // ---------------------------------------------------------------------
  // The two layout rules on small documents
  // ---------------------------------------------------------------------

  /** Line 100: a title followed directly by text gets a blank line. */
  lemma TitleExample()
    ensures TitleGap("# T\nx") == "# T\n\nx"
  {
    var s := "# T\nx";
    assert LineEnd(s, 2) == 3 by {
      assert BreakIndex(s[2..]) == 1 by {
        assert s[2..] == "T\nx";
      }
    }
    assert TitleMatch(s, 0) == Some(3);
    assert TitleMatch(s, 4) == None;
    assert TitleGapFrom(s, 4) == "x";
    assert s[0..4] == "# T\n";
  }

  /** Line 102: the blank line between two items goes. */
  lemma TightExample()
    ensures Tight("- a\n\n- b") == "- a\n- b"
  {
    var s := "- a\n\n- b";
    ExampleFirstItem(s);
    ExampleLastItem(s);
    TightExampleWith(s, ItemMatcher(s));
  }

  /** The same, for any sound matcher that finds exactly the first item. */
  lemma TightExampleWith(s: string, m: nat -> Option<(nat, nat)>)
    requires s == "- a\n\n- b" && GapSound(s, m)
    requires m(0) == Some((3, 5)) && m(5) == None && m(6) == None && m(7) == None
    ensures TightFrom(s, m, 0) == "- a\n- b"
  {
    assert TightFrom(s, m, 8) == [];
    TightCharAt(s, m, 7);
    TightCharAt(s, m, 6);
    TightCharAt(s, m, 5);
    assert TightFrom(s, m, 5) == "- b";
    TightMatchAt(s, m, 0);
    assert s[0..4] == "- a\n";
  }

  lemma ExampleFirstItem(s: string)
    requires s == "- a\n\n- b"
    ensures ItemMatch(s, 0) == Some((3, 5))
  {
    assert LeadingSpace(s[0..]) == 0;
    assert LineEnd(s, 2) == 3 by {
      assert BreakIndex(s[2..]) == 1 by {
        assert s[2..] == "a\n\n- b";
      }
    }
    ExampleGap(s);
  }

  lemma ExampleGap(s: string)
    requires s == "- a\n\n- b"
    ensures ItemGap(s, 3) == Some((3, 5))
  {
    assert Run(s, 4, '\n') == 1;
    assert LeadingSpace(s[5..]) == 0;
  }

  lemma ExampleLastItem(s: string)
    requires s == "- a\n\n- b"
    ensures ItemMatch(s, 5) == None && ItemMatch(s, 6) == None && ItemMatch(s, 7) == None
  {
    assert s[5..] == "- b";
    assert LeadingSpace(s[5..]) == 0;
    assert LineEnd(s, 7) == 8;
    assert !AtLineStart(s, 6) && !AtLineStart(s, 7);
  }
}
