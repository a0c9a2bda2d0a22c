/**
 * Extraction of indented code blocks, format-markdown.js line 12, taken
 * literally. The regex `(?:\n\n|\A)((?:(?: {4,}|\t)(?![-+*] ).*\n?)+)` is
 * not multiline and is applied globally with a callback that pushes the
 * capture and returns `\n\n<marker>\n\n`. Two things make it differ from what
 * it looks like:
 *  - in JavaScript `\A` is not the start-of-input anchor but the letter `A`,
 *    so a block at the very start of the text is not caught, while one right
 *    after a letter `A` is (and the `A` is consumed);
 *  - ` {4,}` is greedy but may give spaces back, so with five or more spaces
 *    the guard `(?![-+*] )` looks at a space and lets a list item through.
 */
module CodeBlocks {
  import opened JsText
  import opened RegexLines
  import opened Placeholders

  /** `[-+*] ` at `i`: what the guard `(?![-+*] )` refuses. */
  predicate ListMarkerAt(s: string, i: nat) {
    i + 1 < |s| && (s[i] == '-' || s[i] == '+' || s[i] == '*') && s[i + 1] == ' '
  }

  /**
   * `(?: {4,}|\t)(?![-+*] )` matches at `q`. A run of exactly four spaces
   * before a list marker is refused; a longer run gives one space back and is
   * accepted; a tab is accepted unless a list marker follows it.
   */
  predicate IndentOk(s: string, q: nat)
    requires q <= |s|
  {
    var n := Run(s, q, ' ');
    if n >= 4 then n >= 5 || !ListMarkerAt(s, q + n)
    else q < |s| && s[q] == '\t' && !ListMarkerAt(s, q + 1)
  }

  /** Where one repetition `.*\n?` from an indented position `q` ends: the end of its line, past a `\n` that ends it. */
  function LineStep(s: string, q: nat): (e: nat)
    requires q <= |s| && IndentOk(s, q)
    ensures q < e <= |s|
  {
    assert s[q] == ' ' || s[q] == '\t';
    var e := LineEnd(s, q);
    assert e != q;
    if e < |s| && s[e] == '\n' then e + 1 else e
  }

  /** The end of the greedy `(...)+`: repetitions are taken while an indented line starts there. */
  function RunEnd(s: string, q: nat): (e: nat)
    requires q <= |s|
    ensures q <= e <= |s|
    ensures e > q ==> IndentOk(s, q)
    decreases |s| - q
  {
    if q < |s| && IndentOk(s, q) then RunEnd(s, LineStep(s, q)) else q
  }

  /** Where capture group 1 would start if the prefix `(?:\n\n|\A)` matches at `p` (otherwise `p`). */
  function PrefixEnd(s: string, p: nat): (g: nat)
    requires p <= |s|
    ensures p <= g <= |s|
  {
    if p + 2 <= |s| && s[p..p + 2] == "\n\n" then p + 2
    else if p < |s| && s[p] == 'A' then p + 1
    else p
  }

  /** The match at `p`, as the start and end of capture group 1; the whole match is `s[p..end]`. */
  function CodeMatchAt(s: string, p: nat): (r: Option<(nat, nat)>)
    requires p <= |s|
    ensures r.Some? ==> p < r.value.0 < r.value.1 <= |s| && IndentOk(s, r.value.0)
  {
    var g := PrefixEnd(s, p);
    var e := RunEnd(s, g);
    if g == p || e == g then None else Some((g, e))
  }

  /** Where the regex matches in `s`, position by position. */
  function CodeMatcher(s: string): (m: nat -> Option<(nat, nat)>)
    ensures Sound(s, m)
  {
    (q: nat) => if q <= |s| then CodeMatchAt(s, q) else None
  }

  /**
   * A table of matches that a global replace over `s` can follow: a match at
   * `q` gives the start and end of its capture, which lies after `q` and
   * inside `s`. The scans below take the table as a parameter so that their
   * proofs depend only on this shape.
   */
  predicate Sound(s: string, m: nat -> Option<(nat, nat)>) {
    forall q: nat :: q <= |s| && m(q).Some? ==> q < m(q).value.0 < m(q).value.1 <= |s|
  }

  /** The callback's return value for block `i`. */
  function Block(i: nat): string {
    "\n\n" + Marker(CodeBlock, i) + "\n\n"
  }

  /** What restoring block `c` puts in place of the callback's return value. */
  function Unblock(c: string): string {
    "\n\n" + Canonical(CodeBlock, c) + "\n\n"
  }

  /** The text after extraction and the captures, in the order they are pushed. */
  datatype CodeScan = CodeScan(text: string, captured: seq<string>)

  /**
   * The global replace from position `p` on, numbering blocks from `base`
   * (the length of `codeBlocks` before the first push): each match is
   * replaced by its marker and the scan resumes at the match's end; any
   * other character is kept.
   */
  function CodeScanFrom(s: string, m: nat -> Option<(nat, nat)>, p: nat, base: nat): (r: CodeScan)
    requires p <= |s| && Sound(s, m)
    decreases |s| - p
  {
    if p == |s| then CodeScan([], [])
    else
      match m(p)
      case Some((g, e)) =>
        var rest := CodeScanFrom(s, m, e, base + 1);
        CodeScan(Block(base) + rest.text, [s[g..e]] + rest.captured)
      case None =>
        var rest := CodeScanFrom(s, m, p + 1, base);
        CodeScan([s[p]] + rest.text, rest.captured)
  }

  /** One step of the scan at `p`: a match is replaced and skipped, another character is kept. */
  lemma CodeScanAt(s: string, m: nat -> Option<(nat, nat)>, p: nat, base: nat)
    requires p < |s| && Sound(s, m)
    ensures m(p).Some? ==>
      var g, e := m(p).value.0, m(p).value.1;
      var rest := CodeScanFrom(s, m, e, base + 1);
      CodeScanFrom(s, m, p, base) == CodeScan(Block(base) + rest.text, [s[g..e]] + rest.captured)
    ensures m(p).None? ==>
      var rest := CodeScanFrom(s, m, p + 1, base);
      CodeScanFrom(s, m, p, base) == CodeScan([s[p]] + rest.text, rest.captured)
  {
  }

  /** Line 12 on the whole text, the first pass, with `codeBlocks` empty. */
  function ExtractCode(s: string): CodeScan {
    CodeScanFrom(s, CodeMatcher(s), 0, 0)
  }

  /** Every match of `m` captures text that starts with a space or a tab. */
  predicate StartsIndented(s: string, m: nat -> Option<(nat, nat)>) {
    forall q: nat :: q <= |s| && m(q).Some? && m(q).value.0 < |s| ==>
      s[m(q).value.0] == ' ' || s[m(q).value.0] == '\t'
  }

  lemma CodeMatcherStartsIndented(s: string)
    ensures StartsIndented(s, CodeMatcher(s))
  {
    forall q: nat | q <= |s| && CodeMatcher(s)(q).Some? && CodeMatcher(s)(q).value.0 < |s|
      ensures s[CodeMatcher(s)(q).value.0] == ' ' || s[CodeMatcher(s)(q).value.0] == '\t'
    {
      var g := CodeMatchAt(s, q).value.0;
      assert IndentOk(s, g);
    }
  }

  /** Every recorded block begins with the four spaces or the tab of its first line. */
  lemma CapturedIndented(s: string, p: nat, base: nat)
    requires p <= |s|
    ensures forall c :: c in CodeScanFrom(s, CodeMatcher(s), p, base).captured ==>
              |c| > 0 && (c[0] == ' ' || c[0] == '\t')
  {
    CodeMatcherStartsIndented(s);
    CapturedIndentedFrom(s, CodeMatcher(s), p, base);
  }

  lemma {:induction false} CapturedIndentedFrom(s: string, m: nat -> Option<(nat, nat)>, p: nat, base: nat)
    requires p <= |s| && Sound(s, m) && StartsIndented(s, m)
    ensures forall c :: c in CodeScanFrom(s, m, p, base).captured ==>
              |c| > 0 && (c[0] == ' ' || c[0] == '\t')
    decreases |s| - p
  {
    if p < |s| {
      CodeScanAt(s, m, p, base);
      match m(p)
      case Some((g, e)) =>
        CapturedIndentedFrom(s, m, e, base + 1);
        assert s[g..e][0] == s[g];
      case None =>
        CapturedIndentedFrom(s, m, p + 1, base);
    }
  }

  /** Where the regex matches nowhere, the text is left as it is and nothing is recorded. */
  lemma {:induction false} CodeScanNoMatch(s: string, m: nat -> Option<(nat, nat)>, p: nat, base: nat)
    requires p <= |s| && Sound(s, m)
    requires forall q: nat :: p <= q <= |s| ==> m(q).None?
    ensures CodeScanFrom(s, m, p, base) == CodeScan(s[p..], [])
    decreases |s| - p
  {
    if p < |s| {
      CodeScanNoMatch(s, m, p + 1, base);
      assert s[p..] == [s[p]] + s[p + 1..];
    }
  }

  /** The blocks recorded do not depend on the numbering. */
  lemma {:induction false} CapturedIgnoresBase(s: string, m: nat -> Option<(nat, nat)>, p: nat, base: nat, base': nat)
    requires p <= |s| && Sound(s, m)
    ensures CodeScanFrom(s, m, p, base).captured == CodeScanFrom(s, m, p, base').captured
    decreases |s| - p
  {
    if p < |s| {
      match m(p)
      case Some((g, e)) => CapturedIgnoresBase(s, m, e, base + 1, base' + 1);
      case None => CapturedIgnoresBase(s, m, p + 1, base, base');
    }
  }

  /**
   * The same scan with each match replaced directly by `u` of its capture.
   * With `u` = `Unblock` this is the reference for the round trip: each block
   * replaced by what restoring its marker puts back.
   */
  function CodeRestored(s: string, m: nat -> Option<(nat, nat)>, u: string -> string, p: nat): string
    requires p <= |s| && Sound(s, m)
    decreases |s| - p
  {
    if p == |s| then []
    else
      match m(p)
      case Some((g, e)) => u(s[g..e]) + CodeRestored(s, m, u, e)
      case None => [s[p]] + CodeRestored(s, m, u, p + 1)
  }

  /**
   * The text after the restore rounds below `n`: blocks numbered below `n`
   * are back (as `u` of their capture), the others are still markers.
   */
  function CodeMixed(s: string, m: nat -> Option<(nat, nat)>, u: string -> string, p: nat, base: nat, n: nat): string
    requires p <= |s| && Sound(s, m)
    decreases |s| - p
  {
    if p == |s| then []
    else
      match m(p)
      case Some((g, e)) => (if base < n then u(s[g..e]) else Block(base)) + CodeMixed(s, m, u, e, base + 1, n)
      case None => [s[p]] + CodeMixed(s, m, u, p + 1, base, n)
  }

  /** One step of the directly restored text at `p`. */
  lemma RestoredAt(s: string, m: nat -> Option<(nat, nat)>, u: string -> string, p: nat)
    requires p < |s| && Sound(s, m)
    ensures m(p).Some? ==>
      var g, e := m(p).value.0, m(p).value.1;
      CodeRestored(s, m, u, p) == u(s[g..e]) + CodeRestored(s, m, u, e)
    ensures m(p).None? ==> CodeRestored(s, m, u, p) == [s[p]] + CodeRestored(s, m, u, p + 1)
  {
  }

  /** One step of the partly restored text at `p`. */
  lemma MixedAt(s: string, m: nat -> Option<(nat, nat)>, u: string -> string, p: nat, base: nat, n: nat)
    requires p < |s| && Sound(s, m)
    ensures m(p).Some? ==>
      var g, e := m(p).value.0, m(p).value.1;
      CodeMixed(s, m, u, p, base, n) == (if base < n then u(s[g..e]) else Block(base)) + CodeMixed(s, m, u, e, base + 1, n)
    ensures m(p).None? ==>
      CodeMixed(s, m, u, p, base, n) == [s[p]] + CodeMixed(s, m, u, p + 1, base, n)
  {
  }

  lemma {:induction false} MixedNone(s: string, m: nat -> Option<(nat, nat)>, u: string -> string, p: nat, base: nat, n: nat)
    requires p <= |s| && Sound(s, m) && n <= base
    ensures CodeMixed(s, m, u, p, base, n) == CodeScanFrom(s, m, p, base).text
    decreases |s| - p
  {
    if p < |s| {
      MixedAt(s, m, u, p, base, n);
      CodeScanAt(s, m, p, base);
      if m(p).Some? {
        MixedNone(s, m, u, m(p).value.1, base + 1, n);
      } else {
        MixedNone(s, m, u, p + 1, base, n);
      }
    }
  }

  lemma {:induction false} MixedAll(s: string, m: nat -> Option<(nat, nat)>, u: string -> string, p: nat, base: nat, n: nat)
    requires p <= |s| && Sound(s, m) && base + |CodeScanFrom(s, m, p, base).captured| <= n
    ensures CodeMixed(s, m, u, p, base, n) == CodeRestored(s, m, u, p)
    decreases |s| - p
  {
    if p < |s| {
      MixedAt(s, m, u, p, base, n);
      RestoredAt(s, m, u, p);
      CodeScanAt(s, m, p, base);
      if m(p).Some? {
        MixedAll(s, m, u, m(p).value.1, base + 1, n);
      } else {
        MixedAll(s, m, u, p + 1, base, n);
      }
    }
  }

  lemma {:induction false} MixedBelow(s: string, m: nat -> Option<(nat, nat)>, u: string -> string, p: nat, base: nat, n: nat, n': nat)
    requires p <= |s| && Sound(s, m) && n <= base && n' <= base
    ensures CodeMixed(s, m, u, p, base, n) == CodeMixed(s, m, u, p, base, n')
    decreases |s| - p
  {
    if p < |s| {
      MixedAt(s, m, u, p, base, n);
      MixedAt(s, m, u, p, base, n');
      if m(p).Some? {
        MixedBelow(s, m, u, m(p).value.1, base + 1, n, n');
      } else {
        MixedBelow(s, m, u, p + 1, base, n, n');
      }
    }
  }

  lemma TrimLacksAt(c: string)
    requires '@' !in c
    ensures '@' !in Trim(c)
  {
    var r := Trim(c);
    assert forall x :: x in r ==> x in c;
  }

  /** Restoring a block of `@`-free text brings no `@` in. */
  lemma UnblockLacksAt()
    ensures forall c :: '@' !in c ==> '@' !in Unblock(c)
  {
    forall c | '@' !in c ensures '@' !in Unblock(c) {
      UnblockFreeOfAt(c);
    }
  }

  lemma UnblockFreeOfAt(c: string)
    requires '@' !in c
    ensures '@' !in Unblock(c)
  {
    TrimLacksAt(c);
    FramedLacksAt(Trim(c));
  }

  lemma FramedLacksAt(t: string)
    requires '@' !in t
    ensures '@' !in "\n\n" + ("\n" + t + "\n") + "\n\n"
  {
    var gap := "\n\n";
    assert '@' !in gap && '@' !in "\n";
  }

  /** Round `n` of the restore loop puts block `n` back and touches nothing else. */
  lemma CodeRestoreStep(s: string, m: nat -> Option<(nat, nat)>, p: nat, base: nat, n: nat)
    requires p <= |s| && Sound(s, m) && '@' !in s[p..]
    requires base <= n < base + |CodeScanFrom(s, m, p, base).captured|
    ensures ReplaceFirst(CodeMixed(s, m, Unblock, p, base, n), Marker(CodeBlock, n),
                         Canonical(CodeBlock, CodeScanFrom(s, m, p, base).captured[n - base]))
              == CodeMixed(s, m, Unblock, p, base, n + 1)
  {
    UnblockLacksAt();
    var pre, tail := MixedAround(s, m, Unblock, p, base, n);
    var c := CodeScanFrom(s, m, p, base).captured[n - base];
    SpliceBlock(CodeMixed(s, m, Unblock, p, base, n), pre, tail, n, Canonical(CodeBlock, c));
  }

  /** Replacing the marker of block `n` after an `@`-free prefix puts `rep` between the callback's two `\n\n`. */
  lemma SpliceBlock(t: string, pre: string, tail: string, n: nat, rep: string)
    requires '@' !in pre && t == pre + Block(n) + tail
    ensures ReplaceFirst(t, Marker(CodeBlock, n), rep) == pre + ("\n\n" + rep + "\n\n") + tail
  {
    var gap, mark := "\n\n", Marker(CodeBlock, n);
    assert Block(n) == gap + mark + gap;
    Regroup(pre, gap, mark, gap, tail);
    Regroup(pre, gap, rep, gap, tail);
    SpliceMarker(t, pre + gap, mark, rep, gap, tail);
  }

  /**
   * Where block `n` sits in the text: after an `@`-free prefix, as its marker
   * before round `n` and restored after it, with the same text on either side.
   */
  lemma {:induction false} MixedAround(s: string, m: nat -> Option<(nat, nat)>, u: string -> string, p: nat, base: nat, n: nat)
    returns (pre: string, tail: string)
    requires p <= |s| && Sound(s, m) && '@' !in s[p..]
    requires forall c :: '@' !in c ==> '@' !in u(c)
    requires base <= n < base + |CodeScanFrom(s, m, p, base).captured|
    ensures '@' !in pre
    ensures CodeMixed(s, m, u, p, base, n) == pre + Block(n) + tail
    ensures CodeMixed(s, m, u, p, base, n + 1) == pre + u(CodeScanFrom(s, m, p, base).captured[n - base]) + tail
    decreases |s| - p, 1
  {
    if m(p).Some? {
      if base == n {
        pre, tail := AroundThisMatch(s, m, u, p, base, n);
      } else {
        pre, tail := AroundLaterMatch(s, m, u, p, base, n);
      }
    } else {
      pre, tail := AroundChar(s, m, u, p, base, n);
    }
  }

  /** Block `n` is the match at `p`. */
  lemma {:induction false} AroundThisMatch(s: string, m: nat -> Option<(nat, nat)>, u: string -> string, p: nat, base: nat, n: nat)
    returns (pre: string, tail: string)
    requires p <= |s| && Sound(s, m) && '@' !in s[p..]
    requires forall c :: '@' !in c ==> '@' !in u(c)
    requires base <= n < base + |CodeScanFrom(s, m, p, base).captured|
    requires m(p).Some? && base == n
    ensures '@' !in pre
    ensures CodeMixed(s, m, u, p, base, n) == pre + Block(n) + tail
    ensures CodeMixed(s, m, u, p, base, n + 1) == pre + u(CodeScanFrom(s, m, p, base).captured[n - base]) + tail
    decreases |s| - p, 0
  {
    var caps := CodeScanFrom(s, m, p, base).captured;
    CodeScanAt(s, m, p, base);
    var g, e := m(p).value.0, m(p).value.1;
    assert caps[n - base] == s[g..e];
    MixedHere(s, m, u, p, n);
    MixedBelow(s, m, u, e, n + 1, n, n + 1);
    pre, tail := [], CodeMixed(s, m, u, e, n + 1, n);
    EmptyLead(Block(n), tail);
    EmptyLead(u(s[g..e]), tail);
  }

  /** The match at `p` is block `n`: before round `n` it is the marker, after it the restored block. */
  lemma MixedHere(s: string, m: nat -> Option<(nat, nat)>, u: string -> string, p: nat, n: nat)
    requires p < |s| && Sound(s, m) && m(p).Some?
    ensures
      var g, e := m(p).value.0, m(p).value.1;
      && CodeMixed(s, m, u, p, n, n) == Block(n) + CodeMixed(s, m, u, e, n + 1, n)
      && CodeMixed(s, m, u, p, n, n + 1) == u(s[g..e]) + CodeMixed(s, m, u, e, n + 1, n + 1)
  {
  }

  /** The match at `p` is numbered below `n`: rounds `n` and `n + 1` both find it restored. */
  lemma MixedEarlier(s: string, m: nat -> Option<(nat, nat)>, u: string -> string, p: nat, base: nat, n: nat)
    requires p < |s| && Sound(s, m) && m(p).Some? && base < n
    ensures
      var g, e := m(p).value.0, m(p).value.1;
      && CodeMixed(s, m, u, p, base, n) == u(s[g..e]) + CodeMixed(s, m, u, e, base + 1, n)
      && CodeMixed(s, m, u, p, base, n + 1) == u(s[g..e]) + CodeMixed(s, m, u, e, base + 1, n + 1)
  {
  }

  lemma ConsIndex<T>(x: T, r: seq<T>, i: nat)
    requires 0 < i <= |r|
    ensures ([x] + r)[i] == r[i - 1]
  {
  }

  lemma EmptyLead(x: string, t: string)
    ensures [] + x + t == x + t
  {
  }

  /** Block `n` comes after the match at `p`. */
  lemma {:induction false} AroundLaterMatch(s: string, m: nat -> Option<(nat, nat)>, u: string -> string, p: nat, base: nat, n: nat)
    returns (pre: string, tail: string)
    requires p <= |s| && Sound(s, m) && '@' !in s[p..]
    requires forall c :: '@' !in c ==> '@' !in u(c)
    requires base <= n < base + |CodeScanFrom(s, m, p, base).captured|
    requires m(p).Some? && base < n
    ensures '@' !in pre
    ensures CodeMixed(s, m, u, p, base, n) == pre + Block(n) + tail
    ensures CodeMixed(s, m, u, p, base, n + 1) == pre + u(CodeScanFrom(s, m, p, base).captured[n - base]) + tail
    decreases |s| - p, 0
  {
    var caps := CodeScanFrom(s, m, p, base).captured;
    CodeScanAt(s, m, p, base);
    MixedEarlier(s, m, u, p, base, n);
    var g, e := m(p).value.0, m(p).value.1;
    var c := s[g..e];
    InfixLacksAt(s, p, g, e);
    InfixLacksAt(s, p, e, |s|);
    var rest := CodeScanFrom(s, m, e, base + 1).captured;
    ConsIndex(c, rest, n - base);
    var pre', tail' := MixedAround(s, m, u, e, base + 1, n);
    pre, tail := u(c) + pre', tail';
    Prepend(u(c), pre', Block(n), tail', CodeMixed(s, m, u, e, base + 1, n));
    Prepend(u(c), pre', u(caps[n - base]), tail', CodeMixed(s, m, u, e, base + 1, n + 1));
  }

  /** Block `n` comes after the kept character at `p`. */
  lemma {:induction false} AroundChar(s: string, m: nat -> Option<(nat, nat)>, u: string -> string, p: nat, base: nat, n: nat)
    returns (pre: string, tail: string)
    requires p <= |s| && Sound(s, m) && '@' !in s[p..]
    requires forall c :: '@' !in c ==> '@' !in u(c)
    requires base <= n < base + |CodeScanFrom(s, m, p, base).captured|
    requires m(p).None?
    ensures '@' !in pre
    ensures CodeMixed(s, m, u, p, base, n) == pre + Block(n) + tail
    ensures CodeMixed(s, m, u, p, base, n + 1) == pre + u(CodeScanFrom(s, m, p, base).captured[n - base]) + tail
    decreases |s| - p, 0
  {
    var caps := CodeScanFrom(s, m, p, base).captured;
    CodeScanAt(s, m, p, base);
    MixedAt(s, m, u, p, base, n);
    MixedAt(s, m, u, p, base, n + 1);
    InfixLacksAt(s, p, p + 1, |s|);
    var pre', tail' := MixedAround(s, m, u, p + 1, base, n);
    pre, tail := [s[p]] + pre', tail';
    Prepend([s[p]], pre', Block(n), tail', CodeMixed(s, m, u, p + 1, base, n));
    Prepend([s[p]], pre', u(caps[n - base]), tail', CodeMixed(s, m, u, p + 1, base, n + 1));
  }

  /** A piece of an `@`-free suffix is `@`-free. */
  lemma InfixLacksAt(s: string, p: nat, i: nat, j: nat)
    requires p <= i <= j <= |s| && '@' !in s[p..]
    ensures '@' !in s[i..j]
  {
    assert forall x :: x in s[i..j] ==> x in s[p..];
  }

  lemma Prepend(v: string, a: string, x: string, b: string, t: string)
    requires t == a + x + b
    ensures v + t == (v + a) + x + b
  {
  }

  lemma Regroup(pre: string, a: string, b: string, c: string, tail: string)
    ensures pre + (a + b + c) + tail == (pre + a) + b + c + tail
  {
  }

  lemma Reassociate(v: string, a: string, b: string, c: string)
    ensures v + (a + b + c) == (v + a) + b + c
  {
  }

  /**
   * Extracting code blocks and then running the code-block restore loop over
   * every entry replaces each block by `\n\n\n<block trimmed>\n\n\n`, provided
   * the text holds no `@` of its own.
   */
  lemma CodeRoundTrip(s: string)
    requires '@' !in s
    ensures
      var scan := ExtractCode(s);
      RestoredUpTo(scan.text, CodeBlock, scan.captured, |scan.captured|) == CodeRestored(s, CodeMatcher(s), Unblock, 0)
  {
    var scan := ExtractCode(s);
    CodeRestoredUpTo(s, |scan.captured|);
    MixedAll(s, CodeMatcher(s), Unblock, 0, 0, |scan.captured|);
  }

  lemma CodeRestoredUpTo(s: string, n: nat)
    requires '@' !in s
    requires n <= |ExtractCode(s).captured|
    ensures
      var scan := ExtractCode(s);
      RestoredUpTo(scan.text, CodeBlock, scan.captured, n) == CodeMixed(s, CodeMatcher(s), Unblock, 0, 0, n)
  {
    MixedUpTo(s, CodeMatcher(s), n);
  }

  /** After `n` rounds of the restore loop, blocks below `n` are back, for any sound table of matches. */
  lemma MixedUpTo(s: string, m: nat -> Option<(nat, nat)>, n: nat)
    requires '@' !in s && Sound(s, m)
    requires n <= |CodeScanFrom(s, m, 0, 0).captured|
    ensures
      var scan := CodeScanFrom(s, m, 0, 0);
      RestoredUpTo(scan.text, CodeBlock, scan.captured, n) == CodeMixed(s, m, Unblock, 0, 0, n)
  {
    var scan := CodeScanFrom(s, m, 0, 0);
    var texts := seq(n + 1, (j: nat) => CodeMixed(s, m, Unblock, 0, 0, j));
    MixedNone(s, m, Unblock, 0, 0, 0);
    assert s[0..] == s;
    MixedSteps(s, m, n);
    assert forall j :: 0 <= j <= n ==> texts[j] == CodeMixed(s, m, Unblock, 0, 0, j);
    RestoredUpToChain(scan.text, CodeBlock, scan.captured, n, texts);
  }

  /** Every round of the restore loop below `n` restores the next block. */
  lemma MixedSteps(s: string, m: nat -> Option<(nat, nat)>, n: nat)
    requires '@' !in s && Sound(s, m)
    requires n <= |CodeScanFrom(s, m, 0, 0).captured|
    ensures forall j :: 0 <= j < n ==>
      ReplaceFirst(CodeMixed(s, m, Unblock, 0, 0, j), Marker(CodeBlock, j), Canonical(CodeBlock, CodeScanFrom(s, m, 0, 0).captured[j]))
        == CodeMixed(s, m, Unblock, 0, 0, j + 1)
  {
    assert s[0..] == s;
    forall j | 0 <= j < n
      ensures ReplaceFirst(CodeMixed(s, m, Unblock, 0, 0, j), Marker(CodeBlock, j), Canonical(CodeBlock, CodeScanFrom(s, m, 0, 0).captured[j]))
        == CodeMixed(s, m, Unblock, 0, 0, j + 1)
    {
      CodeRestoreStep(s, m, 0, 0, j);
    }
  }

  /** `\A` is the letter `A`: an indented line right after an `A` is taken as a block, and the `A` disappears. */
  lemma LetterAQuirk()
    ensures ExtractCode("A\tx") == CodeScan(Block(0), ["\tx"])
  {
    LetterAMatch();
    LetterAScan("A\tx", CodeMatcher("A\tx"));
  }

  /** The regex matches at the `A`, capturing the indented line after it. */
  lemma LetterAMatch()
    ensures CodeMatcher("A\tx")(0) == Some((1, 3))
  {
    var s := "A\tx";
    assert Run(s, 1, ' ') == 0;
    assert IndentOk(s, 1);
    assert BreakIndex(s[1..]) == 2 by {
      assert s[1..] == "\tx" && s[1..][1..] == "x" && "x"[1..] == [];
    }
    assert LineStep(s, 1) == 3;
    assert RunEnd(s, 3) == 3;
    assert RunEnd(s, 1) == 3;
    assert PrefixEnd(s, 0) == 1;
    assert CodeMatchAt(s, 0) == Some((1, 3));
  }

  /** The scan of `A\tx` under any matcher that takes the line after the `A` from position 0. */
  lemma LetterAScan(s: string, m: nat -> Option<(nat, nat)>)
    requires s == "A\tx" && Sound(s, m) && m(0) == Some((1, 3))
    ensures CodeScanFrom(s, m, 0, 0) == CodeScan(Block(0), ["\tx"])
  {
    CodeScanAt(s, m, 0, 0);
    assert CodeScanFrom(s, m, 3, 1) == CodeScan([], []);
    assert s[1..3] == "\tx";
  }

  /** A block at the very start of the text has no `\n\n` before it and is not extracted. */
  lemma StartQuirk()
    ensures ExtractCode("    x") == CodeScan("    x", [])
  {
    var s := "    x";
    forall q: nat | q <= |s| ensures CodeMatcher(s)(q).None? {
      assert q < |s| ==> s[q] == ' ' || s[q] == 'x';
      assert q + 2 <= |s| ==> s[q..q + 2][0] == s[q];
      assert PrefixEnd(s, q) == q;
    }
    CodeScanNoMatch(s, CodeMatcher(s), 0, 0);
  }

  /** Four spaces before `- ` are refused by the guard, five are not. */
  lemma ListItemQuirk()
    ensures !IndentOk("    - a", 0)
    ensures IndentOk("     - a", 0)
  {
    assert Run("    - a", 0, ' ') == 4;
    assert Run("     - a", 0, ' ') == 5;
  }
}
