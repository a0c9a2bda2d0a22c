/**
 * Syntax standardisation, format-markdown.js lines 41-44: `__bold__` becomes
 * `**bold**`, `*italic*` becomes `_italic_`, a `---` line becomes `* * *`,
 * and a line-leading `* ` bullet becomes `- `. The first two are global
 * scans over the whole text, written out here as the regular-expression
 * engine runs them (leftmost match first, lazy `.*?`, resuming after each
 * match); the last two act line by line.
 */
module Normalize {
  import opened JsText
  import opened RegexLines

  // ---------------------------------------------------------------------
  // Line 41: /__(.*?)__/g  ->  '**$1**'
  // ---------------------------------------------------------------------

  predicate UnderscorePairAt(s: string, j: int) {
    0 <= j && j + 2 <= |s| && s[j] == '_' && s[j + 1] == '_'
  }

  /**
   * The lazy `.*?__` started at `q`: the first `__` at or after `q` that no
   * line terminator precedes, if there is one.
   */
  function BoldClose(s: string, q: nat): (r: Option<nat>)
    ensures r.Some? ==> q <= r.value && UnderscorePairAt(s, r.value) && NoBreak(s[q..r.value])
    ensures forall j :: q <= j <= |s| && NoBreak(s[q..j]) && (r.None? || j < r.value) ==> !UnderscorePairAt(s, j)
    decreases |s| - q
  {
    if UnderscorePairAt(s, q) then Some(q)
    else if q >= |s| || IsLineTerminator(s[q]) then None
    else
      var r := BoldClose(s, q + 1);
      assert forall j :: q + 1 <= j <= |s| && NoBreak(s[q..j]) ==> NoBreak(s[q + 1..j]) by {
        forall j | q + 1 <= j <= |s| && NoBreak(s[q..j]) ensures NoBreak(s[q + 1..j]) {
          assert forall i :: q + 1 <= i < j ==> s[i] == s[q..j][i - q];
        }
      }
      assert r.Some? ==> s[q..r.value] == [s[q]] + s[q + 1..r.value];
      r
  }

  /** Where the bold match that starts at `p` closes, if one starts there. */
  function BoldMatch(s: string, p: nat): Option<nat> {
    if UnderscorePairAt(s, p) then BoldClose(s, p + 2) else None
  }

  /** An underscore that belongs to a `__` pair: the only characters line 41 ever rewrites. */
  predicate InUnderscorePair(s: string, i: int) {
    UnderscorePairAt(s, i) || UnderscorePairAt(s, i - 1)
  }

  /** The global replace of line 41 from position `p` on. */
  function BoldFrom(s: string, p: nat): (r: string)
    requires p <= |s|
    ensures |r| == |s| - p
    decreases |s| - p
  {
    if p == |s| then []
    else
      match BoldMatch(s, p)
      case Some(q) => "**" + s[p + 2..q] + "**" + BoldFrom(s, q + 2)
      case None => [s[p]] + BoldFrom(s, p + 1)
  }

  function Bold(s: string): string {
    BoldFrom(s, 0)
  }

  /** Line 41 changes no length and rewrites only underscores of `__` pairs, each into `*`. */
  lemma BoldPointwise(s: string)
    ensures |Bold(s)| == |s|
    ensures forall i :: 0 <= i < |s| ==> Bold(s)[i] == s[i] || (Bold(s)[i] == '*' && InUnderscorePair(s, i))
  {
    BoldFromPointwise(s, 0);
    var r := Bold(s);
    assert forall i :: 0 <= i < |s| ==> r[i] == s[0 + i] || (r[i] == '*' && InUnderscorePair(s, 0 + i));
  }

  /** `r`, the output of line 41 for `s` from `p`, agrees with `s` from `p` on except at underscores of `__` pairs, which may be stars. */
  predicate BoldOk(s: string, p: nat, r: string)
    requires p + |r| <= |s|
  {
    forall k :: 0 <= k < |r| ==> r[k] == s[p + k] || (r[k] == '*' && InUnderscorePair(s, p + k))
  }

  lemma BoldOkAppend(s: string, p: nat, x: string, y: string)
    requires p + |x| + |y| <= |s| && BoldOk(s, p, x) && BoldOk(s, p + |x|, y)
    ensures BoldOk(s, p, x + y)
  {
    forall k | 0 <= k < |x + y| ensures (x + y)[k] == s[p + k] || ((x + y)[k] == '*' && InUnderscorePair(s, p + k)) {
      if k >= |x| {
        assert (x + y)[k] == y[k - |x|];
      }
    }
  }

  lemma BoldOkCopy(s: string, p: nat, q: nat)
    requires p <= q <= |s|
    ensures BoldOk(s, p, s[p..q])
  {
  }

  lemma BoldOkStars(s: string, j: nat)
    requires UnderscorePairAt(s, j)
    ensures BoldOk(s, j, "**")
  {
    assert InUnderscorePair(s, j) && InUnderscorePair(s, j + 1);
  }

  lemma {:induction false} BoldFromPointwise(s: string, p: nat)
    requires p <= |s|
    ensures BoldOk(s, p, BoldFrom(s, p))
    decreases |s| - p, 1
  {
    if p < |s| {
      if BoldMatch(s, p).Some? {
        BoldPointwiseMatch(s, p);
      } else {
        BoldPointwiseChar(s, p);
      }
    }
  }

  /** No bold match at `p`: the character is copied. */
  lemma {:induction false} BoldPointwiseChar(s: string, p: nat)
    requires p < |s| && BoldMatch(s, p).None?
    ensures BoldOk(s, p, BoldFrom(s, p))
    decreases |s| - p, 0
  {
    BoldCharAt(s, p);
    BoldFromPointwise(s, p + 1);
    BoldOkChar(s, p);
    BoldOkAppend(s, p, [s[p]], BoldFrom(s, p + 1));
  }

  lemma BoldOkChar(s: string, p: nat)
    requires p < |s|
    ensures BoldOk(s, p, [s[p]])
  {
    BoldOkCopy(s, p, p + 1);
    assert s[p..p + 1] == [s[p]];
  }

  /** A bold match at `p`: its four underscores become stars, the text between is copied. */
  lemma {:induction false} BoldPointwiseMatch(s: string, p: nat)
    requires p < |s| && BoldMatch(s, p).Some?
    ensures BoldOk(s, p, BoldFrom(s, p))
    decreases |s| - p, 0
  {
    var q := BoldMatch(s, p).value;
    BoldMatchAt(s, p);
    BoldFromPointwise(s, q + 2);
    var mid := s[p + 2..q];
    BoldOkStars(s, p);
    BoldOkCopy(s, p + 2, q);
    BoldOkAppend(s, p, "**", mid);
    BoldOkStars(s, q);
    BoldOkAppend(s, p, "**" + mid, "**");
    BoldOkAppend(s, p, "**" + mid + "**", BoldFrom(s, q + 2));
  }

  /** One step of line 41 at a match. */
  lemma BoldMatchAt(s: string, p: nat)
    requires p < |s| && BoldMatch(s, p).Some?
    ensures UnderscorePairAt(s, p) && UnderscorePairAt(s, BoldMatch(s, p).value)
    ensures BoldFrom(s, p) == "**" + s[p + 2..BoldMatch(s, p).value] + "**" + BoldFrom(s, BoldMatch(s, p).value + 2)
  {
  }

  /** One step of line 41 where no match starts. */
  lemma BoldCharAt(s: string, p: nat)
    requires p < |s| && BoldMatch(s, p).None?
    ensures BoldFrom(s, p) == [s[p]] + BoldFrom(s, p + 1)
  {
  }

  /** Positions where no bold match starts are copied as they are. */
  lemma {:induction false} BoldCopies(s: string, p: nat, q: nat)
    requires p <= q <= |s|
    requires forall j :: p <= j < q ==> BoldMatch(s, j).None?
    ensures BoldFrom(s, p) == s[p..q] + BoldFrom(s, q)
    decreases q - p
  {
    if p < q {
      assert BoldMatch(s, p).None?;
      BoldCharAt(s, p);
      BoldCopies(s, p + 1, q);
      Assoc3([s[p]], s[p + 1..q], BoldFrom(s, q));
      SliceCons(s, p, q);
    }
  }

  lemma Assoc3(a: string, b: string, c: string)
    ensures a + (b + c) == (a + b) + c
  {
  }

  /** A text without `__` is left as it is. */
  lemma BoldNoPair(s: string)
    requires forall j :: 0 <= j < |s| ==> !UnderscorePairAt(s, j)
    ensures Bold(s) == s
  {
    BoldCopies(s, 0, |s|);
  }

  lemma BoldExample()
    ensures Bold("__a__") == "**a**"
  {
    var s := "__a__";
    assert UnderscorePairAt(s, 3) && !UnderscorePairAt(s, 2);
    assert BoldClose(s, 2) == Some(3);
    assert BoldFrom(s, 5) == [];
  }

  /**
   * Wherever the scan of line 41 reaches a `__` at `p` and the next `__` is
   * at `c`, with no underscore and no terminator between them, it writes the
   * text between them in `**` and goes on after the second pair.
   */
  lemma BoldWrapsAt(s: string, p: nat, c: nat)
    requires p + 2 <= c && UnderscorePairAt(s, p) && UnderscorePairAt(s, c)
    requires NoBreak(s[p + 2..c]) && forall k :: p + 2 <= k < c ==> s[k] != '_'
    ensures BoldFrom(s, p) == "**" + s[p + 2..c] + "**" + BoldFrom(s, c + 2)
  {
    BoldCloseAt(s, p + 2, c);
    BoldStep(s, p, c, c + 2);
  }

  /** The lazy `.*?__` from `q` closes at the first `__` when no underscore and no terminator come before it. */
  lemma BoldCloseAt(s: string, q: nat, c: nat)
    requires q <= c && UnderscorePairAt(s, c) && NoBreak(s[q..c])
    requires forall k :: q <= k < c ==> s[k] != '_'
    ensures BoldClose(s, q) == Some(c)
  {
    var r := BoldClose(s, q);
    assert r.Some? && r.value <= c;
    assert s[r.value] == '_';
  }

  /** In particular `__x__` on its own becomes `**x**` when `x` stays on one line and holds no underscore. */
  lemma BoldWraps(x: string)
    requires NoBreak(x) && forall j :: 0 <= j < |x| ==> x[j] != '_'
    ensures Bold("__" + x + "__") == "**" + x + "**"
  {
    var s := "__" + x + "__";
    var c := |x| + 2;
    assert forall k :: 0 <= k < |x| ==> s[2 + k] == x[k];
    assert s[2..c] == x;
    BoldWrapsAt(s, 0, c);
    assert BoldFrom(s, c + 2) == [];
  }

  /** One step of line 41 at a match that closes at `c`, going on at `t`. */
  lemma BoldStep(s: string, p: nat, c: nat, t: nat)
    requires p < |s| && BoldMatch(s, p) == Some(c) && t == c + 2
    ensures p + 2 <= c && t <= |s|
    ensures BoldFrom(s, p) == "**" + s[p + 2..c] + "**" + BoldFrom(s, t)
  {
    BoldMatchAt(s, p);
  }

  /** `.` never crosses a line: an unclosed `__` on one line is not closed on the next. */
  lemma BoldStaysOnItsLine()
    ensures Bold("__a\nb__") == "__a\nb__"
  {
    var s := "__a\nb__";
    assert BoldClose(s, 2) == None by {
      assert !UnderscorePairAt(s, 2) && !UnderscorePairAt(s, 3) && IsLineTerminator(s[3]);
    }
    assert forall j :: 1 <= j < 5 ==> !UnderscorePairAt(s, j);
    assert BoldMatch(s, 5) == BoldClose(s, 7) == None;
    assert BoldMatch(s, 6) == None;
    BoldCopies(s, 0, |s|);
    assert s[..|s|] == s;
  }

  // ---------------------------------------------------------------------
  // Line 42: /(?<!\*)\*([^\s\*].*?[^\s\*])\*(?!\*)/g  ->  '_$1_'
  // ---------------------------------------------------------------------

  predicate Plain(c: char) {
    !IsSpace(c) && c != '*'
  }

  /** A `*` that may open an italic: no `*` before it, a `[^\s*]` after it. */
  predicate OpenerAt(s: string, p: int) {
    0 <= p && p + 1 < |s| && s[p] == '*' && (p == 0 || s[p - 1] != '*') && Plain(s[p + 1])
  }

  /** A `*` that may close an italic: a `[^\s*]` before it, no `*` after it. */
  predicate CloserAt(s: string, e: int) {
    1 <= e < |s| && s[e] == '*' && Plain(s[e - 1]) && (e + 1 == |s| || s[e + 1] != '*')
  }

  /**
   * The lazy `.*?[^\s*]\*(?!\*)` tried at closing positions `e`, `e + 1`, ...:
   * the first closer such that no line terminator lies in `s[e - 1..]` before it.
   */
  function ItalicClose(s: string, e: nat): (r: Option<nat>)
    requires e >= 1
    ensures r.Some? ==> e <= r.value && CloserAt(s, r.value) && NoBreak(s[e - 1..r.value - 1])
    ensures forall j :: e <= j <= |s| && NoBreak(s[e - 1..j - 1]) && (r.None? || j < r.value) ==> !CloserAt(s, j)
    decreases |s| - e
  {
    if e >= |s| then None
    else if CloserAt(s, e) then Some(e)
    else if IsLineTerminator(s[e - 1]) then None
    else
      var r := ItalicClose(s, e + 1);
      forall j | e <= j <= |s| && NoBreak(s[e - 1..j - 1]) && (r.None? || j < r.value)
        ensures !CloserAt(s, j)
      {
        if j > e {
          assert forall i :: e <= i < j - 1 ==> s[i] == s[e - 1..j - 1][i - e + 1];
          assert NoBreak(s[e..j - 1]);
        }
      }
      assert r.Some? ==> s[e - 1..r.value - 1] == [s[e - 1]] + s[e..r.value - 1];
      r
  }

  /**
   * Where the italic match that starts at `p` closes, if one starts there:
   * the captured group is `s[p + 1..e]`, at least two characters long.
   */
  function ItalicMatch(s: string, p: nat): Option<nat> {
    if OpenerAt(s, p) then ItalicClose(s, p + 3) else None
  }

  /** The global replace of line 42 from position `p` on. */
  function ItalicFrom(s: string, p: nat): (r: string)
    requires p <= |s|
    ensures |r| == |s| - p
    decreases |s| - p
  {
    if p == |s| then []
    else
      match ItalicMatch(s, p)
      case Some(e) => "_" + s[p + 1..e] + "_" + ItalicFrom(s, e + 1)
      case None => [s[p]] + ItalicFrom(s, p + 1)
  }

  function Italic(s: string): string {
    ItalicFrom(s, 0)
  }

  /** Line 42 changes no length and rewrites only opening or closing stars, each into `_`. */
  lemma ItalicPointwise(s: string)
    ensures |Italic(s)| == |s|
    ensures forall i :: 0 <= i < |s| ==>
      Italic(s)[i] == s[i] || (Italic(s)[i] == '_' && (OpenerAt(s, i) || CloserAt(s, i)))
  {
    ItalicFromPointwise(s, 0);
    var r := Italic(s);
    assert forall i :: 0 <= i < |s| ==> r[i] == s[0 + i] || (r[i] == '_' && (OpenerAt(s, 0 + i) || CloserAt(s, 0 + i)));
  }

  /** `r`, the output of line 42 for `s` from `p`, agrees with `s` from `p` on except at opening or closing stars, which may be underscores. */
  predicate ItalicOk(s: string, p: nat, r: string)
    requires p + |r| <= |s|
  {
    forall k :: 0 <= k < |r| ==> r[k] == s[p + k] || (r[k] == '_' && (OpenerAt(s, p + k) || CloserAt(s, p + k)))
  }

  lemma ItalicOkAppend(s: string, p: nat, x: string, y: string)
    requires p + |x| + |y| <= |s| && ItalicOk(s, p, x) && ItalicOk(s, p + |x|, y)
    ensures ItalicOk(s, p, x + y)
  {
    forall k | 0 <= k < |x + y|
      ensures (x + y)[k] == s[p + k] || ((x + y)[k] == '_' && (OpenerAt(s, p + k) || CloserAt(s, p + k)))
    {
      if k >= |x| {
        assert (x + y)[k] == y[k - |x|];
      }
    }
  }

  lemma ItalicOkCopy(s: string, p: nat, q: nat)
    requires p <= q <= |s|
    ensures ItalicOk(s, p, s[p..q])
  {
  }

  lemma ItalicOkUnderscore(s: string, j: nat)
    requires OpenerAt(s, j) || CloserAt(s, j)
    ensures ItalicOk(s, j, "_")
  {
    assert OpenerAt(s, j + 0) || CloserAt(s, j + 0);
  }

  lemma {:induction false} ItalicFromPointwise(s: string, p: nat)
    requires p <= |s|
    ensures ItalicOk(s, p, ItalicFrom(s, p))
    decreases |s| - p, 1
  {
    if p < |s| {
      if ItalicMatch(s, p).Some? {
        ItalicPointwiseMatch(s, p);
      } else {
        ItalicPointwiseChar(s, p);
      }
    }
  }

  /** No italic match at `p`: the character is copied. */
  lemma {:induction false} ItalicPointwiseChar(s: string, p: nat)
    requires p < |s| && ItalicMatch(s, p).None?
    ensures ItalicOk(s, p, ItalicFrom(s, p))
    decreases |s| - p, 0
  {
    ItalicCharAt(s, p);
    ItalicFromPointwise(s, p + 1);
    ItalicOkChar(s, p);
    ItalicOkAppend(s, p, [s[p]], ItalicFrom(s, p + 1));
  }

  lemma ItalicOkChar(s: string, p: nat)
    requires p < |s|
    ensures ItalicOk(s, p, [s[p]])
  {
    ItalicOkCopy(s, p, p + 1);
    assert s[p..p + 1] == [s[p]];
  }

  /** An italic match at `p`: its opening and closing stars become underscores, the text between is copied. */
  lemma {:induction false} ItalicPointwiseMatch(s: string, p: nat)
    requires p < |s| && ItalicMatch(s, p).Some?
    ensures ItalicOk(s, p, ItalicFrom(s, p))
    decreases |s| - p, 0
  {
    var e := ItalicMatch(s, p).value;
    ItalicMatchAt(s, p);
    ItalicFromPointwise(s, e + 1);
    var mid := s[p + 1..e];
    ItalicOkUnderscore(s, p);
    ItalicOkCopy(s, p + 1, e);
    ItalicOkAppend(s, p, "_", mid);
    ItalicOkUnderscore(s, e);
    ItalicOkAppend(s, p, "_" + mid, "_");
    ItalicOkAppend(s, p, "_" + mid + "_", ItalicFrom(s, e + 1));
  }

  /** One step of line 42 at a match. */
  lemma ItalicMatchAt(s: string, p: nat)
    requires p < |s| && ItalicMatch(s, p).Some?
    ensures ItalicMatch(s, p).value < |s|
    ensures OpenerAt(s, p) && CloserAt(s, ItalicMatch(s, p).value)
    ensures ItalicFrom(s, p) == "_" + s[p + 1..ItalicMatch(s, p).value] + "_" + ItalicFrom(s, ItalicMatch(s, p).value + 1)
  {
  }

  /** One step of line 42 where no match starts. */
  lemma ItalicCharAt(s: string, p: nat)
    requires p < |s| && ItalicMatch(s, p).None?
    ensures ItalicFrom(s, p) == [s[p]] + ItalicFrom(s, p + 1)
  {
  }

  /** A star next to another star, as in `**bold**`, is never rewritten. */
  lemma ItalicKeepsDoubleStars(s: string, i: nat)
    requires i < |s| && s[i] == '*'
    requires (i > 0 && s[i - 1] == '*') || (i + 1 < |s| && s[i + 1] == '*')
    ensures Italic(s)[i] == '*'
  {
    ItalicPointwise(s);
  }

  /** A star with white space or the text boundary on both sides, as in `* * *`, is never rewritten. */
  lemma ItalicKeepsLoneStars(s: string, i: nat)
    requires i < |s| && s[i] == '*'
    requires i == 0 || IsSpace(s[i - 1])
    requires i + 1 == |s| || IsSpace(s[i + 1])
    ensures Italic(s)[i] == '*'
  {
    ItalicPointwise(s);
  }

  lemma ItalicExample()
    ensures Italic("*ab*") == "_ab_"
  {
    var s := "*ab*";
    assert OpenerAt(s, 0) && CloserAt(s, 3);
    assert ItalicClose(s, 3) == Some(3);
    assert ItalicFrom(s, 4) == [];
  }

  /**
   * A body that line 42 takes whole between its two stars: two or more
   * characters on one line, `[^\s*]` at both ends, and no star inside that
   * could close the match earlier.
   */
  predicate ItalicBody(x: string) {
    && |x| >= 2 && Plain(x[0]) && Plain(x[|x| - 1]) && NoBreak(x)
    && forall i :: 2 <= i < |x| - 1 ==> !(x[i] == '*' && Plain(x[i - 1]) && x[i + 1] != '*')
  }

  /**
   * Wherever the scan of line 42 reaches an opening star at `p` and the first
   * closing star at or after `p + 3` is at `e`, with no terminator between
   * them, it writes the text between them in `_` and goes on after `e`.
   */
  lemma ItalicWrapsAt(s: string, p: nat, e: nat)
    requires p + 3 <= e && OpenerAt(s, p) && CloserAt(s, e) && NoBreak(s[p + 2..e - 1])
    requires forall k :: p + 3 <= k < e ==> !CloserAt(s, k)
    ensures ItalicFrom(s, p) == "_" + s[p + 1..e] + "_" + ItalicFrom(s, e + 1)
  {
    ItalicCloseAt(s, p + 3, e);
    ItalicStep(s, p, e, e + 1);
  }

  /** The lazy closing part from `e0` stops at the first closer when no terminator comes before it. */
  lemma ItalicCloseAt(s: string, e0: nat, e: nat)
    requires 1 <= e0 <= e && CloserAt(s, e) && NoBreak(s[e0 - 1..e - 1])
    requires forall k :: e0 <= k < e ==> !CloserAt(s, k)
    ensures ItalicClose(s, e0) == Some(e)
  {
    var r := ItalicClose(s, e0);
    assert r.Some? && r.value <= e;
  }

  /** In particular `*x*` on its own becomes `_x_` for such a body. */
  lemma ItalicWraps(x: string)
    requires ItalicBody(x)
    ensures Italic("*" + x + "*") == "_" + x + "_"
  {
    var s := "*" + x + "*";
    var e := |x| + 1;
    ItalicWrapChars(s, x);
    ItalicWrapsAt(s, 0, e);
    assert ItalicFrom(s, e + 1) == [];
  }

  /** What `*x*` holds, position by position. */
  lemma ItalicWrapChars(s: string, x: string)
    requires s == "*" + x + "*" && ItalicBody(x)
    ensures OpenerAt(s, 0) && CloserAt(s, |x| + 1)
    ensures s[1..|x| + 1] == x && NoBreak(s[2..|x|])
    ensures forall k :: 3 <= k < |x| + 1 ==> !CloserAt(s, k)
  {
    assert forall k :: 0 <= k < |x| ==> s[1 + k] == x[k];
    assert s[1..|x| + 1] == x;
    assert NoBreak(s[2..|x|]) by {
      assert forall k :: 2 <= k < |x| ==> s[k] == x[k - 1];
    }
    forall k | 3 <= k < |x| + 1 ensures !CloserAt(s, k) {
      var i := k - 1;
      assert s[k] == x[i] && s[k - 1] == x[i - 1];
      if i + 1 < |x| {
        assert s[k + 1] == x[i + 1];
      }
    }
  }

  /** One step of line 42 at a match that closes at `e`, going on at `t`. */
  lemma ItalicStep(s: string, p: nat, e: nat, t: nat)
    requires p < |s| && ItalicMatch(s, p) == Some(e) && t == e + 1
    ensures p + 1 <= e < |s| && t <= |s|
    ensures ItalicFrom(s, p) == "_" + s[p + 1..e] + "_" + ItalicFrom(s, t)
  {
    ItalicMatchAt(s, p);
  }

  /** The captured group needs two characters, so a one-letter italic such as `*a*` is kept. */
  lemma ItalicNeedsTwoCharacters()
    ensures Italic("*a*") == "*a*"
  {
    var s := "*a*";
    assert ItalicClose(s, 3) == None;
    assert !OpenerAt(s, 1) && !OpenerAt(s, 2);
    assert ItalicFrom(s, 3) == [];
    assert ItalicFrom(s, 2) == [s[2]];
    assert ItalicFrom(s, 1) == [s[1]] + [s[2]];
  }

  // ---------------------------------------------------------------------
  // Line 43: /^---$/gm  ->  '* * *'
  // ---------------------------------------------------------------------

  function HrLine(b: string): string {
    if b == "---" then "* * *" else b
  }

  // ---------------------------------------------------------------------
  // Line 44: /^(\s*)\* (?! ?\* ?\*)/gm  ->  '$1- '
  // ---------------------------------------------------------------------

  /** The negative lookahead ` ?\* ?\*` would match at the start of `r`. */
  predicate RuleAhead(r: string) {
    || (|r| >= 2 && r[..2] == "**")
    || (|r| >= 3 && (r[..3] == "* *" || r[..3] == " **"))
    || (|r| >= 4 && r[..4] == " * *")
  }

  /**
   * One line of the bullet rewrite: after the leading white space, a `* `
   * not followed by what would make a rule becomes `- `. Inside one line
   * `\s*` cannot reach a terminator, and a match that starts on a blank line
   * and runs through terminators rewrites the same `* ` as this one does.
   */
  function BulletLine(b: string): (r: string)
    ensures |r| == |b|
    ensures forall i :: 0 <= i < |b| && i != LeadingSpace(b) ==> r[i] == b[i]
  {
    var k := LeadingSpace(b);
    if k + 2 <= |b| && b[k] == '*' && b[k + 1] == ' ' && !RuleAhead(b[k + 2..]) then
      b[..k] + "-" + b[k + 1..]
    else b
  }

  /**
   * The bullet rule as the pattern reads: a line is rewritten exactly when it
   * is white space, `* `, and a rest that does not start a rule; then the
   * white space and the rest are kept and only the `*` becomes `-`.
   */
  lemma BulletRewrites(w: string, rest: string)
    requires AllSpace(w)
    ensures BulletLine(w + "* " + rest) == (if RuleAhead(rest) then w + "* " + rest else w + "- " + rest)
  {
    LeadingSpaceOfIndent(w, "* " + rest);
    BulletSplit(w, rest);
  }

  /** The pieces of `w + "* " + rest` that the bullet rewrite looks at and keeps. */
  lemma BulletSplit(w: string, rest: string)
    ensures var b := w + "* " + rest;
      && w + "* " + rest == w + ("* " + rest)
      && b[|w|] == '*' && b[|w| + 1] == ' ' && b[|w| + 2..] == rest
      && b[..|w|] + "-" + b[|w| + 1..] == w + "- " + rest
  {
    var b := w + "* " + rest;
    assert b[..|w|] == w && b[|w| + 1..] == " " + rest;
  }

  /** A line that does not have the shape white space, `* `, rest is never rewritten. */
  lemma BulletOnlyStars(b: string)
    requires forall w, rest :: AllSpace(w) && b == w + "* " + rest ==> RuleAhead(rest)
    ensures BulletLine(b) == b
  {
    var k := LeadingSpace(b);
    if k + 2 <= |b| && b[k] == '*' && b[k + 1] == ' ' {
      var w, rest := b[..k], b[k + 2..];
      assert b == w + "* " + rest;
    }
  }

  lemma LeadingSpaceOfIndent(w: string, t: string)
    requires AllSpace(w) && t != [] && !IsSpace(t[0])
    ensures LeadingSpace(w + t) == |w|
  {
    var s := w + t;
    assert s[|w|] == t[0];
    assert forall i :: 0 <= i < |w| ==> s[i] == w[i];
  }

  /** A `* * *` line keeps its stars, with any indentation. */
  lemma BulletKeepsRule(w: string)
    requires AllSpace(w)
    ensures BulletLine(w + "* * *") == w + "* * *"
  {
    assert w + "* * *" == w + "* " + "* *";
    BulletRewrites(w, "* *");
  }

  /** The rules of lines 43 and 44 on one line: a `---` line ends up as `* * *`. */
  function HrThenBullet(b: string): string {
    BulletLine(HrLine(b))
  }

  lemma HrSurvivesBullet()
    ensures HrThenBullet("---") == "* * *"
  {
    BulletKeepsRule("");
    assert "" + "* * *" == "* * *";
  }

  /** Lines 43-44 rewrite the text line by line, first `---` and then the bullet. */
  lemma {:induction false} HrBulletLines(s: string)
    ensures MapLines(BulletLine, MapLines(HrLine, s)) == MapLines(HrThenBullet, s)
  {
    forall b | NoBreak(b) ensures NoBreak(HrLine(b)) {
    }
    RowsOfMapLines(HrLine, s);
    var rows := Rows(s);
    var once := MapBodies(HrLine, rows);
    var twice := MapBodies(BulletLine, once);
    assert twice == MapBodies(HrThenBullet, rows);
  }

  /** What line `j` of the text becomes after lines 43-44: `---` becomes `* * *`, bullets become `- `. */
  lemma NormalizedLine(s: string, j: nat)
    requires j < |Rows(s)|
    ensures |Rows(MapLines(HrThenBullet, s))| == |Rows(s)|
    ensures Rows(MapLines(HrThenBullet, s))[j] == Row(HrThenBullet(Rows(s)[j].body), Rows(s)[j].brk)
  {
    forall b | NoBreak(b) ensures NoBreak(HrThenBullet(b)) {
      var h := HrLine(b);
      assert NoBreak(h);
      var r := BulletLine(h);
      forall i | 0 <= i < |r| ensures !IsLineTerminator(r[i]) {
        if i == LeadingSpace(h) && r[i] != h[i] {
          assert r == h[..i] + "-" + h[i + 1..];
        }
      }
    }
    RowsOfMapLines(HrThenBullet, s);
  }

  /** Lines 41-44 in order. */
  function Standardize(s: string): (r: string)
    ensures r == MapLines(HrThenBullet, Italic(Bold(s)))
  {
    HrBulletLines(Italic(Bold(s)));
    MapLines(BulletLine, MapLines(HrLine, Italic(Bold(s))))
  }
}
