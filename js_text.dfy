/**
 * The JavaScript string primitives the formatter relies on: the character
 * classes of its regular expressions, `trim`/`trimStart`, `split('\n')` and
 * `join('\n')`, and `String.prototype.replace` with a string pattern.
 */
module JsText {

  datatype Option<T> = None | Some(value: T)

  /** LineTerminator of ECMAScript: where `^` and `$` anchor in multiline mode, and what `.` never matches. */
  predicate IsLineTerminator(c: char) {
    c == '\n' || c == '\r' || c == '\U{2028}' || c == '\U{2029}'
  }

  /**
   * The regular-expression class `\s`: WhiteSpace (tab, VT, FF, ZWNBSP and the
   * space separators) together with LineTerminator. `String.prototype.trim`
   * strips exactly this set too.
   */
  predicate IsSpace(c: char) {
    || c == '\t' || c == '\U{000B}' || c == '\U{000C}' || c == ' ' || c == '\U{00A0}'
    || c == '\U{FEFF}' || c == '\U{1680}' || ('\U{2000}' <= c <= '\U{200A}')
    || c == '\U{202F}' || c == '\U{205F}' || c == '\U{3000}'
    || IsLineTerminator(c)
  }

  /** The class `\d`: ASCII digits only. */
  predicate IsDigit(c: char) {
    '0' <= c <= '9'
  }

  predicate NoBreak(s: string) {
    forall i :: 0 <= i < |s| ==> !IsLineTerminator(s[i])
  }

  predicate AllSpace(s: string) {
    forall i :: 0 <= i < |s| ==> IsSpace(s[i])
  }

  /** The length of the run of `c` that starts at `p`, as `c+` or `c*` sees it. */
  function Run(s: string, p: nat, c: char): (n: nat)
    requires p <= |s|
    ensures p + n <= |s|
    ensures forall i :: p <= i < p + n ==> s[i] == c
    ensures p + n < |s| ==> s[p + n] != c
    decreases |s| - p
  {
    if p < |s| && s[p] == c then 1 + Run(s, p + 1, c) else 0
  }

  /** A slice is its first character followed by the rest of it. */
  lemma SliceCons(s: string, p: nat, q: nat)
    requires p < q <= |s|
    ensures s[p..q] == [s[p]] + s[p + 1..q]
  { }

  /** Length of the longest prefix of `s` made of `\s` characters; also `s.search(/\S|$/)`. */
  function LeadingSpace(s: string): (n: nat)
    ensures n <= |s| && AllSpace(s[..n])
    ensures n < |s| ==> !IsSpace(s[n])
  {
    var n := SpaceFrom(s, 0);
    var head := s[..n];
    assert forall i :: 0 <= i < |head| ==> head[i] == s[i];
    n
  }

  /** The number of `\s` characters from position `k` on. */
  function SpaceFrom(s: string, k: nat): (n: nat)
    requires k <= |s|
    ensures k + n <= |s|
    ensures forall i :: k <= i < k + n ==> IsSpace(s[i])
    ensures k + n < |s| ==> !IsSpace(s[k + n])
    decreases |s| - k
  {
    if k < |s| && IsSpace(s[k]) then 1 + SpaceFrom(s, k + 1) else 0
  }

  /** The number of `\s` characters right before position `k`. */
  function SpaceBefore(s: string, k: nat): (n: nat)
    requires k <= |s|
    ensures n <= k
    ensures forall i :: k - n <= i < k ==> IsSpace(s[i])
    ensures n < k ==> !IsSpace(s[k - n - 1])
  {
    if k > 0 && IsSpace(s[k - 1]) then 1 + SpaceBefore(s, k - 1) else 0
  }

  /** Length of the longest suffix of `s` made of `\s` characters. */
  function TrailingSpace(s: string): (n: nat)
    ensures n <= |s| && AllSpace(s[|s| - n..])
    ensures n < |s| ==> !IsSpace(s[|s| - n - 1])
  {
    var n := SpaceBefore(s, |s|);
    var tail := s[|s| - n..];
    assert forall i :: 0 <= i < |tail| ==> tail[i] == s[|s| - n + i];
    n
  }

  /** `s.trimStart()`: drops the leading whitespace and nothing else. */
  function TrimStart(s: string): (r: string)
    ensures |r| <= |s| && r == s[|s| - |r|..]
    ensures AllSpace(s[..|s| - |r|])
    ensures r == [] || !IsSpace(r[0])
  {
    s[LeadingSpace(s)..]
  }

  /** Where `s.trim()` ends: before the white space that follows the last non-space character. */
  function TrimEnd(s: string): (j: nat)
    ensures LeadingSpace(s) <= j <= |s|
  {
    |s| - TrailingSpace(TrimStart(s))
  }

  /** `s.trim()`: drops leading and trailing whitespace and nothing else. */
  function Trim(s: string): (r: string)
    ensures LeadingSpace(s) <= TrimEnd(s) && r == s[LeadingSpace(s)..TrimEnd(s)]
    ensures AllSpace(s[..LeadingSpace(s)]) && AllSpace(s[TrimEnd(s)..])
    ensures r == [] || (!IsSpace(r[0]) && !IsSpace(r[|r| - 1]))
  {
    TrimBounds(s);
    s[LeadingSpace(s)..TrimEnd(s)]
  }

  /** What lies outside `s[LeadingSpace(s)..TrimEnd(s)]` is white space, and that slice neither starts nor ends with any. */
  lemma TrimBounds(s: string)
    ensures LeadingSpace(s) <= TrimEnd(s)
    ensures AllSpace(s[..LeadingSpace(s)]) && AllSpace(s[TrimEnd(s)..])
    ensures var r := s[LeadingSpace(s)..TrimEnd(s)]; r == [] || (!IsSpace(r[0]) && !IsSpace(r[|r| - 1]))
  {
    var i := LeadingSpace(s);
    var t := s[i..];
    var n := TrailingSpace(t);
    var j := |s| - n;
    assert TrimEnd(s) == j;
    assert t[|t| - n..] == s[j..];
    var r := s[i..j];
    if i < j {
      assert r[0] == s[i];
      assert r[|r| - 1] == t[|t| - n - 1];
    }
  }

  /** Index of the first '\n' in `s`, or `|s|`. */
  function NewlineIndex(s: string): (k: nat)
    ensures k <= |s| && (k < |s| ==> s[k] == '\n')
    ensures forall i :: 0 <= i < k ==> s[i] != '\n'
  {
    if s == [] || s[0] == '\n' then 0 else 1 + NewlineIndex(s[1..])
  }

  /** `s.split('\n')`: the pieces between newlines; there is always at least one. */
  function Split(s: string): (parts: seq<string>)
    ensures |parts| >= 1
    ensures forall p :: p in parts ==> '\n' !in p
    decreases |s|
  {
    var k := NewlineIndex(s);
    if k == |s| then [s] else [s[..k]] + Split(s[k + 1..])
  }

  /** `parts.join('\n')`. */
  function Join(parts: seq<string>): string {
    if parts == [] then []
    else if |parts| == 1 then parts[0]
    else parts[0] + "\n" + Join(parts[1..])
  }

  lemma {:induction false} JoinSplit(s: string)
    ensures Join(Split(s)) == s
    decreases |s|, 1
  {
    if NewlineIndex(s) < |s| {
      JoinSplitLine(s);
    }
  }

  lemma {:induction false} JoinSplitLine(s: string)
    requires NewlineIndex(s) < |s|
    ensures Join(Split(s)) == s
    decreases |s|, 0
  {
    var k := NewlineIndex(s);
    var rest := s[k + 1..];
    JoinSplit(rest);
    AroundNewline(s, k);
    NoNewlineBefore(s);
    SplitAt(s, s[..k], rest);
    JoinOnto(s[..k], Split(rest));
  }

  lemma NoNewlineBefore(s: string)
    ensures '\n' !in s[..NewlineIndex(s)]
  {
    var h := s[..NewlineIndex(s)];
    assert forall i :: 0 <= i < |h| ==> h[i] != '\n';
  }

  lemma AroundNewline(s: string, k: nat)
    requires k < |s| && s[k] == '\n'
    ensures s == s[..k] + "\n" + s[k + 1..]
  {
  }

  lemma JoinOnto(h: string, t: seq<string>)
    requires |t| >= 1
    ensures Join([h] + t) == h + "\n" + Join(t)
  {
    JoinCons([h] + t);
    assert ([h] + t)[1..] == t;
  }

  lemma {:induction false} SplitJoin(parts: seq<string>)
    requires |parts| >= 1 && forall p :: p in parts ==> '\n' !in p
    ensures Split(Join(parts)) == parts
    decreases |parts|, 1
  {
    assert parts[0] in parts;
    if |parts| == 1 {
      SplitLine(parts[0]);
    } else {
      SplitJoinCons(parts);
    }
  }

  lemma {:induction false} SplitJoinCons(parts: seq<string>)
    requires |parts| >= 2 && forall p :: p in parts ==> '\n' !in p
    ensures Split(Join(parts)) == parts
    decreases |parts|, 0
  {
    var h, tail := parts[0], parts[1..];
    assert h in parts;
    assert forall p :: p in tail ==> p in parts;
    SplitJoin(tail);
    JoinCons(parts);
    SplitAt(Join(parts), h, Join(tail));
    assert parts == [h] + tail;
  }

  lemma JoinCons(parts: seq<string>)
    requires |parts| >= 2
    ensures Join(parts) == parts[0] + "\n" + Join(parts[1..])
  {
  }

  /** A piece without a newline splits into itself. */
  lemma SplitLine(h: string)
    requires '\n' !in h
    ensures Split(h) == [h]
  {
    assert forall i :: 0 <= i < |h| ==> h[i] in h;
  }

  /** A piece, a newline and the rest split into the piece and the rest's pieces. */
  lemma SplitAt(s: string, h: string, rest: string)
    requires '\n' !in h && s == h + "\n" + rest
    ensures Split(s) == [h] + Split(rest)
  {
    assert s[|h|] == '\n';
    assert forall i :: 0 <= i < |h| ==> s[i] == h[i] && h[i] in h;
    assert NewlineIndex(s) == |h|;
    assert s[..|h|] == h;
    assert s[|h| + 1..] == rest;
  }

  predicate OccursAt(s: string, pat: string, k: int) {
    0 <= k && k + |pat| <= |s| && s[k..k + |pat|] == pat
  }

  /** `s.indexOf(pat, k)`: the first occurrence at or after `k`, if any. */
  function IndexOfFrom(s: string, pat: string, k: nat): (r: Option<nat>)
    ensures r.Some? ==> k <= r.value && OccursAt(s, pat, r.value)
    ensures forall j :: k <= j && (r.None? || j < r.value) ==> !OccursAt(s, pat, j)
    decreases |s| - k
  {
    if k + |pat| > |s| then None
    else if s[k..k + |pat|] == pat then Some(k)
    else IndexOfFrom(s, pat, k + 1)
  }

  /**
   * `s.replace(pat, rep)` with a string pattern: only the FIRST occurrence is
   * replaced, by `rep` taken literally.
   */
  function ReplaceFirst(s: string, pat: string, rep: string): (r: string)
    ensures (forall j :: !OccursAt(s, pat, j)) ==> r == s
    ensures forall k :: OccursAt(s, pat, k) && (forall j :: 0 <= j < k ==> !OccursAt(s, pat, j)) ==>
              r == s[..k] + rep + s[k + |pat|..]
  {
    match IndexOfFrom(s, pat, 0)
    case None => s
    case Some(k) => s[..k] + rep + s[k + |pat|..]
  }

  /** When no character before `k` can start `pat`, an occurrence at `k` is the one replaced. */
  lemma ReplaceFirstAt(s: string, pat: string, rep: string, k: nat)
    requires |pat| > 0 && OccursAt(s, pat, k)
    requires forall i :: 0 <= i < k ==> s[i] != pat[0]
    ensures ReplaceFirst(s, pat, rep) == s[..k] + rep + s[k + |pat|..]
  {
    forall j | 0 <= j < k ensures !OccursAt(s, pat, j) {
      assert j + |pat| <= |s| ==> s[j..j + |pat|][0] == s[j];
    }
  }

  /** Decimal numeral of `n`, as `${n}` writes it. */
  function Decimal(n: nat): (d: string)
    ensures |d| >= 1 && forall i :: 0 <= i < |d| ==> IsDigit(d[i])
  {
    var c := ['0', '1', '2', '3', '4', '5', '6', '7', '8', '9'][n % 10];
    if n < 10 then [c] else Decimal(n / 10) + [c]
  }
}
