/**
 * The placeholder store's vocabulary: the four kinds of protected block, the
 * marker `@@<TAG>_<i>@@` that stands for the i-th block of a kind while the
 * text is rewritten, the canonical text each block is restored as, and the
 * restore pass that replaces markers 0, 1, ... in turn.
 */
module Placeholders {
  import opened JsText

  datatype Kind = CodeBlock | Heading2 | Heading3 | Rule

  function Tag(k: Kind): string {
    match k
    case CodeBlock => "CODE_BLOCK"
    case Heading2 => "H2_HEADING"
    case Heading3 => "H3_HEADING"
    case Rule => "HRULE"
  }

  /** The placeholder for the `i`-th recorded block of kind `k`. */
  function Marker(k: Kind, i: nat): (m: string)
    ensures |m| >= 4 && m[0] == '@' && m[1] == '@'
  {
    "@@" + Tag(k) + "_" + Decimal(i) + "@@"
  }

  lemma {:induction false} DecimalInjective(n: nat, m: nat)
    requires Decimal(n) == Decimal(m)
    ensures n == m
  {
    var dn, dm := Decimal(n), Decimal(m);
    assert dn[|dn| - 1] == dm[|dm| - 1];
    assert n % 10 == m % 10;
    if n >= 10 && m >= 10 {
      assert Decimal(n / 10) == dn[..|dn| - 1] == dm[..|dm| - 1] == Decimal(m / 10);
      DecimalInjective(n / 10, m / 10);
    }
  }

  /** Different blocks never share a placeholder: the kind and the index can be read back from it. */
  lemma MarkerInjective(k: Kind, i: nat, k': Kind, j: nat)
    requires Marker(k, i) == Marker(k', j)
    ensures k == k' && i == j
  {
    MarkerParts(k, i);
    MarkerParts(k', j);
    TagInjective(k, k');
    DecimalInjective(i, j);
  }

  /** The second letter of the tag tells the kinds apart. */
  lemma TagInjective(k: Kind, k': Kind)
    requires Tag(k)[1] == Tag(k')[1]
    ensures k == k'
  {
  }

  /** Where the tag's second letter and the index sit in a marker. */
  lemma MarkerParts(k: Kind, i: nat)
    ensures
      var m, n := Marker(k, i), |Tag(k)| + 3;
      && n <= |m| - 2 && m[3] == Tag(k)[1] && m[n..|m| - 2] == Decimal(i)
  {
    var m, t, d := Marker(k, i), Tag(k), Decimal(i);
    assert m == "@@" + t + "_" + d + "@@";
    assert m[3] == t[1];
    assert m[|t| + 3..|m| - 2] == d;
  }

  /** What a recorded block of kind `k` is restored as. */
  function Canonical(k: Kind, content: string): string {
    match k
    case Heading2 => "\n\n## " + content
    case Heading3 => "\n### " + content
    case Rule => "\n* * *\n"
    case CodeBlock => "\n" + Trim(content) + "\n"
  }

  /**
   * The restore loop for kind `k` after `n` rounds: round `i` replaces the
   * first occurrence of marker `i` by the canonical form of `entries[i]`.
   */
  function RestoredUpTo(text: string, k: Kind, entries: seq<string>, n: nat): string
    requires n <= |entries|
  {
    if n == 0 then text
    else ReplaceFirst(RestoredUpTo(text, k, entries, n - 1), Marker(k, n - 1), Canonical(k, entries[n - 1]))
  }

  /**
   * The restore loop follows any sequence of texts `texts[0], texts[1], ...`
   * that starts at `text` and in which each round's replacement leads from
   * one text to the next.
   */
  lemma {:induction false} RestoredUpToChain(text: string, k: Kind, entries: seq<string>, n: nat, texts: seq<string>)
    requires n <= |entries| && n < |texts|
    requires texts[0] == text
    requires forall j :: 0 <= j < n ==> ReplaceFirst(texts[j], Marker(k, j), Canonical(k, entries[j])) == texts[j + 1]
    ensures RestoredUpTo(text, k, entries, n) == texts[n]
  {
    if n > 0 {
      RestoredUpToChain(text, k, entries, n - 1, texts);
      var j := n - 1;
      assert ReplaceFirst(texts[j], Marker(k, j), Canonical(k, entries[j])) == texts[j + 1];
    }
  }

  /** Replacing a marker that follows an `@`-free prefix splices the replacement in at that point. */
  lemma SpliceMarker(t: string, pre: string, m: string, rep: string, brk: string, tail: string)
    requires '@' !in pre && |m| > 0 && m[0] == '@'
    requires t == pre + m + brk + tail
    ensures ReplaceFirst(t, m, rep) == pre + rep + brk + tail
  {
    var u := brk + tail;
    assert t == pre + m + u;
    assert t[..|pre|] == pre;
    assert t[|pre| + |m|..] == u;
    assert t[|pre|..|pre| + |m|] == m;
    assert forall i :: 0 <= i < |pre| ==> t[i] == pre[i] && pre[i] in pre;
    ReplaceFirstAt(t, m, rep, |pre|);
  }
}
