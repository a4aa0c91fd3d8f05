/** The two helpers of util.ts: line splitting and an order-preserving filter. */
module Util {
  import opened Strings

  /** `text.replaceAll(/\r\n?/g, "\n")`: every CRLF pair and every lone CR becomes LF. */
  function NormalizeNewlines(text: string): (r: string)
    ensures '\r' !in r
    ensures '\r' !in text ==> r == text
    decreases |text|
  {
    if text == [] then []
    else if text[0] == '\r' then
      "\n" + NormalizeNewlines(if 2 <= |text| && text[1] == '\n' then text[2..] else text[1..])
    else [text[0]] + NormalizeNewlines(text[1..])
  }

  /** The number of line breaks in text, counting a CRLF pair once. */
  function LineBreaks(text: string): nat
    decreases |text|
  {
    if text == [] then 0
    else if text[0] == '\r' then 1 + LineBreaks(if 2 <= |text| && text[1] == '\n' then text[2..] else text[1..])
    else (if text[0] == '\n' then 1 else 0) + LineBreaks(text[1..])
  }

  lemma {:induction false} NormalizeCountsBreaks(text: string)
    ensures CountChar(NormalizeNewlines(text), '\n') == LineBreaks(text)
    decreases |text|
  {
    if text != [] {
      var rest := if text[0] == '\r' && 2 <= |text| && text[1] == '\n' then text[2..] else text[1..];
      NormalizeCountsBreaks(rest);
      var head := if text[0] == '\r' then "\n" else [text[0]];
      assert NormalizeNewlines(text) == head + NormalizeNewlines(rest);
      CountCharAppend(head, NormalizeNewlines(rest), '\n');
    }
  }

  /** `splitLines(text)`: the lines of text under any of the three newline conventions. */
  function SplitLines(text: string): (lines: seq<string>)
    ensures |lines| >= 1
  {
    SplitOn(NormalizeNewlines(text), "\n")
  }

  /**
   * splitLines yields one more line than there are line breaks, no line holds
   * a line-break character, and joining the lines with LF gives back the text
   * with its newlines normalised.
   */
  lemma SplitLinesShape(text: string)
    ensures var lines := SplitLines(text);
      && |lines| == LineBreaks(text) + 1
      && (forall k :: 0 <= k < |lines| ==> '\n' !in lines[k] && '\r' !in lines[k])
      && Join(lines, "\n") == NormalizeNewlines(text)
  {
    var n := NormalizeNewlines(text);
    SplitOnChar(n, '\n');
    NormalizeCountsBreaks(text);
    JoinSplitOn(n, "\n");
    forall k | 0 <= k < |SplitLines(text)| ensures '\r' !in SplitLines(text)[k] {
      SplitOnPieceIn(n, "\n", k);
    }
  }

  /** Every piece of a split is a stretch of the original string. */
  lemma {:induction false} SplitOnPieceIn(s: string, separator: string, k: nat)
    requires |separator| > 0
    requires k < |SplitOn(s, separator)|
    ensures forall c :: c in SplitOn(s, separator)[k] ==> c in s
    decreases |s|
  {
    var i := Find(s, separator);
    if i >= 0 && k > 0 {
      var rest := s[i + |separator|..];
      SplitOnPieceIn(rest, separator, k - 1);
      assert SplitOn(s, separator)[k] == SplitOn(rest, separator)[k - 1];
      assert forall c :: c in rest ==> c in s;
    }
  }

  /** splitLines of a text without line breaks is that text alone. */
  lemma SplitLinesSingle(text: string)
    requires '\n' !in text && '\r' !in text
    ensures SplitLines(text) == [text]
  {
    SplitOnChar(text, '\n');
    CountCharNone(text, '\n');
  }

  /**
   * `asyncFilter(array, callback)`: the elements whose callback outcome is
   * true, in their original order. The outcome of each (awaited) callback is
   * the function `keep`.
   */
  function Filter<T>(xs: seq<T>, keep: T -> bool): (r: seq<T>)
    ensures |r| <= |xs|
    ensures forall k :: 0 <= k < |r| ==> r[k] in xs && keep(r[k])
  {
    if xs == [] then []
    else (if keep(xs[0]) then [xs[0]] else []) + Filter(xs[1..], keep)
  }

  /** Filtering distributes over concatenation, so the kept elements keep their relative order. */
  lemma {:induction false} FilterAppend<T>(a: seq<T>, b: seq<T>, keep: T -> bool)
    ensures Filter(a + b, keep) == Filter(a, keep) + Filter(b, keep)
  {
    if a != [] {
      assert (a + b)[0] == a[0];
      assert (a + b)[1..] == a[1..] + b;
      FilterAppend(a[1..], b, keep);
    } else {
      assert a + b == b;
    }
  }

  /** Each kept element occurs as often as in the input; every other element not at all. */
  lemma {:induction false} FilterCounts<T>(xs: seq<T>, keep: T -> bool, x: T)
    ensures multiset(Filter(xs, keep))[x] == if keep(x) then multiset(xs)[x] else 0
  {
    if xs != [] {
      FilterCounts(xs[1..], keep, x);
      assert xs == [xs[0]] + xs[1..];
      assert Filter(xs, keep) == (if keep(xs[0]) then [xs[0]] else []) + Filter(xs[1..], keep);
      assert multiset(xs) == multiset([xs[0]]) + multiset(xs[1..]);
    }
  }
}
