/**
 * LSP positions and ranges and the range arithmetic both node trees share:
 * `calcRange` (the range a text occupies when written at a start position),
 * `isSameRange` and `shiftRange`. Lines and characters are 0-indexed UTF-16
 * offsets; they are integers here because `shiftRange` and the cursor
 * correction subtract them freely.
 */
module Positions {
  import opened Strings
  import opened Util

  datatype Position = Position(line: int, character: int)

  /** End-exclusive. */
  datatype Range = Range(start: Position, end: Position)

  predicate IsBreak(c: char) { c == '\n' || c == '\r' }

  predicate HasBreak(text: string) {
    exists k :: 0 <= k < |text| && IsBreak(text[k])
  }

  /** The number of characters after the last line break of text (all of them when it has none). */
  function LastLineLength(text: string): (n: nat)
    ensures n <= |text|
    ensures !HasBreak(text) ==> n == |text|
  {
    if text == [] then 0
    else if IsBreak(text[|text| - 1]) then 0
    else
      assert HasBreak(text[..|text| - 1]) ==> HasBreak(text);
      1 + LastLineLength(text[..|text| - 1])
  }

  /** `isSamePosition(a, b)`: both coordinates agree. */
  function IsSamePosition(a: Position, b: Position): (r: bool)
    ensures r <==> a == b
  {
    a.line == b.line && a.character == b.character
  }

  /** `isSameRange(a, b)`: both ends agree. */
  function IsSameRange(a: Range, b: Range): (r: bool)
    ensures r <==> a == b
  {
    IsSamePosition(a.start, b.start) && IsSamePosition(a.end, b.end)
  }

  /**
   * `calcRange(start, text)`: the range text covers when written at start.
   * With no line break it ends on the start line, |text| characters further;
   * with k breaks (a CRLF pair counting once) it ends k lines down, at the
   * length of the text's last line.
   */
  function CalcRange(start: Position, text: string): (r: Range)
    ensures r.start == start
    ensures r.end.line == start.line + LineBreaks(text)
    ensures LineBreaks(text) == 0 ==> r.end.character == start.character + |text|
    ensures LineBreaks(text) > 0 ==> r.end.character == LastLineLength(text)
  {
    var lines := SplitLines(text);
    SplitLinesShape(text);
    var endLine := start.line + |lines| - 1;
    var endCharacter := if |lines| > 1 then |lines[|lines| - 1]| else start.character + |text|;
    if |lines| > 1 then LastLineIsTail(text); Range(start, Position(endLine, endCharacter))
    else Range(start, Position(endLine, endCharacter))
  }

  /** The last piece of splitLines is what follows the text's last line break. */
  lemma LastLineIsTail(text: string)
    requires |SplitLines(text)| > 1
    ensures var lines := SplitLines(text); |lines[|lines| - 1]| == LastLineLength(text)
  {
    var lines := SplitLines(text);
    SplitLinesShape(text);
    var last := lines[|lines| - 1];
    JoinSplitLast(lines, "\n");
    assert NormalizeNewlines(text) == Join(lines[..|lines| - 1], "\n") + "\n" + last;
    forall k | 0 <= k < |last| ensures !IsBreak(last[k]) {
      assert last[k] in last;
    }
    LastLineAppend(Join(lines[..|lines| - 1], "\n") + "\n", last);
    LastLineAppend(Join(lines[..|lines| - 1], "\n"), "\n");
    LastLineNormalized(text);
  }

  lemma {:induction false} JoinSplitLast(parts: seq<string>, separator: string)
    requires |parts| > 1
    ensures Join(parts, separator) == Join(parts[..|parts| - 1], separator) + separator + parts[|parts| - 1]
  {
    if |parts| > 2 {
      JoinSplitLast(parts[1..], separator);
      assert parts[1..][..|parts| - 2] == parts[..|parts| - 1][1..];
    }
  }

  /** Appending text without a break lengthens the last line; appending one with a break replaces it. */
  lemma {:induction false} LastLineAppend(a: string, b: string)
    ensures LastLineLength(a + b) == if HasBreak(b) then LastLineLength(b) else LastLineLength(a) + |b|
    decreases |b|
  {
    if b == [] {
      assert a + b == a;
    } else {
      var c := b[|b| - 1];
      var b' := b[..|b| - 1];
      assert (a + b)[..|a + b| - 1] == a + b';
      assert HasBreak(b) <==> HasBreak(b') || IsBreak(c) by {
        if HasBreak(b') {
          var k :| 0 <= k < |b'| && IsBreak(b'[k]);
          assert b[k] == b'[k];
        }
        if HasBreak(b) && !IsBreak(c) {
          var k :| 0 <= k < |b| && IsBreak(b[k]);
          assert k < |b'| && b'[k] == b[k];
        }
      }
      LastLineAppend(a, b');
    }
  }

  lemma HasBreakSingle(c: char)
    ensures HasBreak([c]) <==> IsBreak(c)
  {
    if IsBreak(c) {
      assert IsBreak([c][0]);
    }
  }

  lemma HasBreakConcat(a: string, b: string)
    ensures HasBreak(a + b) <==> HasBreak(a) || HasBreak(b)
  {
    if HasBreak(a) {
      var k :| 0 <= k < |a| && IsBreak(a[k]);
      assert (a + b)[k] == a[k];
    }
    if HasBreak(b) {
      var k :| 0 <= k < |b| && IsBreak(b[k]);
      assert (a + b)[|a| + k] == b[k];
    }
    if HasBreak(a + b) {
      var k :| 0 <= k < |a + b| && IsBreak((a + b)[k]);
      if k < |a| {
        assert a[k] == (a + b)[k];
      } else {
        assert b[k - |a|] == (a + b)[k];
      }
    }
  }

  /** A text has a line break exactly when it has a line-break count above zero. */
  lemma {:induction false} BreaksIffHasBreak(text: string)
    ensures LineBreaks(text) > 0 <==> HasBreak(text)
    decreases |text|
  {
    if text != [] {
      var rest := if text[0] == '\r' && 2 <= |text| && text[1] == '\n' then text[2..] else text[1..];
      BreaksIffHasBreak(rest);
      var head := text[..|text| - |rest|];
      assert text == head + rest;
      HasBreakConcat(head, rest);
      if |head| == 2 {
        assert IsBreak(head[0]);
      } else {
        HasBreakSingle(text[0]);
        assert head == [text[0]];
      }
    }
  }

  /** Normalising newlines leaves what follows the last break alone. */
  lemma {:induction false} LastLineNormalized(text: string)
    ensures LastLineLength(NormalizeNewlines(text)) == LastLineLength(text)
    decreases |text|
  {
    if text != [] {
      var crlf := text[0] == '\r' && 2 <= |text| && text[1] == '\n';
      var rest := if crlf then text[2..] else text[1..];
      var head := if crlf then "\r\n" else [text[0]];
      var nhead := if text[0] == '\r' then "\n" else [text[0]];
      assert text == head + rest;
      assert NormalizeNewlines(text) == nhead + NormalizeNewlines(rest);
      LastLineNormalized(rest);
      LastLineAppend(head, rest);
      LastLineAppend(nhead, NormalizeNewlines(rest));
      NormalizeKeepsBreaks(rest);
      if !HasBreak(rest) {
        assert forall k :: 0 <= k < |rest| ==> !IsBreak(rest[k]);
        assert NormalizeNewlines(rest) == rest;
        HasBreakSingle(text[0]);
        if crlf {
          assert LastLineLength(head) == 0;
        }
      }
    }
  }

  lemma NormalizeKeepsBreaks(text: string)
    ensures HasBreak(NormalizeNewlines(text)) <==> HasBreak(text)
  {
    NormalizeCountsBreaks(text);
    BreaksIffHasBreak(text);
    var n := NormalizeNewlines(text);
    if HasBreak(n) {
      var k :| 0 <= k < |n| && IsBreak(n[k]);
      assert n[k] == '\n' by { assert n[k] in n; }
      CountCharPositive(n, k, '\n');
    }
    if HasBreak(text) {
      assert CountChar(n, '\n') > 0;
      CountCharWitness(n, '\n');
    }
  }

  lemma {:induction false} CountCharPositive(s: string, k: nat, c: char)
    requires k < |s| && s[k] == c
    ensures CountChar(s, c) > 0
  {
    if k > 0 {
      CountCharPositive(s[1..], k - 1, c);
    }
  }

  lemma {:induction false} CountCharWitness(s: string, c: char)
    requires CountChar(s, c) > 0
    ensures c != '\n' || HasBreak(s)
  {
    if s[0] == c {
      assert c != '\n' || IsBreak(s[0]);
    } else {
      CountCharWitness(s[1..], c);
      if c == '\n' {
        var k :| 0 <= k < |s[1..]| && IsBreak(s[1..][k]);
        assert IsBreak(s[k + 1]);
      }
    }
  }

  /** A CRLF pair split between two texts: the first ends in CR and the second starts with LF. */
  predicate SplitsCrlf(a: string, b: string) {
    |a| > 0 && a[|a| - 1] == '\r' && |b| > 0 && b[0] == '\n'
  }

  /** Line breaks add up over a concatenation unless it joins a CR and an LF into one CRLF. */
  lemma {:induction false} LineBreaksAppend(a: string, b: string)
    requires !SplitsCrlf(a, b)
    ensures LineBreaks(a + b) == LineBreaks(a) + LineBreaks(b)
    decreases |a|
  {
    if a == [] {
      assert a + b == b;
    } else {
      var crlf := a[0] == '\r' && 2 <= |a| && a[1] == '\n';
      var rest := if crlf then a[2..] else a[1..];
      assert (a + b)[0] == a[0];
      if crlf {
        assert (a + b)[1] == '\n';
        assert (a + b)[2..] == rest + b;
      } else {
        assert (a + b)[1..] == rest + b;
        if a[0] == '\r' && 2 <= |a + b| {
          assert (a + b)[1] != '\n';
        }
      }
      if rest != [] {
        assert rest[|rest| - 1] == a[|a| - 1];
      }
      LineBreaksAppend(rest, b);
    }
  }

  /**
   * Writing a then b from start ends where writing a + b ends: threading the
   * end of one text into the start of the next composes their ranges.
   */
  lemma CalcRangeThreads(start: Position, a: string, b: string)
    requires !SplitsCrlf(a, b)
    ensures CalcRange(CalcRange(start, a).end, b).end == CalcRange(start, a + b).end
  {
    LineBreaksAppend(a, b);
    LastLineAppend(a, b);
    BreaksIffHasBreak(a);
    BreaksIffHasBreak(b);
  }

  /**
   * `shiftRange(range, start)`: the range moved to begin at start, with its
   * shape kept. The single-line test is on the range's own lines.
   */
  function ShiftRange(range: Range, start: Position): (r: Range)
    ensures r.start == start
    ensures r.end.line - r.start.line == range.end.line - range.start.line
    ensures range.start.line == range.end.line ==>
      r.end.character - r.start.character == range.end.character - range.start.character
    ensures range.start.line != range.end.line ==> r.end.character == range.end.character
  {
    if range.start.line == range.end.line then
      Range(start, Position(start.line, start.character + range.end.character - range.start.character))
    else
      Range(start, Position(start.line + range.end.line - range.start.line, range.end.character))
  }

  /** Shifting a range away and back to its own start restores it. */
  lemma ShiftRangeBack(range: Range, start: Position)
    ensures ShiftRange(ShiftRange(range, start), range.start) == range
  {
  }

  /** The range a text covers at one start, shifted to another, is the range it covers there. */
  lemma ShiftCalcRange(text: string, from: Position, to: Position)
    ensures ShiftRange(CalcRange(from, text), to) == CalcRange(to, text)
  {
  }
}
