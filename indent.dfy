/**
 * indent.ts: the indentation of a snippet body on its way into the buffer
 * (`adjustIndent`) and of selected text on its way into a snippet
 * (`trimBaseIndent`). The editor options, the current line and the
 * buffer's newline string are parameters.
 *
 * Two steps are modelled as written and beside a corrected partner: the
 * blank-line cleanup of adjustIndent, whose `\s` also matches newlines and
 * so merges runs of blank lines (CollapseBlankJs, ClearBlankLines), and
 * the base-indent choice of trimBaseIndent, which starts over after a line
 * without indentation (AsWrittenBase, LeastBase).
 */
module Indent {
  import opened Options
  import opened Strings
  import opened Util

  lemma {:induction false} RepeatChar(c: char, n: nat)
    ensures forall k :: 0 <= k < n ==> Repeat([c], n)[k] == c
  {
    if n > 0 {
      RepeatChar(c, n - 1);
      assert Repeat([c], n) == [c] + Repeat([c], n - 1);
    }
  }

  lemma {:induction false} RepeatWithout(s: string, n: nat, c: char)
    requires c !in s
    ensures c !in Repeat(s, n)
  {
    if n > 0 {
      RepeatWithout(s, n - 1, c);
    }
  }

  /** `getOneIndent`: a tab without `expandtab`, otherwise `shiftwidth` spaces, or `tabstop` spaces when `shiftwidth` is 0. */
  function OneIndent(expandtab: bool, shiftwidth: nat, tabstop: nat): (r: string)
    ensures !expandtab ==> r == "\t"
    ensures expandtab ==> |r| == (if shiftwidth == 0 then tabstop else shiftwidth) && forall k :: 0 <= k < |r| ==> r[k] == ' '
  {
    if expandtab then
      var width := if shiftwidth == 0 then tabstop else shiftwidth;
      RepeatChar(' ', width);
      Repeat(" ", width)
    else "\t"
  }

  /** `getBaseIndent` of a line, `line.match(/^\s*\/)[0]`: all the whitespace the line starts with. */
  function BaseIndent(line: string): (r: string)
    ensures |r| <= |line| && r == line[..|r|]
    ensures forall k :: 0 <= k < |r| ==> IsJsSpace(r[k])
    ensures |r| == |line| || !IsJsSpace(line[|r|])
  {
    line[..LeadingSpaceLength(line)]
  }

  // ------------------------------------------------------------ lines

  /** `text.split("\n")` */
  function Lines(text: string): (ls: seq<string>)
    ensures |ls| >= 1 && forall k :: 0 <= k < |ls| ==> '\n' !in ls[k]
  {
    SplitOnChar(text, '\n');
    SplitOn(text, "\n")
  }

  /** `lines.join("\n")` */
  function Unlines(ls: seq<string>): string {
    Join(ls, "\n")
  }

  lemma LinesRoundTrip(text: string)
    ensures Unlines(Lines(text)) == text
  {
    JoinSplitOn(text, "\n");
  }

  lemma UnlinesRoundTrip(ls: seq<string>)
    requires |ls| >= 1 && forall k :: 0 <= k < |ls| ==> '\n' !in ls[k]
    ensures Lines(Unlines(ls)) == ls
  {
    SplitOnJoin(ls, '\n');
  }

  lemma SingleLine(text: string)
    requires '\n' !in text
    ensures Lines(text) == [text]
  {
    CharAbsent(text, '\n');
    FindContains(text, "\n");
  }

  // ------------------------------------------------------------ adjustIndent

  /** The number of tabs the line starts with. */
  function TabRun(line: string): (n: nat)
    ensures n <= |line| && (forall k :: 0 <= k < n ==> line[k] == '\t') && (n == |line| || line[n] != '\t')
  {
    if line == [] || line[0] != '\t' then 0 else 1 + TabRun(line[1..])
  }

  /**
   * `text.replaceAll(/(?<=^|\n)\t+/g, (match) => oneIndent.repeat(match.length))`:
   * on every line, the run of k tabs it starts with becomes k copies of
   * oneIndent; the rest of the line is kept.
   */
  function ExpandLeadingTabs(text: string, oneIndent: string): (r: string)
    ensures '\n' !in oneIndent ==>
      var ls := Lines(text);
      && |Lines(r)| == |ls|
      && forall k :: 0 <= k < |ls| ==> Lines(r)[k] == Repeat(oneIndent, TabRun(ls[k])) + ls[k][TabRun(ls[k])..]
  {
    var ls := Lines(text);
    var out := seq(|ls|, k requires 0 <= k < |ls| => Repeat(oneIndent, TabRun(ls[k])) + ls[k][TabRun(ls[k])..]);
    assert '\n' !in oneIndent ==> Lines(Unlines(out)) == out by {
      if '\n' !in oneIndent {
        forall k | 0 <= k < |ls| ensures '\n' !in out[k] {
          RepeatWithout(oneIndent, TabRun(ls[k]), '\n');
          assert forall c :: c in ls[k][TabRun(ls[k])..] ==> c in ls[k];
        }
        UnlinesRoundTrip(out);
      }
    }
    Unlines(out)
  }

  /** The lines with the base indent put before every line but the first. */
  function IndentRest(ls: seq<string>, baseIndent: string): (r: seq<string>)
    requires |ls| >= 1
    ensures |r| == |ls| && r[0] == ls[0] && forall k :: 1 <= k < |ls| ==> r[k] == baseIndent + ls[k]
  {
    [ls[0]] + seq(|ls| - 1, k requires 0 <= k < |ls| - 1 => baseIndent + ls[k + 1])
  }

  lemma {:induction false} JoinIndentRest(ls: seq<string>, baseIndent: string)
    requires |ls| >= 1
    ensures Join(ls, "\n" + baseIndent) == Join(IndentRest(ls, baseIndent), "\n")
    decreases |ls|
  {
    if |ls| >= 2 {
      var tail := ls[1..];
      JoinIndentRest(tail, baseIndent);
      var r := IndentRest(ls, baseIndent);
      var t := IndentRest(tail, baseIndent);
      JoinCons(ls[0], tail, "\n" + baseIndent);
      assert ls == [ls[0]] + tail;
      assert r == [ls[0]] + ([baseIndent + tail[0]] + t[1..]);
      JoinCons(ls[0], [baseIndent + tail[0]] + t[1..], "\n");
      if |tail| >= 2 {
        assert t == [tail[0]] + t[1..];
        JoinCons(tail[0], t[1..], "\n");
        JoinCons(baseIndent + tail[0], t[1..], "\n");
      }
    }
  }

  /** `text.replaceAll("\n", `\n${baseIndent}`)`: the base indent goes before every line but the first. */
  function AddBaseIndent(text: string, baseIndent: string): (r: string)
    ensures '\n' !in baseIndent ==> Lines(r) == IndentRest(Lines(text), baseIndent)
  {
    var ls := Lines(text);
    JoinIndentRest(ls, baseIndent);
    var out := IndentRest(ls, baseIndent);
    assert '\n' !in baseIndent ==> Lines(Unlines(out)) == out by {
      if '\n' !in baseIndent {
        forall k | 0 <= k < |out| ensures '\n' !in out[k] {
          if k > 0 {
            assert out[k] == baseIndent + ls[k];
          }
        }
        UnlinesRoundTrip(out);
      }
    }
    ReplaceAll(text, "\n", "\n" + baseIndent)
  }

  /** The index of the last newline of s, or -1. */
  function LastNewline(s: string): (q: int)
    ensures -1 <= q < |s|
    ensures q < 0 ==> '\n' !in s
    ensures q >= 0 ==> s[q] == '\n' && forall j :: q < j < |s| ==> s[j] != '\n'
  {
    if s == [] then -1
    else if s[|s| - 1] == '\n' then |s| - 1
    else LastNewline(s[..|s| - 1])
  }

  /**
   * `text.replaceAll(/\n\s*\n/g, "\n\n")` under JavaScript's `\s`, which
   * matches newlines too: at a newline, the greedy `\s*` takes all the
   * whitespace that follows and gives back up to its last newline, so the
   * match runs to the last newline of the whitespace; the scan resumes
   * after it. Where no newline follows in the whitespace, the newline is
   * kept and the scan moves on.
   */
  function CollapseBlankJs(s: string): (r: string)
    ensures |r| <= |s|
    decreases |s|
  {
    if s == [] then []
    else if s[0] != '\n' then [s[0]] + CollapseBlankJs(s[1..])
    else
      var run := s[1..1 + LeadingSpaceLength(s[1..])];
      var q := LastNewline(run);
      if q < 0 then "\n" + CollapseBlankJs(s[1..]) else "\n\n" + CollapseBlankJs(s[q + 2..])
  }

  /** Text without a newline passes through the cleanup unchanged, and so does what precedes a line's first newline. */
  lemma {:induction false} CollapseBlankJsPlain(a: string, rest: string)
    requires '\n' !in a
    ensures CollapseBlankJs(a + rest) == a + CollapseBlankJs(rest)
    decreases |a|
  {
    if a == [] {
      assert a + rest == rest;
    } else {
      assert a[0] in a;
      assert (a + rest)[0] == a[0] && (a + rest)[1..] == a[1..] + rest;
      CollapseBlankJsPlain(a[1..], rest);
      calc {
        CollapseBlankJs(a + rest);
        [a[0]] + CollapseBlankJs(a[1..] + rest);
        [a[0]] + (a[1..] + CollapseBlankJs(rest));
        { assert a == [a[0]] + a[1..]; }
        a + CollapseBlankJs(rest);
      }
    }
  }

  /**
   * As written, the cleanup removes lines: two blank lines in a row, with
   * no indentation on them, become one, so the four lines of
   * a + "\n\n\n" + b become three.
   */
  lemma CollapseBlankJsMerges(a: string, b: string)
    requires '\n' !in a && '\n' !in b
    requires b == [] || !IsJsSpace(b[0])
    ensures CollapseBlankJs(a + "\n\n\n" + b) == a + "\n\n" + b
    ensures Lines(a + "\n\n\n" + b) == [a, "", "", b]
    ensures Lines(a + "\n\n" + b) == [a, "", b]
  {
    MergedText(a, b);
    assert Lines(a + "\n\n\n" + b) == [a, "", "", b] by {
      BlankLinesBetween(a, b, 2);
      assert Repeat("\n", 3) == "\n\n\n";
      assert [a] + seq(2, _ => "") + [b] == [a, "", "", b];
    }
    assert Lines(a + "\n\n" + b) == [a, "", b] by {
      BlankLinesBetween(a, b, 1);
      assert Repeat("\n", 2) == "\n\n";
      assert [a] + seq(1, _ => "") + [b] == [a, "", b];
    }
  }

  lemma MergedText(a: string, b: string)
    requires '\n' !in a && '\n' !in b
    requires b == [] || !IsJsSpace(b[0])
    ensures CollapseBlankJs(a + "\n\n\n" + b) == a + "\n\n" + b
  {
    var t := "\n\n\n" + b;
    CollapseBlankJsPlain(b, []);
    assert b + [] == b;
    calc {
      CollapseBlankJs(a + "\n\n\n" + b);
      { assert a + "\n\n\n" + b == a + t; }
      CollapseBlankJs(a + t);
      { CollapseBlankJsPlain(a, t); }
      a + CollapseBlankJs(t);
      { ThreeNewlines(b); }
      a + ("\n\n" + CollapseBlankJs(b));
      a + ("\n\n" + b);
      a + "\n\n" + b;
    }
  }

  /** a and b with n empty lines between them, as text: a, n + 1 newlines, b. */
  lemma BlankLinesBetween(a: string, b: string, n: nat)
    requires '\n' !in a && '\n' !in b
    ensures Lines(a + Repeat("\n", n + 1) + b) == [a] + seq(n, _ => "") + [b]
  {
    var ls := [a] + seq(n, _ => "") + [b];
    EmptyLines(b, n);
    assert ls == [a] + (seq(n, _ => "") + [b]);
    JoinCons(a, seq(n, _ => "") + [b], "\n");
    assert Repeat("\n", n + 1) == "\n" + Repeat("\n", n);
    assert a + Repeat("\n", n + 1) + b == a + "\n" + (Repeat("\n", n) + b);
    UnlinesRoundTrip(ls);
  }

  lemma {:induction false} EmptyLines(b: string, n: nat)
    ensures Unlines(seq(n, _ => "") + [b]) == Repeat("\n", n) + b
  {
    if n > 0 {
      EmptyLines(b, n - 1);
      assert seq(n, _ => "") + [b] == [""] + (seq(n - 1, _ => "") + [b]);
      JoinCons("", seq(n - 1, _ => "") + [b], "\n");
    } else {
      assert seq(n, _ => "") + [b] == [b];
    }
  }

  lemma ThreeNewlines(b: string)
    requires b == [] || !IsJsSpace(b[0])
    ensures CollapseBlankJs("\n\n\n" + b) == "\n\n" + CollapseBlankJs(b)
  {
    var s := "\n\n\n" + b;
    assert s[1..] == "\n\n" + b && s[2..] == "\n" + b && s[3..] == b;
    assert LeadingSpaceLength(s[3..]) == 0;
    assert LeadingSpaceLength(s[2..]) == 1;
    assert LeadingSpaceLength(s[1..]) == 2;
    assert s[1..3] == "\n\n";
    assert LastNewline("\n\n") == 1;
  }

  /** A line that holds nothing but whitespace. */
  predicate IsBlank(line: string) {
    forall k :: 0 <= k < |line| ==> IsJsSpace(line[k])
  }

  /**
   * The cleanup as its comment states it, "remove indentation on all blank
   * lines except the last line": every blank line between the first and
   * the last becomes empty, and no line is lost.
   */
  function ClearBlankLines(text: string): (r: string)
    ensures var ls := Lines(text);
      && |Lines(r)| == |ls|
      && forall k :: 0 <= k < |ls| ==> Lines(r)[k] == if 0 < k < |ls| - 1 && IsBlank(ls[k]) then "" else ls[k]
  {
    var ls := Lines(text);
    var out := seq(|ls|, k requires 0 <= k < |ls| => if 0 < k < |ls| - 1 && IsBlank(ls[k]) then "" else ls[k]);
    UnlinesRoundTrip(out);
    Unlines(out)
  }

  /** The body re-indented, in "\n" newlines: leading tabs expanded unless the indent is a tab, then the base indent added. */
  function Reindent(text: string, oneIndent: string, baseIndent: string): string {
    AddBaseIndent(if oneIndent != "\t" then ExpandLeadingTabs(text, oneIndent) else text, baseIndent)
  }

  /** `adjustIndent(text)` as written, with the newline string, the one-indent and the base indent given. */
  function AdjustIndent(text: string, newline: string, oneIndent: string, baseIndent: string): string
    requires |newline| > 0
  {
    ReplaceAll(CollapseBlankJs(Reindent(ReplaceAll(text, newline, "\n"), oneIndent, baseIndent)), "\n", newline)
  }

  /** `adjustIndent` with the blank-line cleanup its comment describes. */
  function AdjustIndentIntended(text: string, newline: string, oneIndent: string, baseIndent: string): string
    requires |newline| > 0
  {
    ReplaceAll(ClearBlankLines(Reindent(ReplaceAll(text, newline, "\n"), oneIndent, baseIndent)), "\n", newline)
  }

  /** A one-line body that starts without a tab (or meets a tab indent) is inserted as it is: no base indent, no cleanup. */
  lemma AdjustIndentSingleLine(text: string, newline: string, oneIndent: string, baseIndent: string)
    requires |newline| > 0 && !Contains(text, newline) && '\n' !in text
    requires oneIndent == "\t" || TabRun(text) == 0
    ensures AdjustIndent(text, newline, oneIndent, baseIndent) == text
  {
    ReplaceAllAbsent(text, newline, "\n");
    SingleLine(text);
    if oneIndent != "\t" {
      var e := ExpandLeadingTabs(text, oneIndent);
      assert Unlines([text]) == text;
      assert e == text;
    }
    CharAbsent(text, '\n');
    ReplaceAllAbsent(text, "\n", "\n" + baseIndent);
    assert Reindent(text, oneIndent, baseIndent) == text;
    CollapseBlankJsPlain(text, []);
    assert text + [] == text;
    ReplaceAllAbsent(text, "\n", newline);
  }

  /**
   * With "\n" newlines and indents without newlines, the intended
   * adjustment keeps every line: the first as it was with its tabs
   * expanded, each other one after the base indent or, when blank and not
   * last, emptied.
   */
  lemma AdjustIndentIntendedKeepsLines(text: string, oneIndent: string, baseIndent: string)
    requires '\n' !in oneIndent && '\n' !in baseIndent
    ensures |Lines(AdjustIndentIntended(text, "\n", oneIndent, baseIndent))| == |Lines(text)|
  {
    JoinSplitOn(text, "\n");
    var e := if oneIndent != "\t" then ExpandLeadingTabs(text, oneIndent) else text;
    var c := ClearBlankLines(AddBaseIndent(e, baseIndent));
    JoinSplitOn(c, "\n");
  }

  // ------------------------------------------------------------ trimBaseIndent

  /** `!/\n$/.test(text)` and `text.replace(/\n$/, "")`: one final newline dropped, and whether there was none (char-wise text). */
  function Chomp(text: string): (r: (string, bool))
    ensures r.1 <==> !EndsWith(text, "\n")
    ensures text == r.0 + (if r.1 then "" else "\n")
  {
    if EndsWith(text, "\n") then (text[..|text| - 1], false) else (text, true)
  }

  predicate IsNonEmpty(line: string) {
    line != ""
  }

  /** The lines the base indent is taken from: all but the first when the text is char-wise, and none that is empty. */
  function Considered(lines: seq<string>, charWise: bool): seq<string> {
    Filter(if charWise && |lines| > 0 then lines[1..] else lines, IsNonEmpty)
  }

  lemma ConsideredSnoc(lines: seq<string>, x: string, charWise: bool)
    ensures Considered(lines + [x], charWise) ==
      if charWise && lines == [] then [] else Considered(lines, charWise) + (if x != "" then [x] else [])
  {
    if charWise && lines != [] {
      assert (lines + [x])[1..] == lines[1..] + [x];
      FilterAppend(lines[1..], [x], IsNonEmpty);
    } else if !charWise {
      FilterAppend(lines, [x], IsNonEmpty);
    } else {
      assert (lines + [x])[1..] == [];
    }
    assert Filter([x], IsNonEmpty) == if x != "" then [x] else [];
  }

  /** The considered lines after one more line: the same, or with that line appended. */
  lemma ConsideredStep(lines: seq<string>, i: nat, charWise: bool)
    requires i < |lines|
    ensures var before := Considered(lines[..i], charWise);
      Considered(lines[..i + 1], charWise) == if (charWise && i == 0) || lines[i] == "" then before else before + [lines[i]]
  {
    assert lines[..i + 1] == lines[..i] + [lines[i]];
    ConsideredSnoc(lines[..i], lines[i], charWise);
  }

  /** One step of the loop: `if (baseIndent === "" || indent.length < baseIndent.length) baseIndent = indent`. */
  function Choose(baseIndent: string, indent: string): string {
    if baseIndent == "" || |indent| < |baseIndent| then indent else baseIndent
  }

  /** The base indent trimBaseIndent picks from the considered lines, as written. */
  function AsWrittenBase(lines: seq<string>): string {
    if lines == [] then "" else Choose(AsWrittenBase(lines[..|lines| - 1]), BaseIndent(lines[|lines| - 1]))
  }

  /** The shortest indent of the considered lines, the first of that length; None when there are none. */
  function LeastBase(lines: seq<string>): (r: Option<string>)
    ensures r.Some? <==> lines != []
  {
    if lines == [] then None
    else
      var best := LeastBase(lines[..|lines| - 1]);
      var indent := BaseIndent(lines[|lines| - 1]);
      if best.None? || |indent| < |best.value| then Some(indent) else best
  }

  /** The least base is the indent of one of the lines, and no line has a shorter one. */
  lemma {:induction false} LeastBaseMeaning(lines: seq<string>)
    ensures LeastBase(lines).Some? ==> exists j :: 0 <= j < |lines| && LeastBase(lines).value == BaseIndent(lines[j])
    ensures LeastBase(lines).Some? ==> forall j :: 0 <= j < |lines| ==> |LeastBase(lines).value| <= |BaseIndent(lines[j])|
  {
    if lines != [] {
      var prefix := lines[..|lines| - 1];
      LeastBaseMeaning(prefix);
      assert forall j :: 0 <= j < |prefix| ==> prefix[j] == lines[j];
    }
  }

  /** As written, the pick is "" or the indent of one of the considered lines. */
  lemma {:induction false} AsWrittenPicksALine(lines: seq<string>)
    ensures AsWrittenBase(lines) == "" || exists k :: 0 <= k < |lines| && AsWrittenBase(lines) == BaseIndent(lines[k])
  {
    if lines != [] {
      var prefix := lines[..|lines| - 1];
      AsWrittenPicksALine(prefix);
      if AsWrittenBase(lines) != BaseIndent(lines[|lines| - 1]) && AsWrittenBase(lines) != "" {
        var k :| 0 <= k < |prefix| && AsWrittenBase(prefix) == BaseIndent(prefix[k]);
        assert prefix[k] == lines[k];
      }
    }
  }

  /** One pass of trimBaseIndent's loop body on the pick as written. */
  lemma AsWrittenStep(lines: seq<string>, i: nat, charWise: bool)
    requires i < |lines|
    ensures var before := AsWrittenBase(Considered(lines[..i], charWise));
      AsWrittenBase(Considered(lines[..i + 1], charWise)) ==
        if (charWise && i == 0) || lines[i] == "" then before else Choose(before, BaseIndent(lines[i]))
  {
    ConsideredStep(lines, i, charWise);
    AsWrittenSnoc(Considered(lines[..i], charWise), lines[i]);
  }

  lemma AsWrittenSnoc(lines: seq<string>, x: string)
    ensures AsWrittenBase(lines + [x]) == Choose(AsWrittenBase(lines), BaseIndent(x))
  {
    assert (lines + [x])[..|lines|] == lines;
  }

  lemma LeastSnoc(lines: seq<string>, x: string)
    ensures var best := LeastBase(lines);
      LeastBase(lines + [x]) == if best.None? || |BaseIndent(x)| < |best.value| then Some(BaseIndent(x)) else best
  {
    assert (lines + [x])[..|lines|] == lines;
  }

  /** As written, the pick is the shortest indent as long as every considered line is indented. */
  lemma {:induction false} AsWrittenIsLeastWhenIndented(lines: seq<string>)
    requires forall j :: 0 <= j < |lines| ==> |BaseIndent(lines[j])| > 0
    ensures AsWrittenBase(lines) == LeastBase(lines).GetOr("")
  {
    if lines != [] {
      var prefix := lines[..|lines| - 1];
      assert forall j :: 0 <= j < |prefix| ==> prefix[j] == lines[j];
      AsWrittenIsLeastWhenIndented(prefix);
      LeastBaseMeaning(prefix);
      if prefix != [] {
        var j :| 0 <= j < |prefix| && LeastBase(prefix).value == BaseIndent(prefix[j]);
        assert AsWrittenBase(prefix) != "";
      }
    }
  }

  /**
   * As written, a line without indentation resets the choice: the next
   * considered line's indent is picked, however long, although the least
   * indent is now empty (for instance "  a", "b", "    c" gives "    ").
   */
  lemma AsWrittenForgetsUnindented(lines: seq<string>, x: string, y: string)
    requires BaseIndent(x) == ""
    ensures AsWrittenBase(lines + [x, y]) == BaseIndent(y)
    ensures LeastBase(lines + [x, y]) == Some("")
  {
    var all := lines + [x, y];
    assert all[..|all| - 1] == lines + [x];
    assert (lines + [x])[..|lines + [x]| - 1] == lines;
    assert all[|lines|] == x;
  }

  /** The text after every line's base indent is removed: `text.replaceAll(new RegExp(`(^|\n)${baseIndent}`, "g"), "$1")`. */
  function StripBase(text: string, baseIndent: string): (r: string)
    ensures var ls := Lines(text);
      && |Lines(r)| == |ls|
      && forall k :: 0 <= k < |ls| ==> Lines(r)[k] == if StartsWith(ls[k], baseIndent) then ls[k][|baseIndent|..] else ls[k]
  {
    var ls := Lines(text);
    var out := seq(|ls|, k requires 0 <= k < |ls| => if StartsWith(ls[k], baseIndent) then ls[k][|baseIndent|..] else ls[k]);
    assert forall k :: 0 <= k < |ls| ==> '\n' !in out[k] by {
      forall k | 0 <= k < |ls| ensures '\n' !in out[k] {
        assert forall c :: c in out[k] ==> c in ls[k];
      }
    }
    UnlinesRoundTrip(out);
    Unlines(out)
  }

  /** An empty base indent leaves the text as it is. */
  lemma StripNothing(text: string)
    ensures StripBase(text, "") == text
  {
    var ls := Lines(text);
    var r := StripBase(text, "");
    LinesRoundTrip(text);
    LinesRoundTrip(r);
    assert Lines(r) == ls by {
      forall k | 0 <= k < |ls| ensures Lines(r)[k] == ls[k] {
        assert StartsWith(ls[k], "");
        assert ls[k][0..] == ls[k];
      }
    }
  }

  /** What trimBaseIndent returns once the loop has picked baseIndent from the text t (in "\n" newlines, final newline dropped). */
  function Trimmed(t: string, baseIndent: string, newline: string): string
    requires |newline| > 0
  {
    ReplaceAll(StripBase(t, baseIndent), "\n", newline)
  }

  /**
   * `trimBaseIndent(text)` as written, with the newline string given: the
   * loop over the lines picks the base indent by AsWrittenBase, which is
   * then removed from the start of every line.
   */
  method TrimBaseIndent(text: string, newline: string) returns (r: string)
    requires |newline| > 0
    ensures var c := Chomp(ReplaceAll(text, newline, "\n"));
      r == Trimmed(c.0, AsWrittenBase(Considered(SplitLines(c.0), c.1)), newline)
  {
    var t := ReplaceAll(text, newline, "\n");
    var isCharWise := !EndsWith(t, "\n");
    if !isCharWise {
      t := t[..|t| - 1];
    }
    assert (t, isCharWise) == Chomp(ReplaceAll(text, newline, "\n"));
    var baseIndent := PickBase(SplitLines(t), isCharWise);
    r := Trimmed(t, baseIndent, newline);
  }

  /** The loop of trimBaseIndent over the lines, which picks the base indent as written. */
  method PickBase(lines: seq<string>, isCharWise: bool) returns (baseIndent: string)
    ensures baseIndent == AsWrittenBase(Considered(lines, isCharWise))
  {
    var isFirstLine := true;
    baseIndent := "";
    var i := 0;
    while i < |lines|
      invariant 0 <= i <= |lines|
      invariant isCharWise ==> (isFirstLine <==> i == 0)
      invariant baseIndent == PickAfter(lines, i, isCharWise)
    {
      var line := lines[i];
      if isCharWise && isFirstLine {
        isFirstLine := false;
      } else if line != "" {
        var indent := BaseIndent(line);
        if baseIndent == "" || |indent| < |baseIndent| {
          baseIndent := indent;
        }
      }
      i := i + 1;
    }
    PickAfterMeaning(lines, i, isCharWise);
    assert lines[..i] == lines;
  }

  /** The base indent the loop of trimBaseIndent holds after the first i lines, as written. */
  function PickAfter(lines: seq<string>, i: nat, charWise: bool): string
    requires i <= |lines|
  {
    if i == 0 then ""
    else
      var before := PickAfter(lines, i - 1, charWise);
      if (charWise && i == 1) || lines[i - 1] == "" then before else Choose(before, BaseIndent(lines[i - 1]))
  }

  lemma {:induction false} PickAfterMeaning(lines: seq<string>, i: nat, charWise: bool)
    requires i <= |lines|
    ensures PickAfter(lines, i, charWise) == AsWrittenBase(Considered(lines[..i], charWise))
  {
    if i > 0 {
      PickAfterMeaning(lines, i - 1, charWise);
      AsWrittenStep(lines, i - 1, charWise);
      var before := PickAfter(lines, i - 1, charWise);
      assert PickAfter(lines, i, charWise) ==
        if (charWise && i == 1) || lines[i - 1] == "" then before else Choose(before, BaseIndent(lines[i - 1]));
    }
  }

  /** The text trimBaseIndent evidently means to return: the text without the least indent of the considered lines. */
  function TrimmedIntended(text: string, newline: string): string
    requires |newline| > 0
  {
    var c := Chomp(ReplaceAll(text, newline, "\n"));
    Trimmed(c.0, LeastBase(Considered(SplitLines(c.0), c.1)).GetOr(""), newline)
  }

  /** `trimBaseIndent` with the least indent removed: "none yet" is kept apart from an empty indent. */
  method TrimBaseIndentIntended(text: string, newline: string) returns (r: string)
    requires |newline| > 0
    ensures r == TrimmedIntended(text, newline)
  {
    var t := ReplaceAll(text, newline, "\n");
    var isCharWise := !EndsWith(t, "\n");
    if !isCharWise {
      t := t[..|t| - 1];
    }
    assert (t, isCharWise) == Chomp(ReplaceAll(text, newline, "\n"));
    var best := PickLeast(SplitLines(t), isCharWise);
    r := Trimmed(t, best.GetOr(""), newline);
  }

  /** The intended loop over the lines, which keeps the least indent and "none yet" apart. */
  method PickLeast(lines: seq<string>, isCharWise: bool) returns (best: Option<string>)
    ensures best == LeastBase(Considered(lines, isCharWise))
  {
    var isFirstLine := true;
    best := None;
    var i := 0;
    while i < |lines|
      invariant 0 <= i <= |lines|
      invariant isCharWise ==> (isFirstLine <==> i == 0)
      invariant best == LeastBase(Considered(lines[..i], isCharWise))
    {
      var line := lines[i];
      LeastStep(lines, i, isCharWise);
      if isCharWise && isFirstLine {
        isFirstLine := false;
      } else if line != "" {
        var indent := BaseIndent(line);
        if best.None? || |indent| < |best.value| {
          best := Some(indent);
        }
      }
      i := i + 1;
    }
    assert lines[..i] == lines;
  }

  /** One pass of the intended loop body on the least indent. */
  lemma LeastStep(lines: seq<string>, i: nat, charWise: bool)
    requires i < |lines|
    ensures var before := LeastBase(Considered(lines[..i], charWise)); var indent := BaseIndent(lines[i]);
      LeastBase(Considered(lines[..i + 1], charWise)) ==
        if (charWise && i == 0) || lines[i] == "" then before
        else if before.None? || |indent| < |before.value| then Some(indent) else before
  {
    ConsideredStep(lines, i, charWise);
    LeastSnoc(Considered(lines[..i], charWise), lines[i]);
  }

  /**
   * A char-wise selection on one line (no newline of either convention)
   * comes back unchanged from both readings of trimBaseIndent: the only
   * line is the first one, which a char-wise text does not consider.
   */
  lemma TrimOneLine(text: string, newline: string)
    requires |newline| > 0 && !Contains(text, newline)
    requires '\n' !in text && '\r' !in text
    ensures TrimmedIntended(text, newline) == text
    ensures Trimmed(text, AsWrittenBase(Considered(SplitLines(text), true)), newline) == text
  {
    ReplaceAllAbsent(text, newline, "\n");
    if |text| > 0 {
      assert text[|text| - 1] in text;
    }
    SplitLinesSingle(text);
    assert Considered([text], true) == [];
    StripNothing(text);
    CharAbsent(text, '\n');
    ReplaceAllAbsent(text, "\n", newline);
  }
}
