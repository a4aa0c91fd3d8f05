/**
 * The snippet variables (`$TM_FILENAME`, `$CLIPBOARD`, ...): a registry of
 * named providers, and the providers themselves. What a provider reads
 * from the editor (the current line, registers, options, the clock) is a
 * field of an Editor value handed to it.
 */
module Variables {
  import opened Options
  import opened Strings
  import Indent

  /** The buffer's newline string ("\n", "\r\n" or "\r"). */
  type Newline = s: string | |s| > 0 witness "\n"

  /** The editor state the providers read. */
  datatype Editor = Editor(
    line: int,                 // line(".")
    currentLine: string,       // getline(".")
    unnamed: string,           // getreg('"')
    register: Option<string>,  // getreg(), when it is a string
    commentstring: string,     // &commentstring
    comments: string,          // &comments
    timezoneOffset: int,       // Date.getTimezoneOffset(), in minutes
    epochMillis: int,          // Date.getTime()
    newline: Newline,
    expand: string -> string,  // expand(...)
    strftime: string -> string // strftime(...)
  )

  /** A provider: the editor and the variable's default text give its value; None is `undefined`. */
  type VariableFunc = (Editor, string) -> Option<string>

  /**
   * `call(name, text)`: the provider registered last under the name, or
   * `undefined` when there is none. The `Cell` record is the built-in
   * registrations (Builtin) overlaid with the ones made since (`cells`).
   */
  function Lookup(cells: map<string, VariableFunc>, name: string, e: Editor, text: string): Option<string> {
    if name in cells then cells[name](e, text)
    else match Builtin(name)
      case Some(cb) => cb(e, text)
      case None => None
  }

  /** `register` replaces the provider of its own name and no other. */
  lemma LookupAfterRegister(cells: map<string, VariableFunc>, name: string, cb: VariableFunc, other: string, e: Editor, text: string)
    ensures Lookup(cells[name := cb], other, e, text) ==
      if other == name then cb(e, text) else Lookup(cells, other, e, text)
  {
  }

  /** The registrations made after the built-in ones, i.e. what `Cell` adds to Builtin. */
  class Registry {
    var cells: map<string, VariableFunc>

    /** The registry once variable.ts has been loaded: only the built-in providers. */
    constructor ()
      ensures cells == map[]
    {
      cells := map[];
    }

    /** `register(name, cb)` */
    method Register(name: string, cb: VariableFunc)
      modifies this
      ensures cells == old(cells)[name := cb]
      ensures forall other :: other != name && other in old(cells) ==> other in cells && cells[other] == old(cells)[other]
    {
      cells := cells[name := cb];
    }

    /** `call(name, text)` */
    function Call(e: Editor, name: string, text: string): (r: Option<string>)
      reads this
      ensures name !in cells && Builtin(name).None? ==> r.None?
      ensures name in cells ==> r == cells[name](e, text)
    {
      Lookup(cells, name, e, text)
    }
  }

  /* ---------------------------------------------------------------- */
  /* Providers                                                        */
  /* ---------------------------------------------------------------- */

  function SelectedText(e: Editor, text: string): Option<string> {
    Some(Indent.TrimmedIntended(e.unnamed, e.newline))
  }

  function CurrentLine(e: Editor, text: string): Option<string> {
    Some(e.currentLine)
  }

  function Empty(e: Editor, text: string): Option<string> {
    Some("")
  }

  /** The zero-based line number: reading it back and adding one gives the editor's line. */
  function LineIndex(e: Editor, text: string): (r: Option<string>)
    ensures r.Some? && |r.value| >= 1 && (r.value[0] == '-' ==> |r.value| >= 2)
    ensures ParseInt(r.value) + 1 == e.line
    ensures r.value[0] == '-' <==> e.line < 1
  {
    IntToStringRoundTrip(e.line - 1);
    Some(IntToString(e.line - 1))
  }

  /** The one-based line number: reading it back gives the editor's line. */
  function LineNumber(e: Editor, text: string): (r: Option<string>)
    ensures r.Some? && |r.value| >= 1 && (r.value[0] == '-' ==> |r.value| >= 2)
    ensures ParseInt(r.value) == e.line
  {
    IntToStringRoundTrip(e.line);
    Some(IntToString(e.line))
  }

  function Filename(e: Editor, text: string): Option<string> { Some(e.expand("%:p:t")) }
  function FilenameBase(e: Editor, text: string): Option<string> { Some(e.expand("%:p:t:r")) }
  function Directory(e: Editor, text: string): Option<string> { Some(e.expand("%:p:h:t")) }
  function Filepath(e: Editor, text: string): Option<string> { Some(e.expand("%:p")) }
  function RelativeFilepath(e: Editor, text: string): Option<string> { Some(e.expand("%")) }

  /** The register trimmed of its base indent, or the default text when the register is not a string. */
  function Clipboard(e: Editor, text: string): (r: Option<string>)
    ensures r.Some?
    ensures e.register.None? ==> r.value == text
  {
    match e.register
    case Some(s) => Some(Indent.TrimmedIntended(s, e.newline))
    case None => Some(text)
  }

  function CursorIndex(e: Editor, text: string): Option<string> { Some("0") }
  function CursorNumber(e: Editor, text: string): Option<string> { Some("1") }

  function Year(e: Editor, text: string): Option<string> { Some(e.strftime("%Y")) }
  function YearShort(e: Editor, text: string): Option<string> { Some(e.strftime("%y")) }
  function Month(e: Editor, text: string): Option<string> { Some(e.strftime("%m")) }
  function MonthName(e: Editor, text: string): Option<string> { Some(e.strftime("%B")) }
  function MonthNameShort(e: Editor, text: string): Option<string> { Some(e.strftime("%b")) }
  function Date(e: Editor, text: string): Option<string> { Some(e.strftime("%d")) }
  function DayName(e: Editor, text: string): Option<string> { Some(e.strftime("%A")) }
  function DayNameShort(e: Editor, text: string): Option<string> { Some(e.strftime("%a")) }
  function Hour(e: Editor, text: string): Option<string> { Some(e.strftime("%H")) }
  function Minute(e: Editor, text: string): Option<string> { Some(e.strftime("%M")) }
  function Second(e: Editor, text: string): Option<string> { Some(e.strftime("%S")) }

  function Abs(n: int): nat { if n < 0 then -n else n }

  lemma DivBounds(n: nat, d: nat)
    requires d > 0
    ensures (n / d) * d <= n < (n / d) * d + d
  {
    assert n == (n / d) * d + n % d;
  }

  /** `Math.trunc(n / d)`: the quotient rounded toward zero, so its sign follows n. */
  function TruncDiv(n: int, d: nat): (q: int)
    requires d > 0
    ensures (n >= 0 ==> q >= 0) && (n <= 0 ==> q <= 0)
    ensures Abs(q) * d <= Abs(n) < Abs(q) * d + d
  {
    var m := Abs(n);
    DivBounds(m, d);
    assert Abs(m / d) == m / d;
    if n >= 0 then m / d else -(m / d)
  }

  function SecondsUnix(e: Editor, text: string): (r: Option<string>)
    ensures r.Some? && |r.value| >= 1 && (r.value[0] == '-' ==> |r.value| >= 2)
    ensures var s := ParseInt(r.value); Abs(s) * 1000 <= Abs(e.epochMillis) < Abs(s) * 1000 + 1000
  {
    var q := TruncDiv(e.epochMillis, 1000);
    IntToStringRoundTrip(q);
    Some(IntToString(q))
  }

  /** `n.toString().padStart(2, "0")` */
  function TwoDigits(n: nat): (r: string)
    ensures |r| >= 2 && forall k :: 0 <= k < |r| ==> IsDigit(r[k])
    ensures n < 100 ==> |r| == 2
  {
    PadStart(NatToString(n), 2, '0')
  }

  lemma TwoDigitsValue(n: nat)
    ensures DecimalValue(TwoDigits(n)) == n
  {
    var s := NatToString(n);
    DecimalValueOfNatToString(n);
    if n < 10 {
      var r := TwoDigits(n);
      assert r == "0" + s;
      assert r[..1] == "0";
    }
  }

  /** `HH:MM` for a number of minutes. */
  function Clock(minutes: nat): string {
    TwoDigits(minutes / 60) + ":" + TwoDigits(minutes % 60)
  }

  /** The `+HH:MM` / `-HH:MM` form of an offset in minutes east of UTC. */
  function FormatOffset(offsetMinutes: int): (r: string)
    ensures |r| >= 6 && (r[0] == '+' <==> offsetMinutes >= 0) && (r[0] == '-' <==> offsetMinutes < 0)
    ensures Abs(offsetMinutes) < 6000 ==>
      |r| == 6 && IsDigit(r[1]) && IsDigit(r[2]) && r[3] == ':' && IsDigit(r[4]) && IsDigit(r[5])
  {
    var sign := if offsetMinutes >= 0 then "+" else "-";
    sign + Clock(Abs(offsetMinutes))
  }

  predicate AllDigits(s: string) {
    |s| >= 1 && forall k :: 0 <= k < |s| ==> IsDigit(s[k])
  }

  /** Reads `HH:MM` back into minutes. */
  function ParseClock(t: string): Option<int> {
    var parts := SplitOn(t, ":");
    if |parts| != 2 || !AllDigits(parts[0]) || !AllDigits(parts[1]) then None
    else Some(DecimalValue(parts[0]) * 60 + DecimalValue(parts[1]))
  }

  /** Reads a `+HH:MM` / `-HH:MM` offset back into minutes; None for any other text. */
  function ParseOffset(s: string): Option<int> {
    if |s| == 0 || !(s[0] == '+' || s[0] == '-') then None
    else match ParseClock(s[1..])
      case None => None
      case Some(m) => Some(if s[0] == '+' then m else -m)
  }

  /** The clock text splits at its colon into the hours and the minutes. */
  lemma ClockPieces(minutes: nat)
    ensures SplitOn(Clock(minutes), ":") == [TwoDigits(minutes / 60), TwoDigits(minutes % 60)]
  {
    var h, m := TwoDigits(minutes / 60), TwoDigits(minutes % 60);
    assert Join([h, m], ":") == h + ":" + m by {
      assert [h, m][1..] == [m];
    }
    SplitOnJoin([h, m], ':');
  }

  lemma ClockRoundTrip(minutes: nat)
    ensures ParseClock(Clock(minutes)) == Some(minutes)
  {
    ClockPieces(minutes);
    TwoDigitsValue(minutes / 60);
    TwoDigitsValue(minutes % 60);
  }

  /** The time-zone text determines the offset: reading it back gives the minutes again. */
  lemma OffsetRoundTrip(offsetMinutes: int)
    ensures ParseOffset(FormatOffset(offsetMinutes)) == Some(offsetMinutes)
  {
    var r := FormatOffset(offsetMinutes);
    assert r[1..] == Clock(Abs(offsetMinutes));
    ClockRoundTrip(Abs(offsetMinutes));
  }

  function TimezoneOffset(e: Editor, text: string): (r: Option<string>)
    ensures r.Some? && ParseOffset(r.value) == Some(-e.timezoneOffset)
  {
    OffsetRoundTrip(-e.timezoneOffset);
    Some(FormatOffset(-e.timezoneOffset))
  }

  /* ---------------------------------------------------------------- */
  /* Comment strings                                                  */
  /* ---------------------------------------------------------------- */

  /** `const [flags, str] = com.split(":")`: str is undefined when com has no colon. */
  function Entry(com: string): (r: (string, Option<string>))
    ensures r.1.Some? <==> Contains(com, ":")
    ensures r.1.None? ==> r.0 == com
    ensures ':' !in r.0
  {
    FindContains(com, ":");
    var parts := SplitOn(com, ":");
    var flags := parts[0];
    assert ':' !in flags by {
      FindIsFirst(com, ":");
      if ':' in flags {
        var k :| 0 <= k < |flags| && flags[k] == ':';
        assert OccursAt(com, ":", k);
      }
    }
    (flags, if |parts| >= 2 then Some(parts[1]) else None)
  }

  /** A colon-free flags field and a colon-free string make the entry `flags:str`. */
  lemma EntryOf(flags: string, str: string)
    requires ':' !in flags && ':' !in str
    ensures Entry(flags + ":" + str) == (flags, Some(str))
  {
    assert Join([flags, str], ":") == flags + ":" + str;
    SplitOnJoin([flags, str], ':');
  }

  predicate Marked(com: string, flag: char) {
    flag in Entry(com).0
  }

  /**
   * What the `forEach` over the entries leaves behind: the `str` of the
   * last entry whose flags contain flag (undefined again if that entry has
   * no colon), or undefined when no entry has the flag.
   */
  function LastMarked(coms: seq<string>, flag: char): Option<string> {
    if coms == [] then None
    else if Marked(coms[|coms| - 1], flag) then Entry(coms[|coms| - 1]).1
    else LastMarked(coms[..|coms| - 1], flag)
  }

  /** With no entry flagged, the providers' variable stays undefined. */
  lemma {:induction false} LastMarkedNone(coms: seq<string>, flag: char)
    requires forall k :: 0 <= k < |coms| ==> !Marked(coms[k], flag)
    ensures LastMarked(coms, flag).None?
  {
    if coms != [] {
      assert !Marked(coms[|coms| - 1], flag);
      LastMarkedNone(coms[..|coms| - 1], flag);
    }
  }

  /** The last flagged entry decides: its str (or undefined when it has no colon). */
  lemma {:induction false} LastMarkedLast(coms: seq<string>, flag: char, k: nat)
    requires k < |coms| && Marked(coms[k], flag)
    requires forall j :: k < j < |coms| ==> !Marked(coms[j], flag)
    ensures LastMarked(coms, flag) == Entry(coms[k]).1
  {
    if k < |coms| - 1 {
      assert !Marked(coms[|coms| - 1], flag);
      LastMarkedLast(coms[..|coms| - 1], flag, k);
    }
  }

  /** The `forEach` loop of the block-comment providers over `comments.split(",")`. */
  method ScanComments(comments: string, flag: char) returns (found: Option<string>)
    ensures found == LastMarked(SplitOn(comments, ","), flag)
  {
    var coms := SplitOn(comments, ",");
    found := None;
    var i := 0;
    while i < |coms|
      invariant 0 <= i <= |coms|
      invariant found == LastMarked(coms[..i], flag)
    {
      var entry := Entry(coms[i]);
      assert coms[..i + 1][..i] == coms[..i];
      if flag in entry.0 {
        found := entry.1;
      }
      i := i + 1;
    }
    assert coms[..i] == coms;
  }

  /** `BLOCK_COMMENT_START` */
  function BlockCommentStart(e: Editor, text: string): (r: Option<string>)
    ensures r.Some?
    ensures !EndsWith(e.commentstring, "%s") ==> StartsWith(e.commentstring, r.value) && !Contains(r.value, "%s")
  {
    var cs := e.commentstring;
    if !EndsWith(cs, "%s") then
      var before := SplitOn(cs, "%s")[0];
      assert StartsWith(cs, before) && !Contains(before, "%s") by { HeadPiece(cs, "%s"); }
      Some(before)
    else
      Some(LastMarked(SplitOn(e.comments, ","), 's').GetOr(text))
  }

  /** `BLOCK_COMMENT_END`: undefined when the comment string neither ends in nor contains `%s`. */
  function BlockCommentEnd(e: Editor, text: string): (r: Option<string>)
    ensures EndsWith(e.commentstring, "%s") ==> r.Some?
    ensures !EndsWith(e.commentstring, "%s") ==> (r.Some? <==> Contains(e.commentstring, "%s"))
  {
    var cs := e.commentstring;
    if !EndsWith(cs, "%s") then
      var parts := SplitOn(cs, "%s");
      assert |parts| >= 2 <==> Contains(cs, "%s") by { FindContains(cs, "%s"); }
      if |parts| >= 2 then Some(parts[1]) else None
    else
      Some(LastMarked(SplitOn(e.comments, ","), 'e').GetOr(text))
  }

  /** `LINE_COMMENT` */
  function LineComment(e: Editor, text: string): (r: Option<string>)
    ensures r.Some?
    ensures !EndsWith(e.commentstring, "%s") ==> r.value == text
  {
    if EndsWith(e.commentstring, "%s") then Some(ReplaceFirst(e.commentstring, "%s", "")) else Some(text)
  }

  /** The first piece of a split is a prefix of the text holding no separator. */
  lemma HeadPiece(s: string, separator: string)
    requires |separator| > 0
    ensures StartsWith(s, SplitOn(s, separator)[0]) && !Contains(SplitOn(s, separator)[0], separator)
  {
    var head := SplitOn(s, separator)[0];
    FindIsFirst(s, separator);
    if Contains(head, separator) {
      var j: nat :| j <= |head| && OccursAt(head, separator, j);
      assert s[j..j + |separator|] == head[j..j + |separator|];
      assert OccursAt(s, separator, j);
    }
  }

  /** In `a%sb` with no `%s` inside a, the first `%s` is the one after a. */
  lemma FirstPlaceholder(a: string, b: string)
    requires !Contains(a, "%s")
    ensures Find(a + "%s" + b, "%s") == |a|
  {
    var cs := a + "%s" + b;
    forall i: nat | i < |a| ensures !OccursAt(cs, "%s", i) {
      if i + 2 <= |a| {
        assert cs[i..i + 2] == a[i..i + 2];
        assert !OccursAt(a, "%s", i);
      } else {
        assert cs[i + 1] == '%';
      }
    }
    assert OccursAt(cs, "%s", |a|);
    FindIsFirst(cs, "%s");
  }

  /** A comment string `a%sb` with a non-empty tail b does not end in `%s`. */
  lemma WrappedDoesNotEnd(a: string, b: string)
    requires !Contains(b, "%s") && |b| > 0
    ensures !EndsWith(a + "%s" + b, "%s")
  {
    var cs := a + "%s" + b;
    if |b| >= 2 {
      assert cs[|cs| - 2..] == b[|b| - 2..];
      assert !OccursAt(b, "%s", |b| - 2);
    } else {
      assert cs[|cs| - 2] == 's';
    }
  }

  /**
   * A comment string `a%sb` with a non-empty tail names both block ends
   * directly (an HTML-style `<!--%s-->` gives `<!--` and `-->`), and then
   * `LINE_COMMENT` falls back to the default.
   */
  lemma WrappedCommentString(e: Editor, text: string, a: string, b: string)
    requires !Contains(a, "%s") && !Contains(b, "%s") && |b| > 0
    requires e.commentstring == a + "%s" + b
    ensures BlockCommentStart(e, text) == Some(a)
    ensures BlockCommentEnd(e, text) == Some(b)
    ensures LineComment(e, text) == Some(text)
  {
    var cs := e.commentstring;
    WrappedDoesNotEnd(a, b);
    FirstPlaceholder(a, b);
    assert cs[..|a|] == a;
    assert cs[|a| + 2..] == b;
    FindContains(b, "%s");
    assert SplitOn(b, "%s") == [b];
    assert SplitOn(cs, "%s") == [a] + SplitOn(b, "%s");
  }

  /** A comment string `a%s` ends in its only `%s`, which `LINE_COMMENT` removes. */
  lemma LeadingLineComment(e: Editor, text: string, a: string)
    requires !Contains(a, "%s") && e.commentstring == a + "%s"
    ensures EndsWith(e.commentstring, "%s")
    ensures LineComment(e, text) == Some(a)
  {
    var cs := e.commentstring;
    assert cs[|cs| - 2..] == "%s";
    assert cs == a + "%s" + "";
    FirstPlaceholder(a, "");
    assert cs[..|a|] == a && cs[|a| + 2..] == [];
    assert Find(cs, "%s") == |a|;
    assert ReplaceFirst(cs, "%s", "") == a;
    assert EndsWith(cs, "%s");
  }

  /** When the comment string ends in `%s`, a block end is the str of the last entry with its flag, or the default. */
  lemma BlockEndsFromComments(e: Editor, text: string, coms: seq<string>)
    requires EndsWith(e.commentstring, "%s")
    requires e.comments == Join(coms, ",") && |coms| >= 1 && forall k :: 0 <= k < |coms| ==> ',' !in coms[k]
    ensures BlockCommentStart(e, text) == Some(LastMarked(coms, 's').GetOr(text))
    ensures BlockCommentEnd(e, text) == Some(LastMarked(coms, 'e').GetOr(text))
  {
    SplitOnJoin(coms, ',');
  }

  /* ---------------------------------------------------------------- */
  /* The built-in registrations                                       */
  /* ---------------------------------------------------------------- */

  /** The provider variable.ts registers under a name, for every name it registers except RANDOM, RANDOM_HEX and UUID. */
  function Builtin(name: string): Option<VariableFunc> {
    match name
    case "TM_SELECTED_TEXT" => Some(SelectedText)
    case "TM_CURRENT_LINE" => Some(CurrentLine)
    case "TM_CURRENT_WORD" => Some(Empty)
    case "TM_LINE_INDEX" => Some(LineIndex)
    case "TM_LINE_NUMBER" => Some(LineNumber)
    case "TM_FILENAME" => Some(Filename)
    case "TM_FILENAME_BASE" => Some(FilenameBase)
    case "TM_DIRECTORY" => Some(Directory)
    case "TM_FILEPATH" => Some(Filepath)
    case "RELATIVE_FILEPATH" => Some(RelativeFilepath)
    case "CLIPBOARD" => Some(Clipboard)
    case "WORKSPACE_NAME" => Some(Empty)
    case "WORKSPACE_FOLDER" => Some(Empty)
    case "CURSOR_INDEX" => Some(CursorIndex)
    case "CURSOR_NUMBER" => Some(CursorNumber)
    case "CURRENT_YEAR" => Some(Year)
    case "CURRENT_YEAR_SHORT" => Some(YearShort)
    case "CURRENT_MONTH" => Some(Month)
    case "CURRENT_MONTH_NAME" => Some(MonthName)
    case "CURRENT_MONTH_NAME_SHORT" => Some(MonthNameShort)
    case "CURRENT_DATE" => Some(Date)
    case "CURRENT_DAY_NAME" => Some(DayName)
    case "CURRENT_DAY_NAME_SHORT" => Some(DayNameShort)
    case "CURRENT_HOUR" => Some(Hour)
    case "CURRENT_MINUTE" => Some(Minute)
    case "CURRENT_SECOND" => Some(Second)
    case "CURRENT_SECONDS_UNIX" => Some(SecondsUnix)
    case "CURRENT_TIMEZONE_OFFSET" => Some(TimezoneOffset)
    case "BLOCK_COMMENT_START" => Some(BlockCommentStart)
    case "BLOCK_COMMENT_END" => Some(BlockCommentEnd)
    case "LINE_COMMENT" => Some(LineComment)
    case _ => None
  }

  /** The constant providers. */
  lemma BuiltinConstants(e: Editor, text: string)
    ensures Lookup(map[], "TM_CURRENT_WORD", e, text) == Some("")
    ensures Lookup(map[], "WORKSPACE_NAME", e, text) == Some("")
    ensures Lookup(map[], "WORKSPACE_FOLDER", e, text) == Some("")
    ensures Lookup(map[], "CURSOR_INDEX", e, text) == Some("0")
    ensures Lookup(map[], "CURSOR_NUMBER", e, text) == Some("1")
  {
  }

  /** A one-line char-wise selection comes back as it is. */
  lemma BuiltinSelection(e: Editor, text: string)
    requires !Contains(e.unnamed, e.newline) && '\n' !in e.unnamed && '\r' !in e.unnamed
    ensures Lookup(map[], "TM_SELECTED_TEXT", e, text) == Some(e.unnamed)
  {
    Indent.TrimOneLine(e.unnamed, e.newline);
  }

  /** A one-line clipboard comes back as it is (the register holding "foobar" gives "foobar"); no string gives the default. */
  lemma BuiltinClipboard(e: Editor, text: string)
    requires e.register.Some? ==> !Contains(e.register.value, e.newline) && '\n' !in e.register.value && '\r' !in e.register.value
    ensures Lookup(map[], "CLIPBOARD", e, text) == Some(e.register.GetOr(text))
  {
    assert Builtin("CLIPBOARD") == Some(Clipboard);
    if e.register.Some? {
      Indent.TrimOneLine(e.register.value, e.newline);
    }
  }

  /** The line providers name the cursor line (line 2 gives "1" and "2"). */
  lemma BuiltinLines(e: Editor, text: string)
    ensures Lookup(map[], "TM_CURRENT_LINE", e, text) == Some(e.currentLine)
    ensures var r := Lookup(map[], "TM_LINE_INDEX", e, text); r.Some? && r.value == IntToString(e.line - 1)
    ensures var r := Lookup(map[], "TM_LINE_NUMBER", e, text); r.Some? && r.value == IntToString(e.line)
  {
  }
}
