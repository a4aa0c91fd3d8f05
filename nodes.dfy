/**
 * The run-time side of the second-generation node tree (node.ts), the one
 * snippet.ts drives. It differs from parser/node.ts in four ways: `getText`
 * takes an optional tabstop number that switches a mirror's transform off
 * for its own tabstop; a variable asks the variable registry for its text
 * once and caches it; every node, placeholders and the snippet included,
 * stores the range it covers; and a mirror whose text changed is rewritten
 * in the buffer at its old range moved to its new start, with the cursor
 * kept in place relative to the end of what was written.
 */
module Nodes {
  import opened Options
  import opened Ast
  import opened Strings
  import opened Positions
  import opened Formats
  import opened Trees
  import opened Util
  import opened Host

  /** What a node's text calls on: the transform's regular expressions and case conversions, and `V.call` for a variable's name. */
  datatype TextLib = TextLib(regex: RegexLib, cases: CaseLib, provider: string -> Option<string>)

  /** What a variable's getText computes the first time: the provider's text, "" without one, through the transform. */
  function VariableValue(name: string, transform: Option<Transform>, lib: TextLib): (r: string)
    ensures transform.None? ==> r == lib.provider(name).GetOr("")
  {
    ApplyTransform(transform, lib.provider(name).GetOr(""), lib.regex, lib.cases)
  }

  /** `tabstop !== this.tabstop`: an absent argument differs from every number. */
  predicate Differs(arg: Option<nat>, tabstop: nat) {
    arg != Some(tabstop)
  }

  /**
   * `getText(arg)` of the node n at path p, following at most `hops` copy
   * links (None when it would follow more). A variable shows its cached
   * text, or the text it would compute and cache. A mirror tabstop passes
   * the argument on and transforms what it gets only when the argument
   * is not its own number; a mirror placeholder asks its copy without one.
   */
  function GetText(m: Marks, texts: map<Path, string>, n: Node, p: Path, arg: Option<nat>, hops: nat, lib: TextLib): (r: Option<string>)
    ensures n.IsJumpable() && !n.Choice? && p in m.input ==> r == Some(m.input[p])
    decreases hops, n, 1
  {
    match n
    case Text(text) => Some(text)
    case Variable(name, transform, _) => Some(if p in texts then texts[p] else VariableValue(name, transform, lib))
    case Choice(_, items) => Some(ChoiceText(items, IndexAt(m, p)))
    case Tabstop(tabstop, transform) =>
      if p in m.input then Some(m.input[p])
      else if p in m.copy then
        if hops == 0 then None
        else
          match GetText(m, texts, m.copy[p].node, m.copy[p].path, arg, hops - 1, lib)
          case None => None
          case Some(text) => Some(if Differs(arg, tabstop) then ApplyTransform(transform, text, lib.regex, lib.cases) else text)
      else Some("")
    case Placeholder(_, children) =>
      if p in m.input then Some(m.input[p])
      else if p in m.copy then
        if hops == 0 then None else GetText(m, texts, m.copy[p].node, m.copy[p].path, None, hops - 1, lib)
      else JoinText(m, texts, children, p, 0, arg, hops, lib)
  }

  /** The children's texts from child j on, joined. */
  function JoinText(m: Marks, texts: map<Path, string>, nodes: seq<Node>, p: Path, j: nat, arg: Option<nat>, hops: nat, lib: TextLib): Option<string>
    requires j <= |nodes|
    decreases hops, nodes, |nodes| - j
  {
    if j == |nodes| then Some("")
    else
      match GetText(m, texts, nodes[j], p + [j], arg, hops, lib)
      case None => None
      case Some(head) =>
        match JoinText(m, texts, nodes, p, j + 1, arg, hops, lib)
        case None => None
        case Some(rest) => Some(head + rest)
  }

  /**
   * The tabstop argument only ever switches transforms off: for a tabstop
   * mirror of tabstop k without input, asking with k shows its copy's text
   * as is, and asking with no number or another shows it transformed.
   */
  lemma MirrorTabstopText(m: Marks, texts: map<Path, string>, n: Node, p: Path, arg: Option<nat>, hops: nat, lib: TextLib)
    requires n.Tabstop? && p !in m.input && p in m.copy
    requires GetText(m, texts, m.copy[p].node, m.copy[p].path, arg, hops, lib).Some?
    ensures var source := GetText(m, texts, m.copy[p].node, m.copy[p].path, arg, hops, lib).value;
      && (arg == Some(n.tabstop) ==> GetText(m, texts, n, p, arg, hops + 1, lib) == Some(source))
      && (arg != Some(n.tabstop) ==> GetText(m, texts, n, p, arg, hops + 1, lib) == Some(ApplyTransform(n.transform, source, lib.regex, lib.cases)))
  {
  }

  /** With more copy links allowed, a text that was already defined stays the same. */
  lemma {:induction false} GetTextHops(m: Marks, texts: map<Path, string>, n: Node, p: Path, arg: Option<nat>, hops: nat, more: nat, lib: TextLib)
    requires GetText(m, texts, n, p, arg, hops, lib).Some?
    requires hops <= more
    ensures GetText(m, texts, n, p, arg, more, lib) == GetText(m, texts, n, p, arg, hops, lib)
    decreases hops, n, 1
  {
    match n
    case Text(_) =>
    case Variable(_, _, _) =>
    case Choice(_, _) =>
    case Tabstop(_, _) =>
      if p !in m.input && p in m.copy {
        GetTextHops(m, texts, m.copy[p].node, m.copy[p].path, arg, hops - 1, more - 1, lib);
      }
    case Placeholder(_, children) =>
      if p !in m.input && p in m.copy {
        GetTextHops(m, texts, m.copy[p].node, m.copy[p].path, None, hops - 1, more - 1, lib);
      } else if p !in m.input {
        JoinTextHops(m, texts, children, p, 0, arg, hops, more, lib);
      }
  }

  lemma {:induction false} JoinTextHops(m: Marks, texts: map<Path, string>, nodes: seq<Node>, p: Path, j: nat, arg: Option<nat>, hops: nat, more: nat, lib: TextLib)
    requires j <= |nodes|
    requires JoinText(m, texts, nodes, p, j, arg, hops, lib).Some?
    requires hops <= more
    ensures JoinText(m, texts, nodes, p, j, arg, more, lib) == JoinText(m, texts, nodes, p, j, arg, hops, lib)
    decreases hops, nodes, |nodes| - j
  {
    if j < |nodes| {
      GetTextHops(m, texts, nodes[j], p + [j], arg, hops, more, lib);
      JoinTextHops(m, texts, nodes, p, j + 1, arg, hops, more, lib);
    }
  }

  // ------------------------------------------------------------ the cursor correction

  /** The cursor sits on the range's end line, at or after its end. */
  predicate AtOrAfterEnd(cursor: Position, range: Range) {
    cursor.line == range.end.line && cursor.character >= range.end.character
  }

  /** `fixedCursor`: where the cursor goes once range has been replaced by the given lines. */
  function FixedCursor(cursor: Position, range: Range, replacement: seq<string>): Position
    requires |replacement| >= 1
  {
    if |replacement| > 1 then
      Position(cursor.line - (range.end.line - range.start.line) + |replacement| - 1,
               cursor.character - range.end.character + |replacement[|replacement| - 1]|)
    else
      Position(cursor.line - (range.end.line - range.start.line),
               cursor.character - range.end.character + range.start.character + |replacement[0]|)
  }

  /** A text without line breaks is its only line. */
  lemma SingleLineText(text: string)
    requires |SplitLines(text)| == 1
    ensures SplitLines(text)[0] == text
  {
    SplitLinesShape(text);
    BreaksIffHasBreak(text);
    assert !HasBreak(text);
    assert '\r' !in text by {
      forall k | 0 <= k < |text| ensures text[k] != '\r' {
        assert !IsBreak(text[k]);
      }
    }
  }

  /**
   * A cursor at or after the end of the replaced range keeps its line
   * offset and its distance from the end of what was written: it ends on
   * the line where the text written at the range's start ends, as many
   * characters after that end as it was after the old end.
   */
  lemma CursorFollowsReplacement(cursor: Position, range: Range, text: string)
    requires AtOrAfterEnd(cursor, range)
    ensures var fixed := FixedCursor(cursor, range, SplitLines(text));
      var written := CalcRange(range.start, text).end;
      fixed.line == written.line && fixed.character - written.character == cursor.character - range.end.character
  {
    var lines := SplitLines(text);
    SplitLinesShape(text);
    if |lines| == 1 {
      SingleLineText(text);
    } else {
      LastLineIsTail(text);
    }
  }

  // ------------------------------------------------------------ layout

  /** Everything an `updateRange` changes: the ranges, the variables' cache and its provider calls, the buffer and the cursor. */
  datatype Doc = Doc(ranges: map<Path, Range>, texts: map<Path, string>, calls: seq<Path>, lines: seq<string>, cursor: Position)

  /** The position an `updateRange` returns or the error it throws, and what it left. */
  datatype Laid = Laid(end: Result<Position>, doc: Doc)

  /** What `updateRange` needs besides the document. */
  datatype Env = Env(marks: Marks, hops: nat, lib: TextLib, host: HostLib)

  /**
   * The mirror rewrite of `Jumpable.updateRange`: a node with a copy link
   * and a previous range is written out at that range moved to start, when
   * the buffer there does not already read the same; the cursor is
   * corrected when it was at or after the end of that range.
   */
  function Rewrite(e: Env, p: Path, text: string, start: Position, d: Doc): (r: Doc)
    ensures r.ranges == d.ranges && r.texts == d.texts && r.calls == d.calls
    ensures p !in e.marks.copy || p !in d.ranges ==> r == d
  {
    if p in e.marks.copy && p in d.ranges then
      var range := ShiftRange(d.ranges[p], start);
      var replacement := SplitLines(text);
      if Join(replacement, "\n") != Join(e.host.getText(d.lines, range), "\n") then
        d.(lines := e.host.setText(d.lines, range, replacement),
           cursor := if AtOrAfterEnd(d.cursor, range) then FixedCursor(d.cursor, range, replacement) else d.cursor)
      else d
    else d
  }

  /** The node at p records the range its text covers from start. */
  function Store(p: Path, start: Position, text: string, d: Doc): Laid {
    var range := CalcRange(start, text);
    Laid(Ok(range.end), d.(ranges := d.ranges[p := range]))
  }

  /** A variable's getText: the cache, or a provider call whose result is cached. */
  function Cached(lib: TextLib, name: string, transform: Option<Transform>, p: Path, d: Doc): Doc {
    if p in d.texts then d
    else d.(texts := d.texts[p := VariableValue(name, transform, lib)], calls := d.calls + [p])
  }

  /** `updateRange(start, arg)` of the node n at path p. */
  function LayNode(e: Env, n: Node, p: Path, start: Position, arg: Option<nat>, d: Doc): Laid
    decreases n, 1
  {
    match n
    case Text(text) => Store(p, start, text, d)
    case Variable(name, transform, _) =>
      var d' := Cached(e.lib, name, transform, p, d);
      Store(p, start, d'.texts[p], d')
    case Placeholder(_, children) =>
      if p in e.marks.input || p in e.marks.copy then
        match GetText(e.marks, d.texts, n, p, arg, e.hops, e.lib)
        case None => Laid(Err(StackOverflow), d)
        case Some(text) => Store(p, start, text, d)
      else
        var r := LayChildren(e, children, p, 0, start, arg, d);
        if r.end.Err? then r
        else Laid(r.end, r.doc.(ranges := r.doc.ranges[p := Range(start, r.end.value)]))
    case _ =>
      match GetText(e.marks, d.texts, n, p, arg, e.hops, e.lib)
      case None => Laid(Err(StackOverflow), d)
      case Some(text) => Store(p, start, text, Rewrite(e, p, text, start, d))
  }

  /** The loop over the children from child j on, threading each child's end into the next child's start; a throw ends it. */
  function LayChildren(e: Env, nodes: seq<Node>, p: Path, j: nat, pos: Position, arg: Option<nat>, d: Doc): Laid
    requires j <= |nodes|
    decreases nodes, |nodes| - j
  {
    if j == |nodes| then Laid(Ok(pos), d)
    else
      var r := LayNode(e, nodes[j], p + [j], pos, arg, d);
      if r.end.Err? then r else LayChildren(e, nodes, p, j + 1, r.end.value, arg, r.doc)
  }

  /**
   * `Snippet.updateRange(start?, arg?)` from a start: the children laid out
   * one after the other, and the snippet's own range (path []) from start
   * to where they end.
   */
  function LaySnippet(e: Env, top: seq<Node>, start: Position, arg: Option<nat>, d: Doc): Laid {
    var r := LayChildren(e, top, [], 0, start, arg, d);
    if r.end.Err? then r else Laid(r.end, r.doc.(ranges := r.doc.ranges[[] := Range(start, r.end.value)]))
  }

  // ------------------------------------------------------------ what a layout guarantees

  /** The doc with the ranges set aside and any buffer and cursor: what the layout's own outcome depends on. */
  function Bare(d: Doc, lines: seq<string>, cursor: Position): Doc {
    d.(ranges := map[], lines := lines, cursor := cursor)
  }

  /**
   * The returned position, the cache and the ranges stored depend neither
   * on the ranges found nor on the buffer: a layout overrides the ranges at
   * the paths it visits with those a layout from no ranges stores.
   */
  lemma {:induction false} LayNodeFrame(e: Env, n: Node, p: Path, start: Position, arg: Option<nat>, d: Doc, lines: seq<string>, cursor: Position)
    ensures var r := LayNode(e, n, p, start, arg, d); var r0 := LayNode(e, n, p, start, arg, Bare(d, lines, cursor));
      r.end == r0.end && r.doc.texts == r0.doc.texts && r.doc.calls == r0.doc.calls && r.doc.ranges == d.ranges + r0.doc.ranges
    decreases n, 1
  {
    var d0 := Bare(d, lines, cursor);
    match n
    case Text(text) =>
      StoreFrame(p, start, text, d, d0);
    case Variable(name, transform, _) =>
      var c := Cached(e.lib, name, transform, p, d);
      var c0 := Cached(e.lib, name, transform, p, d0);
      StoreFrame(p, start, c.texts[p], c, c0);
    case Placeholder(_, _) =>
      PlaceholderFrame(e, n, p, start, arg, d, lines, cursor);
    case _ =>
      match GetText(e.marks, d.texts, n, p, arg, e.hops, e.lib)
      case None =>
      case Some(text) =>
        var w := Rewrite(e, p, text, start, d);
        var w0 := Rewrite(e, p, text, start, d0);
        StoreFrame(p, start, text, w, w0);
  }

  lemma {:induction false} PlaceholderFrame(e: Env, n: Node, p: Path, start: Position, arg: Option<nat>, d: Doc, lines: seq<string>, cursor: Position)
    requires n.Placeholder?
    ensures var r := LayNode(e, n, p, start, arg, d); var r0 := LayNode(e, n, p, start, arg, Bare(d, lines, cursor));
      r.end == r0.end && r.doc.texts == r0.doc.texts && r.doc.calls == r0.doc.calls && r.doc.ranges == d.ranges + r0.doc.ranges
    decreases n, 0
  {
    var d0 := Bare(d, lines, cursor);
    if p in e.marks.input || p in e.marks.copy {
      match GetText(e.marks, d.texts, n, p, arg, e.hops, e.lib)
      case None =>
      case Some(text) =>
        StoreFrame(p, start, text, d, d0);
    } else {
      LayChildrenFrame(e, n.children, p, 0, start, arg, d, lines, cursor);
      var r := LayChildren(e, n.children, p, 0, start, arg, d);
      var r0 := LayChildren(e, n.children, p, 0, start, arg, d0);
      if r.end.Ok? {
        MapAddAssoc(d.ranges, r0.doc.ranges, map[p := Range(start, r.end.value)]);
      }
    }
  }

  /** Storing a range from no ranges, then adding what was there, stores the same. */
  lemma StoreFrame(p: Path, start: Position, text: string, d: Doc, d0: Doc)
    requires d0.ranges == map[] && d0.texts == d.texts && d0.calls == d.calls
    ensures var r := Store(p, start, text, d); var r0 := Store(p, start, text, d0);
      r.end == r0.end && r.doc.texts == r0.doc.texts && r.doc.calls == r0.doc.calls && r.doc.ranges == d.ranges + r0.doc.ranges
  {
    assert d.ranges[p := CalcRange(start, text)] == d.ranges + map[p := CalcRange(start, text)];
  }

  lemma {:induction false} LayChildrenFrame(e: Env, nodes: seq<Node>, p: Path, j: nat, pos: Position, arg: Option<nat>, d: Doc, lines: seq<string>, cursor: Position)
    requires j <= |nodes|
    ensures var r := LayChildren(e, nodes, p, j, pos, arg, d); var r0 := LayChildren(e, nodes, p, j, pos, arg, Bare(d, lines, cursor));
      r.end == r0.end && r.doc.texts == r0.doc.texts && r.doc.calls == r0.doc.calls && r.doc.ranges == d.ranges + r0.doc.ranges
    decreases nodes, |nodes| - j
  {
    if j == |nodes| {
      assert d.ranges + map[] == d.ranges;
    } else {
      var d0 := Bare(d, lines, cursor);
      var r := LayNode(e, nodes[j], p + [j], pos, arg, d);
      var r0 := LayNode(e, nodes[j], p + [j], pos, arg, d0);
      LayNodeFrame(e, nodes[j], p + [j], pos, arg, d, lines, cursor);
      if r.end.Ok? {
        var next := r.end.value;
        LayChildrenFrame(e, nodes, p, j + 1, next, arg, r.doc, lines, cursor);
        LayChildrenFrame(e, nodes, p, j + 1, next, arg, r0.doc, lines, cursor);
        assert Bare(r.doc, lines, cursor) == Bare(r0.doc, lines, cursor);
        var rest := LayChildren(e, nodes, p, j + 1, next, arg, Bare(r.doc, lines, cursor));
        MapAddAssoc(d.ranges, r0.doc.ranges, rest.doc.ranges);
      }
    }
  }

  lemma MapAddAssoc<K, V>(a: map<K, V>, b: map<K, V>, c: map<K, V>)
    ensures (a + b) + c == a + (b + c)
  {
  }

  /** A layout from no ranges stores the node's own range and ranges below it, nothing else. */
  lemma {:induction false} LayNodeKeys(e: Env, n: Node, p: Path, start: Position, arg: Option<nat>, d: Doc)
    requires d.ranges == map[]
    ensures var r := LayNode(e, n, p, start, arg, d);
      (r.end.Ok? ==> p in r.doc.ranges) && forall q :: q in r.doc.ranges ==> q == p || Below(p, q)
    decreases n, 1
  {
    if n.Placeholder? && !(p in e.marks.input || p in e.marks.copy) {
      LayChildrenKeys(e, n.children, p, 0, start, arg, d);
    }
  }

  lemma {:induction false} LayChildrenKeys(e: Env, nodes: seq<Node>, p: Path, j: nat, pos: Position, arg: Option<nat>, d: Doc)
    requires j <= |nodes|
    requires d.ranges == map[]
    ensures forall q :: q in LayChildren(e, nodes, p, j, pos, arg, d).doc.ranges ==> Below(p, q) && q[|p|] >= j
    decreases nodes, |nodes| - j
  {
    if j < |nodes| {
      var r := LayNode(e, nodes[j], p + [j], pos, arg, d);
      LayNodeKeys(e, nodes[j], p + [j], pos, arg, d);
      forall q | q in r.doc.ranges ensures Below(p, q) && q[|p|] >= j {
        assert q == p + [j] || Below(p + [j], q);
        assert q[..|p| + 1] == p + [j];
      }
      if r.end.Ok? {
        var d0 := Bare(r.doc, d.lines, d.cursor);
        LayChildrenKeys(e, nodes, p, j + 1, r.end.value, arg, d0);
        LayChildrenFrame(e, nodes, p, j + 1, r.end.value, arg, r.doc, d.lines, d.cursor);
      }
    }
  }

  /**
   * Unlike parser/node.ts, every visited node records its range: a
   * successful layout of the snippet stores a range for the snippet and for
   * every top-level child, and the snippet's runs from start to the end
   * returned.
   */
  lemma SnippetStoresRanges(e: Env, top: seq<Node>, start: Position, arg: Option<nat>, d: Doc)
    requires LaySnippet(e, top, start, arg, d).end.Ok?
    ensures var r := LaySnippet(e, top, start, arg, d);
      && [] in r.doc.ranges && r.doc.ranges[[]] == Range(start, r.end.value)
      && forall j :: 0 <= j < |top| ==> [j] in r.doc.ranges
  {
    var r := LayChildren(e, top, [], 0, start, arg, d);
    forall j | 0 <= j < |top| ensures [j] in r.doc.ranges {
      StoredChildren(e, top, [], 0, start, arg, d, j);
      assert [] + [j] == [j];
    }
  }

  /** A successful layout of the children from child i on stores a range for each of them. */
  lemma {:induction false} StoredChildren(e: Env, nodes: seq<Node>, p: Path, i: nat, pos: Position, arg: Option<nat>, d: Doc, j: nat)
    requires i <= j < |nodes|
    requires LayChildren(e, nodes, p, i, pos, arg, d).end.Ok?
    ensures p + [j] in LayChildren(e, nodes, p, i, pos, arg, d).doc.ranges
    decreases |nodes| - i
  {
    var r := LayNode(e, nodes[i], p + [i], pos, arg, d);
    var d0 := Bare(d, d.lines, d.cursor);
    LayNodeFrame(e, nodes[i], p + [i], pos, arg, d, d.lines, d.cursor);
    LayNodeKeys(e, nodes[i], p + [i], pos, arg, d0);
    LayChildrenFrame(e, nodes, p, i + 1, r.end.value, arg, r.doc, d.lines, d.cursor);
    if i < j {
      StoredChildren(e, nodes, p, i + 1, r.end.value, arg, r.doc, j);
    } else {
      assert p + [i] in r.doc.ranges;
    }
  }

  /** No copy link at p or below it. */
  ghost predicate NoMirrorsAt(m: Marks, p: Path) {
    forall q :: q in m.copy ==> q != p && !Below(p, q)
  }

  /** What is below a child is below its parent. */
  lemma BelowChild(p: Path, j: nat, q: Path)
    ensures (q == p + [j] || Below(p + [j], q)) ==> Below(p, q)
  {
    if Below(p + [j], q) {
      assert q[..|p|] == (p + [j])[..|p|];
    }
  }

  /** Without mirrors among the nodes laid out, the buffer and the cursor stay as they are. */
  lemma {:induction false} LayNodeNoMirrors(e: Env, n: Node, p: Path, start: Position, arg: Option<nat>, d: Doc)
    requires NoMirrorsAt(e.marks, p)
    ensures var r := LayNode(e, n, p, start, arg, d); r.doc.lines == d.lines && r.doc.cursor == d.cursor
    decreases n, 1
  {
    if n.Placeholder? && p !in e.marks.input {
      LayChildrenNoMirrors(e, n.children, p, 0, start, arg, d);
    }
  }

  lemma {:induction false} LayChildrenNoMirrors(e: Env, nodes: seq<Node>, p: Path, j: nat, pos: Position, arg: Option<nat>, d: Doc)
    requires j <= |nodes|
    requires NoMirrorsAt(e.marks, p)
    ensures var r := LayChildren(e, nodes, p, j, pos, arg, d); r.doc.lines == d.lines && r.doc.cursor == d.cursor
    decreases nodes, |nodes| - j
  {
    if j < |nodes| {
      forall q | q in e.marks.copy ensures q != p + [j] && !Below(p + [j], q) {
        BelowChild(p, j, q);
      }
      LayNodeNoMirrors(e, nodes[j], p + [j], pos, arg, d);
      var r := LayNode(e, nodes[j], p + [j], pos, arg, d);
      if r.end.Ok? {
        LayChildrenNoMirrors(e, nodes, p, j + 1, r.end.value, arg, r.doc);
      }
    }
  }

  /** No range is stored at p or below it: the nodes there have not been laid out yet. */
  ghost predicate Unlaid(ranges: map<Path, Range>, p: Path) {
    forall q :: q in ranges ==> q != p && !Below(p, q)
  }

  /** No range is stored at or below the children of p from child j on. */
  ghost predicate UnlaidFrom(ranges: map<Path, Range>, p: Path, j: nat) {
    forall q :: q in ranges && Below(p, q) ==> q[|p|] < j
  }

  /**
   * A mirror is rewritten only at a range it stored before, so laying out
   * nodes that have no range yet leaves the buffer and the cursor alone.
   */
  lemma {:induction false} LayNodeUnlaid(e: Env, n: Node, p: Path, start: Position, arg: Option<nat>, d: Doc)
    requires Unlaid(d.ranges, p)
    ensures var r := LayNode(e, n, p, start, arg, d); r.doc.lines == d.lines && r.doc.cursor == d.cursor
    decreases n, 1
  {
    if n.Placeholder? && !(p in e.marks.input || p in e.marks.copy) {
      LayChildrenUnlaid(e, n.children, p, 0, start, arg, d);
    }
  }

  lemma {:induction false} LayChildrenUnlaid(e: Env, nodes: seq<Node>, p: Path, j: nat, pos: Position, arg: Option<nat>, d: Doc)
    requires j <= |nodes|
    requires UnlaidFrom(d.ranges, p, j)
    ensures var r := LayChildren(e, nodes, p, j, pos, arg, d); r.doc.lines == d.lines && r.doc.cursor == d.cursor
    decreases nodes, |nodes| - j
  {
    if j < |nodes| {
      forall q | q in d.ranges ensures q != p + [j] && !Below(p + [j], q) {
        BelowChild(p, j, q);
      }
      LayNodeUnlaid(e, nodes[j], p + [j], pos, arg, d);
      var r := LayNode(e, nodes[j], p + [j], pos, arg, d);
      if r.end.Ok? {
        var d0 := Bare(d, d.lines, d.cursor);
        LayNodeFrame(e, nodes[j], p + [j], pos, arg, d, d.lines, d.cursor);
        LayNodeKeys(e, nodes[j], p + [j], pos, arg, d0);
        forall q | q in r.doc.ranges && Below(p, q) ensures q[|p|] < j + 1 {
          if q !in d.ranges {
            BelowChild(p, j, q);
            assert q[|p|] == (p + [j])[|p|];
          }
        }
        LayChildrenUnlaid(e, nodes, p, j + 1, r.end.value, arg, r.doc);
      }
    }
  }

  /** The first layout of a snippet, from no ranges at all, changes neither the buffer nor the cursor. */
  lemma FirstLayoutKeepsBuffer(e: Env, top: seq<Node>, start: Position, arg: Option<nat>, d: Doc)
    requires d.ranges == map[]
    ensures var r := LaySnippet(e, top, start, arg, d); r.doc.lines == d.lines && r.doc.cursor == d.cursor
  {
    LayChildrenUnlaid(e, top, [], 0, start, arg, d);
  }

  /** Every cached path was called for once, and only the cached ones. */
  ghost predicate CalledOnce(texts: map<Path, string>, calls: seq<Path>) {
    && (forall q :: q in texts <==> q in calls)
    && (forall a, b :: 0 <= a < b < |calls| ==> calls[a] != calls[b])
  }

  /** The cache only grows, keeps what it held, and the provider is asked at most once per node. */
  ghost predicate CacheGrows(d: Doc, r: Doc) {
    && (forall q :: q in d.texts ==> q in r.texts && r.texts[q] == d.texts[q])
    && |d.calls| <= |r.calls| && r.calls[..|d.calls|] == d.calls
    && (CalledOnce(d.texts, d.calls) ==> CalledOnce(r.texts, r.calls))
  }

  lemma CachedGrows(lib: TextLib, name: string, transform: Option<Transform>, p: Path, d: Doc)
    ensures CacheGrows(d, Cached(lib, name, transform, p, d))
  {
    var c := Cached(lib, name, transform, p, d);
    if p !in d.texts {
      assert c.calls[..|d.calls|] == d.calls;
      if CalledOnce(d.texts, d.calls) {
        forall q ensures q in c.texts <==> q in c.calls {
          assert q in c.calls <==> q in d.calls || q == p;
        }
      }
    }
  }

  lemma CacheGrowsTrans(a: Doc, b: Doc, c: Doc)
    requires CacheGrows(a, b) && CacheGrows(b, c)
    ensures CacheGrows(a, c)
  {
    assert c.calls[..|a.calls|] == c.calls[..|b.calls|][..|a.calls|];
  }

  /**
   * Through a whole layout the variables' cache keeps every text it held,
   * and a variable's provider is asked at most once however often the
   * tree is laid out.
   */
  lemma {:induction false} LayNodeCache(e: Env, n: Node, p: Path, start: Position, arg: Option<nat>, d: Doc)
    ensures CacheGrows(d, LayNode(e, n, p, start, arg, d).doc)
    decreases n, 1
  {
    match n
    case Variable(name, transform, _) =>
      CachedGrows(e.lib, name, transform, p, d);
    case Placeholder(_, children) =>
      if !(p in e.marks.input || p in e.marks.copy) {
        LayChildrenCache(e, children, p, 0, start, arg, d);
      }
    case _ =>
  }

  lemma {:induction false} LayChildrenCache(e: Env, nodes: seq<Node>, p: Path, j: nat, pos: Position, arg: Option<nat>, d: Doc)
    requires j <= |nodes|
    ensures CacheGrows(d, LayChildren(e, nodes, p, j, pos, arg, d).doc)
    decreases nodes, |nodes| - j
  {
    if j < |nodes| {
      var r := LayNode(e, nodes[j], p + [j], pos, arg, d);
      LayNodeCache(e, nodes[j], p + [j], pos, arg, d);
      if r.end.Ok? {
        LayChildrenCache(e, nodes, p, j + 1, r.end.value, arg, r.doc);
        CacheGrowsTrans(d, r.doc, LayChildren(e, nodes, p, j + 1, r.end.value, arg, r.doc).doc);
      }
    } else {
      assert d.calls[..|d.calls|] == d.calls;
    }
  }

  // ------------------------------------------------------------ the tree

  class Tree {
    /** The snippet's top-level children. */
    const top: seq<Node>
    const lib: TextLib
    var ranges: map<Path, Range>
    var input: map<Path, string>
    var copy: map<Path, Item>
    var index: map<Path, int>
    /** The variables' cached texts (`Variable.text`). */
    var texts: map<Path, string>
    /** The paths whose variable asked its provider, in order. */
    ghost var calls: seq<Path>

    /** The snippet's cache and call log agree; see LayNodeCache. */
    ghost predicate Valid()
      reads this
    {
      CalledOnce(texts, calls)
    }

    constructor(top: seq<Node>, lib: TextLib)
      ensures this.top == top && this.lib == lib && Valid()
      ensures ranges == map[] && input == map[] && copy == map[] && index == map[] && texts == map[] && calls == []
    {
      this.top := top;
      this.lib := lib;
      ranges := map[];
      input := map[];
      copy := map[];
      index := map[];
      texts := map[];
      calls := [];
    }

    function State(): Marks
      reads this
    {
      Marks(input, copy, index)
    }

    ghost function DocOf(buf: Buffer): Doc
      reads this, buf
    {
      Doc(ranges, texts, calls, buf.lines, buf.cursor)
    }

    /**
     * `Snippet.getText()`: the children's texts joined, with no tabstop
     * argument. In the source this first call already fills each variable's
     * cache; here it only reads the cache, which the first layout then fills
     * with the same provider values (see LayNodeCache), so the text is the
     * same either way.
     */
    function Text(hops: nat): Option<string>
      reads this
    {
      JoinText(State(), texts, top, [], 0, None, hops, lib)
    }

    /** `Variable.getText()` of the variable at p: the cached text, else the provider's, cached. */
    method VariableText(p: Path, name: string, transform: Option<Transform>) returns (text: string)
      modifies this
      ensures p in old(texts) ==> texts == old(texts) && calls == old(calls)
      ensures p !in old(texts) ==> texts == old(texts)[p := VariableValue(name, transform, lib)] && calls == old(calls) + [p]
      ensures text == texts[p]
      ensures ranges == old(ranges) && input == old(input) && copy == old(copy) && index == old(index)
    {
      if p !in texts {
        texts := texts[p := VariableValue(name, transform, lib)];
        calls := calls + [p];
      }
      text := texts[p];
    }

    /** `updateInput(range?)` of the node at p: the given range, else the extmark's (it throws without one); the input is the buffer's text there. */
    method UpdateInput(p: Path, given: Option<Range>, extmark: Option<Range>, buf: Buffer) returns (r: Result<()>)
      modifies this
      ensures given.None? && extmark.None? ==> r == Err("Internal error: Node.Jumpable.updateInput") && ranges == old(ranges) && input == old(input)
      ensures given.Some? || extmark.Some? ==>
        var range := if given.Some? then given.value else extmark.value;
        r == Ok(()) && ranges == old(ranges)[p := range] && input == old(input)[p := Join(buf.GetText(range), "\n")]
      ensures copy == old(copy) && index == old(index) && texts == old(texts) && calls == old(calls)
    {
      var range;
      if given.Some? {
        range := given.value;
      } else if extmark.Some? {
        range := extmark.value;
      } else {
        return Err("Internal error: Node.Jumpable.updateInput");
      }
      ranges := ranges[p := range];
      input := input[p := Join(buf.GetText(range), "\n")];
      return Ok(());
    }

    /** `selectNext()` of the choice at p. */
    method SelectNext(p: Path)
      requires NodeAt(top, p).Some? && NodeAt(top, p).value.Choice?
      modifies this
      ensures index == old(index)[p := NextIndex(IndexAt(old(State()), p), |NodeAt(top, p).value.items|)]
      ensures ranges == old(ranges) && input == old(input) && copy == old(copy) && texts == old(texts) && calls == old(calls)
    {
      var i := IndexAt(State(), p) + 1;
      if i >= |NodeAt(top, p).value.items| {
        i := 0;
      }
      index := index[p := i];
    }

    /** `selectPrev()` of the choice at p. */
    method SelectPrev(p: Path)
      requires NodeAt(top, p).Some? && NodeAt(top, p).value.Choice?
      modifies this
      ensures index == old(index)[p := PrevIndex(IndexAt(old(State()), p), |NodeAt(top, p).value.items|)]
      ensures ranges == old(ranges) && input == old(input) && copy == old(copy) && texts == old(texts) && calls == old(calls)
    {
      var i := IndexAt(State(), p) - 1;
      if i < 0 {
        i := |NodeAt(top, p).value.items| - 1;
      }
      index := index[p := i];
    }

    /** `Jumpable.updateRange(start, arg)` of the tabstop or choice n at p, mirror rewrite and cursor correction included. */
    method UpdateJumpableRange(n: Node, p: Path, start: Position, arg: Option<nat>, hops: nat, buf: Buffer) returns (end: Result<Position>)
      requires n.Tabstop? || n.Choice?
      modifies this, buf
      ensures var l := LayNode(Env(old(State()), hops, lib, buf.lib), n, p, start, arg, old(DocOf(buf)));
        end == l.end && DocOf(buf) == l.doc
      ensures input == old(input) && copy == old(copy) && index == old(index)
    {
      ghost var e := Env(State(), hops, lib, buf.lib);
      var text := GetText(State(), texts, n, p, arg, hops, lib);
      if text.None? {
        return Err(StackOverflow);
      }
      RewriteMirror(p, text.value, start, hops, buf);
      var newRange := CalcRange(start, text.value);
      ranges := ranges[p := newRange];
      return Ok(newRange.end);
    }

    /** The buffer side of `Jumpable.updateRange`: a mirror with a previous range is rewritten when its text there differs. */
    method RewriteMirror(p: Path, text: string, start: Position, hops: nat, buf: Buffer)
      modifies buf
      ensures DocOf(buf) == Rewrite(Env(State(), hops, lib, buf.lib), p, text, start, old(DocOf(buf)))
    {
      if p in copy && p in ranges {
        var range := ShiftRange(ranges[p], start);
        var replacement := SplitLines(text);
        var original := buf.GetText(range);
        if Join(replacement, "\n") != Join(original, "\n") {
          var cursor := buf.cursor;
          buf.SetText(range, replacement);
          if cursor.line == range.end.line && cursor.character >= range.end.character {
            buf.SetCursor(FixedCursor(cursor, range, replacement));
          }
        }
      }
    }

    /** `updateRange(start, arg)` of the node n at p. */
    method UpdateNodeRange(n: Node, p: Path, start: Position, arg: Option<nat>, hops: nat, buf: Buffer) returns (end: Result<Position>)
      modifies this, buf
      ensures var l := LayNode(Env(old(State()), hops, lib, buf.lib), n, p, start, arg, old(DocOf(buf)));
        end == l.end && DocOf(buf) == l.doc
      ensures input == old(input) && copy == old(copy) && index == old(index)
      decreases n, 1
    {
      match n {
        case Text(text) =>
          var range := CalcRange(start, text);
          ranges := ranges[p := range];
          return Ok(range.end);
        case Variable(name, transform, _) =>
          var text := VariableText(p, name, transform);
          var range := CalcRange(start, text);
          ranges := ranges[p := range];
          return Ok(range.end);
        case Placeholder(_, children) =>
          if p in input || p in copy {
            var text := GetText(State(), texts, n, p, arg, hops, lib);
            if text.None? {
              return Err(StackOverflow);
            }
            var range := CalcRange(start, text.value);
            ranges := ranges[p := range];
            return Ok(range.end);
          }
          end := UpdateChildrenRange(children, p, start, arg, hops, buf);
          if end.Ok? {
            ranges := ranges[p := Range(start, end.value)];
          }
        case _ =>
          end := UpdateJumpableRange(n, p, start, arg, hops, buf);
      }
    }

    /** The loop over the children of the node at p, threading each child's end into the next child's start. */
    method UpdateChildrenRange(nodes: seq<Node>, p: Path, start: Position, arg: Option<nat>, hops: nat, buf: Buffer) returns (end: Result<Position>)
      modifies this, buf
      ensures var l := LayChildren(Env(old(State()), hops, lib, buf.lib), nodes, p, 0, start, arg, old(DocOf(buf)));
        end == l.end && DocOf(buf) == l.doc
      ensures input == old(input) && copy == old(copy) && index == old(index)
      decreases nodes, 0
    {
      ghost var e := Env(State(), hops, lib, buf.lib);
      var pos := start;
      var j := 0;
      while j < |nodes|
        invariant 0 <= j <= |nodes|
        invariant State() == e.marks
        invariant LayChildren(e, nodes, p, j, pos, arg, DocOf(buf)) == LayChildren(e, nodes, p, 0, start, arg, old(DocOf(buf)))
      {
        var r := UpdateNodeRange(nodes[j], p + [j], pos, arg, hops, buf);
        if r.Err? {
          return r;
        }
        pos := r.value;
        j := j + 1;
      }
      return Ok(pos);
    }

    /**
     * `Snippet.updateRange(start?, arg?)`: without a start it starts from
     * the snippet's own range, and throws when there is none; it then
     * stores its own range (see SnippetStoresRanges).
     */
    method UpdateRange(start: Option<Position>, arg: Option<nat>, hops: nat, buf: Buffer) returns (end: Result<Position>)
      requires Valid()
      modifies this, buf
      ensures start.None? && [] !in old(ranges) ==>
        end == Err("Internal error: Node.Snippet.updateRange") && DocOf(buf) == old(DocOf(buf))
      ensures start.Some? || [] in old(ranges) ==>
        var from := if start.Some? then start.value else old(ranges)[[]].start;
        var l := LaySnippet(Env(old(State()), hops, lib, buf.lib), top, from, arg, old(DocOf(buf)));
        end == l.end && DocOf(buf) == l.doc
      ensures input == old(input) && copy == old(copy) && index == old(index) && Valid()
    {
      if start.None? && [] !in ranges {
        return Err("Internal error: Node.Snippet.updateRange");
      }
      var from := if start.Some? then start.value else ranges[[]].start;
      ghost var d := DocOf(buf);
      end := UpdateChildrenRange(top, [], from, arg, hops, buf);
      LayChildrenCache(Env(State(), hops, lib, buf.lib), top, [], 0, from, arg, d);
      if end.Ok? {
        ranges := ranges[[] := Range(from, end.value)];
      }
    }

    /**
     * `jump()` of the node at p: it throws without a range; an empty range
     * puts the cursor at its start, any other is selected.
     */
    method Jump(p: Path, buf: Buffer) returns (r: Result<Motion>)
      modifies buf
      ensures p !in ranges ==> r == Err("Internal error: Node.Jumpable.jump") && buf.cursor == old(buf.cursor)
      ensures p in ranges && ranges[p].start == ranges[p].end ==> r == Ok(MoveTo(ranges[p].start)) && buf.cursor == ranges[p].start
      ensures p in ranges && ranges[p].start != ranges[p].end ==> r == Ok(Select(ranges[p])) && buf.cursor == old(buf.cursor)
      ensures buf.lines == old(buf.lines)
    {
      if p !in ranges {
        return Err("Internal error: Node.Jumpable.jump");
      }
      var range := ranges[p];
      if IsSamePosition(range.start, range.end) {
        buf.SetCursor(range.start);
        return Ok(MoveTo(range.start));
      }
      return Ok(Select(range));
    }
  }
}
