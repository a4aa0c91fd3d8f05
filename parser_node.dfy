/**
 * The run-time side of the first-generation node tree (parser/node.ts),
 * the one session.ts drives: what each node's `getText` renders, how
 * `updateRange` lays the nodes out from a start position and rewrites the
 * buffer where a node's text moved, and a choice's index cycling.
 *
 * The tree's nodes are the parser's values (Ast.Node) addressed by their
 * path; the fields the source assigns on node objects (`range`, `input`,
 * `copy`, `index`) are path-keyed maps of the class Tree.
 */
module ParserNode {
  import opened Options
  import opened Ast
  import opened Positions
  import opened Formats
  import opened Trees
  import opened Util
  import opened Host

  /** What a transform calls on. */
  datatype TextLib = TextLib(regex: RegexLib, cases: CaseLib)

  /**
   * `getText()` of the node n at path p, following at most `hops` copy
   * links: None when it would follow more. A copy cycle (a placeholder
   * whose own child mirrors it, as in `${1:$1}`) recurses without end in
   * the source; see NoTextOnSelfMirror.
   */
  function GetText(m: Marks, n: Node, p: Path, hops: nat, lib: TextLib): (r: Option<string>)
    ensures n.IsJumpable() && !n.Choice? && p in m.input ==> r == Some(m.input[p])
    ensures n.Text? ==> r == Some(n.text)
    decreases hops, n, 1
  {
    match n
    case Text(text) => Some(text)
    case Variable(_, _, _) => Some("")
    case Choice(_, items) => Some(ChoiceText(items, IndexAt(m, p)))
    case Tabstop(_, transform) =>
      if p in m.input then Some(m.input[p])
      else if p in m.copy then
        if hops == 0 then None
        else
          match GetText(m, m.copy[p].node, m.copy[p].path, hops - 1, lib)
          case None => None
          case Some(text) => Some(ApplyTransform(transform, text, lib.regex, lib.cases))
      else Some("")
    case Placeholder(_, children) =>
      if p in m.input then Some(m.input[p])
      else if p in m.copy then
        if hops == 0 then None else GetText(m, m.copy[p].node, m.copy[p].path, hops - 1, lib)
      else JoinText(m, children, p, 0, hops, lib)
  }

  /** `nodes.slice(j).map((child) => child.getText()).join("")` for the children of the node at p. */
  function JoinText(m: Marks, nodes: seq<Node>, p: Path, j: nat, hops: nat, lib: TextLib): Option<string>
    requires j <= |nodes|
    decreases hops, nodes, |nodes| - j
  {
    if j == |nodes| then Some("")
    else
      match GetText(m, nodes[j], p + [j], hops, lib)
      case None => None
      case Some(head) =>
        match JoinText(m, nodes, p, j + 1, hops, lib)
        case None => None
        case Some(rest) => Some(head + rest)
  }

  /** With more copy links allowed, a text that was already defined stays the same. */
  lemma {:induction false} GetTextHops(m: Marks, n: Node, p: Path, hops: nat, more: nat, lib: TextLib)
    requires GetText(m, n, p, hops, lib).Some?
    requires hops <= more
    ensures GetText(m, n, p, more, lib) == GetText(m, n, p, hops, lib)
    decreases hops, n, 1
  {
    match n
    case Text(_) =>
    case Variable(_, _, _) =>
    case Choice(_, _) =>
    case Tabstop(_, _) =>
      if p !in m.input && p in m.copy {
        GetTextHops(m, m.copy[p].node, m.copy[p].path, hops - 1, more - 1, lib);
      }
    case Placeholder(_, children) =>
      if p !in m.input && p in m.copy {
        GetTextHops(m, m.copy[p].node, m.copy[p].path, hops - 1, more - 1, lib);
      } else if p !in m.input {
        JoinTextHops(m, children, p, 0, hops, more, lib);
      }
  }

  lemma {:induction false} JoinTextHops(m: Marks, nodes: seq<Node>, p: Path, j: nat, hops: nat, more: nat, lib: TextLib)
    requires j <= |nodes|
    requires JoinText(m, nodes, p, j, hops, lib).Some?
    requires hops <= more
    ensures JoinText(m, nodes, p, j, more, lib) == JoinText(m, nodes, p, j, hops, lib)
    decreases hops, nodes, |nodes| - j
  {
    if j < |nodes| {
      GetTextHops(m, nodes[j], p + [j], hops, more, lib);
      JoinTextHops(m, nodes, p, j + 1, hops, more, lib);
    }
  }

  /** A child whose text is undefined leaves its siblings' joined text undefined. */
  lemma {:induction false} JoinTextUndefined(m: Marks, nodes: seq<Node>, p: Path, j: nat, k: nat, hops: nat, lib: TextLib)
    requires j <= k < |nodes|
    requires GetText(m, nodes[k], p + [k], hops, lib).None?
    ensures JoinText(m, nodes, p, j, hops, lib).None?
    decreases k - j
  {
    if j < k {
      JoinTextUndefined(m, nodes, p, j + 1, k, hops, lib);
    }
  }

  /**
   * A placeholder without input or copy link that has a child tabstop
   * linked back to it, with no input either, has no text however many copy
   * links may be followed: the source's getText recurses until the stack
   * overflows.
   */
  lemma {:induction false} NoTextOnSelfMirror(m: Marks, n: Node, p: Path, k: nat, hops: nat, lib: TextLib)
    requires n.Placeholder? && p !in m.input && p !in m.copy
    requires k < |n.children| && n.children[k].Tabstop?
    requires p + [k] !in m.input && p + [k] in m.copy && m.copy[p + [k]] == Item(p, n)
    ensures GetText(m, n, p, hops, lib).None?
    decreases hops
  {
    if hops > 0 {
      NoTextOnSelfMirror(m, n, p, k, hops - 1, lib);
    }
    JoinTextUndefined(m, n.children, p, 0, k, hops, lib);
  }

  /**
   * The error a tabstop's transform throws as written: the tabstop stores
   * `transform.transformer` itself, so the call `this.transformer(text)`
   * runs it with the tabstop as `this`, whose `pattern` is undefined.
   */
  const TransformTypeError := "TypeError: Cannot read properties of undefined (reading 'flags')"

  /**
   * `getText()` of parser/node.ts as written: as GetText, except that a
   * tabstop with a transform that takes its text through a copy link
   * throws TransformTypeError once that text is known; a copy chain longer
   * than `hops` throws StackOverflow.
   */
  function GetTextAsWritten(m: Marks, n: Node, p: Path, hops: nat, lib: TextLib): (r: Result<string>)
    ensures n.Text? ==> r == Ok(n.text)
    ensures n.Tabstop? && n.transform.Some? && p !in m.input && p in m.copy ==> r.Err?
    decreases hops, n, 1
  {
    match n
    case Text(text) => Ok(text)
    case Variable(_, _, _) => Ok("")
    case Choice(_, items) => Ok(ChoiceText(items, IndexAt(m, p)))
    case Tabstop(_, transform) =>
      if p in m.input then Ok(m.input[p])
      else if p in m.copy then
        if hops == 0 then Err(StackOverflow)
        else
          match GetTextAsWritten(m, m.copy[p].node, m.copy[p].path, hops - 1, lib)
          case Err(e) => Err(e)
          case Ok(text) => if transform.Some? then Err(TransformTypeError) else Ok(text)
      else Ok("")
    case Placeholder(_, children) =>
      if p in m.input then Ok(m.input[p])
      else if p in m.copy then
        if hops == 0 then Err(StackOverflow) else GetTextAsWritten(m, m.copy[p].node, m.copy[p].path, hops - 1, lib)
      else JoinTextAsWritten(m, children, p, 0, hops, lib)
  }

  /** JoinText over GetTextAsWritten: the first child that throws decides the error. */
  function JoinTextAsWritten(m: Marks, nodes: seq<Node>, p: Path, j: nat, hops: nat, lib: TextLib): Result<string>
    requires j <= |nodes|
    decreases hops, nodes, |nodes| - j
  {
    if j == |nodes| then Ok("")
    else
      match GetTextAsWritten(m, nodes[j], p + [j], hops, lib)
      case Err(e) => Err(e)
      case Ok(head) =>
        match JoinTextAsWritten(m, nodes, p, j + 1, hops, lib)
        case Err(e) => Err(e)
        case Ok(rest) => Ok(head + rest)
  }

  /**
   * Where the text as written is defined it is the intended text, and
   * where the intended text overflows the stack the text as written throws
   * too; the two differ only where a transformed mirror is reached.
   */
  lemma {:induction false} AsWrittenAgrees(m: Marks, n: Node, p: Path, hops: nat, lib: TextLib)
    ensures GetTextAsWritten(m, n, p, hops, lib).Ok? ==> GetText(m, n, p, hops, lib) == Some(GetTextAsWritten(m, n, p, hops, lib).value)
    ensures GetText(m, n, p, hops, lib).None? ==> GetTextAsWritten(m, n, p, hops, lib).Err?
    decreases hops, n, 1
  {
    match n
    case Text(_) =>
    case Variable(_, _, _) =>
    case Choice(_, _) =>
    case Tabstop(_, _) =>
      if p !in m.input && p in m.copy && hops > 0 {
        AsWrittenAgrees(m, m.copy[p].node, m.copy[p].path, hops - 1, lib);
      }
    case Placeholder(_, children) =>
      if p !in m.input && p in m.copy {
        if hops > 0 {
          AsWrittenAgrees(m, m.copy[p].node, m.copy[p].path, hops - 1, lib);
        }
      } else if p !in m.input {
        JoinAsWrittenAgrees(m, children, p, 0, hops, lib);
      }
  }

  lemma {:induction false} JoinAsWrittenAgrees(m: Marks, nodes: seq<Node>, p: Path, j: nat, hops: nat, lib: TextLib)
    requires j <= |nodes|
    ensures JoinTextAsWritten(m, nodes, p, j, hops, lib).Ok? ==> JoinText(m, nodes, p, j, hops, lib) == Some(JoinTextAsWritten(m, nodes, p, j, hops, lib).value)
    ensures JoinText(m, nodes, p, j, hops, lib).None? ==> JoinTextAsWritten(m, nodes, p, j, hops, lib).Err?
    decreases hops, nodes, |nodes| - j
  {
    if j < |nodes| {
      AsWrittenAgrees(m, nodes[j], p + [j], hops, lib);
      JoinAsWrittenAgrees(m, nodes, p, j + 1, hops, lib);
    }
  }

  /**
   * The body `$1 ${1/x/y/}` once its mirror is linked: the second tabstop
   * copies the first, so its intended text is the first's (empty) text
   * transformed, while as written it throws, and with it the whole
   * snippet's text, which `create` asks for after the prefix is deleted.
   */
  lemma TransformedMirrorThrows(lib: TextLib)
    ensures var nodes := [Tabstop(1, None), Text(" "), Tabstop(1, Some(Transform("x", [Literal("y")], None)))];
      var m := Marks(map[], map[[2] := Item([0], nodes[0])], map[]);
      && GetText(m, nodes[2], [2], 1, lib) == Some(ApplyTransform(nodes[2].transform, "", lib.regex, lib.cases))
      && GetTextAsWritten(m, nodes[2], [2], 1, lib) == Err(TransformTypeError)
      && JoinText(m, nodes, [], 0, 1, lib).Some?
      && JoinTextAsWritten(m, nodes, [], 0, 1, lib) == Err(TransformTypeError)
  {
    var nodes := [Tabstop(1, None), Text(" "), Tabstop(1, Some(Transform("x", [Literal("y")], None)))];
    var m := Marks(map[], map[[2] := Item([0], nodes[0])], map[]);
    assert GetText(m, nodes[0], [0], 1, lib) == Some("");
    assert GetTextAsWritten(m, nodes[0], [0], 1, lib) == Ok("");
    assert GetText(m, nodes[0], [0], 0, lib) == Some("");
    assert GetTextAsWritten(m, nodes[0], [0], 0, lib) == Ok("");
    assert [] + [0] == [0] && [] + [1] == [1] && [] + [2] == [2];
  }

  // ------------------------------------------------------------ layout

  /** What `updateRange` needs besides the ranges and the buffer. */
  datatype Env = Env(marks: Marks, hops: nat, lib: TextLib, host: HostLib)

  /** Where an `updateRange` of part of the tree leaves things: the position it returns or the error it throws, the ranges and the buffer lines. */
  datatype Laid = Laid(end: Result<Position>, ranges: map<Path, Range>, lines: seq<string>)

  /**
   * `Node.updateRange(start)`, which text, tabstop, choice and variable nodes
   * inherit: the node's new range is the one its text covers from start;
   * the buffer is rewritten at the old range only when there was one and it
   * differs; the new range is stored and its end returned.
   */
  function LayLeaf(e: Env, n: Node, p: Path, start: Position, ranges: map<Path, Range>, lines: seq<string>): (r: Laid)
    ensures GetText(e.marks, n, p, e.hops, e.lib).None? ==> r == Laid(Err(StackOverflow), ranges, lines)
    ensures GetText(e.marks, n, p, e.hops, e.lib).Some? ==>
      var newRange := CalcRange(start, GetText(e.marks, n, p, e.hops, e.lib).value);
      && r.end == Ok(newRange.end) && r.ranges == ranges[p := newRange]
      && (r.lines != lines ==> p in ranges && ranges[p] != newRange)
  {
    match GetText(e.marks, n, p, e.hops, e.lib)
    case None => Laid(Err(StackOverflow), ranges, lines)
    case Some(text) =>
      var newRange := CalcRange(start, text);
      var written := if p in ranges && !IsSameRange(ranges[p], newRange) then e.host.setText(lines, ranges[p], SplitLines(text)) else lines;
      Laid(Ok(newRange.end), ranges[p := newRange], written)
  }

  /** `updateRange(start)` of the node n at p: a placeholder lays out its children, any other node itself. */
  function LayNode(e: Env, n: Node, p: Path, start: Position, ranges: map<Path, Range>, lines: seq<string>): Laid
    decreases n, 1
  {
    if n.Placeholder? then LayChildren(e, n.children, p, 0, start, ranges, lines)
    else LayLeaf(e, n, p, start, ranges, lines)
  }

  /** The loop `for (const child of this.children) pos = await child.updateRange(pos)` from child j on; a throw ends it. */
  function LayChildren(e: Env, nodes: seq<Node>, p: Path, j: nat, pos: Position, ranges: map<Path, Range>, lines: seq<string>): Laid
    requires j <= |nodes|
    decreases nodes, |nodes| - j
  {
    if j == |nodes| then Laid(Ok(pos), ranges, lines)
    else
      var r := LayNode(e, nodes[j], p + [j], pos, ranges, lines);
      if r.end.Err? then r else LayChildren(e, nodes, p, j + 1, r.end.value, r.ranges, r.lines)
  }

  /** A layout fails only where following copy links would overflow the stack. */
  lemma {:induction false} LayNodeFails(e: Env, n: Node, p: Path, start: Position, ranges: map<Path, Range>, lines: seq<string>)
    ensures LayNode(e, n, p, start, ranges, lines).end.Err? ==> LayNode(e, n, p, start, ranges, lines).end.error == StackOverflow
    decreases n, 1
  {
    if n.Placeholder? {
      LayChildrenFails(e, n.children, p, 0, start, ranges, lines);
    }
  }

  lemma {:induction false} LayChildrenFails(e: Env, nodes: seq<Node>, p: Path, j: nat, pos: Position, ranges: map<Path, Range>, lines: seq<string>)
    requires j <= |nodes|
    ensures LayChildren(e, nodes, p, j, pos, ranges, lines).end.Err? ==> LayChildren(e, nodes, p, j, pos, ranges, lines).end.error == StackOverflow
    decreases nodes, |nodes| - j
  {
    if j < |nodes| {
      var r := LayNode(e, nodes[j], p + [j], pos, ranges, lines);
      LayNodeFails(e, nodes[j], p + [j], pos, ranges, lines);
      if r.end.Ok? {
        LayChildrenFails(e, nodes, p, j + 1, r.end.value, r.ranges, r.lines);
      }
    }
  }

  lemma MapAddAssoc<K, V>(a: map<K, V>, b: map<K, V>, c: map<K, V>)
    ensures (a + b) + c == a + (b + c)
  {
  }

  /**
   * Neither the returned position nor the ranges stored depend on the ranges
   * or the buffer found: the layout overrides the ranges at the paths it
   * visits with those a layout from no ranges at all stores.
   */
  lemma {:induction false} LayNodeFrame(e: Env, n: Node, p: Path, start: Position, ranges: map<Path, Range>, lines: seq<string>, lines0: seq<string>)
    ensures LayNode(e, n, p, start, ranges, lines).end == LayNode(e, n, p, start, map[], lines0).end
    ensures LayNode(e, n, p, start, ranges, lines).ranges == ranges + LayNode(e, n, p, start, map[], lines0).ranges
    decreases n, 1
  {
    if n.Placeholder? {
      LayChildrenFrame(e, n.children, p, 0, start, ranges, lines, lines0);
    } else {
      match GetText(e.marks, n, p, e.hops, e.lib)
      case None =>
      case Some(text) =>
        var newRange := CalcRange(start, text);
        assert ranges[p := newRange] == ranges + map[p := newRange];
    }
  }

  lemma {:induction false} LayChildrenFrame(e: Env, nodes: seq<Node>, p: Path, j: nat, pos: Position, ranges: map<Path, Range>, lines: seq<string>, lines0: seq<string>)
    requires j <= |nodes|
    ensures LayChildren(e, nodes, p, j, pos, ranges, lines).end == LayChildren(e, nodes, p, j, pos, map[], lines0).end
    ensures LayChildren(e, nodes, p, j, pos, ranges, lines).ranges == ranges + LayChildren(e, nodes, p, j, pos, map[], lines0).ranges
    decreases nodes, |nodes| - j
  {
    if j == |nodes| {
      assert ranges + map[] == ranges;
    } else {
      var r := LayNode(e, nodes[j], p + [j], pos, ranges, lines);
      var r0 := LayNode(e, nodes[j], p + [j], pos, map[], lines0);
      LayNodeFrame(e, nodes[j], p + [j], pos, ranges, lines, lines0);
      assert map[] + r0.ranges == r0.ranges;
      if r.end.Ok? {
        var rest := LayChildren(e, nodes, p, j + 1, r.end.value, map[], lines0);
        LayChildrenFrame(e, nodes, p, j + 1, r.end.value, r.ranges, r.lines, lines0);
        LayChildrenFrame(e, nodes, p, j + 1, r.end.value, r0.ranges, r0.lines, lines0);
        MapAddAssoc(ranges, r0.ranges, rest.ranges);
      }
    }
  }

  /** A layout from no ranges stores ranges only at its own path, if it is not a placeholder, and below it. */
  lemma {:induction false} LayNodeKeys(e: Env, n: Node, p: Path, start: Position, lines: seq<string>)
    ensures forall q :: q in LayNode(e, n, p, start, map[], lines).ranges ==> (q == p && !n.Placeholder?) || Below(p, q)
    decreases n, 1
  {
    if n.Placeholder? {
      LayChildrenKeys(e, n.children, p, 0, start, lines);
    }
  }

  /** A layout of the children from child j on stores ranges only below those children. */
  lemma {:induction false} LayChildrenKeys(e: Env, nodes: seq<Node>, p: Path, j: nat, pos: Position, lines: seq<string>)
    requires j <= |nodes|
    ensures forall q :: q in LayChildren(e, nodes, p, j, pos, map[], lines).ranges ==> Below(p, q) && q[|p|] >= j
    decreases nodes, |nodes| - j
  {
    if j < |nodes| {
      var r := LayNode(e, nodes[j], p + [j], pos, map[], lines);
      LayNodeKeys(e, nodes[j], p + [j], pos, lines);
      forall q | q in r.ranges ensures Below(p, q) && q[|p|] >= j {
        assert q == p + [j] || Below(p + [j], q);
        assert q[..|p| + 1] == p + [j];
      }
      if r.end.Ok? {
        var rest := LayChildren(e, nodes, p, j + 1, r.end.value, map[], r.lines);
        LayChildrenKeys(e, nodes, p, j + 1, r.end.value, r.lines);
        LayChildrenFrame(e, nodes, p, j + 1, r.end.value, r.ranges, r.lines, r.lines);
      }
    }
  }

  /** The stored ranges agree with those in stored wherever stored has one. */
  ghost predicate Agrees(ranges: map<Path, Range>, stored: map<Path, Range>) {
    forall q :: q in stored ==> q in ranges && ranges[q] == stored[q]
  }

  /**
   * A layout over ranges that already hold what it would store changes
   * nothing: no range and no line of the buffer.
   */
  lemma {:induction false} LayNodeStable(e: Env, n: Node, p: Path, start: Position, ranges: map<Path, Range>, lines: seq<string>)
    requires LayNode(e, n, p, start, map[], lines).end.Ok?
    requires Agrees(ranges, LayNode(e, n, p, start, map[], lines).ranges)
    ensures LayNode(e, n, p, start, ranges, lines) == Laid(LayNode(e, n, p, start, map[], lines).end, ranges, lines)
    decreases n, 1
  {
    if n.Placeholder? {
      LayChildrenStable(e, n.children, p, 0, start, ranges, lines);
    } else {
      var text := GetText(e.marks, n, p, e.hops, e.lib).value;
      assert p in LayNode(e, n, p, start, map[], lines).ranges;
      assert ranges[p := CalcRange(start, text)] == ranges;
    }
  }

  lemma {:induction false} LayChildrenStable(e: Env, nodes: seq<Node>, p: Path, j: nat, pos: Position, ranges: map<Path, Range>, lines: seq<string>)
    requires j <= |nodes|
    requires LayChildren(e, nodes, p, j, pos, map[], lines).end.Ok?
    requires Agrees(ranges, LayChildren(e, nodes, p, j, pos, map[], lines).ranges)
    ensures LayChildren(e, nodes, p, j, pos, ranges, lines) == Laid(LayChildren(e, nodes, p, j, pos, map[], lines).end, ranges, lines)
    decreases nodes, |nodes| - j
  {
    if j < |nodes| {
      var r0 := LayNode(e, nodes[j], p + [j], pos, map[], lines);
      var rest := LayChildren(e, nodes, p, j + 1, r0.end.value, map[], lines);
      LayChildrenFrame(e, nodes, p, j + 1, r0.end.value, r0.ranges, r0.lines, lines);
      LayNodeKeys(e, nodes[j], p + [j], pos, lines);
      LayChildrenKeys(e, nodes, p, j + 1, r0.end.value, lines);
      forall q | q in r0.ranges ensures q in ranges && ranges[q] == r0.ranges[q] {
        assert q == p + [j] || Below(p + [j], q);
        assert q[..|p| + 1] == p + [j];
        assert q !in rest.ranges;
      }
      LayNodeStable(e, nodes[j], p + [j], pos, ranges, lines);
      LayNodeFrame(e, nodes[j], p + [j], pos, ranges, lines, lines);
      LayChildrenStable(e, nodes, p, j + 1, r0.end.value, ranges, lines);
    }
  }

  /**
   * `updateRange` is idempotent: laying the same node out again from the
   * same start, with the texts unchanged, returns the same end, keeps every
   * range and writes nothing to the buffer.
   */
  lemma LayNodeAgain(e: Env, n: Node, p: Path, start: Position, ranges: map<Path, Range>, lines: seq<string>, later: seq<string>)
    requires LayNode(e, n, p, start, ranges, lines).end.Ok?
    ensures var first := LayNode(e, n, p, start, ranges, lines);
      LayNode(e, n, p, start, first.ranges, later) == Laid(first.end, first.ranges, later)
  {
    var first := LayNode(e, n, p, start, ranges, lines);
    LayNodeFrame(e, n, p, start, ranges, lines, later);
    var stored := LayNode(e, n, p, start, map[], later);
    assert Agrees(first.ranges, stored.ranges);
    LayNodeStable(e, n, p, start, first.ranges, later);
  }

  /** A placeholder's layout never stores a range for the placeholder itself. */
  lemma PlaceholderKeepsRange(e: Env, n: Node, p: Path, start: Position, ranges: map<Path, Range>, lines: seq<string>)
    requires n.Placeholder?
    ensures var r := LayNode(e, n, p, start, ranges, lines).ranges;
      (p in r <==> p in ranges) && (p in ranges ==> r[p] == ranges[p])
  {
    LayNodeFrame(e, n, p, start, ranges, lines, lines);
    LayNodeKeys(e, n, p, start, lines);
  }

  /** A layout of the snippet's children never stores a range for the snippet (the path []). */
  lemma SnippetKeepsRange(e: Env, nodes: seq<Node>, start: Position, ranges: map<Path, Range>, lines: seq<string>)
    ensures var r := LayChildren(e, nodes, [], 0, start, ranges, lines).ranges;
      ([] in r <==> [] in ranges) && ([] in ranges ==> r[[]] == ranges[[]])
  {
    LayChildrenFrame(e, nodes, [], 0, start, ranges, lines, lines);
    LayChildrenKeys(e, nodes, [], 0, start, lines);
  }

  // ------------------------------------------------------------ the tree

  class Tree {
    /** The snippet's top-level children. */
    const top: seq<Node>
    const lib: TextLib
    var ranges: map<Path, Range>
    var input: map<Path, string>
    var copy: map<Path, Item>
    var index: map<Path, int>

    /** A freshly parsed snippet: no node has a range, an input or a copy link yet, and every choice is at index 0. */
    constructor(top: seq<Node>, lib: TextLib)
      ensures this.top == top && this.lib == lib
      ensures ranges == map[] && input == map[] && copy == map[] && index == map[]
    {
      this.top := top;
      this.lib := lib;
      ranges := map[];
      input := map[];
      copy := map[];
      index := map[];
    }

    /** The nodes' text-relevant fields. */
    function State(): Marks
      reads this
    {
      Marks(input, copy, index)
    }

    /** `Snippet.getText()`: the children's texts joined. */
    function Text(hops: nat): Option<string>
      reads this
    {
      JoinText(State(), top, [], 0, hops, lib)
    }

    /** `updateInput()`: the text the node's extmark covers (None when it has no valid extmark, leaving the input alone). */
    method UpdateInput(p: Path, read: Option<string>)
      modifies this
      ensures input == if read.Some? then old(input)[p := read.value] else old(input)
      ensures ranges == old(ranges) && copy == old(copy) && index == old(index)
    {
      if read.Some? {
        input := input[p := read.value];
      }
    }

    /** `selectNext()` of the choice at p. */
    method SelectNext(p: Path)
      requires NodeAt(top, p).Some? && NodeAt(top, p).value.Choice?
      modifies this
      ensures index == old(index)[p := NextIndex(IndexAt(old(State()), p), |NodeAt(top, p).value.items|)]
      ensures ranges == old(ranges) && input == old(input) && copy == old(copy)
    {
      var i := IndexAt(State(), p) + 1;
      if i >= |NodeAt(top, p).value.items| {
        i := 0;
      }
      index := index[p := i];
    }

    /** `selectPrev()` of the choice at p. */
    method SelectPrev(p: Path)
      requires NodeAt(top, p).Some? && NodeAt(top, p).value.Choice?
      modifies this
      ensures index == old(index)[p := PrevIndex(IndexAt(old(State()), p), |NodeAt(top, p).value.items|)]
      ensures ranges == old(ranges) && input == old(input) && copy == old(copy)
    {
      var i := IndexAt(State(), p) - 1;
      if i < 0 {
        i := |NodeAt(top, p).value.items| - 1;
      }
      index := index[p := i];
    }

    /** `updateRange(start)` of the node n at p. */
    method UpdateNodeRange(n: Node, p: Path, start: Position, hops: nat, buf: Buffer) returns (end: Result<Position>)
      modifies this, buf
      ensures var l := LayNode(Env(old(State()), hops, lib, buf.lib), n, p, start, old(ranges), old(buf.lines));
        end == l.end && ranges == l.ranges && buf.lines == l.lines
      ensures input == old(input) && copy == old(copy) && index == old(index) && buf.cursor == old(buf.cursor)
      decreases n, 1
    {
      if n.Placeholder? {
        end := UpdateChildrenRange(n.children, p, start, hops, buf);
        return;
      }
      var text := GetText(State(), n, p, hops, lib);
      if text.None? {
        return Err(StackOverflow);
      }
      var newRange := CalcRange(start, text.value);
      if p in ranges && !IsSameRange(ranges[p], newRange) {
        buf.SetText(ranges[p], SplitLines(text.value));
      }
      ranges := ranges[p := newRange];
      return Ok(newRange.end);
    }

    /** The loop over the children of the node at p, threading each child's end into the next child's start. */
    method UpdateChildrenRange(nodes: seq<Node>, p: Path, start: Position, hops: nat, buf: Buffer) returns (end: Result<Position>)
      modifies this, buf
      ensures var l := LayChildren(Env(old(State()), hops, lib, buf.lib), nodes, p, 0, start, old(ranges), old(buf.lines));
        end == l.end && ranges == l.ranges && buf.lines == l.lines
      ensures input == old(input) && copy == old(copy) && index == old(index) && buf.cursor == old(buf.cursor)
      decreases nodes, 0
    {
      ghost var e := Env(State(), hops, lib, buf.lib);
      var pos := start;
      var j := 0;
      while j < |nodes|
        invariant 0 <= j <= |nodes|
        invariant State() == e.marks && buf.cursor == old(buf.cursor)
        invariant LayChildren(e, nodes, p, j, pos, ranges, buf.lines) == LayChildren(e, nodes, p, 0, start, old(ranges), old(buf.lines))
      {
        var r := UpdateNodeRange(nodes[j], p + [j], pos, hops, buf);
        if r.Err? {
          return r;
        }
        pos := r.value;
        j := j + 1;
      }
      return Ok(pos);
    }

    /**
     * `Snippet.updateRange(start?)`: without a start it starts from the
     * snippet's own range, and throws when there is none; it never stores a
     * range of its own (see SnippetKeepsRange).
     */
    method UpdateRange(start: Option<Position>, hops: nat, buf: Buffer) returns (end: Result<Position>)
      modifies this, buf
      ensures start.None? && [] !in old(ranges) ==>
        end == Err("Internal error: Node.Snippet.updateRange") && ranges == old(ranges) && buf.lines == old(buf.lines)
      ensures start.Some? || [] in old(ranges) ==>
        var from := if start.Some? then start.value else old(ranges)[[]].start;
        var l := LayChildren(Env(old(State()), hops, lib, buf.lib), top, [], 0, from, old(ranges), old(buf.lines));
        end == l.end && ranges == l.ranges && buf.lines == l.lines
      ensures input == old(input) && copy == old(copy) && index == old(index) && buf.cursor == old(buf.cursor)
    {
      if start.None? && [] !in ranges {
        return Err("Internal error: Node.Snippet.updateRange");
      }
      var from := if start.Some? then start.value else ranges[[]].start;
      end := UpdateChildrenRange(top, [], from, hops, buf);
    }

    /** `setExtmark()`: the range the extmark is set over; it throws for a node without a range. */
    function ExtmarkRange(p: Path): (r: Result<Range>)
      reads this
      ensures r.Ok? <==> p in ranges
      ensures r.Ok? ==> r.value == ranges[p]
    {
      if p in ranges then Ok(ranges[p]) else Err("Internal error: Node.Jumpable.setExtmark")
    }

    /**
     * `jump()` of the node at p: it throws without a range; an empty range
     * puts the cursor at its start, any other is selected.
     */
    method Jump(p: Path, buf: Buffer) returns (r: Result<Motion>)
      modifies buf
      ensures p !in ranges ==> r == Err("Internal error: Node.Jumpable.jump") && buf.cursor == old(buf.cursor)
      ensures p in ranges && ranges[p].start == ranges[p].end ==> r == Ok(MoveTo(ranges[p].start)) && buf.cursor == ranges[p].start
      ensures p in ranges && ranges[p].start != ranges[p].end ==> r == Ok(Select(ranges[p])) && buf.cursor == old(buf.cursor)
      ensures buf.lines == old(buf.lines)
    {
      if p !in ranges {
        return Err("Internal error: Node.Jumpable.jump");
      }
      var range := ranges[p];
      if IsSamePosition(range.start, range.end) {
        buf.SetCursor(range.start);
        return Ok(MoveTo(range.start));
      }
      return Ok(Select(range));
    }
  }
}
