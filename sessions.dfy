/**
 * session.ts: an expanded snippet of the first generation, built on the
 * node tree of parser/node.ts. `create` resolves the mirrors of a parsed
 * body, lists the canonical jumpable nodes in ascending tabstop order,
 * inserts the text, lays the nodes out from the cursor and sets an extmark
 * on the first node; `update` reads the current node's input and lays the
 * snippet out again.
 *
 * Two members are modelled as written and beside a corrected partner:
 * Create never hands the session it builds to its caller (CreateReturning
 * does), and Update cannot lay the snippet out again because it asks the
 * snippet for a range the snippet never has (UpdateFromStart lays it out
 * from where it was first laid out).
 */
module Sessions {
  import opened Options
  import opened Ast
  import opened Positions
  import opened Trees
  import opened Mirrors
  import opened Host
  import opened ParserNode

  /**
   * `jumpableNodes`: the canonical node of every tabstop, each once,
   * sorted by `(a, b) => a[0] - b[0]`.
   */
  function SessionOrder(canon: map<nat, Item>): (r: seq<Item>)
    requires Filed(canon)
    ensures forall k :: 0 <= k < |r| ==> r[k].node.IsJumpable() && Tab(r[k]) in canon && canon[Tab(r[k])] == r[k]
    ensures forall t :: t in canon ==> canon[t] in r
    ensures forall a, b :: 0 <= a < b < |r| ==> Tab(r[a]) < Tab(r[b])
  {
    var order := Ascending(canon.Keys);
    var r := InOrder(canon, order);
    forall k | 0 <= k < |r| ensures r[k].node.IsJumpable() && Tab(r[k]) == order[k] {
      assert order[k] in canon && r[k] == canon[order[k]];
    }
    forall t | t in canon ensures canon[t] in r {
      var k :| 0 <= k < |order| && order[k] == t;
      assert r[k] == canon[t];
    }
    forall a, b | 0 <= a < b < |r| ensures Tab(r[a]) < Tab(r[b]) {
      assert AscendingCompare(order[a], order[b]) < 0;
    }
    r
  }

  /** Unlike snippet.ts, session.ts jumps to tabstop 0 first when the snippet has one. */
  lemma ZeroIsFirst(canon: map<nat, Item>)
    requires Filed(canon) && 0 in canon
    ensures var r := SessionOrder(canon); |r| > 0 && Tab(r[0]) == 0
  {
    var r := SessionOrder(canon);
    assert canon[0] in r;
    var z :| 0 <= z < |r| && r[z] == canon[0];
    assert Tab(r[z]) == 0;
  }

  /** The text `create` inserts: the snippet's text once the mirrors are linked, before anything is typed or chosen. */
  function InsertText(nodes: seq<Node>, hops: nat, lib: TextLib): Option<string> {
    JoinText(Marks(map[], Resolved(Walk(nodes)).copy, map[]), nodes, [], 0, hops, lib)
  }

  class Session {
    var nodeIndex: nat
    const tree: Tree
    const jumpableNodes: seq<Item>
    /**
     * The cursor the snippet was first laid out from. session.ts keeps no
     * such position; only the corrected UpdateFromStart reads it.
     */
    const start: Position

    /**
     * nodeIndex points into jumpableNodes, every one of which is a jumpable
     * node of the tree, and the snippet itself has no range (see
     * SnippetKeepsRange).
     */
    ghost predicate Valid()
      reads this, tree
    {
      && nodeIndex < |jumpableNodes|
      && (forall k :: 0 <= k < |jumpableNodes| ==> Located(tree.top, jumpableNodes[k]))
      && [] !in tree.ranges
    }

    constructor(tree: Tree, jumpableNodes: seq<Item>, start: Position)
      ensures this.tree == tree && this.jumpableNodes == jumpableNodes && this.start == start
      ensures nodeIndex == 0
    {
      this.tree := tree;
      this.jumpableNodes := jumpableNodes;
      this.start := start;
      nodeIndex := 0;
    }

    /** `currentNode()` */
    function CurrentNode(): (r: Item)
      requires Valid()
      reads this, tree
      ensures Located(tree.top, r) && r in jumpableNodes
    {
      jumpableNodes[nodeIndex]
    }

    /**
     * `update()` as written: the current node reads its input, then
     * `updateRange()` is called without a start. The snippet has no range,
     * so that call always throws; it is not awaited, so update itself ends
     * normally, with no range stored anew and nothing written to the
     * buffer. `layout` is the outcome of the call that is not awaited.
     */
    method Update(read: Option<string>, hops: nat, buf: Buffer) returns (layout: Result<Position>)
      requires Valid()
      modifies tree, buf
      ensures Valid()
      ensures layout == Err("Internal error: Node.Snippet.updateRange")
      ensures tree.input == if read.Some? then old(tree.input)[old(CurrentNode()).path := read.value] else old(tree.input)
      ensures tree.ranges == old(tree.ranges) && tree.copy == old(tree.copy) && tree.index == old(tree.index)
      ensures buf.lines == old(buf.lines) && buf.cursor == old(buf.cursor)
    {
      tree.UpdateInput(CurrentNode().path, read);
      layout := tree.UpdateRange(None, hops, buf);
    }

    /**
     * `update()` as it is evidently meant, and as snippet.ts does it by
     * storing the snippet's own range: after the input is read the snippet
     * is laid out again from where it starts. It fails only by a copy
     * cycle's stack overflow, never by the missing range.
     */
    method UpdateFromStart(read: Option<string>, hops: nat, buf: Buffer) returns (r: Result<Position>)
      requires Valid()
      modifies tree, buf
      ensures Valid()
      ensures tree.input == if read.Some? then old(tree.input)[old(CurrentNode()).path := read.value] else old(tree.input)
      ensures var l := LayChildren(Env(tree.State(), hops, tree.lib, buf.lib), tree.top, [], 0, start, old(tree.ranges), old(buf.lines));
        r == l.end && tree.ranges == l.ranges && buf.lines == l.lines
      ensures r.Err? ==> r.error == StackOverflow
      ensures tree.copy == old(tree.copy) && tree.index == old(tree.index) && buf.cursor == old(buf.cursor)
    {
      tree.UpdateInput(CurrentNode().path, read);
      ghost var e := Env(tree.State(), hops, tree.lib, buf.lib);
      r := tree.UpdateRange(Some(start), hops, buf);
      SnippetKeepsRange(e, tree.top, start, old(tree.ranges), old(buf.lines));
      LayChildrenFails(e, tree.top, [], 0, start, old(tree.ranges), old(buf.lines));
    }
  }

  /** The mirror resolution of `create`: a fresh tree with the copy links set, and its jumpable nodes in order. */
  method Link(nodes: seq<Node>, lib: TextLib) returns (tree: Tree, jumpableNodes: seq<Item>)
    ensures fresh(tree) && tree.top == nodes && tree.lib == lib
    ensures tree.copy == Resolved(Walk(nodes)).copy && tree.input == map[] && tree.index == map[] && tree.ranges == map[]
    ensures jumpableNodes == SessionOrder(Canon(nodes))
    ensures forall k :: 0 <= k < |jumpableNodes| ==> Located(nodes, jumpableNodes[k])
  {
    var canon, copy := ResolveMirrors(nodes);
    assert canon == Canon(nodes);
    jumpableNodes := SessionOrder(canon);
    tree := new Tree(nodes, lib);
    tree.copy := copy;
  }

  /**
   * `create` after parsing, up to the session it builds, which it returns:
   * the mirrors are linked and the text is inserted; with jumpable nodes,
   * the snippet is laid out from the cursor found after the insertion (a
   * failure of that layout is not awaited and does not stop create), and
   * the first node's extmark is set, which throws for a node without a
   * range.
   */
  method Launch(nodes: seq<Node>, lib: TextLib, hops: nat, buf: Buffer) returns (r: Result<Option<Session>>)
    modifies buf
    ensures InsertText(nodes, hops, lib).None? ==>
      r == Err(StackOverflow) && buf.lines == old(buf.lines) && buf.cursor == old(buf.cursor)
    ensures InsertText(nodes, hops, lib).Some? && SessionOrder(Canon(nodes)) == [] ==>
      r == Ok(None) && (buf.lines, buf.cursor) == buf.lib.linePatch(old(buf.lines), old(buf.cursor), InsertText(nodes, hops, lib).value)
    ensures r.Ok? ==> (r.value.Some? <==> SessionOrder(Canon(nodes)) != [])
    ensures r.Ok? && r.value.Some? ==>
      var s := r.value.value;
      var patched := buf.lib.linePatch(old(buf.lines), old(buf.cursor), InsertText(nodes, hops, lib).value);
      var l := LayChildren(Env(s.tree.State(), hops, lib, buf.lib), nodes, [], 0, patched.1, map[], patched.0);
      && fresh(s) && fresh(s.tree) && s.Valid() && s.nodeIndex == 0
      && s.jumpableNodes == SessionOrder(Canon(nodes)) && s.tree.top == nodes && s.tree.lib == lib
      && s.tree.copy == Resolved(Walk(nodes)).copy && s.tree.input == map[] && s.tree.index == map[]
      && s.start == patched.1 && s.tree.ranges == l.ranges && buf.lines == l.lines && buf.cursor == patched.1
      && s.jumpableNodes[0].path in s.tree.ranges
    ensures r.Err? ==> r.error == StackOverflow || r.error == "Internal error: Node.Jumpable.setExtmark"
    ensures InsertText(nodes, hops, lib).Some? && SessionOrder(Canon(nodes)) != [] ==>
      var patched := buf.lib.linePatch(old(buf.lines), old(buf.cursor), InsertText(nodes, hops, lib).value);
      var marks := Marks(map[], Resolved(Walk(nodes)).copy, map[]);
      var l := LayChildren(Env(marks, hops, lib, buf.lib), nodes, [], 0, patched.1, map[], patched.0);
      && (r.Ok? <==> SessionOrder(Canon(nodes))[0].path in l.ranges)
      && (r.Err? ==> r.error == "Internal error: Node.Jumpable.setExtmark")
      && buf.lines == l.lines
  {
    var tree, jumpableNodes := Link(nodes, lib);
    var insertText := tree.Text(hops);
    if insertText.None? {
      return Err(StackOverflow);
    }
    buf.LinePatch(insertText.value);
    if |jumpableNodes| == 0 {
      return Ok(None);
    }
    var placed := Place(tree, jumpableNodes, hops, buf);
    if placed.Err? {
      return Err(placed.error);
    }
    return Ok(Some(placed.value));
  }

  /**
   * The end of `create` once the text is in the buffer: the snippet laid
   * out from the cursor, the session built, and the first node's extmark
   * set, which throws when the layout gave that node no range.
   */
  method Place(tree: Tree, jumpableNodes: seq<Item>, hops: nat, buf: Buffer) returns (r: Result<Session>)
    requires tree.ranges == map[] && |jumpableNodes| > 0
    requires forall k :: 0 <= k < |jumpableNodes| ==> Located(tree.top, jumpableNodes[k])
    modifies tree, buf
    ensures tree.input == old(tree.input) && tree.copy == old(tree.copy) && tree.index == old(tree.index)
    ensures var l := LayChildren(Env(old(tree.State()), hops, tree.lib, buf.lib), tree.top, [], 0, old(buf.cursor), map[], old(buf.lines));
      && tree.ranges == l.ranges && buf.lines == l.lines && buf.cursor == old(buf.cursor)
      && (r.Ok? <==> jumpableNodes[0].path in l.ranges)
      && (r.Err? ==> r.error == "Internal error: Node.Jumpable.setExtmark")
    ensures r.Ok? ==>
      && fresh(r.value) && r.value.tree == tree && r.value.jumpableNodes == jumpableNodes
      && r.value.start == old(buf.cursor) && r.value.nodeIndex == 0 && r.value.Valid()
  {
    var cursor := buf.cursor;
    ghost var e := Env(tree.State(), hops, tree.lib, buf.lib);
    var _ := tree.UpdateRange(Some(cursor), hops, buf);
    SnippetKeepsRange(e, tree.top, cursor, map[], old(buf.lines));
    var s := new Session(tree, jumpableNodes, cursor);
    var mark := tree.ExtmarkRange(jumpableNodes[0].path);
    if mark.Err? {
      return Err(mark.error);
    }
    return Ok(s);
  }

  /**
   * `Session.create` as written, given the outcome of parsing the
   * indent-adjusted body: it throws when the body did not parse, and
   * otherwise does all of Launch, but it ends without a `return` of the
   * session it built, so its caller never receives one.
   */
  method Create(parsed: Option<seq<Node>>, lib: TextLib, hops: nat, buf: Buffer) returns (r: Result<Option<Session>>)
    modifies buf
    ensures parsed.None? ==> r == Err("Failed parsing") && buf.lines == old(buf.lines) && buf.cursor == old(buf.cursor)
    ensures r.Ok? ==> r.value.None?
    ensures parsed.Some? && InsertText(parsed.value, hops, lib).None? ==>
      r == Err(StackOverflow) && buf.lines == old(buf.lines) && buf.cursor == old(buf.cursor)
    ensures parsed.Some? && InsertText(parsed.value, hops, lib).Some? && SessionOrder(Canon(parsed.value)) == [] ==>
      r == Ok(None) && (buf.lines, buf.cursor) == buf.lib.linePatch(old(buf.lines), old(buf.cursor), InsertText(parsed.value, hops, lib).value)
  {
    if parsed.None? {
      return Err("Failed parsing");
    }
    var made := Launch(parsed.value, lib, hops, buf);
    if made.Err? {
      return Err(made.error);
    }
    return Ok(None);
  }

  /** `Session.create` as it is evidently meant: the same steps, ending with `return session`. */
  method CreateReturning(parsed: Option<seq<Node>>, lib: TextLib, hops: nat, buf: Buffer) returns (r: Result<Option<Session>>)
    modifies buf
    ensures parsed.None? ==> r == Err("Failed parsing") && buf.lines == old(buf.lines) && buf.cursor == old(buf.cursor)
    ensures parsed.Some? && InsertText(parsed.value, hops, lib).None? ==>
      r == Err(StackOverflow) && buf.lines == old(buf.lines) && buf.cursor == old(buf.cursor)
    ensures parsed.Some? && InsertText(parsed.value, hops, lib).Some? && SessionOrder(Canon(parsed.value)) == [] ==>
      r == Ok(None) && (buf.lines, buf.cursor) == buf.lib.linePatch(old(buf.lines), old(buf.cursor), InsertText(parsed.value, hops, lib).value)
    ensures parsed.Some? && r.Ok? ==> (r.value.Some? <==> SessionOrder(Canon(parsed.value)) != [])
    ensures parsed.Some? && r.Ok? && r.value.Some? ==>
      var s := r.value.value;
      var patched := buf.lib.linePatch(old(buf.lines), old(buf.cursor), InsertText(parsed.value, hops, lib).value);
      var l := LayChildren(Env(s.tree.State(), hops, lib, buf.lib), parsed.value, [], 0, patched.1, map[], patched.0);
      && fresh(s) && fresh(s.tree) && s.Valid() && s.nodeIndex == 0
      && s.jumpableNodes == SessionOrder(Canon(parsed.value)) && s.tree.top == parsed.value && s.tree.lib == lib
      && s.tree.copy == Resolved(Walk(parsed.value)).copy && s.tree.input == map[] && s.tree.index == map[]
      && s.start == patched.1 && s.tree.ranges == l.ranges && buf.lines == l.lines && buf.cursor == patched.1
      && s.jumpableNodes[0].path in s.tree.ranges
    ensures r.Err? ==> r.error == "Failed parsing" || r.error == StackOverflow || r.error == "Internal error: Node.Jumpable.setExtmark"
    ensures parsed.Some? && InsertText(parsed.value, hops, lib).Some? && SessionOrder(Canon(parsed.value)) != [] ==>
      var patched := buf.lib.linePatch(old(buf.lines), old(buf.cursor), InsertText(parsed.value, hops, lib).value);
      var marks := Marks(map[], Resolved(Walk(parsed.value)).copy, map[]);
      var l := LayChildren(Env(marks, hops, lib, buf.lib), parsed.value, [], 0, patched.1, map[], patched.0);
      && (r.Ok? <==> SessionOrder(Canon(parsed.value))[0].path in l.ranges)
      && (r.Err? ==> r.error == "Internal error: Node.Jumpable.setExtmark")
      && buf.lines == l.lines
  {
    if parsed.None? {
      return Err("Failed parsing");
    }
    r := Launch(parsed.value, lib, hops, buf);
  }
}
