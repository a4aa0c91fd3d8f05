/**
 * snippet.ts: an expanded snippet of the second generation. `create`
 * resolves the mirrors of a parsed body, lists the canonical jumpable
 * nodes with tabstop 0 last, inserts the text and jumps to the first node;
 * the instance then moves `nodeIndex` between its jumpable nodes, hands a
 * move it cannot make to the snippet it was expanded inside (`outer`), and
 * cycles a choice.
 */
module Snippets {
  import opened Options
  import opened Ast
  import opened Strings
  import opened Positions
  import opened Trees
  import opened Mirrors
  import opened Host
  import opened Nodes

  /** The direction of a jump or a choice: 1 forward, -1 back. */
  type Dir = d: int | d == 1 || d == -1 witness 1

  /**
   * `jumpableNodes`: the canonical node of every tabstop, each once,
   * sorted by the comparator of snippet.ts, which puts 0 last.
   */
  function JumpOrder(canon: map<nat, Item>): (r: seq<Item>)
    requires Filed(canon)
    ensures forall k :: 0 <= k < |r| ==> r[k].node.IsJumpable() && Tab(r[k]) in canon && canon[Tab(r[k])] == r[k]
    ensures forall t :: t in canon ==> canon[t] in r
    ensures forall a, b :: 0 <= a < b < |r| ==> ZeroLastCompare(Tab(r[a]), Tab(r[b])) < 0
  {
    var order := ZeroLast(canon.Keys);
    var r := InOrder(canon, order);
    forall k | 0 <= k < |r| ensures r[k].node.IsJumpable() && Tab(r[k]) == order[k] {
      assert order[k] in canon && r[k] == canon[order[k]];
    }
    forall t | t in canon ensures canon[t] in r {
      var k :| 0 <= k < |order| && order[k] == t;
      assert r[k] == canon[t];
    }
    r
  }

  /** Under the comparator of snippet.ts, tabstop 0 never sorts before another. */
  lemma ZeroNotBefore(a: nat, b: nat)
    ensures ZeroLastCompare(a, b) < 0 ==> a != 0
  {
  }

  /** The tabstops of the sorted nodes. */
  function Tabs(nodes: seq<Item>): (r: seq<nat>)
    requires forall k :: 0 <= k < |nodes| ==> nodes[k].node.IsJumpable()
    ensures |r| == |nodes| && forall k :: 0 <= k < |nodes| ==> r[k] == Tab(nodes[k])
  {
    seq(|nodes|, k requires 0 <= k < |nodes| => Tab(nodes[k]))
  }

  /** `create` keeps an instance unless there is no jumpable node or the only one is tabstop 0. */
  predicate KeepsInstance(tabs: seq<nat>) {
    |tabs| > 0 && !(|tabs| == 1 && tabs[0] == 0)
  }

  /** An instance is kept exactly when the snippet has a tabstop other than 0. */
  lemma KeptIffNonZero(canon: map<nat, Item>)
    requires Filed(canon)
    ensures KeepsInstance(Tabs(JumpOrder(canon))) <==> exists t :: t in canon && t != 0
  {
    var r := JumpOrder(canon);
    var tabs := Tabs(r);
    if t :| t in canon && t != 0 {
      assert canon[t] in r;
      var k :| 0 <= k < |r| && r[k] == canon[t];
      assert tabs[k] == t;
    }
    if KeepsInstance(tabs) {
      if |tabs| >= 2 {
        ZeroNotBefore(Tab(r[0]), Tab(r[1]));
      }
      assert Tab(r[0]) in canon && Tab(r[0]) != 0;
    }
  }

  /** Tabstop 0, when the walk met it, is the last node of the order and no other is numbered 0. */
  lemma ZeroIsLast(canon: map<nat, Item>)
    requires Filed(canon) && 0 in canon
    ensures var r := JumpOrder(canon); |r| > 0 && Tab(r[|r| - 1]) == 0
    ensures var r := JumpOrder(canon); forall k :: 0 <= k < |r| - 1 ==> Tab(r[k]) != 0
  {
    var r := JumpOrder(canon);
    assert canon[0] in r;
    forall k | 0 <= k < |r| - 1 ensures Tab(r[k]) != 0 {
      ZeroNotBefore(Tab(r[k]), Tab(r[|r| - 1]));
    }
    var z :| 0 <= z < |r| && r[z] == canon[0];
    assert Tab(r[z]) == 0;
  }

  class Snippet {
    var nodeIndex: nat
    const tree: Tree
    const jumpableNodes: seq<Item>
    const outer: Option<Snippet>
    /** The snippets this one was expanded inside, and how many there are. */
    ghost const Repr: set<Snippet>
    ghost const depth: nat

    /** The chain of outer snippets ends. */
    ghost predicate Chain()
      decreases depth
    {
      outer.Some? ==>
        outer.value in Repr && outer.value.Repr <= Repr && outer.value.depth < depth && outer.value.Chain()
    }

    /** nodeIndex points into jumpableNodes, every one of which is a jumpable node of the tree. */
    ghost predicate Valid()
      reads this, tree
    {
      && Chain() && nodeIndex < |jumpableNodes| && tree.Valid()
      && forall k :: 0 <= k < |jumpableNodes| ==> Located(tree.top, jumpableNodes[k])
    }

    constructor(tree: Tree, jumpableNodes: seq<Item>, outer: Option<Snippet>)
      requires outer.Some? ==> outer.value.Chain()
      ensures this.tree == tree && this.jumpableNodes == jumpableNodes && this.outer == outer
      ensures nodeIndex == 0 && Chain()
    {
      this.tree := tree;
      this.jumpableNodes := jumpableNodes;
      this.outer := outer;
      nodeIndex := 0;
      Repr := if outer.Some? then {outer.value} + outer.value.Repr else {};
      depth := if outer.Some? then outer.value.depth + 1 else 0;
    }

    /** This snippet itself can move in direction dir. */
    function CanMove(dir: Dir): bool
      reads this
    {
      (dir == 1 && nodeIndex < |jumpableNodes| - 1) || (dir == -1 && nodeIndex > 0)
    }

    /** `jumpable(dir)`: this snippet can move, or the outer one is jumpable. */
    function Jumpable(dir: Dir): bool
      requires Chain()
      reads this, Repr
      decreases depth
    {
      CanMove(dir) || (outer.Some? && outer.value.Jumpable(dir))
    }

    /** This snippet followed by the snippets it was expanded inside, innermost first. */
    ghost function Levels(): (r: seq<Snippet>)
      requires Chain()
      ensures |r| >= 1 && r[0] == this
      ensures forall k :: 1 <= k < |r| ==> r[k] in Repr
      decreases depth
    {
      if outer.Some? then [this] + outer.value.Levels() else [this]
    }

    /** `currentNode()` */
    function CurrentNode(): (r: Item)
      requires Valid()
      reads this, tree
      ensures Located(tree.top, r) && r in jumpableNodes
    {
      jumpableNodes[nodeIndex]
    }

    /** `choosable()`: the current node is a choice. */
    function Choosable(): bool
      requires Valid()
      reads this, tree
    {
      CurrentNode().node.Choice?
    }

    /**
     * `jump(dir)`: moves nodeIndex by dir and jumps to the node there when
     * that stays inside the list, and answers false otherwise.
     */
    method Jump(dir: Dir, buf: Buffer) returns (r: Result<bool>)
      requires Valid()
      modifies this, buf
      ensures Valid()
      ensures old(CanMove(dir)) ==>
        nodeIndex == old(nodeIndex) + dir
        && r == (if CurrentNode().path in tree.ranges then Ok(true) else Err("Internal error: Node.Jumpable.jump"))
      ensures old(CanMove(dir)) && CurrentNode().path in tree.ranges ==>
        var g := tree.ranges[CurrentNode().path];
        buf.cursor == (if g.start == g.end then g.start else old(buf.cursor))
      ensures old(CanMove(dir)) && CurrentNode().path !in tree.ranges ==> buf.cursor == old(buf.cursor)
      ensures !old(CanMove(dir)) ==> r == Ok(false) && nodeIndex == old(nodeIndex) && buf.cursor == old(buf.cursor)
      ensures buf.lines == old(buf.lines)
    {
      if dir == 1 && nodeIndex < |jumpableNodes| - 1 {
        nodeIndex := nodeIndex + 1;
      } else if dir == -1 && nodeIndex > 0 {
        nodeIndex := nodeIndex - 1;
      } else {
        return Ok(false);
      }
      var shown := tree.Jump(CurrentNode().path, buf);
      if shown.Err? {
        return Err(shown.error);
      }
      return Ok(true);
    }

    /**
     * `choice(dir)`: on a current choice, selects the next item (dir 1) or
     * the previous one (dir -1) and lays the snippet out again; nothing
     * happens on any other node.
     */
    method Choice(dir: Dir, hops: nat, buf: Buffer) returns (r: Result<()>)
      requires Valid()
      modifies tree, buf
      ensures Valid()
      ensures !old(Choosable()) ==>
        r == Ok(()) && tree.index == old(tree.index) && tree.ranges == old(tree.ranges)
        && buf.lines == old(buf.lines) && buf.cursor == old(buf.cursor)
      ensures old(Choosable()) ==>
        var p := old(CurrentNode()).path;
        var count := |old(CurrentNode()).node.items|;
        var i := IndexAt(old(tree.State()), p);
        tree.index == old(tree.index)[p := if dir == 1 then NextIndex(i, count) else PrevIndex(i, count)]
      ensures old(Choosable()) && [] !in old(tree.ranges) ==>
        r == Err("Internal error: Node.Snippet.updateRange") && tree.DocOf(buf) == old(tree.DocOf(buf))
      ensures old(Choosable()) && [] in old(tree.ranges) ==>
        var l := LaySnippet(Env(tree.State(), hops, tree.lib, buf.lib), tree.top, old(tree.ranges)[[]].start, None, old(tree.DocOf(buf)));
        tree.DocOf(buf) == l.doc && r == (if l.end.Err? then Err(l.end.error) else Ok(()))
      ensures tree.input == old(tree.input) && tree.copy == old(tree.copy)
    {
      var node := CurrentNode();
      if !node.node.Choice? {
        return Ok(());
      }
      if dir == 1 {
        tree.SelectNext(node.path);
      } else {
        tree.SelectPrev(node.path);
      }
      var end := tree.UpdateRange(None, None, hops, buf);
      if end.Err? {
        return Err(end.error);
      }
      return Ok(());
    }

    /**
     * `update()`: the current node reads its input from its extmark, then
     * the snippet is laid out again from its own start.
     */
    method Update(extmark: Option<Range>, hops: nat, buf: Buffer) returns (r: Result<()>)
      requires Valid()
      modifies tree, buf
      ensures Valid()
      ensures extmark.None? ==>
        r == Err("Internal error: Node.Jumpable.updateInput") && tree.ranges == old(tree.ranges)
        && buf.lines == old(buf.lines)
      ensures extmark.Some? ==> tree.input == old(tree.input)[old(CurrentNode()).path := Join(old(buf.GetText(extmark.value)), "\n")]
      ensures tree.copy == old(tree.copy) && tree.index == old(tree.index)
    {
      var node := CurrentNode();
      var read := tree.UpdateInput(node.path, None, extmark, buf);
      if read.Err? {
        return Err(read.error);
      }
      var end := tree.UpdateRange(None, None, hops, buf);
      if end.Err? {
        return Err(end.error);
      }
      return Ok(());
    }
  }

  /**
   * `jumpable(dir)` holds exactly when some snippet of the chain, this one
   * or one it was expanded inside, can move in that direction; without an
   * outer snippet it is the local move alone.
   */
  lemma {:induction false} JumpableSomewhere(s: Snippet, dir: Dir)
    requires s.Chain()
    ensures s.Jumpable(dir) <==> exists k :: 0 <= k < |s.Levels()| && s.Levels()[k].CanMove(dir)
    ensures s.outer.None? ==> (s.Jumpable(dir) <==> s.CanMove(dir))
    decreases s.depth
  {
    var levels := s.Levels();
    if s.outer.Some? {
      var o := s.outer.value;
      JumpableSomewhere(o, dir);
      assert levels == [s] + o.Levels();
      if o.Jumpable(dir) {
        var k :| 0 <= k < |o.Levels()| && o.Levels()[k].CanMove(dir);
        assert levels[k + 1] == o.Levels()[k];
      }
      if k :| 0 <= k < |levels| && levels[k].CanMove(dir) {
        if k > 0 {
          assert o.Levels()[k - 1] == levels[k];
        }
      }
      assert s.Jumpable(dir) <==> exists k :: 0 <= k < |s.Levels()| && s.Levels()[k].CanMove(dir);
    } else {
      assert levels == [s];
      assert forall k :: 0 <= k < |levels| ==> levels[k] == s;
      if s.CanMove(dir) {
        assert levels[0].CanMove(dir);
        assert exists k :: 0 <= k < |s.Levels()| && s.Levels()[k].CanMove(dir);
      }
    }
  }

  /** The text `create` inserts: the snippet's text once the mirrors are linked, before anything is typed or chosen. */
  function InsertText(nodes: seq<Node>, hops: nat, lib: TextLib): Option<string> {
    JoinText(Marks(map[], Resolved(Walk(nodes)).copy, map[]), map[], nodes, [], 0, None, hops, lib)
  }

  /**
   * `Snippet.create`, given the outcome of parsing the indent-adjusted
   * body: it throws when the body did not parse; otherwise it links the
   * mirrors, inserts the text at the cursor, and, when there are jumpable
   * nodes, lays the snippet out from the cursor it found and jumps to the
   * first of them; an instance is returned only when a tabstop other than
   * 0 exists (see KeptIffNonZero).
   */
  method Create(parsed: Option<seq<Node>>, outer: Option<Snippet>, lib: TextLib, hops: nat, buf: Buffer)
    returns (r: Result<Option<Snippet>>)
    requires outer.Some? ==> outer.value.Chain()
    modifies buf
    ensures parsed.None? ==> r == Err("Failed parsing") && buf.lines == old(buf.lines) && buf.cursor == old(buf.cursor)
    ensures parsed.Some? && InsertText(parsed.value, hops, lib).None? ==>
      r == Err(StackOverflow) && buf.lines == old(buf.lines) && buf.cursor == old(buf.cursor)
    ensures parsed.Some? && InsertText(parsed.value, hops, lib).Some? && JumpOrder(Canon(parsed.value)) == [] ==>
      r == Ok(None) && (buf.lines, buf.cursor) == buf.lib.linePatch(old(buf.lines), old(buf.cursor), InsertText(parsed.value, hops, lib).value)
    ensures parsed.Some? && r.Ok? ==> (r.value.Some? <==> KeepsInstance(Tabs(JumpOrder(Canon(parsed.value)))))
    ensures parsed.Some? && r.Ok? && r.value.Some? ==>
      var s := r.value.value;
      && fresh(s) && fresh(s.tree) && s.Valid() && s.nodeIndex == 0 && s.outer == outer
      && s.jumpableNodes == JumpOrder(Canon(parsed.value)) && s.tree.top == parsed.value
      && s.tree.copy == Resolved(Walk(parsed.value)).copy && s.tree.input == map[] && s.tree.index == map[]
    ensures parsed.Some? && InsertText(parsed.value, hops, lib).Some? ==>
      buf.lines == buf.lib.linePatch(old(buf.lines), old(buf.cursor), InsertText(parsed.value, hops, lib).value).0
    ensures parsed.Some? && InsertText(parsed.value, hops, lib).Some? && JumpOrder(Canon(parsed.value)) != [] ==>
      var patched := buf.lib.linePatch(old(buf.lines), old(buf.cursor), InsertText(parsed.value, hops, lib).value);
      var marks := Marks(map[], Resolved(Walk(parsed.value)).copy, map[]);
      var l := LaySnippet(Env(marks, hops, lib, buf.lib), parsed.value, old(buf.cursor), None, Doc(map[], map[], [], patched.0, patched.1));
      var first := JumpOrder(Canon(parsed.value))[0].path;
      && (r.Ok? <==> l.end.Ok? && first in l.doc.ranges)
      && (l.end.Err? ==> r == Err(l.end.error))
      && (l.end.Ok? && first !in l.doc.ranges ==> r == Err("Internal error: Node.Jumpable.jump"))
      && (r.Ok? ==>
          && buf.cursor == (if l.doc.ranges[first].start == l.doc.ranges[first].end then l.doc.ranges[first].start else patched.1)
          && (r.value.Some? ==> r.value.value.tree.ranges == l.doc.ranges && r.value.value.tree.texts == l.doc.texts))
  {
    if parsed.None? {
      return Err("Failed parsing");
    }
    var nodes := parsed.value;
    var tree, jumpableNodes := Link(nodes, lib);
    var cursor := buf.cursor;
    var insertText := tree.Text(hops);
    if insertText.None? {
      return Err(StackOverflow);
    }
    buf.LinePatch(insertText.value);
    if |jumpableNodes| == 0 {
      return Ok(None);
    }
    FirstLayoutKeepsBuffer(Env(tree.State(), hops, lib, buf.lib), nodes, cursor, None, tree.DocOf(buf));
    r := Launch(tree, jumpableNodes, cursor, hops, buf, outer);
  }

  /**
   * The rest of `create` once the text is in the buffer: the layout and the
   * jump to the first node, then an instance unless the only stop is $0.
   */
  method Launch(tree: Tree, jumpableNodes: seq<Item>, cursor: Position, hops: nat, buf: Buffer, outer: Option<Snippet>)
    returns (r: Result<Option<Snippet>>)
    requires tree.Valid() && |jumpableNodes| > 0 && (outer.Some? ==> outer.value.Chain())
    requires forall k :: 0 <= k < |jumpableNodes| ==> jumpableNodes[k].node.IsJumpable() && Located(tree.top, jumpableNodes[k])
    modifies tree, buf
    ensures tree.input == old(tree.input) && tree.copy == old(tree.copy) && tree.index == old(tree.index)
    ensures var l := LaySnippet(Env(old(tree.State()), hops, tree.lib, buf.lib), tree.top, cursor, None, old(tree.DocOf(buf)));
      var first := jumpableNodes[0].path;
      && buf.lines == l.doc.lines && tree.ranges == l.doc.ranges && tree.texts == l.doc.texts
      && (r.Ok? <==> l.end.Ok? && first in l.doc.ranges)
      && (l.end.Err? ==> r == Err(l.end.error) && buf.cursor == l.doc.cursor)
      && (l.end.Ok? && first !in l.doc.ranges ==> r == Err("Internal error: Node.Jumpable.jump") && buf.cursor == l.doc.cursor)
      && (r.Ok? ==> var g := l.doc.ranges[first]; buf.cursor == (if g.start == g.end then g.start else l.doc.cursor))
    ensures r.Ok? ==> (r.value.Some? <==> KeepsInstance(Tabs(jumpableNodes)))
    ensures r.Ok? && r.value.Some? ==>
      var s := r.value.value;
      fresh(s) && s.tree == tree && s.Valid() && s.nodeIndex == 0 && s.outer == outer && s.jumpableNodes == jumpableNodes
  {
    var started := Start(tree, jumpableNodes[0].path, cursor, hops, buf);
    if started.Err? {
      return Err(started.error);
    }
    if |jumpableNodes| == 1 && jumpableNodes[0].node.tabstop == 0 {
      return Ok(None);
    }
    var s := new Snippet(tree, jumpableNodes, outer);
    return Ok(Some(s));
  }

  /** The mirror resolution of `create`: a fresh tree with the copy links set, and its jumpable nodes in order. */
  method Link(nodes: seq<Node>, lib: TextLib) returns (tree: Tree, jumpableNodes: seq<Item>)
    ensures fresh(tree) && tree.Valid() && tree.top == nodes && tree.lib == lib
    ensures tree.copy == Resolved(Walk(nodes)).copy && tree.input == map[] && tree.index == map[]
    ensures tree.ranges == map[] && tree.texts == map[] && tree.calls == []
    ensures jumpableNodes == JumpOrder(Canon(nodes))
    ensures forall k :: 0 <= k < |jumpableNodes| ==> Located(nodes, jumpableNodes[k])
  {
    var canon, copy := ResolveMirrors(nodes);
    assert canon == Canon(nodes);
    jumpableNodes := JumpOrder(canon);
    tree := new Tree(nodes, lib);
    tree.copy := copy;
  }

  /** The end of `create`: the layout from the cursor it found, then the jump to the first node. */
  method Start(tree: Tree, first: Path, cursor: Position, hops: nat, buf: Buffer) returns (r: Result<()>)
    requires tree.Valid()
    modifies tree, buf
    ensures tree.Valid() && tree.input == old(tree.input) && tree.copy == old(tree.copy) && tree.index == old(tree.index)
    ensures var l := LaySnippet(Env(old(tree.State()), hops, tree.lib, buf.lib), tree.top, cursor, None, old(tree.DocOf(buf)));
      && buf.lines == l.doc.lines && tree.ranges == l.doc.ranges && tree.texts == l.doc.texts
      && (r.Ok? <==> l.end.Ok? && first in l.doc.ranges)
      && (l.end.Err? ==> r == Err(l.end.error) && buf.cursor == l.doc.cursor)
      && (l.end.Ok? && first !in l.doc.ranges ==> r == Err("Internal error: Node.Jumpable.jump") && buf.cursor == l.doc.cursor)
      && (r.Ok? ==> var g := l.doc.ranges[first]; buf.cursor == (if g.start == g.end then g.start else l.doc.cursor))
  {
    var end := tree.UpdateRange(Some(cursor), None, hops, buf);
    if end.Err? {
      return Err(end.error);
    }
    var shown := tree.Jump(first, buf);
    if shown.Err? {
      return Err(shown.error);
    }
    return Ok(());
  }
}
