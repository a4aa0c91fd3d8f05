/**
 * The mirror resolution that snippet.ts and session.ts both run when a
 * snippet is created: a breadth-first walk over the tree that keeps, per
 * tabstop number, one canonical node in a map and links every other
 * jumpable node of that number to a node of it through `copy`; and the
 * two orders in which the canonical nodes are then listed.
 */
module Mirrors {
  import opened Options
  import opened Ast
  import opened Trees

  // ------------------------------------------------------------ walk order

  function Size(n: Node): nat
    decreases n, 1
  {
    match n
    case Placeholder(_, children) => 1 + SizeOf(children)
    case Variable(_, _, WithDefault(children)) => 1 + SizeOf(children)
    case _ => 1
  }

  function SizeOf(nodes: seq<Node>): nat
    decreases nodes, 0
  {
    if nodes == [] then 0 else Size(nodes[0]) + SizeOf(nodes[1..])
  }

  function QueueSize(queue: seq<Item>): nat {
    if queue == [] then 0 else Size(queue[0].node) + QueueSize(queue[1..])
  }

  lemma {:induction false} QueueSizeAppend(a: seq<Item>, b: seq<Item>)
    ensures QueueSize(a + b) == QueueSize(a) + QueueSize(b)
  {
    if a != [] {
      assert (a + b)[1..] == a[1..] + b;
      QueueSizeAppend(a[1..], b);
    } else {
      assert a + b == b;
    }
  }

  /** The jumpable ones among nodes[j..], as items below path, in order: `children.filter(isJumpable)`. */
  function JumpableFrom(path: Path, nodes: seq<Node>, j: nat): (r: seq<Item>)
    requires j <= |nodes|
    ensures forall k :: 0 <= k < |r| ==> r[k].node.IsJumpable()
    decreases |nodes| - j
  {
    if j == |nodes| then []
    else (if nodes[j].IsJumpable() then [Item(path + [j], nodes[j])] else []) + JumpableFrom(path, nodes, j + 1)
  }

  lemma {:induction false} JumpableFromSmaller(path: Path, nodes: seq<Node>, j: nat)
    requires j <= |nodes|
    ensures QueueSize(JumpableFrom(path, nodes, j)) <= SizeOf(nodes[j..])
    decreases |nodes| - j
  {
    if j < |nodes| {
      JumpableFromSmaller(path, nodes, j + 1);
      var head := if nodes[j].IsJumpable() then [Item(path + [j], nodes[j])] else [];
      QueueSizeAppend(head, JumpableFrom(path, nodes, j + 1));
      assert nodes[j..][1..] == nodes[j + 1..];
    }
  }

  /** What visiting an item adds to the queue: its jumpable children, when it has a children array. */
  function Enqueued(it: Item): (r: seq<Item>)
    ensures QueueSize(r) < Size(it.node)
  {
    if HasChildren(it.node) then
      JumpableFromSmaller(it.path, Children(it.node), 0);
      assert Children(it.node)[0..] == Children(it.node);
      JumpableFrom(it.path, Children(it.node), 0)
    else []
  }

  /** The items the walk visits, in order, starting from the given queue. */
  function WalkFrom(queue: seq<Item>): seq<Item>
    decreases QueueSize(queue)
  {
    if queue == [] then []
    else
      QueueSizeAppend(queue[1..] + Enqueued(queue[0]), []);
      QueueSizeAppend(queue[1..], Enqueued(queue[0]));
      [queue[0]] + WalkFrom(queue[1..] + Enqueued(queue[0]))
  }

  /** The nodes of nodes[i..] that are not Text, at their top-level paths: `snippet.children.filter((node) => node.type !== "text")`. */
  function TopFrom(nodes: seq<Node>, i: nat): (r: seq<Item>)
    requires i <= |nodes|
    ensures forall k :: 0 <= k < |r| ==> !r[k].node.Text?
    decreases |nodes| - i
  {
    if i == |nodes| then []
    else (if nodes[i].Text? then [] else [Item([i], nodes[i])]) + TopFrom(nodes, i + 1)
  }

  /** The walk of a snippet with the given top-level children. */
  function Walk(nodes: seq<Node>): seq<Item> {
    WalkFrom(TopFrom(nodes, 0))
  }

  // ------------------------------------------------------------ resolution

  function Tab(it: Item): nat
    requires it.node.IsJumpable()
  {
    it.node.tabstop
  }

  function Prio(it: Item): int
    requires it.node.IsJumpable()
  {
    Priority(it.node)
  }

  /**
   * The outcome of the walk so far: the canonical node per tabstop
   * (`jumpableNodeMap`) and, per path, the node its `copy` points to.
   */
  datatype Links = Links(canon: map<nat, Item>, copy: map<Path, Item>)

  /**
   * One turn of the loop: a jumpable node whose tabstop is new becomes
   * canonical; one of strictly higher priority displaces the canonical
   * node, which then copies it; any other copies the canonical node.
   */
  function Step(l: Links, it: Item): Links {
    if !it.node.IsJumpable() then l
    else if Tab(it) !in l.canon then Links(l.canon[Tab(it) := it], l.copy)
    else
      var exist := l.canon[Tab(it)];
      if exist.node.IsJumpable() && Prio(it) > Prio(exist) then
        Links(l.canon[Tab(it) := it], l.copy[exist.path := it])
      else
        Links(l.canon, l.copy[it.path := exist])
  }

  /** The links after visiting items in order. */
  function Resolved(items: seq<Item>): Links {
    if items == [] then Links(map[], map[])
    else Step(Resolved(items[..|items| - 1]), items[|items| - 1])
  }

  /** Visiting the head of the queue moves it to the visited items and its jumpable children to the back of the queue. */
  lemma WalkUnfold(visited: seq<Item>, queue: seq<Item>)
    requires queue != []
    ensures visited + WalkFrom(queue) == (visited + [queue[0]]) + WalkFrom(queue[1..] + Enqueued(queue[0]))
    ensures QueueSize(queue[1..] + Enqueued(queue[0])) < QueueSize(queue)
  {
    QueueSizeAppend(queue[1..], Enqueued(queue[0]));
    var w := WalkFrom(queue[1..] + Enqueued(queue[0]));
    assert WalkFrom(queue) == [queue[0]] + w;
    assert visited + ([queue[0]] + w) == (visited + [queue[0]]) + w;
  }

  lemma ResolvedSnoc(items: seq<Item>, x: Item)
    ensures Resolved(items + [x]) == Step(Resolved(items), x)
  {
    assert (items + [x])[..|items|] == items;
  }

  /**
   * The loop of `create`: shift a node off the queue, push its jumpable
   * children when it has a children array, and record the jumpable ones.
   * It ends with the links the walk from the non-Text top-level children gives.
   */
  method ResolveMirrors(nodes: seq<Node>) returns (canon: map<nat, Item>, copy: map<Path, Item>)
    ensures Links(canon, copy) == Resolved(Walk(nodes))
  {
    var queue := TopFrom(nodes, 0);
    ghost var visited: seq<Item> := [];
    canon, copy := map[], map[];
    assert Walk(nodes) == WalkFrom(queue);
    assert visited + WalkFrom(queue) == WalkFrom(queue);
    while queue != []
      invariant visited + WalkFrom(queue) == Walk(nodes)
      invariant Links(canon, copy) == Resolved(visited)
      decreases QueueSize(queue)
    {
      var node := queue[0];
      ghost var next := Step(Links(canon, copy), node);
      WalkUnfold(visited, queue);
      ResolvedSnoc(visited, node);
      ghost var after := queue[1..] + Enqueued(node);
      visited := visited + [node];
      queue := queue[1..];
      if HasChildren(node.node) {
        queue := queue + JumpableFrom(node.path, Children(node.node), 0);
      }
      assert queue == after;
      if !node.node.IsJumpable() {
        continue;
      }
      var tabstop := node.node.tabstop;
      if tabstop !in canon {
        canon := canon[tabstop := node];
      } else {
        var existNode := canon[tabstop];
        if existNode.node.IsJumpable() && Priority(node.node) > Priority(existNode.node) {
          copy := copy[existNode.path := node];
          canon := canon[tabstop := node];
        } else {
          copy := copy[node.path := existNode];
        }
      }
      assert Links(canon, copy) == next;
    }
    assert visited + WalkFrom(queue) == visited;
  }

  // ------------------------------------------------------------ what the resolution guarantees

  /** Some item sits at path p. */
  predicate HasPath(items: seq<Item>, p: Path) {
    if items == [] then false else HasPath(items[..|items| - 1], p) || items[|items| - 1].path == p
  }

  /** No two items share a path, so an item is identified by its path. */
  predicate DistinctPaths(items: seq<Item>) {
    if items == [] then true
    else DistinctPaths(items[..|items| - 1]) && !HasPath(items[..|items| - 1], items[|items| - 1].path)
  }

  lemma {:induction false} HasPathIff(items: seq<Item>, p: Path)
    ensures HasPath(items, p) <==> exists it :: it in items && it.path == p
  {
    if items != [] {
      var init := items[..|items| - 1];
      HasPathIff(init, p);
      assert items == init + [items[|items| - 1]];
    }
  }

  lemma {:induction false} SamePathSameItem(items: seq<Item>, a: Item, b: Item)
    requires DistinctPaths(items)
    requires a in items && b in items && a.path == b.path
    ensures a == b
  {
    var init := items[..|items| - 1];
    var x := items[|items| - 1];
    assert items == init + [x];
    if a != x && b != x {
      SamePathSameItem(init, a, b);
    } else if a == x && b != x {
      HasPathIff(init, a.path);
    } else if b == x && a != x {
      HasPathIff(init, b.path);
    }
  }

  lemma SnocParts(items: seq<Item>, x: Item)
    ensures (items + [x])[..|items|] == items && (items + [x])[|items|] == x
    ensures HasPath(items + [x], x.path)
    ensures forall p :: HasPath(items + [x], p) <==> HasPath(items, p) || p == x.path
    ensures DistinctPaths(items + [x]) <==> DistinctPaths(items) && !HasPath(items, x.path)
  {
    assert (items + [x])[..|items|] == items;
  }

  /** From an item, follow copy links for at most the given number of steps. */
  function Follow(copy: map<Path, Item>, it: Item, steps: nat): Item
    decreases steps
  {
    if steps == 0 || it.path !in copy then it else Follow(copy, copy[it.path], steps - 1)
  }

  /** Linking a path that no followed chain reaches leaves every chain's end alone. */
  lemma {:induction false} FollowFrame(copy: map<Path, Item>, it: Item, steps: nat, key: Path, v: Item)
    requires key !in copy
    requires Follow(copy, it, steps).path != key
    ensures Follow(copy[key := v], it, steps) == Follow(copy, it, steps)
    decreases steps
  {
    if steps > 0 && it.path in copy {
      FollowFrame(copy, copy[it.path], steps - 1, key, v);
    }
  }

  /** Linking the end of a chain to a fresh item extends the chain by one step. */
  lemma {:induction false} FollowExtend(copy: map<Path, Item>, it: Item, steps: nat, e: Item, n: Item)
    requires Follow(copy, it, steps) == e
    requires e.path !in copy && n.path !in copy && n.path != e.path
    ensures Follow(copy[e.path := n], it, steps + 1) == n
    decreases steps
  {
    if it.path != e.path {
      FollowExtend(copy, copy[it.path], steps - 1, e, n);
    }
  }

  /** Once a chain ends at an item without a copy, further steps stay there. */
  lemma {:induction false} FollowStays(copy: map<Path, Item>, it: Item, steps: nat, more: nat)
    requires Follow(copy, it, steps).path !in copy
    ensures Follow(copy, it, steps + more) == Follow(copy, it, steps)
    decreases steps
  {
    if steps > 0 && it.path in copy {
      FollowStays(copy, copy[it.path], steps - 1, more);
    }
  }

  // The properties of the links after a visit, each kept by Step.

  /** Every canonical node is a visited jumpable node of its own tabstop. */
  ghost predicate MembersOk(items: seq<Item>, l: Links) {
    forall t :: t in l.canon ==> l.canon[t] in items && l.canon[t].node.IsJumpable() && Tab(l.canon[t]) == t
  }

  /** A jumpable node has a canonical node of its tabstop, of no lower priority. */
  ghost predicate Outranked(l: Links, it: Item) {
    it.node.IsJumpable() ==>
      Tab(it) in l.canon && l.canon[Tab(it)].node.IsJumpable() && Prio(it) <= Prio(l.canon[Tab(it)])
  }

  ghost predicate OutranksOk(items: seq<Item>, l: Links) {
    forall it :: it in items ==> Outranked(l, it)
  }

  /** When b is canonical, a node a of its tabstop has a strictly lower priority than b. */
  ghost predicate LowerThanCanon(l: Links, a: Item, b: Item) {
    (a.node.IsJumpable() && b.node.IsJumpable() && Tab(a) == Tab(b) && Tab(b) in l.canon && l.canon[Tab(b)] == b)
      ==> Prio(a) < Prio(b)
  }

  /** Every node of a tabstop visited before its canonical node has strictly lower priority. */
  ghost predicate FirstOk(items: seq<Item>, l: Links) {
    forall j, k :: 0 <= j < k < |items| ==> LowerThanCanon(l, items[j], items[k])
  }

  /** Copy links go from visited paths to visited jumpable nodes. */
  ghost predicate CopyMembersOk(items: seq<Item>, l: Links) {
    forall p :: p in l.copy ==> HasPath(items, p) && l.copy[p] in items && l.copy[p].node.IsJumpable()
  }

  /** A canonical node has no copy link. */
  ghost predicate CanonUnlinked(l: Links) {
    forall t :: t in l.canon ==> l.canon[t].path !in l.copy
  }

  /** A jumpable node has a copy link exactly when it is not canonical. */
  ghost predicate Linked(l: Links, it: Item) {
    it.node.IsJumpable() ==> Tab(it) in l.canon && (it != l.canon[Tab(it)] <==> it.path in l.copy)
  }

  ghost predicate LinkedOk(items: seq<Item>, l: Links) {
    forall it :: it in items ==> Linked(l, it)
  }

  /** A jumpable node's copy link goes to a node of the same tabstop and of no lower priority. */
  ghost predicate Targeted(l: Links, it: Item) {
    it.node.IsJumpable() && it.path in l.copy ==>
      l.copy[it.path].node.IsJumpable() && Tab(l.copy[it.path]) == Tab(it) && Prio(l.copy[it.path]) >= Prio(it)
  }

  ghost predicate TargetsOk(items: seq<Item>, l: Links) {
    forall it :: it in items ==> Targeted(l, it)
  }

  /** Following copy links from a node reaches its canonical node within the priority gap plus one steps. */
  ghost predicate Reaches(l: Links, it: Item) {
    it.node.IsJumpable() && Tab(it) in l.canon && l.canon[Tab(it)].node.IsJumpable()
      && Prio(it) <= Prio(l.canon[Tab(it)]) ==>
      Follow(l.copy, it, Prio(l.canon[Tab(it)]) - Prio(it) + 1) == l.canon[Tab(it)]
  }

  ghost predicate ReachOk(items: seq<Item>, l: Links) {
    forall it :: it in items ==> Reaches(l, it)
  }

  lemma StepMembers(items: seq<Item>, l: Links, x: Item)
    requires MembersOk(items, l)
    ensures MembersOk(items + [x], Step(l, x))
  {
  }

  lemma StepOutranks(items: seq<Item>, l: Links, x: Item)
    requires MembersOk(items, l) && OutranksOk(items, l)
    ensures OutranksOk(items + [x], Step(l, x))
  {
    var l' := Step(l, x);
    forall it | it in items + [x] ensures Outranked(l', it) {
      if it != x {
        assert it in items;
      }
    }
  }

  lemma StepFirst(items: seq<Item>, l: Links, x: Item)
    requires DistinctPaths(items + [x])
    requires MembersOk(items, l) && OutranksOk(items, l) && FirstOk(items, l)
    ensures FirstOk(items + [x], Step(l, x))
  {
    var items' := items + [x];
    var l' := Step(l, x);
    SnocParts(items, x);
    HasPathIff(items, x.path);
    assert x !in items;
    forall j, k | 0 <= j < k < |items'| ensures LowerThanCanon(l', items'[j], items'[k]) {
      assert items'[j] == items[j] && items[j] in items;
      if k < |items| {
        assert items'[k] == items[k] && items[k] in items;
        assert LowerThanCanon(l, items[j], items[k]);
      }
    }
  }

  lemma StepCopyMembers(items: seq<Item>, l: Links, x: Item)
    requires MembersOk(items, l) && CopyMembersOk(items, l)
    ensures CopyMembersOk(items + [x], Step(l, x))
  {
    SnocParts(items, x);
    HasPathIff(items, x.path);
    if x.node.IsJumpable() && Tab(x) in l.canon {
      HasPathIff(items, l.canon[Tab(x)].path);
    }
  }

  lemma StepUnlinked(items: seq<Item>, l: Links, x: Item)
    requires DistinctPaths(items + [x])
    requires MembersOk(items, l) && CopyMembersOk(items, l) && CanonUnlinked(l)
    ensures CanonUnlinked(Step(l, x))
  {
    SnocParts(items, x);
    HasPathIff(items, x.path);
    var l' := Step(l, x);
    if x.node.IsJumpable() && Tab(x) in l.canon {
      var e := l.canon[Tab(x)];
      HasPathIff(items, e.path);
      if Prio(x) > Prio(e) {
        assert l' == Links(l.canon[Tab(x) := x], l.copy[e.path := x]);
        forall t | t in l'.canon ensures l'.canon[t].path !in l'.copy {
          if t != Tab(x) {
            var c := l.canon[t];
            assert c.path != e.path by {
              if c.path == e.path {
                SamePathSameItem(items, c, e);
              }
            }
          }
        }
      } else {
        assert l' == Links(l.canon, l.copy[x.path := e]);
        forall t | t in l'.canon ensures l'.canon[t].path !in l'.copy {
          var c := l.canon[t];
          HasPathIff(items, c.path);
        }
      }
    }
  }

  lemma StepLinked(items: seq<Item>, l: Links, x: Item)
    requires DistinctPaths(items + [x])
    requires MembersOk(items, l) && CopyMembersOk(items, l) && CanonUnlinked(l) && LinkedOk(items, l)
    ensures LinkedOk(items + [x], Step(l, x))
  {
    FreshFacts(items, l, x);
    var l' := Step(l, x);
    forall it | it in items + [x] ensures Linked(l', it) {
      if it != x {
        assert it in items && Linked(l, it);
        if x.node.IsJumpable() && Tab(x) in l.canon {
          var e := l.canon[Tab(x)];
          if it.path == e.path {
            SamePathSameItem(items, it, e);
          }
        }
      }
    }
  }

  lemma StepTargets(items: seq<Item>, l: Links, x: Item)
    requires DistinctPaths(items + [x])
    requires MembersOk(items, l) && OutranksOk(items, l) && CopyMembersOk(items, l) && TargetsOk(items, l)
    ensures TargetsOk(items + [x], Step(l, x))
  {
    FreshFacts(items, l, x);
    var l' := Step(l, x);
    forall it | it in items + [x] ensures Targeted(l', it) {
      if it != x {
        assert it in items && Targeted(l, it) && Outranked(l, it);
        if x.node.IsJumpable() && Tab(x) in l.canon {
          var e := l.canon[Tab(x)];
          if it.path == e.path {
            SamePathSameItem(items, it, e);
          }
        }
      } else if x.node.IsJumpable() && Tab(x) in l.canon {
        assert Tab(l.canon[Tab(x)]) == Tab(x);
      }
    }
  }

  /** ReachOk after a node that becomes canonical for a new tabstop. */
  lemma ReachFresh(items: seq<Item>, l: Links, x: Item)
    requires x.node.IsJumpable() && Tab(x) !in l.canon && x.path !in l.copy
    requires OutranksOk(items, l) && ReachOk(items, l)
    ensures ReachOk(items + [x], Links(l.canon[Tab(x) := x], l.copy))
  {
    var l' := Links(l.canon[Tab(x) := x], l.copy);
    forall it | it in items + [x] ensures Reaches(l', it)
    {
      if it != x && it.node.IsJumpable() {
        assert it in items && Tab(it) != Tab(x);
      }
    }
  }

  /** Linking the end e of a chain to a fresh item x makes the chain end at x, however many more steps it is given. */
  lemma FollowRelinked(copy: map<Path, Item>, it: Item, steps: nat, e: Item, x: Item, more: nat)
    requires Follow(copy, it, steps) == e
    requires e.path !in copy && x.path !in copy && x.path != e.path
    ensures Follow(copy[e.path := x], it, steps + 1 + more) == x
  {
    FollowExtend(copy, it, steps, e, x);
    FollowStays(copy[e.path := x], it, steps + 1, more);
  }

  /**
   * One node's chain after x displaces e: it ends at x when the node has
   * x's tabstop (sameTab) and at its old end c otherwise.
   */
  lemma DisplaceOne(copy: map<Path, Item>, it: Item, c: Item, e: Item, x: Item, sameTab: bool)
    requires it.node.IsJumpable() && c.node.IsJumpable() && e.node.IsJumpable() && x.node.IsJumpable()
    requires Prio(it) <= Prio(c) && Follow(copy, it, Prio(c) - Prio(it) + 1) == c
    requires e.path !in copy && x.path !in copy && x.path != e.path
    requires sameTab ==> c == e && Prio(x) > Prio(e)
    requires !sameTab ==> c.path != e.path
    ensures sameTab ==> Follow(copy[e.path := x], it, Prio(x) - Prio(it) + 1) == x
    ensures !sameTab ==> Follow(copy[e.path := x], it, Prio(c) - Prio(it) + 1) == c
  {
    if sameTab {
      FollowRelinked(copy, it, Prio(c) - Prio(it) + 1, e, x, Prio(x) - Prio(e) - 1);
    } else {
      FollowFrame(copy, it, Prio(c) - Prio(it) + 1, e.path, x);
    }
  }

  /** ReachOk after a node that displaces the canonical node e of its tabstop. */
  lemma ReachDisplace(items: seq<Item>, l: Links, x: Item, e: Item)
    requires x.node.IsJumpable() && Tab(x) in l.canon && e == l.canon[Tab(x)]
    requires e.node.IsJumpable() && Prio(x) > Prio(e)
    requires x.path !in l.copy && e.path !in l.copy && x.path != e.path
    requires forall t :: t in l.canon && t != Tab(x) ==> l.canon[t].path != e.path
    requires OutranksOk(items, l) && ReachOk(items, l)
    ensures ReachOk(items + [x], Links(l.canon[Tab(x) := x], l.copy[e.path := x]))
  {
    var l' := Links(l.canon[Tab(x) := x], l.copy[e.path := x]);
    forall it | it in items + [x] ensures Reaches(l', it)
    {
      if it != x && it.node.IsJumpable() {
        assert it in items;
        DisplaceOne(l.copy, it, l.canon[Tab(it)], e, x, Tab(it) == Tab(x));
      }
    }
  }

  /** ReachOk after a node that copies the canonical node e of its tabstop. */
  lemma ReachMirror(items: seq<Item>, l: Links, x: Item, e: Item)
    requires x.node.IsJumpable() && Tab(x) in l.canon && e == l.canon[Tab(x)]
    requires e.node.IsJumpable() && Prio(x) <= Prio(e)
    requires x.path !in l.copy && e.path !in l.copy && x.path != e.path
    requires forall t :: t in l.canon ==> l.canon[t].path != x.path
    requires OutranksOk(items, l) && ReachOk(items, l)
    ensures ReachOk(items + [x], Links(l.canon, l.copy[x.path := e]))
  {
    var l' := Links(l.canon, l.copy[x.path := e]);
    forall it | it in items + [x] ensures Reaches(l', it)
    {
      if it != x && it.node.IsJumpable() {
        assert it in items;
        var c := l.canon[Tab(it)];
        FollowFrame(l.copy, it, Prio(c) - Prio(it) + 1, x.path, e);
      } else if it == x {
        assert Follow(l'.copy, x, Prio(e) - Prio(x) + 1) == Follow(l'.copy, e, Prio(e) - Prio(x));
      }
    }
  }

  /** ReachOk after a node that is not jumpable. */
  lemma ReachSkip(items: seq<Item>, l: Links, x: Item)
    requires !x.node.IsJumpable() && ReachOk(items, l)
    ensures ReachOk(items + [x], l)
  {
    forall it | it in items + [x] ensures Reaches(l, it)
    {
      if it != x {
        assert it in items;
      }
    }
  }

  /** What distinct paths tell about a node about to be visited and the canonical nodes so far. */
  lemma FreshFacts(items: seq<Item>, l: Links, x: Item)
    requires DistinctPaths(items + [x])
    requires MembersOk(items, l) && CopyMembersOk(items, l)
    ensures x.path !in l.copy
    ensures forall it :: it in items ==> it.path != x.path
    ensures forall t :: t in l.canon ==> l.canon[t].path != x.path
    ensures forall t, u :: t in l.canon && u in l.canon && t != u ==> l.canon[t].path != l.canon[u].path
  {
    SnocParts(items, x);
    HasPathIff(items, x.path);
    forall t | t in l.canon ensures l.canon[t].path != x.path {
      HasPathIff(items, l.canon[t].path);
    }
    forall t, u | t in l.canon && u in l.canon && t != u ensures l.canon[t].path != l.canon[u].path {
      if l.canon[t].path == l.canon[u].path {
        SamePathSameItem(items, l.canon[t], l.canon[u]);
      }
    }
  }

  lemma StepReach(items: seq<Item>, l: Links, x: Item)
    requires DistinctPaths(items + [x])
    requires MembersOk(items, l) && OutranksOk(items, l) && CopyMembersOk(items, l) && CanonUnlinked(l)
    requires ReachOk(items, l)
    ensures ReachOk(items + [x], Step(l, x))
  {
    FreshFacts(items, l, x);
    if !x.node.IsJumpable() {
      assert Step(l, x) == l;
      ReachSkip(items, l, x);
    } else if Tab(x) !in l.canon {
      assert Step(l, x) == Links(l.canon[Tab(x) := x], l.copy);
      ReachFresh(items, l, x);
    } else {
      var e := l.canon[Tab(x)];
      if Prio(x) > Prio(e) {
        assert Step(l, x) == Links(l.canon[Tab(x) := x], l.copy[e.path := x]);
        ReachDisplace(items, l, x, e);
      } else {
        assert Step(l, x) == Links(l.canon, l.copy[x.path := e]);
        ReachMirror(items, l, x, e);
      }
    }
  }

  /** Every property above holds of the links the loop builds from distinct items. */
  lemma {:induction false} ResolvedOk(items: seq<Item>)
    requires DistinctPaths(items)
    ensures MembersOk(items, Resolved(items)) && OutranksOk(items, Resolved(items)) && FirstOk(items, Resolved(items))
    ensures CopyMembersOk(items, Resolved(items)) && CanonUnlinked(Resolved(items))
    ensures LinkedOk(items, Resolved(items)) && TargetsOk(items, Resolved(items)) && ReachOk(items, Resolved(items))
  {
    if items != [] {
      var init := items[..|items| - 1];
      var x := items[|items| - 1];
      assert items == init + [x];
      SnocParts(init, x);
      ResolvedOk(init);
      var l := Resolved(init);
      StepMembers(init, l, x);
      StepOutranks(init, l, x);
      StepFirst(init, l, x);
      StepCopyMembers(init, l, x);
      StepUnlinked(init, l, x);
      StepLinked(init, l, x);
      StepTargets(init, l, x);
      StepReach(init, l, x);
    }
  }

  // ------------------------------------------------------------ what the walk visits

  /** No two items share a path. */
  ghost predicate UniquePaths(items: seq<Item>) {
    forall a, b :: 0 <= a < b < |items| ==> items[a].path != items[b].path
  }

  lemma {:induction false} UniqueIsDistinct(items: seq<Item>)
    requires UniquePaths(items)
    ensures DistinctPaths(items)
  {
    if items != [] {
      var init := items[..|items| - 1];
      var x := items[|items| - 1];
      assert UniquePaths(init) by {
        forall a, b | 0 <= a < b < |init| ensures init[a].path != init[b].path {
          assert init[a] == items[a] && init[b] == items[b];
        }
      }
      UniqueIsDistinct(init);
      forall it | it in init ensures it.path != x.path {
        var a :| 0 <= a < |init| && init[a] == it;
        assert items[a] == it;
      }
      HasPathIff(init, x.path);
    }
  }

  /** The path of the node that holds the node at path p. */
  function Parent(p: Path): Path
    requires p != []
  {
    p[..|p| - 1]
  }

  /** An item sits at its path in the tree, and its parent, if any, was visited. */
  ghost predicate Placed(nodes: seq<Node>, visited: seq<Item>, it: Item) {
    it.path != [] && NodeAt(nodes, it.path) == Some(it.node)
      && (|it.path| >= 2 ==> HasPath(visited, Parent(it.path)))
  }

  /** What holds of the visited items and the queue at each turn of the walk. */
  ghost predicate WalkInv(nodes: seq<Node>, visited: seq<Item>, queue: seq<Item>) {
    UniquePaths(visited + queue)
      && forall k :: 0 <= k < |visited + queue| ==> Placed(nodes, visited, (visited + queue)[k])
  }

  /** it is a child of the node at path, at child index j or later, and sits at its path in the tree. */
  ghost predicate ChildAt(nodes: seq<Node>, path: Path, j: nat, it: Item) {
    it.path != [] && Parent(it.path) == path && |it.path| == |path| + 1
      && NodeAt(nodes, it.path) == Some(it.node) && j <= it.path[|path|]
  }

  /** The items JumpableFrom gives for a node's children sit one level below it, in the tree. */
  lemma {:induction false} JumpableFromChildren(nodes: seq<Node>, path: Path, n: Node, j: nat)
    requires NodeAt(nodes, path) == Some(n) && j <= |Children(n)|
    ensures forall it :: it in JumpableFrom(path, Children(n), j) ==> ChildAt(nodes, path, j, it)
    decreases |Children(n)| - j
  {
    var cs := Children(n);
    if j < |cs| {
      JumpableFromChildren(nodes, path, n, j + 1);
      var rest := JumpableFrom(path, cs, j + 1);
      var head := if cs[j].IsJumpable() then [Item(path + [j], cs[j])] else [];
      assert JumpableFrom(path, cs, j) == head + rest;
      NodeAtChild(nodes, path, n, j);
      assert (path + [j])[..|path|] == path && (path + [j])[|path|] == j;
    }
  }

  /** The items JumpableFrom gives have unique paths. */
  lemma {:induction false} JumpableFromUnique(nodes: seq<Node>, path: Path, n: Node, j: nat)
    requires NodeAt(nodes, path) == Some(n) && j <= |Children(n)|
    ensures UniquePaths(JumpableFrom(path, Children(n), j))
    decreases |Children(n)| - j
  {
    var cs := Children(n);
    if j < |cs| {
      JumpableFromUnique(nodes, path, n, j + 1);
      JumpableFromChildren(nodes, path, n, j + 1);
      var rest := JumpableFrom(path, cs, j + 1);
      var head := if cs[j].IsJumpable() then [Item(path + [j], cs[j])] else [];
      var r := JumpableFrom(path, cs, j);
      assert r == head + rest;
      assert (path + [j])[|path|] == j;
      forall a, b | 0 <= a < b < |r| ensures r[a].path != r[b].path {
        if |head| == 1 && a == 0 {
          assert r[b] == rest[b - 1] && r[b] in rest;
          assert r[a].path[|path|] == j < r[b].path[|path|];
        } else {
          assert r[a] == rest[a - |head|] && r[b] == rest[b - |head|];
        }
      }
    }
  }

  /** The top-level items sit at one-element paths, in the tree, with unique paths. */
  lemma {:induction false} TopFromPlaced(nodes: seq<Node>, i: nat)
    requires i <= |nodes|
    ensures forall it :: it in TopFrom(nodes, i) ==> |it.path| == 1 && i <= it.path[0] && Placed(nodes, [], it)
    ensures UniquePaths(TopFrom(nodes, i))
    decreases |nodes| - i
  {
    if i < |nodes| {
      TopFromPlaced(nodes, i + 1);
      var rest := TopFrom(nodes, i + 1);
      var head := if nodes[i].Text? then [] else [Item([i], nodes[i])];
      var r := TopFrom(nodes, i);
      assert r == head + rest;
      forall a, b | 0 <= a < b < |r| ensures r[a].path != r[b].path {
        if |head| == 1 && a == 0 {
          assert r[b] == rest[b - 1] && r[b] in rest;
        } else {
          assert r[a] == rest[a - |head|] && r[b] == rest[b - |head|];
        }
      }
    }
  }

  lemma WalkInvInit(nodes: seq<Node>)
    ensures WalkInv(nodes, [], TopFrom(nodes, 0))
  {
    var r := TopFrom(nodes, 0);
    TopFromPlaced(nodes, 0);
    assert [] + r == r;
    forall k | 0 <= k < |r| ensures Placed(nodes, [], r[k]) {
      assert r[k] in r;
    }
  }

  /** The children a visited node enqueues sit one level below it, in the tree, with unique paths. */
  lemma EnqueuedPlaced(nodes: seq<Node>, visited: seq<Item>, q: Item)
    requires Placed(nodes, visited, q)
    ensures forall it :: it in Enqueued(q) ==> ChildAt(nodes, q.path, 0, it) && Placed(nodes, visited + [q], it)
    ensures UniquePaths(Enqueued(q))
  {
    SnocParts(visited, q);
    if HasChildren(q.node) {
      JumpableFromChildren(nodes, q.path, q.node, 0);
      JumpableFromUnique(nodes, q.path, q.node, 0);
    }
  }

  /** A path the visited items hold no other copy of is not among them. */
  lemma NotVisitedBefore(nodes: seq<Node>, visited: seq<Item>, queue: seq<Item>)
    requires queue != [] && WalkInv(nodes, visited, queue)
    ensures !HasPath(visited, queue[0].path)
  {
    var v := visited + queue;
    assert v[|visited|] == queue[0];
    forall it | it in visited ensures it.path != queue[0].path {
      var a :| 0 <= a < |visited| && visited[a] == it;
      assert v[a] == it;
    }
    HasPathIff(visited, queue[0].path);
  }

  /** One turn of the walk keeps every item placed. */
  lemma WalkStepPlaced(nodes: seq<Node>, visited: seq<Item>, queue: seq<Item>)
    requires queue != [] && WalkInv(nodes, visited, queue)
    ensures var all := (visited + [queue[0]]) + (queue[1..] + Enqueued(queue[0]));
      forall k :: 0 <= k < |all| ==> Placed(nodes, visited + [queue[0]], all[k])
  {
    var q := queue[0];
    var v := visited + queue;
    var e := Enqueued(q);
    var all := (visited + [q]) + (queue[1..] + e);
    assert all == v + e;
    assert v[|visited|] == q;
    EnqueuedPlaced(nodes, visited, q);
    SnocParts(visited, q);
    forall k | 0 <= k < |all| ensures Placed(nodes, visited + [q], all[k]) {
      if k < |v| {
        assert all[k] == v[k] && Placed(nodes, visited, v[k]);
      } else {
        assert all[k] == e[k - |v|] && all[k] in e;
      }
    }
  }

  /** One turn of the walk keeps paths unique. */
  lemma WalkStepUnique(nodes: seq<Node>, visited: seq<Item>, queue: seq<Item>)
    requires queue != [] && WalkInv(nodes, visited, queue)
    ensures UniquePaths((visited + [queue[0]]) + (queue[1..] + Enqueued(queue[0])))
  {
    var q := queue[0];
    var v := visited + queue;
    var e := Enqueued(q);
    var all := (visited + [q]) + (queue[1..] + e);
    assert all == v + e;
    assert v[|visited|] == q && Placed(nodes, visited, q);
    EnqueuedPlaced(nodes, visited, q);
    NotVisitedBefore(nodes, visited, queue);
    forall a, b | 0 <= a < b < |all| ensures all[a].path != all[b].path {
      if b < |v| {
        assert all[a] == v[a] && all[b] == v[b];
      } else if a < |v| {
        assert all[a] == v[a] && Placed(nodes, visited, v[a]);
        assert all[b] == e[b - |v|] && all[b] in e && ChildAt(nodes, q.path, 0, all[b]);
      } else {
        assert all[a] == e[a - |v|] && all[b] == e[b - |v|];
      }
    }
  }

  /** One turn of the walk keeps the invariant. */
  lemma WalkInvStep(nodes: seq<Node>, visited: seq<Item>, queue: seq<Item>)
    requires queue != [] && WalkInv(nodes, visited, queue)
    ensures WalkInv(nodes, visited + [queue[0]], queue[1..] + Enqueued(queue[0]))
  {
    WalkStepPlaced(nodes, visited, queue);
    WalkStepUnique(nodes, visited, queue);
  }

  /** From a state that satisfies the invariant, the rest of the walk keeps paths unique and items in place. */
  lemma {:induction false} WalkFromPlaced(nodes: seq<Node>, visited: seq<Item>, queue: seq<Item>)
    requires WalkInv(nodes, visited, queue)
    ensures UniquePaths(visited + WalkFrom(queue))
    ensures forall k :: 0 <= k < |visited + WalkFrom(queue)| ==>
      NodeAt(nodes, (visited + WalkFrom(queue))[k].path) == Some((visited + WalkFrom(queue))[k].node)
    decreases QueueSize(queue)
  {
    if queue == [] {
      assert visited + WalkFrom(queue) == visited + queue;
      forall k | 0 <= k < |visited + queue| ensures NodeAt(nodes, (visited + queue)[k].path) == Some((visited + queue)[k].node) {
        assert Placed(nodes, visited, (visited + queue)[k]);
      }
    } else {
      WalkUnfold(visited, queue);
      WalkInvStep(nodes, visited, queue);
      WalkFromPlaced(nodes, visited + [queue[0]], queue[1..] + Enqueued(queue[0]));
    }
  }

  /** The walk visits each path at most once, and each item it visits is the node at its path. */
  lemma WalkPlaced(nodes: seq<Node>)
    ensures DistinctPaths(Walk(nodes))
    ensures forall it :: it in Walk(nodes) ==> NodeAt(nodes, it.path) == Some(it.node)
  {
    WalkInvInit(nodes);
    WalkFromPlaced(nodes, [], TopFrom(nodes, 0));
    assert [] + Walk(nodes) == Walk(nodes);
    UniqueIsDistinct(Walk(nodes));
  }

  /**
   * What the walk of `create` establishes: each item is the node at its path;
   * each canonical node is a visited jumpable node of its tabstop; each visited
   * jumpable node has a canonical node of no lower priority, and the nodes of a
   * tabstop visited before its canonical node rank strictly lower (the first of
   * the highest priority wins); a jumpable node has a copy exactly when it is not
   * canonical, and that copy is a node of its tabstop of no lower priority; and
   * following copy links from any jumpable node reaches its canonical node in at
   * most three steps.
   */
  lemma ResolutionMeaning(nodes: seq<Node>)
    ensures var items := Walk(nodes); var l := Resolved(items);
      (forall it :: it in items ==> NodeAt(nodes, it.path) == Some(it.node))
      && MembersOk(items, l) && OutranksOk(items, l) && FirstOk(items, l)
      && LinkedOk(items, l) && TargetsOk(items, l)
      && (forall it :: it in items && it.node.IsJumpable() ==> Follow(l.copy, it, 3) == l.canon[Tab(it)])
  {
    WalkPlaced(nodes);
    ResolvedOk(Walk(nodes));
    WithinThree(Walk(nodes), Resolved(Walk(nodes)));
  }

  /** A jumpable node of the tree, found at its path. */
  predicate Located(nodes: seq<Node>, it: Item) {
    it.node.IsJumpable() && NodeAt(nodes, it.path) == Some(it.node)
  }

  /** Every entry of a tabstop map is a jumpable node of that tabstop. */
  predicate Filed(canon: map<nat, Item>) {
    forall t :: t in canon ==> canon[t].node.IsJumpable() && Tab(canon[t]) == t
  }

  /** `jumpableNodeMap` once the walk is over: each canonical node is a jumpable node of the tree, filed under its own tabstop. */
  function Canon(nodes: seq<Node>): (canon: map<nat, Item>)
    ensures forall t :: t in canon ==> Located(nodes, canon[t]) && Tab(canon[t]) == t
  {
    ResolutionMeaning(nodes);
    Resolved(Walk(nodes)).canon
  }

  /** With priorities between -1 and 1, the chain bound of ReachOk is at most three. */
  lemma WithinThree(items: seq<Item>, l: Links)
    requires OutranksOk(items, l) && ReachOk(items, l) && CanonUnlinked(l)
    ensures forall it :: it in items && it.node.IsJumpable() ==> Follow(l.copy, it, 3) == l.canon[Tab(it)]
  {
    forall it | it in items && it.node.IsJumpable() ensures Follow(l.copy, it, 3) == l.canon[Tab(it)] {
      assert Outranked(l, it) && Reaches(l, it);
      var c := l.canon[Tab(it)];
      PriorityRanks(it.node);
      PriorityRanks(c.node);
      FollowStays(l.copy, it, Prio(c) - Prio(it) + 1, 3 - (Prio(c) - Prio(it) + 1));
    }
  }

  // ------------------------------------------------------------ the order of the jumpable nodes

  predicate IsLeast(keys: set<nat>, m: nat) {
    m in keys && forall k :: k in keys ==> m <= k
  }

  /** The least element of a non-empty set of tabstops. */
  function Least(keys: set<nat>): (m: nat)
    requires keys != {}
    ensures m in keys && forall k :: k in keys ==> m <= k
  {
    LeastExists(keys);
    var m :| IsLeast(keys, m);
    m
  }

  lemma LeastExists(keys: set<nat>)
    requires keys != {}
    ensures exists m :: IsLeast(keys, m)
    decreases |keys|
  {
    var x :| x in keys;
    if keys == {x} {
      assert IsLeast(keys, x);
    } else {
      var rest := keys - {x};
      LeastExists(rest);
      var m :| IsLeast(rest, m);
      var least := if x < m then x else m;
      forall k | k in keys ensures least <= k {
        if k != x {
          assert k in rest;
        }
      }
      assert IsLeast(keys, least);
    }
  }

  /** `(a, b) => a[0] - b[0]`, the comparator session.ts sorts the tabstops with. */
  function AscendingCompare(a: nat, b: nat): int {
    a - b
  }

  /** `.sort((a, b) => a[0] - b[0])` on the distinct tabstops of the map: every key once, each before any larger one. */
  function Ascending(keys: set<nat>): (r: seq<nat>)
    ensures forall k :: k in r <==> k in keys
    ensures forall a, b :: 0 <= a < b < |r| ==> AscendingCompare(r[a], r[b]) < 0
    decreases |keys|
  {
    if keys == {} then []
    else
      var m := Least(keys);
      var rest := Ascending(keys - {m});
      var r := [m] + rest;
      forall a | 0 <= a < |rest| ensures m < rest[a] {
        assert rest[a] in rest;
      }
      forall k ensures k in r <==> k in keys {
        assert k in r <==> k == m || k in rest;
      }
      r
  }

  /** The comparator snippet.ts sorts the tabstops with: 0 after everything, the rest ascending. */
  function ZeroLastCompare(a: nat, b: nat): int {
    if a == 0 then 1 else if b == 0 then -1 else a - b
  }

  /** The order snippet.ts lists the tabstops in: every key once, sorted by ZeroLastCompare. */
  function ZeroLast(keys: set<nat>): (r: seq<nat>)
    ensures forall k :: k in r <==> k in keys
    ensures forall a, b :: 0 <= a < b < |r| ==> ZeroLastCompare(r[a], r[b]) < 0
  {
    var rest := Ascending(keys - {0});
    var r := rest + (if 0 in keys then [0] else []);
    forall a | 0 <= a < |rest| ensures r[a] == rest[a] && r[a] != 0 {
      assert rest[a] in rest;
    }
    forall k ensures k in r <==> k in keys {
      assert k in r <==> k in rest || (0 in keys && k == 0);
    }
    r
  }

  /** Tabstop 0 comes last in the order of snippet.ts. */
  lemma ZeroLastIsLast(keys: set<nat>)
    requires 0 in keys
    ensures var r := ZeroLast(keys); |r| > 0 && r[|r| - 1] == 0
  {
    var r := ZeroLast(keys);
    assert 0 in r;
  }

  /** The canonical nodes in the given tabstop order: `.map((entry) => entry[1])`. */
  function InOrder(canon: map<nat, Item>, order: seq<nat>): (r: seq<Item>)
    requires forall k :: k in order ==> k in canon
    ensures |r| == |order| && forall i :: 0 <= i < |order| ==> r[i] == canon[order[i]]
  {
    seq(|order|, i requires 0 <= i < |order| => canon[order[i]])
  }
}
