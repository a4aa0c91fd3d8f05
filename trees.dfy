/**
 * What both node trees (parser/node.ts and node.ts) share about their
 * structure: the children a node holds, the addressing of a node by its
 * path of child indices from the snippet, and `getPriority`, which the two
 * generations define alike.
 */
module Trees {
  import opened Options
  import opened Ast

  /** The child indices that lead from the snippet to a node; the snippet itself is []. */
  type Path = seq<nat>

  /** The error JavaScript throws when a getText recurses without end. */
  const StackOverflow := "RangeError: Maximum call stack size exceeded"

  /** A node of the tree together with the path it sits at (its identity). */
  datatype Item = Item(path: Path, node: Node)

  /** What a node's text depends on besides its kind: its `input`, its `copy` link and a choice's `index`. */
  datatype Marks = Marks(input: map<Path, string>, copy: map<Path, Item>, index: map<Path, int>)

  /** A choice's `index`, which starts at 0. */
  function IndexAt(m: Marks, p: Path): int {
    if p in m.index then m.index[p] else 0
  }

  /** The nodes a node holds in its `children` array: a placeholder's children and a variable's default. */
  function Children(n: Node): (cs: seq<Node>)
    ensures n.Placeholder? ==> cs == n.children
    ensures n.Variable? && n.body.WithDefault? ==> cs == n.body.children
    ensures !n.Placeholder? && !(n.Variable? && n.body.WithDefault?) ==> cs == []
  {
    match n
    case Placeholder(_, children) => children
    case Variable(_, _, WithDefault(children)) => children
    case _ => []
  }

  /** `is.ObjectOf({ children: is.Array })(node)`: a placeholder, or a variable written with a default. */
  predicate HasChildren(n: Node) {
    n.Placeholder? || (n.Variable? && n.body.WithDefault?)
  }

  /** The node at path below the given top-level children. */
  function NodeAt(nodes: seq<Node>, path: Path): Option<Node>
    decreases |path|
  {
    if path == [] || path[0] >= |nodes| then None
    else if |path| == 1 then Some(nodes[path[0]])
    else NodeAt(Children(nodes[path[0]]), path[1..])
  }

  /** A child of the node at a path sits at that path extended by the child's index. */
  lemma {:induction false} NodeAtChild(nodes: seq<Node>, path: Path, n: Node, j: nat)
    requires NodeAt(nodes, path) == Some(n)
    requires j < |Children(n)|
    ensures NodeAt(nodes, path + [j]) == Some(Children(n)[j])
    decreases |path|
  {
    if |path| > 1 {
      assert (path + [j])[1..] == path[1..] + [j];
      NodeAtChild(Children(nodes[path[0]]), path[1..], n, j);
    }
  }

  /** `getPriority()`, which both generations define alike. */
  function Priority(n: Node): (r: int)
    requires n.IsJumpable()
    ensures -1 <= r <= 1
    ensures r == -1 <==> n.Tabstop? && n.transform.Some?
  {
    match n
    case Tabstop(_, transform) => if transform.Some? then -1 else 0
    case Placeholder(_, children) => if |children| > 0 then 1 else 0
    case Choice(_, _) => 1
  }

  /**
   * A tabstop with a transform ranks -1 and a bare tabstop 0; a placeholder
   * ranks 1 when it has children and 0 otherwise; a choice ranks 1.
   */
  lemma PriorityRanks(n: Node)
    requires n.IsJumpable()
    ensures -1 <= Priority(n) <= 1
    ensures n.Tabstop? ==> (Priority(n) == -1 <==> n.transform.Some?) && (Priority(n) == 0 <==> n.transform.None?)
    ensures n.Placeholder? ==> (Priority(n) == 1 <==> |n.children| > 0) && (Priority(n) == 0 <==> |n.children| == 0)
    ensures n.Choice? ==> Priority(n) == 1
  {
  }

  /** q lies strictly below p in the tree. */
  predicate Below(p: Path, q: Path) {
    |p| < |q| && q[..|p|] == p
  }

  /** `items[index] ?? ""`: the item at index, and "" for an index outside the list. */
  function ChoiceText(items: seq<string>, index: int): (r: string)
    ensures 0 <= index < |items| ==> r == items[index]
    ensures !(0 <= index < |items|) ==> r == ""
  {
    if 0 <= index < |items| then items[index] else ""
  }

  /** The index `selectNext` leaves: one further, back to 0 at or past the end. */
  function NextIndex(index: int, count: nat): (r: int)
    ensures 0 <= index < count ==> 0 <= r < count && (r == 0 <==> index == count - 1)
  {
    if index + 1 >= count then 0 else index + 1
  }

  /** The index `selectPrev` leaves: one back, to the last item below 0 (which is -1 for no items). */
  function PrevIndex(index: int, count: nat): (r: int)
    ensures 0 <= index < count ==> 0 <= r < count && (r == count - 1 <==> index == 0)
  {
    if index - 1 < 0 then count - 1 else index - 1
  }

  /**
   * On a non-empty choice both moves keep the index among the items, wrap
   * around at either end, and undo each other; on a choice without items the
   * next index from 0 or -1 is 0 and the previous one from 0 is -1, so the text is "" either way.
   */
  lemma SelectCycles(index: int, count: nat)
    ensures 0 <= index < count ==> 0 <= NextIndex(index, count) < count && 0 <= PrevIndex(index, count) < count
    ensures 0 <= index < count ==> PrevIndex(NextIndex(index, count), count) == index
    ensures 0 <= index < count ==> NextIndex(PrevIndex(index, count), count) == index
    ensures count > 0 ==> NextIndex(count - 1, count) == 0 && PrevIndex(0, count) == count - 1
    ensures count == 0 ==> NextIndex(0, count) == 0 && NextIndex(-1, count) == 0 && PrevIndex(0, count) == -1
  {
  }
}
