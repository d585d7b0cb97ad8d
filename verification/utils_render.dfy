/**
 * The Graphviz drawings of the `utils` truth tree: `visualize_tree`
 * (utils/visualizer.py) and `print_truth_tree_graphviz`
 * (utils/truth_tree.py). Both walk the tree in pre-order, add one graph
 * node per tree node and one edge from each node to each of its children.
 *
 * The graph is the list of `node` and `edge` calls made on it, in order.
 * A node's identifier stands for the Python object identity `id(node)`: it
 * is the number of nodes added before it, which is distinct for every node
 * of the walk just as object identities are.
 */
module UtilsRender {
  import opened Results
  import opened Logic
  import opened UtilsTree

  datatype DotNode = DotNode(id: nat, text: string)
  datatype DotEdge = DotEdge(tail: nat, head: nat)

  /** `graphviz.Digraph`, as far as the walk uses it: the nodes and edges added so far. */
  class Digraph {
    var nodes: seq<DotNode>
    var edges: seq<DotEdge>

    constructor()
      ensures nodes == [] && edges == []
    {
      nodes := [];
      edges := [];
    }

    method Node(id: nat, text: string)
      modifies this
      ensures nodes == old(nodes) + [DotNode(id, text)] && edges == old(edges)
    {
      nodes := nodes + [DotNode(id, text)];
    }

    method Edge(tail: nat, head: nat)
      modifies this
      ensures edges == old(edges) + [DotEdge(tail, head)] && nodes == old(nodes)
    {
      edges := edges + [DotEdge(tail, head)];
    }
  }

  /** A node's label: its formula, followed by ` [x]` when closed nodes are to be marked and it is closed. */
  function Label(t: UNode, marked: bool): string {
    FormulaToStr(t.formula) + (if marked && t.closed then " [x]" else "")
  }

  /** The nodes of `t` in pre-order: a node, then each child's subtree in turn. */
  function Preorder(t: UNode): seq<UNode>
    decreases t, |t.children| + 1
  {
    [t] + PreorderUpTo(t, |t.children|)
  }

  /** The subtrees of the first `k` children of `t`, in pre-order. */
  function PreorderUpTo(t: UNode, k: nat): seq<UNode>
    requires k <= |t.children|
    decreases t, k
  {
    if k == 0 then [] else PreorderUpTo(t, k - 1) + Preorder(t.children[k - 1])
  }

  /** Where the walk numbers child `k` of a node numbered `base`. */
  function ChildBase(t: UNode, k: nat, base: nat): nat
    requires k <= |t.children|
  {
    base + 1 + |PreorderUpTo(t, k)|
  }

  /** The graph nodes the walk adds for `t`, numbering from `base`. */
  function Nodes(t: UNode, base: nat, marked: bool): seq<DotNode>
    decreases t, |t.children| + 1
  {
    [DotNode(base, Label(t, marked))] + NodesUpTo(t, |t.children|, base, marked)
  }

  function NodesUpTo(t: UNode, k: nat, base: nat, marked: bool): seq<DotNode>
    requires k <= |t.children|
    decreases t, k
  {
    if k == 0 then []
    else NodesUpTo(t, k - 1, base, marked) + Nodes(t.children[k - 1], ChildBase(t, k - 1, base), marked)
  }

  /** The edges the walk adds below `t`, numbering from `base`; the edge into `t` itself is not among them. */
  function Edges(t: UNode, base: nat): seq<DotEdge>
    decreases t, |t.children| + 1
  {
    EdgesUpTo(t, |t.children|, base)
  }

  function EdgesUpTo(t: UNode, k: nat, base: nat): seq<DotEdge>
    requires k <= |t.children|
    decreases t, k
  {
    if k == 0 then []
    else
      var c := ChildBase(t, k - 1, base);
      EdgesUpTo(t, k - 1, base) + [DotEdge(base, c)] + Edges(t.children[k - 1], c)
  }

  // ---------------------------------------------------------------------
  // The walk

  /**
   * The inner `add_node` of `visualize_tree` (`marked` false) and
   * `print_truth_tree_graphviz` with a graph given (`marked` true): the
   * node, the edge from its parent if it has one, then each child's subtree.
   */
  method AddNode(g: Digraph, t: UNode, parent: Option<nat>, marked: bool)
    modifies g
    decreases t
    ensures g.nodes == old(g.nodes) + Nodes(t, |old(g.nodes)|, marked)
    ensures g.edges == old(g.edges) + (if parent.Some? then [DotEdge(parent.value, |old(g.nodes)|)] else []) + Edges(t, |old(g.nodes)|)
  {
    ghost var nodes0 := g.nodes;
    ghost var edges0 := g.edges + (if parent.Some? then [DotEdge(parent.value, |g.nodes|)] else []);
    var id := |g.nodes|;
    g.Node(id, Label(t, marked));
    if parent.Some? {
      g.Edge(parent.value, id);
    }
    for i := 0 to |t.children|
      invariant g.nodes == nodes0 + ([DotNode(id, Label(t, marked))] + NodesUpTo(t, i, id, marked))
      invariant g.edges == edges0 + EdgesUpTo(t, i, id)
      invariant |g.nodes| == ChildBase(t, i, id)
    {
      var child := t.children[i];
      ghost var cb := ChildBase(t, i, id);
      NodesArePreorder(child, cb, marked);
      AddNode(g, child, Some(id), marked);
      Regroup(nodes0, [DotNode(id, Label(t, marked))], NodesUpTo(t, i, id, marked), Nodes(child, cb, marked));
      Regroup(edges0, EdgesUpTo(t, i, id), [DotEdge(id, cb)], Edges(child, cb));
    }
  }

  /** Concatenation regrouped, for the loop of `AddNode`. */
  lemma Regroup<T>(a: seq<T>, b: seq<T>, c: seq<T>, d: seq<T>)
    ensures (a + (b + c)) + d == a + (b + (c + d))
    ensures (a + b) + c + d == a + (b + c + d)
  {
  }

  /** `visualize_tree`: the drawing without closure marks. */
  method VisualizeTree(root: UNode) returns (g: Digraph)
    ensures fresh(g)
    ensures g.nodes == Nodes(root, 0, false) && g.edges == Edges(root, 0)
  {
    g := new Digraph();
    AddNode(g, root, None, false);
  }

  /** `print_truth_tree_graphviz` called without a graph: a new drawing with closed nodes marked. */
  method PrintTruthTreeGraphviz(node: UNode) returns (g: Digraph)
    ensures fresh(g)
    ensures g.nodes == Nodes(node, 0, true) && g.edges == Edges(node, 0)
  {
    g := new Digraph();
    AddNode(g, node, None, true);
  }

  // ---------------------------------------------------------------------
  // What the drawing is

  /**
   * One graph node per tree node, and
   * the `k`-th graph node is the `k`-th tree node of the pre-order walk:
   * it is numbered `base + k` and labelled with that tree node's label.
   */
  lemma {:induction false} NodesArePreorder(t: UNode, base: nat, marked: bool)
    ensures |Nodes(t, base, marked)| == |Preorder(t)|
    ensures forall k | 0 <= k < |Preorder(t)| :: Nodes(t, base, marked)[k] == DotNode(base + k, Label(Preorder(t)[k], marked))
    decreases t, |t.children| + 1
  {
    NodesUpToArePreorder(t, |t.children|, base, marked);
  }

  lemma {:induction false} NodesUpToArePreorder(t: UNode, k: nat, base: nat, marked: bool)
    requires k <= |t.children|
    ensures |NodesUpTo(t, k, base, marked)| == |PreorderUpTo(t, k)|
    ensures forall j | 0 <= j < |PreorderUpTo(t, k)| ::
      NodesUpTo(t, k, base, marked)[j] == DotNode(base + 1 + j, Label(PreorderUpTo(t, k)[j], marked))
    decreases t, k
  {
    if k > 0 {
      var c := t.children[k - 1];
      var cb := ChildBase(t, k - 1, base);
      NodesUpToArePreorder(t, k - 1, base, marked);
      NodesArePreorder(c, cb, marked);
      AppendShift(NodesUpTo(t, k - 1, base, marked), Nodes(c, cb, marked), PreorderUpTo(t, k - 1), Preorder(c), base, marked);
    }
  }

  /** Two numbered runs of nodes, the second starting where the first ends, make one numbered run. */
  lemma AppendShift(a: seq<DotNode>, b: seq<DotNode>, pa: seq<UNode>, pb: seq<UNode>, base: nat, marked: bool)
    requires |a| == |pa| && |b| == |pb|
    requires forall j | 0 <= j < |pa| :: a[j] == DotNode(base + 1 + j, Label(pa[j], marked))
    requires forall j | 0 <= j < |pb| :: b[j] == DotNode(base + 1 + |pa| + j, Label(pb[j], marked))
    ensures forall j | 0 <= j < |pa + pb| :: (a + b)[j] == DotNode(base + 1 + j, Label((pa + pb)[j], marked))
  {
    forall j | 0 <= j < |pa + pb|
      ensures (a + b)[j] == DotNode(base + 1 + j, Label((pa + pb)[j], marked))
    {
      if j >= |pa| {
        assert (a + b)[j] == b[j - |pa|] && (pa + pb)[j] == pb[j - |pa|];
      } else {
        assert (a + b)[j] == a[j] && (pa + pb)[j] == pa[j];
      }
    }
  }

  /** Every edge joins a node to one of its children in the tree. */
  predicate Joins(e: DotEdge, ns: seq<UNode>, base: nat) {
    base <= e.tail < e.head < base + |ns| && ns[e.head - base] in ns[e.tail - base].children
  }

  /**
   * One edge into every node but the first, in pre-order: the `k`-th edge
   * enters node `base + k + 1`, and leaves that node's parent, which comes
   * before it in the walk. So the drawing is the tree itself.
   */
  lemma {:induction false} EdgesAreTree(t: UNode, base: nat)
    ensures |Edges(t, base)| == |Preorder(t)| - 1
    ensures forall k | 0 <= k < |Edges(t, base)| :: Edges(t, base)[k].head == base + k + 1
    ensures forall k | 0 <= k < |Edges(t, base)| :: Joins(Edges(t, base)[k], Preorder(t), base)
    decreases t, |t.children| + 1
  {
    EdgesUpToAreTree(t, |t.children|, base);
  }

  lemma {:induction false} EdgesUpToAreTree(t: UNode, k: nat, base: nat)
    requires k <= |t.children|
    ensures |EdgesUpTo(t, k, base)| == |PreorderUpTo(t, k)|
    ensures forall j | 0 <= j < |EdgesUpTo(t, k, base)| :: EdgesUpTo(t, k, base)[j].head == base + j + 1
    ensures forall j | 0 <= j < |EdgesUpTo(t, k, base)| :: Joins(EdgesUpTo(t, k, base)[j], [t] + PreorderUpTo(t, k), base)
    decreases t, k
  {
    if k > 0 {
      var c := t.children[k - 1];
      var cb := ChildBase(t, k - 1, base);
      EdgesUpToAreTree(t, k - 1, base);
      EdgesAreTree(c, cb);
      PreorderStartsWithRoot(c);
      EdgesAppend(t, k, base);
    }
  }

  lemma PreorderStartsWithRoot(t: UNode)
    ensures |Preorder(t)| >= 1 && Preorder(t)[0] == t
  {
  }

  /** The step of `EdgesUpToAreTree`: the edges so far, the edge into child `k - 1`, then that child's own edges. */
  lemma EdgesAppend(t: UNode, k: nat, base: nat)
    requires 0 < k <= |t.children|
    requires var es := EdgesUpTo(t, k - 1, base);
      && |es| == |PreorderUpTo(t, k - 1)|
      && (forall j | 0 <= j < |es| :: es[j].head == base + j + 1)
      && (forall j | 0 <= j < |es| :: Joins(es[j], [t] + PreorderUpTo(t, k - 1), base))
    requires var c := t.children[k - 1]; var cb := ChildBase(t, k - 1, base); var es := Edges(c, cb);
      && |es| == |Preorder(c)| - 1
      && (forall j | 0 <= j < |es| :: es[j].head == cb + j + 1)
      && (forall j | 0 <= j < |es| :: Joins(es[j], Preorder(c), cb))
      && |Preorder(c)| >= 1 && Preorder(c)[0] == c
    ensures |EdgesUpTo(t, k, base)| == |PreorderUpTo(t, k)|
    ensures forall j | 0 <= j < |EdgesUpTo(t, k, base)| :: EdgesUpTo(t, k, base)[j].head == base + j + 1
    ensures forall j | 0 <= j < |EdgesUpTo(t, k, base)| :: Joins(EdgesUpTo(t, k, base)[j], [t] + PreorderUpTo(t, k), base)
  {
    var c := t.children[k - 1];
    var cb := ChildBase(t, k - 1, base);
    var pf := [t] + PreorderUpTo(t, k - 1);
    assert EdgesUpTo(t, k, base) == EdgesUpTo(t, k - 1, base) + [DotEdge(base, cb)] + Edges(c, cb);
    assert [t] + PreorderUpTo(t, k) == pf + Preorder(c);
    JoinAll(EdgesUpTo(t, k - 1, base), Edges(c, cb), pf, Preorder(c), base, cb);
  }

  /**
   * The edges of a stretch of the walk, the edge from its first node to the
   * root of a following subtree, then that subtree's edges: every node but
   * the first is entered once, in order, from its parent.
   */
  lemma JoinAll(front: seq<DotEdge>, back: seq<DotEdge>, pf: seq<UNode>, pc: seq<UNode>, base: nat, cb: nat)
    requires |front| + 1 == |pf| && |back| + 1 == |pc| && cb == base + |pf|
    requires forall j | 0 <= j < |front| :: front[j].head == base + j + 1 && Joins(front[j], pf, base)
    requires forall j | 0 <= j < |back| :: back[j].head == cb + j + 1 && Joins(back[j], pc, cb)
    requires pc[0] in pf[0].children
    ensures var all := front + [DotEdge(base, cb)] + back;
      forall j | 0 <= j < |all| :: all[j].head == base + j + 1 && Joins(all[j], pf + pc, base)
  {
    var all := front + [DotEdge(base, cb)] + back;
    var ns := pf + pc;
    assert ns[..|pf|] == pf && ns[|pf|..] == pc;
    forall j | 0 <= j < |all|
      ensures all[j].head == base + j + 1 && Joins(all[j], ns, base)
    {
      if j < |front| {
        assert all[j] == front[j];
        JoinsWithin(front[j], pf, base, ns, base);
      } else if j == |front| {
        assert all[j] == DotEdge(base, cb);
        assert ns[cb - base] == pc[0] && ns[0] == pf[0];
      } else {
        assert all[j] == back[j - |front| - 1];
        JoinsWithin(back[j - |front| - 1], pc, cb, ns, base);
      }
    }
  }

  /** An edge between two nodes of a stretch of the walk joins the same nodes in the whole walk. */
  lemma JoinsWithin(e: DotEdge, part: seq<UNode>, partBase: nat, whole: seq<UNode>, base: nat)
    requires Joins(e, part, partBase)
    requires base <= partBase && partBase - base + |part| <= |whole|
    requires whole[partBase - base..partBase - base + |part|] == part
    ensures Joins(e, whole, base)
  {
    var d := partBase - base;
    assert whole[e.head - base] == part[e.head - partBase];
    assert whole[e.tail - base] == part[e.tail - partBase];
  }
}
