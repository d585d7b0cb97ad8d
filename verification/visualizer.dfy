/**
 * truth_tree_generator/logic/visualizer.py: drawing a truth tree.
 *
 * The graphviz `Digraph` is modelled as the lists of nodes and edges it is
 * given, in order; a node's `str(id(node))` is its arena index. The
 * `line_number` attribute that the drawing writes onto tree nodes is kept
 * beside the arena, as a map from node index to number: a node missing from
 * the map has never been given one, and reading it raises.
 */
module Visualizer {
  import opened Results
  import opened Prop
  import opened Tableau

  /** The four `options.get(...)` switches. */
  datatype Options = Options(showLineNumbers: bool, circleAtomic: bool, showRule: bool, markClosed: bool)

  /** The defaults `options.get` falls back to. */
  const Defaults := Options(true, false, false, true)

  datatype GNode = GNode(id: nat, text: string)
  datatype Edge = Edge(from: nat, to: nat, marked: bool)
  datatype Graph = Graph(nodes: seq<GNode>, edges: seq<Edge>)

  /** Reading `line_number` on a node that was never given one. */
  datatype VizError = NoLineNumber(node: nat)

  // ---------------------------------------------------------------------
  // The part of the tree shape the drawing walks

  /** Children are listed after their parent in the arena and point back to it. */
  predicate Ordered(ns: seq<Node>) {
    forall x, j {:trigger ns[x].children[j]} | 0 <= x < |ns| && 0 <= j < |ns[x].children| ::
      x < ns[x].children[j] < |ns| && ns[ns[x].children[j]].parent == Some(x)
  }

  /** Every node but the root has a formula and a parent, and the root lists each child once. */
  predicate Shaped(ns: seq<Node>) {
    && |ns| > 0 && Ordered(ns) && Distinct(ns[0].children)
    && forall x {:trigger ns[x].parent} | 0 < x < |ns| :: ns[x].formula.Some? && ns[x].parent.Some?
  }

  lemma WfShaped(ns: seq<Node>)
    requires Wf(ns)
    ensures Shaped(ns)
  {
    assert ParentsLinked(ns);
    forall x | 0 < x < |ns| ensures ns[x].formula.Some? && ns[x].parent.Some? {
      assert ns[x].parent.Some?;
    }
  }

  /** The `j`-th child of `i`. */
  function Kid(ns: seq<Node>, i: nat, j: nat): (c: nat)
    requires Ordered(ns) && i < |ns| && j < |ns[i].children|
    ensures i < c < |ns| && ns[c].parent == Some(i)
  {
    ns[i].children[j]
  }

  // ---------------------------------------------------------------------
  // Pre-order

  /** `i` followed by everything below it, children left to right, depth first. */
  function PreOrderFrom(ns: seq<Node>, i: nat): seq<nat>
    requires Ordered(ns) && i < |ns|
    decreases |ns| - i, 1, 0
  {
    [i] + PreOrderKids(ns, i, |ns[i].children|)
  }

  /** The pre-order of the subtrees of the first `j` children of `i`. */
  function PreOrderKids(ns: seq<Node>, i: nat, j: nat): seq<nat>
    requires Ordered(ns) && i < |ns| && j <= |ns[i].children|
    decreases |ns| - i, 0, j
  {
    if j == 0 then [] else PreOrderKids(ns, i, j - 1) + PreOrderFrom(ns, Kid(ns, i, j - 1))
  }

  /** Every node below the root, in pre-order. */
  function Descendants(ns: seq<Node>): seq<nat>
    requires Ordered(ns) && |ns| > 0
  {
    PreOrderKids(ns, 0, |ns[0].children|)
  }

  /** Which child's subtree an element of `PreOrderKids(ns, i, j)` came from. */
  lemma {:induction false} KidContaining(ns: seq<Node>, i: nat, j: nat, x: nat) returns (k: nat)
    requires Ordered(ns) && i < |ns| && j <= |ns[i].children| && x in PreOrderKids(ns, i, j)
    ensures k < j && x in PreOrderFrom(ns, Kid(ns, i, k))
  {
    var front := PreOrderKids(ns, i, j - 1);
    var back := PreOrderFrom(ns, Kid(ns, i, j - 1));
    assert PreOrderKids(ns, i, j) == front + back;
    if x in back {
      k := j - 1;
    } else {
      assert x in front;
      k := KidContaining(ns, i, j - 1, x);
    }
  }

  lemma {:induction false} InPreOrderKids(ns: seq<Node>, i: nat, j: nat, m: nat, x: nat)
    requires Ordered(ns) && i < |ns| && j < m <= |ns[i].children|
    requires x in PreOrderFrom(ns, Kid(ns, i, j))
    ensures x in PreOrderKids(ns, i, m)
    decreases m
  {
    var front := PreOrderKids(ns, i, m - 1);
    var back := PreOrderFrom(ns, Kid(ns, i, m - 1));
    assert PreOrderKids(ns, i, m) == front + back;
    if j < m - 1 {
      InPreOrderKids(ns, i, j, m - 1, x);
      assert x in front;
    } else {
      assert x in back;
    }
  }

  /** The pre-order from `i` lists `i` and nodes after it. */
  lemma {:induction false} PreOrderRange(ns: seq<Node>, i: nat, x: nat)
    requires Ordered(ns) && i < |ns| && x in PreOrderFrom(ns, i)
    ensures i <= x < |ns|
    decreases |ns| - i
  {
    if x != i {
      assert x in PreOrderKids(ns, i, |ns[i].children|);
      var k := KidContaining(ns, i, |ns[i].children|, x);
      PreOrderRange(ns, Kid(ns, i, k), x);
    }
  }

  /** The pre-order from `i` lists only nodes whose chain passes through `i`. */
  lemma {:induction false} PreOrderSound(ns: seq<Node>, i: nat, x: nat)
    requires Wf(ns) && i < |ns| && x in PreOrderFrom(ns, i)
    ensures x < |ns| && OnChain(ns, i, x)
    decreases |ns| - i
  {
    if x != i {
      assert x in PreOrderKids(ns, i, |ns[i].children|);
      var k := KidContaining(ns, i, |ns[i].children|, x);
      var c := Child(ns, i, k);
      PreOrderSound(ns, c, x);
      ChainStepUp(ns, c, x);
    }
  }

  /** Every node whose chain passes through `i` is in the pre-order from `i`. */
  lemma {:induction false} PreOrderComplete(ns: seq<Node>, i: nat, x: nat)
    requires Wf(ns) && i < |ns| && x < |ns| && OnChain(ns, i, x)
    ensures x in PreOrderFrom(ns, i)
    decreases |ns| - i
  {
    if x != i {
      var c := ChildToward(ns, i, x);
      var j :| 0 <= j < |ns[i].children| && ns[i].children[j] == c;
      assert c == Kid(ns, i, j);
      PreOrderComplete(ns, c, x);
      InPreOrderKids(ns, i, j, |ns[i].children|, x);
    }
  }

  /** The pre-order lists every node once. */
  lemma {:induction false} PreOrderDistinct(ns: seq<Node>, i: nat)
    requires Wf(ns) && i < |ns|
    ensures Distinct(PreOrderFrom(ns, i))
    decreases |ns| - i, 1
  {
    var kids := PreOrderKids(ns, i, |ns[i].children|);
    PreOrderKidsDistinct(ns, i, |ns[i].children|);
    forall x | x in kids ensures x !in [i] {
      var k := KidContaining(ns, i, |ns[i].children|, x);
      PreOrderRange(ns, Kid(ns, i, k), x);
    }
    DistinctAppend([i], kids);
  }

  lemma {:induction false} PreOrderKidsDistinct(ns: seq<Node>, i: nat, j: nat)
    requires Wf(ns) && i < |ns| && j <= |ns[i].children|
    ensures Distinct(PreOrderKids(ns, i, j))
    decreases |ns| - i, 0, j
  {
    if j > 0 {
      var c := Kid(ns, i, j - 1);
      var front := PreOrderKids(ns, i, j - 1);
      var back := PreOrderFrom(ns, c);
      PreOrderKidsDistinct(ns, i, j - 1);
      PreOrderDistinct(ns, c);
      forall x | x in front ensures x !in back {
        NotUnderLaterChild(ns, i, j, x);
      }
      DistinctAppend(front, back);
      assert PreOrderKids(ns, i, j) == front + back;
    }
  }

  /** A node below one of the first `j - 1` children is not below child `j - 1`. */
  lemma NotUnderLaterChild(ns: seq<Node>, i: nat, j: nat, x: nat)
    requires Wf(ns) && i < |ns| && 0 < j <= |ns[i].children|
    requires x in PreOrderKids(ns, i, j - 1)
    ensures x !in PreOrderFrom(ns, Kid(ns, i, j - 1))
  {
    var c := Child(ns, i, j - 1);
    var k := KidContaining(ns, i, j - 1, x);
    var ck := Child(ns, i, k);
    assert ck != c by {
      assert Distinct(ns[i].children) && k < j - 1;
    }
    if x in PreOrderFrom(ns, c) {
      PreOrderSound(ns, ck, x);
      PreOrderSound(ns, c, x);
      ChainChildUnique(ns, i, ck, c, x);
    }
  }

  /** A node strictly below `i` comes after `i` and has a parent at or after `i`. */
  lemma {:induction false} KidsParent(ns: seq<Node>, i: nat, j: nat, x: nat)
    requires Ordered(ns) && i < |ns| && j <= |ns[i].children| && x in PreOrderKids(ns, i, j)
    ensures i < x < |ns| && ns[x].parent.Some? && i <= ns[x].parent.value
    decreases |ns| - i
  {
    var k := KidContaining(ns, i, j, x);
    var c := Kid(ns, i, k);
    if x != c {
      assert PreOrderFrom(ns, c) == [c] + PreOrderKids(ns, c, |ns[c].children|);
      KidsParent(ns, c, |ns[c].children|, x);
    }
  }

  /** The drawing visits every node but the root, each exactly once. */
  lemma DescendantsAreNonRoot(ns: seq<Node>, x: nat)
    requires Wf(ns)
    ensures Distinct(Descendants(ns))
    ensures x in Descendants(ns) <==> 0 < x < |ns|
  {
    var d := Descendants(ns);
    var po := PreOrderFrom(ns, 0);
    assert po == [0] + d;
    PreOrderDistinct(ns, 0);
    assert Distinct(d) by {
      forall j, k | 0 <= j < k < |d| ensures d[j] != d[k] {
        assert d[j] == po[j + 1] && d[k] == po[k + 1];
      }
    }
    if x in d {
      assert x in po;
      PreOrderRange(ns, 0, x);
      assert x != 0 by {
        assert po[0] == 0;
        var p :| 0 <= p < |d| && d[p] == x;
        assert po[p + 1] == x;
      }
    }
    if 0 < x < |ns| {
      RootOnEveryChain(ns, x);
      PreOrderComplete(ns, 0, x);
      assert x in po;
    }
  }

  // ---------------------------------------------------------------------
  // Labels: `add_node`

  function Digit(d: nat): (c: char)
    requires d < 10
    ensures '0' <= c <= '9' && c as int - '0' as int == d
  {
    (d + '0' as int) as char
  }

  /** `f"{n}"`: the decimal numeral of `n`, without leading zeros. */
  function Decimal(n: nat): (s: string)
    ensures |s| > 0 && forall k | 0 <= k < |s| :: '0' <= s[k] <= '9'
    ensures s[0] == '0' <==> n == 0
    decreases n
  {
    if n < 10 then [Digit(n)] else Decimal(n / 10) + [Digit(n % 10)]
  }

  /** The number a string of decimal digits stands for. */
  function DecimalValue(s: string): nat
    requires forall k | 0 <= k < |s| :: '0' <= s[k] <= '9'
  {
    if s == [] then 0 else 10 * DecimalValue(s[..|s| - 1]) + (s[|s| - 1] as int - '0' as int)
  }

  /** The numeral reads back as the number, so distinct line numbers print differently. */
  lemma {:induction false} DecimalRoundTrip(n: nat)
    ensures DecimalValue(Decimal(n)) == n
    decreases n
  {
    if n >= 10 {
      DecimalRoundTrip(n / 10);
      var s := Decimal(n);
      assert s[..|s| - 1] == Decimal(n / 10);
    }
  }

  /** `" ".join(parts)`. */
  function JoinSpace(parts: seq<string>): string {
    if parts == [] then "" else if |parts| == 1 then parts[0] else parts[0] + " " + JoinSpace(parts[1..])
  }

  /** `formula_to_string(node.formula)`, between ⊚ marks for an atom when `circle_atomic` is on. */
  function Shown(o: Options, f: Prop): string {
    if o.circleAtomic && f.Atom? then "⊚" + Render(f) + "⊚" else Render(f)
  }

  /** ` (rule)` when `show_decomposition_rule` is on and the node has a non-empty rule. */
  function RuleNote(o: Options, rule: Option<string>): string {
    if o.showRule && rule.Some? && rule.value != "" then " (" + rule.value + ")" else ""
  }

  /** Whether the label of `x` can be made: it reads `line_number` only when line numbers are shown. */
  predicate Labelled(ln: map<nat, nat>, o: Options, x: nat) {
    !o.showLineNumbers || x in ln
  }

  /** The label `add_node` gives node `x`, or the error reading its missing line number raises. */
  function Label(ns: seq<Node>, ln: map<nat, nat>, o: Options, x: nat): (r: Result<string, VizError>)
    requires x < |ns| && ns[x].formula.Some?
    ensures r.Err? <==> !Labelled(ln, o, x)
    ensures r.Err? ==> r.error == NoLineNumber(x)
  {
    if !Labelled(ln, o, x) then Err(NoLineNumber(x))
    else
      var n := ns[x];
      var parts := (if o.showLineNumbers then [Decimal(ln[x]) + ". "] else [])
        + [Shown(o, n.formula.value)]
        + (if n.closed then [" ×"] else []);
      Ok(JoinSpace(parts) + RuleNote(o, n.rule))
  }

  /**
   * How a label reads: the line number, a dot and two spaces (the ". " part
   * joined by a further space) iff line numbers are shown; the formula; two
   * spaces and × iff the node is closed; then the rule note.
   */
  lemma LabelReads(ns: seq<Node>, ln: map<nat, nat>, o: Options, x: nat)
    requires x < |ns| && ns[x].formula.Some? && Labelled(ln, o, x)
    ensures Label(ns, ln, o, x).Ok?
    ensures Label(ns, ln, o, x).value ==
      (if o.showLineNumbers then Decimal(ln[x]) + ".  " else "")
      + Shown(o, ns[x].formula.value)
      + (if ns[x].closed then "  ×" else "")
      + RuleNote(o, ns[x].rule)
  {
    var f := Shown(o, ns[x].formula.value);
    if o.showLineNumbers {
      var d := Decimal(ln[x]);
      JoinParts(d + ". ", f, true, ns[x].closed);
      assert d + ". " + " " == d + ".  ";
    } else {
      JoinParts("", f, false, ns[x].closed);
    }
  }

  /** `" ".join` of an optional first part, the formula and an optional closing mark. */
  lemma JoinParts(d: string, f: string, show: bool, closed: bool)
    ensures JoinSpace((if show then [d] else []) + [f] + (if closed then [" ×"] else []))
      == (if show then d + " " else "") + f + (if closed then "  ×" else "")
  {
    var parts := (if show then [d] else []) + [f] + (if closed then [" ×"] else []);
    if closed {
      assert JoinSpace([f, " ×"]) == f + " " + JoinSpace([" ×"]);
      assert f + " " + " ×" == f + "  ×";
    }
    if show {
      assert parts[0] == d && parts[1..] == [f] + (if closed then [" ×"] else []);
    } else {
      assert parts == [f] + (if closed then [" ×"] else []);
    }
  }


  // ---------------------------------------------------------------------
  // Emission: `add_node`

  /** The label of `x`, where `add_node` can make one. */
  function Text(ns: seq<Node>, ln: map<nat, nat>, o: Options, x: nat): string {
    if x < |ns| && ns[x].formula.Some? && Labelled(ln, o, x) then Label(ns, ln, o, x).value else ""
  }

  /** The index of the parent of `x`, where it has one. */
  function ParentId(ns: seq<Node>, x: nat): nat {
    if x < |ns| && ns[x].parent.Some? then ns[x].parent.value else 0
  }

  /** Every element of `xs` has a label that can be made. */
  predicate AllLabelled(ln: map<nat, nat>, o: Options, xs: seq<nat>) {
    forall p | 0 <= p < |xs| :: Labelled(ln, o, xs[p])
  }

  lemma AllLabelledAppend(ln: map<nat, nat>, o: Options, a: seq<nat>, b: seq<nat>)
    ensures AllLabelled(ln, o, a + b) <==> AllLabelled(ln, o, a) && AllLabelled(ln, o, b)
  {
    var ab := a + b;
    if AllLabelled(ln, o, ab) {
      forall p | 0 <= p < |a| ensures Labelled(ln, o, a[p]) {
        assert a[p] == ab[p];
      }
      forall p | 0 <= p < |b| ensures Labelled(ln, o, b[p]) {
        assert b[p] == ab[|a| + p];
      }
    }
    if AllLabelled(ln, o, a) && AllLabelled(ln, o, b) {
      forall p | 0 <= p < |ab| ensures Labelled(ln, o, ab[p]) {
        if p >= |a| {
          assert ab[p] == b[p - |a|];
        } else {
          assert ab[p] == a[p];
        }
      }
    }
  }

  /** The graph nodes `dot.node(...)` adds for the nodes `xs`, in order. */
  function Drawn(ns: seq<Node>, ln: map<nat, nat>, o: Options, xs: seq<nat>): seq<GNode> {
    if xs == [] then [] else [GNode(xs[0], Text(ns, ln, o, xs[0]))] + Drawn(ns, ln, o, xs[1..])
  }

  /** The edges `add_node` draws into the nodes `xs`, in order: one from each parent but the root. */
  function TreeEdges(ns: seq<Node>, xs: seq<nat>): seq<Edge> {
    if xs == [] then []
    else (if ParentId(ns, xs[0]) != 0 then [Edge(ParentId(ns, xs[0]), xs[0], false)] else []) + TreeEdges(ns, xs[1..])
  }

  /** `Drawn` lists one graph node per tree node, with that node's id and label. */
  lemma {:induction false} DrawnAt(ns: seq<Node>, ln: map<nat, nat>, o: Options, xs: seq<nat>)
    ensures |Drawn(ns, ln, o, xs)| == |xs|
    ensures forall p | 0 <= p < |xs| :: Drawn(ns, ln, o, xs)[p] == GNode(xs[p], Text(ns, ln, o, xs[p]))
  {
    if xs != [] {
      DrawnAt(ns, ln, o, xs[1..]);
    }
  }

  /** `TreeEdges` lists, for each node, the edge from its parent into it. */
  lemma {:induction false} TreeEdgesMembers(ns: seq<Node>, xs: seq<nat>, e: Edge)
    ensures e in TreeEdges(ns, xs) <==> !e.marked && e.to in xs && e.from == ParentId(ns, e.to) && e.from != 0
  {
    if xs != [] {
      TreeEdgesMembers(ns, xs[1..], e);
      assert xs == [xs[0]] + xs[1..];
    }
  }

  /** No edge is drawn twice when no node is. */
  lemma {:induction false} TreeEdgesDistinct(ns: seq<Node>, xs: seq<nat>)
    requires Distinct(xs)
    ensures forall p, q | 0 <= p < q < |TreeEdges(ns, xs)| :: TreeEdges(ns, xs)[p] != TreeEdges(ns, xs)[q]
  {
    if xs != [] {
      var t := TreeEdges(ns, xs[1..]);
      TreeEdgesDistinct(ns, xs[1..]);
      assert Distinct(xs[1..]);
      forall q | 0 <= q < |t| ensures t[q].to != xs[0] {
        TreeEdgesMembers(ns, xs[1..], t[q]);
        var p :| 0 <= p < |xs[1..]| && xs[1..][p] == t[q].to;
        assert xs[p + 1] == t[q].to;
      }
    }
  }

  lemma {:induction false} DrawnAppend(ns: seq<Node>, ln: map<nat, nat>, o: Options, a: seq<nat>, b: seq<nat>)
    ensures Drawn(ns, ln, o, a + b) == Drawn(ns, ln, o, a) + Drawn(ns, ln, o, b)
  {
    if a != [] {
      var ab := a + b;
      assert ab[0] == a[0] && ab[1..] == a[1..] + b;
      DrawnAppend(ns, ln, o, a[1..], b);
    } else {
      assert a + b == b;
    }
  }

  lemma {:induction false} TreeEdgesAppend(ns: seq<Node>, a: seq<nat>, b: seq<nat>)
    ensures TreeEdges(ns, a + b) == TreeEdges(ns, a) + TreeEdges(ns, b)
  {
    if a != [] {
      var ab := a + b;
      assert ab[0] == a[0] && ab[1..] == a[1..] + b;
      TreeEdgesAppend(ns, a[1..], b);
    } else {
      assert a + b == b;
    }
  }

  /** Labels only read the numbers of their own nodes. */
  lemma {:induction false} DrawnCongruent(ns: seq<Node>, ln: map<nat, nat>, ln': map<nat, nat>, o: Options, xs: seq<nat>)
    requires AllLabelled(ln, o, xs)
    requires forall p | 0 <= p < |xs| :: (xs[p] in ln <==> xs[p] in ln') && (xs[p] in ln ==> ln[xs[p]] == ln'[xs[p]])
    ensures AllLabelled(ln', o, xs)
    ensures Drawn(ns, ln, o, xs) == Drawn(ns, ln', o, xs)
  {
    if xs != [] {
      DrawnCongruent(ns, ln, ln', o, xs[1..]);
    }
  }

  /** What the drawing has emitted when it returns, and the error it raised, if any. */
  datatype Outcome = Outcome(g: Graph, err: Option<VizError>)

  /** The edge `dot.edge(parent_id, node_id)`, drawn only when a parent id is passed. */
  function ParentEdge(parent: Option<nat>, i: nat): seq<Edge> {
    if parent.Some? then [Edge(parent.value, i, false)] else []
  }

  /** `add_node(node, parent_id)` on node `i`: its own graph node, its edge, then its children in order. */
  function Emit(ns: seq<Node>, ln: map<nat, nat>, o: Options, i: nat, parent: Option<nat>, g: Graph): Outcome
    requires Shaped(ns) && 0 < i < |ns|
    decreases |ns| - i, 1, 0
  {
    assert ns[i].parent.Some?;
    match Label(ns, ln, o, i)
    case Err(e) => Outcome(g, Some(e))
    case Ok(text) =>
      var g1 := Graph(g.nodes + [GNode(i, text)], g.edges + ParentEdge(parent, i));
      EmitKids(ns, ln, o, i, |ns[i].children|, g1)
  }

  /** The `for child in node.children` loop of `add_node`, over the first `j` children. */
  function EmitKids(ns: seq<Node>, ln: map<nat, nat>, o: Options, i: nat, j: nat, g: Graph): Outcome
    requires Shaped(ns) && 0 < i < |ns| && j <= |ns[i].children|
    decreases |ns| - i, 0, j
  {
    if j == 0 then Outcome(g, None)
    else
      var r := EmitKids(ns, ln, o, i, j - 1, g);
      if r.err.Some? then r else Emit(ns, ln, o, Kid(ns, i, j - 1), Some(i), r.g)
  }

  /**
   * With every label readable, `add_node` draws the subtree of `i` in
   * pre-order, with the edge from `parent` into `i` and from each parent
   * into each node below `i`, and raises nothing.
   */
  lemma {:induction false} EmitOk(ns: seq<Node>, ln: map<nat, nat>, o: Options, i: nat, parent: Option<nat>, g: Graph)
    requires Shaped(ns) && 0 < i < |ns| && AllLabelled(ln, o, PreOrderFrom(ns, i))
    ensures Emit(ns, ln, o, i, parent, g).err == None
    ensures Emit(ns, ln, o, i, parent, g).g.nodes == g.nodes + Drawn(ns, ln, o, PreOrderFrom(ns, i))
    ensures Emit(ns, ln, o, i, parent, g).g.edges
      == g.edges + ParentEdge(parent, i) + TreeEdges(ns, PreOrderKids(ns, i, |ns[i].children|))
    decreases |ns| - i, 1
  {
    var kids := PreOrderKids(ns, i, |ns[i].children|);
    assert PreOrderFrom(ns, i) == [i] + kids;
    AllLabelledAppend(ln, o, [i], kids);
    assert Labelled(ln, o, ([i] + kids)[0]);
    var g1 := Graph(g.nodes + [GNode(i, Text(ns, ln, o, i))], g.edges + ParentEdge(parent, i));
    EmitLabelled(ns, ln, o, i, parent, g);
    EmitKidsOk(ns, ln, o, i, |ns[i].children|, g1);
    DrawnCons(ns, ln, o, i, kids);
    SeqAssoc(g.nodes, [GNode(i, Text(ns, ln, o, i))], Drawn(ns, ln, o, kids));
  }

  /** A node whose label is readable is drawn, and then its children. */
  lemma EmitLabelled(ns: seq<Node>, ln: map<nat, nat>, o: Options, i: nat, parent: Option<nat>, g: Graph)
    requires Shaped(ns) && 0 < i < |ns| && Labelled(ln, o, i)
    ensures Emit(ns, ln, o, i, parent, g)
      == EmitKids(ns, ln, o, i, |ns[i].children|,
                  Graph(g.nodes + [GNode(i, Text(ns, ln, o, i))], g.edges + ParentEdge(parent, i)))
  {
    assert ns[i].parent.Some?;
  }

  lemma DrawnCons(ns: seq<Node>, ln: map<nat, nat>, o: Options, i: nat, xs: seq<nat>)
    ensures Drawn(ns, ln, o, [i] + xs) == [GNode(i, Text(ns, ln, o, i))] + Drawn(ns, ln, o, xs)
  {
    assert ([i] + xs)[1..] == xs;
  }

  lemma {:induction false} EmitKidsOk(ns: seq<Node>, ln: map<nat, nat>, o: Options, i: nat, j: nat, g: Graph)
    requires Shaped(ns) && 0 < i < |ns| && j <= |ns[i].children| && AllLabelled(ln, o, PreOrderKids(ns, i, j))
    ensures EmitKids(ns, ln, o, i, j, g).err == None
    ensures EmitKids(ns, ln, o, i, j, g).g.nodes == g.nodes + Drawn(ns, ln, o, PreOrderKids(ns, i, j))
    ensures EmitKids(ns, ln, o, i, j, g).g.edges == g.edges + TreeEdges(ns, PreOrderKids(ns, i, j))
    decreases |ns| - i, 0, j
  {
    if j > 0 {
      var c := Kid(ns, i, j - 1);
      var front := PreOrderKids(ns, i, j - 1);
      var back := PreOrderFrom(ns, c);
      assert PreOrderKids(ns, i, j) == front + back;
      AllLabelledAppend(ln, o, front, back);
      EmitKidsOk(ns, ln, o, i, j - 1, g);
      var r := EmitKids(ns, ln, o, i, j - 1, g);
      assert EmitKids(ns, ln, o, i, j, g) == Emit(ns, ln, o, c, Some(i), r.g);
      EmitOk(ns, ln, o, c, Some(i), r.g);
      BackEdges(ns, c, i);
      DrawnAppend(ns, ln, o, front, back);
      TreeEdgesAppend(ns, front, back);
      SeqAssoc(g.nodes, Drawn(ns, ln, o, front), Drawn(ns, ln, o, back));
      SeqAssoc3(g.edges, TreeEdges(ns, front), ParentEdge(Some(i), c), TreeEdges(ns, PreOrderKids(ns, c, |ns[c].children|)));
    } else {
      assert PreOrderKids(ns, i, 0) == [];
    }
  }

  lemma SeqAssoc<T>(a: seq<T>, b: seq<T>, c: seq<T>)
    ensures a + b + c == a + (b + c)
  {
  }

  lemma SeqAssoc3<T>(a: seq<T>, b: seq<T>, c: seq<T>, d: seq<T>)
    ensures a + b + c + d == a + (b + (c + d))
  {
  }

  /** Drawing a child's subtree adds the edge into the child, then the edges below it. */
  lemma BackEdges(ns: seq<Node>, c: nat, i: nat)
    requires Ordered(ns) && c < |ns| && ns[c].parent == Some(i)
    ensures ParentEdge(if i == 0 then None else Some(i), c) + TreeEdges(ns, PreOrderKids(ns, c, |ns[c].children|))
      == TreeEdges(ns, PreOrderFrom(ns, c))
  {
    var po := PreOrderFrom(ns, c);
    assert po[0] == c && po[1..] == PreOrderKids(ns, c, |ns[c].children|);
  }

  /** A node in the subtree of `i` whose label cannot be made makes `add_node` raise. */
  lemma {:induction false} EmitFails(ns: seq<Node>, ln: map<nat, nat>, o: Options, i: nat, parent: Option<nat>, g: Graph, x: nat)
    requires Shaped(ns) && 0 < i < |ns| && x in PreOrderFrom(ns, i) && !Labelled(ln, o, x)
    ensures Emit(ns, ln, o, i, parent, g).err.Some?
    decreases |ns| - i, 1
  {
    assert ns[i].parent.Some?;
    if x != i && Labelled(ln, o, i) {
      var kids := PreOrderKids(ns, i, |ns[i].children|);
      assert PreOrderFrom(ns, i) == [i] + kids;
      var g1 := Graph(g.nodes + [GNode(i, Label(ns, ln, o, i).value)], g.edges + ParentEdge(parent, i));
      EmitKidsFails(ns, ln, o, i, |ns[i].children|, g1, x);
    }
  }

  lemma {:induction false} EmitKidsFails(ns: seq<Node>, ln: map<nat, nat>, o: Options, i: nat, j: nat, g: Graph, x: nat)
    requires Shaped(ns) && 0 < i < |ns| && j <= |ns[i].children|
    requires x in PreOrderKids(ns, i, j) && !Labelled(ln, o, x)
    ensures EmitKids(ns, ln, o, i, j, g).err.Some?
    decreases |ns| - i, 0, j
  {
    var c := Kid(ns, i, j - 1);
    var front := PreOrderKids(ns, i, j - 1);
    var back := PreOrderFrom(ns, c);
    assert PreOrderKids(ns, i, j) == front + back;
    var r := EmitKids(ns, ln, o, i, j - 1, g);
    if x in front {
      EmitKidsFails(ns, ln, o, i, j - 1, g, x);
    } else if r.err.None? {
      EmitFails(ns, ln, o, c, Some(i), r.g, x);
    }
  }

  // ---------------------------------------------------------------------
  // The loop over the root's children

  /** The line numbers after the first `j` children of the root have been given `1..j`. */
  function RootNumbered(ns: seq<Node>, ln: map<nat, nat>, j: nat): map<nat, nat>
    requires Ordered(ns) && |ns| > 0 && j <= |ns[0].children|
  {
    if j == 0 then ln else RootNumbered(ns, ln, j - 1)[Kid(ns, 0, j - 1) := j]
  }

  /** Child `k` of the root is numbered `k + 1`; every other number is the one already there. */
  lemma {:induction false} RootNumberedMeaning(ns: seq<Node>, ln: map<nat, nat>, j: nat, x: nat)
    requires Shaped(ns) && j <= |ns[0].children|
    ensures forall k | 0 <= k < j ::
      ns[0].children[k] in RootNumbered(ns, ln, j) && RootNumbered(ns, ln, j)[ns[0].children[k]] == k + 1
    ensures x !in ns[0].children[..j] ==>
      (x in RootNumbered(ns, ln, j) <==> x in ln) && (x in ln ==> RootNumbered(ns, ln, j)[x] == ln[x])
  {
    if j > 0 {
      RootNumberedMeaning(ns, ln, j - 1, x);
      var ch := ns[0].children;
      assert ch[..j] == ch[..j - 1] + [ch[j - 1]];
      forall k | 0 <= k < j - 1 ensures ch[k] != ch[j - 1] {
      }
    }
  }

  /**
   * While the subtree of child `j - 1` is drawn, the numbers of its nodes are
   * already those they have once every child of the root is numbered.
   */
  lemma {:induction false} RootNumberedAgree(ns: seq<Node>, ln: map<nat, nat>, j: nat, m: nat, x: nat)
    requires Shaped(ns) && 0 < j <= m <= |ns[0].children| && x in PreOrderFrom(ns, Kid(ns, 0, j - 1))
    ensures x in RootNumbered(ns, ln, j) <==> x in RootNumbered(ns, ln, m)
    ensures x in RootNumbered(ns, ln, j) ==> RootNumbered(ns, ln, j)[x] == RootNumbered(ns, ln, m)[x]
    decreases m
  {
    if m > j {
      RootNumberedAgree(ns, ln, j, m - 1, x);
      var c := Kid(ns, 0, j - 1);
      var c' := Kid(ns, 0, m - 1);
      if x == c {
        assert ns[0].children[j - 1] != ns[0].children[m - 1];
      } else {
        assert PreOrderFrom(ns, c) == [c] + PreOrderKids(ns, c, |ns[c].children|);
        KidsParent(ns, c, |ns[c].children|, x);
      }
      assert x != c';
    }
  }

  /**
   * The first `j` passes of `for i, child in enumerate(tree.root.children)`:
   * number the child `i + 1`, then `add_node(child)` without a parent id.
   */
  function DrawRoots(ns: seq<Node>, ln: map<nat, nat>, o: Options, j: nat): Outcome
    requires Shaped(ns) && j <= |ns[0].children|
  {
    if j == 0 then Outcome(Graph([], []), None)
    else
      var r := DrawRoots(ns, ln, o, j - 1);
      if r.err.Some? then r else Emit(ns, RootNumbered(ns, ln, j), o, Kid(ns, 0, j - 1), None, r.g)
  }

  /** With every label readable, the loop draws the subtrees of the root's children in pre-order, with no edge from the root. */
  lemma {:induction false} DrawRootsOk(ns: seq<Node>, ln: map<nat, nat>, o: Options, j: nat, m: nat)
    requires Shaped(ns) && j <= m <= |ns[0].children|
    requires AllLabelled(RootNumbered(ns, ln, m), o, PreOrderKids(ns, 0, j))
    ensures DrawRoots(ns, ln, o, j).err == None
    ensures DrawRoots(ns, ln, o, j).g.nodes == Drawn(ns, RootNumbered(ns, ln, m), o, PreOrderKids(ns, 0, j))
    ensures DrawRoots(ns, ln, o, j).g.edges == TreeEdges(ns, PreOrderKids(ns, 0, j))
  {
    if j > 0 {
      var full := RootNumbered(ns, ln, m);
      var front := PreOrderKids(ns, 0, j - 1);
      var back := PreOrderFrom(ns, Kid(ns, 0, j - 1));
      assert PreOrderKids(ns, 0, j) == front + back;
      AllLabelledAppend(full, o, front, back);
      DrawRootsOk(ns, ln, o, j - 1, m);
      DrawRootsStep(ns, ln, o, j, m);
      DrawnAppend(ns, full, o, front, back);
      TreeEdgesAppend(ns, front, back);
    } else {
      assert PreOrderKids(ns, 0, 0) == [];
    }
  }

  /** One pass of the loop adds the subtree of the next child of the root. */
  lemma DrawRootsStep(ns: seq<Node>, ln: map<nat, nat>, o: Options, j: nat, m: nat)
    requires Shaped(ns) && 0 < j <= m <= |ns[0].children| && DrawRoots(ns, ln, o, j - 1).err == None
    requires AllLabelled(RootNumbered(ns, ln, m), o, PreOrderFrom(ns, Kid(ns, 0, j - 1)))
    ensures DrawRoots(ns, ln, o, j).err == None
    ensures DrawRoots(ns, ln, o, j).g.nodes
      == DrawRoots(ns, ln, o, j - 1).g.nodes + Drawn(ns, RootNumbered(ns, ln, m), o, PreOrderFrom(ns, Kid(ns, 0, j - 1)))
    ensures DrawRoots(ns, ln, o, j).g.edges
      == DrawRoots(ns, ln, o, j - 1).g.edges + TreeEdges(ns, PreOrderFrom(ns, Kid(ns, 0, j - 1)))
  {
    var now := RootNumbered(ns, ln, j);
    var c := Kid(ns, 0, j - 1);
    var r := DrawRoots(ns, ln, o, j - 1);
    DrawnWhileNumbering(ns, ln, o, j, m);
    assert DrawRoots(ns, ln, o, j) == Emit(ns, now, o, c, None, r.g);
    EmitOk(ns, now, o, c, None, r.g);
    BackEdges(ns, c, 0);
    assert ParentEdge(None, c) == [];
    assert r.g.edges + [] == r.g.edges;
  }

  /** The subtree of child `j - 1` is drawn the same under the numbers it has then and in the end. */
  lemma DrawnWhileNumbering(ns: seq<Node>, ln: map<nat, nat>, o: Options, j: nat, m: nat)
    requires Shaped(ns) && 0 < j <= m <= |ns[0].children|
    requires AllLabelled(RootNumbered(ns, ln, m), o, PreOrderFrom(ns, Kid(ns, 0, j - 1)))
    ensures AllLabelled(RootNumbered(ns, ln, j), o, PreOrderFrom(ns, Kid(ns, 0, j - 1)))
    ensures Drawn(ns, RootNumbered(ns, ln, m), o, PreOrderFrom(ns, Kid(ns, 0, j - 1)))
      == Drawn(ns, RootNumbered(ns, ln, j), o, PreOrderFrom(ns, Kid(ns, 0, j - 1)))
  {
    var full := RootNumbered(ns, ln, m);
    var now := RootNumbered(ns, ln, j);
    var back := PreOrderFrom(ns, Kid(ns, 0, j - 1));
    forall p | 0 <= p < |back|
      ensures (back[p] in full <==> back[p] in now) && (back[p] in full ==> full[back[p]] == now[back[p]])
    {
      RootNumberedAgree(ns, ln, j, m, back[p]);
    }
    DrawnCongruent(ns, full, now, o, back);
  }

  /** A node below the first `j` children of the root whose label cannot be made makes the loop raise. */
  lemma {:induction false} DrawRootsFails(ns: seq<Node>, ln: map<nat, nat>, o: Options, j: nat, m: nat, x: nat)
    requires Shaped(ns) && j <= m <= |ns[0].children|
    requires x in PreOrderKids(ns, 0, j) && !Labelled(RootNumbered(ns, ln, m), o, x)
    ensures DrawRoots(ns, ln, o, j).err.Some?
  {
    var c := Kid(ns, 0, j - 1);
    var front := PreOrderKids(ns, 0, j - 1);
    var back := PreOrderFrom(ns, c);
    assert PreOrderKids(ns, 0, j) == front + back;
    var r := DrawRoots(ns, ln, o, j - 1);
    if x in front {
      DrawRootsFails(ns, ln, o, j - 1, m, x);
    } else if r.err.None? {
      RootNumberedAgree(ns, ln, j, m, x);
      EmitFails(ns, RootNumbered(ns, ln, j), o, c, None, r.g, x);
    }
  }

  // ---------------------------------------------------------------------
  // Closed branches

  /** The nodes `while current.parent` visits from `x` up: `x` and its ancestors, the root left out. */
  function ChainUp(ns: seq<Node>, x: nat): seq<nat>
    requires Wf(ns) && x < |ns|
    decreases x
  {
    if x == 0 then [] else [x] + ChainUp(ns, ns[x].parent.value)
  }

  /** `dot.edge(path[i + 1], path[i], color='red', penwidth='2')` for `i in range(len(path) - 1)`. */
  function PathEdges(path: seq<nat>): (r: seq<Edge>)
    ensures |path| > 0 ==> |r| == |path| - 1
  {
    if |path| < 2 then []
    else seq(|path| - 1, k requires 0 <= k < |path| - 1 => Edge(path[k + 1], path[k], true))
  }

  /** The marked edges of the closed leaves among `ls`, leaf by leaf. */
  function ClosedMarks(ns: seq<Node>, ls: seq<nat>): seq<Edge>
    requires Wf(ns) && Below(ns, ls)
  {
    if ls == [] then []
    else
      var x := ls[|ls| - 1];
      ClosedMarks(ns, ls[..|ls| - 1]) + (if ns[x].closed then PathEdges(ChainUp(ns, x)) else [])
  }

  /** One more leaf adds the marks of its path, if it is closed. */
  lemma ClosedMarksSnoc(ns: seq<Node>, ls: seq<nat>, t: nat)
    requires Wf(ns) && Below(ns, ls) && t < |ls|
    ensures ls[t] < |ns|
    ensures ClosedMarks(ns, ls[..t + 1]) ==
      ClosedMarks(ns, ls[..t]) + (if ns[ls[t]].closed then PathEdges(ChainUp(ns, ls[t])) else [])
  {
    assert ls[..t + 1][..t] == ls[..t];
  }

  lemma PathEdgesCons(x: nat, rest: seq<nat>)
    requires rest != []
    ensures PathEdges([x] + rest) == [Edge(rest[0], x, true)] + PathEdges(rest)
  {
    var s := [x] + rest;
    assert forall k | 0 < k < |s| :: s[k] == rest[k - 1];
  }

  /** Extending a path by one node adds one marked edge, from that node to the previous end. */
  lemma PathEdgesSnoc(path: seq<nat>)
    requires |path| >= 2
    ensures PathEdges(path) == PathEdges(path[..|path| - 1]) + [Edge(path[|path| - 1], path[|path| - 2], true)]
  {
  }

  /**
   * The marked edges from a leaf `x` are exactly the parent-to-child steps
   * on its chain whose parent is not the root.
   */
  lemma {:induction false} ChainMarks(ns: seq<Node>, x: nat, e: Edge)
    requires Wf(ns) && x < |ns|
    ensures e in PathEdges(ChainUp(ns, x)) <==>
      e.marked && e.from != 0 && e.to < |ns| && ns[e.to].parent == Some(e.from) && OnChain(ns, e.to, x)
    decreases x
  {
    if x > 0 {
      var p := ns[x].parent.value;
      ChainMarks(ns, p, e);
      if p > 0 {
        assert ChainUp(ns, p)[0] == p;
        PathEdgesCons(x, ChainUp(ns, p));
      } else {
        if OnChain(ns, e.to, p) && e.to < |ns| {
          assert e.to == 0;
        }
      }
    }
  }

  /** `e` is one of the marked edges drawn for leaf `x`. */
  ghost predicate MarkedBy(ns: seq<Node>, x: nat, e: Edge) {
    Wf(ns) && x < |ns| && ns[x].closed && e in PathEdges(ChainUp(ns, x))
  }

  lemma {:induction false} ClosedMarksMeaning(ns: seq<Node>, ls: seq<nat>, e: Edge)
    requires Wf(ns) && Below(ns, ls)
    ensures e in ClosedMarks(ns, ls) <==> exists k | 0 <= k < |ls| :: MarkedBy(ns, ls[k], e)
  {
    if ls == [] {
      assert ClosedMarks(ns, ls) == [];
    } else {
      var t := |ls| - 1;
      var front := ls[..t];
      ClosedMarksSnoc(ns, ls, t);
      assert ls[..t + 1] == ls;
      ClosedMarksMeaning(ns, front, e);
      var last := e in ClosedMarks(ns, ls) && e !in ClosedMarks(ns, front);
      assert last ==> MarkedBy(ns, ls[t], e);
      assert MarkedBy(ns, ls[t], e) ==> e in ClosedMarks(ns, ls);
      SomeLeafMarks(ns, ls, front, e);
    }
  }

  /** Splitting off the last leaf of the existential in ClosedMarksMeaning. */
  lemma SomeLeafMarks(ns: seq<Node>, ls: seq<nat>, front: seq<nat>, e: Edge)
    requires ls != [] && front == ls[..|ls| - 1]
    ensures (exists k | 0 <= k < |ls| :: MarkedBy(ns, ls[k], e)) <==>
      (exists k | 0 <= k < |front| :: MarkedBy(ns, front[k], e)) || MarkedBy(ns, ls[|ls| - 1], e)
  {
    if exists k | 0 <= k < |ls| :: MarkedBy(ns, ls[k], e) {
      var k :| 0 <= k < |ls| && MarkedBy(ns, ls[k], e);
      if k < |ls| - 1 {
        assert front[k] == ls[k];
      }
    }
    if exists k | 0 <= k < |front| :: MarkedBy(ns, front[k], e) {
      var k :| 0 <= k < |front| && MarkedBy(ns, front[k], e);
      assert ls[k] == front[k];
    }
  }

  // ---------------------------------------------------------------------
  // `visualize_tree`

  /**
   * `visualize_tree(tree, options)` on a tree whose nodes carry the line
   * numbers `ln`: the graph, or the error raised reading a missing
   * `line_number`. Renumbering by `number_nodes` happens after every node is
   * drawn, so it does not change the result.
   */
  function Visualize(ns: seq<Node>, ln: map<nat, nat>, o: Options): Result<Graph, VizError>
    requires Wf(ns)
  {
    WfShaped(ns);
    var d := DrawRoots(ns, ln, o, |ns[0].children|);
    if d.err.Some? then Err(d.err.value)
    else if o.markClosed then Ok(Graph(d.g.nodes, d.g.edges + ClosedMarks(ns, Leaves(ns))))
    else Ok(d.g)
  }

  /**
   * The drawing succeeds iff every node below the root has a readable label
   * once the root's children are numbered; it then holds every such node in
   * pre-order, the tree edges, then the marks of the closed branches.
   */
  lemma VisualizeOk(ns: seq<Node>, ln: map<nat, nat>, o: Options)
    requires Wf(ns)
    ensures Visualize(ns, ln, o).Ok? <==>
      AllLabelled(RootNumbered(ns, ln, |ns[0].children|), o, Descendants(ns))
    ensures Visualize(ns, ln, o).Ok? ==>
      && Visualize(ns, ln, o).value.nodes == Drawn(ns, RootNumbered(ns, ln, |ns[0].children|), o, Descendants(ns))
      && Visualize(ns, ln, o).value.edges
         == TreeEdges(ns, Descendants(ns)) + (if o.markClosed then ClosedMarks(ns, Leaves(ns)) else [])
  {
    WfShaped(ns);
    var m := |ns[0].children|;
    var full := RootNumbered(ns, ln, m);
    if AllLabelled(full, o, Descendants(ns)) {
      DrawRootsOk(ns, ln, o, m, m);
    } else {
      var p :| 0 <= p < |Descendants(ns)| && !Labelled(full, o, Descendants(ns)[p]);
      DrawRootsFails(ns, ln, o, m, m, Descendants(ns)[p]);
    }
  }

  /**
   * What the graph holds: each node but the root exactly once, one unmarked
   * edge into each node whose parent is not the root, from that parent, and
   * with `mark_closed_branches` a marked edge for each parent-to-child step,
   * the root's own steps left out, on the branch of a closed leaf.
   */
  lemma VisualizeDraws(ns: seq<Node>, ln: map<nat, nat>, o: Options, x: nat, e: Edge)
    requires Wf(ns) && Visualize(ns, ln, o).Ok?
    ensures var g := Visualize(ns, ln, o).value;
      && (forall p, q | 0 <= p < q < |g.nodes| :: g.nodes[p].id != g.nodes[q].id)
      && ((exists p | 0 <= p < |g.nodes| :: g.nodes[p].id == x) <==> 0 < x < |ns|)
      && (e in g.edges && !e.marked <==> !e.marked && 0 < e.to < |ns| && ns[e.to].parent == Some(e.from) && e.from != 0)
      && (e in g.edges && e.marked <==>
            o.markClosed && e.marked && e.from != 0 && e.to < |ns| && ns[e.to].parent == Some(e.from)
            && exists y | 0 <= y < |ns| :: ns[y].children == [] && ns[y].closed && OnChain(ns, e.to, y))
  {
    var m := |ns[0].children|;
    var full := RootNumbered(ns, ln, m);
    var d := Descendants(ns);
    var g := Visualize(ns, ln, o).value;
    VisualizeOk(ns, ln, o);
    DrawnAt(ns, full, o, d);
    DescendantsAreNonRoot(ns, x);
    DescendantsAreNonRoot(ns, e.to);
    forall p, q | 0 <= p < q < |g.nodes| ensures g.nodes[p].id != g.nodes[q].id {
      assert g.nodes[p].id == d[p] && g.nodes[q].id == d[q];
    }
    if x in d {
      var p :| 0 <= p < |d| && d[p] == x;
      assert g.nodes[p].id == x;
    }
    TreeEdgesMembers(ns, d, e);
    var marks := if o.markClosed then ClosedMarks(ns, Leaves(ns)) else [];
    assert g.edges == TreeEdges(ns, d) + marks;
    if e.to < |ns| && ns[e.to].parent == Some(e.from) && e.from != 0 {
      assert ParentId(ns, e.to) == e.from;
    }
    if o.markClosed {
      MarksMeaning(ns, e);
    }
  }

  /** The marks of the closed leaves, stated on the tree. */
  lemma MarksMeaning(ns: seq<Node>, e: Edge)
    requires Wf(ns)
    ensures e in ClosedMarks(ns, Leaves(ns)) <==>
      e.marked && e.from != 0 && e.to < |ns| && ns[e.to].parent == Some(e.from)
      && exists y | 0 <= y < |ns| :: ns[y].children == [] && ns[y].closed && OnChain(ns, e.to, y)
  {
    var ls := Leaves(ns);
    ClosedMarksMeaning(ns, ls, e);
    if e in ClosedMarks(ns, ls) {
      var k :| 0 <= k < |ls| && MarkedBy(ns, ls[k], e);
      ChainMarks(ns, ls[k], e);
      LeavesAreChildless(ns, ls[k]);
    }
    if e.marked && e.from != 0 && e.to < |ns| && ns[e.to].parent == Some(e.from)
      && exists y | 0 <= y < |ns| :: ns[y].children == [] && ns[y].closed && OnChain(ns, e.to, y)
    {
      var y :| 0 <= y < |ns| && ns[y].children == [] && ns[y].closed && OnChain(ns, e.to, y);
      LeavesAreChildless(ns, y);
      var k :| 0 <= k < |ls| && ls[k] == y;
      ChainMarks(ns, y, e);
      assert MarkedBy(ns, ls[k], e);
    }
  }

  // ---------------------------------------------------------------------
  // `number_nodes`

  /**
   * `after` is `before` with the nodes of `po` numbered `k + 1`, `k + 2`, ...
   * in order, and every other number left as it was.
   */
  ghost predicate Renumbered(before: map<nat, nat>, after: map<nat, nat>, po: seq<nat>, k: nat) {
    && (forall x :: x in after <==> x in before || x in po)
    && (forall p | 0 <= p < |po| :: po[p] in after && after[po[p]] == k + 1 + p)
    && (forall x | x in before && x !in po :: after[x] == before[x])
  }

  /** The numbering `number_nodes` leaves behind: one assignment per node of `po`, in order. */
  function Numbered(before: map<nat, nat>, po: seq<nat>, k: nat): map<nat, nat>
    decreases |po|
  {
    if po == [] then before else Numbered(before[po[0] := k + 1], po[1..], k + 1)
  }

  /** On a pre-order without repeats, the assignments number it `k + 1`, `k + 2`, ... and keep every other number. */
  lemma {:induction false} NumberedMeaning(before: map<nat, nat>, po: seq<nat>, k: nat)
    requires Distinct(po)
    ensures Renumbered(before, Numbered(before, po, k), po, k)
    decreases |po|
  {
    if po != [] {
      var given := before[po[0] := k + 1];
      var after := Numbered(given, po[1..], k + 1);
      assert Distinct(po[1..]) by {
        forall p, q | 0 <= p < q < |po[1..]| ensures po[1..][p] != po[1..][q] {
          assert po[1..][p] == po[p + 1] && po[1..][q] == po[q + 1];
        }
      }
      NumberedMeaning(given, po[1..], k + 1);
      assert po[0] !in po[1..] by {
        forall q | 0 <= q < |po[1..]| ensures po[1..][q] != po[0] {
          assert po[1..][q] == po[q + 1];
        }
      }
      forall x ensures x in after <==> x in before || x in po {
        if x in po && x != po[0] {
          var p :| 0 <= p < |po| && po[p] == x;
          assert po[1..][p - 1] == x;
        }
      }
      forall p | 0 <= p < |po| ensures po[p] in after && after[po[p]] == k + 1 + p {
        if p > 0 {
          assert po[p] == po[1..][p - 1];
        }
      }
    }
  }

  /** Numbering `s + t` is numbering `s` and then `t` from where `s` ended. */
  lemma {:induction false} NumberedAppend(before: map<nat, nat>, s: seq<nat>, t: seq<nat>, k: nat)
    ensures Numbered(before, s + t, k) == Numbered(Numbered(before, s, k), t, k + |s|)
    decreases |s|
  {
    if s != [] {
      assert (s + t)[0] == s[0] && (s + t)[1..] == s[1..] + t;
      NumberedAppend(before[s[0] := k + 1], s[1..], t, k + 1);
    } else {
      assert s + t == t;
    }
  }

  // ---------------------------------------------------------------------
  // Line numbers are read before they are given

  /** Numbered from scratch, the root's children are the only nodes with a number while drawing. */
  lemma FreshNumbers(ns: seq<Node>, x: nat)
    requires Shaped(ns)
    ensures x in RootNumbered(ns, map[], |ns[0].children|) <==> x in ns[0].children
  {
    var ch := ns[0].children;
    RootNumberedMeaning(ns, map[], |ch|, x);
    assert ch[..|ch|] == ch;
    if x in ch {
      var k :| 0 <= k < |ch| && ch[k] == x;
    }
  }

  /** A child of the root with a child of its own leaves that grandchild unnumbered. */
  lemma GrandchildUnnumbered(ns: seq<Node>, o: Options, k: nat)
    requires Shaped(ns) && o.showLineNumbers && k < |ns[0].children| && ns[ns[0].children[k]].children != []
    ensures !AllLabelled(RootNumbered(ns, map[], |ns[0].children|), o, Descendants(ns))
  {
    var ch := ns[0].children;
    var c := Kid(ns, 0, k);
    var x := Kid(ns, c, 0);
    assert PreOrderKids(ns, c, 1) == PreOrderFrom(ns, x);
    InPreOrderKids(ns, c, 0, |ns[c].children|, x);
    assert PreOrderFrom(ns, c) == [c] + PreOrderKids(ns, c, |ns[c].children|);
    InPreOrderKids(ns, 0, k, |ch|, x);
    FreshNumbers(ns, x);
    var d := Descendants(ns);
    var p :| 0 <= p < |d| && d[p] == x;
  }

  /** With no grandchildren, every node below the root is one of its children, all numbered. */
  lemma NoGrandchildrenNumbered(ns: seq<Node>, o: Options)
    requires Shaped(ns)
    requires forall k | 0 <= k < |ns[0].children| :: ns[ns[0].children[k]].children == []
    ensures AllLabelled(RootNumbered(ns, map[], |ns[0].children|), o, Descendants(ns))
  {
    var ch := ns[0].children;
    var d := Descendants(ns);
    forall p | 0 <= p < |d| ensures Labelled(RootNumbered(ns, map[], |ch|), o, d[p]) {
      var k := KidContaining(ns, 0, |ch|, d[p]);
      var c := Kid(ns, 0, k);
      assert PreOrderFrom(ns, c) == [c];
      FreshNumbers(ns, d[p]);
    }
  }

  /**
   * As written, on a tree fresh from `generate_truth_tree` and with line
   * numbers shown, the drawing raises unless no child of the root has a
   * child: `add_node` reads `line_number` on a grandchild of the root before
   * `number_nodes` has run.
   */
  lemma LineNumbersReadBeforeAssigned(ns: seq<Node>, o: Options)
    requires Wf(ns) && o.showLineNumbers
    ensures Visualize(ns, map[], o).Ok? <==>
      forall k | 0 <= k < |ns[0].children| :: ns[ns[0].children[k]].children == []
  {
    WfShaped(ns);
    VisualizeOk(ns, map[], o);
    if forall k | 0 <= k < |ns[0].children| :: ns[ns[0].children[k]].children == [] {
      NoGrandchildrenNumbered(ns, o);
    } else {
      var k :| 0 <= k < |ns[0].children| && ns[ns[0].children[k]].children != [];
      GrandchildUnnumbered(ns, o, k);
    }
  }

  /**
   * The drawing with `number_nodes(tree.root, len(tree.root.children))` moved
   * before the loop over the root's children: every node below the root is
   * numbered in pre-order from `len + 1`, then each child of the root is
   * renumbered `i + 1` as it is drawn.
   */
  function VisualizeNumberedFirst(ns: seq<Node>, ln: map<nat, nat>, o: Options): Result<Graph, VizError>
    requires Wf(ns)
  {
    Visualize(ns, Numbered(ln, Descendants(ns), |ns[0].children|), o)
  }

  /** The numbers shown when numbering comes first. */
  function ShownNumbers(ns: seq<Node>, ln: map<nat, nat>): map<nat, nat>
    requires Wf(ns)
  {
    RootNumbered(ns, Numbered(ln, Descendants(ns), |ns[0].children|), |ns[0].children|)
  }

  /**
   * Numbering first, the children of the root show `1..n` in order, and
   * every other node below the root its place in pre-order plus `n + 1`.
   */
  lemma ShownNumberOf(ns: seq<Node>, ln: map<nat, nat>, x: nat)
    requires Wf(ns) && 0 < x < |ns|
    ensures x in ShownNumbers(ns, ln)
    ensures x in ns[0].children ==> ShownNumbers(ns, ln)[x] == Position(ns[0].children, x) + 1
    ensures x !in ns[0].children ==>
      ShownNumbers(ns, ln)[x] == |ns[0].children| + 1 + Position(Descendants(ns), x)
  {
    var ch := ns[0].children;
    var d := Descendants(ns);
    WfShaped(ns);
    DescendantsAreNonRoot(ns, x);
    var pre := Numbered(ln, d, |ch|);
    NumberedMeaning(ln, d, |ch|);
    RootNumberedMeaning(ns, pre, |ch|, x);
    assert ch[..|ch|] == ch;
    if x in ch {
      PositionOf(ch, x);
    } else {
      PositionOf(d, x);
    }
  }

  /** The place of `x` in `s`. */
  function Position(s: seq<nat>, x: nat): nat {
    if s == [] || s[0] == x then 0 else 1 + Position(s[1..], x)
  }

  lemma {:induction false} PositionOf(s: seq<nat>, x: nat)
    requires x in s
    ensures Position(s, x) < |s| && s[Position(s, x)] == x
  {
    if s[0] != x {
      PositionOf(s[1..], x);
    }
  }

  /** Numbering first, no two nodes below the root show the same number. */
  lemma ShownNumbersDistinct(ns: seq<Node>, ln: map<nat, nat>, x: nat, y: nat)
    requires Wf(ns) && 0 < x < |ns| && 0 < y < |ns| && x != y
    ensures x in ShownNumbers(ns, ln) && y in ShownNumbers(ns, ln)
    ensures ShownNumbers(ns, ln)[x] != ShownNumbers(ns, ln)[y]
  {
    var ch := ns[0].children;
    var d := Descendants(ns);
    ShownNumberOf(ns, ln, x);
    ShownNumberOf(ns, ln, y);
    DescendantsAreNonRoot(ns, x);
    DescendantsAreNonRoot(ns, y);
    NumbersApart(ch, d, ShownNumbers(ns, ln), x, y);
  }

  /** Premises numbered by their place among the premises and the rest by their place after them never collide. */
  lemma NumbersApart(ch: seq<nat>, d: seq<nat>, shown: map<nat, nat>, x: nat, y: nat)
    requires x in shown && y in shown && x in d && y in d && x != y
    requires x in ch ==> shown[x] == Position(ch, x) + 1
    requires x !in ch ==> shown[x] == |ch| + 1 + Position(d, x)
    requires y in ch ==> shown[y] == Position(ch, y) + 1
    requires y !in ch ==> shown[y] == |ch| + 1 + Position(d, y)
    ensures shown[x] != shown[y]
  {
    PositionOf(d, x);
    PositionOf(d, y);
    if x in ch {
      PositionOf(ch, x);
    }
    if y in ch {
      PositionOf(ch, y);
    }
  }

  /** Numbering first, the drawing never raises, and it shows those numbers. */
  lemma NumberedFirstNeverFails(ns: seq<Node>, ln: map<nat, nat>, o: Options)
    requires Wf(ns)
    ensures VisualizeNumberedFirst(ns, ln, o).Ok?
    ensures VisualizeNumberedFirst(ns, ln, o).value.nodes == Drawn(ns, ShownNumbers(ns, ln), o, Descendants(ns))
  {
    var d := Descendants(ns);
    DescendantsAreNonRoot(ns, 0);
    var pre := Numbered(ln, d, |ns[0].children|);
    forall p | 0 <= p < |d| ensures d[p] in ShownNumbers(ns, ln) {
      DescendantsAreNonRoot(ns, d[p]);
      ShownNumberOf(ns, ln, d[p]);
    }
    VisualizeOk(ns, pre, o);
  }

  // ---------------------------------------------------------------------
  // The drawing, step by step

  /** A raised error ends the loop over the children: later passes do nothing. */
  lemma {:induction false} EmitKidsSticky(ns: seq<Node>, ln: map<nat, nat>, o: Options, i: nat, j: nat, m: nat, g: Graph)
    requires Shaped(ns) && 0 < i < |ns| && j <= m <= |ns[i].children| && EmitKids(ns, ln, o, i, j, g).err.Some?
    ensures EmitKids(ns, ln, o, i, m, g) == EmitKids(ns, ln, o, i, j, g)
    decreases m
  {
    if m > j {
      EmitKidsSticky(ns, ln, o, i, j, m - 1, g);
    }
  }

  lemma {:induction false} DrawRootsSticky(ns: seq<Node>, ln: map<nat, nat>, o: Options, j: nat, m: nat)
    requires Shaped(ns) && j <= m <= |ns[0].children| && DrawRoots(ns, ln, o, j).err.Some?
    ensures DrawRoots(ns, ln, o, m) == DrawRoots(ns, ln, o, j)
    decreases m
  {
    if m > j {
      DrawRootsSticky(ns, ln, o, j, m - 1);
    }
  }

  /** Numbering `s1`, then `c`, then `s2`, numbers `s1 + [c] + s2` in one go. */
  /** Numbering child `j` of `i` and then its subtree extends the numbering of the first `j` subtrees. */
  lemma NumberedKid(ns: seq<Node>, i: nat, j: nat, a: map<nat, nat>, k: nat, before: map<nat, nat>, m: nat)
    requires Ordered(ns) && i < |ns| && j < |ns[i].children|
    requires before == Numbered(a, PreOrderKids(ns, i, j), k) && m == k + |PreOrderKids(ns, i, j)| + 1
    ensures var c := Kid(ns, i, j);
      && Numbered(a, PreOrderKids(ns, i, j + 1), k) == Numbered(before[c := m], PreOrderKids(ns, c, |ns[c].children|), m)
      && |PreOrderKids(ns, i, j + 1)| == m + |PreOrderKids(ns, c, |ns[c].children|)| - k
  {
    var c := Kid(ns, i, j);
    var front := PreOrderKids(ns, i, j);
    var below := PreOrderKids(ns, c, |ns[c].children|);
    assert PreOrderKids(ns, i, j + 1) == front + ([c] + below);
    NumberedAppend(a, front, [c] + below, k);
    assert ([c] + below)[1..] == below;
  }

  /** The `while current.parent` loop: the path from `leaf` up to, but not including, the root. */
  method ClosedPath(ns: seq<Node>, leaf: nat) returns (path: seq<nat>)
    requires Wf(ns) && leaf < |ns|
    ensures path == ChainUp(ns, leaf)
  {
    path := [];
    var current: nat := leaf;
    while ns[current].parent.Some?
      invariant current < |ns| && path + ChainUp(ns, current) == ChainUp(ns, leaf)
      decreases current
    {
      assert current != 0 && ns[current].parent.value < current;
      ghost var up := ChainUp(ns, ns[current].parent.value);
      assert ChainUp(ns, current) == [current] + up;
      assert path + [current] + up == path + ([current] + up);
      path := path + [current];
      current := ns[current].parent.value;
    }
    assert current == 0;
    assert path + [] == path;
  }

  /**
   * The label `add_node` builds for node `i`: the parts collected in a list,
   * joined by spaces, then the rule note.
   */
  method NodeLabel(ns: seq<Node>, ln: map<nat, nat>, o: Options, i: nat) returns (r: Result<string, VizError>)
    requires i < |ns| && ns[i].formula.Some?
    ensures r == Label(ns, ln, o, i)
  {
    var parts: seq<string> := [];
    if o.showLineNumbers {
      if i !in ln {
        return Err(NoLineNumber(i));
      }
      parts := parts + [Decimal(ln[i]) + ". "];
    }
    ghost var number := parts;
    assert Labelled(ln, o, i) && number == if o.showLineNumbers then [Decimal(ln[i]) + ". "] else [];
    parts := parts + [Shown(o, ns[i].formula.value)];
    if ns[i].closed {
      parts := parts + [" ×"];
    }
    assert parts == number + [Shown(o, ns[i].formula.value)] + (if ns[i].closed then [" ×"] else []);
    var text := JoinSpace(parts);
    text := text + RuleNote(o, ns[i].rule);
    r := Ok(text);
  }

  /**
   * The state `visualize_tree` works on: the `line_number` attributes of the
   * tree's nodes, and the nodes and edges given to its `Digraph`.
   */
  class Canvas {
    var lineNo: map<nat, nat>
    var nodes: seq<GNode>
    var edges: seq<Edge>

    /** A canvas over a tree whose nodes carry the line numbers `ln`. */
    constructor (ln: map<nat, nat>)
      ensures lineNo == ln && nodes == [] && edges == []
    {
      lineNo := ln;
      nodes := [];
      edges := [];
    }

    /**
     * `number_nodes(node, current_number)` on node `i`: the nodes below it
     * are numbered in pre-order from `k + 1`, and the last number given is
     * returned.
     */
    method NumberNodes(ns: seq<Node>, i: nat, k: nat) returns (m: nat)
      requires Ordered(ns) && i < |ns|
      modifies this
      ensures lineNo == Numbered(old(lineNo), PreOrderKids(ns, i, |ns[i].children|), k)
      ensures m == k + |PreOrderKids(ns, i, |ns[i].children|)|
      ensures nodes == old(nodes) && edges == old(edges)
      decreases |ns| - i
    {
      m := k;
      assert PreOrderKids(ns, i, 0) == [];
      for j := 0 to |ns[i].children|
        invariant lineNo == Numbered(old(lineNo), PreOrderKids(ns, i, j), k)
        invariant m == k + |PreOrderKids(ns, i, j)|
        invariant nodes == old(nodes) && edges == old(edges)
      {
        var child := Kid(ns, i, j);
        m := m + 1;
        NumberedKid(ns, i, j, old(lineNo), k, lineNo, m);
        lineNo := lineNo[child := m];
        m := NumberNodes(ns, child, m);
      }
    }

    /** `add_node(node, parent_id)` on node `i`. */
    method AddNode(ns: seq<Node>, o: Options, i: nat, parent: Option<nat>) returns (err: Option<VizError>)
      requires Shaped(ns) && 0 < i < |ns|
      modifies this
      ensures Outcome(Graph(nodes, edges), err) == Emit(ns, lineNo, o, i, parent, Graph(old(nodes), old(edges)))
      ensures lineNo == old(lineNo)
      decreases |ns| - i
    {
      assert ns[i].formula.Some? && ns[i].parent.Some?;
      var named := NodeLabel(ns, lineNo, o, i);
      if named.Err? {
        return Some(named.error);
      }
      nodes := nodes + [GNode(i, named.value)];
      edges := edges + ParentEdge(parent, i);
      ghost var g1 := Graph(nodes, edges);
      assert EmitKids(ns, lineNo, o, i, 0, g1) == Outcome(g1, None);
      for j := 0 to |ns[i].children|
        invariant EmitKids(ns, lineNo, o, i, j, g1) == Outcome(Graph(nodes, edges), None)
        invariant lineNo == old(lineNo)
      {
        err := AddNode(ns, o, Kid(ns, i, j), Some(i));
        if err.Some? {
          EmitKidsSticky(ns, lineNo, o, i, j + 1, |ns[i].children|, g1);
          return;
        }
      }
      err := None;
    }

    /** The `mark_closed_branches` loop: a marked edge for each step up the path of each closed leaf. */
    method MarkClosedBranches(ns: seq<Node>)
      requires Wf(ns)
      modifies this
      ensures edges == old(edges) + ClosedMarks(ns, Leaves(ns))
      ensures nodes == old(nodes) && lineNo == old(lineNo)
    {
      var leaves := Leaves(ns);
      for t := 0 to |leaves|
        invariant edges == old(edges) + ClosedMarks(ns, leaves[..t])
        invariant nodes == old(nodes) && lineNo == old(lineNo)
      {
        ClosedMarksSnoc(ns, leaves, t);
        MarkLeaf(ns, leaves[t]);
        SeqAssoc(old(edges), ClosedMarks(ns, leaves[..t]),
          if ns[leaves[t]].closed then PathEdges(ChainUp(ns, leaves[t])) else []);
      }
      assert leaves[..|leaves|] == leaves;
    }

    /** The body of the `for leaf in tree.get_leaves()` loop. */
    method MarkLeaf(ns: seq<Node>, leaf: nat)
      requires Wf(ns) && leaf < |ns|
      modifies this
      ensures edges == old(edges) + (if ns[leaf].closed then PathEdges(ChainUp(ns, leaf)) else [])
      ensures nodes == old(nodes) && lineNo == old(lineNo)
    {
      if ns[leaf].closed {
        var path := ClosedPath(ns, leaf);
        MarkPath(path);
      } else {
        assert edges == edges + [];
      }
    }

    /** The inner `for i in range(len(path) - 1)` loop: one marked edge per step up `path`. */
    method MarkPath(path: seq<nat>)
      modifies this
      ensures edges == old(edges) + PathEdges(path)
      ensures nodes == old(nodes) && lineNo == old(lineNo)
    {
      ghost var e0 := edges;
      var q := 0;
      while q + 1 < |path|
        invariant |path| == 0 ==> q == 0 && edges == e0
        invariant |path| > 0 ==> q < |path| && edges == e0 + PathEdges(path[..q + 1])
        invariant nodes == old(nodes) && lineNo == old(lineNo)
      {
        PathEdgesSnoc(path[..q + 2]);
        assert path[..q + 2][..q + 1] == path[..q + 1];
        edges := edges + [Edge(path[q + 1], path[q], true)];
        q := q + 1;
      }
      if |path| > 0 {
        assert path[..q + 1] == path;
      }
    }

    /**
     * `visualize_tree(tree, options)`: draw the root's children, numbering
     * each just before, then renumber every node below the root, then mark
     * the closed branches.
     */
    method VisualizeTree(ns: seq<Node>, o: Options) returns (r: Result<Graph, VizError>)
      requires Wf(ns)
      modifies this
      ensures r == Visualize(ns, old(lineNo), o)
      ensures r.Ok? ==>
        lineNo == Numbered(RootNumbered(ns, old(lineNo), |ns[0].children|), Descendants(ns), |ns[0].children|)
      ensures r.Err? ==> exists j | 1 <= j <= |ns[0].children| :: lineNo == RootNumbered(ns, old(lineNo), j)
    {
      WfShaped(ns);
      nodes, edges := [], [];
      var err := DrawRootChildren(ns, o);
      if err.Some? {
        return Err(err.value);
      }
      var _ := NumberNodes(ns, 0, |ns[0].children|);
      if o.markClosed {
        MarkClosedBranches(ns);
      }
      r := Ok(Graph(nodes, edges));
    }

    /** The loop over the root's children: number each one, then draw the subtree below it. */
    method DrawRootChildren(ns: seq<Node>, o: Options) returns (err: Option<VizError>)
      requires Shaped(ns) && nodes == [] && edges == []
      modifies this
      ensures Outcome(Graph(nodes, edges), err) == DrawRoots(ns, old(lineNo), o, |ns[0].children|)
      ensures err.None? ==> lineNo == RootNumbered(ns, old(lineNo), |ns[0].children|)
      ensures err.Some? ==> exists j | 1 <= j <= |ns[0].children| :: lineNo == RootNumbered(ns, old(lineNo), j)
    {
      for j := 0 to |ns[0].children|
        invariant lineNo == RootNumbered(ns, old(lineNo), j)
        invariant DrawRoots(ns, old(lineNo), o, j) == Outcome(Graph(nodes, edges), None)
      {
        var child := Kid(ns, 0, j);
        lineNo := lineNo[child := j + 1];
        err := AddNode(ns, o, child, None);
        if err.Some? {
          DrawRootsSticky(ns, old(lineNo), o, j + 1, |ns[0].children|);
          assert lineNo == RootNumbered(ns, old(lineNo), j + 1);
          return;
        }
      }
      err := None;
    }
  }
}
