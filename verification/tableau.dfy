/**
 * truth_tree_generator/logic/truth_tree.py: the truth tree as a mutable tree
 * of `TreeNode`s with parent links.
 *
 * The nodes live in an arena `seq<Node>`; a node's index stands for its
 * object identity, `parent` and `children` hold indices, and the root (the
 * `TreeNode(None)` that `generate_truth_tree` creates) is index 0. The
 * specification functions take the arena as a value so that lemmas can
 * relate the arena before and after a step; `TruthTree` holds the arena as
 * a field that its methods update in place.
 */
module Tableau {
  import opened Results
  import opened Prop

  datatype Node = Node(
    formula: Option<Prop>,
    parent: Option<nat>,
    children: seq<nat>,
    closed: bool,
    rule: Option<string>)

  /** `TreeNode(None)`: no formula, no parent, no children, open, no rule. */
  const RootNode := Node(None, None, [], false, None)

  predicate Distinct(s: seq<nat>) {
    forall j, k | 0 <= j < k < |s| :: s[j] != s[k]
  }

  /**
   * The shape every tree built by the module has: the root is index 0 and the
   * only node without a formula; every other node has a formula and an older
   * parent that lists it among its children; children are younger than their
   * parent, point back to it and are listed once.
   */
  predicate Wf(ns: seq<Node>) {
    && |ns| > 0
    && ns[0].formula.None? && ns[0].parent.None?
    && ParentsLinked(ns) && ChildrenLinked(ns) && ChildrenDistinct(ns)
  }

  predicate ParentsLinked(ns: seq<Node>) {
    forall x {:trigger ns[x].parent} | 0 < x < |ns| ::
      ns[x].formula.Some? && ns[x].parent.Some? && ns[x].parent.value < x
      && x in ns[ns[x].parent.value].children
  }

  predicate ChildrenLinked(ns: seq<Node>) {
    forall x, j | 0 <= x < |ns| && 0 <= j < |ns[x].children| ::
      x < ns[x].children[j] < |ns| && ns[ns[x].children[j]].parent == Some(x)
  }

  predicate ChildrenDistinct(ns: seq<Node>) {
    forall x {:trigger ns[x].children} | 0 <= x < |ns| :: Distinct(ns[x].children)
  }

  /** `parent.add_child(TreeNode(f, rule=rule))` on a fresh node. */
  function WithChild(ns: seq<Node>, p: nat, f: Prop, rule: Option<string>): (r: seq<Node>)
    requires p < |ns|
    ensures |r| == |ns| + 1
  {
    ns[p := ns[p].(children := ns[p].children + [|ns|])] + [Node(Some(f), Some(p), [], false, rule)]
  }

  /**
   * `add_child` appends the new node as the last child of `p` and makes `p`
   * its parent; every other node, and every other field of `p`, is unchanged.
   */
  lemma WithChildFacts(ns: seq<Node>, p: nat, f: Prop, rule: Option<string>)
    requires Wf(ns) && p < |ns|
    ensures var r := WithChild(ns, p, f, rule);
      && Wf(r)
      && r[p].children == ns[p].children + [|ns|]
      && r[p].formula == ns[p].formula && r[p].parent == ns[p].parent
      && r[p].closed == ns[p].closed && r[p].rule == ns[p].rule
      && r[|ns|] == Node(Some(f), Some(p), [], false, rule)
      && forall x | 0 <= x < |ns| && x != p :: r[x] == ns[x]
  {
    WithChildShape(ns, p, f, rule);
    WithChildParents(ns, p, f, rule);
    WithChildChildren(ns, p, f, rule);
    WithChildDistinct(ns, p, f, rule);
  }

  lemma WithChildShape(ns: seq<Node>, p: nat, f: Prop, rule: Option<string>)
    requires p < |ns|
    ensures var r := WithChild(ns, p, f, rule);
      && r[p] == ns[p].(children := ns[p].children + [|ns|])
      && r[|ns|] == Node(Some(f), Some(p), [], false, rule)
      && forall x | 0 <= x < |ns| && x != p :: r[x] == ns[x]
  {
  }

  /** Changing only `closed` and `rule` flags keeps the shape. */
  lemma SameShapeWf(ns: seq<Node>, r: seq<Node>)
    requires Wf(ns) && |r| == |ns|
    requires forall x | 0 <= x < |ns| ::
      r[x].formula == ns[x].formula && r[x].parent == ns[x].parent && r[x].children == ns[x].children
    ensures Wf(r)
  {
    assert ParentsLinked(r) by {
      forall x | 0 < x < |r|
        ensures r[x].formula.Some? && r[x].parent.Some? && r[x].parent.value < x
             && x in r[r[x].parent.value].children
      {
        assert ns[x].parent.value < x;
      }
    }
    assert ChildrenLinked(r) by {
      forall x, j | 0 <= x < |r| && 0 <= j < |r[x].children|
        ensures x < r[x].children[j] < |r| && r[r[x].children[j]].parent == Some(x)
      {
        assert r[x].children[j] == ns[x].children[j];
      }
    }
    assert ChildrenDistinct(r) by {
      forall x | 0 <= x < |r| ensures Distinct(r[x].children) {
        assert r[x].children == ns[x].children;
      }
    }
  }

  lemma WithChildParents(ns: seq<Node>, p: nat, f: Prop, rule: Option<string>)
    requires Wf(ns) && p < |ns|
    ensures ParentsLinked(WithChild(ns, p, f, rule))
  {
    var r := WithChild(ns, p, f, rule);
    forall x | 0 < x < |r|
      ensures r[x].formula.Some? && r[x].parent.Some? && r[x].parent.value < x
           && x in r[r[x].parent.value].children
    {
      if x < |ns| {
        assert ns[x].parent.value < x;
        if ns[x].parent.value == p {
          assert r[p].children == ns[p].children + [|ns|];
        }
      } else {
        assert r[p].children[|r[p].children| - 1] == x;
      }
    }
  }

  lemma WithChildChildren(ns: seq<Node>, p: nat, f: Prop, rule: Option<string>)
    requires Wf(ns) && p < |ns|
    ensures ChildrenLinked(WithChild(ns, p, f, rule))
  {
    var r := WithChild(ns, p, f, rule);
    forall x, j | 0 <= x < |r| && 0 <= j < |r[x].children|
      ensures x < r[x].children[j] < |r| && r[r[x].children[j]].parent == Some(x)
    {
      if x == p && j == |ns[p].children| {
        assert r[x].children[j] == |ns|;
      } else {
        assert x < |ns| && r[x].children[j] == ns[x].children[j];
      }
    }
  }

  lemma WithChildDistinct(ns: seq<Node>, p: nat, f: Prop, rule: Option<string>)
    requires Wf(ns) && p < |ns|
    ensures ChildrenDistinct(WithChild(ns, p, f, rule))
  {
    var r := WithChild(ns, p, f, rule);
    forall x | 0 <= x < |r| ensures Distinct(r[x].children) {
      if x == p {
        AppendFreshDistinct(ns, p);
      } else if x < |ns| {
        assert r[x] == ns[x];
      }
    }
  }

  lemma AppendFreshDistinct(ns: seq<Node>, p: nat)
    requires Wf(ns) && p < |ns|
    ensures Distinct(ns[p].children + [|ns|])
  {
    var cs := ns[p].children;
    assert Distinct(cs);
    forall j | 0 <= j < |cs| ensures cs[j] != |ns| {
    }
  }

  /** The `j`-th child of `i`, with what `Wf` says about it. */
  function Child(ns: seq<Node>, i: nat, j: nat): (c: nat)
    requires Wf(ns) && i < |ns| && j < |ns[i].children|
    ensures i < c < |ns| && ns[c].parent == Some(i) && c in ns[i].children && c == ns[i].children[j]
  {
    ns[i].children[j]
  }

  // ---------------------------------------------------------------------
  // Leaves: `TruthTree.get_leaves`

  /** `collect_leaves(i)`: `[i]` for a childless node, else its children's leaves in order. */
  function LeavesFrom(ns: seq<Node>, i: nat): (r: seq<nat>)
    requires Wf(ns) && i < |ns|
    decreases |ns| - i, 1, 0
  {
    if ns[i].children == [] then [i] else LeavesOfChildren(ns, i, |ns[i].children|)
  }

  /** The leaves below the first `j` children of `i`, in order. */
  function LeavesOfChildren(ns: seq<Node>, i: nat, j: nat): (r: seq<nat>)
    requires Wf(ns) && i < |ns| && j <= |ns[i].children|
    decreases |ns| - i, 0, j
  {
    if j == 0 then [] else LeavesOfChildren(ns, i, j - 1) + LeavesFrom(ns, Child(ns, i, j - 1))
  }

  function Leaves(ns: seq<Node>): (r: seq<nat>)
    requires Wf(ns)
    ensures Below(ns, r)
  {
    LeavesBelow(ns);
    LeavesFrom(ns, 0)
  }

  lemma LeavesBelow(ns: seq<Node>)
    requires Wf(ns)
    ensures Below(ns, LeavesFrom(ns, 0))
  {
    forall k | 0 <= k < |LeavesFrom(ns, 0)| ensures LeavesFrom(ns, 0)[k] < |ns| {
      LeavesFromSound(ns, 0, LeavesFrom(ns, 0)[k]);
    }
  }

  /** `a` is `x` or one of its ancestors. */
  predicate OnChain(ns: seq<Node>, a: nat, x: nat)
    requires Wf(ns) && x < |ns|
    decreases x
  {
    a == x || (x > 0 && OnChain(ns, a, ns[x].parent.value))
  }

  lemma {:induction false} RootOnEveryChain(ns: seq<Node>, x: nat)
    requires Wf(ns) && x < |ns|
    ensures OnChain(ns, 0, x)
    decreases x
  {
    if x > 0 {
      RootOnEveryChain(ns, ns[x].parent.value);
    }
  }

  /** Everything `collect_leaves(i)` returns is a childless node below `i`. */
  lemma {:induction false} LeavesFromSound(ns: seq<Node>, i: nat, x: nat)
    requires Wf(ns) && i < |ns| && x in LeavesFrom(ns, i)
    ensures x < |ns| && ns[x].children == [] && OnChain(ns, i, x)
    decreases |ns| - i
  {
    if ns[i].children != [] {
      var j := ChildContaining(ns, i, |ns[i].children|, x);
      var c := Child(ns, i, j);
      LeavesFromSound(ns, c, x);
      ChainStepUp(ns, c, x);
    }
  }

  /** Which child's leaves an element of `LeavesOfChildren(ns, i, j)` came from. */
  lemma {:induction false} ChildContaining(ns: seq<Node>, i: nat, j: nat, x: nat) returns (k: nat)
    requires Wf(ns) && i < |ns| && j <= |ns[i].children| && x in LeavesOfChildren(ns, i, j)
    ensures k < j && x in LeavesFrom(ns, Child(ns, i, k))
  {
    var front := LeavesOfChildren(ns, i, j - 1);
    var back := LeavesFrom(ns, Child(ns, i, j - 1));
    assert LeavesOfChildren(ns, i, j) == front + back;
    if x in back {
      k := j - 1;
    } else {
      assert x in front;
      k := ChildContaining(ns, i, j - 1, x);
    }
  }

  /** The chain of `x` is closed under taking parents. */
  lemma {:induction false} ChainStepUp(ns: seq<Node>, a: nat, x: nat)
    requires Wf(ns) && x < |ns| && a < |ns| && a > 0 && OnChain(ns, a, x)
    ensures OnChain(ns, ns[a].parent.value, x)
    decreases x
  {
    if a != x {
      ChainStepUp(ns, a, ns[x].parent.value);
    }
  }

  /** Every childless node below `i` is among the leaves `collect_leaves(i)` returns. */
  lemma {:induction false} LeavesFromComplete(ns: seq<Node>, i: nat, x: nat)
    requires Wf(ns) && i < |ns| && x < |ns| && ns[x].children == [] && OnChain(ns, i, x)
    ensures x in LeavesFrom(ns, i)
    decreases |ns| - i
  {
    if x != i {
      var c := ChildToward(ns, i, x);
      var j :| 0 <= j < |ns[i].children| && ns[i].children[j] == c;
      assert c == Child(ns, i, j);
      LeavesFromComplete(ns, c, x);
      InLeavesOfChildren(ns, i, j, |ns[i].children|, x);
    } else {
      assert ns[i].children == [];
    }
  }

  lemma {:induction false} InLeavesOfChildren(ns: seq<Node>, i: nat, j: nat, m: nat, x: nat)
    requires Wf(ns) && i < |ns| && j < m <= |ns[i].children|
    requires x in LeavesFrom(ns, Child(ns, i, j))
    ensures x in LeavesOfChildren(ns, i, m)
    decreases m
  {
    var front := LeavesOfChildren(ns, i, m - 1);
    var back := LeavesFrom(ns, Child(ns, i, m - 1));
    assert LeavesOfChildren(ns, i, m) == front + back;
    if j < m - 1 {
      InLeavesOfChildren(ns, i, j, m - 1, x);
      assert x in front;
    } else {
      assert x in back;
    }
  }

  /** The node on the chain of `x` whose parent is `i`. */
  lemma {:induction false} ChildToward(ns: seq<Node>, i: nat, x: nat) returns (c: nat)
    requires Wf(ns) && i < |ns| && x < |ns| && i != x && OnChain(ns, i, x)
    ensures c < |ns| && c in ns[i].children && OnChain(ns, c, x)
    decreases x
  {
    var p := ns[x].parent.value;
    if p == i {
      c := x;
    } else {
      c := ChildToward(ns, i, p);
      ChainExtend(ns, c, p, x);
    }
  }

  lemma ChainExtend(ns: seq<Node>, a: nat, p: nat, x: nat)
    requires Wf(ns) && 0 < x < |ns| && p == ns[x].parent.value && OnChain(ns, a, p)
    ensures OnChain(ns, a, x)
  {
  }

  /**
   * `get_leaves` returns exactly the childless nodes of the tree.
   */
  lemma LeavesAreChildless(ns: seq<Node>, x: nat)
    requires Wf(ns)
    ensures x in Leaves(ns) <==> x < |ns| && ns[x].children == []
  {
    if x in Leaves(ns) {
      LeavesFromSound(ns, 0, x);
    }
    if x < |ns| && ns[x].children == [] {
      RootOnEveryChain(ns, x);
      LeavesFromComplete(ns, 0, x);
    }
  }

  /** A lone root is its own only leaf. */
  lemma LoneRootIsLeaf()
    ensures Wf([RootNode]) && Leaves([RootNode]) == [0]
  {
  }

  lemma {:induction false} ChainBelow(ns: seq<Node>, a: nat, x: nat)
    requires Wf(ns) && x < |ns| && OnChain(ns, a, x)
    ensures a <= x
    decreases x
  {
    if a != x {
      ChainBelow(ns, a, ns[x].parent.value);
    }
  }

  /** Two children of `i` on the chain of `x` are the same node. */
  lemma {:induction false} ChainChildUnique(ns: seq<Node>, i: nat, c1: nat, c2: nat, x: nat)
    requires Wf(ns) && x < |ns| && 0 < c1 < |ns| && 0 < c2 < |ns|
    requires ns[c1].parent == Some(i) && ns[c2].parent == Some(i)
    requires OnChain(ns, c1, x) && OnChain(ns, c2, x)
    ensures c1 == c2
    decreases x
  {
    if x == c1 {
      if c2 != x {
        ChainBelow(ns, c2, i);
      }
    } else if x == c2 {
      ChainBelow(ns, c1, i);
    } else {
      ChainChildUnique(ns, i, c1, c2, ns[x].parent.value);
    }
  }

  lemma DistinctAppend(a: seq<nat>, b: seq<nat>)
    requires Distinct(a) && Distinct(b)
    requires forall x | x in a :: x !in b
    ensures Distinct(a + b)
  {
    forall j, k | 0 <= j < k < |a + b| ensures (a + b)[j] != (a + b)[k] {
      if j < |a| && k >= |a| {
        assert (a + b)[j] in a && (a + b)[k] == b[k - |a|];
      }
    }
  }

  /** `collect_leaves` lists every leaf once. */
  lemma {:induction false} LeavesFromDistinct(ns: seq<Node>, i: nat)
    requires Wf(ns) && i < |ns|
    ensures Distinct(LeavesFrom(ns, i))
    decreases |ns| - i, 1
  {
    if ns[i].children != [] {
      LeavesOfChildrenDistinct(ns, i, |ns[i].children|);
    }
  }

  lemma {:induction false} LeavesOfChildrenDistinct(ns: seq<Node>, i: nat, j: nat)
    requires Wf(ns) && i < |ns| && j <= |ns[i].children|
    ensures Distinct(LeavesOfChildren(ns, i, j))
    decreases |ns| - i, 0, j
  {
    if j > 0 {
      var c := Child(ns, i, j - 1);
      var front := LeavesOfChildren(ns, i, j - 1);
      var back := LeavesFrom(ns, c);
      LeavesOfChildrenDistinct(ns, i, j - 1);
      LeavesFromDistinct(ns, c);
      forall x | x in front ensures x !in back {
        LeafNotUnderLaterChild(ns, i, j, x);
      }
      DistinctAppend(front, back);
      assert LeavesOfChildren(ns, i, j) == front + back;
    }
  }

  /** A leaf under one of the first `j - 1` children is not under child `j - 1`. */
  lemma LeafNotUnderLaterChild(ns: seq<Node>, i: nat, j: nat, x: nat)
    requires Wf(ns) && i < |ns| && 0 < j <= |ns[i].children|
    requires x in LeavesOfChildren(ns, i, j - 1)
    ensures x !in LeavesFrom(ns, Child(ns, i, j - 1))
  {
    var c := Child(ns, i, j - 1);
    var k := ChildContaining(ns, i, j - 1, x);
    var ck := Child(ns, i, k);
    assert ck != c by {
      assert Distinct(ns[i].children) && k < j - 1;
    }
    if x in LeavesFrom(ns, c) {
      LeavesFromSound(ns, ck, x);
      LeavesFromSound(ns, c, x);
      ChainChildUnique(ns, i, ck, c, x);
    }
  }

  // ---------------------------------------------------------------------
  // Decomposition rules: `decompose_node`

  /**
   * What `decompose_node` adds below a node holding `f`: two sibling children
   * (`Branch`), a child with a grandchild (`Stack`), one child (`Single`), or
   * nothing (`NoRule`: an atom, a negated atom, a negated biconditional).
   * `sym` is the rule label the children are tagged with.
   */
  datatype Expansion =
    | NoRule
    | Single(a: Prop, sym: string)
    | Branch(a: Prop, b: Prop, sym: string)
    | Stack(a: Prop, b: Prop, sym: string)

  function Rule(f: Prop): Expansion {
    match f
    case And(l, r) => Stack(l, r, "∧")
    case Or(l, r) => Branch(l, r, "∨")
    case Implies(l, r) => Branch(Not(l), r, "→")
    case Iff(l, r) => Stack(Implies(l, r), Implies(r, l), "↔")
    case Not(Not(g)) => Single(g, "¬¬")
    case Not(And(l, r)) => Branch(Not(l), Not(r), "¬∧")
    case Not(Or(l, r)) => Stack(Not(l), Not(r), "¬∨")
    case Not(Implies(l, r)) => Stack(l, Not(r), "¬→")
    case _ => NoRule
  }

  /**
   * Every rule is truth-preserving in both directions: a node is true exactly
   * when one branch is (`Branch`), when both stacked formulas are (`Stack`),
   * or when its single child is (`Single`).
   */
  lemma RuleSound(v: set<char>, f: Prop)
    ensures Rule(f).Single? ==> (Eval(v, f) <==> Eval(v, Rule(f).a))
    ensures Rule(f).Branch? ==> (Eval(v, f) <==> Eval(v, Rule(f).a) || Eval(v, Rule(f).b))
    ensures Rule(f).Stack? ==> (Eval(v, f) <==> Eval(v, Rule(f).a) && Eval(v, Rule(f).b))
  {
  }

  /** Exactly atoms, negated atoms and negated biconditionals have no rule. */
  lemma NoRuleCases(f: Prop)
    ensures Rule(f).NoRule? <==> f.Atom? || (f.Not? && (f.arg.Atom? || f.arg.Iff?))
  {
  }

  /**
   * The formulas a rule leaves as new leaves are lighter than the node
   * decomposed: the weighted sum over leaves falls with every rule.
   */
  lemma RuleLighterNegated(f: Prop)
    requires f.Not?
    ensures Rule(f).Single? ==> Pow3(Weight(Rule(f).a)) < Pow3(Weight(f))
    ensures Rule(f).Branch? ==> Pow3(Weight(Rule(f).a)) + Pow3(Weight(Rule(f).b)) < Pow3(Weight(f))
    ensures Rule(f).Stack? ==> Pow3(Weight(Rule(f).b)) < Pow3(Weight(f))
  {
    match f.arg
    case Not(h) =>
      assert Rule(f) == Single(h, "¬¬");
      Pow3Monotone(Weight(h), Weight(f) - 1);
    case And(l, r) =>
      assert Rule(f) == Branch(Not(l), Not(r), "¬∧");
      TwoLighter(Weight(Not(l)), Weight(Not(r)), Weight(f));
    case Or(l, r) =>
      assert Rule(f) == Stack(Not(l), Not(r), "¬∨");
      Pow3Monotone(Weight(Not(r)), Weight(f) - 1);
    case Implies(l, r) =>
      assert Rule(f) == Stack(l, Not(r), "¬→");
      Pow3Monotone(Weight(Not(r)), Weight(f) - 1);
    case Atom(_) =>
    case Iff(_, _) =>
  }

  lemma RuleLighter(f: Prop)
    ensures Rule(f).Single? ==> Pow3(Weight(Rule(f).a)) < Pow3(Weight(f))
    ensures Rule(f).Branch? ==> Pow3(Weight(Rule(f).a)) + Pow3(Weight(Rule(f).b)) < Pow3(Weight(f))
    ensures Rule(f).Stack? ==> Pow3(Weight(Rule(f).b)) < Pow3(Weight(f))
  {
    match f
    case Atom(_) =>
    case And(l, r) =>
      assert Rule(f) == Stack(l, r, "∧");
      Pow3Monotone(Weight(r), Weight(f) - 1);
    case Or(l, r) =>
      assert Rule(f) == Branch(l, r, "∨");
      TwoLighter(Weight(l), Weight(r), Weight(f));
    case Implies(l, r) =>
      assert Rule(f) == Branch(Not(l), r, "→");
      TwoLighter(Weight(Not(l)), Weight(r), Weight(f));
    case Iff(l, r) =>
      assert Rule(f) == Stack(Implies(l, r), Implies(r, l), "↔");
      Pow3Monotone(Weight(Implies(r, l)), Weight(f) - 1);
    case Not(g) => RuleLighterNegated(f);
  }

  /** The arena after `decompose_node(ns[i])`. */
  function Decompose(ns: seq<Node>, i: nat): (r: seq<Node>)
    requires Wf(ns) && i < |ns|
    ensures Wf(r) && |r| >= |ns|
  {
    if ns[i].formula.None? then ns
    else match Rule(ns[i].formula.value)
      case NoRule => ns
      case Single(a, s) =>
        WithChildFacts(ns, i, a, Some(s));
        WithChild(ns, i, a, Some(s))
      case Branch(a, b, s) =>
        BranchedWf(ns, i, a, b, s);
        Branched(ns, i, a, b, s)
      case Stack(a, b, s) =>
        StackedWf(ns, i, a, b, s);
        Stacked(ns, i, a, b, s)
  }

  /** Two children side by side under `i`. */
  function Branched(ns: seq<Node>, i: nat, a: Prop, b: Prop, s: string): (r: seq<Node>)
    requires i < |ns|
    ensures |r| == |ns| + 2
  {
    WithChild(WithChild(ns, i, a, Some(s)), i, b, Some(s))
  }

  /** A child of `i` with a child of its own: `node.children[-1].add_child(...)`. */
  function Stacked(ns: seq<Node>, i: nat, a: Prop, b: Prop, s: string): (r: seq<Node>)
    requires i < |ns|
    ensures |r| == |ns| + 2
  {
    WithChild(WithChild(ns, i, a, Some(s)), |ns|, b, Some(s))
  }

  lemma BranchedWf(ns: seq<Node>, i: nat, a: Prop, b: Prop, s: string)
    requires Wf(ns) && i < |ns|
    ensures Wf(Branched(ns, i, a, b, s))
  {
    WithChildFacts(ns, i, a, Some(s));
    WithChildFacts(WithChild(ns, i, a, Some(s)), i, b, Some(s));
  }

  lemma StackedWf(ns: seq<Node>, i: nat, a: Prop, b: Prop, s: string)
    requires Wf(ns) && i < |ns|
    ensures Wf(Stacked(ns, i, a, b, s))
  {
    WithChildFacts(ns, i, a, Some(s));
    WithChildFacts(WithChild(ns, i, a, Some(s)), |ns|, b, Some(s));
  }

  predicate Expandable(n: Node) {
    n.formula.Some? && !Rule(n.formula.value).NoRule?
  }

  // ---------------------------------------------------------------------
  // The measure: leaves weighted by Pow3(Weight)

  function Mu(n: Node): nat {
    if n.children == [] && n.formula.Some? then Pow3(Weight(n.formula.value)) else 0
  }

  function MeasureUpTo(ns: seq<Node>, k: nat): nat
    requires k <= |ns|
  {
    if k == 0 then 0 else MeasureUpTo(ns, k - 1) + Mu(ns[k - 1])
  }

  function Measure(ns: seq<Node>): nat {
    MeasureUpTo(ns, |ns|)
  }

  lemma {:induction false} MeasureUpdate(ns: seq<Node>, p: nat, n: Node, k: nat)
    requires p < |ns| && k <= |ns|
    ensures MeasureUpTo(ns[p := n], k) == MeasureUpTo(ns, k) - (if p < k then Mu(ns[p]) - Mu(n) else 0)
  {
    if k > 0 {
      MeasureUpdate(ns, p, n, k - 1);
    }
  }

  lemma {:induction false} MeasurePrefix(ns: seq<Node>, tail: seq<Node>, k: nat)
    requires k <= |ns|
    ensures MeasureUpTo(ns + tail, k) == MeasureUpTo(ns, k)
  {
    if k > 0 {
      MeasurePrefix(ns, tail, k - 1);
    }
  }

  lemma WithChildMeasure(ns: seq<Node>, p: nat, f: Prop, rule: Option<string>)
    requires p < |ns|
    ensures Measure(WithChild(ns, p, f, rule)) == Measure(ns) - Mu(ns[p]) + Pow3(Weight(f))
  {
    var n := ns[p].(children := ns[p].children + [|ns|]);
    var ns1 := ns[p := n];
    var last := Node(Some(f), Some(p), [], false, rule);
    MeasureUpdate(ns, p, n, |ns|);
    MeasurePrefix(ns1, [last], |ns1|);
    assert (ns1 + [last])[|ns1|] == last;
  }

  /** Decomposing a leaf that has a rule strictly lowers the measure. */
  lemma DecomposeMeasure(ns: seq<Node>, i: nat)
    requires Wf(ns) && i < |ns| && ns[i].children == [] && Expandable(ns[i])
    ensures Measure(Decompose(ns, i)) < Measure(ns)
  {
    var f := ns[i].formula.value;
    RuleLighter(f);
    match Rule(f)
    case Single(a, s) =>
      WithChildMeasure(ns, i, a, Some(s));
    case Branch(a, b, s) =>
      WithChildMeasure(ns, i, a, Some(s));
      var ns1 := WithChild(ns, i, a, Some(s));
      WithChildMeasure(ns1, i, b, Some(s));
    case Stack(a, b, s) =>
      WithChildMeasure(ns, i, a, Some(s));
      var ns1 := WithChild(ns, i, a, Some(s));
      WithChildMeasure(ns1, |ns|, b, Some(s));
  }

  // ---------------------------------------------------------------------
  // Branches and their meaning

  /** Every formula on the chain from `x` up to the root is true under `v`. */
  predicate Sat(v: set<char>, ns: seq<Node>, x: nat)
    requires Wf(ns) && x < |ns|
    decreases x
  {
    (ns[x].formula.None? || Eval(v, ns[x].formula.value))
    && (x == 0 || Sat(v, ns, ns[x].parent.value))
  }

  /**
   * The tableau invariant: whenever the branch down to a non-root node with
   * children is satisfied, so is the branch down to one of its children.
   * The root is exempt: its children are the sentences, which are separate
   * branches, not one conjunction.
   */
  ghost predicate Justified(ns: seq<Node>)
    requires Wf(ns)
  {
    forall v: set<char>, x: nat :: JustifiedAt(ns, v, x)
  }

  predicate JustifiedAt(ns: seq<Node>, v: set<char>, x: nat)
    requires Wf(ns)
  {
    0 < x < |ns| && ns[x].children != [] && Sat(v, ns, x) ==>
      exists j | 0 <= j < |ns[x].children| :: Sat(v, ns, ns[x].children[j])
  }

  /** `r` keeps every node of `ns` at its index with the same formula and parent. */
  predicate Extends(ns: seq<Node>, r: seq<Node>) {
    |r| >= |ns| && forall x | 0 <= x < |ns| :: r[x].formula == ns[x].formula && r[x].parent == ns[x].parent
  }

  lemma {:induction false} SatExtends(v: set<char>, ns: seq<Node>, r: seq<Node>, x: nat)
    requires Wf(ns) && Wf(r) && Extends(ns, r) && x < |ns|
    ensures Sat(v, r, x) == Sat(v, ns, x)
    decreases x
  {
    if x > 0 {
      SatExtends(v, ns, r, ns[x].parent.value);
    }
  }

  lemma ExtendsTrans(a: seq<Node>, b: seq<Node>, c: seq<Node>)
    requires Extends(a, b) && Extends(b, c)
    ensures Extends(a, c)
  {
  }

  /** What `decompose_node(ns[i])` leaves alone. */
  lemma DecomposeFrame(ns: seq<Node>, i: nat)
    requires Wf(ns) && i < |ns| && ns[i].children == []
    ensures var r := Decompose(ns, i);
      && Extends(ns, r)
      && (forall x | 0 <= x < |ns| && x != i :: r[x] == ns[x])
      && r[i].formula == ns[i].formula && r[i].closed == ns[i].closed && r[i].rule == ns[i].rule
      && (!Expandable(ns[i]) ==> r == ns)
      && (Expandable(ns[i]) ==> r[i].children != [])
  {
    if Expandable(ns[i]) {
      var e := Rule(ns[i].formula.value);
      if e.Single? {
        DecomposeSingle(ns, i);
      } else if e.Branch? {
        DecomposeBranch(ns, i);
      } else {
        DecomposeStack(ns, i);
      }
    }
  }

  /** The fields of the decomposed leaf other than its children, and every other old node, stay as they were. */
  predicate KeepsOthers(ns: seq<Node>, i: nat, r: seq<Node>)
    requires i < |ns| <= |r|
  {
    && (forall x | 0 <= x < |ns| && x != i :: r[x] == ns[x])
    && r[i].formula == ns[i].formula && r[i].parent == ns[i].parent
    && r[i].closed == ns[i].closed && r[i].rule == ns[i].rule
  }

  predicate NewNodesOpen(ns: seq<Node>, r: seq<Node>) {
    forall x | |ns| <= x < |r| :: !r[x].closed
  }

  /** A rule with one result gives the leaf one child. */
  lemma DecomposeSingle(ns: seq<Node>, i: nat)
    requires Wf(ns) && i < |ns| && ns[i].children == [] && Expandable(ns[i])
    requires Rule(ns[i].formula.value).Single?
    ensures var r := Decompose(ns, i);
      && |r| == |ns| + 1 && r[i].children == [|ns|] && r[|ns|].children == []
      && r[|ns|].formula == Some(Rule(ns[i].formula.value).a) && r[|ns|].parent == Some(i)
      && KeepsOthers(ns, i, r) && NewNodesOpen(ns, r)
  {
    var e := Rule(ns[i].formula.value);
    WithChildFacts(ns, i, e.a, Some(e.sym));
  }

  /** Two children side by side, both new, open and childless. */
  lemma BranchedFacts(ns: seq<Node>, i: nat, a: Prop, b: Prop, s: string)
    requires Wf(ns) && i < |ns| && ns[i].children == []
    ensures var r := Branched(ns, i, a, b, s);
      && r[i].children == [|ns|, |ns| + 1]
      && r[|ns|].formula == Some(a) && r[|ns| + 1].formula == Some(b)
      && r[|ns|].children == [] && r[|ns| + 1].children == []
      && r[|ns|].parent == Some(i) && r[|ns| + 1].parent == Some(i)
      && KeepsOthers(ns, i, r) && NewNodesOpen(ns, r)
  {
    var ns1 := WithChild(ns, i, a, Some(s));
    var r := WithChild(ns1, i, b, Some(s));
    assert r == Branched(ns, i, a, b, s);
    WithChildShape(ns, i, a, Some(s));
    WithChildShape(ns1, i, b, Some(s));
    assert r[|ns|] == ns1[|ns|];
    assert r[i].children == [] + [|ns|] + [|ns| + 1];
    forall x | 0 <= x < |ns| && x != i ensures r[x] == ns[x] {
      assert r[x] == ns1[x];
    }
  }

  /** A child with a grandchild below it, both new and open. */
  lemma StackedFacts(ns: seq<Node>, i: nat, a: Prop, b: Prop, s: string)
    requires Wf(ns) && i < |ns| && ns[i].children == []
    ensures var r := Stacked(ns, i, a, b, s);
      && r[i].children == [|ns|] && r[|ns|].children == [|ns| + 1]
      && r[|ns|].formula == Some(a) && r[|ns| + 1].formula == Some(b)
      && r[|ns| + 1].children == []
      && r[|ns|].parent == Some(i) && r[|ns| + 1].parent == Some(|ns|)
      && KeepsOthers(ns, i, r) && NewNodesOpen(ns, r)
  {
    var ns1 := WithChild(ns, i, a, Some(s));
    var r := WithChild(ns1, |ns|, b, Some(s));
    assert r == Stacked(ns, i, a, b, s);
    WithChildShape(ns, i, a, Some(s));
    WithChildShape(ns1, |ns|, b, Some(s));
    assert r[i] == ns1[i];
    assert r[|ns|].children == [] + [|ns| + 1];
    forall x | 0 <= x < |ns| && x != i ensures r[x] == ns[x] {
      assert r[x] == ns1[x];
    }
  }

  /** A branching rule gives the leaf two children, one per result. */
  lemma DecomposeBranch(ns: seq<Node>, i: nat)
    requires Wf(ns) && i < |ns| && ns[i].children == [] && Expandable(ns[i])
    requires Rule(ns[i].formula.value).Branch?
    ensures var r := Decompose(ns, i); var e := Rule(ns[i].formula.value);
      && |r| == |ns| + 2 && r[i].children == [|ns|, |ns| + 1]
      && r[|ns|].formula == Some(e.a) && r[|ns| + 1].formula == Some(e.b)
      && r[|ns|].children == [] && r[|ns| + 1].children == []
      && r[|ns|].parent == Some(i) && r[|ns| + 1].parent == Some(i)
      && KeepsOthers(ns, i, r) && NewNodesOpen(ns, r)
  {
    var e := Rule(ns[i].formula.value);
    assert Decompose(ns, i) == Branched(ns, i, e.a, e.b, e.sym);
    BranchedFacts(ns, i, e.a, e.b, e.sym);
  }

  /** A stacking rule puts the second result under the first. */
  lemma DecomposeStack(ns: seq<Node>, i: nat)
    requires Wf(ns) && i < |ns| && ns[i].children == [] && Expandable(ns[i])
    requires Rule(ns[i].formula.value).Stack?
    ensures var r := Decompose(ns, i); var e := Rule(ns[i].formula.value);
      && |r| == |ns| + 2 && r[i].children == [|ns|] && r[|ns|].children == [|ns| + 1]
      && r[|ns|].formula == Some(e.a) && r[|ns| + 1].formula == Some(e.b)
      && r[|ns| + 1].children == []
      && r[|ns|].parent == Some(i) && r[|ns| + 1].parent == Some(|ns|)
      && KeepsOthers(ns, i, r) && NewNodesOpen(ns, r)
  {
    var e := Rule(ns[i].formula.value);
    assert Decompose(ns, i) == Stacked(ns, i, e.a, e.b, e.sym);
    StackedFacts(ns, i, e.a, e.b, e.sym);
  }

  /** Decomposing a leaf keeps the tableau invariant. */
  lemma DecomposeJustified(ns: seq<Node>, i: nat)
    requires Wf(ns) && i < |ns| && ns[i].children == [] && Justified(ns)
    ensures Justified(Decompose(ns, i))
  {
    var r := Decompose(ns, i);
    DecomposeFrame(ns, i);
    if Expandable(ns[i]) {
      var f := ns[i].formula.value;
      forall v: set<char>, x: nat ensures JustifiedAt(r, v, x) {
        if 0 < x < |r| && r[x].children != [] && Sat(v, r, x) {
          if x < |ns| && x != i {
            SatExtends(v, ns, r, x);
            assert JustifiedAt(ns, v, x);
            var j :| 0 <= j < |ns[x].children| && Sat(v, ns, ns[x].children[j]);
            SatExtends(v, ns, r, ns[x].children[j]);
            assert Sat(v, r, r[x].children[j]);
          } else {
            JustifiedNew(v, ns, i, x);
          }
        }
      }
    }
  }

  /** The new children justify the decomposed leaf, and the middle of a stack justifies itself. */
  lemma JustifiedNew(v: set<char>, ns: seq<Node>, i: nat, x: nat)
    requires Wf(ns) && i < |ns| && ns[i].children == [] && Expandable(ns[i])
    requires var r := Decompose(ns, i);
      x < |r| && (x == i || x >= |ns|) && r[x].children != [] && Sat(v, r, x)
    ensures var r := Decompose(ns, i);
      exists j | 0 <= j < |r[x].children| :: Sat(v, r, r[x].children[j])
  {
    var e := Rule(ns[i].formula.value);
    if e.Single? {
      JustifiedSingle(v, ns, i, x);
    } else if e.Branch? {
      JustifiedBranch(v, ns, i, x);
    } else {
      JustifiedStack(v, ns, i, x);
    }
  }

  lemma JustifiedSingle(v: set<char>, ns: seq<Node>, i: nat, x: nat)
    requires Wf(ns) && i < |ns| && ns[i].children == [] && Expandable(ns[i])
    requires var r := Decompose(ns, i);
      x < |r| && (x == i || x >= |ns|) && r[x].children != [] && Sat(v, r, x)
    requires Rule(ns[i].formula.value).Single?
    ensures var r := Decompose(ns, i);
      exists j | 0 <= j < |r[x].children| :: Sat(v, r, r[x].children[j])
  {
    var r := Decompose(ns, i);
    DecomposeSingle(ns, i);
    DecomposeFrame(ns, i);
    assert x == i;
    SatExtends(v, ns, r, i);
    RuleSound(v, ns[i].formula.value);
    assert Sat(v, r, r[x].children[0]);
  }

  lemma JustifiedBranch(v: set<char>, ns: seq<Node>, i: nat, x: nat)
    requires Wf(ns) && i < |ns| && ns[i].children == [] && Expandable(ns[i])
    requires var r := Decompose(ns, i);
      x < |r| && (x == i || x >= |ns|) && r[x].children != [] && Sat(v, r, x)
    requires Rule(ns[i].formula.value).Branch?
    ensures var r := Decompose(ns, i);
      exists j | 0 <= j < |r[x].children| :: Sat(v, r, r[x].children[j])
  {
    var r := Decompose(ns, i);
    DecomposeBranch(ns, i);
    DecomposeFrame(ns, i);
    assert x == i;
    SatExtends(v, ns, r, i);
    RuleSound(v, ns[i].formula.value);
    if Eval(v, Rule(ns[i].formula.value).a) {
      assert Sat(v, r, r[x].children[0]);
    } else {
      assert Sat(v, r, r[x].children[1]);
    }
  }

  lemma JustifiedStack(v: set<char>, ns: seq<Node>, i: nat, x: nat)
    requires Wf(ns) && i < |ns| && ns[i].children == [] && Expandable(ns[i])
    requires var r := Decompose(ns, i);
      x < |r| && (x == i || x >= |ns|) && r[x].children != [] && Sat(v, r, x)
    requires Rule(ns[i].formula.value).Stack?
    ensures var r := Decompose(ns, i);
      exists j | 0 <= j < |r[x].children| :: Sat(v, r, r[x].children[j])
  {
    var r := Decompose(ns, i);
    DecomposeStack(ns, i);
    DecomposeFrame(ns, i);
    assert x == i || x == |ns|;
    assert Sat(v, r, i);
    SatExtends(v, ns, r, i);
    RuleSound(v, ns[i].formula.value);
    assert Sat(v, r, r[x].children[0]);
  }

  // ---------------------------------------------------------------------
  // Expansion: `expand_tree`

  predicate Below(ns: seq<Node>, ls: seq<nat>) {
    forall k | 0 <= k < |ls| :: ls[k] < |ns|
  }

  /** One pass of the `for leaf in leaves` loop, decomposing each leaf that has a rule. */
  function Pass(ns: seq<Node>, ls: seq<nat>): (r: seq<Node>)
    requires Wf(ns) && Below(ns, ls)
    ensures Wf(r) && |r| >= |ns|
    decreases |ls|
  {
    if ls == [] then ns
    else
      var r0 := Pass(ns, ls[..|ls| - 1]);
      var x := ls[|ls| - 1];
      if Expandable(r0[x]) then Decompose(r0, x) else r0
  }

  lemma PassStep(ns: seq<Node>, ls: seq<nat>, k: nat)
    requires Wf(ns) && Below(ns, ls) && k < |ls|
    ensures var r0 := Pass(ns, ls[..k]);
      Pass(ns, ls[..k + 1]) == if Expandable(r0[ls[k]]) then Decompose(r0, ls[k]) else r0
  {
    assert ls[..k + 1][..k] == ls[..k];
  }

  /**
   * The loop tests `can_decompose` (the formula is not an atom) rather than
   * "a rule applies"; `decompose_node` does nothing in the cases where the
   * two differ, so the pass is the same.
   */
  lemma GuardAgrees(ns: seq<Node>, x: nat)
    requires Wf(ns) && x < |ns|
    ensures Expandable(ns[x]) ==> ns[x].formula.Some? && !ns[x].formula.value.Atom?
    ensures !Expandable(ns[x]) ==> Decompose(ns, x) == ns
  {
  }

  predicate AnyExpandable(ns: seq<Node>, ls: seq<nat>)
    requires Below(ns, ls)
  {
    exists k | 0 <= k < |ls| :: Expandable(ns[ls[k]])
  }

  /** Distinct childless nodes, as `get_leaves` returns them. */
  predicate LeafList(ns: seq<Node>, ls: seq<nat>) {
    Below(ns, ls) && Distinct(ls) && forall k | 0 <= k < |ls| :: ns[ls[k]].children == []
  }

  lemma LeavesAreLeafList(ns: seq<Node>)
    requires Wf(ns)
    ensures LeafList(ns, Leaves(ns))
  {
    LeavesFromDistinct(ns, 0);
    forall k | 0 <= k < |Leaves(ns)| ensures Leaves(ns)[k] < |ns| && ns[Leaves(ns)[k]].children == [] {
      LeavesFromSound(ns, 0, Leaves(ns)[k]);
    }
  }

  lemma LeafListInit(ns: seq<Node>, ls: seq<nat>)
    requires LeafList(ns, ls) && ls != []
    ensures LeafList(ns, ls[..|ls| - 1]) && ls[|ls| - 1] !in ls[..|ls| - 1]
  {
    var init := ls[..|ls| - 1];
    forall j, k | 0 <= j < k < |init| ensures init[j] != init[k] {
      assert init[j] == ls[j] && init[k] == ls[k];
    }
    forall k | 0 <= k < |init| ensures init[k] != ls[|ls| - 1] {
      assert init[k] == ls[k];
    }
  }

  /** A pass touches only the leaves it is given and keeps every node's formula and parent. */
  lemma {:induction false} PassFrame(ns: seq<Node>, ls: seq<nat>)
    requires Wf(ns) && LeafList(ns, ls)
    ensures var r := Pass(ns, ls);
      && Extends(ns, r)
      && (forall x | 0 <= x < |ns| && x !in ls :: r[x] == ns[x])
      && (forall k | 0 <= k < |ls| :: r[ls[k]].formula == ns[ls[k]].formula)
    decreases |ls|
  {
    if ls != [] {
      var init := ls[..|ls| - 1];
      var x := ls[|ls| - 1];
      LeafListInit(ns, ls);
      PassFrame(ns, init);
      var r0 := Pass(ns, init);
      assert r0[x] == ns[x];
      DecomposeFrame(r0, x);
      ExtendsTrans(ns, r0, Pass(ns, ls));
      forall k | 0 <= k < |ls| - 1 ensures ls[k] == init[k] { }
    }
  }

  /** A pass never raises the measure, and lowers it whenever it decomposes a leaf. */
  lemma {:induction false} PassMeasure(ns: seq<Node>, ls: seq<nat>)
    requires Wf(ns) && LeafList(ns, ls)
    ensures Measure(Pass(ns, ls)) <= Measure(ns)
    ensures AnyExpandable(ns, ls) ==> Measure(Pass(ns, ls)) < Measure(ns)
    decreases |ls|
  {
    if ls != [] {
      var init := ls[..|ls| - 1];
      var x := ls[|ls| - 1];
      LeafListInit(ns, ls);
      PassMeasure(ns, init);
      PassFrame(ns, init);
      var r0 := Pass(ns, init);
      assert r0[x] == ns[x];
      if Expandable(r0[x]) {
        DecomposeMeasure(r0, x);
      }
      if AnyExpandable(ns, ls) && !Expandable(ns[x]) {
        AnyExpandableInit(ns, ls);
      }
    }
  }

  lemma AnyExpandableInit(ns: seq<Node>, ls: seq<nat>)
    requires Below(ns, ls) && ls != [] && AnyExpandable(ns, ls) && !Expandable(ns[ls[|ls| - 1]])
    ensures AnyExpandable(ns, ls[..|ls| - 1])
  {
    var k :| 0 <= k < |ls| && Expandable(ns[ls[k]]);
    assert ls[k] == ls[..|ls| - 1][k];
  }

  /** A pass keeps the tableau invariant. */
  lemma {:induction false} PassJustified(ns: seq<Node>, ls: seq<nat>)
    requires Wf(ns) && LeafList(ns, ls) && Justified(ns)
    ensures Justified(Pass(ns, ls))
    decreases |ls|
  {
    if ls != [] {
      var init := ls[..|ls| - 1];
      var x := ls[|ls| - 1];
      LeafListInit(ns, ls);
      PassJustified(ns, init);
      PassFrame(ns, init);
      var r0 := Pass(ns, init);
      assert r0[x] == ns[x];
      if Expandable(r0[x]) {
        DecomposeJustified(r0, x);
      }
    }
  }

  /**
   * `expand_tree` with the loop guard corrected to "some leaf has a rule":
   * passes over the current leaves until no leaf can be decomposed.
   */
  function Expanded(ns: seq<Node>): (r: seq<Node>)
    requires Wf(ns)
    ensures Wf(r) && |r| >= |ns|
    decreases Measure(ns)
  {
    var ls := Leaves(ns);
    LeavesAreLeafList(ns);
    if !AnyExpandable(ns, ls) then ns
    else
      PassMeasure(ns, ls);
      Expanded(Pass(ns, ls))
  }

  /** When expansion stops, no leaf of the tree has a rule left to apply. */
  lemma {:induction false} ExpandedComplete(ns: seq<Node>)
    requires Wf(ns)
    ensures Complete(Expanded(ns))
    decreases Measure(ns)
  {
    var ls := Leaves(ns);
    LeavesAreLeafList(ns);
    if AnyExpandable(ns, ls) {
      PassMeasure(ns, ls);
      ExpandedComplete(Pass(ns, ls));
      assert Expanded(ns) == Expanded(Pass(ns, ls));
    } else {
      assert Expanded(ns) == ns;
      NoRuleLeft(ns);
    }
  }

  /** No leaf has a rule left to apply. */
  predicate Complete(ns: seq<Node>) {
    forall x | 0 <= x < |ns| && ns[x].children == [] :: !Expandable(ns[x])
  }

  lemma NoRuleLeft(ns: seq<Node>)
    requires Wf(ns) && Below(ns, Leaves(ns)) && !AnyExpandable(ns, Leaves(ns))
    ensures Complete(ns)
  {
    forall x | 0 <= x < |ns| && ns[x].children == [] ensures !Expandable(ns[x]) {
      LeavesAreChildless(ns, x);
      var k :| 0 <= k < |Leaves(ns)| && Leaves(ns)[k] == x;
    }
  }

  /**
   * Expansion keeps the tableau invariant, keeps every node's formula and
   * parent, and never adds children to a node that already had some: only
   * leaves are decomposed.
   */
  lemma {:induction false} ExpandedFacts(ns: seq<Node>)
    requires Wf(ns)
    ensures var r := Expanded(ns);
      && Extends(ns, r)
      && (Justified(ns) ==> Justified(r))
      && forall x | 0 <= x < |ns| && ns[x].children != [] :: r[x].children == ns[x].children
    decreases Measure(ns)
  {
    var ls := Leaves(ns);
    LeavesAreLeafList(ns);
    if AnyExpandable(ns, ls) {
      var p := Pass(ns, ls);
      PassMeasure(ns, ls);
      PassFrame(ns, ls);
      if Justified(ns) {
        PassJustified(ns, ls);
      }
      ExpandedFacts(p);
      ExtendsTrans(ns, p, Expanded(p));
      forall x | 0 <= x < |ns| && ns[x].children != [] ensures Expanded(p)[x].children == ns[x].children {
        forall k | 0 <= k < |ls| ensures ls[k] != x { }
        assert p[x] == ns[x];
      }
    }
  }

  /**
   * The upper node of an α-chain is never decomposed: after a `Stack` rule on
   * leaf `i`, the new middle node keeps exactly the one child it was given,
   * however far the tree is expanded, so its own rule is never applied.
   */
  lemma ChainTopNeverDecomposed(ns: seq<Node>, i: nat)
    requires Wf(ns) && i < |ns| && ns[i].children == [] && Expandable(ns[i])
    requires Rule(ns[i].formula.value).Stack?
    ensures var d := Decompose(ns, i);
      && |d| > |ns|
      && d[|ns|].formula == Some(Rule(ns[i].formula.value).a)
      && Expanded(d)[|ns|].children == [|ns| + 1]
  {
    DecomposeStack(ns, i);
    ExpandedFacts(Decompose(ns, i));
  }

  // ---------------------------------------------------------------------
  // The loop guard as written: `any(can_decompose(leaf) for leaf in leaves)`

  /** Reading `.type` of the root's missing formula raises AttributeError. */
  datatype TreeError = NoFormula

  /** `can_decompose`: true for every formula that is not an atom. */
  function CanDecompose(n: Node): (r: Result<bool, TreeError>)
    ensures r.Err? <==> n.formula.None?
    ensures r.Ok? ==> (r.value <==> !n.formula.value.Atom?)
  {
    match n.formula
    case None => Err(NoFormula)
    case Some(f) => Ok(!f.Atom?)
  }

  /** `any(...)`, which stops at the first true value or the first exception. */
  function AnyCanDecompose(ns: seq<Node>, ls: seq<nat>): Result<bool, TreeError>
    requires Below(ns, ls)
  {
    if ls == [] then Ok(false)
    else match CanDecompose(ns[ls[0]])
      case Err(e) => Err(e)
      case Ok(true) => Ok(true)
      case Ok(false) => AnyCanDecompose(ns, ls[1..])
  }

  lemma {:induction false} AnyCanDecomposeFinds(ns: seq<Node>, ls: seq<nat>, k: nat)
    requires Below(ns, ls) && k < |ls|
    requires forall j | 0 <= j < |ls| :: ns[ls[j]].formula.Some?
    requires !ns[ls[k]].formula.value.Atom?
    ensures AnyCanDecompose(ns, ls) == Ok(true)
  {
    if k > 0 && !CanDecompose(ns[ls[0]]).value {
      AnyCanDecomposeFinds(ns, ls[1..], k - 1);
    }
  }

  lemma {:induction false} PassKeepsStuck(ns: seq<Node>, ls: seq<nat>, x: nat)
    requires Wf(ns) && LeafList(ns, ls) && x < |ns| && !Expandable(ns[x])
    ensures Pass(ns, ls)[x] == ns[x]
    decreases |ls|
  {
    if ls != [] {
      var init := ls[..|ls| - 1];
      var y := ls[|ls| - 1];
      LeafListInit(ns, ls);
      PassKeepsStuck(ns, init, x);
      PassFrame(ns, init);
      var r0 := Pass(ns, init);
      assert r0[y] == ns[y];
      DecomposeFrame(r0, y);
    }
  }

  /**
   * As written the loop cannot end once a leaf holds a negated atom or a
   * negated biconditional: `can_decompose` is true for it, so the guard
   * holds, and `decompose_node` adds nothing, so after the pass the node is
   * unchanged, still a leaf, and the same hypothesis holds again.
   */
  lemma StuckLeafStaysForever(ns: seq<Node>, x: nat)
    requires Wf(ns) && 0 < x < |ns| && ns[x].children == []
    requires !ns[x].formula.value.Atom? && Rule(ns[x].formula.value).NoRule?
    ensures AnyCanDecompose(ns, Leaves(ns)) == Ok(true)
    ensures var r := Pass(ns, Leaves(ns));
      r[x] == ns[x] && AnyCanDecompose(r, Leaves(r)) == Ok(true)
  {
    GuardSeesLeaf(ns, x);
    PassLeavesKeepsStuck(ns, x);
    GuardSeesLeaf(Pass(ns, Leaves(ns)), x);
  }

  lemma PassLeavesKeepsStuck(ns: seq<Node>, x: nat)
    requires Wf(ns) && x < |ns| && !Expandable(ns[x])
    ensures Pass(ns, Leaves(ns))[x] == ns[x]
  {
    LeavesAreLeafList(ns);
    PassKeepsStuck(ns, Leaves(ns), x);
  }

  /** Once the root has a child, every leaf has a formula, so the guard is true while any leaf is not an atom. */
  lemma GuardSeesLeaf(ns: seq<Node>, x: nat)
    requires Wf(ns) && 0 < x < |ns| && ns[x].children == [] && !ns[x].formula.value.Atom?
    ensures AnyCanDecompose(ns, Leaves(ns)) == Ok(true)
  {
    LeavesAreLeafList(ns);
    LeavesAreChildless(ns, x);
    var k :| 0 <= k < |Leaves(ns)| && Leaves(ns)[k] == x;
    assert ns[1].parent.value == 0;
    assert 1 in ns[0].children;
    forall j | 0 <= j < |Leaves(ns)| ensures ns[Leaves(ns)[j]].formula.Some? {
      assert Leaves(ns)[j] != 0;
    }
    AnyCanDecomposeFinds(ns, Leaves(ns), k);
  }

  /**
   * The smallest case: for the single sentence `¬P` a pass changes nothing
   * and the guard stays true, so the loop repeats the same state forever.
   */
  lemma NegatedAtomNeverFinishes()
    ensures var ns := WithChild([RootNode], 0, Not(Atom('P')), None);
      Wf(ns) && Pass(ns, Leaves(ns)) == ns && AnyCanDecompose(ns, Leaves(ns)) == Ok(true)
  {
    var ns := WithChild([RootNode], 0, Not(Atom('P')), None);
    assert Wf([RootNode]);
    WithChildFacts([RootNode], 0, Not(Atom('P')), None);
    StuckLeafStaysForever(ns, 1);
    assert LeavesOfChildren(ns, 0, 1) == [1];
    assert Leaves(ns) == [1];
    assert Pass(ns, [1][..0]) == ns;
  }

  // ---------------------------------------------------------------------
  // Closure: `check_closure`

  /** `collect_literals`: an atom contributes its name, a negated atom `¬` and the name. */
  function LiteralOf(f: Prop): set<string> {
    match f
    case Atom(c) => {[c]}
    case Not(g) => if g.Atom? then {"¬" + [g.name]} else {}
    case _ => {}
  }

  /**
   * `check_node_closure`'s walk as written: it follows `parent` up to and
   * including the root, whose formula is `None`, so reading its `.type`
   * raises.
   */
  function ChainLiteralsAsWritten(ns: seq<Node>, x: nat): Result<set<string>, TreeError>
    requires Wf(ns) && x < |ns|
    decreases x
  {
    if ns[x].formula.None? then Err(NoFormula)
    else
      var here := LiteralOf(ns[x].formula.value);
      if x == 0 then Ok(here)
      else
        var up :- ChainLiteralsAsWritten(ns, ns[x].parent.value);
        Ok(here + up)
  }

  /** As written, collecting the literals of any branch fails at the root. */
  lemma {:induction false} ChainLiteralsAlwaysFail(ns: seq<Node>, x: nat)
    requires Wf(ns) && x < |ns|
    ensures ChainLiteralsAsWritten(ns, x) == Err(NoFormula)
    decreases x
  {
    if x > 0 {
      ChainLiteralsAlwaysFail(ns, ns[x].parent.value);
    }
  }

  /** The test `check_node_closure` applies to one literal of the set. */
  predicate ClashesWith(lits: set<string>, l: string) {
    if |l| > 0 && l[0] == '¬' then l[1..] in lits else "¬" + l in lits
  }

  /** Some literal of the set meets its complement. */
  predicate HasClash(lits: set<string>) {
    exists l | l in lits :: ClashesWith(lits, l)
  }

  /** `check_closure` as written: the first leaf's walk raises. */
  function CloseLeavesAsWritten(ns: seq<Node>, ls: seq<nat>): Result<seq<Node>, TreeError>
    requires Wf(ns) && Below(ns, ls)
    decreases |ls|
  {
    if ls == [] then Ok(ns)
    else
      var lits :- ChainLiteralsAsWritten(ns, ls[0]);
      var ns' := if HasClash(lits) then MarkClosed(ns, ls[0]) else ns;
      CloseLeavesAsWritten(ns', ls[1..])
  }

  /** Every subtree has a leaf. */
  lemma {:induction false} LeavesNonEmpty(ns: seq<Node>, i: nat)
    requires Wf(ns) && i < |ns|
    ensures LeavesFrom(ns, i) != []
    decreases |ns| - i
  {
    if ns[i].children != [] {
      var j := |ns[i].children|;
      LeavesNonEmpty(ns, Child(ns, i, j - 1));
    }
  }

  /** As written, `check_closure` raises on every tree, so `generate_truth_tree` never returns a tree. */
  lemma CheckClosureAlwaysRaises(ns: seq<Node>)
    requires Wf(ns)
    ensures CloseLeavesAsWritten(ns, Leaves(ns)) == Err(NoFormula)
  {
    LeavesNonEmpty(ns, 0);
    ChainLiteralsAlwaysFail(ns, Leaves(ns)[0]);
  }

  /**
   * The walk with the root's missing formula skipped: the literals of every
   * formula on the branch from `x` up to the root.
   */
  function ChainLiterals(ns: seq<Node>, x: nat): set<string>
    requires Wf(ns) && x < |ns|
    decreases x
  {
    (if ns[x].formula.Some? then LiteralOf(ns[x].formula.value) else {})
    + (if x == 0 then {} else ChainLiterals(ns, ns[x].parent.value))
  }

  /** Formula `g` stands on the branch from `x` up to the root. */
  ghost predicate FormulaOnChain(ns: seq<Node>, x: nat, g: Prop)
    requires Wf(ns) && x < |ns|
  {
    exists y | 0 <= y <= x && OnChain(ns, y, x) :: ns[y].formula == Some(g)
  }

  /** Every collected literal is a name or a negated name. */
  lemma {:induction false} ChainLiteralsShape(ns: seq<Node>, x: nat, l: string)
    requires Wf(ns) && x < |ns| && l in ChainLiterals(ns, x)
    ensures |l| == 1 || (|l| == 2 && l[0] == '¬')
    decreases x
  {
    if x > 0 && l !in (if ns[x].formula.Some? then LiteralOf(ns[x].formula.value) else {}) {
      ChainLiteralsShape(ns, ns[x].parent.value, l);
    }
  }

  /** The literal of name `c` is collected exactly when the atom `c` is on the branch. */
  lemma {:induction false} AtomLiteralOnChain(ns: seq<Node>, x: nat, c: char)
    requires Wf(ns) && x < |ns|
    ensures [c] in ChainLiterals(ns, x) <==> FormulaOnChain(ns, x, Atom(c))
    decreases x
  {
    if x > 0 {
      var p := ns[x].parent.value;
      AtomLiteralOnChain(ns, p, c);
      if FormulaOnChain(ns, x, Atom(c)) && ns[x].formula != Some(Atom(c)) {
        var y :| 0 <= y <= x && OnChain(ns, y, x) && ns[y].formula == Some(Atom(c));
        assert OnChain(ns, y, p);
        ChainBelow(ns, y, p);
      }
      if FormulaOnChain(ns, p, Atom(c)) {
        var y :| 0 <= y <= p && OnChain(ns, y, p) && ns[y].formula == Some(Atom(c));
        ChainExtend(ns, y, p, x);
      }
      assert OnChain(ns, x, x);
    }
  }

  /** The literal `¬c` is collected exactly when the formula `¬c` is on the branch. */
  lemma {:induction false} NegatedLiteralOnChain(ns: seq<Node>, x: nat, c: char)
    requires Wf(ns) && x < |ns|
    ensures "¬" + [c] in ChainLiterals(ns, x) <==> FormulaOnChain(ns, x, Not(Atom(c)))
    decreases x
  {
    if x > 0 {
      var p := ns[x].parent.value;
      NegatedLiteralOnChain(ns, p, c);
      var f := ns[x].formula.value;
      if f.Not? && f.arg.Atom? {
        assert ("¬" + [f.arg.name])[1] == f.arg.name && ("¬" + [c])[1] == c;
      }
      if FormulaOnChain(ns, x, Not(Atom(c))) && ns[x].formula != Some(Not(Atom(c))) {
        var y :| 0 <= y <= x && OnChain(ns, y, x) && ns[y].formula == Some(Not(Atom(c)));
        assert OnChain(ns, y, p);
        ChainBelow(ns, y, p);
      }
      if FormulaOnChain(ns, p, Not(Atom(c))) {
        var y :| 0 <= y <= p && OnChain(ns, y, p) && ns[y].formula == Some(Not(Atom(c)));
        ChainExtend(ns, y, p, x);
      }
      assert OnChain(ns, x, x);
    }
  }

  /**
   * `check_node_closure` finds a clash exactly when some atom and its
   * negation both stand on the branch.
   */
  lemma ClashMeansComplementaryPair(ns: seq<Node>, x: nat)
    requires Wf(ns) && x < |ns|
    ensures HasClash(ChainLiterals(ns, x)) <==>
      exists c: char :: FormulaOnChain(ns, x, Atom(c)) && FormulaOnChain(ns, x, Not(Atom(c)))
  {
    var lits := ChainLiterals(ns, x);
    if HasClash(lits) {
      var l :| l in lits && ClashesWith(lits, l);
      ChainLiteralsShape(ns, x, l);
      var c: char;
      if |l| > 0 && l[0] == '¬' {
        ChainLiteralsShape(ns, x, l[1..]);
        c := l[1];
        assert l == "¬" + [c];
      } else {
        c := l[0];
        assert l == [c];
      }
      AtomLiteralOnChain(ns, x, c);
      NegatedLiteralOnChain(ns, x, c);
    }
    if exists c: char :: FormulaOnChain(ns, x, Atom(c)) && FormulaOnChain(ns, x, Not(Atom(c))) {
      var c: char :| FormulaOnChain(ns, x, Atom(c)) && FormulaOnChain(ns, x, Not(Atom(c)));
      AtomLiteralOnChain(ns, x, c);
      NegatedLiteralOnChain(ns, x, c);
      assert ClashesWith(lits, "¬" + [c]);
    }
  }

  /** A satisfied branch makes every formula on it true. */
  lemma {:induction false} SatOnChain(v: set<char>, ns: seq<Node>, x: nat, y: nat)
    requires Wf(ns) && x < |ns| && y <= x && OnChain(ns, y, x) && Sat(v, ns, x)
    ensures ns[y].formula.Some? ==> Eval(v, ns[y].formula.value)
    decreases x
  {
    if y != x {
      ChainBelow(ns, y, ns[x].parent.value);
      SatOnChain(v, ns, ns[x].parent.value, y);
    }
  }

  /** A branch with a clash is satisfied by no valuation. */
  lemma ClashRefutes(v: set<char>, ns: seq<Node>, x: nat)
    requires Wf(ns) && x < |ns| && HasClash(ChainLiterals(ns, x))
    ensures !Sat(v, ns, x)
  {
    ClashMeansComplementaryPair(ns, x);
    var c: char :| FormulaOnChain(ns, x, Atom(c)) && FormulaOnChain(ns, x, Not(Atom(c)));
    var y1 :| 0 <= y1 <= x && OnChain(ns, y1, x) && ns[y1].formula == Some(Atom(c));
    var y2 :| 0 <= y2 <= x && OnChain(ns, y2, x) && ns[y2].formula == Some(Not(Atom(c)));
    if Sat(v, ns, x) {
      SatOnChain(v, ns, x, y1);
      SatOnChain(v, ns, x, y2);
    }
  }

  /** The branch literals depend only on formulas and parents. */
  lemma {:induction false} ChainLiteralsExtends(ns: seq<Node>, r: seq<Node>, x: nat)
    requires Wf(ns) && Wf(r) && Extends(ns, r) && x < |ns|
    ensures ChainLiterals(r, x) == ChainLiterals(ns, x)
    decreases x
  {
    if x > 0 {
      ChainLiteralsExtends(ns, r, ns[x].parent.value);
    }
  }

  /** Marking a node closed changes nothing else. */
  function MarkClosed(ns: seq<Node>, x: nat): (r: seq<Node>)
    requires Wf(ns) && x < |ns|
    ensures Wf(r) && Extends(ns, r) && |r| == |ns|
  {
    var r := ns[x := ns[x].(closed := true)];
    SameShapeWf(ns, r);
    r
  }

  /** The `for leaf in tree.get_leaves()` loop of `check_closure`, over the first leaves `ls`. */
  function CloseLeaves(ns: seq<Node>, ls: seq<nat>): (r: seq<Node>)
    requires Wf(ns) && Below(ns, ls)
    ensures Wf(r) && Extends(ns, r) && |r| == |ns|
    decreases |ls|
  {
    if ls == [] then ns
    else
      var r0 := CloseLeaves(ns, ls[..|ls| - 1]);
      var x := ls[|ls| - 1];
      var r := if HasClash(ChainLiterals(r0, x)) then MarkClosed(r0, x) else r0;
      ExtendsTrans(ns, r0, r);
      r
  }

  lemma CloseLeavesStep(ns: seq<Node>, ls: seq<nat>, k: nat)
    requires Wf(ns) && Below(ns, ls) && k < |ls|
    ensures var r0 := CloseLeaves(ns, ls[..k]);
      CloseLeaves(ns, ls[..k + 1]) == if HasClash(ChainLiterals(r0, ls[k])) then MarkClosed(r0, ls[k]) else r0
  {
    assert ls[..k + 1][..k] == ls[..k];
  }

  /**
   * `check_closure` (with the root skipped): a node ends up closed exactly
   * when it was closed already or it is one of the leaves and its branch
   * holds an atom and its negation; nothing else changes.
   */
  lemma {:induction false} CloseLeavesMarks(ns: seq<Node>, ls: seq<nat>)
    requires Wf(ns) && Below(ns, ls)
    ensures var r := CloseLeaves(ns, ls);
      forall x | 0 <= x < |ns| ::
        r[x] == ns[x].(closed := ns[x].closed || (x in ls && HasClash(ChainLiterals(ns, x))))
    decreases |ls|
  {
    if ls != [] {
      var k := |ls| - 1;
      var init := ls[..k];
      var y := ls[k];
      CloseLeavesMarks(ns, init);
      var r0 := CloseLeaves(ns, init);
      CloseLeavesStep(ns, ls, k);
      assert ls[..k + 1] == ls;
      ChainLiteralsExtends(ns, r0, y);
      LastSplit(ls);
    }
  }

  lemma LastSplit(ls: seq<nat>)
    requires ls != []
    ensures forall x :: x in ls <==> x in ls[..|ls| - 1] || x == ls[|ls| - 1]
  {
    assert ls == ls[..|ls| - 1] + [ls[|ls| - 1]];
  }

  function Closure(ns: seq<Node>): (r: seq<Node>)
    requires Wf(ns)
    ensures Wf(r) && Extends(ns, r) && |r| == |ns|
  {
    CloseLeaves(ns, Leaves(ns))
  }

  /** `TruthTree.is_valid`: every leaf is closed. */
  predicate IsValid(ns: seq<Node>)
    requires Wf(ns)
  {
    forall k | 0 <= k < |Leaves(ns)| :: ns[Leaves(ns)[k]].closed
  }

  predicate AllOpen(ns: seq<Node>) {
    forall x | 0 <= x < |ns| :: !ns[x].closed
  }

  /** Only a node whose branch has a clash is closed. */
  predicate Honest(ns: seq<Node>)
    requires Wf(ns)
  {
    forall x | 0 <= x < |ns| && ns[x].closed :: HasClash(ChainLiterals(ns, x))
  }

  /** Closing an open tree marks exactly the leaves with a clash. */
  lemma ClosureMarksClashes(ns: seq<Node>)
    requires Wf(ns) && AllOpen(ns)
    ensures var r := Closure(ns);
      && Honest(r)
      && (forall x | 0 <= x < |ns| && ns[x].children == [] :: r[x].closed <==> HasClash(ChainLiterals(ns, x)))
      && (forall x | 0 <= x < |ns| && ns[x].children != [] :: !r[x].closed)
      && (forall x | 0 <= x < |ns| :: r[x].children == ns[x].children)
  {
    var r := Closure(ns);
    CloseLeavesMarks(ns, Leaves(ns));
    forall x | 0 <= x < |ns| ensures ChainLiterals(r, x) == ChainLiterals(ns, x) {
      ChainLiteralsExtends(ns, r, x);
    }
    forall x | 0 <= x < |ns| ensures x in Leaves(ns) <==> ns[x].children == [] {
      LeavesAreChildless(ns, x);
    }
  }

  lemma DecomposeOpen(ns: seq<Node>, i: nat)
    requires Wf(ns) && i < |ns| && ns[i].children == [] && AllOpen(ns)
    ensures AllOpen(Decompose(ns, i))
  {
    DecomposeFrame(ns, i);
    if Expandable(ns[i]) {
      var e := Rule(ns[i].formula.value);
      if e.Single? {
        DecomposeSingle(ns, i);
      } else if e.Branch? {
        DecomposeBranch(ns, i);
      } else {
        DecomposeStack(ns, i);
      }
    }
  }

  lemma {:induction false} PassOpen(ns: seq<Node>, ls: seq<nat>)
    requires Wf(ns) && LeafList(ns, ls) && AllOpen(ns)
    ensures AllOpen(Pass(ns, ls))
    decreases |ls|
  {
    if ls != [] {
      var init := ls[..|ls| - 1];
      var x := ls[|ls| - 1];
      LeafListInit(ns, ls);
      PassOpen(ns, init);
      PassFrame(ns, init);
      var r0 := Pass(ns, init);
      assert r0[x] == ns[x];
      if Expandable(r0[x]) {
        DecomposeOpen(r0, x);
      }
    }
  }

  lemma {:induction false} ExpandedOpen(ns: seq<Node>)
    requires Wf(ns) && AllOpen(ns)
    ensures AllOpen(Expanded(ns))
    decreases Measure(ns)
  {
    var ls := Leaves(ns);
    LeavesAreLeafList(ns);
    if AnyExpandable(ns, ls) {
      PassMeasure(ns, ls);
      PassOpen(ns, ls);
      ExpandedOpen(Pass(ns, ls));
      assert Expanded(ns) == Expanded(Pass(ns, ls));
    }
  }

  /** Under a closed tree no branch below the root is satisfiable. */
  lemma {:induction false} ClosedTreeRefutes(v: set<char>, ns: seq<Node>, x: nat)
    requires Wf(ns) && Justified(ns) && Honest(ns) && IsValid(ns) && 0 < x < |ns|
    ensures !Sat(v, ns, x)
    decreases |ns| - x
  {
    if ns[x].children == [] {
      LeavesAreChildless(ns, x);
      var k :| 0 <= k < |Leaves(ns)| && Leaves(ns)[k] == x;
      ClashRefutes(v, ns, x);
    } else if Sat(v, ns, x) {
      assert JustifiedAt(ns, v, x);
      var j :| 0 <= j < |ns[x].children| && Sat(v, ns, ns[x].children[j]);
      ClosedTreeRefutes(v, ns, ns[x].children[j]);
    }
  }

  // ---------------------------------------------------------------------
  // `generate_truth_tree`

  /** The root with one child per sentence, in order. */
  function Planted(sentences: seq<Prop>): (r: seq<Node>)
    ensures Wf(r) && |r| == |sentences| + 1
    decreases |sentences|
  {
    if sentences == [] then
      assert Wf([RootNode]);
      [RootNode]
    else
      var ns := Planted(sentences[..|sentences| - 1]);
      WithChildFacts(ns, 0, sentences[|sentences| - 1], None);
      WithChild(ns, 0, sentences[|sentences| - 1], None)
  }

  lemma PlantedStep(sentences: seq<Prop>)
    requires sentences != []
    ensures var n := |sentences|; var ns := Planted(sentences[..n - 1]);
      Planted(sentences) == WithChild(ns, 0, sentences[n - 1], None)
  {
  }

  /** The root lists the sentences' nodes `1`, ..., `n` as its children, in order. */
  lemma {:induction false} PlantedRoot(sentences: seq<Prop>)
    ensures Planted(sentences)[0] == RootNode.(children := Range(1, |sentences| + 1))
    decreases |sentences|
  {
    var n := |sentences|;
    if n > 0 {
      var ns := Planted(sentences[..n - 1]);
      PlantedRoot(sentences[..n - 1]);
      PlantedStep(sentences);
      WithChildShape(ns, 0, sentences[n - 1], None);
      assert Range(1, n + 1) == Range(1, n) + [n];
    }
  }

  /** Sentence `k` sits, open and childless, at index `k + 1` under the root. */
  lemma {:induction false} PlantedSentence(sentences: seq<Prop>, k: nat)
    requires k < |sentences|
    ensures Planted(sentences)[k + 1] == Node(Some(sentences[k]), Some(0), [], false, None)
    decreases |sentences|
  {
    var n := |sentences|;
    var init := sentences[..n - 1];
    var ns := Planted(init);
    PlantedStep(sentences);
    WithChildShape(ns, 0, sentences[n - 1], None);
    if k < n - 1 {
      PlantedSentence(init, k);
      assert init[k] == sentences[k];
    }
  }

  lemma PlantedShape(sentences: seq<Prop>)
    ensures var r := Planted(sentences);
      && !r[0].closed
      && r[0].children == Range(1, |sentences| + 1)
      && forall k | 0 <= k < |sentences| :: r[k + 1] == Node(Some(sentences[k]), Some(0), [], false, None)
  {
    PlantedRoot(sentences);
    forall k | 0 <= k < |sentences|
      ensures Planted(sentences)[k + 1] == Node(Some(sentences[k]), Some(0), [], false, None)
    {
      PlantedSentence(sentences, k);
    }
  }

  lemma PlantedOpen(sentences: seq<Prop>)
    ensures AllOpen(Planted(sentences))
  {
    var r := Planted(sentences);
    PlantedShape(sentences);
    forall x | 0 < x < |r| ensures !r[x].closed {
      assert r[x] == Node(Some(sentences[x - 1]), Some(0), [], false, None);
    }
  }

  /** `[lo, lo + 1, ..., hi - 1]` */
  function Range(lo: nat, hi: nat): (r: seq<nat>)
    ensures |r| == if lo <= hi then hi - lo else 0
    ensures forall k | 0 <= k < |r| :: r[k] == lo + k
    decreases hi - lo
  {
    if lo >= hi then [] else Range(lo, hi - 1) + [hi - 1]
  }

  /** No sentence's branch has children yet, so the invariant holds trivially. */
  lemma PlantedJustified(sentences: seq<Prop>)
    ensures Justified(Planted(sentences))
  {
    var ns := Planted(sentences);
    PlantedShape(sentences);
    forall v: set<char>, x: nat ensures JustifiedAt(ns, v, x) {
      if 0 < x < |ns| {
        assert ns[x] == Node(Some(sentences[x - 1]), Some(0), [], false, None);
      }
    }
  }

  /** `generate_truth_tree` with both corrections: the loop guard and the closure walk. */
  function Generate(sentences: seq<Prop>): (r: seq<Node>)
    ensures Wf(r) && |r| > |sentences|
  {
    Closure(Expanded(Planted(sentences)))
  }

  /** Marking leaves closed keeps the tableau invariant. */
  lemma ClosureJustified(ns: seq<Node>)
    requires Wf(ns) && Justified(ns)
    ensures Justified(Closure(ns))
  {
    var r := Closure(ns);
    CloseLeavesMarks(ns, Leaves(ns));
    forall v: set<char>, x: nat ensures JustifiedAt(r, v, x) {
      if 0 < x < |r| && r[x].children != [] && Sat(v, r, x) {
        SatExtends(v, ns, r, x);
        assert JustifiedAt(ns, v, x);
        var j :| 0 <= j < |ns[x].children| && Sat(v, ns, ns[x].children[j]);
        SatExtends(v, ns, r, ns[x].children[j]);
        assert Sat(v, r, r[x].children[j]);
      }
    }
  }

  /** The generated tree keeps the tableau invariant and closes only branches with a clash. */
  lemma GenerateFacts(sentences: seq<Prop>)
    ensures var r := Generate(sentences);
      && Justified(r) && Honest(r)
      && forall k | 0 <= k < |sentences| :: r[k + 1].formula == Some(sentences[k]) && r[k + 1].parent == Some(0)
  {
    var p := Planted(sentences);
    var e := Expanded(p);
    PlantedJustified(sentences);
    PlantedShape(sentences);
    PlantedOpen(sentences);
    ExpandedFacts(p);
    ExpandedOpen(p);
    ClosureMarksClashes(e);
    ClosureJustified(e);
    ExtendsTrans(p, e, Generate(sentences));
  }

  /**
   * Soundness: when every leaf of the generated tree is closed, no valuation
   * makes any of the sentences true. The sentences hang side by side under
   * the root, so a closed tree refutes each one on its own.
   */
  lemma GenerateSound(sentences: seq<Prop>)
    ensures IsValid(Generate(sentences)) ==>
      forall v: set<char>, k | 0 <= k < |sentences| :: !Eval(v, sentences[k])
  {
    var r := Generate(sentences);
    GenerateFacts(sentences);
    if IsValid(r) {
      forall v: set<char>, k | 0 <= k < |sentences| ensures !Eval(v, sentences[k]) {
        ClosedTreeRefutes(v, r, k + 1);
      }
    }
  }

  // ---------------------------------------------------------------------
  // The tree object

  /**
   * `TruthTree` together with the `TreeNode` objects it reaches: the arena
   * `nodes` is the only mutable state, and node `0` is the root.
   */
  class TruthTree {
    var nodes: seq<Node>

    predicate Valid()
      reads this
    {
      Wf(nodes)
    }

    /** `TruthTree(TreeNode(None))` */
    constructor ()
      ensures Valid() && nodes == [RootNode]
    {
      nodes := [RootNode];
      new;
      assert Wf(nodes);
    }

    /** `parent.add_child(TreeNode(f, rule=rule))`; returns the new node. */
    method AddChild(p: nat, f: Prop, rule: Option<string>) returns (c: nat)
      requires Valid() && p < |nodes|
      modifies this
      ensures Valid() && nodes == WithChild(old(nodes), p, f, rule) && c == |old(nodes)|
    {
      WithChildFacts(nodes, p, f, rule);
      c := |nodes|;
      nodes := nodes[p := nodes[p].(children := nodes[p].children + [c])] + [Node(Some(f), Some(p), [], false, rule)];
    }

    /** `collect_leaves(node)`: the leaves below `i`, left to right. */
    method CollectLeaves(i: nat) returns (ls: seq<nat>)
      requires Valid() && i < |nodes|
      ensures ls == LeavesFrom(nodes, i)
      decreases |nodes| - i
    {
      if nodes[i].children == [] {
        return [i];
      }
      ls := [];
      var j := 0;
      while j < |nodes[i].children|
        invariant j <= |nodes[i].children| && ls == LeavesOfChildren(nodes, i, j)
      {
        var sub := CollectLeaves(nodes[i].children[j]);
        ls := ls + sub;
        j := j + 1;
      }
    }

    /** `get_leaves` */
    method GetLeaves() returns (ls: seq<nat>)
      requires Valid()
      ensures ls == Leaves(nodes) && LeafList(nodes, ls)
    {
      LeavesAreLeafList(nodes);
      ls := CollectLeaves(0);
    }

    /** `is_valid`: `all(leaf.closed for leaf in leaves)`. */
    method IsValidTree() returns (b: bool)
      requires Valid()
      ensures b == IsValid(nodes)
    {
      var leaves := GetLeaves();
      for k := 0 to |leaves|
        invariant forall j | 0 <= j < k :: nodes[leaves[j]].closed
      {
        if !nodes[leaves[k]].closed {
          return false;
        }
      }
      return true;
    }

    /**
     * `decompose_node(nodes[i])`: the branches of its `if` chain, grouped by
     * the shape of what they add (see `Rule`).
     */
    method DecomposeNode(i: nat)
      requires Valid() && i < |nodes| && nodes[i].formula.Some?
      modifies this
      ensures Valid() && nodes == Decompose(old(nodes), i)
    {
      match Rule(nodes[i].formula.value)
      case NoRule =>
      case Single(a, s) =>
        var _ := AddChild(i, a, Some(s));
      case Branch(a, b, s) =>
        AddBranched(i, a, b, s);
      case Stack(a, b, s) =>
        AddStacked(i, a, b, s);
    }

    method AddBranched(i: nat, a: Prop, b: Prop, s: string)
      requires Valid() && i < |nodes|
      modifies this
      ensures Valid() && nodes == Branched(old(nodes), i, a, b, s)
    {
      var _ := AddChild(i, a, Some(s));
      var _ := AddChild(i, b, Some(s));
    }

    method AddStacked(i: nat, a: Prop, b: Prop, s: string)
      requires Valid() && i < |nodes|
      modifies this
      ensures Valid() && nodes == Stacked(old(nodes), i, a, b, s)
    {
      var c := AddChild(i, a, Some(s));
      var _ := AddChild(c, b, Some(s));
    }

    /** One pass of the `for leaf in leaves` loop. */
    method PassOver(leaves: seq<nat>)
      requires Valid() && LeafList(nodes, leaves)
      modifies this
      ensures Valid() && nodes == Pass(old(nodes), leaves)
    {
      ghost var n0 := nodes;
      for k := 0 to |leaves|
        invariant Wf(nodes) && nodes == Pass(n0, leaves[..k])
      {
        var x := leaves[k];
        PassStep(n0, leaves, k);
        GuardAgrees(nodes, x);
        if nodes[x].formula.Some? && !nodes[x].formula.value.Atom? {
          DecomposeNode(x);
        }
      }
      assert leaves[..|leaves|] == leaves;
    }

    /** Whether some of the given leaves has a rule to apply. */
    method AnyRule(leaves: seq<nat>) returns (b: bool)
      requires Valid() && Below(nodes, leaves)
      ensures b == AnyExpandable(nodes, leaves)
    {
      for k := 0 to |leaves|
        invariant forall j | 0 <= j < k :: !Expandable(nodes[leaves[j]])
      {
        if Expandable(nodes[leaves[k]]) {
          return true;
        }
      }
      return false;
    }

    /**
     * `expand_tree`, with the loop guard corrected to "some leaf has a rule":
     * each pass decomposes the current leaves whose formula is not an atom,
     * then collects the leaves again.
     */
    method ExpandTree()
      requires Valid()
      modifies this
      ensures Valid() && nodes == Expanded(old(nodes))
    {
      var leaves := GetLeaves();
      var more := AnyRule(leaves);
      while more
        invariant Valid() && Expanded(nodes) == Expanded(old(nodes))
        invariant leaves == Leaves(nodes) && LeafList(nodes, leaves)
        invariant more == AnyExpandable(nodes, leaves)
        decreases Measure(nodes)
      {
        PassMeasure(nodes, leaves);
        assert Expanded(nodes) == Expanded(Pass(nodes, leaves));
        PassOver(leaves);
        leaves := GetLeaves();
        more := AnyRule(leaves);
      }
    }

    /** `check_node_closure(nodes[x])`, with the root's missing formula skipped. */
    method CheckNodeClosure(x: nat) returns (b: bool)
      requires Valid() && x < |nodes|
      ensures b == HasClash(ChainLiterals(nodes, x))
    {
      var lits: set<string> := {};
      var cur: Option<nat> := Some(x);
      while cur.Some?
        invariant cur.Some? ==> cur.value < |nodes|
        invariant ChainLiterals(nodes, x) == lits + (if cur.Some? then ChainLiterals(nodes, cur.value) else {})
        decreases if cur.Some? then cur.value + 1 else 0
      {
        var n := nodes[cur.value];
        if n.formula.Some? {
          lits := lits + LiteralOf(n.formula.value);
        }
        cur := n.parent;
      }
      var rest := lits;
      while rest != {}
        invariant rest <= lits
        invariant forall l | l in lits && l !in rest :: !ClashesWith(lits, l)
        decreases |rest|
      {
        var l :| l in rest;
        if |l| > 0 && l[0] == '¬' {
          if l[1..] in lits {
            return true;
          }
        } else if "¬" + l in lits {
          return true;
        }
        rest := rest - {l};
      }
      return false;
    }

    /** `check_closure`: marks closed every leaf whose branch has a clash. */
    method CheckClosure()
      requires Valid()
      modifies this
      ensures Valid() && nodes == Closure(old(nodes))
    {
      var leaves := GetLeaves();
      ghost var n0 := nodes;
      for k := 0 to |leaves|
        invariant Wf(nodes) && nodes == CloseLeaves(n0, leaves[..k])
      {
        var x := leaves[k];
        CloseLeavesStep(n0, leaves, k);
        var clash := CheckNodeClosure(x);
        if clash {
          nodes := MarkClosed(nodes, x);
        }
      }
      assert leaves[..|leaves|] == leaves;
    }
  }

  /** `generate_truth_tree(sentences)`, with the corrected loop guard and closure walk. */
  method GenerateTruthTree(sentences: seq<Prop>) returns (t: TruthTree)
    ensures fresh(t) && t.Valid() && t.nodes == Generate(sentences)
  {
    t := new TruthTree();
    for k := 0 to |sentences|
      invariant fresh(t) && t.Valid() && t.nodes == Planted(sentences[..k])
    {
      assert sentences[..k + 1][..k] == sentences[..k];
      var _ := t.AddChild(0, sentences[k], None);
    }
    assert sentences[..|sentences|] == sentences;
    t.ExpandTree();
    t.CheckClosure();
  }
}
