/**
 * Premises, open branches and the validity verdict of the `utils` package
 * (utils/truth_tree.py): `combine_premises`, `generate_truth_tree`,
 * `collect_open_branches` and `check_validity`.
 */
module UtilsCheck {
  import opened Results
  import opened Logic
  import opened UtilsTree

  /** The `ValueError` `combine_premises` raises. */
  datatype TreeError = NoPremises

  // ---------------------------------------------------------------------
  // Premises

  /** The premises joined by ∧, nested to the left, in order. */
  function Conj(ps: seq<Formula>): Formula
    requires ps != []
    decreases |ps|
  {
    if |ps| == 1 then ps[0] else And(Conj(ps[..|ps| - 1]), ps[|ps| - 1])
  }

  /** The conjunction holds exactly when every premise does. */
  lemma {:induction false} ConjHolds(ps: seq<Formula>, v: set<string>)
    requires ps != []
    ensures Holds(v, Conj(ps)) <==> forall i | 0 <= i < |ps| :: Holds(v, ps[i])
    decreases |ps|
  {
    if |ps| > 1 {
      var init := ps[..|ps| - 1];
      ConjHolds(init, v);
      assert forall i | 0 <= i < |init| :: init[i] == ps[i];
    }
  }

  /** `combine_premises`. */
  method CombinePremises(premises: seq<Formula>) returns (r: Result<Formula, TreeError>)
    ensures premises == [] ==> r == Err(NoPremises)
    ensures premises != [] ==> r == Ok(Conj(premises))
  {
    if premises == [] {
      return Err(NoPremises);
    }
    var combined := premises[0];
    assert premises[..1] == [premises[0]];
    for i := 1 to |premises|
      invariant combined == Conj(premises[..i])
    {
      assert premises[..i + 1][..i] == premises[..i];
      combined := And(combined, premises[i]);
    }
    assert premises[..|premises|] == premises;
    r := Ok(combined);
  }

  /** The formula at the root of the tree for an argument: the premises and the denied conclusion. */
  function RootFormula(premises: seq<Formula>, conclusion: Formula): Formula
    requires premises != []
  {
    And(Conj(premises), Not(conclusion))
  }

  /** `generate_truth_tree`. */
  method GenerateTruthTree(premises: seq<Formula>, conclusion: Formula, intended: bool)
    returns (r: Result<UNode, TreeError>)
    ensures premises == [] ==> r == Err(NoPremises)
    ensures premises != [] ==> r == Ok(Expand(RootFormula(premises, conclusion), intended))
  {
    var combined := CombinePremises(premises);
    if combined.Err? {
      return Err(combined.error);
    }
    r := Ok(Expand(And(combined.value, Not(conclusion)), intended));
  }

  // ---------------------------------------------------------------------
  // Open branches

  /** The nodes from `t` down to the one `p` leads to. */
  function Along(t: UNode, p: seq<nat>): seq<UNode>
    requires ValidPath(t, p)
    decreases |p|
  {
    [t] + (if p == [] then [] else Along(t.children[p[0]], p[1..]))
  }

  /** `collect_open_branches(t, above, [])`: each branch is `above`, then the nodes down to a leaf that is not closed. */
  function OpenBranches(t: UNode, above: seq<UNode>): seq<seq<UNode>>
    decreases t, |t.children| + 1
  {
    if t.children == [] && !t.closed then [above + [t]]
    else OpenUpTo(t, |t.children|, above + [t])
  }

  /** The open branches below the first `k` children of `t`, in order. */
  function OpenUpTo(t: UNode, k: nat, above: seq<UNode>): seq<seq<UNode>>
    requires k <= |t.children|
    decreases t, k
  {
    if k == 0 then [] else OpenUpTo(t, k - 1, above) + OpenBranches(t.children[k - 1], above)
  }

  /** A leaf that is not closed is the end of an open branch. */
  predicate OpenLeaf(t: UNode, p: seq<nat>) {
    ValidPath(t, p) && At(t, p).children == [] && !At(t, p).closed
  }

  lemma {:induction false} OpenUpToHas(t: UNode, k: nat, i: nat, above: seq<UNode>, b: seq<UNode>)
    requires i < k <= |t.children| && b in OpenBranches(t.children[i], above)
    ensures b in OpenUpTo(t, k, above)
    decreases k
  {
    if i < k - 1 {
      OpenUpToHas(t, k - 1, i, above, b);
    }
  }

  /** Every leaf that is not closed gives a branch. */
  lemma {:induction false} OpenLeafListed(t: UNode, above: seq<UNode>, p: seq<nat>)
    requires OpenLeaf(t, p)
    ensures above + Along(t, p) in OpenBranches(t, above)
    decreases |p|
  {
    if p == [] {
      assert Along(t, p) == [t];
    } else {
      var i := p[0];
      OpenLeafListed(t.children[i], above + [t], p[1..]);
      assert above + Along(t, p) == (above + [t]) + Along(t.children[i], p[1..]);
      OpenUpToHas(t, |t.children|, i, above + [t], above + Along(t, p));
    }
  }

  lemma {:induction false} OpenUpToFrom(t: UNode, k: nat, above: seq<UNode>, b: seq<UNode>) returns (i: nat)
    requires k <= |t.children| && b in OpenUpTo(t, k, above)
    ensures i < k && b in OpenBranches(t.children[i], above)
    decreases k
  {
    if b in OpenBranches(t.children[k - 1], above) {
      i := k - 1;
    } else {
      i := OpenUpToFrom(t, k - 1, above, b);
    }
  }

  /** Every branch listed ends at a leaf that is not closed. */
  lemma {:induction false} ListedOpenLeaf(t: UNode, above: seq<UNode>, b: seq<UNode>) returns (p: seq<nat>)
    requires b in OpenBranches(t, above)
    ensures OpenLeaf(t, p) && b == above + Along(t, p)
    decreases t
  {
    if t.children == [] && !t.closed {
      p := [];
      assert Along(t, p) == [t];
    } else {
      assert b in OpenUpTo(t, |t.children|, above + [t]);
      var i := OpenUpToFrom(t, |t.children|, above + [t], b);
      var q := ListedOpenLeaf(t.children[i], above + [t], b);
      p := [i] + q;
      OpenLeafStep(t, i, q, above);
    }
  }

  /** An open leaf below child `i`, seen from `t`. */
  lemma OpenLeafStep(t: UNode, i: nat, q: seq<nat>, above: seq<UNode>)
    requires i < |t.children| && OpenLeaf(t.children[i], q)
    ensures OpenLeaf(t, [i] + q)
    ensures above + Along(t, [i] + q) == (above + [t]) + Along(t.children[i], q)
  {
    AlongStep(t, i, q);
  }

  lemma AlongStep(t: UNode, i: nat, q: seq<nat>)
    requires i < |t.children| && ValidPath(t.children[i], q)
    ensures ValidPath(t, [i] + q) && At(t, [i] + q) == At(t.children[i], q)
    ensures Along(t, [i] + q) == [t] + Along(t.children[i], q)
  {
    StepDown(t, i, q);
    assert ([i] + q)[0] == i && ([i] + q)[1..] == q;
  }

  /** `collect_open_branches` lists exactly the root-to-leaf paths whose leaf is not closed. */
  lemma OpenBranchesMeaning(t: UNode, b: seq<UNode>)
    ensures b in OpenBranches(t, []) <==> exists p :: OpenLeaf(t, p) && b == Along(t, p)
  {
    if b in OpenBranches(t, []) {
      var p := ListedOpenLeaf(t, [], b);
      assert [] + Along(t, p) == Along(t, p);
    }
    if exists p :: OpenLeaf(t, p) && b == Along(t, p) {
      var p :| OpenLeaf(t, p) && b == Along(t, p);
      OpenLeafListed(t, [], p);
      assert [] + Along(t, p) == Along(t, p);
    }
  }

  /** `collect_open_branches(node, current_branch, open_branches)`: appends the open branches below `node`. */
  method CollectOpenBranches(node: UNode, current: seq<UNode>, open: seq<seq<UNode>>)
    returns (result: seq<seq<UNode>>)
    ensures result == open + OpenBranches(node, current)
    decreases node
  {
    var branch := current + [node];
    if node.children == [] && !node.closed {
      return open + [branch];
    }
    result := open;
    for i := 0 to |node.children|
      invariant result == open + OpenUpTo(node, i, branch)
    {
      result := CollectOpenBranches(node.children[i], branch, result);
    }
  }

  // ---------------------------------------------------------------------
  // The verdict

  /** The `formula_to_str` labels of the nodes of a branch. */
  function BranchLabels(b: seq<UNode>): set<string> {
    if b == [] then {} else BranchLabels(b[..|b| - 1]) + {FormulaToStr(b[|b| - 1].formula)}
  }

  /** The labels of all the nodes of all the branches. */
  function Labels(bs: seq<seq<UNode>>): set<string> {
    if bs == [] then {} else Labels(bs[..|bs| - 1]) + BranchLabels(bs[|bs| - 1])
  }

  lemma {:induction false} BranchLabelsMeaning(b: seq<UNode>, s: string)
    ensures s in BranchLabels(b) <==> exists k | 0 <= k < |b| :: FormulaToStr(b[k].formula) == s
  {
    if b != [] {
      var init := b[..|b| - 1];
      BranchLabelsMeaning(init, s);
      assert forall k | 0 <= k < |init| :: init[k] == b[k];
    }
  }

  /** The keys of the counterexample are the labels of the nodes on the open branches, and nothing else. */
  lemma {:induction false} LabelsMeaning(bs: seq<seq<UNode>>, s: string)
    ensures s in Labels(bs) <==> exists j, k | 0 <= j < |bs| && 0 <= k < |bs[j]| :: FormulaToStr(bs[j][k].formula) == s
  {
    if bs != [] {
      var init := bs[..|bs| - 1];
      LabelsMeaning(init, s);
      BranchLabelsMeaning(bs[|bs| - 1], s);
      assert forall j | 0 <= j < |init| :: init[j] == bs[j];
    }
  }

  /** The inner loop of the comprehension in `check_validity`: every node of `branch` adds its label. */
  method AddLabels(m: map<string, bool>, branch: seq<UNode>) returns (r: map<string, bool>)
    requires forall s | s in m :: m[s]
    ensures r.Keys == m.Keys + BranchLabels(branch)
    ensures forall s | s in r :: r[s]
  {
    r := m;
    for k := 0 to |branch|
      invariant r.Keys == m.Keys + BranchLabels(branch[..k])
      invariant forall s | s in r :: r[s]
    {
      assert branch[..k + 1][..k] == branch[..k];
      r := r[FormulaToStr(branch[k].formula) := true];
    }
    assert branch[..|branch|] == branch;
  }

  /**
   * `check_validity`: valid when no branch is open; otherwise every node on
   * every open branch contributes its label, mapped to true.
   */
  method CheckValidity(root: UNode) returns (valid: bool, counterexample: Option<map<string, bool>>)
    ensures valid <==> OpenBranches(root, []) == []
    ensures valid ==> counterexample == None
    ensures !valid ==> (
      && counterexample.Some?
      && counterexample.value.Keys == Labels(OpenBranches(root, []))
      && forall s | s in counterexample.value :: counterexample.value[s])
  {
    var open := CollectOpenBranches(root, [], []);
    assert open == OpenBranches(root, []);
    if open == [] {
      return true, None;
    }
    var m: map<string, bool> := map[];
    for j := 0 to |open|
      invariant m.Keys == Labels(open[..j])
      invariant forall s | s in m :: m[s]
    {
      assert open[..j + 1][..j] == open[..j];
      m := AddLabels(m, open[j]);
    }
    assert open[..|open|] == open;
    return false, Some(m);
  }

  // ---------------------------------------------------------------------
  // Soundness of the verdict with the sound rules

  /** Two formulas that both hold are never complementary. */
  lemma NoClashOnHoldingBranch(f: Formula, above: set<Formula>, v: set<string>)
    requires Holds(v, f) && forall g | g in above :: Holds(v, g)
    ensures !Clash(f, above)
  {
  }

  /** A formula that can hold leaves, in its tree built with the sound rules, a branch open. */
  lemma SatisfiableLeavesOpenBranch(f: Formula, v: set<string>)
    requires Holds(v, f)
    ensures OpenBranches(Expand(f, true), []) != []
  {
    var g := Grow(f, true);
    var p := HoldingBranch(f, v);
    ExpandIsMarkedGrow(f, true);
    GrowUnmarked(f, true);
    UnmarkedAt(g, p);
    MarkedAt(g, {}, p);
    assert {} + Above(g, p) == Above(g, p);
    NoClashOnHoldingBranch(At(g, p).formula, Above(g, p), v);
    OpenLeafListed(Expand(f, true), [], p);
  }

  /**
   * With the sound rules, an argument the tree calls valid is valid: every
   * assignment that makes all the premises true makes the conclusion true.
   */
  lemma ValidVerdictIsSound(premises: seq<Formula>, conclusion: Formula, v: set<string>)
    requires premises != []
    requires OpenBranches(Expand(RootFormula(premises, conclusion), true), []) == []
    requires forall i | 0 <= i < |premises| :: Holds(v, premises[i])
    ensures Holds(v, conclusion)
  {
    ConjHolds(premises, v);
    if !Holds(v, conclusion) {
      SatisfiableLeavesOpenBranch(RootFormula(premises, conclusion), v);
    }
  }

  // ---------------------------------------------------------------------
  // The rules as written against the sound rules

  const P := Atom("P")
  const Q := Atom("Q")

  /** An atom is a leaf that nothing above can close when it is the root. */
  lemma ExpandAtom(a: Formula, intended: bool)
    requires a.Atom?
    ensures Expand(a, intended) == UNode(a, false, [])
  {
    assert Clash(a, {}) == false;
  }

  /** As written, a negated atom gets the atom as its child, which its parent then closes. */
  lemma ExpandNegatedAtomAsWritten(a: Formula)
    requires a.Atom?
    ensures Expand(Not(a), false) == UNode(Not(a), false, [UNode(a, true, [])])
  {
    ExpandAtom(a, false);
    var e := Expand(Not(a), false);
    assert e == MarkFrom(UNode(Not(a), false, [UNode(a, false, [])]), {});
    assert e.children[0] == MarkFrom(UNode(a, false, []), {} + {Not(a)});
    assert Clash(a, {} + {Not(a)});
  }

  /** A node whose only child is a closed leaf has no open branch. */
  lemma ClosedLeafBelow(t: UNode, above: seq<UNode>)
    requires |t.children| == 1 && t.children[0].children == [] && t.children[0].closed
    ensures OpenBranches(t, above) == []
  {
    var leaf := t.children[0];
    assert OpenBranches(leaf, above + [t]) == [] by {
      assert OpenBranches(leaf, above + [t]) == OpenUpTo(leaf, 0, above + [t] + [leaf]);
    }
    assert OpenUpTo(t, 1, above + [t]) == OpenUpTo(t, 0, above + [t]) + OpenBranches(leaf, above + [t]);
  }

  /** Marking a node whose only child is a closed leaf keeps that shape. */
  lemma MarkedClosedLeafBelow(t: UNode, seen: set<Formula>)
    requires |t.children| == 1 && t.children[0].children == [] && t.children[0].closed
    ensures var m := MarkFrom(t, seen); |m.children| == 1 && m.children[0].children == [] && m.children[0].closed
  {
    var m := MarkFrom(t, seen);
    assert m.children[0] == MarkFrom(t.children[0], seen + {t.formula});
  }

  /**
   * As written, ¬P ⊢ Q is called valid: both sides of the root close at
   * the atom under their negation, yet P and Q both false makes the
   * premise true and the conclusion false.
   */
  lemma NegatedAtomUnsoundAsWritten()
    ensures OpenBranches(Expand(RootFormula([Not(P)], Q), false), []) == []
    ensures Holds({}, Not(P)) && !Holds({}, Q)
  {
    var root := And(Not(P), Not(Q));
    assert RootFormula([Not(P)], Q) == root;
    var ep := UNode(Not(P), false, [UNode(P, true, [])]);
    var eq := UNode(Not(Q), false, [UNode(Q, true, [])]);
    NegationsSideBySide();
    var e := Expand(root, false);
    assert e.children[0] == MarkFrom(ep, {} + {root});
    assert e.children[1] == MarkFrom(eq, {} + {root});
    MarkedClosedLeafBelow(ep, {} + {root});
    MarkedClosedLeafBelow(eq, {} + {root});
    BothSidesClosed(e);
  }

  lemma NegationsSideBySide()
    ensures Expand(And(Not(P), Not(Q)), false)
      == MarkFrom(UNode(And(Not(P), Not(Q)), false, [UNode(Not(P), false, [UNode(P, true, [])]), UNode(Not(Q), false, [UNode(Q, true, [])])]), {})
  {
    ExpandNegatedAtomAsWritten(P);
    ExpandNegatedAtomAsWritten(Q);
    var fs := [Not(P), Not(Q)];
    assert RuleOf(And(Not(P), Not(Q)), false) == Children(fs);
    var kids := seq(|fs|, i requires 0 <= i < |fs| => Expand(fs[i], false));
    assert kids[0] == Expand(Not(P), false) && kids[1] == Expand(Not(Q), false);
  }

  lemma BothSidesClosed(e: UNode)
    requires |e.children| == 2
    requires forall i | 0 <= i < 2 ::
      |e.children[i].children| == 1 && e.children[i].children[0].children == [] && e.children[i].children[0].closed
    ensures OpenBranches(e, []) == []
  {
    ClosedLeafBelow(e.children[0], [] + [e]);
    ClosedLeafBelow(e.children[1], [] + [e]);
    assert OpenBranches(e, []) == OpenUpTo(e, 2, [] + [e]);
    assert OpenUpTo(e, 2, [] + [e]) == OpenUpTo(e, 0, [] + [e]) + OpenBranches(e.children[0], [] + [e]) + OpenBranches(e.children[1], [] + [e]);
  }

  /**
   * As written, P ⊢ P is called invalid: the conjunction at the root puts
   * P and ¬P on separate branches, so nothing closes the branch ending in P.
   */
  lemma SelfEntailmentRejectedAsWritten()
    ensures OpenBranches(Expand(RootFormula([P], P), false), []) != []
  {
    var root := And(P, Not(P));
    assert RootFormula([P], P) == root;
    ExpandAtom(P, false);
    ExpandNegatedAtomAsWritten(P);
    var e := Expand(root, false);
    assert e == MarkFrom(UNode(root, false, [UNode(P, false, []), UNode(Not(P), false, [UNode(P, true, [])])]), {});
    assert e.children[0] == UNode(P, false, []) by {
      assert !Clash(P, {} + {root});
    }
    StepDown(e, 0, []);
    OpenLeafListed(e, [], [0]);
  }

  /** With the sound rules, P ⊢ P is called valid: ¬P sits beneath P and closes against it. */
  lemma SelfEntailmentAcceptedIntended()
    ensures OpenBranches(Expand(RootFormula([P], P), true), []) == []
  {
    var root := And(P, Not(P));
    assert RootFormula([P], P) == root;
    ExpandAtom(P, true);
    var np := Expand(Not(P), true);
    assert np == UNode(Not(P), false, []);
    var e := Expand(root, true);
    assert e == MarkFrom(UNode(root, false, [UNode(P, false, [np])]), {});
    var c := e.children[0];
    assert c == MarkFrom(UNode(P, false, [np]), {} + {root});
    assert c.children[0] == MarkFrom(np, {} + {root} + {P});
    assert c.children[0].closed;
    ClosedLeafBelow(c, [] + [e]);
    assert OpenBranches(e, []) == OpenUpTo(e, 1, [] + [e]);
    assert OpenUpTo(e, 1, [] + [e]) == OpenUpTo(e, 0, [] + [e]) + OpenBranches(c, [] + [e]);
  }
}
