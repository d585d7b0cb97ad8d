/**
 * The truth tree of the `utils` package (utils/truth_tree.py): every node
 * is expanded on its own by the rule for its formula, and every node is
 * marked closed when an ancestor holds its complement.
 *
 * `intended` selects between the rules as written and the rules a sound
 * tree needs: a conjunction puts both conjuncts on every branch through
 * it, a negated atom has nothing to expand, and ¬(l → r) becomes l ∧ ¬r.
 */
module UtilsTree {
  import opened Logic

  /** `TreeNode`: a formula, the closed flag, the children in the order they were added. */
  datatype UNode = UNode(formula: Formula, closed: bool, children: seq<UNode>)

  /**
   * A size that every expansion rule decreases: a negation doubles, an
   * implication counts its antecedent twice, so the rewrites of ¬∧, ¬∨ and
   * → to formulas with more connectives still make progress.
   */
  function UWeight(f: Formula): (w: nat)
    ensures w >= 1
  {
    match f
    case Atom(_) => 1
    case Not(g) => 2 * UWeight(g)
    case And(l, r) => UWeight(l) + UWeight(r) + 1
    case Or(l, r) => UWeight(l) + UWeight(r) + 1
    case Implies(l, r) => 2 * UWeight(l) + UWeight(r) + 2
  }

  /** What a node gets: children side by side, or `upper` with `lower` beneath each of its leaves. */
  datatype Rule = Children(fs: seq<Formula>) | Stacked(upper: Formula, lower: Formula)

  /** The branch of `expand_tree` a formula takes. */
  function RuleOf(f: Formula, intended: bool): (r: Rule)
    ensures r.Children? ==> forall i | 0 <= i < |r.fs| :: UWeight(r.fs[i]) < UWeight(f)
    ensures r.Stacked? ==> UWeight(r.upper) < UWeight(f) && UWeight(r.lower) < UWeight(f)
  {
    match f
    case Atom(_) => Children([])
    case And(l, r) => if intended then Stacked(l, r) else Children([l, r])
    case Or(l, r) => Children([l, r])
    case Implies(l, r) => Children([Or(Not(l), r)])
    case Not(g) =>
      match g
      case And(l, r) => Children([Or(Not(l), Not(r))])
      case Or(l, r) => Children([And(Not(l), Not(r))])
      case Not(h) => Children([h])
      case Atom(_) => if intended then Children([]) else Children([g])
      case Implies(l, r) => if intended then Children([And(l, Not(r))]) else Children([g])
  }

  /** `t` with `u` hung beneath each of its leaves. */
  function Graft(t: UNode, u: UNode): (r: UNode)
    ensures r.formula == t.formula && r.closed == t.closed
    decreases t
  {
    if t.children == [] then UNode(t.formula, t.closed, [u])
    else UNode(t.formula, t.closed, seq(|t.children|, i requires 0 <= i < |t.children| => Graft(t.children[i], u)))
  }

  /** Whether `check_for_contradictions` closes a node holding `f` when `seen` holds the formulas above it. */
  predicate Clash(f: Formula, seen: set<Formula>) {
    if f.Not? then f.formula in seen else Not(f) in seen
  }

  /**
   * `check_for_contradictions(t, seen)`: closes each node whose complement
   * is in `seen` or above it within `t`; flags already set stay set.
   */
  function MarkFrom(t: UNode, seen: set<Formula>): (r: UNode)
    ensures r.formula == t.formula && |r.children| == |t.children|
    decreases t
  {
    UNode(t.formula, t.closed || Clash(t.formula, seen),
      seq(|t.children|, i requires 0 <= i < |t.children| => MarkFrom(t.children[i], seen + {t.formula})))
  }

  /**
   * `expand_tree` on a fresh node holding `f`: its children are expanded
   * (and marked) first, then the whole subtree is marked from the node.
   */
  function Expand(f: Formula, intended: bool): (r: UNode)
    ensures r.formula == f && !r.closed
    decreases UWeight(f)
  {
    var node :=
      match RuleOf(f, intended)
      case Children(fs) => UNode(f, false, seq(|fs|, i requires 0 <= i < |fs| => Expand(fs[i], intended)))
      case Stacked(u, l) => UNode(f, false, [Graft(Expand(u, intended), Expand(l, intended))]);
    MarkFrom(node, {})
  }

  /** The same tree built without any marking. */
  function Grow(f: Formula, intended: bool): (r: UNode)
    ensures r.formula == f && !r.closed
    decreases UWeight(f)
  {
    match RuleOf(f, intended)
    case Children(fs) => UNode(f, false, seq(|fs|, i requires 0 <= i < |fs| => Grow(fs[i], intended)))
    case Stacked(u, l) => UNode(f, false, [Graft(Grow(u, intended), Grow(l, intended))])
  }

  // ---------------------------------------------------------------------
  // Marking

  /** A second marking pass with more formulas above subsumes the first: flags are only ever set. */
  lemma {:induction false} MarkTwice(t: UNode, s1: set<Formula>, s2: set<Formula>)
    requires s1 <= s2
    ensures MarkFrom(MarkFrom(t, s1), s2) == MarkFrom(t, s2)
    decreases t
  {
    var a := MarkFrom(MarkFrom(t, s1), s2);
    var b := MarkFrom(t, s2);
    forall i | 0 <= i < |t.children|
      ensures a.children[i] == b.children[i]
    {
      MarkTwice(t.children[i], s1 + {t.formula}, s2 + {t.formula});
    }
  }

  /** Marking children that were already marked from their own roots changes nothing. */
  lemma MarkMarkedChildren(f: Formula, kids: seq<UNode>, marked: seq<UNode>, seen: set<Formula>)
    requires |kids| == |marked|
    requires forall i | 0 <= i < |kids| :: marked[i] == MarkFrom(kids[i], {})
    ensures MarkFrom(UNode(f, false, marked), seen) == MarkFrom(UNode(f, false, kids), seen)
  {
    var a := MarkFrom(UNode(f, false, marked), seen);
    var b := MarkFrom(UNode(f, false, kids), seen);
    forall i | 0 <= i < |kids|
      ensures a.children[i] == b.children[i]
    {
      MarkTwice(kids[i], {}, seen + {f});
    }
  }

  /** Grafting marked trees and marking again is marking the graft of the unmarked ones. */
  lemma {:induction false} MarkGraft(a: UNode, b: UNode, s0: set<Formula>, s: set<Formula>)
    requires s0 <= s
    ensures MarkFrom(Graft(MarkFrom(a, s0), MarkFrom(b, {})), s) == MarkFrom(Graft(a, b), s)
    decreases a
  {
    var x := MarkFrom(Graft(MarkFrom(a, s0), MarkFrom(b, {})), s);
    var y := MarkFrom(Graft(a, b), s);
    if a.children == [] {
      assert MarkFrom(a, s0).children == [];
      MarkTwice(b, {}, s + {a.formula});
      assert x.children[0] == y.children[0];
    } else {
      forall i | 0 <= i < |a.children|
        ensures x.children[i] == y.children[i]
      {
        MarkGraft(a.children[i], b, s0 + {a.formula}, s + {a.formula});
      }
    }
  }

  /** `expand_tree`'s marking passes, one per node, come to one pass from the root over the unmarked tree. */
  lemma {:induction false} ExpandIsMarkedGrow(f: Formula, intended: bool)
    ensures Expand(f, intended) == MarkFrom(Grow(f, intended), {})
    decreases UWeight(f)
  {
    match RuleOf(f, intended)
    case Children(fs) =>
      forall i | 0 <= i < |fs|
        ensures Expand(fs[i], intended) == MarkFrom(Grow(fs[i], intended), {})
      {
        ExpandIsMarkedGrow(fs[i], intended);
      }
      MarkSideBySide(f, fs, intended);
    case Stacked(u, l) =>
      ExpandIsMarkedGrow(u, intended);
      ExpandIsMarkedGrow(l, intended);
      MarkStacked(f, u, l, intended);
  }

  lemma MarkSideBySide(f: Formula, fs: seq<Formula>, intended: bool)
    requires RuleOf(f, intended) == Children(fs)
    requires forall i | 0 <= i < |fs| :: Expand(fs[i], intended) == MarkFrom(Grow(fs[i], intended), {})
    ensures Expand(f, intended) == MarkFrom(Grow(f, intended), {})
  {
    var kids := seq(|fs|, i requires 0 <= i < |fs| => Grow(fs[i], intended));
    var marked := seq(|fs|, i requires 0 <= i < |fs| => Expand(fs[i], intended));
    assert Grow(f, intended) == UNode(f, false, kids);
    assert Expand(f, intended) == MarkFrom(UNode(f, false, marked), {});
    MarkMarkedChildren(f, kids, marked, {});
  }

  lemma MarkStacked(f: Formula, u: Formula, l: Formula, intended: bool)
    requires RuleOf(f, intended) == Stacked(u, l)
    requires UWeight(u) < UWeight(f) && UWeight(l) < UWeight(f)
    requires Expand(u, intended) == MarkFrom(Grow(u, intended), {})
    requires Expand(l, intended) == MarkFrom(Grow(l, intended), {})
    ensures Expand(f, intended) == MarkFrom(Grow(f, intended), {})
  {
    var gu, gl := Grow(u, intended), Grow(l, intended);
    var x := Graft(MarkFrom(gu, {}), MarkFrom(gl, {}));
    assert Expand(f, intended) == MarkFrom(UNode(f, false, [x]), {});
    assert Grow(f, intended) == UNode(f, false, [Graft(gu, gl)]);
    MarkGraft(gu, gl, {}, {f});
    MarkOnlyChild(f, x, Graft(gu, gl));
  }

  lemma MarkOnlyChild(f: Formula, x: UNode, y: UNode)
    requires MarkFrom(x, {f}) == MarkFrom(y, {f})
    ensures MarkFrom(UNode(f, false, [x]), {}) == MarkFrom(UNode(f, false, [y]), {})
  {
    assert {} + {f} == {f};
    assert MarkFrom(UNode(f, false, [x]), {}).children[0] == MarkFrom(UNode(f, false, [y]), {}).children[0];
  }

  // ---------------------------------------------------------------------
  // Paths from the root

  /** `p` names a child at each step down from `t`. */
  predicate ValidPath(t: UNode, p: seq<nat>)
    decreases |p|
  {
    p == [] || (p[0] < |t.children| && ValidPath(t.children[p[0]], p[1..]))
  }

  /** The node `p` leads to. */
  function At(t: UNode, p: seq<nat>): UNode
    requires ValidPath(t, p)
    decreases |p|
  {
    if p == [] then t else At(t.children[p[0]], p[1..])
  }

  /** The formulas of the nodes strictly above the one `p` leads to. */
  function Above(t: UNode, p: seq<nat>): set<Formula>
    requires ValidPath(t, p)
    decreases |p|
  {
    if p == [] then {} else {t.formula} + Above(t.children[p[0]], p[1..])
  }

  /** The formulas of the nodes from the root down to the one `p` leads to. */
  function OnPath(t: UNode, p: seq<nat>): set<Formula>
    requires ValidPath(t, p)
  {
    Above(t, p) + {At(t, p).formula}
  }

  /** One step down, then `q`. */
  lemma StepDown(t: UNode, i: nat, q: seq<nat>)
    requires i < |t.children| && ValidPath(t.children[i], q)
    ensures ValidPath(t, [i] + q) && At(t, [i] + q) == At(t.children[i], q)
    ensures Above(t, [i] + q) == {t.formula} + Above(t.children[i], q)
    ensures OnPath(t, [i] + q) == {t.formula} + OnPath(t.children[i], q)
  {
    assert ([i] + q)[0] == i && ([i] + q)[1..] == q;
  }

  /** Marking keeps the shape and the formulas; a node ends up closed when its complement is above it. */
  lemma {:induction false} MarkedAt(t: UNode, seen: set<Formula>, p: seq<nat>)
    requires ValidPath(t, p)
    ensures ValidPath(MarkFrom(t, seen), p)
    ensures At(MarkFrom(t, seen), p).formula == At(t, p).formula
    ensures |At(MarkFrom(t, seen), p).children| == |At(t, p).children|
    ensures Above(MarkFrom(t, seen), p) == Above(t, p)
    ensures At(MarkFrom(t, seen), p).closed == (At(t, p).closed || Clash(At(t, p).formula, seen + Above(t, p)))
    decreases |p|
  {
    if p != [] {
      MarkedAt(t.children[p[0]], seen + {t.formula}, p[1..]);
      assert seen + {t.formula} + Above(t.children[p[0]], p[1..]) == seen + Above(t, p);
    } else {
      assert seen + {} == seen;
    }
  }

  /** A path of the marked tree is a path of the tree before marking. */
  lemma {:induction false} MarkedPathBack(t: UNode, seen: set<Formula>, p: seq<nat>)
    requires ValidPath(MarkFrom(t, seen), p)
    ensures ValidPath(t, p)
    decreases |p|
  {
    if p != [] {
      MarkedPathBack(t.children[p[0]], seen + {t.formula}, p[1..]);
    }
  }

  /** No flag is set. */
  predicate Unmarked(t: UNode)
    decreases t
  {
    !t.closed && forall i | 0 <= i < |t.children| :: Unmarked(t.children[i])
  }

  lemma {:induction false} GraftUnmarked(t: UNode, u: UNode)
    requires Unmarked(t) && Unmarked(u)
    ensures Unmarked(Graft(t, u))
    decreases t
  {
    if t.children != [] {
      forall i | 0 <= i < |t.children|
        ensures Unmarked(Graft(t, u).children[i])
      {
        GraftUnmarked(t.children[i], u);
      }
    }
  }

  lemma {:induction false} GrowUnmarked(f: Formula, intended: bool)
    ensures Unmarked(Grow(f, intended))
    decreases UWeight(f)
  {
    match RuleOf(f, intended)
    case Children(fs) =>
      forall i | 0 <= i < |fs|
        ensures Unmarked(Grow(f, intended).children[i])
      {
        GrowUnmarked(fs[i], intended);
      }
    case Stacked(u, l) =>
      GrowUnmarked(u, intended);
      GrowUnmarked(l, intended);
      GraftUnmarked(Grow(u, intended), Grow(l, intended));
  }

  lemma {:induction false} UnmarkedAt(t: UNode, p: seq<nat>)
    requires Unmarked(t) && ValidPath(t, p)
    ensures !At(t, p).closed
    decreases |p|
  {
    if p != [] {
      UnmarkedAt(t.children[p[0]], p[1..]);
    }
  }

  /**
   * In the expanded tree a node is closed exactly when a node above it
   * holds its complement: ¬g above a node holding g, or g above ¬g.
   */
  lemma ClosedIffComplementAbove(f: Formula, intended: bool, p: seq<nat>)
    requires ValidPath(Expand(f, intended), p)
    ensures At(Expand(f, intended), p).closed
      <==> Clash(At(Expand(f, intended), p).formula, Above(Expand(f, intended), p))
  {
    var g := Grow(f, intended);
    ExpandIsMarkedGrow(f, intended);
    MarkedPathBack(g, {}, p);
    MarkedAt(g, {}, p);
    GrowUnmarked(f, intended);
    UnmarkedAt(g, p);
    assert {} + Above(g, p) == Above(g, p);
  }

  // ---------------------------------------------------------------------
  // A branch whose formulas all hold

  /** Following `q` below a leaf of `t` in the graft. */
  lemma {:induction false} GraftPath(t: UNode, u: UNode, p: seq<nat>, q: seq<nat>)
    requires ValidPath(t, p) && At(t, p).children == [] && ValidPath(u, q)
    ensures ValidPath(Graft(t, u), p + [0] + q)
    ensures At(Graft(t, u), p + [0] + q) == At(u, q)
    ensures OnPath(Graft(t, u), p + [0] + q) == OnPath(t, p) + OnPath(u, q)
    decreases |p|
  {
    if p == [] {
      assert p + [0] + q == [0] + q;
      StepDown(Graft(t, u), 0, q);
    } else {
      GraftPath(t.children[p[0]], u, p[1..], q);
      GraftStep(t, u, p, q);
    }
  }

  lemma GraftStep(t: UNode, u: UNode, p: seq<nat>, q: seq<nat>)
    requires p != [] && ValidPath(t, p) && ValidPath(u, q)
    requires var c := t.children[p[0]];
      && ValidPath(Graft(c, u), p[1..] + [0] + q)
      && At(Graft(c, u), p[1..] + [0] + q) == At(u, q)
      && OnPath(Graft(c, u), p[1..] + [0] + q) == OnPath(c, p[1..]) + OnPath(u, q)
    ensures ValidPath(Graft(t, u), p + [0] + q)
    ensures At(Graft(t, u), p + [0] + q) == At(u, q)
    ensures OnPath(Graft(t, u), p + [0] + q) == OnPath(t, p) + OnPath(u, q)
  {
    var i := p[0];
    var c := t.children[i];
    assert p + [0] + q == [i] + (p[1..] + [0] + q);
    assert Graft(t, u).children[i] == Graft(c, u);
    StepDown(Graft(t, u), i, p[1..] + [0] + q);
    assert p == [i] + p[1..];
    StepDown(t, i, p[1..]);
  }

  /** With the sound rules, a node that holds keeps holding on one of the branches beneath it. */
  lemma RuleHolds(f: Formula, v: set<string>)
    requires Holds(v, f)
    ensures RuleOf(f, true).Stacked? ==> Holds(v, RuleOf(f, true).upper) && Holds(v, RuleOf(f, true).lower)
    ensures RuleOf(f, true).Children? && RuleOf(f, true).fs != [] ==>
      exists i | 0 <= i < |RuleOf(f, true).fs| :: Holds(v, RuleOf(f, true).fs[i])
  {
    match f
    case Atom(_) =>
    case And(_, _) =>
    case Or(l, r) =>
      assert RuleOf(f, true) == Children([l, r]);
      if Holds(v, l) {
        assert Holds(v, RuleOf(f, true).fs[0]);
      } else {
        assert Holds(v, RuleOf(f, true).fs[1]);
      }
    case Implies(l, r) =>
      assert RuleOf(f, true) == Children([Or(Not(l), r)]);
      assert Holds(v, RuleOf(f, true).fs[0]);
    case Not(g) =>
      match g
      case Atom(_) =>
      case And(l, r) =>
        assert RuleOf(f, true) == Children([Or(Not(l), Not(r))]);
        assert !Holds(v, l) || !Holds(v, r);
        assert Holds(v, Not(l)) || Holds(v, Not(r));
        assert Holds(v, RuleOf(f, true).fs[0]);
      case Or(l, r) =>
        assert RuleOf(f, true) == Children([And(Not(l), Not(r))]);
        assert !Holds(v, l) && !Holds(v, r);
        assert Holds(v, Not(l)) && Holds(v, Not(r));
        assert Holds(v, RuleOf(f, true).fs[0]);
      case Not(h) =>
        assert RuleOf(f, true) == Children([h]);
        assert Holds(v, RuleOf(f, true).fs[0]);
      case Implies(l, r) =>
        assert RuleOf(f, true) == Children([And(l, Not(r))]);
        assert Holds(v, l) && !Holds(v, r);
        assert Holds(v, Not(r));
        assert Holds(v, RuleOf(f, true).fs[0]);
  }

  /**
   * A formula that holds under `v` has, in its tree built with the sound
   * rules, a branch from the root to a leaf on which every formula holds.
   */
  lemma {:induction false} HoldingBranch(f: Formula, v: set<string>) returns (p: seq<nat>)
    requires Holds(v, f)
    ensures ValidPath(Grow(f, true), p) && At(Grow(f, true), p).children == []
    ensures forall g | g in OnPath(Grow(f, true), p) :: Holds(v, g)
    decreases UWeight(f)
  {
    var t := Grow(f, true);
    RuleHolds(f, v);
    match RuleOf(f, true)
    case Children(fs) =>
      if fs == [] {
        p := [];
        assert OnPath(t, p) == {f};
      } else {
        var i :| 0 <= i < |fs| && Holds(v, fs[i]);
        var q := HoldingBranch(fs[i], v);
        assert t.children[i] == Grow(fs[i], true);
        StepDown(t, i, q);
        p := [i] + q;
      }
    case Stacked(u, l) =>
      var pu := HoldingBranch(u, v);
      var pl := HoldingBranch(l, v);
      GraftPath(Grow(u, true), Grow(l, true), pu, pl);
      assert t.children[0] == Graft(Grow(u, true), Grow(l, true));
      StepDown(t, 0, pu + [0] + pl);
      p := [0] + (pu + [0] + pl);
  }
}
