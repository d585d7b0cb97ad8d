/**
 * The single-file Flask version of the truth-tree generator,
 * truth_tree_generator/app.py: its own `tokenize`, and the tree that
 * `generate_truth_tree` grows with its nested `expand_node` and
 * `check_contradiction`. Its parser, `parse_expression`, is the `Flask`
 * dialect of module Parser, and its `formula_to_string` is `Prop.Render` on
 * formulas (the "Root" text it gives the formula-less root belongs to the
 * drawing, which is not part of this model).
 */
module App {
  import opened Results
  import opened Prop
  import opened Lexer

  // ---------------------------------------------------------------------
  // `tokenize`

  /**
   * What `tokenize` of app.py returns: the token of each character it
   * recognises, in order. Whitespace, unknown characters and a `↔` that is
   * not the last character are dropped without an error.
   */
  function AppLex(s: string): (r: seq<Tok>)
    ensures |r| <= |s|
    decreases |s|
  {
    if s == [] then []
    else (match CharToken(s[0], |s| == 1) case Some(t) => [t] case None => []) + AppLex(s[1..])
  }

  /** One step of `AppLex` on the suffix that starts at `i`. */
  lemma AppLexStep(s: string, i: nat)
    requires i < |s|
    ensures AppLex(s[i..])
      == (match CharToken(s[i], i == |s| - 1) case Some(t) => [t] case None => []) + AppLex(s[i + 1..])
  {
    assert s[i..][0] == s[i];
    assert s[i..][1..] == s[i + 1..];
  }

  /** The `while` loop of `tokenize`, proved to compute `AppLex`. */
  method AppTokenize(sentence: string) returns (tokens: seq<Tok>)
    ensures tokens == AppLex(sentence)
  {
    tokens := [];
    var i := 0;
    assert sentence[0..] == sentence;
    while i < |sentence|
      invariant 0 <= i <= |sentence| + 1
      invariant AppLex(sentence) == tokens + (if i <= |sentence| then AppLex(sentence[i..]) else [])
      decreases |sentence| + 1 - i
    {
      var t := ReadChar(sentence, i);
      TokenizeStep(sentence, i, tokens, t);
      tokens := tokens + (if t.Some? then [t.value] else []);
      i := if t == Some(TIff) then i + 2 else i + 1;
    }
    assert i <= |sentence| ==> sentence[i..] == [];
  }

  /** The `if`/`elif` chain of the loop body: the token for the character at `i`, if any. */
  method ReadChar(sentence: string, i: nat) returns (t: Option<Tok>)
    requires i < |sentence|
    ensures t == CharToken(sentence[i], i == |sentence| - 1)
  {
    var c := sentence[i];
    var pairEnd := if i + 2 <= |sentence| then i + 2 else |sentence|;
    SliceTest(sentence, i, pairEnd);
    t := None;
    if IsAlpha(c) {
      t := Some(TAtom(c));
    } else if c == '∧' {
      t := Some(TAnd);
    } else if c == '∨' {
      t := Some(TOr);
    } else if c == '¬' {
      t := Some(TNot);
    } else if c == '→' {
      t := Some(TImplies);
    } else if sentence[i..pairEnd] == "↔" {
      t := Some(TIff);
    } else if c == '(' {
      t := Some(TLParen);
    } else if c == ')' {
      t := Some(TRParen);
    }
  }

  /** One pass of the loop body keeps the loop invariant of `AppTokenize`. */
  lemma TokenizeStep(s: string, i: nat, tokens: seq<Tok>, t: Option<Tok>)
    requires i < |s| && t == CharToken(s[i], i == |s| - 1) && AppLex(s) == tokens + AppLex(s[i..])
    ensures var tokens' := tokens + (if t.Some? then [t.value] else []);
      var i' := if t == Some(TIff) then i + 2 else i + 1;
      AppLex(s) == tokens' + (if i' <= |s| then AppLex(s[i'..]) else [])
  {
    AppLexStep(s, i);
    IffTokenIsLast(s[i], i == |s| - 1);
    var head := if t.Some? then [t.value] else [];
    Regroup(AppLex(s), tokens, AppLex(s[i..]), head, AppLex(s[i + 1..]));
    if t == Some(TIff) {
      assert s[i + 1..] == [];
      Regroup(AppLex(s), tokens + head, AppLex(s[i + 1..]), [], []);
    }
  }

  lemma Regroup<T>(whole: seq<T>, front: seq<T>, x: seq<T>, head: seq<T>, y: seq<T>)
    requires whole == front + x && x == head + y
    ensures whole == (front + head) + y
  {
  }

  lemma IffTokenIsLast(c: char, isLast: bool)
    ensures CharToken(c, isLast) == Some(TIff) <==> c == '↔' && isLast
  {
  }

  /** The two-character slice test of `tokenize` holds exactly for a final `↔`. */
  lemma SliceTest(s: string, i: nat, pairEnd: nat)
    requires i < |s| && pairEnd == (if i + 2 <= |s| then i + 2 else |s|)
    ensures s[i..pairEnd] == "↔" <==> s[i] == '↔' && i == |s| - 1
  {
    if i + 2 <= |s| {
      assert |s[i..pairEnd]| == 2;
    } else {
      assert s[i..pairEnd] == [s[i]];
    }
  }

  /** The characters `tokenize` keeps, in order. */
  function Kept(s: string): string
    decreases |s|
  {
    if s == [] then [] else (if CharToken(s[0], |s| == 1).Some? then [s[0]] else []) + Kept(s[1..])
  }

  /**
   * The Flask tokenizer never raises: it is the package tokenizer applied to
   * the characters it keeps.
   */
  lemma {:induction false} AppLexIsLexOfKept(s: string)
    ensures Lex(Kept(s)) == Ok(AppLex(s))
    decreases |s|
  {
    if s != [] {
      AppLexIsLexOfKept(s[1..]);
      var rest := Kept(s[1..]);
      var o := CharToken(s[0], |s| == 1);
      if o.None? {
        assert Kept(s) == [] + rest == rest;
        assert AppLex(s) == [] + AppLex(s[1..]) == AppLex(s[1..]);
      } else {
        if s[0] == '↔' {
          KeptOfLast(s);
        }
        assert Kept(s) == [s[0]] + rest;
        LexHead(s[0], rest, o.value);
      }
    }
  }

  /** A kept `↔` is the last character, so it keeps nothing after it. */
  lemma KeptOfLast(s: string)
    requires s != [] && CharToken(s[0], |s| == 1).Some? && s[0] == '↔'
    ensures Kept(s[1..]) == []
  {
  }

  lemma LexHead(c: char, rest: string, t: Tok)
    requires CharToken(c, true) == Some(t) && (c == '↔' ==> rest == [])
    requires Lex(rest).Ok?
    ensures Lex([c] + rest) == Ok([t] + Lex(rest).value)
  {
    assert ([c] + rest)[0] == c && ([c] + rest)[1..] == rest;
  }

  /** On every input the package tokenizer accepts, the two tokenizers agree. */
  lemma {:induction false} AppLexAgrees(s: string)
    requires Lex(s).Ok?
    ensures AppLex(s) == Lex(s).value
    decreases |s|
  {
    if s != [] {
      AppLexAgrees(s[1..]);
      if IsSpace(s[0]) {
        assert CharToken(s[0], |s| == 1).None?;
      }
    }
  }

  /** A `↔` between two atoms is dropped: `P↔Q` reads as the two atoms `P Q`, where the package raises. */
  lemma InnerIffDropped()
    ensures AppLex("P↔Q") == [TAtom('P'), TAtom('Q')]
    ensures Lex("P↔Q") == Err(UnexpectedChar('↔'))
  {
    assert "P↔Q"[1..] == "↔Q" && "↔Q"[1..] == "Q" && "Q"[1..] == [];
    assert AppLex("Q") == [TAtom('Q')] + AppLex([]);
    assert AppLex("↔Q") == AppLex("Q");
    assert Lex("↔Q") == Err(UnexpectedChar('↔'));
  }

  // ---------------------------------------------------------------------
  // The tree: `TreeNode` objects kept in an arena, referred to by index

  /** A `TreeNode` of app.py: its formula (None for the root), parent, children and closed flag. */
  datatype ANode = ANode(formula: Option<Prop>, parent: Option<nat>, children: seq<nat>, closed: bool)

  /** `TreeNode(None)`, the root `generate_truth_tree` starts from. */
  const Root := ANode(None, None, [], false)

  predicate Below(ns: seq<ANode>, ls: seq<nat>) {
    forall k | 0 <= k < |ls| :: ls[k] < |ns|
  }

  predicate Distinct(ls: seq<nat>) {
    forall p, q | 0 <= p < q < |ls| :: ls[p] != ls[q]
  }

  /** Distinct nodes of the arena without children: what the leaf lists of app.py hold. */
  predicate LeafList(ns: seq<ANode>, ls: seq<nat>) {
    Below(ns, ls) && Distinct(ls) && forall k | 0 <= k < |ls| :: ns[ls[k]].children == []
  }

  /** A parent is created before its children. */
  predicate ParentsBefore(ns: seq<ANode>) {
    forall y | 0 <= y < |ns| && ns[y].parent.Some? :: ns[y].parent.value < y
  }

  /** Two nodes agree on everything but their children. */
  predicate Same(a: ANode, b: ANode) {
    a.formula == b.formula && a.parent == b.parent && a.closed == b.closed
  }

  /** `ns2` only adds nodes to `ns` and children to its nodes. */
  predicate Extends(ns: seq<ANode>, ns2: seq<ANode>) {
    |ns2| >= |ns| && forall y | 0 <= y < |ns| :: Same(ns[y], ns2[y])
  }

  /** The nodes `ns2` adds to `ns` are open, hold a formula, and have an earlier parent. */
  predicate NewNodes(ns: seq<ANode>, ns2: seq<ANode>) {
    forall y | |ns| <= y < |ns2| ::
      !ns2[y].closed && ns2[y].formula.Some? && ns2[y].parent.Some? && ns2[y].parent.value < y
  }

  /** `node.children.append(TreeNode(f, node))`. */
  function Attach(ns: seq<ANode>, p: nat, f: Prop): (r: seq<ANode>)
    requires p < |ns|
    ensures |r| == |ns| + 1
  {
    ns[p := ns[p].(children := ns[p].children + [|ns|])] + [ANode(Some(f), Some(p), [], false)]
  }

  /** What `expand_node` does with a formula. */
  datatype Step =
    | Stack(upper: Prop, lower: Prop)  // a child, and a child of that child, whose children are returned
    | Split(first: Prop, second: Prop) // two children; all the children of the node are returned
    | Single(only: Prop)               // one child; all the children of the node are returned
    | Detached                         // a new node below the node that is not among its children

  /** The rule table of `expand_node`. */
  function StepOf(f: Prop): Step {
    match f
    case And(l, r) => Stack(l, r)
    case Or(l, r) => Split(l, r)
    case Implies(l, r) => Split(Not(l), r)
    case Iff(l, r) => Split(Implies(l, r), Implies(r, l))
    case Not(g) =>
      (match g
       case Not(h) => Single(h)
       case And(l, r) => Split(Not(l), Not(r))
       case Or(l, r) => Stack(Not(l), Not(r))
       case Implies(l, r) => Stack(l, Not(r))
       case _ => Detached)
    case Atom(_) => Detached
  }

  /** The tree after `expand_node(node, f)` and the list it returns. */
  datatype Grown = Grown(nodes: seq<ANode>, leaves: seq<nat>)

  /** `expand_node(ns[x], f)`. */
  function Expand(ns: seq<ANode>, x: nat, f: Prop): (e: Grown)
    requires x < |ns|
    ensures |e.nodes| > |ns|
  {
    var n := |ns|;
    match StepOf(f)
    case Stack(a, b) =>
      var ns2 := Attach(Attach(ns, x, a), n, b);
      Grown(ns2, ns2[n].children)
    case Split(a, b) =>
      var ns2 := Attach(Attach(ns, x, a), x, b);
      Grown(ns2, ns2[x].children)
    case Single(a) =>
      var ns1 := Attach(ns, x, a);
      Grown(ns1, ns1[x].children)
    case Detached =>
      Grown(ns + [ANode(Some(f), Some(x), [], false)], [n])
  }

  /**
   * The rule table on a node without children: what is added, where, and
   * which new nodes are returned. An `∧`, `¬∨` or `¬→` returns only the
   * lower of its two new nodes, so the upper one is never a leaf of the list
   * and is never expanded; an atom, a negated atom and a negated `↔` get a
   * node whose parent is set but which is not among the children.
   */
  lemma ExpandShape(ns: seq<ANode>, x: nat, f: Prop)
    requires x < |ns| && ns[x].children == []
    ensures var e := Expand(ns, x, f); var n := |ns|; var st := StepOf(f);
      && (forall y | 0 <= y < n && y != x :: e.nodes[y] == ns[y])
      && Same(e.nodes[x], ns[x])
      && (st.Stack? ==>
           && |e.nodes| == n + 2 && e.nodes[x].children == [n] && e.leaves == [n + 1]
           && e.nodes[n] == ANode(Some(st.upper), Some(x), [n + 1], false)
           && e.nodes[n + 1] == ANode(Some(st.lower), Some(n), [], false))
      && (st.Split? ==>
           && |e.nodes| == n + 2 && e.nodes[x].children == [n, n + 1] && e.leaves == [n, n + 1]
           && e.nodes[n] == ANode(Some(st.first), Some(x), [], false)
           && e.nodes[n + 1] == ANode(Some(st.second), Some(x), [], false))
      && (st.Single? ==>
           && |e.nodes| == n + 1 && e.nodes[x].children == [n] && e.leaves == [n]
           && e.nodes[n] == ANode(Some(st.only), Some(x), [], false))
      && (st.Detached? ==>
           && |e.nodes| == n + 1 && e.nodes[x] == ns[x] && e.leaves == [n]
           && e.nodes[n] == ANode(Some(f), Some(x), [], false))
  {
  }

  /** What every step of the table keeps of the formula's truth value. */
  lemma StepMeaning(v: set<char>, f: Prop)
    ensures var st := StepOf(f);
      && (st.Stack? ==> (Eval(v, f) <==> Eval(v, st.upper) && Eval(v, st.lower)))
      && (st.Split? ==> (Eval(v, f) ==> Eval(v, st.first) || Eval(v, st.second)))
      && (st.Split? && !f.Iff? ==> (Eval(v, st.first) || Eval(v, st.second) ==> Eval(v, f)))
      && (st.Single? ==> (Eval(v, f) <==> Eval(v, st.only)))
      && (st.Detached? ==> IsLiteral(f) || (f.Not? && f.arg.Iff?))
  {
    match f
    case Iff(l, r) =>
      assert Eval(v, Implies(l, r)) == (!Eval(v, l) || Eval(v, r));
    case Not(g) =>
      assert Eval(v, f) == !Eval(v, g);
    case _ =>
  }

  /** The `↔` rule loses the formula: one of its two branches is true under every valuation. */
  lemma IffSplitAlwaysTrue(v: set<char>, l: Prop, r: Prop)
    ensures Eval(v, StepOf(Iff(l, r)).first) || Eval(v, StepOf(Iff(l, r)).second)
  {
  }

  /** The leaves one step returns, and the formulas they hold. */
  lemma ExpandLeaves(ns: seq<ANode>, x: nat, f: Prop)
    requires x < |ns| && ns[x].children == []
    ensures var e := Expand(ns, x, f); var n := |ns|; var st := StepOf(f);
      && (st.Stack? ==> |e.nodes| == n + 2 && e.leaves == [n + 1] && e.nodes[n + 1].formula == Some(st.lower))
      && (st.Split? ==>
            && |e.nodes| == n + 2 && e.leaves == [n, n + 1]
            && e.nodes[n].formula == Some(st.first) && e.nodes[n + 1].formula == Some(st.second))
      && (st.Single? ==> |e.nodes| == n + 1 && e.leaves == [n] && e.nodes[n].formula == Some(st.only))
      && (st.Detached? ==> |e.nodes| == n + 1 && e.leaves == [n])
  {
    ExpandShape(ns, x, f);
  }

  /** What one step keeps: the old nodes other than `x` as they were, `x` but for its children. */
  lemma ExpandKeeps(ns: seq<ANode>, x: nat, f: Prop)
    requires x < |ns| && ns[x].children == []
    ensures var e := Expand(ns, x, f);
      && Extends(ns, e.nodes) && NewNodes(ns, e.nodes)
      && (forall y | 0 <= y < |ns| && y != x :: e.nodes[y] == ns[y])
  {
    ExpandShape(ns, x, f);
  }

  /** The leaves one step returns are new, distinct and without children. */
  lemma ExpandFresh(ns: seq<ANode>, x: nat, f: Prop)
    requires x < |ns| && ns[x].children == []
    ensures var e := Expand(ns, x, f);
      && Distinct(e.leaves)
      && (forall k | 0 <= k < |e.leaves| :: |ns| <= e.leaves[k] < |e.nodes| && e.nodes[e.leaves[k]].children == [])
  {
    ExpandShape(ns, x, f);
  }

  /** The frame of one step on a node without children. */
  lemma ExpandFrame(ns: seq<ANode>, x: nat, f: Prop)
    requires x < |ns| && ns[x].children == []
    ensures var e := Expand(ns, x, f);
      && Extends(ns, e.nodes) && NewNodes(ns, e.nodes)
      && (forall y | 0 <= y < |ns| && y != x :: e.nodes[y] == ns[y])
      && Distinct(e.leaves)
      && (forall k | 0 <= k < |e.leaves| :: |ns| <= e.leaves[k] < |e.nodes| && e.nodes[e.leaves[k]].children == [])
  {
    ExpandKeeps(ns, x, f);
    ExpandFresh(ns, x, f);
  }

  /** Every node keeps its formula, parent and flag, and every old node is still there. */
  lemma ExtendsTrans(a: seq<ANode>, b: seq<ANode>, c: seq<ANode>)
    requires Extends(a, b) && NewNodes(a, b) && Extends(b, c) && NewNodes(b, c)
    ensures Extends(a, c) && NewNodes(a, c)
  {
    forall y | |a| <= y < |b|
      ensures Same(b[y], c[y])
    {
    }
  }

  /** The leaves in the list are new, distinct and without children. */
  predicate FreshLeaves(ns: seq<ANode>, e: Grown) {
    && Distinct(e.leaves)
    && forall k | 0 <= k < |e.leaves| :: |ns| <= e.leaves[k] < |e.nodes| && e.nodes[e.leaves[k]].children == []
  }

  /** Appending the new leaves of a later step keeps the list fresh. */
  lemma JoinLeaves(ns: seq<ANode>, e0: Grown, x: nat, e1: Grown)
    requires FreshLeaves(ns, e0) && x < |ns| && |ns| <= |e0.nodes| <= |e1.nodes|
    requires FreshLeaves(e0.nodes, e1)
    requires forall y | 0 <= y < |e0.nodes| && y != x :: e1.nodes[y] == e0.nodes[y]
    ensures FreshLeaves(ns, Grown(e1.nodes, e0.leaves + e1.leaves))
  {
    var ls := e0.leaves + e1.leaves;
    forall k | 0 <= k < |ls|
      ensures |ns| <= ls[k] < |e1.nodes| && e1.nodes[ls[k]].children == []
    {
      if k < |e0.leaves| {
        assert ls[k] == e0.leaves[k];
      } else {
        assert ls[k] == e1.leaves[k - |e0.leaves|];
      }
    }
    forall p, q | 0 <= p < q < |ls|
      ensures ls[p] != ls[q]
    {
      if q < |e0.leaves| {
        assert ls[p] == e0.leaves[p] && ls[q] == e0.leaves[q];
      } else if p >= |e0.leaves| {
        assert ls[p] == e1.leaves[p - |e0.leaves|] && ls[q] == e1.leaves[q - |e0.leaves|];
      } else {
        assert ls[p] == e0.leaves[p] && ls[q] == e1.leaves[q - |e0.leaves|];
      }
    }
  }

  // ---------------------------------------------------------------------
  // The premise loop

  /** The inner loop over the leaves: `f` is expanded below each leaf of `ls`, in order. */
  function ExpandEach(ns: seq<ANode>, ls: seq<nat>, f: Prop): (e: Grown)
    requires Below(ns, ls)
    ensures |e.nodes| >= |ns|
    decreases |ls|
  {
    if ls == [] then Grown(ns, [])
    else
      var e0 := ExpandEach(ns, ls[..|ls| - 1], f);
      var e1 := Expand(e0.nodes, ls[|ls| - 1], f);
      Grown(e1.nodes, e0.leaves + e1.leaves)
  }

  /** What expanding below every leaf of `ls` changes: only those leaves, and it returns new leaves. */
  predicate EachFacts(ns: seq<ANode>, ls: seq<nat>, e: Grown) {
    && Extends(ns, e.nodes) && NewNodes(ns, e.nodes)
    && (forall y | 0 <= y < |ns| && y !in ls :: e.nodes[y] == ns[y])
    && FreshLeaves(ns, e)
  }

  lemma EachStep(ns: seq<ANode>, init: seq<nat>, y: nat, f: Prop, e0: Grown)
    requires y < |ns| && ns[y].children == [] && y !in init
    requires EachFacts(ns, init, e0)
    ensures var e1 := Expand(e0.nodes, y, f);
      EachFacts(ns, init + [y], Grown(e1.nodes, e0.leaves + e1.leaves))
  {
    assert e0.nodes[y] == ns[y];
    var e1 := Expand(e0.nodes, y, f);
    ExpandFrame(e0.nodes, y, f);
    ExtendsTrans(ns, e0.nodes, e1.nodes);
    JoinLeaves(ns, e0, y, e1);
    forall z | 0 <= z < |ns| && z !in init + [y]
      ensures e1.nodes[z] == ns[z]
    {
      assert z !in init;
    }
  }

  lemma LeafListInit(ns: seq<ANode>, ls: seq<nat>)
    requires LeafList(ns, ls) && ls != []
    ensures LeafList(ns, ls[..|ls| - 1]) && ls[|ls| - 1] !in ls[..|ls| - 1]
    ensures ls == ls[..|ls| - 1] + [ls[|ls| - 1]]
  {
  }

  lemma {:induction false} ExpandEachFacts(ns: seq<ANode>, ls: seq<nat>, f: Prop)
    requires LeafList(ns, ls)
    ensures EachFacts(ns, ls, ExpandEach(ns, ls, f))
    decreases |ls|
  {
    if ls != [] {
      var init := ls[..|ls| - 1];
      LeafListInit(ns, ls);
      ExpandEachFacts(ns, init, f);
      EachStep(ns, init, ls[|ls| - 1], f, ExpandEach(ns, init, f));
    }
  }

  /**
   * The premise loop: `fs[i]` is expanded below every leaf the earlier
   * premises left, and the returned lists, joined, are the next leaves.
   */
  function Premises(ns: seq<ANode>, ls: seq<nat>, fs: seq<Prop>): (e: Grown)
    requires LeafList(ns, ls)
    ensures LeafList(e.nodes, e.leaves) && Extends(ns, e.nodes) && NewNodes(ns, e.nodes)
    decreases |fs|
  {
    if fs == [] then Grown(ns, ls)
    else
      var e0 := Premises(ns, ls, fs[..|fs| - 1]);
      ExpandEachFacts(e0.nodes, e0.leaves, fs[|fs| - 1]);
      var e := ExpandEach(e0.nodes, e0.leaves, fs[|fs| - 1]);
      ExtendsTrans(ns, e0.nodes, e.nodes);
      e
  }

  // ---------------------------------------------------------------------
  // The `while True` loop

  /**
   * The leaves a pass expands. As written (app.py:193) that is a leaf whose
   * formula is neither an atom nor a negation, so a derived `¬¬A`, `¬(A ∧ B)`,
   * `¬(A ∨ B)` or `¬(A → B)` is never decomposed; the intended guard
   * (`intended`) takes every formula the rule table decomposes.
   */
  predicate Grows(n: ANode, intended: bool) {
    && n.formula.Some?
    && if intended then !StepOf(n.formula.value).Detached?
       else !n.formula.value.Atom? && !n.formula.value.Not?
  }

  /** Either guard only lets through formulas the rule table decomposes. */
  lemma GrowsDecomposes(n: ANode, intended: bool)
    requires Grows(n, intended)
    ensures !StepOf(n.formula.value).Detached?
  {
  }

  /** Whether some leaf of `ls` grows: the `expanded` flag after a pass. */
  predicate AnyGrows(ns: seq<ANode>, ls: seq<nat>, intended: bool)
    requires Below(ns, ls)
    decreases |ls|
  {
    ls != [] && (AnyGrows(ns, ls[..|ls| - 1], intended) || Grows(ns[ls[|ls| - 1]], intended))
  }

  lemma {:induction false} AnyGrowsMeaning(ns: seq<ANode>, ls: seq<nat>, intended: bool)
    requires Below(ns, ls)
    ensures AnyGrows(ns, ls, intended) <==> exists k | 0 <= k < |ls| :: Grows(ns[ls[k]], intended)
    decreases |ls|
  {
    if ls != [] {
      var init := ls[..|ls| - 1];
      AnyGrowsMeaning(ns, init, intended);
      if exists k | 0 <= k < |ls| :: Grows(ns[ls[k]], intended) {
        var k :| 0 <= k < |ls| && Grows(ns[ls[k]], intended);
        if k < |init| {
          assert init[k] == ls[k];
        }
      }
    }
  }

  /** One pass of the `for leaf in leaves` loop: growing leaves are expanded, the others kept. */
  function PassOver(ns: seq<ANode>, ls: seq<nat>, intended: bool): (e: Grown)
    requires Below(ns, ls)
    ensures |e.nodes| >= |ns|
    decreases |ls|
  {
    if ls == [] then Grown(ns, [])
    else
      var e0 := PassOver(ns, ls[..|ls| - 1], intended);
      var y := ls[|ls| - 1];
      if Grows(e0.nodes[y], intended) then
        var e1 := Expand(e0.nodes, y, e0.nodes[y].formula.value);
        Grown(e1.nodes, e0.leaves + e1.leaves)
      else
        Grown(e0.nodes, e0.leaves + [y])
  }

  /** The weight a leaf still owes: `3^Weight` of its formula if it grows. */
  function Owed(n: ANode, intended: bool): nat {
    if Grows(n, intended) then Pow3(Weight(n.formula.value)) else 0
  }

  /** The total the leaves of `ls` owe; every pass that expands something lowers it. */
  function Measure(ns: seq<ANode>, ls: seq<nat>, intended: bool): nat
    requires Below(ns, ls)
    decreases |ls|
  {
    if ls == [] then 0 else Measure(ns, ls[..|ls| - 1], intended) + Owed(ns[ls[|ls| - 1]], intended)
  }

  lemma {:induction false} MeasureAppend(ns: seq<ANode>, a: seq<nat>, b: seq<nat>, intended: bool)
    requires Below(ns, a) && Below(ns, b)
    ensures Below(ns, a + b)
    ensures Measure(ns, a + b, intended) == Measure(ns, a, intended) + Measure(ns, b, intended)
    decreases |b|
  {
    if b == [] {
      assert a + b == a;
    } else {
      var ab := a + b;
      assert ab[..|ab| - 1] == a + b[..|b| - 1];
      MeasureAppend(ns, a, b[..|b| - 1], intended);
    }
  }

  lemma {:induction false} MeasureFrame(ns: seq<ANode>, ns2: seq<ANode>, ls: seq<nat>, intended: bool)
    requires Below(ns, ls) && Extends(ns, ns2)
    ensures Below(ns2, ls) && Measure(ns2, ls, intended) == Measure(ns, ls, intended)
    decreases |ls|
  {
    if ls != [] {
      MeasureFrame(ns, ns2, ls[..|ls| - 1], intended);
      assert Same(ns[ls[|ls| - 1]], ns2[ls[|ls| - 1]]);
    }
  }

  /** Every formula a step produces below the leaf weighs less than the decomposed one. */
  lemma StepLighter(f: Prop)
    ensures var st := StepOf(f);
      && (st.Stack? ==> Weight(st.lower) < Weight(f))
      && (st.Split? ==> Weight(st.first) < Weight(f) && Weight(st.second) < Weight(f))
      && (st.Single? ==> Weight(st.only) < Weight(f))
  {
  }

  lemma OwedBound(n: ANode, w: nat, intended: bool)
    requires n.formula.Some? && Weight(n.formula.value) < w
    ensures 3 * Owed(n, intended) <= Pow3(w)
  {
    Pow3Monotone(Weight(n.formula.value), w - 1);
    assert Pow3(w) == 3 * Pow3(w - 1);
  }

  lemma MeasureOfTwo(ns: seq<ANode>, a: nat, b: nat, intended: bool)
    requires a < |ns| && b < |ns|
    ensures Measure(ns, [a], intended) == Owed(ns[a], intended)
    ensures Measure(ns, [a, b], intended) == Owed(ns[a], intended) + Owed(ns[b], intended)
  {
    assert [a][..0] == [];
    assert [a, b][..1] == [a];
  }

  /** Leaves holding lighter formulas than `w` owe less than `3^w`. */
  lemma LighterLeaves(ns: seq<ANode>, a: nat, b: nat, w: nat, intended: bool)
    requires a < |ns| && b < |ns| && ns[a].formula.Some? && ns[b].formula.Some?
    requires Weight(ns[a].formula.value) < w && Weight(ns[b].formula.value) < w
    ensures Measure(ns, [a], intended) < Pow3(w) && Measure(ns, [a, b], intended) < Pow3(w)
  {
    MeasureOfTwo(ns, a, b, intended);
    OwedBound(ns[a], w, intended);
    OwedBound(ns[b], w, intended);
  }

  /** What a decomposed formula leaves behind owes less than the formula. */
  lemma StepLighterLeaves(e: Grown, n: nat, f: Prop, intended: bool)
    requires !StepOf(f).Detached?
    requires var st := StepOf(f);
      && (st.Stack? ==> |e.nodes| == n + 2 && e.leaves == [n + 1] && e.nodes[n + 1].formula == Some(st.lower))
      && (st.Split? ==>
            && |e.nodes| == n + 2 && e.leaves == [n, n + 1]
            && e.nodes[n].formula == Some(st.first) && e.nodes[n + 1].formula == Some(st.second))
      && (st.Single? ==> |e.nodes| == n + 1 && e.leaves == [n] && e.nodes[n].formula == Some(st.only))
    ensures Below(e.nodes, e.leaves) && Measure(e.nodes, e.leaves, intended) < Pow3(Weight(f))
  {
    StepLighter(f);
    if StepOf(f).Split? {
      LighterLeaves(e.nodes, n, n + 1, Weight(f), intended);
    } else if StepOf(f).Stack? {
      LighterLeaves(e.nodes, n + 1, n + 1, Weight(f), intended);
    } else {
      LighterLeaves(e.nodes, n, n, Weight(f), intended);
    }
  }



  /** Only the growing leaves of `ls` differ between `ns` and `ns2`. */
  predicate OnlyGrowing(ns: seq<ANode>, ls: seq<nat>, intended: bool, ns2: seq<ANode>)
    requires |ns2| >= |ns|
  {
    forall y | 0 <= y < |ns| && !(y in ls && Grows(ns[y], intended)) :: ns2[y] == ns[y]
  }

  /** Each leaf returned is new, or a leaf of `ls` that does not grow. */
  predicate NewOrKept(ns: seq<ANode>, ls: seq<nat>, intended: bool, out: seq<nat>) {
    forall k | 0 <= k < |out| :: out[k] >= |ns| || (out[k] in ls && out[k] < |ns| && !Grows(ns[out[k]], intended))
  }

  /**
   * What one pass does: only the growing leaves change, every leaf it
   * returns is new or a kept leaf that does not grow, and the measure drops
   * whenever some leaf grew.
   */
  predicate PassFacts(ns: seq<ANode>, ls: seq<nat>, intended: bool, e: Grown)
    requires Below(ns, ls)
  {
    && Extends(ns, e.nodes) && NewNodes(ns, e.nodes)
    && OnlyGrowing(ns, ls, intended, e.nodes)
    && LeafList(e.nodes, e.leaves)
    && NewOrKept(ns, ls, intended, e.leaves)
    && Measure(e.nodes, e.leaves, intended) + (if AnyGrows(ns, ls, intended) then 1 else 0)
       <= Measure(ns, ls, intended)
  }

  /** Two lists of distinct numbers, all of the first below all of the second. */
  lemma DistinctJoin(a: seq<nat>, b: seq<nat>, bound: nat)
    requires Distinct(a) && Distinct(b)
    requires (forall k | 0 <= k < |a| :: a[k] < bound) && (forall k | 0 <= k < |b| :: b[k] >= bound)
    ensures Distinct(a + b)
  {
    var ab := a + b;
    forall p, q | 0 <= p < q < |ab|
      ensures ab[p] != ab[q]
    {
      if q < |a| {
        assert ab[p] == a[p] && ab[q] == a[q];
      } else if p >= |a| {
        assert ab[p] == b[p - |a|] && ab[q] == b[q - |a|];
      } else {
        assert ab[p] == a[p] && ab[q] == b[q - |a|];
      }
    }
  }

  /** A leaf that does not grow is appended as it is. */
  lemma PassKeep(ns: seq<ANode>, init: seq<nat>, y: nat, intended: bool, e0: Grown)
    requires LeafList(ns, init) && y < |ns| && ns[y].children == [] && y !in init
    requires !Grows(ns[y], intended)
    requires PassFacts(ns, init, intended, e0)
    ensures PassFacts(ns, init + [y], intended, Grown(e0.nodes, e0.leaves + [y]))
  {
    var ls := init + [y];
    assert ls[..|ls| - 1] == init;
    var kept := e0.leaves + [y];
    assert kept[..|kept| - 1] == e0.leaves;
    KeepLeaves(ns, init, y, intended, e0);
    forall z | 0 <= z < |ns| && !(z in ls && Grows(ns[z], intended))
      ensures e0.nodes[z] == ns[z]
    {
      assert z in ls ==> z in init || z == y;
    }
  }

  lemma KeepLeaves(ns: seq<ANode>, init: seq<nat>, y: nat, intended: bool, e0: Grown)
    requires Below(ns, init) && y < |ns| && ns[y].children == [] && y !in init
    requires !Grows(ns[y], intended)
    requires |e0.nodes| >= |ns| && OnlyGrowing(ns, init, intended, e0.nodes)
    requires LeafList(e0.nodes, e0.leaves) && NewOrKept(ns, init, intended, e0.leaves)
    ensures LeafList(e0.nodes, e0.leaves + [y]) && NewOrKept(ns, init + [y], intended, e0.leaves + [y])
  {
    var ls := init + [y];
    assert e0.nodes[y] == ns[y];
    var kept := e0.leaves + [y];
    forall k | 0 <= k < |kept|
      ensures kept[k] < |e0.nodes| && e0.nodes[kept[k]].children == []
      ensures kept[k] >= |ns| || (kept[k] in ls && kept[k] < |ns| && !Grows(ns[kept[k]], intended))
    {
      if k < |e0.leaves| {
        assert kept[k] == e0.leaves[k];
      }
    }
    forall p, q | 0 <= p < q < |kept|
      ensures kept[p] != kept[q]
    {
      if q == |e0.leaves| {
        assert kept[p] == e0.leaves[p];
      } else {
        assert kept[p] == e0.leaves[p] && kept[q] == e0.leaves[q];
      }
    }
  }

  /** A growing leaf is expanded, and what it returns owes less than it did. */
  lemma PassGrow(ns: seq<ANode>, init: seq<nat>, y: nat, intended: bool, e0: Grown)
    requires LeafList(ns, init) && y < |ns| && ns[y].children == [] && y !in init
    requires Grows(ns[y], intended)
    requires PassFacts(ns, init, intended, e0)
    ensures var e1 := Expand(e0.nodes, y, ns[y].formula.value);
      PassFacts(ns, init + [y], intended, Grown(e1.nodes, e0.leaves + e1.leaves))
  {
    var ls := init + [y];
    assert ls[..|ls| - 1] == init;
    assert e0.nodes[y] == ns[y];
    var f := ns[y].formula.value;
    var e1 := Expand(e0.nodes, y, f);
    ExpandFrame(e0.nodes, y, f);
    ExtendsTrans(ns, e0.nodes, e1.nodes);
    assert forall k | 0 <= k < |e0.leaves| :: e0.leaves[k] != y;
    GrowMeasure(ns, init, y, intended, e0);
    GrowLeaves(ns, init, y, f, intended, e0);
    forall z | 0 <= z < |ns| && !(z in ls && Grows(ns[z], intended))
      ensures e1.nodes[z] == ns[z]
    {
      assert z in ls ==> z in init || z == y;
    }
  }

  lemma GrowMeasure(ns: seq<ANode>, init: seq<nat>, y: nat, intended: bool, e0: Grown)
    requires Below(ns, init) && y < |ns| && y < |e0.nodes| && e0.nodes[y] == ns[y]
    requires ns[y].children == [] && Grows(ns[y], intended)
    requires Below(e0.nodes, e0.leaves)
    requires Measure(e0.nodes, e0.leaves, intended) + (if AnyGrows(ns, init, intended) then 1 else 0)
       <= Measure(ns, init, intended)
    ensures var e1 := Expand(e0.nodes, y, ns[y].formula.value);
      && Below(e1.nodes, e0.leaves + e1.leaves)
      && Measure(e1.nodes, e0.leaves + e1.leaves, intended) + 1 <= Measure(ns, init + [y], intended)
      && AnyGrows(ns, init + [y], intended)
  {
    var f := ns[y].formula.value;
    var e1 := Expand(e0.nodes, y, f);
    ExpandKeeps(e0.nodes, y, f);
    ExpandFresh(e0.nodes, y, f);
    GrowsDecomposes(ns[y], intended);
    ExpandLeaves(e0.nodes, y, f);
    StepLighterLeaves(e1, |e0.nodes|, f, intended);
    MeasureJoin(ns, init, y, intended, e0, e1);
  }

  /** Joining the kept list with what the growing leaf returned lowers the measure. */
  lemma MeasureJoin(ns: seq<ANode>, init: seq<nat>, y: nat, intended: bool, e0: Grown, e1: Grown)
    requires Below(ns, init) && y < |ns| && Grows(ns[y], intended)
    requires Below(e0.nodes, e0.leaves) && Extends(e0.nodes, e1.nodes) && Below(e1.nodes, e1.leaves)
    requires Measure(e1.nodes, e1.leaves, intended) < Pow3(Weight(ns[y].formula.value))
    requires Measure(e0.nodes, e0.leaves, intended) + (if AnyGrows(ns, init, intended) then 1 else 0)
       <= Measure(ns, init, intended)
    ensures Below(e1.nodes, e0.leaves + e1.leaves)
    ensures Measure(e1.nodes, e0.leaves + e1.leaves, intended) + 1 <= Measure(ns, init + [y], intended)
    ensures AnyGrows(ns, init + [y], intended)
  {
    var ls := init + [y];
    assert ls[..|ls| - 1] == init;
    MeasureFrame(e0.nodes, e1.nodes, e0.leaves, intended);
    MeasureAppend(e1.nodes, e0.leaves, e1.leaves, intended);
  }

  lemma GrowLeaves(ns: seq<ANode>, init: seq<nat>, y: nat, f: Prop, intended: bool, e0: Grown)
    requires Below(ns, init) && y < |ns| && y < |e0.nodes| && e0.nodes[y] == ns[y]
    requires ns[y].children == [] && |e0.nodes| >= |ns|
    requires LeafList(e0.nodes, e0.leaves) && NewOrKept(ns, init, intended, e0.leaves)
    requires forall k | 0 <= k < |e0.leaves| :: e0.leaves[k] != y
    ensures var e1 := Expand(e0.nodes, y, f);
      && LeafList(e1.nodes, e0.leaves + e1.leaves)
      && NewOrKept(ns, init + [y], intended, e0.leaves + e1.leaves)
  {
    var ls := init + [y];
    var e1 := Expand(e0.nodes, y, f);
    ExpandFrame(e0.nodes, y, f);
    DistinctJoin(e0.leaves, e1.leaves, |e0.nodes|);
    var joined := e0.leaves + e1.leaves;
    forall k | 0 <= k < |joined|
      ensures joined[k] < |e1.nodes| && e1.nodes[joined[k]].children == []
      ensures joined[k] >= |ns| || (joined[k] in ls && joined[k] < |ns| && !Grows(ns[joined[k]], intended))
    {
      if k < |e0.leaves| {
        assert joined[k] == e0.leaves[k];
      } else {
        assert joined[k] == e1.leaves[k - |e0.leaves|];
      }
    }
  }

  lemma {:induction false} PassOverFacts(ns: seq<ANode>, ls: seq<nat>, intended: bool)
    requires LeafList(ns, ls)
    ensures PassFacts(ns, ls, intended, PassOver(ns, ls, intended))
    decreases |ls|
  {
    if ls != [] {
      var init := ls[..|ls| - 1];
      var y := ls[|ls| - 1];
      LeafListInit(ns, ls);
      PassOverFacts(ns, init, intended);
      var e0 := PassOver(ns, init, intended);
      assert e0.nodes[y] == ns[y];
      assert forall k | 0 <= k < |e0.leaves| :: e0.leaves[k] != y;
      if Grows(ns[y], intended) {
        PassGrow(ns, init, y, intended, e0);
      } else {
        PassKeep(ns, init, y, intended, e0);
      }
    }
  }

  /** A pass in which nothing grows leaves the tree and the leaf list as they were. */
  lemma {:induction false} QuietPass(ns: seq<ANode>, ls: seq<nat>, intended: bool)
    requires Below(ns, ls) && !AnyGrows(ns, ls, intended)
    ensures PassOver(ns, ls, intended) == Grown(ns, ls)
    decreases |ls|
  {
    if ls != [] {
      QuietPass(ns, ls[..|ls| - 1], intended);
      assert ls[..|ls| - 1] + [ls[|ls| - 1]] == ls;
    }
  }

  /**
   * The `while True` loop: passes are repeated until one expands nothing.
   * It ends because every pass that expands lowers `Measure`.
   */
  function Settle(ns: seq<ANode>, ls: seq<nat>, intended: bool): (e: Grown)
    requires LeafList(ns, ls)
    decreases Measure(ns, ls, intended)
  {
    var p := PassOver(ns, ls, intended);
    if !AnyGrows(ns, ls, intended) then p
    else
      PassOverFacts(ns, ls, intended);
      Settle(p.nodes, p.leaves, intended)
  }

  /** The settled tree extends the one it started from, and none of its final leaves grows. */
  lemma {:induction false} SettleFacts(ns: seq<ANode>, ls: seq<nat>, intended: bool)
    requires LeafList(ns, ls)
    ensures var e := Settle(ns, ls, intended);
      && Extends(ns, e.nodes) && NewNodes(ns, e.nodes) && LeafList(e.nodes, e.leaves)
      && forall k | 0 <= k < |e.leaves| :: !Grows(e.nodes[e.leaves[k]], intended)
    decreases Measure(ns, ls, intended)
  {
    if !AnyGrows(ns, ls, intended) {
      QuietPass(ns, ls, intended);
      AnyGrowsMeaning(ns, ls, intended);
    } else {
      PassOverFacts(ns, ls, intended);
      var p := PassOver(ns, ls, intended);
      SettleFacts(p.nodes, p.leaves, intended);
      ExtendsTrans(ns, p.nodes, Settle(p.nodes, p.leaves, intended).nodes);
    }
  }

  // ---------------------------------------------------------------------
  // `check_contradiction` and the closing loop

  /** Parents come first in every tree the generator builds. */
  lemma ParentsBeforeKept(ns: seq<ANode>, ns2: seq<ANode>)
    requires ParentsBefore(ns) && Extends(ns, ns2) && NewNodes(ns, ns2)
    ensures ParentsBefore(ns2)
  {
    forall y | 0 <= y < |ns2| && ns2[y].parent.Some?
      ensures ns2[y].parent.value < y
    {
      if y < |ns| {
        assert Same(ns[y], ns2[y]);
      }
    }
  }

  /**
   * The formulas `check_contradiction` collects: from `x` up through its
   * parents, skipping the root, which has none.
   */
  function Chain(ns: seq<ANode>, x: nat): (fs: seq<Prop>)
    requires ParentsBefore(ns) && x < |ns|
    decreases x
  {
    (if ns[x].formula.Some? then [ns[x].formula.value] else [])
      + (if ns[x].parent.Some? then Chain(ns, ns[x].parent.value) else [])
  }

  /** An atom and its negation, in this order or the other. */
  predicate Complementary(f: Prop, g: Prop) {
    || (f.Atom? && g == Not(Atom(f.name)))
    || (f.Not? && f.arg.Atom? && g == Atom(f.arg.name))
  }

  /** What `check_contradiction` looks for: a formula followed later by its complement. */
  predicate Clash(fs: seq<Prop>) {
    exists i, j | 0 <= i < j < |fs| :: Complementary(fs[i], fs[j])
  }

  /** A clash is exactly an atom that occurs both plain and negated. */
  lemma ClashMeaning(fs: seq<Prop>)
    ensures Clash(fs) <==> exists c :: Atom(c) in fs && Not(Atom(c)) in fs
  {
    if c :| Atom(c) in fs && Not(Atom(c)) in fs {
      var i :| 0 <= i < |fs| && fs[i] == Atom(c);
      var j :| 0 <= j < |fs| && fs[j] == Not(Atom(c));
      if i < j {
        assert Complementary(fs[i], fs[j]);
      } else {
        assert Complementary(fs[j], fs[i]);
      }
    }
    if Clash(fs) {
      var i, j :| 0 <= i < j < |fs| && Complementary(fs[i], fs[j]);
      var c := if fs[i].Atom? then fs[i].name else fs[j].name;
      assert Atom(c) in fs && Not(Atom(c)) in fs;
    }
  }

  /** A branch that clashes has no valuation making all its formulas true. */
  lemma ClashUnsatisfiable(fs: seq<Prop>, v: set<char>)
    requires Clash(fs)
    ensures exists k | 0 <= k < |fs| :: !Eval(v, fs[k])
  {
    var i, j :| 0 <= i < j < |fs| && Complementary(fs[i], fs[j]);
    if !Eval(v, fs[i]) {
    } else {
      assert !Eval(v, fs[j]);
    }
  }

  /** The nodes of `ns` and `ns2` have the same formulas and parents. */
  predicate SameLinks(ns: seq<ANode>, ns2: seq<ANode>) {
    |ns2| == |ns|
    && forall y | 0 <= y < |ns| :: ns2[y].formula == ns[y].formula && ns2[y].parent == ns[y].parent
  }

  lemma SameLinksParents(ns: seq<ANode>, ns2: seq<ANode>)
    requires ParentsBefore(ns) && SameLinks(ns, ns2)
    ensures ParentsBefore(ns2)
  {
    forall y | 0 <= y < |ns2| && ns2[y].parent.Some?
      ensures ns2[y].parent.value < y
    {
      assert ns2[y].parent == ns[y].parent;
    }
  }

  lemma {:induction false} ChainSame(ns: seq<ANode>, ns2: seq<ANode>, x: nat)
    requires ParentsBefore(ns) && SameLinks(ns, ns2) && x < |ns|
    ensures ParentsBefore(ns2) && Chain(ns2, x) == Chain(ns, x)
    decreases x
  {
    SameLinksParents(ns, ns2);
    if ns[x].parent.Some? {
      ChainSame(ns, ns2, ns[x].parent.value);
    }
  }

  /** The closing loop: each leaf of `ls` whose chain clashes is marked closed. */
  function Mark(ns: seq<ANode>, ls: seq<nat>): (r: seq<ANode>)
    requires ParentsBefore(ns) && Below(ns, ls)
    ensures SameLinks(ns, r)
    decreases |ls|
  {
    if ls == [] then ns
    else
      var m := Mark(ns, ls[..|ls| - 1]);
      var y := ls[|ls| - 1];
      if Clash(Chain(ns, y)) then m[y := m[y].(closed := true)] else m
  }

  /** Marking closes exactly the listed leaves whose chain clashes, and changes nothing else. */
  lemma {:induction false} MarkMeaning(ns: seq<ANode>, ls: seq<nat>, y: nat)
    requires ParentsBefore(ns) && Below(ns, ls) && y < |ns|
    ensures var r := Mark(ns, ls);
      && r[y].closed == (ns[y].closed || (y in ls && Clash(Chain(ns, y))))
      && r[y].children == ns[y].children
    decreases |ls|
  {
    if ls != [] {
      var init := ls[..|ls| - 1];
      MarkMeaning(ns, init, y);
      assert y in ls <==> y in init || y == ls[|ls| - 1];
    }
  }

  /** No node of the tree is closed. */
  predicate AllOpen(ns: seq<ANode>) {
    forall y | 0 <= y < |ns| :: !ns[y].closed
  }

  lemma AllOpenKept(ns: seq<ANode>, ns2: seq<ANode>)
    requires AllOpen(ns) && Extends(ns, ns2) && NewNodes(ns, ns2)
    ensures AllOpen(ns2)
  {
    forall y | 0 <= y < |ns2|
      ensures !ns2[y].closed
    {
      if y < |ns| {
        assert Same(ns[y], ns2[y]);
      }
    }
  }

  /** The tree before the closing loop: the premise loop and then the `while True` loop. */
  function Settled(premises: seq<Prop>, intended: bool): (e: Grown)
    ensures LeafList(e.nodes, e.leaves) && ParentsBefore(e.nodes) && AllOpen(e.nodes)
    ensures forall k | 0 <= k < |e.leaves| :: !Grows(e.nodes[e.leaves[k]], intended)
  {
    var p := Premises([Root], [0], premises);
    SettleFacts(p.nodes, p.leaves, intended);
    var e := Settle(p.nodes, p.leaves, intended);
    ExtendsTrans([Root], p.nodes, e.nodes);
    ParentsBeforeKept([Root], e.nodes);
    AllOpenKept([Root], e.nodes);
    e
  }

  /** `generate_truth_tree(premises)`: the settled tree with its clashing leaves closed. */
  function Generated(premises: seq<Prop>, intended: bool): (e: Grown)
  {
    var s := Settled(premises, intended);
    Grown(Mark(s.nodes, s.leaves), s.leaves)
  }

  /**
   * The finished tree: its leaves are distinct childless nodes, none of
   * which the loop would still expand.
   */
  lemma GeneratedLeaves(premises: seq<Prop>, intended: bool)
    ensures var g := Generated(premises, intended);
      && LeafList(g.nodes, g.leaves) && ParentsBefore(g.nodes)
      && (forall k | 0 <= k < |g.leaves| :: !Grows(g.nodes[g.leaves[k]], intended))
  {
    var s := Settled(premises, intended);
    var g := Generated(premises, intended);
    SameLinksParents(s.nodes, g.nodes);
    forall k | 0 <= k < |g.leaves|
      ensures g.nodes[g.leaves[k]].children == [] && !Grows(g.nodes[g.leaves[k]], intended)
    {
      MarkMeaning(s.nodes, s.leaves, g.leaves[k]);
    }
  }

  /** A node of the finished tree is closed exactly when it is a final leaf whose chain clashes. */
  lemma GeneratedClosed(premises: seq<Prop>, intended: bool, y: nat)
    requires y < |Generated(premises, intended).nodes|
    ensures var g := Generated(premises, intended);
      && ParentsBefore(g.nodes)
      && (g.nodes[y].closed <==> y in g.leaves && Clash(Chain(g.nodes, y)))
  {
    var s := Settled(premises, intended);
    var g := Generated(premises, intended);
    MarkMeaning(s.nodes, s.leaves, y);
    ChainSame(s.nodes, g.nodes, y);
  }

  /** `P ∧ ¬(P ∨ Q)`: a premise no valuation satisfies. */
  const Contradictory := And(Atom('P'), Not(Or(Atom('P'), Atom('Q'))))

  lemma ContradictoryUnsatisfiable(v: set<char>)
    ensures !Eval(v, Contradictory)
  {
    assert Eval(v, Contradictory) == (Eval(v, Atom('P')) && Eval(v, Not(Or(Atom('P'), Atom('Q')))));
    assert Eval(v, Not(Or(Atom('P'), Atom('Q')))) == !Eval(v, Or(Atom('P'), Atom('Q')));
  }

  /** Expanding a node that holds `¬(P ∨ Q)` and has no children. */
  lemma ExpandNegatedOr(ns: seq<ANode>, x: nat)
    requires x < |ns| && ns[x].children == [] && ns[x].formula == Some(Not(Or(Atom('P'), Atom('Q'))))
    ensures Expand(ns, x, Not(Or(Atom('P'), Atom('Q')))) == Grown(
      ns[x := ns[x].(children := [|ns|])]
        + [ANode(Some(Not(Atom('P'))), Some(x), [|ns| + 1], false),
           ANode(Some(Not(Atom('Q'))), Some(|ns|), [], false)],
      [|ns| + 1])
  {
    var f := Not(Or(Atom('P'), Atom('Q')));
    ExpandShape(ns, x, f);
    var e := Expand(ns, x, f);
    var want := ns[x := ns[x].(children := [|ns|])]
        + [ANode(Some(Not(Atom('P'))), Some(x), [|ns| + 1], false),
           ANode(Some(Not(Atom('Q'))), Some(|ns|), [], false)];
    assert e.nodes[x] == want[x];
    assert e.nodes == want;
  }

  /** The tree both guards start from: `P` above `¬(P ∨ Q)`, whose node is the one leaf. */
  const Started := [
    ANode(None, None, [1], false),
    ANode(Some(Atom('P')), Some(0), [2], false),
    ANode(Some(Not(Or(Atom('P'), Atom('Q')))), Some(1), [], false)]

  /** The same tree once `¬(P ∨ Q)` is decomposed into `¬P` above `¬Q`. */
  const Decomposed := Started[2 := Started[2].(children := [3])]
    + [ANode(Some(Not(Atom('P'))), Some(2), [4], false), ANode(Some(Not(Atom('Q'))), Some(3), [], false)]

  lemma ContradictoryPremises()
    ensures Premises([Root], [0], [Contradictory]) == Grown(Started, [2])
  {
    assert [Contradictory][..0] == [];
    assert [0][..0] == [];
    ExpandShape([Root], 0, Contradictory);
    var e := Expand([Root], 0, Contradictory);
    assert e.nodes[0] == ANode(None, None, [1], false);
    assert ExpandEach([Root], [0], Contradictory) == Grown(e.nodes, e.leaves);
  }

  lemma SettledAsWritten()
    ensures Settled([Contradictory], false) == Grown(Started, [2])
  {
    ContradictoryPremises();
    assert [2][..0] == [];
    assert !AnyGrows(Started, [2], false);
    QuietPass(Started, [2], false);
  }

  lemma SettledIntended()
    ensures Settled([Contradictory], true) == Grown(Decomposed, [4])
  {
    ContradictoryPremises();
    assert [2][..0] == [];
    assert AnyGrows(Started, [2], true);
    ExpandNegatedOr(Started, 2);
    assert PassOver(Started, [2], true) == Grown(Decomposed, [4]);
    assert [4][..0] == [];
    assert !AnyGrows(Decomposed, [4], true);
    QuietPass(Decomposed, [4], true);
  }

  lemma ChainsOfTheExample()
    ensures ParentsBefore(Started) && ParentsBefore(Decomposed)
    ensures Chain(Started, 2) == [Not(Or(Atom('P'), Atom('Q'))), Atom('P')]
    ensures Chain(Decomposed, 4) == [Not(Atom('Q')), Not(Atom('P')), Not(Or(Atom('P'), Atom('Q'))), Atom('P')]
  {
  }

  /**
   * As written, the `while True` loop never decomposes the leaf `¬(P ∨ Q)`,
   * so the only branch of an unsatisfiable premise stays open.
   */
  lemma NegatedLeafLeftOpen()
    ensures var g := Generated([Contradictory], false);
      g.leaves == [2] && |g.nodes| == 3 && !g.nodes[2].closed
  {
    SettledAsWritten();
    ChainsOfTheExample();
    var fs := Chain(Started, 2);
    assert !Clash(fs) by {
      assert !Complementary(fs[0], fs[1]);
    }
    assert [2][..0] == [];
    assert Mark(Started, [2]) == Started;
  }

  /** With the intended guard the same leaf is decomposed and its branch closes. */
  lemma NegatedLeafClosedWhenDecomposed()
    ensures var g := Generated([Contradictory], true);
      && g.leaves == [4] && |g.nodes| == 5 && g.nodes[4].closed
      && g.nodes[4].formula == Some(Not(Atom('Q')))
  {
    SettledIntended();
    ChainsOfTheExample();
    var fs := Chain(Decomposed, 4);
    assert Clash(fs) by {
      assert Complementary(fs[1], fs[3]);
    }
    assert [4][..0] == [];
    assert Mark(Decomposed, [4]) == Decomposed[4 := Decomposed[4].(closed := true)];
  }


  // ---------------------------------------------------------------------
  // The imperative tree

  /** All `TreeNode` objects `generate_truth_tree` creates, as an arena. */
  class AppTree {
    var nodes: seq<ANode>

    /** `TreeNode(None)`: the arena holding only the root. */
    constructor ()
      ensures nodes == [Root]
    {
      nodes := [Root];
    }

    /** `node.children.append(TreeNode(f, node))`; returns the new node. */
    method AddChild(p: nat, f: Prop) returns (c: nat)
      requires p < |nodes|
      modifies this
      ensures nodes == Attach(old(nodes), p, f) && c == |old(nodes)|
    {
      c := |nodes|;
      nodes := nodes[p := nodes[p].(children := nodes[p].children + [c])]
        + [ANode(Some(f), Some(p), [], false)];
    }

    /** `expand_node(node, formula)`: the if/elif chain of app.py. */
    method ExpandNode(x: nat, f: Prop) returns (out: seq<nat>)
      requires x < |nodes|
      modifies this
      ensures Grown(nodes, out) == Expand(old(nodes), x, f)
    {
      if f.And? {
        var c := AddChild(x, f.left);
        var _ := AddChild(c, f.right);
        return nodes[c].children;
      } else if f.Or? {
        var _ := AddChild(x, f.left);
        var _ := AddChild(x, f.right);
        return nodes[x].children;
      } else if f.Implies? {
        var _ := AddChild(x, Not(f.left));
        var _ := AddChild(x, f.right);
        return nodes[x].children;
      } else if f.Iff? {
        var _ := AddChild(x, Implies(f.left, f.right));
        var _ := AddChild(x, Implies(f.right, f.left));
        return nodes[x].children;
      } else if f.Not? {
        var g := f.arg;
        if g.Not? {
          var _ := AddChild(x, g.arg);
          return nodes[x].children;
        } else if g.And? {
          var _ := AddChild(x, Not(g.left));
          var _ := AddChild(x, Not(g.right));
          return nodes[x].children;
        } else if g.Or? {
          var c := AddChild(x, Not(g.left));
          var _ := AddChild(c, Not(g.right));
          return nodes[c].children;
        } else if g.Implies? {
          var c := AddChild(x, g.left);
          var _ := AddChild(c, Not(g.right));
          return nodes[c].children;
        }
      }
      out := [|nodes|];
      nodes := nodes + [ANode(Some(f), Some(x), [], false)];
    }

    /** `check_contradiction(node)`: collect the chain of formulas, then look for a clash. */
    method CheckContradiction(x: nat) returns (b: bool)
      requires ParentsBefore(nodes) && x < |nodes|
      ensures b == Clash(Chain(nodes, x))
    {
      var formulas: seq<Prop> := [];
      var current: Option<nat> := Some(x);
      while current.Some?
        invariant ChainFrom(nodes, current) && Chain(nodes, x) == formulas + Above(nodes, current)
        decreases if current.Some? then current.value + 1 else 0
      {
        var c := current.value;
        ChainUnfold(nodes, c, formulas);
        if nodes[c].formula.Some? {
          formulas := formulas + [nodes[c].formula.value];
        }
        current := nodes[c].parent;
      }
      assert formulas + Above(nodes, current) == formulas;
      b := FindClash(formulas);
    }

    /** `for leaf in leaves: new_leaves.extend(expand_node(leaf, premise))`. */
    method ExpandPremise(leaves: seq<nat>, premise: Prop) returns (newLeaves: seq<nat>)
      requires Below(nodes, leaves)
      modifies this
      ensures Grown(nodes, newLeaves) == ExpandEach(old(nodes), leaves, premise)
    {
      newLeaves := [];
      for k := 0 to |leaves|
        invariant Grown(nodes, newLeaves) == ExpandEach(old(nodes), leaves[..k], premise)
      {
        assert leaves[..k + 1][..k] == leaves[..k];
        var out := ExpandNode(leaves[k], premise);
        newLeaves := newLeaves + out;
      }
      assert leaves[..|leaves|] == leaves;
    }

    /**
     * One pass of the `while True` loop: growing leaves are expanded, the
     * others kept; `expanded` says whether any leaf grew.
     */
    method ExpandPass(leaves: seq<nat>) returns (newLeaves: seq<nat>, expanded: bool)
      requires LeafList(nodes, leaves)
      modifies this
      ensures Grown(nodes, newLeaves) == PassOver(old(nodes), leaves, true)
      ensures expanded == AnyGrows(old(nodes), leaves, true)
    {
      newLeaves := [];
      expanded := false;
      for k := 0 to |leaves|
        invariant Grown(nodes, newLeaves) == PassOver(old(nodes), leaves[..k], true)
        invariant expanded == AnyGrows(old(nodes), leaves[..k], true)
      {
        var leaf := leaves[k];
        assert leaves[..k + 1][..k] == leaves[..k];
        PassUntouched(old(nodes), leaves, k);
        if Grows(nodes[leaf], true) {
          var out := ExpandNode(leaf, nodes[leaf].formula.value);
          newLeaves := newLeaves + out;
          expanded := true;
        } else {
          newLeaves := newLeaves + [leaf];
        }
      }
      assert leaves[..|leaves|] == leaves;
    }

    /** `for leaf in leaves: if check_contradiction(leaf): leaf.closed = True`. */
    method CloseLeaves(leaves: seq<nat>)
      requires ParentsBefore(nodes) && Below(nodes, leaves)
      modifies this
      ensures nodes == Mark(old(nodes), leaves)
    {
      for k := 0 to |leaves|
        invariant nodes == Mark(old(nodes), leaves[..k])
      {
        assert leaves[..k + 1][..k] == leaves[..k];
        ChainSame(old(nodes), nodes, leaves[k]);
        var c := CheckContradiction(leaves[k]);
        if c {
          nodes := nodes[leaves[k] := nodes[leaves[k]].(closed := true)];
        }
      }
      assert leaves[..|leaves|] == leaves;
    }
  }

  /** Within a pass, the next leaf is still as the pass found it. */
  lemma PassUntouched(ns: seq<ANode>, ls: seq<nat>, k: nat)
    requires LeafList(ns, ls) && k < |ls|
    ensures var e := PassOver(ns, ls[..k], true); ls[k] < |e.nodes| && e.nodes[ls[k]] == ns[ls[k]]
  {
    assert LeafList(ns, ls[..k]);
    PassOverFacts(ns, ls[..k], true);
    assert ls[k] !in ls[..k];
  }

  /**
   * `generate_truth_tree(premises)`, with the intended guard in the
   * `while True` loop: premises are expanded below every leaf, leaves are
   * expanded until a pass expands nothing, and the clashing leaves are closed.
   */
  method GenerateTruthTree(premises: seq<Prop>) returns (t: AppTree)
    ensures fresh(t) && t.nodes == Generated(premises, true).nodes
  {
    t := new AppTree();
    var leaves: seq<nat> := [0];
    for i := 0 to |premises|
      invariant Grown(t.nodes, leaves) == Premises([Root], [0], premises[..i])
    {
      assert premises[..i + 1][..i] == premises[..i];
      leaves := t.ExpandPremise(leaves, premises[i]);
    }
    assert premises[..|premises|] == premises;
    ghost var target := Settled(premises, true);
    while true
      invariant LeafList(t.nodes, leaves) && Settle(t.nodes, leaves, true) == target
      decreases Measure(t.nodes, leaves, true)
    {
      ghost var before := Grown(t.nodes, leaves);
      var expanded;
      leaves, expanded := t.ExpandPass(leaves);
      if !expanded {
        break;
      }
      PassOverFacts(before.nodes, before.leaves, true);
    }
    t.CloseLeaves(leaves);
  }

  /** `current` is the root's parent `None`, or a node of a tree whose parents come first. */
  predicate ChainFrom(ns: seq<ANode>, current: Option<nat>) {
    ParentsBefore(ns) && (current.Some? ==> current.value < |ns|)
  }

  /** The formulas still to be collected from `current` up. */
  function Above(ns: seq<ANode>, current: Option<nat>): seq<Prop>
    requires ChainFrom(ns, current)
  {
    if current.Some? then Chain(ns, current.value) else []
  }

  /** One step of the walk up the parents. */
  lemma ChainUnfold(ns: seq<ANode>, c: nat, formulas: seq<Prop>)
    requires ParentsBefore(ns) && c < |ns|
    ensures ChainFrom(ns, ns[c].parent)
    ensures formulas + Chain(ns, c)
      == (if ns[c].formula.Some? then formulas + [ns[c].formula.value] else formulas) + Above(ns, ns[c].parent)
  {
  }

  /** The two nested `for` loops of `check_contradiction`. */
  method FindClash(formulas: seq<Prop>) returns (b: bool)
    ensures b == Clash(formulas)
  {
    for i := 0 to |formulas|
      invariant forall p, q | 0 <= p < i && p < q < |formulas| :: !Complementary(formulas[p], formulas[q])
    {
      var f := formulas[i];
      if f.Atom? {
        for j := i + 1 to |formulas|
          invariant forall q | i < q < j :: !Complementary(f, formulas[q])
        {
          var g := formulas[j];
          if g.Not? && g.arg.Atom? && g.arg.name == f.name {
            assert Complementary(formulas[i], formulas[j]);
            return true;
          }
        }
      } else if f.Not? && f.arg.Atom? {
        for j := i + 1 to |formulas|
          invariant forall q | i < q < j :: !Complementary(f, formulas[q])
        {
          var g := formulas[j];
          if g.Atom? && g.name == f.arg.name {
            assert Complementary(formulas[i], formulas[j]);
            return true;
          }
        }
      }
    }
    return false;
  }
}
