/**
 * The formula tree (`ASTNode`) built by the parsers of the truth-tree web
 * application, in both its package form and its single-file Flask form.
 * Atoms hold the one letter they were read from.
 */
module Prop {

  datatype Prop =
    | Atom(name: char)
    | Not(arg: Prop)
    | And(left: Prop, right: Prop)
    | Or(left: Prop, right: Prop)
    | Implies(left: Prop, right: Prop)
    | Iff(left: Prop, right: Prop)

  /** Classical truth value of `f` when exactly the atoms in `trueAtoms` are true. */
  predicate Eval(trueAtoms: set<char>, f: Prop) {
    match f
    case Atom(c) => c in trueAtoms
    case Not(a) => !Eval(trueAtoms, a)
    case And(l, r) => Eval(trueAtoms, l) && Eval(trueAtoms, r)
    case Or(l, r) => Eval(trueAtoms, l) || Eval(trueAtoms, r)
    case Implies(l, r) => !Eval(trueAtoms, l) || Eval(trueAtoms, r)
    case Iff(l, r) => Eval(trueAtoms, l) == Eval(trueAtoms, r)
  }

  predicate IsLiteral(f: Prop) {
    f.Atom? || (f.Not? && f.arg.Atom?)
  }

  predicate HasIff(f: Prop) {
    match f
    case Atom(_) => false
    case Not(a) => HasIff(a)
    case And(l, r) => HasIff(l) || HasIff(r)
    case Or(l, r) => HasIff(l) || HasIff(r)
    case Implies(l, r) => HasIff(l) || HasIff(r)
    case Iff(_, _) => true
  }

  /** The glyph `ast_to_string` prints for a binary connective. */
  function OpGlyph(f: Prop): char
    requires !f.Atom? && !f.Not?
  {
    match f
    case And(_, _) => '∧'
    case Or(_, _) => '∨'
    case Implies(_, _) => '→'
    case Iff(_, _) => '↔'
  }

  /**
   * `ast_to_string` (also `formula_to_string` in the tree module and in the
   * Flask app): atoms bare, every negated operand and every binary formula in
   * parentheses, binary connectives surrounded by one space.
   */
  function Render(f: Prop): string {
    match f
    case Atom(c) => [c]
    case Not(a) => "¬(" + Render(a) + ")"
    case _ => "(" + Render(f.left) + " " + [OpGlyph(f)] + " " + Render(f.right) + ")"
  }

  /**
   * Size measure under which every decomposition rule of both truth-tree
   * engines produces strictly lighter formulas. A biconditional weighs one
   * more than the implication it is rewritten to.
   */
  function Weight(f: Prop): (w: nat)
    ensures w >= 1
  {
    match f
    case Atom(_) => 1
    case Not(a) => Weight(a) + 1
    case And(l, r) => Weight(l) + Weight(r) + 1
    case Or(l, r) => Weight(l) + Weight(r) + 1
    case Implies(l, r) => Weight(l) + Weight(r) + 1
    case Iff(l, r) => Weight(l) + Weight(r) + 2
  }

  function Pow3(n: nat): (p: nat)
    ensures p >= 1
  {
    if n == 0 then 1 else 3 * Pow3(n - 1)
  }

  lemma {:induction false} Pow3Monotone(m: nat, n: nat)
    requires m <= n
    ensures Pow3(m) <= Pow3(n)
    decreases n
  {
    if m < n {
      Pow3Monotone(m, n - 1);
    }
  }

  /** Two formulas lighter than `w` together weigh less than one of weight `w`. */
  lemma TwoLighter(a: nat, b: nat, w: nat)
    requires a < w && b < w
    ensures Pow3(a) + Pow3(b) < Pow3(w)
  {
    Pow3Monotone(a, w - 1);
    Pow3Monotone(b, w - 1);
    assert Pow3(w) == 3 * Pow3(w - 1);
  }
}
