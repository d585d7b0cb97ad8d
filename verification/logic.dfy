/**
 * The formulas of the `utils` package (utils/logic.py): five frozen
 * dataclasses, here one datatype, with the classical truth value the tree
 * of utils/truth_tree.py is meant to decide and `formula_to_str`, which
 * utils/visualizer.py and utils/truth_tree.py both define the same way.
 */
module Logic {
  import opened Results

  /** `Atom | Not | And | Or | Implies`; an atom's name is any string. */
  datatype Formula =
    | Atom(name: string)
    | Not(formula: Formula)
    | And(left: Formula, right: Formula)
    | Or(left: Formula, right: Formula)
    | Implies(left: Formula, right: Formula)

  /** Truth value of `f` when exactly the atoms named in `trueAtoms` are true. */
  predicate Holds(trueAtoms: set<string>, f: Formula) {
    match f
    case Atom(n) => n in trueAtoms
    case Not(g) => !Holds(trueAtoms, g)
    case And(l, r) => Holds(trueAtoms, l) && Holds(trueAtoms, r)
    case Or(l, r) => Holds(trueAtoms, l) || Holds(trueAtoms, r)
    case Implies(l, r) => !Holds(trueAtoms, l) || Holds(trueAtoms, r)
  }

  /**
   * `formula_to_str`: atoms by name, `¬` as a bare prefix, every binary
   * formula in parentheses with its connective between single spaces.
   */
  function FormulaToStr(f: Formula): (r: string)
    ensures f.Not? ==> |r| >= 1 && r[0] == '¬'
    ensures !f.Atom? && !f.Not? ==> |r| >= 2 && r[0] == '(' && r[|r| - 1] == ')'
  {
    match f
    case Atom(n) => n
    case Not(g) => "¬" + FormulaToStr(g)
    case And(l, r) => "(" + FormulaToStr(l) + " ∧ " + FormulaToStr(r) + ")"
    case Or(l, r) => "(" + FormulaToStr(l) + " ∨ " + FormulaToStr(r) + ")"
    case Implies(l, r) => "(" + FormulaToStr(l) + " → " + FormulaToStr(r) + ")"
  }

  // ---------------------------------------------------------------------
  // Reading a printed formula back

  /** The formula built by the binary connective printed as `op`. */
  function Connect(op: char, l: Formula, r: Formula): Formula
    requires op in "∧∨→"
  {
    if op == '∧' then And(l, r) else if op == '∨' then Or(l, r) else Implies(l, r)
  }

  /** The longest prefix of `s` free of spaces and closing parentheses: where a printed atom ends. */
  function NameRun(s: string): (n: string)
    ensures |n| <= |s|
  {
    if s == [] || s[0] == ' ' || s[0] == ')' then [] else [s[0]] + NameRun(s[1..])
  }

  /**
   * Reads one printed formula from the front of `s`, returning it and what
   * follows it; the inverse of `FormulaToStr` on readable formulas.
   */
  function Read(s: string): (r: Option<(Formula, string)>)
    ensures r.Some? ==> |r.value.1| < |s|
    decreases |s|, 0
  {
    if s == [] then None
    else if s[0] == '¬' then
      match Read(s[1..])
      case None => None
      case Some((g, rest)) => Some((Not(g), rest))
    else if s[0] == '(' then ReadBinary(s[1..])
    else
      var n := NameRun(s);
      if n == [] then None else Some((Atom(n), s[|n|..]))
  }

  /** After an opening parenthesis: left operand, ` op `, right operand, `)`. */
  function ReadBinary(s: string): (r: Option<(Formula, string)>)
    ensures r.Some? ==> |r.value.1| < |s|
    decreases |s|, 1
  {
    match Read(s)
    case None => None
    case Some((l, x)) =>
      if |x| < 3 || x[0] != ' ' || x[1] !in "∧∨→" || x[2] != ' ' then None
      else
        match Read(x[3..])
        case None => None
        case Some((r, y)) =>
          if y == [] || y[0] != ')' then None else Some((Connect(x[1], l, r), y[1..]))
  }

  /** An atom name `Read` can find again: not empty, no space or `)`, not starting like a compound formula. */
  predicate ReadableName(n: string) {
    n != [] && n[0] != '¬' && n[0] != '(' && forall i | 0 <= i < |n| :: n[i] != ' ' && n[i] != ')'
  }

  predicate Readable(f: Formula) {
    match f
    case Atom(n) => ReadableName(n)
    case Not(g) => Readable(g)
    case And(l, r) => Readable(l) && Readable(r)
    case Or(l, r) => Readable(l) && Readable(r)
    case Implies(l, r) => Readable(l) && Readable(r)
  }

  /** What may follow a printed formula without changing how it reads. */
  predicate Boundary(rest: string) {
    rest == [] || rest[0] == ' ' || rest[0] == ')'
  }

  lemma {:induction false} NameRunOf(n: string, rest: string)
    requires forall i | 0 <= i < |n| :: n[i] != ' ' && n[i] != ')'
    requires Boundary(rest)
    ensures NameRun(n + rest) == n
  {
    if n == [] {
      assert n + rest == rest;
    } else {
      assert (n + rest)[1..] == n[1..] + rest;
      NameRunOf(n[1..], rest);
    }
  }

  /** `formula_to_str` loses nothing: reading the string back gives the formula and leaves what followed. */
  lemma {:induction false} ReadFormulaToStr(f: Formula, rest: string)
    requires Readable(f) && Boundary(rest)
    ensures Read(FormulaToStr(f) + rest) == Some((f, rest))
    decreases f, 1
  {
    match f
    case Atom(n) =>
      NameRunOf(n, rest);
      assert (n + rest)[|n|..] == rest;
    case Not(g) =>
      ReadFormulaToStr(g, rest);
      ReadNot(FormulaToStr(g), g, rest);
    case _ =>
      ReadOperands(f, rest);
  }

  /** The connective a binary formula is printed with. */
  function Glyph(f: Formula): (op: char)
    requires !f.Atom? && !f.Not?
    ensures op in "∧∨→" && Connect(op, f.left, f.right) == f
  {
    if f.And? then '∧' else if f.Or? then '∨' else '→'
  }

  lemma ReadNot(a: string, g: Formula, rest: string)
    requires Read(a + rest) == Some((g, rest))
    ensures Read("¬" + a + rest) == Some((Not(g), rest))
  {
    var s := "¬" + a + rest;
    assert s[0] == '¬' && s[1..] == a + rest;
  }

  lemma {:induction false} ReadOperands(f: Formula, rest: string)
    requires !f.Atom? && !f.Not? && Readable(f) && Boundary(rest)
    ensures Read(FormulaToStr(f) + rest) == Some((f, rest))
    decreases f, 0
  {
    var op := Glyph(f);
    var a := FormulaToStr(f.left);
    var b := FormulaToStr(f.right);
    var x := [' ', op, ' '] + b + ")" + rest;
    ReadFormulaToStr(f.left, x);
    ReadFormulaToStr(f.right, ")" + rest);
    BinarySlices(a, op, b, rest);
    ReadBinaryStep(a + x, f.left, x, f.right, ")" + rest);
    ReadParen(a + x);
    PrintedBinary(f, rest);
  }

  lemma PrintedBinary(f: Formula, rest: string)
    requires !f.Atom? && !f.Not?
    ensures FormulaToStr(f) + rest == "(" + (FormulaToStr(f.left) + ([' ', Glyph(f), ' '] + FormulaToStr(f.right) + ")" + rest))
  {
  }

  lemma BinarySlices(a: string, op: char, b: string, rest: string)
    ensures ([' ', op, ' '] + b + ")" + rest)[3..] == b + (")" + rest)
    ensures (")" + rest)[1..] == rest
  {
    assert [' ', op, ' '] + b + ")" + rest == [' ', op, ' '] + (b + (")" + rest));
  }

  lemma ReadBinaryStep(s: string, l: Formula, x: string, r: Formula, y: string)
    requires Read(s) == Some((l, x)) && |x| >= 3 && x[0] == ' ' && x[1] in "∧∨→" && x[2] == ' '
    requires Read(x[3..]) == Some((r, y)) && y != [] && y[0] == ')'
    ensures ReadBinary(s) == Some((Connect(x[1], l, r), y[1..]))
  {
  }

  lemma ReadParen(inner: string)
    ensures Read("(" + inner) == ReadBinary(inner)
  {
    assert ("(" + inner)[0] == '(' && ("(" + inner)[1..] == inner;
  }

  /** Two readable formulas print the same only if they are the same formula. */
  lemma FormulaToStrInjective(f: Formula, g: Formula)
    requires Readable(f) && Readable(g) && FormulaToStr(f) == FormulaToStr(g)
    ensures f == g
  {
    ReadFormulaToStr(f, []);
    ReadFormulaToStr(g, []);
    assert FormulaToStr(f) + [] == FormulaToStr(f) && FormulaToStr(g) + [] == FormulaToStr(g);
  }
}
