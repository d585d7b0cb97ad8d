/**
 * The prefix-notation parser of the `utils` package (utils/parser.py):
 * `tokenize` spaces out `(`, `)` and `,` and splits on whitespace; `parse`
 * reads `not ( X )`, `and ( X , Y )`, `or ( X , Y )`, `implies ( X , Y )` or
 * an atom, popping tokens from the front of a shared list.
 */
module PrefixParser {
  import opened Results
  import opened Logic
  import Lexer

  // ---------------------------------------------------------------------
  // `tokenize`

  /** A delimiter `tokenize` surrounds with spaces. */
  predicate IsDelimiter(c: char) {
    c == '(' || c == ')' || c == ','
  }

  /** The three chained `str.replace` calls: each delimiter gets a space on both sides. */
  function Spaced(s: string): string {
    if s == [] then []
    else (if IsDelimiter(s[0]) then [' ', s[0], ' '] else [s[0]]) + Spaced(s[1..])
  }

  /** The leading run of characters that are not whitespace. */
  function Run(s: string): (w: string)
    ensures |w| <= |s|
    ensures s != [] && !Lexer.IsSpace(s[0]) ==> |w| >= 1
  {
    if s == [] || Lexer.IsSpace(s[0]) then [] else [s[0]] + Run(s[1..])
  }

  /** `str.split()` without a separator: the maximal runs of non-whitespace characters. */
  function Words(s: string): seq<string>
    decreases |s|
  {
    if s == [] then []
    else if Lexer.IsSpace(s[0]) then Words(s[1..])
    else [Run(s)] + Words(s[|Run(s)|..])
  }

  /** `tokenize(s)`. */
  function Tokenize(s: string): seq<string> {
    Words(Spaced(s))
  }

  /** The word being read, if any, as a list of tokens. */
  function Flush(acc: string): seq<string> {
    if acc == [] then [] else [acc]
  }

  /**
   * A one-pass scanner: whitespace ends the current word, a delimiter ends
   * it and is a token of its own, any other character extends it.
   */
  function Scan(s: string, acc: string): seq<string>
    decreases |s|
  {
    if s == [] then Flush(acc)
    else if Lexer.IsSpace(s[0]) then Flush(acc) + Scan(s[1..], [])
    else if IsDelimiter(s[0]) then Flush(acc) + [[s[0]]] + Scan(s[1..], [])
    else Scan(s[1..], acc + [s[0]])
  }

  predicate SpaceFree(w: string) {
    forall k | 0 <= k < |w| :: !Lexer.IsSpace(w[k])
  }

  lemma {:induction false} RunStopsAtSpace(acc: string, c: char, rest: string)
    requires SpaceFree(acc) && Lexer.IsSpace(c)
    ensures Run(acc + [c] + rest) == acc
    decreases |acc|
  {
    if acc != [] {
      assert (acc + [c] + rest)[1..] == acc[1..] + [c] + rest;
      RunStopsAtSpace(acc[1..], c, rest);
    }
  }

  /** A whitespace character ends the word before it. */
  lemma WordsAtSpace(acc: string, c: char, rest: string)
    requires SpaceFree(acc) && Lexer.IsSpace(c)
    ensures Words(acc + [c] + rest) == Flush(acc) + Words(rest)
  {
    var s := acc + [c] + rest;
    if acc == [] {
      assert s == [c] + rest && s[1..] == rest;
    } else {
      RunStopsAtSpace(acc, c, rest);
      assert s[|acc|..] == [c] + rest;
      assert ([c] + rest)[1..] == rest;
    }
  }

  lemma {:induction false} WordsOfWord(acc: string)
    requires SpaceFree(acc)
    ensures Words(acc) == Flush(acc)
  {
    if acc != [] {
      assert Run(acc) == acc by {
        RunWhole(acc);
      }
      assert acc[|acc|..] == [];
    }
  }

  lemma {:induction false} RunWhole(acc: string)
    requires SpaceFree(acc)
    ensures Run(acc) == acc
    decreases |acc|
  {
    if acc != [] {
      RunWhole(acc[1..]);
    }
  }

  /** Splitting the spaced text is the one-pass scan, whatever word was pending. */
  lemma {:induction false} WordsOfSpaced(s: string, acc: string)
    requires SpaceFree(acc)
    ensures Words(acc + Spaced(s)) == Scan(s, acc)
    decreases |s|
  {
    if s == [] {
      assert acc + Spaced(s) == acc;
      WordsOfWord(acc);
    } else if Lexer.IsSpace(s[0]) || IsDelimiter(s[0]) {
      WordsOfSpaced(s[1..], []);
      assert [] + Spaced(s[1..]) == Spaced(s[1..]);
      WordsAtBreak(s, acc);
    } else {
      assert acc + Spaced(s) == (acc + [s[0]]) + Spaced(s[1..]);
      WordsOfSpaced(s[1..], acc + [s[0]]);
    }
  }

  /** A whitespace character or a delimiter ends the pending word. */
  lemma WordsAtBreak(s: string, acc: string)
    requires s != [] && (Lexer.IsSpace(s[0]) || IsDelimiter(s[0])) && SpaceFree(acc)
    requires Words(Spaced(s[1..])) == Scan(s[1..], [])
    ensures Words(acc + Spaced(s)) == Scan(s, acc)
  {
    if Lexer.IsSpace(s[0]) {
      WordsAtSpaceChar(s, acc);
    } else {
      WordsAtDelimiter(s, acc);
    }
  }

  lemma WordsAtSpaceChar(s: string, acc: string)
    requires s != [] && Lexer.IsSpace(s[0]) && SpaceFree(acc)
    requires Words(Spaced(s[1..])) == Scan(s[1..], [])
    ensures Words(acc + Spaced(s)) == Scan(s, acc)
  {
    var tail := Spaced(s[1..]);
    assert Spaced(s) == [s[0]] + tail;
    assert acc + Spaced(s) == acc + [s[0]] + tail;
    WordsAtSpace(acc, s[0], tail);
    assert Scan(s, acc) == Flush(acc) + Scan(s[1..], []);
  }

  lemma WordsAtDelimiter(s: string, acc: string)
    requires s != [] && IsDelimiter(s[0]) && SpaceFree(acc)
    requires Words(Spaced(s[1..])) == Scan(s[1..], [])
    ensures Words(acc + Spaced(s)) == Scan(s, acc)
  {
    var tail := Spaced(s[1..]);
    var x := [s[0]] + [' '] + tail;
    assert acc + Spaced(s) == acc + [' '] + x by {
      assert Spaced(s) == [' ', s[0], ' '] + tail;
    }
    assert Words(acc + [' '] + x) == Flush(acc) + Words(x) by {
      WordsAtSpace(acc, ' ', x);
    }
    assert Words(x) == [[s[0]]] + Words(tail) by {
      WordsAtSpace([s[0]], ' ', tail);
    }
    assert Scan(s, acc) == Flush(acc) + [[s[0]]] + Scan(s[1..], []);
  }

  /** What the scan yields: tokens that are non-empty, free of whitespace, and a lone delimiter if they hold one. */
  predicate WellFormed(ts: seq<string>) {
    forall i | 0 <= i < |ts| ::
      && ts[i] != []
      && SpaceFree(ts[i])
      && forall k | 0 <= k < |ts[i]| :: IsDelimiter(ts[i][k]) ==> ts[i] == [ts[i][k]]
  }

  /** The characters of `s` that are not whitespace, in order. */
  function Visible(s: string): string {
    if s == [] then [] else (if Lexer.IsSpace(s[0]) then [] else [s[0]]) + Visible(s[1..])
  }

  /** All tokens, run together. */
  function Concat(ts: seq<string>): string {
    if ts == [] then [] else ts[0] + Concat(ts[1..])
  }

  lemma {:induction false} ConcatAppend(a: seq<string>, b: seq<string>)
    ensures Concat(a + b) == Concat(a) + Concat(b)
    decreases |a|
  {
    if a != [] {
      assert (a + b)[0] == a[0];
      assert (a + b)[1..] == a[1..] + b;
      ConcatAppend(a[1..], b);
    } else {
      assert a + b == b;
    }
  }

  lemma ConcatFlush(acc: string)
    ensures Concat(Flush(acc)) == acc
  {
    if acc != [] {
      assert Flush(acc)[1..] == [];
    }
  }

  lemma WellFormedAppend(a: seq<string>, b: seq<string>)
    requires WellFormed(a) && WellFormed(b)
    ensures WellFormed(a + b)
  {
    forall i | 0 <= i < |a + b|
      ensures (a + b)[i] == (if i < |a| then a[i] else b[i - |a|])
    {
    }
  }

  /** A word made of ordinary characters. */
  predicate Plain(acc: string) {
    forall k | 0 <= k < |acc| :: !Lexer.IsSpace(acc[k]) && !IsDelimiter(acc[k])
  }

  lemma FlushWellFormed(acc: string)
    requires Plain(acc)
    ensures WellFormed(Flush(acc))
  {
  }

  lemma {:induction false} ScanWellFormed(s: string, acc: string)
    requires Plain(acc)
    ensures WellFormed(Scan(s, acc))
    decreases |s|
  {
    FlushWellFormed(acc);
    if s == [] {
    } else if Lexer.IsSpace(s[0]) {
      ScanWellFormed(s[1..], []);
      WellFormedAppend(Flush(acc), Scan(s[1..], []));
    } else if IsDelimiter(s[0]) {
      ScanWellFormed(s[1..], []);
      assert WellFormed([[s[0]]]);
      WellFormedAppend(Flush(acc), [[s[0]]]);
      WellFormedAppend(Flush(acc) + [[s[0]]], Scan(s[1..], []));
    } else {
      ScanWellFormed(s[1..], acc + [s[0]]);
    }
  }

  lemma {:induction false} ScanConcat(s: string, acc: string)
    ensures Concat(Scan(s, acc)) == acc + Visible(s)
    decreases |s|
  {
    if s == [] {
      ConcatFlush(acc);
    } else if Lexer.IsSpace(s[0]) {
      ScanConcat(s[1..], []);
      ConcatAtSpace(s, acc);
    } else if IsDelimiter(s[0]) {
      ScanConcat(s[1..], []);
      ConcatAtDelimiter(s, acc);
    } else {
      ScanConcat(s[1..], acc + [s[0]]);
      assert Visible(s) == [s[0]] + Visible(s[1..]);
      assert acc + [s[0]] + Visible(s[1..]) == acc + ([s[0]] + Visible(s[1..]));
    }
  }

  lemma ConcatAtSpace(s: string, acc: string)
    requires s != [] && Lexer.IsSpace(s[0])
    requires Concat(Scan(s[1..], [])) == Visible(s[1..])
    ensures Concat(Scan(s, acc)) == acc + Visible(s)
  {
    assert Scan(s, acc) == Flush(acc) + Scan(s[1..], []);
    assert Visible(s) == Visible(s[1..]);
    ConcatAfterWord(acc, Scan(s[1..], []));
  }

  lemma ConcatAtDelimiter(s: string, acc: string)
    requires s != [] && IsDelimiter(s[0])
    requires Concat(Scan(s[1..], [])) == Visible(s[1..])
    ensures Concat(Scan(s, acc)) == acc + Visible(s)
  {
    var t := Scan(s[1..], []);
    assert Scan(s, acc) == Flush(acc) + ([[s[0]]] + t);
    assert Visible(s) == [s[0]] + Visible(s[1..]);
    assert Concat([[s[0]]] + t) == [s[0]] + Concat(t) by {
      assert ([[s[0]]] + t)[0] == [s[0]] && ([[s[0]]] + t)[1..] == t;
    }
    ConcatAfterWord(acc, [[s[0]]] + t);
  }

  lemma ConcatAfterWord(acc: string, ts: seq<string>)
    ensures Concat(Flush(acc) + ts) == acc + Concat(ts)
  {
    ConcatFlush(acc);
    ConcatAppend(Flush(acc), ts);
  }

  /**
   * `tokenize` keeps every visible character, in order, in tokens that are
   * non-empty and free of whitespace; each `(`, `)` and `,` is a token of
   * its own.
   */
  lemma TokenizeFacts(s: string)
    ensures WellFormed(Tokenize(s)) && Concat(Tokenize(s)) == Visible(s)
  {
    WordsOfSpaced(s, []);
    assert [] + Spaced(s) == Spaced(s);
    ScanWellFormed(s, []);
    ScanConcat(s, []);
  }

  // ---------------------------------------------------------------------
  // `parse`

  /** Why `parse` gives up: the two `ValueError`s and the `IndexError` of `pop(0)` on an empty list. */
  datatype PError = UnexpectedEOF | UnexpectedOpenParen | PopFromEmpty

  /** A formula read from the front of the token list, and the tokens still in it. */
  datatype Parsed = Parsed(f: Formula, rest: seq<string>)

  /** The binary connective a keyword other than `not` builds. */
  function Connective(op: string, l: Formula, r: Formula): Formula {
    if op == "and" then And(l, r) else if op == "or" then Or(l, r) else Implies(l, r)
  }

  predicate IsKeyword(t: string) {
    t == "and" || t == "or" || t == "implies" || t == "not"
  }

  /**
   * `parse(tokens)`: the formula read and the tokens it leaves. The token
   * after a keyword and the separators after its arguments are popped
   * without looking at them.
   */
  function Parse(ts: seq<string>): (r: Result<Parsed, PError>)
    ensures r.Ok? ==> |r.value.rest| < |ts|
    decreases |ts|, 0
  {
    if ts == [] then Err(UnexpectedEOF)
    else if ts[0] == "(" then Err(UnexpectedOpenParen)
    else if !IsKeyword(ts[0]) then Ok(Parsed(Atom(ts[0]), ts[1..]))
    else if |ts| < 2 then Err(PopFromEmpty)
    else Operands(ts[0], ts[2..])
  }

  /** The operands of `op`, read after its opening parenthesis has been popped. */
  function Operands(op: string, ts: seq<string>): (r: Result<Parsed, PError>)
    ensures r.Ok? ==> |r.value.rest| < |ts|
    decreases |ts|, 1
  {
    match Parse(ts)
    case Err(e) => Err(e)
    case Ok(a) =>
      if a.rest == [] then Err(PopFromEmpty)
      else if op == "not" then Ok(Parsed(Not(a.f), a.rest[1..]))
      else SecondOperand(op, a.f, a.rest[1..])
  }

  /** The second operand of a binary `op` whose first operand is `l`, read after the comma has been popped. */
  function SecondOperand(op: string, l: Formula, ts: seq<string>): (r: Result<Parsed, PError>)
    ensures r.Ok? ==> |r.value.rest| < |ts|
    decreases |ts|, 1
  {
    match Parse(ts)
    case Err(e) => Err(e)
    case Ok(b) =>
      if b.rest == [] then Err(PopFromEmpty)
      else Ok(Parsed(Connective(op, l, b.f), b.rest[1..]))
  }

  /** `parse_argument(s)`: the formula at the front of the text; tokens after it are ignored. */
  function Argument(s: string): Result<Formula, PError> {
    match Parse(Tokenize(s))
    case Ok(p) => Ok(p.f)
    case Err(e) => Err(e)
  }

  /** The token list `parse` pops from, shared by all its recursive calls. */
  class PrefixStream {
    var tokens: seq<string>

    constructor (ts: seq<string>)
      ensures tokens == ts
    {
      tokens := ts;
    }

    /** `tokens.pop(0)`. */
    method Pop() returns (r: Result<string, PError>)
      modifies this
      ensures old(tokens) == [] ==> r == Err(PopFromEmpty) && tokens == old(tokens)
      ensures old(tokens) != [] ==> r == Ok(old(tokens)[0]) && tokens == old(tokens)[1..]
    {
      if tokens == [] {
        return Err(PopFromEmpty);
      }
      r := Ok(tokens[0]);
      tokens := tokens[1..];
    }

    /** `parse(tokens)`: on success the list is left holding what follows the formula. */
    method ParseFormula() returns (r: Result<Formula, PError>)
      modifies this
      ensures var spec := Parse(old(tokens));
        && (spec.Ok? ==> r == Ok(spec.value.f) && tokens == spec.value.rest)
        && (spec.Err? ==> r == Err(spec.error))
      decreases |tokens|, 0
    {
      if tokens == [] {
        return Err(UnexpectedEOF);
      }
      var token := Pop();
      var op := token.value;
      if op == "(" {
        return Err(UnexpectedOpenParen);
      }
      if !IsKeyword(op) {
        return Ok(Atom(op));
      }
      var open := Pop();
      if open.Err? {
        return Err(PopFromEmpty);
      }
      r := ParseOperands(op);
    }

    /** The operands of `op` and the closing pop, as the keyword branch of `parse` reads them. */
    method ParseOperands(op: string) returns (r: Result<Formula, PError>)
      modifies this
      ensures var spec := Operands(op, old(tokens));
        && (spec.Ok? ==> r == Ok(spec.value.f) && tokens == spec.value.rest)
        && (spec.Err? ==> r == Err(spec.error))
      decreases |tokens|, 1
    {
      var left := ParseFormula();
      if left.Err? {
        return left;
      }
      var sep := Pop();
      if sep.Err? {
        return Err(PopFromEmpty);
      }
      if op == "not" {
        return Ok(Not(left.value));
      }
      r := ParseSecond(op, left.value);
    }

    /** The second operand of a binary `op` and the closing pop. */
    method ParseSecond(op: string, l: Formula) returns (r: Result<Formula, PError>)
      modifies this
      ensures var spec := SecondOperand(op, l, old(tokens));
        && (spec.Ok? ==> r == Ok(spec.value.f) && tokens == spec.value.rest)
        && (spec.Err? ==> r == Err(spec.error))
      decreases |tokens|, 1
    {
      var right := ParseFormula();
      if right.Err? {
        return right;
      }
      var close := Pop();
      if close.Err? {
        return Err(PopFromEmpty);
      }
      r := Ok(Connective(op, l, right.value));
    }
  }

  /** `parse_argument(s)`. */
  method ParseArgument(s: string) returns (r: Result<Formula, PError>)
    ensures r == Argument(s)
  {
    var stream := new PrefixStream(Tokenize(s));
    r := stream.ParseFormula();
  }

  // ---------------------------------------------------------------------
  // Writing a formula in the notation `parse` reads

  /** The tokens of `f` in prefix notation. */
  function Write(f: Formula): seq<string> {
    match f
    case Atom(n) => [n]
    case Not(g) => ["not", "("] + Write(g) + [")"]
    case And(l, r) => ["and", "("] + Write(l) + [","] + Write(r) + [")"]
    case Or(l, r) => ["or", "("] + Write(l) + [","] + Write(r) + [")"]
    case Implies(l, r) => ["implies", "("] + Write(l) + [","] + Write(r) + [")"]
  }

  /** Every atom name of `f` is a word on its own: non-empty, ordinary characters, not a keyword. */
  predicate Writable(f: Formula) {
    match f
    case Atom(n) => n != [] && Plain(n) && !IsKeyword(n)
    case Not(g) => Writable(g)
    case And(l, r) => Writable(l) && Writable(r)
    case Or(l, r) => Writable(l) && Writable(r)
    case Implies(l, r) => Writable(l) && Writable(r)
  }

  /** `parse` reads back what `Write` produced, and leaves whatever followed untouched. */
  lemma {:induction false} ParseWrite(f: Formula, rest: seq<string>)
    requires Writable(f)
    ensures Parse(Write(f) + rest) == Ok(Parsed(f, rest))
  {
    match f
    case Atom(n) =>
      assert n != "(" by {
        assert Plain(n);
        assert n[0] != '(';
      }
      assert (Write(f) + rest)[1..] == rest;
    case Not(g) =>
      ParseWrite(g, [")"] + rest);
      ParseNot(Write(g), g, rest);
      assert Write(f) + rest == ["not", "("] + Write(g) + [")"] + rest;
    case And(l, r) =>
      ParseWrite(l, [","] + Write(r) + [")"] + rest);
      ParseWrite(r, [")"] + rest);
      ParseConnective("and", Write(l), Write(r), l, r, rest);
      assert Write(f) + rest == ["and", "("] + Write(l) + [","] + Write(r) + [")"] + rest;
    case Or(l, r) =>
      ParseWrite(l, [","] + Write(r) + [")"] + rest);
      ParseWrite(r, [")"] + rest);
      ParseConnective("or", Write(l), Write(r), l, r, rest);
      assert Write(f) + rest == ["or", "("] + Write(l) + [","] + Write(r) + [")"] + rest;
    case Implies(l, r) =>
      ParseWrite(l, [","] + Write(r) + [")"] + rest);
      ParseWrite(r, [")"] + rest);
      ParseConnective("implies", Write(l), Write(r), l, r, rest);
      assert Write(f) + rest == ["implies", "("] + Write(l) + [","] + Write(r) + [")"] + rest;
  }

  /** One unfolding of `parse` at `not`. */
  lemma ParseNotStep(ts: seq<string>, g: Formula, x: seq<string>)
    requires |ts| >= 2 && ts[0] == "not"
    requires Parse(ts[2..]) == Ok(Parsed(g, x)) && x != []
    ensures Parse(ts) == Ok(Parsed(Not(g), x[1..]))
  {
    assert Operands("not", ts[2..]) == Ok(Parsed(Not(g), x[1..]));
  }

  /** One unfolding of `parse` at a binary keyword. */
  lemma ParseConnectiveStep(ts: seq<string>, l: Formula, x: seq<string>, r: Formula, y: seq<string>)
    requires |ts| >= 2 && IsKeyword(ts[0]) && ts[0] != "not"
    requires Parse(ts[2..]) == Ok(Parsed(l, x)) && x != []
    requires Parse(x[1..]) == Ok(Parsed(r, y)) && y != []
    ensures Parse(ts) == Ok(Parsed(Connective(ts[0], l, r), y[1..]))
  {
    assert SecondOperand(ts[0], l, x[1..]) == Ok(Parsed(Connective(ts[0], l, r), y[1..]));
    assert Operands(ts[0], ts[2..]) == Ok(Parsed(Connective(ts[0], l, r), y[1..]));
  }

  lemma ParseNot(a: seq<string>, g: Formula, rest: seq<string>)
    requires Parse(a + ([")"] + rest)) == Ok(Parsed(g, [")"] + rest))
    ensures Parse(["not", "("] + a + [")"] + rest) == Ok(Parsed(Not(g), rest))
  {
    var ts := ["not", "("] + a + [")"] + rest;
    assert ts == ["not", "("] + (a + ([")"] + rest));
    assert ts[2..] == a + ([")"] + rest);
    assert ([")"] + rest)[1..] == rest;
    ParseNotStep(ts, g, [")"] + rest);
  }

  lemma BinarySlices(op: string, a: seq<string>, b: seq<string>, rest: seq<string>)
    ensures var ts := [op, "("] + a + [","] + b + [")"] + rest;
      && |ts| >= 2 && ts[0] == op && ts[2..] == a + ([","] + b + [")"] + rest)
    ensures ([","] + b + [")"] + rest)[1..] == b + ([")"] + rest)
    ensures ([")"] + rest)[1..] == rest
  {
    var ts := [op, "("] + a + [","] + b + [")"] + rest;
    assert ts == [op, "("] + (a + ([","] + b + [")"] + rest));
  }

  lemma ParseConnective(op: string, a: seq<string>, b: seq<string>, l: Formula, r: Formula, rest: seq<string>)
    requires IsKeyword(op) && op != "not"
    requires Parse(a + ([","] + b + [")"] + rest)) == Ok(Parsed(l, [","] + b + [")"] + rest))
    requires Parse(b + ([")"] + rest)) == Ok(Parsed(r, [")"] + rest))
    ensures Parse([op, "("] + a + [","] + b + [")"] + rest) == Ok(Parsed(Connective(op, l, r), rest))
  {
    BinarySlices(op, a, b, rest);
    ParseConnectiveStep([op, "("] + a + [","] + b + [")"] + rest, l, [","] + b + [")"] + rest, r, [")"] + rest);
  }

  /** The words of a token list, each followed by a space. */
  function Unwords(ws: seq<string>): string {
    if ws == [] then [] else ws[0] + " " + Unwords(ws[1..])
  }

  /** A word that `tokenize` keeps whole: a run of ordinary characters, or one delimiter. */
  predicate Word(w: string) {
    (w != [] && Plain(w)) || (|w| == 1 && IsDelimiter(w[0]))
  }

  lemma {:induction false} ScanPlain(w: string, x: string, acc: string)
    requires Plain(w)
    ensures Scan(w + x, acc) == Scan(x, acc + w)
    decreases |w|
  {
    if w == [] {
      assert w + x == x && acc + w == acc;
    } else {
      assert (w + x)[0] == w[0] && (w + x)[1..] == w[1..] + x;
      ScanPlain(w[1..], x, acc + [w[0]]);
      assert acc + [w[0]] + w[1..] == acc + w;
    }
  }

  lemma ScanWord(w: string, rest: string)
    requires Word(w)
    ensures Scan(w + " " + rest, []) == [w] + Scan(rest, [])
  {
    if w != [] && Plain(w) {
      ScanPlain(w, " " + rest, []);
      assert w + " " + rest == w + (" " + rest);
      assert [] + w == w;
      assert (" " + rest)[0] == ' ' && (" " + rest)[1..] == rest;
      assert Scan(" " + rest, w) == Flush(w) + Scan(rest, []);
    } else {
      var s := w + " " + rest;
      assert s[0] == w[0] && IsDelimiter(s[0]) && !Lexer.IsSpace(s[0]);
      assert w == [w[0]];
      assert s[1..] == " " + rest;
      assert Scan(" " + rest, []) == Flush([]) + Scan(rest, []) by {
        assert (" " + rest)[1..] == rest;
      }
      assert Flush([]) == [];
    }
  }

  /** `tokenize` splits words joined by spaces back into those words. */
  lemma {:induction false} TokenizeUnwords(ws: seq<string>)
    requires AllWords(ws)
    ensures Tokenize(Unwords(ws)) == ws
  {
    WordsOfSpaced(Unwords(ws), []);
    assert [] + Spaced(Unwords(ws)) == Spaced(Unwords(ws));
    ScanUnwords(ws);
  }

  lemma {:induction false} ScanUnwords(ws: seq<string>)
    requires AllWords(ws)
    ensures Scan(Unwords(ws), []) == ws
  {
    if ws != [] {
      ScanWord(ws[0], Unwords(ws[1..]));
      ScanUnwords(ws[1..]);
    }
  }

  predicate AllWords(ws: seq<string>) {
    forall i | 0 <= i < |ws| :: Word(ws[i])
  }

  lemma AllWordsAppend(a: seq<string>, b: seq<string>)
    requires AllWords(a) && AllWords(b)
    ensures AllWords(a + b)
  {
    forall i | 0 <= i < |a + b|
      ensures (a + b)[i] == (if i < |a| then a[i] else b[i - |a|])
    {
    }
  }

  lemma {:induction false} WriteWords(f: Formula)
    requires Writable(f)
    ensures AllWords(Write(f))
    decreases f, 1
  {
    match f
    case Atom(n) =>
    case Not(g) =>
      WriteWords(g);
      AllWordsAppend(["not", "("], Write(g));
      AllWordsAppend(["not", "("] + Write(g), [")"]);
    case And(l, r) =>
      WrapWords(f, "and", l, r);
    case Or(l, r) =>
      WrapWords(f, "or", l, r);
    case Implies(l, r) =>
      WrapWords(f, "implies", l, r);
  }

  lemma {:induction false} WrapWords(f: Formula, op: string, l: Formula, r: Formula)
    requires l < f && r < f
    requires Plain(op) && op != [] && Writable(l) && Writable(r)
    ensures AllWords([op, "("] + Write(l) + [","] + Write(r) + [")"])
    decreases f, 0
  {
    WriteWords(l);
    WriteWords(r);
    AllWordsAppend([op, "("], Write(l));
    AllWordsAppend([op, "("] + Write(l), [","]);
    AllWordsAppend([op, "("] + Write(l) + [","], Write(r));
    AllWordsAppend([op, "("] + Write(l) + [","] + Write(r), [")"]);
  }

  /** `parse_argument` reads back a formula written out in prefix notation with spaces between the tokens. */
  lemma ArgumentRoundTrip(f: Formula)
    requires Writable(f)
    ensures Argument(Unwords(Write(f))) == Ok(f)
  {
    WriteWords(f);
    TokenizeUnwords(Write(f));
    ParseWrite(f, []);
    assert Write(f) + [] == Write(f);
  }

  /** The separators are popped unchecked: any two tokens stand in for `(` and `)`. */
  lemma DelimitersUnchecked()
    ensures Parse(["not", "[", "P", "]"]) == Ok(Parsed(Not(Atom("P")), []))
  {
    assert Parse(["P", "]"]) == Ok(Parsed(Atom("P"), ["]"]));
  }

  /** A keyword with nothing after it fails on the empty pop, not with a `ValueError`. */
  lemma KeywordAtEnd()
    ensures Parse(["not"]) == Err(PopFromEmpty)
  {
  }

  /**
   * What `parse` does with the first token: nothing left is an unexpected end,
   * a leading `(` is refused, and every other token that is not a keyword is
   * an atom, the delimiters `)` and `,` included.
   */
  lemma ParseFront(ts: seq<string>)
    ensures ts == [] ==> Parse(ts) == Err(UnexpectedEOF)
    ensures ts != [] && ts[0] == "(" ==> Parse(ts) == Err(UnexpectedOpenParen)
    ensures ts != [] && ts[0] != "(" && !IsKeyword(ts[0]) ==> Parse(ts) == Ok(Parsed(Atom(ts[0]), ts[1..]))
  {
  }

  /** A stray closing parenthesis reads as an atom named `)`. */
  lemma StrayCloserIsAtom()
    ensures Argument(")") == Ok(Atom(")"))
  {
    assert Spaced(")") == " ) ";
    assert [] + [' '] + ") " == " ) " && ")" + [' '] + "" == ") ";
    WordsAtSpace([], ' ', ") ");
    WordsAtSpace(")", ' ', "");
  }
}
