/**
 * The recursive-descent parser of truth_tree_generator/logic/parser.py
 * (`parse_sentence` with its nested `parse_iff` ... `parse_atom`) and its
 * near-copy `parse_expression` in truth_tree_generator/app.py.
 *
 * The two differ only in which error a malformed token list raises and in
 * whether tokens left after the formula are rejected; `Dialect` selects
 * between them. The four binary levels are one definition indexed by `k`:
 * 4 is `parse_iff`, 3 `parse_implies`, 2 `parse_or`, 1 `parse_and`, and
 * level 0 is `parse_not`.
 */
module Parser {
  import opened Results
  import opened Prop
  import opened Lexer

  datatype Dialect = Package | Flask

  datatype ParseError =
    | UnexpectedEnd                   // package: "Unexpected end of input"
    | MismatchedParens                // package: "Mismatched parentheses"
    | UnexpectedToken(t: Tok)         // both: "Unexpected token: ..."
    | TrailingTokens(rest: seq<Tok>)  // package: "Unexpected tokens at end of input"
    | IndexOutOfRange                 // Flask: `tokens[0]` on an empty list
    | MissingClosingParen             // Flask: "Missing closing parenthesis"

  /** A parsed formula and the tokens left after it. */
  datatype Parsed = Parsed(f: Prop, rest: seq<Tok>)

  /** The connective token consumed by the loop of binary level `k`. */
  function LevelOp(k: nat): Tok
    requires 1 <= k <= 4
  {
    if k == 1 then TAnd else if k == 2 then TOr else if k == 3 then TImplies else TIff
  }

  /** The binary level that handles `t`, or 0 when no loop consumes it. */
  function OpLevel(t: Tok): nat {
    match t
    case TAnd => 1
    case TOr => 2
    case TImplies => 3
    case TIff => 4
    case _ => 0
  }

  /** The node a loop of level `k` builds from its left and right operands. */
  function Join(k: nat, l: Prop, r: Prop): (f: Prop)
    requires 1 <= k <= 4
    ensures !f.Atom? && !f.Not? && f.left == l && f.right == r
    ensures OpTok(f) == LevelOp(k)
  {
    if k == 1 then And(l, r) else if k == 2 then Or(l, r) else if k == 3 then Implies(l, r) else Iff(l, r)
  }

  lemma LevelOpLevel(k: nat, t: Tok)
    requires 1 <= k <= 4
    ensures OpLevel(t) == k <==> t == LevelOp(k)
  {
  }

  /** No loop of level `k` or below continues on `ts`. */
  predicate Stops(k: nat, ts: seq<Tok>) {
    ts == [] || OpLevel(ts[0]) == 0 || OpLevel(ts[0]) > k
  }

  /** The errors each dialect can raise. */
  predicate DialectError(d: Dialect, e: ParseError) {
    match d
    case Package => e.UnexpectedEnd? || e.MismatchedParens? || e.UnexpectedToken? || e.TrailingTokens?
    case Flask => e.IndexOutOfRange? || e.MissingClosingParen? || e.UnexpectedToken?
  }

  /**
   * Level `k` of the parser on the token list `ts`: the formula it returns and
   * the tokens it leaves, or the error it raises.
   */
  function Level(d: Dialect, k: nat, ts: seq<Tok>): (r: Result<Parsed, ParseError>)
    requires k <= 4
    ensures r.Ok? ==> |r.value.rest| < |ts| && Stops(k, r.value.rest)
    ensures r.Err? ==> DialectError(d, r.error) && !r.error.TrailingTokens?
    decreases |ts|, k, 2
  {
    if k == 0 then
      if ts != [] && ts[0] == TNot then
        var p :- Level(d, 0, ts[1..]);
        Ok(Parsed(Not(p.f), p.rest))
      else
        Primary(d, ts)
    else
      var p :- Level(d, k - 1, ts);
      Loop(d, k, p.f, p.rest)
  }

  /** The `while` loop of binary level `k`, with `acc` the formula built so far. */
  function Loop(d: Dialect, k: nat, acc: Prop, ts: seq<Tok>): (r: Result<Parsed, ParseError>)
    requires 1 <= k <= 4
    ensures r.Ok? ==> |r.value.rest| <= |ts| && (Stops(k - 1, ts) ==> Stops(k, r.value.rest))
    ensures r.Err? ==> DialectError(d, r.error) && !r.error.TrailingTokens?
    decreases |ts|, k, 1
  {
    if ts != [] && ts[0] == LevelOp(k) then
      var p :- Level(d, k - 1, ts[1..]);
      Loop(d, k, Join(k, acc, p.f), p.rest)
    else
      Ok(Parsed(acc, ts))
  }

  /** `parse_atom`: a parenthesised formula or a single atom. */
  function Primary(d: Dialect, ts: seq<Tok>): (r: Result<Parsed, ParseError>)
    ensures r.Ok? ==> |r.value.rest| < |ts|
    ensures r.Err? ==> DialectError(d, r.error) && !r.error.TrailingTokens?
    decreases |ts|, 0, 0
  {
    if ts == [] then
      Err(if d == Package then UnexpectedEnd else IndexOutOfRange)
    else if ts[0] == TLParen then
      var p :- Level(d, 4, ts[1..]);
      if p.rest == [] then
        Err(if d == Package then MismatchedParens else IndexOutOfRange)
      else if p.rest[0] != TRParen then
        Err(if d == Package then MismatchedParens else MissingClosingParen)
      else
        Ok(Parsed(p.f, p.rest[1..]))
    else if ts[0].TAtom? then
      Ok(Parsed(Atom(ts[0].c), ts[1..]))
    else
      Err(UnexpectedToken(ts[0]))
  }

  /**
   * A whole sentence: the package parser rejects leftover tokens, the Flask
   * parser returns what `parse_iff` built and ignores them.
   */
  function Sentence(d: Dialect, ts: seq<Tok>): (r: Result<Prop, ParseError>)
    ensures r.Err? ==> DialectError(d, r.error)
  {
    var p :- Level(d, 4, ts);
    if d == Package && p.rest != [] then Err(TrailingTokens(p.rest)) else Ok(p.f)
  }

  /** A method's outcome matches a specification result, token list included. */
  predicate Agrees(r: Result<Prop, ParseError>, tokens: seq<Tok>, spec: Result<Parsed, ParseError>) {
    match spec
    case Ok(p) => r == Ok(p.f) && tokens == p.rest
    case Err(e) => r == Err(e)
  }

  /** The shared token list that the nested parse functions pop from. */
  class TokenStream {
    var tokens: seq<Tok>
    const dialect: Dialect

    constructor (d: Dialect, ts: seq<Tok>)
      ensures dialect == d && tokens == ts
    {
      dialect := d;
      tokens := ts;
    }

    method ParseAtom() returns (r: Result<Prop, ParseError>)
      modifies this
      ensures Agrees(r, tokens, Primary(dialect, old(tokens)))
      decreases |tokens|, 0, 0
    {
      if tokens == [] {
        r := Err(if dialect == Package then UnexpectedEnd else IndexOutOfRange);
        return;
      }
      if tokens[0] == TLParen {
        tokens := tokens[1..];
        r := ParseBinary(4);
        if r.Err? {
          return;
        }
        if tokens == [] {
          r := Err(if dialect == Package then MismatchedParens else IndexOutOfRange);
          return;
        }
        var closing := tokens[0];
        tokens := tokens[1..];
        if closing != TRParen {
          r := Err(if dialect == Package then MismatchedParens else MissingClosingParen);
        }
      } else if tokens[0].TAtom? {
        r := Ok(Atom(tokens[0].c));
        tokens := tokens[1..];
      } else {
        r := Err(UnexpectedToken(tokens[0]));
      }
    }

    method ParseNot() returns (r: Result<Prop, ParseError>)
      modifies this
      ensures Agrees(r, tokens, Level(dialect, 0, old(tokens)))
      decreases |tokens|, 0, 1
    {
      if tokens != [] && tokens[0] == TNot {
        tokens := tokens[1..];
        r := ParseNot();
        if r.Ok? {
          r := Ok(Not(r.value));
        }
      } else {
        r := ParseAtom();
      }
    }

    /** `parse_and` (k = 1) up to `parse_iff` (k = 4). */
    method ParseBinary(k: nat) returns (r: Result<Prop, ParseError>)
      requires 1 <= k <= 4
      modifies this
      ensures Agrees(r, tokens, Level(dialect, k, old(tokens)))
      decreases |tokens|, k, 2
    {
      ghost var start := tokens;
      if k == 1 {
        r := ParseNot();
      } else {
        r := ParseBinary(k - 1);
      }
      if r.Err? {
        return;
      }
      var left := r.value;
      while tokens != [] && tokens[0] == LevelOp(k)
        invariant |tokens| < |start|
        invariant Level(dialect, k, start) == Loop(dialect, k, left, tokens)
        decreases |tokens|
      {
        tokens := tokens[1..];
        var right;
        if k == 1 {
          right := ParseNot();
        } else {
          right := ParseBinary(k - 1);
        }
        if right.Err? {
          return right;
        }
        left := Join(k, left, right.value);
      }
      r := Ok(left);
    }

    method ParseSentence() returns (r: Result<Prop, ParseError>)
      modifies this
      ensures r == Sentence(dialect, old(tokens))
    {
      r := ParseBinary(4);
      if r.Ok? && dialect == Package && tokens != [] {
        r := Err(TrailingTokens(tokens));
      }
    }
  }

  // ---------------------------------------------------------------------
  // Reading back the tokens of a formula

  lemma JoinOfOp(f: Prop)
    requires !f.Atom? && !f.Not?
    ensures 1 <= OpLevel(OpTok(f)) <= 4 && Join(OpLevel(OpTok(f)), f.left, f.right) == f
  {
  }

  /** Passing a result up through the loops of levels `j + 1 .. k`, none of which continues. */
  lemma {:induction false} Climb(d: Dialect, j: nat, k: nat, ts: seq<Tok>, g: Prop, rest: seq<Tok>)
    requires j <= k <= 4
    requires Level(d, j, ts) == Ok(Parsed(g, rest))
    requires Stops(k, rest)
    ensures Level(d, k, ts) == Ok(Parsed(g, rest))
    decreases k - j
  {
    if j < k {
      Climb(d, j, k - 1, ts, g, rest);
      assert Loop(d, k, g, rest) == Ok(Parsed(g, rest));
    }
  }

  /** The ¬ level reads a formula back from its tokens, whatever follows them. */
  lemma {:induction false} NotLevelReadsToks(d: Dialect, f: Prop, rest: seq<Tok>)
    ensures Level(d, 0, Toks(f) + rest) == Ok(Parsed(f, rest))
  {
    var ts := Toks(f) + rest;
    match f
    case Atom(c) =>
      assert ts[0] == TAtom(c) && ts[1..] == rest;
    case Not(a) =>
      var inner := Toks(a) + ([TRParen] + rest);
      assert ts[0] == TNot && ts[1..] == [TLParen] + inner;
      assert ([TLParen] + inner)[1..] == inner;
      NotLevelReadsToks(d, a, [TRParen] + rest);
      Climb(d, 0, 4, inner, a, [TRParen] + rest);
      assert ([TRParen] + rest)[1..] == rest;
      assert Level(d, 0, [TLParen] + inner) == Ok(Parsed(a, rest));
    case _ =>
      NotLevelReadsToks(d, f.left, [OpTok(f)] + (Toks(f.right) + ([TRParen] + rest)));
      NotLevelReadsToks(d, f.right, [TRParen] + rest);
      BinaryReadsToks(d, f, rest);
  }

  lemma BinaryReadsToks(d: Dialect, f: Prop, rest: seq<Tok>)
    requires !f.Atom? && !f.Not?
    requires Level(d, 0, Toks(f.left) + ([OpTok(f)] + (Toks(f.right) + ([TRParen] + rest))))
          == Ok(Parsed(f.left, [OpTok(f)] + (Toks(f.right) + ([TRParen] + rest))))
    requires Level(d, 0, Toks(f.right) + ([TRParen] + rest)) == Ok(Parsed(f.right, [TRParen] + rest))
    ensures Level(d, 0, Toks(f) + rest) == Ok(Parsed(f, rest))
  {
    var closing := [TRParen] + rest;
    var afterOp := Toks(f.right) + closing;
    var inner := Toks(f.left) + ([OpTok(f)] + afterOp);
    JoinOfOp(f);
    ReadJoined(d, OpLevel(OpTok(f)), f.left, f.right, inner, afterOp, closing);
    var ts := Toks(f) + rest;
    ToksBinary(f);
    Regroup(Toks(f.left), OpTok(f), Toks(f.right), rest);
    PrimaryParenthesised(d, ts, f, closing);
  }

  lemma ToksBinary(f: Prop)
    requires !f.Atom? && !f.Not?
    ensures Toks(f) == [TLParen] + Toks(f.left) + [OpTok(f)] + Toks(f.right) + [TRParen]
  {
  }

  lemma Regroup(L: seq<Tok>, op: Tok, R: seq<Tok>, rest: seq<Tok>)
    ensures [TLParen] + L + [op] + R + [TRParen] + rest == [TLParen] + (L + ([op] + (R + ([TRParen] + rest))))
  {
  }

  /** Inside parentheses: the left operand, the connective of level `m`, the right operand. */
  lemma ReadJoined(d: Dialect, m: nat, l: Prop, r: Prop, inner: seq<Tok>, afterOp: seq<Tok>, closing: seq<Tok>)
    requires 1 <= m <= 4
    requires Level(d, 0, inner) == Ok(Parsed(l, [LevelOp(m)] + afterOp))
    requires Level(d, 0, afterOp) == Ok(Parsed(r, closing))
    requires closing != [] && closing[0] == TRParen
    ensures Level(d, 4, inner) == Ok(Parsed(Join(m, l, r), closing))
  {
    var afterL := [LevelOp(m)] + afterOp;
    Climb(d, 0, m - 1, inner, l, afterL);
    Climb(d, 0, m - 1, afterOp, r, closing);
    assert afterL[1..] == afterOp;
    assert Loop(d, m, Join(m, l, r), closing) == Ok(Parsed(Join(m, l, r), closing));
    assert Loop(d, m, l, afterL) == Ok(Parsed(Join(m, l, r), closing));
    Climb(d, m, 4, inner, Join(m, l, r), closing);
  }

  /** `( ... )` around a complete formula at the ¬ level. */
  lemma PrimaryParenthesised(d: Dialect, ts: seq<Tok>, f: Prop, closing: seq<Tok>)
    requires ts != [] && ts[0] == TLParen
    requires Level(d, 4, ts[1..]) == Ok(Parsed(f, closing))
    requires closing != [] && closing[0] == TRParen
    ensures Level(d, 0, ts) == Ok(Parsed(f, closing[1..]))
  {
  }

  /** Every level reads a formula back from its tokens when what follows stops it. */
  lemma LevelReadsToks(d: Dialect, k: nat, f: Prop, rest: seq<Tok>)
    requires k <= 4 && Stops(k, rest)
    ensures Level(d, k, Toks(f) + rest) == Ok(Parsed(f, rest))
  {
    NotLevelReadsToks(d, f, rest);
    Climb(d, 0, k, Toks(f) + rest, f, rest);
  }

  /** Round trip at the token level, for both dialects. */
  lemma SentenceReadsToks(d: Dialect, f: Prop)
    ensures Sentence(d, Toks(f)) == Ok(f)
  {
    assert Toks(f) + [] == Toks(f);
    LevelReadsToks(d, 4, f, []);
  }

  // ---------------------------------------------------------------------
  // Prefix stability: tokens appended after a complete parse do not change it

  lemma ConsAppend<T>(ts: seq<T>, rest: seq<T>)
    requires ts != []
    ensures ts + rest != [] && (ts + rest)[0] == ts[0] && (ts + rest)[1..] == ts[1..] + rest
  {
  }

  lemma {:induction false} LevelAppend(d: Dialect, k: nat, ts: seq<Tok>, rest: seq<Tok>)
    requires k <= 4 && Level(d, k, ts).Ok?
    requires Stops(k, Level(d, k, ts).value.rest + rest)
    ensures Level(d, k, ts + rest)
         == Ok(Parsed(Level(d, k, ts).value.f, Level(d, k, ts).value.rest + rest))
    decreases |ts|, k, 2
  {
    if k == 0 {
      if ts != [] && ts[0] == TNot {
        ConsAppend(ts, rest);
        LevelAppend(d, 0, ts[1..], rest);
      } else {
        assert ts != [] && (ts + rest)[0] == ts[0];
        PrimaryAppend(d, ts, rest);
      }
    } else {
      var p := Level(d, k - 1, ts).value;
      if p.rest == [] {
        assert Level(d, k, ts).value.rest == [];
      }
      LevelAppend(d, k - 1, ts, rest);
      LoopAppend(d, k, p.f, p.rest, rest);
    }
  }

  lemma {:induction false} LoopAppend(d: Dialect, k: nat, acc: Prop, ts: seq<Tok>, rest: seq<Tok>)
    requires 1 <= k <= 4 && Loop(d, k, acc, ts).Ok?
    requires Stops(k, Loop(d, k, acc, ts).value.rest + rest)
    requires Stops(k - 1, ts + rest)
    ensures Loop(d, k, acc, ts + rest)
         == Ok(Parsed(Loop(d, k, acc, ts).value.f, Loop(d, k, acc, ts).value.rest + rest))
    decreases |ts|, k, 1
  {
    if ts != [] && ts[0] == LevelOp(k) {
      LoopAppendStep(d, k, acc, ts, rest);
    } else {
      LoopHalts(d, k, acc, ts);
      LoopAppendHalts(d, k, acc, ts, rest);
    }
  }

  /** LoopAppend when the loop of level `k` reads its connective first. */
  lemma {:induction false} LoopAppendStep(d: Dialect, k: nat, acc: Prop, ts: seq<Tok>, rest: seq<Tok>)
    requires 1 <= k <= 4 && ts != [] && ts[0] == LevelOp(k) && Loop(d, k, acc, ts).Ok?
    requires Stops(k, Loop(d, k, acc, ts).value.rest + rest)
    ensures Loop(d, k, acc, ts + rest)
         == Ok(Parsed(Loop(d, k, acc, ts).value.f, Loop(d, k, acc, ts).value.rest + rest))
    decreases |ts|, k, 0
  {
    LoopOkStep(d, k, acc, ts);
    var q := Level(d, k - 1, ts[1..]).value;
    var acc' := Join(k, acc, q.f);
    var l := Loop(d, k, acc', q.rest);
    assert Loop(d, k, acc, ts) == l;
    assert Stops(k - 1, q.rest + rest) by {
      if q.rest == [] {
        LoopHalts(d, k, acc', q.rest);
        assert q.rest + rest == rest;
      } else {
        assert (q.rest + rest)[0] == q.rest[0];
      }
    }
    assert Loop(d, k, acc', q.rest + rest) == Ok(Parsed(l.value.f, l.value.rest + rest)) by {
      LoopAppend(d, k, acc', q.rest, rest);
    }
    assert Level(d, k - 1, (ts + rest)[1..]) == Ok(Parsed(q.f, q.rest + rest)) by {
      LevelAppend(d, k - 1, ts[1..], rest);
      ConsAppend(ts, rest);
    }
    LoopStep(d, k, acc, ts + rest, q.f, q.rest + rest);
  }

  /** LoopAppend when the loop of level `k` does not start on `ts`. */
  lemma LoopAppendHalts(d: Dialect, k: nat, acc: Prop, ts: seq<Tok>, rest: seq<Tok>)
    requires 1 <= k <= 4 && !(ts != [] && ts[0] == LevelOp(k))
    requires Stops(k, ts + rest)
    ensures Loop(d, k, acc, ts + rest) == Ok(Parsed(acc, ts + rest))
  {
    if ts != [] {
      ConsAppend(ts, rest);
      LoopHalts(d, k, acc, ts + rest);
    } else {
      assert ts + rest == rest;
      StopsEndsLoop(d, k, acc, rest);
    }
  }

  /** A loop that succeeds after reading its connective has read an operand. */
  lemma LoopOkStep(d: Dialect, k: nat, acc: Prop, ts: seq<Tok>)
    requires 1 <= k <= 4 && ts != [] && ts[0] == LevelOp(k) && Loop(d, k, acc, ts).Ok?
    ensures Level(d, k - 1, ts[1..]).Ok?
    ensures Loop(d, k, acc, ts)
         == Loop(d, k, Join(k, acc, Level(d, k - 1, ts[1..]).value.f), Level(d, k - 1, ts[1..]).value.rest)
  {
  }

  /** Without its connective in front, the loop of level `k` returns at once. */
  lemma LoopHalts(d: Dialect, k: nat, acc: Prop, ts: seq<Tok>)
    requires 1 <= k <= 4 && !(ts != [] && ts[0] == LevelOp(k))
    ensures Loop(d, k, acc, ts) == Ok(Parsed(acc, ts))
  {
  }

  lemma {:induction false} PrimaryAppend(d: Dialect, ts: seq<Tok>, rest: seq<Tok>)
    requires Primary(d, ts).Ok?
    ensures Primary(d, ts + rest)
         == Ok(Parsed(Primary(d, ts).value.f, Primary(d, ts).value.rest + rest))
    decreases |ts|, 0, 0
  {
    ConsAppend(ts, rest);
    if ts[0] == TLParen {
      var p := Level(d, 4, ts[1..]).value;
      LevelAppend(d, 4, ts[1..], rest);
      assert (p.rest + rest)[0] == TRParen;
      assert (p.rest + rest)[1..] == p.rest[1..] + rest;
    }
  }

  // ---------------------------------------------------------------------
  // Associativity and precedence

  /** Operands joined by the connective of level `k`: `f0 op f1 op ... op fn`. */
  function Chain(k: nat, fs: seq<Prop>): seq<Tok>
    requires 1 <= k <= 4 && fs != []
  {
    Toks(fs[0]) + ChainTail(k, fs[1..])
  }

  function ChainTail(k: nat, gs: seq<Prop>): seq<Tok>
    requires 1 <= k <= 4
  {
    if gs == [] then [] else [LevelOp(k)] + Toks(gs[0]) + ChainTail(k, gs[1..])
  }

  /** The left-nested tree `(((f0 op f1) op f2) ... op fn)`. */
  function FoldFrom(k: nat, acc: Prop, gs: seq<Prop>): Prop
    requires 1 <= k <= 4
    decreases |gs|
  {
    if gs == [] then acc else FoldFrom(k, Join(k, acc, gs[0]), gs[1..])
  }

  /** What follows an operand inside a chain of level `k` stops level `k - 1`. */
  lemma ChainTailStops(k: nat, gs: seq<Prop>, rest: seq<Tok>)
    requires 1 <= k <= 4 && Stops(k, rest)
    ensures Stops(k - 1, ChainTail(k, gs) + rest)
  {
    if gs == [] {
      assert ChainTail(k, gs) + rest == rest;
    } else {
      assert (ChainTail(k, gs) + rest)[0] == LevelOp(k);
    }
  }

  lemma {:induction false} LoopFolds(d: Dialect, k: nat, acc: Prop, gs: seq<Prop>, rest: seq<Tok>)
    requires 1 <= k <= 4 && Stops(k, rest)
    ensures Loop(d, k, acc, ChainTail(k, gs) + rest) == Ok(Parsed(FoldFrom(k, acc, gs), rest))
    decreases |gs|
  {
    if gs == [] {
      assert ChainTail(k, gs) + rest == rest;
      StopsEndsLoop(d, k, acc, rest);
    } else {
      var after := ChainTail(k, gs[1..]) + rest;
      var ts := ChainTail(k, gs) + rest;
      ChainTailSplit(k, gs, rest);
      ChainTailStops(k, gs[1..], rest);
      LevelReadsToks(d, k - 1, gs[0], after);
      LoopStep(d, k, acc, ts, gs[0], after);
      LoopFolds(d, k, Join(k, acc, gs[0]), gs[1..], rest);
    }
  }

  lemma ChainTailSplit(k: nat, gs: seq<Prop>, rest: seq<Tok>)
    requires 1 <= k <= 4 && gs != []
    ensures ChainTail(k, gs) + rest != [] && (ChainTail(k, gs) + rest)[0] == LevelOp(k)
    ensures (ChainTail(k, gs) + rest)[1..] == Toks(gs[0]) + (ChainTail(k, gs[1..]) + rest)
  {
    assert ChainTail(k, gs) + rest == [LevelOp(k)] + (Toks(gs[0]) + (ChainTail(k, gs[1..]) + rest));
  }

  /** One turn of the loop of level `k`: the connective, then an operand from level `k - 1`. */
  lemma LoopStep(d: Dialect, k: nat, acc: Prop, ts: seq<Tok>, f: Prop, after: seq<Tok>)
    requires 1 <= k <= 4 && ts != [] && ts[0] == LevelOp(k)
    requires Level(d, k - 1, ts[1..]) == Ok(Parsed(f, after))
    ensures Loop(d, k, acc, ts) == Loop(d, k, Join(k, acc, f), after)
  {
  }

  /** The loop of level `k` ends on tokens that stop it. */
  lemma StopsEndsLoop(d: Dialect, k: nat, acc: Prop, ts: seq<Tok>)
    requires 1 <= k <= 4 && Stops(k, ts)
    ensures Loop(d, k, acc, ts) == Ok(Parsed(acc, ts))
  {
    if ts != [] {
      LevelOpLevel(k, ts[0]);
    }
  }

  /** Binary connectives group to the left: `P ∧ Q ∧ R` is `(P ∧ Q) ∧ R`. */
  lemma LeftAssociative(d: Dialect, k: nat, fs: seq<Prop>, rest: seq<Tok>)
    requires 1 <= k <= 4 && fs != [] && Stops(k, rest)
    ensures Level(d, k, Chain(k, fs) + rest) == Ok(Parsed(FoldFrom(k, fs[0], fs[1..]), rest))
  {
    var after := ChainTail(k, fs[1..]) + rest;
    assert Chain(k, fs) + rest == Toks(fs[0]) + after;
    ChainTailStops(k, fs[1..], rest);
    LevelReadsToks(d, k - 1, fs[0], after);
    LoopFolds(d, k, fs[0], fs[1..], rest);
  }

  /** The concrete instance `P ∧ Q ∧ R`. */
  lemma AndChainGroupsLeft(d: Dialect)
    ensures Sentence(d, [TAtom('P'), TAnd, TAtom('Q'), TAnd, TAtom('R')])
         == Ok(And(And(Atom('P'), Atom('Q')), Atom('R')))
  {
    var fs := [Atom('P'), Atom('Q'), Atom('R')];
    assert fs[1..][1..][1..] == [];
    assert ChainTail(1, fs[1..][1..]) == [TAnd, TAtom('R')];
    assert Chain(1, fs) == [TAtom('P'), TAnd, TAtom('Q'), TAnd, TAtom('R')];
    LeftAssociative(d, 1, fs, []);
    assert Chain(1, fs) + [] == Chain(1, fs);
    Climb(d, 1, 4, Chain(1, fs), And(And(Atom('P'), Atom('Q')), Atom('R')), []);
  }

  /**
   * Precedence: two operands that each parse completely at level `k - 1` and
   * are joined by the connective of level `k` become one node of level `k`.
   * So ¬ binds tighter than ∧, ∧ than ∨, ∨ than →, and → than ↔.
   */
  lemma Precedence(d: Dialect, k: nat, tl: seq<Tok>, tr: seq<Tok>, l: Prop, r: Prop)
    requires 1 <= k <= 4
    requires Level(d, k - 1, tl) == Ok(Parsed(l, []))
    requires Level(d, k - 1, tr) == Ok(Parsed(r, []))
    ensures Level(d, k, tl + [LevelOp(k)] + tr) == Ok(Parsed(Join(k, l, r), []))
  {
    var after := [LevelOp(k)] + tr;
    assert tl + [LevelOp(k)] + tr == tl + after;
    assert [] + after == after;
    LevelOpLevel(k, LevelOp(k));
    LevelAppend(d, k - 1, tl, after);
    LevelThenLoop(d, k, tl + after, Parsed(l, after));
    assert after[1..] == tr;
    LoopStep(d, k, l, after, r, []);
    LoopHalts(d, k, Join(k, l, r), []);
  }

  /** A binary level hands what the level below read to its loop. */
  lemma LevelThenLoop(d: Dialect, k: nat, ts: seq<Tok>, p: Parsed)
    requires 1 <= k <= 4 && Level(d, k - 1, ts) == Ok(p)
    ensures Level(d, k, ts) == Loop(d, k, p.f, p.rest)
  {
  }

  /** `¬P ∧ Q` is `(¬P) ∧ Q`, not `¬(P ∧ Q)`. */
  lemma NegationBindsTighter(d: Dialect)
    ensures Level(d, 1, [TNot, TAtom('P'), TAnd, TAtom('Q')])
         == Ok(Parsed(And(Not(Atom('P')), Atom('Q')), []))
  {
    assert Level(d, 0, [TAtom('P')]) == Ok(Parsed(Atom('P'), []));
    assert [TNot, TAtom('P')][1..] == [TAtom('P')];
    assert Level(d, 0, [TNot, TAtom('P')]) == Ok(Parsed(Not(Atom('P')), []));
    Precedence(d, 1, [TNot, TAtom('P')], [TAtom('Q')], Not(Atom('P')), Atom('Q'));
    assert [TNot, TAtom('P')] + [TAnd] + [TAtom('Q')] == [TNot, TAtom('P'), TAnd, TAtom('Q')];
  }

  /** `n` copies of the ¬ token. */
  function Nots(n: nat): seq<Tok> {
    if n == 0 then [] else [TNot] + Nots(n - 1)
  }

  /** `f` under `n` negations. */
  function NotN(n: nat, f: Prop): Prop {
    if n == 0 then f else Not(NotN(n - 1, f))
  }

  /** `k` leading ¬ give `k` nested negation nodes around what follows. */
  lemma {:induction false} LeadingNegations(d: Dialect, n: nat, ts: seq<Tok>)
    ensures Level(d, 0, Nots(n) + ts)
         == match Level(d, 0, ts)
            case Ok(p) => Ok(Parsed(NotN(n, p.f), p.rest))
            case Err(e) => Err(e)
  {
    if n == 0 {
      assert Nots(0) + ts == ts;
    } else {
      LeadingNegations(d, n - 1, ts);
      assert (Nots(n) + ts)[0] == TNot && (Nots(n) + ts)[1..] == Nots(n - 1) + ts;
    }
  }

  // ---------------------------------------------------------------------
  // Errors

  /** An error at the ¬ level is the error of every level above it. */
  lemma {:induction false} ErrorClimbs(d: Dialect, k: nat, ts: seq<Tok>)
    requires k <= 4 && Level(d, 0, ts).Err?
    ensures Level(d, k, ts) == Level(d, 0, ts)
  {
    if k > 0 {
      ErrorClimbs(d, k - 1, ts);
    }
  }

  /** No tokens: "Unexpected end of input", or an IndexError in the Flask parser. */
  lemma EmptyInput()
    ensures Sentence(Package, []) == Err(UnexpectedEnd)
    ensures Sentence(Flask, []) == Err(IndexOutOfRange)
  {
    ErrorClimbs(Package, 4, []);
    ErrorClimbs(Flask, 4, []);
  }

  /** A connective or `)` where an operand belongs is an unexpected token. */
  lemma OperandExpected(d: Dialect, t: Tok, rest: seq<Tok>)
    requires OpLevel(t) > 0 || t == TRParen
    ensures Sentence(d, [t] + rest) == Err(UnexpectedToken(t))
  {
    assert Level(d, 0, [t] + rest) == Err(UnexpectedToken(t));
    ErrorClimbs(d, 4, [t] + rest);
  }

  /**
   * A `(` that is never closed: "Mismatched parentheses" in the package, an
   * IndexError in the Flask parser, which reads `tokens[0]` unchecked.
   */
  lemma UnclosedParen(d: Dialect, f: Prop)
    ensures Sentence(d, [TLParen] + Toks(f))
         == Err(if d == Package then MismatchedParens else IndexOutOfRange)
  {
    var ts := [TLParen] + Toks(f);
    assert ts[1..] == Toks(f) + [];
    LevelReadsToks(d, 4, f, []);
    ErrorClimbs(d, 4, ts);
  }

  /** A `(` closed by something else than `)`. */
  lemma WrongCloser(d: Dialect, f: Prop, t: Tok, rest: seq<Tok>)
    requires t != TRParen && OpLevel(t) == 0
    ensures Sentence(d, [TLParen] + Toks(f) + [t] + rest)
         == Err(if d == Package then MismatchedParens else MissingClosingParen)
  {
    var ts := [TLParen] + Toks(f) + [t] + rest;
    assert ts[0] == TLParen && ts[1..] == Toks(f) + ([t] + rest);
    LevelReadsToks(d, 4, f, [t] + rest);
    ErrorClimbs(d, 4, ts);
  }

  /**
   * Tokens left after a complete formula: the package parser rejects them,
   * the Flask parser silently returns the formula.
   */
  lemma LeftoverTokens(f: Prop, rest: seq<Tok>)
    requires rest != [] && Stops(4, rest)
    ensures Sentence(Package, Toks(f) + rest) == Err(TrailingTokens(rest))
    ensures Sentence(Flask, Toks(f) + rest) == Ok(f)
  {
    LevelReadsToks(Package, 4, f, rest);
    LevelReadsToks(Flask, 4, f, rest);
  }

  /** A successful package parse consumes every token. */
  lemma PackageConsumesAll(ts: seq<Tok>)
    requires Sentence(Package, ts).Ok?
    ensures Level(Package, 4, ts).Ok? && Level(Package, 4, ts).value.rest == []
  {
  }

  // ---------------------------------------------------------------------
  // From text: `tokenize` followed by `parse_sentence`, and `parse_sentences`

  datatype TextError = LexFailed(lex: LexError) | ParseFailed(parse: ParseError)

  /** One sentence through the package tokenizer and parser. */
  function ParseText(s: string): (r: Result<Prop, TextError>)
    ensures r.Ok? ==> Lex(s).Ok? && Sentence(Package, Lex(s).value) == Ok(r.value)
  {
    match Lex(s)
    case Err(e) => Err(LexFailed(e))
    case Ok(ts) =>
      match Sentence(Package, ts)
      case Ok(f) => Ok(f)
      case Err(e) => Err(ParseFailed(e))
  }

  /** What each sentence of `ss` gives on its own. */
  function Outcomes(ss: seq<string>): (rs: seq<Result<Prop, TextError>>)
    ensures |rs| == |ss| && forall i | 0 <= i < |ss| :: rs[i] == ParseText(ss[i])
  {
    seq(|ss|, i requires 0 <= i < |ss| => ParseText(ss[i]))
  }

  /** The results gathered in order, stopping at the first failure. */
  function Collect(rs: seq<Result<Prop, TextError>>): (r: Result<seq<Prop>, TextError>)
    ensures r.Ok? ==> |r.value| == |rs|
  {
    if rs == [] then Ok([])
    else
      var init := Collect(rs[..|rs| - 1]);
      if init.Err? then Err(init.error)
      else match rs[|rs| - 1]
        case Err(e) => Err(e)
        case Ok(f) => Ok(init.value + [f])
  }

  /** `parse_sentences`: all sentences parsed in order, or the first failure. */
  function ParseAll(ss: seq<string>): (r: Result<seq<Prop>, TextError>)
    ensures r.Ok? ==> |r.value| == |ss|
  {
    Collect(Outcomes(ss))
  }

  lemma {:induction false} CollectOk(rs: seq<Result<Prop, TextError>>)
    ensures Collect(rs).Ok? <==> forall i | 0 <= i < |rs| :: rs[i].Ok?
    ensures Collect(rs).Ok? ==> forall i | 0 <= i < |rs| :: Collect(rs).value[i] == rs[i].value
  {
    if rs != [] {
      var init := rs[..|rs| - 1];
      CollectOk(init);
      assert forall i | 0 <= i < |init| :: init[i] == rs[i];
    }
  }

  /** Success means every sentence parsed, each result in its place. */
  lemma ParseAllOk(ss: seq<string>)
    ensures ParseAll(ss).Ok? <==> forall i | 0 <= i < |ss| :: ParseText(ss[i]).Ok?
    ensures ParseAll(ss).Ok? ==> forall i | 0 <= i < |ss| :: ParseAll(ss).value[i] == ParseText(ss[i]).value
  {
    CollectOk(Outcomes(ss));
  }

  lemma {:induction false} CollectFirstError(rs: seq<Result<Prop, TextError>>)
    requires Collect(rs).Err?
    ensures exists i | 0 <= i < |rs| :: rs[i] == Err(Collect(rs).error) && forall j | 0 <= j < i :: rs[j].Ok?
  {
    var init := rs[..|rs| - 1];
    assert forall i | 0 <= i < |init| :: init[i] == rs[i];
    if Collect(init).Err? {
      CollectFirstError(init);
      var i :| 0 <= i < |init| && init[i] == Err(Collect(init).error) && forall j | 0 <= j < i :: init[j].Ok?;
      assert rs[i] == Err(Collect(rs).error);
    } else {
      CollectOk(init);
      assert rs[|rs| - 1] == Err(Collect(rs).error);
    }
  }

  /** Failure reports the error of the first sentence that fails. */
  lemma ParseAllFirstError(ss: seq<string>)
    requires ParseAll(ss).Err?
    ensures exists i | 0 <= i < |ss| ::
              ParseText(ss[i]) == Err(ParseAll(ss).error) && forall j | 0 <= j < i :: ParseText(ss[j]).Ok?
  {
    var rs := Outcomes(ss);
    CollectFirstError(rs);
    var i :| 0 <= i < |rs| && rs[i] == Err(Collect(rs).error) && forall j | 0 <= j < i :: rs[j].Ok?;
    assert ParseText(ss[i]) == Err(ParseAll(ss).error);
  }

  /** Once a prefix fails, the whole list fails with the same error. */
  lemma {:induction false} CollectErrorSticks(rs: seq<Result<Prop, TextError>>, i: nat)
    requires i <= |rs| && Collect(rs[..i]).Err?
    ensures Collect(rs) == Collect(rs[..i])
    decreases |rs|
  {
    if i == |rs| {
      assert rs[..i] == rs;
    } else {
      var init := rs[..|rs| - 1];
      assert init[..i] == rs[..i];
      CollectErrorSticks(init, i);
    }
  }

  lemma CollectStep(rs: seq<Result<Prop, TextError>>, i: nat)
    requires i < |rs|
    ensures Collect(rs[..i + 1])
         == if Collect(rs[..i]).Err? then Err(Collect(rs[..i]).error)
            else match rs[i]
              case Err(e) => Err(e)
              case Ok(f) => Ok(Collect(rs[..i]).value + [f])
  {
    assert rs[..i + 1][..i] == rs[..i];
  }

  method ParseSentences(sentences: seq<string>) returns (r: Result<seq<Prop>, TextError>)
    ensures r == ParseAll(sentences)
  {
    ghost var rs := Outcomes(sentences);
    var parsed: seq<Prop> := [];
    for i := 0 to |sentences|
      invariant Collect(rs[..i]) == Ok(parsed)
    {
      CollectStep(rs, i);
      var lexed := Tokenize(sentences[i]);
      if lexed.Err? {
        CollectErrorSticks(rs, i + 1);
        return Err(LexFailed(lexed.error));
      }
      var stream := new TokenStream(Package, lexed.value);
      var f := stream.ParseSentence();
      if f.Err? {
        CollectErrorSticks(rs, i + 1);
        return Err(ParseFailed(f.error));
      }
      parsed := parsed + [f.value];
    }
    assert rs[..|rs|] == rs;
    r := Ok(parsed);
  }

  /**
   * `ast_to_string` and back: a formula with one-letter atoms and no `↔`
   * survives printing, tokenizing and parsing; with a `↔` the tokenizer
   * raises instead.
   */
  lemma TextRoundTrip(f: Prop)
    requires LetterAtoms(f)
    ensures !HasIff(f) ==> ParseText(Render(f)) == Ok(f)
    ensures HasIff(f) ==> ParseText(Render(f)).Err? && ParseText(Render(f)).error.LexFailed?
  {
    RenderLexAsWritten(f);
    SentenceReadsToks(Package, f);
  }
}
