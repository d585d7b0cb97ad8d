/**
 * `tokenize` of truth_tree_generator/logic/parser.py: one token per
 * non-whitespace character, letters become one-letter atoms.
 */
module Lexer {
  import opened Results
  import opened Prop

  datatype Tok = TAtom(c: char) | TAnd | TOr | TNot | TImplies | TIff | TLParen | TRParen

  datatype LexError = UnexpectedChar(c: char)

  /** Python's `str.isspace` for one character. */
  predicate IsSpace(c: char) {
    c == ' ' || ('\t' <= c <= '\r') || ('\U{1C}' <= c <= '\U{1F}') || c == '\U{85}' || c == '\U{A0}'
    || c == '\U{1680}' || ('\U{2000}' <= c <= '\U{200A}') || c == '\U{2028}' || c == '\U{2029}'
    || c == '\U{202F}' || c == '\U{205F}' || c == '\U{3000}'
  }

  /** Python's `str.isalpha`, restricted to the ASCII letters. */
  predicate IsAlpha(c: char) {
    ('A' <= c <= 'Z') || ('a' <= c <= 'z')
  }

  /**
   * The token for a non-space character. The source tests for `↔` with the
   * two-character slice `sentence[i:i+2] == '↔'`, which only holds when `↔`
   * is the last character of the input: `isLast` says whether it is.
   */
  function CharToken(c: char, isLast: bool): Option<Tok> {
    if IsAlpha(c) then Some(TAtom(c))
    else if c == '∧' then Some(TAnd)
    else if c == '∨' then Some(TOr)
    else if c == '¬' then Some(TNot)
    else if c == '→' then Some(TImplies)
    else if c == '↔' && isLast then Some(TIff)
    else if c == '(' then Some(TLParen)
    else if c == ')' then Some(TRParen)
    else None
  }

  /** Whether the character at `k` is skipped or turned into a token. */
  predicate Accepted(s: string, k: nat)
    requires k < |s|
  {
    IsSpace(s[k]) || CharToken(s[k], k == |s| - 1).Some?
  }

  /** What `tokenize` returns for `s`, or the character it raises on. */
  function Lex(s: string): Result<seq<Tok>, LexError>
    decreases |s|
  {
    if s == [] then Ok([])
    else if IsSpace(s[0]) then Lex(s[1..])
    else match CharToken(s[0], |s| == 1)
      case None => Err(UnexpectedChar(s[0]))
      case Some(t) => Prepend([t], Lex(s[1..]))
  }

  function Prepend(ts: seq<Tok>, r: Result<seq<Tok>, LexError>): Result<seq<Tok>, LexError> {
    match r
    case Ok(rest) => Ok(ts + rest)
    case Err(e) => Err(e)
  }

  lemma PrependNothing(ts: seq<Tok>, r: Result<seq<Tok>, LexError>)
    ensures Prepend([], r) == r
    ensures Prepend(ts, Ok([])) == Ok(ts)
  {
    if r.Ok? {
      assert [] + r.value == r.value;
    }
    assert ts + [] == ts;
  }

  lemma PrependTwice(ts: seq<Tok>, us: seq<Tok>, r: Result<seq<Tok>, LexError>)
    ensures Prepend(ts, Prepend(us, r)) == Prepend(ts + us, r)
  {
    if r.Ok? {
      assert ts + (us + r.value) == ts + us + r.value;
    }
  }

  /** One step of `Lex` on the suffix that starts at `i`. */
  lemma LexStep(s: string, i: nat)
    requires i < |s|
    ensures Lex(s[i..]) == if IsSpace(s[i]) then Lex(s[i + 1..])
                           else match CharToken(s[i], i == |s| - 1)
                             case None => Err(UnexpectedChar(s[i]))
                             case Some(t) => Prepend([t], Lex(s[i + 1..]))
  {
    assert s[i..][0] == s[i];
    assert s[i..][1..] == s[i + 1..];
  }

  /** The `while` loop of `tokenize`, proved to compute `Lex`. */
  method Tokenize(sentence: string) returns (r: Result<seq<Tok>, LexError>)
    ensures r == Lex(sentence)
  {
    var tokens: seq<Tok> := [];
    var i := 0;
    assert sentence[0..] == sentence;
    PrependNothing([], Lex(sentence));
    while i < |sentence|
      invariant 0 <= i <= |sentence| + 1
      invariant Lex(sentence) == Prepend(tokens, if i <= |sentence| then Lex(sentence[i..]) else Ok([]))
      decreases |sentence| + 1 - i
    {
      var c := sentence[i];
      LexStep(sentence, i);
      if IsSpace(c) {
        i := i + 1;
        continue;
      }
      var pairEnd := if i + 2 <= |sentence| then i + 2 else |sentence|;
      var t: Tok;
      if IsAlpha(c) {
        t := TAtom(c);
      } else if c == '∧' {
        t := TAnd;
      } else if c == '∨' {
        t := TOr;
      } else if c == '¬' {
        t := TNot;
      } else if c == '→' {
        t := TImplies;
      } else if sentence[i..pairEnd] == "↔" {
        t := TIff;
        i := i + 1;
      } else if c == '(' {
        t := TLParen;
      } else if c == ')' {
        t := TRParen;
      } else {
        assert i + 1 < |sentence| ==> sentence[i..pairEnd] != "↔" by {
          if i + 1 < |sentence| { assert |sentence[i..pairEnd]| == 2; }
        }
        return Err(UnexpectedChar(c));
      }
      PrependTwice(tokens, [t], Lex(sentence[if t == TIff then i else i + 1..]));
      tokens := tokens + [t];
      i := i + 1;
    }
    assert sentence[|sentence|..] == [];
    PrependNothing(tokens, Ok([]));
    return Ok(tokens);
  }

  /** The characters of `s` that are not whitespace, in order. */
  function Strip(s: string): string {
    if s == [] then [] else (if IsSpace(s[0]) then [] else [s[0]]) + Strip(s[1..])
  }

  /** The token a character stands for when its position does not matter. */
  function TokenOf(c: char): Option<Tok> {
    CharToken(c, true)
  }

  lemma AcceptedShift(s: string, k: nat)
    requires 0 < |s| && k < |s| - 1
    ensures Accepted(s, k + 1) == Accepted(s[1..], k)
  {
    assert s[1..][k] == s[k + 1];
  }

  /** `tokenize` succeeds exactly when every character is accepted. */
  lemma {:induction false} LexOkIffAccepted(s: string)
    ensures Lex(s).Ok? <==> forall k | 0 <= k < |s| :: Accepted(s, k)
    decreases |s|
  {
    if s != [] {
      LexOkIffAccepted(s[1..]);
      if Lex(s).Ok? {
        forall k | 0 <= k < |s| ensures Accepted(s, k) {
          if k > 0 { AcceptedShift(s, k - 1); }
        }
      } else if Accepted(s, 0) {
        var j :| 0 <= j < |s| - 1 && !Accepted(s[1..], j);
        AcceptedShift(s, j);
      }
    }
  }

  /** On failure, the error names the first character that is not accepted. */
  lemma {:induction false} LexErrorIsFirstRejected(s: string)
    requires Lex(s).Err?
    ensures exists k | 0 <= k < |s| :: !Accepted(s, k) && Lex(s).error == UnexpectedChar(s[k])
                                       && forall j | 0 <= j < k :: Accepted(s, j)
    decreases |s|
  {
    if IsSpace(s[0]) || CharToken(s[0], |s| == 1).Some? {
      LexErrorIsFirstRejected(s[1..]);
      var k :| 0 <= k < |s[1..]| && !Accepted(s[1..], k) && Lex(s[1..]).error == UnexpectedChar(s[1..][k])
                && forall j | 0 <= j < k :: Accepted(s[1..], j);
      assert !Accepted(s, k + 1);
      forall j | 0 <= j < k + 1 ensures Accepted(s, j) {
        if j > 0 { assert Accepted(s[1..], j - 1); }
      }
    } else {
      assert !Accepted(s, 0);
    }
  }

  /** A successful `tokenize` emits exactly one token per non-whitespace character. */
  lemma {:induction false} LexOneTokenPerChar(s: string)
    requires Lex(s).Ok?
    ensures OneTokenPerChar(s)
    decreases |s|
  {
    if s != [] {
      LexOneTokenPerChar(s[1..]);
      if IsSpace(s[0]) {
        SpaceTokenless(s);
      } else {
        CharOneToken(s);
      }
    }
  }

  ghost predicate OneTokenPerChar(s: string)
    requires Lex(s).Ok?
  {
    Aligned(Strip(s), Lex(s).value)
  }

  /** Each character of `cs` stands for the token at the same place in `ts`. */
  ghost predicate Aligned(cs: string, ts: seq<Tok>) {
    |cs| == |ts| && forall k | 0 <= k < |cs| :: TokenOf(cs[k]) == Some(ts[k])
  }

  lemma AlignedCons(c: char, t: Tok, cs: string, ts: seq<Tok>)
    requires TokenOf(c) == Some(t) && Aligned(cs, ts)
    ensures Aligned([c] + cs, [t] + ts)
  {
    forall k | 0 < k < |cs| + 1 ensures TokenOf(([c] + cs)[k]) == Some(([t] + ts)[k]) {
      assert ([c] + cs)[k] == cs[k - 1];
    }
  }

  lemma SpaceTokenless(s: string)
    requires s != [] && IsSpace(s[0]) && Lex(s).Ok?
    requires Lex(s[1..]).Ok? && OneTokenPerChar(s[1..])
    ensures OneTokenPerChar(s)
  {
    assert Lex(s) == Lex(s[1..]);
    assert Strip(s) == [] + Strip(s[1..]);
  }

  lemma CharOneToken(s: string)
    requires s != [] && !IsSpace(s[0]) && Lex(s).Ok?
    requires Lex(s[1..]).Ok? && OneTokenPerChar(s[1..])
    ensures OneTokenPerChar(s)
  {
    var t := CharToken(s[0], |s| == 1).value;
    assert Lex(s).value == [t] + Lex(s[1..]).value;
    assert Strip(s) == [s[0]] + Strip(s[1..]);
    AlignedCons(s[0], t, Strip(s[1..]), Lex(s[1..]).value);
  }

  /** Each letter is its own atom: two adjacent letters are two tokens. */
  lemma AdjacentLettersAreTwoAtoms(a: char, b: char)
    requires IsAlpha(a) && IsAlpha(b)
    ensures Lex([a, b]) == Ok([TAtom(a), TAtom(b)])
  {
    assert [a, b][1..] == [b];
    assert [b][1..] == [];
    PrependNothing([TAtom(b)], Ok([]));
    assert Lex([b]) == Ok([TAtom(b)]);
    assert [TAtom(a)] + [TAtom(b)] == [TAtom(a), TAtom(b)];
  }

  /** A `↔` followed by any further character makes `tokenize` raise. */
  lemma IffNotLastRejected(s: string, k: nat)
    requires k < |s| - 1 && s[k] == '↔'
    ensures Lex(s).Err?
  {
    assert !IsSpace('↔') && CharToken('↔', false) == None;
    assert !Accepted(s, k);
    LexOkIffAccepted(s);
  }

  /** The token sequence of `Render(f)` once whitespace is skipped. */
  function Toks(f: Prop): seq<Tok> {
    match f
    case Atom(c) => [TAtom(c)]
    case Not(a) => [TNot, TLParen] + Toks(a) + [TRParen]
    case _ => [TLParen] + Toks(f.left) + [OpTok(f)] + Toks(f.right) + [TRParen]
  }

  function OpTok(f: Prop): Tok
    requires !f.Atom? && !f.Not?
  {
    match f
    case And(_, _) => TAnd
    case Or(_, _) => TOr
    case Implies(_, _) => TImplies
    case Iff(_, _) => TIff
  }

  predicate LetterAtoms(f: Prop) {
    match f
    case Atom(c) => IsAlpha(c)
    case Not(a) => LetterAtoms(a)
    case And(l, r) => LetterAtoms(l) && LetterAtoms(r)
    case Or(l, r) => LetterAtoms(l) && LetterAtoms(r)
    case Implies(l, r) => LetterAtoms(l) && LetterAtoms(r)
    case Iff(l, r) => LetterAtoms(l) && LetterAtoms(r)
  }

  /**
   * The tokenizer the source evidently means: `↔` is accepted wherever it
   * stands, as the other connectives are.
   */
  function LexIntended(s: string): Result<seq<Tok>, LexError>
    decreases |s|
  {
    if s == [] then Ok([])
    else if IsSpace(s[0]) then LexIntended(s[1..])
    else match TokenOf(s[0])
      case None => Err(UnexpectedChar(s[0]))
      case Some(t) => Prepend([t], LexIntended(s[1..]))
  }

  lemma {:induction false} LexIntendedAppend(a: string, b: string)
    requires LexIntended(a).Ok? && LexIntended(b).Ok?
    ensures LexIntended(a + b) == Ok(LexIntended(a).value + LexIntended(b).value)
    decreases |a|
  {
    if a != [] {
      LexIntendedAppend(a[1..], b);
      var A1, B := LexIntended(a[1..]).value, LexIntended(b).value;
      if IsSpace(a[0]) {
        LexIntendedSpaceStep(a, b);
      } else {
        var t := TokenOf(a[0]).value;
        LexIntendedTokenStep(a, b, t);
        assert [t] + (A1 + B) == [t] + A1 + B;
      }
    } else {
      assert a + b == b;
      assert [] + LexIntended(b).value == LexIntended(b).value;
    }
  }

  /** A leading space is skipped, with or without text after it. */
  lemma LexIntendedSpaceStep(a: string, b: string)
    requires a != [] && IsSpace(a[0])
    ensures LexIntended(a) == LexIntended(a[1..])
    ensures LexIntended(a + b) == LexIntended(a[1..] + b)
  {
    assert (a + b)[1..] == a[1..] + b;
  }

  /** A leading token character is read, with or without text after it. */
  lemma LexIntendedTokenStep(a: string, b: string, t: Tok)
    requires a != [] && !IsSpace(a[0]) && TokenOf(a[0]) == Some(t)
    ensures LexIntended(a) == Prepend([t], LexIntended(a[1..]))
    ensures LexIntended(a + b) == Prepend([t], LexIntended(a[1..] + b))
  {
    assert (a + b)[1..] == a[1..] + b;
  }

  lemma LexIntendedSpaced(c: char, t: Tok)
    requires TokenOf(c) == Some(t) && !IsSpace(c)
    ensures LexIntended(" " + [c] + " ") == Ok([t])
  {
    var s := " " + [c] + " ";
    assert s[1..] == [c] + " ";
    assert s[1..][1..] == " ";
    assert " "[1..] == [];
    assert LexIntended(" ") == Ok([]);
    assert LexIntended([c] + " ") == Ok([t] + []);
    assert [t] + [] == [t];
  }

  lemma LexIntendedSingle(c: char, t: Tok)
    requires TokenOf(c) == Some(t) && !IsSpace(c)
    ensures LexIntended([c]) == Ok([t])
  {
    assert [c][1..] == [];
    assert [t] + [] == [t];
  }

  lemma LexIntendedBinary(L: string, R: string, g: char, t: Tok, tl: seq<Tok>, tr: seq<Tok>)
    requires LexIntended(L) == Ok(tl) && LexIntended(R) == Ok(tr)
    requires TokenOf(g) == Some(t) && !IsSpace(g)
    ensures LexIntended("(" + L + " " + [g] + " " + R + ")") == Ok([TLParen] + tl + [t] + tr + [TRParen])
  {
    var mid := " " + [g] + " ";
    assert "(" + L + " " + [g] + " " + R + ")" == "(" + L + mid + R + ")";
    LexIntendedSpaced(g, t);
    LexIntendedSingle('(', TLParen);
    LexIntendedSingle(')', TRParen);
    LexIntendedAppend("(", L);
    LexIntendedAppend("(" + L, mid);
    LexIntendedAppend("(" + L + mid, R);
    LexIntendedAppend("(" + L + mid + R, ")");
  }

  /** The intended tokenizer reads back the tokens of every rendered formula. */
  lemma {:induction false} LexIntendedRender(f: Prop)
    requires LetterAtoms(f)
    ensures LexIntended(Render(f)) == Ok(Toks(f))
  {
    match f
    case Atom(c) =>
      LexIntendedSingle(c, TAtom(c));
    case Not(a) =>
      LexIntendedRender(a);
      LexIntendedNot(a);
    case _ =>
      LexIntendedRender(f.left);
      LexIntendedRender(f.right);
      LexIntendedBinaryOf(f);
  }

  lemma LexIntendedNot(a: Prop)
    requires LexIntended(Render(a)) == Ok(Toks(a))
    ensures LexIntended(Render(Not(a))) == Ok(Toks(Not(a)))
  {
    var r := Render(a);
    LexIntendedSingle('¬', TNot);
    LexIntendedSingle('(', TLParen);
    LexIntendedSingle(')', TRParen);
    LexIntendedAppend("¬", "(");
    assert "¬" + "(" == "¬(";
    LexIntendedAppend("¬(", r);
    LexIntendedAppend("¬(" + r, ")");
    assert [TNot] + [TLParen] == [TNot, TLParen];
  }

  lemma LexIntendedBinaryOf(f: Prop)
    requires !f.Atom? && !f.Not?
    requires LexIntended(Render(f.left)) == Ok(Toks(f.left))
    requires LexIntended(Render(f.right)) == Ok(Toks(f.right))
    ensures LexIntended(Render(f)) == Ok(Toks(f))
  {
    assert TokenOf(OpGlyph(f)) == Some(OpTok(f)) && !IsSpace(OpGlyph(f));
    LexIntendedBinary(Render(f.left), Render(f.right), OpGlyph(f), OpTok(f), Toks(f.left), Toks(f.right));
  }

  /** The source's tokenizer agrees with the intended one on text without `↔`. */
  lemma {:induction false} LexAgreesWithoutIff(s: string)
    requires '↔' !in s
    ensures Lex(s) == LexIntended(s)
    decreases |s|
  {
    if s != [] {
      assert '↔' !in s[1..] by {
        forall k | 0 <= k < |s[1..]| ensures s[1..][k] != '↔' { assert s[k + 1] != '↔'; }
      }
      LexAgreesWithoutIff(s[1..]);
      assert s[0] != '↔';
    }
  }

  lemma {:induction false} RenderHasIff(f: Prop)
    requires LetterAtoms(f)
    ensures '↔' in Render(f) <==> HasIff(f)
  {
    match f
    case Atom(c) =>
    case Not(a) =>
      RenderHasIff(a);
    case _ =>
      RenderHasIff(f.left);
      RenderHasIff(f.right);
      BinaryRenderHasIff(f);
  }

  lemma BinaryRenderHasIff(f: Prop)
    requires !f.Atom? && !f.Not?
    requires '↔' in Render(f.left) <==> HasIff(f.left)
    requires '↔' in Render(f.right) <==> HasIff(f.right)
    ensures '↔' in Render(f) <==> HasIff(f)
  {
    var L, R := Render(f.left), Render(f.right);
    var g := OpGlyph(f);
    assert Render(f) == "(" + L + " " + [g] + " " + R + ")";
    assert g == '↔' <==> f.Iff?;
    assert HasIff(f) <==> f.Iff? || HasIff(f.left) || HasIff(f.right);
    assert '↔' in Render(f) <==> '↔' in L || g == '↔' || '↔' in R;
  }

  lemma RenderEndsWithParen(f: Prop)
    requires !f.Atom?
    ensures |Render(f)| > 0 && Render(f)[|Render(f)| - 1] == ')'
  {
  }

  /**
   * As written, `tokenize` reads back `ast_to_string(f)` exactly when `f` has
   * no biconditional; every rendered `↔` is followed by more text and raises.
   */
  lemma RenderLexAsWritten(f: Prop)
    requires LetterAtoms(f)
    ensures !HasIff(f) ==> Lex(Render(f)) == Ok(Toks(f))
    ensures HasIff(f) ==> Lex(Render(f)).Err?
  {
    RenderHasIff(f);
    LexIntendedRender(f);
    if !HasIff(f) {
      LexAgreesWithoutIff(Render(f));
    } else {
      var s := Render(f);
      var k :| 0 <= k < |s| && s[k] == '↔';
      RenderEndsWithParen(f);
      IffNotLastRejected(s, k);
    }
  }

  /** A concrete instance: the biconditional of two atoms is rejected. */
  lemma IffBetweenAtomsRejected()
    ensures Lex("P ↔ Q") == Err(UnexpectedChar('↔'))
    ensures LexIntended("P ↔ Q") == Ok([TAtom('P'), TIff, TAtom('Q')])
  {
    assert "P ↔ Q"[1..] == " ↔ Q";
    assert " ↔ Q"[1..] == "↔ Q";
    assert "↔ Q"[1..] == " Q";
    assert " Q"[1..] == "Q";
    assert "Q"[1..] == "";
    assert LexIntended("") == Ok([]);
    assert LexIntended("Q") == Ok([TAtom('Q')] + []);
    assert [TAtom('Q')] + [] == [TAtom('Q')];
    assert LexIntended("↔ Q") == Ok([TIff] + [TAtom('Q')]);
    assert [TIff] + [TAtom('Q')] == [TIff, TAtom('Q')];
    assert [TAtom('P')] + [TIff, TAtom('Q')] == [TAtom('P'), TIff, TAtom('Q')];
  }
}
