/**
 * `roman_numeral` (streamlit_app/pages/Argument_Outliner.py), which numbers
 * sub-premises: the greedy conversion over the thirteen values from 1000
 * down to 1, subtractive pairs included, returned in lower case.
 */
module Roman {
  const Values: seq<int> := [1000, 900, 500, 400, 100, 90, 50, 40, 10, 9, 5, 4, 1]
  const Numerals: seq<string> := ["M", "CM", "D", "CD", "C", "XC", "L", "XL", "X", "IX", "V", "IV", "I"]

  /** The table positions the greedy conversion of `n` uses from position `i` on, in the order written. */
  function Groups(n: int, i: nat): (gs: seq<nat>)
    requires i <= 13
    ensures forall k | 0 <= k < |gs| :: i <= gs[k] < 13
    decreases 13 - i, n
  {
    if i == 13 then []
    else if n >= Values[i] then [i] + Groups(n - Values[i], i)
    else Groups(n, i + 1)
  }

  /** The numerals of the groups, run together. */
  function Spell(gs: seq<nat>): (r: string)
    requires forall k | 0 <= k < |gs| :: gs[k] < 13
    ensures |r| >= |gs|
  {
    if gs == [] then [] else Numerals[gs[0]] + Spell(gs[1..])
  }

  /** The values of the groups, added up. */
  function Total(gs: seq<nat>): int
    requires forall k | 0 <= k < |gs| :: gs[k] < 13
  {
    if gs == [] then 0 else Values[gs[0]] + Total(gs[1..])
  }

  /** Python's `str.lower` on the letters that can occur here. */
  function Lower(s: string): (r: string)
    ensures |r| == |s|
  {
    if s == [] then [] else [if 'A' <= s[0] <= 'Z' then (s[0] as int + 32) as char else s[0]] + Lower(s[1..])
  }

  lemma SpellAppend(a: seq<nat>, b: seq<nat>)
    requires forall k | 0 <= k < |a| :: a[k] < 13
    requires forall k | 0 <= k < |b| :: b[k] < 13
    ensures Spell(a + b) == Spell(a) + Spell(b)
  {
    if a != [] {
      assert (a + b)[0] == a[0] && (a + b)[1..] == a[1..] + b;
      SpellAppend(a[1..], b);
    } else {
      assert a + b == b;
    }
  }

  /** One more group of position `i`, written in front of the rest. */
  lemma SpellStep(n: int, i: nat)
    requires i < 13 && n >= Values[i]
    ensures Spell(Groups(n, i)) == Numerals[i] + Spell(Groups(n - Values[i], i))
  {
    var rest := Groups(n - Values[i], i);
    assert Groups(n, i) == [i] + rest;
    SpellAppend([i], rest);
  }

  lemma ValuePositive(i: nat)
    requires i < 13
    ensures Values[i] >= 1
  {
  }

  /** A position whose value exceeds what is left is passed over. */
  lemma SpellSkip(n: int, i: nat)
    requires i < 13 && n < Values[i]
    ensures Spell(Groups(n, i)) == Spell(Groups(n, i + 1))
  {
  }

  /** `roman_numeral(num)`. */
  method RomanNumeral(num: int) returns (r: string)
    ensures r == Lower(Spell(Groups(num, 0)))
  {
    ghost var whole := Spell(Groups(num, 0));
    var result: string := "";
    var n := num;
    for i := 0 to 13
      invariant result + Spell(Groups(n, i)) == whole
    {
      var value := Values[i];
      ValuePositive(i);
      while n >= value
        invariant result + Spell(Groups(n, i)) == whole
        decreases n
      {
        SpellStep(n, i);
        ghost var rest := Spell(Groups(n - value, i));
        assert (result + Numerals[i]) + rest == result + (Numerals[i] + rest);
        result := result + Numerals[i];
        n := n - value;
      }
      SpellSkip(n, i);
    }
    assert Spell(Groups(n, 13)) == [];
    assert result == whole;
    r := Lower(result);
  }

  // ---------------------------------------------------------------------
  // What the conversion promises

  /** A number below 1 has no numeral. */
  lemma NonPositiveIsEmpty(n: int, i: nat)
    requires n < 1 && i <= 13
    ensures Groups(n, i) == []
    decreases 13 - i
  {
    if i < 13 {
      NonPositiveIsEmpty(n, i + 1);
    }
  }

  /** The groups of a non-negative number add up to it: the numeral reads back as the number. */
  lemma {:induction false} GroupsTotal(n: int, i: nat)
    requires 0 <= n && i <= 12
    ensures Total(Groups(n, i)) == n
    decreases 13 - i, n
  {
    if n >= Values[i] {
      GroupsTotal(n - Values[i], i);
    } else if i < 12 {
      GroupsTotal(n, i + 1);
    } else {
      assert n == 0;
      NonPositiveIsEmpty(n, 13);
    }
  }

  /** The table lists its values from the largest down. */
  lemma TableDescends()
    ensures forall k | 0 <= k < 12 :: Values[k] > Values[k + 1]
  {
  }

  predicate InTableOrder(gs: seq<nat>) {
    forall k | 0 <= k < |gs| - 1 :: gs[k] <= gs[k + 1]
  }

  /** Groups are written in table order, so largest value first. */
  lemma {:induction false} GroupsDescend(n: int, i: nat)
    requires i <= 13
    ensures InTableOrder(Groups(n, i))
    decreases 13 - i, n
  {
    if i < 13 {
      if n >= Values[i] {
        var rest := Groups(n - Values[i], i);
        GroupsDescend(n - Values[i], i);
        assert Groups(n, i) == [i] + rest;
        forall k | 0 < k < |rest|
          ensures ([i] + rest)[k] <= ([i] + rest)[k + 1]
        {
          assert ([i] + rest)[k] == rest[k - 1] <= rest[k];
        }
      } else {
        GroupsDescend(n, i + 1);
        assert Groups(n, i) == Groups(n, i + 1);
      }
    }
  }

  /** The numeral of `n` writes its groups largest value first. */
  lemma RomanDescends(n: int)
    ensures var gs := Groups(n, 0); forall k | 0 <= k < |gs| - 1 :: Values[gs[k]] >= Values[gs[k + 1]]
  {
    var gs := Groups(n, 0);
    GroupsDescend(n, 0);
    forall k | 0 <= k < |gs| - 1
      ensures Values[gs[k]] >= Values[gs[k + 1]]
    {
      TableOrder(gs[k], gs[k + 1]);
    }
  }

  lemma {:induction false} TableOrder(a: nat, b: nat)
    requires a <= b < 13
    ensures Values[a] >= Values[b]
    decreases b - a
  {
    if a < b {
      TableDescends();
      TableOrder(a + 1, b);
    }
  }

  /** Only M, C, X and I repeat; a repeated group comes at most three times in a row, except M. */
  predicate Canonical(gs: seq<nat>) {
    && (forall k | 0 <= k < |gs| - 1 :: gs[k] == gs[k + 1] ==> gs[k] in {0, 4, 8, 12})
    && (forall k | 0 <= k < |gs| - 3 :: gs[k] == gs[k + 3] ==> gs[k] == 0)
  }

  /** The first `j + 1` groups are all position `i` only if `n` holds that many of its value. */
  lemma {:induction false} RunNeeds(n: int, i: nat, j: nat)
    requires i < 13
    ensures j < |Groups(n, i)| && Groups(n, i)[j] == i ==> n >= (j + 1) * Values[i]
    decreases j
  {
    if n < Values[i] {
      assert Groups(n, i) == Groups(n, i + 1);
    } else if j > 0 {
      var rest := Groups(n - Values[i], i);
      assert Groups(n, i) == [i] + rest;
      RunNeeds(n - Values[i], i, j - 1);
    }
  }

  /** Twice a value fits below the value before it only for C, X and I. */
  lemma TwiceFits(i: nat)
    requires 0 < i < 13 && 2 * Values[i] < Values[i - 1]
    ensures i in {4, 8, 12}
  {
  }

  /** Four times a value never fits below the value before it. */
  lemma FourTimesFill(i: nat)
    requires 0 < i < 13
    ensures 4 * Values[i] >= Values[i - 1]
  {
  }

  lemma CanonicalCons(i: nat, rest: seq<nat>)
    requires Canonical(rest)
    requires |rest| > 0 && rest[0] == i ==> i in {0, 4, 8, 12}
    requires |rest| > 2 && rest[2] == i ==> i == 0
    ensures Canonical([i] + rest)
  {
    var gs := [i] + rest;
    forall k | 0 <= k < |gs| - 1 && gs[k] == gs[k + 1]
      ensures gs[k] in {0, 4, 8, 12}
    {
      if k > 0 {
        assert gs[k] == rest[k - 1] && gs[k + 1] == rest[k];
      }
    }
    forall k | 0 <= k < |gs| - 3 && gs[k] == gs[k + 3]
      ensures gs[k] == 0
    {
      if k > 0 {
        assert gs[k] == rest[k - 1] && gs[k + 3] == rest[k + 2];
      }
    }
  }

  /** A group repeats right away only for M, C, X or I. */
  lemma RepeatOnce(n: int, i: nat)
    requires i < 13 && n >= Values[i] && (i == 0 || n < Values[i - 1])
    ensures var rest := Groups(n - Values[i], i); |rest| > 0 && rest[0] == i ==> i in {0, 4, 8, 12}
  {
    RunNeeds(n - Values[i], i, 0);
    if i > 0 && n - Values[i] >= Values[i] {
      TwiceFits(i);
    }
  }

  /** No group other than M comes four times in a row. */
  lemma RepeatThrice(n: int, i: nat)
    requires i < 13 && n >= Values[i] && (i == 0 || n < Values[i - 1])
    ensures var rest := Groups(n - Values[i], i); |rest| > 2 && rest[2] == i ==> i == 0
  {
    RunNeeds(n - Values[i], i, 2);
    if i > 0 {
      FourTimesFill(i);
    }
  }

  /** Entering position `i` with less than the value before it, the groups from there on are canonical. */
  lemma {:induction false} GroupsCanonical(n: int, i: nat)
    requires i <= 13 && (i == 0 || n < Values[i - 1])
    ensures Canonical(Groups(n, i))
    decreases 13 - i, n
  {
    if i < 13 {
      if n >= Values[i] {
        var rest := Groups(n - Values[i], i);
        GroupsCanonical(n - Values[i], i);
        RepeatOnce(n, i);
        RepeatThrice(n, i);
        CanonicalCons(i, rest);
        assert Groups(n, i) == [i] + rest;
      } else {
        GroupsCanonical(n, i + 1);
      }
    }
  }

  /** Every number's numeral is in canonical form. */
  lemma RomanCanonical(n: int)
    ensures Canonical(Groups(n, 0))
  {
    GroupsCanonical(n, 0);
  }

  /** The numeral is written in the lower-case letters m, d, c, l, x, v and i. */
  lemma RomanLowerCase(n: int)
    ensures var r := Lower(Spell(Groups(n, 0))); forall k | 0 <= k < |r| :: r[k] in "mdclxvi"
  {
    SpellLetters(Groups(n, 0));
    LowerLetters(Spell(Groups(n, 0)));
  }

  lemma {:induction false} SpellLetters(gs: seq<nat>)
    requires forall k | 0 <= k < |gs| :: gs[k] < 13
    ensures forall k | 0 <= k < |Spell(gs)| :: Spell(gs)[k] in "MDCLXVI"
  {
    if gs != [] {
      SpellLetters(gs[1..]);
      var g := Numerals[gs[0]];
      assert forall k | 0 <= k < |g| :: g[k] in "MDCLXVI";
    }
  }

  lemma {:induction false} LowerLetters(s: string)
    requires forall k | 0 <= k < |s| :: s[k] in "MDCLXVI"
    ensures |Lower(s)| == |s|
    ensures forall k | 0 <= k < |s| :: Lower(s)[k] in "mdclxvi"
  {
    if s != [] {
      LowerLetters(s[1..]);
      assert s[0] in "MDCLXVI";
    }
  }
}
