/**
 * Scoring of a Mastermind guess against the master code, as pure functions.
 *
 * A peg is its letter. The playable letters are 'A'..'F'; a peg that was
 * never set holds the blank letter ' '. These functions are the
 * specification that the loops of PegArray are proved against.
 */
module Scoring {

  /** Number of different peg letters (6 = 'A' through 'F'). */
  const PegLetters: nat := 6

  /** The letter a freshly built peg holds. */
  const Blank: char := ' '

  /** Slot of a letter in a frequency table: 'A' is 0, as `letter - 65` in `getPartialMatches`. */
  function Index(c: char): int
  {
    c as int - 'A' as int
  }

  /** The peg letters in order, "ABCDEF". */
  const Alphabet: seq<char> := ['A', 'B', 'C', 'D', 'E', 'F']

  predicate IsLetter(c: char)
  {
    'A' <= c <= 'F'
  }

  /** Every peg of `s` holds a playable letter. */
  predicate IsCode(s: seq<char>)
  {
    forall i :: 0 <= i < |s| ==> IsLetter(s[i])
  }

  predicate Distinct(s: seq<char>)
  {
    forall i, j :: 0 <= i < j < |s| ==> s[i] != s[j]
  }

  /** Number of occurrences of `x` in `s`. */
  function Count(s: seq<char>, x: char): (r: nat)
    ensures r <= |s|
  {
    if s == [] then 0
    else Count(s[..|s| - 1], x) + (if s[|s| - 1] == x then 1 else 0)
  }

  /** Number of positions of the guess `g` where the master `m` holds the same letter. */
  function Exact(g: seq<char>, m: seq<char>): (r: nat)
    requires |g| <= |m|
    ensures r <= |g|
  {
    if g == [] then 0
    else Exact(g[..|g| - 1], m) + (if g[|g| - 1] == m[|g| - 1] then 1 else 0)
  }

  /** Number of positions where both `g` and `m` hold the letter `x`. */
  function ExactOf(g: seq<char>, m: seq<char>, x: char): (r: nat)
    requires |g| <= |m|
    ensures r <= Count(g, x)
  {
    if g == [] then 0
    else ExactOf(g[..|g| - 1], m, x) + (if g[|g| - 1] == m[|g| - 1] == x then 1 else 0)
  }

  /** The letters of `g`, in order, at the positions where `m` differs from `g`. */
  function Unmatched(g: seq<char>, m: seq<char>): (r: seq<char>)
    requires |g| <= |m|
    ensures |r| + Exact(g, m) == |g|
    ensures IsCode(g) ==> IsCode(r)
  {
    if g == [] then []
    else Unmatched(g[..|g| - 1], m) + (if g[|g| - 1] != m[|g| - 1] then [g[|g| - 1]] else [])
  }

  function Min(a: int, b: int): int
  {
    if a <= b then a else b
  }

  /** Sum, over the given letters, of the smaller of the two occurrence counts in `a` and `b`. */
  function MinSum(letters: seq<char>, a: seq<char>, b: seq<char>): nat
  {
    if letters == [] then 0
    else Min(Count(a, letters[0]), Count(b, letters[0])) + MinSum(letters[1..], a, b)
  }

  /** Sum, over the given letters, of their occurrence counts in `s`. */
  function SumCount(letters: seq<char>, s: seq<char>): nat
  {
    if letters == [] then 0
    else Count(s, letters[0]) + SumCount(letters[1..], s)
  }

  /**
   * Partial matches credited to the letter `x` by `getPartialMatches`:
   * the frequency table holds every master letter (exact positions included),
   * and each guess letter at a non-exact position consumes one entry.
   */
  function PartialOf(g: seq<char>, m: seq<char>, x: char): nat
    requires |g| <= |m|
  {
    Min(Count(m[..|g|], x), Count(Unmatched(g, m), x))
  }

  /** Partial matches as `getPartialMatches` computes them: the sum of PartialOf over 'A'..'F'. */
  function Partial(g: seq<char>, m: seq<char>): nat
    requires |g| <= |m|
  {
    MinSum(Alphabet, m[..|g|], Unmatched(g, m))
  }

  /**
   * Partial matches under the standard Mastermind rule: the frequency table
   * holds only the master letters at non-exact positions.
   */
  function StandardPartial(g: seq<char>, m: seq<char>): nat
    requires |g| <= |m|
  {
    MinSum(Alphabet, Unmatched(m[..|g|], g), Unmatched(g, m))
  }

  /** The frequency table of `s`: entry k counts the letter Alphabet[k]. */
  function Tally(s: seq<char>): (t: seq<int>)
    ensures |t| == PegLetters
  {
    seq(PegLetters, k requires 0 <= k < PegLetters => Count(s, Alphabet[k]))
  }

  /**
   * The table of master letters `m` after the unmatched guess letters `u`
   * have consumed their entries: entry k is what is left of letter k.
   */
  function Remaining(m: seq<char>, u: seq<char>): (t: seq<int>)
    ensures |t| == PegLetters
  {
    seq(PegLetters, k requires 0 <= k < PegLetters =>
      Count(m, Alphabet[k]) - Min(Count(m, Alphabet[k]), Count(u, Alphabet[k])))
  }

  // ---------------------------------------------------------------------------
  // The alphabet

  lemma AlphabetFacts()
    ensures |Alphabet| == PegLetters && Distinct(Alphabet)
  {
  }

  lemma LetterInAlphabet(c: char)
    requires IsLetter(c)
    ensures 0 <= Index(c) < PegLetters && Alphabet[Index(c)] == c && c in Alphabet
  {
  }

  // ---------------------------------------------------------------------------
  // Exact matches

  /** Exact matches depend only on the first |g| pegs of the master. */
  lemma {:induction false} ExactPrefix(g: seq<char>, m: seq<char>)
    requires |g| <= |m|
    ensures Exact(g, m) == Exact(g, m[..|g|])
    ensures Unmatched(g, m) == Unmatched(g, m[..|g|])
    ensures forall x :: ExactOf(g, m, x) == ExactOf(g, m[..|g|], x)
  {
    if g != [] {
      var n := |g| - 1;
      ExactPrefix(g[..n], m);
      ExactPrefix(g[..n], m[..|g|]);
      assert m[..|g|][..n] == m[..n];
    }
  }

  /** Scoring `a` against `b` gives the same exact count as scoring `b` against `a`. */
  lemma {:induction false} ExactSymmetric(a: seq<char>, b: seq<char>)
    requires |a| == |b|
    ensures Exact(a, b) == Exact(b, a)
    ensures forall x :: ExactOf(a, b, x) == ExactOf(b, a, x)
  {
    if a != [] {
      var n := |a| - 1;
      ExactSymmetric(a[..n], b[..n]);
      ExactPrefix(a[..n], b);
      ExactPrefix(b[..n], a);
    }
  }

  /** All pegs are exact matches exactly when the guess equals the master's prefix. */
  lemma {:induction false} ExactAllIff(g: seq<char>, m: seq<char>)
    requires |g| <= |m|
    ensures Exact(g, m) == |g| <==> g == m[..|g|]
  {
    if g != [] {
      var n := |g| - 1;
      ExactAllIff(g[..n], m);
      if Exact(g, m) == |g| {
        assert g == g[..n] + [g[n]];
      }
    }
  }

  /** Every occurrence of `x` in `g` is either an exact match or one of the unmatched letters. */
  lemma {:induction false} CountSplit(g: seq<char>, m: seq<char>, x: char)
    requires |g| <= |m|
    ensures Count(g, x) == ExactOf(g, m, x) + Count(Unmatched(g, m), x)
  {
    if g != [] {
      var n := |g| - 1;
      CountSplit(g[..n], m, x);
      CountAppend(Unmatched(g[..n], m), if g[n] != m[n] then [g[n]] else [], x);
    }
  }

  lemma {:induction false} CountAppend(s: seq<char>, t: seq<char>, x: char)
    ensures Count(s + t, x) == Count(s, x) + Count(t, x)
  {
    if t != [] {
      var n := |t| - 1;
      assert (s + t)[..|s + t| - 1] == s + t[..n];
      CountAppend(s, t[..n], x);
    } else {
      assert s + t == s;
    }
  }

  // ---------------------------------------------------------------------------
  // Sums over the alphabet

  /** Adding the letter `x` to `b` raises the sum by one exactly when `b` held fewer `x` than `a`. */
  lemma {:induction false} MinSumSnoc(letters: seq<char>, a: seq<char>, b: seq<char>, x: char)
    requires Distinct(letters) && x in letters
    ensures MinSum(letters, a, b + [x])
         == MinSum(letters, a, b) + (if Count(b, x) < Count(a, x) then 1 else 0)
  {
    assert (b + [x])[..|b + [x]| - 1] == b;
    CountSnoc(b, x, letters[0]);
    if letters[0] != x {
      assert x in letters[1..];
      MinSumSnoc(letters[1..], a, b, x);
    } else {
      assert x !in letters[1..];
      MinSumUnchanged(letters[1..], a, b, x);
    }
  }

  /** Counting the master letter at position i bumps its table entry. */
  lemma TallyStep(s: seq<char>, i: nat)
    requires i < |s| && IsLetter(s[i])
    ensures Tally(s[..i + 1]) == Tally(s[..i])[Index(s[i]) := Tally(s[..i])[Index(s[i])] + 1]
  {
    assert s[..i + 1][..i] == s[..i];
  }

  /** Extending the guess by position i adds its letter to the unmatched ones when it differs. */
  lemma UnmatchedStep(g: seq<char>, m: seq<char>, i: nat)
    requires |g| <= |m| && i < |g|
    ensures Unmatched(g[..i + 1], m) == Unmatched(g[..i], m) + (if g[i] != m[i] then [g[i]] else [])
  {
    var h := g[..i + 1];
    assert h[..|h| - 1] == g[..i] && h[|h| - 1] == g[i];
  }

  /** Nothing consumed yet: what is left is the whole table. */
  lemma RemainingEmpty(m: seq<char>)
    ensures Remaining(m, []) == Tally(m)
    ensures MinSum(Alphabet, m, []) == 0
  {
    MinSumEmpty(Alphabet, m);
  }

  /**
   * One unmatched guess letter `c` consumes one entry of its letter when one
   * is left, and that is exactly when the partial count grows by one.
   */
  lemma RemainingSnoc(m: seq<char>, u: seq<char>, c: char)
    requires IsLetter(c)
    ensures Remaining(m, u)[Index(c)] >= 0
    ensures var hit := Remaining(m, u)[Index(c)] > 0;
      Remaining(m, u + [c]) == Remaining(m, u)[Index(c) := Remaining(m, u)[Index(c)] - (if hit then 1 else 0)]
      && MinSum(Alphabet, m, u + [c]) == MinSum(Alphabet, m, u) + (if hit then 1 else 0)
  {
    LetterInAlphabet(c);
    AlphabetFacts();
    MinSumSnoc(Alphabet, m, u, c);
    RemainingTableSnoc(m, u, c);
  }

  /**
   * One pass of the consuming loop at guess position i: a letter that misses
   * its slot and still has an entry left takes that entry and scores one.
   */
  lemma ConsumeStep(m: seq<char>, g: seq<char>, mm: seq<char>, i: nat)
    requires |g| <= |mm| && i < |g| && IsLetter(g[i])
    ensures var u := Unmatched(g[..i], mm);
      var t := Remaining(m, u);
      var hit := g[i] != mm[i] && t[Index(g[i])] > 0;
      Remaining(m, Unmatched(g[..i + 1], mm)) == (if hit then t[Index(g[i]) := t[Index(g[i])] - 1] else t)
      && MinSum(Alphabet, m, Unmatched(g[..i + 1], mm)) == MinSum(Alphabet, m, u) + (if hit then 1 else 0)
  {
    var u := Unmatched(g[..i], mm);
    UnmatchedStep(g, mm, i);
    if g[i] != mm[i] {
      RemainingSnoc(m, u, g[i]);
    } else {
      assert u + [] == u;
    }
  }

  /** Appending `c` to the consumed letters lowers the entry of `c` when `u` held fewer `c` than `m`. */
  lemma RemainingTableSnoc(m: seq<char>, u: seq<char>, c: char)
    requires IsLetter(c)
    ensures var t := Remaining(m, u);
      Remaining(m, u + [c]) == t[Index(c) := t[Index(c)] - (if Count(u, c) < Count(m, c) then 1 else 0)]
  {
    LetterInAlphabet(c);
    var t, t' := Remaining(m, u), Remaining(m, u + [c]);
    var d := if Count(u, c) < Count(m, c) then 1 else 0;
    forall k | 0 <= k < PegLetters
      ensures t'[k] == t[Index(c) := t[Index(c)] - d][k]
    {
      CountSnoc(u, c, Alphabet[k]);
    }
  }

  /** Letters other than `x` are not affected by appending `x`. */
  lemma {:induction false} MinSumUnchanged(letters: seq<char>, a: seq<char>, b: seq<char>, x: char)
    requires x !in letters
    ensures MinSum(letters, a, b + [x]) == MinSum(letters, a, b)
  {
    if letters != [] {
      assert (b + [x])[..|b + [x]| - 1] == b;
      MinSumUnchanged(letters[1..], a, b, x);
    }
  }

  /** Appending `x` adds one to the count of `x` and leaves every other count as it was. */
  lemma CountSnoc(b: seq<char>, x: char, y: char)
    ensures Count(b + [x], y) == Count(b, y) + (if y == x then 1 else 0)
  {
    assert (b + [x])[..|b + [x]| - 1] == b;
  }

  /** Each summand of MinSum is at most the count in `b`. */
  lemma {:induction false} MinSumAtMostSumCount(letters: seq<char>, a: seq<char>, b: seq<char>)
    ensures MinSum(letters, a, b) <= SumCount(letters, b)
  {
    if letters != [] {
      MinSumAtMostSumCount(letters[1..], a, b);
    }
  }

  /** MinSum grows with the counts of its first argument. */
  lemma {:induction false} MinSumMonotone(letters: seq<char>, a1: seq<char>, a2: seq<char>, b: seq<char>)
    requires forall x :: Count(a1, x) <= Count(a2, x)
    ensures MinSum(letters, a1, b) <= MinSum(letters, a2, b)
  {
    if letters != [] {
      MinSumMonotone(letters[1..], a1, a2, b);
    }
  }

  /** MinSum against an empty sequence is zero. */
  lemma {:induction false} MinSumEmpty(letters: seq<char>, a: seq<char>)
    ensures MinSum(letters, a, []) == 0
  {
    if letters != [] {
      MinSumEmpty(letters[1..], a);
    }
  }

  /** When every letter of `s` is among the distinct `letters`, their counts add up to |s|. */
  lemma {:induction false} SumCountAll(letters: seq<char>, s: seq<char>)
    requires Distinct(letters)
    requires forall i :: 0 <= i < |s| ==> s[i] in letters
    ensures SumCount(letters, s) == |s|
  {
    if s != [] {
      var n := |s| - 1;
      assert forall i :: 0 <= i < n ==> s[..n][i] == s[i];
      SumCountAll(letters, s[..n]);
      SumCountSnoc(letters, s[..n], s[n]);
      assert s[..n] + [s[n]] == s;
    } else {
      SumCountEmpty(letters);
    }
  }

  lemma {:induction false} SumCountEmpty(letters: seq<char>)
    ensures SumCount(letters, []) == 0
  {
    if letters != [] {
      SumCountEmpty(letters[1..]);
    }
  }

  lemma {:induction false} SumCountSnoc(letters: seq<char>, s: seq<char>, x: char)
    requires Distinct(letters)
    ensures SumCount(letters, s + [x]) == SumCount(letters, s) + (if x in letters then 1 else 0)
  {
    if letters != [] {
      assert (s + [x])[..|s + [x]| - 1] == s;
      SumCountSnoc(letters[1..], s, x);
    }
  }

  // ---------------------------------------------------------------------------
  // Properties of the scoring in PegArray

  /**
   * A partial match is counted only where the letters differ, so exact and
   * partial matches together never exceed the number of pegs.
   */
  lemma ExactPlusPartialBound(g: seq<char>, m: seq<char>)
    requires |g| <= |m| && IsCode(g)
    ensures Exact(g, m) + Partial(g, m) <= |g|
  {
    var u := Unmatched(g, m);
    AlphabetFacts();
    forall i | 0 <= i < |u| ensures u[i] in Alphabet {
      LetterInAlphabet(u[i]);
    }
    MinSumAtMostSumCount(Alphabet, m[..|g|], u);
    SumCountAll(Alphabet, u);
  }

  /** The partial matches credited to a letter never exceed its occurrences in the master. */
  lemma PartialOfBound(g: seq<char>, m: seq<char>, x: char)
    requires |g| <= |m|
    ensures PartialOf(g, m, x) <= Count(m[..|g|], x)
    ensures PartialOf(g, m, x) <= Count(g, x) - ExactOf(g, m, x)
  {
    CountSplit(g, m, x);
  }

  /** Scoring a code against itself: every peg is exact and none is partial. */
  lemma {:induction false} SelfScore(g: seq<char>)
    ensures Exact(g, g) == |g| && Partial(g, g) == 0
  {
    ExactAllIff(g, g);
    assert Unmatched(g, g) == [] by {
      assert |Unmatched(g, g)| + Exact(g, g) == |g|;
    }
    MinSumEmpty(Alphabet, g[..|g|]);
  }

  /**
   * Under the standard rule each letter contributes, across exact and
   * partial matches, the smaller of its counts in guess and master.
   */
  lemma StandardLetterTotal(g: seq<char>, m: seq<char>, x: char)
    requires |g| == |m|
    ensures ExactOf(g, m, x) + Min(Count(Unmatched(m, g), x), Count(Unmatched(g, m), x))
         == Min(Count(g, x), Count(m, x))
  {
    CountSplit(g, m, x);
    CountSplit(m, g, x);
    ExactSymmetric(g, m);
  }

  /** `getPartialMatches` never reports fewer partial matches than the standard rule. */
  lemma StandardAtMostPartial(g: seq<char>, m: seq<char>)
    requires |g| <= |m|
    ensures StandardPartial(g, m) <= Partial(g, m)
  {
    var mp := m[..|g|];
    forall x ensures Count(Unmatched(mp, g), x) <= Count(mp, x) {
      CountSplit(mp, g, x);
    }
    MinSumMonotone(Alphabet, Unmatched(mp, g), mp, Unmatched(g, m));
  }

  // ---------------------------------------------------------------------------
  // Worked examples

  /**
   * The example of MasterMind's class comment: master ABDC, guess DBBF.
   * The comment promises one exact and one partial match, and the standard
   * rule gives that, but the table of `getPartialMatches` also holds the master's B that
   * the guess already matched exactly, so the second B of the guess takes it
   * and `getPartialMatches` reports two partial matches. Per letter, B then
   * contributes two matches although the master holds only one B.
   */
  lemma DocExampleAsWritten()
    ensures Exact("DBBF", "ABDC") == 1
    ensures Partial("DBBF", "ABDC") == 2
    ensures StandardPartial("DBBF", "ABDC") == 1
    ensures ExactOf("DBBF", "ABDC", 'B') + PartialOf("DBBF", "ABDC", 'B') == 2
    ensures Min(Count("DBBF", 'B'), Count("ABDC", 'B')) == 1
  {
    var g, m := "DBBF", "ABDC";
    DocGuessExact();
    DocGuessUnmatched();
    DocMasterUnmatched();
    assert m[..|g|] == m;
    MinSumAlphabet(m, "DBF");
    MinSumAlphabet("ADC", "DBF");
    CountExamples();
  }

  /** The prefixes of the guess DBBF. */
  lemma DocGuessPrefixes()
    ensures "DBBF"[..3] == "DBB" && "DBB"[..2] == "DB" && "DB"[..1] == "D" && "D"[..0] == []
  {
  }

  /** Exact matches of DBBF against ABDC: only the B in slot 1. */
  lemma DocGuessExact()
    ensures Exact("DBBF", "ABDC") == 1
    ensures ExactOf("DBBF", "ABDC", 'B') == 1
  {
    var m := "ABDC";
    DocGuessPrefixes();
    assert Exact("D", m) == 0 && Exact("DB", m) == 1 && Exact("DBB", m) == 1;
    assert ExactOf("D", m, 'B') == 0 && ExactOf("DB", m, 'B') == 1 && ExactOf("DBB", m, 'B') == 1;
  }

  /** The guess letters of DBBF left unmatched by ABDC. */
  lemma DocGuessUnmatched()
    ensures Unmatched("DBBF", "ABDC") == "DBF"
  {
    var m := "ABDC";
    DocGuessPrefixes();
    assert Unmatched("D", m) == "D";
    assert Unmatched("DB", m) == "D";
    assert Unmatched("DBB", m) == "DB";
  }

  /** The master letters of ABDC left unmatched by DBBF. */
  lemma DocMasterUnmatched()
    ensures Unmatched("ABDC", "DBBF") == "ADC"
  {
    var g := "DBBF";
    assert "ABDC"[..3] == "ABD" && "ABD"[..2] == "AB" && "AB"[..1] == "A" && "A"[..0] == [];
    assert Unmatched("AB", g) == "A";
    assert Unmatched("ABD", g) == "AD";
  }

  /** MinSum over the alphabet, written out letter by letter. */
  lemma MinSumAlphabet(a: seq<char>, b: seq<char>)
    ensures MinSum(Alphabet, a, b)
         == Min(Count(a, 'A'), Count(b, 'A')) + Min(Count(a, 'B'), Count(b, 'B'))
          + Min(Count(a, 'C'), Count(b, 'C')) + Min(Count(a, 'D'), Count(b, 'D'))
          + Min(Count(a, 'E'), Count(b, 'E')) + Min(Count(a, 'F'), Count(b, 'F'))
  {
    assert Alphabet[1..] == "BCDEF" && "BCDEF"[1..] == "CDEF" && "CDEF"[1..] == "DEF";
    assert "DEF"[1..] == "EF" && "EF"[1..] == "F" && "F"[1..] == [];
    assert MinSum("F", a, b) == Min(Count(a, 'F'), Count(b, 'F'));
    assert MinSum("EF", a, b) == Min(Count(a, 'E'), Count(b, 'E')) + MinSum("F", a, b);
    assert MinSum("DEF", a, b) == Min(Count(a, 'D'), Count(b, 'D')) + MinSum("EF", a, b);
    assert MinSum("CDEF", a, b) == Min(Count(a, 'C'), Count(b, 'C')) + MinSum("DEF", a, b);
    assert MinSum("BCDEF", a, b) == Min(Count(a, 'B'), Count(b, 'B')) + MinSum("CDEF", a, b);
  }

  lemma CountExamples()
    ensures Count("DBBF", 'B') == 2
    ensures Count("ABDC", 'A') == 1 && Count("ABDC", 'B') == 1 && Count("ABDC", 'C') == 1
    ensures Count("ABDC", 'D') == 1 && Count("ABDC", 'E') == 0 && Count("ABDC", 'F') == 0
    ensures Count("DBF", 'A') == 0 && Count("DBF", 'B') == 1 && Count("DBF", 'C') == 0
    ensures Count("DBF", 'D') == 1 && Count("DBF", 'E') == 0 && Count("DBF", 'F') == 1
    ensures Count("ADC", 'A') == 1 && Count("ADC", 'B') == 0 && Count("ADC", 'C') == 1
    ensures Count("ADC", 'D') == 1 && Count("ADC", 'E') == 0 && Count("ADC", 'F') == 0
  {
    assert "DBBF"[..3] == "DBB" && "DBB"[..2] == "DB" && "DB"[..1] == "D" && "D"[..0] == [];
    assert "ABDC"[..3] == "ABD" && "ABD"[..2] == "AB" && "AB"[..1] == "A" && "A"[..0] == [];
    assert "DBF"[..2] == "DB";
    assert "ADC"[..2] == "AD" && "AD"[..1] == "A";
  }

  /**
   * Two repeated-letter cases where `getPartialMatches` agrees with the standard rule:
   * every letter present but displaced (master AABB, guess BBAA), and a
   * letter matched exactly that must not be counted again (master AAAA,
   * guess ABBB).
   */
  lemma DisplacedExample()
    ensures Exact("BBAA", "AABB") == 0 && Partial("BBAA", "AABB") == 4
    ensures StandardPartial("BBAA", "AABB") == 4
  {
    DisplacedUnmatched();
    DisplacedMasterUnmatched();
    assert "AABB"[..4] == "AABB";
    MinSumAlphabet("AABB", "BBAA");
    DisplacedCounts();
  }

  lemma DisplacedPrefixes()
    ensures "BBAA"[..3] == "BBA" && "BBA"[..2] == "BB" && "BB"[..1] == "B" && "B"[..0] == []
    ensures "AABB"[..3] == "AAB" && "AAB"[..2] == "AA" && "AA"[..1] == "A" && "A"[..0] == []
  {
  }

  lemma DisplacedUnmatched()
    ensures Exact("BBAA", "AABB") == 0 && Unmatched("BBAA", "AABB") == "BBAA"
  {
    DisplacedPrefixes();
    assert Unmatched("B", "AABB") == "B";
    assert Unmatched("BB", "AABB") == "BB";
    assert Unmatched("BBA", "AABB") == "BBA";
  }

  lemma DisplacedMasterUnmatched()
    ensures Unmatched("AABB", "BBAA") == "AABB"
  {
    DisplacedPrefixes();
    assert Unmatched("A", "BBAA") == "A";
    assert Unmatched("AA", "BBAA") == "AA";
    assert Unmatched("AAB", "BBAA") == "AAB";
  }

  lemma DisplacedCounts()
    ensures Count("AABB", 'A') == 2 && Count("AABB", 'B') == 2
    ensures Count("BBAA", 'A') == 2 && Count("BBAA", 'B') == 2
    ensures Count("BBAA", 'C') == 0 && Count("BBAA", 'D') == 0
    ensures Count("BBAA", 'E') == 0 && Count("BBAA", 'F') == 0
  {
    DisplacedPrefixes();
  }

  lemma MatchedOnceExample()
    ensures Exact("ABBB", "AAAA") == 1 && Partial("ABBB", "AAAA") == 0
    ensures StandardPartial("ABBB", "AAAA") == 0
  {
    StandardAtMostPartial("ABBB", "AAAA");
    MatchedOnceUnmatched();
    assert "AAAA"[..4] == "AAAA";
    MinSumAlphabet("AAAA", "BBB");
    MatchedOnceCounts();
  }

  lemma MatchedOnceUnmatched()
    ensures Exact("ABBB", "AAAA") == 1 && Unmatched("ABBB", "AAAA") == "BBB"
  {
    assert "ABBB"[..3] == "ABB" && "ABB"[..2] == "AB" && "AB"[..1] == "A" && "A"[..0] == [];
    assert Unmatched("AB", "AAAA") == "B" && Unmatched("ABB", "AAAA") == "BB";
  }

  lemma MatchedOnceCounts()
    ensures Count("BBB", 'A') == 0 && Count("BBB", 'C') == 0 && Count("BBB", 'D') == 0
    ensures Count("BBB", 'E') == 0 && Count("BBB", 'F') == 0 && Count("AAAA", 'B') == 0
  {
    assert "BBB"[..2] == "BB" && "BB"[..1] == "B" && "B"[..0] == [];
    assert "AAAA"[..3] == "AAA" && "AAA"[..2] == "AA" && "AA"[..1] == "A" && "A"[..0] == [];
  }
}
