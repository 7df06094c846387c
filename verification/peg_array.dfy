/**
 * One row of pegs of the game (class PegArray): the master code or one
 * guess. Scoring against the master stores its results in the fields
 * exactMatches and partialMatches, which the accessors GetExact and
 * GetPartial hand back.
 */
module Pegs {
  import opened Scoring

  class PegArray {
    /** The pegs, each represented by its letter. */
    const pegs: array<char>
    const pegnumber: int

    /** Results of the most recent scoring against a master. */
    var exactMatches: int
    var partialMatches: int

    ghost predicate Valid()
    {
      pegnumber == pegs.Length
    }

    /** A row of `numPegs` pegs, all blank. */
    constructor (numPegs: nat)
      ensures Valid() && pegnumber == numPegs && fresh(pegs)
      ensures forall k :: 0 <= k < numPegs ==> pegs[k] == Blank
      ensures exactMatches == 0 && partialMatches == 0
    {
      pegnumber := numPegs;
      pegs := new char[numPegs];
      exactMatches, partialMatches := 0, 0;
      new;
      for i := 0 to numPegs
        modifies pegs
        invariant forall k :: 0 <= k < i ==> pegs[k] == Blank
      {
        pegs[i] := Blank;
      }
    }

    method GetPeg(n: int) returns (p: char)
      requires 0 <= n < pegs.Length
      ensures p == pegs[n]
    {
      p := pegs[n];
    }

    /** Puts `p` into slot `ind`; every other slot keeps its peg. */
    method SetPeg(ind: int, p: char)
      requires 0 <= ind < pegs.Length
      modifies pegs
      ensures pegs[ind] == p
      ensures forall k :: 0 <= k < pegs.Length && k != ind ==> pegs[k] == old(pegs[k])
    {
      pegs[ind] := p;
    }

    /** Stores in exactMatches the number of slots holding the same letter as the master's. */
    method GetExactMatches(master: PegArray)
      requires Valid() && master.Valid() && pegnumber <= master.pegnumber
      modifies this`exactMatches
      ensures exactMatches == Exact(pegs[..], master.pegs[..])
      ensures 0 <= exactMatches <= pegnumber
    {
      var count := 0;
      for i := 0 to pegnumber
        invariant count == Exact(pegs[..i], master.pegs[..])
      {
        assert pegs[..i + 1][..i] == pegs[..i];
        if pegs[i] == master.pegs[i] {
          count := count + 1;
        }
      }
      assert pegs[..pegnumber] == pegs[..];
      exactMatches := count;
    }

    /**
     * The first half of getPartialMatches: a fresh table of six entries,
     * zeroed, then bumped once for the letter of each of the master's first
     * pegnumber slots.
     */
    method TallyMaster(master: PegArray) returns (freq2: array<int>)
      requires Valid() && master.Valid() && pegnumber <= master.pegnumber
      requires IsCode(master.pegs[..pegnumber])
      ensures fresh(freq2) && freq2[..] == Tally(master.pegs[..pegnumber])
    {
      freq2 := new int[PegLetters];
      for i := 0 to PegLetters
        modifies freq2
        invariant forall k :: 0 <= k < i ==> freq2[k] == 0
      {
        freq2[i] := 0;
      }
      ghost var m := master.pegs[..pegnumber];
      assert freq2[..] == Tally(m[..0]);
      for i := 0 to pegnumber
        modifies freq2
        invariant freq2[..] == Tally(m[..i])
      {
        var c := master.pegs[i];
        assert c == m[i] && IsLetter(c);
        TallyStep(m, i);
        freq2[Index(c)] := freq2[Index(c)] + 1;
      }
      assert m[..pegnumber] == m;
    }

    /**
     * Stores in partialMatches the number of partial matches with the
     * master: a table counts every letter of the master, and each slot whose
     * letter differs from the master's takes one entry of its letter while
     * one is left.
     */
    method GetPartialMatches(master: PegArray)
      requires Valid() && master.Valid() && pegnumber <= master.pegnumber
      requires IsCode(pegs[..]) && IsCode(master.pegs[..pegnumber])
      modifies this`partialMatches
      ensures partialMatches == Partial(pegs[..], master.pegs[..])
    {
      var count := 0;
      var freq2 := TallyMaster(master);
      ghost var g, mm := pegs[..], master.pegs[..];
      ghost var m := mm[..pegnumber];
      assert g[..0] == [];
      RemainingEmpty(m);
      for i := 0 to pegnumber
        modifies freq2
        invariant freq2[..] == Remaining(m, Unmatched(g[..i], mm))
        invariant count == MinSum(Alphabet, m, Unmatched(g[..i], mm))
      {
        var c := pegs[i];
        ConsumeStep(m, g, mm, i);
        if c != master.pegs[i] && freq2[Index(c)] > 0 {
          count := count + 1;
          freq2[Index(c)] := freq2[Index(c)] - 1;
        }
      }
      assert g[..pegnumber] == g;
      assert mm[..|g|] == m;
      partialMatches := count;
    }

    /** The exact count stored by the most recent GetExactMatches. */
    method GetExact() returns (r: int)
      ensures r == exactMatches
    {
      r := exactMatches;
    }

    /** The partial count stored by the most recent GetPartialMatches. */
    method GetPartial() returns (r: int)
      ensures r == partialMatches
    {
      r := partialMatches;
    }
  }
}
