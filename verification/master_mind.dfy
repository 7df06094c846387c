/**
 * The game of MasterMind (class MasterMind) without its console output:
 * the master code, ten rows of guesses, the turn counter and the won/lost
 * flags, the check applied to a typed guess, and the turn loop.
 *
 * The typed lines and the dice rolls reach the model as parameters.
 */
module Game {
  import opened Scoring
  import opened Pegs

  /** Number of pegs in a code. */
  const PegsInCode: nat := 4
  /** Number of guesses the player has. */
  const MaxGuesses: nat := 10

  /** The row a freshly built PegArray holds. */
  const BlankRow: seq<char> := [Blank, Blank, Blank, Blank]

  // ---------------------------------------------------------------------------
  // Checking a typed guess

  /** Lower-case mapping of a character (ASCII letters only). */
  function ToLower(c: char): char
  {
    if 'A' <= c <= 'Z' then (c as int + 32) as char else c
  }

  /** Upper-case mapping of a character (ASCII letters only). */
  function ToUpper(c: char): char
  {
    if 'a' <= c <= 'z' then (c as int - 32) as char else c
  }

  function UpperCase(s: string): (r: string)
  {
    seq(|s|, i requires 0 <= i < |s| => ToUpper(s[i]))
  }

  /** A typed guess is accepted: four characters, each 'a'..'f' once lower-cased. */
  predicate ValidGuess(s: string)
  {
    |s| == PegsInCode && forall i :: 0 <= i < PegsInCode ==> 'a' <= ToLower(s[i]) <= 'f'
  }

  /**
   * One round of the input check: `found` tells whether `s` is accepted and
   * `upper` is the upper-cased line that the game stores.
   */
  method CheckInput(s: string) returns (found: bool, upper: string)
    ensures found <==> |s| == PegsInCode && IsCode(UpperCase(s))
    ensures found == ValidGuess(s)
    ensures upper == UpperCase(s)
  {
    found := true;
    if |s| != PegsInCode {
      found := false;
    } else {
      for i := 0 to PegsInCode
        invariant found <==> forall k :: 0 <= k < i ==> 'a' <= ToLower(s[k]) <= 'f'
      {
        var ch := ToLower(s[i]);
        if ch < 'a' || ch > 'f' {
          found := false;
        }
      }
    }
    upper := UpperCase(s);
    ValidGuessIff(s);
  }

  /** A line is accepted exactly when it is four characters whose upper-case forms are peg letters. */
  lemma ValidGuessIff(s: string)
    ensures ValidGuess(s) <==> |s| == PegsInCode && IsCode(UpperCase(s))
  {
    if |s| == PegsInCode {
      forall i | 0 <= i < PegsInCode
        ensures ('a' <= ToLower(s[i]) <= 'f') <==> IsLetter(UpperCase(s)[i])
      {
      }
    }
  }

  /** The guesses the game stores from a sequence of typed lines: the accepted ones, upper-cased, in order. */
  function Accepted(inputs: seq<string>): (r: seq<string>)
    ensures |r| <= |inputs|
    ensures forall k :: 0 <= k < |r| ==> |r[k]| == PegsInCode && IsCode(r[k])
  {
    if inputs == [] then []
    else
      var last := inputs[|inputs| - 1];
      ValidGuessIff(last);
      Accepted(inputs[..|inputs| - 1]) + (if ValidGuess(last) then [UpperCase(last)] else [])
  }

  /** One more typed line extends the accepted guesses by that line when it is accepted. */
  lemma AcceptedStep(inputs: seq<string>, n: nat)
    requires n < |inputs|
    ensures Accepted(inputs[..n + 1]) ==
      Accepted(inputs[..n]) + (if ValidGuess(inputs[n]) then [UpperCase(inputs[n])] else [])
  {
    assert inputs[..n + 1][..n] == inputs[..n];
  }

  /** The master code built from four dice rolls, each 1..6 standing for 'A'..'F'. */
  function MasterCode(rolls: seq<int>): (code: seq<char>)
    requires forall i :: 0 <= i < |rolls| ==> 1 <= rolls[i] <= PegLetters
    ensures |code| == |rolls| && IsCode(code)
  {
    seq(|rolls|, i requires 0 <= i < |rolls| => (rolls[i] + 64) as char)
  }

  // ---------------------------------------------------------------------------
  // The game

  /** The scores a row holds once it has been scored against the master. */
  function Score(row: seq<char>, code: seq<char>): (int, int)
    requires |row| <= |code|
  {
    (Exact(row, code), Partial(row, code))
  }

  /** Whether a row is scored when the board is printed: its first peg is a letter. */
  predicate Scorable(row: seq<char>, code: seq<char>)
  {
    0 < |row| <= |code| && IsLetter(row[0])
  }

  /**
   * The scores after the board is scored against `code`: a row whose first
   * peg is a letter gets its score, every other row keeps the one it had.
   */
  function Rescore(rows: seq<seq<char>>, before: seq<(int, int)>, code: seq<char>): (after: seq<(int, int)>)
    requires |before| == |rows|
    ensures |after| == |rows|
  {
    seq(|rows|, k requires 0 <= k < |rows| =>
      if Scorable(rows[k], code) then Score(rows[k], code) else before[k])
  }

  /** The scores of a fresh board. */
  const NoScores: seq<(int, int)> := [(0, 0), (0, 0), (0, 0), (0, 0), (0, 0), (0, 0), (0, 0), (0, 0), (0, 0), (0, 0)]

  /** A snapshot of the game: row pegs, row scores, master code, turn and the two flags. */
  datatype Board = Board(rows: seq<seq<char>>, scores: seq<(int, int)>, code: seq<char>,
                         turn: int, won: bool, lost: bool)

  /**
   * What the turn loop keeps true: the rows before the current turn hold
   * the guesses made, the later rows are blank, every row holds its score
   * against the code, the game is won exactly when the latest guess is the
   * code (and no earlier one was), and lost exactly when the turn counter
   * has passed the last guess.
   */
  ghost predicate Consistent(b: Board)
  {
    match b
    case Board(rows, scores, code, turn, won, lost) =>
      |rows| == MaxGuesses && |code| == PegsInCode &&
      1 <= turn <= MaxGuesses + 1 &&
      (lost <==> turn > MaxGuesses) &&
      (turn > 1 ==> IsCode(code)) &&
      (forall k :: 0 <= k < turn - 1 ==> |rows[k]| == PegsInCode && IsCode(rows[k])) &&
      (forall k :: turn - 1 <= k < MaxGuesses ==> rows[k] == BlankRow) &&
      scores == Rescore(rows, NoScores, code) &&
      (forall k :: 0 <= k < turn - 2 ==> rows[k] != code) &&
      (won <==> turn >= 2 && rows[turn - 2] == code)
  }

  /** In a consistent board every row has four pegs, and every row other than the current one that starts with a letter is a full code. */
  lemma ConsistentScorable(b: Board)
    requires Consistent(b) && !b.lost
    ensures forall k :: 0 <= k < MaxGuesses && k != b.turn - 1 ==>
      |b.rows[k]| == PegsInCode && (IsLetter(b.rows[k][0]) ==> IsCode(b.rows[k]))
  {
  }

  /**
   * One accepted guess `g` in a game still in play: stored in row turn - 1
   * and the board rescored, the game stays consistent at the next turn, is
   * won exactly when `g` is the master code, and is lost exactly when the
   * turn passes the last guess.
   */
  lemma AcceptKeepsConsistent(b: Board, g: seq<char>, next: Board)
    requires Consistent(b) && !b.won && !b.lost
    requires |g| == PegsInCode && IsCode(g) && IsCode(b.code)
    requires next.rows == b.rows[b.turn - 1 := g] && next.code == b.code && next.turn == b.turn + 1
    requires next.lost == (next.turn > MaxGuesses)
    requires |b.scores| == MaxGuesses && next.scores == Rescore(next.rows, b.scores, b.code)
    requires next.won == (exists k :: 0 <= k < MaxGuesses && next.scores[k].0 == PegsInCode)
    ensures Consistent(next) && (next.won <==> g == b.code)
    ensures next.rows[..next.turn - 1] == b.rows[..b.turn - 1] + [g]
  {
    RescoreAfterStore(b.rows, next.rows, b.code, b.turn - 1);
    WonAfterStore(next.rows, next.scores, b.code, b.turn - 1);
    assert next.rows[..b.turn] == b.rows[..b.turn - 1] + [g];
  }

  /**
   * Rescoring a board in which only row t changed, to a full code, gives
   * every row its own score, as scoring a blank board would.
   */
  lemma RescoreAfterStore(rows: seq<seq<char>>, rows': seq<seq<char>>, code: seq<char>, t: int)
    requires |rows| == |rows'| == MaxGuesses && 0 <= t < MaxGuesses
    requires forall k :: 0 <= k < MaxGuesses && k != t ==> rows'[k] == rows[k]
    requires Scorable(rows'[t], code)
    ensures Rescore(rows', Rescore(rows, NoScores, code), code) == Rescore(rows', NoScores, code)
  {
    var r1, r2 := Rescore(rows', Rescore(rows, NoScores, code), code), Rescore(rows', NoScores, code);
    forall k | 0 <= k < MaxGuesses
      ensures r1[k] == r2[k]
    {
    }
  }

  /**
   * When rows t + 1 onwards are blank and no row before t is the code, some
   * row of the scored board has four exact matches exactly when row t is
   * the code.
   */
  lemma WonAfterStore(rows: seq<seq<char>>, scores: seq<(int, int)>, code: seq<char>, t: int)
    requires |rows| == MaxGuesses && |code| == PegsInCode && IsCode(code) && 0 <= t < MaxGuesses
    requires forall k :: 0 <= k <= t ==> |rows[k]| == PegsInCode && IsCode(rows[k])
    requires forall k :: t < k < MaxGuesses ==> rows[k] == BlankRow
    requires forall k :: 0 <= k < t ==> rows[k] != code
    requires scores == Rescore(rows, NoScores, code)
    ensures (exists k :: 0 <= k < MaxGuesses && scores[k].0 == PegsInCode) <==> rows[t] == code
  {
    if k :| 0 <= k < MaxGuesses && scores[k].0 == PegsInCode {
      if k < t {
        ExactAllIff(rows[k], code);
        assert false;
      } else if k == t {
        ExactAllIff(rows[t], code);
      }
    }
    if rows[t] == code {
      ExactAllIff(rows[t], code);
      assert scores[t].0 == PegsInCode;
    }
  }

  /** How a consistent game that has stopped ended: a win on the last stored guess, or ten wrong guesses. */
  lemma ConsistentOutcome(b: Board)
    requires Consistent(b) && (b.won || b.lost)
    ensures var played := b.rows[..b.turn - 1];
      (b.won ==> |played| >= 1 && played[|played| - 1] == b.code) &&
      (b.lost && !b.won ==> |played| == MaxGuesses && forall k :: 0 <= k < MaxGuesses ==> played[k] != b.code)
  {
  }

  /**
   * What a finished game reports about the guesses `played`: the rows hold
   * them in order and the rest stay blank with no score, each played row
   * holds its score against the code, the game is won exactly when some
   * guess is the code, in which case it is the last one and the turn counter
   * equals the number of guesses, otherwise the turn is one past them, and
   * it is lost exactly when ten guesses were played.
   */
  ghost predicate Outcome(played: seq<seq<char>>, b: Board)
  {
    match b
    case Board(rows, scores, code, turn, won, lost) =>
      |played| <= MaxGuesses && |rows| == MaxGuesses && |scores| == MaxGuesses &&
      rows[..|played|] == played &&
      (won <==> exists k :: 0 <= k < |played| && played[k] == code) &&
      (forall k :: 0 <= k < |played| - 1 ==> played[k] != code) &&
      (won ==> 1 <= turn == |played| && played[|played| - 1] == code) &&
      (!won ==> turn == |played| + 1) &&
      (lost <==> |played| == MaxGuesses) &&
      (forall k :: 0 <= k < |played| ==> |played[k]| <= |code| && scores[k] == Score(played[k], code)) &&
      (forall k :: |played| <= k < MaxGuesses ==> rows[k] == BlankRow && scores[k] == (0, 0))
  }

  /**
   * The board the game reports once the turn loop ends: on a win the turn
   * counter is stepped back to the number of guesses used. The guesses
   * played are the rows before the turn of `b`.
   */
  lemma FinalBoard(b: Board, final: Board)
    requires Consistent(b)
    requires final == b.(turn := if b.won then b.turn - 1 else b.turn)
    ensures Outcome(b.rows[..b.turn - 1], final)
  {
    forall k | 0 <= k < b.turn - 1
      ensures Scorable(b.rows[k], b.code)
    {
    }
    if b.won || b.lost {
      ConsistentOutcome(b);
    }
  }

  /** A fresh game: blank rows, no scores, at turn 1, neither won nor lost, whatever the code. */
  lemma InitialConsistent(rows: seq<seq<char>>, code: seq<char>)
    requires |rows| == MaxGuesses && forall k :: 0 <= k < MaxGuesses ==> rows[k] == BlankRow
    requires |code| == PegsInCode
    ensures Consistent(Board(rows, NoScores, code, 1, false, false))
  {
    forall k | 0 <= k < MaxGuesses
      ensures Rescore(rows, NoScores, code)[k] == NoScores[k]
    {
      assert !IsLetter(rows[k][0]);
    }
  }

  /** `n` new blank rows of four pegs, no two sharing an object; `objs` holds the rows and their peg arrays. */
  method NewRows(n: nat) returns (made: seq<PegArray>, ghost objs: set<object>)
    ensures |made| == n && fresh(objs)
    ensures forall k :: 0 <= k < n ==>
      made[k] in objs && made[k].pegs in objs &&
      made[k].Valid() && made[k].pegnumber == PegsInCode && made[k].pegs[..] == BlankRow &&
      made[k].exactMatches == 0 && made[k].partialMatches == 0
    ensures forall j, k :: 0 <= j < k < n ==> made[j] != made[k] && made[j].pegs != made[k].pegs
  {
    made, objs := [], {};
    for i := 0 to n
      invariant |made| == i && fresh(objs)
      invariant forall k :: 0 <= k < i ==>
        made[k] in objs && made[k].pegs in objs &&
        made[k].Valid() && made[k].pegnumber == PegsInCode && made[k].pegs[..] == BlankRow &&
        made[k].exactMatches == 0 && made[k].partialMatches == 0
      invariant forall j, k :: 0 <= j < k < i ==> made[j] != made[k] && made[j].pegs != made[k].pegs
    {
      var row := new PegArray(PegsInCode);
      assert row.pegs[..] == BlankRow;
      made, objs := made + [row], objs + {row, row.pegs};
    }
  }

  class MasterMind {
    /** The guess rows, row t holding the guess of turn t + 1. */
    const guesses: array<PegArray>
    /** The master (key) code. */
    const master: PegArray

    var inputStr: string
    var gameLost: bool
    var gameWon: bool
    /** The turn being played, from 1. */
    var turn: int

    /** The pegs of each guess row. */
    ghost var rows: seq<seq<char>>
    /** The (exact, partial) counts each guess row holds. */
    ghost var scores: seq<(int, int)>

    /** The objects the game owns: the master, the guess rows and their peg arrays. */
    ghost const Repr: set<object>

    /** The shape of the board: ten rows of four pegs, no two sharing an object. */
    ghost predicate Valid()
      reads guesses
    {
      guesses.Length == MaxGuesses &&
      master.Valid() && master.pegnumber == PegsInCode &&
      master in Repr && master.pegs in Repr && guesses !in Repr && this !in Repr &&
      (forall k :: 0 <= k < MaxGuesses ==>
        guesses[k].Valid() && guesses[k].pegnumber == PegsInCode &&
        guesses[k] != master && guesses[k].pegs != master.pegs &&
        guesses[k] in Repr && guesses[k].pegs in Repr) &&
      (forall j, k :: 0 <= j < k < MaxGuesses ==>
        guesses[j] != guesses[k] && guesses[j].pegs != guesses[k].pegs)
    }

    /** The ghost view `rows` and `scores` is what the guess rows hold. */
    ghost predicate Coupled()
      requires Valid()
      reads this`rows, this`scores, guesses, Repr
    {
      |rows| == MaxGuesses && |scores| == MaxGuesses &&
      forall k :: 0 <= k < MaxGuesses ==>
        rows[k] == guesses[k].pegs[..] &&
        scores[k] == (guesses[k].exactMatches, guesses[k].partialMatches)
    }

    /** The master's pegs. */
    ghost function Master(): seq<char>
      reads master.pegs
    {
      master.pegs[..]
    }

    /** The game as a value. */
    ghost function State(): Board
      reads this`rows, this`scores, this`turn, this`gameWon, this`gameLost, master.pegs
    {
      Board(rows, scores, Master(), turn, gameWon, gameLost)
    }

    ghost predicate Invariant()
      reads this`rows, this`scores, this`turn, this`gameWon, this`gameLost, master.pegs
    {
      Consistent(State())
    }

    /** The guesses stored so far, in order. */
    ghost function History(): seq<seq<char>>
      requires |rows| == MaxGuesses && 1 <= turn <= MaxGuesses + 1
      reads this`rows, this`turn
    {
      rows[..turn - 1]
    }

    /** A game with a blank master and ten blank rows, at turn 1. */
    constructor ()
      ensures Valid() && Coupled() && fresh(Repr)
      ensures turn == 1 && !gameWon && !gameLost && inputStr == ""
      ensures Master() == BlankRow && scores == NoScores
      ensures |rows| == MaxGuesses && forall k :: 0 <= k < MaxGuesses ==> rows[k] == BlankRow
    {
      var m := new PegArray(PegsInCode);
      assert m.pegs[..] == BlankRow;
      var made, objs := NewRows(MaxGuesses);
      master := m;
      guesses := new PegArray[MaxGuesses](k requires 0 <= k < MaxGuesses => made[k]);
      Repr := {m, m.pegs} + objs;
      rows := seq(MaxGuesses, k => BlankRow);
      scores := NoScores;
      inputStr := "";
      gameLost, gameWon := false, false;
      turn := 1;
    }

    /**
     * Sets the master code from four dice rolls, roll r giving the letter
     * with code r + 64. The guess rows are not touched.
     */
    method GenMasterCode(rolls: seq<int>)
      requires Valid() && Coupled()
      requires |rolls| == PegsInCode && forall i :: 0 <= i < |rolls| ==> 1 <= rolls[i] <= PegLetters
      modifies master.pegs
      ensures Coupled() && Master() == MasterCode(rolls)
    {
      for i := 0 to PegsInCode
        invariant forall k :: 0 <= k < i ==> master.pegs[k] == MasterCode(rolls)[k]
        invariant Coupled()
      {
        master.SetPeg(i, (rolls[i] + 64) as char);
      }
    }

    /** Copies the four letters of the stored input into row turn - 1. */
    method PlayTurn()
      requires Valid() && Coupled() && 1 <= turn <= MaxGuesses && |inputStr| >= PegsInCode
      modifies this`rows, guesses[turn - 1].pegs
      ensures Coupled() && Master() == old(Master())
      ensures rows == old(rows)[turn - 1 := inputStr[..PegsInCode]]
    {
      var row := guesses[turn - 1];
      for i := 0 to PegsInCode
        modifies row.pegs
        invariant forall k :: 0 <= k < i ==> row.pegs[k] == inputStr[k]
      {
        row.SetPeg(i, inputStr[i]);
      }
      assert row.pegs[..] == inputStr[..PegsInCode];
      rows := rows[turn - 1 := inputStr[..PegsInCode]];
    }

    /**
     * The scoring part of printing row t: a row whose first peg is a letter
     * is scored against the master, and a row holding four exact matches
     * wins the game.
     */
    method ScoreRow(t: int)
      requires Valid() && Coupled() && 0 <= t < MaxGuesses
      requires IsLetter(rows[t][0]) ==> IsCode(rows[t]) && IsCode(Master())
      modifies this`gameWon, this`scores, guesses[t]
      ensures Coupled()
      ensures scores == old(scores)[t := if IsLetter(rows[t][0]) then Score(rows[t], Master()) else old(scores[t])]
      ensures gameWon == (old(gameWon) || scores[t].0 == PegsInCode)
    {
      var row := guesses[t];
      var c := row.GetPeg(0);
      if 'A' <= c <= 'F' {
        row.GetExactMatches(master);
        row.GetPartialMatches(master);
      }
      scores := scores[t := (row.exactMatches, row.partialMatches)];
      var exact := row.GetExact();
      if exact == PegsInCode {
        gameWon := true;
      }
    }

    /** The scoring part of printing the board: every row in order. */
    method ScoreBoard()
      requires Valid() && Coupled()
      requires forall k :: 0 <= k < MaxGuesses && IsLetter(rows[k][0]) ==> IsCode(rows[k]) && IsCode(Master())
      modifies this`gameWon, this`scores, Repr
      ensures Coupled() && Master() == old(Master())
      ensures scores == Rescore(rows, old(scores), Master())
      ensures gameWon == (old(gameWon) || exists k :: 0 <= k < MaxGuesses && scores[k].0 == PegsInCode)
    {
      for t := 0 to MaxGuesses
        invariant Coupled() && Master() == old(Master())
        invariant forall k :: 0 <= k < MaxGuesses && IsLetter(rows[k][0]) ==> IsCode(rows[k]) && IsCode(Master())
        invariant forall k :: 0 <= k < t ==> scores[k] == Rescore(rows, old(scores), Master())[k]
        invariant forall k :: t <= k < MaxGuesses ==> scores[k] == old(scores[k])
        invariant gameWon == (old(gameWon) || exists k :: 0 <= k < t && scores[k].0 == PegsInCode)
      {
        ScoreRow(t);
      }
    }

    /**
     * The accepted branch of one turn: the four-letter input goes into row
     * turn - 1, the board is scored, the turn advances, and the game is lost
     * once the turn passes the last guess.
     */
    method Accept()
      requires Valid() && Coupled() && 1 <= turn <= MaxGuesses && |inputStr| == PegsInCode
      requires IsCode(inputStr) && IsCode(Master())
      requires forall k :: 0 <= k < MaxGuesses && k != turn - 1 ==>
        |rows[k]| == PegsInCode && (IsLetter(rows[k][0]) ==> IsCode(rows[k]))
      modifies this`rows, this`scores, this`gameWon, this`gameLost, this`turn, Repr
      ensures Coupled() && Master() == old(Master())
      ensures rows == old(rows)[old(turn) - 1 := inputStr]
      ensures scores == Rescore(rows, old(scores), Master())
      ensures gameWon == (old(gameWon) || exists k :: 0 <= k < MaxGuesses && scores[k].0 == PegsInCode)
      ensures turn == old(turn) + 1 && gameLost == (old(gameLost) || turn > MaxGuesses)
    {
      assert inputStr[..PegsInCode] == inputStr;
      PlayTurn();
      ScoreBoard();
      turn := turn + 1;
      if turn > MaxGuesses {
        gameLost := true;
      }
    }

    /** An accepted guess, already stored upper-cased, played in a game still in play. */
    method PlayAccepted()
      requires Valid() && Coupled() && Invariant() && !gameWon && !gameLost && IsCode(Master())
      requires |inputStr| == PegsInCode && IsCode(inputStr)
      modifies this`rows, this`scores, this`gameWon, this`gameLost, this`turn, Repr
      ensures Coupled() && Invariant() && Master() == old(Master())
      ensures History() == old(History()) + [inputStr]
      ensures gameWon <==> inputStr == Master()
    {
      ghost var before := State();
      ConsistentScorable(before);
      Accept();
      AcceptKeepsConsistent(before, inputStr, State());
    }

    /**
     * One pass of the turn loop for the typed line `s`: the line is checked
     * and stored upper-cased; a rejected line changes nothing else, an
     * accepted one is played.
     */
    method Step(s: string) returns (accepted: bool)
      requires Valid() && Coupled() && Invariant() && !gameWon && !gameLost && IsCode(Master())
      modifies this, Repr
      ensures Coupled() && Invariant() && Master() == old(Master())
      ensures accepted == ValidGuess(s) && inputStr == UpperCase(s)
      ensures History() == old(History()) + (if accepted then [inputStr] else [])
      ensures accepted ==> (gameWon <==> inputStr == Master())
      ensures !accepted ==> rows == old(rows) && scores == old(scores) && turn == old(turn)
    {
      var found, upper := CheckInput(s);
      inputStr := upper;
      accepted := found;
      if found {
        PlayAccepted();
      }
    }

    /**
     * The turn loop: typed lines are played one by one until the game is
     * won, lost, or the lines run out.
     */
    method PlayTurns(inputs: seq<string>) returns (consumed: nat)
      requires Valid() && Coupled() && Invariant() && IsCode(Master()) && turn == 1
      modifies this, Repr
      ensures Coupled() && Invariant() && Master() == old(Master())
      ensures consumed <= |inputs| && (gameWon || gameLost || consumed == |inputs|)
      ensures History() == Accepted(inputs[..consumed])
    {
      consumed := 0;
      assert inputs[..0] == [];
      while !gameWon && !gameLost && consumed < |inputs|
        invariant Coupled() && Invariant() && Master() == old(Master())
        invariant consumed <= |inputs|
        invariant History() == Accepted(inputs[..consumed])
        decreases |inputs| - consumed
      {
        var accepted := Step(inputs[consumed]);
        AcceptedStep(inputs, consumed);
        consumed := consumed + 1;
      }
    }

    /**
     * The end of the game: on a win the turn counter steps back so that it
     * reports how many guesses were used.
     */
    method Finish()
      requires Valid() && Coupled() && Invariant()
      modifies this`turn
      ensures Coupled() && Master() == old(Master())
      ensures !gameWon ==> turn == old(turn)
      ensures Outcome(old(History()), State())
    {
      ghost var before := State();
      if gameWon {
        turn := turn - 1;
      }
      FinalBoard(before, State());
    }

    /**
     * The whole game on the dice rolls and the typed lines: the master is
     * drawn, then turns are played until the game is won, lost, or the typed
     * lines run out. On a win the turn counter is stepped back so that it
     * reports how many guesses were used.
     */
    method PlayGame(rolls: seq<int>, inputs: seq<string>) returns (consumed: nat)
      requires Valid() && Coupled() && turn == 1 && !gameWon && !gameLost && scores == NoScores
      requires |rows| == MaxGuesses && forall k :: 0 <= k < MaxGuesses ==> rows[k] == BlankRow
      requires |rolls| == PegsInCode && forall i :: 0 <= i < |rolls| ==> 1 <= rolls[i] <= PegLetters
      modifies this, Repr
      ensures Coupled() && Master() == MasterCode(rolls)
      ensures consumed <= |inputs| && (gameWon || gameLost || consumed == |inputs|)
      ensures Outcome(Accepted(inputs[..consumed]), State())
    {
      ghost var blank := rows;
      GenMasterCode(rolls);
      InitialConsistent(blank, Master());
      consumed := PlayTurns(inputs);
      Finish();
    }
  }
}
