/**
  The stable-disc bookkeeping of othello.py: is_stable, and stability_score,
  which adds discs to the process-wide STABLE_PIECES sets of the two sides.
 */
module OthelloStability {

  import opened OthelloBoard
  import opened OthelloScoring

  // ---------------------------------------------------------------------------
  // is_stable

  /**
    What is_stable's loops compute from cell s with directions k..7 still to
    go. The scan cursor s is shared by all directions: it is not reset to
    `move` when the next direction starts. A scan that runs over p's
    opponent's discs and reaches a p disc, while the cell behind `move` is
    EMPTY, makes the answer false.
   */
  function StableFrom(b: seq<char>, p: Player, move: int, s: int, k: int): (stable: bool)
    requires WellFormed(b) && IsSquare(move) && 0 <= s < 100 && 0 <= k <= 8
    ensures !stable ==> exists j :: k <= j < 8 && 0 <= move - DIRECTIONS[j] < 100 && b[move - DIRECTIONS[j]] == EMPTY
    decreases 8 - k, if k < 8 then ScanMeasure(s, DIRECTIONS[k]) else 0
  {
    if k == 8 then true
    else
      var d := DIRECTIONS[k];
      if b[s] == Other(p) then
        NextInRange(b, s, d);
        SquareStepBackInRange(move, d);
        if b[s + d] == p && b[move - d] == EMPTY then false
        else StableFrom(b, p, move, s + d, k)
      else
        StableFrom(b, p, move, s, k + 1)
  }

  /** is_stable: `move` holds the disc whose stability is asked. */
  method IsStable(board: seq<char>, move: int) returns (stable: bool)
    requires WellFormed(board) && 0 <= move < 100 && (board[move] == BLACK || board[move] == WHITE)
    ensures IsSquare(move)
    ensures stable == StableFrom(board, board[move], move, move, 0)
  {
    NotOuterIsSquare(board, move);
    var player: Player := board[move];
    var s := move;
    for k := 0 to 8
      invariant 0 <= s < 100
      invariant StableFrom(board, player, move, s, k) == StableFrom(board, player, move, move, 0)
    {
      var d := DIRECTIONS[k];
      while board[s] == Other(player)
        invariant 0 <= s < 100
        invariant StableFrom(board, player, move, s, k) == StableFrom(board, player, move, move, 0)
        decreases ScanMeasure(s, d)
      {
        NextInRange(board, s, d);
        SquareStepBackInRange(move, d);
        s := s + d;
        if board[s] == player && board[move - d] == EMPTY {
          return false;
        }
      }
    }
    return true;
  }

  /**
    Started on a cell that holds p itself, no scan ever moves: is_stable
    answers true for every disc it is asked about.
   */
  lemma {:induction false} StableFromOwnDisc(b: seq<char>, p: Player, move: int, s: int, k: int)
    requires WellFormed(b) && IsSquare(move) && 0 <= s < 100 && 0 <= k <= 8 && b[s] == p
    ensures StableFrom(b, p, move, s, k)
    decreases 8 - k
  {
    if k < 8 {
      StableFromOwnDisc(b, p, move, s, k + 1);
    }
  }

  // ---------------------------------------------------------------------------
  // stability_score

  /** The discs of colour p contiguous to `move` along the first n directions. */
  function SameColourRuns(b: seq<char>, p: Player, move: int, n: int): (runs: set<int>)
    requires WellFormed(b) && IsSquare(move) && 0 <= n <= 8
    ensures forall i :: i in runs ==> 0 <= i < 100 && b[i] == p
  {
    if n == 0 then {}
    else
      var d := DIRECTIONS[n - 1];
      SquareStepInRange(move, d);
      SameColourRuns(b, p, move, n - 1) + RunCells(b, p, move + d, d)
  }

  /** The cells listed in a sequence. */
  function Elems(s: seq<int>): (r: set<int>)
    ensures forall x :: x in r <==> x in s
  {
    set x | x in s
  }

  /** Listing one sequence after another lists the cells of both. */
  lemma ElemsAppend(s: seq<int>, t: seq<int>)
    ensures Elems(s + t) == Elems(s) + Elems(t)
  {
    assert forall x :: x in s + t <==> x in s || x in t;
  }

  /** One step of CollectRun: listing the disc at `flip` moves it from the run still to scan to the run listed. */
  lemma CollectRunStep(board: seq<char>, p: Player, run: seq<int>, flip: int, d: Direction)
    requires WellFormed(board) && 0 <= flip < 100 && board[flip] == p
    ensures 0 <= flip + d < 100
    ensures Elems(run + [flip]) + RunCells(board, p, flip + d, d) == Elems(run) + RunCells(board, p, flip, d)
  {
    NextInRange(board, flip, d);
    ElemsAppend(run, [flip]);
  }

  /** The first loop of stability_score for one direction: the p discs from `start` along d, in order. */
  method CollectRun(board: seq<char>, p: Player, start: int, d: Direction) returns (run: seq<int>)
    requires WellFormed(board) && 0 <= start < 100
    ensures Elems(run) == RunCells(board, p, start, d)
  {
    run := [];
    var flip := start;
    while board[flip] == p
      invariant 0 <= flip < 100
      invariant Elems(run) + RunCells(board, p, flip, d) == RunCells(board, p, start, d)
      decreases ScanMeasure(flip, d)
    {
      CollectRunStep(board, p, run, flip, d);
      run := run + [flip];
      flip := flip + d;
    }
  }

  /** The first loop of stability_score: the mover's discs contiguous to `move` in every direction. */
  method CollectSameColour(board: seq<char>, p: Player, move: int) returns (discs: seq<int>)
    requires WellFormed(board) && IsSquare(move)
    ensures Elems(discs) == SameColourRuns(board, p, move, 8)
  {
    discs := [];
    for k := 0 to 8
      invariant Elems(discs) == SameColourRuns(board, p, move, k)
    {
      var d := DIRECTIONS[k];
      SquareStepInRange(move, d);
      var run := CollectRun(board, p, move + d, d);
      ElemsAppend(discs, run);
      discs := discs + run;
    }
  }

  /** The two STABLE_PIECES sets, shared by every call of stability_score. */
  class StablePieces {
    var black: set<int>
    var white: set<int>

    constructor()
      ensures black == {} && white == {}
    {
      black, white := {}, {};
    }

    /** STABLE_PIECES[p] */
    function Of(p: Player): set<int>
      reads this
    {
      if p == BLACK then black else white
    }

    /** STABLE_PIECES[p].add(disc) */
    method Add(p: Player, disc: int)
      modifies this
      ensures Of(p) == old(Of(p)) + {disc} && Of(Other(p)) == old(Of(Other(p)))
    {
      if p == BLACK {
        black := black + {disc};
      } else {
        white := white + {disc};
      }
    }

    /** The body of stability_score's second loop: records `disc` as stable when is_stable says so, which it always does. */
    method RecordIfStable(board: seq<char>, p: Player, disc: int)
      requires WellFormed(board) && 0 <= disc < 100 && board[disc] == p
      modifies this
      ensures Of(p) == old(Of(p)) + {disc} && Of(Other(p)) == old(Of(Other(p)))
    {
      var stable := IsStable(board, disc);
      StableFromOwnDisc(board, p, disc, disc, 0);
      if stable {
        Add(p, disc);
      }
    }

    /**
      stability_score: collects the discs of the mover's colour contiguous to
      `move` in each direction, adds the stable ones to the mover's set, and
      compares the sizes of the two sets.
     */
    method StabilityScore(board: seq<char>, move: int) returns (stability: int)
      requires WellFormed(board) && 0 <= move < 100 && (board[move] == BLACK || board[move] == WHITE)
      modifies this
      ensures IsSquare(move)
      ensures var p: Player := board[move];
        Of(p) == old(Of(p)) + SameColourRuns(board, p, move, 8) && Of(Other(p)) == old(Of(Other(p)))
      ensures stability == Ratio(|black|, |white|)
    {
      NotOuterIsSquare(board, move);
      var player: Player := board[move];
      var discs := CollectSameColour(board, player, move);
      for i := 0 to |discs|
        invariant Of(player) == old(Of(player)) + Elems(discs[..i])
        invariant Of(Other(player)) == old(Of(Other(player)))
      {
        assert discs[i] in Elems(discs);
        RecordIfStable(board, player, discs[i]);
        assert discs[..i + 1] == discs[..i] + [discs[i]];
        ElemsAppend(discs[..i], [discs[i]]);
      }
      assert discs[..|discs|] == discs;
      stability := Ratio(|black|, |white|);
    }
  }

}
