/**
  Move rules of othello.py: capture detection (find_match, is_move_valid),
  the flip transformation (make_move), move enumeration (get_valid_moves,
  has_any_valid_moves) and turn passing (next_player, game_over).
 */
module OthelloMoves {

  import opened Optional
  import opened OthelloBoard
  import opened Ascending

  // ---------------------------------------------------------------------------
  // Capture detection

  /**
    The condition under which find_match returns `square`: the cell after it
    along d holds the opponent, and the run of opponent discs that starts
    there is closed by a disc of p.
   */
  predicate Brackets(b: seq<char>, p: Player, square: int, d: Direction)
    requires WellFormed(b) && IsSquare(square)
  {
    SquareStepInRange(square, d);
    b[square + d] == Other(p) && b[ScanEnd(b, Other(p), square + d, d)] == p
  }

  /**
    A bracketing line: the cells after `square` along d hold the opponent's
    discs, at least one of them, and the first cell after them holds p.
   */
  lemma BracketsClosed(b: seq<char>, p: Player, square: int, d: Direction)
    requires WellFormed(b) && IsSquare(square) && Brackets(b, p, square, d)
    ensures IsSquare(square + d) && b[square + d] == Other(p)
    ensures exists k: nat :: 2 <= k && 0 <= Along(square, k, d) < 100 && b[Along(square, k, d)] == p &&
              (forall j: nat :: 1 <= j < k ==> 0 <= Along(square, j, d) < 100 && b[Along(square, j, d)] == Other(p))
  {
    SquareStepInRange(square, d);
    NotOuterIsSquare(b, square + d);
    var run := ScanEndOnLine(b, Other(p), square + d, d);
    var k := run + 1;
    AlongShift(square, k, d);
    forall j: nat | 1 <= j < k
      ensures 0 <= Along(square, j, d) < 100 && b[Along(square, j, d)] == Other(p)
    {
      AlongShift(square, j, d);
    }
    assert 2 <= k;
  }

  /** find_match: scans from `square` along d over the opponent's discs. */
  method FindMatch(b: seq<char>, p: Player, square: int, d: Direction) returns (r: Option<int>)
    requires WellFormed(b) && IsSquare(square)
    ensures r == (if Brackets(b, p, square, d) then Some(square) else None)
  {
    SquareStepInRange(square, d);
    var opponent := Other(p);
    var s := square + d;
    while b[s] == opponent
      invariant 0 <= s < 100
      invariant ScanEnd(b, opponent, s, d) == ScanEnd(b, opponent, square + d, d)
      invariant s != square + d ==> b[square + d] == opponent && b[s] != p
      decreases ScanMeasure(s, d)
    {
      ScanEndStep(b, opponent, s, d);
      s := s + d;
      if b[s] == p {
        return Some(square);
      }
    }
    return None;
  }

  /** Some direction of DIRECTIONS brackets a run from `square`. */
  predicate AnyBrackets(b: seq<char>, p: Player, square: int)
    requires WellFormed(b) && IsSquare(square)
  {
    DirectionsAreDistinct();
    exists k :: 0 <= k < 8 && Brackets(b, p, square, DIRECTIONS[k])
  }

  /** is_move_valid */
  predicate IsMoveValid(b: seq<char>, p: Player, move: int): (valid: bool)
    requires WellFormed(b) && 0 <= move < 100
    ensures valid ==> IsSquare(move) && b[move] == EMPTY
  {
    b[move] == EMPTY && (NotOuterIsSquare(b, move); AnyBrackets(b, p, move))
  }

  // ---------------------------------------------------------------------------
  // The flip transformation

  /** The opponent discs flipped by the first n directions of DIRECTIONS. */
  function FlipsThrough(b: seq<char>, p: Player, move: int, n: int): (f: set<int>)
    requires WellFormed(b) && IsSquare(move) && 0 <= n <= 8
    ensures forall i :: i in f ==> 0 <= i < 100 && b[i] == Other(p)
  {
    if n == 0 then {}
    else
      DirectionsAreDistinct();
      var d := DIRECTIONS[n - 1];
      Step(move, d);
      FlipsThrough(b, p, move, n - 1) +
      (if Brackets(b, p, move, d) then RunCells(b, Other(p), move + d, d) else {})
  }

  /** Every bracketed run, in every direction: the discs a move at `move` flips. */
  function Flips(b: seq<char>, p: Player, move: int): set<int>
    requires WellFormed(b) && IsSquare(move)
  {
    FlipsThrough(b, p, move, 8)
  }

  /**
    What make_move computes: when some direction brackets, `move` and every
    bracketed run of the original board become p; otherwise the board is
    returned unchanged.
   */
  function Flipped(b: seq<char>, p: Player, move: int): (r: seq<char>)
    requires WellFormed(b) && IsSquare(move)
    ensures |r| == 100
    ensures forall i :: 0 <= i < 100 && r[i] != b[i] ==> r[i] == p
  {
    var f := Flips(b, p, move);
    if f == {} then b
    else seq(100, i requires 0 <= i < 100 => if i == move || i in f then p else b[i])
  }

  /** One more direction adds its bracketed run, if any. */
  lemma FlipsThroughStep(b: seq<char>, p: Player, move: int, k: int)
    requires WellFormed(b) && IsSquare(move) && 0 <= k < 8
    ensures 0 <= move + DIRECTIONS[k] < 100
    ensures FlipsThrough(b, p, move, k + 1) == FlipsThrough(b, p, move, k) +
        (if Brackets(b, p, move, DIRECTIONS[k]) then RunCells(b, Other(p), move + DIRECTIONS[k], DIRECTIONS[k]) else {})
  {
  }

  /** The runs of the first n directions lie in those directions' sectors, so not in a later one's. */
  lemma {:induction false} FlipsThroughHeadings(b: seq<char>, p: Player, move: int, n: int)
    requires WellFormed(b) && IsSquare(move) && 0 <= n <= 8
    ensures forall i, k :: i in FlipsThrough(b, p, move, n) && n <= k < 8 ==> Heading(move, i) != DIRECTIONS[k]
  {
    DirectionsAreDistinct();
    if n > 0 {
      FlipsThroughHeadings(b, p, move, n - 1);
      var d := DIRECTIONS[n - 1];
      Step(move, d);
      HeadingOfNeighbour(move, d);
      RunStaysOnRay(b, Other(p), move, move + d, d);
    }
  }

  /** Some of the first n directions brackets exactly when they flip something. */
  lemma {:induction false} FlipsThroughNonEmpty(b: seq<char>, p: Player, move: int, n: int)
    requires WellFormed(b) && IsSquare(move) && 0 <= n <= 8
    ensures FlipsThrough(b, p, move, n) != {} <==> exists k :: 0 <= k < n && Brackets(b, p, move, DIRECTIONS[k])
  {
    DirectionsAreDistinct();
    if n > 0 {
      FlipsThroughNonEmpty(b, p, move, n - 1);
      var d := DIRECTIONS[n - 1];
      Step(move, d);
      if Brackets(b, p, move, d) {
        assert move + d in RunCells(b, Other(p), move + d, d);
      }
    }
  }

  /** The inner loop of make_move: turns the run of c discs that starts at `start` along d into p. */
  method FlipRun(b: seq<char>, c: Player, p: Player, start: int, d: Direction) returns (r: seq<char>)
    requires WellFormed(b) && 0 <= start < 100 && p != c
    ensures WellFormed(r)
    ensures forall i :: 0 <= i < 100 ==> r[i] == (if i in RunCells(b, c, start, d) then p else b[i])
  {
    r := b;
    var flip := start;
    while r[flip] == c
      invariant 0 <= flip < 100
      invariant WellFormed(r)
      invariant RunCells(b, c, flip, d) <= RunCells(b, c, start, d)
      invariant forall i :: 0 <= i < 100 ==>
        r[i] == (if i in RunCells(b, c, start, d) && i !in RunCells(b, c, flip, d) then p else b[i])
      decreases ScanMeasure(flip, d)
    {
      NextInRange(r, flip, d);
      UpdateKeepsWellFormed(r, flip, p);
      r := r[flip := p];
      flip := flip + d;
    }
  }

  /**
    The state of make_move's board after the first k directions: `move` and
    the runs those directions bracket are p, every other cell is as in b.
   */
  predicate FlippedThrough(b: seq<char>, p: Player, move: int, k: int, r: seq<char>)
    requires WellFormed(b) && IsSquare(move) && 0 <= k <= 8
  {
    var f := FlipsThrough(b, p, move, k);
    WellFormed(r) &&
    forall i :: 0 <= i < 100 ==> r[i] == (if (i == move && f != {}) || i in f then p else b[i])
  }

  /** Before direction k is handled, its sector is untouched, even once `move` itself is set. */
  lemma FlippedThroughAgrees(b: seq<char>, p: Player, move: int, k: int, r: seq<char>)
    requires WellFormed(b) && IsSquare(move) && 0 <= k < 8 && FlippedThrough(b, p, move, k, r)
    ensures AgreeOnRay(r, b, move, DIRECTIONS[k])
    ensures AgreeOnRay(r[move := p], b, move, DIRECTIONS[k])
  {
    FlipsThroughHeadings(b, p, move, k);
    HeadingOfSelf(move);
  }

  /** find_match answers for r as it would for the original board, because they agree on the sector of d. */
  lemma BracketsAgree(r: seq<char>, b: seq<char>, p: Player, move: int, d: Direction)
    requires WellFormed(r) && WellFormed(b) && IsSquare(move) && AgreeOnRay(r, b, move, d)
    ensures Brackets(r, p, move, d) == Brackets(b, p, move, d)
  {
    SquareStepInRange(move, d);
    HeadingOfNeighbour(move, d);
    ScanEndAgrees(r, b, Other(p), move, move + d, d);
    ScanEndOnRay(b, Other(p), move, move + d, d);
    var e := ScanEnd(b, Other(p), move + d, d);
    assert r[move + d] == b[move + d] && r[e] == b[e];
  }

  /** A direction that brackets nothing leaves the state at k + 1 directions as it was at k. */
  lemma FlippedThroughSkip(b: seq<char>, p: Player, move: int, k: int, r: seq<char>)
    requires WellFormed(b) && IsSquare(move) && 0 <= k < 8 && FlippedThrough(b, p, move, k, r)
    requires !Brackets(b, p, move, DIRECTIONS[k])
    ensures FlippedThrough(b, p, move, k + 1, r)
  {
    FlipsThroughStep(b, p, move, k);
  }

  /**
    A direction that brackets: setting `move` to p and then flipping the run
    that starts next to it takes the state from k to k + 1 directions.
   */
  lemma FlippedThroughFlip(b: seq<char>, p: Player, move: int, k: int, r: seq<char>, r': seq<char>)
    requires WellFormed(b) && IsSquare(move) && 0 <= k < 8 && FlippedThrough(b, p, move, k, r)
    requires Brackets(b, p, move, DIRECTIONS[k])
    requires WellFormed(r[move := p]) && 0 <= move + DIRECTIONS[k] < 100
    requires WellFormed(r')
    requires forall i :: 0 <= i < 100 ==>
      r'[i] == (if i in RunCells(r[move := p], Other(p), move + DIRECTIONS[k], DIRECTIONS[k]) then p else r[move := p][i])
    ensures FlippedThrough(b, p, move, k + 1, r')
  {
    var d := DIRECTIONS[k];
    FlippedThroughAgrees(b, p, move, k, r);
    HeadingOfNeighbour(move, d);
    RunAgrees(r[move := p], b, Other(p), move, move + d, d);
    FlipsThroughStep(b, p, move, k);
    assert move + d in RunCells(b, Other(p), move + d, d);
  }

  /** make_move: rewrites the board direction by direction, as the source does. */
  method MakeMove(b: seq<char>, p: Player, move: int) returns (r: seq<char>)
    requires WellFormed(b) && IsSquare(move)
    ensures r == Flipped(b, p, move)
  {
    DirectionsAreDistinct();
    r := b;
    for k := 0 to 8
      invariant FlippedThrough(b, p, move, k, r)
    {
      var d := DIRECTIONS[k];
      FlippedThroughAgrees(b, p, move, k, r);
      BracketsAgree(r, b, p, move, d);
      var s := FindMatch(r, p, move, d);
      if s.Some? {
        ghost var before := r;
        SquareIsNotOuter(r, move);
        UpdateKeepsWellFormed(r, move, p);
        SquareStepInRange(move, d);
        r := FlipRun(r[move := p], Other(p), p, move + d, d);
        FlippedThroughFlip(b, p, move, k, before, r);
      } else {
        FlippedThroughSkip(b, p, move, k, r);
      }
    }
    FlipsThroughNonEmpty(b, p, move, 8);
  }

  /** make_move keeps the board well formed and writes nothing but p. */
  lemma FlippedWellFormed(b: seq<char>, p: Player, move: int)
    requires WellFormed(b) && IsSquare(move)
    ensures WellFormed(Flipped(b, p, move))
  {
    var r := Flipped(b, p, move);
    forall j | 0 <= j < 100
      ensures CellFits(r, j)
    {
      assert CellFits(b, j);
    }
  }

  /** A move that brackets nothing leaves the board as it was: no IllegalMoveError is ever raised. */
  lemma FlippedIllegalIsIdentity(b: seq<char>, p: Player, move: int)
    requires WellFormed(b) && IsSquare(move) && !AnyBrackets(b, p, move)
    ensures Flipped(b, p, move) == b
  {
    FlipsThroughNonEmpty(b, p, move, 8);
  }

  /** A valid move flips at least one disc. */
  lemma ValidMoveFlips(b: seq<char>, p: Player, move: int)
    requires WellFormed(b) && 0 <= move < 100
    ensures IsMoveValid(b, p, move) <==> b[move] == EMPTY && IsSquare(move) && Flips(b, p, move) != {}
  {
    if b[move] == EMPTY {
      NotOuterIsSquare(b, move);
      FlipsThroughNonEmpty(b, p, move, 8);
    }
  }

  /** On a move that flips something, the discs of each kind after the move, as sets. */
  lemma FlippedDiscSets(b: seq<char>, p: Player, move: int)
    requires WellFormed(b) && IsSquare(move) && b[move] == EMPTY && Flips(b, p, move) != {}
    ensures var r, f := Flipped(b, p, move), Flips(b, p, move);
      Discs(r, p, 100) == Discs(b, p, 100) + {move} + f &&
      Discs(r, Other(p), 100) == Discs(b, Other(p), 100) - f &&
      Discs(r, EMPTY, 100) == Discs(b, EMPTY, 100) - {move} &&
      f <= Discs(b, Other(p), 100)
  {
    var r, f := Flipped(b, p, move), Flips(b, p, move);
    assert Discs(r, p, 100) == Discs(b, p, 100) + {move} + f;
    assert Discs(r, Other(p), 100) == Discs(b, Other(p), 100) - f;
  }

  /**
    On a valid move the mover gains the placed disc and every flipped disc,
    the opponent loses exactly the flipped discs, and the empty square is filled.
   */
  lemma FlippedCounts(b: seq<char>, p: Player, move: int)
    requires WellFormed(b) && IsSquare(move) && IsMoveValid(b, p, move)
    ensures var r, f := Flipped(b, p, move), Flips(b, p, move);
      |Discs(r, p, 100)| == |Discs(b, p, 100)| + 1 + |f| &&
      |Discs(r, Other(p), 100)| == |Discs(b, Other(p), 100)| - |f| &&
      |Discs(r, EMPTY, 100)| == |Discs(b, EMPTY, 100)| - 1
  {
    ValidMoveFlips(b, p, move);
    FlippedDiscSets(b, p, move);
    var f := Flips(b, p, move);
    assert move !in Discs(b, p, 100) && move !in f && move in Discs(b, EMPTY, 100);
    assert Discs(b, p, 100) !! f;
  }

  // ---------------------------------------------------------------------------
  // Move enumeration

  /** The valid moves below n, in ascending order. */
  function ValidMovesBelow(b: seq<char>, p: Player, n: int): (moves: seq<int>)
    requires WellFormed(b) && 0 <= n <= 100
    ensures StrictlyAscending(moves)
    ensures forall m :: m in moves <==> 0 <= m < n && IsMoveValid(b, p, m)
  {
    if n == 0 then []
    else
      var earlier := ValidMovesBelow(b, p, n - 1);
      var last := if IsMoveValid(b, p, n - 1) then [n - 1] else [];
      AppendAbove(earlier, last, n - 1);
      earlier + last
  }

  /** The list get_valid_moves returns. */
  function ValidMoves(b: seq<char>, p: Player): seq<int>
    requires WellFormed(b)
  {
    ValidMovesBelow(b, p, 100)
  }

  /** get_valid_moves */
  method GetValidMoves(b: seq<char>, p: Player) returns (moves: seq<int>)
    requires WellFormed(b)
    ensures moves == ValidMoves(b, p)
    ensures StrictlyAscending(moves)
    ensures forall m :: m in moves <==> 0 <= m < 100 && IsMoveValid(b, p, m)
  {
    moves := [];
    for j := 0 to 100
      invariant moves == ValidMovesBelow(b, p, j)
    {
      assert ValidMovesBelow(b, p, j + 1) == moves + if IsMoveValid(b, p, j) then [j] else [];
      if b[j] == EMPTY && IsMoveValid(b, p, j) {
        moves := moves + [j];
      }
    }
  }

  /** has_any_valid_moves: true exactly when some index is a valid move. */
  predicate HasAnyValidMoves(b: seq<char>, p: Player): (any: bool)
    requires WellFormed(b)
    ensures any <==> exists m :: 0 <= m < 100 && IsMoveValid(b, p, m)
  {
    var moves := ValidMoves(b, p);
    if |moves| != 0 then
      assert moves[0] in moves;
      true
    else false
  }

  /** next_player: the opponent if it can move, else the same player if it can, else None. */
  function NextPlayer(b: seq<char>, prev: Player): (next: Option<Player>)
    requires WellFormed(b)
    ensures next.Some? ==> HasAnyValidMoves(b, next.value)
    ensures next.None? <==> !HasAnyValidMoves(b, prev) && !HasAnyValidMoves(b, Other(prev))
    ensures HasAnyValidMoves(b, Other(prev)) <==> next == Some(Other(prev))
  {
    if HasAnyValidMoves(b, Other(prev)) then Some(Other(prev))
    else if HasAnyValidMoves(b, prev) then Some(prev)
    else None
  }

  /** game_over, as written: true exactly when `player` still has a legal move. */
  function GameOver(b: seq<char>, player: Player): (over: bool)
    requires WellFormed(b)
    ensures over <==> exists m :: 0 <= m < 100 && IsMoveValid(b, player, m)
  {
    HasAnyValidMoves(b, player)
  }

  /**
    game_over as its documentation describes it: neither side has a legal
    move, which is exactly when next_player has no one to hand the turn to.
   */
  function GameOverIntended(b: seq<char>, player: Player): (over: bool)
    requires WellFormed(b)
    ensures over <==> forall m :: 0 <= m < 100 ==> !IsMoveValid(b, player, m) && !IsMoveValid(b, Other(player), m)
    ensures over <==> NextPlayer(b, player).None?
  {
    !HasAnyValidMoves(b, player) && !HasAnyValidMoves(b, Other(player))
  }

}
