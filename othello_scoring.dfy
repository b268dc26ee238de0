/**
  The integer evaluation terms of othello.py: the truncated percentage ratio
  used by corner_score, mobility_score and stability_score, the positional
  weight_score over SCORING_MATRIX, corner_score, the two ratios of
  mobility_score, is_corner, surrounding_pieces and the final count score2.
 */
module OthelloScoring {

  import opened OthelloBoard
  import opened OthelloMoves

  // ---------------------------------------------------------------------------
  // Truncated ratios

  /**
    Python's math.trunc of a quotient: division rounding toward zero, unlike
    Dafny's `/`, which rounds toward negative infinity for a negative dividend.
   */
  function TruncDiv(n: int, d: int): (q: int)
    requires d > 0
    ensures 0 <= n ==> 0 <= q && q * d <= n < q * d + d
    ensures n < 0 ==> q <= 0 && q * d - d < n <= q * d
  {
    if n >= 0 then n / d else -((-n) / d)
  }

  /** Truncation toward zero commutes with negation. */
  lemma TruncDivNegate(n: int, d: int)
    requires d > 0
    ensures TruncDiv(-n, d) == -TruncDiv(n, d)
  {
    if n == 0 {
    } else if n > 0 {
      assert -(-n) == n;
    }
  }

  /** Multiplying by a positive number keeps the order. */
  lemma MulMonotone(a: int, b: int, d: int)
    requires d > 0 && a <= b
    ensures a * d <= b * d
  {
    assert b * d - a * d == (b - a) * d;
  }

  /** Below the next multiple of a positive d: the factors keep the order. */
  lemma MulCancel(a: int, b: int, d: int)
    requires d > 0 && a * d < b * d + d
    ensures a <= b
  {
    if a > b {
      MulMonotone(b + 1, a, d);
    }
  }

  /** A dividend within m divisors of zero gives a quotient within m of zero. */
  lemma TruncDivBound(n: int, d: int, m: int)
    requires d > 0 && m >= 0 && -(m * d) <= n <= m * d
    ensures -m <= TruncDiv(n, d) <= m
  {
    var q := TruncDiv(n, d);
    if n >= 0 {
      MulCancel(q, m, d);
    } else {
      MulCancel(-m, q, d);
    }
  }

  /** An exact multiple divides exactly. */
  lemma TruncDivExact(m: int, d: int)
    requires d > 0 && m >= 0
    ensures TruncDiv(m * d, d) == m
  {
    var q := TruncDiv(m * d, d);
    MulCancel(q, m, d);
    MulCancel(m, q, d);
  }

  /** A positive quotient comes from a positive dividend, a negative one from a negative dividend. */
  lemma TruncDivSign(n: int, d: int)
    requires d > 0
    ensures TruncDiv(n, d) > 0 ==> n > 0
    ensures TruncDiv(n, d) < 0 ==> n < 0
  {
    var q := TruncDiv(n, d);
    if n == 0 && q > 0 {
      MulMonotone(1, q, d);
    }
  }

  /** The facts about the truncated quotient that Ratio's contract states. */
  lemma RatioQuotient(b: nat, w: nat)
    requires b + w != 0
    ensures var r := TruncDiv(100 * (b - w), b + w);
      -100 <= r <= 100 && (r > 0 ==> b > w) && (r < 0 ==> b < w) &&
      (w == 0 ==> r == 100) && (b == 0 ==> r == -100)
  {
    var n, d := 100 * (b - w), b + w;
    TruncDivBound(n, d, 100);
    TruncDivSign(n, d);
    if w == 0 {
      assert n == 100 * d;
      TruncDivExact(100, d);
    }
    if b == 0 {
      assert n == -(100 * d);
      TruncDivNegate(100 * d, d);
      TruncDivExact(100, d);
    }
  }

  /**
    The score shape `trunc(100 * (b - w) / (b + w))`, and 0 when both counts
    are 0. The source divides floats; for counts this small the float
    quotient is never rounded across an integer, so truncating the exact
    quotient gives the same value.
   */
  function Ratio(b: nat, w: nat): (r: int)
    ensures -100 <= r <= 100
    ensures b == w ==> r == 0
    ensures r > 0 ==> b > w
    ensures r < 0 ==> b < w
    ensures b >= w ==> r >= 0
    ensures b <= w ==> r <= 0
    ensures w == 0 && b > 0 ==> r == 100
    ensures b == 0 && w > 0 ==> r == -100
  {
    if b + w == 0 then 0
    else
      RatioQuotient(b, w);
      TruncDiv(100 * (b - w), b + w)
  }

  /** Exchanging the two counts negates the ratio. */
  lemma RatioAntisymmetric(b: nat, w: nat)
    ensures Ratio(w, b) == -Ratio(b, w)
  {
    if b + w != 0 {
      assert 100 * (w - b) == -(100 * (b - w));
      TruncDivNegate(100 * (b - w), b + w);
    }
  }

  // ---------------------------------------------------------------------------
  // weight_score

  /** Row r (0..9) of SCORING_MATRIX; the matrix is symmetric top to bottom. */
  function ScoringRow(r: int): (row: seq<int>)
    ensures |row| == 10
  {
    if r == 1 || r == 8 then [0, 6, -3, 2, 2, 2, 2, -3, 6, 0]
    else if r == 2 || r == 7 then [0, -3, -4, -1, -1, -1, -1, -4, -3, 0]
    else if r == 3 || r == 6 then [0, 2, -1, 1, 0, 0, 1, -1, 2, 0]
    else if r == 4 || r == 5 then [0, 2, -1, 0, 1, 1, 0, -1, 2, 0]
    else [0, 0, 0, 0, 0, 0, 0, 0, 0, 0]
  }

  /** SCORING_MATRIX[i]. */
  function ScoringWeight(i: int): int
    requires 0 <= i < 100
  {
    ScoringRow(Row(i))[Col(i)]
  }

  /** Corners weigh 6, the cells diagonally inside them -4, and the ring 0. */
  lemma ScoringWeightCorners()
    ensures ScoringWeight(11) == 6 && ScoringWeight(18) == 6 && ScoringWeight(81) == 6 && ScoringWeight(88) == 6
    ensures ScoringWeight(22) == -4 && ScoringWeight(27) == -4 && ScoringWeight(72) == -4 && ScoringWeight(77) == -4
    ensures forall i :: 0 <= i < 100 && !IsSquare(i) ==> ScoringWeight(i) == 0
  {
  }

  /** The sum of SCORING_MATRIX over the cells 11..n-1 that hold c. */
  function Weight(b: seq<char>, c: char, n: int): int
    requires 11 <= n <= |b| && n <= 100
    decreases n
  {
    if n == 11 then 0
    else Weight(b, c, n - 1) + (if b[n - 1] == c then ScoringWeight(n - 1) else 0)
  }

  /** weight_score: black's weighted cells minus white's, over indices 11..88. */
  method WeightScore(board: seq<char>) returns (score: int)
    requires |board| >= 89
    ensures score == Weight(board, BLACK, 89) - Weight(board, WHITE, 89)
  {
    var b, w := 0, 0;
    for i := 11 to 89
      invariant b == Weight(board, BLACK, i) && w == Weight(board, WHITE, i)
    {
      if board[i] == BLACK {
        b := b + ScoringWeight(i);
      } else if board[i] == WHITE {
        w := w + ScoringWeight(i);
      }
    }
    score := b - w;
  }

  /** Exchanging the colours moves each side's weight to the other. */
  lemma {:induction false} WeightSwapped(b: seq<char>, n: int)
    requires 11 <= n <= |b| && n <= 100
    ensures Weight(Swapped(b), BLACK, n) == Weight(b, WHITE, n)
    ensures Weight(Swapped(b), WHITE, n) == Weight(b, BLACK, n)
    decreases n
  {
    if n > 11 {
      WeightSwapped(b, n - 1);
    }
  }

  /** So weight_score of the colour-swapped board is the negation. */
  lemma WeightScoreAntisymmetric(b: seq<char>)
    requires |b| >= 89
    ensures Weight(Swapped(b), BLACK, 89) - Weight(Swapped(b), WHITE, 89) == -(Weight(b, BLACK, 89) - Weight(b, WHITE, 89))
  {
    WeightSwapped(b, 89);
  }

  // ---------------------------------------------------------------------------
  // corner_score, is_corner, surrounding_pieces

  const CORNERS: seq<int> := [11, 18, 81, 88]

  /** How many of the first n corners hold c. */
  function CornersHeld(b: seq<char>, c: char, n: int): (count: nat)
    requires |b| == 100 && 0 <= n <= 4
    ensures count <= n
  {
    if n == 0 then 0
    else CornersHeld(b, c, n - 1) + (if b[CORNERS[n - 1]] == c then 1 else 0)
  }

  /**
    corner_score: 3 points per corner held, as a truncated ratio. The source's
    "potential corner" branch compares the list of neighbour indices returned
    by surrounding_pieces with a piece character, which is never equal, so it
    adds nothing and is not part of the loop below.
   */
  method CornerScore(board: seq<char>) returns (score: int)
    requires |board| == 100
    ensures score == Ratio(3 * CornersHeld(board, BLACK, 4), 3 * CornersHeld(board, WHITE, 4))
  {
    var b, w := 0, 0;
    for k := 0 to 4
      invariant b == 3 * CornersHeld(board, BLACK, k) && w == 3 * CornersHeld(board, WHITE, k)
    {
      var i := CORNERS[k];
      if board[i] == BLACK {
        b := b + 3;
      } else if board[i] == WHITE {
        w := w + 3;
      }
    }
    score := Ratio(b, w);
  }

  /** The corner score is 0 when no corner is held, 100 when only black holds corners, -100 when only white does. */
  lemma CornerScoreRange(b: seq<char>)
    requires |b| == 100
    ensures var r := Ratio(3 * CornersHeld(b, BLACK, 4), 3 * CornersHeld(b, WHITE, 4));
      -100 <= r <= 100 &&
      (CornersHeld(b, BLACK, 4) == 0 && CornersHeld(b, WHITE, 4) == 0 ==> r == 0) &&
      (CornersHeld(b, BLACK, 4) > 0 && CornersHeld(b, WHITE, 4) == 0 ==> r == 100) &&
      (CornersHeld(b, BLACK, 4) == 0 && CornersHeld(b, WHITE, 4) > 0 ==> r == -100)
  {
  }

  /** Exchanging the colours exchanges the corner counts. */
  lemma {:induction false} CornersHeldSwapped(b: seq<char>, n: int)
    requires |b| == 100 && 0 <= n <= 4
    ensures CornersHeld(Swapped(b), BLACK, n) == CornersHeld(b, WHITE, n)
    ensures CornersHeld(Swapped(b), WHITE, n) == CornersHeld(b, BLACK, n)
  {
    if n > 0 {
      CornersHeldSwapped(b, n - 1);
    }
  }

  /** So corner_score of the colour-swapped board is the negation. */
  lemma CornerScoreAntisymmetric(b: seq<char>)
    requires |b| == 100
    ensures Ratio(3 * CornersHeld(Swapped(b), BLACK, 4), 3 * CornersHeld(Swapped(b), WHITE, 4)) ==
      -Ratio(3 * CornersHeld(b, BLACK, 4), 3 * CornersHeld(b, WHITE, 4))
  {
    CornersHeldSwapped(b, 4);
    RatioAntisymmetric(3 * CornersHeld(b, BLACK, 4), 3 * CornersHeld(b, WHITE, 4));
  }

  /** is_corner: the corners are exactly the squares on both an edge row and an edge column. */
  predicate IsCorner(move: int): (corner: bool)
    ensures corner <==> IsSquare(move) && (Row(move) == 1 || Row(move) == 8) && (Col(move) == 1 || Col(move) == 8)
  {
    move == 11 || move == 18 || move == 81 || move == 88
  }

  /** surrounding_pieces: the indices next to `move`, in DIRECTIONS order. */
  method SurroundingPieces(move: int) returns (pieces: seq<int>)
    ensures |pieces| == 8
    ensures forall k :: 0 <= k < 8 ==> pieces[k] - move == DIRECTIONS[k]
    ensures IsSquare(move) ==> forall k :: 0 <= k < 8 ==> Heading(move, pieces[k]) == DIRECTIONS[k]
  {
    pieces := [];
    for k := 0 to 8
      invariant |pieces| == k
      invariant forall j :: 0 <= j < k ==> pieces[j] - move == DIRECTIONS[j]
      invariant IsSquare(move) ==> forall j :: 0 <= j < k ==> Heading(move, pieces[j]) == DIRECTIONS[j]
    {
      if IsSquare(move) {
        HeadingOfNeighbour(move, DIRECTIONS[k]);
      }
      pieces := pieces + [move + DIRECTIONS[k]];
    }
  }

  // ---------------------------------------------------------------------------
  // mobility_score (the two integer ratios)

  /** How many of the first k directions from the square j lead to a c disc. */
  function NeighboursHolding(b: seq<char>, c: char, j: int, k: int): (count: nat)
    requires |b| == 100 && IsSquare(j) && 0 <= k <= 8
    ensures count <= k
  {
    if k == 0 then 0
    else
      SquareStepInRange(j, DIRECTIONS[k - 1]);
      NeighboursHolding(b, c, j, k - 1) + (if b[j + DIRECTIONS[k - 1]] == c then 1 else 0)
  }

  /** The (empty cell below n, direction) pairs whose neighbour holds c: potential moves against c. */
  function Frontier(b: seq<char>, c: char, n: int): (count: nat)
    requires WellFormed(b) && 0 <= n <= 100
    ensures count <= 8 * n
  {
    if n == 0 then 0
    else
      Frontier(b, c, n - 1) +
        (if b[n - 1] == EMPTY then (NotOuterIsSquare(b, n - 1); NeighboursHolding(b, c, n - 1, 8)) else 0)
  }

  /** The neighbour count from square j, as the inner loop of mobility_score accumulates it. */
  method CountNeighbours(board: seq<char>, j: int) returns (blackSide: nat, whiteSide: nat)
    requires |board| == 100 && IsSquare(j)
    ensures blackSide == NeighboursHolding(board, WHITE, j, 8)
    ensures whiteSide == NeighboursHolding(board, BLACK, j, 8)
  {
    blackSide, whiteSide := 0, 0;
    for k := 0 to 8
      invariant blackSide == NeighboursHolding(board, WHITE, j, k)
      invariant whiteSide == NeighboursHolding(board, BLACK, j, k)
    {
      var d := DIRECTIONS[k];
      SquareStepInRange(j, d);
      var s := board[j + d];
      if s == BLACK {
        whiteSide := whiteSide + 1;
      } else if s == WHITE {
        blackSide := blackSide + 1;
      }
    }
  }

  /**
    The integer parts of mobility_score: `actual` compares the numbers of valid
    moves of the two sides, `potential` the numbers of empty-cell/direction
    pairs next to an opponent disc.
   */
  method MobilityRatios(board: seq<char>) returns (actual: int, potential: int)
    requires WellFormed(board)
    ensures actual == Ratio(|ValidMoves(board, BLACK)|, |ValidMoves(board, WHITE)|)
    ensures potential == Ratio(Frontier(board, WHITE, 100), Frontier(board, BLACK, 100))
  {
    var blackMoves := GetValidMoves(board, BLACK);
    var whiteMoves := GetValidMoves(board, WHITE);
    actual := Ratio(|blackMoves|, |whiteMoves|);
    var b, w := 0, 0;
    for j := 0 to 100
      invariant b == Frontier(board, WHITE, j) && w == Frontier(board, BLACK, j)
    {
      if board[j] == EMPTY {
        NotOuterIsSquare(board, j);
        var blackSide, whiteSide := CountNeighbours(board, j);
        b, w := b + blackSide, w + whiteSide;
      }
    }
    potential := Ratio(b, w);
  }

  /** Exchanging the colours exchanges the neighbour counts of a square. */
  lemma {:induction false} NeighboursHoldingSwapped(b: seq<char>, j: int, k: int)
    requires |b| == 100 && IsSquare(j) && 0 <= k <= 8
    ensures NeighboursHolding(Swapped(b), BLACK, j, k) == NeighboursHolding(b, WHITE, j, k)
    ensures NeighboursHolding(Swapped(b), WHITE, j, k) == NeighboursHolding(b, BLACK, j, k)
  {
    if k > 0 {
      NeighboursHoldingSwapped(b, j, k - 1);
    }
  }

  /** A colour swap keeps a board well formed. */
  lemma SwappedWellFormed(b: seq<char>)
    requires WellFormed(b)
    ensures WellFormed(Swapped(b))
  {
    var r := Swapped(b);
    forall i | 0 <= i < 100
      ensures CellFits(r, i)
    {
      assert CellFits(b, i);
    }
  }

  /** Exchanging the colours exchanges the two frontier counts. */
  lemma {:induction false} FrontierSwapped(b: seq<char>, n: int)
    requires WellFormed(b) && 0 <= n <= 100
    ensures WellFormed(Swapped(b))
    ensures Frontier(Swapped(b), BLACK, n) == Frontier(b, WHITE, n)
    ensures Frontier(Swapped(b), WHITE, n) == Frontier(b, BLACK, n)
  {
    SwappedWellFormed(b);
    if n > 0 {
      FrontierSwapped(b, n - 1);
      if b[n - 1] == EMPTY {
        NotOuterIsSquare(b, n - 1);
        NeighboursHoldingSwapped(b, n - 1, 8);
      }
    }
  }

  /** So the potential-mobility ratio of the colour-swapped board is the negation. */
  lemma PotentialMobilityAntisymmetric(b: seq<char>)
    requires WellFormed(b)
    ensures WellFormed(Swapped(b))
    ensures Ratio(Frontier(Swapped(b), WHITE, 100), Frontier(Swapped(b), BLACK, 100)) ==
      -Ratio(Frontier(b, WHITE, 100), Frontier(b, BLACK, 100))
  {
    FrontierSwapped(b, 100);
    RatioAntisymmetric(Frontier(b, WHITE, 100), Frontier(b, BLACK, 100));
  }

  // ---------------------------------------------------------------------------
  // score2

  /** score2: 1 plus black's discs minus white's over indices 0..98. */
  method Score2(board: seq<char>) returns (score: int)
    requires |board| >= 99
    ensures score == 1 + |Discs(board, BLACK, 99)| - |Discs(board, WHITE, 99)|
  {
    score := 1;
    for i := 0 to 99
      invariant score == 1 + |Discs(board, BLACK, i)| - |Discs(board, WHITE, i)|
    {
      DiscsStep(board, BLACK, i);
      DiscsStep(board, WHITE, i);
      if board[i] == BLACK {
        score := score + 1;
      } else if board[i] == WHITE {
        score := score - 1;
      }
    }
  }

  /** One more cell adds itself to the discs of its colour and nothing to the others. */
  lemma DiscsStep(b: seq<char>, c: char, i: int)
    requires 0 <= i < |b|
    ensures Discs(b, c, i + 1) == Discs(b, c, i) + (if b[i] == c then {i} else {})
    ensures |Discs(b, c, i + 1)| == |Discs(b, c, i)| + (if b[i] == c then 1 else 0)
  {
    assert Discs(b, c, i + 1) == Discs(b, c, i) + (if b[i] == c then {i} else {});
  }

  /** On a well-formed board index 99 is OUTER, so score2 counts every disc. */
  lemma Score2CountsAllDiscs(b: seq<char>, c: Player)
    requires WellFormed(b)
    ensures Discs(b, c, 99) == Discs(b, c, 100)
  {
    RingIsOuter(b, 99);
    DiscsStep(b, c, 99);
  }

  /** A valid move by p raises p's margin in score2 by two per flipped disc plus one. */
  lemma Score2AfterMove(b: seq<char>, p: Player, move: int)
    requires WellFormed(b) && IsSquare(move) && IsMoveValid(b, p, move)
    ensures WellFormed(Flipped(b, p, move))
    ensures var r, f := Flipped(b, p, move), Flips(b, p, move);
      |Discs(r, p, 99)| - |Discs(r, Other(p), 99)| == |Discs(b, p, 99)| - |Discs(b, Other(p), 99)| + 2 * |f| + 1
  {
    FlippedWellFormed(b, p, move);
    FlippedCounts(b, p, move);
    var r := Flipped(b, p, move);
    Score2CountsAllDiscs(b, p);
    Score2CountsAllDiscs(b, Other(p));
    Score2CountsAllDiscs(r, p);
    Score2CountsAllDiscs(r, Other(p));
  }

}
