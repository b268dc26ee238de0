/**
  The opening position of othello.py's get_starting_board: the discs it
  holds, BLACK's legal first moves, and what game_over says about it.
 */
module OthelloOpening {
  import opened OthelloBoard
  import opened OthelloMoves
  import opened Ascending

  /** The discs of the starting position: WHITE on 44 and 55, BLACK on 45 and 54, nothing else. */
  predicate OpeningDiscs(b: seq<char>)
  {
    WellFormed(b) &&
    forall i :: 0 <= i < 100 ==> (b[i] == WHITE <==> i == 44 || i == 55) && (b[i] == BLACK <==> i == 45 || i == 54)
  }

  /** get_starting_board places exactly those four discs. */
  lemma StartingBoardDiscs()
    ensures OpeningDiscs(StartingBoard())
  {
    var b := StartingBoard();
    StartingBoardLayout();
    forall i | 0 <= i < 100
      ensures (b[i] == WHITE <==> i == 44 || i == 55) && (b[i] == BLACK <==> i == 45 || i == 54)
    {
      if !IsSquare(i) {
        RingIsOuter(b, i);
      }
    }
  }

  /** A scan over WHITE from one of the two WHITE discs ends on BLACK only southward or eastward from 44 and northward or westward from 55. */
  lemma ScanFromWhite(b: seq<char>, w: int, d: Direction)
    requires OpeningDiscs(b) && (w == 44 || w == 55)
    ensures b[ScanEnd(b, WHITE, w, d)] == BLACK <==> (w == 44 && (d == S || d == E)) || (w == 55 && (d == N || d == W))
  {
    ScanEndStep(b, WHITE, w, d);
    var n := w + d;
    if b[n] == WHITE {
      ScanEndStep(b, WHITE, n, d);
      assert b[n + d] != BLACK;
    }
  }

  /** BLACK brackets only from 34 southward, 43 eastward, 56 westward and 65 northward. */
  lemma OpeningBrackets(b: seq<char>, m: int, d: Direction)
    requires OpeningDiscs(b) && IsSquare(m)
    ensures Brackets(b, BLACK, m, d) <==>
      (m == 34 && d == S) || (m == 43 && d == E) || (m == 56 && d == W) || (m == 65 && d == N)
  {
    SquareStepInRange(m, d);
    if m + d == 44 || m + d == 55 {
      ScanFromWhite(b, m + d, d);
    }
  }

  /** BLACK's legal moves in the opening position are 34, 43, 56 and 65. */
  lemma OpeningValid(b: seq<char>, m: int)
    requires OpeningDiscs(b) && 0 <= m < 100
    ensures IsMoveValid(b, BLACK, m) <==> m == 34 || m == 43 || m == 56 || m == 65
  {
    assert CellFits(b, 34) && CellFits(b, 43) && CellFits(b, 56) && CellFits(b, 65);
    if b[m] == EMPTY {
      NotOuterIsSquare(b, m);
      DirectionsAreDistinct();
      forall k | 0 <= k < 8
        ensures Brackets(b, BLACK, m, DIRECTIONS[k]) <==>
          (m == 34 && DIRECTIONS[k] == S) || (m == 43 && DIRECTIONS[k] == E) || (m == 56 && DIRECTIONS[k] == W) || (m == 65 && DIRECTIONS[k] == N)
      {
        OpeningBrackets(b, m, DIRECTIONS[k]);
      }
      assert DIRECTIONS[4] == S && DIRECTIONS[2] == E && DIRECTIONS[6] == W && DIRECTIONS[0] == N;
    }
  }

  /** A strictly ascending list holding exactly 34, 43, 56 and 65 is that list. */
  lemma AscendingOpening(s: seq<int>)
    requires StrictlyAscending(s)
    requires forall x :: x in s <==> x == 34 || x == 43 || x == 56 || x == 65
    ensures s == [34, 43, 56, 65]
  {
    assert 34 in s && 43 in s && 56 in s && 65 in s;
    var i0 :| 0 <= i0 < |s| && s[i0] == 34;
    var i1 :| 0 <= i1 < |s| && s[i1] == 43;
    var i2 :| 0 <= i2 < |s| && s[i2] == 56;
    var i3 :| 0 <= i3 < |s| && s[i3] == 65;
    assert i0 < i1 < i2 < i3;
    assert s[0] in s && s[1] in s && s[2] in s && s[3] in s && s[|s| - 1] in s;
    assert i0 == 0 && i1 == 1 && i2 == 2 && i3 == 3 == |s| - 1;
  }

  /** On the starting board get_valid_moves gives BLACK the list [34, 43, 56, 65]. */
  lemma StartingBlackMoves()
    ensures WellFormed(StartingBoard()) && ValidMoves(StartingBoard(), BLACK) == [34, 43, 56, 65]
  {
    var b := StartingBoard();
    StartingBoardDiscs();
    forall m | 0 <= m < 100
      ensures IsMoveValid(b, BLACK, m) <==> m == 34 || m == 43 || m == 56 || m == 65
    {
      OpeningValid(b, m);
    }
    AscendingOpening(ValidMoves(b, BLACK));
  }

  /**
    game_over as written declares the starting position over, although
    BLACK, the side to move, has four legal moves; the documented test
    does not.
   */
  lemma GameOverAtStart()
    ensures WellFormed(StartingBoard())
    ensures GameOver(StartingBoard(), BLACK) && !GameOverIntended(StartingBoard(), BLACK)
  {
    StartingBoardDiscs();
    OpeningValid(StartingBoard(), 34);
  }
}
