/**
  The Othello board of othello.py: a 100-character string holding the 8x8
  playing area surrounded by a ring of OUTER cells, so that a scan in any of
  the eight directions stops on the ring before it leaves the string.
  Square (r, c) of the playing area sits at index 10*(r+1) + (c+1).
 */
module OthelloBoard {

  const EMPTY: char := '.'
  const BLACK: char := '@'
  const WHITE: char := 'o'
  const OUTER: char := '?'

  /** The two sides; the source keys OTHER and STABLE_PIECES by these characters. */
  type Player = c: char | c == BLACK || c == WHITE witness BLACK

  /** OTHER[player] */
  function Other(p: Player): (q: Player)
    ensures q != p
  {
    if p == BLACK then WHITE else BLACK
  }

  const N: int := -10
  const S: int := 10
  const E: int := 1
  const W: int := -1
  const NE: int := N + E
  const SE: int := S + E
  const NW: int := N + W
  const SW: int := S + W

  /** The offset of one of the eight compass directions in the padded layout. */
  type Direction = d: int | d == N || d == NE || d == E || d == SE || d == S || d == SW || d == W || d == NW
    witness N

  /** The scan order of every `for d in DIRECTIONS` loop. */
  const DIRECTIONS: seq<Direction> := [N, NE, E, SE, S, SW, W, NW]

  lemma DirectionsAreDistinct()
    ensures |DIRECTIONS| == 8
    ensures forall j, k :: 0 <= j < k < 8 ==> DIRECTIONS[j] != DIRECTIONS[k]
  {
  }

  function Row(i: int): int { i / 10 }
  function Col(i: int): int { i % 10 }

  /** A cell of the 8x8 playing area, as opposed to the OUTER ring. */
  predicate IsSquare(i: int) {
    0 <= i < 100 && 1 <= Row(i) <= 8 && 1 <= Col(i) <= 8
  }

  /** What a cell of a well-formed board may hold: OUTER on the ring, EMPTY or a disc on the playing area. */
  predicate CellFits(b: seq<char>, i: int)
    requires 0 <= i < |b|
  {
    if IsSquare(i) then b[i] == EMPTY || b[i] == BLACK || b[i] == WHITE else b[i] == OUTER
  }

  /** The board invariant: 100 cells, each fitting its place. */
  predicate WellFormed(b: seq<char>) {
    |b| == 100 && forall i {:trigger CellFits(b, i)} :: 0 <= i < 100 ==> CellFits(b, i)
  }

  /** Every non-OUTER cell of a well-formed board is a playing square. */
  lemma NotOuterIsSquare(b: seq<char>, i: int)
    requires WellFormed(b) && 0 <= i < 100 && b[i] != OUTER
    ensures IsSquare(i) && 11 <= i <= 88
  {
    assert CellFits(b, i);
  }

  /** One step from a playing square stays on the board. */
  lemma SquareStepInRange(s: int, d: Direction)
    requires IsSquare(s)
    ensures 0 <= s + d < 100
  {
  }

  /** One step back from a playing square stays on the board. */
  lemma SquareStepBackInRange(s: int, d: Direction)
    requires IsSquare(s)
    ensures 0 <= s - d < 100
  {
  }

  /** One step from a non-OUTER cell of a well-formed board stays on the board. */
  lemma NextInRange(b: seq<char>, s: int, d: Direction)
    requires WellFormed(b) && 0 <= s < 100 && b[s] != OUTER
    ensures 0 <= s + d < 100
  {
    NotOuterIsSquare(b, s);
  }

  /** Every cell of the ring of a well-formed board is OUTER. */
  lemma RingIsOuter(b: seq<char>, i: int)
    requires WellFormed(b) && 0 <= i < 100 && !IsSquare(i)
    ensures b[i] == OUTER
  {
    assert CellFits(b, i);
  }

  /** Every playing square of a well-formed board holds EMPTY or a disc. */
  lemma SquareIsNotOuter(b: seq<char>, i: int)
    requires WellFormed(b) && IsSquare(i)
    ensures b[i] != OUTER
  {
    assert CellFits(b, i);
  }

  /** Putting EMPTY or a disc where EMPTY or a disc was keeps the board well formed. */
  lemma UpdateKeepsWellFormed(b: seq<char>, i: int, c: char)
    requires WellFormed(b) && 0 <= i < 100 && b[i] != OUTER && (c == EMPTY || c == BLACK || c == WHITE)
    ensures WellFormed(b[i := c])
  {
    NotOuterIsSquare(b, i);
    var b' := b[i := c];
    forall j | 0 <= j < 100
      ensures CellFits(b', j)
    {
      assert CellFits(b, j);
    }
  }

  /**
    Row r (0..9) of the source's starting-board literal: the OUTER ring,
    WHITE-BLACK on row 4 and BLACK-WHITE on row 5 in the centre, EMPTY elsewhere.
   */
  function StartingRow(r: int): (row: seq<char>)
    ensures |row| == 10
  {
    if r == 0 || r == 9 then "??????????"
    else if r == 4 then "?...o@...?"
    else if r == 5 then "?...@o...?"
    else "?........?"
  }

  /** get_starting_board: the source's 100-character literal, laid out row by row. */
  function StartingBoard(): (b: seq<char>)
    ensures |b| == 100
  {
    seq(100, i requires 0 <= i < 100 => StartingRow(Row(i))[Col(i)])
  }

  lemma StartingBoardLayout()
    ensures WellFormed(StartingBoard())
    ensures var b := StartingBoard(); b[44] == WHITE && b[45] == BLACK && b[54] == BLACK && b[55] == WHITE
    ensures var b := StartingBoard(); forall i :: IsSquare(i) && i != 44 && i != 45 && i != 54 && i != 55 ==> b[i] == EMPTY
  {
  }

  // ---------------------------------------------------------------------------
  // Geometry of the padded linear layout

  function Sign(x: int): int {
    if x > 0 then 1 else if x < 0 then -1 else 0
  }

  /** Row step of a direction. */
  function DRow(d: Direction): int
  {
    if d <= -9 then -1 else if d >= 9 then 1 else 0
  }

  /** Column step of a direction. */
  function DCol(d: Direction): int
  {
    d - 10 * DRow(d)
  }

  /**
    The compass heading from cell m to cell i, written as the direction
    offset it corresponds to (0 when i == m). Every cell that a scan from m in
    direction d visits has heading d, so scans in different directions
    never visit the same cell. The cells with heading d form the ray from m
    for N, E, S and W, but a whole quadrant for a diagonal d; the lemmas
    below call this set the sector of d.
   */
  function Heading(m: int, i: int): int {
    10 * Sign(Row(i) - Row(m)) + Sign(Col(i) - Col(m))
  }

  /** Moving one step from a playing square changes row and column by the direction's steps. */
  lemma Step(s: int, d: Direction)
    requires IsSquare(s)
    ensures 0 <= s + d < 100
    ensures Row(s + d) == Row(s) + DRow(d) && Col(s + d) == Col(s) + DCol(d)
  {
    var r, c := Row(s), Col(s);
    assert s == 10 * r + c;
    assert s + d == 10 * (r + DRow(d)) + (c + DCol(d));
    assert 0 <= c + DCol(d) < 10;
  }

  lemma HeadingOfNeighbour(m: int, d: Direction)
    requires IsSquare(m)
    ensures Heading(m, m + d) == d
  {
    Step(m, d);
    assert Row(m + d) - Row(m) == DRow(d) && Col(m + d) - Col(m) == DCol(d);
    SignOfStep(d);
  }

  lemma SignOfStep(d: Direction)
    ensures Sign(DRow(d)) == DRow(d) && Sign(DCol(d)) == DCol(d)
    ensures 10 * DRow(d) + DCol(d) == d
  {
  }

  lemma HeadingOfNextCell(m: int, s: int, d: Direction)
    requires IsSquare(s) && Heading(m, s) == d
    ensures Heading(m, s + d) == d
  {
    Step(s, d);
    assert Sign(Row(s) - Row(m)) == DRow(d) && Sign(Col(s) - Col(m)) == DCol(d);
  }

  lemma HeadingOfSelf(m: int)
    ensures Heading(m, m) == 0
  {
  }

  // ---------------------------------------------------------------------------
  // Scans along a direction, and the sector they stay in

  /** The measure that makes every scan along d terminate. */
  function ScanMeasure(s: int, d: Direction): int {
    if d > 0 then 100 - s else s
  }

  /**
    The cells visited by `while board[s] == c: s += d` started at s: the
    maximal run of c-cells from s along d.
   */
  function RunCells(b: seq<char>, c: Player, s: int, d: Direction): (r: set<int>)
    requires WellFormed(b) && 0 <= s < 100
    ensures forall i :: i in r ==> 0 <= i < 100 && b[i] == c
    ensures forall i :: i in r ==> if d > 0 then s <= i else i <= s
    ensures b[s] == c <==> s in r
    decreases ScanMeasure(s, d)
  {
    if b[s] == c then
      NextInRange(b, s, d);
      {s} + RunCells(b, c, s + d, d)
    else
      {}
  }

  /** The cell at which that scan stops: the first cell from s along d that is not c. */
  function ScanEnd(b: seq<char>, c: Player, s: int, d: Direction): (e: int)
    requires WellFormed(b) && 0 <= s < 100
    ensures 0 <= e < 100 && b[e] != c
    decreases ScanMeasure(s, d)
  {
    if b[s] == c then
      NextInRange(b, s, d);
      ScanEnd(b, c, s + d, d)
    else
      s
  }

  /** A scan that starts on c continues from the next cell along d. */
  lemma ScanEndStep(b: seq<char>, c: Player, s: int, d: Direction)
    requires WellFormed(b) && 0 <= s < 100 && b[s] == c
    ensures 0 <= s + d < 100 && ScanEnd(b, c, s, d) == ScanEnd(b, c, s + d, d)
  {
    NextInRange(b, s, d);
  }

  /** The cell j steps from s along d, that is s + j * d. */
  function Along(s: int, j: nat, d: Direction): int {
    if j == 0 then s else Along(s, j - 1, d) + d
  }

  /** Taking the first step first: j steps from s are j - 1 steps from s + d. */
  lemma {:induction false} AlongShift(s: int, j: nat, d: Direction)
    requires 1 <= j
    ensures Along(s, j, d) == Along(s + d, j - 1, d)
  {
    if j > 1 {
      AlongShift(s, j - 1, d);
    }
  }

  /**
    A scan over c-cells stops k steps along d from where it starts, for some
    k, and every cell before that holds c.
   */
  lemma {:induction false} ScanEndOnLine(b: seq<char>, c: Player, s: int, d: Direction) returns (k: nat)
    requires WellFormed(b) && 0 <= s < 100
    ensures ScanEnd(b, c, s, d) == Along(s, k, d)
    ensures forall j: nat :: j < k ==> 0 <= Along(s, j, d) < 100 && b[Along(s, j, d)] == c
    decreases ScanMeasure(s, d)
  {
    if b[s] != c {
      return 0;
    }
    ScanEndStep(b, c, s, d);
    var rest := ScanEndOnLine(b, c, s + d, d);
    k := rest + 1;
    AlongShift(s, k, d);
    forall j: nat | j < k
      ensures 0 <= Along(s, j, d) < 100 && b[Along(s, j, d)] == c
    {
      if j > 0 {
        AlongShift(s, j, d);
      }
    }
  }

  /** A scan that starts on a cell with heading d from m visits only cells with heading d. */
  lemma {:induction false} RunStaysOnRay(b: seq<char>, c: Player, m: int, s: int, d: Direction)
    requires WellFormed(b) && 0 <= s < 100 && Heading(m, s) == d
    ensures forall i :: i in RunCells(b, c, s, d) ==> Heading(m, i) == d
    decreases ScanMeasure(s, d)
  {
    if b[s] == c {
      NotOuterIsSquare(b, s);
      Step(s, d);
      HeadingOfNextCell(m, s, d);
      RunStaysOnRay(b, c, m, s + d, d);
      assert RunCells(b, c, s, d) == {s} + RunCells(b, c, s + d, d);
    }
  }

  lemma {:induction false} ScanEndOnRay(b: seq<char>, c: Player, m: int, s: int, d: Direction)
    requires WellFormed(b) && 0 <= s < 100 && Heading(m, s) == d
    ensures Heading(m, ScanEnd(b, c, s, d)) == d
    decreases ScanMeasure(s, d)
  {
    if b[s] == c {
      NotOuterIsSquare(b, s);
      Step(s, d);
      HeadingOfNextCell(m, s, d);
      ScanEndOnRay(b, c, m, s + d, d);
    }
  }

  /** The two boards agree on every cell with heading d from m. */
  predicate AgreeOnRay(b1: seq<char>, b2: seq<char>, m: int, d: Direction)
    requires |b1| == 100 && |b2| == 100
  {
    forall i :: 0 <= i < 100 && Heading(m, i) == d ==> b1[i] == b2[i]
  }

  /** Two boards that agree on every cell with heading d from m scan alike along d. */
  lemma {:induction false} RunAgrees(b1: seq<char>, b2: seq<char>, c: Player, m: int, s: int, d: Direction)
    requires WellFormed(b1) && WellFormed(b2) && 0 <= s < 100 && Heading(m, s) == d
    requires AgreeOnRay(b1, b2, m, d)
    ensures RunCells(b1, c, s, d) == RunCells(b2, c, s, d)
    decreases ScanMeasure(s, d)
  {
    assert b1[s] == b2[s];
    if b1[s] == c {
      NotOuterIsSquare(b1, s);
      Step(s, d);
      HeadingOfNextCell(m, s, d);
      RunAgrees(b1, b2, c, m, s + d, d);
    }
  }

  lemma {:induction false} ScanEndAgrees(b1: seq<char>, b2: seq<char>, c: Player, m: int, s: int, d: Direction)
    requires WellFormed(b1) && WellFormed(b2) && 0 <= s < 100 && Heading(m, s) == d
    requires AgreeOnRay(b1, b2, m, d)
    ensures ScanEnd(b1, c, s, d) == ScanEnd(b2, c, s, d)
    decreases ScanMeasure(s, d)
  {
    assert b1[s] == b2[s];
    if b1[s] == c {
      NotOuterIsSquare(b1, s);
      Step(s, d);
      HeadingOfNextCell(m, s, d);
      ScanEndAgrees(b1, b2, c, m, s + d, d);
    }
  }

  // ---------------------------------------------------------------------------
  // Counting discs

  /** The cells below n that hold c. */
  function Discs(b: seq<char>, c: char, n: int): set<int>
    requires 0 <= n <= |b|
  {
    set i | 0 <= i < n && b[i] == c
  }

  /** The board with the colours of the two sides exchanged. */
  function Swapped(b: seq<char>): (r: seq<char>)
    ensures |r| == |b|
    ensures forall i :: 0 <= i < |b| && b[i] == BLACK ==> r[i] == WHITE
    ensures forall i :: 0 <= i < |b| && b[i] == WHITE ==> r[i] == BLACK
    ensures forall i :: 0 <= i < |b| && b[i] != BLACK && b[i] != WHITE ==> r[i] == b[i]
  {
    seq(|b|, i requires 0 <= i < |b| => if b[i] == BLACK then WHITE else if b[i] == WHITE then BLACK else b[i])
  }

}
