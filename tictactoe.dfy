/**
  tictactoe.py: a 9-character board, the goal test over the eight lines,
  move generation, and exhaustive minimax with its strategy wrapper.
 */
module TicTacToe {

  import opened Optional
  import opened Ascending

  const X: char := 'X'
  const O: char := 'O'
  const BLANK: char := '.'

  /** A side to move: X or O. */
  type Mark = c: char | c == X || c == O witness X

  /** NEXT */
  function Next(player: Mark): (other: Mark)
    ensures other != player
  {
    if player == X then O else X
  }

  /** START_BOARD: nine blanks. */
  const START_BOARD: seq<char> := "........."

  /** UNITS = ROWS + COLS + DIAGS: the three rows, the three columns, then the two diagonals. */
  const UNITS: seq<seq<int>> := [[0, 1, 2], [3, 4, 5], [6, 7, 8], [0, 3, 6], [1, 4, 7], [2, 5, 8], [0, 4, 8], [2, 4, 6]]

  lemma UnitsShape()
    ensures |UNITS| == 8
    ensures forall u :: 0 <= u < 8 ==> |UNITS[u]| == 3 && forall k :: 0 <= k < 3 ==> 0 <= UNITS[u][k] < 9
  {
  }

  /** The outcomes of goal_test; their codes in the source are 1, -1, 2 and 3. */
  datatype Outcome = XWins | OWins | Tie | Continue

  /** SCORE: defined for the three finished outcomes only. */
  function Score(result: Outcome): (s: int)
    requires result != Continue
    ensures -1 <= s <= 1
    ensures s == 1 <==> result == XWins
    ensures s == -1 <==> result == OWins
  {
    match result
    case XWins => 1
    case OWins => -1
    case Tie => 0
  }

  // ---------------------------------------------------------------------------
  // goal_test

  /** Every cell of unit u holds c. */
  predicate AllAre(b: seq<char>, u: int, c: char)
    requires |b| == 9 && 0 <= u < 8
  {
    UnitsShape();
    forall k :: 0 <= k < 3 ==> b[UNITS[u][k]] == c
  }

  /** Unit u is won by one side. */
  predicate Uniform(b: seq<char>, u: int)
    requires |b| == 9 && 0 <= u < 8
  {
    AllAre(b, u, X) || AllAre(b, u, O)
  }

  /** goal_test's loop from unit u on: X is checked before O within a unit. */
  function GoalTestFrom(b: seq<char>, u: int): (result: Outcome)
    requires |b| == 9 && 0 <= u <= 8
    decreases 8 - u
  {
    if u == 8 then (if BLANK !in b then Tie else Continue)
    else if AllAre(b, u, X) then XWins
    else if AllAre(b, u, O) then OWins
    else GoalTestFrom(b, u + 1)
  }

  /** goal_test: an unfinished board still has a blank, a tied one has none. */
  function GoalTest(b: seq<char>): (result: Outcome)
    requires |b| == 9
    ensures result == Continue ==> BLANK in b
    ensures result == Tie ==> BLANK !in b
  {
    GoalTestFromMeaning(b, 0);
    GoalTestFrom(b, 0)
  }

  /**
    What goal_test decides from unit u on: the first uniform unit names the
    winner; without one, the board is a tie exactly when no blank remains.
   */
  lemma {:induction false} GoalTestFromMeaning(b: seq<char>, u: int)
    requires |b| == 9 && 0 <= u <= 8
    ensures GoalTestFrom(b, u) == XWins <==>
      exists v :: u <= v < 8 && AllAre(b, v, X) && forall w :: u <= w < v ==> !Uniform(b, w)
    ensures GoalTestFrom(b, u) == OWins <==>
      exists v :: u <= v < 8 && !AllAre(b, v, X) && AllAre(b, v, O) && forall w :: u <= w < v ==> !Uniform(b, w)
    ensures GoalTestFrom(b, u) == Tie <==> (forall v :: u <= v < 8 ==> !Uniform(b, v)) && BLANK !in b
    ensures GoalTestFrom(b, u) == Continue <==> (forall v :: u <= v < 8 ==> !Uniform(b, v)) && BLANK in b
    decreases 8 - u
  {
    if u < 8 {
      GoalTestFromMeaning(b, u + 1);
      if !Uniform(b, u) {
        if GoalTestFrom(b, u) == XWins {
          var v :| u + 1 <= v < 8 && AllAre(b, v, X) && forall w :: u + 1 <= w < v ==> !Uniform(b, w);
          assert forall w :: u <= w < v ==> !Uniform(b, w);
        }
        if exists v :: u <= v < 8 && AllAre(b, v, X) && forall w :: u <= w < v ==> !Uniform(b, w) {
          var v :| u <= v < 8 && AllAre(b, v, X) && forall w :: u <= w < v ==> !Uniform(b, w);
          assert u + 1 <= v;
        }
        if GoalTestFrom(b, u) == OWins {
          var v :| u + 1 <= v < 8 && !AllAre(b, v, X) && AllAre(b, v, O) && forall w :: u + 1 <= w < v ==> !Uniform(b, w);
          assert forall w :: u <= w < v ==> !Uniform(b, w);
        }
        if exists v :: u <= v < 8 && !AllAre(b, v, X) && AllAre(b, v, O) && forall w :: u <= w < v ==> !Uniform(b, w) {
          var v :| u <= v < 8 && !AllAre(b, v, X) && AllAre(b, v, O) && forall w :: u <= w < v ==> !Uniform(b, w);
          assert u + 1 <= v;
        }
      }
    }
  }

  // ---------------------------------------------------------------------------
  // get_moves and make_move

  /** The indices below n that hold a blank, ascending. */
  function BlanksBelow(b: seq<char>, n: int): (moves: seq<int>)
    requires 0 <= n <= |b|
    ensures StrictlyAscending(moves)
    ensures forall m :: m in moves <==> 0 <= m < n && b[m] == BLANK
    ensures forall i :: 0 <= i < |moves| ==> 0 <= moves[i] < n && b[moves[i]] == BLANK
  {
    if n == 0 then []
    else
      var earlier := BlanksBelow(b, n - 1);
      var last := if b[n - 1] == BLANK then [n - 1] else [];
      AppendAbove(earlier, last, n - 1);
      earlier + last
  }

  /** get_moves: the blank cells, in ascending order; the player is not consulted. */
  function GetMoves(b: seq<char>, player: Mark): (moves: seq<int>)
    ensures StrictlyAscending(moves)
    ensures forall m :: m in moves <==> 0 <= m < |b| && b[m] == BLANK
  {
    BlanksBelow(b, |b|)
  }

  /** There is a move exactly when a blank remains. */
  lemma MovesExistIffBlank(b: seq<char>, player: Mark)
    ensures |GetMoves(b, player)| > 0 <==> BLANK in b
  {
    var moves := GetMoves(b, player);
    if BLANK in b {
      var i :| 0 <= i < |b| && b[i] == BLANK;
      assert i in moves;
    }
    if |moves| > 0 {
      assert moves[0] in moves;
    }
  }

  /** The number of blanks left: the measure of the search. */
  function Blanks(b: seq<char>): nat {
    multiset(b)[BLANK]
  }

  /** make_move: the blank at `move` becomes the player's mark; the source asserts that it is blank. */
  function MakeMove(b: seq<char>, move: int, player: Mark): (r: seq<char>)
    requires 0 <= move < |b| && b[move] == BLANK
    ensures |r| == |b| && r[move] == player
    ensures forall i :: 0 <= i < |b| && i != move ==> r[i] == b[i]
  {
    b[..move] + [player] + b[move + 1..]
  }

  /** Each move fills one blank, so the search terminates. */
  lemma MakeMoveFillsBlank(b: seq<char>, move: int, player: Mark)
    requires 0 <= move < |b| && b[move] == BLANK
    ensures Blanks(MakeMove(b, move, player)) == Blanks(b) - 1
  {
    assert b == b[..move] + [b[move]] + b[move + 1..];
  }

  // ---------------------------------------------------------------------------
  // minimax

  /**
    What minimax hands back: on a finished board the source returns the
    class `node` carrying only a score; otherwise the chosen child, with
    its board, the move that led to it, and its score.
   */
  datatype SearchResult =
    | Terminal(score: int)
    | Chosen(board: seq<char>, lastMove: int, score: int)

  /** The index of the first child of highest score, as Python's max keeps the first maximum. */
  function FirstMax(cs: seq<SearchResult>, n: int): (best: int)
    requires 0 < n <= |cs|
    ensures 0 <= best < n
    ensures forall j :: 0 <= j < n ==> cs[j].score <= cs[best].score
    ensures forall j :: 0 <= j < best ==> cs[j].score < cs[best].score
  {
    if n == 1 then 0
    else
      var i := FirstMax(cs, n - 1);
      if cs[n - 1].score > cs[i].score then n - 1 else i
  }

  /** The index of the first child of lowest score, as Python's min keeps the first minimum. */
  function FirstMin(cs: seq<SearchResult>, n: int): (best: int)
    requires 0 < n <= |cs|
    ensures 0 <= best < n
    ensures forall j :: 0 <= j < n ==> cs[best].score <= cs[j].score
    ensures forall j :: 0 <= j < best ==> cs[best].score < cs[j].score
  {
    if n == 1 then 0
    else
      var i := FirstMin(cs, n - 1);
      if cs[n - 1].score < cs[i].score then n - 1 else i
  }

  /**
    minimax: the score SCORE[goal_test(board)] on a finished board;
    otherwise one child per move in get_moves order, each scored by minimax
    for the other side, and the first best child for the side to move.
   */
  function Minimax(b: seq<char>, player: Mark): (r: SearchResult)
    requires |b| == 9
    ensures -1 <= r.score <= 1
    ensures r.Chosen? ==> 0 <= r.lastMove < 9 && b[r.lastMove] == BLANK
    decreases Blanks(b)
  {
    var result := GoalTest(b);
    if result != Continue then Terminal(Score(result))
    else
      var moves := GetMoves(b, player);
      MovesExistIffBlank(b, player);
      var children := Children(b, player, moves);
      if player == X then children[FirstMax(children, |children|)]
      else children[FirstMin(children, |children|)]
  }

  /** The children of a node, one per move, each scored by minimax for the other side. */
  function Children(b: seq<char>, player: Mark, moves: seq<int>): (cs: seq<SearchResult>)
    requires |b| == 9
    requires forall i :: 0 <= i < |moves| ==> 0 <= moves[i] < 9 && b[moves[i]] == BLANK
    ensures |cs| == |moves|
    ensures forall i :: 0 <= i < |cs| ==>
      cs[i].Chosen? && cs[i].lastMove == moves[i] && cs[i].board == MakeMove(b, moves[i], player) && -1 <= cs[i].score <= 1
    decreases Blanks(b), 0
  {
    seq(|moves|, i requires 0 <= i < |moves| =>
      MakeMoveFillsBlank(b, moves[i], player);
      var child := MakeMove(b, moves[i], player);
      Chosen(child, moves[i], Minimax(child, Next(player)).score))
  }

  /** The value minimax gives the child reached by `move`. */
  function ChildScore(b: seq<char>, player: Mark, move: int): int
    requires |b| == 9 && 0 <= move < 9 && b[move] == BLANK
    decreases Blanks(b), 1
  {
    MakeMoveFillsBlank(b, move, player);
    Minimax(MakeMove(b, move, player), Next(player)).score
  }

  /** minimax stops exactly on a finished board, and scores it by SCORE. */
  lemma MinimaxTerminal(b: seq<char>, player: Mark)
    requires |b| == 9
    ensures var r := Minimax(b, player);
      (r.Terminal? <==> GoalTest(b) != Continue) && (r.Terminal? ==> r.score == Score(GoalTest(b)))
  {
  }

  /** The child minimax chooses is reached by one of get_moves' moves, played by the side to move. */
  lemma MinimaxChosenChild(b: seq<char>, player: Mark)
    requires |b| == 9
    ensures var r := Minimax(b, player);
      r.Chosen? ==> r.lastMove in GetMoves(b, player) && r.board == MakeMove(b, r.lastMove, player)
  {
  }

  /** The children minimax builds, scored as ChildScore scores them. */
  lemma ChildrenScores(b: seq<char>, player: Mark)
    requires |b| == 9
    ensures var moves := GetMoves(b, player); var cs := Children(b, player, moves);
      forall j :: 0 <= j < |cs| ==> cs[j].score == ChildScore(b, player, moves[j])
  {
  }

  /**
    Children listed in ascending move order: the first child of highest
    score beats every child with a lower move.
   */
  lemma FirstMaxChoice(cs: seq<SearchResult>, moves: seq<int>)
    requires 0 < |cs| == |moves|
    requires StrictlyAscending(moves)
    requires forall i :: 0 <= i < |cs| ==> cs[i].Chosen? && cs[i].lastMove == moves[i]
    ensures var r := cs[FirstMax(cs, |cs|)];
      r.Chosen? && forall j :: 0 <= j < |cs| && moves[j] < r.lastMove ==> cs[j].score < r.score
  {
  }

  /**
    Children listed in ascending move order: the first child of lowest
    score beats every child with a lower move.
   */
  lemma FirstMinChoice(cs: seq<SearchResult>, moves: seq<int>)
    requires 0 < |cs| == |moves|
    requires StrictlyAscending(moves)
    requires forall i :: 0 <= i < |cs| ==> cs[i].Chosen? && cs[i].lastMove == moves[i]
    ensures var r := cs[FirstMin(cs, |cs|)];
      r.Chosen? && forall j :: 0 <= j < |cs| && moves[j] < r.lastMove ==> r.score < cs[j].score
  {
  }

  /** On an unfinished board minimax returns the first best child for the side to move. */
  lemma MinimaxPicks(b: seq<char>, player: Mark)
    requires |b| == 9 && GoalTest(b) == Continue
    ensures var cs := Children(b, player, GetMoves(b, player));
      0 < |cs| &&
      Minimax(b, player) == if player == X then cs[FirstMax(cs, |cs|)] else cs[FirstMin(cs, |cs|)]
  {
    MovesExistIffBlank(b, player);
  }

  /** On an unfinished board X picks a child of maximal score. */
  lemma MinimaxMaximisesForX(b: seq<char>)
    requires |b| == 9 && GoalTest(b) == Continue
    ensures var r, moves := Minimax(b, X), GetMoves(b, X);
      r.Chosen? && r.score == ChildScore(b, X, r.lastMove) &&
      forall j :: 0 <= j < |moves| ==> ChildScore(b, X, moves[j]) <= r.score
  {
    MinimaxPicks(b, X);
    ChildrenScores(b, X);
  }

  /** Among X's best children the lowest move wins: every lower move scores strictly less. */
  lemma MinimaxTieBreakForX(b: seq<char>)
    requires |b| == 9 && GoalTest(b) == Continue
    ensures var r, moves := Minimax(b, X), GetMoves(b, X);
      r.Chosen? && forall j :: 0 <= j < |moves| && moves[j] < r.lastMove ==> ChildScore(b, X, moves[j]) < r.score
  {
    var moves := GetMoves(b, X);
    var cs := Children(b, X, moves);
    MinimaxPicks(b, X);
    FirstMaxChoice(cs, moves);
    ChildrenScores(b, X);
  }

  /** On an unfinished board O picks a child of minimal score. */
  lemma MinimaxMinimisesForO(b: seq<char>)
    requires |b| == 9 && GoalTest(b) == Continue
    ensures var r, moves := Minimax(b, O), GetMoves(b, O);
      r.Chosen? && r.score == ChildScore(b, O, r.lastMove) &&
      forall j :: 0 <= j < |moves| ==> r.score <= ChildScore(b, O, moves[j])
  {
    MinimaxPicks(b, O);
    ChildrenScores(b, O);
  }

  /** Among O's best children the lowest move wins: every lower move scores strictly more. */
  lemma MinimaxTieBreakForO(b: seq<char>)
    requires |b| == 9 && GoalTest(b) == Continue
    ensures var r, moves := Minimax(b, O), GetMoves(b, O);
      r.Chosen? && forall j :: 0 <= j < |moves| && moves[j] < r.lastMove ==> r.score < ChildScore(b, O, moves[j])
  {
    var moves := GetMoves(b, O);
    var cs := Children(b, O, moves);
    MinimaxPicks(b, O);
    FirstMinChoice(cs, moves);
    ChildrenScores(b, O);
  }

  /** minimax_strategy: the centre on the empty board; None where the source reads last_move off the bare class. */
  function MinimaxStrategy(b: seq<char>, player: Mark): (move: Option<int>)
    requires |b| == 9
    ensures b == START_BOARD ==> move == Some(4)
    ensures b != START_BOARD ==> (move.None? <==> GoalTest(b) != Continue)
    ensures move.Some? ==> 0 <= move.value < 9 && b[move.value] == BLANK
    ensures b != START_BOARD && move.Some? ==> move.value in GetMoves(b, player)
    ensures b != START_BOARD && move.Some? ==> move.value == Minimax(b, player).lastMove
  {
    if b == START_BOARD then Some(4)
    else
      MinimaxTerminal(b, player);
      MinimaxChosenChild(b, player);
      match Minimax(b, player)
      case Terminal(_) => None
      case Chosen(_, lastMove, _) => Some(lastMove)
  }

  /**
    Away from the opening, the strategy plays a move of best minimax value for
    the side to move, and no lower move is as good.
   */
  lemma MinimaxStrategyIsOptimal(b: seq<char>, player: Mark)
    requires |b| == 9 && b != START_BOARD && GoalTest(b) == Continue
    ensures var move, moves := MinimaxStrategy(b, player), GetMoves(b, player);
      move.Some? && 0 <= move.value < 9 && b[move.value] == BLANK &&
      forall j :: 0 <= j < |moves| ==>
        (player == X ==> ChildScore(b, X, moves[j]) <= ChildScore(b, X, move.value)) &&
        (player == O ==> ChildScore(b, O, move.value) <= ChildScore(b, O, moves[j])) &&
        (moves[j] < move.value ==> ChildScore(b, player, moves[j]) != ChildScore(b, player, move.value))
  {
    if player == X {
      MinimaxMaximisesForX(b);
      MinimaxTieBreakForX(b);
    } else {
      MinimaxMinimisesForO(b);
      MinimaxTieBreakForO(b);
    }
  }

}
