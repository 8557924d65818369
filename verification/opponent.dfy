/**
 The computer opponent's move: a random empty cell on the easy and medium
 levels, the cell the minimax search picks on the hard level, played through
 the same click handler a human uses.
 */
module Opponent {
  import opened Wrappers
  import opened Board
  import opened Game
  import opened Search

  /** The three difficulty levels. Medium plays exactly like easy. */
  datatype Difficulty = Easy | Medium | Hard

  /**
   The random pick: entry `k` of the ascending list of empty cells. Reading
   past the end of the list gives an undefined cell (`None`), which is what
   happens when no cell is empty and `k` is 0.
   */
  function RandomCell(b: Board, k: nat): (r: Option<Index>)
    ensures r.Some? <==> k < multiset(b)[Empty]
    ensures r.Some? ==> b[r.value] == Empty
  {
    EmptyCellsCount(b);
    var cells := EmptyCells(b);
    if k < |cells| then Some(cells[k]) else None
  }

  /** Every empty cell is the random pick for some index in range. */
  lemma RandomCellCovers(b: Board, e: Index)
    requires b[e] == Empty
    ensures exists k: nat :: k < multiset(b)[Empty] && RandomCell(b, k) == Some(e)
  {
    EmptyCellsCount(b);
    var j := EnumerationPosition(b, e);
    assert RandomCell(b, j) == Some(e);
  }

  /** Two different indices in range pick two different cells. */
  lemma RandomCellInjective(b: Board, k1: nat, k2: nat)
    requires k1 < multiset(b)[Empty] && k2 < multiset(b)[Empty]
    requires k1 != k2
    ensures RandomCell(b, k1) != RandomCell(b, k2)
  {
    EmptyCellsCount(b);
    var cells := EmptyCells(b);
    if k1 < k2 {
      assert cells[k1] < cells[k2];
    } else {
      assert cells[k2] < cells[k1];
    }
  }

  /**
   The random index of `makeRandomMove` is `floor(random * count)`, below the number
   of empty cells whenever there is one; the search needs no random index.
   */
  predicate PickInRange(b: Board, level: Difficulty, k: nat) {
    level == Hard || k < multiset(b)[Empty]
  }

  /** The cell the opponent clicks for the position `g` at `level`, random pick `k`. */
  function AIChoice(g: Game, level: Difficulty, k: nat): (r: Option<Index>)
    ensures r.Some? ==> g.board[r.value] == Empty
    ensures !Terminal(g.board) && PickInRange(g.board, level, k) ==> r.Some?
    ensures level != Hard ==> r == RandomCell(g.board, k)
  {
    match level
    case Easy => RandomCell(g.board, k)
    case Medium => RandomCell(g.board, k)
    case Hard => Minimax(g.board, g.current).index
  }

  /**
   The opponent's move, played through the click handler; an undefined cell
   reads as a cell that is not empty, so the handler ignores it.
   */
  function MakeAIMove(g: Game, level: Difficulty, k: nat): (r: Step)
    ensures r.status == Rejected ==> r.game == g
    ensures r.status != Rejected ==>
              AIChoice(g, level, k).Some? && r == HandleCellClick(g, AIChoice(g, level, k).value)
    ensures Terminal(g.board) ==> r.status == Rejected
    ensures !Terminal(g.board) && PickInRange(g.board, level, k) ==>
              && r.status != Rejected
              && var c := AIChoice(g, level, k).value;
              && g.board[c] == Empty
              && r.game.board == g.board[c := g.current]
  {
    match AIChoice(g, level, k)
    case None => Step(g, Rejected)
    case Some(c) =>
      var r := HandleCellClick(g, c);
      assert r.status != Rejected ==> r.game.board == g.board[c := g.current];
      r
  }

  /**
   On a board still in play the hard level plays an empty cell that no empty
   cell beats for the mover under the search's scores, the earliest such cell.
   */
  lemma HardPlaysBestCell(g: Game, k: nat)
    requires !Terminal(g.board)
    ensures var r := AIChoice(g, Hard, k);
            && r.Some?
            && g.board[r.value] == Empty
            && (forall e: Index :: g.board[e] == Empty ==>
                  !Beats(g.current, ChildScore(g.board, g.current, e), ChildScore(g.board, g.current, r.value)))
            && (forall e: Index :: e < r.value && g.board[e] == Empty ==>
                  Beats(g.current, ChildScore(g.board, g.current, r.value), ChildScore(g.board, g.current, e)))
  {
    MinimaxSelects(g.board, g.current);
  }

  /**
   A human click followed, when the game goes on and it is now "O"'s turn, by
   the opponent's reply, played at once instead of after a delay. The status
   is that of the last click handled: when the reply is ignored after an
   accepted human click, it is `Rejected` although the human's mark stays.
   */
  function Turn(g: Game, index: int, level: Difficulty, k: nat): (r: Step)
    ensures HandleCellClick(g, index).status == Rejected ==> r == Step(g, Rejected)
    ensures g.current == O ==> r == HandleCellClick(g, index)
    ensures var s := HandleCellClick(g, index);
            s.status == Won || s.status == Drawn ==> r == s
    ensures var s := HandleCellClick(g, index);
            g.current == X && s.status == Continues && PickInRange(s.game.board, level, k) ==>
              && r.status != Rejected
              && var c := AIChoice(s.game, level, k).value;
              && s.game.board[c] == Empty
              && r.game.board == s.game.board[c := O]
    ensures var s := HandleCellClick(g, index);
            g.current == X && s.status == Continues && PickInRange(s.game.board, level, k) ==>
              r == HandleCellClick(s.game, AIChoice(s.game, level, k).value)
  {
    var s := HandleCellClick(g, index);
    if s.status == Continues && s.game.current == O then
      PlacingFillsOneCell(g.board, index, X);
      MakeAIMove(s.game, level, k)
    else s
  }

  /**
   After a turn started with "X" to move, "X" is to move again unless the
   game is over: with the random index in range for the board the reply sees,
   the reply always lands, so the turn never stays with "O".
   */
  lemma TurnReturnsToX(g: Game, index: int, level: Difficulty, k: nat)
    requires g.current == X
    requires HandleCellClick(g, index).status == Continues ==>
               PickInRange(HandleCellClick(g, index).game.board, level, k)
    ensures var r := Turn(g, index, level, k);
            r.game.current == X || r.status == Won || r.status == Drawn
  {
  }

  /** With a single empty cell and no winner, every level plays that cell. */
  lemma SoleCellAtEveryLevel(g: Game, level: Difficulty, c: Index)
    requires !Decided(g.board)
    requires g.board[c] == Empty
    requires forall e: Index :: e != c ==> g.board[e] != Empty
    ensures AIChoice(g, level, 0) == Some(c)
  {
    SoleEmptyCell(g.board, c);
    if level == Hard {
      SoleCellIsChosen(g.board, g.current, c);
    }
  }
}
