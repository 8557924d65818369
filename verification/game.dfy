/**
 The state of one game and the click handler that advances it: reject the
 click, place the current mark, detect a win or a draw, hand the turn over.
 */
module Game {
  import opened Board

  /** The board and the mark whose turn it is. */
  datatype Game = Game(board: Board, current: Player)

  /** What a click did: ignored, ended the game with a win or a draw, or passed the turn on. */
  datatype Status = Rejected | Won | Drawn | Continues

  datatype Step = Step(game: Game, status: Status)

  /** A fresh game: every cell empty, "X" to move. */
  function NewGame(): (g: Game)
    ensures g.current == X
    ensures forall i: Index :: g.board[i] == Empty
  {
    Game(EmptyBoard, X)
  }

  /** The guard of the click handler: the cell exists, is empty, and nobody has won yet. */
  ghost predicate Playable(g: Game, index: int) {
    0 <= index < 9 && g.board[index] == Empty && !Decided(g.board)
  }

  /**
   The click handler without its rendering. An index outside the grid reads an
   undefined cell, which is not the empty string, so such a click is ignored
   like one on an occupied cell.
   */
  function HandleCellClick(g: Game, index: int): (r: Step)
    ensures r.status == Rejected <==> !Playable(g, index)
    ensures r.status == Rejected ==> r.game == g
    ensures r.status != Rejected ==>
              && r.game.board[index] == g.current
              && (forall j: Index :: j != index ==> r.game.board[j] == g.board[j])
    ensures r.status == Won <==> Playable(g, index) && Decided(r.game.board)
    ensures r.status == Drawn <==>
              Playable(g, index) && !Decided(r.game.board) && Full(r.game.board)
    ensures r.status == Continues ==> r.game.current == Other(g.current)
    ensures r.status == Won || r.status == Drawn ==> r.game.current == g.current
  {
    CheckWinnerIsEitherWin(g.board);
    if !(0 <= index < 9) || g.board[index] != Empty || CheckWinner(g.board) then
      Step(g, Rejected)
    else
      var board := g.board[index := g.current];
      CheckWinnerIsEitherWin(board);
      if CheckWinner(board) then
        Step(Game(board, g.current), Won)
      else if !Full(board) then
        Step(Game(board, Other(g.current)), Continues)
      else
        Step(Game(board, g.current), Drawn)
  }

  /** When a click wins the game, the winning line belongs to the player who clicked. */
  lemma WinnerIsMover(g: Game, index: int)
    requires HandleCellClick(g, index).status == Won
    ensures HasLine(HandleCellClick(g, index).game.board, g.current)
    ensures !HasLine(HandleCellClick(g, index).game.board, Other(g.current))
  {
    OnlyMoverCanWin(g.board, index, g.current);
  }

  /** The game after a sequence of clicks, each handled in turn. */
  function Run(g: Game, clicks: seq<int>): (r: Game)
    decreases |clicks|
  {
    if clicks == [] then g else Run(HandleCellClick(g, clicks[0]).game, clicks[1..])
  }

  /** One click never leaves both marks with a line when the board had at most one. */
  lemma ClickKeepsSingleWinner(g: Game, index: int)
    requires !(HasLine(g.board, X) && HasLine(g.board, O))
    ensures var g' := HandleCellClick(g, index).game;
            !(HasLine(g'.board, X) && HasLine(g'.board, O))
  {
    if Playable(g, index) {
      OnlyMoverCanWin(g.board, index, g.current);
    }
  }

  /**
   However the clicks fall, never both marks have three in a row, starting
   from any board where they do not, a fresh game among them.
   */
  lemma {:induction false} NeverTwoWinners(g: Game, clicks: seq<int>)
    requires !(HasLine(g.board, X) && HasLine(g.board, O))
    ensures var g' := Run(g, clicks);
            !(HasLine(g'.board, X) && HasLine(g'.board, O))
    decreases |clicks|
  {
    if clicks != [] {
      ClickKeepsSingleWinner(g, clicks[0]);
      NeverTwoWinners(HandleCellClick(g, clicks[0]).game, clicks[1..]);
    }
  }

  /** Once a click has won or drawn the game, every later click is ignored. */
  lemma {:induction false} FinishedGameIsFrozen(g: Game, clicks: seq<int>)
    requires Decided(g.board) || Full(g.board)
    ensures Run(g, clicks) == g
    decreases |clicks|
  {
    if clicks != [] {
      assert !Playable(g, clicks[0]);
      FinishedGameIsFrozen(g, clicks[1..]);
    }
  }

  /** X holds cells 0 and 1, O holds cells 3 and 4: X playing cell 2 wins on the top row. */
  lemma TopRowScenario()
    ensures var g := Game([X, X, Empty, O, O, Empty, Empty, Empty, Empty], X);
            var r := HandleCellClick(g, 2);
            r.status == Won && HasLine(r.game.board, X)
  {
    var before: Board := [X, X, Empty, O, O, Empty, Empty, Empty, Empty];
    var after: Board := [X, X, X, O, O, Empty, Empty, Empty, Empty];
    NoCompleteLine(before);
    assert before[2 := X] == after;
    assert Owns(after, Lines[0], X);
  }

  /** The last empty cell filled without completing a line: the game is drawn and X keeps the turn. */
  lemma DrawScenario()
    ensures var g := Game([X, O, X, X, O, O, O, X, Empty], X);
            var r := HandleCellClick(g, 8);
            r.status == Drawn && r.game.current == X
  {
    var before: Board := [X, O, X, X, O, O, O, X, Empty];
    var after: Board := [X, O, X, X, O, O, O, X, X];
    NoCompleteLine(before);
    NoCompleteLine(after);
    assert before[8 := X] == after;
    assert Full(after);
  }
}
