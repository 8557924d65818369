/**
 The rules engine's view of the grid: nine cells in row-major order, the eight
 fixed winning lines, the two win checks and the enumeration of empty cells.
 */
module Board {

  /** A cell holds the empty string, "X" or "O". */
  datatype Cell = Empty | X | O

  /** A mark a player puts down; never the empty string. */
  type Player = c: Cell | c != Empty witness X

  /** A position on the 3×3 grid, numbered 0..8 row by row. */
  type Index = i: int | 0 <= i < 9

  type Board = b: seq<Cell> | |b| == 9
    witness [Empty, Empty, Empty, Empty, Empty, Empty, Empty, Empty, Empty]

  const EmptyBoard: Board := [Empty, Empty, Empty, Empty, Empty, Empty, Empty, Empty, Empty]

  /** The player who moves after `p`. */
  function Other(p: Player): (q: Player)
    ensures q != p
  {
    if p == X then O else X
  }

  /** Three cell positions that win when they hold the same mark. */
  datatype Line = Line(a: Index, b: Index, c: Index)

  /** Three rows, three columns, two diagonals, in the order the game scans them. */
  const Lines: seq<Line> := [
    Line(0, 1, 2),
    Line(3, 4, 5),
    Line(6, 7, 8),
    Line(0, 3, 6),
    Line(1, 4, 7),
    Line(2, 5, 8),
    Line(0, 4, 8),
    Line(2, 4, 6)
  ]

  /** All three cells of `l` hold `p`. */
  predicate Owns(b: Board, l: Line, p: Cell) {
    b[l.a] == p && b[l.b] == p && b[l.c] == p
  }

  /** All three cells of `l` hold the same mark. */
  predicate Complete(b: Board, l: Line) {
    b[l.a] != Empty && b[l.a] == b[l.b] && b[l.a] == b[l.c]
  }

  /** Reference meaning of a win: some winning line is entirely `p`'s. */
  ghost predicate HasLine(b: Board, p: Player) {
    exists j :: 0 <= j < |Lines| && Owns(b, Lines[j], p)
  }

  /** Reference meaning of a won board: some mark owns some line. */
  ghost predicate Decided(b: Board) {
    HasLine(b, X) || HasLine(b, O)
  }

  /** No cell holds the empty string. */
  predicate Full(b: Board) {
    Empty !in b
  }

  /** The scan of `checkWin` over lines `i..`, stopping at the first line `p` owns. */
  function CheckWinFrom(b: Board, p: Player, i: nat): (r: bool)
    requires i <= |Lines|
    ensures r <==> exists j :: i <= j < |Lines| && Owns(b, Lines[j], p)
    decreases |Lines| - i
  {
    if i == |Lines| then false
    else if Owns(b, Lines[i], p) then true
    else CheckWinFrom(b, p, i + 1)
  }

  /**
   Whether `p` has three in a row. In the game's script `checkWin` sits outside the
   closure that declares the line table, so as written it cannot see that table;
   here it scans the same eight lines, which is what its callers rely on.
   */
  function CheckWin(b: Board, p: Player): (r: bool)
    ensures r <==> HasLine(b, p)
  {
    CheckWinFrom(b, p, 0)
  }

  /** The scan of `checkWinner` over lines `i..`: a line of three equal non-empty cells. */
  function CheckWinnerFrom(b: Board, i: nat): (r: bool)
    requires i <= |Lines|
    ensures r <==> exists j :: i <= j < |Lines| && Complete(b, Lines[j])
    decreases |Lines| - i
  {
    if i == |Lines| then false
    else if Complete(b, Lines[i]) then true
    else CheckWinnerFrom(b, i + 1)
  }

  /** Some line has three equal non-empty cells exactly when some mark owns a line. */
  lemma CompleteLineIsOwned(b: Board)
    ensures (exists j :: 0 <= j < |Lines| && Complete(b, Lines[j])) <==> Decided(b)
  {
    if exists j :: 0 <= j < |Lines| && Complete(b, Lines[j]) {
      var j :| 0 <= j < |Lines| && Complete(b, Lines[j]);
      assert Owns(b, Lines[j], b[Lines[j].a]);
    }
    if HasLine(b, X) {
      var j :| 0 <= j < |Lines| && Owns(b, Lines[j], X);
      assert Complete(b, Lines[j]);
    }
    if HasLine(b, O) {
      var j :| 0 <= j < |Lines| && Owns(b, Lines[j], O);
      assert Complete(b, Lines[j]);
    }
  }

  /** Whether any mark has three in a row: some line has three equal non-empty cells. */
  function CheckWinner(b: Board): (r: bool)
    ensures r <==> Decided(b)
  {
    CompleteLineIsOwned(b);
    CheckWinnerFrom(b, 0)
  }

  /** `checkWinner` answers whether either mark has won, as `checkWin` sees it. */
  lemma CheckWinnerIsEitherWin(b: Board)
    ensures CheckWinner(b) <==> CheckWin(b, X) || CheckWin(b, O)
    ensures CheckWinner(b) <==> Decided(b)
  {
  }

  /** A board none of whose eight lines is complete is won by nobody. */
  lemma NoCompleteLine(b: Board)
    requires !Complete(b, Lines[0]) && !Complete(b, Lines[1]) && !Complete(b, Lines[2])
    requires !Complete(b, Lines[3]) && !Complete(b, Lines[4]) && !Complete(b, Lines[5])
    requires !Complete(b, Lines[6]) && !Complete(b, Lines[7])
    ensures !Decided(b)
  {
    forall j, p: Player | 0 <= j < |Lines|
      ensures !Owns(b, Lines[j], p)
    {
      assert !Complete(b, Lines[j]);
    }
  }

  /** Putting a mark on an empty cell leaves one empty cell fewer. */
  lemma PlacingFillsOneCell(b: Board, c: Index, p: Player)
    requires b[c] == Empty
    ensures multiset(b[c := p])[Empty] == multiset(b)[Empty] - 1
  {
  }

  /**
   Putting `p` on an empty cell creates no line for any other mark: every line
   another mark owns afterwards it owned already.
   */
  lemma PlacingKeepsOtherLines(b: Board, i: Index, p: Player, q: Player)
    requires b[i] == Empty
    requires q != p
    ensures HasLine(b[i := p], q) <==> HasLine(b, q)
  {
    var b' := b[i := p];
    if HasLine(b', q) {
      var j :| 0 <= j < |Lines| && Owns(b', Lines[j], q);
      assert Owns(b, Lines[j], q);
    }
    if HasLine(b, q) {
      var j :| 0 <= j < |Lines| && Owns(b, Lines[j], q);
      assert Owns(b', Lines[j], q);
    }
  }

  /**
   On a board nobody has won, the only line a move can complete goes through
   the cell just played, so only the mover can have won afterwards.
   */
  lemma OnlyMoverCanWin(b: Board, i: Index, p: Player)
    requires b[i] == Empty
    requires !Decided(b)
    ensures Decided(b[i := p]) <==> HasLine(b[i := p], p)
    ensures !HasLine(b[i := p], Other(p))
  {
    PlacingKeepsOtherLines(b, i, p, Other(p));
  }

  /** The indices `j >= lo` whose cell is empty form `r`, listed in strictly ascending order. */
  ghost predicate ListsEmptyCells(b: Board, lo: int, r: seq<Index>) {
    && (forall k :: 0 <= k < |r| ==> lo <= r[k] && b[r[k]] == Empty)
    && (forall k, m :: 0 <= k < m < |r| ==> r[k] < r[m])
    && (forall j: Index :: lo <= j && b[j] == Empty ==> j in r)
  }

  /** The map-then-filter of `makeRandomMove` and `minimax` from index `i` on: each empty cell's index, in order. */
  function EmptyFrom(b: Board, i: nat): (r: seq<Index>)
    requires i <= 9
    ensures ListsEmptyCells(b, i, r)
    decreases 9 - i
  {
    if i == 9 then []
    else if b[i] == Empty then [i as Index] + EmptyFrom(b, i + 1)
    else EmptyFrom(b, i + 1)
  }

  /** The empty cells of the board, in ascending index order. */
  function EmptyCells(b: Board): (r: seq<Index>)
    ensures ListsEmptyCells(b, 0, r)
  {
    EmptyFrom(b, 0)
  }

  /** Where an empty cell sits in the enumeration; cells of lower index sit earlier. */
  lemma EnumerationPosition(b: Board, e: Index) returns (j: nat)
    requires b[e] == Empty
    ensures j < |EmptyCells(b)| && EmptyCells(b)[j] == e
    ensures forall k :: 0 <= k < |EmptyCells(b)| && e < EmptyCells(b)[k] ==> j < k
  {
    var cells := EmptyCells(b);
    assert e in cells;
    j :| 0 <= j < |cells| && cells[j] == e;
  }

  lemma {:induction false} EmptyFromCount(b: Board, i: nat)
    requires i <= 9
    ensures |EmptyFrom(b, i)| == multiset(b[i..])[Empty]
    decreases 9 - i
  {
    if i < 9 {
      EmptyFromCount(b, i + 1);
      assert b[i..] == [b[i]] + b[i + 1..];
    }
  }

  lemma {:induction false} MarksAddUp(s: seq<Cell>)
    ensures multiset(s)[Empty] + multiset(s)[X] + multiset(s)[O] == |s|
  {
    if s != [] {
      MarksAddUp(s[1..]);
      assert s == [s[0]] + s[1..];
      assert multiset(s) == multiset{s[0]} + multiset(s[1..]);
      match s[0]
      case Empty =>
      case X =>
      case O =>
    }
  }

  /**
   The enumeration has one entry per empty cell, so its length and the number
   of marked cells add up to nine.
   */
  lemma EmptyCellsCount(b: Board)
    ensures |EmptyCells(b)| == multiset(b)[Empty]
    ensures |EmptyCells(b)| + multiset(b)[X] + multiset(b)[O] == 9
  {
    EmptyFromCount(b, 0);
    assert b[0..] == b;
    MarksAddUp(b);
  }

  /** The board is full exactly when the enumeration of empty cells is empty. */
  lemma FullIffNoEmptyCells(b: Board)
    ensures Full(b) <==> EmptyCells(b) == []
  {
    if !Full(b) {
      var j :| 0 <= j < 9 && b[j] == Empty;
      assert j in EmptyCells(b);
    }
  }

  /** A board with a single empty cell enumerates exactly that cell. */
  lemma SoleEmptyCell(b: Board, c: Index)
    requires b[c] == Empty
    requires forall e: Index :: e != c ==> b[e] != Empty
    ensures EmptyCells(b) == [c]
  {
    var cells := EmptyCells(b);
    assert c in cells;
    assert forall k :: 0 <= k < |cells| ==> cells[k] == c;
  }
}
