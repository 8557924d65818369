/**
 The search as `minimax` runs it: on one shared mutable board, placing a
 mark before each recursive call and clearing it afterwards. It computes the
 same result as the pure search and hands the board back exactly as it got it.
 */
module InPlace {
  import opened Wrappers
  import opened Board
  import opened Search

  /** The empty-cell enumeration over a mutable board, in one left-to-right pass. */
  method EmptyCellsOf(a: array<Cell>) returns (cells: seq<Index>)
    requires a.Length == 9
    ensures cells == EmptyCells(a[..])
    ensures ListsEmptyCells(a[..], 0, cells)
  {
    ghost var b: Board := a[..];
    cells := [];
    var i := 0;
    while i < 9
      invariant 0 <= i <= 9
      invariant cells + EmptyFrom(b, i) == EmptyFrom(b, 0)
    {
      if a[i] == Empty {
        cells := cells + [i as Index];
      }
      i := i + 1;
    }
    assert EmptyFrom(b, 9) == [];
  }

  /**
   The selection loops of the search: a strict comparison against the running
   best, which starts at the infinite sentinel (None) that every score beats.
   The result is the cell of the best candidate, the earliest among equals.
   */
  method SelectInPlace(p: Player, moves: seq<Candidate>) returns (bestMove: Option<Index>)
    ensures bestMove.Some? <==> moves != []
    ensures bestMove.Some? ==> bestMove.value == moves[Select(p, moves).value.pos].index
  {
    var bestScore: Option<int> := None;
    bestMove := None;
    var j := 0;
    while j < |moves|
      invariant 0 <= j <= |moves|
      invariant bestScore.None? <==> Select(p, moves[..j]).None?
      invariant bestScore.None? <==> bestMove.None?
      invariant bestScore.Some? ==> bestScore.value == Select(p, moves[..j]).value.score
      invariant bestScore.Some? ==> bestMove.value == moves[Select(p, moves[..j]).value.pos].index
    {
      assert moves[..j + 1][..j] == moves[..j];
      if bestScore.None? || Beats(p, moves[j].score, bestScore.value) {
        bestScore := Some(moves[j].score);
        bestMove := Some(moves[j].index);
      }
      j := j + 1;
    }
    assert moves[..j] == moves;
  }

  /**
   The search with place-and-undo on `a`. Each candidate's mark is cleared
   before the next is tried, so no sibling sees another's move, and the board
   ends as it began.
   */
  method MinimaxInPlace(a: array<Cell>, p: Player) returns (r: Scored)
    requires a.Length == 9
    modifies a
    ensures a[..] == old(a[..])
    ensures r == Minimax(old(a[..]), p)
    decreases multiset(a[..])[Empty], 1
  {
    var cells := EmptyCellsOf(a);
    if CheckWin(a[..], X) {
      return Scored(None, -10);
    } else if CheckWin(a[..], O) {
      return Scored(None, 10);
    } else if |cells| == 0 {
      return Scored(None, 0);
    }
    var moves := CandidatesInPlace(a, p, cells);
    var bestMove := SelectInPlace(p, moves);
    var found := Find(moves, bestMove.value);
    r := Scored(Some(found.value.index), found.value.score);
  }

  /** The candidates of one more cell are those of the cells before it plus that cell's own. */
  lemma CandidatesExtend(b: Board, p: Player, cells: seq<Index>, i: nat)
    requires AllEmpty(b, cells)
    requires i < |cells|
    ensures Candidates(b, p, cells[..i + 1])
            == Candidates(b, p, cells[..i]) + [Candidate(cells[i], ChildScore(b, p, cells[i]))]
  {
    assert cells[..i + 1][..i] == cells[..i];
  }

  /** The candidate loop of the search: place, search the reply, undo, record. */
  method CandidatesInPlace(a: array<Cell>, p: Player, cells: seq<Index>) returns (moves: seq<Candidate>)
    requires a.Length == 9
    requires AllEmpty(a[..], cells)
    modifies a
    ensures a[..] == old(a[..])
    ensures moves == Candidates(old(a[..]), p, cells)
    decreases multiset(a[..])[Empty], 0
  {
    ghost var b: Board := a[..];
    moves := [];
    var i := 0;
    while i < |cells|
      invariant 0 <= i <= |cells|
      invariant a[..] == b
      invariant moves == Candidates(b, p, cells[..i])
    {
      var c := cells[i];
      a[c] := p;
      assert a[..] == b[c := p];
      var result := MinimaxInPlace(a, Other(p));
      a[c] := Empty;
      assert a[..] == b;
      CandidatesExtend(b, p, cells, i);
      moves := moves + [Candidate(c, result.score)];
      i := i + 1;
    }
    assert cells[..i] == cells;
  }
}
