/**
 The computer opponent's exhaustive minimax search. "O" always maximises and
 "X" always minimises, whichever of them the search was started for. Every
 empty cell is tried in ascending order, the opponent's reply is searched
 recursively, and the best candidate is chosen by strict comparison, so the
 earliest of equally good cells wins.
 */
module Search {
  import opened Wrappers
  import opened Board

  /** A tried move: the cell and the score the search gave the position after it. */
  datatype Candidate = Candidate(index: Index, score: int)

  /** A search result: a terminal board carries only a score; otherwise the chosen cell too. */
  datatype Scored = Scored(index: Option<Index>, score: int)

  /** The scores a finished game is worth: X won, drawn, O won. */
  ghost predicate IsOutcomeScore(s: int) {
    s == -10 || s == 0 || s == 10
  }

  /** A board the search scores without looking further: somebody won, or no cell is left. */
  ghost predicate Terminal(b: Board) {
    Decided(b) || Full(b)
  }

  /** `s` beats the running best `t` for `p`: strictly higher for "O", strictly lower for "X". */
  predicate Beats(p: Player, s: int, t: int) {
    if p == O then s > t else s < t
  }

  /** The running best of the selection loop: its score and the position of its candidate. */
  datatype Best = Best(score: int, pos: nat)

  /**
   The selection loop after the first `|moves|` candidates. `None` is the
   state before any candidate was seen, when the best score is still the
   infinite sentinel that every score beats.
   */
  function Select(p: Player, moves: seq<Candidate>): (r: Option<Best>)
    ensures r.Some? <==> moves != []
    ensures r.Some? ==> r.value.pos < |moves| && r.value.score == moves[r.value.pos].score
    ensures r.Some? ==> forall j :: 0 <= j < |moves| ==> !Beats(p, moves[j].score, r.value.score)
    ensures r.Some? ==> forall j :: 0 <= j < r.value.pos ==> Beats(p, r.value.score, moves[j].score)
    decreases |moves|
  {
    if moves == [] then None
    else
      var prev := Select(p, moves[..|moves| - 1]);
      var last := moves[|moves| - 1];
      if prev.None? || Beats(p, last.score, prev.value.score) then Some(Best(last.score, |moves| - 1))
      else prev
  }

  /** The first candidate for cell `index`, as `Array.prototype.find` returns it. */
  function Find(moves: seq<Candidate>, index: Index): (r: Option<Candidate>)
    ensures r.Some? ==> r.value.index == index
    ensures r.Some? ==> exists k :: 0 <= k < |moves| && moves[k] == r.value
                                    && forall j :: 0 <= j < k ==> moves[j].index != index
    ensures r.None? ==> forall j :: 0 <= j < |moves| ==> moves[j].index != index
    decreases |moves|
  {
    if moves == [] then None
    else if moves[0].index == index then Some(moves[0])
    else Find(moves[1..], index)
  }

  /** Candidates listed by strictly ascending cell, so no cell appears twice. */
  ghost predicate Ascending(moves: seq<Candidate>) {
    forall k, m :: 0 <= k < m < |moves| ==> moves[k].index < moves[m].index
  }

  /** With every cell listed once, searching by the cell of the `k`-th candidate finds that candidate. */
  lemma {:induction false} FindAscending(moves: seq<Candidate>, k: nat)
    requires Ascending(moves)
    requires k < |moves|
    ensures Find(moves, moves[k].index) == Some(moves[k])
    decreases k
  {
    if k > 0 {
      assert moves[0].index < moves[k].index;
      FindAscending(moves[1..], k - 1);
    }
  }

  /** The cells of `cells` are all empty on `b`. */
  ghost predicate AllEmpty(b: Board, cells: seq<Index>) {
    forall i :: 0 <= i < |cells| ==> b[cells[i]] == Empty
  }

  /**
   The search's score for the position `b` with `p` to move. Terminal boards
   are scored before anything else, and an X line is looked for before an O
   line, so a board with lines for both scores as an X win.
   */
  function Minimax(b: Board, p: Player): (r: Scored)
    ensures IsOutcomeScore(r.score)
    ensures HasLine(b, X) ==> r == Scored(None, -10)
    ensures !HasLine(b, X) && HasLine(b, O) ==> r == Scored(None, 10)
    ensures !Decided(b) && Full(b) ==> r == Scored(None, 0)
    ensures !Terminal(b) ==> r.index.Some? && b[r.index.value] == Empty
    decreases multiset(b)[Empty], 1
  {
    if CheckWin(b, X) then Scored(None, -10)
    else if CheckWin(b, O) then Scored(None, 10)
    else
      var cells := EmptyCells(b);
      FullIffNoEmptyCells(b);
      if |cells| == 0 then Scored(None, 0)
      else
        var moves := Candidates(b, p, cells);
        var best := Select(p, moves).value;
        var found := Find(moves, moves[best.pos].index);
        assert found.Some?;
        Scored(Some(found.value.index), found.value.score)
  }

  /**
   The loop that tries each cell of `cells` in order: place `p`, search the
   reply of the other mark, undo, and record the cell with the score.
   */
  function Candidates(b: Board, p: Player, cells: seq<Index>): (r: seq<Candidate>)
    requires AllEmpty(b, cells)
    ensures |r| == |cells|
    ensures forall i :: 0 <= i < |r| ==> r[i].index == cells[i] && IsOutcomeScore(r[i].score)
    decreases multiset(b)[Empty], 0, |cells|
  {
    if cells == [] then []
    else
      var init, c := cells[..|cells| - 1], cells[|cells| - 1];
      assert AllEmpty(b, init) && b[c] == Empty;
      PlacingFillsOneCell(b, c, p);
      Candidates(b, p, init) + [Candidate(c, Minimax(b[c := p], Other(p)).score)]
  }

  /** The score of playing `p` on the empty cell `c` of `b`, as the search sees it. */
  function ChildScore(b: Board, p: Player, c: Index): (s: int)
    requires b[c] == Empty
  {
    Minimax(b[c := p], Other(p)).score
  }

  /** Each candidate carries the score the search gives the board after its move. */
  lemma {:induction false} CandidatesScores(b: Board, p: Player, cells: seq<Index>)
    requires AllEmpty(b, cells)
    ensures forall i :: 0 <= i < |cells| ==> Candidates(b, p, cells)[i].score == ChildScore(b, p, cells[i])
    decreases |cells|
  {
    if cells != [] {
      CandidatesScores(b, p, cells[..|cells| - 1]);
    }
  }

  /**
   On a board still in play the search's result is the best candidate of the
   selection, whose cell is the one at the same position of the enumeration.
   */
  lemma MinimaxIsSelected(b: Board, p: Player)
    requires !Terminal(b)
    ensures var moves := Candidates(b, p, EmptyCells(b));
            && Select(p, moves).Some?
            && var pos := Select(p, moves).value.pos;
            && Minimax(b, p) == Scored(Some(EmptyCells(b)[pos]), moves[pos].score)
  {
    CheckWinnerIsEitherWin(b);
    FullIffNoEmptyCells(b);
    var moves := Candidates(b, p, EmptyCells(b));
    assert Ascending(moves);
    FindAscending(moves, Select(p, moves).value.pos);
  }

  /**
   On a board still in play the search returns an empty cell whose score is
   the best any empty cell offers the mover ("O" maximum, "X" minimum), and
   every empty cell of lower index is strictly worse: ties go to the earliest cell.
   */
  lemma MinimaxSelects(b: Board, p: Player)
    requires !Terminal(b)
    ensures var r := Minimax(b, p);
            && r.index.Some?
            && b[r.index.value] == Empty
            && r.score == ChildScore(b, p, r.index.value)
            && (forall e: Index :: b[e] == Empty ==> !Beats(p, ChildScore(b, p, e), r.score))
            && (forall e: Index :: e < r.index.value && b[e] == Empty ==> Beats(p, r.score, ChildScore(b, p, e)))
  {
    var cells := EmptyCells(b);
    var moves := Candidates(b, p, cells);
    CandidatesScores(b, p, cells);
    MinimaxIsSelected(b, p);
    var pos := Select(p, moves).value.pos;
    var r := Minimax(b, p);
    forall e: Index | b[e] == Empty
      ensures !Beats(p, ChildScore(b, p, e), r.score)
      ensures e < r.index.value ==> Beats(p, r.score, ChildScore(b, p, e))
    {
      var j := EnumerationPosition(b, e);
      assert moves[j].score == ChildScore(b, p, e);
    }
  }

  /** With one empty cell left and nobody having won, the search plays that cell. */
  lemma SoleCellIsChosen(b: Board, p: Player, c: Index)
    requires !Decided(b)
    requires b[c] == Empty
    requires forall e: Index :: e != c ==> b[e] != Empty
    ensures Minimax(b, p).index == Some(c)
  {
    assert !Full(b);
  }

  /** If "O" can complete a line at once, its search scores the position as a win for "O". */
  lemma ImmediateWinForO(b: Board, c: Index)
    requires !Decided(b)
    requires b[c] == Empty
    requires HasLine(b[c := O], O)
    ensures Minimax(b, O).score == 10
  {
    assert !Full(b);
    MinimaxSelects(b, O);
    PlacingKeepsOtherLines(b, c, O, X);
    assert ChildScore(b, O, c) == 10;
  }

  /** If "X" can complete a line at once, its search scores the position as a win for "X". */
  lemma ImmediateWinForX(b: Board, c: Index)
    requires !Decided(b)
    requires b[c] == Empty
    requires HasLine(b[c := X], X)
    ensures Minimax(b, X).score == -10
  {
    assert !Full(b);
    MinimaxSelects(b, X);
    assert ChildScore(b, X, c) == -10;
  }
}
