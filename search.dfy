/** The computer's adversarial search: the minimax value of a board, the
    in-place mutate/undo search that computes it (`minimax`), and the choice
    of the computer's move among the scored empty cells (`computerMove`). */
module Search {
  import opened Rules

  /** The mark placed by the side to move: O when maximising, X otherwise. */
  function MarkOf(maximizing: bool): Cell {
    if maximizing then O else X
  }

  /** The largest element of a non-empty list (`Math.max(...scores)`). */
  function MaxOf(s: seq<int>): (r: int)
    requires |s| > 0
    ensures r in s && forall x :: x in s ==> x <= r
  {
    if |s| == 1 then s[0]
    else
      var m := MaxOf(s[1..]);
      assert forall x :: x in s ==> x == s[0] || x in s[1..];
      if s[0] > m then s[0] else m
  }

  /** The smallest element of a non-empty list (`Math.min(...scores)`). */
  function MinOf(s: seq<int>): (r: int)
    requires |s| > 0
    ensures r in s && forall x :: x in s ==> r <= x
  {
    if |s| == 1 then s[0]
    else
      var m := MinOf(s[1..]);
      assert forall x :: x in s ==> x == s[0] || x in s[1..];
      if s[0] < m then s[0] else m
  }

  /** A score the search can produce. */
  predicate IsScore(x: int) {
    x == 10 || x == 0 || x == -10
  }

  /** The minimax value of `b` with the given side to move: +10 for a computer
      win, -10 for a human win, 0 for a draw, independent of depth; otherwise
      the maximum (computer to move) or minimum (human to move) of the child
      scores. */
  function Score(b: seq<Cell>, maximizing: bool): (r: int)
    requires |b| == 9
    ensures IsScore(r)
    decreases Count(b, Empty), 10
  {
    match CheckResult(b)
    case Win => 10
    case Lose => -10
    case Draw => 0
    case None =>
      NoResultHasEmpty(b);
      assert b[..9] == b;
      var s := ChildScores(b, maximizing, 9);
      if maximizing then MaxOf(s) else MinOf(s)
  }

  /** The scores the search pushes, in ascending index order, for the empty
      cells among the first `k`: each is the value of the board with the side's
      mark written there and the other side to move. */
  function ChildScores(b: seq<Cell>, maximizing: bool, k: nat): (r: seq<int>)
    requires |b| == 9 && k <= 9
    ensures |r| == Count(b[..k], Empty)
    ensures forall t :: 0 <= t < |r| ==> IsScore(r[t])
    decreases Count(b, Empty), k
  {
    if k == 0 then []
    else
      assert b[..k][..k - 1] == b[..k - 1];
      var rest := ChildScores(b, maximizing, k - 1);
      if b[k - 1] == Empty then
        CountUpdate(b, k - 1, MarkOf(maximizing), Empty);
        rest + [Score(b[k - 1 := MarkOf(maximizing)], !maximizing)]
      else
        rest
  }

  /** `minimax`: scores the board held in `a` by writing each side's mark into
      each empty cell in turn, recursing, and clearing the cell again. The
      array holds its original contents on return, and the score is the
      minimax value of those contents. */
  method Minimax(a: array<Cell>, maximizing: bool) returns (score: int)
    requires a.Length == 9
    modifies a
    ensures a[..] == old(a[..])
    ensures score == Score(old(a[..]), maximizing)
    decreases Count(a[..], Empty)
  {
    var gameResult := CheckResult(a[..]);
    if gameResult == Win { return 10; }
    if gameResult == Lose { return -10; }
    if gameResult == Draw { return 0; }

    ghost var b := a[..];
    NoResultHasEmpty(b);
    var scores: seq<int> := [];
    var index := 0;
    while index < 9
      invariant index <= 9
      invariant a[..] == b
      invariant scores == ChildScores(b, maximizing, index)
    {
      if a[index] == Empty {
        a[index] := MarkOf(maximizing);
        assert a[..] == b[index := MarkOf(maximizing)];
        CountUpdate(b, index, MarkOf(maximizing), Empty);
        var s := Minimax(a, !maximizing);
        scores := scores + [s];
        a[index] := Empty;
        assert a[..] == b;
      }
      index := index + 1;
    }
    assert b[..9] == b;
    score := if maximizing then MaxOf(scores) else MinOf(scores);
  }

  /** A candidate move of the computer with its score. */
  datatype Move = Move(index: nat, score: int)

  /** The score of the computer placing O at `i`, with the human to move. */
  function RootScore(b: seq<Cell>, i: nat): int
    requires |b| == 9 && i < 9
  {
    Score(b[i := O], false)
  }

  /** The `moves` list for the empty cells among the first `k`: one entry per
      empty cell, in strictly ascending index order, carrying its root score. */
  function RootMoves(b: seq<Cell>, k: nat): (r: seq<Move>)
    requires |b| == 9 && k <= 9
    ensures |r| == Count(b[..k], Empty)
    ensures forall t :: 0 <= t < |r| ==>
              r[t].index < k && b[r[t].index] == Empty
              && r[t].score == RootScore(b, r[t].index)
    ensures forall t, u :: 0 <= t < u < |r| ==> r[t].index < r[u].index
  {
    if k == 0 then []
    else
      assert b[..k][..k - 1] == b[..k - 1];
      var rest := RootMoves(b, k - 1);
      if b[k - 1] == Empty then rest + [Move(k - 1, RootScore(b, k - 1))] else rest
  }

  /** Every empty cell among the first `k` has its entry in the `moves` list. */
  lemma {:induction false} RootMovesCover(b: seq<Cell>, k: nat, j: nat)
    requires |b| == 9 && j < k <= 9 && b[j] == Empty
    ensures Move(j, RootScore(b, j)) in RootMoves(b, k)
  {
    if j < k - 1 {
      RootMovesCover(b, k - 1, j);
    }
  }

  /** The keeper of `reduce((a, b) => a.score > b.score ? a : b)`: the position
      of the move the fold ends with. The kept move has the highest score, and
      every later move scores strictly less, so ties go to the last one. */
  function ReduceBest(ms: seq<Move>): (p: nat)
    requires |ms| > 0
    ensures p < |ms|
    ensures forall j :: 0 <= j < |ms| ==> ms[j].score <= ms[p].score
    ensures forall j :: p < j < |ms| ==> ms[j].score < ms[p].score
  {
    var n := |ms| - 1;
    if n == 0 then 0
    else
      var k := ReduceBest(ms[..n]);
      assert ms[k] == ms[..n][k];
      assert forall j :: 0 <= j < n ==> ms[j] == ms[..n][j];
      if ms[k].score > ms[n].score then k else n
  }

  /** The index `computerMove` writes O into. */
  function BestMove(b: seq<Cell>): nat
    requires |b| == 9 && Empty in b
  {
    CountPositive(b, Empty);
    assert b[..9] == b;
    var ms := RootMoves(b, 9);
    ms[ReduceBest(ms)].index
  }

  /** The move is to an empty cell, scores at least as well as every empty
      cell, and is the highest index among the best-scoring cells. */
  predicate IsChosenMove(b: seq<Cell>, m: nat)
    requires |b| == 9
  {
    m < 9 && b[m] == Empty
    && (forall j :: 0 <= j < 9 && b[j] == Empty ==> RootScore(b, j) <= RootScore(b, m))
    && (forall j :: m < j < 9 && b[j] == Empty ==> RootScore(b, j) < RootScore(b, m))
  }

  /** The chosen move is an empty cell of maximal root score, the highest index
      among those. */
  lemma BestMoveIsChosen(b: seq<Cell>)
    requires |b| == 9 && Empty in b
    ensures IsChosenMove(b, BestMove(b))
  {
    CountPositive(b, Empty);
    assert b[..9] == b;
    var ms := RootMoves(b, 9);
    var p := ReduceBest(ms);
    var m := ms[p].index;
    assert m == BestMove(b);
    forall j | 0 <= j < 9 && b[j] == Empty
      ensures RootScore(b, j) <= RootScore(b, m)
      ensures m < j ==> RootScore(b, j) < RootScore(b, m)
    {
      RootMovesCover(b, 9, j);
      var t :| 0 <= t < |ms| && ms[t] == Move(j, RootScore(b, j));
      if m < j {
        assert p < t;
      }
    }
  }

  /** Exactly one index has the chosen-move property, so the choice is
      determined by the board alone. */
  lemma ChosenMoveUnique(b: seq<Cell>, m: nat)
    requires |b| == 9 && Empty in b && IsChosenMove(b, m)
    ensures m == BestMove(b)
  {
    BestMoveIsChosen(b);
  }

  /** With O winning at both empty cells 2 and 6, the two moves tie at +10 and
      the later one, 6, is chosen. */
  lemma TieGoesToHighestIndex()
    ensures var b := [O, O, Empty, O, X, X, Empty, X, X];
      RootScore(b, 2) == 10 && RootScore(b, 6) == 10 && BestMove(b) == 6
  {
    var b := [O, O, Empty, O, X, X, Empty, X, X];
    CheckResultClassifies(b[2 := O]);
    assert FirstMatchFrom(b[2 := O], 0, 0);
    CheckResultClassifies(b[6 := O]);
    assert FirstMatchFrom(b[6 := O], 0, 3);
    assert IsChosenMove(b, 6);
    ChosenMoveUnique(b, 6);
  }
}
