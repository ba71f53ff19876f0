/** The board, its eight winning lines and the classification of a board into
    a game result (`checkResult` of the game component). */
module Rules {

  /** A cell holds nothing, the human's mark X or the computer's mark O. */
  datatype Cell = Empty | X | O

  /** The result of a game: the computer wins (`"win"`), the human wins
      (`"lose"`), a draw, or no result yet (`null`). */
  datatype Res = Win | Lose | Draw | None

  /** The eight winning lines, in the order the scan visits them:
      three rows, three columns, two diagonals. */
  const WinningLines: seq<(nat, nat, nat)> :=
    [(0, 1, 2), (3, 4, 5), (6, 7, 8),
     (0, 3, 6), (1, 4, 7), (2, 5, 8),
     (0, 4, 8), (2, 4, 6)]

  /** Line `k` is held by one player: its three cells are non-empty and equal. */
  predicate LineMatches(b: seq<Cell>, k: nat)
    requires |b| == 9 && k < 8
  {
    var (p, q, r) := WinningLines[k];
    b[p] != Empty && b[p] == b[q] && b[p] == b[r]
  }

  /** The mark in the first cell of line `k`. */
  function LineMark(b: seq<Cell>, k: nat): Cell
    requires |b| == 9 && k < 8
  {
    b[WinningLines[k].0]
  }

  /** Line `j` is the first matching line at or after line `k`. */
  predicate FirstMatchFrom(b: seq<Cell>, k: nat, j: nat)
    requires |b| == 9
  {
    k <= j < 8 && LineMatches(b, j) && forall i :: k <= i < j ==> !LineMatches(b, i)
  }

  /** Every cell is occupied (`every(cell => cell !== "")`). */
  predicate Full(b: seq<Cell>) {
    Empty !in b
  }

  /** The result a matching line decides: X means the human won. */
  function Decide(m: Cell): Res {
    if m == X then Lose else Win
  }

  /** The scan over the winning lines from line `k` on, returning at the first
      match, falling back to the full-board test after the last line. */
  function ScanFrom(b: seq<Cell>, k: nat): Res
    requires |b| == 9 && k <= 8
    decreases 8 - k
  {
    if k == 8 then
      if Full(b) then Draw else None
    else if LineMatches(b, k) then
      Decide(LineMark(b, k))
    else
      ScanFrom(b, k + 1)
  }

  /** `checkResult`: the scan over all eight lines. */
  function CheckResult(b: seq<Cell>): Res
    requires |b| == 9
  {
    ScanFrom(b, 0)
  }

  /** The scan from line `k` returns Win (Lose) exactly when the first matching
      line at or after `k` is held by O (X), Draw exactly when no such line
      matches and the board is full, and None exactly when no such line matches
      and some cell is empty. */
  lemma {:induction false} ScanFromClassifies(b: seq<Cell>, k: nat)
    requires |b| == 9 && k <= 8
    ensures ScanFrom(b, k) == Win <==> exists j :: FirstMatchFrom(b, k, j) && LineMark(b, j) == O
    ensures ScanFrom(b, k) == Lose <==> exists j :: FirstMatchFrom(b, k, j) && LineMark(b, j) == X
    ensures ScanFrom(b, k) == Draw <==> (forall j :: k <= j < 8 ==> !LineMatches(b, j)) && Full(b)
    ensures ScanFrom(b, k) == None <==> (forall j :: k <= j < 8 ==> !LineMatches(b, j)) && !Full(b)
    decreases 8 - k
  {
    if k < 8 {
      if LineMatches(b, k) {
        assert FirstMatchFrom(b, k, k);
      } else {
        ScanFromClassifies(b, k + 1);
      }
    }
  }

  /** The classification `checkResult` performs, for the scan over all lines. */
  lemma CheckResultClassifies(b: seq<Cell>)
    requires |b| == 9
    ensures CheckResult(b) == Win <==> exists j :: FirstMatchFrom(b, 0, j) && LineMark(b, j) == O
    ensures CheckResult(b) == Lose <==> exists j :: FirstMatchFrom(b, 0, j) && LineMark(b, j) == X
    ensures CheckResult(b) == Draw <==> (forall j :: 0 <= j < 8 ==> !LineMatches(b, j)) && Full(b)
    ensures CheckResult(b) == None <==> (forall j :: 0 <= j < 8 ==> !LineMatches(b, j)) && !Full(b)
  {
    ScanFromClassifies(b, 0);
  }

  /** The number of cells of `s` holding `c`. */
  function Count(s: seq<Cell>, c: Cell): nat
  {
    if |s| == 0 then 0 else Count(s[..|s| - 1], c) + (if s[|s| - 1] == c then 1 else 0)
  }

  /** Some cell holds `c` exactly when the count of `c` is positive. */
  lemma {:induction false} CountPositive(s: seq<Cell>, c: Cell)
    ensures Count(s, c) > 0 <==> c in s
  {
    if |s| > 0 {
      CountPositive(s[..|s| - 1], c);
      assert s == s[..|s| - 1] + [s[|s| - 1]];
    }
  }

  /** Writing `v` at `i` changes the count of `c` by what leaves and what comes. */
  lemma {:induction false} CountUpdate(s: seq<Cell>, i: nat, v: Cell, c: Cell)
    requires i < |s|
    ensures Count(s[i := v], c)
            == Count(s, c) - (if s[i] == c then 1 else 0) + (if v == c then 1 else 0)
  {
    var n := |s| - 1;
    if i < n {
      assert s[i := v][..n] == s[..n][i := v];
      CountUpdate(s[..n], i, v, c);
    } else {
      assert s[i := v][..n] == s[..n];
    }
  }

  /** A board without a result still has an empty cell, so the search always
      has at least one move to score. */
  lemma NoResultHasEmpty(b: seq<Cell>)
    requires |b| == 9 && CheckResult(b) == None
    ensures Empty in b && Count(b, Empty) > 0
  {
    CheckResultClassifies(b);
    CountPositive(b, Empty);
  }

  /** The board a game starts from (`Array(9).fill("")`). */
  const EmptyBoard: seq<Cell> := [Empty, Empty, Empty, Empty, Empty, Empty, Empty, Empty, Empty]

  /** The starting board has no result and holds no mark. */
  lemma EmptyBoardInProgress()
    ensures CheckResult(EmptyBoard) == None
    ensures Count(EmptyBoard, X) == 0 && Count(EmptyBoard, O) == 0
  {
    CheckResultClassifies(EmptyBoard);
    CountPositive(EmptyBoard, X);
    CountPositive(EmptyBoard, O);
  }

  /** A full board on which no line matches is a draw. */
  lemma FullBoardWithoutLineIsDraw(b: seq<Cell>)
    requires |b| == 9 && Full(b) && forall j :: 0 <= j < 8 ==> !LineMatches(b, j)
    ensures CheckResult(b) == Draw
  {
    CheckResultClassifies(b);
  }

  /** An example: the full board X O X / X O O / O X X has no line, so it is a draw. */
  lemma DrawExample()
    ensures CheckResult([X, O, X, X, O, O, O, X, X]) == Draw
  {
    var b := [X, O, X, X, O, O, O, X, X];
    assert forall j :: 0 <= j < 8 ==> !LineMatches(b, j) by {
      forall j | 0 <= j < 8 ensures !LineMatches(b, j) {
        assert j in {0, 1, 2, 3, 4, 5, 6, 7};
      }
    }
    FullBoardWithoutLineIsDraw(b);
  }
}
