/** The game state of the component: the board, whose turn it is, whether the
    board accepts input, and the result; with the human's click, the
    computer's move, the deferred trigger of that move, and restart. */
module Game {
  import opened Rules
  import opened Search

  /** `[...board]`: a fresh array with the same cells. */
  method CopyBoard(a: array<Cell>) returns (c: array<Cell>)
    ensures fresh(c) && c[..] == a[..]
  {
    c := new Cell[a.Length](i requires 0 <= i < a.Length reads a => a[i]);
  }

  class TicTacToe {
    var board: array<Cell>
    var isPlayerTurn: bool
    var isInteractive: bool
    var result: Res

    /** The board always has nine cells. */
    ghost predicate Valid()
      reads this
    {
      board.Length == 9
    }

    /** What holds in every state play can reach from a fresh or restarted
        game: the stored result is the board's classification, the human is
        at most one mark ahead of the computer, and while the game runs the
        board accepts input exactly on the human's turn, which is exactly when
        both have played equally often. */
    ghost predicate Consistent()
      requires Valid()
      reads this, board
    {
      var x := Count(board[..], X);
      var o := Count(board[..], O);
      result == CheckResult(board[..])
      && (x == o || x == o + 1)
      && (result == None ==> isInteractive == isPlayerTurn && (isPlayerTurn <==> x == o))
      && (result != None ==> isInteractive && (isPlayerTurn <==> x == o + 1))
    }

    /** A running game on the computer's turn has an empty cell to play. */
    lemma ConsistentComputerTurnHasMove()
      requires Valid() && Consistent()
      ensures result == None ==> Empty in board[..]
    {
      if result == None {
        NoResultHasEmpty(board[..]);
      }
    }

    /** The initial state of the component. */
    constructor ()
      ensures Valid() && fresh(board)
      ensures board[..] == EmptyBoard && result == None && isPlayerTurn && isInteractive
      ensures Consistent()
    {
      board := new Cell[9](_ => Empty);
      isPlayerTurn := true;
      isInteractive := true;
      result := None;
      new;
      assert board[..] == EmptyBoard;
      EmptyBoardInProgress();
    }

    /** `restartGame`: a fresh empty board, no result, the human to move and
        input accepted. The new state does not depend on the old one, so two
        restarts in a row leave the same state as one. */
    method Restart()
      modifies this
      ensures Valid() && fresh(board)
      ensures board[..] == EmptyBoard && result == None && isPlayerTurn && isInteractive
      ensures Consistent()
    {
      board := new Cell[9](_ => Empty);
      result := None;
      isPlayerTurn := true;
      isInteractive := true;
      assert board[..] == EmptyBoard;
      EmptyBoardInProgress();
    }

    /** The guard of `handleCellClick`: input is locked, the cell is taken, or
        the game is over. */
    predicate ClickIgnored(index: nat)
      requires Valid() && index < 9
      reads this, board
    {
      !isInteractive || board[index] != Empty || result != None
    }

    /** `handleCellClick`: when not ignored, X goes into the clicked cell and
        nothing else on the board changes; a result, if the move decides one,
        is stored and input stays accepted for restart; otherwise the turn
        passes to the computer with input locked. */
    method HandleCellClick(index: nat)
      requires Valid() && index < 9
      modifies this, board
      ensures Valid() && board == old(board)
      ensures old(ClickIgnored(index)) ==>
                board[..] == old(board[..]) && isPlayerTurn == old(isPlayerTurn)
                && isInteractive == old(isInteractive) && result == old(result)
      ensures !old(ClickIgnored(index)) ==>
                board[..] == old(board[..])[index := X]
                && result == CheckResult(board[..])
                && (result != None ==> isInteractive && isPlayerTurn == old(isPlayerTurn))
                && (result == None ==> !isInteractive && !isPlayerTurn)
      ensures old(Consistent()) ==> Consistent()
    {
      if !isInteractive || board[index] != Empty || result != None {
        return;
      }
      ghost var before := board[..];
      isInteractive := false;
      board[index] := X;
      assert board[..] == before[index := X];
      CountUpdate(before, index, X, X);
      CountUpdate(before, index, X, O);
      var gameResult := CheckResult(board[..]);
      if gameResult != None {
        result := gameResult;
        isInteractive := true;
      } else {
        isPlayerTurn := false;
      }
    }

    /** `computerMove`: scores every empty cell on a copy of the board, keeps
        the move `reduce` keeps, writes O there, stores the result if the move
        decides one and otherwise hands the turn back, and accepts input again.
        The board must have an empty cell: `reduce` on no moves fails. */
    method ComputerMove()
      requires Valid() && Empty in board[..]
      modifies this, board
      ensures Valid() && board == old(board)
      ensures IsChosenMove(old(board[..]), BestMove(old(board[..])))
      ensures board[..] == old(board[..])[BestMove(old(board[..])) := O]
      ensures result == (if CheckResult(board[..]) != None then CheckResult(board[..]) else old(result))
      ensures isPlayerTurn == (if CheckResult(board[..]) != None then old(isPlayerTurn) else true)
      ensures isInteractive
      ensures old(Consistent()) && !old(isPlayerTurn) && old(result) == None ==> Consistent()
    {
      ghost var before := board[..];
      var moves: seq<Move> := [];
      var index := 0;
      while index < 9
        invariant index <= 9
        invariant board == old(board) && board[..] == before
        invariant isPlayerTurn == old(isPlayerTurn) && isInteractive == old(isInteractive)
        invariant result == old(result)
        invariant moves == RootMoves(before, index)
      {
        if board[index] == Empty {
          var newBoard := CopyBoard(board);
          newBoard[index] := O;
          assert newBoard[..] == before[index := O];
          var score := Minimax(newBoard, false);
          moves := moves + [Move(index, score)];
        }
        index := index + 1;
      }
      CountPositive(before, Empty);
      assert before[..9] == before;
      var bestMove := moves[ReduceBest(moves)];
      assert bestMove.index == BestMove(before);
      BestMoveIsChosen(before);
      board[bestMove.index] := O;
      assert board[..] == before[bestMove.index := O];
      CountUpdate(before, bestMove.index, O, X);
      CountUpdate(before, bestMove.index, O, O);
      var gameResult := CheckResult(board[..]);
      if gameResult != None {
        result := gameResult;
      } else {
        isPlayerTurn := true;
      }
      isInteractive := true;
    }

    /** The effect that fires the computer's move: on the computer's turn of a
        running game the computer moves, and otherwise nothing happens. */
    method Tick()
      requires Valid() && (!isPlayerTurn && result == None ==> Empty in board[..])
      modifies this, board
      ensures Valid() && board == old(board)
      ensures !(old(!isPlayerTurn && result == None)) ==>
                board[..] == old(board[..]) && isPlayerTurn == old(isPlayerTurn)
                && isInteractive == old(isInteractive) && result == old(result)
      ensures old(!isPlayerTurn && result == None) ==>
                board[..] == old(board[..])[BestMove(old(board[..])) := O]
                && result == CheckResult(board[..])
                && isPlayerTurn == (result == None) && isInteractive
      ensures old(Consistent()) ==> Consistent()
    {
      if !isPlayerTurn && result == None {
        ComputerMove();
      }
    }
  }
}
