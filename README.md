# Tic-Tac-Toe engine

This is a Dafny model of the game engine inside the `TicTacToe` React component. A human plays X, and the computer plays O using an exhaustive minimax search. The model keeps the component's state and logic and drops the rendering:

- `rules.dfy`, module `Rules`, holds the pure part:
  - the cells (`Empty | X | O`) and the results (`Win`, `Lose`, `Draw`, `None`, standing for the source's `"win"`, `"lose"`, `"draw"`, `null`);
  - the eight winning lines, in the order the source lists them;
  - `checkResult` as `CheckResult`, a scan over the lines that returns at the first match;
  - mark counting.
- `search.dfy`, module `Search`, holds the search:
  - `Score`, the minimax value of a board as a function. Terminal boards score +10, −10 or 0, the same at every depth. Otherwise it takes the max or min of the child scores, listed in ascending cell order.
  - `Minimax`, the source's in-place search on an array. It writes a mark into a cell, recurses and clears the cell again. It is proved to return `Score` of its argument's contents and to leave the array as it found it.
  - The computer's move choice: `RootMoves` is the `moves` list, and `ReduceBest` is what the `reduce` call keeps. `BestMove` is the chosen index.
- `game.dfy`, module `Game`, holds the state. Class `TicTacToe` has a nine-cell `array<Cell>` and the fields `isPlayerTurn`, `isInteractive` and `result`. Each React setter becomes a field assignment. The class has four operations:
  - `HandleCellClick` is the human's click;
  - `ComputerMove` is the computer's move;
  - `Tick` is the effect that fires the computer's move synchronously;
  - `Restart` resets the game.

  `Consistent()` is the invariant of reachable states. The stored result equals `CheckResult` of the board. The human is never more than one mark ahead of the computer, and never behind. While the game runs, input is accepted exactly on the human's turn.

Three behaviours of the code worth noting:

- **Tie-break.** On equal scores, `reduce((a, b) => a.score > b.score ? a : b)` keeps the later move. So among the best-scoring empty cells the computer takes the highest index, not the first one. `ReduceBest` and `BestMoveIsChosen` state this, and `TieGoesToHighestIndex` shows it on a board where cells 2 and 6 both win at once.
- **Rejected clicks.** A click on an occupied cell, on a locked board, or after the game ends is ignored without any error. `HandleCellClick` leaves the whole state unchanged in those cases.
- **Input after the computer moves.** The computer's move always unlocks input (`isInteractive` becomes true), whether or not the game goes on.

## Model

| member | source | states |
|---|---|---|
| `Rules.ScanFrom` | src/app/components/TicTacToe.tsx:27-34 | The `for … of` loop over the lines with its early return, then the full-board test. It has no contract of its own; `ScanFromClassifies` characterises it. |
| `Rules.CheckResult` | src/app/components/TicTacToe.tsx:26-35 | `checkResult`. It has no contract of its own; `CheckResultClassifies` characterises it. |
| `Rules.ScanFromClassifies` | src/app/components/TicTacToe.tsx:27-34 | Scanning from line k gives Win (Lose) iff the first matching line at or after k is all O (all X). It gives Draw iff no such line matches and every cell is filled, and None iff no such line matches and some cell is empty. |
| `Rules.CheckResultClassifies` | src/app/components/TicTacToe.tsx:14-35 | `checkResult` gives Win iff the first matching line, taken in the source's order of the eight lines, is all O. It gives Lose iff that line is all X, Draw iff no line matches on a full board, and None iff no line matches and a cell is empty. |
| `Rules.NoResultHasEmpty` | src/app/components/TicTacToe.tsx:33-34 | A board `checkResult` calls undecided has an empty cell, so the search's score list is never empty. |
| `Rules.EmptyBoardInProgress` | src/app/components/TicTacToe.tsx:8 | The starting all-empty board has no result and no marks. |
| `Rules.FullBoardWithoutLineIsDraw` | src/app/components/TicTacToe.tsx:27-33 | Every full board on which no line matches is a draw. |
| `Rules.DrawExample` | src/app/components/TicTacToe.tsx:33 | One example: the full board X O X / X O O / O X X has no line and is a draw. |
| `Rules.CountUpdate` | src/app/components/TicTacToe.tsx:47-49 | Writing one cell changes the count of a mark by exactly what leaves the cell and what enters it. |
| `Search.MaxOf` | src/app/components/TicTacToe.tsx:52 | `Math.max` of a non-empty score list is one of its elements and is at least every element. |
| `Search.MinOf` | src/app/components/TicTacToe.tsx:52 | `Math.min` of a non-empty score list is one of its elements and is at most every element. |
| `Search.Score` | src/app/components/TicTacToe.tsx:38-53 | A board's minimax value is always +10, 0 or −10. |
| `Search.ChildScores` | src/app/components/TicTacToe.tsx:44-51 | The pushed score list has one entry per empty cell, and every entry is +10, 0 or −10. |
| `Search.Minimax` | src/app/components/TicTacToe.tsx:38-53 | `minimax` returns the minimax value of the board it is given. On return the array holds exactly its original contents, because every write is undone. |
| `Search.RootMoves` | src/app/components/TicTacToe.tsx:57-64 | The `moves` list holds one entry per empty cell, in strictly ascending index order. Each entry's score is the value of the board with O placed there and the human to move. |
| `Search.RootMovesCover` | src/app/components/TicTacToe.tsx:58-63 | Every empty cell has its entry in `moves`. |
| `Search.ReduceBest` | src/app/components/TicTacToe.tsx:65 | The move `reduce` keeps has the highest score, and every later move scores strictly less, so ties go to the last move. |
| `Search.BestMove` | src/app/components/TicTacToe.tsx:65-66 | `bestMove.index`, the cell O is written into. It has no contract of its own; `BestMoveIsChosen` characterises it and `ChosenMoveUnique` shows that characterisation picks it alone. |
| `Search.BestMoveIsChosen` | src/app/components/TicTacToe.tsx:56-66 | The computer's move goes to an empty cell whose score is at least that of every empty cell. Among the cells with that maximal score it is the one with the highest index. |
| `Search.ChosenMoveUnique` | src/app/components/TicTacToe.tsx:57-66 | Only one index has those properties, so the board alone determines the move. |
| `Search.TieGoesToHighestIndex` | src/app/components/TicTacToe.tsx:65 | On a board where O wins at cell 2 and at cell 6, both score +10 and the computer plays 6. |
| `Game.CopyBoard` | src/app/components/TicTacToe.tsx:60 | `[...board]` is a fresh array with the same cells. |
| `Game.TicTacToe.constructor` | src/app/components/TicTacToe.tsx:8-11 | The initial state has an empty board, no result, the human to move and input accepted. This state is consistent. |
| `Game.TicTacToe.ConsistentComputerTurnHasMove` | src/app/components/TicTacToe.tsx:93-97 | In a consistent state of a running game there is an empty cell, so the effect's call of `computerMove` has at least one move to score. |
| `Game.TicTacToe.Restart` | src/app/components/TicTacToe.tsx:100-105 | After a restart the board is all empty, there is no result, the human is to move and input is accepted. The state is consistent, and it does not depend on the state before, so restarting twice equals restarting once. |
| `Game.TicTacToe.HandleCellClick` | src/app/components/TicTacToe.tsx:78-90 | When input is locked, the cell is taken or the game is over, nothing changes. Otherwise only the clicked cell changes, from empty to X. A result the move decides is stored and input is accepted again. With no result, the turn passes to the computer and input stays locked. Consistency is preserved. |
| `Game.TicTacToe.ComputerMove` | src/app/components/TicTacToe.tsx:56-75 | Only the chosen cell changes, from empty to O, and it is the cell that `BestMoveIsChosen` characterises. A result the move decides is stored; otherwise the turn returns to the human. Input is accepted again. On the computer's turn of a running consistent game, consistency is preserved, so the human is never more than one mark ahead. |
| `Game.TicTacToe.Tick` | src/app/components/TicTacToe.tsx:93-97 | The computer moves exactly when it is the computer's turn and there is no result; otherwise nothing changes. Consistency is preserved. |

## Left out

- Rendering, animation, icons and styling (src/app/components/TicTacToe.tsx:107-150) are presentation, not engine logic.
- The 500 ms `setTimeout` inside the effect is not modelled. `Tick` performs the computer's move synchronously, at the point where the timer would fire.
- A timer still pending when the game restarts is not modelled. Its old `computerMove` callback would write O into the board captured before the restart and put that previous game's board back into state with `setBoard([...board])` (src/app/components/TicTacToe.tsx:66-67). It would then apply its result, turn and input updates (src/app/components/TicTacToe.tsx:69-74) to the restarted game. That race belongs to the event loop, and the model has no timers.
- React's batched, asynchronous state updates are not modelled. Each setter is an immediate field assignment.
- `setBoard([...board])` after an in-place write is modelled as the in-place write alone. The copy holds the same cells, and nothing else holds the old array in this model.
- `Game.TicTacToe.HandleCellClick`: requires `index < 9`, because the component only ever passes the index of a rendered cell.
- The claim that the human can never win is not stated or proved. Proving it would mean evaluating the whole game tree, which is far beyond what the verifier can unfold.
- Concrete move choices deep in the game tree are not proved, for the same reason. Two examples: after X takes the centre, the computer plays a corner; with X on cells 0 and 1 and O on 4, the computer blocks at cell 2.
- src/app/page.tsx, src/app/components/AnimatedLoader.tsx and src/app/layout.tsx are a splash-screen timer, static markup and page metadata, and are not part of this model.
