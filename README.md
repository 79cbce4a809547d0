# Minesweeper, Mastermind and Tic-tac-toe: a Dafny model

This project models the game logic of a small collection of Python terminal
and pygame games, and proves properties of that model.

- **Minesweeper board generation** (`count_mines`, `create_reference`). The
  code is the same in the pygame program and in the terminal program. A
  flat array of `mines` markers (-1) and zeros is shuffled and reshaped to
  `m x n`. It is then padded with a border of zeros. Every non-mine cell is
  overwritten with minus the sum of its eight neighbours in the padded copy.
- **The minesweeper click cascade** (`neighbours`, the recursive `f`,
  `zero_method`, and the reveal after a click). Both programs share it and
  differ only in `neighbours`:
  - The pygame program drops negative coordinates.
  - The terminal program keeps every index numpy accepts, so -1 names the
    last row or column.

  The `Cascade.Variant` parameter, `Pygame` or `Terminal`, carries this
  difference.
- **The pygame game state**: the `Game` class, its constructor and the
  `update` step. This covers the flag toggle, a click on a mine, a click
  elsewhere with the cascade, and the positional win check.
- **The terminal game**: `player_move` and the `game` loop. Here flags are
  always set, never toggled, and the win test compares counters.
- **Mastermind `check`**: greens are found first, then yellows are taken
  greedily from what the greens left of the answer. The validity test of
  `user_guess` is also modelled.
- **Tic-tac-toe**: `check`, which scores the eight lines, the one-cell move
  `gamestate[pos] = v`, and the alternating game loop.

Modules follow the programs:

| module | role |
|---|---|
| `Grid` | positions, numpy-style indexing with negative wrap, `np.where` |
| `Board` | board generation |
| `Cascade` | the reveal |
| `Graphics` | the pygame `Game` |
| `Console` | the terminal game |
| `Mastermind` | Mastermind |
| `TicTacToe` | tic-tac-toe |

Randomness and input enter as parameters:
- the shuffled flat array `arr`, required to be a permutation of the
  initial array;
- already-parsed moves, guesses and squares.

### Where the code is more permissive than the game's rules suggest

A stricter game would reject invalid moves and use a positional win. The
code does neither, and the model follows the code:

- Revealing a flagged or already revealed cell is not rejected. In the
  pygame program, a flag move on a revealed number replaces it with "F", and
  a second flag move makes it "-" again (`Graphics.FlagTwice`).
- The terminal program has no flag toggle and no flag-count decrement. Its
  win test is `mines == flags == mines_flagged`, a count and not a set
  comparison. After any moves, flagging the same mine twice
  counts twice in both counters (`Console.ReflagCountsTwice`).
- The terminal program accepts negative indices and wraps them, both in the
  move and inside `neighbours`. A cascade there can therefore reveal cells
  on the opposite edge, including mines. The pygame program filters
  negative positions, and `Graphics.NoMineRevealed` proves that its cascade
  never shows a mine.
- Out-of-range moves are not rejected: numpy raises IndexError. The model
  requires in-range indices (`Grid.IndexOk`).
- `zero_method` does not show its own starting cell. Only the positions
  that `f` lists are shown, and the start is listed only when some zero
  neighbour leads back to it. The clicked cell itself is written by
  `update` or `player_move` just before the cascade.

## Model

| member | source | states |
|---|---|---|
| Grid.WhereSpec | minesweeper_graphics/minesweeper_graphics.py:189-192 | `np.where(g == v)` lists exactly the in-grid cells holding `v`, in strictly increasing row-major order |
| Grid.IncreasingUnique | minesweeper_graphics/minesweeper_graphics.py:189-193 | two strictly increasing position lists with the same elements are equal |
| Grid.Unzip | minesweeper_graphics/minesweeper_graphics.py:189-193 | the row lists and the column lists of two position lists agree iff the lists are equal |
| Board.ShuffleMarkers | minesweeper_graphics/minesweeper_graphics.py:19-21 | any shuffle of `[-1]*mines + [0]*(m*n-mines)` has length m*n, holds only -1 and 0, and holds exactly `mines` entries -1 |
| Board.CountMines | minesweeper_graphics/minesweeper_graphics.py:7-13 | `count_mines` is minus the sum of the eight neighbours; on a grid of markers it is the number of mines among them, between 0 and 8 |
| Board.PaddedCount | minesweeper_graphics/minesweeper_graphics.py:25-33 | counting at (i+1, j+1) on the zero-padded copy counts the mines among the in-grid neighbours of (i, j) |
| Board.ZeroCellSafe | minesweeper_graphics/minesweeper_graphics.py:27-33 | on a consistent reference grid no in-grid neighbour of a 0 cell is a mine |
| Board.Reshape | minesweeper_graphics/minesweeper_graphics.py:23 | `np.reshape(arr, (m, n))` puts `arr[i*n + j]` at (i, j). `CreateReference` uses this to put the mines exactly where the shuffled array has -1 |
| Board.FillCounts | minesweeper_graphics/minesweeper_graphics.py:27-33 | the nested loops leave every mine in place and set every other cell to its count on the padded copy taken before the loops |
| Board.FilledGrid | minesweeper_graphics/minesweeper_graphics.py:25-34 | the filled grid is consistent (every non-mine holds its number of in-grid mine neighbours), keeps the copy's mines and holds values in -1..8 |
| Board.CreateReference | minesweeper_graphics/minesweeper_graphics.py:16-34 | the grid is m x n, has a mine exactly where the shuffled array has -1, exactly `mines` mines, every other cell holds its number of mine neighbours, and all values lie in -1..8. The terminal program's copy, minesweeper/minesweeper.py lines 15-33, is identical |
| Cascade.Neighbours | minesweeper_graphics/minesweeper_graphics.py:131-148 | a position is returned iff it is a Moore neighbour that numpy accepts and, in the pygame variant, has no negative coordinate; at most 8, no duplicates, never the cell itself. The terminal program's copy, minesweeper/minesweeper.py lines 98-113, lacks the non-negativity filter, so an in-grid cell gets neighbours in -1..m-1 and -1..n-1 |
| Cascade.Flood | minesweeper_graphics/minesweeper_graphics.py:157-166 | `f` terminates and only extends its lists. The lists stay duplicate-free, `zero_list` holds only zeros, and every neighbour of the start and of each newly found zero is dealt with: a zero is in `zero_list`, anything else in `border_list`. Every new zero is reached from the start, and every new border entry is next to the explored region. The terminal program's copy, minesweeper/minesweeper.py lines 123-132, is identical |
| Cascade.Region | minesweeper_graphics/minesweeper_graphics.py:157-168 | after `f(x, y)` on empty lists, the two lists together hold exactly the neighbours of (x, y) and of the zeros found |
| Cascade.ZeroMethod | minesweeper_graphics/minesweeper_graphics.py:150-176 | the zeros found are closed under zero neighbours and linked to the start. The listed positions are exactly the neighbours of the start and of those zeros. The player grid shows the reference value at every listed position and is unchanged elsewhere. The terminal program's copy, minesweeper/minesweeper.py lines 116-142, is identical |
| Cascade.Show | minesweeper_graphics/minesweeper_graphics.py:171-174 | the copy loops show the reference value at exactly the cells some listed position names, through numpy's negative wrap, and leave every other cell unchanged |
| Cascade.ZeroRun | minesweeper_graphics/minesweeper_graphics.py:179-186 | one `zero_method` call from a zero at or next to the click lists a closed zone of zeros rooted at the click that holds the start. It reveals exactly the zone's neighbours and changes no other cell |
| Cascade.RunZone | minesweeper_graphics/minesweeper_graphics.py:179-186 | one completed `zero_method` run from a zero next to or at the click yields a closed set of zeros rooted at the click, and it reveals exactly their neighbours |
| Cascade.AddRun | minesweeper_graphics/minesweeper_graphics.py:183-186 | running `zero_method` again from a further zero neighbour keeps the zone closed, rooted at the click, and the revealed set equal to the zone's neighbours |
| Cascade.Reveal | minesweeper_graphics/minesweeper_graphics.py:128-186 | after a click on a non-mine, the cell itself and exactly the neighbours of a zone of zeros rooted at the click are shown, and nothing else changes. The zone holds the click when it is 0 and every zero neighbour of the click. The terminal program's copy, minesweeper/minesweeper.py lines 57-153, does the same through numpy's negative wrap |
| Graphics.Toggle | minesweeper_graphics/minesweeper_graphics.py:111-119 | a flag move makes a flagged cell hidden and any other cell flagged. `FlagTwice` proves that two toggles restore a hidden or flagged cell but hide a revealed one, and `FlagCell` that only the toggled cell changes |
| Graphics.FlagTwice | minesweeper_graphics/minesweeper_graphics.py:111-119 | two flag moves restore a hidden or flagged cell, but turn a revealed cell into a hidden one |
| Graphics.WonIff | minesweeper_graphics/minesweeper_graphics.py:188-195 | comparing the mine and flag coordinate lists is the same as: at every cell, a mine iff a flag |
| Graphics.NoMineRevealed | minesweeper_graphics/minesweeper_graphics.py:131-186 | on a board from `create_reference`, no cell the pygame cascade reveals is a mine |
| Graphics.FlagCell | minesweeper_graphics/minesweeper_graphics.py:111-119 | the flag branch toggles the one cell and leaves every other cell unchanged |
| Graphics.ClickCell | minesweeper_graphics/minesweeper_graphics.py:121-186 | a click explodes a mine and changes nothing else. Otherwise it shows the cell and the cascade, and no changed cell is a mine |
| Graphics.Game.constructor | minesweeper_graphics/minesweeper_graphics.py:43-62 | a fresh consistent m x n reference grid with exactly `mines` mines, an all-hidden player grid, running, no move pending |
| Graphics.Game.Update | minesweeper_graphics/minesweeper_graphics.py:101-198 | applies the pending move as described for `FlagCell` and `ClickCell`, clears the move, and keeps running iff it was running, the move did not explode a mine, and the flags are not exactly on the mines |
| Console.FlagCount | minesweeper/minesweeper.py:45 | the flag counter counts flag moves and is at most the number of moves |
| Console.MineFlagsBounded | minesweeper/minesweeper.py:45-47 | `mines_flagged <= flags` after any sequence of moves |
| Console.ReflagCountsTwice | minesweeper/minesweeper.py:42-47 | after any accepted moves, flagging the same mine twice more adds two to `flags` and two to `mines_flagged` |
| Console.PlayerMove | minesweeper/minesweeper.py:36-165 | a flag move sets "F" and counts the flag, and counts a correct flag when the cell is a mine. A click on a mine shows "*" and ends the game. Any other click reveals the cell and the cascade. Every index goes through numpy's negative wrap, and nothing else changes |
| Console.Game | minesweeper/minesweeper.py:174-198 | the counters equal the counts over the moves played, and `mines_flagged <= flags`. No move before the last lost or met the win test `mines == flags == mines_flagged`. The game is over iff the last move lost or met that test, and `won` iff it met the test. A game still going has used every move |
| Mastermind.FirstIndex | build/lib/mastermind/mastermind.py:23 | `temp_answer.index(x)` is the first slot holding `x` |
| Mastermind.Copy | build/lib/mastermind/mastermind.py:13 | slot k of the copy holds answer value k. `SlotsCopy` proves that the copy holds each value as often as the answer does |
| Mastermind.SlotsCopy | build/lib/mastermind/mastermind.py:13 | the copy holds each value as often as the answer does |
| Mastermind.AvailHas | build/lib/mastermind/mastermind.py:21 | `x in temp_answer` iff some slot still holds `x` |
| Mastermind.Split | build/lib/mastermind/mastermind.py:12-18 | after the green pass, for each value its greens and blanks together number its occurrences in the guess |
| Mastermind.GreenPass | build/lib/mastermind/mastermind.py:12-18 | green exactly where guess and answer agree; each green uses up its own answer slot, exactly the slots of greens are used up, and no other slot changes |
| Mastermind.YellowPass | build/lib/mastermind/mastermind.py:20-23 | greens are kept and every yellow's value occurs in the answer. For each value, its yellows number the smaller of its non-green guess positions and its slots left after the greens. A non-green position is yellow iff fewer earlier non-green positions guess its value than slots of that value remain, so yellows go to the leftmost candidates |
| Mastermind.Check | build/lib/mastermind/mastermind.py:10-24 | green iff the guess agrees with the answer there. For each value, greens plus yellows equal the smaller of its counts in the guess and in the answer (the multiset intersection). A position is yellow iff it is not green and the greens of its value plus the earlier non-green guesses of its value number fewer than the answer's copies of it, so the result is determined at every position. The result is all "G" iff the guess equals the answer |
| Mastermind.AllGreen | build/lib/mastermind/mastermind.py:66 | the game's win test `result == ["G"]*ln` holds iff the guess is the answer |
| Mastermind.Validate | build/lib/mastermind/mastermind.py:46-54 | a parsed guess is accepted iff it has `ln` numbers, each in 1..`cmp` |
| Mastermind.UserGuess | build/lib/mastermind/mastermind.py:42-55 | returns the first legal line, after rejecting every line before it; with no legal line, all input is consumed and there is no guess |
| TicTacToe.Line | build/lib/tictactoe/tictactoe.py:17-19 | every line of `solves` is three distinct board cells |
| TicTacToe.Check | build/lib/tictactoe/tictactoe.py:15-28 | `check` is false iff some line sums to 3 or to -3. `CheckIff` proves that on a legal board this means some player holds a whole line, and `MoverWins` that the line belongs to the last mover |
| TicTacToe.ScoreIff | build/lib/tictactoe/tictactoe.py:20 | on a board of 1, -1 and 0, a line sums to 3 iff player 1 holds all of it, and to -3 iff player 2 does |
| TicTacToe.CheckIff | build/lib/tictactoe/tictactoe.py:15-28 | on such a board, `check` stops the game iff a player holds a whole line |
| TicTacToe.EmptyContinues | build/lib/tictactoe/tictactoe.py:33 | the empty starting board lets play begin |
| TicTacToe.Play | build/lib/tictactoe/tictactoe.py:43 | `gamestate[pos] = v` sets the named cell, with a negative `pos` counting from the end, and leaves the other eight unchanged. `PlayOverwrites` proves that a later move on the same square replaces an earlier one |
| TicTacToe.PlayOverwrites | build/lib/tictactoe/tictactoe.py:43-51 | a later move on the same square replaces the earlier one |
| TicTacToe.MoverWins | build/lib/tictactoe/tictactoe.py:43-54 | if play was going on, a move never completes a line for the opponent |
| TicTacToe.ReplayLegal | build/lib/tictactoe/tictactoe.py:33-54 | every board the game reaches holds only 1, -1 and 0 |
| TicTacToe.Game | build/lib/tictactoe/tictactoe.py:31-54 | the board is the replay of the moves played, and `check` held after every earlier move. Play stops before the moves run out only on a win, and then the last mover holds a line and the opponent holds none |

## Left out

- pygame: the window, the sprites, `render` and the frame loop are not modelled. So are the mapping from mouse position to cell and the quit event that also clears `running` (`process_input`, `run`).
- Graphics.Game.Update: requires the pending cell to lie in the grid. The source computes it from the mouse position and would raise IndexError outside the grid.
- Randomness: `np.random.shuffle` is replaced by a caller-supplied permutation of the flat array. Uniformity is not modelled. Mastermind's `generate_code` is not modelled.
- Input and output: `input`, `int` parsing, `print`, `display_grid` and tic-tac-toe's `printstate` are not modelled. Moves, guesses and squares arrive already parsed, so ValueError on bad text is not modelled, and neither are the printed win and lose messages.
- Console.Game, Mastermind.UserGuess and TicTacToe.Game stop when the supplied input runs out, where the source would block on `input`.
- TicTacToe.Game: squares outside -9..8 are excluded by its requires; the source raises IndexError on them at `gamestate[pos] = ...`.
- TicTacToe.Game: it is one loop with the mover alternating. The source's loop body makes a player 1 move and then, if play goes on, a player 2 move; both stop after the same moves.
- Cascade.Reveal: Python's recursion limit on `f` is not modelled.
- Console.PlayerMove: the player grid is numpy `<U1`, so a revealed -1 prints as "-". The model keeps the value as `Shown(-1)`.
- The triple-quoted dead code in `player_move` (`check_neighbours`) and the disabled flag branch in `update` are not modelled.
- `user_guess_recursive` is not modelled. It is unused, and `user_guess` is the validator the game calls.
- The Mastermind `game` loop is not modelled beyond its win test (see Mastermind.AllGreen).
- That `check` leaves `answer` and tic-tac-toe `check` leaves `gamestate` unmodified holds trivially: both are values here.
