# Sudoku solver, modelled and verified in Dafny

This project models the solver of `billchow98/sudoku`. `sudoku::solve` takes a 9x9 puzzle as an 81-character string. Each character is `.` for an empty cell or `1`..`9` for a given digit. The function returns one of three things:

- the filled grid as 9 lines of 9 digits;
- an `invalid input (...)` error;
- `no solution`.

The work is done by the class `SudokuSolver` in five stages:

1. Syntactic validation.
2. Grid initialisation, which stops as soon as a given clashes with an earlier given.
3. Candidate propagation. It walks the row, column and box of a cell using the increment tables `row_inc`, `col_inc` and `box_inc`.
4. A recursive depth-first search. It branches on the empty cell with the fewest candidates, snapshots the whole state, and restores that snapshot on backtrack.
5. Rendering the grid as text.

## Files

| file | module | content |
|---|---|---|
| `util.dfy` | `Util` | The result type (`Ok(value)` or `Err(msg)`), `Option`, and the decimal spelling of natural numbers used in the error messages. |
| `board.dfy` | `Board` | Cell numbering, rows, columns and boxes, and the walks the increment tables drive. Also the puzzle-string encoding, the Sudoku rules, the pigeonhole facts about solutions, and one explicit solution of the empty puzzle. |
| `solving.dfy` | `Solving` | A functional specification of every step that changes the solver's state, plus the lemmas about those steps. The steps are the initial state, propagation, the initialisation fold, the minimum-remaining-values choice and the search. The lemmas cover soundness, completeness, the digit order and the meaning of initialisation failure. |
| `render.dfy` | `Render` | The shape of the text `grid_as_string` produces, and reading a grid back from it. |
| `sudoku.dfy` | `Sudoku` | The error messages and the class `SudokuSolver`. The class has the fields `grid: array<int>` (-1 empty, 0..8 for the digits 1..9) and `candidates: array<set<int>>`, and methods that change them in place. It also holds the free `Solve` and a client method, `ValidationCases`, that derives the answers to the six input-validation cases of the unit test from the contract of `Solve` alone. |

## How the model is organised

- **Abstract state.** `InitializeGrid`, `ScanCells`, `ChooseCell`, `Restore`, `TryCandidate` and `Dfs` are proved against functions of module `Solving` applied to the abstract state `St() == State(grid[..], candidates[..])`.
- **Other methods.** The rest are proved against other definitions:
  - `IsValidInput` against `LengthError`, `CharError` and `IsFirstInvalid`. It reads no state.
  - `UpdateGroup` against `Board.WalkCells`, cell by cell.
  - `UpdateRow`, `UpdateCol` and `UpdateBox` against `SameRow`, `SameCol` and `SameBox`, cell by cell.
  - `GridAsString` against `Render.IsRendering` of the grid.
  - `Solve` against `IsSolveResult` of the input.
- **Propagation.** `UpdateCandidates` ends with `candidates[..] == ClearPeers(old(candidates[..]), pos, grid[pos])`.
- **Initialisation.** `InitializeGrid` ends in the state `InitFold(input, 81)`.
- **Search.** `Dfs` ends in the state `Search(old(St()))` when it returns true. When it returns false it ends in `old(St())`.
- **Whole solve.** A successful `Solve` renders the grid `SolveOutcome(input)`.

The lemmas about these functions state what the source promises:

- **Every index stays on the board.** Every index `update_group` computes lies in 0..80, and each walk visits exactly the 9 cells of its group.
- **Initialisation failure.** Initialisation fails exactly when two givens of one group are equal.
- **Cell choice.** The chosen cell is the first empty cell with the fewest candidates.
- **The search itself.**
  - It keeps every given and places only candidates.
  - It tries digits in increasing order.
  - Its result is a full grid that obeys the rules.
  - It fails only when the puzzle has no solution.

Two details of the code are modelled as written. `update_candidates` also clears the digit from the candidate set of `pos` itself, because the cell belongs to its own row walk. The first scan of `dfs` returns at the first empty cell without candidates, before it has counted the cells after it.

`verify_grid` is a loop of C `assert`s. In `SudokuSolver.Solve` it becomes a proved `assert` that every cell is filled.

## Model

| member | source | states |
|---|---|---|
| Util.NatToString | src/sudoku.cpp:46-47 | The `%v` spelling of a length or position: nonempty, decimal digits only, no leading zero, one character exactly for n < 10 |
| Util.DecimalRoundTrip | src/sudoku.cpp:46-47 | Reading back the decimal spelling of n gives n |
| Util.NatToStringInjective | src/sudoku.cpp:46-47 | Different numbers get different spellings |
| Sudoku.InvalidInput | src/sudoku.cpp:38-43 | The error is "invalid input (" + detail + ")", and the detail can be read back from it |
| Sudoku.InvalidInputInjective | src/sudoku.cpp:38-43 | Different details give different error messages |
| Sudoku.LengthError | src/sudoku.cpp:46-47 | The length error is "invalid input (len = " + the decimal length + ")" |
| Sudoku.CharError | src/sudoku.cpp:53 | The character error is "invalid input ('" + the character + "' at pos " + the decimal position + ")" |
| Sudoku.CharErrorInjective | src/sudoku.cpp:53 | The character error names the exact character and position |
| Sudoku.LengthAndCharErrorsDiffer | src/sudoku.cpp:46-53 | No length error equals a character error |
| Sudoku.LengthErrorInjective | src/sudoku.cpp:46-47 | The length error names the exact length: different lengths give different messages |
| Sudoku.EmptyInputMessage | test/sudoku_test.cpp:18 | The error for length 0 is exactly "invalid input (len = 0)" |
| Sudoku.ShortInputMessage | test/sudoku_test.cpp:19 | The error for length 80 is exactly "invalid input (len = 80)" |
| Sudoku.LongInputMessage | test/sudoku_test.cpp:23 | The error for length 82 is exactly "invalid input (len = 82)" |
| Sudoku.BadCharMessage | test/sudoku_test.cpp:20 | The error for '#' at position 80 is exactly "invalid input ('#' at pos 80)" |
| Sudoku.SudokuSolver.IsValidInput | src/sudoku.cpp:45-56 | A length other than 81 gives "invalid input (len = N)". Otherwise the first character that is neither '.' nor '1'..'9' gives "invalid input ('c' at pos i)". Success comes exactly when the input is well formed, and its value is "" |
| Sudoku.FirstInvalidExists | src/sudoku.cpp:49-54 | Every 81-character input that is not well formed has a first bad character, so the scan always reports one |
| Sudoku.SudokuSolver.constructor | src/sudoku.cpp:18-21 | Every cell is empty and every candidate bit is set |
| Board.GivensGrid | src/sudoku.cpp:61-65 | Each '.' becomes -1 and each digit ch becomes ch - '1', giving a grid of values in -1..8 |
| Sudoku.SudokuSolver.InitializeGrid | src/sudoku.cpp:59-75 | The state after the loop is the initialisation fold. It fails with "no solution" exactly when two givens of one group are equal. On success the grid holds exactly the givens (ch - '1', '.' as -1) |
| Solving.InitFold | src/sudoku.cpp:59-75 | The state after cells 0..n-1 are initialised, or "no solution" once a given was already eliminated. A state it reaches is well formed |
| Solving.InitFoldGrid | src/sudoku.cpp:60-73 | After n cells the grid holds the givens of cells 0..n-1 and -1 everywhere else |
| Solving.InitFoldConsistent | src/sudoku.cpp:60-73 | Initialisation keeps the state consistent. No two peers hold the same digit, and an empty cell's candidates are exactly the digits no peer holds |
| Solving.InitFoldStaysFailed | src/sudoku.cpp:68-70 | Once a given is found eliminated, the result stays "no solution" |
| Solving.InitFoldFailsIffConflict | src/sudoku.cpp:66-70 | Initialisation fails if and only if two givens of one row, column or box are equal |
| Board.ConflictingGivensUnsolvable | src/sudoku.cpp:66-69 | Clashing givens leave the puzzle without any solution |
| Sudoku.DuplicateGivensUnsolvable | test/sudoku_test.cpp:21 | Seventy-nine dots followed by "11" is well formed, has clashing givens and has no solution |
| Board.RowStartIsFirst | src/sudoku.cpp:87 | `pos / 9 * 9` is column 0 of pos's row |
| Board.ColStartIsFirst | src/sudoku.cpp:90 | `pos % 9` is row 0 of pos's column |
| Board.BoxStartIsCorner | src/sudoku.cpp:93-95 | `box_start_row * 9 + box_start_col` is the top-left cell of pos's box |
| Board.WalkCells | src/sudoku.cpp:79-83 | After n steps the walk has visited at most n cells |
| Board.WalkIncreasing | src/sudoku.cpp:79-83 | When every step after the first is positive, the index `i` grows strictly from step to step |
| Board.RowWalk | src/sudoku.cpp:86-88 | From pos / 9 * 9 with `row_inc`, every index stays in 0..80 and the walk visits exactly the 9 cells of pos's row |
| Board.ColWalk | src/sudoku.cpp:90 | From pos % 9 with `col_inc`, every index stays in 0..80 and the walk visits exactly the 9 cells of pos's column |
| Board.BoxWalk | src/sudoku.cpp:92-96 | From the box's top-left cell with `box_inc`, every index stays in 0..80 and the walk visits exactly the 9 cells of pos's box |
| Board.WalkCellsCount | src/sudoku.cpp:79-83 | A walk whose later steps are positive visits n different cells in n steps |
| Board.WalkCellsMember | src/sudoku.cpp:79-83 | A cell is visited exactly when it is start + inc[0] + ... + inc[m-1] for some step m in 1..n |
| Sudoku.SudokuSolver.UpdateGroup | src/sudoku.cpp:77-84 | Every index is in bounds. Bit grid[pos] is cleared in exactly the walk's cells, and every other candidate is unchanged |
| Sudoku.SudokuSolver.UpdateRow | src/sudoku.cpp:86-88 | Bit grid[pos] is cleared in every cell of pos's row (pos included) and nowhere else |
| Sudoku.SudokuSolver.UpdateCol | src/sudoku.cpp:90 | Bit grid[pos] is cleared in every cell of pos's column (pos included) and nowhere else |
| Sudoku.SudokuSolver.UpdateBox | src/sudoku.cpp:92-96 | Bit grid[pos] is cleared in every cell of pos's box (pos included) and nowhere else |
| Sudoku.SudokuSolver.UpdateCandidates | src/sudoku.cpp:98-102 | The candidates become `ClearPeers`: bit grid[pos] is cleared in every peer of pos, pos itself included. The grid and all other bits are unchanged |
| Solving.ClearPeers | src/sudoku.cpp:98-102 | Propagation only removes digit d. Afterwards d is a candidate of cell k exactly when it was before and k is not a peer of pos |
| Solving.ClearPeersIdempotent | src/sudoku.cpp:98-102 | Propagating the same digit from the same cell twice equals propagating it once |
| Solving.InitialState | src/sudoku.cpp:18-21 | The initial state is well formed |
| Solving.Place | src/sudoku.cpp:140-141 | Writing a digit and propagating it sets exactly that cell of the grid and only shrinks candidate sets |
| Solving.PlaceConsistent | src/sudoku.cpp:140-141 | Placing a candidate digit in an empty cell and propagating it keeps the state consistent |
| Solving.CandidateCount | src/sudoku.cpp:130-131 | A candidate set has at most 9 digits, so the first empty cell always beats the initial best_cnt of 10 |
| Solving.Filled | src/sudoku.cpp:109-111 | `filled_cnt`: at most the number of cells |
| Sudoku.SudokuSolver.ScanCells | src/sudoku.cpp:109-116 | The scan reports a dead cell (empty, no candidates) exactly when one exists. Otherwise it returns the number of filled cells |
| Solving.FilledAll | src/sudoku.cpp:118-121 | The filled count is 81 exactly when no cell is empty |
| Solving.FilledPlace | src/sudoku.cpp:140-142 | Filling an empty cell raises the filled count by one, so the recursion terminates |
| Solving.BestCell | src/sudoku.cpp:123-134 | The choice loop from `best_cnt = 10`, `best_pos = -1` gives -1 or an empty cell |
| Sudoku.SudokuSolver.ChooseCell | src/sudoku.cpp:123-134 | Returns the cell the scan picks. When a cell is empty, that cell is empty, has the fewest candidates among empty cells, and every earlier empty cell has strictly more (strict `<`: ties go to the lowest index) |
| Solving.BestScanIsMrv | src/sudoku.cpp:126-134 | The scan's result from any point is either -1 with no empty cell, or the minimum-remaining-values choice |
| Solving.BestCellIsMrv | src/sudoku.cpp:123-137 | With a cell still empty, the chosen cell is empty and is the minimum-remaining-values choice with the lowest-index tie-break |
| Sudoku.SudokuSolver.Restore | src/sudoku.cpp:146-147 | After the assignment from the snapshot, grid and candidates equal the snapshot |
| Solving.Search | src/sudoku.cpp:104-153 | `dfs` as a function of the state: None when it returns false, otherwise the state it leaves. That state is well formed |
| Solving.TryDigits | src/sudoku.cpp:138-152 | The digit loop from digit d on, restoring the state before each next digit. A state it returns is well formed |
| Solving.SearchSteps | src/sudoku.cpp:109-137 | After its scans dfs fails on a dead cell, succeeds on a full grid, and otherwise runs the digit loop on the minimum-remaining-values cell |
| Sudoku.SudokuSolver.TryCandidate | src/sudoku.cpp:139-148 | One turn of the digit loop. Its result is the search from the placed and propagated digit. On success that state is kept, otherwise grid and candidates equal their values before the turn |
| Sudoku.SudokuSolver.Dfs | src/sudoku.cpp:104-153 | Returns true exactly when the search succeeds, leaving that state. On false, grid and candidates equal their values on entry. Each recursive call has one more filled cell |
| Solving.SearchExtends | src/sudoku.cpp:136-149 | A successful search leaves a full grid. Every cell already filled keeps its digit. Every empty cell gets a digit that was its candidate |
| Solving.TryDigitsExtends | src/sudoku.cpp:138-149 | The same, for the loop over the digits of the chosen cell |
| Solving.TryDigitsFirstSuccess | src/sudoku.cpp:138-149 | Digits are tried in increasing order. When every candidate from d up to v failed and candidate v succeeds, the result is the search from v |
| Solving.TryDigitsAllFail | src/sudoku.cpp:138-152 | The digit loop fails if and only if every candidate of the chosen cell leads to a failed search |
| Solving.PlaceSound | src/sudoku.cpp:139-145 | A successful search after a candidate is placed solves the puzzle of the state before the placement |
| Solving.SearchSound | src/sudoku.cpp:105-153 | From a consistent state, what the search returns is a solution that keeps every filled cell |
| Solving.TryDigitsSound | src/sudoku.cpp:138-149 | The same, for the digit loop |
| Solving.SearchComplete | src/sudoku.cpp:105-153 | From a consistent state, the search fails only when no solution keeps the filled cells |
| Solving.TryDigitsComplete | src/sudoku.cpp:138-152 | When digits d.. of the chosen cell all fail, every solution has a smaller digit there |
| Solving.SolutionUsesCandidates | src/sudoku.cpp:113-115 | In a consistent state every solution puts one of its current candidates into each empty cell |
| Solving.DeadCellUnsolvable | src/sudoku.cpp:112-115 | An empty cell without candidates in a consistent state means no solution |
| Solving.MrvChoiceUnique | src/sudoku.cpp:130-133 | The minimum-remaining-values choice with the strict `<` tie-break is unique |
| Solving.SolveOutcome | src/sudoku.cpp:23-35 | The grid `solve` fills for a well-formed puzzle, or None for "no solution". A grid it gives holds values -1..8 |
| Solving.SolveOutcomeCorrect | src/sudoku.cpp:23-35 | For a well-formed puzzle, the outcome is "no solution" exactly when no solution exists, and otherwise it solves the puzzle |
| Board.RowHasEveryDigit | src/sudoku.cpp:33-34 | In a solution every row holds every digit 1..9 |
| Board.ColHasEveryDigit | src/sudoku.cpp:33-34 | In a solution every column holds every digit 1..9 |
| Board.BoxHasEveryDigit | src/sudoku.cpp:33-34 | In a solution every box holds every digit 1..9 |
| Board.PatternIsSolution | test/sudoku_test.cpp:22 | An explicit full grid obeys the rules, so the empty puzzle is solvable |
| Sudoku.EmptyPuzzleSolvable | test/sudoku_test.cpp:22 | Eighty-one dots is well formed and has a solution |
| Render.CellChar | src/sudoku.cpp:169 | `grid[i] + '1'`: reading the character back gives the value, a digit is written as '1'..'9', and no cell is written as a newline |
| Render.RenderedAt | src/sudoku.cpp:165-170 | Position p of the text is a newline exactly when p % 10 == 9 |
| Render.IsRendering | src/sudoku.cpp:163-172 | A rendering has 89 characters, with newlines exactly at the positions p with p % 10 == 9 |
| Sudoku.SudokuSolver.GridAsString | src/sudoku.cpp:163-172 | The result is the rendering of the grid. It is 89 characters: a newline at every position p with p % 10 == 9, otherwise the cell in row p / 10 and column p % 10 written as '1' + value |
| Render.ParseRenders | src/sudoku.cpp:163-172 | The grid can be read back from its rendering |
| Render.StripNewlines | test/sudoku_test.cpp:49 | Removing the newlines never lengthens the text and leaves no newline |
| Render.StripPrefix | src/sudoku.cpp:165-171 | The first m characters of a rendering hold m / 10 newlines and the first m - m / 10 cells in row-major order |
| Render.RenderingOfFullGrid | test/sudoku_test.cpp:48-50 | For a full grid: no trailing newline, every other character in '1'..'9', and without the newlines the 81 digits in row-major order |
| Sudoku.SudokuSolver.Solve | src/sudoku.cpp:23-35 | On a fresh solver: a wrong length or bad character gives the validation error. A well-formed puzzle gives "no solution" exactly when it has no solution. Otherwise the result is the rendering of a solution that keeps every given, and that solution is the grid the search reaches |
| Sudoku.Solve | src/sudoku.cpp:186-189 | The free `solve` gives the same answer from a freshly constructed solver |
| Sudoku.ValidationCases | test/sudoku_test.cpp:16-32 | `solve` gives each of the six input-validation fixtures the answer the test expects |
| Sudoku.SolveResultDeterministic | src/sudoku.cpp:186-189 | The answer is determined by the input alone: solving the same puzzle twice gives identical results |

## Left out

- `src/main.cpp` is not part of this model. It checks the argument count, prints the usage text and the result, and sets the process exit code. All of that is I/O.
- `Result` from `src/util.h` is a datatype `Ok(value) | Err(msg)`. Its `AbslStringify` printing is left out.
- `absl::StrFormat` is replaced by string concatenation and a decimal helper, `NatToString`. `%c` of a character is the one-character string.
- Strings are `seq<char>`, and the model counts characters where the source counts bytes. In C++ the length `N` in "len = N" is the byte length of the UTF-8 text, an error position is a byte index, and `%c` prints one byte. So on input that is not ASCII the two can give different answers. For example, 80 '.' followed by "é" is 81 characters but 82 bytes. The source answers "invalid input (len = 82)", while the model answers "invalid input ('é' at pos 80)".
- `std::bitset<9>` is a `set<int>` of digits 0..8: test is `in`, clear is `- {d}`, count is `|s|` and none is `== {}`.
- Integers are unbounded. Only the input length, a `size_t`, can be large. It is printed in decimal by `NatToString`, which has no overflow. Every other value in the source stays within -1..89 (-1 marks an empty cell and is the initial `best_pos`), so its `int`s never overflow.
- The fixture-file tests (easy50, hard95, hardest11) read files whose expected solutions are not visible. Only the shape of a solution's text (`Render.RenderingOfFullGrid`) and its correctness are modelled.
- The two scanning loops of `dfs` are the separate methods `ScanCells` and `ChooseCell`. One turn of its digit loop is the method `TryCandidate`, which calls `Dfs` back. `*this = backup_solver` is the method `Restore`, which copies the two snapshotted sequences back into the arrays.
- Sudoku.SudokuSolver.Solve: requires a freshly constructed solver, because the free `solve`, its only caller, always passes one. On a reused solver the source would start from leftover state. Its ensures say nothing about the solver's state afterwards. That state is never read, because the free `solve` discards the solver.
- The C `assert`s become preconditions (`grid[pos] != -1` in `update_group`, a valid character in `initialize_grid`) or proved assertions (`verify_grid`, `grid[best_pos] == -1`).
- Sudoku.SudokuSolver.InitializeGrid: on "no solution" it promises only `Valid()`. It does not say that the grid then holds the givens of cells 0..i and the candidates are propagated up to cell i-1. `solve` discards the solver at that point, so that state is never read.
- `BestScan`, the choice loop over cells i.., has no contract of its own. `Solving.BestScanIsMrv` states what it computes.
- Uniqueness of solutions is not modelled; the solver does not check it. Stack depth and the cost of copying the state are not modelled either.
