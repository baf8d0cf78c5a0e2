# Verified models of the recipes

A Dafny model of the algorithms and protocols in the recipes repository, with proofs of what they
promise. Each module follows one component; a method proved against a specification function stands
for a loop or an object of the source, and the lemmas beside it say what that specification means.

* **Sudoku by dancing links** (`Mesh`, `Rings`, `Covering`, `ExactCover`, `MeshBuilding`, `Encoding`,
  `MeshSudoku`, `RowNames`, `Grid`, `DancingLinks`). Mesh nodes are indices into one array of nodes.
  Covering and uncovering a column are proved to undo each other on every toroidal mesh, with rows of
  any length; the solver's mesh is proved to be such a mesh and to encode the sudoku; and the solver
  is proved to decide every board.
* **Sudoku by guessing** (`Neighbors`, `SudokuSearch`, `SudokuCache`, `SudokuSolvers`). The three
  backtracking solvers follow one specification of the search. The cached solver keeps its cache
  right and takes the same steps as the one that recomputes arities.
* **Arbitrary-precision numbers** (`Numbers`, `Limbs`, `Numerals`, `BigInt`) and their clients
  (`Combinations`, `Fibonacci`, `ExactFloat`). Limbs are 32-bit, intermediate results 64-bit, and
  both widths are types, so every bound is proved.
* **N-queens** (`Queens`, `Bits`, `Words`, `QueensMasks`, `QueensArrays`, `QueensRuns`). Counts are
  cardinalities of sets of placements. The masks are 32-bit vectors.
* **Calendar and time zones** (`Calendar`, `TimeZone`). Division is the truncating division of C.
  The zone tables follow sections 3.1 and 3.2 of RFC 8536.
* **Concurrent protocols** (`AsyncLogging`, `BlockingQueue`, `EchoSession`). A step is what happens
  between taking and giving up the mutex, or one handler on the strand, or one step of an
  outstanding operation. `Run` takes any schedule of such steps, so its postcondition holds of every
  run.
* **Statistics window** (`SudokuStat`) and **word frequencies** (`Tallies`, `WordFrequency`).

Where the code does not do what a reader would expect of it, the model follows the code:

* `parseDec` of a zero leaves one limb 0 instead of none; `parseHex` leaves leading zero limbs when
  the leading group of eight digits is zero. `BigInt.ParsedHexNormal` and `BigInt.DecRoundTrip` say
  exactly when the result is in normal form.
* `fasterFibonacci` overflows its `int` while it looks for the top bit when N is at least 2^30
  (`Fibonacci.TopBitFits`).
* The guessing solvers never compare the givens: a board full of ones counts as solved
  (`SudokuSearch.ClashGoesUnnoticed`). The answer false is always right; the answer true is right
  exactly when the givens do not clash (`SudokuSearch.SolveIsRight`). So the answer is right exactly
  for the boards whose givens do not clash or whose empty cells cannot be filled
  (`SudokuSearch.AnswerIsRight`).
* N-queens answers 0 for one queen, and the right number for every other size up to 20
  (`QueensRuns.Backtracking`).
* `fromLocalTime` goes back by one hour in the first pass through a repeated interval, whatever the
  size of the step. It is right there exactly for zones that move their clocks by one hour
  (`TimeZone.LocalThereAndBack`, `TimeZone.OnlyOneHour`).
* A log line that is as long as a buffer or longer is lost (`AsyncLogging.Logger.Append`).
* For the least 32-bit exponent and an odd mantissa, `fraction` overflows its `int` when it computes
  the number of digits, and for no other input (`ExactFloat.DigitsFit`).
* `reset` keeps the number of dropped requests (`SudokuStat.Stat.Reset`).

## Model

| member | source | states |
|---|---|---|
| Rings.RelinkUnlink | recipes/sudoku/sudoku_dancing_links.cc:176-189 | putting a node back into its column list restores the whole mesh, whatever its neighbours are |
| Mesh.UnlinkVertical | recipes/sudoku/sudoku_dancing_links.cc:175-179 | taking one node out of its column leaves increasing cyclic lists of exactly the other nodes and right sizes, and touches no other column |
| Mesh.DownMembers | recipes/sudoku/sudoku_dancing_links.cc:174 | a walk down a column meets exactly its later nodes |
| Rings.RelinkAllUnlinkAll | recipes/sudoku/sudoku_dancing_links.cc:174-191 | relinking any different linked nodes in reverse order undoes unlinking them |
| Rings.RelinkUnlinkHeader | recipes/sudoku/sudoku_dancing_links.cc:172-193 | putting a header back into the header list undoes taking it out |
| Rings.FlatElsewhere | recipes/sudoku/sudoku_dancing_links.cc:174-175 | the loops of a cover meet every node at most once, since rows of one column have no node in common |
| Rings.UncoverCover | recipes/sudoku/sudoku_dancing_links.cc:170-194 | on every well-formed mesh, with rows of any length, uncovering restores every link and every size |
| Rings.Cover | recipes/sudoku/sudoku_dancing_links.cc:170-181 | the loops end and compute the cover, on every well-formed mesh |
| Rings.Uncover | recipes/sudoku/sudoku_dancing_links.cc:183-194 | the loops walk back the same way and restore the mesh, on every well-formed mesh |
| DancingLinks.ActiveWellFormed | recipes/sudoku/sudoku_dancing_links.cc:196-234 | every mesh the solver meets is well-formed at each column still to be covered |
| Covering.CoverActive | recipes/sudoku/sudoku_dancing_links.cc:170-181 | covering a column leaves a well-formed mesh of the other columns, whose lists hold exactly the rows that use no covered column |
| Covering.CoverMatesActive | recipes/sudoku/sudoku_dancing_links.cc:221-223 | covering the other columns of a chosen row keeps the mesh well-formed |
| Covering.SomeRowStarts | recipes/sudoku/sudoku_dancing_links.cc:217-224 | if the remaining columns can be covered, one of the rows of the chosen column starts a cover |
| ExactCover.AddRow | recipes/sudoku/sudoku_dancing_links.cc:219-226 | a row and an exact cover of the columns it leaves make an exact cover |
| ExactCover.SplitCover | recipes/sudoku/sudoku_dancing_links.cc:217-226 | every exact cover has a row for a given column, and without it covers the rest |
| Encoding.CoverIsSolution | recipes/sudoku/sudoku_dancing_links.cc:115-150 | what an exact cover of the columns writes into the board is a solution that extends the givens |
| Encoding.SolutionIsCover | recipes/sudoku/sudoku_dancing_links.cc:115-150 | every solution that extends the givens is such an exact cover |
| MeshBuilding.HeadsGrow | recipes/sudoku/sudoku_dancing_links.cc:50-57 | appending a column keeps the header list right and names it |
| MeshBuilding.RowsGrow | recipes/sudoku/sudoku_dancing_links.cc:139-147 | a new row stands at the bottom of its four columns and is tied into a cycle; all earlier rows and sizes stay right |
| MeshSudoku.MeshReady | recipes/sudoku/sudoku_dancing_links.cc:93-151 | the finished mesh is well-formed with all columns uncovered and every row readable |
| MeshSudoku.MeshEncodes | recipes/sudoku/sudoku_dancing_links.cc:93-151 | its exact cover problem is the sudoku of the board: the wanted columns, and a row for every candidate |
| MeshSudoku.FillWrites | recipes/sudoku/sudoku_dancing_links.cc:199-213 | writing the rows of a cover puts every row's value into its cell and leaves the others |
| Grid.SolutionIffAllSeen | recipes/sudoku/neighbor.cc:78-123 | a filled grid has no equal peers exactly when every row, column and box shows every digit |
| DancingLinks.Dance.PutLeft | recipes/sudoku/sudoku_dancing_links.cc:236-242 | inserts a node to the left of another |
| DancingLinks.Dance.PutUp | recipes/sudoku/sudoku_dancing_links.cc:244-252 | inserts a node at the bottom of a column and counts it |
| DancingLinks.Dance.AppendColumn | recipes/sudoku/sudoku_dancing_links.cc:36-57 | adds one header, under its name, to the header list; the asserts hold |
| DancingLinks.Dance.NewRow | recipes/sudoku/sudoku_dancing_links.cc:59-76 | adds one node to the column of its name |
| DancingLinks.Dance.AddRow | recipes/sudoku/sudoku_dancing_links.cc:140-146 | the mesh with the placement added to its rows |
| DancingLinks.GivenTables | recipes/sudoku/sudoku_dancing_links.cc:101-113 | the tables say which values each row, column and box shows |
| DancingLinks.Dance.AppendUnitColumns | recipes/sudoku/sudoku_dancing_links.cc:121-130 | after it there is a column for every empty cell and every missing value of a unit, and no other |
| DancingLinks.Dance.AddRows | recipes/sudoku/sudoku_dancing_links.cc:132-150 | the rows are exactly the placements no given rules out, and the node array is large enough |
| DancingLinks.Dance.constructor | recipes/sudoku/sudoku_dancing_links.cc:93-151 | for every board, a well-formed mesh that encodes it |
| DancingLinks.Dance.Cover | recipes/sudoku/sudoku_dancing_links.cc:218-222 | covers a column of the solver's mesh and leaves the mesh of the others |
| DancingLinks.Dance.Uncover | recipes/sudoku/sudoku_dancing_links.cc:228-232 | takes back that cover exactly |
| DancingLinks.Dance.GetMinColumn | recipes/sudoku/sudoku_dancing_links.cc:153-168 | the first column of least size, or the first of size at most one |
| DancingLinks.Dance.CoverOthers | recipes/sudoku/sudoku_dancing_links.cc:221-223 | covers the other three columns of the row |
| DancingLinks.Dance.UncoverOthers | recipes/sudoku/sudoku_dancing_links.cc:228-230 | restores the mesh from before they were covered |
| DancingLinks.Dance.Decode | recipes/sudoku/sudoku_dancing_links.cc:200-209 | the walk along a row ends and reads its cell and its value |
| DancingLinks.Dance.WriteBoard | recipes/sudoku/sudoku_dancing_links.cc:199-213 | the board with all rows of the stack written into it |
| DancingLinks.Dance.Solve | recipes/sudoku/sudoku_dancing_links.cc:196-234 | true with an exact cover on the stack and in the board, or false with mesh, stack and board as found and no exact cover |
| DancingLinks.SolveSudoku | recipes/sudoku/sudoku_dancing_links.cc:255-259 | for every board: true exactly when a solution extends the givens, and then the board is one; otherwise the board is unchanged |
| Neighbors.MarkAdjacent | recipes/sudoku/neighbor.cc:11-28 | marks exactly the cells of the same row, column or box |
| Neighbors.CollectNeighbors | recipes/sudoku/neighbor.cc:30-42 | lists the peers in increasing order; there are twenty, so the asserts hold |
| Neighbors.InitNeighbors | recipes/sudoku/neighbor.cc:61-76 | the whole table lists the peers of every cell |
| Neighbors.Solved | recipes/sudoku/neighbor.cc:78-123 | true exactly on solutions |
| SudokuSearch.SolveRestores | recipes/sudoku/sudoku_min_arity.cc:36-62 | a failed search leaves the board as it was and only rearranges the cells it was given |
| SudokuSearch.SolveDecides | recipes/sudoku/sudoku_basic.cc:42-68 | true exactly when the empty cells can be filled so that none equals a peer, and the board is then such a filling, for either choice of the next cell |
| SudokuSearch.SolveIsRight | recipes/sudoku/sudoku_min_arity.cc:36-62 | the board has a solution exactly when the search succeeds and the givens do not clash |
| SudokuSearch.AnswerIsRight | recipes/sudoku/sudoku_min_arity.cc:36-62 | the answer is right exactly when the givens do not clash or the empty cells cannot be filled |
| SudokuSearch.CompletionIsSolution | recipes/sudoku/sudoku_basic.cc:31-40 | a filling is a solution exactly when the givens do not clash |
| SudokuSearch.ClashGoesUnnoticed | recipes/sudoku/sudoku_basic.cc:44-46 | a board full of ones is reported as solved |
| SudokuSearch.MinSpaceIsLeast | recipes/sudoku/sudoku_min_arity.cc:17-34 | the first cell of least arity, or the first of arity at most one |
| SudokuSearch.OrderPutsLeastFirst | recipes/sudoku/sudoku_min_arity.cc:17-34 | the cell moved to the front has no more possible values than any of the remaining ones, by counting them; the rest is only rearranged |
| SudokuSearch.SolvePath | recipes/sudoku/sudoku_min_arity.cc:36-62 | along a successful search every cell has the least arity of those still empty, and its value is the least one with which the rest can be filled |
| SudokuSearch.FirstFilling | recipes/sudoku/sudoku_basic.cc:42-68 | the filling found comes before every other filling, compared cell by cell in the order of the search |
| SudokuCache.EntryAfter | recipes/sudoku/sudoku_min_arity_cache.cc:63-76 | placing a value changes which values are taken exactly for the cell and its peers |
| SudokuCache.CountEntryAfter | recipes/sudoku/sudoku_min_arity_cache.cc:69-76 | placing a value lowers the arity exactly of the peers for which it was available, by one |
| SudokuCache.Mark | recipes/sudoku/sudoku_min_arity_cache.cc:63-76 | the cache is right for the board with the value placed, and the list holds exactly the peers it changed, at most twenty |
| SudokuCache.Unmark | recipes/sudoku/sudoku_min_arity_cache.cc:83-94 | exactly the listed entries are taken back; the assert holds |
| SudokuSolvers.Solver.Input | recipes/sudoku/sudoku_basic.cc:13-29 | the digits are on the board and the empty cells listed in increasing order |
| SudokuSolvers.Solver.InitCache | recipes/sudoku/sudoku_min_arity_cache.cc:30-48 | the taken values of every cell and the arities of the empty cells are right |
| SudokuSolvers.Solver.IsAvailable | recipes/sudoku/sudoku_basic.cc:31-40 | true exactly when no peer holds the value |
| SudokuSolvers.Solver.CountArity | recipes/sudoku/sudoku_min_arity.cc:7-15 | the number of values that no peer holds |
| SudokuSolvers.Solver.FindMinArity | recipes/sudoku/sudoku_min_arity.cc:17-34 | moves one cell to the front of the remaining ones, and none of these has fewer possible values |
| SudokuSolvers.Solver.FindMinCached | recipes/sudoku/sudoku_min_arity_cache.cc:11-28 | makes the same choice from the cache, a cell with the fewest possible values |
| SudokuSolvers.Solver.SolveBasic | recipes/sudoku/sudoku_basic.cc:42-68 | result and board are those of the search that takes the cells in order, with the least value that can be completed in each; the asserts hold |
| SudokuSolvers.Solver.SolveMinArity | recipes/sudoku/sudoku_min_arity.cc:36-62 | result, board and order of cells are those of the search by least arity, and each cell on the way to a solution has the fewest possible values; the asserts hold |
| SudokuSolvers.Solver.SolveCached | recipes/sudoku/sudoku_min_arity_cache.cc:50-98 | the same result, board and order; the cache stays right, and failure restores every entry of it |
| SudokuSolvers.SolveBoth | recipes/sudoku/sudoku_min_arity_cache.cc:50-98 | on every puzzle the cached and the uncached solver end with the same answer, board and order; the answer is right exactly when the givens do not clash or the empty cells cannot be filled |
| Limbs.LessIsNumeric | recipes/basic/uint.h:31-40 | on normal numbers the comparison of limbs is the numeric order |
| Limbs.NormalUnique | recipes/basic/uint.h:30 | two normal numbers of the same value have the same limbs |
| BigInt.UnsignedInt.AddSmall | recipes/basic/uint.h:57-80 | the exact sum, in normal form except for 0 + 0 |
| BigInt.UnsignedInt.Add | recipes/basic/uint.h:82-110 | the exact sum in normal form, also when the number is added to itself |
| BigInt.UnsignedInt.Sub | recipes/basic/uint.cc:10-44 | refuses exactly the underflows before anything changes; otherwise the exact difference in normal form, also from itself |
| BigInt.UnsignedInt.MultiplySmall | recipes/basic/uint.h:114-133 | the exact product in normal form |
| BigInt.UnsignedInt.Multiply | recipes/basic/uint.h:135-162 | the exact product in normal form, also with itself; no intermediate result exceeds 64 bits |
| BigInt.UnsignedInt.Divide | recipes/basic/uint.h:164-181 | quotient and remainder; the assert on the normal form holds |
| BigInt.UnsignedInt.Power | recipes/basic/uint.h:183-205 | the exact power in normal form |
| BigInt.UnsignedInt.ToDec | recipes/basic/uint.cc:82-117 | the canonical decimal numeral; the limb vector of the copy never runs empty |
| BigInt.UnsignedInt.ToHex | recipes/basic/uint.cc:46-80 | the canonical hexadecimal numeral |
| BigInt.UnsignedInt.ParseDec | recipes/basic/uint.cc:182-203 | the value of a decimal numeral, in normal form or as the single limb 0 |
| BigInt.UnsignedInt.ParseHex | recipes/basic/uint.cc:147-162 | the value of a hexadecimal numeral, one limb for every eight digits |
| BigInt.ParseSegment | recipes/basic/uint.cc:171-180 | the value of up to nine digits; the 32-bit arithmetic does not wrap |
| BigInt.ParsedHexNormal | recipes/basic/uint.cc:147-162 | normal form exactly when the leading group of digits is not zero |
| BigInt.HexRoundTrip | recipes/basic/uint.cc:46-162 | parsing what was printed in hexadecimal gives back the same limbs |
| BigInt.DecRoundTrip | recipes/basic/uint.cc:82-203 | parsing what was printed in decimal keeps the value, and the limbs exactly when the number is not zero |
| Numerals.NumeralRoundTrip | recipes/basic/uint.cc:69-77 | a printed numeral consists of digits and denotes the number |
| Numerals.NumeralCanonical | recipes/basic/uint.cc:46-117 | a printed numeral has no leading zero and only digits and small letters; zero is printed as 0 |
| Numerals.CaseDoesNotMatter | recipes/basic/uint.cc:136-145 | capital and small hexadecimal digits denote the same number |
| Combinations.NextCoefficient | recipes/basic/numheaps.cc:21-23 | every division in the loop is exact |
| Combinations.Symmetric | recipes/basic/numheaps.cc:16-17 | choosing M or N - M gives the same number |
| Combinations.Combination | recipes/basic/numheaps.cc:12-28 | the binomial coefficient in normal form; the abort is unreachable |
| Fibonacci.FibAdd | recipes/basic/fibonacci.cc:47-58 | the addition theorem behind the matrix products |
| Fibonacci.FastFibonacci | recipes/basic/fibonacci.cc:26-85 | the decimal numeral of F(N) for every N |
| Fibonacci.TopBitFits | recipes/basic/fibonacci.cc:100-104 | the search for the top bit stays within 32 bits exactly when N is below 2^30 |
| Fibonacci.FasterFibonacci | recipes/basic/fibonacci.cc:87-133 | the decimal numeral of F(N) for every N below 2^30 |
| Fibonacci.Doubling | recipes/basic/fibonacci.cc:135-136 | the two doubling rules |
| Fibonacci.Memo.Calc | recipes/basic/fibonacci.cc:164-190 | ends, keeps every cache entry a Fibonacci number in normal form, and caches F(N) |
| Fibonacci.FastestFibonacci | recipes/basic/fibonacci.cc:196-200 | the decimal numeral of F(N) for every N |
| Fibonacci.FibonacciIterator.Next | recipes/basic/fibonacci.cc:210-215 | moves from F(k) to F(k + 1) |
| Fibonacci.LinearFibonacci | recipes/basic/fibonacci.cc:221-232 | the decimal numeral of F(N) for every N |
| ExactFloat.ShiftDown | recipes/basic/exact.cc:49-55 | the shifts compute the floor of M * 2^E |
| ExactFloat.Integer | recipes/basic/exact.cc:47-73 | the decimal numeral of the floor of M * 2^E |
| ExactFloat.DigitsStep | recipes/basic/exact.cc:99-109 | after k steps the accumulator is 5^k * (m mod 2^k) |
| ExactFloat.DigitsFit | recipes/basic/exact.cc:93-98 | the number of digits fits in 32 bits exactly unless the exponent is the least one and the mantissa odd |
| ExactFloat.FractionDigits | recipes/basic/exact.cc:99-110 | the loop yields the numeral of 5^n * (m mod 2^n) |
| ExactFloat.Fraction | recipes/basic/exact.cc:87-113 | zeros and digits make the fraction of M * 2^E exact, without trailing zeros |
| ExactFloat.FractionDenotes | recipes/basic/exact.cc:17-25 | integer part and padded fraction denote M * 2^E exactly |
| ExactFloat.Decimal | recipes/basic/exact.cc:17-25 | the string denotes exactly M * 2^E and has no trailing zero |
| Words.HasLowest | recipes/puzzle/nqueens_opt_mt.cc:40-41 | the trailing zero count is the lowest set bit, and avail & (avail - 1) clears that bit only |
| QueensMasks.MasksStep | recipes/puzzle/nqueens_opt_mt.cc:45-49 | after the shifts the three masks are those of the placement with one more queen |
| QueensMasks.FirstRemaining | recipes/puzzle/nqueens_opt_mt.cc:38 | the available bits are exactly the columns on the board that are not attacked |
| QueensMasks.BackTracking.Search | recipes/puzzle/nqueens_opt_mt.cc:33-52 | adds exactly the number of completions of every safe placement |
| QueensArrays.BackTracking.Search | recipes/puzzle/nqueens_mt.cc:36-54 | adds the same number and restores the arrays |
| QueensRuns.BacktrackingSub | recipes/puzzle/nqueens_opt_mt.cc:55-62 | the number of solutions that begin with a column, except for one queen |
| QueensRuns.BacktrackingSubArrays | recipes/puzzle/nqueens_mt.cc:57-67 | the same number from the boolean arrays |
| Queens.MirrorCount | recipes/puzzle/nqueens_opt_mt.cc:68-71 | mirror columns begin equally many solutions |
| Queens.DoubledHalf | recipes/puzzle/nqueens_opt_mt.cc:68-74 | twice the left half and once the middle column is the number of all solutions |
| Queens.CountBound | recipes/puzzle/nqueens_opt_mt.cc:25 | k safe queens have at most (n - k)! completions |
| QueensRuns.SolutionsFit | recipes/puzzle/nqueens_opt_mt.cc:67-75 | the total fits in 64 bits for up to 20 queens |
| QueensRuns.Backtracking | recipes/puzzle/nqueens_opt_mt.cc:64-76 | the number of all solutions, exactly when there is not one queen only |
| QueensRuns.AnyOrder | recipes/puzzle/nqueens_opt_mt.cc:78-86 | the sum does not depend on the order of the threads' additions |
| QueensRuns.BacktrackingThreads | recipes/puzzle/nqueens_opt_mt.cc:88-100 | in every order of the additions the number of all solutions, exactly when there is not one queen only; no partial sum exceeds 64 bits |
| Calendar.NextDayNumber | recipes/datetime/Date.cc:22-29 | the next calendar day, by the 4/100/400 rule, has the next number |
| Calendar.DateRoundTrip | recipes/datetime/Date.cc:22-44 | every date from 1 March -4800 on comes back from its number |
| Calendar.NumberRoundTrip | recipes/datetime/Date.cc:22-44 | every number from -32044 on is the number of the date it is turned into |
| Calendar.StepsFit | recipes/datetime/Date.cc:31-44 | the inverse stays within 32 bits exactly up to day 536838867 |
| Calendar.WeekDays | recipes/datetime/Date.h:98-102 | the days of the week follow each other |
| Calendar.Epoch | recipes/datetime/Date.cc:48 | 1 January 1970 has number 2440588 and was a Thursday |
| Calendar.QuotientTruncates | recipes/datetime/TimeZone.cc:311-317 | quotient and remainder of C: rounded toward zero, the remainder with the sign of the dividend |
| TimeZone.ToUtcFields | recipes/datetime/TimeZone.cc:307-332 | every field is in range and the date is a date, before 1970 too |
| TimeZone.YearDay | recipes/datetime/TimeZone.cc:326-330 | the day of the year lies within the year, leap years included |
| TimeZone.UtcDate | recipes/datetime/TimeZone.cc:307-332 | the date is as many days from 1 January 1970 as the time has whole days, before 1970 too; the day of the year is the distance from 1 January; the day of the week is right from day number -1 on |
| TimeZone.UtcDayByDay | recipes/datetime/TimeZone.cc:307-332 | time 0 is 1 January 1970, and a day later is the next calendar day at the same time of day |
| TimeZone.UtcRoundTrip | recipes/datetime/TimeZone.cc:307-347 | fromUtcTime undoes toUtcTime |
| TimeZone.UtcInverse | recipes/datetime/TimeZone.cc:307-347 | toUtcTime undoes fromUtcTime on every date and time of day |
| TimeZone.FindInForce | recipes/datetime/TimeZone.cc:216-248 | the transition found is the last one not after the time |
| TimeZone.FoundByLocal | recipes/datetime/TimeZone.cc:284-292 | the transition found for a local time is the one in force, except in the first pass through a repeated interval |
| TimeZone.LocalFields | recipes/datetime/TimeZone.cc:263-282 | local time is the time shifted by the offset in force, with its flag and offset |
| TimeZone.FromLocalExact | recipes/datetime/TimeZone.cc:284-305 | what every local time is turned into, for any value of the flag: the hour is subtracted exactly when daylight saving time is asked for in standard time that has just begun |
| TimeZone.LocalThereAndBack | recipes/datetime/TimeZone.cc:263-305 | what comes back from local time, for zones that move their clocks by any step |
| TimeZone.LocalRoundTrip | recipes/datetime/TimeZone.cc:263-305 | with a step of one hour every time comes back, from both passes through the repeated hour |
| TimeZone.OnlyOneHour | recipes/datetime/TimeZone.cc:293-304 | one hour is the only step for which the last second of daylight saving time comes back |
| AsyncLogging.Logger.Append | comments/muduo/base/AsyncLogging.cc:29-51 | the whole new state: a line that fits into a buffer is kept whole and in order; a longer one is lost |
| AsyncLogging.Logger.Swap | comments/muduo/base/AsyncLogging.cc:70-83 | the batch is everything appended since the last one, and a second spare buffer is given away only when the batch has two |
| AsyncLogging.Logger.DropExcess | comments/muduo/base/AsyncLogging.cc:85-96 | a batch of more than 25 buffers is cut to two and a notice written |
| AsyncLogging.Logger.Recycle | comments/muduo/base/AsyncLogging.cc:104-124 | there are buffers enough to become spare ones; the asserts hold |
| AsyncLogging.Logger.Step | comments/muduo/base/AsyncLogging.cc:64-126 | every step moves the writer to the one state that follows; the file stays what the batches require and every assert of the loop holds |
| AsyncLogging.FileHoldsBatches | comments/muduo/base/AsyncLogging.cc:87-102 | file and batch in hand hold, in order, all lines of all batches except the dropped buffers |
| AsyncLogging.NothingLost | comments/muduo/base/AsyncLogging.cc:29-128 | while no batch is too large, file, batch, full buffers and current buffer are exactly the appended bytes |
| AsyncLogging.Run | comments/muduo/base/AsyncLogging.cc:29-128 | in every interleaving of appends and steps the logger is in the state that follows from them one by one, and all this holds of it |
| AsyncLogging.Flush | comments/muduo/base/AsyncLogging.cc:64-126 | from every state the writer, left alone, has everything appended in the file except dropped buffers, after at most seven steps more than there are buffers |
| AsyncLogging.RunAndFlush | comments/muduo/base/AsyncLogging.cc:29-126 | every run can be followed by that many steps, and then the file holds all its lines, in order, if no batch was too large |
| BlockingQueue.Queue.TryPut | recipes/thread/BoundedBlockingQueue.h:33-43 | the whole new state: waits, and is listed as waiting, exactly when the queue is full; otherwise appends and notifies a consumer; no wakeup is lost |
| BlockingQueue.Queue.TryTake | recipes/thread/BoundedBlockingQueue.h:45-57 | the whole new state: waits, and is listed as waiting, exactly when the queue is empty; otherwise removes the oldest item and notifies a producer; no wakeup is lost |
| BlockingQueue.Act | recipes/thread/BoundedBlockingQueue.h:33-57 | every step of every thread leads from one state to a next one as put and take do |
| BlockingQueue.CallsPut | recipes/thread/BoundedBlockingQueue.h:33-43 | in every run a thread has put the items of its calls, once each and in the order of the calls, except for that of a call still inside |
| BlockingQueue.CallsTake | recipes/thread/BoundedBlockingQueue.h:45-57 | in every run each call of take has taken one item, except for a call still inside |
| BlockingQueue.Run | recipes/thread/BoundedBlockingQueue.h:33-57 | in every run, step by step: size within capacity, items taken in the order put, every call of every thread done once or still waiting, and nobody left waiting for an item or place that no woken thread will use |
| BlockingQueue.NoDeadlock | recipes/thread/BoundedBlockingQueue.h:33-57 | with a positive capacity producers and consumers never all wait |
| EchoSession.Session.Start | recipes/pingpong/asio/server.cpp:45-64 | without an error one read is outstanding, into the read buffer; with one, nothing is and destroy is posted |
| EchoSession.Session.HandleRead | recipes/pingpong/asio/server.cpp:66-94 | without an error the block just read goes out, if none is going out, and the other buffer is read into; otherwise it is held back; keeps the counts, the separation of the buffers and the order of the bytes |
| EchoSession.Session.HandleWrite | recipes/pingpong/asio/server.cpp:96-123 | without an error a block held back goes out, and the other buffer is read into; keeps the same things |
| EchoSession.HandlersFollow | recipes/pingpong/asio/server.cpp:45-123 | in every run each read or write that ends has its handler run once, unless that is still to come |
| EchoSession.Happen | recipes/pingpong/asio/server.cpp:45-123 | each event leads to the one state that follows, adds exactly the bytes it brings or sends, and each handler starts what it has to |
| EchoSession.Run | recipes/pingpong/asio/server.cpp:45-128 | in every run with errors anywhere, up to the first impossible event: the state is the one that follows from the events; each operation that ended was handled once; received is the data of its reads and written the part of it, from the beginning, that its writes sent; the count is the number of outstanding operations; no buffer is read into while it is written; destroy is posted once, only when nothing is outstanding, and never while nothing has failed |
| EchoSession.Drain | recipes/pingpong/asio/server.cpp:66-123 | from every state without a failed write at most seven more events, none of them a failure or a read, send back everything received |
| SudokuStat.Stat.RecordResponse | comments/examples/sudoku/stat.h:85-160 | every slot holds count and latency sum of all responses of its second, whatever their order; a second is in the window exactly when it is the last, or less than a minute before it and in the window before or since its end; at most 60 slots; the totals are right |
| SudokuStat.WindowAfter | comments/examples/sudoku/stat.h:101-158 | which seconds are in the window after one response, for every earlier window |
| SudokuStat.Stat.Place | comments/examples/sudoku/stat.h:101-158 | the window ends with the latest second and reaches back as far as before, at most a minute; after a longer pause it starts again |
| SudokuStat.Stat.Advance | comments/examples/sudoku/stat.h:123-128 | a new empty slot is right, since no response is later; only a full window drops its first second |
| SudokuStat.Stat.Reset | comments/examples/sudoku/stat.h:68-83 | forgets all but the number of dropped requests |
| SudokuStat.Stat.Report | comments/examples/sudoku/stat.h:41-61 | the sums are those of all responses of the window's seconds |
| Tallies.LessIsLexicographic | recipes/topk/word_freq_sort.cc:107-110 | one word is less than another exactly when it is a proper prefix or smaller at the first difference |
| WordFrequency.CountWords | recipes/topk/word_freq_sort.cc:49-60 | counts the words read, and stops early only when there are too many different ones |
| WordFrequency.Input | recipes/topk/word_freq_sort.cc:38-76 | the segments are sorted by word and hold every word of every file as often as it occurs |
| WordFrequency.Output | recipes/topk/word_freq_sort.cc:116-136 | lists every word of the map once with its count, from the greatest pair down |
| WordFrequency.Combine | recipes/topk/word_freq_sort.cc:138-200 | every word stands in exactly one entry of one count file, with its total over all segments, and every count file falls; no map holds more than one word over the limit |
| WordFrequency.Merge | recipes/topk/word_freq_sort.cc:247-283 | all entries of all count files, by falling count |
| WordFrequency.SortByFrequency | recipes/topk/word_freq_sort.cc:285-290 | for all input files and all limits: every distinct word once, with its number of occurrences, by falling count |
| WordFrequency.SortInMemory | recipes/topk/word_freq.cc:9-33 | the same of the version that counts in memory |
| WordFrequency.RankingsAgree | recipes/topk/word_freq.cc:25-33 | two such lists have the same entries and the same counts at every place: they differ only among equal counts |

## Left out

- Fibonacci.FasterFibonacci: only for N below 2^30, because from there on the source overflows a signed integer.
- TimeZone.LocalRoundTrip: only for local times from 1 March -4800 on, where the calendar functions work; `gmtime_r` and `timegm` are replaced by `toUtcTime` and `fromUtcTime`.
- AsyncLogging.Logger.Append: a buffer is the sequence of lines appended to it and its bytes are their concatenation; addresses and cookies are not modelled.
- EchoSession.Session.Start: the socket option is an error flag; memory of the handlers is not modelled.
- WordFrequency.Merge: takes files with positive counts, as `output` writes them; the text form of the records (word, tab, count) is not modelled, so records are pairs.
- SudokuStat.Stat.RecordResponse: only for times from second 1 on; the counters are unbounded integers.
- Reading zone files, zone names and abbreviations.
- Logger shutdown: lines appended after the last swap are not written when the logger stops.
- Heap and sort routines, `lower_bound` and hash maps of the standard library appear by what they promise: an extreme element, a sorted list, the first index.
- The wall clock, condition-variable timeouts and log file rolling; a wait ends at any time.
- Sockets, TLS, DNS, redis, thrift, plotting, benchmarks and command lines: no logic of their own.
- Thread pools: `stop` changes its flag without the mutex, so no claim about wakeups holds as written.
- The other copies of dancing links, the single-threaded N-queens programs, integer partitions and heap counting: they repeat what is modelled or rest on floating point.
- SudokuStat's three counters of requests and the text that `report` makes of its numbers.
