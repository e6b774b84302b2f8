# Fiboki research machinery: a verified model

Fiboki's research scripts resample real trades into simulated calendars, run a validation
ladder over thousands of generated strategies in interruptible shards, and publish the counts.
Their results are only as good as a number of silent agreements: that a vectorised gather
equals the loop it stands for, that a resumed run writes what an uninterrupted one would have
written, that a decoder meets every cell once. This project models that machinery in Dafny
and proves those agreements for every input, every run and every history.

| module | what it models | main results |
|---|---|---|
| `DayBootstrap`, `PooledReplicate` | the joint calendar-day bootstrap of `scripts/pooled_universe_study.py` | the repeat/cumsum gather is the plain nested loop, its entry times are sorted, and memoised answers never depend on earlier questions |
| `SearchSorted`, `Booking`, `ExitBooking` | window slicing by binary search, the difference-array booking, the exit-bar booking | every bar earns exactly the shares of the trades held over it, money is conserved, adjacent windows add up |
| `StationaryStream` | the stationary bootstrap stream and the chunked trade calendar | chunked draws compose, and the kept calendar is exactly the endless stream before the end whatever the chunk size |
| `Markup` | `solve_markup` | correct if and only if a stated condition on the signs of the coefficients holds; three concrete failures |
| `ShardLog`, `CampaignStage`, `CampaignMerge` | the append-only shard file, `run_stage`, sharding and `merge` of `scripts/campaign_k6.py` | any history of crashes, resumes and shardings, merged in any order, gives the rows of one uninterrupted run; processes on a disk amount to exactly such histories |
| `StudyRuns`, `StudyMerge` | the checkpoint loops, `_resume_rows`, and both study merges | the same confluence for the studies; the merge tiles the plan if and only if no shard reaches outside it |
| `Trials` | the declared trial count | what is spent is the number of distinct trials, and no admissible history makes more than were declared |
| `Grammar`, `CellText`, `Generate` | the K6 grammar: decoding, printing, greedy deduplication | a bijection, two round trips, and an exact account of what is kept and why the rest is dropped |
| `Ladder` | the fail-fast ladder, the measuring ladder, `judge_rows`, gate removal | the three verdicts agree, across trade floors and for gates nobody named at run time, with the exact exceptions |
| `LiveFlags`, `Lockfile` | the live-flag scanner and the dependency lockfile | the automaton equals its declarative reading; parsing undoes printing; recording one environment and verifying another is ok exactly when they agree |

`Sequences`, `Ranges` and `Arithmetic` hold the shared vocabulary (sums, flattening, sorting,
permutations, Python's `range`, division).

Where the source changes state step by step the model does too: `ShardFile`, `Disk`, `Stream`,
`Replicate` and `OutFile` are classes, the difference array and the drawn indices are arrays,
and loops carry invariants against a specification function. Times are integers
(nanoseconds), returns and profits are reals, and what a generator, a hash, a clock or the
backtest engine answers is a parameter.

`dafny verify dfyconfig.toml` checks the whole project.

## Where the code and its documentation differ

- `merge_shards` says the shards' ranges must tile `[0, replicates)`. Gaps and overlaps are
  refused; a shard that reaches beyond the total is not. `StudyMerge.MergeTilesIffBounded`
  gives the exact condition and `StudyMerge.OverlongShardAccepted` an accepted file. Such a
  file would have to be made by hand: the command lines refuse an end above the total
  (`scripts/gate_power_study.py:1773-1774`, `scripts/pooled_universe_study.py:1199-1200`), and
  `StudyMerge.AdmittedTile` proves that the shards they admit always tile.
- Both merges say or imply that what they accept is one uninterrupted run. They compare index
  sets only, so a hand-made shard with a ratio missing or a row twice is accepted too
  (`StudyMerge.MissingRatioAccepted`, `CampaignMerge.RepeatedRowAccepted`);
  `StudyMerge.MergeIsRunIff` and `CampaignMerge.MergeIsRunIff` give the exact condition, and the
  shards the scripts themselves leave always meet it.
- `solve_markup` says its answer is exact. A leading coefficient below 1e-15 that is not zero is
  treated as zero, so an answer can miss the ratio and a reachable ratio can be refused; and an
  equation that vanishes identically is refused although every mark-up with a non-negative mean
  solves it. `Markup.MarkupCorrectIffPrecise` gives the exact condition;
  `Markup.TinyLeadingMisses`, `Markup.TinyLeadingRefused` and `Markup.VanishingEquationRefused`
  are examples.
- `judge_rows` says a gate that could not be evaluated leaves the verdict incomplete. The code
  rejects, which is what the ladder does for a gate of one of its own rungs; for a gate of no
  rung of the ladder the report is incomplete and the two differ
  (`Ladder.JudgeIsMeasured`, `Ladder.GateOffTheLadderDisagrees`).
- `generate` with a size of zero or less never meets its stop test and keeps the whole walk
  (`Generate.SizeZeroKeepsAll`, `Generate.SizeZeroKeepsOne`).

## Model

| member | source | states |
|---|---|---|
| `SearchSorted.Bisect` | scripts/pooled_universe_study.py:485-491 | binary search of any sub-range splits a nondecreasing axis into the elements below the value and those at or above it |
| `SearchSorted.SearchLeft` | scripts/pooled_universe_study.py:485-491 | the left insertion point: index i lies before it if and only if its element is strictly below the value |
| `SearchSorted.SearchRight` | scripts/pooled_universe_study.py:497-498 | the right insertion point: index i lies before it if and only if its element is at or below the value |
| `SearchSorted.AdjacentSlices` | scripts/gate_power_study.py:1133-1136 | the trade slices of [s, m) and [m, e) concatenate to the slice of [s, e) |
| `SearchSorted.ChainedSlices` | scripts/gate_power_study.py:1133-1138 | over any chain of cut points the window profits sum to the profit of the whole span |
| `DayBootstrap.IndexNamesRun` | scripts/pooled_universe_study.py:335-338 | bincount and shifted cumsum of nondecreasing days name, for each day, exactly the contiguous run of its trades |
| `DayBootstrap.BuildSleeveIndexed` | scripts/pooled_universe_study.py:321-349 | trades of the source window, sorted and split, always carry the day index the gather needs: contiguous runs, sorted time of day, offsets within a day |
| `DayBootstrap.SleeveReconstructs` | scripts/pooled_universe_study.py:321-343 | trades in order of entry, then exit; day (of 86,400 seconds) and offset give back each entry, and the hold its exit |
| `DayBootstrap.GatherAt` | scripts/pooled_universe_study.py:439-444 | position p of the gather is trade w of simulated day i, where p falls into the i-th block, and its source index is in range |
| `DayBootstrap.GatherIsNestedLoop` | scripts/pooled_universe_study.py:433-449 | for every day sequence the gathered column is the nested loop: each simulated day, each source trade of its source day in order, kept if entered before the end; index, entry and exit all agree |
| `DayBootstrap.GatheredSorted` | scripts/pooled_universe_study.py:441-445 | the gathered entry times never go backwards |
| `DayBootstrap.ColumnSorted` | scripts/pooled_universe_study.py:445-449 | the kept entry times are nondecreasing and all lie in [start, end) |
| `PooledReplicate.Replicate.constructor` | scripts/pooled_universe_study.py:403-409 | a new replicate has empty memo tables and is valid |
| `PooledReplicate.Replicate.Days` | scripts/pooled_universe_study.py:422-431 | whatever was asked before, simulated day k of a grid point is the common day where its uniform is below the threshold and its own day otherwise; -1 names the common days; the memo table gains exactly the entries named |
| `PooledReplicate.Replicate.Column` | scripts/pooled_universe_study.py:433-449 | the gathered column of the grid point's days whatever the memo tables held; each trade enters at its own time of a simulated day and comes from the source day the draws give that day; earlier columns are untouched |
| `PooledReplicate.SleevesMoveTogether` | scripts/pooled_universe_study.py:392-401 | copies of two sleeves' trades on one simulated day come from the same source day and land exactly as far apart as the originals |
| `PooledReplicate.GridPointsMoveTogether` | scripts/pooled_universe_study.py:392-401 | on a simulated day where two grid points' uniforms are both below the threshold, their copies on any two sleeves are of the common day and land exactly as far apart as the originals |
| `PooledReplicate.MixingEnds` | scripts/pooled_universe_study.py:429-430 | a threshold above every uniform gives every grid point the common days, one above none its own |
| `Booking.DiffIsChange` | scripts/pooled_universe_study.py:502-505 | slot t of the difference array is the change of the bar return from t - 1 to t |
| `Booking.BarsSumToProfit` | scripts/pooled_universe_study.py:501-505 | spreading trades over their bars conserves money |
| `Booking.AddOpens` | scripts/pooled_universe_study.py:502-503 | after the first scattered addition every slot holds the shares of the trades that open there |
| `Booking.SubtractCloses` | scripts/pooled_universe_study.py:504 | the second scattered addition takes from every slot exactly the shares of the trades that closed before it |
| `Booking.Book` | scripts/pooled_universe_study.py:501-505 | each bar's return is the sum of pnl / held bars over the trades whose bars contain it; all indices in bounds; the returns sum to the net profit |
| `Booking.Evaluate` | scripts/pooled_universe_study.py:484-532 | refused if and only if the window holds no bar; otherwise, for exactly the trades entered in the window, the booked returns and net profit agree, and each reported trade has its own entry, bars held, exit clipped into the window, and 10,000 times its lifted return as profit |
| `Booking.Report` | scripts/pooled_universe_study.py:506-522 | the loop reports each trade with its own entry, its exit clipped to the window and never before its entry, its profit and its bars held |
| `Booking.HeldBars` | scripts/pooled_universe_study.py:494-500 | which bars a trade is booked on, in terms of bar times, entry and clipped exit alone |
| `Booking.GatheredColumnSliceable` | scripts/pooled_universe_study.py:482-492 | every column a replicate gathers meets what the evaluator's binary searches need |
| `Booking.AdjacentWindowsAddUp` | scripts/pooled_universe_study.py:490-496 | adjacent windows together earn, and count, what their union does |
| `ExitBooking.EvaluateExits` | scripts/gate_power_study.py:1127-1140 | refused if and only if the window holds no bar; each bar holds the profits of the trades that exit on it, and the bars sum to the window's net profit |
| `ExitBooking.ExitsSumToProfit` | scripts/gate_power_study.py:1137-1140 | clipping exits into the window loses no profit |
| `ExitBooking.WindowBars` | scripts/gate_power_study.py:1127-1130 | the window's bars are exactly those that begin inside it |
| `ExitBooking.ExitBarExact` | scripts/gate_power_study.py:1137 | a trade is booked on the last of the window's bars to begin by its exit, or the first when none has |
| `StationaryStream.Next` | scripts/gate_power_study.py:557 | the next index is always in range |
| `StationaryStream.NextIsModular` | scripts/gate_power_study.py:557 | continuing a block is addition modulo the number of observations |
| `StationaryStream.DrawAt` | scripts/gate_power_study.py:555-558 | each drawn index opens a block or continues the one before it |
| `StationaryStream.DrawsCompose` | scripts/gate_power_study.py:550-560 | two consecutive draws equal one longer draw: the position is all the stream remembers |
| `StationaryStream.Stream.Open` | scripts/gate_power_study.py:540-548 | refused if and only if there is no observation or the block length is below one |
| `StationaryStream.Stream.Draw` | scripts/gate_power_study.py:550-560 | the array equals the specified draw from the remembered position, every index is in range, and the new position is its last index |
| `StationaryStream.ChunkIsStretch` | scripts/gate_power_study.py:1023-1025 | a chunk drawn where the endless stream stands is its next stretch |
| `StationaryStream.ChunkedCalendar` | scripts/gate_power_study.py:1017-1029 | refused if and only if the span is empty or the chunk limit never covers it; otherwise a prefix of the endless stream, in whole chunks, that covers the span |
| `StationaryStream.KeptCalendarExact` | scripts/gate_power_study.py:1067-1074 | the kept entries, exits and source trades are exactly those of the endless stream that enter before the end, sorted, however far the last chunk over-draws |
| `StationaryStream.OverdrawIrrelevant` | scripts/gate_power_study.py:1067-1074 | any two prefixes that cover the span keep the same calendar, exits included, so the chunk size never shows |
| `StationaryStream.BuildCalendar` | scripts/gate_power_study.py:1067-1074 | with the script's own chunk size and limit: the error condition, and the entries, exits and trades any covering prefix gives |
| `Markup.HitsIsRoot` | scripts/gate_power_study.py:1262-1269 | for every mark-up, having mean >= 0 and mean squared equal to sr squared times the sample variance is the same as solving the quadratic with a non-negative mean |
| `Markup.SolveMarkup` | scripts/gate_power_study.py:1271-1300 | refused for fewer than two trades, a negative ratio or a mark no trade carries; any mark-up returned, precise or not, leaves the mean non-negative |
| `Markup.TwoRootsComplete` | scripts/gate_power_study.py:1291-1295 | away from a zero leading coefficient the two-root formula finds every zero and nothing else |
| `Markup.BelowAtZeroMean` | scripts/gate_power_study.py:1262-1269 | where the mean is zero the quadratic is never positive |
| `Markup.RootlessIff` | scripts/gate_power_study.py:1291-1299 | away from a zero leading coefficient no mark-up hits the ratio if and only if the parabola opens downward and has no zero, or already falls below zero at the zero-mean mark-up |
| `Markup.MarkupCorrectIffPrecise` | scripts/gate_power_study.py:1259-1300 | the answer is the mark-up of least magnitude that hits the ratio, the negative one of two, or a refusal when none does, if and only if a condition on the signs of the coefficients holds |
| `Markup.MarkupSoundAboveCutoff` | scripts/gate_power_study.py:1288-1300 | for every leading coefficient of magnitude at least 1e-15 the answer is exactly that |
| `Markup.TinyLeadingMisses` | scripts/gate_power_study.py:1288-1289 | four trades and any ratio less than the cut-off above 1/2: the mark-up returned misses the ratio |
| `Markup.TinyLeadingRefused` | scripts/gate_power_study.py:1288-1299 | four equal losses and any ratio less than the cut-off below 1/2: the leading coefficient is positive and tiny, and the solver refuses although a large mark-up, given outright, hits the ratio |
| `Markup.VanishingEquationRefused` | scripts/gate_power_study.py:1288-1299 | four trades whose equation vanishes: a mark-up of zero hits the ratio and the solver refuses |
| `ShardLog.CutText` | scripts/campaign_k6.py:457-463 | cutting the text anywhere and dropping the torn tail leaves exactly its whole lines |
| `ShardLog.LoadCrashImage` | scripts/campaign_k6.py:456-471 | a crash image loads if and only if it holds the header line, and then as the header and the whole rows it kept |
| `ShardLog.LoadRefusesStrangers` | scripts/campaign_k6.py:466-468 | no prefix of another run's file is ever resumed |
| `ShardLog.SyncedRowsSurvive` | scripts/campaign_k6.py:473-482 | rows that were synced survive every crash |
| `ShardLog.ShardFile.Open` | scripts/campaign_k6.py:441-471 | a new file holds its synced header; an existing one is refused untouched without resume; resuming a crash image of any log leaves file and index equal to its surviving whole rows |
| `ShardLog.ShardFile.Append` | scripts/campaign_k6.py:477-483 | file, log and in-memory index grow by the same row; the durable part moves only when a sync is due |
| `ShardLog.ShardFile.Close` | scripts/campaign_k6.py:485-487 | closing makes everything written durable and changes no byte |
| `ShardLog.Disk.Crash` | scripts/campaign_k6.py:473-482 | a crash leaves any prefix at least as long as the durable part |
| `CampaignStage.MissingExactly` | scripts/campaign_k6.py:626 | the work list is the requested documents without a row, none twice |
| `CampaignStage.ErrorStopCounts` | scripts/campaign_k6.py:641-642 | on a log without repeats the stop rule holds if and only if there are at least 1,000 rows and more than one in a hundred is an error row |
| `CampaignStage.RunTodo` | scripts/campaign_k6.py:628-654 | the file grows by the rows of the first n documents of the list, n being where the first stop rule fires, and the outcome says which rule that was |
| `CampaignStage.RunStage` | scripts/campaign_k6.py:621-654 | the same over the missing documents, the error rule stated by the number of error rows; no index ever appears twice, and done means every requested document has a row |
| `CampaignStage.ReadFile` | scripts/campaign_k6.py:490-499 | reading a whole file back returns its rows |
| `CampaignStage.SessionKeeps` | scripts/campaign_k6.py:441-483 | every session, however it ends, leaves a crash image of a sound log, so the next can resume it |
| `CampaignStage.HistoryKeeps` | scripts/campaign_k6.py:441-487 | over every history of sessions and crashes the file stays readable, holds no document twice and no stranger |
| `CampaignStage.HistoryConfluent` | scripts/campaign_k6.py:621-654 | after any history a session that runs to the end leaves the rows of one uninterrupted run: sorted, their indices strictly increase and they are the work of every document and nothing else |
| `CampaignStage.SortedIsRun` | scripts/campaign_k6.py:533 | sorting any rearrangement of the documents' rows puts them in strictly increasing index order |
| `CampaignStage.RunOfUnique` | scripts/campaign_k6.py:533 | there is only one such sequence for given documents |
| `CampaignStage.RunProcess` | scripts/campaign_k6.py:621-654 | one process on the disk, from opening with resume to being killed at any byte not yet durable or closing, leaves exactly what the session it amounts to leaves; how many documents it ran is what its limit, memory gauge and error rows allow; closed and done, the file holds the uninterrupted rows |
| `CampaignStage.RunProcesses` | scripts/campaign_k6.py:438-487 | any sequence of processes on one disk is a history of sessions; if the last reports done, the file is the header and every document's row, and the sorted rows are those of one uninterrupted run, indices strictly increasing |
| `CampaignMerge.ResiduesPartition` | scripts/campaign_k6.py:423-428 | position j of the pool is in shard j mod N and in no other |
| `CampaignMerge.ShardOfMembers` | scripts/campaign_k6.py:743 | the documents of a shard are pairwise distinct, all from the pool, and exactly those at its positions |
| `CampaignMerge.CollectShards` | scripts/campaign_k6.py:510-525 | the loop accepts if and only if all shards belong to one run, hold exactly what they declare and share no document; then coverage and rows are complete |
| `CampaignMerge.Merge` | scripts/campaign_k6.py:502-540 | accepts exactly the mergeable shards, and answers a rearrangement of all their rows with nondecreasing indices |
| `CampaignMerge.MergeCoversPool` | scripts/campaign_k6.py:526-532 | a successful merge of shards drawn from one duplicate-free pool covers it exactly, by cardinality alone when no planned list is stored |
| `CampaignMerge.MergeCoversOnce` | scripts/campaign_k6.py:516-532 | every document of the pool is in exactly one merged shard and has a row there |
| `CampaignMerge.AnyOrderMerges` | scripts/campaign_k6.py:502-533 | finished shards 0..N-1 in any order merge into the work of every document of the pool, once each, indices strictly increasing |
| `CampaignMerge.CampaignConfluent` | scripts/campaign_k6.py:438-540 | the whole stage: any interruptions of each shard, any bytes left by each crash, any merge order, the same rows |
| `CampaignMerge.MergeIsRunIff` | scripts/campaign_k6.py:516-533 | an accepted merge over a pool is the uninterrupted run if and only if every shard holds its documents' own rows, each once |
| `CampaignMerge.RepeatedRowAccepted` | scripts/campaign_k6.py:517-525 | a hand-made shard that holds its one row twice is accepted, and is not the uninterrupted run |
| `CampaignMerge.RunShards` | scripts/campaign_k6.py:743-753 | every shard's processes run on a disk of its own; each that ends done leaves its whole shard, header included |
| `CampaignMerge.RunCampaign` | scripts/campaign_k6.py:438-540 | a stage on its disks from nothing to the merge: once every shard's last process reports done, merging the files left, in any order, answers the work of every document of the pool and nothing else, indices strictly increasing |
| `StudyRuns.RunSession` | scripts/gate_power_study.py:1840-1864 | a resume is refused, leaving the file alone, if and only if the file is of another run or shard, has a row off the grid, or a replicate that lacks a ratio; otherwise the file after a process that was killed or ended is the specified last checkpoint or result |
| `StudyRuns.ResumeRowsIff` | scripts/gate_power_study.py:1948-1968 | the resume check accepts exactly the checkpoints of this run and shard whose rows are on the grid and whose replicates are whole, and takes all their rows |
| `StudyRuns.ResumeAccepts` | scripts/gate_power_study.py:1948-1968 | every checkpoint the loop can write is accepted by the resume check, with exactly its replicates counted as done |
| `StudyRuns.SessionKeeps` | scripts/gate_power_study.py:1840-1864 | a killed process leaves a resumable checkpoint; one that runs to the end writes the uninterrupted run's rows |
| `StudyRuns.HistoryKeeps` | scripts/gate_power_study.py:1840-1864 | over every history of kills, resumes and restarts the file is a resumable checkpoint |
| `StudyRuns.HistoryConfluent` | scripts/pooled_universe_study.py:1156-1172 | for a range or residue shard, after any history one run to the end writes exactly what a single uninterrupted run would have |
| `StudyRuns.SortedCellsCanonical` | scripts/gate_power_study.py:1858-1864 | sorting the rows of a whole shard by ratio and replicate gives the uninterrupted run's sequence whatever order they came in |
| `StudyMerge.DeclaredMembers` | scripts/pooled_universe_study.py:782-786 | what a range or a residue shard declares, by membership, for steps of either sign |
| `StudyMerge.CollectDocs` | scripts/pooled_universe_study.py:878-894 | the loop accepts if and only if all documents are complete shards of one study, with a step that is not zero, that hold what they declare and share no index |
| `StudyMerge.Merge` | scripts/pooled_universe_study.py:867-907 | accepts exactly the mergeable documents, and answers their rows as a single run sorts them |
| `StudyMerge.MergeTilesIffBounded` | scripts/pooled_universe_study.py:886-899 | an accepted mix of range and residue shards tiles [0, total) if and only if no shard declares an index outside it |
| `StudyMerge.AdmittedTile` | scripts/pooled_universe_study.py:1192-1201 | merged shards that the command lines admit always tile the plan exactly |
| `StudyMerge.ResidueShards` | scripts/pooled_universe_study.py:1192-1196 | every residue shard of any number of shards is admitted, and index i is in shard i mod n alone |
| `StudyMerge.RangeShards` | scripts/pooled_universe_study.py:1198-1201 | every range of any cut of the plan is admitted and holds exactly the indices between its cuts |
| `StudyMerge.MergeIsRunIff` | scripts/gate_power_study.py:1999-2014 | an accepted merge that stays in bounds is one uninterrupted run if and only if every document holds the rows of its replicates at every ratio, each once |
| `StudyMerge.MissingRatioAccepted` | scripts/gate_power_study.py:1999-2003 | a hand-made shard that lacks a ratio of the grid is accepted, and is not the uninterrupted run |
| `StudyMerge.OverlongShardAccepted` | scripts/gate_power_study.py:2009-2012 | one hand-made shard of two replicates is accepted as a study of one |
| `StudyMerge.TilingMerges` | scripts/pooled_universe_study.py:867-907 | finished shards that tile [0, total), any mix and any order, merge into the rows of one uninterrupted run |
| `StudyMerge.StudyConfluent` | scripts/gate_power_study.py:1971-2034 | any tiling into ranges and residues, any history and any final process of each, any merge order: exactly one uninterrupted run's row sequence |
| `StudyMerge.MergeOrderIrrelevant` | scripts/pooled_universe_study.py:806-826 | for rows with unique sort keys the merged sequence does not depend on the order of the shards |
| `Trials.CountScreenTrials` | scripts/campaign_k6.py:179-184 | the loop counts the pairs of a document and a listed timeframe it declares: H4 always, D1 unless it trades the London and New York sessions only |
| `Trials.ScreenTrialsCounted` | scripts/campaign_k6.py:707-708 | so does its specification |
| `Trials.ScreenTrialsByTimeframe` | scripts/campaign_k6.py:179-184 | counting by document or by timeframe pool gives the same number |
| `Trials.DeclaredBoundsEveryHistory` | scripts/campaign_k6.py:187-204 | no history that screens each declared pair at most once per universe and ladders at most the cap of screened documents, with grids of at most eight points, spends more than was declared; external trials plus own grid is exactly the declared count |
| `Trials.SpentCountsTrials` | scripts/campaign_k6.py:187-191 | what a history spends is the number of distinct trials (universe, timeframe, document, grid point) it makes: nothing tried is free and nothing is charged twice |
| `Trials.DeclaredBoundsTrials` | scripts/campaign_k6.py:187-200 | so no admissible history makes more distinct trials than were declared, written out in numbers |
| `Grammar.CellAt` | research/generate_families_k6.py:540-545 | the reversed divmod loop returns the cell of the flat index's mixed-radix digits |
| `Grammar.FlatOfDigits` | research/generate_families_k6.py:540-552 | encoding the decoded digits of any flat index below the grammar's size gives it back |
| `Grammar.DigitsOfFlat` | research/generate_families_k6.py:540-552 | decoding the encoding of any tuple of axis choices gives it back |
| `Grammar.CellsAreFlats` | research/generate_families_k6.py:540-552 | flat indices and cells of the grammar are in one-to-one correspondence |
| `Grammar.VisitMeetsEachOnce` | research/generate_families_k6.py:708-709 | visiting any permutation meets each cell of the grammar exactly once |
| `CellText.ParsePrint` | research/generate_families_k6.py:513-517 | decimal parsing undoes decimal printing |
| `CellText.SplitJoin` | research/generate_families_k6.py:513-517 | splitting undoes joining when no part holds the separator |
| `CellText.FromCode` | research/generate_families_k6.py:515-520 | whatever is read is a cell of the grammar |
| `CellText.FromCodeUndoesCode` | research/generate_families_k6.py:509-520 | reading a cell's code gives the cell back, for every grammar |
| `CellText.ReadCellsUndoesText` | research/generate_families_k6.py:782-813 | reading the written cells text returns the kept list unchanged |
| `Generate.FullDeduplicated` | research/generate_families_k6.py:720-735 | kept cells are pairwise distinct in all three hashes, disjoint from the prior rules and never excluded |
| `Generate.KeptOrCollides` | research/generate_families_k6.py:720-735 | a valid cell is dropped at its turn if and only if it repeats a prior rule or a hash of a cell kept before it |
| `Generate.VisitCell` | research/generate_families_k6.py:712-735 | one visited cell is kept under the next number or counted under the first reason to drop it, and the three maps record exactly the kept cells' hashes |
| `Generate.Walk` | research/generate_families_k6.py:708-740 | what is kept, visited and dropped (by reason) is that of the unbounded walk over the cells it went through, and it stops at the first cell that completes the requested size |
| `Generate.Generate` | research/generate_families_k6.py:689-742 | refused if and only if there are too few distinct documents; otherwise exactly `size` cells numbered from zero, the walk stopped at the cell that completes them, visited = kept + dropped, visited no more than the valid count |
| `Generate.KeptPlusDropped` | research/generate_families_k6.py:712-735 | over any cells, those not excluded are the kept ones plus those counted as dropped |
| `Generate.AnswerIsPrefix` | research/generate_families_k6.py:732-742 | the kept cells are the first of the unbounded walk's, and are deduplicated |
| `Generate.SmallerIsPrefix` | research/generate_families_k6.py:739-740 | of any two successful runs over one order, the smaller size's kept list, numbers included, is a prefix of the larger's |
| `Generate.SizeZeroKeepsAll` | research/generate_families_k6.py:739-742 | a size of zero or less keeps the whole walk |
| `Generate.SizeZeroKeepsOne` | research/generate_families_k6.py:739-742 | asking for no document of a walk that admits one yields that one |
| `Generate.CountValid` | research/generate_families_k6.py:694-699 | the counting loop counts the cells in flat order that are not excluded |
| `Generate.ValidOfAnyOrder` | research/generate_families_k6.py:694-712 | the valid count does not depend on the visiting order, so the walk never visits more cells than were counted |
| `Ladder.RunLadder` | src/fiboki/validation/ladder.py:1239-1256 | the loop stops at the first rung that fails or has a gate that does not clear (a value on its side of the threshold, in arithmetic), and is rejected by the first such gate of that rung or by the rung; past all rungs it is promoted if and only if every gate clears, and otherwise bound by the first that does not |
| `Ladder.MeasuringIsFailFast` | src/fiboki/validation/ladder.py:1338-1365 | one measurement judged under any gate set gives the verdict and binding constraint the fail-fast ladder would have given under it |
| `Ladder.BindingIsFirst` | src/fiboki/validation/gates.py:217-231 | the binding gate does not clear its threshold and is the first such by rung, then by declaration; there is none if and only if every gate clears |
| `Ladder.JudgeIsMeasured` | scripts/gate_power_study.py:446-465 | the closed form equals the report's verdict and binding if and only if the first blocking gate of an otherwise passing row is not an off-ladder gate without a value |
| `Ladder.RecordedStatus` | scripts/gate_power_study.py:400-408 | any gate's status, known at run time or not and whatever its threshold, is the same from the row as from the measurement if and only if the row keeps what it reads |
| `Ladder.JudgeRowsIsFailFast` | scripts/gate_power_study.py:422-478 | judging a recorded row agrees with a fail-fast run of the ladder under any gate set whose inputs the row keeps, with the same exact exception |
| `Ladder.TradeGateBlocks` | src/fiboki/validation/gates.py:678-688 | below the trade floor a gate set implies, the gate the floor comes from blocks |
| `Ladder.PastSanity` | src/fiboki/validation/ladder.py:357-430 | a candidate gets past rung 0 if and only if it is not degenerate, has the floor's trades and a positive expectancy, and clears rung 0's gates on its trade count, its minimum track record and the count over the greater of that and 150 |
| `Ladder.SanityNamed` | src/fiboki/validation/ladder.py:348-422 | one stopped at rung 0 that no gate of that rung names is rejected by the rung itself |
| `Ladder.TradeFloorHasGate` | src/fiboki/validation/gates.py:668-688 | the floor a gate set implies comes from one of its own gates |
| `Ladder.FloorImmaterial` | src/fiboki/validation/ladder.py:401-422 | a lower rung-0 floor changes no judgement of the fail-fast ladder: what it lets through is stopped there by the floor's own gate |
| `Ladder.MeasuringAcrossFloors` | src/fiboki/validation/ladder.py:1317-1365 | one measurement at the lowest floor, judged under a set with a higher one, says what that set's own fail-fast ladder would have said |
| `Ladder.OneMeasurementServesAll` | src/fiboki/validation/ladder.py:1317-1365 | one measurement under a floor no higher than any the gate sets imply gives each set the report of its own fail-fast ladder at its own floor |
| `Ladder.JudgeRowsAcrossFloors` | scripts/gate_power_study.py:422-478 | and so does judging the row recorded from it, with the same exact exception |
| `Ladder.PromotedExactly` | scripts/gate_power_study.py:446-465 | a row is promoted if and only if no rung failed or erred and every gate does not apply or has a value above, at least, below or at most its threshold, as it compares |
| `Ladder.PromotedCounted` | scripts/gate_power_study.py:446-465 | a promoted count is the number of rows left standing by every gate |
| `Ladder.RemovalNeverLowers` | scripts/gate_power_study.py:1891-1904 | the count without a gate is the number of rows that only it could have rejected or that were promoted already, so removing a gate never lowers a count |
| `Ladder.GateOffTheLadderDisagrees` | scripts/gate_power_study.py:462-463 | a ladder and a gate of no rung on which closed form and report differ |
| `LiveFlags.Scan` | scripts/check_live_flags.py:138-180 | a finding is reported if and only if the declarative reading says so, in strictly increasing line order |
| `LiveFlags.GovernorUnique` | scripts/check_live_flags.py:149-164 | at most one key governs a line |
| `LiveFlags.EmitIsReported` | scripts/check_live_flags.py:145-179 | with the pending key tracked, one turn of the loop emits exactly the line's report |
| `Lockfile.Parse` | scripts/lockfile.py:99-121 | the line loop computes the specified parse |
| `Lockfile.PyLinesSplits` | scripts/lockfile.py:103 | the lines of any text hold no break, make the text again with the breaks that end them, and never part a carriage return from a newline |
| `Lockfile.ParseUndoesToText` | scripts/lockfile.py:86-121 | parsing undoes printing on every well-formed lockfile, field by field, an empty digest being the computed one |
| `Lockfile.NamesInOrder` | scripts/lockfile.py:96 | the packages are printed in strict lexicographic order, each once |
| `Lockfile.NormaliseIdempotent` | scripts/lockfile.py:53-54 | normalising twice is normalising once |
| `Lockfile.NormaliseMerges` | scripts/lockfile.py:53-54 | two names normalise alike if and only if they differ only in case and in which of dash, underscore and dot they use |
| `Lockfile.InstalledWellFormed` | scripts/lockfile.py:57-70 | whatever printable distributions are installed, the package map found is one that survives printing |
| `Lockfile.InstalledExactly` | scripts/lockfile.py:57-70 | a package is found if and only if some distribution normalises to its name and it is not one of the five left unlocked; its version is that of the last such distribution, an absent or empty one being "0" |
| `Lockfile.ComparePartitions` | scripts/lockfile.py:197-203 | missing, extra, changed and equal names partition the union of both environments |
| `Lockfile.CompareOkIff` | scripts/lockfile.py:204-215 | ok if and only if every locked package is installed at its version (and, if strict, nothing is extra); numerical drift is the changed or missing numerical packages |
| `Lockfile.CompareValues` | scripts/lockfile.py:197-208 | missing and extra packages at the version they have, changed ones as (locked, installed), numerical drift with the marker for a missing one |
| `Lockfile.RecordThenVerifyOk` | scripts/lockfile.py:178-215 | recording an environment and verifying it unchanged is ok, strict or not |
| `Lockfile.RecordThenVerifyIff` | scripts/lockfile.py:178-215 | recording one environment and verifying another is ok if and only if every package of the first is in the second at the same version and, if strict, the converse |

## Left out

- Markup.SolveMarkup: its own contract gives the refusals and the non-negative mean; whether the mark-up hits the ratio is `Markup.MarkupCorrectIffPrecise`.
- Floating-point rounding: all arithmetic is exact; the 1% error-stop rule and the square root in `solve_markup` (an exact function parameter) included.
- Random generators: coins, block starts, mixing uniforms and the visiting permutation are inputs. The generator is consumed in a different order for different chunk sizes; the stream results are about fixed coin and start sequences.
- SHA-256, gzip, the JSON encoder and the clock: hashes are function parameters, and a row's encoding is assumed to decode to the row and to hold no line break.
- Run-dependent fields of a row (`rss_mb`, wall times): a row is a function of its document, or of its ratio and replicate.
- The backtest engine, the rungs' own computations, the holdout registry and the data store: a rung is its outcome, what it measures and the gates it declares not applicable.
- A crash before the shard file's header has been synced: a file without its whole header line is refused on resume, as `ShardLog.LoadCrashImage` states, and histories start from a synced header.
- `exclusion`, `_elide_refs`, `rules_hash` and the structure and body hashes: parameters of the generator.
- CellText.FromCode: refuses negative digits, and digits with signs, spaces or underscores, which Python's `int` and indexing accept; no written code holds them.
- Lockfile.NormaliseIdempotent: lower-cases ASCII letters only; package names are ASCII.
- The wording of error messages: every refusal is pinned by its condition, its text is not.
- The regular expressions of `scripts/check_live_flags.py`: lines are given by what they match.
- Trade fields the evaluators copy verbatim (direction, prices, cost shares, exit reason), and the per-grid-point record mixing of `BootstrapReplicate.column`, the one-sleeve form of `PooledReplicate.Replicate.Days`.
- The pooled study's rows of candidates that are not admitted, which are written without a checkpoint of their own: they are rows like the others here.
- What a gate set changes in the ladder besides the gates and the rung-0 trade floor: the other rungs are taken to run the same under every set, as they do in the source for one configuration.
- Repeated values in a study's ratio grid: the confluence results take distinct ratios, as the sort key needs.
- Summaries, diagnostics and admission tables: plain folds over the rows.
- The screen stage's signal-count bound, which rests on engine facts.
- The command-line interface, the web application, the ingestion, ledger, calendar and report scripts.
