# Masters leaderboard tracker: a verified model of its data core

The tracker is a single Streamlit script, `app.py`. It loads a table of golf
results, one row per player and hole (`Short_Name`, `Full_Name`, `Round`,
`Hole_Number`, `Position`, `Total_Score`). It draws one line per selected
player across a range of holes, optionally as an animation with one frame
per hole, and shows a leaderboard card grid. This project models the data
transformations behind those views as Dafny functions, methods and lemmas:

- `Table` (table.dfy): the row record, the metric column, `max_hole`, the
  first row of a player at a hole, the rows at one hole, and pandas
  `unique()`.
- `Rounds` (rounds.dfy): the round selector. It covers the option labels
  `"All Rounds"` / `"Round r"` and how a label is read back with
  `split(" ")` and `int`. It also covers the hole range that a choice selects,
  the split of a global hole into round and hole-in-round, and the row
  filter for the chosen round and players.
- `Trajectories` (trajectories.dfy): per-player trajectories, the static
  traces and the animation frames. The loops that build them are methods,
  each proved equal to a specification function. The lemmas say what those
  functions promise.
- `TickLabels` (tick_labels.dfy): the x-axis labels.
- `Leaderboard` (leaderboard.dfy): the default player selection and the
  leaderboard card grid.
- `Numerals` (numerals.dfy) and `Wrappers` (wrappers.dfy): decimal
  rendering and parsing of integers, and `Option`/`Result`.

The table is an input sequence of rows. The user's choices (selected
players, round label, metric) are parameters.

Sorting by `Position` uses pandas' default sort, which is not stable. So
the model does not fix one order: the default players and the leaderboard
are defined for any `sorted` that satisfies `SortsByPosition`, meaning a
permutation of the rows in nondecreasing position. `SortByPosition` is one
such order, so these members always have an input.

Three facts about the code that the model keeps:
- The code does not check that a round number lies in 1..4. Neither does
  the model.
- The default players are the distinct names among the first six rows at
  the last hole (`head(6)` and then `unique()`), not the first six distinct
  names. So there can be fewer than six.
- The code does not break ties in position by table order. Neither does
  the model (see above).

## Model

| member | source | states |
|---|---|---|
| `Table.MaxHole` | app.py:100 | the result bounds every row's hole number and is the hole number of some row |
| `Table.FirstRow` | app.py:171-175 | no result exactly when the player has no row at the hole; otherwise a row of that player at that hole with no such row before it |
| `Table.FirstRowOf` | app.py:165-166 | the player's first row in table order, the one whose `Full_Name` labels the trace |
| `Table.AtHole` | app.py:106 | a row is kept iff it is in the table and lies at the hole; the kept rows are a sub-multiset of the table |
| `Table.AtHoleCounts` | app.py:106 | each row at the hole is kept exactly as many times as the table holds it, and no other row is kept |
| `Table.AtHoleConcat` | app.py:106 | selecting the rows at a hole commutes with concatenation, so the kept rows stay in table order |
| `Table.Unique` | app.py:99 | every value of the input appears once and only input values appear |
| `Table.UniqueKeepsFirstOccurrenceOrder` | app.py:107 | `unique()` lists values in the order of their first occurrence |
| `Numerals.IntRoundTrip` | app.py:141 | `int` applied to what `str` wrote gives back the integer |
| `Numerals.IntToStringInjective` | app.py:277 | two integers are written alike iff they are equal |
| `Rounds.RoundsOf` | app.py:99 | every round of the table is listed, only rounds of the table are listed, and none twice |
| `Rounds.RoundsOfFirstAppearance` | app.py:99 | the distinct rounds are listed in the order of their first appearance in the `Round` column |
| `Rounds.RoundOptions` | app.py:125-128 | the first label is `"All Rounds"`, followed by `Round r` for each distinct round `r` of the table, in the order `RoundsOfFirstAppearance` fixes |
| `Rounds.RoundOptionsDistinct` | app.py:125-128 | no label is offered twice |
| `Rounds.RoundOptionsCoverRounds` | app.py:125-128 | every round of the table has its label among the options, and every label after the first names a round of the table |
| `Rounds.SplitOnSpace` | app.py:141 | `split(" ")` yields at least one field, no field holds a space, and joining the fields with single spaces gives back the input; there is exactly one field iff the input has no space |
| `Rounds.ParseRoundChoice` | app.py:139-141 | all rounds iff the label is `"All Rounds"`; an `IndexError` (no second field) iff another label has no space; a `ValueError` iff the second field is not an integer; otherwise the round is the integer in the second field |
| `Rounds.ParseRoundLabel` | app.py:140-141 | a label `"Round r"` is never `"All Rounds"` and reads back as round `r` |
| `Rounds.RoundOptionsRoundTrip` | app.py:127-141 | the selector offers one more label than the table has distinct rounds; the first reads back as all rounds, the others as each round in turn |
| `Rounds.HoleRangeFor` | app.py:140-148 | round `n` selects exactly the 18 holes whose round is `n`; all rounds selects exactly holes 1 .. `max_hole` |
| `Rounds.HolePlace` | app.py:196-197 | a hole is `(round - 1) * 18 + hole_in_round` with `hole_in_round` in 1..18 |
| `Rounds.HolePlaceUnique` | app.py:196-197 | that decomposition is the only one: hole `k` of round `r` decomposes back into `r` and `k` |
| `Rounds.HoleRange.Min` | app.py:260 | `min(hole_range)` is in the range and below all its holes |
| `Rounds.HoleRange.Max` | app.py:331-333 | `max(hole_range)` is in the range and above all its holes |
| `Rounds.FilterRows` | app.py:140-152 | a row is kept iff it is in the table, in the chosen round (if one is chosen) and of a selected player (if any is selected) |
| `Rounds.FilterRowsCounts` | app.py:140-152 | each admitted row is kept exactly as many times as the table holds it, and no other row is kept |
| `Rounds.FilterRowsConcat` | app.py:140-152 | filtering commutes with concatenation, so the kept rows stay in table order |
| `Rounds.FilterKeepsFirstRow` | app.py:142-152 | filtering does not change a player's first row at a hole when the filter admits all of that player's rows there |
| `Trajectories.Trajectory` | app.py:169-176 | a trajectory has no more points than the range has holes, and each point's hole is in the range (`TrajectoryAscending` adds that no hole repeats) |
| `Trajectories.BuildTrajectory` | app.py:169-176 | the append loop builds exactly the trajectory of the player over the range |
| `Trajectories.TrajectoryAscending` | app.py:170-176 | over ascending holes, the trajectory is strictly ascending by hole |
| `Trajectories.TrajectoryContents` | app.py:170-176 | a hole appears iff it is in the range and the player has a row there; its value is the metric of the player's first row at that hole; missing holes are skipped |
| `Trajectories.TrajectoryPrefix` | app.py:260-266 | the trajectory over a prefix of the holes is a prefix of the trajectory over all of them |
| `Trajectories.TrajectoryEmpty` | app.py:169-179 | the trajectory over a range is empty iff no row of the player lies in the range |
| `Trajectories.TraceOutcome` | app.py:164-191 | the static series of one player fails with `IndexError` iff the table has no row of the player, and with `KeyError` iff it has rows of the player but none in the range; otherwise it is `StaticTrace`: named `player (Full_Name)` after the player's first row and carries a non-empty, hole-ascending trajectory |
| `Trajectories.BuildTraces` | app.py:164-191 | the loop succeeds iff every selected player's series can be built, and then gives one trace per selected player in selection order; otherwise it fails with the error of the first player whose series cannot be built |
| `Trajectories.BuildFrame` | app.py:253-277 | one frame: its name and one series per player, each the trajectory from the first hole of the range up to the frame's hole |
| `Trajectories.BuildFrames` | app.py:250-277 | the frame loop builds exactly one such frame per hole of the range, in ascending order |
| `Trajectories.FrameSeries` | app.py:255-266 | frame `i` carries one series per player, equal to the trajectory over the first `i + 1` holes of the range |
| `Trajectories.FramesOnePerHole` | app.py:252-277 | there are as many frames as holes; frame `i` is named `hole_{h}` for the `i`-th hole and carries one series per player; names are pairwise distinct |
| `Trajectories.FrameIsPrefixOfFull` | app.py:260-266 | each frame's series is a prefix of the player's full trajectory and holds only holes from the range start to the frame's hole |
| `Trajectories.FramesGrow` | app.py:252-266 | each frame's series is a prefix of the next frame's |
| `Trajectories.LastFrameIsFull` | app.py:252-268 | for every selected player, the last frame's series equals the points of the player's static series as `GuardedTrace` builds it |
| `Trajectories.MissedRoundFails` | app.py:141-166 | with a player who has no row in the selected round, the filtered table has no row of them and their static series fails with `IndexError`, while the frame loop's guard at app.py:268 would give them an empty series |
| `Trajectories.HolesOutsideRangeFail` | app.py:164-184 | with a player whose rows all lie outside the hole range, the static series fails with `KeyError`, while the frame loop's guard at app.py:268 would give them an empty series |
| `Trajectories.GuardedTrace` | app.py:164-191 | agrees with the static series wherever the code builds one; its points are empty iff no row of the player lies in the range |
| `Trajectories.RoundFilterKeepsTrajectory` | app.py:142-152 | if every row's round agrees with its hole, filtering to round `n` and the selected players leaves a selected player's trajectory over round `n`'s holes unchanged |
| `TickLabels.HoleName` | app.py:196-203 | a label is non-empty iff the hole is the first of its round or its hole-in-round is a multiple of 3; it starts with `R` iff the hole is the first of its round; it ends with `H` and the hole-in-round |
| `TickLabels.BuildHoleNames` | app.py:194-203 | one label per hole of the range, in order, each the label of its hole |
| `TickLabels.HoleNameInRound` | app.py:196-203 | hole `k` of round `r` is labelled `R{r} H1` when `k = 1`, `H{k}` when `k` is a multiple of 3, and nothing otherwise |
| `TickLabels.RoundTickLabels` | app.py:194-203 | over round `n`, the label at index `i` follows that rule for hole `i + 1`; it is non-empty iff `i = 0` or `i + 1` is a multiple of 3 |
| `Leaderboard.InsertByPosition` | app.py:339 | inserting into a position-sorted list keeps it sorted and adds exactly the one row |
| `Leaderboard.SortByPosition` | app.py:339 | one admissible result of `sort_values("Position")`: a permutation in nondecreasing position |
| `Leaderboard.HeadIsBest` | app.py:343 | the head of a sorted list is a sub-multiset of the rows, and no row left out of it has a smaller position than a row in it |
| `Leaderboard.DefaultPlayers` | app.py:106-107 | at most six names, pairwise distinct, each with a row at `max_hole`; a name is a default player iff it is the name of one of the first six sorted rows |
| `Leaderboard.DefaultPlayersOrdered` | app.py:106-107 | the players are listed in the order in which their names first occur among the first six rows, hence in nondecreasing position of those rows |
| `Leaderboard.DefaultPlayersAreBest` | app.py:106-107 | no row at `max_hole` outside the first six has a smaller position than any default player's row |
| `Leaderboard.PositionClass` | app.py:345 | the class is non-empty iff the position is at most 3, and then it is `position-` followed by text that reads back as the position; for positions 1, 2 and 3 it is exactly one of the stylesheet's selectors `position-1`, `position-2`, `position-3` |
| `Leaderboard.LeaderboardCards` | app.py:331-345 | `min(8, rows at max(hole_range))` cards; card `i` carries the `i`-th sorted row, sits in column `i % 4` and has that row's position class; each card is a table row at that hole, in nondecreasing position |
| `Leaderboard.LeaderboardShowsBest` | app.py:336-343 | the cards carry exactly the first eight sorted rows, a sub-multiset of the rows at that hole, and no row at that hole that is left off the grid has a smaller position than a card on it |

## Left out

- The Streamlit page, sidebar widgets, CSS and HTML card markup (app.py:13-61, 102-104, 109-126, 128-137, 346-352) are UI. The model takes the selected players, the round label and the metric as parameters.
- The logo drawn with matplotlib and encoded with base64 (app.py:64-82) comes from a foreign library.
- CSV loading and `@st.cache_data` (app.py:90-95) are I/O and a framework cache. The table is an input sequence.
- The Plotly figure, layout, titles, axis styling, legend and play button (app.py:182-186, 188-191, 205-236, 270-275, 280-307) configure a library whose behaviour is not part of this model. Traces and frames are modelled as names and point lists. The one effect of the DataFrame conversion at app.py:179 that matters, the `KeyError` on an empty trajectory, is modelled by `Trajectories.TraceOutcome`.
- The animation durations `400 / speed` and `300 / speed` and the round separators at `(r - 1) * 18 + 0.5` (app.py:239-247, 293-295) are floating-point values for the renderer.
- Which of several rows with equal `Position` comes first after sorting (app.py:107, 339) is not fixed, because pandas' default sort is not stable. The model accepts any nondecreasing permutation.
- `Numerals.ParseInt` accepts only an optional minus sign followed by digits. Python's `int` also accepts `+`, surrounding whitespace and underscores, but the labels built at app.py:127 never contain them.
- `Table.MaxHole` requires a non-empty table. With no rows, pandas gives NaN and the program fails when it builds the hole range. The model has no such error value.
- `Rounds.HoleRange.Max` and `Rounds.HoleRange.Min` require a non-empty range. Python raises `ValueError` there, and the model does not represent it.
- The multiselect's option list (`data["Short_Name"].unique()`, app.py:98) is not modelled as a separate member. It is `Table.Unique` applied to the name column.
- `Position` and `Total_Score` are unbounded integers. The `int(...)` cast of the position at app.py:345 is the identity on them.

## Findings

| source | as written | input that shows it | evidently intended | confidence | as-written member | corrected member |
|---|---|---|---|---|---|---|
| app.py:164-166 | the full name is read with `.iloc[0]` from the player's rows in the filtered table, which raises `IndexError` when the selected round has no row of the player | a player selected in the sidebar who has rows only in round 1 (say, one who missed the cut), with `Round 2` chosen | an empty line for that player, as the frame loop's guard at app.py:268 would give | high; not executed | `Trajectories.TraceOutcome`, `Trajectories.MissedRoundFails` | `Trajectories.GuardedTrace` |
| app.py:179-184 | `pd.DataFrame([])` for an empty trajectory has no `Hole` column, so `trajectory_df["Hole"]` raises `KeyError` | a player whose rows all have hole numbers outside the range, such as a row at hole 0 with `All Rounds` chosen | an empty line, as the frame loop builds with `pd.DataFrame({"Hole": [], y_column: []})` (app.py:268) | medium (needs hole numbers outside the range, which well-formed data does not have); not executed | `Trajectories.TraceOutcome`, `Trajectories.HolesOutsideRangeFail` | `Trajectories.GuardedTrace` |
