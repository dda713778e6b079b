# Tackle features and play animator: a Dafny model

This project models the computational core of an NFL Big Data Bowl 2024
tackle-analysis repository. It has three parts.

- **Nearest-player features** (`feature_gen/nearest_defenders_and_offesnive.py`).
  For one tackle event, take the tracking rows of the event's game, play and
  frame, and look up the tackler's club. Split the rows into:
  - defenders: the tackler's club, without the tackler;
  - offensive: every other club, the football row included.

  Then take the three smallest distances from the event's tackler position in
  each group. Flag whether the ball carrier is among the three nearest
  offensive rows. Return one list: the defender distances, then the
  offensive distances, then the flag.
- **Blockers-between count** (`feature_gen/num_offensive_player_between.py`).
  Count the ball carrier's teammates, without the ball carrier, inside the
  closed box spanned by the tackler and the ball carrier. The box is widened
  by two yards on each side across the field.
- **The play animator** (`plotter2.py`, class `NflPlayAnimator`). The class
  keeps a cache from gameId to the week whose tracking file holds the game.
  A loop over the weekly files fills it; later weeks overwrite earlier ones.
  Loading a play fills the cache only when it is empty. The model also
  covers the rules `animate_play` and `_plot_players` apply before drawing:
  - which club is drawn as the offence;
  - the line of scrimmage and the first-down line;
  - the actual and predicted tackle lines;
  - which rows each dot shows in a frame;
  - the yard-number labels of the field.

## Layout

Each module is in its own file.
- `wrappers.dfy` (`Wrappers`): the `Option` and `Result` types.
- `seqs.dfy` (`Seqs`): stand-ins for the pandas primitives the source uses.
  - `Filter` is a boolean-mask selection.
  - `FirstIndex` and `FirstMatch` are "first row of a selection" (`iloc[0]`, `values[0]`).
  - `Unique` is `Series.unique()`.
  - The file also holds their lemmas.
- `tracking.dfy` (`Tracking`): the tracking row, the tackle event, the frame
  selection and the club lookup that both feature extractors begin with.
- `nearest.dfy` (`NearestPlayers`): the nearest-player features.
- `blockers.dfy` (`BlockersBetween`): the blockers-between count.
- `playgeometry.dfy` (`PlayGeometry`): the pure rules of `plotter2.py`.
- `animator.dfy` (`Animator`): the class `NflPlayAnimator`. Its gameId→week
  cache is a `map` field. `PopulateGameIdDict` and `StoreWeek` update it with
  loops, as the source's nested loop does.

Tables are sequences of records and coordinates are `real`. A missing
`nflId` (the football row) is `None`. As in pandas, `nflId == id` is then
false and `nflId != id` is true. Each raise the model keeps is an error
value of a `Result`:
- `iloc[0]` or `values[0]` on an empty selection;
- a `KeyError` on the cache or the ordinal-suffix table;
- `teams[1]` when there are fewer than two clubs;
- the header check of a weekly file.

The blockers-between example follows the code. With the tackler at (50, 25),
the ball carrier at (55, 27) and teammates at (52, 26) and (53, 29.5), the
box reaches y = 29, two yards past the larger y. So the teammate at y = 29.5
is outside and the count is 1, which `BlockersBetween.TwoTeammatesExample`
proves.

## Model

| member | source | states |
|---|---|---|
| Seqs.Filter | feature_gen/nearest_defenders_and_offesnive.py:10-12 | a mask selection keeps exactly the elements that satisfy the mask, and is no longer than its input |
| Seqs.FilterSize | feature_gen/num_offensive_player_between.py:26-27 | the number of selected rows (`shape[0]`) equals the number of positions at which the mask holds |
| Seqs.FilterFilter | feature_gen/num_offensive_player_between.py:23-27 | selecting with one mask and then another is selecting with their conjunction |
| Seqs.FilterPartition | feature_gen/nearest_defenders_and_offesnive.py:18-19 | three selections whose masks split every row into exactly one class have sizes adding up to the table's size |
| Seqs.FilterAppend | feature_gen/nearest_defenders_and_offesnive.py:10-12 | a selection over two concatenated tables is the concatenation of the two selections |
| Seqs.FilterDistinct | plotter2.py:173 | a selection from a sequence without repeats has no repeats |
| Seqs.FirstMatch | plotter2.py:122 | the first matching element (`values[0]`) is `None` exactly when nothing matches, and otherwise is the element at the first position that matches |
| Seqs.FilterPositions | feature_gen/nearest_defenders_and_offesnive.py:10-15 | a mask selection is the subsequence of its input at increasing positions, which are exactly the positions the mask keeps, so the input's order is kept |
| Seqs.FilterHead | feature_gen/nearest_defenders_and_offesnive.py:15 | a selection is non-empty exactly when some element matches, and then its first row (`iloc[0]`) is the first matching element of the input |
| Seqs.Unique | plotter2.py:35 | `unique()` lists every value of its input exactly once and nothing else, in order of first appearance |
| Seqs.UniqueCount | plotter2.py:172 | `unique()` has as many values as the input has distinct values |
| Seqs.DistinctCard | plotter2.py:172 | a sequence without repeats has as many elements as its set |
| Seqs.KeptInOrder | plotter2.py:173 | a selection from a list in order of first appearance is still in that order |
| Tracking.SameFrame | feature_gen/nearest_defenders_and_offesnive.py:10-12 | the frame holds exactly the tracking rows whose gameId, playId and frameId all equal the event's |
| Tracking.ClubOf | feature_gen/nearest_defenders_and_offesnive.py:15 | the club lookup fails with `PlayerNotInFrame` exactly when no frame row has the id; otherwise it is the club of the first row with that id |
| NearestPlayers.SqDist | feature_gen/nearest_defenders_and_offesnive.py:22-23 | every distance is non-negative |
| NearestPlayers.Defenders | feature_gen/nearest_defenders_and_offesnive.py:18 | the defenders are exactly the frame rows of the tackler's club whose id is not the tackler's |
| NearestPlayers.Offensive | feature_gen/nearest_defenders_and_offesnive.py:19 | the offensive rows are exactly the frame rows of any other club, the football row included |
| NearestPlayers.MinIndex | feature_gen/nearest_defenders_and_offesnive.py:26-27 | the chosen candidate is no farther than any other |
| NearestPlayers.Candidates | feature_gen/nearest_defenders_and_offesnive.py:22-23 | one candidate per group row, with the row's id and a non-negative distance |
| NearestPlayers.NSmallest | feature_gen/nearest_defenders_and_offesnive.py:26-27 | `nsmallest(n)` has min(n, size) entries; what it selects is stated by `NSmallestCorrect` |
| NearestPlayers.NSmallestCorrect | feature_gen/nearest_defenders_and_offesnive.py:26-27 | the selection has min(n, size) entries taken from the group, in non-decreasing distance, and no candidate left out is strictly closer than one taken |
| NearestPlayers.NearestInFrame | feature_gen/nearest_defenders_and_offesnive.py:18-34 | both groups' selections meet the `nsmallest(3)` specification; the indicator is 0 or 1, and 1 exactly when the ball carrier's id is among the selected offensive ids |
| NearestPlayers.SelectNearest | feature_gen/nearest_defenders_and_offesnive.py:10-34 | the selection fails exactly when the tackler has no row in the event's frame; otherwise it is the selection within that frame for the tackler's club |
| NearestPlayers.FindClosestPlayersAndBallCarrierIndicator | feature_gen/nearest_defenders_and_offesnive.py:8-37 | the feature function fails with `PlayerNotInFrame(tacklerId)` exactly when the tackler has no row in the frame |
| NearestPlayers.SelectedFromGroup | feature_gen/nearest_defenders_and_offesnive.py:22-31 | each selected entry is a row of its group, with its distance measured from the event's tackler position |
| NearestPlayers.SelectedDistances | feature_gen/nearest_defenders_and_offesnive.py:26-27 | the selected distances are non-decreasing and non-negative |
| NearestPlayers.Features | feature_gen/nearest_defenders_and_offesnive.py:37 | the list has one entry per selected defender and offensive row plus one, and ends with the indicator |
| NearestPlayers.FeaturesLayout | feature_gen/nearest_defenders_and_offesnive.py:37 | the list is the defender distances, then the offensive distances, then the indicator as its last element |
| NearestPlayers.FeatureVector | feature_gen/nearest_defenders_and_offesnive.py:26-37 | when the tackler has a row in the event's frame, the list has min(3,\|D\|)+min(3,\|O\|)+1 entries; both distance blocks are ascending and non-negative; the last entry is 0 or 1, and 1 exactly when the ball carrier is among the selected offensive rows |
| NearestPlayers.TacklerNeverSelected | feature_gen/nearest_defenders_and_offesnive.py:18 | no selected defender carries the tackler's id |
| NearestPlayers.SmallGroupSelectedWhole | feature_gen/nearest_defenders_and_offesnive.py:26-31 | a group of at most three rows is selected whole: the selection is the group's candidates as a multiset, so every row's id is among the selected ids |
| NearestPlayers.IndicatorNeedsBallCarrier | feature_gen/nearest_defenders_and_offesnive.py:34 | the indicator is 0 when the ball carrier has no offensive row |
| NearestPlayers.IndicatorWithFewOffensive | feature_gen/nearest_defenders_and_offesnive.py:26-34 | with at most three offensive rows, the indicator is 1 exactly when one of them is the ball carrier |
| NearestPlayers.FramePartition | feature_gen/nearest_defenders_and_offesnive.py:18-19 | defenders, offensive rows and the tackler's own rows together account for every frame row exactly once |
| NearestPlayers.NearestThreeExample | feature_gen/nearest_defenders_and_offesnive.py:26 | on four candidates at 1.2, 3.4, 0.8 and 5.0 the three smallest are 0.8, 1.2, 3.4, in that order |
| BlockersBetween.BoundingBox | feature_gen/num_offensive_player_between.py:18-19 | xmin ≤ xmax; ymin and ymax are the smaller and larger y shifted by two yards outwards, so ymax − ymin ≥ 4; both players' positions lie in the box |
| BlockersBetween.EventBox | feature_gen/num_offensive_player_between.py:14-19 | the event's box contains both positions recorded in the event row |
| BlockersBetween.Teammates | feature_gen/num_offensive_player_between.py:23 | the candidates are exactly the frame rows of the ball carrier's club whose id is not the ball carrier's |
| BlockersBetween.Inside | feature_gen/num_offensive_player_between.py:26-27 | the rows kept are exactly those inside the closed box |
| BlockersBetween.NumOffensivePlayersBetween | feature_gen/num_offensive_player_between.py:8-29 | the count fails with `PlayerNotInFrame(ballCarrierId)` exactly when the ball carrier has no row in the frame |
| BlockersBetween.CountIsRowsInBox | feature_gen/num_offensive_player_between.py:23-29 | the count is the number of frame positions holding a teammate of the ball carrier inside the closed box, and at most the number of teammates |
| BlockersBetween.InsideTeammatesSize | feature_gen/num_offensive_player_between.py:23-27 | within one frame, the teammates inside a box are as many as the frame positions that hold one, and no more than the teammates |
| BlockersBetween.CountZeroIff | feature_gen/num_offensive_player_between.py:26-29 | the count is zero exactly when no frame row is a teammate inside the box |
| BlockersBetween.BoundaryCounted | feature_gen/num_offensive_player_between.py:23-27 | the ball carrier's row is never counted; a teammate on any edge of the box is counted |
| BlockersBetween.SwapSymmetric | feature_gen/num_offensive_player_between.py:18-27 | exchanging the tackler's and the ball carrier's coordinates gives the same box and the same result |
| BlockersBetween.TwoTeammatesExample | feature_gen/num_offensive_player_between.py:18-29 | tackler at (50, 25) and ball carrier at (55, 27) give the box x in [50, 55], y in [23, 29]; with teammates at (52, 26) and (53, 29.5) the count is 1 |
| PlayGeometry.LineOfScrimmage | plotter2.py:199-206 | with at most 10 yards to go the line is the absolute yardline; otherwise it lies yardsToGo − 10 yards behind it in the direction of play |
| PlayGeometry.FirstDownLine | plotter2.py:210-214 | the first-down line lies yardsToGo yards ahead of the absolute yardline in the direction of play |
| PlayGeometry.FirstDownFromScrimmage | plotter2.py:199-214 | the first-down line lies yardsToGo ahead of the line of scrimmage when yardsToGo ≤ 10, and 2·yardsToGo − 10 ahead otherwise |
| PlayGeometry.TackleLine | plotter2.py:123-126 | the tackle line lies `result` yards ahead of the line of scrimmage in the direction of play |
| PlayGeometry.PredictedTackleLine | plotter2.py:120-128 | the predicted line is absent exactly when no prediction row matches the play, frame and tackler; otherwise it is the predicted result of the first matching row, ahead of the line of scrimmage |
| PlayGeometry.ActualTackleLine | plotter2.py:223-227 | the actual line fails with `NoPlayResult` exactly when no prediction row matches the play and tackler; otherwise it is the actual result of the first matching row (of any frame), ahead of the line of scrimmage |
| PlayGeometry.NumFrames | plotter2.py:172 | the number of frames is the number of distinct frameIds of the rows; it is at most the number of rows, and zero exactly when there are no rows |
| PlayGeometry.Teams | plotter2.py:173 | the teams never include the football, are distinct, are exactly the other clubs that have a row, and are listed in the order in which the clubs first appear in the rows, so `teams[0]` is the first club seen |
| PlayGeometry.OffenceFirst | plotter2.py:190-194 | the swap keeps the two clubs; it puts the possession team first whenever it is one of them; it swaps exactly when the first is not the possession team |
| PlayGeometry.NumSuffix | plotter2.py:184-185 | a down has an ordinal suffix exactly when it is 1 to 4 |
| PlayGeometry.PlaySetupOf | plotter2.py:172-227 | the set-up fails exactly when there are fewer than two clubs, the down is not 1 to 4, or no prediction row gives the play's result, with the error of the first of these in that order |
| PlayGeometry.PlaySetupFacts | plotter2.py:172-227 | on success: the offence and the defence are the two listed clubs, distinct and not the football; the offence is the possession team when that is one of them; both clubs have rows; the direction is that of the first row; the frame count, line of scrimmage, first-down line and actual tackle line (from the first matching prediction row) are those rules' values |
| PlayGeometry.Highlight | plotter2.py:150-162 | a highlighted dot is left unchanged exactly when the player has no row in the frame; otherwise it shows exactly that player's rows of the frame |
| PlayGeometry.PlotFrame | plotter2.py:113-164 | each team's dots are exactly its rows of the frame other than the tackler and the ball carrier; the ball's dots are the football rows of the frame; the tackler and the ball-carrier dots, and the predicted line, are left unchanged exactly when there is nothing to show |
| PlayGeometry.EveryDotDrawnOnce | plotter2.py:130-162 | with two distinct non-football clubs, a football row without an id and a tackler other than the ball carrier, each frame row of either club or of the football is shown by exactly one of the team, ball and highlight dot sets, and never twice |
| PlayGeometry.Range | plotter2.py:85 | `range(start, stop, step)` lists start, start+step, … below stop, stops at the first that is not, and is empty when start ≥ stop |
| PlayGeometry.YardLabel | plotter2.py:86-90 | the label written at x; its values on the drawn positions are stated by `YardLabelsAsDrawn` and `YardLabelProperties` |
| PlayGeometry.YardLabelsAsDrawn | plotter2.py:85-90 | the labels are drawn at x = 20, 30, …, 100 and read 10, 20, 30, 40, 50, 40, 30, 20, 10 |
| PlayGeometry.YardLabelProperties | plotter2.py:85-88 | the positions are symmetric about midfield, position and mirror position get the same label, labels lie in 10 to 50, and the label is 50 exactly at x = 60 |
| Animator.GameIds | plotter2.py:35 | the distinct gameIds of a weekly file; `GameIdsListed` states which they are |
| Animator.GameIdsListed | plotter2.py:35 | a weekly file's gameIds are listed once each, and exactly the games with a row in the file are listed |
| Animator.FirstBadWeek | plotter2.py:29-33 | the first file whose header is not `gameId`; all files before it are well formed |
| Animator.AssignAll | plotter2.py:36-37 | the cache after storing one week for each gameId of a list in turn; `AssignAllEffect` states its effect |
| Animator.Populated | plotter2.py:29-37 | the cache after the first k weeks were read in order; `PopulatedAt` and `PopulatedInRange` state its contents |
| Animator.AssignAllEffect | plotter2.py:36-37 | storing a week for a list of gameIds gives each of them that week and leaves every other entry alone |
| Animator.LastIndexWith | plotter2.py:29-37 | the last of the first k weeks whose list holds the game, or −1; no later one does |
| Animator.PopulatedAt | plotter2.py:29-37 | after reading the first k weeks a game is cached at the last week holding it (later weeks overwrite earlier ones), and keeps its earlier entry if no week holds it |
| Animator.PopulatedInRange | plotter2.py:11-12 | reading at most nine weeks keeps every cached week in [WEEK_START, WEEK_END] |
| Animator.PlayRows | plotter2.py:43-44 | a load fails with `GameNotCached` exactly when the game is not cached; otherwise it returns exactly the play's rows of the cached week's file |
| Animator.CacheAfterLoad | plotter2.py:39-41 | the cache after a load: filled from the weekly files only when it was empty; `LoadPlayData` is proved to leave exactly this cache |
| Animator.LoadResult | plotter2.py:39-46 | what a load returns, from the cache before it; `LoadFromEmptyCache` and `PlayRows` state its cases |
| Animator.LoadFromEmptyCache | plotter2.py:39-46 | with an empty cache and well-formed files, a load fails exactly when no file holds the game; otherwise it returns exactly the play's rows of the last week whose file holds it |
| Animator.PlayRowsOfWeek | plotter2.py:43-44 | a game cached at the week of index j reads that week's file; a game not cached fails |
| Animator.LastWeekWithGame | plotter2.py:29-37 | a last week holding a game exists exactly when some weekly file holds it |
| Animator.RaisedPopulationKeepsEarlierWeeks | plotter2.py:29-37 | when a header check raises, the cache keeps exactly the games of the weeks read before the bad file |
| Animator.NflPlayAnimator.constructor | plotter2.py:15-17 | the cache starts empty and the predictions table is kept |
| Animator.NflPlayAnimator.PopulateGameIdDict | plotter2.py:28-37 | the loop leaves the cache as the weeks before the first bad file (or all nine) stored it, keeps every week in [1, 9], and raises `BadTrackingHeader(week)` exactly when some file's header is wrong |
| Animator.NflPlayAnimator.StoreWeek | plotter2.py:36-37 | the inner loop stores the week for each gameId in order |
| Animator.NflPlayAnimator.LoadPlayData | plotter2.py:39-46 | the cache is filled only when it was empty, and a non-empty cache is left unchanged; the result is the play's rows from the cache so obtained, or the error the filling raised |
| Animator.NflPlayAnimator.AnimatePlay | plotter2.py:166-227 | the play is loaded and then set up, and a load error is passed on; the cache is the one the load leaves |
| Animator.NflPlayAnimator.SetUpPlay | plotter2.py:172-227 | the imperative set-up, including the swap through a temporary, computes exactly the set-up of `PlaySetupOf` |

## Left out

- NearestPlayers.FindClosestPlayersAndBallCarrierIndicator: returns squared Euclidean distances instead of their square roots. The square root is strictly increasing on non-negative reals, so the selection, its order and the indicator are the same; only the reported values differ. The indicator is also returned as the real 0.0 or 1.0, where the source appends the integer 0 or 1 to the list of floats; the two compare equal.
- NearestPlayers.NSmallestCorrect: the order among equally distant candidates is left open. The model picks the first of them; which one pandas `nsmallest` keeps is not modelled.
- Floating point: coordinates, distances and play results are exact `real` values. IEEE rounding is not modelled.
- `main()` of both feature files is not modelled. It does the pickle loading and saving, progress reporting with `tqdm`, and the column assignment over the event table.
- Reading files is not modelled: the CSV and pickle reads and the pandas `query` calls. The nine weekly tracking files are a parameter holding each file's first header and its rows. The predictions table is a constructor parameter. The play's `plays.csv` row is a `PlayInfo` parameter. A missing file (`FileNotFoundError`) is not modelled.
- `_get_play_description_dict` is replaced by the `PlayInfo` parameter. It supplies the possession team for the swap, the down for the suffix lookup, yardsToGo and the absolute yardline for the line of scrimmage and the first-down line, and the ball carrier's id. The `StopIteration` it raises when `plays.csv` has no row for the play is not modelled; the model always has a row.
- The `games.csv` lookup is not modelled: its only use is the title text. Its empty-selection error at `df_game.week.values[0]` is not modelled either.
- The title strings, the f-string text, `textwrap.fill` and the ordinal suffix text are not modelled. Only whether the suffix lookup succeeds is modelled.
- Drawing is not modelled: all matplotlib work (the field, patches, colours, legends, `set_data`, `FuncAnimation`, `rc`, `plt.ion`/`ioff`). `PlayGeometry.PlotFrame` gives the rows each dot set would show for a frame number. Which frame numbers `FuncAnimation` passes (0 to n_frames − 1) and the `interval` timing are not modelled.
- `_create_football_field` is modelled only for its yard-number positions and labels. Its grid lines and tick marks are fixed drawing constants.
- `plotter.py` is not part of this model. It draws only a field, and its yard-label rule is the same as that of `plotter2.py`.
- Animator.NflPlayAnimator.LoadPlayData: after a load whose header check raised part-way, the cache is non-empty and is never filled again. The model's contract states this like the source. The source also reads the file of the cached week without checking its header again, and the model does not check it either.
