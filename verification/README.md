# What the taxi MLOps scripts promise, modelled and proved

The scripts of this repository keep a feature store honest, publish marts, measure zones,
derive holidays, provision boards, and resume a tuning study. This project models the ones
whose promises are easy to state and hard to keep, and proves those promises for every input,
every run and every reachable state.

| part | files |
|---|---|
| months and days | `Calendar.dfy` |
| point-in-time feature store | `Aggregates.dfy`, `FeatureStore.dfy`, `FeastSources.dfy`, `PointInTime.dfy`, `LookupParity.dfy`, `WindowStatistics.dfy`, `ServedStatistics.dfy` |
| retrieval and online gates | `FeastRetrieval.dfy`, `RetrievalGate.dfy`, `OnlineParity.dfy` |
| marts publish | `MartsTables.dfy`, `MartsPublish.dfy`, `MartsLaws.dfy`, `MartsRuns.dfy`, `MartsReport.dfy`, `MartsHistory.dfy` |
| zone centroids | `Shoelace.dfy`, `ZoneCentroids.dfy` |
| federal holidays | `HolidayRules.dfy`, `Holidays.dfy`, `HolidayTable.dfy`, `HolidayYears.dfy` |
| Metabase boards | `MetabaseServer.dfy`, `MetabaseBoards.dfy`, `MetabaseClient.dfy`, `BoardLaws.dfy`, `BoardConvergence.dfy`, `SharedCards.dfy`, `CardDefinitions.dfy`, `Dashcards.dfy`, `BoardVerify.dfy` |
| volume-ratio counterfactual | `Counterfactual.dfy` |
| resumable study | `OptunaSniper.dfy` |

Code that computes is modelled by functions and code that loops or changes state by methods
and classes; each such method is proved to do what a function says, and the laws are proved
about the functions. `dafny verify dfyconfig.toml` checks everything.

**Conventions.** An instant is a whole number of seconds, a date a day number (day 1 is
0001-01-01), and month `i` of the year `y` is the number `12 * y + i - 1`. Floats are exact
reals; NaN, null and an absent key are all `None`. Tables are sequences of rows. `Lists(r, all,
marks)` says that `r` holds the elements of `all` at the marked places, each once, in order.

## Where the code and its words differ

In each case the model follows the code.

* **Gaps between train months.** `transform` serves every month that was not fitted the full
  table. For a month after the last one that is its history; for a month in a gap, or before
  the first, it is the future. The store's join never does this. `LookupParity.OdJoinIsLookupIff`
  and `LookupParity.PuHourJoinIsLookupIff` say exactly on which rows the two agree.
* **Zone ids out of range.** `transform` clips them to slot 0; the store has no such key to join.
* **"Anything else is a row the store lost"** (`scripts/feast_retrieval.py:308-309`). The join
  drops a row whose key it first knows later, and the gate calls that row unexplained although
  nothing was lost and the alignment is right: `FeastRetrieval.DroppedRowIsUnexplained`. Of an
  answer that lost nothing, nothing is unexplained exactly when every declared row from the
  earliest stamp on has a value: `FeastRetrieval.NothingLostIsUnexplainedIff`,
  `RetrievalGate.OdUnexplainedIff`. The online gate says the same of its pairs
  (`scripts/feast_online_parity.py:287-289`): `OnlineParity.NoPairLostIsUnexplainedIff`.
* **"ONE transaction per month"** (`scripts/marts_publish.py:345`). The delete commits before
  the stream starts: `MartsHistory.MonthIsEmptyBetween` shows a reader the empty month, and
  `MartsHistory.TurnIsOneTransactionIff` says exactly when a month's turn shows nothing but the
  old and the new content.
* **"nothing was committed"** (`scripts/marts_publish.py:318`). A short stream is committed
  before the exporter's exit code is read (`MartsHistory.ShortStreamIsCommitted`); the message is
  true exactly of an export that delivered no row: `MartsHistory.NothingCommittedIff`.
* **An empty list of months.** `publish(months=())` reports its mode as a full refresh
  (`scripts/marts_publish.py:515`) and leaves the fact table alone: `MartsReport.NoMonthsTouchNoFacts`.
* **Reconciliation.** It compares counts, so an unnamed month with other rows but as many
  passes: `MartsHistory.ReconcileSeesOnlyCounts`.
* **"Only rows the file has never held get a generated note"**
  (`scripts/derive_us_federal_holidays.py:53`). A row held with a blank note gets it too
  (`HolidayTable.BlankNoteIsRegenerated`); which held notes are kept is
  `HolidayTable.HeldNoteIsKeptIff`.
* **"so sort at the end"** (`scripts/derive_us_federal_holidays.py:145`). The sort is needed
  within a range, but two ranges that meet concatenate as they are: `Holidays.DerivedConcatenates`.
* **"fewer than 3 distinct vertices"** (`scripts/derive_zone_centroids.py:142`). An open ring
  of three points is skipped although it is a triangle with an area: `ZoneCentroids.SkippedArea`.
* **Zero area.** A bow tie has zero area and loses moments it does have. Alone it is refused,
  whole or cut; among other rings of non-zero total area, cutting it into its halves moves the
  centroid: `ZoneCentroids.BowTieLosesItsMoments`, `ZoneCentroids.BowTieBesideATriangle`. When a
  cut keeps the centroid is `ZoneCentroids.CutKeepsCentroidIff`.
* **"Nothing here archives or deletes"** (`scripts/metabase_boards.py:19`). No database, card or
  dashboard is, but dashcards are: one placed by hand, and all but the last of a card placed
  twice. Exactly which dashcards stay is `Dashcards.DashcardStaysIff`.
* **"loses any per-placement setting"** (`scripts/metabase_boards.py:288-289`). A dashcard that
  keeps its id loses its settings as well, since the request sends empty ones: they are what they
  were exactly when there were none, `Dashcards.SettingsStayIff`.
* **"IDEMPOTENCE IS BY NAME"** (`scripts/metabase_boards.py:16`). Boards may share a card name
  only if the server has the card already: a second run changes nothing if and only if every
  shared name was live before the first, `SharedCards.ConvergeIsIdempotentIff`.
* **Two `marts` connections.** `converge` takes the first and `verify` the last of that name, so
  `verify` can never be green: `BoardVerify.VerifyIsGreenIff`. It does not notice the duplicate
  cards of a shared name: `BoardVerify.GreenIsNotSettled`.
* **"never silent after first firing"** (`scripts/f051_counterfactual.py:114`). That claim always
  holds; the condition printed beside it also asks that the whole month already fires:
  `Counterfactual.StaysUnder`, `Counterfactual.VerdictIff`. With as many days to delete as there
  are, the loop divides by zero: `Counterfactual.Counterfactual`.
* **Zombie trials.** The heartbeat recovers them only in a launch that still owes a trial:
  `OptunaSniper.ZombiesClearedIffOwed`.

## Model

| member | source | states |
|---|---|---|
| Calendar.ClosedForm | scripts/derive_us_federal_holidays.py:84-95 | Counting leap years year by year, in either direction, is the closed form behind Python's date arithmetic. |
| Calendar.MonthOffsets | scripts/derive_us_federal_holidays.py:84-95 | The days of a year before each month, in figures, leap years included. |
| Calendar.FirstDayIsOrdinal | scripts/feast_sources.py:158-166 | The first day of a month is the same day whether months or years are counted. |
| Calendar.BegunIff | scripts/feast_sources.py:158-166 | A month has begun by an instant exactly when it is not after the instant's own month. |
| Aggregates.FittedMonthsAre | src/taxi_mlops/features/aggregates.py:206 | The fitted months are the months of the rows, each once, ascending. |
| Aggregates.Fit | src/taxi_mlops/features/aggregates.py:179-238 | The loop serves the k-th fitted month the table over exactly the fitted months before it, and keeps one full table. |
| Aggregates.DurationsIff | src/taxi_mlops/features/aggregates.py:138-176 | A pair has durations in a window exactly when some trip of the window between those zones has one. |
| Aggregates.KnownStaysKnown | src/taxi_mlops/features/aggregates.py:138-176 | What a table knows, a table over more rows knows too, for all three statistics. |
| WindowStatistics.MedianIff | src/taxi_mlops/features/aggregates.py:163 | The median of a column is m if and only if m is half-way between two of its values: one with fewer than half of the rows below it and at most half above, one the other way round. |
| WindowStatistics.MedianIsMiddle | src/taxi_mlops/features/aggregates.py:163 | At most half of the rows lie below it and at most half above; of an odd number it is one of the values, of an even number the mid-point of two different rows' with half of the rows at or below the lower and half at or above the upper. |
| WindowStatistics.MeanIff | src/taxi_mlops/features/aggregates.py:165 | Mean times count is the sum, and there is a mean just where there is a value. |
| WindowStatistics.TotalIgnoresOrder | src/taxi_mlops/features/aggregates.py:165 | Sum and count do not depend on the order of the rows. |
| ServedStatistics.OdIndexIff | src/taxi_mlops/features/aggregates.py:124-125 | Two trips share a pair's slot exactly when both their zones are the same or both outside 1..265. |
| ServedStatistics.HourIff | src/taxi_mlops/features/aggregates.py:128-129 | An instant's hour is h exactly when it lies in the h-th hour of some day. |
| ServedStatistics.OdMedianIff | src/taxi_mlops/features/aggregates.py:138-176 | A slot of the od table is the median duration of the rows that count for the pair, row by row. |
| ServedStatistics.SpeedIff | src/taxi_mlops/features/aggregates.py:138-176 | A slot of the speed table is the mean of kilometres times 60 over minutes, of the rows of the zone and hour that have both. |
| ServedStatistics.RateIff | src/taxi_mlops/features/aggregates.py:138-176 | Rate times the distinct days of the window is the number of trips of the zone and hour. |
| ServedStatistics.StoredOdIsMedian | scripts/feast_sources.py:18-36 | The join serves an in-range pair the median duration of its trips dated before the instant's month, said of the trips. |
| ServedStatistics.ServedOdIsMedian | src/taxi_mlops/features/aggregates.py:241-277 | `transform` serves a pair the median duration of its trips dated before the row's month if some trip is of that month, and of all its trips otherwise. |
| ServedStatistics.ServedPuHourIs | src/taxi_mlops/features/aggregates.py:241-277 | And a zone and hour their mean speed and their trips per day over those rows. |
| ServedStatistics.StoredPuHourIs | scripts/feast_sources.py:18-36 | The same for the join. |
| ServedStatistics.TableRecords | src/taxi_mlops/features/aggregates.py:179-238 | A served table records how many rows it was built from and exactly which months. |
| FeatureStore.LongMembers | scripts/feast_sources.py:169-193 | The long rows hold a key with a value exactly when the decoded slot of the dense table does: the `//` and `%` decoding loses and invents nothing. |
| FeatureStore.AsOfIsLatest | scripts/feast_retrieval.py:193-204 | The as-of join returns a row of that key, stamped at or before the instant, that none such is later than; and nothing exactly when there is none. |
| FeatureStore.JoinIsLatestWindow | scripts/feast_sources.py:221-240 | Over windows whose stamps and known keys grow, the join is a lookup in the latest knowable window, present or absent. |
| FeatureStore.PublishInOrder | scripts/feast_sources.py:233-238 | The appended blocks already stand in the order of the final sort, strictly: no key has two rows with one stamp. |
| FeastSources.PublishTables | scripts/feast_sources.py:218-243 | The loop over tables publishes each kept window in both long forms, and fails exactly when it kept none. |
| FeastSources.KeptAreWindows | scripts/feast_sources.py:221-227 | De-duplication keeps every non-empty prefix of the fitted months exactly once: it drops the first month's empty table and nothing else. |
| FeastSources.BuildWindowAggregates | scripts/feast_sources.py:196-243 | From rows to published sources: one window per fitted month, refused exactly when there are no rows. |
| PointInTime.StampBegun | scripts/feast_sources.py:158-166 | A window is knowable at an instant exactly when all its months lie before the instant's month. |
| PointInTime.WindowsAreStacked | scripts/feast_sources.py:196-243 | The published windows' stamps increase and their known keys grow from each to the next. |
| PointInTime.HistoryIsPrefix | src/taxi_mlops/features/aggregates.py:231-235 | The rows of the fitted months before a month are all the rows before it. |
| PointInTime.OdJoinServesHistory | scripts/feast_sources.py:18-36 | At every instant the join serves a pair the median over exactly the trips before that instant's month, or nothing. |
| PointInTime.PuHourJoinServesHistory | scripts/feast_sources.py:18-36 | The same for speed and rate of a zone and hour. |
| PointInTime.NothingLeaks | scripts/feast_sources.py:18-36 | Two trip sets that agree before a row's month give the row the same answers, whatever they hold later and whatever months they fit. |
| LookupParity.LookupServes | src/taxi_mlops/features/aggregates.py:241-277 | What `transform` serves a row, as statistics over rows: its history in a fitted month, all rows in any other. |
| LookupParity.JoinIsLookupWhenCovered | scripts/feast_retrieval.py:379 | In every fitted month and every month after the last, join and lookup agree on all three columns for in-range zones. |
| LookupParity.FirstMonthKnowsNothing | scripts/feast_retrieval.py:285-290 | In the first fitted month both sides have nothing, for any zone ids. |
| LookupParity.OdJoinIsLookupIff | scripts/feast_retrieval.py:353-404 | For given fitted months and a row, join and lookup agree on every trip set if and only if the row is of the first month, or has in-range zones and is of a fitted month or one after the last. |
| LookupParity.PuHourJoinIsLookupIff | scripts/feast_retrieval.py:353-404 | The same equivalence for zone and hour. |
| LookupParity.NaiveServesFullWindow | scripts/feast_retrieval.py:537-545 | Every row sent at the naive timestamp is served the statistic over all trips, and that is the lookup of a row moved past the fitted months. |
| LookupParity.NaiveIsFirstAfter | scripts/feast_retrieval.py:193-204 | The naive timestamp is the first instant of the month after the last train month. |
| LookupParity.WindowServed | scripts/feast_retrieval.py:546-575 | Whatever the join serves at an instant carries the window of the fitted months before it. |
| LookupParity.PuHourWindowServed | scripts/feast_retrieval.py:546-575 | So it does for a zone and hour. |
| LookupParity.BoundaryWindows | scripts/feast_retrieval.py:546-575 | Either side of a month's end the knowable windows differ, by one month, exactly when that month was fitted. |
| FeastRetrieval.CompareFloat | scripts/feast_retrieval.py:114-165 | The array pass reports exactly the rows that differ or have one side missing, both missing counts, and the true maximum delta. |
| FeastRetrieval.CompareExact | scripts/feast_retrieval.py:114-165 | The same for boolean and string columns, with no delta. |
| FeastRetrieval.NoBadRowsIff | scripts/feast_retrieval.py:114-165 | A column passes if and only if the two sides are equal, missing values included. |
| FeastRetrieval.BadRowsAre | scripts/feast_retrieval.py:147-155 | An id is listed as a mismatch if and only if some row of that id differs, a missing value being a value. |
| FeastRetrieval.BadRowsAreListed | scripts/feast_retrieval.py:147-165 | The examples are the ids of the differing rows, each once, in order, and the count of mismatches is theirs. |
| FeastRetrieval.OneMissingIsBad | scripts/feast_retrieval.py:117-122 | Every row with one side missing is among the mismatches; a row of its own id with both missing is not. |
| FeastRetrieval.MissingCounts | scripts/feast_retrieval.py:156-165 | The reported counts fit together: one-missing at most mismatches, and mismatches at most what is left of the rows without the both-missing. |
| FeastRetrieval.MissingAre | scripts/feast_retrieval.py:156-165 | The two missing counts are the numbers of rows with both sides, and with just one side, missing. |
| FeastRetrieval.ExplainShortfall | scripts/feast_retrieval.py:305-350 | One pass sorts the absent rows into the three classes in declared order. |
| FeastRetrieval.ShortfallLists | scripts/feast_retrieval.py:333-350 | What the lists are, by ids, keys and stamps: of the rows whose id no answer has, in declared order, those with an answered row of the same keys and stamp; the others before the earliest stamp; and the rest. |
| FeastRetrieval.ClassesAreDisjoint | scripts/feast_retrieval.py:333-341 | No declared row is in two classes. |
| FeastRetrieval.ShortfallAddsUp | scripts/feast_retrieval.py:342-350 | Declared = returned + duplicates + before-first + unexplained if and only if the answer names declared rows only, each once. |
| FeastRetrieval.UnexplainedIff | scripts/feast_retrieval.py:333-341 | Nothing is unexplained if and only if every signature from the earliest source stamp on was answered. |
| FeastRetrieval.AlignedIsStoreIff | scripts/feast_retrieval.py:273-302 | Of an honest answer, alignment by keys gives every declared row the store's own value, present or missing, if and only if every row with a value was answered under its signature. |
| FeastRetrieval.AlignedIsStore | scripts/feast_retrieval.py:273-302 | So it does when nothing is unexplained and the store has nothing before its first stamp. |
| FeastRetrieval.FirstAnswerIsFirst | scripts/feast_retrieval.py:300 | Of several answers for one signature the first counts, honest or not. |
| FeastRetrieval.NothingLostIsUnexplainedIff | scripts/feast_retrieval.py:305-341 | Of an answer that holds just the signatures with a value, nothing is unexplained if and only if every declared row from the earliest stamp on has one. |
| FeastRetrieval.DroppedRowIsUnexplained | scripts/feast_retrieval.py:305-341 | A row the join has nothing for, asked after the earliest stamp, is called unexplained although it aligns with the store. |
| RetrievalGate.RetrievalHasNoMismatchIff | scripts/feast_retrieval.py:451-460 | The od_window column of the gate: for an honest answer about entitled rows, store and feature path have no mismatch at tolerance zero if and only if every row the join has a value for was answered. |
| RetrievalGate.RetrievalHasNoMismatch | scripts/feast_retrieval.py:451-460 | So they have none when nothing is unexplained. |
| RetrievalGate.PuHourRetrievalHasNoMismatchIff | scripts/feast_retrieval.py:461-465 | The same two equivalences for the pu_hour_window columns, the speed column asking only for rows with a speed. |
| RetrievalGate.PuHourRetrievalHasNoMismatch | scripts/feast_retrieval.py:461-465 | So neither has a mismatch when nothing is unexplained. |
| RetrievalGate.OdUnexplainedIff | scripts/feast_retrieval.py:305-341 | Over published windows: a retrieval that lost nothing has nothing unexplained if and only if every declared row from the earliest stamp on has an earlier month's trip of its pair. |
| OnlineParity.SourceWindow | scripts/feast_source_window.py:42-53 | The loop returns the first stamp and one second past the last over all sources, or fails exactly when a file is missing. |
| OnlineParity.AllStampsAre | scripts/feast_source_window.py:42-53 | Those are all the stamps of all the sources that are there. |
| OnlineParity.OnlineIsLatest | scripts/feast_online_parity.py:21-27 | The online row of a key is a newest row of that key, in whatever order the rows were written. |
| OnlineParity.OnlineIsOfflineAtTheEnd | scripts/feast_online_parity.py:270-278 | It equals the offline join as of any instant no row is stamped after, for any write order and any repetition. |
| OnlineParity.OnlineServesFullWindow | scripts/feast_online_parity.py:21-27 | For every pair of zones it is the median over all the trips: no key's newest row belongs to an older window. |
| OnlineParity.OnlineServesFullPuHour | scripts/feast_online_parity.py:21-27 | For every zone and hour it is the speed and the rate over all the trips. |
| OnlineParity.ExplainOffline | scripts/feast_online_parity.py:281-308 | The online gate's shortfall: duplicates are the absent pairs whose key was answered, unexplained the others. |
| OnlineParity.AbsentAreListed | scripts/feast_online_parity.py:281-308 | Those classes hold, in order, the pairs whose id no joined row has: those whose keys one has, and the rest. |
| OnlineParity.FirstJoinedIsFirst | scripts/feast_online_parity.py:276 | Of several joined rows of one pair the first counts. |
| OnlineParity.SeamHasNoMismatchIff | scripts/feast_online_parity.py:311-328 | At any instant no row is stamped after, online and offline columns have no mismatch if and only if every pair the join has a value for was answered. |
| OnlineParity.SeamHasNoMismatch | scripts/feast_online_parity.py:311-328 | So they have none when no pair is unexplained. |
| OnlineParity.NoPairLostIsUnexplainedIff | scripts/feast_online_parity.py:281-308 | Of an answer that holds just the pairs with a value, nothing is unexplained if and only if every declared pair has one. |
| OnlineParity.SeamAtWindowEnd | scripts/feast_online_parity.py:496-506 | And so for both window views at the instant that the source window ends. |
| MartsPublish.Transport.Execute | scripts/marts_publish.py:198-199 | A statement commits its tables or, when the process dies, changes nothing. |
| MartsPublish.Transport.Stream | scripts/marts_publish.py:299-319 | One COPY under every fault, the exit code being looked at after it. |
| MartsPublish.Transport.FullRefresh | scripts/marts_publish.py:322-340 | The staging swap, step by step, from any state and for any faults to come. |
| MartsPublish.Transport.ReplaceMonths | scripts/marts_publish.py:343-364 | The loop of delete and stream, ending where a step stops it. |
| MartsPublish.Transport.PublishMarts | scripts/marts_publish.py:468-482 | The loop over marts, each by the path that applies to it. |
| MartsPublish.Transport.Publish | scripts/marts_publish.py:424-526 | The whole publish and what it reports. |
| MartsLaws.RefreshShowsOldOrNew | scripts/marts_publish.py:322-340 | At every committed state a reader sees the whole old table or the whole source, no other mart moves, and a refresh that stops has left the old one. |
| MartsLaws.ReplaceMonthSteps | scripts/marts_publish.py:357-364 | At every committed state of one month's turn only that month changes, and to a prefix of the source's; if the turn completes, it is the source's. |
| MartsLaws.ReplaceMonthsSteps | scripts/marts_publish.py:343-364 | The same for any list of months. |
| MartsLaws.SameMonthsSameRows | scripts/marts_publish.py:376-389 | Tables equal month by month are equal up to the order of rows. |
| MartsLaws.MonthsAreListed | scripts/marts_publish.py:357-364 | A month's rows are those of the month in the table's order, and the delete leaves exactly the others in theirs. |
| MartsRuns.ScopedPublishIsSafe | scripts/marts_publish.py:424-526 | One scoped publish dying anywhere: unnamed months are as before, named ones as before or a prefix, other marts whole; one that reaches its report, published or refused, has done everything. |
| MartsRuns.FullPublishIsWhole | scripts/marts_publish.py:424-526 | A publish that goes through no mart by month, dying anywhere, shows every mart whole at every committed state, old or, if it was to be published, new. |
| MartsRuns.AgreesIff | scripts/marts_publish.py:410-421 | The reconciliation over the union of both sides' months is green if and only if the counts of every month agree. |
| MartsRuns.ReportIsOnCounts | scripts/marts_publish.py:486-526 | Under any faults, a run with named months that is reported published has equal counts in every month, one that is refused has not, and both report each month of either side with its rows in the fact table and in the source; a run without months reports none. |
| MartsReport.PublishedIff | scripts/marts_publish.py:424-526 | Exactly when a publish is reported published, refused or interrupted, from what was there before it: no fault on a step it would stop, every mart in the source, the indexed tables there, and on the scoped path equal counts in the months it does not rewrite. |
| MartsReport.FullAndFirstArePublished | scripts/marts_publish.py:424-526 | Without faults a full publish, and a first publish whatever months are named, is reported published. |
| MartsReport.NoMonthsTouchNoFacts | scripts/marts_publish.py:468-482 | With an empty list of months the fact table is left as it was. |
| MartsReport.NoStagingLeft | scripts/marts_publish.py:322-340 | A run that gets to its report leaves no staging table of a mart it refreshed, and no new one. |
| MartsHistory.HistoryIsSafe | scripts/marts_publish.py:424-526 | Over any number of publishes, scoped, full or first, with their own sources and faults, every visible state of every month is its first one or a prefix of what some run was to publish. |
| MartsHistory.RunIsSafe | scripts/marts_publish.py:468-482 | One run of either kind: what it may do to each month at every committed state, and what it has done when it reports. |
| MartsHistory.CompletedRunIsRight | scripts/marts_publish.py:424-526 | Whatever came before, a run that reaches its report leaves each month it names and each mart it publishes equal to its source. |
| MartsHistory.MonthIsEmptyBetween | scripts/marts_publish.py:343-364 | The state committed between delete and stream shows the month empty. |
| MartsHistory.TurnIsOneTransactionIff | scripts/marts_publish.py:343-364 | Every state a month's turn commits shows its old or its new content if and only if the delete dies, or one of the two is empty and the stream is not cut inside the month. |
| MartsHistory.NothingCommittedIff | scripts/marts_publish.py:299-319 | When the exporter fails, nothing was committed if and only if it delivered no row. |
| MartsHistory.ShortStreamIsCommitted | scripts/marts_publish.py:299-319 | An exporter that dies after n rows has published exactly its first n rows of the month. |
| MartsHistory.ScopedIsFullRefresh | scripts/marts_publish.py:424-526 | A published scoped run leaves the fact table a full refresh leaves, up to row order, whenever the unnamed months already were the source's. |
| MartsHistory.PublishedIffUnnamedCountsAgree | scripts/marts_publish.py:486-499 | Without faults it is published if and only if the unnamed months have the source's counts, and refused otherwise. |
| MartsHistory.ReconcileSeesOnlyCounts | scripts/marts_publish.py:376-421 | An unnamed month of other rows but equal counts passes. |
| Shoelace.SumsShifted | scripts/derive_zone_centroids.py:119-125 | Translating any chain changes its sums by a linear part and by the potentials of its two ends: the inner ones telescope away. |
| Shoelace.SumsAffine | scripts/derive_zone_centroids.py:119-125 | The sums of a closed ring under any affine map, from its own. |
| Shoelace.SumsReversed | scripts/derive_zone_centroids.py:119-125 | Walking a chain backwards negates its three sums. |
| Shoelace.SumsRotated | scripts/derive_zone_centroids.py:119-125 | A closed ring's sums do not depend on its first vertex. |
| Shoelace.SumsCut | scripts/derive_zone_centroids.py:119-125 | Cut along any chord, the two pieces' sums add up to the ring's. |
| ZoneCentroids.RingAreaAndCentroid | scripts/derive_zone_centroids.py:112-131 | The accumulating loop computes the three sums, divided, with the zero-area branch. |
| ZoneCentroids.PolygonCentroid | scripts/derive_zone_centroids.py:134-152 | The loop over parts with its skip, close and drop branches, and the refusal of zero total area; of rings laid end to end it computes the centroid of just those rings. |
| ZoneCentroids.CutsBack | scripts/derive_zone_centroids.py:136-141 | Cutting the points of any list of rings at their running lengths gives back exactly those rings. |
| ZoneCentroids.CentroidIsAffine | scripts/derive_zone_centroids.py:134-152 | For every polygon with holes the centroid commutes with every invertible affine map, the area scales by the absolute determinant, and a refused shape stays refused. |
| ZoneCentroids.PartsMove | scripts/derive_zone_centroids.py:136-141 | Mapping the points of a shape maps its parts. |
| ZoneCentroids.CentroidIgnoresDirection | scripts/derive_zone_centroids.py:134-152 | Reversing every ring, closed or not, changes nothing. |
| ZoneCentroids.TotalIgnoresStarts | scripts/derive_zone_centroids.py:134-152 | Nor does starting closed rings elsewhere. |
| ZoneCentroids.CutKeepsTotal | scripts/derive_zone_centroids.py:127-131 | A chord cut keeps the signed area always, and the moments if and only if what the zero-area branch drops agrees. |
| ZoneCentroids.CutKeepsCentroidIff | scripts/derive_zone_centroids.py:134-152 | The centroid of the cut polygon is that of the whole if and only if the total area is zero (both are refused) or the dropped moments agree. |
| ZoneCentroids.CutKeepsCentroid | scripts/derive_zone_centroids.py:134-152 | So a cut keeps it whenever neither ring nor piece has zero area. |
| ZoneCentroids.BowTieLosesItsMoments | scripts/derive_zone_centroids.py:128-130 | A ring of zero area whose moments are not zero contributes nothing. |
| ZoneCentroids.BowTieCutMovesCentroidIff | scripts/derive_zone_centroids.py:128-130 | Among any other rings, cutting it moves the centroid unless the total area is zero. |
| ZoneCentroids.BowTieBesideATriangle | scripts/derive_zone_centroids.py:128-150 | Alone it is refused whole and cut; beside any proper triangle whole and cut have different centroids. |
| ZoneCentroids.TriangleCentroid | scripts/derive_zone_centroids.py:134-152 | A triangle's centroid is the mean of its corners and its area half its turn. |
| ZoneCentroids.FanFromAnyApex | scripts/derive_zone_centroids.py:112-131 | A closed ring's sums are those of the triangles its edges make with any point: the result is the area-weighted mean of triangle centroids. |
| ZoneCentroids.SkippedArea | scripts/derive_zone_centroids.py:142-143 | A skipped ring had area to lose if and only if it was an open triangle. |
| HolidayRules.NthWeekdayIsNth | scripts/derive_us_federal_holidays.py:84-88 | For every year, month, weekday and n up to 4 the result is in the month, on the weekday, with n - 1 such days before it. |
| HolidayRules.LastWeekdayIsLast | scripts/derive_us_federal_holidays.py:91-95 | The result is in the month, on the weekday, and no such day follows it. |
| HolidayRules.StrictIsUnique | scripts/derive_us_federal_holidays.py:147 | A strictly dated list is the only ascending arrangement of its rows. |
| Holidays.StatutoryIsYearInOrder | scripts/derive_us_federal_holidays.py:98-118 | The sorted list of a year is the holidays in their calendar order, in every year. |
| Holidays.Derive | scripts/derive_us_federal_holidays.py:135-147 | The nested loops compute the sorted rows, and fail exactly for years without dates. |
| Holidays.DerivedInOrder | scripts/derive_us_federal_holidays.py:135-147 | For every range the dates are strictly increasing, so pairwise distinct; each holiday stands beside its observed day. |
| Holidays.DerivedConcatenates | scripts/derive_us_federal_holidays.py:144-147 | Deriving two ranges that meet and putting them end to end is deriving the whole. |
| Holidays.ListedIff | scripts/derive_us_federal_holidays.py:135-147 | A date is listed if and only if it is a holiday of one of the years, or the observed day of one. |
| Holidays.OnlyLastDayCanBeMissing | scripts/derive_us_federal_holidays.py:138-147 | Of the dates a longer range lists in these years, this range misses one if and only if it is 31 December of the last year before a Saturday New Year's Day. |
| Holidays.ListedOutside | scripts/derive_us_federal_holidays.py:138-147 | Outside its years a range lists at most 31 December of the year before, exactly when it starts on a Saturday. |
| Holidays.ObservedIsNoHoliday | scripts/derive_us_federal_holidays.py:121-132 | An observed day is a weekday next to its holiday and is a holiday of no year whatever. |
| Holidays.OnlyFixedDatesShift | scripts/derive_us_federal_holidays.py:121-132 | Only the five fixed dates ever have an observed day. |
| Holidays.Reproduces2019 | scripts/derive_us_federal_holidays.py:135-147 | Deriving 2019 gives the ten rows, without Juneteenth. |
| HolidayYears.JuneteenthIff | scripts/derive_us_federal_holidays.py:116-117 | A year's rows have 19 June itself if and only if the year is 2021 or later. |
| HolidayYears.Writes2021 | scripts/derive_us_federal_holidays.py:135-160 | The first table of 2021, record by record: fourteen dates, names and notes, three observed days among them. |
| HolidayYears.NamesAreWritten | scripts/derive_us_federal_holidays.py:150-160 | In any table a row is written under its date and its holiday's name, an observed one marked as such. |
| HolidayTable.Render | scripts/derive_us_federal_holidays.py:150-160 | The loop writes one record a row with the kept or the default note. |
| HolidayTable.Rewrite | scripts/derive_us_federal_holidays.py:175-218 | The new table, or the refusal of an empty or impossible range. |
| HolidayTable.NotesFromRecords | scripts/derive_us_federal_holidays.py:163-172 | A note read back is some record's of that date, and is not blank. |
| HolidayTable.LastNoteCounts | scripts/derive_us_federal_holidays.py:163-172 | Of several records of a date the last one with a note counts. |
| HolidayTable.ReadsBack | scripts/derive_us_federal_holidays.py:163-172 | With one record a date, its note is read back if and only if it is not blank. |
| HolidayTable.NoteSurvives | scripts/derive_us_federal_holidays.py:49-53 | Every non-blank note survives a rewrite that lists its date. |
| HolidayTable.NoteSurvivesAll | scripts/derive_us_federal_holidays.py:49-53 | And any sequence of rewrites with any ranges that do. |
| HolidayTable.RewriteIsFixedPoint | scripts/derive_us_federal_holidays.py:150-172 | Rendering, reading the notes back and rendering again changes nothing, whatever the first file held. |
| HolidayTable.OnlyObservedGetsANote | scripts/derive_us_federal_holidays.py:157-158 | The default note goes to observed rows and to no statutory name. |
| HolidayTable.HeldNoteIsKeptIff | scripts/derive_us_federal_holidays.py:150-172 | A row the file held keeps its note if and only if the note is not blank or is the row's default anyway. |
| HolidayTable.BlankNoteIsRegenerated | scripts/derive_us_federal_holidays.py:150-172 | A row held with a blank note gets the generated one back. |
| MetabaseServer.UpsertLaw | scripts/metabase_boards.py:250-267 | One upsert by name rewrites the last live object of that name or creates one under a fresh id, and leaves every other object and index entry alone. |
| MetabaseServer.FrameThen | scripts/metabase_boards.py:15-22 | Upserts compose: nothing is deleted, archived or renamed, only what a given name finds is rewritten, and only for names that find nothing is anything created. |
| MetabaseClient.Client.EnsureMartsDatabase | scripts/metabase_boards.py:205-228 | The search loop converges the first connection of that name or creates one. |
| MetabaseClient.Client.UpsertCards | scripts/metabase_boards.py:250-267 | The loop over a board's cards against the snapshot taken before any was written. |
| MetabaseClient.Client.UpsertDashboard | scripts/metabase_boards.py:270-313 | The dashboard by name and its whole set of dashcards, prior ids kept by card. |
| MetabaseClient.Client.Converge | scripts/metabase_boards.py:324-330 | The whole run over all boards. |
| MetabaseClient.Client.Verify | scripts/metabase_boards.py:333-409 | The read-back loop, its failure count, and the crash on a dashboard without cards. |
| BoardLaws.UpsertCardsLaw | scripts/metabase_boards.py:250-267 | Every card of the board is live with its payload under the id its name finds. |
| BoardLaws.UpsertDashboardLaw | scripts/metabase_boards.py:270-313 | The dashboard holds exactly the board's placements; each that had a dashcard keeps its id. |
| BoardLaws.ConvergeBoardsLaw | scripts/metabase_boards.py:324-330 | Carried through both loops, when the names that boards share are live: every board is shown, every card holds its last definition, nothing unnamed is touched. |
| BoardConvergence.ConvergeLaw | scripts/metabase_boards.py:324-330 | Then one run from any valid server shows every board and keeps every card, dashboard, placement id and other connection. |
| BoardConvergence.DistinctCardsAreOwn | scripts/metabase_boards.py:236-247 | Where no two boards share a name, every card of every board holds its own definition. |
| BoardConvergence.ConvergedIsFixed | scripts/metabase_boards.py:15-22 | A server that shows every board and holds every last definition is left exactly as it is, counters included. |
| SharedCards.ConvergeIsIdempotentIff | scripts/metabase_boards.py:15-22 | From every valid server, running it twice is running it once if and only if every card name that two boards use was live before. |
| SharedCards.ConvergeIsIdempotent | scripts/metabase_boards.py:15-22 | So boards that share no name are idempotent on every server. |
| SharedCards.SecondRunSettles | scripts/metabase_boards.py:15-22 | And a third run never changes anything, whatever is shared. |
| SharedCards.SharedNameMovesOn | scripts/metabase_boards.py:255-263 | Of any boards two of which share a name the server has not, the two show different cards for it after the first run, and the second run changes the server. |
| SharedCards.StaleConverge | scripts/metabase_boards.py:324-330 | What one run leaves for any boards: each definition shown as a card of its name, from the snapshot or new; placement ids kept; no card, dashboard or connection touched but those the names find. |
| SharedCards.StaleFrameBoards | scripts/metabase_boards.py:250-267 | Whatever the boards, well named or not, no card changes but those their definitions' names find. |
| CardDefinitions.DefinitionsHold | scripts/metabase_boards.py:236-247 | Where shared names are live, each name finds a card with the display, query, settings and database of its last definition, in no collection. |
| CardDefinitions.ShownDefinitionsHold | scripts/metabase_boards.py:236-313 | Whatever is shared, each card that a board shows holds, field by field, the board's own definition, or the last one of its name if the server had that name; the dashboards carry their descriptions. |
| Dashcards.DashcardStaysIff | scripts/metabase_boards.py:290-309 | A dashcard that was on a board's dashboard is there after the run under its id if and only if some definition of the board finds its card and it was the last dashcard of that card. |
| Dashcards.SettingsStayIff | scripts/metabase_boards.py:288-309 | A dashcard that keeps its id keeps its settings if and only if it had none. |
| Dashcards.HandPlacedIsDropped | scripts/metabase_boards.py:290-309 | A dashcard of a card the board does not have is gone. |
| Dashcards.SecondPlacementIsDropped | scripts/metabase_boards.py:293 | Every placement but the last of a card that was placed twice is gone. |
| Dashcards.ConvergeStaysSound | scripts/metabase_boards.py:290-309 | Dashcard ids stay distinct and handed out, and their cards exist: a run keeps a sound server sound. |
| BoardVerify.VerifyIsGreenIff | scripts/metabase_boards.py:333-409 | From every valid server and for any boards: after a run `verify` reports no failure if and only if one connection bears the name, every board has a card, no card claims KPI-09 or KPI-10, and the first card each board shows returns rows. |
| BoardVerify.GreenIff | scripts/metabase_boards.py:333-409 | On any server, `verify` reports no failure exactly when a connection has the name and every board is there with its number of cards, none on another database or claiming a metric, the first returning rows. |
| BoardVerify.VerifyCounts | scripts/metabase_boards.py:333-409 | How many failures it counts after a run: boards that claim a metric, boards whose first card is silent, and every board under two connections; it crashes exactly on a board without cards. |
| BoardVerify.MissingBoardsFail | scripts/metabase_boards.py:350-372 | A board that is absent or of another size counts one failure, as does a missing connection. |
| BoardVerify.FirstCardIsFound | scripts/metabase_boards.py:399-407 | Where shared names are live, that first card is the one its name finds. |
| BoardVerify.GreenIsNotSettled | scripts/metabase_boards.py:333-409 | On a server that lacks a card two boards share, `verify` is green under the same conditions although the next run changes the server. |
| Counterfactual.SumCalendarDays | src/taxi_mlops/monitoring/drift.py:381-392 | The loop sums the month lengths, 28 to 31 days each, and fails exactly for a month number outside 1 to 12. |
| Counterfactual.CalendarDaysAre | src/taxi_mlops/monitoring/drift.py:381-392 | A month adds the days from its first to the first of the month after it. |
| Counterfactual.Counterfactual | scripts/f051_counterfactual.py:93-128 | The loop fills both series with the two ratios at every k and judges them, or divides by zero exactly when the reference is zero or every day is deleted. |
| Counterfactual.RatiosAre | scripts/f051_counterfactual.py:93-99 | Each ratio times its days and the reference is the trips of the days that are left. |
| Counterfactual.JudgeIff | scripts/f051_counterfactual.py:109-128 | Of any two series: judged non-monotonic unless later is always lower and under the bar, and then confirmed exactly when the other rises somewhere. |
| Counterfactual.CalendarRatioFalls | scripts/f051_counterfactual.py:95-101 | Under the calendar denominator every deletion strictly lowers the ratio. |
| Counterfactual.StaysUnder | scripts/f051_counterfactual.py:109-114 | Once under the bar it stays under it. |
| Counterfactual.ObservedRatioRises | scripts/f051_counterfactual.py:95-101 | Under the observed-days denominator a deletion never lowers the ratio and raises it if and only if the days present before it are not all equal. |
| Counterfactual.StaysSilent | scripts/f051_counterfactual.py:111-116 | So once silent under that denominator it stays silent. |
| Counterfactual.VerdictIff | scripts/f051_counterfactual.py:109-128 | The run is confirmed if and only if the whole month is under the bar, a day is deleted, and its quietest day is quieter than its busiest. |
| OptunaSniper.Study.Optimize | scripts/optuna_sniper.py:180-186 | The trial loop on the stored study, under kills, raises, timeouts and reaped trials. |
| OptunaSniper.Study.Launch | scripts/optuna_sniper.py:157-186 | Counting what is answered and running what is owed. |
| OptunaSniper.AnsweredAre | scripts/optuna_sniper.py:158-167 | What counts as answered is the completed and the pruned trials. |
| OptunaSniper.ReapedIs | src/taxi_mlops/tuning/storage.py:94-118 | Reaping fails each stale running trial, touches no other, and enqueues exactly one copy of each that was no retry yet. |
| OptunaSniper.TurnIs | scripts/optuna_sniper.py:180-186 | A turn tries the oldest waiting trial or a new one and leaves it in its outcome's state, all others as they were. |
| OptunaSniper.LaunchLaw | scripts/optuna_sniper.py:158-186 | A launch loses no answered trial, never answers past n_trials, and ends with exactly n_trials if and only if nothing cut it short. |
| OptunaSniper.HistoryLaw | scripts/optuna_sniper.py:157-186 | The same over any history of launches: answered trials never fall or pass n_trials, and none is lost. |
| OptunaSniper.HistoryRetriesOnce | src/taxi_mlops/tuning/storage.py:94-118 | And no dead trial is retried more than once. |
| OptunaSniper.FirstUninterruptedFinishes | scripts/optuna_sniper.py:157-186 | Whatever came before, the first uninterrupted launch ends with exactly n_trials answered. |
| OptunaSniper.RejectedRuleFallsShort | scripts/optuna_sniper.py:158-167 | `n_trials - len(trials)` falls short by exactly the unanswered trials if and only if there are at most n_trials trials. |
| OptunaSniper.WhatAKillCosts | scripts/optuna_sniper.py:158-167 | Each kill costs that rule one trial when nothing waits, and otherwise those it re-enqueues; the rule in use still ends with n_trials. |
| OptunaSniper.ZombiesClearedIffOwed | src/taxi_mlops/tuning/storage.py:94-118 | With stale heartbeats, an uninterrupted launch clears every running zombie if and only if it owes a trial. |

## Left out

- Rounding: floats and float32 columns are exact reals here, and the haversine distance of a trip's zones is a field of the trip, missing where a zone has no geometry.
- Sub-second timestamps: an instant is a whole second, which is what the stamps and the one-second step of the window use.
- `aggregates.fit(point_in_time=False)`, the switch of the leakage drill, and its missing-column errors.
- The static and calendar views of the feature store: one row per key with one stamp, so their join is a plain lookup. The online gate's `feature_path_anchor` and the no-geometry assertions compare those.
- `_online` refuses an answer of the wrong length; the model's online column has one value a declared pair.
- `feast_source_window.window` of an empty source file: its minimum is NaT and is not modelled; a source that exists has a row.
- Feast itself: the as-of join and the online copy are taken to be the latest row per key, and an answer file to hold rows of that join.
- SQL text, CSV quoting and transports. A COPY and a transaction are atomic; a stream cut short ends at a row boundary. `_check_months` and the printed order of the reconciliation are not modelled.
- `marts_publish`: an exporter is taken to deliver the source it opened; the source does not change during a run. The `dbt` build before it is not part of the model.
- Shapefile reading, the projection to degrees and the spherical neighbourhood checks of `derive_zone_centroids.derive`.
- The printed summary of `derive_us_federal_holidays.main`, and CSV parsing of the table: a file is a sequence of (date, name, note).
- Metabase: listings come by id, a GET returns dashcards in the order they were put, and dashcards without a card (text tiles) are not modelled. Authentication, health polling and an empty boards directory, which `load_boards` refuses, are left out.
- SharedCards.ConvergeIsIdempotentIff: boards of one name, or a board with two cards of one name, are not treated; the definitions checked in have neither.
- Reading the alert bar and the month's counts in `f051_counterfactual.py`: they are parameters, the counts positive and ascending as the query returns them.
- Optuna: what `optimize` does to stored trials is stated at the head of `OptunaSniper.dfy`; sampling, pruning decisions, fit seconds and the MLflow runs are left out. One process at a time launches the study.
- Alerting drills, serving, training, the promotion gate and the deployment scripts: they act on live services or on numerical fits.
