# runnersdash core, modelled in Dafny

runnersdash turns an Apple Health `export.xml` into an SQLite database and
then into daily, weekly and monthly CSV aggregates for a dashboard. This
project models the core of that pipeline and proves properties of it:

- **Extraction** (`extractapplehealth.py`).
  - `AppleHealthExtraction` chooses the database file name.
  - It walks the XML tree in post-order (`get_subtree`).
  - It classifies `MetadataEntry` nodes of workout routes.
  - It turns every `Record` node into a row of the table named after its
    type, with the three Apple prefixes stripped. `MetadataEntry` children
    become columns. `InstantaneousBeatsPerMinute` children become rows of
    their own table.
  - It queues touched tables and writes them to the database every n-th
    record and once more at the end. It then reports tables left with rows.
- **Preparation** (`preparedatasets.py`).
  - The column-name rules: which aggregation each column gets at each
    frequency, how an aggregated column is renamed, which dtype a column
    gets, the unit of a column, the camel-case splitter, and the CSV file
    names.
  - The memo dictionaries of `DatasetPrep` (`daily_aggregates`,
    `weekly_aggregates`, `monthly_aggregates`, `resampled_tables`) and the
    methods that fill them.
- **Utilities** (`utils.py`): `get_year_extrema`.

The model follows the code's form.

- Pure helpers are Dafny functions with lemmas.
- `AppleHealthExtraction` and `DatasetPrep`, whose methods update their
  fields, are classes.
  - Their dictionaries are `map` fields that the methods reassign.
  - The record loop, the queue-draining loops, the BPM loop and the
    database-name counter are `while`/`for` loops with invariants.
- DataFrames are sequences of rows, or, in `DatasetPrep`, abstract `Frame`
  values that record what they were computed from.
- The database is a map from table name to the rows written to it.
- The file system is the set of existing paths.

Behaviour of the code that the model keeps as written:

- A Record's heart-rate children are queued and written out only when a
  child of another tag follows them. Beats after the last such child are
  dropped (`Extraction.BeatsAfterLastOtherAreDropped`).
- The prefix loop of extract_record_elements removes each of the three
  prefixes at most once, in list order (`HealthTree.StripIsOnePass`).
- The min branch of `rename_by_agg` tests 'Maximum', so a minimised column named with 'Maximum' keeps its name (`Renaming.RenameByAgg`). `Renaming.RenameByAggCorrected` is the intended rule.
- `aggregate_monthly` returns its result without storing it. Only
  `aggregate_table` stores a monthly aggregate.
- The flush test `i % n == 0` counts records from 1. With n == 0 the first
  record raises ZeroDivisionError.
- A Record's timer is created only with its table, so a Record whose table
  already existed without one (the heart-rate table, or a table another
  extraction made) raises KeyError after its row is added
  (`Extraction.AppleHealthExtraction.ExtractRecord`).
- `extract_to_dataframe` reads only tables in WORKOUT_TABLES or
  RECORD_TABLES and raises ValueError for any other, before anything is
  cached. So every aggregation of such a table fails with nothing stored
  (`Prep.DatasetPrep.AggregateDaily` and its callers). It also makes the
  UnboundLocalError that `aggregate_weekly`'s drop list would raise for such
  a table unreachable: only a listed table has a daily aggregate to drop
  columns from.

Modules:

| file | module | models |
|---|---|---|
| wrappers.dfy | Wrappers | `Option`, `Result` and the Python exceptions raised |
| text.dfy | Text | string helpers: lower-casing, `in` on strings, `replace`, `removeprefix`, decimal formatting |
| seqs.dfy | Seqs | duplicate-free sequences and `unique()` |
| healthtree.dfy | HealthTree | the element tree, `get_subtree`, `check_if_workout_route`, the workout dispatch, prefix stripping |
| extraction.dfy | Extraction | `extract_record_elements` and its helpers, as class `AppleHealthExtraction` |
| dbname.dfy | DbName | the database file name chosen in `__init__` |
| aggmethods.dfy | AggMethods | `find_substr_in_list`, `get_daily/weekly/monthly_agg_method` |
| renaming.dfy | Renaming | `rename_by_agg` |
| coltypes.dfy | ColumnTypes | `get_col_dtype`, `extract_unit_from_column` |
| camelcase.dfy | CamelCase | `rename_from_camelcase` |
| outputfiles.dfy | OutputFiles | the file name of `write_to_csv` |
| datasetprep.dfy | Prep | the memo dictionaries of `DatasetPrep` and the methods that fill them |
| yearextrema.dfy | YearExtrema | `get_year_extrema` |

## Model

| member | source | states |
|---|---|---|
| HealthTree.GetSubtreeIsPostOrder | extractapplehealth.py:162-167 | The walk yields each node of the tree exactly once. It visits them in post-order: children before their parent, earlier siblings' subtrees before later ones. |
| HealthTree.GetSubtreeEndsWithRoot | extractapplehealth.py:162-167 | The walk is non-empty and its last node is the node it started from. Its length is the number of nodes in the tree, so no node is skipped or repeated. |
| HealthTree.FlattenSize | extractapplehealth.py:162-167 | Walking a list of subtrees yields as many nodes as the subtrees hold together. |
| HealthTree.CheckIfWorkoutRoute | extractapplehealth.py:169-179 | ValueError exactly when the tag is not "MetadataEntry". KeyError('key') when a MetadataEntry lacks the key attribute. Otherwise true iff "HKMetadataKey" occurs somewhere in the key. |
| HealthTree.ClassifyWorkoutNode | extractapplehealth.py:229-267 | The workout node itself is skipped. MetadataEntry, FileReference, WorkoutEvent and WorkoutRoute each get their branch. Any other tag raises ValueError. |
| HealthTree.ClassifyWorkoutTotal | extractapplehealth.py:229-267 | Dispatching a whole walk succeeds iff every node is one of the handled tags. Each step is then the one its node selects. |
| HealthTree.WorkoutWalkEndsWithSkip | extractapplehealth.py:229-232 | The walk under a Workout node ends with that node, which the dispatch skips. |
| HealthTree.StripPrefixesIsSuffix | extractapplehealth.py:305-306 | Stripping prefixes leaves a suffix of the type name. |
| HealthTree.StripPrefixesKeeps | extractapplehealth.py:305-306 | A name that starts with none of the prefixes is unchanged. |
| HealthTree.QuantityTypeName | extractapplehealth.py:39-42 | "HKQuantityTypeIdentifier" followed by a name that starts with neither later prefix becomes that name. |
| HealthTree.StripIsOnePass | extractapplehealth.py:305-306 | Each prefix is removed at most once, in list order, so a repeated or out-of-order prefix survives. |
| DbName.CandidatesDistinct | extractapplehealth.py:118-123 | No two counter values give the same file name. |
| DbName.ChooseDbName | extractapplehealth.py:106-123 | With append_to_db the name is the plain `{prefix}.db`. Otherwise the name does not exist yet, and every earlier candidate (plain, `_1`, …) exists. |
| DbName.SecondRunGetsSuffix | extractapplehealth.py:118-123 | When only the plain name exists, the next database is `{prefix}_1.db`. |
| Extraction.Enqueue | extractapplehealth.py:308-309 | Appending a table name if absent keeps the queue free of duplicates and adds exactly that name. |
| Extraction.MetadataColumns | extractapplehealth.py:326-329 | The record row has a column iff the node has that attribute or some MetadataEntry child has that key. |
| Extraction.MetadataLastWins | extractapplehealth.py:326-329 | A column set by MetadataEntry children holds the value of the last such child. |
| Extraction.MetadataKeepsAttribute | extractapplehealth.py:318-329 | An attribute column that no MetadataEntry overrides keeps the attribute's value. |
| Extraction.ScanKeepsBeats | extractapplehealth.py:326-349 | The BPM children are exactly the beats emitted plus the beats still queued. The table is queued iff some other child appears. Without one, no beat is emitted. |
| Extraction.BeatsAfterLastOtherAreDropped | extractapplehealth.py:330-346 | The beats before the last non-BPM child are emitted. Those after it remain queued and are never written. |
| Extraction.BpmRowsConcat | extractapplehealth.py:335-346 | Emitting two batches of beats gives the rows of the concatenated batch. |
| Extraction.CountsFollowRows | extractapplehealth.py:311-345 | For every table, the node counter grows by exactly the number of rows produced for it. A table created during the run has its counter reset to 0 on creation, so its counter ends equal to its row count, whatever counter an earlier extraction left. |
| Extraction.RecordsReachTheirTable | extractapplehealth.py:301-324 | Every table other than the BPM table receives exactly the rows of the records of its type, in document order. |
| Extraction.TablesCreatedOnce | extractapplehealth.py:311-316 | record_tables gains each new type once, in order of first appearance, and only types that had no table. The tables and the counters' keys grow by exactly the types seen. |
| Extraction.ConservedAdd | extractapplehealth.py:308-349 | Adding rows to a table and queueing it keeps the invariant "written plus buffered equals produced". |
| Extraction.ConservedDrain | extractapplehealth.py:354-373 | Writing out and emptying every queued table keeps that invariant with an empty queue. |
| Extraction.AppleHealthExtraction.constructor | extractapplehealth.py:76-89 | All containers start empty. |
| Extraction.AppleHealthExtraction.DataframeToSql | extractapplehealth.py:439-469 | The rows are appended to the named database table. Nothing else changes. |
| Extraction.AppleHealthExtraction.DrainQueue | extractapplehealth.py:358-364 | Each queued table's buffered rows are appended to its database table and the buffer is emptied. Other tables are untouched. |
| Extraction.AppleHealthExtraction.EmitBeats | extractapplehealth.py:334-346 | Each queued beat becomes a BPM row naming the record's table and index. The BPM counter grows by their number. |
| Extraction.AppleHealthExtraction.AppendRecord | extractapplehealth.py:308-324 | The record's row is appended to its table. A new table is created with its counter reset to 0 and its timer, and added to record_tables. The counter then grows by one. The name is queued unless already queued. |
| Extraction.AppleHealthExtraction.ExtractRecordChildren | extractapplehealth.py:326-349 | Fails with KeyError iff some MetadataEntry child is malformed. Otherwise the row gets the metadata columns, the emitted beats become BPM rows, and the BPM table is queued iff some other child appears. |
| Extraction.AppleHealthExtraction.ExtractMetadataChild | extractapplehealth.py:328-329 | A MetadataEntry child raises KeyError iff it lacks 'value' or 'key'. Otherwise it sets that column of the record's row, and the state is that of the children seen so far plus this one. |
| Extraction.AppleHealthExtraction.ExtractOtherChild | extractapplehealth.py:333-349 | A child that is neither MetadataEntry nor a beat never fails. It writes every queued beat as a BPM row and queues the BPM table, which gives the state of the children seen so far plus this one. |
| Extraction.AppleHealthExtraction.ExtractRecord | extractapplehealth.py:301-352 | Succeeds iff the record has a 'type', its MetadataEntry children are well-formed, and its table has a timer after creation (a timer exists for every table this extraction created, not for the beat table or tables the other extractions made). Every failure is KeyError. For a record with a type and well-formed children, the buffers, counters, record_tables, timers and queue are the old ones after one record: the attribute row completed with its metadata in the record's table, the written beats in the BPM table, the counter reset when the table is new, then one more node of the record's type and one per beat, the type appended to record_tables iff new, and the table queued (and the BPM table iff some other child appears). A missing timer raises KeyError naming the table after all that. |
| Extraction.RecordStepInvariant | extractapplehealth.py:301-349 | One record advances the counters and the tables by one `Step` of the run function `Produce`, and the buffers' keys are the run's tables. It keeps the queue duplicate-free and keeps "written plus buffered equals produced". |
| Extraction.AppleHealthExtraction.ExtractRecordStep | extractapplehealth.py:301-364 | One iteration of the record loop: KeyError for a malformed record, and KeyError naming the table when it has no timer. Otherwise ZeroDivisionError iff n == 0. Otherwise counters, tables and record_tables follow `Step`, a timer is added exactly for each new table, the invariant "written plus buffered equals produced" is kept, and after every n-th record the queue is empty. |
| Extraction.AppleHealthExtraction.UnresolvedTables | extractapplehealth.py:375-382 | Lists exactly the record tables that still hold rows, with their lengths. Empty iff all are flushed. |
| Extraction.AppleHealthExtraction.ExtractRecordElements | extractapplehealth.py:273-382 | Succeeds iff every record is well-formed, every record's table has a timer (it existed with one before, was created during the run, or did not exist), and n is non-zero or there are no records. Counters, tables and record_tables then equal those of the run function `Produce` over all records, and a timer is added for exactly the tables created. Every table the records produced rows for, and every record table, has an empty buffer. Each such database table holds what it held before plus its buffered rows and everything produced for it. Other tables keep their buffers and database rows. |
| AggMethods.FindSubstrInList | preparedatasets.py:56-74 | The result keeps exactly the list entries containing the substring, with their multiplicities. |
| AggMethods.FindSubstrInListMembers | preparedatasets.py:56-74 | An entry is found iff it is in the list and contains the substring. |
| AggMethods.FindSubstrInListConcat | preparedatasets.py:69-70 | The matches of a concatenated list are the matches of each part, concatenated, so matches keep the list's order. |
| AggMethods.FindSubstrInListSingle | preparedatasets.py:69-70 | A single name yields itself when it contains the substring, and nothing otherwise. |
| AggMethods.DailyAggMethod | preparedatasets.py:77-118 | Every column gets a method, and that method is the one the daily rules give it. |
| AggMethods.DailyPrecedence | preparedatasets.py:88-98 | 'total' is tested first and gives sum. Then 'avg' gives mean. A 'duration' column with none of the earlier keywords is summed. |
| AggMethods.DailyRuleTotal | preparedatasets.py:111-116 | Every column gets a method: the `pass` branch is never reached. |
| AggMethods.MenstrualBranchDead | preparedatasets.py:103 | The menstrual-cycle test looks for a phrase with spaces in a name whose spaces were removed, so it never matches. |
| AggMethods.DateBranchDead | preparedatasets.py:111 | A lower-cased name never equals 'Date', so that branch never runs. |
| AggMethods.AvgDurationIsMean | preparedatasets.py:85-116 | The column 'Avg Duration' is averaged daily: 'avg' decides before 'duration' can. |
| AggMethods.WeeklyAggMethod | preparedatasets.py:121-157 | Every column gets one weekly method. A column that occurs once and contains a special name gets the method of the last special name it contains, in dict order. Every other column, including a repeated one, gets the generic rule. |
| AggMethods.WeeklyRecordNameWins | preparedatasets.py:128-143 | A single column containing a record special name is aggregated by mean and std. |
| AggMethods.LastMatchAfter | preparedatasets.py:128-138 | If a column contains the i-th special name, the match that wins is that one or a later one. |
| AggMethods.MonthlyAggMethod | preparedatasets.py:160-178 | Exactly the columns the monthly rules cover get a method, and it is the method those rules give. |
| AggMethods.MonthlyOmitsDates | preparedatasets.py:166-174 | A column is left out of the monthly map iff it contains 'date' and none of the earlier keywords. |
| Renaming.RenameColAsWritten | preparedatasets.py:573-595 | The rule as written. Sum: 'Total ' unless the name says total. Mean: unless it says avg, 'Average' becomes 'Avg' or 'Avg ' is prefixed. Min: 'Min ' unless the name says minimum or contains 'Maximum', which keeps it. Multi-method and other methods keep the name. |
| Renaming.RenameCol | preparedatasets.py:573-595 | The rule with the corrected min test. Sum and mean as written. Min: 'Min ' unless the name says minimum. Multi-method and other methods keep the name. |
| Renaming.MaxBranch | preparedatasets.py:580-586 | Under max both rules agree: 'Max ' unless the name says maximum or, lower-cased with spaces removed, contains 'menstrualcyclestart'. The 'Maximum' replacement never runs. |
| Renaming.RenameByAgg | preparedatasets.py:565-597 | rename_by_agg as written. Succeeds iff every string column is in the map, and then renames each string column by RenameColAsWritten and keeps other labels. Otherwise KeyError names the first missing column. |
| Renaming.RenameByAggCorrected | preparedatasets.py:565-597 | The same over the corrected RenameCol, with the same error behaviour. |
| Renaming.RenameByAggAgreesWithoutMaximum | preparedatasets.py:565-597 | On frames with no string label containing 'Maximum', the as-written and corrected renamings give the same result, errors included. |
| Renaming.RenameByAggMaximumSpeed | preparedatasets.py:587-589 | A frame with one 'Maximum Speed' column aggregated by min keeps that label as written, and gets 'Min Maximum Speed' from the corrected rule. |
| Renaming.KeywordKeepsName | preparedatasets.py:573-593 | A column that already names its method is not renamed. |
| Renaming.WordAbsent | preparedatasets.py:580-589 | A capitalised keyword cannot occur in a name whose lower-cased form lacks the lower-cased keyword. |
| Renaming.RenameSumMeanIdempotent | preparedatasets.py:573-579 | Renaming a sum or mean column twice gives the same name as renaming it once. |
| Renaming.AverageBecomesAvg | preparedatasets.py:575-577 | A mean column with 'Average' but no 'avg' has 'Average' replaced by 'Avg'. |
| Renaming.MaximumSpeedByMin | preparedatasets.py:587-591 | The code as written leaves 'Maximum Speed' unrenamed under min. The corrected rule gives 'Min Maximum Speed'. |
| Renaming.MinBranchAsWritten | preparedatasets.py:587-591 | Under min, every name containing 'Maximum' but not 'minimum' is kept as written and prefixed by the corrected rule. |
| Renaming.RenameAgreesWithoutMaximum | preparedatasets.py:565-595 | The as-written and corrected renamings agree on every name without 'Maximum'. |
| ColumnTypes.GetColDtype | preparedatasets.py:207-240 | float64 when the unit is a rate or a listed float unit, or the normalised name contains 'avg'. Otherwise int64 for the 'count' unit. Otherwise datetime for 'date' columns. Otherwise the special cases in order. Otherwise str. |
| ColumnTypes.CountIsInteger | preparedatasets.py:218-240 | A 'count' column without 'avg' is an integer column. |
| ColumnTypes.StrIsLastResort | preparedatasets.py:230-240 | A column is str iff no earlier rule or special case applies. |
| ColumnTypes.SpecialCaseOrder | preparedatasets.py:212-216 | The first matching special case wins, so a menstrual-cycle-start column is int64. |
| ColumnTypes.NullCellCountsAsUnit | preparedatasets.py:181-191 | As written, a null cell survives the filter and counts as a second unit, so ["km", null] raises ValueError("Distance has 2 units: ['km' None]") and [null] yields None. |
| ColumnTypes.ExtractUnitAsWritten | preparedatasets.py:181-191 | As written, succeeds iff exactly one distinct value other than 'None' remains, nulls included. Otherwise ValueError names the column, the number of distinct values and the values in numpy's form. |
| ColumnTypes.ExtractUnit | preparedatasets.py:181-191 | With the corrected filter, failure is the same ValueError over the distinct units. |
| ColumnTypes.ExtractUnitIsTheOnlyUnit | preparedatasets.py:181-191 | The corrected filter returns u iff u is a unit of the column and every unit of the column is u. |
| ColumnTypes.ExtractUnitRejects | preparedatasets.py:187-191 | The corrected filter fails iff the column has no unit or two different units. |
| ColumnTypes.ExtractUnitAgrees | preparedatasets.py:181-191 | On columns without null cells, the as-written and corrected filters agree. |
| CamelCase.SubReplacesMatches | preparedatasets.py:194-204 | The substitution inserts a space before every match of the pattern found by a left-to-right, non-overlapping scan, up to `count` matches. |
| CamelCase.RenameInsertsSpaces | preparedatasets.py:194-204 | rename_from_camelcase is the 'HK'-stripped name with spaces inserted at ascending matches of the chosen pattern, at most flag_count of them when it is positive. No match is skipped before the scan stops, at the end of the name or once flag_count matches are split, so with the count not reached every match is split. |
| CamelCase.RenameOnlyAddsSpaces | preparedatasets.py:194-204 | Removing the spaces from the result gives back the 'HK'-stripped name. The result is never shorter. |
| OutputFiles.FileSuffix | preparedatasets.py:329-334 | A suffix exists iff the file type is one of the five known ones. 'as-is' has an empty suffix. |
| OutputFiles.CsvFileName | preparedatasets.py:336-346 | ValueError iff the file type is unknown. Otherwise the name starts with `{path}/{date}_` and ends with `.csv`. |
| OutputFiles.FileTypesDoNotCollide | preparedatasets.py:329-346 | One table written as two different file types goes to two different files. |
| OutputFiles.TableNamesDoNotCollide | preparedatasets.py:336-346 | Two different tables of one file type go to two different files. |
| OutputFiles.RunningResampledDaily | preparedatasets.py:323-326 | The docstring's example: 'Running' as d-resample on 20220320 is `20220320_Running_resampledDaily.csv`. |
| Prep.FrequencyOf | preparedatasets.py:725-736 | Day, week or month iff the frequency starts with 'd', 'w' or 'm'. Otherwise ValueError. |
| Prep.FrequencyCaseInsensitive | preparedatasets.py:295-306 | Lower-casing only widens what is accepted: every accepted frequency is read the same way, and 'Daily' is accepted only after lower-casing. |
| Prep.DatasetPrep.AggregatesDict | preparedatasets.py:295-306 | Returns the container of the lower-cased frequency, or ValueError with get_aggregates_dict's own 'Allowed inputs for freq parameter' message exactly when it is not one. |
| Prep.DatasetPrep.constructor | preparedatasets.py:258-286 | WORKOUT_TABLES and RECORD_TABLES are the given lists, and the four containers start empty. |
| Prep.DatasetPrep.AggregateDaily | preparedatasets.py:599-637 | Succeeds iff the table is in WORKOUT_TABLES or RECORD_TABLES. Otherwise load_table's read raises extract_to_dataframe's ValueError naming the table (:483-492), and nothing is stored. On success the daily aggregate is stored under the table. The other containers are unchanged. |
| Prep.DatasetPrep.DailyFor | preparedatasets.py:643-646 | Succeeds iff the table is listed. Returns the cached daily aggregate, or computes and caches one over 'startDate'. On failure it raises that ValueError and caches nothing. |
| Prep.DatasetPrep.AggregateWeekly | preparedatasets.py:639-679 | Succeeds iff the table is listed, and otherwise raises ValueError with nothing changed. On success the daily aggregate is cached as needed and the weekly aggregate of it is stored and returned. The drop list is always bound, so the UnboundLocalError of the missing else case is never raised. |
| Prep.DatasetPrep.AggregateMonthly | preparedatasets.py:681-711 | Succeeds iff the table is listed, and otherwise raises ValueError with nothing changed. On success it returns the monthly aggregate of the daily one, caching the daily one as needed, and does not store the monthly one. |
| Prep.DatasetPrep.AggregateTable | preparedatasets.py:713-740 | Fails iff the frequency is unknown or the table is in neither list. Either failure is ValueError and changes no container, and for a known frequency it is extract_to_dataframe's. Otherwise the result is the aggregate of the frequency (a fresh daily one over 'startDate', or the weekly or monthly one of the cached daily aggregate) and is stored under the table in that frequency's container. For weekly and monthly the daily aggregate is added only when missing. The other containers are unchanged. |
| Prep.DatasetPrep.JoinAggregates | preparedatasets.py:759-808 | An unknown frequency raises ValueError with nothing changed. Otherwise, if some table missing from the frequency's container is in neither list, the first such table raises extract_to_dataframe's ValueError, after the tables before it are aggregated as `AllAggregated` describes. Otherwise the container of the frequency gains exactly the listed tables, each new entry the aggregate of its table, and keeps its old entries. Daily aggregates are only added, over 'startDate', for tables the container lacked. The other containers are unchanged. An empty list then raises IndexError, and otherwise the result joins the listed tables' aggregates in list order. |
| Prep.DatasetPrep.AggregateAll | preparedatasets.py:788-790 | The first loop of join_aggregates succeeds iff every table missing from the container is listed. Then the containers are as `AllAggregated` describes: exactly the listed tables added, each with its aggregate, and nothing else changed. Otherwise it raises ValueError at the first missing unlisted table, after aggregating the tables before it, and caches nothing for that table. |
| Prep.DatasetPrep.AggregateMissing | preparedatasets.py:789-790 | One iteration aggregates the table iff its container lacks it, storing its aggregate and, if need be, its daily aggregate, and changes nothing else. It fails with extract_to_dataframe's ValueError iff the container lacks the table and the table is in neither list, and then changes nothing. |
| Prep.DatasetPrep.SupportedNow | preparedatasets.py:788-790 | Until join_aggregates' first loop raises, whether it raises at a table is decided by the containers it started from: what the loop adds does not change the outcome. |
| Prep.DatasetPrep.SupportedIffListed | preparedatasets.py:483-492 | Since only listed tables are ever cached, join_aggregates' first loop runs through iff every table it is given is in one of the two lists. |
| Prep.AggregatedStep | preparedatasets.py:788-790 | One more iteration extends the loop's description by its table: the invariant of the first loop of join_aggregates is kept. |
| Prep.DatasetPrep.GetResampledWorkout | preparedatasets.py:858-890 | Succeeds iff the table is listed, and otherwise raises ValueError with nothing changed. On success the resampled daily aggregate is stored in resampled_tables. The daily aggregate is reused when cached and otherwise computed over 'startDate' and cached. Weekly and monthly containers are unchanged. |
| YearExtrema.GetYearExtrema | utils.py:13-24 | IndexError iff the column is empty. Otherwise both results are years of the column, and every year lies between them. |
| YearExtrema.SortPermutes | utils.py:19 | Sorting is a permutation. |
| YearExtrema.OldestNotAfterNewest | utils.py:13-24 | The oldest year is not after the newest. |
| YearExtrema.ExtremaOfSetOnly | utils.py:18-22 | The result depends only on which years occur, not on order or repetition. |
| Seqs.Unique | utils.py:18 | `unique()` keeps each value once: the result has no duplicates and the same members. |

## Left out

- pandas, SQLAlchemy, SQLite and ElementTree are not modelled. A DataFrame is a sequence of rows. Aggregated DataFrames are abstract values recording what they were computed from. The database is a map of appended rows.
- Grouping, resampling, joining and the arithmetic of aggregation (`groupby().agg`, `resample`, `join`, `isocalendar`) are not modelled. Each is a library call whose result the model records only by provenance.
- Timer values (`func_timer`, the elapsed times in `extract_time_per_elem`, `tosql_time_per_elem`), logging and every `print`, including the `i % 10000` progress line, are left out because they are output only. Which tables have an entry in `extract_time_per_elem` is modelled (`timedTables`), because advancing a missing entry raises KeyError.
- ColumnTypes.UnitsError: numpy prints a long array of units over several lines. The model prints it on one line.
- `add_newcols_to_table`, the schema-altering retry of `dataframe_to_sql`, is not modelled. The model's database accepts any row, so that retry never runs. The same goes for `table_error_count`.
- `os.path.join` and `os.getcwd` are not modelled. The data directory is a parameter ending in "/", so joining is concatenation. `os.path.exists` is membership in a set of existing paths. `os.makedirs` is left out.
- The export date and `__version__` are parameters of `DbName.DbPrefix`. Parsing the date with `strptime` is left out.
- Extraction of Workout nodes is modelled only as the dispatch of the walk, in `HealthTree.ClassifyWorkoutNode`. Adding rows to the workout tables and draining the route queue are not modelled. The same goes for extract_childless_elements, extract_all, the float conversion of metres, and check_results' SQL queries.
- Regular expressions are treated as substring tests, with `\w` read as ASCII word characters. In `rename_from_camelcase` only the two patterns the code uses are modelled.
- Text.Lower and Text.IsDigit: `str.lower()` and `\d` are modelled on ASCII only. Python's Unicode lower-casing can change a string's length, which the model's `|Lower(s)| == |s|` excludes.
- `get_unit_from_string` is not modelled. Units are given as parameters.
- The SQL query of `extract_to_dataframe`, the formatting of `load_table`, and `format_*`, `add_to_aggregate`, `prep_to_join` and `combine_*` are library-level DataFrame reshaping and are not modelled. The ValueError that `extract_to_dataframe` raises for a table in neither list is modelled, and so is the memo behaviour of the methods that call it. `load_table`'s own ValueError for such a table is unreachable after that one.
- The columns dropped before aggregating are not modelled. That covers aggregate_daily's per-table drop lists and the 'Indoor Workout' lookup of aggregate_weekly and aggregate_monthly: these change the frame's columns, which the abstract frames do not carry. aggregate_weekly's drop list is bound for every table that reaches it, as `Prep.DatasetPrep.AggregateWeekly` records.
- Extraction.AppleHealthExtraction.ExtractRecordChildren: the loop over a Record's children is factored into ExtractChild, and the record's own steps into AppendRecord. This follows the structure of the loop body rather than adding behaviour.
- BPM entries that are grandchildren of a Record are not modelled. The code scans only direct children, so the model does too.
- get_year_extrema's column is modelled as integers. Pandas NaN values and dtype conversion are left out.
- healthdatabase.py and the dashboard are not part of this model.

## Findings

| source | as written | input that shows it | evidently intended | confidence | as-written member | corrected member |
|---|---|---|---|---|---|---|
| preparedatasets.py:184 | `extract_unit_from_column` filters with `is not None` on the whole Series rather than each cell, so null cells survive and count as a distinct unit | a unit column ['km', null]: two distinct values remain, so ValueError; [null] alone yields None | null cells are dropped, so ['km', null] has the single unit 'km' | not executed | ColumnTypes.NullCellCountsAsUnit | ColumnTypes.ExtractUnitIsTheOnlyUnit |
| preparedatasets.py:588 | the min branch of `rename_by_agg` tests `'Maximum' in col`, copied from the max branch | 'Maximum Speed' aggregated by min keeps its name unchanged | the test is `'Minimum' in col`, so the column becomes 'Min Maximum Speed' | not executed | Renaming.RenameByAggMaximumSpeed | Renaming.RenameByAggCorrected |
