# Verified models of the antb1 engine

antb1 is an analytics engine. This project models the parts of it where a fast, hand-written form
must agree with a much simpler meaning, and proves that it does, for every input and every run.

| modules | what they model | main results |
|---|---|---|
| ControlGroup, Triangular, Probing, ProbeLoops, Regrow, FirstSeen, LoadFactor, FixedTable | the group-id hash table that matches seven-bit tags eight at a time in a 64-bit word | `FixedTable.FixedTable.Run`: any run of reservations and batches gives the ids of one first-seen map and misses no key; `FixedTable.FixedTable.FillUp`: every probe ends exactly under safe loads |
| CountingSort, BlockedSum, JoinRows, JoinBuild, JoinSegments, JoinBuilder, JoinDirect, JoinGrouping, JoinHashed, JoinTable | the build side of a hash join: partitions, merging of parts, dense and bucketed indexes | `JoinTable.Find`: both layouts give exactly the build rows with a key, in input order |
| JoinResiduals, JoinSlots, JoinPadding, NestedLoop, JoinMarking, JoinWindows, JoinCursor, JoinSteps, JoinMeaning, JoinTail, JoinRuns, HashJoin, JoinKinds, WholeJoin, JoinCounts | the resumable probe of inner, left, full, semi, anti and NOT IN joins, the build rows emitted after it, and the whole from input to output | `HashJoin.Join`: every run equals the nested-loop meaning, whatever the batch size; `JoinKinds.FullOuterJoin`, `JoinKinds.DirectionsAgree`; `WholeJoin.JoinInputs` puts build and probe together, and `JoinCounts.RowsCounted` says of each kind how often every row comes out |
| DecimalTypes, DecimalTree, DecimalProgram, DecimalExact, DecimalRun, DecimalNumbers, DecimalWidths | the compiler from DECIMAL trees to step programs with a 64-bit fast path | `DecimalProgram.CompileMeans`, `DecimalExact.EvalIsExact`, `DecimalRun.DifferWhere`, `DecimalRun.EngineRefines`; `DecimalNumbers.EvalIsNumber`: the values stand for real arithmetic |
| Grouping, GroupKeys, GroupStates, GroupConsume, GroupMerge, GroupParts, GroupTable | GROUP BY tables, their partitioned merge | `GroupParts.LanesAreOne`: the lanes together are one table of all rows |
| GroupingSetsShape, GroupingSets, GroupingSetsRun | the plan of grouping sets and its two-level evaluation | `GroupingSetsRun.Aggregate`: every set's groups are those of the input grouped by it directly; `GroupingSetsRun.AggregateMeans`: what the aggregates compute |
| RowExpressions, ColumnExpressions | AND, OR, CASE and COALESCE over compacted open rows | `ColumnExpressions.Evaluate`: the same values and failures as row by row |
| Calendar, CalendarFloors, CalendarUnits | civil dates, ISO weeks, date_trunc | `Calendar.DateOfDay`, `Calendar.DayOfDate`, `CalendarFloors.IsoWeeks`, `CalendarFloors.TruncFloors` |
| LikeMeaning, LikeGeneral, LikeSegments, LikeMatcher | LIKE | `LikeMatcher.Matches`, `LikeMatcher.SegmentsExact`, `LikeGeneral.GeneralMeans` |
| Utf8, JsonText, CaseMapping | UTF-8 (sections 3 and 4 of RFC 3629), JSON escaping (section 7 of RFC 8259), case mapping | `Utf8.EncodeScalars`, `Utf8.ScalarsEncoded`, `JsonText.ReadsBack` |
| HeavyHitters | the Misra-Gries summary | `HeavyHitters.Conserves`, `HeavyHitters.HeavyHitters.Above` |
| CountDistinct | COUNT(DISTINCT) per group | `CountDistinct.State.Consume`, `CountDistinct.State.MergeGroups` |

Lists, Options and Words are shared definitions. `dafny verify dfyconfig.toml` checks everything.

## How the code is abstracted

- An Arrow array is a sequence, NULL is `None`, an error is a failure value, and a key of one or
  more columns is one integer or one value of a type parameter. A hash is an arbitrary function, a
  memory budget an arbitrary function from requests to answers.
- Objects that the code updates (the hash table, a build part, the table builder, the join operator,
  the emitter of build rows, a group table, the heavy-hitter summary, the distinct counter) are
  classes with those fields. Loops are loops with invariants, proved against specification functions
  about which the lemmas speak.
- Integers are unbounded; 64-bit wrap-around is written out where the code relies on it or can run into
  it (the distance of a key from the smallest one in `JoinDirect`, capacities and loads in `LoadFactor`
  and `FixedTable`), and 64-bit and 128-bit overflow where it checks for it (`DecimalProgram`,
  `CalendarFloors.TruncOne`). The control words of the hash table are bit-vectors.

## Where the code does not meet the simple statement

- A DECIMAL program gives NULL on a row with a NULL column, where node-by-node evaluation can fail on
  another part of the tree. The comment at src/exec/compute.cc:409 calls the two the same step for
  step; `DecimalRun.DifferWhere` says, in exact arithmetic on the row's values, on which rows they
  differ, `DecimalRun.FailTogether` says it of batches, and `DecimalRun.NullHidesFailure` has an input.
- LIKE with a pattern that is not well-formed UTF-8 errs one way only. Without `_` a text can be
  accepted in the middle of a character (`LikeMatcher.CutPatternAccepted`), which happens exactly for
  patterns with a `%` right before a continuation byte (`LikeMatcher.SegmentsExact`). With `_` a text
  can be missed (`LikeGeneral.CutPatternMissed`, `LikeGeneral.CutLastMissed`), but only when a wildcard
  cuts off a character that the pattern can go on with (`LikeGeneral.GeneralMeans`); nothing is
  accepted wrongly (`LikeGeneral.GeneralIsSound`).
- date_trunc to a decade, century or millennium goes toward year 0, so it floors exactly when
  `CalendarFloors.YearsFloor` says.
- JsonEscape reads back as its input exactly for well-formed UTF-8: `JsonText.ReadsBack`.
- `Above` can miss a value for every share below 1 / (capacity + 1), and for no other:
  `HeavyHitters.NeverMisses`.
- A COUNT(DISTINCT) state keeps the index of its first merge, so pairs added to it later are not in
  the next one: `CountDistinct.IndexHasAll` has the exact condition, `CountDistinct.MissedMerge` a run.
- The same index has no entry for a group added later, yet the range check passes it:
  `CountDistinct.State.MergeGroups` says exactly when, `CountDistinct.MergedPastIndex` is a run.
- The header promises that Resize never shrinks a state
  (src/exec/include/antb1/exec/grouped_aggregate_state.h:40); the code of COUNT(DISTINCT) does shrink
  it. `CountDistinct.State.Resize` says when the counts stay right, `CountDistinct.ShrunkWrong` is a run.
- The options of the group-id table admit any load factor. A probe can go on for ever exactly under
  loads that give some table more room than slots: `FixedTable.FixedTable.FillUp` is the run and the
  iff, `LoadFactor.SafeWhen` says which loads those are. Some loads above 1 are safe, and 9/8 is not
  (`LoadFactor.SafeLoads`).
- The loop that doubles the capacity multiplies in 64 bits, so it can go on for ever, under every load
  for some reservation (`LoadFactor.EveryLoad`, `LoadFactor.SmallLoadsWithoutEnd`).
  `FixedTable.FixedTable.MakeRoom` says exactly when, `LoadFactor.Found` when products stay below 2^64
  and it cannot.

## Model

| member | source | states |
|---|---|---|
| `ControlGroup.TagMask` | bench/group_loops.h:93-96 | every byte equal to the tag is flagged whatever the borrows below it, and no EMPTY byte ever is |
| `ControlGroup.EmptyMask` | bench/group_loops.h:97 | the flags are exactly the EMPTY bytes, and the mask is 0 exactly when there is none |
| `ControlGroup.TakeLowest` | bench/group_loops.h:98-102 | the byte index is the lowest flag's, and clearing the lowest bit removes that flag and no other |
| `Triangular.TrianglesDistinct` | bench/group_loops.h:296-305 | the first 2^n triangular numbers are different modulo 2^n |
| `Triangular.WalkCovers` | bench/group_loops.h:296-305 | from any start, some stride of the triangular walk over 8 * 2^n slots reaches any given slot |
| `Probing.NextProbe` | bench/group_loops.h:323-338 | adding a stride that grows by 8 gives the closed form of the walk |
| `Probing.LoadWraps` | bench/group_loops.h:307-313 | with the eight mirror bytes, an unaligned load at any position reads the eight slots from it, wrapping |
| `Probing.PathStays` | bench/group_loops.h:307-313 | filling a slot keeps every other key's probe path: groups that were full stay full |
| `Probing.PlaceStores` | bench/group_loops.h:307-313 | placing a group where its own probe first meets an EMPTY slot adds it, keeps the mirror and disturbs no other group |
| `Probing.SomeGroupNotFull` | bench/group_loops.h:296-338 | with fewer groups than slots every probe meets a group with an EMPTY slot, so every probe ends |
| `Probing.MetInTime` | bench/group_loops.h:320-338 | a stored key is met no later than the first group with an EMPTY slot |
| `Probing.MissIsAbsence` | bench/group_loops.h:320-338 | a probe that finds no slot of the key up to a group with an EMPTY slot proves that no group has the key |
| `Probing.NeverEnds` | bench/group_loops.h:320-338 | a probe for a key that a full table does not hold meets neither the key nor an EMPTY slot, however long |
| `Probing.AllFull` | bench/group_loops.h:296-313 | a table that stores as many groups as it has slots has no EMPTY slot |
| `ProbeLoops.FirstEmpty` | bench/group_loops.h:296-305 | the loop ends at an EMPTY slot that is the first its hash's probe meets |
| `ProbeLoops.Find` | bench/group_loops.h:320-338 | the loop comes to the slot that holds the key, or to the slot an insert takes and the key absent; when it comes to neither in as many turns as there are groups, every slot is full and no group has the key |
| `Regrow.PlaceById` | bench/group_loops.h:283-287 | growth in id order stores every group |
| `Regrow.PlaceBySlot` | bench/group_loops.h:271-281 | growth in slot order stores the same groups |
| `Regrow.Numbered` | bench/group_loops.h:319-338 | one more row gives the key's first-seen id, the next dense one when it is new, exactly when the probe has an end |
| `Regrow.EndlessWhen` | bench/group_loops.h:320-338 | the probe for a key never ends exactly when every slot has a group and none has the key |
| `FirstSeen.IdsName` | bench/group_loops.h:320-338 | equal rows get equal ids, distinct rows distinct ids, and an id names its row |
| `FirstSeen.NewRowIsNext` | bench/group_loops.h:330-336 | a new row gets the next dense id, a known one its own |
| `FirstSeen.KeysConcat` | bench/group_loops.h:152-173 | numbering rows in pieces is numbering them at once |
| `LoadFactor.Fitting` | bench/group_loops.h:241-244 | doubling finds the smallest capacity whose 64-bit product leaves the room, or no capacity of 64 bits does |
| `LoadFactor.NeverFound` | bench/group_loops.h:241-244 | no capacity leaves the room exactly when the condition of the doubling loop holds at every one of its turns, wrapped capacities included |
| `LoadFactor.Found` | bench/group_loops.h:241-247 | for a load above 0 and a number of groups whose products stay below 2^64, doubling ends, and ends past the largest table exactly when the groups do not fit that one |
| `LoadFactor.EveryLoad` | bench/group_loops.h:241-244 | every load has a number of groups for which doubling never ends |
| `LoadFactor.SmallLoadsWithoutEnd` | bench/group_loops.h:241-244 | loads from 0 to 1, the default one among them, each with a number of groups for which doubling never ends |
| `LoadFactor.SafeWhen` | bench/group_loops.h:120-135 | unless products wrap, no table has more room than slots exactly when the largest has not, that is when MAX_CAPACITY * load_num < (MAX_CAPACITY + 1) * load_den |
| `LoadFactor.SafeLoads` | bench/group_loops.h:120-135 | every load up to 1 is safe unless products wrap; one load above 1 is, and 9/8 is not |
| `FixedTable.FixedTable.constructor` | bench/group_loops.h:137-140 | for any load with a denominator, an empty table stores no group |
| `FixedTable.FixedTable.Rehash` | bench/group_loops.h:260-294 | a larger table holds the same groups, whatever the load; it is refused exactly when the budget refuses, and then the table stays as it was |
| `FixedTable.FixedTable.GrowTo` | bench/group_loops.h:238-249 | the smallest table with the room and one request to the budget; a capacity error exactly when doubling ends past the largest table, no end exactly when no 64-bit capacity has the room |
| `FixedTable.FixedTable.MakeRoom` | bench/group_loops.h:238-258 | success leaves room for the groups asked for, counted in 64 bits, in the smallest table that has it; capacity error, out of memory and doubling without end each have their exact condition; any outcome keeps every group |
| `FixedTable.FixedTable.FindOrInsert` | bench/group_loops.h:320-338 | the id is that of the first-seen map, and so are the keys afterwards, except exactly when the table is full and the key new: then every group the probe loads is full and lacks the key |
| `FixedTable.FixedTable.ConsumeChunk` | bench/group_loops.h:159-170 | a chunk's ids are those of the first-seen map, up to a key that a full table has no slot for |
| `FixedTable.FixedTable.ConsumeRows` | bench/group_loops.h:156-171 | the rows before a stop are numbered as the first-seen map numbers them; each way to stop has its reason in the state, and rows for which there is room from the start change no capacity |
| `FixedTable.FixedTable.ConsumeChunked` | bench/group_loops.h:152-173 | the ids of the first-seen map, whatever the table's size, load factor, growth order or estimate; each way to stop has its reason in the state |
| `FixedTable.FixedTable.Estimate` | bench/group_loops.h:188-217 | an estimate, granted or refused, changes no group; its doubling can be without end like any other |
| `FixedTable.FixedTable.Run` | bench/group_loops.h:148-217 | any run of reservations and batches numbers its rows as one first-seen map of all of them; a probe without end shows that the load is not safe, and with products below 2^64 doubling always ends and a run stops only for the budget or for more groups than the largest table holds |
| `FixedTable.FixedTable.FillUp` | bench/group_loops.h:120-258 | a new table under a budget that grants everything can be filled until the probe for one more key never ends exactly when the load is not safe, by one reservation and one batch of different keys |
| `CountingSort.StableSort` | src/exec/join_table.cc:515-537 | counting one entry up, summing and placing through a copy gives each bucket's items in input order, with the bucket starts |
| `CountingSort.StableSortInPlace` | src/exec/join_table.cc:903-922 | counting two entries up makes placing itself turn the bucket ends into the starts |
| `CountingSort.SelectPicks` | src/exec/join_table.cc:515-537 | the items of a bucket are exactly those of its key, each in its place |
| `BlockedSum.BlockedPartialSum` | src/exec/join_table.cc:804-842 | the prefix sum taken in blocks and raised by the blocks' totals is the prefix sum |
| `JoinBuild.SortPiece` | src/exec/join_table.cc:515-537 | a batch's keyed rows come out in partition order, each partition's in row order |
| `JoinBuild.JoinBuildPart.AppendRows` | src/exec/join_table.cc:468-598 | the part holds exactly the batches taken so far, their NULL-keyed rows and their key range; a batch of too many rows is refused whole |
| `JoinSegments.PartitionRows` | src/exec/join_table.cc:1247-1273 | the segments of a partition refer to all its rows of all parts, in input order |
| `JoinBuilder.MergeSegments` | src/exec/join_table.cc:1247-1273 | merging a part adds its runs to every partition after those of the parts before it |
| `JoinBuilder.JoinTableBuilder.constructor` | src/exec/join_table.cc:1142-1176 | nothing is released and nothing is stored |
| `JoinBuilder.JoinTableBuilder.ReleaseNext` | src/exec/join_table.cc:1218-1245 | the part counts as released whether or not its rows fit, and the build fails exactly when the released rows exceed the limit |
| `JoinBuilder.JoinTableBuilder.Add` | src/exec/join_table.cc:1178-1216 | parts may come in any order: every part that can be released is, in part order; each status has its exact condition, too many rows exactly when the released rows exceed the limit; a refused call changes nothing |
| `JoinBuilder.JoinTableBuilder.CheckFinish` | src/exec/join_table.cc:1355-1381 | success exactly when all parts came and none failed, and then the merge is that of all parts in part order, NULL-keyed rows counted and retained; a failed build has too many rows in all |
| `JoinDirect.OutsideRange` | src/exec/join_table.cc:1094-1111 | a key outside the build's range never has an entry, even when the difference wraps |
| `JoinDirect.NoRepeats` | src/exec/join_table.cc:794-803 | no entry counts two rows exactly when keys are unique |
| `JoinDirect.BuildDirect` | src/exec/join_table.cc:767-852 | entry b delimits exactly the rows of key min + b, in input order, every row once |
| `JoinGrouping.NumberKeys` | src/exec/join_table.cc:1013-1026 | equal keys get equal numbers, in the order the keys appear |
| `JoinGrouping.SortGroups` | src/exec/join_table.cc:1029-1042 | sorting by key number puts each key's entries together in their order |
| `JoinGrouping.GroupBucket` | src/exec/join_table.cc:968-1044 | a bucket with each key's entries together, in their order, whichever branch is taken |
| `JoinHashed.MakeSlots` | src/exec/join_table.cc:938-962 | one slot for each key of a bucket, delimiting all its entries in order |
| `JoinHashed.BuildDirectory` | src/exec/join_table.cc:881-966 | the directory of a partition has a slot for a key exactly when the partition has the key, with its rows in order |
| `JoinTable.UniquePartitions` | src/exec/join_table.cc:854-879 | the build's keys are unique exactly when no partition repeats one |
| `JoinTable.BuildHashed` | src/exec/join_table.cc:854-879 | every key is served by the directory of its partition, and every row is stored once |
| `JoinTable.Build` | src/exec/join_table.cc:703-765 | whichever layout is chosen, the table holds the build's rows, and the choice is by density and budget |
| `JoinTable.FindDirect` | src/exec/join_table.cc:1094-1111 | the range of exactly the build rows with the key, in input order |
| `JoinTable.FindHashed` | src/exec/join_table.cc:1112-1137 | the same range from the hashed layout |
| `JoinTable.Find` | src/exec/join_table.cc:1046-1138 | each probe row gets exactly the build rows with its key, in input order; a NULL key or an unselected row an empty range |
| `JoinTable.TableHoldsRows` | src/exec/join_table.cc:703-1044 | the table's rows are the build's as a multiset, so a position names one row |
| `JoinResiduals.Sift` | src/exec/hash_join.cc:1680-1703 | residuals applied one after the other keep exactly the pairs all of them pass, and fail exactly when the first residual that is not true of some pair fails on it |
| `JoinResiduals.SiftOnce` | src/exec/hash_join.cc:1687-1701 | one more residual on the pairs left keeps exactly those it passes, and a pair dropped before is never judged |
| `JoinResiduals.JudgeMeans` | src/exec/hash_join.cc:1400-1425 | a pair passes exactly when every residual is true of it, NULL not being true, and fails exactly when one is an error and all before it are true |
| `JoinResiduals.FilterPicks` | src/exec/hash_join.cc:1413-1418 | a filter gives exactly the elements to keep, each in its place |
| `JoinSlots.NextSlots` | src/exec/hash_join.cc:1298-1368 | the next slots in order from any place, at most the limit and fewer only at the batch's end |
| `JoinSlots.NextPairSlots` | src/exec/hash_join.cc:1588-1642 | the next pairs in order from any place, at most the limit and fewer only at the batch's end |
| `JoinPadding.CandidatePairs` | src/exec/hash_join.cc:1370-1429 | the slots with a candidate are those evaluated, in order |
| `JoinPadding.PassingSlots` | src/exec/hash_join.cc:1370-1429 | the numbers of exactly the passing slots, ascending, or a failure exactly when a pair fails |
| `JoinPadding.KeepConcat` | src/exec/hash_join.cc:1259-1296 | slots may be kept in any parts when what has passed of a row is carried over |
| `JoinPadding.KeepPassingOrPadded` | src/exec/hash_join.cc:1259-1296 | keeps the passing slots and one padded slot for a row none of whose candidates passed, also when the row straddles batches |
| `NestedLoop.InnerBatch` | src/exec/hash_join.cc:1588-1642 | the passing slots of a probe batch are the nested-loop inner join of its selected rows |
| `NestedLoop.LeftBatch` | src/exec/hash_join.cc:1223-1257 | the kept slots of a probe batch are the nested-loop left join of its selected rows |
| `JoinMarking.FirstStands` | src/exec/hash_join.cc:890-901 | when residuals read the build's keys alone, the first candidate decides for all candidates of its row |
| `JoinMarking.SlotsMatch` | src/exec/hash_join.cc:1459-1474 | a row has a match exactly when one of the slots met passes, all candidates met or the first alone |
| `JoinMarking.SlotsFail` | src/exec/hash_join.cc:1459-1512 | a slot fails exactly when a pair of the batch does |
| `JoinMarking.EvaluatePairs` | src/exec/hash_join.cc:1459-1474 | a row is flagged exactly when it has a match, whatever the batch size |
| `JoinMarking.MarkMatches` | src/exec/hash_join.cc:1476-1512 | marks exactly the build rows that some pair of the batch matches |
| `JoinMarking.MarkEvery` | src/exec/hash_join.cc:1477-1485 | without residuals every build row of a matched range is marked |
| `JoinWindows.KeepWindow` | src/exec/hash_join.cc:1124-1170 | a window's output and the later windows' are the kept rows of the batch in order |
| `JoinWindows.Choose` | src/exec/hash_join.cc:1102-1117 | the chosen rows as a batch: none, all of them or a selection, and in each case the same rows |
| `JoinWindows.WindowPairs` | src/exec/hash_join.cc:1532-1586 | over unique keys a window's matched rows give the same pairs as the slot walk |
| `JoinWindows.WindowRows` | src/exec/hash_join.cc:1195-1221 | over unique keys a window's rows, matched or padded, are those of the slot walk, and so are the marks |
| `JoinSteps.NextPadded` | src/exec/hash_join.cc:1223-1257 | what the step emits and what it leaves make up what was left before, marks likewise; it fails only over a pair that does |
| `JoinSteps.ApplyResiduals` | src/exec/hash_join.cc:1680-1703 | the rows that come out are those whose pairs pass |
| `JoinSteps.NextPairs` | src/exec/hash_join.cc:1588-1642 | as NextPadded, for an inner join |
| `JoinSteps.NextWindow` | src/exec/hash_join.cc:1554-1586 | as NextPadded, for an inner join over unique keys |
| `JoinSteps.NextLeftWindow` | src/exec/hash_join.cc:1195-1221 | as NextPadded, for a left or full join over unique keys |
| `JoinSteps.NextSelected` | src/exec/hash_join.cc:1124-1170 | as NextPadded, for semi and anti joins |
| `JoinSteps.NextOutput` | src/exec/hash_join.cc:1022-1050 | whichever step the join's kind takes, output is neither lost, repeated nor reordered, and work left goes down |
| `JoinMeaning.WholeRange` | src/exec/hash_join.cc:1476-1512 | a found range holds every row of the table with that key, and only those |
| `JoinMeaning.BatchFails` | src/exec/hash_join.cc:1370-1429 | a batch fails exactly when a pair of its selected rows does |
| `JoinMeaning.BatchMarks` | src/exec/hash_join.cc:1476-1512 | the marks of a batch are the build rows its selected rows match |
| `JoinTail.BuildRowEmitter.Next` | src/exec/hash_join.cc:525-578 | the tail comes out in order in batches of at most the batch size, each row once, and ends only when it is done |
| `JoinTail.BuildRowEmitter.NextNullKeyed` | src/exec/hash_join.cc:580-608 | the NULL-keyed build rows come out once each after the others |
| `JoinRuns.KeepsIt` | src/exec/hash_join.cc:960-986 | the mode decided at the start keeps a row exactly when SQL does, NOT IN's NULL rules included |
| `JoinRuns.ProbeBatch` | src/exec/hash_join.cc:1052-1088 | every selected row of a pulled batch meets exactly the build rows with its key |
| `JoinCounts.SelectedAt` | src/exec/hash_join.cc:1052-1088 | the probe rows of a batch that count are exactly those selected, each in its place |
| `JoinRuns.PullBatch` | src/exec/hash_join.cc:1052-1088 | a batch that is dropped has nothing to emit, mark or fail over |
| `JoinRuns.PullNext` | src/exec/hash_join.cc:1052-1088 | what the batch gives and what the batches after it give are what was pending |
| `JoinRuns.EmptyBuild` | src/exec/hash_join.cc:435-437 | over an empty build a kind that needs a match has nothing to do |
| `JoinRuns.WalkOn` | src/exec/hash_join.cc:992-1020 | walking on in a batch emits its rows in order and loses none |
| `HashJoin.HashJoinOperator.constructor` | src/exec/hash_join.cc:818-990 | at the start all that the join means is to come |
| `HashJoin.HashJoinOperator.Pull` | src/exec/hash_join.cc:1052-1088 | pulling a batch changes nothing of what is still to come |
| `HashJoin.HashJoinOperator.Walk` | src/exec/hash_join.cc:1022-1050 | a step's rows and those still to come are the ones before |
| `HashJoin.HashJoinOperator.EmitTail` | src/exec/hash_join.cc:525-608 | once the probe is done the marks are final and the tail is the build rows they name |
| `HashJoin.HashJoinOperator.Next` | src/exec/hash_join.cc:992-1020 | each call emits the next rows of the join and leaves the rest; the end comes only when nothing is left |
| `HashJoin.HashJoinOperator.Run` | src/exec/hash_join.cc:992-1020 | pulling to the end gives all rows in order, or fails exactly when a pair fails |
| `HashJoin.Join` | src/exec/hash_join.cc:716-1088 | for every kind, batch size and batching of the input the run gives the rows the join means, or fails exactly when a residual fails on a pair |
| `JoinKinds.TailRows` | src/exec/hash_join.cc:525-578 | a build row is in the tail exactly when no pair matched it (or one did, for semi joins), as often as the build has it |
| `JoinKinds.FullOuterJoin` | src/exec/hash_join.cc:525-1257 | a full join's output is the nested-loop left join, the unmatched build rows and the NULL-keyed ones once each, as a multiset |
| `JoinKinds.MatchedEitherWay` | src/exec/hash_join.cc:1459-1512 | a left row has a match by the filtering direction exactly when it has by the marking one |
| `JoinKinds.FilteringKeeps` | src/exec/hash_join.cc:1124-1170 | the filtering direction's output stands for the left rows it keeps, in order |
| `JoinKinds.MarkingKeeps` | src/exec/hash_join.cc:1476-1512 | the marking direction's tail stands for the left rows it marks or leaves |
| `JoinKinds.DirectionsAgree` | src/exec/hash_join.cc:1124-1512 | a semi or anti join keeps the same left rows whether it filters them as probe or marks them as build, residuals included |
| `WholeJoin.BuildTable` | src/exec/hash_join.cc:323-433 | the table of a build input in parts of batches, added in any order, holds the keyed rows of the input in order and its NULL-keyed rows; it is refused exactly when a batch or the whole has too many rows |
| `WholeJoin.MergeParts` | src/exec/hash_join.cc:323-433 | the merge of the parts, whatever order they are added in, is that of the parts in part order |
| `WholeJoin.MeaningIs` | src/exec/hash_join.cc:525-1257 | what a run means is, as a multiset, the join of its kind of the two inputs, whatever the table's layout and order |
| `WholeJoin.JoinInputs` | src/exec/hash_join.cc:323-1088 | from the two inputs to the rows, through parts, builder, table and probe: the rows are the join's, a failure exactly that of a pair, a refusal exactly for size |
| `JoinCounts.FailsMeans` | src/exec/hash_join.cc:1400-1425 | a join fails exactly when some probe row and selected build row with equal keys meet an error at a residual before which all are true |
| `JoinCounts.RowsCounted` | src/plan/include/antb1/plan/join_kind.h:10-22 | for every kind and side to build on, how often each output row comes out, told by how often its rows are in the two inputs, by key equality, by NULL keys and by the verdicts of the residuals alone |
| `JoinCounts.MatchCount` | src/plan/include/antb1/plan/join_kind.h:10-11 | the matches of a probe row are the build rows with its key of which every residual is true, each as often as the build has it |
| `JoinMeaning.NotInIs` | src/plan/include/antb1/plan/join_kind.h:17-18 | three-valued NOT IN is true exactly for an empty list, or a non-NULL key that is not in a list without NULL |
| `DecimalWidths.RangeIsDigits` | src/plan/literal.cc:481-484 | the values of a DECIMAL width are exactly the numbers of at most as many decimal digits, of either sign |
| `DecimalTypes.CountsAs` | src/plan/key_type.cc:48-61 | every value of an integer type is a value of the DECIMAL it counts as |
| `DecimalWidths.CountsAsLeast` | src/plan/key_type.cc:48-61 | the DECIMAL an integer type counts as has no fraction and the fewest digits that hold its values |
| `DecimalTypes.ArithValid` | src/plan/binder.cc:2393-2438 | the result type has at most 38 digits and its scale within its width |
| `DecimalTypes.Nests` | src/plan/binder.cc:2393-2438 | an operand whose scale is the result's nests in the result type of a +, - or %, so only a rescaled operand can be too wide |
| `DecimalWidths.WidthIs` | src/plan/binder.cc:2393-2438 | the result width is the least that holds every operand at the result's scale, with one digit more for + and -, or every product, up to 38 digits and up to 18 for small operands; there is no DECIMAL result exactly beyond 38 digits of scale or of a remainder |
| `DecimalTree.InItsRange` | src/exec/compute.cc:465-533 | a value that arithmetic gives is a value of its type |
| `DecimalNumbers.RemainderMeans` | src/exec/compute.cc:516-524 | the remainder is what is left of the dividend after whole divisors, less than the divisor in size and of the dividend's sign |
| `DecimalNumbers.NodeIsNumber` | src/exec/compute.cc:336-533 | what a node of two values gives stands for the real +, -, * or remainder of the numbers the two stand for, whatever their scales |
| `DecimalNumbers.NullOfZero` | src/exec/compute.cc:516-522 | a node of two values gives NULL for a remainder by 0 and for nothing else |
| `DecimalNumbers.EvalIsNumber` | src/exec/compute.cc:336-533 | whatever any well-typed tree gives on a row stands for the tree's arithmetic on the real numbers of its leaves |
| `DecimalNumbers.ExactIsNumber` | src/exec/compute.cc:336-533 | so does the exact value of a tree, in or out of range |
| `DecimalNumbers.TreeIsNumber` | src/exec/compute.cc:336-533 | a tree of +, - and * gives a value exactly when all its values are there and none spills, and that value stands for the tree's real arithmetic |
| `DecimalWidths.NeverOverflows` | src/exec/compute.cc:336-533 | where the result width is not capped, operands in their types' ranges never overflow |
| `DecimalExact.EvalIsExact` | src/exec/compute.cc:336-533 | node-by-node evaluation is unbounded arithmetic: a failure exactly when an exact operand or result that is there leaves its range, else the exact value, NULL where a column is |
| `DecimalExact.NodeOfValues` | src/exec/compute.cc:465-533 | a node of two values fails exactly when a rescaled operand or the result is out of range, tests left out included |
| `DecimalExact.NodeWithNull` | src/exec/compute.cc:336-370 | a node of a value and a NULL fails exactly when the value is rescaled and does not fit |
| `DecimalExact.ColumnsThere` | src/exec/compute.cc:1724-1861 | the columns a compiled tree reads have values exactly when those of the tree have |
| `DecimalProgram.NarrowAgrees` | src/exec/compute.cc:581-616 | where the int64 step answers, the 128-bit step gives the same value |
| `DecimalProgram.OperandMeans` | src/exec/compute.cc:538-548 | an operand a step leaves untested is known to fit, so preparing it is rescaling and testing it |
| `DecimalProgram.StepMeans` | src/exec/compute.cc:1824-1860 | a step, 64-bit or 128-bit, gives what its node gives, failures included |
| `DecimalProgram.NodeMeans` | src/exec/compute.cc:1806-1860 | the step of a node run after its operands' steps gives the node's value |
| `DecimalProgram.CompileMeans` | src/exec/compute.cc:1760-1861 | on a row whose columns all have a value the compiled steps give each subtree's value, or fail when it fails |
| `DecimalRun.CompileSources` | src/exec/compute.cc:1760-1861 | every step reads columns, constants and earlier steps alone |
| `DecimalRun.RunRow` | src/exec/compute.cc:675-735 | running a row fails exactly when a step fails, and the slots then hold the steps' results |
| `DecimalRun.ProgramValidity` | src/exec/compute.cc:1724-1754 | the bitmap marks exactly the rows with a value in every column read |
| `DecimalRun.RunProgram` | src/exec/compute.cc:654-745 | the batch fails exactly when a row with all values fails, and otherwise gives every row's value, NULL without one |
| `DecimalRun.ProgramMeans` | src/exec/compute.cc:1867-1878 | the program equals node-by-node evaluation on rows without NULL, and gives NULL on the others, where the nodes give NULL or fail |
| `DecimalRun.DifferWhere` | src/exec/compute.cc:1863-1907 | program and nodes differ on a row exactly where a column is NULL and an exact value that is there leaves its range; each fails exactly where exact arithmetic says |
| `DecimalRun.FailTogether` | src/exec/compute.cc:1863-1907 | the program never fails alone, agrees where nothing fails, and fails together with the nodes exactly when a row with every value spills or no row hides a spill |
| `DecimalRun.NullHidesFailure` | src/exec/compute.cc:400-412 | a tree and a row on which the nodes fail and the program gives NULL |
| `DecimalRun.EngineRefines` | src/exec/compute.cc:1863-1907 | programs at any level of a tree change no answer and fail only where the nodes do |
| `Calendar.Floors` | src/exec/compute.cc:757-760 | the corrected truncating division is floor division and its remainder |
| `Calendar.DateOfDay` | src/exec/compute.cc:770-791 | every day has a valid Gregorian date, and that date's day is the day |
| `Calendar.DayOfDate` | src/exec/compute.cc:770-791 | every valid Gregorian date is the date of its day |
| `Calendar.InOrder` | src/exec/compute.cc:784-791 | dates are earlier exactly when their days are |
| `Calendar.DaysCount` | src/exec/compute.cc:770-781 | day 0 is 1970-01-01 and each next day's date is the calendar's next date |
| `CalendarFloors.StartsIsoYear` | src/exec/compute.cc:842-844 | an ISO year starts on exactly the Monday whose Thursday is one of January's first seven days |
| `CalendarFloors.IsoWeeks` | src/exec/compute.cc:834-844 | every day lies in its ISO year, and its week is its 7-day block counted from the year's start |
| `CalendarFloors.YearsFloor` | src/exec/compute.cc:988-995 | truncating to a decade or longer floors exactly when the year is not negative or starts the unit |
| `CalendarFloors.TruncFloors` | src/exec/compute.cc:965-1006 | date_trunc gives the last start of the unit at or before the value, with that exact exception |
| `CalendarFloors.TruncTwice` | src/exec/compute.cc:965-1006 | what date_trunc gives starts the unit and is truncated to itself |
| `CalendarFloors.TruncOne` | src/exec/compute.cc:965-1016 | one value's result, and a failure exactly for an unknown unit or a result outside the TIMESTAMP range |
| `CalendarFloors.DateTrunc` | src/exec/compute.cc:959-1024 | every row gets its own value truncated, NULL and the infinities kept, and the column fails exactly when a row does |
| `CalendarFloors.AgainTheSame` | src/exec/compute.cc:959-1024 | a result truncated again, as a TIMESTAMP, is the same |
| `CalendarUnits.UnitsNest` | src/exec/compute.cc:973-985 | 24 starts of an hour from one day to the next, 60 of a minute in an hour and of a second in a minute, 1000 of a millisecond in a second and of a microsecond in a millisecond; every microsecond is a start, and 1970 starts all units |
| `CalendarUnits.Mondays` | src/exec/compute.cc:990-991 | weeks start on 5 January 1970 and every seventh day from it |
| `CalendarUnits.TimestampBounds` | src/exec/compute.cc:1011-1013 | the least timestamp is the first midnight that 64 bits hold |
| `CalendarUnits.TruncGrows` | src/exec/compute.cc:965-1006 | a later time is never truncated to an earlier one, for any unit |
| `CalendarUnits.TruncInOrder` | src/exec/compute.cc:959-1024 | date_trunc keeps the order of a column's values, infinities first and last, and is the same of a date and of its midnight |
| `CalendarUnits.EndsStay` | src/exec/compute.cc:959-969 | NULL and both infinities stay what they are, a DATE's becoming a TIMESTAMP's |
| `RowExpressions.ThenAssociates` | src/exec/compute.cc:2068-2102 | short-circuit three-valued AND and OR are associative, errors included |
| `RowExpressions.FailsWhen` | src/exec/compute.cc:2068-2102 | AND and OR fail exactly when an argument that no earlier one decided fails |
| `RowExpressions.ThreeValued` | src/exec/compute.cc:2068-2102 | without a failure they are three-valued: decided exactly when an argument decides, NULL exactly when none does and one is NULL |
| `RowExpressions.TruthTable` | src/exec/compute.cc:2068-2102 | without a failure AND is false exactly when an argument is and true exactly when all are; OR the other way round |
| `RowExpressions.NotMeans` | src/exec/compute.cc:2073-2077 | NOT is true exactly of false and false exactly of true, and NULL or failing exactly when its argument is |
| `RowExpressions.DeMorgan` | src/exec/compute.cc:2065-2102 | NOT of an AND is the OR of the NOTs and the other way, NULLs and failures included |
| `RowExpressions.FuncMeans` | src/exec/compute.cc:2043-2063 | a function is applied to the values of its arguments in order |
| `RowExpressions.FuncFails` | src/exec/compute.cc:2043-2063 | and fails where an argument does |
| `RowExpressions.WhenAnswers` | src/exec/compute.cc:2229-2249 | the first branch whose WHEN is true, those before being false or NULL, answers with its THEN cast to the type of the whole; a WHEN that fails, fails |
| `RowExpressions.ArgumentAnswers` | src/exec/compute.cc:2211-2228 | the first argument of COALESCE that is not NULL answers, cast to the type of the whole |
| `RowExpressions.ElseAnswers` | src/exec/compute.cc:2250-2257 | when no branch answers, ELSE does, cast to the type of the whole, or NULL |
| `RowExpressions.PrunedMeaning` | src/exec/compute.cc:2117-2132 | an expression gives the same value when the columns it does not read are NULL |
| `ColumnExpressions.Filter` | src/exec/compute.cc:2128-2131 | the selected rows, in order |
| `ColumnExpressions.Scatter` | src/exec/compute.cc:2171-2195 | each selected row gets its own value back, every other row keeps what it had |
| `ColumnExpressions.Convert` | src/exec/compute.cc:2156-2168 | each row's value converted, and a failure exactly when one cannot be |
| `ColumnExpressions.EvaluateFunc` | src/exec/compute.cc:2043-2063 | operands are computed over all rows and the function applied row by row; the batch fails exactly when a row does |
| `ColumnExpressions.EvaluateSelected` | src/exec/compute.cc:2107-2137 | the selected rows' values, and a failure exactly when a selected row fails |
| `ColumnExpressions.EvaluateArgument` | src/exec/compute.cc:2082-2100 | one more argument of AND or OR for the undecided rows leaves every row at its value so far |
| `ColumnExpressions.EvaluateBool` | src/exec/compute.cc:2068-2102 | every row gets its own AND or OR, and the batch fails exactly when a row does |
| `ColumnExpressions.TakeArgument` | src/exec/compute.cc:2211-2228 | COALESCE's argument answers exactly the open rows where it is not NULL |
| `ColumnExpressions.TakeWhen` | src/exec/compute.cc:2229-2249 | a WHEN takes exactly the open rows where it is true, and its THEN is computed for those alone |
| `ColumnExpressions.TakeOtherwise` | src/exec/compute.cc:2250-2257 | ELSE answers the rows left, which are NULL without one |
| `ColumnExpressions.EvaluateCase` | src/exec/compute.cc:2199-2258 | every row gets its own CASE or COALESCE, and the batch fails exactly when a row does |
| `ColumnExpressions.Evaluate` | src/exec/compute.cc:2068-2258 | column-wise evaluation of any nesting of these equals row-by-row evaluation, and fails exactly when some row does |
| `GroupKeys.Number` | src/exec/key_table.h:27-47 | dense ids that never change, each naming its key, and no id without a row |
| `GroupKeys.FirstPositions` | src/exec/group_table.cc:39-55 | each new group's first position, though the walk stops once all are found |
| `GroupKeys.ChunkOf` | src/exec/group_table.cc:381-402 | the chunk an element is in, empty chunks skipped |
| `GroupStates.GatherSlice` | src/exec/group_table.cc:392-437 | gathering chunk by chunk and putting back in order gives the elements in the order asked for |
| `GroupStates.AddGathered` | src/exec/group_table.cc:389-441 | the new keys follow the table's own in chunks of at most 65536 |
| `GroupStates.MergeStates` | src/exec/group_table.cc:337-369 | each state is merged into its group's, in order |
| `GroupStates.MergedRows` | src/exec/group_table.cc:281-335 | merging each row's state into its group's state aggregates the group's rows |
| `GroupConsume.ConsumeRows` | src/exec/group_table.cc:281-335 | after a batch the table holds the groups of all rows so far, with first-seen keys and states |
| `GroupMerge.MergeChosen` | src/exec/group_table.cc:371-442 | merging chosen groups of a part is consuming the rows of those groups after the table's own |
| `GroupMerge.Sources` | src/exec/group_table.cc:373-380 | each new group's source is the part group that became it |
| `Grouping.SameGroups` | src/exec/group_table.cc:281-335 | two tables of the same rows differ in numbering alone |
| `Grouping.OfPicks` | src/exec/group_table.cc:281-335 | the rows of a group are exactly those whose key counts as its key, each in its place |
| `GroupParts.PartitionGroups` | src/exec/group_table.cc:606-663 | every group is in exactly one partition, the one its key has in every part |
| `GroupParts.MergeLane` | src/exec/group_table.cc:665-702 | merging one partition of every part in part order groups exactly that partition's rows |
| `GroupParts.MergeLanes` | src/exec/group_table.cc:606-702 | every partition's lane groups that partition's rows of all parts |
| `GroupParts.MergePrefixLanes` | src/exec/group_table.cc:606-702 | with partitions by prefix hash, and by the hash of all keys for heavy prefixes, every lane groups its partition's rows, and groups of a prefix that is not heavy share a lane |
| `GroupParts.LanesAreOne` | src/exec/group_table.cc:606-702 | each group of one table over all rows is in its partition's lane alone, with the same first key and state |
| `GroupParts.LaneIsPart` | src/exec/group_table.cc:606-702 | a lane has no group that the whole has not |
| `GroupParts.RouteRows` | src/exec/group_table.cc:552-599 | the rows of each partition in input order |
| `GroupTable.GroupTable.constructor` | src/exec/group_table.cc:131-139 | an empty table groups no row |
| `GroupTable.GroupTable.Consume` | src/exec/group_table.cc:281-335 | the table groups the rows before and the batch |
| `GroupTable.GroupTable.Merge` | src/exec/group_table.cc:337-369 | the table groups its rows followed by the part's |
| `GroupTable.GroupTable.Partition` | src/exec/group_table.cc:606-663 | the groups are split as they stand |
| `GroupTable.GroupTable.MergePartition` | src/exec/group_table.cc:665-702 | the table groups its rows followed by the part's rows of that partition; a partition that does not exist is refused |
| `GroupingSets.MergedGroups` | src/exec/group_table.cc:491-532 | merging root groups into the groups they project to aggregates exactly the rows that project there |
| `GroupingSets.FoldEither` | src/exec/group_table.cc:491-532 | an exact aggregate of interleaved rows of two kinds is the merge of the kinds' aggregates |
| `GroupingSets.MergeProjected` | src/exec/group_table.cc:491-532 | folding a root's groups groups the projected rows directly |
| `GroupingSetsRun.EnsureGroup` | src/exec/group_table.cc:534-540 | the empty set has its one group even over no row |
| `GroupingSetsRun.ExactAggregates` | src/exec/grouping_sets_shape.cc:23-51 | the aggregates accepted merge in any order and grouping; MIN and MAX over any totally ordered type |
| `GroupingSetsRun.AggregateMeans` | src/exec/grouping_sets_shape.cc:23-51 | COUNT(*) counts the rows and the others the values that are not NULL, SUM and AVG add their numbers, MIN has one of them at most every one, MAX one that every one is at most, and NULL where there is none |
| `GroupingSetsShape.Contains` | src/exec/grouping_sets_shape.cc:54-56 | one pass over two ascending lists decides the subset relation |
| `GroupingSetsShape.Distinct` | src/exec/grouping_sets_shape.cc:72-78 | the distinct sets, no two equal, numbered in first-seen order, with each entry's number |
| `GroupingSetsShape.FindRoots` | src/exec/grouping_sets_shape.cc:80-87 | a set is a root exactly when no larger set holds it, or aggregates do not merge exactly |
| `GroupingSetsShape.RootAround` | src/exec/grouping_sets_shape.cc:99-107 | every set lies in some root, so the check at line 106 never fires |
| `GroupingSetsShape.FindSource` | src/exec/grouping_sets_shape.cc:99-107 | the chosen source is a root around the set and none around it is smaller |
| `GroupingSetsShape.FindColumns` | src/exec/grouping_sets_shape.cc:108-111 | the columns project the root's keys onto the set |
| `GroupingSetsShape.PlanGroupingSets` | src/exec/grouping_sets_shape.cc:69-118 | the plan's sets are the distinct ones given, with their entries, sources, columns and last entries |
| `GroupingSetsShape.LastEntries` | src/exec/grouping_sets_shape.cc:113-116 | each set's last entry |
| `GroupingSets.ProjectTwice` | src/exec/grouping_sets.cc:79-98 | projecting onto a root and then onto a set in it is projecting onto the set |
| `GroupingSetsRun.ConsumeAll` | src/exec/grouping_sets.cc:58-77 | one pass over the input groups it by every root |
| `GroupingSetsRun.FromRoot` | src/exec/grouping_sets.cc:86-97 | a set's table from its root's is the table of the rows by that set |
| `GroupingSetsRun.Aggregate` | src/exec/grouping_sets.cc:55-108 | for every list of ascending sets, each set's table groups the input by that set directly; with keys that are normalized, as DOUBLE ones are, when merging is not exact |
| `LikeSegments.Segments` | src/exec/like.cc:28-40 | the segments are the non-empty pieces between the percent signs, in order |
| `LikeSegments.Find` | src/exec/like.cc:71 | the leftmost place of a segment in the window, if there is one |
| `LikeSegments.Leftmost` | src/exec/like.cc:70-76 | taking the leftmost place of a segment loses no match |
| `LikeSegments.FindAll` | src/exec/like.cc:70-77 | greedy search finds the segments in order exactly when some placement exists |
| `LikeSegments.MatchSegments` | src/exec/like.cc:46-78 | for every pattern and text, true exactly when the declarative byte-level meaning holds |
| `LikeMeaning.LiteralLike` | src/exec/like.cc:42-44 | a pattern without wildcards is like itself alone |
| `LikeMeaning.PercentMeans` | src/exec/like.cc:86-100 | a percent sign stands for any number of characters in front of what the rest is like |
| `LikeGeneral.MatchGeneral` | src/exec/like.cc:80-109 | the loop ends, for every pattern and text, with the answer of the walk that goes back to the last percent alone |
| `LikeGeneral.CharLength` | src/exec/like.cc:17-24 | the bytes of the character at a place, or one byte |
| `LikeGeneral.GeneralMeans` | src/exec/like.cc:80-109 | for every text the walk's answer is the declarative character-level meaning, when unfinished bytes of a character before a wildcard after the first percent sign are never followed, percent signs aside, by an underscore or a continuation byte |
| `LikeGeneral.UnfinishedMeans` | src/exec/like.cc:17-24 | the unfinished bytes are exactly the proper beginnings of well-formed sequences |
| `LikeGeneral.Ordered` | src/exec/like.cc:96-100 | of two attempts at a part, the later one of which starts at a character met from the earlier, the end of the later is met from the end of the earlier too, unless the part ends in unfinished bytes; even then only continuation bytes are between them |
| `LikeGeneral.WellFormedSettled` | src/exec/like.cc:80-109 | a pattern that is well formed from its first percent sign on meets that condition, whatever comes before |
| `LikeGeneral.GeneralIsSound` | src/exec/like.cc:80-109 | for every pattern and text, what the walk accepts is like the pattern |
| `LikeGeneral.CutPatternMissed` | src/exec/like.cc:80-109 | a pattern with a cut-off character before a percent sign that is like a text which the walk rejects |
| `LikeGeneral.CutLastMissed` | src/exec/like.cc:86-108 | one with a single percent sign: the first attempt reaches the end of the text and the matching one is never tried |
| `LikeMatcher.LikeOverCharacters` | src/exec/like.cc:42-44 | for a pattern without underscore in which no percent sign is right before a continuation byte, a byte-level match is a character-level one |
| `LikeMatcher.LikeOverBytes` | src/exec/like.cc:42-44 | for a pattern without underscore a character-level match is a byte-level one |
| `LikeMatcher.SegmentsExact` | src/exec/like.cc:46-78 | for a pattern without underscore the byte-level and the character-level meaning agree on every text exactly when no percent sign is right before a continuation byte |
| `LikeMatcher.CutAccepts` | src/exec/like.cc:46-78 | every other pattern without underscore accepts a text that is not like it |
| `LikeMatcher.CutPatternAccepted` | src/exec/like.cc:46-78 | such a pattern and text, written out |
| `LikeMatcher.WellFormedUncut` | src/exec/like.cc:46-78 | a well-formed pattern has no percent sign right before a continuation byte |
| `LikeMatcher.Matches` | src/exec/like.cc:42-44 | LIKE on every text for a well-formed pattern, for any pattern with underscore in which no cut-off character can go on after a wildcard, and for any without underscore that cuts no character after a percent sign; on every other pattern the walk never accepts wrongly and the segments never reject wrongly |
| `Utf8.SequenceLength` | src/common/utf8.cc:8-38 | the length of exactly the multi-byte sequences of RFC 3629's table, 0 elsewhere |
| `Utf8.OneLength` | src/common/utf8.cc:8-38 | no character is the beginning of another |
| `Utf8.EncodeInTable` | src/exec/case_mapping.cc:74-90 | an encoding is in RFC 3629's table and spells its value |
| `Utf8.TableIsEncoded` | src/exec/case_mapping.cc:31-72 | a sequence of the table is the encoding of the value it spells |
| `Utf8.Decode` | src/exec/case_mapping.cc:31-72 | the scalar value and length exactly where the table has a sequence, no value elsewhere |
| `Utf8.EncodeScalars` | src/exec/case_mapping.cc:31-90 | decoding a well-formed text and encoding it gives it back |
| `Utf8.ScalarsEncoded` | src/exec/case_mapping.cc:31-90 | encoding scalar values gives a well-formed text of exactly those values |
| `CaseMapping.CaseConvertValue` | src/exec/case_mapping.cc:94-114 | each character replaced by its other case, and a failure exactly for ill-formed text |
| `CaseMapping.LettersMap` | src/exec/case_mapping.cc:100-105 | the upper case of each small letter of the alphabet is its capital, and the lower case of each capital its small letter |
| `CaseMapping.OthersStay` | src/exec/case_mapping.cc:100-105 | every other ASCII character stays as it is |
| `CaseMapping.TableMaps` | src/exec/case_mapping.cc:106-110 | beyond ASCII the table decides |
| `JsonText.JsonEscape` | src/engine/format.cc:51-75 | the loop gives the escape of every character and byte in order |
| `JsonText.EscapeReads` | src/engine/format.cc:51-75 | every escaped value is a legal JSON string body that reads back as the value with each stray byte spelled out |
| `JsonText.StraySpelled` | src/engine/format.cc:51-75 | a byte that is no character reads as a backslash, an x and its two hexadecimal digits, the high one first |
| `JsonText.ReadsBack` | src/engine/format.cc:51-75 | it reads back as the value itself exactly when the value is well-formed UTF-8 |
| `JsonText.EscapeIsText` | src/engine/format.cc:51-75 | every escaped value is well-formed UTF-8 |
| `HeavyHitters.Conserves` | src/exec/heavy_hitters.cc:15-28 | after any stream: at most capacity counters, all positive, n = their sum + (capacity + 1) * rounds, and each counter at most rounds below its value's count |
| `HeavyHitters.Frequent` | src/exec/heavy_hitters.cc:15-28 | a counter is at most n / (capacity + 1) short, and a more frequent value has one |
| `HeavyHitters.HeavyHitters.constructor` | src/exec/heavy_hitters.cc:11-13 | no counters, and a capacity of at least 1 |
| `HeavyHitters.HeavyHitters.Add` | src/exec/heavy_hitters.cc:15-28 | the counters are the summary of the stream with the value added |
| `HeavyHitters.Decrement` | src/exec/heavy_hitters.cc:25-27 | one pass takes one off every counter and erases those at 0 |
| `HeavyHitters.Over` | src/exec/heavy_hitters.cc:35-42 | exactly the values with a counter over the bound, ascending |
| `HeavyHitters.HeavyHitters.Above` | src/exec/heavy_hitters.cc:30-43 | exactly the values with a counter over the bound, sorted; no value above share is missed when share >= 1 / (capacity + 1), and every value given is within 1 / (capacity + 1) of it |
| `HeavyHitters.MissedBelow` | src/exec/heavy_hitters.cc:30-43 | for every smaller share there is a stream with a value above it that has no counter |
| `HeavyHitters.NeverMisses` | src/exec/heavy_hitters.cc:30-43 | no value of any stream is missed exactly when share >= 1 / (capacity + 1) |
| `CountDistinct.AddPairs` | src/exec/grouped_aggregate_state.cc:1047-1079 | the counts stay the numbers of distinct non-NULL values of each group, each new pair counted once |
| `CountDistinct.PairsByGroup` | src/exec/grouped_aggregate_state.cc:1091-1116 | the pairs sorted by group with the group starts |
| `CountDistinct.MergedPairs` | src/exec/grouped_aggregate_state.cc:1013-1022 | the pairs of the merged groups in the order asked for, each made its target's |
| `CountDistinct.MovedValues` | src/exec/grouped_aggregate_state.cc:1006-1033 | a target gets the values of every group merged into it, many to one |
| `CountDistinct.State.constructor` | src/exec/grouped_aggregate_state.cc:979-990 | no pair and no group |
| `CountDistinct.State.Resize` | src/exec/grouped_aggregate_state.cc:994 | new groups count nothing; with fewer groups than before the counts stay right exactly when no pair is of a dropped group |
| `CountDistinct.State.Consume` | src/exec/grouped_aggregate_state.cc:996-1005 | the pairs afterwards are those before and the rows', with exact counts; bad ids change nothing |
| `CountDistinct.State.MergeGroups` | src/exec/grouped_aggregate_state.cc:1006-1033 | rejected exactly for groups out of range; past the index exactly when a group came after the source's first merge; else the pairs afterwards are those before and the moved ones, with exact counts, and the source keeps its own |
| `CountDistinct.IndexHasAll` | src/exec/grouped_aggregate_state.cc:1081-1116 | the pairs kept from a state's first merge still hold a group's values exactly when none was added to it since |
| `CountDistinct.MissedMerge` | src/exec/grouped_aggregate_state.cc:1081-1116 | a run in which a value consumed after the first merge is missed by the next |
| `CountDistinct.MergedPastIndex` | src/exec/grouped_aggregate_state.cc:1013-1022 | a run in which a group added after the first merge is accepted and is past the end of the index |
| `CountDistinct.ShrunkWrong` | src/exec/grouped_aggregate_state.cc:994 | a run in which fewer groups leave a pair without a count |

## Left out

- Command line, session, profiling, benchmark drivers, SQL parsing and planning: plumbing, or not about the data.
- Arrow kernels, the Unicode case tables and RE2: code and data of others; what the core needs of them is a parameter, or a method with the contract the code relies on (`GroupKeys.Number`, `ColumnExpressions.Filter`).
- Threads: parts are processed one after the other, merges of one partition run in part order, and the marks of a join are a set.
- Memory accounting: a budget grants or refuses, and nothing counts bytes.
- Error texts, type dispatch and schemas: an error is one failure value, so which of two failing rows an error names is not modelled.
- DOUBLE arithmetic, averages and variances; shares and bounds of the Misra-Gries summary are real numbers.
- The join with a build of one row, and the key filter a build publishes to its scan.
- 128-bit helpers (comparison of scaled values, printing): the DECIMAL model works on integers with explicit 128-bit bounds.
- Output assembly of grouping sets (GROUPING values, NULL padding, batches) and of group tables (NextChunk).
- Group tables without first-seen keys, and the lookup that adds no group.
- EXTRACT and interval arithmetic: only date_trunc and the conversions below it.
- FixedTable.FixedTable.constructor: asks for a denominator other than 0, by which the code divides. The little-endian load of a control word is assumed, and positions are taken modulo the capacity instead of masked.
- FixedTable.FixedTable.MakeRoom: how many keys a vector can hold is not modelled; an allocation that large is for the budget to refuse.
- ProbeLoops.Find: stops after as many probes as the table has groups and says so, where the code goes over the same groups again.
- ControlGroup.TagMask: allows a full byte next to a match to be flagged without holding the tag, as the code does.
- JoinTable.Find: one integer key stands for all key columns; equality of several columns is equality of that key.
- HashJoin.Join: a residual gives true, false, NULL or an error for a pair; expressions inside residuals are not modelled here. The build rows emitted after a full, or a left-building semi or anti join come out of the same operator, as if the probe had one part.
- GroupParts.MergePrefixLanes: heavy prefixes are looked up by membership, not by binary search.
- GroupingSetsRun.ExactAggregates: a sum is an unbounded integer; the 128-bit accumulator is not modelled.
- LikeGeneral.GeneralMeans: the condition on the pattern is one way only. Whether a pattern that does not meet it misses some text is left open: it takes how a part of the pattern can overlap itself in a text. That nothing is accepted wrongly holds for them too (`LikeGeneral.GeneralIsSound`).
- ColumnExpressions.Evaluate: boolean expressions without arguments, CASE lists of different lengths and branches with neither condition nor value, which the code rejects, cannot be written in the model. Every other operator is one function applied row by row.
- CountDistinct.State.MergeGroups: what a read past the index gives is undefined, and the model stops there.
- CaseMapping.CaseConvertValue: the case table is a parameter, which must map scalar values to scalar values.
- HeavyHitters.HeavyHitters.Add: decrements the counters in any order, as the order of an unordered map is not known.
