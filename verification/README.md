# StoRM Tape: the stage-request state machine

StoRM Tape keeps recall requests for files on tape. A *stage* names logical paths; each of its
files moves from submitted over started to a final state (cancelled, failed or completed). The
service learns about the files from the storage (size, stub, recall attribute, migration
attribute) and hands the files that need a recall to the tape system.

This project models the service and its database as a state machine and proves what holds over
every call, every interleaving of calls and every run.

- `Paths`, `PathLists`, `Sorting`: paths as names made of bytes, the two orders of paths (name by
  name in C++, by text in the database), sort, unique and set difference.
- `Files`, `StageRequests`: file states, stage timestamps and their refresh.
- `Storage`: the three storage answers, the cached view of one path, localities.
- `Tables`, `Database`: the two tables as values, what each statement makes of them, and the
  database class that changes them in place.
- `Invariants`, `World`: the invariant of the database, the events of the machine (calls of the
  service and changes of its environment) and the proof that each keeps the invariant.
- `Partitions`, `Service`: the in-place partitions of take over and the service class. Each
  method is proved to be one step of the machine.
- `StatusLaws`, `InProgressLaws`, `TakeOverLaws`, `CancelLaws`, `StageLaws`, `Runs`: the main
  results.
- `Resolver`, `Configuration`: storage areas, longest-prefix resolution and acceptance by the loader.

## Assumptions

- The clock is positive and never goes back. Clock readings are parameters of the calls.
- The storage answers the same within one call, except for the recall attributes that take over
  creates. Between calls the storage may change in any way (`Environment`).
- A stage request names at least one path, a take over asks for at least one file, and every
  storage area has at least one access point and an absolute root: the code reads `front()`,
  `back()` and a dereferenced maximum without a guard.
- Parsed requests are default files, one per path, so a request is the list of its paths.
- Requested logical paths are well formed, as parsing a path text always makes them: no separator
  inside a name, and an empty name only at the end.
- Choices the program leaves open stay open here: which ready paths a limited query selects, in
  which order incomplete stages are visited, in which order areas are reduced, and how sorting
  by state orders files of equal state.

## Results worth knowing

- Cancel and release look for foreign paths by a set difference of a list sorted as paths and a
  list sorted as text. The check reports exactly the foreign and repeated paths for every request
  if and only if no two logical paths of the stage clash (`CancelLaws.CheckExactIffNoClash`); in
  a stage with `/a-b` and `/a/b` the second file cannot be cancelled
  (`CancelLaws.ClashRefusesMember`). For any stage, the accepted paths are exactly those that no
  earlier file of the stage exceeds (`PathLists.DifferenceIsMinusRecords`). The standard leaves
  the set difference of an unsorted list undefined; the model takes the usual merge walk.
- A storage failure mostly reads as "no", so a file whose size cannot be read is usually declared
  completed (`StatusLaws.UnreadableCompletes`). Two stages disagree about a path, so that the order
  of their status calls matters to its unfinished rows, exactly when its recall attribute cannot be
  read, it does not look like a stub, and one stage has started it while the other has not; then one
  order completes the rows and the other fails them (`StatusLaws.VerdictsDisagree`). Over all
  incomplete stages the first visited stage that moves a path decides for every stage
  (`InProgressLaws.FirstStageDecides`, `InProgressLaws.OrdersDisagree`).
- If the recall attribute cannot be created, or is not created because of mirror mode, a status
  call that follows at once declares the handed-out file failed (`TakeOverLaws.StatusAfterHandOut`).
- The comment in `src/stage_request.cpp:7-11` describes the completion time as the maximum
  finishing time. The code computes it once, so it is not always that: a stage whose only file fails
  at time 1 and is cancelled at time 2 keeps the completion time 1 (`Runs.OvertakenRun`). In every
  run it falls behind the maximum exactly when a later cancel of the completed stage, since which
  the stage was not erased, went through for some file (`Runs.CompletionOvertaken`). The comments in
  `src/tape_service.cpp:484-491` say that the start of a file already on disk may keep its default;
  the update writes it.

## Model

| member | source | states |
|---|---|---|
| Paths.PathTotal | src/tape_service.cpp:297 | the name-wise order by which paths are sorted is total and antisymmetric |
| Paths.PathTrans | src/tape_service.cpp:297 | the name-wise order is transitive |
| Paths.NameLessAtDifference | src/sql_queries.hpp:65-67 | byte strings are ordered by their first different byte, a prefix first |
| Paths.NamesLessAtDifference | src/tape_service.cpp:297 | paths of one kind are ordered by their first different name, a prefix first |
| Paths.NormalIsFixedPoint | src/storage_area_resolver.cpp:42-44 | an absolute path passes the check for normal form iff it equals its normalisation, which drops "." and lets ".." take the name before with it |
| Paths.OrderBridge | src/sql_queries.hpp:65-67 | byte order of texts and name-wise order agree on a pair of distinct paths iff the pair does not clash; distinct paths have distinct texts |
| Paths.HighBytesNeverClash | src/sql_queries.hpp:65-67 | absolute paths whose bytes are all above the separator never clash |
| Paths.DashClashes | src/sql_queries.hpp:65-67 | "/a-b" and "/a/b" are ordered differently as text and as paths |
| Sorting.Sort | src/tape_service.cpp:269-272 | some sorted permutation, with nothing said about equivalent elements |
| Sorting.NeighboursSuffice | src/configuration.cpp:228-252 | in a sorted list without equivalent neighbours all elements are strictly increasing |
| PathLists.SortPaths | src/tape_service.cpp:297 | the requested paths sorted, as a permutation |
| PathLists.UniqueSorted | src/tape_service.cpp:570-575 | sort and unique leave each path once, strictly increasing, and lose none |
| PathLists.StrictlySortedUnique | src/tape_service.cpp:570-575 | the de-duplicated list is determined by the set of paths |
| PathLists.DifferenceIsMinusRecords | src/tape_service.cpp:299-304 | for a sorted request the walk reports the multiset difference from those files that no earlier file exceeds, whatever the order of the files |
| PathLists.DifferenceExactIffSorted | src/tape_service.cpp:299-304 | the walk is the multiset difference for every sorted request iff the files are sorted as paths |
| Files.MinStarted | src/stage_request.cpp:27-32 | attained by a file that began, and a lower bound of the starts of all files that began |
| Files.MaxFinished | src/stage_request.cpp:37-41 | attained by some file, and an upper bound of all finishing times |
| Files.RefreshedOfPermutation | src/stage_request.cpp:12-45 | the refreshed timestamps depend on the files, not on their order |
| StageRequests.StageRequest.UpdateTimestamps | src/stage_request.cpp:12-45 | under the asserted conditions, the start becomes the minimum start as soon as some file began, and the completion the maximum finish as soon as all files are final, unless already set; reports whether either was due |
| StageRequests.PartitionPoint | src/stage_request.cpp:22-25 | the binary search splits the files sorted by state at the bound |
| StageRequests.EarliestStart | src/stage_request.cpp:27-32 | the search from the partition point finds the minimum start |
| StageRequests.LatestFinish | src/stage_request.cpp:37-41 | the search finds the maximum finish |
| Storage.ExtendedFileStatus.IsInProgress | src/tape_service.cpp:115-132 | true iff the recall attribute is known to be set; a failure sets the error; the storage answers at most once, and never again once the answer is known |
| Storage.ExtendedFileStatus.IsStub | src/tape_service.cpp:133-150 | true iff the size is known and the file is a stub; a failure sets the error; the size is answered at most once for this and for the size query together |
| Storage.ExtendedFileStatus.FileSize | src/tape_service.cpp:151-168 | the known size, or zero with the error set; answered at most once |
| Storage.ExtendedFileStatus.IsOnTape | src/tape_service.cpp:169-186 | true iff the migration attribute is known to be set; a failure sets the error; answered at most once |
| Storage.ExtendedFileStatus.GetLocality | src/tape_service.cpp:187-208 | the locality that fits the three answers, each value by an iff; an earlier error sticks; exactly the facets not cut short are learnt, and the storage's log grows by each at most once |
| Storage.LocalityFits | src/tape_service.cpp:187-208 | each of the six localities exactly by the size, stub, recall and migration answers |
| Storage.LearntForLocality | src/tape_service.cpp:187-208 | which facets a first evaluation learns; a readable facet it skips could not have changed the locality |
| Storage.OnceEachComposes | src/tape_service.cpp:91-209 | answering each facet at most once composes over successive calls |
| Storage.LocalStorage.CreateRecallAttribute | src/extended_attributes.cpp:26-38 | sets the recall attribute of the path unless refused, and nothing else |
| Tables.BatchIsSimultaneous | src/database_soci.cpp:298-306 | a batch of mixed states with one target per physical path is one simultaneous guarded change, whatever the order and repetitions |
| Tables.UniformBatch | src/database_soci.cpp:287-296 | a batch with one state is the simultaneous change of the set of its paths |
| Tables.RetargetTwice | src/tape_service.cpp:479-520 | batches over disjoint sets of paths compose to one change |
| Tables.OverwriteBatch | src/database_soci.cpp:276-285 | the loop of updates by logical path overwrites exactly the named rows of the stage |
| Tables.ListedAreRows | src/database_soci.cpp:66-84 | the query lists exactly the files of the rows of the stage |
| Tables.FilesOfSorted | src/sql_queries.hpp:65-67 | the listed files are sorted by text and have distinct logical paths |
| Database.SociDatabase.Insert | src/database_soci.cpp:96-123 | succeeds iff no primary key is violated, then appends the stage and its files; otherwise changes nothing |
| Database.SociDatabase.Find | src/database_soci.cpp:125-147 | the timestamps and ordered files of the stage, or nothing |
| Database.SociDatabase.FindIncompleteStages | src/database_soci.cpp:149-172 | each stage without completion time once, in no particular order |
| Database.SociDatabase.UpdateLogical | src/database_soci.cpp:191-229 | the unguarded update of one row by stage and logical path |
| Database.SociDatabase.UpdatePath | src/database_soci.cpp:231-274 | the guarded update of all rows of one physical path |
| Database.SociDatabase.UpdateLogicals | src/database_soci.cpp:276-285 | the loop of unguarded updates |
| Database.SociDatabase.UpdatePaths | src/database_soci.cpp:287-296 | moves all rows of the given paths at once |
| Database.SociDatabase.UpdatePairs | src/database_soci.cpp:298-306 | the loop of guarded updates |
| Database.SociDatabase.Update | src/database_soci.cpp:320-330 | new timestamps for at most one stage, then the batch of file states |
| Database.SociDatabase.CountFiles | src/database_soci.cpp:332-341 | the number of distinct physical paths in a state |
| Database.SociDatabase.GetFiles | src/database_soci.cpp:343-360 | distinct physical paths in the state, as many as allowed and available |
| Database.SociDatabase.Erase | src/database_soci.cpp:362-382 | reports whether the stage exists and removes exactly it and its rows |
| Invariants.RetargetEvolves | src/database_soci.cpp:231-274 | updates by physical path only move rows forward and keep one state per path and stage |
| Invariants.OverwriteEvolves | src/database_soci.cpp:205-215 | cancelling keeps the life cycle even on final rows |
| Invariants.InvEvolves | src/database_soci.cpp:191-274 | any evolution of rows keeps life cycle, timestamps and keys |
| Invariants.RefreshKeepsInv | src/tape_service.cpp:274-280 | refreshing the timestamps of one stage keeps the invariant |
| World.StepKeepsInvariant | src/tape_service.cpp:31-523 | every call and every change of the environment keeps the invariant: keys, rows belong to stages, logical paths are well formed, every stage has files, life cycle, one state per path and stage, exact stage timestamps |
| StatusLaws.WriteBackMatchesReport | src/tape_service.cpp:225-280 | written back by physical path, each file of the stage becomes what status assigned in memory |
| StatusLaws.ReportIsStored | src/tape_service.cpp:213-282 | the files found after status are the files status reports |
| StatusLaws.StatusBatch | src/tape_service.cpp:225-267 | the collected updates have one target per physical path, so their order is irrelevant |
| StatusLaws.StatusVerdict | src/tape_service.cpp:225-267 | from the answers of the storage alone: exactly when an unfinished file of the stage is started, completed, failed or still submitted after status, and with which times; final files stay |
| StatusLaws.EffectElsewhere | src/database_soci.cpp:231-274 | a row of any stage follows an unfinished row of the visited stage with the same path: to its final state, from submitted to started with it, or stays with it |
| StatusLaws.UntouchedElsewhere | src/database_soci.cpp:231-274 | final rows, and rows whose path no unfinished file of the visited stage has, stay as they are |
| StatusLaws.TimesAreWritten | src/stage_request.cpp:12-45 | after status the start is set iff some file began and the completion iff all files are final; the start is the minimum, a new completion the last finish, earlier values stay, other stages keep their times |
| StatusLaws.VerdictIsShared | src/tape_service.cpp:227-280 | a stage that finishes a file imposes the verdict on every unfinished row of the path in any stage |
| StatusLaws.TargetAfter | src/tape_service.cpp:225-280 | once a stage has moved a path, no stage moves it again on the same storage |
| StatusLaws.VerdictsDisagree | src/tape_service.cpp:213-282 | for any two stages and any row of the database, the two orders of status calls differ iff the row is not final, the recall attribute of its path is unreadable, the file is no stub, and one stage has started the path while the other has not; then they give completed and failed |
| StatusLaws.UnreadableCompletes | src/tape_service.cpp:231-258 | exactly when a file of unreadable size is declared completed |
| StatusLaws.StatusSettles | src/tape_service.cpp:227-267 | after status every unfinished file is started with a recall in progress or a submitted stub without one |
| StatusLaws.StatusIsIdempotent | src/tape_service.cpp:213-282 | on stable storage a second status, even later, changes nothing |
| InProgressLaws.VisitIsStatusCall | src/tape_service.cpp:585-592 | each visit of in_progress is a status step of the machine |
| InProgressLaws.RowAfterVisits | src/tape_service.cpp:537-592 | what any list of visits makes of any row, of a visited stage or another |
| InProgressLaws.StartedWhenVisited | src/tape_service.cpp:537-568 | the started files of a stage when visited are those it awaited at the beginning |
| InProgressLaws.NotFinalIsIncomplete | src/database_soci.cpp:164-169 | a stage with an unfinished file is among the incomplete stages |
| InProgressLaws.StartedAfterAllVisits | src/tape_service.cpp:579-597 | after all visits a row is started iff it was unfinished and its recall in progress |
| InProgressLaws.StartedPathsAreAwaited | src/tape_service.cpp:579-597 | the paths with a started row afterwards are the paths awaited before |
| InProgressLaws.VisitingOrderIsIrrelevant | src/tape_service.cpp:585-592 | any two orders of visits start the same rows |
| InProgressLaws.FirstStageDecides | src/tape_service.cpp:585-592 | over any list of visits, the first stage that moves a path decides the state of all its rows in all stages |
| InProgressLaws.OrdersDisagree | src/tape_service.cpp:585-592 | two orders of visits leave a row in different states iff it is not final and the deciding stages differ; they differ only between opposed stages on an undecided path, and always if the stages visited first are so |
| Partitions.Partition | src/tape_service.cpp:425-457 | splits a span of the array by the predicate, rearranging only that span |
| Partitions.PartitionNested | src/tape_service.cpp:467-469 | the nested partitions yield four consecutive spans of one rearranged array |
| Partitions.Classify | src/tape_service.cpp:464-469 | the four classes are a rearrangement of the selected paths, each path in the class of its answers |
| Service.TapeService.Stage | src/tape_service.cpp:31-65 | one Stage step on the strictly sorted set of requested paths, answering the files stored, or no change if the identifier exists |
| Service.TapeService.Status | src/tape_service.cpp:213-282 | one Status step; the reported files, up to order, and timestamps are those of the database afterwards |
| Service.TapeService.RefreshFile | src/tape_service.cpp:228-266 | the switch over cached queries gives the state justified by the answers, each state by an iff, and its times; each facet is answered at most once |
| Service.TapeService.RefreshFiles | src/tape_service.cpp:225-267 | the loop assigns every file and collects exactly the changes |
| Service.TapeService.WriteBack | src/tape_service.cpp:269-280 | sorts, refreshes and sends timestamps and changes |
| Service.TapeService.Cancel | src/tape_service.cpp:284-315 | one Cancel step; answers the requests beyond the recognised files |
| Service.TapeService.Release | src/tape_service.cpp:328-357 | the check of cancel without any change |
| Service.TapeService.Erase | src/tape_service.cpp:317-326 | one Erase step; reports whether the stage existed |
| Service.TapeService.ReadyTakeOver | src/tape_service.cpp:401-406 | the number of distinct ready paths |
| Service.TapeService.TakeOver | src/tape_service.cpp:459-523 | one TakeOver step for some selection; hands out exactly the selected paths that need a recall, once each |
| Service.TapeService.HandOver | src/tape_service.cpp:464-522 | the four batches and the attributes amount to one simultaneous change by class |
| Service.TapeService.PathsInProgress | src/tape_service.cpp:537-568 | the paths of the started files of the stage after its status |
| Service.TapeService.InProgress | src/tape_service.cpp:579-597 | a strictly sorted list of the paths with a started row afterwards, which are those awaited before |
| TakeOverLaws.ReadyAfterwards | src/tape_service.cpp:459-523 | the ready paths afterwards are the ready paths before without the selected ones |
| TakeOverLaws.ReadyCountDrops | src/tape_service.cpp:459-523 | the ready count drops by exactly the smaller of the limit and the count |
| TakeOverLaws.ClassByAnswers | src/tape_service.cpp:464-469 | each of the four classes exactly by the size, stub, recall and migration answers |
| TakeOverLaws.TakeOverByAnswers | src/tape_service.cpp:459-523 | from the answers alone: the state and times of every row after take over, exactly which paths are handed out, and the file system afterwards |
| TakeOverLaws.RowsMoveByClass | src/tape_service.cpp:479-520 | how each row of a selected path moves by class, including started rows; other rows stay |
| TakeOverLaws.StatusAfterHandOut | src/tape_service.cpp:501-520 | an immediate status on the own stage finds a handed-out file started if the attribute was created and failed otherwise |
| TakeOverLaws.HandedOutStaysStarted | src/tape_service.cpp:501-520 | with the attribute created, status on any stage leaves the handed-out file started |
| TakeOverLaws.InterruptedHandOver | src/tape_service.cpp:502-505 | stopping between attribute and database update loses nothing: status starts the file |
| CancelLaws.CheckExactIffNoClash | src/tape_service.cpp:293-308 | the walk of cancel and release reports exactly the foreign and repeated paths of every sorted request iff no two logical paths of the stage clash |
| CancelLaws.HighBytesCheckExactly | src/tape_service.cpp:293-308 | in particular when all names use bytes above the separator |
| CancelLaws.CancelEffect | src/tape_service.cpp:284-315 | cancel acts iff the request is duplicate free and recognised; then exactly the named files of the stage become cancelled, final ones too |
| CancelLaws.ClashRefusesMember | src/tape_service.cpp:299-308 | in any database where a stage has exactly the files "/a-b" and "/a/b", cancelling the second changes nothing and reports it as foreign |
| StageLaws.StageRoundTrip | src/tape_service.cpp:57-64 | the query finds a permutation of the inserted files and the same files as before for other stages |
| StageLaws.StagedRows | src/tape_service.cpp:43-64 | each requested path gets a row with the path it resolves to, submitted without times iff that is a regular file, else failed at its clock reading; the stage has its creation time only; nothing else changes |
| StageLaws.EraseUndoesStage | src/database_soci.cpp:362-382 | erasing a stage right after inserting it restores both tables |
| StageLaws.EraseRemovesExactly | src/database_soci.cpp:373-374 | erase removes the rows of its stage and of no other |
| Runs.RunKeepsInvariant | src/tape_service.cpp:31-523 | the invariant holds in every world of every run |
| Runs.RowHistory | src/database_soci.cpp:191-274 | while its stage is not erased a row keeps its paths, never moves away from a final state, keeps its start once written, never ends earlier |
| Runs.TimesInRun | src/stage_request.cpp:12-45 | in every run: start is the minimum start, completion means all files final, creation, start, completion and last finish are ordered |
| Runs.TimesHistory | src/stage_request.cpp:21-43 | stage timestamps are written at most once |
| Runs.CompletionOvertaken | src/stage_request.cpp:36-43 | in every run the completion time of a completed stage is below the last finish of its files iff a later cancel of the completed stage went through for some file, and the stage was not erased since |
| Runs.OvertakenRun | src/stage_request.cpp:36-43 | a run in which the last finish is 2 and the completion time 1 |
| Runs.OvertakingStep | src/database_soci.cpp:205-215 | one step makes or keeps a stage overtaken iff it was so before or the step is such a cancel |
| Runs.HandedOutTwice | src/tape_service.cpp:459-523 | between two hand-outs of a path a stage call made it ready anew and, if its attribute was created, the environment removed the attribute |
| Runs.TakeOverDrains | src/tape_service.cpp:459-523 | while nothing is staged, take-over calls leave at most the ready paths beyond the sum of their limits, and exactly those if only storage and clock change in between |
| Runs.DrainedAfter | src/tape_service.cpp:459-523 | calls for n paths each have drained the ready paths iff they are at least ready / n, rounded up |
| Resolver.BestAccessPoint | src/storage_area_resolver.cpp:58-62 | an access point of the area that no other one exceeds in match length |
| Resolver.EvaluateFindsLongest | src/storage_area_resolver.cpp:50-69 | any reduction finds a longest match of its areas, or none if there is none |
| Resolver.LongestIsUnique | src/configuration.cpp:243-255 | with distinct access points equal match lengths mean the same access point and area |
| Resolver.ResolveIndependentOfOrder | src/storage_area_resolver.cpp:48-69 | any order and grouping of the areas gives the same physical path |
| Resolver.ResolveIsLongestPrefix | src/storage_area_resolver.cpp:40-84 | empty iff the path is relative, not normal or unmatched; otherwise the root of the area of the longest matching access point followed by exactly the names of the path behind that access point |
| Configuration.LoadStorageAreas | src/configuration.cpp:182-270 | accepts iff there is an area, names differ ignoring case, access points differ over all areas and are absolute; the result is a permutation sorted by name; otherwise the first failing check is reported |
| Configuration.NamesBySorting | src/configuration.cpp:228-241 | comparing neighbours of the sorted areas decides whether all names differ |
| Configuration.FoldIgnoresCase | src/configuration.cpp:228-241 | names have the same folded form iff they agree letter by letter ignoring case |
| Configuration.NameOrderAtDifference | src/configuration.cpp:195-200 | areas are ordered by the first letter in which their names differ ignoring case, a prefix first |
| Configuration.PathsBySorting | src/configuration.cpp:243-255 | comparing neighbours of the sorted access points decides whether all differ |
| Configuration.DistinctFlat | src/configuration.cpp:204-226 | distinctness over areas and positions is distinctness of the flat list |
| Configuration.AcceptedIsValid | src/configuration.cpp:182-270 | accepted areas satisfy what the resolver relies on |

## Left out

- HTTP routes, JSON, URL and header parsing, responses, access log, profiler.
- SQL text, sessions and database failures: statements are operations on the two tables, transactions are atomic.
- The stat and extended-attribute system calls: a map from paths to answers stands for the file system.
- The update overloads by stage and logical path without a time, and of a single stage row on its own: the service does not call the first and calls the second only through `Update`.
- `archive_info`, which only reads the storage: for each requested path the locality modelled here, or why the path is no regular file.
- `in_progress` with a file limit, which changes nothing: a selection of the started paths as modelled for take over, filtered on request by recall attribute.
- The configuration of host, port, log level and mirror mode, YAML decoding and the permission probe on roots.
- The locality column: it is never read back.
- Paths as text: parsing a text into names is not modelled; relative paths are refused before their normal form would matter.
- Sorting.Sort: the library's sort is modelled by its contract, not by its algorithm.
