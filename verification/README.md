# churro in Dafny

churro runs ETL pipelines on Kubernetes. A pipeline is one custom resource: extract sources, extract
rules, extensions, transform functions, an id and two sets of credentials. This project models the
four parts of churro that have state, branching or concurrency, and proves what they keep:

* **The editors** (`PipelineSpec`, `Handlers`, `PipelineRuns`, `ReadBack`, `SpliceDelete`,
  `JobSetup`). Each handler reads the resource, edits its copy in place and PUTs the whole object. The
  API server is a versioned cell, and any number of handlers and operator passes interleave, stop half way, lose
  replies or start from stale copies. Every run is equivalent to its committed requests one at a time.
* **The row engine** (`RowEngine`, `RowMeaning`, `CsvExtract`, `Transpose`, `SchemaWalk`,
  `SchemaLeaves`, `SheetNames`, `XmlRows`). Rules come out of a Go map, so each pass sees its own
  arbitrary order. A loaded row says the same thing for all of them, and where it does not, the exact
  condition is proved.
* **File dispatch** (`Inotify`, `FileQueue`, `Routing`). Packed kernel events, a channel whose only
  receiver also sends, and two lookups between a file and the rules that read it.
* **The operator and the counters** (`Reconcile`, `DatabaseInit`, `InitOnce`, `Counters`).
  Create-what-is-missing under failures, a run-once init behind a marker, and read-modify-write
  counters.

A specification function that a method is proved against is in turn pinned by lemmas in the texts,
numbers and fields of the code itself (`ReadBack`, `RunOfOneRule`, `LoadedRowExactly`, `GroupTodo` and
their like), so that what a method does can be read off without it.

Code that changes state is modelled by classes, arrays and loops and proved against specification
functions; the theorems are about those functions and about runs of step systems. Go's failures are
modelled, not excluded: an index out of range or a failed type assertion is an outcome (`Panicked`,
`safe == false`, `None`). Third-party code (XPath, JSONPath, regular expressions, `filepath.Clean`,
the Go interpreter) enters as arbitrary function parameters.

## What the proofs show about the code

Properties that one might expect and that the code does not have, each with its exact condition:

* The delete loop edits the slice it scans. It is a filter if and only if no two neighbours match
  (`ScanIsKeep`); a run of k matches loses only every other one (`RunLeavesHalf`).
* An extension update can be acknowledged exactly when at most one extension bears the id
  (`UpdateIsAcknowledgedExactly`); with more, its first write is committed and a failure reported
  (`RepeatedIdCommitsAndFails`).
* Transforms depend on the map order exactly when two effective rules write one cell through two
  functions (`RunIsOrderFree`, `IncompatibleRulesDependOnOrder`). They panic exactly when a
  transformed column holds something other than text (`RunFinishesExactly`). A rule whose column is
  missing writes column 0. An XML rule whose path does not compile is such a rule, so XML rows are
  right exactly when no rule that transforms lost its column (`XmlRowIsRightExactly`).
* The JSONPath row count depends on the map order exactly when columns differ in height
  (`JsonHeightIsOrderFree`); XML columns do when some but not all paths compile
  (`XmlRulesAreOrderFree`); API names and values drift apart unless bad paths come last
  (`ApiRowsAreAligned`); JSON posts are aligned exactly when a second map iteration repeats the
  first (`JsonPostAlignment`, `JsonPostIsRightExactly`).
* A consumer that throttles on the unbuffered channel waits for itself for ever (`StuckForever`);
  from every other state with work it can go on (`UnstuckCanAttempt`).
* The job limit counts running pods only. An attempt is made only below it, or behind a list that
  failed (`AttemptsAreThrottled`), but pods that are still starting are not seen, so for every limit any number of jobs can come to run
  (`StartingPodsAreNotCounted`); it is kept exactly as long as nobody adds a job to a full house, API
  sources included (`LimitIsKeptExactly`). And on the unbuffered channel the first entry that meets a
  full house ends the queue for good (`FullHouseEndsTheQueue`).
* A file's rules can come from another source than the watched one (`JobUsesWatchedSource`).
* Without `CHURRO_PULL_SECRET_NAME` the secrets group never creates anything
  (`NoPullSecretNoSecrets`).
* The marker guards one init per create, not one per marker: once a deletion fell between a create
  and its exec, and only then, init can run twice under one marker (`OrderlyMeansNoStaleHolder`,
  `OnceExactlyWithoutStaleHolder`, `DeletionLetsInitRunTwice`). A marker without any creator left
  blocks the init for as long as it stays (`OrphanedMarkerBlocksInit`, `CreatorCanInit`).
* A stale operator copy can replace committed credentials (`StaleCopyReplacesCreds`), exactly when it
  disagrees with the live resource on whether there are any (`CredsAreWriteOnceExactly`).
* Concurrent counter updates can be lost, all but one of them (`UpdatesCanBeLost`), exactly when a
  job stores upon another value than it read (`ExactWhenStoresAreCurrent`).

## Model

| member | source | states |
|---|---|---|
| SpliceDelete.Slice.RemoveAt | internal/ctl/extractsource.go:191 | the append idiom removes element i by shifting the tail inside the same backing array |
| SpliceDelete.Slice.DeleteMatching | internal/ctl/extractsource.go:187-193 | the loop, run in place, leaves exactly what the recursive "drop a match, keep its successor unexamined" scan leaves |
| SpliceDelete.ScanIsKeep | internal/ctl/extractsource.go:187-193 | the loop is an order-preserving filter if and only if no two neighbouring elements match |
| SpliceDelete.UniqueHitIsKeep | internal/ctl/extractrule.go:150-155 | a list with at most one match is filtered truly |
| SpliceDelete.NoInnocentLoss | internal/ctl/extension.go:121-126 | whatever duplicates there are, no element that does not match is lost or reordered |
| SpliceDelete.RunLeavesHalf | internal/ctl/extension.go:121-126 | a maximal run of k matches met by the scan keeps exactly its 2nd, 4th, ... elements, and the scan goes on behind it undisturbed |
| PipelineSpec.OverwritesCount | internal/ctl/extension.go:173-183 | an update loop plans one PUT per match |
| PipelineSpec.OverwritesFirst | internal/ctl/extractsource.go:417-437 | the first planned PUT carries the list with only its first match edited |
| PipelineSpec.PlanIsApply | internal/ctl/extractsource.go:359-446 | on a sound resource a handler's first write is the request's sequential meaning, and without a write the request means nothing |
| PipelineSpec.KeepUnique | internal/ctl/extractsource.go:187-193 | filtering keeps keys distinct |
| PipelineSpec.PathOfUnique | internal/ctl/extractsource.go:390-395 | with distinct ids the last-match lookup finds the one source's own path |
| PipelineSpec.UpdateSourceKeepsPaths | internal/ctl/extractsource.go:397-430 | the availability test keeps source paths distinct across an update |
| PipelineSpec.ApplyKeepsInv | internal/ctl/extractsource.go:105-145 | every request with a new xid keeps ids and source paths distinct and the two credential sets of one generation |
| PipelineSpec.ApplyIds | internal/ctl/extractrule.go:95-110 | no request brings in an xid but its own, and a set pipeline id never changes |
| ReadBack.ValidSourceExactly | internal/ctl/extractsource.go:49-89 | the required fields of a new source, scheme by scheme |
| ReadBack.ValidRulePathExactly | internal/ctl/extractrule.go:332-350 | which paths a rule may have, scheme by scheme; other schemes accept every path |
| ReadBack.CreateSourceExactly | internal/ctl/extractsource.go:105-145 | a valid source whose path nobody has is appended as it is, and otherwise the request is rejected |
| ReadBack.CreateRuleExactly | internal/ctl/extractrule.go:34-110 | a complete rule whose path the scheme of the last source with its id accepts is appended as it is |
| ReadBack.CreateOthersExactly | internal/ctl/extension.go:29-80 | complete extensions and functions are appended as they are |
| ReadBack.UpdateSourceReadsBack | internal/ctl/extractsource.go:384-437 | the one object sent holds every field of the request at the addressed source, its multiline flag and all else being as before; unless another source has the path |
| ReadBack.UpdateMissingSource | internal/ctl/extractsource.go:384-437 | an update that addresses nobody writes nothing, behind the checks of the path and of the empty list |
| ReadBack.UpdateRuleReadsBack | internal/ctl/extractrule.go:195-229 | the addressed rule has the fields of the request, but its own type and owner |
| ReadBack.UpdateFunctionReadsBack | internal/ctl/transform.go:152-163 | the addressed function is the request |
| ReadBack.UpdateExtensionReadsBack | internal/ctl/extension.go:163-183 | the first object sent has the request at the first extension with the id, the last one at all of them; owners stay |
| ReadBack.DeleteReadsBack | internal/ctl/extractsource.go:181-205 | of sources, rules and functions the addressed one goes and all others stay in order |
| ReadBack.DeleteOfNobody | internal/ctl/extractrule.go:145-163 | a delete that addresses nobody writes the object back as it was, unless the list is empty |
| ReadBack.DeleteExtensionScans | internal/ctl/extension.go:115-134 | extensions are what the scan leaves of them |
| ReadBack.OperatorWrites | internal/operator/id.go:23-46 | the operator writes an id where there is none, and both credential sets of one generation |
| Handlers.PathIsFree | internal/ctl/extractsource.go:390-411 | the two break-less scans answer whether the path is unchanged or not taken |
| Handlers.FollowsExactly | internal/ctl/extension.go:173-185 | what following a plan means on the connection: nothing is sent for a rejected request, the one object of a plan of one is sent and success is its acceptance, of a longer plan all or the part up to the first refusal is sent |
| Handlers.FindScheme | internal/ctl/extractrule.go:81-93 | the rule is validated against the scheme of the last source with the id |
| Handlers.OverwriteSources | internal/ctl/extractsource.go:417-437 | the update loop sends the planned objects in order and stops at the first refusal; which objects these are says ReadBack.UpdateSourceReadsBack |
| Handlers.OverwriteRules | internal/ctl/extractrule.go:217-229 | the same for rules, whose type and owner stay as they were |
| Handlers.CreateExtractSource | internal/ctl/extractsource.go:37-156 | field checks, path check, append and PUT follow the plan; success only for an accepted write |
| Handlers.UpdateExtractSource | internal/ctl/extractsource.go:359-446 | path check before the emptiness check, then the overwrite loop, follow the plan; ReadBack.UpdateSourceReadsBack and UpdateMissingSource say field by field what that plan is |
| Handlers.DeleteExtractSource | internal/ctl/extractsource.go:159-212 | the delete, run on the object's own slice, follows the plan |
| Handlers.CreateExtractRule | internal/ctl/extractrule.go:34-120 | required fields, scheme lookup and path validation decide whether the rule is appended and sent |
| Handlers.UpdateExtractRule | internal/ctl/extractrule.go:167-232 | path validation against the scheme of the request's source, then the overwrite loop, follow the plan |
| Handlers.DeleteExtractRule | internal/ctl/extractrule.go:123-164 | the delete handler follows the plan |
| Handlers.CreateExtension | internal/ctl/extension.go:27-91 | the extension is appended under the caller's own id, duplicates included |
| Handlers.UpdateExtension | internal/ctl/extension.go:138-186 | one PUT per extension with the id, stopping at the first refusal |
| Handlers.DeleteExtension | internal/ctl/extension.go:94-135 | the delete handler follows the plan, with the scan's own meaning on duplicates |
| Handlers.CreateTransformFunction | internal/ctl/transform.go:30-115 | name and source are required, then the function is appended and sent |
| Handlers.UpdateTransformFunction | internal/ctl/transform.go:118-166 | one PUT per function with the id, stopping at the first refusal |
| Handlers.DeleteTransformFunction | internal/ctl/transform.go:208-250 | the delete handler follows the plan |
| Handlers.ProcessId | internal/operator/id.go:21-53 | writes the handed copy back with a new id only when the copy has none |
| Handlers.ProcessCreds | internal/operator/creds.go:59-131 | nothing is sent when the handed copy has credentials; otherwise both sets, of one generation, go onto a live read |
| PipelineRuns.CommitWritesApply | pkg/pipeline.go:149-159 | the version check makes a committed object the request applied to the resource as it is now, on the handler's first PUT |
| PipelineRuns.NextKeepsInv | pkg/pipeline.go:122-159 | every step of every handler keeps the run invariant |
| PipelineRuns.EditorsSerialize | internal/ctl/extractsource.go:105-145 | in every interleaving each committed version is the first one with the committed requests applied one at a time in commit order; versions are never rewritten; no request commits twice |
| PipelineRuns.CommitsAreWritten | internal/ctl/extractsource.go:105-145 | in every run each committed version is the first object of the plan that its request has for the version before |
| PipelineRuns.CommittedSourceUpdateReadsBack | internal/ctl/extractsource.go:384-437 | in every run the version a committed source update wrote holds the request, field by field, at the source with its id, and is the version before in everything else |
| PipelineRuns.UndisturbedRequestCommits | pkg/pipeline.go:122-159 | a request with one write to make is committed and acknowledged when nobody comes between |
| PipelineRuns.EveryVersionIsSound | internal/ctl/extractsource.go:384-437 | every reachable version has distinct source, rule and function ids, distinct source paths and one credential generation |
| PipelineRuns.PipelineIdIsWriteOnce | internal/operator/id.go:23-46 | once a version has a pipeline id all later ones have the same, stale copies included |
| PipelineRuns.ReportsAreHonest | internal/ctl/extension.go:173-185 | success means that the whole plan, which is then one write at most, was committed; failure means at most one commit; the log holds exactly the commits |
| PipelineRuns.UpdateExtensionPlansOneWritePerMatch | internal/ctl/extension.go:173-183 | an update plans as many writes as extensions bear the id |
| PipelineRuns.UpdateIsAcknowledgedExactly | internal/ctl/extension.go:173-185 | in some future, whatever the others do in it, an update is acknowledged if and only if at most one extension of the resource it reads bears the id |
| PipelineRuns.RepeatedIdCommitsAndFails | internal/ctl/extension.go:173-183 | from every resource with repeated ids there is a run in which the update's first write is committed, its sequential meaning and all, and a failure is reported |
| PipelineRuns.CredsAreWriteOnceExactly | internal/operator/creds.go:61-122 | in every run no committed credentials are ever replaced if and only if every committed pass was handed a copy that agreed with the live resource on whether it has any |
| PipelineRuns.FreshCopiesMakeCredsWriteOnce | internal/operator/creds.go:61-122 | in particular when each committed pass was handed the version it wrote upon |
| PipelineRuns.StaleCopyReplacesCreds | internal/operator/creds.go:61-122 | there is a run in which a pass with a stale copy replaces the committed pair |
| JobSetup.Project | internal/extract/server.go:136-164 | the projection loop maps each id to the last of the source's elements that bears it, and no other id to anything |
| JobSetup.NothingIsLost | internal/extract/server.go:152-164 | the map holds exactly the source's elements if and only if their ids are distinct |
| JobSetup.JobGetsItsRules | internal/extract/server.go:136-151 | on every sound version a job gets all rules of its source, each once |
| Decimal.AtoiOfItoa | internal/extract/server.go:262-268 | parsing undoes printing for every 64-bit integer |
| Decimal.AtoiOfDigits | internal/extract/csv.go:159 | digits are a number up to the end of the 64-bit range, alone or behind one sign |
| Decimal.AtoiOfNoDigits | internal/extract/csv.go:159-163 | no other text is a number |
| Decimal.ValueOfDigits | internal/extract/csv.go:159 | which number: ten times the front and the last digit, zeros in front for nothing |
| Decimal.DigitsAreShort | internal/extract/server.go:268 | the printed text has no zeros in front |
| RowEngine.LookUp | internal/transform/transform-functions.go:88-95 | the first function of the name, and none only if there is none |
| RowEngine.FindColumn | internal/transform/transform-functions.go:32-39 | the last matching column, 0 if there is none, and a panic at a matching cell that is not text |
| RowEngine.RunRules | internal/transform/transform-functions.go:23-77 | the in-place loop computes the specified row and outcome, leaving the row as it is at the first failure |
| RowEngine.RunOfOneRule | internal/transform/transform-functions.go:26-74 | one rule on any row, case by case: no name or "None", a column without text, an unknown function, one that does not evaluate, one that is no string function, a column that is not there, and the rewritten cell |
| RowEngine.RunOfMoreRules | internal/transform/transform-functions.go:26-77 | rules run one behind the other, and the first that does not finish ends the run |
| RowEngine.RunFinishesExactly | internal/transform/transform-functions.go:32-74 | on any row of JSON values a run finishes if and only if every rule that transforms has its function and finds text in every cell of its column and in its target; with all names resolved it panics otherwise |
| RowEngine.RunIsRewriteAll | internal/transform/transform-functions.go:23-77 | with all names resolved and text in the transformed columns, whatever the others hold, a run is a plain sequence of cell rewrites |
| RowEngine.RunStopsAt | internal/transform/transform-functions.go:32-74 | every run on every row ends at the first rule that cannot be applied, with the rules before it done and none behind it, and with an error or a panic as the code's order of checks decides |
| RowEngine.PermutationsAgree | internal/transform/transform-functions.go:26 | compatible rules rewrite a row alike in every order |
| RowEngine.RunIsOrderFree | internal/transform/transform-functions.go:23-77 | if rules that write one cell name one function, every map order ends alike on any row, and in one and the same row when it finishes |
| RowEngine.IncompatibleRulesDependOnOrder | internal/transform/transform-functions.go:23-77 | otherwise, on every row with text in the transformed columns, there are function bodies and two orders of the same rules that give different rows |
| RowEngine.UntouchedCell | internal/transform/transform-functions.go:26-29 | a cell that is no effective rule's target keeps its value; with repeated column names only the last one is a target |
| RowEngine.RunMeaning | internal/transform/transform-functions.go:23-77 | with distinct columns, present for every rule that transforms, a finished run leaves in each cell the transform of its text by the effective rule that targets it, and every other cell as it was, text or not |
| RowMeaning.PermutationKeepsKeys | internal/extract/server.go:308-316 | distinct keys stay distinct in any iteration order |
| RowMeaning.AlignedRowMeans | internal/extract/server.go:304-332 | for any arrangement of the columns, any JSON values and any other order of the transforms, the run finishes if and only if the rules that transform find text, and then every rule's column holds that rule's transform of its raw cell, or the raw cell itself, its type at the same index |
| RowMeaning.RowMeansOnce | internal/extract/server.go:304-332 | under given names that meaning fixes the row |
| CsvExtract.ColumnOrderIsUnique | internal/extract/csv.go:170-177 | with distinct path texts the sorted column order depends neither on the map nor on the sort |
| CsvExtract.SortedColumnsAscend | internal/extract/csv.go:170-177 | the columns ascend by path read as text, so that field 10 comes before field 2 |
| CsvExtract.LessExactly | internal/extract/csv.go:172-174 | a text comes before its continuations, and otherwise the first difference decides |
| CsvExtract.GetCsvRow | internal/extract/csv.go:153-168 | cell i is the record's field at column i's number, nil for a path that is no number, a panic for a number outside the record |
| CsvExtract.Loader.BuildInsert | internal/db/cockroachdb/extract.go:101-125 | the statement panics exactly when some row has a cell without a type, or a text column's cell is no string |
| CsvExtract.Loader.ProcessCsv | internal/extract/loader.go:51-79 | that panic comes before any effect; a failed insert skips the statistics; a failed statistics update leaves the rows in the table |
| CsvExtract.LoadedRowExactly | internal/extract/csv.go:107-139 | what a record comes to, case by case; in particular a transform that fails ends the transforms but not the row, which is loaded as it is then |
| CsvExtract.ExtractRecord | internal/extract/csv.go:99-139 | one record becomes one transformed row, one insert and one count; or a panic of the row builder, a transform or the insert, which changes nothing |
| CsvExtract.ExtractCsv | internal/extract/csv.go:84-142 | for N records and skip k the loader is handed the rows of records k, k+1, ... once each and in order, max(0, N - max(0, k)) of them unless a record panics, which ends the job there; with all acknowledgements the table gains exactly these rows and the counter their number |
| CsvExtract.InsertPanicsExactly | internal/db/cockroachdb/extract.go:109-125 | a row that means what its rules say panics in the insert if and only if some rule of a text type has a raw cell without text |
| CsvExtract.CsvRowMeaning | internal/extract/csv.go:49-52 | for every map order, every second map order and every tie order of the sort, a record loads if and only if each rule's path is a field of it, or is no number and no string is wanted there, and panics otherwise; a row that loads maps each column name to its rule's transform of the field its path names, types aligned |
| CsvExtract.RecordIsOrderFree | internal/extract/csv.go:99-139 | a record loads in all orders of columns and transforms or panics in all |
| CsvExtract.FileIsOrderFree | internal/extract/csv.go:49-142 | two extractions of one file, each with its own map order and sort ties for the columns and its own map orders for the transforms, load the same name-to-cell maps; with distinct paths the same columns and rows |
| CsvExtract.AcknowledgedRowsAreLoaded | internal/extract/loader.go:61-74 | when all inserts and counts are acknowledged the table gains every row in order and the counter their number |
| CsvExtract.CountedRowsAreInTable | internal/extract/loader.go:61-78 | under any failures no more rows are counted than inserted |
| CsvExtract.InsertedRows | internal/extract/loader.go:61-66 | the table gains the acknowledged rows, no other, in the order in which they were sent |
| CsvExtract.HandleCsv | internal/handlers/uploadscheme.go:196-226 | the header gives one TEXT rule per position, with the header's name and the position in decimal as its path |
| CsvExtract.HeaderRoundTrip | internal/handlers/uploadscheme.go:215-224 | the inferred rules pass the path check and load each same-width record under the header's own names, cell by cell, although "10" sorts before "2" |
| Transpose.BuildRows | internal/extract/xml.go:180-188 | the nested loops transpose; they are in bounds exactly when no column is shorter than the row count |
| Transpose.GetXmlRules | internal/extract/xml.go:145-158 | the rules before the first path that does not compile, and all of them if there is none |
| Transpose.XmlRulesAreOrderFree | internal/extract/xml.go:147-155 | which rules survive is independent of the map order if and only if all paths compile or none does |
| Transpose.XmlFormat | internal/extract/xml.go:160-191 | names, TEXT types and the transposed columns, with the first column's height |
| XmlRows.XmlRowIsRightExactly | internal/extract/xml.go:94-100 | RunRules is handed the rules without a column too, and they write column 0: an XML row means what its columns' rules say, for all data and functions, if and only if no rule that transforms lost its column |
| Transpose.JsonFormat | internal/extract/jsonpath.go:80-123 | columns and rows with the last column's height; a path that does not parse ends the job |
| Transpose.ApiFormat | internal/extract/api.go:104-148 | names of all rules, but rows only of the rules whose paths parse, as many as the last of these has values |
| Transpose.ApiRowsAreAligned | internal/extract/api.go:111-127 | values stand under their own names for every message if and only if all bad paths come last |
| Transpose.ApiAlignmentIsOrderFree | internal/extract/api.go:104-127 | they do so in every iteration order if and only if all paths parse or none does |
| Transpose.TransposeBack | internal/extract/jsonpath.go:109-123 | transposing a non-empty rectangular table back restores the columns |
| Transpose.TransposedOnce | internal/extract/api.go:129-137 | columns and a row count have one transposition, so the three builders agree wherever they are in bounds |
| Transpose.RowsMeanTheSame | internal/extract/jsonpath.go:80-123 | on equally high columns of any JSON values all three builders give rows of the same meaning in every order, and the transforms panic exactly when one does not find text |
| Transpose.JsonHeightIsOrderFree | internal/extract/jsonpath.go:97 | the number of rows is independent of the map order if and only if all columns are equally high |
| Transpose.XmlHeightIsOrderFree | internal/extract/xml.go:173-174 | the same condition for the number of XML rows, which the first column gives |
| Transpose.RowFromJson | internal/extract/httppost.go:307-349 | a message or path that does not parse is an error; then a path that selects nothing panics; otherwise the first values in the order of a new map iteration |
| Transpose.RowFromForm | internal/extract/httppost.go:352-380 | first form values in the stored column order; a panic exactly when a field is missing |
| Transpose.JsonPostAlignment | internal/extract/httppost.go:318-335 | names and values agree for every message if and only if the two iterations agree path by path |
| Transpose.SamePathsIsSameOrder | internal/extract/httppost.go:90-99 | with distinct paths that is: if and only if the order repeats |
| Transpose.JsonPostIsRightExactly | internal/extract/httppost.go:318-344 | transforms included, a post says what its rules say, for every message and all functions, if and only if the second iteration repeats the first path by path |
| Transpose.FormPostMeaning | internal/extract/httppost.go:352-380 | a form row means the same in every order without such a condition |
| SchemaWalk.GetRulesFromJsonSchema | internal/handlers/uploadscheme.go:258-307 | for every property order the walk emits exactly the multiset of name, type and path of the schema's scalar types |
| SchemaWalk.PropertiesAdd | internal/handlers/uploadscheme.go:262 | the rules of a schema are those of its properties, each on its own |
| SchemaWalk.TypesAdd | internal/handlers/uploadscheme.go:265 | the rules of a property are those of its types, each on its own |
| SchemaWalk.OneTypeGives | internal/handlers/uploadscheme.go:266-303 | a scalar type gives one rule with the property's name, type and path; an object the rules of its properties; an array those of its items, one schema after the other |
| SchemaWalk.EmittedLeavesAreReached | internal/handlers/uploadscheme.go:288-302 | without arrays a rule is emitted if and only if its path spells a walk to a property of its name and type |
| SchemaLeaves.RulesAreWalks | internal/handlers/uploadscheme.go:262-304 | for every schema, arrays included, the emitted rules correspond one to one, multiplicity included, to the walks from the root down to a scalar type |
| SchemaWalk.PathLeadsBack | internal/handlers/uploadscheme.go:291-299 | with keys free of dots, splitting an emitted path leads from the root to that very property |
| SheetNames.GenColumnNames | internal/extract/xlsx.go:164-187 | name i is the prefix of block i/24, the character 64 + i/24 while that is one, followed by 65 + i%24 in decimal, 32-bit runes and unprintable prefixes included |
| SheetNames.NamesAreDistinct | internal/extract/xlsx.go:164-187 | the names are pairwise distinct if and only if there are at most 24 * 55233 of them |
| Inotify.DecodeOfEncode | internal/extractsource/server.go:617-660 | decoding is a left inverse of the kernel's packing: every record, in order, to the last byte |
| Inotify.EncodedLayout | internal/extractsource/server.go:618-621 | the packing that is decoded is the kernel's, byte by byte: four little-endian words, the name, its NULs |
| Inotify.ArrivalBits | internal/extractsource/server.go:622-659 | which mask bits make an arrival, which mark a directory, and what path is queued |
| Inotify.ArrivalsInOrder | internal/extractsource/server.go:617-659 | one entry for each wanted event and no other, each behind as many as were wanted before it |
| Inotify.Dispatch | internal/extractsource/server.go:638-659 | create and delete bits shadow close-write and moved-to; only matches are sent |
| Inotify.HandleRead | internal/extractsource/server.go:617-661 | for any whole records read, the entries sent are exactly the in-order filter of matching arrivals; the loop stays in bounds and terminates; a bad regex ends the watcher at its first event |
| FileQueue.AttemptsFollowEvents | internal/extractsource/server.go:487-515 | on the unbuffered channel accepted is attempted plus at most one held entry, and each watcher's files are attempted in event order |
| FileQueue.RequeueConserves | internal/extractsource/server.go:503-507 | with any buffer, accepted entries are attempted, buffered or held, counted with multiplicity |
| FileQueue.StuckForever | internal/extractsource/server.go:503-507 | a consumer that sends into a full channel never attempts or accepts anything again |
| FileQueue.HeldEntryIsDecided | internal/extractsource/server.go:494-514 | a held entry is attempted exactly if fewer pods run than allowed, a failed list reading as 0, and sent back otherwise |
| FileQueue.AttemptsAreThrottled | internal/extractsource/server.go:496-510 | in every run an entry is attempted only while fewer pods run than allowed, or behind a failed list |
| FileQueue.FullHouseEndsTheQueue | internal/extractsource/server.go:503-507 | on the unbuffered channel the first entry met by as many running pods as allowed is the last one: nothing is attempted any more, however many jobs end |
| FileQueue.LimitIsKeptExactly | internal/extractsource/server.go:503-534 | the jobs never exceed the limit if and only if nobody adds one while there are as many; with complete counts the queue never does |
| FileQueue.StartingPodsAreNotCounted | internal/extractsource/server.go:526-531 | for every positive limit and every n there is a run without any failure in which n jobs run |
| FileQueue.UnstuckCanAttempt | internal/extractsource/server.go:494-514 | from every other state with work an attempt is at most three steps away while fewer pods run than allowed |
| FileQueue.NoJobsAllowedNothingAttempted | internal/extractsource/server.go:503 | with a job limit of 0 or less nothing is ever attempted |
| Routing.GetTable | internal/extractsource/server.go:98-107 | the first source in list order with the scheme whose path is a substring of the directory |
| Routing.SchemesExactly | internal/extractsource/server.go:98-147 | which sources are watched, which schemes have jobs, and that fitting means scheme and substring |
| Routing.CreateExtractPodForNewFile | internal/extractsource/server.go:391-428 | the first watched source with that path decides the scheme and ends the search, also when its dispatch fails; the job has that scheme and the file, and the name and table of the first source that fits |
| Routing.DirOfFile | internal/extractsource/server.go:99 | the directory of a queued file is the cleaned watched directory |
| Routing.FileFindsItsSource | internal/extractsource/server.go:391-427 | a file in a clean watched directory always finds a table; it is the watched source's if and only if no earlier source of its scheme has a path inside that directory's |
| Routing.SourceOfJob | internal/extract/server.go:120-136 | the job takes the last source of the name it was given |
| Routing.JobUsesWatchedSource | internal/extract/server.go:118-136 | the job's rules are the watched source's if and only if the first source of the list that would take its files bears its name and no source behind it does |
| Routing.UniqueNamesRouteRight | internal/extractsource/server.go:401-417 | with unique names table and rules are both the watched source's if and only if no earlier source of its scheme has a path within its own |
| Reconcile.ScanChildren | internal/operator/rbac.go:40-47 | a flag stays up exactly for the expected names that are not listed |
| Reconcile.GroupTodo | internal/operator/service.go:63-213 | the names a group sets out to create, in order, for every list |
| Reconcile.SecretsTodoExactly | internal/operator/secret.go:90-145 | the same for the secrets, the pull secret last, and when the list can be built |
| Reconcile.ProcessGroup | internal/operator/service.go:28-228 | a role, binding, account or service group is list, missing names, ordered creates to the first error |
| Reconcile.ScanSecrets | internal/operator/secret.go:66-88 | the pull secret's case comes last, so a reserved name never clears its flag |
| Reconcile.ProcessSecrets | internal/operator/secret.go:34-159 | the whole list is built before the first create; missing node or service credentials or an unreadable pull secret end the group |
| Reconcile.CreateAllShape | internal/operator/rbac.go:116-125 | the loop creates everything before the first blocked name and nothing else |
| Reconcile.GroupPassIsSafe | internal/operator/service.go:216-227 | no pass removes anything or leaves its group; on a complete group it creates nothing, however stale its list |
| Reconcile.CleanPassCompletes | internal/operator/rbac.go:26-128 | from any state an undisturbed pass completes its group if and only if nobody else holds an expected name, and reports exactly that |
| Reconcile.SecretsPassIsSafe | internal/operator/secret.go:90-158 | the same safety for secrets, and a missing input stops the group before its first create |
| Reconcile.CleanSecretsPassCompletes | internal/operator/secret.go:64-158 | an undisturbed pass ends with all secrets if and only if each missing one can be built and no name is held by somebody else |
| Reconcile.PassIsSafe | internal/operator/ns.go:54-98 | a pass over all groups removes nothing, takes over nothing foreign, and changes nothing on a complete cluster |
| Reconcile.CompleteClusterOwns | internal/operator/rbac.go:26-128 | the fourteen objects of a complete cluster, by kind and name |
| Reconcile.UndisturbedPassCompletes | internal/operator/ns.go:54-98 | one undisturbed pass with its inputs there and the names free creates all fourteen |
| Reconcile.NoPullSecretNoSecrets | internal/operator/secret.go:75-145 | without a pull secret name no number of passes ever creates any secret |
| Reconcile.CleanGroupCompletes | internal/operator/ns.go:67-98 | a pass undisturbed in one group completes that group whatever happens in the others |
| Reconcile.RepeatedPassesConverge | internal/operator/ns.go:54-98 | from any cluster state, with failures and stale lists in any group of any pass, each group with free names and inputs is complete as soon as one pass more was run than were disturbed in this group, and no object is ever removed |
| DatabaseInit.InitRunsAtMostOncePerCreate | internal/operator/statefulset.go:148-193 | over all runs with crashes, stale reads, lost replies, deletions and concurrent reconcilers, init runs at most once per successful create of the marker |
| InitOnce.OrderlyRunsInitOnce | internal/operator/statefulset.go:148-193 | if no deletion falls between a create and its exec, init runs at most once while any one marker stands |
| InitOnce.OrderlyMeansNoStaleHolder | internal/operator/statefulset.go:169-187 | that is so if and only if at no time a creator is left over from an ended lifetime of the marker |
| InitOnce.OnceExactlyWithoutStaleHolder | internal/operator/statefulset.go:148-193 | no orderly future of a state has two inits while one marker stands, nor even in one lifetime, if and only if the state has no such creator |
| InitOnce.DeletionLetsInitRunTwice | internal/operator/statefulset.go:169-187 | there is a run in which a deletion overtakes a creator and init runs twice, both times with one and the same later marker in place |
| InitOnce.MarkersOfOthersAreOrphaned | internal/operator/secret.go:126-142 | a marker created by somebody else, or whose creator got an error, has nobody to init for it if and only if no creator is left over from before |
| InitOnce.OrphanedMarkerBlocksInit | internal/operator/statefulset.go:148-157 | while such an orphaned marker stays nobody initialises the database |
| InitOnce.CreatorCanInit | internal/operator/statefulset.go:169-187 | while some creator is left an init is one step away |
| DatabaseInit.Cluster.InitStatefulSet | internal/operator/statefulset.go:83-219 | every behaviour of the reconciler, others interfering between its steps, is a run of the step system, in which it executes the command exactly as often as it creates the marker: once if the create is let through, which only a marker of somebody else prevents, and else never; it reports success if and only if nothing it had to do failed |
| Counters.BumpTextAddsOne | internal/extract/server.go:262-268 | bumping the text of n gives the text of n + 1 |
| Counters.BumpMetric | internal/extract/server.go:250-282 | every reading before the first that stops the loop is bumped and written to all rows of its name, and no other; with one row a name and all rows read, the count that was n is n + 1, the last file is the file, and every other row is as it was |
| Counters.BumpWrites | internal/extract/server.go:260-282 | row by row, for any rows and readings: one more than the last count read under the name, the file's name, or the row as it was |
| Counters.UniqueRowsBumpTheirOwn | internal/db/cockroachdb/db.go:150 | the table has no key: with one row a name each kept metric is bumped from its own value; in any case all rows of a kept name end alike |
| Counters.CounterNeverRunsAhead | internal/db/cockroachdb/db.go:197-225 | under any interleaving and failures the counter stays between its start and its start plus the rows inserted |
| Counters.BumpsAreBounded | internal/extract/server.go:260-273 | after N completed bumps, N at least 1, the count lies between start + 1 and start + N |
| Counters.ExactWhenStoresAreCurrent | internal/db/cockroachdb/db.go:203-220 | no update is lost up to any moment if and only if every store until then replaced the very value its job had read |
| Counters.SerialJobsAreExact | internal/db/cockroachdb/db.go:197-225 | in particular serial jobs lose nothing, and without failures the counter ends at its start plus all rows inserted |
| Counters.UpdatesCanBeLost | internal/db/cockroachdb/db.go:203-220 | for every N there is a run in which N writes complete and the count rises by one |

## Left out

- The Kubernetes API server, SQL, gRPC, inotify and file I/O: replaced by contracts (a versioned cell with compare-and-swap on PUT, atomic create-if-absent, reads of whole records, answers of every call as arbitrary inputs).
- XPath, JSONPath, CSV, XLSX and regular expression engines, `filepath.Clean` and the Go interpreter: arbitrary function parameters; transform functions are taken as total and without side effects.
- `sort.Slice`: any permutation in which nothing precedes a smaller path, which is all an unstable sort promises.
- xid.New and the key generator: assumed never to hand out an id or a key twice; the first version of a resource is assumed to have distinct ids and paths.
- PipelineRuns.UpdateIsAcknowledgedExactly: every accepted PUT is taken to make a new version; an API server that keeps the version on a PUT that changes nothing would let an update of two equal ids go on past a first edit without effect.
- PipelineRuns.EditorsSerialize: deletion of the whole resource and edits by other clients such as kubectl are not steps.
- Handlers.CreateExtractSource: JSON decoding, the connection steps before the read and the call to the extractsource service after the write are not modelled; a failure there can only turn a committed request into a failure report, which PipelineRuns covers as a lost reply.
- Handlers.DeleteExtractSource: deleting the source's running pods after the commit is not modelled.
- Handlers.CreateTransformFunction: the database connection it opens and does not use is not modelled.
- SchemaWalk.GetRulesFromJsonSchema: schemas with reference cycles are excluded, on which the walk does not terminate.
- RowEngine.RunRules: JSON numbers, booleans, lists and objects are one kind of cell, since the engine tells strings only; the JSON encoding of a row on its way to the loader is not modelled.
- Transpose.XmlFormat: its rules are those GetXmlRules keeps, so every path has a value column.
- CsvExtract.ExtractCsv: the records are those the reader yields before the end or its first error; the table check, extract log and extensions around the loop are not modelled, and one counter per file name is assumed.
- Counters.BumpMetric: the second loop, over the pipeline-wide metrics, repeats the first with one metric fewer and is not modelled.
- Counters.CounterNeverRunsAhead: stated up to the 64-bit limit, behind which the sum wraps.
- Inotify.HandleRead: the read call and the printing between the cases are not modelled.
- FileQueue.AttemptsFollowEvents: a pod creation that fails counts as an attempt, because the entry is dropped either way.
- Reconcile.RepeatedPassesConverge: a pull secret named like one of the three fixed secrets is excluded; then its flag is never cleared and every pass over the group ends in an error.
- Reconcile.ProcessGroup: the contents of roles, services and secrets are not modelled, only their names.
- Persistent volume claims, disruption budgets, the stateful set itself and the deployments: they would add groups of the same form.
- ExtractXML's and ExtractXLS's record loops and the XML, XLSX, JSONPath and HTTP-post loaders: the CSV loop and loader again, over rows that BuildRows or the sheet provides.
- processAPI's running record count, the metric seeding, GetExtractSource's join, the SQL text builders and xsdWalk: easy members beside the ones above.
- Certificate generation, HTML handlers, login, access levels, chunked upload, harvester and retry loops: no property of the kind stated here.
- genColumnNames is not called anywhere in the repository; its closed form is proved all the same.
