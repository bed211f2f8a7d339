# edu-sims-server: the case-authoring engine in Dafny

This project models the part of the edu-sims server that writes, rewrites, reads back and
validates a medical case. A case is an ordered list of typed steps: Introduction,
Examination, Diagnosis, Treatment and Summary, with `module_type_identifier` 0 to 4 in
that order. The model covers six parts.

- **Step persistence** (`StepTables`, `AnswerTables`, `DatabaseUtils`).
  - Every storage table is held as an id-to-row map inside one `Tables` value. The five
    payload tables share one map whose rows are tagged with their table.
  - `insertSteps` and `updateSteps` are functions from the tables before a call to the
    tables after it. A "Resource not found" throw is an `ok == false` outcome that keeps
    the writes made before it.
  - The class `DatabaseUtils.Database` holds the same tables as fields. Its methods
    perform the writes one row at a time and are proved to end in the state those
    functions describe.
- **Case read and attempt ranking** (`CaseUtils`).
  - `sortAttempts` is three loops over a JavaScript `Map`, modelled by `OrderedMaps.Dict`.
  - The two to-display expanders share one pair of nested loops.
  - `fetchStepData` rewrites an array of step views in place.
  - Each of them is proved against a function, and the properties are proved about those
    functions.
- **Validators** (`SchemaChecks`, `CaseValidator`, `UserValidator`).
  - Each Zod schema is a function listing the issues it reports, in the order Zod reports
    them.
  - Each `validate*` succeeds exactly when a predicate stating the schema's rules holds,
    and reports errors that name the schema's own fields.
  - userValidator.js imports `handleZodErrors` from `../utils/index.js`, which is not
    part of this model. The model assumes that import is the `handleZodErrors` of
    validationUtils.js (`ValidationUtils.HandleZodErrors`).
- **Error shaping** (`ValidationUtils`): the mapping from issues to `{module?, path, message}`
  records, and their rendering as text.
- **Case lifecycle rules** (`CaseRouter`): the state rules of the create, soft-delete and
  publish handlers, as functions and as methods over the `Database` object.

`updateSteps` dispatches on the descriptor's own `module_type_identifier`. When it falls
back to inserting, the new step row records `stepData.module_type_identifier` instead.
The model keeps both identifiers.
- `StepTables.UpdateFallbackIsInsert` shows that the fallback is an insert when the two
  identifiers agree.
- `StepTables.UpdateFallbackMismatch` shows that, when they disagree, the step row names
  a table that does not hold its payload.
- Step rows and payloads stay consistent under the assumption that the identifiers agree,
  which the editor front end is expected to guarantee.

## Model

| member | source | states |
|---|---|---|
| CaseTypes.ModuleTypeOf | src/utils/databaseUtils.js:9-30 | an identifier selects a step kind exactly when it is in 0..4 |
| CaseTypes.IdentifierRoundTrip | src/utils/databaseUtils.js:9-30 | identifiers 0..4 and the five step kinds correspond one to one |
| OrderedMaps.Set | src/utils/caseUtils.js:16-19 | `map.set` replaces the value of a present key in place and appends a new key at the end of the key order |
| OrderedMaps.Delete | src/utils/caseUtils.js:25 | `map.delete` removes the key from the values and from the key order, keeping the other keys in order |
| AnswerTables.InsertValues | src/utils/databaseUtils.js:68-78 | the Examination answer loop of the insert path; it draws exactly one new id per answer |
| AnswerTables.InsertTreatmentAnswers | src/utils/databaseUtils.js:124-133 | the Treatment answer loop of the insert path; it draws exactly one new id per answer |
| AnswerTables.InsertValuesAdds | src/utils/databaseUtils.js:68-78 | creating Examination answers adds exactly one row per answer under new ids and keeps every existing row |
| AnswerTables.InsertValuesKeeps | src/utils/databaseUtils.js:68-78 | the answer loop leaves every pre-existing value row unchanged |
| AnswerTables.InsertValuesRows | src/utils/databaseUtils.js:68-78 | the j-th created row holds the j-th answer's examination id, value and is_normal, under consecutive ids |
| AnswerTables.InsertValuesOwned | src/utils/databaseUtils.js:71 | every created value row lies in the consumed id range and is owned by the Examination row |
| AnswerTables.InsertTreatmentAnswersAdds | src/utils/databaseUtils.js:124-133 | creating Treatment answers adds exactly one row per answer under new ids and keeps every existing row |
| AnswerTables.InsertTreatmentAnswersKeeps | src/utils/databaseUtils.js:124-133 | the answer loop leaves every pre-existing answer row unchanged |
| AnswerTables.InsertTreatmentAnswersRows | src/utils/databaseUtils.js:124-133 | the j-th created row holds the j-th answer's treatment id and value, under consecutive ids |
| AnswerTables.InsertTreatmentAnswersOwned | src/utils/databaseUtils.js:127 | every created answer row lies in the consumed id range and is owned by the Treatment row |
| AnswerTables.UpdateValue | src/utils/databaseUtils.js:316-344 | one Examination answer on update throws exactly when it carries an id naming no value row; only an answer without id draws a new id, and under that id it creates a value row holding the answer, owned by the Examination row; no row disappears |
| AnswerTables.UpdateValues | src/utils/databaseUtils.js:315-346 | the Examination answer loop of the update path: no row disappears, at most one new id per answer, and when it finishes every id an answer names exists |
| AnswerTables.UpdateValuesExtends | src/utils/databaseUtils.js:315-346 | the update loop never deletes a value row and changes existing rows only in `value` and `is_normal`, also when it throws |
| AnswerTables.UpdateValuesOk | src/utils/databaseUtils.js:317-326 | the loop finishes exactly when every answer id names an existing value row |
| AnswerTables.UpdateValuesKeeps | src/utils/databaseUtils.js:315-346 | a value row that no answer names keeps its content |
| AnswerTables.UpdateValuesWrites | src/utils/databaseUtils.js:328-334 | after a finished loop, a row named by an answer that no later answer names again (an id below the counter) holds that answer's value and is_normal, the rest of the row unchanged; with duplicate ids the last answer wins |
| AnswerTables.UpdateValuesOwned | src/utils/databaseUtils.js:336-344 | every value row the loop creates is owned by the Examination row |
| AnswerTables.UpdateValuesNewIds | src/utils/databaseUtils.js:315-346 | a finished loop draws exactly one id per answer without id, and the new value rows are exactly those under the ids drawn |
| AnswerTables.UpdateValuesNewRows | src/utils/databaseUtils.js:336-344 | after a finished loop, the answer at position j without id is a value row holding that answer, owned by the Examination row, under the old counter plus the number of id-less answers before j |
| AnswerTables.UpdateValuesCreates | src/utils/databaseUtils.js:315-346 | a finished loop creates one value row per answer without id, holding that answer in answer order, and no other row |
| AnswerTables.UpdateTreatmentAnswer | src/utils/databaseUtils.js:441-467 | one Treatment answer on update throws exactly when it carries an id naming no answer row; only an answer without id draws a new id, and under that id it creates an answer row holding the answer, owned by the Treatment row; no row disappears |
| AnswerTables.UpdateTreatmentAnswers | src/utils/databaseUtils.js:440-469 | the Treatment answer loop of the update path: no row disappears, at most one new id per answer, and when it finishes every id an answer names exists |
| AnswerTables.UpdateTreatmentAnswersExtends | src/utils/databaseUtils.js:440-469 | the update loop never deletes an answer row and changes existing rows only in `value`, also when it throws |
| AnswerTables.UpdateTreatmentAnswersOk | src/utils/databaseUtils.js:442-451 | the loop finishes exactly when every answer id names an existing answer row |
| AnswerTables.UpdateTreatmentAnswersKeeps | src/utils/databaseUtils.js:440-469 | an answer row that no answer names keeps its content |
| AnswerTables.UpdateTreatmentAnswersWrites | src/utils/databaseUtils.js:453-458 | after a finished loop, a row named by an answer that no later answer names again (an id below the counter) holds that answer's value, the rest of the row unchanged; with duplicate ids the last answer wins |
| AnswerTables.UpdateTreatmentAnswersOwned | src/utils/databaseUtils.js:460-467 | every answer row the loop creates is owned by the Treatment row |
| AnswerTables.UpdateTreatmentAnswersNewIds | src/utils/databaseUtils.js:440-469 | a finished loop draws exactly one id per answer without id, and the new answer rows are exactly those under the ids drawn |
| AnswerTables.UpdateTreatmentAnswersNewRows | src/utils/databaseUtils.js:460-467 | after a finished loop, the answer at position j without id is an answer row holding that answer, owned by the Treatment row, under the old counter plus the number of id-less answers before j |
| AnswerTables.UpdateTreatmentAnswersCreates | src/utils/databaseUtils.js:440-469 | a finished loop creates one answer row per answer without id, holding that answer in answer order, and no other row |
| StepTables.InsertNested | src/utils/databaseUtils.js:68-78 | the nested answers of an insert change only the answer table of their own kind and the id counter |
| StepTables.InsertAs | src/utils/databaseUtils.js:34-165 | `insert<Kind>Step`: cases untouched, exactly the new payload row added to the payload tables, at least two ids drawn (payload and step) |
| StepTables.InsertStep | src/utils/databaseUtils.js:9-30 | the dispatch of the `insertSteps` loop writes something exactly when the identifier is one of the five; cases untouched |
| StepTables.InsertStepsFrom | src/utils/databaseUtils.js:4-32 | `insertSteps`: cases untouched, and at least two ids drawn per recognised descriptor |
| StepTables.InsertNestedAdds | src/utils/databaseUtils.js:68-78 | the nested answers touch only their own table and the id counter, and only add rows |
| StepTables.InsertAsAdds | src/utils/databaseUtils.js:34-54 | an insert of any kind adds exactly one payload row of its kind and one step row (case, index, identifier, payload id), and changes no existing row |
| StepTables.InsertExaminationTable | src/utils/databaseUtils.js:56-78 | the value rows after an Examination insert are what the answer loop makes of them, with ids after the payload row's |
| StepTables.InsertExaminationCount | src/utils/databaseUtils.js:68-78 | an Examination insert adds exactly one value row per element of `step_specific_values` |
| StepTables.InsertExaminationValues | src/utils/databaseUtils.js:68-78 | the created value rows are the answers in order, under consecutive ids right after the payload row's |
| StepTables.InsertExaminationOwned | src/utils/databaseUtils.js:71 | every created value row has `examination_step_id` equal to the new payload id |
| StepTables.InsertTreatmentTable | src/utils/databaseUtils.js:113-133 | the answer rows after a Treatment insert are what the answer loop makes of them, with ids after the payload row's |
| StepTables.InsertTreatmentCount | src/utils/databaseUtils.js:124-133 | a Treatment insert adds exactly one answer row per element of `step_specific_treatments` |
| StepTables.InsertTreatmentAnswerRows | src/utils/databaseUtils.js:124-133 | the created answer rows are the answers in order, under consecutive ids right after the payload row's |
| StepTables.InsertTreatmentOwned | src/utils/databaseUtils.js:127 | every created answer row has `treatment_step_id` equal to the new payload id |
| StepTables.InsertOtherNoAnswers | src/utils/databaseUtils.js:91-111 | Introduction, Diagnosis and Summary inserts create no answer rows |
| StepTables.InsertStepGrows | src/utils/databaseUtils.js:9-30 | one pass of the insert loop keeps ids fresh and only adds rows; an unknown identifier writes nothing |
| StepTables.InsertAsConsistent | src/utils/databaseUtils.js:80-88 | an insert keeps every step row pointing at an existing payload row of its kind |
| StepTables.InsertStepsGrows | src/utils/databaseUtils.js:4-32 | `insertSteps` only adds rows, keeps ids fresh, and adds exactly one step row per descriptor with identifier in 0..4 |
| StepTables.InsertStepsRows | src/utils/databaseUtils.js:5-30 | every new step row has `case_id = caseId`, index i for the descriptor at position i, that descriptor's identifier, and a payload holding its data |
| StepTables.InsertStepsCovers | src/utils/databaseUtils.js:5-30 | every recognised descriptor at position j gets a new step row with index j, so skipped descriptors leave gaps in the indices |
| StepTables.InsertStepsConsistent | src/utils/databaseUtils.js:4-32 | `insertSteps` keeps every step row pointing at a payload row of its kind |
| StepTables.UpdateNested | src/utils/databaseUtils.js:315-346 | the nested answers of an update change only the answer tables and the id counter; Introduction, Diagnosis and Summary have none (the rows created are stated by `UpdateExaminationCreates` and `UpdateTreatmentCreates`) |
| StepTables.UpdateAs | src/utils/databaseUtils.js:233-525 | `update<Kind>Step`: cases untouched; without `moduleTableId` it never throws; with it, it creates no step or payload row |
| StepTables.UpdateStep | src/utils/databaseUtils.js:173-229 | the dispatch of the `updateSteps` loop: an unknown identifier does nothing, and only a descriptor with `moduleTableId` can throw |
| StepTables.UpdateStepsFrom | src/utils/databaseUtils.js:167-231 | `updateSteps`: cases untouched, and a throw implies some descriptor carried a `moduleTableId` |
| StepTables.UpdateNestedExtends | src/utils/databaseUtils.js:315-346 | the nested update loops touch only their answer table and the counter, and delete no row |
| StepTables.UpdateAsNotFound | src/utils/databaseUtils.js:241-256 | with a `moduleTableId` whose payload row or step row is missing, an update throws before writing anything |
| StepTables.UpdateAsExtends | src/utils/databaseUtils.js:287-357 | an update changes existing rows only as allowed (step index, payload content of the same kind, answer values), whether it finishes or throws |
| StepTables.UpdateFoundExtends | src/utils/databaseUtils.js:287-353 | the found branch of an update keeps the payload's kind and only extends the tables |
| StepTables.UpdateAsPayload | src/utils/databaseUtils.js:304-313 | with both rows found, exactly the named payload row is overwritten with the descriptor's fields |
| StepTables.UpdateAsIndex | src/utils/databaseUtils.js:348-353 | a finished update sets only the named step row's index (case, payload id and type unchanged); a throw in the answer loop leaves step rows alone |
| StepTables.UpdateAsOk | src/utils/databaseUtils.js:315-346 | with both rows found, an update fails exactly when an answer id names no existing row |
| StepTables.UpdateExaminationCreates | src/utils/databaseUtils.js:315-346 | a finished Examination update creates one value row per answer without id, holding that answer and owned by the payload row, and no other; treatment answers are untouched |
| StepTables.UpdateTreatmentCreates | src/utils/databaseUtils.js:440-469 | a finished Treatment update creates one answer row per answer without id, holding that answer and owned by the payload row, and no other; value rows are untouched |
| StepTables.UpdateFallbackIsInsert | src/utils/databaseUtils.js:354-356 | without `moduleTableId`, one pass of `updateSteps` is one pass of `insertSteps` with the same index and case |
| StepTables.UpdateFallbackMismatch | src/utils/databaseUtils.js:169-173 | when the two identifiers of a new descriptor disagree, the fallback leaves an inconsistent step row |
| StepTables.UpdateStepConsistent | src/utils/databaseUtils.js:173-229 | one pass of the update loop keeps step rows consistent when the identifiers agree |
| StepTables.UpdateStepExtends | src/utils/databaseUtils.js:173-229 | one pass of the update loop keeps ids fresh and only extends the tables |
| StepTables.UpdateStepsExtends | src/utils/databaseUtils.js:167-231 | `updateSteps` deletes no row and leaves cases untouched, also when it throws part-way |
| StepTables.UpdateStepsConsistent | src/utils/databaseUtils.js:167-231 | `updateSteps` keeps step rows consistent when every descriptor's identifiers agree |
| DatabaseUtils.Database.CreatePayload | src/utils/databaseUtils.js:35-43 | a payload row is created under the next id, and nothing else changes |
| DatabaseUtils.Database.CreateStep | src/utils/databaseUtils.js:45-53 | a step row is created under the next id, and nothing else changes |
| DatabaseUtils.Database.CreateValues | src/utils/databaseUtils.js:68-78 | the loop leaves the value rows the answer-loop function describes |
| DatabaseUtils.Database.CreateTreatmentAnswers | src/utils/databaseUtils.js:124-133 | the loop leaves the answer rows the answer-loop function describes |
| DatabaseUtils.Database.InsertIntroductionStep | src/utils/databaseUtils.js:34-54 | the new state is the Introduction insert of the step function |
| DatabaseUtils.Database.InsertExaminationStep | src/utils/databaseUtils.js:56-89 | the new state is the Examination insert of the step function |
| DatabaseUtils.Database.InsertDiagnosisStep | src/utils/databaseUtils.js:91-111 | the new state is the Diagnosis insert of the step function |
| DatabaseUtils.Database.InsertTreatmentStep | src/utils/databaseUtils.js:113-144 | the new state is the Treatment insert of the step function |
| DatabaseUtils.Database.InsertSummaryStep | src/utils/databaseUtils.js:146-165 | the new state is the Summary insert of the step function |
| DatabaseUtils.Database.InsertSteps | src/utils/databaseUtils.js:4-32 | the loop ends in the state of `insertSteps`' function, so every insert lemma holds; ids stay fresh |
| DatabaseUtils.Database.UpdateValueRows | src/utils/databaseUtils.js:315-346 | the loop ends in the state and outcome of the Examination answer-update function |
| DatabaseUtils.Database.UpdateTreatmentAnswerRows | src/utils/databaseUtils.js:440-469 | the loop ends in the state and outcome of the Treatment answer-update function |
| DatabaseUtils.Database.SetIndex | src/utils/databaseUtils.js:268-273 | only the named step row's index changes |
| DatabaseUtils.Database.SetPayload | src/utils/databaseUtils.js:258-266 | only the named payload row changes |
| DatabaseUtils.Database.UpdateIntroductionStep | src/utils/databaseUtils.js:233-277 | state and outcome are the Introduction update of the step function |
| DatabaseUtils.Database.UpdateExaminationStep | src/utils/databaseUtils.js:279-357 | state and outcome are the Examination update of the step function |
| DatabaseUtils.Database.UpdateDiagnosisStep | src/utils/databaseUtils.js:359-403 | state and outcome are the Diagnosis update of the step function |
| DatabaseUtils.Database.UpdateTreatmentStep | src/utils/databaseUtils.js:405-480 | state and outcome are the Treatment update of the step function |
| DatabaseUtils.Database.UpdateSummaryStep | src/utils/databaseUtils.js:482-525 | state and outcome are the Summary update of the step function |
| DatabaseUtils.Database.UpdateSteps | src/utils/databaseUtils.js:167-231 | the loop ends in the state and outcome of `updateSteps`' function, stopping at the first throw; ids stay fresh and existing rows change only as allowed |
| CaseUtils.Latest | src/utils/caseUtils.js:11-21 | the attempt kept for a case is an input attempt of that case |
| CaseUtils.SortedAttempts | src/utils/caseUtils.js:8-31 | the result of `sortAttempts` holds only input attempts, none of them finished |
| CaseUtils.LatestIndex | src/utils/caseUtils.js:11-21 | the kept attempt of a case is an attempt of that case |
| CaseUtils.CaseOrder | src/utils/caseUtils.js:11-21 | the map's keys are distinct, and a case is a key exactly when it has an attempt |
| CaseUtils.UnfinishedKeys | src/utils/caseUtils.js:23-27 | a key survives the delete loop exactly when its kept attempt is unfinished; distinctness is kept |
| CaseUtils.LatestOf | src/utils/caseUtils.js:29 | the result lists, per key in order, the kept attempt of that case |
| CaseUtils.CollectLatest | src/utils/caseUtils.js:11-21 | the first loop builds a map whose keys are the cases in first-appearance order, each mapped to its kept attempt |
| CaseUtils.DeleteFinished | src/utils/caseUtils.js:23-27 | the second loop deletes exactly the cases whose kept attempt is finished, keeping the rest in order |
| CaseUtils.ValuesInOrder | src/utils/caseUtils.js:29 | `Array.from(map)` lists the kept attempts in key order |
| CaseUtils.SortAttempts | src/utils/caseUtils.js:8-31 | `sortAttempts` returns the kept unfinished attempt of each case, in first-appearance order |
| CaseUtils.LatestIsMaximal | src/utils/caseUtils.js:12-19 | the kept attempt of a case started no earlier than any attempt of that case |
| CaseUtils.LatestIsFirstOfLatest | src/utils/caseUtils.js:15 | ties keep the first attempt seen: earlier attempts of the case started strictly earlier |
| CaseUtils.SortedAttemptsEntries | src/utils/caseUtils.js:11-29 | each result entry is an input attempt, is the kept attempt of its case, and is unfinished |
| CaseUtils.SortedAttemptsDistinct | src/utils/caseUtils.js:9-29 | the result holds at most one entry per case |
| CaseUtils.SortedAttemptsComplete | src/utils/caseUtils.js:23-27 | a case appears in the result exactly when its kept attempt is unfinished; an earlier unfinished attempt does not bring it back |
| CaseUtils.CaseOrderByFirstAppearance | src/utils/caseUtils.js:11-21 | the map's keys are in the order in which their cases first appear |
| CaseUtils.UnfinishedKeysByFirstAppearance | src/utils/caseUtils.js:23-27 | deleting keys keeps the others in first-appearance order |
| CaseUtils.SortedAttemptsOrder | src/utils/caseUtils.js:11-29 | the result is ordered by the first appearance of each case among the attempts |
| CaseUtils.FindById | src/utils/caseUtils.js:98 | a row that `find` returns is in the table and has the sought id |
| CaseUtils.FindByIdNone | src/utils/caseUtils.js:98-100 | `find` fails exactly when no row has the id |
| Common.Filter | src/utils/caseUtils.js:110-112 | `filter` keeps exactly the accepted elements and is never longer than its input |
| Common.FilterAppend | src/utils/caseUtils.js:110-112 | `filter` keeps order: it distributes over concatenation |
| Common.FilterCount | src/utils/caseUtils.js:110-112 | an accepted element occurs in the result as often as in the input, any other element never |
| CaseUtils.ItemsOf | src/utils/caseUtils.js:110-112 | the filter keeps exactly the catalogue items of the subtype, in catalogue order and multiplicity, and is never longer than the catalogue |
| CaseUtils.SubtypesOf | src/utils/caseUtils.js:103-114 | the inner loop builds a well-formed subtypes object |
| CaseUtils.DisplayOf | src/utils/caseUtils.js:92-120 | the outer loop builds a well-formed display object |
| CaseUtils.ExpandToDisplay | src/utils/caseUtils.js:91-121 | both expanders, including the treatment one at 149-179, compute the display object their loops describe |
| CaseUtils.SubtypesOfKeys | src/utils/caseUtils.js:104-114 | a subtype name is a key exactly when some listed id is found under that name; stale subtype ids are dropped |
| CaseUtils.SubtypesOfItems | src/utils/caseUtils.js:107-112 | under a subtype name lie exactly the catalogue items of the last id found under that name |
| CaseUtils.SubtypesOfEmpty | src/utils/caseUtils.js:100-116 | a found type maps to an empty object exactly when all its subtype ids are stale |
| CaseUtils.DisplayOfKeys | src/utils/caseUtils.js:97-118 | a type name is a key exactly when some entry's type id is found under that name; stale type ids are dropped |
| CaseUtils.DisplayOfSubtypes | src/utils/caseUtils.js:97-118 | under a type name lies the subtypes object of the last entry found under that name |
| CaseUtils.DiagnosesOf | src/utils/caseUtils.js:130-132 | the diagnosis list keeps exactly the entries of the case's medical field, in table order and multiplicity, and is never longer than the list |
| CaseUtils.DisplayedContentOf | src/utils/caseUtils.js:77-89 | the Examination or Treatment reader fails exactly when its payload row is missing; otherwise it returns that row with its to-display object expanded against the catalogue |
| CaseUtils.ContentOf | src/utils/caseUtils.js:36-62 | reading a step fails exactly for an Examination, Diagnosis or Treatment step whose payload row is missing; otherwise the data is the payload row, with the expanded to-display object for Examination and Treatment and the field's diagnoses for Diagnosis; Introduction and Summary attach a missing row as null |
| CaseUtils.Fetched | src/utils/caseUtils.js:34-63 | a visited step keeps its row; an unknown type is left unchanged; a known type gains as `stepData` its payload row, expanded as its reader expands it |
| CaseUtils.FetchDisplayedStep | src/utils/caseUtils.js:77-89 | the method returns the row with its display object expanded, as the reader function describes |
| CaseUtils.InsertThenFetch | src/utils/caseUtils.js:33-66 | every step row created for a new case reads back without a throw, carrying the data of the descriptor it was made for, expanded as its reader expands it |
| CaseUtils.FetchStepData | src/utils/caseUtils.js:33-66 | the array keeps its length and order; on success each step is its fetched form; after a throw, earlier steps are fetched and later ones unchanged |
| CaseUtils.DiagnosisEnriched | src/utils/caseUtils.js:123-135 | a Diagnosis step gains exactly the diagnoses of the case's medical field |
| CaseUtils.ConsistentStepsFetch | src/utils/caseUtils.js:33-66 | reading the steps of consistent tables never throws |
| ValidationUtils.ModuleLabel | src/utils/validators/validationUtils.js:3-9 | each step kind's label is read back as that kind |
| ValidationUtils.ModuleLabelsDistinct | src/utils/validators/validationUtils.js:3-9 | the five labels are pairwise distinct |
| ValidationUtils.ErrorsOf | src/utils/validators/validationUtils.js:13-16 | one error per issue, in order, holding the first path segment and the message |
| ValidationUtils.HandleZodErrors | src/utils/validators/validationUtils.js:11-25 | a validation error becomes a failed result with one untagged `{path, message}` per issue, in order; any other error is rethrown unchanged |
| ValidationUtils.HandleZodCaseErrors | src/utils/validators/validationUtils.js:27-42 | as above, with every entry tagged with the module label |
| ValidationUtils.ResultOf | src/utils/validators/caseValidator.js:120-130 | a validator succeeds with null errors exactly when the schema finds no issue; otherwise it returns one error per issue |
| ValidationUtils.ErrorsToString | src/utils/validators/validationUtils.js:44-46 | the messages, in order, with the input's length |
| ValidationUtils.MessagesOfIssues | src/utils/validators/validationUtils.js:44-46 | the messages of a failed result are the issues' messages, in order |
| ValidationUtils.ErrorWithPathToString | src/utils/validators/validationUtils.js:48-50 | the text is the literal prefix, the path (`undefined` when absent), ", Felmeddelande: " and the message |
| ValidationUtils.ErrorWithPathInjective | src/utils/validators/validationUtils.js:48-50 | two errors with the same path render alike exactly when their messages agree |
| SchemaChecks.MinLength | src/utils/validators/caseValidator.js:6 | `min(n)` reports an issue exactly when the string is shorter than n |
| SchemaChecks.MaxLength | src/utils/validators/userValidator.js:8 | `max(n)` reports an issue exactly when the string is longer than n |
| SchemaChecks.Excludes | src/utils/validators/caseValidator.js:19-21 | the refinement reports an issue exactly when the placeholder occurs as a substring |
| SchemaChecks.FilledInIssues | src/utils/validators/caseValidator.js:16-21 | a required text field passes exactly when it is non-empty and free of its placeholder |
| SchemaChecks.UuidIssues | src/utils/validators/caseValidator.js:7 | `uuid()` reports an issue exactly when the string is not UUID-shaped |
| SchemaChecks.MinNumber | src/utils/validators/caseValidator.js:79 | `number().min(n)` reports an issue exactly when the number is below n |
| SchemaChecks.NonEmpty | src/utils/validators/caseValidator.js:12 | `nonempty()` reports an issue exactly when the array is empty |
| SchemaChecks.UuidListIssues | src/utils/validators/caseValidator.js:64 | an id array passes exactly when every element is a UUID; its issues sit under its path |
| SchemaChecks.UuidRecordIssues | src/utils/validators/caseValidator.js:64 | a to-display record passes exactly when every key and every listed id is a UUID |
| CaseValidator.CaseInProgressIssues | src/utils/validators/caseValidator.js:5-9 | a case in progress has no issue exactly when the name is non-empty and both ids are UUIDs |
| CaseValidator.CaseToPublishIssues | src/utils/validators/caseValidator.js:11-13 | publishing additionally requires at least one step |
| CaseValidator.ValidateCaseInProgress | src/utils/validators/caseValidator.js:120-130 | success exactly when the case-in-progress rules hold; failures name the case's fields |
| CaseValidator.ValidateCaseToPublish | src/utils/validators/caseValidator.js:132-142 | success exactly when the case-in-progress rules hold and there is a step |
| CaseValidator.NoStepsNeverPublishes | src/utils/validators/caseValidator.js:11-13 | without steps, publishing validation fails whatever the other fields, and ends with "Fallet måste innehålla steg" |
| CaseValidator.PublishableIsInProgress | src/utils/validators/caseValidator.js:11-13 | valid to publish exactly when valid in progress and at least one step |
| CaseValidator.FeedbackIssues | src/utils/validators/caseValidator.js:22-33 | both feedback fields must be non-empty and free of their placeholders |
| CaseValidator.BaseIssues | src/utils/validators/caseValidator.js:15-34 | the base module passes exactly when prompt and both feedbacks are filled in |
| CaseValidator.IntroductionIssues | src/utils/validators/caseValidator.js:36-61 | an Introduction passes exactly when description, its own prompt and both feedbacks are filled in |
| CaseValidator.ValidateIntroductionModule | src/utils/validators/caseValidator.js:144-154 | success exactly when the Introduction rules hold; errors carry the "Introduktion" label |
| CaseValidator.IntroductionPromptRule | src/utils/validators/caseValidator.js:43-48 | a prompt holding only the shorter base placeholder passes the Introduction rule but fails the base rule |
| CaseValidator.ValueListIssues | src/utils/validators/caseValidator.js:65-78 | the answers pass exactly when each has a UUID examination id and a filled-in value |
| CaseValidator.ExaminationIssues | src/utils/validators/caseValidator.js:63-80 | an Examination passes exactly when the base rules hold, the to-display ids are UUIDs, there is at least one valid answer and `max_nbr_tests` >= 1 |
| CaseValidator.ValidateExaminationModule | src/utils/validators/caseValidator.js:156-166 | success exactly when the Examination rules hold; errors carry the "Utredning" label |
| CaseValidator.DiagnosisIssues | src/utils/validators/caseValidator.js:82-84 | a Diagnosis passes exactly when the base rules hold and `diagnosis_id` is a UUID |
| CaseValidator.ValidateDiagnosisModule | src/utils/validators/caseValidator.js:168-178 | success exactly when the Diagnosis rules hold; errors carry the "Diagnos" label |
| CaseValidator.TreatmentListIssues | src/utils/validators/caseValidator.js:87-94 | the answers pass exactly when every treatment id is a UUID |
| CaseValidator.TreatmentIssues | src/utils/validators/caseValidator.js:86-96 | a Treatment passes exactly when the base rules hold, there is at least one answer, all treatment ids are UUIDs and the to-display ids are UUIDs |
| CaseValidator.ValidateTreatmentModule | src/utils/validators/caseValidator.js:180-190 | success exactly when the Treatment rules hold; errors carry the "Behandling" label |
| CaseValidator.TreatmentListIgnoresValues | src/utils/validators/caseValidator.js:89-92 | answers that differ only in value give the same issues |
| CaseValidator.TreatmentValueUnchecked | src/utils/validators/caseValidator.js:89-92 | a treatment answer's value never affects the Treatment result |
| CaseValidator.SummaryIssues | src/utils/validators/caseValidator.js:98-118 | a Summary passes exactly when the process is filled in and neither extra field holds its placeholder |
| CaseValidator.ValidateSummaryModule | src/utils/validators/caseValidator.js:192-202 | success exactly when the Summary rules hold; errors carry the "Sammanfattning" label |
| CaseValidator.SummaryExtrasOptional | src/utils/validators/caseValidator.js:99-109 | empty additional information and links pass; only the process then decides |
| UserValidator.LowerIssues | src/utils/validators/userValidator.js:9 | an issue exactly when no character is a lower-case letter |
| UserValidator.UpperIssues | src/utils/validators/userValidator.js:10 | an issue exactly when no character is an upper-case letter |
| UserValidator.DigitIssues | src/utils/validators/userValidator.js:11 | an issue exactly when no character is a digit |
| UserValidator.SpecialIssues | src/utils/validators/userValidator.js:12-15 | an issue exactly when no character is one of the listed specials |
| UserValidator.PasswordIssues | src/utils/validators/userValidator.js:4-16 | no issue exactly when the length is 8..12 and all four character classes occur; every issue is at "password" |
| UserValidator.LoginIssues | src/utils/validators/userValidator.js:18-20 | no issue exactly when the password is valid and the email is valid; every issue lies under "password" or "email" |
| UserValidator.RegistrationIssues | src/utils/validators/userValidator.js:22-24 | login's rules plus a non-empty group id; every issue lies under "password", "email" or "group_id" |
| UserValidator.ValidatePassword | src/utils/validators/userValidator.js:26-36 | success exactly when the password rules hold; every error names "password" |
| UserValidator.ValidateLogin | src/utils/validators/userValidator.js:38-48 | success exactly when password and email are valid; a failure lists at least one error, each naming "password" or "email" |
| UserValidator.ValidateRegistration | src/utils/validators/userValidator.js:50-60 | success exactly when password, email and group id are valid; a failure lists at least one error, each naming "password", "email" or "group_id" |
| UserValidator.SchemasNest | src/utils/validators/userValidator.js:18-24 | registration validity implies login validity, which implies password validity |
| UserValidator.ShortPasswordFirstError | src/utils/validators/userValidator.js:7 | a password under 8 characters fails, first with the length message |
| UserValidator.LongPasswordFirstError | src/utils/validators/userValidator.js:8 | a password over 12 characters fails, first with the other length message |
| UserValidator.PasswordExample | src/utils/validators/userValidator.js:4-16 | "Aa1!Aa1!" satisfies every password rule |
| UserValidator.NoSpecialRefused | src/utils/validators/userValidator.js:12-15 | a password made only of letters and digits is refused |
| CaseRouter.Create | src/routes/caseRouter.js:175-212 | 201 exactly when there is a body and its name is not taken, otherwise 400 with nothing changed; the new case gets a new id and is unpublished, then the tables are those of `insertSteps` run for the new case |
| CaseRouter.CreateInsertsSteps | src/routes/caseRouter.js:188-202 | after a 201 the new case has one new step row per recognised descriptor, each of that case, carrying its position and identifier and pointing at a payload holding its data; existing step rows are untouched |
| CaseRouter.NameTaken | src/routes/caseRouter.js:183-187 | the lookup by name finds a row exactly when some case has that name |
| CaseRouter.CreateCase | src/routes/caseRouter.js:175-212 | the handler's writes and reply are those of the create rule; ids stay fresh |
| CaseRouter.CreateKeepsNamesUnique | src/routes/caseRouter.js:183-197 | create keeps case names unique |
| CaseRouter.Delete | src/routes/caseRouter.js:84-108 | 400 exactly without an id, 404 for an unknown case, else 200 with `active := false` on that row only; the row is kept and `published` unchanged |
| CaseRouter.DeleteCase | src/routes/caseRouter.js:84-108 | the handler's writes and reply are those of the delete rule |
| CaseRouter.FlippableOneWay | src/routes/caseRouter.js:232-237 | for an existing case the lookup on `published: !publish` succeeds for exactly one value of `publish`; for an unknown id for neither |
| CaseRouter.StepCount | src/routes/caseRouter.js:241-245 | the step lookup finds nothing exactly when no step row belongs to the case |
| CaseRouter.Publish | src/routes/caseRouter.js:226-266 | 400 with no change without an id or unless the case's flag is `!publish`; otherwise the flag is set exactly when publish validation passes (also for unpublishing), else its errors are returned |
| CaseRouter.PublishCase | src/routes/caseRouter.js:226-266 | the handler's writes and reply are those of the publish rule |
| CaseRouter.NoStepsNeverFlips | src/routes/caseRouter.js:241-253 | a case without step rows is never flipped in either direction, and the last error is the missing-steps message |
| CaseRouter.PublishedCaseIsComplete | src/routes/caseRouter.js:241-256 | a case the handler publishes passes the case-in-progress rules and has a step row |
| CaseRouter.FlagsKeepNamesUnique | src/routes/caseRouter.js:98-100 | changing only `published` and `active` keeps case names unique |

## Left out

- `deleteModules` (src/utils/databaseUtils.js:527-558) is not modelled. It calls stored procedures whose bodies are not part of this model, through unawaited async callbacks.
- The PATCH `/` update handler, the GET handlers and the other routers are not modelled. `updateSteps`, which the PATCH handler calls, is modelled.
- Transactions are not modelled: begin, commit and rollback. A throw in `updateSteps` is an `ok == false` outcome that keeps the writes made before it; the rollback that would undo them is not modelled.
- HTTP plumbing is left out: response bodies, Express wiring, and the 500 replies to thrown errors. In the model `insertSteps` never throws, so create has no 500 path.
- CaseRouter.Delete: the 500 reply when `update` returns a falsy response is not modelled, because the storage update always succeeds in the model.
- CaseRouter.Create: the JSON body is either present (`Some`) or absent (`None`). Field-level type errors in it are not modelled.
- Ids generated by the storage layer are natural numbers from one shared counter, not UUIDv4 strings. Falsy ids (`moduleTableId`, `stepTableId`, `caseId`, answer ids) are `None`.
- The five payload tables are one map with tagged rows. This relies on ids being unique across tables.
- The `active` column's database default is `None`, because its value is not visible here.
- AnswerTables.UpdateValuesOk: stated for answer ids below the id counter. With counter ids an answer could name a value row created earlier in the same loop; with the source's random UUIDs it cannot.
- AnswerTables.UpdateTreatmentAnswersOk: stated for answer ids below the id counter, for the same reason.
- StepTables.UpdateAsOk: stated for answer ids below the id counter, for the same reason.
- AnswerTables.UpdateValuesNewIds: stated for answer ids below the id counter, for the same reason.
- AnswerTables.UpdateValuesNewRows: stated for answer ids below the id counter, for the same reason.
- AnswerTables.UpdateValuesCreates: stated for answer ids below the id counter, for the same reason.
- AnswerTables.UpdateTreatmentAnswersNewIds: stated for answer ids below the id counter, for the same reason.
- AnswerTables.UpdateTreatmentAnswersNewRows: stated for answer ids below the id counter, for the same reason.
- AnswerTables.UpdateTreatmentAnswersCreates: stated for answer ids below the id counter, for the same reason.
- StepTables.UpdateExaminationCreates: stated for answer ids below the id counter, for the same reason.
- StepTables.UpdateTreatmentCreates: stated for answer ids below the id counter, for the same reason.
- AnswerTables.UpdateValuesWrites: an answer id that names a row owned by another step is updated anyway, as the source does. No ownership check is stated.
- AnswerTables.UpdateValuesWrites: stated for an answer id below the id counter, and only for the last answer naming that row.
- AnswerTables.UpdateTreatmentAnswersWrites: stated for an answer id below the id counter, and only for the last answer naming that row.
- CaseValidator.ValidateCaseToPublish: the `steps` array is abstracted to its length, since its element schema accepts any object.
- Zod's UUID and email checks are approximated. UUIDs are the 8-4-4-4-12 hexadecimal shape. An email is a non-empty local part, one `@`, and a domain with an inner dot.
- Zod's own issue for a field of the wrong JavaScript type is not modelled: every field has its declared type.
- String lengths count Dafny characters, not UTF-16 code units.
- `max_nbr_tests` is an integer, matching its INTEGER column; fractional numbers are not modelled.
- Timestamps are integers.
- `is_finished` is a boolean; a null value reads as false.
- The catalogue items are given in the order the storage layer returns them, which is sorted by name. The sort itself is not modelled.
- CaseUtils.DiagnosesOf: the diagnosis list is in table order.
- CaseUtils.Fetched: the expanded to-display object is carried beside the Examination or Treatment row rather than replacing its field. The row's other fields are unchanged.
- OrderedMaps.Set: JavaScript's ordering of integer-like object keys before other keys is not modelled. Keys keep insertion order.
- CaseUtils.SortAttempts: each result entry is the kept attempt itself. The source spreads `case_id: key` in front of it, which is the same value.
- CaseUtils.FetchStepData: rewriting `step.dataValues` in place is modelled as replacing the array element with the step's new view.
- The JWT, bcrypt, configuration and model-definition files are not part of this model.
