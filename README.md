# Visa progress tracker — a Dafny model

This project models the visa progress tracker of the school services portal.
The tracker has four parts:

- **Store side** (`app/api/admin/visa/route.ts`). Visa administrators POST a
  school ID with a person type and a stage. The route checks the department,
  then the school ID, then person type and stage. It then upserts the one
  `visa_status` record of the school ID and seeds the fixed catalogue of 4
  stages × 5 tasks into `visa_tasks` with insert-if-absent. Last, it applies
  the request's task-completion updates in list order. A GET lists the status
  records, to visa administrators only.
- **Read side** (`app/api/visa-status/route.ts`). A lookup by school ID answers
  400 without an ID and 404 without a record. Otherwise it returns the
  record's fields and the task rows grouped by stage, in task-index order.
- **Derived progress** (`app/visa/page.tsx`). From a lookup the page computes
  per-stage counts and a done / in-progress / pending status. It also computes
  the overall completion percentage over stages 1–4, the current stage (the
  first stage not done, or 4) and a case-insensitive search over the visa forms.
- **Admin panel** (`app/admin-panel/page.tsx`) builds the POST bodies:
  - the status form, with separate rules for a new and a known school ID;
  - single task toggles and "check all";
  - checks on a selected upload;
  - the accordion's section flags.

  The news panel (`components/News.tsx`) groups announcements under five fixed
  departments.

Modules:

- `Wrappers`: `Option`.
- `JsBuiltins`: the JavaScript built-ins the code relies on: `toLowerCase`,
  `trim`, `includes`, `filter`, `split` and `parseInt`, with `join` as the
  inverse of `split` for the rendering round trip.
- `AdminVisaRoute`: the catalogue and the tables. It has the pure `PostStep`
  specification and the class `VisaDatabase`. The class holds both tables as
  map fields, and its methods carry the route's loops.
- `VisaStatusRoute`, `VisaProgress`, `AdminPanel` and `News`: one module for
  each of the other files.

The POST method is proved equal to `PostStep`, and it keeps the tables
`WellFormed`. `WellFormed` says:

- every row sits in a catalogue slot and carries the catalogue text;
- a row has a completion time exactly when it is completed;
- every status record has its 20 rows.

The lemmas about `PostStep` state the route's promises:

- validation order with no mutation;
- one record per ID;
- idempotent seeding;
- last write wins;
- nothing else changes;
- the created/updated flags.

Modelling choices:

- **Time.** `NOW()` is a parameter `now`.
- **Booleans.** MySQL's `BOOLEAN` column is an `int` (0 or 1), and the read
  side's `Boolean(is_completed)` is `!= 0`.
- **Absent fields.** A JSON field that is absent is `None`. The empty string and
  the number 0 count as missing, because the code tests fields for JavaScript
  truthiness.
- **`parseInt`** is modelled on strings: leading whitespace, a sign, a `0x`
  prefix and the longest digit prefix, with `None` for `NaN`. The panel sends
  `NaN` as JSON `null`, so an unparsable stage reaches the route as `None`.

## Model

| member | source | states |
|---|---|---|
| AdminVisaRoute.StageTasks | app/api/admin/visa/route.ts:5-34 | stages 1–4 have five checklist items each, every other stage has none |
| AdminVisaRoute.PostStep | app/api/admin/visa/route.ts:44-144 | a non-visa department (case-insensitive) gives 403; a missing school ID gives 400 before person type and stage are looked at; a missing person type or a missing or 0 stage then gives 400; each rejection leaves both tables unchanged; the request is saved exactly when it passes all checks, and then reports `created` exactly when the school ID had no record and `updated` as its negation, with the matching message |
| AdminVisaRoute.PostUpsertsStatus | app/api/admin/visa/route.ts:77-98 | after a saved request the school ID has exactly one status record, holding the supplied person type and stage (so an update overwrites both), and every other record is unchanged |
| AdminVisaRoute.Seeded | app/api/admin/visa/route.ts:116-125 | seeding adds exactly the missing catalogue keys of the school ID as fresh rows with the catalogue text and leaves every existing row as it was |
| AdminVisaRoute.InsertIgnoreStep | app/api/admin/visa/route.ts:120-123 | one `INSERT IGNORE` of the next catalogue slot keeps every existing row and adds that slot's seed row only when its key is absent |
| AdminVisaRoute.SeededUpToEnd | app/api/admin/visa/route.ts:117-125 | once the loops have visited all 20 slots, the table is exactly `Seeded` of the table before them |
| AdminVisaRoute.SeededIdempotent | app/api/admin/visa/route.ts:116-125 | seeding twice is seeding once |
| AdminVisaRoute.PostSeedsCatalogue | app/api/admin/visa/route.ts:116-125 | after a saved request all 20 catalogue rows of the school ID exist and no other row was added |
| AdminVisaRoute.ApplyUpdate | app/api/admin/visa/route.ts:131-135 | one update sets the named row's completion flag, with `completed_at` now when completed and null otherwise; no other row changes, and an update naming no row changes nothing |
| AdminVisaRoute.ApplyUpdatesAt | app/api/admin/visa/route.ts:128-137 | applying the update list in order leaves each row with the state of the last update naming it, or unchanged when none names it |
| AdminVisaRoute.ApplyUpdates | app/api/admin/visa/route.ts:128-137 | the update loop never adds or removes a row: the key set is the one it started with (contents per row: `ApplyUpdatesAt`) |
| AdminVisaRoute.ApplyUpdatesIdempotent | app/api/admin/visa/route.ts:128-137 | applying the same list twice at the same time equals applying it once |
| AdminVisaRoute.PostTaskRow | app/api/admin/visa/route.ts:116-137 | the row of any key after a saved request: its earlier or freshly seeded state when no update names it, otherwise the last update's state with `completed_at` set exactly when completed |
| AdminVisaRoute.PostLeavesOtherSchools | app/api/admin/visa/route.ts:77-137 | the task rows and the status record of every other school ID, and all of both tables on a rejected request, are unchanged |
| AdminVisaRoute.LastWriteOtherSchool | app/api/admin/visa/route.ts:134 | updates only reach rows of the request's own school ID |
| AdminVisaRoute.PostIgnoresMissingTask | app/api/admin/visa/route.ts:129-136 | appending an update naming a row that does not exist changes neither the tables nor the response |
| AdminVisaRoute.ApplyUpdatesRetryLater | app/api/admin/visa/route.ts:128-137 | the same update list applied again at another time keeps every row's text and completion flag; unnamed rows are untouched and rows completed by it get the new time |
| AdminVisaRoute.PostRetryLater | app/api/admin/visa/route.ts:77-137 | resending a saved request at any other time keeps the same records, rows and completion states; only this school ID's `updated_at` (to the new time) and the completion times of rows the request names can move, and every other status record and unnamed row is unchanged |
| AdminVisaRoute.PostRetryIdempotent | app/api/admin/visa/route.ts:116-137 | sending the same saved request again at the same time leaves the tables as they were after the first |
| AdminVisaRoute.SeededWellFormed | app/api/admin/visa/route.ts:116-125 | seeding only adds rows in catalogue slots with the catalogue text and no completion |
| AdminVisaRoute.ApplyUpdatesWellFormed | app/api/admin/visa/route.ts:128-137 | task updates keep every row's text and keep completion flag and time consistent |
| AdminVisaRoute.PostPreservesWellFormed | app/api/admin/visa/route.ts:100-137 | every request keeps the tables well formed: rows unique per (school ID, stage, index) in catalogue slots, each status record with its 20 rows |
| AdminVisaRoute.VisaDatabase.constructor | app/api/admin/visa/route.ts:66-75 | both tables start as the empty tables that `CREATE TABLE IF NOT EXISTS` makes on first use, which are well formed; later requests leave existing tables as they are |
| AdminVisaRoute.VisaDatabase.Post | app/api/admin/visa/route.ts:37-144 | the handler's new tables and response are exactly those of `PostStep`, and a well-formed store stays well formed |
| AdminVisaRoute.VisaDatabase.SeedTasks | app/api/admin/visa/route.ts:117-125 | the nested loops leave the task table equal to `Seeded` of the old one and the status table unchanged |
| AdminVisaRoute.VisaDatabase.ApplyTaskUpdates | app/api/admin/visa/route.ts:128-137 | the update loop leaves the task table equal to `ApplyUpdates` of the old one, in list order |
| AdminVisaRoute.VisaDatabase.ListStatuses | app/api/admin/visa/route.ts:154-174 | a non-visa department is denied with the view message; a visa department gets every status record |
| VisaStatusRoute.Get | app/api/visa-status/route.ts:4-74 | 400 exactly when the ID is missing or empty; 404 exactly when there is no record (never an empty success); otherwise the record's ID, person type, stage and time unchanged with its rows grouped by stage: every bucket entry is a stored row of that ID and stage, and on valid tables every stored row of the ID is in its stage's bucket; nothing is written |
| VisaStatusRoute.RowsFrom | app/api/visa-status/route.ts:32-37 | the selected rows are rows of the school ID as stored, sorted by stage and then task index |
| VisaStatusRoute.SelectTasksIsQuery | app/api/visa-status/route.ts:32-37 | the query returns only rows of the school ID, sorted, and on well-formed tables every row of the school ID |
| VisaStatusRoute.RowsFromComplete | app/api/visa-status/route.ts:32-37 | every stored catalogue row of the school ID appears in the result |
| VisaStatusRoute.GroupByStage | app/api/visa-status/route.ts:39-52 | a stage is a key exactly when some row has that stage (no key for a stage without rows), and its bucket is the views of that stage's rows in row order |
| VisaStatusRoute.BucketMembers | app/api/visa-status/route.ts:41-50 | every row's view lands in its own stage's bucket and a bucket holds only views of rows of its stage, whose `isCompleted` is the stored flag read as a boolean |
| VisaStatusRoute.BucketWithoutStage | app/api/visa-status/route.ts:42-44 | a stage no row has gets no entries |
| VisaStatusRoute.BucketsPartitionRows | app/api/visa-status/route.ts:39-52 | with stages 1–4 the four buckets together are, as a multiset, exactly the views of all rows: none lost, none duplicated |
| VisaStatusRoute.BucketOrdered | app/api/visa-status/route.ts:32-52 | within a bucket the task indices strictly increase, inherited from `ORDER BY stage, task_index` |
| VisaProgress.CountIsFilterLength | app/visa/page.tsx:190 | the completed count is the length of the tasks filtered on `isCompleted` |
| VisaProgress.CountCompletedMeaning | app/visa/page.tsx:190 | the completed count is 0 exactly when no task is completed and equals the length exactly when all are |
| VisaProgress.TasksForStageOfLookup | app/visa/page.tsx:182-184 | a stage's tasks read from a lookup's grouping are that stage's bucket; a stage without rows, or a lookup without tasks, gives none |
| VisaProgress.GetStageStats | app/visa/page.tsx:182-192 | completed never exceeds total; a stage without a bucket gives (0, 0) |
| VisaProgress.StagePredicatesMeaning | app/visa/page.tsx:194-202 | `isStageDone` iff the stage has tasks and all are completed; `isStageInProgress` iff some are completed and some are not |
| VisaProgress.StageStatsMeaning | app/visa/page.tsx:182-192 | total is the bucket length; completed is 0 exactly when no task is completed and equals total exactly when all are |
| VisaProgress.StageStatus | app/visa/page.tsx:194-208 | exactly one status: done iff the stage has tasks and all are completed; in progress iff some but not all are; pending iff none is |
| VisaProgress.EmptyStageIsPending | app/visa/page.tsx:194-208 | a stage without tasks is never done and is pending |
| VisaProgress.RoundedPercent | app/visa/page.tsx:158 | `Math.round(c / t * 100)`: the nearest integer with halves rounded up, within 0..100 when c ≤ t |
| VisaProgress.ProgressPercent | app/visa/page.tsx:143-159 | 0 without tasks or with no task in stages 1–4, otherwise the rounded share of completed tasks in stages 1–4; always within 0..100 |
| VisaProgress.GetProgressPercentage | app/visa/page.tsx:143-159 | the loop over stages 1–4 returns `ProgressPercent` of the tasks whatever `phase` is, so within 0..100 |
| VisaProgress.IgnoresOtherStages | app/visa/page.tsx:150-155 | buckets of stages outside 1–4 change neither the percentage nor the current stage |
| VisaProgress.CurrentStage | app/visa/page.tsx:211-216 | the current stage is in 1..4, every lower stage is done, and it is not done unless it is 4 |
| VisaProgress.GetCurrentStage | app/visa/page.tsx:211-216 | the loop with early return yields that stage |
| VisaProgress.CurrentStageIsLeastNotDone | app/visa/page.tsx:211-216 | those three properties determine the current stage uniquely |
| VisaProgress.AllCompleteShowsFullProgress | app/visa/page.tsx:150-158 | when every stage 1–4 has tasks and all are completed the percentage is 100 and the current stage is 4 |
| VisaProgress.AssignedStageIsNotShownStage | app/admin-panel/page.tsx:331-337 | the stage an administrator assigns is not the stage the page shows: a new student ID saved at stage 3 is looked up at stage 1, because its rows are fresh |
| VisaProgress.FreshRowsShowStageOne | app/visa/page.tsx:210-216 | a school ID whose 20 catalogue rows are all uncompleted is shown at stage 1 |
| VisaProgress.SeededAllCompleteLookup | app/visa/page.tsx:211-216 | on well-formed tables, a school ID whose 20 seeded rows are all completed is looked up as 100% and stage 4 |
| VisaProgress.FilterFiles | app/visa/page.tsx:39-45 | the shown files keep their order, a file is shown iff its lowercased title or description contains the lowercased term, and a matching file is shown as often as it is listed |
| VisaProgress.EmptyTermShowsAll | app/visa/page.tsx:39-45 | an empty term shows every file |
| AdminPanel.HandleVisaUpdate | app/admin-panel/page.tsx:312-345 | a non-visa department and then a blank ID are refused with their messages; the body carries the trimmed ID and no task list; a new ID needs a person type, whose stage is 1 for "parent" and 3 otherwise; a known ID needs a stage, sent parsed and with no person type |
| AdminPanel.RequestWithoutPersonTypeRejected | app/admin-panel/page.tsx:338-345 | the known-ID request, which has no person type, is never saved by the route: 403 or 400 and no change |
| AdminPanel.NewSchoolIdStartsAtAssignedStage | app/admin-panel/page.tsx:331-337 | the new-ID request is saved and leaves a record with the person type and stage 1 for a parent, 3 otherwise |
| AdminPanel.TaskToggleRequest | app/admin-panel/page.tsx:405-426 | refused exactly when the selected ID is blank; otherwise person type "student", the toggled stage, and the single toggle as the task list |
| AdminPanel.ToggleOverwritesStatus | app/admin-panel/page.tsx:412-426 | a saved toggle overwrites the record's person type with "student" and its stage with the toggled stage, and sets the toggled row's completion and time |
| AdminPanel.CheckAllRequest | app/admin-panel/page.tsx:441-457 | a blank selection and then a missing or empty stage bucket are refused; the request is sent exactly when neither holds, with one update per loaded task, in order, each with its task index and the one flag |
| AdminPanel.LastWriteUniform | app/admin-panel/page.tsx:453-457 | when every entry has the same flag, the row of any listed task ends with that flag |
| AdminPanel.CheckAllSetsEveryLoadedTask | app/admin-panel/page.tsx:441-474 | with a school ID selected and a task loaded for the stage, the request is sent, and once saved every loaded task of the stage that has a row carries the chosen flag |
| AdminPanel.CheckSelectedFile | app/admin-panel/page.tsx:211-246 | no file clears the selection; the type is checked before the size, each refusal with its own upload message; a file is kept iff it is PDF, DOC or DOCX and at most 10·1024·1024 bytes |
| AdminPanel.ExactlyTenMiBAccepted | app/admin-panel/page.tsx:238-239 | exactly 10 MiB passes, one byte more is too large |
| AdminPanel.ToggleSection | app/admin-panel/page.tsx:529-534 | only the named flag flips, a missing flag counting as closed; every other flag is unchanged |
| AdminPanel.ToggleTwice | app/admin-panel/page.tsx:529-534 | toggling an existing section twice restores the flags |
| News.DepartmentNews | components/News.tsx:72 | a group is the department's items in their original order, each as often as it occurs in the news |
| News.GroupNewsByDepartment | components/News.tsx:68-76 | exactly the five departments are keys, empty ones included; each group is its department's items; an item of another department is in no group |
| News.HasNewsWhenListed | components/News.tsx:112 | when every item's department is listed, `hasNews` holds exactly when some department section is shown |
| News.HasNewsIgnoresGroups | components/News.tsx:112 | having news depends on the raw list only: an item of an unlisted department gives news with every group empty |
| News.VisibleDepartments | components/News.tsx:125-127 | a department gets a section iff its group is non-empty, in display order |
| News.Capitalise | components/News.tsx:134 | the heading keeps the length, upper-cases the first character and keeps the rest |
| News.VisaHeading | components/News.tsx:134 | the visa section is headed "Visa Department" |
| News.RenderContent | components/News.tsx:140-145 | content with k newlines renders as k + 1 segments, the lines of the split, with a break after each but the last |
| News.RenderedBreaks | components/News.tsx:140-145 | n segments carry n − 1 line breaks |
| News.RenderRoundTrip | components/News.tsx:140-145 | joining the rendered lines with newlines gives back the content |
| JsBuiltins.TrimEmptyIffBlank | app/admin-panel/page.tsx:319 | `trim()` is empty exactly when the string is all whitespace |
| JsBuiltins.Filter | app/visa/page.tsx:40-43 | `filter` keeps exactly the passing elements, in order |
| JsBuiltins.FilterCounts | app/visa/page.tsx:40-43 | `filter` keeps each passing element as often as it occurs and no failing one |
| JsBuiltins.JoinSplit | components/News.tsx:140 | splitting on a character and joining back is the identity |
| JsBuiltins.SplitJoin | components/News.tsx:140 | splitting the join of separator-free parts gives back the parts |
| JsBuiltins.ParseDigits | app/admin-panel/page.tsx:344 | `parseInt` reads a string of decimal digits as a plain decimal numeral: no white space, sign or hex prefix applies |
| JsBuiltins.ParseIntRoundTrip | app/admin-panel/page.tsx:344 | `parseInt` of a decimal numeral is its value |

## Left out

- Database plumbing is not modelled:
  - connections, `CREATE DATABASE`, and `CREATE TABLE` beyond the empty initial tables of the constructor;
  - the 500 answers for database errors;
  - the auto-increment ids;
  - the task rows' `created_at` / `updated_at` columns.
  
  The tables are in-memory maps, and `NOW()` is a parameter.
- One request reads the clock once. A single `now` stands for every `NOW()` of that request: the status upsert and each task update's `completed_at` (`app/api/admin/visa/route.ts:86-97`, `131-135`). The database would call `NOW()` separately in each statement.
- The `person_type` enum (`app/api/admin/visa/route.ts:71`) is not modelled. The person type is a plain string, so "parent" is stored rather than refused by the database.
- Uniqueness of the status record is guaranteed by the map key. Duplicate `visa_status` rows under concurrent requests, and the `LIMIT 1` choice among them, are not modelled.
- `school_id` is compared exactly. MySQL's default collation compares case-insensitively; that is not modelled.
- VisaDatabase.ListStatuses returns the status records as a map. The `ORDER BY updated_at DESC` order of the listing is not modelled.
- VisaStatusRoute.RowsFrom reads the query from the 20 catalogue slots. On tables the route wrote (`WellFormed`) this is the whole `SELECT`. Rows planted in other slots by other writers are not modelled.
- RoundedPercent: `Math.round` over the floating-point quotient is modelled by exact rational rounding. Quotients that the double arithmetic lands just beside a half may round differently.
- JsBuiltins.ParseInt does not model precision loss for numerals beyond 2^53.
- `toLowerCase`/`toUpperCase` map only ASCII letters, as does Capitalise. Full Unicode case mapping is not modelled.
- The task-update entries carry a boolean `isCompleted`, as the panel sends. Other JSON values in that field are not modelled.
- The 5-second polling, the async fetch sequencing and the post-save refresh messages of the panel are timers and concurrency. `fetchVisaTasks` is a fetch wrapper. None is modelled.
- `formatFileSize`, `formatDate` and the stage titles and descriptions are display formatting over floats, locales and fixed texts. They are not modelled.
- File storage, the news and forms routes, authentication, and the presentational pages are outside the tracker and not modelled.
