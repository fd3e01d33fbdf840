/**
 * The store side of the visa progress tracker (app/api/admin/visa/route.ts):
 * the fixed task catalogue, the two tables `visa_status` and `visa_tasks`,
 * the POST handler that validates a request, upserts the status record,
 * seeds the catalogue rows and applies task-completion updates, and the GET
 * handler that lists the status records for visa administrators.
 */
module AdminVisaRoute {
  import opened Wrappers
  import opened JsBuiltins

  /** The database clock's `NOW()`, passed in by the caller. */
  type Timestamp = int

  // ---------------------------------------------------------------- catalogue

  /** `VISA_TASKS`: five checklist items for each of the stages 1 to 4, and none for any other stage. */
  function StageTasks(stage: int): (items: seq<string>)
    ensures 1 <= stage <= 4 ==> |items| == 5
    ensures !(1 <= stage <= 4) ==> items == []
  {
    if stage == 1 then
      [ "Document verification completed",
        "Initial application review",
        "Student information validation",
        "Fee payment confirmation",
        "Preliminary approval issued" ]
    else if stage == 2 then
      [ "Embassy appointment scheduled",
        "Required documents submitted",
        "Biometric data collection",
        "Interview preparation completed",
        "Application forwarded to embassy" ]
    else if stage == 3 then
      [ "Embassy processing initiated",
        "Background verification in progress",
        "Medical examination completed",
        "Security clearance obtained",
        "Visa decision pending" ]
    else if stage == 4 then
      [ "Visa approval received",
        "Passport collection scheduled",
        "Travel arrangements confirmed",
        "Pre-departure briefing completed",
        "Done, Dah siap mat, datang jumpa adip" ]
    else []
  }

  /** `VISA_TASKS[stage][taskIndex]`, and the empty string outside the catalogue. */
  function Description(stage: int, taskIndex: int): string {
    var items := StageTasks(stage);
    if 0 <= taskIndex < |items| then items[taskIndex] else ""
  }

  predicate IsCatalogueSlot(stage: int, taskIndex: int) {
    1 <= stage <= 4 && 0 <= taskIndex < 5
  }

  // ---------------------------------------------------------------- tables

  /** A `visa_status` row, keyed by its school ID. */
  datatype StatusRecord = StatusRecord(personType: string, stage: int, updatedAt: Timestamp)

  /** The unique key `(school_id, stage, task_index)` of `visa_tasks`. */
  datatype TaskKey = TaskKey(schoolId: string, stage: int, taskIndex: int)

  /** A `visa_tasks` row; `is_completed` is a MySQL BOOLEAN, a small integer holding 0 or 1. */
  datatype TaskRow = TaskRow(description: string, isCompleted: int, completedAt: Option<Timestamp>)

  /** Both tables at one moment. */
  datatype Tables = Tables(statuses: map<string, StatusRecord>, tasks: map<TaskKey, TaskRow>)

  /** A row as the seeding loop inserts it: the catalogue text, not completed, no completion time. */
  function SeedRow(stage: int, taskIndex: int): TaskRow
    requires IsCatalogueSlot(stage, taskIndex)
  {
    TaskRow(Description(stage, taskIndex), 0, None)
  }

  /** A row as a task update leaves it: `completed_at` is `NOW()` when completed and NULL otherwise. */
  function CompletionRow(description: string, isCompleted: bool, now: Timestamp): TaskRow {
    TaskRow(description, if isCompleted then 1 else 0, if isCompleted then Some(now) else None)
  }

  /** What every row the route writes satisfies. */
  predicate WellFormedRow(k: TaskKey, row: TaskRow) {
    && IsCatalogueSlot(k.stage, k.taskIndex)
    && row.description == Description(k.stage, k.taskIndex)
    && ((row.isCompleted == 1 && row.completedAt.Some?) || (row.isCompleted == 0 && row.completedAt.None?))
  }

  /**
   * The tables as the route leaves them: every task row is a catalogue slot of a
   * school ID that has a status record, with the catalogue's text and a completion
   * time exactly when it is completed; and every school ID with a status record
   * has all 20 catalogue rows.
   */
  predicate WellFormed(db: Tables) {
    && (forall k | k in db.tasks :: WellFormedRow(k, db.tasks[k]) && k.schoolId in db.statuses)
    && (forall id | id in db.statuses :: CatalogueKeys(id) <= db.tasks.Keys)
  }

  // ---------------------------------------------------------------- seeding

  /** The 20 keys the seeding loop inserts for a school ID. */
  function CatalogueKeys(id: string): (keys: set<TaskKey>)
    ensures forall k :: k in keys <==> k.schoolId == id && IsCatalogueSlot(k.stage, k.taskIndex)
  {
    var keys := set s, i | 1 <= s <= 4 && 0 <= i < 5 :: TaskKey(id, s, i);
    assert forall k: TaskKey | k.schoolId == id && IsCatalogueSlot(k.stage, k.taskIndex) ::
      k == TaskKey(id, k.stage, k.taskIndex);
    keys
  }

  /**
   * The task table after seeding the catalogue for `id`: all 20 catalogue keys
   * are present, rows that were there keep their content (completion state
   * included), the new ones are fresh seed rows, and no other key is added.
   */
  function Seeded(tasks: map<TaskKey, TaskRow>, id: string): (r: map<TaskKey, TaskRow>)
    ensures r.Keys == tasks.Keys + CatalogueKeys(id)
    ensures forall k | k in tasks :: r[k] == tasks[k]
    ensures forall k | k in r && k !in tasks :: k.schoolId == id && r[k] == SeedRow(k.stage, k.taskIndex)
  {
    map k | k in tasks.Keys + CatalogueKeys(id) :: if k in tasks then tasks[k] else SeedRow(k.stage, k.taskIndex)
  }

  /** The seeding loop visits key `k` of `id` before it reaches stage `s`, index `i`. */
  predicate VisitedBefore(k: TaskKey, id: string, s: int, i: int) {
    k.schoolId == id && IsCatalogueSlot(k.stage, k.taskIndex) && (k.stage < s || (k.stage == s && k.taskIndex < i))
  }

  /**
   * The task table once the seeding loop has reached stage `s`, index `i`: the
   * rows that were there are unchanged, and exactly the visited keys that were
   * missing have been added as seed rows.
   */
  ghost predicate SeededUpTo(before: map<TaskKey, TaskRow>, tasks: map<TaskKey, TaskRow>, id: string, s: int, i: int) {
    && (forall k :: k in tasks <==> k in before || VisitedBefore(k, id, s, i))
    && (forall k | k in before :: tasks[k] == before[k])
    && (forall k | k in tasks && k !in before :: tasks[k] == SeedRow(k.stage, k.taskIndex))
  }

  /** Visiting one more slot of the seeding loop inserts that slot's row if it is absent (`INSERT IGNORE`). */
  lemma InsertIgnoreStep(before: map<TaskKey, TaskRow>, tasks: map<TaskKey, TaskRow>, id: string, s: int, i: int)
    requires IsCatalogueSlot(s, i)
    requires SeededUpTo(before, tasks, id, s, i)
    ensures var k := TaskKey(id, s, i);
            SeededUpTo(before, if k in tasks then tasks else tasks[k := SeedRow(s, i)], id, s, i + 1)
  {
    var k := TaskKey(id, s, i);
    assert forall x: TaskKey :: VisitedBefore(x, id, s, i + 1) <==> VisitedBefore(x, id, s, i) || x == k;
  }

  /** Having visited the whole catalogue, the loop has computed `Seeded`. */
  lemma SeededUpToEnd(before: map<TaskKey, TaskRow>, tasks: map<TaskKey, TaskRow>, id: string)
    requires SeededUpTo(before, tasks, id, 5, 0)
    ensures tasks == Seeded(before, id)
  {
    var r := Seeded(before, id);
    assert tasks.Keys == r.Keys;
  }

  /** Seeding twice is seeding once. */
  lemma SeededIdempotent(tasks: map<TaskKey, TaskRow>, id: string)
    ensures Seeded(Seeded(tasks, id), id) == Seeded(tasks, id)
  {
  }

  // ---------------------------------------------------------------- task updates

  /** One entry of the request's `tasks` list. */
  datatype TaskUpdate = TaskUpdate(stage: int, taskIndex: int, isCompleted: bool)

  function UpdateKey(id: string, u: TaskUpdate): TaskKey {
    TaskKey(id, u.stage, u.taskIndex)
  }

  /**
   * One `UPDATE visa_tasks SET is_completed, completed_at WHERE key`: the row with
   * that key, if there is one, takes the new completion state; nothing else
   * changes, and an update naming no row changes nothing.
   */
  function ApplyUpdate(tasks: map<TaskKey, TaskRow>, id: string, u: TaskUpdate, now: Timestamp): (r: map<TaskKey, TaskRow>)
    ensures r.Keys == tasks.Keys
    ensures forall k | k in tasks && k != UpdateKey(id, u) :: r[k] == tasks[k]
    ensures UpdateKey(id, u) in tasks ==>
              r[UpdateKey(id, u)] == CompletionRow(tasks[UpdateKey(id, u)].description, u.isCompleted, now)
    ensures UpdateKey(id, u) !in tasks ==> r == tasks
  {
    var k := UpdateKey(id, u);
    if k in tasks then tasks[k := CompletionRow(tasks[k].description, u.isCompleted, now)] else tasks
  }

  /** The updates applied in list order; applying them never adds or removes a row. */
  function ApplyUpdates(tasks: map<TaskKey, TaskRow>, id: string, us: seq<TaskUpdate>, now: Timestamp): (r: map<TaskKey, TaskRow>)
    ensures r.Keys == tasks.Keys
    decreases |us|
  {
    if us == [] then tasks
    else ApplyUpdate(ApplyUpdates(tasks, id, us[..|us| - 1], now), id, us[|us| - 1], now)
  }

  /** The completion flag of the last update in `us` aimed at `k`, if there is one. */
  function LastWrite(us: seq<TaskUpdate>, id: string, k: TaskKey): Option<bool>
    decreases |us|
  {
    if us == [] then None
    else if UpdateKey(id, us[|us| - 1]) == k then Some(us[|us| - 1].isCompleted)
    else LastWrite(us[..|us| - 1], id, k)
  }

  /**
   * Last write wins: after the updates, a row no update names is as it was, and
   * a row some update names has the completion state of the last such update.
   */
  lemma {:induction false} ApplyUpdatesAt(tasks: map<TaskKey, TaskRow>, id: string, us: seq<TaskUpdate>, now: Timestamp, k: TaskKey)
    requires k in tasks
    ensures ApplyUpdates(tasks, id, us, now)[k] ==
              match LastWrite(us, id, k)
              case None => tasks[k]
              case Some(b) => CompletionRow(tasks[k].description, b, now)
    decreases |us|
  {
    if us != [] {
      ApplyUpdatesAt(tasks, id, us[..|us| - 1], now, k);
    }
  }

  /** Applying the same list of updates again at the same time changes nothing more. */
  lemma ApplyUpdatesIdempotent(tasks: map<TaskKey, TaskRow>, id: string, us: seq<TaskUpdate>, now: Timestamp)
    ensures ApplyUpdates(ApplyUpdates(tasks, id, us, now), id, us, now) == ApplyUpdates(tasks, id, us, now)
  {
    var once := ApplyUpdates(tasks, id, us, now);
    var twice := ApplyUpdates(once, id, us, now);
    forall k | k in tasks ensures twice[k] == once[k] {
      ApplyUpdatesAt(tasks, id, us, now, k);
      ApplyUpdatesAt(once, id, us, now, k);
    }
  }

  /** Two rows that differ at most in the time their completion was recorded. */
  predicate SameApartFromTime(a: TaskRow, b: TaskRow) {
    a.description == b.description && a.isCompleted == b.isCompleted && a.completedAt.Some? == b.completedAt.Some?
  }

  /**
   * Applying the same list again at another time leaves every row with the same
   * completion state: rows no update names are untouched, and a named row only
   * has its completion time moved to the second time when it is completed.
   */
  lemma ApplyUpdatesRetryLater(tasks: map<TaskKey, TaskRow>, id: string, us: seq<TaskUpdate>, first: Timestamp, later: Timestamp)
    ensures var once := ApplyUpdates(tasks, id, us, first);
            var twice := ApplyUpdates(once, id, us, later);
            && twice.Keys == once.Keys
            && (forall k | k in once :: SameApartFromTime(twice[k], once[k]))
            && (forall k | k in once && LastWrite(us, id, k).None? :: twice[k] == once[k])
            && (forall k | k in once && LastWrite(us, id, k) == Some(true) :: twice[k].completedAt == Some(later))
  {
    var once := ApplyUpdates(tasks, id, us, first);
    var twice := ApplyUpdates(once, id, us, later);
    forall k | k in once
      ensures SameApartFromTime(twice[k], once[k])
      ensures LastWrite(us, id, k).None? ==> twice[k] == once[k]
      ensures LastWrite(us, id, k) == Some(true) ==> twice[k].completedAt == Some(later)
    {
      ApplyUpdatesAt(tasks, id, us, first, k);
      ApplyUpdatesAt(once, id, us, later, k);
    }
  }

  /** Task updates keep every row well formed. */
  lemma ApplyUpdatesWellFormed(tasks: map<TaskKey, TaskRow>, id: string, us: seq<TaskUpdate>, now: Timestamp)
    requires forall k | k in tasks :: WellFormedRow(k, tasks[k])
    ensures var r := ApplyUpdates(tasks, id, us, now);
            forall k | k in r :: WellFormedRow(k, r[k])
  {
    var r := ApplyUpdates(tasks, id, us, now);
    forall k | k in r ensures WellFormedRow(k, r[k]) {
      ApplyUpdatesAt(tasks, id, us, now, k);
    }
  }

  // ---------------------------------------------------------------- POST

  /**
   * The JSON body of a POST; an absent field is `None`. `schoolId` and
   * `personType` count as missing when empty, `stage` when 0 (JavaScript
   * falsiness), and a `tasks` value that is not an array is `None`.
   */
  datatype PostBody = PostBody(
    schoolId: Option<string>,
    personType: Option<string>,
    stage: Option<int>,
    department: Option<string>,
    tasks: Option<seq<TaskUpdate>>)

  datatype PostResponse =
    | Forbidden(error: string)
    | BadRequest(error: string)
    | Saved(created: bool, updated: bool, message: string)
  {
    function StatusCode(): int {
      match this
      case Forbidden(_) => 403
      case BadRequest(_) => 400
      case Saved(_, _, _) => 200
    }
  }

  const UpdateAccessDenied := "Access denied. Only Visa department admins can update visa status."
  const SchoolIdRequired := "School ID is required"
  const PersonTypeAndStageRequired := "Person type and stage are required"
  const SchoolIdAdded := "School ID added successfully!"
  const RecordUpdated := "Visa record updated successfully!"

  /** `department?.toLowerCase() === "visa"`. */
  predicate IsVisaDepartment(department: Option<string>) {
    department.Some? && ToLowerCase(department.value) == "visa"
  }

  /** A string field that JavaScript treats as true: present and not empty. */
  predicate IsTruthy(s: Option<string>) {
    s.Some? && s.value != ""
  }

  /** A number field that JavaScript treats as true: present and not 0. */
  predicate IsTruthyNumber(n: Option<int>) {
    n.Some? && n.value != 0
  }

  /** The checks a request passes before the tables are touched. */
  predicate IsAccepted(body: PostBody) {
    IsVisaDepartment(body.department) && IsTruthy(body.schoolId)
    && IsTruthy(body.personType) && IsTruthyNumber(body.stage)
  }

  function UpdatesOf(body: PostBody): seq<TaskUpdate> {
    body.tasks.GetOr([])
  }

  /**
   * The POST handler as a function from the tables before to the tables after
   * and the response. The checks run in order -- department, then school ID,
   * then person type and stage -- and a rejected request changes nothing.
   */
  function PostStep(db: Tables, body: PostBody, now: Timestamp): (r: (Tables, PostResponse))
    ensures !IsVisaDepartment(body.department) ==> r == (db, Forbidden(UpdateAccessDenied))
    ensures IsVisaDepartment(body.department) && !IsTruthy(body.schoolId) ==>
              r == (db, BadRequest(SchoolIdRequired))
    ensures IsVisaDepartment(body.department) && IsTruthy(body.schoolId)
            && (!IsTruthy(body.personType) || !IsTruthyNumber(body.stage)) ==>
              r == (db, BadRequest(PersonTypeAndStageRequired))
    ensures r.1.Saved? <==> IsAccepted(body)
    ensures r.1.Saved? ==> r.1.created == (body.schoolId.value !in db.statuses) && r.1.updated == !r.1.created
    ensures r.1.Saved? ==> r.1.message == if r.1.created then SchoolIdAdded else RecordUpdated
  {
    if !IsVisaDepartment(body.department) then (db, Forbidden(UpdateAccessDenied))
    else if !IsTruthy(body.schoolId) then (db, BadRequest(SchoolIdRequired))
    else if !IsTruthy(body.personType) || !IsTruthyNumber(body.stage) then (db, BadRequest(PersonTypeAndStageRequired))
    else
      var id := body.schoolId.value;
      var existed := id in db.statuses;
      var statuses := db.statuses[id := StatusRecord(body.personType.value, body.stage.value, now)];
      var tasks := ApplyUpdates(Seeded(db.tasks, id), id, UpdatesOf(body), now);
      (Tables(statuses, tasks), Saved(!existed, existed, if existed then RecordUpdated else SchoolIdAdded))
  }

  /**
   * After an accepted request there is exactly one status record for the school ID,
   * holding the person type and stage just supplied, whether it was inserted or
   * updated, and every other status record is as it was.
   */
  lemma PostUpsertsStatus(db: Tables, body: PostBody, now: Timestamp)
    requires IsAccepted(body)
    ensures var after := PostStep(db, body, now).0;
            var id := body.schoolId.value;
            && after.statuses.Keys == db.statuses.Keys + {id}
            && after.statuses[id] == StatusRecord(body.personType.value, body.stage.value, now)
            && forall other | other in db.statuses && other != id :: after.statuses[other] == db.statuses[other]
  {
  }

  /** After an accepted request all 20 catalogue rows of the school ID exist, and no other row was added. */
  lemma PostSeedsCatalogue(db: Tables, body: PostBody, now: Timestamp)
    requires IsAccepted(body)
    ensures PostStep(db, body, now).0.tasks.Keys == db.tasks.Keys + CatalogueKeys(body.schoolId.value)
  {
    var id := body.schoolId.value;
    assert PostStep(db, body, now).0.tasks == ApplyUpdates(Seeded(db.tasks, id), id, UpdatesOf(body), now);
  }

  /**
   * The row of key `k` after an accepted request: the row the table had (or a fresh
   * seed row) when no update names it, otherwise the completion state of the last
   * update naming it, with `completed_at` set to now exactly when it is completed.
   */
  lemma PostTaskRow(db: Tables, body: PostBody, now: Timestamp, k: TaskKey)
    requires IsAccepted(body)
    requires k in db.tasks || k in CatalogueKeys(body.schoolId.value)
    ensures var id := body.schoolId.value;
            var seeded := if k in db.tasks then db.tasks[k] else SeedRow(k.stage, k.taskIndex);
            PostStep(db, body, now).0.tasks[k] ==
              match LastWrite(UpdatesOf(body), id, k)
              case None => seeded
              case Some(b) => CompletionRow(seeded.description, b, now)
  {
    var id := body.schoolId.value;
    ApplyUpdatesAt(Seeded(db.tasks, id), id, UpdatesOf(body), now, k);
  }

  /** A request leaves the rows and the status record of every other school ID as they were. */
  lemma PostLeavesOtherSchools(db: Tables, body: PostBody, now: Timestamp, k: TaskKey)
    requires k in db.tasks
    requires !IsAccepted(body) || k.schoolId != body.schoolId.value
    ensures k in PostStep(db, body, now).0.tasks && PostStep(db, body, now).0.tasks[k] == db.tasks[k]
    ensures var after := PostStep(db, body, now).0;
            forall other | other in db.statuses && (!IsAccepted(body) || other != body.schoolId.value) ::
              other in after.statuses && after.statuses[other] == db.statuses[other]
  {
    if IsAccepted(body) {
      var id := body.schoolId.value;
      ApplyUpdatesAt(Seeded(db.tasks, id), id, UpdatesOf(body), now, k);
      LastWriteOtherSchool(UpdatesOf(body), id, k);
    }
  }

  lemma {:induction false} LastWriteOtherSchool(us: seq<TaskUpdate>, id: string, k: TaskKey)
    requires k.schoolId != id
    ensures LastWrite(us, id, k) == None
    decreases |us|
  {
    if us != [] {
      LastWriteOtherSchool(us[..|us| - 1], id, k);
    }
  }

  /** An update naming a row that does not exist changes nothing, and the request still succeeds. */
  lemma PostIgnoresMissingTask(db: Tables, body: PostBody, now: Timestamp, u: TaskUpdate)
    requires IsAccepted(body)
    requires UpdateKey(body.schoolId.value, u) !in db.tasks && !IsCatalogueSlot(u.stage, u.taskIndex)
    ensures PostStep(db, body.(tasks := Some(UpdatesOf(body) + [u])), now) == PostStep(db, body, now)
  {
    var id := body.schoolId.value;
    var us := UpdatesOf(body);
    var longer := body.(tasks := Some(us + [u]));
    assert (us + [u])[..|us + [u]| - 1] == us;
    assert UpdatesOf(longer) == us + [u];
    assert UpdateKey(id, u) !in CatalogueKeys(id);
  }

  /** Sending the same accepted request again at the same time leaves the tables as the first one did. */
  lemma PostRetryIdempotent(db: Tables, body: PostBody, now: Timestamp)
    requires IsAccepted(body)
    ensures var once := PostStep(db, body, now).0;
            PostStep(once, body, now).0 == once
  {
    var id := body.schoolId.value;
    var us := UpdatesOf(body);
    var once := PostStep(db, body, now).0;
    PostSeedsCatalogue(db, body, now);
    assert Seeded(once.tasks, id) == once.tasks;
    ApplyUpdatesIdempotent(Seeded(db.tasks, id), id, us, now);
  }

  /** Both tables hold the same records and rows, apart from the times written into them. */
  predicate AgreeApartFromTime(a: Tables, b: Tables) {
    && a.statuses.Keys == b.statuses.Keys
    && (forall id | id in a.statuses ::
          a.statuses[id].personType == b.statuses[id].personType && a.statuses[id].stage == b.statuses[id].stage)
    && a.tasks.Keys == b.tasks.Keys
    && (forall k | k in a.tasks :: SameApartFromTime(a.tasks[k], b.tasks[k]))
  }

  /**
   * Resending a saved request at any other time is safe: the tables keep the
   * same records, rows and completion states, and only the status record's
   * `updated_at` and the completion times of the updated rows move.
   */
  lemma PostRetryLater(db: Tables, body: PostBody, first: Timestamp, later: Timestamp)
    requires IsAccepted(body)
    ensures var once := PostStep(db, body, first).0;
            var twice := PostStep(once, body, later).0;
            && AgreeApartFromTime(twice, once)
            && twice.statuses[body.schoolId.value].updatedAt == later
            && (forall other | other in once.statuses && other != body.schoolId.value :: twice.statuses[other] == once.statuses[other])
            && (forall k | k in once.tasks && LastWrite(UpdatesOf(body), body.schoolId.value, k).None? :: twice.tasks[k] == once.tasks[k])
  {
    var id := body.schoolId.value;
    var us := UpdatesOf(body);
    var once := PostStep(db, body, first).0;
    PostSeedsCatalogue(db, body, first);
    assert Seeded(once.tasks, id) == once.tasks;
    ApplyUpdatesRetryLater(Seeded(db.tasks, id), id, us, first, later);
  }

  /** Seeding adds only well-formed rows. */
  lemma SeededWellFormed(tasks: map<TaskKey, TaskRow>, id: string)
    requires forall k | k in tasks :: WellFormedRow(k, tasks[k])
    ensures var r := Seeded(tasks, id);
            forall k | k in r :: WellFormedRow(k, r[k])
  {
    var r := Seeded(tasks, id);
    forall k | k in r ensures WellFormedRow(k, r[k]) {
      if k !in tasks {
        assert k in CatalogueKeys(id);
      }
    }
  }

  /** The route keeps the tables well formed. */
  lemma PostPreservesWellFormed(db: Tables, body: PostBody, now: Timestamp)
    requires WellFormed(db)
    ensures WellFormed(PostStep(db, body, now).0)
  {
    if IsAccepted(body) {
      var id := body.schoolId.value;
      var after := PostStep(db, body, now).0;
      var seeded := Seeded(db.tasks, id);
      SeededWellFormed(db.tasks, id);
      ApplyUpdatesWellFormed(seeded, id, UpdatesOf(body), now);
      assert after.tasks == ApplyUpdates(seeded, id, UpdatesOf(body), now);
      assert after.tasks.Keys == db.tasks.Keys + CatalogueKeys(id);
      assert after.statuses.Keys == db.statuses.Keys + {id};
    }
  }

  // ---------------------------------------------------------------- GET

  datatype ListResponse = Denied(error: string) | Listing(statuses: map<string, StatusRecord>)

  const ViewAccessDenied := "Access denied. Only Visa department admins can view visa status."

  // ---------------------------------------------------------------- the database

  /** The two tables, updated in place by the route. */
  class VisaDatabase {
    var statuses: map<string, StatusRecord>
    var tasks: map<TaskKey, TaskRow>

    function Snapshot(): Tables
      reads this
    {
      Tables(statuses, tasks)
    }

    ghost predicate Valid()
      reads this
    {
      WellFormed(Snapshot())
    }

    /** Both tables start empty. */
    constructor ()
      ensures statuses == map[] && tasks == map[]
      ensures Valid()
    {
      statuses := map[];
      tasks := map[];
    }

    /** `POST /api/admin/visa`. */
    method Post(body: PostBody, now: Timestamp) returns (resp: PostResponse)
      modifies this
      ensures (Snapshot(), resp) == PostStep(old(Snapshot()), body, now)
      ensures old(Valid()) ==> Valid()
    {
      ghost var before := Snapshot();
      if WellFormed(before) {
        PostPreservesWellFormed(before, body, now);
      }
      if !IsVisaDepartment(body.department) {
        return Forbidden(UpdateAccessDenied);
      }
      if !IsTruthy(body.schoolId) {
        return BadRequest(SchoolIdRequired);
      }
      if !IsTruthy(body.personType) || !IsTruthyNumber(body.stage) {
        return BadRequest(PersonTypeAndStageRequired);
      }
      var id := body.schoolId.value;
      var existed := id in statuses;
      if existed {
        statuses := statuses[id := StatusRecord(body.personType.value, body.stage.value, now)];
      } else {
        statuses := statuses[id := StatusRecord(body.personType.value, body.stage.value, now)];
      }
      SeedTasks(id);
      if body.tasks.Some? {
        ApplyTaskUpdates(id, body.tasks.value, now);
      }
      resp := Saved(!existed, existed, if !existed then SchoolIdAdded else RecordUpdated);
    }

    /** The nested seeding loops: stages 1 to 4, each catalogue index, `INSERT IGNORE`. */
    method SeedTasks(id: string)
      modifies this
      ensures statuses == old(statuses)
      ensures tasks == Seeded(old(tasks), id)
    {
      ghost var before := tasks;
      var stageNum := 1;
      while stageNum <= 4
        invariant 1 <= stageNum <= 5
        invariant statuses == old(statuses)
        invariant SeededUpTo(before, tasks, id, stageNum, 0)
      {
        var stageTasks := StageTasks(stageNum);
        var taskIndex := 0;
        while taskIndex < |stageTasks|
          invariant 0 <= taskIndex <= |stageTasks| == 5
          invariant statuses == old(statuses)
          invariant SeededUpTo(before, tasks, id, stageNum, taskIndex)
        {
          InsertIgnoreStep(before, tasks, id, stageNum, taskIndex);
          var key := TaskKey(id, stageNum, taskIndex);
          if key !in tasks {
            assert stageTasks[taskIndex] == Description(stageNum, taskIndex);
            tasks := tasks[key := TaskRow(stageTasks[taskIndex], 0, None)];
          }
          taskIndex := taskIndex + 1;
        }
        assert forall x: TaskKey :: VisitedBefore(x, id, stageNum, 5) <==> VisitedBefore(x, id, stageNum + 1, 0);
        stageNum := stageNum + 1;
      }
      SeededUpToEnd(before, tasks, id);
    }

    /** The `for ... of tasks` loop: one `UPDATE` per entry, in list order. */
    method ApplyTaskUpdates(id: string, updates: seq<TaskUpdate>, now: Timestamp)
      modifies this
      ensures statuses == old(statuses)
      ensures tasks == ApplyUpdates(old(tasks), id, updates, now)
    {
      ghost var before := tasks;
      for i := 0 to |updates|
        invariant statuses == old(statuses)
        invariant tasks == ApplyUpdates(before, id, updates[..i], now)
      {
        var u := updates[i];
        assert updates[..i + 1][..i] == updates[..i];
        var key := TaskKey(id, u.stage, u.taskIndex);
        if key in tasks {
          tasks := tasks[key := CompletionRow(tasks[key].description, u.isCompleted, now)];
        }
      }
      assert updates[..|updates|] == updates;
    }

    /** `GET /api/admin/visa`: every status record, for visa administrators only. */
    method ListStatuses(department: Option<string>) returns (resp: ListResponse)
      ensures resp.Denied? <==> !IsVisaDepartment(department)
      ensures resp.Denied? ==> resp.error == ViewAccessDenied
      ensures resp.Listing? ==> resp.statuses == statuses
    {
      if !IsVisaDepartment(department) {
        return Denied(ViewAccessDenied);
      }
      return Listing(statuses);
    }
  }

}
