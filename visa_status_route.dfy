/**
 * The public read side of the visa tracker (app/api/visa-status/route.ts):
 * look up the status record of a school ID and return it with its task rows
 * grouped by stage, or 400 when no ID is given and 404 when there is no record.
 */
module VisaStatusRoute {
  import opened Wrappers
  import opened AdminVisaRoute

  /** A row of `SELECT stage, task_index, task_description, is_completed, completed_at FROM visa_tasks`. */
  datatype SelectedRow = SelectedRow(
    stage: int, taskIndex: int, description: string, isCompleted: int, completedAt: Option<Timestamp>)

  /** One entry of a `tasksByStage` bucket in the JSON response. */
  datatype TaskView = TaskView(taskIndex: int, description: string, isCompleted: bool, completedAt: Option<Timestamp>)

  /** `tasksByStage`: a bucket for each stage that has at least one row. */
  type TasksByStage = map<int, seq<TaskView>>

  function Select(k: TaskKey, row: TaskRow): SelectedRow {
    SelectedRow(k.stage, k.taskIndex, row.description, row.isCompleted, row.completedAt)
  }

  // ---------------------------------------------------------------- the query

  /** Catalogue slot `n`, numbered in `ORDER BY stage, task_index` order. */
  function SlotKey(id: string, n: int): TaskKey {
    TaskKey(id, n / 5 + 1, n % 5)
  }

  /** The position of a catalogue slot in that order. */
  function SlotNumber(stage: int, taskIndex: int): int {
    (stage - 1) * 5 + taskIndex
  }

  /** Rows sorted by stage, then by task index, with no key twice. */
  predicate OrderedByStageAndIndex(rows: seq<SelectedRow>) {
    forall i, j | 0 <= i < j < |rows| ::
      rows[i].stage < rows[j].stage || (rows[i].stage == rows[j].stage && rows[i].taskIndex < rows[j].taskIndex)
  }

  /** The rows of `id` held in catalogue slots `n` to 19, in slot order. */
  function RowsFrom(tasks: map<TaskKey, TaskRow>, id: string, n: nat): (rows: seq<SelectedRow>)
    ensures forall r | r in rows ::
              && IsCatalogueSlot(r.stage, r.taskIndex) && n <= SlotNumber(r.stage, r.taskIndex)
              && TaskKey(id, r.stage, r.taskIndex) in tasks
              && r == Select(TaskKey(id, r.stage, r.taskIndex), tasks[TaskKey(id, r.stage, r.taskIndex)])
    ensures OrderedByStageAndIndex(rows)
    decreases 20 - n
  {
    if n >= 20 then []
    else
      var k := SlotKey(id, n);
      var rest := RowsFrom(tasks, id, n + 1);
      if k in tasks then
        var rows := [Select(k, tasks[k])] + rest;
        assert forall j | 0 < j < |rows| :: rows[j] in rest;
        rows
      else rest
  }

  /**
   * `SELECT ... FROM visa_tasks WHERE school_id = ? ORDER BY stage, task_index`,
   * read from the 20 catalogue slots; the route only ever writes rows there
   * (`WellFormed`), so this is the query's whole result.
   */
  function SelectTasks(tasks: map<TaskKey, TaskRow>, id: string): seq<SelectedRow> {
    RowsFrom(tasks, id, 0)
  }

  lemma {:induction false} RowsFromComplete(tasks: map<TaskKey, TaskRow>, id: string, n: nat, k: TaskKey)
    requires k in tasks && k.schoolId == id && IsCatalogueSlot(k.stage, k.taskIndex)
    requires n <= SlotNumber(k.stage, k.taskIndex)
    ensures Select(k, tasks[k]) in RowsFrom(tasks, id, n)
    decreases 20 - n
  {
    if n < SlotNumber(k.stage, k.taskIndex) {
      RowsFromComplete(tasks, id, n + 1, k);
    } else {
      assert SlotKey(id, n) == k;
    }
  }

  /**
   * The query returns the rows of the school ID and no others, sorted by stage
   * and task index; on well-formed tables it returns every row of the school ID.
   */
  lemma SelectTasksIsQuery(db: Tables, id: string)
    ensures var rows := SelectTasks(db.tasks, id);
            && OrderedByStageAndIndex(rows)
            && (forall r | r in rows :: exists k | k in db.tasks :: k.schoolId == id && r == Select(k, db.tasks[k]))
            && (WellFormed(db) ==> forall k | k in db.tasks && k.schoolId == id :: Select(k, db.tasks[k]) in rows)
  {
    var rows := SelectTasks(db.tasks, id);
    forall r | r in rows ensures exists k | k in db.tasks :: k.schoolId == id && r == Select(k, db.tasks[k]) {
      var k := TaskKey(id, r.stage, r.taskIndex);
      assert k in db.tasks && r == Select(k, db.tasks[k]);
    }
    if WellFormed(db) {
      forall k | k in db.tasks && k.schoolId == id ensures Select(k, db.tasks[k]) in rows {
        RowsFromComplete(db.tasks, id, 0, k);
      }
    }
  }

  // ---------------------------------------------------------------- grouping

  /** The JSON shape of a row; `isCompleted` is `Boolean(is_completed)`. */
  function View(r: SelectedRow): TaskView {
    TaskView(r.taskIndex, r.description, r.isCompleted != 0, r.completedAt)
  }

  /**
   * The bucket of stage `s`: the views of exactly the rows of that stage, in
   * row order.
   */
  function Bucket(rows: seq<SelectedRow>, s: int): seq<TaskView>
    decreases |rows|
  {
    if rows == [] then []
    else Bucket(rows[..|rows| - 1], s) + (if rows[|rows| - 1].stage == s then [View(rows[|rows| - 1])] else [])
  }

  /** The bucket of stage `s` holds the view of every row of stage `s` and nothing else. */
  lemma {:induction false} BucketMembers(rows: seq<SelectedRow>, s: int)
    ensures forall r | r in rows && r.stage == s :: View(r) in Bucket(rows, s)
    ensures forall v | v in Bucket(rows, s) :: exists r | r in rows :: r.stage == s && View(r) == v
    decreases |rows|
  {
    if rows != [] {
      var init := rows[..|rows| - 1];
      BucketMembers(init, s);
      assert forall r | r in init :: r in rows;
      assert forall r | r in rows :: r in init || r == rows[|rows| - 1];
    }
  }

  function StagesOf(rows: seq<SelectedRow>): set<int> {
    set r | r in rows :: r.stage
  }

  /** `tasksByStage`: a bucket for each stage that occurs among the rows, and no other key. */
  function GroupedByStage(rows: seq<SelectedRow>): TasksByStage {
    map s | s in StagesOf(rows) :: Bucket(rows, s)
  }

  /**
   * The `forEach` that pushes each row into the bucket of its stage, creating the
   * bucket on first use: a stage has a key exactly when some row has that stage,
   * and its bucket is the views of that stage's rows in row order.
   */
  method GroupByStage(rows: seq<SelectedRow>) returns (byStage: TasksByStage)
    ensures forall s :: s in byStage <==> exists i :: 0 <= i < |rows| && rows[i].stage == s
    ensures forall s | s in byStage :: byStage[s] == Bucket(rows, s)
    ensures byStage == GroupedByStage(rows)
  {
    byStage := map[];
    var i := 0;
    while i < |rows|
      invariant 0 <= i <= |rows|
      invariant forall s :: s in byStage <==> exists j :: 0 <= j < i && rows[j].stage == s
      invariant forall s | s in byStage :: byStage[s] == Bucket(rows[..i], s)
    {
      var row := rows[i];
      assert rows[..i + 1][..i] == rows[..i];
      if row.stage !in byStage {
        BucketWithoutStage(rows[..i], row.stage);
        byStage := byStage[row.stage := []];
      }
      byStage := byStage[row.stage := byStage[row.stage] + [View(row)]];
      i := i + 1;
    }
    assert rows[..i] == rows;
    assert forall s :: s in StagesOf(rows) <==> exists j :: 0 <= j < |rows| && rows[j].stage == s;
  }

  /** A stage that no row has gets an empty bucket. */
  lemma {:induction false} BucketWithoutStage(rows: seq<SelectedRow>, s: int)
    requires forall j | 0 <= j < |rows| :: rows[j].stage != s
    ensures Bucket(rows, s) == []
    decreases |rows|
  {
    if rows != [] {
      BucketWithoutStage(rows[..|rows| - 1], s);
    }
  }

  /** The view of every row, in row order. */
  function Views(rows: seq<SelectedRow>): (vs: seq<TaskView>)
    ensures |vs| == |rows|
    decreases |rows|
  {
    if rows == [] then [] else Views(rows[..|rows| - 1]) + [View(rows[|rows| - 1])]
  }

  /**
   * Every row lands in the bucket of its own stage: when all stages are 1 to 4,
   * the four buckets together hold the views of all rows, each as often as it
   * occurs among the rows.
   */
  lemma {:induction false} BucketsPartitionRows(rows: seq<SelectedRow>)
    requires forall r | r in rows :: 1 <= r.stage <= 4
    ensures multiset(Bucket(rows, 1)) + multiset(Bucket(rows, 2)) + multiset(Bucket(rows, 3)) + multiset(Bucket(rows, 4))
            == multiset(Views(rows))
    ensures |Bucket(rows, 1)| + |Bucket(rows, 2)| + |Bucket(rows, 3)| + |Bucket(rows, 4)| == |rows|
    decreases |rows|
  {
    if rows != [] {
      var init := rows[..|rows| - 1];
      var last := rows[|rows| - 1];
      assert forall r | r in init :: r in rows;
      assert last in rows;
      BucketsPartitionRows(init);
      var v := multiset{View(last)};
      assert multiset(Views(rows)) == multiset(Views(init)) + v;
      BucketLastRow(rows, 1);
      BucketLastRow(rows, 2);
      BucketLastRow(rows, 3);
      BucketLastRow(rows, 4);
      AddedToOneBucket(
        multiset(Bucket(init, 1)), multiset(Bucket(init, 2)), multiset(Bucket(init, 3)), multiset(Bucket(init, 4)),
        multiset(Bucket(rows, 1)), multiset(Bucket(rows, 2)), multiset(Bucket(rows, 3)), multiset(Bucket(rows, 4)),
        v, last.stage);
    }
    assert |multiset(Views(rows))| == |rows|;
  }

  /** Adding `v` to exactly one of four bags adds it once to their sum. */
  lemma AddedToOneBucket(b1: multiset<TaskView>, b2: multiset<TaskView>, b3: multiset<TaskView>, b4: multiset<TaskView>,
                         a1: multiset<TaskView>, a2: multiset<TaskView>, a3: multiset<TaskView>, a4: multiset<TaskView>,
                         v: multiset<TaskView>, s: int)
    requires 1 <= s <= 4
    requires a1 == if s == 1 then b1 + v else b1
    requires a2 == if s == 2 then b2 + v else b2
    requires a3 == if s == 3 then b3 + v else b3
    requires a4 == if s == 4 then b4 + v else b4
    ensures a1 + a2 + a3 + a4 == b1 + b2 + b3 + b4 + v
  {
  }

  /** The last row adds its view to the bucket of its own stage and to no other. */
  lemma BucketLastRow(rows: seq<SelectedRow>, s: int)
    requires rows != []
    ensures var last := rows[|rows| - 1];
            && (last.stage == s ==> multiset(Bucket(rows, s)) == multiset(Bucket(rows[..|rows| - 1], s)) + multiset{View(last)})
            && (last.stage != s ==> Bucket(rows, s) == Bucket(rows[..|rows| - 1], s))
  {
  }

  lemma {:induction false} BucketBelow(rows: seq<SelectedRow>, s: int, bound: int)
    requires forall p | 0 <= p < |rows| && rows[p].stage == s :: rows[p].taskIndex < bound
    ensures forall v | v in Bucket(rows, s) :: v.taskIndex < bound
    decreases |rows|
  {
    if rows != [] {
      BucketBelow(rows[..|rows| - 1], s, bound);
    }
  }

  predicate IncreasingIndices(b: seq<TaskView>) {
    forall i, j | 0 <= i < j < |b| :: b[i].taskIndex < b[j].taskIndex
  }

  /** A bucket inherits the query's order: its task indices strictly increase. */
  lemma {:induction false} BucketOrdered(rows: seq<SelectedRow>, s: int)
    requires OrderedByStageAndIndex(rows)
    ensures IncreasingIndices(Bucket(rows, s))
    decreases |rows|
  {
    if rows != [] {
      var init := rows[..|rows| - 1];
      var last := rows[|rows| - 1];
      forall i, j | 0 <= i < j < |init|
        ensures init[i].stage < init[j].stage || (init[i].stage == init[j].stage && init[i].taskIndex < init[j].taskIndex)
      {
        assert init[i] == rows[i] && init[j] == rows[j];
      }
      BucketOrdered(init, s);
      var b := Bucket(init, s);
      if last.stage == s {
        forall p | 0 <= p < |init| && init[p].stage == s ensures init[p].taskIndex < last.taskIndex {
          assert init[p] == rows[p];
        }
        BucketBelow(init, s, last.taskIndex);
        var b' := b + [View(last)];
        assert Bucket(rows, s) == b';
        assert IncreasingIndices(b);
        forall i, j | 0 <= i < j < |b'| ensures b'[i].taskIndex < b'[j].taskIndex {
          assert b'[i] == b[i] && b[i] in b;
          if j < |b| {
            assert b'[j] == b[j];
          } else {
            assert b'[j] == View(last);
          }
        }
      } else {
        assert Bucket(rows, s) == b + [];
        assert b + [] == b;
      }
    }
  }

  // ---------------------------------------------------------------- GET

  datatype LookupResponse =
    | MissingSchoolId(error: string)
    | NotFound(error: string)
    | Found(schoolId: string, personType: string, stage: int, updatedAt: Timestamp, tasks: TasksByStage)
  {
    function StatusCode(): int {
      match this
      case MissingSchoolId(_) => 400
      case NotFound(_) => 404
      case Found(_, _, _, _, _) => 200
    }
  }

  const LookupSchoolIdRequired := "School ID is required"
  const NoRecordFound := "No record found for this School ID"

  /**
   * `GET /api/visa-status?school_id=...`: 400 without an ID, 404 when no status
   * record exists (never an empty success), otherwise the record's fields as
   * stored and its task rows grouped by stage: every bucket entry is a stored row
   * of that ID and stage, and on tables the route wrote every stored row of the
   * ID is in its stage's bucket. It writes nothing.
   */
  method Get(db: VisaDatabase, schoolId: Option<string>) returns (resp: LookupResponse)
    ensures resp.MissingSchoolId? <==> !IsTruthy(schoolId)
    ensures resp.MissingSchoolId? ==> resp.error == LookupSchoolIdRequired
    ensures resp.NotFound? <==> IsTruthy(schoolId) && schoolId.value !in db.statuses
    ensures resp.NotFound? ==> resp.error == NoRecordFound
    ensures resp.Found? ==>
              && schoolId.Some? && schoolId.value in db.statuses
              && var rec := db.statuses[schoolId.value];
              && resp == Found(schoolId.value, rec.personType, rec.stage, rec.updatedAt,
                               GroupedByStage(SelectTasks(db.tasks, schoolId.value)))
    ensures resp.Found? && db.Valid() ==>
              forall k | k in db.tasks && k.schoolId == resp.schoolId ::
                k.stage in resp.tasks && View(Select(k, db.tasks[k])) in resp.tasks[k.stage]
    ensures resp.Found? ==>
              forall s, v | s in resp.tasks && v in resp.tasks[s] ::
                exists k | k in db.tasks && k.schoolId == resp.schoolId && k.stage == s :: v == View(Select(k, db.tasks[k]))
  {
    if !IsTruthy(schoolId) {
      return MissingSchoolId(LookupSchoolIdRequired);
    }
    var id := schoolId.value;
    if id in db.statuses {
      var rec := db.statuses[id];
      var rows := SelectTasks(db.tasks, id);
      var tasksByStage := GroupByStage(rows);
      SelectTasksIsQuery(db.Snapshot(), id);
      forall k | k in db.tasks && k.schoolId == id && db.Valid()
        ensures k.stage in tasksByStage && View(Select(k, db.tasks[k])) in tasksByStage[k.stage]
      {
        assert Select(k, db.tasks[k]) in rows;
        BucketMembers(rows, k.stage);
      }
      forall st, v | st in tasksByStage && v in tasksByStage[st]
        ensures exists k | k in db.tasks && k.schoolId == id && k.stage == st :: v == View(Select(k, db.tasks[k]))
      {
        BucketMembers(rows, st);
        var r :| r in rows && r.stage == st && View(r) == v;
        var k := TaskKey(id, r.stage, r.taskIndex);
        assert k in db.tasks && r == Select(k, db.tasks[k]);
      }
      return Found(id, rec.personType, rec.stage, rec.updatedAt, tasksByStage);
    }
    return NotFound(NoRecordFound);
  }
}
