/**
 * The progress the public visa page derives from a lookup (app/visa/page.tsx):
 * per-stage counts and status, the overall completion percentage, the current
 * stage, and the case-insensitive search over the visa forms.
 */
module VisaProgress {
  import opened Wrappers
  import opened JsBuiltins
  import opened AdminVisaRoute
  import opened VisaStatusRoute

  // ---------------------------------------------------------------- one stage

  /** The bucket of `stage`, or no tasks when the lookup has no tasks or no such bucket. */
  function TasksForStage(stage: int, tasks: Option<TasksByStage>): seq<TaskView> {
    if tasks.Some? && stage in tasks.value then tasks.value[stage] else []
  }

  /**
   * Read from a lookup's grouping, a stage's tasks are that stage's bucket, the
   * views of its rows in row order; a stage without rows, or a lookup without
   * tasks, gives none.
   */
  lemma TasksForStageOfLookup(rows: seq<SelectedRow>, stage: int)
    ensures TasksForStage(stage, Some(GroupedByStage(rows))) == Bucket(rows, stage)
    ensures (forall j | 0 <= j < |rows| :: rows[j].stage != stage) ==> TasksForStage(stage, Some(GroupedByStage(rows))) == []
    ensures TasksForStage(stage, None) == []
  {
    if stage !in StagesOf(rows) {
      assert forall j | 0 <= j < |rows| :: rows[j].stage != stage by {
        forall j | 0 <= j < |rows| ensures rows[j].stage != stage {
          assert rows[j] in rows;
        }
      }
      BucketWithoutStage(rows, stage);
    }
  }

  predicate IsCompletedTask(t: TaskView) {
    t.isCompleted
  }

  /** The number of completed tasks. */
  function CountCompleted(ts: seq<TaskView>): (n: nat)
    ensures n <= |ts|
    decreases |ts|
  {
    if ts == [] then 0
    else CountCompleted(ts[..|ts| - 1]) + (if ts[|ts| - 1].isCompleted then 1 else 0)
  }

  /** The count is `tasks.filter(t => t.isCompleted).length`. */
  lemma {:induction false} CountIsFilterLength(ts: seq<TaskView>)
    ensures CountCompleted(ts) == |Filter(ts, IsCompletedTask)|
    decreases |ts|
  {
    if ts != [] {
      var init := ts[..|ts| - 1];
      var last := ts[|ts| - 1];
      CountIsFilterLength(init);
      assert init + [last] == ts;
      FilterConcat(init, [last], IsCompletedTask);
      assert Filter([last], IsCompletedTask) == if last.isCompleted then [last] else [];
    }
  }

  /** No completed task counts 0; all completed counts every task. */
  lemma {:induction false} CountCompletedMeaning(ts: seq<TaskView>)
    ensures CountCompleted(ts) == 0 <==> forall i | 0 <= i < |ts| :: !ts[i].isCompleted
    ensures CountCompleted(ts) == |ts| <==> forall i | 0 <= i < |ts| :: ts[i].isCompleted
    decreases |ts|
  {
    if ts != [] {
      var init := ts[..|ts| - 1];
      CountCompletedMeaning(init);
      assert forall i | 0 <= i < |init| :: init[i] == ts[i];
    }
  }

  datatype StageStats = StageStats(total: nat, completed: nat)

  /** How many tasks a stage has and how many of them are completed. */
  function GetStageStats(stage: int, tasks: Option<TasksByStage>): (st: StageStats)
    ensures st.completed <= st.total
    ensures (tasks.None? || stage !in tasks.value) ==> st == StageStats(0, 0)
  {
    var ts := TasksForStage(stage, tasks);
    StageStats(|ts|, CountCompleted(ts))
  }

  /** The counts of a stage say whether none or all of its tasks are completed. */
  lemma StageStatsMeaning(stage: int, tasks: Option<TasksByStage>)
    ensures var st := GetStageStats(stage, tasks);
            var ts := TasksForStage(stage, tasks);
            && st.total == |ts|
            && (st.completed == 0 <==> forall t | t in ts :: !t.isCompleted)
            && (st.completed == st.total <==> forall t | t in ts :: t.isCompleted)
  {
    var ts := TasksForStage(stage, tasks);
    CountCompletedMeaning(ts);
    assert forall t | t in ts :: exists i :: 0 <= i < |ts| && ts[i] == t;
  }

  predicate IsStageDone(stage: int, tasks: Option<TasksByStage>) {
    var st := GetStageStats(stage, tasks);
    st.total > 0 && st.completed == st.total
  }

  predicate IsStageInProgress(stage: int, tasks: Option<TasksByStage>) {
    var st := GetStageStats(stage, tasks);
    st.total > 0 && st.completed > 0 && st.completed < st.total
  }

  /** `isStageDone` holds when the stage has tasks and all are completed; `isStageInProgress` when some but not all are. */
  lemma StagePredicatesMeaning(stage: int, tasks: Option<TasksByStage>)
    ensures var ts := TasksForStage(stage, tasks);
            && (IsStageDone(stage, tasks) <==> ts != [] && forall t | t in ts :: t.isCompleted)
            && (IsStageInProgress(stage, tasks) <==>
                  (exists t | t in ts :: t.isCompleted) && (exists t | t in ts :: !t.isCompleted))
  {
    var ts := TasksForStage(stage, tasks);
    StageStatsMeaning(stage, tasks);
    assert ts != [] ==> ts[0] in ts;
  }

  datatype StageState = Done | InProgress | Pending

  /**
   * A stage is done when it has tasks and all are completed, in progress when
   * some but not all are completed, and pending when none is (an empty stage
   * included).
   */
  function StageStatus(stage: int, tasks: Option<TasksByStage>): (state: StageState)
    ensures var ts := TasksForStage(stage, tasks);
            && (state == Done <==> ts != [] && forall t | t in ts :: t.isCompleted)
            && (state == InProgress <==> (exists t | t in ts :: t.isCompleted) && (exists t | t in ts :: !t.isCompleted))
            && (state == Pending <==> forall t | t in ts :: !t.isCompleted)
  {
    var ts := TasksForStage(stage, tasks);
    StageStatsMeaning(stage, tasks);
    assert ts != [] ==> ts[0] in ts;
    if IsStageDone(stage, tasks) then Done
    else if IsStageInProgress(stage, tasks) then InProgress
    else Pending
  }

  /** A stage without tasks is never done; its status is pending. */
  lemma EmptyStageIsPending(stage: int, tasks: Option<TasksByStage>)
    requires TasksForStage(stage, tasks) == []
    ensures !IsStageDone(stage, tasks)
    ensures StageStatus(stage, tasks) == Pending
  {
  }

  // ---------------------------------------------------------------- overall progress

  /** Tasks in stages 1 to `n`, counting a missing bucket as none. */
  function TotalThrough(tasks: TasksByStage, n: int): nat
    decreases n
  {
    if n <= 0 then 0 else TotalThrough(tasks, n - 1) + |TasksForStage(n, Some(tasks))|
  }

  /** Completed tasks in stages 1 to `n`; never more than all of them. */
  function CompletedThrough(tasks: TasksByStage, n: int): (c: nat)
    ensures c <= TotalThrough(tasks, n)
    decreases n
  {
    if n <= 0 then 0 else CompletedThrough(tasks, n - 1) + CountCompleted(TasksForStage(n, Some(tasks)))
  }

  /** `Math.round(completed / total * 100)`, as the nearest integer with halves rounded up. */
  function RoundedPercent(completed: nat, total: nat): (r: int)
    requires total > 0
    ensures (2 * r - 1) * total <= 200 * completed < (2 * r + 1) * total
    ensures completed <= total ==> 0 <= r <= 100
  {
    RoundedPercentFacts(completed, total);
    (200 * completed + total) / (2 * total)
  }

  lemma RoundedPercentFacts(completed: nat, total: nat)
    requires total > 0
    ensures var r := (200 * completed + total) / (2 * total);
            && (2 * r - 1) * total <= 200 * completed < (2 * r + 1) * total
            && (completed <= total ==> 0 <= r <= 100)
  {
    var a := 200 * completed + total;
    var b := 2 * total;
    var q := a / b;
    var m := a % b;
    assert a == b * q + m && 0 <= m < b;
    assert (2 * q - 1) * total == b * q - total;
    assert (2 * q + 1) * total == b * q + total;
    if completed <= total {
      assert (2 * q - 1) * total <= 200 * total;
      MulCancel(2 * q - 1, 200, total);
    }
  }

  /** Dividing both sides of `x * t <= y * t` by a positive `t`. */
  lemma MulCancel(x: int, y: int, t: int)
    requires t > 0 && x * t <= y * t
    ensures x <= y
  {
  }

  /**
   * The completion percentage shown on the page: 0 without tasks or without
   * any task in stages 1 to 4, otherwise completed over total in stages 1 to 4,
   * rounded to the nearest percent.
   */
  function ProgressPercent(tasks: Option<TasksByStage>): (p: int)
    ensures 0 <= p <= 100
    ensures tasks.None? ==> p == 0
    ensures tasks.Some? && TotalThrough(tasks.value, 4) == 0 ==> p == 0
    ensures tasks.Some? && TotalThrough(tasks.value, 4) > 0 ==>
              var t := TotalThrough(tasks.value, 4);
              (2 * p - 1) * t <= 200 * CompletedThrough(tasks.value, 4) < (2 * p + 1) * t
  {
    if tasks.None? then 0
    else
      var t := TotalThrough(tasks.value, 4);
      if t == 0 then 0 else RoundedPercent(CompletedThrough(tasks.value, 4), t)
  }

  /** `getProgressPercentage`: its `phase` argument plays no part in the result. */
  method GetProgressPercentage(phase: int, tasks: Option<TasksByStage>) returns (p: int)
    ensures p == ProgressPercent(tasks)
    ensures 0 <= p <= 100
  {
    if tasks.None? {
      return 0;
    }
    var byStage := tasks.value;
    var totalTasks := 0;
    var completedTasks := 0;
    var phaseNum := 1;
    while phaseNum <= 4
      invariant 1 <= phaseNum <= 5
      invariant totalTasks == TotalThrough(byStage, phaseNum - 1)
      invariant completedTasks == CompletedThrough(byStage, phaseNum - 1)
    {
      if phaseNum in byStage {
        totalTasks := totalTasks + |byStage[phaseNum]|;
        completedTasks := completedTasks + CountCompleted(byStage[phaseNum]);
      }
      phaseNum := phaseNum + 1;
    }
    if totalTasks == 0 {
      return 0;
    }
    p := RoundedPercent(completedTasks, totalTasks);
  }

  // ---------------------------------------------------------------- current stage

  /** The first stage from `from` on that is not done, or 4. */
  function FirstNotDoneFrom(from: int, tasks: Option<TasksByStage>): (r: int)
    requires 1 <= from <= 4
    ensures from <= r <= 4
    ensures forall s | from <= s < r :: IsStageDone(s, tasks)
    ensures r < 4 ==> !IsStageDone(r, tasks)
    decreases 4 - from
  {
    if !IsStageDone(from, tasks) || from == 4 then from else FirstNotDoneFrom(from + 1, tasks)
  }

  /**
   * The current stage: the least stage of 1 to 3 that is not done, every
   * earlier one being done, or 4 when stages 1 to 3 are all done.
   */
  function CurrentStage(tasks: Option<TasksByStage>): (r: int)
    ensures 1 <= r <= 4
    ensures forall s | 1 <= s < r :: IsStageDone(s, tasks)
    ensures r < 4 ==> !IsStageDone(r, tasks)
  {
    FirstNotDoneFrom(1, tasks)
  }

  /** `getCurrentStage`: the loop over stages 1 to 4 with an early return. */
  method GetCurrentStage(tasks: Option<TasksByStage>) returns (r: int)
    ensures 1 <= r <= 4
    ensures forall s | 1 <= s < r :: IsStageDone(s, tasks)
    ensures r < 4 ==> !IsStageDone(r, tasks)
    ensures r == CurrentStage(tasks)
  {
    for stage := 1 to 5
      invariant forall s | 1 <= s < stage :: IsStageDone(s, tasks)
    {
      if !IsStageDone(stage, tasks) {
        CurrentStageIsLeastNotDone(tasks, stage);
        return stage;
      }
    }
    CurrentStageIsLeastNotDone(tasks, 4);
    return 4;
  }

  /** The three properties of the current stage pin it down. */
  lemma CurrentStageIsLeastNotDone(tasks: Option<TasksByStage>, r: int)
    requires 1 <= r <= 4
    requires forall s | 1 <= s < r :: IsStageDone(s, tasks)
    requires r < 4 ==> !IsStageDone(r, tasks)
    ensures r == CurrentStage(tasks)
  {
    var c := CurrentStage(tasks);
    assert c < r ==> IsStageDone(c, tasks);
    assert r < c ==> IsStageDone(r, tasks);
  }

  // ---------------------------------------------------------------- properties

  /** Buckets of stages outside 1 to 4 change neither the percentage nor the current stage. */
  lemma {:induction false} IgnoresOtherStages(a: TasksByStage, b: TasksByStage)
    requires forall s | 1 <= s <= 4 :: (s in a <==> s in b) && (s in a ==> a[s] == b[s])
    ensures ProgressPercent(Some(a)) == ProgressPercent(Some(b))
    ensures CurrentStage(Some(a)) == CurrentStage(Some(b))
  {
    TotalsAgree(a, b, 4);
    assert forall s | 1 <= s <= 4 :: IsStageDone(s, Some(a)) == IsStageDone(s, Some(b)) by {
      forall s | 1 <= s <= 4 ensures IsStageDone(s, Some(a)) == IsStageDone(s, Some(b)) {
        assert TasksForStage(s, Some(a)) == TasksForStage(s, Some(b));
      }
    }
    CurrentStageIsLeastNotDone(Some(b), CurrentStage(Some(a)));
  }

  lemma {:induction false} TotalsAgree(a: TasksByStage, b: TasksByStage, n: int)
    requires n <= 4
    requires forall s | 1 <= s <= 4 :: (s in a <==> s in b) && (s in a ==> a[s] == b[s])
    ensures TotalThrough(a, n) == TotalThrough(b, n)
    ensures CompletedThrough(a, n) == CompletedThrough(b, n)
    decreases n
  {
    if n > 0 {
      TotalsAgree(a, b, n - 1);
      var ts := TasksForStage(n, Some(a));
      assert ts == TasksForStage(n, Some(b));
      assert TotalThrough(a, n) == TotalThrough(a, n - 1) + |ts|;
      assert TotalThrough(b, n) == TotalThrough(b, n - 1) + |ts|;
      assert CompletedThrough(a, n) == CompletedThrough(a, n - 1) + CountCompleted(ts);
      assert CompletedThrough(b, n) == CompletedThrough(b, n - 1) + CountCompleted(ts);
    } else {
      assert TotalThrough(a, n) == 0 == TotalThrough(b, n);
      assert CompletedThrough(a, n) == 0 == CompletedThrough(b, n);
    }
  }

  /** Every stage 1 to 4 has tasks and all of them are completed. */
  predicate AllStagesComplete(tasks: TasksByStage) {
    forall s | 1 <= s <= 4 :: s in tasks && tasks[s] != [] && forall t | t in tasks[s] :: t.isCompleted
  }

  lemma {:induction false} CompletedEqualsTotal(tasks: TasksByStage, n: int)
    requires forall s | 1 <= s <= n :: 0 < |TasksForStage(s, Some(tasks))| == CountCompleted(TasksForStage(s, Some(tasks)))
    ensures CompletedThrough(tasks, n) == TotalThrough(tasks, n)
    ensures n >= 1 ==> TotalThrough(tasks, n) > 0
    decreases n
  {
    if n > 0 {
      CompletedEqualsTotal(tasks, n - 1);
      var ts := TasksForStage(n, Some(tasks));
      assert TotalThrough(tasks, n) == TotalThrough(tasks, n - 1) + |ts|;
      assert CompletedThrough(tasks, n) == CompletedThrough(tasks, n - 1) + CountCompleted(ts);
      assert 0 < |ts| == CountCompleted(ts);
    } else {
      assert CompletedThrough(tasks, n) == 0 == TotalThrough(tasks, n);
    }
  }

  lemma AllCompletedCountsAll(ts: seq<TaskView>)
    requires ts != [] && forall t | t in ts :: t.isCompleted
    ensures CountCompleted(ts) == |ts| > 0
  {
    assert forall i | 0 <= i < |ts| :: ts[i] in ts;
    CountCompletedMeaning(ts);
  }

  /** With every task of stages 1 to 4 completed the page shows 100% and stage 4. */
  lemma AllCompleteShowsFullProgress(tasks: TasksByStage)
    requires AllStagesComplete(tasks)
    ensures ProgressPercent(Some(tasks)) == 100
    ensures CurrentStage(Some(tasks)) == 4
  {
    forall s | 1 <= s <= 4
      ensures 0 < |TasksForStage(s, Some(tasks))| == CountCompleted(TasksForStage(s, Some(tasks)))
    {
      AllCompletedCountsAll(tasks[s]);
    }
    CompletedEqualsTotal(tasks, 4);
    var t := TotalThrough(tasks, 4);
    var p := ProgressPercent(Some(tasks));
    assert (2 * p - 1) * t <= 200 * t < (2 * p + 1) * t;
    MulCancel(2 * p - 1, 200, t);
    MulCancel(200, 2 * p + 1, t);
    assert forall s | 1 <= s <= 4 :: IsStageDone(s, Some(tasks)) by {
      forall s | 1 <= s <= 4 ensures IsStageDone(s, Some(tasks)) {
        StageStatsMeaning(s, Some(tasks));
      }
    }
  }

  /**
   * On well-formed tables, a school ID whose task rows are all completed gets a
   * lookup on which every stage is complete, so the page shows 100% and stage 4.
   */
  lemma SeededAllCompleteLookup(db: Tables, id: string)
    requires WellFormed(db) && id in db.statuses
    requires forall k | k in db.tasks && k.schoolId == id :: db.tasks[k].isCompleted != 0
    ensures AllStagesComplete(GroupedByStage(SelectTasks(db.tasks, id)))
    ensures ProgressPercent(Some(GroupedByStage(SelectTasks(db.tasks, id)))) == 100
    ensures CurrentStage(Some(GroupedByStage(SelectTasks(db.tasks, id)))) == 4
  {
    assert CatalogueKeys(id) <= db.tasks.Keys;
    CompleteRowsGroupComplete(db.tasks, id);
    AllCompleteShowsFullProgress(GroupedByStage(SelectTasks(db.tasks, id)));
  }

  lemma CompleteRowsGroupComplete(tasks: map<TaskKey, TaskRow>, id: string)
    requires CatalogueKeys(id) <= tasks.Keys
    requires forall k | k in tasks && k.schoolId == id :: tasks[k].isCompleted != 0
    ensures AllStagesComplete(GroupedByStage(SelectTasks(tasks, id)))
  {
    var rows := SelectTasks(tasks, id);
    assert forall r | r in rows :: r.isCompleted != 0;
    forall s | 1 <= s <= 4 ensures s in StagesOf(rows) && Bucket(rows, s) != [] {
      var k := TaskKey(id, s, 0);
      assert k in CatalogueKeys(id);
      RowsFromComplete(tasks, id, 0, k);
      BucketMembers(rows, s);
      assert View(Select(k, tasks[k])) in Bucket(rows, s);
    }
    forall s | 1 <= s <= 4 ensures forall t: TaskView | t in Bucket(rows, s) :: t.isCompleted {
      BucketMembers(rows, s);
    }
  }

  /**
   * The stage an administrator assigns and the stage the page shows are
   * independent: a new student ID saved at stage 3 has only fresh, uncompleted
   * rows, so its lookup shows stage 1.
   */
  lemma AssignedStageIsNotShownStage(db: Tables, id: string, department: Option<string>, now: Timestamp)
    requires WellFormed(db) && id != "" && id !in db.statuses && IsVisaDepartment(department)
    ensures var body := PostBody(Some(id), Some("student"), Some(3), department, None);
            var after := PostStep(db, body, now).0;
            && after.statuses[id].stage == 3
            && CurrentStage(Some(GroupedByStage(SelectTasks(after.tasks, id)))) == 1
  {
    var body := PostBody(Some(id), Some("student"), Some(3), department, None);
    var after := PostStep(db, body, now).0;
    PostUpsertsStatus(db, body, now);
    assert after.tasks == Seeded(db.tasks, id);
    assert forall k | k in after.tasks && k.schoolId == id :: after.tasks[k].isCompleted == 0;
    FreshRowsShowStageOne(after.tasks, id);
  }

  /** A school ID whose 20 catalogue rows are all uncompleted is shown at stage 1. */
  lemma FreshRowsShowStageOne(tasks: map<TaskKey, TaskRow>, id: string)
    requires CatalogueKeys(id) <= tasks.Keys
    requires forall k | k in tasks && k.schoolId == id :: tasks[k].isCompleted == 0
    ensures CurrentStage(Some(GroupedByStage(SelectTasks(tasks, id)))) == 1
  {
    var rows := SelectTasks(tasks, id);
    var lookup := Some(GroupedByStage(rows));
    var k := TaskKey(id, 1, 0);
    assert k in CatalogueKeys(id);
    RowsFromComplete(tasks, id, 0, k);
    BucketMembers(rows, 1);
    assert View(Select(k, tasks[k])) in Bucket(rows, 1);
    assert 1 in StagesOf(rows);
    var ts := TasksForStage(1, lookup);
    assert ts == Bucket(rows, 1);
    assert forall t | t in ts :: !t.isCompleted;
    StagePredicatesMeaning(1, lookup);
    assert !IsStageDone(1, lookup);
  }

  // ---------------------------------------------------------------- search

  /** A visa form as listed by the forms endpoint. */
  datatype FormFile = FormFile(
    id: int, title: string, description: string, fileName: string,
    department: string, uploadDate: string, fileSize: int)

  /** The title or the description contains the term, both lowercased. */
  predicate MatchesSearch(file: FormFile, term: string) {
    || Includes(ToLowerCase(file.title), ToLowerCase(term))
    || Includes(ToLowerCase(file.description), ToLowerCase(term))
  }

  /** The files shown for a search term: the matching ones, in their original order. */
  function FilterFiles(files: seq<FormFile>, term: string): (shown: seq<FormFile>)
    ensures forall f | f in shown :: f in files && MatchesSearch(f, term)
    ensures forall f | f in files && MatchesSearch(f, term) :: f in shown
    ensures IsSubsequence(shown, files)
    ensures forall f | f in files :: multiset(shown)[f] == if MatchesSearch(f, term) then multiset(files)[f] else 0
  {
    FilterCounts(files, (f: FormFile) => MatchesSearch(f, term));
    Filter(files, (f: FormFile) => MatchesSearch(f, term))
  }

  /** An empty search term shows every file. */
  lemma EmptyTermShowsAll(files: seq<FormFile>)
    ensures FilterFiles(files, "") == files
  {
    assert ToLowerCase("") == "";
    forall i | 0 <= i < |files| ensures MatchesSearch(files[i], "") {
      IncludesEmpty(ToLowerCase(files[i].title));
    }
    FilterKeepsAll(files, f => MatchesSearch(f, ""));
  }
}
