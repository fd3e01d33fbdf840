/**
 * The requests the admin panel sends to the visa route (app/admin-panel/page.tsx):
 * the status form, a single task toggle and the check-all button, together with
 * the checks on a selected upload and the accordion's section flags.
 */
module AdminPanel {
  import opened Wrappers
  import opened JsBuiltins
  import opened AdminVisaRoute
  import opened VisaStatusRoute

  /** A request the panel either refuses with a message or sends as a POST body. */
  datatype Outcome = Refused(message: string) | Send(body: PostBody)

  const PanelAccessDenied := "Access denied. Only Visa department admins can update."
  const EnterSchoolId := "Please enter a school ID."
  const SelectPersonType := "Please select a person type"
  const SelectStage := "Please select a stage"
  const SelectSchoolFirst := "Please select a school ID first."
  const NoTasksForStage := "No tasks available for this stage."

  // ---------------------------------------------------------------- status form

  /** The status form's three inputs, as typed or selected. */
  datatype VisaForm = VisaForm(schoolId: string, personType: string, stage: string)

  /**
   * `handleVisaUpdate`. `department` is the logged-in admin's department (`None`
   * without one) and `loaded` the tasks last fetched for the form's school ID;
   * no loaded stage means the ID is new. A new ID needs a person type and gets
   * stage 1 for a parent and 3 otherwise; a known ID needs a stage, which is
   * sent parsed and without a person type.
   */
  method HandleVisaUpdate(department: Option<string>, form: VisaForm, loaded: TasksByStage) returns (out: Outcome)
    ensures !IsVisaDepartment(department) ==> out == Refused(PanelAccessDenied)
    ensures IsVisaDepartment(department) && IsBlank(form.schoolId) ==> out == Refused(EnterSchoolId)
    ensures IsVisaDepartment(department) && !IsBlank(form.schoolId) && |loaded| == 0 && form.personType == "" ==>
              out == Refused(SelectPersonType)
    ensures IsVisaDepartment(department) && !IsBlank(form.schoolId) && |loaded| != 0 && form.stage == "" ==>
              out == Refused(SelectStage)
    ensures out.Send? ==>
              && IsVisaDepartment(department) && !IsBlank(form.schoolId)
              && out.body.schoolId == Some(Trim(form.schoolId)) && IsTruthy(out.body.schoolId)
              && out.body.department == department
              && out.body.tasks.None?
    ensures out.Send? && |loaded| == 0 ==>
              && out.body.personType == Some(form.personType) && IsTruthy(out.body.personType)
              && out.body.stage == Some(if form.personType == "parent" then 1 else 3)
    ensures out.Send? && |loaded| != 0 ==>
              out.body.personType.None? && out.body.stage == ParseInt(form.stage)
    ensures out.Refused? <==>
              || !IsVisaDepartment(department) || IsBlank(form.schoolId)
              || (|loaded| == 0 && form.personType == "")
              || (|loaded| != 0 && form.stage == "")
  {
    if !IsVisaDepartment(department) {
      return Refused(PanelAccessDenied);
    }
    TrimEmptyIffBlank(form.schoolId);
    if Trim(form.schoolId) == "" {
      return Refused(EnterSchoolId);
    }
    var requestBody := PostBody(Some(Trim(form.schoolId)), None, None, department, None);
    if |loaded| == 0 {
      if form.personType == "" {
        return Refused(SelectPersonType);
      }
      requestBody := requestBody.(personType := Some(form.personType));
      requestBody := requestBody.(stage := Some(if form.personType == "parent" then 1 else 3));
    } else {
      if form.stage == "" {
        return Refused(SelectStage);
      }
      requestBody := requestBody.(stage := ParseInt(form.stage));
    }
    return Send(requestBody);
  }

  /**
   * A body without a person type -- what the form sends for a known school ID --
   * is never saved: the route answers 403 or 400 and the tables stay as they were.
   */
  lemma RequestWithoutPersonTypeRejected(db: Tables, body: PostBody, now: Timestamp)
    requires body.personType.None?
    ensures PostStep(db, body, now).0 == db
    ensures PostStep(db, body, now).1.StatusCode() in {400, 403}
  {
  }

  /**
   * The form's request for a new school ID is saved and leaves a status record
   * with the person type and the assigned stage: 1 for a parent, 3 otherwise.
   */
  lemma NewSchoolIdStartsAtAssignedStage(db: Tables, department: Option<string>, form: VisaForm, now: Timestamp)
    requires IsVisaDepartment(department) && !IsBlank(form.schoolId) && form.personType != ""
    ensures var stage := if form.personType == "parent" then 1 else 3;
            var body := PostBody(Some(Trim(form.schoolId)), Some(form.personType), Some(stage), department, None);
            var r := PostStep(db, body, now);
            && r.1.Saved?
            && r.0.statuses[Trim(form.schoolId)] == StatusRecord(form.personType, stage, now)
  {
    TrimEmptyIffBlank(form.schoolId);
    var stage := if form.personType == "parent" then 1 else 3;
    PostUpsertsStatus(db, PostBody(Some(Trim(form.schoolId)), Some(form.personType), Some(stage), department, None), now);
  }

  // ---------------------------------------------------------------- task buttons

  /**
   * `handleTaskToggle`: the selected school ID is required; the request always
   * names person type "student" and the toggled stage, and carries the one toggle.
   */
  function TaskToggleRequest(selected: string, department: Option<string>, stage: int, taskIndex: int, isCompleted: bool): (out: Outcome)
    ensures out.Refused? <==> IsBlank(selected)
    ensures out.Refused? ==> out.message == SelectSchoolFirst
    ensures out.Send? ==>
              && out.body.schoolId == Some(Trim(selected)) && IsTruthy(out.body.schoolId)
              && out.body.personType == Some("student")
              && out.body.stage == Some(stage)
              && out.body.department == department
              && out.body.tasks == Some([TaskUpdate(stage, taskIndex, isCompleted)])
  {
    TrimEmptyIffBlank(selected);
    if Trim(selected) == "" then Refused(SelectSchoolFirst)
    else Send(PostBody(Some(Trim(selected)), Some("student"), Some(stage), department,
                       Some([TaskUpdate(stage, taskIndex, isCompleted)])))
  }

  /**
   * A toggle that the route accepts overwrites the record's person type with
   * "student" and its stage with the toggled stage, and sets the toggled row's
   * completion, with `completed_at` now exactly when it is completed.
   */
  lemma ToggleOverwritesStatus(db: Tables, selected: string, department: Option<string>,
                               stage: int, taskIndex: int, isCompleted: bool, now: Timestamp)
    requires IsVisaDepartment(department) && !IsBlank(selected) && stage != 0
    ensures var out := TaskToggleRequest(selected, department, stage, taskIndex, isCompleted);
            var after := PostStep(db, out.body, now).0;
            var k := TaskKey(Trim(selected), stage, taskIndex);
            && out.Send?
            && after.statuses[Trim(selected)] == StatusRecord("student", stage, now)
            && (k in db.tasks || IsCatalogueSlot(stage, taskIndex) ==>
                  && k in after.tasks
                  && after.tasks[k].isCompleted == (if isCompleted then 1 else 0)
                  && after.tasks[k].completedAt == (if isCompleted then Some(now) else None))
  {
    var out := TaskToggleRequest(selected, department, stage, taskIndex, isCompleted);
    var id := Trim(selected);
    var k := TaskKey(id, stage, taskIndex);
    PostUpsertsStatus(db, out.body, now);
    if k in db.tasks || IsCatalogueSlot(stage, taskIndex) {
      assert k in db.tasks || k in CatalogueKeys(id);
      PostSeedsCatalogue(db, out.body, now);
      PostTaskRow(db, out.body, now, k);
      assert LastWrite(UpdatesOf(out.body), id, k) == Some(isCompleted);
    }
  }

  /**
   * `handleCheckAllTasks`: the selected school ID is required, then a non-empty
   * loaded bucket for the stage; the request has one update per loaded task, in
   * bucket order, each naming that task's index and the one completion flag.
   */
  function CheckAllRequest(selected: string, department: Option<string>, loaded: TasksByStage, stage: int, checkAll: bool): (out: Outcome)
    ensures IsBlank(selected) ==> out == Refused(SelectSchoolFirst)
    ensures !IsBlank(selected) && (stage !in loaded || loaded[stage] == []) ==> out == Refused(NoTasksForStage)
    ensures out.Send? <==> !IsBlank(selected) && stage in loaded && loaded[stage] != []
    ensures out.Send? ==>
              && out.body.schoolId == Some(Trim(selected)) && IsTruthy(out.body.schoolId)
              && out.body.personType == Some("student")
              && out.body.stage == Some(stage)
              && out.body.department == department
              && out.body.tasks.Some?
              && |out.body.tasks.value| == |loaded[stage]|
              && forall i | 0 <= i < |loaded[stage]| ::
                   out.body.tasks.value[i] == TaskUpdate(stage, loaded[stage][i].taskIndex, checkAll)
  {
    TrimEmptyIffBlank(selected);
    if Trim(selected) == "" then Refused(SelectSchoolFirst)
    else if stage !in loaded || |loaded[stage]| == 0 then Refused(NoTasksForStage)
    else
      var bucket := loaded[stage];
      var updates := seq(|bucket|, i requires 0 <= i < |bucket| => TaskUpdate(stage, bucket[i].taskIndex, checkAll));
      Send(PostBody(Some(Trim(selected)), Some("student"), Some(stage), department, Some(updates)))
  }

  /** Updates that all carry the same flag leave that flag on every row one of them names. */
  lemma {:induction false} LastWriteUniform(us: seq<TaskUpdate>, id: string, k: TaskKey, b: bool, j: int)
    requires 0 <= j < |us| && UpdateKey(id, us[j]) == k
    requires forall i | 0 <= i < |us| :: us[i].isCompleted == b
    ensures LastWrite(us, id, k) == Some(b)
    decreases |us|
  {
    if UpdateKey(id, us[|us| - 1]) != k {
      var init := us[..|us| - 1];
      assert init[j] == us[j];
      LastWriteUniform(init, id, k, b, j);
    }
  }

  /**
   * With a school ID selected and a task loaded for the stage, the check-all
   * request is sent, and once the route saves it every loaded task of the stage
   * whose row exists has the chosen completion state.
   */
  lemma CheckAllSetsEveryLoadedTask(db: Tables, selected: string, department: Option<string>,
                                    loaded: TasksByStage, stage: int, checkAll: bool, now: Timestamp, i: int)
    requires IsVisaDepartment(department) && stage != 0
    requires !IsBlank(selected) && stage in loaded
    requires 0 <= i < |loaded[stage]|
    ensures CheckAllRequest(selected, department, loaded, stage, checkAll).Send?
    ensures var body := CheckAllRequest(selected, department, loaded, stage, checkAll).body;
            var after := PostStep(db, body, now).0;
            var k := TaskKey(Trim(selected), stage, loaded[stage][i].taskIndex);
            k in db.tasks || IsCatalogueSlot(k.stage, k.taskIndex) ==>
              && k in after.tasks
              && after.tasks[k].isCompleted == (if checkAll then 1 else 0)
  {
    var body := CheckAllRequest(selected, department, loaded, stage, checkAll).body;
    var id := Trim(selected);
    var k := TaskKey(id, stage, loaded[stage][i].taskIndex);
    var us := UpdatesOf(body);
    if k in db.tasks || IsCatalogueSlot(k.stage, k.taskIndex) {
      assert k in db.tasks || k in CatalogueKeys(id);
      PostSeedsCatalogue(db, body, now);
      PostTaskRow(db, body, now, k);
      assert UpdateKey(id, us[i]) == k;
      LastWriteUniform(us, id, k, checkAll, i);
    }
  }

  // ---------------------------------------------------------------- upload checks

  /** A file picked in the upload input: its name, MIME type and size in bytes. */
  datatype Upload = Upload(name: string, mimeType: string, size: int)

  datatype FileCheck = NoFile | WrongType(message: string) | TooLarge(message: string) | Ready(file: Upload)

  const AllowedTypes: seq<string> := [
    "application/pdf",
    "application/msword",
    "application/vnd.openxmlformats-officedocument.wordprocessingml.document"
  ]

  /** 10 MiB. */
  const MaxUploadSize := 10 * 1024 * 1024

  const WrongTypeMessage := "Please select a valid file type (PDF, DOC, DOCX)."
  const TooLargeMessage := "File size must be less than 10MB."

  /**
   * `handleFileSelect`'s checks: a file is kept exactly when its type is PDF,
   * DOC or DOCX and it is at most 10 MiB; the type is checked first.
   */
  function CheckSelectedFile(file: Option<Upload>): (c: FileCheck)
    ensures c.NoFile? <==> file.None?
    ensures c.Ready? <==> file.Some? && file.value.mimeType in AllowedTypes && file.value.size <= MaxUploadSize
    ensures c.Ready? ==> c.file == file.value
    ensures c.WrongType? <==> file.Some? && file.value.mimeType !in AllowedTypes
    ensures c.WrongType? ==> c.message == WrongTypeMessage
    ensures c.TooLarge? ==> file.value.mimeType in AllowedTypes && file.value.size > MaxUploadSize
    ensures c.TooLarge? ==> c.message == TooLargeMessage
  {
    if file.None? then NoFile
    else if file.value.mimeType !in AllowedTypes then WrongType(WrongTypeMessage)
    else if file.value.size > MaxUploadSize then TooLarge(TooLargeMessage)
    else Ready(file.value)
  }

  /** The limit is inclusive: a PDF of exactly 10 MiB is kept, one byte more is refused. */
  lemma ExactlyTenMiBAccepted(name: string)
    ensures CheckSelectedFile(Some(Upload(name, "application/pdf", 10485760))).Ready?
    ensures CheckSelectedFile(Some(Upload(name, "application/pdf", 10485761))).TooLarge?
  {
    assert AllowedTypes[0] == "application/pdf";
  }

  // ---------------------------------------------------------------- accordion

  /** `toggleSection`: the named flag flips, a missing flag counting as closed; no other flag changes. */
  function ToggleSection(sections: map<string, bool>, section: string): (r: map<string, bool>)
    ensures r.Keys == sections.Keys + {section}
    ensures r[section] == !(section in sections && sections[section])
    ensures forall other | other in sections && other != section :: r[other] == sections[other]
  {
    sections[section := !(section in sections && sections[section])]
  }

  /** Toggling a section that has a flag twice restores the flags. */
  lemma ToggleTwice(sections: map<string, bool>, section: string)
    requires section in sections
    ensures ToggleSection(ToggleSection(sections, section), section) == sections
  {
  }
}
