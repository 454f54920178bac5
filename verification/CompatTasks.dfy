/** The compatibility task object and the two-layout `CreateTaskResult`. */
module CompatTasks {
  import opened Prelude
  import opened Entries
  import opened Float64
  import opened Json
  import opened JsonRpc
  import opened MetaKeys
  import ToolResults

  datatype TaskStatus = Working | InputRequired | Completed | Failed | Cancelled

  function StatusName(s: TaskStatus): string {
    match s
    case Working => "working"
    case InputRequired => "input_required"
    case Completed => "completed"
    case Failed => "failed"
    case Cancelled => "cancelled"
  }

  function ReadStatus(v: Value): Option<TaskStatus> {
    if !v.Str? then None
    else if v.s == "working" then Some(Working)
    else if v.s == "input_required" then Some(InputRequired)
    else if v.s == "completed" then Some(Completed)
    else if v.s == "failed" then Some(Failed)
    else if v.s == "cancelled" then Some(Cancelled)
    else None
  }

  lemma StatusRoundTrip(s: TaskStatus)
    ensures ReadStatus(Str(StatusName(s))) == Some(s)
  {}

  datatype TaskObject = TaskObject(
    taskId: string, status: TaskStatus, statusMessage: Option<string>, createdAt: string, lastUpdatedAt: string,
    ttl: Option<u64>, pollInterval: Option<u64>, result: Option<ToolResults.CallToolResult>, error: Option<JsonRpcError>,
    meta: Option<Value>)

  function OptError(e: Option<JsonRpcError>): Option<Value> {
    if e.Some? then Some(EncodeError(e.value)) else None
  }

  function EncodeOptResult(r: Option<ToolResults.CallToolResult>): Result<Option<Value>, MetaError> {
    if r.None? then Ok(None)
    else
      var o :- ToolResults.EncodeResult(r.value);
      Ok(Some(Obj(o)))
  }

  function TaskFields(t: TaskObject, result: Option<Value>): seq<(string, Option<Value>)> {
    [("taskId", Some(Str(t.taskId))),
     ("status", Some(Str(StatusName(t.status)))),
     ("statusMessage", OptStr(t.statusMessage)),
     ("createdAt", Some(Str(t.createdAt))),
     ("lastUpdatedAt", Some(Str(t.lastUpdatedAt))),
     ("ttl", Some(if t.ttl.Some? then OfU64(t.ttl.value) else Null)),
     ("pollInterval", OptU64(t.pollInterval)),
     ("result", result),
     ("error", OptError(t.error)),
     ("_meta", t.meta)]
  }

  function EncodeTask(t: TaskObject): Result<Object, MetaError> {
    var result :- EncodeOptResult(t.result);
    var _ :- EncodeMeta(t.meta);
    Ok(Compact(TaskFields(t, result)))
  }

  function DecodeTask(o: Object): Option<TaskObject> {
    var taskId :- Required(o, "taskId", ReadStr);
    var status :- Required(o, "status", ReadStatus);
    var statusMessage :- Optional(o, "statusMessage", ReadStr);
    var createdAt :- Required(o, "createdAt", ReadStr);
    var lastUpdatedAt :- Required(o, "lastUpdatedAt", ReadStr);
    var ttl :- Optional(o, "ttl", ReadU64);
    var pollInterval :- Optional(o, "pollInterval", ReadU64);
    var result :- Optional(o, "result", ToolResults.DecodeResult);
    var error :- Optional(o, "error", DecodeError);
    var meta :- ReadMetaField(o);
    Some(TaskObject(taskId, status, statusMessage, createdAt, lastUpdatedAt, ttl, pollInterval, result, error, meta))
  }

  /** All metadata in the task, its own and its result's, conforms. */
  predicate TaskConforms(t: TaskObject) {
    MetaConforms(t.meta) && (t.result.Some? ==> ToolResults.ResultConforms(t.result.value))
  }

  /** The two losses a task can suffer on the wire: explicit null error data, and a priority that is no JSON number. */
  predicate LosesNothing(t: TaskObject) {
    && !(t.error.Some? && t.error.value.data == Some(Null))
    && (t.result.Some? ==> ToolResults.FinitePriorities(t.result.value))
  }

  /** What a task reads back as. */
  function NormalTask(t: TaskObject): TaskObject {
    t.(error := if t.error.Some? then Some(Normalized(t.error.value)) else None,
       result := if t.result.Some? then Some(ToolResults.NormalResult(t.result.value)) else None)
  }

  lemma NormalIsSame(t: TaskObject)
    ensures NormalTask(t) == t <==> LosesNothing(t)
  {
    if t.result.Some? {
      ToolResults.NormalIsSame(t.result.value);
    }
  }

  /** A task is refused exactly when some metadata in it does not conform. */
  lemma TaskEncodes(t: TaskObject)
    ensures EncodeTask(t).Ok? <==> TaskConforms(t)
  {
    EncodedMetaReadsBack(t.meta);
    if t.result.Some? {
      ToolResults.ResultEncodes(t.result.value);
    }
  }

  lemma TaskKeysDistinct(t: TaskObject, result: Option<Value>)
    ensures DistinctKeys(TaskFields(t, result))
  {}

  /** `o` carries the fields of `t` under the task's own keys. */
  predicate Carries(o: Object, t: TaskObject) {
    && EncodeTask(t).Ok?
    && Lookup(o, "taskId") == Some(Str(t.taskId))
    && Lookup(o, "status") == Some(Str(StatusName(t.status)))
    && Lookup(o, "statusMessage") == OptStr(t.statusMessage)
    && Lookup(o, "createdAt") == Some(Str(t.createdAt))
    && Lookup(o, "lastUpdatedAt") == Some(Str(t.lastUpdatedAt))
    && Lookup(o, "ttl") == Some(if t.ttl.Some? then OfU64(t.ttl.value) else Null)
    && Lookup(o, "pollInterval") == OptU64(t.pollInterval)
    && Lookup(o, "result") == EncodeOptResult(t.result).value
    && Lookup(o, "error") == OptError(t.error)
    && Lookup(o, "_meta") == t.meta
  }

  lemma EncodedTaskCarries(t: TaskObject)
    requires EncodeTask(t).Ok?
    ensures Carries(EncodeTask(t).value, t)
  {
    var result := EncodeOptResult(t.result).value;
    TaskKeysDistinct(t, result);
    var fs := TaskFields(t, result);
    CompactLookup(fs, 0);
    CompactLookup(fs, 1);
    CompactLookup(fs, 2);
    CompactLookup(fs, 3);
    CompactLookup(fs, 4);
    CompactLookup(fs, 5);
    CompactLookup(fs, 6);
    CompactLookup(fs, 7);
    CompactLookup(fs, 8);
    CompactLookup(fs, 9);
  }

  lemma ErrorFieldReads(o: Object, e: Option<JsonRpcError>)
    requires Lookup(o, "error") == OptError(e)
    ensures Optional(o, "error", DecodeError) == Some(if e.Some? then Some(Normalized(e.value)) else None)
  {
    if e.Some? {
      ErrorRoundTrip(e.value);
    }
  }

  lemma ResultFieldReads(o: Object, r: Option<ToolResults.CallToolResult>)
    requires EncodeOptResult(r).Ok? && Lookup(o, "result") == EncodeOptResult(r).value
    ensures Optional(o, "result", ToolResults.DecodeResult) ==
            Some(if r.Some? then Some(ToolResults.NormalResult(r.value)) else None)
  {
    if r.Some? {
      ToolResults.ResultRoundTrip(r.value);
    }
  }

  /** Decoding a task looks at its own ten keys and at nothing else. */
  lemma CarriedTaskDecodes(o: Object, t: TaskObject)
    requires Carries(o, t)
    ensures DecodeTask(o) == Some(NormalTask(t))
  {
    StatusRoundTrip(t.status);
    ErrorFieldReads(o, t.error);
    ResultFieldReads(o, t.result);
    assert ReadMetaField(o) == Some(t.meta) by { EncodedMetaReadsBack(t.meta); }
    TaskReadsByField(o, NormalTask(t));
  }

  /** A written task reads back, and as itself exactly when it loses nothing. */
  lemma TaskRoundTrip(t: TaskObject)
    requires EncodeTask(t).Ok?
    ensures DecodeTask(EncodeTask(t).value) == Some(NormalTask(t))
    ensures DecodeTask(EncodeTask(t).value) == Some(t) <==> LosesNothing(t)
  {
    EncodedTaskCarries(t);
    CarriedTaskDecodes(EncodeTask(t).value, t);
    NormalIsSame(t);
  }

  /** A completed task with the given result. */
  function CompletedWith(r: ToolResults.CallToolResult): TaskObject {
    TaskObject("t", Completed, None, "2026-07-30T00:00:00Z", "2026-07-30T00:00:00Z", None, None, Some(r), None, None)
  }

  /** Misnamed metadata inside the result refuses a task whose own metadata is fine. */
  lemma MisnamedResultMetaIsRefused()
    ensures var meta := Some(Obj([(BAD_KEY, OfU64(1))]));
            EncodeTask(CompletedWith(ToolResults.CallToolResult([], false, None, meta))).Err?
  {
    BadKeyEntry(OfU64(1));
    TaskEncodes(CompletedWith(ToolResults.CallToolResult([], false, None, Some(Obj([(BAD_KEY, OfU64(1))])))));
  }

  /** A priority that is not a number is written as null and comes back absent. */
  lemma NaNPriorityIsLost()
    ensures var note := ToolResults.Annotations(None, Some(NaN), None);
            var item := ToolResults.Text("hi", Some(note), None);
            var t := CompletedWith(ToolResults.CallToolResult([item], false, None, None));
            && EncodeTask(t).Ok?
            && DecodeTask(EncodeTask(t).value).Some? && DecodeTask(EncodeTask(t).value) != Some(t)
  {
    var note := ToolResults.Annotations(None, Some(NaN), None);
    var item := ToolResults.Text("hi", Some(note), None);
    var r := ToolResults.CallToolResult([item], false, None, None);
    var t := CompletedWith(r);
    assert !ToolResults.FinitePriority(r.content[0]);
    TaskEncodes(t);
    TaskRoundTrip(t);
  }

  // ------------------------------------------------------------------------------------------------------------
  // CreateTaskResult
  // ------------------------------------------------------------------------------------------------------------

  datatype CreateTaskResult = CreateTaskResult(task: TaskObject, meta: Option<Value>)

  /** The layout the serializer promises: the flat fields, the discriminator, the nested mirror, the metadata. */
  ghost predicate IsEncodingOf(o: Object, c: CreateTaskResult) {
    && EncodeTask(c.task).Ok?
    && Lookup(o, "resultType") == Some(Str("task"))
    && Lookup(o, "task") == Some(Obj(EncodeTask(c.task).value))
    && Lookup(o, "_meta") == (if c.meta.Some? then c.meta else c.task.meta)
    && forall k :: k != "resultType" && k != "task" && k != "_meta" ==> Lookup(o, k) == Lookup(EncodeTask(c.task).value, k)
  }

  /** `CreateTaskResult::serialize`: it fails exactly when metadata, the result's own or any in the task, does not conform. */
  method Serialize(c: CreateTaskResult) returns (r: Result<Object, MetaError>)
    ensures r.Ok? <==> TaskConforms(c.task) && MetaConforms(c.meta)
    ensures r.Ok? ==> IsEncodingOf(r.value, c)
  {
    TaskEncodes(c.task);
    EncodedMetaReadsBack(c.meta);
    var task :- EncodeTask(c.task);
    assert Lookup(task, "_meta") == c.task.meta by { EncodedTaskCarries(c.task); }
    var obj := task;
    InsertLookups(obj, "resultType", Str("task"));
    obj := Insert(obj, "resultType", Str("task"));
    InsertLookups(obj, "task", Obj(task));
    obj := Insert(obj, "task", Obj(task));
    if c.meta.Some? {
      var _ :- ValidateMetaObject(c.meta.value);
      InsertLookups(obj, "_meta", c.meta.value);
      obj := Insert(obj, "_meta", c.meta.value);
    }
    r := Ok(obj);
  }

  /** `CreateTaskResult::deserialize`: the nested task wins when there is one with a `taskId`. */
  function DecodeCreate(v: Value): Option<CreateTaskResult> {
    var meta := if Get(v, "_meta").Some? then NonNull(Get(v, "_meta").value) else None;
    if meta.Some? && ValidateMetaObject(meta.value).Err? then None
    else
      var nested := Get(v, "task");
      if nested.Some? && nested.value.Obj? && Has(nested.value.entries, "taskId") then
        var task :- DecodeTask(nested.value.entries);
        Some(CreateTaskResult(task, meta))
      else if v.Obj? then
        var task :- DecodeTask(v.entries);
        Some(CreateTaskResult(task, meta))
      else None
  }

  /** The object the task is read from: the nested one if it has a `taskId`, else the whole. */
  function TaskSource(o: Object): Object {
    var nested := Lookup(o, "task");
    if nested.Some? && nested.value.Obj? && Has(nested.value.entries, "taskId") then nested.value.entries else o
  }

  /** Top-level metadata that is absent, null, or an object of conforming keys. */
  predicate TopLevelMetaConforms(o: Object) { Lookup(o, "_meta") == Some(Null) || MetaConforms(Lookup(o, "_meta")) }

  /**
   * Top-level metadata is read strictly, unlike the task's own: an object decodes exactly when that metadata conforms
   * and the chosen task decodes, so one misnamed key refuses the whole result.
   */
  lemma TopLevelMetaIsStrict(o: Object)
    ensures DecodeCreate(Obj(o)).Some? <==> TopLevelMetaConforms(o) && DecodeTask(TaskSource(o)).Some?
    ensures DecodeCreate(Obj(o)).Some? ==>
              && DecodeTask(TaskSource(o)) == Some(DecodeCreate(Obj(o)).value.task)
              && DecodeCreate(Obj(o)).value.meta == if Has(o, "_meta") then NonNull(Lookup(o, "_meta").value) else None
  {
    EncodedMetaReadsBack(Lookup(o, "_meta"));
  }

  /** The round-trip law: the same task; the result's own metadata or, without any, the task's. */
  lemma CreateRoundTrip(o: Object, c: CreateTaskResult)
    requires IsEncodingOf(o, c) && MetaConforms(c.meta)
    ensures DecodeCreate(Obj(o)) ==
            Some(CreateTaskResult(NormalTask(c.task), if c.meta.Some? then c.meta else c.task.meta))
    ensures DecodeCreate(Obj(o)) == Some(c) <==> LosesNothing(c.task) && (c.meta.Some? || c.task.meta.None?)
  {
    assert TaskSource(o) == EncodeTask(c.task).value by { EncodedTaskCarries(c.task); }
    TaskRoundTrip(c.task);
    NormalIsSame(c.task);
    assert MetaConforms(Lookup(o, "_meta")) by { TaskEncodes(c.task); }
    TopLevelMetaIsStrict(o);
  }

  /** The same misnamed key is dropped from the task's own metadata and refused at the top level. */
  lemma MisnamedTopLevelKeyIsRefused(o: Object)
    requires Lookup(o, "_meta") == Some(Obj([(BAD_KEY, OfU64(1))]))
    ensures DecodeCreate(Obj(o)) == None
    ensures ReadMetaField(o) == Some(Some(Obj([])))
  {
    BadKeyEntry(OfU64(1));
    assert ReadMetaField(o) == Some(Some(Obj([])));
    assert !TopLevelMetaConforms(o);
    assert DecodeCreate(Obj(o)) == None by { TopLevelMetaIsStrict(o); }
  }

  /**
   * One task with conforming metadata decodes to the same task from its nested-only and its flat-only rendering,
   * whatever else the two objects carry beside it.
   */
  lemma NestedAndFlatAgree(t: TaskObject, nested: Object, flat: Object)
    requires EncodeTask(t).Ok?
    requires Lookup(nested, "task") == Some(Obj(EncodeTask(t).value)) && !Has(nested, "_meta")
    requires !Has(flat, "task")
    requires Carries(flat, t)
    ensures DecodeCreate(Obj(nested)) == Some(CreateTaskResult(NormalTask(t), None))
    ensures DecodeCreate(Obj(flat)) == Some(CreateTaskResult(NormalTask(t), t.meta))
  {
    TaskRoundTrip(t);
    EncodedTaskCarries(t);
    EncodedMetaReadsBack(t.meta);
    CarriedTaskDecodes(flat, t);
  }

  /**
   * For any object at all, written by this code or not: nested or flat it gives the same task, and the flat layout
   * refuses in addition metadata that does not conform, since that metadata is then at the top level.
   */
  lemma NestedIsMoreTolerant(flat: Object, nested: Object)
    requires Has(flat, "taskId") && !Has(flat, "task")
    requires Lookup(nested, "task") == Some(Obj(flat)) && !Has(nested, "_meta")
    ensures DecodeCreate(Obj(nested)).Some? <==> DecodeTask(flat).Some?
    ensures DecodeCreate(Obj(flat)).Some? <==> DecodeTask(flat).Some? && TopLevelMetaConforms(flat)
    ensures DecodeCreate(Obj(flat)).Some? ==>
              && DecodeCreate(Obj(nested)).value.task == DecodeCreate(Obj(flat)).value.task
              && DecodeCreate(Obj(nested)).value.meta == None
              && DecodeCreate(Obj(flat)).value.meta == DecodeTask(flat).value.meta
  {
    assert TaskSource(nested) == flat && TaskSource(flat) == flat && TopLevelMetaConforms(nested);
    TopLevelMetaIsStrict(nested);
    TopLevelMetaIsStrict(flat);
    if DecodeTask(flat).Some? && TopLevelMetaConforms(flat) {
      ConformingMetaIsKept(flat, DecodeTask(flat).value);
    }
  }

  lemma ConformingMetaIsKept(o: Object, t: TaskObject)
    requires TopLevelMetaConforms(o) && DecodeTask(o) == Some(t)
    ensures t.meta == if Has(o, "_meta") then NonNull(Lookup(o, "_meta").value) else None
  {
    TaskReadsByField(o, t);
    EncodedMetaReadsBack(Lookup(o, "_meta"));
  }

  // ------------------------------------------------------------------------------------------------------------
  // What was read is written and read again unchanged
  // ------------------------------------------------------------------------------------------------------------

  lemma ReadErrorFieldSurvives(o: Object, e: Option<JsonRpcError>)
    requires Optional(o, "error", DecodeError) == Some(e)
    ensures !(e.Some? && e.value.data == Some(Null))
  {
    if e.Some? {
      ReadErrorSurvives(Lookup(o, "error").value);
    }
  }

  lemma ReadResultFieldSurvives(o: Object, r: Option<ToolResults.CallToolResult>)
    requires Optional(o, "result", ToolResults.DecodeResult) == Some(r)
    ensures r.Some? ==> ToolResults.ResultConforms(r.value) && ToolResults.FinitePriorities(r.value)
  {
    if r.Some? {
      ToolResults.ReadResultSurvives(Lookup(o, "result").value);
    }
  }

  lemma TaskReadsByField(o: Object, t: TaskObject)
    ensures DecodeTask(o) == Some(t) <==>
              && Required(o, "taskId", ReadStr) == Some(t.taskId) && Required(o, "status", ReadStatus) == Some(t.status)
              && Optional(o, "statusMessage", ReadStr) == Some(t.statusMessage)
              && Required(o, "createdAt", ReadStr) == Some(t.createdAt)
              && Required(o, "lastUpdatedAt", ReadStr) == Some(t.lastUpdatedAt)
              && Optional(o, "ttl", ReadU64) == Some(t.ttl) && Optional(o, "pollInterval", ReadU64) == Some(t.pollInterval)
              && Optional(o, "result", ToolResults.DecodeResult) == Some(t.result)
              && Optional(o, "error", DecodeError) == Some(t.error) && ReadMetaField(o) == Some(t.meta)
  {}

  lemma ReadTaskPayload(o: Object, t: TaskObject)
    requires DecodeTask(o) == Some(t)
    ensures TaskConforms(t) && LosesNothing(t)
  {
    TaskReadsByField(o, t);
    assert MetaConforms(t.meta) by { ReadMetaConforms(o); }
    ReadErrorFieldSurvives(o, t.error);
    ReadResultFieldSurvives(o, t.result);
  }

  /** A task read from any object, tolerantly, is written, strictly, and read again as the same task. */
  lemma ReadTaskSurvives(o: Object)
    requires DecodeTask(o).Some?
    ensures var t := DecodeTask(o).value; EncodeTask(t).Ok? && DecodeTask(EncodeTask(t).value) == Some(t)
  {
    ReadTaskPayload(o, DecodeTask(o).value);
    TaskEncodes(DecodeTask(o).value);
    TaskRoundTrip(DecodeTask(o).value);
  }

  /** So is a task-creation result, in either layout, but for metadata that only the task has: it is taken over. */
  lemma ReadCreateSurvives(o: Object, written: Object)
    requires DecodeCreate(Obj(o)).Some? && IsEncodingOf(written, DecodeCreate(Obj(o)).value)
    ensures var c := DecodeCreate(Obj(o)).value;
            && TaskConforms(c.task) && MetaConforms(c.meta)
            && DecodeCreate(Obj(written)) == Some(c.(meta := if c.meta.Some? then c.meta else c.task.meta))
  {
    TopLevelMetaIsStrict(o);
    ReadTaskPayload(TaskSource(o), DecodeCreate(Obj(o)).value.task);
    NormalIsSame(DecodeCreate(Obj(o)).value.task);
    CreateRoundTrip(written, DecodeCreate(Obj(o)).value);
  }

  // ------------------------------------------------------------------------------------------------------------
  // Tasks, field by field
  // ------------------------------------------------------------------------------------------------------------

  /** The five statuses by their names, and no others. */
  predicate StatusIs(o: Object, s: TaskStatus) {
    TextIs(o, "status",
           match s
           case Working => "working"
           case InputRequired => "input_required"
           case Completed => "completed"
           case Failed => "failed"
           case Cancelled => "cancelled")
  }

  lemma StatusReadsExactly(o: Object, s: TaskStatus)
    ensures Required(o, "status", ReadStatus) == Some(s) <==> StatusIs(o, s)
  {}

  predicate ErrorFieldIs(o: Object, e: Option<JsonRpcError>) {
    if e.Some? then Has(o, "error") && Lookup(o, "error") != Some(Null) && RendersError(Lookup(o, "error").value, e.value)
    else Missing(o, "error")
  }

  predicate ResultFieldIs(o: Object, r: Option<ToolResults.CallToolResult>) {
    if r.Some? then Has(o, "result") && Lookup(o, "result") != Some(Null)
                    && ToolResults.DecodeResult(Lookup(o, "result").value) == r
    else Missing(o, "result")
  }

  /** `o` is a wire form of the task. */
  predicate RendersTask(o: Object, t: TaskObject) {
    && TextIs(o, "taskId", t.taskId) && StatusIs(o, t.status) && MaybeTextIs(o, "statusMessage", t.statusMessage)
    && TextIs(o, "createdAt", t.createdAt) && TextIs(o, "lastUpdatedAt", t.lastUpdatedAt)
    && MaybeU64Is(o, "ttl", t.ttl) && MaybeU64Is(o, "pollInterval", t.pollInterval)
    && ResultFieldIs(o, t.result) && ErrorFieldIs(o, t.error) && MetaIs(o, t.meta)
  }

  lemma ErrorFieldReadsExactly(o: Object, e: Option<JsonRpcError>)
    ensures Optional(o, "error", DecodeError) == Some(e) <==> ErrorFieldIs(o, e)
  {
    if e.Some? && Has(o, "error") {
      ErrorReadsExactly(Lookup(o, "error").value, e.value);
    }
  }

  lemma ResultFieldReadsExactly(o: Object, r: Option<ToolResults.CallToolResult>)
    ensures Optional(o, "result", ToolResults.DecodeResult) == Some(r) <==> ResultFieldIs(o, r)
  {}

  lemma TextFieldsReadExactly(o: Object, t: TaskObject)
    ensures Required(o, "taskId", ReadStr) == Some(t.taskId) <==> TextIs(o, "taskId", t.taskId)
    ensures Optional(o, "statusMessage", ReadStr) == Some(t.statusMessage) <==> MaybeTextIs(o, "statusMessage", t.statusMessage)
    ensures Required(o, "createdAt", ReadStr) == Some(t.createdAt) <==> TextIs(o, "createdAt", t.createdAt)
    ensures Required(o, "lastUpdatedAt", ReadStr) == Some(t.lastUpdatedAt) <==> TextIs(o, "lastUpdatedAt", t.lastUpdatedAt)
    ensures Optional(o, "ttl", ReadU64) == Some(t.ttl) <==> MaybeU64Is(o, "ttl", t.ttl)
    ensures Optional(o, "pollInterval", ReadU64) == Some(t.pollInterval) <==> MaybeU64Is(o, "pollInterval", t.pollInterval)
  {}

  /** An object decodes to a task exactly when it is a wire form of it. */
  lemma TasksReadExactly(o: Object, t: TaskObject)
    ensures DecodeTask(o) == Some(t) <==> RendersTask(o, t)
  {
    TaskReadsByField(o, t);
    TextFieldsReadExactly(o, t);
    StatusReadsExactly(o, t.status);
    ResultFieldReadsExactly(o, t.result);
    ErrorFieldReadsExactly(o, t.error);
    MetaReadsExactly(o, t.meta);
  }

  const TASK_KEYS: set<string> :=
    {"taskId", "status", "statusMessage", "createdAt", "lastUpdatedAt", "ttl", "pollInterval", "result", "error", "_meta"}

  /** A task writes its ten fields and no other, a missing time-to-live as null and any other missing field not at all. */
  lemma TaskOnTheWire(t: TaskObject)
    requires EncodeTask(t).Ok?
    ensures var o := EncodeTask(t).value;
            && TextIs(o, "taskId", t.taskId) && StatusIs(o, t.status)
            && Lookup(o, "statusMessage") == (if t.statusMessage.Some? then Some(Str(t.statusMessage.value)) else None)
            && TextIs(o, "createdAt", t.createdAt) && TextIs(o, "lastUpdatedAt", t.lastUpdatedAt)
            && Lookup(o, "ttl") == Some(if t.ttl.Some? then Num(PosInt(t.ttl.value)) else Null)
            && Lookup(o, "pollInterval") == (if t.pollInterval.Some? then Some(Num(PosInt(t.pollInterval.value))) else None)
            && (Has(o, "result") <==> t.result.Some?) && (Has(o, "error") <==> t.error.Some?)
            && Lookup(o, "_meta") == t.meta && OnlyKeys(o, TASK_KEYS)
  {
    EncodedTaskCarries(t);
    TaskWritesOnly(t, EncodeOptResult(t.result).value);
  }

  lemma TaskWritesOnly(t: TaskObject, result: Option<Value>)
    ensures OnlyKeys(Compact(TaskFields(t, result)), TASK_KEYS)
  {
    CompactOnlyKeys(TaskFields(t, result), TASK_KEYS);
  }
}
