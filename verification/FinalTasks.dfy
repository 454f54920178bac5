/** The wire types of the final Tasks extension: status-discriminated tasks and their `resultType` discriminators. */
module FinalTasks {
  import opened Prelude
  import opened Entries
  import opened Json
  import opened JsonRpc
  import opened MetaKeys
  import ResultTypes
  import ToolResults
  import Compat = CompatTasks

  datatype TaskMetadata = TaskMetadata(
    taskId: string, statusMessage: Option<string>, createdAt: string, lastUpdatedAt: string,
    ttlMs: Option<u64>, pollIntervalMs: Option<u64>)

  datatype Task = Task(metadata: TaskMetadata, status: Compat.TaskStatus)

  /** Outstanding requests by identifier. `R` is the type of one request; its own codec is a parameter of this module. */
  type Requests<R> = Sorted<R>

  datatype DetailedTask<R> =
    | Working(metadata: TaskMetadata)
    | InputRequired(metadata: TaskMetadata, inputRequests: Requests<R>)
    | Completed(metadata: TaskMetadata, result: Object)
    | Failed(metadata: TaskMetadata, error: JsonRpcError)
    | Cancelled(metadata: TaskMetadata)
  {
    function Status(): Compat.TaskStatus {
      match this
      case Working(_) => Compat.Working
      case InputRequired(_, _) => Compat.InputRequired
      case Completed(_, _) => Compat.Completed
      case Failed(_, _) => Compat.Failed
      case Cancelled(_) => Compat.Cancelled
    }
  }

  datatype CreateTaskResult = CreateTaskResult(task: Task, meta: Option<Object>)
  datatype GetTaskResult<R> = GetTaskResult(task: DetailedTask<R>, meta: Option<Object>)
  datatype TaskAcknowledgement = TaskAcknowledgement(meta: Option<Object>)
  datatype TaskStatusNotification<R> = TaskStatusNotification(task: DetailedTask<R>, meta: Option<Object>)

  // ------------------------------------------------------------------------------------------------------------
  // Encoding. Nested structs are flattened into one object; the status tag comes before the flattened metadata.
  // ------------------------------------------------------------------------------------------------------------

  type Fields = seq<(string, Option<Value>)>

  function MetadataFields(m: TaskMetadata): Fields {
    [("taskId", Some(Str(m.taskId))),
     ("statusMessage", OptStr(m.statusMessage)),
     ("createdAt", Some(Str(m.createdAt))),
     ("lastUpdatedAt", Some(Str(m.lastUpdatedAt))),
     ("ttlMs", Some(if m.ttlMs.Some? then OfU64(m.ttlMs.value) else Null)),
     ("pollIntervalMs", OptU64(m.pollIntervalMs))]
  }

  function StatusField(s: Compat.TaskStatus): Fields { [("status", Some(Str(Compat.StatusName(s))))] }

  /** The written requests, in key order; one that refuses to be written refuses the whole map. */
  function EncodeRequests<R>(c: Codec<R>, rs: seq<(string, R)>): Result<Object, MetaError> {
    if rs == [] then Ok([])
    else
      var v :- c.write(rs[0].1);
      var rest :- EncodeRequests(c, rs[1..]);
      Ok([(rs[0].0, v)] + rest)
  }

  function WireRequests<R>(c: Codec<R>, t: DetailedTask<R>): Result<Object, MetaError> {
    if t.InputRequired? then EncodeRequests(c, t.inputRequests) else Ok([])
  }

  function PayloadFields<R>(t: DetailedTask<R>, requests: Object): Fields {
    [("inputRequests", if t.InputRequired? then Some(Obj(requests)) else None),
     ("result", if t.Completed? then Some(Obj(t.result)) else None),
     ("error", if t.Failed? then Some(EncodeError(t.error)) else None)]
  }

  function DetailedFields<R>(t: DetailedTask<R>, requests: Object): Fields {
    StatusField(t.Status()) + MetadataFields(t.metadata) + PayloadFields(t, requests)
  }

  function ResultTypeField(s: string): Fields { [("resultType", Some(Str(s)))] }
  function MetaField(meta: Option<Object>): Fields { [("_meta", OptObject(meta))] }

  function CreateFields(c: CreateTaskResult): Fields {
    ResultTypeField("task") + MetadataFields(c.task.metadata) + StatusField(c.task.status) + MetaField(c.meta)
  }

  function GetFields<R>(g: GetTaskResult<R>, requests: Object): Fields {
    ResultTypeField("complete") + DetailedFields(g.task, requests) + MetaField(g.meta)
  }

  function AckFields(a: TaskAcknowledgement): Fields { ResultTypeField("complete") + MetaField(a.meta) }

  function NotificationFields<R>(n: TaskStatusNotification<R>, requests: Object): Fields {
    DetailedFields(n.task, requests) + MetaField(n.meta)
  }

  function EncodeDetailed<R>(c: Codec<R>, t: DetailedTask<R>): Result<Object, MetaError> {
    var requests :- WireRequests(c, t);
    Ok(Compact(DetailedFields(t, requests)))
  }

  function EncodeGet<R>(c: Codec<R>, g: GetTaskResult<R>): Result<Object, MetaError> {
    var requests :- WireRequests(c, g.task);
    Ok(Compact(GetFields(g, requests)))
  }

  function EncodeNotification<R>(c: Codec<R>, n: TaskStatusNotification<R>): Result<Object, MetaError> {
    var requests :- WireRequests(c, n.task);
    Ok(Compact(NotificationFields(n, requests)))
  }

  // ------------------------------------------------------------------------------------------------------------
  // Decoding
  // ------------------------------------------------------------------------------------------------------------

  function DecodeMetadata(o: Object): Option<TaskMetadata> {
    var taskId :- Required(o, "taskId", ReadStr);
    var statusMessage :- Optional(o, "statusMessage", ReadStr);
    var createdAt :- Required(o, "createdAt", ReadStr);
    var lastUpdatedAt :- Required(o, "lastUpdatedAt", ReadStr);
    var ttlMs :- Optional(o, "ttlMs", ReadU64);
    var pollIntervalMs :- Optional(o, "pollIntervalMs", ReadU64);
    Some(TaskMetadata(taskId, statusMessage, createdAt, lastUpdatedAt, ttlMs, pollIntervalMs))
  }

  /** Into a `BTreeMap`: one insertion per entry, in document order. */
  function DecodeRequests<R>(c: Codec<R>, es: Object): Option<seq<(string, R)>> {
    if es == [] then Some([])
    else
      var init :- DecodeRequests(c, es[..|es| - 1]);
      var request :- c.read(es[|es| - 1].1);
      Some(SortedInsert(init, es[|es| - 1].0, request))
  }

  lemma {:induction false} DecodedRequestsAreSorted<R>(c: Codec<R>, es: Object)
    requires DecodeRequests(c, es).Some?
    ensures Increasing(Keys(DecodeRequests(c, es).value))
  {
    if es == [] {
    } else {
      var n := |es| - 1;
      DecodedRequestsAreSorted(c, es[..n]);
      SortedInsertIsSorted(DecodeRequests(c, es[..n]).value, es[n].0, c.read(es[n].1).value);
    }
  }

  function ReadRequests<R>(c: Codec<R>, o: Object): Option<Requests<R>> {
    var v :- Lookup(o, "inputRequests");
    var es :- ReadObject(v);
    var rs :- DecodeRequests(c, es);
    assert Increasing(Keys(rs)) by { DecodedRequestsAreSorted(c, es); }
    Some(rs)
  }

  function DecodeDetailed<R>(c: Codec<R>, o: Object): Option<DetailedTask<R>> {
    var status :- Required(o, "status", Compat.ReadStatus);
    var metadata :- DecodeMetadata(o);
    match status
    case Working => Some(Working(metadata))
    case InputRequired =>
      var requests :- ReadRequests(c, o);
      Some(InputRequired(metadata, requests))
    case Completed =>
      var result :- Required(o, "result", ReadObject);
      Some(Completed(metadata, result))
    case Failed =>
      var error :- Required(o, "error", DecodeError);
      Some(Failed(metadata, error))
    case Cancelled => Some(Cancelled(metadata))
  }

  /** `deserialize_task_result_type` and `deserialize_complete_result_type`. */
  function ReadTaskDiscriminator(v: Value): Option<ResultTypes.ResultType> {
    var t :- ResultTypes.ReadResultType(v);
    if t.AsStr() == "task" then Some(t) else None
  }

  function ReadCompleteDiscriminator(v: Value): Option<ResultTypes.ResultType> {
    var t :- ResultTypes.ReadResultType(v);
    if t == ResultTypes.Complete then Some(t) else None
  }

  function DecodeCreate(o: Object): Option<CreateTaskResult> {
    var _ :- Required(o, "resultType", ReadTaskDiscriminator);
    var metadata :- DecodeMetadata(o);
    var status :- Required(o, "status", Compat.ReadStatus);
    var meta :- Optional(o, "_meta", ReadObject);
    Some(CreateTaskResult(Task(metadata, status), meta))
  }

  function DecodeGet<R>(c: Codec<R>, o: Object): Option<GetTaskResult<R>> {
    var _ :- Required(o, "resultType", ReadCompleteDiscriminator);
    var task :- DecodeDetailed(c, o);
    var meta :- Optional(o, "_meta", ReadObject);
    Some(GetTaskResult(task, meta))
  }

  function DecodeAck(o: Object): Option<TaskAcknowledgement> {
    var _ :- Required(o, "resultType", ReadCompleteDiscriminator);
    var meta :- Optional(o, "_meta", ReadObject);
    Some(TaskAcknowledgement(meta))
  }

  function DecodeNotification<R>(c: Codec<R>, o: Object): Option<TaskStatusNotification<R>> {
    var task :- DecodeDetailed(c, o);
    var meta :- Optional(o, "_meta", ReadObject);
    Some(TaskStatusNotification(task, meta))
  }

  /** A document need not state the time-to-live: leaving it out, or null, means unlimited, and nothing else does. */
  lemma MissingTtlIsUnlimited(o: Object)
    ensures DecodeMetadata(o).Some? ==>
              (DecodeMetadata(o).value.ttlMs == None <==> !Has(o, "ttlMs") || Lookup(o, "ttlMs") == Some(Null))
    ensures !Has(o, "ttlMs") ==>
              (DecodeMetadata(o).Some? <==>
                 && Required(o, "taskId", ReadStr).Some? && Required(o, "createdAt", ReadStr).Some?
                 && Required(o, "lastUpdatedAt", ReadStr).Some? && Optional(o, "statusMessage", ReadStr).Some?
                 && Optional(o, "pollIntervalMs", ReadU64).Some?)
  {}

  /** Metadata without `ttlMs`, which the extension requires, is accepted. */
  lemma MissingTtlIsAccepted()
    ensures var at := "2026-07-30T00:00:00Z";
            var o: Object := [("taskId", Str("t")), ("createdAt", Str(at)), ("lastUpdatedAt", Str(at))];
            DecodeMetadata(o) ==
            Some(TaskMetadata("t", None, at, at, None, None))
  {
    var at := "2026-07-30T00:00:00Z";
    var o: Object := [("taskId", Str("t")), ("createdAt", Str(at)), ("lastUpdatedAt", Str(at))];
    assert DistinctKeys(o);
    LookupAt(o, 0);
    LookupAt(o, 1);
    LookupAt(o, 2);
    LookupInKeys(o, "statusMessage");
    LookupInKeys(o, "ttlMs");
    LookupInKeys(o, "pollIntervalMs");
  }

  // ------------------------------------------------------------------------------------------------------------
  // The map of requests
  // ------------------------------------------------------------------------------------------------------------

  /** Every request can be written; every one can in addition be read back; every one comes back unchanged. */
  ghost predicate AllWrite<R>(c: Codec<R>, rs: seq<(string, R)>) { forall i :: 0 <= i < |rs| ==> c.Writes(rs[i].1) }
  ghost predicate AllRead<R>(c: Codec<R>, rs: seq<(string, R)>) { forall i :: 0 <= i < |rs| ==> c.Reads(rs[i].1) }
  ghost predicate AllSurvive<R>(c: Codec<R>, rs: seq<(string, R)>) { forall i :: 0 <= i < |rs| ==> c.Survives(rs[i].1) }

  /** The same identifiers with what each request reads back as. */
  ghost function Reread<R>(c: Codec<R>, rs: seq<(string, R)>): (back: seq<(string, R)>)
    requires AllRead(c, rs)
    ensures Keys(back) == Keys(rs)
  {
    seq(|rs|, i requires 0 <= i < |rs| => assert c.Reads(rs[i].1); (rs[i].0, c.read(c.write(rs[i].1).value).value))
  }

  lemma {:induction false} EncodedRequests<R>(c: Codec<R>, rs: seq<(string, R)>)
    ensures EncodeRequests(c, rs).Ok? <==> AllWrite(c, rs)
    ensures EncodeRequests(c, rs).Ok? ==>
              && |EncodeRequests(c, rs).value| == |rs|
              && forall i :: 0 <= i < |rs| ==>
                   c.write(rs[i].1).Ok? && EncodeRequests(c, rs).value[i] == (rs[i].0, c.write(rs[i].1).value)
  {
    if rs == [] {
    } else {
      EncodedRequests(c, rs[1..]);
      assert forall i :: 0 < i < |rs| ==> rs[i] == rs[1..][i - 1];
    }
  }

  ghost predicate AllReadable<R>(c: Codec<R>, es: Object) { forall i :: 0 <= i < |es| ==> c.read(es[i].1).Some? }

  /** What an object's entries read as, in place. */
  ghost function ReadInPlace<R>(c: Codec<R>, es: Object): (rs: seq<(string, R)>)
    requires AllReadable(c, es)
    ensures Keys(rs) == Keys(es)
  {
    seq(|es|, i requires 0 <= i < |es| => (es[i].0, c.read(es[i].1).value))
  }

  lemma IncreasingInit(es: Object)
    requires es != [] && Increasing(Keys(es))
    ensures var init := es[..|es| - 1];
            Increasing(Keys(init)) && forall q :: q in Keys(init) ==> Less(q, es[|es| - 1].0)
  {
    var n := |es| - 1;
    assert Keys(es[..n]) == Keys(es)[..n];
    assert Keys(es)[n] == es[n].0;
  }

  /** A document whose keys increase is read entry by entry, in place. */
  lemma {:induction false} IncreasingRequestsDecode<R>(c: Codec<R>, es: Object)
    requires Increasing(Keys(es))
    ensures DecodeRequests(c, es) == if AllReadable(c, es) then Some(ReadInPlace(c, es)) else None
  {
    if es == [] {
    } else {
      var n := |es| - 1;
      var init, last := es[..n], es[n];
      IncreasingInit(es);
      IncreasingRequestsDecode(c, init);
      assert AllReadable(c, es) <==> AllReadable(c, init) && c.read(last.1).Some? by { assert es == init + [last]; }
      if AllReadable(c, es) {
        SortedInsertLast(ReadInPlace(c, init), last.0, c.read(last.1).value);
        assert ReadInPlace(c, es) == ReadInPlace(c, init) + [(last.0, c.read(last.1).value)];
      }
    }
  }

  lemma RequestsReadBack<R>(c: Codec<R>, rs: Requests<R>)
    requires EncodeRequests(c, rs).Ok?
    ensures DecodeRequests(c, EncodeRequests(c, rs).value) == if AllRead(c, rs) then Some(Reread(c, rs)) else None
  {
    var es := EncodeRequests(c, rs).value;
    EncodedRequests(c, rs);
    assert Keys(es) == Keys(rs);
    IncreasingRequestsDecode(c, es);
    if AllRead(c, rs) {
      assert forall i :: 0 <= i < |rs| ==> c.Reads(rs[i].1);
      assert ReadInPlace(c, es) == Reread(c, rs);
    } else {
      var i :| 0 <= i < |rs| && !c.Reads(rs[i].1);
      assert c.read(es[i].1).None?;
    }
  }

  lemma RereadIsSame<R>(c: Codec<R>, rs: Requests<R>)
    requires AllRead(c, rs)
    ensures Reread(c, rs) == rs <==> AllSurvive(c, rs)
  {
    forall i | 0 <= i < |rs|
      ensures Reread(c, rs)[i] == rs[i] <==> c.Survives(rs[i].1)
    {
      assert c.Reads(rs[i].1);
    }
    if !AllSurvive(c, rs) {
      var i :| 0 <= i < |rs| && !c.Survives(rs[i].1);
      assert Reread(c, rs)[i] != rs[i];
    }
  }

  // ------------------------------------------------------------------------------------------------------------
  // Round trips
  // ------------------------------------------------------------------------------------------------------------

  /** The outstanding requests of a task, none unless it is input-required. */
  function Outstanding<R>(t: DetailedTask<R>): Requests<R> {
    if t.InputRequired? then t.inputRequests else []
  }

  /** What a task comes back as, provided that its requests can be read back. */
  ghost function NormalDetailed<R>(c: Codec<R>, t: DetailedTask<R>): DetailedTask<R>
    requires AllRead(c, Outstanding(t))
  {
    if t.Failed? then t.(error := Normalized(t.error))
    else if t.InputRequired? then t.(inputRequests := Reread(c, t.inputRequests))
    else t
  }

  /** Nothing is lost: no explicit null error data, and every outstanding request survives its own codec. */
  ghost predicate LosesNothing<R>(c: Codec<R>, t: DetailedTask<R>) {
    (t.Failed? ==> t.error.data != Some(Null)) && AllSurvive(c, Outstanding(t))
  }

  lemma NormalIsSame<R>(c: Codec<R>, t: DetailedTask<R>)
    ensures LosesNothing(c, t) <==> AllRead(c, Outstanding(t)) && NormalDetailed(c, t) == t
  {
    if AllSurvive(c, Outstanding(t)) {
      assert forall i :: 0 <= i < |Outstanding(t)| ==> c.Survives(Outstanding(t)[i].1);
    }
    if AllRead(c, Outstanding(t)) {
      RereadIsSame(c, Outstanding(t));
    }
  }

  /** `o` carries the metadata of `m` under its own keys. */
  predicate CarriesMetadata(o: Object, m: TaskMetadata) {
    forall i :: 0 <= i < 6 ==> Lookup(o, MetadataFields(m)[i].0) == MetadataFields(m)[i].1
  }

  predicate CarriesDetailed<R>(o: Object, t: DetailedTask<R>, requests: Object) {
    && CarriesMetadata(o, t.metadata)
    && Lookup(o, "status") == Some(Str(Compat.StatusName(t.Status())))
    && Lookup(o, "inputRequests") == PayloadFields(t, requests)[0].1
    && Lookup(o, "result") == PayloadFields(t, requests)[1].1
    && Lookup(o, "error") == PayloadFields(t, requests)[2].1
  }

  lemma MetadataReadsBack(o: Object, m: TaskMetadata)
    requires CarriesMetadata(o, m)
    ensures DecodeMetadata(o) == Some(m)
  {
    var fs := MetadataFields(m);
    assert fs[0].0 == "taskId" && fs[1].0 == "statusMessage" && fs[2].0 == "createdAt";
    assert fs[3].0 == "lastUpdatedAt" && fs[4].0 == "ttlMs" && fs[5].0 == "pollIntervalMs";
  }

  lemma DetailedReadsBack<R>(c: Codec<R>, o: Object, t: DetailedTask<R>)
    requires WireRequests(c, t).Ok? && CarriesDetailed(o, t, WireRequests(c, t).value)
    ensures DecodeDetailed(c, o) == if AllRead(c, Outstanding(t)) then Some(NormalDetailed(c, t)) else None
  {
    MetadataReadsBack(o, t.metadata);
    Compat.StatusRoundTrip(t.Status());
    if t.Failed? {
      ErrorRoundTrip(t.error);
    } else if t.InputRequired? {
      RequestsReadBack(c, t.inputRequests);
    }
  }

  lemma CarriesBlocks<R>(before: Fields, t: DetailedTask<R>, requests: Object, after: Fields)
    requires DistinctKeys(before + DetailedFields(t, requests) + after)
    ensures CarriesDetailed(Compact(before + DetailedFields(t, requests) + after), t, requests)
  {
    var s, m, p := StatusField(t.Status()), MetadataFields(t.metadata), PayloadFields(t, requests);
    var fs := before + DetailedFields(t, requests) + after;
    assert fs == before + s + (m + p + after);
    assert fs == (before + s) + m + (p + after);
    assert fs == (before + s + m) + p + after;
    BlockLookups(before, s, m + p + after);
    BlockLookups(before + s, m, p + after);
    BlockLookups(before + s + m, p, after);
    assert s[0].0 == "status" && p[0].0 == "inputRequests" && p[1].0 == "result" && p[2].0 == "error";
  }

  lemma GetKeysDistinct<R>(g: GetTaskResult<R>, requests: Object)
    ensures DistinctKeys(GetFields(g, requests))
  {}

  lemma GetReadsBack<R>(g: GetTaskResult<R>, requests: Object)
    ensures var o := Compact(GetFields(g, requests));
            && CarriesDetailed(o, g.task, requests)
            && Lookup(o, "resultType") == Some(Str("complete")) && Lookup(o, "_meta") == OptObject(g.meta)
  {
    GetKeysDistinct(g, requests);
    var rt, d, m := ResultTypeField("complete"), DetailedFields(g.task, requests), MetaField(g.meta);
    CarriesBlocks(rt, g.task, requests, m);
    assert GetFields(g, requests) == [] + rt + (d + m);
    BlockLookups([], rt, d + m);
    assert GetFields(g, requests) == (rt + d) + m + [];
    BlockLookups(rt + d, m, []);
    assert rt[0].0 == "resultType" && m[0].0 == "_meta";
  }

  /** A task can be written exactly when each outstanding request can. */
  lemma GetEncodes<R>(c: Codec<R>, g: GetTaskResult<R>)
    ensures EncodeGet(c, g).Ok? <==> AllWrite(c, Outstanding(g.task))
  {
    EncodedRequests(c, Outstanding(g.task));
  }

  /**
   * `tasks/get`: the encoding decodes exactly when the outstanding requests read back, then to the same task but for
   * null error data and what the requests themselves lose, so to the same value exactly when nothing is lost.
   */
  lemma GetRoundTrip<R>(c: Codec<R>, g: GetTaskResult<R>)
    requires EncodeGet(c, g).Ok?
    ensures DecodeGet(c, EncodeGet(c, g).value) ==
            if AllRead(c, Outstanding(g.task)) then Some(g.(task := NormalDetailed(c, g.task))) else None
    ensures DecodeGet(c, EncodeGet(c, g).value) == Some(g) <==> LosesNothing(c, g.task)
  {
    GetReadsBack(g, WireRequests(c, g.task).value);
    DetailedReadsBack(c, EncodeGet(c, g).value, g.task);
    NormalIsSame(c, g.task);
  }

  lemma NotificationKeysDistinct<R>(n: TaskStatusNotification<R>, requests: Object)
    ensures DistinctKeys(NotificationFields(n, requests))
  {}

  lemma NotificationReadsBack<R>(n: TaskStatusNotification<R>, requests: Object)
    ensures var o := Compact(NotificationFields(n, requests));
            CarriesDetailed(o, n.task, requests) && Lookup(o, "_meta") == OptObject(n.meta)
  {
    var d, m := DetailedFields(n.task, requests), MetaField(n.meta);
    NotificationKeysDistinct(n, requests);
    assert NotificationFields(n, requests) == [] + d + m;
    CarriesBlocks([], n.task, requests, m);
    assert NotificationFields(n, requests) == d + m + [];
    BlockLookups(d, m, []);
    assert m[0].0 == "_meta";
  }

  lemma NotificationRoundTrip<R>(c: Codec<R>, n: TaskStatusNotification<R>)
    requires EncodeNotification(c, n).Ok?
    ensures DecodeNotification(c, EncodeNotification(c, n).value) ==
            if AllRead(c, Outstanding(n.task)) then Some(n.(task := NormalDetailed(c, n.task))) else None
    ensures DecodeNotification(c, EncodeNotification(c, n).value) == Some(n) <==> LosesNothing(c, n.task)
  {
    NotificationReadsBack(n, WireRequests(c, n.task).value);
    DetailedReadsBack(c, EncodeNotification(c, n).value, n.task);
    NormalIsSame(c, n.task);
  }

  lemma DetailedKeysDistinct<R>(t: DetailedTask<R>, requests: Object)
    ensures DistinctKeys(DetailedFields(t, requests))
  {}

  lemma DetailedCarries<R>(t: DetailedTask<R>, requests: Object)
    ensures CarriesDetailed(Compact(DetailedFields(t, requests)), t, requests)
  {
    DetailedKeysDistinct(t, requests);
    var fs := [] + DetailedFields(t, requests) + [];
    assert fs == DetailedFields(t, requests);
    CarriesBlocks([], t, requests, []);
  }

  lemma DetailedRoundTrip<R>(c: Codec<R>, t: DetailedTask<R>)
    requires EncodeDetailed(c, t).Ok?
    ensures DecodeDetailed(c, EncodeDetailed(c, t).value) ==
            if AllRead(c, Outstanding(t)) then Some(NormalDetailed(c, t)) else None
    ensures DecodeDetailed(c, EncodeDetailed(c, t).value) == Some(t) <==> LosesNothing(c, t)
  {
    DetailedCarries(t, WireRequests(c, t).value);
    DetailedReadsBack(c, EncodeDetailed(c, t).value, t);
    NormalIsSame(c, t);
  }

  /** Metadata for concrete tasks. */
  function SomeMetadata(): TaskMetadata {
    TaskMetadata("t", None, "2026-07-30T00:00:00Z", "2026-07-30T00:00:00Z", None, None)
  }

  /** A failed task that does not survive its own encoding. */
  lemma FailedTaskLosesNullData<R>(c: Codec<R>)
    ensures var t := Failed(SomeMetadata(), JsonRpcError(-32000, "failed", Some(Null)));
            && EncodeDetailed(c, t).Ok?
            && DecodeDetailed(c, EncodeDetailed(c, t).value) == Some(t.(error := t.error.(data := None)))
  {
    DetailedRoundTrip(c, Failed(SomeMetadata(), JsonRpcError(-32000, "failed", Some(Null))));
  }

  lemma CreateKeysDistinct(c: CreateTaskResult)
    ensures DistinctKeys(CreateFields(c))
  {}

  lemma CreateReadsBack(c: CreateTaskResult)
    ensures var o := Compact(CreateFields(c));
            && CarriesMetadata(o, c.task.metadata) && Lookup(o, "resultType") == Some(Str("task"))
            && Lookup(o, "status") == Some(Str(Compat.StatusName(c.task.status))) && Lookup(o, "_meta") == OptObject(c.meta)
  {
    CreateKeysDistinct(c);
    var rt, md, s, m := ResultTypeField("task"), MetadataFields(c.task.metadata), StatusField(c.task.status), MetaField(c.meta);
    assert CreateFields(c) == [] + rt + (md + s + m);
    BlockLookups([], rt, md + s + m);
    assert CreateFields(c) == rt + md + (s + m);
    BlockLookups(rt, md, s + m);
    assert CreateFields(c) == (rt + md) + s + m;
    BlockLookups(rt + md, s, m);
    assert CreateFields(c) == (rt + md + s) + m + [];
    BlockLookups(rt + md + s, m, []);
    assert rt[0].0 == "resultType" && s[0].0 == "status" && m[0].0 == "_meta";
  }

  lemma CreateRoundTrip(c: CreateTaskResult)
    ensures DecodeCreate(Compact(CreateFields(c))) == Some(c)
  {
    CreateReadsBack(c);
    MetadataReadsBack(Compact(CreateFields(c)), c.task.metadata);
    Compat.StatusRoundTrip(c.task.status);
  }

  /** Each status-specific key is on the wire exactly for its status. */
  lemma PayloadMatchesStatus<R>(c: Codec<R>, g: GetTaskResult<R>)
    requires EncodeGet(c, g).Ok?
    ensures var o := EncodeGet(c, g).value;
            && (Has(o, "inputRequests") <==> g.task.Status() == Compat.InputRequired)
            && (Has(o, "result") <==> g.task.Status() == Compat.Completed)
            && (Has(o, "error") <==> g.task.Status() == Compat.Failed)
  {
    GetReadsBack(g, WireRequests(c, g.task).value);
  }

  // ------------------------------------------------------------------------------------------------------------
  // Telling the results apart
  // ------------------------------------------------------------------------------------------------------------

  datatype TaskResponse<R> =
    | FinalCreate(create: CreateTaskResult) | FinalGet(get: GetTaskResult<R>) | FinalAck(ack: TaskAcknowledgement)

  function EncodeResponse<R>(c: Codec<R>, r: TaskResponse<R>): Result<Object, MetaError> {
    match r
    case FinalCreate(create) => Ok(Compact(CreateFields(create)))
    case FinalGet(get) => EncodeGet(c, get)
    case FinalAck(ack) => Ok(Compact(AckFields(ack)))
  }

  /**
   * A reader that tries the three final variants alone, in declaration order. The whole untagged response type has
   * other variants before these; what becomes of them there is the matter of module `Responses`.
   */
  function FirstMatch<R>(c: Codec<R>, o: Object): Option<TaskResponse<R>> {
    if DecodeCreate(o).Some? then Some(FinalCreate(DecodeCreate(o).value))
    else if DecodeGet(c, o).Some? then Some(FinalGet(DecodeGet(c, o).value))
    else if DecodeAck(o).Some? then Some(FinalAck(DecodeAck(o).value))
    else None
  }

  /** That reader takes the object for a get result. */
  predicate ReadsAsGet<R>(c: Codec<R>, o: Object) { FirstMatch(c, o).Some? && FirstMatch(c, o).value.FinalGet? }

  /** The discriminators keep creation apart from the other two, but every get result is also an acknowledgement. */
  lemma Discriminated<R>(c: Codec<R>, o: Object)
    ensures !(DecodeCreate(o).Some? && DecodeGet(c, o).Some?)
    ensures !(DecodeCreate(o).Some? && DecodeAck(o).Some?)
    ensures DecodeGet(c, o).Some? ==> DecodeAck(o).Some?
  {}

  /** The outstanding requests of a response that is a get result. */
  function RequestsOf<R>(r: TaskResponse<R>): Requests<R> {
    if r.FinalGet? then Outstanding(r.get.task) else []
  }

  /** What first match finds: the variant that was written if its requests read back, else an acknowledgement. */
  ghost function Found<R>(c: Codec<R>, r: TaskResponse<R>): TaskResponse<R> {
    if !r.FinalGet? then r
    else if AllRead(c, RequestsOf(r)) then FinalGet(r.get.(task := NormalDetailed(c, r.get.task)))
    else FinalAck(TaskAcknowledgement(r.get.meta))
  }

  lemma AckLookups(a: TaskAcknowledgement)
    ensures var o := Compact(AckFields(a));
            && Lookup(o, "resultType") == Some(Str("complete")) && Lookup(o, "_meta") == OptObject(a.meta)
            && !Has(o, "status")
  {
    var rt, m := ResultTypeField("complete"), MetaField(a.meta);
    assert DistinctKeys(AckFields(a));
    assert AckFields(a) == [] + rt + m && AckFields(a) == rt + m + [];
    BlockLookups([], rt, m);
    BlockLookups(rt, m, []);
    assert rt[0].0 == "resultType" && m[0].0 == "_meta";
    CompactAbsent(AckFields(a), "status");
  }

  lemma AckReadsBack<R>(c: Codec<R>, a: TaskAcknowledgement)
    ensures var o := Compact(AckFields(a)); DecodeAck(o) == Some(a) && DecodeGet(c, o).None?
  {
    AckLookups(a);
  }

  lemma GetIsAck<R>(c: Codec<R>, g: GetTaskResult<R>)
    requires EncodeGet(c, g).Ok?
    ensures DecodeAck(EncodeGet(c, g).value) == Some(TaskAcknowledgement(g.meta))
  {
    GetReadsBack(g, WireRequests(c, g.task).value);
  }

  /**
   * Trying creation, get and acknowledgement alone, in that order, recovers the variant that was written exactly when its
   * outstanding requests can be read back; a get result whose requests cannot comes out as an acknowledgement.
   */
  lemma FirstMatchRecovers<R>(c: Codec<R>, r: TaskResponse<R>)
    requires EncodeResponse(c, r).Ok?
    ensures FirstMatch(c, EncodeResponse(c, r).value) == Some(Found(c, r))
    ensures Found(c, r).FinalGet? == r.FinalGet? <==> AllRead(c, RequestsOf(r))
    ensures Found(c, r) == r <==> r.FinalGet? ==> LosesNothing(c, r.get.task)
  {
    var o := EncodeResponse(c, r).value;
    Discriminated(c, o);
    match r
    case FinalCreate(create) => CreateRoundTrip(create);
    case FinalGet(get) =>
      GetRoundTrip(c, get);
      GetIsAck(c, get);
      NormalIsSame(c, get.task);
    case FinalAck(ack) => AckReadsBack(c, ack);
  }

  /** The legacy reader finds its own keys in a final get result, `ttl` and `pollInterval` apart. */
  lemma LegacyLookups<R>(g: GetTaskResult<R>, requests: Object)
    ensures var o := Compact(GetFields(g, requests)); var m := g.task.metadata;
            && Lookup(o, "taskId") == Some(Str(m.taskId)) && Lookup(o, "statusMessage") == OptStr(m.statusMessage)
            && Lookup(o, "createdAt") == Some(Str(m.createdAt)) && Lookup(o, "lastUpdatedAt") == Some(Str(m.lastUpdatedAt))
            && Lookup(o, "ttl") == None && Lookup(o, "pollInterval") == None
  {
    GetReadsBack(g, requests);
    var md := MetadataFields(g.task.metadata);
    assert md[0].0 == "taskId" && md[1].0 == "statusMessage" && md[2].0 == "createdAt" && md[3].0 == "lastUpdatedAt";
    CompactAbsent(GetFields(g, requests), "ttl");
    CompactAbsent(GetFields(g, requests), "pollInterval");
  }

  lemma LegacyPayload<R>(g: GetTaskResult<R>, requests: Object)
    ensures var o := Compact(GetFields(g, requests));
            && Required(o, "status", Compat.ReadStatus).Some?
            && (Optional(o, "result", ToolResults.DecodeResult).Some? <==>
                  (g.task.Completed? ==> ToolResults.DecodeResult(Obj(g.task.result)).Some?))
            && Optional(o, "error", DecodeError).Some? && ReadMetaField(o).Some?
  {
    GetReadsBack(g, requests);
    Compat.StatusRoundTrip(g.task.Status());
    if g.task.Failed? {
      ErrorRoundTrip(g.task.error);
    }
  }

  /**
   * The reason the final variants come before the legacy ones: the legacy task reader takes every final get result, losing its
   * time-to-live, except a completed one whose result is no tool result.
   */
  lemma LegacyReaderTakesGet<R>(c: Codec<R>, g: GetTaskResult<R>)
    requires EncodeGet(c, g).Ok?
    ensures Compat.DecodeTask(EncodeGet(c, g).value).Some? <==>
              (g.task.Completed? ==> ToolResults.DecodeResult(Obj(g.task.result)).Some?)
    ensures Compat.DecodeTask(EncodeGet(c, g).value).Some? ==> Compat.DecodeTask(EncodeGet(c, g).value).value.ttl == None
  {
    var requests := WireRequests(c, g.task).value;
    LegacyLookups(g, requests);
    LegacyPayload(g, requests);
  }

  /** A completed task with an empty result object is a final get result and no legacy task. */
  lemma EmptyResultIsNoLegacyTask<R>(c: Codec<R>)
    ensures var g := GetTaskResult(Completed(SomeMetadata(), []), None);
            && EncodeGet(c, g).Ok? && DecodeGet(c, EncodeGet(c, g).value) == Some(g)
            && Compat.DecodeTask(EncodeGet(c, g).value).None?
  {
    var g := GetTaskResult(Completed(SomeMetadata(), []), None);
    GetRoundTrip(c, g);
    LegacyReaderTakesGet(c, g);
    ToolResults.ContentIsRequired();
  }

  // ------------------------------------------------------------------------------------------------------------
  // What was read is written and read again unchanged
  // ------------------------------------------------------------------------------------------------------------

  lemma {:induction false} InsertedSurvives<R>(c: Codec<R>, rs: seq<(string, R)>, k: string, r: R)
    requires AllSurvive(c, rs) && c.Survives(r)
    ensures AllSurvive(c, SortedInsert(rs, k, r))
  {
    if rs == [] {
    } else {
      assert AllSurvive(c, rs[1..]);
      InsertedSurvives(c, rs[1..], k, r);
    }
  }

  lemma {:induction false} ReadRequestsSurvive<R(!new)>(c: Codec<R>, es: Object)
    requires Stable(c) && DecodeRequests(c, es).Some?
    ensures AllSurvive(c, DecodeRequests(c, es).value)
  {
    if es == [] {
    } else {
      var n := |es| - 1;
      ReadRequestsSurvive(c, es[..n]);
      InsertedSurvives(c, DecodeRequests(c, es[..n]).value, es[n].0, c.read(es[n].1).value);
    }
  }

  lemma SurvivorsWrite<R>(c: Codec<R>, rs: seq<(string, R)>)
    requires AllSurvive(c, rs)
    ensures AllWrite(c, rs)
  {
    forall i | 0 <= i < |rs|
      ensures c.Writes(rs[i].1)
    {
      assert c.Survives(rs[i].1);
    }
  }

  lemma ReadDetailedLosesNothing<R(!new)>(c: Codec<R>, o: Object)
    requires Stable(c) && DecodeDetailed(c, o).Some?
    ensures LosesNothing(c, DecodeDetailed(c, o).value)
  {
    var t := DecodeDetailed(c, o).value;
    if t.Failed? {
      ReadErrorSurvives(Lookup(o, "error").value);
    } else if t.InputRequired? {
      ReadRequestsSurvive(c, Lookup(o, "inputRequests").value.entries);
    }
  }

  /** A get result read from any object is written and read again as the same, if its requests are. */
  lemma ReadGetSurvives<R(!new)>(c: Codec<R>, o: Object)
    requires Stable(c) && DecodeGet(c, o).Some?
    ensures var g := DecodeGet(c, o).value; EncodeGet(c, g).Ok? && DecodeGet(c, EncodeGet(c, g).value) == Some(g)
  {
    var g := DecodeGet(c, o).value;
    ReadDetailedLosesNothing(c, o);
    SurvivorsWrite(c, Outstanding(g.task));
    GetEncodes(c, g);
    GetRoundTrip(c, g);
  }

  lemma ReadNotificationSurvives<R(!new)>(c: Codec<R>, o: Object)
    requires Stable(c) && DecodeNotification(c, o).Some?
    ensures var n := DecodeNotification(c, o).value;
            EncodeNotification(c, n).Ok? && DecodeNotification(c, EncodeNotification(c, n).value) == Some(n)
  {
    var n := DecodeNotification(c, o).value;
    ReadDetailedLosesNothing(c, o);
    SurvivorsWrite(c, Outstanding(n.task));
    EncodedRequests(c, Outstanding(n.task));
    NotificationRoundTrip(c, n);
  }

  // ------------------------------------------------------------------------------------------------------------
  // Final task types, field by field
  // ------------------------------------------------------------------------------------------------------------

  predicate RendersMetadata(o: Object, m: TaskMetadata) {
    && TextIs(o, "taskId", m.taskId) && MaybeTextIs(o, "statusMessage", m.statusMessage)
    && TextIs(o, "createdAt", m.createdAt) && TextIs(o, "lastUpdatedAt", m.lastUpdatedAt)
    && MaybeU64Is(o, "ttlMs", m.ttlMs) && MaybeU64Is(o, "pollIntervalMs", m.pollIntervalMs)
  }

  lemma MetadataReadsExactly(o: Object, m: TaskMetadata)
    ensures DecodeMetadata(o) == Some(m) <==> RendersMetadata(o, m)
  {}

  ghost predicate RequestsAre<R>(c: Codec<R>, o: Object, rs: Requests<R>) {
    && Has(o, "inputRequests") && Lookup(o, "inputRequests").value.Obj?
    && DecodeRequests(c, Lookup(o, "inputRequests").value.entries) == Some(rs)
  }

  /** `o` is a wire form of the task: its status by name, its metadata, and the payload that the status requires. */
  ghost predicate RendersDetailed<R>(c: Codec<R>, o: Object, t: DetailedTask<R>) {
    && RendersMetadata(o, t.metadata)
    && match t
       case Working(_) => TextIs(o, "status", "working")
       case InputRequired(_, requests) => TextIs(o, "status", "input_required") && RequestsAre(c, o, requests)
       case Completed(_, result) => TextIs(o, "status", "completed") && Lookup(o, "result") == Some(Obj(result))
       case Failed(_, error) =>
         TextIs(o, "status", "failed") && Has(o, "error") && RendersError(Lookup(o, "error").value, error)
       case Cancelled(_) => TextIs(o, "status", "cancelled")
  }

  /** An object decodes to a task exactly when it is a wire form of it: no other status, no missing payload. */
  lemma DetailedReadsExactly<R>(c: Codec<R>, o: Object, t: DetailedTask<R>)
    ensures DecodeDetailed(c, o) == Some(t) <==> RendersDetailed(c, o, t)
  {
    Compat.StatusReadsExactly(o, t.Status());
    MetadataReadsExactly(o, t.metadata);
    if t.Failed? && Has(o, "error") {
      ErrorReadsExactly(Lookup(o, "error").value, t.error);
    }
  }

  predicate MaybeObjectIs(o: Object, k: string, es: Option<Object>) {
    if es.Some? then Lookup(o, k) == Some(Obj(es.value)) else Missing(o, k)
  }

  lemma CreateReadsExactly(o: Object, c: CreateTaskResult)
    ensures DecodeCreate(o) == Some(c) <==>
              && TextIs(o, "resultType", "task") && RendersMetadata(o, c.task.metadata)
              && Compat.StatusIs(o, c.task.status) && MaybeObjectIs(o, "_meta", c.meta)
  {
    MetadataReadsExactly(o, c.task.metadata);
    Compat.StatusReadsExactly(o, c.task.status);
  }

  lemma GetReadsExactly<R>(c: Codec<R>, o: Object, g: GetTaskResult<R>)
    ensures DecodeGet(c, o) == Some(g) <==>
              TextIs(o, "resultType", "complete") && RendersDetailed(c, o, g.task) && MaybeObjectIs(o, "_meta", g.meta)
  {
    DetailedReadsExactly(c, o, g.task);
  }

  lemma AckReadsExactly(o: Object, a: TaskAcknowledgement)
    ensures DecodeAck(o) == Some(a) <==> TextIs(o, "resultType", "complete") && MaybeObjectIs(o, "_meta", a.meta)
  {}

  lemma NotificationReadsExactly<R>(c: Codec<R>, o: Object, n: TaskStatusNotification<R>)
    ensures DecodeNotification(c, o) == Some(n) <==> RendersDetailed(c, o, n.task) && MaybeObjectIs(o, "_meta", n.meta)
  {
    DetailedReadsExactly(c, o, n.task);
  }

  /** From a document with distinct identifiers each request is what its own value reads as; one refusal refuses all. */
  lemma {:induction false} RequestsReadExactly<R>(c: Codec<R>, es: Object)
    requires DistinctKeys(es)
    ensures DecodeRequests(c, es).Some? <==> AllReadable(c, es)
    ensures DecodeRequests(c, es).Some? ==>
              forall k :: Lookup(DecodeRequests(c, es).value, k) == if Has(es, k) then c.read(Lookup(es, k).value) else None
  {
    if es == [] {
    } else {
      var n := |es| - 1;
      var init, last := es[..n], es[n];
      assert es == init + [last] && Keys(init) == Keys(es)[..n] && Keys(es)[n] == last.0;
      RequestsReadExactly(c, init);
      assert AllReadable(c, es) <==> AllReadable(c, init) && c.read(last.1).Some?;
      if DecodeRequests(c, es).Some? {
        RequestsStep(c, init, last);
      }
    }
  }

  lemma RequestsStep<R>(c: Codec<R>, init: Object, last: (string, Value))
    requires last.0 !in Keys(init) && DecodeRequests(c, init).Some? && c.read(last.1).Some?
    requires forall k :: Lookup(DecodeRequests(c, init).value, k) ==
                         if Has(init, k) then c.read(Lookup(init, k).value) else None
    ensures forall k :: Lookup(SortedInsert(DecodeRequests(c, init).value, last.0, c.read(last.1).value), k) ==
                        if Has(init + [last], k) then c.read(Lookup(init + [last], k).value) else None
  {
    var rs, r := DecodeRequests(c, init).value, c.read(last.1).value;
    forall k
      ensures Lookup(SortedInsert(rs, last.0, r), k) ==
              if Has(init + [last], k) then c.read(Lookup(init + [last], k).value) else None
    {
      SortedInsertLookup(rs, last.0, r, k);
      LookupConcat(init, [last], k);
      LookupInKeys(init, k);
    }
  }

  // ------------------------------------------------------------------------------------------------------------
  // What is written
  // ------------------------------------------------------------------------------------------------------------

  const METADATA_KEYS: set<string> := {"taskId", "statusMessage", "createdAt", "lastUpdatedAt", "ttlMs", "pollIntervalMs"}
  const DETAILED_KEYS: set<string> := METADATA_KEYS + {"status", "inputRequests", "result", "error"}

  /** The time-to-live is always written, as null when unlimited; the other missing fields are left out. */
  predicate WritesMetadata(o: Object, m: TaskMetadata) {
    && TextIs(o, "taskId", m.taskId)
    && Lookup(o, "statusMessage") == (if m.statusMessage.Some? then Some(Str(m.statusMessage.value)) else None)
    && TextIs(o, "createdAt", m.createdAt) && TextIs(o, "lastUpdatedAt", m.lastUpdatedAt)
    && Lookup(o, "ttlMs") == Some(if m.ttlMs.Some? then Num(PosInt(m.ttlMs.value)) else Null)
    && Lookup(o, "pollIntervalMs") == (if m.pollIntervalMs.Some? then Some(Num(PosInt(m.pollIntervalMs.value))) else None)
  }

  lemma CarriedMetadataIsWritten(o: Object, m: TaskMetadata)
    requires CarriesMetadata(o, m)
    ensures WritesMetadata(o, m)
  {
    var fs := MetadataFields(m);
    assert fs[0].0 == "taskId" && fs[1].0 == "statusMessage" && fs[2].0 == "createdAt";
    assert fs[3].0 == "lastUpdatedAt" && fs[4].0 == "ttlMs" && fs[5].0 == "pollIntervalMs";
  }

  lemma CreateOnTheWire(c: CreateTaskResult)
    ensures var o := Compact(CreateFields(c));
            && WritesMetadata(o, c.task.metadata) && TextIs(o, "resultType", "task") && Compat.StatusIs(o, c.task.status)
            && Lookup(o, "_meta") == (if c.meta.Some? then Some(Obj(c.meta.value)) else None)
            && OnlyKeys(o, METADATA_KEYS + {"resultType", "status", "_meta"})
  {
    CreateReadsBack(c);
    CarriedMetadataIsWritten(Compact(CreateFields(c)), c.task.metadata);
    Compat.StatusRoundTrip(c.task.status);
    Compat.StatusReadsExactly(Compact(CreateFields(c)), c.task.status);
    CompactOnlyKeys(CreateFields(c), METADATA_KEYS + {"resultType", "status", "_meta"});
  }

  /** A get result writes its discriminator, its status by name, its metadata, and no payload but that of its status. */
  lemma GetOnTheWire<R>(c: Codec<R>, g: GetTaskResult<R>)
    requires EncodeGet(c, g).Ok?
    ensures var o := EncodeGet(c, g).value;
            && WritesMetadata(o, g.task.metadata) && TextIs(o, "resultType", "complete")
            && Compat.StatusIs(o, g.task.Status())
            && Lookup(o, "_meta") == (if g.meta.Some? then Some(Obj(g.meta.value)) else None)
            && OnlyKeys(o, DETAILED_KEYS + {"resultType", "_meta"})
  {
    var requests := WireRequests(c, g.task).value;
    GetReadsBack(g, requests);
    CarriedMetadataIsWritten(Compact(GetFields(g, requests)), g.task.metadata);
    Compat.StatusRoundTrip(g.task.Status());
    Compat.StatusReadsExactly(Compact(GetFields(g, requests)), g.task.Status());
    GetWritesOnly(g, requests);
  }

  lemma GetWritesOnly<R>(g: GetTaskResult<R>, requests: Object)
    ensures OnlyKeys(Compact(GetFields(g, requests)), DETAILED_KEYS + {"resultType", "_meta"})
  {
    CompactOnlyKeys(GetFields(g, requests), DETAILED_KEYS + {"resultType", "_meta"});
  }

  lemma NotificationOnTheWire<R>(c: Codec<R>, n: TaskStatusNotification<R>)
    requires EncodeNotification(c, n).Ok?
    ensures var o := EncodeNotification(c, n).value;
            && WritesMetadata(o, n.task.metadata) && Compat.StatusIs(o, n.task.Status())
            && Lookup(o, "_meta") == (if n.meta.Some? then Some(Obj(n.meta.value)) else None)
            && OnlyKeys(o, DETAILED_KEYS + {"_meta"})
  {
    var requests := WireRequests(c, n.task).value;
    NotificationReadsBack(n, requests);
    CarriedMetadataIsWritten(Compact(NotificationFields(n, requests)), n.task.metadata);
    Compat.StatusRoundTrip(n.task.Status());
    Compat.StatusReadsExactly(Compact(NotificationFields(n, requests)), n.task.Status());
    CompactOnlyKeys(NotificationFields(n, requests), DETAILED_KEYS + {"_meta"});
  }

  lemma AckOnTheWire(a: TaskAcknowledgement)
    ensures var o := Compact(AckFields(a));
            && TextIs(o, "resultType", "complete") && OnlyKeys(o, {"resultType", "_meta"})
            && Lookup(o, "_meta") == (if a.meta.Some? then Some(Obj(a.meta.value)) else None)
  {
    AckLookups(a);
    CompactOnlyKeys(AckFields(a), {"resultType", "_meta"});
  }
}
