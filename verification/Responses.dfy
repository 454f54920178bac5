/**
 * The untagged response type: the first of its variants, in declaration order, whose own reader takes the value. The
 * readers of tool results, input-required results, empty results and tasks are modelled; of every other variant only
 * the field it cannot do without is, for the early ones, and the rest of its reader is an arbitrary predicate.
 */
module Responses {
  import opened Prelude
  import opened Entries
  import opened Json
  import opened MetaKeys
  import opened ResultTypes
  import ToolResults
  import FormSchema
  import Compat = CompatTasks
  import Final = FinalTasks
  import Requests = InputRequests

  datatype Variant =
    | Initialize | ListTools | CallTool | InputRequiredResponse | ListResources | ListResourceTemplates | ReadResource
    | SubscribeResource | UnsubscribeResource | ListPrompts | GetPrompt | FinalCreateTask | FinalGetTask | FinalTaskAck
    | CreateTask | GetTaskInfo | UpdateTask | CancelTask | SetLoggingLevel | CompleteResponse | Pong | Discover
    | SubscriptionsAccepted | SubscriptionsListen | Empty | Raw

  // ------------------------------------------------------------------------------------------------------------
  // Input-required results
  // ------------------------------------------------------------------------------------------------------------

  datatype InputRequiredResult<R> = InputRequiredResult(
    resultType: ResultType, inputRequests: Option<Final.Requests<R>>, requestState: Option<string>, meta: Option<Value>)

  type Fields = seq<(string, Option<Value>)>

  function InputRequiredFields<R>(r: InputRequiredResult<R>, requests: Object): Fields {
    [("resultType", Some(Str(r.resultType.AsStr()))),
     ("inputRequests", if r.inputRequests.Some? then Some(Obj(requests)) else None),
     ("requestState", OptStr(r.requestState)),
     ("_meta", r.meta)]
  }

  function EncodeInputRequired<R>(c: Codec<R>, r: InputRequiredResult<R>): Result<Object, MetaError> {
    var requests :- Final.EncodeRequests(c, Pending(r));
    var _ :- EncodeMeta(r.meta);
    Ok(Compact(InputRequiredFields(r, requests)))
  }

  function Pending<R>(r: InputRequiredResult<R>): Final.Requests<R> {
    if r.inputRequests.Some? then r.inputRequests.value else []
  }

  function ReadPending<R>(c: Codec<R>, v: Value): Option<Final.Requests<R>> {
    var es :- ReadObject(v);
    var rs :- Final.DecodeRequests(c, es);
    assert Increasing(Keys(rs)) by { Final.DecodedRequestsAreSorted(c, es); }
    Some(rs)
  }

  function ReadPendingField<R>(c: Codec<R>, o: Object): Option<Option<Final.Requests<R>>> {
    Optional(o, "inputRequests", v => ReadPending(c, v))
  }

  /** A missing discriminator reads as `input_required`, and any string is taken for one. */
  function DecodeInputRequired<R>(c: Codec<R>, v: Value): Option<InputRequiredResult<R>> {
    var o :- ReadObject(v);
    var resultType :- if Has(o, "resultType") then ReadResultType(Lookup(o, "resultType").value) else Some(InputRequired);
    var inputRequests :- ReadPendingField(c, o);
    var requestState :- Optional(o, "requestState", ReadStr);
    var meta :- ReadMetaField(o);
    Some(InputRequiredResult(resultType, inputRequests, requestState, meta))
  }

  /** What keeps an object from being an input-required result: a known field of the wrong kind, and nothing else. */
  ghost predicate TakenAsInputRequired<R>(c: Codec<R>, o: Object) {
    && (Has(o, "resultType") ==> Lookup(o, "resultType").value.Str?)
    && (!Has(o, "inputRequests") || Lookup(o, "inputRequests") == Some(Null)
        || (Lookup(o, "inputRequests").value.Obj? && Final.AllReadable(c, Lookup(o, "inputRequests").value.entries)))
    && (!Has(o, "requestState") || Lookup(o, "requestState") == Some(Null) || Lookup(o, "requestState").value.Str?)
    && (!Has(o, "_meta") || Lookup(o, "_meta") == Some(Null) || Lookup(o, "_meta").value.Obj?)
  }

  lemma {:induction false} RequestsDecodeWhenReadable<R>(c: Codec<R>, es: Object)
    ensures Final.DecodeRequests(c, es).Some? <==> Final.AllReadable(c, es)
  {
    if es == [] {
    } else {
      var n := |es| - 1;
      RequestsDecodeWhenReadable(c, es[..n]);
      assert Final.AllReadable(c, es) <==> Final.AllReadable(c, es[..n]) && c.read(es[n].1).Some? by {
        assert es == es[..n] + [es[n]];
      }
    }
  }

  lemma InputRequiredAccepts<R>(c: Codec<R>, o: Object)
    ensures DecodeInputRequired(c, Obj(o)).Some? <==> TakenAsInputRequired(c, o)
  {
    if Has(o, "inputRequests") && Lookup(o, "inputRequests").value.Obj? {
      RequestsDecodeWhenReadable(c, Lookup(o, "inputRequests").value.entries);
    }
  }

  // ------------------------------------------------------------------------------------------------------------
  // The untagged reader
  // ------------------------------------------------------------------------------------------------------------

  /** The readers that are not modelled. */
  type OtherReaders = (Variant, Value) -> bool

  /** A reader that cannot do without a field; the rest of it is not modelled. */
  predicate TakesWith(others: OtherReaders, k: Variant, field: string, v: Value) { Get(v, field).Some? && others(k, v) }

  /** An empty result has no field and refuses none. */
  predicate TakesAsEmpty(v: Value) { v.Obj? }

  function ReadResponse<R>(c: Codec<R>, others: OtherReaders, v: Value): Variant {
    if TakesWith(others, Initialize, "protocolVersion", v) then Initialize
    else if TakesWith(others, ListTools, "tools", v) then ListTools
    else if ToolResults.DecodeResult(v).Some? then CallTool
    else if DecodeInputRequired(c, v).Some? then InputRequiredResponse
    else if TakesWith(others, ListResources, "resources", v) then ListResources
    else if TakesWith(others, ListResourceTemplates, "resourceTemplates", v) then ListResourceTemplates
    else if TakesWith(others, ReadResource, "contents", v) then ReadResource
    else if TakesAsEmpty(v) then SubscribeResource
    else ReadLateResponse(c, others, v)
  }

  function ReadLateResponse<R>(c: Codec<R>, others: OtherReaders, v: Value): Variant {
    if TakesAsEmpty(v) then UnsubscribeResource
    else if others(ListPrompts, v) then ListPrompts
    else if others(GetPrompt, v) then GetPrompt
    else if v.Obj? && Final.DecodeCreate(v.entries).Some? then FinalCreateTask
    else if v.Obj? && Final.DecodeGet(c, v.entries).Some? then FinalGetTask
    else if v.Obj? && Final.DecodeAck(v.entries).Some? then FinalTaskAck
    else if Compat.DecodeCreate(v).Some? then CreateTask
    else if v.Obj? && Compat.DecodeTask(v.entries).Some? then GetTaskInfo
    else if TakesAsEmpty(v) then UpdateTask
    else if TakesAsEmpty(v) then CancelTask
    else if TakesAsEmpty(v) then SetLoggingLevel
    else if others(CompleteResponse, v) then CompleteResponse
    else if TakesAsEmpty(v) then Pong
    else if others(Discover, v) then Discover
    else if others(SubscriptionsAccepted, v) then SubscriptionsAccepted
    else if others(SubscriptionsListen, v) then SubscriptionsListen
    else if TakesAsEmpty(v) then Empty
    else Raw
  }

  /**
   * Whatever the other readers do, an object never comes out as a final task response, a legacy one, or anything else
   * declared after the first empty result, which takes every object.
   */
  lemma ObjectsStopAtTheFirstEmptyResult<R>(c: Codec<R>, others: OtherReaders, o: Object)
    ensures ReadResponse(c, others, Obj(o)) in
              {Initialize, ListTools, CallTool, InputRequiredResponse, ListResources, ListResourceTemplates, ReadResource,
               SubscribeResource}
    ensures ReadResponse(c, others, Obj(o)) !in {FinalCreateTask, FinalGetTask, FinalTaskAck, CreateTask, GetTaskInfo}
  {}

  /** None of the fields that the earlier variants require. */
  predicate Plain(o: Object) {
    && !Has(o, "protocolVersion") && !Has(o, "tools") && !Has(o, "content")
    && !Has(o, "resources") && !Has(o, "resourceTemplates") && !Has(o, "contents")
  }

  /** Without those fields an object is an input-required result or an empty one. */
  lemma PlainObjects<R>(c: Codec<R>, others: OtherReaders, o: Object)
    requires Plain(o)
    ensures ReadResponse(c, others, Obj(o)) ==
            if TakenAsInputRequired(c, o) then InputRequiredResponse else SubscribeResource
  {
    assert ToolResults.DecodeResult(Obj(o)).None?;
    InputRequiredAccepts(c, o);
  }

  // ------------------------------------------------------------------------------------------------------------
  // Final task responses
  // ------------------------------------------------------------------------------------------------------------

  lemma PlainFields(fields: Fields)
    requires "protocolVersion" !in Keys(fields) && "tools" !in Keys(fields) && "content" !in Keys(fields)
    requires "resources" !in Keys(fields) && "resourceTemplates" !in Keys(fields) && "contents" !in Keys(fields)
    ensures Plain(Compact(fields))
  {
    CompactAbsent(fields, "protocolVersion");
    CompactAbsent(fields, "tools");
    CompactAbsent(fields, "content");
    CompactAbsent(fields, "resources");
    CompactAbsent(fields, "resourceTemplates");
    CompactAbsent(fields, "contents");
  }

  lemma CreationIsPlain(create: Final.CreateTaskResult)
    ensures var o := Compact(Final.CreateFields(create)); Plain(o) && !Has(o, "inputRequests") && !Has(o, "requestState")
  {
    var fs := Final.CreateFields(create);
    PlainFields(fs);
    CompactAbsent(fs, "inputRequests");
    CompactAbsent(fs, "requestState");
  }

  lemma GetIsPlain<R>(get: Final.GetTaskResult<R>, requests: Object)
    ensures var o := Compact(Final.GetFields(get, requests)); Plain(o) && !Has(o, "requestState")
  {
    var fs := Final.GetFields(get, requests);
    PlainFields(fs);
    CompactAbsent(fs, "requestState");
  }

  lemma AckIsPlain(ack: Final.TaskAcknowledgement)
    ensures var o := Compact(Final.AckFields(ack)); Plain(o) && !Has(o, "inputRequests") && !Has(o, "requestState")
  {
    var fs := Final.AckFields(ack);
    PlainFields(fs);
    CompactAbsent(fs, "inputRequests");
    CompactAbsent(fs, "requestState");
  }

  lemma CreationIsMisread<R>(c: Codec<R>, others: OtherReaders, create: Final.CreateTaskResult)
    ensures ReadResponse(c, others, Obj(Compact(Final.CreateFields(create)))) == InputRequiredResponse
  {
    var o := Compact(Final.CreateFields(create));
    CreationIsPlain(create);
    assert TakenAsInputRequired(c, o) by { Final.CreateReadsBack(create); }
    PlainObjects(c, others, o);
  }

  /** Of a get result only the outstanding requests can keep it from being taken for an input-required result. */
  lemma GetIsTaken<R>(c: Codec<R>, get: Final.GetTaskResult<R>, requests: Object)
    requires Final.WireRequests(c, get.task) == Ok(requests)
    ensures TakenAsInputRequired(c, Compact(Final.GetFields(get, requests))) <==> Final.AllRead(c, Final.Outstanding(get.task))
  {
    Final.GetReadsBack(get, requests);
    GetIsPlain(get, requests);
    if get.task.InputRequired? {
      WrittenRequestsReadable(c, get.task.inputRequests);
    }
  }

  lemma GetIsMisread<R>(c: Codec<R>, others: OtherReaders, get: Final.GetTaskResult<R>)
    requires Final.EncodeGet(c, get).Ok?
    ensures ReadResponse(c, others, Obj(Final.EncodeGet(c, get).value)) ==
            if Final.AllRead(c, Final.Outstanding(get.task)) then InputRequiredResponse else SubscribeResource
  {
    var requests := Final.WireRequests(c, get.task).value;
    GetIsTaken(c, get, requests);
    GetIsPlain(get, requests);
    PlainObjects(c, others, Final.EncodeGet(c, get).value);
  }

  lemma WrittenRequestsReadable<R>(c: Codec<R>, rs: Final.Requests<R>)
    requires Final.EncodeRequests(c, rs).Ok?
    ensures Final.AllReadable(c, Final.EncodeRequests(c, rs).value) <==> Final.AllRead(c, rs)
  {
    Final.RequestsReadBack(c, rs);
    RequestsDecodeWhenReadable(c, Final.EncodeRequests(c, rs).value);
  }

  lemma AckIsMisread<R>(c: Codec<R>, others: OtherReaders, ack: Final.TaskAcknowledgement)
    ensures ReadResponse(c, others, Obj(Compact(Final.AckFields(ack)))) == InputRequiredResponse
  {
    var o := Compact(Final.AckFields(ack));
    AckIsPlain(ack);
    assert TakenAsInputRequired(c, o) by { Final.AckLookups(ack); }
    PlainObjects(c, others, o);
  }

  /**
   * No final task response is recovered: each one that can be written is taken for an input-required result, or, when it
   * is a get result with an outstanding request that cannot be read back, for an empty one.
   */
  lemma FinalResponsesAreMisread<R>(c: Codec<R>, others: OtherReaders, r: Final.TaskResponse<R>)
    requires Final.EncodeResponse(c, r).Ok?
    ensures ReadResponse(c, others, Obj(Final.EncodeResponse(c, r).value)) ==
            if Final.AllRead(c, Final.RequestsOf(r)) then InputRequiredResponse else SubscribeResource
  {
    match r
    case FinalCreate(create) => CreationIsMisread(c, others, create);
    case FinalGet(get) => GetIsMisread(c, others, get);
    case FinalAck(ack) => AckIsMisread(c, others, ack);
  }

  /** The plainest get result, of a task at work, comes out as an input-required result. */
  lemma WorkingTaskIsMisread<R>(c: Codec<R>, others: OtherReaders)
    ensures var g := Final.GetTaskResult(Final.Working(Final.SomeMetadata()), None);
            && Final.EncodeGet(c, g).Ok? && Final.DecodeGet(c, Final.EncodeGet(c, g).value) == Some(g)
            && ReadResponse(c, others, Obj(Final.EncodeGet(c, g).value)) == InputRequiredResponse
  {
    var g := Final.GetTaskResult(Final.Working(Final.SomeMetadata()), None);
    Final.GetRoundTrip(c, g);
    GetIsMisread(c, others, g);
  }

  /** A task that waits for a form with a refused raw field comes out as an empty result. */
  lemma RefusedFormIsMisread<S, M>(cs: Requests.Codecs<S, M>, others: OtherReaders)
    ensures var c := Requests.RequestCodec(cs); var g := Requests.WaitingForForm<S, M>([FormSchema.RAW_TITLE]);
            && Final.EncodeGet(c, g).Ok?
            && ReadResponse(c, others, Obj(Final.EncodeGet(c, g).value)) == SubscribeResource
  {
    var c, g := Requests.RequestCodec(cs), Requests.WaitingForForm<S, M>([FormSchema.RAW_TITLE]);
    assert Final.EncodeGet(c, g).Ok? && !Final.AllRead(c, Final.Outstanding(g.task)) by {
      Requests.RefusedRawFieldIsUnreadable(cs);
    }
    GetIsMisread(c, others, g);
  }

  // ------------------------------------------------------------------------------------------------------------
  // The two modelled variants that do come back
  // ------------------------------------------------------------------------------------------------------------

  lemma ToolResultHasNoEarlierField(r: ToolResults.CallToolResult, content: seq<Value>)
    ensures var o := Compact(ToolResults.ResultFields(r, content)); !Has(o, "protocolVersion") && !Has(o, "tools")
  {
    CompactAbsent(ToolResults.ResultFields(r, content), "protocolVersion");
    CompactAbsent(ToolResults.ResultFields(r, content), "tools");
  }

  /** A written tool result is read as one. */
  lemma ToolResultsAreRecovered<R>(c: Codec<R>, others: OtherReaders, r: ToolResults.CallToolResult)
    requires ToolResults.EncodeResult(r).Ok?
    ensures ReadResponse(c, others, Obj(ToolResults.EncodeResult(r).value)) == CallTool
  {
    ToolResultHasNoEarlierField(r, WriteEach(r.content, ToolResults.EncodeContent).value);
    assert ToolResults.DecodeResult(Obj(ToolResults.EncodeResult(r).value)).Some? by { ToolResults.ResultRoundTrip(r); }
  }

  lemma InputRequiredLookups<R>(r: InputRequiredResult<R>, requests: Object)
    ensures var o := Compact(InputRequiredFields(r, requests));
            && Lookup(o, "resultType") == Some(Str(r.resultType.AsStr()))
            && Lookup(o, "inputRequests") == (if r.inputRequests.Some? then Some(Obj(requests)) else None)
            && Lookup(o, "requestState") == OptStr(r.requestState) && Lookup(o, "_meta") == r.meta
  {
    var fs := InputRequiredFields(r, requests);
    CompactLookup(fs, 0);
    CompactLookup(fs, 1);
    CompactLookup(fs, 2);
    CompactLookup(fs, 3);
  }

  lemma PendingReadsBack<R>(c: Codec<R>, o: Object, r: InputRequiredResult<R>)
    requires Final.EncodeRequests(c, Pending(r)).Ok?
    requires Lookup(o, "inputRequests") ==
             if r.inputRequests.Some? then Some(Obj(Final.EncodeRequests(c, Pending(r)).value)) else None
    ensures var back := ReadPendingField(c, o);
            && (back.Some? <==> Final.AllRead(c, Pending(r)))
            && (back == Some(r.inputRequests) <==> Final.AllSurvive(c, Pending(r)))
  {
    var rs := Pending(r);
    Final.RequestsReadBack(c, rs);
    if Final.AllSurvive(c, rs) {
      assert forall i :: 0 <= i < |rs| ==> c.Survives(rs[i].1);
    }
    if Final.AllRead(c, rs) {
      Final.RereadIsSame(c, rs);
    }
  }

  lemma InputRequiredReadsBack<R>(c: Codec<R>, r: InputRequiredResult<R>)
    requires EncodeInputRequired(c, r).Ok?
    ensures var back := DecodeInputRequired(c, Obj(EncodeInputRequired(c, r).value));
            && (back.Some? <==> Final.AllRead(c, Pending(r)))
            && (back == Some(r) <==> Final.AllSurvive(c, Pending(r)) && r.resultType.Canonical())
  {
    var requests := Final.EncodeRequests(c, Pending(r)).value;
    var o := Compact(InputRequiredFields(r, requests));
    InputRequiredLookups(r, requests);
    assert ReadMetaField(o) == Some(r.meta) by { EncodedMetaReadsBack(r.meta); }
    PendingReadsBack(c, o, r);
    assert ReadResultType(Str(r.resultType.AsStr())) == Some(r.resultType) <==> r.resultType.Canonical();
  }

  /**
   * A written input-required result is read as that variant when its requests can be read back, and as itself exactly
   * when they survive and its discriminator is not a defined one spelled as an extension value.
   */
  lemma InputRequiredIsRecovered<R>(c: Codec<R>, others: OtherReaders, r: InputRequiredResult<R>)
    requires EncodeInputRequired(c, r).Ok?
    ensures var o := EncodeInputRequired(c, r).value;
            && (ReadResponse(c, others, Obj(o)) ==
                if Final.AllRead(c, Pending(r)) then InputRequiredResponse else SubscribeResource)
            && (DecodeInputRequired(c, Obj(o)) == Some(r) <==> Final.AllSurvive(c, Pending(r)) && r.resultType.Canonical())
  {
    var requests := Final.EncodeRequests(c, Pending(r)).value;
    var o := Compact(InputRequiredFields(r, requests));
    InputRequiredReadsBack(c, r);
    PlainFields(InputRequiredFields(r, requests));
    InputRequiredAccepts(c, o);
    PlainObjects(c, others, o);
  }

  // ------------------------------------------------------------------------------------------------------------
  // Any object
  // ------------------------------------------------------------------------------------------------------------

  ghost predicate PendingFieldIs<R>(c: Codec<R>, o: Object, rs: Option<Final.Requests<R>>) {
    if rs.None? then Missing(o, "inputRequests")
    else Has(o, "inputRequests") && Lookup(o, "inputRequests").value.Obj?
         && Final.DecodeRequests(c, Lookup(o, "inputRequests").value.entries) == rs
  }

  /** An object is an input-required result of these fields exactly; without a discriminator it is one by default. */
  lemma InputRequiredReadsExactly<R>(c: Codec<R>, o: Object, r: InputRequiredResult<R>)
    ensures DecodeInputRequired(c, Obj(o)) == Some(r) <==>
              && (if Has(o, "resultType") then r.resultType.Canonical() && TextIs(o, "resultType", r.resultType.AsStr())
                  else r.resultType == InputRequired)
              && PendingFieldIs(c, o, r.inputRequests) && MaybeTextIs(o, "requestState", r.requestState) && MetaIs(o, r.meta)
  {
    MetaReadsExactly(o, r.meta);
    PendingFieldReadsExactly(c, o, r.inputRequests);
  }

  lemma PendingFieldReadsExactly<R>(c: Codec<R>, o: Object, rs: Option<Final.Requests<R>>)
    ensures ReadPendingField(c, o) == Some(rs) <==> PendingFieldIs(c, o, rs)
  {}

  /** What takes an object, of the seven variants before the first empty result. */
  ghost predicate Claims<R>(c: Codec<R>, others: OtherReaders, k: Variant, o: Object) {
    match k
    case Initialize => Has(o, "protocolVersion") && others(Initialize, Obj(o))
    case ListTools => Has(o, "tools") && others(ListTools, Obj(o))
    case CallTool => ToolResults.IsToolResult(Obj(o))
    case InputRequiredResponse => TakenAsInputRequired(c, o)
    case ListResources => Has(o, "resources") && others(ListResources, Obj(o))
    case ListResourceTemplates => Has(o, "resourceTemplates") && others(ListResourceTemplates, Obj(o))
    case ReadResource => Has(o, "contents") && others(ReadResource, Obj(o))
    case SubscribeResource => true
    case _ => false
  }

  /** The place of a variant among the first eight. */
  function Place(k: Variant): nat {
    match k
    case Initialize => 0
    case ListTools => 1
    case CallTool => 2
    case InputRequiredResponse => 3
    case ListResources => 4
    case ListResourceTemplates => 5
    case ReadResource => 6
    case _ => 7
  }

  /** An object comes out as the first of the eight that claims it. */
  lemma FirstClaimWins<R>(c: Codec<R>, others: OtherReaders, o: Object, k: Variant)
    ensures ReadResponse(c, others, Obj(o)) == k <==>
              Claims(c, others, k, o) && forall j :: Place(j) < Place(k) ==> !Claims(c, others, j, o)
  {
    ToolResults.ResultsAccepted(Obj(o));
    InputRequiredAccepts(c, o);
    var found := ReadResponse(c, others, Obj(o));
    assert Claims(c, others, found, o);
    forall j | Place(j) < Place(found)
      ensures !Claims(c, others, j, o)
    {
      NoEarlierClaim(c, others, o, j);
    }
  }

  lemma NoEarlierClaim<R>(c: Codec<R>, others: OtherReaders, o: Object, j: Variant)
    requires Place(j) < Place(ReadResponse(c, others, Obj(o)))
    ensures !Claims(c, others, j, o)
  {
    ToolResults.ResultsAccepted(Obj(o));
    InputRequiredAccepts(c, o);
  }

  /** An input-required result always writes its discriminator, and of the other fields those it has. */
  lemma InputRequiredOnTheWire<R>(c: Codec<R>, r: InputRequiredResult<R>)
    requires EncodeInputRequired(c, r).Ok?
    ensures var o := EncodeInputRequired(c, r).value;
            && TextIs(o, "resultType", match r.resultType
                                       case Complete => "complete"
                                       case InputRequired => "input_required"
                                       case Other(s) => s)
            && (Has(o, "inputRequests") <==> r.inputRequests.Some?)
            && Lookup(o, "requestState") == (if r.requestState.Some? then Some(Str(r.requestState.value)) else None)
            && Lookup(o, "_meta") == r.meta && OnlyKeys(o, {"resultType", "inputRequests", "requestState", "_meta"})
  {
    var requests := Final.EncodeRequests(c, Pending(r)).value;
    InputRequiredLookups(r, requests);
    CompactOnlyKeys(InputRequiredFields(r, requests), {"resultType", "inputRequests", "requestState", "_meta"});
  }

  /** A value that is no object, and that no other reader takes, is kept raw. */
  lemma OtherValuesAreRaw<R>(c: Codec<R>, others: OtherReaders, v: Value)
    requires !v.Obj? && forall k :: !others(k, v)
    ensures ReadResponse(c, others, v) == Raw
  {}
}
