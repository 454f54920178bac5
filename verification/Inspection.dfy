/** Semantic inspection of JSON-RPC payloads: the classifier for envelopes and batches. */
module Inspection {
  import opened Prelude
  import opened Entries
  import opened Json
  import opened RequestIds
  import opened JsonRpc

  datatype Envelope =
    | Call(request: Request)
    | Notice(notification: Notification)
    | Success(result: ResultResponse)
    | Failure(error: ErrorResponse)

  datatype Side = Calls | Responses
  datatype Batch = Batch(kind: Side, messages: seq<Envelope>)
  datatype Payload = Single(envelope: Envelope) | Many(batch: Batch)

  datatype ErrorKind =
    | InvalidTopLevel | InvalidBatchMember | EmptyBatch | MixedBatch | MissingField | InvalidField
    | InvalidVersion | ConflictingFields | InvalidEnvelope

  datatype InspectionError = InspectionError(kind: ErrorKind, batchIndex: Option<nat>, field: Option<string>) {
    function AtBatchIndex(index: nat): InspectionError { this.(batchIndex := Some(index)) }
  }

  type Check = Option<InspectionError>

  function Bad(kind: ErrorKind, field: string): InspectionError { InspectionError(kind, None, Some(field)) }

  function SideOf(e: Envelope): Side {
    if e.Call? || e.Notice? then Calls else Responses
  }

  // ------------------------------------------------------------------------------------------------------------
  // Field checks
  // ------------------------------------------------------------------------------------------------------------

  function InspectVersion(o: Object): Check {
    var v := Lookup(o, "jsonrpc");
    if v.None? then Some(Bad(MissingField, "jsonrpc"))
    else if !v.value.Str? then Some(Bad(InvalidField, "jsonrpc"))
    else if v.value.s == VERSION then None
    else Some(Bad(InvalidVersion, "jsonrpc"))
  }

  function InspectMethod(o: Object): Check {
    var v := Lookup(o, "method");
    if v.None? then Some(Bad(MissingField, "method"))
    else if v.value.Str? && v.value.s != "" then None
    else Some(Bad(InvalidField, "method"))
  }

  function InspectParams(o: Object): Check {
    var v := Lookup(o, "params");
    if v.None? || v.value.Obj? || v.value.Arr? then None else Some(Bad(InvalidField, "params"))
  }

  function InspectNonNullId(o: Object): Check {
    var v := Lookup(o, "id");
    if v.None? then Some(Bad(MissingField, "id"))
    else if FromJson(v.value).Some? then None
    else Some(Bad(InvalidField, "id"))
  }

  function InspectOptionalErrorId(o: Object): Check {
    var v := Lookup(o, "id");
    if v.None? || v.value.Null? || FromJson(v.value).Some? then None else Some(Bad(InvalidField, "id"))
  }

  /** `decode_value`: a failed typed decode, reported against a field only for error responses. */
  function Decoded<T>(t: Option<T>, field: Option<string>): Result<T, InspectionError> {
    if t.Some? then Ok(t.value) else Err(InspectionError(InvalidField, None, field))
  }

  function InspectEnvelope(v: Value): Result<Envelope, InspectionError>
    requires v.Obj?
  {
    var o := v.entries;
    var hasMethod, hasResult, hasError := Has(o, "method"), Has(o, "result"), Has(o, "error");
    if InspectVersion(o).Some? then Err(InspectVersion(o).value)
    else if hasMethod && (hasResult || hasError) then Err(Bad(ConflictingFields, "method"))
    else if hasResult && hasError then Err(Bad(ConflictingFields, "result"))
    else if hasMethod then
      if InspectMethod(o).Some? then Err(InspectMethod(o).value)
      else if InspectParams(o).Some? then Err(InspectParams(o).value)
      else if Has(o, "id") then
        if InspectNonNullId(o).Some? then Err(InspectNonNullId(o).value)
        else
          var request :- Decoded(DecodeRequest(o), None);
          Ok(Call(request))
      else
        var notification :- Decoded(DecodeNotification(o), None);
        Ok(Notice(notification))
    else if hasResult then
      if InspectNonNullId(o).Some? then Err(InspectNonNullId(o).value)
      else
        var result :- Decoded(DecodeResult(o), None);
        Ok(Success(result))
    else if hasError then
      if InspectOptionalErrorId(o).Some? then Err(InspectOptionalErrorId(o).value)
      else
        var error :- Decoded(DecodeErrorResponse(o), Some("error"));
        Ok(Failure(error))
    else Err(InspectionError(InvalidEnvelope, None, None))
  }

  // ------------------------------------------------------------------------------------------------------------
  // What an envelope is, stated from JSON-RPC 2.0 sections 4, 4.1, 5 and 5.1 rather than from the checks
  // ------------------------------------------------------------------------------------------------------------

  predicate IdIs(o: Object, id: RequestId) {
    Has(o, "id") && FromJson(Lookup(o, "id").value) == Some(id)
  }

  predicate ParamsAre(o: Object, params: Option<Value>) {
    Lookup(o, "params") == params && (params.Some? ==> params.value.Obj? || params.value.Arr?)
  }

  /** `o` is a wire form of `e`. */
  predicate Represents(o: Object, e: Envelope) {
    && Lookup(o, "jsonrpc") == Some(Str("2.0"))
    && match e
       case Call(r) =>
         && r.jsonrpc == "2.0" && IdIs(o, r.id) && ParamsAre(o, r.params)
         && Lookup(o, "method") == Some(Str(r.method_)) && r.method_ != ""
         && !Has(o, "result") && !Has(o, "error")
       case Notice(r) =>
         && r.jsonrpc == "2.0" && !Has(o, "id") && ParamsAre(o, r.params)
         && Lookup(o, "method") == Some(Str(r.method_)) && r.method_ != ""
         && !Has(o, "result") && !Has(o, "error")
       case Success(r) =>
         && r.jsonrpc == "2.0" && IdIs(o, r.id) && Lookup(o, "result") == Some(r.result)
         && !Has(o, "method") && !Has(o, "error")
       case Failure(r) =>
         && r.jsonrpc == "2.0"
         && (if r.id.Some? then IdIs(o, r.id.value) else !Has(o, "id") || Lookup(o, "id") == Some(Null))
         && Has(o, "error") && DecodeError(Lookup(o, "error").value) == Some(r.error)
         && !Has(o, "method") && !Has(o, "result")
  }

  /** Once the checks pass, only a malformed error object can make a typed decode fail. */
  lemma PreChecksMakeDecodeTotal(o: Object)
    requires InspectVersion(o) == None
    ensures InspectMethod(o) == None && InspectNonNullId(o) == None ==> DecodeRequest(o).Some?
    ensures InspectMethod(o) == None ==> DecodeNotification(o).Some?
    ensures Has(o, "result") && InspectNonNullId(o) == None ==> DecodeResult(o).Some?
    ensures Has(o, "error") && InspectOptionalErrorId(o) == None ==>
              (DecodeErrorResponse(o).Some? <==> DecodeError(Lookup(o, "error").value).Some?)
  {
    if Has(o, "id") {
      ReadersAgree(Lookup(o, "id").value);
    }
  }

  /** Inspection returns `e` exactly when the object is a wire form of `e`: sound, complete and unambiguous. */
  lemma EnvelopeInspectionIsExact(o: Object, e: Envelope)
    ensures InspectEnvelope(Obj(o)) == Ok(e) ==> Represents(o, e)
    ensures Represents(o, e) ==> InspectEnvelope(Obj(o)) == Ok(e)
  {
    if Has(o, "id") {
      ReadersAgree(Lookup(o, "id").value);
    }
  }

  /** The failure report reserved for a request, notification or success decode is never produced. */
  lemma OnlyErrorObjectsFailToDecode(o: Object)
    requires InspectEnvelope(Obj(o)).Err?
    ensures var e := InspectEnvelope(Obj(o)).error;
            && e.batchIndex == None
            && (e.kind == InvalidField ==> e.field.Some?)
            && (e == Bad(InvalidField, "error") ==> Has(o, "error") && DecodeError(Lookup(o, "error").value) == None)
  {
    if InspectVersion(o) == None {
      PreChecksMakeDecodeTotal(o);
    }
    assert "error" != "jsonrpc" && "error" != "params" && "error" != "method" && "error" != "id";
  }

  /** Which members of the call and response families an object has; more than one family is a conflict. */
  predicate Conflict(o: Object) {
    (Has(o, "method") && (Has(o, "result") || Has(o, "error"))) || (Has(o, "result") && Has(o, "error"))
  }

  /** A call needs a usable id only when it has one; a result always does; an error may leave it out or null. */
  predicate IdProblem(o: Object) {
    var v := Lookup(o, "id");
    if v.None? then Has(o, "result")
    else FromJson(v.value).None? && !(Has(o, "error") && v.value.Null?)
  }

  /** Every error names the first thing wrong, in the order version, conflict, method, params, id, error object. */
  lemma EnvelopeErrorIsFirstProblem(o: Object)
    requires InspectEnvelope(Obj(o)).Err?
    ensures var e := InspectEnvelope(Obj(o)).error; var version := Lookup(o, "jsonrpc"); var m := Lookup(o, "method");
            var params := Lookup(o, "params");
            if version.None? then e == Bad(MissingField, "jsonrpc")
            else if !version.value.Str? then e == Bad(InvalidField, "jsonrpc")
            else if version.value.s != "2.0" then e == Bad(InvalidVersion, "jsonrpc")
            else if Conflict(o) then e == Bad(ConflictingFields, if m.Some? then "method" else "result")
            else if m.Some? && (!m.value.Str? || m.value.s == "") then e == Bad(InvalidField, "method")
            else if m.Some? && params.Some? && !params.value.Obj? && !params.value.Arr? then e == Bad(InvalidField, "params")
            else if m.None? && !Has(o, "result") && !Has(o, "error") then e == InspectionError(InvalidEnvelope, None, None)
            else if IdProblem(o) then e == Bad(if Has(o, "id") then InvalidField else MissingField, "id")
            else e == Bad(InvalidField, "error") && Has(o, "error") && DecodeError(Lookup(o, "error").value) == None
  {
    if InspectVersion(o) == None {
      PreChecksMakeDecodeTotal(o);
    }
  }

  // ------------------------------------------------------------------------------------------------------------
  // Writing and inspecting
  // ------------------------------------------------------------------------------------------------------------

  function EncodeEnvelope(e: Envelope): Object {
    match e
    case Call(r) => Compact(RequestFields(r))
    case Notice(r) => Compact(NotificationFields(r))
    case Success(r) => Compact(ResultFields(r))
    case Failure(r) => Compact(ErrorResponseFields(r))
  }

  /** What a message must satisfy for its own serialization to be inspected back unchanged. */
  predicate Conforms(e: Envelope) {
    match e
    case Call(r) => r.jsonrpc == "2.0" && r.method_ != "" && (r.params.Some? ==> r.params.value.Obj? || r.params.value.Arr?)
    case Notice(r) => r.jsonrpc == "2.0" && r.method_ != "" && (r.params.Some? ==> r.params.value.Obj? || r.params.value.Arr?)
    case Success(r) => r.jsonrpc == "2.0"
    case Failure(r) => r.jsonrpc == "2.0" && r.error.data != Some(Null)
  }

  lemma EncodedFields(e: Envelope)
    ensures var o := EncodeEnvelope(e);
            match e
            case Call(r) =>
              && Lookup(o, "jsonrpc") == Some(Str(r.jsonrpc)) && Lookup(o, "id") == Some(ToJson(r.id))
              && Lookup(o, "method") == Some(Str(r.method_)) && Lookup(o, "params") == r.params
              && !Has(o, "result") && !Has(o, "error")
            case Notice(r) =>
              && Lookup(o, "jsonrpc") == Some(Str(r.jsonrpc)) && Lookup(o, "method") == Some(Str(r.method_))
              && Lookup(o, "params") == r.params && !Has(o, "id") && !Has(o, "result") && !Has(o, "error")
            case Success(r) =>
              && Lookup(o, "jsonrpc") == Some(Str(r.jsonrpc)) && Lookup(o, "id") == Some(ToJson(r.id))
              && Lookup(o, "result") == Some(r.result) && !Has(o, "method") && !Has(o, "error")
            case Failure(r) =>
              && Lookup(o, "jsonrpc") == Some(Str(r.jsonrpc)) && Lookup(o, "error") == Some(EncodeError(r.error))
              && Lookup(o, "id") == Some(if r.id.Some? then ToJson(r.id.value) else Null)
              && !Has(o, "method") && !Has(o, "result")
  {
    match e
    case Call(r) =>
      var fs := RequestFields(r);
      CompactLookup(fs, 0);
      CompactLookup(fs, 1);
      CompactLookup(fs, 2);
      CompactLookup(fs, 3);
      CompactAbsent(fs, "result");
      CompactAbsent(fs, "error");
    case Notice(r) =>
      var fs := NotificationFields(r);
      CompactLookup(fs, 0);
      CompactLookup(fs, 1);
      CompactLookup(fs, 2);
      CompactAbsent(fs, "id");
      CompactAbsent(fs, "result");
      CompactAbsent(fs, "error");
    case Success(r) =>
      var fs := ResultFields(r);
      CompactLookup(fs, 0);
      CompactLookup(fs, 1);
      CompactLookup(fs, 2);
      CompactAbsent(fs, "method");
      CompactAbsent(fs, "error");
    case Failure(r) =>
      var fs := ErrorResponseFields(r);
      CompactLookup(fs, 0);
      CompactLookup(fs, 1);
      CompactLookup(fs, 2);
      CompactAbsent(fs, "method");
      CompactAbsent(fs, "result");
  }

  /** Serializing a message and inspecting it returns the message exactly when it conforms. */
  lemma InspectInvertsEncode(e: Envelope)
    ensures InspectEnvelope(Obj(EncodeEnvelope(e))) == Ok(e) <==> Conforms(e)
  {
    EncodedFields(e);
    EnvelopeInspectionIsExact(EncodeEnvelope(e), e);
    match e
    case Call(r) => WrittenIdReadsBack(r.id);
    case Notice(_) =>
    case Success(r) => WrittenIdReadsBack(r.id);
    case Failure(r) =>
      ErrorRoundTrip(r.error);
      if r.id.Some? {
        WrittenIdReadsBack(r.id.value);
      }
  }

  // ------------------------------------------------------------------------------------------------------------
  // Batches
  // ------------------------------------------------------------------------------------------------------------

  /** Why member `i` is refused, or `None` when it is a valid envelope on the side of member 0. */
  function MemberError(items: seq<Value>, i: nat): Option<InspectionError>
    requires i < |items|
  {
    if !items[i].Obj? then Some(InspectionError(InvalidBatchMember, Some(i), None))
    else
      var r := InspectEnvelope(items[i]);
      if r.Err? then Some(r.error.AtBatchIndex(i))
      else if items[0].Obj? && InspectEnvelope(items[0]).Ok? && SideOf(r.value) != SideOf(InspectEnvelope(items[0]).value)
      then Some(InspectionError(MixedBatch, Some(i), None))
      else None
  }

  /**
   * A batch is accepted exactly when it is non-empty and no member is refused, with one message per member in wire
   * order; otherwise the error is that of the least refused member.
   */
  method InspectBatch(items: seq<Value>) returns (r: Result<Batch, InspectionError>)
    ensures items == [] ==> r == Err(InspectionError(EmptyBatch, None, None))
    ensures r.Ok? <==> items != [] && forall i: nat :: i < |items| ==> MemberError(items, i) == None
    ensures r.Ok? ==> |r.value.messages| == |items|
    ensures r.Ok? ==> forall i: nat :: i < |items| ==>
                        && items[i].Obj? && InspectEnvelope(items[i]) == Ok(r.value.messages[i])
                        && SideOf(r.value.messages[i]) == r.value.kind
    ensures r.Err? && items != [] ==>
              exists k: nat :: k < |items| && MemberError(items, k) == Some(r.error)
                               && r.error.batchIndex == Some(k)
                               && forall j: nat :: j < k ==> MemberError(items, j) == None
  {
    if items == [] {
      return Err(InspectionError(EmptyBatch, None, None));
    }
    var messages: seq<Envelope> := [];
    var kind: Option<Side> := None;
    for index := 0 to |items|
      invariant |messages| == index
      invariant kind.None? <==> index == 0
      invariant forall j: nat :: j < index ==>
                  && MemberError(items, j) == None && items[j].Obj?
                  && InspectEnvelope(items[j]) == Ok(messages[j]) && kind == Some(SideOf(messages[j]))
    {
      var item := items[index];
      if !item.Obj? {
        assert MemberError(items, index).Some?;
        return Err(InspectionError(InvalidBatchMember, None, None).AtBatchIndex(index));
      }
      var inspected := InspectEnvelope(item);
      if inspected.Err? {
        assert MemberError(items, index).Some?;
        return Err(inspected.error.AtBatchIndex(index));
      }
      var envelope := inspected.value;
      var memberKind := SideOf(envelope);
      if kind.Some? {
        if memberKind != kind.value {
          assert MemberError(items, 0) == None && kind == Some(SideOf(messages[0]));
          assert MemberError(items, index).Some?;
          return Err(InspectionError(MixedBatch, None, None).AtBatchIndex(index));
        }
      } else {
        kind := Some(memberKind);
      }
      assert MemberError(items, index) == None by {
        if index > 0 {
          assert kind == Some(SideOf(messages[0]));
        }
      }
      messages := messages + [envelope];
    }
    r := Ok(Batch(kind.value, messages));
  }

  /** `JsonRpcPayload::inspect`. */
  method Inspect(v: Value) returns (r: Result<Payload, InspectionError>)
    ensures !v.Obj? && !v.Arr? ==> r == Err(InspectionError(InvalidTopLevel, None, None))
    ensures v.Obj? && InspectEnvelope(v).Ok? ==> r == Ok(Single(InspectEnvelope(v).value))
    ensures v.Obj? && InspectEnvelope(v).Err? ==> r == Err(InspectEnvelope(v).error)
    ensures v.Arr? ==> (r.Ok? <==> v.items != [] && forall i: nat :: i < |v.items| ==> MemberError(v.items, i) == None)
    ensures v.Arr? && r.Ok? ==> r.value.Many? && |r.value.batch.messages| == |v.items| > 0
    ensures v.Arr? && r.Ok? ==> forall i: nat :: i < |v.items| ==>
                                  v.items[i].Obj? && Represents(v.items[i].entries, r.value.batch.messages[i])
    ensures v.Arr? && r.Ok? ==> forall i :: 0 <= i < |v.items| ==> SideOf(r.value.batch.messages[i]) == r.value.batch.kind
    ensures v == Arr([]) ==> r == Err(InspectionError(EmptyBatch, None, None))
    ensures v.Arr? && r.Err? && v.items != [] ==>
              exists k: nat :: k < |v.items| && MemberError(v.items, k) == Some(r.error)
                               && r.error.batchIndex == Some(k)
                               && forall j: nat :: j < k ==> MemberError(v.items, j) == None
  {
    if v.Obj? {
      var e := InspectEnvelope(v);
      r := if e.Ok? then Ok(Single(e.value)) else Err(e.error);
    } else if v.Arr? {
      var b := InspectBatch(v.items);
      if b.Ok? {
        forall i: nat | i < |v.items|
          ensures v.items[i].Obj? && Represents(v.items[i].entries, b.value.messages[i])
        {
          EnvelopeInspectionIsExact(v.items[i].entries, b.value.messages[i]);
        }
        r := Ok(Many(b.value));
      } else {
        r := Err(b.error);
      }
    } else {
      r := Err(InspectionError(InvalidTopLevel, None, None));
    }
  }

  // ------------------------------------------------------------------------------------------------------------
  // The lenient reader
  // ------------------------------------------------------------------------------------------------------------

  /** The shape conditions the strict reader adds to the lenient one. */
  predicate StrictShape(o: Object) {
    Lookup(o, "jsonrpc") == Some(Str("2.0")) && !Has(o, "method") && !(Has(o, "result") && Has(o, "error"))
  }

  /** The strict reader is the lenient one restricted to the strict shape, with the same variant and content. */
  lemma StrictIsLenientOnStrictShape(o: Object)
    ensures forall r :: InspectEnvelope(Obj(o)) == Ok(Success(r)) <==>
                        StrictShape(o) && DecodeResponse(Obj(o)) == Some(ResultOf(r))
    ensures forall r :: InspectEnvelope(Obj(o)) == Ok(Failure(r)) <==>
                        StrictShape(o) && DecodeResponse(Obj(o)) == Some(ErrorOf(r))
  {}

  /** `o` is a response to the lenient reader: the member that matters is there, and the other absent or null. */
  predicate LenientlyRepresents(o: Object, r: Response) {
    match r
    case ResultOf(x) =>
      && Lookup(o, "result") == Some(x.result) && Missing(o, "error")
      && Lookup(o, "jsonrpc") == Some(Str(x.jsonrpc)) && IdIs(o, x.id)
    case ErrorOf(x) =>
      && Has(o, "error") && RendersError(Lookup(o, "error").value, x.error) && Missing(o, "result")
      && Lookup(o, "jsonrpc") == Some(Str(x.jsonrpc))
      && (if x.id.Some? then IdIs(o, x.id.value) else Missing(o, "id"))
  }

  /** The lenient reader returns `r` exactly when the object is such a response, and nothing for any other object. */
  lemma LenientReaderIsExact(o: Object, r: Response)
    ensures DecodeResponse(Obj(o)) == Some(r) <==> LenientlyRepresents(o, r)
  {
    if Has(o, "id") {
      ReadersAgree(Lookup(o, "id").value);
    }
    if r.ErrorOf? && Has(o, "error") {
      ErrorReadsExactly(Lookup(o, "error").value, r.error.error);
    }
  }

  /** Two members that are both there and not null are refused, and so is neither. */
  lemma LenientReaderRefusals(o: Object)
    ensures !Missing(o, "result") && !Missing(o, "error") ==> DecodeResponse(Obj(o)) == None
    ensures !Has(o, "result") && Missing(o, "error") ==> DecodeResponse(Obj(o)) == None
  {}

  /** A result beside an explicit null error is that result; the inspector refuses the object. */
  lemma NullErrorBesideResult()
    ensures var o: Object := [("jsonrpc", Str("2.0")), ("id", OfI64(1)), ("result", Obj([("ok", Bool(true))])), ("error", Null)];
            && DecodeResponse(Obj(o)) == Some(ResultOf(ResultResponse("2.0", NumberId(1), Obj([("ok", Bool(true))]))))
            && InspectEnvelope(Obj(o)) == Err(Bad(ConflictingFields, "result"))
  {
    var o: Object := [("jsonrpc", Str("2.0")), ("id", OfI64(1)), ("result", Obj([("ok", Bool(true))])), ("error", Null)];
    assert DistinctKeys(o);
    LookupAt(o, 0);
    LookupAt(o, 1);
    LookupAt(o, 2);
    LookupAt(o, 3);
    LookupInKeys(o, "method");
    LenientReaderIsExact(o, ResultOf(ResultResponse("2.0", NumberId(1), Obj([("ok", Bool(true))]))));
  }

  /** Outside that shape the readers part: a result-null companion is dropped by one and refused by the other. */
  lemma LenientReaderAcceptsMore()
    ensures exists o: Object :: DecodeResponse(Obj(o)).Some? && InspectEnvelope(Obj(o)) == Err(Bad(ConflictingFields, "result"))
  {
    var error := JsonRpcError(1, "m", None);
    var base := ErrorResponseFields(ErrorResponse("2.0", None, error));
    var fs := base + [("result", Some(Null))];
    var o := Compact(fs);
    assert fs[0] == base[0] && fs[1] == base[1] && fs[2] == base[2];
    CompactLookup(fs, 0);
    CompactLookup(fs, 1);
    CompactLookup(fs, 2);
    CompactLookup(fs, 3);
    CompactAbsent(fs, "method");
    ErrorRoundTrip(error);
    assert DecodeResponse(Obj(o)).Some?;
    assert InspectEnvelope(Obj(o)) == Err(Bad(ConflictingFields, "result"));
  }
}
