/** JSON-RPC 2.0 messages: their derived codecs and the lenient response reader. */
module JsonRpc {
  import opened Prelude
  import opened Entries
  import opened Json
  import opened RequestIds

  const VERSION: string := "2.0"

  datatype JsonRpcError = JsonRpcError(code: i32, message: string, data: Option<Value>)
  datatype Request = Request(jsonrpc: string, id: RequestId, method_: string, params: Option<Value>)
  datatype Notification = Notification(jsonrpc: string, method_: string, params: Option<Value>)
  datatype ResultResponse = ResultResponse(jsonrpc: string, id: RequestId, result: Value)
  datatype ErrorResponse = ErrorResponse(jsonrpc: string, id: Option<RequestId>, error: JsonRpcError)
  datatype Response = ResultOf(result: ResultResponse) | ErrorOf(error: ErrorResponse)

  // ------------------------------------------------------------------------------------------------------------
  // Derived decoders
  // ------------------------------------------------------------------------------------------------------------

  function ReadAny(v: Value): Option<Value> { Some(v) }

  function NonNull(v: Value): Option<Value> {
    if v.Null? then None else Some(v)
  }

  /** An error object, or the positional array form that a derived struct decoder also takes. */
  function DecodeError(v: Value): Option<JsonRpcError> {
    if v.Obj? then
      var code :- Required(v.entries, "code", ReadI32);
      var message :- Required(v.entries, "message", ReadStr);
      var data :- Optional(v.entries, "data", ReadAny);
      Some(JsonRpcError(code, message, data))
    else if v.Arr? && |v.items| == 3 then
      var code :- ReadI32(v.items[0]);
      var message :- ReadStr(v.items[1]);
      Some(JsonRpcError(code, message, NonNull(v.items[2])))
    else None
  }

  function DecodeRequest(o: Object): Option<Request> {
    var version :- Required(o, "jsonrpc", ReadStr);
    var id :- Required(o, "id", Visit);
    var m :- Required(o, "method", ReadStr);
    var params :- Optional(o, "params", ReadAny);
    Some(Request(version, id, m, params))
  }

  function DecodeNotification(o: Object): Option<Notification> {
    var version :- Required(o, "jsonrpc", ReadStr);
    var m :- Required(o, "method", ReadStr);
    var params :- Optional(o, "params", ReadAny);
    Some(Notification(version, m, params))
  }

  function DecodeResult(o: Object): Option<ResultResponse> {
    var version :- Required(o, "jsonrpc", ReadStr);
    var id :- Required(o, "id", Visit);
    var result :- Required(o, "result", ReadAny);
    Some(ResultResponse(version, id, result))
  }

  function DecodeErrorResponse(o: Object): Option<ErrorResponse> {
    var version :- Required(o, "jsonrpc", ReadStr);
    var id :- Optional(o, "id", Visit);
    var error :- Required(o, "error", DecodeError);
    Some(ErrorResponse(version, id, error))
  }

  /** `JsonRpcResponse::deserialize`: an explicit `null` beside the other member counts as absent. */
  function DecodeResponse(v: Value): Option<Response> {
    var hasError := Get(v, "error").Some? && !Get(v, "error").value.Null?;
    var hasResultValue := Get(v, "result").Some? && !Get(v, "result").value.Null?;
    if hasError && hasResultValue then None
    else if hasError then
      var r :- DecodeErrorResponse(v.entries);
      Some(ErrorOf(r))
    else if Get(v, "result").Some? then
      var r :- DecodeResult(v.entries);
      Some(ResultOf(r))
    else None
  }

  // ------------------------------------------------------------------------------------------------------------
  // Derived encoders
  // ------------------------------------------------------------------------------------------------------------

  function ErrorFields(e: JsonRpcError): seq<(string, Option<Value>)> {
    [("code", Some(OfI64(e.code))), ("message", Some(Str(e.message))), ("data", e.data)]
  }

  function EncodeError(e: JsonRpcError): Value { Obj(Compact(ErrorFields(e))) }

  function RequestFields(r: Request): seq<(string, Option<Value>)> {
    [("jsonrpc", Some(Str(r.jsonrpc))), ("id", Some(ToJson(r.id))), ("method", Some(Str(r.method_))), ("params", r.params)]
  }

  function NotificationFields(r: Notification): seq<(string, Option<Value>)> {
    [("jsonrpc", Some(Str(r.jsonrpc))), ("method", Some(Str(r.method_))), ("params", r.params)]
  }

  function ResultFields(r: ResultResponse): seq<(string, Option<Value>)> {
    [("jsonrpc", Some(Str(r.jsonrpc))), ("id", Some(ToJson(r.id))), ("result", Some(r.result))]
  }

  /** An absent id is written as `null`, never skipped. */
  function ErrorResponseFields(r: ErrorResponse): seq<(string, Option<Value>)> {
    [("jsonrpc", Some(Str(r.jsonrpc))),
     ("id", Some(if r.id.Some? then ToJson(r.id.value) else Null)),
     ("error", Some(EncodeError(r.error)))]
  }

  /** What an error reads back as: explicit null data is not told apart from no data. */
  function Normalized(e: JsonRpcError): JsonRpcError {
    e.(data := if e.data == Some(Null) then None else e.data)
  }

  lemma ErrorRoundTrip(e: JsonRpcError)
    ensures DecodeError(EncodeError(e)) == Some(Normalized(e))
    ensures DecodeError(EncodeError(e)) == Some(e) <==> e.data != Some(Null)
  {
    var fs := ErrorFields(e);
    CompactLookup(fs, 0);
    CompactLookup(fs, 1);
    CompactLookup(fs, 2);
  }

  /** An error that does not survive its own encoding. */
  lemma NullErrorDataIsLost()
    ensures var e := JsonRpcError(-32000, "failed", Some(Null)); DecodeError(EncodeError(e)) == Some(e.(data := None))
  {}

  /** An error that was read has no explicit null data, so it survives from then on. */
  lemma ReadErrorSurvives(v: Value)
    requires DecodeError(v).Some?
    ensures DecodeError(v).value.data != Some(Null)
    ensures DecodeError(EncodeError(DecodeError(v).value)) == DecodeError(v)
  {
    ErrorRoundTrip(DecodeError(v).value);
  }

  /** An error's data: an explicit null is no data. */
  predicate DataIs(v: Option<Value>, data: Option<Value>) {
    if data.Some? then v == data && data != Some(Null) else v.None? || v == Some(Null)
  }

  /** `v` is a wire form of `e`: an object, or the array of the three members. */
  predicate RendersError(v: Value, e: JsonRpcError) {
    var code := Num(if e.code < 0 then NegInt(e.code) else PosInt(e.code));
    || (v.Obj? && Lookup(v.entries, "code") == Some(code) && TextIs(v.entries, "message", e.message)
        && DataIs(Lookup(v.entries, "data"), e.data))
    || (v.Arr? && |v.items| == 3 && v.items[0] == code && v.items[1] == Str(e.message) && DataIs(Some(v.items[2]), e.data))
  }

  lemma ErrorReadsExactly(v: Value, e: JsonRpcError)
    ensures DecodeError(v) == Some(e) <==> RendersError(v, e)
  {}

  /** What an error is written as; null data is written as null. */
  lemma ErrorOnTheWire(e: JsonRpcError)
    ensures EncodeError(e).Obj? && RendersError(EncodeError(e), Normalized(e))
    ensures Lookup(EncodeError(e).entries, "data") == e.data
    ensures OnlyKeys(EncodeError(e).entries, {"code", "message", "data"})
  {
    var fs := ErrorFields(e);
    CompactLookup(fs, 0);
    CompactLookup(fs, 1);
    CompactLookup(fs, 2);
    CompactOnlyKeys(fs, {"code", "message", "data"});
  }
}
