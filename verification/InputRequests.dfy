/**
 * What a server may ask of a client while a task waits: sampling, roots, and elicitation by form or by URL. The codecs
 * of sampling parameters and of request metadata are parameters; everything around them is modelled.
 */
module InputRequests {
  import opened Prelude
  import opened Entries
  import opened Json
  import opened MetaKeys
  import opened FormSchema
  import Final = FinalTasks

  datatype ElicitMode = FormMode | UrlMode
  datatype FormParams<M> = FormParams(mode: Option<ElicitMode>, message: string, requestedSchema: Form, meta: Option<M>)
  datatype UrlParams<M> = UrlParams(
    mode: Option<ElicitMode>, elicitationId: string, message: string, url: string, meta: Option<M>)
  datatype ElicitParams<M> = ByForm(form: FormParams<M>) | ByUrl(page: UrlParams<M>)

  /** `S` is the type of sampling parameters, `M` that of request metadata. */
  datatype InputRequest<S, M> = CreateMessage(sampling: S) | ListRoots(meta: Option<M>) | Elicit(params: ElicitParams<M>)

  datatype Codecs<!S, !M> = Codecs(sampling: Codec<S>, meta: Codec<M>)

  // ------------------------------------------------------------------------------------------------------------
  // Encoding
  // ------------------------------------------------------------------------------------------------------------

  function OptMode(m: Option<ElicitMode>): Option<Value> {
    if m.None? then None else Some(Str(if m.value.FormMode? then "form" else "url"))
  }

  function FormParamsFields<M>(p: FormParams<M>, meta: Option<Value>): Fields {
    [("mode", OptMode(p.mode)),
     ("message", Some(Str(p.message))),
     ("requestedSchema", Some(EncodeForm(p.requestedSchema))),
     ("_meta", meta)]
  }

  function UrlParamsFields<M>(p: UrlParams<M>, meta: Option<Value>): Fields {
    [("mode", OptMode(p.mode)),
     ("elicitationId", Some(Str(p.elicitationId))),
     ("message", Some(Str(p.message))),
     ("url", Some(Str(p.url))),
     ("_meta", meta)]
  }

  function RootsFields(meta: Option<Value>): Fields { [("_meta", meta)] }

  function EncodeElicit<M>(mc: Codec<M>, p: ElicitParams<M>): Result<Value, MetaError> {
    match p
    case ByForm(form) =>
      var meta :- EncodeTyped(mc, form.meta);
      Ok(Obj(Compact(FormParamsFields(form, meta))))
    case ByUrl(page) =>
      var meta :- EncodeTyped(mc, page.meta);
      Ok(Obj(Compact(UrlParamsFields(page, meta))))
  }

  function EncodeRoots<M>(mc: Codec<M>, meta: Option<M>): Result<Value, MetaError> {
    var written :- EncodeTyped(mc, meta);
    Ok(Obj(Compact(RootsFields(written))))
  }

  function MethodName<S, M>(r: InputRequest<S, M>): string {
    match r
    case CreateMessage(_) => "sampling/createMessage"
    case ListRoots(_) => "roots/list"
    case Elicit(_) => "elicitation/create"
  }

  function EncodeParams<S, M>(cs: Codecs<S, M>, r: InputRequest<S, M>): Result<Value, MetaError> {
    match r
    case CreateMessage(sampling) => cs.sampling.write(sampling)
    case ListRoots(meta) => EncodeRoots(cs.meta, meta)
    case Elicit(params) => EncodeElicit(cs.meta, params)
  }

  function RequestFields(m: string, params: Value): Fields { [("method", Some(Str(m))), ("params", Some(params))] }

  function EncodeRequest<S, M>(cs: Codecs<S, M>, r: InputRequest<S, M>): Result<Value, MetaError> {
    var params :- EncodeParams(cs, r);
    Ok(Obj(Compact(RequestFields(MethodName(r), params))))
  }

  // ------------------------------------------------------------------------------------------------------------
  // Decoding
  // ------------------------------------------------------------------------------------------------------------

  function ReadMode(v: Value): Option<ElicitMode> {
    if v == Str("form") then Some(FormMode) else if v == Str("url") then Some(UrlMode) else None
  }

  function DecodeFormParams<M>(mc: Codec<M>, v: Value): Option<FormParams<M>> {
    var o :- ReadObject(v);
    var mode :- Optional(o, "mode", ReadMode);
    var message :- Required(o, "message", ReadStr);
    var schema :- Required(o, "requestedSchema", DecodeForm);
    var meta :- ReadTypedMetaField(mc, o);
    Some(FormParams(mode, message, schema, meta))
  }

  function DecodeUrlParams<M>(mc: Codec<M>, v: Value): Option<UrlParams<M>> {
    var o :- ReadObject(v);
    var mode :- Optional(o, "mode", ReadMode);
    var elicitationId :- Required(o, "elicitationId", ReadStr);
    var message :- Required(o, "message", ReadStr);
    var url :- Required(o, "url", ReadStr);
    var meta :- ReadTypedMetaField(mc, o);
    Some(UrlParams(mode, elicitationId, message, url, meta))
  }

  /** Untagged: whatever reads as a form is one, whichever `mode` it names. */
  function DecodeElicit<M>(mc: Codec<M>, v: Value): Option<ElicitParams<M>> {
    if DecodeFormParams(mc, v).Some? then Some(ByForm(DecodeFormParams(mc, v).value))
    else if DecodeUrlParams(mc, v).Some? then Some(ByUrl(DecodeUrlParams(mc, v).value))
    else None
  }

  function DecodeRoots<M>(mc: Codec<M>, v: Value): Option<Option<M>> {
    var o :- ReadObject(v);
    ReadTypedMetaField(mc, o)
  }

  function DecodeParams<S, M>(cs: Codecs<S, M>, m: string, params: Value): Option<InputRequest<S, M>> {
    if m == "sampling/createMessage" then
      var sampling :- cs.sampling.read(params);
      Some(CreateMessage(sampling))
    else if m == "roots/list" then
      var meta :- DecodeRoots(cs.meta, params);
      Some(ListRoots(meta))
    else if m == "elicitation/create" then
      var elicit :- DecodeElicit(cs.meta, params);
      Some(Elicit(elicit))
    else None
  }

  function DecodeRequest<S, M>(cs: Codecs<S, M>, v: Value): Option<InputRequest<S, M>> {
    var o :- ReadObject(v);
    var m :- Required(o, "method", ReadStr);
    var params :- Lookup(o, "params");
    DecodeParams(cs, m, params)
  }

  /** Input requests as the payload of a final task. */
  function RequestCodec<S, M>(cs: Codecs<S, M>): Codec<InputRequest<S, M>> {
    Codec(r => EncodeRequest(cs, r), v => DecodeRequest(cs, v))
  }

  // ------------------------------------------------------------------------------------------------------------
  // Round trips
  // ------------------------------------------------------------------------------------------------------------

  ghost predicate MetaReads<M>(mc: Codec<M>, meta: Option<M>) { meta.Some? ==> mc.Reads(meta.value) }
  ghost predicate MetaSurvives<M>(mc: Codec<M>, meta: Option<M>) { meta.Some? ==> mc.Survives(meta.value) }

  lemma ModeRoundTrip(o: Object, m: Option<ElicitMode>)
    requires Lookup(o, "mode") == OptMode(m)
    ensures Optional(o, "mode", ReadMode) == Some(m)
  {}

  lemma FormParamsLookups<M>(p: FormParams<M>, meta: Option<Value>)
    ensures var o := Compact(FormParamsFields(p, meta));
            && Lookup(o, "mode") == OptMode(p.mode) && Lookup(o, "message") == Some(Str(p.message))
            && Lookup(o, "requestedSchema") == Some(EncodeForm(p.requestedSchema)) && Lookup(o, "_meta") == meta
            && !Has(o, "elicitationId")
  {
    var fs := FormParamsFields(p, meta);
    CompactLookup(fs, 0);
    CompactLookup(fs, 1);
    CompactLookup(fs, 2);
    CompactLookup(fs, 3);
    CompactAbsent(fs, "elicitationId");
  }

  lemma UrlParamsLookups<M>(p: UrlParams<M>, meta: Option<Value>)
    ensures var o := Compact(UrlParamsFields(p, meta));
            && Lookup(o, "mode") == OptMode(p.mode) && Lookup(o, "elicitationId") == Some(Str(p.elicitationId))
            && Lookup(o, "message") == Some(Str(p.message)) && Lookup(o, "url") == Some(Str(p.url))
            && Lookup(o, "_meta") == meta && !Has(o, "requestedSchema")
  {
    var fs := UrlParamsFields(p, meta);
    CompactLookup(fs, 0);
    CompactLookup(fs, 1);
    CompactLookup(fs, 2);
    CompactLookup(fs, 3);
    CompactLookup(fs, 4);
    CompactAbsent(fs, "requestedSchema");
  }

  /** A form elicitation is never mistaken for a URL one; it reads back as far as its schema and its metadata do. */
  lemma FormElicitReadsBack<M>(mc: Codec<M>, p: FormParams<M>)
    requires DistinctKeys(p.requestedSchema.properties) && EncodeElicit(mc, ByForm(p)).Ok?
    ensures var back := DecodeElicit(mc, EncodeElicit(mc, ByForm(p)).value);
            && (back.Some? <==> AllFit(p.requestedSchema.properties) && MetaReads(mc, p.meta))
            && (back == Some(ByForm(p)) <==> AllFaithful(p.requestedSchema.properties) && MetaSurvives(mc, p.meta))
  {
    var meta := EncodeTyped(mc, p.meta).value;
    var o := Compact(FormParamsFields(p, meta));
    FormParamsLookups(p, meta);
    ModeRoundTrip(o, p.mode);
    FormRoundTrip(p.requestedSchema);
    FormDecodes(p.requestedSchema);
    TypedMetaReadsBack(mc, o, p.meta);
    assert DecodeUrlParams(mc, Obj(o)).None?;
  }

  /** Nor is a URL elicitation mistaken for a form. */
  lemma UrlElicitReadsBack<M>(mc: Codec<M>, p: UrlParams<M>)
    requires EncodeElicit(mc, ByUrl(p)).Ok?
    ensures var back := DecodeElicit(mc, EncodeElicit(mc, ByUrl(p)).value);
            && (back.Some? <==> MetaReads(mc, p.meta))
            && (back == Some(ByUrl(p)) <==> MetaSurvives(mc, p.meta))
  {
    var meta := EncodeTyped(mc, p.meta).value;
    var o := Compact(UrlParamsFields(p, meta));
    UrlParamsLookups(p, meta);
    ModeRoundTrip(o, p.mode);
    TypedMetaReadsBack(mc, o, p.meta);
    assert DecodeFormParams(mc, Obj(o)).None?;
  }

  /** The map of properties in a form has one entry per name. */
  predicate WellFormed<S, M>(r: InputRequest<S, M>) {
    r.Elicit? && r.params.ByForm? ==> DistinctKeys(r.params.form.requestedSchema.properties)
  }

  /** What a request must satisfy to be read back at all. */
  ghost predicate RequestReads<S, M>(cs: Codecs<S, M>, r: InputRequest<S, M>) {
    match r
    case CreateMessage(sampling) => cs.sampling.Reads(sampling)
    case ListRoots(meta) => MetaReads(cs.meta, meta)
    case Elicit(ByForm(p)) => AllFit(p.requestedSchema.properties) && MetaReads(cs.meta, p.meta)
    case Elicit(ByUrl(p)) => MetaReads(cs.meta, p.meta)
  }

  /** What a request must satisfy to be read back unchanged. */
  ghost predicate RequestSurvives<S, M>(cs: Codecs<S, M>, r: InputRequest<S, M>) {
    match r
    case CreateMessage(sampling) => cs.sampling.Survives(sampling)
    case ListRoots(meta) => MetaSurvives(cs.meta, meta)
    case Elicit(ByForm(p)) => AllFaithful(p.requestedSchema.properties) && MetaSurvives(cs.meta, p.meta)
    case Elicit(ByUrl(p)) => MetaSurvives(cs.meta, p.meta)
  }

  type Pending<S, M> = Final.Requests<InputRequest<S, M>>

  /** The same for a whole map of requests. */
  ghost predicate AllRequestsRead<S, M>(cs: Codecs<S, M>, rs: Pending<S, M>) {
    forall i :: 0 <= i < |rs| ==> RequestReads(cs, rs[i].1)
  }

  ghost predicate AllRequestsSurvive<S, M>(cs: Codecs<S, M>, rs: Pending<S, M>) {
    forall i :: 0 <= i < |rs| ==> RequestSurvives(cs, rs[i].1)
  }

  predicate AllWellFormed<S, M>(rs: Pending<S, M>) { forall i :: 0 <= i < |rs| ==> WellFormed(rs[i].1) }

  lemma RootsReadBack<M>(mc: Codec<M>, meta: Option<M>)
    requires EncodeRoots(mc, meta).Ok?
    ensures var back := DecodeRoots(mc, EncodeRoots(mc, meta).value);
            (back.Some? <==> MetaReads(mc, meta)) && (back == Some(meta) <==> MetaSurvives(mc, meta))
  {
    var fs := RootsFields(EncodeTyped(mc, meta).value);
    CompactLookup(fs, 0);
    TypedMetaReadsBack(mc, Compact(fs), meta);
  }

  lemma EnvelopeReadsBack<S, M>(cs: Codecs<S, M>, r: InputRequest<S, M>)
    requires EncodeParams(cs, r).Ok?
    ensures DecodeRequest(cs, EncodeRequest(cs, r).value) == DecodeParams(cs, MethodName(r), EncodeParams(cs, r).value)
  {
    var fs := RequestFields(MethodName(r), EncodeParams(cs, r).value);
    CompactLookup(fs, 0);
    CompactLookup(fs, 1);
  }

  /** For every kind of request: when its encoding is accepted, and when it comes back unchanged. */
  lemma RequestRoundTrip<S, M>(cs: Codecs<S, M>, r: InputRequest<S, M>)
    requires WellFormed(r)
    ensures RequestCodec(cs).Reads(r) <==> RequestCodec(cs).Writes(r) && RequestReads(cs, r)
    ensures RequestCodec(cs).Survives(r) <==> RequestCodec(cs).Writes(r) && RequestSurvives(cs, r)
  {
    if EncodeParams(cs, r).Ok? {
      EnvelopeReadsBack(cs, r);
      match r
      case CreateMessage(_) =>
      case ListRoots(meta) => RootsReadBack(cs.meta, meta);
      case Elicit(ByForm(p)) => FormElicitReadsBack(cs.meta, p);
      case Elicit(ByUrl(p)) => UrlElicitReadsBack(cs.meta, p);
    }
  }

  // ------------------------------------------------------------------------------------------------------------
  // Final tasks that wait for input
  // ------------------------------------------------------------------------------------------------------------

  type Waiting<S, M> = Final.GetTaskResult<InputRequest<S, M>>

  lemma PendingReads<S, M>(cs: Codecs<S, M>, rs: Pending<S, M>)
    requires AllWellFormed(rs) && Final.AllWrite(RequestCodec(cs), rs)
    ensures Final.AllRead(RequestCodec(cs), rs) <==> AllRequestsRead(cs, rs)
    ensures Final.AllSurvive(RequestCodec(cs), rs) <==> AllRequestsSurvive(cs, rs)
  {
    var c := RequestCodec(cs);
    forall i | 0 <= i < |rs|
      ensures c.Reads(rs[i].1) <==> RequestReads(cs, rs[i].1)
      ensures c.Survives(rs[i].1) <==> RequestSurvives(cs, rs[i].1)
    {
      assert c.Writes(rs[i].1);
      RequestRoundTrip(cs, rs[i].1);
    }
  }

  /** `tasks/get` over these requests decodes when each request reads, and to the same value when each survives. */
  lemma TaskRequestsRoundTrip<S, M>(cs: Codecs<S, M>, g: Waiting<S, M>)
    requires Final.EncodeGet(RequestCodec(cs), g).Ok? && AllWellFormed(Final.Outstanding(g.task))
    ensures var c := RequestCodec(cs); var o := Final.EncodeGet(c, g).value; var rs := Final.Outstanding(g.task);
            && (Final.DecodeGet(c, o).Some? <==> AllRequestsRead(cs, rs))
            && (Final.ReadsAsGet(c, o) <==> AllRequestsRead(cs, rs))
            && (Final.DecodeGet(c, o) == Some(g) <==>
                  (g.task.Failed? ==> g.task.error.data != Some(Null)) && AllRequestsSurvive(cs, rs))
  {
    var c := RequestCodec(cs);
    Final.GetEncodes(c, g);
    PendingReads(cs, Final.Outstanding(g.task));
    Final.GetRoundTrip(c, g);
    Final.FirstMatchRecovers(c, Final.FinalGet(g));
  }

  /** A task that waits for one form, built by the given calls. */
  function WaitingForForm<S, M>(calls: seq<FieldCall>): Waiting<S, M> {
    var request := Elicit(ByForm(FormParams(None, "fill in", BuiltForm(calls), None)));
    Final.GetTaskResult(Final.InputRequired(Final.SomeMetadata(), [("r", request)]), None)
  }

  lemma WaitingRequest<S, M>(cs: Codecs<S, M>, calls: seq<FieldCall>)
    ensures var rs := Final.Outstanding(WaitingForForm<S, M>(calls).task);
            && AllWellFormed(rs) && Final.AllWrite(RequestCodec(cs), rs)
            && (AllRequestsRead(cs, rs) <==> AllFit(Built(calls)))
            && (AllRequestsSurvive(cs, rs) <==> AllFaithful(Built(calls)))
  {
    BuiltOrder(calls);
    var rs := Final.Outstanding(WaitingForForm<S, M>(calls).task);
    assert RequestReads(cs, rs[0].1) <==> AllFit(Built(calls));
    assert RequestSurvives(cs, rs[0].1) <==> AllFaithful(Built(calls));
  }

  /** Such a task can be written, decodes when its raw fields fit their types, and is itself when none is lossy. */
  lemma WaitingForFormRoundTrip<S, M>(cs: Codecs<S, M>, calls: seq<FieldCall>)
    ensures var c := RequestCodec(cs); var g := WaitingForForm<S, M>(calls);
            && Final.EncodeGet(c, g).Ok?
            && (Final.ReadsAsGet(c, Final.EncodeGet(c, g).value) <==>
                  forall i: nat :: i < |calls| && LastOfName(calls, i) && calls[i].RawField? ==>
                                     KeywordsFit(calls[i].schema))
            && (Final.DecodeGet(c, Final.EncodeGet(c, g).value) == Some(g) <==>
                  forall i: nat :: i < |calls| && LastOfName(calls, i) ==> !Lossy(calls[i]))
  {
    var g := WaitingForForm<S, M>(calls);
    WaitingRequest(cs, calls);
    Final.GetEncodes(RequestCodec(cs), g);
    TaskRequestsRoundTrip(cs, g);
    BuiltIsFaithful(calls);
    assert AllFit(Built(calls)) <==> DecodeForm(EncodeForm(BuiltForm(calls))).Some? by { FormDecodes(BuiltForm(calls)); }
    BuiltFormDecodes(calls);
  }

  /** A raw boolean field with a keyword of its own: the task comes back as another task. */
  lemma RawKeywordIsLost<S, M>(cs: Codecs<S, M>)
    ensures var c := RequestCodec(cs); var g := WaitingForForm<S, M>([RAW_KEYWORD]);
            && Final.EncodeGet(c, g).Ok? && Final.ReadsAsGet(c, Final.EncodeGet(c, g).value)
            && Final.DecodeGet(c, Final.EncodeGet(c, g).value) != Some(g)
  {
    var calls := [RAW_KEYWORD];
    assert KeywordsFit(calls[0].schema) && Lossy(calls[0]) by {
      DispatchedRawIsNotKept();
      AcceptedSchemas(calls[0].schema);
    }
    assert LastOfName(calls, 0);
    WaitingForFormRoundTrip(cs, calls);
  }

  /** A raw string field whose title is a number makes a request that can be written and cannot be read back. */
  lemma RefusedRawFieldIsUnreadable<S, M>(cs: Codecs<S, M>)
    ensures var c := RequestCodec(cs); var g := WaitingForForm<S, M>([RAW_TITLE]);
            Final.EncodeGet(c, g).Ok? && !Final.AllRead(c, Final.Outstanding(g.task))
  {
    var calls := [RAW_TITLE];
    assert !KeywordsFit(calls[0].schema) by {
      DispatchedRawIsRefused();
      AcceptedSchemas(calls[0].schema);
    }
    assert LastOfName(calls, 0);
    WaitingForFormRoundTrip(cs, calls);
    Final.GetRoundTrip(RequestCodec(cs), WaitingForForm<S, M>(calls));
    Final.FirstMatchRecovers(RequestCodec(cs), Final.FinalGet(WaitingForForm<S, M>(calls)));
  }

  /** Among the final variants only an acknowledgement takes that task. */
  lemma RawFieldLosesTheTask<S, M>(cs: Codecs<S, M>)
    ensures var c := RequestCodec(cs); var g := WaitingForForm<S, M>([RAW_TITLE]);
            && Final.EncodeGet(c, g).Ok?
            && Final.FirstMatch(c, Final.EncodeGet(c, g).value) == Some(Final.FinalAck(Final.TaskAcknowledgement(None)))
  {
    RefusedRawFieldIsUnreadable(cs);
    Final.FirstMatchRecovers(RequestCodec(cs), Final.FinalGet(WaitingForForm<S, M>([RAW_TITLE])));
  }

  // ------------------------------------------------------------------------------------------------------------
  // What was read is written and read again unchanged
  // ------------------------------------------------------------------------------------------------------------

  lemma ReadTypedMetaSurvives<M(!new)>(mc: Codec<M>, o: Object)
    requires StableMeta(mc) && ReadTypedMetaField(mc, o).Some?
    ensures EncodeTyped(mc, ReadTypedMetaField(mc, o).value).Ok? && MetaSurvives(mc, ReadTypedMetaField(mc, o).value)
  {}

  lemma ReadElicitSurvives<M(!new)>(mc: Codec<M>, v: Value)
    requires StableMeta(mc) && DecodeElicit(mc, v).Some?
    ensures var p := DecodeElicit(mc, v).value;
            && EncodeElicit(mc, p).Ok?
            && (p.ByForm? ==>
                  && DistinctKeys(p.form.requestedSchema.properties) && AllFaithful(p.form.requestedSchema.properties)
                  && MetaSurvives(mc, p.form.meta))
            && (p.ByUrl? ==> MetaSurvives(mc, p.page.meta))
  {
    ReadTypedMetaSurvives(mc, v.entries);
    if DecodeFormParams(mc, v).Some? {
      ReadFormSurvives(Lookup(v.entries, "requestedSchema").value);
    }
  }

  /** A request read from any value survives its own codec, if sampling parameters and request metadata do. */
  lemma ReadRequestSurvives<S(!new), M(!new)>(cs: Codecs<S, M>, v: Value)
    requires Stable(cs.sampling) && StableMeta(cs.meta) && DecodeRequest(cs, v).Some?
    ensures var r := DecodeRequest(cs, v).value; WellFormed(r) && RequestCodec(cs).Survives(r)
  {
    var r, params := DecodeRequest(cs, v).value, Lookup(v.entries, "params").value;
    match r {
      case CreateMessage(sampling) => assert cs.sampling.Survives(sampling);
      case ListRoots(_) => ReadTypedMetaSurvives(cs.meta, params.entries);
      case Elicit(_) => ReadElicitSurvives(cs.meta, params);
    }
    RequestRoundTrip(cs, r);
  }

  /** So a waiting task read from any object is written and read again as the same task. */
  lemma ReadWaitingTaskSurvives<S(!new), M(!new)>(cs: Codecs<S, M>, o: Object)
    requires Stable(cs.sampling) && StableMeta(cs.meta) && Final.DecodeGet(RequestCodec(cs), o).Some?
    ensures var c := RequestCodec(cs); var g := Final.DecodeGet(c, o).value;
            Final.EncodeGet(c, g).Ok? && Final.DecodeGet(c, Final.EncodeGet(c, g).value) == Some(g)
  {
    var c := RequestCodec(cs);
    forall v | c.read(v).Some?
      ensures c.Survives(c.read(v).value)
    {
      ReadRequestSurvives(cs, v);
    }
    Final.ReadGetSurvives(c, o);
  }

  // ------------------------------------------------------------------------------------------------------------
  // Requests, field by field
  // ------------------------------------------------------------------------------------------------------------

  predicate ModeIs(o: Object, m: Option<ElicitMode>) {
    if m.None? then Missing(o, "mode") else TextIs(o, "mode", match m.value case FormMode => "form" case UrlMode => "url")
  }

  ghost predicate TypedMetaIs<M>(mc: Codec<M>, o: Object, meta: Option<M>) {
    if meta.None? then Missing(o, "_meta")
    else Has(o, "_meta") && Lookup(o, "_meta").value.Obj?
         && mc.read(Obj(Conforming(Lookup(o, "_meta").value.entries))) == meta
  }

  /** `v` is a wire form of the parameters of a form elicitation. */
  ghost predicate RendersForm<M>(mc: Codec<M>, v: Value, p: FormParams<M>) {
    && v.Obj? && ModeIs(v.entries, p.mode) && TextIs(v.entries, "message", p.message)
    && Has(v.entries, "requestedSchema") && DecodeForm(Lookup(v.entries, "requestedSchema").value) == Some(p.requestedSchema)
    && TypedMetaIs(mc, v.entries, p.meta)
  }

  ghost predicate RendersUrl<M>(mc: Codec<M>, v: Value, p: UrlParams<M>) {
    && v.Obj? && ModeIs(v.entries, p.mode) && TextIs(v.entries, "elicitationId", p.elicitationId)
    && TextIs(v.entries, "message", p.message) && TextIs(v.entries, "url", p.url) && TypedMetaIs(mc, v.entries, p.meta)
  }

  lemma ModeReadsExactly(o: Object, m: Option<ElicitMode>)
    ensures Optional(o, "mode", ReadMode) == Some(m) <==> ModeIs(o, m)
  {}

  lemma FormParamsReadExactly<M>(mc: Codec<M>, v: Value, p: FormParams<M>)
    ensures DecodeFormParams(mc, v) == Some(p) <==> RendersForm(mc, v, p)
  {
    if v.Obj? {
      ModeReadsExactly(v.entries, p.mode);
      assert ReadTypedMetaField(mc, v.entries) == Some(p.meta) <==> TypedMetaIs(mc, v.entries, p.meta) by {
        TypedMetaReadsExactly(mc, v.entries, p.meta);
      }
    }
  }

  lemma UrlParamsReadExactly<M>(mc: Codec<M>, v: Value, p: UrlParams<M>)
    ensures DecodeUrlParams(mc, v) == Some(p) <==> RendersUrl(mc, v, p)
  {
    if v.Obj? {
      TypedMetaReadsExactly(mc, v.entries, p.meta);
    }
  }

  predicate IsMode(v: Value) { v == Str("form") || v == Str("url") }

  predicate IsForm(v: Value) { DecodeForm(v).Some? }

  ghost predicate TypedMetaReads<M>(mc: Codec<M>, o: Object) {
    Missing(o, "_meta")
    || (Lookup(o, "_meta").value.Obj? && mc.read(Obj(Conforming(Lookup(o, "_meta").value.entries))).Some?)
  }

  /** What can be read as a form elicitation. */
  ghost predicate IsFormParams<M>(mc: Codec<M>, v: Value) {
    && v.Obj? && MayBe(v.entries, "mode", IsMode) && MustBe(v.entries, "message", IsText)
    && MustBe(v.entries, "requestedSchema", IsForm) && TypedMetaReads(mc, v.entries)
  }

  lemma FormParamsAccepted<M>(mc: Codec<M>, v: Value)
    ensures DecodeFormParams(mc, v).Some? <==> IsFormParams(mc, v)
  {}

  /** An elicitation is a form whenever it can be read as one, whatever its mode says, and else by URL. */
  ghost predicate RendersElicit<M>(mc: Codec<M>, v: Value, p: ElicitParams<M>) {
    match p
    case ByForm(form) => RendersForm(mc, v, form)
    case ByUrl(page) => RendersUrl(mc, v, page) && !IsFormParams(mc, v)
  }

  lemma ElicitReadsExactly<M>(mc: Codec<M>, v: Value, p: ElicitParams<M>)
    ensures DecodeElicit(mc, v) == Some(p) <==> RendersElicit(mc, v, p)
  {
    FormParamsAccepted(mc, v);
    match p
    case ByForm(form) => FormParamsReadExactly(mc, v, form);
    case ByUrl(page) => UrlParamsReadExactly(mc, v, page);
  }

  /** `v` is a wire form of the request: its method by name, and parameters that are its own. */
  ghost predicate RendersRequest<S, M>(cs: Codecs<S, M>, v: Value, r: InputRequest<S, M>) {
    && v.Obj? && Has(v.entries, "params")
    && var params := Lookup(v.entries, "params").value;
       match r
       case CreateMessage(sampling) =>
         TextIs(v.entries, "method", "sampling/createMessage") && cs.sampling.read(params) == Some(sampling)
       case ListRoots(meta) =>
         TextIs(v.entries, "method", "roots/list") && params.Obj? && TypedMetaIs(cs.meta, params.entries, meta)
       case Elicit(p) => TextIs(v.entries, "method", "elicitation/create") && RendersElicit(cs.meta, params, p)
  }

  /** A value decodes to a request exactly when it is a wire form of it. */
  lemma RequestReadsExactly<S, M>(cs: Codecs<S, M>, v: Value, r: InputRequest<S, M>)
    ensures DecodeRequest(cs, v) == Some(r) <==> RendersRequest(cs, v, r)
  {
    if v.Obj? && Has(v.entries, "params") {
      var params := Lookup(v.entries, "params").value;
      match r
      case CreateMessage(_) =>
      case ListRoots(meta) =>
        if params.Obj? {
          TypedMetaReadsExactly(cs.meta, params.entries, meta);
        }
      case Elicit(p) => ElicitReadsExactly(cs.meta, params, p);
    }
  }

  /** A request writes its method and its parameters and nothing else. */
  lemma RequestOnTheWire<S, M>(cs: Codecs<S, M>, r: InputRequest<S, M>)
    requires EncodeRequest(cs, r).Ok?
    ensures var v := EncodeRequest(cs, r).value;
            && v.Obj? && OnlyKeys(v.entries, {"method", "params"})
            && TextIs(v.entries, "method",
                      match r
                      case CreateMessage(_) => "sampling/createMessage"
                      case ListRoots(_) => "roots/list"
                      case Elicit(_) => "elicitation/create")
            && Has(v.entries, "params")
            && (r.CreateMessage? ==> Ok(Lookup(v.entries, "params").value) == cs.sampling.write(r.sampling))
  {
    var fs := RequestFields(MethodName(r), EncodeParams(cs, r).value);
    CompactLookup(fs, 0);
    CompactLookup(fs, 1);
    CompactOnlyKeys(fs, {"method", "params"});
  }

  /** Parameters of an elicitation write what they hold; a mode or metadata they lack is left out. */
  lemma ElicitOnTheWire<M>(mc: Codec<M>, p: ElicitParams<M>)
    requires EncodeElicit(mc, p).Ok?
    ensures var v := EncodeElicit(mc, p).value; var meta := if p.ByForm? then p.form.meta else p.page.meta;
            && v.Obj? && Ok(Lookup(v.entries, "_meta")) == EncodeTyped(mc, meta)
            && ModeIs(v.entries, if p.ByForm? then p.form.mode else p.page.mode) && Lookup(v.entries, "mode") != Some(Null)
            && OnlyKeys(v.entries, if p.ByForm? then {"mode", "message", "requestedSchema", "_meta"}
                                   else {"mode", "elicitationId", "message", "url", "_meta"})
  {
    match p
    case ByForm(form) =>
      var meta := EncodeTyped(mc, form.meta).value;
      FormParamsLookups(form, meta);
      CompactOnlyKeys(FormParamsFields(form, meta), {"mode", "message", "requestedSchema", "_meta"});
    case ByUrl(page) =>
      var meta := EncodeTyped(mc, page.meta).value;
      UrlParamsLookups(page, meta);
      CompactOnlyKeys(UrlParamsFields(page, meta), {"mode", "elicitationId", "message", "url", "_meta"});
  }
}
