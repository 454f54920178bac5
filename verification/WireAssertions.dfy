/** The wire assertion helpers for tests, as predicates: a helper panics exactly when its predicate is false. */
module WireAssertions {
  import opened Prelude
  import opened Entries
  import opened Json
  import opened Inspection

  predicate StringOrInteger(v: Value) {
    v.Str? || (v.Num? && !v.n.Float?)
  }

  predicate AssertVersion(v: Value) { AsStr(Get(v, "jsonrpc")) == Some("2.0") }

  predicate AssertMethod(v: Value) {
    var m := AsStr(Get(v, "method"));
    m.Some? && m.value != ""
  }

  predicate AssertRequest(v: Value) {
    AssertVersion(v) && Get(v, "id").Some? && StringOrInteger(Get(v, "id").value) && AssertMethod(v)
  }

  predicate AssertNotification(v: Value) {
    AssertVersion(v) && Get(v, "id").None? && AssertMethod(v)
  }

  predicate AssertResultResponse(v: Value) {
    AssertVersion(v) && Get(v, "id").Some? && StringOrInteger(Get(v, "id").value) && Get(v, "result").Some?
  }

  predicate AssertErrorResponse(v: Value) {
    && AssertVersion(v)
    && Get(v, "id").Some?
    && (Get(v, "id").value.Null? || StringOrInteger(Get(v, "id").value))
    && Get(v, "error").Some?
    && var error := Get(v, "error").value;
       && Get(error, "code").Some?
       && var code := Get(error, "code").value;
          && code.Num? && !code.n.Float?
          && AsStr(Get(error, "message")).Some?
          && AsStr(Get(error, "message")).value != ""
  }

  predicate AssertResponse(v: Value) {
    && AssertVersion(v)
    && Get(v, "result").Some? != Get(v, "error").Some?
    && if Get(v, "error").Some? then AssertErrorResponse(v) else AssertResultResponse(v)
  }

  // ------------------------------------------------------------------------------------------------------------
  // Where the helpers and the inspector differ, and that they differ nowhere else
  // ------------------------------------------------------------------------------------------------------------

  /** The id is written in float form: the inspector may take it, the helpers never do. */
  predicate FloatId(o: Object) {
    Has(o, "id") && Lookup(o, "id").value.Num? && Lookup(o, "id").value.n.Float?
  }

  /** The id is beyond the signed range: the helpers take it, the inspector never does. */
  predicate OversizedId(o: Object) {
    Has(o, "id") && Lookup(o, "id").value.Num? && Lookup(o, "id").value.n.PosInt? && Lookup(o, "id").value.n.u > I64_MAX
  }

  predicate CallShape(o: Object) {
    !Has(o, "result") && !Has(o, "error") && InspectParams(o) == None
  }

  predicate SmallCode(o: Object) {
    Has(o, "error") && Get(Lookup(o, "error").value, "code").Some?
    && ReadI32(Get(Lookup(o, "error").value, "code").value).Some?
  }

  lemma CallReadersAgree(o: Object)
    ensures var r := InspectEnvelope(Obj(o));
            && (r.Ok? && r.value.Call? && !FloatId(o) <==> AssertRequest(Obj(o)) && CallShape(o) && !OversizedId(o))
            && (r.Ok? && r.value.Notice? <==> AssertNotification(Obj(o)) && CallShape(o))
  {}

  lemma ResultReadersAgree(o: Object)
    ensures var r := InspectEnvelope(Obj(o));
            r.Ok? && r.value.Success? && !FloatId(o) <==>
            AssertResponse(Obj(o)) && Has(o, "result") && !Has(o, "method") && !OversizedId(o)
  {}

  lemma ErrorReadersAgree(o: Object)
    ensures var r := InspectEnvelope(Obj(o));
            r.Ok? && r.value.Failure? && !FloatId(o) && Has(o, "id")
            && r.value.error.error.message != "" && Has(o, "error") && Lookup(o, "error").value.Obj? <==>
            AssertResponse(Obj(o)) && Has(o, "error") && !Has(o, "method") && !OversizedId(o) && SmallCode(o)
  {}

  lemma ResponseReadersAgree(o: Object)
    ensures var r := InspectEnvelope(Obj(o));
            && (r.Ok? && r.value.Success? && !FloatId(o) <==>
                AssertResponse(Obj(o)) && Has(o, "result") && !Has(o, "method") && !OversizedId(o))
            && (r.Ok? && r.value.Failure? && !FloatId(o) && Has(o, "id")
                && r.value.error.error.message != "" && Has(o, "error") && Lookup(o, "error").value.Obj? <==>
                AssertResponse(Obj(o)) && Has(o, "error") && !Has(o, "method") && !OversizedId(o) && SmallCode(o))
  {
    ResultReadersAgree(o);
    ErrorReadersAgree(o);
  }

  // ------------------------------------------------------------------------------------------------------------
  // For any object, whatever else it holds
  // ------------------------------------------------------------------------------------------------------------

  /** The part of an object that a helper looks at. */
  function Core(o: Object, member: string): Object {
    KeepKeys(o, k => k == "jsonrpc" || k == "id" || k == member)
  }

  lemma CoreLookups(o: Object, member: string)
    ensures forall k :: Lookup(Core(o, member), k) ==
                        if k == "jsonrpc" || k == "id" || k == member then Lookup(o, k) else None
  {
    KeepKeysSpec(o, k => k == "jsonrpc" || k == "id" || k == member);
  }

  /** A call helper takes an object exactly when the inspector takes its version, id and method alone as such a call. */
  lemma CallHelpersReadTheCore(o: Object)
    ensures var r := InspectEnvelope(Obj(Core(o, "method")));
            && (AssertRequest(Obj(o)) && !OversizedId(o) <==> r.Ok? && r.value.Call? && !FloatId(o))
            && (AssertNotification(Obj(o)) <==> r.Ok? && r.value.Notice?)
  {
    CoreLookups(o, "method");
    CallReadersAgree(Core(o, "method"));
  }

  lemma ResponseCoreAgrees(o: Object, member: string)
    requires member == "result" || member == "error"
    ensures (member == "result" ==> (AssertResultResponse(Obj(o)) <==> AssertResponse(Obj(Core(o, member)))))
    ensures (member == "error" ==> (AssertErrorResponse(Obj(o)) <==> AssertResponse(Obj(Core(o, member)))))
  {
    CoreLookups(o, member);
  }

  /** So do the response helpers, with the same differences as before. */
  lemma ResultHelperReadsTheCore(o: Object)
    ensures var r := InspectEnvelope(Obj(Core(o, "result")));
            r.Ok? && r.value.Success? && !FloatId(o) <==> AssertResultResponse(Obj(o)) && !OversizedId(o)
  {
    ResponseCoreAgrees(o, "result");
    CoreLookups(o, "result");
    ResultReadersAgree(Core(o, "result"));
  }

  lemma ErrorHelperReadsTheCore(o: Object)
    ensures var r := InspectEnvelope(Obj(Core(o, "error")));
            r.Ok? && r.value.Failure? && !FloatId(o) && Has(o, "id")
            && r.value.error.error.message != "" && Has(o, "error") && Lookup(o, "error").value.Obj? <==>
            AssertErrorResponse(Obj(o)) && !OversizedId(o) && SmallCode(o)
  {
    ResponseCoreAgrees(o, "error");
    CoreLookups(o, "error");
    ErrorReadersAgree(Core(o, "error"));
  }

  /** The helper for either flavour wants exactly one of the two members, and that flavour of it. */
  lemma EitherResponse(o: Object)
    ensures AssertResponse(Obj(o)) <==>
              || (Has(o, "result") && !Has(o, "error") && AssertResultResponse(Obj(o)))
              || (Has(o, "error") && !Has(o, "result") && AssertErrorResponse(Obj(o)))
  {}
}
