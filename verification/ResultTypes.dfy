/** The `resultType` discriminator of results, and stamping it onto a serialized result. */
module ResultTypes {
  import opened Prelude
  import opened Entries
  import opened Json

  const VERSION_2026_07_28: string := "2026-07-28"

  datatype ResultType = Complete | InputRequired | Other(s: string) {
    function AsStr(): string {
      match this
      case Complete => "complete"
      case InputRequired => "input_required"
      case Other(s) => s
    }

    /** Not one of the two defined values spelled as an extension value. */
    predicate Canonical() { Other? ==> s != "complete" && s != "input_required" }
  }

  function FromString(s: string): ResultType {
    if s == "complete" then Complete
    else if s == "input_required" then InputRequired
    else Other(s)
  }

  function ReadResultType(v: Value): Option<ResultType> {
    if v.Str? then Some(FromString(v.s)) else None
  }

  /** `ResultType::from_result_value`: a missing or non-string discriminator reads as complete. */
  function FromResultValue(v: Value): ResultType {
    var s := Json.AsStr(Get(v, "resultType"));
    if s.None? then Complete else FromString(s.value)
  }

  predicate VersionCarriesResultType(version: string) { version == VERSION_2026_07_28 }

  /** What stamping leaves behind, as a function of what was there. */
  function Stamped(v: Value, t: ResultType, version: string): Value {
    if VersionCarriesResultType(version) && v.Obj? && !Has(v.entries, "resultType")
    then Obj(v.entries + [("resultType", Str(t.AsStr()))])
    else v
  }

  /** A serialized result on its way out. */
  class ResultCell {
    var value: Value

    constructor (value: Value)
      ensures this.value == value
    {
      this.value := value;
    }

    /** `ResultType::stamp_into`. */
    method StampInto(t: ResultType, version: string) returns (written: bool)
      modifies this
      ensures written <==> VersionCarriesResultType(version) && old(value).Obj? && !Has(old(value).entries, "resultType")
      ensures value == Stamped(old(value), t, version)
    {
      if !VersionCarriesResultType(version) {
        return false;
      }
      if !value.Obj? {
        return false;
      }
      if Has(value.entries, "resultType") {
        return false;
      }
      LookupInKeys(value.entries, "resultType");
      InsertAbsent(value.entries, "resultType", Str(t.AsStr()));
      value := Obj(Insert(value.entries, "resultType", Str(t.AsStr())));
      return true;
    }
  }

  /**
   * A stamp reads back as what was stamped exactly when the type is canonical, touches no other key, and is final:
   * a second stamp of any kind changes nothing.
   */
  lemma StampReadsBack(v: Value, t: ResultType, version: string, u: ResultType)
    requires Stamped(v, t, version) != v
    ensures FromResultValue(Stamped(v, t, version)) == t <==> t.Canonical()
    ensures forall k :: k != "resultType" ==> Get(Stamped(v, t, version), k) == Get(v, k)
    ensures Stamped(Stamped(v, t, version), u, version) == Stamped(v, t, version)
  {
    var added: Object := [("resultType", Str(t.AsStr()))];
    forall k
      ensures Get(Stamped(v, t, version), k) == if Has(v.entries, k) then Get(v, k) else Lookup(added, k)
    {
      LookupConcat(v.entries, added, k);
    }
    assert added[1..] == [];
    assert forall k :: k != "resultType" ==> Lookup(added, k) == None;
    assert Lookup(added, "resultType") == Some(Str(t.AsStr()));
  }

  /** An extension value that spells a defined one comes back as that one. */
  lemma NonCanonicalStampIsLost()
    ensures var stamped := Stamped(Obj([]), Other("complete"), VERSION_2026_07_28);
            stamped != Obj([]) && FromResultValue(stamped) == Complete
  {
    assert !Has<Value>([], "resultType");
  }

  /** A reader that knows nothing of the stamp sees a complete result either way. */
  lemma CompleteStampIsInvisible(v: Value, version: string)
    ensures FromResultValue(Stamped(v, Complete, version)) == FromResultValue(v)
  {
    if Stamped(v, Complete, version) != v {
      StampReadsBack(v, Complete, version, Complete);
    }
  }

  /** The reading rule: anything but a string, or nothing at all, is complete; a string is the type it spells. */
  lemma DiscriminatorRule(v: Value, t: ResultType)
    ensures FromResultValue(v) == t <==>
              || (t == Complete && (Get(v, "resultType").None? || !Get(v, "resultType").value.Str?))
              || (t.Canonical() && Get(v, "resultType") == Some(Str(match t
                                                                     case Complete => "complete"
                                                                     case InputRequired => "input_required"
                                                                     case Other(s) => s)))
  {}
}
