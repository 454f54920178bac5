/** Elicitation form schemas: the type-dispatched property codec, the ordered builder, and the form codec. */
module FormSchema {
  import opened Prelude
  import opened Entries
  import opened Float64
  import opened Json

  datatype StringSchema = StringSchema(
    schemaType: string, title: Option<string>, description: Option<string>, format: Option<string>,
    pattern: Option<string>, minLength: Option<u64>, maxLength: Option<u64>, default_: Option<string>)
  datatype IntegerSchema = IntegerSchema(
    schemaType: string, title: Option<string>, description: Option<string>,
    minimum: Option<i64>, maximum: Option<i64>, default_: Option<i64>)
  datatype NumberSchema = NumberSchema(
    schemaType: string, title: Option<string>, description: Option<string>,
    minimum: Option<f64>, maximum: Option<f64>, default_: Option<f64>)
  datatype BooleanSchema = BooleanSchema(
    schemaType: string, title: Option<string>, description: Option<string>, default_: Option<bool>)
  datatype SingleSelectSchema = SingleSelectSchema(
    schemaType: string, title: Option<string>, description: Option<string>, enumValues: seq<string>,
    default_: Option<string>)
  datatype Items = Items(schemaType: string, enumValues: seq<string>)
  datatype MultiSelectSchema = MultiSelectSchema(
    schemaType: string, title: Option<string>, description: Option<string>, items: Items,
    uniqueItems: Option<bool>, default_: Option<seq<string>>)

  datatype Definition =
    | StringDef(str: StringSchema)
    | IntegerDef(int_: IntegerSchema)
    | NumberDef(num: NumberSchema)
    | BooleanDef(bool_: BooleanSchema)
    | SingleSelectDef(single: SingleSelectSchema)
    | MultiSelectDef(multi: MultiSelectSchema)
    | RawDef(raw: Value)

  // ------------------------------------------------------------------------------------------------------------
  // Property codec
  // ------------------------------------------------------------------------------------------------------------

  type Fields = seq<(string, Option<Value>)>

  function HeadFields(schemaType: string, title: Option<string>, description: Option<string>): Fields {
    [("type", Some(Str(schemaType))), ("title", OptStr(title)), ("description", OptStr(description))]
  }

  function ItemsFields(i: Items): Fields {
    [("type", Some(Str(i.schemaType))), ("enum", Some(OfStrings(i.enumValues)))]
  }

  function TailFields(d: Definition): Fields
    requires !d.RawDef?
  {
    match d
    case StringDef(s) =>
      [("format", OptStr(s.format)), ("pattern", OptStr(s.pattern)), ("minLength", OptU64(s.minLength)),
       ("maxLength", OptU64(s.maxLength)), ("default", OptStr(s.default_))]
    case IntegerDef(s) =>
      [("minimum", OptI64(s.minimum)), ("maximum", OptI64(s.maximum)), ("default", OptI64(s.default_))]
    case NumberDef(s) =>
      [("minimum", OptF64(s.minimum)), ("maximum", OptF64(s.maximum)), ("default", OptF64(s.default_))]
    case BooleanDef(s) => [("default", OptBool(s.default_))]
    case SingleSelectDef(s) => [("enum", Some(OfStrings(s.enumValues))), ("default", OptStr(s.default_))]
    case MultiSelectDef(s) =>
      [("items", Some(Obj(Compact(ItemsFields(s.items))))), ("uniqueItems", OptBool(s.uniqueItems)),
       ("default", OptStrings(s.default_))]
  }

  function SchemaType(d: Definition): string
    requires !d.RawDef?
  {
    match d
    case StringDef(s) => s.schemaType
    case IntegerDef(s) => s.schemaType
    case NumberDef(s) => s.schemaType
    case BooleanDef(s) => s.schemaType
    case SingleSelectDef(s) => s.schemaType
    case MultiSelectDef(s) => s.schemaType
  }

  function Title(d: Definition): Option<string>
    requires !d.RawDef?
  {
    match d
    case StringDef(s) => s.title
    case IntegerDef(s) => s.title
    case NumberDef(s) => s.title
    case BooleanDef(s) => s.title
    case SingleSelectDef(s) => s.title
    case MultiSelectDef(s) => s.title
  }

  function Description(d: Definition): Option<string>
    requires !d.RawDef?
  {
    match d
    case StringDef(s) => s.description
    case IntegerDef(s) => s.description
    case NumberDef(s) => s.description
    case BooleanDef(s) => s.description
    case SingleSelectDef(s) => s.description
    case MultiSelectDef(s) => s.description
  }

  function DefinitionFields(d: Definition): Fields
    requires !d.RawDef?
  {
    HeadFields(SchemaType(d), Title(d), Description(d)) + TailFields(d)
  }

  function EncodeDefinition(d: Definition): Value {
    if d.RawDef? then d.raw else Obj(Compact(DefinitionFields(d)))
  }

  function ReadItems(v: Value): Option<Items> {
    if v.Obj? then
      var schemaType :- Required(v.entries, "type", ReadStr);
      var enumValues :- Required(v.entries, "enum", ReadStrings);
      Some(Items(schemaType, enumValues))
    else None
  }

  function DecodeString(o: Object): Option<Definition> {
    var schemaType :- Required(o, "type", ReadStr);
    var title :- Optional(o, "title", ReadStr);
    var description :- Optional(o, "description", ReadStr);
    var format :- Optional(o, "format", ReadStr);
    var pattern :- Optional(o, "pattern", ReadStr);
    var minLength :- Optional(o, "minLength", ReadU64);
    var maxLength :- Optional(o, "maxLength", ReadU64);
    var default_ :- Optional(o, "default", ReadStr);
    Some(StringDef(StringSchema(schemaType, title, description, format, pattern, minLength, maxLength, default_)))
  }

  function DecodeInteger(o: Object): Option<Definition> {
    var schemaType :- Required(o, "type", ReadStr);
    var title :- Optional(o, "title", ReadStr);
    var description :- Optional(o, "description", ReadStr);
    var minimum :- Optional(o, "minimum", ReadI64);
    var maximum :- Optional(o, "maximum", ReadI64);
    var default_ :- Optional(o, "default", ReadI64);
    Some(IntegerDef(IntegerSchema(schemaType, title, description, minimum, maximum, default_)))
  }

  function DecodeNumber(o: Object): Option<Definition> {
    var schemaType :- Required(o, "type", ReadStr);
    var title :- Optional(o, "title", ReadStr);
    var description :- Optional(o, "description", ReadStr);
    var minimum :- Optional(o, "minimum", ReadFloat);
    var maximum :- Optional(o, "maximum", ReadFloat);
    var default_ :- Optional(o, "default", ReadFloat);
    Some(NumberDef(NumberSchema(schemaType, title, description, minimum, maximum, default_)))
  }

  function DecodeBoolean(o: Object): Option<Definition> {
    var schemaType :- Required(o, "type", ReadStr);
    var title :- Optional(o, "title", ReadStr);
    var description :- Optional(o, "description", ReadStr);
    var default_ :- Optional(o, "default", ReadBool);
    Some(BooleanDef(BooleanSchema(schemaType, title, description, default_)))
  }

  function DecodeSingleSelect(o: Object): Option<Definition> {
    var schemaType :- Required(o, "type", ReadStr);
    var title :- Optional(o, "title", ReadStr);
    var description :- Optional(o, "description", ReadStr);
    var enumValues :- Required(o, "enum", ReadStrings);
    var default_ :- Optional(o, "default", ReadStr);
    Some(SingleSelectDef(SingleSelectSchema(schemaType, title, description, enumValues, default_)))
  }

  function DecodeMultiSelect(o: Object): Option<Definition> {
    var schemaType :- Required(o, "type", ReadStr);
    var title :- Optional(o, "title", ReadStr);
    var description :- Optional(o, "description", ReadStr);
    var items :- Required(o, "items", ReadItems);
    var uniqueItems :- Optional(o, "uniqueItems", ReadBool);
    var default_ :- Optional(o, "default", ReadStrings);
    Some(MultiSelectDef(MultiSelectSchema(schemaType, title, description, items, uniqueItems, default_)))
  }

  /** `PrimitiveSchemaDefinition::deserialize`: dispatch on `type`, and on `enum` for strings. */
  function DecodeDefinition(v: Value): Option<Definition> {
    var schemaType := AsStr(Get(v, "type"));
    var hasEnum := Get(v, "enum").Some?;
    if schemaType.None? then Some(RawDef(v))
    else if schemaType.value == "string" then
      if hasEnum then DecodeSingleSelect(v.entries) else DecodeString(v.entries)
    else if schemaType.value == "integer" then DecodeInteger(v.entries)
    else if schemaType.value == "number" then DecodeNumber(v.entries)
    else if schemaType.value == "boolean" then DecodeBoolean(v.entries)
    else if schemaType.value == "array" then DecodeMultiSelect(v.entries)
    else Some(RawDef(v))
  }

  /** The `type` values that are dispatched; any other value is kept raw. */
  predicate Dispatched(t: Option<string>) {
    t.Some? && (t.value == "string" || t.value == "integer" || t.value == "number" || t.value == "boolean" || t.value == "array")
  }

  predicate FiniteOrAbsent(f: Option<f64>) { f.Some? ==> f.value.Finite? }

  /** What a definition must satisfy to survive its own encoding. */
  predicate Faithful(d: Definition) {
    match d
    case StringDef(s) => s.schemaType == "string"
    case IntegerDef(s) => s.schemaType == "integer"
    case NumberDef(s) =>
      s.schemaType == "number" && FiniteOrAbsent(s.minimum) && FiniteOrAbsent(s.maximum) && FiniteOrAbsent(s.default_)
    case BooleanDef(s) => s.schemaType == "boolean"
    case SingleSelectDef(s) => s.schemaType == "string"
    case MultiSelectDef(s) => s.schemaType == "array"
    case RawDef(v) => !Dispatched(AsStr(Get(v, "type")))
  }

  lemma DefinitionKeysDistinct(d: Definition)
    requires !d.RawDef?
    ensures DistinctKeys(DefinitionFields(d))
    ensures !d.SingleSelectDef? ==> "enum" !in Keys(DefinitionFields(d))
  {}

  /** Every written field of a definition is found again under its own key. */
  lemma DefinitionLookups(d: Definition)
    requires !d.RawDef?
    ensures var o := Compact(DefinitionFields(d)); var t := TailFields(d);
            && Lookup(o, "type") == Some(Str(SchemaType(d)))
            && Lookup(o, "title") == OptStr(Title(d)) && Lookup(o, "description") == OptStr(Description(d))
            && (forall i :: 0 <= i < |t| ==> Lookup(o, t[i].0) == t[i].1)
            && (!d.SingleSelectDef? ==> Lookup(o, "enum") == None)
  {
    DefinitionKeysDistinct(d);
    var fs, t := DefinitionFields(d), TailFields(d);
    CompactLookup(fs, 0);
    CompactLookup(fs, 1);
    CompactLookup(fs, 2);
    forall i | 0 <= i < |t|
      ensures Lookup(Compact(fs), t[i].0) == t[i].1
    {
      assert fs[3 + i] == t[i];
      CompactLookup(fs, 3 + i);
    }
    if !d.SingleSelectDef? {
      CompactAbsent(fs, "enum");
    }
  }

  lemma ItemsRoundTrip(i: Items)
    ensures ReadItems(Obj(Compact(ItemsFields(i)))) == Some(i)
  {
    CompactLookup(ItemsFields(i), 0);
    CompactLookup(ItemsFields(i), 1);
    StringsRoundTrip(i.enumValues);
  }

  /** A decoded definition is of the kind its `type`, and for strings its `enum`, calls for. */
  lemma DispatchIsByType(v: Value)
    requires DecodeDefinition(v).Some?
    ensures var d := DecodeDefinition(v).value; var t := AsStr(Get(v, "type"));
            && (d.StringDef? ==> t == Some("string")) && (d.SingleSelectDef? ==> t == Some("string"))
            && (d.IntegerDef? ==> t == Some("integer")) && (d.NumberDef? ==> t == Some("number"))
            && (d.BooleanDef? ==> t == Some("boolean")) && (d.MultiSelectDef? ==> t == Some("array"))
            && (d.RawDef? ==> !Dispatched(t))
  {}

  lemma StringRoundTrip(s: StringSchema)
    ensures DecodeString(Compact(DefinitionFields(StringDef(s)))) == Some(StringDef(s))
  {
    DefinitionLookups(StringDef(s));
    var o, t := Compact(DefinitionFields(StringDef(s))), TailFields(StringDef(s));
    assert Lookup(o, "format") == OptStr(s.format) by { assert t[0].0 == "format"; }
    assert Lookup(o, "pattern") == OptStr(s.pattern) by { assert t[1].0 == "pattern"; }
    assert Lookup(o, "minLength") == OptU64(s.minLength) by { assert t[2].0 == "minLength"; }
    assert Lookup(o, "maxLength") == OptU64(s.maxLength) by { assert t[3].0 == "maxLength"; }
    assert Lookup(o, "default") == OptStr(s.default_) by { assert t[4].0 == "default"; }
  }

  lemma IntegerRoundTrip(s: IntegerSchema)
    ensures DecodeInteger(Compact(DefinitionFields(IntegerDef(s)))) == Some(IntegerDef(s))
  {
    DefinitionLookups(IntegerDef(s));
    var t := TailFields(IntegerDef(s));
    assert t[0].0 == "minimum" && t[1].0 == "maximum" && t[2].0 == "default";
  }

  lemma NumberRoundTrip(s: NumberSchema)
    ensures DecodeNumber(Compact(DefinitionFields(NumberDef(s)))) == Some(NumberDef(s)) <==>
              FiniteOrAbsent(s.minimum) && FiniteOrAbsent(s.maximum) && FiniteOrAbsent(s.default_)
  {
    DefinitionLookups(NumberDef(s));
    var t := TailFields(NumberDef(s));
    assert t[0].0 == "minimum" && t[1].0 == "maximum" && t[2].0 == "default";
  }

  lemma BooleanRoundTrip(s: BooleanSchema)
    ensures DecodeBoolean(Compact(DefinitionFields(BooleanDef(s)))) == Some(BooleanDef(s))
  {
    DefinitionLookups(BooleanDef(s));
    assert TailFields(BooleanDef(s))[0].0 == "default";
  }

  lemma SingleSelectRoundTrip(s: SingleSelectSchema)
    ensures DecodeSingleSelect(Compact(DefinitionFields(SingleSelectDef(s)))) == Some(SingleSelectDef(s))
  {
    DefinitionLookups(SingleSelectDef(s));
    var t := TailFields(SingleSelectDef(s));
    assert t[0].0 == "enum" && t[1].0 == "default";
    StringsRoundTrip(s.enumValues);
  }

  lemma MultiSelectRoundTrip(s: MultiSelectSchema)
    ensures DecodeMultiSelect(Compact(DefinitionFields(MultiSelectDef(s)))) == Some(MultiSelectDef(s))
  {
    DefinitionLookups(MultiSelectDef(s));
    var t := TailFields(MultiSelectDef(s));
    assert t[0].0 == "items" && t[1].0 == "uniqueItems" && t[2].0 == "default";
    ItemsRoundTrip(s.items);
    if s.default_.Some? {
      StringsRoundTrip(s.default_.value);
    }
  }

  /** The fields alone fix what a reader sees of the type and of `enum`. */
  lemma EncodedDispatchKeys(d: Definition)
    requires !d.RawDef?
    ensures AsStr(Get(EncodeDefinition(d), "type")) == Some(SchemaType(d))
    ensures Get(EncodeDefinition(d), "enum").Some? <==> d.SingleSelectDef?
  {
    DefinitionLookups(d);
    if d.SingleSelectDef? {
      assert TailFields(d)[0].0 == "enum";
    }
  }

  /** A definition decodes from its own encoding exactly when it is faithful. */
  lemma DefinitionRoundTrip(d: Definition)
    ensures DecodeDefinition(EncodeDefinition(d)) == Some(d) <==> Faithful(d)
  {
    if DecodeDefinition(EncodeDefinition(d)).Some? {
      DispatchIsByType(EncodeDefinition(d));
    }
    if !d.RawDef? {
      EncodedDispatchKeys(d);
    }
    match d
    case StringDef(s) => StringRoundTrip(s);
    case IntegerDef(s) => IntegerRoundTrip(s);
    case NumberDef(s) => NumberRoundTrip(s);
    case BooleanDef(s) => BooleanRoundTrip(s);
    case SingleSelectDef(s) => SingleSelectRoundTrip(s);
    case MultiSelectDef(s) => MultiSelectRoundTrip(s);
    case RawDef(_) =>
  }

  // ------------------------------------------------------------------------------------------------------------
  // The form and its codec
  // ------------------------------------------------------------------------------------------------------------

  type Properties = seq<(string, Definition)>
  datatype Form = Form(schemaType: string, properties: Properties, required: seq<string>)

  function EncodeProperties(ps: Properties): Object {
    if ps == [] then [] else [(ps[0].0, EncodeDefinition(ps[0].1))] + EncodeProperties(ps[1..])
  }

  /** Into an `IndexMap`: one insertion per entry, in document order. */
  function DecodeProperties(es: Object): Option<Properties> {
    if es == [] then Some([])
    else
      var init :- DecodeProperties(es[..|es| - 1]);
      var last := es[|es| - 1];
      var d :- DecodeDefinition(last.1);
      Some(Insert(init, last.0, d))
  }

  function FormFields(f: Form): Fields {
    [("type", Some(Str(f.schemaType))),
     ("properties", Some(Obj(EncodeProperties(f.properties)))),
     ("required", if f.required == [] then None else Some(OfStrings(f.required)))]
  }

  function EncodeForm(f: Form): Value { Obj(Compact(FormFields(f))) }

  function ReadProperties(v: Value): Option<Properties> {
    if v.Obj? then DecodeProperties(v.entries) else None
  }

  function DecodeForm(v: Value): Option<Form> {
    if v.Obj? then
      var schemaType :- Required(v.entries, "type", ReadStr);
      var properties :- Required(v.entries, "properties", ReadProperties);
      var required :- if Has(v.entries, "required") then ReadStrings(Lookup(v.entries, "required").value) else Some([]);
      Some(Form(schemaType, properties, required))
    else None
  }

  predicate AllFaithful(ps: Properties) { forall i :: 0 <= i < |ps| ==> Faithful(ps[i].1) }

  lemma {:induction false} EncodePropertiesAt(ps: Properties)
    ensures |EncodeProperties(ps)| == |ps|
    ensures forall i :: 0 <= i < |ps| ==> EncodeProperties(ps)[i] == (ps[i].0, EncodeDefinition(ps[i].1))
  {
    if ps == [] {
    } else {
      EncodePropertiesAt(ps[1..]);
    }
  }

  lemma DistinctInit(ps: Properties)
    requires DistinctKeys(ps) && ps != []
    ensures var init := ps[..|ps| - 1]; DistinctKeys(init) && ps[|ps| - 1].0 !in Keys(init)
  {
    var init := ps[..|ps| - 1];
    assert forall i :: 0 <= i < |init| ==> Keys(init)[i] == Keys(ps)[i];
    assert Keys(ps)[|ps| - 1] == ps[|ps| - 1].0;
  }

  lemma {:induction false} FaithfulPropertiesDecode(ps: Properties)
    requires DistinctKeys(ps) && AllFaithful(ps)
    ensures DecodeProperties(EncodeProperties(ps)) == Some(ps)
  {
    if ps == [] {
    } else {
      var n := |ps| - 1;
      var es := EncodeProperties(ps);
      DistinctInit(ps);
      EncodedInit(ps);
      assert DecodeProperties(es[..n]) == Some(ps[..n]) by { FaithfulPropertiesDecode(ps[..n]); }
      assert DecodeDefinition(es[n].1) == Some(ps[n].1) by { DefinitionRoundTrip(ps[n].1); }
      InsertAbsent(ps[..n], ps[n].0, ps[n].1);
      assert ps == ps[..n] + [(ps[n].0, ps[n].1)];
    }
  }

  lemma {:induction false} LastIsFaithful(ps: Properties)
    requires ps != [] && DistinctKeys(ps) && DecodeProperties(EncodeProperties(ps)) == Some(ps)
    ensures DecodeProperties(EncodeProperties(ps[..|ps| - 1])) == Some(ps[..|ps| - 1])
    ensures Faithful(ps[|ps| - 1].1)
  {
    LastInserted(ps[..|ps| - 1], ps);
    DefinitionRoundTrip(ps[|ps| - 1].1);
  }

  lemma {:induction false} DecodedPropertiesAreFaithful(ps: Properties, i: nat)
    requires DistinctKeys(ps) && DecodeProperties(EncodeProperties(ps)) == Some(ps) && i < |ps|
    ensures Faithful(ps[i].1)
  {
    LastIsFaithful(ps);
    if i == |ps| - 1 {
    } else {
      DistinctInit(ps);
      DecodedPropertiesAreFaithful(ps[..|ps| - 1], i);
      assert ps[..|ps| - 1][i] == ps[i];
    }
  }

  lemma EncodedInit(ps: Properties)
    requires ps != []
    ensures var n := |ps| - 1; var es := EncodeProperties(ps);
            |es| == |ps| && es[..n] == EncodeProperties(ps[..n]) && es[n] == (ps[n].0, EncodeDefinition(ps[n].1))
  {
    EncodePropertiesAt(ps);
    EncodePropertiesAt(ps[..|ps| - 1]);
  }

  lemma PropertiesRoundTrip(ps: Properties)
    requires DistinctKeys(ps)
    ensures DecodeProperties(EncodeProperties(ps)) == Some(ps) <==> AllFaithful(ps)
  {
    if AllFaithful(ps) {
      FaithfulPropertiesDecode(ps);
    }
    if DecodeProperties(EncodeProperties(ps)) == Some(ps) {
      forall i | 0 <= i < |ps|
        ensures Faithful(ps[i].1)
      {
        DecodedPropertiesAreFaithful(ps, i);
      }
    }
  }

  /** Decoding keeps the distinct keys of a document in order. */
  lemma {:induction false} DecodedKeys(es: Object)
    requires DistinctKeys(es) && DecodeProperties(es).Some?
    ensures Keys(DecodeProperties(es).value) == Keys(es)
  {
    if es == [] {
    } else {
      var n := |es| - 1;
      var init := es[..n];
      assert Keys(init) == Keys(es)[..n];
      assert Keys(es)[n] == es[n].0;
      assert DistinctKeys(init);
      DecodedKeys(init);
      var decoded := DecodeProperties(init).value;
      InsertAbsent(decoded, es[n].0, DecodeDefinition(es[n].1).value);
      assert Keys(DecodeProperties(es).value) == Keys(decoded) + [es[n].0];
    }
  }

  lemma {:induction false} LastInserted(init: Properties, ps: Properties)
    requires ps != [] && init == ps[..|ps| - 1] && DistinctKeys(ps)
    requires DecodeProperties(EncodeProperties(ps)) == Some(ps)
    ensures DecodeProperties(EncodeProperties(init)) == Some(init)
    ensures DecodeDefinition(EncodeDefinition(ps[|ps| - 1].1)) == Some(ps[|ps| - 1].1)
  {
    var n := |ps| - 1;
    EncodedInit(ps);
    EncodePropertiesAt(init);
    var es := EncodeProperties(init);
    DistinctInit(ps);
    assert Keys(es) == Keys(init);
    DecodedKeys(es);
    var decoded := DecodeProperties(es).value;
    var d := DecodeDefinition(EncodeDefinition(ps[n].1)).value;
    assert Keys(decoded) == Keys(init);
    InsertAbsent(decoded, ps[n].0, d);
    assert ps == decoded + [(ps[n].0, d)];
    assert decoded == ps[..n];
  }

  /** The form, property order included, decodes from its own encoding exactly when every property is faithful. */
  lemma FormRoundTrip(f: Form)
    requires DistinctKeys(f.properties)
    ensures DecodeForm(EncodeForm(f)) == Some(f) <==> AllFaithful(f.properties)
  {
    var fs := FormFields(f);
    CompactLookup(fs, 0);
    CompactLookup(fs, 1);
    CompactLookup(fs, 2);
    StringsRoundTrip(f.required);
    PropertiesRoundTrip(f.properties);
  }

  // ------------------------------------------------------------------------------------------------------------
  // The builder
  // ------------------------------------------------------------------------------------------------------------

  /** One call on the builder. */
  datatype FieldCall =
    | StringField(name: string, description: Option<string>, required: bool)
    | StringFieldWithDefault(name: string, description: Option<string>, required: bool, text: string)
    | IntegerField(name: string, description: Option<string>, required: bool)
    | IntegerFieldWithDefault(name: string, description: Option<string>, required: bool, integer: i64)
    | NumberField(name: string, description: Option<string>, required: bool)
    | NumberFieldWithDefault(name: string, description: Option<string>, required: bool, number: f64)
    | BooleanField(name: string, description: Option<string>, required: bool)
    | BooleanFieldWithDefault(name: string, description: Option<string>, required: bool, flag: bool)
    | EnumField(name: string, description: Option<string>, options: seq<string>, required: bool)
    | EnumFieldWithDefault(name: string, description: Option<string>, required: bool, options: seq<string>, choice: string)
    | RawField(name: string, schema: Value, required: bool)

  /** The definition a call declares. */
  function Declared(c: FieldCall): Definition {
    match c
    case StringField(_, d, _) => StringDef(StringSchema("string", None, d, None, None, None, None, None))
    case StringFieldWithDefault(_, d, _, t) => StringDef(StringSchema("string", None, d, None, None, None, None, Some(t)))
    case IntegerField(_, d, _) => IntegerDef(IntegerSchema("integer", None, d, None, None, None))
    case IntegerFieldWithDefault(_, d, _, n) => IntegerDef(IntegerSchema("integer", None, d, None, None, Some(n)))
    case NumberField(_, d, _) => NumberDef(NumberSchema("number", None, d, None, None, None))
    case NumberFieldWithDefault(_, d, _, x) => NumberDef(NumberSchema("number", None, d, None, None, Some(x)))
    case BooleanField(_, d, _) => BooleanDef(BooleanSchema("boolean", None, d, None))
    case BooleanFieldWithDefault(_, d, _, b) => BooleanDef(BooleanSchema("boolean", None, d, Some(b)))
    case EnumField(_, d, os, _) => SingleSelectDef(SingleSelectSchema("string", None, d, os, None))
    case EnumFieldWithDefault(_, d, _, os, o) => SingleSelectDef(SingleSelectSchema("string", None, d, os, Some(o)))
    case RawField(_, v, _) => RawDef(v)
  }

  class FormBuilder {
    var properties: Properties
    var required: seq<string>

    /** The form as it stands. */
    function AsForm(): Form
      reads this
    {
      Form("object", properties, required)
    }

    constructor ()
      ensures AsForm() == Form("object", [], [])
    {
      properties, required := [], [];
    }

    /** Any of the builder's field methods. */
    method Add(c: FieldCall)
      modifies this
      ensures properties == Insert(old(properties), c.name, Declared(c))
      ensures required == old(required) + if c.required then [c.name] else []
    {
      properties := Insert(properties, c.name, Declared(c));
      if c.required {
        required := required + [c.name];
      }
    }

    /** A whole chain of calls on a new builder. */
    method AddAll(calls: seq<FieldCall>)
      requires AsForm() == Form("object", [], [])
      modifies this
      ensures AsForm() == BuiltForm(calls)
    {
      for i := 0 to |calls|
        invariant properties == Built(calls[..i]) && required == RequiredNames(calls[..i])
      {
        Add(calls[i]);
        assert calls[..i + 1][..i] == calls[..i];
      }
      assert calls[..|calls|] == calls;
    }
  }

  function Built(calls: seq<FieldCall>): Properties {
    if calls == [] then []
    else
      var last := calls[|calls| - 1];
      Insert(Built(calls[..|calls| - 1]), last.name, Declared(last))
  }

  function RequiredNames(calls: seq<FieldCall>): seq<string> {
    if calls == [] then []
    else
      var last := calls[|calls| - 1];
      RequiredNames(calls[..|calls| - 1]) + if last.required then [last.name] else []
  }

  function BuiltForm(calls: seq<FieldCall>): Form { Form("object", Built(calls), RequiredNames(calls)) }

  function Names(calls: seq<FieldCall>): seq<string> {
    seq(|calls|, i requires 0 <= i < |calls| => calls[i].name)
  }

  lemma {:induction false} BuiltKeys(calls: seq<FieldCall>)
    ensures Keys(Built(calls)) == FirstOccurrences(Names(calls))
  {
    if calls == [] {
    } else {
      var n := |calls| - 1;
      BuiltKeys(calls[..n]);
      InsertKeys(Built(calls[..n]), calls[n].name, Declared(calls[n]));
      assert Names(calls)[..n] == Names(calls[..n]);
      assert Names(calls)[n] == calls[n].name;
    }
  }

  /** Properties are in order of first declaration, with distinct names. */
  lemma BuiltOrder(calls: seq<FieldCall>)
    ensures Keys(Built(calls)) == FirstOccurrences(Names(calls))
    ensures DistinctKeys(Built(calls))
  {
    BuiltKeys(calls);
    FirstOccurrencesIsASet(Names(calls));
  }

  lemma LastOfInit(calls: seq<FieldCall>, i: nat)
    requires i < |calls| - 1 && LastOfName(calls, i)
    ensures LastOfName(calls[..|calls| - 1], i) && calls[|calls| - 1].name != calls[i].name
  {
    var init := calls[..|calls| - 1];
    assert forall j :: 0 <= j < |init| ==> init[j] == calls[j];
  }

  /** Each property is the last definition declared under its name. */
  lemma {:induction false} BuiltLastWins(calls: seq<FieldCall>, i: nat)
    requires i < |calls| && LastOfName(calls, i)
    ensures Lookup(Built(calls), calls[i].name) == Some(Declared(calls[i]))
  {
    var n := |calls| - 1;
    var init, last := calls[..n], calls[n];
    InsertLookup(Built(init), last.name, Declared(last), calls[i].name);
    if i == n {
    } else {
      LastOfInit(calls, i);
      assert init[i] == calls[i];
      BuiltLastWins(init, i);
    }
  }

  /** Required names are declared, and a name is required exactly when some call required it. */
  lemma {:induction false} RequiredAreDeclared(calls: seq<FieldCall>, name: string)
    ensures name in RequiredNames(calls) <==> exists i :: 0 <= i < |calls| && calls[i].required && calls[i].name == name
    ensures name in RequiredNames(calls) ==> Has(Built(calls), name)
  {
    if calls == [] {
    } else {
      var n := |calls| - 1;
      RequiredAreDeclared(calls[..n], name);
      InsertLookup(Built(calls[..n]), calls[n].name, Declared(calls[n]), name);
      assert forall i :: 0 <= i < n ==> calls[..n][i] == calls[i];
      assert calls[n] == calls[|calls| - 1];
    }
  }

  /** Required names are listed call by call. */
  lemma {:induction false} RequiredInCallOrder(a: seq<FieldCall>, b: seq<FieldCall>)
    ensures RequiredNames(a + b) == RequiredNames(a) + RequiredNames(b)
  {
    if b == [] {
      assert a + b == a;
    } else {
      assert (a + b)[..|a + b| - 1] == a + b[..|b| - 1];
      RequiredInCallOrder(a, b[..|b| - 1]);
    }
  }

  /** A raw boolean field with a keyword of its own, and a raw string field whose title is a number. */
  const RAW_KEYWORD: FieldCall := RawField("x", Obj([("type", Str("boolean")), ("x-k", OfU64(1))]), false)
  const RAW_TITLE: FieldCall := RawField("x", Obj([("type", Str("string")), ("title", OfU64(5))]), false)

  /** A raw field that names a dispatched type comes back typed, without what its type has no place for. */
  lemma DispatchedRawIsNotKept()
    ensures Lossy(RAW_KEYWORD)
    ensures DecodeDefinition(RAW_KEYWORD.schema) == Some(BooleanDef(BooleanSchema("boolean", None, None, None)))
  {
    var o := RAW_KEYWORD.schema.entries;
    LookupInKeys(o, "title");
    LookupInKeys(o, "description");
    LookupInKeys(o, "default");
  }

  /** Or not at all, when its type's reader refuses it. */
  lemma DispatchedRawIsRefused()
    ensures Lossy(RAW_TITLE) && DecodeDefinition(RAW_TITLE.schema) == None
  {
    var o := RAW_TITLE.schema.entries;
    LookupInKeys(o, "enum");
    assert Lookup(o, "title") == Some(OfU64(5)) by { assert DistinctKeys(o); LookupAt(o, 1); }
  }

  /** A number default that is not a number is written as null and comes back as no default. */
  lemma NaNDefaultIsLost()
    ensures DecodeDefinition(EncodeDefinition(Declared(NumberFieldWithDefault("x", None, false, NaN)))) ==
            Some(Declared(NumberField("x", None, false)))
  {
    DefaultIsWritten(NumberSchema("number", None, None, None, None, Some(NaN)));
  }

  /** What is found of a number without bounds. */
  lemma DefaultIsWritten(s: NumberSchema)
    requires s.schemaType == "number" && s.minimum.None? && s.maximum.None?
    ensures DecodeDefinition(EncodeDefinition(NumberDef(s))) ==
            Some(NumberDef(s.(default_ := if FiniteOrAbsent(s.default_) then s.default_ else None)))
  {
    var d := NumberDef(s);
    EncodedDispatchKeys(d);
    DefinitionLookups(d);
    var t := TailFields(d);
    assert t[0].0 == "minimum" && t[1].0 == "maximum" && t[2].0 == "default";
  }

  /** The two kinds of call whose property does not survive the wire. */
  predicate Lossy(c: FieldCall) {
    || (c.RawField? && Dispatched(AsStr(Get(c.schema, "type"))))
    || (c.NumberFieldWithDefault? && !c.number.Finite?)
  }

  /** The builder declares only faithful definitions, but for raw fields of dispatched types and non-finite defaults. */
  lemma DeclaredIsFaithful(c: FieldCall)
    ensures Faithful(Declared(c)) <==> !Lossy(c)
  {}

  /** Call `i` is the last one for its name. */
  predicate LastOfName(calls: seq<FieldCall>, i: nat)
    requires i < |calls|
  {
    forall j :: i < j < |calls| ==> calls[j].name != calls[i].name
  }

  lemma {:induction false} LastCall(calls: seq<FieldCall>, name: string) returns (i: nat)
    requires name in Names(calls)
    ensures i < |calls| && calls[i].name == name && LastOfName(calls, i)
  {
    var n := |calls| - 1;
    if calls[n].name == name {
      i := n;
    } else {
      var k :| 0 <= k < |calls| && Names(calls)[k] == name;
      assert Names(calls[..n])[k] == name;
      i := LastCall(calls[..n], name);
      assert forall j :: 0 <= j < n ==> calls[..n][j] == calls[j];
    }
  }

  /** The properties of a built form are what the last calls of their names declare, no more and no less. */
  lemma BuiltFromLastCalls(calls: seq<FieldCall>)
    ensures forall i: nat :: i < |calls| && LastOfName(calls, i) ==>
              exists p :: 0 <= p < |Built(calls)| && Built(calls)[p].1 == Declared(calls[i])
    ensures forall p :: 0 <= p < |Built(calls)| ==>
              exists i: nat :: i < |calls| && LastOfName(calls, i) && Built(calls)[p].1 == Declared(calls[i])
  {
    var ps := Built(calls);
    forall i: nat | i < |calls| && LastOfName(calls, i)
      ensures exists p :: 0 <= p < |ps| && ps[p].1 == Declared(calls[i])
    {
      BuiltLastWins(calls, i);
      var p := LookupIndex(ps, calls[i].name);
      assert ps[p].1 == Declared(calls[i]);
    }
    BuiltOrder(calls);
    FirstOccurrencesIsASet(Names(calls));
    forall p | 0 <= p < |ps|
      ensures exists i: nat :: i < |calls| && LastOfName(calls, i) && ps[p].1 == Declared(calls[i])
    {
      assert Keys(ps)[p] in Names(calls);
      var i := LastCall(calls, ps[p].0);
      BuiltLastWins(calls, i);
      LookupAt(ps, p);
    }
  }

  lemma BuiltIsFaithful(calls: seq<FieldCall>)
    ensures AllFaithful(Built(calls)) <==> forall i: nat :: i < |calls| && LastOfName(calls, i) ==> !Lossy(calls[i])
  {
    BuiltFromLastCalls(calls);
    forall i: nat | i < |calls|
      ensures Faithful(Declared(calls[i])) <==> !Lossy(calls[i])
    {
      DeclaredIsFaithful(calls[i]);
    }
  }

  /** A built form survives the wire exactly when no call that is the last of its name is lossy. */
  lemma BuiltFormRoundTrip(calls: seq<FieldCall>)
    ensures DecodeForm(EncodeForm(BuiltForm(calls))) == Some(BuiltForm(calls)) <==>
              forall i: nat :: i < |calls| && LastOfName(calls, i) ==> !Lossy(calls[i])
  {
    BuiltOrder(calls);
    FormRoundTrip(BuiltForm(calls));
    BuiltIsFaithful(calls);
  }

  // ------------------------------------------------------------------------------------------------------------
  // Schemas that a reader refuses
  // ------------------------------------------------------------------------------------------------------------

  predicate IsItems(v: Value) { v.Obj? && MustBe(v.entries, "type", IsText) && MustBe(v.entries, "enum", IsTexts) }

  predicate StringFits(o: Object) {
    && MayBe(o, "format", IsText) && MayBe(o, "pattern", IsText) && MayBe(o, "default", IsText)
    && MayBe(o, "minLength", IsLength) && MayBe(o, "maxLength", IsLength)
  }

  predicate SelectFits(o: Object) { MustBe(o, "enum", IsTexts) && MayBe(o, "default", IsText) }

  predicate RangeFits(o: Object, kind: Value -> bool) {
    MayBe(o, "minimum", kind) && MayBe(o, "maximum", kind) && MayBe(o, "default", kind)
  }

  predicate ArrayFits(o: Object) {
    MustBe(o, "items", IsItems) && MayBe(o, "uniqueItems", IsFlag) && MayBe(o, "default", IsTexts)
  }

  predicate TitlesFit(o: Object) { MayBe(o, "title", IsText) && MayBe(o, "description", IsText) }

  /** Every keyword that the type of the schema knows is of its kind; a schema of any other type has none to know. */
  predicate KeywordsFit(v: Value) {
    var t := AsStr(Get(v, "type"));
    Dispatched(t) ==>
      && TitlesFit(v.entries)
      && (t.value == "string" ==> if Has(v.entries, "enum") then SelectFits(v.entries) else StringFits(v.entries))
      && (t.value == "integer" ==> RangeFits(v.entries, IsI64))
      && (t.value == "number" ==> RangeFits(v.entries, IsNumber))
      && (t.value == "boolean" ==> MayBe(v.entries, "default", IsFlag))
      && (t.value == "array" ==> ArrayFits(v.entries))
  }

  lemma ItemsRead(v: Value)
    ensures ReadItems(v).Some? <==> IsItems(v)
  {
    if v.Obj? && Has(v.entries, "enum") {
      TextsRead(Lookup(v.entries, "enum").value);
    }
  }

  lemma KeywordItems(o: Object)
    ensures Required(o, "items", ReadItems).Some? <==> MustBe(o, "items", IsItems)
  {
    if Has(o, "items") {
      ItemsRead(Lookup(o, "items").value);
    }
  }

  lemma StringAccepted(o: Object)
    requires Required(o, "type", ReadStr).Some?
    ensures DecodeString(o).Some? <==> TitlesFit(o) && StringFits(o)
  {}

  lemma SelectAccepted(o: Object)
    requires Required(o, "type", ReadStr).Some?
    ensures DecodeSingleSelect(o).Some? <==> TitlesFit(o) && SelectFits(o)
  {
    KeywordTexts(o, "enum");
  }

  lemma IntegerAccepted(o: Object)
    requires Required(o, "type", ReadStr).Some?
    ensures DecodeInteger(o).Some? <==> TitlesFit(o) && RangeFits(o, IsI64)
  {}

  lemma NumberAccepted(o: Object)
    requires Required(o, "type", ReadStr).Some?
    ensures DecodeNumber(o).Some? <==> TitlesFit(o) && RangeFits(o, IsNumber)
  {}

  lemma ArrayAccepted(o: Object)
    requires Required(o, "type", ReadStr).Some?
    ensures DecodeMultiSelect(o).Some? <==> TitlesFit(o) && ArrayFits(o)
  {
    KeywordTexts(o, "default");
    KeywordItems(o);
  }

  /** A schema is accepted exactly when its keywords fit its type. */
  lemma AcceptedSchemas(v: Value)
    ensures DecodeDefinition(v).Some? <==> KeywordsFit(v)
  {
    if Dispatched(AsStr(Get(v, "type"))) {
      StringAccepted(v.entries);
      SelectAccepted(v.entries);
      IntegerAccepted(v.entries);
      NumberAccepted(v.entries);
      ArrayAccepted(v.entries);
    }
  }

  predicate AllFit(ps: Properties) { forall i :: 0 <= i < |ps| ==> KeywordsFit(EncodeDefinition(ps[i].1)) }

  lemma {:induction false} PropertiesDecode(ps: Properties)
    ensures DecodeProperties(EncodeProperties(ps)).Some? <==> AllFit(ps)
  {
    if ps == [] {
    } else {
      var n := |ps| - 1;
      EncodedInit(ps);
      PropertiesDecode(ps[..n]);
      AcceptedSchemas(EncodeDefinition(ps[n].1));
      assert AllFit(ps) <==> AllFit(ps[..n]) && KeywordsFit(EncodeDefinition(ps[n].1)) by { assert ps == ps[..n] + [ps[n]]; }
    }
  }

  /** A form is accepted from its own encoding exactly when each written property fits its type. */
  lemma FormDecodes(f: Form)
    ensures DecodeForm(EncodeForm(f)).Some? <==> AllFit(f.properties)
  {
    var fs := FormFields(f);
    CompactLookup(fs, 0);
    CompactLookup(fs, 1);
    CompactLookup(fs, 2);
    StringsRoundTrip(f.required);
    PropertiesDecode(f.properties);
  }

  /** Of the builder's definitions only a raw field can be refused: one whose keywords do not fit its type. */
  lemma DeclaredIsReadable(c: FieldCall)
    ensures KeywordsFit(EncodeDefinition(Declared(c))) <==> (c.RawField? ==> KeywordsFit(c.schema))
  {
    AcceptedSchemas(EncodeDefinition(Declared(c)));
    if c.NumberFieldWithDefault? {
      var d := Declared(c);
      EncodedDispatchKeys(d);
      DefinitionLookups(d);
      var t := TailFields(d);
      assert t[0].0 == "minimum" && t[1].0 == "maximum" && t[2].0 == "default";
    } else if !c.RawField? {
      DeclaredIsFaithful(c);
      DefinitionRoundTrip(Declared(c));
    }
  }

  /** A built form is accepted exactly when every raw field that is the last of its name fits its type. */
  lemma BuiltFormDecodes(calls: seq<FieldCall>)
    ensures DecodeForm(EncodeForm(BuiltForm(calls))).Some? <==>
              forall i: nat :: i < |calls| && LastOfName(calls, i) && calls[i].RawField? ==> KeywordsFit(calls[i].schema)
  {
    FormDecodes(BuiltForm(calls));
    BuiltFromLastCalls(calls);
    forall i: nat | i < |calls|
      ensures KeywordsFit(EncodeDefinition(Declared(calls[i]))) <==> (calls[i].RawField? ==> KeywordsFit(calls[i].schema))
    {
      DeclaredIsReadable(calls[i]);
    }
  }

  // ------------------------------------------------------------------------------------------------------------
  // What was read is written and read again unchanged
  // ------------------------------------------------------------------------------------------------------------

  /** Whatever is accepted is a faithful definition, so it survives from then on. */
  lemma ReadDefinitionIsFaithful(v: Value)
    requires DecodeDefinition(v).Some?
    ensures Faithful(DecodeDefinition(v).value)
    ensures DecodeDefinition(EncodeDefinition(DecodeDefinition(v).value)) == DecodeDefinition(v)
  {
    DispatchIsByType(v);
    var d := DecodeDefinition(v).value;
    if d.NumberDef? {
      ReadFloatIsFinite(v.entries, "minimum");
      ReadFloatIsFinite(v.entries, "maximum");
      ReadFloatIsFinite(v.entries, "default");
    }
    assert Faithful(d);
    DefinitionRoundTrip(d);
  }

  lemma {:induction false} InsertedAllFaithful(ps: Properties, k: string, d: Definition)
    requires AllFaithful(ps) && Faithful(d)
    ensures AllFaithful(Insert(ps, k, d))
  {
    if ps == [] {
    } else {
      assert AllFaithful(ps[1..]);
      InsertedAllFaithful(ps[1..], k, d);
    }
  }

  lemma {:induction false} ReadPropertiesAreFaithful(es: Object)
    requires DecodeProperties(es).Some?
    ensures AllFaithful(DecodeProperties(es).value) && DistinctKeys(DecodeProperties(es).value)
  {
    if es == [] {
    } else {
      var init, last := DecodeProperties(es[..|es| - 1]).value, es[|es| - 1];
      ReadPropertiesAreFaithful(es[..|es| - 1]);
      ReadDefinitionIsFaithful(last.1);
      InsertedAllFaithful(init, last.0, DecodeDefinition(last.1).value);
      InsertKeepsKeysDistinct(init, last.0, DecodeDefinition(last.1).value);
    }
  }

  /** A form that was read, from any document, is written and read again as the same form. */
  lemma ReadFormSurvives(v: Value)
    requires DecodeForm(v).Some?
    ensures var f := DecodeForm(v).value;
            AllFaithful(f.properties) && DistinctKeys(f.properties) && DecodeForm(EncodeForm(f)) == Some(f)
  {
    var f := DecodeForm(v).value;
    ReadPropertiesAreFaithful(Lookup(v.entries, "properties").value.entries);
    FormRoundTrip(f);
  }

  // ------------------------------------------------------------------------------------------------------------
  // What each keyword is read as
  // ------------------------------------------------------------------------------------------------------------

  predicate RendersHead(o: Object, marker: string, title: Option<string>, description: Option<string>) {
    TextIs(o, "type", marker) && MaybeTextIs(o, "title", title) && MaybeTextIs(o, "description", description)
  }

  predicate RendersString(o: Object, s: StringSchema) {
    && s.schemaType == "string" && RendersHead(o, "string", s.title, s.description) && !Has(o, "enum")
    && MaybeTextIs(o, "format", s.format) && MaybeTextIs(o, "pattern", s.pattern)
    && MaybeU64Is(o, "minLength", s.minLength) && MaybeU64Is(o, "maxLength", s.maxLength)
    && MaybeTextIs(o, "default", s.default_)
  }

  predicate RendersInteger(o: Object, s: IntegerSchema) {
    && s.schemaType == "integer" && RendersHead(o, "integer", s.title, s.description)
    && MaybeI64Is(o, "minimum", s.minimum) && MaybeI64Is(o, "maximum", s.maximum) && MaybeI64Is(o, "default", s.default_)
  }

  /** A number keyword may be written as an integer; the float it is read as stands for it. */
  ghost predicate RendersNumber(o: Object, s: NumberSchema) {
    && s.schemaType == "number" && RendersHead(o, "number", s.title, s.description)
    && MaybeFloatIs(o, "minimum", s.minimum) && MaybeFloatIs(o, "maximum", s.maximum)
    && MaybeFloatIs(o, "default", s.default_)
  }

  predicate RendersBoolean(o: Object, s: BooleanSchema) {
    && s.schemaType == "boolean" && RendersHead(o, "boolean", s.title, s.description)
    && MaybeFlagIs(o, "default", s.default_)
  }

  predicate RendersSelect(o: Object, s: SingleSelectSchema) {
    && s.schemaType == "string" && RendersHead(o, "string", s.title, s.description)
    && Has(o, "enum") && TextsAre(Lookup(o, "enum").value, s.enumValues) && MaybeTextIs(o, "default", s.default_)
  }

  predicate RendersItems(v: Value, i: Items) {
    && v.Obj? && TextIs(v.entries, "type", i.schemaType)
    && Has(v.entries, "enum") && TextsAre(Lookup(v.entries, "enum").value, i.enumValues)
  }

  predicate RendersArray(o: Object, s: MultiSelectSchema) {
    && s.schemaType == "array" && RendersHead(o, "array", s.title, s.description)
    && Has(o, "items") && RendersItems(Lookup(o, "items").value, s.items)
    && MaybeFlagIs(o, "uniqueItems", s.uniqueItems) && MaybeTextsAre(o, "default", s.default_)
  }

  /** `v` is a schema of the definition's type, and each of its keywords is what the definition says. */
  ghost predicate RendersDefinition(v: Value, d: Definition) {
    match d
    case RawDef(raw) => v == raw && !Dispatched(AsStr(Get(v, "type")))
    case StringDef(s) => v.Obj? && RendersString(v.entries, s)
    case IntegerDef(s) => v.Obj? && RendersInteger(v.entries, s)
    case NumberDef(s) => v.Obj? && RendersNumber(v.entries, s)
    case BooleanDef(s) => v.Obj? && RendersBoolean(v.entries, s)
    case SingleSelectDef(s) => v.Obj? && RendersSelect(v.entries, s)
    case MultiSelectDef(s) => v.Obj? && RendersArray(v.entries, s)
  }

  lemma StringKeywords(o: Object)
    requires TextIs(o, "type", "string") && !Has(o, "enum") && DecodeString(o).Some?
    ensures RendersString(o, DecodeString(o).value.str)
  {}

  lemma IntegerKeywords(o: Object)
    requires TextIs(o, "type", "integer") && DecodeInteger(o).Some?
    ensures RendersInteger(o, DecodeInteger(o).value.int_)
  {}

  lemma NumberKeywords(o: Object)
    requires TextIs(o, "type", "number") && DecodeNumber(o).Some?
    ensures RendersNumber(o, DecodeNumber(o).value.num)
  {
    FloatFieldReads(o, "minimum");
    FloatFieldReads(o, "maximum");
    FloatFieldReads(o, "default");
  }

  lemma SelectKeywords(o: Object)
    requires TextIs(o, "type", "string") && DecodeSingleSelect(o).Some?
    ensures RendersSelect(o, DecodeSingleSelect(o).value.single)
  {
    TextsReadExactly(Lookup(o, "enum").value, DecodeSingleSelect(o).value.single.enumValues);
  }

  lemma ItemsKeywords(v: Value)
    requires ReadItems(v).Some?
    ensures RendersItems(v, ReadItems(v).value)
  {
    TextsReadExactly(Lookup(v.entries, "enum").value, ReadItems(v).value.enumValues);
  }

  lemma ArrayKeywords(o: Object)
    requires TextIs(o, "type", "array") && DecodeMultiSelect(o).Some?
    ensures RendersArray(o, DecodeMultiSelect(o).value.multi)
  {
    var s := DecodeMultiSelect(o).value.multi;
    ItemsKeywords(Lookup(o, "items").value);
    if s.default_.Some? {
      TextsReadExactly(Lookup(o, "default").value, s.default_.value);
    }
  }

  /** Whatever is accepted is read keyword by keyword, as its own type. */
  lemma KeywordsReadExactly(v: Value)
    requires DecodeDefinition(v).Some?
    ensures RendersDefinition(v, DecodeDefinition(v).value)
  {
    DispatchIsByType(v);
    match DecodeDefinition(v).value
    case RawDef(_) =>
    case StringDef(_) => StringKeywords(v.entries);
    case IntegerDef(_) => IntegerKeywords(v.entries);
    case NumberDef(_) => NumberKeywords(v.entries);
    case BooleanDef(_) =>
    case SingleSelectDef(_) => SelectKeywords(v.entries);
    case MultiSelectDef(_) => ArrayKeywords(v.entries);
  }

  /** A minimum of -10, written as an integer, is the float -10. */
  lemma NegativeMinimum()
    ensures var v := Obj([("type", Str("number")), ("minimum", Num(NegInt(-10)))]); var d := DecodeDefinition(v);
            d.Some? && d.value.NumberDef? && d.value.num.minimum.Some? && d.value.num.minimum.value.Denotes(-10)
  {
    var o: Object := [("type", Str("number")), ("minimum", Num(NegInt(-10)))];
    assert DistinctKeys(o);
    LookupAt(o, 0);
    LookupAt(o, 1);
    LookupInKeys(o, "title");
    LookupInKeys(o, "description");
    LookupInKeys(o, "maximum");
    LookupInKeys(o, "default");
    NumberAccepted(o);
    NumberKeywords(o);
  }

  /** The properties of a document with distinct names are read one by one, in order, and accepted when each is. */
  lemma {:induction false} PropertiesReadInOrder(es: Object)
    requires DistinctKeys(es)
    ensures DecodeProperties(es).Some? <==> forall i :: 0 <= i < |es| ==> KeywordsFit(es[i].1)
    ensures DecodeProperties(es).Some? ==>
              && |DecodeProperties(es).value| == |es|
              && forall i :: 0 <= i < |es| ==>
                   DecodeProperties(es).value[i].0 == es[i].0 && DecodeDefinition(es[i].1) == Some(DecodeProperties(es).value[i].1)
  {
    if es == [] {
    } else {
      var n := |es| - 1;
      var init, last := es[..n], es[n];
      assert es == init + [last] && Keys(init) == Keys(es)[..n] && Keys(es)[n] == last.0;
      PropertiesReadInOrder(init);
      AcceptedSchemas(last.1);
      if DecodeProperties(init).Some? {
        var ps := DecodeProperties(init).value;
        DecodedKeys(init);
        if KeywordsFit(last.1) {
          InsertAbsent(ps, last.0, DecodeDefinition(last.1).value);
        }
      }
    }
  }

  /** A form is its type marker, its properties in order, and its required names, of which there may be no list. */
  lemma FormReadsExactly(v: Value, f: Form)
    ensures DecodeForm(v) == Some(f) <==>
              && v.Obj? && TextIs(v.entries, "type", f.schemaType)
              && Has(v.entries, "properties") && Lookup(v.entries, "properties").value.Obj?
              && DecodeProperties(Lookup(v.entries, "properties").value.entries) == Some(f.properties)
              && if Has(v.entries, "required") then TextsAre(Lookup(v.entries, "required").value, f.required) else f.required == []
  {
    if v.Obj? && Has(v.entries, "required") {
      TextsReadExactly(Lookup(v.entries, "required").value, f.required);
    }
  }

  // ------------------------------------------------------------------------------------------------------------
  // What is written
  // ------------------------------------------------------------------------------------------------------------

  /** A form writes its properties in order, and a list of required names only when there are any. */
  lemma FormOnTheWire(f: Form)
    ensures var v := EncodeForm(f);
            && v.Obj? && TextIs(v.entries, "type", f.schemaType)
            && Lookup(v.entries, "properties") == Some(Obj(EncodeProperties(f.properties)))
            && (if f.required == [] then !Has(v.entries, "required")
                else Has(v.entries, "required") && TextsAre(Lookup(v.entries, "required").value, f.required))
            && OnlyKeys(v.entries, {"type", "properties", "required"})
  {
    var fs := FormFields(f);
    CompactLookup(fs, 0);
    CompactLookup(fs, 1);
    CompactLookup(fs, 2);
    CompactOnlyKeys(fs, {"type", "properties", "required"});
  }

  /** No keyword is written as null, but for a number that has no JSON form. */
  lemma NoNullKeywords(d: Definition)
    requires !d.RawDef? && (d.NumberDef? ==> Faithful(d))
    ensures forall k :: Lookup(Compact(DefinitionFields(d)), k) != Some(Null)
  {
    CompactAvoids(DefinitionFields(d), Null);
  }

  /** A number that has no JSON form is. */
  lemma NonFiniteKeywords(s: NumberSchema)
    ensures var o := Compact(DefinitionFields(NumberDef(s)));
            && (Lookup(o, "minimum") == Some(Null) <==> s.minimum.Some? && !s.minimum.value.Finite?)
            && (Lookup(o, "maximum") == Some(Null) <==> s.maximum.Some? && !s.maximum.value.Finite?)
            && (Lookup(o, "default") == Some(Null) <==> s.default_.Some? && !s.default_.value.Finite?)
  {
    DefinitionLookups(NumberDef(s));
    var t := TailFields(NumberDef(s));
    assert t[0].0 == "minimum" && t[1].0 == "maximum" && t[2].0 == "default";
  }

  /** Each builder call declares the type of its name, with the description, default and options it was given. */
  predicate DeclaresOn(c: FieldCall, o: Object) {
    && Lookup(o, "description") == (if c.RawField? || c.description.None? then None else Some(Str(c.description.value)))
    && match c
       case StringField(_, _, _) => TextIs(o, "type", "string") && !Has(o, "default") && !Has(o, "enum")
       case StringFieldWithDefault(_, _, _, t) => TextIs(o, "type", "string") && TextIs(o, "default", t) && !Has(o, "enum")
       case IntegerField(_, _, _) => TextIs(o, "type", "integer") && !Has(o, "default") && !Has(o, "enum")
       case IntegerFieldWithDefault(_, _, _, n) =>
         TextIs(o, "type", "integer") && MaybeI64Is(o, "default", Some(n)) && !Has(o, "enum")
       case NumberField(_, _, _) => TextIs(o, "type", "number") && !Has(o, "default") && !Has(o, "enum")
       case NumberFieldWithDefault(_, _, _, x) =>
         && TextIs(o, "type", "number") && !Has(o, "enum")
         && Lookup(o, "default") == Some(if x.Finite? then Num(Float(x)) else Null)
       case BooleanField(_, _, _) => TextIs(o, "type", "boolean") && !Has(o, "default") && !Has(o, "enum")
       case BooleanFieldWithDefault(_, _, _, b) =>
         TextIs(o, "type", "boolean") && MaybeFlagIs(o, "default", Some(b)) && !Has(o, "enum")
       case EnumField(_, _, options, _) =>
         TextIs(o, "type", "string") && MaybeTextsAre(o, "enum", Some(options)) && !Has(o, "default")
       case EnumFieldWithDefault(_, _, _, options, choice) =>
         TextIs(o, "type", "string") && MaybeTextsAre(o, "enum", Some(options)) && TextIs(o, "default", choice)
       case RawField(_, _, _) => true
  }

  /** The keys under which a definition writes what follows its head. */
  lemma TailKeys(d: Definition)
    requires !d.RawDef?
    ensures var t := TailFields(d); var o := Compact(DefinitionFields(d));
            && (d.StringDef? ==> t[4].0 == "default" && Lookup(o, "default") == t[4].1)
            && (d.IntegerDef? || d.NumberDef? ==> t[2].0 == "default" && Lookup(o, "default") == t[2].1)
            && (d.BooleanDef? ==> t[0].0 == "default" && Lookup(o, "default") == t[0].1)
            && (d.SingleSelectDef? ==>
                  && t[0].0 == "enum" && Lookup(o, "enum") == t[0].1 && t[1].0 == "default" && Lookup(o, "default") == t[1].1)
  {
    DefinitionLookups(d);
  }

  lemma DeclaredOnTheWire(c: FieldCall)
    ensures c.RawField? ==> EncodeDefinition(Declared(c)) == c.schema
    ensures !c.RawField? ==> EncodeDefinition(Declared(c)).Obj? && DeclaresOn(c, EncodeDefinition(Declared(c)).entries)
  {
    if !c.RawField? {
      DefinitionLookups(Declared(c));
      TailKeys(Declared(c));
    }
  }

  /** Nothing else is written for a call. */
  lemma NothingElseDeclared(c: FieldCall, k: string)
    requires !c.RawField? && k !in {"type", "description", "default", "enum"}
    ensures !Has(Compact(DefinitionFields(Declared(c))), k)
  {
    var fs := DefinitionFields(Declared(c));
    CompactUnset(fs, k);
  }
}
