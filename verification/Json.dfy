/** JSON values as serde_json holds them: ordered objects, and numbers in three forms. */
module Json {
  import opened Prelude
  import opened Entries
  import opened Float64

  type negI64 = x: int | -0x8000_0000_0000_0000 <= x < 0 witness -1

  datatype Number = PosInt(u: u64) | NegInt(i: negI64) | Float(f: finite64) {
    function AsI64(): Option<i64> {
      match this
      case PosInt(u) => if u <= I64_MAX then Some(u) else None
      case NegInt(i) => Some(i)
      case Float(_) => None
    }

    function AsF64(): F64 {
      match this
      case PosInt(u) => FromNat(u)
      case NegInt(i) => FromInt(i)
      case Float(f) => f
    }

    /** The exact integer value, whatever its size; floats have none, not even integral ones. */
    function AsInteger(): Option<int> {
      match this
      case PosInt(u) => Some(u)
      case NegInt(i) => Some(i)
      case Float(_) => None
    }
  }

  datatype Value =
    | Null
    | Bool(b: bool)
    | Num(n: Number)
    | Str(s: string)
    | Arr(items: seq<Value>)
    | Obj(entries: Object)

  type Object = seq<(string, Value)>

  /** serde_json's `Value::get` on a key: `None` on anything but an object. */
  function Get(v: Value, k: string): Option<Value> {
    if v.Obj? then Lookup(v.entries, k) else None
  }

  function AsStr(v: Option<Value>): Option<string> {
    if v.Some? && v.value.Str? then Some(v.value.s) else None
  }

  function OfI64(n: i64): Value {
    Num(if n < 0 then NegInt(n) else PosInt(n))
  }

  function OfU64(n: u64): Value { Num(PosInt(n)) }

  function OfStrings(ss: seq<string>): Value {
    Arr(seq(|ss|, i requires 0 <= i < |ss| => Str(ss[i])))
  }

  // ------------------------------------------------------------------------------------------------------------
  // Field readers of derived deserializers. The outer option is failure; an optional field reads `null` as absent.
  // ------------------------------------------------------------------------------------------------------------

  function ReadStr(v: Value): Option<string> {
    if v.Str? then Some(v.s) else None
  }

  function ReadBool(v: Value): Option<bool> {
    if v.Bool? then Some(v.b) else None
  }

  function ReadU64(v: Value): Option<u64> {
    if v.Num? && v.n.PosInt? then Some(v.n.u) else None
  }

  function ReadI64(v: Value): Option<i64> {
    if v.Num? then v.n.AsI64() else None
  }

  function ReadI32(v: Value): Option<i32> {
    if v.Num? && v.n.AsInteger().Some? && -0x8000_0000 <= v.n.AsInteger().value <= 0x7FFF_FFFF
    then Some(v.n.AsInteger().value) else None
  }

  function ReadObject(v: Value): Option<Object> {
    if v.Obj? then Some(v.entries) else None
  }

  /** A `Vec`: every item must read. */
  function ReadEach<T>(items: seq<Value>, read: Value -> Option<T>): Option<seq<T>> {
    if items == [] then Some([])
    else
      var t :- read(items[0]);
      var rest :- ReadEach(items[1..], read);
      Some([t] + rest)
  }

  function ReadArray<T>(v: Value, read: Value -> Option<T>): Option<seq<T>> {
    if v.Arr? then ReadEach(v.items, read) else None
  }

  lemma {:induction false} ReadEachSpec<T>(items: seq<Value>, read: Value -> Option<T>)
    ensures ReadEach(items, read).Some? <==> forall i :: 0 <= i < |items| ==> read(items[i]).Some?
    ensures ReadEach(items, read).Some? ==>
              && |ReadEach(items, read).value| == |items|
              && forall i :: 0 <= i < |items| ==> read(items[i]) == Some(ReadEach(items, read).value[i])
  {
    if items == [] {
    } else {
      ReadEachSpec(items[1..], read);
      assert forall i :: 0 < i < |items| ==> items[i] == items[1..][i - 1];
    }
  }

  lemma ReadEachIs<T>(items: seq<Value>, read: Value -> Option<T>, ts: seq<T>)
    requires |items| == |ts| && forall i :: 0 <= i < |items| ==> read(items[i]) == Some(ts[i])
    ensures ReadEach(items, read) == Some(ts)
  {
    ReadEachSpec(items, read);
    assert ReadEach(items, read).value == ts;
  }

  function ReadStrings(v: Value): Option<seq<string>> { ReadArray(v, ReadStr) }

  lemma StringsRoundTrip(ss: seq<string>)
    ensures ReadStrings(OfStrings(ss)) == Some(ss)
  {
    ReadEachIs(OfStrings(ss).items, ReadStr, ss);
  }

  /** Any number reads as an `f64`. */
  function ReadFloat(v: Value): Option<f64> {
    if v.Num? then
      var f := v.n.AsF64();
      assert f.Canonical() by { FloatCanonical(v.n); }
      Some(f)
    else None
  }

  lemma ReadFloatIsFinite(o: Object, k: string)
    ensures var f := Optional(o, k, ReadFloat); f.Some? && f.value.Some? ==> f.value.value.Finite?
  {}

  lemma FloatCanonical(n: Number)
    ensures n.AsF64().Canonical()
  {
    match n
    case PosInt(u) => FromNatCanonical(u);
    case NegInt(i) => FromIntCanonical(i);
    case Float(_) =>
  }

  function Required<T>(o: Object, k: string, read: Value -> Option<T>): Option<T> {
    var v :- Lookup(o, k);
    read(v)
  }

  function Optional<T>(o: Object, k: string, read: Value -> Option<T>): Option<Option<T>> {
    var v := Lookup(o, k);
    if v.None? || v.value.Null? then Some(None)
    else
      var t :- read(v.value);
      Some(Some(t))
  }

  // ------------------------------------------------------------------------------------------------------------
  // Field writers
  // ------------------------------------------------------------------------------------------------------------

  function OptStr(s: Option<string>): Option<Value> {
    if s.Some? then Some(Str(s.value)) else None
  }

  function OptU64(n: Option<u64>): Option<Value> {
    if n.Some? then Some(OfU64(n.value)) else None
  }

  function OptI64(n: Option<i64>): Option<Value> {
    if n.Some? then Some(OfI64(n.value)) else None
  }

  function OptBool(b: Option<bool>): Option<Value> {
    if b.Some? then Some(Bool(b.value)) else None
  }

  function OptObject(o: Option<Object>): Option<Value> {
    if o.Some? then Some(Obj(o.value)) else None
  }

  /** A non-finite float has no JSON number; serde_json writes `null`. */
  function OfF64(f: f64): Value {
    if f.Finite? then Num(Float(f)) else Null
  }

  function OptF64(f: Option<f64>): Option<Value> {
    if f.Some? then Some(OfF64(f.value)) else None
  }

  function OptStrings(ss: Option<seq<string>>): Option<Value> {
    if ss.Some? then Some(OfStrings(ss.value)) else None
  }

  /** A `Vec` of values that may each refuse to be written; the first refusal is reported. */
  function WriteEach<T, E>(ts: seq<T>, write: T -> Result<Value, E>): Result<seq<Value>, E> {
    if ts == [] then Ok([])
    else
      var v :- write(ts[0]);
      var rest :- WriteEach(ts[1..], write);
      Ok([v] + rest)
  }

  lemma {:induction false} WriteEachSpec<T, E>(ts: seq<T>, write: T -> Result<Value, E>)
    ensures WriteEach(ts, write).Ok? <==> forall i :: 0 <= i < |ts| ==> write(ts[i]).Ok?
    ensures WriteEach(ts, write).Ok? ==>
              && |WriteEach(ts, write).value| == |ts|
              && forall i :: 0 <= i < |ts| ==> write(ts[i]) == Ok(WriteEach(ts, write).value[i])
  {
    if ts == [] {
    } else {
      WriteEachSpec(ts[1..], write);
      assert forall i :: 0 < i < |ts| ==> ts[i] == ts[1..][i - 1];
    }
  }

  // ------------------------------------------------------------------------------------------------------------
  // What a field holds, apart from any reader
  // ------------------------------------------------------------------------------------------------------------

  predicate IsText(v: Value) { v.Str? }
  predicate IsFlag(v: Value) { v.Bool? }
  predicate IsNumber(v: Value) { v.Num? }
  predicate IsLength(v: Value) { v.Num? && v.n.PosInt? }
  predicate IsI64(v: Value) { v.Num? && !v.n.Float? && (v.n.PosInt? ==> v.n.u <= I64_MAX) }
  predicate IsTexts(v: Value) { v.Arr? && forall i :: 0 <= i < |v.items| ==> v.items[i].Str? }

  /** Keyword `k` is absent, null, or of the given kind. */
  predicate MayBe(o: Object, k: string, kind: Value -> bool) {
    var v := Lookup(o, k);
    v.None? || v.value.Null? || kind(v.value)
  }

  predicate MustBe(o: Object, k: string, kind: Value -> bool) { Has(o, k) && kind(Lookup(o, k).value) }

  lemma TextsRead(v: Value)
    ensures ReadStrings(v).Some? <==> IsTexts(v)
  {
    if v.Arr? {
      ReadEachSpec(v.items, ReadStr);
    }
  }

  lemma KeywordTexts(o: Object, k: string)
    ensures Required(o, k, ReadStrings).Some? <==> MustBe(o, k, IsTexts)
    ensures Optional(o, k, ReadStrings).Some? <==> MayBe(o, k, IsTexts)
  {
    if Has(o, k) {
      TextsRead(Lookup(o, k).value);
    }
  }

  predicate IsObject(v: Value) { v.Obj? }

  predicate Missing(o: Object, k: string) { !Has(o, k) || Lookup(o, k) == Some(Null) }

  /** Field `k` is the given text, flag, integer or list; one that may be left out may be null instead. */
  predicate TextIs(o: Object, k: string, s: string) { Lookup(o, k) == Some(Str(s)) }

  predicate MaybeTextIs(o: Object, k: string, s: Option<string>) {
    if s.Some? then Lookup(o, k) == Some(Str(s.value)) else Missing(o, k)
  }

  predicate MaybeFlagIs(o: Object, k: string, b: Option<bool>) {
    if b.Some? then Lookup(o, k) == Some(Bool(b.value)) else Missing(o, k)
  }

  predicate MaybeU64Is(o: Object, k: string, n: Option<u64>) {
    if n.Some? then Lookup(o, k) == Some(Num(PosInt(n.value))) else Missing(o, k)
  }

  predicate MaybeI64Is(o: Object, k: string, n: Option<i64>) {
    if n.Some? then Lookup(o, k) == Some(Num(if n.value < 0 then NegInt(n.value) else PosInt(n.value))) else Missing(o, k)
  }

  predicate TextsAre(v: Value, ss: seq<string>) {
    v.Arr? && |v.items| == |ss| && forall i :: 0 <= i < |ss| ==> v.items[i] == Str(ss[i])
  }

  predicate MaybeTextsAre(o: Object, k: string, ss: Option<seq<string>>) {
    if ss.Some? then Has(o, k) && TextsAre(Lookup(o, k).value, ss.value) else Missing(o, k)
  }

  /** A number stands for a float: itself, or an integer of either sign. */
  ghost predicate FloatIs(v: Value, f: F64) {
    v.Num? && match v.n
              case Float(g) => f == g
              case PosInt(u) => StandsFor(f, u)
              case NegInt(i) => StandsFor(f, i)
  }

  ghost predicate MaybeFloatIs(o: Object, k: string, f: Option<f64>) {
    if f.Some? then Has(o, k) && FloatIs(Lookup(o, k).value, f.value) else Missing(o, k)
  }

  lemma TextsReadExactly(v: Value, ss: seq<string>)
    ensures ReadStrings(v) == Some(ss) <==> TextsAre(v, ss)
  {
    if v.Arr? {
      ReadEachSpec(v.items, ReadStr);
      if TextsAre(v, ss) {
        ReadEachIs(v.items, ReadStr, ss);
      }
    }
  }

  /** Whatever number a float field holds, what is read stands for it. */
  lemma FloatFieldReads(o: Object, k: string)
    requires Optional(o, k, ReadFloat).Some?
    ensures MaybeFloatIs(o, k, Optional(o, k, ReadFloat).value)
  {
    if !Missing(o, k) {
      var n := Lookup(o, k).value.n;
      match n
      case PosInt(u) => FromIntStandsFor(u);
      case NegInt(i) => FromIntStandsFor(i);
      case Float(_) =>
    }
  }
}
