/** The `_meta` key grammar, and `_meta` objects: tolerant on the way in, strict on the way out. */
module MetaKeys {
  import opened Prelude
  import opened Entries
  import opened Text
  import opened Utf8
  import opened Json

  datatype MetaError =
    | ExpectedObject
    | MissingExtensionPrefix(key: string)
    | InvalidPrefix(key: string)
    | InvalidName(key: string)
    | InvalidExtensionSettings(key: string)

  type Validation = Result<(), MetaError>

  // ------------------------------------------------------------------------------------------------------------
  // The recogniser, over bytes
  // ------------------------------------------------------------------------------------------------------------

  predicate AlphabeticByte(b: byte) { 0x41 <= b <= 0x5A || 0x61 <= b <= 0x7A }
  predicate AlphanumericByte(b: byte) { AlphabeticByte(b) || 0x30 <= b <= 0x39 }
  predicate LabelByte(b: byte) { AlphanumericByte(b) || b == 0x2D }
  predicate NameByte(b: byte) { AlphanumericByte(b) || b == 0x2D || b == 0x5F || b == 0x2E }

  predicate BadLabel(s: string) {
    var b := Encode(s);
    b == [] || !AlphabeticByte(b[0]) || !AlphanumericByte(b[|b| - 1]) || !(forall i :: 0 <= i < |b| ==> LabelByte(b[i]))
  }

  predicate BadName(s: string) {
    var b := Encode(s);
    b != [] && (!AlphanumericByte(b[0]) || !AlphanumericByte(b[|b| - 1]) || !(forall i :: 0 <= i < |b| ==> NameByte(b[i])))
  }

  function ValidateMetaKey(key: string): Validation {
    var cut := SplitOnce(key, '/');
    var name := if cut.Some? then cut.value.1 else key;
    if cut.Some? && (cut.value.0 == "" || exists l | l in Split(cut.value.0, '.') :: BadLabel(l))
    then Err(InvalidPrefix(key))
    else if BadName(name) then Err(InvalidName(key))
    else Ok(())
  }

  function ValidateExtensionIdentifier(identifier: string): Validation {
    if '/' !in identifier then Err(MissingExtensionPrefix(identifier)) else ValidateMetaKey(identifier)
  }

  predicate Accepted(key: string) { ValidateMetaKey(key).Ok? }

  // ------------------------------------------------------------------------------------------------------------
  // The grammar, over characters
  // ------------------------------------------------------------------------------------------------------------

  predicate Letter(c: char) { 'A' <= c <= 'Z' || 'a' <= c <= 'z' }
  predicate Alphanumeric(c: char) { Letter(c) || '0' <= c <= '9' }

  predicate Label(s: string) {
    && s != "" && Letter(s[0]) && Alphanumeric(s[|s| - 1])
    && forall i :: 0 <= i < |s| ==> Alphanumeric(s[i]) || s[i] == '-'
  }

  predicate Name(s: string) {
    s != "" ==>
      && Alphanumeric(s[0]) && Alphanumeric(s[|s| - 1])
      && forall i :: 0 <= i < |s| ==> Alphanumeric(s[i]) || s[i] == '-' || s[i] == '_' || s[i] == '.'
  }

  /** A key: dot-separated labels (none for an unprefixed key) and a name. */
  datatype MetaKey = MetaKey(labels: seq<string>, name: string) {
    predicate WellFormed() { (forall l :: l in labels ==> Label(l)) && Name(name) }

    function Render(): string {
      if labels == [] then name else Join(labels, '.') + ['/'] + name
    }
  }

  function ParseKey(key: string): MetaKey {
    var cut := SplitOnce(key, '/');
    if cut.None? then MetaKey([], key) else MetaKey(Split(cut.value.0, '.'), cut.value.1)
  }

  lemma LabelBytes(s: string)
    ensures BadLabel(s) <==> !Label(s)
  {
    AsciiEncode(s);
    var b := Encode(s);
    if !BadLabel(s) {
      assert AllAsciiBytes(b);
      assert forall i :: 0 <= i < |s| ==> LabelByte(b[i]) && b[i] == s[i] as int;
    }
    if Label(s) {
      assert forall i :: 0 <= i < |s| ==> (Alphanumeric(s[i]) || s[i] == '-') && b[i] == s[i] as int;
    }
  }

  lemma NameBytes(s: string)
    ensures BadName(s) <==> !Name(s)
  {
    AsciiEncode(s);
    var b := Encode(s);
    EncodeAtLeastAsLong(s);
    if !BadName(s) {
      assert AllAsciiBytes(b);
      assert forall i :: 0 <= i < |s| ==> NameByte(b[i]) && b[i] == s[i] as int;
    }
    if Name(s) {
      assert forall i :: 0 <= i < |s| ==> (Alphanumeric(s[i]) || s[i] == '-' || s[i] == '_' || s[i] == '.') && b[i] == s[i] as int;
    }
  }

  /** Every key is the rendering of its parts, and it is accepted exactly when the parts are well formed. */
  lemma RecogniserIsGrammar(key: string)
    ensures ParseKey(key).Render() == key
    ensures Accepted(key) <==> ParseKey(key).WellFormed()
    ensures ValidateMetaKey(key) == Err(InvalidPrefix(key)) <==> exists l :: l in ParseKey(key).labels && !Label(l)
    ensures !Accepted(key) ==> ValidateMetaKey(key) in {Err(InvalidPrefix(key)), Err(InvalidName(key))}
  {
    SplitOnceSpec(key, '/');
    var cut := SplitOnce(key, '/');
    if cut.Some? {
      var (prefix, name) := cut.value;
      JoinSplit(prefix, '.');
      forall l | l in Split(prefix, '.')
        ensures BadLabel(l) <==> !Label(l)
      {
        LabelBytes(l);
      }
      NameBytes(name);
      if prefix == "" {
        assert "" in Split(prefix, '.');
      }
    } else {
      NameBytes(key);
    }
  }

  /** Any well-formed labels and name make an accepted key that splits back into them. */
  lemma RenderedKeyIsAccepted(k: MetaKey)
    requires k.WellFormed()
    ensures ParseKey(k.Render()) == k && Accepted(k.Render())
  {
    if k.labels == [] {
      SplitOnceSpec(k.name, '/');
    } else {
      CharsOfJoin(k.labels, '.');
      assert '/' !in Join(k.labels, '.');
      SplitOnceFirst(Join(k.labels, '.'), '/', k.name);
      SplitJoin(k.labels, '.');
    }
    RecogniserIsGrammar(k.Render());
  }

  /** A key outside the grammar. */
  const BAD_KEY: string := "bad key"

  lemma BadKeyIsRefused()
    ensures !Accepted(BAD_KEY)
  {
    assert ParseKey(BAD_KEY) == MetaKey([], BAD_KEY) by { SplitOnceSpec(BAD_KEY, '/'); }
    assert !Name(BAD_KEY) by { assert BAD_KEY[3] == ' '; }
    assert !ParseKey(BAD_KEY).WellFormed();
    RecogniserIsGrammar(BAD_KEY);
  }

  lemma LabelChars(s: string)
    requires Label(s)
    ensures IsAscii(s) && '/' !in s
  {}

  lemma NameChars(s: string)
    requires Name(s)
    ensures IsAscii(s) && '/' !in s
  {}

  lemma PrefixChars(labels: seq<string>)
    requires forall l :: l in labels ==> Label(l)
    ensures IsAscii(Join(labels, '.')) && '/' !in Join(labels, '.')
  {
    var prefix := Join(labels, '.');
    CharsOfJoin(labels, '.');
    forall c | c in prefix
      ensures (c as int) < 0x80 && c != '/'
    {
      if c != '.' {
        var l :| l in labels && c in l;
        LabelChars(l);
      }
    }
    assert forall i :: 0 <= i < |prefix| ==> prefix[i] in prefix;
  }

  /** An accepted key is ASCII with at most one slash; extension identifiers are those with exactly one. */
  lemma AcceptedKeyShape(key: string)
    ensures Accepted(key) ==> IsAscii(key) && Count(key, '/') <= 1
    ensures ValidateExtensionIdentifier(key).Ok? <==> Accepted(key) && Count(key, '/') == 1
  {
    CountAbsent(key, '/');
    if Accepted(key) {
      RecogniserIsGrammar(key);
      var k := ParseKey(key);
      NameChars(k.name);
      CountAbsent(k.name, '/');
      if k.labels != [] {
        var prefix := Join(k.labels, '.');
        PrefixChars(k.labels);
        CountAbsent(prefix, '/');
        CountConcat(prefix + ['/'], k.name, '/');
        CountConcat(prefix, ['/'], '/');
        assert key == prefix + ['/'] + k.name;
      }
    }
  }

  // ------------------------------------------------------------------------------------------------------------
  // `_meta` objects
  // ------------------------------------------------------------------------------------------------------------

  /** `validate_meta_object`: the first misnamed key, in order, is reported. */
  function ValidateMetaObject(v: Value): Validation {
    if v.Obj? then ValidateKeys(v.entries) else Err(ExpectedObject)
  }

  function ValidateKeys(es: Object): Validation {
    if es == [] then Ok(())
    else
      var _ :- ValidateMetaKey(es[0].0);
      ValidateKeys(es[1..])
  }

  predicate AllAccepted(es: Object) { forall i :: 0 <= i < |es| ==> Accepted(es[i].0) }

  /** What `retain` keeps. */
  function Conforming(es: Object): Object { KeepKeys(es, Accepted) }

  /** A `_meta` map being read, filtered in place. */
  class MetaMap {
    var entries: Object

    constructor (entries: Object)
      ensures this.entries == entries
    {
      this.entries := entries;
    }

    /** `map.retain(|key, _| validate_meta_key(key).is_ok())`. */
    method Retain()
      modifies this
      ensures entries == Conforming(old(entries))
    {
      var kept: Object := [];
      var i := 0;
      while i < |entries|
        invariant 0 <= i <= |entries|
        invariant entries == old(entries)
        invariant kept == Conforming(entries[..i])
      {
        ConformingConcat(entries[..i], [entries[i]]);
        ConformingOne(entries[i]);
        assert entries[..i + 1] == entries[..i] + [entries[i]];
        if ValidateMetaKey(entries[i].0).Ok? {
          kept := kept + [entries[i]];
        }
        i := i + 1;
      }
      assert entries[..i] == entries;
      entries := kept;
    }
  }

  /** `meta_object_serde::deserialize`, for a raw value: failure only for something that is neither object nor null. */
  function DecodeMeta(v: Value): Option<Option<Value>> {
    match v
    case Null => Some(None)
    case Obj(es) => Some(Some(Obj(Conforming(es))))
    case _ => None
  }

  method DeserializeMeta(v: Value) returns (r: Option<Option<Value>>)
    ensures r == DecodeMeta(v)
  {
    match v
    case Obj(es) =>
      var map_ := new MetaMap(es);
      map_.Retain();
      r := Some(Some(Obj(map_.entries)));
    case Null => r := Some(None);
    case _ => r := None;
  }

  /** `meta_object_serde::serialize`. */
  function EncodeMeta(meta: Option<Value>): Result<Option<Value>, MetaError> {
    if meta.Some? && ValidateMetaObject(meta.value).Err? then Err(ValidateMetaObject(meta.value).error) else Ok(meta)
  }

  /** A `_meta` field of a struct: absent, or read by `DecodeMeta`. */
  function ReadMetaField(o: Object): Option<Option<Value>> {
    var v := Lookup(o, "_meta");
    if v.None? then Some(None) else DecodeMeta(v.value)
  }

  lemma {:induction false} ValidateKeysSpec(es: Object)
    ensures ValidateKeys(es).Ok? <==> AllAccepted(es)
  {
    if es == [] {
    } else {
      ValidateKeysSpec(es[1..]);
      assert forall j :: 0 < j < |es| ==> es[j] == es[1..][j - 1];
    }
  }

  /** The reported key is the first misnamed one. */
  lemma {:induction false} FirstMisnamedKeyIsReported(es: Object, i: nat)
    requires i < |es| && AllAccepted(es[..i]) && !Accepted(es[i].0)
    ensures ValidateMetaObject(Obj(es)) == ValidateMetaKey(es[i].0)
  {
    if i == 0 {
    } else {
      assert es[..i][0] == es[0];
      var before, rest := es[..i], es[1..][..i - 1];
      assert forall j :: 0 <= j < |rest| ==> rest[j] == before[j + 1];
      FirstMisnamedKeyIsReported(es[1..], i - 1);
    }
  }

  /** Filtering goes entry by entry, in order. */
  lemma ConformingConcat(a: Object, b: Object)
    ensures Conforming(a + b) == Conforming(a) + Conforming(b)
  {
    KeepKeysConcat(a, b, Accepted);
  }

  lemma ConformingOne(e: (string, Value))
    ensures Conforming([e]) == if Accepted(e.0) then [e] else []
  {
    var es: Object := [e];
    assert es[1..] == [];
    assert KeepKeys(es[1..], Accepted) == [];
  }

  /** Exactly the accepted keys survive, with their values; everything survives when every key is accepted. */
  lemma ConformingSpec(es: Object)
    ensures AllAccepted(Conforming(es))
    ensures forall k :: Lookup(Conforming(es), k) == if Accepted(k) then Lookup(es, k) else None
    ensures Conforming(es) == es <==> AllAccepted(es)
    ensures |Conforming(es)| <= |es|
  {
    KeepKeysSpec(es, Accepted);
  }

  /**
   * Decoding any object succeeds and what it yields always encodes; decoding that again changes nothing; and
   * encoding a `_meta` fails exactly when it is not an object or some key does not conform.
   */
  lemma TolerantInStrictOut(es: Object)
    ensures DecodeMeta(Obj(es)) == Some(Some(Obj(Conforming(es))))
    ensures EncodeMeta(DecodeMeta(Obj(es)).value) == Ok(Some(Obj(Conforming(es))))
    ensures DecodeMeta(EncodeMeta(DecodeMeta(Obj(es)).value).value.value) == DecodeMeta(Obj(es))
    ensures EncodeMeta(Some(Obj(es))).Ok? <==> AllAccepted(es)
    ensures AllAccepted(es) <==> DecodeMeta(Obj(es)) == Some(Some(Obj(es)))
  {
    ConformingSpec(es);
    ConformingSpec(Conforming(es));
    ValidateKeysSpec(es);
    ValidateKeysSpec(Conforming(es));
  }

  /** Metadata that is absent or an object of conforming keys: what may be written. */
  predicate MetaConforms(meta: Option<Value>) {
    meta.None? || (meta.value.Obj? && AllAccepted(meta.value.entries))
  }

  /** For every optional raw value: what encodes is decoded unchanged. */
  lemma EncodedMetaReadsBack(meta: Option<Value>)
    ensures EncodeMeta(meta).Ok? <==> MetaConforms(meta)
    ensures EncodeMeta(meta).Ok? && meta.Some? ==> DecodeMeta(meta.value) == Some(meta)
    ensures EncodeMeta(meta).Ok? ==> EncodeMeta(meta) == Ok(meta)
    ensures meta.Some? && !meta.value.Obj? ==> EncodeMeta(meta) == Err(ExpectedObject)
  {
    if meta.Some? && meta.value.Obj? {
      TolerantInStrictOut(meta.value.entries);
    }
  }

  /** A struct with such a `_meta` field reads it back, whatever else it holds. */
  lemma MetaFieldReadsBack(o: Object, meta: Option<Value>)
    requires Lookup(o, "_meta") == meta && MetaConforms(meta)
    ensures ReadMetaField(o) == Some(meta)
  {
    EncodedMetaReadsBack(meta);
  }

  // ------------------------------------------------------------------------------------------------------------
  // Typed payloads: any type with a writer, which may refuse, and a reader
  // ------------------------------------------------------------------------------------------------------------

  datatype Codec<!T> = Codec(write: T -> Result<Value, MetaError>, read: Value -> Option<T>) {
    ghost predicate Writes(t: T) { write(t).Ok? }
    ghost predicate Reads(t: T) { write(t).Ok? && read(write(t).value).Some? }
    ghost predicate Survives(t: T) { write(t).Ok? && read(write(t).value) == Some(t) }
  }

  /** `meta_object_serde` at a type: the written value is checked, the read one filtered first. */
  function EncodeTyped<T>(c: Codec<T>, meta: Option<T>): Result<Option<Value>, MetaError> {
    if meta.None? then Ok(None)
    else
      var v :- c.write(meta.value);
      var _ :- ValidateMetaObject(v);
      Ok(Some(v))
  }

  function ReadTypedMetaField<T>(c: Codec<T>, o: Object): Option<Option<T>> {
    var meta :- ReadMetaField(o);
    if meta.None? then Some(None)
    else
      var t :- c.read(meta.value);
      Some(Some(t))
  }

  /** The filter never touches what was written: typed metadata reads back exactly when its own type does. */
  lemma TypedMetaReadsBack<T>(c: Codec<T>, o: Object, meta: Option<T>)
    requires EncodeTyped(c, meta).Ok? && Lookup(o, "_meta") == EncodeTyped(c, meta).value
    ensures ReadTypedMetaField(c, o).Some? <==> meta.None? || c.Reads(meta.value)
    ensures ReadTypedMetaField(c, o) == Some(meta) <==> meta.None? || c.Survives(meta.value)
  {
    EncodedMetaReadsBack(EncodeTyped(c, meta).value);
  }

  /** An entry under that key is dropped on the way in and refused on the way out. */
  lemma BadKeyEntry(v: Value)
    ensures Conforming([(BAD_KEY, v)]) == [] && !MetaConforms(Some(Obj([(BAD_KEY, v)])))
  {
    var entries: Object := [(BAD_KEY, v)];
    BadKeyIsRefused();
    ConformingOne(entries[0]);
    assert !Accepted(entries[0].0);
  }

  /** What a tolerant reader lets through is what a strict writer takes. */
  lemma ReadMetaConforms(o: Object)
    requires ReadMetaField(o).Some?
    ensures MetaConforms(ReadMetaField(o).value)
  {
    var v := Lookup(o, "_meta");
    if v.Some? && v.value.Obj? {
      ConformingSpec(v.value.entries);
    }
  }

  /** Whatever the codec reads it writes, and reads again as the same. */
  ghost predicate Stable<T(!new)>(c: Codec<T>) { forall v :: c.read(v).Some? ==> c.Survives(c.read(v).value) }

  /** As metadata too: what it reads, it writes under conforming keys. */
  ghost predicate StableMeta<T(!new)>(c: Codec<T>) {
    Stable(c) && forall v :: c.read(v).Some? ==> EncodeTyped(c, c.read(v)).Ok?
  }

  /** A `_meta` field, as any struct holds it: absent, null, or an object of which the conforming entries count. */
  predicate MetaIs(o: Object, meta: Option<Value>) {
    if meta.None? then Missing(o, "_meta")
    else Has(o, "_meta") && Lookup(o, "_meta").value.Obj? && meta == Some(Obj(Conforming(Lookup(o, "_meta").value.entries)))
  }

  lemma MetaReadsExactly(o: Object, meta: Option<Value>)
    ensures ReadMetaField(o) == Some(meta) <==> MetaIs(o, meta)
  {}

  lemma MetaAccepted(o: Object)
    ensures ReadMetaField(o).Some? <==> MayBe(o, "_meta", IsObject)
  {}

  /** At any type, the conforming entries and nothing else are what the type reads. */
  lemma TypedMetaReadsExactly<T>(c: Codec<T>, o: Object, meta: Option<T>)
    ensures ReadTypedMetaField(c, o) == Some(meta) <==>
              if meta.None? then Missing(o, "_meta")
              else Has(o, "_meta") && Lookup(o, "_meta").value.Obj?
                   && c.read(Obj(Conforming(Lookup(o, "_meta").value.entries))) == meta
  {}
}
