/** The result of a tool call: its content items and their codec. */
module ToolResults {
  import opened Prelude
  import opened Entries
  import opened Float64
  import opened Json
  import opened MetaKeys

  datatype Role = User | Assistant
  datatype Theme = Light | Dark
  datatype Annotations = Annotations(audience: Option<seq<Role>>, priority: Option<f64>, lastModified: Option<string>)
  datatype Icon = Icon(src: string, mimeType: Option<string>, sizes: Option<seq<string>>, theme: Option<Theme>)
  datatype Resource = Resource(
    uri: string, mimeType: Option<string>, text: Option<string>, blob: Option<string>, meta: Option<Value>)

  datatype Content =
    | Text(text: string, annotations: Option<Annotations>, meta: Option<Value>)
    | Image(data: string, mimeType: string, annotations: Option<Annotations>, meta: Option<Value>)
    | Audio(data: string, mimeType: string, annotations: Option<Annotations>, meta: Option<Value>)
    | Embedded(resource: Resource, annotations: Option<Annotations>, meta: Option<Value>)
    | Link(link: ResourceLink, annotations: Option<Annotations>, meta: Option<Value>)

  datatype ResourceLink = ResourceLink(
    uri: string, name: string, title: Option<string>, description: Option<string>, mimeType: Option<string>,
    size: Option<u64>, icons: Option<seq<Icon>>)

  datatype CallToolResult = CallToolResult(
    content: seq<Content>, isError: bool, structuredContent: Option<Value>, meta: Option<Value>)

  type Fields = seq<(string, Option<Value>)>

  // ------------------------------------------------------------------------------------------------------------
  // Encoding
  // ------------------------------------------------------------------------------------------------------------

  function OfRole(r: Role): Value { Str(if r.User? then "user" else "assistant") }
  function OfTheme(t: Theme): Value { Str(if t.Light? then "light" else "dark") }

  function OfEach<T>(ts: seq<T>, write: T -> Value): Value {
    Arr(seq(|ts|, i requires 0 <= i < |ts| => write(ts[i])))
  }

  function AnnotationsFields(a: Annotations): Fields {
    [("audience", if a.audience.Some? then Some(OfEach(a.audience.value, OfRole)) else None),
     ("priority", OptF64(a.priority)),
     ("lastModified", OptStr(a.lastModified))]
  }

  function IconFields(i: Icon): Fields {
    [("src", Some(Str(i.src))),
     ("mimeType", OptStr(i.mimeType)),
     ("sizes", OptStrings(i.sizes)),
     ("theme", if i.theme.Some? then Some(OfTheme(i.theme.value)) else None)]
  }

  function EncodeIcon(i: Icon): Value { Obj(Compact(IconFields(i))) }

  function ResourceFields(r: Resource): Fields {
    [("uri", Some(Str(r.uri))),
     ("mimeType", OptStr(r.mimeType)),
     ("text", OptStr(r.text)),
     ("blob", OptStr(r.blob)),
     ("_meta", r.meta)]
  }

  function LinkFields(l: ResourceLink): Fields {
    [("uri", Some(Str(l.uri))),
     ("name", Some(Str(l.name))),
     ("title", OptStr(l.title)),
     ("description", OptStr(l.description)),
     ("mimeType", OptStr(l.mimeType)),
     ("size", OptU64(l.size)),
     ("icons", if l.icons.Some? then Some(OfEach(l.icons.value, EncodeIcon)) else None)]
  }

  function Tag(c: Content): string {
    match c
    case Text(_, _, _) => "text"
    case Image(_, _, _, _) => "image"
    case Audio(_, _, _, _) => "audio"
    case Embedded(_, _, _) => "resource"
    case Link(_, _, _) => "resource_link"
  }

  function BodyFields(c: Content): Fields {
    match c
    case Text(text, _, _) => [("text", Some(Str(text)))]
    case Image(data, mimeType, _, _) => [("data", Some(Str(data))), ("mimeType", Some(Str(mimeType)))]
    case Audio(data, mimeType, _, _) => [("data", Some(Str(data))), ("mimeType", Some(Str(mimeType)))]
    case Embedded(resource, _, _) => [("resource", Some(Obj(Compact(ResourceFields(resource)))))]
    case Link(link, _, _) => LinkFields(link)
  }

  function TagField(c: Content): Fields { [("type", Some(Str(Tag(c))))] }

  function EndFields(c: Content): Fields {
    [("annotations", if c.annotations.Some? then Some(Obj(Compact(AnnotationsFields(c.annotations.value)))) else None),
     ("_meta", c.meta)]
  }

  function ContentFields(c: Content): Fields { TagField(c) + BodyFields(c) + EndFields(c) }

  /** Every metadata value is checked as it is written. */
  function EncodeContent(c: Content): Result<Value, MetaError> {
    var _ :- EncodeMeta(if c.Embedded? then c.resource.meta else None);
    var _ :- EncodeMeta(c.meta);
    Ok(Obj(Compact(ContentFields(c))))
  }

  /** A false `isError` is left out. */
  function ResultFields(r: CallToolResult, content: seq<Value>): Fields {
    [("content", Some(Arr(content))),
     ("isError", if r.isError then Some(Bool(true)) else None),
     ("structuredContent", r.structuredContent),
     ("_meta", r.meta)]
  }

  function EncodeResult(r: CallToolResult): Result<Object, MetaError> {
    var content :- WriteEach(r.content, EncodeContent);
    var _ :- EncodeMeta(r.meta);
    Ok(Compact(ResultFields(r, content)))
  }

  // ------------------------------------------------------------------------------------------------------------
  // Decoding
  // ------------------------------------------------------------------------------------------------------------

  function ReadRole(v: Value): Option<Role> {
    if v == Str("user") then Some(User) else if v == Str("assistant") then Some(Assistant) else None
  }

  function ReadTheme(v: Value): Option<Theme> {
    if v == Str("light") then Some(Light) else if v == Str("dark") then Some(Dark) else None
  }

  function ReadRoles(v: Value): Option<seq<Role>> { ReadArray(v, ReadRole) }

  function ReadAnnotations(v: Value): Option<Annotations> {
    var o :- ReadObject(v);
    var audience :- Optional(o, "audience", ReadRoles);
    var priority :- Optional(o, "priority", ReadFloat);
    var lastModified :- Optional(o, "lastModified", ReadStr);
    Some(Annotations(audience, priority, lastModified))
  }

  function ReadIcon(v: Value): Option<Icon> {
    var o :- ReadObject(v);
    var src :- Required(o, "src", ReadStr);
    var mimeType :- Optional(o, "mimeType", ReadStr);
    var sizes :- Optional(o, "sizes", ReadStrings);
    var theme :- Optional(o, "theme", ReadTheme);
    Some(Icon(src, mimeType, sizes, theme))
  }

  function ReadIcons(v: Value): Option<seq<Icon>> { ReadArray(v, ReadIcon) }

  function ReadResource(v: Value): Option<Resource> {
    var o :- ReadObject(v);
    var uri :- Required(o, "uri", ReadStr);
    var mimeType :- Optional(o, "mimeType", ReadStr);
    var text :- Optional(o, "text", ReadStr);
    var blob :- Optional(o, "blob", ReadStr);
    var meta :- ReadMetaField(o);
    Some(Resource(uri, mimeType, text, blob, meta))
  }

  function ReadLink(o: Object): Option<ResourceLink> {
    var uri :- Required(o, "uri", ReadStr);
    var name :- Required(o, "name", ReadStr);
    var title :- Optional(o, "title", ReadStr);
    var description :- Optional(o, "description", ReadStr);
    var mimeType :- Optional(o, "mimeType", ReadStr);
    var size :- Optional(o, "size", ReadU64);
    var icons :- Optional(o, "icons", ReadIcons);
    Some(ResourceLink(uri, name, title, description, mimeType, size, icons))
  }

  /** The variant is chosen by the `type` tag alone. */
  function ReadVariant(tag: string, o: Object, annotations: Option<Annotations>, meta: Option<Value>): Option<Content> {
    if tag == "text" then
      var text :- Required(o, "text", ReadStr);
      Some(Text(text, annotations, meta))
    else if tag == "image" || tag == "audio" then
      var data :- Required(o, "data", ReadStr);
      var mimeType :- Required(o, "mimeType", ReadStr);
      Some(if tag == "image" then Image(data, mimeType, annotations, meta) else Audio(data, mimeType, annotations, meta))
    else if tag == "resource" then
      var resource :- Required(o, "resource", ReadResource);
      Some(Embedded(resource, annotations, meta))
    else if tag == "resource_link" then
      var link :- ReadLink(o);
      Some(Link(link, annotations, meta))
    else None
  }

  function DecodeContent(v: Value): Option<Content> {
    var o :- ReadObject(v);
    var tag :- Required(o, "type", ReadStr);
    var annotations :- Optional(o, "annotations", ReadAnnotations);
    var meta :- ReadMetaField(o);
    ReadVariant(tag, o, annotations, meta)
  }

  function ReadContents(v: Value): Option<seq<Content>> { ReadArray(v, DecodeContent) }

  /** `content` is required, `isError` may not be null, and a null `structuredContent` is a value of its own. */
  function DecodeResult(v: Value): Option<CallToolResult> {
    var o :- ReadObject(v);
    var content :- Required(o, "content", ReadContents);
    var isError :- if Has(o, "isError") then ReadBool(Lookup(o, "isError").value) else Some(false);
    var meta :- ReadMetaField(o);
    Some(CallToolResult(content, isError, Lookup(o, "structuredContent"), meta))
  }

  // ------------------------------------------------------------------------------------------------------------
  // Round trip
  // ------------------------------------------------------------------------------------------------------------

  /** What annotations read back as: a priority that is no JSON number is lost. */
  function NormalAnnotations(a: Annotations): Annotations {
    a.(priority := if a.priority.Some? && a.priority.value.Finite? then a.priority else None)
  }

  function NormalContent(c: Content): Content {
    c.(annotations := if c.annotations.Some? then Some(NormalAnnotations(c.annotations.value)) else None)
  }

  function NormalContents(cs: seq<Content>): seq<Content> {
    seq(|cs|, i requires 0 <= i < |cs| => NormalContent(cs[i]))
  }

  function NormalResult(r: CallToolResult): CallToolResult { r.(content := NormalContents(r.content)) }

  predicate FinitePriority(c: Content) {
    c.annotations.Some? && c.annotations.value.priority.Some? ==> c.annotations.value.priority.value.Finite?
  }

  /** No content item has a priority that is infinite or not a number. */
  predicate FinitePriorities(r: CallToolResult) { forall i :: 0 <= i < |r.content| ==> FinitePriority(r.content[i]) }

  predicate ContentConforms(c: Content) { MetaConforms(c.meta) && (c.Embedded? ==> MetaConforms(c.resource.meta)) }

  /** All metadata in the result, its own, its items' and its embedded resources', conforms. */
  predicate ResultConforms(r: CallToolResult) {
    MetaConforms(r.meta) && forall i :: 0 <= i < |r.content| ==> ContentConforms(r.content[i])
  }

  lemma EachReadsBack<T>(ts: seq<T>, write: T -> Value, read: Value -> Option<T>)
    requires forall i :: 0 <= i < |ts| ==> read(write(ts[i])) == Some(ts[i])
    ensures ReadArray(OfEach(ts, write), read) == Some(ts)
  {
    ReadEachIs(OfEach(ts, write).items, read, ts);
  }

  lemma AnnotationsRoundTrip(a: Annotations)
    ensures ReadAnnotations(Obj(Compact(AnnotationsFields(a)))) == Some(NormalAnnotations(a))
  {
    var fs := AnnotationsFields(a);
    CompactLookup(fs, 0);
    CompactLookup(fs, 1);
    CompactLookup(fs, 2);
    if a.audience.Some? {
      EachReadsBack(a.audience.value, OfRole, ReadRole);
    }
  }

  lemma IconRoundTrip(i: Icon)
    ensures ReadIcon(EncodeIcon(i)) == Some(i)
  {
    var fs := IconFields(i);
    CompactLookup(fs, 0);
    CompactLookup(fs, 1);
    CompactLookup(fs, 2);
    CompactLookup(fs, 3);
    if i.sizes.Some? {
      StringsRoundTrip(i.sizes.value);
    }
  }

  lemma ResourceRoundTrip(r: Resource)
    requires MetaConforms(r.meta)
    ensures ReadResource(Obj(Compact(ResourceFields(r)))) == Some(r)
  {
    var fs := ResourceFields(r);
    CompactLookup(fs, 0);
    CompactLookup(fs, 1);
    CompactLookup(fs, 2);
    CompactLookup(fs, 3);
    CompactLookup(fs, 4);
    MetaFieldReadsBack(Compact(fs), r.meta);
  }

  lemma IconsRoundTrip(icons: seq<Icon>)
    ensures ReadIcons(OfEach(icons, EncodeIcon)) == Some(icons)
  {
    forall i | 0 <= i < |icons|
      ensures ReadIcon(EncodeIcon(icons[i])) == Some(icons[i])
    {
      IconRoundTrip(icons[i]);
    }
    EachReadsBack(icons, EncodeIcon, ReadIcon);
  }

  lemma LinkReadsBack(o: Object, l: ResourceLink)
    requires forall i :: 0 <= i < 7 ==> Lookup(o, LinkFields(l)[i].0) == LinkFields(l)[i].1
    ensures ReadLink(o) == Some(l)
  {
    var fs := LinkFields(l);
    assert fs[0].0 == "uri" && fs[1].0 == "name" && fs[2].0 == "title" && fs[3].0 == "description";
    assert fs[4].0 == "mimeType" && fs[5].0 == "size" && fs[6].0 == "icons";
    if l.icons.Some? {
      IconsRoundTrip(l.icons.value);
    }
  }

  lemma ContentKeysDistinct(c: Content)
    ensures DistinctKeys(ContentFields(c))
  {}

  lemma ContentLookups(c: Content)
    ensures var o := Compact(ContentFields(c)); var body := BodyFields(c); var end := EndFields(c);
            && Lookup(o, "type") == Some(Str(Tag(c)))
            && (forall i :: 0 <= i < |body| ==> Lookup(o, body[i].0) == body[i].1)
            && Lookup(o, "annotations") == end[0].1 && Lookup(o, "_meta") == c.meta
  {
    ContentKeysDistinct(c);
    var tag, body, end := TagField(c), BodyFields(c), EndFields(c);
    assert ContentFields(c) == [] + tag + (body + end);
    BlockLookups([], tag, body + end);
    BlockLookups(tag, body, end);
    assert ContentFields(c) == (tag + body) + end + [];
    BlockLookups(tag + body, end, []);
    assert tag[0].0 == "type" && end[0].0 == "annotations" && end[1].0 == "_meta";
  }

  lemma VariantReadsBack(c: Content, o: Object, annotations: Option<Annotations>)
    requires ContentConforms(c)
    requires forall i :: 0 <= i < |BodyFields(c)| ==> Lookup(o, BodyFields(c)[i].0) == BodyFields(c)[i].1
    ensures ReadVariant(Tag(c), o, annotations, c.meta) == Some(c.(annotations := annotations))
  {
    var body := BodyFields(c);
    match c
    case Text(_, _, _) => assert body[0].0 == "text";
    case Image(_, _, _, _) => assert body[0].0 == "data" && body[1].0 == "mimeType";
    case Audio(_, _, _, _) => assert body[0].0 == "data" && body[1].0 == "mimeType";
    case Embedded(resource, _, _) =>
      assert body[0].0 == "resource";
      ResourceRoundTrip(resource);
    case Link(link, _, _) => LinkReadsBack(o, link);
  }

  lemma ContentRoundTrip(c: Content)
    requires ContentConforms(c)
    ensures DecodeContent(Obj(Compact(ContentFields(c)))) == Some(NormalContent(c))
  {
    var o := Compact(ContentFields(c));
    ContentLookups(c);
    MetaFieldReadsBack(o, c.meta);
    if c.annotations.Some? {
      AnnotationsRoundTrip(c.annotations.value);
    }
    VariantReadsBack(c, o, NormalContent(c).annotations);
  }

  lemma ContentEncodes(c: Content)
    ensures EncodeContent(c).Ok? <==> ContentConforms(c)
    ensures EncodeContent(c).Ok? ==> EncodeContent(c).value == Obj(Compact(ContentFields(c)))
  {
    EncodedMetaReadsBack(c.meta);
    EncodedMetaReadsBack(if c.Embedded? then c.resource.meta else None);
  }

  /** A result is refused exactly when some metadata in it, however deep, does not conform. */
  lemma ResultEncodes(r: CallToolResult)
    ensures EncodeResult(r).Ok? <==> ResultConforms(r)
  {
    WriteEachSpec(r.content, EncodeContent);
    EncodedMetaReadsBack(r.meta);
    forall i | 0 <= i < |r.content|
      ensures EncodeContent(r.content[i]).Ok? <==> ContentConforms(r.content[i])
    {
      ContentEncodes(r.content[i]);
    }
  }

  lemma EncodedContentReads(cs: seq<Content>)
    requires WriteEach(cs, EncodeContent).Ok?
    ensures ReadContents(Arr(WriteEach(cs, EncodeContent).value)) == Some(NormalContents(cs))
  {
    WriteEachSpec(cs, EncodeContent);
    var written := WriteEach(cs, EncodeContent).value;
    forall i | 0 <= i < |cs|
      ensures DecodeContent(written[i]) == Some(NormalContent(cs[i]))
    {
      ContentEncodes(cs[i]);
      ContentRoundTrip(cs[i]);
    }
    ReadEachIs(written, DecodeContent, NormalContents(cs));
  }

  lemma NormalIsSame(r: CallToolResult)
    ensures NormalResult(r) == r <==> FinitePriorities(r)
  {
    forall i | 0 <= i < |r.content|
      ensures NormalContent(r.content[i]) == r.content[i] <==> FinitePriority(r.content[i])
    {}
    if NormalResult(r) == r {
      assert forall i :: 0 <= i < |r.content| ==> NormalResult(r).content[i] == r.content[i];
    } else {
      assert exists i :: 0 <= i < |r.content| && NormalResult(r).content[i] != r.content[i];
    }
  }

  lemma ResultReadsBack(o: Object, r: CallToolResult, content: seq<Value>)
    requires Lookup(o, "content") == Some(Arr(content)) && ReadContents(Arr(content)) == Some(NormalContents(r.content))
    requires Lookup(o, "isError") == if r.isError then Some(Bool(true)) else None
    requires Lookup(o, "structuredContent") == r.structuredContent
    requires Lookup(o, "_meta") == r.meta && MetaConforms(r.meta)
    ensures DecodeResult(Obj(o)) == Some(NormalResult(r))
  {
    MetaFieldReadsBack(o, r.meta);
  }

  /** A written result always reads back, and as itself exactly when its priorities are finite. */
  lemma ResultRoundTrip(r: CallToolResult)
    requires EncodeResult(r).Ok?
    ensures DecodeResult(Obj(EncodeResult(r).value)) == Some(NormalResult(r))
    ensures DecodeResult(Obj(EncodeResult(r).value)) == Some(r) <==> FinitePriorities(r)
  {
    var content := WriteEach(r.content, EncodeContent).value;
    var fs := ResultFields(r, content);
    CompactLookup(fs, 0);
    CompactLookup(fs, 1);
    CompactLookup(fs, 2);
    CompactLookup(fs, 3);
    EncodedContentReads(r.content);
    EncodedMetaReadsBack(r.meta);
    ResultReadsBack(Compact(fs), r, content);
    NormalIsSame(r);
  }

  /** The empty object is no tool result: `content` has no default. */
  lemma ContentIsRequired()
    ensures DecodeResult(Obj([])) == None
  {}

  // ------------------------------------------------------------------------------------------------------------
  // What was read is written and read again unchanged
  // ------------------------------------------------------------------------------------------------------------

  lemma ReadAnnotationsAreFinite(v: Value)
    requires ReadAnnotations(v).Some?
    ensures var p := ReadAnnotations(v).value.priority; p.Some? ==> p.value.Finite?
  {
    ReadFloatIsFinite(v.entries, "priority");
  }

  lemma ReadResourceConforms(v: Value)
    requires ReadResource(v).Some?
    ensures MetaConforms(ReadResource(v).value.meta)
  {
    ReadMetaConforms(v.entries);
  }

  lemma ReadContentIsWritable(v: Value)
    requires DecodeContent(v).Some?
    ensures ContentConforms(DecodeContent(v).value) && FinitePriority(DecodeContent(v).value)
  {
    var o, c := v.entries, DecodeContent(v).value;
    assert MetaConforms(c.meta) by { ReadMetaConforms(o); }
    if c.annotations.Some? {
      ReadAnnotationsAreFinite(Lookup(o, "annotations").value);
    }
    if c.Embedded? {
      ReadResourceConforms(Lookup(o, "resource").value);
    }
  }

  /** A tool result read from any value, tolerantly, is written, strictly, and read again as the same result. */
  lemma ReadResultSurvives(v: Value)
    requires DecodeResult(v).Some?
    ensures var r := DecodeResult(v).value;
            && ResultConforms(r) && FinitePriorities(r)
            && EncodeResult(r).Ok? && DecodeResult(Obj(EncodeResult(r).value)) == Some(r)
  {
    var o, r := v.entries, DecodeResult(v).value;
    var items := Lookup(o, "content").value.items;
    ReadEachSpec(items, DecodeContent);
    forall i | 0 <= i < |r.content|
      ensures ContentConforms(r.content[i]) && FinitePriority(r.content[i])
    {
      ReadContentIsWritable(items[i]);
    }
    ReadMetaConforms(o);
    ResultEncodes(r);
    ResultRoundTrip(r);
  }

  // ------------------------------------------------------------------------------------------------------------
  // What is accepted, and what it is read as
  // ------------------------------------------------------------------------------------------------------------

  predicate IsRole(v: Value) { v == Str("user") || v == Str("assistant") }
  predicate IsRoles(v: Value) { v.Arr? && forall i :: 0 <= i < |v.items| ==> IsRole(v.items[i]) }
  predicate IsTheme(v: Value) { v == Str("light") || v == Str("dark") }

  predicate IsAnnotations(v: Value) {
    && v.Obj? && MayBe(v.entries, "audience", IsRoles) && MayBe(v.entries, "priority", IsNumber)
    && MayBe(v.entries, "lastModified", IsText)
  }

  predicate IsIcon(v: Value) {
    && v.Obj? && MustBe(v.entries, "src", IsText) && MayBe(v.entries, "mimeType", IsText)
    && MayBe(v.entries, "sizes", IsTexts) && MayBe(v.entries, "theme", IsTheme)
  }

  predicate IsIcons(v: Value) { v.Arr? && forall i :: 0 <= i < |v.items| ==> IsIcon(v.items[i]) }

  predicate IsResource(v: Value) {
    && v.Obj? && MustBe(v.entries, "uri", IsText) && MayBe(v.entries, "mimeType", IsText)
    && MayBe(v.entries, "text", IsText) && MayBe(v.entries, "blob", IsText) && MayBe(v.entries, "_meta", IsObject)
  }

  predicate IsLink(o: Object) {
    && MustBe(o, "uri", IsText) && MustBe(o, "name", IsText) && MayBe(o, "title", IsText) && MayBe(o, "description", IsText)
    && MayBe(o, "mimeType", IsText) && MayBe(o, "size", IsLength) && MayBe(o, "icons", IsIcons)
  }

  predicate IsVariant(o: Object, tag: string) {
    || (tag == "text" && MustBe(o, "text", IsText))
    || ((tag == "image" || tag == "audio") && MustBe(o, "data", IsText) && MustBe(o, "mimeType", IsText))
    || (tag == "resource" && MustBe(o, "resource", IsResource))
    || (tag == "resource_link" && IsLink(o))
  }

  predicate IsContent(v: Value) {
    && v.Obj? && MustBe(v.entries, "type", IsText) && MayBe(v.entries, "annotations", IsAnnotations)
    && MayBe(v.entries, "_meta", IsObject) && IsVariant(v.entries, Lookup(v.entries, "type").value.s)
  }

  predicate IsContents(v: Value) { v.Arr? && forall i :: 0 <= i < |v.items| ==> IsContent(v.items[i]) }

  /** A tool result: a list of content items, and the other three of their kinds; `isError` may be left out, not null. */
  predicate IsToolResult(v: Value) {
    && v.Obj? && MustBe(v.entries, "content", IsContents) && (Has(v.entries, "isError") ==> Lookup(v.entries, "isError").value.Bool?)
    && MayBe(v.entries, "_meta", IsObject)
  }

  lemma RolesAccepted(v: Value)
    ensures ReadRoles(v).Some? <==> IsRoles(v)
  {
    if v.Arr? {
      ReadEachSpec(v.items, ReadRole);
    }
  }

  lemma AnnotationsAccepted(v: Value)
    ensures ReadAnnotations(v).Some? <==> IsAnnotations(v)
  {
    if v.Obj? && Has(v.entries, "audience") {
      RolesAccepted(Lookup(v.entries, "audience").value);
    }
  }

  lemma IconAccepted(v: Value)
    ensures ReadIcon(v).Some? <==> IsIcon(v)
  {
    if v.Obj? {
      KeywordTexts(v.entries, "sizes");
    }
  }

  lemma IconsAccepted(v: Value)
    ensures ReadIcons(v).Some? <==> IsIcons(v)
  {
    if v.Arr? {
      ReadEachSpec(v.items, ReadIcon);
      forall i | 0 <= i < |v.items|
        ensures ReadIcon(v.items[i]).Some? <==> IsIcon(v.items[i])
      {
        IconAccepted(v.items[i]);
      }
    }
  }

  lemma ResourceAccepted(v: Value)
    ensures ReadResource(v).Some? <==> IsResource(v)
  {
    if v.Obj? {
      MetaAccepted(v.entries);
    }
  }

  lemma LinkAccepted(o: Object)
    ensures ReadLink(o).Some? <==> IsLink(o)
  {
    if Has(o, "icons") {
      IconsAccepted(Lookup(o, "icons").value);
    }
  }

  lemma VariantAccepted(tag: string, o: Object, annotations: Option<Annotations>, meta: Option<Value>)
    ensures ReadVariant(tag, o, annotations, meta).Some? <==> IsVariant(o, tag)
  {
    LinkAccepted(o);
    if Has(o, "resource") {
      ResourceAccepted(Lookup(o, "resource").value);
    }
  }

  lemma ContentAccepted(v: Value)
    ensures DecodeContent(v).Some? <==> IsContent(v)
  {
    if v.Obj? {
      var o := v.entries;
      MetaAccepted(o);
      if Has(o, "annotations") {
        AnnotationsAccepted(Lookup(o, "annotations").value);
      }
      if TagOf(o).Some? && Optional(o, "annotations", ReadAnnotations).Some? && ReadMetaField(o).Some? {
        VariantAccepted(TagOf(o).value, o, Optional(o, "annotations", ReadAnnotations).value, ReadMetaField(o).value);
      }
    }
  }

  function TagOf(o: Object): Option<string> { Required(o, "type", ReadStr) }

  lemma ContentsAccepted(v: Value)
    ensures ReadContents(v).Some? <==> IsContents(v)
  {
    if v.Arr? {
      ReadEachSpec(v.items, DecodeContent);
      forall i | 0 <= i < |v.items|
        ensures DecodeContent(v.items[i]).Some? <==> IsContent(v.items[i])
      {
        ContentAccepted(v.items[i]);
      }
    }
  }

  /** A value is accepted as a tool result exactly when each of its known fields is of its kind. */
  lemma ResultsAccepted(v: Value)
    ensures DecodeResult(v).Some? <==> IsToolResult(v)
  {
    if v.Obj? {
      MetaAccepted(v.entries);
      if Has(v.entries, "content") {
        ContentsAccepted(Lookup(v.entries, "content").value);
      }
    }
  }

  predicate RolesAre(v: Value, roles: seq<Role>) {
    v.Arr? && |v.items| == |roles|
    && forall i :: 0 <= i < |roles| ==> v.items[i] == Str(match roles[i] case User => "user" case Assistant => "assistant")
  }

  /** A priority may be written as an integer; the float it is read as stands for it. */
  ghost predicate RendersAnnotations(v: Value, a: Annotations) {
    && v.Obj?
    && (if a.audience.Some? then Has(v.entries, "audience") && RolesAre(Lookup(v.entries, "audience").value, a.audience.value)
        else Missing(v.entries, "audience"))
    && MaybeFloatIs(v.entries, "priority", a.priority) && MaybeTextIs(v.entries, "lastModified", a.lastModified)
  }

  predicate RendersIcon(v: Value, i: Icon) {
    && v.Obj? && TextIs(v.entries, "src", i.src) && MaybeTextIs(v.entries, "mimeType", i.mimeType)
    && MaybeTextsAre(v.entries, "sizes", i.sizes)
    && (if i.theme.Some? then TextIs(v.entries, "theme", match i.theme.value case Light => "light" case Dark => "dark")
        else Missing(v.entries, "theme"))
  }

  predicate RendersIcons(v: Value, icons: seq<Icon>) {
    v.Arr? && |v.items| == |icons| && forall i :: 0 <= i < |icons| ==> RendersIcon(v.items[i], icons[i])
  }

  predicate RendersResource(v: Value, r: Resource) {
    && v.Obj? && TextIs(v.entries, "uri", r.uri) && MaybeTextIs(v.entries, "mimeType", r.mimeType)
    && MaybeTextIs(v.entries, "text", r.text) && MaybeTextIs(v.entries, "blob", r.blob) && MetaIs(v.entries, r.meta)
  }

  predicate RendersLink(o: Object, l: ResourceLink) {
    && TextIs(o, "uri", l.uri) && TextIs(o, "name", l.name) && MaybeTextIs(o, "title", l.title)
    && MaybeTextIs(o, "description", l.description) && MaybeTextIs(o, "mimeType", l.mimeType) && MaybeU64Is(o, "size", l.size)
    && (if l.icons.Some? then Has(o, "icons") && RendersIcons(Lookup(o, "icons").value, l.icons.value) else Missing(o, "icons"))
  }

  predicate RendersBody(o: Object, c: Content) {
    match c
    case Text(text, _, _) => TextIs(o, "type", "text") && TextIs(o, "text", text)
    case Image(data, mimeType, _, _) => TextIs(o, "type", "image") && TextIs(o, "data", data) && TextIs(o, "mimeType", mimeType)
    case Audio(data, mimeType, _, _) => TextIs(o, "type", "audio") && TextIs(o, "data", data) && TextIs(o, "mimeType", mimeType)
    case Embedded(resource, _, _) =>
      TextIs(o, "type", "resource") && Has(o, "resource") && RendersResource(Lookup(o, "resource").value, resource)
    case Link(link, _, _) => TextIs(o, "type", "resource_link") && RendersLink(o, link)
  }

  /** `v` is a wire form of the content item. */
  ghost predicate RendersContent(v: Value, c: Content) {
    && v.Obj? && RendersBody(v.entries, c) && MetaIs(v.entries, c.meta)
    && (if c.annotations.Some?
        then Has(v.entries, "annotations") && RendersAnnotations(Lookup(v.entries, "annotations").value, c.annotations.value)
        else Missing(v.entries, "annotations"))
  }

  /** `v` is a wire form of the tool result. */
  ghost predicate RendersResult(v: Value, r: CallToolResult) {
    && v.Obj? && Has(v.entries, "content")
    && var items := Lookup(v.entries, "content").value;
       && items.Arr? && |items.items| == |r.content|
       && (forall i :: 0 <= i < |r.content| ==> RendersContent(items.items[i], r.content[i]))
       && (if Has(v.entries, "isError") then Lookup(v.entries, "isError") == Some(Bool(r.isError)) else !r.isError)
       && Lookup(v.entries, "structuredContent") == r.structuredContent && MetaIs(v.entries, r.meta)
  }

  lemma AnnotationsRead(v: Value)
    requires ReadAnnotations(v).Some?
    ensures RendersAnnotations(v, ReadAnnotations(v).value)
  {
    var o, a := v.entries, ReadAnnotations(v).value;
    FloatFieldReads(o, "priority");
    if a.audience.Some? {
      ReadEachSpec(Lookup(o, "audience").value.items, ReadRole);
    }
  }

  lemma IconRead(v: Value)
    requires ReadIcon(v).Some?
    ensures RendersIcon(v, ReadIcon(v).value)
  {
    if ReadIcon(v).value.sizes.Some? {
      TextsReadExactly(Lookup(v.entries, "sizes").value, ReadIcon(v).value.sizes.value);
    }
  }

  lemma IconsRead(v: Value)
    requires ReadIcons(v).Some?
    ensures RendersIcons(v, ReadIcons(v).value)
  {
    ReadEachSpec(v.items, ReadIcon);
    forall i | 0 <= i < |v.items|
      ensures RendersIcon(v.items[i], ReadIcons(v).value[i])
    {
      IconRead(v.items[i]);
    }
  }

  lemma LinkRead(o: Object)
    requires ReadLink(o).Some?
    ensures RendersLink(o, ReadLink(o).value)
  {
    IconsFieldRead(o);
  }

  lemma IconsFieldRead(o: Object)
    requires Optional(o, "icons", ReadIcons).Some?
    ensures var icons := Optional(o, "icons", ReadIcons).value;
            if icons.Some? then Has(o, "icons") && RendersIcons(Lookup(o, "icons").value, icons.value) else Missing(o, "icons")
  {
    if Optional(o, "icons", ReadIcons).value.Some? {
      IconsRead(Lookup(o, "icons").value);
    }
  }

  lemma ResourceRead(v: Value)
    requires ReadResource(v).Some?
    ensures RendersResource(v, ReadResource(v).value)
  {
    MetaReadsExactly(v.entries, ReadResource(v).value.meta);
  }

  lemma VariantRead(tag: string, o: Object, annotations: Option<Annotations>, meta: Option<Value>)
    requires TextIs(o, "type", tag) && ReadVariant(tag, o, annotations, meta).Some?
    ensures var c := ReadVariant(tag, o, annotations, meta).value;
            RendersBody(o, c) && c.annotations == annotations && c.meta == meta
  {
    if tag == "resource" {
      ResourceRead(Lookup(o, "resource").value);
    } else if tag == "resource_link" {
      LinkRead(o);
    }
  }

  lemma ContentRead(v: Value)
    requires DecodeContent(v).Some?
    ensures RendersContent(v, DecodeContent(v).value)
  {
    var o := v.entries;
    var annotations, meta := Optional(o, "annotations", ReadAnnotations).value, ReadMetaField(o).value;
    VariantRead(TagOf(o).value, o, annotations, meta);
    MetaReadsExactly(o, meta);
    if annotations.Some? {
      AnnotationsRead(Lookup(o, "annotations").value);
    }
  }

  /** Whatever is accepted is read field by field. */
  lemma ResultsReadExactly(v: Value)
    requires DecodeResult(v).Some?
    ensures RendersResult(v, DecodeResult(v).value)
  {
    var r, items := DecodeResult(v).value, Lookup(v.entries, "content").value.items;
    ReadEachSpec(items, DecodeContent);
    forall i | 0 <= i < |items|
      ensures RendersContent(items[i], r.content[i])
    {
      ContentRead(items[i]);
    }
    MetaReadsExactly(v.entries, r.meta);
  }

  // ------------------------------------------------------------------------------------------------------------
  // What is written
  // ------------------------------------------------------------------------------------------------------------

  /** A result writes its items in order, and each other field only when it is set; no error is written as no field. */
  lemma ResultOnTheWire(r: CallToolResult)
    requires EncodeResult(r).Ok?
    ensures var o := EncodeResult(r).value;
            && Lookup(o, "content") == Some(Arr(WriteEach(r.content, EncodeContent).value))
            && Lookup(o, "isError") == (if r.isError then Some(Bool(true)) else None)
            && Lookup(o, "structuredContent") == r.structuredContent && Lookup(o, "_meta") == r.meta
            && OnlyKeys(o, {"content", "isError", "structuredContent", "_meta"})
  {
    var fs := ResultFields(r, WriteEach(r.content, EncodeContent).value);
    CompactLookup(fs, 0);
    CompactLookup(fs, 1);
    CompactLookup(fs, 2);
    CompactLookup(fs, 3);
    CompactOnlyKeys(fs, {"content", "isError", "structuredContent", "_meta"});
  }

  /** Of an item, nothing at all is written as null, and of its annotations only a priority with no JSON form. */
  lemma ContentWritesNoNull(c: Content)
    requires ContentConforms(c)
    ensures forall k :: Lookup(Compact(ContentFields(c)), k) != Some(Null)
    ensures c.annotations.Some? && FinitePriority(c) ==>
              forall k :: Lookup(Compact(AnnotationsFields(c.annotations.value)), k) != Some(Null)
    ensures c.Embedded? ==> forall k :: Lookup(Compact(ResourceFields(c.resource)), k) != Some(Null)
  {
    CompactAvoids(ContentFields(c), Null);
    if c.annotations.Some? && FinitePriority(c) {
      CompactAvoids(AnnotationsFields(c.annotations.value), Null);
    }
    if c.Embedded? {
      CompactAvoids(ResourceFields(c.resource), Null);
    }
  }
}
