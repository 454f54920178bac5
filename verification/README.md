# The tower-mcp wire layer, modelled and proved

This project models the parts of tower-mcp that decide what bytes, JSON values, tokens and text lines mean, and proves
that the hand-written readers and writers agree with each other, with the grammars they implement, and with the promises
of their documentation. `dafny verify dfyconfig.toml` checks everything.

## What is modelled

| file | component |
|---|---|
| `Prelude.dfy` | results, integer widths, ordered string-keyed entry lists (`serde_json::Map` with `preserve_order`, `IndexMap`) |
| `Float64.dfy` | binary64 values, integer-to-float conversion with roundTiesToEven, exactness |
| `Json.dfy` | JSON values (numbers are u64, negative i64 or float) and the field readers and writers of derived codecs |
| `RequestIds.dfy` | the two readers of a request id and its writer |
| `JsonRpc.dfy` | JSON-RPC 2.0 messages, their derived codecs, the lenient response reader |
| `Inspection.dfy` | the envelope and batch inspector |
| `WireAssertions.dfy` | the assertion helpers for tests, as a third reader |
| `Text.dfy`, `Utf8.dfy` | the `str` operations used, and UTF-8 |
| `AsciiPrefix.dfy` | case-insensitive prefix stripping |
| `MetaKeys.dfy` | the `_meta` key grammar and `_meta` objects |
| `ResultTypes.dfy` | the `resultType` discriminator and its stamp |
| `ToolResults.dfy` | the result of a tool call and its content items |
| `CompatTasks.dfy` | the compatibility task object and the two-layout task-creation result |
| `FinalTasks.dfy` | the final Tasks extension, over any codec of input requests |
| `Responses.dfy` | the untagged response type: which variant an object comes out as |
| `FormSchema.dfy` | form schemas: dispatch, builder, codec |
| `InputRequests.dfy` | the requests a waiting task publishes, elicitation forms among them |
| `Sse.dfy` | the SSE line parser, replay detection and the counting loop |
| `Pump.dfy` | the fixed-window request pump |
| `Attributes.dfy` | the attribute parsers of the macros |
| `Extensions.dfy` | extension declarations and negotiation |
| `Apps.dfy` | CSP origins, dedicated domains, UI metadata |

Code that changes things step by step is a method with a loop, or a class whose methods update its fields; code made of
expressions is a function. A derived decoder returns `None` on failure: which field serde complains about first depends
on document order, so only success and content are modelled there. A `string` is a sequence of Unicode scalar values;
code that looks at bytes does so here through `Utf8.Encode`.

## Where promises fail, and exactly when

- Explicit `null` error data does not survive a round trip: it is written as `"data": null` and read as no data. Every
  law below that involves an error object says so, and holds exactly when the data is not an explicit null
  (`JsonRpc.NullErrorDataIsLost`, `FinalTasks.FailedTaskLosesNullData`).
- A content item's `priority` that is infinite or not a number is written as `null` and read as absent
  (`CompatTasks.NaNPriorityIsLost`); a tool result loses nothing else (`ToolResults.ResultRoundTrip`).
- A raw form field whose `type` is one of the five dispatched names comes back typed, or not at all
  (`FormSchema.DispatchedRawIsNotKept`, `FormSchema.DispatchedRawIsRefused`), and a non-finite number is written as
  `null` (`FormSchema.NaNDefaultIsLost`). All other definitions of a built form survive
  (`FormSchema.BuiltFormRoundTrip`); outside the builder the type marker must in addition be the right one
  (`FormSchema.DefinitionRoundTrip`).
- The untagged response type says that its final task variants, tried before the legacy ones, take every genuine final
  payload. They take none: an empty result, tried earlier, accepts every object, so no object comes out as a final or a
  legacy task response (`Responses.ObjectsStopAtTheFirstEmptyResult`). A written final response comes out as an
  input-required result, or, exactly when an outstanding request of it cannot be read back, as an empty one
  (`Responses.FinalResponsesAreMisread`; `Responses.WorkingTaskIsMisread` and `Responses.RefusedFormIsMisread` are
  concrete payloads). Among the three final variants alone the order does tell them apart, exactly when the outstanding
  requests can be read back (`FinalTasks.FirstMatchRecovers`, `InputRequests.RawFieldLosesTheTask`).
- The legacy task reader would take a final `tasks/get` result except a completed one whose result is no tool result
  (`FinalTasks.LegacyReaderTakesGet`, `FinalTasks.EmptyResultIsNoLegacyTask`).
- A stamped `resultType` reads back as what was stamped unless an extension value spells a defined one
  (`ResultTypes.StampReadsBack`, `ResultTypes.NonCanonicalStampIsLost`).
- With a window of zero the pump reads with nothing in flight (`Pump.WindowNeverEmptyNorExceeded`,
  `Pump.ZeroWindowStartsWithARead`, `Pump.ZeroWindowReadsTooEarly`).
- The replay summary counts one event per chunk of the stream. It is the number of ids above the last one received among
  the first ten seen exactly when no chunk brings such an id before another new one (`Sse.CountIsExact`,
  `Sse.TwoReplaysInOneChunk`).

Where the code and its own comments differ, the model follows the code. The replay parser's comment says an event is a
replay when its id is at most the last one sent; the code tests for a greater id. `ttlMs` is documented as required, but
a missing one is read as unlimited (`FinalTasks.MissingTtlIsAccepted`, and exactly `FinalTasks.MissingTtlIsUnlimited`).
`_meta` keys are documented as tolerated on the way in; the compatibility task-creation result refuses a misnamed key at
its top level (`CompatTasks.MisnamedTopLevelKeyIsRefused`, and exactly `CompatTasks.TopLevelMetaIsStrict`).

## Model

| member | source | states |
|---|---|---|
| Float64.FromNatIsNearestEven | crates/tower-mcp-types/src/protocol.rs:699 | converting an integer of more than 53 bits to `f64` is off by at most half a unit in the last place, and at exactly half the result is the even multiple (IEEE 754-2019 section 4.3.1) |
| Float64.FromNatMonotone | crates/tower-mcp-types/src/protocol.rs:699 | rounding to `f64` never reverses the order of two integers |
| Float64.FromNatExact | crates/tower-mcp-types/src/protocol.rs:708-709 | integers up to 2^53 convert exactly |
| Float64.FromIntStandsFor | crates/tower-mcp-types/src/protocol.rs:699 | an integer of either sign converts to the float that stands for it: exactly up to 2^53, beyond it to the nearest even with its sign |
| RequestIds.FloatIdExact | crates/tower-mcp-types/src/protocol.rs:706-711 | a float is the id n exactly when it denotes the integer n and n is at most 2^53 in magnitude |
| RequestIds.IdsReadExactly | crates/tower-mcp-types/src/protocol.rs:694-754 | either reader takes exactly the wire forms of an id: a string, an i64 integer, or a float that is that integer and at most 2^53 |
| RequestIds.ReadersAgree | crates/tower-mcp-types/src/protocol.rs:694-754 | both readers accept the same JSON values and read the same id, including u64 values that only one of them rounds through a float |
| RequestIds.WrittenIdReadsBack | crates/tower-mcp-types/src/protocol.rs:676-685 | either reader inverts the writer |
| RequestIds.EchoIsCanonical | crates/tower-mcp-types/src/protocol.rs:668-674 | an id read in any form is echoed as a string or an integer, never a float, and means the same id |
| RequestIds.FloatIdsInjective | crates/tower-mcp-types/src/protocol.rs:706-711 | different floats, zeros apart, never collide as ids |
| RequestIds.EveryExactIntegerHasAFloatForm | crates/tower-mcp-types/src/protocol.rs:668-674 | every integer up to 2^53 in magnitude has a float form that is read as it |
| JsonRpc.ErrorRoundTrip | crates/tower-mcp-types/src/error.rs:173-183 | a written error reads back unless its data is an explicit null, and then only the data is lost |
| JsonRpc.ErrorReadsExactly | crates/tower-mcp-types/src/error.rs:173-183 | a value decodes to an error exactly when it holds its members, as an object or as the array of the three |
| JsonRpc.ErrorOnTheWire | crates/tower-mcp-types/src/error.rs:173-183 | an error writes its members and no other, null data as null |
| JsonRpc.NullErrorDataIsLost | crates/tower-mcp-types/src/error.rs:173-183 | a concrete error that does not survive |
| JsonRpc.ReadErrorSurvives | crates/tower-mcp-types/src/error.rs:173-183 | an error that was read is written and read again as the same |
| Inspection.EnvelopeInspectionIsExact | crates/tower-mcp-types/src/inspection.rs:396-450 | inspection returns an envelope exactly when the object is a wire form of it under JSON-RPC 2.0 sections 4, 4.1, 5 and 5.1 |
| Inspection.PreChecksMakeDecodeTotal | crates/tower-mcp-types/src/inspection.rs:421-443 | after the field checks, decoding a request, notification or success cannot fail, and an error response fails only with its error object |
| Inspection.OnlyErrorObjectsFailToDecode | crates/tower-mcp-types/src/inspection.rs:547-566 | the decode-failure report without a field never occurs; the one with a field means a malformed error object |
| Inspection.EnvelopeErrorIsFirstProblem | crates/tower-mcp-types/src/inspection.rs:396-541 | every refusal names the first problem in a fixed order, with its kind and field |
| Inspection.InspectInvertsEncode | crates/tower-mcp-types/src/inspection.rs:396-450 | a message's own serialization is inspected back unchanged exactly when the message conforms |
| Inspection.InspectBatch | crates/tower-mcp-types/src/inspection.rs:349-394 | a batch succeeds exactly when it is non-empty and every member is valid and on the side of the first, member by member; otherwise the least refused member is reported |
| Inspection.Inspect | crates/tower-mcp-types/src/inspection.rs:212-222 | a payload is classified by its JSON kind, every message of an accepted batch is represented by its member and on the recorded side, and a refused batch reports its least refused member |
| Inspection.StrictIsLenientOnStrictShape | crates/tower-mcp-types/src/protocol.rs:392-428 | the strict reader is the lenient response reader restricted to version 2.0, no `method`, and not both members: same objects, variant and content |
| Inspection.LenientReaderIsExact | crates/tower-mcp-types/src/protocol.rs:392-428 | the lenient reader returns a response exactly when the object holds its members and the other one of result and error is absent or null |
| Inspection.LenientReaderRefusals | crates/tower-mcp-types/src/protocol.rs:403-427 | two members that are not null are refused, and so is neither |
| Inspection.NullErrorBesideResult | crates/tower-mcp-types/src/protocol.rs:403-412 | a concrete result beside a null error, which the lenient reader takes and the inspector refuses |
| Inspection.LenientReaderAcceptsMore | crates/tower-mcp-types/src/protocol.rs:403-412 | a null result beside an error is dropped by the lenient reader and refused by the strict one |
| WireAssertions.CallReadersAgree | crates/tower-mcp-types/src/testing.rs:102-148 | the request and notification helpers differ from the inspector only on float ids, oversized ids and the call shape |
| WireAssertions.ResponseReadersAgree | crates/tower-mcp-types/src/testing.rs:32-100 | the response helpers differ from the inspector only on float and oversized ids, missing ids, empty messages, large codes and `method` |
| WireAssertions.CallHelpersReadTheCore | crates/tower-mcp-types/src/testing.rs:106-135 | for any object, a call helper takes it exactly when the inspector takes its version, id and method alone, up to the same differences |
| WireAssertions.ResultHelperReadsTheCore | crates/tower-mcp-types/src/testing.rs:87-100 | for any object, the result helper takes it exactly when the inspector takes its version, id and result alone, up to the same differences |
| WireAssertions.ErrorHelperReadsTheCore | crates/tower-mcp-types/src/testing.rs:52-80 | the same for the error helper and the error |
| WireAssertions.EitherResponse | crates/tower-mcp-types/src/testing.rs:32-44 | the helper for either flavour wants exactly one of the two members |
| Utf8.BoundaryIsSplit | crates/tower-mcp/src/ascii.rs:25-27 | the byte test for a character boundary finds exactly the cuts that leave valid UTF-8 on both sides (RFC 3629 section 4) |
| Utf8.ValidIsEncoded | crates/tower-mcp/src/ascii.rs:24 | and every valid byte sequence is the encoding of a string, so the grammar is exact |
| Utf8.EncodeValid | crates/tower-mcp/src/ascii.rs:24 | the bytes of any string are valid UTF-8 |
| AsciiPrefix.StripIsExact | crates/tower-mcp/src/ascii.rs:24-30 | the rest is returned exactly when the first bytes equal the prefix up to ASCII case; the cut is at a boundary and the rest is valid |
| AsciiPrefix.StripConcat | crates/tower-mcp/src/ascii.rs:24-30 | stripping a concatenation is stripping its parts in turn |
| AsciiPrefix.StripFoldsPrefix | crates/tower-mcp/src/ascii.rs:13-18 | the spelling of the prefix never matters up to ASCII case |
| AsciiPrefix.CaseFolding | crates/tower-mcp/src/ascii.rs:26 | bytes are equal up to case exactly when they are the same or the two cases of one ASCII letter |
| MetaKeys.RecogniserIsGrammar | crates/tower-mcp-types/src/protocol.rs:74-108 | a key is accepted exactly when its parts follow the grammar, the parts rejoin to the key, and the error says which part is wrong |
| MetaKeys.RenderedKeyIsAccepted | crates/tower-mcp-types/src/protocol.rs:51-58 | any well-formed labels and name join to an accepted key that splits back into them |
| MetaKeys.AcceptedKeyShape | crates/tower-mcp-types/src/protocol.rs:110-121 | accepted keys are ASCII with at most one slash, and extension identifiers are those with exactly one |
| MetaKeys.FirstMisnamedKeyIsReported | crates/tower-mcp-types/src/protocol.rs:123-129 | the first misnamed key of an object is the one reported |
| MetaKeys.MetaMap.Retain | crates/tower-mcp-types/src/protocol.rs:199-201 | the map is left with its conforming entries, in order |
| MetaKeys.DeserializeMeta | crates/tower-mcp-types/src/protocol.rs:181-217 | reading `_meta`: null is absent, an object is filtered, anything else is refused |
| MetaKeys.ConformingSpec | crates/tower-mcp-types/src/protocol.rs:188-201 | exactly the conforming keys survive with their values, and everything survives when all conform |
| MetaKeys.ConformingConcat | crates/tower-mcp-types/src/protocol.rs:199-201 | filtering goes entry by entry and keeps the order |
| MetaKeys.TolerantInStrictOut | crates/tower-mcp-types/src/protocol.rs:164-218 | decoding any object succeeds and always re-encodes; decoding again changes nothing; encoding fails exactly when some key does not conform |
| MetaKeys.EncodedMetaReadsBack | crates/tower-mcp-types/src/protocol.rs:169-179 | what encodes is absent or a conforming object, and is read back unchanged |
| MetaKeys.ReadMetaConforms | crates/tower-mcp-types/src/protocol.rs:164-218 | what the tolerant reader of any struct lets through is what the strict writer takes |
| MetaKeys.MetaReadsExactly | crates/tower-mcp-types/src/protocol.rs:181-217 | a `_meta` field is absent, null, or an object of which the conforming entries count, and nothing else reads |
| MetaKeys.TypedMetaReadsExactly | crates/tower-mcp-types/src/protocol.rs:181-217 | at any type, the conforming entries alone are what the type reads |
| MetaKeys.TypedMetaReadsBack | crates/tower-mcp-types/src/protocol.rs:164-218 | at any type, written metadata is read back exactly when the type reads back its own writing: the filter never touches it |
| ResultTypes.ResultCell.StampInto | crates/tower-mcp-types/src/protocol.rs:5783-5798 | the stamp is written exactly on unstamped objects of the 2026-07-28 version, and nothing else changes |
| ResultTypes.StampReadsBack | crates/tower-mcp-types/src/protocol.rs:5764-5798 | a stamp reads back as the stamped type exactly when that type is canonical, leaves other keys alone, and is final |
| ResultTypes.DiscriminatorRule | crates/tower-mcp-types/src/protocol.rs:5761-5769 | anything but a string reads as complete, and a string as the type it spells |
| ResultTypes.NonCanonicalStampIsLost | crates/tower-mcp-types/src/protocol.rs:5783-5798 | a concrete stamp that reads back as another type |
| ResultTypes.CompleteStampIsInvisible | crates/tower-mcp-types/src/protocol.rs:5761-5769 | stamping `complete` never changes what a reader of the discriminator sees |
| ToolResults.ResultEncodes | crates/tower-mcp-types/src/protocol.rs:2893-2919 | a tool result is refused exactly when some metadata in it, its own, an item's or an embedded resource's, does not conform |
| ToolResults.ResultRoundTrip | crates/tower-mcp-types/src/protocol.rs:2893-3400 | a written tool result always reads back, and as itself exactly when every priority is finite, over all five kinds of content |
| ToolResults.ContentRoundTrip | crates/tower-mcp-types/src/protocol.rs:3280-3487 | a content item of any kind reads back as itself but for a non-finite priority |
| ToolResults.ReadResultSurvives | crates/tower-mcp-types/src/protocol.rs:2893-3400 | a tool result read from any value is written and read again as the same, whatever was dropped on the way in |
| ToolResults.ResultsAccepted | crates/tower-mcp-types/src/protocol.rs:2893-3487 | a value is accepted as a tool result exactly when each known field, of the result and of everything in it, is of its kind |
| ToolResults.ResultsReadExactly | crates/tower-mcp-types/src/protocol.rs:2893-3487 | an accepted tool result is read field by field; a priority written as an integer is the float that stands for it |
| ToolResults.ResultOnTheWire | crates/tower-mcp-types/src/protocol.rs:2893-2919 | each field is written only when set, and no error as no field |
| ToolResults.ContentWritesNoNull | crates/tower-mcp-types/src/protocol.rs:3282-3400 | an item writes no field as null, nor do its resource and its annotations |
| CompatTasks.TaskEncodes | crates/tower-mcp-types/src/protocol.rs:4561-4597 | a task is refused exactly when some metadata in it, its result included, does not conform |
| CompatTasks.TaskRoundTrip | crates/tower-mcp-types/src/protocol.rs:4561-4597 | an encodable task reads back, unchanged exactly unless its error has explicit null data or its result a non-finite priority |
| CompatTasks.ReadTaskSurvives | crates/tower-mcp-types/src/protocol.rs:4561-4597 | a task read from any object is written and read again as the same |
| CompatTasks.TasksReadExactly | crates/tower-mcp-types/src/protocol.rs:4561-4597 | an object decodes to a task exactly when it holds its ten fields, status by name |
| CompatTasks.TaskOnTheWire | crates/tower-mcp-types/src/protocol.rs:4561-4597 | a task writes its ten fields and no other, a missing time-to-live as null and any other missing field not at all |
| CompatTasks.Serialize | crates/tower-mcp-types/src/protocol.rs:4643-4670 | serialization fails exactly on non-conforming metadata, the result's own or any inside the task, and otherwise yields the flat fields, the discriminator, the nested mirror and the right metadata |
| CompatTasks.MisnamedResultMetaIsRefused | crates/tower-mcp-types/src/protocol.rs:2912-2919 | a concrete task refused for metadata inside its tool result |
| CompatTasks.NaNPriorityIsLost | crates/tower-mcp-types/src/protocol.rs:3396 | a concrete task that comes back without a priority |
| CompatTasks.CreateRoundTrip | crates/tower-mcp-types/src/protocol.rs:4643-4700 | decoding an encoded result gives the same task, with the result's metadata or else the task's; unchanged exactly when the task loses nothing and the metadata was its own or absent from both |
| CompatTasks.ReadCreateSurvives | crates/tower-mcp-types/src/protocol.rs:4643-4700 | a task-creation result read in either layout can be written and reads again as the same, but for taking over metadata that only its task has |
| CompatTasks.NestedAndFlatAgree | crates/tower-mcp-types/src/protocol.rs:4677-4698 | a nested-only and a flat-only rendering of one task with valid metadata decode to the same task |
| CompatTasks.NestedIsMoreTolerant | crates/tower-mcp-types/src/protocol.rs:4677-4698 | for any object, nested and flat give the same task, and only the flat layout refuses non-conforming metadata |
| CompatTasks.TopLevelMetaIsStrict | crates/tower-mcp-types/src/protocol.rs:4681-4698 | an object decodes exactly when its top-level metadata is absent, null or conforming and the nested task, or else the flat one, decodes |
| CompatTasks.MisnamedTopLevelKeyIsRefused | crates/tower-mcp-types/src/protocol.rs:4681-4684 | one misnamed key refuses the whole result at the top level and is dropped elsewhere |
| FinalTasks.MissingTtlIsUnlimited | crates/tower-mcp-types/src/tasks.rs:46-50 | metadata without `ttlMs` decodes exactly when its other fields do, and the time-to-live is unlimited exactly when it is missing or null |
| FinalTasks.MissingTtlIsAccepted | crates/tower-mcp-types/src/tasks.rs:46-50 | a concrete task state without `ttlMs` that is accepted |
| FinalTasks.DecodedRequestsAreSorted | crates/tower-mcp-types/src/protocol.rs:5891 | whatever the order of the document, the decoded requests are a sorted map |
| FinalTasks.DetailedRoundTrip | crates/tower-mcp-types/src/tasks.rs:103-146 | a written task decodes exactly when its outstanding requests do, and to itself exactly when in addition they survive and it did not fail with explicit null data |
| FinalTasks.FailedTaskLosesNullData | crates/tower-mcp-types/src/tasks.rs:132-139 | a concrete failed task that does not survive |
| FinalTasks.GetRoundTrip | crates/tower-mcp-types/src/tasks.rs:262-277 | the same law for `tasks/get` results |
| FinalTasks.NotificationRoundTrip | crates/tower-mcp-types/src/tasks.rs:371-380 | the same law for status notifications |
| FinalTasks.ReadGetSurvives | crates/tower-mcp-types/src/tasks.rs:262-277 | a get result read from any object is written and read again as the same, if requests are |
| FinalTasks.ReadNotificationSurvives | crates/tower-mcp-types/src/tasks.rs:371-380 | the same for status notifications |
| FinalTasks.DetailedReadsExactly | crates/tower-mcp-types/src/tasks.rs:103-146 | an object decodes to a task exactly when it has a known status, the metadata, and the payload that the status requires |
| FinalTasks.GetReadsExactly | crates/tower-mcp-types/src/tasks.rs:262-277 | and to a get result exactly with the discriminator `complete` and object metadata |
| FinalTasks.CreateReadsExactly | crates/tower-mcp-types/src/tasks.rs:229-244 | to a creation result exactly with the discriminator `task` |
| FinalTasks.AckReadsExactly | crates/tower-mcp-types/src/tasks.rs:295-308 | to an acknowledgement exactly with the discriminator `complete` |
| FinalTasks.NotificationReadsExactly | crates/tower-mcp-types/src/tasks.rs:371-380 | to a notification exactly as to its task, with object metadata |
| FinalTasks.RequestsReadExactly | crates/tower-mcp-types/src/protocol.rs:5891 | from distinct identifiers each request is what its own value reads as, and one refusal refuses all |
| FinalTasks.GetOnTheWire | crates/tower-mcp-types/src/tasks.rs:262-277 | a get result writes its discriminator, status and metadata and no other field but its payload, the time-to-live always |
| FinalTasks.CreateOnTheWire | crates/tower-mcp-types/src/tasks.rs:229-244 | the same for a creation result, without payload |
| FinalTasks.NotificationOnTheWire | crates/tower-mcp-types/src/tasks.rs:371-380 | the same for a notification, without discriminator |
| FinalTasks.AckOnTheWire | crates/tower-mcp-types/src/tasks.rs:295-308 | an acknowledgement writes its discriminator and its metadata alone |
| FinalTasks.CreateRoundTrip | crates/tower-mcp-types/src/tasks.rs:229-244 | a creation result reads back unchanged |
| FinalTasks.PayloadMatchesStatus | crates/tower-mcp-types/src/tasks.rs:97-102 | each status-specific key is on the wire exactly for its status |
| FinalTasks.Discriminated | crates/tower-mcp-types/src/tasks.rs:382-406 | no object decodes as a creation result and as a get result or acknowledgement; every get result also decodes as an acknowledgement |
| FinalTasks.FirstMatchRecovers | crates/tower-mcp-types/src/protocol.rs:1065-1077 | a reader that tries creation, get and acknowledgement alone, in that order, recovers the variant that was written exactly when its outstanding requests can be read back, and otherwise yields the acknowledgement; the content is unchanged exactly when nothing is lost |
| Responses.InputRequiredAccepts | crates/tower-mcp-types/src/protocol.rs:5903-5931 | an object is taken for an input-required result exactly when none of its four known fields is of the wrong kind |
| Responses.InputRequiredReadsExactly | crates/tower-mcp-types/src/protocol.rs:5903-5931 | an object is an input-required result of given fields exactly, by default without a discriminator |
| Responses.InputRequiredOnTheWire | crates/tower-mcp-types/src/protocol.rs:5903-5931 | it writes its discriminator always, and of the other fields those it has |
| Responses.InputRequiredIsRecovered | crates/tower-mcp-types/src/protocol.rs:5903-5931 | a written input-required result comes out as that variant exactly when its requests can be read back, and unchanged exactly when they survive and its discriminator is canonical |
| Responses.ToolResultsAreRecovered | crates/tower-mcp-types/src/protocol.rs:1034-1040 | a written tool result comes out of the untagged response type as one |
| Responses.ObjectsStopAtTheFirstEmptyResult | crates/tower-mcp-types/src/protocol.rs:1034-1104 | whatever the other readers do, no object comes out as anything declared after the first empty result, so never as a final or legacy task response |
| Responses.FirstClaimWins | crates/tower-mcp-types/src/protocol.rs:1034-1104 | an object comes out as exactly the first of the eight early variants that claims it |
| Responses.OtherValuesAreRaw | crates/tower-mcp-types/src/protocol.rs:1110-1111 | a value that is no object, and that no other reader takes, is kept raw |
| Responses.PlainObjects | crates/tower-mcp-types/src/protocol.rs:1034-1051 | an object without the fields that the earlier variants require comes out as an input-required result when it is taken for one, else as an empty one |
| Responses.FinalResponsesAreMisread | crates/tower-mcp-types/src/protocol.rs:1034-1077 | every written final response comes out as an input-required result, or as an empty one exactly when an outstanding request cannot be read back |
| Responses.WorkingTaskIsMisread | crates/tower-mcp-types/src/protocol.rs:1058-1070 | a concrete get result that comes out as an input-required result |
| Responses.RefusedFormIsMisread | crates/tower-mcp-types/src/protocol.rs:1058-1070 | a concrete get result that comes out as an empty result |
| FinalTasks.LegacyReaderTakesGet | crates/tower-mcp-types/src/protocol.rs:1058-1064 | the legacy task reader takes a final get result, losing its time-to-live, exactly unless it is completed with something that is no tool result |
| FinalTasks.EmptyResultIsNoLegacyTask | crates/tower-mcp-types/src/protocol.rs:4575-4579 | a concrete final get result that the legacy reader refuses |
| InputRequests.FormElicitReadsBack | crates/tower-mcp-types/src/protocol.rs:4856-4935 | a form elicitation is never taken for a URL one, decodes exactly when its properties and metadata do, and is unchanged exactly when they are |
| InputRequests.UrlElicitReadsBack | crates/tower-mcp-types/src/protocol.rs:4896-4935 | a URL elicitation is never taken for a form one |
| InputRequests.RequestRoundTrip | crates/tower-mcp-types/src/protocol.rs:5849-5860 | for each kind of request, when its encoding is accepted and when it comes back unchanged |
| InputRequests.RequestReadsExactly | crates/tower-mcp-types/src/protocol.rs:5849-5860 | a value decodes to a request exactly when it names its method and its parameters are a wire form of it |
| InputRequests.ElicitReadsExactly | crates/tower-mcp-types/src/protocol.rs:4929-4935 | an elicitation is a form whenever it can be read as one, whatever its mode says, and else by URL |
| InputRequests.RequestOnTheWire | crates/tower-mcp-types/src/protocol.rs:5849-5860 | a request writes its method and its parameters and nothing else |
| InputRequests.ElicitOnTheWire | crates/tower-mcp-types/src/protocol.rs:4856-4925 | parameters of an elicitation write what they hold, and leave out a mode or metadata they lack |
| InputRequests.TaskRequestsRoundTrip | crates/tower-mcp-types/src/tasks.rs:103-146 | a get result waiting for such requests decodes exactly when each is readable, and to itself exactly when each survives |
| InputRequests.WaitingForFormRoundTrip | crates/tower-mcp-types/src/protocol.rs:5004-5317 | the same stated on the builder calls of the form: no refused raw field, no raw field of a dispatched type and no non-finite default, among the last calls of their names |
| InputRequests.RawKeywordIsLost | crates/tower-mcp-types/src/protocol.rs:5239-5249 | a concrete waiting task that comes back with another form |
| InputRequests.RawFieldLosesTheTask | crates/tower-mcp-types/src/protocol.rs:5239-5249 | a concrete waiting task that, of the three final variants tried alone, only the acknowledgement takes |
| InputRequests.ReadRequestSurvives | crates/tower-mcp-types/src/protocol.rs:5849-5860 | a request read from any value survives its own codec, if sampling parameters and request metadata do |
| InputRequests.ReadWaitingTaskSurvives | crates/tower-mcp-types/src/tasks.rs:262-277 | so a waiting task read from any object is written and read again as the same |
| FormSchema.DispatchIsByType | crates/tower-mcp-types/src/protocol.rs:5279-5317 | a decoded definition has the kind its `type` calls for |
| FormSchema.AcceptedSchemas | crates/tower-mcp-types/src/protocol.rs:5279-5317 | a schema is accepted exactly when every keyword its type knows is absent, null where optional, or of its kind; a schema of any other type always is |
| FormSchema.KeywordsReadExactly | crates/tower-mcp-types/src/protocol.rs:5279-5520 | an accepted schema is read keyword by keyword as its own type; a number written as an integer is the float that stands for it |
| FormSchema.NegativeMinimum | crates/tower-mcp-types/src/protocol.rs:5386-5394 | a concrete negative integer minimum, read as that negative float |
| FormSchema.ReadDefinitionIsFaithful | crates/tower-mcp-types/src/protocol.rs:5279-5317 | whatever is accepted survives from then on |
| FormSchema.DefinitionRoundTrip | crates/tower-mcp-types/src/protocol.rs:5258-5317 | a definition decodes from its own encoding exactly when it is faithful: right type marker, finite numbers, raw only outside the dispatched types |
| FormSchema.DispatchedRawIsNotKept | crates/tower-mcp-types/src/protocol.rs:5239-5249 | a concrete raw field that comes back typed and without its extra keyword |
| FormSchema.DispatchedRawIsRefused | crates/tower-mcp-types/src/protocol.rs:5239-5249 | a concrete raw field that its own type's reader refuses |
| FormSchema.NaNDefaultIsLost | crates/tower-mcp-types/src/protocol.rs:5126-5145 | a concrete number field that comes back without its default |
| FormSchema.PropertiesRoundTrip | crates/tower-mcp-types/src/protocol.rs:4991-4998 | properties with distinct names keep their order through the wire, exactly when each is faithful |
| FormSchema.PropertiesReadInOrder | crates/tower-mcp-types/src/protocol.rs:4991-4998 | properties with distinct names are read one by one, in order, and accepted exactly when each is |
| FormSchema.FormRoundTrip | crates/tower-mcp-types/src/protocol.rs:4986-5002 | the form decodes from its own encoding exactly when every property is faithful |
| FormSchema.FormReadsExactly | crates/tower-mcp-types/src/protocol.rs:4986-5002 | a form is its marker, its properties and its required names, of which there may be no list |
| FormSchema.FormOnTheWire | crates/tower-mcp-types/src/protocol.rs:4986-5002 | a form writes a list of required names only when there are any, and no other field |
| FormSchema.ReadFormSurvives | crates/tower-mcp-types/src/protocol.rs:4986-5002 | a form read from any document is written and read again as the same |
| FormSchema.FormBuilder.Add | crates/tower-mcp-types/src/protocol.rs:5014-5249 | one builder call inserts or replaces one property and appends a required name |
| FormSchema.FormBuilder.AddAll | crates/tower-mcp-types/src/protocol.rs:5004-5250 | a chain of calls is the fold of the calls |
| FormSchema.BuiltOrder | crates/tower-mcp-types/src/protocol.rs:4991-4998 | property order is the order of first declaration, without duplicates |
| FormSchema.BuiltLastWins | crates/tower-mcp-types/src/protocol.rs:5014-5249 | a property is the last definition declared under its name |
| FormSchema.RequiredAreDeclared | crates/tower-mcp-types/src/protocol.rs:4999-5001 | a name is required exactly when some call required it, and is then declared |
| FormSchema.RequiredInCallOrder | crates/tower-mcp-types/src/protocol.rs:5029-5031 | required names are listed in call order |
| FormSchema.DeclaredIsFaithful | crates/tower-mcp-types/src/protocol.rs:5014-5249 | the builder declares faithful definitions except raw fields of dispatched types and non-finite number defaults |
| FormSchema.DeclaredOnTheWire | crates/tower-mcp-types/src/protocol.rs:5014-5249 | each builder call declares the type of its name with the description, default and options it was given; a raw field declares its schema |
| FormSchema.NothingElseDeclared | crates/tower-mcp-types/src/protocol.rs:5014-5249 | and nothing else |
| FormSchema.BuiltFormRoundTrip | crates/tower-mcp-types/src/protocol.rs:5004-5317 | a built form survives the wire, in order, exactly when no call that is the last of its name is a raw field of a dispatched type or has a non-finite default |
| FormSchema.BuiltFormDecodes | crates/tower-mcp-types/src/protocol.rs:5004-5317 | a built form is accepted exactly when the keywords of each raw field that is the last of its name fit its type |
| Sse.ParseSseEvents | examples/http_sse_client.rs:321-376 | the loop computes the last event id of the lines |
| Sse.BlockThenBlank | examples/http_sse_client.rs:330-373 | for any lines between blank lines, well formed or not, the last id becomes that of the last id line, if it is a u64 and there is data |
| Sse.ParsingIsCompositional | examples/http_sse_client.rs:321-376 | after a text that ends at a blank line, the id is the second text's if it has one, else the first's |
| Sse.RenderedEventsParse | examples/http_sse_client.rs:321-376 | for any rendered events, the id of the last one that has both an id and data is returned, through line splitting, trimming and decimal parsing |
| Sse.RenderedEventsIds | examples/http_sse_client.rs:286-314 | replay detection reads the id of every rendered event that has one, data or not |
| Sse.BlockIds | examples/http_sse_client.rs:286-314 | for any such lines replay detection reads the same pending id, data or not |
| Sse.ReplayTracker.Parse | examples/http_sse_client.rs:277-317 | a call appends the ids it completes that were not seen, and reports exactly when that grew the list: the last appended id, and whether it is above the last sent id and among the first ten |
| Sse.ReplayTracker.Watch | examples/http_sse_client.rs:234-266 | over any chunks the seen ids are each arrived id once in order, and the count is that of the counted ids |
| Sse.SeenOverARun | examples/http_sse_client.rs:286-291 | seen ids are duplicate-free, exactly the ids that arrived, and only grow |
| Sse.CountedOverARun | examples/http_sse_client.rs:245-250 | counted replays are distinct seen ids above the last event id, and at most ten |
| Sse.CountIsExact | examples/http_sse_client.rs:245-272 | the count is at most the number of ids above the last one received among the first ten seen, and exactly that number when, and only when, no chunk brings such an id before another new one |
| Sse.TwoReplaysInOneChunk | examples/http_sse_client.rs:245-250 | a concrete chunk with two replayed events that is counted once |
| Text.LinesConcat | examples/http_sse_client.rs:327 | cutting a text at a line end leaves its lines alone |
| Text.ParseU64Inverts | examples/http_sse_client.rs:361 | parsing inverts decimal rendering over all of u64 |
| Text.ParseU64Exactly | examples/http_sse_client.rs:361 | a text is a u64 exactly when it is a decimal of 64 bits, with zeros and one plus sign allowed before it |
| Text.TrimSpec | examples/http_sse_client.rs:361 | trimming takes all whitespace off both ends and nothing else |
| Pump.Server.Drive | examples/stdio_pipe_bench.rs:166-183 | every step of a finished or broken run obeys the window, at a write and at a read; without a broken pipe, all calls are written and that many lines are read, and with a window of zero a read comes first |
| Pump.WindowedAt | examples/stdio_pipe_bench.rs:169-181 | before the k-th read exactly min(concurrency, total - k) calls are in flight |
| Pump.WindowNeverExceeded | examples/stdio_pipe_bench.rs:165-183 | at no moment of a run, finished or broken, are more calls in flight than the window |
| Pump.WindowNeverEmptyNorExceeded | examples/stdio_pipe_bench.rs:165 | a read finds something in flight exactly when the window is positive, and never more than the window |
| Pump.ZeroWindowStartsWithARead | examples/stdio_pipe_bench.rs:166-183 | every run of window zero that does anything reads before any call is written |
| Pump.ZeroWindowReadsTooEarly | examples/stdio_pipe_bench.rs:166-183 | a concrete run of window zero that reads before anything is sent |
| Pump.SentIdsAreConsecutive | examples/stdio_pipe_bench.rs:169-180 | the ids written are 1, 2, ... in order, each once, at most total |
| Pump.EveryCallAnswered | examples/stdio_pipe_bench.rs:165-183 | whatever order the server answers in, a finished run has answered exactly the ids 1 to total |
| Attributes.ParseTool | crates/tower-mcp-macros/src/lib.rs:104-132 | the loop accepts what the pair parse does, consumes every token, and puts the last value of each name, or none, in its own field |
| Attributes.ParseResource | crates/tower-mcp-macros/src/lib.rs:225-268 | the same for resources and their five names |
| Attributes.ParseArg | crates/tower-mcp-macros/src/lib.rs:164-178 | one argument is read as its rendering says: an optional mark, a name and a description; the first missing token is the error |
| Attributes.ParseArgGroup | crates/tower-mcp-macros/src/lib.rs:163-183 | the inner loop appends the arguments of one group |
| Attributes.ParsePrompt | crates/tower-mcp-macros/src/lib.rs:150-211 | the loop accepts what the item parse does; groups accumulate, and each name's last value, or none, is in its own field |
| Attributes.PairsParseExactly | crates/tower-mcp-macros/src/lib.rs:109-128 | parsing succeeds with a list exactly on its renderings, with or without a trailing comma |
| Attributes.FirstFaultIsReported | crates/tower-mcp-macros/src/lib.rs:109-128 | a list is refused for the fault of its first faulty item, in token order |
| Attributes.ItemsParseExactly | crates/tower-mcp-macros/src/lib.rs:156-203 | the same for prompt attributes, nested argument groups included |
| Attributes.ItemFaultIsReported | crates/tower-mcp-macros/src/lib.rs:156-203 | the same for prompt attributes, the fault of an argument inside its group |
| Attributes.ArgFaultIsReported | crates/tower-mcp-macros/src/lib.rs:163-183 | and for the arguments of one group |
| Attributes.LastSpec | crates/tower-mcp-macros/src/lib.rs:114-117 | a repeated attribute keeps its last value |
| Attributes.LastTextItem | crates/tower-mcp-macros/src/lib.rs:187-196 | a prompt name or description is that of its last text item, whatever groups stand between |
| Attributes.AllArgsConcat | crates/tower-mcp-macros/src/lib.rs:174-178 | repeated groups accumulate in order |
| Attributes.AllArgsOne | crates/tower-mcp-macros/src/lib.rs:174-178 | and those of one group are its own |
| Extensions.ValidateExtensions | crates/tower-mcp-types/src/protocol.rs:131-145 | a capability map passes exactly when every entry does, in any iteration order |
| Extensions.DeclarationIsExact | crates/tower-mcp/src/extension.rs:35-51 | a declaration is built exactly from a prefixed, accepted identifier and object settings, which it carries; otherwise the first fault is the error |
| Extensions.FromMaps | crates/tower-mcp/src/extension.rs:103-131 | for every iteration order the result is the same map: exactly the identifiers valid on both sides, each with the client's settings as the client's and the server's as the server's |
| Extensions.NegotiationIsSymmetric | crates/tower-mcp/src/extension.rs:87-131 | swapping the peers swaps the settings and nothing else |
| Extensions.AdvertisedIsWireValid | crates/tower-mcp/src/extension.rs:35-51 | maps built from declarations pass wire validation |
| Extensions.DeclaredNegotiationIsIntersection | crates/tower-mcp/src/extension.rs:98-131 | between declared maps the negotiated identifiers are exactly the intersection |
| Apps.OriginsAcceptedExactly | crates/tower-mcp/src/apps.rs:178-237 | for any URL parser, an origin is accepted exactly when its spelling fits and the parser reports a scheme of the directive, a host, and nothing besides; a wildcard only for resources, with a dot after it |
| Apps.AcceptedEntry | crates/tower-mcp/src/apps.rs:190-237 | an accepted origin is stored less at most one trailing slash, never ends in one, and has a wildcard only for resources |
| Apps.TrailingSlashCollapses | crates/tower-mcp/src/apps.rs:233-235 | two accepted spellings give one entry exactly when they differ by a trailing slash at most |
| Apps.ResourceCsp.Allow | crates/tower-mcp/src/apps.rs:257-295 | a call succeeds exactly when the origin fits the directive, and changes only its own list, by one new entry at most |
| Apps.ResourceCsp.AllowAll | crates/tower-mcp/src/apps.rs:257-322 | a chain of accepted calls leaves each list as the first occurrences of its entries |
| Apps.CspListShape | crates/tower-mcp/src/apps.rs:318-322 | the lists are duplicate-free, slash-free at the end, free of wildcards but for resources, and hold only what their own directive accepted |
| Apps.DomainGrammar | crates/tower-mcp/src/apps.rs:377-397 | a domain is accepted exactly when it is at most 253 characters of host-name labels |
| Apps.AcceptedDomain | crates/tower-mcp/src/apps.rs:377-397 | an accepted domain splits into at most 127 labels and rejoins to itself (RFC 1035 section 2.3.4) |
| Apps.JoinedLabelsAreADomain | crates/tower-mcp/src/apps.rs:377-397 | any fitting labels make an accepted domain that splits back into them |
| Apps.MergeUiMeta | crates/tower-mcp/src/apps.rs:598-608 | merging fails exactly on metadata that is not an object of conforming keys; otherwise only `ui` changes and the result encodes |

## Left out

- Human-readable error text, and which field a derived decoder complains about first.
- The positional (array) form that derived structs also accept, except for error objects, where it is modelled.
- Tags given as numbers or one-key objects, which serde's buffered forms also take for unit variants.
- Sampling parameters and the typed request metadata `RequestMeta`: their codecs are arbitrary functions here, and the
  laws hold for any.
- The readers of the response variants that are neither tasks, tool results, input-required nor empty results: only the
  fields that the early ones require are modelled, the rest of them is an arbitrary predicate. `ElicitFieldValue`.
- Text-level JSON parsing and duplicate keys in a document.
- `Url::parse`, which is an arbitrary function of the origin text here.
- Sockets, processes, timers, printing and tracing: the server of the pump is an arbitrary sequence of lines (an empty
  line stands for end of input) and a point where the pipe breaks; the SSE stream is an arbitrary list of text chunks,
  already decoded from bytes; the read loop that stops after three events is not modelled.
- The token syntax of Rust: keywords, non-parenthesis groups and other literals are one token kind that never matches.
- The constructors, accessors and `with_*` setters of the data types, and the error-code tables.
