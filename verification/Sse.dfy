/** The SSE client's line parser, and its replay detection over a run of chunks. */
module Sse {
  import opened Prelude
  import opened Text

  // ------------------------------------------------------------------------------------------------------------
  // Last event id of one text
  // ------------------------------------------------------------------------------------------------------------

  datatype State = State(lastId: Option<u64>, currentId: Option<u64>, currentEvent: Option<string>, currentData: seq<string>)

  const START := State(None, None, None, [])

  /** The effect of one line. */
  function Step(s: State, line: string): State {
    if line == "" then
      State(if s.currentData != [] && s.currentId.Some? then s.currentId else s.lastId, None, None, [])
    else if StripPrefix(line, "id:").Some? then
      s.(currentId := ParseU64(Trim(StripPrefix(line, "id:").value)))
    else if StripPrefix(line, "event:").Some? then
      s.(currentEvent := Some(Trim(StripPrefix(line, "event:").value)))
    else if StripPrefix(line, "data:").Some? then
      s.(currentData := s.currentData + [Trim(StripPrefix(line, "data:").value)])
    else s
  }

  function Run(s: State, lines: seq<string>): State
    decreases |lines|
  {
    if lines == [] then s else Run(Step(s, lines[0]), lines[1..])
  }

  function LastEventId(text: string): Option<u64> { Run(START, Lines(text)).lastId }

  /** `parse_sse_events`. */
  method ParseSseEvents(text: string) returns (lastId: Option<u64>)
    ensures lastId == LastEventId(text)
  {
    lastId := None;
    var currentId: Option<u64> := None;
    var currentEvent: Option<string> := None;
    var currentData: seq<string> := [];
    var lines := Lines(text);
    var i := 0;
    while i < |lines|
      invariant 0 <= i <= |lines|
      invariant Run(State(lastId, currentId, currentEvent, currentData), lines[i..]) == Run(START, lines)
    {
      var line := lines[i];
      ghost var before := State(lastId, currentId, currentEvent, currentData);
      assert lines[i..][1..] == lines[i + 1..];
      if line == "" {
        if currentData != [] {
          if currentId.Some? {
            lastId := currentId;
          }
        }
        currentId, currentEvent, currentData := None, None, [];
      } else if StripPrefix(line, "id:").Some? {
        currentId := ParseU64(Trim(StripPrefix(line, "id:").value));
      } else if StripPrefix(line, "event:").Some? {
        currentEvent := Some(Trim(StripPrefix(line, "event:").value));
      } else if StripPrefix(line, "data:").Some? {
        currentData := currentData + [Trim(StripPrefix(line, "data:").value)];
      }
      assert State(lastId, currentId, currentEvent, currentData) == Step(before, line);
      i := i + 1;
    }
  }

  /** The id carried in is kept exactly when the lines bring no other, and influences nothing else. */
  lemma {:induction false} RunFromId(s: State, lines: seq<string>)
    ensures var r := Run(s.(lastId := None), lines);
            Run(s, lines) == r.(lastId := if r.lastId.Some? then r.lastId else s.lastId)
    decreases |lines|
  {
    if lines == [] {
    } else {
      var t := Step(s, lines[0]);
      var u := Step(s.(lastId := None), lines[0]);
      RunFromId(t, lines[1..]);
      RunFromId(u, lines[1..]);
      assert t.(lastId := None) == u.(lastId := None);
    }
  }

  lemma {:induction false} RunConcat(s: State, a: seq<string>, b: seq<string>)
    ensures Run(s, a + b) == Run(Run(s, a), b)
    decreases |a|
  {
    if a == [] {
      assert a + b == b;
    } else {
      assert (a + b)[1..] == a[1..] + b;
      RunConcat(Step(s, a[0]), a[1..], b);
    }
  }

  /** The text ends just after a blank line (or is empty). */
  predicate EndsAtBlankLine(a: string) {
    a == "" || (a[|a| - 1] == '\n' && Lines(a) != [] && Lines(a)[|Lines(a)| - 1] == "")
  }

  lemma RunToBlank(s: State, lines: seq<string>)
    requires lines != [] && lines[|lines| - 1] == ""
    ensures Run(s, lines) == START.(lastId := Run(s, lines).lastId)
  {
    var n := |lines| - 1;
    assert lines == lines[..n] + [""];
    RunConcat(s, lines[..n], [""]);
  }

  /** Parsing is compositional at blank lines: the id of the second text if it has one, else that of the first. */
  lemma ParsingIsCompositional(a: string, b: string)
    requires EndsAtBlankLine(a)
    ensures LastEventId(a + b) == if LastEventId(b).Some? then LastEventId(b) else LastEventId(a)
  {
    LinesConcat(a, b);
    RunConcat(START, Lines(a), Lines(b));
    if a != "" {
      RunToBlank(START, Lines(a));
    }
    RunFromId(Run(START, Lines(a)), Lines(b));
  }

  // ------------------------------------------------------------------------------------------------------------
  // Any lines between two blank lines, well formed or not
  // ------------------------------------------------------------------------------------------------------------

  predicate IsIdLine(line: string) { "id:" <= line }
  predicate IsDataLine(line: string) { "data:" <= line }

  /** The id that a block of lines leaves pending: that of its last id line, which is none when it is no u64. */
  ghost predicate PendingIs(block: seq<string>, before: Option<u64>, after: Option<u64>) {
    || (after == before && forall i :: 0 <= i < |block| ==> !IsIdLine(block[i]))
    || exists i :: 0 <= i < |block| && IsIdLine(block[i]) && after == ParseU64(Trim(block[i][3..]))
                   && forall j :: i < j < |block| ==> !IsIdLine(block[j])
  }

  lemma {:induction false} PendingSnoc(block: seq<string>, line: string, before: Option<u64>, mid: Option<u64>)
    requires PendingIs(block, before, mid)
    ensures PendingIs(block + [line], before, if IsIdLine(line) then ParseU64(Trim(line[3..])) else mid)
  {
    var all := block + [line];
    assert all[|block|] == line && forall i :: 0 <= i < |block| ==> all[i] == block[i];
    if !IsIdLine(line) && !(forall i :: 0 <= i < |block| ==> !IsIdLine(block[i])) {
      var i :| 0 <= i < |block| && IsIdLine(block[i]) && mid == ParseU64(Trim(block[i][3..]))
               && forall j :: i < j < |block| ==> !IsIdLine(block[j]);
      assert IsIdLine(all[i]) && forall j :: i < j < |all| ==> !IsIdLine(all[j]);
    }
  }

  lemma RunOne(s: State, line: string)
    ensures Run(s, [line]) == Step(s, line)
  {
    var none: seq<string> := [];
    assert [line][1..] == none;
  }

  /** A block touches no last id; it leaves its id pending, and data exactly when it has a data line. */
  lemma {:induction false} BlockRun(s: State, block: seq<string>)
    requires forall i :: 0 <= i < |block| ==> block[i] != ""
    ensures var t := Run(s, block);
            && t.lastId == s.lastId && PendingIs(block, s.currentId, t.currentId)
            && (t.currentData != [] <==> s.currentData != [] || exists i :: 0 <= i < |block| && IsDataLine(block[i]))
  {
    if block == [] {
    } else {
      var n := |block| - 1;
      var init, line := block[..n], block[n];
      BlockRun(s, init);
      assert block == init + [line];
      RunConcat(s, init, [line]);
      var t := Run(s, init);
      RunOne(t, line);
      PendingSnoc(init, line, s.currentId, t.currentId);
      assert StripPrefix(line, "id:").Some? <==> IsIdLine(line);
      assert StripPrefix(line, "data:").Some? <==> IsDataLine(line);
      assert IsIdLine(line) ==> line[0] == 'i';
      assert IsDataLine(line) ==> line[0] == 'd';
      assert "event:" <= line ==> line[0] == 'e';
    }
  }

  /** The last id after a text is that of the last block that a blank line closes with both an id and data. */
  lemma BlockThenBlank(s: State, block: seq<string>)
    requires s.currentId == None && s.currentData == [] && forall i :: 0 <= i < |block| ==> block[i] != ""
    ensures exists id :: PendingIs(block, None, id)
                         && Run(s, block + [""]) == START.(lastId :=
                              if id.Some? && exists i :: 0 <= i < |block| && IsDataLine(block[i]) then id else s.lastId)
  {
    BlockRun(s, block);
    RunConcat(s, block, [""]);
    var t := Run(s, block);
    RunOne(t, "");
    assert PendingIs(block, None, t.currentId);
  }

  // ------------------------------------------------------------------------------------------------------------
  // Rendered events
  // ------------------------------------------------------------------------------------------------------------

  datatype Field = IdField(id: u64) | EventField(text: string) | DataField(text: string) | CommentField(text: string)
  type Event = seq<Field>

  function RenderField(f: Field): string {
    match f
    case IdField(n) => "id: " + Decimal(n)
    case EventField(t) => "event: " + t
    case DataField(t) => "data: " + t
    case CommentField(t) => ": " + t
  }

  predicate OneLine(f: Field) { f.IdField? || '\n' !in f.text }

  predicate OneLineFields(e: Event) { forall i :: 0 <= i < |e| ==> OneLine(e[i]) }

  function RenderFields(e: Event): string {
    if e == [] then "" else RenderField(e[0]) + "\n" + RenderFields(e[1..])
  }

  function RenderEvents(es: seq<Event>): string {
    if es == [] then "" else RenderFields(es[0]) + "\n" + RenderEvents(es[1..])
  }

  predicate HasData(e: Event) { exists i :: 0 <= i < |e| && e[i].DataField? }

  /** The last id field of an event. */
  function EventId(e: Event): Option<u64> {
    if e == [] then None
    else if e[|e| - 1].IdField? then Some(e[|e| - 1].id)
    else EventId(e[..|e| - 1])
  }

  /** The id of the last event that has both an id and data. */
  function LastRenderedId(es: seq<Event>): Option<u64> {
    if es == [] then None
    else
      var rest := LastRenderedId(es[1..]);
      if rest.Some? then rest
      else if HasData(es[0]) then EventId(es[0])
      else None
  }

  lemma RenderedIdStep(s: State, n: u64)
    ensures '\n' !in RenderField(IdField(n))
    ensures Step(s, StripCr(RenderField(IdField(n)))) == s.(currentId := Some(n))
  {
    var line, d := RenderField(IdField(n)), Decimal(n);
    assert d[|d| - 1] in d && line[|line| - 1] == d[|d| - 1];
    assert StripCr(line) == line;
    assert StripPrefix(line, "id:") == Some(" " + d) by { assert line[3..] == " " + d; }
    assert ParseU64(Trim(" " + d)) == Some(n) by {
      TrimDecimal(n);
      ParseU64Inverts(n);
    }
  }

  lemma RenderedFieldStep(s: State, f: Field)
    requires OneLine(f)
    ensures '\n' !in RenderField(f)
    ensures var t := Step(s, StripCr(RenderField(f)));
            && t.lastId == s.lastId
            && t.currentId == (if f.IdField? then Some(f.id) else s.currentId)
            && (t.currentData != [] <==> s.currentData != [] || f.DataField?)
  {
    var line := RenderField(f);
    match f
    case IdField(n) => RenderedIdStep(s, n);
    case EventField(t) =>
      assert |StripCr(line)| >= 6 && "event:" <= StripCr(line) && StripCr(line)[0] == 'e';
    case DataField(t) =>
      assert |StripCr(line)| >= 5 && "data:" <= StripCr(line) && StripCr(line)[0] == 'd';
    case CommentField(t) =>
      assert |StripCr(line)| >= 1 && StripCr(line)[0] == ':';
  }

  lemma FirstLine(line: string, rest: string)
    requires '\n' !in line
    ensures var lines := Lines(line + "\n" + rest);
            lines != [] && lines[0] == StripCr(line) && lines[1..] == Lines(rest)
  {
    LinesStep(line, rest);
    assert line + "\n" + rest == line + ['\n'] + rest;
  }

  lemma BlankLine(rest: string)
    ensures var lines := Lines("\n" + rest); lines != [] && lines[0] == "" && lines[1..] == Lines(rest)
  {
    FirstLine("", rest);
    assert "" + "\n" + rest == "\n" + rest;
  }

  /** The state after the rendered lines of some fields. */
  function AfterFields(s: State, e: Event): State
    decreases |e|
  {
    if e == [] then s else AfterFields(Step(s, StripCr(RenderField(e[0]))), e[1..])
  }

  lemma {:induction false} RenderedFieldsRun(s: State, e: Event, rest: string)
    requires OneLineFields(e)
    ensures Run(s, Lines(RenderFields(e) + rest)) == Run(AfterFields(s, e), Lines(rest))
    decreases |e|
  {
    if e == [] {
      assert RenderFields(e) + rest == rest;
    } else {
      var line, tail := RenderField(e[0]), RenderFields(e[1..]) + rest;
      RenderedFieldStep(s, e[0]);
      assert RenderFields(e) + rest == line + "\n" + tail;
      FirstLine(line, tail);
      RenderedFieldsRun(Step(s, StripCr(line)), e[1..], rest);
    }
  }

  lemma {:induction false} AfterFieldsSpec(s: State, e: Event)
    requires OneLineFields(e)
    ensures var t := AfterFields(s, e);
            && t.lastId == s.lastId
            && t.currentId == (if EventId(e).Some? then EventId(e) else s.currentId)
            && (t.currentData != [] <==> s.currentData != [] || HasData(e))
    decreases |e|
  {
    if e == [] {
    } else {
      RenderedFieldStep(s, e[0]);
      AfterFieldsSpec(Step(s, StripCr(RenderField(e[0]))), e[1..]);
      EventIdFront(e);
      HasDataFront(e);
    }
  }

  lemma {:induction false} EventIdFront(e: Event)
    requires e != []
    ensures EventId(e) ==
            if EventId(e[1..]).Some? then EventId(e[1..]) else if e[0].IdField? then Some(e[0].id) else None
  {
    var n := |e| - 1;
    if n == 0 || e[n].IdField? {
    } else {
      EventIdFront(e[..n]);
      assert e[1..][..n - 1] == e[..n][1..];
    }
  }

  lemma HasDataFront(e: Event)
    requires e != []
    ensures HasData(e) <==> e[0].DataField? || HasData(e[1..])
  {
    if HasData(e[1..]) {
      var i :| 0 <= i < |e[1..]| && e[1..][i].DataField?;
      assert e[i + 1].DataField?;
    }
    if HasData(e) {
      var i :| 0 <= i < |e| && e[i].DataField?;
      assert i > 0 ==> e[1..][i - 1].DataField?;
    }
  }

  /** For any list of rendered events, the parser returns the id of the last one that has an id and data. */
  lemma {:induction false} RenderedEventsParse(es: seq<Event>)
    requires forall i :: 0 <= i < |es| ==> OneLineFields(es[i])
    ensures LastEventId(RenderEvents(es)) == LastRenderedId(es)
  {
    if es == [] {
    } else {
      var rest := RenderEvents(es[1..]);
      RenderedEventsParse(es[1..]);
      assert RenderEvents(es) == RenderFields(es[0]) + ("\n" + rest);
      RenderedFieldsRun(START, es[0], "\n" + rest);
      AfterFieldsSpec(START, es[0]);
      BlankLine(rest);
      RunFromId(Step(AfterFields(START, es[0]), ""), Lines(rest));
    }
  }

  // ------------------------------------------------------------------------------------------------------------
  // Replay detection
  // ------------------------------------------------------------------------------------------------------------

  /** The ids of the events a text completes, in order, from a given pending id. */
  function EventIds(current: Option<u64>, lines: seq<string>): seq<u64>
    decreases |lines|
  {
    if lines == [] then []
    else if lines[0] == "" then (if current.Some? then [current.value] else []) + EventIds(None, lines[1..])
    else if StripPrefix(lines[0], "id:").Some? then
      EventIds(ParseU64(Trim(StripPrefix(lines[0], "id:").value)), lines[1..])
    else EventIds(current, lines[1..])
  }

  function IdsOf(text: string): seq<u64> { EventIds(None, Lines(text)) }

  /** The ids a list of rendered events carries: one for each event that has an id, with or without data. */
  function RenderedIds(es: seq<Event>): seq<u64> {
    if es == [] then []
    else (if EventId(es[0]).Some? then [EventId(es[0]).value] else []) + RenderedIds(es[1..])
  }

  lemma RenderedFieldIds(current: Option<u64>, f: Field, lines: seq<string>)
    requires OneLine(f) && lines != [] && lines[0] == StripCr(RenderField(f))
    ensures EventIds(current, lines) == EventIds(if f.IdField? then Some(f.id) else current, lines[1..])
  {
    RenderedFieldStep(START.(currentId := current), f);
    assert StripCr(RenderField(f)) != "" && (StripPrefix(StripCr(RenderField(f)), "id:").Some? <==> f.IdField?) by {
      var line := RenderField(f);
      assert line[0] != 'i' <==> !f.IdField?;
      assert StripCr(line) != "" && StripCr(line)[0] == line[0];
      if f.IdField? {
        assert |Decimal(f.id)| > 0;
        assert "id:" <= StripCr(line);
      }
    }
  }

  lemma FieldThenRest(current: Option<u64>, f: Field, tail: string)
    requires OneLine(f)
    ensures EventIds(current, Lines(RenderField(f) + "\n" + tail)) ==
            EventIds(if f.IdField? then Some(f.id) else current, Lines(tail))
  {
    var line := RenderField(f);
    assert '\n' !in line by { RenderedFieldStep(START, f); }
    FirstLine(line, tail);
    RenderedFieldIds(current, f, Lines(line + "\n" + tail));
  }

  lemma FirstField(e: Event, rest: string)
    requires e != []
    ensures RenderFields(e) + rest == RenderField(e[0]) + "\n" + (RenderFields(e[1..]) + rest)
  {}

  lemma {:induction false} RenderedFieldsIds(current: Option<u64>, e: Event, rest: string)
    requires OneLineFields(e)
    ensures EventIds(current, Lines(RenderFields(e) + rest)) ==
            EventIds(if EventId(e).Some? then EventId(e) else current, Lines(rest))
    decreases |e|
  {
    if e == [] {
      assert RenderFields(e) + rest == rest;
    } else {
      var next := if e[0].IdField? then Some(e[0].id) else current;
      FirstField(e, rest);
      FieldThenRest(current, e[0], RenderFields(e[1..]) + rest);
      RenderedFieldsIds(next, e[1..], rest);
      EventIdFront(e);
    }
  }

  /** Replay detection reads the id of every rendered event, in order. */
  lemma {:induction false} RenderedEventsIds(es: seq<Event>)
    requires forall i :: 0 <= i < |es| ==> OneLineFields(es[i])
    ensures IdsOf(RenderEvents(es)) == RenderedIds(es)
  {
    if es == [] {
    } else {
      var rest := RenderEvents(es[1..]);
      RenderedEventsIds(es[1..]);
      assert RenderEvents(es) == RenderFields(es[0]) + ("\n" + rest);
      RenderedFieldsIds(None, es[0], "\n" + rest);
      BlankLine(rest);
    }
  }

  /** In any block of lines, replay detection reads the id that the other parser leaves pending, data or not. */
  lemma {:induction false} BlockIds(current: Option<u64>, block: seq<string>, others: seq<string>)
    requires forall i :: 0 <= i < |block| ==> block[i] != ""
    ensures exists id :: PendingIs(block, current, id)
                         && EventIds(current, block + [""] + others) ==
                            (if id.Some? then [id.value] else []) + EventIds(None, others)
  {
    BlockRun(START.(currentId := current), block);
    BlockIdsFrom(START.(currentId := current), block, others);
  }

  lemma {:induction false} BlockIdsFrom(s: State, block: seq<string>, others: seq<string>)
    requires forall i :: 0 <= i < |block| ==> block[i] != ""
    ensures var id := Run(s, block).currentId;
            EventIds(s.currentId, block + [""] + others) == (if id.Some? then [id.value] else []) + EventIds(None, others)
    decreases |block|
  {
    var lines := block + [""] + others;
    if block == [] {
      assert lines[0] == "" && lines[1..] == others;
    } else {
      var t := Step(s, block[0]);
      assert lines[0] == block[0] && lines[1..] == block[1..] + [""] + others;
      BlockIdsFrom(t, block[1..], others);
      assert StripPrefix(block[0], "id:").Some? ==> block[0][0] == 'i';
    }
  }

  /** `seen` extended by the ids not yet in it. */
  function AppendNew(seen: seq<u64>, ids: seq<u64>): seq<u64>
    decreases |ids|
  {
    if ids == [] then seen
    else AppendNew(if ids[0] in seen then seen else seen + [ids[0]], ids[1..])
  }

  /** What a call reports when it took `seen` to `after`. */
  function Report(seen: seq<u64>, after: seq<u64>, lastSentId: u64): Option<(u64, bool)> {
    if |after| <= |seen| then None
    else
      var id := after[|after| - 1];
      Some((id, id > lastSentId && |after| <= 10))
  }

  class ReplayTracker {
    var seenIds: seq<u64>

    constructor ()
      ensures seenIds == []
    {
      seenIds := [];
    }

    /** `parse_sse_events_with_replay_detection`. */
    method Parse(text: string, lastSentId: u64) returns (result: Option<(u64, bool)>)
      modifies this
      ensures seenIds == AppendNew(old(seenIds), IdsOf(text))
      ensures old(seenIds) <= seenIds
      ensures result == Report(old(seenIds), seenIds, lastSentId)
      ensures result.Some? <==> seenIds != old(seenIds)
      ensures result.Some? ==>
                && seenIds != [] && result.value.0 == seenIds[|seenIds| - 1]
                && (result.value.1 <==> result.value.0 > lastSentId && |seenIds| <= 10)
    {
      result := None;
      var currentId: Option<u64> := None;
      var currentData: seq<string> := [];
      var lines := Lines(text);
      var i := 0;
      while i < |lines|
        invariant 0 <= i <= |lines|
        invariant AppendNew(seenIds, EventIds(currentId, lines[i..])) == AppendNew(old(seenIds), IdsOf(text))
        invariant old(seenIds) <= seenIds
        invariant result == Report(old(seenIds), seenIds, lastSentId)
      {
        var line := lines[i];
        assert lines[i..][1..] == lines[i + 1..];
        if line == "" {
          ghost var rest := EventIds(None, lines[i + 1..]);
          assert [] + rest == rest;
          if currentId.Some? {
            var id := currentId.value;
            assert ([id] + rest)[1..] == rest;
            if id !in seenIds {
              seenIds := seenIds + [id];
              var isReplay := id > lastSentId && |seenIds| <= 10;
              result := Some((id, isReplay));
            }
          }
          currentId, currentData := None, [];
        } else if StripPrefix(line, "id:").Some? {
          currentId := ParseU64(Trim(StripPrefix(line, "id:").value));
        } else if StripPrefix(line, "data:").Some? {
          currentData := currentData + [Trim(StripPrefix(line, "data:").value)];
        }
        i := i + 1;
      }
    }

    /** The counting loop of `reconnect_and_show_replay`, over the chunks that arrive before it stops. */
    method Watch(chunks: seq<string>, lastEventId: u64) returns (replayCount: nat)
      modifies this
      ensures seenIds == SeenAfter(chunks)
      ensures replayCount == |CountedIds(chunks, lastEventId)|
    {
      replayCount, seenIds := 0, [];
      for i := 0 to |chunks|
        invariant seenIds == SeenAfter(chunks[..i])
        invariant replayCount == |CountedIds(chunks[..i], lastEventId)|
      {
        ghost var before := seenIds;
        var report := Parse(chunks[i], lastEventId);
        assert chunks[..i + 1][..i] == chunks[..i];
        SeenStep(chunks[..i + 1]);
        if report.Some? && report.value.1 {
          replayCount := replayCount + 1;
        }
      }
      assert chunks[..|chunks|] == chunks;
    }
  }

  function AllIds(chunks: seq<string>): seq<u64> {
    if chunks == [] then [] else AllIds(chunks[..|chunks| - 1]) + IdsOf(chunks[|chunks| - 1])
  }

  /** The ids seen over a run: each id that arrived, once, in order of first arrival. */
  function SeenAfter(chunks: seq<string>): seq<u64> { FirstOccurrences(AllIds(chunks)) }

  /** What one report counts. */
  function Counted(report: Option<(u64, bool)>): seq<u64> {
    if report.Some? && report.value.1 then [report.value.0] else []
  }

  /** The ids counted as replays over a run, one per chunk at most. */
  function CountedIds(chunks: seq<string>, lastEventId: u64): seq<u64> {
    if chunks == [] then []
    else
      var init := chunks[..|chunks| - 1];
      var report := Report(SeenAfter(init), SeenAfter(chunks), lastEventId);
      CountedIds(init, lastEventId) + Counted(report)
  }

  lemma {:induction false} AppendNewIsFirstOccurrences(history: seq<u64>, ids: seq<u64>)
    ensures AppendNew(FirstOccurrences(history), ids) == FirstOccurrences(history + ids)
    ensures FirstOccurrences(history) <= FirstOccurrences(history + ids)
    decreases |ids|
  {
    if ids == [] {
      assert history + ids == history;
    } else {
      var h := history + [ids[0]];
      assert h[..|h| - 1] == history;
      assert history + ids == h + ids[1..];
      AppendNewIsFirstOccurrences(h, ids[1..]);
    }
  }

  lemma SeenStep(chunks: seq<string>)
    requires chunks != []
    ensures var init := chunks[..|chunks| - 1];
            && SeenAfter(chunks) == AppendNew(SeenAfter(init), IdsOf(chunks[|chunks| - 1]))
            && SeenAfter(init) <= SeenAfter(chunks)
  {
    AppendNewIsFirstOccurrences(AllIds(chunks[..|chunks| - 1]), IdsOf(chunks[|chunks| - 1]));
  }

  /** Over any run the seen ids only grow, never repeat, and are exactly the ids that arrived. */
  lemma SeenOverARun(chunks: seq<string>, more: seq<string>)
    ensures NoDuplicates(SeenAfter(chunks))
    ensures forall id :: id in SeenAfter(chunks) <==> id in AllIds(chunks)
    ensures SeenAfter(chunks) <= SeenAfter(chunks + more)
    decreases |more|
  {
    FirstOccurrencesIsASet(AllIds(chunks));
    if more == [] {
      assert chunks + more == chunks;
    } else {
      var n := |more| - 1;
      SeenOverARun(chunks, more[..n]);
      assert (chunks + more)[..|chunks + more| - 1] == chunks + more[..n];
      SeenStep(chunks + more);
    }
  }

  /** What one chunk counts was not seen before, is seen after, and is above the last id received. */
  lemma CountedIsNew(before: seq<u64>, after: seq<u64>, lastEventId: u64)
    requires before <= after && NoDuplicates(after)
    ensures var counted := Counted(Report(before, after, lastEventId));
            && |counted| <= |after| - |before| && (counted != [] ==> |after| <= 10)
            && forall id :: id in counted ==> id !in before && id in after && id > lastEventId
  {
    assert forall i :: 0 <= i < |before| ==> before[i] == after[i];
  }

  /** Distinct seen ids above the last one received, and no more than ten. */
  ghost predicate CountsWell(counted: seq<u64>, seen: seq<u64>, lastEventId: u64) {
    && NoDuplicates(counted) && (forall id :: id in counted ==> id in seen && id > lastEventId)
    && |counted| <= Min(10, |seen|)
  }

  lemma CountsWellStep(counted: seq<u64>, before: seq<u64>, after: seq<u64>, lastEventId: u64)
    requires before <= after && NoDuplicates(after) && CountsWell(counted, before, lastEventId)
    ensures CountsWell(counted + Counted(Report(before, after, lastEventId)), after, lastEventId)
  {
    var more := Counted(Report(before, after, lastEventId));
    CountedIsNew(before, after, lastEventId);
    assert forall id :: id in before ==> id in after;
    if more == [] {
      assert counted + more == counted;
    } else {
      assert more == [more[0]] && more[0] in more;
      assert forall i :: 0 <= i < |counted| ==> counted[i] in counted && counted[i] != more[0];
    }
  }

  /** Every counted replay is a distinct seen id above the last one received, and at most ten are ever counted. */
  lemma {:induction false} CountedOverARun(chunks: seq<string>, lastEventId: u64)
    ensures var counted := CountedIds(chunks, lastEventId);
            && NoDuplicates(counted)
            && (forall id :: id in counted ==> id in SeenAfter(chunks) && id > lastEventId)
            && |counted| <= Min(10, |SeenAfter(chunks)|)
  {
    if chunks == [] {
    } else {
      var init := chunks[..|chunks| - 1];
      CountedOverARun(init, lastEventId);
      SeenStep(chunks);
      SeenOverARun(chunks, []);
      CountsWellStep(CountedIds(init, lastEventId), SeenAfter(init), SeenAfter(chunks), lastEventId);
    }
  }

  // ------------------------------------------------------------------------------------------------------------
  // What the count leaves out
  // ------------------------------------------------------------------------------------------------------------

  /** The ids above the last one received, in order. */
  function Above(ids: seq<u64>, lastEventId: u64): seq<u64> {
    if ids == [] then []
    else Above(ids[..|ids| - 1], lastEventId) + if ids[|ids| - 1] > lastEventId then [ids[|ids| - 1]] else []
  }

  /** The ids that may be counted: the first ten seen. */
  function FirstTen(seen: seq<u64>): seq<u64> { seen[..Min(10, |seen|)] }

  /** Of what a chunk adds to the first ten seen ids, only the very last addition may be above the last id received. */
  predicate HidesNothing(before: seq<u64>, after: seq<u64>, lastEventId: u64) {
    forall p :: |before| <= p < |after| - 1 && p < 10 ==> after[p] <= lastEventId
  }

  predicate NoChunkHides(chunks: seq<string>, lastEventId: u64) {
    chunks == []
    || (&& NoChunkHides(chunks[..|chunks| - 1], lastEventId)
        && HidesNothing(SeenAfter(chunks[..|chunks| - 1]), SeenAfter(chunks), lastEventId))
  }

  lemma {:induction false} AboveConcat(a: seq<u64>, b: seq<u64>, lastEventId: u64)
    ensures Above(a + b, lastEventId) == Above(a, lastEventId) + Above(b, lastEventId)
  {
    if b == [] {
      assert a + b == a;
    } else {
      assert (a + b)[..|a + b| - 1] == a + b[..|b| - 1];
      AboveConcat(a, b[..|b| - 1], lastEventId);
    }
  }

  lemma {:induction false} AboveNone(ids: seq<u64>, lastEventId: u64)
    ensures Above(ids, lastEventId) == [] <==> forall p :: 0 <= p < |ids| ==> ids[p] <= lastEventId
  {
    if ids == [] {
    } else {
      AboveNone(ids[..|ids| - 1], lastEventId);
      assert ids == ids[..|ids| - 1] + [ids[|ids| - 1]];
    }
  }

  /** What a chunk adds to the first ten seen ids. */
  function Added(before: seq<u64>, after: seq<u64>): seq<u64>
    requires |before| <= |after|
  {
    after[Min(10, |before|)..Min(10, |after|)]
  }

  lemma AddedAt(before: seq<u64>, after: seq<u64>, q: nat)
    requires |before| <= |after| && q < |Added(before, after)|
    ensures |before| <= 10 && |before| + q < Min(10, |after|) && Added(before, after)[q] == after[|before| + q]
  {}

  /** The additions but the last id of the chunk, if that is one of them. */
  function Inner(before: seq<u64>, after: seq<u64>): seq<u64>
    requires |before| <= |after|
  {
    var added := Added(before, after);
    if |before| < |after| <= 10 then added[..|added| - 1] else added
  }

  /** Hiding nothing, said of the additions: but for the last id of the chunk none is above the last id received. */
  lemma HiddenAdditions(before: seq<u64>, after: seq<u64>, lastEventId: u64)
    requires before <= after
    ensures HidesNothing(before, after, lastEventId) <==> Above(Inner(before, after), lastEventId) == []
  {
    var inner := Inner(before, after);
    AboveNone(inner, lastEventId);
    if Above(inner, lastEventId) == [] {
      forall p | |before| <= p < |after| - 1 && p < 10
        ensures after[p] <= lastEventId
      {
        AddedAt(before, after, p - |before|);
        assert inner[p - |before|] == Added(before, after)[p - |before|];
      }
    }
    if HidesNothing(before, after, lastEventId) {
      forall q | 0 <= q < |inner|
        ensures inner[q] <= lastEventId
      {
        AddedAt(before, after, q);
        assert inner[q] == Added(before, after)[q];
      }
    }
  }

  lemma FirstTenGrows(before: seq<u64>, after: seq<u64>, lastEventId: u64)
    requires before <= after
    ensures Above(FirstTen(after), lastEventId) ==
            Above(FirstTen(before), lastEventId) + Above(Added(before, after), lastEventId)
  {
    assert FirstTen(after) == FirstTen(before) + Added(before, after);
    AboveConcat(FirstTen(before), Added(before, after), lastEventId);
  }

  lemma AboveSnoc(ids: seq<u64>, lastEventId: u64)
    requires ids != []
    ensures var n := |ids| - 1;
            Above(ids, lastEventId) == Above(ids[..n], lastEventId) + if ids[n] > lastEventId then [ids[n]] else []
  {}

  /** What a chunk counts falls short of what it adds above the last id received by what is above it in the inner part. */
  lemma CountedAndInner(before: seq<u64>, after: seq<u64>, lastEventId: u64)
    requires before <= after
    ensures Above(Added(before, after), lastEventId) ==
            Above(Inner(before, after), lastEventId) + Counted(Report(before, after, lastEventId))
  {
    var added := Added(before, after);
    if |before| < |after| <= 10 {
      AboveSnoc(added, lastEventId);
      AddedAt(before, after, |added| - 1);
    } else {
      assert Above(added, lastEventId) + [] == Above(added, lastEventId);
    }
  }

  /** A chunk counts at most what it adds above the last id received, and all of it exactly when it hides nothing. */
  lemma CountStep(before: seq<u64>, after: seq<u64>, lastEventId: u64)
    requires before <= after
    ensures var counted := Counted(Report(before, after, lastEventId)); var due := Above(Added(before, after), lastEventId);
            && |counted| <= |due|
            && (|counted| == |due| <==> HidesNothing(before, after, lastEventId))
            && (HidesNothing(before, after, lastEventId) ==> counted == due)
  {
    CountedAndInner(before, after, lastEventId);
    HiddenAdditions(before, after, lastEventId);
  }

  /**
   * The count never exceeds the number of ids above the last one received among the first ten seen, and it is that
   * number, the counted ids then being those, exactly when no chunk brings such an id before another new one.
   */
  lemma {:induction false} CountIsExact(chunks: seq<string>, lastEventId: u64)
    ensures var counted := CountedIds(chunks, lastEventId);
            var due := Above(FirstTen(SeenAfter(chunks)), lastEventId);
            && |counted| <= |due|
            && (|counted| == |due| <==> NoChunkHides(chunks, lastEventId))
            && (NoChunkHides(chunks, lastEventId) ==> counted == due)
  {
    if chunks == [] {
    } else {
      var init := chunks[..|chunks| - 1];
      CountIsExact(init, lastEventId);
      SeenStep(chunks);
      FirstTenGrows(SeenAfter(init), SeenAfter(chunks), lastEventId);
      CountStep(SeenAfter(init), SeenAfter(chunks), lastEventId);
    }
  }

  /** Two events in one chunk, as they arrive. */
  const TWO_EVENTS: string := "id: 6\n\nid: 7\n\n"

  lemma TwoEventsText()
    ensures RenderEvents([[IdField(6)], [IdField(7)]]) == TWO_EVENTS
  {
    var first, second: Event := [IdField(6)], [IdField(7)];
    assert RenderFields(first) == "id: 6\n" by { assert Decimal(6) == "6" && first[1..] == []; }
    assert RenderFields(second) == "id: 7\n" by { assert Decimal(7) == "7" && second[1..] == []; }
    assert RenderEvents([second]) == "id: 7\n\n" by { assert [second][1..] == []; }
    assert [first, second][1..] == [second];
  }

  lemma TwoRenderedIds(a: u64, b: u64)
    ensures IdsOf(RenderEvents([[IdField(a)], [IdField(b)]])) == [a, b]
  {
    var first, second: Event := [IdField(a)], [IdField(b)];
    RenderedEventsIds([first, second]);
    assert RenderedIds([second]) == [b] by { assert [second][1..] == []; }
    assert [first, second][1..] == [second];
  }

  lemma TwoIds(a: u64, b: u64, lastEventId: u64)
    requires a != b && a > lastEventId && b > lastEventId
    ensures FirstOccurrences([a, b]) == [a, b] && Above([a, b], lastEventId) == [a, b]
  {
    assert [a, b][..1] == [a] && [a][..0] == [];
    assert FirstOccurrences([a]) == [a] && Above([a], lastEventId) == [a];
  }

  /** A chunk that brings two replayed ids is counted once, under the second. */
  lemma TwoIdsInOneChunk(chunk: string, a: u64, b: u64, lastEventId: u64)
    requires IdsOf(chunk) == [a, b] && a != b && a > lastEventId && b > lastEventId
    ensures var seen := SeenAfter([chunk]);
            seen == [a, b] && Above(FirstTen(seen), lastEventId) == [a, b] && CountedIds([chunk], lastEventId) == [b]
  {
    TwoIds(a, b, lastEventId);
    assert [chunk][..0] == [];
    assert AllIds([chunk]) == [a, b];
    assert FirstTen([a, b]) == [a, b];
    assert SeenAfter([]) == [] && CountedIds([], lastEventId) == [];
  }

  /** Two replayed events in one chunk count as one. */
  lemma TwoReplaysInOneChunk()
    ensures var seen := SeenAfter([TWO_EVENTS]);
            seen == [6, 7] && Above(FirstTen(seen), 5) == [6, 7] && CountedIds([TWO_EVENTS], 5) == [7]
  {
    TwoEventsText();
    TwoRenderedIds(6, 7);
    TwoIdsInOneChunk(TWO_EVENTS, 6, 7, 5);
  }
}
