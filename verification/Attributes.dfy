/** The attribute parsers of the procedural macros, over token streams. */
module Attributes {
  import opened Prelude

  /** Keywords, other literals and other groups are all tokens these parsers never accept. */
  datatype Token = Ident(name: string) | Punct(c: char) | LitStr(value: string) | Parens(content: seq<Token>) | OtherToken

  datatype ParseError = ExpectedIdent | ExpectedPunct(c: char) | ExpectedString | ExpectedParens | Unsupported(name: string)

  type Parsed<T> = Result<T, ParseError>

  /** A parse stream: each successful step consumes one token, a failed one consumes nothing. */
  class ParseStream {
    var rest: seq<Token>

    constructor (tokens: seq<Token>)
      ensures rest == tokens
    {
      rest := tokens;
    }

    predicate IsEmpty()
      reads this
    {
      rest == []
    }

    predicate Peek(c: char)
      reads this
    {
      rest != [] && rest[0] == Punct(c)
    }

    method ParseIdent() returns (r: Parsed<string>)
      modifies this
      ensures r == if old(rest) != [] && old(rest)[0].Ident? then Ok(old(rest)[0].name) else Err(ExpectedIdent)
      ensures rest == if r.Ok? then old(rest)[1..] else old(rest)
    {
      if rest == [] || !rest[0].Ident? {
        return Err(ExpectedIdent);
      }
      r := Ok(rest[0].name);
      rest := rest[1..];
    }

    method ParsePunct(c: char) returns (r: Parsed<()>)
      modifies this
      ensures r == if old(rest) != [] && old(rest)[0] == Punct(c) then Ok(()) else Err(ExpectedPunct(c))
      ensures rest == if r.Ok? then old(rest)[1..] else old(rest)
    {
      if !Peek(c) {
        return Err(ExpectedPunct(c));
      }
      r := Ok(());
      rest := rest[1..];
    }

    method ParseLitStr() returns (r: Parsed<string>)
      modifies this
      ensures r == if old(rest) != [] && old(rest)[0].LitStr? then Ok(old(rest)[0].value) else Err(ExpectedString)
      ensures rest == if r.Ok? then old(rest)[1..] else old(rest)
    {
      if rest == [] || !rest[0].LitStr? {
        return Err(ExpectedString);
      }
      r := Ok(rest[0].value);
      rest := rest[1..];
    }

    method ParseParens() returns (r: Parsed<seq<Token>>)
      modifies this
      ensures r == if old(rest) != [] && old(rest)[0].Parens? then Ok(old(rest)[0].content) else Err(ExpectedParens)
      ensures rest == if r.Ok? then old(rest)[1..] else old(rest)
    {
      if rest == [] || !rest[0].Parens? {
        return Err(ExpectedParens);
      }
      r := Ok(rest[0].content);
      rest := rest[1..];
    }
  }

  // ------------------------------------------------------------------------------------------------------------
  // `name = "value"` lists
  // ------------------------------------------------------------------------------------------------------------

  type Pairs = seq<(string, string)>

  /** What follows an item: nothing, or a comma and the next items. */
  function AfterComma(ts: seq<Token>): (r: Parsed<seq<Token>>)
    ensures r.Ok? ==> |r.value| <= |ts|
  {
    if ts == [] then Ok([])
    else if ts[0] == Punct(',') then Ok(ts[1..])
    else Err(ExpectedPunct(','))
  }

  /** An `= "value"` at the head of a stream, and the tokens after it. */
  function HeadValue(ts: seq<Token>): (r: Parsed<(string, seq<Token>)>)
    ensures r.Ok? ==> |r.value.1| < |ts|
  {
    if ts == [] || ts[0] != Punct('=') then Err(ExpectedPunct('='))
    else if |ts| == 1 || !ts[1].LitStr? then Err(ExpectedString)
    else Ok((ts[1].value, ts[2..]))
  }

  /** A `name = "value"` at the head of a stream, and the tokens after it. */
  function HeadPair(ts: seq<Token>, allowed: set<string>): (r: Parsed<((string, string), seq<Token>)>)
    ensures r.Ok? ==> |r.value.1| < |ts|
  {
    if ts == [] || !ts[0].Ident? then Err(ExpectedIdent)
    else
      var value :- HeadValue(ts[1..]);
      if ts[0].name in allowed then Ok(((ts[0].name, value.0), value.1)) else Err(Unsupported(ts[0].name))
  }

  function ParsePairs(ts: seq<Token>, allowed: set<string>): Parsed<Pairs>
    decreases |ts|
  {
    if ts == [] then Ok([])
    else
      var head :- HeadPair(ts, allowed);
      var next :- AfterComma(head.1);
      var others :- ParsePairs(next, allowed);
      Ok([head.0] + others)
  }

  /** The last value given for a name. */
  function Last(ps: Pairs, name: string): Option<string> {
    if ps == [] then None
    else if ps[|ps| - 1].0 == name then Some(ps[|ps| - 1].1)
    else Last(ps[..|ps| - 1], name)
  }

  function Separator(present: bool): seq<Token> { if present then [Punct(',')] else [] }

  function RenderPair(p: (string, string)): seq<Token> { [Ident(p.0), Punct('='), LitStr(p.1)] }

  function RenderPairs(ps: Pairs, trailing: bool): seq<Token> {
    if ps == [] then []
    else RenderPair(ps[0]) + (Separator(|ps| > 1 || trailing) + RenderPairs(ps[1..], trailing))
  }

  /** A separator is present, or nothing follows. */
  lemma AfterSeparator(ts: seq<Token>, present: bool, others: seq<Token>)
    requires ts == Separator(present) + others && (!present ==> others == [])
    ensures AfterComma(ts) == Ok(others)
  {}

  lemma SeparatorBefore(ts: seq<Token>)
    requires AfterComma(ts).Ok?
    ensures ts == Separator(ts != []) + AfterComma(ts).value
  {}

  lemma HeadPairOf(p: (string, string), tail: seq<Token>, allowed: set<string>)
    requires p.0 in allowed
    ensures HeadPair(RenderPair(p) + tail, allowed) == Ok((p, tail))
  {
    var ts := RenderPair(p) + tail;
    assert ts[1..][2..] == tail;
  }

  lemma HeadPairIs(ts: seq<Token>, allowed: set<string>)
    requires HeadPair(ts, allowed).Ok?
    ensures var (p, tail) := HeadPair(ts, allowed).value; ts == RenderPair(p) + tail && p.0 in allowed
  {
    assert ts == [ts[0], ts[1], ts[2]] + ts[1..][2..];
  }

  /** Parsing succeeds with `ps` exactly on the renderings of `ps`, with or without a trailing comma. */
  lemma {:induction false} PairsParseExactly(ts: seq<Token>, allowed: set<string>, ps: Pairs)
    ensures ParsePairs(ts, allowed) == Ok(ps) <==>
              (forall i :: 0 <= i < |ps| ==> ps[i].0 in allowed) && (ts == RenderPairs(ps, false) || ts == RenderPairs(ps, true))
  {
    if ParsePairs(ts, allowed) == Ok(ps) {
      ParsedPairsRender(ts, allowed);
    }
    if forall i :: 0 <= i < |ps| ==> ps[i].0 in allowed {
      RenderedPairsParse(ps, false, allowed);
      RenderedPairsParse(ps, true, allowed);
    }
  }

  lemma {:induction false} ParsedPairsRender(ts: seq<Token>, allowed: set<string>)
    requires ParsePairs(ts, allowed).Ok?
    ensures var ps := ParsePairs(ts, allowed).value;
            && (forall i :: 0 <= i < |ps| ==> ps[i].0 in allowed)
            && (ts == RenderPairs(ps, false) || ts == RenderPairs(ps, true))
    decreases |ts|
  {
    if ts == [] {
    } else {
      HeadPairIs(ts, allowed);
      var tail := HeadPair(ts, allowed).value.1;
      SeparatorBefore(tail);
      var next := AfterComma(tail).value;
      ParsedPairsRender(next, allowed);
      var ps := ParsePairs(ts, allowed).value;
      assert ps[1..] == ParsePairs(next, allowed).value;
    }
  }

  lemma {:induction false} RenderedPairsParse(ps: Pairs, trailing: bool, allowed: set<string>)
    requires forall i :: 0 <= i < |ps| ==> ps[i].0 in allowed
    ensures ParsePairs(RenderPairs(ps, trailing), allowed) == Ok(ps)
  {
    if ps == [] {
    } else {
      var others := RenderPairs(ps[1..], trailing);
      var tail := Separator(|ps| > 1 || trailing) + others;
      RenderedPairsParse(ps[1..], trailing, allowed);
      HeadPairOf(ps[0], tail, allowed);
      AfterSeparator(tail, |ps| > 1 || trailing, others);
      assert ps == [ps[0]] + ps[1..];
    }
  }

  /** Last wins. */
  lemma {:induction false} LastSpec(ps: Pairs, name: string)
    ensures Last(ps, name).None? <==> forall i :: 0 <= i < |ps| ==> ps[i].0 != name
    ensures Last(ps, name).Some? ==>
              exists i :: 0 <= i < |ps| && ps[i] == (name, Last(ps, name).value) && forall j :: i < j < |ps| ==> ps[j].0 != name
  {
    if ps == [] {
    } else {
      LastSpec(ps[..|ps| - 1], name);
    }
  }

  // ------------------------------------------------------------------------------------------------------------
  // Tool and resource attributes
  // ------------------------------------------------------------------------------------------------------------

  datatype ToolAttrs = ToolAttrs(name: Option<string>, description: Option<string>)
  datatype ResourceAttrs = ResourceAttrs(
    uri: Option<string>, uriTemplate: Option<string>, name: Option<string>, description: Option<string>,
    mimeType: Option<string>)

  const TOOL_NAMES: set<string> := {"name", "description"}
  const RESOURCE_NAMES: set<string> := {"uri", "uri_template", "name", "description", "mime_type"}

  /** `whole` is `done` followed by whatever the rest of the stream parses to. */
  ghost predicate Continues<T>(whole: Parsed<seq<T>>, done: seq<T>, rest: Parsed<seq<T>>) {
    whole == if rest.Ok? then Ok(done + rest.value) else Err(rest.error)
  }

  lemma ContinuesStart<T>(whole: Parsed<seq<T>>)
    ensures Continues(whole, [], whole)
  {
    if whole.Ok? {
      assert [] + whole.value == whole.value;
    }
  }

  lemma ContinuesStep<T>(whole: Parsed<seq<T>>, done: seq<T>, x: T, rest: Parsed<seq<T>>, next: Parsed<seq<T>>)
    requires Continues(whole, done, rest)
    requires rest == if next.Ok? then Ok([x] + next.value) else Err(next.error)
    ensures Continues(whole, done + [x], next)
  {
    if next.Ok? {
      assert done + ([x] + next.value) == done + [x] + next.value;
    }
  }

  lemma LastSnoc(ps: Pairs, p: (string, string), name: string)
    ensures Last(ps + [p], name) == if p.0 == name then Some(p.1) else Last(ps, name)
  {}

  /** `ToolAttrs::parse`. */
  method ParseTool(input: ParseStream) returns (r: Parsed<ToolAttrs>)
    modifies input
    ensures var ps := ParsePairs(old(input.rest), TOOL_NAMES);
            && (ps.Err? ==> r == Err(ps.error))
            && (ps.Ok? ==> && r.Ok?
                           && r.value.name == Last(ps.value, "name")
                           && r.value.description == Last(ps.value, "description"))
    ensures r.Ok? ==> input.IsEmpty()
  {
    var name: Option<string>, description: Option<string> := None, None;
    ghost var whole := ParsePairs(input.rest, TOOL_NAMES);
    ghost var done: Pairs := [];
    ContinuesStart(whole);
    while !input.IsEmpty()
      invariant Continues(whole, done, ParsePairs(input.rest, TOOL_NAMES))
      invariant name == Last(done, "name") && description == Last(done, "description")
      decreases |input.rest|
    {
      ghost var before := input.rest;
      var ident :- input.ParseIdent();
      var _ :- input.ParsePunct('=');
      var lit :- input.ParseLitStr();
      assert before[1..][2..] == input.rest;
      if ident == "name" {
        name := Some(lit);
      } else if ident == "description" {
        description := Some(lit);
      } else {
        return Err(Unsupported(ident));
      }
      if !input.IsEmpty() {
        var _ :- input.ParsePunct(',');
      }
      ContinuesStep(whole, done, (ident, lit), ParsePairs(before, TOOL_NAMES), ParsePairs(input.rest, TOOL_NAMES));
      LastSnoc(done, (ident, lit), "name");
      LastSnoc(done, (ident, lit), "description");
      done := done + [(ident, lit)];
    }
    assert done + [] == done;
    r := Ok(ToolAttrs(name, description));
  }

  /** `ResourceAttrs::parse`. */
  method ParseResource(input: ParseStream) returns (r: Parsed<ResourceAttrs>)
    modifies input
    ensures var ps := ParsePairs(old(input.rest), RESOURCE_NAMES);
            && (ps.Err? ==> r == Err(ps.error))
            && (ps.Ok? ==> && r.Ok?
                           && r.value.uri == Last(ps.value, "uri")
                           && r.value.uriTemplate == Last(ps.value, "uri_template")
                           && r.value.name == Last(ps.value, "name")
                           && r.value.description == Last(ps.value, "description")
                           && r.value.mimeType == Last(ps.value, "mime_type"))
    ensures r.Ok? ==> input.IsEmpty()
  {
    var attrs := ResourceAttrs(None, None, None, None, None);
    ghost var whole := ParsePairs(input.rest, RESOURCE_NAMES);
    ghost var done: Pairs := [];
    ContinuesStart(whole);
    while !input.IsEmpty()
      invariant Continues(whole, done, ParsePairs(input.rest, RESOURCE_NAMES))
      invariant attrs.uri == Last(done, "uri") && attrs.uriTemplate == Last(done, "uri_template")
      invariant attrs.name == Last(done, "name") && attrs.description == Last(done, "description")
      invariant attrs.mimeType == Last(done, "mime_type")
      decreases |input.rest|
    {
      ghost var before := input.rest;
      var ident :- input.ParseIdent();
      var _ :- input.ParsePunct('=');
      var lit :- input.ParseLitStr();
      assert before[1..][2..] == input.rest;
      if ident == "uri" {
        attrs := attrs.(uri := Some(lit));
      } else if ident == "uri_template" {
        attrs := attrs.(uriTemplate := Some(lit));
      } else if ident == "name" {
        attrs := attrs.(name := Some(lit));
      } else if ident == "description" {
        attrs := attrs.(description := Some(lit));
      } else if ident == "mime_type" {
        attrs := attrs.(mimeType := Some(lit));
      } else {
        return Err(Unsupported(ident));
      }
      if !input.IsEmpty() {
        var _ :- input.ParsePunct(',');
      }
      ContinuesStep(whole, done, (ident, lit), ParsePairs(before, RESOURCE_NAMES), ParsePairs(input.rest, RESOURCE_NAMES));
      LastSnoc(done, (ident, lit), "uri");
      LastSnoc(done, (ident, lit), "uri_template");
      LastSnoc(done, (ident, lit), "name");
      LastSnoc(done, (ident, lit), "description");
      LastSnoc(done, (ident, lit), "mime_type");
      done := done + [(ident, lit)];
    }
    assert done + [] == done;
    r := Ok(attrs);
  }

  // ------------------------------------------------------------------------------------------------------------
  // Prompt attributes
  // ------------------------------------------------------------------------------------------------------------

  datatype PromptArg = PromptArg(name: string, description: string, required: bool)
  datatype PromptAttrs = PromptAttrs(name: Option<string>, description: Option<string>, args: seq<PromptArg>)

  type Args = seq<PromptArg>

  /** A `name = "description"` or `?name = "description"` at the head of a stream, and the tokens after it. */
  function HeadArg(ts: seq<Token>): (r: Parsed<(PromptArg, seq<Token>)>)
    requires ts != []
    ensures r.Ok? ==> |r.value.1| < |ts|
  {
    var required := ts[0] != Punct('?');
    var item := if required then ts else ts[1..];
    if item == [] || !item[0].Ident? then Err(ExpectedIdent)
    else
      var description :- HeadValue(item[1..]);
      Ok((PromptArg(item[0].name, description.0, required), description.1))
  }

  function ParseArgs(ts: seq<Token>): Parsed<Args>
    decreases |ts|
  {
    if ts == [] then Ok([])
    else
      var head :- HeadArg(ts);
      var next :- AfterComma(head.1);
      var others :- ParseArgs(next);
      Ok([head.0] + others)
  }

  function RenderArg(a: PromptArg): seq<Token> {
    (if a.required then [] else [Punct('?')]) + [Ident(a.name), Punct('='), LitStr(a.description)]
  }

  function RenderArgs(args: Args, trailing: bool): seq<Token> {
    if args == [] then []
    else RenderArg(args[0]) + (Separator(|args| > 1 || trailing) + RenderArgs(args[1..], trailing))
  }

  /** A prompt attribute; an `args` group records whether its list ends in a comma. */
  datatype Item = Text(name: string, value: string) | Group(args: Args, trailing: bool) {
    predicate WellFormed() {
      match this
      case Text(n, _) => n == "name" || n == "description"
      case Group(args, trailing) => args == [] ==> !trailing
    }
  }

  predicate EndsInComma(ts: seq<Token>) { ts != [] && ts[|ts| - 1] == Punct(',') }

  /** One attribute at the head of a stream, and the tokens after it. */
  function HeadItem(ts: seq<Token>): (r: Parsed<(Item, seq<Token>)>)
    ensures r.Ok? ==> |r.value.1| < |ts|
  {
    if ts == [] || !ts[0].Ident? then Err(ExpectedIdent)
    else if ts[0].name == "args" then
      if |ts| == 1 || !ts[1].Parens? then Err(ExpectedParens)
      else
        var args :- ParseArgs(ts[1].content);
        Ok((Group(args, EndsInComma(ts[1].content)), ts[2..]))
    else
      var value :- HeadValue(ts[1..]);
      if ts[0].name == "name" || ts[0].name == "description" then Ok((Text(ts[0].name, value.0), value.1))
      else Err(Unsupported(ts[0].name))
  }

  function ParseItems(ts: seq<Token>): Parsed<seq<Item>>
    decreases |ts|
  {
    if ts == [] then Ok([])
    else
      var head :- HeadItem(ts);
      var next :- AfterComma(head.1);
      var others :- ParseItems(next);
      Ok([head.0] + others)
  }

  function RenderItem(i: Item): seq<Token> {
    match i
    case Text(n, v) => [Ident(n), Punct('='), LitStr(v)]
    case Group(args, trailing) => [Ident("args"), Parens(RenderArgs(args, trailing))]
  }

  function RenderItems(items: seq<Item>, trailing: bool): seq<Token> {
    if items == [] then []
    else RenderItem(items[0]) + (Separator(|items| > 1 || trailing) + RenderItems(items[1..], trailing))
  }

  function TextPairs(items: seq<Item>): Pairs {
    if items == [] then []
    else
      var last := items[|items| - 1];
      TextPairs(items[..|items| - 1]) + if last.Text? then [(last.name, last.value)] else []
  }

  /** All groups' arguments, in order. */
  function AllArgs(items: seq<Item>): Args {
    if items == [] then []
    else
      var last := items[|items| - 1];
      AllArgs(items[..|items| - 1]) + if last.Group? then last.args else []
  }

  /** One argument of a group: an optional `?`, a name, and its description. */
  method ParseArg(content: ParseStream) returns (r: Parsed<PromptArg>)
    requires !content.IsEmpty()
    modifies content
    ensures var head := HeadArg(old(content.rest));
            && (head.Ok? ==> r == Ok(head.value.0) && content.rest == head.value.1)
            && (head.Err? ==> r == Err(head.error))
  {
    var required := !content.Peek('?');
    if !required {
      var mark := content.ParsePunct('?');
      assert mark.Ok?;
    }
    ghost var item := content.rest;
    var argName :- content.ParseIdent();
    var _ :- content.ParsePunct('=');
    var argDesc :- content.ParseLitStr();
    assert item[1..][2..] == content.rest;
    r := Ok(PromptArg(argName, argDesc, required));
  }

  /** The loop over one `args(...)` group, which appends to the arguments collected so far. */
  method ParseArgGroup(content: ParseStream, collected: Args) returns (r: Parsed<Args>)
    modifies content
    ensures var parsed := ParseArgs(old(content.rest));
            r == if parsed.Ok? then Ok(collected + parsed.value) else Err(parsed.error)
    ensures r.Ok? ==> content.IsEmpty()
  {
    var args := collected;
    ghost var whole := ParseArgs(content.rest);
    ghost var done: Args := [];
    ContinuesStart(whole);
    while !content.IsEmpty()
      invariant Continues(whole, done, ParseArgs(content.rest))
      invariant args == collected + done
      decreases |content.rest|
    {
      ghost var before := content.rest;
      var arg :- ParseArg(content);
      args := args + [arg];
      if !content.IsEmpty() {
        var _ :- content.ParsePunct(',');
      }
      ContinuesStep(whole, done, arg, ParseArgs(before), ParseArgs(content.rest));
      done := done + [arg];
    }
    assert done + [] == done;
    r := Ok(args);
  }

  /** What the attributes collected from the items so far are. */
  predicate Collects(a: PromptAttrs, items: seq<Item>) {
    && a.name == Last(TextPairs(items), "name") && a.description == Last(TextPairs(items), "description")
    && a.args == AllArgs(items)
  }

  lemma CollectsStep(a: PromptAttrs, items: seq<Item>, item: Item)
    requires Collects(a, items)
    ensures Collects(
      match item
      case Text(n, v) =>
        a.(name := if n == "name" then Some(v) else a.name,
           description := if n == "description" then Some(v) else a.description)
      case Group(args, _) => a.(args := a.args + args),
      items + [item])
  {
    PromptSnoc(items, item);
    if item.Text? {
      LastSnoc(TextPairs(items), (item.name, item.value), "name");
      LastSnoc(TextPairs(items), (item.name, item.value), "description");
    }
  }

  /** `PromptAttrs::parse`. */
  method ParsePrompt(input: ParseStream) returns (r: Parsed<PromptAttrs>)
    modifies input
    ensures var items := ParseItems(old(input.rest));
            && (items.Err? ==> r == Err(items.error))
            && (items.Ok? ==> && r.Ok?
                              && r.value.name == Last(TextPairs(items.value), "name")
                              && r.value.description == Last(TextPairs(items.value), "description")
                              && r.value.args == AllArgs(items.value))
    ensures r.Ok? ==> input.IsEmpty()
  {
    var name: Option<string>, description: Option<string> := None, None;
    var args: Args := [];
    ghost var whole := ParseItems(input.rest);
    ghost var done: seq<Item> := [];
    ContinuesStart(whole);
    while !input.IsEmpty()
      invariant Continues(whole, done, ParseItems(input.rest))
      invariant Collects(PromptAttrs(name, description, args), done)
      decreases |input.rest|
    {
      ghost var before, collected := input.rest, PromptAttrs(name, description, args);
      ghost var item: Item;
      var ident :- input.ParseIdent();
      if ident == "args" {
        var tokens :- input.ParseParens();
        assert before[2..] == input.rest;
        var content := new ParseStream(tokens);
        args :- ParseArgGroup(content, args);
        item := Group(ParseArgs(tokens).value, EndsInComma(tokens));
      } else {
        var _ :- input.ParsePunct('=');
        var lit :- input.ParseLitStr();
        assert before[1..][2..] == input.rest;
        if ident == "name" {
          name := Some(lit);
        } else if ident == "description" {
          description := Some(lit);
        } else {
          return Err(Unsupported(ident));
        }
        item := Text(ident, lit);
      }
      if !input.IsEmpty() {
        var _ :- input.ParsePunct(',');
      }
      ContinuesStep(whole, done, item, ParseItems(before), ParseItems(input.rest));
      CollectsStep(collected, done, item);
      done := done + [item];
    }
    assert done + [] == done;
    r := Ok(PromptAttrs(name, description, args));
  }

  lemma PromptSnoc(items: seq<Item>, item: Item)
    ensures TextPairs(items + [item]) ==
            if item.Text? then TextPairs(items) + [(item.name, item.value)] else TextPairs(items)
    ensures AllArgs(items + [item]) == if item.Group? then AllArgs(items) + item.args else AllArgs(items)
  {
    var all := items + [item];
    assert all[..|items|] == items;
    var ps := TextPairs(items);
    match item
    case Text(n, v) =>
      assert (ps + [(n, v)])[..|ps|] == ps;
      assert AllArgs(items) + [] == AllArgs(items);
    case Group(_, _) =>
      assert ps + [] == ps;
  }

  // ------------------------------------------------------------------------------------------------------------
  // Prompt parsing inverts rendering, and accepts nothing else
  // ------------------------------------------------------------------------------------------------------------

  lemma HeadArgOf(a: PromptArg, tail: seq<Token>)
    ensures HeadArg(RenderArg(a) + tail) == Ok((a, tail))
  {
    var ts := RenderArg(a) + tail;
    var item := if a.required then ts else ts[1..];
    assert ts[0] == if a.required then Ident(a.name) else Punct('?');
    assert item == [Ident(a.name), Punct('='), LitStr(a.description)] + tail;
    assert item[1..] == [Punct('='), LitStr(a.description)] + tail;
    assert HeadValue(item[1..]) == Ok((a.description, tail)) by { assert item[1..][2..] == tail; }
  }

  lemma HeadArgIs(ts: seq<Token>)
    requires ts != [] && HeadArg(ts).Ok?
    ensures var (a, tail) := HeadArg(ts).value; ts == RenderArg(a) + tail
  {
    var item := if ts[0] != Punct('?') then ts else ts[1..];
    assert item == [item[0], item[1], item[2]] + item[1..][2..];
  }

  lemma {:induction false} RenderedArgsParse(args: Args, trailing: bool)
    ensures ParseArgs(RenderArgs(args, trailing)) == Ok(args)
  {
    if args == [] {
    } else {
      var others := RenderArgs(args[1..], trailing);
      var tail := Separator(|args| > 1 || trailing) + others;
      RenderedArgsParse(args[1..], trailing);
      HeadArgOf(args[0], tail);
      AfterSeparator(tail, |args| > 1 || trailing, others);
      assert args == [args[0]] + args[1..];
    }
  }

  lemma LastOfConcat(a: seq<Token>, b: seq<Token>)
    requires b != []
    ensures EndsInComma(a + b) == EndsInComma(b)
  {}

  lemma {:induction false} RenderedArgsEnd(args: Args, trailing: bool)
    requires args != []
    ensures EndsInComma(RenderArgs(args, trailing)) == trailing
  {
    var others := RenderArgs(args[1..], trailing);
    var tail := Separator(|args| > 1 || trailing) + others;
    if |args| > 1 {
      RenderedArgsEnd(args[1..], trailing);
      LastOfConcat(Separator(true), others);
      LastOfConcat(RenderArg(args[0]), tail);
    } else if trailing {
      LastOfConcat(RenderArg(args[0]), tail);
    } else {
      assert RenderArgs(args, trailing) == RenderArg(args[0]);
    }
  }

  lemma {:induction false} ParsedArgsRender(ts: seq<Token>)
    requires ParseArgs(ts).Ok?
    ensures ts == RenderArgs(ParseArgs(ts).value, false) || ts == RenderArgs(ParseArgs(ts).value, true)
    ensures ParseArgs(ts).value == [] <==> ts == []
    decreases |ts|
  {
    if ts == [] {
    } else {
      HeadArgIs(ts);
      var tail := HeadArg(ts).value.1;
      SeparatorBefore(tail);
      var next := AfterComma(tail).value;
      ParsedArgsRender(next);
      assert ParseArgs(ts).value[1..] == ParseArgs(next).value;
    }
  }

  /** A parsed argument list is the rendering of its arguments, ending in a comma or not as it did. */
  lemma {:induction false} ParsedArgsExactly(ts: seq<Token>)
    requires ParseArgs(ts).Ok?
    ensures ts == RenderArgs(ParseArgs(ts).value, EndsInComma(ts))
  {
    ParsedArgsRender(ts);
    if ts == [] {
    } else {
      RenderedArgsEnd(ParseArgs(ts).value, false);
      RenderedArgsEnd(ParseArgs(ts).value, true);
    }
  }

  lemma HeadItemOf(item: Item, tail: seq<Token>)
    requires item.WellFormed()
    ensures HeadItem(RenderItem(item) + tail) == Ok((item, tail))
  {
    var ts := RenderItem(item) + tail;
    match item
    case Text(n, v) =>
      assert ts[1..][2..] == tail;
    case Group(args, t) =>
      assert ts[2..] == tail;
      RenderedArgsParse(args, t);
      if args != [] {
        RenderedArgsEnd(args, t);
      }
  }

  lemma HeadItemIs(ts: seq<Token>)
    requires HeadItem(ts).Ok?
    ensures var (item, tail) := HeadItem(ts).value; ts == RenderItem(item) + tail && item.WellFormed()
  {
    if ts[0].name == "args" {
      ParsedArgsRender(ts[1].content);
      ParsedArgsExactly(ts[1].content);
      assert ts == [ts[0], ts[1]] + ts[2..];
    } else {
      assert ts == [ts[0], ts[1], ts[2]] + ts[1..][2..];
    }
  }

  lemma {:induction false} RenderedItemsParse(items: seq<Item>, trailing: bool)
    requires forall i :: 0 <= i < |items| ==> items[i].WellFormed()
    ensures ParseItems(RenderItems(items, trailing)) == Ok(items)
  {
    if items == [] {
    } else {
      var others := RenderItems(items[1..], trailing);
      var tail := Separator(|items| > 1 || trailing) + others;
      RenderedItemsParse(items[1..], trailing);
      HeadItemOf(items[0], tail);
      AfterSeparator(tail, |items| > 1 || trailing, others);
      assert items == [items[0]] + items[1..];
    }
  }

  lemma {:induction false} ParsedItemsRender(ts: seq<Token>)
    requires ParseItems(ts).Ok?
    ensures var items := ParseItems(ts).value;
            && (forall i :: 0 <= i < |items| ==> items[i].WellFormed())
            && (ts == RenderItems(items, false) || ts == RenderItems(items, true))
    decreases |ts|
  {
    if ts == [] {
    } else {
      HeadItemIs(ts);
      var tail := HeadItem(ts).value.1;
      SeparatorBefore(tail);
      var next := AfterComma(tail).value;
      ParsedItemsRender(next);
      assert ParseItems(ts).value[1..] == ParseItems(next).value;
    }
  }

  /** Parsing succeeds with `items` exactly on the renderings of `items`, with or without a trailing comma. */
  lemma {:induction false} ItemsParseExactly(ts: seq<Token>, items: seq<Item>)
    ensures ParseItems(ts) == Ok(items) <==>
              (forall i :: 0 <= i < |items| ==> items[i].WellFormed())
              && (ts == RenderItems(items, false) || ts == RenderItems(items, true))
  {
    if ParseItems(ts) == Ok(items) {
      ParsedItemsRender(ts);
    }
    if forall i :: 0 <= i < |items| ==> items[i].WellFormed() {
      RenderedItemsParse(items, false);
      RenderedItemsParse(items, true);
    }
  }

  /** A prompt's name or description is that of its last text item of that name, whatever groups stand between. */
  lemma {:induction false} LastTextItem(items: seq<Item>, name: string)
    ensures var found := Last(TextPairs(items), name);
            && (found.None? <==> forall i :: 0 <= i < |items| && items[i].Text? ==> items[i].name != name)
            && (found.Some? ==>
                  exists i :: 0 <= i < |items| && items[i] == Text(name, found.value)
                              && forall j :: i < j < |items| && items[j].Text? ==> items[j].name != name)
  {
    if items == [] {
    } else {
      var n := |items| - 1;
      var init, last := items[..n], items[n];
      LastTextItem(init, name);
      assert items == init + [last];
      PromptSnoc(init, last);
      if last.Text? {
        LastSnoc(TextPairs(init), (last.name, last.value), name);
      }
    }
  }

  /** The arguments are those of the one group, or none. */
  lemma AllArgsOne(item: Item)
    ensures AllArgs([item]) == if item.Group? then item.args else []
  {
    PromptSnoc([], item);
    assert [] + [item] == [item];
  }

  // ------------------------------------------------------------------------------------------------------------
  // The first thing wrong is the error
  // ------------------------------------------------------------------------------------------------------------

  /** What is wrong with a first item that is no `name = "value"` of an allowed name followed by a comma or the end. */
  predicate FirstFault(ts: seq<Token>, allowed: set<string>, e: ParseError) {
    && ts != []
    && if !ts[0].Ident? then e == ExpectedIdent
       else if |ts| < 2 || ts[1] != Punct('=') then e == ExpectedPunct('=')
       else if |ts| < 3 || !ts[2].LitStr? then e == ExpectedString
       else if ts[0].name !in allowed then e == Unsupported(ts[0].name)
       else |ts| > 3 && ts[3] != Punct(',') && e == ExpectedPunct(',')
  }

  /** A list of pairs is refused for the fault of the first item that has one. */
  lemma {:induction false} FirstFaultIsReported(ps: Pairs, rest: seq<Token>, allowed: set<string>, e: ParseError)
    requires forall i :: 0 <= i < |ps| ==> ps[i].0 in allowed
    requires FirstFault(rest, allowed, e)
    ensures ParsePairs(RenderPairs(ps, true) + rest, allowed) == Err(e)
  {
    if ps == [] {
      assert RenderPairs(ps, true) + rest == rest;
    } else {
      var others := RenderPairs(ps[1..], true) + rest;
      FirstFaultIsReported(ps[1..], rest, allowed, e);
      assert RenderPairs(ps, true) + rest == RenderPair(ps[0]) + (Separator(true) + others);
      HeadPairOf(ps[0], Separator(true) + others, allowed);
      AfterSeparator(Separator(true) + others, true, others);
    }
  }

  /** The same for one argument of a group, behind its optional mark. */
  predicate ArgFault(ts: seq<Token>, e: ParseError) {
    && ts != []
    && var item := if ts[0] == Punct('?') then ts[1..] else ts;
       if item == [] || !item[0].Ident? then e == ExpectedIdent
       else if |item| < 2 || item[1] != Punct('=') then e == ExpectedPunct('=')
       else if |item| < 3 || !item[2].LitStr? then e == ExpectedString
       else |item| > 3 && item[3] != Punct(',') && e == ExpectedPunct(',')
  }

  lemma {:induction false} ArgFaultIsReported(args: Args, rest: seq<Token>, e: ParseError)
    requires ArgFault(rest, e)
    ensures ParseArgs(RenderArgs(args, true) + rest) == Err(e)
  {
    if args == [] {
      assert RenderArgs(args, true) + rest == rest;
    } else {
      var others := RenderArgs(args[1..], true) + rest;
      ArgFaultIsReported(args[1..], rest, e);
      assert RenderArgs(args, true) + rest == RenderArg(args[0]) + (Separator(true) + others);
      HeadArgOf(args[0], Separator(true) + others);
      AfterSeparator(Separator(true) + others, true, others);
      assert RenderArg(args[0]) != [];
    }
  }

  /** And for one item of a prompt's attributes, an argument group included. */
  predicate ItemFault(ts: seq<Token>, e: ParseError) {
    && ts != []
    && if ts[0] != Ident("args") then FirstFault(ts, {"name", "description"}, e)
       else if |ts| < 2 || !ts[1].Parens? then e == ExpectedParens
       else if ParseArgs(ts[1].content).Err? then e == ParseArgs(ts[1].content).error
       else |ts| > 2 && ts[2] != Punct(',') && e == ExpectedPunct(',')
  }

  lemma {:induction false} ItemFaultIsReported(items: seq<Item>, rest: seq<Token>, e: ParseError)
    requires (forall i :: 0 <= i < |items| ==> items[i].WellFormed()) && ItemFault(rest, e)
    ensures ParseItems(RenderItems(items, true) + rest) == Err(e)
  {
    if items == [] {
      assert RenderItems(items, true) + rest == rest;
    } else {
      var others := RenderItems(items[1..], true) + rest;
      ItemFaultIsReported(items[1..], rest, e);
      assert RenderItems(items, true) + rest == RenderItem(items[0]) + (Separator(true) + others);
      HeadItemOf(items[0], Separator(true) + others);
      AfterSeparator(Separator(true) + others, true, others);
    }
  }

  /** Repeated `args(...)` groups accumulate, whatever stands between them. */
  lemma {:induction false} AllArgsConcat(a: seq<Item>, b: seq<Item>)
    ensures AllArgs(a + b) == AllArgs(a) + AllArgs(b)
  {
    if b == [] {
      assert a + b == a;
    } else {
      assert (a + b)[..|a + b| - 1] == a + b[..|b| - 1];
      AllArgsConcat(a, b[..|b| - 1]);
    }
  }
}
