/** MCP Apps: content-security origins, dedicated domains, and UI metadata. */
module Apps {
  import opened Prelude
  import opened Entries
  import opened Text
  import opened Utf8
  import opened Json
  import opened MetaKeys

  // ------------------------------------------------------------------------------------------------------------
  // Content-security origins
  // ------------------------------------------------------------------------------------------------------------

  datatype Directive = Connect | Resource | Frame | BaseUri

  predicate AllowsScheme(d: Directive, scheme: string) {
    scheme == "http" || scheme == "https" || (d.Connect? && (scheme == "ws" || scheme == "wss"))
  }

  /** What the URL parser reports. */
  datatype Url = Url(
    scheme: string, host: Option<string>, username: string, password: Option<string>, path: string,
    query: Option<string>, fragment: Option<string>)

  type UrlParser = string -> Option<Url>

  function StripSlash(s: string): string {
    if EndsWith(s, "/") then s[..|s| - 1] else s
  }

  /** `CspOrigin::parse`, for any URL parser. */
  function ParseOrigin(origin: string, d: Directive, parse: UrlParser): Option<string> {
    if Trim(origin) != origin || EndsWith(origin, "//") then None
    else
      var wildcard := Contains(origin, "://*.");
      if wildcard && !d.Resource? then None
      else if '*' in origin && !wildcard then None
      else
        var url :- parse(if wildcard then ReplaceFirst(origin, "://*.", "://wildcard.") else origin);
        if !AllowsScheme(d, url.scheme) || url.host.None? || url.username != "" || url.password.Some?
           || !(url.path == "" || url.path == "/") || url.query.Some? || url.fragment.Some?
        then None
        else if wildcard && (StripPrefix(url.host.value, "wildcard.").None?
                             || '.' !in StripPrefix(url.host.value, "wildcard.").value)
        then None
        else Some(StripSlash(origin))
  }

  /** What the URL parser must report of an origin that is accepted for a directive. */
  predicate AcceptableUrl(u: Url, d: Directive) {
    && u.scheme in (if d == Connect then {"http", "https", "ws", "wss"} else {"http", "https"})
    && u.host.Some? && u.username == "" && u.password == None
    && u.path in {"", "/"} && u.query == None && u.fragment == None
  }

  /** No wildcard, and a URL as it stands. */
  predicate PlainOrigin(origin: string, d: Directive, parse: UrlParser) {
    '*' !in origin && parse(origin).Some? && AcceptableUrl(parse(origin).value, d)
  }

  /** A wildcard host for a resource: with `*` read as a label of its own, a URL whose host has a dot after that label. */
  predicate WildcardAt(origin: string, i: nat, parse: UrlParser) {
    && FirstAt(origin, "://*.", i)
    && var url := parse(origin[..i] + "://wildcard." + origin[i + 5..]);
       && url.Some? && AcceptableUrl(url.value, Resource)
       && "wildcard." <= url.value.host.value && '.' in url.value.host.value[9..]
  }

  predicate OriginFits(origin: string, d: Directive, parse: UrlParser) {
    && Trimmed(origin) && !EndsWith(origin, "//")
    && (PlainOrigin(origin, d, parse)
        || (d == Resource && exists i: nat | i <= |origin| :: WildcardAt(origin, i, parse)))
  }

  lemma FirstAtIsUnique(s: string, p: string, i: nat, j: nat)
    requires FirstAt(s, p, i) && FirstAt(s, p, j)
    ensures i == j
  {}

  lemma NoWildcardWithoutStar(origin: string)
    ensures Contains(origin, "://*.") ==> '*' in origin
  {
    FindSpec(origin, "://*.");
    if Contains(origin, "://*.") {
      var i := Find(origin, "://*.").value;
      assert origin[i + 3] == origin[i..][3] == '*';
    }
  }

  lemma SchemesPerDirective(scheme: string, d: Directive)
    ensures AllowsScheme(d, scheme) <==>
              scheme in (if d == Connect then {"http", "https", "ws", "wss"} else {"http", "https"})
  {}

  lemma PlainAccepted(origin: string, d: Directive, parse: UrlParser)
    requires !Contains(origin, "://*.")
    ensures ParseOrigin(origin, d, parse).Some? <==>
              Trimmed(origin) && !EndsWith(origin, "//") && PlainOrigin(origin, d, parse)
  {
    TrimmedIsTrim(origin);
    if parse(origin).Some? {
      SchemesPerDirective(parse(origin).value.scheme, d);
    }
  }

  lemma WildcardAccepted(origin: string, d: Directive, parse: UrlParser, at: nat)
    requires Find(origin, "://*.") == Some(at)
    ensures ParseOrigin(origin, d, parse).Some? <==>
              Trimmed(origin) && !EndsWith(origin, "//") && d == Resource && WildcardAt(origin, at, parse)
  {
    TrimmedIsTrim(origin);
    FindSpec(origin, "://*.");
    var spelled := origin[..at] + "://wildcard." + origin[at + 5..];
    assert ReplaceFirst(origin, "://*.", "://wildcard.") == spelled;
    if parse(spelled).Some? {
      SchemesPerDirective(parse(spelled).value.scheme, d);
    }
  }

  /** For any URL parser, an origin is accepted exactly when its spelling and what the parser reports of it fit. */
  lemma OriginsAcceptedExactly(origin: string, d: Directive, parse: UrlParser)
    ensures ParseOrigin(origin, d, parse).Some? <==> OriginFits(origin, d, parse)
  {
    NoWildcardWithoutStar(origin);
    FindSpec(origin, "://*.");
    if Contains(origin, "://*.") {
      var at := Find(origin, "://*.").value;
      WildcardAccepted(origin, d, parse, at);
      forall i: nat | i <= |origin| && FirstAt(origin, "://*.", i)
        ensures i == at
      {
        FirstAtIsUnique(origin, "://*.", i, at);
      }
    } else {
      PlainAccepted(origin, d, parse);
      assert forall i: nat :: i <= |origin| ==> !FirstAt(origin, "://*.", i);
    }
  }

  lemma TwoSlashes(s: string)
    requires EndsWith(s, "/") && EndsWith(StripSlash(s), "/")
    ensures EndsWith(s, "//")
  {
    var n := |s| - 1;
    assert s[n..] == "/" && s[..n][n - 1..] == "/";
    assert s[n - 1..] == s[..n][n - 1..] + s[n..];
  }

  lemma AddedSlash(s: string)
    ensures StripSlash(s + "/") == s
    ensures EndsWith(s, "/") ==> EndsWith(s + "/", "//")
  {
    var longer := s + "/";
    assert longer[|s|..] == "/" && longer[..|s|] == s;
    if EndsWith(s, "/") {
      assert longer[|longer| - 2..] == s[|s| - 1..] + "/";
    }
  }

  /** An accepted entry is the spelling less at most one slash, and never ends in one. */
  lemma AcceptedEntry(origin: string, d: Directive, parse: UrlParser)
    requires ParseOrigin(origin, d, parse).Some?
    ensures var entry := ParseOrigin(origin, d, parse).value;
            && !EndsWith(entry, "/") && (origin == entry || origin == entry + "/")
            && ('*' in entry ==> d.Resource?)
  {
    if EndsWith(origin, "/") {
      var n := |origin| - 1;
      assert origin == origin[..n] + origin[n..];
      if EndsWith(StripSlash(origin), "/") {
        TwoSlashes(origin);
      }
    }
  }

  /** Two accepted spellings give one entry exactly when they differ by a trailing slash at most. */
  lemma TrailingSlashCollapses(origin: string, other: string, d: Directive, e: Directive, parse: UrlParser)
    requires ParseOrigin(origin, d, parse).Some? && ParseOrigin(other, e, parse).Some?
    ensures ParseOrigin(origin, d, parse) == ParseOrigin(other, e, parse) <==>
              origin == other || origin == other + "/" || other == origin + "/"
  {
    AcceptedEntry(origin, d, parse);
    AcceptedEntry(other, e, parse);
    AddedSlash(origin);
    AddedSlash(other);
  }

  function PushUnique(values: seq<string>, value: string): seq<string> {
    if value in values then values else values + [value]
  }

  type AllowCall = (Directive, string)

  /** The entries a list of accepted calls gives one directive, in call order. */
  function EntriesFor(calls: seq<AllowCall>, d: Directive, parse: UrlParser): seq<string> {
    if calls == [] then []
    else
      var (directive, origin) := calls[|calls| - 1];
      var entry := ParseOrigin(origin, directive, parse);
      EntriesFor(calls[..|calls| - 1], d, parse) + if directive == d && entry.Some? then [entry.value] else []
  }

  class ResourceCsp {
    var connectDomains: seq<string>
    var resourceDomains: seq<string>
    var frameDomains: seq<string>
    var baseUriDomains: seq<string>

    constructor ()
      ensures forall d :: ListOf(d) == []
    {
      connectDomains, resourceDomains, frameDomains, baseUriDomains := [], [], [], [];
    }

    function ListOf(d: Directive): seq<string>
      reads this
    {
      match d
      case Connect => connectDomains
      case Resource => resourceDomains
      case Frame => frameDomains
      case BaseUri => baseUriDomains
    }

    /** `allow_connect`, `allow_resource`, `allow_frame` and `allow_base_uri`. */
    method Allow(d: Directive, origin: string, parse: UrlParser) returns (ok: bool)
      modifies this
      ensures ok <==> OriginFits(origin, d, parse)
      ensures ok <==> ParseOrigin(origin, d, parse).Some?
      ensures forall e :: ListOf(e) ==
                if ok && e == d then PushUnique(old(ListOf(e)), ParseOrigin(origin, d, parse).value) else old(ListOf(e))
    {
      var entry := ParseOrigin(origin, d, parse);
      OriginsAcceptedExactly(origin, d, parse);
      if entry.None? {
        return false;
      }
      match d {
        case Connect => connectDomains := PushUnique(connectDomains, entry.value);
        case Resource => resourceDomains := PushUnique(resourceDomains, entry.value);
        case Frame => frameDomains := PushUnique(frameDomains, entry.value);
        case BaseUri => baseUriDomains := PushUnique(baseUriDomains, entry.value);
      }
      ok := true;
    }

    /** The lists are what the accepted calls so far give. */
    ghost predicate Reflects(calls: seq<AllowCall>, parse: UrlParser)
      reads this
    {
      forall d :: ListOf(d) == FirstOccurrences(EntriesFor(calls, d, parse))
    }

    /** The next call of a chain. */
    method AllowNext(calls: seq<AllowCall>, i: nat, parse: UrlParser) returns (ok: bool)
      requires i < |calls| && Reflects(calls[..i], parse)
      modifies this
      ensures ok <==> ParseOrigin(calls[i].1, calls[i].0, parse).Some?
      ensures ok ==> Reflects(calls[..i + 1], parse)
    {
      ok := Allow(calls[i].0, calls[i].1, parse);
      assert calls[..i + 1][..i] == calls[..i];
      EntriesStep(calls[..i + 1], parse);
    }

    /** A chain of calls on an empty value, which stops at the first refused one. */
    method AllowAll(calls: seq<AllowCall>, parse: UrlParser) returns (ok: bool)
      requires forall d :: ListOf(d) == []
      modifies this
      ensures ok <==> forall i :: 0 <= i < |calls| ==> ParseOrigin(calls[i].1, calls[i].0, parse).Some?
      ensures ok ==> forall d :: ListOf(d) == FirstOccurrences(EntriesFor(calls, d, parse))
    {
      for i := 0 to |calls|
        invariant forall j :: 0 <= j < i ==> ParseOrigin(calls[j].1, calls[j].0, parse).Some?
        invariant Reflects(calls[..i], parse)
      {
        var allowed := AllowNext(calls, i, parse);
        if !allowed {
          return false;
        }
      }
      assert calls[..|calls|] == calls;
      ok := true;
    }
  }

  /** One more accepted call pushes one entry onto its own list. */
  lemma EntriesStep(calls: seq<AllowCall>, parse: UrlParser)
    requires calls != []
    ensures var (directive, origin) := calls[|calls| - 1];
            var entry := ParseOrigin(origin, directive, parse);
            entry.Some? ==> forall d ::
              FirstOccurrences(EntriesFor(calls, d, parse)) ==
              var before := FirstOccurrences(EntriesFor(calls[..|calls| - 1], d, parse));
              if d == directive then PushUnique(before, entry.value) else before
  {
    var (directive, origin) := calls[|calls| - 1];
    var entry := ParseOrigin(origin, directive, parse);
    if entry.Some? {
      forall d
        ensures FirstOccurrences(EntriesFor(calls, d, parse)) ==
                var before := FirstOccurrences(EntriesFor(calls[..|calls| - 1], d, parse));
                if d == directive then PushUnique(before, entry.value) else before
      {
        var s := EntriesFor(calls[..|calls| - 1], d, parse);
        if d == directive {
          assert (s + [entry.value])[..|s|] == s;
        } else {
          assert s + [] == s;
        }
      }
    }
  }

  /** Whatever was allowed, a list has no duplicates, and no entry ends in a slash or stems from another directive. */
  lemma {:induction false} CspListShape(calls: seq<AllowCall>, d: Directive, parse: UrlParser)
    ensures var entries := FirstOccurrences(EntriesFor(calls, d, parse));
            && NoDuplicates(entries)
            && forall x :: x in entries ==>
                 && !EndsWith(x, "/") && ('*' in x ==> d.Resource?)
                 && exists i :: 0 <= i < |calls| && calls[i].0 == d && ParseOrigin(calls[i].1, d, parse) == Some(x)
  {
    FirstOccurrencesIsASet(EntriesFor(calls, d, parse));
    EntriesComeFromCalls(calls, d, parse);
  }

  lemma {:induction false} EntriesComeFromCalls(calls: seq<AllowCall>, d: Directive, parse: UrlParser)
    ensures forall x :: x in EntriesFor(calls, d, parse) ==>
              && !EndsWith(x, "/") && ('*' in x ==> d.Resource?)
              && exists i :: 0 <= i < |calls| && calls[i].0 == d && ParseOrigin(calls[i].1, d, parse) == Some(x)
  {
    if calls == [] {
    } else {
      var n := |calls| - 1;
      EntriesComeFromCalls(calls[..n], d, parse);
      forall x | x in EntriesFor(calls, d, parse)
        ensures !EndsWith(x, "/") && ('*' in x ==> d.Resource?)
        ensures exists i :: 0 <= i < |calls| && calls[i].0 == d && ParseOrigin(calls[i].1, d, parse) == Some(x)
      {
        if x in EntriesFor(calls[..n], d, parse) {
          var i :| 0 <= i < n && calls[..n][i].0 == d && ParseOrigin(calls[..n][i].1, d, parse) == Some(x);
          assert calls[i] == calls[..n][i];
        } else {
          AcceptedEntry(calls[n].1, d, parse);
        }
      }
    }
  }

  // ------------------------------------------------------------------------------------------------------------
  // Dedicated domains
  // ------------------------------------------------------------------------------------------------------------

  predicate BadDomainLabel(s: string) {
    var b := Encode(s);
    || b == [] || |b| > 63 || !AlphanumericByte(b[0]) || !AlphanumericByte(b[|b| - 1])
    || !(forall i :: 0 <= i < |b| ==> LabelByte(b[i]))
  }

  /** `McpAppDomain::new`. */
  function NewDomain(domain: string): Option<string> {
    if domain != "" && |Encode(domain)| <= 253 && Trim(domain) == domain
       && !('/' in domain || ':' in domain || '?' in domain || '#' in domain || '@' in domain)
       && forall l | l in Split(domain, '.') :: !BadDomainLabel(l)
    then Some(domain)
    else None
  }

  /** A label of a host name, over characters (RFC 1035 section 2.3.4 for the length). */
  predicate DomainLabel(s: string) {
    && 1 <= |s| <= 63 && Alphanumeric(s[0]) && Alphanumeric(s[|s| - 1])
    && forall i :: 0 <= i < |s| ==> Alphanumeric(s[i]) || s[i] == '-'
  }

  lemma DomainLabelBytes(s: string)
    ensures BadDomainLabel(s) <==> !DomainLabel(s)
  {
    AsciiEncode(s);
    var b := Encode(s);
    if !BadDomainLabel(s) {
      assert AllAsciiBytes(b);
      assert forall i :: 0 <= i < |s| ==> LabelByte(b[i]) && b[i] == s[i] as int;
    }
    if DomainLabel(s) {
      assert forall i :: 0 <= i < |s| ==> (Alphanumeric(s[i]) || s[i] == '-') && b[i] == s[i] as int;
    }
  }

  predicate DomainChar(c: char) { Alphanumeric(c) || c == '-' || c == '.' }

  lemma {:induction false} TrimNothing(s: string)
    requires forall i :: 0 <= i < |s| ==> DomainChar(s[i])
    ensures Trim(s) == s
  {}

  lemma DomainChars(labels: seq<string>)
    requires forall l :: l in labels ==> DomainLabel(l)
    ensures var d := Join(labels, '.'); forall i :: 0 <= i < |d| ==> DomainChar(d[i])
  {
    CharsOfJoin(labels, '.');
    var d := Join(labels, '.');
    forall i | 0 <= i < |d|
      ensures DomainChar(d[i])
    {
      assert d[i] in d;
      if d[i] != '.' {
        var l :| l in labels && d[i] in l;
        assert DomainLabel(l);
      }
    }
  }

  lemma DomainCharsAreHarmless(s: string)
    requires forall i :: 0 <= i < |s| ==> DomainChar(s[i])
    ensures Trim(s) == s && |Encode(s)| == |s|
    ensures '/' !in s && ':' !in s && '?' !in s && '#' !in s && '@' !in s
  {
    TrimNothing(s);
    AsciiEncode(s);
  }

  /** Well-formed labels make the other checks redundant. */
  lemma LabelsImplyChecks(domain: string)
    requires forall l :: l in Split(domain, '.') ==> DomainLabel(l)
    ensures domain != "" && Trim(domain) == domain && |Encode(domain)| == |domain|
    ensures '/' !in domain && ':' !in domain && '?' !in domain && '#' !in domain && '@' !in domain
  {
    var labels := Split(domain, '.');
    JoinSplit(domain, '.');
    DomainChars(labels);
    DomainCharsAreHarmless(domain);
    assert labels[0] in labels;
  }

  predicate DomainShape(domain: string) {
    |domain| <= 253 && forall l | l in Split(domain, '.') :: DomainLabel(l)
  }

  /** A domain is accepted exactly when it is at most 253 characters of dot-separated host-name labels. */
  lemma DomainGrammar(domain: string)
    ensures NewDomain(domain) == if DomainShape(domain) then Some(domain) else None
  {
    forall l | l in Split(domain, '.')
      ensures BadDomainLabel(l) <==> !DomainLabel(l)
    {
      DomainLabelBytes(l);
    }
    if forall l | l in Split(domain, '.') :: DomainLabel(l) {
      LabelsImplyChecks(domain);
    }
  }

  lemma {:induction false} JoinedLength(labels: seq<string>)
    requires labels != [] && forall l :: l in labels ==> |l| >= 1
    ensures |Join(labels, '.')| >= 2 * |labels| - 1
  {
    if |labels| > 1 {
      assert labels[0] in labels;
      JoinedLength(labels[1..]);
    } else {
      assert labels[0] in labels;
    }
  }

  /** An accepted domain splits into at most 127 labels and rejoins to itself. */
  lemma AcceptedDomain(domain: string)
    requires NewDomain(domain).Some?
    ensures var labels := Split(domain, '.');
            Join(labels, '.') == domain && |labels| <= 127 && forall l :: l in labels ==> DomainLabel(l)
  {
    DomainGrammar(domain);
    JoinSplit(domain, '.');
    JoinedLength(Split(domain, '.'));
  }

  /** Any labels that fit make an accepted domain that splits back into them. */
  lemma JoinedLabelsAreADomain(labels: seq<string>)
    requires labels != [] && (forall l :: l in labels ==> DomainLabel(l)) && |Join(labels, '.')| <= 253
    ensures NewDomain(Join(labels, '.')).Some? && Split(Join(labels, '.'), '.') == labels
  {
    SplitJoin(labels, '.');
    DomainGrammar(Join(labels, '.'));
  }

  // ------------------------------------------------------------------------------------------------------------
  // UI metadata
  // ------------------------------------------------------------------------------------------------------------

  /** `merge_ui_meta`: it fails exactly on metadata that is not an object of conforming keys. */
  method MergeUiMeta(existing: Option<Value>, ui: Value) returns (r: Result<Value, MetaError>)
    ensures r.Ok? <==> MetaConforms(existing)
    ensures r.Ok? ==> r.value.Obj? && EncodeMeta(Some(r.value)) == Ok(Some(r.value))
    ensures r.Ok? ==> forall k :: Get(r.value, k) ==
                        if k == "ui" then Some(ui) else if existing.Some? then Get(existing.value, k) else None
  {
    var merged: Object := [];
    if existing.Some? {
      if !existing.value.Obj? {
        return Err(ExpectedObject);
      }
      merged := existing.value.entries;
    }
    UiKeyAccepted();
    InsertAccepted(merged, "ui", ui);
    ValidateKeysSpec(Insert(merged, "ui", ui));
    forall k
      ensures Lookup(Insert(merged, "ui", ui), k) == if k == "ui" then Some(ui) else Lookup(merged, k)
    {
      InsertLookup(merged, "ui", ui, k);
    }
    merged := Insert(merged, "ui", ui);
    var meta := Obj(merged);
    var _ :- ValidateMetaObject(meta);
    r := Ok(meta);
  }

  lemma UiKeyAccepted()
    ensures Accepted("ui")
  {
    SplitOnceSpec("ui", '/');
    RecogniserIsGrammar("ui");
  }

  lemma {:induction false} InsertAccepted(es: Object, k: string, v: Value)
    requires Accepted(k)
    ensures AllAccepted(Insert(es, k, v)) <==> AllAccepted(es)
  {
    if es == [] {
    } else {
      assert forall j :: 0 < j < |es| ==> es[j] == es[1..][j - 1];
      if es[0].0 == k {
        assert forall j :: 0 < j < |es| ==> Insert(es, k, v)[j] == es[j];
        assert Insert(es, k, v)[0].0 == k;
      } else {
        var ins := Insert(es, k, v);
        InsertAccepted(es[1..], k, v);
        assert ins[0] == es[0] && ins[1..] == Insert(es[1..], k, v);
        assert forall j :: 0 < j < |ins| ==> ins[j] == ins[1..][j - 1];
      }
    }
  }
}
