/** Protocol extension declarations and their negotiation. */
module Extensions {
  import opened Prelude
  import opened Text
  import opened Json
  import opened MetaKeys

  type Settings = map<string, Value>

  datatype Declaration = Declaration(identifier: string, settings: Value)

  /** `ExtensionDeclaration::new`; the settings are `None` when they do not serialize. */
  function NewDeclaration(identifier: string, settings: Option<Value>): Result<Declaration, MetaError> {
    var _ :- ValidateExtensionIdentifier(identifier);
    if settings.None? || !settings.value.Obj? then Err(InvalidExtensionSettings(identifier))
    else Ok(Declaration(identifier, settings.value))
  }

  /** One entry of a capability map, as the wire validation sees it. */
  function ValidateEntry(identifier: string, settings: Value): Validation {
    var _ :- ValidateExtensionIdentifier(identifier);
    if settings.Obj? then Ok(()) else Err(InvalidExtensionSettings(identifier))
  }

  /** A prefixed, accepted identifier and settings that are an object. */
  predicate ValidEntry(identifier: string, settings: Value) {
    Accepted(identifier) && Count(identifier, '/') == 1 && settings.Obj?
  }

  lemma EntryIsChecked(identifier: string, settings: Value)
    ensures ValidateEntry(identifier, settings).Ok? <==> ValidEntry(identifier, settings)
  {
    AcceptedKeyShape(identifier);
  }

  /** A declaration is built exactly from an entry that is valid, and carries what it was given. */
  lemma DeclarationIsExact(identifier: string, settings: Option<Value>, d: Declaration)
    ensures NewDeclaration(identifier, settings) == Ok(d) <==>
              d.identifier == identifier && settings == Some(d.settings) && ValidEntry(identifier, d.settings)
    ensures '/' !in identifier ==> NewDeclaration(identifier, settings) == Err(MissingExtensionPrefix(identifier))
    ensures '/' in identifier && !Accepted(identifier) ==>
              NewDeclaration(identifier, settings) == Err(ValidateMetaKey(identifier).error)
    ensures '/' in identifier && Accepted(identifier) && (settings.None? || !settings.value.Obj?) ==>
              NewDeclaration(identifier, settings) == Err(InvalidExtensionSettings(identifier))
  {
    AcceptedKeyShape(identifier);
    CountAbsent(identifier, '/');
  }

  predicate WireValid(m: Settings) { forall k | k in m :: ValidateEntry(k, m[k]).Ok? }

  /** `validate_extensions`: the map has no fixed order, so some invalid entry is reported when there is one. */
  method ValidateExtensions(m: Settings) returns (r: Validation)
    ensures r.Ok? <==> WireValid(m)
    ensures r.Ok? <==> forall k :: k in m ==> ValidEntry(k, m[k])
    ensures r.Err? ==> exists k :: k in m && ValidateEntry(k, m[k]) == r
  {
    var pending := m.Keys;
    while pending != {}
      invariant pending <= m.Keys
      invariant forall k :: k in m && k !in pending ==> ValidateEntry(k, m[k]).Ok? && ValidEntry(k, m[k])
      decreases pending
    {
      var k :| k in pending;
      EntryIsChecked(k, m[k]);
      var entry := ValidateEntry(k, m[k]);
      if entry.Err? {
        return entry;
      }
      pending := pending - {k};
    }
    r := Ok(());
  }

  // ------------------------------------------------------------------------------------------------------------
  // Negotiation
  // ------------------------------------------------------------------------------------------------------------

  datatype Negotiated = Negotiated(client: Value, server: Value) {
    function Swapped(): Negotiated { Negotiated(server, client) }
  }

  /** An identifier is negotiated when both sides declare it, it is a valid identifier, and both settings are objects. */
  predicate Shared(k: string, client: Settings, server: Settings) {
    k in client && k in server && ValidateExtensionIdentifier(k).Ok? && client[k].Obj? && server[k].Obj?
  }

  function Negotiation(client: Settings, server: Settings): map<string, Negotiated> {
    map k | k in client && Shared(k, client, server) :: Negotiated(client[k], server[k])
  }

  /** `NegotiatedExtensions::from_maps`, for every order in which the client map may be iterated. */
  method FromMaps(client: Option<Settings>, server: Option<Settings>) returns (extensions: map<string, Negotiated>)
    ensures forall k :: k in extensions <==>
              && client.Some? && server.Some? && k in client.value && k in server.value
              && ValidEntry(k, client.value[k]) && ValidEntry(k, server.value[k])
    ensures forall k :: k in extensions ==>
              extensions[k].client == client.value[k] && extensions[k].server == server.value[k]
    ensures client.Some? && server.Some? ==> extensions == Negotiation(client.value, server.value)
  {
    extensions := map[];
    if client.None? || server.None? {
      return;
    }
    var clientMap, serverMap := client.value, server.value;
    var pending := clientMap.Keys;
    while pending != {}
      invariant pending <= clientMap.Keys
      invariant forall k :: k in extensions <==> k !in pending && Shared(k, clientMap, serverMap)
      invariant forall k :: k in extensions ==> extensions[k] == Negotiated(clientMap[k], serverMap[k])
      invariant forall k :: k in extensions ==> ValidEntry(k, clientMap[k])
      invariant forall k :: k in clientMap && k in serverMap && k !in pending ==>
                  (ValidEntry(k, clientMap[k]) && ValidEntry(k, serverMap[k]) ==> Shared(k, clientMap, serverMap))
      decreases pending
    {
      var identifier :| identifier in pending;
      pending := pending - {identifier};
      EntryIsChecked(identifier, clientMap[identifier]);
      if identifier !in serverMap {
        continue;
      }
      if ValidateExtensionIdentifier(identifier).Err? || !clientMap[identifier].Obj? || !serverMap[identifier].Obj? {
        continue;
      }
      extensions := extensions[identifier := Negotiated(clientMap[identifier], serverMap[identifier])];
    }
  }

  /** Swapping the peers swaps the settings and nothing else. */
  lemma NegotiationIsSymmetric(a: Settings, b: Settings)
    ensures Negotiation(b, a) == map k | k in Negotiation(a, b) :: Negotiation(a, b)[k].Swapped()
  {}

  /** The map a peer advertises from a list of declarations; a later one replaces an earlier. */
  function Advertised(ds: seq<Declaration>): Settings {
    if ds == [] then map[]
    else
      var last := ds[|ds| - 1];
      Advertised(ds[..|ds| - 1])[last.identifier := last.settings]
  }

  predicate Constructed(d: Declaration) { NewDeclaration(d.identifier, Some(d.settings)) == Ok(d) }

  /** What a declaration list advertises is wire-valid. */
  lemma {:induction false} AdvertisedIsWireValid(ds: seq<Declaration>)
    requires forall d :: d in ds ==> Constructed(d)
    ensures WireValid(Advertised(ds))
    ensures Advertised(ds).Keys == set d | d in ds :: d.identifier
  {
    if ds == [] {
    } else {
      var n := |ds| - 1;
      AdvertisedIsWireValid(ds[..n]);
      assert ds == ds[..n] + [ds[n]];
      assert Constructed(ds[n]);
      assert (set d | d in ds :: d.identifier) == (set d | d in ds[..n] :: d.identifier) + {ds[n].identifier};
    }
  }

  /** Between two such peers the negotiated identifiers are exactly the intersection. */
  lemma {:induction false} DeclaredNegotiationIsIntersection(a: seq<Declaration>, b: seq<Declaration>)
    requires forall d :: d in a ==> Constructed(d)
    requires forall d :: d in b ==> Constructed(d)
    ensures Negotiation(Advertised(a), Advertised(b)).Keys ==
            (set d | d in a :: d.identifier) * (set d | d in b :: d.identifier)
  {
    AdvertisedIsWireValid(a);
    AdvertisedIsWireValid(b);
    var x, y := Advertised(a), Advertised(b);
    forall k
      ensures k in Negotiation(x, y) <==> k in x && k in y
    {
      if k in x && k in y {
        assert ValidateEntry(k, x[k]).Ok? && ValidateEntry(k, y[k]).Ok?;
      }
    }
  }
}
