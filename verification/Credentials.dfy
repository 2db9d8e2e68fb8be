/** The store of service tokens (`credstore.rs`) and the choice of the upstream credential (`proxy.rs`). */
module Credentials {
  import opened Text
  import opened Tables
  import opened TokenRecords
  import opened Profiles

  datatype ServiceToken = ServiceToken(service: string, value: string)

  type Entries = map<string, ServiceToken>

  function EntryOf(entries: Entries, name: string): Option<ServiceToken> {
    if name in entries then Some(entries[name]) else None
  }

  /** The value under `name`, if it is for this service. */
  function ValueFor(entries: Entries, name: string, service: string): Option<string> {
    match EntryOf(entries, name)
    case None => None
    case Some(t) => if t.service == service then Some(t.value) else None
  }

  // ---------------------------------------------------------------- the store

  type Item = (string, string)

  /** RAM-only store of named service tokens. */
  class CredStore {
    var entries: Entries

    constructor ()
      ensures entries == map[]
    {
      entries := map[];
    }

    /** Inserts or overwrites a named token. */
    method Register(name: string, service: string, value: string)
      modifies this
      ensures entries == old(entries)[name := ServiceToken(service, value)]
    {
      entries := entries[name := ServiceToken(service, value)];
    }

    method Remove(name: string) returns (present: bool)
      modifies this
      ensures present <==> name in old(entries)
      ensures entries == old(entries) - {name}
    {
      present := name in entries;
      entries := entries - {name};
    }

    method GetChecked(name: string, expectedService: string) returns (value: Option<string>)
      ensures value.Some? <==> name in entries && entries[name].service == expectedService
      ensures value.Some? ==> value.value == entries[name].value
    {
      value := ValueFor(entries, name, expectedService);
    }

    method ServiceOf(name: string) returns (service: Option<string>)
      ensures service.Some? <==> name in entries
      ensures service.Some? ==> service.value == entries[name].service
    {
      if name in entries {
        service := Some(entries[name].service);
      } else {
        service := None;
      }
    }

    method GetForService(service: string) returns (value: Option<string>)
      ensures value.Some? <==> service in entries && entries[service].service == service
      ensures value.Some? ==> value.value == entries[service].value
    {
      value := ValueFor(entries, service, service);
    }

    /** Names and services, sorted by name; never a value. */
    method List() returns (items: seq<Item>)
      ensures StrictlySorted(items) && |items| == |entries|
      ensures forall x: Item :: x in items <==> x.0 in entries && x.1 == entries[x.0].service
    {
      items := [];
      var rest := entries.Keys;
      while rest != {}
        invariant rest <= entries.Keys
        invariant StrictlySorted(items) && |items| + |rest| == |entries|
        invariant forall x: Item :: x in items <==> x.0 in entries.Keys - rest && x.1 == entries[x.0].service
        decreases |rest|
      {
        var name :| name in rest;
        var item := (name, entries[name].service);
        assert forall i :: 0 <= i < |items| ==> items[i] in items;
        InsertedHolds(items, item);
        InsertedSorted(items, item);
        items := Inserted(items, item);
        rest := rest - {name};
      }
    }
  }

  // ---------------------------------------------------------------- runs of the store

  datatype StoreEvent = Registered(name: string, service: string, value: string) | Removed(name: string)

  function EntriesAfter(events: seq<StoreEvent>): Entries {
    if events == [] then map[]
    else
      var before := EntriesAfter(events[..|events| - 1]);
      match events[|events| - 1]
      case Registered(name, service, value) => before[name := ServiceToken(service, value)]
      case Removed(name) => before - {name}
  }

  /** Event `k` is the last one about `name`. */
  ghost predicate LastAbout(events: seq<StoreEvent>, name: string, k: nat) {
    k < |events| && events[k].name == name && forall l :: k < l < |events| ==> events[l].name != name
  }

  /** The store holds a token under a name exactly if the last event about the name registered it. */
  lemma {:induction false} EntryFromLast(events: seq<StoreEvent>, name: string, t: ServiceToken)
    ensures EntryOf(EntriesAfter(events), name) == Some(t) <==>
            exists k: nat :: LastAbout(events, name, k) && events[k] == Registered(name, t.service, t.value)
    decreases |events|
  {
    if events != [] {
      var last := |events| - 1;
      var before := events[..last];
      if events[last].name == name {
        assert LastAbout(events, name, last);
        assert forall k: nat :: LastAbout(events, name, k) ==> k == last;
      } else {
        EntryFromLast(before, name, t);
        assert forall k: nat :: LastAbout(events, name, k) <==> LastAbout(before, name, k);
      }
    }
  }

  // ---------------------------------------------------------------- choosing the credential

  predicate SourceAccepts(src: CredentialSource, value: string) {
    && value != ""
    && (src.prefix.None? || StartsWith(value, src.prefix.value))
    && forall i :: 0 <= i < |src.rejectPrefixes| ==> !StartsWith(value, src.rejectPrefixes[i])
  }

  /** The first source, counted from `from`, that accepts what `values` offers it. */
  function FirstAccepting(sources: seq<CredentialSource>, values: CredentialSource -> Option<string>, from: nat)
    : (r: Option<nat>)
    requires from <= |sources|
    ensures r.Some? ==> r.value < |sources| && values(sources[r.value]).Some?
    decreases |sources| - from
  {
    if from == |sources| then None
    else if values(sources[from]).Some? && SourceAccepts(sources[from], values(sources[from]).value) then Some(from)
    else FirstAccepting(sources, values, from + 1)
  }

  /** A credential and the index of the source it is injected through. */
  datatype Credential = Credential(source: nat, value: string)

  function PickSource(sources: seq<CredentialSource>, value: string): Option<Credential> {
    match FirstAccepting(sources, (_: CredentialSource) => Some(value), 0)
    case None => None
    case Some(i) => Some(Credential(i, value))
  }

  type Env = string -> Option<string>

  function ResolveFromEnv(sources: seq<CredentialSource>, preferred: Option<nat>, env: Env): Option<Credential> {
    if preferred.Some? && preferred.value < |sources| && OffersAccepted(sources[preferred.value], env)
    then Some(Credential(preferred.value, env(sources[preferred.value].env).value))
    else
      match FirstAccepting(sources, (src: CredentialSource) => env(src.env), 0)
      case None => None
      case Some(i) => Some(Credential(i, env(sources[i].env).value))
  }

  predicate OffersAccepted(src: CredentialSource, env: Env) {
    env(src.env).Some? && SourceAccepts(src, env(src.env).value)
  }

  /** The name the token binds to the route, if any. */
  function BoundName(record: Option<TokenRecord>, route: string): Option<string> {
    if record.Some? && route in record.value.creds then Some(record.value.creds[route]) else None
  }

  /** The three rules: the bound name or nothing; the service default; the environment. */
  function ResolveCredential(entries: Entries, entry: RouteEntry, record: Option<TokenRecord>, preferred: Option<nat>,
                             env: Env)
    : Option<Credential>
  {
    var route := entry.canonicalRoute;
    match BoundName(record, route)
    case Some(name) =>
      (match ValueFor(entries, name, route)
       case None => None
       case Some(value) => PickSource(entry.sources, value))
    case None =>
      match ValueFor(entries, route, route)
      case Some(value) => PickSource(entry.sources, value)
      case None => ResolveFromEnv(entry.sources, preferred, env)
  }

  // ---------------------------------------------------------------- what the rules amount to

  /** A source takes a value that is not empty, begins with its prefix and with none of those it rejects. */
  lemma SourceAcceptsIff(src: CredentialSource, value: string)
    ensures SourceAccepts(src, value) <==>
            && value != ""
            && (src.prefix.Some? ==> exists rest :: value == src.prefix.value + rest)
            && forall i, rest :: 0 <= i < |src.rejectPrefixes| ==> value != src.rejectPrefixes[i] + rest
  {
    if src.prefix.Some? {
      StartsWithIff(value, src.prefix.value);
    }
    forall i | 0 <= i < |src.rejectPrefixes|
      ensures StartsWith(value, src.rejectPrefixes[i]) <==> exists rest :: value == src.rejectPrefixes[i] + rest
    {
      StartsWithIff(value, src.rejectPrefixes[i]);
    }
  }

  predicate IsFirstAccepting(sources: seq<CredentialSource>, value: string, i: nat) {
    && i < |sources| && SourceAccepts(sources[i], value)
    && forall j :: 0 <= j < i ==> !SourceAccepts(sources[j], value)
  }

  lemma {:induction false} FirstAcceptingIs(sources: seq<CredentialSource>,
                                            values: CredentialSource -> Option<string>, from: nat)
    requires from <= |sources|
    ensures match FirstAccepting(sources, values, from)
            case Some(i) =>
              && from <= i < |sources| && values(sources[i]).Some?
              && SourceAccepts(sources[i], values(sources[i]).value)
              && forall j :: from <= j < i && values(sources[j]).Some? ==>
                   !SourceAccepts(sources[j], values(sources[j]).value)
            case None =>
              forall j :: from <= j < |sources| && values(sources[j]).Some? ==>
                !SourceAccepts(sources[j], values(sources[j]).value)
    decreases |sources| - from
  {
    if from < |sources| {
      FirstAcceptingIs(sources, values, from + 1);
    }
  }

  lemma PickSourceIs(sources: seq<CredentialSource>, value: string, c: Credential)
    ensures PickSource(sources, value) == Some(c) <==> c.value == value && IsFirstAccepting(sources, value, c.source)
  {
    FirstAcceptingIs(sources, (_: CredentialSource) => Some(value), 0);
  }

  /** The last event about the name registered this value for this service. */
  ghost predicate LastRegistered(events: seq<StoreEvent>, name: string, service: string, value: string) {
    exists k: nat :: LastAbout(events, name, k) && events[k] == Registered(name, service, value)
  }

  lemma StoredValue(events: seq<StoreEvent>, name: string, service: string, value: string)
    ensures ValueFor(EntriesAfter(events), name, service) == Some(value) <==>
            LastRegistered(events, name, service, value)
  {
    EntryFromLast(events, name, ServiceToken(service, value));
  }

  /**
   * If the token binds the route to a name, the result is the value last registered under that name,
   * for this route, and not removed since, at the first source that accepts it. There is no other:
   * neither the default nor the environment plays a part.
   */
  lemma BoundCredentialIff(events: seq<StoreEvent>, entry: RouteEntry, r: TokenRecord, preferred: Option<nat>,
                           env: Env, c: Credential)
    requires entry.canonicalRoute in r.creds
    ensures var route := entry.canonicalRoute;
            ResolveCredential(EntriesAfter(events), entry, Some(r), preferred, env) == Some(c) <==>
              && IsFirstAccepting(entry.sources, c.value, c.source)
              && LastRegistered(events, r.creds[route], route, c.value)
  {
    var route, entries := entry.canonicalRoute, EntriesAfter(events);
    var name := r.creds[route];
    StoredValue(events, name, route, c.value);
    if ValueFor(entries, name, route).Some? {
      PickSourceIs(entry.sources, ValueFor(entries, name, route).value, c);
    }
  }

  /** If it does not, and the route's own name is registered for the route, the result is that value. */
  lemma DefaultCredentialIff(events: seq<StoreEvent>, entry: RouteEntry, record: Option<TokenRecord>,
                             preferred: Option<nat>, env: Env, value: string, c: Credential)
    requires record.None? || entry.canonicalRoute !in record.value.creds
    requires LastRegistered(events, entry.canonicalRoute, entry.canonicalRoute, value)
    ensures ResolveCredential(EntriesAfter(events), entry, record, preferred, env) == Some(c) <==>
            c.value == value && IsFirstAccepting(entry.sources, value, c.source)
  {
    StoredValue(events, entry.canonicalRoute, entry.canonicalRoute, value);
    PickSourceIs(entry.sources, value, c);
  }

  /** Only the store entry of one name matters: the bound name, or else the route's own. */
  lemma OneNameDecides(a: Entries, b: Entries, entry: RouteEntry, record: Option<TokenRecord>, preferred: Option<nat>,
                       env: Env)
    requires var route := entry.canonicalRoute;
             var name := if record.Some? && route in record.value.creds then record.value.creds[route] else route;
             (name in a <==> name in b) && (name in a ==> a[name] == b[name])
    ensures ResolveCredential(a, entry, record, preferred, env) == ResolveCredential(b, entry, record, preferred, env)
  {
  }

  /** A binding, or a registered default, shuts the environment out. */
  lemma EnvironmentShutOut(entries: Entries, entry: RouteEntry, record: Option<TokenRecord>,
                           preferred: Option<nat>, env: Env, other: Option<nat>, otherEnv: Env)
    requires var route := entry.canonicalRoute;
             || (record.Some? && route in record.value.creds)
             || (route in entries && entries[route].service == route)
    ensures ResolveCredential(entries, entry, record, preferred, env)
            == ResolveCredential(entries, entry, record, other, otherEnv)
  {
  }

  /** The source's variable has this value, and the source takes it. */
  predicate Offers(src: CredentialSource, env: Env, value: string) {
    env(src.env) == Some(value) && SourceAccepts(src, value)
  }

  ghost predicate OffersNothing(src: CredentialSource, env: Env) {
    forall value :: !Offers(src, env, value)
  }

  lemma OffersSome(src: CredentialSource, env: Env)
    ensures OffersAccepted(src, env) <==> !OffersNothing(src, env)
  {
    if env(src.env).Some? {
      assert SourceAccepts(src, env(src.env).value) <==> Offers(src, env, env(src.env).value);
    }
  }

  /**
   * Without a binding and without a default, the environment decides: the preferred source if its
   * variable is acceptable to it, else the first source whose variable is.
   */
  lemma EnvironmentCredentialIff(entries: Entries, entry: RouteEntry, record: Option<TokenRecord>,
                                 preferred: Option<nat>, env: Env, c: Credential)
    requires record.None? || entry.canonicalRoute !in record.value.creds
    requires entry.canonicalRoute in entries ==> entries[entry.canonicalRoute].service != entry.canonicalRoute
    ensures ResolveCredential(entries, entry, record, preferred, env) == Some(c) <==>
            var sources := entry.sources;
            && c.source < |sources| && Offers(sources[c.source], env, c.value)
            && (preferred != Some(c.source) ==>
                  && (preferred.Some? && preferred.value < |sources| ==> OffersNothing(sources[preferred.value], env))
                  && forall j :: 0 <= j < c.source ==> OffersNothing(sources[j], env))
  {
    FirstAcceptingIs(entry.sources, (src: CredentialSource) => env(src.env), 0);
    forall j | 0 <= j < |entry.sources|
      ensures OffersAccepted(entry.sources[j], env) <==> !OffersNothing(entry.sources[j], env)
    {
      OffersSome(entry.sources[j], env);
    }
  }

  /** Whatever rule applies, the value is one its source accepts: never empty, never a rejected prefix. */
  lemma ResolvedIsAccepted(entries: Entries, entry: RouteEntry, record: Option<TokenRecord>, preferred: Option<nat>,
                           env: Env)
    ensures var r := ResolveCredential(entries, entry, record, preferred, env);
            r.Some? ==> r.value.source < |entry.sources| && SourceAccepts(entry.sources[r.value.source], r.value.value)
  {
    var r, route := ResolveCredential(entries, entry, record, preferred, env), entry.canonicalRoute;
    if r.Some? {
      if BoundName(record, route).Some? || ValueFor(entries, route, route).Some? {
        PickSourceIs(entry.sources, r.value.value, r.value);
      } else {
        EnvironmentCredentialIff(entries, entry, record, preferred, env, r.value);
      }
    }
  }
}
