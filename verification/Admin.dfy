/** What the admin API checks before it changes anything (`admin.rs`). */
module Admin {
  import opened Text
  import opened Utf8
  import opened TokenRecords
  import opened Credentials
  import opened TokenRegistries

  // ---------------------------------------------------------------- validation

  datatype ScopeError = ScopeAndAllRoutes | EmptyScope | UnknownRoutes(routes: seq<string>)

  function Unknown(scope: seq<string>, known: set<string>): seq<string> {
    if scope == [] then []
    else (if scope[0] in known then [] else [scope[0]]) + Unknown(scope[1..], known)
  }

  function ValidateTokenScope(scope: seq<string>, allRoutes: bool, known: set<string>): Option<ScopeError> {
    if allRoutes && scope != [] then Some(ScopeAndAllRoutes)
    else if scope == [] && !allRoutes then Some(EmptyScope)
    else if Unknown(scope, known) != [] then Some(UnknownRoutes(Unknown(scope, known)))
    else None
  }

  predicate Within(scope: seq<string>, known: set<string>) {
    forall i :: 0 <= i < |scope| ==> scope[i] in known
  }

  lemma {:induction false} UnknownEmptyIff(scope: seq<string>, known: set<string>)
    ensures Unknown(scope, known) == [] <==> Within(scope, known)
    ensures forall r :: r in Unknown(scope, known) <==> r in scope && r !in known
  {
    if scope != [] {
      UnknownEmptyIff(scope[1..], known);
      assert scope == [scope[0]] + scope[1..];
      if Unknown(scope, known) == [] {
        forall i | 0 <= i < |scope|
          ensures scope[i] in known
        {
          assert i > 0 ==> scope[i] == scope[1..][i - 1];
        }
      }
    }
  }

  /**
   * A scope passes exactly when it is one of: every route and no list, or a non-empty list of known
   * routes. Either way the legacy migration has nothing to do with the token.
   */
  lemma ScopePassesIff(scope: seq<string>, allRoutes: bool, known: set<string>)
    ensures ValidateTokenScope(scope, allRoutes, known).None? <==>
            (allRoutes <==> scope == []) && Within(scope, known)
    ensures ValidateTokenScope(scope, allRoutes, known).None? ==> scope != [] || allRoutes
    ensures match ValidateTokenScope(scope, allRoutes, known)
            case None => true
            case Some(ScopeAndAllRoutes) => allRoutes && scope != []
            case Some(EmptyScope) => !allRoutes && scope == []
            case Some(UnknownRoutes(routes)) =>
              && !allRoutes && routes != []
              && forall r :: r in routes <==> r in scope && r !in known
  {
    UnknownEmptyIff(scope, known);
  }

  datatype CredsError = OutsideScope(route: string) | NotInStore(route: string) | OtherService(route: string)

  /** Every binding is for a route of the token and names a stored credential of that route. */
  predicate BindingOk(route: string, name: string, scope: seq<string>, allRoutes: bool, entries: Entries) {
    (allRoutes || route in scope) && name in entries && entries[name].service == route
  }

  method ValidateTokenCreds(creds: map<string, string>, scope: seq<string>, allRoutes: bool, store: CredStore)
    returns (error: Option<CredsError>)
    ensures error.None? <==> forall route :: route in creds ==>
            BindingOk(route, creds[route], scope, allRoutes, store.entries)
    ensures error.Some? ==>
              var route := error.value.route;
              && route in creds
              && match error.value
                 case OutsideScope(_) => !allRoutes && route !in scope
                 case NotInStore(_) => (allRoutes || route in scope) && creds[route] !in store.entries
                 case OtherService(_) =>
                   && (allRoutes || route in scope)
                   && creds[route] in store.entries && store.entries[creds[route]].service != route
  {
    var rest := creds.Keys;
    while rest != {}
      invariant rest <= creds.Keys
      invariant forall route :: route in creds.Keys - rest ==>
                BindingOk(route, creds[route], scope, allRoutes, store.entries)
      decreases |rest|
    {
      var route :| route in rest;
      if !allRoutes && route !in scope {
        return Some(OutsideScope(route));
      }
      var service := store.ServiceOf(creds[route]);
      if service.None? {
        return Some(NotInStore(route));
      }
      if service.value != route {
        return Some(OtherService(route));
      }
      rest := rest - {route};
    }
    error := None;
  }

  /** A single safe path component. */
  predicate ValidTokenName(name: string) {
    name != "" && name != "." && name != ".." && Free(name, '/') && Free(name, '\\')
  }

  /** What splits into one component at either slash, and is not a name of no file. */
  lemma ValidTokenNameIff(name: string)
    ensures ValidTokenName(name) <==>
            && name !in {"", ".", ".."}
            && Split(name, '/') == [name] && Split(name, '\\') == [name]
  {
    if Free(name, '/') {
      SplitFree(name, '/');
    }
    if Free(name, '\\') {
      SplitFree(name, '\\');
    }
    if |Split(name, '/')| == 1 {
      SplitSingle(name, '/');
    }
    if |Split(name, '\\')| == 1 {
      SplitSingle(name, '\\');
    }
  }

  predicate ValidCredName(name: string) {
    && 0 < |Encode(name)| <= 128
    && forall i :: 0 <= i < |name| ==>
         'a' <= name[i] <= 'z' || 'A' <= name[i] <= 'Z' || '0' <= name[i] <= '9' || name[i] == '_' || name[i] == '-'
  }

  /** Up to 128 letters, digits, underscores and hyphens, each of which is one byte. */
  lemma ValidCredNameIff(name: string)
    ensures ValidCredName(name) <==>
            && 1 <= |name| <= 128
            && forall i :: 0 <= i < |name| ==>
                 || 'a' <= name[i] <= 'z' || 'A' <= name[i] <= 'Z' || '0' <= name[i] <= '9'
                 || name[i] == '_' || name[i] == '-'
  {
    if Ascii(name) {
      EncodeAscii(name);
    }
  }

  /** What `create_token` lets through to the registry. */
  ghost predicate Admissible(request: Request, known: set<string>, entries: Entries) {
    && ValidTokenName(request.name)
    && ValidateTokenScope(request.scope, request.allRoutes, known).None?
    && forall route :: route in request.creds ==>
         BindingOk(route, request.creds[route], request.scope, request.allRoutes, entries)
  }

  // ---------------------------------------------------------------- handlers

  datatype Status = Ok200 | NoContent204 | BadRequest400 | NotFound404 | Conflict409 | ServerError500

  /**
   * `POST /admin/tokens`: nothing changes unless everything is valid, and the status says which of
   * the outcomes it was.
   */
  method HandleCreateToken(registry: TokenRegistry, store: CredStore, known: set<string>, request: Request,
                           id: Id, token: string, now: int, persistFails: bool) returns (status: Status)
    requires !HasId(registry.tokens, id)
    modifies registry
    ensures status == BadRequest400 <==> !Admissible(request, known, store.entries)
    ensures status == Conflict409 <==>
              Admissible(request, known, store.entries) && old(HasName(registry.tokens, request.name))
    ensures status == ServerError500 <==>
              Admissible(request, known, store.entries) && !old(HasName(registry.tokens, request.name)) && persistFails
    ensures status == Ok200 <==>
              Admissible(request, known, store.entries) && !old(HasName(registry.tokens, request.name)) && !persistFails
    ensures status == Ok200 ==> registry.tokens == old(registry.tokens) + [NewRecord(id, token, now, request)]
    ensures status == Ok200 ==> registry.file == Snapshot(registry.tokens)
    ensures status != Ok200 ==> registry.tokens == old(registry.tokens) && registry.file == old(registry.file)
    ensures old(registry.Exact()) ==> registry.Exact()
  {
    ScopePassesIff(request.scope, request.allRoutes, known);
    if !ValidTokenName(request.name) {
      return BadRequest400;
    }
    if ValidateTokenScope(request.scope, request.allRoutes, known).Some? {
      return BadRequest400;
    }
    var credsError := ValidateTokenCreds(request.creds, request.scope, request.allRoutes, store);
    if credsError.Some? {
      return BadRequest400;
    }
    var r := registry.CreateToken(request, id, token, now, persistFails);
    match r
    case Created(_, _) => status := Ok200;
    case DuplicateName(_) => status := Conflict409;
    case CreateNotPersisted => status := ServerError500;
  }

  /** `DELETE /admin/tokens/{id}`. */
  method HandleRevokeToken(registry: TokenRegistry, id: Id, persistFails: bool) returns (status: Status)
    modifies registry
    ensures status == NotFound404 <==> !old(HasId(registry.tokens, id))
    ensures status == Ok200 <==> old(HasId(registry.tokens, id)) && !persistFails
    ensures status == Ok200 ==> registry.tokens == WithStatus(old(registry.tokens), id, Revoked)
    ensures status == Ok200 ==> registry.file == Snapshot(registry.tokens)
    ensures status != Ok200 ==> status in {NotFound404, ServerError500}
    ensures status != Ok200 ==> registry.tokens == old(registry.tokens) && registry.file == old(registry.file)
    ensures old(registry.Exact()) ==> registry.Exact()
  {
    var r := registry.RevokeToken(id, persistFails);
    match r
    case Found(revoked) => status := if revoked then Ok200 else NotFound404;
    case RevokeNotPersisted => status := ServerError500;
  }

  /** `POST /admin/creds`: an upsert, for known services only. */
  method HandleRegisterCred(store: CredStore, known: set<string>, name: string, service: string, value: string)
    returns (status: Status)
    modifies store
    ensures status == NoContent204 <==> ValidCredName(name) && service in known
    ensures status == NoContent204 || status == BadRequest400
    ensures store.entries ==
              if status == NoContent204 then old(store.entries)[name := ServiceToken(service, value)]
                else old(store.entries)
    ensures old(ServicesKnown(store.entries, known)) ==> ServicesKnown(store.entries, known)
  {
    if !ValidCredName(name) || service !in known {
      return BadRequest400;
    }
    store.Register(name, service, value);
    status := NoContent204;
  }

  /** `DELETE /admin/creds/{name}`: the same answer whether or not the name was there. */
  method HandleDeleteCred(store: CredStore, name: string) returns (status: Status)
    modifies store
    ensures status == NoContent204 && store.entries == old(store.entries) - {name}
  {
    var _ := store.Remove(name);
    status := NoContent204;
  }

  /** Every stored token is for a known service. */
  ghost predicate ServicesKnown(entries: Entries, known: set<string>) {
    forall name :: name in entries ==> entries[name].service in known
  }
}
