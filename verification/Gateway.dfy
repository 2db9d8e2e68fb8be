/** A proxied request from the auth middleware to the upstream request, and what holds end to end. */
module Gateway {
  import opened Text
  import opened TokenRecords
  import opened RegistryModel
  import opened RegistryMachine
  import opened RegistryRuns
  import opened Revocations
  import opened Profiles
  import opened Routing
  import opened Credentials
  import opened Headers
  import opened Auth
  import opened Admin

  /** `panicked` is the slice past the end of a path without a slash. */
  datatype Response =
    | Forwarded(url: string, headers: Fields)
    | Forbidden | Unauthenticated(git: bool) | NotFound | NoCredential | BadGateway | Panicked

  /**
   * What a request meets: the table, the registry if there is one, the store, the environment, and
   * how a URL parses (its host, or nothing if it does not parse).
   */
  datatype Context = Context(
    routes: seq<Row>, tokens: Option<seq<TokenRecord>>, entries: Entries, env: Env, hostOf: string -> Option<string>)

  function UpstreamUrl(entry: RouteEntry, upstreamPath: string, credential: string, query: string): string {
    match entry.injectMode
    case Header => entry.upstream + upstreamPath + query
    case UrlPath =>
      entry.upstream + (if entry.urlPathPrefix.Some? then entry.urlPathPrefix.value else "") + credential
        + upstreamPath + query
  }

  /** `proxy_handler`, for a request the middleware let through. */
  function Proxy(cx: Context, auth: PhantomAuth, path: string, query: string, h: Fields): Response {
    match ResolveRoute(cx.routes, path)
    case OutOfRange => Panicked
    case Unresolved => NotFound
    case Resolved(entry, upstreamPath) =>
      match ResolveCredential(cx.entries, entry, auth.record, auth.preferredSource, cx.env)
      case None => NoCredential
      case Some(c) =>
        ResolvedIsAccepted(cx.entries, entry, auth.record, auth.preferredSource, cx.env);
        var url := UpstreamUrl(entry, upstreamPath, c.value, query);
        match cx.hostOf(url)
        case None => BadGateway
        case Some(host) =>
          var src := entry.sources[c.source];
          Forwarded(url, Rewritten(h, entry.sources, auth.header, entry.injectMode, src, c.value, host))
  }

  function Handle(cx: Context, phantom: Option<PhantomAuth>, path: string, query: string, h: Fields): Response {
    if ResolveRoute(cx.routes, path).OutOfRange? then Panicked
    else
      match Decide(cx.routes, cx.tokens, phantom, path, h)
      case Forbidden403 => Forbidden
      case Unauthorized401 => Unauthenticated(true)
      case ProxyAuthRequired407 => Unauthenticated(false)
      case Next(auth) => Proxy(cx, auth, path, query, h)
  }

  // ---------------------------------------------------------------- exactly what is authorised is forwarded

  /**
   * The upstream, the path and the query; in URL mode, the URL path prefix and the credential stand
   * before the path.
   */
  predicate IsUrl(entry: RouteEntry, upstreamPath: string, credential: string, query: string, url: string) {
    match (entry.injectMode, entry.urlPathPrefix)
    case (Header, _) => url == entry.upstream + upstreamPath + query
    case (UrlPath, None) => url == entry.upstream + credential + upstreamPath + query
    case (UrlPath, Some(prefix)) => url == entry.upstream + prefix + credential + upstreamPath + query
  }

  lemma UpstreamUrlIs(entry: RouteEntry, upstreamPath: string, credential: string, query: string, url: string)
    ensures IsUrl(entry, upstreamPath, credential, query, url) <==>
            url == UpstreamUrl(entry, upstreamPath, credential, query)
  {
    if entry.injectMode == UrlPath && entry.urlPathPrefix.None? {
      assert entry.upstream + "" == entry.upstream;
    }
  }

  /**
   * The `i`-th candidate of the request is the first that validates, its record allows the route,
   * and `url` and `headers` are made with the credential that record resolves to.
   */
  ghost predicate ForwardedFor(cx: Context, path: string, query: string, h: Fields, i: nat, url: string,
                               headers: Fields)
  {
    && cx.tokens.Some? && ResolveRoute(cx.routes, path).Resolved?
    && var entry := ResolveRoute(cx.routes, path).entry;
       var candidates := RequestCandidates(h, entry.sources);
       && FirstValid(cx.tokens.value, candidates, i)
       && var record := Validate(cx.tokens.value, candidates[i].token);
          var found := ResolveCredential(cx.entries, entry, record, None, cx.env);
          && (record.value.allRoutes || entry.canonicalRoute in record.value.scope)
          && found.Some? && found.value.source < |entry.sources|
          && var c := found.value;
             && IsUrl(entry, ResolveRoute(cx.routes, path).upstreamPath, c.value, query, url)
             && cx.hostOf(url).Some?
             && headers == Rewritten(h, entry.sources, candidates[i].header, entry.injectMode,
                                     entry.sources[c.source], c.value, cx.hostOf(url).value)
  }

  /**
   * Without the fallback token, a request is forwarded exactly for the record of its first candidate
   * that validates, if that record allows the canonical route and resolves to a credential, and then
   * with that credential and nothing else in its place.
   */
  lemma ForwardedIff(cx: Context, path: string, query: string, h: Fields, url: string, headers: Fields)
    ensures Handle(cx, None, path, query, h) == Forwarded(url, headers) <==>
            exists i: nat :: ForwardedFor(cx, path, query, h, i, url, headers)
  {
    if Handle(cx, None, path, query, h) == Forwarded(url, headers) {
      var i := ForwardedForSome(cx, path, query, h);
    }
    if exists i: nat :: ForwardedFor(cx, path, query, h, i, url, headers) {
      var i: nat :| ForwardedFor(cx, path, query, h, i, url, headers);
      ForwardedForForwards(cx, path, query, h, i, url, headers);
    }
  }

  lemma ForwardedForSome(cx: Context, path: string, query: string, h: Fields) returns (i: nat)
    ensures var out := Handle(cx, None, path, query, h);
            out.Forwarded? ==> ForwardedFor(cx, path, query, h, i, out.url, out.headers)
  {
    i := 0;
    if Handle(cx, None, path, query, h).Forwarded? {
      var entry := ResolveRoute(cx.routes, path).entry;
      var candidates := RequestCandidates(h, entry.sources);
      FindRegistryAuthIs(cx.tokens.value, candidates);
      var auth := FindRegistryAuth(cx.tokens.value, candidates).value;
      i :| FirstValid(cx.tokens.value, candidates, i)
        && auth == PhantomAuth(candidates[i].header, None, Validate(cx.tokens.value, candidates[i].token));
      ResolvedIsAccepted(cx.entries, entry, auth.record, None, cx.env);
      var c := ResolveCredential(cx.entries, entry, auth.record, None, cx.env).value;
      UpstreamUrlIs(entry, ResolveRoute(cx.routes, path).upstreamPath, c.value, query,
                    Handle(cx, None, path, query, h).url);
    }
  }

  lemma ForwardedForForwards(cx: Context, path: string, query: string, h: Fields, i: nat, url: string, headers: Fields)
    ensures ForwardedFor(cx, path, query, h, i, url, headers) ==>
            Handle(cx, None, path, query, h) == Forwarded(url, headers)
  {
    if ForwardedFor(cx, path, query, h, i, url, headers) {
      var entry := ResolveRoute(cx.routes, path).entry;
      var candidates := RequestCandidates(h, entry.sources);
      FirstValidFound(cx.tokens.value, candidates, i);
      var record := Validate(cx.tokens.value, candidates[i].token);
      var c := ResolveCredential(cx.entries, entry, record, None, cx.env).value;
      UpstreamUrlIs(entry, ResolveRoute(cx.routes, path).upstreamPath, c.value, query, url);
    }
  }

  /**
   * Then the record is an active one of the registry, the request presents its token in a header
   * that is searched on this route, and the credential is one that the source it is injected through
   * accepts.
   */
  lemma ForwardedIsAuthorised(cx: Context, path: string, query: string, h: Fields, i: nat, url: string, headers: Fields)
    ensures ForwardedFor(cx, path, query, h, i, url, headers) ==>
              var entry := ResolveRoute(cx.routes, path).entry;
              var candidate := RequestCandidates(h, entry.sources)[i];
              var record := Validate(cx.tokens.value, candidate.token);
              var c := ResolveCredential(cx.entries, entry, record, None, cx.env).value;
              && record.value in cx.tokens.value && Authenticates(record.value, candidate.token)
              && (exists includeRaw :: Searched(entry.sources, candidate.header, includeRaw)
                                       && Presented(h, candidate.header, includeRaw, candidate.token))
              && SourceAccepts(entry.sources[c.source], c.value)
  {
    if ForwardedFor(cx, path, query, h, i, url, headers) {
      var entry := ResolveRoute(cx.routes, path).entry;
      var candidate := RequestCandidates(h, entry.sources)[i];
      RequestCandidatesAre(h, entry.sources, candidate);
      ResolvedIsAccepted(cx.entries, entry, Validate(cx.tokens.value, candidate.token), None, cx.env);
    }
  }

  /**
   * Nothing the client sent under a header of the route's sources, under the header its token was
   * found in or under `host` has any influence on what is forwarded there: it is what a request
   * without headers would be given. Under a name no extra header of the selected source has, that is
   * the one value made of the credential, or nothing.
   */
  lemma CredentialHeadersReplaced(cx: Context, auth: PhantomAuth, path: string, query: string, h: Fields, n: string)
    requires Proxy(cx, auth, path, query, h).Forwarded?
    requires n in CredentialNames(ResolveRoute(cx.routes, path).entry.sources, auth.header) || n == "host"
    ensures Proxy(cx, auth, path, query, map[]).Forwarded?
    ensures AgreeAt(Proxy(cx, auth, path, query, h).headers, Proxy(cx, auth, path, query, map[]).headers, n)
    ensures var entry := ResolveRoute(cx.routes, path).entry;
            var c := ResolveCredential(cx.entries, entry, auth.record, auth.preferredSource, cx.env).value;
            var out := Proxy(cx, auth, path, query, h).headers;
            && c.source < |entry.sources|
            && (n != "host" && n !in ExtraNames(entry.sources[c.source].extraHeaders) ==>
                  && (n in out <==>
                        entry.injectMode == Header && NormName(entry.sources[c.source].injectHeader) == Some(n))
                  && (n in out ==> out[n] == [OrEmpty(FromStr(InjectText(entry.sources[c.source], c.value)))]))
  {
    var entry := ResolveRoute(cx.routes, path).entry;
    ResolvedIsAccepted(cx.entries, entry, auth.record, auth.preferredSource, cx.env);
    var c := ResolveCredential(cx.entries, entry, auth.record, auth.preferredSource, cx.env).value;
    var host := cx.hostOf(Proxy(cx, auth, path, query, h).url).value;
    CredentialHeadersFromNothing(h, entry.sources, auth.header, entry.injectMode, entry.sources[c.source], c.value,
                                 host, n);
    if n != "host" && n !in ExtraNames(entry.sources[c.source].extraHeaders) {
      CredentialHeadersAreOurs(h, entry.sources, auth.header, entry.injectMode, c.source, c.value, host, n);
    }
  }

  // ---------------------------------------------------------------- the status of an unrouted path

  /**
   * A path that does not resolve: with a token that authenticates and whose scope the admin API could
   * have issued, 404 for a token of all routes and 403 for any other; without one, 401 or 407.
   */
  lemma UnroutedStatus(profile: Profile, cx: Context, phantom: Option<PhantomAuth>, path: string, query: string,
                       h: Fields)
    requires TableOf(cx.routes, Rows(profile)) && ResolveRoute(cx.routes, path) == Unresolved
    requires var auth := RegistryAuth(cx.tokens, h, []);
             auth.Some? && auth.value.record.Some? ==> Within(auth.value.record.value.scope, KnownRoutes(cx.routes))
    ensures Handle(cx, phantom, path, query, h) ==
            match RegistryAuth(cx.tokens, h, [])
            case None => Unauthenticated(IsGitSmartHttp(path))
            case Some(auth) => if auth.record.Some? && !auth.record.value.allRoutes then Forbidden else NotFound
  {
    UnresolvedIsUnknown(profile, cx.routes, path);
    var auth := RegistryAuth(cx.tokens, h, []);
    if auth.Some? && auth.value.record.Some? {
      NotInScope(auth.value.record.value.scope, KnownRoutes(cx.routes), FirstSegment(path));
    }
    HandleUnrouted(cx, phantom, path, query, h);
  }

  lemma HandleUnrouted(cx: Context, phantom: Option<PhantomAuth>, path: string, query: string, h: Fields)
    requires ResolveRoute(cx.routes, path) == Unresolved
    ensures Handle(cx, phantom, path, query, h) ==
            match RegistryAuth(cx.tokens, h, [])
            case None => Unauthenticated(IsGitSmartHttp(path))
            case Some(auth) =>
              if auth.record.Some? && !auth.record.value.AllowsRoute(FirstSegment(path)) then Forbidden else NotFound
  {
  }

  lemma NotInScope(scope: seq<string>, known: set<string>, route: string)
    requires Within(scope, known) && route !in known
    ensures route !in scope
  {
    forall i | 0 <= i < |scope|
      ensures scope[i] != route
    {
      assert scope[i] in known;
    }
  }

  // ---------------------------------------------------------------- the registry behind it

  /** Every create of the run asked for what the admin API lets through. */
  ghost predicate Admitted(trace: seq<Event>, known: set<string>) {
    forall i :: 0 <= i < |trace| && trace[i].BeginCreate? ==>
      ValidateTokenScope(trace[i].request.scope, trace[i].request.allRoutes, known).None?
  }

  ghost predicate AllWithin(records: seq<TokenRecord>, known: set<string>) {
    forall i :: 0 <= i < |records| ==> Within(records[i].scope, known)
  }

  lemma {:induction false} WithStatusWithin(records: seq<TokenRecord>, id: Id, status: TokenRecords.Status,
                                            known: set<string>)
    requires AllWithin(records, known)
    ensures AllWithin(WithStatus(records, id, status), known)
  {
    if records != [] && records[0].id != id {
      WithStatusWithin(records[1..], id, status, known);
    }
  }

  lemma WithoutWithin(records: seq<TokenRecord>, id: Id, known: set<string>)
    requires AllWithin(records, known)
    ensures AllWithin(Without(records, id), known)
  {
    forall i | 0 <= i < |Without(records, id)|
      ensures Within(Without(records, id)[i].scope, known)
    {
      var p := Origin(records, id, i);
    }
  }

  lemma WithinStep(s: State, e: Event, known: set<string>)
    requires AllWithin(s.mem, known) && AllWithin(Stored(s.file), known)
    requires e.BeginCreate? ==> ValidateTokenScope(e.request.scope, e.request.allRoutes, known).None?
    ensures AllWithin(Apply(s, e).mem, known) && AllWithin(Stored(Apply(s, e).file), known)
  {
    if s.log.Enabled(e) {
      match e
      case BeginCreate(op, id, token, now, request) =>
        ScopePassesIff(request.scope, request.allRoutes, known);
      case BeginRevoke(op, id) =>
        WithStatusWithin(s.mem, id, Revoked, known);
      case PersistOk(op) =>
      case PersistFail(op) =>
      case RollBack(op) =>
        WithoutWithin(s.mem, s.log.ops[op].id, known);
        if s.log.ops[op].RevokeFailed? {
          WithStatusWithin(s.mem, s.log.ops[op].id, s.log.ops[op].previous, known);
        }
      case Crash =>
    }
  }

  lemma {:induction false} WithinRun(s: State, trace: seq<Event>, known: set<string>)
    requires AllWithin(s.mem, known) && AllWithin(Stored(s.file), known) && Admitted(trace, known)
    ensures AllWithin(Run(s, trace).mem, known) && AllWithin(Stored(Run(s, trace).file), known)
    decreases |trace|
  {
    if trace != [] {
      WithinStep(s, trace[0], known);
      WithinRun(Apply(s, trace[0]), trace[1..], known);
    }
  }

  /** From a file within the known routes on, every record the admin API leads to is, in memory and on disk. */
  lemma IssuedWithinKnown(file: TokenFile, trace: seq<Event>, known: set<string>, r: TokenRecord)
    requires AllWithin(Stored(file), known) && Admitted(trace, known)
    requires r in After(file, trace).mem || r in Load(After(file, trace).file)
    ensures Within(r.scope, known)
  {
    WithinRun(Start(file), trace, known);
  }

  /**
   * The status law in every run from a file of known scopes: whatever was created, revoked, failed
   * and restarted, a request on
   * an unrouted path that authenticates with a scoped token gets 403, and only tokens of all routes
   * get through to the 404.
   */
  lemma UnroutedStatusOfIssued(profile: Profile, cx: Context, file: TokenFile, trace: seq<Event>,
                               phantom: Option<PhantomAuth>, path: string, query: string, h: Fields)
    requires TableOf(cx.routes, Rows(profile)) && ResolveRoute(cx.routes, path) == Unresolved
    requires AllWithin(Stored(file), KnownRoutes(cx.routes)) && Admitted(trace, KnownRoutes(cx.routes))
    requires cx.tokens == Some(After(file, trace).mem) || cx.tokens == Some(Load(After(file, trace).file))
    ensures Handle(cx, phantom, path, query, h) ==
            match RegistryAuth(cx.tokens, h, [])
            case None => Unauthenticated(IsGitSmartHttp(path))
            case Some(auth) => if auth.record.Some? && !auth.record.value.allRoutes then Forbidden else NotFound
  {
    RegistryAuthIsGenuine(cx.tokens.value, h, []);
    var auth := RegistryAuth(cx.tokens, h, []);
    if auth.Some? {
      IssuedWithinKnown(file, trace, KnownRoutes(cx.routes), auth.value.record.value);
    }
    UnroutedStatus(profile, cx, phantom, path, query, h);
  }

  /** The token is the `i`-th candidate, and no candidate before it validates. */
  ghost predicate PresentsFirst(records: seq<TokenRecord>, candidates: seq<Candidate>, token: string, i: nat) {
    && i < |candidates| && candidates[i].token == token
    && forall j :: 0 <= j < i ==> Validate(records, candidates[j].token).None?
  }

  /**
   * Whoever presents the token of an active record, before any other that validates, gets exactly as
   * far as the scope of that record goes, in every run, before and after a restart.
   */
  lemma IssuedTokenIsScoped(file: TokenFile, trace: seq<Event>, records: seq<TokenRecord>, r: TokenRecord,
                            token: string,
                            routes: seq<Row>, phantom: Option<PhantomAuth>, path: string, h: Fields, i: nat)
    requires GoodFile(file)
    requires records == After(file, trace).mem || records == Load(After(file, trace).file)
    requires r in records && Authenticates(r, token)
    ensures var resolution := ResolveRoute(routes, path);
            var sources := if resolution.Resolved? then resolution.entry.sources else [];
            var route := if resolution.Resolved? then resolution.entry.canonicalRoute else FirstSegment(path);
            var candidates := RequestCandidates(h, sources);
            PresentsFirst(records, candidates, token, i) ==>
              Decide(routes, Some(records), phantom, path, h) ==
              if r.allRoutes || route in r.scope
              then Next(PhantomAuth(candidates[i].header, None, Some(r)))
              else Forbidden403
  {
    ActiveRecordValidates(file, trace, records, r, token);
    var candidates := RequestCandidates(h, SourcesFor(ResolveRoute(routes, path)));
    if PresentsFirst(records, candidates, token, i) {
      FirstValidFound(records, candidates, i);
    }
  }

  /** `Authorization: Bearer T`, with T such a token, is let through by the scope of its record alone. */
  lemma BearerRequestIsScoped(file: TokenFile, trace: seq<Event>, records: seq<TokenRecord>, r: TokenRecord,
                              token: string,
                              routes: seq<Row>, phantom: Option<PhantomAuth>, path: string, h: Fields)
    requires GoodFile(file)
    requires records == After(file, trace).mem || records == Load(After(file, trace).file)
    requires r in records && Authenticates(r, token)
    requires OnlyAuthorization(h, SourcesFor(ResolveRoute(routes, path)), "Bearer " + token)
    requires Visible(token) && Trimmed(token) && token != ""
    ensures var resolution := ResolveRoute(routes, path);
            var route := if resolution.Resolved? then resolution.entry.canonicalRoute else FirstSegment(path);
            Decide(routes, Some(records), phantom, path, h) ==
            if r.allRoutes || route in r.scope then Next(PhantomAuth("authorization", None, Some(r))) else Forbidden403
  {
    var sources := SourcesFor(ResolveRoute(routes, path));
    BearerRequest(h, sources, token);
    assert Candidate(token, "authorization") in RequestCandidates(h, sources);
    var candidates := RequestCandidates(h, sources);
    assert candidates[0] in candidates;
    IssuedTokenIsScoped(file, trace, records, r, token, routes, phantom, path, h, 0);
  }

  lemma RefusedWithoutAuth(cx: Context, path: string, query: string, h: Fields)
    requires !ResolveRoute(cx.routes, path).OutOfRange?
    requires RegistryAuth(cx.tokens, h, SourcesFor(ResolveRoute(cx.routes, path))).None?
    ensures Handle(cx, None, path, query, h) == Unauthenticated(IsGitSmartHttp(path))
  {
  }

  /** What a token that does not validate does for a request: nothing. */
  lemma DeadTokenIsRefused(cx: Context, token: string, path: string, query: string, h: Fields)
    requires cx.tokens.Some? && Validate(cx.tokens.value, token).None?
    requires path != "" && path[0] == '/'
    ensures var sources := SourcesFor(ResolveRoute(cx.routes, path));
            var others := Besides(RequestCandidates(h, sources), token);
            && RegistryAuth(cx.tokens, h, sources) == FindRegistryAuth(cx.tokens.value, others)
            && (others == [] ==> Handle(cx, None, path, query, h) == Unauthenticated(IsGitSmartHttp(path)))
  {
    DeadTokenIgnored(cx.tokens.value, RequestCandidates(h, SourcesFor(ResolveRoute(cx.routes, path))), token);
    SlashNeverOutOfRange(cx.routes, path);
    if Besides(RequestCandidates(h, SourcesFor(ResolveRoute(cx.routes, path))), token) == [] {
      RefusedWithoutAuth(cx, path, query, h);
    }
  }

  /**
   * After a revoke that began with no revoke of the token in flight that captured `Active`, once it
   * is acknowledged, whatever failed before and happens since, presenting the token is as good as not
   * presenting it: the request authenticates as its other candidates do, never as the revoked record,
   * and without any other it gets 401 or 407 on every path, before and after a restart.
   */
  lemma RevokedTokenIsRefused(file: TokenFile, before: seq<Event>, op: nat, id: Id, token: string,
                              during: seq<Event>, after: seq<Event>, cx: Context, path: string, query: string,
                              h: Fields)
    requires GoodFile(file)
    requires var s := After(file, before);
             && HasId(s.mem, id) && op !in s.log.ops && !CapturedActive(s.log.ops, id) && TokenOf(s.log, id, token)
    requires Undisturbed(during, op)
    requires var t := After(file, RevokeTrace(before, op, id, during, after));
             cx.tokens == Some(t.mem) || cx.tokens == Some(Load(t.file))
    requires path != "" && path[0] == '/'
    ensures var sources := SourcesFor(ResolveRoute(cx.routes, path));
            var auth, others := RegistryAuth(cx.tokens, h, sources), Besides(RequestCandidates(h, sources), token);
            && auth == FindRegistryAuth(cx.tokens.value, others)
            && (auth.Some? ==> auth.value.record.Some? && auth.value.record.value.id != id)
            && (others == [] ==> Handle(cx, None, path, query, h) == Unauthenticated(IsGitSmartHttp(path)))
  {
    var t := After(file, RevokeTrace(before, op, id, during, after));
    RevokedTokenIsDead(file, before, op, id, token, during, after);
    DeadTokenIsRefused(cx, token, path, query, h);
    var sources := SourcesFor(ResolveRoute(cx.routes, path));
    RegistryAuthIsGenuine(cx.tokens.value, h, sources);
    LoadedInactive(t, id);
  }

  lemma LoadedInactive(t: State, id: Id)
    requires Inactive(t, id)
    ensures InactiveList(Load(t.file), id)
  {
  }
}
