/** What becomes of a request, in terms of the profile, of the token's record and of the create it came from. */
module Outcomes {
  import opened Text
  import opened TokenRecords
  import opened RegistryModel
  import opened RegistryMachine
  import opened RegistryRuns
  import opened Profiles
  import opened Routing
  import opened Credentials
  import opened Headers
  import opened Auth
  import opened Gateway

  // ---------------------------------------------------------------- every outcome on a resolved path

  lemma FirstDecides(cx: Context, path: string, h: Fields, i: nat)
    requires cx.tokens.Some? && ResolveRoute(cx.routes, path).Resolved?
    requires FirstValid(cx.tokens.value, RequestCandidates(h, ResolveRoute(cx.routes, path).entry.sources), i)
    ensures var entry := ResolveRoute(cx.routes, path).entry;
            var candidate := RequestCandidates(h, entry.sources)[i];
            var r := Validate(cx.tokens.value, candidate.token).value;
            Decide(cx.routes, cx.tokens, None, path, h) ==
            if r.allRoutes || entry.canonicalRoute in r.scope then Next(PhantomAuth(candidate.header, None, Some(r)))
            else Forbidden403
  {
    FirstValidFound(cx.tokens.value, RequestCandidates(h, ResolveRoute(cx.routes, path).entry.sources), i);
  }

  /**
   * On a path that resolves, without the fallback token, the first candidate that validates decides:
   * 403 if the route is outside the scope of its record; else 503 if there is no credential for it;
   * else 502 if the URL does not parse; else the request is forwarded.
   */
  lemma ResolvedOutcome(cx: Context, path: string, query: string, h: Fields, i: nat)
    requires cx.tokens.Some? && ResolveRoute(cx.routes, path).Resolved?
    requires FirstValid(cx.tokens.value, RequestCandidates(h, ResolveRoute(cx.routes, path).entry.sources), i)
    ensures var entry := ResolveRoute(cx.routes, path).entry;
            var r := Validate(cx.tokens.value, RequestCandidates(h, entry.sources)[i].token).value;
            var c := ResolveCredential(cx.entries, entry, Some(r), None, cx.env);
            var out := Handle(cx, None, path, query, h);
            if !(r.allRoutes || entry.canonicalRoute in r.scope) then out == Forbidden
            else if c.None? then out == NoCredential
            else out == BadGateway || out.Forwarded?
  {
    FirstDecides(cx, path, h, i);
  }

  /** And without any, the answer is 401 for a git request and 407 for another. */
  lemma UnauthenticatedOutcome(cx: Context, path: string, query: string, h: Fields)
    requires cx.tokens.Some? && ResolveRoute(cx.routes, path).Resolved?
    requires var candidates := RequestCandidates(h, ResolveRoute(cx.routes, path).entry.sources);
             forall i :: 0 <= i < |candidates| ==> Validate(cx.tokens.value, candidates[i].token).None?
    ensures Handle(cx, None, path, query, h) == Unauthenticated(IsGitSmartHttp(path))
  {
    NoneFound(cx.tokens.value, RequestCandidates(h, ResolveRoute(cx.routes, path).entry.sources));
    RefusedWithoutAuth(cx, path, query, h);
  }

  lemma NoneFound(records: seq<TokenRecord>, candidates: seq<Candidate>)
    requires forall i :: 0 <= i < |candidates| ==> Validate(records, candidates[i].token).None?
    ensures FindRegistryAuth(records, candidates).None?
  {
    FindRegistryAuthIs(records, candidates);
  }

  /** 502 is for a URL that does not parse. */
  lemma BadGatewayIff(cx: Context, auth: PhantomAuth, path: string, query: string, h: Fields)
    ensures Proxy(cx, auth, path, query, h) == BadGateway <==>
            && ResolveRoute(cx.routes, path).Resolved?
            && var entry := ResolveRoute(cx.routes, path).entry;
               var c := ResolveCredential(cx.entries, entry, auth.record, auth.preferredSource, cx.env);
               && c.Some?
               && forall url :: IsUrl(entry, ResolveRoute(cx.routes, path).upstreamPath, c.value.value, query, url) ==>
                    cx.hostOf(url) == None
  {
    if ResolveRoute(cx.routes, path).Resolved? {
      var entry, upstreamPath := ResolveRoute(cx.routes, path).entry, ResolveRoute(cx.routes, path).upstreamPath;
      var c := ResolveCredential(cx.entries, entry, auth.record, auth.preferredSource, cx.env);
      if c.Some? {
        forall url
          ensures IsUrl(entry, upstreamPath, c.value.value, query, url) <==>
                  url == UpstreamUrl(entry, upstreamPath, c.value.value, query)
        {
          UpstreamUrlIs(entry, upstreamPath, c.value.value, query, url);
        }
      }
    }
  }

  /**
   * The fallback token is asked only where no registry token authenticates, and lets a request through
   * exactly on a path that resolves.
   */
  lemma FallbackOutcome(cx: Context, fallback: PhantomAuth, path: string, query: string, h: Fields)
    requires path != "" && path[0] == '/'
    ensures var resolution := ResolveRoute(cx.routes, path);
            var sources := if resolution.Resolved? then resolution.entry.sources else [];
            var out := Handle(cx, Some(fallback), path, query, h);
            if RegistryAuth(cx.tokens, h, sources).Some? then out == Handle(cx, None, path, query, h)
            else if resolution.Resolved? then out == Proxy(cx, fallback, path, query, h)
            else out == Unauthenticated(IsGitSmartHttp(path))
  {
    SlashNeverOutOfRange(cx.routes, path);
  }

  /** The slice that panics is for a path without a slash that is a prefix key, whoever asks. */
  lemma PanickedIff(cx: Context, fallback: Option<PhantomAuth>, path: string, query: string, h: Fields)
    ensures Handle(cx, fallback, path, query, h) == Panicked <==>
            && !GitMatch(cx.routes, path) && Free(path, '/')
            && Routing.Lookup(cx.routes, path).Some? && Routing.Lookup(cx.routes, path).value.matcher == Prefix
  {
    OutOfRangeIff(cx.routes, path);
  }

  // ---------------------------------------------------------------- where a request goes

  /** Wherever the path resolves to, that is where a request goes which is let through and forwarded. */
  lemma ForwardedUrl(cx: Context, auth: PhantomAuth, path: string, query: string, h: Fields)
    requires Proxy(cx, auth, path, query, h).Forwarded?
    ensures var resolution := ResolveRoute(cx.routes, path);
            var url := Proxy(cx, auth, path, query, h).url;
            && resolution.Resolved?
            && var c := ResolveCredential(cx.entries, resolution.entry, auth.record, auth.preferredSource, cx.env);
               c.Some? && IsUrl(resolution.entry, resolution.upstreamPath, c.value.value, query, url)
  {
    var entry, upstreamPath := ResolveRoute(cx.routes, path).entry, ResolveRoute(cx.routes, path).upstreamPath;
    var c := ResolveCredential(cx.entries, entry, auth.record, auth.preferredSource, cx.env);
    UpstreamUrlIs(entry, upstreamPath, c.value.value, query, Proxy(cx, auth, path, query, h).url);
  }

  /** The URL that a route of the profile gives a path and a query, with this credential. */
  predicate GoesTo(route: ProfileRoute, upstreamPath: string, credential: string, query: string, url: string) {
    && (route.injectMode == Header ==> url == route.upstream + upstreamPath + query)
    && (route.injectMode == UrlPath ==>
          var prefix := if route.urlPathPrefix.Some? then route.urlPathPrefix.value else "";
          url == route.upstream + prefix + credential + upstreamPath + query)
  }

  lemma UrlOfRoute(route: ProfileRoute, entry: RouteEntry, upstreamPath: string, credential: string, query: string,
                   url: string)
    requires entry.upstream == route.upstream && entry.injectMode == route.injectMode
    requires entry.urlPathPrefix == route.urlPathPrefix && IsUrl(entry, upstreamPath, credential, query, url)
    ensures GoesTo(route, upstreamPath, credential, query, url)
  {
    if entry.injectMode == UrlPath && entry.urlPathPrefix.None? {
      assert entry.upstream + "" == entry.upstream;
    }
  }

  /** A request on a route's own key goes to the route's upstream, with the rest of its path and its query. */
  lemma CanonicalUrl(profile: Profile, cx: Context, auth: PhantomAuth, i: nat, t: string, query: string, h: Fields)
    requires TableOf(cx.routes, Rows(profile)) && i < |profile| && (t == "" || t[0] == '/')
    requires var c := NormalizeRouteKey(profile[i].0); c != "" && Free(c, '/') && !GitMatch(cx.routes, "/" + c + t)
    ensures var path := "/" + NormalizeRouteKey(profile[i].0) + t;
            var out := Proxy(cx, auth, path, query, h);
            out.Forwarded? ==>
              var entry := ResolveRoute(cx.routes, path).entry;
              var c := ResolveCredential(cx.entries, entry, auth.record, auth.preferredSource, cx.env);
              c.Some? && GoesTo(profile[i].1, if t == "" then "/" else t, c.value.value, query, out.url)
  {
    var path := "/" + NormalizeRouteKey(profile[i].0) + t;
    CanonicalResolves(profile, cx.routes, i, t);
    if Proxy(cx, auth, path, query, h).Forwarded? {
      ForwardedUrl(cx, auth, path, query, h);
      var entry := ResolveRoute(cx.routes, path).entry;
      var c := ResolveCredential(cx.entries, entry, auth.record, auth.preferredSource, cx.env).value;
      UrlOfRoute(profile[i].1, entry, if t == "" then "/" else t, c.value, query, Proxy(cx, auth, path, query, h).url);
    }
  }

  /** A request on an alias goes there too, with what is left of its path without the strip prefix. */
  lemma AliasUrl(profile: Profile, cx: Context, auth: PhantomAuth, i: nat, j: nat, t: string, query: string, h: Fields)
    requires TableOf(cx.routes, Rows(profile)) && i < |profile| && j < |profile[i].1.aliases|
    requires t == "" || t[0] == '/'
    requires var a := NormalizeRouteKey(profile[i].1.aliases[j].prefix);
             a != "" && Free(a, '/') && !GitMatch(cx.routes, "/" + a + t)
    ensures var path := "/" + NormalizeRouteKey(profile[i].1.aliases[j].prefix) + t;
            var out := Proxy(cx, auth, path, query, h);
            out.Forwarded? ==>
              var resolution := ResolveRoute(cx.routes, path);
              var c := ResolveCredential(cx.entries, resolution.entry, auth.record, auth.preferredSource, cx.env);
              && IsStripped(t, profile[i].1.aliases[j].stripPrefix, resolution.upstreamPath)
              && c.Some? && GoesTo(profile[i].1, resolution.upstreamPath, c.value.value, query, out.url)
  {
    var path := "/" + NormalizeRouteKey(profile[i].1.aliases[j].prefix) + t;
    AliasResolves(profile, cx.routes, i, j, t);
    if Proxy(cx, auth, path, query, h).Forwarded? {
      ForwardedUrl(cx, auth, path, query, h);
      var resolution := ResolveRoute(cx.routes, path);
      var c := ResolveCredential(cx.entries, resolution.entry, auth.record, auth.preferredSource, cx.env).value;
      UrlOfRoute(profile[i].1, resolution.entry, resolution.upstreamPath, c.value, query,
                 Proxy(cx, auth, path, query, h).url);
    }
  }

  /** A git request goes to git's own upstream, path and query as they are. */
  lemma GitUrl(profile: Profile, cx: Context, auth: PhantomAuth, path: string, query: string, h: Fields)
    requires TableOf(cx.routes, Rows(profile)) && IsGitSmartHttp(path)
    requires exists i :: 0 <= i < |profile| && profile[i].1.gitProtocol.Some?
    requires Proxy(cx, auth, path, query, h).Forwarded?
    ensures exists i :: 0 <= i < |profile| && profile[i].1.gitProtocol.Some?
              && Proxy(cx, auth, path, query, h).url == profile[i].1.gitProtocol.value.upstream + path + query
  {
    GitResolves(profile, cx.routes, path);
    ForwardedUrl(cx, auth, path, query, h);
  }

  // ---------------------------------------------------------------- tokens in a source's header

  /** A token alone in the header of a source, as it is, is let through by the scope of its record alone. */
  lemma RawRequestIsScoped(file: TokenFile, trace: seq<Event>, records: seq<TokenRecord>, r: TokenRecord, token: string,
                           routes: seq<Row>, phantom: Option<PhantomAuth>, path: string, h: Fields, k: nat)
    requires GoodFile(file)
    requires records == After(file, trace).mem || records == Load(After(file, trace).file)
    requires r in records && Authenticates(r, token)
    requires ResolveRoute(routes, path).Resolved? && OnlySource(h, ResolveRoute(routes, path).entry.sources, k, token)
    requires Visible(token) && Trimmed(token) && token != "" && NoScheme(token)
    ensures var entry := ResolveRoute(routes, path).entry;
            Decide(routes, Some(records), phantom, path, h) ==
            if r.allRoutes || entry.canonicalRoute in r.scope
            then Next(PhantomAuth(Lower(entry.sources[k].injectHeader), None, Some(r)))
            else Forbidden403
  {
    var sources := ResolveRoute(routes, path).entry.sources;
    var candidates := RequestCandidates(h, sources);
    RawRequest(h, sources, k, token);
    assert Candidate(token, Lower(sources[k].injectHeader)) in candidates;
    assert candidates[0] in candidates;
    IssuedTokenIsScoped(file, trace, records, r, token, routes, phantom, path, h, 0);
  }

  // ---------------------------------------------------------------- what was asked for is what is allowed

  /**
   * A token acknowledged for a request, while nobody asks to revoke it, is let through on exactly the
   * routes the request named, or on all of them if it asked for all: in every run, before and after a
   * restart.
   */
  lemma RequestedScopeDecides(file: TokenFile, before: seq<Event>, op: nat, id: Id, token: string, now: int,
                              request: Request, during: seq<Event>, after: seq<Event>, records: seq<TokenRecord>,
                              routes: seq<Row>, phantom: Option<PhantomAuth>, path: string, h: Fields, i: nat)
    requires GoodFile(file) && (request.scope != [] || request.allRoutes)
    requires var s, e := After(file, before), BeginCreate(op, id, token, now, request);
             s.log.Enabled(e) && !HasName(s.mem, request.name)
    requires id in After(file, before + ([BeginCreate(op, id, token, now, request)] + during)).log.created
    requires var t := After(file, before + ([BeginCreate(op, id, token, now, request)] + during) + after);
             id !in t.log.revokeAsked && (records == t.mem || records == Load(t.file))
    ensures var resolution := ResolveRoute(routes, path);
            var sources := if resolution.Resolved? then resolution.entry.sources else [];
            var route := if resolution.Resolved? then resolution.entry.canonicalRoute else FirstSegment(path);
            PresentsFirst(records, RequestCandidates(h, sources), token, i) ==>
              var decision := Decide(routes, Some(records), phantom, path, h);
              if request.allRoutes || route in request.scope then decision.Next? else decision == Forbidden403
  {
    var trace := before + ([BeginCreate(op, id, token, now, request)] + during) + after;
    AcknowledgedRecord(file, before, op, id, token, now, request, during, after, records);
    var r := Validate(records, token).value;
    IssuedTokenIsScoped(file, trace, records, r, token, routes, phantom, path, h, i);
  }

  /** The record such a token validates to has the scope of the request. */
  lemma AcknowledgedRecord(file: TokenFile, before: seq<Event>, op: nat, id: Id, token: string, now: int,
                           request: Request, during: seq<Event>, after: seq<Event>, records: seq<TokenRecord>)
    requires GoodFile(file) && (request.scope != [] || request.allRoutes)
    requires var s, e := After(file, before), BeginCreate(op, id, token, now, request);
             s.log.Enabled(e) && !HasName(s.mem, request.name)
    requires id in After(file, before + ([BeginCreate(op, id, token, now, request)] + during)).log.created
    requires var t := After(file, before + ([BeginCreate(op, id, token, now, request)] + during) + after);
             id !in t.log.revokeAsked && (records == t.mem || records == Load(t.file))
    ensures var found := Validate(records, token);
            && found.Some? && found.value.id == id
            && found.value.scope == request.scope && found.value.creds == request.creds
            && found.value.allRoutes == request.allRoutes
  {
    var mid := before + ([BeginCreate(op, id, token, now, request)] + during);
    var trace := mid + after;
    CreatedAsRequested(file, before, op, id, token, now, request, during, after);
    RunConcat(Start(file), mid, after);
    RunExtends(After(file, mid), after);
    CreatedTokenAuthenticates(file, trace, id, token);
    var r := Validate(records, token).value;
    ReachedRecord(file, trace, r);
    VersionOfExplicit(r, After(file, trace).log.known[id]);
  }

  lemma VersionOfExplicit(r: TokenRecord, k: TokenRecord)
    requires VersionOf(r, k) && (k.scope != [] || k.allRoutes)
    ensures r.scope == k.scope && r.allRoutes == k.allRoutes && r.creds == k.creds
  {
    MigrateIs(k);
  }
}
