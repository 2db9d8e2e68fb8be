/** Resolving a request path against the route table (`state.rs`, `profile.rs`). */
module Routing {
  import opened Text
  import opened Tables
  import opened Profiles

  // ---------------------------------------------------------------- git smart-HTTP paths

  const DOT_GIT := ".git/"

  predicate IsGitService(s: string) {
    s == "info/refs" || s == "git-upload-pack" || s == "git-receive-pack"
  }

  predicate IsGitSmartHttp(path: string) {
    IsGitTrimmed(DropStart(path, '/'))
  }

  predicate IsGitTrimmed(trimmed: string) {
    match Find(trimmed, DOT_GIT)
    case None => false
    case Some(i) =>
      var parts := Split(trimmed[..i], '/');
      |parts| == 2 && parts[0] != "" && parts[1] != "" && IsGitService(trimmed[i + |DOT_GIT|..])
  }

  predicate EndsWith(s: string, suffix: string) {
    |suffix| <= |s| && s[|s| - |suffix|..] == suffix
  }

  /** `<slashes><owner>/<repo>.git/<service>`. */
  ghost predicate GitPath(path: string, slashes: string, owner: string, repo: string, service: string) {
    && Only(slashes, '/')
    && owner != "" && Free(owner, '/') && !EndsWith(owner, ".git")
    && repo != "" && Free(repo, '/')
    && (service == "info/refs" || service == "git-upload-pack" || service == "git-receive-pack")
    && path == slashes + (owner + "/" + repo + ".git/" + service)
  }

  /** The one place where `.git/` can first occur. */
  lemma FirstDotGit(owner: string, repo: string, service: string)
    requires Free(owner, '/') && Free(repo, '/') && !EndsWith(owner, ".git")
    ensures Find(owner + "/" + repo + DOT_GIT + service, DOT_GIT) == Some(|owner| + 1 + |repo|)
  {
    var s, i := owner + "/" + repo + DOT_GIT + service, |owner| + 1 + |repo|;
    assert s[i..i + 5] == DOT_GIT;
    assert forall k :: 0 <= k < i + 4 && k != |owner| ==> s[k] != '/';
    forall j: nat | j < i
      ensures !At(s, DOT_GIT, j)
    {
      if j + 4 == |owner| {
        assert s[j..j + 5] == owner[j..] + "/";
        assert (owner[j..] + "/")[..4] == owner[j..] != ".git" == DOT_GIT[..4];
      } else {
        assert s[j..j + 5][4] == s[j + 4] != '/' == DOT_GIT[4];
      }
    }
    FindFirst(s, DOT_GIT, i);
  }

  lemma GitPathAccepted(path: string, slashes: string, owner: string, repo: string, service: string)
    requires GitPath(path, slashes, owner, repo, service)
    ensures IsGitSmartHttp(path)
  {
    var s := owner + "/" + repo + DOT_GIT + service;
    assert s[0] == owner[0];
    DropStartOf(slashes, '/', s);
    FirstDotGit(owner, repo, service);
    var i := |owner| + 1 + |repo|;
    assert s[..i] == owner + ['/'] + repo;
    SplitJoin(owner, '/', repo);
    SplitFree(owner, '/');
    SplitFree(repo, '/');
    assert s[i + 5..] == service;
  }

  lemma OwnerBeforeFirst(s: string, owner: string)
    requires forall j: nat :: j < |owner| ==> !At(s, DOT_GIT, j)
    requires |owner| < |s| && s[..|owner|] == owner && s[|owner|] == '/'
    ensures !EndsWith(owner, ".git")
  {
    if 4 <= |owner| {
      var j := |owner| - 4;
      assert !At(s, DOT_GIT, j);
      assert s[j..j + 5] == owner[j..] + "/";
      assert ".git" + "/" == DOT_GIT;
    }
  }

  lemma TrimmedSplits(s: string) returns (owner: string, repo: string, service: string)
    requires IsGitTrimmed(s)
    ensures s == owner + "/" + repo + DOT_GIT + service
    ensures owner != "" && repo != "" && Free(owner, '/') && Free(repo, '/') && IsGitService(service)
    ensures forall j: nat :: j < |owner| ==> !At(s, DOT_GIT, j)
  {
    FindSound(s, DOT_GIT);
    var i := Find(s, DOT_GIT).value;
    var before := s[..i];
    SplitPair(before, '/');
    owner, repo, service := Split(before, '/')[0], Split(before, '/')[1], s[i + 5..];
    assert s == before + s[i..i + 5] + service;
    assert |owner| < |before| == i;
  }

  lemma AcceptedIsGitPath(path: string) returns (slashes: string, owner: string, repo: string, service: string)
    requires IsGitSmartHttp(path)
    ensures GitPath(path, slashes, owner, repo, service)
  {
    slashes := DropStartSplits(path, '/');
    owner, repo, service := TrimmedSplits(DropStart(path, '/'));
    OwnerBeforeFirst(DropStart(path, '/'), owner);
  }

  /** `is_git_smart_http` accepts exactly the git smart-HTTP paths. */
  lemma GitLanguage(path: string)
    ensures IsGitSmartHttp(path) <==>
            exists slashes, owner, repo, service :: GitPath(path, slashes, owner, repo, service)
  {
    if IsGitSmartHttp(path) {
      var slashes, owner, repo, service := AcceptedIsGitPath(path);
    }
    if exists slashes, owner, repo, service :: GitPath(path, slashes, owner, repo, service) {
      var slashes, owner, repo, service :| GitPath(path, slashes, owner, repo, service);
      GitPathAccepted(path, slashes, owner, repo, service);
    }
  }

  // ---------------------------------------------------------------- resolution

  /** `route_entry`: the first row with this key. */
  function Lookup(routes: seq<Row>, key: string): Option<RouteEntry> {
    if routes == [] then None
    else if routes[0].0 == key then Some(routes[0].1)
    else Lookup(routes[1..], key)
  }

  /** The first entry that matches git smart-HTTP paths. */
  function GitEntry(routes: seq<Row>): Option<RouteEntry> {
    if routes == [] then None
    else if routes[0].1.matcher == GitSmartHttp then Some(routes[0].1)
    else GitEntry(routes[1..])
  }

  predicate GitMatch(routes: seq<Row>, path: string) {
    IsGitSmartHttp(path) && GitEntry(routes).Some?
  }

  /** The first path segment, leading slashes skipped. */
  function FirstSegment(path: string): string {
    UpTo(DropStart(path, '/'), '/')
  }

  /** `OutOfRange` stands for the panic of a slice past the end of the path. */
  datatype Resolution = Resolved(entry: RouteEntry, upstreamPath: string) | Unresolved | OutOfRange

  function UpstreamPath(afterPrefix: string, stripPrefix: Option<string>): string {
    var stripped := match stripPrefix
      case None => afterPrefix
      case Some(sp) => if StartsWith(afterPrefix, sp) then afterPrefix[|sp|..] else afterPrefix;
    if stripped == "" then "/" else stripped
  }

  function ResolveRoute(routes: seq<Row>, path: string): Resolution {
    if GitMatch(routes, path) then Resolved(GitEntry(routes).value, path)
    else
      var prefix := FirstSegment(path);
      match Lookup(routes, prefix)
      case None => Unresolved
      case Some(entry) =>
        if entry.matcher != Prefix then Unresolved
        else if |prefix| + 1 > |path| then OutOfRange
        else Resolved(entry, UpstreamPath(path[|prefix| + 1..], entry.stripPrefix))
  }

  /** The scopes the admin API knows: canonical routes of the rows that are not git rows by name. */
  function KnownRoutes(routes: seq<Row>): set<string> {
    set r | r in routes && !StartsWith(r.0, GIT_KEY) :: r.1.canonicalRoute
  }

  // ---------------------------------------------------------------- rows and lookups

  lemma {:induction false} LookupRow(routes: seq<Row>, row: Row)
    requires StrictlySorted(routes) && row in routes
    ensures Lookup(routes, row.0) == Some(row.1)
  {
    TailWithoutHead(routes, row);
    if row != routes[0] {
      SortedHeadLeast(routes, row);
      LessTotal(row.0, row.0);
      LookupRow(routes[1..], row);
    }
  }

  lemma {:induction false} LookupFrom(routes: seq<Row>, key: string)
    requires Lookup(routes, key).Some?
    ensures (key, Lookup(routes, key).value) in routes
  {
    if routes[0].0 != key {
      LookupFrom(routes[1..], key);
    }
  }

  /** The slice is out of range exactly for a slash-free path that is itself a prefix key. */
  lemma OutOfRangeIff(routes: seq<Row>, path: string)
    ensures ResolveRoute(routes, path) == OutOfRange <==>
            && !GitMatch(routes, path) && Free(path, '/')
            && Lookup(routes, path).Some? && Lookup(routes, path).value.matcher == Prefix
  {
    var left := DropStartSplits(path, '/');
    var rest := DropStart(path, '/');
    UpToSplits(rest, '/');
    assert left != "" ==> path[0] == left[0];
    if Free(path, '/') {
      assert rest == path;
      UpToOf(path, '/', "");
      assert path + "" == path;
    } else {
      assert |FirstSegment(path)| == |path| ==> FirstSegment(path) == path;
    }
  }

  lemma SlashNeverOutOfRange(routes: seq<Row>, path: string)
    requires path != "" && path[0] == '/'
    ensures ResolveRoute(routes, path) != OutOfRange
  {
    OutOfRangeIff(routes, path);
  }

  /** A path made of slashes, a slash-free segment and a rest resolves by that segment. */
  lemma SegmentResolves(routes: seq<Row>, slashes: string, segment: string, rest: string)
    requires slashes != "" && Only(slashes, '/') && segment != "" && Free(segment, '/')
             && (rest == "" || rest[0] == '/')
    requires !GitMatch(routes, slashes + segment + rest)
    ensures FirstSegment(slashes + segment + rest) == segment
    ensures ResolveRoute(routes, slashes + segment + rest) ==
            match Lookup(routes, segment)
            case None => Unresolved
            case Some(entry) =>
              if entry.matcher != Prefix then Unresolved
              else Resolved(entry, UpstreamPath((slashes + segment + rest)[|segment| + 1..], entry.stripPrefix))
  {
    assert slashes + segment + rest == slashes + (segment + rest);
    assert (segment + rest)[0] == segment[0];
    DropStartOf(slashes, '/', segment + rest);
    UpToOf(segment, '/', rest);
  }

  /** The strip prefix happens to be what is left over of the key, or that and the whole rest. */
  predicate StripsLeftover(left: string, rest: string, sp: string) {
    (sp == left && !StartsWith(rest, sp)) || (sp == left + "/" && rest == "/")
  }

  lemma LeftoverStrippedIff(left: string, rest: string, stripPrefix: Option<string>)
    requires left != "" && left[|left| - 1] != '/' && (rest == "" || rest[0] == '/')
    ensures UpstreamPath(left + rest, stripPrefix) == UpstreamPath(rest, stripPrefix) <==>
            stripPrefix.Some? && StripsLeftover(left, rest, stripPrefix.value)
  {
    var after := left + rest;
    if stripPrefix.Some? && StartsWith(after, stripPrefix.value) {
      var sp := stripPrefix.value;
      var stripped := after[|sp|..];
      if |sp| < |left| {
        assert stripped[|left| - |sp| - 1] == left[|left| - 1];
      } else {
        var x := rest[..|sp| - |left|];
        assert sp == left + x;
        assert stripped == rest[|x|..];
        if StartsWith(rest, sp) {
          assert rest[|left| - 1] == left[|left| - 1];
          assert |rest| >= |sp| >= 2 || |left| == 1;
        }
      }
    } else {
      assert after[|left| - 1] == left[|left| - 1];
    }
  }

  /**
   * What follows the matched key goes upstream, less its strip prefix, exactly when the path has one
   * leading slash. With more, the end of the key goes upstream in front of it, unless the strip prefix
   * takes just that away.
   */
  lemma PrefixStrippedIff(routes: seq<Row>, slashes: string, key: string, rest: string)
    requires slashes != "" && Only(slashes, '/') && key != "" && Free(key, '/') && (rest == "" || rest[0] == '/')
    requires !GitMatch(routes, slashes + key + rest)
    requires Lookup(routes, key).Some? && Lookup(routes, key).value.matcher == Prefix
    ensures var entry, left := Lookup(routes, key).value, (slashes + key)[|key| + 1..];
            ResolveRoute(routes, slashes + key + rest) == Resolved(entry, UpstreamPath(rest, entry.stripPrefix))
            <==> |slashes| == 1 || (entry.stripPrefix.Some? && StripsLeftover(left, rest, entry.stripPrefix.value))
  {
    SegmentResolves(routes, slashes, key, rest);
    var entry, left := Lookup(routes, key).value, (slashes + key)[|key| + 1..];
    assert (slashes + key + rest)[|key| + 1..] == left + rest;
    if |slashes| == 1 {
      assert left + rest == rest;
    } else {
      assert left[|left| - 1] == key[|key| - 1];
      LeftoverStrippedIff(left, rest, entry.stripPrefix);
    }
  }

  // ---------------------------------------------------------------- aliases

  lemma RouteRowIn(profile: Profile, i: nat)
    requires i < |profile|
    ensures var key := NormalizeRouteKey(profile[i].0); (key, FromProfile(key, profile[i].1)) in Rows(profile)
  {
    FlattenHas(Groups(profile), i, Groups(profile)[i][0]);
  }

  lemma AliasRowIn(profile: Profile, i: nat, j: nat)
    requires i < |profile| && j < |profile[i].1.aliases|
    ensures var key, alias := NormalizeRouteKey(profile[i].0), profile[i].1.aliases[j];
            (NormalizeRouteKey(alias.prefix), FromAlias(key, FromProfile(key, profile[i].1), alias)) in Rows(profile)
  {
    var route, key := profile[i].1, NormalizeRouteKey(profile[i].0);
    var rows := AliasRows(key, FromProfile(key, route), route.aliases);
    assert Groups(profile)[i][1 + j] == rows[j];
    FlattenHas(Groups(profile), i, rows[j]);
  }

  /**
   * A request through an alias, its strip prefix in place, is the request on the canonical route:
   * same canonical route, upstream, credential sources, injection and upstream path.
   */
  lemma AliasTransparent(profile: Profile, table: seq<Row>, i: nat, j: nat, s: string, t: string)
    requires TableOf(table, Rows(profile))
    requires i < |profile| && j < |profile[i].1.aliases| && profile[i].1.aliases[j].stripPrefix == Some(s)
    requires s != "" && s[0] == '/' && (t == "" || t[0] == '/')
    requires var c, a := NormalizeRouteKey(profile[i].0), NormalizeRouteKey(profile[i].1.aliases[j].prefix);
             && c != "" && Free(c, '/') && a != "" && Free(a, '/')
             && !GitMatch(table, "/" + a + (s + t)) && !GitMatch(table, "/" + c + t)
    ensures var c, a := NormalizeRouteKey(profile[i].0), NormalizeRouteKey(profile[i].1.aliases[j].prefix);
            var direct, aliased := ResolveRoute(table, "/" + c + t), ResolveRoute(table, "/" + a + (s + t));
            && direct.Resolved? && aliased.Resolved?
            && direct.entry.canonicalRoute == c && direct.entry.upstream == profile[i].1.upstream
            && direct.entry.sources == profile[i].1.sources
            && direct.entry.injectMode == profile[i].1.injectMode
            && direct.entry.urlPathPrefix == profile[i].1.urlPathPrefix && direct.entry.stripPrefix == None
            && direct.upstreamPath == (if t == "" then "/" else t)
            && aliased.upstreamPath == direct.upstreamPath
            && aliased.entry == direct.entry.(stripPrefix := Some(s))
  {
    var route := profile[i].1;
    var c, a := NormalizeRouteKey(profile[i].0), NormalizeRouteKey(route.aliases[j].prefix);
    var entry := FromProfile(c, route);
    RouteRowIn(profile, i);
    AliasRowIn(profile, i, j);
    LookupRow(table, (c, entry));
    LookupRow(table, (a, FromAlias(c, entry, route.aliases[j])));
    SegmentResolves(table, "/", c, t);
    SegmentResolves(table, "/", a, s + t);
    assert ("/" + c + t)[|c| + 1..] == t;
    assert ("/" + a + (s + t))[|a| + 1..] == s + t;
    assert (s + t)[|s|..] == t;
  }

  /** `after` less a strip prefix, where it begins with one; the empty rest is the root. */
  predicate IsStripped(after: string, stripPrefix: Option<string>, stripped: string) {
    && (stripPrefix.Some? && StartsWith(after, stripPrefix.value) ==>
          if after == stripPrefix.value then stripped == "/" else after == stripPrefix.value + stripped)
    && (stripPrefix.None? || !StartsWith(after, stripPrefix.value) ==>
          stripped == if after == "" then "/" else after)
  }

  lemma StripsIff(after: string, stripPrefix: Option<string>, stripped: string)
    ensures UpstreamPath(after, stripPrefix) == stripped <==> IsStripped(after, stripPrefix, stripped)
  {
    if stripPrefix.Some? && StartsWith(after, stripPrefix.value) {
      var sp := stripPrefix.value;
      assert after == sp + after[|sp|..];
      assert after[|sp|..] == "" ==> after == sp;
      if after == sp + stripped {
        assert stripped == after[|sp|..];
      }
    }
  }

  /** Any path under a route's own key resolves to what the profile says of the route. */
  lemma CanonicalResolves(profile: Profile, table: seq<Row>, i: nat, t: string)
    requires TableOf(table, Rows(profile)) && i < |profile| && (t == "" || t[0] == '/')
    requires var c := NormalizeRouteKey(profile[i].0); c != "" && Free(c, '/') && !GitMatch(table, "/" + c + t)
    ensures var c := NormalizeRouteKey(profile[i].0);
            var resolution := ResolveRoute(table, "/" + c + t);
            && resolution.Resolved? && resolution.upstreamPath == (if t == "" then "/" else t)
            && IsCanonicalRow(profile[i].0, profile[i].1, (c, resolution.entry))
  {
    var c := NormalizeRouteKey(profile[i].0);
    RouteRowIn(profile, i);
    LookupRow(table, (c, FromProfile(c, profile[i].1)));
    SegmentResolves(table, "/", c, t);
    assert ("/" + c + t)[|c| + 1..] == t;
  }

  /** And any path under an alias to that with the alias's strip prefix, taken off where it is there. */
  lemma AliasResolves(profile: Profile, table: seq<Row>, i: nat, j: nat, t: string)
    requires TableOf(table, Rows(profile)) && i < |profile| && j < |profile[i].1.aliases| && (t == "" || t[0] == '/')
    requires var a := NormalizeRouteKey(profile[i].1.aliases[j].prefix);
             a != "" && Free(a, '/') && !GitMatch(table, "/" + a + t)
    ensures var a := NormalizeRouteKey(profile[i].1.aliases[j].prefix);
            var resolution := ResolveRoute(table, "/" + a + t);
            && resolution.Resolved?
            && IsStripped(t, profile[i].1.aliases[j].stripPrefix, resolution.upstreamPath)
            && IsAliasRow(profile[i].0, profile[i].1, profile[i].1.aliases[j], (a, resolution.entry))
  {
    var route, alias := profile[i].1, profile[i].1.aliases[j];
    var c, a := NormalizeRouteKey(profile[i].0), NormalizeRouteKey(alias.prefix);
    AliasRowIn(profile, i, j);
    LookupRow(table, (a, FromAlias(c, FromProfile(c, route), alias)));
    SegmentResolves(table, "/", a, t);
    assert ("/" + a + t)[|a| + 1..] == t;
    StripsIff(t, alias.stripPrefix, UpstreamPath(t, alias.stripPrefix));
  }

  // ---------------------------------------------------------------- canonical routes

  lemma RouteRowsCanonical(prefix: string, route: ProfileRoute, r: Row)
    requires r in RouteRows(prefix, route)
    ensures r.1.canonicalRoute == NormalizeRouteKey(prefix)
  {
    var key := NormalizeRouteKey(prefix);
    var entry := FromProfile(key, route);
    if r in AliasRows(key, entry, route.aliases) {
      var j :| 0 <= j < |route.aliases| && AliasRows(key, entry, route.aliases)[j] == r;
    }
  }

  lemma RowCanonical(profile: Profile, r: Row) returns (i: nat)
    requires r in Rows(profile)
    ensures i < |profile| && r.1.canonicalRoute == NormalizeRouteKey(profile[i].0)
  {
    i := FlattenFrom(Groups(profile), r);
    RouteRowsCanonical(profile[i].0, profile[i].1, r);
  }

  /** Every entry's canonical route is itself a prefix key, and is its own canonical route. */
  lemma CanonicalClosure(profile: Profile, table: seq<Row>, r: Row)
    requires TableOf(table, Rows(profile)) && r in table
    ensures var found := Lookup(table, r.1.canonicalRoute);
            && found.Some? && found.value.matcher == Prefix
            && found.value.canonicalRoute == r.1.canonicalRoute && found.value.stripPrefix == None
  {
    var i := RowCanonical(profile, r);
    RouteRowIn(profile, i);
    var key := NormalizeRouteKey(profile[i].0);
    LookupRow(table, (key, FromProfile(key, profile[i].1)));
  }

  /** The first segment of a path that does not resolve is no scope the admin API knows. */
  lemma UnresolvedIsUnknown(profile: Profile, table: seq<Row>, path: string)
    requires TableOf(table, Rows(profile)) && ResolveRoute(table, path) == Unresolved
    ensures FirstSegment(path) !in KnownRoutes(table)
  {
    if FirstSegment(path) in KnownRoutes(table) {
      var r :| r in table && r.1.canonicalRoute == FirstSegment(path);
      CanonicalClosure(profile, table, r);
    }
  }

  // ---------------------------------------------------------------- known routes and the git route

  /** Some row of the route, other than its git row, has a key that does not look like a git row's. */
  predicate Nameable(prefix: string, route: ProfileRoute) {
    || !StartsWith(NormalizeRouteKey(prefix), "__git__")
    || exists j :: 0 <= j < |route.aliases| && !StartsWith(NormalizeRouteKey(route.aliases[j].prefix), "__git__")
  }

  /** The route is the one a scope names by this key. */
  predicate Names(prefix: string, route: ProfileRoute, key: string) {
    NormalizeRouteKey(prefix) == key && Nameable(prefix, route)
  }

  lemma NameableFrom(prefix: string, route: ProfileRoute, r: Row)
    requires r in RouteRows(prefix, route) && !StartsWith(r.0, GIT_KEY)
    ensures Nameable(prefix, route)
  {
    var key := NormalizeRouteKey(prefix);
    var entry := FromProfile(key, route);
    assert StartsWith(GIT_KEY + key, GIT_KEY);
    if r in AliasRows(key, entry, route.aliases) {
      var j :| 0 <= j < |route.aliases| && AliasRows(key, entry, route.aliases)[j] == r;
      assert !StartsWith(NormalizeRouteKey(route.aliases[j].prefix), GIT_KEY);
    }
  }

  /** The known routes are the profile's own keys, but for a route all of whose keys look like git rows. */
  lemma KnownRoutesIff(profile: Profile, table: seq<Row>, key: string)
    requires TableOf(table, Rows(profile))
    ensures key in KnownRoutes(table) <==>
            exists i :: 0 <= i < |profile| && Names(profile[i].0, profile[i].1, key)
  {
    if key in KnownRoutes(table) {
      var r :| r in table && !StartsWith(r.0, GIT_KEY) && r.1.canonicalRoute == key;
      var i := FlattenFrom(Groups(profile), r);
      RouteRowsCanonical(profile[i].0, profile[i].1, r);
      NameableFrom(profile[i].0, profile[i].1, r);
      assert Names(profile[i].0, profile[i].1, key);
    }
    if exists i :: 0 <= i < |profile| && Names(profile[i].0, profile[i].1, key) {
      var i :| 0 <= i < |profile| && Names(profile[i].0, profile[i].1, key);
      var r := NameableRow(profile, i);
      assert r in table;
    }
  }

  lemma NameableRow(profile: Profile, i: nat) returns (r: Row)
    requires i < |profile| && Nameable(profile[i].0, profile[i].1)
    ensures r in Rows(profile) && !StartsWith(r.0, GIT_KEY) && r.1.canonicalRoute == NormalizeRouteKey(profile[i].0)
  {
    var route, key := profile[i].1, NormalizeRouteKey(profile[i].0);
    var entry := FromProfile(key, route);
    if StartsWith(key, GIT_KEY) {
      var j :| 0 <= j < |route.aliases| && !StartsWith(NormalizeRouteKey(route.aliases[j].prefix), GIT_KEY);
      AliasRowIn(profile, i, j);
      r := (NormalizeRouteKey(route.aliases[j].prefix), FromAlias(key, entry, route.aliases[j]));
    } else {
      RouteRowIn(profile, i);
      r := (key, entry);
    }
  }

  /** The row a route's git protocol contributes. */
  function GitRow(prefix: string, route: ProfileRoute): Row
    requires route.gitProtocol.Some?
  {
    var key := NormalizeRouteKey(prefix);
    (GIT_KEY + key, FromGitProtocol(FromProfile(key, route), route.gitProtocol.value))
  }

  lemma GitRowIn(profile: Profile, i: nat)
    requires i < |profile| && profile[i].1.gitProtocol.Some?
    ensures GitRow(profile[i].0, profile[i].1) in Rows(profile)
  {
    var rows := RouteRows(profile[i].0, profile[i].1);
    assert rows[|rows| - 1] == GitRow(profile[i].0, profile[i].1);
    FlattenHas(Groups(profile), i, rows[|rows| - 1]);
  }

  lemma OnlyGitRows(prefix: string, route: ProfileRoute, r: Row)
    requires r in RouteRows(prefix, route) && r.1.matcher == GitSmartHttp
    ensures route.gitProtocol.Some? && r == GitRow(prefix, route)
  {
    var key := NormalizeRouteKey(prefix);
    var entry := FromProfile(key, route);
    forall j | 0 <= j < |route.aliases|
      ensures AliasRows(key, entry, route.aliases)[j].1.matcher == Prefix
    {
    }
  }

  lemma {:induction false} GitEntryFirst(routes: seq<Row>) returns (p: nat)
    requires GitEntry(routes).Some?
    ensures p < |routes| && routes[p].1 == GitEntry(routes).value && routes[p].1.matcher == GitSmartHttp
    ensures forall q :: 0 <= q < p ==> routes[q].1.matcher != GitSmartHttp
  {
    if routes[0].1.matcher == GitSmartHttp {
      p := 0;
    } else {
      var rest := GitEntryFirst(routes[1..]);
      p := rest + 1;
      assert forall q :: 1 <= q < |routes| ==> routes[q] == routes[1..][q - 1];
    }
  }

  lemma {:induction false} GitEntrySome(routes: seq<Row>, r: Row)
    requires r in routes && r.1.matcher == GitSmartHttp
    ensures GitEntry(routes).Some?
  {
    if routes[0].1.matcher != GitSmartHttp {
      assert routes == [routes[0]] + routes[1..];
      GitEntrySome(routes[1..], r);
    }
  }

  /**
   * A git path resolves to what the profile says of the git protocol of the route with the least key
   * that has one, its path verbatim; it is resolved as any other path exactly when no route has one.
   */
  lemma GitResolves(profile: Profile, table: seq<Row>, path: string)
    requires TableOf(table, Rows(profile)) && IsGitSmartHttp(path)
    ensures GitMatch(table, path) <==> exists i :: 0 <= i < |profile| && profile[i].1.gitProtocol.Some?
    ensures GitMatch(table, path) ==>
              exists i :: 0 <= i < |profile| && profile[i].1.gitProtocol.Some?
                && ResolveRoute(table, path) == Resolved(GitRow(profile[i].0, profile[i].1).1, path)
                && IsGitRow(profile[i].0, profile[i].1, GitRow(profile[i].0, profile[i].1))
                && forall j :: 0 <= j < |profile| && profile[j].1.gitProtocol.Some? ==>
                     var least, other := GitRow(profile[i].0, profile[i].1), GitRow(profile[j].0, profile[j].1);
                     other == least || Less(least.0, other.0)
  {
    forall i | 0 <= i < |profile| && profile[i].1.gitProtocol.Some?
      ensures GitMatch(table, path) && GitRow(profile[i].0, profile[i].1) in table
    {
      GitRowIn(profile, i);
      GitEntrySome(table, GitRow(profile[i].0, profile[i].1));
    }
    if GitMatch(table, path) {
      var p := GitEntryFirst(table);
      assert table[p] in Rows(profile);
      var i := FlattenFrom(Groups(profile), table[p]);
      OnlyGitRows(profile[i].0, profile[i].1, table[p]);
      forall j | 0 <= j < |profile| && profile[j].1.gitProtocol.Some?
        ensures var other := GitRow(profile[j].0, profile[j].1); other == table[p] || Less(table[p].0, other.0)
      {
        var q :| 0 <= q < |table| && table[q] == GitRow(profile[j].0, profile[j].1);
        assert q >= p;
      }
    }
  }
}
