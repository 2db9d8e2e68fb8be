/** Route profiles and their expansion into the route table (`profile.rs`). */
module Profiles {
  import opened Text
  import opened Tables

  datatype CredentialSource = CredentialSource(
    env: string, injectHeader: string, format: string, prefix: Option<string>,
    rejectPrefixes: seq<string>, extraHeaders: seq<(string, string)>, basicUser: Option<string>)

  datatype InjectMode = Header | UrlPath

  datatype RouteMatcher = Prefix | GitSmartHttp

  datatype RouteAlias = RouteAlias(prefix: string, stripPrefix: Option<string>)

  datatype GitProtocolRoute = GitProtocolRoute(upstream: string, sources: Option<seq<CredentialSource>>)

  datatype ProfileRoute = ProfileRoute(
    upstream: string, sources: seq<CredentialSource>, aliases: seq<RouteAlias>,
    injectMode: InjectMode, urlPathPrefix: Option<string>, gitProtocol: Option<GitProtocolRoute>)

  datatype RouteEntry = RouteEntry(
    canonicalRoute: string, upstream: string, sources: seq<CredentialSource>, stripPrefix: Option<string>,
    injectMode: InjectMode, urlPathPrefix: Option<string>, matcher: RouteMatcher)

  function FromProfile(key: string, route: ProfileRoute): RouteEntry {
    RouteEntry(key, route.upstream, route.sources, None, route.injectMode, route.urlPathPrefix, Prefix)
  }

  function FromAlias(canonical: string, entry: RouteEntry, alias: RouteAlias): RouteEntry {
    entry.(canonicalRoute := canonical, stripPrefix := alias.stripPrefix, matcher := Prefix)
  }

  function FromGitProtocol(parent: RouteEntry, git: GitProtocolRoute): RouteEntry {
    RouteEntry(parent.canonicalRoute, git.upstream,
               if git.sources.Some? then git.sources.value else parent.sources,
               None, Header, None, GitSmartHttp)
  }

  /** `trim_matches('/')`. */
  function NormalizeRouteKey(key: string): string {
    DropEnd(DropStart(key, '/'), '/')
  }

  /** A normalised key is the key without its leading and trailing slashes. */
  lemma NormalizeStrips(key: string) returns (left: string, right: string)
    ensures Only(left, '/') && Only(right, '/') && key == left + NormalizeRouteKey(key) + right
    ensures var n := NormalizeRouteKey(key); n == "" || (n[0] != '/' && n[|n| - 1] != '/')
  {
    left := DropStartSplits(key, '/');
    right := DropEndSplits(DropStart(key, '/'), '/');
    if NormalizeRouteKey(key) != "" {
      assert NormalizeRouteKey(key)[0] == DropStart(key, '/')[0];
    }
  }

  const GIT_KEY := "__git__"

  type Row = (string, RouteEntry)

  // ---------------------------------------------------------------- what a profile says

  /** The rows of one profile route, in the order they are inserted. */
  function RouteRows(prefix: string, route: ProfileRoute): seq<Row> {
    var key := NormalizeRouteKey(prefix);
    var entry := FromProfile(key, route);
    [(key, entry)] + AliasRows(key, entry, route.aliases) + GitRows(key, entry, route.gitProtocol)
  }

  function AliasRows(key: string, entry: RouteEntry, aliases: seq<RouteAlias>): (rows: seq<Row>)
    ensures |rows| == |aliases|
    ensures forall i :: 0 <= i < |aliases| ==>
              rows[i] == (NormalizeRouteKey(aliases[i].prefix), FromAlias(key, entry, aliases[i]))
  {
    seq(|aliases|, i requires 0 <= i < |aliases| =>
      (NormalizeRouteKey(aliases[i].prefix), FromAlias(key, entry, aliases[i])))
  }

  function GitRows(key: string, entry: RouteEntry, git: Option<GitProtocolRoute>): seq<Row> {
    match git
    case None => []
    case Some(g) => [(GIT_KEY + key, FromGitProtocol(entry, g))]
  }

  type Profile = seq<(string, ProfileRoute)>

  /** What a row under the route's own key says. */
  predicate IsCanonicalRow(prefix: string, route: ProfileRoute, row: Row) {
    && row.0 == row.1.canonicalRoute == NormalizeRouteKey(prefix)
    && row.1.upstream == route.upstream && row.1.sources == route.sources
    && row.1.injectMode == route.injectMode && row.1.urlPathPrefix == route.urlPathPrefix
    && row.1.stripPrefix == None && row.1.matcher == Prefix
  }

  /** What a row under an alias says: all the route says, and the alias's strip prefix. */
  predicate IsAliasRow(prefix: string, route: ProfileRoute, alias: RouteAlias, row: Row) {
    && row.0 == NormalizeRouteKey(alias.prefix) && row.1.canonicalRoute == NormalizeRouteKey(prefix)
    && row.1.upstream == route.upstream && row.1.sources == route.sources
    && row.1.injectMode == route.injectMode && row.1.urlPathPrefix == route.urlPathPrefix
    && row.1.stripPrefix == alias.stripPrefix && row.1.matcher == Prefix
  }

  /** What a git row says: git's own upstream and sources, or else the route's sources, in headers. */
  predicate IsGitRow(prefix: string, route: ProfileRoute, row: Row) {
    && route.gitProtocol.Some?
    && var git := route.gitProtocol.value;
       && row.0 == "__git__" + NormalizeRouteKey(prefix) && row.1.canonicalRoute == NormalizeRouteKey(prefix)
       && row.1.upstream == git.upstream
       && row.1.sources == (if git.sources.Some? then git.sources.value else route.sources)
       && row.1.injectMode == Header && row.1.urlPathPrefix == None
       && row.1.stripPrefix == None && row.1.matcher == GitSmartHttp
  }

  predicate Describes(prefix: string, route: ProfileRoute, row: Row) {
    || IsCanonicalRow(prefix, route, row)
    || (exists j :: 0 <= j < |route.aliases| && IsAliasRow(prefix, route, route.aliases[j], row))
    || IsGitRow(prefix, route, row)
  }

  lemma AliasRowsDescribed(prefix: string, route: ProfileRoute, row: Row)
    ensures var key := NormalizeRouteKey(prefix);
            row in AliasRows(key, FromProfile(key, route), route.aliases) <==>
            exists j :: 0 <= j < |route.aliases| && IsAliasRow(prefix, route, route.aliases[j], row)
  {
    var key := NormalizeRouteKey(prefix);
    var rows := AliasRows(key, FromProfile(key, route), route.aliases);
    forall j | 0 <= j < |route.aliases|
      ensures row == rows[j] <==> IsAliasRow(prefix, route, route.aliases[j], row)
    {
    }
    if row in rows {
      var j :| 0 <= j < |rows| && rows[j] == row;
      assert IsAliasRow(prefix, route, route.aliases[j], row);
    }
  }

  /** The rows of a route are exactly those the profile's own fields describe. */
  lemma RowsDescribed(prefix: string, route: ProfileRoute, row: Row)
    ensures row in RouteRows(prefix, route) <==> Describes(prefix, route, row)
  {
    var key := NormalizeRouteKey(prefix);
    var entry := FromProfile(key, route);
    AliasRowsDescribed(prefix, route, row);
    assert row == (key, entry) <==> IsCanonicalRow(prefix, route, row);
    assert row in GitRows(key, entry, route.gitProtocol) <==> IsGitRow(prefix, route, row);
  }

  /** The table says of every route of the profile what the profile says, and nothing else. */
  ghost predicate Expands(table: seq<Row>, profile: Profile) {
    forall row :: row in table <==> exists i :: 0 <= i < |profile| && Describes(profile[i].0, profile[i].1, row)
  }

  function Groups(profile: Profile): (groups: seq<seq<Row>>)
    ensures |groups| == |profile|
    ensures forall i :: 0 <= i < |profile| ==> groups[i] == RouteRows(profile[i].0, profile[i].1)
  {
    seq(|profile|, i requires 0 <= i < |profile| => RouteRows(profile[i].0, profile[i].1))
  }

  function Flatten<T>(groups: seq<seq<T>>): seq<T> {
    if groups == [] then [] else Flatten(groups[..|groups| - 1]) + groups[|groups| - 1]
  }

  /** All rows of a profile. */
  function Rows(profile: Profile): seq<Row> {
    Flatten(Groups(profile))
  }

  /** One row per route and per alias, and one for a git protocol. */
  function RowCount(profile: Profile): nat {
    if profile == [] then 0
    else
      var route := profile[|profile| - 1].1;
      RowCount(profile[..|profile| - 1]) + 1 + |route.aliases| + (if route.gitProtocol.Some? then 1 else 0)
  }

  predicate DistinctKeys(rows: seq<Row>) {
    forall i, j :: 0 <= i < j < |rows| ==> rows[i].0 != rows[j].0
  }

  /** `table` is the sorted table of `rows`. */
  ghost predicate TableOf(table: seq<Row>, rows: seq<Row>) {
    && StrictlySorted(table)
    && |table| == |rows|
    && forall r :: r in table <==> r in rows
  }

  lemma {:induction false} FlattenPrefix<T>(groups: seq<seq<T>>, i: nat)
    requires i <= |groups|
    ensures Flatten(groups[..i]) <= Flatten(groups)
    decreases |groups|
  {
    if i < |groups| {
      var shorter := groups[..|groups| - 1];
      FlattenPrefix(shorter, i);
      assert shorter[..i] == groups[..i];
    } else {
      assert groups[..i] == groups;
    }
  }

  lemma FlattenNext<T>(groups: seq<seq<T>>, i: nat)
    requires i < |groups|
    ensures Flatten(groups[..i + 1]) == Flatten(groups[..i]) + groups[i]
    ensures Flatten(groups[..i]) + groups[i] <= Flatten(groups)
  {
    var longer := groups[..i + 1];
    assert longer[..i] == groups[..i] && longer[i] == groups[i];
    FlattenPrefix(groups, i + 1);
  }

  lemma {:induction false} FlattenFrom<T>(groups: seq<seq<T>>, x: T) returns (i: nat)
    requires x in Flatten(groups)
    ensures i < |groups| && x in groups[i]
    decreases |groups|
  {
    var last := |groups| - 1;
    if x in groups[last] {
      i := last;
    } else {
      i := FlattenFrom(groups[..last], x);
    }
  }

  lemma FlattenHas<T>(groups: seq<seq<T>>, i: nat, x: T)
    requires i < |groups| && x in groups[i]
    ensures x in Flatten(groups)
  {
    FlattenNext(groups, i);
    var before := Flatten(groups[..i]);
    var j :| 0 <= j < |groups[i]| && groups[i][j] == x;
    assert (before + groups[i])[|before| + j] == x;
  }

  lemma TableExpands(table: seq<Row>, profile: Profile)
    requires TableOf(table, Rows(profile))
    ensures Expands(table, profile)
  {
    forall row
      ensures row in Rows(profile) <==> exists i :: 0 <= i < |profile| && Describes(profile[i].0, profile[i].1, row)
    {
      RowDescribed(profile, row);
    }
  }

  lemma RowDescribed(profile: Profile, row: Row)
    ensures row in Rows(profile) <==> exists i :: 0 <= i < |profile| && Describes(profile[i].0, profile[i].1, row)
  {
    if row in Rows(profile) {
      var i := FlattenFrom(Groups(profile), row);
      RowsDescribed(profile[i].0, profile[i].1, row);
    }
    if i :| 0 <= i < |profile| && Describes(profile[i].0, profile[i].1, row) {
      RowsDescribed(profile[i].0, profile[i].1, row);
      FlattenHas(Groups(profile), i, row);
    }
  }

  lemma GroupsTake(profile: Profile, i: nat)
    requires i <= |profile|
    ensures Groups(profile[..i]) == Groups(profile)[..i]
  {
  }

  lemma {:induction false} RowsCounted(profile: Profile)
    ensures |Rows(profile)| == RowCount(profile)
    decreases |profile|
  {
    if profile != [] {
      GroupsTake(profile, |profile| - 1);
      RowsCounted(profile[..|profile| - 1]);
      RouteRowsCounted(profile[|profile| - 1].0, profile[|profile| - 1].1);
    }
  }

  lemma RouteRowsCounted(prefix: string, route: ProfileRoute)
    ensures |RouteRows(prefix, route)| == 1 + |route.aliases| + (if route.gitProtocol.Some? then 1 else 0)
  {
  }

  // ---------------------------------------------------------------- expansion

  datatype ExpandError = DuplicateRoute(prefix: string, key: string) | DuplicateEntry(key: string)

  datatype Result<T, E> = Ok(value: T) | Err(error: E)

  /** The rows inserted so far are the sorted table, and a duplicate is noticed when it is inserted. */
  method InsertRoute(table: seq<Row>, ghost done: seq<Row>, row: Row) returns (r: Result<seq<Row>, ExpandError>)
    requires TableOf(table, done) && DistinctKeys(done)
    ensures r.Ok? <==> !HasKey(done, row.0)
    ensures r.Ok? ==> TableOf(r.value, done + [row]) && DistinctKeys(done + [row])
    ensures r.Err? ==> r.error == DuplicateEntry(row.0) && !DistinctKeys(done + [row])
  {
    HasKeySame(table, done, row.0);
    if HasKey(table, row.0) {
      ghost var i :| 0 <= i < |done| && done[i].0 == row.0;
      assert (done + [row])[i].0 == (done + [row])[|done|].0;
      return Err(DuplicateEntry(row.0));
    }
    InsertedHolds(table, row);
    InsertedSorted(table, row);
    r := Ok(Inserted(table, row));
  }

  lemma HasKeySame(table: seq<Row>, done: seq<Row>, key: string)
    requires forall r :: r in table <==> r in done
    ensures HasKey(table, key) <==> HasKey(done, key)
  {
    if HasKey(table, key) {
      var i :| 0 <= i < |table| && table[i].0 == key;
      assert table[i] in done;
      var j :| 0 <= j < |done| && done[j] == table[i];
    }
    if HasKey(done, key) {
      var i :| 0 <= i < |done| && done[i].0 == key;
      assert done[i] in table;
      var j :| 0 <= j < |table| && table[j] == done[i];
    }
  }

  lemma PrefixNotDistinct(a: seq<Row>, b: seq<Row>)
    requires a <= b && !DistinctKeys(a)
    ensures !DistinctKeys(b)
  {
    var i, j :| 0 <= i < j < |a| && a[i].0 == a[j].0;
    assert b[i].0 == b[j].0;
  }

  /** Two groups that start with the same key make the flattened rows ambiguous. */
  lemma DuplicateHeads(groups: seq<seq<Row>>, i: nat, j: nat)
    requires i < j < |groups| && groups[i] != [] && groups[j] != [] && groups[i][0].0 == groups[j][0].0
    ensures !DistinctKeys(Flatten(groups))
  {
    FlattenPrefix(groups[..j], i + 1);
    assert groups[..j][..i + 1] == groups[..i + 1];
    FlattenNext(groups, i);
    FlattenNext(groups, j);
    var rows, p, q := Flatten(groups), |Flatten(groups[..i])|, |Flatten(groups[..j])|;
    assert rows[p] == groups[i][0] && rows[q] == groups[j][0] && p < q;
  }

  lemma DuplicateRoutes(profile: Profile, i: nat, j: nat)
    requires i < j < |profile| && NormalizeRouteKey(profile[i].0) == NormalizeRouteKey(profile[j].0)
    ensures !DistinctKeys(Rows(profile))
  {
    DuplicateHeads(Groups(profile), i, j);
  }

  /** The first pass: two routes must not normalise to one key. */
  method CheckRouteKeys(profile: Profile) returns (r: Result<(), ExpandError>)
    ensures r.Err? ==> !DistinctKeys(Rows(profile))
    ensures r.Ok? ==> forall i, j :: 0 <= i < j < |profile| ==>
                        NormalizeRouteKey(profile[i].0) != NormalizeRouteKey(profile[j].0)
  {
    var originalKeys: set<string> := {};
    for i := 0 to |profile|
      invariant originalKeys == set k | 0 <= k < i :: NormalizeRouteKey(profile[k].0)
      invariant forall k, l :: 0 <= k < l < i ==> NormalizeRouteKey(profile[k].0) != NormalizeRouteKey(profile[l].0)
    {
      var key := NormalizeRouteKey(profile[i].0);
      if key in originalKeys {
        ghost var k :| 0 <= k < i && NormalizeRouteKey(profile[k].0) == key;
        DuplicateRoutes(profile, k, i);
        return Err(DuplicateRoute(profile[i].0, key));
      }
      originalKeys := originalKeys + {key};
    }
    r := Ok(());
  }

  /** Inserts the alias rows of one route. */
  method InsertAliases(table: seq<Row>, ghost done: seq<Row>, key: string, entry: RouteEntry, aliases: seq<RouteAlias>)
    returns (r: Result<seq<Row>, ExpandError>)
    requires TableOf(table, done) && DistinctKeys(done)
    ensures r.Ok? <==> DistinctKeys(done + AliasRows(key, entry, aliases))
    ensures r.Ok? ==> TableOf(r.value, done + AliasRows(key, entry, aliases))
  {
    ghost var rows := AliasRows(key, entry, aliases);
    var routes := table;
    assert done + rows[..0] == done;
    for j := 0 to |aliases|
      invariant TableOf(routes, done + rows[..j]) && DistinctKeys(done + rows[..j])
    {
      assert done + rows[..j] + [rows[j]] == done + rows[..j + 1];
      var row := (NormalizeRouteKey(aliases[j].prefix), FromAlias(key, entry, aliases[j]));
      r := InsertRoute(routes, done + rows[..j], row);
      if r.Err? {
        assert done + rows[..j + 1] <= done + rows;
        PrefixNotDistinct(done + rows[..j + 1], done + rows);
        return;
      }
      routes := r.value;
    }
    assert rows[..|aliases|] == rows;
    r := Ok(routes);
  }

  /** Inserts the rows of one profile route. */
  method ExpandRoute(table: seq<Row>, ghost done: seq<Row>, prefix: string, route: ProfileRoute)
    returns (r: Result<seq<Row>, ExpandError>)
    requires TableOf(table, done) && DistinctKeys(done)
    ensures r.Ok? <==> DistinctKeys(done + RouteRows(prefix, route))
    ensures r.Ok? ==> TableOf(r.value, done + RouteRows(prefix, route))
  {
    var key := NormalizeRouteKey(prefix);
    var entry := FromProfile(key, route);
    ghost var aliases, git := AliasRows(key, entry, route.aliases), GitRows(key, entry, route.gitProtocol);
    ghost var withHead := done + [(key, entry)];
    assert withHead + aliases + git == done + RouteRows(prefix, route);
    r := InsertRoute(table, done, (key, entry));
    if r.Err? {
      assert withHead <= withHead + aliases + git;
      PrefixNotDistinct(withHead, withHead + aliases + git);
      return;
    }
    r := InsertAliases(r.value, withHead, key, entry, route.aliases);
    if r.Err? {
      assert withHead + aliases <= withHead + aliases + git;
      PrefixNotDistinct(withHead + aliases, withHead + aliases + git);
      return;
    }
    if route.gitProtocol.Some? {
      r := InsertRoute(r.value, withHead + aliases, (GIT_KEY + key, FromGitProtocol(entry, route.gitProtocol.value)));
    } else {
      assert withHead + aliases + git == withHead + aliases;
    }
  }

  /** The second pass: all rows go into one table. */
  method InsertAll(profile: Profile) returns (r: Result<seq<Row>, ExpandError>)
    ensures r.Ok? <==> DistinctKeys(Rows(profile))
    ensures r.Ok? ==> TableOf(r.value, Rows(profile))
  {
    ghost var groups := Groups(profile);
    var routes: seq<Row> := [];
    for i := 0 to |profile|
      invariant TableOf(routes, Flatten(groups[..i])) && DistinctKeys(Flatten(groups[..i]))
    {
      FlattenNext(groups, i);
      r := ExpandRoute(routes, Flatten(groups[..i]), profile[i].0, profile[i].1);
      if r.Err? {
        PrefixNotDistinct(Flatten(groups[..i + 1]), Rows(profile));
        return;
      }
      routes := r.value;
    }
    assert groups[..|profile|] == groups;
    r := Ok(routes);
  }

  /**
   * `expand_profile_routes`: Ok exactly when all normalised route, alias and git keys are distinct;
   * then the table is sorted, holds exactly the profile's rows, and has one row per route, alias and
   * git protocol.
   */
  method ExpandProfileRoutes(profile: Profile) returns (r: Result<seq<Row>, ExpandError>)
    ensures r.Ok? <==> DistinctKeys(Rows(profile))
    ensures r.Ok? ==> TableOf(r.value, Rows(profile)) && |r.value| == RowCount(profile) && Expands(r.value, profile)
  {
    var checked := CheckRouteKeys(profile);
    if checked.Err? {
      return Err(checked.error);
    }
    r := InsertAll(profile);
    RowsCounted(profile);
    if r.Ok? {
      TableExpands(r.value, profile);
    }
  }
}
