/** The registry as one caller at a time sees it. */
module TokenRegistries {
  import opened Text
  import opened TokenRecords
  import opened RegistryModel
  import opened RegistryMachine
  import opened RegistryRuns

  datatype CreateResult = Created(record: TokenRecord, token: string) | DuplicateName(name: string) | CreateNotPersisted

  datatype RevokeResult = Found(revoked: bool) | RevokeNotPersisted

  /**
   * `tokens` is the locked vector and `file` what the file at `file_path` holds. Whether a persist
   * fails, the fresh id, the fresh token and the time are the environment's to choose.
   */
  class TokenRegistry {
    var tokens: seq<TokenRecord>
    var file: TokenFile

    /** Memory is what loading the file now would give, up to the legacy migration. */
    ghost predicate Synced()
      reads this
    {
      Migrated(tokens) == Load(file)
    }

    /** Memory is exactly what loading the file now would give. */
    ghost predicate Exact()
      reads this
    {
      tokens == Load(file)
    }

    constructor LoadOrCreate(onDisk: TokenFile)
      ensures tokens == Load(onDisk) && file == onDisk
      ensures Synced() && Exact()
    {
      var records := if onDisk.Snapshot? then onDisk.records else [];
      var i := 0;
      while i < |records|
        invariant i <= |records| == |Stored(onDisk)|
        invariant forall k :: 0 <= k < i ==> records[k] == Migrate(Stored(onDisk)[k])
        invariant forall k :: i <= k < |records| ==> records[k] == Stored(onDisk)[k]
      {
        if records[i].scope == [] && !records[i].allRoutes {
          records := records[i := records[i].(allRoutes := true)];
        }
        i := i + 1;
      }
      tokens := records;
      file := onDisk;
      new;
      assert tokens == Load(onDisk);
      MigrateIdempotent(Stored(onDisk));
    }

    /** Replaces the file with the current records, or fails and leaves it alone. */
    method Persist(fails: bool) returns (ok: bool)
      modifies this`file
      ensures ok == !fails
      ensures file == if ok then Snapshot(tokens) else old(file)
    {
      if !fails {
        file := Snapshot(tokens);
      }
      ok := !fails;
    }

    method CreateToken(request: Request, id: Id, token: string, now: int, persistFails: bool) returns (r: CreateResult)
      requires !HasId(tokens, id)
      modifies this
      ensures r.DuplicateName? <==> old(HasName(tokens, request.name))
      ensures r.DuplicateName? ==> r.name == request.name
      ensures r.Created? <==> !old(HasName(tokens, request.name)) && !persistFails
      ensures r.Created? ==> r.record == NewRecord(id, token, now, request) && r.token == token
      ensures r.Created? ==> IsNewRecord(r.record, id, token, now, request)
      ensures r.Created? ==> tokens == old(tokens) + [r.record] && file == Snapshot(tokens)
      ensures !r.Created? ==> tokens == old(tokens) && file == old(file)
      ensures old(Synced()) ==> Synced()
      ensures old(Exact()) && r.Created? ==> (Exact() <==> request.Explicit())
    {
      if HasName(tokens, request.name) {
        return DuplicateName(request.name);
      }
      var record := NewRecord(id, token, now, request);
      tokens := tokens + [record];
      var ok := Persist(persistFails);
      if !ok {
        tokens := Without(tokens, record.id);
        WithoutUndoesPush(old(tokens), record);
        return CreateNotPersisted;
      }
      r := Created(record, token);
      if old(Exact()) {
        ExactAfterPush(old(file), record);
      }
    }

    method ValidateToken(token: string) returns (r: Option<TokenRecord>)
      ensures r.None? <==> forall i :: 0 <= i < |tokens| ==> !Authenticates(tokens[i], token)
      ensures r.Some? ==> exists i: nat :: FirstOf(tokens, token, i) && r.value == tokens[i]
      ensures r == Validate(tokens, token)
    {
      r := Validate(tokens, token);
      ValidateFirst(tokens, token);
    }

    method ListTokens() returns (r: seq<TokenRecord>)
      ensures r == tokens
    {
      r := tokens;
    }

    method RevokeToken(id: Id, persistFails: bool) returns (r: RevokeResult)
      modifies this
      ensures r == Found(false) <==> !old(HasId(tokens, id))
      ensures r == Found(true) <==> old(HasId(tokens, id)) && !persistFails
      ensures r == Found(true) ==> tokens == WithStatus(old(tokens), id, Revoked) && file == Snapshot(tokens)
      ensures r != Found(true) ==> tokens == old(tokens) && file == old(file)
      ensures old(Synced()) ==> Synced()
      ensures old(Exact()) ==> Exact()
    {
      LookupIffHasId(tokens, id);
      match Lookup(tokens, id)
      case None =>
        return Found(false);
      case Some(record) =>
        var previous := record.status;
        tokens := WithStatus(tokens, id, Revoked);
        StatusRestored(old(tokens), id, Revoked);
        var ok := Persist(persistFails);
        if !ok {
          match Lookup(tokens, id)
          case None =>
          case Some(_) => tokens := WithStatus(tokens, id, previous);
          return RevokeNotPersisted;
        }
        r := Found(true);
        if old(Exact()) {
          MigrateIdempotent(Stored(old(file)));
          MigratedFixed(old(tokens));
          WithStatusExplicit(old(tokens), id, Revoked);
          MigratedFixed(tokens);
        }
    }
  }

  /** A record whose scope the migration would widen is the one thing a restart changes. */
  lemma ExactAfterPush(file: TokenFile, r: TokenRecord)
    ensures var rs := Load(file) + [r]; rs == Migrated(rs) <==> r.scope != [] || r.allRoutes
  {
    var rs := Load(file) + [r];
    MigratedFixed(rs);
    assert rs[|Load(file)|] == r;
    assert forall i :: 0 <= i < |Load(file)| ==> rs[i] == Load(file)[i];
  }

  // ---------------------------------------------------------------- one call after another

  datatype Call =
    | CallCreate(id: Id, token: string, now: int, request: Request, persistFails: bool)
    | CallRevoke(target: Id, persistFails: bool)
    | CallRestart

  /** The steps of a call that nothing interleaves with; steps that do not apply do nothing. */
  function CallTrace(c: Call): seq<Event> {
    match c
    case CallCreate(id, token, now, request, fails) => [BeginCreate(0, id, token, now, request)] + Ending(fails)
    case CallRevoke(target, fails) => [BeginRevoke(0, target)] + Ending(fails)
    case CallRestart => [Crash] + []
  }

  function Ending(fails: bool): seq<Event> {
    if fails then [PersistFail(0)] + ([RollBack(0)] + []) else [PersistOk(0)] + []
  }

  function CallsTrace(calls: seq<Call>): seq<Event> {
    if calls == [] then [] else CallTrace(calls[0]) + CallsTrace(calls[1..])
  }

  lemma EndingRun(s: State, fails: bool)
    ensures Run(s, Ending(fails)) ==
            if fails then Apply(Apply(s, PersistFail(0)), RollBack(0)) else Apply(s, PersistOk(0))
  {
    if fails {
      RunCons(s, PersistFail(0), [RollBack(0)] + []);
      RunCons(Apply(s, PersistFail(0)), RollBack(0), []);
    } else {
      RunCons(s, PersistOk(0), []);
    }
  }

  /**
   * `CreateToken` is the uninterrupted run of its steps: it leaves the memory and the file the
   * contract of the class says, and nothing in flight.
   */
  lemma CreateIsARun(s: State, id: Id, token: string, now: int, request: Request, fails: bool)
    requires s.Quiescent() && !HasId(s.mem, id)
    requires s.log.Fresh(NewRecord(id, token, now, request))
    ensures var t := Run(s, CallTrace(CallCreate(id, token, now, request, fails)));
            && t.Quiescent()
            && (if HasName(s.mem, request.name) || fails then t.mem == s.mem && t.file == s.file
                else t.mem == s.mem + [NewRecord(id, token, now, request)] && t.file == Snapshot(t.mem))
  {
    var r := NewRecord(id, token, now, request);
    RunCons(s, BeginCreate(0, id, token, now, request), Ending(fails));
    EndingRun(DoCreate(s, 0, r), fails);
    WithoutUndoesPush(s.mem, r);
  }

  lemma RevokeIsARun(s: State, id: Id, fails: bool)
    requires s.Quiescent()
    ensures var t := Run(s, CallTrace(CallRevoke(id, fails)));
            && t.Quiescent()
            && (if !HasId(s.mem, id) || fails then t.mem == s.mem && t.file == s.file
                else t.mem == WithStatus(s.mem, id, Revoked) && t.file == Snapshot(t.mem))
  {
    RunCons(s, BeginRevoke(0, id), Ending(fails));
    EndingRun(DoRevoke(s, 0, id), fails);
    LookupIffHasId(s.mem, id);
    if HasId(s.mem, id) {
      StatusRestored(s.mem, id, Revoked);
    }
  }

  /** What every run of whole calls keeps. */
  ghost predicate Whole(s: State) {
    s.Quiescent() && Migrated(s.mem) == Load(s.file)
  }

  lemma CallKeepsWhole(s: State, c: Call)
    requires Whole(s)
    requires c.CallCreate? ==> !HasId(s.mem, c.id) || !s.log.Fresh(NewRecord(c.id, c.token, c.now, c.request))
    ensures Whole(Run(s, CallTrace(c)))
  {
    match c
    case CallCreate(id, token, now, request, fails) =>
      if s.log.Fresh(NewRecord(id, token, now, request)) {
        CreateIsARun(s, id, token, now, request, fails);
      } else {
        RunCons(s, BeginCreate(0, id, token, now, request), Ending(fails));
        EndingRun(s, fails);
      }
    case CallRevoke(target, fails) =>
      RevokeIsARun(s, target, fails);
    case CallRestart =>
      RunCons(s, Crash, []);
      MigrateIdempotent(Stored(s.file));
  }

  /**
   * With calls one after another, memory and file are the same but for the legacy migration after
   * every call, whichever persists fail and wherever the process restarts: the rollbacks are exact.
   */
  lemma {:induction false} SequentialStaysSynced(s: State, m: Model, calls: seq<Call>)
    requires Refines(s, m) && Inv(m) && Whole(s)
    ensures Whole(Run(s, CallsTrace(calls)))
    decreases |calls|
  {
    if calls != [] {
      var c, t := calls[0], Run(s, CallTrace(calls[0]));
      if c.CallCreate? {
        MatchesLookup(s.mem, m.mem, m.log.known, c.id);
        LookupIffHasId(s.mem, c.id);
      }
      CallKeepsWhole(s, c);
      RunRefines(s, m, CallTrace(c));
      StepsKeep(m, CallTrace(c));
      SequentialStaysSynced(t, Steps(m, CallTrace(c)), calls[1..]);
      RunConcat(s, CallTrace(c), CallsTrace(calls[1..]));
    }
  }

  /** And memory is exactly what a load would give if and only if no record of it has an empty scope. */
  lemma SequentialSynced(file: TokenFile, calls: seq<Call>)
    requires GoodFile(file)
    ensures Migrated(After(file, CallsTrace(calls)).mem) == Load(After(file, CallsTrace(calls)).file)
    ensures var t := After(file, CallsTrace(calls)); t.mem == Load(t.file) <==> AllExplicit(t.mem)
    ensures After(file, CallsTrace(calls)).Quiescent()
  {
    MigratedFixed(After(file, CallsTrace(calls)).mem);
    StartRefines(file);
    MigrateIdempotent(Stored(file));
    SequentialStaysSynced(Start(file), Begin(StatusesOf(Stored(file)), KnownOf(Stored(file))), calls);
  }

  ghost predicate ExplicitCalls(calls: seq<Call>) {
    forall i :: 0 <= i < |calls| && calls[i].CallCreate? ==> calls[i].request.Explicit()
  }

  lemma {:induction false} ExplicitCallsTrace(calls: seq<Call>)
    requires ExplicitCalls(calls)
    ensures ExplicitOnly(CallsTrace(calls))
  {
    if calls != [] {
      ExplicitCallsTrace(calls[1..]);
      var head: seq<Event>, rest: seq<Event> := CallTrace(calls[0]), CallsTrace(calls[1..]);
      var all: seq<Event> := head + rest;
      forall i | 0 <= i < |all| && all[i].BeginCreate?
        ensures all[i].request.Explicit()
      {
        if i >= |head| {
          assert all[i] == rest[i - |head|];
        }
      }
    }
  }

  /**
   * A registry built by calls the admin API validated is exactly what a restart loads, persist
   * failures included: every token validates to the same record, with the same routes.
   */
  lemma SequentialRestart(file: TokenFile, calls: seq<Call>)
    requires GoodFile(file) && ExplicitCalls(calls)
    ensures var t := After(file, CallsTrace(calls)); Load(t.file) == t.mem
    ensures var t := After(file, CallsTrace(calls));
            forall token, route ::
              var now, restarted := Validate(t.mem, token), Validate(Load(t.file), token);
              && now == restarted
              && (now.Some? ==>
                    (now.value.AllowsRoute(route) <==> restarted.value.allRoutes || route in restarted.value.scope))
  {
    SequentialSynced(file, calls);
    ExplicitCallsTrace(calls);
    ExplicitRun(Start(file), CallsTrace(calls));
    MigratedFixed(After(file, CallsTrace(calls)).mem);
  }
}
