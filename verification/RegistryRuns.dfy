/** What holds in every run of the registry, whatever interleaves, fails or crashes. */
module RegistryRuns {
  import opened Text
  import opened TokenRecords
  import opened RegistryModel
  import opened RegistryMachine

  /** The state after a run from a file, and the model's. */
  function After(file: TokenFile, trace: seq<Event>): State {
    Run(Start(file), trace)
  }

  function ModelAfter(file: TokenFile, trace: seq<Event>): Model {
    Steps(Begin(StatusesOf(Stored(file)), KnownOf(Stored(file))), trace)
  }

  lemma Reached(file: TokenFile, trace: seq<Event>)
    requires GoodFile(file)
    ensures Refines(After(file, trace), ModelAfter(file, trace)) && Inv(ModelAfter(file, trace))
  {
    StartRefines(file);
    var m := Begin(StatusesOf(Stored(file)), KnownOf(Stored(file)));
    RunRefines(Start(file), m, trace);
    StepsKeep(m, trace);
  }

  // ---------------------------------------------------------------- history only grows

  ghost predicate Extends(a: Log, b: Log) {
    && a.created <= b.created && a.revokeAsked <= b.revokeAsked && a.revokeFailed <= b.revokeFailed
    && (forall id :: id in a.known ==> id in b.known && b.known[id] == a.known[id])
  }

  lemma StepExtends(s: State, e: Event)
    ensures Extends(s.log, Apply(s, e).log)
  {
  }

  lemma {:induction false} RunExtends(s: State, trace: seq<Event>)
    ensures Extends(s.log, Run(s, trace).log)
    decreases |trace|
  {
    if trace != [] {
      StepExtends(s, trace[0]);
      RunExtends(Apply(s, trace[0]), trace[1..]);
    }
  }

  // ---------------------------------------------------------------- creates are durable

  /**
   * Once `create_token` returned Ok, its record is in memory and on disk in every later state, and
   * is a version of the record that was created.
   */
  lemma CreateIsDurable(file: TokenFile, before: seq<Event>, after: seq<Event>, id: Id)
    requires GoodFile(file)
    requires id in After(file, before).log.created
    ensures var s, t := After(file, before), After(file, before + after);
            && id in s.log.known
            && Lookup(s.mem, id).Some? && Lookup(t.mem, id).Some? && Lookup(Stored(t.file), id).Some?
            && VersionOf(Lookup(t.mem, id).value, s.log.known[id])
            && VersionOf(Lookup(Stored(t.file), id).value, s.log.known[id])
  {
    var s, t := After(file, before), After(file, before + after);
    Reached(file, before);
    Reached(file, before + after);
    RunConcat(Start(file), before, after);
    RunExtends(s, after);
    var m, n := ModelAfter(file, before), ModelAfter(file, before + after);
    MatchesLookup(s.mem, m.mem, m.log.known, id);
    MatchesLookup(t.mem, n.mem, n.log.known, id);
    MatchesLookup(Stored(t.file), n.disk, n.log.known, id);
  }

  /**
   * And that record is the one that was asked for: from the step that pushes it on, if the create is
   * acknowledged at some point, every later state has a version of exactly the request's record in
   * memory and on disk.
   */
  lemma CreatedAsRequested(file: TokenFile, before: seq<Event>, op: nat, id: Id, token: string, now: int,
                           request: Request, during: seq<Event>, after: seq<Event>)
    requires GoodFile(file)
    requires var s, e := After(file, before), BeginCreate(op, id, token, now, request);
             s.log.Enabled(e) && !HasName(s.mem, request.name)
    requires id in After(file, before + ([BeginCreate(op, id, token, now, request)] + during)).log.created
    ensures var t, r := After(file, before + ([BeginCreate(op, id, token, now, request)] + during) + after),
                        NewRecord(id, token, now, request);
            && TokenOf(t.log, id, token) && t.log.known[id] == r && IsNewRecord(r, id, token, now, request)
            && Lookup(t.mem, id).Some? && VersionOf(Lookup(t.mem, id).value, r)
            && Lookup(Stored(t.file), id).Some? && VersionOf(Lookup(Stored(t.file), id).value, r)
  {
    var s, e := After(file, before), BeginCreate(op, id, token, now, request);
    var mid := before + ([e] + during);
    RunConcat(Start(file), before, [e] + during);
    assert ([e] + during)[1..] == during;
    assert After(file, mid) == Run(Apply(s, e), during);
    RunExtends(Apply(s, e), during);
    RunConcat(Start(file), mid, after);
    RunExtends(After(file, mid), after);
    CreateIsDurable(file, mid, after, id);
  }

  /** A token validates exactly when the copy has its id as active. */
  lemma MatchesValidate(rs: seq<TokenRecord>, v: Copy, known: map<Id, TokenRecord>, id: Id, token: string)
    requires Matches(rs, v, known) && HashesDiffer(known)
    requires id in known && known[id].tokenHash == Digest(token)
    ensures Validate(rs, token).Some? <==> id in v && v[id] == Active
    ensures Validate(rs, token).Some? ==> Validate(rs, token).value.id == id
  {
    var found := Validate(rs, token);
    if found.Some? {
      var i :| 0 <= i < |rs| && rs[i] == found.value;
      assert known[rs[i].id].tokenHash == Digest(token);
    }
    if id in v && v[id] == Active {
      var i :| 0 <= i < |rs| && rs[i].id == id;
      assert VersionOf(rs[i], known[id]) && rs[i].status == Active;
    }
  }

  /** The token that id `id` was created with. */
  predicate TokenOf(log: Log, id: Id, token: string) {
    id in log.known && log.known[id].tokenHash == Digest(token)
  }

  /** `TokenOf` at the state of a run: here and after a restart the copies decide. */
  lemma ReachedValidate(file: TokenFile, trace: seq<Event>, id: Id, token: string)
    requires GoodFile(file) && TokenOf(After(file, trace).log, id, token)
    ensures var t, m := After(file, trace), ModelAfter(file, trace);
            && (Validate(t.mem, token).Some? <==> id in m.mem && m.mem[id] == Active)
            && (Validate(t.mem, token).Some? ==> Validate(t.mem, token).value.id == id)
    ensures var t, m := After(file, trace), ModelAfter(file, trace);
            && (Validate(Load(t.file), token).Some? <==> id in m.disk && m.disk[id] == Active)
            && (Validate(Load(t.file), token).Some? ==> Validate(Load(t.file), token).value.id == id)
  {
    var t, m := After(file, trace), ModelAfter(file, trace);
    Reached(file, trace);
    MatchesValidate(t.mem, m.mem, m.log.known, id, token);
    MatchesMigrated(Stored(t.file), m.disk, m.log.known);
    MatchesValidate(Load(t.file), m.disk, m.log.known, id, token);
  }

  /**
   * An acknowledged token keeps authenticating, here and after a restart at any point, for as long
   * as nobody asks to revoke it.
   */
  lemma CreatedTokenAuthenticates(file: TokenFile, trace: seq<Event>, id: Id, token: string)
    requires GoodFile(file)
    requires var log := After(file, trace).log;
             id in log.created && id !in log.revokeAsked && TokenOf(log, id, token)
    ensures var t := After(file, trace);
            && Validate(t.mem, token).Some? && Validate(t.mem, token).value.id == id
            && Validate(Load(t.file), token).Some? && Validate(Load(t.file), token).value.id == id
  {
    Reached(file, trace);
    ReachedValidate(file, trace, id, token);
  }

  // ---------------------------------------------------------------- revocation

  ghost predicate InactiveList(rs: seq<TokenRecord>, id: Id) {
    forall i :: 0 <= i < |rs| && rs[i].id == id ==> rs[i].status == Revoked
  }

  /** No record with this id is active, in memory or on disk. */
  ghost predicate Inactive(s: State, id: Id) {
    InactiveList(s.mem, id) && InactiveList(Stored(s.file), id)
  }

  ghost predicate CapturedActive(ops: map<nat, Op>, id: Id) {
    exists k :: k in ops && !ops[k].Create() && ops[k].id == id && ops[k].previous == Active
  }

  /** A revoke in flight captured the status `Active` and may still put it back. */
  ghost predicate HoldsActive(s: State, id: Id) {
    HasId(s.mem, id) && CapturedActive(s.log.ops, id)
  }

  ghost predicate Settled(m: Model, id: Id) {
    InactiveIn(m.mem, id) && InactiveIn(m.disk, id) && !(id in m.mem && CapturedActive(m.log.ops, id))
  }

  lemma SettledStep(m: Model, e: Event, id: Id)
    requires Settled(m, id) && id in m.log.known
    ensures Settled(Step(m, e), id)
  {
    var n, ops := Step(m, e), Step(m, e).log.ops;
    forall k | k in ops && !ops[k].Create() && ops[k].id == id && id in n.mem
      ensures ops[k].previous == Revoked
    {
      assert id in m.mem || e.Crash?;
      if k in m.log.ops {
        assert ops[k].previous == m.log.ops[k].previous;
      }
    }
  }

  lemma {:induction false} SettledSteps(m: Model, trace: seq<Event>, id: Id)
    requires Settled(m, id) && id in m.log.known
    ensures Settled(Steps(m, trace), id)
    decreases |trace|
  {
    if trace != [] {
      SettledStep(m, trace[0], id);
      SettledSteps(Step(m, trace[0]), trace[1..], id);
    }
  }

  /** A run in which the revoke that captured `Active` fails to persist and puts it back. */
  lemma Restores(m: Model, id: Id) returns (trace: seq<Event>)
    requires id in m.mem && CapturedActive(m.log.ops, id)
    ensures Steps(m, trace).mem == m.mem[id := Active]
  {
    var k :| k in m.log.ops && !m.log.ops[k].Create() && m.log.ops[k].id == id && m.log.ops[k].previous == Active;
    if m.log.ops[k].Failed() {
      trace := [RollBack(k)];
      assert Steps(m, trace) == Steps(Undo(m, k), []);
    } else {
      trace := [PersistFail(k), RollBack(k)];
      var mid := Fail(m, k);
      assert mid.log.ops[k] == RevokeFailed(id, Active);
      assert trace[1..] == [RollBack(k)];
      assert Steps(m, trace) == Steps(mid, [RollBack(k)]) == Steps(Undo(mid, k), []);
    }
  }

  lemma MatchesInactive(rs: seq<TokenRecord>, v: Copy, known: map<Id, TokenRecord>, id: Id)
    requires Matches(rs, v, known)
    ensures InactiveList(rs, id) <==> InactiveIn(v, id)
  {
    if id in v {
      var i :| 0 <= i < |rs| && rs[i].id == id;
    }
  }

  lemma RefinesInactive(s: State, m: Model, id: Id)
    requires Refines(s, m)
    ensures Inactive(s, id) <==> InactiveIn(m.mem, id) && InactiveIn(m.disk, id)
    ensures HasId(s.mem, id) <==> id in m.mem
  {
    MatchesInactive(s.mem, m.mem, m.log.known, id);
    MatchesInactive(Stored(s.file), m.disk, m.log.known, id);
  }

  /** Whatever happens from here on, the id stays inactive. */
  ghost predicate StaysInactive(s: State, id: Id) {
    forall trace :: Inactive(Run(s, trace), id)
  }

  /**
   * The exact condition under which a revocation is final: the record is inactive now, and no
   * revoke of it in flight captured `Active`.
   */
  lemma RevocationFinalIff(file: TokenFile, before: seq<Event>, id: Id)
    requires GoodFile(file) && id in After(file, before).log.known
    ensures var s := After(file, before); StaysInactive(s, id) <==> Inactive(s, id) && !HoldsActive(s, id)
  {
    var s, m := After(file, before), ModelAfter(file, before);
    Reached(file, before);
    RefinesInactive(s, m, id);
    if StaysInactive(s, id) {
      assert Inactive(Run(s, []), id);
      if HoldsActive(s, id) {
        var trace := Restores(m, id);
        RunRefines(s, m, trace);
        RefinesInactive(Run(s, trace), Steps(m, trace), id);
        assert false;
      }
    } else if Inactive(s, id) && !HoldsActive(s, id) {
      var trace :| !Inactive(Run(s, trace), id);
      RunRefines(s, m, trace);
      RefinesInactive(Run(s, trace), Steps(m, trace), id);
      SettledSteps(m, trace, id);
    }
  }

  /**
   * In a run in which no revoke of the id fails to persist, an acknowledged revocation holds: no
   * record with the id is active, and its token validates neither here nor after a restart.
   */
  lemma RevokedTokenNeverValidates(file: TokenFile, trace: seq<Event>, id: Id, token: string)
    requires GoodFile(file)
    requires var log := After(file, trace).log;
             id in log.revoked && id !in log.revokeFailed && TokenOf(log, id, token)
    ensures var t := After(file, trace);
            Inactive(t, id) && Validate(t.mem, token) == None && Validate(Load(t.file), token) == None
  {
    Reached(file, trace);
    RefinesInactive(After(file, trace), ModelAfter(file, trace), id);
    ReachedValidate(file, trace, id, token);
  }

  /** Two overlapping revokes: the second is acknowledged, then the first fails to persist. */
  function Overlap(first: nat, second: nat, id: Id): seq<Event> {
    [BeginRevoke(first, id)] + ([BeginRevoke(second, id)] + ([PersistOk(second)] + OverlapEnd(first)))
  }

  function OverlapEnd(first: nat): seq<Event> {
    [PersistFail(first)] + ([RollBack(first)] + [])
  }

  lemma StepsCons(m: Model, e: Event, rest: seq<Event>)
    ensures Steps(m, [e] + rest) == Steps(Step(m, e), rest)
  {
    assert ([e] + rest)[1..] == rest;
  }

  lemma OverlapEnds(m: Model, first: nat, id: Id)
    requires id in m.mem && first in m.log.ops && m.log.ops[first] == Revoking(id, Active)
    ensures Steps(m, OverlapEnd(first)).mem == m.mem[id := Active]
    ensures Steps(m, OverlapEnd(first)).log.revoked == m.log.revoked
  {
    StepsCons(m, PersistFail(first), [RollBack(first)] + []);
    StepsCons(Fail(m, first), RollBack(first), []);
  }

  lemma OverlapUndoes(m: Model, first: nat, second: nat, id: Id)
    requires id in m.mem && m.mem[id] == Active && first !in m.log.ops && second !in m.log.ops && first != second
    ensures Steps(m, Overlap(first, second, id)).mem == m.mem
    ensures id in Steps(m, Overlap(first, second, id)).log.revoked
  {
    StepsCons(m, BeginRevoke(first, id), [BeginRevoke(second, id)] + ([PersistOk(second)] + OverlapEnd(first)));
    var m1 := Revoke(m, first, id);
    StepsCons(m1, BeginRevoke(second, id), [PersistOk(second)] + OverlapEnd(first));
    var m2 := Revoke(m1, second, id);
    StepsCons(m2, PersistOk(second), OverlapEnd(first));
    OverlapEnds(Persist(m2, second), first, id);
  }

  /**
   * The condition is needed: from every state with an active record, two overlapping revokes can
   * end with an acknowledged revocation and the record active as before, because the one that fails
   * restores the status it captured.
   */
  lemma AcknowledgedRevocationUndone(file: TokenFile, before: seq<Event>, first: nat, second: nat, id: Id)
    requires GoodFile(file)
    requires var s := After(file, before);
             && Lookup(s.mem, id).Some? && Lookup(s.mem, id).value.status == Active
             && first !in s.log.ops && second !in s.log.ops && first != second
    ensures var t := After(file, before + Overlap(first, second, id));
            id in t.log.revoked && Lookup(t.mem, id).Some? && Lookup(t.mem, id).value.status == Active
  {
    var s, m, trace := After(file, before), ModelAfter(file, before), Overlap(first, second, id);
    Reached(file, before);
    MatchesLookup(s.mem, m.mem, m.log.known, id);
    OverlapUndoes(m, first, second, id);
    RunConcat(Start(file), before, trace);
    RunRefines(s, m, trace);
    MatchesLookup(Run(s, trace).mem, m.mem, Steps(m, trace).log.known, id);
  }

  // ---------------------------------------------------------------- memory against disk

  /**
   * With nothing in flight, everything in memory is on disk; what disk has beyond that belongs to
   * creates that reported a persist error; and the records that are in both are versions of one
   * record, with the same status unless a revoke of it failed to persist.
   */
  lemma QuiescentCopies(file: TokenFile, trace: seq<Event>, id: Id)
    requires GoodFile(file) && After(file, trace).Quiescent()
    ensures var t := After(file, trace); Lookup(t.mem, id).Some? ==> Lookup(Stored(t.file), id).Some?
    ensures var t := After(file, trace);
            Lookup(Stored(t.file), id).Some? && Lookup(t.mem, id).None? ==> id in t.log.createFailed
    ensures var t := After(file, trace);
            Lookup(t.mem, id).Some? && Lookup(Stored(t.file), id).Some? ==>
              && id in t.log.known && VersionOf(Lookup(t.mem, id).value, t.log.known[id])
              && VersionOf(Lookup(Stored(t.file), id).value, t.log.known[id])
              && (Lookup(t.mem, id).value.status != Lookup(Stored(t.file), id).value.status ==>
                  id in t.log.revokeFailed)
  {
    var t, m := After(file, trace), ModelAfter(file, trace);
    Reached(file, trace);
    MatchesLookup(t.mem, m.mem, m.log.known, id);
    MatchesLookup(Stored(t.file), m.disk, m.log.known, id);
  }

  ghost predicate InvClean(s: State) {
    s.log.clean ==>
      && (forall k :: k in s.log.ops ==> !s.log.ops[k].Failed())
      && (s.Quiescent() ==> Migrated(s.mem) == Load(s.file))
  }

  lemma CleanStep(s: State, e: Event)
    requires InvClean(s)
    ensures InvClean(Apply(s, e))
  {
    var t := Apply(s, e);
    if s.log.Enabled(e) {
      match e
      case BeginCreate(op, _, _, _, _) =>
        assert t == s || op in t.log.ops;
      case BeginRevoke(op, _) =>
        assert t.mem == s.mem || op in t.log.ops;
      case PersistOk(_) =>
      case PersistFail(_) =>
      case RollBack(_) =>
      case Crash =>
        MigrateIdempotent(Stored(s.file));
    }
  }

  lemma {:induction false} CleanRun(s: State, trace: seq<Event>)
    requires InvClean(s)
    ensures InvClean(Run(s, trace))
    decreases |trace|
  {
    if trace != [] {
      CleanStep(s, trace[0]);
      CleanRun(Apply(s, trace[0]), trace[1..]);
    }
  }

  /**
   * With nothing in flight and no failed persist since the last load, memory and file are the same
   * but for the legacy migration, and memory is what a load would give exactly if no record of it has
   * an empty scope.
   */
  lemma QuiescentCleanSynced(file: TokenFile, trace: seq<Event>)
    requires After(file, trace).Quiescent() && After(file, trace).log.clean
    ensures Migrated(After(file, trace).mem) == Load(After(file, trace).file)
    ensures After(file, trace).mem == Load(After(file, trace).file) <==> AllExplicit(After(file, trace).mem)
  {
    MigrateIdempotent(Stored(file));
    CleanRun(Start(file), trace);
    MigratedFixed(After(file, trace).mem);
  }

  ghost predicate NamesHold(s: State) {
    DistinctNames(s.mem) && DistinctNames(Stored(s.file))
  }

  lemma {:induction false} WithStatusNames(rs: seq<TokenRecord>, id: Id, status: Status)
    ensures forall i :: 0 <= i < |rs| ==> WithStatus(rs, id, status)[i].name == rs[i].name
  {
    if rs != [] && rs[0].id != id {
      WithStatusNames(rs[1..], id, status);
    }
  }

  lemma WithoutNames(rs: seq<TokenRecord>, id: Id)
    requires DistinctNames(rs)
    ensures DistinctNames(Without(rs, id))
  {
    forall i, j | 0 <= i < j < |Without(rs, id)|
      ensures Without(rs, id)[i].name != Without(rs, id)[j].name
    {
      OriginIncreases(rs, id, i, j);
    }
  }

  lemma NamesStep(s: State, e: Event)
    requires NamesHold(s)
    ensures NamesHold(Apply(s, e))
  {
    if s.log.Enabled(e) {
      match e
      case BeginCreate(op, id, token, now, request) =>
      case BeginRevoke(op, id) =>
        WithStatusNames(s.mem, id, Revoked);
      case PersistOk(op) =>
      case PersistFail(op) =>
      case RollBack(op) =>
        WithoutNames(s.mem, s.log.ops[op].id);
        if s.log.ops[op].RevokeFailed? {
          WithStatusNames(s.mem, s.log.ops[op].id, s.log.ops[op].previous);
        }
      case Crash =>
    }
  }

  lemma {:induction false} NamesRun(s: State, trace: seq<Event>)
    requires NamesHold(s)
    ensures NamesHold(Run(s, trace))
    decreases |trace|
  {
    if trace != [] {
      NamesStep(s, trace[0]);
      NamesRun(Apply(s, trace[0]), trace[1..]);
    }
  }

  /** Names, those of revoked tokens included, are pairwise distinct in both copies. */
  lemma NamesStayDistinct(file: TokenFile, trace: seq<Event>)
    requires DistinctNames(Stored(file))
    ensures DistinctNames(After(file, trace).mem) && DistinctNames(Stored(After(file, trace).file))
  {
    NamesRun(Start(file), trace);
  }

  lemma MatchesHashes(rs: seq<TokenRecord>, v: Copy, known: map<Id, TokenRecord>)
    requires Matches(rs, v, known) && HashesDiffer(known)
    ensures DistinctHashes(rs)
  {
    forall i, j | 0 <= i < j < |rs|
      ensures rs[i].tokenHash != rs[j].tokenHash
    {
      VersionKept(rs[i], known[rs[i].id], Active);
      VersionKept(rs[j], known[rs[j].id], Active);
    }
  }

  /** What a registry writes is a file another can start from. */
  lemma GoodFileKept(file: TokenFile, trace: seq<Event>)
    requires GoodFile(file)
    ensures GoodFile(After(file, trace).file)
  {
    Reached(file, trace);
    NamesStayDistinct(file, trace);
    MatchesHashes(Stored(After(file, trace).file), ModelAfter(file, trace).disk, After(file, trace).log.known);
  }

  /** Every record of either copy is a version of a known one. */
  lemma ReachedRecord(file: TokenFile, trace: seq<Event>, r: TokenRecord)
    requires GoodFile(file)
    requires r in After(file, trace).mem || r in Load(After(file, trace).file)
    ensures var log := After(file, trace).log; r.id in log.known && VersionOf(r, log.known[r.id])
  {
    var t, m := After(file, trace), ModelAfter(file, trace);
    Reached(file, trace);
    MatchesMigrated(Stored(t.file), m.disk, m.log.known);
    if r in t.mem {
      var i :| 0 <= i < |t.mem| && t.mem[i] == r;
    } else {
      var i :| 0 <= i < |Load(t.file)| && Load(t.file)[i] == r;
    }
  }

  /** Hashes are distinct in every reachable copy, so an active record is what its token validates to. */
  lemma ActiveRecordValidates(file: TokenFile, trace: seq<Event>, records: seq<TokenRecord>, r: TokenRecord,
                              token: string)
    requires GoodFile(file)
    requires records == After(file, trace).mem || records == Load(After(file, trace).file)
    requires r in records && Authenticates(r, token)
    ensures Validate(records, token) == Some(r)
  {
    var t, m := After(file, trace), ModelAfter(file, trace);
    Reached(file, trace);
    MatchesHashes(t.mem, m.mem, m.log.known);
    MatchesMigrated(Stored(t.file), m.disk, m.log.known);
    MatchesHashes(Load(t.file), m.disk, m.log.known);
    OnlyRecordOfToken(records, r, token);
  }

  lemma OnlyRecordOfToken(records: seq<TokenRecord>, r: TokenRecord, token: string)
    requires DistinctHashes(records) && r in records && Authenticates(r, token)
    ensures Validate(records, token) == Some(r)
  {
    var i :| 0 <= i < |records| && records[i] == r;
    var found := Validate(records, token);
    assert found.Some? by {
      assert Authenticates(records[i], token);
    }
    var j :| 0 <= j < |records| && records[j] == found.value;
    assert records[i].tokenHash == Digest(token) == records[j].tokenHash;
    assert !(i < j) && !(j < i);
  }

  // ---------------------------------------------------------------- restart

  /** Only requests that name their scope, which is what the admin API lets through. */
  ghost predicate ExplicitOnly(trace: seq<Event>) {
    forall i :: 0 <= i < |trace| && trace[i].BeginCreate? ==> trace[i].request.Explicit()
  }

  ghost predicate AllExplicit(rs: seq<TokenRecord>) {
    forall i :: 0 <= i < |rs| ==> rs[i].scope != [] || rs[i].allRoutes
  }

  lemma {:induction false} WithStatusExplicit(rs: seq<TokenRecord>, id: Id, status: Status)
    requires AllExplicit(rs)
    ensures AllExplicit(WithStatus(rs, id, status))
  {
    if rs != [] && rs[0].id != id {
      WithStatusExplicit(rs[1..], id, status);
    }
  }

  lemma WithoutExplicit(rs: seq<TokenRecord>, id: Id)
    requires AllExplicit(rs)
    ensures AllExplicit(Without(rs, id))
  {
    forall i | 0 <= i < |Without(rs, id)|
      ensures Without(rs, id)[i].scope != [] || Without(rs, id)[i].allRoutes
    {
      var p := Origin(rs, id, i);
    }
  }

  lemma ExplicitStep(s: State, e: Event)
    requires AllExplicit(s.mem) && (e.BeginCreate? ==> e.request.Explicit())
    ensures AllExplicit(Apply(s, e).mem)
  {
    if s.log.Enabled(e) {
      match e
      case BeginCreate(op, id, token, now, request) =>
      case BeginRevoke(op, id) =>
        WithStatusExplicit(s.mem, id, Revoked);
      case PersistOk(op) =>
      case PersistFail(op) =>
      case RollBack(op) =>
        WithoutExplicit(s.mem, s.log.ops[op].id);
        if s.log.ops[op].RevokeFailed? {
          WithStatusExplicit(s.mem, s.log.ops[op].id, s.log.ops[op].previous);
        }
      case Crash =>
    }
  }

  lemma {:induction false} ExplicitRun(s: State, trace: seq<Event>)
    requires AllExplicit(s.mem) && ExplicitOnly(trace)
    ensures AllExplicit(Run(s, trace).mem)
    decreases |trace|
  {
    if trace != [] {
      ExplicitStep(s, trace[0]);
      ExplicitRun(Apply(s, trace[0]), trace[1..]);
    }
  }

  /**
   * Restarting a quiescent registry whose creates were all validated, and whose persists succeeded
   * since it was loaded, changes nothing: the same records, so the same answer for every token, and
   * for every route a token is asked about.
   */
  lemma RestartPreservesAuthorisation(file: TokenFile, trace: seq<Event>)
    requires ExplicitOnly(trace)
    requires After(file, trace).Quiescent() && After(file, trace).log.clean
    ensures Apply(After(file, trace), Crash).mem == After(file, trace).mem
    ensures forall token :: Validate(Load(After(file, trace).file), token) == Validate(After(file, trace).mem, token)
  {
    ExplicitRun(Start(file), trace);
    MigratedFixed(After(file, trace).mem);
    QuiescentCleanSynced(file, trace);
  }
}
