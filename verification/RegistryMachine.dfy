/**
 * The interleaved registry on the source's own data, a list of records and a file, and the proof
 * that it refines `RegistryModel`.
 */
module RegistryMachine {
  import opened Text
  import opened TokenRecords
  import opened RegistryModel

  datatype State = State(mem: seq<TokenRecord>, file: TokenFile, log: Log) {
    predicate Quiescent() { log.ops == map[] }
  }

  function KnownOf(rs: seq<TokenRecord>): map<Id, TokenRecord> {
    if rs == [] then map[] else KnownOf(rs[1..])[rs[0].id := rs[0]]
  }

  function StatusesOf(rs: seq<TokenRecord>): Copy {
    if rs == [] then map[] else StatusesOf(rs[1..])[rs[0].id := rs[0].status]
  }

  /** The registry just after `load_or_create`. */
  function Start(file: TokenFile): State {
    State(Load(file), file, Log(map[], KnownOf(Stored(file)), {}, {}, {}, {}, {}, {}, true))
  }

  function DoCreate(s: State, op: nat, r: TokenRecord): State {
    if HasName(s.mem, r.name) then s else State(s.mem + [r], s.file, s.log.Pushed(op, r))
  }

  function DoRevoke(s: State, op: nat, id: Id): State {
    match Lookup(s.mem, id)
    case None => State(s.mem, s.file, s.log.Asked(id))
    case Some(r) => State(WithStatus(s.mem, id, Revoked), s.file, s.log.Overwritten(op, id, r.status))
  }

  function DoPersist(s: State, op: nat): State
    requires op in s.log.ops
  {
    State(s.mem, Snapshot(s.mem), s.log.Acknowledged(op))
  }

  function DoFail(s: State, op: nat): State
    requires op in s.log.ops && !s.log.ops[op].Failed()
  {
    State(s.mem, s.file, s.log.Failed(op))
  }

  function DoUndo(s: State, op: nat): State
    requires op in s.log.ops && s.log.ops[op].Failed()
  {
    match s.log.ops[op]
    case CreateFailed(id) => State(Without(s.mem, id), s.file, s.log.RolledBack(op))
    case RevokeFailed(id, previous) => State(WithStatus(s.mem, id, previous), s.file, s.log.RolledBack(op))
  }

  function DoRestart(s: State): State {
    State(Load(s.file), s.file, s.log.Restarted())
  }

  /** One step; an event that is not enabled does nothing. */
  function Apply(s: State, e: Event): State {
    if !s.log.Enabled(e) then s
    else
      match e
      case BeginCreate(op, id, token, now, request) => DoCreate(s, op, NewRecord(id, token, now, request))
      case BeginRevoke(op, id) => DoRevoke(s, op, id)
      case PersistOk(op) => DoPersist(s, op)
      case PersistFail(op) => DoFail(s, op)
      case RollBack(op) => DoUndo(s, op)
      case Crash => DoRestart(s)
  }

  // ---------------------------------------------------------------- history

  /** A create begins with an id and a token nobody had; if its name is free, both are known from then on. */
  lemma CreateHistory(s: State, op: nat, id: Id, token: string, now: int, request: Request)
    ensures var a, b := s.log, Apply(s, BeginCreate(op, id, token, now, request)).log;
            var isNew := id !in a.known && forall k :: k in a.known ==> a.known[k].tokenHash != Digest(token);
            b == if op !in a.ops && isNew && !HasName(s.mem, request.name)
                 then a.(ops := a.ops[op := Creating(id)], issued := a.issued + {id},
                         known := a.known[id := NewRecord(id, token, now, request)])
                 else a
  {
  }

  /** A revoke that begins has been asked for, and if there is such a record, captures its status. */
  lemma RevokeHistory(s: State, op: nat, id: Id)
    requires op !in s.log.ops
    ensures var a, b := s.log, Apply(s, BeginRevoke(op, id)).log;
            var asked := a.(revokeAsked := a.revokeAsked + {id});
            b == match Lookup(s.mem, id)
                 case None => asked
                 case Some(r) => asked.(ops := a.ops[op := Revoking(id, r.status)])
  {
  }

  /** An operation in flight whose persist succeeds has returned Ok; one whose persist fails rolls back next. */
  lemma PersistHistory(s: State, op: nat)
    requires op in s.log.ops
    ensures var a, b := s.log, Apply(s, PersistOk(op)).log;
            b == match a.ops[op]
                 case Creating(id) => a.(ops := a.ops - {op}, created := a.created + {id})
                 case Revoking(id, _) => a.(ops := a.ops - {op}, revoked := a.revoked + {id})
                 case _ => a
    ensures var a, b := s.log, Apply(s, PersistFail(op)).log;
            b == match a.ops[op]
                 case Creating(id) => a.(ops := a.ops[op := CreateFailed(id)], clean := false)
                 case Revoking(id, previous) =>
                   a.(ops := a.ops[op := RevokeFailed(id, previous)], clean := false,
                      revokeFailed := a.revokeFailed + {id})
                 case _ => a
  {
  }

  /** One that has rolled back has returned its error; a crash takes all of them, and starts clean. */
  lemma RollBackHistory(s: State, op: nat)
    requires op in s.log.ops
    ensures var a, b := s.log, Apply(s, RollBack(op)).log;
            b == match a.ops[op]
                 case CreateFailed(id) => a.(ops := a.ops - {op}, createFailed := a.createFailed + {id})
                 case RevokeFailed(_, _) => a.(ops := a.ops - {op})
                 case _ => a
    ensures Apply(s, Crash).log == s.log.(ops := map[], clean := true)
  {
  }

  function Run(s: State, trace: seq<Event>): State
    decreases |trace|
  {
    if trace == [] then s else Run(Apply(s, trace[0]), trace[1..])
  }

  lemma RunCons(s: State, e: Event, rest: seq<Event>)
    ensures Run(s, [e] + rest) == Run(Apply(s, e), rest)
  {
    assert ([e] + rest)[1..] == rest;
  }

  lemma {:induction false} RunConcat(s: State, a: seq<Event>, b: seq<Event>)
    ensures Run(s, a + b) == Run(Run(s, a), b)
    decreases |a|
  {
    if a == [] {
      assert a + b == b;
    } else {
      assert (a + b)[1..] == a[1..] + b;
      RunConcat(Apply(s, a[0]), a[1..], b);
    }
  }

  // ---------------------------------------------------------------- refinement

  /** The list holds one record per id of the copy, with that status, and otherwise as known. */
  ghost predicate Matches(rs: seq<TokenRecord>, v: Copy, known: map<Id, TokenRecord>) {
    && DistinctIds(rs)
    && (forall i :: 0 <= i < |rs| ==> rs[i].id in v && v[rs[i].id] == rs[i].status)
    && (forall i :: 0 <= i < |rs| ==> rs[i].id in known && VersionOf(rs[i], known[rs[i].id]))
    && (forall id :: id in v ==> HasId(rs, id))
  }

  ghost predicate Refines(s: State, m: Model) {
    && Matches(s.mem, m.mem, m.log.known)
    && Matches(Stored(s.file), m.disk, m.log.known)
    && s.log == m.log
  }

  lemma MatchesLookup(rs: seq<TokenRecord>, v: Copy, known: map<Id, TokenRecord>, id: Id)
    requires Matches(rs, v, known)
    ensures Lookup(rs, id).Some? <==> id in v
    ensures id in v ==>
              && Lookup(rs, id).value.status == v[id]
              && id in known && VersionOf(Lookup(rs, id).value, known[id])
  {
    LookupIffHasId(rs, id);
    if Lookup(rs, id).Some? {
      var i := LookupFrom(rs, id);
    }
  }

  lemma MatchesPush(rs: seq<TokenRecord>, v: Copy, known: map<Id, TokenRecord>, r: TokenRecord)
    requires Matches(rs, v, known) && r.id !in known && r.status == Active
    ensures Matches(rs + [r], v[r.id := Active], known[r.id := r])
  {
    var out := rs + [r];
    assert forall i :: 0 <= i < |rs| ==> out[i] == rs[i] && rs[i].id != r.id;
    forall id | id in v[r.id := Active]
      ensures HasId(out, id)
    {
      if id == r.id {
        assert out[|rs|].id == id;
      } else {
        var i :| 0 <= i < |rs| && rs[i].id == id;
        assert out[i].id == id;
      }
    }
  }

  lemma MatchesKnownMore(rs: seq<TokenRecord>, v: Copy, known: map<Id, TokenRecord>, id: Id, c: TokenRecord)
    requires Matches(rs, v, known) && id !in known
    ensures Matches(rs, v, known[id := c])
  {
  }

  lemma MatchesStatus(rs: seq<TokenRecord>, v: Copy, known: map<Id, TokenRecord>, id: Id, status: Status)
    requires Matches(rs, v, known)
    ensures Matches(WithStatus(rs, id, status), SetStatus(v, id, status), known)
  {
    var out, w := WithStatus(rs, id, status), SetStatus(v, id, status);
    forall i | 0 <= i < |rs|
      ensures out[i].id == rs[i].id && out[i].id in w && w[out[i].id] == out[i].status
      ensures out[i].id in known && VersionOf(out[i], known[out[i].id])
    {
      WithStatusAt(rs, id, status, i);
      VersionKept(rs[i], known[rs[i].id], status);
    }
    forall x | x in w
      ensures HasId(out, x)
    {
      var i :| 0 <= i < |rs| && rs[i].id == x;
      assert out[i].id == x;
    }
  }

  lemma MatchesWithout(rs: seq<TokenRecord>, v: Copy, known: map<Id, TokenRecord>, id: Id)
    requires Matches(rs, v, known)
    ensures Matches(Without(rs, id), v - {id}, known)
  {
    var out := Without(rs, id);
    WithoutDrops(rs, id);
    forall i | 0 <= i < |out|
      ensures out[i].id in v && v[out[i].id] == out[i].status
      ensures out[i].id in known && VersionOf(out[i], known[out[i].id])
    {
      var p := Origin(rs, id, i);
    }
    forall i, j | 0 <= i < j < |out|
      ensures out[i].id != out[j].id
    {
      OriginIncreases(rs, id, i, j);
    }
    forall x | x in v - {id}
      ensures HasId(out, x)
    {
      var p :| 0 <= p < |rs| && rs[p].id == x;
      var i := Kept(rs, id, p);
    }
  }

  lemma MatchesMigrated(rs: seq<TokenRecord>, v: Copy, known: map<Id, TokenRecord>)
    requires Matches(rs, v, known)
    ensures Matches(Migrated(rs), v, known)
  {
    var out := Migrated(rs);
    forall i | 0 <= i < |rs|
      ensures out[i].id == rs[i].id && VersionOf(out[i], known[rs[i].id])
    {
      VersionKept(rs[i], known[rs[i].id], Active);
    }
    forall x | x in v
      ensures HasId(out, x)
    {
      var i :| 0 <= i < |rs| && rs[i].id == x;
      assert out[i].id == x;
    }
  }

  lemma MatchesName(rs: seq<TokenRecord>, m: Model, name: string)
    requires Matches(rs, m.mem, m.log.known)
    ensures HasName(rs, name) <==> m.NameTaken(name)
  {
    if HasName(rs, name) {
      var i :| 0 <= i < |rs| && rs[i].name == name;
      VersionKept(rs[i], m.log.known[rs[i].id], Active);
    }
    if m.NameTaken(name) {
      var id :| id in m.mem && id in m.log.known && m.log.known[id].name == name;
      var i :| 0 <= i < |rs| && rs[i].id == id;
      VersionKept(rs[i], m.log.known[id], Active);
      assert rs[i].name == name;
    }
  }

  /** Every step of the registry on lists is the step of the model on maps. */
  lemma StepRefines(s: State, m: Model, e: Event)
    requires Refines(s, m)
    ensures Refines(Apply(s, e), Step(m, e))
  {
    if s.log.Enabled(e) {
      match e
      case BeginCreate(op, id, token, now, request) =>
        var r := NewRecord(id, token, now, request);
        MatchesName(s.mem, m, r.name);
        MatchesPush(s.mem, m.mem, m.log.known, r);
        MatchesKnownMore(Stored(s.file), m.disk, m.log.known, r.id, r);
      case BeginRevoke(op, id) =>
        MatchesLookup(s.mem, m.mem, m.log.known, id);
        MatchesStatus(s.mem, m.mem, m.log.known, id, Revoked);
      case PersistOk(op) =>
      case PersistFail(op) =>
      case RollBack(op) =>
        var o := s.log.ops[op];
        MatchesWithout(s.mem, m.mem, m.log.known, o.id);
        if o.RevokeFailed? {
          MatchesStatus(s.mem, m.mem, m.log.known, o.id, o.previous);
        }
      case Crash =>
        MatchesMigrated(Stored(s.file), m.disk, m.log.known);
    }
  }

  lemma {:induction false} RunRefines(s: State, m: Model, trace: seq<Event>)
    requires Refines(s, m)
    ensures Refines(Run(s, trace), Steps(m, trace))
    decreases |trace|
  {
    if trace != [] {
      StepRefines(s, m, trace[0]);
      RunRefines(Apply(s, trace[0]), Step(m, trace[0]), trace[1..]);
    }
  }

  // ---------------------------------------------------------------- starting

  /** No id, name or hash twice. `RegistryRuns.GoodFileKept`: what a registry writes from there is such a file. */
  ghost predicate GoodFile(file: TokenFile) {
    DistinctIds(Stored(file)) && DistinctNames(Stored(file)) && DistinctHashes(Stored(file))
  }

  lemma {:induction false} OwnAt(rs: seq<TokenRecord>, i: nat)
    requires DistinctIds(rs) && i < |rs|
    ensures rs[i].id in StatusesOf(rs) && StatusesOf(rs)[rs[i].id] == rs[i].status
    ensures rs[i].id in KnownOf(rs) && KnownOf(rs)[rs[i].id] == rs[i] && VersionOf(rs[i], rs[i])
  {
    if i > 0 {
      assert rs[0].id != rs[i].id;
      OwnAt(rs[1..], i - 1);
    }
  }

  lemma {:induction false} OwnHas(rs: seq<TokenRecord>, id: Id)
    requires id in StatusesOf(rs) || id in KnownOf(rs)
    ensures HasId(rs, id)
  {
    if id == rs[0].id {
      assert rs[0].id == id;
    } else {
      OwnHas(rs[1..], id);
      var i :| 0 <= i < |rs[1..]| && rs[1..][i].id == id;
      assert rs[i + 1].id == id;
    }
  }

  lemma MatchesOwn(rs: seq<TokenRecord>)
    requires DistinctIds(rs)
    ensures Matches(rs, StatusesOf(rs), KnownOf(rs))
    ensures forall id :: id in KnownOf(rs) ==> HasId(rs, id)
  {
    forall i | 0 <= i < |rs|
      ensures rs[i].id in StatusesOf(rs) && StatusesOf(rs)[rs[i].id] == rs[i].status
      ensures rs[i].id in KnownOf(rs) && VersionOf(rs[i], KnownOf(rs)[rs[i].id])
    {
      OwnAt(rs, i);
    }
    forall id | id in StatusesOf(rs) || id in KnownOf(rs)
      ensures HasId(rs, id)
    {
      OwnHas(rs, id);
    }
  }

  lemma KnownDiffer(rs: seq<TokenRecord>, known: map<Id, TokenRecord>, a: Id, b: Id)
    requires DistinctNames(rs) && DistinctHashes(rs)
    requires forall i :: 0 <= i < |rs| ==> rs[i].id in known && VersionOf(rs[i], known[rs[i].id])
    requires HasId(rs, a) && HasId(rs, b) && a != b
    ensures known[a].name != known[b].name && known[a].tokenHash != known[b].tokenHash
  {
    var i :| 0 <= i < |rs| && rs[i].id == a;
    var j :| 0 <= j < |rs| && rs[j].id == b;
    VersionKept(rs[i], known[a], Active);
    VersionKept(rs[j], known[b], Active);
    if i < j {
    } else {
      assert j < i;
    }
  }

  /** Statuses and known records of a list are in the invariant if names and hashes are distinct. */
  lemma OwnInv(rs: seq<TokenRecord>)
    requires DistinctIds(rs) && DistinctNames(rs) && DistinctHashes(rs)
    ensures Inv(Begin(StatusesOf(rs), KnownOf(rs)))
  {
    MatchesOwn(rs);
    var known := KnownOf(rs);
    forall a, b | a in known && b in known && a != b
      ensures known[a].name != known[b].name && known[a].tokenHash != known[b].tokenHash
    {
      KnownDiffer(rs, known, a, b);
    }
    BeginKeeps(StatusesOf(rs), known);
  }

  lemma StartRefines(file: TokenFile)
    requires GoodFile(file)
    ensures Refines(Start(file), Begin(StatusesOf(Stored(file)), KnownOf(Stored(file))))
    ensures Inv(Begin(StatusesOf(Stored(file)), KnownOf(Stored(file))))
  {
    var rs := Stored(file);
    MatchesOwn(rs);
    MatchesMigrated(rs, StatusesOf(rs), KnownOf(rs));
    OwnInv(rs);
  }
}
