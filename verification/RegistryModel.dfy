/**
 * The token registry under concurrency, failing persists and crashes. No operation changes anything
 * of a record but its status, so memory and file are maps from id to status here, and what a record
 * says otherwise is in `known`.
 *
 * Each operation of `registry.rs` is two or three atomic steps that interleave freely with the steps
 * of the others: a change under the write lock, one persist, and after a failed persist a rollback
 * under the write lock again. `persist` holds the read lock from serialising to renaming, so one
 * persist is one step that either replaces the file with the current memory or leaves it alone.
 */
module RegistryModel {
  import opened TokenRecords

  type Copy = map<Id, Status>

  /** An operation between two of its steps, with the locals it still needs. */
  datatype Op =
    | Creating(id: Id)                          // record pushed, lock dropped
    | CreateFailed(id: Id)                      // persist failed, rollback still to come
    | Revoking(id: Id, previous: Status)        // status overwritten, lock dropped
    | RevokeFailed(id: Id, previous: Status)    // persist failed, rollback still to come
  {
    predicate Create() { Creating? || CreateFailed? }
    predicate Failed() { CreateFailed? || RevokeFailed? }
  }

  datatype Event =
    | BeginCreate(op: nat, id: Id, token: string, now: int, request: Request)
    | BeginRevoke(op: nat, id: Id)
    | PersistOk(op: nat)
    | PersistFail(op: nat)
    | RollBack(op: nat)
    | Crash

  /**
   * The operations in flight, and history: `known` holds every record there ever was as it was
   * created or found in the file, `issued` the ids `create_token` made, the other sets which operations returned what,
   * and `clean` says that no persist failed since the file was loaded.
   */
  datatype Log = Log(
    ops: map<nat, Op>, known: map<Id, TokenRecord>, issued: set<Id>,
    created: set<Id>, createFailed: set<Id>,
    revokeAsked: set<Id>, revoked: set<Id>, revokeFailed: set<Id>, clean: bool)
  {
    predicate Fresh(r: TokenRecord) {
      r.id !in known && forall i :: i in known ==> known[i].tokenHash != r.tokenHash
    }

    /** UUIDs and tokens are fresh; an operation persists once and rolls back only after a failure. */
    predicate Enabled(e: Event) {
      match e
      case BeginCreate(op, id, token, now, request) => op !in ops && Fresh(NewRecord(id, token, now, request))
      case BeginRevoke(op, _) => op !in ops
      case PersistOk(op) => op in ops && !ops[op].Failed()
      case PersistFail(op) => op in ops && !ops[op].Failed()
      case RollBack(op) => op in ops && ops[op].Failed()
      case Crash => true
    }

    function Pushed(op: nat, r: TokenRecord): Log {
      this.(ops := ops[op := Creating(r.id)], known := known[r.id := r], issued := issued + {r.id})
    }

    function Asked(id: Id): Log {
      this.(revokeAsked := revokeAsked + {id})
    }

    function Overwritten(op: nat, id: Id, previous: Status): Log {
      Asked(id).(ops := ops[op := Revoking(id, previous)])
    }

    /** A persist succeeded: the operation returns `Ok`. */
    function Acknowledged(op: nat): Log
      requires op in ops
    {
      var done := this.(ops := ops - {op});
      if ops[op].Create() then done.(created := created + {ops[op].id})
      else done.(revoked := revoked + {ops[op].id})
    }

    function Failed(op: nat): Log
      requires op in ops && !ops[op].Failed()
    {
      match ops[op]
      case Creating(id) => this.(ops := ops[op := CreateFailed(id)], clean := false)
      case Revoking(id, previous) =>
        this.(ops := ops[op := RevokeFailed(id, previous)], clean := false, revokeFailed := revokeFailed + {id})
    }

    /** The operation rolled back and returns its error. */
    function RolledBack(op: nat): Log
      requires op in ops
    {
      var done := this.(ops := ops - {op});
      if ops[op].Create() then done.(createFailed := createFailed + {ops[op].id}) else done
    }

    /** A crash takes the operations in flight with it. */
    function Restarted(): Log {
      this.(ops := map[], clean := true)
    }
  }

  datatype Model = Model(mem: Copy, disk: Copy, log: Log) {
    predicate NameTaken(name: string) {
      exists id :: id in mem && id in log.known && log.known[id].name == name
    }
  }

  function SetStatus(v: Copy, id: Id, status: Status): Copy {
    if id in v then v[id := status] else v
  }

  /** The registry just after loading these records. */
  function Begin(disk: Copy, known: map<Id, TokenRecord>): Model {
    Model(disk, disk, Log(map[], known, {}, {}, {}, {}, {}, {}, true))
  }

  function Create(m: Model, op: nat, r: TokenRecord): Model {
    if m.NameTaken(r.name) then m else Model(m.mem[r.id := Active], m.disk, m.log.Pushed(op, r))
  }

  function Revoke(m: Model, op: nat, id: Id): Model {
    if id in m.mem then Model(m.mem[id := Revoked], m.disk, m.log.Overwritten(op, id, m.mem[id]))
    else Model(m.mem, m.disk, m.log.Asked(id))
  }

  function Persist(m: Model, op: nat): Model
    requires op in m.log.ops
  {
    Model(m.mem, m.mem, m.log.Acknowledged(op))
  }

  function Fail(m: Model, op: nat): Model
    requires op in m.log.ops && !m.log.ops[op].Failed()
  {
    Model(m.mem, m.disk, m.log.Failed(op))
  }

  function Undo(m: Model, op: nat): Model
    requires op in m.log.ops && m.log.ops[op].Failed()
  {
    match m.log.ops[op]
    case CreateFailed(id) => Model(m.mem - {id}, m.disk, m.log.RolledBack(op))
    case RevokeFailed(id, previous) => Model(SetStatus(m.mem, id, previous), m.disk, m.log.RolledBack(op))
  }

  /** The process dies with its operations, restarts and loads the file. */
  function Restart(m: Model): Model {
    Model(m.disk, m.disk, m.log.Restarted())
  }

  /** One step; an event that is not enabled does nothing. */
  function Step(m: Model, e: Event): Model {
    if !m.log.Enabled(e) then m
    else
      match e
      case BeginCreate(op, id, token, now, request) => Create(m, op, NewRecord(id, token, now, request))
      case BeginRevoke(op, id) => Revoke(m, op, id)
      case PersistOk(op) => Persist(m, op)
      case PersistFail(op) => Fail(m, op)
      case RollBack(op) => Undo(m, op)
      case Crash => Restart(m)
  }

  function Steps(m: Model, trace: seq<Event>): Model
    decreases |trace|
  {
    if trace == [] then m else Steps(Step(m, trace[0]), trace[1..])
  }

  // ---------------------------------------------------------------- the inductive invariant

  ghost predicate NamesDiffer(v: Copy, known: map<Id, TokenRecord>) {
    forall i, j :: i in v && j in v && i in known && j in known && i != j ==> known[i].name != known[j].name
  }

  ghost predicate HashesDiffer(known: map<Id, TokenRecord>) {
    forall i, j :: i in known && j in known && i != j ==> known[i].tokenHash != known[j].tokenHash
  }

  ghost predicate InvKnown(m: Model) {
    m.mem.Keys + m.disk.Keys <= m.log.known.Keys
  }

  ghost predicate InvNames(m: Model) {
    && InvKnown(m)
    && NamesDiffer(m.mem, m.log.known) && NamesDiffer(m.disk, m.log.known)
    && HashesDiffer(m.log.known)
  }

  /** The ids of the creates and of the revokes in flight. */
  function CreateIds(ops: map<nat, Op>): set<Id> {
    set k | k in ops && ops[k].Create() :: ops[k].id
  }

  function RevokeIds(ops: map<nat, Op>): set<Id> {
    set k | k in ops && !ops[k].Create() :: ops[k].id
  }

  ghost predicate OneCreatePerId(ops: map<nat, Op>) {
    forall k, l :: k in ops && l in ops && k != l && ops[k].Create() && ops[l].Create() ==> ops[k].id != ops[l].id
  }

  /** Which ids memory and disk have. */
  ghost predicate Placed(mem: set<Id>, disk: set<Id>, log: Log) {
    && OneCreatePerId(log.ops)
    && CreateIds(log.ops) <= mem * log.issued
    && CreateIds(log.ops) !! log.created
    && log.created <= log.issued <= log.known.Keys
    && log.created <= mem * disk
    && mem <= disk + CreateIds(log.ops)
    && disk <= mem + log.createFailed
    && RevokeIds(log.ops) + log.revoked <= log.known.Keys
  }

  ghost predicate InvPresence(m: Model) {
    Placed(m.mem.Keys, m.disk.Keys, m.log)
  }

  /** An id made here that nobody asked to revoke is active. */
  ghost predicate Untouched(v: Copy, issued: set<Id>, revokeAsked: set<Id>) {
    forall id :: id in v && id in issued && id !in revokeAsked ==> v[id] == Active
  }

  ghost predicate DifferOnlyAt(mem: Copy, disk: Copy, ids: set<Id>) {
    forall id :: id in mem && id in disk && mem[id] != disk[id] ==> id in ids
  }

  ghost predicate FailedRevokes(ops: map<nat, Op>, revokeFailed: set<Id>) {
    forall k :: k in ops && ops[k].RevokeFailed? ==> ops[k].id in revokeFailed
  }

  ghost predicate InactiveIn(v: Copy, id: Id) {
    id in v ==> v[id] == Revoked
  }

  /** Only a revoke touches a status, and only an unfinished or failed one lets the copies differ. */
  ghost predicate InvStatus(m: Model) {
    && Untouched(m.mem, m.log.issued, m.log.revokeAsked)
    && Untouched(m.disk, m.log.issued, m.log.revokeAsked)
    && RevokeIds(m.log.ops) <= m.log.revokeAsked
    && FailedRevokes(m.log.ops, m.log.revokeFailed)
    && DifferOnlyAt(m.mem, m.disk, RevokeIds(m.log.ops) + m.log.revokeFailed)
  }

  /** While no revoke of an id fails, one that began, or was acknowledged, keeps it inactive. */
  ghost predicate InvRevoked(m: Model) {
    && (forall id :: id in RevokeIds(m.log.ops) + m.log.revoked && id !in m.log.revokeFailed ==> InactiveIn(m.mem, id))
    && (forall id :: id in m.log.revoked && id !in m.log.revokeFailed ==> InactiveIn(m.disk, id))
  }

  ghost predicate Inv(m: Model) {
    && InvNames(m)
    && InvPresence(m)
    && InvStatus(m)
    && InvRevoked(m)
  }

  // ---------------------------------------------------------------- operations coming and going

  lemma OpAdded(ops: map<nat, Op>, op: nat, o: Op)
    requires op !in ops
    ensures CreateIds(ops[op := o]) == CreateIds(ops) + (if o.Create() then {o.id} else {})
    ensures RevokeIds(ops[op := o]) == RevokeIds(ops) + (if o.Create() then {} else {o.id})
    ensures OneCreatePerId(ops) && (o.Create() ==> o.id !in CreateIds(ops)) ==> OneCreatePerId(ops[op := o])
  {
    var out := ops[op := o];
    assert forall k :: k in ops ==> out[k] == ops[k];
    assert op in out && out[op] == o;
    assert forall k :: k in ops && ops[k].Create() ==> ops[k].id in CreateIds(ops);
  }

  lemma OpDropped(ops: map<nat, Op>, op: nat)
    requires op in ops && OneCreatePerId(ops)
    ensures OneCreatePerId(ops - {op})
    ensures CreateIds(ops - {op}) == CreateIds(ops) - (if ops[op].Create() then {ops[op].id} else {})
    ensures RevokeIds(ops - {op}) <= RevokeIds(ops) <= RevokeIds(ops - {op}) + {ops[op].id}
    ensures ops[op].Create() ==> RevokeIds(ops - {op}) == RevokeIds(ops)
    ensures ops[op].id in (if ops[op].Create() then CreateIds(ops) else RevokeIds(ops))
  {
    var out := ops - {op};
    assert forall k :: k in ops && k != op ==> k in out && out[k] == ops[k];
  }

  lemma OpReplaced(ops: map<nat, Op>, op: nat, o: Op)
    requires op in ops && o.id == ops[op].id && o.Create() == ops[op].Create()
    ensures CreateIds(ops[op := o]) == CreateIds(ops)
    ensures RevokeIds(ops[op := o]) == RevokeIds(ops)
    ensures OneCreatePerId(ops) ==> OneCreatePerId(ops[op := o])
  {
    var out := ops[op := o];
    assert forall k :: k in ops ==> k in out && out[k].id == ops[k].id && out[k].Create() == ops[k].Create();
  }

  // ---------------------------------------------------------------- every step keeps it

  lemma BeginKeeps(disk: Copy, known: map<Id, TokenRecord>)
    requires disk.Keys <= known.Keys && NamesDiffer(disk, known) && HashesDiffer(known)
    ensures Inv(Begin(disk, known))
  {
  }

  lemma NamesAdded(v: Copy, known: map<Id, TokenRecord>, id: Id, c: TokenRecord)
    requires v.Keys <= known.Keys && NamesDiffer(v, known) && id !in known
    ensures NamesDiffer(v, known[id := c])
    ensures (forall i :: i in v ==> known[i].name != c.name) ==> NamesDiffer(v[id := Active], known[id := c])
  {
  }

  lemma HashesAdded(known: map<Id, TokenRecord>, id: Id, c: TokenRecord)
    requires HashesDiffer(known) && forall i :: i in known ==> known[i].tokenHash != c.tokenHash
    ensures HashesDiffer(known[id := c])
  {
  }

  lemma CreateKeepsNames(m: Model, op: nat, r: TokenRecord)
    requires InvNames(m) && op !in m.log.ops && m.log.Fresh(r)
    ensures InvNames(Create(m, op, r))
  {
    if !m.NameTaken(r.name) {
      NamesAdded(m.mem, m.log.known, r.id, r);
      NamesAdded(m.disk, m.log.known, r.id, r);
      HashesAdded(m.log.known, r.id, r);
    }
  }

  lemma CreateKeepsPresence(m: Model, op: nat, r: TokenRecord)
    requires InvKnown(m) && InvPresence(m) && op !in m.log.ops && m.log.Fresh(r)
    ensures InvPresence(Create(m, op, r))
  {
    if !m.NameTaken(r.name) {
      assert r.id !in m.log.created && r.id !in CreateIds(m.log.ops);
      OpAdded(m.log.ops, op, Creating(r.id));
    }
  }

  lemma CreateKeepsStatus(m: Model, op: nat, r: TokenRecord)
    requires InvKnown(m) && InvStatus(m) && op !in m.log.ops && m.log.Fresh(r)
    ensures InvStatus(Create(m, op, r))
  {
    OpAdded(m.log.ops, op, Creating(r.id));
  }

  lemma CreateKeepsRevoked(m: Model, op: nat, r: TokenRecord)
    requires InvKnown(m) && InvRevoked(m) && RevokeIds(m.log.ops) + m.log.revoked <= m.log.known.Keys
             && op !in m.log.ops && m.log.Fresh(r)
    ensures InvRevoked(Create(m, op, r))
  {
    OpAdded(m.log.ops, op, Creating(r.id));
  }

  lemma RevokeKeepsNames(m: Model, op: nat, id: Id)
    requires InvNames(m) && op !in m.log.ops
    ensures InvNames(Revoke(m, op, id))
  {
  }

  lemma RevokeKeepsPresence(m: Model, op: nat, id: Id)
    requires InvPresence(m) && InvKnown(m) && op !in m.log.ops
    ensures InvPresence(Revoke(m, op, id))
  {
    if id in m.mem {
      OpAdded(m.log.ops, op, Revoking(id, m.mem[id]));
    }
  }

  lemma RevokeKeepsStatus(m: Model, op: nat, id: Id)
    requires OneCreatePerId(m.log.ops) && InvStatus(m) && op !in m.log.ops
    ensures InvStatus(Revoke(m, op, id))
  {
    if id in m.mem {
      OpAdded(m.log.ops, op, Revoking(id, m.mem[id]));
    }
  }

  lemma RevokeKeepsRevoked(m: Model, op: nat, id: Id)
    requires OneCreatePerId(m.log.ops) && InvRevoked(m) && op !in m.log.ops
    ensures InvRevoked(Revoke(m, op, id))
  {
    if id in m.mem {
      OpAdded(m.log.ops, op, Revoking(id, m.mem[id]));
    }
  }

  lemma PersistKeepsNames(m: Model, op: nat)
    requires InvNames(m) && op in m.log.ops && !m.log.ops[op].Failed()
    ensures InvNames(Persist(m, op))
  {
  }

  lemma PersistKeepsPresence(m: Model, op: nat)
    requires InvPresence(m) && op in m.log.ops && !m.log.ops[op].Failed()
    ensures InvPresence(Persist(m, op))
  {
    OpDropped(m.log.ops, op);
  }

  lemma PersistKeepsStatus(m: Model, op: nat)
    requires OneCreatePerId(m.log.ops) && InvStatus(m) && op in m.log.ops && !m.log.ops[op].Failed()
    ensures InvStatus(Persist(m, op))
  {
    OpDropped(m.log.ops, op);
  }

  lemma PersistKeepsRevoked(m: Model, op: nat)
    requires OneCreatePerId(m.log.ops) && InvRevoked(m) && op in m.log.ops && !m.log.ops[op].Failed()
    ensures InvRevoked(Persist(m, op))
  {
    OpDropped(m.log.ops, op);
  }

  lemma FailKeepsNames(m: Model, op: nat)
    requires InvNames(m) && op in m.log.ops && !m.log.ops[op].Failed()
    ensures InvNames(Fail(m, op))
  {
  }

  lemma FailKeepsPresence(m: Model, op: nat)
    requires InvPresence(m) && op in m.log.ops && !m.log.ops[op].Failed()
    ensures InvPresence(Fail(m, op))
  {
    OpReplaced(m.log.ops, op, Fail(m, op).log.ops[op]);
  }

  lemma FailKeepsStatus(m: Model, op: nat)
    requires OneCreatePerId(m.log.ops) && InvStatus(m) && op in m.log.ops && !m.log.ops[op].Failed()
    ensures InvStatus(Fail(m, op))
  {
    OpReplaced(m.log.ops, op, Fail(m, op).log.ops[op]);
  }

  lemma FailKeepsRevoked(m: Model, op: nat)
    requires OneCreatePerId(m.log.ops) && InvRevoked(m) && op in m.log.ops && !m.log.ops[op].Failed()
    ensures InvRevoked(Fail(m, op))
  {
    OpReplaced(m.log.ops, op, Fail(m, op).log.ops[op]);
  }

  lemma UndoKeepsNames(m: Model, op: nat)
    requires InvNames(m) && op in m.log.ops && m.log.ops[op].Failed()
    ensures InvNames(Undo(m, op))
  {
  }

  lemma UndoKeepsPresence(m: Model, op: nat)
    requires InvPresence(m) && op in m.log.ops && m.log.ops[op].Failed()
    ensures InvPresence(Undo(m, op))
  {
    OpDropped(m.log.ops, op);
  }

  lemma UndoKeepsStatus(m: Model, op: nat)
    requires OneCreatePerId(m.log.ops) && InvStatus(m) && op in m.log.ops && m.log.ops[op].Failed()
    ensures InvStatus(Undo(m, op))
  {
    OpDropped(m.log.ops, op);
  }

  lemma UndoKeepsRevoked(m: Model, op: nat)
    requires OneCreatePerId(m.log.ops) && InvRevoked(m) && FailedRevokes(m.log.ops, m.log.revokeFailed)
             && op in m.log.ops && m.log.ops[op].Failed()
    ensures InvRevoked(Undo(m, op))
  {
    OpDropped(m.log.ops, op);
  }

  lemma RestartKeeps(m: Model)
    requires Inv(m)
    ensures Inv(Restart(m))
  {
  }

  /** The invariant is inductive. */
  lemma StepKeeps(m: Model, e: Event)
    requires Inv(m)
    ensures Inv(Step(m, e))
  {
    if m.log.Enabled(e) {
      match e
      case BeginCreate(op, id, token, now, request) =>
        var r := NewRecord(id, token, now, request);
        CreateKeepsNames(m, op, r);
        CreateKeepsPresence(m, op, r);
        CreateKeepsStatus(m, op, r);
        CreateKeepsRevoked(m, op, r);
      case BeginRevoke(op, id) =>
        RevokeKeepsNames(m, op, id);
        RevokeKeepsPresence(m, op, id);
        RevokeKeepsStatus(m, op, id);
        RevokeKeepsRevoked(m, op, id);
      case PersistOk(op) =>
        PersistKeepsNames(m, op);
        PersistKeepsPresence(m, op);
        PersistKeepsStatus(m, op);
        PersistKeepsRevoked(m, op);
      case PersistFail(op) =>
        FailKeepsNames(m, op);
        FailKeepsPresence(m, op);
        FailKeepsStatus(m, op);
        FailKeepsRevoked(m, op);
      case RollBack(op) =>
        UndoKeepsNames(m, op);
        UndoKeepsPresence(m, op);
        UndoKeepsStatus(m, op);
        UndoKeepsRevoked(m, op);
      case Crash =>
        RestartKeeps(m);
    }
  }

  lemma {:induction false} StepsKeep(m: Model, trace: seq<Event>)
    requires Inv(m)
    ensures Inv(Steps(m, trace))
    decreases |trace|
  {
    if trace != [] {
      StepKeeps(m, trace[0]);
      StepsKeep(Step(m, trace[0]), trace[1..]);
    }
  }
}
