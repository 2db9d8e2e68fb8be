/**
 * What becomes of a create whose persist failed: when its record is on disk all the same, and what a
 * restart makes of it.
 */
module FailedCreates {
  import opened Text
  import opened TokenRecords
  import opened RegistryModel
  import opened RegistryMachine
  import opened RegistryRuns

  // ---------------------------------------------------------------- persists of a run

  /** Some persist of the run succeeds. */
  predicate Persists(s: State, trace: seq<Event>)
    decreases |trace|
  {
    trace != [] && ((trace[0].PersistOk? && s.log.Enabled(trace[0])) || Persists(Apply(s, trace[0]), trace[1..]))
  }

  ghost predicate NoCrash(trace: seq<Event>) {
    forall i :: 0 <= i < |trace| ==> trace[i] != Crash
  }

  /** The process does not die, and the create neither returns Ok nor rolls back yet. */
  ghost predicate Unfinished(trace: seq<Event>, op: nat) {
    NoCrash(trace) && forall i :: 0 <= i < |trace| ==> trace[i] != PersistOk(op) && trace[i] != RollBack(op)
  }

  // ---------------------------------------------------------------- from the push to the rollback

  /** The create of `id` is in flight, and memory has its record. */
  ghost predicate Pushed(m: Model, op: nat, id: Id) {
    op in m.log.ops && m.log.ops[op].Create() && m.log.ops[op].id == id && id in m.mem
  }

  lemma PushedStep(m: Model, e: Event, op: nat, id: Id)
    requires Pushed(m, op, id) && OneCreatePerId(m.log.ops)
    requires e != Crash && e != PersistOk(op) && e != RollBack(op)
    ensures Pushed(Step(m, e), op, id)
    ensures id in Step(m, e).disk <==> id in m.disk || (e.PersistOk? && m.log.Enabled(e))
  {
  }

  lemma {:induction false} PushedSteps(s: State, m: Model, during: seq<Event>, op: nat, id: Id)
    requires Refines(s, m) && Inv(m) && Pushed(m, op, id) && Unfinished(during, op)
    ensures Pushed(Steps(m, during), op, id)
    ensures id in Steps(m, during).disk <==> id in m.disk || Persists(s, during)
    decreases |during|
  {
    if during != [] {
      PushedStep(m, during[0], op, id);
      StepRefines(s, m, during[0]);
      StepKeeps(m, during[0]);
      PushedSteps(Apply(s, during[0]), Step(m, during[0]), during[1..], op, id);
    }
  }

  // ---------------------------------------------------------------- from the rollback on

  /** Memory does not have the id, and nothing but a restart can bring it back. */
  ghost predicate Absent(m: Model, id: Id) {
    id in m.log.known && id !in m.mem && id !in CreateIds(m.log.ops)
  }

  lemma RolledBackAbsent(m: Model, op: nat, id: Id)
    requires Inv(m) && Pushed(m, op, id) && m.log.ops[op].Failed()
    ensures Absent(Step(m, RollBack(op)), id)
    ensures Step(m, RollBack(op)).disk == m.disk
  {
    OpDropped(m.log.ops, op);
  }

  lemma AbsentStep(m: Model, e: Event, id: Id)
    requires Absent(m, id) && e != Crash
    ensures Absent(Step(m, e), id)
    ensures id in Step(m, e).disk <==> id in m.disk && !(e.PersistOk? && m.log.Enabled(e))
  {
    var ops := Step(m, e).log.ops;
    forall k | k in ops && ops[k].Create() && ops[k].id == id
      ensures k in m.log.ops && m.log.ops[k].Create() && m.log.ops[k].id == id
    {
    }
  }

  lemma {:induction false} AbsentSteps(s: State, m: Model, after: seq<Event>, id: Id)
    requires Refines(s, m) && Absent(m, id) && NoCrash(after)
    ensures Absent(Steps(m, after), id)
    ensures id in Steps(m, after).disk <==> id in m.disk && !Persists(s, after)
    decreases |after|
  {
    if after != [] {
      AbsentStep(m, after[0], id);
      StepRefines(s, m, after[0]);
      AbsentSteps(Apply(s, after[0]), Step(m, after[0]), after[1..], id);
    }
  }

  /** A create that pushed its record, ran on until its persist failed, rolled back, and what came after. */
  function RolledBackAfter(pushed: State, op: nat, during: seq<Event>): State {
    Apply(Run(pushed, during), RollBack(op))
  }

  function RolledBackModel(pushed: Model, op: nat, during: seq<Event>): Model {
    Step(Steps(pushed, during), RollBack(op))
  }

  lemma FailedCreateSteps(s: State, m: Model, op: nat, id: Id, during: seq<Event>, after: seq<Event>)
    requires Refines(s, m) && Inv(m) && Pushed(m, op, id) && id in m.log.known && id !in m.disk
    requires Unfinished(during, op) && NoCrash(after)
    requires var log := Run(s, during).log; op in log.ops && log.ops[op].Failed()
    ensures var u, n := RolledBackAfter(s, op, during), RolledBackModel(m, op, during);
            && Refines(Run(u, after), Steps(n, after)) && Absent(Steps(n, after), id)
            && (id in Steps(n, after).disk <==> Persists(s, during) && !Persists(u, after))
  {
    PushedSteps(s, m, during, op, id);
    RunRefines(s, m, during);
    StepsKeep(m, during);
    RolledBackAbsent(Steps(m, during), op, id);
    StepRefines(Run(s, during), Steps(m, during), RollBack(op));
    AbsentSteps(RolledBackAfter(s, op, during), RolledBackModel(m, op, during), after, id);
    RunRefines(RolledBackAfter(s, op, during), RolledBackModel(m, op, during), after);
  }

  /** `BeginCreate` pushes a record that neither copy had. */
  lemma PushIsNew(s: State, m: Model, op: nat, id: Id, token: string, now: int, request: Request)
    requires Refines(s, m) && Inv(m)
    requires s.log.Enabled(BeginCreate(op, id, token, now, request)) && !HasName(s.mem, request.name)
    ensures var n := Step(m, BeginCreate(op, id, token, now, request));
            && Pushed(n, op, id) && id !in n.disk
            && id in n.log.known && n.log.known[id] == NewRecord(id, token, now, request)
  {
    MatchesName(s.mem, m, request.name);
  }

  /**
   * A create that reported a persist error is not in memory, and is on disk exactly when some other
   * operation's persist succeeded between its push and its rollback, and none has since.
   */
  lemma FailedCreateOnDiskIff(file: TokenFile, before: seq<Event>, op: nat, id: Id, token: string, now: int,
                              request: Request, during: seq<Event>, after: seq<Event>)
    requires GoodFile(file) && Unfinished(during, op) && NoCrash(after)
    requires var s, e := After(file, before), BeginCreate(op, id, token, now, request);
             && s.log.Enabled(e) && !HasName(s.mem, request.name)
             && var log := Run(Apply(s, e), during).log; op in log.ops && log.ops[op].Failed()
    ensures var pushed := Apply(After(file, before), BeginCreate(op, id, token, now, request));
            var u := RolledBackAfter(pushed, op, during);
            var t := Run(u, after);
            && !HasId(t.mem, id)
            && (HasId(Stored(t.file), id) <==> Persists(pushed, during) && !Persists(u, after))
  {
    var s, m, e := After(file, before), ModelAfter(file, before), BeginCreate(op, id, token, now, request);
    Reached(file, before);
    PushIsNew(s, m, op, id, token, now, request);
    StepRefines(s, m, e);
    StepKeeps(m, e);
    FailedCreateSteps(Apply(s, e), Step(m, e), op, id, during, after);
    var t := Run(RolledBackAfter(Apply(s, e), op, during), after);
    var n := Steps(RolledBackModel(Step(m, e), op, during), after);
    MatchesHasId(t.mem, n.mem, n.log.known, id);
    MatchesHasId(Stored(t.file), n.disk, n.log.known, id);
  }

  lemma MatchesHasId(rs: seq<TokenRecord>, v: Copy, known: map<Id, TokenRecord>, id: Id)
    requires Matches(rs, v, known)
    ensures HasId(rs, id) <==> id in v
  {
  }

  // ---------------------------------------------------------------- after a restart

  /** Both copies have the id, and no create in flight can take it out again. */
  ghost predicate Lasting(m: Model, id: Id) {
    id in m.log.known && id in m.mem && id in m.disk && id !in CreateIds(m.log.ops)
  }

  lemma LastingStep(m: Model, e: Event, id: Id)
    requires Lasting(m, id)
    ensures Lasting(Step(m, e), id)
  {
    var ops := Step(m, e).log.ops;
    forall k | k in ops && ops[k].Create() && ops[k].id == id
      ensures k in m.log.ops && m.log.ops[k].Create() && m.log.ops[k].id == id
    {
    }
  }

  lemma {:induction false} LastingSteps(m: Model, after: seq<Event>, id: Id)
    requires Lasting(m, id)
    ensures Lasting(Steps(m, after), id)
    decreases |after|
  {
    if after != [] {
      LastingStep(m, after[0], id);
      LastingSteps(Step(m, after[0]), after[1..], id);
    }
  }

  /** Neither copy has the id, and it does not come back. */
  ghost predicate Gone(m: Model, id: Id) {
    Absent(m, id) && id !in m.disk
  }

  lemma {:induction false} GoneSteps(m: Model, after: seq<Event>, id: Id)
    requires Gone(m, id)
    ensures Gone(Steps(m, after), id)
    decreases |after|
  {
    if after != [] {
      if after[0] != Crash {
        AbsentStep(m, after[0], id);
      }
      GoneSteps(Step(m, after[0]), after[1..], id);
    }
  }

  /**
   * What a restart does with an id that memory does not have: if the file has it, it is in memory and
   * on disk in every state from then on, whatever was reported when it was created; if not, it is in
   * neither ever again.
   */
  lemma RestartDecidesIff(file: TokenFile, before: seq<Event>, after: seq<Event>, id: Id)
    requires GoodFile(file) && id in After(file, before).log.known && !HasId(After(file, before).mem, id)
    ensures var s := After(file, before);
            var t := Run(Apply(s, Crash), after);
            && (HasId(Stored(s.file), id) ==> HasId(t.mem, id) && HasId(Stored(t.file), id))
            && (!HasId(Stored(s.file), id) ==> !HasId(t.mem, id) && !HasId(Stored(t.file), id))
  {
    var s, m := After(file, before), ModelAfter(file, before);
    Reached(file, before);
    MatchesHasId(Stored(s.file), m.disk, m.log.known, id);
    StepRefines(s, m, Crash);
    RunRefines(Apply(s, Crash), Step(m, Crash), after);
    if id in m.disk {
      LastingSteps(Step(m, Crash), after, id);
    } else {
      GoneSteps(Step(m, Crash), after, id);
    }
    var t, n := Run(Apply(s, Crash), after), Steps(Step(m, Crash), after);
    MatchesHasId(t.mem, n.mem, n.log.known, id);
    MatchesHasId(Stored(t.file), n.disk, n.log.known, id);
  }

  lemma UntouchedOnDisk(file: TokenFile, before: seq<Event>, id: Id)
    requires GoodFile(file)
    requires var s := After(file, before); id in s.log.issued && id !in s.log.revokeAsked && HasId(Stored(s.file), id)
    ensures var m := ModelAfter(file, before); id in m.disk && m.disk[id] == Active
  {
    var s, m := After(file, before), ModelAfter(file, before);
    Reached(file, before);
    MatchesHasId(Stored(s.file), m.disk, m.log.known, id);
  }

  /**
   * A token whose create reported an error and whose record is on disk authenticates after a restart,
   * and its name is taken, if nobody asked to revoke it.
   */
  lemma FailedCreateReturns(file: TokenFile, before: seq<Event>, id: Id, token: string)
    requires GoodFile(file)
    requires var s := After(file, before);
             id in s.log.issued && id !in s.log.revokeAsked && TokenOf(s.log, id, token) && HasId(Stored(s.file), id)
    ensures var s := After(file, before);
            var loaded := Load(s.file);
            && Apply(s, Crash).mem == loaded
            && Validate(loaded, token).Some? && Validate(loaded, token).value.id == id
            && VersionOf(Validate(loaded, token).value, s.log.known[id])
            && HasName(loaded, s.log.known[id].name)
  {
    var s := After(file, before);
    UntouchedOnDisk(file, before, id);
    ReachedValidate(file, before, id, token);
    var r := Validate(Load(s.file), token).value;
    ReachedRecord(file, before, r);
    VersionKept(r, s.log.known[id], Active);
    NameOf(Load(s.file), r);
  }

  lemma NameOf(rs: seq<TokenRecord>, r: TokenRecord)
    requires r in rs
    ensures HasName(rs, r.name)
  {
    var i :| 0 <= i < |rs| && rs[i] == r;
  }
}
