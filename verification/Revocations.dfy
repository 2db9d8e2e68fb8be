/** When an acknowledged revocation is final, in terms of what is in flight as the revoke begins. */
module Revocations {
  import opened Text
  import opened TokenRecords
  import opened RegistryModel
  import opened RegistryMachine
  import opened RegistryRuns

  // ---------------------------------------------------------------- one revoke, from begin to end

  /** The process does not die and the persist of `op` is still to come. */
  ghost predicate Undisturbed(trace: seq<Event>, op: nat) {
    forall i :: 0 <= i < |trace| ==> trace[i] != Crash && trace[i] != PersistOk(op) && trace[i] != PersistFail(op)
  }

  /** `revoke_token(id)` begins, other operations do what they like, then it persists and returns Ok(true). */
  function AcknowledgedAfter(s: State, op: nat, id: Id, during: seq<Event>): State {
    Apply(Run(Apply(s, BeginRevoke(op, id)), during), PersistOk(op))
  }

  ghost predicate Pending(s: State, op: nat, id: Id) {
    op in s.log.ops && s.log.ops[op].Revoking? && s.log.ops[op].id == id
  }

  lemma {:induction false} PendingRun(s: State, during: seq<Event>, op: nat, id: Id)
    requires Pending(s, op, id) && Undisturbed(during, op)
    ensures Pending(Run(s, during), op, id)
    decreases |during|
  {
    if during != [] {
      PendingRun(Apply(s, during[0]), during[1..], op, id);
    }
  }

  /** The revoke is in flight all along, and it is its own persist that acknowledges it. */
  lemma RevokeIsAcknowledged(s: State, op: nat, id: Id, during: seq<Event>)
    requires HasId(s.mem, id) && op !in s.log.ops && Undisturbed(during, op)
    ensures Pending(Run(Apply(s, BeginRevoke(op, id)), during), op, id)
    ensures var t := AcknowledgedAfter(s, op, id, during);
            op !in t.log.ops && id in t.log.revoked && t.file == Snapshot(t.mem)
  {
    LookupIffHasId(s.mem, id);
    PendingRun(Apply(s, BeginRevoke(op, id)), during, op, id);
  }

  /** The trace of such a revoke, with what comes before and after. */
  function RevokeTrace(before: seq<Event>, op: nat, id: Id, during: seq<Event>, after: seq<Event>): seq<Event> {
    before + ([BeginRevoke(op, id)] + (during + ([PersistOk(op)] + after)))
  }

  lemma RevokeTraceRun(file: TokenFile, before: seq<Event>, op: nat, id: Id, during: seq<Event>, after: seq<Event>)
    ensures After(file, RevokeTrace(before, op, id, during, after))
            == Run(AcknowledgedAfter(After(file, before), op, id, during), after)
  {
    var ending := [PersistOk(op)] + after;
    RunConcat(Start(file), before, [BeginRevoke(op, id)] + (during + ending));
    var s := After(file, before);
    RunCons(s, BeginRevoke(op, id), during + ending);
    var begun := Apply(s, BeginRevoke(op, id));
    RunConcat(begun, during, ending);
    RunCons(Run(begun, during), PersistOk(op), after);
  }

  // ---------------------------------------------------------------- final if nobody holds `Active`

  /** `op` revokes `id`, and no other revoke of it in flight captured `Active`. */
  ghost predicate Sole(m: Model, op: nat, id: Id) {
    && id in m.log.known && InactiveIn(m.mem, id)
    && op in m.log.ops && m.log.ops[op].Revoking? && m.log.ops[op].id == id
    && forall k :: k in m.log.ops && k != op && !m.log.ops[k].Create() && m.log.ops[k].id == id ==>
         m.log.ops[k].previous == Revoked
  }

  lemma BeginIsSole(m: Model, op: nat, id: Id)
    requires InvKnown(m) && id in m.mem && op !in m.log.ops && !CapturedActive(m.log.ops, id)
    ensures Sole(Step(m, BeginRevoke(op, id)), op, id)
  {
    forall k | k in m.log.ops && !m.log.ops[k].Create() && m.log.ops[k].id == id
      ensures m.log.ops[k].previous == Revoked
    {
    }
  }

  lemma SoleStep(m: Model, e: Event, op: nat, id: Id)
    requires Sole(m, op, id) && e != Crash && e != PersistOk(op) && e != PersistFail(op)
    ensures Sole(Step(m, e), op, id)
  {
    var ops := Step(m, e).log.ops;
    assert op in ops && ops[op] == m.log.ops[op];
    forall k | k in ops && k != op && !ops[k].Create() && ops[k].id == id
      ensures ops[k].previous == Revoked
    {
      if k in m.log.ops {
        assert ops[k].previous == m.log.ops[k].previous;
      }
    }
  }

  lemma {:induction false} SoleSteps(m: Model, during: seq<Event>, op: nat, id: Id)
    requires Sole(m, op, id) && Undisturbed(during, op)
    ensures Sole(Steps(m, during), op, id)
    decreases |during|
  {
    if during != [] {
      SoleStep(m, during[0], op, id);
      SoleSteps(Step(m, during[0]), during[1..], op, id);
    }
  }

  lemma SoleSettles(m: Model, op: nat, id: Id)
    requires Sole(m, op, id)
    ensures Settled(Persist(m, op), id)
  {
  }

  /** Whatever happens while the revoke is in flight, once it is acknowledged the id stays inactive. */
  ghost predicate FinalOnceAcknowledged(s: State, op: nat, id: Id) {
    forall during :: Undisturbed(during, op) ==> StaysInactive(AcknowledgedAfter(s, op, id, during), id)
  }

  function AcknowledgedModel(m: Model, op: nat, id: Id, during: seq<Event>): Model {
    Step(Steps(Step(m, BeginRevoke(op, id)), during), PersistOk(op))
  }

  lemma AcknowledgedRefines(s: State, m: Model, op: nat, id: Id, during: seq<Event>)
    requires Refines(s, m)
    ensures Refines(AcknowledgedAfter(s, op, id, during), AcknowledgedModel(m, op, id, during))
  {
    StepRefines(s, m, BeginRevoke(op, id));
    RunRefines(Apply(s, BeginRevoke(op, id)), Step(m, BeginRevoke(op, id)), during);
    StepRefines(Run(Apply(s, BeginRevoke(op, id)), during), Steps(Step(m, BeginRevoke(op, id)), during), PersistOk(op));
  }

  lemma SoleRevokeSettles(m: Model, op: nat, id: Id, during: seq<Event>)
    requires InvKnown(m) && id in m.mem && op !in m.log.ops && !CapturedActive(m.log.ops, id) && Undisturbed(during, op)
    ensures var done := AcknowledgedModel(m, op, id, during); Settled(done, id) && id in done.log.known
  {
    BeginIsSole(m, op, id);
    SoleSteps(Step(m, BeginRevoke(op, id)), during, op, id);
    SoleSettles(Steps(Step(m, BeginRevoke(op, id)), during), op, id);
  }

  lemma SoleRevokeIsFinal(s: State, m: Model, op: nat, id: Id, during: seq<Event>, after: seq<Event>)
    requires Refines(s, m) && InvKnown(m)
    requires HasId(s.mem, id) && op !in s.log.ops && !CapturedActive(s.log.ops, id) && Undisturbed(during, op)
    ensures Inactive(Run(AcknowledgedAfter(s, op, id, during), after), id)
  {
    RefinesInactive(s, m, id);
    SoleRevokeSettles(m, op, id, during);
    AcknowledgedRefines(s, m, op, id, during);
    var t, done := AcknowledgedAfter(s, op, id, during), AcknowledgedModel(m, op, id, during);
    SettledSteps(done, after, id);
    RunRefines(t, done, after);
    RefinesInactive(Run(t, after), Steps(done, after), id);
  }

  /** A run in which another revoke, which captured `Active`, undoes this one after it is acknowledged. */
  lemma CapturedIsRestored(s: State, m: Model, op: nat, id: Id) returns (after: seq<Event>)
    requires Refines(s, m)
    requires HasId(s.mem, id) && op !in s.log.ops && CapturedActive(s.log.ops, id)
    ensures !Inactive(Run(AcknowledgedAfter(s, op, id, []), after), id)
  {
    RefinesInactive(s, m, id);
    var k :| k in m.log.ops && !m.log.ops[k].Create() && m.log.ops[k].id == id && m.log.ops[k].previous == Active;
    var t, done := AcknowledgedAfter(s, op, id, []), AcknowledgedModel(m, op, id, []);
    assert done == Persist(Revoke(m, op, id), op);
    assert k in done.log.ops && done.log.ops[k] == m.log.ops[k];
    after := Restores(done, id);
    AcknowledgedRefines(s, m, op, id, []);
    RunRefines(t, done, after);
    RefinesInactive(Run(t, after), Steps(done, after), id);
  }

  /**
   * A revoke of a token in memory is final once acknowledged, whatever interleaves with it, fails or
   * crashes afterwards and whatever failed before, exactly when no revoke of the token that is in
   * flight as it begins captured `Active`.
   */
  lemma RevokeIsFinalIff(file: TokenFile, before: seq<Event>, op: nat, id: Id)
    requires GoodFile(file)
    requires var s := After(file, before); HasId(s.mem, id) && op !in s.log.ops
    ensures var s := After(file, before); FinalOnceAcknowledged(s, op, id) <==> !CapturedActive(s.log.ops, id)
  {
    var s, m := After(file, before), ModelAfter(file, before);
    Reached(file, before);
    if CapturedActive(s.log.ops, id) {
      var after := CapturedIsRestored(s, m, op, id);
      assert Undisturbed([], op);
      assert !StaysInactive(AcknowledgedAfter(s, op, id, []), id);
    } else {
      forall during, after | Undisturbed(during, op)
        ensures Inactive(Run(AcknowledgedAfter(s, op, id, during), after), id)
      {
        SoleRevokeIsFinal(s, m, op, id, during, after);
      }
    }
  }

  /** With nothing in flight a revoke is final once acknowledged, however many failed before it. */
  lemma RetriedRevokeIsFinal(file: TokenFile, before: seq<Event>, op: nat, id: Id)
    requires GoodFile(file)
    requires var s := After(file, before); HasId(s.mem, id) && s.Quiescent()
    ensures FinalOnceAcknowledged(After(file, before), op, id)
  {
    RevokeIsFinalIff(file, before, op, id);
  }

  // ---------------------------------------------------------------- the token is dead

  /** What an inactive id means for its token, in memory and after a restart. */
  lemma InactiveTokenIsDead(file: TokenFile, trace: seq<Event>, id: Id, token: string)
    requires GoodFile(file) && Inactive(After(file, trace), id) && TokenOf(After(file, trace).log, id, token)
    ensures var t := After(file, trace); Validate(t.mem, token) == None && Validate(Load(t.file), token) == None
  {
    Reached(file, trace);
    RefinesInactive(After(file, trace), ModelAfter(file, trace), id);
    ReachedValidate(file, trace, id, token);
  }

  /** From there on the token validates nowhere, and neither does it after a restart. */
  lemma RevokedTokenIsDead(file: TokenFile, before: seq<Event>, op: nat, id: Id, token: string,
                           during: seq<Event>, after: seq<Event>)
    requires GoodFile(file)
    requires var s := After(file, before);
             && HasId(s.mem, id) && op !in s.log.ops && !CapturedActive(s.log.ops, id) && TokenOf(s.log, id, token)
    requires Undisturbed(during, op)
    ensures var t := After(file, RevokeTrace(before, op, id, during, after));
            Inactive(t, id) && Validate(t.mem, token) == None && Validate(Load(t.file), token) == None
  {
    var trace := RevokeTrace(before, op, id, during, after);
    Reached(file, before);
    SoleRevokeIsFinal(After(file, before), ModelAfter(file, before), op, id, during, after);
    RevokeTraceRun(file, before, op, id, during, after);
    RunConcat(Start(file), before, trace[|before|..]);
    assert trace == before + trace[|before|..];
    RunExtends(After(file, before), trace[|before|..]);
    InactiveTokenIsDead(file, trace, id, token);
  }

  // ---------------------------------------------------------------- runs in which nothing is put back

  /** This step is a rollback that puts `Active` back under `id`, which memory still has. */
  predicate PutsBack(s: State, e: Event, id: Id) {
    HasId(s.mem, id) && e.RollBack? && e.op in s.log.ops && s.log.ops[e.op] == RevokeFailed(id, Active)
  }

  predicate NeverPutsBack(s: State, trace: seq<Event>, id: Id)
    decreases |trace|
  {
    trace == [] || (!PutsBack(s, trace[0], id) && NeverPutsBack(Apply(s, trace[0]), trace[1..], id))
  }

  /** Inactive in memory and on disk at every point of the run. */
  ghost predicate AlwaysInactive(s: State, trace: seq<Event>, id: Id)
    decreases |trace|
  {
    Inactive(s, id) && (trace == [] || AlwaysInactive(Apply(s, trace[0]), trace[1..], id))
  }

  lemma RevokedStep(m: Model, e: Event, id: Id)
    requires id in m.log.known && InactiveIn(m.mem, id)
    requires !(id in m.mem && e.RollBack? && e.op in m.log.ops && m.log.ops[e.op] == RevokeFailed(id, Active))
    ensures id in Step(m, e).log.known
    ensures e != Crash || InactiveIn(m.disk, id) ==> InactiveIn(Step(m, e).mem, id)
    ensures InactiveIn(m.disk, id) ==> InactiveIn(Step(m, e).disk, id)
  {
  }

  lemma PutBackStep(m: Model, e: Event, id: Id)
    requires id in m.mem && e.RollBack? && e.op in m.log.ops && m.log.ops[e.op] == RevokeFailed(id, Active)
    ensures !InactiveIn(Step(m, e).mem, id)
  {
  }

  /** While the revoke is in flight, memory stays revoked. */
  lemma {:induction false} RevokedDuring(s: State, m: Model, during: seq<Event>, op: nat, id: Id)
    requires Refines(s, m) && id in m.log.known && InactiveIn(m.mem, id)
    requires NeverPutsBack(s, during, id) && Undisturbed(during, op)
    ensures id in Steps(m, during).log.known && InactiveIn(Steps(m, during).mem, id)
    decreases |during|
  {
    if during != [] {
      RefinesInactive(s, m, id);
      StepRefines(s, m, during[0]);
      RevokedStep(m, during[0], id);
      RevokedDuring(Apply(s, during[0]), Step(m, during[0]), during[1..], op, id);
    }
  }

  /** Once both copies are inactive, they stay so for exactly as long as nothing is put back. */
  lemma {:induction false} RevokedAfterIff(s: State, m: Model, after: seq<Event>, id: Id)
    requires Refines(s, m) && id in m.log.known && InactiveIn(m.mem, id) && InactiveIn(m.disk, id)
    ensures AlwaysInactive(s, after, id) <==> NeverPutsBack(s, after, id)
    decreases |after|
  {
    RefinesInactive(s, m, id);
    if after != [] {
      var t, n := Apply(s, after[0]), Step(m, after[0]);
      StepRefines(s, m, after[0]);
      if PutsBack(s, after[0], id) {
        PutBackStep(m, after[0], id);
        RefinesInactive(t, n, id);
      } else {
        RevokedStep(m, after[0], id);
        RevokedAfterIff(t, n, after[1..], id);
      }
    }
  }

  lemma PersistCopies(m: Model, op: nat)
    requires op in m.log.ops && m.log.ops[op].Revoking?
    ensures var n := Step(m, PersistOk(op)); n.mem == m.mem && n.disk == m.mem && n.log.known == m.log.known
  {
  }

  lemma BeginRevokes(m: Model, op: nat, id: Id)
    requires InvKnown(m) && id in m.mem && op !in m.log.ops
    ensures var n := Step(m, BeginRevoke(op, id)); id in n.log.known && InactiveIn(n.mem, id)
  {
  }

  lemma AcknowledgedInactive(s: State, m: Model, op: nat, id: Id, during: seq<Event>)
    requires Refines(s, m) && InvKnown(m)
    requires HasId(s.mem, id) && op !in s.log.ops && Undisturbed(during, op)
    requires NeverPutsBack(Apply(s, BeginRevoke(op, id)), during, id)
    ensures var done := AcknowledgedModel(m, op, id, during);
            id in done.log.known && InactiveIn(done.mem, id) && InactiveIn(done.disk, id)
  {
    var begin, begun := BeginRevoke(op, id), Step(m, BeginRevoke(op, id));
    RefinesInactive(s, m, id);
    BeginRevokes(m, op, id);
    StepRefines(s, m, begin);
    RevokedDuring(Apply(s, begin), begun, during, op, id);
    RunRefines(Apply(s, begin), begun, during);
    RevokeIsAcknowledged(s, op, id, during);
    PersistCopies(Steps(begun, during), op);
  }

  /**
   * Whatever is in flight as a revoke begins, if no rollback puts `Active` back until it is
   * acknowledged, the revocation holds at every point for exactly as long as none does.
   */
  lemma RevocationHoldsIff(file: TokenFile, before: seq<Event>, op: nat, id: Id, during: seq<Event>, after: seq<Event>)
    requires GoodFile(file)
    requires var s := After(file, before);
             && HasId(s.mem, id) && op !in s.log.ops && Undisturbed(during, op)
             && NeverPutsBack(Apply(s, BeginRevoke(op, id)), during, id)
    ensures var t := AcknowledgedAfter(After(file, before), op, id, during);
            AlwaysInactive(t, after, id) <==> NeverPutsBack(t, after, id)
  {
    var s, m := After(file, before), ModelAfter(file, before);
    Reached(file, before);
    AcknowledgedInactive(s, m, op, id, during);
    AcknowledgedRefines(s, m, op, id, during);
    RevokedAfterIff(AcknowledgedAfter(s, op, id, during), AcknowledgedModel(m, op, id, during), after, id);
  }
}
