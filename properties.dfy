/**
 * Properties that span the operations of the incident lifecycle: the
 * health flag of a service against the status of its incidents, the
 * escalation counter, the chain of acknowledgement timeouts climbing a
 * policy's ladder, and when the timer is re-armed.
 */
module Properties {
  import opened Records
  import opened Policies
  import opened Lifecycle

  /** Every service is healthy exactly when none of its incidents is left outside CLOSED. */
  ghost predicate HealthConsistent(st: State) {
    forall sid :: sid in st.services ==> (st.services[sid].healthy <==> NoActive(st, sid))
  }

  lemma EmptyIsConsistent()
    ensures HealthConsistent(Empty())
  {
  }

  /** Of the incidents, only `iid` may have changed, and it still belongs to the same service. */
  ghost predicate OnlyIncidentChanged(st: State, r: State, iid: nat) {
    && iid in st.incidents && iid in r.incidents
    && (forall k :: k in r.incidents <==> k in st.incidents)
    && (forall k :: k in st.incidents && k != iid ==> r.incidents[k] == st.incidents[k])
    && r.incidents[iid].serviceId == st.incidents[iid].serviceId
  }

  /** The same services, and only the health flag of `sid` may have changed. */
  ghost predicate OnlyHealthOf(st: State, r: State, sid: nat) {
    && (forall k :: k in r.services <==> k in st.services)
    && (forall k :: k in st.services && k != sid ==> r.services[k].healthy == st.services[k].healthy)
  }

  /**
   * A step that changes one incident, and the health flag of that
   * incident's service only, keeps the flags consistent as soon as that
   * one flag is consistent afterwards.
   */
  lemma HealthAfterOneIncident(st: State, r: State, iid: nat)
    requires HealthConsistent(st) && OnlyIncidentChanged(st, r, iid)
    requires OnlyHealthOf(st, r, st.incidents[iid].serviceId)
    requires var sid := st.incidents[iid].serviceId;
      sid in r.services ==> (r.services[sid].healthy <==> NoActive(r, sid))
    ensures HealthConsistent(r)
  {
    var sid := st.incidents[iid].serviceId;
    forall s | s in r.services && s != sid
      ensures r.services[s].healthy <==> NoActive(r, s)
    {
      assert NoActive(r, s) <==> NoActive(st, s);
    }
  }

  /**
   * A step that adds one incident, not CLOSED, and marks its service
   * unhealthy, touching no other incident and no other health flag, keeps
   * the flags consistent.
   */
  lemma HealthAfterNewIncident(st: State, r: State, id: nat, sid: nat)
    requires HealthConsistent(st) && id !in st.incidents
    requires forall k :: k in r.incidents <==> k in st.incidents || k == id
    requires forall k :: k in st.incidents ==> r.incidents[k] == st.incidents[k]
    requires r.incidents[id].serviceId == sid && r.incidents[id].status != Closed
    requires OnlyHealthOf(st, r, sid)
    requires sid in r.services ==> !r.services[sid].healthy
    ensures HealthConsistent(r)
  {
    forall s | s in r.services
      ensures r.services[s].healthy <==> NoActive(r, s)
    {
      if s != sid {
        assert NoActive(r, s) <==> NoActive(st, s);
      }
    }
  }

  /** createIncident keeps every health flag consistent: the service of the new OPEN incident ends unhealthy. */
  lemma CreateKeepsHealthConsistent(st: State, message: string, serviceId: nat, now: int)
    requires Valid(st) && HealthConsistent(st)
    ensures HealthConsistent(CreateIncident(st, message, serviceId, now))
  {
    if serviceId in st.services {
      var r := CreateIncident(st, message, serviceId, now);
      var id := st.nextIncidentId;
      CreateAddsOpenIncident(st, message, serviceId, now);
      CreateKeepsOtherIncidents(st, message, serviceId, now);
      CreateLeavesServiceUnhealthy(st, message, serviceId, now);
      assert r.incidents[id].serviceId == serviceId && r.incidents[id].status == Open;
      assert OnlyHealthOf(st, r, serviceId);
      HealthAfterNewIncident(st, r, id, serviceId);
    }
  }

  /** closeIncident keeps every health flag consistent. */
  lemma CloseKeepsHealthConsistent(st: State, iid: nat, now: int)
    requires Valid(st) && HealthConsistent(st)
    ensures HealthConsistent(CloseIncident(st, iid, now))
  {
    if iid in st.incidents {
      var r := CloseIncident(st, iid, now);
      var sid := st.incidents[iid].serviceId;
      CloseSetsClosed(st, iid, now);
      CloseRederivesHealth(st, iid, now);
      assert OnlyIncidentChanged(st, r, iid);
      assert OnlyHealthOf(st, r, sid);
      if st.services[sid].healthy {
        assert NoActive(st, sid);
        assert NoActive(r, sid);
      }
      HealthAfterOneIncident(st, r, iid);
    }
  }

  /** aknowledgeIncident keeps every health flag consistent, when the incident is not CLOSED. */
  lemma AknowledgeKeepsHealthConsistent(st: State, iid: nat, targetId: nat, now: int)
    requires Valid(st) && HealthConsistent(st)
    requires iid in st.incidents ==> st.incidents[iid].status != Closed
    ensures HealthConsistent(AknowledgeIncident(st, iid, targetId, now))
  {
    if iid in st.incidents {
      var r := AknowledgeIncident(st, iid, targetId, now);
      var sid := st.incidents[iid].serviceId;
      AknowledgeSetsStatus(st, iid, targetId, now);
      assert r.services == st.services;
      assert OnlyIncidentChanged(st, r, iid);
      assert NoActive(r, sid) <==> NoActive(st, sid);
      HealthAfterOneIncident(st, r, iid);
    }
  }

  /**
   * aknowledgeIncident does not look at the status: acknowledging a CLOSED
   * incident of a healthy service reopens it (AKNOWLEDGED is not CLOSED)
   * while the service stays healthy.
   */
  lemma AknowledgeClosedBreaksHealth(st: State, iid: nat, targetId: nat, now: int)
    requires Valid(st) && iid in st.incidents && st.incidents[iid].status == Closed
    requires st.services[st.incidents[iid].serviceId].healthy
    ensures var r := AknowledgeIncident(st, iid, targetId, now);
      r.services[st.incidents[iid].serviceId].healthy && !NoActive(r, st.incidents[iid].serviceId)
    ensures !HealthConsistent(AknowledgeIncident(st, iid, targetId, now))
  {
    var r := AknowledgeIncident(st, iid, targetId, now);
    var sid := st.incidents[iid].serviceId;
    AknowledgeSetsStatus(st, iid, targetId, now);
    assert r.services == st.services;
    assert r.incidents[iid].serviceId == sid && r.incidents[iid].status == Aknowledged;
  }

  /** The timer's callback keeps every health flag consistent. */
  lemma TimeoutKeepsHealthConsistent(st: State, iid: nat, now: int)
    requires Valid(st) && HealthConsistent(st)
    ensures HealthConsistent(AknowledgeTimeout(st, iid, now))
  {
    if iid in st.incidents && !st.services[st.incidents[iid].serviceId].healthy && st.incidents[iid].status == Open {
      var deadline := now + AckWindowMs;
      var r := EscalateStep(st, iid, now, deadline);
      var sid := st.incidents[iid].serviceId;
      assert AknowledgeTimeout(st, iid, now) == r;
      EscalateMarksUnhealthy(st, iid, now, deadline);
      if CanEscalate(st, iid) {
        EscalateWithTier(st, iid, now, deadline);
      } else {
        EscalateWithoutTier(st, iid, now, deadline);
      }
      assert OnlyIncidentChanged(st, r, iid);
      assert OnlyHealthOf(st, r, sid);
      assert r.incidents[iid].status == Open;
      assert !NoActive(r, sid);
      HealthAfterOneIncident(st, r, iid);
    }
  }

  /** upsertPolicy keeps every health flag consistent: a service it creates is healthy and has no incident. */
  lemma UpsertKeepsHealthConsistent(st: State, policyName: string, serviceName: string, levels: seq<LevelInput>)
    requires Valid(st) && HealthConsistent(st)
    ensures HealthConsistent(UpsertPolicy(st, policyName, serviceName, levels).0)
  {
    if FindPolicy(st.policy, policyName).None? {
      var r := CreatePolicy(st, policyName, serviceName, levels);
      CreatePolicyKeepsIncidents(st, policyName, serviceName, levels);
      forall s | s in r.services
        ensures r.services[s].healthy <==> NoActive(r, s)
      {
        if s in st.services {
          assert NoActive(r, s) <==> NoActive(st, s);
        } else {
          assert forall k :: k in r.incidents ==> r.incidents[k].serviceId != s;
        }
      }
    }
  }

  /** The operations of the service layer, with their arguments. */
  datatype Op =
    | CreateOp(message: string, serviceId: nat, now: int)
    | CloseOp(incidentId: nat, now: int)
    | AknowledgeOp(incidentId: nat, targetId: nat, now: int)
    | TimeoutOp(incidentId: nat, now: int)
    | UpsertOp(policyName: string, serviceName: string, levels: seq<LevelInput>)

  function Apply(st: State, op: Op): (r: State)
    requires Valid(st)
    ensures Valid(r)
  {
    match op
    case CreateOp(m, sid, now) => CreateIncident(st, m, sid, now)
    case CloseOp(iid, now) => CloseIncident(st, iid, now)
    case AknowledgeOp(iid, tid, now) => AknowledgeIncident(st, iid, tid, now)
    case TimeoutOp(iid, now) => AknowledgeTimeout(st, iid, now)
    case UpsertOp(p, s, lvs) => UpsertPolicy(st, p, s, lvs).0
  }

  /** The state after running the operations in order. */
  function Run(st: State, ops: seq<Op>): (r: State)
    requires Valid(st)
    ensures Valid(r)
    decreases |ops|
  {
    if ops == [] then st else Run(Apply(st, ops[0]), ops[1..])
  }

  /** The operation does not acknowledge a CLOSED incident. */
  predicate AcksOpenOnly(st: State, op: Op) {
    op.AknowledgeOp? && op.incidentId in st.incidents ==> st.incidents[op.incidentId].status != Closed
  }

  /** Every acknowledgement of the run targets an incident that is not CLOSED when it runs. */
  ghost predicate RunAcksOpenOnly(st: State, ops: seq<Op>)
    requires Valid(st)
    decreases |ops|
  {
    ops != [] ==> AcksOpenOnly(st, ops[0]) && RunAcksOpenOnly(Apply(st, ops[0]), ops[1..])
  }

  lemma ApplyKeepsHealthConsistent(st: State, op: Op)
    requires Valid(st) && HealthConsistent(st) && AcksOpenOnly(st, op)
    ensures HealthConsistent(Apply(st, op))
  {
    match op
    case CreateOp(m, sid, now) => CreateKeepsHealthConsistent(st, m, sid, now);
    case CloseOp(iid, now) => CloseKeepsHealthConsistent(st, iid, now);
    case AknowledgeOp(iid, tid, now) => AknowledgeKeepsHealthConsistent(st, iid, tid, now);
    case TimeoutOp(iid, now) => TimeoutKeepsHealthConsistent(st, iid, now);
    case UpsertOp(p, s, lvs) => UpsertKeepsHealthConsistent(st, p, s, lvs);
  }

  /**
   * From the empty store, any run that never acknowledges a CLOSED incident
   * keeps every service healthy exactly when all its incidents are CLOSED.
   */
  lemma {:induction false} RunKeepsHealthConsistent(st: State, ops: seq<Op>)
    requires Valid(st) && HealthConsistent(st) && RunAcksOpenOnly(st, ops)
    ensures HealthConsistent(Run(st, ops))
    decreases |ops|
  {
    if ops != [] {
      ApplyKeepsHealthConsistent(st, ops[0]);
      RunKeepsHealthConsistent(Apply(st, ops[0]), ops[1..]);
    }
  }

  /** No incident disappears and no escalation counter goes down. */
  ghost predicate EscalationsKept(st: State, r: State) {
    forall k :: k in st.incidents ==> k in r.incidents && st.incidents[k].escalation <= r.incidents[k].escalation
  }

  lemma CreateKeepsEscalations(st: State, message: string, serviceId: nat, now: int)
    requires Valid(st)
    ensures EscalationsKept(st, CreateIncident(st, message, serviceId, now))
  {
    if serviceId in st.services {
      CreateKeepsOtherIncidents(st, message, serviceId, now);
    }
  }

  lemma CloseKeepsEscalations(st: State, iid: nat, now: int)
    requires Valid(st)
    ensures EscalationsKept(st, CloseIncident(st, iid, now))
  {
    if iid in st.incidents {
      CloseSetsClosed(st, iid, now);
    }
  }

  lemma AknowledgeKeepsEscalations(st: State, iid: nat, targetId: nat, now: int)
    requires Valid(st)
    ensures EscalationsKept(st, AknowledgeIncident(st, iid, targetId, now))
  {
    if iid in st.incidents {
      AknowledgeSetsStatus(st, iid, targetId, now);
    }
  }

  /** The timer's callback raises the counter of its incident by at most one and leaves the others alone. */
  lemma TimeoutKeepsEscalations(st: State, iid: nat, now: int)
    requires Valid(st)
    ensures EscalationsKept(st, AknowledgeTimeout(st, iid, now))
    ensures iid in st.incidents ==> AknowledgeTimeout(st, iid, now).incidents[iid].escalation <= st.incidents[iid].escalation + 1
  {
    if iid in st.incidents && !st.services[st.incidents[iid].serviceId].healthy && st.incidents[iid].status == Open {
      var deadline := now + AckWindowMs;
      assert AknowledgeTimeout(st, iid, now) == EscalateStep(st, iid, now, deadline);
      EscalateMarksUnhealthy(st, iid, now, deadline);
      if CanEscalate(st, iid) {
        EscalateWithTier(st, iid, now, deadline);
      } else {
        EscalateWithoutTier(st, iid, now, deadline);
      }
    }
  }

  lemma UpsertKeepsEscalations(st: State, policyName: string, serviceName: string, levels: seq<LevelInput>)
    requires Valid(st)
    ensures EscalationsKept(st, UpsertPolicy(st, policyName, serviceName, levels).0)
  {
    if FindPolicy(st.policy, policyName).None? {
      CreatePolicyKeepsIncidents(st, policyName, serviceName, levels);
    }
  }

  lemma ApplyKeepsEscalations(st: State, op: Op)
    requires Valid(st)
    ensures EscalationsKept(st, Apply(st, op))
  {
    match op
    case CreateOp(m, sid, now) => CreateKeepsEscalations(st, m, sid, now);
    case CloseOp(iid, now) => CloseKeepsEscalations(st, iid, now);
    case AknowledgeOp(iid, tid, now) => AknowledgeKeepsEscalations(st, iid, tid, now);
    case TimeoutOp(iid, now) => TimeoutKeepsEscalations(st, iid, now);
    case UpsertOp(p, s, lvs) => UpsertKeepsEscalations(st, p, s, lvs);
  }

  /** Along any run, no incident disappears and no escalation counter goes down. */
  lemma {:induction false} RunKeepsEscalations(st: State, ops: seq<Op>)
    requires Valid(st)
    ensures EscalationsKept(st, Run(st, ops))
    decreases |ops|
  {
    if ops != [] {
      ApplyKeepsEscalations(st, ops[0]);
      RunKeepsEscalations(Apply(st, ops[0]), ops[1..]);
    }
  }

  /** The timer's callback fired on the incident at each of the given times, in order. */
  function Fire(st: State, iid: nat, times: seq<int>): (r: State)
    requires Valid(st)
    ensures Valid(r)
    decreases |times|
  {
    if times == [] then st else Fire(AknowledgeTimeout(st, iid, times[0]), iid, times[1..])
  }

  /**
   * One timeout on an OPEN incident of an unhealthy service whose next tier
   * exists: one tier up, that tier notified, one timer re-armed; the
   * incident stays OPEN and its service unhealthy, on the same policy.
   */
  lemma TimeoutClimbsOneTier(st: State, iid: nat, now: int)
    requires Valid(st) && iid in st.incidents && st.incidents[iid].status == Open
    requires !st.services[st.incidents[iid].serviceId].healthy && CanEscalate(st, iid)
    ensures var r := AknowledgeTimeout(st, iid, now);
      iid in r.incidents && r.incidents[iid] == st.incidents[iid].(escalation := st.incidents[iid].escalation + 1, updatedAt := now)
    ensures var r := AknowledgeTimeout(st, iid, now); var sid := st.incidents[iid].serviceId;
      sid in r.services && !r.services[sid].healthy && r.services[sid].policyId == st.services[sid].policyId
    ensures var r := AknowledgeTimeout(st, iid, now);
      iid in r.incidents && PolicyOf(r, iid) == PolicyOf(st, iid)
    ensures AknowledgeTimeout(st, iid, now).policy == st.policy
    ensures AknowledgeTimeout(st, iid, now).notifications == st.notifications + NextTargets(st, iid)
    ensures |AknowledgeTimeout(st, iid, now).timers| == |st.timers| + 1
  {
    var deadline := now + AckWindowMs;
    assert AknowledgeTimeout(st, iid, now) == EscalateStep(st, iid, now, deadline);
    EscalateMarksUnhealthy(st, iid, now, deadline);
    EscalateWithTier(st, iid, now, deadline);
  }

  lemma FireUnfolds(st: State, iid: nat, times: seq<int>)
    requires Valid(st) && times != []
    ensures Fire(st, iid, times) == Fire(AknowledgeTimeout(st, iid, times[0]), iid, times[1..])
  {
  }

  /** Climbing from `from` to `to` is the next tier's targets, then the climb from there. */
  lemma ClimbStep(ps: PolicyStore, policyId: nat, from: nat, to: nat)
    requires ValidPolicies(ps) && from < to
    ensures Climb(ps, policyId, from, to) == TierTargets(ps, policyId, from + 1) + Climb(ps, policyId, from + 1, to)
  {
  }

  /** Notifying tier e + 1 and then climbing on to `to` is climbing from e to `to`. */
  lemma ClimbCompose(ps: PolicyStore, policyId: nat, e: nat, to: nat, before: seq<Target>, mid: seq<Target>, after: seq<Target>)
    requires ValidPolicies(ps) && e < to
    requires mid == before + TierTargets(ps, policyId, e + 1)
    requires after == mid + Climb(ps, policyId, e + 1, to)
    ensures after == before + Climb(ps, policyId, e, to)
  {
    ClimbStep(ps, policyId, e, to);
    assert before + TierTargets(ps, policyId, e + 1) + Climb(ps, policyId, e + 1, to)
        == before + (TierTargets(ps, policyId, e + 1) + Climb(ps, policyId, e + 1, to));
  }

  /**
   * While the tiers e + 1, ..., top of the incident's policy `p` (in the
   * policy store `ps`) are present without a gap, each timeout climbs
   * exactly one tier: after the timeouts at `times` the incident is at tier
   * to = e + |times|, the targets of tiers e + 1, ..., to have been notified
   * tier after tier, and one timer has been armed per timeout.
   * The parameters `ps`, `p`, `e` and `to` only name the policy store, the
   * policy, the starting tier and the final tier, which are fixed by the
   * requires; they are passed explicitly so that the inductive call can
   * keep `ps`, `p` and `to` while `e` moves up by one.
   */
  lemma {:induction false} TimeoutsClimbLadder(st: State, iid: nat, times: seq<int>, top: nat, ps: PolicyStore, p: nat, e: nat, to: nat)
    requires Valid(st) && iid in st.incidents && st.incidents[iid].status == Open
    requires !st.services[st.incidents[iid].serviceId].healthy
    requires ps == st.policy && p == PolicyOf(st, iid) && e == st.incidents[iid].escalation && to == e + |times|
    requires to <= top && DenseTiers(ps, p, e, top)
    ensures var r := Fire(st, iid, times); iid in r.incidents && r.incidents[iid].escalation == to
    ensures Fire(st, iid, times).notifications == st.notifications + Climb(ps, p, e, to)
    ensures |Fire(st, iid, times).timers| == |st.timers| + |times|
    decreases |times|
  {
    if times == [] {
      assert Fire(st, iid, times) == st;
    } else {
      var st1 := AknowledgeTimeout(st, iid, times[0]);
      TimeoutClimbsOneTier(st, iid, times[0]);
      TimeoutsClimbLadder(st1, iid, times[1..], top, ps, p, e + 1, to);
      FireUnfolds(st, iid, times);
      ClimbCompose(ps, p, e, to, st.notifications, st1.notifications, Fire(st1, iid, times[1..]).notifications);
    }
  }

  /**
   * At the top of the ladder (the next tier is missing) a timeout notifies
   * nobody, arms no timer and leaves the incident as it was: the chain of
   * timers ends.
   */
  lemma TimeoutAtTopEndsChain(st: State, iid: nat, now: int)
    requires Valid(st) && iid in st.incidents && !CanEscalate(st, iid)
    ensures AknowledgeTimeout(st, iid, now).incidents == st.incidents
    ensures AknowledgeTimeout(st, iid, now).notifications == st.notifications
    ensures AknowledgeTimeout(st, iid, now).timers == st.timers
  {
    if !st.services[st.incidents[iid].serviceId].healthy && st.incidents[iid].status == Open {
      assert AknowledgeTimeout(st, iid, now) == EscalateStep(st, iid, now, now + AckWindowMs);
      EscalateWithoutTier(st, iid, now, now + AckWindowMs);
    }
  }

  /**
   * A timeout keeps the incident, its service and the policy store, and
   * raises the counter by at most one; with the next tier missing it does
   * not raise it at all.
   */
  lemma TimeoutKeepsLadder(st: State, iid: nat, now: int)
    requires Valid(st) && iid in st.incidents
    ensures var r := AknowledgeTimeout(st, iid, now);
      iid in r.incidents && r.incidents[iid].serviceId == st.incidents[iid].serviceId
    ensures var r := AknowledgeTimeout(st, iid, now);
      r.policy == st.policy && iid in r.incidents && PolicyOf(r, iid) == PolicyOf(st, iid)
    ensures var r := AknowledgeTimeout(st, iid, now);
      iid in r.incidents && r.incidents[iid].escalation <= st.incidents[iid].escalation + 1
    ensures var r := AknowledgeTimeout(st, iid, now);
      !CanEscalate(st, iid) ==> iid in r.incidents && r.incidents[iid].escalation == st.incidents[iid].escalation
  {
    if !st.services[st.incidents[iid].serviceId].healthy && st.incidents[iid].status == Open {
      var deadline := now + AckWindowMs;
      assert AknowledgeTimeout(st, iid, now) == EscalateStep(st, iid, now, deadline);
      EscalateMarksUnhealthy(st, iid, now, deadline);
      if CanEscalate(st, iid) {
        EscalateWithTier(st, iid, now, deadline);
      } else {
        EscalateWithoutTier(st, iid, now, deadline);
      }
    }
  }

  /**
   * Tiers are looked up by exact number, so a gap stops the climb: when
   * tier top + 1 of the incident's policy is missing and the incident is
   * at most at tier `top`, no sequence of timeouts takes it past `top`.
   * `ps` and `p` only name the policy store and the incident's policy, which
   * the requires fix, so that the inductive call can state that they are
   * the same after each timeout.
   */
  lemma {:induction false} TimeoutsStopAtGap(st: State, iid: nat, times: seq<int>, ps: PolicyStore, p: nat, top: nat)
    requires Valid(st) && iid in st.incidents && ps == st.policy && p == PolicyOf(st, iid)
    requires st.incidents[iid].escalation <= top && !HasTier(ps, p, top + 1)
    ensures var r := Fire(st, iid, times); iid in r.incidents && r.incidents[iid].escalation <= top
    decreases |times|
  {
    if times != [] {
      var st1 := AknowledgeTimeout(st, iid, times[0]);
      TimeoutKeepsLadder(st, iid, times[0]);
      TimeoutsStopAtGap(st1, iid, times[1..], ps, p, top);
      FireUnfolds(st, iid, times);
    }
  }

  /**
   * As written, the timer is re-armed at the `updatedAt` of the row the step
   * was handed, plus 15 minutes. When that row was last written by the
   * previous escalation and its timer fires on time, the new deadline is
   * the very moment of firing: the next tier gets no time to acknowledge.
   * The corrected step re-arms 15 minutes after its own write.
   */
  lemma AsWrittenRearmsAtFiringTime(st: State, iid: nat, now: int)
    requires Valid(st) && iid in st.incidents && CanEscalate(st, iid)
    requires now == st.incidents[iid].updatedAt + AckWindowMs
    ensures EscalateAsWritten(st, iid, now).timers == st.timers + [TimerEntry(now, AknowledgeTimeoutCallback)]
    ensures Escalate(st, iid, now).timers == st.timers + [TimerEntry(now + AckWindowMs, AknowledgeTimeoutCallback)]
  {
    EscalateWithTier(st, iid, now, st.incidents[iid].updatedAt + AckWindowMs);
    EscalateWithTier(st, iid, now, now + AckWindowMs);
  }

  /** On the createIncident path the row was just written, so the written and the corrected step agree. */
  lemma AsWrittenAgreesOnCreate(st: State, message: string, serviceId: nat, now: int)
    requires Valid(st) && serviceId in st.services
    ensures var st1 := Inserted(st, message, serviceId, now);
      EscalateAsWritten(st1, st.nextIncidentId, now) == Escalate(st1, st.nextIncidentId, now)
  {
    var st1 := Inserted(st, message, serviceId, now);
    assert st1.incidents[st.nextIncidentId].updatedAt == now;
    AsWrittenAgreesWhenFresh(st1, st.nextIncidentId, now);
  }

  /** The written and the corrected step agree on a row last written at the moment of the step. */
  lemma AsWrittenAgreesWhenFresh(st: State, iid: nat, now: int)
    requires Valid(st) && iid in st.incidents && st.incidents[iid].updatedAt == now
    ensures EscalateAsWritten(st, iid, now) == Escalate(st, iid, now)
  {
    var deadline := now + AckWindowMs;
    AsWrittenDeadline(st, iid, now, deadline);
    CorrectedDeadline(st, iid, now, deadline);
  }

  /**
   * The timeline the finding is about: an incident created at `t` on a
   * healthy service with tiers 1 and 2 is at tier 1 with its timer due at
   * t + 15 min; when that timer fires, the step as written re-arms at
   * t + 15 min again, where the corrected step re-arms at t + 30 min.
   */
  lemma CreateThenTimeoutDeadlines(st: State, message: string, serviceId: nat, t: int)
    requires Valid(st) && serviceId in st.services && st.services[serviceId].healthy
    requires HasTier(st.policy, st.services[serviceId].policyId, 1)
    requires HasTier(st.policy, st.services[serviceId].policyId, 2)
    ensures var st1 := CreateIncident(st, message, serviceId, t);
      st1.timers == st.timers + [TimerEntry(t + AckWindowMs, AknowledgeTimeoutCallback)]
    ensures var st1 := CreateIncident(st, message, serviceId, t);
      EscalateAsWritten(st1, st.nextIncidentId, t + AckWindowMs).timers
        == st1.timers + [TimerEntry(t + AckWindowMs, AknowledgeTimeoutCallback)]
    ensures var st1 := CreateIncident(st, message, serviceId, t);
      Escalate(st1, st.nextIncidentId, t + AckWindowMs).timers
        == st1.timers + [TimerEntry(t + 2 * AckWindowMs, AknowledgeTimeoutCallback)]
  {
    var id := st.nextIncidentId;
    var st1 := CreateIncident(st, message, serviceId, t);
    var p := st.services[serviceId].policyId;
    CreateOnHealthyService(st, message, serviceId, t);
    CreateAddsOpenIncident(st, message, serviceId, t);
    CreateLeavesServiceUnhealthy(st, message, serviceId, t);
    CreateKeepsOtherIncidents(st, message, serviceId, t);
    assert st1.incidents[id].escalation == 1 && st1.incidents[id].updatedAt == t;
    assert st1.incidents[id].serviceId == serviceId && st1.services[serviceId].policyId == p;
    assert CanEscalate(st1, id);
    AsWrittenRearmsAtFiringTime(st1, id, t + AckWindowMs);
  }
}
