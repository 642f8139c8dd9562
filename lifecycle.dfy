/**
 * The incident lifecycle of src/services.ts, one function per operation,
 * over a value `State` holding the store's tables and the logs of the two
 * adapters (the targets notified and the timers armed, in call order).
 * Every operation runs to completion as one atomic step; `now` is the clock
 * reading at which the step writes, in milliseconds.
 */
module Lifecycle {
  import opened Records
  import opened Policies
  import Tables

  datatype State = State(
    policy: PolicyStore,
    services: map<nat, Service>,
    nextServiceId: nat,
    incidents: map<nat, Incident>,
    nextIncidentId: nat,
    notifications: seq<Target>,
    timers: seq<TimerEntry>)

  /** Rows are stored under their ids, and services and incidents refer to existing rows. */
  ghost predicate Valid(st: State) {
    && ValidPolicies(st.policy)
    && (forall k :: k in st.services ==>
          && k < st.nextServiceId
          && st.services[k].id == k
          && st.services[k].policyId in st.policy.policies)
    && (forall k :: k in st.incidents ==>
          && k < st.nextIncidentId
          && st.incidents[k].id == k
          && st.incidents[k].serviceId in st.services)
  }

  /** Well-formedness is about the tables only, not the adapter logs. */
  lemma ValidIgnoresLogs(st: State, notifications: seq<Target>, timers: seq<TimerEntry>)
    requires Valid(st)
    ensures Valid(st.(notifications := notifications, timers := timers))
  {
  }

  function Empty(): (st: State)
    ensures Valid(st)
    ensures st.services == map[] && st.incidents == map[]
    ensures st.notifications == [] && st.timers == []
  {
    State(EmptyPolicies(), map[], 0, map[], 0, [], [])
  }

  /** The policy of the service that owns incident `iid`. */
  function PolicyOf(st: State, iid: nat): nat
    requires Valid(st) && iid in st.incidents
  {
    st.services[st.incidents[iid].serviceId].policyId
  }

  function ActiveOn(serviceId: nat): Incident -> bool {
    (i: Incident) => i.serviceId == serviceId && i.status != Closed
  }

  /** Every incident of the service is CLOSED. */
  ghost predicate NoActive(st: State, serviceId: nat) {
    forall k :: k in st.incidents && st.incidents[k].serviceId == serviceId ==> st.incidents[k].status == Closed
  }

  /** The ids of the service's incidents that are not CLOSED, as closeIncident queries them. */
  function Remaining(st: State, serviceId: nat): (r: seq<nat>)
    requires Valid(st)
    ensures |r| == 0 <==> NoActive(st, serviceId)
  {
    var r := Tables.SelectKeys(st.incidents, ActiveOn(serviceId), 0, st.nextIncidentId);
    assert |r| > 0 ==> r[0] in st.incidents && ActiveOn(serviceId)(st.incidents[r[0]]);
    r
  }

  /** The write that flips the service's health flag to false. */
  function MarkUnhealthy(st: State, serviceId: nat): (r: State)
    requires Valid(st) && serviceId in st.services
    ensures Valid(r)
  {
    st.(services := st.services[serviceId := st.services[serviceId].(healthy := false)])
  }

  /**
   * One escalation step of incident `iid`, arming the timer at `deadline`:
   * the service is marked unhealthy; if the policy has tier escalation + 1,
   * the counter goes up by one, each target of that tier is notified once,
   * in order, and exactly one timer is armed; otherwise nothing else changes.
   */
  function EscalateStep(st: State, iid: nat, now: int, deadline: int): (r: State)
    requires Valid(st) && iid in st.incidents
    ensures Valid(r)
    ensures r.policy == st.policy && r.nextServiceId == st.nextServiceId && r.nextIncidentId == st.nextIncidentId
    ensures forall k :: k in r.services <==> k in st.services
    ensures forall k :: k in r.incidents <==> k in st.incidents
  {
    var inc := st.incidents[iid];
    var st1 := MarkUnhealthy(st, inc.serviceId);
    match ResolveTier(st.policy, PolicyOf(st, iid), inc.escalation + 1)
    case None => st1
    case Some(targets) =>
      st1.(incidents := st1.incidents[iid := inc.(escalation := inc.escalation + 1, updatedAt := now)],
           notifications := st1.notifications + targets,
           timers := st1.timers + [TimerEntry(deadline, AknowledgeTimeoutCallback)])
  }

  /**
   * escalateAndNotify as the source writes it: the timer is armed 15 minutes
   * after the `updatedAt` of the incident row it was handed, read before
   * this step's own write.
   */
  function EscalateAsWritten(st: State, iid: nat, now: int): (r: State)
    requires Valid(st) && iid in st.incidents
    ensures |r.timers| <= |st.timers| + 1
    ensures |r.timers| == |st.timers| + 1 ==> r.timers[|st.timers|].deadline == st.incidents[iid].updatedAt + AckWindowMs
  {
    EscalateStep(st, iid, now, st.incidents[iid].updatedAt + AckWindowMs)
  }

  /** The step as written, with the deadline it reads from the row named `deadline`. */
  lemma AsWrittenDeadline(st: State, iid: nat, now: int, deadline: int)
    requires Valid(st) && iid in st.incidents && deadline == st.incidents[iid].updatedAt + AckWindowMs
    ensures EscalateAsWritten(st, iid, now) == EscalateStep(st, iid, now, deadline)
  {
  }

  /**
   * escalateAndNotify with the timer armed 15 minutes after this step's own
   * write (the `updatedAt` the step sets), as the comment at the call intends.
   */
  function Escalate(st: State, iid: nat, now: int): (r: State)
    requires Valid(st) && iid in st.incidents
    ensures Valid(r)
    ensures forall k :: k in r.incidents <==> k in st.incidents
    ensures |r.timers| <= |st.timers| + 1
    ensures |r.timers| == |st.timers| + 1 ==>
      r.timers[|st.timers|].deadline == now + AckWindowMs
      && r.incidents[iid].updatedAt == now
  {
    EscalateStep(st, iid, now, now + AckWindowMs)
  }

  /** The corrected step, with its deadline named `deadline`. */
  lemma CorrectedDeadline(st: State, iid: nat, now: int, deadline: int)
    requires Valid(st) && iid in st.incidents && deadline == now + AckWindowMs
    ensures Escalate(st, iid, now) == EscalateStep(st, iid, now, deadline)
  {
  }

  /**
   * The corrected step, reached by its writes: the tables and logs that the
   * Store's method produces field by field, for the tier lookup `found`,
   * are those of Escalate.
   */
  lemma EscalateWrites(st: State, iid: nat, now: int, found: Option<seq<Target>>,
                       services: map<nat, Service>, incidents: map<nat, Incident>,
                       notifications: seq<Target>, timers: seq<TimerEntry>)
    requires Valid(st) && iid in st.incidents
    requires found == ResolveTier(st.policy, PolicyOf(st, iid), st.incidents[iid].escalation + 1)
    requires var sid := st.incidents[iid].serviceId;
      services == st.services[sid := st.services[sid].(healthy := false)]
    requires var inc := st.incidents[iid];
      found.Some? ==>
        && incidents == st.incidents[iid := inc.(escalation := inc.escalation + 1, updatedAt := now)]
        && notifications == st.notifications + found.value
        && timers == st.timers + [TimerEntry(now + AckWindowMs, AknowledgeTimeoutCallback)]
    requires found.None? ==> incidents == st.incidents && notifications == st.notifications && timers == st.timers
    ensures State(st.policy, services, st.nextServiceId, incidents, st.nextIncidentId, notifications, timers) == Escalate(st, iid, now)
  {
    var st1 := MarkUnhealthy(st, st.incidents[iid].serviceId);
    assert st1 == st.(services := services);
  }

  /** The policy level at tier escalation + 1 exists: escalateAndNotify will escalate. */
  ghost predicate CanEscalate(st: State, iid: nat)
    requires Valid(st) && iid in st.incidents
  {
    HasTier(st.policy, PolicyOf(st, iid), st.incidents[iid].escalation + 1)
  }

  /** The targets of tier escalation + 1 of the incident's policy. */
  function NextTargets(st: State, iid: nat): seq<Target>
    requires Valid(st) && iid in st.incidents
  {
    TierTargets(st.policy, PolicyOf(st, iid), st.incidents[iid].escalation + 1)
  }

  /** An escalation step marks the service unhealthy, whatever it was, and touches no other service or incident. */
  lemma EscalateMarksUnhealthy(st: State, iid: nat, now: int, deadline: int)
    requires Valid(st) && iid in st.incidents
    ensures var r := EscalateStep(st, iid, now, deadline); var sid := st.incidents[iid].serviceId;
      !r.services[sid].healthy
    ensures var r := EscalateStep(st, iid, now, deadline); var sid := st.incidents[iid].serviceId;
      r.services[sid].(healthy := st.services[sid].healthy) == st.services[sid]
    ensures var r := EscalateStep(st, iid, now, deadline); var sid := st.incidents[iid].serviceId;
      (forall k :: k in st.services && k != sid ==> r.services[k] == st.services[k])
    ensures var r := EscalateStep(st, iid, now, deadline);
      (forall k :: k in st.incidents && k != iid ==> r.incidents[k] == st.incidents[k])
  {
    var sid := st.incidents[iid].serviceId;
    var services := st.services[sid := st.services[sid].(healthy := false)];
    assert MarkUnhealthy(st, sid).services == services;
    assert EscalateStep(st, iid, now, deadline).services == services;
    assert EscalateStep(st, iid, now, deadline).incidents == st.incidents
        || EscalateStep(st, iid, now, deadline).incidents == st.incidents[iid := EscalateStep(st, iid, now, deadline).incidents[iid]];
  }

  /**
   * With tier escalation + 1 present, the counter goes up by exactly one,
   * that tier's targets are notified once each, in order, and exactly one
   * timer is armed.
   */
  lemma EscalateWithTier(st: State, iid: nat, now: int, deadline: int)
    requires Valid(st) && iid in st.incidents
    requires CanEscalate(st, iid)
    ensures var r := EscalateStep(st, iid, now, deadline); var inc := st.incidents[iid];
      r.incidents[iid].escalation == inc.escalation + 1
    ensures var r := EscalateStep(st, iid, now, deadline); var inc := st.incidents[iid];
      r.incidents[iid] == inc.(escalation := inc.escalation + 1, updatedAt := now)
    ensures var r := EscalateStep(st, iid, now, deadline);
      r.notifications == st.notifications + NextTargets(st, iid)
    ensures var r := EscalateStep(st, iid, now, deadline);
      r.timers == st.timers + [TimerEntry(deadline, AknowledgeTimeoutCallback)]
  {
  }

  /**
   * With tier escalation + 1 missing, even when higher tiers exist, the
   * counter is unchanged and nobody is notified and no timer is armed.
   */
  lemma EscalateWithoutTier(st: State, iid: nat, now: int, deadline: int)
    requires Valid(st) && iid in st.incidents
    requires !CanEscalate(st, iid)
    ensures var r := EscalateStep(st, iid, now, deadline);
      r.incidents == st.incidents
    ensures var r := EscalateStep(st, iid, now, deadline);
      r.notifications == st.notifications
    ensures var r := EscalateStep(st, iid, now, deadline);
      r.timers == st.timers
  {
  }

  /** The row createIncident inserts: OPEN, escalation 0, no acknowledger. */
  function NewIncident(st: State, message: string, serviceId: nat, now: int): Incident {
    Incident(st.nextIncidentId, message, serviceId, Open, 0, None, now)
  }

  /** The state right after the insert, before any escalation. */
  function Inserted(st: State, message: string, serviceId: nat, now: int): (r: State)
    requires Valid(st) && serviceId in st.services
    ensures Valid(r) && st.nextIncidentId !in st.incidents
    ensures st.nextIncidentId in r.incidents && r.incidents[st.nextIncidentId] == NewIncident(st, message, serviceId, now)
    ensures forall k :: k in st.incidents ==> k in r.incidents && r.incidents[k] == st.incidents[k]
    ensures forall k :: k in r.incidents ==> k in st.incidents || k == st.nextIncidentId
    ensures r.(incidents := st.incidents, nextIncidentId := st.nextIncidentId) == st
  {
    st.(incidents := st.incidents[st.nextIncidentId := NewIncident(st, message, serviceId, now)],
        nextIncidentId := st.nextIncidentId + 1)
  }

  /**
   * createIncident: inserts a new OPEN incident and, only if the service was
   * healthy when read, escalates it once. A missing service makes the insert
   * fail and leaves the state as it was.
   */
  function CreateIncident(st: State, message: string, serviceId: nat, now: int): (r: State)
    requires Valid(st)
    ensures Valid(r)
    ensures serviceId !in st.services ==> r == st
  {
    if serviceId !in st.services then st
    else
      var st1 := Inserted(st, message, serviceId, now);
      if st.services[serviceId].healthy then Escalate(st1, st.nextIncidentId, now) else st1
  }

  /** createIncident as the insert followed, on a healthy service only, by one escalation step. */
  lemma CreateUnfolds(st: State, message: string, serviceId: nat, now: int)
    requires Valid(st) && serviceId in st.services
    ensures st.services[serviceId].healthy ==>
      CreateIncident(st, message, serviceId, now) == Escalate(Inserted(st, message, serviceId, now), st.nextIncidentId, now)
    ensures !st.services[serviceId].healthy ==>
      CreateIncident(st, message, serviceId, now) == Inserted(st, message, serviceId, now)
  {
  }

  /** createIncident adds exactly one new incident, OPEN, of the service, under the next id. */
  lemma CreateAddsOpenIncident(st: State, message: string, serviceId: nat, now: int)
    requires Valid(st) && serviceId in st.services
    ensures st.nextIncidentId !in st.incidents
    ensures var r := CreateIncident(st, message, serviceId, now);
      forall k :: k in r.incidents <==> k in st.incidents || k == st.nextIncidentId
    ensures var r := CreateIncident(st, message, serviceId, now);
      r.incidents[st.nextIncidentId].(escalation := 0) == NewIncident(st, message, serviceId, now)
  {
    var id := st.nextIncidentId;
    var st1 := Inserted(st, message, serviceId, now);
    CreateUnfolds(st, message, serviceId, now);
    if st.services[serviceId].healthy {
      if CanEscalate(st1, id) {
        EscalateWithTier(st1, id, now, now + AckWindowMs);
      } else {
        EscalateWithoutTier(st1, id, now, now + AckWindowMs);
      }
    }
  }

  /** createIncident leaves every other incident, the id counter aside, and the policies as they were. */
  lemma CreateKeepsOtherIncidents(st: State, message: string, serviceId: nat, now: int)
    requires Valid(st) && serviceId in st.services
    ensures CreateIncident(st, message, serviceId, now).nextIncidentId == st.nextIncidentId + 1
    ensures var r := CreateIncident(st, message, serviceId, now);
      forall k :: k in st.incidents ==> k in r.incidents && r.incidents[k] == st.incidents[k]
    ensures CreateIncident(st, message, serviceId, now).policy == st.policy
  {
    CreateUnfolds(st, message, serviceId, now);
    if st.services[serviceId].healthy {
      EscalateMarksUnhealthy(Inserted(st, message, serviceId, now), st.nextIncidentId, now, now + AckWindowMs);
    }
  }

  /** After createIncident the service is unhealthy, and no other service changes. */
  lemma CreateLeavesServiceUnhealthy(st: State, message: string, serviceId: nat, now: int)
    requires Valid(st) && serviceId in st.services
    ensures var r := CreateIncident(st, message, serviceId, now);
      (forall k :: k in r.services <==> k in st.services)
    ensures var r := CreateIncident(st, message, serviceId, now);
      !r.services[serviceId].healthy
    ensures var r := CreateIncident(st, message, serviceId, now);
      r.services[serviceId].(healthy := st.services[serviceId].healthy) == st.services[serviceId]
    ensures var r := CreateIncident(st, message, serviceId, now);
      (forall k :: k in st.services && k != serviceId ==> r.services[k] == st.services[k])
  {
    if st.services[serviceId].healthy {
      EscalateMarksUnhealthy(Inserted(st, message, serviceId, now), st.nextIncidentId, now, now + AckWindowMs);
    }
  }

  /**
   * On a healthy service, createIncident takes exactly one escalation step
   * from tier 0: with tier 1 present, the incident is at escalation 1, tier
   * 1's targets are notified and one timer is armed.
   */
  lemma CreateOnHealthyService(st: State, message: string, serviceId: nat, now: int)
    requires Valid(st) && serviceId in st.services && st.services[serviceId].healthy
    ensures var r := CreateIncident(st, message, serviceId, now); var id := st.nextIncidentId;
      id in r.incidents
    ensures var r := CreateIncident(st, message, serviceId, now); var id := st.nextIncidentId; var p := st.services[serviceId].policyId;
      r.incidents[id].escalation == (if HasTier(st.policy, p, 1) then 1 else 0)
    ensures var r := CreateIncident(st, message, serviceId, now); var p := st.services[serviceId].policyId;
      r.notifications == st.notifications + TierTargets(st.policy, p, 1)
    ensures var r := CreateIncident(st, message, serviceId, now); var p := st.services[serviceId].policyId;
      r.timers == st.timers + (if HasTier(st.policy, p, 1) then [TimerEntry(now + AckWindowMs, AknowledgeTimeoutCallback)] else [])
  {
    var st1 := Inserted(st, message, serviceId, now);
    if CanEscalate(st1, st.nextIncidentId) {
      EscalateWithTier(st1, st.nextIncidentId, now, now + AckWindowMs);
    } else {
      EscalateWithoutTier(st1, st.nextIncidentId, now, now + AckWindowMs);
    }
  }

  /** On an unhealthy service, createIncident notifies nobody and arms no timer; the new incident stays at escalation 0. */
  lemma CreateOnUnhealthyService(st: State, message: string, serviceId: nat, now: int)
    requires Valid(st) && serviceId in st.services && !st.services[serviceId].healthy
    ensures var r := CreateIncident(st, message, serviceId, now);
      r.incidents[st.nextIncidentId].escalation == 0
    ensures var r := CreateIncident(st, message, serviceId, now);
      r.services == st.services
    ensures var r := CreateIncident(st, message, serviceId, now);
      r.notifications == st.notifications
    ensures var r := CreateIncident(st, message, serviceId, now);
      r.timers == st.timers
  {
  }

  /**
   * aknowledgeIncident: sets the status to AKNOWLEDGED and records the
   * acknowledging target, whatever the status was. A missing incident makes
   * the update fail and leaves the state as it was.
   */
  function AknowledgeIncident(st: State, iid: nat, targetId: nat, now: int): (r: State)
    requires Valid(st)
    ensures Valid(r)
    ensures iid !in st.incidents ==> r == st
  {
    if iid !in st.incidents then st
    else
      var inc := st.incidents[iid];
      st.(incidents := st.incidents[iid := inc.(status := Aknowledged, targetId := Some(targetId), updatedAt := now)])
  }

  /**
   * Whatever the prior status, the incident ends AKNOWLEDGED with the given
   * target recorded; no other incident, no service and no log changes.
   */
  lemma AknowledgeSetsStatus(st: State, iid: nat, targetId: nat, now: int)
    requires Valid(st) && iid in st.incidents
    ensures var r := AknowledgeIncident(st, iid, targetId, now);
      (forall k :: k in r.incidents <==> k in st.incidents)
    ensures var r := AknowledgeIncident(st, iid, targetId, now);
      r.incidents[iid].status == Aknowledged
    ensures var r := AknowledgeIncident(st, iid, targetId, now);
      r.incidents[iid].targetId == Some(targetId)
    ensures var r := AknowledgeIncident(st, iid, targetId, now); var inc := st.incidents[iid];
      r.incidents[iid].(status := inc.status, targetId := inc.targetId, updatedAt := inc.updatedAt) == inc
    ensures var r := AknowledgeIncident(st, iid, targetId, now);
      (forall k :: k in st.incidents && k != iid ==> r.incidents[k] == st.incidents[k])
    ensures var r := AknowledgeIncident(st, iid, targetId, now);
      r.(incidents := st.incidents) == st
  {
  }

  /**
   * closeIncident: sets the status to CLOSED; then, if no incident of the
   * service is left outside CLOSED, marks the service healthy. A missing
   * incident makes the update fail and leaves the state as it was.
   */
  function CloseIncident(st: State, iid: nat, now: int): (r: State)
    requires Valid(st)
    ensures Valid(r)
    ensures iid !in st.incidents ==> r == st
  {
    if iid !in st.incidents then st
    else
      var inc := st.incidents[iid];
      var sid := inc.serviceId;
      var st1 := st.(incidents := st.incidents[iid := inc.(status := Closed, updatedAt := now)]);
      if |Remaining(st1, sid)| == 0 then
        st1.(services := st1.services[sid := st1.services[sid].(healthy := true)])
      else st1
  }

  /** The incident ends CLOSED; no other incident and no log changes. */
  lemma CloseSetsClosed(st: State, iid: nat, now: int)
    requires Valid(st) && iid in st.incidents
    ensures var r := CloseIncident(st, iid, now);
      (forall k :: k in r.incidents <==> k in st.incidents)
    ensures var r := CloseIncident(st, iid, now);
      r.incidents[iid].status == Closed
    ensures var r := CloseIncident(st, iid, now); var inc := st.incidents[iid];
      r.incidents[iid].(status := inc.status, updatedAt := inc.updatedAt) == inc
    ensures var r := CloseIncident(st, iid, now);
      (forall k :: k in st.incidents && k != iid ==> r.incidents[k] == st.incidents[k])
    ensures var r := CloseIncident(st, iid, now);
      r.(incidents := st.incidents, services := st.services) == st
  {
  }

  /**
   * After closeIncident the service is healthy if and only if it was
   * already, or no incident of it is left outside CLOSED; when one is
   * left, the service is untouched. Other services are untouched.
   */
  lemma CloseRederivesHealth(st: State, iid: nat, now: int)
    requires Valid(st) && iid in st.incidents
    ensures var r := CloseIncident(st, iid, now);
      (forall k :: k in r.services <==> k in st.services)
    ensures var r := CloseIncident(st, iid, now); var sid := st.incidents[iid].serviceId;
      (r.services[sid].healthy <==> NoActive(r, sid) || st.services[sid].healthy)
    ensures var r := CloseIncident(st, iid, now); var sid := st.incidents[iid].serviceId;
      (!NoActive(r, sid) ==> r.services[sid] == st.services[sid])
    ensures var r := CloseIncident(st, iid, now); var sid := st.incidents[iid].serviceId;
      r.services[sid].(healthy := st.services[sid].healthy) == st.services[sid]
    ensures var r := CloseIncident(st, iid, now); var sid := st.incidents[iid].serviceId;
      (forall k :: k in st.services && k != sid ==> r.services[k] == st.services[k])
  {
  }

  /**
   * aknowledgeTimeout, the timer's callback: no-op when the incident is
   * missing, when its service is healthy, or when it is AKNOWLEDGED or
   * CLOSED; otherwise one escalation step.
   */
  function AknowledgeTimeout(st: State, iid: nat, now: int): (r: State)
    requires Valid(st)
    ensures Valid(r)
    ensures iid !in st.incidents ==> r == st
    ensures iid in st.incidents && st.services[st.incidents[iid].serviceId].healthy ==> r == st
    ensures iid in st.incidents && st.incidents[iid].status in {Aknowledged, Closed} ==> r == st
    ensures iid in st.incidents && !st.services[st.incidents[iid].serviceId].healthy && st.incidents[iid].status == Open ==>
      r == Escalate(st, iid, now)
  {
    if iid !in st.incidents then st
    else
      var inc := st.incidents[iid];
      if st.services[inc.serviceId].healthy then st
      else if inc.status == Aknowledged || inc.status == Closed then st
      else Escalate(st, iid, now)
  }

  function ServiceNamed(name: string): Service -> bool {
    (s: Service) => s.name == name
  }

  /** The service with this name, if any. */
  function FindService(st: State, name: string): (r: Option<nat>)
    requires Valid(st)
    ensures r.Some? ==> r.value in st.services && st.services[r.value].name == name
    ensures r.None? <==> forall k :: k in st.services ==> st.services[k].name != name
  {
    Tables.FirstKey(st.services, ServiceNamed(name), 0, st.nextServiceId)
  }

  /**
   * Connects the service named `name` to the policy, creating it (healthy)
   * when no service has that name.
   */
  function ConnectOrCreateService(st: State, name: string, policyId: nat): (r: State)
    requires Valid(st) && policyId in st.policy.policies
    ensures Valid(r)
    ensures r.policy == st.policy && r.incidents == st.incidents
    ensures r.notifications == st.notifications && r.timers == st.timers
    ensures forall k :: k in st.services ==> k in r.services
    ensures forall k :: k in st.services ==> r.services[k].healthy == st.services[k].healthy
    ensures forall k :: k in r.services && k !in st.services ==> r.services[k].healthy
    ensures forall k :: k in st.services && st.services[k].name != name ==> r.services[k] == st.services[k]
    ensures exists k :: k in r.services && r.services[k].name == name && r.services[k].policyId == policyId
  {
    match FindService(st, name)
    case Some(sid) =>
      st.(services := st.services[sid := st.services[sid].(policyId := policyId)])
    case None =>
      var sid := st.nextServiceId;
      var r := st.(services := st.services[sid := Service(sid, name, true, policyId)], nextServiceId := sid + 1);
      assert r.services[sid].name == name;
      r
  }

  /**
   * The state upsertPolicy builds for a new policy name: the policy is
   * created with the levels as its ladder, and the service is connected to
   * it (or created).
   */
  function CreatePolicy(st: State, policyName: string, serviceName: string, levels: seq<LevelInput>): (r: State)
    requires Valid(st)
    ensures Valid(r)
  {
    var ps := CreateLadder(st.policy, policyName, levels);
    CreateLadderAddsPolicy(st.policy, policyName, levels);
    ConnectOrCreateService(st.(policy := ps), serviceName, st.policy.nextPolicyId)
  }

  /**
   * upsertPolicy: with a policy of that name present, nothing changes and
   * that policy is returned; otherwise the policy is created as above.
   */
  function UpsertPolicy(st: State, policyName: string, serviceName: string, levels: seq<LevelInput>): (r: (State, nat))
    requires Valid(st)
    ensures Valid(r.0)
    ensures r.1 in r.0.policy.policies && r.0.policy.policies[r.1].name == policyName
    ensures FindPolicy(st.policy, policyName).Some? ==> r.0 == st && r.1 == FindPolicy(st.policy, policyName).value
    ensures FindPolicy(st.policy, policyName).None? ==>
      r.1 == st.policy.nextPolicyId && r.1 !in st.policy.policies
  {
    match FindPolicy(st.policy, policyName)
    case Some(pid) => (st, pid)
    case None => (CreatePolicy(st, policyName, serviceName, levels), st.policy.nextPolicyId)
  }

  /** A new policy leaves incidents, health flags and the logs as they were; a service it creates is healthy. */
  lemma CreatePolicyKeepsIncidents(st: State, policyName: string, serviceName: string, levels: seq<LevelInput>)
    requires Valid(st)
    ensures CreatePolicy(st, policyName, serviceName, levels).incidents == st.incidents
    ensures var r := CreatePolicy(st, policyName, serviceName, levels);
      r.notifications == st.notifications && r.timers == st.timers
    ensures var r := CreatePolicy(st, policyName, serviceName, levels);
      forall k :: k in st.services ==> k in r.services && r.services[k].healthy == st.services[k].healthy
    ensures var r := CreatePolicy(st, policyName, serviceName, levels);
      forall k :: k in r.services && k !in st.services ==> r.services[k].healthy
  {
  }

  /** After a new policy is created, the service of that name exists and points to it. */
  lemma CreatePolicyConnectsService(st: State, policyName: string, serviceName: string, levels: seq<LevelInput>)
    requires Valid(st)
    ensures var r := CreatePolicy(st, policyName, serviceName, levels);
      exists k :: k in r.services && r.services[k].name == serviceName && r.services[k].policyId == st.policy.nextPolicyId
  {
    var ps := CreateLadder(st.policy, policyName, levels);
    CreateLadderAddsPolicy(st.policy, policyName, levels);
    assert CreatePolicy(st, policyName, serviceName, levels) == ConnectOrCreateService(st.(policy := ps), serviceName, st.policy.nextPolicyId);
  }

  /** The policies of a new policy's state are its ladder. */
  lemma CreatePolicyLadder(st: State, policyName: string, serviceName: string, levels: seq<LevelInput>)
    requires Valid(st)
    ensures CreatePolicy(st, policyName, serviceName, levels).policy == CreateLadder(st.policy, policyName, levels)
  {
  }

  /**
   * upsertPolicy on a name no policy has, with the service lookup `service`
   * and the new ladder `ps` named: the form in which the Store's method
   * reaches it.
   */
  lemma UpsertCreates(st: State, policyName: string, serviceName: string, levels: seq<LevelInput>, service: Option<nat>, ps: PolicyStore)
    requires Valid(st) && FindPolicy(st.policy, policyName).None?
    requires service == FindService(st, serviceName) && ps == CreateLadder(st.policy, policyName, levels)
    ensures service.Some? ==>
      UpsertPolicy(st, policyName, serviceName, levels)
        == (st.(policy := ps, services := st.services[service.value := st.services[service.value].(policyId := st.policy.nextPolicyId)]),
            st.policy.nextPolicyId)
    ensures service.None? ==>
      UpsertPolicy(st, policyName, serviceName, levels)
        == (st.(policy := ps,
                services := st.services[st.nextServiceId := Service(st.nextServiceId, serviceName, true, st.policy.nextPolicyId)],
                nextServiceId := st.nextServiceId + 1),
            st.policy.nextPolicyId)
  {
    CreateLadderAddsPolicy(st.policy, policyName, levels);
    assert FindService(st.(policy := ps), serviceName) == service;
  }
}
