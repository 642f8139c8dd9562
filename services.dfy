/**
 * The services of src/services.ts over a store whose tables are updated in
 * place, and the two adapters of src/adapters.ts, each of which records the
 * calls made on it. Every method is proved against the function of the
 * Lifecycle module that specifies the operation; the properties of those
 * functions are proved there and in Properties.
 */
module Services {
  import opened Records
  import opened Policies
  import Lifecycle
  import Tables

  /** NotifierAdapter: every target it was asked to notify, in call order. */
  class Notifier {
    var sent: seq<Target>

    constructor ()
      ensures sent == []
    {
      sent := [];
    }

    method Notify(target: Target)
      modifies this
      ensures sent == old(sent) + [target]
    {
      sent := sent + [target];
    }
  }

  /** TimerAdapter: every timer it was asked to arm, in call order. */
  class Timer {
    var armed: seq<TimerEntry>

    constructor ()
      ensures armed == []
    {
      armed := [];
    }

    method SetTimer(deadline: int, callback: Callback)
      modifies this
      ensures armed == old(armed) + [TimerEntry(deadline, callback)]
    {
      armed := armed + [TimerEntry(deadline, callback)];
    }
  }

  /** targets.forEach(notify): each target notified once, in order. */
  method NotifyEach(targets: seq<Target>, notifier: Notifier)
    modifies notifier
    ensures notifier.sent == old(notifier.sent) + targets
  {
    for i := 0 to |targets|
      invariant notifier.sent == old(notifier.sent) + targets[..i]
    {
      assert targets[..i + 1] == targets[..i] + [targets[i]];
      notifier.Notify(targets[i]);
    }
    assert targets[..|targets|] == targets;
  }

  lemma PrefixSnoc<T>(s: seq<T>, i: nat)
    requires i < |s|
    ensures s[..i + 1] == s[..i] + [s[i]]
  {
  }

  function OfService(serviceId: nat): Incident -> bool {
    (i: Incident) => i.serviceId == serviceId
  }

  /** The database behind the Prisma client: one field per table, with the counters that hand out ids. */
  class Store {
    var policy: PolicyStore
    var services: map<nat, Service>
    var nextServiceId: nat
    var incidents: map<nat, Incident>
    var nextIncidentId: nat

    /** The tables as a Lifecycle state with empty adapter logs. */
    function Rows(): Lifecycle.State
      reads this
    {
      Lifecycle.State(policy, services, nextServiceId, incidents, nextIncidentId, [], [])
    }

    /** The tables together with what the adapters have recorded. */
    function View(notifier: Notifier, timer: Timer): Lifecycle.State
      reads this, notifier, timer
    {
      Lifecycle.State(policy, services, nextServiceId, incidents, nextIncidentId, notifier.sent, timer.armed)
    }

    ghost predicate Valid()
      reads this
    {
      Lifecycle.Valid(Rows())
    }

    constructor ()
      ensures Valid() && Rows() == Lifecycle.Empty()
    {
      policy := EmptyPolicies();
      services := map[];
      nextServiceId := 0;
      incidents := map[];
      nextIncidentId := 0;
    }

    /**
     * listIncidents: the service's incidents, in id order; exactly the
     * incidents whose serviceId is the given one.
     */
    function ListIncidents(serviceId: nat): (r: seq<Incident>)
      reads this
      requires Valid()
      ensures forall i :: 0 <= i < |r| ==> r[i].id in incidents && incidents[r[i].id] == r[i]
      ensures forall i :: 0 <= i < |r| ==> r[i].serviceId == serviceId
      ensures forall i, j :: 0 <= i < j < |r| ==> r[i].id < r[j].id
    {
      var ks := Tables.SelectKeys(incidents, OfService(serviceId), 0, nextIncidentId);
      var r := Tables.Project(incidents, ks);
      assert forall i :: 0 <= i < |r| ==> r[i].id == ks[i];
      r
    }

    /** listIncidents misses no incident of the service. */
    lemma ListIncidentsComplete(serviceId: nat, k: nat)
      requires Valid() && k in incidents && incidents[k].serviceId == serviceId
      ensures incidents[k] in ListIncidents(serviceId)
    {
      Tables.SelectedRowsComplete(incidents, OfService(serviceId), 0, nextIncidentId, k);
    }

    /**
     * closeIncident: the incident and its service as they are after the
     * operation; NotFound, with nothing changed, when there is no such
     * incident.
     */
    method CloseIncident(incidentId: nat, now: int) returns (r: Result<(Incident, Service)>)
      requires Valid()
      modifies this
      ensures Valid()
      ensures Rows() == Lifecycle.CloseIncident(old(Rows()), incidentId, now)
      ensures incidentId !in old(incidents) ==> r == Err(NotFound)
      ensures incidentId in old(incidents) ==>
        && incidentId in incidents && incidents[incidentId].serviceId in services
        && r == Ok((incidents[incidentId], services[incidents[incidentId].serviceId]))
    {
      if incidentId !in incidents {
        return Err(NotFound);
      }
      var incident := incidents[incidentId].(status := Closed, updatedAt := now);
      incidents := incidents[incidentId := incident];
      var service := services[incident.serviceId];
      var remaining := Lifecycle.Remaining(Rows(), incident.serviceId);
      if |remaining| == 0 {
        service := service.(healthy := true);
        services := services[incident.serviceId := service];
      }
      return Ok((incident, service));
    }

    /**
     * aknowledgeIncident: the incident after the update; NotFound, with
     * nothing changed, when there is no such incident.
     */
    method AknowledgeIncident(incidentId: nat, targetId: nat, now: int) returns (r: Result<Incident>)
      requires Valid()
      modifies this
      ensures Valid()
      ensures Rows() == Lifecycle.AknowledgeIncident(old(Rows()), incidentId, targetId, now)
      ensures incidentId !in old(incidents) ==> r == Err(NotFound)
      ensures incidentId in old(incidents) ==> incidentId in incidents && r == Ok(incidents[incidentId])
    {
      if incidentId !in incidents {
        return Err(NotFound);
      }
      var incident := incidents[incidentId].(status := Aknowledged, targetId := Some(targetId), updatedAt := now);
      incidents := incidents[incidentId := incident];
      return Ok(incident);
    }

    /**
     * escalateAndNotify with the timer armed 15 minutes after this step's
     * own write: the service is marked unhealthy; when the policy has the
     * next tier, the incident goes up one tier, each target of the tier is
     * notified in order, and one acknowledgement timer is armed.
     */
    method EscalateAndNotify(incidentId: nat, now: int, timer: Timer, notifier: Notifier)
      requires Lifecycle.Valid(View(notifier, timer)) && incidentId in incidents
      modifies this, timer, notifier
      ensures View(notifier, timer) == Lifecycle.Escalate(old(View(notifier, timer)), incidentId, now)
    {
      ghost var st := View(notifier, timer);
      var incident := incidents[incidentId];
      var service := services[incident.serviceId].(healthy := false);
      services := services[incident.serviceId := service];
      var found := ResolveTier(policy, service.policyId, incident.escalation + 1);
      if found.Some? {
        incidents := incidents[incidentId := incident.(escalation := incident.escalation + 1, updatedAt := now)];
        NotifyEach(found.value, notifier);
        timer.SetTimer(now + AckWindowMs, AknowledgeTimeoutCallback);
      }
      Lifecycle.EscalateWrites(st, incidentId, now, found, services, incidents, notifier.sent, timer.armed);
    }

    /**
     * createIncident: inserts the OPEN incident and returns the inserted
     * row; on a healthy service it then escalates the incident once. A
     * missing service fails the insert and changes nothing.
     */
    method CreateIncident(message: string, serviceId: nat, now: int, timer: Timer, notifier: Notifier)
      returns (r: Result<Incident>)
      requires Valid()
      modifies this, timer, notifier
      ensures Valid()
      ensures View(notifier, timer) == Lifecycle.CreateIncident(old(View(notifier, timer)), message, serviceId, now)
      ensures serviceId !in old(services) ==> r == Err(ForeignKeyViolation)
      ensures serviceId in old(services) ==> r == Ok(Lifecycle.NewIncident(old(View(notifier, timer)), message, serviceId, now))
    {
      if serviceId !in services {
        return Err(ForeignKeyViolation);
      }
      Lifecycle.ValidIgnoresLogs(Rows(), notifier.sent, timer.armed);
      ghost var st := View(notifier, timer);
      var service := services[serviceId];
      var incident := Incident(nextIncidentId, message, serviceId, Open, 0, None, now);
      incidents := incidents[nextIncidentId := incident];
      nextIncidentId := nextIncidentId + 1;
      assert View(notifier, timer) == Lifecycle.Inserted(st, message, serviceId, now);
      Lifecycle.CreateUnfolds(st, message, serviceId, now);
      if service.healthy {
        EscalateAndNotify(incident.id, now, timer, notifier);
      }
      Lifecycle.ValidIgnoresLogs(View(notifier, timer), [], []);
      return Ok(incident);
    }

    /**
     * aknowledgeTimeout, the timer's callback: nothing happens when the
     * incident is missing, its service is healthy, or it is AKNOWLEDGED or
     * CLOSED; otherwise the incident is escalated once.
     */
    method AknowledgeTimeout(incidentId: nat, now: int, timer: Timer, notifier: Notifier)
      requires Valid()
      modifies this, timer, notifier
      ensures Valid()
      ensures View(notifier, timer) == Lifecycle.AknowledgeTimeout(old(View(notifier, timer)), incidentId, now)
    {
      if incidentId !in incidents {
        return;
      }
      var incident := incidents[incidentId];
      if services[incident.serviceId].healthy {
        return;
      }
      if incident.status == Aknowledged || incident.status == Closed {
        return;
      }
      Lifecycle.ValidIgnoresLogs(Rows(), notifier.sent, timer.armed);
      EscalateAndNotify(incidentId, now, timer, notifier);
      Lifecycle.ValidIgnoresLogs(View(notifier, timer), [], []);
    }

    /**
     * The nested create of upsertPolicy: a new policy named `policyName`
     * and, in order, one policy level per entry of `levels`.
     */
    method BuildLadder(policyName: string, levels: seq<LevelInput>)
      requires ValidPolicies(policy)
      modifies this`policy
      ensures policy == CreateLadder(old(policy), policyName, levels)
    {
      var policyId := policy.nextPolicyId;
      policy := NewPolicy(policy, policyName);
      ghost var ps0 := policy;
      for i := 0 to |levels|
        invariant policy == AddLevels(ps0, policyId, levels[..i])
      {
        PrefixSnoc(levels, i);
        AddLevelsSnoc(ps0, policyId, levels[..i], levels[i]);
        policy := AddLevel(policy, policyId, levels[i]);
      }
      assert levels[..|levels|] == levels;
    }

    /**
     * upsertPolicy: the id of the policy named `policyName`. When there is
     * none, the policy is created, one policy level per entry of `levels`
     * in order, and the service named `serviceName` is connected to it (or
     * created, healthy).
     */
    method UpsertPolicy(policyName: string, serviceName: string, levels: seq<LevelInput>) returns (policyId: nat)
      requires Valid()
      modifies this
      ensures (Rows(), policyId) == Lifecycle.UpsertPolicy(old(Rows()), policyName, serviceName, levels)
      ensures Valid()
    {
      var existing := FindPolicy(policy, policyName);
      if existing.Some? {
        assert Lifecycle.UpsertPolicy(Rows(), policyName, serviceName, levels) == (Rows(), existing.value);
        return existing.value;
      }
      ghost var st := Rows();
      var service := Lifecycle.FindService(Rows(), serviceName);
      policyId := policy.nextPolicyId;
      BuildLadder(policyName, levels);
      Lifecycle.UpsertCreates(st, policyName, serviceName, levels, service, policy);
      if service.Some? {
        var sid := service.value;
        services := services[sid := services[sid].(policyId := policyId)];
      } else {
        services := services[nextServiceId := Service(nextServiceId, serviceName, true, policyId)];
        nextServiceId := nextServiceId + 1;
      }
    }
  }
}
