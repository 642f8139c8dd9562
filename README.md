# Incident escalation engine — a Dafny model

This project models the incident-escalation core of the 9OP on-call service
(`src/services.ts`):

- **Services** have a `healthy` flag and point to an escalation policy.
- A **policy** is a ladder of policy levels. Each policy level places a named
  level (a set of SMS or e-mail targets) at an integer escalation tier.
- An **incident** is OPEN, AKNOWLEDGED or CLOSED. It carries an `escalation`
  counter (the number of tiers notified so far) and the time of its last write.

The operations are modelled as follows:

- Creating an incident on a healthy service escalates it once. Escalation:
  - marks the service unhealthy;
  - looks up the tier just above the counter, by exact number;
  - raises the counter by one;
  - notifies every target of that tier in order;
  - arms one 15-minute acknowledgement timer.
- When the timer fires, the incident escalates again, unless:
  - the incident is gone;
  - its service has recovered;
  - it was acknowledged or closed.
- Closing an incident marks its service healthy once none of the service's
  incidents is left outside CLOSED.
- `upsertPolicy` creates a policy with its ladder and attaches a service to
  it:
  - a policy name already taken leaves the store untouched;
  - an existing service of that name is re-pointed to the new policy;
  - an existing level of that name is reused as it is.

## Structure

- `records.dfy` (module `Records`) holds:
  - the enumerations of `src/db/enums.ts`;
  - the rows;
  - the inputs of `upsertPolicy`;
  - `Option`/`Result`, and the two errors the store raises: `NotFound` for an
    update on a missing id, `ForeignKeyViolation` for an insert whose parent
    row is missing.
- `tables.dfy` (module `Tables`): a table is a map from autoincrement ids to
  rows. `findFirst` is the least matching id, `findMany` the matching ids in
  id order.
- `policies.dfy` (module `Policies`) holds:
  - the policy store;
  - the tier resolver;
  - the nested create of `upsertPolicy`: one policy level per input, where a
    level is reused by name or else created with fresh targets.
- `lifecycle.dfy` (module `Lifecycle`): every operation as a function on a
  value `State`. A `State` holds the tables and the logs of the two adapters:
  targets notified and timers armed, each in call order. These functions are
  the specification that the methods of `Services` are proved against.
- `properties.dfy` (module `Properties`): properties spanning several
  operations:
  - the health invariant over any run of operations;
  - escalation counters never go down;
  - a chain of timeouts climbs the ladder one tier at a time and stops at
    the first gap;
  - the timer deadline of the finding below.
- `services.dfy` (module `Services`) holds the imperative model:
  - a class `Store` whose fields are the tables, updated in place by one
    method per operation;
  - classes `Notifier` and `Timer` for the adapters of `src/adapters.ts`,
    each recording its calls;
  - a loop that notifies a tier's targets one by one.

  Each method's `ensures` ties the new state, and what it returns, to the
  matching `Lifecycle` function of the old state.

Clock readings are a parameter `now` (integer milliseconds). `now` is the
time at which an operation writes, since every write refreshes an incident's
`updatedAt`. Each operation runs to completion as one atomic step.

## Model

| member | source | states |
|---|---|---|
| Tables.FirstKey | src/services.ts:145-148 | the result is the least id in range whose row matches; no smaller id matches; None exactly when no row in range matches |
| Tables.SelectKeys | src/services.ts:68 | exactly the ids in range whose rows match: every one listed, nothing else listed, in strictly increasing order |
| Tables.SelectedRowsComplete | src/services.ts:68 | every matching row in range appears among the rows handed back |
| Policies.FindTier | src/services.ts:145-148 | the first policy level of the policy at exactly that tier; None if and only if the policy has no such tier |
| Policies.ResolveTier | src/services.ts:145-159 | None if and only if the tier is missing (no fall-through to higher tiers); otherwise the targets of the level placed at that tier |
| Policies.FindPolicy | src/services.ts:24-25 | a policy with that name, or None exactly when no policy has it |
| Policies.FindLevel | src/services.ts:37-39 | a level with that name, or None exactly when no level has it |
| Policies.AddLevel | src/services.ts:34-52 | one new policy level under the next id, on the given policy; all earlier levels and policy levels kept as they were; policies untouched |
| Policies.AddLevels | src/services.ts:33-53 | one new policy level per input, under the ids that follow the earlier ones, each present; earlier rows kept; every new policy level belongs to the policy |
| Policies.AddLevelConnectsOrCreates | src/services.ts:36-49 | the new policy level places the named level at the input's tier: an existing level of that name, unchanged, or else a new level carrying fresh targets for the inputs |
| Policies.AddLevelKeepsPlacement | src/services.ts:33-53 | adding a level keeps every earlier placement |
| Policies.AddLevelsPlaces | src/services.ts:33-53 | the i-th input is placed, by the i-th new policy level, at its tier of the policy |
| Policies.AddLevelValid | src/services.ts:33-53 | adding a level to an existing policy keeps the store well formed |
| Policies.AddLevelsValid | src/services.ts:33-53 | adding a list of levels keeps the store well formed |
| Policies.NewPolicy | src/services.ts:27-28 | the new policy is stored under an id not in use before |
| Policies.CreateLadder | src/services.ts:27-53 | creating a policy with its ladder keeps the store well formed |
| Policies.CreateLadderAddsPolicy | src/services.ts:27-28 | exactly one policy is added, under the next id, with the given name |
| Policies.CreateLadderPlaces | src/services.ts:33-53 | every input level is placed at its tier of the new policy |
| Policies.CreateLadderOnlyNew | src/services.ts:37-40 | the new policy has no policy level but its ladder's; existing levels, and their targets, are not modified |
| Lifecycle.Remaining | src/services.ts:80-85 | the query is empty if and only if every incident of the service is CLOSED |
| Lifecycle.MarkUnhealthy | src/services.ts:139-142 | flipping the flag keeps the state well formed |
| Lifecycle.EscalateStep | src/services.ts:132-166 | keeps the state well formed, the policies and the counters; no row disappears or appears |
| Lifecycle.EscalateAsWritten | src/services.ts:162-164 | at most one timer is armed, and its deadline is the incoming row's `updatedAt` plus 15 minutes |
| Lifecycle.Escalate | src/services.ts:132-166 | at most one timer is armed; when one is, its deadline is 15 minutes after the step's own write, and that write sets `updatedAt` to now |
| Lifecycle.EscalateMarksUnhealthy | src/services.ts:138-142 | the service ends unhealthy whatever it was; nothing else in it changes; no other service and no other incident changes |
| Lifecycle.EscalateWithTier | src/services.ts:150-165 | with the next tier present: counter + 1, the row otherwise unchanged, that tier's targets notified once each and in order, exactly one timer at the deadline |
| Lifecycle.EscalateWithoutTier | src/services.ts:144-151 | with the next tier missing: incidents, notifications and timers unchanged |
| Lifecycle.Inserted | src/services.ts:115-121 | the insert keeps the state well formed; the new OPEN row of the service, with the message, written now, is stored under an id not in use before; every earlier row is kept; nothing but the incident table and its id counter changes |
| Lifecycle.CreateIncident | src/services.ts:107-129 | keeps the state well formed; on a missing service nothing changes |
| Lifecycle.CreateAddsOpenIncident | src/services.ts:115-121 | exactly one new incident, under an unused id: OPEN, of the service, with the message, no acknowledger, written now |
| Lifecycle.CreateKeepsOtherIncidents | src/services.ts:115-126 | the id counter rises by one; earlier incidents and the policies are unchanged |
| Lifecycle.CreateLeavesServiceUnhealthy | src/services.ts:124-142 | afterwards the service is unhealthy, otherwise unchanged; no other service changes |
| Lifecycle.CreateOnHealthyService | src/services.ts:123-126 | on a healthy service: escalation 1 if tier 1 exists, else 0; exactly tier 1's targets notified; one timer at now + 15 min if tier 1 exists, else none |
| Lifecycle.CreateOnUnhealthyService | src/services.ts:123-126 | on an unhealthy service: escalation 0, services unchanged, no notification, no timer |
| Lifecycle.AknowledgeIncident | src/services.ts:98-105 | keeps the state well formed; on a missing incident nothing changes |
| Lifecycle.AknowledgeSetsStatus | src/services.ts:98-105 | whatever the prior status, the incident is AKNOWLEDGED with the target recorded; nothing else in it changes; no other incident, service or log changes |
| Lifecycle.CloseIncident | src/services.ts:72-96 | keeps the state well formed; on a missing incident nothing changes |
| Lifecycle.CloseSetsClosed | src/services.ts:73-77 | the incident is CLOSED and otherwise unchanged; no other incident and no log changes |
| Lifecycle.CloseRederivesHealth | src/services.ts:80-93 | the service is healthy afterwards if and only if it already was or none of its incidents is left outside CLOSED; if one is left it is untouched; no other service changes |
| Lifecycle.AknowledgeTimeout | src/services.ts:168-198 | no change at all when the incident is missing, its service is healthy, or it is AKNOWLEDGED or CLOSED; otherwise exactly one escalation step |
| Lifecycle.FindService | src/services.ts:31 | a service with that name, or None exactly when no service has it |
| Lifecycle.ConnectOrCreateService | src/services.ts:29-32 | afterwards a service of that name points to the policy; no service is lost; no health flag changes; a created service is healthy; services of other names are unchanged; incidents, policies and logs unchanged |
| Lifecycle.CreatePolicy | src/services.ts:27-54 | the created state is well formed |
| Lifecycle.UpsertPolicy | src/services.ts:23-63 | the returned id names a policy called `policyName`; with that name already taken, the store is unchanged and that policy's id is returned; otherwise the id is a new one |
| Lifecycle.CreatePolicyKeepsIncidents | src/services.ts:27-54 | incidents, notifications, timers and existing health flags unchanged; a created service is healthy |
| Lifecycle.CreatePolicyConnectsService | src/services.ts:29-32 | the service named `serviceName` exists and points to the new policy |
| Properties.EmptyIsConsistent | src/services.ts:87-93 | the empty store satisfies the health invariant |
| Properties.HealthAfterOneIncident | src/services.ts:72-105 | a step that changes one incident and only its service's flag keeps the invariant once that flag is right |
| Properties.HealthAfterNewIncident | src/services.ts:115-142 | adding a non-CLOSED incident whose service ends unhealthy keeps the invariant |
| Properties.CreateKeepsHealthConsistent | src/services.ts:107-129 | createIncident keeps "healthy iff every incident is CLOSED" |
| Properties.CloseKeepsHealthConsistent | src/services.ts:72-96 | closeIncident keeps the invariant |
| Properties.AknowledgeKeepsHealthConsistent | src/services.ts:98-105 | aknowledgeIncident of an incident that is not CLOSED keeps the invariant |
| Properties.AknowledgeClosedBreaksHealth | src/services.ts:98-102 | acknowledging a CLOSED incident of a healthy service leaves a healthy service with an active incident: the invariant breaks |
| Properties.TimeoutKeepsHealthConsistent | src/services.ts:168-198 | the timer's callback keeps the invariant |
| Properties.UpsertKeepsHealthConsistent | src/services.ts:23-63 | upsertPolicy keeps the invariant |
| Properties.ApplyKeepsHealthConsistent | src/services.ts:67-198 | every operation keeps the invariant, provided it does not acknowledge a CLOSED incident |
| Properties.RunKeepsHealthConsistent | src/services.ts:67-198 | any run that never acknowledges a CLOSED incident keeps the invariant from any state that has it |
| Properties.CreateKeepsEscalations | src/services.ts:107-129 | no incident disappears and no counter goes down |
| Properties.CloseKeepsEscalations | src/services.ts:72-96 | same for closeIncident |
| Properties.AknowledgeKeepsEscalations | src/services.ts:98-105 | same for aknowledgeIncident |
| Properties.TimeoutKeepsEscalations | src/services.ts:168-198 | same for the callback, and its own incident's counter rises by at most one |
| Properties.UpsertKeepsEscalations | src/services.ts:23-63 | same for upsertPolicy |
| Properties.ApplyKeepsEscalations | src/services.ts:67-198 | same for any operation |
| Properties.RunKeepsEscalations | src/services.ts:67-198 | along any run no incident disappears and no counter goes down |
| Properties.TimeoutClimbsOneTier | src/services.ts:168-198 | on an OPEN incident of an unhealthy service with the next tier present, one timeout: exactly one tier up, that tier notified, one timer; the service stays unhealthy on the same policy |
| Properties.TimeoutsClimbLadder | src/services.ts:168-198 | with the tiers above the incident dense up to `top`, n timeouts raise it exactly n tiers; they notify those tiers' targets tier after tier and arm n timers |
| Properties.TimeoutAtTopEndsChain | src/services.ts:144-151 | with the next tier missing, a timeout notifies nobody, arms nothing and leaves the incidents as they were: the timer chain ends |
| Properties.TimeoutKeepsLadder | src/services.ts:168-198 | a timeout keeps the incident's service, its policy and the policy store; it raises the counter by at most one, and not at all when the next tier is missing |
| Properties.TimeoutsStopAtGap | src/services.ts:145-151 | with tier top + 1 missing, no sequence of timeouts takes an incident at or below `top` past `top` |
| Properties.AsWrittenRearmsAtFiringTime | src/services.ts:162-164 | when the timer fires on time, the code as written re-arms it at the firing instant; the corrected step re-arms 15 minutes later |
| Properties.AsWrittenAgreesOnCreate | src/services.ts:115-125 | on the createIncident path the code as written and the corrected step agree |
| Properties.AsWrittenAgreesWhenFresh | src/services.ts:163 | the two agree whenever the row was last written at the moment of the step |
| Properties.CreateThenTimeoutDeadlines | src/services.ts:124-164 | after createIncident at t, the timer is due at t + 15 min; when it fires, the code as written re-arms at t + 15 min again, the corrected step at t + 30 min |
| Services.Notifier.Notify | src/adapters.ts:15-18 | the target is appended to the log of notifications |
| Services.Timer.SetTimer | src/adapters.ts:5-11 | one entry, with the deadline and the callback, is appended to the log of timers |
| Services.NotifyEach | src/services.ts:159-160 | the loop notifies all the targets, once each, in order |
| Services.Store.constructor | src/services.ts:7 | an empty, well-formed store |
| Services.Store.ListIncidents | src/services.ts:67-70 | only stored incidents of the service, exactly as stored, in increasing id order; reads the store without changing it |
| Services.Store.ListIncidentsComplete | src/services.ts:67-70 | every incident of the service is listed |
| Services.Store.CloseIncident | src/services.ts:72-96 | the new tables are `Lifecycle.CloseIncident` of the old ones; returns NotFound on a missing id, otherwise the incident and its service as they now are |
| Services.Store.AknowledgeIncident | src/services.ts:98-105 | the new tables are `Lifecycle.AknowledgeIncident` of the old; NotFound on a missing id, otherwise the updated incident |
| Services.Store.EscalateAndNotify | src/services.ts:132-166 | tables and adapter logs together become `Lifecycle.Escalate` of the old ones |
| Services.Store.CreateIncident | src/services.ts:107-129 | tables and logs become `Lifecycle.CreateIncident` of the old; ForeignKeyViolation on a missing service, otherwise the inserted OPEN row |
| Services.Store.AknowledgeTimeout | src/services.ts:168-198 | tables and logs become `Lifecycle.AknowledgeTimeout` of the old |
| Services.Store.BuildLadder | src/services.ts:27-53 | the policy store becomes `CreateLadder` of the old one: the policy, then its levels in input order |
| Services.Store.UpsertPolicy | src/services.ts:23-63 | tables and returned id are `Lifecycle.UpsertPolicy` of the old tables; the store stays well formed |

## Left out

- The Prisma client, SQL and the `include` join shapes of the results are
  not modelled (src/services.ts:1-7, 55-59, 76, 147, 175). The tables are
  maps, and results are the rows themselves.
- The database schema is not part of this model. Its effects are written in
  as choices:
  - a new incident starts at escalation 0 with no acknowledger;
  - a service created by `upsertPolicy` is healthy;
  - every write to an incident refreshes `updatedAt`;
  - a lookup by name finds the row with the least id.
- Unique-name constraints are not modelled. Neither is a foreign-key check
  of `targetId` in aknowledgeIncident, which records any target id.
- Services.Store.CreateIncident returns the inserted incident but not the
  service snapshot that `createIncident` also returns. That snapshot is the
  row read before escalation.
- Services.Store.UpsertPolicy returns the policy id, not the joined policy
  record.
- Concurrency is not modelled. Neither is the un-awaited call of
  escalateAndNotify (src/services.ts:125, 197). Each operation, escalation
  included, completes before the next operation starts.
- `Date` values are integer milliseconds.
- The adapters are stubs with no behaviour, so each one only records its
  calls.
  - The notifier does not tell SMS from e-mail.
  - The timer never fires by itself. `Properties.Fire` applies the callback
    to a chosen incident at chosen times.
  - The callback handed to `setTimer` is not bound to an incident id, because
    the source binds none (src/services.ts:164).
- The `|| []` fallback for missing targets (src/services.ts:159) is
  unnecessary here, because a level's targets are always a sequence.
- The model keeps these behaviours of the code:
  - escalation sets the health flag to false unconditionally, whatever it
    was before (src/services.ts:138-141);
  - closeIncident records no closer (src/services.ts:73-77);
  - `upsertPolicy` on an existing name does nothing, because its `update`
    clause is empty (src/services.ts:26). It neither attaches the service
    nor updates the ladder. A test in src/services.test.ts expects an
    update.
- Lifecycle.AknowledgeTimeout: when it escalates, the timer is armed at
  now + 15 min, the corrected deadline of Findings. The code arms it at the
  incoming row's `updatedAt` + 15 min. On the createIncident path the two
  agree (Properties.AsWrittenAgreesOnCreate); the code as written is
  Lifecycle.EscalateAsWritten.
- Services.Store.EscalateAndNotify: arms the timer at now + 15 min, the
  corrected deadline of Findings, where the code arms it at the incoming
  row's `updatedAt` + 15 min. The two agree whenever the row was written at
  the moment of the step (Properties.AsWrittenAgreesWhenFresh).
- Services.Store.AknowledgeTimeout: escalates through
  Services.Store.EscalateAndNotify, so it too arms the timer at now + 15
  min, where the code arms it at the incoming row's `updatedAt` + 15 min.
- Services.Store.EscalateAndNotify requires the tables and logs to be well
  formed, while the public methods of `Store` require and keep
  `Store.Valid()`. `escalateAndNotify` is not exported by the code, and
  its only callers are createIncident and aknowledgeTimeout.
- The health invariant is proved for runs that never acknowledge a CLOSED
  incident. Acknowledging a CLOSED incident breaks it, as
  Properties.AknowledgeClosedBreaksHealth shows. The code does not check the
  status before acknowledging.
- `upsertLevel` is not part of this model. It exists only as a planned test
  in src/services.test.ts.

## Findings

| source | as written | input that shows it | evidently intended | confidence | as-written member | corrected member |
|---|---|---|---|---|---|---|
| src/services.ts:163-164 | `escalateAndNotify` arms the next timer at `incident.updatedAt + 15 min`. The `incident` row it reads was loaded before its own update of the row. On the timeout path, that row was last written by the previous escalation. | An incident escalated at time t has its timer due at t + 15 min. When the timer fires then, and the next tier exists, the new timer is armed for t + 15 min, which is the firing instant itself. The next tier gets no time to acknowledge, and the following timeout runs at once. | Arm the timer 15 minutes after this step's own write (`now + 15 min`). The comment at line 152 says the update sets `updatedAt` to now, and the comment at line 162 says the timer is due in 15 minutes; read together they ask for 15 minutes after this step's write. | not executed; high, because the deadline expression reads the row loaded before the update | Lifecycle.EscalateAsWritten (shown by Properties.AsWrittenRearmsAtFiringTime and Properties.CreateThenTimeoutDeadlines) | Lifecycle.Escalate (used by Services.Store.EscalateAndNotify; deadline proved in Properties.AsWrittenRearmsAtFiringTime and Properties.CreateThenTimeoutDeadlines) |
