/**
 * The records of the incident-escalation engine: the enumerations of
 * src/db/enums.ts, the rows the engine reads and writes, the inputs of
 * upsertPolicy, and the small Option/Result wrappers used for lookups and
 * for errors raised by the store.
 */
module Records {

  datatype Option<T> = None | Some(value: T)

  /** Errors the persistence layer raises and the engine propagates. */
  datatype Error =
    | NotFound             // update on an id that has no row
    | ForeignKeyViolation  // insert that refers to a missing parent row

  datatype Result<T> = Ok(value: T) | Err(error: Error)

  datatype TargetType = Sms | Email

  datatype IncidentStatus = Open | Aknowledged | Closed

  /** Length of an acknowledgement window: 15 minutes, in milliseconds. */
  const AckWindowMs: int := 15 * 60000

  datatype Target = Target(id: nat, kind: TargetType, contact: string)

  datatype Policy = Policy(id: nat, name: string)

  /** A level is a named set of targets; it can be shared by several policies. */
  datatype Level = Level(id: nat, name: string, targets: seq<Target>)

  /** Places a level at one escalation tier of one policy. */
  datatype PolicyLevel = PolicyLevel(id: nat, policyId: nat, escalation: int, levelId: nat)

  datatype Service = Service(id: nat, name: string, healthy: bool, policyId: nat)

  /**
   * An incident; `escalation` is the number of tiers notified so far,
   * `targetId` the target that acknowledged it, `updatedAt` the time of the
   * last write to the row, in milliseconds.
   */
  datatype Incident = Incident(
    id: nat,
    message: string,
    serviceId: nat,
    status: IncidentStatus,
    escalation: nat,
    targetId: Option<nat>,
    updatedAt: int)

  /** The only callback the engine ever hands to the timer adapter. */
  datatype Callback = AknowledgeTimeoutCallback

  /** One call of the timer adapter: fire `callback` at `deadline`. */
  datatype TimerEntry = TimerEntry(deadline: int, callback: Callback)

  /** Inputs of upsertPolicy. */
  datatype TargetInput = TargetInput(kind: TargetType, contact: string)

  datatype LevelInput = LevelInput(escalation: int, name: string, targets: seq<TargetInput>)
}
