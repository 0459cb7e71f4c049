/**
 * The records exchanged by the plan-assignment service: the fact a client
 * emits, the row the fact store keeps, and the response the resolver computes.
 */
module Types {
  import opened Wrappers

  /** An instant as a JavaScript time value: milliseconds since the epoch. */
  type Instant = int

  /** A plan assignment fact as it arrives on the write path; timestamps are
      still the ISO-8601 strings the client sent. */
  datatype PlanAssignmentFact = PlanAssignmentFact(
    subject: string,
    scope: string,
    planId: string,
    origin: string,
    reason: string,
    policyVersion: string,
    effectiveAt: string,
    expiresAt: Option<string>)

  /** One stored row of the append-only fact table. `id` and `createdAt` are
      assigned by the store, never by the client. */
  datatype PlanAssignmentRow = PlanAssignmentRow(
    id: nat,
    subject: string,
    scope: string,
    planId: string,
    origin: string,
    reason: string,
    policyVersion: string,
    effectiveAt: Instant,
    expiresAt: Option<Instant>,
    createdAt: Instant)

  /** The three resolved states; they serialise as "active", "expired", "none". */
  datatype PlanState = Active | Expired | NoAssignment {
    function Name(): string {
      match this
      case Active => "active"
      case Expired => "expired"
      case NoAssignment => "none"
    }
  }

  datatype Provenance = Provenance(origin: string, reason: string, policyVersion: string)

  /** The read-path answer; `plan` and `provenance` are null exactly when no
      fact was found. */
  datatype PlanStateResponse = PlanStateResponse(
    state: PlanState,
    plan: Option<string>,
    evaluatedAt: string,
    provenance: Option<Provenance>)

  function ProvenanceOf(row: PlanAssignmentRow): Provenance {
    Provenance(row.origin, row.reason, row.policyVersion)
  }
}
