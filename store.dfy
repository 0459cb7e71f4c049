/**
 * The fact store: the append-only `plan_assignments` table. Rows are only
 * ever added; the store assigns each one a fresh `id` and its `createdAt`.
 */
module FactStore {
  import opened Wrappers
  import opened Types
  import opened State

  /** The database rejects a timestamp literal it cannot read. */
  datatype StoreError = InvalidTimestamp(literal: string)

  class PlanAssignmentStore {
    var rows: seq<PlanAssignmentRow>
    /** The next value of the `id` sequence (SERIAL starts at 1). */
    var nextId: nat

    /** Ids are handed out in increasing order and never reused. */
    ghost predicate Valid()
      reads this
    {
      && 1 <= nextId
      && (forall i | 0 <= i < |rows| :: 1 <= rows[i].id < nextId)
      && (forall i, j | 0 <= i < j < |rows| :: rows[i].id < rows[j].id)
    }

    constructor ()
      ensures Valid() && rows == [] && nextId == 1
    {
      rows := [];
      nextId := 1;
    }

    /** The INSERT of the write path. `parse` is the database's reading of an
        ISO-8601 literal as an instant and `now` the transaction's clock
        (`created_at DEFAULT NOW()`). The insert is atomic: either one row
        carrying the fact's fields is added after all existing rows, or the
        table is left as it was. */
    method Append(fact: PlanAssignmentFact, parse: string -> Option<Instant>, now: Instant)
      returns (outcome: Outcome<StoreError>)
      requires Valid()
      modifies this
      ensures Valid()
      ensures outcome.Pass? <==>
                parse(fact.effectiveAt).Some? && (fact.expiresAt.Some? ==> parse(fact.expiresAt.value).Some?)
      ensures outcome.Pass? ==>
                && rows == old(rows) + [PlanAssignmentRow(old(nextId), fact.subject, fact.scope, fact.planId,
                                                          fact.origin, fact.reason, fact.policyVersion,
                                                          parse(fact.effectiveAt).value,
                                                          if fact.expiresAt.Some? then parse(fact.expiresAt.value) else None,
                                                          now)]
                && nextId == old(nextId) + 1
      ensures outcome.Fail? ==> rows == old(rows) && nextId == old(nextId)
    {
      var effectiveAt := parse(fact.effectiveAt);
      if effectiveAt.None? {
        return Fail(InvalidTimestamp(fact.effectiveAt));
      }
      var expiresAt: Option<Instant> := None;
      if fact.expiresAt.Some? {
        expiresAt := parse(fact.expiresAt.value);
        if expiresAt.None? {
          return Fail(InvalidTimestamp(fact.expiresAt.value));
        }
      }
      var row := PlanAssignmentRow(nextId, fact.subject, fact.scope, fact.planId, fact.origin, fact.reason,
                                   fact.policyVersion, effectiveAt.value, expiresAt, now);
      rows := rows + [row];
      nextId := nextId + 1;
      return Pass;
    }

    /** The read path: one lookup against the current rows. The method has no
        `modifies` clause, so reading leaves the rows and their count as they
        were. */
    method Resolve(subject: string, scope: string, evaluatedAt: Instant, iso: Instant -> string)
      returns (response: PlanStateResponse)
      ensures response == ResolvePlanState(rows, subject, scope, evaluatedAt, iso)
    {
      response := ResolvePlanState(rows, subject, scope, evaluatedAt, iso);
    }
  }
}
