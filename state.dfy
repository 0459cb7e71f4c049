/**
 * The temporal fact-resolution engine: an append-only table of plan
 * assignment rows, the "latest row at or before an instant" lookup over it,
 * and the projection of that row into a point-in-time plan state.
 */
module State {
  import opened Wrappers
  import opened Types

  /** The WHERE clause of the lookup: same (subject, scope) key and an
      effective instant at or before `t`. */
  predicate Matches(row: PlanAssignmentRow, subject: string, scope: string, t: Instant) {
    row.subject == subject && row.scope == scope && row.effectiveAt <= t
  }

  predicate NoFactAtOrBefore(rows: seq<PlanAssignmentRow>, subject: string, scope: string, t: Instant) {
    forall i | 0 <= i < |rows| :: !Matches(rows[i], subject, scope, t)
  }

  /** The lookup as written: a matching row whose `effectiveAt` is greatest
      (ORDER BY effective_at DESC LIMIT 1). Among rows that tie on the greatest
      `effectiveAt` the query does not say which one comes back, so every one
      of them satisfies this predicate. */
  ghost predicate IsLatestIndex(rows: seq<PlanAssignmentRow>, subject: string, scope: string, t: Instant, k: int) {
    && 0 <= k < |rows|
    && Matches(rows[k], subject, scope, t)
    && forall i | 0 <= i < |rows| && Matches(rows[i], subject, scope, t) :: rows[i].effectiveAt <= rows[k].effectiveAt
  }

  /** A strengthening of IsLatestIndex that the query does not state: among
      tied rows, the one appended last wins. */
  ghost predicate IsLastLatestIndex(rows: seq<PlanAssignmentRow>, subject: string, scope: string, t: Instant, k: int) {
    && IsLatestIndex(rows, subject, scope, t, k)
    && forall i | k < i < |rows| && Matches(rows[i], subject, scope, t) :: rows[i].effectiveAt < rows[k].effectiveAt
  }

  /** The position of the row the lookup returns, or None when no row
      matches. Ties on `effectiveAt` go to the row appended last. */
  function LatestAtOrBefore(rows: seq<PlanAssignmentRow>, subject: string, scope: string, t: Instant): (k: Option<nat>)
    ensures k.None? <==> NoFactAtOrBefore(rows, subject, scope, t)
    ensures k.Some? ==> IsLastLatestIndex(rows, subject, scope, t, k.value)
    decreases |rows|
  {
    if |rows| == 0 then None
    else
      var last := |rows| - 1;
      var earlier := LatestAtOrBefore(rows[..last], subject, scope, t);
      if !Matches(rows[last], subject, scope, t) then earlier
      else if earlier.None? || rows[earlier.value].effectiveAt <= rows[last].effectiveAt then Some(last)
      else earlier
  }

  /** The row the lookup returns. */
  function LookupRow(rows: seq<PlanAssignmentRow>, subject: string, scope: string, t: Instant): Option<PlanAssignmentRow> {
    match LatestAtOrBefore(rows, subject, scope, t)
    case None => None
    case Some(k) => Some(rows[k])
  }

  /** The expiry rule: expired only strictly after a present `expiresAt`. */
  predicate ExpiredAt(row: PlanAssignmentRow, t: Instant) {
    row.expiresAt.Some? && row.expiresAt.value < t
  }

  /** The response built from the looked-up row (or its absence). */
  function Project(found: Option<PlanAssignmentRow>, evaluatedAt: Instant, iso: Instant -> string): (r: PlanStateResponse)
    ensures r.evaluatedAt == iso(evaluatedAt)
    ensures r.state == NoAssignment <==> found.None?
    ensures found.None? ==> r.plan == None && r.provenance == None
    ensures found.Some? ==> Reports(r, found.value, evaluatedAt)
  {
    match found
    case None => PlanStateResponse(NoAssignment, None, iso(evaluatedAt), None)
    case Some(row) =>
      var state := if ExpiredAt(row, evaluatedAt) then Expired else Active;
      PlanStateResponse(state, Some(row.planId), iso(evaluatedAt), Some(ProvenanceOf(row)))
  }

  /** `r` reports `row` as the fact in force (or expired) at `t`. */
  predicate Reports(r: PlanStateResponse, row: PlanAssignmentRow, t: Instant) {
    && r.state != NoAssignment
    && (r.state == Expired <==> ExpiredAt(row, t))
    && r.plan == Some(row.planId)
    && r.provenance == Some(ProvenanceOf(row))
  }

  /** The plan state of (subject, scope) at `evaluatedAt` over a snapshot of
      the stored rows; `iso` renders an instant as an ISO-8601 string. */
  function ResolvePlanState(rows: seq<PlanAssignmentRow>, subject: string, scope: string, evaluatedAt: Instant,
                            iso: Instant -> string): (r: PlanStateResponse)
    ensures r.evaluatedAt == iso(evaluatedAt)
    ensures r.state == NoAssignment <==> NoFactAtOrBefore(rows, subject, scope, evaluatedAt)
    ensures r.state == NoAssignment ==> r.plan == None && r.provenance == None
    ensures r.state != NoAssignment ==>
              exists k :: IsLatestIndex(rows, subject, scope, evaluatedAt, k) && Reports(r, rows[k], evaluatedAt)
  {
    Project(LookupRow(rows, subject, scope, evaluatedAt), evaluatedAt, iso)
  }

  // ---------------------------------------------------------------------
  // What a resolution reports

  /** The selection rule fixes the row: at most one index is the last of the
      latest matching rows. */
  lemma LastLatestIsUnique(rows: seq<PlanAssignmentRow>, subject: string, scope: string, t: Instant, k1: int, k2: int)
    requires IsLastLatestIndex(rows, subject, scope, t, k1)
    requires IsLastLatestIndex(rows, subject, scope, t, k2)
    ensures k1 == k2
  {
  }

  /** As written, the lookup leaves ties open: two rows with one key and one
      `effectiveAt` but different plans are both valid answers to the query,
      and the responses built from them differ. */
  lemma TiedFactsAdmitTwoAnswers(a: PlanAssignmentRow, b: PlanAssignmentRow, t: Instant, iso: Instant -> string)
    requires a.subject == b.subject && a.scope == b.scope
    requires a.effectiveAt == b.effectiveAt <= t
    requires a.planId != b.planId
    ensures IsLatestIndex([a, b], a.subject, a.scope, t, 0)
    ensures IsLatestIndex([a, b], a.subject, a.scope, t, 1)
    ensures Project(Some(a), t, iso).plan != Project(Some(b), t, iso).plan
  {
  }

  /** Resolution reports exactly the row the selection rule picks. */
  lemma ResolveReportsSelectedRow(rows: seq<PlanAssignmentRow>, subject: string, scope: string, t: Instant,
                                  iso: Instant -> string, k: int)
    requires IsLastLatestIndex(rows, subject, scope, t, k)
    ensures Reports(ResolvePlanState(rows, subject, scope, t, iso), rows[k], t)
  {
    var found := LatestAtOrBefore(rows, subject, scope, t);
    assert found.Some?;
    LastLatestIsUnique(rows, subject, scope, t, k, found.value);
  }

  /** Latest wins: a matching row whose `effectiveAt` is strictly greater than
      that of every other matching row is the one reported. */
  lemma LatestWins(rows: seq<PlanAssignmentRow>, subject: string, scope: string, t: Instant,
                   iso: Instant -> string, j: int)
    requires 0 <= j < |rows| && Matches(rows[j], subject, scope, t)
    requires forall i | 0 <= i < |rows| && i != j && Matches(rows[i], subject, scope, t) ::
               rows[i].effectiveAt < rows[j].effectiveAt
    ensures Reports(ResolvePlanState(rows, subject, scope, t, iso), rows[j], t)
  {
    ResolveReportsSelectedRow(rows, subject, scope, t, iso, j);
  }

  /** The timeline of a single fact: none before `effectiveAt` (inclusive
      lower bound), active up to and including `expiresAt`, expired strictly
      after it, and the plan and provenance reported in both of the latter. */
  lemma SingleFactTimeline(row: PlanAssignmentRow, t: Instant, iso: Instant -> string)
    ensures var r := ResolvePlanState([row], row.subject, row.scope, t, iso);
      && (t < row.effectiveAt ==> r == PlanStateResponse(NoAssignment, None, iso(t), None))
      && (row.effectiveAt <= t ==> Reports(r, row, t))
      && (row.effectiveAt <= t && row.expiresAt == Some(t) ==> r.state == Active)
      && (row.effectiveAt <= t && row.expiresAt.Some? && row.expiresAt.value < t ==> r.state == Expired)
      && (row.effectiveAt <= t && row.expiresAt.None? ==> r.state == Active)
  {
    if row.effectiveAt <= t {
      ResolveReportsSelectedRow([row], row.subject, row.scope, t, iso, 0);
    }
  }

  /** Unbounded validity: when no fact of the key carries an expiry, the
      state is active at every instant from the first effective fact on. */
  lemma NoExpiryStaysActive(rows: seq<PlanAssignmentRow>, subject: string, scope: string, t: Instant,
                            iso: Instant -> string)
    requires forall i | 0 <= i < |rows| && rows[i].subject == subject && rows[i].scope == scope ::
               rows[i].expiresAt.None?
    requires !NoFactAtOrBefore(rows, subject, scope, t)
    ensures ResolvePlanState(rows, subject, scope, t, iso).state == Active
  {
  }

  // ---------------------------------------------------------------------
  // How appends affect the lookup

  /** The lookup over a log extended by one row. */
  lemma LookupAfterAppend(rows: seq<PlanAssignmentRow>, row: PlanAssignmentRow,
                          subject: string, scope: string, t: Instant)
    ensures var before := LookupRow(rows, subject, scope, t);
      LookupRow(rows + [row], subject, scope, t) ==
        if !Matches(row, subject, scope, t) then before
        else if before.None? || before.value.effectiveAt <= row.effectiveAt then Some(row)
        else before
  {
    assert (rows + [row])[..|rows|] == rows;
  }

  /** An appended fact supersedes: when it matches the query and no earlier
      matching row is strictly later, it is the latest matching row of the
      extended log and the lookup selects it; otherwise the lookup keeps its
      earlier answer. */
  lemma AppendedFactSupersedes(rows: seq<PlanAssignmentRow>, row: PlanAssignmentRow,
                               subject: string, scope: string, t: Instant)
    ensures Matches(row, subject, scope, t)
            && (forall i | 0 <= i < |rows| && Matches(rows[i], subject, scope, t) ::
                  rows[i].effectiveAt <= row.effectiveAt)
            ==> IsLastLatestIndex(rows + [row], subject, scope, t, |rows|)
                && LatestAtOrBefore(rows + [row], subject, scope, t) == Some(|rows|)
    ensures !Matches(row, subject, scope, t)
            || (exists i | 0 <= i < |rows| && Matches(rows[i], subject, scope, t) ::
                  row.effectiveAt < rows[i].effectiveAt)
            ==> LatestAtOrBefore(rows + [row], subject, scope, t) == LatestAtOrBefore(rows, subject, scope, t)
  {
    var log := rows + [row];
    assert log[..|rows|] == rows;
    if Matches(row, subject, scope, t)
       && (forall i | 0 <= i < |rows| && Matches(rows[i], subject, scope, t) ::
             rows[i].effectiveAt <= row.effectiveAt)
    {
      assert forall i | 0 <= i < |rows| :: log[i] == rows[i];
      assert IsLastLatestIndex(log, subject, scope, t, |rows|);
      var found := LatestAtOrBefore(log, subject, scope, t);
      LastLatestIsUnique(log, subject, scope, t, |rows|, found.value);
    }
  }

  /** A row that does not match the query (another key, or effective only
      after `t`) never changes a resolution. */
  lemma AppendInvisible(rows: seq<PlanAssignmentRow>, row: PlanAssignmentRow, subject: string, scope: string,
                        t: Instant, iso: Instant -> string)
    requires !Matches(row, subject, scope, t)
    ensures ResolvePlanState(rows + [row], subject, scope, t, iso) == ResolvePlanState(rows, subject, scope, t, iso)
  {
    LookupAfterAppend(rows, row, subject, scope, t);
  }

  /** The rows of one (subject, scope) timeline, in log order. */
  function KeyRows(rows: seq<PlanAssignmentRow>, subject: string, scope: string): (r: seq<PlanAssignmentRow>)
    ensures forall i | 0 <= i < |r| :: r[i] in rows && r[i].subject == subject && r[i].scope == scope
    ensures forall i | 0 <= i < |rows| && rows[i].subject == subject && rows[i].scope == scope :: rows[i] in r
  {
    if rows == [] then []
    else
      var init := KeyRows(rows[..|rows| - 1], subject, scope);
      var last := rows[|rows| - 1];
      if last.subject == subject && last.scope == scope then init + [last] else init
  }

  /** The lookup sees only the rows of the queried key. */
  lemma {:induction false} LookupIgnoresOtherKeys(rows: seq<PlanAssignmentRow>, subject: string, scope: string,
                                                  t: Instant)
    ensures LookupRow(rows, subject, scope, t) == LookupRow(KeyRows(rows, subject, scope), subject, scope, t)
    decreases |rows|
  {
    if rows != [] {
      var init, last := rows[..|rows| - 1], rows[|rows| - 1];
      assert rows == init + [last];
      LookupIgnoresOtherKeys(init, subject, scope, t);
      LookupAfterAppend(init, last, subject, scope, t);
      if last.subject == subject && last.scope == scope {
        LookupAfterAppend(KeyRows(init, subject, scope), last, subject, scope, t);
      }
    }
  }

  /** Timelines are independent: resolving over the whole log gives the same
      response as resolving over the rows of the queried key alone. */
  lemma OtherKeysIrrelevant(rows: seq<PlanAssignmentRow>, subject: string, scope: string,
                            t: Instant, iso: Instant -> string)
    ensures ResolvePlanState(rows, subject, scope, t, iso) ==
            ResolvePlanState(KeyRows(rows, subject, scope), subject, scope, t, iso)
  {
    LookupIgnoresOtherKeys(rows, subject, scope, t);
  }
}
