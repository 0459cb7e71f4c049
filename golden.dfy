/**
 * The golden vectors of the service's test suite, replayed against the fact
 * store: an unknown key, one expiring fact read before, during and after its
 * window, repeated reads, and a fact without expiry read far in the future.
 */
module GoldenVectors {
  import opened Wrappers
  import opened Types
  import opened State
  import opened FactStore

  /** The row the store holds for the expiring `pro_monthly` fact. */
  function ExpiringRow(now: Instant): PlanAssignmentRow {
    PlanAssignmentRow(1, "user:12345", "billing", "pro_monthly", "stripe_webhook", "subscription_created",
                      "v2024.1", 1704067200000, Some(1717200000000), now)
  }

  /** The row the store holds for the non-expiring `enterprise_lifetime` fact. */
  function LifetimeRow(now: Instant): PlanAssignmentRow {
    PlanAssignmentRow(2, "org:99999", "features", "enterprise_lifetime", "admin_portal", "manual_grant",
                      "v2024.2", 1704067200000, None, now)
  }

  /** Vectors 2 to 4: the expiring fact read before, during and after its
      window, three reads at the current instant, and two identical reads. */
  method ReadExpiringFact(store: PlanAssignmentStore, iso: Instant -> string, now: Instant, clock: Instant)
    returns (before: PlanStateResponse, during: PlanStateResponse, after: PlanStateResponse,
             again1: PlanStateResponse, again2: PlanStateResponse)
    requires store.rows == [ExpiringRow(now)]
    ensures store.rows == [ExpiringRow(now)]
    ensures before.state.Name() == "none" && before.plan == None && before.provenance == None
    ensures during.state.Name() == "active" && during.plan == Some("pro_monthly")
    ensures during.provenance.Some? && during.provenance.value.origin == "stripe_webhook"
    ensures after.state.Name() == "expired" && after.plan == Some("pro_monthly")
    ensures after.provenance.Some? && after.provenance.value.origin == "stripe_webhook"
    ensures again1 == again2 && again1.evaluatedAt == iso(1711972800000)
  {
    var row := ExpiringRow(now);
    before := store.Resolve("user:12345", "billing", 1702598400000, iso);
    SingleFactTimeline(row, 1702598400000, iso);
    during := store.Resolve("user:12345", "billing", 1710460800000, iso);
    SingleFactTimeline(row, 1710460800000, iso);
    after := store.Resolve("user:12345", "billing", 1719792000000, iso);
    SingleFactTimeline(row, 1719792000000, iso);

    // Vector 3: reads leave the row count unchanged
    var countBefore := |store.rows|;
    var _ := store.Resolve("user:12345", "billing", clock, iso);
    var _ := store.Resolve("user:12345", "billing", clock, iso);
    var _ := store.Resolve("user:12345", "billing", clock, iso);
    assert |store.rows| == countBefore;

    // Vector 4: identical inputs give identical responses
    again1 := store.Resolve("user:12345", "billing", 1711972800000, iso);
    again2 := store.Resolve("user:12345", "billing", 1711972800000, iso);
  }

  /** Vector 5: the fact without expiry, read in 2099. */
  method ReadLifetimeFact(store: PlanAssignmentStore, iso: Instant -> string, now: Instant)
    returns (farFuture: PlanStateResponse)
    requires store.rows == [ExpiringRow(now), LifetimeRow(now)]
    ensures farFuture.state.Name() == "active" && farFuture.plan == Some("enterprise_lifetime")
  {
    farFuture := store.Resolve("org:99999", "features", 4102444799000, iso);
    LatestWins(store.rows, "org:99999", "features", 4102444799000, iso, 1);
  }

  /** The whole suite against one table. `parse` reads the two stored
      literals as their epoch milliseconds; `now` is the insert clock and
      `clock` the instant of the unparameterised reads. */
  method Replay(parse: string -> Option<Instant>, iso: Instant -> string, now: Instant, clock: Instant)
    returns (unknown: PlanStateResponse, before: PlanStateResponse, during: PlanStateResponse,
             after: PlanStateResponse, again1: PlanStateResponse, again2: PlanStateResponse,
             farFuture: PlanStateResponse)
    requires parse("2024-01-01T00:00:00.000Z") == Some(1704067200000)
    requires parse("2024-06-01T00:00:00.000Z") == Some(1717200000000)
    ensures unknown.state.Name() == "none" && unknown.plan == None && unknown.provenance == None
    ensures before.state.Name() == "none" && before.plan == None && before.provenance == None
    ensures during.state.Name() == "active" && during.plan == Some("pro_monthly")
    ensures during.provenance.Some? && during.provenance.value.origin == "stripe_webhook"
    ensures after.state.Name() == "expired" && after.plan == Some("pro_monthly")
    ensures after.provenance.Some? && after.provenance.value.origin == "stripe_webhook"
    ensures again1 == again2 && again1.evaluatedAt == iso(1711972800000)
    ensures farFuture.state.Name() == "active" && farFuture.plan == Some("enterprise_lifetime")
  {
    var store := new PlanAssignmentStore();

    // Vector 1: nothing stored for the key
    unknown := store.Resolve("user:unknown", "billing", 1717200000000, iso);

    // Vectors 2 to 4: an expiring fact
    var pro := PlanAssignmentFact("user:12345", "billing", "pro_monthly", "stripe_webhook",
                                  "subscription_created", "v2024.1",
                                  "2024-01-01T00:00:00.000Z", Some("2024-06-01T00:00:00.000Z"));
    var outcome := store.Append(pro, parse, now);
    assert store.rows == [ExpiringRow(now)];
    before, during, after, again1, again2 := ReadExpiringFact(store, iso, now, clock);

    // Vector 5: a fact without expiry
    var lifetime := PlanAssignmentFact("org:99999", "features", "enterprise_lifetime", "admin_portal",
                                       "manual_grant", "v2024.2", "2024-01-01T00:00:00.000Z", None);
    outcome := store.Append(lifetime, parse, now);
    assert store.rows == [ExpiringRow(now), LifetimeRow(now)];
    farFuture := ReadLifetimeFact(store, iso, now);
  }
}
