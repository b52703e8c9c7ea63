/**
 * StressController: `stats`, the per-tenant dashboard metrics behind a
 * two-second cache, and `startAttack`, which calls the stress_test_attack
 * procedure. Time is the application clock in whole seconds.
 */
module StressController {
  import opened Wrappers
  import opened Calendar
  import opened Partitions
  import opened Schema
  import opened Store
  import opened Http
  import opened LoadInjector

  /** The stats reply: write_speed, read_latency_ms (held in hundredths of a millisecond), total_rows. */
  datatype Snapshot = Snapshot(writeSpeed: int, readLatency: int, totalRows: int)

  /** A cache entry and the second from which it is expired. */
  datatype Entry = Entry(snapshot: Snapshot, expiresAt: int)

  /** remember('dashboard_stats', 2, ...): an entry lives two seconds. */
  const TtlSeconds := 2

  const HeaderRequired := "X-Tenant-ID header required"

  /** Cache::tags(['tenant_' . $tenantId]): the tag the tenant's entry is filed under. */
  function TagKey(tenant: string): string {
    "tenant_" + tenant
  }

  /** Different tenants have different tags, so they never share an entry. */
  lemma TagKeyInjective(a: string, b: string)
    ensures TagKey(a) == TagKey(b) <==> a == b
  {
    if TagKey(a) == TagKey(b) {
      assert TagKey(a)[7..] == a;
      assert TagKey(b)[7..] == b;
    }
  }

  /** PHP round(n / d) for n >= 0: the nearest integer, halves rounded up (away from zero). */
  function RoundHalfUp(n: nat, d: int): (r: nat)
    requires d > 0
    ensures -d <= 2 * (n - r * d) < d
  {
    var q := (2 * n + d) / (2 * d);
    assert 2 * n + d == 2 * d * q + (2 * n + d) % (2 * d);
    q
  }

  /** The nearest-integer condition has one solution, so RoundHalfUp is round(). */
  lemma RoundHalfUpUnique(n: nat, d: int, r: int)
    requires d > 0 && -d <= 2 * (n - r * d) < d
    ensures r == RoundHalfUp(n, d)
  {
    var q := RoundHalfUp(n, d);
    var k := q - r;
    assert k * d == q * d - r * d;
    assert -d < k * d < d;
    if k >= 1 {
      MulAtLeast(k, d);
    } else if k <= -1 {
      MulAtLeast(-k, d);
    }
  }

  lemma MulAtLeast(k: int, d: int)
    requires k >= 1 && d > 0
    ensures k * d >= d
  {
    assert k * d == (k - 1) * d + d;
  }

  /** c / 5 never ends in exactly .5, so round(c / 5) is the integer division (c + 2) div 5. */
  lemma WriteSpeedClosedForm(c: nat)
    ensures RoundHalfUp(c, 5) == (c + 2) / 5
  {
    var r := RoundHalfUp(c, 5);
    assert -2 <= c - 5 * r <= 2;
    assert 0 <= c + 2 - 5 * r < 5;
  }

  /** SensorReading::where('created_at', '>=', since)->count() over the visible rows. */
  function CountSince(rows: seq<Reading>, since: int): (c: nat)
    ensures c <= |rows|
    ensures c == 0 <==> forall i :: 0 <= i < |rows| ==> rows[i].createdAt < since
    ensures c == |rows| <==> forall i :: 0 <= i < |rows| ==> rows[i].createdAt >= since
    ensures |rows| == 1 ==> (c == 1 <==> rows[0].createdAt >= since)
  {
    if rows == [] then 0
    else
      assert forall i :: 1 <= i < |rows| ==> rows[i] == rows[1..][i - 1];
      (if rows[0].createdAt >= since then 1 else 0) + CountSince(rows[1..], since)
  }

  /** Counting distributes over concatenation; with the one-row case this fixes the count of every table. */
  lemma {:induction false} CountSinceAppend(a: seq<Reading>, b: seq<Reading>, since: int)
    ensures CountSince(a + b, since) == CountSince(a, since) + CountSince(b, since)
  {
    if a == [] {
      assert a + b == b;
    } else {
      assert (a + b)[1..] == a[1..] + b;
      CountSinceAppend(a[1..], b, since);
    }
  }

  /** The positions of the rows created at or after `since`. */
  function RecentPositions(rows: seq<Reading>, since: int): (p: set<int>)
    ensures forall i :: i in p ==> 0 <= i < |rows|
  {
    set i | 0 <= i < |rows| && rows[i].createdAt >= since
  }

  /** Adding a row at the end adds its position exactly when it is recent. */
  lemma RecentPositionsSnoc(front: seq<Reading>, x: Reading, since: int)
    ensures RecentPositions(front + [x], since) ==
              RecentPositions(front, since) + (if x.createdAt >= since then {|front|} else {})
  {
    var rows := front + [x];
    assert forall i :: 0 <= i < |front| ==> rows[i] == front[i];
    assert rows[|front|] == x;
  }

  /** The count is the number of positions whose row is recent enough. */
  lemma {:induction false} CountSinceIsCardinality(rows: seq<Reading>, since: int)
    ensures CountSince(rows, since) == |RecentPositions(rows, since)|
  {
    if rows != [] {
      var n := |rows| - 1;
      var front, x := rows[..n], rows[n];
      assert rows == front + [x];
      CountSinceAppend(front, [x], since);
      CountSinceIsCardinality(front, since);
      RecentPositionsSnoc(front, x, since);
      assert n !in RecentPositions(front, since);
    }
  }

  /** PHP round(x, 2) in hundredths: the nearest hundredth, halves away from zero. */
  function RoundHundredths(x: real): (r: int)
    ensures x >= 0.0 ==> -0.5 <= 100.0 * x - r as real < 0.5
    ensures x < 0.0 ==> -0.5 < 100.0 * x - r as real <= 0.5
  {
    if x >= 0.0 then (100.0 * x + 0.5).Floor else -(0.5 - 100.0 * x).Floor
  }

  /**
   * The closure given to remember: total_rows counts every visible reading (no time
   * filter), write_speed the ones of the last five seconds divided by 5 and rounded.
   * The average over the last ten seconds is computed only to time it; `elapsedMs` is
   * that time in milliseconds, and read_latency_ms is it rounded to two decimals.
   */
  function ComputeSnapshot(visible: seq<Reading>, now: int, elapsedMs: real): (s: Snapshot)
    ensures s.totalRows == |visible|
    ensures -0.5 <= 100.0 * elapsedMs - s.readLatency as real <= 0.5
    ensures s.writeSpeed == (CountSince(visible, now - 5) + 2) / 5
    ensures -5 <= 2 * (CountSince(visible, now - 5) - 5 * s.writeSpeed) < 5
    ensures visible == [] ==> s.writeSpeed == 0 && s.totalRows == 0
  {
    WriteSpeedClosedForm(CountSince(visible, now - 5));
    Snapshot(RoundHalfUp(CountSince(visible, now - 5), 5), RoundHundredths(elapsedMs), |visible|)
  }

  /** A cache read at second `now`: the entry under `key` unless it has expired. */
  function Lookup(entries: map<string, Entry>, key: string, now: int): Option<Snapshot> {
    if key in entries && now < entries[key].expiresAt then Some(entries[key].snapshot) else None
  }

  /** A snapshot stored at t0 is returned unchanged by every read before t0 + 2 and by none after. */
  lemma RememberedForTtl(entries: map<string, Entry>, key: string, s: Snapshot, t0: int, t: int)
    ensures Lookup(entries[key := Entry(s, t0 + TtlSeconds)], key, t) ==
              if t < t0 + TtlSeconds then Some(s) else None
  {
  }

  /** Storing one tenant's snapshot leaves every other tenant's cache reads as they were. */
  lemma TenantsNeverShare(entries: map<string, Entry>, a: string, b: string, e: Entry, t: int)
    requires a != b
    ensures Lookup(entries[TagKey(a) := e], TagKey(b), t) == Lookup(entries, TagKey(b), t)
  {
    TagKeyInjective(a, b);
  }

  /** The tagged cache of the stats endpoint, one entry per tag. */
  class StatsCache {
    var entries: map<string, Entry>

    constructor()
      ensures entries == map[]
    {
      entries := map[];
    }

    function Get(key: string, now: int): Option<Snapshot>
      reads this
    {
      Lookup(entries, key, now)
    }

    /** put(key, value, 2): the entry expires two seconds from now. */
    method Put(key: string, s: Snapshot, now: int)
      modifies this
      ensures entries == old(entries)[key := Entry(s, now + TtlSeconds)]
    {
      entries := entries[key := Entry(s, now + TtlSeconds)];
    }
  }

  /** round() returns a PHP float: write_speed is a whole float, read_latency_ms one with two decimals. */
  function SnapshotReply(s: Snapshot): Response {
    Response(200, JObject([("write_speed", JFloat(s.writeSpeed, 0)), ("read_latency_ms", JFloat(s.readLatency, 2)),
                           ("total_rows", JInt(s.totalRows))]))
  }

  /**
   * StressController::stats. Without a header: 400 and no query. Otherwise the cached
   * snapshot of the tenant's tag while it lives; on a miss the queries run under the
   * session's setting and their snapshot is stored for two seconds. `queriesOk` says
   * whether the queries succeed: when one throws, remember stores nothing and the reply
   * is Laravel's 500. `queried` says whether the queries ran.
   */
  method Stats(db: Database, cache: StatsCache, header: Option<string>, now: int, elapsedMs: real, queriesOk: bool)
    returns (resp: Response, queried: bool)
    modifies cache
    ensures Falsy(header) ==>
              resp == ErrorReply(400, HeaderRequired) && !queried && cache.entries == old(cache.entries)
    ensures !Falsy(header) && Lookup(old(cache.entries), TagKey(header.value), now).Some? ==>
              && resp == SnapshotReply(Lookup(old(cache.entries), TagKey(header.value), now).value)
              && !queried && cache.entries == old(cache.entries)
    ensures !Falsy(header) && Lookup(old(cache.entries), TagKey(header.value), now).None? && !queriesOk ==>
              resp == ServerError && queried && cache.entries == old(cache.entries)
    ensures !Falsy(header) && Lookup(old(cache.entries), TagKey(header.value), now).None? && queriesOk ==>
              var s := ComputeSnapshot(db.VisibleReadings(), now, elapsedMs);
              resp == SnapshotReply(s) && queried &&
              cache.entries == old(cache.entries)[TagKey(header.value) := Entry(s, now + TtlSeconds)]
  {
    if Falsy(header) {
      return ErrorReply(400, HeaderRequired), false;
    }
    var key := TagKey(header.value);
    var hit := cache.Get(key, now);
    if hit.Some? {
      return SnapshotReply(hit.value), false;
    }
    if !queriesOk {
      return ServerError, true;
    }
    var s := ComputeSnapshot(db.VisibleReadings(), now, elapsedMs);
    cache.Put(key, s, now);
    resp, queried := SnapshotReply(s), true;
  }

  /** $request->input('amount', 100). */
  const DefaultAmount := 100

  function AmountOf(amount: Option<int>): int {
    if amount.Some? then amount.value else DefaultAmount
  }

  /** PostgreSQL's integer, the type of p_amount. */
  predicate IsInt32(n: int) {
    -0x8000_0000 <= n <= 0x7fff_ffff
  }

  function LowerHex(c: char): char {
    if 'A' <= c <= 'F' then (c as int + 32) as char else c
  }

  /** The text with hex letters A-F lower-cased, the form uuid_out prints. */
  function LowerText(h: string): (t: string)
    ensures |t| == |h|
    ensures forall i :: 0 <= i < |h| ==> t[i] == LowerHex(h[i])
  {
    seq(|h|, i requires 0 <= i < |h| => LowerHex(h[i]))
  }

  /**
   * The bound header cast to p_tenant_id uuid: no header is NULL; hex digits may be in
   * either case, and the cast fails (invalid input syntax for type uuid) on any other text.
   */
  function CastTenant(header: Option<string>): (r: Result<Option<Uuid>, ()>)
    ensures header.None? ==> r == Success(None)
    ensures header.Some? ==> (r.Success? <==> IsUuidText(LowerText(header.value)))
    ensures header.Some? && r.Success? ==> r.value == Some(LowerText(header.value))
    ensures header.Some? && IsUuidText(header.value) ==> r == Success(Some(header.value))
  {
    match header
    case None => Success(None)
    case Some(h) =>
      var t := LowerText(h);
      if IsUuidText(t) then
        assert IsUuidText(h) ==> t == h;
        Success(Some(t))
      else
        Failure(())
  }

  /** The call StressController makes: CALL stress_test_attack(?, ?) with the header's tenant and the amount. */
  datatype ProcedureCall = ProcedureCall(tenant: Option<Uuid>, amount: int)

  /** {"status": "Attack launched!", "rows": amount}: the requested amount, whatever was inserted. */
  function AttackReply(amount: int): Response {
    Response(200, JObject([("status", JString("Attack launched!")), ("rows", JInt(amount))]))
  }

  /** An uncaught database exception: Laravel's 500 reply. */
  const ServerError := Response(500, JObject([("message", JString("Server Error"))]))

  /** Whether the procedure inserts its rows: a sensor is found and the insert is accepted. */
  predicate AttackSucceeds(db: Database, tenant: Option<Uuid>, amount: int, draw: nat -> Draw, now: int)
    reads db
  {
    var ids := SensorIdsOf(db.sensors, db.setting, tenant);
    ids != [] && tenant.Some? &&
    ReadingsAccepted(db.catalog, db.setting, KeysOf(db.readings), AttackRows(ids, tenant.value, amount, draw, now))
  }

  /**
   * StressController::startAttack. The parameters are cast first (an invalid uuid or an
   * amount outside integer fails the statement); then the procedure runs once. Any
   * exception is a 500; otherwise the reply echoes the amount, 100 when none was given.
   */
  method StartAttack(db: Database, header: Option<string>, amount: Option<int>, draw: nat -> Draw, now: int)
    returns (resp: Response, call: Option<ProcedureCall>)
    requires db.Valid()
    modifies db
    ensures db.Valid()
    ensures call.Some? <==> CastTenant(header).Success? && IsInt32(AmountOf(amount))
    ensures call.Some? ==> call.value == ProcedureCall(CastTenant(header).value, AmountOf(amount))
    ensures call.Some? && old(AttackSucceeds(db, call.value.tenant, call.value.amount, draw, now)) ==>
              && resp == AttackReply(AmountOf(amount))
              && db.readings == old(db.readings) +
                   AttackRows(SensorIdsOf(old(db.sensors), old(db.setting), call.value.tenant), call.value.tenant.value,
                              AmountOf(amount), draw, now)
    ensures (call.None? || !old(AttackSucceeds(db, call.value.tenant, call.value.amount, draw, now))) ==>
              resp == ServerError && db.readings == old(db.readings)
    ensures db.setting == old(db.setting) && db.tenants == old(db.tenants)
    ensures db.sensors == old(db.sensors) && db.catalog == old(db.catalog)
  {
    var n := AmountOf(amount);
    var tenant := CastTenant(header);
    if tenant.Failure? || !IsInt32(n) {
      return ServerError, None;
    }
    call := Some(ProcedureCall(tenant.value, n));
    var r := StressTestAttack(db, tenant.value, n, draw, now);
    resp := if r.Pass? then AttackReply(n) else ServerError;
  }
}
