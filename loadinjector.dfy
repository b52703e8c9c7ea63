/**
 * The stored procedure stress_test_attack(p_tenant_id uuid, p_amount integer):
 * it collects the tenant's sensor ids, raises an exception when there are
 * none, and otherwise inserts p_amount generated readings in one statement.
 * The random choices (gen_random_uuid(), random()) are inputs: row i uses draw(i).
 */
module LoadInjector {
  import opened Wrappers
  import opened Calendar
  import opened Partitions
  import opened Schema
  import opened Store

  /** A value of random(): in [0, 1). */
  type Unit = u: real | 0.0 <= u < 1.0

  /** The random choices one generated row takes: its gen_random_uuid(), then the two random() calls. */
  datatype Draw = Draw(id: Uuid, pick: Unit, value: Unit)

  /** floor(random() * array_length(v_sensor_ids, 1) + 1)::int, a 1-based array index. */
  function PickIndex(u: Unit, n: nat): (k: int)
    requires n > 0
    ensures 1 <= k <= n
  {
    assert u * (n as real) < n as real by {
      assert (1.0 - u) * (n as real) > 0.0;
    }
    (u * (n as real) + 1.0).Floor
  }

  /** (random() * 100)::numeric(8,2) in hundredths: random() * 10000 rounded to the nearest integer, halves upwards. */
  function ValueCents(u: Unit): (c: int)
    ensures 0 <= c <= 10000
    ensures c as real - 0.5 <= u * 10000.0 < c as real + 0.5
  {
    (u * 10000.0 + 0.5).Floor
  }

  /**
   * SELECT ARRAY_AGG(id) FROM sensors WHERE tenant_id = p_tenant_id, run under the
   * session's row security; a NULL p_tenant_id matches nothing. An empty result is the
   * NULL array.
   */
  function SensorIdsOf(sensors: seq<Sensor>, s: Setting, tenant: Option<Uuid>): (ids: seq<Uuid>)
    ensures forall id :: id in ids <==>
              exists x :: x in Visible(sensors, SensorTenant, s) && tenant == Some(x.tenantId) && x.id == id
  {
    if sensors == [] then []
    else
      var x := sensors[0];
      var rest := SensorIdsOf(sensors[1..], s, tenant);
      VisibleFirst(sensors, s);
      (if Permits(s, x.tenantId) && tenant == Some(x.tenantId) then [x.id] else []) + rest
  }

  lemma VisibleFirst(sensors: seq<Sensor>, s: Setting)
    requires sensors != []
    ensures forall x :: x in Visible(sensors, SensorTenant, s) <==>
              (x == sensors[0] && Permits(s, x.tenantId)) || x in Visible(sensors[1..], SensorTenant, s)
  {
    assert forall x :: x in sensors <==> x == sensors[0] || x in sensors[1..];
  }

  /** The lookup finds sensors only when the setting is the tenant's, so the insert's WITH CHECK then holds. */
  lemma FoundImpliesPermitted(sensors: seq<Sensor>, s: Setting, tenant: Option<Uuid>)
    requires SensorIdsOf(sensors, s, tenant) != []
    ensures tenant.Some? && Permits(s, tenant.value)
  {
    var ids := SensorIdsOf(sensors, s, tenant);
    assert ids[0] in ids;
  }

  /** Every id found is a sensor of the tenant. */
  lemma FoundAreTenants(sensors: seq<Sensor>, s: Setting, tenant: Uuid, id: Uuid)
    requires id in SensorIdsOf(sensors, s, Some(tenant))
    ensures exists x :: x in sensors && x.tenantId == tenant && x.id == id
  {
  }

  /** generate_series(1, p_amount) has p_amount rows, none when p_amount < 1. */
  function SeriesLength(amount: int): nat {
    if amount > 0 then amount else 0
  }

  function AttackRow(ids: seq<Uuid>, tenant: Uuid, d: Draw, now: int): (r: Reading)
    requires ids != []
    ensures r.sensorId in ids && 0 <= r.cents <= 10000
  {
    Reading(d.id, ids[PickIndex(d.pick, |ids|) - 1], tenant, ValueCents(d.value), now, now)
  }

  /** The SELECT of the INSERT: one row per series value, all stamped with the transaction's NOW(). */
  function AttackRows(ids: seq<Uuid>, tenant: Uuid, amount: int, draw: nat -> Draw, now: int): (rows: seq<Reading>)
    requires ids != []
    ensures |rows| == SeriesLength(amount)
    ensures forall i :: 0 <= i < |rows| ==>
              && rows[i].id == draw(i).id && rows[i].tenantId == tenant && rows[i].sensorId in ids
              && 0 <= rows[i].cents <= 10000 && rows[i].createdAt == now && rows[i].updatedAt == now
  {
    seq(SeriesLength(amount), (i: int) requires 0 <= i => AttackRow(ids, tenant, draw(i), now))
  }

  /** Rows that fit the value type and pass the policy can only be refused for a duplicate key. */
  lemma {:induction false} OnlyKeyErrors(c: Catalog, s: Setting, keys: set<ReadingKey>, rows: seq<Reading>)
    requires Wellformed(c.parts) && c.hasDefault
    requires forall i :: 0 <= i < |rows| ==> FitsNumeric(rows[i].cents) && Permits(s, rows[i].tenantId)
    ensures ReadingsError(c, s, keys, rows).None? || ReadingsError(c, s, keys, rows) == Some(UniqueViolation)
    decreases |rows|
  {
    if rows != [] {
      RouteTotal(c, rows[0].createdAt);
      OnlyKeyErrors(c, s, keys + {Key(rows[0])}, rows[1..]);
    }
  }

  datatype AttackError = NoSensors | Statement(error: DbError)

  /**
   * CALL stress_test_attack(tenant, amount) with p_amount already an integer. With no
   * sensor found the exception leaves the tables as they were; otherwise exactly the
   * generated rows are appended, or the statement's error is raised and nothing is.
   */
  method StressTestAttack(db: Database, tenant: Option<Uuid>, amount: int, draw: nat -> Draw, now: int)
    returns (r: Outcome<AttackError>)
    requires db.Valid()
    modifies db
    ensures db.Valid()
    ensures SensorIdsOf(old(db.sensors), old(db.setting), tenant) == [] ==>
              r == Fail(NoSensors) && db.readings == old(db.readings)
    ensures SensorIdsOf(old(db.sensors), old(db.setting), tenant) != [] ==>
              (tenant.Some? &&
               var rows := AttackRows(SensorIdsOf(old(db.sensors), old(db.setting), tenant), tenant.value, amount, draw, now);
               && (r.Pass? <==> ReadingsAccepted(db.catalog, db.setting, KeysOf(old(db.readings)), rows))
               && (r.Fail? ==> r == Fail(Statement(UniqueViolation)))
               && db.readings == if r.Pass? then old(db.readings) + rows else old(db.readings))
    ensures db.setting == old(db.setting) && db.tenants == old(db.tenants)
    ensures db.sensors == old(db.sensors) && db.catalog == old(db.catalog)
  {
    var ids := SensorIdsOf(db.sensors, db.setting, tenant);
    if ids == [] {
      return Fail(NoSensors);
    }
    FoundImpliesPermitted(db.sensors, db.setting, tenant);
    var rows := AttackRows(ids, tenant.value, amount, draw, now);
    OnlyKeyErrors(db.catalog, db.setting, KeysOf(db.readings), rows);
    var e := db.InsertReadings(rows);
    r := match e case Pass => Pass case Fail(err) => Fail(Statement(err));
  }

  /** With fresh, distinct generated ids, the call inserts exactly max(p_amount, 0) rows of the tenant. */
  lemma AttackInsertsAll(c: Catalog, s: Setting, keys: set<ReadingKey>, ids: seq<Uuid>, tenant: Uuid,
                         amount: int, draw: nat -> Draw, now: int)
    requires ids != [] && Permits(s, tenant) && Wellformed(c.parts) && c.hasDefault
    requires forall i, j :: 0 <= i < j < SeriesLength(amount) ==> draw(i).id != draw(j).id
    requires forall i :: 0 <= i < SeriesLength(amount) ==> ReadingKey(draw(i).id, now) !in keys
    ensures ReadingsAccepted(c, s, keys, AttackRows(ids, tenant, amount, draw, now))
  {
    var rows := AttackRows(ids, tenant, amount, draw, now);
    forall i | 0 <= i < |rows| ensures ReadingAccepted(c, s, keys, rows[i]) {
      RouteTotal(c, rows[i].createdAt);
      assert Key(rows[i]) == ReadingKey(draw(i).id, now);
    }
  }
}
