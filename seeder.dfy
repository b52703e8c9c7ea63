/**
 * DatabaseSeeder::run: two tenants, five sensors each, ten thousand readings
 * per sensor, inserted in multi-row statements of at most 500 rows, each
 * tenant's rows under that tenant's setting. The clock is frozen at `now`
 * (seconds) and the generated ids and rand() values are inputs.
 */
module Seeder {
  import opened Wrappers
  import opened Calendar
  import opened Partitions
  import opened Schema
  import opened Store

  const TotalTenants := 2
  const SensorsPerTenant := 5
  const ReadingsPerSensor := 10000
  const BatchSize := 500

  /** rand(2000, 5000) / 100, in hundredths. */
  type SeedCents = c: int | 2000 <= c <= 5000 witness 2000

  /**
   * What the factories and Str::uuid() generate: tenant ti, sensor j of tenant ti,
   * and the id and value of reading i of that sensor.
   */
  datatype SeedInput = SeedInput(
    tenant: nat -> Tenant,
    sensorId: (nat, nat) -> Uuid,
    sensorName: (nat, nat) -> string,
    readingId: (nat, nat, nat) -> Uuid,
    cents: (nat, nat, nat) -> SeedCents)

  function Flatten<T>(bs: seq<seq<T>>): seq<T> {
    if bs == [] then [] else bs[0] + Flatten(bs[1..])
  }

  lemma {:induction false} FlattenAppend<T>(bs: seq<seq<T>>, cs: seq<seq<T>>)
    ensures Flatten(bs + cs) == Flatten(bs) + Flatten(cs)
  {
    if bs == [] {
      assert bs + cs == cs;
    } else {
      assert (bs + cs)[0] == bs[0] && (bs + cs)[1..] == bs[1..] + cs;
      FlattenAppend(bs[1..], cs);
    }
  }

  /** The inserts a buffer of capacity n makes of xs: full buffers in order, then the remainder if any. */
  function Chunks<T>(xs: seq<T>, n: nat): (cs: seq<seq<T>>)
    requires n > 0
    ensures Flatten(cs) == xs
    ensures forall k :: 0 <= k < |cs| ==> 0 < |cs[k]| <= n
    decreases |xs|
  {
    if |xs| <= n then
      (if xs == [] then [] else assert Flatten([xs]) == xs + Flatten([xs][1..]); [xs])
    else
      var rest := Chunks(xs[n..], n);
      assert ([xs[..n]] + rest)[1..] == rest;
      assert xs == xs[..n] + xs[n..];
      [xs[..n]] + rest
  }

  /** Full batches followed by a shorter remainder are exactly the chunks of their concatenation. */
  lemma {:induction false} ChunksOfBatches<T>(bs: seq<seq<T>>, d: seq<T>, n: nat)
    requires n > 0 && |d| < n
    requires forall k :: 0 <= k < |bs| ==> |bs[k]| == n
    ensures Chunks(Flatten(bs) + d, n) == bs + (if d == [] then [] else [d])
  {
    if bs == [] {
      assert Flatten(bs) + d == d;
    } else {
      var x := Flatten(bs) + d;
      var tail := Flatten(bs[1..]) + d;
      AppendAssoc(bs[0], Flatten(bs[1..]), d);
      assert x == bs[0] + tail;
      assert x[..n] == bs[0] && x[n..] == tail;
      ChunksOfBatches(bs[1..], d, n);
      if |bs| == 1 {
        assert bs[1..] == [] && bs == [bs[0]];
        assert tail == d;
      } else {
        assert Flatten(bs[1..]) == bs[1..][0] + Flatten(bs[1..][1..]);
        assert |x| > n;
        assert bs == [bs[0]] + bs[1..];
      }
    }
  }

  /** Every insert holds between 1 and 500 rows. */
  predicate Fits<T>(bs: seq<seq<T>>) {
    forall k :: 0 <= k < |bs| ==> 0 < |bs[k]| <= BatchSize
  }

  lemma FitsAppend<T>(a: seq<seq<T>>, b: seq<seq<T>>)
    requires Fits(a) && Fits(b)
    ensures Fits(a + b)
  {
    assert forall k :: |a| <= k < |a + b| ==> (a + b)[k] == b[k - |a|];
  }

  /** Full batches, and a non-empty remainder after them, all fit the buffer. */
  lemma FitSnoc<T>(bs: seq<seq<T>>, d: seq<T>)
    requires forall k :: 0 <= k < |bs| ==> |bs[k]| == BatchSize
    ensures Fits(bs)
    ensures 0 < |d| <= BatchSize ==> Fits(bs + [d])
  {
  }

  /** What the remainder flush has to complete: the full batches and the rest are the rows' chunks. */
  lemma RemainderChunks<T>(bs: seq<seq<T>>, d: seq<T>, rows: seq<T>)
    requires forall k :: 0 <= k < |bs| ==> |bs[k]| == BatchSize
    requires Flatten(bs) + d == rows && |d| < BatchSize
    ensures d == [] ==> Chunks(rows, BatchSize) == bs && Fits(bs) && Flatten(bs) == rows
    ensures d != [] ==> Chunks(rows, BatchSize) == bs + [d] && Fits(bs + [d]) && Flatten(bs + [d]) == rows
  {
    ChunksOfBatches(bs, d, BatchSize);
    FitSnoc(bs, d);
    FlattenSnoc(bs, d);
    if d == [] {
      assert Flatten(bs) + d == Flatten(bs);
    }
  }

  lemma FlattenSnoc<T>(bs: seq<seq<T>>, d: seq<T>)
    ensures Flatten(bs + [d]) == Flatten(bs) + d
  {
    FlattenAppend(bs, [d]);
    assert Flatten([d]) == d + Flatten([d][1..]);
  }

  /** The sensor j of tenant ti as SensorFactory fills it in (type 'fuel_pump', status 'active'). */
  function SensorOf(input: SeedInput, ti: nat, j: nat): (x: Sensor)
    ensures x.tenantId == input.tenant(ti).id && x.id == input.sensorId(ti, j)
  {
    NewSensor(input.sensorId(ti, j), input.tenant(ti).id, input.sensorName(ti, j), Some("fuel_pump"), Some("active"))
  }

  /** Reading i of sensor j of tenant ti: created i minutes before now, updated now. */
  function SeedRow(input: SeedInput, ti: nat, j: nat, i: nat, now: int): Reading {
    Reading(input.readingId(ti, j, i), input.sensorId(ti, j), input.tenant(ti).id, input.cents(ti, j, i), now - 60 * i, now)
  }

  /** The readings the inner loop generates for one sensor. */
  function SensorRows(input: SeedInput, ti: nat, j: nat, count: nat, now: int): (rows: seq<Reading>)
    ensures |rows| == count
    ensures forall i :: 0 <= i < |rows| ==> rows[i] == SeedRow(input, ti, j, i, now)
  {
    seq(count, (i: int) requires 0 <= i => SeedRow(input, ti, j, i, now))
  }

  /** Every row of a sensor carries its tenant and sensor, a value in 20.00..50.00, and created_at strictly decreases. */
  lemma SensorRowsShape(input: SeedInput, ti: nat, j: nat, count: nat, now: int)
    ensures var rows := SensorRows(input, ti, j, count, now);
            && (forall i :: 0 <= i < |rows| ==>
                  && rows[i].tenantId == input.tenant(ti).id && rows[i].sensorId == input.sensorId(ti, j)
                  && 2000 <= rows[i].cents <= 5000 && rows[i].createdAt == now - 60 * i && rows[i].updatedAt == now)
            && (forall i, k :: 0 <= i < k < |rows| ==> rows[i].createdAt > rows[k].createdAt)
  {
  }

  /** A sensor's rows go in twenty full inserts of 500 and the remainder flush has nothing left. */
  lemma SensorBatches(rows: seq<Reading>)
    requires |rows| == ReadingsPerSensor
    ensures |Chunks(rows, BatchSize)| == ReadingsPerSensor / BatchSize == 20
    ensures forall k :: 0 <= k < |Chunks(rows, BatchSize)| ==> |Chunks(rows, BatchSize)[k]| == BatchSize
  {
    ChunksExact(rows, BatchSize, 20);
  }

  lemma {:induction false} ChunksExact<T>(xs: seq<T>, n: nat, k: nat)
    requires n > 0 && |xs| == n * k
    ensures |Chunks(xs, n)| == k
    ensures forall i :: 0 <= i < k ==> |Chunks(xs, n)[i]| == n
  {
    if k > 1 {
      assert n * (k - 1) == n * k - n;
      assert |xs[n..]| == n * (k - 1);
      ChunksExact(xs[n..], n, k - 1);
    } else if k == 1 {
      assert |xs| == n;
    }
  }

  function TenantSensors(input: SeedInput, ti: nat, k: nat): seq<Sensor> {
    seq(k, (j: int) requires 0 <= j => SensorOf(input, ti, j))
  }

  /** The readings of the first k sensors of tenant ti, in insertion order. */
  function TenantRows(input: SeedInput, ti: nat, k: nat, now: int): seq<Reading> {
    if k == 0 then [] else TenantRows(input, ti, k - 1, now) + SensorRows(input, ti, k - 1, ReadingsPerSensor, now)
  }

  function SeededTenants(input: SeedInput, m: nat): seq<Tenant> {
    seq(m, (ti: int) requires 0 <= ti => input.tenant(ti))
  }

  function AllSensors(input: SeedInput, m: nat): seq<Sensor> {
    if m == 0 then [] else AllSensors(input, m - 1) + TenantSensors(input, m - 1, SensorsPerTenant)
  }

  function AllRows(input: SeedInput, m: nat, now: int): seq<Reading> {
    if m == 0 then [] else AllRows(input, m - 1, now) + TenantRows(input, m - 1, SensorsPerTenant, now)
  }

  lemma {:induction false} TenantRowsCount(input: SeedInput, ti: nat, k: nat, now: int)
    ensures |TenantRows(input, ti, k, now)| == k * ReadingsPerSensor
  {
    if k > 0 {
      TenantRowsCount(input, ti, k - 1, now);
    }
  }

  /** Two tenants of five sensors of ten thousand readings: one hundred thousand rows. */
  lemma {:induction false} AllRowsCount(input: SeedInput, m: nat, now: int)
    ensures |AllRows(input, m, now)| == m * SensorsPerTenant * ReadingsPerSensor
  {
    if m > 0 {
      AllRowsCount(input, m - 1, now);
      TenantRowsCount(input, m - 1, SensorsPerTenant, now);
    }
  }

  /** Every seeded row belongs to one of the seeded tenants and to a sensor of that same tenant. */
  lemma {:induction false} AllRowsOwned(input: SeedInput, m: nat, now: int, r: Reading)
    requires r in AllRows(input, m, now)
    ensures exists ti: nat, j: nat :: ti < m && j < SensorsPerTenant &&
              r.tenantId == input.tenant(ti).id && r.sensorId == SensorOf(input, ti, j).id &&
              SensorOf(input, ti, j).tenantId == r.tenantId
  {
    if r in AllRows(input, m - 1, now) {
      AllRowsOwned(input, m - 1, now, r);
    } else {
      TenantRowsOwned(input, m - 1, SensorsPerTenant, now, r);
    }
  }

  lemma {:induction false} TenantRowsOwned(input: SeedInput, ti: nat, k: nat, now: int, r: Reading)
    requires r in TenantRows(input, ti, k, now)
    ensures exists j: nat :: j < k && r.tenantId == input.tenant(ti).id && r.sensorId == SensorOf(input, ti, j).id
  {
    if r in TenantRows(input, ti, k - 1, now) {
      TenantRowsOwned(input, ti, k - 1, now, r);
    } else {
      var rows := SensorRows(input, ti, k - 1, ReadingsPerSensor, now);
      var i :| 0 <= i < |rows| && rows[i] == r;
      assert r == SeedRow(input, ti, k - 1, i, now);
      assert k - 1 < k && r.tenantId == input.tenant(ti).id && r.sensorId == SensorOf(input, ti, k - 1).id;
    }
  }

  /**
   * One turn of the inner loop: append the row to the buffer and, when the buffer then
   * holds 500 rows, insert it and empty it.
   */
  method Push(db: Database, batches: seq<seq<Reading>>, data: seq<Reading>, row: Reading)
    returns (r: Outcome<DbError>, batches': seq<seq<Reading>>, data': seq<Reading>)
    requires db.Valid() && |data| < BatchSize
    modifies db
    ensures db.Valid()
    ensures r.Pass? ==> Flatten(batches') + data' == Flatten(batches) + data + [row] && |data'| < BatchSize
    ensures |data + [row]| < BatchSize ==> r.Pass? && batches' == batches
    ensures batches' == batches ==> db.readings == old(db.readings)
    ensures batches' != batches ==>
              && batches' == batches + [data + [row]] && |data + [row]| == BatchSize
              && Flatten(batches') == Flatten(batches) + data + [row]
              && db.readings == old(db.readings) + data + [row]
    ensures db.setting == old(db.setting) && db.tenants == old(db.tenants)
    ensures db.sensors == old(db.sensors) && db.catalog == old(db.catalog)
  {
    batches', data' := batches, data + [row];
    r := Pass;
    if |data'| >= BatchSize {
      var e := db.InsertReadings(data');
      if e.Fail? {
        return Fail(e.error), batches, data';
      }
      FlattenSnoc(batches, data');
      batches', data' := batches + [data'], [];
    }
  }

  /**
   * The inner for loop for sensor j of tenant ti, generating `count` rows ($readingsPerSensor).
   * `batches` are the inserts that succeeded and `data` what is still buffered; a failed
   * insert raises after the earlier ones took effect.
   */
  method BufferRows(db: Database, input: SeedInput, ti: nat, j: nat, count: nat, now: int)
    returns (r: Outcome<DbError>, batches: seq<seq<Reading>>, data: seq<Reading>)
    requires db.Valid()
    modifies db
    ensures db.Valid()
    ensures forall k :: 0 <= k < |batches| ==> |batches[k]| == BatchSize
    ensures db.readings == old(db.readings) + Flatten(batches)
    ensures r.Pass? ==> Flatten(batches) + data == SensorRows(input, ti, j, count, now) && |data| < BatchSize
    ensures db.setting == old(db.setting) && db.tenants == old(db.tenants)
    ensures db.sensors == old(db.sensors) && db.catalog == old(db.catalog)
  {
    ghost var rows := SensorRows(input, ti, j, count, now);
    data := [];
    batches := [];
    for i := 0 to count
      invariant db.Valid()
      invariant Flatten(batches) + data == rows[..i]
      invariant |data| < BatchSize
      invariant forall k :: 0 <= k < |batches| ==> |batches[k]| == BatchSize
      invariant db.readings == old(db.readings) + Flatten(batches)
      invariant db.setting == old(db.setting) && db.tenants == old(db.tenants)
      invariant db.sensors == old(db.sensors) && db.catalog == old(db.catalog)
    {
      assert rows[..i + 1] == rows[..i] + [rows[i]];
      var e;
      AppendAssoc(old(db.readings), Flatten(batches), data + [rows[i]]);
      AppendAssoc(Flatten(batches), data, [rows[i]]);
      e, batches, data := Push(db, batches, data, SeedRow(input, ti, j, i, now));
      if e.Fail? {
        return e, batches, data;
      }
    }
    assert rows[..count] == rows;
    r := Pass;
  }

  /**
   * All of sensor j's readings: the buffered loop, then the insert of what is left in the
   * buffer, if anything. On success the inserts are exactly the 500-row chunks of the
   * generated rows, in order.
   */
  method SeedSensorReadings(db: Database, input: SeedInput, ti: nat, j: nat, count: nat, now: int)
    returns (r: Outcome<DbError>, batches: seq<seq<Reading>>)
    requires db.Valid()
    modifies db
    ensures db.Valid()
    ensures Fits(batches)
    ensures db.readings == old(db.readings) + Flatten(batches)
    ensures r.Pass? ==> batches == Chunks(SensorRows(input, ti, j, count, now), BatchSize)
    ensures db.setting == old(db.setting) && db.tenants == old(db.tenants)
    ensures db.sensors == old(db.sensors) && db.catalog == old(db.catalog)
  {
    var data;
    r, batches, data := BufferRows(db, input, ti, j, count, now);
    if r.Fail? {
      FitSnoc(batches, data);
      return;
    }
    RemainderChunks(batches, data, SensorRows(input, ti, j, count, now));
    if data != [] {
      var e := db.InsertReadings(data);
      if e.Fail? {
        return Fail(e.error), batches;
      }
      AppendAssoc(old(db.readings), Flatten(batches), data);
      batches := batches + [data];
    }
  }

  /** Sensor::factory()->count(5)->create(['tenant_id' => ...]): the tenant's five sensors, one insert each. */
  method CreateSensors(db: Database, input: SeedInput, ti: nat) returns (r: Outcome<DbError>)
    requires db.Valid()
    modifies db
    ensures db.Valid()
    ensures r.Pass? ==> db.sensors == old(db.sensors) + TenantSensors(input, ti, SensorsPerTenant)
    ensures db.setting == old(db.setting) && db.tenants == old(db.tenants)
    ensures db.readings == old(db.readings) && db.catalog == old(db.catalog)
  {
    for j := 0 to SensorsPerTenant
      invariant db.Valid()
      invariant db.sensors == old(db.sensors) + TenantSensors(input, ti, j)
      invariant db.setting == old(db.setting) && db.tenants == old(db.tenants)
      invariant db.readings == old(db.readings) && db.catalog == old(db.catalog)
    {
      var e := db.InsertSensor(SensorOf(input, ti, j));
      if e.Fail? {
        return e;
      }
      assert TenantSensors(input, ti, j + 1) == TenantSensors(input, ti, j) + [SensorOf(input, ti, j)];
      AppendAssoc(old(db.sensors), TenantSensors(input, ti, j), [SensorOf(input, ti, j)]);
    }
    r := Pass;
  }

  /**
   * The body of the tenant loop for tenant ti: SET app.current_tenant to the tenant,
   * create its five sensors, then seed each sensor's readings.
   */
  method SeedTenant(db: Database, input: SeedInput, ti: nat, now: int)
    returns (r: Outcome<DbError>, batches: seq<seq<Reading>>)
    requires db.Valid()
    modifies db
    ensures db.Valid()
    ensures Fits(batches)
    ensures db.readings == old(db.readings) + Flatten(batches)
    ensures r.Pass? ==> && db.setting == Text(input.tenant(ti).id)
                        && db.sensors == old(db.sensors) + TenantSensors(input, ti, SensorsPerTenant)
                        && Flatten(batches) == TenantRows(input, ti, SensorsPerTenant, now)
    ensures db.tenants == old(db.tenants) && db.catalog == old(db.catalog)
  {
    var t := input.tenant(ti);
    db.SetConfig(t.id);
    r := CreateSensors(db, input, ti);
    batches := [];
    if r.Fail? {
      return;
    }
    for j := 0 to SensorsPerTenant
      invariant db.Valid() && db.setting == Text(t.id)
      invariant db.sensors == old(db.sensors) + TenantSensors(input, ti, SensorsPerTenant)
      invariant Fits(batches)
      invariant db.readings == old(db.readings) + Flatten(batches)
      invariant Flatten(batches) == TenantRows(input, ti, j, now)
      invariant db.tenants == old(db.tenants) && db.catalog == old(db.catalog)
    {
      var e, more := SeedSensorReadings(db, input, ti, j, ReadingsPerSensor, now);
      AppendAssoc(old(db.readings), Flatten(batches), Flatten(more));
      FlattenAppend(batches, more);
      FitsAppend(batches, more);
      batches := batches + more;
      if e.Fail? {
        return e, batches;
      }
    }
  }

  /** Tenant::factory()->count(2)->create(): one insert per tenant. */
  method CreateTenants(db: Database, input: SeedInput) returns (r: Outcome<DbError>)
    requires db.Valid()
    modifies db
    ensures db.Valid()
    ensures r.Pass? ==> db.tenants == old(db.tenants) + SeededTenants(input, TotalTenants)
    ensures db.setting == old(db.setting) && db.sensors == old(db.sensors)
    ensures db.readings == old(db.readings) && db.catalog == old(db.catalog)
  {
    for ti := 0 to TotalTenants
      invariant db.Valid()
      invariant db.tenants == old(db.tenants) + SeededTenants(input, ti)
      invariant db.setting == old(db.setting) && db.sensors == old(db.sensors)
      invariant db.readings == old(db.readings) && db.catalog == old(db.catalog)
    {
      var e := db.InsertTenant(input.tenant(ti));
      if e.Fail? {
        return e;
      }
      assert SeededTenants(input, ti + 1) == SeededTenants(input, ti) + [input.tenant(ti)];
      AppendAssoc(old(db.tenants), SeededTenants(input, ti), [input.tenant(ti)]);
    }
    r := Pass;
  }

  /**
   * DatabaseSeeder::run: create the tenants, seed each under its own setting, then
   * RESET app.current_tenant. On success the tables hold exactly the generated rows,
   * no insert held more than 500 rows, and the session keeps no tenant.
   */
  method Run(db: Database, input: SeedInput, now: int) returns (r: Outcome<DbError>, batches: seq<seq<Reading>>)
    requires db.Valid()
    modifies db
    ensures db.Valid()
    ensures Fits(batches)
    ensures db.readings == old(db.readings) + Flatten(batches)
    ensures r.Pass? ==> && db.tenants == old(db.tenants) + SeededTenants(input, TotalTenants)
                        && db.sensors == old(db.sensors) + AllSensors(input, TotalTenants)
                        && Flatten(batches) == AllRows(input, TotalTenants, now)
                        && db.setting == Text("")
    ensures db.catalog == old(db.catalog)
  {
    batches := [];
    r := CreateTenants(db, input);
    if r.Fail? {
      return;
    }
    for ti := 0 to TotalTenants
      invariant db.Valid()
      invariant db.tenants == old(db.tenants) + SeededTenants(input, TotalTenants)
      invariant db.sensors == old(db.sensors) + AllSensors(input, ti)
      invariant Fits(batches)
      invariant db.readings == old(db.readings) + Flatten(batches)
      invariant Flatten(batches) == AllRows(input, ti, now)
      invariant db.catalog == old(db.catalog)
    {
      var e, more := SeedTenant(db, input, ti, now);
      AppendAssoc(old(db.readings), Flatten(batches), Flatten(more));
      FlattenAppend(batches, more);
      FitsAppend(batches, more);
      batches := batches + more;
      if e.Fail? {
        return e, batches;
      }
    }
    db.Reset();
  }
}
