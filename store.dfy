/**
 * The database one session works on: its app.current_tenant setting, the
 * tenants, sensors and sensor_readings tables, and the partitions of
 * sensor_readings. Every statement is atomic: it either takes its whole
 * effect or raises an error and changes nothing. Statements run as AppRole,
 * for which row security is the policy's comparison Permits alone
 * (Schema.ForcedPolicyBindsOwner).
 */
module Store {
  import opened Wrappers
  import opened Calendar
  import opened Partitions
  import opened Schema

  /** The errors a statement can raise. */
  datatype DbError =
    | UniqueViolation
    | RowSecurityViolation
    | ForeignKeyViolation
    | NoPartitionFound
    | NumericOverflow

  function TenantId(t: Tenant): Uuid {
    t.id
  }

  function SensorId(s: Sensor): Uuid {
    s.id
  }

  predicate IdsDistinct<T>(rows: seq<T>, idOf: T -> Uuid) {
    forall i, j :: 0 <= i < j < |rows| ==> idOf(rows[i]) != idOf(rows[j])
  }

  predicate HasId<T>(rows: seq<T>, idOf: T -> Uuid, id: Uuid) {
    exists i :: 0 <= i < |rows| && idOf(rows[i]) == id
  }

  /** A row PostgreSQL accepts into sensor_readings given the keys already taken. */
  predicate ReadingAccepted(c: Catalog, s: Setting, keys: set<ReadingKey>, r: Reading) {
    FitsNumeric(r.cents) && Route(c, r.createdAt).Some? && Permits(s, r.tenantId) && Key(r) !in keys
  }

  /** A multi-row INSERT INTO sensor_readings succeeds: every row is accepted and no two rows share a key. */
  predicate ReadingsAccepted(c: Catalog, s: Setting, keys: set<ReadingKey>, rows: seq<Reading>) {
    (forall i :: 0 <= i < |rows| ==> ReadingAccepted(c, s, keys, rows[i])) && KeysDistinct(rows)
  }

  /**
   * The error one row raises, in the order the executor meets them: the cast to
   * numeric(8,2), tuple routing, the policy's WITH CHECK, the primary key.
   */
  function ReadingError(c: Catalog, s: Setting, keys: set<ReadingKey>, r: Reading): Option<DbError> {
    if !FitsNumeric(r.cents) then Some(NumericOverflow)
    else if Route(c, r.createdAt).None? then Some(NoPartitionFound)
    else if !Permits(s, r.tenantId) then Some(RowSecurityViolation)
    else if Key(r) in keys then Some(UniqueViolation)
    else None
  }

  lemma ReadingsAcceptedStep(c: Catalog, s: Setting, keys: set<ReadingKey>, rows: seq<Reading>)
    requires rows != []
    ensures ReadingsAccepted(c, s, keys, rows) <==>
              ReadingAccepted(c, s, keys, rows[0]) && ReadingsAccepted(c, s, keys + {Key(rows[0])}, rows[1..])
  {
    var rest := rows[1..];
    if ReadingsAccepted(c, s, keys, rows) {
      forall i | 0 <= i < |rest| ensures ReadingAccepted(c, s, keys + {Key(rows[0])}, rest[i]) {
        assert rest[i] == rows[i + 1];
        assert Key(rows[0]) != Key(rows[i + 1]);
      }
    }
    if ReadingAccepted(c, s, keys, rows[0]) && ReadingsAccepted(c, s, keys + {Key(rows[0])}, rest) {
      forall i, j | 0 <= i < j < |rows| ensures Key(rows[i]) != Key(rows[j]) {
        if i == 0 {
          assert rows[j] == rest[j - 1];
        } else {
          assert rows[i] == rest[i - 1] && rows[j] == rest[j - 1];
        }
      }
      forall i | 0 <= i < |rows| ensures ReadingAccepted(c, s, keys, rows[i]) {
        if i > 0 {
          assert rows[i] == rest[i - 1];
        }
      }
    }
  }

  /** The error a multi-row insert raises: that of its first refused row, each row's key counting as taken for the rows after it. */
  function ReadingsError(c: Catalog, s: Setting, keys: set<ReadingKey>, rows: seq<Reading>): (e: Option<DbError>)
    ensures e.None? <==> ReadingsAccepted(c, s, keys, rows)
    decreases |rows|
  {
    if rows == [] then None
    else
      ReadingsAcceptedStep(c, s, keys, rows);
      match ReadingError(c, s, keys, rows[0])
      case Some(e) => Some(e)
      case None => ReadingsError(c, s, keys + {Key(rows[0])}, rows[1..])
  }

  /** With the default partition present, no insert fails for want of a partition. */
  lemma {:induction false} NeverUnrouted(c: Catalog, s: Setting, keys: set<ReadingKey>, rows: seq<Reading>)
    requires Wellformed(c.parts) && c.hasDefault
    ensures ReadingsError(c, s, keys, rows) != Some(NoPartitionFound)
    decreases |rows|
  {
    if rows != [] {
      RouteTotal(c, rows[0].createdAt);
      NeverUnrouted(c, s, keys + {Key(rows[0])}, rows[1..]);
    }
  }

  /** The error an INSERT INTO sensors raises: the policy's WITH CHECK, the primary key, then the foreign key to tenants. */
  function SensorError(s: Setting, tenants: seq<Tenant>, sensors: seq<Sensor>, x: Sensor): (e: Option<DbError>)
    ensures e.None? <==> Permits(s, x.tenantId) && !HasId(sensors, SensorId, x.id) && HasId(tenants, TenantId, x.tenantId)
    ensures !Permits(s, x.tenantId) ==> e == Some(RowSecurityViolation)
  {
    if !Permits(s, x.tenantId) then Some(RowSecurityViolation)
    else if HasId(sensors, SensorId, x.id) then Some(UniqueViolation)
    else if !HasId(tenants, TenantId, x.tenantId) then Some(ForeignKeyViolation)
    else None
  }

  /** Removing a tenant's rows keeps the remaining ids distinct. */
  lemma {:induction false} WithoutTenantDistinct<T(!new)>(rows: seq<T>, tenantOf: T -> Uuid, idOf: T -> Uuid, id: Uuid)
    requires IdsDistinct(rows, idOf)
    ensures IdsDistinct(WithoutTenant(rows, tenantOf, id), idOf)
  {
    if rows != [] {
      var rest := rows[1..];
      var w := WithoutTenant(rest, tenantOf, id);
      var kept := if tenantOf(rows[0]) != id then [rows[0]] else [];
      assert IdsDistinct(rest, idOf) by {
        forall i, j | 0 <= i < j < |rest| ensures idOf(rest[i]) != idOf(rest[j]) {
          assert rest[i] == rows[i + 1] && rest[j] == rows[j + 1];
        }
      }
      WithoutTenantDistinct(rest, tenantOf, idOf, id);
      forall k | 0 <= k < |w| ensures idOf(w[k]) != idOf(rows[0]) {
        assert w[k] in rest;
        var i :| 0 <= i < |rest| && rest[i] == w[k];
        assert rows[i + 1] == w[k];
      }
      assert WithoutTenant(rows, tenantOf, id) == kept + w;
      var r := kept + w;
      forall i, j | 0 <= i < j < |r| ensures idOf(r[i]) != idOf(r[j]) {
        if kept == [] || i > 0 {
          assert r[i] == w[i - |kept|] && r[j] == w[j - |kept|];
        } else {
          assert r[j] == w[j - 1];
        }
      }
    }
  }

  /** The partitions of sensor_readings as the migration leaves them: well formed, with a default. */
  predicate CatalogReady(c: Catalog) {
    Wellformed(c.parts) && c.hasDefault
  }

  /** tenants and sensors keep their primary keys, and every sensor's tenant_id references a tenant. */
  predicate TablesConsistent(tenants: seq<Tenant>, sensors: seq<Sensor>) {
    && IdsDistinct(tenants, TenantId)
    && IdsDistinct(sensors, SensorId)
    && (forall i :: 0 <= i < |sensors| ==> HasId(tenants, TenantId, sensors[i].tenantId))
  }

  /** sensor_readings keeps its primary key (id, created_at) and every value fits numeric(8,2). */
  predicate ReadingsConsistent(readings: seq<Reading>) {
    KeysDistinct(readings) && forall i :: 0 <= i < |readings| ==> FitsNumeric(readings[i].cents)
  }

  /** A new tenant with an unused id keeps the tables consistent. */
  lemma TenantAdded(tenants: seq<Tenant>, sensors: seq<Sensor>, t: Tenant)
    requires TablesConsistent(tenants, sensors) && !HasId(tenants, TenantId, t.id)
    ensures TablesConsistent(tenants + [t], sensors)
  {
    var after := tenants + [t];
    assert forall i :: 0 <= i < |tenants| ==> after[i] == tenants[i];
    forall i | 0 <= i < |sensors| ensures HasId(after, TenantId, sensors[i].tenantId) {
      var k :| 0 <= k < |tenants| && tenants[k].id == sensors[i].tenantId;
      assert after[k] == tenants[k];
    }
  }

  /** A new sensor with an unused id and an existing tenant keeps the tables consistent. */
  lemma SensorAdded(tenants: seq<Tenant>, sensors: seq<Sensor>, x: Sensor)
    requires TablesConsistent(tenants, sensors)
    requires !HasId(sensors, SensorId, x.id) && HasId(tenants, TenantId, x.tenantId)
    ensures TablesConsistent(tenants, sensors + [x])
  {
    var after := sensors + [x];
    assert forall i :: 0 <= i < |sensors| ==> after[i] == sensors[i];
  }

  /** Appending rows the insert accepted keeps sensor_readings consistent. */
  lemma ReadingsAdded(c: Catalog, s: Setting, before: seq<Reading>, rows: seq<Reading>)
    requires ReadingsConsistent(before) && ReadingsAccepted(c, s, KeysOf(before), rows)
    ensures ReadingsConsistent(before + rows)
  {
    var after := before + rows;
    forall i, j | 0 <= i < j < |after| ensures Key(after[i]) != Key(after[j]) {
      if j < |before| {
        assert after[i] == before[i] && after[j] == before[j];
      } else if i < |before| {
        assert after[i] == before[i] && after[j] == rows[j - |before|];
        assert after[i] in before;
        assert Key(rows[j - |before|]) !in KeysOf(before);
      } else {
        assert after[i] == rows[i - |before|] && after[j] == rows[j - |before|];
      }
    }
    forall i | 0 <= i < |after| ensures FitsNumeric(after[i].cents) {
      if i >= |before| {
        assert after[i] == rows[i - |before|];
      } else {
        assert after[i] == before[i];
      }
    }
  }

  /** The cascade of a tenant delete keeps the tables consistent. */
  lemma TenantRemoved(tenants: seq<Tenant>, sensors: seq<Sensor>, id: Uuid)
    requires TablesConsistent(tenants, sensors)
    ensures TablesConsistent(WithoutTenant(tenants, TenantId, id), WithoutTenant(sensors, SensorTenant, id))
  {
    WithoutTenantDistinct(tenants, TenantId, TenantId, id);
    WithoutTenantDistinct(sensors, SensorTenant, SensorId, id);
    var ts := WithoutTenant(tenants, TenantId, id);
    var ss := WithoutTenant(sensors, SensorTenant, id);
    forall i | 0 <= i < |ss| ensures HasId(ts, TenantId, ss[i].tenantId) {
      var x := ss[i];
      assert x in ss;
      var k :| 0 <= k < |sensors| && sensors[k] == x;
      var j :| 0 <= j < |tenants| && tenants[j].id == x.tenantId;
      assert tenants[j] in ts;
      var j' :| 0 <= j' < |ts| && ts[j'] == tenants[j];
    }
  }

  class Database {
    var setting: Setting
    var tenants: seq<Tenant>
    var sensors: seq<Sensor>
    var readings: seq<Reading>
    var catalog: Catalog

    /** What the schema keeps true: partitions with a default, keys unique, every sensor's tenant present. */
    ghost predicate Valid()
      reads this
    {
      CatalogReady(catalog) && TablesConsistent(tenants, sensors) && ReadingsConsistent(readings)
    }

    /** The database right after the migrations ran at `now`: empty tables, the bootstrapped partitions, no setting yet. */
    constructor Migrate(now: Date)
      requires ValidDate(now)
      ensures Valid()
      ensures setting == Undefined && tenants == [] && sensors == [] && readings == []
      ensures Success(catalog) == BootstrapCatalog(now)
    {
      var r := Bootstrap(now);
      setting := Undefined;
      tenants := [];
      sensors := [];
      readings := [];
      catalog := r.value;
    }

    /** The sensors a query sees (SELECT * FROM sensors) under the session's setting. */
    function VisibleSensors(): seq<Sensor>
      reads this
    {
      Visible(sensors, SensorTenant, setting)
    }

    /** The readings a query sees under the session's setting. */
    function VisibleReadings(): seq<Reading>
      reads this
    {
      Visible(readings, ReadingTenant, setting)
    }

    /**
     * set_config('app.current_tenant', value, false), and SET app.current_tenant = 'value':
     * the setting holds for the rest of the session, until it is set again.
     */
    method SetConfig(value: string)
      requires Valid()
      modifies this
      ensures Valid()
      ensures setting == Text(value)
      ensures tenants == old(tenants) && sensors == old(sensors) && readings == old(readings) && catalog == old(catalog)
    {
      setting := Text(value);
    }

    /** RESET app.current_tenant: the placeholder returns to its empty value, which current_setting reads as ''. */
    method Reset()
      requires Valid()
      modifies this
      ensures Valid()
      ensures setting == Text("")
      ensures tenants == old(tenants) && sensors == old(sensors) && readings == old(readings) && catalog == old(catalog)
    {
      setting := Text("");
    }

    /** INSERT INTO tenants (no row security on this table). */
    method InsertTenant(t: Tenant) returns (r: Outcome<DbError>)
      requires Valid()
      modifies this
      ensures Valid()
      ensures r == (if HasId(old(tenants), TenantId, t.id) then Fail(UniqueViolation) else Pass)
      ensures tenants == if r.Pass? then old(tenants) + [t] else old(tenants)
      ensures setting == old(setting) && sensors == old(sensors) && readings == old(readings) && catalog == old(catalog)
    {
      if HasId(tenants, TenantId, t.id) {
        return Fail(UniqueViolation);
      }
      TenantAdded(tenants, sensors, t);
      tenants := tenants + [t];
      r := Pass;
    }

    /** INSERT INTO sensors, checked against the policy, the primary key and the tenant it references. */
    method InsertSensor(x: Sensor) returns (r: Outcome<DbError>)
      requires Valid()
      modifies this
      ensures Valid()
      ensures r == (match SensorError(old(setting), old(tenants), old(sensors), x) case Some(e) => Fail(e) case None => Pass)
      ensures sensors == if r.Pass? then old(sensors) + [x] else old(sensors)
      ensures setting == old(setting) && tenants == old(tenants) && readings == old(readings) && catalog == old(catalog)
    {
      var e := SensorError(setting, tenants, sensors, x);
      if e.Some? {
        return Fail(e.value);
      }
      SensorAdded(tenants, sensors, x);
      sensors := sensors + [x];
      r := Pass;
    }

    /** One INSERT INTO sensor_readings of `rows`: all of them are appended, or the first refused row's error is raised and none is. */
    method InsertReadings(rows: seq<Reading>) returns (r: Outcome<DbError>)
      requires Valid()
      modifies this
      ensures Valid()
      ensures r == (match ReadingsError(catalog, setting, KeysOf(old(readings)), rows) case Some(e) => Fail(e) case None => Pass)
      ensures readings == if r.Pass? then old(readings) + rows else old(readings)
      ensures setting == old(setting) && tenants == old(tenants) && sensors == old(sensors) && catalog == old(catalog)
    {
      var e := ReadingsError(catalog, setting, KeysOf(readings), rows);
      if e.Some? {
        return Fail(e.value);
      }
      ReadingsAdded(catalog, setting, readings, rows);
      readings := readings + rows;
      r := Pass;
    }

    /**
     * DELETE FROM tenants WHERE id = `id`: ON DELETE CASCADE removes the tenant's sensors,
     * whatever the setting (referential actions bypass row security). sensor_readings has
     * no foreign key, so the tenant's readings stay.
     */
    method DeleteTenant(id: Uuid)
      requires Valid()
      modifies this
      ensures Valid()
      ensures tenants == WithoutTenant(old(tenants), TenantId, id)
      ensures sensors == WithoutTenant(old(sensors), SensorTenant, id)
      ensures setting == old(setting) && readings == old(readings) && catalog == old(catalog)
    {
      TenantRemoved(tenants, sensors, id);
      tenants := WithoutTenant(tenants, TenantId, id);
      sensors := WithoutTenant(sensors, SensorTenant, id);
    }
  }

  /** After the cascade no sensor of the tenant is left, and every other tenant's sensors are all still visible to it. */
  lemma DeleteCascades(sensors: seq<Sensor>, id: Uuid, other: Uuid)
    requires other != id
    ensures forall x :: x in WithoutTenant(sensors, SensorTenant, id) ==> x.tenantId != id
    ensures Visible(WithoutTenant(sensors, SensorTenant, id), SensorTenant, Text(other)) == Visible(sensors, SensorTenant, Text(other))
  {
    CascadeKeepsOthers(sensors, SensorTenant, id, other);
  }
}
