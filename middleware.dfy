/**
 * SetTenantContext: the middleware in front of the tenant routes. It refuses a
 * request without a tenant header, otherwise stores the header in the session
 * setting app.current_tenant (session scope, is_local = false) and lets the
 * request through.
 */
module Middleware {
  import opened Wrappers
  import opened Calendar
  import opened Schema
  import opened Store
  import opened Http

  const MissingTenant := "Tenant ID is required for access"
  const ConnectionError := "Database connection error"

  /** What the middleware does with a request, before the database is touched. */
  datatype Gate = Refuse(response: Response) | Admit(tenant: string)

  /** A request whose header PHP reads as false is refused with 403; any other header value is the tenant, verbatim. */
  function Admission(header: Option<string>): (g: Gate)
    ensures g.Admit? <==> header.Some? && header.value != "" && header.value != "0"
    ensures g.Refuse? ==> g.response == ErrorReply(403, MissingTenant)
    ensures g.Admit? ==> g.tenant == header.value
  {
    if Falsy(header) then Refuse(ErrorReply(403, MissingTenant)) else Admit(header.value)
  }

  /**
   * SetTenantContext::handle. `connected` says whether the set_config statement runs;
   * when it throws, the reply is 500. `next` is the rest of the request, as a function
   * of the setting it runs under. Returns the reply and whether `next` ran.
   */
  method Handle(db: Database, header: Option<string>, connected: bool, next: Setting -> Response)
    returns (resp: Response, nextCalled: bool)
    requires db.Valid()
    modifies db
    ensures db.Valid()
    ensures Falsy(header) ==> resp == ErrorReply(403, MissingTenant) && !nextCalled && db.setting == old(db.setting)
    ensures !Falsy(header) && !connected ==>
              resp == ErrorReply(500, ConnectionError) && !nextCalled && db.setting == old(db.setting)
    ensures !Falsy(header) && connected ==>
              nextCalled && db.setting == Text(header.value) && resp == next(Text(header.value))
    ensures db.tenants == old(db.tenants) && db.sensors == old(db.sensors)
    ensures db.readings == old(db.readings) && db.catalog == old(db.catalog)
  {
    match Admission(header)
    case Refuse(r) =>
      return r, false;
    case Admit(tenant) =>
      if !connected {
        return ErrorReply(500, ConnectionError), false;
      }
      db.SetConfig(tenant);
      resp := next(db.setting);
      nextCalled := true;
  }

  /**
   * A sensor as Sensor::all() serialises it, columns in table order: tenant_id is a hidden
   * attribute, and created_at and updated_at are NULL, since the model sets $timestamps = false
   * and every sensor is inserted through it.
   */
  function SensorJson(x: Sensor): Json {
    JObject([("id", JString(x.id)), ("name", JString(x.name)), ("type", JString(x.kind)), ("status", JString(x.status)),
             ("created_at", JNull), ("updated_at", JNull)])
  }

  /** The keys each serialised sensor carries: every column but tenant_id. */
  const SensorKeys := ["id", "name", "type", "status", "created_at", "updated_at"]

  function SensorsReply(xs: seq<Sensor>): (r: Response)
    ensures r.status == 200 && r.body.JArray? && |r.body.items| == |xs|
    ensures forall i :: 0 <= i < |xs| ==> r.body.items[i] == SensorJson(xs[i])
    ensures forall i :: 0 <= i < |xs| ==>
              && r.body.items[i].JObject? && |r.body.items[i].fields| == |SensorKeys|
              && (forall k :: 0 <= k < |SensorKeys| ==> r.body.items[i].fields[k].0 == SensorKeys[k])
              && r.body.items[i].fields[0].1 == JString(xs[i].id) && r.body.items[i].fields[1].1 == JString(xs[i].name)
              && r.body.items[i].fields[2].1 == JString(xs[i].kind) && r.body.items[i].fields[3].1 == JString(xs[i].status)
              && r.body.items[i].fields[4].1 == JNull && r.body.items[i].fields[5].1 == JNull
    ensures "tenant_id" !in SensorKeys
  {
    Response(200, JArray(seq(|xs|, i requires 0 <= i < |xs| => SensorJson(xs[i]))))
  }

  /**
   * GET /api/sensors behind the middleware: Sensor::all() under the setting the
   * middleware leaves. A tenant's request sees exactly that tenant's sensors.
   */
  method SensorsRequest(db: Database, header: Option<string>, connected: bool) returns (resp: Response)
    requires db.Valid()
    modifies db
    ensures db.Valid()
    ensures Falsy(header) ==> resp == ErrorReply(403, MissingTenant) && db.setting == old(db.setting)
    ensures !Falsy(header) && !connected ==> resp == ErrorReply(500, ConnectionError) && db.setting == old(db.setting)
    ensures !Falsy(header) && connected ==>
              db.setting == Text(header.value) && resp == SensorsReply(Visible(db.sensors, SensorTenant, db.setting))
    ensures db.tenants == old(db.tenants) && db.sensors == old(db.sensors)
    ensures db.readings == old(db.readings) && db.catalog == old(db.catalog)
  {
    var table := db.sensors;
    var called;
    resp, called := Handle(db, header, connected, (s: Setting) => SensorsReply(Visible(table, SensorTenant, s)));
  }

  /** One tenant of TenantSecurityTest: create the tenant, set_config to it, create its sensor. */
  method AddTenantWithSensor(db: Database, t: Tenant, x: Sensor)
    requires db.Valid() && x.tenantId == t.id
    requires !HasId(db.tenants, TenantId, t.id) && !HasId(db.sensors, SensorId, x.id)
    modifies db
    ensures db.Valid()
    ensures db.tenants == old(db.tenants) + [t] && db.sensors == old(db.sensors) + [x]
    ensures db.setting == Text(t.id) && db.readings == old(db.readings)
  {
    var r := db.InsertTenant(t);
    db.SetConfig(t.id);
    assert HasId(db.tenants, TenantId, t.id) by {
      assert db.tenants[|db.tenants| - 1].id == t.id;
    }
    r := db.InsertSensor(x);
  }

  /** The test's sensor of a tenant, as SensorFactory fills it in. */
  function TestSensor(id: Uuid, t: Tenant, name: string): Sensor {
    NewSensor(id, t.id, name, Some("fuel_pump"), Some("active"))
  }

  /** The set-up of TenantSecurityTest: tenant A and its sensor under A's setting, then the same for B. */
  method TenantSecuritySetup(now: Date, a: Tenant, b: Tenant, idA: Uuid, idB: Uuid) returns (db: Database)
    requires ValidDate(now) && a.id != b.id && idA != idB
    ensures fresh(db) && db.Valid()
    ensures db.sensors == [TestSensor(idA, a, "Sensor Exclusivo A"), TestSensor(idB, b, "Sensor Exclusivo B")]
  {
    db := new Database.Migrate(now);
    var sensorA := TestSensor(idA, a, "Sensor Exclusivo A");
    var sensorB := TestSensor(idB, b, "Sensor Exclusivo B");
    AddTenantWithSensor(db, a, sensorA);
    assert db.tenants == [a] && db.sensors == [sensorA];
    assert !HasId(db.tenants, TenantId, b.id) by {
      assert forall i :: 0 <= i < |db.tenants| ==> db.tenants[i] == a;
    }
    assert !HasId(db.sensors, SensorId, idB) by {
      assert forall i :: 0 <= i < |db.sensors| ==> db.sensors[i] == sensorA;
    }
    AddTenantWithSensor(db, b, sensorB);
  }

  /**
   * TenantSecurityTest: after the set-up, a request with A's header gets 200 with A's
   * sensor and not B's, and a request without the header gets 403.
   */
  method TenantSecurityScenario(now: Date, a: Tenant, b: Tenant, idA: Uuid, idB: Uuid)
    returns (withHeader: Response, seen: seq<Sensor>, withoutHeader: Response)
    requires ValidDate(now) && a.id != b.id && idA != idB
    ensures withHeader == SensorsReply(seen) && withHeader.status == 200
    ensures |seen| == 1 && seen[0].name == "Sensor Exclusivo A"
    ensures withoutHeader.status == 403
  {
    var db := TenantSecuritySetup(now, a, b, idA, idB);
    withHeader := SensorsRequest(db, Some(a.id), true);
    seen := Visible(db.sensors, SensorTenant, db.setting);
    TenantSeesOnlyOwnSensor(db.sensors[0], db.sensors[1]);
    withoutHeader := SensorsRequest(db, None, true);
  }
}
