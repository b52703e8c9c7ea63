/**
 * The tenant-scoped tables (tenants, sensors, sensor_readings) and their
 * row-level security: both tenant tables carry the policy
 *   USING (tenant_id::text = current_setting('app.current_tenant', true))
 *   WITH CHECK (the same comparison)
 * with row level security ENABLEd and FORCEd.
 */
module Schema {
  import opened Wrappers
  import opened Calendar
  import opened Partitions

  predicate IsLowerHex(c: char) {
    '0' <= c <= '9' || 'a' <= c <= 'f'
  }

  predicate IsHyphenPosition(i: int) {
    i == 8 || i == 13 || i == 18 || i == 23
  }

  /** The text PostgreSQL gives a uuid (uuid::text): groups of 8-4-4-4-12 lower-case hex digits. */
  predicate IsUuidText(s: string) {
    |s| == 36 && forall i :: 0 <= i < |s| ==> (if IsHyphenPosition(i) then s[i] == '-' else IsLowerHex(s[i]))
  }

  /** A uuid column value, held as its text form, which is what the policies compare. */
  type Uuid = s: string | IsUuidText(s) witness "00000000-0000-0000-0000-000000000000"

  /**
   * app.current_tenant as current_setting('app.current_tenant', true) returns it:
   * NULL (Undefined) while the session has never set it, otherwise its text.
   */
  datatype Setting = Undefined | Text(value: string)

  /**
   * The policy's comparison tenant_id::text = current_setting(...). Against NULL the
   * comparison is NULL, which a policy treats as false.
   */
  predicate Permits(s: Setting, tenant: Uuid) {
    s.Text? && s.value == tenant
  }

  /** ALTER TABLE ... ENABLE / FORCE ROW LEVEL SECURITY. */
  datatype RowSecurity = RowSecurity(enabled: bool, forced: bool)

  /** Both sensors and sensor_readings enable and force row level security. */
  const TenantTables := RowSecurity(true, true)

  /** The role a query runs as: whether it owns the table and whether it has BYPASSRLS (or is a superuser). */
  datatype Role = Role(isOwner: bool, bypassRls: bool)

  /** Whether the policies filter the role's queries: owners are exempt unless the table forces row security. */
  predicate PolicyApplies(rs: RowSecurity, role: Role) {
    rs.enabled && !role.bypassRls && (rs.forced || !role.isOwner)
  }

  /** Whether a row of the given tenant passes row security (for USING and WITH CHECK alike). */
  predicate RowAllowed(rs: RowSecurity, role: Role, s: Setting, tenant: Uuid) {
    !PolicyApplies(rs, role) || Permits(s, tenant)
  }

  /**
   * The role the application connects as. It runs the migrations, so it owns the
   * tables; the model takes it to be neither a superuser nor BYPASSRLS.
   */
  const AppRole := Role(true, false)

  /**
   * Because the tenant tables force row security, the policy binds every role without
   * BYPASSRLS, the tables' owner included: for such a role a row passes exactly when the
   * policy's comparison holds. For the application's role this is why every statement of
   * the Store filters by Permits alone; without FORCE the owner would pass every row.
   */
  lemma ForcedPolicyBindsOwner(role: Role, s: Setting, tenant: Uuid)
    requires !role.bypassRls
    ensures RowAllowed(TenantTables, role, s, tenant) <==> Permits(s, tenant)
    ensures RowAllowed(TenantTables, AppRole, s, tenant) <==> Permits(s, tenant)
    ensures RowAllowed(RowSecurity(true, false), AppRole, s, tenant)
  {
  }

  datatype Tenant = Tenant(id: Uuid, name: string, planType: string)

  /** A sensors row; `kind` is the column `type`. */
  datatype Sensor = Sensor(id: Uuid, tenantId: Uuid, name: string, kind: string, status: string)

  /** An INSERT into sensors; a column the statement leaves out takes its default. */
  function NewSensor(id: Uuid, tenantId: Uuid, name: string, kind: Option<string>, status: Option<string>): (s: Sensor)
    ensures s.id == id && s.tenantId == tenantId && s.name == name
    ensures s.kind == (if kind.Some? then kind.value else "temperature")
    ensures s.status == (if status.Some? then status.value else "active")
  {
    Sensor(id, tenantId, name,
           match kind case Some(k) => k case None => "temperature",
           match status case Some(v) => v case None => "active")
  }

  /** A sensor_readings row; the numeric(8,2) value is held in hundredths, timestamp(0) values in seconds. */
  datatype Reading = Reading(id: Uuid, sensorId: Uuid, tenantId: Uuid, cents: int, createdAt: int, updatedAt: int)

  /** PRIMARY KEY (id, created_at): the partition key is part of the key. */
  datatype ReadingKey = ReadingKey(id: Uuid, createdAt: int)

  function Key(r: Reading): ReadingKey {
    ReadingKey(r.id, r.createdAt)
  }

  /** numeric(8,2) holds at most 6 digits before the point: |value| < 10^6, i.e. |cents| < 10^8. */
  const NumericLimit := 100000000

  predicate FitsNumeric(cents: int) {
    -NumericLimit < cents < NumericLimit
  }

  function SensorTenant(s: Sensor): Uuid {
    s.tenantId
  }

  function ReadingTenant(r: Reading): Uuid {
    r.tenantId
  }

  /** The rows of a tenant table a query sees under the setting s: the policy's USING filter, in table order. */
  function Visible<T(!new)>(rows: seq<T>, tenantOf: T -> Uuid, s: Setting): (v: seq<T>)
    ensures |v| <= |rows|
    ensures forall x :: x in v <==> x in rows && Permits(s, tenantOf(x))
  {
    if rows == [] then []
    else
      var rest := Visible(rows[1..], tenantOf, s);
      assert forall x :: x in rows <==> x == rows[0] || x in rows[1..];
      (if Permits(s, tenantOf(rows[0])) then [rows[0]] else []) + rest
  }

  lemma AppendAssoc<T>(a: seq<T>, b: seq<T>, c: seq<T>)
    ensures (a + b) + c == a + (b + c)
  {
  }

  /** The filter distributes over appended rows, so it keeps table order. */
  lemma {:induction false} VisibleAppend<T(!new)>(a: seq<T>, b: seq<T>, tenantOf: T -> Uuid, s: Setting)
    ensures Visible(a + b, tenantOf, s) == Visible(a, tenantOf, s) + Visible(b, tenantOf, s)
  {
    if a != [] {
      var h := if Permits(s, tenantOf(a[0])) then [a[0]] else [];
      assert (a + b)[0] == a[0] && (a + b)[1..] == a[1..] + b;
      assert Visible(a + b, tenantOf, s) == h + Visible(a[1..] + b, tenantOf, s);
      assert Visible(a, tenantOf, s) == h + Visible(a[1..], tenantOf, s);
      VisibleAppend(a[1..], b, tenantOf, s);
      AppendAssoc(h, Visible(a[1..], tenantOf, s), Visible(b, tenantOf, s));
    } else {
      assert a + b == b;
    }
  }

  /** A query sees a row exactly when it is the setting's tenant's. */
  lemma VisibleOnlyOwn<T(!new)>(rows: seq<T>, tenantOf: T -> Uuid, t: Uuid)
    ensures forall x :: x in Visible(rows, tenantOf, Text(t)) <==> x in rows && tenantOf(x) == t
  {
  }

  /** Fail-closed: without any setting, no row is visible. */
  lemma FailClosed<T(!new)>(rows: seq<T>, tenantOf: T -> Uuid)
    ensures Visible(rows, tenantOf, Undefined) == []
  {
  }

  /** A setting that is not the text of a uuid (such as '' after RESET) shows no row either. */
  lemma NonUuidSeesNothing<T(!new)>(rows: seq<T>, tenantOf: T -> Uuid, text: string)
    requires !IsUuidText(text)
    ensures Visible(rows, tenantOf, Text(text)) == []
  {
  }

  /** With every row its tenant's, a tenant's setting shows all of them. */
  lemma {:induction false} VisibleAll<T(!new)>(rows: seq<T>, tenantOf: T -> Uuid, t: Uuid)
    requires forall i :: 0 <= i < |rows| ==> tenantOf(rows[i]) == t
    ensures Visible(rows, tenantOf, Text(t)) == rows
  {
    if rows != [] {
      VisibleAll(rows[1..], tenantOf, t);
    }
  }

  /**
   * The sensors of TenantSecurityTest: tenant A's sensor and then tenant B's. Under A's setting
   * the query sees A's sensor and not B's.
   */
  lemma TenantSeesOnlyOwnSensor(a: Sensor, b: Sensor)
    requires a.tenantId != b.tenantId
    ensures Visible([a, b], SensorTenant, Text(a.tenantId)) == [a]
    ensures b !in Visible([a, b], SensorTenant, Text(a.tenantId))
  {
    assert [a, b][1..] == [b];
    assert [b][1..] == [];
  }

  /** The keys of a set of readings. */
  function KeysOf(rows: seq<Reading>): set<ReadingKey> {
    set r | r in rows :: Key(r)
  }

  predicate KeysDistinct(rows: seq<Reading>) {
    forall i, j :: 0 <= i < j < |rows| ==> Key(rows[i]) != Key(rows[j])
  }

  /**
   * PostgreSQL enforces a partitioned table's primary key inside each partition.
   * Keys distinct among the rows that share a partition are distinct overall, because equal keys
   * have equal created_at and so share a partition. This is why the Store checks the key
   * against the whole table (KeysDistinct) rather than partition by partition.
   */
  lemma PartitionLocalKeysSuffice(c: Catalog, rows: seq<Reading>)
    requires forall i, j :: 0 <= i < j < |rows| && Route(c, rows[i].createdAt) == Route(c, rows[j].createdAt) ==>
               Key(rows[i]) != Key(rows[j])
    ensures KeysDistinct(rows)
  {
  }

  /** The rows a delete of tenant `id` leaves: ON DELETE CASCADE removes every row of that tenant. */
  function WithoutTenant<T(!new)>(rows: seq<T>, tenantOf: T -> Uuid, id: Uuid): (r: seq<T>)
    ensures |r| <= |rows|
    ensures forall x :: x in r <==> x in rows && tenantOf(x) != id
  {
    if rows == [] then []
    else
      var rest := WithoutTenant(rows[1..], tenantOf, id);
      assert forall x :: x in rows <==> x == rows[0] || x in rows[1..];
      (if tenantOf(rows[0]) != id then [rows[0]] else []) + rest
  }

  /** The cascade leaves the other tenants' rows as every setting sees them. */
  lemma {:induction false} CascadeKeepsOthers<T(!new)>(rows: seq<T>, tenantOf: T -> Uuid, id: Uuid, t: Uuid)
    requires t != id
    ensures Visible(WithoutTenant(rows, tenantOf, id), tenantOf, Text(t)) == Visible(rows, tenantOf, Text(t))
  {
    if rows != [] {
      var x, rest := rows[0], rows[1..];
      var kept := if tenantOf(x) != id then [x] else [];
      assert rows == [x] + rest;
      assert [x][1..] == [];
      assert WithoutTenant(rows, tenantOf, id) == kept + WithoutTenant(rest, tenantOf, id);
      VisibleAppend(kept, WithoutTenant(rest, tenantOf, id), tenantOf, Text(t));
      VisibleAppend([x], rest, tenantOf, Text(t));
      CascadeKeepsOthers(rest, tenantOf, id, t);
    }
  }
}
