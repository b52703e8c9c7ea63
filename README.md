# Multi-tenant sensor telemetry on PostgreSQL row-level security — a Dafny model

The system is a Laravel back end over PostgreSQL. Tenants own sensors, and sensors
produce readings. Tenants are isolated by row-level security (RLS): each session stores
the tenant in the setting `app.current_tenant`, and a policy on `sensors` and
`sensor_readings` lets a statement see and write only rows whose `tenant_id` equals that
setting. `sensor_readings` is range-partitioned by month on `created_at`. A migration
creates 24 monthly partitions starting one year back, plus a DEFAULT partition.

The model covers:

- **Calendar** (`calendar.dfy`): months as integers counted from year 0. It covers
  Carbon's `addMonths` with its day overflow, the `Y_m` / `Y-m-01` formats, and the first
  second of each month.
- **Partitions** (`partitions.dfy`): the partition catalog and tuple routing over half-open
  ranges. It also covers `CREATE TABLE IF NOT EXISTS … PARTITION OF`, the DEFAULT
  partition, and the migration's bootstrap loop.
- **Schema** (`schema.dfy`): the rows of the three tables and the uuid text form. It also
  covers the setting (NULL before the first set), the tenant policy's USING and WITH CHECK
  filter, and ENABLE/FORCE row security.
- **Store** (`store.dfy`): one database session as a class. Each statement is atomic, and
  the errors are checked in PostgreSQL's order. The class covers `set_config`/`SET`,
  `RESET`, inserts into each table, and the tenant delete with its `ON DELETE CASCADE`.
- **Http** and **Middleware** (`http.dfy`, `middleware.dfy`): JSON replies, PHP
  truthiness, the `SetTenantContext` middleware, `GET /api/sensors`, and the two scenarios
  of `TenantSecurityTest`.
- **LoadInjector** (`loadinjector.dfy`): the `stress_test_attack` stored procedure.
- **StressController** (`stresscontroller.dfy`): `stats` with its per-tenant two-second
  cache, and `startAttack`.
- **Seeder** (`seeder.dfy`): `DatabaseSeeder::run`, with its 500-row buffered inserts.

Inputs the model does not generate:

- Time is a parameter. Timestamps are whole seconds since 1970-01-01 00:00.
- Random choices (`gen_random_uuid()`, `random()`, `rand()`, `Str::uuid()`, factory
  names) are parameters.
- Whether the database connection is up when the middleware runs `set_config` is a parameter of `Middleware.Handle` and `Middleware.SensorsRequest`.
- Whether the queries of `stats` succeed is a parameter of `StressController.Stats`.
- The measured query time, in milliseconds, is a parameter.

## Model

| member | source | states |
|---|---|---|
| Calendar.AddMonths | backend/database/migrations/2025_12_31_130503_create_sensor_readings_table.php:40 | Carbon's `addMonths` keeps the day when the target month has it; otherwise it lands in the month after, on the day minus the target month's length. The month is exact iff the day fits, and always exact when day ≤ 28 |
| Calendar.DaysIn | backend/database/migrations/2025_12_31_130503_create_sensor_readings_table.php:40-43 | every month has between 28 and 31 days, the bound the overflow of `addMonths` depends on |
| Calendar.MonthStartOrder | backend/database/migrations/2025_12_31_130503_create_sensor_readings_table.php:42-43 | month starts strictly increase, so the `Y-m-01` bounds are ordered |
| Calendar.MonthContaining | backend/database/migrations/2025_12_31_130503_create_sensor_readings_table.php:42-43 | every instant between two month starts lies in exactly one month `[start(m), start(m+1))` |
| Calendar.FormatYmInjective | backend/database/migrations/2025_12_31_130503_create_sensor_readings_table.php:41 | the `Y_m` text of two months is equal iff the months are equal |
| Calendar.PaddedValue | backend/database/migrations/2025_12_31_130503_create_sensor_readings_table.php:41 | zero-padded digits are all decimal digits and read back as the number |
| Partitions.TableTextInjective | backend/database/migrations/2025_12_31_130503_create_sensor_readings_table.php:41 | `sensor_readings_Y_m` names are equal iff they name the same month |
| Partitions.RouteExplicit | backend/database/migrations/2025_12_31_130503_create_sensor_readings_table.php:23 | no range partition is chosen iff none holds the instant; a chosen one holds it |
| Partitions.Route | backend/database/migrations/2025_12_31_130503_create_sensor_readings_table.php:23 | routing gives no partition iff no range holds the instant and there is no default; it gives DEFAULT iff no range holds it and a default exists; otherwise it gives a partition holding it |
| Partitions.HoldsByMonth | backend/database/migrations/2025_12_31_130503_create_sensor_readings_table.php:48 | `FROM (from) TO (to)` is half-open: the start of month m is in it iff from ≤ m < to |
| Partitions.RouteUnique | backend/database/migrations/2025_12_31_130503_create_sensor_readings_table.php:45-49 | in a catalog without overlaps, an instant held by partition i routes to i and to no other |
| Partitions.RouteTotal | backend/database/migrations/2025_12_31_130503_create_sensor_readings_table.php:52-55 | with the DEFAULT partition every instant is routed; it goes to DEFAULT iff no range holds it; at most one range holds it |
| Partitions.CreateIfNotExists | backend/database/migrations/2025_12_31_130503_create_sensor_readings_table.php:45-49 | an existing name is a no-op; otherwise creation succeeds iff the range is non-empty and overlaps no partition, and then appends it |
| Partitions.CreateKeepsWellformed | backend/database/migrations/2025_12_31_130503_create_sensor_readings_table.php:45-49 | successful creation keeps names unique and ranges disjoint |
| Partitions.AttachDefault | backend/database/migrations/2025_12_31_130503_create_sensor_readings_table.php:52-55 | the DEFAULT partition attaches iff none exists yet, and changes nothing else |
| Partitions.LoopPartition | backend/database/migrations/2025_12_31_130503_create_sensor_readings_table.php:40-43 | the i-th partition is named by the month its range starts in, and its range is non-empty |
| Partitions.LoopPartitionBounds | backend/database/migrations/2025_12_31_130503_create_sensor_readings_table.php:40-43 | the i-th partition starts in month start+i or start+i+1 and spans at most two months |
| Partitions.LoopNeverFails | backend/database/migrations/2025_12_31_130503_create_sensor_readings_table.php:39-50 | no `CREATE TABLE IF NOT EXISTS` of the loop ever fails, whatever the start day |
| Partitions.LoopCatalogWellformed | backend/database/migrations/2025_12_31_130503_create_sensor_readings_table.php:39-50 | the loop's partitions have unique names and disjoint ranges, with no default yet |
| Partitions.LoopKeeps | backend/database/migrations/2025_12_31_130503_create_sensor_readings_table.php:39-50 | a partition created in an earlier iteration stays in the catalog |
| Partitions.BootstrapLoop | backend/database/migrations/2025_12_31_130503_create_sensor_readings_table.php:39-55 | the imperative loop plus the default equals the catalog function and yields a well-formed catalog with a default |
| Partitions.Bootstrap | backend/database/migrations/2025_12_31_130503_create_sensor_readings_table.php:38-55 | starting at `now()->subYear()`, the migration succeeds with a well-formed catalog with a default |
| Partitions.LoopCatalogExact | backend/database/migrations/2025_12_31_130503_create_sensor_readings_table.php:39-50 | with start day ≤ 28, the loop creates exactly the consecutive monthly partitions start … start+k−1 |
| Partitions.BootstrapExact | backend/database/migrations/2025_12_31_130503_create_sensor_readings_table.php:38-55 | with today's day ≤ 28, the catalog is the 24 months from twelve months back, plus DEFAULT |
| Partitions.MonthlyWellformed | backend/database/migrations/2025_12_31_130503_create_sensor_readings_table.php:39-50 | consecutive month partitions have unique names and disjoint ranges |
| Partitions.MonthlyContiguous | backend/database/migrations/2025_12_31_130503_create_sensor_readings_table.php:42-43 | each month partition ends where the next begins and holds exactly its month |
| Partitions.RouteMonthly | backend/database/migrations/2025_12_31_130503_create_sensor_readings_table.php:39-55 | inside the 24 months an instant routes to its month's table; outside them it routes to DEFAULT |
| Partitions.MonthBoundary | backend/database/migrations/2025_12_31_130503_create_sensor_readings_table.php:42-43 | the first second of a month goes to that month's table (the ranges are half-open) |
| Partitions.LoopOverflowCreates | backend/database/migrations/2025_12_31_130503_create_sensor_readings_table.php:40-49 | an iteration whose date overflowed still creates its partition, because its name is new |
| Partitions.LoopFirst | backend/database/migrations/2025_12_31_130503_create_sensor_readings_table.php:39-49 | the first iteration creates its partition into the empty catalog |
| Partitions.OctoberCatalogHolds | backend/database/migrations/2025_12_31_130503_create_sensor_readings_table.php:39-50 | starting on October 31, the loop creates both the first partition and the one from the Feb-31 overflow |
| Partitions.OctoberCatalogMisses | backend/database/migrations/2025_12_31_130503_create_sensor_readings_table.php:39-50 | starting on October 31 with a 28-day February ahead, the partition asked for in iteration 5 is never created |
| Partitions.SkippedMonthGap | backend/database/migrations/2025_12_31_130503_create_sensor_readings_table.php:39-50 | when iteration g−2 overflows into a month and covers only it, iteration g−1 asks for the same name over that month and the next, and iteration g starts after them, then iteration g−1 is skipped and every instant of month start+g routes to DEFAULT |
| Partitions.MonthEndLeavesGap | backend/database/migrations/2025_12_31_130503_create_sensor_readings_table.php:38-50 | run on October 31 with a 28-day February ahead, the bootstrap succeeds but every instant of the month six months back routes to DEFAULT |
| Partitions.OctoberJuneSkip | backend/database/migrations/2025_12_31_130503_create_sensor_readings_table.php:39-43 | from October 31 the loop asks for May twice, first over May only and then over May and June |
| Partitions.OctoberNovemberSkip | backend/database/migrations/2025_12_31_130503_create_sensor_readings_table.php:39-43 | from October 31 the loop asks for the next October twice, first over October only and then over October and November |
| Partitions.MonthEndLeavesJuneGap | backend/database/migrations/2025_12_31_130503_create_sensor_readings_table.php:38-50 | run on October 31 of any year, every instant of June, four months back, routes to DEFAULT |
| Partitions.MonthEndLeavesNovemberGap | backend/database/migrations/2025_12_31_130503_create_sensor_readings_table.php:38-50 | run on October 31 of any year, every instant of the coming November routes to DEFAULT |
| Partitions.BootstrapFromMonthStart | backend/database/migrations/2025_12_31_130503_create_sensor_readings_table.php:38-55 | starting from the first of the month a year back, the loop yields exactly the 24 months plus DEFAULT, on any day |
| Partitions.CorrectedBootstrapExact | backend/database/migrations/2025_12_31_130503_create_sensor_readings_table.php:38-55 | the corrected catalog is exactly the 24 consecutive months plus DEFAULT, for every date |
| Schema.NewSensor | backend/database/migrations/2025_12_31_130441_create_sensors_table.php:12-21 | an insert that leaves out `type`/`status` gets 'temperature'/'active'; id, tenant and name are as given |
| Schema.ForcedPolicyBindsOwner | backend/database/migrations/2025_12_31_130441_create_sensors_table.php:24-25 | with FORCE, the policy binds every role without BYPASSRLS, owner included, so for the application's role a row passes iff the policy's comparison holds; without FORCE the owner passes |
| Schema.Visible | backend/database/migrations/2025_12_31_130441_create_sensors_table.php:27-31 | a query sees exactly the rows whose `tenant_id::text` equals the setting, never more rows than exist |
| Schema.VisibleAppend | backend/database/migrations/2025_12_31_130503_create_sensor_readings_table.php:32-36 | the policy filter distributes over appended rows and keeps table order |
| Schema.VisibleOnlyOwn | backend/database/migrations/2025_12_31_130503_create_sensor_readings_table.php:32-36 | under tenant t's setting a row is visible iff it is t's |
| Schema.FailClosed | backend/database/migrations/2025_12_31_130503_create_sensor_readings_table.php:34 | with the setting never set (NULL) no row is visible |
| Schema.NonUuidSeesNothing | backend/database/migrations/2025_12_31_130441_create_sensors_table.php:29 | a setting that is not a uuid's text (such as '' after RESET) sees no row |
| Schema.VisibleAll | backend/database/migrations/2025_12_31_130441_create_sensors_table.php:29 | if every row is tenant t's, t's setting sees all of them, in order |
| Schema.TenantSeesOnlyOwnSensor | backend/tests/Feature/TenantSecurityTest.php:17-32 | with sensors of two different tenants, A's setting sees exactly A's sensor and not B's |
| Schema.PartitionLocalKeysSuffice | backend/database/migrations/2025_12_31_130503_create_sensor_readings_table.php:21-23 | the primary key (id, created_at) that each partition enforces is unique over the whole table |
| Schema.WithoutTenant | backend/database/migrations/2025_12_31_130441_create_sensors_table.php:20 | the cascade keeps exactly the rows of other tenants |
| Schema.CascadeKeepsOthers | backend/database/migrations/2025_12_31_130441_create_sensors_table.php:20 | deleting a tenant changes nothing that any other tenant sees |
| Store.ReadingsAcceptedStep | backend/database/migrations/2025_12_31_130503_create_sensor_readings_table.php:22 | a multi-row insert is accepted iff its first row is, and the rest are accepted with that row's key taken |
| Store.ReadingsError | backend/database/migrations/2025_12_31_130503_create_sensor_readings_table.php:17-35 | an insert into sensor_readings raises no error iff every row fits numeric(8,2), is routed, passes WITH CHECK, and has a key not yet taken |
| Store.NeverUnrouted | backend/database/migrations/2025_12_31_130503_create_sensor_readings_table.php:52-55 | with the DEFAULT partition no insert fails with "no partition found" |
| Store.SensorError | backend/database/migrations/2025_12_31_130441_create_sensors_table.php:12-31 | an insert into sensors succeeds iff it passes WITH CHECK, its id is new and its tenant exists; a foreign tenant's row is a row-security violation |
| Store.WithoutTenantDistinct | backend/database/migrations/2025_12_31_130441_create_sensors_table.php:13 | the cascade keeps primary keys distinct |
| Store.TenantAdded | backend/database/migrations/2025_12_31_130402_create_tenants_table.php:12-17 | a tenant with a new id keeps tenants' and sensors' keys and the foreign key intact |
| Store.SensorAdded | backend/database/migrations/2025_12_31_130441_create_sensors_table.php:12-21 | a sensor with a new id and an existing tenant keeps both keys and the foreign key intact |
| Store.ReadingsAdded | backend/database/migrations/2025_12_31_130503_create_sensor_readings_table.php:17-22 | rows the insert accepts keep the primary key unique and every value within numeric(8,2) |
| Store.TenantRemoved | backend/database/migrations/2025_12_31_130441_create_sensors_table.php:20 | the cascade leaves no sensor without its tenant |
| Store.Database.Migrate | backend/database/migrations/2025_12_31_130503_create_sensor_readings_table.php:12-55 | after the migrations the tables are empty, the setting is unset, and the catalog is the bootstrapped one |
| Store.Database.SetConfig | backend/app/Http/Middleware/SetTenantContext.php:21 | `set_config(..., false)` sets the session's setting and nothing else |
| Store.Database.Reset | backend/database/seeders/DatabaseSeeder.php:65 | `RESET` leaves the setting reading as '' and touches no table |
| Store.Database.InsertTenant | backend/database/migrations/2025_12_31_130402_create_tenants_table.php:12-17 | the insert fails with a unique violation iff the id is taken; otherwise it appends the tenant |
| Store.Database.InsertSensor | backend/database/migrations/2025_12_31_130441_create_sensors_table.php:12-31 | the outcome is SensorError's; on success the sensor is appended and nothing else changes |
| Store.Database.InsertReadings | backend/database/migrations/2025_12_31_130503_create_sensor_readings_table.php:12-36 | the statement is atomic: either all rows are appended with no error, or the first refused row's error is raised and nothing changes |
| Store.Database.DeleteTenant | backend/database/migrations/2025_12_31_130441_create_sensors_table.php:20 | the tenant and all its sensors go, whatever the setting; readings stay |
| Store.DeleteCascades | backend/database/migrations/2025_12_31_130441_create_sensors_table.php:20 | no sensor of the deleted tenant remains, and every other tenant sees the same sensors |
| Middleware.Admission | backend/app/Http/Middleware/SetTenantContext.php:14-18 | a missing, '' or '0' header is refused with 403 "Tenant ID is required for access"; any other value is the tenant, verbatim |
| Middleware.Handle | backend/app/Http/Middleware/SetTenantContext.php:12-27 | falsy header → 403 with no next; set_config failing → 500 with no next; otherwise the setting is the header and the reply is next's, run under it; no table changes |
| Middleware.SensorsReply | backend/routes/api.php:17-19 | the reply is 200 with one JSON object per sensor, in order, each with the keys id, name, type, status, created_at and updated_at but not tenant_id, the two timestamps null |
| Middleware.SensorsRequest | backend/routes/api.php:17-19 | `GET /api/sensors` answers 403 without a header and 500 when `set_config` fails, both with the setting unchanged; otherwise it answers with exactly the sensors the header's tenant sees. No table and no partition changes |
| Middleware.AddTenantWithSensor | backend/tests/Feature/TenantSecurityTest.php:19-24 | creating a tenant, setting it, then creating its sensor succeeds and appends both |
| Middleware.TenantSecuritySetup | backend/tests/Feature/TenantSecurityTest.php:19-25 | the set-up leaves exactly tenant A's sensor followed by tenant B's |
| Middleware.TenantSecurityScenario | backend/tests/Feature/TenantSecurityTest.php:17-38 | with A's header: 200 with exactly one sensor, 'Sensor Exclusivo A'; without a header: 403 |
| LoadInjector.PickIndex | backend/database/migrations/2026_01_08_131105_create_stress_test_procedure.php:28 | `floor(random() * n + 1)` is always a valid 1-based index into the array |
| LoadInjector.ValueCents | backend/database/migrations/2026_01_08_131105_create_stress_test_procedure.php:30 | `(random() * 100)::numeric(8,2)` lies in 0.00..100.00, within half a hundredth of the exact value |
| LoadInjector.SensorIdsOf | backend/database/migrations/2026_01_08_131105_create_stress_test_procedure.php:17-19 | the ids collected are exactly those of the sensors that are visible under the setting and belong to the tenant |
| LoadInjector.FoundImpliesPermitted | backend/database/migrations/2026_01_08_131105_create_stress_test_procedure.php:17-23 | if any sensor is found, the tenant is not NULL and the setting is that tenant's |
| LoadInjector.FoundAreTenants | backend/database/migrations/2026_01_08_131105_create_stress_test_procedure.php:17-19 | every id found is a sensor of the tenant |
| LoadInjector.AttackRows | backend/database/migrations/2026_01_08_131105_create_stress_test_procedure.php:25-33 | exactly max(amount, 0) rows; each has its drawn id, the caller's tenant, a sensor of that tenant, a value in 0..100, and NOW() as both timestamps |
| LoadInjector.OnlyKeyErrors | backend/database/migrations/2026_01_08_131105_create_stress_test_procedure.php:25-33 | rows that fit numeric(8,2) and pass the policy can fail only on a duplicate key |
| LoadInjector.StressTestAttack | backend/database/migrations/2026_01_08_131105_create_stress_test_procedure.php:11-35 | no sensor → "no sensors" exception and no change; otherwise it succeeds iff the rows are accepted and then appends exactly them, and can only fail on a duplicate key |
| LoadInjector.AttackInsertsAll | backend/database/migrations/2026_01_08_131105_create_stress_test_procedure.php:25-33 | with fresh, distinct generated ids, the insert of all max(amount, 0) rows is accepted |
| StressController.TagKeyInjective | backend/app/Http/Controllers/StressController.php:70 | two tenants share a cache tag iff they are the same tenant |
| StressController.RoundHalfUp | backend/app/Http/Controllers/StressController.php:81 | `round(n/d)` is the integer nearest n/d, halves rounded up |
| StressController.RoundHalfUpUnique | backend/app/Http/Controllers/StressController.php:81 | that nearest integer is unique, so this is round() |
| StressController.WriteSpeedClosedForm | backend/app/Http/Controllers/StressController.php:78-81 | `round(count/5)` equals (count+2) div 5 |
| StressController.CountSince | backend/app/Http/Controllers/StressController.php:78 | the count is at most the total; it is zero iff no row is recent enough and the total iff all are; one row counts iff it is recent |
| StressController.CountSinceAppend | backend/app/Http/Controllers/StressController.php:78 | the count of two tables together is the sum of their counts |
| StressController.CountSinceIsCardinality | backend/app/Http/Controllers/StressController.php:78 | the count is the number of positions whose row has created_at ≥ since |
| StressController.RoundHundredths | backend/app/Http/Controllers/StressController.php:82 | `round(x, 2)` is the nearest hundredth, halves away from zero |
| StressController.ComputeSnapshot | backend/app/Http/Controllers/StressController.php:70-85 | total_rows is the number of visible readings; write_speed is the integer nearest recent/5; read_latency_ms is the measured time within half a hundredth of a millisecond |
| StressController.RememberedForTtl | backend/app/Http/Controllers/StressController.php:70 | a remembered snapshot is returned by every read within two seconds and by none after |
| StressController.TenantsNeverShare | backend/app/Http/Controllers/StressController.php:70 | storing one tenant's stats never changes what another tenant's cache read returns |
| StressController.StatsCache.Put | backend/app/Http/Controllers/StressController.php:70 | the entry stored under the tag expires two seconds from now; other tags are untouched |
| StressController.Stats | backend/app/Http/Controllers/StressController.php:62-88 | falsy header → 400 "X-Tenant-ID header required" and no query; live cache entry → it is returned and no query runs; otherwise, when a query throws, 500 and nothing is cached; when the queries succeed, the snapshot is computed under the session's setting, stored for two seconds and returned, with write_speed and read_latency_ms as PHP floats |
| StressController.CastTenant | backend/app/Http/Controllers/StressController.php:58 | a missing header binds NULL; a header binds iff its text with A-F lower-cased is a canonical uuid, and then binds that text; any other header fails the cast |
| StressController.StartAttack | backend/app/Http/Controllers/StressController.php:53-60 | amount defaults to 100; if the casts succeed the procedure is called once; success gives 200 `{"status":"Attack launched!","rows":amount}` and exactly the generated rows; any failure gives 500 and no change |
| Seeder.Chunks | backend/database/seeders/DatabaseSeeder.php:43-61 | the buffer's inserts concatenate back to the rows, and each holds between 1 and 500 |
| Seeder.FlattenAppend | backend/database/seeders/DatabaseSeeder.php:53-61 | the rows of two runs of inserts are the rows of each, in order |
| Seeder.ChunksOfBatches | backend/database/seeders/DatabaseSeeder.php:53-61 | full 500-row inserts followed by a shorter remainder are exactly the chunks of the rows |
| Seeder.ChunksExact | backend/database/seeders/DatabaseSeeder.php:53-56 | a multiple of 500 rows goes in that many full inserts |
| Seeder.SensorBatches | backend/database/seeders/DatabaseSeeder.php:32-61 | a sensor's 10000 rows go in exactly 20 inserts of 500 each |
| Seeder.SensorOf | backend/database/factories/SensorFactory.php:20-25 | the seeded sensor belongs to the seeded tenant and carries its generated id |
| Seeder.SensorRows | backend/database/seeders/DatabaseSeeder.php:43-51 | `count` rows; row i is generated reading i |
| Seeder.SensorRowsShape | backend/database/seeders/DatabaseSeeder.php:44-51 | each row has the tenant and sensor, a value in 20.00..50.00, created_at = now − i minutes, updated_at = now; created_at strictly decreases |
| Seeder.TenantRowsCount | backend/database/seeders/DatabaseSeeder.php:41-43 | a tenant with k sensors gets k·10000 readings |
| Seeder.AllRowsCount | backend/database/seeders/DatabaseSeeder.php:30-43 | m tenants get m·5·10000 readings (100000 for two) |
| Seeder.AllRowsOwned | backend/database/seeders/DatabaseSeeder.php:36-51 | every seeded reading belongs to a seeded tenant and to a sensor of that same tenant |
| Seeder.Push | backend/database/seeders/DatabaseSeeder.php:44-56 | the row is buffered; a buffer reaching 500 rows is inserted and emptied |
| Seeder.BufferRows | backend/database/seeders/DatabaseSeeder.php:42-57 | after the loop, the full inserts plus the buffer are exactly the generated rows; the buffer holds fewer than 500 |
| Seeder.SeedSensorReadings | backend/database/seeders/DatabaseSeeder.php:42-61 | on success the inserts are exactly the 500-row chunks of the sensor's rows, and the table grows by exactly them |
| Seeder.CreateSensors | backend/database/seeders/DatabaseSeeder.php:39 | on success the tenant's five sensors are appended in order |
| Seeder.SeedTenant | backend/database/seeders/DatabaseSeeder.php:36-62 | on success the setting is the tenant's, its five sensors are appended, and its 50000 readings are inserted in order |
| Seeder.CreateTenants | backend/database/seeders/DatabaseSeeder.php:34 | on success the two tenants are appended in order |
| Seeder.Run | backend/database/seeders/DatabaseSeeder.php:20-66 | on success the tables grow by exactly the seeded tenants, sensors and readings, no insert exceeds 500 rows, and the setting ends as '' |

## Left out

- The frontend (`frontend/app/_layout.tsx`), the Eloquent models, `SensorReadingFactory`, the `down()` migrations and the indexes (lines 26-27). They do not change what any statement returns.
- Concurrency. Each session is one `Database` object, so no connection pool or parallel requests are modelled.
- Timestamps are whole seconds. The rounding of `NOW()` to `timestamp(0)` and time zones are not modelled.
- The seeder's `now()` is one frozen instant.
- `random()` is a real in [0, 1). Floating-point rounding of `random() * n` is not modelled.
- PHP's `rand(2000, 5000) / 100` is an exact number of hundredths.
- A uuid is held as its canonical lower-case text. Other spellings PostgreSQL's uuid input accepts are not modelled: braces, no hyphens, or hyphens every four digits. `CastTenant` accepts only the 36-character form, in either case.
- `ARRAY_AGG(id)` is taken in table order. PostgreSQL does not promise an order, and the model relies on none. Only the set of ids matters for what is proved.
- The `avg` query in `stats` is not modelled beyond its timing: its result is unused, and its measured duration is the `elapsedMs` parameter of `StressController.Stats`.
- The cache store's internals (the Redis driver and tag namespaces) are not modelled. The cache is a map from the tenant's tag to an entry with an expiry second.
- `SetTenantContext` only passes `next(request)` through. The rest of the request is modelled as a function of the setting it runs under.
- `routes/api.php` shows only `/sensors` behind the middleware. `stats` and `startAttack` are modelled on whatever setting the session already holds.
- The `tenants` table has no row security; its policy is commented out. Inserting a tenant is checked only against its primary key.
- The timestamp columns of `tenants` are not modelled, because no statement reads them.
- The timestamp columns of `sensors` are not held in `Schema.Sensor`. `Sensor` sets `$timestamps = false` and every sensor is inserted through it, so both stay NULL. They appear only as the two null keys of each object in the `/api/sensors` reply (`Middleware.SensorJson`).
- Store.Database: every statement is filtered by the policy's comparison, so the application's role is taken to own the tables and to be neither a superuser nor BYPASSRLS. No role configuration is part of this model, and under a superuser or BYPASSRLS role every row would pass (`Schema.ForcedPolicyBindsOwner` states the dependence on the role).
- StressController.StartAttack: `amount` is an integer or absent. A request body whose `amount` is JSON null, a string or a float is not modelled. For example, `{"amount": null}` binds NULL, `generate_series(1, NULL)` inserts nothing, and the reply carries `"rows": null`.
- StressController.SnapshotReply: `write_speed` and `read_latency_ms` are PHP floats, held as exact decimals (`Http.JFloat`). Binary floating-point error in `microtime`, the division and `round`, and the digits `json_encode` prints, are not modelled.
- Seeder.Run: its success is stated, not proved. The contract says what the tables hold when every insert succeeds. It does not prove the inserts succeed, because that depends on the generated uuids being fresh, which the model does not assume.
- StressController.StartAttack: `AttackReply` echoes the requested amount even when it is zero or negative and no row is inserted, as the code does.

Where the code and the design text disagree, the model follows the code:

- `sensor_readings` has no foreign key to `sensors` or `tenants`. Deleting a tenant therefore leaves its readings in place (`Store.Database.DeleteTenant`).
- `total_rows` counts every reading the session's setting makes visible. It has no time filter.
- `startAttack` defaults `amount` to 100; the comment beside it says 10000.
- `SensorFactory` gives seeded sensors the type 'fuel_pump', not the column default 'temperature'.
- `RESET app.current_tenant` leaves the setting reading as '' rather than NULL. A session after the seeder therefore runs with '' and sees nothing (`Schema.NonUuidSeesNothing`).

## Findings

| source | as written | input that shows it | evidently intended | confidence | as-written member | corrected member |
|---|---|---|---|---|---|---|
| backend/database/migrations/2025_12_31_130503_create_sensor_readings_table.php:38-43 | The loop starts from `now()->subYear()` and steps with `addMonths($i)`, which overflows the day. From a 31st, an iteration into a shorter month lands in the month after it, and the next iteration asks for that same table again, which `IF NOT EXISTS` skips. | Migrating on October 31 with a 28-day February ahead. The loop never creates the table of the month six months back (April). Run on October 31 of any year, whatever February holds, it also never creates the tables of June (four months back) and of the coming November. All of those months' readings fall into DEFAULT. | 24 consecutive monthly partitions starting twelve months back, on any day of the month (for example, stepping from the first of the month) | not executed | Partitions.MonthEndLeavesGap, Partitions.MonthEndLeavesJuneGap, Partitions.MonthEndLeavesNovemberGap | Partitions.BootstrapFromMonthStart, Partitions.CorrectedBootstrapExact |
