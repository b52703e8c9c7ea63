/**
 * Range partitioning of sensor_readings by created_at: the bootstrap that
 * creates the monthly partitions, PostgreSQL's CREATE TABLE ... IF NOT EXISTS
 * ... PARTITION OF rule, and the routing of a row to its partition.
 *
 * A partition's bounds are first-of-month dates, so they are held as month
 * indices; an explicit partition holds the instants
 * [MonthStart(from), MonthStart(to)), lower bound included, upper bound excluded.
 */
module Partitions {
  import opened Wrappers
  import opened Calendar

  /** The loop creates partitions for this many months, counted from one year before now. */
  const HorizonMonths := 24

  /**
   * The name of a monthly partition, 'sensor_readings_' . $date->format('Y_m')
   * for a date in month m, kept as the month it is formed from; TableText
   * spells it out.
   */
  datatype TableName = MonthTable(month: int)

  function TableText(n: TableName): string {
    "sensor_readings_" + FormatYm(n.month)
  }

  /** Each month has its own table name, so comparing names is comparing their texts. */
  lemma TableTextInjective(a: TableName, b: TableName)
    ensures TableText(a) == TableText(b) <==> a == b
  {
    if TableText(a) == TableText(b) {
      assert TableText(a)[16..] == FormatYm(a.month);
      assert TableText(b)[16..] == FormatYm(b.month);
      FormatYmInjective(a.month, b.month);
    }
  }

  /** An explicit partition FOR VALUES FROM (first day of month `from`) TO (first day of month `to`). */
  datatype Partition = Partition(name: TableName, from: int, to: int)

  /** The partitions of sensor_readings, in creation order, and whether the DEFAULT partition exists. */
  datatype Catalog = Catalog(parts: seq<Partition>, hasDefault: bool)

  predicate Holds(p: Partition, t: int) {
    MonthStart(p.from) <= t < MonthStart(p.to)
  }

  lemma HoldsByMonth(p: Partition, m: int)
    ensures Holds(p, MonthStart(m)) <==> p.from <= m < p.to
  {
    MonthStartOrder(p.from, m);
    MonthStartOrder(m, p.to);
  }

  /** Where PostgreSQL puts a row: the explicit partition whose range holds its created_at, or the default one. */
  datatype Target = Explicit(name: TableName) | DefaultPartition

  function RouteExplicit(parts: seq<Partition>, t: int): (r: Option<TableName>)
    ensures r.None? <==> forall i :: 0 <= i < |parts| ==> !Holds(parts[i], t)
    ensures r.Some? ==> exists i :: 0 <= i < |parts| && parts[i].name == r.value && Holds(parts[i], t)
  {
    if parts == [] then None
    else if Holds(parts[0], t) then Some(parts[0].name)
    else
      var r := RouteExplicit(parts[1..], t);
      assert forall i :: 1 <= i < |parts| ==> parts[i] == parts[1..][i - 1];
      r
  }

  /** The partition a row with created_at = t goes to; None when there is none (the insert then fails). */
  function Route(c: Catalog, t: int): (r: Option<Target>)
    ensures r.None? <==> !c.hasDefault && forall i :: 0 <= i < |c.parts| ==> !Holds(c.parts[i], t)
    ensures r == Some(DefaultPartition) <==> c.hasDefault && forall i :: 0 <= i < |c.parts| ==> !Holds(c.parts[i], t)
    ensures r.Some? && r.value.Explicit? ==>
      exists i :: 0 <= i < |c.parts| && c.parts[i].name == r.value.name && Holds(c.parts[i], t)
  {
    match RouteExplicit(c.parts, t)
    case Some(n) => Some(Explicit(n))
    case None => if c.hasDefault then Some(DefaultPartition) else None
  }

  predicate Overlap(p: Partition, q: Partition) {
    p.from < q.to && q.from < p.to
  }

  /** What PostgreSQL keeps true of a partitioned table: unique names, non-empty and non-overlapping ranges. */
  predicate Wellformed(parts: seq<Partition>) {
    && (forall i :: 0 <= i < |parts| ==> parts[i].from < parts[i].to)
    && (forall i, j :: 0 <= i < j < |parts| ==> parts[i].name != parts[j].name && !Overlap(parts[i], parts[j]))
  }

  /** Ranges that do not overlap share no instant. */
  lemma NoSharedInstant(p: Partition, q: Partition, t: int)
    requires !Overlap(p, q) && Holds(p, t)
    ensures !Holds(q, t)
  {
    if Holds(q, t) {
      MonthStartOrder(p.from, q.to);
      MonthStartOrder(q.from, p.to);
    }
  }

  /** In a well-formed table every timestamp lies in at most one explicit partition, which is where it is routed. */
  lemma RouteUnique(c: Catalog, i: int, t: int)
    requires Wellformed(c.parts) && 0 <= i < |c.parts| && Holds(c.parts[i], t)
    ensures Route(c, t) == Some(Explicit(c.parts[i].name))
    ensures forall j :: 0 <= j < |c.parts| && Holds(c.parts[j], t) ==> j == i
  {
    forall j | 0 <= j < |c.parts| && Holds(c.parts[j], t) ensures j == i {
      if j < i {
        NoSharedInstant(c.parts[j], c.parts[i], t);
      } else if i < j {
        NoSharedInstant(c.parts[i], c.parts[j], t);
      }
    }
  }

  /** With the default partition present, every timestamp goes to exactly one partition. */
  lemma RouteTotal(c: Catalog, t: int)
    requires Wellformed(c.parts) && c.hasDefault
    ensures Route(c, t).Some?
    ensures Route(c, t) == Some(DefaultPartition) <==> forall i :: 0 <= i < |c.parts| ==> !Holds(c.parts[i], t)
    ensures forall i, j :: 0 <= i < |c.parts| && 0 <= j < |c.parts| && Holds(c.parts[i], t) && Holds(c.parts[j], t) ==> i == j
  {
    forall i, j | 0 <= i < |c.parts| && 0 <= j < |c.parts| && Holds(c.parts[i], t) && Holds(c.parts[j], t)
      ensures i == j
    {
      RouteUnique(c, i, t);
    }
  }

  datatype DdlError = EmptyRange(name: TableName) | OverlapsPartition(name: TableName) | DefaultExists

  predicate NameTaken(parts: seq<Partition>, name: TableName) {
    exists i :: 0 <= i < |parts| && parts[i].name == name
  }

  predicate OverlapsAny(parts: seq<Partition>, p: Partition) {
    exists i :: 0 <= i < |parts| && Overlap(parts[i], p)
  }

  /**
   * CREATE TABLE IF NOT EXISTS name PARTITION OF sensor_readings FOR VALUES FROM .. TO ..:
   * an existing name is a no-op (checked first); otherwise an empty range or an
   * overlap with an existing partition is an error, and a new partition is added last.
   */
  function CreateIfNotExists(c: Catalog, p: Partition): (r: Result<Catalog, DdlError>)
    ensures NameTaken(c.parts, p.name) ==> r == Success(c)
    ensures !NameTaken(c.parts, p.name) ==> (r.Success? <==> p.from < p.to && !OverlapsAny(c.parts, p))
    ensures !NameTaken(c.parts, p.name) && r.Success? ==> r.value == Catalog(c.parts + [p], c.hasDefault)
  {
    if NameTaken(c.parts, p.name) then Success(c)
    else if p.from >= p.to then Failure(EmptyRange(p.name))
    else if OverlapsAny(c.parts, p) then Failure(OverlapsPartition(p.name))
    else Success(Catalog(c.parts + [p], c.hasDefault))
  }

  /** A successful CREATE keeps the partitions well formed. */
  lemma CreateKeepsWellformed(c: Catalog, p: Partition)
    requires Wellformed(c.parts) && CreateIfNotExists(c, p).Success?
    ensures Wellformed(CreateIfNotExists(c, p).value.parts)
  {
    if !NameTaken(c.parts, p.name) {
      var parts := c.parts + [p];
      assert forall i :: 0 <= i < |c.parts| ==> parts[i] == c.parts[i];
    }
  }

  /** CREATE TABLE sensor_readings_default PARTITION OF sensor_readings DEFAULT (no IF NOT EXISTS). */
  function AttachDefault(c: Catalog): (r: Result<Catalog, DdlError>)
    ensures r.Success? <==> !c.hasDefault
    ensures r.Success? ==> r.value == Catalog(c.parts, true)
  {
    if c.hasDefault then Failure(DefaultExists) else Success(Catalog(c.parts, true))
  }

  /** The partition iteration i asks for: named after the month of start + i months, ending at the month of that date plus one month. */
  function LoopPartition(start: Date, i: int): (p: Partition)
    requires ValidDate(start)
    ensures p.name == MonthTable(p.from) && p.from < p.to
  {
    var date := AddMonths(start, i);
    Partition(MonthTable(date.month), date.month, AddMonths(date, 1).month)
  }

  /** The catalog after the first k iterations of the bootstrap loop. */
  function LoopCatalog(start: Date, k: nat): Result<Catalog, DdlError>
    requires ValidDate(start)
  {
    if k == 0 then Success(Catalog([], false))
    else match LoopCatalog(start, k - 1)
      case Failure(e) => Failure(e)
      case Success(c) => CreateIfNotExists(c, LoopPartition(start, k - 1))
  }

  /** The catalog the loop leaves after its 24 iterations from start, followed by CREATE TABLE ... DEFAULT. */
  function BootstrapFrom(start: Date): Result<Catalog, DdlError>
    requires ValidDate(start)
  {
    match LoopCatalog(start, HorizonMonths)
    case Failure(e) => Failure(e)
    case Success(c) => AttachDefault(c)
  }

  /** The catalog the migration leaves: the loop starts at now()->subYear(), i.e. now minus 12 months. */
  function BootstrapCatalog(now: Date): Result<Catalog, DdlError>
    requires ValidDate(now)
  {
    BootstrapFrom(AddMonths(now, -12))
  }

  /** Every catalog the loop reaches is well formed and has no default partition yet. */
  lemma {:induction false} LoopCatalogWellformed(start: Date, k: nat)
    requires ValidDate(start) && LoopCatalog(start, k).Success?
    ensures Wellformed(LoopCatalog(start, k).value.parts) && !LoopCatalog(start, k).value.hasDefault
  {
    if k > 0 {
      LoopCatalogWellformed(start, k - 1);
      CreateKeepsWellformed(LoopCatalog(start, k - 1).value, LoopPartition(start, k - 1));
    }
  }

  /**
   * The months the loop asks for never go backwards, and a partition asked for
   * earlier ends no later than where a partition of a later month begins, even
   * when the day of the month overflows.
   */
  lemma LoopPartitionsOrdered(start: Date, j: int, i: int)
    requires ValidDate(start) && j < i
    ensures LoopPartition(start, j).from <= LoopPartition(start, i).from
    ensures LoopPartition(start, j).from < LoopPartition(start, i).from ==>
            LoopPartition(start, j).to <= LoopPartition(start, i).from
  {
    var dj := AddMonths(start, j);
    var di := AddMonths(start, i);
    if dj.month == start.month + j + 1 {
      assert dj.day <= 3;
    } else if dj.day > DaysIn(dj.month + 1) && i == j + 1 {
      assert di.month == start.month + j + 2;
    }
  }

  /** Every partition in ps was asked for by one of the first k iterations. */
  ghost predicate AskedWithin(start: Date, ps: seq<Partition>, k: int)
    requires ValidDate(start)
  {
    forall q :: q in ps ==> exists j :: 0 <= j < k && q == LoopPartition(start, j)
  }

  /** The loop never aborts: each partition it asks for is either already there by name or fits after the others. */
  lemma {:induction false} LoopNeverFails(start: Date, k: nat)
    requires ValidDate(start)
    ensures LoopCatalog(start, k).Success?
    ensures AskedWithin(start, LoopCatalog(start, k).value.parts, k)
  {
    if k > 0 {
      LoopNeverFails(start, k - 1);
      var c := LoopCatalog(start, k - 1).value;
      LoopCatalogStep(start, k, c);
      NeverFailsStep(start, c, k - 1);
    }
  }

  /** One iteration on a catalog of what the earlier iterations asked for succeeds, and adds only its own partition. */
  lemma NeverFailsStep(start: Date, c: Catalog, k: nat)
    requires ValidDate(start) && AskedWithin(start, c.parts, k)
    ensures CreateIfNotExists(c, LoopPartition(start, k)).Success?
    ensures AskedWithin(start, CreateIfNotExists(c, LoopPartition(start, k)).value.parts, k + 1)
  {
    var p := LoopPartition(start, k);
    if !NameTaken(c.parts, p.name) {
      forall i | 0 <= i < |c.parts| ensures !Overlap(c.parts[i], p) {
        assert c.parts[i] in c.parts;
        var j :| 0 <= j < k && c.parts[i] == LoopPartition(start, j);
        LoopPartitionsOrdered(start, j, k);
      }
      CreateFresh(c, p);
      AskedAppend(start, c.parts, k);
    } else {
      AskedWider(start, c.parts, k);
    }
  }

  lemma AskedWider(start: Date, ps: seq<Partition>, k: nat)
    requires ValidDate(start) && AskedWithin(start, ps, k)
    ensures AskedWithin(start, ps, k + 1)
  {
    forall q | q in ps ensures exists j :: 0 <= j < k + 1 && q == LoopPartition(start, j) {
      var j :| 0 <= j < k && q == LoopPartition(start, j);
    }
  }

  lemma AskedAppend(start: Date, ps: seq<Partition>, k: nat)
    requires ValidDate(start) && AskedWithin(start, ps, k)
    ensures AskedWithin(start, ps + [LoopPartition(start, k)], k + 1)
  {
    forall q | q in ps + [LoopPartition(start, k)] ensures exists j :: 0 <= j < k + 1 && q == LoopPartition(start, j) {
      if q in ps {
        var j :| 0 <= j < k && q == LoopPartition(start, j);
      } else {
        assert q == LoopPartition(start, k);
      }
    }
  }

  /** Each iteration either skips (the name exists) or appends its partition. */
  lemma LoopGrows(start: Date, k: nat)
    requires ValidDate(start)
    ensures LoopCatalog(start, k).Success? && LoopCatalog(start, k + 1).Success?
    ensures var before := LoopCatalog(start, k).value.parts;
            var after := LoopCatalog(start, k + 1).value.parts;
            after == before || after == before + [LoopPartition(start, k)]
  {
    LoopNeverFails(start, k);
    LoopNeverFails(start, k + 1);
  }

  /** A partition the loop has created stays in the catalog through every later iteration. */
  lemma {:induction false} LoopKeeps(start: Date, q: Partition, m: nat, k: nat)
    requires ValidDate(start) && m <= k
    requires LoopCatalog(start, m).Success? && q in LoopCatalog(start, m).value.parts
    ensures LoopCatalog(start, k).Success? && q in LoopCatalog(start, k).value.parts
    decreases k - m
  {
    if m < k {
      LoopGrows(start, m);
      LoopKeeps(start, q, m + 1, k);
    }
  }

  /** Iteration i asks for month start + i or the month after it, and for a range of one or two months. */
  lemma LoopPartitionBounds(start: Date, i: int)
    requires ValidDate(start)
    ensures start.month + i <= LoopPartition(start, i).from <= start.month + i + 1
    ensures LoopPartition(start, i).to <= LoopPartition(start, i).from + 2
  {
  }

  /**
   * The migration's up(): for $i in 0..23 it creates the partition of month
   * start + i, then the DEFAULT partition; a failing statement aborts it.
   */
  method BootstrapLoop(start: Date) returns (r: Result<Catalog, DdlError>)
    requires ValidDate(start)
    ensures r == BootstrapFrom(start)
    ensures r.Success? && Wellformed(r.value.parts) && r.value.hasDefault
  {
    var c := Catalog([], false);
    for i := 0 to HorizonMonths
      invariant LoopCatalog(start, i) == Success(c)
    {
      var date := AddMonths(start, i);
      var p := Partition(MonthTable(date.month), date.month, AddMonths(date, 1).month);
      assert p == LoopPartition(start, i);
      var created := CreateIfNotExists(c, p);
      assert LoopCatalog(start, i + 1) == created;
      if created.Failure? {
        LoopNeverFails(start, i + 1);
        assert false;
      }
      c := created.value;
    }
    LoopCatalogWellformed(start, HorizonMonths);
    r := AttachDefault(c);
  }

  /** The migration as written: the loop starts at now()->subYear(). */
  method Bootstrap(now: Date) returns (r: Result<Catalog, DdlError>)
    requires ValidDate(now)
    ensures r == BootstrapCatalog(now)
    ensures r.Success? && Wellformed(r.value.parts) && r.value.hasDefault
  {
    r := BootstrapLoop(AddMonths(now, -12));
  }

  /** k consecutive monthly partitions from month s: [s + i, s + i + 1) named after month s + i. */
  function Monthly(s: int, k: nat): seq<Partition> {
    seq(k, i => Partition(MonthTable(s + i), s + i, s + i + 1))
  }

  lemma MonthlyWellformed(s: int, k: nat)
    ensures Wellformed(Monthly(s, k))
  {
    var ps := Monthly(s, k);
    forall i, j | 0 <= i < j < k ensures ps[i].name != ps[j].name {
    }
  }

  lemma MonthlyAppend(s: int, k: nat)
    requires k > 0
    ensures Monthly(s, k - 1) + [Partition(MonthTable(s + k - 1), s + k - 1, s + k)] == Monthly(s, k)
  {
  }

  lemma MonthlyNameFresh(s: int, k: nat)
    requires k > 0
    ensures !NameTaken(Monthly(s, k - 1), MonthTable(s + k - 1))
  {
    var prev := Monthly(s, k - 1);
    forall i | 0 <= i < k - 1 ensures prev[i].name != MonthTable(s + k - 1) {
    }
  }

  lemma MonthlyNoOverlap(s: int, k: nat)
    requires k > 0
    ensures !OverlapsAny(Monthly(s, k - 1), Partition(MonthTable(s + k - 1), s + k - 1, s + k))
  {
  }

  lemma LoopPartitionExact(start: Date, i: int, m: int)
    requires ValidDate(start) && start.day <= 28 && m == start.month + i
    ensures LoopPartition(start, i) == Partition(MonthTable(m), m, m + 1)
  {
  }

  lemma LoopCatalogStep(start: Date, k: nat, c: Catalog)
    requires ValidDate(start) && k > 0 && LoopCatalog(start, k - 1) == Success(c)
    ensures LoopCatalog(start, k) == CreateIfNotExists(c, LoopPartition(start, k - 1))
  {
  }

  lemma CreateFresh(c: Catalog, p: Partition)
    requires !NameTaken(c.parts, p.name) && p.from < p.to && !OverlapsAny(c.parts, p)
    ensures CreateIfNotExists(c, p) == Success(Catalog(c.parts + [p], c.hasDefault))
  {
  }

  /** Adding the next month to the first k - 1 months gives the first k months. */
  lemma MonthlyExtend(s: int, k: nat)
    requires k > 0
    ensures CreateIfNotExists(Catalog(Monthly(s, k - 1), false), Partition(MonthTable(s + k - 1), s + k - 1, s + k))
         == Success(Catalog(Monthly(s, k), false))
  {
    MonthlyNameFresh(s, k);
    MonthlyNoOverlap(s, k);
    CreateFresh(Catalog(Monthly(s, k - 1), false), Partition(MonthTable(s + k - 1), s + k - 1, s + k));
    MonthlyAppend(s, k);
  }

  /** When the start day is at most 28 the loop creates exactly the months start, start + 1, ..., in order. */
  lemma {:induction false} LoopCatalogExact(start: Date, k: nat)
    requires ValidDate(start) && start.day <= 28
    ensures LoopCatalog(start, k) == Success(Catalog(Monthly(start.month, k), false))
  {
    if k > 0 {
      LoopCatalogExact(start, k - 1);
      LoopCatalogStep(start, k, Catalog(Monthly(start.month, k - 1), false));
      LoopPartitionExact(start, k - 1, start.month + k - 1);
      MonthlyExtend(start.month, k);
    } else {
      assert Monthly(start.month, 0) == [];
    }
  }

  /**
   * When now is on day 28 or earlier, the migration creates exactly the 24
   * months from one year back, each [first of month, first of next month), and the default partition.
   */
  lemma BootstrapExact(now: Date)
    requires ValidDate(now) && now.day <= 28
    ensures BootstrapCatalog(now) == Success(Catalog(Monthly(now.month - 12, HorizonMonths), true))
  {
    LoopCatalogExact(AddMonths(now, -12), HorizonMonths);
  }

  /** Partition i ends where partition i + 1 starts, and the range of partition i is the whole of month s + i. */
  lemma MonthlyContiguous(s: int, k: nat, i: int, t: int)
    requires 0 <= i < k
    ensures i + 1 < k ==> Monthly(s, k)[i].to == Monthly(s, k)[i + 1].from
    ensures Holds(Monthly(s, k)[i], t) <==> MonthStart(s + i) <= t < MonthStart(s + i + 1)
  {
  }

  /** In the monthly catalog an instant of month m (inside the span) goes to m's partition. */
  lemma RouteMonthlyByMonth(s: int, k: nat, m: int, t: int)
    requires s <= m < s + k && MonthStart(m) <= t < MonthStart(m + 1)
    ensures Route(Catalog(Monthly(s, k), true), t) == Some(Explicit(MonthTable(m)))
  {
    var ps := Monthly(s, k);
    MonthlyWellformed(s, k);
    assert ps[m - s] == Partition(MonthTable(m), m, m + 1);
    assert Holds(ps[m - s], t);
    RouteUnique(Catalog(ps, true), m - s, t);
  }

  /**
   * Every instant inside [first day of month s, first day of month s + k) goes to
   * the partition of its month; every instant outside goes to the default partition.
   */
  lemma RouteMonthly(s: int, k: nat, t: int)
    ensures MonthStart(s) <= t < MonthStart(s + k) ==>
      exists m :: s <= m < s + k && MonthStart(m) <= t < MonthStart(m + 1) &&
                  Route(Catalog(Monthly(s, k), true), t) == Some(Explicit(MonthTable(m)))
    ensures t < MonthStart(s) || MonthStart(s + k) <= t ==>
      Route(Catalog(Monthly(s, k), true), t) == Some(DefaultPartition)
  {
    var c := Catalog(Monthly(s, k), true);
    if MonthStart(s) <= t < MonthStart(s + k) {
      var m := MonthContaining(t, s, s + k);
      RouteMonthlyByMonth(s, k, m, t);
    } else {
      forall i | 0 <= i < k ensures !Holds(c.parts[i], t) {
        MonthStartOrder(s, s + i);
        MonthStartOrder(s + i + 1, s + k);
      }
    }
  }

  /** The first instant of a month goes to that month's partition, not to the previous month's. */
  lemma MonthBoundary(s: int, k: nat, m: int)
    requires s < m < s + k
    ensures Route(Catalog(Monthly(s, k), true), MonthStart(m)) == Some(Explicit(MonthTable(m)))
  {
    MonthStartMonotone(m, m + 1);
    RouteMonthlyByMonth(s, k, m, MonthStart(m));
  }
  /** The first iteration always creates its partition. */
  lemma LoopFirst(start: Date)
    requires ValidDate(start)
    ensures LoopCatalog(start, 1) == Success(Catalog([LoopPartition(start, 0)], false))
  {
    var p := LoopPartition(start, 0);
    assert !NameTaken([], p.name);
    assert !OverlapsAny([], p);
    assert [] + [p] == [p];
    assert LoopCatalog(start, 0) == Success(Catalog([], false));
    CreateFresh(Catalog([], false), p);
  }

  /**
   * An iteration whose date overflowed into the next month asks for a month no
   * earlier iteration asked for, so it creates its partition.
   */
  lemma LoopOverflowCreates(start: Date, k: nat)
    requires ValidDate(start)
    requires LoopPartition(start, k).from == start.month + k + 1
    ensures LoopCatalog(start, k + 1).Success? && LoopPartition(start, k) in LoopCatalog(start, k + 1).value.parts
  {
    LoopNeverFails(start, k);
    LoopNeverFails(start, k + 1);
    var c := LoopCatalog(start, k).value;
    var p := LoopPartition(start, k);
    NameFresh(start, c.parts, k);
    LoopCatalogStep(start, k + 1, c);
    assert LoopCatalog(start, k + 1).value.parts == c.parts + [p];
  }

  lemma NameFresh(start: Date, ps: seq<Partition>, k: nat)
    requires ValidDate(start)
    requires LoopPartition(start, k).from == start.month + k + 1
    requires AskedWithin(start, ps, k)
    ensures !NameTaken(ps, LoopPartition(start, k).name)
  {
    var p := LoopPartition(start, k);
    forall i | 0 <= i < |ps| ensures ps[i].name != p.name {
      assert ps[i] in ps;
      var j :| 0 <= j < k && ps[i] == LoopPartition(start, j);
      LoopPartitionBounds(start, j);
    }
  }

  /** The lengths of the months from an October s up to the April after it, when that February has 28 days. */
  lemma OctoberMonthLengths(s: int)
    requires MonthOfYear(s) == 10 && !IsLeapYear(YearOf(s + 12))
    ensures DaysIn(s) == 31 && DaysIn(s + 1) == 30 && DaysIn(s + 4) == 28
    ensures DaysIn(s + 5) == 31 && DaysIn(s + 6) == 30
  {
    assert s % 12 == 9;
    assert (s + 1) % 12 == 10 && (s + 4) % 12 == 1 && (s + 5) % 12 == 2 && (s + 6) % 12 == 3;
    assert (s + 4) / 12 == (s + 12) / 12;
  }

  /** The dates the loop steps to from 31 October, by the month lengths above. */
  lemma OctoberDates(start: Date)
    requires start.day == 31 && MonthOfYear(start.month) == 10 && !IsLeapYear(YearOf(start.month + 12))
    ensures ValidDate(start)
    ensures var s := start.month;
            && AddMonths(start, 0) == start && AddMonths(start, 4) == Date(s + 5, 3)
            && AddMonths(start, 5) == Date(s + 5, 31) && AddMonths(start, 6) == Date(s + 7, 1)
  {
    OctoberMonthLengths(start.month);
  }

  /** What the loop asks for when it starts on 31 October and the next February has 28 days. */
  lemma OctoberLoopPartitions(start: Date)
    requires start.day == 31 && MonthOfYear(start.month) == 10 && !IsLeapYear(YearOf(start.month + 12))
    ensures ValidDate(start)
    ensures var s := start.month;
            && LoopPartition(start, 0) == Partition(MonthTable(s), s, s + 2)
            && LoopPartition(start, 4) == Partition(MonthTable(s + 5), s + 5, s + 6)
            && LoopPartition(start, 5) == Partition(MonthTable(s + 5), s + 5, s + 7)
            && LoopPartition(start, 6).from == s + 7
  {
    var s := start.month;
    OctoberMonthLengths(s);
    OctoberDates(start);
    assert AddMonths(Date(s, 31), 1) == Date(s + 2, 1);
    assert AddMonths(Date(s + 5, 3), 1) == Date(s + 6, 3);
    assert AddMonths(Date(s + 5, 31), 1) == Date(s + 7, 1);
  }

  /** A well-formed catalog holds at most one partition of a given name. */
  lemma NameHeldOnce(ps: seq<Partition>, p: Partition, p': Partition)
    requires Wellformed(ps) && p in ps && p'.name == p.name && p' != p
    ensures p' !in ps
  {
    var i :| 0 <= i < |ps| && ps[i] == p;
    forall k | 0 <= k < |ps| ensures ps[k] != p' {
      if k < i {
        assert ps[k].name != ps[i].name;
      } else if k > i {
        assert ps[i].name != ps[k].name;
      }
    }
  }

  /**
   * The shape that leaves month s + g without a partition: iteration g - 2 overflows
   * into month s + g - 1 and covers only that month, iteration g - 1 asks for the same
   * name over months s + g - 1 and s + g, and iteration g starts after month s + g.
   */
  ghost predicate SkipsMonth(start: Date, g: int)
    requires ValidDate(start)
  {
    var s := start.month;
    && 2 <= g < HorizonMonths
    && LoopPartition(start, g - 2) == Partition(MonthTable(s + g - 1), s + g - 1, s + g)
    && LoopPartition(start, g - 1) == Partition(MonthTable(s + g - 1), s + g - 1, s + g + 1)
    && LoopPartition(start, g).from == s + g + 1
  }

  /**
   * In that shape iteration g - 1 is skipped by IF NOT EXISTS, and no partition of the
   * loop holds an instant of month s + g: with the default attached, it goes there.
   */
  lemma SkippedMonthGap(start: Date, g: int, t: int)
    requires ValidDate(start) && SkipsMonth(start, g)
    requires MonthStart(start.month + g) <= t < MonthStart(start.month + g + 1)
    ensures LoopCatalog(start, HorizonMonths).Success?
    ensures LoopPartition(start, g - 2) in LoopCatalog(start, HorizonMonths).value.parts
    ensures LoopPartition(start, g - 1) !in LoopCatalog(start, HorizonMonths).value.parts
    ensures Route(Catalog(LoopCatalog(start, HorizonMonths).value.parts, true), t) == Some(DefaultPartition)
    ensures BootstrapFrom(start).Success? && Route(BootstrapFrom(start).value, t) == Some(DefaultPartition)
  {
    var p := LoopPartition(start, g - 2);
    LoopOverflowCreates(start, g - 2);
    LoopKeeps(start, p, g - 1, HorizonMonths);
    LoopNeverFails(start, HorizonMonths);
    LoopCatalogWellformed(start, HorizonMonths);
    var ps := LoopCatalog(start, HorizonMonths).value.parts;
    NameHeldOnce(ps, p, LoopPartition(start, g - 1));
    forall i | 0 <= i < |ps| ensures !Holds(ps[i], t) {
      assert ps[i] in ps;
      var j :| 0 <= j < HorizonMonths && ps[i] == LoopPartition(start, j);
      SkippedMonthAt(start, g, ps[i], j, t);
    }
  }

  lemma SkippedMonthAt(start: Date, g: int, q: Partition, j: int, t: int)
    requires ValidDate(start) && SkipsMonth(start, g) && q == LoopPartition(start, j) && q != LoopPartition(start, g - 1)
    requires MonthStart(start.month + g) <= t < MonthStart(start.month + g + 1)
    ensures !Holds(q, t)
  {
    LoopPartitionBounds(start, j);
    assert j == g - 2 ==> q == LoopPartition(start, g - 2);
    assert j == g ==> q == LoopPartition(start, g);
    GapMonthArith(q, j, g, start.month, t);
  }

  /** Iterations before g - 2 end, and those after g start, outside month s + g; g - 2 ends, and g starts, outside it too. */
  lemma GapMonthArith(q: Partition, j: int, g: int, s: int, t: int)
    requires s + j <= q.from <= s + j + 1 && q.to <= q.from + 2
    requires j == g - 2 ==> q.to == s + g
    requires j == g ==> q.from == s + g + 1
    requires j != g - 1
    requires MonthStart(s + g) <= t < MonthStart(s + g + 1)
    ensures !Holds(q, t)
  {
    MonthStartOrder(q.to, s + g);
    MonthStartOrder(s + g + 1, q.from);
  }

  /** Starting on 31 October, the loop creates the partitions asked for by iterations 0 and 4 and keeps them. */
  lemma OctoberCatalogHolds(start: Date)
    requires start.day == 31 && MonthOfYear(start.month) == 10 && !IsLeapYear(YearOf(start.month + 12))
    requires ValidDate(start)
    ensures LoopCatalog(start, HorizonMonths).Success?
    ensures LoopPartition(start, 0) in LoopCatalog(start, HorizonMonths).value.parts
    ensures LoopPartition(start, 4) in LoopCatalog(start, HorizonMonths).value.parts
  {
    OctoberLoopPartitions(start);
    LoopFirst(start);
    LoopKeeps(start, LoopPartition(start, 0), 1, HorizonMonths);
    LoopOverflowCreates(start, 4);
    LoopKeeps(start, LoopPartition(start, 4), 5, HorizonMonths);
  }

  /** Starting on 31 October, the range iteration 5 asks for never enters the catalog: its name is already taken. */
  lemma OctoberCatalogMisses(start: Date)
    requires start.day == 31 && MonthOfYear(start.month) == 10 && !IsLeapYear(YearOf(start.month + 12))
    requires ValidDate(start)
    ensures LoopCatalog(start, HorizonMonths).Success?
    ensures LoopPartition(start, 5) !in LoopCatalog(start, HorizonMonths).value.parts
  {
    OctoberLoopPartitions(start);
    OctoberCatalogHolds(start);
    LoopCatalogWellformed(start, HorizonMonths);
    NameHeldOnce(LoopCatalog(start, HorizonMonths).value.parts, LoopPartition(start, 4), LoopPartition(start, 5));
  }

  /**
   * Run on 31 October of year y when February of y has 28 days, the loop starts
   * at 31 October of year y - 1.  Carbon's day overflow makes the partition named
   * after October cover October and November, and leaves April of year y
   * without a partition of its own: its rows go to the default partition.
   */
  lemma MonthEndLeavesGap(now: Date, t: int)
    requires ValidDate(now) && now.day == 31 && MonthOfYear(now.month) == 10 && !IsLeapYear(YearOf(now.month))
    requires MonthStart(now.month - 6) <= t < MonthStart(now.month - 5)
    ensures BootstrapCatalog(now).Success?
    ensures var c := BootstrapCatalog(now).value;
            Partition(MonthTable(now.month - 12), now.month - 12, now.month - 10) in c.parts &&
            Route(c, t) == Some(DefaultPartition)
  {
    var start := Date(now.month - 12, 31);
    assert AddMonths(now, -12) == start;
    OctoberLoopPartitions(start);
    OctoberCatalogHolds(start);
    SkippedMonthGap(start, 6, t);
  }

  /** From 31 October the loop asks for May twice: after May 1 to June 1, May 31 to July 1. */
  lemma OctoberJuneSkip(start: Date)
    requires start.day == 31 && MonthOfYear(start.month) == 10
    ensures ValidDate(start) && SkipsMonth(start, 8)
  {
    var s := start.month;
    OctoberLaterMonthLengths(s);
    assert AddMonths(start, 6) == Date(s + 7, 1);
    assert AddMonths(Date(s + 7, 1), 1) == Date(s + 8, 1);
    assert LoopPartition(start, 6) == Partition(MonthTable(s + 7), s + 7, s + 8);
    assert AddMonths(start, 7) == Date(s + 7, 31);
    assert AddMonths(Date(s + 7, 31), 1) == Date(s + 9, 1);
    assert LoopPartition(start, 7) == Partition(MonthTable(s + 7), s + 7, s + 9);
    assert AddMonths(start, 8) == Date(s + 9, 1);
  }

  /** From 31 October the loop asks for the next October twice: after October 1 to November 1, October 31 to December 1. */
  lemma OctoberNovemberSkip(start: Date)
    requires start.day == 31 && MonthOfYear(start.month) == 10
    ensures ValidDate(start) && SkipsMonth(start, 13)
  {
    var s := start.month;
    OctoberLaterMonthLengths(s);
    assert AddMonths(start, 11) == Date(s + 12, 1);
    assert AddMonths(Date(s + 12, 1), 1) == Date(s + 13, 1);
    assert LoopPartition(start, 11) == Partition(MonthTable(s + 12), s + 12, s + 13);
    assert AddMonths(start, 12) == Date(s + 12, 31);
    assert AddMonths(Date(s + 12, 31), 1) == Date(s + 14, 1);
    assert LoopPartition(start, 12) == Partition(MonthTable(s + 12), s + 12, s + 14);
    assert AddMonths(start, 13) == Date(s + 14, 1);
  }

  /** The month lengths from April to the next November, counted from an October s. */
  lemma OctoberLaterMonthLengths(s: int)
    requires MonthOfYear(s) == 10
    ensures DaysIn(s) == 31 && DaysIn(s + 6) == 30 && DaysIn(s + 7) == 31 && DaysIn(s + 8) == 30
    ensures DaysIn(s + 11) == 30 && DaysIn(s + 12) == 31 && DaysIn(s + 13) == 30
  {
    assert s % 12 == 9;
    assert (s + 6) % 12 == 3 && (s + 7) % 12 == 4 && (s + 8) % 12 == 5;
    assert (s + 11) % 12 == 8 && (s + 12) % 12 == 9 && (s + 13) % 12 == 10;
  }

  /** now()->subYear() from 31 October is 31 October of the year before. */
  lemma OctoberYearBack(now: Date)
    requires now.day == 31 && MonthOfYear(now.month) == 10
    ensures MonthOfYear(now.month - 12) == 10 && ValidDate(Date(now.month - 12, 31))
    ensures ValidDate(now) && AddMonths(now, -12) == Date(now.month - 12, 31)
  {
    assert (now.month - 12) % 12 == now.month % 12;
  }

  /**
   * Run on 31 October of any year, the bootstrap also leaves June of that year (four
   * months back) without a partition: iteration 7 asks again for the name iteration 6
   * took, so June's rows go to DEFAULT.
   */
  lemma MonthEndLeavesJuneGap(now: Date, t: int)
    requires ValidDate(now) && now.day == 31 && MonthOfYear(now.month) == 10
    requires MonthStart(now.month - 4) <= t < MonthStart(now.month - 3)
    ensures BootstrapCatalog(now).Success?
    ensures Route(BootstrapCatalog(now).value, t) == Some(DefaultPartition)
  {
    var start := Date(now.month - 12, 31);
    OctoberYearBack(now);
    OctoberJuneSkip(start);
    SkippedMonthGap(start, 8, t);
  }

  /**
   * Likewise the coming November: iteration 12 asks again for the name iteration 11
   * took, so every row of the month after the migration goes to DEFAULT.
   */
  lemma MonthEndLeavesNovemberGap(now: Date, t: int)
    requires ValidDate(now) && now.day == 31 && MonthOfYear(now.month) == 10
    requires MonthStart(now.month + 1) <= t < MonthStart(now.month + 2)
    ensures BootstrapCatalog(now).Success?
    ensures Route(BootstrapCatalog(now).value, t) == Some(DefaultPartition)
  {
    var start := Date(now.month - 12, 31);
    OctoberYearBack(now);
    OctoberNovemberSkip(start);
    SkippedMonthGap(start, 13, t);
  }

  /**
   * The evidently intended bootstrap: count the 24 months from the first day of
   * the month one year back (now()->startOfMonth()->subYear()), so that no day
   * overflow can occur.
   */
  function CorrectedBootstrapCatalog(now: Date): Result<Catalog, DdlError>
    requires ValidDate(now)
  {
    BootstrapFrom(Date(now.month - 12, 1))
  }

  method BootstrapFromMonthStart(now: Date) returns (r: Result<Catalog, DdlError>)
    requires ValidDate(now)
    ensures r == CorrectedBootstrapCatalog(now)
    ensures r.Success? && Wellformed(r.value.parts) && r.value.hasDefault
    ensures r == Success(Catalog(Monthly(now.month - 12, HorizonMonths), true))
  {
    r := BootstrapLoop(Date(now.month - 12, 1));
    CorrectedBootstrapExact(now);
  }

  /** Whatever the day of now, the corrected bootstrap creates the 24 whole months from one year back and the default partition. */
  lemma CorrectedBootstrapExact(now: Date)
    requires ValidDate(now)
    ensures CorrectedBootstrapCatalog(now) == Success(Catalog(Monthly(now.month - 12, HorizonMonths), true))
  {
    LoopCatalogExact(Date(now.month - 12, 1), HorizonMonths);
  }
}
