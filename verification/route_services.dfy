/** Route-scoped statistics, the route cascade and the per-grade aggregations
    of services/route.services.js. Every query here filters on the route only,
    so ascents of every user count. */
module RouteServices {
  import opened Wrappers
  import opened Entities
  import opened Query
  import Utils

  const SendTicks: set<TickType> := {Flash, Redpoint}

  /** `{ routeId: r, tickType: { $in: ticks } }`. */
  function OfRouteWithTicks(r: RouteId, ticks: set<TickType>): Filter {
    OfRoute(r).(tickIn := Some(ticks))
  }

  /** `isFlashed`: some ascent of the route is a flash. */
  function IsFlashed(ascents: seq<Ascent>, route: RouteId): (b: bool)
    ensures b <==> exists a :: a in ascents && a.routeId == route && a.tickType == Flash
  {
    FindFirst(ascents, OfRouteWithTicks(route, {Flash})).Some?
  }

  /** `isSent`: some ascent of the route is a flash or a redpoint. */
  function IsSent(ascents: seq<Ascent>, route: RouteId): (b: bool)
    ensures b <==> exists a :: a in ascents && a.routeId == route && IsSendTick(a.tickType)
  {
    FindFirst(ascents, OfRouteWithTicks(route, SendTicks)).Some?
  }

  /** A flashed route is a sent route. */
  lemma FlashedImpliesSent(ascents: seq<Ascent>, route: RouteId)
    ensures IsFlashed(ascents, route) ==> IsSent(ascents, route)
  {
  }

  /** `getHighestTickType` as written: it sorts on `tickTypeOrder`, a field no
      ascent has, so every ascent ties and the first ascent of the route in
      natural order is returned, whatever its tick type. */
  function HighestTickTypeAsWritten(ascents: seq<Ascent>, route: RouteId): (r: Option<TickType>)
    ensures r.None? <==> forall a :: a in ascents ==> a.routeId != route
    ensures r.Some? ==> exists a :: a in ascents && a.routeId == route && a.tickType == r.value
  {
    match FindFirst(ascents, OfRoute(route))
    case None => None
    case Some(a) => Some(a.tickType)
  }

  /** `getHighestTickType` as intended: the tick type of a route's ascent that
      ranks highest in `order` (listed from lowest to highest). */
  function HighestTickType(order: seq<TickType>, ascents: seq<Ascent>, route: RouteId): (r: Option<TickType>)
    ensures r.None? <==> forall a :: a in ascents ==> a.routeId != route
    ensures r.Some? ==> exists a :: a in ascents && a.routeId == route && a.tickType == r.value
    ensures r.Some? ==> forall a :: a in ascents && a.routeId == route ==> Rank(order, a.tickType) <= Rank(order, r.value)
  {
    match FindMaxBy(ascents, OfRoute(route), TickRank(order))
    case None => None
    case Some(a) => Some(a.tickType)
  }

  /** An attempt logged before a flash: the code as written reports the attempt,
      the intended lookup reports the flash. */
  lemma HighestTickTypeAsWrittenMissesFlash()
    ensures var order := ["attempt", Redpoint, Flash];
            var xs := [Ascent(1, 7, 100, None, "attempt", None), Ascent(1, 7, 101, None, Flash, None)];
            && HighestTickTypeAsWritten(xs, 1) == Some("attempt")
            && HighestTickType(order, xs, 1) == Some(Flash)
  {
    var order := ["attempt", Redpoint, Flash];
    var xs := [Ascent(1, 7, 100, None, "attempt", None), Ascent(1, 7, 101, None, Flash, None)];
    assert Rank(order, Flash) == 2;
    assert Rank(order, "attempt") == 0;
    assert xs[1] in xs && xs[1].routeId == 1;
  }

  /** `getEarliestSentAscent`: `null` for an unsent route, otherwise a send of
      the route that no other send of the route predates. Ties on the date are
      broken by natural order. */
  function EarliestSentAscent(ascents: seq<Ascent>, route: RouteId): (r: Option<Ascent>)
    ensures r.None? <==> !IsSent(ascents, route)
    ensures r.Some? ==> r.value in ascents && r.value.routeId == route && IsSendTick(r.value.tickType)
    ensures r.Some? ==> forall b :: b in ascents && b.routeId == route && IsSendTick(b.tickType) ==> r.value.date <= b.date
  {
    FindMinBy(ascents, OfRouteWithTicks(route, SendTicks), Date)
  }

  /** `sessionsToSend` (route-scoped): 0 for a flashed route, `null` for an
      unsent one, otherwise the number of distinct dates of the route's ascents
      before its earliest redpoint. */
  function SessionsToSend(ascents: seq<Ascent>, route: RouteId): (r: Option<nat>)
    ensures IsFlashed(ascents, route) ==> r == Some(0)
    ensures r.None? <==> !IsSent(ascents, route)
    ensures r.Some? && !IsFlashed(ascents, route) ==>
      exists e :: EarliestOf(ascents, OfRouteWithTicks(route, {Redpoint}), e)
               && r.value == |DistinctDates(ascents, OfRoute(route).(dateLt := Some(e.date)))|
    ensures r.Some? ==> r.value <= Count(ascents, OfRoute(route))
  {
    if IsFlashed(ascents, route) then Some(0)
    else
      match FindMinBy(ascents, OfRouteWithTicks(route, {Redpoint}), Date)
      case None => None
      case Some(e) =>
        var before := OfRoute(route).(dateLt := Some(e.date));
        DistinctDatesSubset(ascents, before, OfRoute(route));
        DistinctDatesAtMostCount(ascents, OfRoute(route));
        Some(|DistinctDates(ascents, before)|)
  }

  /** `firstAscentDate`: `null` without ascents, otherwise the least date of the
      route's ascents. */
  function FirstAscentDate(ascents: seq<Ascent>, route: RouteId): (r: Option<Day>)
    ensures r.None? <==> forall a :: a in ascents ==> a.routeId != route
    ensures r.Some? ==> exists a :: a in ascents && a.routeId == route && a.date == r.value
    ensures r.Some? ==> forall a :: a in ascents && a.routeId == route ==> r.value <= a.date
  {
    EarliestDate(ascents, OfRoute(route))
  }

  /** `lastAscentDate`: `null` without ascents, otherwise the greatest date of
      the route's ascents. */
  function LastAscentDate(ascents: seq<Ascent>, route: RouteId): (r: Option<Day>)
    ensures r.None? <==> forall a :: a in ascents ==> a.routeId != route
    ensures r.Some? ==> exists a :: a in ascents && a.routeId == route && a.date == r.value
    ensures r.Some? ==> forall a :: a in ascents && a.routeId == route ==> a.date <= r.value
  {
    LatestDate(ascents, OfRoute(route))
  }

  /** Both dates exist together, and the first is no later than the last. */
  lemma FirstAscentNotAfterLast(ascents: seq<Ascent>, route: RouteId)
    ensures FirstAscentDate(ascents, route).Some? <==> LastAscentDate(ascents, route).Some?
    ensures FirstAscentDate(ascents, route).Some? ==>
      FirstAscentDate(ascents, route).value <= LastAscentDate(ascents, route).value
  {
    if FirstAscentDate(ascents, route).Some? {
      EarliestNotAfterLatest(ascents, OfRoute(route));
    }
  }

  // ---------------------------------------------------------------------
  // Cascading delete of a route
  // ---------------------------------------------------------------------

  /** `deleteMany({ routeId })` on the ascent map. */
  function WithoutAscentsOf(ascents: map<AscentId, Ascent>, route: RouteId): map<AscentId, Ascent> {
    map k | k in ascents && ascents[k].routeId != route :: ascents[k]
  }

  /** `deleteWithDependents(routeId)`: inside one transaction, delete every
      ascent of the route, then look the route up (aborting with "Route not
      found" when it is missing, which rolls the ascent deletion back), delete
      it, and delete its area when no route references that area any more. A
      route without an area deletes no area. */
  function DeleteWithDependents(s: Store, id: RouteId): (r: Result<Store, CascadeError>)
    ensures r.Failure? <==> id !in s.routes
    ensures r.Failure? ==> r.error == RouteNotFound
    ensures r.Success? ==> DeletedOnly(s, r.value)
    ensures r.Success? ==> forall k :: k in r.value.ascents <==> k in s.ascents && s.ascents[k].routeId != id
    ensures r.Success? ==> r.value.routes.Keys == s.routes.Keys - {id}
    ensures r.Success? ==> forall a :: a in s.areas ==>
      (a !in r.value.areas <==>
         s.routes[id].areaId == Some(a)
         && forall k :: k in s.routes && k != id ==> s.routes[k].areaId != Some(a))
  {
    var ascents := WithoutAscentsOf(s.ascents, id);
    if id !in s.routes then Failure(RouteNotFound)
    else
      var routes := s.routes - {id};
      var areas :=
        match s.routes[id].areaId
        case None => s.areas
        case Some(a) => if AreaHasRoutes(routes, a) then s.areas else s.areas - {a};
      Success(Store(ascents, routes, areas))
  }

  /** After a successful route cascade no ascent references the route, and the
      store's references stay intact. */
  lemma DeleteWithDependentsKeepsReferences(s: Store, id: RouteId)
    requires ReferencesIntact(s)
    requires DeleteWithDependents(s, id).Success?
    ensures !RouteHasAscents(DeleteWithDependents(s, id).value.ascents, id)
    ensures ReferencesIntact(DeleteWithDependents(s, id).value)
  {
  }

  // ---------------------------------------------------------------------
  // Per-grade aggregation
  // ---------------------------------------------------------------------

  /** Why an aggregation threw: a route whose grade has no row in the table
      (`gradeStats[route.grade]` is undefined). */
  datatype AggregationError = GradeOutOfRange(grade: int)

  /** A route's grade with its highest tick type (`null` without ascents). */
  datatype GradedTick = GradedTick(grade: int, highest: Option<TickType>)

  /** One row of `getGradeBestTickTypeCounts`: `counts[k]` is the count for the
      k-th configured tick type. */
  datatype GradeTickCounts = GradeTickCounts(grade: int, total: nat, counts: seq<nat>)

  /** A route's grade with its sessions to send (`null` when unsent). */
  datatype GradedSessions = GradedSessions(grade: int, sessions: Option<int>)

  /** One row of `getGradeOndraScores`. */
  datatype GradeOndra = GradeOndra(grade: int, sessionsToSend: seq<Option<int>>, ondraScore: Option<int>)

  /** Number of rows of a table indexed by the grades `minGrade..maxGrade`. */
  function Width(minGrade: int, maxGrade: int): nat {
    if maxGrade < minGrade then 0 else maxGrade - minGrade + 1
  }

  /** Routes at grade `g` whose highest tick type is `t`. */
  function CountGradeTick(routes: seq<GradedTick>, g: int, t: TickType): nat {
    if routes == [] then 0
    else (if routes[0].grade == g && routes[0].highest == Some(t) then 1 else 0) + CountGradeTick(routes[1..], g, t)
  }

  /** Routes at grade `g` that have a highest tick type at all. */
  function CountGradeTicked(routes: seq<GradedTick>, g: int): nat {
    if routes == [] then 0
    else (if routes[0].grade == g && routes[0].highest.Some? then 1 else 0) + CountGradeTicked(routes[1..], g)
  }

  /** Every route that is counted has a row in the table. */
  predicate TickedInRange(routes: seq<GradedTick>, minGrade: int, maxGrade: int) {
    forall i :: 0 <= i < |routes| && routes[i].highest.Some? ==> minGrade <= routes[i].grade <= maxGrade
  }

  /** The zeroed table: one row per grade in `minGrade..maxGrade`. */
  function ZeroTickTable(tickTypes: seq<TickType>, minGrade: int, maxGrade: int): (t: seq<GradeTickCounts>)
    ensures |t| == Width(minGrade, maxGrade)
    ensures forall i :: 0 <= i < |t| ==> t[i] == GradeTickCounts(minGrade + i, 0, seq(|tickTypes|, _ => 0))
  {
    seq(Width(minGrade, maxGrade), i => GradeTickCounts(minGrade + i, 0, seq(|tickTypes|, _ => 0)))
  }

  /** `gradeStats[g][t]++; gradeStats[g].total++` on the row of `g`. */
  function BumpTick(tickTypes: seq<TickType>, row: GradeTickCounts, t: TickType): (r: GradeTickCounts)
    requires |row.counts| == |tickTypes|
    ensures r.grade == row.grade && r.total == row.total + 1 && |r.counts| == |tickTypes|
    ensures forall k :: 0 <= k < |tickTypes| ==> r.counts[k] == row.counts[k] + (if tickTypes[k] == t then 1 else 0)
  {
    GradeTickCounts(row.grade, row.total + 1,
      seq(|tickTypes|, k requires 0 <= k < |tickTypes| => row.counts[k] + (if tickTypes[k] == t then 1 else 0)))
  }

  /** Adding one to the entry of a tick type listed once adds one to the sum. */
  lemma {:induction false} SumBumpOne(tickTypes: seq<TickType>, counts: seq<nat>, bumped: seq<nat>, t: TickType)
    requires |counts| == |tickTypes| == |bumped|
    requires Distinct(tickTypes) && t in tickTypes
    requires forall k :: 0 <= k < |tickTypes| ==> bumped[k] == counts[k] + (if tickTypes[k] == t then 1 else 0)
    ensures Sum(bumped) == Sum(counts) + 1
  {
    if tickTypes[0] == t {
      assert t !in tickTypes[1..];
      SumUnchanged(tickTypes[1..], counts[1..], bumped[1..], t);
    } else {
      SumBumpOne(tickTypes[1..], counts[1..], bumped[1..], t);
    }
  }

  lemma {:induction false} SumUnchanged(tickTypes: seq<TickType>, counts: seq<nat>, bumped: seq<nat>, t: TickType)
    requires |counts| == |tickTypes| == |bumped| && t !in tickTypes
    requires forall k :: 0 <= k < |tickTypes| ==> bumped[k] == counts[k] + (if tickTypes[k] == t then 1 else 0)
    ensures Sum(bumped) == Sum(counts)
  {
    if tickTypes != [] {
      SumUnchanged(tickTypes[1..], counts[1..], bumped[1..], t);
    }
  }

  /** Rows `minGrade, minGrade + 1, ...`, each with one count per tick type. */
  predicate TickTableShaped(tickTypes: seq<TickType>, minGrade: int, table: seq<GradeTickCounts>) {
    forall i :: 0 <= i < |table| ==> table[i].grade == minGrade + i && |table[i].counts| == |tickTypes|
  }

  /** The route loop of `getGradeBestTickTypeCounts`, over the rows starting at
      `minGrade`. */
  function TallyTicks(tickTypes: seq<TickType>, minGrade: int, table: seq<GradeTickCounts>, routes: seq<GradedTick>)
    : (r: Result<seq<GradeTickCounts>, AggregationError>)
    requires TickTableShaped(tickTypes, minGrade, table)
    ensures r.Success? <==> TickedInRange(routes, minGrade, minGrade + |table| - 1)
    ensures r.Success? ==> |r.value| == |table| && TickTableShaped(tickTypes, minGrade, r.value)
    decreases |routes|
  {
    if routes == [] then Success(table)
    else
      var route := routes[0];
      if route.highest.None? then TallyTicks(tickTypes, minGrade, table, routes[1..])
      else if !(minGrade <= route.grade < minGrade + |table|) then Failure(GradeOutOfRange(route.grade))
      else
        var j := route.grade - minGrade;
        TallyTicks(tickTypes, minGrade, table[j := BumpTick(tickTypes, table[j], route.highest.value)], routes[1..])
  }

  /** Each row ends with its start counts plus, per tick type, the routes at its
      grade whose highest tick type that is, and its total grows by the routes
      at its grade that have a highest tick type. */
  lemma {:induction false} TallyTicksCounts(tickTypes: seq<TickType>, minGrade: int, table: seq<GradeTickCounts>, routes: seq<GradedTick>)
    requires TickTableShaped(tickTypes, minGrade, table)
    requires TallyTicks(tickTypes, minGrade, table, routes).Success?
    ensures var out := TallyTicks(tickTypes, minGrade, table, routes).value;
      forall i :: 0 <= i < |table| ==>
        && out[i].total == table[i].total + CountGradeTicked(routes, minGrade + i)
        && forall k :: 0 <= k < |tickTypes| ==>
             out[i].counts[k] == table[i].counts[k] + CountGradeTick(routes, minGrade + i, tickTypes[k])
    decreases |routes|
  {
    if routes != [] {
      var route := routes[0];
      if route.highest.None? {
        TallyTicksCounts(tickTypes, minGrade, table, routes[1..]);
      } else {
        var j := route.grade - minGrade;
        var table' := table[j := BumpTick(tickTypes, table[j], route.highest.value)];
        TallyTicksCounts(tickTypes, minGrade, table', routes[1..]);
      }
    }
  }

  /** When the tick types are listed once and every highest tick type is
      listed, each row's total stays the sum of its counts. */
  lemma {:induction false} TallyTicksTotals(tickTypes: seq<TickType>, minGrade: int, table: seq<GradeTickCounts>, routes: seq<GradedTick>)
    requires TickTableShaped(tickTypes, minGrade, table)
    requires TallyTicks(tickTypes, minGrade, table, routes).Success?
    requires Distinct(tickTypes)
    requires forall i :: 0 <= i < |routes| && routes[i].highest.Some? ==> routes[i].highest.value in tickTypes
    requires forall i :: 0 <= i < |table| ==> table[i].total == Sum(table[i].counts)
    ensures var out := TallyTicks(tickTypes, minGrade, table, routes).value;
      forall i :: 0 <= i < |out| ==> out[i].total == Sum(out[i].counts)
    decreases |routes|
  {
    if routes != [] {
      var route := routes[0];
      assert forall i :: 0 <= i < |routes[1..]| ==> routes[1..][i] == routes[i + 1];
      if route.highest.None? {
        TallyTicksTotals(tickTypes, minGrade, table, routes[1..]);
      } else {
        var j := route.grade - minGrade;
        var row := BumpTick(tickTypes, table[j], route.highest.value);
        assert route.highest.value in tickTypes by { assert routes[0] == route; }
        SumBumpOne(tickTypes, table[j].counts, row.counts, route.highest.value);
        TallyTicksTotals(tickTypes, minGrade, table[j := row], routes[1..]);
      }
    }
  }

  /** The input of the tick aggregation for routes `ids` of the store: each
      route's grade with its highest tick type in `order`. */
  function GradedTicks(order: seq<TickType>, ascents: seq<Ascent>, routes: map<RouteId, Route>, ids: seq<RouteId>)
    : (r: seq<GradedTick>)
    requires forall i :: 0 <= i < |ids| ==> ids[i] in routes
    ensures |r| == |ids|
    ensures forall i :: 0 <= i < |ids| ==> r[i].grade == routes[ids[i]].grade
    ensures forall i :: 0 <= i < |ids| ==> (r[i].highest.None? <==> forall a :: a in ascents ==> a.routeId != ids[i])
  {
    seq(|ids|, i requires 0 <= i < |ids| => GradedTick(routes[ids[i]].grade, HighestTickType(order, ascents, ids[i])))
  }

  /** When every ascent carries a configured tick type, so does every route's
      highest tick type, which is what keeps each row's total equal to the sum
      of its counts. */
  lemma GradedTicksListed(tickTypes: seq<TickType>, ascents: seq<Ascent>, routes: map<RouteId, Route>, ids: seq<RouteId>)
    requires forall i :: 0 <= i < |ids| ==> ids[i] in routes
    requires forall a :: a in ascents ==> a.tickType in tickTypes
    ensures var ticks := GradedTicks(tickTypes, ascents, routes, ids);
            forall i :: 0 <= i < |ticks| && ticks[i].highest.Some? ==> ticks[i].highest.value in tickTypes
  {
    var ticks := GradedTicks(tickTypes, ascents, routes, ids);
    forall i | 0 <= i < |ticks| && ticks[i].highest.Some?
      ensures ticks[i].highest.value in tickTypes
    {
      assert ticks[i].highest == HighestTickType(tickTypes, ascents, ids[i]);
    }
  }

  /** The tick aggregation's input as the code builds it, with
      `getHighestTickType` as written: each route's grade with the tick type of
      one of its ascents, whichever the tie-only sort yields. */
  function GradedTicksAsWritten(ascents: seq<Ascent>, routes: map<RouteId, Route>, ids: seq<RouteId>)
    : (r: seq<GradedTick>)
    requires forall i :: 0 <= i < |ids| ==> ids[i] in routes
    ensures |r| == |ids|
    ensures forall i :: 0 <= i < |ids| ==> r[i].grade == routes[ids[i]].grade
    ensures forall i :: 0 <= i < |ids| ==> (r[i].highest.None? <==> forall a :: a in ascents ==> a.routeId != ids[i])
    ensures forall i :: 0 <= i < |ids| && r[i].highest.Some? ==>
      exists a :: a in ascents && a.routeId == ids[i] && a.tickType == r[i].highest.value
  {
    seq(|ids|, i requires 0 <= i < |ids| => GradedTick(routes[ids[i]].grade, HighestTickTypeAsWritten(ascents, ids[i])))
  }

  /** The lookup bug moves a route to another tick-type column but never in or
      out of a grade's total: both inputs agree on every grade and on which
      routes have a highest tick type at all. */
  lemma GradedTicksVariantsSameTotals(order: seq<TickType>, ascents: seq<Ascent>, routes: map<RouteId, Route>, ids: seq<RouteId>)
    requires forall i :: 0 <= i < |ids| ==> ids[i] in routes
    ensures var written, intended := GradedTicksAsWritten(ascents, routes, ids), GradedTicks(order, ascents, routes, ids);
            forall g :: CountGradeTicked(written, g) == CountGradeTicked(intended, g)
  {
    var written, intended := GradedTicksAsWritten(ascents, routes, ids), GradedTicks(order, ascents, routes, ids);
    forall g ensures CountGradeTicked(written, g) == CountGradeTicked(intended, g) {
      CountGradeTickedSameShape(written, intended, g);
    }
  }

  /** Equal grades and equal presence of a highest tick type give equal totals. */
  lemma {:induction false} CountGradeTickedSameShape(xs: seq<GradedTick>, ys: seq<GradedTick>, g: int)
    requires |xs| == |ys|
    requires forall i :: 0 <= i < |xs| ==> xs[i].grade == ys[i].grade && xs[i].highest.Some? == ys[i].highest.Some?
    ensures CountGradeTicked(xs, g) == CountGradeTicked(ys, g)
    decreases |xs|
  {
    if xs != [] {
      assert xs[0].grade == ys[0].grade && xs[0].highest.Some? == ys[0].highest.Some?;
      CountGradeTickedSameShape(xs[1..], ys[1..], g);
    }
  }

  /** An attempt logged before a flash on a grade-5 route: built as written,
      the grade-5 row counts the route under `attempt` and not under `flash`;
      built as intended, the other way round (the row's counts are these
      `CountGradeTick` values, by `GradeBestTickTypeCounts`). */
  lemma GradedTicksAsWrittenMisplacesFlash()
    ensures var order := ["attempt", Redpoint, Flash];
            var xs := [Ascent(1, 7, 100, None, "attempt", None), Ascent(1, 7, 101, None, Flash, None)];
            var routes := map[1 := Route("Arete", 5, "red", 7, None, false)];
            var w, t := GradedTicksAsWritten(xs, routes, [1]), GradedTicks(order, xs, routes, [1]);
            && CountGradeTick(w, 5, "attempt") == 1 && CountGradeTick(w, 5, Flash) == 0
            && CountGradeTick(t, 5, "attempt") == 0 && CountGradeTick(t, 5, Flash) == 1
  {
    var order := ["attempt", Redpoint, Flash];
    var xs := [Ascent(1, 7, 100, None, "attempt", None), Ascent(1, 7, 101, None, Flash, None)];
    var routes := map[1 := Route("Arete", 5, "red", 7, None, false)];
    HighestTickTypeAsWrittenMissesFlash();
    var w, t := GradedTicksAsWritten(xs, routes, [1]), GradedTicks(order, xs, routes, [1]);
    assert w == [GradedTick(5, Some("attempt"))];
    assert t == [GradedTick(5, Some(Flash))];
  }

  /** `getGradeBestTickTypeCounts`, with the user's grade range and each route's
      grade and highest tick type as inputs: one row per grade from `minGrade`
      to `maxGrade`, counting for each tick type the routes whose highest tick
      type it is. A counted route outside the range makes the code throw. */
  function GradeBestTickTypeCounts(tickTypes: seq<TickType>, minGrade: int, maxGrade: int, routes: seq<GradedTick>)
    : (r: Result<seq<GradeTickCounts>, AggregationError>)
    ensures r.Success? <==> TickedInRange(routes, minGrade, maxGrade)
    ensures r.Success? ==> |r.value| == Width(minGrade, maxGrade)
    ensures r.Success? ==> forall i :: 0 <= i < |r.value| ==>
      && r.value[i].grade == minGrade + i
      && |r.value[i].counts| == |tickTypes|
      && r.value[i].total == CountGradeTicked(routes, minGrade + i)
      && forall k :: 0 <= k < |tickTypes| ==> r.value[i].counts[k] == CountGradeTick(routes, minGrade + i, tickTypes[k])
    ensures r.Success? && Distinct(tickTypes)
            && (forall i :: 0 <= i < |routes| && routes[i].highest.Some? ==> routes[i].highest.value in tickTypes)
            ==> forall i :: 0 <= i < |r.value| ==> r.value[i].total == Sum(r.value[i].counts)
  {
    var table := ZeroTickTable(tickTypes, minGrade, maxGrade);
    assert TickedInRange(routes, minGrade, maxGrade) <==> TickedInRange(routes, minGrade, minGrade + |table| - 1);
    var r := TallyTicks(tickTypes, minGrade, table, routes);
    assert r.Success? ==> forall i :: 0 <= i < |r.value| ==>
      && r.value[i].total == CountGradeTicked(routes, minGrade + i)
      && forall k :: 0 <= k < |tickTypes| ==> r.value[i].counts[k] == CountGradeTick(routes, minGrade + i, tickTypes[k])
    by {
      if r.Success? {
        TallyTicksCounts(tickTypes, minGrade, table, routes);
      }
    }
    assert r.Success? && Distinct(tickTypes)
           && (forall i :: 0 <= i < |routes| && routes[i].highest.Some? ==> routes[i].highest.value in tickTypes)
           ==> forall i :: 0 <= i < |r.value| ==> r.value[i].total == Sum(r.value[i].counts)
    by {
      if r.Success? && Distinct(tickTypes)
         && (forall i :: 0 <= i < |routes| && routes[i].highest.Some? ==> routes[i].highest.value in tickTypes) {
        ZeroSum(|tickTypes|);
        TallyTicksTotals(tickTypes, minGrade, table, routes);
      }
    }
    r
  }

  lemma {:induction false} ZeroSum(n: nat)
    ensures Sum(seq(n, _ => 0)) == 0
  {
    if n > 0 {
      assert seq(n, _ => 0)[1..] == seq(n - 1, _ => 0);
      ZeroSum(n - 1);
    }
  }

  /** The sessions-to-send values of the routes at grade `g`, in route order. */
  function SessionsAtGrade(routes: seq<GradedSessions>, g: int): seq<Option<int>> {
    if routes == [] then []
    else (if routes[0].grade == g then [routes[0].sessions] else []) + SessionsAtGrade(routes[1..], g)
  }

  /** There is one entry per route at the grade. */
  lemma {:induction false} SessionsAtGradeLength(routes: seq<GradedSessions>, g: int)
    ensures |SessionsAtGrade(routes, g)| == |set i | 0 <= i < |routes| && routes[i].grade == g|
    decreases |routes|
  {
    var all := set i | 0 <= i < |routes| && routes[i].grade == g;
    if routes == [] {
      assert all == {};
    } else {
      var n := |routes| - 1;
      var init := routes[..n];
      SessionsAtGradeLength(init, g);
      SessionsAtGradeAppend(init, [routes[n]], g);
      assert init + [routes[n]] == routes;
      var before := set i | 0 <= i < |init| && init[i].grade == g;
      if routes[n].grade == g {
        assert all == before + {n};
      } else {
        assert all == before;
      }
    }
  }

  lemma {:induction false} SessionsAtGradeAppend(xs: seq<GradedSessions>, ys: seq<GradedSessions>, g: int)
    ensures SessionsAtGrade(xs + ys, g) == SessionsAtGrade(xs, g) + SessionsAtGrade(ys, g)
  {
    if xs == [] {
      assert xs + ys == ys;
    } else {
      assert (xs + ys)[0] == xs[0] && (xs + ys)[1..] == xs[1..] + ys;
      SessionsAtGradeAppend(xs[1..], ys, g);
      var head := if xs[0].grade == g then [xs[0].sessions] else [];
      var rest, tail := SessionsAtGrade(xs[1..], g), SessionsAtGrade(ys, g);
      assert SessionsAtGrade(xs + ys, g) == head + (rest + tail);
      assert head + (rest + tail) == (head + rest) + tail;
    }
  }

  /** Every route has a row in the table. */
  predicate SessionsInRange(routes: seq<GradedSessions>, minGrade: int, maxGrade: int) {
    forall i :: 0 <= i < |routes| ==> minGrade <= routes[i].grade <= maxGrade
  }

  /** The route loop of `getGradeOndraScores`: push each route's value onto the
      list of its grade's row. */
  function TallySessions(minGrade: int, table: seq<seq<Option<int>>>, routes: seq<GradedSessions>)
    : (r: Result<seq<seq<Option<int>>>, AggregationError>)
    ensures r.Success? <==> SessionsInRange(routes, minGrade, minGrade + |table| - 1)
    ensures r.Success? ==> |r.value| == |table|
    decreases |routes|
  {
    if routes == [] then Success(table)
    else
      var route := routes[0];
      if !(minGrade <= route.grade < minGrade + |table|) then Failure(GradeOutOfRange(route.grade))
      else
        var j := route.grade - minGrade;
        TallySessions(minGrade, table[j := table[j] + [route.sessions]], routes[1..])
  }

  /** Each row ends as its start list followed by the values of the routes at
      its grade, in route order. */
  lemma {:induction false} TallySessionsRow(minGrade: int, table: seq<seq<Option<int>>>, routes: seq<GradedSessions>, i: nat)
    requires TallySessions(minGrade, table, routes).Success? && i < |table|
    ensures TallySessions(minGrade, table, routes).value[i] == table[i] + SessionsAtGrade(routes, minGrade + i)
    decreases |routes|
  {
    if routes != [] {
      var route := routes[0];
      var j := route.grade - minGrade;
      var next := table[j := table[j] + [route.sessions]];
      TallySessionsRow(minGrade, next, routes[1..], i);
      var rest := SessionsAtGrade(routes[1..], minGrade + i);
      if i == j {
        assert table[j] + [route.sessions] + rest == table[j] + ([route.sessions] + rest);
      }
    }
  }

  /** The input of the Ondra aggregation for routes `ids` of the store: each
      route's grade with its route-scoped sessions to send. */
  function GradedSessionsOf(ascents: seq<Ascent>, routes: map<RouteId, Route>, ids: seq<RouteId>)
    : (r: seq<GradedSessions>)
    requires forall i :: 0 <= i < |ids| ==> ids[i] in routes
    ensures |r| == |ids|
    ensures forall i :: 0 <= i < |ids| ==> r[i].grade == routes[ids[i]].grade
    ensures forall i :: 0 <= i < |ids| ==> (r[i].sessions.None? <==> !IsSent(ascents, ids[i]))
  {
    seq(|ids|, i requires 0 <= i < |ids| =>
      GradedSessions(routes[ids[i]].grade,
        match SessionsToSend(ascents, ids[i]) case None => None case Some(n) => Some(n as int)))
  }

  /** `getGradeOndraScores`, with the user's grade range and each route's grade
      and sessions to send as inputs: one row per grade from `minGrade` to
      `maxGrade` listing the sessions of the routes at that grade, in route
      order, with their Ondra score. Any route outside the range makes the code
      throw. */
  function GradeOndraScores(minGrade: int, maxGrade: int, routes: seq<GradedSessions>)
    : (r: Result<seq<GradeOndra>, AggregationError>)
    ensures r.Success? <==> SessionsInRange(routes, minGrade, maxGrade)
    ensures r.Success? ==> |r.value| == Width(minGrade, maxGrade)
    ensures r.Success? ==> forall i :: 0 <= i < |r.value| ==>
      && r.value[i].grade == minGrade + i
      && r.value[i].sessionsToSend == SessionsAtGrade(routes, minGrade + i)
      && r.value[i].ondraScore == Utils.OndraScore(r.value[i].sessionsToSend)
  {
    var table: seq<seq<Option<int>>> := seq(Width(minGrade, maxGrade), _ => []);
    assert SessionsInRange(routes, minGrade, maxGrade) <==> SessionsInRange(routes, minGrade, minGrade + |table| - 1);
    match TallySessions(minGrade, table, routes)
    case Failure(e) => Failure(e)
    case Success(lists) =>
      forall i | 0 <= i < |lists|
        ensures lists[i] == SessionsAtGrade(routes, minGrade + i)
      {
        TallySessionsRow(minGrade, table, routes, i);
      }
      Success(seq(|lists|, i requires 0 <= i < |lists| =>
        GradeOndra(minGrade + i, lists[i], Utils.OndraScore(lists[i]))))
  }
}
