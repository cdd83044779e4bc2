/** The ascent cascade and the weekly tick-type histogram of
    services/ascent.services.js. */
module AscentServices {
  import opened Wrappers
  import opened Entities
  import opened Query
  import Utils
  import UserServices

  /** `deleteWithDependents(ascentId)`: inside one transaction, look up the
      ascent, its route and the route's area (each missing one aborts; an area
      is mandatory here), delete the ascent, delete the route if no ascent
      references it any more, then delete the area if no route references it
      any more. */
  function DeleteWithDependents(s: Store, id: AscentId): (r: Result<Store, CascadeError>)
    ensures id !in s.ascents ==> r == Failure(AscentNotFound)
    ensures id in s.ascents && s.ascents[id].routeId !in s.routes ==> r == Failure(RouteNotFound)
    ensures id in s.ascents && s.ascents[id].routeId in s.routes
            && (s.routes[s.ascents[id].routeId].areaId.None? || s.routes[s.ascents[id].routeId].areaId.value !in s.areas)
            ==> r == Failure(AreaNotFound)
    ensures r.Success? ==> DeletedOnly(s, r.value)
    ensures r.Success? ==> r.value.ascents.Keys == s.ascents.Keys - {id}
    ensures r.Success? ==>
      var route := s.ascents[id].routeId;
      && (forall k :: k in s.routes && k != route ==> k in r.value.routes)
      && (route in r.value.routes <==> exists k :: k in s.ascents && k != id && s.ascents[k].routeId == route)
    ensures r.Success? ==>
      var route := s.ascents[id].routeId;
      var area := s.routes[route].areaId.value;
      && (forall a :: a in s.areas && a != area ==> a in r.value.areas)
      && (area in r.value.areas <==>
            route in r.value.routes || exists k :: k in s.routes && k != route && s.routes[k].areaId == Some(area))
  {
    if id !in s.ascents then Failure(AscentNotFound)
    else
      var ascent := s.ascents[id];
      if ascent.routeId !in s.routes then Failure(RouteNotFound)
      else
        var route := s.routes[ascent.routeId];
        if route.areaId.None? || route.areaId.value !in s.areas then Failure(AreaNotFound)
        else
          var area := route.areaId.value;
          var ascents := s.ascents - {id};
          var routes := if RouteHasAscents(ascents, ascent.routeId) then s.routes else s.routes - {ascent.routeId};
          var areas := if AreaHasRoutes(routes, area) then s.areas else s.areas - {area};
          Success(Store(ascents, routes, areas))
  }

  /** The cascade succeeds exactly when the ascent, its route and the route's
      area all exist. */
  lemma DeleteSucceedsIffChainExists(s: Store, id: AscentId)
    ensures DeleteWithDependents(s, id).Success? <==>
      && id in s.ascents
      && s.ascents[id].routeId in s.routes
      && s.routes[s.ascents[id].routeId].areaId.Some?
      && s.routes[s.ascents[id].routeId].areaId.value in s.areas
  {
  }

  /** The cascade never leaves the store with a dangling reference, and the
      area goes only together with its last route. */
  lemma DeleteWithDependentsKeepsReferences(s: Store, id: AscentId)
    requires ReferencesIntact(s)
    requires DeleteWithDependents(s, id).Success?
    ensures ReferencesIntact(DeleteWithDependents(s, id).value)
    ensures var t := DeleteWithDependents(s, id).value;
            var route := s.ascents[id].routeId;
            route in t.routes ==> s.routes[route].areaId.value in t.areas
  {
  }

  /** Two ascents on one route: deleting one keeps the route and its area. */
  lemma DeleteKeepsRouteWithOtherAscent(s: Store, id: AscentId, other: AscentId)
    requires DeleteWithDependents(s, id).Success?
    requires other in s.ascents && other != id && s.ascents[other].routeId == s.ascents[id].routeId
    ensures var t := DeleteWithDependents(s, id).value;
            && s.ascents[id].routeId in t.routes
            && s.routes[s.ascents[id].routeId].areaId.value in t.areas
  {
  }

  /** The only ascent of the only route of an area: all three go. */
  lemma DeleteRemovesWholeChain(s: Store, id: AscentId)
    requires DeleteWithDependents(s, id).Success?
    requires forall k :: k in s.ascents && k != id ==> s.ascents[k].routeId != s.ascents[id].routeId
    requires var route := s.ascents[id].routeId;
             forall k :: k in s.routes && k != route ==> s.routes[k].areaId != s.routes[route].areaId
    ensures var t := DeleteWithDependents(s, id).value;
            && id !in t.ascents
            && s.ascents[id].routeId !in t.routes
            && s.routes[s.ascents[id].routeId].areaId.value !in t.areas
  {
  }

  // ---------------------------------------------------------------------
  // Weekly tick-type counts
  // ---------------------------------------------------------------------

  /** One week of `getWeeklyTickTypeCounts`: `counts[k]` is the count for the
      k-th configured tick type. */
  datatype WeekCounts = WeekCounts(weekStartDate: Day, weekEndDate: Day, total: nat, counts: seq<nat>)

  /** `{ userId, date: { $gte: start, $lte: end }, tickType: { $in: ticks } }`. */
  function InWeek(user: UserId, ticks: set<TickType>, start: Day, end: Day): Filter {
    OfUser(user).(tickIn := Some(ticks), dateGte := Some(start), dateLte := Some(end))
  }

  /** The record of the week starting on `start`: one count per tick type and
      their sum. */
  function WeekRecord(tickTypes: seq<TickType>, ascents: seq<Ascent>, user: UserId, start: Day): (w: WeekCounts)
    ensures w.weekStartDate == start && w.weekEndDate == Utils.WeekEndDate(start)
  {
    var end := Utils.WeekEndDate(start);
    var counts := TickCounts(tickTypes, ascents, user, start, end);
    WeekCounts(start, end, Sum(counts), counts)
  }

  /** A week's k-th count is the number of the user's ascents of the k-th tick
      type dated within the week, and with tick types listed once its total is
      the number of the user's ascents of any listed tick type in the week. */
  lemma WeekRecordCounts(tickTypes: seq<TickType>, ascents: seq<Ascent>, user: UserId, start: Day)
    ensures var w := WeekRecord(tickTypes, ascents, user, start);
      && |w.counts| == |tickTypes|
      && (forall k :: 0 <= k < |tickTypes| ==>
            w.counts[k] == Count(ascents, InWeek(user, {tickTypes[k]}, start, w.weekEndDate)))
      && (Distinct(tickTypes) ==>
            w.total == Count(ascents, InWeek(user, TickSet(tickTypes), start, w.weekEndDate)))
  {
    if Distinct(tickTypes) {
      SumOfTickCounts(tickTypes, ascents, user, start, Utils.WeekEndDate(start));
    }
  }

  /** Per-tick-type counts of distinct tick types add up to the count over all
      of them. */
  lemma {:induction false} SumOfTickCounts(tickTypes: seq<TickType>, ascents: seq<Ascent>, user: UserId, start: Day, end: Day)
    requires Distinct(tickTypes)
    ensures Sum(TickCounts(tickTypes, ascents, user, start, end)) == Count(ascents, InWeek(user, TickSet(tickTypes), start, end))
    decreases |tickTypes|
  {
    if tickTypes == [] {
      assert TickSet(tickTypes) == {};
      CountNone(ascents, InWeek(user, {}, start, end));
    } else {
      var counts := TickCounts(tickTypes, ascents, user, start, end);
      var rest := tickTypes[1..];
      TickSetCons(tickTypes);
      assert counts[1..] == TickCounts(rest, ascents, user, start, end);
      SumOfTickCounts(rest, ascents, user, start, end);
      CountInWeekSplit(ascents, user, tickTypes[0], TickSet(rest), start, end);
    }
  }

  /** The configured tick types as a set. */
  function TickSet(tickTypes: seq<TickType>): set<TickType> {
    set k | 0 <= k < |tickTypes| :: tickTypes[k]
  }

  /** The per-tick-type counts of a week, in configuration order. */
  function TickCounts(tickTypes: seq<TickType>, ascents: seq<Ascent>, user: UserId, start: Day, end: Day): (c: seq<nat>)
    ensures |c| == |tickTypes|
    ensures forall k :: 0 <= k < |tickTypes| ==> c[k] == Count(ascents, InWeek(user, {tickTypes[k]}, start, end))
  {
    seq(|tickTypes|, k requires 0 <= k < |tickTypes| => Count(ascents, InWeek(user, {tickTypes[k]}, start, end)))
  }

  /** A list of distinct tick types is its head plus the set of its tail, and
      the head is not in that set. */
  lemma TickSetCons(tickTypes: seq<TickType>)
    requires |tickTypes| > 0 && Distinct(tickTypes)
    ensures TickSet(tickTypes) == {tickTypes[0]} + TickSet(tickTypes[1..])
    ensures tickTypes[0] !in TickSet(tickTypes[1..])
  {
    var rest := tickTypes[1..];
    forall x | x in TickSet(tickTypes) ensures x in {tickTypes[0]} + TickSet(rest) {
      var k :| 0 <= k < |tickTypes| && tickTypes[k] == x;
      if k > 0 { assert rest[k - 1] == x; }
    }
    forall x | x in TickSet(rest) ensures x in TickSet(tickTypes) {
      var k :| 0 <= k < |rest| && rest[k] == x;
      assert tickTypes[k + 1] == x;
    }
    forall k | 0 <= k < |rest| ensures rest[k] != tickTypes[0] {
      assert tickTypes[k + 1] == rest[k];
    }
  }

  /** Counting a tick type and a set without it counts their union. */
  lemma CountInWeekSplit(xs: seq<Ascent>, user: UserId, t: TickType, ticks: set<TickType>, start: Day, end: Day)
    requires t !in ticks
    ensures Count(xs, InWeek(user, {t} + ticks, start, end))
         == Count(xs, InWeek(user, {t}, start, end)) + Count(xs, InWeek(user, ticks, start, end))
  {
    CountSplit(xs, InWeek(user, {t} + ticks, start, end), InWeek(user, {t}, start, end), InWeek(user, ticks, start, end));
  }

  lemma {:induction false} CountNone(xs: seq<Ascent>, f: Filter)
    requires f.tickIn == Some({})
    ensures Count(xs, f) == 0
  {
    if xs != [] { CountNone(xs[1..], f); }
  }

  /** A filter that matches exactly when one of two exclusive filters does
      counts their sum. */
  lemma {:induction false} CountSplit(xs: seq<Ascent>, f: Filter, g: Filter, h: Filter)
    requires forall a :: Matches(f, a) <==> Matches(g, a) || Matches(h, a)
    requires forall a :: !(Matches(g, a) && Matches(h, a))
    ensures Count(xs, f) == Count(xs, g) + Count(xs, h)
  {
    if xs != [] { CountSplit(xs[1..], f, g, h); }
  }

  /** The loop of `getWeeklyTickTypeCounts`: one record per week from the
      Sunday `firstWeekStart` while the week starts no later than the Saturday
      `lastWeekEnd`. */
  method CollectWeeks(tickTypes: seq<TickType>, ascents: seq<Ascent>, user: UserId, firstWeekStart: Day, lastWeekEnd: Day)
    returns (weeks: seq<WeekCounts>)
    requires Utils.Weekday(firstWeekStart) == Utils.Sunday && Utils.Weekday(lastWeekEnd) == Utils.Saturday
    requires firstWeekStart <= lastWeekEnd
    ensures firstWeekStart + 7 * |weeks| == lastWeekEnd + 1
    ensures weeks != [] && weeks[|weeks| - 1].weekEndDate == lastWeekEnd
    ensures forall i :: 0 <= i < |weeks| ==> weeks[i].weekStartDate == firstWeekStart + 7 * i
    ensures forall i :: 0 <= i < |weeks| ==>
      && Utils.Weekday(weeks[i].weekStartDate) == Utils.Sunday
      && weeks[i].weekEndDate == weeks[i].weekStartDate + 6
      && weeks[i] == WeekRecord(tickTypes, ascents, user, weeks[i].weekStartDate)
  {
    Utils.SundayToSaturday(firstWeekStart, lastWeekEnd);
    weeks := [];
    var start := firstWeekStart;
    while start <= lastWeekEnd
      invariant start == firstWeekStart + 7 * |weeks|
      invariant (lastWeekEnd + 1 - start) % 7 == 0
      invariant start <= lastWeekEnd + 1
      invariant Utils.Weekday(start) == Utils.Sunday
      invariant weeks != [] ==> weeks[|weeks| - 1].weekEndDate == start - 1
      invariant forall i :: 0 <= i < |weeks| ==> weeks[i].weekStartDate == firstWeekStart + 7 * i
      invariant forall i :: 0 <= i < |weeks| ==>
        && Utils.Weekday(weeks[i].weekStartDate) == Utils.Sunday
        && weeks[i].weekEndDate == weeks[i].weekStartDate + 6
        && weeks[i] == WeekRecord(tickTypes, ascents, user, weeks[i].weekStartDate)
      decreases lastWeekEnd - start
    {
      Utils.WeekEndOfSunday(start);
      Utils.WeekdayPlusWeek(start);
      weeks := weeks + [WeekRecord(tickTypes, ascents, user, start)];
      start := start + 7;
    }
  }

  /** Day `d` falls in one of the weeks. */
  predicate Covered(weeks: seq<WeekCounts>, d: Day)
  {
    exists i :: 0 <= i < |weeks| && weeks[i].weekStartDate <= d <= weeks[i].weekEndDate
  }

  /** Consecutive weeks from a Sunday cover every day up to their last Saturday. */
  lemma WeeksCover(weeks: seq<WeekCounts>, s: Day, d: Day)
    requires Utils.Weekday(s) == Utils.Sunday && s <= d < s + 7 * |weeks|
    requires forall i :: 0 <= i < |weeks| ==>
      weeks[i].weekStartDate == s + 7 * i && weeks[i].weekEndDate == weeks[i].weekStartDate + 6
    ensures Covered(weeks, d)
  {
    Utils.CoveringWeek(s, |weeks|, d);
    var i := (Utils.WeekStartDate(d) - s) / 7;
    assert weeks[i].weekStartDate == Utils.WeekStartDate(d);
  }

  /** Consecutive weeks from the Sunday of a user's first ascent through the
      Saturday of the last cover every ascent of the user. */
  lemma UserAscentsCovered(ascents: seq<Ascent>, user: UserId, weeks: seq<WeekCounts>, s: Day)
    requires UserServices.FirstAscentDate(ascents, user).Some?
    requires s == Utils.WeekStartDate(UserServices.FirstAscentDate(ascents, user).value)
    requires s + 7 * |weeks| == Utils.WeekEndDate(UserServices.LastAscentDate(ascents, user).value) + 1
    requires forall i :: 0 <= i < |weeks| ==> weeks[i].weekStartDate == s + 7 * i
    requires forall i :: 0 <= i < |weeks| ==> weeks[i].weekEndDate == weeks[i].weekStartDate + 6
    ensures forall a :: a in ascents && a.userId == user ==> Covered(weeks, a.date)
  {
    UserServices.FirstAscentNotAfterLast(ascents, user);
    forall a | a in ascents && a.userId == user
      ensures Covered(weeks, a.date)
    {
      WeeksCover(weeks, s, a.date);
    }
  }

  /** `getWeeklyTickTypeCounts`: no weeks for a user without ascents; otherwise
      one record per week, Sunday to Saturday, from the week of the first ascent
      through the week of the last, with no week skipped. */
  method WeeklyTickTypeCounts(tickTypes: seq<TickType>, ascents: seq<Ascent>, user: UserId)
    returns (weeks: seq<WeekCounts>)
    ensures weeks == [] <==> forall a :: a in ascents ==> a.userId != user
    ensures weeks != [] ==>
      && weeks[0].weekStartDate == Utils.WeekStartDate(UserServices.FirstAscentDate(ascents, user).value)
      && weeks[|weeks| - 1].weekEndDate == Utils.WeekEndDate(UserServices.LastAscentDate(ascents, user).value)
    ensures forall i :: 0 <= i < |weeks| ==> weeks[i].weekStartDate == weeks[0].weekStartDate + 7 * i
    ensures forall i :: 0 <= i < |weeks| ==>
      && Utils.Weekday(weeks[i].weekStartDate) == Utils.Sunday
      && weeks[i].weekEndDate == weeks[i].weekStartDate + 6
      && weeks[i] == WeekRecord(tickTypes, ascents, user, weeks[i].weekStartDate)
    ensures forall a :: a in ascents && a.userId == user ==> Covered(weeks, a.date)
  {
    var first := UserServices.FirstAscentDate(ascents, user);
    var last := UserServices.LastAscentDate(ascents, user);
    UserServices.FirstAscentNotAfterLast(ascents, user);
    if first.None? || last.None? {
      return [];
    }
    var firstWeekStart := Utils.WeekStartDate(first.value);
    var lastWeekEnd := Utils.WeekEndDate(last.value);
    weeks := CollectWeeks(tickTypes, ascents, user, firstWeekStart, lastWeekEnd);
    UserAscentsCovered(ascents, user, weeks, firstWeekStart);
  }
}
