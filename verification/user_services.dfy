/** Per-user statistics of services/user.services.js. */
module UserServices {
  import opened Wrappers
  import opened Entities
  import opened Query

  /** `getFirstAscentDate`: `null` for a user without ascents, otherwise the
      least date of the user's ascents. */
  function FirstAscentDate(ascents: seq<Ascent>, user: UserId): (r: Option<Day>)
    ensures r.None? <==> forall a :: a in ascents ==> a.userId != user
    ensures r.Some? ==> exists a :: a in ascents && a.userId == user && a.date == r.value
    ensures r.Some? ==> forall a :: a in ascents && a.userId == user ==> r.value <= a.date
  {
    EarliestDate(ascents, OfUser(user))
  }

  /** `getLastAscentDate`: `null` for a user without ascents, otherwise the
      greatest date of the user's ascents. */
  function LastAscentDate(ascents: seq<Ascent>, user: UserId): (r: Option<Day>)
    ensures r.None? <==> forall a :: a in ascents ==> a.userId != user
    ensures r.Some? ==> exists a :: a in ascents && a.userId == user && a.date == r.value
    ensures r.Some? ==> forall a :: a in ascents && a.userId == user ==> a.date <= r.value
  {
    LatestDate(ascents, OfUser(user))
  }

  /** The first and last ascent dates exist together and are in order. */
  lemma FirstAscentNotAfterLast(ascents: seq<Ascent>, user: UserId)
    ensures FirstAscentDate(ascents, user).Some? <==> LastAscentDate(ascents, user).Some?
    ensures FirstAscentDate(ascents, user).Some? ==>
      FirstAscentDate(ascents, user).value <= LastAscentDate(ascents, user).value
  {
    if FirstAscentDate(ascents, user).Some? {
      EarliestNotAfterLatest(ascents, OfUser(user));
    }
  }

  // ---------------------------------------------------------------------
  // Prefill date
  // ---------------------------------------------------------------------

  const TwelveHoursMs: Millis := 12 * 60 * 60 * 1000

  /** The greatest `createdAt` among the user's ascents that have one. */
  function LatestCreatedAt(ascents: seq<Ascent>, user: UserId): (r: Option<Millis>)
    ensures r.None? <==> forall a :: a in ascents && a.userId == user ==> a.createdAt.None?
    ensures r.Some? ==> exists a :: a in ascents && a.userId == user && a.createdAt == Some(r.value)
    ensures r.Some? ==> forall a :: a in ascents && a.userId == user && a.createdAt.Some? ==> a.createdAt.value <= r.value
  {
    if ascents == [] then None
    else
      var rest := LatestCreatedAt(ascents[1..], user);
      var a := ascents[0];
      if a.userId != user || a.createdAt.None? then rest
      else if rest.None? || rest.value <= a.createdAt.value then a.createdAt
      else rest
  }

  /** What `new Date(getLastAscentCreatedAt(userId))` gives: the epoch for
      `null` (no ascent), an invalid date for `undefined` (the newest ascent
      has no `createdAt`), otherwise that time. */
  datatype CreatedAtDate = Epoch | InvalidDate | At(ms: Millis)

  /** `getLastAscentCreatedAt` as intended, for ascents stored with a
      creation time, already passed through `new Date(...)`. In a
      descending sort on `createdAt` a document without the field comes last,
      so a user ascent with a timestamp is preferred to one without. */
  function LastAscentCreatedAt(ascents: seq<Ascent>, user: UserId): (r: CreatedAtDate)
    ensures r == Epoch <==> forall a :: a in ascents ==> a.userId != user
    ensures r == InvalidDate <==>
      (exists a :: a in ascents && a.userId == user) && forall a :: a in ascents && a.userId == user ==> a.createdAt.None?
    ensures r.At? ==> exists a :: a in ascents && a.userId == user && a.createdAt == Some(r.ms)
    ensures r.At? ==> forall a :: a in ascents && a.userId == user && a.createdAt.Some? ==> a.createdAt.value <= r.ms
  {
    match LatestCreatedAt(ascents, user)
    case Some(ms) => At(ms)
    case None => if FindFirst(ascents, OfUser(user)).Some? then InvalidDate else Epoch
  }

  /** `getPrefillCreateAscentDate` as intended, with the clock reading `now` as a
      parameter: the newest creation time of the user's ascents when it lies
      within the last twelve hours, otherwise `now`. An invalid date compares
      false, and the epoch only wins while `now` is within twelve hours of it. */
  function PrefillCreateAscentDate(ascents: seq<Ascent>, user: UserId, now: Millis): (r: Millis)
    ensures r == now || now - TwelveHoursMs < r
    ensures r != now ==>
      (r == 0 && forall a :: a in ascents ==> a.userId != user)
      || exists a :: a in ascents && a.userId == user && a.createdAt == Some(r)
    ensures (exists a :: a in ascents && a.userId == user && a.createdAt.Some? && now - TwelveHoursMs < a.createdAt.value) ==>
      forall a :: a in ascents && a.userId == user && a.createdAt.Some? ==> a.createdAt.value <= r
    ensures (forall a :: a in ascents && a.userId == user && a.createdAt.Some? ==> a.createdAt.value <= now - TwelveHoursMs)
            && ((exists a :: a in ascents && a.userId == user) || TwelveHoursMs <= now)
            ==> r == now
    ensures (exists a :: a in ascents && a.userId == user && a.createdAt.Some? && now - TwelveHoursMs < a.createdAt.value)
            ==> LatestCreatedAt(ascents, user) == Some(r)
    ensures (forall a :: a in ascents ==> a.userId != user) && now < TwelveHoursMs ==> r == 0
  {
    match LastAscentCreatedAt(ascents, user)
    case Epoch => if 0 > now - TwelveHoursMs then 0 else now
    case InvalidDate => now
    case At(ms) => if ms > now - TwelveHoursMs then ms else now
  }

  /** `getLastAscentCreatedAt` as written, through `new Date(...)`: the ascent
      schema declares no `createdAt` path and no timestamps, so the document
      found yields `undefined` whatever is stored, an invalid date. */
  function LastAscentCreatedAtAsWritten(ascents: seq<Ascent>, user: UserId): (r: CreatedAtDate)
    ensures r == Epoch <==> forall a :: a in ascents ==> a.userId != user
    ensures r == InvalidDate <==> exists a :: a in ascents && a.userId == user
  {
    if FindFirst(ascents, OfUser(user)).Some? then InvalidDate else Epoch
  }

  /** `getPrefillCreateAscentDate` as written: `now` for every user with
      ascents, however recently they were logged. */
  function PrefillCreateAscentDateAsWritten(ascents: seq<Ascent>, user: UserId, now: Millis): (r: Millis)
    ensures (exists a :: a in ascents && a.userId == user) ==> r == now
    ensures (forall a :: a in ascents ==> a.userId != user) ==> r == PrefillCreateAscentDate(ascents, user, now)
  {
    // An invalid date never compares greater, so only the epoch can win.
    if LastAscentCreatedAtAsWritten(ascents, user) == Epoch && 0 > now - TwelveHoursMs then 0 else now
  }

  /** The two readings agree whenever no ascent carries a creation time, which
      is every store the declared schema can produce. */
  lemma PrefillVariantsAgreeWithoutTimestamps(ascents: seq<Ascent>, user: UserId, now: Millis)
    requires forall a :: a in ascents ==> a.createdAt.None?
    ensures PrefillCreateAscentDateAsWritten(ascents, user, now) == PrefillCreateAscentDate(ascents, user, now)
  {
  }

  /** An ascent created an hour ago: as written the prefill is `now`, as
      intended it is that ascent's creation time. */
  lemma PrefillAsWrittenIgnoresRecentAscent()
    ensures var now := 10 * TwelveHoursMs;
            var xs := [Ascent(1, 7, 100, None, Flash, Some(now - 3600000))];
            && PrefillCreateAscentDateAsWritten(xs, 7, now) == now
            && PrefillCreateAscentDate(xs, 7, now) == now - 3600000
  {
    var now := 10 * TwelveHoursMs;
    var xs := [Ascent(1, 7, 100, None, Flash, Some(now - 3600000))];
    assert xs[0] in xs;
  }

  /** A user without ascents gets `now`. */
  lemma PrefillWithoutAscents(ascents: seq<Ascent>, user: UserId, now: Millis)
    requires forall a :: a in ascents ==> a.userId != user
    requires TwelveHoursMs <= now
    ensures PrefillCreateAscentDate(ascents, user, now) == now
  {
  }

  /** Ascents stored under the declared schema carry no `createdAt`, so the
      prefill is always `now` for a user who has ascents. */
  lemma PrefillWithoutTimestamps(ascents: seq<Ascent>, user: UserId, now: Millis)
    requires forall a :: a in ascents ==> a.createdAt.None?
    requires exists a :: a in ascents && a.userId == user
    ensures PrefillCreateAscentDate(ascents, user, now) == now
  {
  }

  // ---------------------------------------------------------------------
  // Grades
  // ---------------------------------------------------------------------

  /** The user's ascents whose route is in the store; their grade is the grade
      of that route. */
  function GradedOfUser(routes: map<RouteId, Route>, user: UserId): Filter {
    OfUser(user).(routeIn := Some(routes.Keys))
  }

  /** `getMinimumAscentGrade`, reading an ascent's grade from its route:
      `null` when the user has no graded ascent, otherwise the least grade. */
  function MinimumAscentGrade(routes: map<RouteId, Route>, ascents: seq<Ascent>, user: UserId): (r: Option<int>)
    ensures r.None? <==> forall a :: a in ascents && a.userId == user ==> a.routeId !in routes
    ensures r.Some? ==> exists a :: a in ascents && a.userId == user && a.routeId in routes && routes[a.routeId].grade == r.value
    ensures r.Some? ==> forall a :: a in ascents && a.userId == user && a.routeId in routes ==> r.value <= routes[a.routeId].grade
  {
    match FindMinBy(ascents, GradedOfUser(routes, user), RouteGrade(routes))
    case None => None
    case Some(a) => Some(routes[a.routeId].grade)
  }

  /** `getMaximumAscentGrade`, reading an ascent's grade from its route:
      `null` when the user has no graded ascent, otherwise the greatest grade. */
  function MaximumAscentGrade(routes: map<RouteId, Route>, ascents: seq<Ascent>, user: UserId): (r: Option<int>)
    ensures r.None? <==> forall a :: a in ascents && a.userId == user ==> a.routeId !in routes
    ensures r.Some? ==> exists a :: a in ascents && a.userId == user && a.routeId in routes && routes[a.routeId].grade == r.value
    ensures r.Some? ==> forall a :: a in ascents && a.userId == user && a.routeId in routes ==> routes[a.routeId].grade <= r.value
  {
    match FindMaxBy(ascents, GradedOfUser(routes, user), RouteGrade(routes))
    case None => None
    case Some(a) => Some(routes[a.routeId].grade)
  }

  /** `getMaximumAscentGradeByTickType`: as `getMaximumAscentGrade`, over the
      user's ascents of one tick type only. */
  function MaximumAscentGradeByTickType(routes: map<RouteId, Route>, ascents: seq<Ascent>, user: UserId, t: TickType)
    : (r: Option<int>)
    ensures r.None? <==> forall a :: a in ascents && a.userId == user && a.tickType == t ==> a.routeId !in routes
    ensures r.Some? ==> exists a :: a in ascents && a.userId == user && a.tickType == t && a.routeId in routes
                                    && routes[a.routeId].grade == r.value
    ensures r.Some? ==> forall a :: a in ascents && a.userId == user && a.tickType == t && a.routeId in routes
                                    ==> routes[a.routeId].grade <= r.value
  {
    match FindMaxBy(ascents, GradedOfUser(routes, user).(tickIn := Some({t})), RouteGrade(routes))
    case None => None
    case Some(a) => Some(routes[a.routeId].grade)
  }

  /** What `doc ? doc.grade : null` gives for an ascent, which has no `grade`
      field: `null` without a document and `undefined` with one. */
  datatype GradeField = NullGrade | UndefinedGrade

  /** `findOne(filter).sort({ grade: ±1 })` followed by `.grade`, as written:
      every match ties on the absent key, so whichever match is found (the
      first in natural order, in either direction) yields `undefined`. */
  function GradeSortAsWritten(ascents: seq<Ascent>, f: Filter): (r: GradeField)
    ensures r == NullGrade <==> forall a :: a in ascents ==> !Matches(f, a)
  {
    if FindFirst(ascents, f).Some? then UndefinedGrade else NullGrade
  }

  /** `getMinimumAscentGrade` and `getMaximumAscentGrade` as written: the sort
      direction makes no difference, and both give `undefined` for any user
      with ascents. */
  function UserGradeAsWritten(ascents: seq<Ascent>, user: UserId): (r: GradeField)
    ensures r == NullGrade <==> forall a :: a in ascents ==> a.userId != user
    ensures r == UndefinedGrade <==> exists a :: a in ascents && a.userId == user
  {
    GradeSortAsWritten(ascents, OfUser(user))
  }

  /** `getMaximumAscentGradeByTickType` as written: `undefined` for any user
      with an ascent of that tick type. */
  function MaximumAscentGradeByTickTypeAsWritten(ascents: seq<Ascent>, user: UserId, t: TickType): (r: GradeField)
    ensures r == NullGrade <==> forall a :: a in ascents && a.userId == user ==> a.tickType != t
    ensures r == UndefinedGrade <==> exists a :: a in ascents && a.userId == user && a.tickType == t
  {
    GradeSortAsWritten(ascents, OfUser(user).(tickIn := Some({t})))
  }

  /** With every ascent's route in the store, the lookups as written return
      `undefined` exactly when the intended ones return a grade. */
  lemma GradeLookupsAsWrittenNeverGrade(routes: map<RouteId, Route>, ascents: seq<Ascent>, user: UserId, t: TickType)
    requires forall a :: a in ascents ==> a.routeId in routes
    ensures MinimumAscentGrade(routes, ascents, user).Some? <==> UserGradeAsWritten(ascents, user) == UndefinedGrade
    ensures MaximumAscentGrade(routes, ascents, user).Some? <==> UserGradeAsWritten(ascents, user) == UndefinedGrade
    ensures MaximumAscentGradeByTickType(routes, ascents, user, t).Some?
            <==> MaximumAscentGradeByTickTypeAsWritten(ascents, user, t) == UndefinedGrade
  {
  }

  /** One flash of a grade-5 route: the code as written reports `undefined` as
      the minimum and the maximum, the intended lookups report 5. */
  lemma GradeSortAsWrittenMissesGrade()
    ensures var routes := map[1 := Route("Arete", 5, "red", 7, None, false)];
            var xs := [Ascent(1, 7, 100, None, Flash, None)];
            && UserGradeAsWritten(xs, 7) == UndefinedGrade
            && MinimumAscentGrade(routes, xs, 7) == Some(5) && MaximumAscentGrade(routes, xs, 7) == Some(5)
  {
    var xs := [Ascent(1, 7, 100, None, Flash, None)];
    assert xs[0] in xs;
  }

  /** With every ascent's route in the store, both grades are `null` exactly
      when the user has no ascents, and the minimum is at most the maximum. */
  lemma GradeRange(routes: map<RouteId, Route>, ascents: seq<Ascent>, user: UserId)
    requires forall a :: a in ascents ==> a.routeId in routes
    ensures MinimumAscentGrade(routes, ascents, user).None? <==> forall a :: a in ascents ==> a.userId != user
    ensures MaximumAscentGrade(routes, ascents, user).None? <==> forall a :: a in ascents ==> a.userId != user
    ensures MinimumAscentGrade(routes, ascents, user).Some? ==>
      MinimumAscentGrade(routes, ascents, user).value <= MaximumAscentGrade(routes, ascents, user).value
  {
    var lo := MinimumAscentGrade(routes, ascents, user);
    if lo.Some? {
      var a :| a in ascents && a.userId == user && a.routeId in routes && routes[a.routeId].grade == lo.value;
    }
  }

  /** The best grade of one tick type never exceeds the best grade overall. */
  lemma GradeByTickTypeAtMostMaximum(routes: map<RouteId, Route>, ascents: seq<Ascent>, user: UserId, t: TickType)
    requires MaximumAscentGradeByTickType(routes, ascents, user, t).Some?
    ensures MaximumAscentGrade(routes, ascents, user).Some?
    ensures MaximumAscentGradeByTickType(routes, ascents, user, t).value <= MaximumAscentGrade(routes, ascents, user).value
  {
    var g := MaximumAscentGradeByTickType(routes, ascents, user, t).value;
    var a :| a in ascents && a.userId == user && a.tickType == t && a.routeId in routes && routes[a.routeId].grade == g;
  }
}
