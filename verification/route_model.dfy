/** The Route schema of models/route.model.js and its document methods. Unlike
    the route service, every statistic here is scoped to the route's owner
    (`userId: this.userId`), and the cascade tolerates a missing area. */
module RouteModel {
  import opened Wrappers
  import opened Entities
  import opened Query
  import RouteServices

  // ---------------------------------------------------------------------
  // Schema rules
  // ---------------------------------------------------------------------

  /** The fields handed to `new Route(...)`; an absent field is `None`. The
      grade is any JavaScript number. Keys outside the schema are dropped by
      the constructor and do not appear here. */
  datatype RouteInput = RouteInput(
    name: Option<string>,
    grade: Option<real>,
    color: Option<string>,
    userId: Option<UserId>,
    areaId: Option<AreaId>,
    bookmarked: Option<bool>)

  /** `Number.isInteger`. */
  predicate IsInteger(x: real) {
    x.Floor as real == x
  }

  /** The paths that fail validation. */
  function RouteErrors(input: RouteInput, colors: seq<string>): set<Path> {
    (if PresentString(input.name) then {} else {Field("name")})
    + (if input.grade.Some? && IsInteger(input.grade.value) then {} else {Field("grade")})
    + (if PresentString(input.color) && input.color.value in colors then {} else {Field("color")})
    + (if input.userId.Some? then {} else {Field("userId")})
  }

  /** `validate()` before `save()`: the document with `bookmarked` defaulted to
      false, or the failing paths. */
  function ValidateRoute(input: RouteInput, colors: seq<string>): (r: Result<Route, set<Path>>)
    ensures r.Failure? ==> r.error != {}
    ensures r.Failure? ==> forall p :: p in r.error ==> p.Field? && p.name in {"name", "grade", "color", "userId"}
    ensures r.Success? <==>
      && PresentString(input.name)
      && input.grade.Some? && IsInteger(input.grade.value)
      && PresentString(input.color) && input.color.value in colors
      && input.userId.Some?
    ensures r.Success? ==>
      && r.value.name == input.name.value
      && r.value.grade as real == input.grade.value
      && r.value.color == input.color.value
      && r.value.userId == input.userId.value
      && r.value.areaId == input.areaId
      && r.value.bookmarked == input.bookmarked.GetOr(false)
  {
    var errors := RouteErrors(input, colors);
    if errors != {} then Failure(errors)
    else Success(Route(input.name.value, input.grade.value.Floor, input.color.value,
                       input.userId.value, input.areaId, input.bookmarked.GetOr(false)))
  }

  /** Each rule reports its own path: a path fails exactly when its rule is
      broken, whatever the other fields hold. */
  lemma RouteErrorPaths(input: RouteInput, colors: seq<string>)
    ensures ValidateRoute(input, colors).Failure? ==>
      var errs := ValidateRoute(input, colors).error;
      && (Field("name") in errs <==> !PresentString(input.name))
      && (Field("grade") in errs <==> !(input.grade.Some? && IsInteger(input.grade.value)))
      && (Field("color") in errs <==> !(PresentString(input.color) && input.color.value in colors))
      && (Field("userId") in errs <==> input.userId.None?)
  {
  }

  /** The schema's examples: a complete route saves with `bookmarked` false; a
      route without a name fails on `name`; an unknown colour fails on `color`;
      a route without an area saves; a fractional grade fails on `grade`. */
  lemma RouteSchemaExamples(colors: seq<string>)
    requires |colors| > 0 && colors[0] != "" && "invalid" !in colors
    ensures var ok := RouteInput(Some("Test Route"), Some(5.0), Some(colors[0]), Some(1), Some(2), None);
            ValidateRoute(ok, colors) == Success(Route("Test Route", 5, colors[0], 1, Some(2), false))
    ensures ValidateRoute(RouteInput(None, Some(5.0), Some(colors[0]), Some(1), Some(2), None), colors)
            == Failure({Field("name")})
    ensures ValidateRoute(RouteInput(Some("Test Route"), Some(5.0), Some("invalid"), Some(1), Some(2), None), colors)
            == Failure({Field("color")})
    ensures ValidateRoute(RouteInput(Some("Test Route"), Some(5.0), Some(colors[0]), Some(1), None, None), colors).Success?
    ensures ValidateRoute(RouteInput(Some("Test Route"), Some(5.5), Some(colors[0]), Some(1), None, None), colors)
            == Failure({Field("grade")})
  {
    assert (5.0).Floor == 5;
    assert (5.5).Floor == 5;
    assert PresentString(Some("Test Route")) && colors[0] in colors;
    assert RouteErrors(RouteInput(Some("Test Route"), Some(5.0), Some(colors[0]), Some(1), Some(2), None), colors) == {};
    assert RouteErrors(RouteInput(Some("Test Route"), Some(5.0), Some("invalid"), Some(1), Some(2), None), colors) == {Field("color")};
  }

  // ---------------------------------------------------------------------
  // Owner-scoped statistics
  // ---------------------------------------------------------------------

  /** `{ routeId: this._id, userId: this.userId, tickType: { $in: ticks } }`. */
  function OwnTicks(id: RouteId, self: Route, ticks: set<TickType>): Filter {
    OfRoute(id).(userId := Some(self.userId), tickIn := Some(ticks))
  }

  /** `isFlashed`: the owner logged a flash of this route. */
  function IsFlashed(ascents: seq<Ascent>, id: RouteId, self: Route): (b: bool)
    ensures b <==> exists a :: a in ascents && a.routeId == id && a.userId == self.userId && a.tickType == Flash
  {
    FindFirst(ascents, OwnTicks(id, self, {Flash})).Some?
  }

  /** `isSent`: the owner logged a flash or a redpoint of this route. */
  function IsSent(ascents: seq<Ascent>, id: RouteId, self: Route): (b: bool)
    ensures b <==> exists a :: a in ascents && a.routeId == id && a.userId == self.userId && IsSendTick(a.tickType)
  {
    FindFirst(ascents, OwnTicks(id, self, RouteServices.SendTicks)).Some?
  }

  /** A route its owner flashed is a route its owner sent. */
  lemma FlashedImpliesSent(ascents: seq<Ascent>, id: RouteId, self: Route)
    ensures IsFlashed(ascents, id, self) ==> IsSent(ascents, id, self)
  {
  }

  /** A sent route that was not flashed has an owner redpoint, so the lookup of
      the earliest redpoint always finds one. */
  lemma SentNotFlashedHasRedpoint(ascents: seq<Ascent>, id: RouteId, self: Route)
    requires IsSent(ascents, id, self) && !IsFlashed(ascents, id, self)
    ensures FindMinBy(ascents, OwnTicks(id, self, {Redpoint}), Date).Some?
  {
    var a :| a in ascents && a.routeId == id && a.userId == self.userId && IsSendTick(a.tickType);
    assert Matches(OwnTicks(id, self, {Redpoint}), a);
  }

  /** `sessionsToSend` (owner-wide): 0 when flashed, -1 when not sent, and
      otherwise the number of distinct dates of ALL the owner's ascents, on any
      route, before the earliest redpoint of this route. */
  function SessionsToSend(ascents: seq<Ascent>, id: RouteId, self: Route): (r: int)
    ensures IsFlashed(ascents, id, self) ==> r == 0
    ensures r == -1 <==> !IsSent(ascents, id, self)
    ensures r >= -1
    ensures IsSent(ascents, id, self) && !IsFlashed(ascents, id, self) ==>
      exists e :: EarliestOf(ascents, OwnTicks(id, self, {Redpoint}), e)
               && r == |DistinctDates(ascents, OfUser(self.userId).(dateLt := Some(e.date)))|
  {
    if IsFlashed(ascents, id, self) then 0
    else if !IsSent(ascents, id, self) then -1
    else
      SentNotFlashedHasRedpoint(ascents, id, self);
      var e := FindMinBy(ascents, OwnTicks(id, self, {Redpoint}), Date).value;
      |DistinctDates(ascents, OfUser(self.userId).(dateLt := Some(e.date)))|
  }

  /** `firstSentAscent`: `null` when the owner has not sent the route, otherwise
      an owner send of the route that no other owner send predates. */
  function FirstSentAscent(ascents: seq<Ascent>, id: RouteId, self: Route): (r: Option<Ascent>)
    ensures r.None? <==> !IsSent(ascents, id, self)
    ensures r.Some? ==>
      && r.value in ascents && r.value.routeId == id && r.value.userId == self.userId
      && IsSendTick(r.value.tickType)
    ensures r.Some? ==> forall b :: b in ascents && b.routeId == id && b.userId == self.userId && IsSendTick(b.tickType)
                                  ==> r.value.date <= b.date
  {
    FindMinBy(ascents, OwnTicks(id, self, RouteServices.SendTicks), Date)
  }

  /** The owner logged every ascent of the route. */
  predicate OnlyOwnerAscents(ascents: seq<Ascent>, id: RouteId, self: Route) {
    forall a :: a in ascents && a.routeId == id ==> a.userId == self.userId
  }

  /** When only the owner climbed the route, the route-scoped service and the
      owner-scoped methods agree on flash and send, map `null` to -1 and 0 to 0,
      and the service's route-scoped session count never exceeds the model's
      owner-wide one. */
  lemma SessionsVariantsCompare(ascents: seq<Ascent>, id: RouteId, self: Route)
    requires OnlyOwnerAscents(ascents, id, self)
    ensures RouteServices.IsFlashed(ascents, id) == IsFlashed(ascents, id, self)
    ensures RouteServices.IsSent(ascents, id) == IsSent(ascents, id, self)
    ensures RouteServices.SessionsToSend(ascents, id).None? <==> SessionsToSend(ascents, id, self) == -1
    ensures RouteServices.SessionsToSend(ascents, id) == Some(0) <== SessionsToSend(ascents, id, self) == 0
    ensures RouteServices.SessionsToSend(ascents, id).Some? ==>
      RouteServices.SessionsToSend(ascents, id).value <= SessionsToSend(ascents, id, self)
  {
    var service := RouteServices.SessionsToSend(ascents, id);
    var model := SessionsToSend(ascents, id, self);
    if service.Some? && !IsFlashed(ascents, id, self) {
      var e1 :| EarliestOf(ascents, RouteServices.OfRouteWithTicks(id, {Redpoint}), e1)
                && service.value == |DistinctDates(ascents, OfRoute(id).(dateLt := Some(e1.date)))|;
      var e2 :| EarliestOf(ascents, OwnTicks(id, self, {Redpoint}), e2)
                && model == |DistinctDates(ascents, OfUser(self.userId).(dateLt := Some(e2.date)))|;
      assert Matches(OwnTicks(id, self, {Redpoint}), e1);
      assert Matches(RouteServices.OfRouteWithTicks(id, {Redpoint}), e2);
      assert e1.date == e2.date;
      DistinctDatesSubset(ascents, OfRoute(id).(dateLt := Some(e1.date)), OfUser(self.userId).(dateLt := Some(e1.date)));
    }
  }

  // ---------------------------------------------------------------------
  // Cascading delete of a route document
  // ---------------------------------------------------------------------

  /** `route.deleteWithDependents()` on the loaded document `self` stored under
      `id`: delete every ascent of the route, look up `self.areaId` (nothing is
      found for a route without an area or whose area is gone), delete the
      route, and delete the area found when no route references it any more.
      No step can abort on a missing document. */
  function DeleteWithDependents(s: Store, id: RouteId, self: Route): (t: Store)
    ensures DeletedOnly(s, t)
    ensures forall k :: k in t.ascents <==> k in s.ascents && s.ascents[k].routeId != id
    ensures t.routes.Keys == s.routes.Keys - {id}
    ensures forall a :: a in s.areas ==>
      (a !in t.areas <==>
         self.areaId == Some(a) && forall k :: k in s.routes && k != id ==> s.routes[k].areaId != Some(a))
  {
    var ascents := RouteServices.WithoutAscentsOf(s.ascents, id);
    var routes := s.routes - {id};
    var areas :=
      match self.areaId
      case None => s.areas
      case Some(a) => if a in s.areas && !AreaHasRoutes(routes, a) then s.areas - {a} else s.areas;
    Store(ascents, routes, areas)
  }

  /** A route whose area is missing deletes no area and still succeeds. */
  lemma DeleteToleratesMissingArea(s: Store, id: RouteId, self: Route)
    requires self.areaId.Some? && self.areaId.value !in s.areas
    ensures DeleteWithDependents(s, id, self).areas == s.areas
  {
  }

  /** On a stored route the document method and the service cascade delete the
      same documents. */
  lemma DeleteVariantsAgree(s: Store, id: RouteId)
    requires id in s.routes
    ensures RouteServices.DeleteWithDependents(s, id) == Success(DeleteWithDependents(s, id, s.routes[id]))
  {
    match s.routes[id].areaId
    case None =>
    case Some(a) =>
      if a !in s.areas {
        assert s.areas - {a} == s.areas;
      }
  }

  /** On a store with intact references the cascade leaves no ascent of the
      route and keeps references intact. */
  lemma DeleteWithDependentsKeepsReferences(s: Store, id: RouteId, self: Route)
    requires ReferencesIntact(s)
    ensures !RouteHasAscents(DeleteWithDependents(s, id, self).ascents, id)
    ensures ReferencesIntact(DeleteWithDependents(s, id, self))
  {
  }
}
