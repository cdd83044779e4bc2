/** The Ascent schema of models/ascent.model.js and its post-`remove` hook,
    the older route-orphan cleanup that predates the service cascade. */
module AscentModel {
  import opened Wrappers
  import opened Entities
  import AscentServices

  // ---------------------------------------------------------------------
  // Schema rules
  // ---------------------------------------------------------------------

  /** The fields handed to `new Ascent(...)`; an absent field is `None`. */
  datatype AscentInput = AscentInput(
    routeId: Option<RouteId>,
    userId: Option<UserId>,
    date: Option<Day>,
    notes: Option<string>,
    tickType: Option<TickType>)

  /** The paths that fail validation: the four required fields, and a tick type
      outside the configured enumeration. */
  function AscentErrors(input: AscentInput, tickTypes: seq<TickType>): set<Path> {
    (if input.routeId.Some? then {} else {Field("routeId")})
    + (if input.userId.Some? then {} else {Field("userId")})
    + (if input.date.Some? then {} else {Field("date")})
    + (if PresentString(input.tickType) && input.tickType.value in tickTypes then {} else {Field("tickType")})
  }

  /** `validate()` before `save()`: the stored document (the schema adds no
      timestamps, so no `createdAt`), or the failing paths. */
  function ValidateAscent(input: AscentInput, tickTypes: seq<TickType>): (r: Result<Ascent, set<Path>>)
    ensures r.Failure? ==> r.error != {}
    ensures r.Success? <==>
      && input.routeId.Some? && input.userId.Some? && input.date.Some?
      && PresentString(input.tickType) && input.tickType.value in tickTypes
    ensures r.Success? ==>
      r.value == Ascent(input.routeId.value, input.userId.value, input.date.value, input.notes, input.tickType.value, None)
    ensures r.Failure? ==>
      && (Field("routeId") in r.error <==> input.routeId.None?)
      && (Field("userId") in r.error <==> input.userId.None?)
      && (Field("date") in r.error <==> input.date.None?)
      && (Field("tickType") in r.error <==> !(PresentString(input.tickType) && input.tickType.value in tickTypes))
      && (forall p :: p in r.error ==> p.Field? && p.name in {"routeId", "userId", "date", "tickType"})
  {
    var errors := AscentErrors(input, tickTypes);
    if errors != {} then Failure(errors)
    else Success(Ascent(input.routeId.value, input.userId.value, input.date.value, input.notes,
                        input.tickType.value, None))
  }

  /** `notes` never decides validity: an input validates with or without them. */
  lemma NotesAreOptional(input: AscentInput, tickTypes: seq<TickType>, notes: Option<string>)
    ensures ValidateAscent(input.(notes := notes), tickTypes).Success? == ValidateAscent(input, tickTypes).Success?
  {
  }

  /** The schema's examples: a complete ascent saves with its notes; one
      without a route fails on `routeId` only; an unknown tick type fails on
      `tickType` only. */
  lemma AscentSchemaExamples(tickTypes: seq<TickType>)
    requires |tickTypes| > 0 && tickTypes[0] != "" && "invalid_type" !in tickTypes
    ensures ValidateAscent(AscentInput(Some(1), Some(2), Some(100), Some("First ascent"), Some(tickTypes[0])), tickTypes)
            == Success(Ascent(1, 2, 100, Some("First ascent"), tickTypes[0], None))
    ensures ValidateAscent(AscentInput(None, Some(2), Some(100), Some("First ascent"), Some(tickTypes[0])), tickTypes)
            == Failure({Field("routeId")})
    ensures ValidateAscent(AscentInput(Some(1), Some(2), Some(100), Some("First ascent"), Some("invalid_type")), tickTypes)
            == Failure({Field("tickType")})
  {
    assert PresentString(Some(tickTypes[0])) && tickTypes[0] in tickTypes;
    assert AscentErrors(AscentInput(Some(1), Some(2), Some(100), Some("First ascent"), Some(tickTypes[0])), tickTypes) == {};
    assert AscentErrors(AscentInput(None, Some(2), Some(100), Some("First ascent"), Some(tickTypes[0])), tickTypes)
           == {Field("routeId")};
    assert AscentErrors(AscentInput(Some(1), Some(2), Some(100), Some("First ascent"), Some("invalid_type")), tickTypes)
           == {Field("tickType")};
  }

  // ---------------------------------------------------------------------
  // The post-remove hook
  // ---------------------------------------------------------------------

  /** The hook as intended, run on the store after `doc` was removed: delete
      the ascent's route (if it still exists) when no ascent references it any
      more. Areas are never touched. */
  function PostRemove(s: Store, doc: Ascent): (t: Store)
    ensures DeletedOnly(s, t)
    ensures t.ascents == s.ascents && t.areas == s.areas
    ensures forall k :: k in t.routes <==> k in s.routes && (k != doc.routeId || RouteHasAscents(s.ascents, k))
  {
    if RouteHasAscents(s.ascents, doc.routeId) then s
    else s.(routes := s.routes - {doc.routeId})
  }

  /** After removing ascent `id`, a route has ascents exactly when another
      ascent referenced it. */
  lemma OtherAscents(ascents: map<AscentId, Ascent>, id: AscentId, r: RouteId)
    ensures RouteHasAscents(ascents - {id}, r) <==> exists j :: j in ascents && j != id && ascents[j].routeId == r
  {
    if RouteHasAscents(ascents - {id}, r) {
      var k :| k in ascents - {id} && (ascents - {id})[k].routeId == r;
      assert k in ascents && k != id && ascents[k].routeId == r;
    }
    if exists j :: j in ascents && j != id && ascents[j].routeId == r {
      var j :| j in ascents && j != id && ascents[j].routeId == r;
      assert j in ascents - {id};
    }
  }

  /** `ascent.remove()` on a stored ascent, followed by the intended hook. */
  function Remove(s: Store, id: AscentId): (t: Store)
    requires id in s.ascents
    ensures DeletedOnly(s, t)
    ensures t.ascents.Keys == s.ascents.Keys - {id}
    ensures t.areas == s.areas
    ensures forall k :: k in t.routes <==>
      k in s.routes && (k != s.ascents[id].routeId || exists j :: j in s.ascents && j != id && s.ascents[j].routeId == k)
  {
    var rest := s.(ascents := s.ascents - {id});
    var t := PostRemove(rest, s.ascents[id]);
    OtherAscents(s.ascents, id, s.ascents[id].routeId);
    t
  }

  /** Removing an ascent keeps references intact, through the intended hook
      (the route goes only with its last ascent, and no area goes at all) and
      through the hook as written (no route goes). */
  lemma RemoveKeepsReferences(s: Store, id: AscentId)
    requires id in s.ascents && ReferencesIntact(s)
    ensures ReferencesIntact(Remove(s, id))
    ensures ReferencesIntact(RemoveAsWritten(s, id).store)
  {
  }

  /** Wherever the service cascade succeeds, the intended hook deletes the same
      ascents and routes and differs only in keeping the areas; the hook as
      written deletes the same ascents, keeps every route, and throws exactly
      when the service deletes the route. */
  lemma HookAgreesWithServiceOnRoutes(s: Store, id: AscentId)
    requires AscentServices.DeleteWithDependents(s, id).Success?
    ensures Remove(s, id).ascents == AscentServices.DeleteWithDependents(s, id).value.ascents
    ensures Remove(s, id).routes == AscentServices.DeleteWithDependents(s, id).value.routes
    ensures AscentServices.DeleteWithDependents(s, id).value.areas.Keys <= Remove(s, id).areas.Keys
    ensures RemoveAsWritten(s, id).store.ascents == AscentServices.DeleteWithDependents(s, id).value.ascents
    ensures RemoveAsWritten(s, id).store.routes == s.routes
    ensures RemoveAsWritten(s, id).hookError.Some? <==>
      s.ascents[id].routeId !in AscentServices.DeleteWithDependents(s, id).value.routes
  {
  }

  /** The only ascent of the only route of an area: the service deletes all
      three; the intended hook leaves the area behind without routes; the hook
      as written throws and leaves both the route and the area. */
  lemma HookLeavesEmptyArea()
    ensures var s := Store(map[1 := Ascent(10, 7, 0, None, Flash, None)],
                           map[10 := Route("Arete", 5, "red", 7, Some(20), false)],
                           map[20 := Area("Crag", 7, [])]);
            && 20 in Remove(s, 1).areas
            && Remove(s, 1).routes == map[]
            && AscentServices.DeleteWithDependents(s, 1) == Success(Store(map[], map[], map[]))
            && RemoveAsWritten(s, 1) == Removed(Store(map[], s.routes, s.areas), Some(RouteNotDefined))
  {
    var s := Store(map[1 := Ascent(10, 7, 0, None, Flash, None)],
                   map[10 := Route("Arete", 5, "red", 7, Some(20), false)],
                   map[20 := Area("Crag", 7, [])]);
    assert s.ascents - {1} == map[];
    assert s.routes - {10} == map[];
    assert s.areas - {20} == map[];
  }

  // ---------------------------------------------------------------------
  // The hook as written
  // ---------------------------------------------------------------------

  /** Why the hook as written fails: it calls `Route.findByIdAndRemove`, but the
      file never imports `Route`, so the call throws a `ReferenceError`. */
  datatype HookError = RouteNotDefined

  /** The hook as written: when no ascent references the route any more it
      reaches the `Route` call and throws, before anything is deleted;
      otherwise it does nothing. */
  function PostRemoveAsWritten(s: Store, doc: Ascent): (r: Result<Store, HookError>)
    ensures r.Failure? <==> !RouteHasAscents(s.ascents, doc.routeId)
    ensures r.Success? ==> r.value == s
  {
    if RouteHasAscents(s.ascents, doc.routeId) then Success(s) else Failure(RouteNotDefined)
  }

  /** The outcome of `ascent.remove()`: the removal is committed before the
      post hook runs, so a throwing hook leaves the store as the removal left it
      and only reports its error. */
  datatype Removed = Removed(store: Store, hookError: Option<HookError>)

  /** `ascent.remove()` on a stored ascent, followed by the hook as written. */
  function RemoveAsWritten(s: Store, id: AscentId): (r: Removed)
    requires id in s.ascents
    ensures r.store.ascents.Keys == s.ascents.Keys - {id}
    ensures DeletedOnly(s, r.store)
    ensures r.store.routes == s.routes && r.store.areas == s.areas
    ensures r.hookError.Some? <==> !exists j :: j in s.ascents && j != id && s.ascents[j].routeId == s.ascents[id].routeId
  {
    var rest := s.(ascents := s.ascents - {id});
    OtherAscents(s.ascents, id, s.ascents[id].routeId);
    match PostRemoveAsWritten(rest, s.ascents[id])
    case Success(t) => Removed(t, None)
    case Failure(e) => Removed(rest, Some(e))
  }

  /** The two hooks differ exactly on the last ascent of a stored route: the
      intended hook deletes the route, the hook as written throws and keeps it. */
  lemma HookVariantsDiffer(s: Store, id: AscentId)
    requires id in s.ascents
    ensures RemoveAsWritten(s, id).store.ascents == Remove(s, id).ascents
    ensures Remove(s, id).routes.Keys <= RemoveAsWritten(s, id).store.routes.Keys
    ensures RemoveAsWritten(s, id).hookError.Some? && s.ascents[id].routeId in s.routes
            <==> s.ascents[id].routeId !in Remove(s, id).routes && s.ascents[id].routeId in s.routes
  {
  }
}
