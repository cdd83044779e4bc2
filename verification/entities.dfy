/** The entity store: Ascents, Routes and Areas as finite maps from their
    object ids, plus the configured enumerations the schemas refer to. */
module Entities {
  import opened Wrappers

  /** Object ids are opaque; naturals stand in for them. */
  type AscentId = nat
  type RouteId = nat
  type AreaId = nat
  type UserId = nat

  /** A calendar date as a whole day number, day 0 being 1970-01-01. */
  type Day = int

  /** A timestamp in milliseconds since 1970-01-01T00:00:00. */
  type Millis = int

  type TickType = string

  const Flash: TickType := "flash"
  const Redpoint: TickType := "redpoint"

  /** A tick type that counts as a send. */
  predicate IsSendTick(t: TickType) {
    t == Flash || t == Redpoint
  }

  /** An ascent document. The ascent schema enables no timestamps, so a stored
      ascent normally has no `createdAt`; the field is kept optional. */
  datatype Ascent = Ascent(
    routeId: RouteId,
    userId: UserId,
    date: Day,
    notes: Option<string>,
    tickType: TickType,
    createdAt: Option<Millis>)

  datatype Route = Route(
    name: string,
    grade: int,
    color: string,
    userId: UserId,
    areaId: Option<AreaId>,
    bookmarked: bool)

  /** An area document; its owner field is called `user`. */
  datatype Area = Area(name: string, user: UserId, steepnessTags: seq<string>)

  datatype Store = Store(
    ascents: map<AscentId, Ascent>,
    routes: map<RouteId, Route>,
    areas: map<AreaId, Area>)

  /** Where a schema validation failed: a field, or one element of an array
      field (`steepnessTags.0`). */
  datatype Path = Field(name: string) | Element(name: string, index: nat)

  /** A required string path: Mongoose's `required` rejects a missing value and
      the empty string. */
  predicate PresentString(v: Option<string>) {
    v.Some? && v.value != ""
  }

  /** Why a cascading delete aborted its transaction. */
  datatype CascadeError = AscentNotFound | RouteNotFound | AreaNotFound

  predicate Distinct<T(==)>(xs: seq<T>) {
    forall i, j :: 0 <= i < j < |xs| ==> xs[i] != xs[j]
  }

  /** Some stored ascent references route `r` (a non-zero `countDocuments({ routeId })`). */
  predicate RouteHasAscents(ascents: map<AscentId, Ascent>, r: RouteId) {
    exists k | k in ascents :: ascents[k].routeId == r
  }

  /** Some stored route references area `a` (a non-zero `countDocuments({ areaId })`). */
  predicate AreaHasRoutes(routes: map<RouteId, Route>, a: AreaId) {
    exists k | k in routes :: routes[k].areaId == Some(a)
  }

  /** Every ascent's route exists and every route's area, when it has one, exists. */
  predicate ReferencesIntact(s: Store) {
    && (forall k | k in s.ascents :: s.ascents[k].routeId in s.routes)
    && (forall k | k in s.routes && s.routes[k].areaId.Some? :: s.routes[k].areaId.value in s.areas)
  }

  /** Route names are unique store-wide (the schema's `unique` index). */
  predicate UniqueRouteNames(s: Store) {
    forall j, k | j in s.routes && k in s.routes && j != k :: s.routes[j].name != s.routes[k].name
  }

  /** The store after a transaction deleted some documents: every map shrank and
      every surviving document is unchanged. */
  predicate DeletedOnly(s: Store, t: Store) {
    && t.ascents.Keys <= s.ascents.Keys
    && t.routes.Keys <= s.routes.Keys
    && t.areas.Keys <= s.areas.Keys
    && (forall k | k in t.ascents :: t.ascents[k] == s.ascents[k])
    && (forall k | k in t.routes :: t.routes[k] == s.routes[k])
    && (forall k | k in t.areas :: t.areas[k] == s.areas[k])
  }

  /** Deleting documents keeps route names unique. */
  lemma DeletedOnlyKeepsUniqueNames(s: Store, t: Store)
    requires UniqueRouteNames(s) && DeletedOnly(s, t)
    ensures UniqueRouteNames(t)
  {
  }
}
