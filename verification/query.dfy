/** The store's read queries over the ascent collection, taken in its natural
    (insertion) order: `findOne` with and without a sort, `countDocuments` and
    `distinct('date')`, each driven by a filter document. */
module Query {
  import opened Wrappers
  import opened Entities

  /** A filter document over ascents; an absent condition matches everything.
      `routeIn` is `{ routeId: { $in: [...] } }` and `tickIn` is
      `{ tickType: { $in: [...] } }` (a single tick type is a one-element set);
      the date bounds are `$gte`, `$lte` and `$lt`. */
  datatype Filter = Filter(
    routeId: Option<RouteId>,
    routeIn: Option<set<RouteId>>,
    userId: Option<UserId>,
    tickIn: Option<set<TickType>>,
    dateGte: Option<Day>,
    dateLte: Option<Day>,
    dateLt: Option<Day>)

  /** The empty filter `{}`. */
  const AnyAscent := Filter(None, None, None, None, None, None, None)

  predicate Matches(f: Filter, a: Ascent) {
    && (f.routeId.Some? ==> a.routeId == f.routeId.value)
    && (f.routeIn.Some? ==> a.routeId in f.routeIn.value)
    && (f.userId.Some? ==> a.userId == f.userId.value)
    && (f.tickIn.Some? ==> a.tickType in f.tickIn.value)
    && (f.dateGte.Some? ==> f.dateGte.value <= a.date)
    && (f.dateLte.Some? ==> a.date <= f.dateLte.value)
    && (f.dateLt.Some? ==> a.date < f.dateLt.value)
  }

  /** `{ routeId: r }`. */
  function OfRoute(r: RouteId): Filter {
    AnyAscent.(routeId := Some(r))
  }

  /** `{ userId: u }`. */
  function OfUser(u: UserId): Filter {
    AnyAscent.(userId := Some(u))
  }

  /** The sort keys the queries use. `RouteGrade` reads an ascent's grade from
      its route; `TickRank` is a tick type's position in a configured order. */
  datatype SortKey = Date | TickRank(order: seq<TickType>) | RouteGrade(routes: map<RouteId, Route>)

  /** Position of `t` in `order`, or -1 when `t` is not listed. */
  function Rank(order: seq<TickType>, t: TickType): (r: int)
    ensures -1 <= r < |order|
    ensures r >= 0 ==> order[r] == t
    ensures r == -1 <==> t !in order
  {
    if order == [] then -1
    else if order[0] == t then 0
    else
      var r := Rank(order[1..], t);
      if r == -1 then -1 else r + 1
  }

  function KeyOf(k: SortKey, a: Ascent): int {
    match k
    case Date => a.date
    case TickRank(order) => Rank(order, a.tickType)
    case RouteGrade(routes) => if a.routeId in routes then routes[a.routeId].grade else 0
  }

  function Sum(xs: seq<nat>): nat {
    if xs == [] then 0 else xs[0] + Sum(xs[1..])
  }

  /** `countDocuments(filter)`. */
  function Count(xs: seq<Ascent>, f: Filter): (n: nat)
    ensures n <= |xs|
    ensures n == 0 <==> forall a :: a in xs ==> !Matches(f, a)
  {
    if xs == [] then 0
    else (if Matches(f, xs[0]) then 1 else 0) + Count(xs[1..], f)
  }

  /** `findOne(filter)` without a sort: the first match in natural order. */
  function FindFirst(xs: seq<Ascent>, f: Filter): (r: Option<Ascent>)
    ensures r.None? <==> forall a :: a in xs ==> !Matches(f, a)
    ensures r.Some? ==> r.value in xs && Matches(f, r.value)
  {
    if xs == [] then None
    else if Matches(f, xs[0]) then Some(xs[0])
    else FindFirst(xs[1..], f)
  }

  /** `findOne(filter).sort({ key: 1 })`: a match with the least key; among equal
      keys the one that comes first in natural order. */
  function FindMinBy(xs: seq<Ascent>, f: Filter, k: SortKey): (r: Option<Ascent>)
    ensures r.None? <==> forall a :: a in xs ==> !Matches(f, a)
    ensures r.Some? ==> r.value in xs && Matches(f, r.value)
    ensures r.Some? ==> forall b :: b in xs && Matches(f, b) ==> KeyOf(k, r.value) <= KeyOf(k, b)
  {
    if xs == [] then None
    else
      var rest := FindMinBy(xs[1..], f, k);
      if !Matches(f, xs[0]) then rest
      else if rest.None? || KeyOf(k, xs[0]) <= KeyOf(k, rest.value) then Some(xs[0])
      else rest
  }

  /** `findOne(filter).sort({ key: -1 })`: a match with the greatest key; among
      equal keys the one that comes first in natural order. */
  function FindMaxBy(xs: seq<Ascent>, f: Filter, k: SortKey): (r: Option<Ascent>)
    ensures r.None? <==> forall a :: a in xs ==> !Matches(f, a)
    ensures r.Some? ==> r.value in xs && Matches(f, r.value)
    ensures r.Some? ==> forall b :: b in xs && Matches(f, b) ==> KeyOf(k, b) <= KeyOf(k, r.value)
  {
    if xs == [] then None
    else
      var rest := FindMaxBy(xs[1..], f, k);
      if !Matches(f, xs[0]) then rest
      else if rest.None? || KeyOf(k, rest.value) <= KeyOf(k, xs[0]) then Some(xs[0])
      else rest
  }

  /** `e` is a match no other match is dated before. */
  predicate EarliestOf(xs: seq<Ascent>, f: Filter, e: Ascent) {
    e in xs && Matches(f, e) && forall b :: b in xs && Matches(f, b) ==> e.date <= b.date
  }

  /** The date of `findOne(filter).sort({ date: 1 })`, or `null`. */
  function EarliestDate(xs: seq<Ascent>, f: Filter): (r: Option<Day>)
    ensures r.None? <==> forall a :: a in xs ==> !Matches(f, a)
    ensures r.Some? ==> exists e :: e in xs && Matches(f, e) && e.date == r.value
    ensures r.Some? ==> forall b :: b in xs && Matches(f, b) ==> r.value <= b.date
  {
    match FindMinBy(xs, f, Date)
    case None => None
    case Some(e) => Some(e.date)
  }

  /** The date of `findOne(filter).sort({ date: -1 })`, or `null`. */
  function LatestDate(xs: seq<Ascent>, f: Filter): (r: Option<Day>)
    ensures r.None? <==> forall a :: a in xs ==> !Matches(f, a)
    ensures r.Some? ==> exists e :: e in xs && Matches(f, e) && e.date == r.value
    ensures r.Some? ==> forall b :: b in xs && Matches(f, b) ==> b.date <= r.value
  {
    match FindMaxBy(xs, f, Date)
    case None => None
    case Some(e) => Some(e.date)
  }

  /** The earliest date of a filter is no later than its latest date. */
  lemma EarliestNotAfterLatest(xs: seq<Ascent>, f: Filter)
    requires EarliestDate(xs, f).Some?
    ensures LatestDate(xs, f).Some? && EarliestDate(xs, f).value <= LatestDate(xs, f).value
  {
    var e :| e in xs && Matches(f, e) && e.date == EarliestDate(xs, f).value;
  }

  /** `find(filter).distinct('date')`: the distinct dates of the matches. */
  function DistinctDates(xs: seq<Ascent>, f: Filter): set<Day> {
    set a | a in xs && Matches(f, a) :: a.date
  }

  /** Distinct dates never outnumber the matching ascents: ascents on one date
      count once. */
  lemma {:induction false} DistinctDatesAtMostCount(xs: seq<Ascent>, f: Filter)
    ensures |DistinctDates(xs, f)| <= Count(xs, f)
  {
    if xs != [] {
      DistinctDatesAtMostCount(xs[1..], f);
      var rest := DistinctDates(xs[1..], f);
      forall a | a in xs ensures a == xs[0] || a in xs[1..] {
        var i :| 0 <= i < |xs| && xs[i] == a;
        if i > 0 { assert xs[1..][i - 1] == a; }
      }
      if Matches(f, xs[0]) {
        assert DistinctDates(xs, f) == rest + {xs[0].date};
      } else {
        assert DistinctDates(xs, f) == rest;
      }
    }
  }

  /** A filter whose matches all match a wider one has no more distinct dates. */
  lemma DistinctDatesSubset(xs: seq<Ascent>, f: Filter, g: Filter)
    requires forall a :: a in xs && Matches(f, a) ==> Matches(g, a)
    ensures DistinctDates(xs, f) <= DistinctDates(xs, g)
    ensures |DistinctDates(xs, f)| <= |DistinctDates(xs, g)|
  {
    SubsetCardinality(DistinctDates(xs, f), DistinctDates(xs, g));
  }

  lemma SubsetCardinality<T>(a: set<T>, b: set<T>)
    requires a <= b
    ensures |a| <= |b|
  {
    assert b == a + (b - a);
  }
}
