/** Calendar weeks (Sunday to Saturday) and the Ondra score of services/utils.services.js. */
module Utils {
  import opened Wrappers
  import opened Entities

  const Sunday := 0
  const Saturday := 6

  /** Day of the week of a day number, as `Date.getDay()` gives it: 0 is
      Sunday; day 0 (1970-01-01) was a Thursday. */
  function Weekday(d: Day): (w: int)
    ensures 0 <= w < 7
  {
    (d + 4) % 7
  }

  /** `getWeekStartDate`: the Sunday that starts the week of `d`. */
  function WeekStartDate(d: Day): (s: Day)
    ensures Weekday(s) == Sunday
    ensures s <= d < s + 7
  {
    d - Weekday(d)
  }

  /** `getWeekEndDate`: the Saturday that ends the week of `d`. */
  function WeekEndDate(d: Day): (e: Day)
    ensures Weekday(e) == Saturday
    ensures d <= e <= d + 6
  {
    d + (6 - Weekday(d))
  }

  /** A week spans exactly seven days: its end is six days after its start. */
  lemma WeekEndIsSixAfterStart(d: Day)
    ensures WeekEndDate(d) == WeekStartDate(d) + 6
  {
  }

  /** The week start is the only Sunday in the seven days ending at `d`. */
  lemma {:induction false} WeekStartIsUnique(d: Day, s: Day)
    requires Weekday(s) == Sunday && s <= d < s + 7
    ensures WeekStartDate(d) == s
  {
    var t := WeekStartDate(d);
    assert (s + 4) % 7 == 0 && (t + 4) % 7 == 0;
    assert -7 < s - t < 7;
    SameWeekdayCloseDays(s, t);
  }

  /** Two days less than a week apart with the same weekday are the same day. */
  lemma SameWeekdayCloseDays(s: Day, t: Day)
    requires Weekday(s) == Weekday(t) && -7 < s - t < 7
    ensures s == t
  {
    var qs, qt := (s + 4) / 7, (t + 4) / 7;
    assert s + 4 == 7 * qs + Weekday(s);
    assert t + 4 == 7 * qt + Weekday(t);
    assert s - t == 7 * (qs - qt);
  }

  /** `getWeekStartDate` of a Sunday is that Sunday, so it is idempotent. */
  lemma WeekStartIdempotent(d: Day)
    ensures Weekday(d) == Sunday ==> WeekStartDate(d) == d
    ensures WeekStartDate(WeekStartDate(d)) == WeekStartDate(d)
  {
  }

  /** The end of the week of a Sunday is six days later. */
  lemma WeekEndOfSunday(s: Day)
    requires Weekday(s) == Sunday
    ensures WeekEndDate(s) == s + 6
  {
  }

  /** A Sunday no later than a Saturday is at least six days before it, and the
      Saturday is the last day of a week that starts a whole number of weeks
      after the Sunday. */
  lemma {:induction false} SundayToSaturday(s: Day, e: Day)
    requires Weekday(s) == Sunday && Weekday(e) == Saturday && s <= e
    ensures s + 6 <= e
    ensures (e + 1 - s) % 7 == 0
  {
    var qs, qe := (s + 4) / 7, (e + 4) / 7;
    assert s + 4 == 7 * qs;
    assert e + 4 == 7 * qe + 6;
    assert e + 1 - s == 7 * (qe - qs + 1);
  }

  /** A week later is the same weekday. */
  lemma WeekdayPlusWeek(d: Day)
    ensures Weekday(d + 7) == Weekday(d)
  {
  }

  /** Later days never have an earlier week start. */
  lemma WeekStartMonotone(d: Day, e: Day)
    requires d <= e
    ensures WeekStartDate(d) <= WeekStartDate(e)
  {
  }

  /** Two Sundays are a whole number of weeks apart. */
  lemma {:induction false} WeeksApart(s: Day, t: Day)
    requires Weekday(s) == Sunday && Weekday(t) == Sunday
    ensures (t - s) % 7 == 0
  {
    var qs, qt := (s + 4) / 7, (t + 4) / 7;
    assert s + 4 == 7 * qs;
    assert t + 4 == 7 * qt;
    assert t - s == 7 * (qt - qs);
  }

  /** Of `n` consecutive weeks starting on the Sunday `s`, the week of a day in
      their span is the `i`-th, `i` counting whole weeks from `s`. */
  lemma CoveringWeek(s: Day, n: nat, d: Day)
    requires Weekday(s) == Sunday && s <= d < s + 7 * n
    ensures 0 <= (WeekStartDate(d) - s) / 7 < n
    ensures s + 7 * ((WeekStartDate(d) - s) / 7) == WeekStartDate(d)
  {
    WeekStartMonotone(s, d);
    WeeksApart(s, WeekStartDate(d));
  }

  // ---------------------------------------------------------------------
  // Ondra score
  // ---------------------------------------------------------------------

  const MaxSessionsToSend := 10
  const MinNumberOfNonNullRouteSessions := 3

  function Min(a: int, b: int): int {
    if a <= b then a else b
  }

  /** What one sessions-to-send value adds to the score: the cap for an unsent
      route (`null`), otherwise the value capped at 10. */
  function Contribution(s: Option<int>): (c: int)
    ensures c <= MaxSessionsToSend
    ensures s.Some? && s.value <= MaxSessionsToSend ==> c == s.value
  {
    match s
    case None => MaxSessionsToSend
    case Some(v) => Min(v, MaxSessionsToSend)
  }

  /** `sessionsToSend.filter(s => s !== null).length`. */
  function CountNonNull(xs: seq<Option<int>>): (n: nat)
    ensures n <= |xs|
  {
    if xs == [] then 0
    else (if xs[0].Some? then 1 else 0) + CountNonNull(xs[1..])
  }

  /** The `reduce` of the source: a left fold from the accumulator `total`. */
  function ReduceScore(xs: seq<Option<int>>, total: int): int
    decreases |xs|
  {
    if xs == [] then total
    else ReduceScore(xs[1..], total + Contribution(xs[0]))
  }

  /** The score as a plain sum of the contributions, a reference for the fold. */
  function SumContributions(xs: seq<Option<int>>): (r: int)
    ensures r <= MaxSessionsToSend * |xs|
  {
    if xs == [] then 0
    else Contribution(xs[0]) + SumContributions(xs[1..])
  }

  /** `getOndraScore`: `null` while fewer than three routes are sent, otherwise
      the sum over the routes of 10 for an unsent one and the capped sessions
      of a sent one. */
  function OndraScore(xs: seq<Option<int>>): (r: Option<int>)
    ensures r.None? <==> CountNonNull(xs) < MinNumberOfNonNullRouteSessions
    ensures r.Some? ==> r.value == SumContributions(xs)
    ensures r.Some? ==> r.value <= MaxSessionsToSend * |xs|
  {
    if CountNonNull(xs) < MinNumberOfNonNullRouteSessions then None
    else
      ReduceIsSum(xs, 0);
      Some(ReduceScore(xs, 0))
  }

  /** The left fold adds exactly the sum of the contributions to its start value. */
  lemma {:induction false} ReduceIsSum(xs: seq<Option<int>>, total: int)
    ensures ReduceScore(xs, total) == total + SumContributions(xs)
    decreases |xs|
  {
    if xs != [] {
      ReduceIsSum(xs[1..], total + Contribution(xs[0]));
    }
  }

  /** The number of non-null entries is the length minus the number of nulls. */
  lemma {:induction false} CountNonNullIsMultiset(xs: seq<Option<int>>)
    ensures CountNonNull(xs) == |xs| - multiset(xs)[None]
  {
    if xs != [] {
      CountNonNullIsMultiset(xs[1..]);
      assert xs == [xs[0]] + xs[1..];
      assert multiset(xs) == multiset{xs[0]} + multiset(xs[1..]);
    }
  }

  lemma {:induction false} SumContributionsAppend(xs: seq<Option<int>>, ys: seq<Option<int>>)
    ensures SumContributions(xs + ys) == SumContributions(xs) + SumContributions(ys)
  {
    if xs == [] {
      assert xs + ys == ys;
    } else {
      assert (xs + ys)[1..] == xs[1..] + ys;
      SumContributionsAppend(xs[1..], ys);
    }
  }

  /** Taking out one entry takes out its contribution. */
  lemma {:induction false} SumContributionsRemove(xs: seq<Option<int>>, j: nat)
    requires j < |xs|
    ensures SumContributions(xs) == Contribution(xs[j]) + SumContributions(xs[..j] + xs[j + 1..])
  {
    var front, back := xs[..j], xs[j + 1..];
    var mid := [xs[j]] + back;
    assert xs == front + mid;
    assert mid[0] == xs[j] && mid[1..] == back;
    assert SumContributions(mid) == Contribution(xs[j]) + SumContributions(back);
    SumContributionsAppend(front, mid);
    SumContributionsAppend(front, back);
  }

  /** The sum of contributions does not depend on the order of the entries. */
  lemma {:induction false} SumContributionsPermutation(xs: seq<Option<int>>, ys: seq<Option<int>>)
    requires multiset(xs) == multiset(ys)
    ensures SumContributions(xs) == SumContributions(ys)
    decreases |xs|
  {
    if xs == [] {
      assert |ys| == |multiset(ys)| == 0;
    } else {
      var x := xs[0];
      assert x in multiset(ys);
      var j :| 0 <= j < |ys| && ys[j] == x;
      var rest := ys[..j] + ys[j + 1..];
      SumContributionsRemove(ys, j);
      assert ys == ys[..j] + [ys[j]] + ys[j + 1..];
      assert multiset(ys) == multiset(ys[..j]) + multiset{x} + multiset(ys[j + 1..]);
      assert xs == [x] + xs[1..];
      assert multiset(xs) == multiset{x} + multiset(xs[1..]);
      assert multiset(rest) == multiset(ys[..j]) + multiset(ys[j + 1..]);
      calc {
        multiset(xs[1..]);
        multiset(xs) - multiset{x};
        multiset(ys) - multiset{x};
        multiset(rest);
      }
      SumContributionsPermutation(xs[1..], rest);
    }
  }

  /** The Ondra score does not depend on the order of the routes. */
  lemma OndraScorePermutation(xs: seq<Option<int>>, ys: seq<Option<int>>)
    requires multiset(xs) == multiset(ys)
    ensures OndraScore(xs) == OndraScore(ys)
  {
    CountNonNullIsMultiset(xs);
    CountNonNullIsMultiset(ys);
    assert |xs| == |multiset(xs)| == |multiset(ys)| == |ys|;
    SumContributionsPermutation(xs, ys);
  }

  /** Lowering a sent route's sessions above the cap down to the cap leaves the
      score unchanged. */
  lemma OndraScoreClamp(xs: seq<Option<int>>, i: nat)
    requires i < |xs| && xs[i].Some? && xs[i].value > MaxSessionsToSend
    ensures OndraScore(xs[i := Some(MaxSessionsToSend)]) == OndraScore(xs)
  {
    var ys := xs[i := Some(MaxSessionsToSend)];
    assert ys[..i] + ys[i + 1..] == xs[..i] + xs[i + 1..];
    CountNonNullRemove(xs, i);
    CountNonNullRemove(ys, i);
    SumContributionsRemove(xs, i);
    SumContributionsRemove(ys, i);
  }

  lemma {:induction false} CountNonNullAppend(xs: seq<Option<int>>, ys: seq<Option<int>>)
    ensures CountNonNull(xs + ys) == CountNonNull(xs) + CountNonNull(ys)
  {
    if xs == [] {
      assert xs + ys == ys;
    } else {
      assert (xs + ys)[1..] == xs[1..] + ys;
      CountNonNullAppend(xs[1..], ys);
    }
  }

  /** Taking out one entry takes out its share of the non-null count. */
  lemma {:induction false} CountNonNullRemove(xs: seq<Option<int>>, j: nat)
    requires j < |xs|
    ensures CountNonNull(xs) == (if xs[j].Some? then 1 else 0) + CountNonNull(xs[..j] + xs[j + 1..])
  {
    var front, back := xs[..j], xs[j + 1..];
    var mid := [xs[j]] + back;
    assert xs == front + mid;
    assert mid[0] == xs[j] && mid[1..] == back;
    CountNonNullAppend(front, mid);
    CountNonNullAppend(front, back);
  }

  /** A `-1` sentinel is not `null`: it counts as a sent route and lowers the
      score by one. */
  lemma OndraScoreMinusOne()
    ensures OndraScore([Some(-1), Some(-1), Some(-1)]) == Some(-3)
    ensures OndraScore([None, None, None]) == None
    ensures OndraScore([Some(-1), Some(2), Some(3)]) == Some(4)
  {
  }

  /** The worked examples: two sent routes give no score, three give the sum,
      and an unsent route among three sent ones costs the cap. */
  lemma OndraScoreExamples()
    ensures OndraScore([Some(1), None, Some(3)]) == None
    ensures OndraScore([Some(1), Some(2), Some(3)]) == Some(6)
    ensures OndraScore([Some(1), None, Some(2), Some(15)]) == Some(23)
  {
  }
}
