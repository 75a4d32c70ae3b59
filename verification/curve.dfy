/** The piecewise-linear temperature -> fan percentage curve (`calculate_speed`). */
module Curve {
  import opened Wrappers
  import opened Rounding

  /** One control point: a temperature in degrees Celsius and the fan percentage wanted there. */
  datatype ControlPoint = ControlPoint(temp: int, pct: int)

  predicate SortedByTemp(s: seq<ControlPoint>) {
    forall i, j :: 0 <= i < j < |s| ==> s[i].temp <= s[j].temp
  }

  predicate StrictlyIncreasing(s: seq<ControlPoint>) {
    forall i, j :: 0 <= i < j < |s| ==> s[i].temp < s[j].temp
  }

  /** No two control points share a temperature. */
  predicate DistinctTemps(s: seq<ControlPoint>) {
    forall i, j :: 0 <= i < j < |s| ==> s[i].temp != s[j].temp
  }

  /** Every percentage of the curve lies in [lo, hi]. */
  predicate PctWithin(curve: seq<ControlPoint>, lo: int, hi: int) {
    forall p :: p in curve ==> lo <= p.pct <= hi
  }

  /** `v` lies between the two integers `a` and `b`, whichever is larger. */
  predicate Between(v: real, a: int, b: int) {
    if a <= b then a as real <= v <= b as real else b as real <= v <= a as real
  }

  /** Inserts `p` into a sorted sequence in front of the points with the same temperature. */
  function Insert(p: ControlPoint, s: seq<ControlPoint>): (r: seq<ControlPoint>)
    requires SortedByTemp(s)
    ensures SortedByTemp(r)
    ensures multiset(r) == multiset(s) + multiset{p}
  {
    if s == [] then [p]
    else if p.temp <= s[0].temp then [p] + s
    else
      var rest := Insert(p, s[1..]);
      HeadIsLowest(s);
      BoundCarriesOver(s[0].temp, s[1..], p, rest);
      ConsSorted(s[0], rest);
      assert s == [s[0]] + s[1..];
      [s[0]] + rest
  }

  /** A sorted sequence whose head is a sorted sequence's lower bound is still sorted. */
  lemma ConsSorted(x: ControlPoint, s: seq<ControlPoint>)
    requires SortedByTemp(s)
    requires forall q :: q in s ==> x.temp <= q.temp
    ensures SortedByTemp([x] + s)
  {
    var r := [x] + s;
    forall i, j | 0 <= i < j < |r|
      ensures r[i].temp <= r[j].temp
    {
      assert r[j] == s[j - 1];
      if i > 0 {
        assert r[i] == s[i - 1];
      } else {
        assert s[j - 1] in s;
      }
    }
  }

  /** The head of a sorted sequence is a lower bound of its tail. */
  lemma HeadIsLowest(s: seq<ControlPoint>)
    requires SortedByTemp(s) && |s| > 0
    ensures forall q :: q in s[1..] ==> s[0].temp <= q.temp
  {
    forall q | q in s[1..]
      ensures s[0].temp <= q.temp
    {
      var k :| 0 <= k < |s[1..]| && s[1..][k] == q;
      assert s[k + 1] == q;
    }
  }

  /** A lower bound of `s` and of `p` bounds any rearrangement of `s` with `p` added. */
  lemma BoundCarriesOver(lo: int, s: seq<ControlPoint>, p: ControlPoint, r: seq<ControlPoint>)
    requires forall q :: q in s ==> lo <= q.temp
    requires lo <= p.temp
    requires multiset(r) == multiset(s) + multiset{p}
    ensures forall q :: q in r ==> lo <= q.temp
  {
    forall q | q in r
      ensures lo <= q.temp
    {
      assert q in multiset(r);
      if q != p {
        assert q in multiset(s);
      }
    }
  }

  /** Python's `sorted(curve, key=lambda x: x[0])`: an insertion sort by temperature that keeps
      points with equal temperatures in input order. */
  function SortByTemp(s: seq<ControlPoint>): (r: seq<ControlPoint>)
    ensures SortedByTemp(r)
    ensures multiset(r) == multiset(s)
    ensures |r| == |s|
  {
    if s == [] then []
    else
      assert s == [s[0]] + s[1..];
      Insert(s[0], SortByTemp(s[1..]))
  }

  /** The sort leaves an already sorted curve unchanged. */
  lemma {:induction false} SortSortedIsIdentity(s: seq<ControlPoint>)
    requires SortedByTemp(s)
    ensures SortByTemp(s) == s
  {
    if s != [] {
      assert SortedByTemp(s[1..]);
      SortSortedIsIdentity(s[1..]);
      assert s == [s[0]] + s[1..];
    }
  }

  /** Inserting a point with a new temperature keeps a strictly increasing sequence strictly increasing. */
  lemma {:induction false} InsertStrict(p: ControlPoint, s: seq<ControlPoint>)
    requires StrictlyIncreasing(s)
    requires forall q :: q in s ==> q.temp != p.temp
    ensures StrictlyIncreasing(Insert(p, s))
  {
    if s != [] && p.temp > s[0].temp {
      assert StrictlyIncreasing(s[1..]);
      InsertStrict(p, s[1..]);
      var rest := Insert(p, s[1..]);
      assert s == [s[0]] + s[1..];
      forall q | q in rest
        ensures s[0].temp < q.temp
      {
        assert q in multiset(rest);
        if q != p {
          assert q in s[1..];
          var k :| 0 <= k < |s[1..]| && s[1..][k] == q;
          assert s[k + 1] == q;
        }
      }
    }
  }

  /** With distinct temperatures the sorted curve is strictly increasing in temperature. */
  lemma {:induction false} SortStrict(s: seq<ControlPoint>)
    requires DistinctTemps(s)
    ensures StrictlyIncreasing(SortByTemp(s))
  {
    if s != [] {
      assert DistinctTemps(s[1..]);
      SortStrict(s[1..]);
      var sorted := SortByTemp(s[1..]);
      forall q | q in sorted
        ensures q.temp != s[0].temp
      {
        assert q in multiset(sorted);
        assert q in s[1..];
        var k :| 0 <= k < |s[1..]| && s[1..][k] == q;
        assert s[k + 1] == q;
      }
      InsertStrict(s[0], sorted);
    }
  }

  /** A curve whose temperatures rise from each point to the next is strictly increasing. */
  lemma {:induction false} StepwiseIncreasing(s: seq<ControlPoint>)
    requires forall i :: 0 <= i < |s| - 1 ==> s[i].temp < s[i + 1].temp
    ensures StrictlyIncreasing(s)
  {
    if |s| > 1 {
      var rest := s[1..];
      StepwiseIncreasing(rest);
      forall i, j | 0 <= i < j < |s|
        ensures s[i].temp < s[j].temp
      {
        if i == 0 {
          if j > 1 {
            assert rest[0].temp < rest[j - 1].temp;
          }
        } else {
          assert rest[i - 1].temp < rest[j - 1].temp;
        }
      }
    }
  }

  /** Point `i` and its predecessor enclose `temp` (the test at main.py:98). */
  predicate Brackets(sc: seq<ControlPoint>, i: int, temp: real)
    requires 1 <= i < |sc|
  {
    sc[i - 1].temp as real <= temp <= sc[i].temp as real
  }

  /** The interval search of main.py:96-100: the first index `i >= from` whose segment encloses
      `temp`, or `None` when the loop would fall through to the fallback return. Because every
      rejected segment lies wholly below `temp`, the lower end of the found segment is strictly
      below `temp`, so the segment is never degenerate and the division never divides by zero. */
  function FindSegment(sc: seq<ControlPoint>, temp: real, from: nat): (r: Option<nat>)
    requires 1 <= from <= |sc|
    requires sc[from - 1].temp as real < temp
    ensures r.Some? ==> from <= r.value < |sc|
    ensures r.Some? ==> sc[r.value - 1].temp as real < temp <= sc[r.value].temp as real
    ensures r.Some? ==> forall j :: from <= j < r.value ==> !Brackets(sc, j, temp)
    ensures r.None? ==> forall j :: from <= j < |sc| ==> !Brackets(sc, j, temp)
    decreases |sc| - from
  {
    if from == |sc| then None
    else if Brackets(sc, from, temp) then Some(from)
    else FindSegment(sc, temp, from + 1)
  }

  /** `s0 + (temp - t0) / (t1 - t0) * (s1 - s0)` over exact reals (main.py:99-100). */
  function Interpolate(lower: ControlPoint, upper: ControlPoint, temp: real): (v: real)
    requires lower.temp < upper.temp
    ensures lower.temp as real <= temp <= upper.temp as real ==> Between(v, lower.pct, upper.pct)
    ensures temp == upper.temp as real ==> v == upper.pct as real
    ensures temp == lower.temp as real ==> v == lower.pct as real
  {
    var ratio := (temp - lower.temp as real) / (upper.temp - lower.temp) as real;
    RatioScales(ratio, (upper.pct - lower.pct) as real);
    lower.pct as real + ratio * (upper.pct - lower.pct) as real
  }

  lemma RatioScales(ratio: real, d: real)
    ensures 0.0 <= ratio <= 1.0 && d >= 0.0 ==> 0.0 <= ratio * d <= d
    ensures 0.0 <= ratio <= 1.0 && d < 0.0 ==> d <= ratio * d <= 0.0
    ensures ratio == 1.0 ==> ratio * d == d
    ensures ratio == 0.0 ==> ratio * d == 0.0
  {
  }

  /** The body of `calculate_speed` after the sort (main.py:89-102), on the sorted curve `sc`:
      clamp below its first and above its last control point, otherwise round the linear
      interpolation inside the first enclosing segment. */
  function SpeedOnSorted(sc: seq<ControlPoint>, temp: real): (r: int)
    requires |sc| > 0
    ensures exists p :: p in sc && p.pct <= r
    ensures exists q :: q in sc && r <= q.pct
  {
    if temp <= sc[0].temp as real then sc[0].pct
    else if temp >= sc[|sc| - 1].temp as real then sc[|sc| - 1].pct
    else
      match FindSegment(sc, temp, 1)
      case Some(i) =>
        var lower, upper := sc[i - 1], sc[i];
        var v := Interpolate(lower, upper, temp);
        RoundWithin(v, Min(lower.pct, upper.pct), Max(lower.pct, upper.pct));
        assert lower in sc && upper in sc;
        RoundHalfEven(v)
      case None => sc[0].pct
  }

  function Min(a: int, b: int): (m: int) {
    if a <= b then a else b
  }

  function Max(a: int, b: int): (m: int) {
    if a <= b then b else a
  }

  /** The sorted curve holds exactly the points of the curve. */
  lemma SortedMembers(curve: seq<ControlPoint>)
    ensures forall x :: x in SortByTemp(curve) <==> x in curve
  {
    var sc := SortByTemp(curve);
    assert forall x :: x in sc <==> x in multiset(sc);
    assert forall x :: x in curve <==> x in multiset(curve);
  }

  /** `calculate_speed` (main.py:85-102): the result is a percentage within the range the
      curve's percentages span. The source indexes `sorted_curve[0]`, so an empty curve is
      outside its domain. */
  function CalculateSpeed(curve: seq<ControlPoint>, temp: real): (r: int)
    requires |curve| > 0
    ensures exists p :: p in curve && p.pct <= r
    ensures exists q :: q in curve && r <= q.pct
  {
    SortedMembers(curve);
    SpeedOnSorted(SortByTemp(curve), temp)
  }

  /** The fallback return at main.py:102 is unreachable: once `temp` is above the lower end of
      the first segment searched and below the last control point, some segment encloses it.
      Sortedness is not even needed. */
  lemma {:induction false} FallbackUnreachable(sc: seq<ControlPoint>, temp: real, from: nat)
    requires 1 <= from <= |sc|
    requires sc[from - 1].temp as real < temp < sc[|sc| - 1].temp as real
    ensures FindSegment(sc, temp, from).Some?
    decreases |sc| - from
  {
    if from < |sc| && !Brackets(sc, from, temp) {
      FallbackUnreachable(sc, temp, from + 1);
    }
  }

  /** When every control percentage lies in [lo, hi], so does every computed speed. */
  lemma SpeedWithin(curve: seq<ControlPoint>, temp: real, lo: int, hi: int)
    requires |curve| > 0
    requires PctWithin(curve, lo, hi)
    ensures lo <= CalculateSpeed(curve, temp) <= hi
  {
    var sc := SortByTemp(curve);
    forall p | p in sc
      ensures lo <= p.pct <= hi
    {
      assert p in multiset(curve);
    }
    SortedSpeedWithin(sc, temp, lo, hi);
  }

  lemma SortedSpeedWithin(sc: seq<ControlPoint>, temp: real, lo: int, hi: int)
    requires |sc| > 0
    requires PctWithin(sc, lo, hi)
    ensures lo <= SpeedOnSorted(sc, temp) <= hi
  {
    if sc[0].temp as real < temp < sc[|sc| - 1].temp as real {
      FallbackUnreachable(sc, temp, 1);
      var i := FindSegment(sc, temp, 1).value;
      var v := Interpolate(sc[i - 1], sc[i], temp);
      assert lo as real <= v <= hi as real;
      RoundWithin(v, lo, hi);
    }
  }

  /** Locates a member of a sequence by index. */
  lemma IndexOf(sc: seq<ControlPoint>, p: ControlPoint) returns (k: nat)
    requires p in sc
    ensures k < |sc| && sc[k] == p
  {
    k :| 0 <= k < |sc| && sc[k] == p;
  }

  /** On a strictly increasing curve, the speed at a control point's own temperature is that
      point's percentage. */
  lemma SortedAtPoint(sc: seq<ControlPoint>, k: nat)
    requires StrictlyIncreasing(sc)
    requires k < |sc|
    ensures SpeedOnSorted(sc, sc[k].temp as real) == sc[k].pct
  {
    var temp := sc[k].temp as real;
    if 0 < k < |sc| - 1 {
      FallbackUnreachable(sc, temp, 1);
      var i := FindSegment(sc, temp, 1).value;
      assert Brackets(sc, k, temp);
      assert i == k;
    }
  }

  /** On a strictly increasing curve, the speed inside segment `k` lies between the two
      percentages that bound it. */
  lemma SortedBetween(sc: seq<ControlPoint>, k: nat, temp: real)
    requires StrictlyIncreasing(sc)
    requires 1 <= k < |sc|
    requires sc[k - 1].temp as real <= temp <= sc[k].temp as real
    ensures Between(SpeedOnSorted(sc, temp) as real, sc[k - 1].pct, sc[k].pct)
  {
    if temp == sc[k - 1].temp as real {
      SortedAtPoint(sc, k - 1);
    } else if temp == sc[k].temp as real {
      SortedAtPoint(sc, k);
    } else {
      SortedOnSegment(sc, k, temp);
      var v := Interpolate(sc[k - 1], sc[k], temp);
      if sc[k - 1].pct <= sc[k].pct {
        RoundWithin(v, sc[k - 1].pct, sc[k].pct);
      } else {
        RoundWithin(v, sc[k].pct, sc[k - 1].pct);
      }
    }
  }

  /** Strictly inside segment `k` of a strictly increasing curve, the speed is the interpolated
      value between the segment's ends, rounded half to even (main.py:96-100). */
  lemma SortedOnSegment(sc: seq<ControlPoint>, k: nat, temp: real)
    requires StrictlyIncreasing(sc)
    requires 1 <= k < |sc|
    requires sc[k - 1].temp as real < temp < sc[k].temp as real
    ensures SpeedOnSorted(sc, temp) == RoundHalfEven(Interpolate(sc[k - 1], sc[k], temp))
  {
    FallbackUnreachable(sc, temp, 1);
    assert Brackets(sc, k, temp);
    assert FindSegment(sc, temp, 1).value == k;
  }

  /** Two points of a strictly increasing curve with no point strictly between their
      temperatures sit next to each other. */
  lemma AdjacentInSorted(sc: seq<ControlPoint>, a: nat, b: nat)
    requires StrictlyIncreasing(sc)
    requires a < |sc| && b < |sc| && sc[a].temp < sc[b].temp
    requires forall x :: x in sc ==> !(sc[a].temp < x.temp < sc[b].temp)
    ensures b == a + 1
  {
    assert a < b;
    assert sc[a + 1] in sc;
  }

  /** Sorting a curve with distinct temperatures gives a strictly increasing curve holding the
      same points; `k` is the position of `p` in it. */
  lemma PositionInSorted(curve: seq<ControlPoint>, p: ControlPoint) returns (k: nat)
    requires DistinctTemps(curve)
    requires p in curve
    ensures StrictlyIncreasing(SortByTemp(curve))
    ensures k < |curve| && SortByTemp(curve)[k] == p
    ensures forall x :: x in SortByTemp(curve) <==> x in curve
  {
    var sc := SortByTemp(curve);
    SortStrict(curve);
    assert forall x :: x in sc <==> x in multiset(curve);
    k := IndexOf(sc, p);
  }

  /** At or below the lowest control temperature the speed is that point's percentage
      (main.py:90-91). */
  lemma AtOrBelowLowest(curve: seq<ControlPoint>, p: ControlPoint, temp: real)
    requires DistinctTemps(curve)
    requires p in curve && forall q :: q in curve ==> p.temp <= q.temp
    requires temp <= p.temp as real
    ensures CalculateSpeed(curve, temp) == p.pct
  {
    var k := PositionInSorted(curve, p);
    var sc := SortByTemp(curve);
    assert sc[0] in curve;
    assert k == 0;
    assert CalculateSpeed(curve, temp) == SpeedOnSorted(sc, temp);
  }

  /** At or above the highest control temperature the speed is that point's percentage
      (main.py:92-93). */
  lemma AtOrAboveHighest(curve: seq<ControlPoint>, p: ControlPoint, temp: real)
    requires DistinctTemps(curve)
    requires p in curve && forall q :: q in curve ==> q.temp <= p.temp
    requires temp >= p.temp as real
    ensures CalculateSpeed(curve, temp) == p.pct
  {
    var k := PositionInSorted(curve, p);
    var sc := SortByTemp(curve);
    assert sc[|sc| - 1] in curve;
    assert k == |sc| - 1;
    assert CalculateSpeed(curve, temp) == SpeedOnSorted(sc, temp);
  }

  /** At the exact temperature of a control point the speed is that point's percentage. */
  lemma AtControlPoint(curve: seq<ControlPoint>, p: ControlPoint)
    requires DistinctTemps(curve)
    requires p in curve
    ensures CalculateSpeed(curve, p.temp as real) == p.pct
  {
    var k := PositionInSorted(curve, p);
    SortedAtPoint(SortByTemp(curve), k);
  }

  /** Between two control points adjacent in temperature, the speed lies between their two
      percentages (main.py:96-100). */
  lemma BetweenAdjacent(curve: seq<ControlPoint>, p: ControlPoint, q: ControlPoint, temp: real)
    requires DistinctTemps(curve)
    requires p in curve && q in curve && p.temp < q.temp
    requires forall x :: x in curve ==> !(p.temp < x.temp < q.temp)
    requires p.temp as real <= temp <= q.temp as real
    ensures Between(CalculateSpeed(curve, temp) as real, p.pct, q.pct)
  {
    var a := PositionInSorted(curve, p);
    var b := PositionInSorted(curve, q);
    var sc := SortByTemp(curve);
    assert sc[a].temp < sc[b].temp;
    AdjacentInSorted(sc, a, b);
    SortedBetween(sc, b, temp);
  }

  /** Strictly between two control points adjacent in temperature, the speed is the linear
      interpolation between them, rounded half to even (main.py:96-100). */
  lemma OnSegment(curve: seq<ControlPoint>, p: ControlPoint, q: ControlPoint, temp: real)
    requires DistinctTemps(curve)
    requires p in curve && q in curve && p.temp < q.temp
    requires forall x :: x in curve ==> !(p.temp < x.temp < q.temp)
    requires p.temp as real < temp < q.temp as real
    ensures CalculateSpeed(curve, temp) == RoundHalfEven(Interpolate(p, q, temp))
  {
    var a := PositionInSorted(curve, p);
    var b := PositionInSorted(curve, q);
    var sc := SortByTemp(curve);
    assert sc[a].temp < sc[b].temp;
    AdjacentInSorted(sc, a, b);
    SortedOnSegment(sc, b, temp);
  }

  /** The interpolated value is rounded, not truncated: halfway between (40, 7) and (50, 8) the
      value 7.5 goes to the even 8, where `int` alone would give 7. */
  lemma HalfwayRoundsUpToEven()
    ensures CalculateSpeed([ControlPoint(40, 7), ControlPoint(50, 8)], 45.0) == 8
  {
    var curve := [ControlPoint(40, 7), ControlPoint(50, 8)];
    assert SortedByTemp(curve);
    SortSortedIsIdentity(curve);
    assert FindSegment(curve, 45.0, 1) == Some(1);
    assert Interpolate(ControlPoint(40, 7), ControlPoint(50, 8), 45.0) == 7.5;
    assert NearestTiesEven(7.5, 8);
    NearestTiesEvenUnique(7.5, RoundHalfEven(7.5), 8);
  }

  /** Python rounds the midpoint 6.5 of the curve (40,5),(50,8) at 45 degrees to the even 6;
      rounding half up would give 7. */
  lemma HalfwayRoundsToEven()
    ensures CalculateSpeed([ControlPoint(40, 5), ControlPoint(50, 8)], 45.0) == 6
  {
    var curve := [ControlPoint(40, 5), ControlPoint(50, 8)];
    assert SortedByTemp(curve);
    SortSortedIsIdentity(curve);
    assert FindSegment(curve, 45.0, 1) == Some(1);
    MidpointRoundsDown();
  }

  /** The interpolation between (40, 5) and (50, 8) at 45 degrees is exactly 6.5, which rounds
      to 6. */
  lemma MidpointRoundsDown()
    ensures Interpolate(ControlPoint(40, 5), ControlPoint(50, 8), 45.0) == 6.5
    ensures RoundHalfEven(6.5) == 6
  {
    assert (6.5).Floor == 6;
  }
}
