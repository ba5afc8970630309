/**
  Stacking one series of chart points on those stacked before it. Missing values
  are filled from their neighbours; the next valid neighbour is looked up through
  a cache that moves with the loop. Numbers are exact reals, a missing or
  not-a-number value is None.
*/
module StackPoints {

  datatype Option<T> = None | Some(value: T)

  datatype Point = Point(xval: real, yval: Option<real>, stacked: real)

  /** The stackedGraphNaNFill option. */
  datatype FillMethod = FillAll | FillInside | FillNone

  predicate StrictlyOrdered(pts: seq<Point>) {
    forall i, j :: 0 <= i < j < |pts| ==> pts[i].xval < pts[j].xval
  }

  // ---------------------------------------------------------------- the full scan

  /** The last valid point before `i`. */
  function PrevValid(pts: seq<Point>, i: nat): (r: Option<nat>)
    requires i <= |pts|
    ensures r.Some? ==> r.value < i && pts[r.value].yval.Some? && forall k :: r.value < k < i ==> pts[k].yval.None?
    ensures r.None? ==> forall k :: 0 <= k < i ==> pts[k].yval.None?
  {
    if i == 0 then None else if pts[i - 1].yval.Some? then Some(i - 1) else PrevValid(pts, i - 1)
  }

  /** The first valid point at or after `i`. */
  function NextValid(pts: seq<Point>, i: nat): (r: Option<nat>)
    requires i <= |pts|
    ensures r.Some? ==> i <= r.value < |pts| && pts[r.value].yval.Some? && forall k :: i <= k < r.value ==> pts[k].yval.None?
    ensures r.None? ==> forall k :: i <= k < |pts| ==> pts[k].yval.None?
    decreases |pts| - i
  {
    if i == |pts| then None else if pts[i].yval.Some? then Some(i) else NextValid(pts, i + 1)
  }

  /** On the line through two points; where they share their x the value is never used. */
  function Interpolate(p: Point, n: Point, x: real): (y: real)
    requires p.yval.Some? && n.yval.Some?
    ensures n.xval != p.xval ==> (y - p.yval.value) * (n.xval - p.xval) == (n.yval.value - p.yval.value) * (x - p.xval)
  {
    if n.xval == p.xval then 0.0
    else p.yval.value + (n.yval.value - p.yval.value) * ((x - p.xval) / (n.xval - p.xval))
  }

  /** The value point `i` contributes. */
  function Filled(pts: seq<Point>, i: nat, fill: FillMethod): real
    requires i < |pts|
  {
    if pts[i].yval.Some? then pts[i].yval.value
    else if fill == FillNone then 0.0
    else match (PrevValid(pts, i), NextValid(pts, i))
      case (Some(p), Some(n)) => Interpolate(pts[p], pts[n], pts[i].xval)
      case (Some(p), None) => if fill == FillAll then pts[p].yval.value else 0.0
      case (None, Some(n)) => if fill == FillAll then pts[n].yval.value else 0.0
      case (None, None) => 0.0
  }

  /** Between `lo` and `hi` there is no valid point. */
  predicate NoneValid(pts: seq<Point>, lo: nat, hi: nat)
    requires hi <= |pts|
  {
    forall k :: lo <= k < hi ==> pts[k].yval.None?
  }

  lemma {:induction false} NearestBefore(pts: seq<Point>, i: nat, p: nat)
    requires p < i <= |pts| && pts[p].yval.Some? && NoneValid(pts, p + 1, i)
    ensures PrevValid(pts, i) == Some(p)
  {
    if p < i - 1 {
      NearestBefore(pts, i - 1, p);
    }
  }

  lemma {:induction false} NearestAfter(pts: seq<Point>, i: nat, n: nat)
    requires i <= n < |pts| && pts[n].yval.Some? && NoneValid(pts, i, n)
    ensures NextValid(pts, i) == Some(n)
    decreases n - i
  {
    if i < n {
      NearestAfter(pts, i + 1, n);
    }
  }

  /** What a valid point contributes, and what a missing one where nothing is to be filled or there is nothing to fill it from. */
  lemma FilledAlone(pts: seq<Point>, i: nat, fill: FillMethod)
    requires i < |pts|
    ensures pts[i].yval.Some? ==> Filled(pts, i, fill) == pts[i].yval.value
    ensures pts[i].yval.None? && (fill == FillNone || NoneValid(pts, 0, |pts|)) ==> Filled(pts, i, fill) == 0.0
  {
  }

  /** A missing point with valid ones on both sides is on the line through the nearest of them. */
  lemma FilledBetween(pts: seq<Point>, i: nat, fill: FillMethod, p: nat, n: nat)
    requires p < i < n < |pts| && pts[p].yval.Some? && NoneValid(pts, p + 1, n) && pts[n].yval.Some?
    requires fill != FillNone && pts[p].xval < pts[n].xval
    ensures (Filled(pts, i, fill) - pts[p].yval.value) * (pts[n].xval - pts[p].xval)
            == (pts[n].yval.value - pts[p].yval.value) * (pts[i].xval - pts[p].xval)
  {
    hide PrevValid, NextValid, Interpolate;
    NearestBefore(pts, i, p);
    NearestAfter(pts, i, n);
    assert Filled(pts, i, fill) == Interpolate(pts[p], pts[n], pts[i].xval);
  }

  /** A missing point behind the last valid one takes its value, or none if only the inside is filled. */
  lemma FilledBehind(pts: seq<Point>, i: nat, fill: FillMethod, p: nat)
    requires p < i < |pts| && pts[p].yval.Some? && NoneValid(pts, p + 1, |pts|) && fill != FillNone
    ensures Filled(pts, i, fill) == if fill == FillAll then pts[p].yval.value else 0.0
  {
    hide PrevValid, NextValid, Interpolate;
    NearestBefore(pts, i, p);
  }

  /** So does one before the first valid one. */
  lemma FilledBefore(pts: seq<Point>, i: nat, fill: FillMethod, n: nat)
    requires i < n < |pts| && pts[n].yval.Some? && NoneValid(pts, 0, n) && fill != FillNone
    ensures Filled(pts, i, fill) == if fill == FillAll then pts[n].yval.value else 0.0
  {
    hide PrevValid, NextValid, Interpolate;
    NearestAfter(pts, i, n);
  }

  /** An interpolated value lies between the two it comes from. */
  lemma InterpolatedBetween(pts: seq<Point>, i: nat, p: nat, n: nat)
    requires StrictlyOrdered(pts) && p < i < n < |pts| && pts[p].yval.Some? && pts[n].yval.Some?
    ensures var y := Interpolate(pts[p], pts[n], pts[i].xval);
            (pts[p].yval.value <= y <= pts[n].yval.value) || (pts[n].yval.value <= y <= pts[p].yval.value)
  {
    var width := pts[n].xval - pts[p].xval;
    var part := (pts[i].xval - pts[p].xval) / width;
    assert 0.0 <= part <= 1.0;
    var rise := pts[n].yval.value - pts[p].yval.value;
    assert Interpolate(pts[p], pts[n], pts[i].xval) == pts[p].yval.value + rise * part;
    if rise >= 0.0 {
      assert 0.0 <= rise * part <= rise;
    } else {
      assert rise <= rise * part <= 0.0;
    }
  }

  /** The values all points contribute. */
  function FilledAll(pts: seq<Point>, fill: FillMethod): (v: seq<real>)
    ensures |v| == |pts|
  {
    seq(|pts|, i requires 0 <= i < |pts| => Filled(pts, i, fill))
  }

  function Xs(pts: seq<Point>): (xs: seq<real>)
    ensures |xs| == |pts|
  {
    seq(|pts|, i requires 0 <= i < |pts| => pts[i].xval)
  }

  predicate Ascending(xs: seq<real>) {
    forall i, j :: 0 <= i < j < |xs| ==> xs[i] <= xs[j]
  }

  /** The first of the positions that share the x of position `i`. */
  function FirstOf(xs: seq<real>, i: nat): (f: nat)
    requires i < |xs|
    ensures f <= i
  {
    if i > 0 && xs[i - 1] == xs[i] then FirstOf(xs, i - 1) else i
  }

  /** In an ascending series it is the very first position with that x. */
  lemma {:induction false} FirstOfIsFirst(xs: seq<real>, i: nat)
    requires i < |xs| && Ascending(xs)
    ensures xs[FirstOf(xs, i)] == xs[i] && forall k :: 0 <= k < FirstOf(xs, i) ==> xs[k] != xs[i]
  {
    if i > 0 && xs[i - 1] == xs[i] {
      FirstOfIsFirst(xs, i - 1);
    } else if i > 0 {
      var last := xs[i - 1];
      assert last < xs[i] && forall k :: 0 <= k < i - 1 ==> xs[k] <= xs[i - 1];
    }
  }

  function Base(cumulative: map<real, real>, x: real): real {
    if x in cumulative then cumulative[x] else 0.0
  }

  /** Where point `i` is drawn: on what is stacked at its x already, by the value `v` of the first point there. */
  function Stacked(cumulative: map<real, real>, xs: seq<real>, v: seq<real>, i: nat): real
    requires i < |xs| == |v|
  {
    Base(cumulative, xs[i]) + v[FirstOf(xs, i)]
  }

  /** The stack after the first `n` points: raised at their x values, untouched elsewhere. */
  ghost predicate Raised(before: map<real, real>, xs: seq<real>, v: seq<real>, n: nat, after: map<real, real>)
    requires n <= |xs| == |v|
  {
    && (forall i {:trigger Stacked(before, xs, v, i)} :: 0 <= i < n ==> xs[i] in after && after[xs[i]] == Stacked(before, xs, v, i))
    && (forall x {:trigger NotAmong(xs, n, x)} :: NotAmong(xs, n, x) ==> (x in after <==> x in before) && Base(after, x) == Base(before, x))
  }

  predicate NotAmong(xs: seq<real>, n: nat, x: real)
    requires n <= |xs|
  {
    forall i :: 0 <= i < n ==> xs[i] != x
  }

  // ---------------------------------------------------------------- the code

  /** The points differ from the given ones in their stacked values only. */
  ghost predicate SameInput(pts: seq<Point>, given: seq<Point>) {
    |pts| == |given| && forall i :: 0 <= i < |pts| ==> pts[i].xval == given[i].xval && pts[i].yval == given[i].yval
  }

  /** What the cache is worth when the loop is at `i`. */
  ghost predicate Cached(pts: seq<Point>, i: nat, nextPointIdx: int, nextPoint: Option<nat>)
    requires i <= |pts|
  {
    nextPointIdx >= i ==> nextPoint == Some(nextPointIdx) && NextValid(pts, i) == nextPoint
  }

  /** updateNextPoint: reuse the cached point while it is ahead, else look right from `idx`. */
  method UpdateNextPoint(points: array<Point>, idx: nat, nextPointIdx: int, nextPoint: Option<nat>)
      returns (newIdx: int, newPoint: Option<nat>)
    requires idx < points.Length && Cached(points[..], idx, nextPointIdx, nextPoint)
    ensures newPoint == NextValid(points[..], idx)
    ensures Cached(points[..], idx, newIdx, newPoint)
  {
    if nextPointIdx >= idx {
      return nextPointIdx, nextPoint;
    }
    newIdx, newPoint := nextPointIdx, nextPoint;
    var j := idx;
    while j < points.Length
      invariant idx <= j <= points.Length && newIdx == nextPointIdx
      invariant NextValid(points[..], idx) == NextValid(points[..], j)
      invariant j > idx ==> newPoint == None
    {
      newPoint := None;
      if points[j].yval.Some? {
        newIdx := j;
        newPoint := Some(j);
        return;
      }
      j := j + 1;
    }
  }

  lemma CacheStays(pts: seq<Point>, i: nat, nextPointIdx: int, nextPoint: Option<nat>)
    requires i < |pts| && Cached(pts, i, nextPointIdx, nextPoint)
    ensures Cached(pts, i + 1, nextPointIdx, nextPoint)
  {
  }

  /** Filling and scanning do not look at the stacked values. */
  lemma {:induction false} InputDecides(pts: seq<Point>, given: seq<Point>, i: nat, fill: FillMethod)
    requires SameInput(pts, given) && i <= |pts|
    ensures PrevValid(pts, i) == PrevValid(given, i) && NextValid(pts, i) == NextValid(given, i)
    ensures i < |pts| ==> Filled(pts, i, fill) == Filled(given, i, fill)
  {
    PrevAlike(pts, given, i);
    NextAlike(pts, given, i);
  }

  lemma {:induction false} PrevAlike(pts: seq<Point>, given: seq<Point>, i: nat)
    requires SameInput(pts, given) && i <= |pts|
    ensures PrevValid(pts, i) == PrevValid(given, i)
  {
    if i > 0 {
      PrevAlike(pts, given, i - 1);
    }
  }

  lemma {:induction false} NextAlike(pts: seq<Point>, given: seq<Point>, i: nat)
    requires SameInput(pts, given) && i <= |pts|
    ensures NextValid(pts, i) == NextValid(given, i)
    decreases |pts| - i
  {
    if i < |pts| {
      NextAlike(pts, given, i + 1);
    }
  }

  /** The value a point contributes, and the cache as the look-up leaves it. */
  method Actual(points: array<Point>, i: nat, fill: FillMethod, prevPoint: Option<nat>, nextPointIdx: int, nextPoint: Option<nat>)
      returns (actual: real, newPrev: Option<nat>, newIdx: int, newPoint: Option<nat>)
    requires i < points.Length && prevPoint == PrevValid(points[..], i)
    requires Cached(points[..], i, nextPointIdx, nextPoint)
    ensures actual == Filled(points[..], i, fill)
    ensures newPrev == PrevValid(points[..], i + 1)
    ensures Cached(points[..], i + 1, newIdx, newPoint)
  {
    newPrev, newIdx, newPoint := prevPoint, nextPointIdx, nextPoint;
    CacheStays(points[..], i, nextPointIdx, nextPoint);
    if points[i].yval.None? {
      if fill == FillNone {
        actual := 0.0;
      } else {
        newIdx, newPoint := UpdateNextPoint(points, i, nextPointIdx, nextPoint);
        CacheStays(points[..], i, newIdx, newPoint);
        if newPrev.Some? && newPoint.Some? && fill != FillNone {
          actual := Interpolate(points[newPrev.value], points[newPoint.value], points[i].xval);
        } else if newPrev.Some? && fill == FillAll {
          actual := points[newPrev.value].yval.value;
        } else if newPoint.Some? && fill == FillAll {
          actual := points[newPoint.value].yval.value;
        } else {
          actual := 0.0;
        }
      }
    } else {
      actual := points[i].yval.value;
      newPrev := Some(i);
    }
  }

  lemma NewColumn(xs: seq<real>, n: nat)
    requires n < |xs| && Ascending(xs) && FirstOf(xs, n) == n
    ensures NotAmong(xs, n, xs[n])
  {
    if n > 0 {
      var last, x := xs[n - 1], xs[n];
      assert last < x;
      forall i | 0 <= i < n
        ensures xs[i] != x
      {
        assert i < n - 1 ==> xs[i] <= xs[n - 1];
      }
    }
  }

  lemma NotAmongFewer(xs: seq<real>, n: nat, x: real)
    requires n < |xs| && NotAmong(xs, n + 1, x)
    ensures NotAmong(xs, n, x) && xs[n] != x
  {
  }

  lemma RaisedOnce(before: map<real, real>, xs: seq<real>, v: seq<real>, n: nat, at: map<real, real>)
    requires n < |xs| == |v| && Raised(before, xs, v, n, at) && NotAmong(xs, n, xs[n])
    ensures Raised(before, xs, v, n + 1, at[xs[n] := Stacked(before, xs, v, n)])
  {
    var after := at[xs[n] := Stacked(before, xs, v, n)];
    assert forall i :: 0 <= i < n ==> xs[i] != xs[n];
    hide Stacked, NotAmong;
    forall i | 0 <= i < n + 1
      ensures xs[i] in after && after[xs[i]] == Stacked(before, xs, v, i)
    {
      var drawn := Stacked(before, xs, v, i);
      assert i < n ==> xs[i] in at && at[xs[i]] == drawn;
    }
    forall y | NotAmong(xs, n + 1, y)
      ensures (y in after <==> y in before) && Base(after, y) == Base(before, y)
    {
      NotAmongFewer(xs, n, y);
    }
  }

  /** The first point at an x finds the stack as it was and raises it. */
  lemma FreshColumn(before: map<real, real>, xs: seq<real>, v: seq<real>, n: nat, at: map<real, real>, after: map<real, real>)
    requires n < |xs| == |v| && Raised(before, xs, v, n, at) && FirstOf(xs, n) == n && NotAmong(xs, n, xs[n])
    requires after == at[xs[n] := Base(at, xs[n]) + v[n]]
    ensures Raised(before, xs, v, n + 1, after) && after[xs[n]] == Stacked(before, xs, v, n)
  {
    RaisedOnce(before, xs, v, n, at);
    hide NotAmong;
    assert Base(at, xs[n]) == Base(before, xs[n]);
  }

  /** A later point at the same x finds it raised already and leaves it. */
  lemma SharedColumn(before: map<real, real>, xs: seq<real>, v: seq<real>, n: nat, at: map<real, real>)
    requires n < |xs| == |v| && Raised(before, xs, v, n, at) && FirstOf(xs, n) != n
    ensures Raised(before, xs, v, n + 1, at) && xs[n] in at && at[xs[n]] == Stacked(before, xs, v, n)
  {
    assert n > 0 && xs[n - 1] == xs[n] && FirstOf(xs, n) == FirstOf(xs, n - 1);
    var shared := Stacked(before, xs, v, n - 1);
    assert xs[n - 1] in at && at[xs[n - 1]] == shared == Stacked(before, xs, v, n);
    forall i | 0 <= i < n + 1
      ensures xs[i] in at && at[xs[i]] == Stacked(before, xs, v, i)
    {
      var drawn := Stacked(before, xs, v, i);
    }
    forall y | NotAmong(xs, n + 1, y)
      ensures (y in at <==> y in before) && Base(at, y) == Base(before, y)
    {
      assert NotAmong(xs, n, y);
    }
  }

  /** The least and the greatest of the series' own extremes and the values drawn so far. */
  ghost predicate Spans(drawn: seq<real>, before: (real, real), after: (real, real)) {
    && after.0 <= before.0 && after.1 >= before.1
    && (forall k :: 0 <= k < |drawn| ==> after.0 <= drawn[k] <= after.1)
    && (after.0 == before.0 || after.0 in drawn) && (after.1 == before.1 || after.1 in drawn)
  }

  method Widen(extremes: (real, real), y: real, ghost drawn: seq<real>, ghost before: (real, real)) returns (r: (real, real))
    requires Spans(drawn, before, extremes)
    ensures Spans(drawn + [y], before, r)
  {
    r := extremes;
    if y > r.1 {
      r := (r.0, y);
    }
    if y < r.0 {
      r := (y, r.1);
    }
    assert y in drawn + [y];
  }

  /** The part of the loop that looks up and raises the stack at the point's x. */
  method StackOne(cumulative: map<real, real>, xval: real, lastXval: Option<real>, actual: real,
                  ghost before: map<real, real>, ghost xs: seq<real>, ghost v: seq<real>, ghost n: nat)
      returns (stacked: real, newCumulative: map<real, real>)
    requires n < |xs| == |v| && Ascending(xs) && Raised(before, xs, v, n, cumulative)
    requires xs[n] == xval && v[n] == actual && lastXval == if n == 0 then None else Some(xs[n - 1])
    ensures stacked == Stacked(before, xs, v, n)
    ensures Raised(before, xs, v, n + 1, newCumulative)
  {
    newCumulative := cumulative;
    if xval !in newCumulative {
      newCumulative := newCumulative[xval := 0.0];
    }
    stacked := newCumulative[xval];
    if lastXval != Some(xval) {
      stacked := stacked + actual;
      newCumulative := newCumulative[xval := stacked];
      NewColumn(xs, n);
      FreshColumn(before, xs, v, n, cumulative, newCumulative);
    } else {
      SharedColumn(before, xs, v, n, cumulative);
    }
  }

  /** What the loop of stackPoints_ has done with the first `n` points. */
  ghost predicate DoneUpTo(pts: seq<Point>, given: seq<Point>, n: nat, cumulative: map<real, real>, v: seq<real>)
    requires n <= |given| == |v|
  {
    && SameInput(pts, given)
    && forall k {:trigger Stacked(cumulative, Xs(given), v, k)} :: 0 <= k < n ==> pts[k].stacked == Stacked(cumulative, Xs(given), v, k)
  }

  /** Note where a point is drawn. */
  method Store(points: array<Point>, i: nat, stackedYval: real, ghost given: seq<Point>, ghost cumulative: map<real, real>, ghost v: seq<real>)
    requires i < points.Length == |given| == |v| && DoneUpTo(points[..], given, i, cumulative, v)
    requires stackedYval == Stacked(cumulative, Xs(given), v, i)
    modifies points
    ensures SameInput(points[..], given) && DoneUpTo(points[..], given, i + 1, cumulative, v)
    ensures points[i].stacked == stackedYval && forall k :: 0 <= k < points.Length && k != i ==> points[k] == old(points[k])
  {
    hide DoneUpTo, SameInput, Stacked;
    StoreKeepsDone(points[..], given, i, cumulative, v);
    ghost var stored := points[..][i := points[i].(stacked := stackedYval)];
    points[i] := points[i].(stacked := stackedYval);
    assert points[..] == stored;
  }

  lemma StoreKeepsDone(pts: seq<Point>, given: seq<Point>, n: nat, cumulative: map<real, real>, v: seq<real>)
    requires n < |pts| == |given| == |v| && DoneUpTo(pts, given, n, cumulative, v)
    ensures var stored := pts[n := pts[n].(stacked := Stacked(cumulative, Xs(given), v, n))];
            SameInput(stored, given) && DoneUpTo(stored, given, n + 1, cumulative, v)
  {
    hide Stacked;
  }

  lemma InputAt(pts: seq<Point>, given: seq<Point>, i: nat, fill: FillMethod)
    requires SameInput(pts, given) && i < |pts|
    ensures Xs(given)[i] == pts[i].xval && FilledAll(given, fill)[i] == Filled(given, i, fill)
  {
  }

  lemma AtTheStart(given: seq<Point>, cumulative: map<real, real>, v: seq<real>, extremes: (real, real))
    requires |v| == |given|
    ensures PrevValid(given, 0) == None && Cached(given, 0, -1, None)
    ensures Raised(cumulative, Xs(given), v, 0, cumulative)
    ensures SameInput(given, given) && DoneUpTo(given, given, 0, cumulative, v)
    ensures Spans([], extremes, extremes)
  {
  }

  /** Dygraph.stackPoints_; `extremes` is the series' least and greatest value. */
  method StackPoints(points: array<Point>, cumulative: map<real, real>, extremes: (real, real), fill: FillMethod)
      returns (newCumulative: map<real, real>, newExtremes: (real, real), ghost drawn: seq<real>)
    requires Ascending(Xs(points[..]))
    modifies points
    ensures DoneUpTo(points[..], old(points[..]), points.Length, cumulative, FilledAll(old(points[..]), fill))
    ensures Raised(cumulative, Xs(old(points[..])), FilledAll(old(points[..]), fill), points.Length, newCumulative)
    ensures |drawn| == points.Length && (forall k :: 0 <= k < points.Length ==> drawn[k] == points[k].stacked)
    ensures Spans(drawn, extremes, newExtremes)
  {
    hide *;
    ghost var given := points[..];
    ghost var xs, v := Xs(given), FilledAll(given, fill);
    AtTheStart(given, cumulative, v, extremes);
    newCumulative, newExtremes, drawn := cumulative, extremes, [];
    var lastXval: Option<real> := None;
    var prevPoint, nextPoint: Option<nat> := None, None;
    var nextPointIdx := -1;
    for i := 0 to points.Length
      invariant lastXval == if i == 0 then None else Some(xs[i - 1])
      invariant prevPoint == PrevValid(given, i) && Cached(given, i, nextPointIdx, nextPoint)
      invariant Raised(cumulative, xs, v, i, newCumulative)
      invariant SameInput(points[..], given) && DoneUpTo(points[..], given, i, cumulative, v)
      invariant |drawn| == i && forall k :: 0 <= k < i ==> drawn[k] == points[k].stacked
      invariant Spans(drawn, extremes, newExtremes)
    {
      var xval := points[i].xval;
      InputAt(points[..], given, i, fill);
      InputDecides(points[..], given, i, fill);
      InputDecides(points[..], given, i + 1, fill);
      NextAlikeCache(points[..], given, i, nextPointIdx, nextPoint);
      var actualYval;
      actualYval, prevPoint, nextPointIdx, nextPoint := Actual(points, i, fill, prevPoint, nextPointIdx, nextPoint);
      NextAlikeCache(points[..], given, i + 1, nextPointIdx, nextPoint);
      var stackedYval;
      stackedYval, newCumulative := StackOne(newCumulative, xval, lastXval, actualYval, cumulative, xs, v, i);
      lastXval := Some(xval);
      Store(points, i, stackedYval, given, cumulative, v);
      newExtremes := Widen(newExtremes, stackedYval, drawn, extremes);
      drawn := drawn + [stackedYval];
    }
  }

  lemma NextAlikeCache(pts: seq<Point>, given: seq<Point>, i: nat, nextPointIdx: int, nextPoint: Option<nat>)
    requires SameInput(pts, given) && i <= |pts|
    ensures Cached(pts, i, nextPointIdx, nextPoint) <==> Cached(given, i, nextPointIdx, nextPoint)
  {
    NextAlike(pts, given, i);
  }

  // ---------------------------------------------------------------- many series

  predicate StrictlyAscending(xs: seq<real>) {
    forall i, j :: 0 <= i < j < |xs| ==> xs[i] < xs[j]
  }

  /** The values of the first `n` series in row `i`. */
  function RowSum(values: seq<seq<real>>, n: nat, i: nat): real
    requires n <= |values| && forall s :: 0 <= s < |values| ==> i < |values[s]|
  {
    if n == 0 then 0.0 else RowSum(values, n - 1, i) + values[n - 1][i]
  }

  /**
    Stacking series after series on the same x values, from an empty stack: in
    every row each point is drawn at the sum of the filled values of the series so
    far, its own included. `values[s]` are the filled values of series s.
  */
  lemma {:induction false} StackIsRowSum(xs: seq<real>, values: seq<seq<real>>, stacks: seq<map<real, real>>, n: nat, i: nat)
    requires StrictlyAscending(xs) && i < |xs| && n <= |values| && |stacks| == |values| + 1 && stacks[0] == map[]
    requires forall s :: 0 <= s < |values| ==> |values[s]| == |xs| && Raised(stacks[s], xs, values[s], |xs|, stacks[s + 1])
    ensures Base(stacks[n], xs[i]) == RowSum(values, n, i)
    ensures n > 0 ==> Stacked(stacks[n - 1], xs, values[n - 1], i) == RowSum(values, n, i)
  {
    if n > 0 {
      StackIsRowSum(xs, values, stacks, n - 1, i);
      assert i > 0 ==> xs[i - 1] < xs[i];
      assert FirstOf(xs, i) == i;
      assert Raised(stacks[n - 1], xs, values[n - 1], |xs|, stacks[n]);
      var drawn := Stacked(stacks[n - 1], xs, values[n - 1], i);
      assert xs[i] in stacks[n] && stacks[n][xs[i]] == drawn;
    }
  }
}
