/**
  The chart's moving averages: the two handlers that keep running sums, and the
  default one that sums each window anew. Numbers are exact reals; a missing or
  not-a-number value is None.
*/
module RollingAverage {

  datatype Option<T> = None | Some(value: T)

  // ---------------------------------------------------------------- windows and sums

  function Sum(s: seq<real>): real
    decreases |s|
  {
    if s == [] then 0.0 else s[0] + Sum(s[1..])
  }

  /** Where the window of the last `period` values up to index `i` begins. */
  function From(i: nat, period: nat): (lo: nat)
    ensures lo <= i + 1
  {
    if i + 1 <= period then 0 else i + 1 - period
  }

  function Window<T>(s: seq<T>, i: nat, period: nat): seq<T>
    requires i < |s|
  {
    s[From(i, period)..i + 1]
  }

  /** A window is the last `period` elements up to index `i`, or all there are. */
  lemma WindowIsNewest<T>(s: seq<T>, i: nat, period: nat)
    requires i < |s|
    ensures var w := Window(s, i, period);
            && |w| == (if i + 1 < period then i + 1 else period)
            && forall k :: i + 1 - |w| <= k <= i ==> s[k] == w[k - (i + 1 - |w|)]
  {
  }

  lemma {:induction false} SumSnoc(s: seq<real>, x: real)
    ensures Sum(s + [x]) == Sum(s) + x
    decreases |s|
  {
    if s != [] {
      SumSnoc(s[1..], x);
      assert (s + [x])[1..] == s[1..] + [x];
    }
  }

  /** The values before index `i` that the running sum holds when the loop reaches `i`. */
  function Running<T>(s: seq<T>, i: nat, period: nat): seq<T>
    requires i <= |s|
  {
    if i == 0 then [] else Window(s, i - 1, period)
  }

  /** What the sum holds and the new value are what leaves and the next window. */
  lemma WindowMovesOn<T>(s: seq<T>, i: nat, period: nat)
    requires i < |s|
    ensures Running(s, i, period) + [s[i]] == (if i >= period then [s[i - period]] else []) + Window(s, i, period)
  {
    var held, out, next := Running(s, i, period), if i >= period then [s[i - period]] else [], Window(s, i, period);
    assert |held| + 1 == |out| + |next|;
    forall k | 0 <= k <= |held|
      ensures (held + [s[i]])[k] == (out + next)[k]
    {
      assert (held + [s[i]])[k] == s[i - |held| + k];
    }
  }

  /** Adding the new value and dropping the one that leaves moves the sum to the next window. */
  lemma Slides(v: seq<real>, i: nat, period: nat)
    requires i < |v|
    ensures Sum(Window(v, i, period)) == Sum(Running(v, i, period)) + v[i] - (if i >= period then v[i - period] else 0.0)
  {
    hide Running, Window;
    WindowMovesOn(v, i, period);
    SumSnoc(Running(v, i, period), v[i]);
    var next := Window(v, i, period);
    if i >= period {
      assert ([v[i - period]] + next)[1..] == next;
    } else {
      assert [] + next == next;
    }
  }

  // ---------------------------------------------------------------- custom bars

  datatype Bar = Bar(mid: real, low: real, high: real)

  datatype BarRow = BarRow(x: real, bar: Option<Bar>)

  function Mids(rows: seq<BarRow>): (v: seq<real>)
    ensures |v| == |rows|
  {
    seq(|rows|, i requires 0 <= i < |rows| => if rows[i].bar.Some? then rows[i].bar.value.mid else 0.0)
  }

  function Lows(rows: seq<BarRow>): (v: seq<real>)
    ensures |v| == |rows|
  {
    seq(|rows|, i requires 0 <= i < |rows| => if rows[i].bar.Some? then rows[i].bar.value.low else 0.0)
  }

  function Highs(rows: seq<BarRow>): (v: seq<real>)
    ensures |v| == |rows|
  {
    seq(|rows|, i requires 0 <= i < |rows| => if rows[i].bar.Some? then rows[i].bar.value.high else 0.0)
  }

  /** One for each row that has a value. */
  function Ones(rows: seq<BarRow>): (v: seq<real>)
    ensures |v| == |rows|
  {
    seq(|rows|, i requires 0 <= i < |rows| => if rows[i].bar.Some? then 1.0 else 0.0)
  }

  /** The mean of the values in a window, nulls skipped. */
  function MeanBar(window: seq<BarRow>): Option<Bar> {
    var n := Sum(Ones(window));
    if n == 0.0 then None
    else Some(Bar(Sum(Mids(window)) / n, Sum(Lows(window)) / n, Sum(Highs(window)) / n))
  }

  /** Each value times the number of rows that have one is their sum; there is none exactly if no row has one. */
  ghost predicate IsMeanBar(bar: Option<Bar>, window: seq<BarRow>) {
    && (bar.None? <==> forall r :: r in window ==> r.bar.None?)
    && (bar.Some? ==>
          && bar.value.mid * Sum(Ones(window)) == Sum(Mids(window))
          && bar.value.low * Sum(Ones(window)) == Sum(Lows(window))
          && bar.value.high * Sum(Ones(window)) == Sum(Highs(window)))
  }

  lemma {:induction false} OnesCount(rows: seq<BarRow>)
    ensures Sum(Ones(rows)) >= 0.0 && (Sum(Ones(rows)) == 0.0 <==> forall r :: r in rows ==> r.bar.None?)
    decreases |rows|
  {
    if rows != [] {
      OnesCount(rows[1..]);
      assert Ones(rows)[1..] == Ones(rows[1..]);
      assert forall r :: r in rows <==> r == rows[0] || r in rows[1..];
    }
  }

  lemma MeanBarIsMean(window: seq<BarRow>)
    ensures IsMeanBar(MeanBar(window), window)
  {
    OnesCount(window);
  }

  function OrZeros(bar: Option<Bar>): Bar {
    if bar.Some? then bar.value else Bar(0.0, 0.0, 0.0)
  }

  /** The sums over the rows the handler holds before index `i`. */
  ghost predicate Sums(rows: seq<BarRow>, low: real, mid: real, high: real, count: real) {
    low == Sum(Lows(rows)) && mid == Sum(Mids(rows)) && high == Sum(Highs(rows)) && count == Sum(Ones(rows))
  }

  lemma MeanFromSums(rows: seq<BarRow>, low: real, mid: real, high: real, count: real)
    requires Sums(rows, low, mid, high, count)
    ensures count == 0.0 ==> MeanBar(rows) == None
    ensures count != 0.0 ==> MeanBar(rows) == Some(Bar(1.0 * mid / count, 1.0 * low / count, 1.0 * high / count))
  {
  }

  /** One step of the four running sums. */
  lemma BarsSlide(rows: seq<BarRow>, i: nat, period: nat, low: real, mid: real, high: real, count: real)
    requires i < |rows| && Sums(Running(rows, i, period), low, mid, high, count)
    ensures var entering := rows[i].bar;
            var leaving := if i >= period then rows[i - period].bar else None;
            Sums(Window(rows, i, period), low + OrZeros(entering).low - OrZeros(leaving).low,
                 mid + OrZeros(entering).mid - OrZeros(leaving).mid, high + OrZeros(entering).high - OrZeros(leaving).high,
                 count + (if entering.Some? then 1.0 else 0.0) - (if leaving.Some? then 1.0 else 0.0))
  {
    Slides(Lows(rows), i, period);
    Slides(Mids(rows), i, period);
    Slides(Highs(rows), i, period);
    Slides(Ones(rows), i, period);
    ColumnsOfWindow(rows, i, period);
    if i > 0 {
      ColumnsOfWindow(rows, i - 1, period);
    }
  }

  lemma ColumnsOfWindow(rows: seq<BarRow>, i: nat, period: nat)
    requires i < |rows|
    ensures Mids(Window(rows, i, period)) == Window(Mids(rows), i, period)
    ensures Lows(Window(rows, i, period)) == Window(Lows(rows), i, period)
    ensures Highs(Window(rows, i, period)) == Window(Highs(rows), i, period)
    ensures Ones(Window(rows, i, period)) == Window(Ones(rows), i, period)
  {
  }

  /** The part of the loop that adds the new row and drops the one that leaves. */
  method SlideBars(rows: seq<BarRow>, i: nat, period: nat, low0: real, mid0: real, high0: real, count0: real)
      returns (low: real, mid: real, high: real, count: real)
    requires i < |rows| && Sums(Running(rows, i, period), low0, mid0, high0, count0)
    ensures Sums(Window(rows, i, period), low, mid, high, count)
  {
    hide Sums, Running, Window;
    BarsSlide(rows, i, period, low0, mid0, high0, count0);
    low, mid, high, count := low0, mid0, high0, count0;
    if rows[i].bar.Some? {
      low := low + rows[i].bar.value.low;
      mid := mid + rows[i].bar.value.mid;
      high := high + rows[i].bar.value.high;
      count := count + 1.0;
    }
    if i - period >= 0 {
      var prev := rows[i - period];
      if prev.bar.Some? {
        low := low - prev.bar.value.low;
        mid := mid - prev.bar.value.mid;
        high := high - prev.bar.value.high;
        count := count - 1.0;
      }
    }
  }

  lemma NothingHeld(rows: seq<BarRow>, period: nat)
    ensures Sums(Running(rows, 0, period), 0.0, 0.0, 0.0, 0.0)
  {
  }

  lemma HeldNext<T>(rows: seq<T>, i: nat, period: nat)
    requires i < |rows|
    ensures Running(rows, i + 1, period) == Window(rows, i, period)
  {
  }

  /** CustomBarsHandler.rollingAverage */
  method RollCustomBars(rows: seq<BarRow>, rollPeriod: nat) returns (rolled: seq<BarRow>)
    ensures |rolled| == |rows|
    ensures forall i :: 0 <= i < |rows| ==> rolled[i] == BarRow(rows[i].x, MeanBar(Window(rows, i, rollPeriod)))
    ensures forall i :: 0 <= i < |rows| ==> IsMeanBar(rolled[i].bar, Window(rows, i, rollPeriod))
  {
    hide *;
    var period := if rollPeriod <= |rows| then rollPeriod else |rows|;
    rolled := [];
    var low, mid, high, count := 0.0, 0.0, 0.0, 0.0;
    NothingHeld(rows, period);
    for i := 0 to |rows|
      invariant |rolled| == i
      invariant forall k :: 0 <= k < i ==> rolled[k] == BarRow(rows[k].x, MeanBar(Window(rows, k, rollPeriod)))
      invariant forall k :: 0 <= k < i ==> IsMeanBar(rolled[k].bar, Window(rows, k, rollPeriod))
      invariant Sums(Running(rows, i, period), low, mid, high, count)
    {
      low, mid, high, count := SlideBars(rows, i, period, low, mid, high, count);
      MeanFromSums(Window(rows, i, period), low, mid, high, count);
      WindowCapped(rows, i, rollPeriod);
      MeanBarIsMean(Window(rows, i, rollPeriod));
      HeldNext(rows, i, period);
      if count != 0.0 {
        rolled := rolled + [BarRow(rows[i].x, Some(Bar(1.0 * mid / count, 1.0 * low / count, 1.0 * high / count)))];
      } else {
        rolled := rolled + [BarRow(rows[i].x, None)];
      }
    }
  }

  // ---------------------------------------------------------------- plain values

  datatype Row = Row(x: real, y: Option<real>)

  function Values(rows: seq<Row>): (v: seq<real>)
    ensures |v| == |rows|
  {
    seq(|rows|, i requires 0 <= i < |rows| => if rows[i].y.Some? then rows[i].y.value else 0.0)
  }

  function Counts(rows: seq<Row>): (v: seq<real>)
    ensures |v| == |rows|
  {
    seq(|rows|, i requires 0 <= i < |rows| => if rows[i].y.Some? then 1.0 else 0.0)
  }

  function Mean(window: seq<Row>): Option<real> {
    if Sum(Counts(window)) == 0.0 then None else Some(Sum(Values(window)) / Sum(Counts(window)))
  }

  lemma MeanGrows(rows: seq<Row>, r: Row)
    ensures Sum(Values(rows + [r])) == Sum(Values(rows)) + if r.y.Some? then r.y.value else 0.0
    ensures Sum(Counts(rows + [r])) == Sum(Counts(rows)) + if r.y.Some? then 1.0 else 0.0
  {
    assert Values(rows + [r]) == Values(rows) + [if r.y.Some? then r.y.value else 0.0];
    assert Counts(rows + [r]) == Counts(rows) + [if r.y.Some? then 1.0 else 0.0];
    SumSnoc(Values(rows), if r.y.Some? then r.y.value else 0.0);
    SumSnoc(Counts(rows), if r.y.Some? then 1.0 else 0.0);
  }

  lemma MeanOfOne(r: Row)
    ensures Mean([r]) == r.y
  {
    MeanGrows([], r);
    assert [] + [r] == [r] && Values([]) == [] && Counts([]) == [];
    assert r.y.Some? ==> r.y.value / 1.0 == r.y.value;
  }

  /** The inner loop of the default handler: the sum and the number of the values from `lo` to `i`. */
  method SumWindow(rows: seq<Row>, lo: nat, i: nat) returns (sum: real, ok: real)
    requires lo <= i + 1 <= |rows|
    ensures sum == Sum(Values(rows[lo..i + 1])) && ok == Sum(Counts(rows[lo..i + 1]))
  {
    sum, ok := 0.0, 0.0;
    var j := lo;
    while j < i + 1
      invariant lo <= j <= i + 1
      invariant sum == Sum(Values(rows[lo..j])) && ok == Sum(Counts(rows[lo..j]))
    {
      MeanGrows(rows[lo..j], rows[j]);
      assert rows[lo..j + 1] == rows[lo..j] + [rows[j]];
      if rows[j].y.Some? {
        ok := ok + 1.0;
        sum := sum + rows[j].y.value;
      }
      j := j + 1;
    }
  }

  /** DefaultHandler.rollingAverage: a window of one returns the series as it is. */
  method RollDefault(rows: seq<Row>, rollPeriod: nat) returns (rolled: seq<Row>)
    ensures |rolled| == |rows|
    ensures forall i :: 0 <= i < |rows| ==> rolled[i] == Row(rows[i].x, Mean(Window(rows, i, rollPeriod)))
  {
    var period := if rollPeriod <= |rows| then rollPeriod else |rows|;
    if period == 1 {
      forall i | 0 <= i < |rows|
        ensures rows[i] == Row(rows[i].x, Mean(Window(rows, i, rollPeriod)))
      {
        MeanOfOne(rows[i]);
        assert Window(rows, i, rollPeriod) == [rows[i]];
      }
      return rows;
    }
    rolled := [];
    for i := 0 to |rows|
      invariant |rolled| == i
      invariant forall k :: 0 <= k < i ==> rolled[k] == Row(rows[k].x, Mean(Window(rows, k, rollPeriod)))
    {
      var lo := if i - period + 1 > 0 then i - period + 1 else 0;
      var sum, ok := SumWindow(rows, lo, i);
      assert rows[lo..i + 1] == Window(rows, i, rollPeriod);
      if ok != 0.0 {
        rolled := rolled + [Row(rows[i].x, Some(sum / ok))];
      } else {
        rolled := rolled + [Row(rows[i].x, None)];
      }
    }
  }

  /** The middle values of a series of bars. */
  function Middle(rows: seq<BarRow>): (v: seq<Row>)
    ensures |v| == |rows|
  {
    seq(|rows|, i requires 0 <= i < |rows| => Row(rows[i].x, if rows[i].bar.Some? then Some(rows[i].bar.value.mid) else None))
  }

  /** The running sums of the custom bars and the fresh sums of the default handler agree on the middle value everywhere. */
  lemma MiddleIsDefaultAverage(rows: seq<BarRow>, i: nat, period: nat)
    requires i < |rows|
    ensures (match MeanBar(Window(rows, i, period)) case None => None case Some(b) => Some(b.mid))
            == Mean(Window(Middle(rows), i, period))
  {
    var w := Window(rows, i, period);
    assert Window(Middle(rows), i, period) == Middle(w);
    assert Values(Middle(w)) == Mids(w);
    assert Counts(Middle(w)) == Ones(w);
  }

  // ---------------------------------------------------------------- fractions

  /** Numerator and denominator, or nulls; in sums a null counts as zero. */
  datatype FractionRow = FractionRow(x: real, parts: Option<(real, real)>)

  function Numerators(rows: seq<FractionRow>): (v: seq<real>)
    ensures |v| == |rows|
  {
    seq(|rows|, i requires 0 <= i < |rows| => if rows[i].parts.Some? then rows[i].parts.value.0 else 0.0)
  }

  function Denominators(rows: seq<FractionRow>): (v: seq<real>)
    ensures |v| == |rows|
  {
    seq(|rows|, i requires 0 <= i < |rows| => if rows[i].parts.Some? then rows[i].parts.value.1 else 0.0)
  }

  /** The quotient of the sums in percent, zero if the denominators cancel. */
  function Percent(window: seq<FractionRow>): real {
    if Sum(Denominators(window)) != 0.0 then 100.0 * (Sum(Numerators(window)) / Sum(Denominators(window))) else 0.0
  }

  /** So much of the denominators, in hundredths, are the numerators. */
  ghost predicate IsPercent(p: real, window: seq<FractionRow>) {
    if Sum(Denominators(window)) == 0.0 then p == 0.0
    else p / 100.0 * Sum(Denominators(window)) == Sum(Numerators(window))
  }

  lemma PercentIs(window: seq<FractionRow>)
    ensures IsPercent(Percent(window), window)
  {
    var n, d := Sum(Numerators(window)), Sum(Denominators(window));
    if d != 0.0 {
      assert 100.0 * (n / d) / 100.0 == n / d;
    }
  }

  function OrZero(parts: Option<(real, real)>): (real, real) {
    if parts.Some? then parts.value else (0.0, 0.0)
  }

  lemma FractionsOfWindow(rows: seq<FractionRow>, i: nat, period: nat)
    requires i < |rows|
    ensures Sum(Numerators(Window(rows, i, period)))
            == Sum(Running(Numerators(rows), i, period)) + OrZero(rows[i].parts).0
               - (if i >= period then OrZero(rows[i - period].parts).0 else 0.0)
    ensures Sum(Denominators(Window(rows, i, period)))
            == Sum(Running(Denominators(rows), i, period)) + OrZero(rows[i].parts).1
               - (if i >= period then OrZero(rows[i - period].parts).1 else 0.0)
    ensures Running(Numerators(rows), i + 1, period) == Numerators(Window(rows, i, period))
    ensures Running(Denominators(rows), i + 1, period) == Denominators(Window(rows, i, period))
  {
    Slides(Numerators(rows), i, period);
    Slides(Denominators(rows), i, period);
    assert Numerators(Window(rows, i, period)) == Window(Numerators(rows), i, period);
    assert Denominators(Window(rows, i, period)) == Window(Denominators(rows), i, period);
  }

  lemma PercentOfSums(window: seq<FractionRow>, num: real, den: real)
    requires num == Sum(Numerators(window)) && den == Sum(Denominators(window))
    ensures 100.0 * (if den != 0.0 then num / den else 0.0) == Percent(window)
  {
  }

  /** A window longer than the series is the whole series so far. */
  lemma WindowCapped<T>(s: seq<T>, i: nat, period: nat)
    requires i < |s|
    ensures Window(s, i, if period <= |s| then period else |s|) == Window(s, i, period)
  {
  }

  /** The part of the loop that adds the new row and drops the one that leaves. */
  method SlideFractions(rows: seq<FractionRow>, i: nat, period: nat, num0: real, den0: real) returns (num: real, den: real)
    requires i < |rows|
    requires num0 == Sum(Running(Numerators(rows), i, period)) && den0 == Sum(Running(Denominators(rows), i, period))
    ensures num == Sum(Numerators(Window(rows, i, period))) && den == Sum(Denominators(Window(rows, i, period)))
  {
    hide *;
    FractionsOfWindow(rows, i, period);
    num := num0 + OrZero(rows[i].parts).0;
    den := den0 + OrZero(rows[i].parts).1;
    if i - period >= 0 {
      num := num - OrZero(rows[i - period].parts).0;
      den := den - OrZero(rows[i - period].parts).1;
    }
  }

  lemma NoFractionsHeld(rows: seq<FractionRow>, period: nat)
    ensures Sum(Running(Numerators(rows), 0, period)) == 0.0 == Sum(Running(Denominators(rows), 0, period))
  {
  }

  /** DefaultFractionHandler.rollingAverage */
  method RollFractions(rows: seq<FractionRow>, rollPeriod: nat) returns (rolled: seq<(real, real)>)
    ensures |rolled| == |rows|
    ensures forall i :: 0 <= i < |rows| ==> rolled[i] == (rows[i].x, Percent(Window(rows, i, rollPeriod)))
    ensures forall i :: 0 <= i < |rows| ==> IsPercent(rolled[i].1, Window(rows, i, rollPeriod))
  {
    hide *;
    var period := if rollPeriod <= |rows| then rollPeriod else |rows|;
    rolled := [];
    var num, den := 0.0, 0.0;
    NoFractionsHeld(rows, period);
    for i := 0 to |rows|
      invariant |rolled| == i
      invariant forall k :: 0 <= k < i ==> rolled[k] == (rows[k].x, Percent(Window(rows, k, rollPeriod)))
      invariant forall k :: 0 <= k < i ==> IsPercent(rolled[k].1, Window(rows, k, rollPeriod))
      invariant num == Sum(Running(Numerators(rows), i, period)) && den == Sum(Running(Denominators(rows), i, period))
    {
      FractionsOfWindow(rows, i, period);
      num, den := SlideFractions(rows, i, period, num, den);
      WindowCapped(rows, i, rollPeriod);
      PercentOfSums(Window(rows, i, period), num, den);
      PercentIs(Window(rows, i, rollPeriod));
      var value := 100.0 * (if den != 0.0 then num / den else 0.0);
      rolled := rolled + [(rows[i].x, value)];
    }
  }
}
