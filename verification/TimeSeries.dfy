/**
  The live chart's time series: a list of samples kept in time order, running
  bounds, and trimming that must not change what is drawn. Numbers are exact
  reals; bounds that are not a number yet are None.
*/
module TimeSeries {

  datatype Option<T> = None | Some(value: T)

  datatype Sample = Sample(time: real, value: real)

  predicate InOrder(data: seq<Sample>) {
    forall i, j :: 0 <= i < j < |data| ==> data[i].time < data[j].time
  }

  /** The series as what it stands for: a value for each of its timestamps. */
  function AsMap(data: seq<Sample>): map<real, real>
    decreases |data|
  {
    if data == [] then map[] else AsMap(data[..|data| - 1])[data[|data| - 1].time := data[|data| - 1].value]
  }

  lemma {:induction false} AsMapHas(data: seq<Sample>, t: real)
    requires InOrder(data)
    ensures t in AsMap(data) <==> exists i :: 0 <= i < |data| && data[i].time == t
    ensures forall i :: 0 <= i < |data| ==> data[i].time in AsMap(data) && AsMap(data)[data[i].time] == data[i].value
    decreases |data|
  {
    if data != [] {
      var init, last := data[..|data| - 1], data[|data| - 1];
      AsMapHas(init, t);
      if t == last.time {
        assert data[|data| - 1].time == t;
      }
      forall i | 0 <= i < |data|
        ensures data[i].time in AsMap(data) && AsMap(data)[data[i].time] == data[i].value
      {
        if i < |data| - 1 {
          assert init[i] == data[i];
        }
      }
    }
  }

  /** Ordered lists with the same samples stand for the same map, whatever was changed to get there. */
  lemma MapsAgree(data: seq<Sample>, m: map<real, real>)
    requires InOrder(data)
    requires forall i :: 0 <= i < |data| ==> data[i].time in m && m[data[i].time] == data[i].value
    requires forall t :: t in m ==> exists i :: 0 <= i < |data| && data[i].time == t
    ensures AsMap(data) == m
  {
    forall t
      ensures t in AsMap(data) <==> t in m
      ensures t in m ==> AsMap(data)[t] == m[t]
    {
      AsMapHas(data, t);
    }
  }

  function Inserted(data: seq<Sample>, k: nat, s: Sample): seq<Sample>
    requires k <= |data|
  {
    data[..k] + [s] + data[k..]
  }

  lemma InsertKeepsOrder(data: seq<Sample>, k: nat, s: Sample)
    requires InOrder(data) && k <= |data|
    requires (k > 0 ==> data[k - 1].time < s.time) && (k < |data| ==> s.time < data[k].time)
    ensures InOrder(Inserted(data, k, s))
    ensures forall i :: 0 <= i < |data| ==> data[i].time != s.time
  {
    var r := Inserted(data, k, s);
    forall i | 0 <= i < |data|
      ensures if i < k then data[i].time < s.time else s.time < data[i].time
    {
      assert i < k ==> data[i].time <= data[k - 1].time;
      assert i >= k ==> data[k].time <= data[i].time;
    }
    forall i, j | 0 <= i < j < |r|
      ensures r[i].time < r[j].time
    {
      assert r[i] == if i < k then data[i] else if i == k then s else data[i - 1];
      assert r[j] == if j < k then data[j] else if j == k then s else data[j - 1];
    }
  }

  lemma AsMapSnoc(data: seq<Sample>, s: Sample)
    ensures AsMap(data + [s]) == AsMap(data)[s.time := s.value]
  {
    assert (data + [s])[..|data|] == data;
  }

  /** Inserting a new time extends the map. */
  lemma {:induction false} InsertExtends(data: seq<Sample>, k: nat, s: Sample)
    requires k <= |data| && forall i :: 0 <= i < |data| ==> data[i].time != s.time
    ensures s.time !in AsMap(data) && AsMap(Inserted(data, k, s)) == AsMap(data)[s.time := s.value]
    decreases |data|
  {
    if data == [] {
      assert Inserted(data, k, s) == data + [s] && (data + [s])[..|data|] == data;
    } else {
      InsertInLonger(data, k, s);
    }
  }

  lemma {:induction false} InsertInLonger(data: seq<Sample>, k: nat, s: Sample)
    requires k <= |data| && data != [] && forall i :: 0 <= i < |data| ==> data[i].time != s.time
    ensures s.time !in AsMap(data) && AsMap(Inserted(data, k, s)) == AsMap(data)[s.time := s.value]
    decreases |data|, 0
  {
    hide AsMap;
    var init, last := data[..|data| - 1], data[|data| - 1];
    assert data == init + [last];
    AsMapSnoc(init, last);
    if k == |data| {
      assert Inserted(data, k, s) == data + [s];
      AsMapSnoc(data, s);
      InsertExtends(init, k - 1, s);
    } else {
      InsertExtends(init, k, s);
      assert Inserted(data, k, s) == Inserted(init, k, s) + [last];
      AsMapSnoc(Inserted(init, k, s), last);
    }
  }

  /** Changing the value at a time that is there changes the map there only. */
  lemma ReplaceUpdates(data: seq<Sample>, k: nat, v: real)
    requires InOrder(data) && k < |data|
    ensures var r := data[k := Sample(data[k].time, v)];
            InOrder(r) && data[k].time in AsMap(data) && AsMap(data)[data[k].time] == data[k].value
            && AsMap(r) == AsMap(data)[data[k].time := v]
  {
    var r := data[k := Sample(data[k].time, v)];
    var m := AsMap(data)[data[k].time := v];
    AsMapHas(data, data[k].time);
    forall t | t in m
      ensures exists i :: 0 <= i < |r| && r[i].time == t
    {
      AsMapHas(data, t);
      if t == data[k].time {
        assert r[k].time == t;
      } else {
        var i :| 0 <= i < |data| && data[i].time == t;
        assert r[i].time == t;
      }
    }
    MapsAgree(r, m);
  }

  // ---------------------------------------------------------------- what is drawn

  /** The height at time `t` of the line through the samples, if it reaches `t`. */
  function Curve(data: seq<Sample>, t: real): Option<real>
    decreases |data|
  {
    if data == [] || t < data[0].time then None
    else if t == data[0].time then Some(data[0].value)
    else if |data| == 1 then None
    else if t < data[1].time then
      if data[1].time == data[0].time then None
      else Some(data[0].value + (data[1].value - data[0].value) * ((t - data[0].time) / (data[1].time - data[0].time)))
    else Curve(data[1..], t)
  }

  /** Dropping samples that are followed by one at or before `t` does not move the curve at `t`. */
  lemma {:induction false} DropKeepsCurve(data: seq<Sample>, n: nat, t: real)
    requires InOrder(data) && n < |data| && data[n].time <= t
    ensures Curve(data[n..], t) == Curve(data, t)
    decreases n
  {
    if n > 0 {
      assert data[0].time < data[n].time && data[1].time <= data[n].time;
      DropKeepsCurve(data[1..], n - 1, t);
      assert data[1..][n - 1..] == data[n..];
    } else {
      assert data[0..] == data;
    }
  }

  // ---------------------------------------------------------------- the code

  class Series {
    var data: seq<Sample>
    var maxValue: Option<real>
    var minValue: Option<real>

    /** Times strictly increase, and the bounds hold every value (they need not be met any more). */
    ghost predicate Valid()
      reads this
    {
      && InOrder(data)
      && (maxValue.Some? <==> minValue.Some?)
      && (data != [] ==> maxValue.Some?)
      && (forall i :: 0 <= i < |data| ==> minValue.Some? && maxValue.Some? && minValue.value <= data[i].value <= maxValue.value)
    }

    /** clear */
    constructor ()
      ensures Valid() && data == [] && maxValue == None && minValue == None
    {
      data, maxValue, minValue := [], None, None;
    }

    /** resetBounds: afterwards the bounds are met. */
    method ResetBounds()
      modifies `maxValue, `minValue
      ensures data == [] ==> maxValue == None && minValue == None
      ensures data != [] ==>
                && maxValue.Some? && minValue.Some?
                && (forall i :: 0 <= i < |data| ==> minValue.value <= data[i].value <= maxValue.value)
                && (exists i :: 0 <= i < |data| && data[i].value == maxValue.value)
                && (exists i :: 0 <= i < |data| && data[i].value == minValue.value)
      ensures InOrder(data) ==> Valid()
    {
      if |data| != 0 {
        maxValue, minValue := Some(data[0].value), Some(data[0].value);
        var i := 1;
        while i < |data|
          invariant 1 <= i <= |data| && maxValue.Some? && minValue.Some?
          invariant forall k :: 0 <= k < i ==> minValue.value <= data[k].value <= maxValue.value
          invariant exists k :: 0 <= k < i && data[k].value == maxValue.value
          invariant exists k :: 0 <= k < i && data[k].value == minValue.value
        {
          var value := data[i].value;
          if value > maxValue.value {
            maxValue := Some(value);
          }
          if value < minValue.value {
            minValue := Some(value);
          }
          i := i + 1;
        }
      } else {
        maxValue, minValue := None, None;
      }
    }

    /** What appending to a map of samples means: a new time, or a value replaced or summed. */
    static function Put(m: map<real, real>, t: real, v: real, sum: bool): map<real, real> {
      m[t := if sum && t in m then m[t] + v else v]
    }

    /** append: sorted insertion from the back. */
    method Append(time: real, v: real, sumRepeated: bool)
      requires Valid()
      modifies this
      ensures Valid()
      ensures AsMap(data) == Put(old(AsMap(data)), time, v, sumRepeated)
      // A repeated time has its value summed if asked for, and replaced otherwise; every other sample stays.
      ensures time in AsMap(data)
      ensures AsMap(data)[time] == if sumRepeated && time in old(AsMap(data)) then old(AsMap(data))[time] + v else v
      ensures forall t :: t != time ==> (t in AsMap(data) <==> t in old(AsMap(data)))
      ensures forall t :: t != time && t in AsMap(data) ==> AsMap(data)[t] == old(AsMap(data))[t]
      ensures var stored := AsMap(data)[time];
              && maxValue == Some(if old(maxValue).None? || stored > old(maxValue).value then stored else old(maxValue).value)
              && minValue == Some(if old(minValue).None? || stored < old(minValue).value then stored else old(minValue).value)
    {
      var value := v;
      var i := |data| - 1;
      while i >= 0 && data[i].time > time
        invariant -1 <= i < |data|
        invariant forall k :: i < k < |data| ==> data[k].time > time
      {
        i := i - 1;
      }
      value := Place(i, time, v, sumRepeated);
      maxValue := if maxValue.None? then Some(value) else Some(if maxValue.value > value then maxValue.value else value);
      minValue := if minValue.None? then Some(value) else Some(if minValue.value < value then minValue.value else value);
    }

    /** The four ways append stores a sample, `i` being the last position not after it. */
    method Place(i: int, time: real, v: real, sumRepeated: bool) returns (value: real)
      requires InOrder(data) && -1 <= i < |data|
      requires forall k :: i < k < |data| ==> data[k].time > time
      requires i >= 0 ==> data[i].time <= time
      modifies `data
      ensures InOrder(data) && AsMap(data) == Put(old(AsMap(data)), time, v, sumRepeated)
      ensures value == AsMap(data)[time]
      ensures forall k :: 0 <= k < |data| ==> data[k].value == value || data[k] in old(data)
    {
      hide AsMap, InOrder;
      value := v;
      if i == -1 {
        InsertKeepsOrder(data, 0, Sample(time, value));
        InsertExtends(data, 0, Sample(time, value));
        assert [Sample(time, value)] + data == Inserted(data, 0, Sample(time, value));
        data := [Sample(time, value)] + data;
      } else if |data| > 0 && data[i].time == time {
        if sumRepeated {
          value := data[i].value + v;
        }
        ReplaceUpdates(data, i, value);
        data := data[i := Sample(time, value)];
      } else if i < |data| - 1 {
        InsertKeepsOrder(data, i + 1, Sample(time, value));
        InsertExtends(data, i + 1, Sample(time, value));
        data := data[..i + 1] + [Sample(time, value)] + data[i + 1..];
      } else {
        InsertKeepsOrder(data, |data|, Sample(time, value));
        InsertExtends(data, |data|, Sample(time, value));
        assert data + [Sample(time, value)] == Inserted(data, |data|, Sample(time, value));
        data := data + [Sample(time, value)];
      }
    }

    /**
      dropOldData; `ok` is false where the code throws, reading past the end. With
      a limit of two or more, as the chart uses it, that does not happen.
    */
    method DropOldData(oldestValidTime: real, maxDataSetLength: int) returns (ok: bool)
      requires Valid()
      modifies this
      ensures Valid() && maxValue == old(maxValue) && minValue == old(minValue)
      ensures ok <==> maxDataSetLength > |old(data)| || maxDataSetLength >= 2
                      || exists i :: 1 <= i < |old(data)| && old(data)[i].time >= oldestValidTime
      ensures !ok ==> data == old(data)
      // Only a prefix goes, as long as the sample after it is out of date, and the length stays above the limit less one.
      ensures exists n :: 0 <= n <= |old(data)| && data == old(data)[n..]
                          && (n > 0 ==> n < |old(data)| && old(data)[n].time < oldestValidTime && |data| + 1 >= maxDataSetLength)
      ensures ok ==> |data| < maxDataSetLength || (|data| >= 2 && data[1].time >= oldestValidTime)
      ensures forall t :: t >= oldestValidTime ==> Curve(data, t) == old(Curve(data, t))
    {
      var removeCount := 0;
      while |data| - removeCount >= maxDataSetLength
        invariant 0 <= removeCount <= |data|
        invariant removeCount > 0 ==> removeCount < |data| && data[removeCount].time < oldestValidTime
                                      && |data| - removeCount + 1 >= maxDataSetLength
        invariant forall i :: 1 <= i <= removeCount < |data| ==> data[i].time < oldestValidTime
        decreases |data| - removeCount
      {
        if removeCount + 1 >= |data| {
          assert old(data)[0..] == data;
          return false;
        }
        if data[removeCount + 1].time >= oldestValidTime {
          break;
        }
        removeCount := removeCount + 1;
      }
      ok := true;
      if removeCount != 0 {
        forall t | t >= oldestValidTime
          ensures Curve(data[removeCount..], t) == Curve(data, t)
        {
          DropKeepsCurve(data, removeCount, t);
        }
        data := data[removeCount..];
      } else {
        assert old(data)[0..] == data;
      }
    }
  }
}
