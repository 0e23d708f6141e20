/**
 * The telemetry plot's data preparation: the first 1239 rows of the statistics table, a
 * ten-row moving average of the successful operations, the pointwise sum of the failures, and
 * the time steps at which each kind of event happened. Drawing is not modelled; only which
 * vertical line carries a legend label is.
 */
module Plotting {
  import opened Wrappers

  const RowLimit: int := 1239
  const Window: int := 10

  /** One row of the statistics table; `event` is empty when no event happened in the period. */
  datatype Row = Row(timeStep: int, totalSucc: int, getFailCount: int, putFailCount: int,
                     deleteFailCount: int, event: string)

  /** The series one plot is drawn from. */
  datatype PlotData = PlotData(
    timeSteps: seq<int>, movingAverage: seq<Option<real>>, failures: seq<int>,
    serverStarts: seq<int>, serverStops: seq<int>, clientStarts: seq<int>)

  /** `head(1239)`: the first 1239 rows, or all of them when there are fewer. */
  function Truncate(rows: seq<Row>): (r: seq<Row>)
    ensures |r| == if |rows| < RowLimit then |rows| else RowLimit
    ensures r == rows[..|r|]
  {
    if |rows| <= RowLimit then rows else rows[..RowLimit]
  }

  /** The sum of a sequence of integers. */
  function Sum(xs: seq<int>): int {
    if |xs| == 0 then 0 else Sum(xs[..|xs| - 1]) + xs[|xs| - 1]
  }

  /** The reference definition of `rolling(window=10).mean()` at row i: undefined before the tenth row. */
  function MeanAt(xs: seq<int>, i: int): Option<real>
    requires 0 <= i < |xs|
  {
    if i < Window - 1 then None else Some(Sum(xs[i - Window + 1..i + 1]) as real / Window as real)
  }

  /** Dropping the first element of a sum. */
  lemma {:induction false} SumDropFirst(xs: seq<int>)
    requires |xs| > 0
    ensures Sum(xs) == xs[0] + Sum(xs[1..])
    decreases |xs|
  {
    if |xs| > 1 {
      SumDropFirst(xs[..|xs| - 1]);
      assert xs[..|xs| - 1][1..] == xs[1..][..|xs| - 2];
      assert xs[..|xs| - 1][0] == xs[0];
    } else {
      assert xs[1..] == [];
    }
  }

  /**
   * The moving average, computed with a running sum over the last ten values: the window's sum
   * gains the new value and, once it is full, loses the one that left it.
   */
  method MovingAverage(xs: seq<int>) returns (r: seq<Option<real>>)
    ensures |r| == |xs|
    ensures forall i :: 0 <= i < |xs| ==> r[i] == MeanAt(xs, i)
  {
    r := [];
    var sum := 0;
    var i := 0;
    while i < |xs|
      invariant 0 <= i <= |xs| && |r| == i
      invariant forall k :: 0 <= k < i ==> r[k] == MeanAt(xs, k)
      invariant sum == Sum(xs[WindowStart(i)..i])
    {
      WindowStep(xs, i, sum);
      sum := sum + xs[i];
      if i >= Window - 1 {
        r := r + [Some(sum as real / Window as real)];
        sum := sum - xs[i - Window + 1];
      } else {
        r := r + [None];
      }
      i := i + 1;
    }
  }

  /** Where the running sum's window starts before row i is added: the last nine rows before it. */
  function WindowStart(i: int): (lo: int)
    requires 0 <= i
    ensures 0 <= lo <= i && (i >= Window ==> i - lo == Window - 1)
  {
    if i < Window then 0 else i - Window + 1
  }

  /** One step of the running sum: adding row i gives the mean at i, and dropping the oldest row gives the next window. */
  lemma WindowStep(xs: seq<int>, i: nat, sum: int)
    requires i < |xs| && sum == Sum(xs[WindowStart(i)..i])
    ensures i < Window - 1 ==> MeanAt(xs, i) == None && sum + xs[i] == Sum(xs[WindowStart(i + 1)..i + 1])
    ensures i >= Window - 1 ==> MeanAt(xs, i) == Some((sum + xs[i]) as real / Window as real)
                                && sum + xs[i] - xs[i - Window + 1] == Sum(xs[WindowStart(i + 1)..i + 1])
  {
    var lo := WindowStart(i);
    assert xs[lo..i + 1][..i - lo] == xs[lo..i];
    assert sum + xs[i] == Sum(xs[lo..i + 1]);
    if i >= Window - 1 {
      assert lo == i - Window + 1;
      SumDropFirst(xs[lo..i + 1]);
      assert xs[lo..i + 1][1..] == xs[lo + 1..i + 1];
    }
  }

  /** The failures per row: failed gets, puts and deletes added up. */
  function Failures(rows: seq<Row>): (r: seq<int>)
    ensures |r| == |rows|
    ensures forall i :: 0 <= i < |rows| ==> r[i] == rows[i].getFailCount + rows[i].putFailCount + rows[i].deleteFailCount
  {
    seq(|rows|, i requires 0 <= i < |rows| => rows[i].getFailCount + rows[i].putFailCount + rows[i].deleteFailCount)
  }

  /** The time steps of the rows whose event is exactly `name`, in row order. */
  function Markers(rows: seq<Row>, name: string): (r: seq<int>)
    ensures |r| <= |rows|
  {
    if |rows| == 0 then []
    else Markers(rows[..|rows| - 1], name)
         + (if rows[|rows| - 1].event == name then [rows[|rows| - 1].timeStep] else [])
  }

  /** `plot_v_line`: one vertical line per time step; only the first carries the legend label. */
  function VLines(steps: seq<int>, name: string): (r: seq<(int, Option<string>)>)
    ensures |r| == |steps|
    ensures forall i :: 0 <= i < |r| ==> r[i].0 == steps[i] && (r[i].1.Some? <==> i == 0)
    ensures |r| > 0 ==> r[0].1 == Some(name)
  {
    seq(|steps|, i requires 0 <= i < |steps| => (steps[i], if i == 0 then Some(name) else None))
  }

  /** The whole preparation: everything is drawn from the truncated table. */
  method Prepare(rows: seq<Row>) returns (p: PlotData)
    ensures var t := Truncate(rows);
            && |p.timeSteps| == |p.movingAverage| == |p.failures| == |t|
            && (forall i :: 0 <= i < |t| ==> p.timeSteps[i] == t[i].timeStep)
            && (forall i :: 0 <= i < |t| ==> p.movingAverage[i] == MeanAt(Totals(t), i))
            && p.failures == Failures(t)
            && p.serverStarts == Markers(t, "START_SERVER") && p.serverStops == Markers(t, "STOP_SERVER")
            && p.clientStarts == Markers(t, "START_CLIENT")
  {
    var t := Truncate(rows);
    var ma := MovingAverage(Totals(t));
    p := PlotData(seq(|t|, i requires 0 <= i < |t| => t[i].timeStep), ma, Failures(t),
                  Markers(t, "START_SERVER"), Markers(t, "STOP_SERVER"), Markers(t, "START_CLIENT"));
  }

  /** The `totalSucc` column. */
  function Totals(rows: seq<Row>): (r: seq<int>)
    ensures |r| == |rows| && forall i :: 0 <= i < |rows| ==> r[i] == rows[i].totalSucc
  {
    seq(|rows|, i requires 0 <= i < |rows| => rows[i].totalSucc)
  }

  /* ---------------- properties of the markers ---------------- */

  /** Markers of consecutive parts of a table are the parts' markers one after the other. */
  lemma {:induction false} MarkersAppend(a: seq<Row>, b: seq<Row>, name: string)
    ensures Markers(a + b, name) == Markers(a, name) + Markers(b, name)
    decreases |b|
  {
    if |b| == 0 {
      assert a + b == a;
    } else {
      var b' := b[..|b| - 1];
      assert (a + b)[..|a + b| - 1] == a + b';
      MarkersAppend(a, b', name);
    }
  }

  /** A time step is a marker exactly when some row with that time step has the event `name`. */
  lemma {:induction false} MarkersExactly(rows: seq<Row>, name: string, t: int)
    ensures t in Markers(rows, name) <==> exists i :: 0 <= i < |rows| && rows[i].event == name && rows[i].timeStep == t
    decreases |rows|
  {
    if |rows| > 0 {
      var init := rows[..|rows| - 1];
      MarkersExactly(init, name, t);
      if exists i :: 0 <= i < |init| && init[i].event == name && init[i].timeStep == t {
        var i :| 0 <= i < |init| && init[i].event == name && init[i].timeStep == t;
        assert rows[i] == init[i];
      }
      if exists i :: 0 <= i < |rows| && rows[i].event == name && rows[i].timeStep == t {
        var i :| 0 <= i < |rows| && rows[i].event == name && rows[i].timeStep == t;
        if i < |rows| - 1 {
          assert init[i] == rows[i];
        }
      }
    }
  }

  /** There are as many markers as rows whose event is `name`. */
  lemma {:induction false} MarkersCount(rows: seq<Row>, name: string)
    ensures |Markers(rows, name)| == |EventRows(rows, name)|
    decreases |rows|
  {
    if |rows| > 0 {
      var n := |rows| - 1;
      MarkersCount(rows[..n], name);
      EventRowsSnoc(rows, name);
      AddFreshIndex(EventRows(rows[..n], name), n, rows[n].event == name);
    }
  }

  /** The positions of the rows whose event is `name`. */
  ghost function EventRows(rows: seq<Row>, name: string): set<int> {
    set i | 0 <= i < |rows| && rows[i].event == name
  }

  /** The event positions of a table are those of all rows but the last, plus the last when it matches. */
  lemma EventRowsSnoc(rows: seq<Row>, name: string)
    requires |rows| > 0
    ensures var n := |rows| - 1;
            EventRows(rows, name) == EventRows(rows[..n], name) + (if rows[n].event == name then {n} else {})
            && n !in EventRows(rows[..n], name)
  {
    var n := |rows| - 1;
    var last := if rows[n].event == name then {n} else {};
    forall i ensures i in EventRows(rows, name) <==> i in EventRows(rows[..n], name) + last {
      if 0 <= i < n {
        assert rows[..n][i] == rows[i];
      }
    }
  }

  /** Adding an index a set does not hold yet grows it by one. */
  lemma AddFreshIndex(s: set<int>, n: int, add: bool)
    requires n !in s
    ensures |s + (if add then {n} else {})| == |s| + (if add then 1 else 0)
  {
    if !add {
      assert s + {} == s;
    }
  }
}
