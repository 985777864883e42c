/**
 * The chart view of frontend/app/src/components/App.jsx: the axis label
 * formatter, the chart series built from the channels, and the button that
 * appends a data point to every channel.
 */
module AppView {
  import opened Text
  import opened AppSlice
  import opened Bits

  // ---------------------------------------------------------------------
  // formatIntToSeconds
  // ---------------------------------------------------------------------

  /** The quotient of a by a positive b rounded toward zero. */
  function TruncDiv(a: int, b: int): int
    requires b > 0
  {
    if a >= 0 then a / b else -((-a) / b)
  }

  /**
   * JavaScript's `a % b` for a positive b: the remainder of the division
   * rounded toward zero, so it takes the sign of a.
   */
  function JsRem(a: int, b: int): (r: int)
    requires b > 0
    ensures a == b * TruncDiv(a, b) + r
    ensures a >= 0 ==> 0 <= r < b
    ensures a < 0 ==> -b < r <= 0
  {
    var r := if a >= 0 then a % b else -((-a) % b);
    assert a == b * TruncDiv(a, b) + r by {
      if a < 0 {
        var q := (-a) / b;
        assert -a == b * q + (-a) % b;
        assert b * TruncDiv(a, b) == -(b * q);
      }
    }
    r
  }

  /** How a number is concatenated into a string: its decimal digits, with '-' when negative. */
  function Show(n: int): string
  {
    IntToString(n)
  }

  /** The text ends with the seconds unit " s". */
  predicate EndsWithSeconds(t: string)
  {
    |t| >= 2 && t[|t| - 2..] == " s"
  }

  /** Putting a unit in front keeps the seconds last. */
  lemma PrefixKeepsSeconds(p: string, t: string)
    requires EndsWithSeconds(t)
    ensures EndsWithSeconds(p + t)
  {
    assert (p + t)[|p + t| - 2..] == t[|t| - 2..];
  }

  /**
   * formatIntToSeconds: the seconds modulo 60 with " s"; then, while the
   * quotient (rounded down) is positive, the minutes modulo 60, the hours
   * modulo 24 and the days are put in front in turn.
   */
  function FormatIntToSeconds(n: int): (r: string)
    ensures EndsWithSeconds(r)
  {
    var sec := Show(JsRem(n, 60)) + " s";
    PrefixKeepsSeconds(Show(JsRem(n, 60)), " s");
    var minutes := n / 60;
    if minutes > 0 then
      var min := Show(minutes % 60) + " m " + sec;
      PrefixKeepsSeconds(Show(minutes % 60) + " m ", sec);
      var hours := minutes / 60;
      if hours > 0 then
        var hr := Show(hours % 24) + " h " + min;
        PrefixKeepsSeconds(Show(hours % 24) + " h ", min);
        var days := hours / 24;
        if days > 0 then
          PrefixKeepsSeconds(Show(days) + " d ", hr);
          Show(days) + " d " + hr
        else hr
      else min
    else sec
  }

  /** The units of a non-negative number of seconds: days, hours below 24, minutes and seconds below 60. */
  datatype Units = Units(days: nat, hours: nat, minutes: nat, seconds: nat)

  /** Splitting n seconds into whole days, hours, minutes and seconds. */
  function UnitsOf(n: nat): (u: Units)
    ensures u.hours < 24 && u.minutes < 60 && u.seconds < 60
  {
    Units(n / 86400, n % 86400 / 3600, n % 3600 / 60, n % 60)
  }

  /** The units add back up to the count, each within its range. */
  lemma UnitsRecompose(n: nat)
    ensures var u := UnitsOf(n);
            u.hours < 24 && u.minutes < 60 && u.seconds < 60
            && u.days * 86400 + u.hours * 3600 + u.minutes * 60 + u.seconds == n
  {
    var u := UnitsOf(n);
    NestedDiv(n, 60, 60);
    NestedDiv(n, 3600, 24);
    assert n % 3600 == 60 * u.minutes + u.seconds by {
      DivModUnique(n, 60, n / 60, n % 60);
    }
    assert n == 86400 * u.days + 3600 * u.hours + n % 3600;
  }

  /**
   * The label of the units: the largest non-zero unit above seconds and every
   * unit below it, each as a number and its letter, zeros included.
   */
  function Label(u: Units): string
  {
    var s := Decimal(u.seconds) + " s";
    var m := Decimal(u.minutes) + " m " + s;
    var h := Decimal(u.hours) + " h " + m;
    if u.days > 0 then Decimal(u.days) + " d " + h
    else if u.hours > 0 then h
    else if u.minutes > 0 then m
    else s
  }

  /** Dividing by a and then by b is dividing by a * b; the remainder on the way is that of n by a * b, divided by a. */
  lemma NestedDiv(n: nat, a: nat, b: nat)
    requires a > 0 && b > 0
    ensures n / a / b == n / (a * b) && n / a % b == n % (a * b) / a
  {
    var q, r := n / a, n % a;
    var q1, r1 := q / b, q % b;
    assert q == b * q1 + r1;
    assert a * q == (a * b) * q1 + a * r1 by {
      assert a * (b * q1 + r1) == a * (b * q1) + a * r1;
    }
    MulGap(a, b, r1);
    DivModUnique(n, a * b, q1, a * r1 + r);
    DivModUnique(a * r1 + r, a, r1, r);
  }

  /** The quotients the formatter takes in turn are those of n by 60, 3600 and 86400. */
  lemma NestedQuotients(n: nat)
    ensures n / 60 / 60 == n / 3600 && n / 3600 / 24 == n / 86400
    ensures n / 60 % 60 == n % 3600 / 60 && n / 3600 % 24 == n % 86400 / 3600
  {
    NestedDiv(n, 60, 60);
    NestedDiv(n, 3600, 24);
  }

  /**
   * For a non-negative count the formatter prints exactly the units of
   * UnitsOf, from the largest non-zero one down; a negative count prints
   * only its JavaScript remainder and " s".
   */
  lemma FormatIsLabel(n: int)
    ensures n >= 0 ==> FormatIntToSeconds(n) == Label(UnitsOf(n))
    ensures n < 0 ==> FormatIntToSeconds(n) == Show(JsRem(n, 60)) + " s"
  {
    if n >= 0 {
      NestedQuotients(n);
    } else {
      assert n / 60 < 0;
    }
  }

  /** Below a minute the label is "n s". */
  lemma FormatSeconds(n: int)
    requires 0 <= n < 60
    ensures FormatIntToSeconds(n) == Decimal(n) + " s"
  {
  }

  /** Once hours appear the lower units are printed even when zero: 3600 is "1 h 0 m 0 s". */
  lemma FormatOneHour()
    ensures FormatIntToSeconds(3600) == "1 h 0 m 0 s"
  {
    FormatIsLabel(3600);
    assert UnitsOf(3600) == Units(0, 1, 0, 0);
    HourLabel();
  }

  /** One hour and nothing else labels as "1 h 0 m 0 s". */
  lemma HourLabel()
    ensures Label(Units(0, 1, 0, 0)) == "1 h 0 m 0 s"
  {
    assert Decimal(1) == "1" && Decimal(0) == "0";
  }

  // ---------------------------------------------------------------------
  // The chart series
  // ---------------------------------------------------------------------

  /** A chart point `{ y: point }`. */
  datatype Point = Point(y: int)

  /** One entry of the chart's data: a spline with its legend entry, named and coloured as the channel. */
  datatype Series = Series(kind: string, name: string, showInLegend: bool, color: string,
                           yValueFormat: string, dataPoints: seq<Point>)

  /** `dataPoints.map((point) => ({ y: point }))`. */
  function PointsOf(values: seq<int>): (r: seq<Point>)
    ensures |r| == |values|
    ensures forall k :: 0 <= k < |values| ==> r[k].y == values[k]
  {
    if values == [] then [] else PointsOf(values[..|values| - 1]) + [Point(values[|values| - 1])]
  }

  /** The series drawn for one channel. */
  function SeriesOfChannel(c: Channel): Series
  {
    Series("spline", c.name, true, c.color, "#,###°C", PointsOf(c.dataPoints))
  }

  /** `Object.entries(channels).map(...)`: one series per channel, in entry order. */
  function SeriesOf(channels: seq<Entry>): (r: seq<Series>)
    ensures |r| == |channels|
    ensures forall i :: 0 <= i < |channels| ==> r[i] == SeriesOfChannel(channels[i].channel)
  {
    if channels == [] then []
    else SeriesOf(channels[..|channels| - 1]) + [SeriesOfChannel(channels[|channels| - 1].channel)]
  }

  // ---------------------------------------------------------------------
  // addDataPoint
  // ---------------------------------------------------------------------

  /** The channel with one more reading at the end. */
  function Appended(e: Entry, point: int): Entry
  {
    e.(channel := e.channel.(dataPoints := e.channel.dataPoints + [point]))
  }

  /** The channels after addDataPoint's forEach: channel j gains the reading newDataPoint + j. */
  function WithNewPoint(channels: seq<Entry>, newDataPoint: int): (r: seq<Entry>)
    ensures |r| == |channels|
  {
    if channels == [] then []
    else
      var n := |channels| - 1;
      WithNewPoint(channels[..n], newDataPoint) + [Appended(channels[n], newDataPoint + n)]
  }

  /** Every channel keeps its key, name, colour and readings and gains exactly one reading, newDataPoint + j. */
  lemma {:induction false} WithNewPointEntries(channels: seq<Entry>, newDataPoint: int)
    ensures forall j :: 0 <= j < |channels| ==> WithNewPoint(channels, newDataPoint)[j] == Appended(channels[j], newDataPoint + j)
  {
    if channels != [] {
      var n := |channels| - 1;
      WithNewPointEntries(channels[..n], newDataPoint);
    }
  }

  /**
   * addDataPoint: on a deep copy of the channels, each entry j in order gets
   * newDataPoint + j appended to its readings; the copy is then dispatched
   * with setChannels. The random draw Math.floor(Math.random() * 100) is the
   * parameter newDataPoint.
   */
  method AddDataPoint(state: State, newDataPoint: int) returns (next: State)
    ensures next == Reduce(state, SetChannels(WithNewPoint(state.channels, newDataPoint)))
  {
    var newChannels := new Entry[|state.channels|](i requires 0 <= i < |state.channels| => state.channels[i]);
    WithNewPointEntries(state.channels, newDataPoint);
    for j := 0 to newChannels.Length
      invariant forall k :: 0 <= k < j ==> newChannels[k] == Appended(state.channels[k], newDataPoint + k)
      invariant forall k :: j <= k < newChannels.Length ==> newChannels[k] == state.channels[k]
    {
      var channel := newChannels[j];
      newChannels[j] := channel.(channel := channel.channel.(dataPoints := channel.channel.dataPoints + [newDataPoint + j]));
    }
    assert newChannels[..] == WithNewPoint(state.channels, newDataPoint);
    next := Reduce(state, SetChannels(newChannels[..]));
  }

  /**
   * After addDataPoint the chart has the same series, each with one more
   * point: series j ends with newDataPoint + j after its old points.
   */
  lemma {:induction false} SeriesAfterNewPoint(channels: seq<Entry>, newDataPoint: int)
    ensures var before, after := SeriesOf(channels), SeriesOf(WithNewPoint(channels, newDataPoint));
            |after| == |before|
            && forall j :: 0 <= j < |before| ==>
                 after[j].name == before[j].name && after[j].color == before[j].color
                 && |after[j].dataPoints| == |before[j].dataPoints| + 1
                 && after[j].dataPoints[..|before[j].dataPoints|] == before[j].dataPoints
                 && after[j].dataPoints[|before[j].dataPoints|].y == newDataPoint + j
  {
    var before, after := SeriesOf(channels), SeriesOf(WithNewPoint(channels, newDataPoint));
    forall j | 0 <= j < |before|
      ensures after[j].name == before[j].name && after[j].color == before[j].color
              && |after[j].dataPoints| == |before[j].dataPoints| + 1
              && after[j].dataPoints[..|before[j].dataPoints|] == before[j].dataPoints
              && after[j].dataPoints[|before[j].dataPoints|].y == newDataPoint + j
    {
      SeriesGainsPointAt(channels, newDataPoint, j);
    }
  }

  /** Series j after addDataPoint is series j before with newDataPoint + j appended. */
  lemma SeriesGainsPointAt(channels: seq<Entry>, newDataPoint: int, j: nat)
    requires j < |channels|
    ensures var b, a := SeriesOf(channels)[j], SeriesOf(WithNewPoint(channels, newDataPoint))[j];
            a.name == b.name && a.color == b.color
            && |a.dataPoints| == |b.dataPoints| + 1
            && a.dataPoints[..|b.dataPoints|] == b.dataPoints
            && a.dataPoints[|b.dataPoints|].y == newDataPoint + j
  {
    var c, v, after := channels[j].channel, newDataPoint + j, WithNewPoint(channels, newDataPoint);
    WithNewPointAt(channels, newDataPoint, j);
    assert after[j].channel == c.(dataPoints := c.dataPoints + [v]);
    ChannelSeriesGainsPoint(c, v);
    var b := SeriesOfChannel(c);
    assert SeriesOf(channels)[j] == b;
    assert SeriesOf(after)[j] == b.(dataPoints := b.dataPoints + [Point(v)]);
    assert (b.dataPoints + [Point(v)])[..|b.dataPoints|] == b.dataPoints;
  }

  /** A channel with one more reading draws the same series with one more point. */
  lemma ChannelSeriesGainsPoint(c: Channel, v: int)
    ensures var b := SeriesOfChannel(c);
            SeriesOfChannel(c.(dataPoints := c.dataPoints + [v])) == b.(dataPoints := b.dataPoints + [Point(v)])
  {
    PointsOfSnoc(c.dataPoints, v);
  }

  /** Entry j after the forEach is entry j with newDataPoint + j appended. */
  lemma {:induction false} WithNewPointAt(channels: seq<Entry>, newDataPoint: int, j: nat)
    requires j < |channels|
    ensures WithNewPoint(channels, newDataPoint)[j] == Appended(channels[j], newDataPoint + j)
    decreases |channels|
  {
    var n := |channels| - 1;
    if j < n {
      WithNewPointAt(channels[..n], newDataPoint, j);
    }
  }

  /** One more reading is one more point at the end. */
  lemma {:induction false} PointsOfSnoc(values: seq<int>, v: int)
    ensures PointsOf(values + [v]) == PointsOf(values) + [Point(v)]
  {
    assert (values + [v])[..|values|] == values;
  }

}
