/**
 * The series lines and the tooltip's point locator: the prepared table
 * reshaped into one list of `{Year, value}` points per series, and
 * `nearestValid`, which finds the point with a finite value whose year lies
 * closest to the year under the pointer.
 */
module Lines {
  import opened Wrappers
  import opened JsNumbers
  import opened Rows
  import opened Domain

  /** One point of a series line: `{ Year, value }`. */
  datatype Point = Point(year: int, value: Field)

  /** A series as the chart binds it: its config spread out (`...s`) and its points. */
  datatype SeriesData = SeriesData(key: SeriesKey, color: string, values: seq<Point>)

  /** `raw.map(r => ({ Year: r.Year, value: r[key] }))`. */
  function Points(raw: seq<Row>, key: SeriesKey): (pts: seq<Point>)
    ensures |pts| == |raw|
    ensures forall i :: 0 <= i < |raw| ==> pts[i].year == raw[i].year && pts[i].value == Get(raw[i], key)
  {
    if raw == [] then [] else [Point(raw[0].year, Get(raw[0], key))] + Points(raw[1..], key)
  }

  /** `series.map(s => ({ ...s, values: ... }))`. */
  function Reshape(raw: seq<Row>): (groups: seq<SeriesData>)
    ensures |groups| == |Series|
    ensures forall j :: 0 <= j < |groups| ==>
      groups[j].key == Series[j].key && groups[j].color == Series[j].color && |groups[j].values| == |raw|
    ensures forall j, i :: 0 <= j < |groups| && 0 <= i < |raw| ==>
      groups[j].values[i].year == raw[i].year && groups[j].values[i].value == Get(raw[i], groups[j].key)
  {
    seq(|Series|, j requires 0 <= j < |Series| => SeriesData(Series[j].key, Series[j].color, Points(raw, Series[j].key)))
  }

  /**
   * The y domain and the lines agree: a number is in `allVals` exactly when
   * some series draws a point with that value.
   */
  lemma ValuesAreDrawnPoints(raw: seq<Row>, v: int)
    ensures v in FiniteValues(raw) <==>
      exists j, i :: 0 <= j < |Reshape(raw)| && 0 <= i < |raw| && Reshape(raw)[j].values[i].value == Parsed(Some(v))
  {
    var groups := Reshape(raw);
    FiniteValuesMembers(raw, v);
    if v in FiniteValues(raw) {
      var i, key :| 0 <= i < |raw| && Get(raw[i], key) == Parsed(Some(v));
      var j := match key case Emigration => 0 case Immigration => 1 case Net => 2;
      assert groups[j].values[i].value == Parsed(Some(v));
    }
  }

  // ---------------------------------------------------------------------------
  // nearestValid

  /** `Math.abs(p.Year - targetYear)`: how far the point's year lies from the target, in either direction. */
  function Distance(p: Point, target: int): (d: nat)
    ensures p.year == target + d || p.year == target - d
    ensures d == 0 <==> p.year == target
  {
    if p.year >= target then p.year - target else target - p.year
  }

  /**
   * Index `i` holds a finite value whose year is nearest to `target` among the
   * points with finite values, and no earlier such point is as near.
   */
  ghost predicate IsFirstNearest(values: seq<Point>, target: int, i: int) {
    && 0 <= i < |values|
    && IsFiniteField(values[i].value)
    && (forall j :: 0 <= j < |values| && IsFiniteField(values[j].value) ==>
          Distance(values[i], target) <= Distance(values[j], target))
    && (forall j :: 0 <= j < i && IsFiniteField(values[j].value) ==>
          Distance(values[i], target) < Distance(values[j], target))
  }

  /**
   * `nearestValid(values, targetYear)`: the index of the first point with a
   * finite value at the least distance from the target year, or -1 when no
   * point has a finite value.
   */
  method NearestValid(values: seq<Point>, target: int) returns (best: int)
    ensures best == -1 <==> forall j :: 0 <= j < |values| ==> !IsFiniteField(values[j].value)
    ensures best != -1 ==> IsFirstNearest(values, target, best)
  {
    best := -1;
    var bestDist := PositiveInfinity;
    for i := 0 to |values|
      invariant best == -1 <==> forall j :: 0 <= j < i ==> !IsFiniteField(values[j].value)
      invariant best == -1 ==> bestDist == PositiveInfinity
      invariant best != -1 ==> 0 <= best < i && IsFiniteField(values[best].value)
      invariant best != -1 ==> bestDist == Finite(Distance(values[best], target))
      invariant best != -1 ==> forall j :: 0 <= j < i && IsFiniteField(values[j].value) ==>
        Distance(values[best], target) <= Distance(values[j], target)
      invariant best != -1 ==> forall j :: 0 <= j < best && IsFiniteField(values[j].value) ==>
        Distance(values[best], target) < Distance(values[j], target)
    {
      var v := values[i];
      if !IsFiniteField(v.value) {
        continue;
      }
      var dist := Finite(Distance(v, target));
      if LessThan(dist, bestDist) {
        bestDist := dist;
        best := i;
      }
    }
  }

  /** The contract of `NearestValid` leaves no choice: at most one index meets it. */
  lemma FirstNearestIsUnique(values: seq<Point>, target: int, i: int, k: int)
    requires IsFirstNearest(values, target, i) && IsFirstNearest(values, target, k)
    ensures i == k
  {
  }
}
