/**
 * The vertical extent of the chart: `allVals`, every finite series value of
 * the prepared table, gathered row by row and within a row in series order,
 * and its least and greatest element, which the y scale spans.
 */
module Domain {
  import opened Wrappers
  import opened Rows

  /** The finite values of row `r` under `configs`, in that order. */
  function RowValues(r: Row, configs: seq<SeriesConfig>): (vs: seq<int>)
    ensures |vs| <= |configs|
  {
    if configs == [] then []
    else
      var f := Get(r, configs[|configs| - 1].key);
      RowValues(r, configs[..|configs| - 1]) + (if IsFiniteField(f) then [f.num.value] else [])
  }

  /** The finite values of a table: each row's under `Series`, rows in table order. */
  function FiniteValues(rows: seq<Row>): seq<int> {
    if rows == [] then [] else FiniteValues(rows[..|rows| - 1]) + RowValues(rows[|rows| - 1], Series)
  }

  /** The nested loop that fills `allVals`. */
  method CollectValues(raw: seq<Row>) returns (allVals: seq<int>)
    ensures allVals == FiniteValues(raw)
  {
    allVals := [];
    for i := 0 to |raw|
      invariant allVals == FiniteValues(raw[..i])
    {
      var r := raw[i];
      for k := 0 to |Series|
        invariant allVals == FiniteValues(raw[..i]) + RowValues(r, Series[..k])
      {
        var v := Get(r, Series[k].key);
        assert Series[..k + 1][..k] == Series[..k];
        if IsFiniteField(v) {
          allVals := allVals + [v.num.value];
        }
      }
      assert raw[..i + 1][..i] == raw[..i];
      assert Series[..|Series|] == Series;
    }
    assert raw[..|raw|] == raw;
  }

  // ---------------------------------------------------------------------------
  // What allVals holds

  /** How many of a row's series columns hold a finite number. */
  function FiniteCount(r: Row): nat {
    (if IsFiniteField(r.emigration) then 1 else 0)
    + (if IsFiniteField(r.immigration) then 1 else 0)
    + (if IsFiniteField(r.net) then 1 else 0)
  }

  /** How many cells of a table hold a finite number, counted from the first row. */
  function CountFinite(rows: seq<Row>): nat {
    if rows == [] then 0 else FiniteCount(rows[0]) + CountFinite(rows[1..])
  }

  lemma RowValuesOfSeries(r: Row)
    ensures |RowValues(r, Series)| == FiniteCount(r)
    ensures forall v :: v in RowValues(r, Series) <==> exists key :: Get(r, key) == Parsed(Some(v))
  {
    var e, m, n := Get(r, Emigration), Get(r, Immigration), Get(r, Net);
    var pe := if IsFiniteField(e) then [e.num.value] else [];
    var pm := if IsFiniteField(m) then [m.num.value] else [];
    var pn := if IsFiniteField(n) then [n.num.value] else [];
    assert Series[..1][..0] == [] && Series[..1][0].key == Emigration;
    assert RowValues(r, Series[..1]) == pe;
    assert Series[..2][..1] == Series[..1] && Series[..2][1].key == Immigration;
    assert RowValues(r, Series[..2]) == pe + pm;
    assert Series[..|Series| - 1] == Series[..2];
    assert RowValues(r, Series) == pe + pm + pn;
    forall v | exists key :: Get(r, key) == Parsed(Some(v)) ensures v in RowValues(r, Series) {
      var key :| Get(r, key) == Parsed(Some(v));
    }
  }

  lemma {:induction false} CountFiniteSnoc(rows: seq<Row>, r: Row)
    ensures CountFinite(rows + [r]) == CountFinite(rows) + FiniteCount(r)
  {
    if rows == [] {
      assert [] + [r] == [r] && [r][1..] == [];
    } else {
      assert (rows + [r])[0] == rows[0] && (rows + [r])[1..] == rows[1..] + [r];
      CountFiniteSnoc(rows[1..], r);
    }
  }

  /** `allVals` has one entry per cell that holds a finite number. */
  lemma {:induction false} FiniteValuesLength(rows: seq<Row>)
    ensures |FiniteValues(rows)| == CountFinite(rows)
  {
    if rows != [] {
      var n := |rows| - 1;
      FiniteValuesLength(rows[..n]);
      RowValuesOfSeries(rows[n]);
      CountFiniteSnoc(rows[..n], rows[n]);
      assert rows[..n] + [rows[n]] == rows;
    }
  }

  /** `allVals` holds exactly the numbers that stand in some series column of some row. */
  lemma {:induction false} FiniteValuesMembers(rows: seq<Row>, v: int)
    ensures v in FiniteValues(rows) <==>
      exists i, key :: 0 <= i < |rows| && Get(rows[i], key) == Parsed(Some(v))
  {
    if rows != [] {
      var n := |rows| - 1;
      FiniteValuesMembers(rows[..n], v);
      RowValuesOfSeries(rows[n]);
      if exists i, key :: 0 <= i < |rows| && Get(rows[i], key) == Parsed(Some(v)) {
        var i, key :| 0 <= i < |rows| && Get(rows[i], key) == Parsed(Some(v));
        if i < n {
          assert rows[..n][i] == rows[i];
        }
      }
      if v in FiniteValues(rows[..n]) {
        var i, key :| 0 <= i < n && Get(rows[..n][i], key) == Parsed(Some(v));
        assert rows[i] == rows[..n][i];
      }
    }
  }

  // ---------------------------------------------------------------------------
  // The extent

  /** `d3.extent(allVals)`: the least and the greatest value, or nothing for an empty list. */
  function Extent(vals: seq<int>): (r: Option<(int, int)>)
    ensures r.None? <==> vals == []
    ensures r.Some? ==> r.value.0 in vals && r.value.1 in vals
    ensures r.Some? ==> forall v :: v in vals ==> r.value.0 <= v <= r.value.1
  {
    if vals == [] then None
    else
      match Extent(vals[1..])
      case None => Some((vals[0], vals[0]))
      case Some((lo, hi)) =>
        assert vals == [vals[0]] + vals[1..];
        Some((if vals[0] < lo then vals[0] else lo, if vals[0] > hi then vals[0] else hi))
  }

  /**
   * The y domain spans every finite cell of the table, and both of its ends
   * are values that occur in it; it is empty exactly when no cell is finite.
   */
  lemma DomainCoversTable(rows: seq<Row>)
    ensures Extent(FiniteValues(rows)).None? <==>
      forall i, key :: 0 <= i < |rows| ==> !IsFiniteField(Get(rows[i], key))
    ensures Extent(FiniteValues(rows)).Some? ==>
      var (lo, hi) := Extent(FiniteValues(rows)).value;
      forall i, key :: 0 <= i < |rows| && IsFiniteField(Get(rows[i], key)) ==>
        lo <= Get(rows[i], key).num.value <= hi
    ensures Extent(FiniteValues(rows)).Some? ==>
      var (lo, hi) := Extent(FiniteValues(rows)).value;
      (exists i, key :: 0 <= i < |rows| && Get(rows[i], key) == Parsed(Some(lo)))
      && (exists i, key :: 0 <= i < |rows| && Get(rows[i], key) == Parsed(Some(hi)))
  {
    var vals := FiniteValues(rows);
    if vals != [] {
      var (lo, hi) := Extent(vals).value;
      FiniteValuesMembers(rows, lo);
      FiniteValuesMembers(rows, hi);
    }
    forall i, key | 0 <= i < |rows| && IsFiniteField(Get(rows[i], key))
      ensures Get(rows[i], key).num.value in vals
    {
      FiniteValuesMembers(rows, Get(rows[i], key).num.value);
    }
    if vals != [] {
      FiniteValuesMembers(rows, vals[0]);
    }
  }
}
