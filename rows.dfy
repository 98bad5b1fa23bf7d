/**
 * The totals table and the preparation the chart applies to it right after
 * loading: each row's three series columns are parsed in place with `toNum`,
 * then the rows are put in chronological order in place by a stable sort on
 * the year.
 */
module Rows {
  import opened Wrappers
  import opened Cells

  /** A series column of a row: the loader's raw cell, or the number-or-null `toNum` stored there. */
  datatype Field = Raw(cell: Cell) | Parsed(num: Option<int>)

  /** One row of the totals table: a year and the three series columns. */
  datatype Row = Row(year: int, emigration: Field, immigration: Field, net: Field)

  /** The keys of the three series; each names the column it plots. */
  datatype SeriesKey = Emigration | Immigration | Net

  /** A plotted series: its key and its line colour. */
  datatype SeriesConfig = SeriesConfig(key: SeriesKey, color: string)

  /** The chart's series, in drawing order. */
  const Series: seq<SeriesConfig> := [
    SeriesConfig(Emigration, "#d62728"),
    SeriesConfig(Immigration, "#2ca02c"),
    SeriesConfig(Net, "#7f7f7f")
  ]

  /** `r[key]`: the column a series key names. */
  function Get(r: Row, key: SeriesKey): (f: Field)
    ensures key == Emigration ==> f == r.emigration
    ensures key == Immigration ==> f == r.immigration
    ensures key == Net ==> f == r.net
  {
    match key
    case Emigration => r.emigration
    case Immigration => r.immigration
    case Net => r.net
  }

  /** Each key reads its own column: the year and the three keyed columns make up the whole row. */
  lemma RowIsItsColumns(r: Row)
    ensures r == Row(r.year, Get(r, Emigration), Get(r, Immigration), Get(r, Net))
    ensures forall k, f :: Get(r.(emigration := f), k) == if k == Emigration then f else Get(r, k)
    ensures forall k, f :: Get(r.(immigration := f), k) == if k == Immigration then f else Get(r, k)
    ensures forall k, f :: Get(r.(net := f), k) == if k == Net then f else Get(r, k)
  {
  }

  /**
   * `Number.isFinite(v)` on a column: true of a stored number, false of `null`
   * and of an unparsed string, which `Number.isFinite` does not convert.
   */
  predicate IsFiniteField(f: Field)
    ensures f.Raw? ==> !IsFiniteField(f)
    ensures f == Parsed(None) ==> !IsFiniteField(f)
    ensures f.Parsed? && f.num.Some? ==> IsFiniteField(f)
  {
    f.Parsed? && f.num.Some?
  }

  /** The series in drawing order, one per key: Emigration red, Immigration green, Net grey. */
  lemma SeriesKeysInOrder()
    ensures |Series| == 3
    ensures Series[0] == SeriesConfig(Emigration, "#d62728")
    ensures Series[1] == SeriesConfig(Immigration, "#2ca02c")
    ensures Series[2] == SeriesConfig(Net, "#7f7f7f")
  {
  }

  /** A row as the loader produces it: every series column still raw, over the modelled alphabet. */
  predicate IsRawRow(r: Row) {
    forall key :: Get(r, key).Raw? && Modelled(Get(r, key).cell)
  }

  predicate IsParsedRow(r: Row) {
    forall key :: Get(r, key).Parsed?
  }

  /** The body of the `forEach` callback: the three series columns through `toNum`, the year kept. */
  function ParseRow(r: Row): (p: Row)
    requires IsRawRow(r)
    ensures p.year == r.year && IsParsedRow(p)
    ensures forall key :: Get(p, key) == Parsed(ToNum(Get(r, key).cell))
  {
    assert r.emigration == Get(r, Emigration) && r.immigration == Get(r, Immigration) && r.net == Get(r, Net);
    r.(emigration := Parsed(ToNum(r.emigration.cell)),
       immigration := Parsed(ToNum(r.immigration.cell)),
       net := Parsed(ToNum(r.net.cell)))
  }

  /** After parsing, a column counts as finite exactly when `toNum` returned a number for its cell. */
  lemma ParsedCellIsFinite(c: Cell)
    requires Modelled(c)
    ensures IsFiniteField(Parsed(ToNum(c))) <==> ToNum(c).Some?
    ensures c.Missing? || (c.Text? && IsBlank(c.s)) ==> !IsFiniteField(Parsed(ToNum(c)))
  {
  }

  function ParseAll(s: seq<Row>): (r: seq<Row>)
    requires forall i :: 0 <= i < |s| ==> IsRawRow(s[i])
    ensures |r| == |s| && forall i :: 0 <= i < |s| ==> r[i] == ParseRow(s[i])
  {
    seq(|s|, i requires 0 <= i < |s| => ParseRow(s[i]))
  }

  /** The `forEach` over the table: every row's series columns parsed in place. */
  method ParseRows(a: array<Row>)
    requires forall i :: 0 <= i < a.Length ==> IsRawRow(a[i])
    modifies a
    ensures a[..] == ParseAll(old(a[..]))
  {
    for i := 0 to a.Length
      invariant forall k :: 0 <= k < i ==> a[k] == ParseRow(old(a[k]))
      invariant forall k :: i <= k < a.Length ==> a[k] == old(a[k])
    {
      a[i] := ParseRow(a[i]);
    }
  }

  // ---------------------------------------------------------------------------
  // Chronological order

  ghost predicate SortedByYear(s: seq<Row>) {
    forall i, j :: 0 <= i < j < |s| ==> s[i].year <= s[j].year
  }

  /** The rows of year `y`, in the order they stand in `s`. */
  function OfYear(s: seq<Row>, y: int): (r: seq<Row>)
    ensures |r| <= |s|
  {
    if s == [] then [] else (if s[0].year == y then [s[0]] else []) + OfYear(s[1..], y)
  }

  /**
   * What a stable sort keyed on the year keeps: for every year, the rows of
   * that year stand in the same relative order.
   */
  ghost predicate SameOrderPerYear(s: seq<Row>, t: seq<Row>) {
    forall y :: OfYear(s, y) == OfYear(t, y)
  }

  lemma {:induction false} OfYearAppend(s: seq<Row>, t: seq<Row>, y: int)
    ensures OfYear(s + t, y) == OfYear(s, y) + OfYear(t, y)
  {
    if s == [] {
      assert s + t == t;
    } else {
      var head := if s[0].year == y then [s[0]] else [];
      calc {
        OfYear(s + t, y);
        { assert (s + t)[0] == s[0] && (s + t)[1..] == s[1..] + t; }
        head + OfYear(s[1..] + t, y);
        { OfYearAppend(s[1..], t, y); }
        head + (OfYear(s[1..], y) + OfYear(t, y));
      }
    }
  }

  /** Of two rows of different years, at most one is of year `y`, so their order does not show. */
  lemma PairOfYear(x: Row, z: Row, y: int)
    requires x.year != z.year
    ensures OfYear([x, z], y) == OfYear([z, x], y)
  {
    assert [x, z][1..] == [z] && [z, x][1..] == [x];
    assert [x][1..] == [] && [z][1..] == [];
  }

  /** `s` with the neighbours at `j - 1` and `j` exchanged. */
  function SwapAdjacent(s: seq<Row>, j: int): (r: seq<Row>)
    requires 0 < j < |s|
  {
    s[j - 1 := s[j]][j := s[j - 1]]
  }

  /** Exchanging two neighbours of different years is a permutation that a stable sort may make. */
  lemma SwapAdjacentKeeps(s: seq<Row>, j: int)
    requires 0 < j < |s| && s[j - 1].year != s[j].year
    ensures multiset(SwapAdjacent(s, j)) == multiset(s)
    ensures SameOrderPerYear(SwapAdjacent(s, j), s)
  {
    var t := SwapAdjacent(s, j);
    var front, back := s[..j - 1], s[j + 1..];
    assert s == front + [s[j - 1], s[j]] + back;
    assert t == front + [s[j], s[j - 1]] + back;
    forall y ensures OfYear(t, y) == OfYear(s, y) {
      PairOfYear(s[j - 1], s[j], y);
      OfYearAppend(front + [s[j - 1], s[j]], back, y);
      OfYearAppend(front, [s[j - 1], s[j]], y);
      OfYearAppend(front + [s[j], s[j - 1]], back, y);
      OfYearAppend(front, [s[j], s[j - 1]], y);
    }
  }

  lemma {:induction false} OfYearMember(s: seq<Row>, y: int)
    requires OfYear(s, y) != []
    ensures exists i :: 0 <= i < |s| && s[i].year == y
  {
    if s[0].year != y {
      OfYearMember(s[1..], y);
      var i :| 0 <= i < |s[1..]| && s[1..][i].year == y;
      assert s[i + 1].year == y;
    }
  }

  lemma OwnYearPresent(s: seq<Row>)
    requires s != []
    ensures OfYear(s, s[0].year) != []
  {
  }

  /**
   * A stable sort by year has exactly one possible outcome: two year-sorted
   * tables that agree on the order of the rows of every year are equal.
   */
  lemma {:induction false} StableSortIsUnique(s: seq<Row>, t: seq<Row>)
    requires SortedByYear(s) && SortedByYear(t) && SameOrderPerYear(s, t)
    ensures s == t
  {
    if s == [] || t == [] {
      if s != [] {
        OwnYearPresent(s);
      } else if t != [] {
        OwnYearPresent(t);
      }
    } else {
      SameFirstRow(s, t);
      SameOrderOfTails(s, t);
      SortedTail(s);
      SortedTail(t);
      StableSortIsUnique(s[1..], t[1..]);
      assert s == [s[0]] + s[1..] && t == [t[0]] + t[1..];
    }
  }

  lemma SortedTail(s: seq<Row>)
    requires s != [] && SortedByYear(s)
    ensures SortedByYear(s[1..])
  {
  }

  /** The first row of a year-sorted table has the least year of the table. */
  lemma FirstYearIsLeast(s: seq<Row>, y: int)
    requires s != [] && SortedByYear(s) && OfYear(s, y) != []
    ensures s[0].year <= y
  {
    OfYearMember(s, y);
  }

  /** Two year-sorted tables that agree per year start with the same row. */
  lemma SameFirstRow(s: seq<Row>, t: seq<Row>)
    requires s != [] && t != [] && SortedByYear(s) && SortedByYear(t) && SameOrderPerYear(s, t)
    ensures s[0] == t[0]
  {
    OwnYearPresent(s);
    OwnYearPresent(t);
    assert OfYear(t, s[0].year) == OfYear(s, s[0].year);
    assert OfYear(s, t[0].year) == OfYear(t, t[0].year);
    FirstYearIsLeast(t, s[0].year);
    FirstYearIsLeast(s, t[0].year);
    var y := s[0].year;
    assert OfYear(s, y) == [s[0]] + OfYear(s[1..], y);
    assert OfYear(t, y) == [t[0]] + OfYear(t[1..], y);
    assert OfYear(s, y)[0] == s[0] && OfYear(t, y)[0] == t[0];
  }

  lemma SameOrderOfTails(s: seq<Row>, t: seq<Row>)
    requires s != [] && t != [] && s[0] == t[0] && SameOrderPerYear(s, t)
    ensures SameOrderPerYear(s[1..], t[1..])
  {
    forall z ensures OfYear(s[1..], z) == OfYear(t[1..], z) {
      var head := if s[0].year == z then [s[0]] else [];
      assert OfYear(s, z) == OfYear(t, z);
      assert OfYear(s, z) == head + OfYear(s[1..], z);
      assert OfYear(t, z) == head + OfYear(t[1..], z);
      assert OfYear(s[1..], z) == OfYear(s, z)[|head|..];
      assert OfYear(t[1..], z) == OfYear(t, z)[|head|..];
    }
  }

  /**
   * The state of an insertion step: the row that moves sits at `j`, every
   * other pair of positions up to `i` is in year order, and every row after
   * `j` up to `i` is of a later year than the moving row.
   */
  ghost predicate Inserting(s: seq<Row>, i: int, j: int) {
    && 0 <= j <= i < |s|
    && (forall p, q :: 0 <= p < q <= i && p != j && q != j ==> s[p].year <= s[q].year)
    && (forall q :: j < q <= i ==> s[j].year < s[q].year)
  }

  lemma InsertingStart(s: seq<Row>, i: int)
    requires 0 <= i < |s| && SortedByYear(s[..i])
    ensures Inserting(s, i, i)
  {
    forall p, q | 0 <= p < q < i ensures s[p].year <= s[q].year {
      assert s[p] == s[..i][p] && s[q] == s[..i][q];
    }
  }

  /** Moving the row one place left keeps the insertion state and its permutation properties. */
  lemma InsertingStep(s: seq<Row>, i: int, j: int)
    requires Inserting(s, i, j) && j > 0 && s[j - 1].year > s[j].year
    ensures Inserting(SwapAdjacent(s, j), i, j - 1)
    ensures multiset(SwapAdjacent(s, j)) == multiset(s)
    ensures SameOrderPerYear(SwapAdjacent(s, j), s)
  {
    SwapAdjacentKeeps(s, j);
  }

  lemma InsertingDone(s: seq<Row>, i: int, j: int)
    requires Inserting(s, i, j) && (j == 0 || s[j - 1].year <= s[j].year)
    ensures SortedByYear(s[..i + 1])
  {
    forall p, q | 0 <= p < q <= i ensures s[p].year <= s[q].year {
      if q == j && p < j - 1 {
        assert s[p].year <= s[j - 1].year;
      }
    }
  }

  lemma SameOrderPerYearTransitive(r: seq<Row>, s: seq<Row>, t: seq<Row>)
    requires SameOrderPerYear(r, s) && SameOrderPerYear(s, t)
    ensures SameOrderPerYear(r, t)
  {
    forall y ensures OfYear(r, y) == OfYear(t, y) {
      assert OfYear(r, y) == OfYear(s, y);
    }
  }

  /**
   * One step of the insertion sort: the row at `i` moves left past every
   * row of a later year before it, so that `a[..i + 1]` is in year order.
   */
  method InsertAt(a: array<Row>, i: int)
    requires 0 <= i < a.Length && SortedByYear(a[..i])
    modifies a
    ensures SortedByYear(a[..i + 1])
    ensures multiset(a[..]) == multiset(old(a[..]))
    ensures SameOrderPerYear(a[..], old(a[..]))
  {
    ghost var start := a[..];
    InsertingStart(start, i);
    var j := i;
    while j > 0 && a[j - 1].year > a[j].year
      invariant Inserting(a[..], i, j)
      invariant multiset(a[..]) == multiset(start)
      invariant SameOrderPerYear(a[..], start)
    {
      ghost var before := a[..];
      InsertingStep(before, i, j);
      a[j - 1], a[j] := a[j], a[j - 1];
      assert a[..] == SwapAdjacent(before, j);
      SameOrderPerYearTransitive(a[..], before, start);
      j := j - 1;
    }
    InsertingDone(a[..], i, j);
  }

  /**
   * `raw.sort((a, b) => a.Year - b.Year)`: a stable in-place sort by year,
   * here an insertion sort that exchanges neighbours.
   */
  method SortByYear(a: array<Row>)
    modifies a
    ensures SortedByYear(a[..])
    ensures multiset(a[..]) == multiset(old(a[..]))
    ensures SameOrderPerYear(a[..], old(a[..]))
  {
    var i := 0;
    while i < a.Length
      invariant 0 <= i <= a.Length
      invariant SortedByYear(a[..i])
      invariant multiset(a[..]) == multiset(old(a[..]))
      invariant SameOrderPerYear(a[..], old(a[..]))
    {
      InsertAt(a, i);
      i := i + 1;
    }
    assert a[..a.Length] == a[..];
  }

  /**
   * The preparation step as a whole: every row parsed, the table in
   * chronological order, the same rows as parsed from the input, and rows of
   * one year still in their input order.
   */
  method PrepareRows(a: array<Row>)
    requires forall i :: 0 <= i < a.Length ==> IsRawRow(a[i])
    modifies a
    ensures forall i :: 0 <= i < a.Length ==> IsParsedRow(a[i])
    ensures SortedByYear(a[..])
    ensures multiset(a[..]) == multiset(ParseAll(old(a[..])))
    ensures SameOrderPerYear(a[..], ParseAll(old(a[..])))
  {
    ghost var parsed := ParseAll(a[..]);
    ParseRows(a);
    SortByYear(a);
    forall i | 0 <= i < a.Length ensures IsParsedRow(a[i]) {
      assert a[..][i] in multiset(parsed);
    }
  }
}
