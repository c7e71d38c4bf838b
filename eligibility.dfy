/** The single-family eligibility filter `single_family_homes`
    (wrangle.py:192-205): a land-use allow-list mask, then a mask of four
    size conditions applied to the rows the first one kept. */
module Eligibility {
  import opened Tables

  /** `single_use`: the eleven land-use codes counted as single-unit homes. */
  const SingleUse: seq<real> :=
    [261.0, 262.0, 263.0, 264.0, 265.0, 266.0, 268.0, 273.0, 275.0, 276.0, 279.0]

  const LandUse: string := "propertylandusetypeid"
  const Units: string := "unitcnt"

  /** `isin(single_use)`: a missing or non-numeric cell is not in the list. */
  predicate IsSingleUse(c: Cell) {
    c.Some? && c.value.Num? && c.value.x in SingleUse
  }

  /** `> 0`: false on a missing cell. */
  predicate Positive(c: Cell) {
    c.Some? && c.value.Num? && c.value.x > 0.0
  }

  /** `(unitcnt <= 1) | unitcnt.isnull()` */
  predicate AtMostOneUnit(c: Cell) {
    c.None? || (c.value.Num? && c.value.x <= 1.0)
  }

  /** `> 400`: false on a missing cell. */
  predicate OverFourHundred(c: Cell) {
    c.Some? && c.value.Num? && c.value.x > 400.0
  }

  function CellAt(row: Row, j: nat): Cell {
    if j < |row| then row[j] else None
  }

  /** The first mask, on the land-use column at position `landUse`. */
  function SingleUseTest(landUse: nat): Row -> bool {
    row => IsSingleUse(CellAt(row, landUse))
  }

  /** The second mask, on the columns at the given positions. */
  function SizeTest(beds: nat, baths: nat, units: nat, area: nat): Row -> bool {
    row => Positive(CellAt(row, beds)) && Positive(CellAt(row, baths)) &&
           AtMostOneUnit(CellAt(row, units)) && OverFourHundred(CellAt(row, area))
  }

  /** Both masks as one test: what `single_family_homes` keeps overall. */
  function SingleFamilyTest(landUse: nat, beds: nat, baths: nat, units: nat, area: nat): Row -> bool {
    row => SingleUseTest(landUse)(row) && SizeTest(beds, baths, units, area)(row)
  }

  predicate HasLabels(columns: seq<string>) {
    LandUse in columns && Bedrooms in columns && Bathrooms in columns && Units in columns && SquareFeet in columns
  }

  /** All five conditions on a row, by column label. */
  predicate SingleFamily(columns: seq<string>, row: Row)
    requires HasLabels(columns) && |row| == |columns|
  {
    IsSingleUse(At(columns, row, LandUse)) &&
    Positive(At(columns, row, Bedrooms)) &&
    Positive(At(columns, row, Bathrooms)) &&
    AtMostOneUnit(At(columns, row, Units)) &&
    OverFourHundred(At(columns, row, SquareFeet))
  }

  /** A row the size comparisons can be evaluated on without a TypeError. */
  predicate Comparable(columns: seq<string>, row: Row)
    requires HasLabels(columns) && |row| == |columns|
  {
    NumericOrMissing(At(columns, row, Bedrooms)) &&
    NumericOrMissing(At(columns, row, Bathrooms)) &&
    NumericOrMissing(At(columns, row, Units)) &&
    NumericOrMissing(At(columns, row, SquareFeet))
  }

  /** Evaluating `df.<name> <op> value` on `t`: AttributeError when the
      column is absent, TypeError when it holds a non-number. */
  function Compare(t: Table, name: string): (e: Option<Error>)
    requires Rectangular(t)
    ensures e.None? <==> name in t.columns && ColumnIsNumeric(t, name)
  {
    if name !in t.columns then Some(MissingColumns([name]))
    else if !ColumnIsNumeric(t, name) then Some(NotNumeric(name))
    else None
  }

  /** The size conditions all hold of a row, by column label. */
  predicate SizeConditions(columns: seq<string>, row: Row)
    requires HasLabels(columns) && |row| == |columns|
  {
    Positive(At(columns, row, Bedrooms)) &&
    Positive(At(columns, row, Bathrooms)) &&
    AtMostOneUnit(At(columns, row, Units)) &&
    OverFourHundred(At(columns, row, SquareFeet))
  }

  /** The exception the second statement of `single_family_homes` raises on
      `homes`, if any: the comparisons are evaluated left to right, and the
      first column that is absent (AttributeError) or holds a non-number
      (TypeError) stops the statement. */
  function SizeFault(homes: Table): Option<Error>
    requires Rectangular(homes)
  {
    if Bedrooms !in homes.columns then Some(MissingColumns([Bedrooms]))
    else if !ColumnIsNumeric(homes, Bedrooms) then Some(NotNumeric(Bedrooms))
    else if Bathrooms !in homes.columns then Some(MissingColumns([Bathrooms]))
    else if !ColumnIsNumeric(homes, Bathrooms) then Some(NotNumeric(Bathrooms))
    else if Units !in homes.columns then Some(MissingColumns([Units]))
    else if !ColumnIsNumeric(homes, Units) then Some(NotNumeric(Units))
    else if SquareFeet !in homes.columns then Some(MissingColumns([SquareFeet]))
    else if !ColumnIsNumeric(homes, SquareFeet) then Some(NotNumeric(SquareFeet))
    else None
  }

  /** Every row the land-use mask keeps has a number or nothing in column `name`. */
  predicate NumericWhereSingleUse(t: Table, name: string)
    requires Rectangular(t) && LandUse in t.columns && name in t.columns
  {
    forall row :: row in t.rows && IsSingleUse(At(t.columns, row, LandUse)) ==>
                  NumericOrMissing(At(t.columns, row, name))
  }

  /** The exception `single_family_homes(t)` raises, if any, stated on `t`
      itself: `df.propertylandusetypeid` first, then the four compared
      columns in the order written, each either absent or holding a
      non-number on a row the land-use mask kept. */
  function SingleFamilyFault(t: Table): Option<Error>
    requires Rectangular(t)
  {
    if LandUse !in t.columns then Some(MissingColumns([LandUse]))
    else if Bedrooms !in t.columns then Some(MissingColumns([Bedrooms]))
    else if !NumericWhereSingleUse(t, Bedrooms) then Some(NotNumeric(Bedrooms))
    else if Bathrooms !in t.columns then Some(MissingColumns([Bathrooms]))
    else if !NumericWhereSingleUse(t, Bathrooms) then Some(NotNumeric(Bathrooms))
    else if Units !in t.columns then Some(MissingColumns([Units]))
    else if !NumericWhereSingleUse(t, Units) then Some(NotNumeric(Units))
    else if SquareFeet !in t.columns then Some(MissingColumns([SquareFeet]))
    else if !NumericWhereSingleUse(t, SquareFeet) then Some(NotNumeric(SquareFeet))
    else None
  }

  /** The second statement of `single_family_homes`, on the rows the
      land-use mask kept: each comparison may raise, in the order written. */
  function SizeStage(homes: Table): (r: Result<Table>)
    requires Rectangular(homes)
    ensures r.Ok? <==>
              Bedrooms in homes.columns && Bathrooms in homes.columns &&
              Units in homes.columns && SquareFeet in homes.columns &&
              ColumnIsNumeric(homes, Bedrooms) && ColumnIsNumeric(homes, Bathrooms) &&
              ColumnIsNumeric(homes, Units) && ColumnIsNumeric(homes, SquareFeet)
    ensures r.Err? ==> SizeFault(homes) == Some(r.error)
    ensures r.Ok? ==> r.value.columns == homes.columns && Rectangular(r.value)
    ensures r.Ok? && HasLabels(homes.columns) ==>
              forall row :: row in r.value.rows <==> row in homes.rows && SizeConditions(homes.columns, row)
    ensures r.Ok? && HasLabels(homes.columns) ==>
              forall row :: row in homes.rows ==>
                multiset(r.value.rows)[row] == if SizeConditions(homes.columns, row) then multiset(homes.rows)[row] else 0
    ensures r.Ok? ==> Subsequence(r.value.rows, homes.rows)
  {
    var failure :=
      if Compare(homes, Bedrooms).Some? then Compare(homes, Bedrooms)
      else if Compare(homes, Bathrooms).Some? then Compare(homes, Bathrooms)
      else if Compare(homes, Units).Some? then Compare(homes, Units)
      else Compare(homes, SquareFeet);
    if failure.Some? then Err(failure.value)
    else
      var cols := homes.columns;
      var test := SizeTest(IndexOf(cols, Bedrooms), IndexOf(cols, Bathrooms),
                           IndexOf(cols, Units), IndexOf(cols, SquareFeet));
      var r := Table(cols, Filter(homes.rows, test));
      assert forall i :: 0 <= i < |r.rows| ==> r.rows[i] in homes.rows;
      FilterCount(homes.rows, test);
      Ok(r)
  }

  /** `single_family_homes(df)`. It fails when a named column is absent, or
      when a kept-by-land-use row has a non-number in a compared column;
      otherwise it keeps exactly the rows meeting all five conditions, in
      order, with every column. */
  function SingleFamilyHomes(t: Table): (r: Result<Table>)
    requires Rectangular(t)
    ensures r.Ok? <==>
              HasLabels(t.columns) &&
              forall row :: row in t.rows && IsSingleUse(At(t.columns, row, LandUse)) ==> Comparable(t.columns, row)
    ensures r.Err? ==> SingleFamilyFault(t) == Some(r.error)
    ensures r.Ok? ==> r.value.columns == t.columns && Rectangular(r.value)
    ensures r.Ok? ==> forall row :: row in r.value.rows <==> row in t.rows && SingleFamily(t.columns, row)
    ensures r.Ok? ==> forall row :: row in t.rows ==>
              multiset(r.value.rows)[row] == if SingleFamily(t.columns, row) then multiset(t.rows)[row] else 0
    ensures r.Ok? ==> Subsequence(r.value.rows, t.rows)
  {
    if LandUse !in t.columns then Err(MissingColumns([LandUse]))
    else
      var homes := Table(t.columns, Filter(t.rows, SingleUseTest(IndexOf(t.columns, LandUse))));
      assert Rectangular(homes) by {
        assert forall i :: 0 <= i < |homes.rows| ==> homes.rows[i] in t.rows;
      }
      ComparableIff(t, homes);
      var r := SizeStage(homes);
      SingleFamilyFaultIsSizeFault(t, homes);
      if r.Ok? then
        assert Subsequence(r.value.rows, t.rows) by { SubsequenceTrans(r.value.rows, homes.rows, t.rows); }
        assert forall row :: row in homes.rows <==> row in t.rows && IsSingleUse(At(t.columns, row, LandUse));
        SingleFamilyCount(t, r.value);
        r
      else r
  }

  /** The two masks in a row keep each copy of a row meeting all five
      conditions: they are one filter by the conjunction. */
  lemma SingleFamilyCount(t: Table, u: Table)
    requires Rectangular(t) && HasLabels(t.columns)
    requires var cols := t.columns;
             var homes := Filter(t.rows, SingleUseTest(IndexOf(cols, LandUse)));
             u.rows == Filter(homes, SizeTest(IndexOf(cols, Bedrooms), IndexOf(cols, Bathrooms),
                                              IndexOf(cols, Units), IndexOf(cols, SquareFeet)))
    ensures forall row :: row in t.rows ==>
              multiset(u.rows)[row] == if SingleFamily(t.columns, row) then multiset(t.rows)[row] else 0
  {
    var cols := t.columns;
    var landUse, beds, baths, units, area :=
      IndexOf(cols, LandUse), IndexOf(cols, Bedrooms), IndexOf(cols, Bathrooms), IndexOf(cols, Units), IndexOf(cols, SquareFeet);
    var both := SingleFamilyTest(landUse, beds, baths, units, area);
    FilterFilter(t.rows, SingleUseTest(landUse), SizeTest(beds, baths, units, area), both);
    FilterCount(t.rows, both);
    forall row | row in t.rows
      ensures both(row) == SingleFamily(cols, row)
    {
      assert |row| == |cols|;
    }
  }

  /** After the land-use mask, a column holds only numbers exactly when the
      rows the mask kept do. */
  lemma NumericIff(t: Table, homes: Table, name: string)
    requires Rectangular(t) && LandUse in t.columns && name in t.columns
    requires homes == Table(t.columns, Filter(t.rows, SingleUseTest(IndexOf(t.columns, LandUse))))
    requires Rectangular(homes)
    ensures ColumnIsNumeric(homes, name) <==> NumericWhereSingleUse(t, name)
  {
    var cols := t.columns;
    forall row | row in t.rows
      ensures row in homes.rows <==> IsSingleUse(At(cols, row, LandUse))
    {
      assert |row| == |cols|;
    }
    if NumericWhereSingleUse(t, name) {
      forall i | 0 <= i < |homes.rows|
        ensures NumericOrMissing(At(cols, homes.rows[i], name))
      {
        assert homes.rows[i] in t.rows;
      }
    } else {
      var row :| row in t.rows && IsSingleUse(At(cols, row, LandUse)) && !NumericOrMissing(At(cols, row, name));
      var i :| 0 <= i < |homes.rows| && homes.rows[i] == row;
    }
  }

  /** The error of the size stage on the land-use-kept rows is the error
      stated on the whole frame. */
  lemma SingleFamilyFaultIsSizeFault(t: Table, homes: Table)
    requires Rectangular(t) && LandUse in t.columns
    requires homes == Table(t.columns, Filter(t.rows, SingleUseTest(IndexOf(t.columns, LandUse))))
    requires Rectangular(homes)
    ensures SingleFamilyFault(t) == SizeFault(homes)
  {
    if Bedrooms in t.columns { NumericIff(t, homes, Bedrooms); }
    if Bathrooms in t.columns { NumericIff(t, homes, Bathrooms); }
    if Units in t.columns { NumericIff(t, homes, Units); }
    if SquareFeet in t.columns { NumericIff(t, homes, SquareFeet); }
  }

  /** The land-use-kept rows are comparable exactly when their columns are. */
  lemma ComparableIff(t: Table, homes: Table)
    requires Rectangular(t) && LandUse in t.columns
    requires homes == Table(t.columns, Filter(t.rows, SingleUseTest(IndexOf(t.columns, LandUse))))
    requires Rectangular(homes)
    ensures HasLabels(t.columns) ==>
              ((forall row :: row in t.rows && IsSingleUse(At(t.columns, row, LandUse)) ==> Comparable(t.columns, row)) <==>
               (ColumnIsNumeric(homes, Bedrooms) && ColumnIsNumeric(homes, Bathrooms) &&
                ColumnIsNumeric(homes, Units) && ColumnIsNumeric(homes, SquareFeet)))
  {
    if HasLabels(t.columns) {
      var cols := t.columns;
      forall row | row in t.rows
        ensures row in homes.rows <==> IsSingleUse(At(cols, row, LandUse))
      {
        assert |row| == |cols|;
      }
      var all := forall row :: row in t.rows && IsSingleUse(At(cols, row, LandUse)) ==> Comparable(cols, row);
      if all {
        forall i | 0 <= i < |homes.rows|
          ensures Comparable(cols, homes.rows[i])
        {
          assert homes.rows[i] in t.rows;
        }
      } else {
        var row :| row in t.rows && IsSingleUse(At(cols, row, LandUse)) && !Comparable(cols, row);
        assert row in homes.rows;
        var i :| 0 <= i < |homes.rows| && homes.rows[i] == row;
        assert !(ColumnIsNumeric(homes, Bedrooms) && ColumnIsNumeric(homes, Bathrooms) &&
                 ColumnIsNumeric(homes, Units) && ColumnIsNumeric(homes, SquareFeet));
      }
    }
  }

  /** A frame whose rows all meet the five conditions, and can all be
      compared, is returned as it is. */
  lemma FilteredIsFixed(u: Table)
    requires Rectangular(u) && HasLabels(u.columns)
    requires forall row :: row in u.rows ==> SingleFamily(u.columns, row) && Comparable(u.columns, row)
    ensures SingleFamilyHomes(u) == Ok(u)
  {
    var cols := u.columns;
    FilterAll(u.rows, SingleUseTest(IndexOf(cols, LandUse)));
    var test := SizeTest(IndexOf(cols, Bedrooms), IndexOf(cols, Bathrooms),
                         IndexOf(cols, Units), IndexOf(cols, SquareFeet));
    FilterAll(u.rows, test);
    assert forall i :: 0 <= i < |u.rows| ==> Comparable(cols, u.rows[i]) by {
      forall i | 0 <= i < |u.rows| ensures Comparable(cols, u.rows[i]) {
        assert u.rows[i] in u.rows;
      }
    }
    assert SizeStage(u) == Ok(u);
  }

  /** Applying the filter to its own result changes nothing. */
  lemma SingleFamilyIdempotent(t: Table)
    requires Rectangular(t)
    ensures var r := SingleFamilyHomes(t);
            r.Ok? ==> SingleFamilyHomes(r.value) == r
  {
    var r := SingleFamilyHomes(t);
    if r.Ok? {
      var u := r.value;
      assert forall row :: row in u.rows ==> row in t.rows && SingleFamily(u.columns, row);
      FilteredIsFixed(u);
    }
  }
}
