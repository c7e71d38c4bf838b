/** The preparation pipeline `data_prep` (wrangle.py:101-135): reduce the
    missing values, bin the county code and add its indicator columns, add the
    size, room-total and room-count columns, then drop every row with a
    missing cell. */
module Prep {
  import opened Tables
  import opened Frames
  import opened Reduce
  import opened Binning

  const Fips: string := "fips"

  const CountyColumn: string := "county_code_bin"
  const OrangeDummy: string := "county_code_bin_Orange County"
  const VenturaDummy: string := "county_code_bin_Ventura County"
  const HomeSizes: string := "home_sizes"
  const TotalRooms: string := "total_rooms"
  const BedroomBins: string := "bedroom_bins"
  const BathroomBins: string := "bathroom_bins"

  /** The labels a prepared frame is read by. */
  predicate Labels(columns: seq<string>) {
    Fips in columns && SquareFeet in columns && Bedrooms in columns && Bathrooms in columns &&
    CountyColumn in columns && OrangeDummy in columns && VenturaDummy in columns &&
    HomeSizes in columns && TotalRooms in columns && BedroomBins in columns && BathroomBins in columns
  }

  /** The labels after the county stage: `county_code_bin` assigned (appended
      unless present), then the two indicators concatenated at the end. */
  function CodedColumns(columns: seq<string>): seq<string> {
    WithLabel(columns, CountyColumn) + [OrangeDummy, VenturaDummy]
  }

  /** The labels after the second stage: the size band, the room total and
      the two room bands, assigned in that order. */
  function DerivedColumns(columns: seq<string>): seq<string> {
    WithLabel(WithLabel(WithLabel(WithLabel(columns, HomeSizes), TotalRooms), BedroomBins), BathroomBins)
  }

  /** The labels of the frame `data_prep` returns, given the reduced frame's. */
  function PreparedColumns(columns: seq<string>): seq<string> {
    DerivedColumns(CodedColumns(columns))
  }

  /** On a frame that has none of the assigned labels, `data_prep` appends
      the seven new columns after the existing ones, in the order assigned. */
  lemma PreparedColumnsAppend(columns: seq<string>)
    requires CountyColumn !in columns && OrangeDummy !in columns && VenturaDummy !in columns
    requires HomeSizes !in columns && TotalRooms !in columns && BedroomBins !in columns && BathroomBins !in columns
    ensures PreparedColumns(columns) ==
              columns + [CountyColumn, OrangeDummy, VenturaDummy, HomeSizes, TotalRooms, BedroomBins, BathroomBins]
  {
    var coded := CodedColumns(columns);
    assert coded == columns + [CountyColumn, OrangeDummy, VenturaDummy];
    assert HomeSizes !in coded;
    var c1 := coded + [HomeSizes];
    assert TotalRooms !in c1;
    var c2 := c1 + [TotalRooms];
    assert BedroomBins !in c2;
    var c3 := c2 + [BedroomBins];
    assert BathroomBins !in c3;
  }

  /** A column that `data_prep` reads as numbers is absent or holds a non-number. */
  predicate Faulty(t: Table, name: string)
    requires Rectangular(t)
  {
    name !in t.columns || !ColumnIsNumeric(t, name)
  }

  // ---------------------------------------------------------------------
  // Column builders

  /** `pd.cut` of one cell: a missing cell, or a number in no interval,
      gives a missing cell; otherwise the code of the interval holding it. */
  function BinCell(edges: Edges, c: Cell): (r: Cell)
    requires NumericOrMissing(c)
    ensures r.Some? ==> c.Some? && r.value.Code? && r.value.category + 1 < |edges| &&
                        edges[r.value.category] < c.value.x <= edges[r.value.category + 1]
    ensures c.Some? && (exists k :: 0 <= k < |edges| - 1 && edges[k] < c.value.x <= edges[k + 1]) ==> r.Some?
  {
    if c.None? then None
    else
      match Cut(edges, c.value.x)
      case None => None
      case Some(k) => Some(Code(k))
  }

  /** `pd.cut(df.<name>, bins=edges)`: AttributeError when the column is
      absent, TypeError when it holds a non-number, else one cell per row. */
  function BinColumn(t: Table, name: string, edges: Edges): (r: Result<seq<Cell>>)
    requires Rectangular(t)
    ensures r.Err? <==> Faulty(t, name)
    ensures r.Err? ==> r.error == if name !in t.columns then MissingColumns([name]) else NotNumeric(name)
    ensures r.Ok? ==> (|r.value| == |t.rows| &&
              forall i :: 0 <= i < |t.rows| ==> r.value[i] == BinCell(edges, At(t.columns, t.rows[i], name)))
  {
    if name !in t.columns then Err(MissingColumns([name]))
    else if !ColumnIsNumeric(t, name) then Err(NotNumeric(name))
    else Ok(seq(|t.rows|, i requires 0 <= i < |t.rows| => BinCell(edges, At(t.columns, t.rows[i], name))))
  }

  /** An indicator cell of `get_dummies`. */
  function Indicator(b: bool): Cell {
    Some(Num(if b then 1.0 else 0.0))
  }

  /** `pd.get_dummies(df[['county_code_bin']], dummy_na=False, drop_first=True)`:
      one indicator column per county after the first (Los Angeles); a row
      without a county has neither indicator set. */
  function CountyDummies(county: seq<Cell>): (d: Table)
    ensures Rectangular(d) && d.columns == [OrangeDummy, VenturaDummy] && |d.rows| == |county|
  {
    Table([OrangeDummy, VenturaDummy],
          seq(|county|, i requires 0 <= i < |county| =>
            [Indicator(county[i] == Some(Code(1))), Indicator(county[i] == Some(Code(2)))]))
  }

  /** Element-wise `+` of two numeric cells; missing when either is. */
  function AddCells(a: Cell, b: Cell): Cell {
    if a.Some? && b.Some? && a.value.Num? && b.value.Num? then Some(Num(a.value.x + b.value.x)) else None
  }

  /** `df[left] + df[right]`: KeyError for the first absent label, in the
      order written, then TypeError for the first non-numeric column. */
  function SumColumns(t: Table, left: string, right: string): (r: Result<seq<Cell>>)
    requires Rectangular(t)
    ensures r.Err? <==> Faulty(t, left) || Faulty(t, right)
    ensures r.Err? ==> (r.error ==
              if left !in t.columns then MissingColumns([left])
              else if right !in t.columns then MissingColumns([right])
              else if !ColumnIsNumeric(t, left) then NotNumeric(left)
              else NotNumeric(right))
    ensures r.Ok? ==> (|r.value| == |t.rows| &&
              forall i :: 0 <= i < |t.rows| ==>
                var a, b := At(t.columns, t.rows[i], left), At(t.columns, t.rows[i], right);
                (r.value[i].Some? <==> a.Some? && b.Some?) &&
                (r.value[i].Some? ==> r.value[i] == Some(Num(a.value.x + b.value.x))))
  {
    if left !in t.columns then Err(MissingColumns([left]))
    else if right !in t.columns then Err(MissingColumns([right]))
    else if !ColumnIsNumeric(t, left) then Err(NotNumeric(left))
    else if !ColumnIsNumeric(t, right) then Err(NotNumeric(right))
    else Ok(seq(|t.rows|, i requires 0 <= i < |t.rows| =>
              AddCells(At(t.columns, t.rows[i], left), At(t.columns, t.rows[i], right))))
  }

  // ---------------------------------------------------------------------
  // The stages of data_prep

  /** What the county stage makes of the reduced frame `t`: the same rows,
      the labels of `t` plus `county_code_bin` and the two indicators, every
      other cell unchanged, the county cell the bin of the fips cell, and,
      when `t` had no columns of their names, indicators that flag codes 1
      and 2. */
  ghost predicate CountyCoded(t: Table, coded: Table)
    requires Rectangular(t)
  {
    Fips in t.columns && ColumnIsNumeric(t, Fips) &&
    Rectangular(coded) && |coded.rows| == |t.rows| &&
    (forall c :: c in coded.columns <==> c in t.columns || c == CountyColumn || c == OrangeDummy || c == VenturaDummy) &&
    (forall i, c :: 0 <= i < |t.rows| && c in t.columns && c != CountyColumn ==>
       At(coded.columns, coded.rows[i], c) == At(t.columns, t.rows[i], c)) &&
    (forall i :: 0 <= i < |t.rows| ==>
       At(coded.columns, coded.rows[i], CountyColumn) == BinCell(FipsEdges, At(t.columns, t.rows[i], Fips))) &&
    (OrangeDummy !in t.columns && VenturaDummy !in t.columns ==>
       forall i :: 0 <= i < |t.rows| ==>
         var county := At(coded.columns, coded.rows[i], CountyColumn);
         At(coded.columns, coded.rows[i], OrangeDummy) == Indicator(county == Some(Code(1))) &&
         At(coded.columns, coded.rows[i], VenturaDummy) == Indicator(county == Some(Code(2)))) &&
    (Distinct(t.columns) && OrangeDummy !in t.columns && VenturaDummy !in t.columns ==> Distinct(coded.columns))
  }

  /** Lines 106-114: `county_code_bin` is assigned into the frame, then the
      indicator columns are concatenated after it. */
  function CodeCounty(t: Table): (r: Result<Table>)
    requires Rectangular(t)
    ensures r.Err? <==> Faulty(t, Fips)
    ensures r.Err? ==> r.error == if Fips !in t.columns then MissingColumns([Fips]) else NotNumeric(Fips)
    ensures r.Ok? ==> r.value.columns == CodedColumns(t.columns)
    ensures r.Ok? ==> CountyCoded(t, r.value)
  {
    var county := BinColumn(t, Fips, FipsEdges);
    if county.Err? then Err(county.error)
    else
      var labelled := SetColumn(t, CountyColumn, county.value);
      var dummies := CountyDummies(county.value);
      var r := Concat(labelled, dummies);
      CodeCountyCells(t, county.value, labelled, dummies, r);
      Ok(r)
  }

  lemma CodeCountyCells(t: Table, county: seq<Cell>, labelled: Table, dummies: Table, r: Table)
    requires Rectangular(t) && |county| == |t.rows|
    requires labelled == SetColumn(t, CountyColumn, county)
    requires dummies == CountyDummies(county)
    requires r == Concat(labelled, dummies)
    ensures r.columns == CodedColumns(t.columns)
    ensures forall c :: c in r.columns <==> c in t.columns || c == CountyColumn || c == OrangeDummy || c == VenturaDummy
    ensures forall i, c :: 0 <= i < |t.rows| && c in t.columns && c != CountyColumn ==>
              At(r.columns, r.rows[i], c) == At(t.columns, t.rows[i], c)
    ensures forall i :: 0 <= i < |t.rows| ==> At(r.columns, r.rows[i], CountyColumn) == county[i]
    ensures OrangeDummy !in t.columns && VenturaDummy !in t.columns ==>
              forall i :: 0 <= i < |t.rows| ==>
                At(r.columns, r.rows[i], OrangeDummy) == Indicator(county[i] == Some(Code(1))) &&
                At(r.columns, r.rows[i], VenturaDummy) == Indicator(county[i] == Some(Code(2)))
    ensures Distinct(t.columns) && OrangeDummy !in t.columns && VenturaDummy !in t.columns ==> Distinct(r.columns)
  {
    assert r.columns == labelled.columns + [OrangeDummy, VenturaDummy];
    forall i, c | 0 <= i < |t.rows| && c in t.columns && c != CountyColumn
      ensures At(r.columns, r.rows[i], c) == At(t.columns, t.rows[i], c)
    {
      assert c in labelled.columns;
      assert At(r.columns, r.rows[i], c) == At(labelled.columns, labelled.rows[i], c);
    }
    forall i | 0 <= i < |t.rows|
      ensures At(r.columns, r.rows[i], CountyColumn) == county[i]
    {
      assert CountyColumn in labelled.columns;
      assert At(r.columns, r.rows[i], CountyColumn) == At(labelled.columns, labelled.rows[i], CountyColumn);
    }
    if OrangeDummy !in t.columns && VenturaDummy !in t.columns {
      assert OrangeDummy !in labelled.columns && VenturaDummy !in labelled.columns;
      assert IndexOf(dummies.columns, OrangeDummy) == 0;
      assert IndexOf(dummies.columns, VenturaDummy) == 1;
      forall i | 0 <= i < |t.rows|
        ensures At(r.columns, r.rows[i], OrangeDummy) == Indicator(county[i] == Some(Code(1)))
        ensures At(r.columns, r.rows[i], VenturaDummy) == Indicator(county[i] == Some(Code(2)))
      {
        assert At(r.columns, r.rows[i], OrangeDummy) == At(dummies.columns, dummies.rows[i], OrangeDummy);
        assert At(r.columns, r.rows[i], VenturaDummy) == At(dummies.columns, dummies.rows[i], VenturaDummy);
      }
    }
  }

  /** What the second stage makes of the frame `t`: the same rows, the
      labels of `t` plus the four assigned ones, every other cell unchanged,
      the size and room bands the bins of their source cells and the room
      total their sum. */
  ghost predicate Derived(t: Table, derived: Table)
    requires Rectangular(t)
  {
    SquareFeet in t.columns && Bedrooms in t.columns && Bathrooms in t.columns &&
    ColumnIsNumeric(t, SquareFeet) && ColumnIsNumeric(t, Bedrooms) && ColumnIsNumeric(t, Bathrooms) &&
    Rectangular(derived) && |derived.rows| == |t.rows| &&
    (forall c :: c in derived.columns <==> c in t.columns || DerivedLabel(c)) &&
    (forall i, c :: 0 <= i < |t.rows| && c in t.columns && !DerivedLabel(c) ==>
       At(derived.columns, derived.rows[i], c) == At(t.columns, t.rows[i], c)) &&
    HomeSizes in derived.columns && TotalRooms in derived.columns &&
    BedroomBins in derived.columns && BathroomBins in derived.columns &&
    (forall i :: 0 <= i < |t.rows| ==>
       var row := derived.rows[i];
       var beds, baths := At(t.columns, t.rows[i], Bedrooms), At(t.columns, t.rows[i], Bathrooms);
       At(derived.columns, row, HomeSizes) == BinCell(SquareFeetEdges, At(t.columns, t.rows[i], SquareFeet)) &&
       At(derived.columns, row, TotalRooms) == AddCells(beds, baths) &&
       At(derived.columns, row, BedroomBins) == BinCell(RoomEdges, beds) &&
       At(derived.columns, row, BathroomBins) == BinCell(RoomEdges, baths)) &&
    (Distinct(t.columns) ==> Distinct(derived.columns))
  }

  /** Lines 117-132: the size band, the room total and the two room bands,
      each assigned as a column in the order written. */
  function Derive(t: Table): (r: Result<Table>)
    requires Rectangular(t)
    ensures r.Err? <==> Faulty(t, SquareFeet) || Faulty(t, Bedrooms) || Faulty(t, Bathrooms)
    ensures r.Err? ==> (r.error ==
              if Faulty(t, SquareFeet) then
                (if SquareFeet !in t.columns then MissingColumns([SquareFeet]) else NotNumeric(SquareFeet))
              else if Bedrooms !in t.columns then MissingColumns([Bedrooms])
              else if Bathrooms !in t.columns then MissingColumns([Bathrooms])
              else if !ColumnIsNumeric(t, Bedrooms) then NotNumeric(Bedrooms)
              else NotNumeric(Bathrooms))
    ensures r.Ok? ==> r.value.columns == DerivedColumns(t.columns)
    ensures r.Ok? ==> Derived(t, r.value)
  {
    var sizes := BinColumn(t, SquareFeet, SquareFeetEdges);
    if sizes.Err? then Err(sizes.error)
    else
      var t1 := SetColumn(t, HomeSizes, sizes.value);
      SetColumnKeeps(t, HomeSizes, sizes.value, Bedrooms);
      SetColumnKeeps(t, HomeSizes, sizes.value, Bathrooms);
      var rooms := SumColumns(t1, Bedrooms, Bathrooms);
      if rooms.Err? then Err(rooms.error)
      else
        var t2 := SetColumn(t1, TotalRooms, rooms.value);
        SetColumnKeeps(t1, TotalRooms, rooms.value, Bedrooms);
        SetColumnKeeps(t1, TotalRooms, rooms.value, Bathrooms);
        var beds := BinColumn(t2, Bedrooms, RoomEdges);
        assert beds.Ok?;
        var t3 := SetColumn(t2, BedroomBins, beds.value);
        SetColumnKeeps(t2, BedroomBins, beds.value, Bathrooms);
        var baths := BinColumn(t3, Bathrooms, RoomEdges);
        assert baths.Ok?;
        var t4 := SetColumn(t3, BathroomBins, baths.value);
        DeriveCells(t, sizes.value, t1, rooms.value, t2, beds.value, t3, baths.value, t4);
        Ok(t4)
  }

  /** Assigning one column leaves every other label, and whether its column
      is numeric, as it was. */
  lemma SetColumnKeeps(t: Table, name: string, values: seq<Cell>, c: string)
    requires Rectangular(t) && |values| == |t.rows| && c != name
    ensures c in SetColumn(t, name, values).columns <==> c in t.columns
    ensures c in t.columns ==> (ColumnIsNumeric(SetColumn(t, name, values), c) <==> ColumnIsNumeric(t, c))
  {
    var r := SetColumn(t, name, values);
    if c in t.columns {
      assert forall i :: 0 <= i < |r.rows| ==> At(r.columns, r.rows[i], c) == At(t.columns, t.rows[i], c);
    }
  }

  /** One cell after a column assignment. */
  lemma SetColumnCell(t: Table, name: string, values: seq<Cell>, i: nat, c: string)
    requires Rectangular(t) && |values| == |t.rows| && i < |t.rows| && (c in t.columns || c == name)
    ensures c in SetColumn(t, name, values).columns
    ensures At(SetColumn(t, name, values).columns, SetColumn(t, name, values).rows[i], c) ==
              if c == name then values[i] else At(t.columns, t.rows[i], c)
  {
  }

  /** The labels the second stage assigns. */
  predicate DerivedLabel(c: string) {
    c == HomeSizes || c == TotalRooms || c == BedroomBins || c == BathroomBins
  }

  lemma DeriveCells(t: Table, sizes: seq<Cell>, t1: Table, rooms: seq<Cell>, t2: Table,
                    beds: seq<Cell>, t3: Table, baths: seq<Cell>, t4: Table)
    requires Rectangular(t) && |sizes| == |t.rows|
    requires t1 == SetColumn(t, HomeSizes, sizes) && |rooms| == |t.rows|
    requires t2 == SetColumn(t1, TotalRooms, rooms) && |beds| == |t.rows|
    requires t3 == SetColumn(t2, BedroomBins, beds) && |baths| == |t.rows|
    requires t4 == SetColumn(t3, BathroomBins, baths)
    ensures t4.columns == DerivedColumns(t.columns)
    ensures forall c :: c in t4.columns <==> c in t.columns || DerivedLabel(c)
    ensures forall i, c :: 0 <= i < |t.rows| && c in t.columns && !DerivedLabel(c) ==>
              At(t4.columns, t4.rows[i], c) == At(t.columns, t.rows[i], c)
    ensures forall i :: 0 <= i < |t.rows| ==>
              At(t4.columns, t4.rows[i], HomeSizes) == sizes[i] &&
              At(t4.columns, t4.rows[i], TotalRooms) == rooms[i] &&
              At(t4.columns, t4.rows[i], BedroomBins) == beds[i] &&
              At(t4.columns, t4.rows[i], BathroomBins) == baths[i]
    ensures Distinct(t.columns) ==> Distinct(t4.columns)
  {
    forall i, c | 0 <= i < |t.rows| && c in t.columns && !DerivedLabel(c)
      ensures At(t4.columns, t4.rows[i], c) == At(t.columns, t.rows[i], c)
    {
      SetColumnCell(t, HomeSizes, sizes, i, c);
      SetColumnCell(t1, TotalRooms, rooms, i, c);
      SetColumnCell(t2, BedroomBins, beds, i, c);
      SetColumnCell(t3, BathroomBins, baths, i, c);
    }
    forall i | 0 <= i < |t.rows|
      ensures At(t4.columns, t4.rows[i], HomeSizes) == sizes[i]
      ensures At(t4.columns, t4.rows[i], TotalRooms) == rooms[i]
      ensures At(t4.columns, t4.rows[i], BedroomBins) == beds[i]
      ensures At(t4.columns, t4.rows[i], BathroomBins) == baths[i]
    {
      SetColumnCell(t, HomeSizes, sizes, i, HomeSizes);
      SetColumnCell(t1, TotalRooms, rooms, i, HomeSizes);
      SetColumnCell(t2, BedroomBins, beds, i, HomeSizes);
      SetColumnCell(t3, BathroomBins, baths, i, HomeSizes);
      SetColumnCell(t1, TotalRooms, rooms, i, TotalRooms);
      SetColumnCell(t2, BedroomBins, beds, i, TotalRooms);
      SetColumnCell(t3, BathroomBins, baths, i, TotalRooms);
      SetColumnCell(t2, BedroomBins, beds, i, BedroomBins);
      SetColumnCell(t3, BathroomBins, baths, i, BedroomBins);
      SetColumnCell(t3, BathroomBins, baths, i, BathroomBins);
    }
  }

  // ---------------------------------------------------------------------
  // data_prep

  /** The first exception `data_prep` raises after the reduction, if any:
      `df.fips`, then `df.calculatedfinishedsquarefeet`, then
      `df['bedroomcnt'] + df['bathroomcnt']`. */
  function FirstFault(t: Table): Option<Error>
    requires Rectangular(t)
  {
    if Fips !in t.columns then Some(MissingColumns([Fips]))
    else if !ColumnIsNumeric(t, Fips) then Some(NotNumeric(Fips))
    else if SquareFeet !in t.columns then Some(MissingColumns([SquareFeet]))
    else if !ColumnIsNumeric(t, SquareFeet) then Some(NotNumeric(SquareFeet))
    else if Bedrooms !in t.columns then Some(MissingColumns([Bedrooms]))
    else if Bathrooms !in t.columns then Some(MissingColumns([Bathrooms]))
    else if !ColumnIsNumeric(t, Bedrooms) then Some(NotNumeric(Bedrooms))
    else if !ColumnIsNumeric(t, Bathrooms) then Some(NotNumeric(Bathrooms))
    else None
  }

  /** A number, and the code of the category it was binned into. */
  predicate NumberAndCode(source: Cell, bin: Cell) {
    source.Some? && source.value.Num? && bin.Some? && bin.value.Code?
  }

  /** What `data_prep` promises of every row it returns: no missing cell, the
      county, size and room bands name the category of the value they were
      cut from, and the room total is the sum of the two counts. */
  predicate Prepared(columns: seq<string>, row: Row)
    requires Labels(columns) && |row| == |columns|
  {
    var fips, county := At(columns, row, Fips), At(columns, row, CountyColumn);
    var area, size := At(columns, row, SquareFeet), At(columns, row, HomeSizes);
    var beds, bedBand := At(columns, row, Bedrooms), At(columns, row, BedroomBins);
    var baths, bathBand := At(columns, row, Bathrooms), At(columns, row, BathroomBins);
    (forall j :: 0 <= j < |row| ==> row[j].Some?) &&
    NumberAndCode(fips, county) && CountyBin(fips.value.x).Some? &&
    CountyBin(fips.value.x) == CountyOf(county.value.category) &&
    NumberAndCode(area, size) && SizeBin(area.value.x).Some? &&
    SizeBin(area.value.x) == BandOf(size.value.category) &&
    NumberAndCode(beds, bedBand) && RoomBin(beds.value.x).Some? &&
    RoomBin(beds.value.x) == BandOf(bedBand.value.category) &&
    NumberAndCode(baths, bathBand) && RoomBin(baths.value.x).Some? &&
    RoomBin(baths.value.x) == BandOf(bathBand.value.category) &&
    At(columns, row, TotalRooms) == Some(Num(beds.value.x + baths.value.x))
  }

  /** Lines 106-134 of `data_prep`, on the frame the reduction left: it
      raises exactly when that frame lacks, or holds a non-number in, one of
      the four columns read, and otherwise returns only prepared rows. */
  function Prepare(t: Table): (r: Result<Table>)
    requires Rectangular(t)
    ensures (r.Err? <==> FirstFault(t).Some?) && (r.Err? ==> r.error == FirstFault(t).value)
    ensures r.Ok? ==> Rectangular(r.value) && Labels(r.value.columns) && |r.value.rows| <= |t.rows|
    ensures r.Ok? ==> r.value.columns == PreparedColumns(t.columns)
    ensures r.Ok? ==> forall n :: 0 <= n < |r.value.rows| ==> Prepared(r.value.columns, r.value.rows[n])
  {
    var coded :- CodeCounty(t);
    CodedFaults(t, coded);
    var derived :- Derive(coded);
    PreparedRows(t, coded, derived);
    Ok(DropNaAny(derived))
  }

  /** `data_prep(df, prop_required_column, prop_required_row)` on a frame value. */
  function Prep(t: Table, propColumn: real, propRow: real): (r: Result<Table>)
    requires Rectangular(t)
    ensures var fault := FirstFault(HandleMissing(t, propColumn, propRow));
            (r.Err? <==> fault.Some?) && (r.Err? ==> r.error == fault.value)
    ensures r.Ok? ==> Rectangular(r.value) && Labels(r.value.columns)
    ensures r.Ok? ==> r.value.columns == PreparedColumns(HandleMissing(t, propColumn, propRow).columns)
    ensures r.Ok? ==> |r.value.rows| <= |HandleMissing(t, propColumn, propRow).rows|
    ensures r.Ok? ==> forall n :: 0 <= n < |r.value.rows| ==> Prepared(r.value.columns, r.value.rows[n])
  {
    Prepare(HandleMissing(t, propColumn, propRow))
  }

  /** Every row the final `dropna()` keeps is prepared. */
  lemma PreparedRows(t: Table, coded: Table, derived: Table)
    requires Rectangular(t) && CountyCoded(t, coded)
    requires Rectangular(coded) && Derived(coded, derived)
    ensures Rectangular(derived) && Labels(derived.columns) && |DropNaAny(derived).rows| <= |t.rows|
    ensures var r := DropNaAny(derived);
            forall n :: 0 <= n < |r.rows| ==> Prepared(r.columns, r.rows[n])
  {
    var r := DropNaAny(derived);
    SubsequenceLength(r.rows, derived.rows);
    forall n | 0 <= n < |r.rows|
      ensures Prepared(r.columns, r.rows[n])
    {
      assert r.rows[n] in derived.rows;
      var k :| 0 <= k < |derived.rows| && derived.rows[k] == r.rows[n];
      PreparedRow(t, coded, derived, k);
    }
  }

  /** The county stage changes neither whether nor which column is at fault later. */
  lemma CodedFaults(t: Table, coded: Table)
    requires Rectangular(t) && CountyCoded(t, coded)
    ensures Rectangular(coded)
    ensures !Faulty(t, Fips)
    ensures forall c :: c == SquareFeet || c == Bedrooms || c == Bathrooms ==>
              (c in coded.columns <==> c in t.columns) &&
              (c in t.columns ==> (ColumnIsNumeric(coded, c) <==> ColumnIsNumeric(t, c)))
  {
    forall c | c == SquareFeet || c == Bedrooms || c == Bathrooms
      ensures c in t.columns ==> (ColumnIsNumeric(coded, c) <==> ColumnIsNumeric(t, c))
    {
      if c in t.columns {
        assert forall i :: 0 <= i < |t.rows| ==> At(coded.columns, coded.rows[i], c) == At(t.columns, t.rows[i], c);
      }
    }
  }

  /** A binned fips cell names the county of its code. */
  lemma CountyCode(c: Cell)
    requires NumericOrMissing(c) && BinCell(FipsEdges, c).Some?
    ensures var b := BinCell(FipsEdges, c);
            NumberAndCode(c, b) && CountyBin(c.value.x).Some? && CountyBin(c.value.x) == CountyOf(b.value.category)
  {
  }

  /** A binned area cell names the size band of its code. */
  lemma SizeCode(c: Cell)
    requires NumericOrMissing(c) && BinCell(SquareFeetEdges, c).Some?
    ensures var b := BinCell(SquareFeetEdges, c);
            NumberAndCode(c, b) && SizeBin(c.value.x).Some? && SizeBin(c.value.x) == BandOf(b.value.category)
  {
  }

  /** A binned room-count cell names the band of its code. */
  lemma RoomCode(c: Cell)
    requires NumericOrMissing(c) && BinCell(RoomEdges, c).Some?
    ensures var b := BinCell(RoomEdges, c);
            NumberAndCode(c, b) && RoomBin(c.value.x).Some? && RoomBin(c.value.x) == BandOf(b.value.category)
  {
  }

  /** A complete row whose derived cells were computed from its own source
      cells is prepared. */
  lemma PreparedCells(columns: seq<string>, row: Row)
    requires Labels(columns) && |row| == |columns|
    requires forall j :: 0 <= j < |row| ==> row[j].Some?
    requires var fips, area := At(columns, row, Fips), At(columns, row, SquareFeet);
             var beds, baths := At(columns, row, Bedrooms), At(columns, row, Bathrooms);
             NumericOrMissing(fips) && NumericOrMissing(area) && NumericOrMissing(beds) && NumericOrMissing(baths) &&
             At(columns, row, CountyColumn) == BinCell(FipsEdges, fips) &&
             At(columns, row, HomeSizes) == BinCell(SquareFeetEdges, area) &&
             At(columns, row, TotalRooms) == AddCells(beds, baths) &&
             At(columns, row, BedroomBins) == BinCell(RoomEdges, beds) &&
             At(columns, row, BathroomBins) == BinCell(RoomEdges, baths)
    ensures Prepared(columns, row)
  {
    assert row[IndexOf(columns, CountyColumn)].Some?;
    assert row[IndexOf(columns, HomeSizes)].Some?;
    assert row[IndexOf(columns, BedroomBins)].Some?;
    assert row[IndexOf(columns, BathroomBins)].Some?;
    CountyCode(At(columns, row, Fips));
    SizeCode(At(columns, row, SquareFeet));
    RoomCode(At(columns, row, Bedrooms));
    RoomCode(At(columns, row, Bathrooms));
  }

  /** The cells the county stage reads and writes, row by row. */
  lemma CodedCells(reduced: Table, coded: Table, k: nat)
    requires Rectangular(reduced) && CountyCoded(reduced, coded) && k < |reduced.rows|
    ensures Rectangular(coded) && |coded.rows| == |reduced.rows|
    ensures Fips in coded.columns && CountyColumn in coded.columns && OrangeDummy in coded.columns && VenturaDummy in coded.columns
    ensures NumericOrMissing(At(coded.columns, coded.rows[k], Fips))
    ensures At(coded.columns, coded.rows[k], CountyColumn) == BinCell(FipsEdges, At(coded.columns, coded.rows[k], Fips))
  {
    assert ColumnIsNumeric(reduced, Fips);
    assert At(coded.columns, coded.rows[k], Fips) == At(reduced.columns, reduced.rows[k], Fips);
  }

  /** The cells the second stage reads and writes, row by row. */
  lemma DerivedCells(coded: Table, derived: Table, k: nat)
    requires Rectangular(coded) && Derived(coded, derived) && k < |coded.rows|
    requires Fips in coded.columns && CountyColumn in coded.columns && OrangeDummy in coded.columns && VenturaDummy in coded.columns
    ensures Rectangular(derived) && |derived.rows| == |coded.rows| && Labels(derived.columns)
    ensures forall c :: c == Fips || c == CountyColumn || c == OrangeDummy || c == VenturaDummy ==>
              At(derived.columns, derived.rows[k], c) == At(coded.columns, coded.rows[k], c)
    ensures var row := derived.rows[k];
            var area := At(derived.columns, row, SquareFeet);
            var beds, baths := At(derived.columns, row, Bedrooms), At(derived.columns, row, Bathrooms);
            NumericOrMissing(area) && NumericOrMissing(beds) && NumericOrMissing(baths) &&
            At(derived.columns, row, HomeSizes) == BinCell(SquareFeetEdges, area) &&
            At(derived.columns, row, TotalRooms) == AddCells(beds, baths) &&
            At(derived.columns, row, BedroomBins) == BinCell(RoomEdges, beds) &&
            At(derived.columns, row, BathroomBins) == BinCell(RoomEdges, baths)
  {
    assert !DerivedLabel(Fips) && !DerivedLabel(CountyColumn) && !DerivedLabel(OrangeDummy) && !DerivedLabel(VenturaDummy);
    assert !DerivedLabel(SquareFeet) && !DerivedLabel(Bedrooms) && !DerivedLabel(Bathrooms);
    assert ColumnIsNumeric(coded, SquareFeet) && ColumnIsNumeric(coded, Bedrooms) && ColumnIsNumeric(coded, Bathrooms);
  }

  /** A complete row of the derived frame is prepared. */
  lemma PreparedRow(reduced: Table, coded: Table, derived: Table, k: nat)
    requires Rectangular(reduced) && CountyCoded(reduced, coded)
    requires Rectangular(coded) && Derived(coded, derived) && k < |derived.rows|
    requires forall j :: 0 <= j < |derived.rows[k]| ==> derived.rows[k][j].Some?
    ensures Labels(derived.columns) && Rectangular(derived)
    ensures Prepared(derived.columns, derived.rows[k])
  {
    assert k < |reduced.rows|;
    CodedCells(reduced, coded, k);
    DerivedCells(coded, derived, k);
    PreparedCells(derived.columns, derived.rows[k]);
  }

  // ---------------------------------------------------------------------
  // Further properties of data_prep

  /** The indicator columns of a prepared row flag its county; a Los Angeles
      row has neither set. */
  predicate FlagsCounty(columns: seq<string>, row: Row)
    requires Labels(columns) && |row| == |columns| && Prepared(columns, row)
  {
    var county := CountyBin(At(columns, row, Fips).value.x);
    At(columns, row, OrangeDummy) == Indicator(county == Some(Orange)) &&
    At(columns, row, VenturaDummy) == Indicator(county == Some(Ventura))
  }

  /** The indicator cells the county stage writes, row by row. */
  lemma CodedFlags(reduced: Table, coded: Table, k: nat)
    requires Rectangular(reduced) && CountyCoded(reduced, coded) && k < |reduced.rows|
    requires OrangeDummy !in reduced.columns && VenturaDummy !in reduced.columns
    ensures Rectangular(coded) && |coded.rows| == |reduced.rows|
    ensures CountyColumn in coded.columns && OrangeDummy in coded.columns && VenturaDummy in coded.columns
    ensures var county := At(coded.columns, coded.rows[k], CountyColumn);
            At(coded.columns, coded.rows[k], OrangeDummy) == Indicator(county == Some(Code(1))) &&
            At(coded.columns, coded.rows[k], VenturaDummy) == Indicator(county == Some(Code(2)))
  {
  }

  /** The indicators of one derived row, when the reduced frame had no
      columns of their names. */
  lemma FlagsRow(reduced: Table, coded: Table, derived: Table, k: nat)
    requires Rectangular(reduced) && CountyCoded(reduced, coded)
    requires OrangeDummy !in reduced.columns && VenturaDummy !in reduced.columns
    requires Rectangular(coded) && Derived(coded, derived) && k < |derived.rows|
    requires Labels(derived.columns) && Rectangular(derived) && Prepared(derived.columns, derived.rows[k])
    ensures FlagsCounty(derived.columns, derived.rows[k])
  {
    assert k < |reduced.rows|;
    CodedFlags(reduced, coded, k);
    CodedCells(reduced, coded, k);
    DerivedCells(coded, derived, k);
  }

  /** Every row the final `dropna()` keeps has its indicators flag its county. */
  lemma RowsFlagCounty(t: Table, coded: Table, derived: Table)
    requires Rectangular(t) && CountyCoded(t, coded)
    requires OrangeDummy !in t.columns && VenturaDummy !in t.columns
    requires Rectangular(coded) && Derived(coded, derived)
    ensures Rectangular(derived) && Labels(derived.columns)
    ensures var r := DropNaAny(derived);
            forall n :: 0 <= n < |r.rows| ==> Prepared(r.columns, r.rows[n]) && FlagsCounty(r.columns, r.rows[n])
  {
    var r := DropNaAny(derived);
    PreparedRows(t, coded, derived);
    forall n | 0 <= n < |r.rows|
      ensures FlagsCounty(r.columns, r.rows[n])
    {
      assert r.rows[n] in derived.rows;
      var k :| 0 <= k < |derived.rows| && derived.rows[k] == r.rows[n];
      FlagsRow(t, coded, derived, k);
    }
  }

  /** With no input columns already named like the indicators, every
      returned row's indicators flag exactly its county. */
  lemma PrepareFlagsCounty(t: Table)
    requires Rectangular(t) && OrangeDummy !in t.columns && VenturaDummy !in t.columns
    ensures var r := Prepare(t);
            r.Ok? ==> forall n :: 0 <= n < |r.value.rows| ==> FlagsCounty(r.value.columns, r.value.rows[n])
  {
    var r := Prepare(t);
    if r.Ok? {
      var coded := CodeCounty(t).value;
      var derived := Derive(coded).value;
      assert r.value == DropNaAny(derived);
      RowsFlagCounty(t, coded, derived);
    }
  }

  /** `data_prep` on a frame without indicator-named columns: every returned
      row's indicators flag exactly its county. */
  lemma PrepFlagsCounty(t: Table, propColumn: real, propRow: real)
    requires Rectangular(t) && OrangeDummy !in t.columns && VenturaDummy !in t.columns
    ensures var r := Prep(t, propColumn, propRow);
            r.Ok? ==> forall n :: 0 <= n < |r.value.rows| ==> FlagsCounty(r.value.columns, r.value.rows[n])
  {
    var reduced := HandleMissing(t, propColumn, propRow);
    assert OrangeDummy !in reduced.columns && VenturaDummy !in reduced.columns by {
      var keep := Kept(DenseColumns(t, Threshold(propColumn, |t.rows|)));
      assert forall k :: 0 <= k < |reduced.columns| ==> reduced.columns[k] == t.columns[keep[k]];
    }
    PrepareFlagsCounty(reduced);
  }

  /** One kept cell through both stages. */
  lemma KeptCell(t: Table, coded: Table, derived: Table, k: nat, c: string)
    requires Rectangular(t) && CountyCoded(t, coded)
    requires Rectangular(coded) && Derived(coded, derived) && k < |t.rows|
    requires c in t.columns && c != CountyColumn && !DerivedLabel(c)
    ensures c in derived.columns && k < |derived.rows|
    ensures At(derived.columns, derived.rows[k], c) == At(t.columns, t.rows[k], c)
  {
    assert At(coded.columns, coded.rows[k], c) == At(t.columns, t.rows[k], c);
  }

  /** A row of the frame `data_prep` bins that the final `dropna()` has no
      reason to drop: every cell under a label the pipeline does not assign
      is present, and the fips code, the area and both room counts are
      numbers inside their bins. */
  predicate Binnable(columns: seq<string>, row: Row)
    requires |row| == |columns|
  {
    Fips in columns && SquareFeet in columns && Bedrooms in columns && Bathrooms in columns &&
    (forall c :: c in columns && c != CountyColumn && !DerivedLabel(c) ==> At(columns, row, c).Some?) &&
    var fips, area := At(columns, row, Fips), At(columns, row, SquareFeet);
    var beds, baths := At(columns, row, Bedrooms), At(columns, row, Bathrooms);
    fips.Some? && fips.value.Num? && CountyBin(fips.value.x).Some? &&
    area.Some? && area.value.Num? && SizeBin(area.value.x).Some? &&
    beds.Some? && beds.value.Num? && RoomBin(beds.value.x).Some? &&
    baths.Some? && baths.value.Num? && RoomBin(baths.value.x).Some?
  }

  /** `row` (under `columns`) is `source` (under `sourceColumns`) with
      columns added: every label the pipeline does not assign is kept, with
      its cell. */
  predicate Extends(columns: seq<string>, row: Row, sourceColumns: seq<string>, source: Row)
    requires |row| == |columns| && |source| == |sourceColumns|
  {
    forall c :: c in sourceColumns && c != CountyColumn && !DerivedLabel(c) ==>
      c in columns && At(columns, row, c) == At(sourceColumns, source, c)
  }

  /** A row the final `dropna()` keeps came from a binnable row. */
  lemma KeptRowBinnable(t: Table, coded: Table, derived: Table, k: nat)
    requires Rectangular(t) && CountyCoded(t, coded)
    requires Rectangular(coded) && Derived(coded, derived) && k < |t.rows|
    requires forall j :: 0 <= j < |derived.rows[k]| ==> derived.rows[k][j].Some?
    ensures Binnable(t.columns, t.rows[k])
    ensures Extends(derived.columns, derived.rows[k], t.columns, t.rows[k])
  {
    var row := derived.rows[k];
    forall c | c in t.columns && c != CountyColumn && !DerivedLabel(c)
      ensures c in derived.columns && At(derived.columns, row, c) == At(t.columns, t.rows[k], c)
    {
      KeptCell(t, coded, derived, k, c);
    }
    PreparedRow(t, coded, derived, k);
  }

  /** A cell of a binnable row's successor is present, whatever its label. */
  lemma SurvivingCell(t: Table, coded: Table, derived: Table, k: nat, c: string)
    requires Rectangular(t) && CountyCoded(t, coded)
    requires Rectangular(coded) && Derived(coded, derived) && k < |t.rows|
    requires OrangeDummy !in t.columns && VenturaDummy !in t.columns
    requires Binnable(t.columns, t.rows[k]) && c in derived.columns
    ensures At(derived.columns, derived.rows[k], c).Some?
  {
    var row := t.rows[k];
    if DerivedLabel(c) {
      assert At(coded.columns, coded.rows[k], SquareFeet) == At(t.columns, row, SquareFeet);
      assert At(coded.columns, coded.rows[k], Bedrooms) == At(t.columns, row, Bedrooms);
      assert At(coded.columns, coded.rows[k], Bathrooms) == At(t.columns, row, Bathrooms);
    } else if c in t.columns && c != CountyColumn {
      KeptCell(t, coded, derived, k, c);
    } else if c == CountyColumn {
      assert At(derived.columns, derived.rows[k], c) == At(coded.columns, coded.rows[k], c);
    } else {
      assert At(derived.columns, derived.rows[k], c) == At(coded.columns, coded.rows[k], c);
    }
  }

  /** With unique labels and no indicator-named column in `t`, a binnable
      row leaves both stages without a missing cell. */
  lemma BinnableRowComplete(t: Table, coded: Table, derived: Table, k: nat)
    requires Rectangular(t) && CountyCoded(t, coded)
    requires Rectangular(coded) && Derived(coded, derived) && k < |t.rows|
    requires Distinct(t.columns) && OrangeDummy !in t.columns && VenturaDummy !in t.columns
    requires Binnable(t.columns, t.rows[k])
    ensures k < |derived.rows| && MissingCells(derived.rows[k]) == 0
  {
    forall j | 0 <= j < |derived.rows[k]|
      ensures derived.rows[k][j].Some?
    {
      IndexOfDistinct(derived.columns, j);
      SurvivingCell(t, coded, derived, k, derived.columns[j]);
    }
  }

  /** Every complete row of `derived` extends the binnable row of `t` at
      the same position. */
  ghost predicate CompleteRowsBinnable(t: Table, derived: Table)
    requires Rectangular(t) && Rectangular(derived) && |derived.rows| == |t.rows|
  {
    forall k :: 0 <= k < |t.rows| && (forall j :: 0 <= j < |derived.rows[k]| ==> derived.rows[k][j].Some?) ==>
      Binnable(t.columns, t.rows[k]) && Extends(derived.columns, derived.rows[k], t.columns, t.rows[k])
  }

  /** The two stages make every complete row extend a binnable row. */
  lemma StagesCompleteRowsBinnable(t: Table, coded: Table, derived: Table)
    requires Rectangular(t) && CountyCoded(t, coded)
    requires Rectangular(coded) && Derived(coded, derived)
    ensures Rectangular(derived) && |derived.rows| == |t.rows| && CompleteRowsBinnable(t, derived)
  {
    forall k | 0 <= k < |t.rows| && (forall j :: 0 <= j < |derived.rows[k]| ==> derived.rows[k][j].Some?)
      ensures Binnable(t.columns, t.rows[k]) && Extends(derived.columns, derived.rows[k], t.columns, t.rows[k])
    {
      KeptRowBinnable(t, coded, derived, k);
    }
  }

  /** The positions of the rows of `t` that lines 106-134 return: those
      whose row leaves both stages without a missing cell, in order. */
  function Survivors(t: Table): seq<nat>
    requires Rectangular(t)
  {
    match CodeCounty(t)
    case Err(_) => []
    case Ok(coded) =>
      match Derive(coded)
      case Err(_) => []
      case Ok(derived) => Kept(Mask(derived.rows, Complete()))
  }

  /** Which rows of `t` are binnable. */
  function BinnableMask(t: Table): (mask: seq<bool>)
    requires Rectangular(t)
    ensures |mask| == |t.rows|
  {
    seq(|t.rows|, k requires 0 <= k < |t.rows| => Binnable(t.columns, t.rows[k]))
  }

  /** The `n`-th row the final `dropna()` keeps extends the binnable row of
      `t` at the `n`-th surviving position. */
  lemma SurvivorRows(t: Table, coded: Table, derived: Table)
    requires Rectangular(t) && CountyCoded(t, coded)
    requires Rectangular(coded) && Derived(coded, derived)
    ensures var idx, r := Kept(Mask(derived.rows, Complete())), DropNaAny(derived);
            |r.rows| == |idx| &&
            forall n :: 0 <= n < |idx| ==>
              idx[n] < |t.rows| && Binnable(t.columns, t.rows[idx[n]]) &&
              Extends(r.columns, r.rows[n], t.columns, t.rows[idx[n]])
  {
    var idx, r := Kept(Mask(derived.rows, Complete())), DropNaAny(derived);
    StagesCompleteRowsBinnable(t, coded, derived);
    DropNaAnyPositions(derived);
    forall n | 0 <= n < |idx|
      ensures idx[n] < |t.rows| && Binnable(t.columns, t.rows[idx[n]]) &&
              Extends(r.columns, r.rows[n], t.columns, t.rows[idx[n]])
    {
      var k := idx[n];
      assert Mask(derived.rows, Complete())[k];
      assert MissingCells(derived.rows[k]) == 0;
    }
  }

  /** With unique labels and no indicator-named column in `t`, the surviving
      positions are exactly those of the binnable rows. */
  lemma SurvivorsBinnable(t: Table, coded: Table, derived: Table)
    requires Rectangular(t) && CountyCoded(t, coded)
    requires Rectangular(coded) && Derived(coded, derived)
    requires Distinct(t.columns) && OrangeDummy !in t.columns && VenturaDummy !in t.columns
    ensures Kept(Mask(derived.rows, Complete())) == Kept(BinnableMask(t))
  {
    StagesCompleteRowsBinnable(t, coded, derived);
    forall k | 0 <= k < |t.rows|
      ensures Mask(derived.rows, Complete())[k] == BinnableMask(t)[k]
    {
      if Binnable(t.columns, t.rows[k]) {
        BinnableRowComplete(t, coded, derived, k);
      }
    }
    assert Mask(derived.rows, Complete()) == BinnableMask(t);
  }

  /** Lines 106-134 return the surviving rows of the frame they are given,
      in order and one returned row per surviving row, each extending a
      binnable row; when its labels are unique and none is named like an
      indicator, the surviving rows are exactly the binnable ones. */
  lemma PrepareRows(t: Table)
    requires Rectangular(t)
    ensures var r, idx := Prepare(t), Survivors(t);
            r.Ok? ==> (Increasing(idx) && |r.value.rows| == |idx| &&
              forall n :: 0 <= n < |idx| ==>
                idx[n] < |t.rows| && Binnable(t.columns, t.rows[idx[n]]) &&
                Extends(r.value.columns, r.value.rows[n], t.columns, t.rows[idx[n]]))
    ensures var r := Prepare(t);
            r.Ok? && Distinct(t.columns) && OrangeDummy !in t.columns && VenturaDummy !in t.columns ==>
              Survivors(t) == Kept(BinnableMask(t))
  {
    var r := Prepare(t);
    if r.Ok? {
      var coded := CodeCounty(t).value;
      var derived := Derive(coded).value;
      assert r.value == DropNaAny(derived);
      assert Survivors(t) == Kept(Mask(derived.rows, Complete()));
      SurvivorRows(t, coded, derived);
      if Distinct(t.columns) && OrangeDummy !in t.columns && VenturaDummy !in t.columns {
        SurvivorsBinnable(t, coded, derived);
      }
    }
  }

  /** `data_prep` on a frame with unique labels, none named like an
      indicator: the `n`-th returned row extends the `n`-th binnable row of
      the reduced frame, and there is one returned row per binnable row. */
  lemma PrepRows(t: Table, propColumn: real, propRow: real)
    requires Valid(t) && OrangeDummy !in t.columns && VenturaDummy !in t.columns
    ensures var reduced, r := HandleMissing(t, propColumn, propRow), Prep(t, propColumn, propRow);
            var idx := Kept(BinnableMask(reduced));
            r.Ok? ==> (|r.value.rows| == |idx| &&
              forall n :: 0 <= n < |idx| ==>
                idx[n] < |reduced.rows| && Extends(r.value.columns, r.value.rows[n], reduced.columns, reduced.rows[idx[n]]))
  {
    var reduced := HandleMissing(t, propColumn, propRow);
    SubsequenceDistinct(reduced.columns, t.columns);
    assert OrangeDummy !in reduced.columns && VenturaDummy !in reduced.columns by {
      var keep := Kept(DenseColumns(t, Threshold(propColumn, |t.rows|)));
      assert forall k :: 0 <= k < |reduced.columns| ==> reduced.columns[k] == t.columns[keep[k]];
    }
    PrepareRows(reduced);
  }

  // ---------------------------------------------------------------------
  // data_prep on a mutable frame

  /** The caller's frame after `data_prep`: the reduction and the
      `county_code_bin` assignment happen on it before `pd.concat` makes a
      new frame, so the caller sees both (or only the reduction when binning
      the county raised). */
  function CallerAfter(t: Table, propColumn: real, propRow: real): (r: Table)
    requires Rectangular(t)
    ensures Rectangular(r)
  {
    var reduced := HandleMissing(t, propColumn, propRow);
    match BinColumn(reduced, Fips, FipsEdges)
    case Err(_) => reduced
    case Ok(county) => SetColumn(reduced, CountyColumn, county)
  }

  /** Lines 117-132 on a frame object: each derived column is assigned
      into `f` in turn. Only the first two steps can raise: binning the area
      leaves `f` as it was, the room total leaves `f` with the size band. */
  method DeriveInPlace(f: Frame) returns (e: Option<Error>)
    requires f.Valid()
    modifies f
    ensures f.Valid()
    ensures e.None? <==> Derive(old(f.Snapshot())).Ok?
    ensures e.None? ==> f.Snapshot() == Derive(old(f.Snapshot())).value
    ensures e.Some? ==> e.value == Derive(old(f.Snapshot())).error
    ensures e.Some? && Faulty(old(f.Snapshot()), SquareFeet) ==> f.Snapshot() == old(f.Snapshot())
    ensures e.Some? && !Faulty(old(f.Snapshot()), SquareFeet) ==>
              f.Snapshot() == SetColumn(old(f.Snapshot()), HomeSizes,
                                        BinColumn(old(f.Snapshot()), SquareFeet, SquareFeetEdges).value)
  {
    ghost var t := f.Snapshot();
    var sizes := BinColumn(f.Snapshot(), SquareFeet, SquareFeetEdges);
    if sizes.Err? {
      return Some(sizes.error);
    }
    f.Assign(HomeSizes, sizes.value);
    ghost var t1 := f.Snapshot();
    SetColumnKeeps(t, HomeSizes, sizes.value, Bedrooms);
    SetColumnKeeps(t, HomeSizes, sizes.value, Bathrooms);
    var rooms := SumColumns(f.Snapshot(), Bedrooms, Bathrooms);
    if rooms.Err? {
      return Some(rooms.error);
    }
    f.Assign(TotalRooms, rooms.value);
    ghost var t2 := f.Snapshot();
    SetColumnKeeps(t1, TotalRooms, rooms.value, Bedrooms);
    SetColumnKeeps(t1, TotalRooms, rooms.value, Bathrooms);
    var beds := BinColumn(f.Snapshot(), Bedrooms, RoomEdges);
    assert beds.Ok?;
    f.Assign(BedroomBins, beds.value);
    ghost var t3 := f.Snapshot();
    SetColumnKeeps(t2, BedroomBins, beds.value, Bathrooms);
    var baths := BinColumn(f.Snapshot(), Bathrooms, RoomEdges);
    assert baths.Ok?;
    f.Assign(BathroomBins, baths.value);
    return None;
  }

  /** `data_prep(df, ...)` on a frame object: returns a new frame holding
      the prepared table, and leaves the caller's frame reduced and, when the
      county could be binned, with `county_code_bin` assigned. */
  method DataPrep(df: Frame, propColumn: real, propRow: real) returns (r: Result<Frame>)
    requires df.Valid()
    modifies df
    ensures var expected := Prep(old(df.Snapshot()), propColumn, propRow);
            (r.Ok? <==> expected.Ok?) && (r.Err? ==> r.error == expected.error)
    ensures r.Ok? ==> (fresh(r.value) && r.value.Valid() &&
              r.value.Snapshot() == Prep(old(df.Snapshot()), propColumn, propRow).value)
    ensures df.Valid() && df.Snapshot() == CallerAfter(old(df.Snapshot()), propColumn, propRow)
  {
    HandleMissingValues(df, propColumn, propRow);
    ghost var reduced := df.Snapshot();
    var county := BinColumn(df.Snapshot(), Fips, FipsEdges);
    if county.Err? {
      return Err(county.error);
    }
    df.Assign(CountyColumn, county.value);
    var joined := new Frame(Concat(df.Snapshot(), CountyDummies(county.value)));
    assert joined.Snapshot() == CodeCounty(reduced).value;
    var e := DeriveInPlace(joined);
    if e.Some? {
      return Err(e.value);
    }
    var result := new Frame(DropNaAny(joined.Snapshot()));
    return Ok(result);
  }
}
