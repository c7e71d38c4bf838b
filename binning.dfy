/** The `pd.cut` binnings of `data_prep` (wrangle.py:106-108, 117-119,
    125-132): right-closed intervals `(e[i], e[i+1]]` between consecutive
    edges, so the lowest edge itself (0) and anything above the highest edge
    fall in no bin. */
module Binning {
  import opened Tables

  predicate StrictlyIncreasing(edges: seq<real>) {
    forall a, b :: 0 <= a < b < |edges| ==> edges[a] < edges[b]
  }

  /** The `bins` argument of `pd.cut`: strictly increasing edges. */
  type Edges = s: seq<real> | StrictlyIncreasing(s)

  /** `pd.cut(x, bins=edges)`: the index of the interval holding `x`. */
  function Cut(edges: seq<real>, x: real): (r: Option<nat>)
    requires StrictlyIncreasing(edges)
    ensures r.Some? ==> r.value + 1 < |edges| && edges[r.value] < x <= edges[r.value + 1]
    ensures forall i :: 0 <= i < |edges| - 1 && edges[i] < x <= edges[i + 1] ==> r == Some(i)
  {
    if |edges| < 2 then None
    else if x <= edges[0] then None
    else if x <= edges[1] then Some(0)
    else
      match Cut(edges[1..], x)
      case None => None
      case Some(k) => Some(k + 1)
  }

  const FipsEdges: Edges := [0.0, 6037.0, 6059.0, 6111.0]
  const SquareFeetEdges: Edges := [0.0, 1800.0, 4000.0, 6000.0, 25000.0]
  const RoomEdges: Edges := [0.0, 2.0, 4.0, 6.0, 15.0]

  /** The categories of `county_code_bin`, in interval order. */
  datatype County = LosAngeles | Orange | Ventura

  /** The categories of `home_sizes`, `bedroom_bins` and `bathroom_bins`, in
      interval order (their labels all run Small, Medium, Large, Extra-Large). */
  datatype Band = Small | Medium | Large | ExtraLarge

  function CountyOf(code: nat): Option<County> {
    if code == 0 then Some(LosAngeles)
    else if code == 1 then Some(Orange)
    else if code == 2 then Some(Ventura)
    else None
  }

  function BandOf(code: nat): Option<Band> {
    if code == 0 then Some(Small)
    else if code == 1 then Some(Medium)
    else if code == 2 then Some(Large)
    else if code == 3 then Some(ExtraLarge)
    else None
  }

  /** The county of a fips code. */
  function CountyBin(fips: real): (r: Option<County>)
    ensures r == Some(LosAngeles) <==> 0.0 < fips <= 6037.0
    ensures r == Some(Orange) <==> 6037.0 < fips <= 6059.0
    ensures r == Some(Ventura) <==> 6059.0 < fips <= 6111.0
    ensures r == None <==> fips <= 0.0 || fips > 6111.0
  {
    assert FipsEdges[1] == 6037.0 && FipsEdges[2] == 6059.0 && FipsEdges[3] == 6111.0;
    match Cut(FipsEdges, fips)
    case None => None
    case Some(k) => CountyOf(k)
  }

  /** The size band of a finished area in square feet. */
  function SizeBin(squareFeet: real): (r: Option<Band>)
    ensures r == Some(Small) <==> 0.0 < squareFeet <= 1800.0
    ensures r == Some(Medium) <==> 1800.0 < squareFeet <= 4000.0
    ensures r == Some(Large) <==> 4000.0 < squareFeet <= 6000.0
    ensures r == Some(ExtraLarge) <==> 6000.0 < squareFeet <= 25000.0
    ensures r == None <==> squareFeet <= 0.0 || squareFeet > 25000.0
  {
    assert SquareFeetEdges[2] == 4000.0 && SquareFeetEdges[3] == 6000.0 && SquareFeetEdges[4] == 25000.0;
    match Cut(SquareFeetEdges, squareFeet)
    case None => None
    case Some(k) => BandOf(k)
  }

  /** The band of a bedroom or bathroom count. */
  function RoomBin(count: real): (r: Option<Band>)
    ensures r == Some(Small) <==> 0.0 < count <= 2.0
    ensures r == Some(Medium) <==> 2.0 < count <= 4.0
    ensures r == Some(Large) <==> 4.0 < count <= 6.0
    ensures r == Some(ExtraLarge) <==> 6.0 < count <= 15.0
    ensures r == None <==> count <= 0.0 || count > 15.0
  {
    assert RoomEdges[2] == 4.0 && RoomEdges[3] == 6.0 && RoomEdges[4] == 15.0;
    match Cut(RoomEdges, count)
    case None => None
    case Some(k) => BandOf(k)
  }

  /** The boundaries the right-closed intervals put where they do. */
  lemma Boundaries()
    ensures SizeBin(1800.0) == Some(Small) && SizeBin(1801.0) == Some(Medium)
    ensures CountyBin(6037.0) == Some(LosAngeles) && CountyBin(6059.0) == Some(Orange)
    ensures CountyBin(0.0) == None && SizeBin(0.0) == None && RoomBin(0.0) == None
    ensures RoomBin(2.0) == Some(Small) && RoomBin(15.0) == Some(ExtraLarge) && RoomBin(16.0) == None
  {
  }
}
