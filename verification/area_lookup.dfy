/** The two row lookups over the effective-area table: `A_eff`, which selects a
    bin with half-open intervals, and `P_skyloc_Aeff`, which selects one with
    closed intervals and turns its area into a sky density. Both filter the
    table and take the first remaining row; `None` stands for the index error
    raised when no row is left. */
module AreaLookup {
  import opened Seqs
  import opened Tables

  /** Effective area of the bin containing (e, dec), with the half-open tests
      eMin <= e < eMax and decMin <= dec < decMax. It is defined exactly when
      some row matches, and then it is the area of the first matching row in
      table order. */
  function AEff(rows: seq<AreaRow>, e: real, dec: real): (r: Option<real>)
    ensures r.Some? <==> exists i :: 0 <= i < |rows| && InCell(rows[i], e, dec)
    ensures r.Some? ==> exists i :: IsFirstMatch(rows, Cell(e, dec), i) && r.value == rows[i].area
  {
    var matched := Filter(rows, Cell(e, dec));
    FilterHead(rows, Cell(e, dec));
    if |matched| == 0 then None else Some(matched[0].area)
  }

  /** When row k is the first half-open match, `A_eff` is its area. */
  lemma AEffIsFirstMatchArea(rows: seq<AreaRow>, e: real, dec: real, k: int)
    requires IsFirstMatch(rows, Cell(e, dec), k)
    ensures AEff(rows, e, dec) == Some(rows[k].area)
  {
    var r := AEff(rows, e, dec);
    var i :| IsFirstMatch(rows, Cell(e, dec), i) && r.value == rows[i].area;
    FirstMatchUnique(rows, Cell(e, dec), i, k);
  }

  /** Bins that do not overlap at the query: at most one row contains it. */
  predicate DisjointAt(rows: seq<AreaRow>, e: real, dec: real)
  {
    forall i, j :: 0 <= i < |rows| && 0 <= j < |rows| && InCell(rows[i], e, dec) && InCell(rows[j], e, dec) ==> i == j
  }

  /** On a table whose bins do not overlap, `A_eff` returns the area of the
      one bin that contains the query, whatever its position. */
  lemma AEffOfPartition(rows: seq<AreaRow>, e: real, dec: real, k: int)
    requires 0 <= k < |rows| && InCell(rows[k], e, dec)
    requires DisjointAt(rows, e, dec)
    ensures AEff(rows, e, dec) == Some(rows[k].area)
  {
    assert IsFirstMatch(rows, Cell(e, dec), k);
    AEffIsFirstMatchArea(rows, e, dec, k);
  }

  /** A row whose upper energy edge equals the query energy is never the one
      `A_eff` selects: the interval is open at eMax. */
  lemma AEffSkipsUpperEnergyEdge(rows: seq<AreaRow>, e: real, dec: real, k: int)
    requires 0 <= k < |rows| && rows[k].eMax == e
    ensures AEff(rows, e, dec).Some? ==> exists i :: i != k && IsFirstMatch(rows, Cell(e, dec), i) && AEff(rows, e, dec).value == rows[i].area
  {
  }

  /** Rows appended after a matching row do not change `A_eff`. */
  lemma AEffIgnoresLaterRows(rows: seq<AreaRow>, more: seq<AreaRow>, e: real, dec: real)
    requires AEff(rows, e, dec).Some?
    ensures AEff(rows + more, e, dec) == AEff(rows, e, dec)
  {
    var k :| IsFirstMatch(rows, Cell(e, dec), k) && AEff(rows, e, dec).value == rows[k].area;
    assert forall j :: 0 <= j <= k ==> (rows + more)[j] == rows[j];
    assert IsFirstMatch(rows + more, Cell(e, dec), k);
    AEffIsFirstMatchArea(rows + more, e, dec, k);
  }

  /** Two adjacent energy bins [1, 2) and [2, 3): at the shared edge E = 2 the
      second bin is selected. */
  lemma AEffAdjacentBins()
    ensures AEff([AreaRow(1.0, 2.0, -90.0, 90.0, 10.0), AreaRow(2.0, 3.0, -90.0, 90.0, 20.0)], 2.0, 0.0) == Some(20.0)
  {
    var rows := [AreaRow(1.0, 2.0, -90.0, 90.0, 10.0), AreaRow(2.0, 3.0, -90.0, 90.0, 20.0)];
    assert IsFirstMatch(rows, Cell(2.0, 0.0), 1);
    AEffIsFirstMatchArea(rows, 2.0, 0.0, 1);
  }

  /** An effective area converted to a sky density at energy eps:
      area * eps^-2 * (4 pi)^-1. */
  function SkyDensity(area: real, eps: real): (d: real)
    requires eps != 0.0
    ensures d * eps * eps * (4.0 * Pi) == area
  {
    var inv := InvSquare(eps);
    var d := area * inv * (1.0 / (4.0 * Pi));
    assert d * (4.0 * Pi) == area * inv;
    assert area * inv * eps * eps == area * (inv * eps * eps);
    d
  }

  /** Sky density from the effective area, with the closed tests
      eMin <= eps <= eMax and decMin <= dec <= decMax. It is defined exactly
      when some row matches, and then it is the first matching row's area
      times eps^-2 / (4 pi). A zero eps is only divided by once a row
      matches. */
  function SkylocAeff(rows: seq<AreaRow>, dec: real, eps: real): (r: Option<real>)
    requires eps != 0.0 || !(exists i :: 0 <= i < |rows| && InClosedCell(rows[i], eps, dec))
    ensures r.Some? <==> exists i :: 0 <= i < |rows| && InClosedCell(rows[i], eps, dec)
    ensures r.Some? ==> exists i :: IsFirstMatch(rows, ClosedCell(eps, dec), i) && r.value == SkyDensity(rows[i].area, eps)
  {
    var matched := Filter(rows, ClosedCell(eps, dec));
    FilterHead(rows, ClosedCell(eps, dec));
    if |matched| == 0 then None else Some(SkyDensity(matched[0].area, eps))
  }

  /** When row k is the first closed match, the sky density comes from its
      area. */
  lemma SkylocAeffIsFirstMatch(rows: seq<AreaRow>, dec: real, eps: real, k: int)
    requires eps != 0.0
    requires IsFirstMatch(rows, ClosedCell(eps, dec), k)
    ensures SkylocAeff(rows, dec, eps) == Some(SkyDensity(rows[k].area, eps))
  {
    FilterHead(rows, ClosedCell(eps, dec));
    var i :| IsFirstMatch(rows, ClosedCell(eps, dec), i) && Filter(rows, ClosedCell(eps, dec))[0] == rows[i];
    FirstMatchUnique(rows, ClosedCell(eps, dec), i, k);
  }

  /** Every half-open match is a closed match, so wherever `A_eff` is defined
      the closed lookup is defined too, and the closed lookup's row comes no
      later in the table than the half-open one's. */
  lemma ClosedLookupNoLater(rows: seq<AreaRow>, dec: real, eps: real, i: int)
    requires eps != 0.0
    requires IsFirstMatch(rows, Cell(eps, dec), i)
    ensures SkylocAeff(rows, dec, eps).Some?
    ensures exists k :: k <= i && IsFirstMatch(rows, ClosedCell(eps, dec), k)
  {
    assert ClosedCell(eps, dec)(rows[i]);
    FilterHead(rows, ClosedCell(eps, dec));
    var k :| IsFirstMatch(rows, ClosedCell(eps, dec), k);
    assert k <= i;
  }

  /** Away from the upper edges of every bin the two tests agree, and then
      the sky density is exactly A_eff * eps^-2 / (4 pi). */
  lemma LookupsAgreeOffUpperEdges(rows: seq<AreaRow>, dec: real, eps: real)
    requires eps != 0.0 || !(exists i :: 0 <= i < |rows| && InClosedCell(rows[i], eps, dec))
    requires forall r :: r in rows ==> r.eMax != eps && r.decMax != dec
    ensures AEff(rows, eps, dec).None? <==> SkylocAeff(rows, dec, eps).None?
    ensures AEff(rows, eps, dec).Some? ==>
              SkylocAeff(rows, dec, eps) == Some(SkyDensity(AEff(rows, eps, dec).value, eps))
  {
    assert forall j :: 0 <= j < |rows| ==> (Cell(eps, dec)(rows[j]) <==> ClosedCell(eps, dec)(rows[j])) by {
      forall j | 0 <= j < |rows| ensures Cell(eps, dec)(rows[j]) <==> ClosedCell(eps, dec)(rows[j]) {
        assert rows[j] in rows;
      }
    }
    FilterCongruent(rows, Cell(eps, dec), ClosedCell(eps, dec));
  }

  /** At the shared edge E = 2 of bins [1, 2] and [2, 3] the closed lookup
      selects the first bin, where the half-open lookup selects the second. */
  lemma SkylocAeffAdjacentBins()
    ensures SkylocAeff([AreaRow(1.0, 2.0, -90.0, 90.0, 10.0), AreaRow(2.0, 3.0, -90.0, 90.0, 20.0)], 0.0, 2.0) == Some(SkyDensity(10.0, 2.0))
  {
    var rows := [AreaRow(1.0, 2.0, -90.0, 90.0, 10.0), AreaRow(2.0, 3.0, -90.0, 90.0, 20.0)];
    assert IsFirstMatch(rows, ClosedCell(2.0, 0.0), 0);
    SkylocAeffIsFirstMatch(rows, 0.0, 2.0, 0);
  }
}
