/** The two tables the neutrino likelihood reads: the IC86-II effective-area
    table and the IC86-VII event list. In `neutrino_likelihood.py` they
    are module-level data frames; here they are passed explicitly. */
module Tables {

  /** One effective-area bin, in the column order of the table:
      log10(E/GeV) min and max, declination min and max in degrees, and the
      effective area in cm^2. */
  datatype AreaRow = AreaRow(eMin: real, eMax: real, decMin: real, decMax: real, area: real)

  /** One detected event: its reconstructed energy in log10(E/GeV) and its
      declination in degrees. */
  datatype Event = Event(energy: real, dec: real)

  /** The double-precision value of pi used by the module. */
  const Pi: real := 3.141592653589793

  /** Declination half-open bin test [decMin, decMax). */
  predicate InDecBin(r: AreaRow, dec: real)
  {
    r.decMin <= dec < r.decMax
  }

  /** Energy half-open bin test [eMin, eMax). */
  predicate InEnergyBin(r: AreaRow, e: real)
  {
    r.eMin <= e < r.eMax
  }

  /** The half-open cell test used by the effective-area lookup. */
  predicate InCell(r: AreaRow, e: real, dec: real)
  {
    InEnergyBin(r, e) && InDecBin(r, dec)
  }

  /** The closed cell test used by the sky-location density: both ends of
      both intervals belong to the row. */
  predicate InClosedCell(r: AreaRow, e: real, dec: real)
  {
    r.eMin <= e <= r.eMax && r.decMin <= dec <= r.decMax
  }

  function DecBin(dec: real): AreaRow -> bool
  {
    r => InDecBin(r, dec)
  }

  function EnergyBin(e: real): AreaRow -> bool
  {
    r => InEnergyBin(r, e)
  }

  function Cell(e: real, dec: real): AreaRow -> bool
  {
    r => InCell(r, e, dec)
  }

  function ClosedCell(e: real, dec: real): AreaRow -> bool
  {
    r => InClosedCell(r, e, dec)
  }

  /** Half the width of a row's energy bin: the epsilon of the rectangle
      integrals. */
  function HalfWidth(r: AreaRow): real
  {
    (r.eMax - r.eMin) / 2.0
  }

  /** x^-2, defined where x is not zero. */
  function InvSquare(x: real): real
    requires x != 0.0
  {
    1.0 / (x * x)
  }

  /** x^-2 is positive and undoes multiplication by x twice. */
  lemma InvSquareInverse(x: real)
    requires x != 0.0
    ensures InvSquare(x) > 0.0
    ensures InvSquare(x) * x * x == 1.0
  {
    assert x * x > 0.0;
  }

  /** Every row has an energy bin of non-zero width, so its half-width can be
      raised to the power -2. */
  predicate NonDegenerate(rows: seq<AreaRow>)
  {
    forall r :: r in rows ==> r.eMin != r.eMax
  }

  /** The shape a real effective-area table has: bins of positive energy
      width, non-negative declination width, and non-negative area. */
  predicate WellFormed(rows: seq<AreaRow>)
  {
    forall r :: r in rows ==> r.eMin < r.eMax && r.decMin <= r.decMax && r.area >= 0.0
  }

  /** Half-width of the event energy window, in log10(E/GeV). */
  const EnergyHalfWindow: real := 0.01

  /** Half-width of the event declination window, in degrees. */
  const DecHalfWindow: real := 1.0

  /** Closed energy window [eps - 0.01, eps + 0.01]. */
  predicate InEnergyWindow(ev: Event, eps: real)
  {
    eps - EnergyHalfWindow <= ev.energy <= eps + EnergyHalfWindow
  }

  /** Closed declination window [dec - 1, dec + 1]. */
  predicate InDecWindow(ev: Event, dec: real)
  {
    dec - DecHalfWindow <= ev.dec <= dec + DecHalfWindow
  }

  function EnergyWindow(eps: real): Event -> bool
  {
    ev => InEnergyWindow(ev, eps)
  }

  function SkyWindow(dec: real, eps: real): Event -> bool
  {
    ev => InEnergyWindow(ev, eps) && InDecWindow(ev, dec)
  }
}
