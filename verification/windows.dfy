/** The two closed-form densities of the neutrino module: the uniform time
    coincidence window and the uniform density over the sky. */
module Windows {
  import opened Tables

  /** Ends of the neutrino-source time coincidence window, in seconds. */
  const TPlus: real := 250.0
  const TMinus: real := -250.0

  /** Whether the offset t_nu - t_s lies in the closed window [-250, 250]. */
  predicate InTimeWindow(tNu: real, tS: real)
  {
    TMinus <= tNu - tS <= TPlus
  }

  /** Signal density of the neutrino arrival time given the source time:
      uniform over the closed window, zero outside it. Inside the window the
      density times the window length is one. */
  function SignalNuT(tNu: real, tS: real): (p: real)
    ensures p == 1.0 / 500.0 <==> -250.0 <= tNu - tS <= 250.0
    ensures p == 0.0 <==> !(-250.0 <= tNu - tS <= 250.0)
    ensures p > 0.0 ==> p * (TPlus - TMinus) == 1.0
  {
    if InTimeWindow(tNu, tS) then 1.0 / (TPlus - TMinus) else 0.0
  }

  /** The time density depends on the two times only through their
      difference. */
  lemma SignalNuTShift(tNu: real, tS: real, d: real)
    ensures SignalNuT(tNu + d, tS + d) == SignalNuT(tNu, tS)
  {
    assert (tNu + d) - (tS + d) == tNu - tS;
  }

  /** Both ends of the time window are included. */
  lemma SignalNuTEnds(tS: real)
    ensures SignalNuT(tS + 250.0, tS) == 1.0 / 500.0
    ensures SignalNuT(tS - 250.0, tS) == 1.0 / 500.0
  {
  }

  /** Whether (ra, dec) is a valid sky position: 0 <= ra <= 360 and
      -90 <= dec <= 90, all four bounds included. */
  predicate OnSky(ra: real, dec: real)
  {
    0.0 <= ra <= 360.0 && -90.0 <= dec <= 90.0
  }

  /** Uniform source density over the whole sky: 1/(4 pi) on valid
      positions, zero elsewhere. */
  function SkylocSource(ra: real, dec: real): (p: real)
    ensures p * 4.0 * Pi == 1.0 <==> 0.0 <= ra <= 360.0 && -90.0 <= dec <= 90.0
    ensures p == 0.0 <==> !(0.0 <= ra <= 360.0 && -90.0 <= dec <= 90.0)
  {
    if OnSky(ra, dec) then 1.0 / (4.0 * Pi) else 0.0
  }

  /** The density at the point (180, 0) is 1/(4 pi), and the corner points of
      the sky rectangle are included. */
  lemma SkylocSourceExamples()
    ensures SkylocSource(180.0, 0.0) == 1.0 / (4.0 * Pi)
    ensures SkylocSource(360.0, 90.0) == 1.0 / (4.0 * Pi)
    ensures SkylocSource(0.0, -90.0) == 1.0 / (4.0 * Pi)
    ensures SkylocSource(360.5, 0.0) == 0.0
  {
  }
}
