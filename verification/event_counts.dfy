/** The two densities read off the event list: the fraction of events whose
    energy lies within 0.01 of a queried energy, and the number of events
    that fall in a small energy and declination window. */
module EventCounts {
  import opened Seqs
  import opened Tables

  /** A count over a positive total is a fraction that scales back to the
      count. */
  lemma CountRatio(k: real, n: real)
    requires 0.0 <= k <= n && n > 0.0
    ensures 0.0 <= k / n <= 1.0
    ensures k / n * n == k
  {
  }

  /** The window count over the number of events is a fraction, and it
      scales back to the number of window positions. */
  lemma WindowShareFacts(events: seq<Event>, eps: real)
    requires |events| > 0
    ensures 0.0 <= |Filter(events, EnergyWindow(eps))| as real / |events| as real <= 1.0
    ensures |Filter(events, EnergyWindow(eps))| as real / |events| as real * |events| as real
              == |Positions(events, EnergyWindow(eps))| as real
  {
    hide *;
    FilterLengthIsPositionCount(events, EnergyWindow(eps));
    CountRatio(|Filter(events, EnergyWindow(eps))| as real, |events| as real);
  }

  /** Fraction of the events whose energy lies in the closed window
      [eps - 0.01, eps + 0.01]. It is a probability, and times the number of
      events it is the number of window positions in the list. An empty list
      has no fraction. */
  function SigmaNuE(events: seq<Event>, eps: real): (p: real)
    requires |events| > 0
    ensures 0.0 <= p <= 1.0
    ensures p * |events| as real == |Positions(events, EnergyWindow(eps))| as real
  {
    // The count enters only through WindowShareFacts.
    hide Filter, Positions;
    WindowShareFacts(events, eps);
    |Filter(events, EnergyWindow(eps))| as real / |events| as real
  }

  lemma ScaleOne(p: real, n: real)
    requires n > 0.0 && p * n == n
    ensures p == 1.0
  {
  }

  lemma ScaleZero(p: real, n: real)
    requires n > 0.0 && p * n == 0.0
    ensures p == 0.0
  {
  }

  /** Every event in the window gives fraction one; none gives zero. */
  lemma SigmaNuEExtremes(events: seq<Event>, eps: real)
    requires |events| > 0
    ensures (forall ev :: ev in events ==> InEnergyWindow(ev, eps)) ==> SigmaNuE(events, eps) == 1.0
    ensures (forall ev :: ev in events ==> !InEnergyWindow(ev, eps)) ==> SigmaNuE(events, eps) == 0.0
  {
    hide SigmaNuE, Filter;
    FilterLengthIsPositionCount(events, EnergyWindow(eps));
    if forall ev :: ev in events ==> InEnergyWindow(ev, eps) {
      FilterAll(events, EnergyWindow(eps));
      ScaleOne(SigmaNuE(events, eps), |events| as real);
    }
    if forall ev :: ev in events ==> !InEnergyWindow(ev, eps) {
      forall j | 0 <= j < |events| ensures !EnergyWindow(eps)(events[j]) {
        assert events[j] in events;
      }
      FilterHead(events, EnergyWindow(eps));
      ScaleZero(SigmaNuE(events, eps), |events| as real);
    }
  }

  /** Both ends of the energy window count. */
  lemma SigmaNuEClosedWindow()
    ensures SigmaNuE([Event(1.01, 0.0), Event(0.99, 0.0), Event(1.02, 0.0)], 1.0) * 3.0 == 2.0
  {
    var events := [Event(1.01, 0.0), Event(0.99, 0.0), Event(1.02, 0.0)];
    assert Positions(events, EnergyWindow(1.0)) == {0, 1};
  }

  /** Number of events inside both the closed energy window
      [eps - 0.01, eps + 0.01] and the closed declination window
      [dec - 1, dec + 1]. The zero test in `P_skyloc_data` changes nothing:
      the count is returned either way. */
  function SkylocData(events: seq<Event>, dec: real, eps: real): (n: nat)
    ensures n <= |events|
    ensures n == |Positions(events, SkyWindow(dec, eps))|
  {
    FilterLengthIsPositionCount(events, SkyWindow(dec, eps));
    var k := |Filter(events, SkyWindow(dec, eps))|;
    if k != 0 then k else 0
  }

  /** The sky count never exceeds the energy-window count: every event in the
      sky window is also in the energy window, so the count is at most the
      energy fraction times the number of events. */
  lemma {:induction false} SkylocDataWithinEnergyCount(events: seq<Event>, dec: real, eps: real)
    requires |events| > 0
    ensures SkylocData(events, dec, eps) as real <= SigmaNuE(events, eps) * |events| as real
  {
    FilterLengthMonotone(events, SkyWindow(dec, eps), EnergyWindow(eps));
    FilterLengthIsPositionCount(events, EnergyWindow(eps));
  }

  /** Events outside the declination window never count, whatever their
      energy and wherever they sit in the list. */
  lemma SkylocDataIgnoresFarEvents(events: seq<Event>, far: seq<Event>, k: int, dec: real, eps: real)
    requires 0 <= k <= |events|
    requires forall ev :: ev in far ==> !InDecWindow(ev, dec)
    ensures SkylocData(events[..k] + far + events[k..], dec, eps) == SkylocData(events, dec, eps)
  {
    hide Filter, Positions;
    var win := SkyWindow(dec, eps);
    assert forall ev :: ev in far ==> !win(ev);
    FilterNone(far, win);
    FilterAppend(events[..k] + far, events[k..], win);
    FilterAppend(events[..k], far, win);
    FilterAppend(events[..k], events[k..], win);
    assert events[..k] + events[k..] == events;
  }
}
