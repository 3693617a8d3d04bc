# Neutrino likelihood densities, modelled in Dafny

This project models the neutrino-channel probability functions of the
multi-messenger likelihood engine (`core/likelihood/neutrino_likelihood.py`).
The engine ranks coincidences between a high-energy neutrino and a
gravitational-wave event. The modelled functions are:

- the time coincidence window `P_signal_nu_t`;
- the uniform sky density `P_skyloc_source`;
- the two effective-area lookups `A_eff` (half-open bins) and
  `P_skyloc_Aeff` (closed bins);
- the two Monte-Carlo rectangle integrals `P_signal_nu_source` (declination)
  and `P_signal_nu_epsilon` (energy, with `P_signal_nu_source` nested per row);
- the two event-list estimators `P_sigma_nu_E` (fraction of events in an
  energy window) and `P_skyloc_data` (count of events in an energy and
  declination window).

The two tables that the module loads at import time are explicit
parameters here:

- the IC86-II effective-area table is a `seq<AreaRow>`, with its columns in
  the positional order the code reads (`eMin, eMax, decMin, decMax, area`);
- the IC86-VII event list is a `seq<Event>` (`energy, dec`).

All quantities are exact `real`s. Pi is the double-precision literal of
`np.pi`.

Failure modes are made explicit:

- The two lookups raise an index error when no row matches. They return
  `Option`, with `None` for that error.
- The ratios divide by numbers the code does not check. A zero denominator
  is excluded by a `requires`, and so is a zero bin half-width that is
  raised to the power -2.
- `P_signal_nu_epsilon` raises `epsilon_nu` to the power -2 only when some
  bin contains it. So `epsilon_nu = 0` is admitted exactly when no bin does.
- `P_skyloc_Aeff` raises the index error (line 174) before it divides by
  `epsilon_nu**2` (line 175). So `epsilon_nu = 0` is admitted exactly when
  no closed cell contains the query, and the result is then `None`.

Files (one module each):

- `seqs.dfy` (`Seqs`): the order-preserving filter that stands for a
  boolean mask over a table, the first-match relation that stands for
  taking row 0 of the filtered table, and matching positions as an
  independent count.
- `tables.dfy` (`Tables`): the row datatypes, the interval tests, the
  window constants and the `eps^-2` helper.
- `windows.dfy` (`Windows`): `P_signal_nu_t` and `P_skyloc_source`.
- `area_lookup.dfy` (`AreaLookup`): `A_eff` and `P_skyloc_Aeff`.
- `energy_integrals.dfy` (`EnergyIntegrals`): `P_signal_nu_source` and
  `P_signal_nu_epsilon`, with their accumulation loops.
- `event_counts.dfy` (`EventCounts`): `P_sigma_nu_E` and `P_skyloc_data`.

`P_skyloc_Aeff` does not call `A_eff`. It repeats the lookup with closed
intervals (lines 165-170) and then scales the area by eps^-2/(4π). The two
lookups can differ only where the query lies on some row's eMax or decMax:
`AreaLookup.LookupsAgreeOffUpperEdges` proves that they agree everywhere
else. `AreaLookup.SkylocAeffAdjacentBins` exhibits a query on a shared edge
where the two lookups pick different rows.

`P_signal_nu_epsilon` takes the numerator rectangles at the query's
eps^-2 and the denominator rectangles at each bin's own half-width, so its
result can exceed 1 (see Findings). `EnergyIntegrals.SignalNuEpsilon`
models the code as written. `EnergyIntegrals.SignalNuEpsilonCorrected`
takes both at the bin's own half-width and is proved to be a probability.

## Model

| member | source | states |
|---|---|---|
| Windows.SignalNuT | core/likelihood/neutrino_likelihood.py:11-17 | the density is 1/500 exactly when -250 <= t_nu - t_s <= 250, both ends included, and 0 exactly otherwise; inside the window the density times the window length is 1 |
| Windows.SignalNuTShift | core/likelihood/neutrino_likelihood.py:14 | shifting both times by the same amount leaves the density unchanged: it depends only on t_nu - t_s |
| Windows.SignalNuTEnds | core/likelihood/neutrino_likelihood.py:14 | both ends of the window belong to it: t_nu - t_s = 250 and t_nu - t_s = -250 each give 1/500 |
| Windows.SkylocSource | core/likelihood/neutrino_likelihood.py:138-143 | the density times 4π is 1 exactly on 0 <= ra <= 360 and -90 <= dec <= 90 (closed bounds), and the density is 0 exactly elsewhere |
| Windows.SkylocSourceExamples | core/likelihood/neutrino_likelihood.py:141-143 | (180, 0) and the corners (360, 90) and (0, -90) get 1/(4π); ra = 360.5 gets 0 |
| AreaLookup.AEff | core/likelihood/neutrino_likelihood.py:36-46 | defined exactly when some row has eMin <= E < eMax and decMin <= dec < decMax; its value is the area of the first such row in table order |
| AreaLookup.AEffIsFirstMatchArea | core/likelihood/neutrino_likelihood.py:45-46 | whenever row k is the first half-open match, the lookup returns row k's area |
| AreaLookup.AEffOfPartition | core/likelihood/neutrino_likelihood.py:39-46 | on bins that do not overlap at the query, the lookup returns the area of the one containing bin, wherever it sits in the table |
| AreaLookup.AEffSkipsUpperEnergyEdge | core/likelihood/neutrino_likelihood.py:41 | a row whose eMax equals the query energy is never the selected row |
| AreaLookup.AEffIgnoresLaterRows | core/likelihood/neutrino_likelihood.py:46 | once some row matches, appending rows to the table does not change the result |
| AreaLookup.AEffAdjacentBins | core/likelihood/neutrino_likelihood.py:40-43 | with bins [1, 2) and [2, 3), the query E = 2 selects the second bin |
| AreaLookup.SkyDensity | core/likelihood/neutrino_likelihood.py:175 | the density times eps², times 4π, gives back the area |
| AreaLookup.SkylocAeff | core/likelihood/neutrino_likelihood.py:161-175 | defined exactly when some row has eMin <= eps <= eMax and decMin <= dec <= decMax; its value is the sky density of the first such row's area |
| AreaLookup.SkylocAeffIsFirstMatch | core/likelihood/neutrino_likelihood.py:172-175 | whenever row k is the first closed match, the result is row k's sky density |
| AreaLookup.ClosedLookupNoLater | core/likelihood/neutrino_likelihood.py:165-170 | wherever the half-open lookup finds row i, the closed lookup is defined and finds a row at or before i |
| AreaLookup.LookupsAgreeOffUpperEdges | core/likelihood/neutrino_likelihood.py:161-175 | when no row's eMax equals eps and no row's decMax equals dec, the two lookups fail together, and otherwise the closed one is the half-open area turned into a sky density |
| AreaLookup.SkylocAeffAdjacentBins | core/likelihood/neutrino_likelihood.py:165-167 | with bins [1, 2] and [2, 3], the query eps = 2 selects the first bin |
| Tables.InvSquareInverse | core/likelihood/neutrino_likelihood.py:65 | x^-2 is positive and multiplying it by x twice gives 1 |
| EnergyIntegrals.SourceTerm | core/likelihood/neutrino_likelihood.py:61-65 | the rectangle 0.2 · d_dec · A_eff · eps^-2 of a row, with eps its bin's half-width, is non-negative when eMin < eMax, decMin <= decMax and the area is non-negative |
| EnergyIntegrals.SourceIntegral | core/likelihood/neutrino_likelihood.py:60-77 | the sum of the rows' rectangles in table order (a definition without a contract; its properties are the Split, NonNegative and Subset lemmas) |
| EnergyIntegrals.WellFormedTermsNonNegative | core/likelihood/neutrino_likelihood.py:61-65 | on a table with increasing energy bins, non-negative declination widths and non-negative areas, every rectangle 0.2 · d_dec · A_eff · eps^-2 is non-negative |
| EnergyIntegrals.SourceIntegralSplit | core/likelihood/neutrino_likelihood.py:53-77 | the rectangles of the rows a mask keeps plus those of the rows it drops add up to the integral over the whole table |
| EnergyIntegrals.SourceIntegralNonNegative | core/likelihood/neutrino_likelihood.py:60-77 | when every rectangle is non-negative, the sum of the rectangles of any table is non-negative |
| EnergyIntegrals.SourceIntegralSubset | core/likelihood/neutrino_likelihood.py:56-77 | with non-negative rectangles, the integral over the masked rows lies between 0 and the whole-table integral |
| EnergyIntegrals.SourceShareFacts | core/likelihood/neutrino_likelihood.py:49-79 | the band's integral over the whole-table integral lies in [0, 1] with non-negative rectangles, is 1 when every row's band [decMin, decMax) contains the declination, and 0 when none does |
| EnergyIntegrals.SignalNuSource | core/likelihood/neutrino_likelihood.py:49-79 | with non-negative rectangles the ratio lies in [0, 1]; it is 1 when every row's band [decMin, decMax) contains the declination, and 0 when none does |
| EnergyIntegrals.SignalNuSourceComplement | core/likelihood/neutrino_likelihood.py:53-79 | the ratio for the rows in the band plus the ratio for the rows outside it is 1 |
| EnergyIntegrals.SourceIntegrals | core/likelihood/neutrino_likelihood.py:58-77 | the two accumulation loops compute the recursive integrals over the masked rows and over all rows; with non-negative rectangles, 0 <= top <= bottom |
| EnergyIntegrals.Rectangle | core/likelihood/neutrino_likelihood.py:95-97 | the shared factor 0.2 · d_dec · A_eff of a row's energy rectangles (a definition without a contract; WeightSum sums it weighted) |
| EnergyIntegrals.TopTerm | core/likelihood/neutrino_likelihood.py:99-101 | a row's numerator rectangle 0.2 · d_dec · A_eff · P_source · eps^-2 at the query's eps (a definition without a contract; EnergyTopFactor factors the sum of these) |
| EnergyIntegrals.BottomTerm | core/likelihood/neutrino_likelihood.py:107-114 | a row's denominator rectangle 0.2 · d_dec · A_eff · P_source · eps^-2 at the row's own half-width (a definition without a contract; BottomTermNonNegative gives its sign) |
| EnergyIntegrals.EnergyTop | core/likelihood/neutrino_likelihood.py:94-103 | the sum of the given rows' weighted rectangles, each at the query's eps^-2 (a definition without a contract; EnergyTopFactor factors it and EnergyTopAtOwnWidth relates it to EnergyBottom) |
| EnergyIntegrals.EnergyTopFactor | core/likelihood/neutrino_likelihood.py:94-103 | the energy numerator is eps^-2 times the sum of the weighted rectangles 0.2 · d_dec · A_eff · P_source |
| EnergyIntegrals.EnergyBottom | core/likelihood/neutrino_likelihood.py:105-116 | the sum over all rows of the weighted rectangle at the row's own half-width (a definition without a contract; its properties are EnergyBottomSplit, EnergyBottomNonNegative and EnergyBottomSubset) |
| EnergyIntegrals.EnergyBottomSplit | core/likelihood/neutrino_likelihood.py:105-116 | the denominator rectangles of the rows a mask keeps plus those of the rows it drops add up to the denominator over the whole table |
| EnergyIntegrals.BottomTermNonNegative | core/likelihood/neutrino_likelihood.py:107-113 | a row with eMin < eMax, decMin <= decMax, a non-negative area and a non-negative weight has a non-negative denominator rectangle |
| EnergyIntegrals.EnergyBottomNonNegative | core/likelihood/neutrino_likelihood.py:105-116 | on a well-formed table with weights in [0, 1], the denominator is non-negative |
| EnergyIntegrals.EnergyBottomSubset | core/likelihood/neutrino_likelihood.py:105-116 | on a well-formed table with weights in [0, 1], the denominator over the masked rows lies between 0 and the whole-table denominator |
| EnergyIntegrals.WeightSumNonNegative | core/likelihood/neutrino_likelihood.py:94-103 | on a well-formed table, rectangles weighted by values in [0, 1] have a non-negative sum |
| EnergyIntegrals.EnergyNumerator | core/likelihood/neutrino_likelihood.py:87-103 | the numerator is 0 when no bin [eMin, eMax) contains eps, and otherwise eps^-2 times the weighted rectangles of the containing bins |
| EnergyIntegrals.EnergyNumeratorNonNegative | core/likelihood/neutrino_likelihood.py:94-103 | on a well-formed table with weights in [0, 1], the numerator is non-negative |
| EnergyIntegrals.EnergySums | core/likelihood/neutrino_likelihood.py:92-116 | the two accumulation loops compute the numerator over the containing bins and the denominator over all rows |
| EnergyIntegrals.EnergyShareUncovered | core/likelihood/neutrino_likelihood.py:87-118 | with no containing bin, the energy ratio is 0 |
| EnergyIntegrals.EnergyShareScale | core/likelihood/neutrino_likelihood.py:100-118 | the energy ratio times its denominator is eps^-2 times the weighted rectangles of the containing bins |
| EnergyIntegrals.EnergyShareNonNegative | core/likelihood/neutrino_likelihood.py:94-118 | weights in [0, 1] on a well-formed table with a positive denominator give a non-negative ratio |
| EnergyIntegrals.EnergyShareFacts | core/likelihood/neutrino_likelihood.py:87-118 | for any row weights, the numerator over the denominator is 0 when no bin contains eps; times the denominator it is eps^-2 times the weighted rectangles of the containing bins; it is non-negative for weights in [0, 1] on a well-formed table with a positive denominator |
| EnergyIntegrals.EnergyShare | core/likelihood/neutrino_likelihood.py:82-118 | for any row weights: 0 when no bin contains eps; times the denominator, eps^-2 times the weighted rectangles of the containing bins; non-negative for weights in [0, 1] on a well-formed table with a positive denominator |
| EnergyIntegrals.SourceAt | core/likelihood/neutrino_likelihood.py:98 | each row is weighted by P_signal_nu_source at its decMin + 1, over the same table (a definition without a contract; its bounds are SourceAtProbabilities and SourceAtWellFormed) |
| EnergyIntegrals.SourceAtProbabilities | core/likelihood/neutrino_likelihood.py:98 | with non-negative rectangles, every nested P_signal_nu_source(decMin + 1) lies in [0, 1] |
| EnergyIntegrals.SourceAtWellFormed | core/likelihood/neutrino_likelihood.py:111 | on a well-formed table, the nested declination probabilities of all rows lie in [0, 1] |
| EnergyIntegrals.SignalNuEpsilon | core/likelihood/neutrino_likelihood.py:82-118 | the code as written, with every row weighted by P_signal_nu_source(decMin + 1): 0 when no bin [eMin, eMax) contains eps; non-negative on a well-formed table with a positive denominator |
| EnergyIntegrals.SignalNuEpsilonScale | core/likelihood/neutrino_likelihood.py:94-118 | with every row weighted by P_signal_nu_source(decMin + 1), the result times its denominator is eps^-2 times the weighted rectangles of the bins containing eps |
| EnergyIntegrals.SignalNuEpsilonExceedsOne | core/likelihood/neutrino_likelihood.py:82-118 | on the one-row table (0, 1, -90, 90, 1) with eps = 0.1 the result is 25, while the corrected share is 1 |
| EnergyIntegrals.BinShareBounds | core/likelihood/neutrino_likelihood.py:105-118 | on a well-formed table with weights in [0, 1], the denominator over the containing bins divided by the whole denominator lies in [0, 1] |
| EnergyIntegrals.BinShareUncovered | core/likelihood/neutrino_likelihood.py:87-90 | with no bin containing eps, the energy-bin share is 0 |
| EnergyIntegrals.BinShareAll | core/likelihood/neutrino_likelihood.py:87-90 | with every bin containing eps, the energy-bin share is 1 |
| EnergyIntegrals.BinShareFacts | core/likelihood/neutrino_likelihood.py:105-118 | the denominator over the containing bins divided by the whole denominator lies in [0, 1] for weights in [0, 1] on a well-formed table, is 0 when no bin contains eps and 1 when every bin does |
| EnergyIntegrals.BinShare | core/likelihood/neutrino_likelihood.py:82-118 | for any row weights, the share of the denominator that falls in the bins containing eps: in [0, 1] for weights in [0, 1] on a well-formed table, 0 when no bin contains eps, 1 when every bin does |
| EnergyIntegrals.SignalNuEpsilonCorrected | core/likelihood/neutrino_likelihood.py:82-118 | the energy probability with the numerator taken at each bin's own half-width: in [0, 1] on a well-formed table, 0 when no bin contains eps, 1 when every bin does |
| EnergyIntegrals.EnergyTopAtOwnWidth | core/likelihood/neutrino_likelihood.py:100-113 | rows whose half-width equals eps have numerator rectangles equal to their denominator rectangles |
| EnergyIntegrals.SignalNuEpsilonAgreesAtOwnWidth | core/likelihood/neutrino_likelihood.py:100-113 | when every bin containing eps has half-width eps, the energy probability as written equals the corrected one |
| EventCounts.WindowShareFacts | core/likelihood/neutrino_likelihood.py:128-135 | on a non-empty event list the window count over the number of events lies in [0, 1] and scales back to the number of window positions |
| EventCounts.SigmaNuE | core/likelihood/neutrino_likelihood.py:121-135 | on a non-empty event list the fraction lies in [0, 1], and times the number of events it is the number of events with energy in [eps - 0.01, eps + 0.01] |
| EventCounts.SigmaNuEExtremes | core/likelihood/neutrino_likelihood.py:128-134 | the fraction is 1 when every event is in the window and 0 when none is |
| EventCounts.SigmaNuEClosedWindow | core/likelihood/neutrino_likelihood.py:124-131 | events at eps ± 0.01 count and one at eps + 0.02 does not |
| EventCounts.SkylocData | core/likelihood/neutrino_likelihood.py:146-158 | the result is the number of events with energy in [eps - 0.01, eps + 0.01] and declination in [dec - 1, dec + 1], so it is at most the number of events |
| EventCounts.SkylocDataWithinEnergyCount | core/likelihood/neutrino_likelihood.py:150-156 | the sky-window count is at most the energy fraction times the number of events |
| EventCounts.SkylocDataIgnoresFarEvents | core/likelihood/neutrino_likelihood.py:153-158 | inserting events outside the declination window anywhere in the list, whatever their energy, leaves the count unchanged |
| Seqs.Filter | core/likelihood/neutrino_likelihood.py:45 | a mask keeps at most as many rows as it is given, and an element is in the masked list exactly when it is in the list and satisfies the mask |
| Seqs.FilterAppend | core/likelihood/neutrino_likelihood.py:153-157 | masking a concatenation gives the masked parts, concatenated in order |
| Seqs.FilterNone | core/likelihood/neutrino_likelihood.py:153-157 | a mask that no element satisfies keeps nothing |
| Seqs.FilterHead | core/likelihood/neutrino_likelihood.py:46 | a masked table is empty exactly when no row matches; otherwise its row 0 is the first matching row |
| Seqs.FilterLengthIsPositionCount | core/likelihood/neutrino_likelihood.py:134 | the length of a masked list is the number of matching positions |

## Left out

- `P_source_loc_detection` (lines 20-33) is not modelled: its value is
  `np.exp` of a Gaussian exponent, which is transcendental floating-point
  arithmetic.
- The module-level loading of the tables (lines 4-8) is I/O. The tables are
  parameters instead.
- `save_dict_to_hdf5`, `load_hdf5_to_dict` and `Poisson` in
  `core/utils/utils.py` are not modelled: they are file persistence and
  `np.exp` numerics.
- Floating-point rounding and the summation order of `np.sum` are not
  modelled: all arithmetic is exact. Pi is a fixed literal.
- A zero denominator in the ratios, or a zero bin half-width raised to
  the power -2, gives numpy's `inf`/`nan` or Python's `ZeroDivisionError`
  in the code. These inputs are excluded by preconditions and not modelled
  as values.
- pandas row selection is modelled by an order-preserving filter. The
  column order of the table is taken as given.
- EnergyIntegrals.SignalNuEpsilon: its own contract states only the zero
  case and the sign. The numerator relation is the lemma
  `EnergyIntegrals.SignalNuEpsilonScale`, because as a postcondition of the
  function it exceeds the solver's resource budget.
- EnergyIntegrals.SignalNuEpsilon: the result is not claimed to be at most
  1, because it is not (see Findings).

## Findings

| source | as written | input that shows it | evidently intended | confidence | as-written member | corrected member |
|---|---|---|---|---|---|---|
| core/likelihood/neutrino_likelihood.py:94-116 | the numerator rectangles use the query's `epsilon_nu**-2` (line 100) and the denominator rectangles use each bin's own half-width (line 108), so the documented probability (lines 84-85) can exceed 1 | one row (eMin 0, eMax 1, decMin -90, decMax 90, area 1) and eps = 0.1: numerator 3600, denominator 144, result 25 | both integrals take each bin at its own half-width, as `P_signal_nu_source` does, so the result is the share of the denominator in the bins containing eps and lies in [0, 1] | medium; not executed | EnergyIntegrals.SignalNuEpsilon, EnergyIntegrals.SignalNuEpsilonExceedsOne | EnergyIntegrals.SignalNuEpsilonCorrected |
