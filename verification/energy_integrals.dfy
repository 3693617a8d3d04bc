/** The rectangle integrals over the effective-area table:
    `P_signal_nu_source`, the share of the effective-area-weighted flux that
    falls in the declination band of the source, and `P_signal_nu_epsilon`,
    the share that falls in the energy bin of the neutrino, with each row
    weighted by `P_signal_nu_source` at its own declination. */
module EnergyIntegrals {
  import opened Seqs
  import opened Tables

  /** Width given to every energy rectangle. */
  const DEpsilon: real := 0.2

  lemma RatioBounds(top: real, bottom: real)
    requires 0.0 <= top <= bottom && bottom > 0.0
    ensures 0.0 <= top / bottom <= 1.0
  {
  }

  lemma RatioComplement(a: real, b: real, c: real)
    requires c != 0.0 && a + b == c
    ensures a / c + b / c == 1.0
  {
    assert a / c + b / c == (a + b) / c;
  }

  lemma RatioOne(a: real)
    requires a != 0.0
    ensures a / a == 1.0
  {
  }

  /** Area of a row's rectangle in the declination integral:
      d_eps * d_dec * A_eff * eps^-2, where eps is the half-width of the row's
      energy bin. */
  function SourceTerm(r: AreaRow): (t: real)
    requires r.eMin != r.eMax
    ensures r.eMin < r.eMax && r.decMin <= r.decMax && r.area >= 0.0 ==> t >= 0.0
  {
    InvSquareInverse(HalfWidth(r));
    assert r.decMin <= r.decMax && r.area >= 0.0 ==> DEpsilon * (r.decMax - r.decMin) * r.area >= 0.0;
    DEpsilon * (r.decMax - r.decMin) * r.area * InvSquare(HalfWidth(r))
  }

  /** Sum of the declination-integral rectangles of `rows`, in table order. */
  function SourceIntegral(rows: seq<AreaRow>): real
    requires NonDegenerate(rows)
  {
    if |rows| == 0 then 0.0
    else
      assert forall r :: r in rows[..|rows| - 1] ==> r in rows;
      SourceIntegral(rows[..|rows| - 1]) + SourceTerm(rows[|rows| - 1])
  }

  /** Every rectangle of the table has a non-negative area. */
  predicate NonNegativeTerms(rows: seq<AreaRow>)
  {
    NonDegenerate(rows) && forall r :: r in rows ==> SourceTerm(r) >= 0.0
  }

  /** A well-formed table has only non-negative rectangles. */
  lemma WellFormedTermsNonNegative(rows: seq<AreaRow>)
    requires WellFormed(rows)
    ensures NonNegativeTerms(rows)
  {
    forall r | r in rows ensures r.eMin != r.eMax && SourceTerm(r) >= 0.0 {
    }
  }

  lemma SourceIntegralAppend(rows: seq<AreaRow>, r: AreaRow)
    requires NonDegenerate(rows + [r])
    ensures NonDegenerate(rows)
    ensures SourceIntegral(rows + [r]) == SourceIntegral(rows) + SourceTerm(r)
  {
    assert (rows + [r])[..|rows|] == rows;
    assert forall x :: x in rows ==> x in rows + [r];
  }

  /** The rectangles of the rows a predicate keeps and of the rows it drops
      add up to the whole integral. */
  lemma {:induction false} SourceIntegralSplit(rows: seq<AreaRow>, p: AreaRow -> bool)
    requires NonDegenerate(rows)
    ensures NonDegenerate(Filter(rows, p)) && NonDegenerate(Filter(rows, Not(p)))
    ensures SourceIntegral(Filter(rows, p)) + SourceIntegral(Filter(rows, Not(p))) == SourceIntegral(rows)
  {
    if |rows| > 0 {
      var n := |rows| - 1;
      var init := rows[..n];
      assert init + [rows[n]] == rows;
      SourceIntegralAppend(init, rows[n]);
      SourceIntegralSplit(init, p);
      if p(rows[n]) {
        SourceIntegralAppend(Filter(init, p), rows[n]);
      } else {
        SourceIntegralAppend(Filter(init, Not(p)), rows[n]);
      }
    }
  }

  /** With non-negative rectangles every integral is non-negative. */
  lemma {:induction false} SourceIntegralNonNegative(rows: seq<AreaRow>)
    requires NonNegativeTerms(rows)
    ensures SourceIntegral(rows) >= 0.0
  {
    if |rows| > 0 {
      var n := |rows| - 1;
      assert rows[..n] + [rows[n]] == rows;
      SourceIntegralAppend(rows[..n], rows[n]);
      assert forall r :: r in rows[..n] ==> r in rows;
      SourceIntegralNonNegative(rows[..n]);
    }
  }

  /** With non-negative rectangles the integral over the rows a predicate
      keeps lies between zero and the integral over the whole table. */
  lemma SourceIntegralSubset(rows: seq<AreaRow>, p: AreaRow -> bool)
    requires NonNegativeTerms(rows)
    ensures NonDegenerate(Filter(rows, p))
    ensures 0.0 <= SourceIntegral(Filter(rows, p)) <= SourceIntegral(rows)
  {
    SourceIntegralSplit(rows, p);
    SourceIntegralNonNegative(Filter(rows, p));
    SourceIntegralNonNegative(Filter(rows, Not(p)));
  }

  /** The declination share's bounds and its two extreme cases. */
  lemma SourceShareFacts(rows: seq<AreaRow>, dec: real)
    requires NonDegenerate(rows)
    requires SourceIntegral(rows) != 0.0
    ensures NonDegenerate(Filter(rows, DecBin(dec)))
    ensures NonNegativeTerms(rows) ==>
              0.0 <= SourceIntegral(Filter(rows, DecBin(dec))) / SourceIntegral(rows) <= 1.0
    ensures (forall r :: r in rows ==> InDecBin(r, dec)) ==>
              SourceIntegral(Filter(rows, DecBin(dec))) / SourceIntegral(rows) == 1.0
    ensures (forall r :: r in rows ==> !InDecBin(r, dec)) ==>
              SourceIntegral(Filter(rows, DecBin(dec))) / SourceIntegral(rows) == 0.0
  {
    var matched := Filter(rows, DecBin(dec));
    var bottom := SourceIntegral(rows);
    if NonNegativeTerms(rows) {
      SourceIntegralSubset(rows, DecBin(dec));
      RatioBounds(SourceIntegral(matched), bottom);
    }
    if forall r :: r in rows ==> InDecBin(r, dec) {
      FilterAll(rows, DecBin(dec));
      RatioOne(bottom);
    }
    if forall r :: r in rows ==> !InDecBin(r, dec) {
      forall j | 0 <= j < |rows| ensures !DecBin(dec)(rows[j]) {
        assert rows[j] in rows;
      }
      FilterHead(rows, DecBin(dec));
      assert |matched| == 0;
    }
  }

  /** Probability of the source declination under the signal hypothesis: the
      integral over the rows whose band [decMin, decMax) contains `dec`,
      divided by the integral over the whole table. It is a probability when
      the rectangles are non-negative; it is one when every row's band
      contains `dec` and zero when none does. */
  function SignalNuSource(rows: seq<AreaRow>, dec: real): (p: real)
    requires NonDegenerate(rows)
    requires SourceIntegral(rows) != 0.0
    ensures NonNegativeTerms(rows) ==> 0.0 <= p <= 1.0
    ensures (forall r :: r in rows ==> InDecBin(r, dec)) ==> p == 1.0
    ensures (forall r :: r in rows ==> !InDecBin(r, dec)) ==> p == 0.0
  {
    SourceShareFacts(rows, dec);
    SourceIntegral(Filter(rows, DecBin(dec))) / SourceIntegral(rows)
  }

  /** The declination probability and that of its complement add up to one:
      the table's flux is either in the source's band or outside it. */
  lemma SignalNuSourceComplement(rows: seq<AreaRow>, dec: real)
    requires NonDegenerate(rows)
    requires SourceIntegral(rows) != 0.0
    ensures NonDegenerate(Filter(rows, Not(DecBin(dec))))
    ensures SignalNuSource(rows, dec) + SourceIntegral(Filter(rows, Not(DecBin(dec)))) / SourceIntegral(rows) == 1.0
  {
    SourceIntegralSplit(rows, DecBin(dec));
    var top := SourceIntegral(Filter(rows, DecBin(dec)));
    var rest := SourceIntegral(Filter(rows, Not(DecBin(dec))));
    var bottom := SourceIntegral(rows);
    RatioComplement(top, rest, bottom);
  }

  /** The two accumulation loops of the declination integral: the first over
      the rows of the band, the second over all rows. */
  method SourceIntegrals(rows: seq<AreaRow>, dec: real) returns (top: real, bottom: real)
    requires NonDegenerate(rows)
    ensures top == SourceIntegral(Filter(rows, DecBin(dec)))
    ensures bottom == SourceIntegral(rows)
    ensures NonNegativeTerms(rows) ==> 0.0 <= top <= bottom
  {
    hide SourceTerm;
    var matched := Filter(rows, DecBin(dec));
    top := 0.0;
    var i := 0;
    while i < |matched|
      invariant 0 <= i <= |matched|
      invariant NonDegenerate(matched[..i])
      invariant top == SourceIntegral(matched[..i])
    {
      assert matched[..i + 1] == matched[..i] + [matched[i]];
      SourceIntegralAppend(matched[..i], matched[i]);
      top := top + SourceTerm(matched[i]);
      i := i + 1;
    }
    assert matched[..i] == matched;
    bottom := 0.0;
    var j := 0;
    while j < |rows|
      invariant 0 <= j <= |rows|
      invariant NonDegenerate(rows[..j])
      invariant bottom == SourceIntegral(rows[..j])
    {
      assert rows[..j + 1] == rows[..j] + [rows[j]];
      SourceIntegralAppend(rows[..j], rows[j]);
      bottom := bottom + SourceTerm(rows[j]);
      j := j + 1;
    }
    assert rows[..j] == rows;
    if NonNegativeTerms(rows) {
      SourceIntegralSubset(rows, DecBin(dec));
    }
  }

  /** The unweighted rectangle d_eps * d_dec * A_eff of a row. */
  function Rectangle(r: AreaRow): real
  {
    DEpsilon * (r.decMax - r.decMin) * r.area
  }

  /** The declination probability each row is weighted by in the energy
      integrals: `P_signal_nu_source` one degree above the row's lower
      declination edge, over the same table. */
  function SourceAt(table: seq<AreaRow>): AreaRow -> real
    requires NonDegenerate(table) && SourceIntegral(table) != 0.0
  {
    (r: AreaRow) => SignalNuSource(table, r.decMin + 1.0)
  }

  /** `ps` gives every row of `rows` a value in [0, 1]. */
  predicate Probabilities(rows: seq<AreaRow>, ps: AreaRow -> real)
  {
    forall r :: r in rows ==> 0.0 <= ps(r) <= 1.0
  }

  /** On a table with non-negative rectangles the nested declination
      probabilities are probabilities. */
  lemma SourceAtProbabilities(table: seq<AreaRow>)
    requires NonDegenerate(table) && SourceIntegral(table) != 0.0
    ensures NonNegativeTerms(table) ==> Probabilities(table, SourceAt(table))
  {
  }

  /** Sum of the weighted rectangles Rectangle(r) * ps(r) of `rows`. */
  function WeightSum(rows: seq<AreaRow>, ps: AreaRow -> real): real
  {
    if |rows| == 0 then 0.0
    else WeightSum(rows[..|rows| - 1], ps) + Rectangle(rows[|rows| - 1]) * ps(rows[|rows| - 1])
  }

  /** A row's weighted rectangle at the queried energy's eps^-2. */
  function TopTerm(r: AreaRow, ps: AreaRow -> real, eps: real): real
    requires eps != 0.0
  {
    Rectangle(r) * ps(r) * InvSquare(eps)
  }

  /** A row's weighted rectangle at its own half-width's eps^-2. */
  function BottomTerm(r: AreaRow, ps: AreaRow -> real): real
    requires r.eMin != r.eMax
  {
    Rectangle(r) * ps(r) * InvSquare(HalfWidth(r))
  }

  /** Numerator rectangles of the energy integral: every row's weighted
      rectangle times the queried energy's eps^-2. */
  function EnergyTop(rows: seq<AreaRow>, ps: AreaRow -> real, eps: real): real
    requires eps != 0.0 || |rows| == 0
  {
    if |rows| == 0 then 0.0
    else EnergyTop(rows[..|rows| - 1], ps, eps) + TopTerm(rows[|rows| - 1], ps, eps)
  }

  /** Denominator rectangles of the energy integral: every row's weighted
      rectangle times its own half-width's eps^-2. */
  function EnergyBottom(rows: seq<AreaRow>, ps: AreaRow -> real): real
    requires NonDegenerate(rows)
  {
    if |rows| == 0 then 0.0
    else
      assert forall r :: r in rows[..|rows| - 1] ==> r in rows;
      EnergyBottom(rows[..|rows| - 1], ps) + BottomTerm(rows[|rows| - 1], ps)
  }

  lemma FactorStep(top: real, head: real, w: real, c: real)
    requires top == c * head
    ensures top + w * c == c * (head + w)
  {
  }

  /** The numerator factors: it is eps^-2 times the weighted rectangles. */
  lemma {:induction false} EnergyTopFactor(rows: seq<AreaRow>, ps: AreaRow -> real, eps: real)
    requires eps != 0.0
    ensures EnergyTop(rows, ps, eps) == InvSquare(eps) * WeightSum(rows, ps)
  {
    if |rows| > 0 {
      var n := |rows| - 1;
      EnergyTopFactor(rows[..n], ps, eps);
      FactorStep(EnergyTop(rows[..n], ps, eps), WeightSum(rows[..n], ps), Rectangle(rows[n]) * ps(rows[n]), InvSquare(eps));
    }
  }

  lemma ProductNonNegative(a: real, b: real)
    requires a >= 0.0 && b >= 0.0
    ensures a * b >= 0.0
  {
  }

  /** Rows of non-negative declination width and area, weighted by
      probabilities, have a non-negative weighted sum. */
  lemma {:induction false} WeightSumNonNegative(rows: seq<AreaRow>, ps: AreaRow -> real)
    requires WellFormed(rows) && Probabilities(rows, ps)
    ensures WeightSum(rows, ps) >= 0.0
  {
    if |rows| > 0 {
      var n := |rows| - 1;
      var r := rows[n];
      assert r in rows;
      assert forall x :: x in rows[..n] ==> x in rows;
      WeightSumNonNegative(rows[..n], ps);
      ProductNonNegative(DEpsilon * (r.decMax - r.decMin), r.area);
      ProductNonNegative(Rectangle(r), ps(r));
    }
  }

  /** Some row's energy bin [eMin, eMax) contains `eps`. */
  predicate EnergyCovered(rows: seq<AreaRow>, eps: real)
  {
    exists i :: 0 <= i < |rows| && InEnergyBin(rows[i], eps)
  }

  lemma RatioNonNegative(top: real, bottom: real)
    requires top >= 0.0 && bottom > 0.0
    ensures top / bottom >= 0.0
  {
  }

  /** Numerator of the energy ratio: the rectangles of the rows whose bin
      [eMin, eMax) contains `eps`, each taken at eps^-2. When no row matches
      it is zero, and eps^-2 is never needed; otherwise it is eps^-2 times
      the weighted rectangles of the matching rows. */
  function EnergyNumerator(rows: seq<AreaRow>, ps: AreaRow -> real, eps: real): (top: real)
    requires eps != 0.0 || !EnergyCovered(rows, eps)
    ensures !EnergyCovered(rows, eps) ==> top == 0.0
    ensures eps != 0.0 ==> top == InvSquare(eps) * WeightSum(Filter(rows, EnergyBin(eps)), ps)
  {
    FilterHead(rows, EnergyBin(eps));
    if eps != 0.0 then
      EnergyTopFactor(Filter(rows, EnergyBin(eps)), ps, eps);
      EnergyTop(Filter(rows, EnergyBin(eps)), ps, eps)
    else
      assert Filter(rows, EnergyBin(eps)) == [];
      EnergyTop(Filter(rows, EnergyBin(eps)), ps, eps)
  }

  lemma RatioCancel(top: real, bottom: real)
    requires bottom != 0.0
    ensures top / bottom * bottom == top
  {
  }

  /** With no matching row the energy ratio is zero. */
  lemma EnergyShareUncovered(rows: seq<AreaRow>, ps: AreaRow -> real, eps: real)
    requires NonDegenerate(rows)
    requires !EnergyCovered(rows, eps)
    requires EnergyBottom(rows, ps) != 0.0
    ensures EnergyNumerator(rows, ps, eps) / EnergyBottom(rows, ps) == 0.0
  {
    hide *;
  }

  /** The energy ratio times its denominator is eps^-2 times the weighted
      rectangles of the matching rows. */
  lemma EnergyShareScale(rows: seq<AreaRow>, ps: AreaRow -> real, eps: real)
    requires NonDegenerate(rows)
    requires eps != 0.0
    requires EnergyBottom(rows, ps) != 0.0
    ensures EnergyNumerator(rows, ps, eps) / EnergyBottom(rows, ps) * EnergyBottom(rows, ps)
              == InvSquare(eps) * WeightSum(Filter(rows, EnergyBin(eps)), ps)
  {
    hide *;
    RatioCancel(EnergyNumerator(rows, ps, eps), EnergyBottom(rows, ps));
  }

  /** Probabilities on a well-formed table give a non-negative numerator. */
  lemma EnergyNumeratorNonNegative(rows: seq<AreaRow>, ps: AreaRow -> real, eps: real)
    requires eps != 0.0 || !EnergyCovered(rows, eps)
    requires WellFormed(rows) && Probabilities(rows, ps)
    ensures EnergyNumerator(rows, ps, eps) >= 0.0
  {
    hide EnergyNumerator, WeightSum, InvSquare;
    if eps != 0.0 {
      InvSquareInverse(eps);
      assert forall r :: r in Filter(rows, EnergyBin(eps)) ==> r in rows;
      WeightSumNonNegative(Filter(rows, EnergyBin(eps)), ps);
      ProductNonNegative(InvSquare(eps), WeightSum(Filter(rows, EnergyBin(eps)), ps));
    }
  }

  /** Probabilities on a well-formed table with a positive denominator give
      a non-negative energy ratio. */
  lemma EnergyShareNonNegative(rows: seq<AreaRow>, ps: AreaRow -> real, eps: real)
    requires NonDegenerate(rows)
    requires eps != 0.0 || !EnergyCovered(rows, eps)
    requires WellFormed(rows) && Probabilities(rows, ps) && EnergyBottom(rows, ps) > 0.0
    ensures EnergyNumerator(rows, ps, eps) / EnergyBottom(rows, ps) >= 0.0
  {
    hide *;
    EnergyNumeratorNonNegative(rows, ps, eps);
    RatioNonNegative(EnergyNumerator(rows, ps, eps), EnergyBottom(rows, ps));
  }

  /** The zero case, the numerator relation and the sign of the energy
      ratio, stated about its numerator and denominator. */
  lemma EnergyShareFacts(rows: seq<AreaRow>, ps: AreaRow -> real, eps: real)
    requires NonDegenerate(rows)
    requires eps != 0.0 || !EnergyCovered(rows, eps)
    requires EnergyBottom(rows, ps) != 0.0
    ensures !EnergyCovered(rows, eps) ==> EnergyNumerator(rows, ps, eps) / EnergyBottom(rows, ps) == 0.0
    ensures eps != 0.0 ==> EnergyNumerator(rows, ps, eps) / EnergyBottom(rows, ps) * EnergyBottom(rows, ps)
                             == InvSquare(eps) * WeightSum(Filter(rows, EnergyBin(eps)), ps)
    ensures WellFormed(rows) && Probabilities(rows, ps) && EnergyBottom(rows, ps) > 0.0 ==>
              EnergyNumerator(rows, ps, eps) / EnergyBottom(rows, ps) >= 0.0
  {
    hide *;
    if !EnergyCovered(rows, eps) {
      EnergyShareUncovered(rows, ps, eps);
    }
    if eps != 0.0 {
      EnergyShareScale(rows, ps, eps);
    }
    if WellFormed(rows) && Probabilities(rows, ps) && EnergyBottom(rows, ps) > 0.0 {
      EnergyShareNonNegative(rows, ps, eps);
    }
  }

  /** The energy ratio for any declination weights `ps`: the integral over
      the rows whose bin [eMin, eMax) contains `eps`, each taken at eps^-2,
      divided by the integral over all rows, each taken at its own
      half-width. It is zero when no row matches; times its denominator it
      is eps^-2 times the weighted rectangles of the matching rows; it is
      non-negative when the weights are probabilities on a well-formed
      table with a positive denominator. */
  function EnergyShare(rows: seq<AreaRow>, ps: AreaRow -> real, eps: real): (p: real)
    requires NonDegenerate(rows)
    requires eps != 0.0 || !EnergyCovered(rows, eps)
    requires EnergyBottom(rows, ps) != 0.0
    ensures !EnergyCovered(rows, eps) ==> p == 0.0
    ensures eps != 0.0 ==> p * EnergyBottom(rows, ps) == InvSquare(eps) * WeightSum(Filter(rows, EnergyBin(eps)), ps)
    ensures WellFormed(rows) && Probabilities(rows, ps) && EnergyBottom(rows, ps) > 0.0 ==> p >= 0.0
  {
    EnergyShareFacts(rows, ps, eps);
    EnergyNumerator(rows, ps, eps) / EnergyBottom(rows, ps)
  }

  /** The two accumulation loops of the energy integral, for any
      declination weights: the first over the rows of the energy bin, the
      second over all rows. */
  method EnergySums(rows: seq<AreaRow>, ps: AreaRow -> real, eps: real) returns (top: real, bottom: real)
    requires NonDegenerate(rows)
    requires eps != 0.0 || !EnergyCovered(rows, eps)
    ensures top == EnergyNumerator(rows, ps, eps)
    ensures bottom == EnergyBottom(rows, ps)
  {
    hide TopTerm, BottomTerm;
    var matched := Filter(rows, EnergyBin(eps));
    FilterHead(rows, EnergyBin(eps));
    top := 0.0;
    var i := 0;
    while i < |matched|
      invariant 0 <= i <= |matched|
      invariant eps != 0.0 || i == |matched|
      invariant top == EnergyTop(matched[..i], ps, eps)
    {
      assert matched[..i + 1][..i] == matched[..i];
      top := top + TopTerm(matched[i], ps, eps);
      i := i + 1;
    }
    assert matched[..i] == matched;
    bottom := 0.0;
    var j := 0;
    while j < |rows|
      invariant 0 <= j <= |rows|
      invariant NonDegenerate(rows[..j])
      invariant bottom == EnergyBottom(rows[..j], ps)
    {
      assert rows[..j + 1][..j] == rows[..j];
      assert rows[j] in rows;
      assert forall r :: r in rows[..j + 1] ==> r in rows;
      bottom := bottom + BottomTerm(rows[j], ps);
      j := j + 1;
    }
    assert rows[..j] == rows;
  }

  /** On a well-formed table the nested declination probabilities are
      probabilities. */
  lemma SourceAtWellFormed(table: seq<AreaRow>)
    requires NonDegenerate(table) && SourceIntegral(table) != 0.0
    ensures WellFormed(table) ==> Probabilities(table, SourceAt(table))
  {
    if WellFormed(table) {
      WellFormedTermsNonNegative(table);
      SourceAtProbabilities(table);
    }
  }

  /** Probability of the neutrino energy under the signal hypothesis: the
      energy ratio with every row weighted by the declination probability
      one degree above its lower declination edge. The query's eps^-2 is
      only evaluated when some row matches. The numerator is eps^-2 times
      the weighted rectangles of the matching rows; the result is zero when
      no row matches and non-negative on a well-formed table with a positive
      denominator. */
  function SignalNuEpsilon(rows: seq<AreaRow>, eps: real): (p: real)
    requires NonDegenerate(rows) && SourceIntegral(rows) != 0.0
    requires eps != 0.0 || !EnergyCovered(rows, eps)
    requires EnergyBottom(rows, SourceAt(rows)) != 0.0
    ensures !EnergyCovered(rows, eps) ==> p == 0.0
    ensures WellFormed(rows) && EnergyBottom(rows, SourceAt(rows)) > 0.0 ==> p >= 0.0
  {
    SourceAtWellFormed(rows);
    EnergyShare(rows, SourceAt(rows), eps)
  }

  /** Times its denominator, the energy probability is eps^-2 times the
      rectangles of the rows whose energy bin holds `eps`, each weighted by
      the declination probability one degree above its lower edge. */
  lemma SignalNuEpsilonScale(rows: seq<AreaRow>, eps: real)
    requires NonDegenerate(rows) && SourceIntegral(rows) != 0.0
    requires eps != 0.0
    requires EnergyBottom(rows, SourceAt(rows)) != 0.0
    ensures SignalNuEpsilon(rows, eps) * EnergyBottom(rows, SourceAt(rows))
              == InvSquare(eps) * WeightSum(Filter(rows, EnergyBin(eps)), SourceAt(rows))
  {
    hide EnergyShare, EnergyBottom, WeightSum, Filter, SourceAt, SignalNuSource, SourceIntegral, EnergyNumerator, InvSquare;
    assert SignalNuEpsilon(rows, eps) == EnergyShare(rows, SourceAt(rows), eps);
  }

  lemma EnergyBottomAppend(rows: seq<AreaRow>, r: AreaRow, ps: AreaRow -> real)
    requires NonDegenerate(rows + [r])
    ensures NonDegenerate(rows)
    ensures EnergyBottom(rows + [r], ps) == EnergyBottom(rows, ps) + BottomTerm(r, ps)
  {
    assert (rows + [r])[..|rows|] == rows;
    assert forall x :: x in rows ==> x in rows + [r];
  }

  /** The denominator rectangles of the rows a predicate keeps and of the
      rows it drops add up to the whole denominator. */
  lemma {:induction false} EnergyBottomSplit(rows: seq<AreaRow>, ps: AreaRow -> real, p: AreaRow -> bool)
    requires NonDegenerate(rows)
    ensures NonDegenerate(Filter(rows, p)) && NonDegenerate(Filter(rows, Not(p)))
    ensures EnergyBottom(Filter(rows, p), ps) + EnergyBottom(Filter(rows, Not(p)), ps) == EnergyBottom(rows, ps)
  {
    if |rows| > 0 {
      var n := |rows| - 1;
      var init := rows[..n];
      assert init + [rows[n]] == rows;
      EnergyBottomAppend(init, rows[n], ps);
      EnergyBottomSplit(init, ps, p);
      if p(rows[n]) {
        EnergyBottomAppend(Filter(init, p), rows[n], ps);
      } else {
        EnergyBottomAppend(Filter(init, Not(p)), rows[n], ps);
      }
    }
  }

  /** A well-formed row weighted by a non-negative value has a
      non-negative denominator rectangle. */
  lemma BottomTermNonNegative(r: AreaRow, ps: AreaRow -> real)
    requires r.eMin < r.eMax && r.decMin <= r.decMax && r.area >= 0.0 && ps(r) >= 0.0
    ensures BottomTerm(r, ps) >= 0.0
  {
    InvSquareInverse(HalfWidth(r));
    ProductNonNegative(DEpsilon * (r.decMax - r.decMin), r.area);
    ProductNonNegative(Rectangle(r), ps(r));
    ProductNonNegative(Rectangle(r) * ps(r), InvSquare(HalfWidth(r)));
  }

  /** Probabilities on a well-formed table give a non-negative
      denominator. */
  lemma {:induction false} EnergyBottomNonNegative(rows: seq<AreaRow>, ps: AreaRow -> real)
    requires WellFormed(rows) && Probabilities(rows, ps)
    ensures EnergyBottom(rows, ps) >= 0.0
  {
    if |rows| > 0 {
      var n := |rows| - 1;
      assert rows[n] in rows;
      assert forall x :: x in rows[..n] ==> x in rows;
      EnergyBottomNonNegative(rows[..n], ps);
      BottomTermNonNegative(rows[n], ps);
    }
  }

  /** On a well-formed table weighted by probabilities, the denominator
      rectangles of the rows a predicate keeps lie between zero and the
      whole denominator. */
  lemma EnergyBottomSubset(rows: seq<AreaRow>, ps: AreaRow -> real, p: AreaRow -> bool)
    requires WellFormed(rows) && Probabilities(rows, ps)
    ensures NonDegenerate(Filter(rows, p))
    ensures 0.0 <= EnergyBottom(Filter(rows, p), ps) <= EnergyBottom(rows, ps)
  {
    EnergyBottomSplit(rows, ps, p);
    assert forall x :: x in Filter(rows, p) ==> x in rows;
    assert forall x :: x in Filter(rows, Not(p)) ==> x in rows;
    EnergyBottomNonNegative(Filter(rows, p), ps);
    EnergyBottomNonNegative(Filter(rows, Not(p)), ps);
  }

  /** On a well-formed table weighted by probabilities the energy-bin
      share lies in [0, 1]. */
  lemma BinShareBounds(rows: seq<AreaRow>, ps: AreaRow -> real, eps: real)
    requires WellFormed(rows) && Probabilities(rows, ps)
    requires EnergyBottom(rows, ps) != 0.0
    ensures NonDegenerate(Filter(rows, EnergyBin(eps)))
    ensures 0.0 <= EnergyBottom(Filter(rows, EnergyBin(eps)), ps) / EnergyBottom(rows, ps) <= 1.0
  {
    EnergyBottomSubset(rows, ps, EnergyBin(eps));
    hide *;
    RatioBounds(EnergyBottom(Filter(rows, EnergyBin(eps)), ps), EnergyBottom(rows, ps));
  }

  /** With no row's bin holding `eps` the energy-bin share is zero. */
  lemma BinShareUncovered(rows: seq<AreaRow>, ps: AreaRow -> real, eps: real)
    requires NonDegenerate(rows)
    requires !EnergyCovered(rows, eps)
    requires EnergyBottom(rows, ps) != 0.0
    ensures NonDegenerate(Filter(rows, EnergyBin(eps)))
    ensures EnergyBottom(Filter(rows, EnergyBin(eps)), ps) / EnergyBottom(rows, ps) == 0.0
  {
    FilterHead(rows, EnergyBin(eps));
  }

  /** With every row's bin holding `eps` the energy-bin share is one. */
  lemma BinShareAll(rows: seq<AreaRow>, ps: AreaRow -> real, eps: real)
    requires NonDegenerate(rows)
    requires forall r :: r in rows ==> InEnergyBin(r, eps)
    requires EnergyBottom(rows, ps) != 0.0
    ensures NonDegenerate(Filter(rows, EnergyBin(eps)))
    ensures EnergyBottom(Filter(rows, EnergyBin(eps)), ps) / EnergyBottom(rows, ps) == 1.0
  {
    FilterAll(rows, EnergyBin(eps));
    RatioOne(EnergyBottom(rows, ps));
  }

  /** The bounds and the two extreme cases of the energy-bin share. */
  lemma BinShareFacts(rows: seq<AreaRow>, ps: AreaRow -> real, eps: real)
    requires NonDegenerate(rows)
    requires EnergyBottom(rows, ps) != 0.0
    ensures NonDegenerate(Filter(rows, EnergyBin(eps)))
    ensures WellFormed(rows) && Probabilities(rows, ps) ==>
              0.0 <= EnergyBottom(Filter(rows, EnergyBin(eps)), ps) / EnergyBottom(rows, ps) <= 1.0
    ensures !EnergyCovered(rows, eps) ==>
              EnergyBottom(Filter(rows, EnergyBin(eps)), ps) / EnergyBottom(rows, ps) == 0.0
    ensures (forall r :: r in rows ==> InEnergyBin(r, eps)) ==>
              EnergyBottom(Filter(rows, EnergyBin(eps)), ps) / EnergyBottom(rows, ps) == 1.0
  {
    EnergyBottomSplit(rows, ps, EnergyBin(eps));
    hide *;
    if WellFormed(rows) && Probabilities(rows, ps) {
      BinShareBounds(rows, ps, eps);
    }
    if !EnergyCovered(rows, eps) {
      BinShareUncovered(rows, ps, eps);
    }
    if forall r :: r in rows ==> InEnergyBin(r, eps) {
      BinShareAll(rows, ps, eps);
    }
  }

  /** The energy-bin share for any declination weights `ps`: the
      denominator rectangles of the rows whose bin [eMin, eMax) contains
      `eps`, each at its own half-width, over those of all rows. It is a
      probability on a well-formed table weighted by probabilities, zero
      when no row matches and one when every row does. */
  function BinShare(rows: seq<AreaRow>, ps: AreaRow -> real, eps: real): (p: real)
    requires NonDegenerate(rows)
    requires EnergyBottom(rows, ps) != 0.0
    ensures WellFormed(rows) && Probabilities(rows, ps) ==> 0.0 <= p <= 1.0
    ensures !EnergyCovered(rows, eps) ==> p == 0.0
    ensures (forall r :: r in rows ==> InEnergyBin(r, eps)) ==> p == 1.0
  {
    BinShareFacts(rows, ps, eps);
    EnergyBottom(Filter(rows, EnergyBin(eps)), ps) / EnergyBottom(rows, ps)
  }

  /** The energy probability with the numerator rows taken at their own
      half-width, as the declination probability takes them: a probability
      on a well-formed table, zero when no row's bin contains `eps`, one
      when every row's does, and defined for every query. */
  function SignalNuEpsilonCorrected(rows: seq<AreaRow>, eps: real): (p: real)
    requires NonDegenerate(rows) && SourceIntegral(rows) != 0.0
    requires EnergyBottom(rows, SourceAt(rows)) != 0.0
    ensures WellFormed(rows) ==> 0.0 <= p <= 1.0
    ensures !EnergyCovered(rows, eps) ==> p == 0.0
    ensures (forall r :: r in rows ==> InEnergyBin(r, eps)) ==> p == 1.0
  {
    SourceAtWellFormed(rows);
    BinShare(rows, SourceAt(rows), eps)
  }

  /** Rows whose half-width is the query itself have the same numerator
      and denominator rectangles. */
  lemma {:induction false} EnergyTopAtOwnWidth(rows: seq<AreaRow>, ps: AreaRow -> real, eps: real)
    requires eps != 0.0
    requires forall r :: r in rows ==> HalfWidth(r) == eps
    ensures NonDegenerate(rows)
    ensures EnergyTop(rows, ps, eps) == EnergyBottom(rows, ps)
  {
    if |rows| > 0 {
      var n := |rows| - 1;
      assert rows[n] in rows;
      assert forall x :: x in rows[..n] ==> x in rows;
      EnergyTopAtOwnWidth(rows[..n], ps, eps);
      assert TopTerm(rows[n], ps, eps) == BottomTerm(rows[n], ps);
    }
  }

  /** The energy probability as written and the corrected one agree when
      every row whose bin holds the query has the query as its
      half-width: the two differ only in the eps^-2 of the numerator. */
  lemma SignalNuEpsilonAgreesAtOwnWidth(rows: seq<AreaRow>, eps: real)
    requires NonDegenerate(rows) && SourceIntegral(rows) != 0.0
    requires eps != 0.0
    requires EnergyBottom(rows, SourceAt(rows)) != 0.0
    requires forall r :: r in rows && InEnergyBin(r, eps) ==> HalfWidth(r) == eps
    ensures SignalNuEpsilon(rows, eps) == SignalNuEpsilonCorrected(rows, eps)
  {
    var ps := SourceAt(rows);
    var matched := Filter(rows, EnergyBin(eps));
    assert forall r :: r in matched ==> HalfWidth(r) == eps;
    EnergyTopAtOwnWidth(matched, ps, eps);
    assert EnergyNumerator(rows, ps, eps) == EnergyBottom(matched, ps);
    assert SignalNuEpsilon(rows, eps) == EnergyShare(rows, ps, eps);
    assert SignalNuEpsilonCorrected(rows, eps) == BinShare(rows, ps, eps);
  }

  /** A one-row table on which the energy probability is 25: the row's
      rectangle is 0.2 * 180 * 1 = 36, its own half-width 0.5 gives the
      denominator 36 * 4 = 144, and the query 0.1 gives the numerator
      36 * 100 = 3600. */
  lemma SignalNuEpsilonExceedsOne()
    ensures NonDegenerate([AreaRow(0.0, 1.0, -90.0, 90.0, 1.0)])
    ensures SourceIntegral([AreaRow(0.0, 1.0, -90.0, 90.0, 1.0)]) != 0.0
    ensures EnergyBottom([AreaRow(0.0, 1.0, -90.0, 90.0, 1.0)], SourceAt([AreaRow(0.0, 1.0, -90.0, 90.0, 1.0)])) != 0.0
    ensures SignalNuEpsilon([AreaRow(0.0, 1.0, -90.0, 90.0, 1.0)], 0.1) == 25.0
    ensures SignalNuEpsilonCorrected([AreaRow(0.0, 1.0, -90.0, 90.0, 1.0)], 0.1) == 1.0
  {
    var r := AreaRow(0.0, 1.0, -90.0, 90.0, 1.0);
    var rows := [r];
    assert Rectangle(r) == 36.0;
    assert InvSquare(HalfWidth(r)) == 4.0;
    assert InvSquare(0.1) == 100.0;
    assert rows[..0] == [];
    assert SourceIntegral(rows) == 144.0;
    var ps := SourceAt(rows);
    assert ps(r) == 1.0;
    assert EnergyBottom(rows, ps) == 144.0;
    FilterAll(rows, EnergyBin(0.1));
    assert WeightSum(rows, ps) == 36.0;
    SignalNuEpsilonScale(rows, 0.1);
    ScaleBack(SignalNuEpsilon(rows, 0.1), 144.0, 3600.0);
  }

  lemma ScaleBack(p: real, b: real, t: real)
    requires b != 0.0 && p * b == t
    ensures p == t / b
  {
  }
}
