/**
 * The `Calculator` object: emission of a trip, comparison of every transport
 * mode against the car baseline, savings against a baseline, carbon credits
 * needed to offset an emission, and the price range of those credits.
 */
module Calculator {
  import opened Rounding
  import opened Config
  import opened Sorting

  /**
   * `calcEmission`: kilograms of CO2 for a trip, `distance * factor` rounded to
   * two decimals.
   */
  function CalcEmission(distanceKm: real, mode: Mode): (kg: real)
    ensures TwoDecimals(kg)
    ensures distanceKm * Factor(mode) - 0.005 < kg <= distanceKm * Factor(mode) + 0.005
    ensures distanceKm >= 0.0 ==> kg >= 0.0
    ensures mode == Bicycle ==> kg == 0.0
  {
    var kg := Round2(distanceKm * Factor(mode));
    assert mode == Bicycle ==> kg == 0.0 by {
      if mode == Bicycle {
        Round2OnGrid(0.0);
      }
    }
    kg
  }

  /** A longer trip never emits less, whatever the mode. */
  lemma CalcEmissionMonotone(d1: real, d2: real, mode: Mode)
    requires d1 <= d2
    ensures CalcEmission(d1, mode) <= CalcEmission(d2, mode)
  {
    assert d1 * Factor(mode) <= d2 * Factor(mode) by {
      assert (d2 - d1) * Factor(mode) >= 0.0;
    }
    Round2Monotone(d1 * Factor(mode), d2 * Factor(mode));
  }

  /** The car baseline is positive exactly when the unrounded car emission reaches half a cent. */
  lemma CarBaselinePositiveIff(distanceKm: real)
    ensures CalcEmission(distanceKm, Car) > 0.0 <==> distanceKm * 0.12 >= 0.005
  {
    Round2PositiveIff(distanceKm * Factor(Car));
  }

  /** One row of the mode comparison; `percentageVsCar` is the emission as a percentage of the car's. */
  datatype ComparisonEntry = ComparisonEntry(mode: Mode, emission: real, percentageVsCar: real)

  /**
   * The unrounded percentage of the car baseline: the share that, applied to a
   * positive baseline, gives back the emission; 0 when the baseline is not positive.
   */
  function PercentageVsCar(emission: real, carEmission: real): (p: real)
    ensures carEmission > 0.0 ==> p * carEmission == emission * 100.0
    ensures carEmission <= 0.0 ==> p == 0.0
    ensures 0.0 <= emission <= carEmission ==> 0.0 <= p <= 100.0
  {
    if carEmission > 0.0 then emission / carEmission * 100.0 else 0.0
  }

  /**
   * The row pushed for one mode: emission and percentage, each passed through
   * `Math.round(x * 100) / 100`. Re-rounding leaves `calcEmission` unchanged, and
   * the percentage is that of the emission against `carEmission`.
   */
  function ModeEntry(distanceKm: real, mode: Mode, carEmission: real): (e: ComparisonEntry)
    ensures e.mode == mode
    ensures e.emission == CalcEmission(distanceKm, mode)
    ensures e.percentageVsCar == Round2(PercentageVsCar(e.emission, carEmission))
  {
    var emission := CalcEmission(distanceKm, mode);
    assert Round2(emission) == emission by {
      Round2OnGrid(emission);
    }
    ComparisonEntry(mode, Round2(emission), Round2(PercentageVsCar(emission, carEmission)))
  }

  /**
   * The rows in the order the `for ... in` loop pushes them, before sorting: one
   * per mode, at the mode's rank, with increasing ranks.
   */
  function UnsortedEntries(distanceKm: real): (u: seq<ComparisonEntry>)
    ensures |u| == |ModeOrder|
    ensures forall m: Mode :: u[Rank(m)] == ModeEntry(distanceKm, m, CalcEmission(distanceKm, Car))
    ensures forall i, j :: 0 <= i < j < |u| ==> Rank(u[i].mode) < Rank(u[j].mode)
  {
    var carEmission := CalcEmission(distanceKm, Car);
    seq(|ModeOrder|, i requires 0 <= i < |ModeOrder| => ModeEntry(distanceKm, ModeOrder[i], carEmission))
  }

  /** The comparator `(a, b) => a.emission - b.emission` of the sort. */
  function CompareEmission(a: ComparisonEntry, b: ComparisonEntry): real {
    a.emission - b.emission
  }

  /** The comparator does not put `b` before `a`. */
  predicate EmissionLe(a: ComparisonEntry, b: ComparisonEntry) {
    a.emission <= b.emission
  }

  /**
   * The comparator is consistent, as `Array.prototype.sort` requires: it is
   * antisymmetric, and the order it induces is a total preorder on emissions.
   */
  lemma EmissionComparatorConsistent()
    ensures forall a, b :: CompareEmission(a, b) == -CompareEmission(b, a)
    ensures forall a, b :: EmissionLe(a, b) <==> CompareEmission(a, b) <= 0.0
    ensures TotalPreorder(EmissionLe)
  {
  }

  /** The modes of a list of rows, in order. */
  function Modes(entries: seq<ComparisonEntry>): (ms: seq<Mode>)
    ensures |ms| == |entries|
  {
    seq(|entries|, i requires 0 <= i < |entries| => entries[i].mode)
  }

  /** The for-in order gives each row a rank, and the unsorted rows are in increasing rank. */
  function EntryRank(e: ComparisonEntry): int {
    Rank(e.mode)
  }

  /** What one pushed row holds: its mode, `calcEmission` of it, and its percentage of the car baseline. */
  lemma ModeEntryFacts(distanceKm: real, mode: Mode)
    ensures var carEmission := CalcEmission(distanceKm, Car);
      var e := ModeEntry(distanceKm, mode, carEmission);
      && e.mode == mode
      && e.emission == CalcEmission(distanceKm, mode)
      && (carEmission > 0.0 ==> e.percentageVsCar == Round2(e.emission / carEmission * 100.0))
      && (carEmission <= 0.0 ==> e.percentageVsCar == 0.0)
      && (mode == Car && carEmission > 0.0 ==> e.percentageVsCar == 100.0)
  {
    var carEmission := CalcEmission(distanceKm, Car);
    var emission := CalcEmission(distanceKm, mode);
    Round2OnGrid(emission);
    if carEmission <= 0.0 {
      Round2OnGrid(0.0);
    } else if mode == Car {
      assert emission / carEmission * 100.0 == 100.0;
      Round2OnGrid(100.0);
    }
  }

  /** The pushed rows are in for-in order, one per mode, each the row `ModeEntry` builds. */
  lemma UnsortedEntriesFacts(distanceKm: real)
    ensures var u := UnsortedEntries(distanceKm);
      && (forall i, j :: 0 <= i < j < |u| ==> EntryRank(u[i]) < EntryRank(u[j]))
      && (forall i :: 0 <= i < |u| ==> u[i] == ModeEntry(distanceKm, u[i].mode, CalcEmission(distanceKm, Car)))
      && (forall m: Mode :: u[Rank(m)].mode == m)
  {
  }

  /** The sorted rows are a permutation of the pushed rows, ascending by emission, with ties in for-in order. */
  lemma SortedEntriesOrder(distanceKm: real)
    ensures var u := UnsortedEntries(distanceKm);
      var r := SortBy(u, EmissionLe);
      && multiset(r) == multiset(u)
      && (forall i, j :: 0 <= i < j < |r| ==> r[i].emission <= r[j].emission)
      && (forall i, j :: 0 <= i < j < |r| && r[i].emission == r[j].emission ==> Rank(r[i].mode) < Rank(r[j].mode))
  {
    var u := UnsortedEntries(distanceKm);
    var r := SortBy(u, EmissionLe);
    assert TotalPreorder(EmissionLe);
    SortBySorted(u, EmissionLe);
    UnsortedEntriesFacts(distanceKm);
    SortByStable(u, EmissionLe, EntryRank);
    forall i, j | 0 <= i < j < |r|
      ensures r[i].emission <= r[j].emission
      ensures r[i].emission == r[j].emission ==> Rank(r[i].mode) < Rank(r[j].mode)
    {
      assert EmissionLe(r[i], r[j]);
      assert r[i].emission == r[j].emission ==> EmissionLe(r[j], r[i]);
    }
  }

  /** Every sorted row is the row the loop pushed for its mode. */
  lemma SortedEntriesRows(distanceKm: real)
    ensures var r := SortBy(UnsortedEntries(distanceKm), EmissionLe);
      forall i :: 0 <= i < |r| ==> r[i] == ModeEntry(distanceKm, r[i].mode, CalcEmission(distanceKm, Car))
  {
    var u := UnsortedEntries(distanceKm);
    var r := SortBy(u, EmissionLe);
    forall i | 0 <= i < |r|
      ensures r[i] == ModeEntry(distanceKm, r[i].mode, CalcEmission(distanceKm, Car))
    {
      assert r[i] in multiset(u);
      var k :| 0 <= k < |u| && u[k] == r[i];
      assert u[Rank(u[k].mode)] == u[k];
    }
  }

  /** The sorted rows hold every mode, and no mode twice. */
  lemma SortedEntriesModes(distanceKm: real)
    ensures var r := SortBy(UnsortedEntries(distanceKm), EmissionLe);
      && (forall m: Mode :: m in Modes(r))
      && (forall i, j :: 0 <= i < j < |r| ==> r[i].mode != r[j].mode)
  {
    var u := UnsortedEntries(distanceKm);
    var r := SortBy(u, EmissionLe);
    UnsortedEntriesFacts(distanceKm);
    SortedEntriesOrder(distanceKm);
    SortedEntriesRows(distanceKm);
    forall m: Mode
      ensures m in Modes(r)
    {
      assert u[Rank(m)] in multiset(r);
      var k :| 0 <= k < |r| && r[k] == u[Rank(m)];
      assert Modes(r)[k] == m;
    }
    assert Distinct(u);
    SortByDistinct(u, EmissionLe);
  }

  /**
   * `calculateAllModes`: one row per configured mode, each mode exactly once,
   * sorted by emission with ties in the for-in order; each emission is
   * `calcEmission` of that mode (re-rounding changes nothing). The percentages
   * are the subject of `AllModesPercentages`.
   */
  function CalculateAllModes(distanceKm: real): (r: seq<ComparisonEntry>)
    ensures |r| == |ModeOrder|
    ensures forall m: Mode :: m in Modes(r)
    ensures forall i, j :: 0 <= i < j < |r| ==> r[i].mode != r[j].mode
    ensures forall i, j :: 0 <= i < j < |r| ==> r[i].emission <= r[j].emission
    ensures forall i, j :: 0 <= i < j < |r| && r[i].emission == r[j].emission ==> Rank(r[i].mode) < Rank(r[j].mode)
    ensures forall i :: 0 <= i < |r| ==> r[i].emission == CalcEmission(distanceKm, r[i].mode)
  {
    SortedEntriesOrder(distanceKm);
    SortedEntriesRows(distanceKm);
    SortedEntriesModes(distanceKm);
    SortBy(UnsortedEntries(distanceKm), EmissionLe)
  }

  /**
   * The percentages `calculateAllModes` reports: each row's emission as a
   * percentage of the car's, rounded to two decimals, with the car itself at 100;
   * all 0 when the car's emission is not positive.
   */
  lemma AllModesPercentages(distanceKm: real)
    ensures var r := CalculateAllModes(distanceKm);
      var carEmission := CalcEmission(distanceKm, Car);
      && (forall i :: 0 <= i < |r| && carEmission > 0.0 ==>
            r[i].percentageVsCar == Round2(r[i].emission / carEmission * 100.0))
      && (forall i :: 0 <= i < |r| && carEmission <= 0.0 ==> r[i].percentageVsCar == 0.0)
      && (forall i :: 0 <= i < |r| && r[i].mode == Car && carEmission > 0.0 ==> r[i].percentageVsCar == 100.0)
  {
    var r := CalculateAllModes(distanceKm);
    var carEmission := CalcEmission(distanceKm, Car);
    assert r == SortBy(UnsortedEntries(distanceKm), EmissionLe);
    SortedEntriesRows(distanceKm);
    forall i | 0 <= i < |r|
      ensures carEmission > 0.0 ==> r[i].percentageVsCar == Round2(r[i].emission / carEmission * 100.0)
      ensures carEmission <= 0.0 ==> r[i].percentageVsCar == 0.0
      ensures r[i].mode == Car && carEmission > 0.0 ==> r[i].percentageVsCar == 100.0
    {
      ModeEntryFacts(distanceKm, r[i].mode);
    }
  }

  /** For non-negative distances the emissions follow the factors: bicycle <= bus <= car <= truck. */
  lemma EmissionsFollowFactors(distanceKm: real)
    requires distanceKm >= 0.0
    ensures CalcEmission(distanceKm, Bicycle) == 0.0
    ensures CalcEmission(distanceKm, Bus) <= CalcEmission(distanceKm, Car) <= CalcEmission(distanceKm, Truck)
  {
    FactorValues();
    Round2Monotone(distanceKm * 0.089, distanceKm * 0.12);
    Round2Monotone(distanceKm * 0.12, distanceKm * 0.96);
  }

  /** Bus and car no longer round to the same emission once the unrounded gap `0.031 * d` reaches a cent. */
  lemma BusBelowCar(distanceKm: real)
    requires distanceKm * 31.0 >= 10.0
    ensures CalcEmission(distanceKm, Bus) < CalcEmission(distanceKm, Car)
  {
    FactorValues();
    Round2AddCent(distanceKm * 0.089);
    Round2Monotone(distanceKm * 0.089 + 0.01, distanceKm * 0.12);
  }

  /**
   * The order `calculateAllModes` produces for a non-negative distance: bicycle
   * first and truck last; bus before car when its emission is lower, and car
   * before bus (for-in order) when rounding makes them tie.
   */
  lemma AllModesOrder(distanceKm: real)
    requires distanceKm >= 0.0
    ensures Modes(CalculateAllModes(distanceKm)) ==
      if CalcEmission(distanceKm, Bus) < CalcEmission(distanceKm, Car) then [Bicycle, Bus, Car, Truck]
      else [Bicycle, Car, Bus, Truck]
  {
    SortedModesOrder(distanceKm);
  }

  /** The order of the sorted rows, from the order of the emissions. */
  lemma SortedModesOrder(distanceKm: real)
    requires distanceKm >= 0.0
    ensures Modes(SortBy(UnsortedEntries(distanceKm), EmissionLe)) ==
      if CalcEmission(distanceKm, Bus) < CalcEmission(distanceKm, Car) then [Bicycle, Bus, Car, Truck]
      else [Bicycle, Car, Bus, Truck]
  {
    var u := UnsortedEntries(distanceKm);
    UnsortedRows(distanceKm);
    EmissionsFollowFactors(distanceKm);
    SortFourRows(u[0], u[1], u[2], u[3]);
    if u[2].emission < u[1].emission {
      ModesOfFour(u[0], u[2], u[1], u[3]);
    } else {
      ModesOfFour(u[0], u[1], u[2], u[3]);
    }
  }

  /** The modes of four rows, in order. */
  lemma ModesOfFour(e0: ComparisonEntry, e1: ComparisonEntry, e2: ComparisonEntry, e3: ComparisonEntry)
    ensures Modes([e0] + [e1, e2, e3]) == [e0.mode, e1.mode, e2.mode, e3.mode]
  {
  }

  /** The pushed rows, one per mode in for-in order, with their emissions. */
  lemma UnsortedRows(distanceKm: real)
    ensures var u := UnsortedEntries(distanceKm);
      && u == [u[0]] + [u[1], u[2], u[3]]
      && u[0].mode == Bicycle && u[1].mode == Car && u[2].mode == Bus && u[3].mode == Truck
      && u[0].emission == CalcEmission(distanceKm, Bicycle)
      && u[1].emission == CalcEmission(distanceKm, Car)
      && u[2].emission == CalcEmission(distanceKm, Bus)
      && u[3].emission == CalcEmission(distanceKm, Truck)
  {
    ModeEntryFacts(distanceKm, Bicycle);
    ModeEntryFacts(distanceKm, Car);
    ModeEntryFacts(distanceKm, Bus);
    ModeEntryFacts(distanceKm, Truck);
  }

  /** Two rows already in emission order stay as they are. */
  lemma SortTwoRows(eu: ComparisonEntry, et: ComparisonEntry)
    requires eu.emission <= et.emission
    ensures SortBy([eu, et], EmissionLe) == [eu, et]
  {
    assert [eu, et][1..] == [et];
    assert [et][1..] == [];
    assert SortBy([et], EmissionLe) == [et];
    assert Insert(eu, [et], EmissionLe) == [eu, et];
  }

  /** Car, bus, truck rows: the bus moves in front of the car only when strictly lower. */
  lemma SortThreeRows(ec: ComparisonEntry, eu: ComparisonEntry, et: ComparisonEntry)
    requires eu.emission <= ec.emission <= et.emission
    ensures SortBy([ec, eu, et], EmissionLe) == if eu.emission < ec.emission then [eu, ec, et] else [ec, eu, et]
  {
    assert [ec, eu, et][1..] == [eu, et];
    SortTwoRows(eu, et);
    if eu.emission < ec.emission {
      assert [eu, et][1..] == [et];
      assert [et][1..] == [];
      assert Insert(ec, [et], EmissionLe) == [ec, et];
      assert Insert(ec, [eu, et], EmissionLe) == [eu] + [ec, et];
    } else {
      assert Insert(ec, [eu, et], EmissionLe) == [ec, eu, et];
    }
  }

  /**
   * Sorting the four pushed rows when the emissions satisfy
   * bicycle <= bus <= car <= truck: only bus and car can swap.
   */
  lemma SortFourRows(eb: ComparisonEntry, ec: ComparisonEntry, eu: ComparisonEntry, et: ComparisonEntry)
    requires eb.emission <= eu.emission <= ec.emission <= et.emission
    ensures SortBy([eb] + [ec, eu, et], EmissionLe) ==
      [eb] + if eu.emission < ec.emission then [eu, ec, et] else [ec, eu, et]
  {
    SortByCons(eb, [ec, eu, et], EmissionLe);
    SortThreeRows(ec, eu, et);
    InsertFront(eb, SortBy([ec, eu, et], EmissionLe), EmissionLe);
  }

  /** Once the bus/car gap reaches a cent, the comparison is ordered bicycle, bus, car, truck. */
  lemma AllModesOrderDistinct(distanceKm: real)
    requires distanceKm * 31.0 >= 10.0
    ensures Modes(CalculateAllModes(distanceKm)) == [Bicycle, Bus, Car, Truck]
  {
    BusBelowCar(distanceKm);
    AllModesOrder(distanceKm);
  }

  /**
   * Below 1/24 km the car's emission rounds to 0, so even for a positive distance
   * the car row scores 0%, not 100%.
   */
  lemma ShortTripCarScoresZero(distanceKm: real)
    requires 0.0 < distanceKm && distanceKm * 24.0 < 1.0
    ensures forall i :: 0 <= i < |CalculateAllModes(distanceKm)| && CalculateAllModes(distanceKm)[i].mode == Car ==>
              CalculateAllModes(distanceKm)[i].percentageVsCar == 0.0
  {
    CarBaselinePositiveIff(distanceKm);
    AllModesPercentages(distanceKm);
  }

  /**
   * A trip so short that even the truck's emission rounds to 0 (below 1/192 km,
   * distance 0 included): every emission ties at 0, so the rows keep the for-in
   * order, and with a zero car baseline every percentage is 0.
   */
  lemma AllModesNegligibleTrip(distanceKm: real)
    requires 0.0 <= distanceKm && distanceKm * 0.96 < 0.005
    ensures CalculateAllModes(distanceKm) == [
      ComparisonEntry(Bicycle, 0.0, 0.0), ComparisonEntry(Car, 0.0, 0.0),
      ComparisonEntry(Bus, 0.0, 0.0), ComparisonEntry(Truck, 0.0, 0.0)]
  {
    var eb, ec := ComparisonEntry(Bicycle, 0.0, 0.0), ComparisonEntry(Car, 0.0, 0.0);
    var eu, et := ComparisonEntry(Bus, 0.0, 0.0), ComparisonEntry(Truck, 0.0, 0.0);
    NegligibleRows(distanceKm);
    SortFourRows(eb, ec, eu, et);
    assert CalculateAllModes(distanceKm) == SortBy(UnsortedEntries(distanceKm), EmissionLe);
  }

  /** On such a trip every pushed row is all zeros. */
  lemma NegligibleRows(distanceKm: real)
    requires 0.0 <= distanceKm && distanceKm * 0.96 < 0.005
    ensures UnsortedEntries(distanceKm) == [ComparisonEntry(Bicycle, 0.0, 0.0)] + [ComparisonEntry(Car, 0.0, 0.0),
      ComparisonEntry(Bus, 0.0, 0.0), ComparisonEntry(Truck, 0.0, 0.0)]
  {
    FactorValues();
    Round2OnGrid(0.0);
    forall m: Mode
      ensures CalcEmission(distanceKm, m) == 0.0
    {
      assert distanceKm * Factor(m) <= distanceKm * 0.96 by {
        assert distanceKm * (0.96 - Factor(m)) >= 0.0;
      }
      Round2PositiveIff(distanceKm * Factor(m));
      Round2NonNegative(distanceKm * Factor(m));
    }
    var u := UnsortedEntries(distanceKm);
    assert u[Rank(Bicycle)] == ComparisonEntry(Bicycle, 0.0, 0.0);
    assert u[Rank(Car)] == ComparisonEntry(Car, 0.0, 0.0);
    assert u[Rank(Bus)] == ComparisonEntry(Bus, 0.0, 0.0);
    assert u[Rank(Truck)] == ComparisonEntry(Truck, 0.0, 0.0);
  }

  /** The 430 km trip: bicycle 0 (0%), bus 38.27 (74.17%), car 51.6 (100%), truck 412.8 (800%). */
  lemma AllModesAt430()
    ensures CalculateAllModes(430.0) == [
      ComparisonEntry(Bicycle, 0.0, 0.0), ComparisonEntry(Bus, 38.27, 74.17),
      ComparisonEntry(Car, 51.6, 100.0), ComparisonEntry(Truck, 412.8, 800.0)]
  {
    var u := UnsortedEntries(430.0);
    UnsortedRows(430.0);
    RowsAt430();
    EmissionsFollowFactors(430.0);
    SortFourRows(u[0], u[1], u[2], u[3]);
  }

  /** The rows pushed for 430 km, before sorting. */
  lemma RowsAt430()
    ensures CalcEmission(430.0, Car) == 51.6
    ensures ModeEntry(430.0, Bicycle, 51.6) == ComparisonEntry(Bicycle, 0.0, 0.0)
    ensures ModeEntry(430.0, Car, 51.6) == ComparisonEntry(Car, 51.6, 100.0)
    ensures ModeEntry(430.0, Bus, 51.6) == ComparisonEntry(Bus, 38.27, 74.17)
    ensures ModeEntry(430.0, Truck, 51.6) == ComparisonEntry(Truck, 412.8, 800.0)
  {
    FactorValues();
    Round2OnGrid(0.0);
    Round2OnGrid(38.27);
    Round2OnGrid(51.6);
    Round2OnGrid(412.8);
    Round2OnGrid(100.0);
    Round2OnGrid(800.0);
    Round2Unique(38.27 / 51.6 * 100.0, 74.17);
  }

  /** Result of `calculateSavings`: kilograms saved and the percentage of the baseline saved. */
  datatype Savings = Savings(savedKg: real, percentage: real)

  /**
   * `calculateSavings`: the saving against a baseline, rounded to two decimals and
   * never clamped, so an emission above the baseline gives a negative saving; the
   * percentage is 0 unless the baseline is positive.
   */
  function CalculateSavings(emission: real, baselineEmission: real): (s: Savings)
    ensures TwoDecimals(s.savedKg)
    ensures baselineEmission - emission - 0.005 < s.savedKg <= baselineEmission - emission + 0.005
    ensures s.savedKg < 0.0 <==> emission - baselineEmission > 0.005
    ensures baselineEmission <= 0.0 ==> s.percentage == 0.0
    ensures baselineEmission > 0.0 ==> TwoDecimals(s.percentage)
    ensures baselineEmission > 0.0 ==>
      var exact := (baselineEmission - emission) / baselineEmission * 100.0;
      exact - 0.005 < s.percentage <= exact + 0.005
    ensures baselineEmission > 0.0 && emission <= baselineEmission ==> s.percentage >= 0.0
  {
    var savedKg := baselineEmission - emission;
    var percentage := if baselineEmission > 0.0 then savedKg / baselineEmission * 100.0 else 0.0;
    Round2NegativeIff(savedKg);
    Round2OnGrid(0.0);
    assert baselineEmission > 0.0 && emission <= baselineEmission ==> Round2(percentage) >= 0.0 by {
      if baselineEmission > 0.0 && emission <= baselineEmission {
        assert savedKg / baselineEmission >= 0.0;
        Round2NonNegative(percentage);
      }
    }
    Savings(Round2(savedKg), Round2(percentage))
  }

  /** For two-decimal inputs, such as two `calcEmission` results, rounding loses nothing: saving plus emission is the baseline. */
  lemma SavingsExact(emission: real, baselineEmission: real)
    requires TwoDecimals(emission) && TwoDecimals(baselineEmission)
    ensures CalculateSavings(emission, baselineEmission).savedKg + emission == baselineEmission
  {
    TwoDecimalsSub(baselineEmission, emission);
    Round2OnGrid(baselineEmission - emission);
  }

  /** Emitting nothing against a positive baseline saves exactly 100%. */
  lemma SavingsOfZeroEmission(baselineEmission: real)
    requires baselineEmission > 0.0
    ensures CalculateSavings(0.0, baselineEmission).percentage == 100.0
  {
    assert (baselineEmission - 0.0) / baselineEmission * 100.0 == 100.0;
    Round2OnGrid(100.0);
  }

  /** Bus against car for 430 km: 13.33 kg saved, 25.83%. */
  lemma SavingsBusVsCarAt430()
    ensures CalculateSavings(38.27, 51.6) == Savings(13.33, 25.83)
  {
    Round2OnGrid(13.33);
    Round2Unique(13.33 / 51.6 * 100.0, 25.83);
  }

  /**
   * `calculateCarborCredits` (so spelled in the source): credits needed to offset
   * an emission, `emission / KG_PER_CREDIT` rounded to four decimals.
   */
  function CalculateCarbonCredits(emissionKg: real): (credits: real)
    ensures FourDecimals(credits)
    ensures emissionKg / KgPerCredit - 0.00005 < credits <= emissionKg / KgPerCredit + 0.00005
    ensures emissionKg >= 0.0 ==> credits >= 0.0
  {
    assert emissionKg >= 0.0 ==> Round4(emissionKg / KgPerCredit) >= 0.0 by {
      if emissionKg >= 0.0 {
        Round4NonNegative(emissionKg / KgPerCredit);
      }
    }
    Round4(emissionKg / KgPerCredit)
  }

  /** More emission never needs fewer credits. */
  lemma CarbonCreditsMonotone(e1: real, e2: real)
    requires e1 <= e2
    ensures CalculateCarbonCredits(e1) <= CalculateCarbonCredits(e2)
  {
    Round4Monotone(e1 / KgPerCredit, e2 / KgPerCredit);
  }

  /** Price range of a number of credits, in BRL. */
  datatype PriceEstimate = PriceEstimate(min: real, max: real, average: real)

  /**
   * `estimateCreditPrice`: the credits priced at the lowest and highest price, and
   * the average taken from the unrounded bounds, each rounded to two decimals; so
   * the average is the credits at the mean price, rounded once.
   */
  function EstimateCreditPrice(credits: real): (p: PriceEstimate)
    ensures TwoDecimals(p.min) && credits * PriceMinBrl - 0.005 < p.min <= credits * PriceMinBrl + 0.005
    ensures TwoDecimals(p.max) && credits * PriceMaxBrl - 0.005 < p.max <= credits * PriceMaxBrl + 0.005
    ensures var meanPrice := (PriceMinBrl + PriceMaxBrl) / 2.0;
      TwoDecimals(p.average) && credits * meanPrice - 0.005 < p.average <= credits * meanPrice + 0.005
    ensures credits >= 0.0 ==> 0.0 <= p.min <= p.average <= p.max
  {
    var min := credits * PriceMinBrl;
    var max := credits * PriceMaxBrl;
    var average := (min + max) / 2.0;
    assert credits >= 0.0 ==> 0.0 <= Round2(min) <= Round2(average) <= Round2(max) by {
      if credits >= 0.0 {
        Round2NonNegative(min);
        Round2Monotone(min, average);
        Round2Monotone(average, max);
      }
    }
    PriceEstimate(Round2(min), Round2(max), Round2(average))
  }

  /**
   * The average is not the midpoint of the rounded bounds: 0.0001 credits price at
   * 0.01 to 0.02 with average 0.01, while re-deriving it from the rounded bounds gives 0.02.
   */
  lemma AverageNotFromRoundedBounds()
    ensures var p := EstimateCreditPrice(0.0001);
      && p == PriceEstimate(0.01, 0.02, 0.01)
      && Round2((p.min + p.max) / 2.0) == 0.02
  {
    Round2Unique(0.005, 0.01);
    Round2Unique(0.015, 0.02);
    Round2OnGrid(0.01);
  }

  /** The car's 51.6 kg needs 0.0516 credits, priced at 2.58 to 7.74, 5.16 on average. */
  lemma CreditsForCarAt430()
    ensures CalculateCarbonCredits(51.6) == 0.0516
    ensures EstimateCreditPrice(0.0516) == PriceEstimate(2.58, 7.74, 5.16)
  {
    Round4Unique(0.0516, 0.0516);
    Round2OnGrid(2.58);
    Round2OnGrid(7.74);
    Round2OnGrid(5.16);
  }
}
