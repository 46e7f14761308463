/**
 * The constant tables of `CONFIG` that the calculator reads: the emission factor
 * of every transport mode, the per-mode display metadata, and the carbon-credit
 * parameters. The closed `Mode` type stands for the string keys of
 * `EMISSION_FACTORS`; `ParseMode` relates the two.
 */
module Config {
  import opened Options

  /** A transport mode, i.e. a key of `EMISSION_FACTORS`. */
  datatype Mode = Bicycle | Car | Bus | Truck

  /** The string key a mode has in the configuration objects. */
  function Key(m: Mode): string {
    match m
    case Bicycle => "bicycle"
    case Car => "car"
    case Bus => "bus"
    case Truck => "truck"
  }

  /** `EMISSION_FACTORS`: kilograms of CO2 per kilometre, keyed by mode. */
  const EmissionFactors: map<string, real> :=
    map["bicycle" := 0.0, "car" := 0.12, "bus" := 0.089, "truck" := 0.96]

  /**
   * The insertion order of the keys of `EMISSION_FACTORS`, which is the order a
   * `for ... in` loop over that object visits them.
   */
  const ModeOrder: seq<Mode> := [Bicycle, Car, Bus, Truck]

  /** The mode named by a key, or `None` where `EMISSION_FACTORS[key]` is `undefined`. */
  function ParseMode(key: string): (m: Option<Mode>)
    ensures m.Some? <==> key in EmissionFactors
    ensures m.Some? ==> Key(m.value) == key
  {
    if key == "bicycle" then Some(Bicycle)
    else if key == "car" then Some(Car)
    else if key == "bus" then Some(Bus)
    else if key == "truck" then Some(Truck)
    else None
  }

  /** The factor of a mode, read from `EMISSION_FACTORS`; every factor is non-negative. */
  function Factor(m: Mode): (f: real)
    ensures f >= 0.0
  {
    EmissionFactors[Key(m)]
  }

  /** The position of a mode in the iteration order. */
  function Rank(m: Mode): (i: nat)
    ensures i < |ModeOrder| && ModeOrder[i] == m
  {
    match m
    case Bicycle => 0
    case Car => 1
    case Bus => 2
    case Truck => 3
  }

  /** Display metadata of a mode (`TRANSPORT_MODES`), used only for rendering; `caption` is the source's `label`. */
  datatype ModeInfo = ModeInfo(caption: string, icon: string, color: string)

  /** `TRANSPORT_MODES`: label, icon and colour keyed by mode. */
  const TransportModes: map<string, ModeInfo> :=
    map[
      "bicycle" := ModeInfo("Bicicleta", "\U{1F6B2}", "#10b981"),
      "car" := ModeInfo("Carro", "\U{1F697}", "#3b82f6"),
      "bus" := ModeInfo("Ônibus", "\U{1F68C}", "#f59e0b"),
      "truck" := ModeInfo("Caminhão", "\U{1F69A}", "#ef4444")
    ]

  /** `CARBON_CREDIT.KG_PER_CREDIT`: kilograms of CO2 offset by one credit. */
  const KgPerCredit: real := 1000.0

  /** `CARBON_CREDIT.PRICE_MIN_BRL`: lowest price of one credit, in BRL. */
  const PriceMinBrl: real := 50.0

  /** `CARBON_CREDIT.PRICE_MAX_BRL`: highest price of one credit, in BRL. */
  const PriceMaxBrl: real := 150.0

  /** Key and `ParseMode` are inverse: every mode's key parses back to it. */
  lemma ParseKey(m: Mode)
    ensures ParseMode(Key(m)) == Some(m)
  {
  }

  /**
   * The iteration order visits exactly the keys of `EMISSION_FACTORS`, each once,
   * and `TRANSPORT_MODES` has the same key set, so every mode has metadata.
   */
  lemma ModeTablesAgree()
    ensures forall i, j :: 0 <= i < j < |ModeOrder| ==> ModeOrder[i] != ModeOrder[j]
    ensures (set m | m in ModeOrder :: Key(m)) == EmissionFactors.Keys
    ensures TransportModes.Keys == EmissionFactors.Keys
    ensures forall m: Mode :: Key(m) in TransportModes
  {
    assert Key(ModeOrder[0]) == "bicycle";
    assert Key(ModeOrder[1]) == "car";
    assert Key(ModeOrder[2]) == "bus";
    assert Key(ModeOrder[3]) == "truck";
  }

  /** The factors, and their strict order bicycle < bus < car < truck. */
  lemma FactorValues()
    ensures Factor(Bicycle) == 0.0 && Factor(Car) == 0.12
    ensures Factor(Bus) == 0.089 && Factor(Truck) == 0.96
    ensures Factor(Bicycle) < Factor(Bus) < Factor(Car) < Factor(Truck)
  {
  }

  /** The credit parameters are usable: a positive divisor and a non-empty price range. */
  lemma CreditConfigValid()
    ensures KgPerCredit > 0.0
    ensures 0.0 < PriceMinBrl <= PriceMaxBrl
  {
  }
}
