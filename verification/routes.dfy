/**
 * The route table `RoutesDB` and its two queries: `findDistance`, which looks
 * up the distance between two cities in either order after trimming and
 * lower-casing both names, and `getAllCities`, which lists every city once,
 * sorted.
 */
module Routes {
  import opened Options
  import opened Text
  import opened Search
  import Sorting

  /** A road route between two cities, with its distance in kilometres. */
  datatype Route = Route(origin: string, destination: string, distanceKm: int)

  // The cities of the table, named after their entries.
  const SaoPaulo: string := "São Paulo - SP"
  const RioDeJaneiro: string := "Rio de Janeiro - RJ"
  const Campinas: string := "Campinas - SP"
  const Santos: string := "Santos - SP"
  const BeloHorizonte: string := "Belo Horizonte - MG"
  const Niteroi: string := "Niterói - RJ"
  const OuroPreto: string := "Ouro Preto - MG"
  const Vitoria: string := "Vitória - ES"
  const Brasilia: string := "Brasília - DF"
  const Goiania: string := "Goiânia - GO"
  const Cuiaba: string := "Cuiabá - MT"
  const CampoGrande: string := "Campo Grande - MS"
  const Curitiba: string := "Curitiba - PR"
  const Florianopolis: string := "Florianópolis - SC"
  const PortoAlegre: string := "Porto Alegre - RS"
  const CaxiasDoSul: string := "Caxias do Sul - RS"
  const Joinville: string := "Joinville - SC"
  const Salvador: string := "Salvador - BA"
  const FeiraDeSantana: string := "Feira de Santana - BA"
  const Recife: string := "Recife - PE"
  const JoaoPessoa: string := "João Pessoa - PB"
  const Natal: string := "Natal - RN"
  const Fortaleza: string := "Fortaleza - CE"
  const Horizonte: string := "Horizonte - CE"
  const Pacajus: string := "Pacajus - CE"
  const Maceio: string := "Maceió - AL"
  const Aracaju: string := "Aracaju - SE"
  const SaoLuis: string := "São Luís - MA"
  const Teresina: string := "Teresina - PI"
  const Manaus: string := "Manaus - AM"
  const BoaVista: string := "Boa Vista - RR"
  const Belem: string := "Belém - PA"
  const Macapa: string := "Macapá - AP"
  const PortoVelho: string := "Porto Velho - RO"
  const RioBranco: string := "Rio Branco - AC"
  const Palmas: string := "Palmas - TO"

  /** `RoutesDB.routes`, in table order. */
  const Table: seq<Route> :=
    [
      // Sudeste
      Route(SaoPaulo, RioDeJaneiro, 430),
      Route(SaoPaulo, Campinas, 65),
      Route(SaoPaulo, Santos, 77),
      Route(SaoPaulo, BeloHorizonte, 586),
      Route(RioDeJaneiro, Niteroi, 13),
      Route(BeloHorizonte, OuroPreto, 100),
      Route(BeloHorizonte, Vitoria, 524),

      // Centro-Oeste
      Route(SaoPaulo, Brasilia, 1015),
      Route(RioDeJaneiro, Brasilia, 1148),
      Route(Brasilia, Goiania, 209),
      Route(Brasilia, Cuiaba, 1135),
      Route(CampoGrande, Cuiaba, 694),

      // Sul
      Route(Curitiba, SaoPaulo, 408),
      Route(Curitiba, Florianopolis, 300),
      Route(Florianopolis, PortoAlegre, 476),
      Route(PortoAlegre, CaxiasDoSul, 127),
      Route(Joinville, Curitiba, 130),

      // Nordeste
      Route(Salvador, FeiraDeSantana, 108),
      Route(Salvador, Recife, 839),
      Route(Recife, JoaoPessoa, 120),
      Route(Recife, Natal, 297),
      Route(Fortaleza, Horizonte, 42),
      Route(Fortaleza, Pacajus, 55),
      Route(Fortaleza, Natal, 537),
      Route(Maceio, Aracaju, 277),
      Route(SaoLuis, Teresina, 446),

      // Norte
      Route(Manaus, BoaVista, 785),
      Route(Belem, Macapa, 329),
      Route(Belem, SaoLuis, 806),
      Route(PortoVelho, RioBranco, 544),
      Route(Palmas, Brasilia, 973)
    ]

  /** The `normalize` helper of `findDistance`: `trim`, then `toLowerCase`. */
  function Normalize(s: string): (n: string)
    ensures Trimmed(n)
    ensures n == [] <==> AllWhitespace(s)
  {
    Lower(Trim(s))
  }

  /** Normalising a normalised name changes nothing. */
  lemma NormalizeIdempotent(s: string)
    ensures Normalize(Normalize(s)) == Normalize(s)
  {
    var n := Normalize(s);
    TrimOfTrimmed(n);
    LowerIdempotent(Trim(s));
  }

  /** A name without whitespace at its ends normalises to its lower-case form. */
  lemma NormalizeTrimmed(s: string)
    requires Trimmed(s)
    ensures Normalize(s) == Lower(s)
  {
    TrimOfTrimmed(s);
  }

  /** Route `r` joins the normalised names `a` and `b`, in one direction or the other. */
  predicate Matches(r: Route, a: string, b: string) {
    || (Normalize(r.origin) == a && Normalize(r.destination) == b)
    || (Normalize(r.origin) == b && Normalize(r.destination) == a)
  }

  /** The callback `findDistance` passes to `find`, for the normalised names `a` and `b`. */
  function Joins(a: string, b: string): Route -> bool {
    r => Matches(r, a, b)
  }

  /**
   * `findDistance` over a given table: `null` (here `None`) when either name is
   * empty or no route joins the normalised names, and otherwise the distance of
   * the first route that does.
   */
  function FindDistanceIn(routes: seq<Route>, origin: string, destination: string): (d: Option<int>)
    ensures origin == [] || destination == [] ==> d == None
    ensures d.Some? <==>
      origin != [] && destination != [] && !NoneSatisfy(routes, Joins(Normalize(origin), Normalize(destination)))
    ensures d.Some? ==> exists i :: IsFirst(routes, i, Joins(Normalize(origin), Normalize(destination)))
                                    && routes[i].distanceKm == d.value
  {
    if origin == [] || destination == [] then None
    else
      match FindFirst(routes, Joins(Normalize(origin), Normalize(destination)))
      case None => None
      case Some(i) => Some(routes[i].distanceKm)
  }

  /** `RoutesDB.findDistance`: a found distance is one of the table's, hence positive. */
  function FindDistance(origin: string, destination: string): (d: Option<int>)
    ensures d.Some? ==> d.value > 0
    ensures d.Some? ==> exists i :: IsFirst(Table, i, Joins(Normalize(origin), Normalize(destination)))
                                    && Table[i].distanceKm == d.value
  {
    TableDistancesPositive();
    FindDistanceIn(Table, origin, destination)
  }

  /** The lookup does not depend on which name is the origin. */
  lemma FindDistanceSymmetric(routes: seq<Route>, origin: string, destination: string)
    ensures FindDistanceIn(routes, origin, destination) == FindDistanceIn(routes, destination, origin)
  {
    var a, b := Normalize(origin), Normalize(destination);
    FindFirstAgree(routes, Joins(a, b), Joins(b, a));
  }

  /** Every name in `routes` keeps some non-whitespace character. */
  predicate NamesNotBlank(routes: seq<Route>) {
    forall j :: 0 <= j < |routes| ==> Normalize(routes[j].origin) != [] && Normalize(routes[j].destination) != []
  }

  /**
   * The lookup sees only the normalised names: names that differ in case or in
   * surrounding whitespace give the same answer. This includes a blank name,
   * which passes the emptiness check but then matches no route.
   */
  lemma FindDistanceNormalized(routes: seq<Route>, a: string, b: string, a': string, b': string)
    requires NamesNotBlank(routes)
    requires Normalize(a) == Normalize(a') && Normalize(b) == Normalize(b')
    ensures FindDistanceIn(routes, a, b) == FindDistanceIn(routes, a', b')
  {
    if a != [] && b != [] && a' != [] && b' != [] {
      NonEmptyPair(routes, a, b, a', b');
    } else {
      BlankPair(routes, a, b, a', b');
    }
  }

  /** Names that differ only in writing some small letters as capitals normalise alike. */
  lemma NormalizeIgnoresCase(a: string, b: string)
    requires CaseVariant(a, b)
    ensures Normalize(a) == Normalize(b)
  {
    TrimIgnoresCase(a, b);
    LowerIgnoresCase(Trim(a), Trim(b));
  }

  /**
   * The lookup ignores case: writing some small letters of either name as
   * capitals gives the same answer over any table.
   */
  lemma FindDistanceIgnoresCase(routes: seq<Route>, a: string, b: string, a': string, b': string)
    requires CaseVariant(a', a) && CaseVariant(b', b)
    ensures FindDistanceIn(routes, a', b') == FindDistanceIn(routes, a, b)
  {
    NormalizeIgnoresCase(a', a);
    NormalizeIgnoresCase(b', b);
  }

  /** Non-empty names with the same normal forms search for the same route. */
  lemma NonEmptyPair(routes: seq<Route>, a: string, b: string, a': string, b': string)
    requires a != [] && b != [] && a' != [] && b' != []
    requires Normalize(a) == Normalize(a') && Normalize(b) == Normalize(b')
    ensures FindDistanceIn(routes, a, b) == FindDistanceIn(routes, a', b')
  {
  }

  /** When a name is empty, its counterpart with the same normal form is blank, and both lookups fail. */
  lemma BlankPair(routes: seq<Route>, a: string, b: string, a': string, b': string)
    requires NamesNotBlank(routes)
    requires Normalize(a) == Normalize(a') && Normalize(b) == Normalize(b')
    requires a == [] || a' == [] || b == [] || b' == []
    ensures FindDistanceIn(routes, a, b) == None && FindDistanceIn(routes, a', b') == None
  {
    EmptyIsBlank(a);
    EmptyIsBlank(a');
    EmptyIsBlank(b);
    EmptyIsBlank(b');
    BlankFindsNothing(routes, a, b);
    BlankFindsNothing(routes, a', b');
  }

  /** The empty string is all whitespace. */
  lemma EmptyIsBlank(s: string)
    ensures s == [] ==> AllWhitespace(s)
  {
  }

  /** A name that is empty or all whitespace makes the lookup fail. */
  lemma BlankFindsNothing(routes: seq<Route>, a: string, b: string)
    requires NamesNotBlank(routes)
    requires AllWhitespace(a) || AllWhitespace(b)
    ensures FindDistanceIn(routes, a, b) == None
  {
    BlankMatchesNothing(routes, a, b);
  }

  /** A name that is empty or all whitespace matches no route whose names are not blank. */
  lemma BlankMatchesNothing(routes: seq<Route>, a: string, b: string)
    requires NamesNotBlank(routes)
    requires AllWhitespace(a) || AllWhitespace(b)
    ensures NoneSatisfy(routes, Joins(Normalize(a), Normalize(b)))
  {
  }

  /** Every distance in the table is positive. */
  lemma TableDistancesPositive()
    ensures forall j :: 0 <= j < |Table| ==> Table[j].distanceKm > 0
  {
  }

  /** A city name of at least two characters with no whitespace at its ends. */
  predicate WellFormedName(s: string) {
    |s| >= 2 && Trimmed(s)
  }

  // `Cities`, `Legs`, `Sigs` and `FirstRows` re-encode `Table` by position. They exist
  // only to keep the distinctness proofs about the table small.

  /** The table's cities, each once, in the order they first appear in it. */
  const Cities: seq<string> :=
    [
      SaoPaulo, RioDeJaneiro, Campinas, Santos, BeloHorizonte, Niteroi, OuroPreto, Vitoria,
      Brasilia, Goiania, Cuiaba, CampoGrande, Curitiba, Florianopolis, PortoAlegre,
      CaxiasDoSul, Joinville, Salvador, FeiraDeSantana, Recife, JoaoPessoa, Natal,
      Fortaleza, Horizonte, Pacajus, Maceio, Aracaju, SaoLuis, Teresina, Manaus, BoaVista,
      Belem, Macapa, PortoVelho, RioBranco, Palmas
    ]

  /** The table's rows as positions in `Cities`: origin, then destination. */
  const Legs: seq<(int, int)> :=
    [
      (0, 1), (0, 2), (0, 3), (0, 4), (1, 5), (4, 6), (4, 7), (0, 8), (1, 8), (8, 9),
      (8, 10), (11, 10), (12, 0), (12, 13), (13, 14), (14, 15), (16, 12), (17, 18),
      (17, 19), (19, 20), (19, 21), (22, 23), (22, 24), (22, 21), (25, 26), (27, 28),
      (29, 30), (31, 32), (31, 27), (33, 34), (35, 8)
    ]

  /** Length and lower-cased first and last two characters: enough to tell the cities apart. */
  function NameSig(s: string): (int, char, char, char)
    requires |s| >= 2
  {
    (|s|, LowerChar(s[0]), LowerChar(s[|s| - 2]), LowerChar(s[|s| - 1]))
  }

  /** The signatures of `Cities`, position by position. */
  const Sigs: seq<(int, char, char, char)> :=
    [
      (14, 's', 's', 'p'), (19, 'r', 'r', 'j'), (13, 'c', 's', 'p'), (11, 's', 's', 'p'),
      (19, 'b', 'm', 'g'), (12, 'n', 'r', 'j'), (15, 'o', 'm', 'g'), (12, 'v', 'e', 's'),
      (13, 'b', 'd', 'f'), (12, 'g', 'g', 'o'), (11, 'c', 'm', 't'), (17, 'c', 'm', 's'),
      (13, 'c', 'p', 'r'), (18, 'f', 's', 'c'), (17, 'p', 'r', 's'), (18, 'c', 'r', 's'),
      (14, 'j', 's', 'c'), (13, 's', 'b', 'a'), (21, 'f', 'b', 'a'), (11, 'r', 'p', 'e'),
      (16, 'j', 'p', 'b'), (10, 'n', 'r', 'n'), (14, 'f', 'c', 'e'), (14, 'h', 'c', 'e'),
      (12, 'p', 'c', 'e'), (11, 'm', 'a', 'l'), (12, 'a', 's', 'e'), (13, 's', 'm', 'a'),
      (13, 't', 'p', 'i'), (11, 'm', 'a', 'm'), (14, 'b', 'r', 'r'), (10, 'b', 'p', 'a'),
      (11, 'm', 'a', 'p'), (16, 'p', 'r', 'o'), (15, 'r', 'a', 'c'), (11, 'p', 't', 'o')
    ]

  /** Well-formed names with the same normal form have the same signature. */
  lemma SameNormalSameSig(x: string, y: string)
    requires WellFormedName(x) && WellFormedName(y)
    requires Normalize(x) == Normalize(y)
    ensures NameSig(x) == NameSig(y)
  {
    NormalizeTrimmed(x);
    NormalizeTrimmed(y);
    var lx, ly := Lower(x), Lower(y);
    assert lx == ly;
    assert |x| == |lx| == |ly| == |y|;
    assert lx[0] == LowerChar(x[0]) && ly[0] == LowerChar(y[0]);
    assert lx[|x| - 2] == LowerChar(x[|x| - 2]) && ly[|y| - 2] == LowerChar(y[|y| - 2]);
    assert lx[|x| - 1] == LowerChar(x[|x| - 1]) && ly[|y| - 1] == LowerChar(y[|y| - 1]);
  }

  /** Every city name is well formed: its signature shows a length of at least 2 and letters at both ends. */
  lemma CitiesWellFormed()
    ensures forall a :: 0 <= a < |Cities| ==> WellFormedName(Cities[a])
  {
    CitySigs();
    SigsLetters();
    forall a | 0 <= a < |Cities|
      ensures WellFormedName(Cities[a])
    {
      SigShowsWellFormed(Cities[a]);
    }
  }

  /** A name whose signature has a length of at least 2 and non-whitespace ends is well formed. */
  lemma SigShowsWellFormed(s: string)
    requires |s| >= 2
    requires !IsJsWhitespace(NameSig(s).1) && !IsJsWhitespace(NameSig(s).3)
    ensures WellFormedName(s)
  {
  }

  /** Every signature has a length of at least 2 and non-whitespace end characters. */
  lemma SigsLetters()
    ensures forall a :: 0 <= a < |Sigs| ==>
      Sigs[a].0 >= 2 && !IsJsWhitespace(Sigs[a].1) && !IsJsWhitespace(Sigs[a].3)
  {
  }

  /** The signature of each city. */
  lemma CitySigValues()
    ensures |SaoPaulo| >= 2 && NameSig(SaoPaulo) == (14, 's', 's', 'p')
    ensures |RioDeJaneiro| >= 2 && NameSig(RioDeJaneiro) == (19, 'r', 'r', 'j')
    ensures |Campinas| >= 2 && NameSig(Campinas) == (13, 'c', 's', 'p')
    ensures |Santos| >= 2 && NameSig(Santos) == (11, 's', 's', 'p')
    ensures |BeloHorizonte| >= 2 && NameSig(BeloHorizonte) == (19, 'b', 'm', 'g')
    ensures |Niteroi| >= 2 && NameSig(Niteroi) == (12, 'n', 'r', 'j')
    ensures |OuroPreto| >= 2 && NameSig(OuroPreto) == (15, 'o', 'm', 'g')
    ensures |Vitoria| >= 2 && NameSig(Vitoria) == (12, 'v', 'e', 's')
    ensures |Brasilia| >= 2 && NameSig(Brasilia) == (13, 'b', 'd', 'f')
    ensures |Goiania| >= 2 && NameSig(Goiania) == (12, 'g', 'g', 'o')
    ensures |Cuiaba| >= 2 && NameSig(Cuiaba) == (11, 'c', 'm', 't')
    ensures |CampoGrande| >= 2 && NameSig(CampoGrande) == (17, 'c', 'm', 's')
    ensures |Curitiba| >= 2 && NameSig(Curitiba) == (13, 'c', 'p', 'r')
    ensures |Florianopolis| >= 2 && NameSig(Florianopolis) == (18, 'f', 's', 'c')
    ensures |PortoAlegre| >= 2 && NameSig(PortoAlegre) == (17, 'p', 'r', 's')
    ensures |CaxiasDoSul| >= 2 && NameSig(CaxiasDoSul) == (18, 'c', 'r', 's')
    ensures |Joinville| >= 2 && NameSig(Joinville) == (14, 'j', 's', 'c')
    ensures |Salvador| >= 2 && NameSig(Salvador) == (13, 's', 'b', 'a')
    ensures |FeiraDeSantana| >= 2 && NameSig(FeiraDeSantana) == (21, 'f', 'b', 'a')
    ensures |Recife| >= 2 && NameSig(Recife) == (11, 'r', 'p', 'e')
    ensures |JoaoPessoa| >= 2 && NameSig(JoaoPessoa) == (16, 'j', 'p', 'b')
    ensures |Natal| >= 2 && NameSig(Natal) == (10, 'n', 'r', 'n')
    ensures |Fortaleza| >= 2 && NameSig(Fortaleza) == (14, 'f', 'c', 'e')
    ensures |Horizonte| >= 2 && NameSig(Horizonte) == (14, 'h', 'c', 'e')
    ensures |Pacajus| >= 2 && NameSig(Pacajus) == (12, 'p', 'c', 'e')
    ensures |Maceio| >= 2 && NameSig(Maceio) == (11, 'm', 'a', 'l')
    ensures |Aracaju| >= 2 && NameSig(Aracaju) == (12, 'a', 's', 'e')
    ensures |SaoLuis| >= 2 && NameSig(SaoLuis) == (13, 's', 'm', 'a')
    ensures |Teresina| >= 2 && NameSig(Teresina) == (13, 't', 'p', 'i')
    ensures |Manaus| >= 2 && NameSig(Manaus) == (11, 'm', 'a', 'm')
    ensures |BoaVista| >= 2 && NameSig(BoaVista) == (14, 'b', 'r', 'r')
    ensures |Belem| >= 2 && NameSig(Belem) == (10, 'b', 'p', 'a')
    ensures |Macapa| >= 2 && NameSig(Macapa) == (11, 'm', 'a', 'p')
    ensures |PortoVelho| >= 2 && NameSig(PortoVelho) == (16, 'p', 'r', 'o')
    ensures |RioBranco| >= 2 && NameSig(RioBranco) == (15, 'r', 'a', 'c')
    ensures |Palmas| >= 2 && NameSig(Palmas) == (11, 'p', 't', 'o')
  {
  }

  /** Every city has the listed signature. */
  lemma CitySigs()
    ensures |Sigs| == |Cities|
    ensures forall a :: 0 <= a < |Cities| ==> |Cities[a]| >= 2 && NameSig(Cities[a]) == Sigs[a]
  {
    CitySigsFirst();
    CitySigsMiddle();
    CitySigsLast();
  }

  /** `CitySigs` for the first twelve cities (proved apart to keep each proof small). */
  lemma CitySigsFirst()
    ensures |Sigs| == |Cities|
    ensures forall a :: 0 <= a < 12 ==> |Cities[a]| >= 2 && NameSig(Cities[a]) == Sigs[a]
  {
    assert |Sigs| == |Cities| == 36;
    CitySigValues();
  }

  /** `CitySigs` for cities 12 to 23. */
  lemma CitySigsMiddle()
    ensures |Sigs| == |Cities|
    ensures forall a :: 12 <= a < 24 ==> |Cities[a]| >= 2 && NameSig(Cities[a]) == Sigs[a]
  {
    assert |Sigs| == |Cities| == 36;
    CitySigValues();
  }

  /** `CitySigs` for the cities from 24 on. */
  lemma CitySigsLast()
    ensures |Sigs| == |Cities|
    ensures forall a :: 24 <= a < |Cities| ==> |Cities[a]| >= 2 && NameSig(Cities[a]) == Sigs[a]
  {
    assert |Sigs| == |Cities| == 36;
    CitySigValues();
  }

  /** The signatures are pairwise different. */
  lemma SigsDistinct()
    ensures forall a, c :: 0 <= a < c < |Sigs| ==> Sigs[a] != Sigs[c]
  {
    SigsDistinctFirst();
    SigsDistinctMiddle();
    SigsDistinctLast();
  }

  /** The first four signatures differ from every later one (proved apart to keep each proof small). */
  lemma SigsDistinctFirst()
    ensures forall a, c :: 0 <= a < 4 && a < c < |Sigs| ==> Sigs[a] != Sigs[c]
  {
  }

  /** Signatures 4 to 10 differ from every later one. */
  lemma SigsDistinctMiddle()
    ensures forall a, c :: 4 <= a < 11 && a < c < |Sigs| ==> Sigs[a] != Sigs[c]
  {
  }

  /** Signatures from 11 on differ from every later one. */
  lemma SigsDistinctLast()
    ensures forall a, c :: 11 <= a < c < |Sigs| ==> Sigs[a] != Sigs[c]
  {
  }

  /** Two cities have the same normal form exactly when they are the same city. */
  lemma CitiesNormalDistinct(a: int, c: int)
    requires 0 <= a < |Cities| && 0 <= c < |Cities|
    ensures Normalize(Cities[a]) == Normalize(Cities[c]) <==> a == c
  {
    if Normalize(Cities[a]) == Normalize(Cities[c]) {
      CitiesWellFormed();
      CitySigs();
      SameNormalSameSig(Cities[a], Cities[c]);
      SigsDistinct();
    }
  }

  /** Each row of the table joins the cities its leg points to. */
  lemma TableLegs()
    ensures |Legs| == |Table|
    ensures forall i :: 0 <= i < |Table| ==>
      && 0 <= Legs[i].0 < |Cities| && 0 <= Legs[i].1 < |Cities|
      && Table[i].origin == Cities[Legs[i].0] && Table[i].destination == Cities[Legs[i].1]
  {
    TableLegsFirst();
    TableLegsSecond();
    TableLegsThird();
    TableLegsLast();
  }

  /** `TableLegs` for the first four rows (proved apart to keep each proof small). */
  lemma TableLegsFirst()
    ensures |Legs| == |Table|
    ensures forall i :: 0 <= i < 4 ==>
      && 0 <= Legs[i].0 < |Cities| && 0 <= Legs[i].1 < |Cities|
      && Table[i].origin == Cities[Legs[i].0] && Table[i].destination == Cities[Legs[i].1]
  {
    assert |Table| == |Legs| == 31 && |Cities| == 36;
  }

  /** `TableLegs` for rows 4 to 7. */
  lemma TableLegsSecond()
    ensures |Legs| == |Table|
    ensures forall i :: 4 <= i < 8 ==>
      && 0 <= Legs[i].0 < |Cities| && 0 <= Legs[i].1 < |Cities|
      && Table[i].origin == Cities[Legs[i].0] && Table[i].destination == Cities[Legs[i].1]
  {
    assert |Table| == |Legs| == 31 && |Cities| == 36;
  }

  /** `TableLegs` for rows 8 to 15. */
  lemma TableLegsThird()
    ensures |Legs| == |Table|
    ensures forall i :: 8 <= i < 16 ==>
      && 0 <= Legs[i].0 < |Cities| && 0 <= Legs[i].1 < |Cities|
      && Table[i].origin == Cities[Legs[i].0] && Table[i].destination == Cities[Legs[i].1]
  {
    assert |Table| == |Legs| == 31 && |Cities| == 36;
  }

  /** `TableLegs` for the rows from 16 on. */
  lemma TableLegsLast()
    ensures |Legs| == |Table|
    ensures forall i :: 16 <= i < |Table| ==>
      && 0 <= Legs[i].0 < |Cities| && 0 <= Legs[i].1 < |Cities|
      && Table[i].origin == Cities[Legs[i].0] && Table[i].destination == Cities[Legs[i].1]
  {
    assert |Table| == |Legs| == 31 && |Cities| == 36;
  }

  /** No two legs join the same two cities, in either direction. */
  lemma LegsDistinct()
    ensures forall i, j :: 0 <= j < i < |Legs| ==> Legs[j] != Legs[i] && (Legs[j].0, Legs[j].1) != (Legs[i].1, Legs[i].0)
  {
    LegsDistinctFirst();
    LegsDistinctMiddle();
    LegsDistinctLast();
  }

  /** `LegsDistinct` when the earlier leg is one of the first four (proved apart to keep each proof small). */
  lemma LegsDistinctFirst()
    ensures forall i, j :: 0 <= j < 4 && j < i < |Legs| ==>
      Legs[j] != Legs[i] && (Legs[j].0, Legs[j].1) != (Legs[i].1, Legs[i].0)
  {
  }

  /** `LegsDistinct` when the earlier leg is one of legs 4 to 9. */
  lemma LegsDistinctMiddle()
    ensures forall i, j :: 4 <= j < 10 && j < i < |Legs| ==>
      Legs[j] != Legs[i] && (Legs[j].0, Legs[j].1) != (Legs[i].1, Legs[i].0)
  {
  }

  /** `LegsDistinct` when the earlier leg is leg 10 or later. */
  lemma LegsDistinctLast()
    ensures forall i, j :: 10 <= j < i < |Legs| ==>
      Legs[j] != Legs[i] && (Legs[j].0, Legs[j].1) != (Legs[i].1, Legs[i].0)
  {
  }

  /** Row `i` is the first row that joins its own two cities: no earlier row joins the same pair. */
  lemma TableRowFirst(i: int)
    requires 0 <= i < |Table|
    ensures IsFirst(Table, i, Joins(Normalize(Table[i].origin), Normalize(Table[i].destination)))
  {
    TableLegs();
    LegsDistinct();
    var a, b := Normalize(Table[i].origin), Normalize(Table[i].destination);
    forall j | 0 <= j < i
      ensures !Matches(Table[j], a, b)
    {
      CitiesNormalDistinct(Legs[j].0, Legs[i].0);
      CitiesNormalDistinct(Legs[j].1, Legs[i].1);
      CitiesNormalDistinct(Legs[j].0, Legs[i].1);
      CitiesNormalDistinct(Legs[j].1, Legs[i].0);
    }
  }

  /** Every name in the table keeps a non-whitespace character after normalisation. */
  lemma TableNamesNotBlank()
    ensures NamesNotBlank(Table)
  {
    TableLegs();
    CitiesWellFormed();
  }

  /** Looking up the two cities of any row, in either order, finds that row's distance. */
  lemma TableLookupComplete(i: int)
    requires 0 <= i < |Table|
    ensures FindDistance(Table[i].origin, Table[i].destination) == Some(Table[i].distanceKm)
    ensures FindDistance(Table[i].destination, Table[i].origin) == Some(Table[i].distanceKm)
  {
    var origin, destination := Table[i].origin, Table[i].destination;
    TableRowNames(i);
    assert origin != [] && destination != [];
    var p := Joins(Normalize(origin), Normalize(destination));
    TableRowFirst(i);
    assert !NoneSatisfy(Table, p);
    var k := FindFirst(Table, p);
    IsFirstUnique(Table, i, k.value, p);
    assert FindDistanceIn(Table, origin, destination) == Some(Table[i].distanceKm);
    FindDistanceSymmetric(Table, origin, destination);
  }

  /** Both names of a row are well formed. */
  lemma TableRowNames(i: int)
    requires 0 <= i < |Table|
    ensures WellFormedName(Table[i].origin) && WellFormedName(Table[i].destination)
  {
    TableLegs();
    CitiesWellFormed();
  }

  /** São Paulo to Rio de Janeiro is 430 km, whichever city is named first. */
  lemma SaoPauloRio()
    ensures FindDistance(SaoPaulo, RioDeJaneiro) == Some(430)
    ensures FindDistance(RioDeJaneiro, SaoPaulo) == Some(430)
  {
    TableLookupComplete(0);
  }

  /** Case does not matter: "SÃO PAULO - SP" against "RIO DE JANEIRO - RJ" is still 430 km. */
  lemma SaoPauloRioInCapitals()
    ensures FindDistance("SÃO PAULO - SP", "RIO DE JANEIRO - RJ") == Some(430)
  {
    SaoPauloRio();
    SaoPauloCapitals();
    RioDeJaneiroCapitals();
    FindDistanceIgnoresCase(Table, SaoPaulo, RioDeJaneiro, "SÃO PAULO - SP", "RIO DE JANEIRO - RJ");
  }

  /** "SÃO PAULO - SP" is São Paulo's name in capitals. */
  lemma SaoPauloCapitals()
    ensures CaseVariant("SÃO PAULO - SP", SaoPaulo)
  {
  }

  /** "RIO DE JANEIRO - RJ" is Rio de Janeiro's name in capitals. */
  lemma RioDeJaneiroCapitals()
    ensures CaseVariant("RIO DE JANEIRO - RJ", RioDeJaneiro)
  {
  }

  /** The names `getAllCities` pushes: origin, then destination, row by row. */
  function CityList(routes: seq<Route>): (c: seq<string>)
    ensures |c| == 2 * |routes|
    ensures forall i :: 0 <= i < |routes| ==> c[2 * i] == routes[i].origin && c[2 * i + 1] == routes[i].destination
  {
    if |routes| == 0 then []
    else
      var rest := CityList(routes[1..]);
      assert forall i :: 1 <= i < |routes| ==> routes[i] == routes[1..][i - 1];
      [routes[0].origin, routes[0].destination] + rest
  }

  /** A name is in the pushed list exactly when some row starts or ends there. */
  lemma {:induction false} CityListMembers(routes: seq<Route>, x: string)
    ensures x in CityList(routes) <==> exists i :: 0 <= i < |routes| && (routes[i].origin == x || routes[i].destination == x)
  {
    var c := CityList(routes);
    if x in c {
      var k :| 0 <= k < |c| && c[k] == x;
      var i := k / 2;
      assert k == 2 * i || k == 2 * i + 1;
      assert c[2 * i] == routes[i].origin && c[2 * i + 1] == routes[i].destination;
    }
    if exists i :: 0 <= i < |routes| && (routes[i].origin == x || routes[i].destination == x) {
      var i :| 0 <= i < |routes| && (routes[i].origin == x || routes[i].destination == x);
      assert c[2 * i] == routes[i].origin && c[2 * i + 1] == routes[i].destination;
    }
  }

  /** `[...new Set(s)]`: each element of `s` exactly once. Its order is not stated: `getAllCities` sorts it. */
  function Dedup<T(==,!new)>(s: seq<T>): (r: seq<T>)
    ensures Sorting.Distinct(r)
    ensures forall x :: x in r <==> x in s
  {
    if |s| == 0 then []
    else
      var init := s[..|s| - 1];
      var x := s[|s| - 1];
      assert s == init + [x];
      var r := Dedup(init);
      if x in r then r else r + [x]
  }

  /** A sequence without repeats is its own set, in the same order. */
  lemma {:induction false} DedupOfDistinct<T(!new)>(s: seq<T>)
    requires Sorting.Distinct(s)
    ensures Dedup(s) == s
  {
    if |s| > 0 {
      var init := s[..|s| - 1];
      DedupOfDistinct(init);
      assert s == init + [s[|s| - 1]];
      assert s[|s| - 1] !in init;
    }
  }

  /** Comparing by character codes is a total preorder. */
  lemma LexLeTotalPreorder()
    ensures Sorting.TotalPreorder(LexLe)
  {
    forall a, b
      ensures LexLe(a, b) || LexLe(b, a)
    {
      LexLeTotal(a, b);
    }
    forall a, b, c | LexLe(a, b) && LexLe(b, c)
      ensures LexLe(a, c)
    {
      LexLeTransitive(a, b, c);
    }
  }

  /**
   * `getAllCities` over a given table: every origin and destination, each once,
   * in ascending order.
   */
  function AllCitiesIn(routes: seq<Route>): (c: seq<string>)
    ensures Sorting.Distinct(c)
    ensures Sorting.SortedBy(c, LexLe)
    ensures forall x :: x in c <==> exists i :: 0 <= i < |routes| && (routes[i].origin == x || routes[i].destination == x)
  {
    var names := Dedup(CityList(routes));
    var sorted := Sorting.SortBy(names, LexLe);
    LexLeTotalPreorder();
    Sorting.SortBySorted(names, LexLe);
    Sorting.SortByDistinct(names, LexLe);
    forall x
      ensures x in sorted <==> exists i :: 0 <= i < |routes| && (routes[i].origin == x || routes[i].destination == x)
    {
      assert x in sorted <==> x in multiset(names);
      CityListMembers(routes, x);
    }
    sorted
  }

  /** `RoutesDB.getAllCities`. */
  function AllCities(): (c: seq<string>)
    ensures Sorting.Distinct(c)
    ensures Sorting.SortedBy(c, LexLe)
    ensures forall x :: x in c <==> exists i :: 0 <= i < |Table| && (Table[i].origin == x || Table[i].destination == x)
  {
    AllCitiesIn(Table)
  }

  /** For each city, the first row that names it. */
  const FirstRows: seq<int> :=
    [
      0, 0, 1, 2, 3, 4, 5, 6, 7, 9, 10, 11, 12, 13, 14, 15, 16, 17, 17, 18, 19, 20, 21, 21, 22, 24, 24, 25, 25, 26, 26, 27, 27, 29, 29, 30
    ]

  /** Every city is named by some row: the one `FirstRows` gives. */
  lemma FirstRowsNameCities()
    ensures |FirstRows| == |Cities|
    ensures forall a :: 0 <= a < |Cities| ==>
      0 <= FirstRows[a] < |Legs| && (Legs[FirstRows[a]].0 == a || Legs[FirstRows[a]].1 == a)
  {
  }

  /** The cities of the table are exactly `Cities`. */
  lemma CitiesOfTable(x: string)
    ensures x in Cities <==> exists i :: 0 <= i < |Table| && (Table[i].origin == x || Table[i].destination == x)
  {
    TableLegs();
    if x in Cities {
      var a :| 0 <= a < |Cities| && Cities[a] == x;
      FirstRowsNameCities();
      var i := FirstRows[a];
      assert Table[i].origin == x || Table[i].destination == x;
    }
  }

  /** No city is listed twice. */
  lemma CitiesDistinct()
    ensures Sorting.Distinct(Cities)
  {
    CitySigs();
    SigsDistinct();
  }

  /** Sequences without repeats that hold the same elements have the same length. */
  lemma DistinctSameLength<T>(a: seq<T>, b: seq<T>)
    requires Sorting.Distinct(a) && Sorting.Distinct(b)
    requires forall x :: x in a <==> x in b
    ensures |a| == |b|
  {
    forall x
      ensures multiset(a)[x] == multiset(b)[x]
    {
      Sorting.DistinctCount(a, x);
      Sorting.DistinctCount(b, x);
      assert x in a <==> x in multiset(a);
      assert x in b <==> x in multiset(b);
    }
    assert multiset(a) == multiset(b);
  }

  /** `getAllCities` lists the 36 cities of the table. */
  lemma AllCitiesCount()
    ensures forall x :: x in AllCities() <==> x in Cities
    ensures |AllCities()| == 36
  {
    forall x
      ensures x in AllCities() <==> x in Cities
    {
      CitiesOfTable(x);
    }
    CitiesDistinct();
    DistinctSameLength(AllCities(), Cities);
  }
}
