# CO2 emission calculator — Dafny model

A model of the calculation core of a browser calculator for the CO2 emitted by a road
trip in Brazil. The core has three parts.

- **The `Calculator` object.** It gives:
  - the emission of a trip for a transport mode;
  - a comparison of every mode against the car, sorted by emission;
  - the saving against a baseline;
  - the carbon credits needed to offset an emission;
  - the price range of those credits.
- **The `CONFIG` tables it reads.** These are the emission factor of each mode, the display metadata of each mode, and the carbon-credit parameters.
- **The route table `RoutesDB`.** It has two queries:
  - `findDistance` looks up a distance between two cities, in either order, after trimming and lower-casing the names;
  - `getAllCities` lists every city once, sorted.

Numbers are exact reals. `Math.round(x * 100) / 100` is modelled as `Rounding.Round2`, and `Math.round(x * 10000) / 10000` as `Rounding.Round4`. Both are characterised as the unique value on the decimal grid within half a step of `x`, with ties going up.

The transport modes form the closed type `Config.Mode`. Its for-in order (bicycle, car, bus, truck) fixes how ties are broken in the comparison.

`Array.prototype.sort` is modelled by a stable insertion sort on sequences (`Sorting.SortBy`), proved to return a sorted, stable permutation. The contracts the rest of the model relies on fix the result, so any stable sort gives the same rows: each mode once, ascending by emission, ties in for-in order; and, for city names, the distinct names in the order, which is antisymmetric.

The model has these modules:
- `Rounding`
- `Config`
- `Calculator`
- `Sorting`
- `Text`: `trim`, `toLowerCase`, and the order used for city names
- `Search`: `Array.prototype.find`
- `Routes`
- `Options`

Three behaviours of the code are worth stating up front:

- **Unknown mode.** `calcEmission` has no guard for a key missing from `EMISSION_FACTORS`: the lookup gives `undefined`, and `undefined * distance` is `NaN`. The model makes the mode a closed type. `Config.ParseMode` is the key lookup, with `None` standing for `undefined`.
- **Rounding direction.** `Math.round` sends ties towards +infinity, so a saving of -0.125 rounds to -0.12, not -0.13.
- **Car at 100%.** The car row scores 100% only when its rounded emission is positive. Below 1/24 km it scores 0%, even for a positive distance (`Calculator.ShortTripCarScoresZero`).

## Model

| member | source | states |
|---|---|---|
| Rounding.MathRound | js/calculator.js:23 | `Math.round`: the integer in `(x - 1/2, x + 1/2]` |
| Rounding.MathRoundUnique | js/calculator.js:23 | that interval holds one integer only, so it defines `Math.round` |
| Rounding.MathRoundShift | js/calculator.js:23 | adding a whole number before rounding adds it after |
| Rounding.Round2 | js/calculator.js:23 | `Math.round(x * 100) / 100` has at most two decimals and lies within half a cent of `x` (ties up) |
| Rounding.Round4 | js/calculator.js:90 | `Math.round(x * 10000) / 10000` has at most four decimals and lies within 0.00005 of `x` |
| Rounding.Round2Unique | js/calculator.js:23 | the two-decimal value within half a cent of `x` is exactly `Round2(x)` |
| Rounding.Round4Unique | js/calculator.js:90 | the four-decimal value within 0.00005 of `x` is exactly `Round4(x)` |
| Rounding.Round2Idempotent | js/calculator.js:49-50 | rounding an already rounded value again changes nothing |
| Rounding.Round2Monotone | js/calculator.js:23 | two-decimal rounding preserves `<=` |
| Rounding.Round4Monotone | js/calculator.js:90 | four-decimal rounding preserves `<=` |
| Rounding.Round2PositiveIff | js/calculator.js:23 | the rounded value is positive exactly when `x >= 0.005` |
| Rounding.Round2NegativeIff | js/calculator.js:76 | the rounded value is negative exactly when `x < -0.005` |
| Rounding.Round2AddCent | js/calculator.js:23 | rounding commutes with adding one cent |
| Config.ParseMode | js/config.js:11-16 | a key names a mode exactly when it is a key of `EMISSION_FACTORS`, and it is that mode's key |
| Config.ParseKey | js/config.js:11-16 | every mode's key parses back to the mode |
| Config.Rank | js/config.js:11-16 | `ModeOrder` is the for-in order of `EMISSION_FACTORS`; a mode's rank is its position there |
| Config.Factor | js/config.js:11-16 | the factor read for a mode is never negative |
| Config.ModeTablesAgree | js/config.js:11-43 | the for-in order lists every factor key once, and `TRANSPORT_MODES` has the same keys, so every mode has metadata |
| Config.FactorValues | js/config.js:11-16 | the factors are 0, 0.12, 0.089 and 0.96 kg/km, ordered bicycle < bus < car < truck |
| Config.CreditConfigValid | js/config.js:48-52 | 1000 kg per credit is a positive divisor, and the price range 50..150 BRL is non-empty |
| Calculator.CalcEmission | js/calculator.js:15-24 | the emission has two decimals, lies within half a cent of `distance * factor`, is non-negative for non-negative distances and 0 for the bicycle |
| Calculator.CalcEmissionMonotone | js/calculator.js:15-24 | a longer trip never emits less |
| Calculator.CarBaselinePositiveIff | js/calculator.js:36-45 | the car baseline is positive exactly when `0.12 * d >= 0.005` |
| Calculator.PercentageVsCar | js/calculator.js:43-45 | the unrounded percentage times the car emission is 100 times the emission when the car emits something, and 0 otherwise; between 0 and 100 for emissions up to the car's |
| Calculator.ModeEntry | js/calculator.js:40-51 | a pushed row holds its mode, the mode's `calcEmission` (re-rounding changes nothing), and the rounded percentage against the car |
| Calculator.UnsortedEntries | js/calculator.js:39-52 | before sorting there is one row per mode, the row of each mode at its for-in position |
| Calculator.EmissionLe | js/calculator.js:55 | the order the comparator sorts by: a row may precede another when its emission is not larger |
| Calculator.EmissionComparatorConsistent | js/calculator.js:55 | the comparator `a.emission - b.emission` is antisymmetric, is non-positive exactly when `EmissionLe` holds, and `EmissionLe` is a total preorder, so the sort is well defined |
| Calculator.ModeEntryFacts | js/calculator.js:40-51 | a pushed row keeps `calcEmission` unchanged through re-rounding; its percentage is relative to the car, or 0 without a positive baseline; the car itself scores 100 |
| Calculator.SortedEntriesOrder | js/calculator.js:55 | the sorted rows are a permutation of the pushed rows, ascending by emission, with ties in for-in order |
| Calculator.SortedEntriesModes | js/calculator.js:39-55 | the sorted rows contain every mode exactly once |
| Calculator.CalculateAllModes | js/calculator.js:32-58 | four rows, each mode exactly once, ascending by emission with ties in for-in order; each emission is `calcEmission` of its mode |
| Calculator.AllModesPercentages | js/calculator.js:36-51 | each row's percentage is its emission over the car's, times 100, rounded to two decimals, with the car at 100; all 0 when the car emits 0 |
| Calculator.EmissionsFollowFactors | js/calculator.js:15-24 | for `d >= 0` the emissions are ordered bicycle (0) <= bus <= car <= truck |
| Calculator.BusBelowCar | js/calculator.js:15-24 | once `0.031 * d` reaches a cent, the bus emits strictly less than the car |
| Calculator.AllModesOrder | js/calculator.js:32-58 | for `d >= 0` the order is bicycle, bus, car, truck, or bicycle, car, bus, truck when bus and car round to the same value |
| Calculator.AllModesOrderDistinct | js/calculator.js:32-58 | for `31 * d >= 10` the order is bicycle, bus, car, truck |
| Calculator.ShortTripCarScoresZero | js/calculator.js:36-45 | below 1/24 km the car row scores 0%, even for a positive distance |
| Calculator.AllModesNegligibleTrip | js/calculator.js:32-58 | below 1/192 km (0 km included) every emission and percentage is 0 and the rows keep the for-in order |
| Calculator.AllModesAt430 | js/calculator.js:32-58 | at 430 km: bicycle 0 (0%), bus 38.27 (74.17%), car 51.6 (100%), truck 412.8 (800%) |
| Calculator.CalculateSavings | js/calculator.js:66-79 | the saving has two decimals, lies within half a cent of `baseline - emission`, and is negative exactly when the emission exceeds the baseline by more than half a cent; the percentage is 0 without a positive baseline, otherwise within half a cent of the exact percentage and non-negative when nothing is lost |
| Calculator.SavingsExact | js/calculator.js:66-79 | for two-decimal inputs, saving plus emission is exactly the baseline |
| Calculator.SavingsOfZeroEmission | js/calculator.js:66-79 | emitting nothing against a positive baseline saves 100% |
| Calculator.SavingsBusVsCarAt430 | js/calculator.js:66-79 | bus against car at 430 km saves 13.33 kg, 25.83% |
| Calculator.CalculateCarbonCredits | js/calculator.js:86-91 | the credits have four decimals, lie within 0.00005 of `emission / 1000`, and are non-negative for non-negative emissions |
| Calculator.CarbonCreditsMonotone | js/calculator.js:86-91 | more emission never needs fewer credits |
| Calculator.EstimateCreditPrice | js/calculator.js:98-113 | min and max are the credits at 50 and 150 BRL and the average the credits at 100 BRL, each within half a cent and with two decimals; for non-negative credits `0 <= min <= average <= max` |
| Calculator.AverageNotFromRoundedBounds | js/calculator.js:106-111 | the average comes from the unrounded bounds: 0.0001 credits give (0.01, 0.02, 0.01), whereas averaging the rounded bounds would give 0.02 |
| Calculator.CreditsForCarAt430 | js/calculator.js:86-113 | 51.6 kg needs 0.0516 credits, priced 2.58 to 7.74 BRL, 5.16 on average |
| Sorting.SortBy | js/calculator.js:55 | the sort returns a permutation of its input |
| Sorting.SortBySorted | js/calculator.js:55 | with a total-preorder comparator, the result is sorted |
| Sorting.SortByStable | js/calculator.js:55 | elements that tie keep their original relative order |
| Sorting.SortByDistinct | js/routes-data.js:81 | sorting a list without repeats leaves none |
| Text.LeadingWhitespace | js/routes-data.js:93 | the leading run `trim` drops: all whitespace, and followed by a character that is not whitespace, if any |
| Text.TrailingWhitespace | js/routes-data.js:93 | the trailing run `trim` drops: all whitespace, and preceded by a character that is not whitespace, if any |
| Text.Trim | js/routes-data.js:93 | `trim` returns the slice that starts after the leading whitespace and has only whitespace after it, with no whitespace at its own ends; it is empty exactly when the input is all whitespace |
| Text.TrimIdempotent | js/routes-data.js:93 | trimming twice is trimming once |
| Text.IsJsWhitespace | js/routes-data.js:93 | the characters `trim` removes: the ECMAScript WhiteSpace and LineTerminator characters |
| Text.UpperChar | js/routes-data.js:93 | the capital of a small letter, in the ASCII and Latin-1 blocks |
| Text.LowerChar | js/routes-data.js:93 | a capital becomes the small letter whose capital it is, any other character is kept, no capital is left, and whitespace stays whitespace |
| Text.Lower | js/routes-data.js:93 | `toLowerCase` keeps the length, maps each character on its own, leaves no capital, and keeps a trimmed name trimmed |
| Text.LowerIdempotent | js/routes-data.js:93 | lower-casing twice is lower-casing once |
| Text.LowerOfLower | js/routes-data.js:93 | a name without capitals is its own lower case |
| Text.LowerOfUpper | js/routes-data.js:93 | lower-casing the capital of a small letter gives the letter back, so the two lower-case alike |
| Text.LowerIgnoresCase | js/routes-data.js:93 | writing some small letters as capitals does not change `toLowerCase`'s result |
| Text.TrimSameWhitespace | js/routes-data.js:93 | strings with whitespace at the same places start with as much of it and trim to the same length |
| Text.TrimIgnoresCase | js/routes-data.js:93 | trimming a name with some letters in capitals gives the trimmed name with the same letters in capitals |
| Text.LexLe | js/routes-data.js:81 | the order city names are sorted by: character codes, a prefix first |
| Text.LexLeTotal | js/routes-data.js:81 | any two names compare |
| Text.LexLeTransitive | js/routes-data.js:81 | the name order chains |
| Text.LexLeAntisymmetric | js/routes-data.js:81 | names that compare both ways are equal |
| Search.FindFirst | js/routes-data.js:98-103 | `find` returns the first position whose element satisfies the callback, or nothing exactly when none does |
| Search.IsFirstUnique | js/routes-data.js:98-103 | there is only one first match |
| Search.FindFirstAgree | js/routes-data.js:98-103 | callbacks that agree on every element find the same position |
| Routes.Normalize | js/routes-data.js:93 | the normal form has no whitespace at its ends, and it is empty exactly when the name is blank |
| Routes.NormalizeIdempotent | js/routes-data.js:93 | normalising twice is normalising once |
| Routes.NormalizeIgnoresCase | js/routes-data.js:93 | a name with some small letters written as capitals normalises like the name |
| Routes.Matches | js/routes-data.js:98-103 | a route matches the normalised names when its normalised ends equal them in either direction |
| Routes.Joins | js/routes-data.js:98-103 | the callback passed to `find` is `Matches` for the two normalised names |
| Routes.FindDistanceIn | js/routes-data.js:90-106 | the result is `null` if either name is empty; otherwise it is found exactly when some route joins the normalised names in either direction, and it is the distance of the first such route |
| Routes.FindDistance | js/routes-data.js:90-106 | over the table, a found distance is the first matching row's, and it is positive |
| Routes.FindDistanceSymmetric | js/routes-data.js:98-103 | swapping origin and destination does not change the result |
| Routes.FindDistanceNormalized | js/routes-data.js:91-103 | names with the same trimmed lower-case form give the same result, blank names included |
| Routes.FindDistanceIgnoresCase | js/routes-data.js:90-106 | writing some small letters of either name as capitals gives the same answer, over any table |
| Routes.BlankFindsNothing | js/routes-data.js:91-103 | an empty or all-whitespace name finds nothing in a table without blank names |
| Routes.TableDistancesPositive | js/routes-data.js:26-64 | every distance in the table is positive |
| Routes.TableNamesNotBlank | js/routes-data.js:26-64 | every table name keeps a character after normalisation |
| Routes.TableLegs | js/routes-data.js:24-65 | every row of the table joins two of the 36 listed cities, at the positions `Legs` gives |
| Routes.CitiesNormalDistinct | js/routes-data.js:26-64 | two table cities normalise alike exactly when they are the same city |
| Routes.LegsDistinct | js/routes-data.js:26-64 | no two rows join the same pair of cities, in either direction |
| Routes.TableRowFirst | js/routes-data.js:24-65 | each row is the first row joining its own two cities |
| Routes.TableLookupComplete | js/routes-data.js:90-106 | looking up the two cities of any row, in either order, returns that row's distance |
| Routes.SaoPauloRio | js/routes-data.js:26 | São Paulo to Rio de Janeiro is 430 km, in both directions |
| Routes.SaoPauloRioInCapitals | js/routes-data.js:90-106 | "SÃO PAULO - SP" to "RIO DE JANEIRO - RJ" is still 430 km |
| Routes.CityList | js/routes-data.js:74-79 | the pushed list holds each row's origin and then its destination, in row order |
| Routes.CityListMembers | js/routes-data.js:74-79 | a name is pushed exactly when some row starts or ends there |
| Routes.Dedup | js/routes-data.js:81 | `[...new Set(s)]` has no repeats and the same elements as `s` |
| Routes.DedupOfDistinct | js/routes-data.js:81 | on a list without repeats, the set keeps the list as it is, in order |
| Routes.AllCitiesIn | js/routes-data.js:73-82 | every origin and destination appears exactly once, sorted by the name order |
| Routes.AllCities | js/routes-data.js:73-82 | the same for the table |
| Routes.CitiesOfTable | js/routes-data.js:24-65 | the cities of the table are exactly the 36 names of `Cities` |
| Routes.AllCitiesCount | js/routes-data.js:73-82 | `getAllCities` lists exactly those 36 cities |

## Left out

- Rendering, the DOM, form handling, the datalist filler and the application glue (`populateDatalist` and the rest of `js/config.js` after line 52, and the other scripts): they do no calculation.
- Floating point: numbers are exact reals, so IEEE-754 representation error before rounding (such as `1.005 * 100`) is not modelled.
- Non-string arguments: `findDistance` also returns `null` for `null` and `undefined` arguments. The model takes strings only, where the falsy case is the empty string.
- Unknown transport modes: `calcEmission` with a key outside `EMISSION_FACTORS` gives `NaN`. The model has no `NaN`, so the mode is a closed type (see above).
- `TRANSPORT_MODES` is used only for display. The model keeps its entries and proves its keys match the factor table, and nothing more.
- Text.Lower: models `toLowerCase` only for ASCII letters and the Latin-1 capitals À–Þ, the letters that occur in the table's names. Other scripts and special case mappings are not modelled.
- Text.LexLe: compares by character code, as a stand-in for `localeCompare`. Locale collation is not modelled. It orders accented letters by their base letter, so the two orders differ, for example on "Belém - PA" against "Belo Horizonte - MG".
- Routes.AllCitiesIn: its order is `Text.LexLe`, not the locale order of `localeCompare`, so it is weaker than the source on the exact order of accented names. Distinctness and contents are as in the source.
- Routes.AllCities: same as `Routes.AllCitiesIn`.
