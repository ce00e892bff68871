# Hydrograph domain, tooltip and string helpers — a Dafny model

This project models the parts of the USGS water-data UI that hold real logic:

- **Y-axis domain and ticks** (`components/hydrograph/domain.js`), modelled in module `Domain`:
  - padding a `[lo, hi]` range (`extendDomain`);
  - merging the finite extents of several point series (`getYDomain`);
  - the symlog tick-filling pipeline, from the lowest absolute tick through repeated ceiling halving, rounding with de-duplication, the x-axis cut and negative mirroring to the final concatenation;
  - `getYTickDetails`, with narrow-screen thinning and the label format.
- **Nearest-point lookup** (`components/hydrograph/tooltip.js`), modelled in module `Tooltip`:
  - `getNearestTime` with d3's left bisection;
  - the null guard of the `tsDatumSelector` combiner.
- **String and number helpers** (`utils.js`), modelled in module `Utils`:
  - decimal and named HTML entities (`unicodeHtmlEntity`, `getHtmlFromString`, `replaceHtmlEntities`);
  - `deltaDays`;
  - `setEquality`.

Supporting modules:

- `RealMath` holds ceiling, integrality, min/max of a sequence and powers of ten.
- `Points` holds the point record. A value is `Finite(v)` or `NonFinite`, which stands for NaN and the infinities.
- `Wrappers` holds `Option` and `Result`.

Numbers are modelled as follows:

- Chart values are `real`. Times and millisecond dates are `int`.
- JavaScript strings are sequences of UTF-16 code units, `CodeUnit = 0 .. 0xFFFF`.
- `null` becomes `None`. The TypeError raised when a property of `null` is read becomes `Err`.

Loops in the source, and the iteration that the global `match` performs, are loops in the model. Each is proved against a specification function:

- the halving `while`;
- the rounding `forEach`;
- the x-axis filter and the series loop of `getYDomain`;
- the iteration inside the global `match` (the `/g` regular expression of `getHtmlFromString`);
- the replacement loop.

The expression-only functions are functions.

On a tie, `getNearestTime` compares with a strict `>`, so when `time` is equally far from both neighbours the **earlier** point `d0` is returned. The model follows the code: see `Tooltip.NearestTimeTieGoesToEarlier` and `Tooltip.NearestTimeThreePointExample`. With points at 0, 10 and 20 and time 5, the code returns the point at 0.

The `if` at domain.js line 143 has no `else`. A value above 1000 is therefore pushed twice: rounded to a multiple of 1000, then that result rounded to a multiple of 100. The second push equals the first, so the de-duplication removes it. `Domain.DedupOfPushesIsDedupOfRounded` proves that the result equals rounding each value once. The output is unaffected, so this is recorded here and not as a finding.

## Model

| member | source | states |
|---|---|---|
| RealMath.FloorLog10 | assets/src/scripts/components/hydrograph/domain.js:40 | `Math.floor(Math.log10(x))` for x > 0: the k with 10^k <= x < 10^(k+1) |
| RealMath.FloorLog10IsGreatest | assets/src/scripts/components/hydrograph/domain.js:40 | every power of ten at or below x is at or below 10^FloorLog10(x) |
| RealMath.Ceil | assets/src/scripts/components/hydrograph/domain.js:123 | `Math.ceil`: the integer c with x <= c < x + 1 |
| RealMath.SeqMin | assets/src/scripts/components/hydrograph/domain.js:78 | `Math.min(...s)` of a non-empty list is a member of it and at most every member |
| RealMath.SeqMax | assets/src/scripts/components/hydrograph/domain.js:78 | `Math.max(...s)` of a non-empty list is a member of it and at least every member |
| Domain.PowerOfTenAtOrBelow | assets/src/scripts/components/hydrograph/domain.js:40 | 0 at x = 0 (10 to the power -Infinity); otherwise exactly 10^FloorLog10(x), the power p of ten with p <= x < 10p |
| Domain.ExtendDomain | assets/src/scripts/components/hydrograph/domain.js:26-50 | the upper end is hi + 0.2(hi - lo); the result contains [lo, hi]; a non-negative domain keeps a non-negative lower end; with the flag the lower end is the power of ten at or below lo (positive domain) or lo itself (a negative end); without it, lo - padding, clamped at 0 for non-negative domains |
| Domain.ExtendDomainLowerBoundIsGreatestPowerOfTen | assets/src/scripts/components/hydrograph/domain.js:37-43 | under the flag, the new lower end is itself a power of ten, at most lo, and no power of ten at or below lo lies above it |
| Domain.FiniteValues | assets/src/scripts/components/hydrograph/domain.js:62 | a value is kept exactly when some point of the series holds it as a finite value |
| Domain.SeriesExtent | assets/src/scripts/components/hydrograph/domain.js:62-73 | NaN ends exactly when the series has no finite value; otherwise finite ends that cover every finite value; a series with distinct finite values gives exactly [min, max] of them; a series with a single distinct value v gives [v - v/2, v + v/2] |
| Domain.ScaleDomainsStep | assets/src/scripts/components/hydrograph/domain.js:58-74 | each series adds its extent's finite ends to the flattened list, and an empty series is skipped |
| Domain.ScaleDomains | assets/src/scripts/components/hydrograph/domain.js:58-74 | one extent per non-empty series: an empty series is skipped, so there are at most as many extents as series |
| Domain.FlatFiniteEmptyIffNoFiniteValue | assets/src/scripts/components/hydrograph/domain.js:75-80 | the flattened finite endpoints are empty exactly when no series holds a finite value |
| Domain.FlatFinite | assets/src/scripts/components/hydrograph/domain.js:76 | flattening the extents and dropping NaN ends gives at most two values per extent |
| Domain.YDomainContainsEveryFiniteValue | assets/src/scripts/components/hydrograph/domain.js:53-89 | every finite value of every series lies inside the computed domain |
| Domain.YDomain | assets/src/scripts/components/hydrograph/domain.js:53-89 | the returned domain is a non-empty interval: its lower end is at most its upper end |
| Domain.YDomainDefault | assets/src/scripts/components/hydrograph/domain.js:82-86 | with no finite value anywhere (no series, empty series, only NaN) the domain is [0, 1] |
| Domain.YDomainExtendsGlobalExtent | assets/src/scripts/components/hydrograph/domain.js:75-84 | otherwise the domain is extendDomain of [min, max] of the endpoints, with the flag set exactly for the symlog parameter codes |
| Domain.IndexOf | assets/src/scripts/components/hydrograph/domain.js:229 | `indexOf`: -1 exactly when the code is not in the list; otherwise the first index holding it |
| Domain.IsSymlog | assets/src/scripts/components/hydrograph/domain.js:229 | `SYMLOG_PARMS.indexOf(parmCd) > -1` (also at line 83) holds exactly when the code is one of the symlog parameter codes |
| Domain.GetYDomain | assets/src/scripts/components/hydrograph/domain.js:53-89 | the loop computes YDomain; [0, 1] without finite values; contains every finite value |
| Domain.LowestAbsoluteValueOfTickValues | assets/src/scripts/components/hydrograph/domain.js:98-111 | with a negative tick: r > 0, -r is a tick, and no negative tick lies above -r; otherwise the least tick |
| Domain.Negatives | assets/src/scripts/components/hydrograph/domain.js:103 | `filter(value => value < 0)` keeps exactly the negative ticks |
| Domain.HasNegative | assets/src/scripts/components/hydrograph/domain.js:102 | `tickValues.some(value => value < 0)` (also at line 186) holds exactly when the filter for negative ticks is non-empty |
| Domain.Halvings | assets/src/scripts/components/hydrograph/domain.js:120-127 | no value is pushed exactly when the input is at most 2; every pushed value is at least 2 |
| Domain.HalvingsDecreaseToTwo | assets/src/scripts/components/hydrograph/domain.js:122-125 | the pushed values are whole numbers, strictly decreasing, starting at ceil(x/2) and ending at exactly 2 |
| Domain.HalvingsStep | assets/src/scripts/components/hydrograph/domain.js:123 | each pushed value is the ceiling of half the one before it |
| Domain.GenerateAdditionalTickValues | assets/src/scripts/components/hydrograph/domain.js:120-127 | the while loop pushes exactly the halving sequence (and terminates) |
| Domain.CeilToMultiple | assets/src/scripts/components/hydrograph/domain.js:141 | `Math.ceil(v/s)*s` is a whole multiple of s in [v, v + s) |
| Domain.RoundTick | assets/src/scripts/components/hydrograph/domain.js:139-149 | the ceiling to the step: a multiple of 1000 in [v, v + 1000) above 1000, of 100 in [v, v + 100) for v in (100, 1000], of 5 in [v, v + 5) otherwise |
| Domain.PushesForIsRepeatedRounding | assets/src/scripts/components/hydrograph/domain.js:140-149 | without an `else`, a value above 1000 pushes the same rounded value twice; others push it once |
| Domain.PushesFor | assets/src/scripts/components/hydrograph/domain.js:139-149 | one value pushes twice above 1000 (the missing `else`) and once otherwise; the first push is its rounding and every push is at least the value |
| Domain.Pushes | assets/src/scripts/components/hydrograph/domain.js:139-150 | the forEach pushes one or two values per input, and the rounding of every input is among them |
| Domain.DedupFrom | assets/src/scripts/components/hydrograph/domain.js:153 | `Array.from(new Set(...))` keeps exactly the members, without duplicates, extending what was already kept |
| Domain.Dedup | assets/src/scripts/components/hydrograph/domain.js:153 | `Array.from(new Set(...))` keeps exactly the members of its input, without duplicates |
| Domain.DedupAppendOne | assets/src/scripts/components/hydrograph/domain.js:153 | first occurrence wins: a later value is kept only if it was not already present |
| Domain.DedupOfPushesIsDedupOfRounded | assets/src/scripts/components/hydrograph/domain.js:139-153 | de-duplicating the pushes as written equals de-duplicating each value rounded once |
| Domain.GetRoundedTickValues | assets/src/scripts/components/hydrograph/domain.js:136-156 | the result is the de-duplicated roundings in first-occurrence order: no duplicates, and x is in it exactly when x rounds some input |
| Domain.Above | assets/src/scripts/components/hydrograph/domain.js:166-176 | keeps exactly the values above yDomain[0], and no duplicates are introduced |
| Domain.AboveAppend | assets/src/scripts/components/hydrograph/domain.js:169-173 | the filter keeps relative order (it distributes over concatenation) |
| Domain.RemoveTickValuesBelowXaxis | assets/src/scripts/components/hydrograph/domain.js:166-176 | the for-of loop computes Above: a value is kept exactly when it is above yDomain[0] |
| Domain.Negated | assets/src/scripts/components/hydrograph/domain.js:187 | `map(x => x * -1)`: element i is minus element i |
| Domain.GenerateNegativeTicks | assets/src/scripts/components/hydrograph/domain.js:185-192 | unchanged without a negative tick; otherwise twice as long with the negated values first and the values as suffix |
| Domain.FillersAreRoundMultiplesOfFive | assets/src/scripts/components/hydrograph/domain.js:201-213 | the fillers are distinct, lie above yDomain[0] and are whole multiples of 5 of at least 5 |
| Domain.Fillers | assets/src/scripts/components/hydrograph/domain.js:204-213 | halving, rounding, de-duplicating and cutting at the x axis leaves distinct values, all above yDomain[0] |
| Domain.ArrayOfAdditionalTickMarks | assets/src/scripts/components/hydrograph/domain.js:201-219 | negated fillers (only with a negative base tick), then the fillers, then the base ticks unchanged as suffix |
| Domain.TickMarksAreIntegersIffBaseTicksAre | assets/src/scripts/components/hydrograph/domain.js:201-219 | the assembled tick marks are all whole numbers exactly when the base ticks are |
| Domain.FullTicks | assets/src/scripts/components/hydrograph/domain.js:234-236 | the tick list before thinning ends with the base ticks, and for a non-symlog code it is the base ticks alone |
| Domain.OddIndexed | assets/src/scripts/components/hydrograph/domain.js:240 | `filter((_, i) => i % 2)`: half the length, entry k is entry 2k + 1 |
| Domain.NonIntegers | assets/src/scripts/components/hydrograph/domain.js:245 | the non-integer filter is empty exactly when every tick is a whole number |
| Domain.GetYTickDetails | assets/src/scripts/components/hydrograph/domain.js:228-250 | thinning to odd-indexed ticks happens exactly for symlog, more than 3 ticks and a narrow screen; non-symlog ticks are the base ticks; the format is 'd' exactly when every tick is a whole number |
| Domain.SymlogWideFormatFollowsBaseTicks | assets/src/scripts/components/hydrograph/domain.js:228-250 | for symlog on a wide screen the base ticks end the list and the format is 'd' exactly when the base ticks are whole |
| Tooltip.BisectLeft | assets/src/scripts/components/hydrograph/tooltip.js:55-57 | the insertion point lies in [lo, hi], with the time before it below x and the time at it at least x |
| Tooltip.BisectLeftPartitions | assets/src/scripts/components/hydrograph/tooltip.js:55-57 | on sorted data it is the leftmost position in [lo, hi) whose time is at least x, or hi |
| Tooltip.GetNearestTime | assets/src/scripts/components/hydrograph/tooltip.js:50-73 | `null` exactly for fewer than 2 points; otherwise the index is in range and data[index] is the datum |
| Tooltip.NearestTimeIsNearest | assets/src/scripts/components/hydrograph/tooltip.js:44-66 | on sorted data no point is strictly closer to the time than the returned datum |
| Tooltip.NearestTimeTieGoesToEarlier | assets/src/scripts/components/hydrograph/tooltip.js:63 | equidistant neighbours yield the earlier point d0 |
| Tooltip.NearestTimeThreePointExample | assets/src/scripts/components/hydrograph/tooltip.js:57-66 | points at 0, 10, 20: time 6 gives index 1, time 5 (a tie) gives index 0 |
| Tooltip.NearestTimeAfterLast | assets/src/scripts/components/hydrograph/tooltip.js:57-66 | a time after the last point yields the last point |
| Tooltip.NearestTimeAtOrBeforeFirst | assets/src/scripts/components/hydrograph/tooltip.js:57-66 | a time at or before the first point yields index 0 |
| Tooltip.TsDatum | assets/src/scripts/components/hydrograph/tooltip.js:94-99 | `null` without focus time or points; a TypeError exactly for a single point; otherwise exactly the datum getNearestTime returns, so NearestTimeIsNearest applies to it |
| Utils.TrimStart | assets/src/scripts/utils.js:10 | parseInt skips exactly the leading white space and line terminators: every dropped code unit is one, and the remaining suffix does not start with one |
| Utils.LeadingDigits | assets/src/scripts/utils.js:10 | the longest prefix of decimal digits |
| Utils.ParseInt | assets/src/scripts/utils.js:10 | NaN exactly when no digit follows the optional white space and sign (its value is stated by ParseIntValue) |
| Utils.ParseIntValue | assets/src/scripts/utils.js:10 | a parsed number is the value of the leading decimal digits after the white space and the sign, negated after a `-` |
| Utils.ParseIntOfDigits | assets/src/scripts/utils.js:10 | parseInt of a non-empty string of digits is their decimal value |
| Utils.UnicodeHtmlEntity | assets/src/scripts/utils.js:9-16 | at most one code unit; one exactly when parseInt of the body is a non-zero number N, and then it is N mod 65536 |
| Utils.NumericEntityDecodes | assets/src/scripts/utils.js:9-16 | `&#N;` decodes to the code unit N mod 65536, and to "" for N = 0 |
| Utils.NamedEntityDecodesToEmpty | assets/src/scripts/utils.js:9-16 | a named entity such as `&amp;` decodes to "" |
| Utils.EntityBody | assets/src/scripts/utils.js:10 | `slice(2, -1)` drops the `&#` and the `;`: the code units from index 2 to the last one exclusive, empty for fewer than three |
| Utils.EntityAt | assets/src/scripts/utils.js:25 | a match at p has length at least 3 and fits in the string |
| Utils.IsEntity | assets/src/scripts/utils.js:25 | the language of `/&(?:[a-z]+\|#\d+);/`: a text in it is at least three code units long, with its only `&` first and its only `;` last |
| Utils.LowerRunIsMaximal | assets/src/scripts/utils.js:25 | `[a-z]+` is greedy: the run it takes is all lower-case letters and the code unit after it is not one |
| Utils.DigitRunIsMaximal | assets/src/scripts/utils.js:25 | `\d+` is greedy: the run it takes is all decimal digits and the code unit after it is not one |
| Utils.EntityAtIsSound | assets/src/scripts/utils.js:25 | whatever the matcher finds at p is an entity of the regular expression |
| Utils.EntityAtIsComplete | assets/src/scripts/utils.js:25 | whenever an entity starts at p, the matcher finds exactly it |
| Utils.MatchSpans | assets/src/scripts/utils.js:24-27 | the matches fit in the string, start at or after p, and are in increasing, non-overlapping order |
| Utils.MatchSpansAreEntities | assets/src/scripts/utils.js:24-27 | every match is an entity |
| Utils.MatchesAreEntities | assets/src/scripts/utils.js:24-27 | every matched text is an entity |
| Utils.MatchesEmptyIffNoEntity | assets/src/scripts/utils.js:24-27 | there are no matches (`null`) exactly when no entity occurs anywhere in the string |
| Utils.Matches | assets/src/scripts/utils.js:25-26 | every match is at least three code units long, starts with `&` and ends with `;` |
| Utils.MatchIndexOfEntity | assets/src/scripts/utils.js:24-27 | an entity occurring at q is one of the spans the global match finds from any p <= q, at a returned index |
| Utils.EveryEntityIsMatched | assets/src/scripts/utils.js:24-27 | the global match misses no entity: every occurrence at or after p is among the spans found from p |
| Utils.EveryEntityIsInMatches | assets/src/scripts/utils.js:24-27 | the text of every entity occurring in the string is among the matches |
| Utils.GetHtmlFromString | assets/src/scripts/utils.js:24-27 | the scan returns the matches left to right, `null` exactly when the string holds no entity; every returned text is an entity and every entity occurring in the string is returned |
| Utils.IndexOfFrom | assets/src/scripts/utils.js:40 | the first position at or after i where the pattern occurs, or none |
| Utils.ReplaceFirst | assets/src/scripts/utils.js:40 | `replace` with a string pattern swaps its first occurrence only and leaves a string without it unchanged |
| Utils.ReplaceEach | assets/src/scripts/utils.js:38-41 | replacing each entity in turn leaves a string that holds none of them unchanged |
| Utils.ReplaceEachDoesNotGrow | assets/src/scripts/utils.js:38-41 | replacing entities by their decodings never lengthens the string |
| Utils.ReplacingMatchesShrinks | assets/src/scripts/utils.js:35-44 | replacing the matches shortens the string exactly when there is a match |
| Utils.ReplaceEntities | assets/src/scripts/utils.js:38-41 | the for-of loop computes ReplaceEach: each entity's first occurrence is replaced in turn |
| Utils.ReplacedMatchesMeaning | assets/src/scripts/utils.js:35-44 | replacing the matches leaves the string unchanged exactly when it holds no entity, and never lengthens it |
| Utils.ReplaceHtmlEntities | assets/src/scripts/utils.js:35-44 | the loop replaces each match in turn; the result equals the input exactly when it holds no entity |
| Utils.DeltaDays | assets/src/scripts/utils.js:53-61 | `Math.round(delta / 86400000)` with halves rounded up: 2dD - D <= 2 delta < 2dD + D |
| Utils.DeltaDaysOfWholeDays | assets/src/scripts/utils.js:53-61 | an exact k-day difference gives k, and equal dates give 0 |
| Utils.SetEquality | assets/src/scripts/utils.js:70-76 | equal size and inclusion hold exactly when the sets are equal |
| Utils.SetEqualityIsReflexiveAndSymmetric | assets/src/scripts/utils.js:70-76 | setEquality is reflexive and symmetric |

## Left out

- Drawing, DOM, Redux wiring, selectors' memoization and `updateTooltipText` are not modelled; only the combiner of `tsDatumSelector` is.
- d3's `ticks(lo, hi, 5)` and `mediaQuery(USWDS_MEDIUM_SCREEN)` are inputs of `GetYTickDetails` (`baseTicks`, `narrow`); `format` is reduced to the two specifiers.
- IEEE-754 arithmetic: values are exact reals, so the inexactness of `Math.log10`, of `/` and of the 0.2 factor, and the rounding of `parseInt` results above 2^53, are not modelled.
- `isFinite` is applied to numbers only. A `null` value, which `isFinite` coerces to 0, is not modelled. Infinite values are dropped together with NaN.
- Domain.GenerateAdditionalTickValues: takes a real argument, so the non-terminating call on Infinity (from `Math.min()` of no ticks) is excluded by requiring non-empty base ticks in `LowestAbsoluteValueOfTickValues`.
- Domain.GetYTickDetails: requires non-empty base ticks for symlog parameters; for an empty list the source would loop forever in the halving loop.
- Tooltip.TsDatum: Date objects are always truthy, so a present focus time is `Some`; an invalid Date is not modelled.
- Utils.DeltaDays: takes the two dates' `getTime()` values; `NaN` from an invalid Date is not modelled.
- `utils.js` `wrap` depends on DOM text measurement and is not part of this model.
- `utils.js` `sortObjectArray` has a comparator that never returns a negative value. Its result therefore depends on the engine's sort algorithm, and it is not part of this model.
- The qualifiers and unit-code selectors of the tooltip are not part of this model.
