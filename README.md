# Ephemeris store core, modelled in Dafny

This project models the computational core of an ephemeris viewer's front end: the Pinia
store `src/stores/ephemeris.js` and the two helper modules it relies on.

- **Date span reconciliation** (`updateCount` and the watchers on `startDate` and
  `endDate`). The store keeps a start date, an end date and a day count. Whenever either
  date changes, the count becomes their distance, clamped into 44..729 days. The end date
  is then recomputed from the start date and the count, and a refetch is requested.
  `DateSpan` is a class whose methods update these fields in place.
- **Date arithmetic** (`addDays` and `diffDays` of `src/composables/dateutils.js`).
  JavaScript `Date` behaviour is modelled on ECMA-262's time values (section 21.4.1):
  - YYYY-MM-DD strings are read as UTC midnight;
  - the first day of a year is the sum of the year lengths from 1970, proved equal to
    ECMA-262's closed form `DayFromYear`;
  - `TimeClip` limits the range, and a time value beyond it throws a RangeError;
  - `toISOString().substring(0, 10)` is modelled, including the expanded-year form
    outside years 0000-9999;
  - `Math.round` is applied to the quotient of whole days.
- **Pivot** (`pivotEphemerides`). Fetched ephemerides arrive as
  model -> planet -> records. They are re-indexed as model -> day -> planet -> record,
  where the day is `parseInt(julianDate)`. `Pivot` is the specification and
  `PivotEphemerides` is the imperative loop proved equal to it.
- **Aspects** (`aspectAng` and `calculateAspects`). These compute the separation of two
  longitudes along the shorter arc. For every ordered pair of planets of one day, the
  result records the aspect angle whose orb holds that separation.
  `CalculateAspects` is the triple loop of the source, proved against `PairAspect`.
- **Zodiac sign** (`degreeAsSign`): a longitude split into a sign index and the degrees
  into that sign.
- **Array and string helpers** of `src/composables/utils.js`: `findMinMax`,
  `diffArray_simple`, `intersectArray`, `InitialCaps` and `convertArrayValuesToNumbers`.

Files:

- `js_core.dfy` (module `JsCore`): JavaScript values, errors and `parseInt` of a Number.
- `date_utils.dfy` (module `DateUtils`)
- `utils.dfy` (module `Utils`)
- `ephemeris.dfy` (module `Ephemeris`)

In `calculateAspects` the loop over the aspect angles has no `break`. A later angle
whose band also holds the separation therefore overwrites an earlier one. A reader might
expect the first matching angle to win; the code records the last, and so does the model
(`Ephemeris.LastMatchSpec`). For the store's
default angles 0, 90, 120 and 180 and an orb under 15 degrees, at most one band can
match, so both readings agree (`Ephemeris.DefaultBandsDisjoint`).

## Model

| member | source | states |
|---|---|---|
| JsCore.Trunc | src/stores/ephemeris.js:205 | the integer part of a Number: the largest integer not above a non-negative x, the least not below a negative one |
| JsCore.LeadingDigit | src/stores/ephemeris.js:205 | the first significant decimal digit of a positive number lies in 1..9 |
| JsCore.LeadingDigitSpec | src/stores/ephemeris.js:205 | a positive y lies in [d * 10^k, (d + 1) * 10^k), d its leading digit and k its decimal exponent, so d is the first significant digit of y |
| JsCore.ParseIntOfNumber | src/stores/ephemeris.js:148 | `parseInt` of a Number truncates while the Number is written in decimal notation (zero, or 1e-6 <= abs(x) < 1e21); in exponent notation it is the leading digit of abs(x), carrying the sign of x |
| DateUtils.DayFromYearClosedForm | src/composables/dateutils.js:11 | the first day of every year, counted by year lengths, equals ECMA-262's closed form |
| DateUtils.FourDigitYearBounds | src/composables/dateutils.js:13 | 0000-01-01 is day -719528 and 10000-01-01 is day 2932897 |
| DateUtils.YearFromDay | src/composables/dateutils.js:13 | the year of a day number is the one whose first day is not after it and whose successor's first day is |
| DateUtils.YearFromDayUnique | src/composables/dateutils.js:13 | that year is unique |
| DateUtils.DateFromDay | src/composables/dateutils.js:13 | the calendar date of a day number is a valid date with exactly that day number |
| DateUtils.DateFromDayNumber | src/composables/dateutils.js:13 | valid dates and day numbers correspond one to one |
| DateUtils.FourDigitYearDayIff | src/composables/dateutils.js:13 | a day number lies in the range -719528..2932896 exactly when its date has a year 0000..9999 |
| DateUtils.DigitsValueOfPad | src/composables/dateutils.js:13 | reading back a zero-padded decimal rendering gives the number |
| DateUtils.PadOfDigitsValue | src/composables/dateutils.js:7 | rendering the value of a digit string at its width gives the string |
| DateUtils.ParseIsoDate | src/composables/dateutils.js:7 | a string that parses denotes a valid date of years 0000..9999 |
| DateUtils.DatePrefix | src/composables/dateutils.js:13 | the `toISOString` prefix of a date is ten characters long, in the expanded-year form too |
| DateUtils.ParseDatePrefix | src/composables/dateutils.js:13 | for years 0000..9999 the prefix parses back to the date |
| DateUtils.DatePrefixOfParse | src/composables/dateutils.js:13 | a string that parses is the canonical spelling of its date |
| DateUtils.NewDate | src/composables/dateutils.js:7 | `new Date(s)` is valid exactly when `s` parses |
| DateUtils.NewDateMidnight | src/composables/dateutils.js:7 | a valid `new Date(s)` holds a whole number of days, and that day is exactly the date written in `s` (UTC midnight) |
| DateUtils.TimeClip | src/composables/dateutils.js:11 | a time of magnitude above 8.64e15 ms makes an invalid Date; any other time is kept as it is |
| DateUtils.IsoDatePrefix | src/composables/dateutils.js:13 | the `toISOString` prefix of any valid time is ten characters |
| DateUtils.IsoDatePrefixParses | src/composables/dateutils.js:13 | for a time in years 0000..9999 the prefix reads back as the date of the day the time falls on |
| DateUtils.RoundDays | src/composables/dateutils.js:25 | `Math.round(ms / MILLISPERDAY)`: the nearest integer, halves upwards; exact on whole days |
| DateUtils.AddDays | src/composables/dateutils.js:6-17 | a NaN count gives 'Invalid Date'; a numeric count on an unparseable date throws RangeError; any other result is ten characters |
| DateUtils.ShiftedDatePrefix | src/composables/dateutils.js:11-13 | an invalid Date throws RangeError; a result is ten characters |
| DateUtils.DiffDays | src/composables/dateutils.js:19-29 | NaN exactly when either date does not parse, otherwise the difference of their day numbers |
| DateUtils.ParsedDayInRange | src/composables/dateutils.js:7 | a parsed date lies in years 0000..9999 |
| DateUtils.AddDaysNear | src/composables/dateutils.js:11-13 | moving a parsed date by at most a million days never throws |
| DateUtils.AddDaysByDay | src/composables/dateutils.js:11 | `addDays(s, n)` depends on `s` and `n` only through the day they add up to |
| DateUtils.AddDaysLandsOn | src/composables/dateutils.js:6-17 | adding n days that land in years 0000..9999 spells the date of the target day |
| DateUtils.ParsedDayOfPrefix | src/composables/dateutils.js:13 | the prefix of a date of years 0000..9999 parses back to the same day |
| DateUtils.AddDaysZero | src/composables/dateutils.js:6-17 | adding 0 days gives the date back, spelled the same |
| DateUtils.DiffDaysAddDays | src/composables/dateutils.js:6-29 | `diffDays(s, addDays(s, n)) == n` while the result stays in years 0000..9999 |
| DateUtils.AddDaysFromSameDay | src/composables/dateutils.js:6-17 | adding n days to a date m days after s is adding m + n days to s |
| DateUtils.AddDaysAddDays | src/composables/dateutils.js:6-17 | two additions in a row are one addition of the sum |
| DateUtils.AddDaysDiffDays | src/composables/dateutils.js:6-29 | `addDays(a, diffDays(a, b)) == b` for dates that parse |
| DateUtils.DiffDaysSelf | src/composables/dateutils.js:19-29 | a date is 0 days from itself; an unparseable one gives NaN |
| DateUtils.DiffDaysAntisymmetric | src/composables/dateutils.js:19-29 | swapping the dates negates the difference and keeps NaN |
| Utils.FindMinMax | src/composables/utils.js:2-17 | the results are an element of the array at most and at least every element; an empty array gives Infinity and -Infinity |
| Utils.Filter | src/composables/utils.js:47-53 | `filter` keeps exactly the passing elements, each as often as in the input, in input order |
| Utils.FilterAll | src/composables/utils.js:47-53 | when every element passes, `filter` returns the array unchanged |
| Utils.FilterNone | src/composables/utils.js:47-53 | when no element passes, `filter` returns an empty array |
| Utils.DiffArraySimple | src/composables/utils.js:47-53 | the result holds exactly the elements in one array and not the other, with their multiplicities; the first array's part comes first, each part in order |
| Utils.DiffArraySelf | src/composables/utils.js:47-53 | an array has no difference from itself |
| Utils.DiffArrayEmpty | src/composables/utils.js:47-53 | the difference with an empty array is the other array, in either order |
| Utils.IntersectArray | src/composables/utils.js:55-58 | the result holds exactly the common elements, as often as in the first array, in its order |
| Utils.IntersectArrayEmptySelf | src/composables/utils.js:55-58 | intersecting with an empty array gives nothing; with itself, the array |
| Utils.UpperAscii | src/composables/utils.js:25 | a lower-case ASCII letter becomes its capital, 32 code points lower; any other character is unchanged; the result is never lower-case |
| Utils.InitialCaps | src/composables/utils.js:19-30 | a non-string gives undefined; an empty string throws a TypeError; otherwise the same length and tail, the first character replaced by `UpperAscii` of it |
| Utils.InitialCapsIdempotent | src/composables/utils.js:19-30 | capitalising twice is capitalising once |
| Utils.ConvertArrayValuesToNumbers | src/composables/utils.js:40-45 | the array keeps every element it had |
| Ephemeris.DefaultStartDay | src/stores/ephemeris.js:13 | the initial start date 2023-06-10 is day 19518 |
| Ephemeris.DefaultStartParses | src/stores/ephemeris.js:13 | the initial start date parses as 10 June 2023 |
| Ephemeris.DefaultEndDay | src/stores/ephemeris.js:15 | 2024-02-04 is 239 days after it |
| Ephemeris.DefaultSpan | src/stores/ephemeris.js:13-15 | the initial end date is 2024-02-04, at distance 239 from the start |
| Ephemeris.SpanFromDay | src/stores/ephemeris.js:103 | `addDays` lands on the date n days on, and `diffDays` measures n back |
| Ephemeris.ReconcileFacts | src/stores/ephemeris.js:89-103 | for an admissible count, `addDays` throws exactly when the start does not parse; it lands at that distance within years 0000..9999; an end already at that distance is reproduced |
| Ephemeris.DateSpan.constructor | src/stores/ephemeris.js:13-15 | the store opens on 2023-06-10 with 239 days, ending 2024-02-04, reconciled |
| Ephemeris.ClampedCount | src/stores/ephemeris.js:89-101 | an admissible distance is kept; NaN and a distance below 44 become 44; a distance above 729 becomes 729 |
| Ephemeris.DateSpan.UpdateCount | src/stores/ephemeris.js:88-106 | the count is the clamped distance (NaN -> 44); it throws RangeError exactly when the start does not parse, leaving the end; otherwise the end is `addDays(start, count)`, one refetch is requested and the span is reconciled; an already admissible span keeps its end |
| Ephemeris.DateSpan.SetStartDate | src/stores/ephemeris.js:240 | an unchanged value triggers nothing; a new start s gives the count `ClampedCount(diffDays(s, end))`; it throws RangeError exactly when s does not parse, leaving the end and the refetches; otherwise the end is `addDays(s, count)`, one refetch is requested and the span is reconciled within years 0000..9999; an admissible distance keeps the end |
| Ephemeris.DateSpan.SetEndDate | src/stores/ephemeris.js:241 | an unchanged value triggers nothing; a new end e gives the count `ClampedCount(diffDays(start, e))`; it throws RangeError exactly when the start does not parse, keeping e and the refetches; otherwise the end is `addDays(start, count)` with one refetch and the span is reconciled within years 0000..9999; an end at an admissible distance is kept with that count |
| Ephemeris.LastOnDaySpec | src/stores/ephemeris.js:146-151 | a planet's record on a day is found exactly when one exists, and it is the last of them |
| Ephemeris.DayKey | src/stores/ephemeris.js:148 | a Julian date in decimal notation (1e-6 up to 1e21) is filed under its integer part |
| Ephemeris.FiledSomewhere | src/stores/ephemeris.js:150-151 | every day some record falls on files at least one planet |
| Ephemeris.PivotModel | src/stores/ephemeris.js:142-154 | the pivot of one model has no empty day |
| Ephemeris.Pivot | src/stores/ephemeris.js:140-142 | every model of the input, even one without planets, is a key of the pivot and nothing else is |
| Ephemeris.Put | src/stores/ephemeris.js:150-151 | the write adds `day` and `planet` and sets `[day][planet]` to the record; every other day and every other planet of that day are unchanged |
| Ephemeris.PivotSpec | src/stores/ephemeris.js:133-157 | every model is kept; a planet is filed under a day exactly when it has a record on it, with the last such record; no day is empty |
| Ephemeris.PivotModelNoRecords | src/stores/ephemeris.js:144-146 | a planet without records adds nothing |
| Ephemeris.PivotModelFile | src/stores/ephemeris.js:150-151 | filing one more record is one `tmpEphem[model][jDt][planet] = ephem` step |
| Ephemeris.PivotModelFilePrefix | src/stores/ephemeris.js:146-152 | filing record i extends the pivot of the records before it |
| Ephemeris.LastOnDayAppend | src/stores/ephemeris.js:151 | a later record on the same day replaces the earlier one |
| Ephemeris.FiledNone | src/stores/ephemeris.js:150 | nothing is filed on a day no record falls on |
| Ephemeris.DaysOfFile | src/stores/ephemeris.js:150 | filing a record adds exactly its day |
| Ephemeris.DaysOfFileNew | src/stores/ephemeris.js:150 | after filing, the earlier days and the new record's day are all present |
| Ephemeris.DaysOfFileOld | src/stores/ephemeris.js:150 | after filing, every day other than the new record's was already present |
| Ephemeris.FiledFileSameDay | src/stores/ephemeris.js:151 | a record filed on its day replaces its planet's entry there |
| Ephemeris.FiledFileOtherDay | src/stores/ephemeris.js:150-151 | other days are untouched |
| Ephemeris.FiledAgree | src/stores/ephemeris.js:150-151 | two series with the same planets and the same last record per planet on a day file the same records on that day |
| Ephemeris.PivotEphemerides | src/stores/ephemeris.js:133-157 | the nested loops build exactly `Pivot(ephemerides)`, whatever the key order |
| Ephemeris.PivotSeries | src/stores/ephemeris.js:144-153 | the loops over one model build exactly its pivot |
| Ephemeris.Rem30 | src/stores/ephemeris.js:206 | `degrees % 30` takes the sign of the dividend, is under 30 in magnitude and completes the truncated quotient |
| Ephemeris.DegreeAsSign | src/stores/ephemeris.js:202-213 | a non-number gives 'x'; a Number is 30 * sign + deg with deg in [0, 30) (or (-30, 0] below 0) and sign in 0..11 for [0, 360) |
| Ephemeris.DegreeAsSignAsWritten | src/stores/ephemeris.js:205-206 | with `parseInt`, the sign agrees with truncation for 0 and for 0.00003 <= abs(x) < 3e22 |
| Ephemeris.TinyLongitudeMisread | src/stores/ephemeris.js:205 | 0.00001 degrees is sign 0, but `parseInt` reads it as sign 3 |
| Ephemeris.AspectAng | src/stores/ephemeris.js:159-164 | for longitudes in [0, 360) the separation is in [0, 180] and is the distance of one way round |
| Ephemeris.AspectAngShortest | src/stores/ephemeris.js:159-164 | no way round the circle, however many turns, is shorter |
| Ephemeris.AspectAngSymmetric | src/stores/ephemeris.js:161 | the separation does not depend on the order of the longitudes |
| Ephemeris.Orb | src/stores/ephemeris.js:177-180 | the orb is the larger of 2 and half the speed difference |
| Ephemeris.InBand | src/stores/ephemeris.js:184-187 | the separation lies in the band exactly when it is within the orb of the angle: abs(aspAng - angle) <= variance |
| Ephemeris.LastMatch | src/stores/ephemeris.js:182-193 | a recorded aspect is one of the listed angles |
| Ephemeris.LastMatchSpec | src/stores/ephemeris.js:182-193 | no aspect is recorded exactly when no band holds the separation; otherwise it is the last angle whose band does |
| Ephemeris.DefaultBandsDisjoint | src/stores/ephemeris.js:26 | with the default angles and an orb under 15 at most one band matches, and it is the one recorded |
| Ephemeris.LastMatchPrefix | src/stores/ephemeris.js:187-191 | one more angle either overwrites the match or leaves it |
| Ephemeris.ReflectsStart | src/stores/ephemeris.js:170 | the empty table is the state before the first pair |
| Ephemeris.ReflectsAngleHit | src/stores/ephemeris.js:187-191 | writing a matching angle keeps the loop state, one angle on |
| Ephemeris.PairsFilledHit | src/stores/ephemeris.js:189-191 | the write touches only the current pair |
| Ephemeris.NoReverseHit | src/stores/ephemeris.js:174-191 | no planet is paired with itself or an earlier planet |
| Ephemeris.Record | src/stores/ephemeris.js:189-191 | the write adds `p` and `q` and sets `[p][q]` to the angle; every other row and every other entry of row `p` are unchanged |
| Ephemeris.RowsWithinRecord | src/stores/ephemeris.js:189 | creating a planet's row only to write into it leaves no empty row and no foreign key |
| Ephemeris.ReflectsAngleMiss | src/stores/ephemeris.js:187 | a missed band keeps the loop state, one angle on |
| Ephemeris.PairsFilledMiss | src/stores/ephemeris.js:187 | a missed band leaves every pair's recorded aspect as it was |
| Ephemeris.ReflectsDone | src/stores/ephemeris.js:172-195 | after all rows the table holds exactly the aspects of all pairs |
| Ephemeris.CalculateAspects | src/stores/ephemeris.js:166-200 | the table has an entry for a pair i < j exactly when some band holds their separation, with the last such angle; no reversed or self pair; no empty row; only planet names as keys; every value is one of the angles |
| Ephemeris.AspectsOfRow | src/stores/ephemeris.js:174-194 | one row of pairs keeps the loop state |
| Ephemeris.AspectsOfPair | src/stores/ephemeris.js:176-193 | one pair's angle loop keeps the loop state |

## Left out

- HTTP and promises are not modelled: `getEphemerides`, `getPlanets`, `loadingCnt` and the start-up fetch chain. The request `updateCount` makes is the counter `refetchRequests`.
- Vue reactivity is not modelled. A watcher is a setter that calls `UpdateCount` when the value changes.
- Ephemeris.DateSpan.SetStartDate: when `updateCount` moves `endDate`, the watcher on `endDate` fires and runs `updateCount` a second time; the model does not run that second call. By `UpdateCount`'s contract the second call keeps `startDate`, `endDate` and `count` whenever the first one settled the span within years 0000-9999, but it still calls `getEphemerides()` (ephemeris.js:105). So in the source such a start change requests two fetches, and the model counts one in `refetchRequests`.
- Ephemeris.DateSpan.SetEndDate: the same holds for a new end date that `updateCount` replaces (one at an inadmissible distance): the source runs `updateCount` again and requests a second fetch, and the model counts one.
- Date strings are limited to the complete-date form YYYY-MM-DD. Other formats, times, time zones and engine leniency (such as 2023-02-30 rolling over) make the string unparseable here.
- The count passed to `addDays` is a whole number or NaN. Fractional counts are not modelled.
- `toLocaleUpperCase` is modelled on ASCII letters only. Other characters are unchanged.
- Numbers are mathematical reals, not IEEE doubles, so there is no rounding, overflow, NaN or Infinity in longitudes and speeds. Records are assumed to carry all their fields.
- JsCore.ParseIntOfNumber: the string form of a Number in exponent notation (below 1e-6 or from 1e21 on) is taken as its exact decimal leading digit. The shortest-round-trip formatting of doubles, which rounds the digits, is not modelled.
- Array elements of `findMinMax`, `diffArray_simple` and `intersectArray` are integers, so `+x` is `x`. Arrays mixing numeric strings and numbers are not modelled.
- Utils.ConvertArrayValuesToNumbers: the conversion is a parameter. Whatever it does, the array is unchanged.
- `fixedNum`, `toFixed(2)`, the glyph lookup `signSymbols[sign]` and the colour and symbol tables are presentation and are not modelled. `DegreeAsSign` returns the sign index and the degrees.
- Ephemeris.CalculateAspects: the table is returned instead of being attached to the input as `aspects`. The `aspects` key a second call would meet among the planets is not modelled. The input is the planets of one day in `Object.keys` order.
- The aspect angles are a parameter of `CalculateAspects`. The store's default list is `DefaultAspectAngles`.
- The one-argument form `aspectAng(a)` is `AspectAng(a, 0.0)` and has no member of its own.
- Key order is not modelled. The pivot is proved the same for any order in which models and planets are visited.

## Findings

| source | as written | input that shows it | evidently intended | confidence | as-written member | corrected member |
|---|---|---|---|---|---|---|
| src/stores/ephemeris.js:205 | `parseInt(degrees / 30)` reads the string form of the quotient, which is in exponent notation below 1e-6 | `degreeAsSign(0.00001)`: the quotient is written 3.3333333333333335e-7, so the sign index is 3 (Cancer) | the integer part of the quotient (`Math.trunc`), sign index 0 (Aries) | high; not executed | Ephemeris.DegreeAsSignAsWritten, Ephemeris.TinyLongitudeMisread | Ephemeris.DegreeAsSign |
