# Liturgical season engine

A Dafny model of the liturgical-year engine in `utils/liturgicalYear.ts`. It
maps a calendar date to the season of the Roman liturgical year (Advent,
Christmas, Lent, Easter, Ordinary Time), the season's colour, a description,
and an optional "Semana Santa" tag for the last week of Lent.

The engine works on JavaScript `Date` values built with `Date.UTC`. The model
works on ECMAScript day numbers: day 0 is 1970-01-01, and the source's
millisecond factor is dropped, because the engine only ever compares dates
and adds whole days. Module `JsDate` models the parts of the ECMAScript date
algorithms the engine relies on:

- `Date.UTC`, including its mapping of years 0–99 to 1900–1999, and month
  overflow in MakeDay.
- DayFromYear, YearFromTime, MonthFromTime and DateFromTime, so `setUTCDate`
  in `addDays` is modelled as written.
- WeekDay.
- JavaScript's truncating `%`, as `Rem`.

Module `LiturgicalTypes` holds the result types of `types.ts`. Module
`LiturgicalYear` holds the engine:

- the Anonymous Gregorian computus;
- the marker dates of a year (Ash Wednesday, Palm Sunday, Pentecost, first
  Sunday of Advent, Baptism of the Lord, the two Christmases);
- the ordered season tests.

It also holds a variant whose Advent starts on the liturgical date (see
Findings). Module `LiturgicalFacts` proves what the engine promises:

- Easter is a Sunday between March 22 and April 25.
- The movable feasts fall on their weekdays.
- The marker dates are ordered.
- Each season is exactly its window of dates, whatever the order of the tests.
- The window edges: the eve of Ash Wednesday, Ash Wednesday, Holy Saturday, Easter, Pentecost and the day after it.
- Summer is Ordinary Time; the year's last and first days are Christmastide.
- Where the source's start of Advent departs from the liturgical rule.

## Model

| member | source | states |
|---|---|---|
| JsDate.Rem | utils/liturgicalYear.ts:17-30 | JavaScript `%` with a positive divisor: the result lies strictly between -y and y, equals the mathematical remainder for a non-negative dividend, and is the negated remainder of -x for a non-positive one |
| JsDate.YearFromTime | utils/liturgicalYear.ts:37 | `getUTCFullYear`: the year returned is the one whose first day is on or before the date and whose successor starts after it |
| JsDate.YearFromTimeUnique | utils/liturgicalYear.ts:37 | only one year contains a given day, so the year read back is determined by that containment |
| JsDate.DaysInMonth | utils/liturgicalYear.ts:4-6 | every month has 28 to 31 days, and 29 exactly for February of a leap year |
| JsDate.NextYear | utils/liturgicalYear.ts:4-6 | the next year starts one year-length later, and a year's length is the sum of its months |
| JsDate.YearLength | utils/liturgicalYear.ts:4-6 | consecutive years start 365 or 366 days apart |
| JsDate.DayFromYearMonotone | utils/liturgicalYear.ts:4-6 | a later year starts no earlier than the year after an earlier one |
| JsDate.WeekDay | utils/liturgicalYear.ts:47-53 | `getUTCDay`: a weekday from 0 (Sunday) to 6 |
| JsDate.WeekDayShift | utils/liturgicalYear.ts:47 | moving a date by n days moves its weekday by n modulo 7 |
| JsDate.DayWithinYear | utils/liturgicalYear.ts:11 | a date's offset in its year lies below that year's length |
| JsDate.MonthFromTime | utils/liturgicalYear.ts:11 | `getUTCMonth`: a month 0–11 whose start is on or before the date's offset in its year |
| JsDate.DateFromTime | utils/liturgicalYear.ts:11 | `getUTCDate`: a day between 1 and the length of the date's month |
| JsDate.UtcRoundTrip | utils/liturgicalYear.ts:4-6 | createDate of a valid calendar date (year outside 0–99) reads back the same year, month and day |
| LiturgicalYear.AddDays | utils/liturgicalYear.ts:9-13 | setting the UTC day of the month to day + n (month and year ends carry over) yields exactly the date n days later |
| LiturgicalYear.EasterOffset | utils/liturgicalYear.ts:17-28 | from year 0 on, h + l - 7m lies between 0 and 34 days after March 22 |
| LiturgicalYear.Computus | utils/liturgicalYear.ts:29-30 | from year 0 on, the month and day are March 22–31 or April 1–25 |
| LiturgicalFacts.EasterWindow | utils/liturgicalYear.ts:16-32 | getEaster falls on or after March 22 and on or before April 25 of its year |
| LiturgicalFacts.EasterFromMarch22 | utils/liturgicalYear.ts:29-31 | Easter is March 22 plus the offset h + l - 7m |
| LiturgicalFacts.ComputusWeekStep | utils/liturgicalYear.ts:17-28 | from year 0 on, the offset h + l - 7m is congruent to 32 + 2e + 2i - k modulo 7: its l term is the step from March 22 to the next Sunday |
| LiturgicalFacts.March22Weekday | utils/liturgicalYear.ts:16-32 | from year 100 on, the day number of March 22 plus 4 + 32 + 2e + 2i - k is a multiple of 7, in terms of the century (b = 4d + e) and the year within it (c = 4i + k) |
| LiturgicalFacts.EasterIsSunday | utils/liturgicalYear.ts:15-32 | from year 100 on, getEaster always returns a Sunday |
| LiturgicalFacts.Computus2024 | utils/liturgicalYear.ts:16-32 | Easter 2024 is March 31 |
| LiturgicalFacts.Computus2025 | utils/liturgicalYear.ts:16-32 | Easter 2025 is April 20 |
| LiturgicalFacts.Computus1981 | utils/liturgicalYear.ts:16-32 | Easter 1981 is April 19, a year whose computus takes the m = 1 correction of line 28 |
| LiturgicalYear.MarkerDates | utils/liturgicalYear.ts:41-43 | Ash Wednesday is Easter minus 46 days, Palm Sunday Easter minus 7 (line 72), Pentecost Easter plus 49 |
| LiturgicalFacts.MovableFeasts | utils/liturgicalYear.ts:41-43 | from year 100 on, Ash Wednesday is a Wednesday and Palm Sunday and Pentecost are Sundays, at their fixed distances from Easter |
| LiturgicalYear.FirstSundayOfAdvent | utils/liturgicalYear.ts:47 | the offset expression, with JavaScript precedence and truncating `%`, is minus the weekday of Christmas minus 21 |
| LiturgicalFacts.FirstSundayOfAdventAsWritten | utils/liturgicalYear.ts:46-47 | the source's Advent start is a Sunday 21 to 27 days before Christmas, 21 exactly when Christmas is a Sunday |
| LiturgicalFacts.FirstSundayOfAdventInCalendar | utils/liturgicalYear.ts:44-47 | the source's Advent start lies between November 28 and December 4, on December 4 exactly when Christmas is a Sunday |
| LiturgicalYear.BaptismOfLord | utils/liturgicalYear.ts:50-53 | the Baptism of the Lord falls one to seven days after Epiphany |
| LiturgicalFacts.BaptismOfLordIsNextSunday | utils/liturgicalYear.ts:50-53 | it is the first Sunday strictly after Epiphany (no Sunday in between), a full week later exactly when Epiphany is a Sunday |
| LiturgicalFacts.BaptismOfLordInJanuary | utils/liturgicalYear.ts:50-53 | it falls between January 7 and January 13, on January 13 exactly when Epiphany is a Sunday |
| LiturgicalYear.Classify | utils/liturgicalYear.ts:60-85 | every result carries its season's colour; the tag is present exactly in Lent from Palm Sunday on, and it is "Semana Santa" |
| LiturgicalYear.GetLiturgicalInfo | utils/liturgicalYear.ts:34-86 | the colour is the season's colour (purple, white or green), never red or rose; types.ts:27-35 |
| LiturgicalFacts.ClassifyByWindows | utils/liturgicalYear.ts:58-85 | for ordered markers, the ordered tests return season s if and only if the date lies in s's own window |
| LiturgicalFacts.CalendarPositions | utils/liturgicalYear.ts:44-56 | the fixed dates the markers are compared with, as offsets from the first day of the year |
| LiturgicalFacts.MarkersWellOrdered | utils/liturgicalYear.ts:40-56 | from year 101 on, previous Christmas < Baptism < Ash Wednesday < Palm Sunday < Easter ≤ Pentecost, Pentecost + 1 < Advent < Christmas, and the two Christmases bracket the year |
| LiturgicalFacts.YearLandmarks | utils/liturgicalYear.ts:44-56 | from year 101 on, the previous Christmas comes before January 1 and January 7; January 13 plus 46 days comes before March 22; June 14 comes before November 27; and Christmas comes before the next January 1 |
| LiturgicalFacts.SeasonWithinYear | utils/liturgicalYear.ts:58-85 | a date of the year classified by ordered markers lies in its season's window, and carries the tag exactly between Palm Sunday and Easter |
| LiturgicalFacts.InOwnYear | utils/liturgicalYear.ts:36-37 | a valid calendar date outside years 0–99 is read back as its own year |
| LiturgicalFacts.ClassifiesOwnYear | utils/liturgicalYear.ts:36-41 | getLiturgicalInfo of such a date classifies it with the markers of its own year |
| LiturgicalFacts.DateInMarkedYear | utils/liturgicalYear.ts:36-56 | from year 101 on, a date's year is read back, its markers are ordered, and the date lies after the previous Christmas and inside the year |
| LiturgicalFacts.SeasonOfDate | utils/liturgicalYear.ts:34-86 | from year 101 on, the season returned for a date is exactly its window among the year's markers: Advent from its first Sunday to Christmas Eve, Christmas before the Baptism or from Christmas, Lent from Ash Wednesday to Holy Saturday, Easter to Pentecost inclusive, Ordinary Time otherwise |
| LiturgicalFacts.HolyWeekIsTagged | utils/liturgicalYear.ts:71-75 | from year 101 on, every date from Palm Sunday to Easter Eve is Lent, purple, tagged "Semana Santa" |
| LiturgicalFacts.HolyThursday2024 | utils/liturgicalYear.ts:71-75 | March 28, 2024 is Lent, purple, tagged "Semana Santa" |
| LiturgicalFacts.WindowEdges | utils/liturgicalYear.ts:70-85 | for ordered markers: the day before Ash Wednesday is Ordinary Time, Ash Wednesday is Lent untagged, Holy Saturday is Lent tagged, Easter and Pentecost are Easter, the day after Pentecost is Ordinary Time |
| LiturgicalFacts.LentAndEasterEdges | utils/liturgicalYear.ts:70-85 | the same edges for the markers of every year from 101 on |
| LiturgicalFacts.SummerBounds | utils/liturgicalYear.ts:43-47 | from year 101 on, Pentecost is before June 14 and Advent begins after November 27 |
| LiturgicalFacts.SummerIsOrdinaryTime | utils/liturgicalYear.ts:79-85 | every date from June 14 to November 27 is Ordinary Time, green |
| LiturgicalFacts.ChristmasOnOrBefore | utils/liturgicalYear.ts:44 | Christmas is on or before every day from December 25 to 31 |
| LiturgicalFacts.BaptismOfLordAfter | utils/liturgicalYear.ts:50-53 | January 1–6 come before the Baptism of the Lord |
| LiturgicalFacts.ChristmastideAtYearEnd | utils/liturgicalYear.ts:65-67 | December 25–31 are Christmas, white |
| LiturgicalFacts.ChristmastideAtYearStart | utils/liturgicalYear.ts:65-67 | January 1–6 are Christmas, white |
| LiturgicalYear.CanonicalFirstSundayOfAdvent | utils/liturgicalYear.ts:47 | the corrected Advent start lies 22 to 28 days before Christmas |
| LiturgicalFacts.CanonicalFirstSundayOfAdventRule | utils/liturgicalYear.ts:47 | the corrected start is a Sunday with Christmas 22 to 28 days later; it agrees with the source's value exactly when Christmas is not a Sunday, and is a week earlier otherwise |
| LiturgicalFacts.CanonicalFirstSundayOfAdventInCalendar | utils/liturgicalYear.ts:47 | the corrected start lies between November 27 and December 3 |
| LiturgicalFacts.CanonicalMarkersWellOrdered | utils/liturgicalYear.ts:40-56 | the markers with the corrected Advent start are ordered too |
| LiturgicalFacts.ClassifiesOwnYearCanonical | utils/liturgicalYear.ts:36-41 | the corrected engine classifies a date with the corrected markers of its own year |
| LiturgicalFacts.DateInCanonicalMarkedYear | utils/liturgicalYear.ts:36-56 | the corrected markers of a date's year are ordered and bracket the date |
| LiturgicalFacts.SeasonOfDateCanonical | utils/liturgicalYear.ts:34-86 | the corrected engine returns exactly the season windows, with Advent from the fourth Sunday before Christmas |
| LiturgicalYear.GetLiturgicalInfoCanonical | utils/liturgicalYear.ts:34-86 | the corrected engine's colour is the season's colour |
| LiturgicalFacts.AdventWhenChristmasIsSunday | utils/liturgicalYear.ts:47 | when Christmas is a Sunday, the source's Advent starts on December 4 and the corrected one on November 27 |
| LiturgicalFacts.AdventStartDisagreement | utils/liturgicalYear.ts:47 | from year 101 on, when Christmas is a Sunday, November 27 is Ordinary Time for the source and Advent for the corrected engine |
| LiturgicalFacts.CanonicalAdventOnNovember27 | utils/liturgicalYear.ts:61-63 | with the corrected start, November 27 of such a year is Advent |
| LiturgicalFacts.AdventStartFinding | utils/liturgicalYear.ts:47 | in 2022 Christmas is a Sunday, the source starts Advent on December 4, and November 27, 2022 is classified Ordinary Time |
| LiturgicalFacts.ChristmasSunday2022 | utils/liturgicalYear.ts:44 | December 25, 2022 is day 19351, a Sunday |

## Left out

- The conversion of a `Date` to its local calendar date (`getFullYear`,
  `getMonth`, `getDate` at line 36) depends on the host's time zone. The
  engine's input is that calendar date, as a `CalendarDate`.
- Milliseconds, time values past the ECMAScript TimeClip range and invalid
  dates (NaN) are not modelled; dates are whole day numbers.
- `LiturgicalYear.CreateDate`, `LiturgicalYear.GetEaster`,
  `LiturgicalYear.CanonicalMarkerDates`, `JsDate.Utc`, `JsDate.MakeDay`,
  `JsDate.MakeFullYear`, `JsDate.DayFromYear`, `JsDate.InLeapYear`,
  `JsDate.DaysInYear` and `JsDate.DaysBeforeMonth` carry no contract of their
  own. These lemmas state their properties: `UtcRoundTrip`, `NextYear`,
  `YearLength`, `MonthStarts` (the start of every month and the year length),
  `EasterWindow`, `EasterIsSunday` and `CanonicalFirstSundayOfAdventInCalendar`.
  The helpers `MakeDayInYear` and `UtcInYear` only unfold `MakeDay` and `Utc`
  for a month from 0 to 11.
- LiturgicalFacts.EasterIsSunday: stated from year 100 on. For years 0–99
  `Date.UTC` maps the year to 1900 + year, so createDate places the computus's
  date in another year, whose weekday is unrelated. Negative years are
  outside the computus's domain: under JavaScript's truncating `%` its
  remainders can turn negative, and the bounds of `EasterOffset` and
  `Computus` are stated from year 0 on.
- LiturgicalFacts.MovableFeasts: weekdays stated from year 100 on, for the
  same reason.
- LiturgicalFacts.MarkersWellOrdered: stated from year 101 on. For year 100
  the previous Christmas is built in year 99, which `Date.UTC` moves to 1999.
  The same bound applies to LiturgicalFacts.SeasonOfDate,
  LiturgicalFacts.SummerIsOrdinaryTime, LiturgicalFacts.LentAndEasterEdges,
  LiturgicalFacts.ChristmastideAtYearEnd, LiturgicalFacts.ChristmastideAtYearStart
  LiturgicalFacts.HolyWeekIsTagged and LiturgicalFacts.AdventStartDisagreement,
  which rest on it.
- The description strings are constants; their Portuguese wording is copied
  as data, and labels are translated by the presentation layer.
- The user interface, the chat and search services and the SDK clients of the
  repository are not part of this model.
- The liturgical rule puts the first Sunday of Advent between November 27
  and December 3. The code's date falls between November 28 and December 4.
  `GetLiturgicalInfo` follows the code (see Findings).
- The Holy Week tag is the code's Portuguese "Semana Santa".

## Findings

| source | as written | input that shows it | evidently intended | confidence | as-written member | corrected member |
|---|---|---|---|---|---|---|
| utils/liturgicalYear.ts:47 | the offset `-(w + 21 % 7) % 7 - 21` is `-w - 21`, so Advent starts three weeks before the Sunday on or before Christmas: December 4 when Christmas is a Sunday | 2022: December 25 is day 19351, a Sunday; Advent starts December 4 and November 27, 2022 is classified Ordinary Time | the fourth Sunday before Christmas, November 27 to December 3 (November 27, 2022) | not executed | LiturgicalFacts.AdventStartFinding | LiturgicalYear.CanonicalFirstSundayOfAdvent |

`GetLiturgicalInfo` keeps the code's behaviour. `GetLiturgicalInfoCanonical`
uses `CanonicalMarkerDates`, where Advent starts on
`CanonicalFirstSundayOfAdvent`. `CanonicalFirstSundayOfAdventRule` proves the
corrected date is a Sunday four Sundays before Christmas. It equals the code's
date except when Christmas is a Sunday. `SeasonOfDateCanonical` proves the
corrected engine returns exactly the season windows.
