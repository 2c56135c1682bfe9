# Zzwarak history calendar and timetable extraction, in Dafny

Zzwarak turns a free-text "brain dump" into a daily plan and keeps finished
days in a calendar history. This project models the two parts of its code
that are pure, sequential logic, and proves properties about them.

1. **The history calendar** (`app/history/page.tsx`). This covers:
   - the `YYYY-MM-DD` date key under which each day is stored;
   - the number of days in a month, computed with JavaScript's `Date`;
   - the month grid with its leading blanks and weekday columns;
   - the previous/next month buttons;
   - a day's completion statistics, computed from the `top3-${i}` checklist flags: done/total, percentage, the all-done check mark and the progress dots;
   - the `"1h 30m"` label shown for a timeblock;
   - which archived day the detail panel shows.
2. **The timetable route** (`app/api/parse-timetable/route.ts`). It cuts a JSON
   object out of the generative model's free-text reply with the greedy
   pattern `/\{[\s\S]*\}/`. It defaults the image media type to
   `image/jpeg`. It turns every failure into one fixed error payload with
   status 500.

Modules, one per concept:

| file | module | contents |
|---|---|---|
| optional.dfy | `Optional` | `Option`, standing in for `undefined`/`null` and failed parses |
| decimal.dfy | `Decimal` | decimal text of integers (`${n}`), `padStart`, and the parser that reads them back |
| search.dfy | `Search` | first and last index of an element |
| calendar.dfy | `Calendar` | Gregorian month lengths and `getDaysInMonth` |
| date_key.dfy | `DateKey` | `toDateStr` and its inverse |
| month_nav.dfy | `MonthNav` | `prevMonth` / `nextMonth` |
| month_grid.dfy | `MonthGrid` | the `cells` layout and `dow` |
| history_types.dfy | `HistoryTypes` | the stored records `DayEntry`, `ResultData`, … |
| day_stats.dfy | `DayStats` | done/total/pct/allDone/dots |
| timeblock_label.dfy | `TimeblockLabel` | the timeblock duration label and its inverse |
| history_page.dfy | `HistoryPage` | loading the history, the calendar cells, the selected day |
| timetable.dfy | `Timetable` | JSON-span extraction, media type, the route's success/failure response |

Parameters stand in for what the model cannot see:
- the clock (today's date is a `Ymd`);
- `getFirstDayOfMonth` (`firstDay`);
- `localStorage` (the raw string, if any);
- `JSON.parse`, `req.json()` and the Gemini call (functions returning `Option`).

## Model

| member | source | states |
|---|---|---|
| Decimal.IntToString | app/history/page.tsx:30 | the text starts with `-` iff the integer is negative, and is otherwise all digits |
| Decimal.CanonicalIsNatToString | app/history/page.tsx:30 | digit text without a leading zero is exactly the decimal text of its own value |
| Decimal.ParseCanonicalNat | app/history/page.tsx:121 | the reader accepts exactly digit text without a leading zero, and what it accepts is the text of the value it returns |
| Decimal.NatToStringCanonical | app/history/page.tsx:121 | the reader gives back every natural number from its decimal text |
| Decimal.ParseCanonicalInt | app/history/page.tsx:121 | whatever integer text the reader accepts is the decimal text of the integer it returns |
| Decimal.IntToStringCanonical | app/history/page.tsx:121 | the reader gives back every integer from its decimal text, sign included |
| Decimal.IntToStringRoundTrip | app/history/page.tsx:30 | the decimal text a template literal gives an integer reads back as that integer, sign included |
| Decimal.IntToStringInjective | app/history/page.tsx:30 | two integers have the same decimal text iff they are equal |
| Decimal.NatToStringLength | app/history/page.tsx:30 | a number has 1, 2, 3 or 4 digits in the ranges 0..9, 10..99, 100..999, 1000..9999 |
| Decimal.PadStart | app/history/page.tsx:30 | `padStart(width, fill)` gives length max(length, width) |
| Decimal.PadStartShape | app/history/page.tsx:30 | the padded text ends with the original and is fill characters before it |
| Decimal.TwoDigitRoundTrip | app/history/page.tsx:30 | a number below 100, zero-padded to two characters, is two digits that read back as the number |
| Calendar.DaysInMonth | app/history/page.tsx:27 | `new Date(y, m+1, 0).getDate()` is always between 28 and 31 |
| Calendar.DaysInMonthNormalizes | app/history/page.tsx:27 | for any month argument, the result is the length of month m mod 12 in year (constructor year + m div 12), i.e. `Date`'s month overflow |
| Calendar.DaysInMonthIsGregorian | app/history/page.tsx:27 | for a year outside 0..99 and month 0..11, the result is the Gregorian length of that month: 29 for February exactly in leap years, 28 for February otherwise |
| Calendar.TwoDigitYears | app/history/page.tsx:27 | a year 0..99 is taken as 1900..1999 by the `Date` constructor, so it gets that year's month lengths |
| Calendar.MonthOverflow | app/history/page.tsx:27 | when neither y nor y+1 lies in 0..99, month m+12 of year y has the length of month m of year y+1 (at y = 99 it does not: year 99 is read as 1999, year 100 is not) |
| Calendar.YearLength | app/history/page.tsx:27 | the twelve month lengths sum to 366 in a leap year and 365 otherwise |
| DateKey.ToDateStr | app/history/page.tsx:29-31 | the key is at least seven characters long |
| DateKey.ParseJoined | app/history/page.tsx:29-31 | the parser splits year, 2-character month and 2-character day back out of a joined key |
| DateKey.DateKeyRoundTrip | app/history/page.tsx:29-31 | reading a key back gives the year, 0-based month and day it was made from, for any year, month+1 in 0..99 and day in 0..99 |
| DateKey.DateKeyInjective | app/history/page.tsx:29-31 | distinct days (month+1 and day below 100) never share a history key |
| DateKey.DateKeyFormat | app/history/page.tsx:29-31 | for 1000 ≤ y ≤ 9999, 0 ≤ m ≤ 11, 1 ≤ d ≤ 31 the key is 10 characters `YYYY-MM-DD`: digits y, `-`, two digits m+1, `-`, two digits d |
| MonthNav.FromMonthIndex | app/history/page.tsx:223-224 | every month count is the count of exactly one valid year/month pair |
| MonthNav.PrevMonth | app/history/page.tsx:223 | steps the month count back by exactly one; keeps a valid month valid; January goes to December of the year before |
| MonthNav.NextMonth | app/history/page.tsx:224 | steps the month count forward by exactly one; keeps a valid month valid; December goes to January of the year after |
| MonthNav.MonthIndexInjective | app/history/page.tsx:223-224 | on valid months, year·12+month determines the month on view |
| MonthNav.StepsAreIndexSteps | app/history/page.tsx:223-224 | both buttons agree with the reference definition "month count ∓ 1" |
| MonthNav.PrevNextInverse | app/history/page.tsx:223-224 | prev then next, and next then prev, return to the same month |
| MonthNav.IterateIndex | app/history/page.tsx:224 | n presses of next advance the month count by n and stay valid |
| MonthNav.TwelveStepsIsAYear | app/history/page.tsx:224 | twelve presses of next reach the same month of the following year |
| MonthGrid.Cells | app/history/page.tsx:226 | `cells` has firstDay + daysInMonth entries: the first firstDay are blank, and entry firstDay+k holds day k+1 |
| MonthGrid.Dow | app/history/page.tsx:275 | `dow` lies in 0..6 |
| MonthGrid.DayPosition | app/history/page.tsx:226 | a cell holds a day iff it is not a leading blank; that day lies in 1..daysInMonth and sits at index firstDay+day−1 |
| MonthGrid.DowIsColumn | app/history/page.tsx:275 | `dow` of a day equals its cell's column in the 7-column grid |
| DayStats.TopKey | app/history/page.tsx:46 | the key is `top3-` followed by text that reads back as the index |
| DayStats.TopKeyInjective | app/history/page.tsx:46 | `top3-${i}` keys of different indices differ |
| DayStats.CountChecked | app/history/page.tsx:46 | the filtered count never exceeds the list length |
| DayStats.CountIsCardinality | app/history/page.tsx:46 | the done count is the number of indices i < total whose flag is present and true; absent keys count as not done |
| DayStats.AllCheckedIff | app/history/page.tsx:273-274 | the count equals the length iff every item's flag is set |
| DayStats.SetFlagEffect | app/history/page.tsx:46 | setting item j's flag changes the count by exactly that flag's change when j is in the list, and not at all otherwise |
| DayStats.UnrelatedKeyFrame | app/history/page.tsx:46 | keys other than `top3-i` for an index in the list (shallow, deep, sequence keys) do not affect the count |
| DayStats.Done | app/history/page.tsx:46 | 0 ≤ done ≤ total |
| DayStats.Pct | app/history/page.tsx:47 | `pct` is 0 for an empty list; otherwise it is 100·done/total rounded half up: pct − ½ ≤ 100·done/total < pct + ½ |
| DayStats.PctRange | app/history/page.tsx:47 | pct ≤ 100, and pct = 100 when every item is done |
| DayStats.PctHundredIff | app/history/page.tsx:47 | below 200 items, pct = 100 iff done = total |
| DayStats.PctMonotone | app/history/page.tsx:47 | more done items never give a lower percentage |
| DayStats.AllDone | app/history/page.tsx:274 | a day with the check mark shows 100% |
| DayStats.AllDoneIff | app/history/page.tsx:274 | `allDone` iff the list is non-empty and every item's flag is set |
| DayStats.ProgressDots | app/history/page.tsx:286-287 | min(total, 3) dots, dot i filled iff i < done |
| DayStats.FilledDots | app/history/page.tsx:286-287 | exactly min(done, 3) dots are filled |
| DayStats.GridCounts | app/history/page.tsx:272-273 | the cell's t/d: 0/0 without an entry, d ≤ t always |
| DayStats.GridMarker | app/history/page.tsx:281-289 | no marker iff no entry; a check mark iff all done; otherwise the progress dots |
| DayStats.DetailSummary | app/history/page.tsx:45-47 | the panel's total is the list length, its done is the number of checked indices below total, and its pct is `Pct(done, total)`, the half-up rounded percentage, at most 100 |
| DayStats.GridMatchesDetail | app/history/page.tsx:272-273 | the calendar cell and the detail panel give the same total and done for a day |
| TimeblockLabel.Label | app/history/page.tsx:121 | the label ends in `h` iff the duration is a whole number of hours (≥ 60 minutes) |
| TimeblockLabel.LabelRoundTrip | app/history/page.tsx:121 | reading the label back gives hours·60 plus its minutes, which is the duration |
| TimeblockLabel.ParsedIsLabel | app/history/page.tsx:121 | every text the reader accepts is the label of the duration it reads: `<m>m` for m < 60; otherwise m div 60 hours, then m mod 60 minutes only when non-zero, with no leading zeros. With the round trip, the accepted texts are exactly the labels |
| TimeblockLabel.LabelInjective | app/history/page.tsx:121 | different durations have different labels |
| HistoryPage.LoadHistory | app/history/page.tsx:213-216 | no stored text or empty stored text gives the empty history; a parse failure gives the empty history and is not raised; otherwise the parsed history is used |
| HistoryPage.Lookup | app/history/page.tsx:269 | `history[dateStr]` is present iff the key is stored, and is then the stored entry |
| HistoryPage.IsSelected | app/history/page.tsx:271 | a closed panel highlights no day; an open panel highlights exactly the key equal to its entry's `date` |
| HistoryPage.ClickDay | app/history/page.tsx:278 | a day without an entry leaves the selection unchanged; on a day with an entry, the result is cleared iff that day was the selected one, and is that day's entry when it was not |
| HistoryPage.ClickToggles | app/history/page.tsx:278 | on a day whose entry carries its own key, a click flips whether the day is selected, and two clicks land on the predicted state |
| HistoryPage.ClickKeepsSelectionInHistory | app/history/page.tsx:278 | the panel only ever shows an entry of the history |
| HistoryPage.CloseDetail | app/history/page.tsx:305 | closing the panel always clears the selection |
| HistoryPage.CellFor | app/history/page.tsx:266-280 | a day cell's key is `toDateStr` of the view and day; its weekday is in 0..6; done ≤ total; it has no marker iff the history has no entry for its key |
| HistoryPage.IsTodayIff | app/history/page.tsx:270 | a cell is highlighted as today iff its year, month and day are today's |
| HistoryPage.CellAt | app/history/page.tsx:266-275 | cell i is blank iff i < firstDay; otherwise it shows day i−firstDay+1 in column i mod 7 |
| HistoryPage.MonthCells | app/history/page.tsx:266-294 | the grid has firstDay + daysInMonth cells, each the cell of its index |
| HistoryPage.MonthCellsFollowLayout | app/history/page.tsx:266-275 | the rendered grid is blank exactly where `cells` is blank; each other cell carries the key of the day `cells` holds and sits in the column of its weekday |
| HistoryPage.DayKeysDistinct | app/history/page.tsx:268-269 | two different days of the month on view have different history keys |
| HistoryPage.OneSelectedCell | app/history/page.tsx:268-271 | at most one cell of the month on view is highlighted as selected |
| HistoryPage.MonthCellKeysDistinct | app/history/page.tsx:268-269 | no two cells of the grid look up the same history key |
| Timetable.FindJsonSpan | app/api/parse-timetable/route.ts:46 | a match exists iff some `{` has a `}` after it. The match runs from the first `{` to the last `}`, inclusive: every possible `{…}` match lies within it, no `{` comes before it, no `}` comes after it |
| Timetable.ExtractJson | app/api/parse-timetable/route.ts:46-47 | extraction fails iff there is no `{` with a later `}`; on success the text is the contiguous slice of the matched span, at least 2 long, starting with `{` and ending with `}` |
| Timetable.ExtractWrapped | app/api/parse-timetable/route.ts:46 | a JSON object with no `{` before it and no `}` after it is extracted exactly |
| Timetable.MediaType | app/api/parse-timetable/route.ts:38 | a non-empty media type is passed through; a missing or empty one becomes `image/jpeg` |
| Timetable.WrappedReplyAccepted | app/api/parse-timetable/route.ts:44-49 | a reply that wraps a parseable JSON object in text with no `{` before it and no `}` after it is answered with status 200 and exactly that object |
| Timetable.HandleParseTimetable | app/api/parse-timetable/route.ts:6-57 | the response is 200 with the parsed JSON iff the body parses, the model replies, a span is found and the span parses; any other outcome is the fixed message with status 500 and is never propagated |

## Left out

- React rendering, framer-motion animation, Tailwind classes, `Link` navigation, the tab state of the detail panel and the section filters are presentation only.
- `getFirstDayOfMonth` and the current date come from `Date` and the clock, so `firstDay` and today's date are parameters. The model does not require `firstDay` to be in 0..6.
- `localStorage.getItem` and `JSON.parse` are foreign code. The load takes the stored text and a parse function that returns `Option`. A parse that yields a non-object value is not distinguished from a history.
- `totalDays` (the number of history keys) is a plain `Object.keys(…).length` and is not modelled.
- Decimal.IntToString: JavaScript prints integers of 10²¹ and above in exponent notation, and `minutes` may be fractional. Both are left out; all numbers are integers rendered in plain decimal.
- Calendar.DaysInMonth: the limited range of JavaScript's `Date` (about ±275,000 years) is not modelled; past it, `getDate` gives `NaN`.
- DayStats.Pct: `Math.round` of the floating-point `done / total * 100` is modelled as exact half-up rounding, `(200·done + total) div (2·total)`. Floating-point error near .5 is not modelled.
- The Gemini SDK, `NextResponse`, `console.error` and the API-key setup are external. The model's reply and the request body are parameters.
- `app/api/analyze/route.ts` and `app/page.tsx` are not part of this model. The first is a thin wrapper around the Gemini SDK and `JSON.parse`; the second is UI only.
- The daily-plan store, day-rollover archiving, the checklist persistence and the focus timer live outside the history page and the timetable route and are not modelled.

Some behaviours of the code are modelled as written:
- The `Date` constructor reads years 0..99 as 1900..1999, which `Calendar.TwoDigitYears` states.
- A selected day is matched by its entry's own `date` field, not by the key it is stored under, which `HistoryPage.ClickToggles` makes explicit.
- From 200 items on, a day with one item left can already show 100%, which `DayStats.PctHundredIff` bounds.
