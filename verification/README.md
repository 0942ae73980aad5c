# Body-part heatmap: a Dafny model

This project models the calendar heatmap of the workout tracker's web client.
The heatmap shows which body parts were trained on each day of the last year.
It covers:

- the `BodyPart` enumeration;
- the `WorkoutHistory` record;
- the body-part colour table;
- the `BodyPartHeatmap` component's date bucketing.

The component's date bucketing has six parts:

- the window of the last 365 days;
- the lookup from an ISO date key to the history record for that day;
- the split of the window into Sunday-to-Saturday columns;
- each cell's colour;
- each cell's tooltip;
- the month labels with their offsets (the labelled day's index div 7).

It also includes the blank padding drawn above the first column.

The heatmap is modelled as a pure function, `Heatmap.Render(today, history)`, which produces a `View`.

- **Days.** A day is an integer counted from 1970-01-01, so day 0 is a Thursday.
- **Calendar.** One proleptic Gregorian calendar (`Calendar.CivilOf`) stands in for the JavaScript `Date` object.
- **Day attributes.** It supplies the weekday (Sunday = 0), the zero-based month, the day of the month, and the `YYYY-MM-DD` key that `toISOString().split('T')[0]` produces.
- **Years.** The year is written with four digits. Outside 0..9999 it is written with a sign and at least six digits.
- **Loops.** Every `forEach` loop is modelled as a recursion over a prefix of the input: `WeeksAfter`, `LabelsAfter` and `BuildLookup`. Lemmas state the loop invariants.
- **Month labels.** A label carries the month number 0..11 rather than its short English name.

Modules:

- `Wrappers`: `Option`.
- `Types`: body parts, their tags and their colours.
- `Calendar`: civil dates, weekdays, month fields and the ISO key with its parser.
- `Heatmap`: the component.

## Model

| member | source | states |
|---|---|---|
| Types.Tag | frontend/src/types.ts:1-9 | each body part's string tag parses back to that body part; tags are non-empty, contain no comma and do not start with a space |
| Types.ParseTagOnlyTags | frontend/src/types.ts:1-9 | a string is accepted as a body part exactly when it is one of the eight tags, and the part it yields has that string as its tag |
| Types.BodyPartsClosed | frontend/src/types.ts:1-9 | there are exactly eight body parts, every body part is listed, and the listed parts and their tags are pairwise distinct |
| Types.Color | frontend/src/types.ts:45-55 | every body part has a colour; it is a well-formed `#rrggbb` colour, it is not the no-workout grey, and it identifies its body part |
| Types.ColorInjective | frontend/src/types.ts:47-54 | two body parts have the same colour exactly when they are the same part |
| Types.ColorsDistinctFromNoWorkout | frontend/src/types.ts:47-54 | the grey of an empty day is well formed and differs from every body-part colour |
| Calendar.DaysInMonth | frontend/src/components/BodyPartHeatmap.tsx:15-18 | a month has 28 to 31 days, and 29 exactly in February of a leap year |
| Calendar.DaysBeforeMonthTable | frontend/src/components/BodyPartHeatmap.tsx:15-18 | the month lengths add up to the standard table of days before each month (0, 31, 59, …, 334, 365), one more after February in a leap year |
| Calendar.YearLength | frontend/src/components/BodyPartHeatmap.tsx:15-18 | a year has 365 days, 366 in a leap year, and stepping that many days from 1 January reaches 1 January of the next year |
| Calendar.NextIsImmediate | frontend/src/components/BodyPartHeatmap.tsx:15-18 | stepping one day forward skips no valid date: nothing lies strictly between a date and the next one |
| Calendar.CivilOfSucc | frontend/src/components/BodyPartHeatmap.tsx:15-18 | consecutive day numbers are consecutive valid calendar dates |
| Calendar.CivilOfInjective | frontend/src/components/BodyPartHeatmap.tsx:15-18 | two day numbers give the same calendar date exactly when they are equal |
| Calendar.WeekdayStep | frontend/src/components/BodyPartHeatmap.tsx:42 | the weekday advances by one each day and Saturday is followed by Sunday |
| Calendar.MonthStep | frontend/src/components/BodyPartHeatmap.tsx:82-83 | the next day either stays in the month with the day of the month one higher, or starts the next month (January after December) on day 1 |
| Calendar.DigitsSpec | frontend/src/components/BodyPartHeatmap.tsx:52 | zero-padded decimal digits are at least as long as the width, are all digits, denote the number, and are exactly `width` long when the number fits in that many digits |
| Calendar.FormatYearShape | frontend/src/components/BodyPartHeatmap.tsx:52 | the year text is exactly four digits for years 0..9999, and otherwise a sign followed by the digits of the year's magnitude, seven characters in all up to six digits |
| Calendar.ParseYearRoundTrip | frontend/src/components/BodyPartHeatmap.tsx:52 | the year text of the ISO key, including the signed six-digit forms, parses back to the year |
| Calendar.ParseFormatCivil | frontend/src/components/BodyPartHeatmap.tsx:52 | the `YYYY-MM-DD` text of a valid date parses back to that date |
| Calendar.DateKeyRoundTrip | frontend/src/components/BodyPartHeatmap.tsx:52 | a day's ISO date key parses back to the day's calendar date |
| Calendar.DateKeyShape | frontend/src/components/BodyPartHeatmap.tsx:52 | for years 0..9999 the key is exactly ten characters: four, two and two digits holding year, month and day, with '-' at positions 4 and 7 |
| Calendar.DateKeyInjective | frontend/src/components/BodyPartHeatmap.tsx:52 | two days have the same date key exactly when they are the same day |
| Heatmap.Window | frontend/src/components/BodyPartHeatmap.tsx:11-22 | the window holds 365 consecutive days ending today, oldest first, and contains a day exactly when it lies within 364 days before today |
| Heatmap.BuildLookup | frontend/src/components/BodyPartHeatmap.tsx:25-31 | the lookup has a key exactly for each date carried by some record, and under each key holds the last record with that date |
| Heatmap.LookupIsLastWithDate | frontend/src/components/BodyPartHeatmap.tsx:25-31 | the lookup agrees on every key with a backward search of the history for the last record with that date, and is absent when there is none |
| Heatmap.LookupKeyedByDate | frontend/src/components/BodyPartHeatmap.tsx:27-29 | every record in the lookup is stored under its own date |
| Heatmap.DistinctDaysDistinctRecords | frontend/src/components/BodyPartHeatmap.tsx:52-53 | two different days never show the same record |
| Heatmap.DateColor | frontend/src/components/BodyPartHeatmap.tsx:51-63 | the colour is well formed; it is grey exactly when there is no record or the record lists no body part; otherwise it is the colour of the record's first body part |
| Heatmap.JoinTags | frontend/src/components/BodyPartHeatmap.tsx:73 | the comma-joined tags of a non-empty list of body parts are non-empty and split back into the same list, in order |
| Heatmap.ParseTagsCanonical | frontend/src/components/BodyPartHeatmap.tsx:73 | any text that reads back as a list of body parts is exactly the ", "-join of that list, so the tooltip text is fixed by the record's body parts |
| Heatmap.NoWorkoutIsNotTags | frontend/src/components/BodyPartHeatmap.tsx:69-73 | the text "No workout" is not a list of body-part tags, so the two tooltip forms cannot be confused |
| Heatmap.Tooltip | frontend/src/components/BodyPartHeatmap.tsx:65-75 | the tooltip starts with the date key and ": "; the rest is "No workout" when there is no workout, and otherwise reads back as the record's body parts in order |
| Heatmap.WeeksAfterFlatten | frontend/src/components/BodyPartHeatmap.tsx:38-46 | after any number of loop steps, the closed columns followed by the open one are exactly the days read so far |
| Heatmap.WeeksAfterColumns | frontend/src/components/BodyPartHeatmap.tsx:38-46 | after any number of loop steps, every closed column is non-empty and has no Saturday before its last day, and the open column has no Saturday |
| Heatmap.WeeksAfterEnds | frontend/src/components/BodyPartHeatmap.tsx:38-46 | a column is closed only by a Saturday or by the last day, and nothing is left open at the end |
| Heatmap.WeeksSpec | frontend/src/components/BodyPartHeatmap.tsx:34-49 | the columns concatenate to the days, are non-empty, break only after a Saturday, and exist exactly when there are days |
| Heatmap.GridShape | frontend/src/components/BodyPartHeatmap.tsx:127-136 | over consecutive days the padding is the first day's weekday; each cell's row (padding included in the first column) is its weekday; columns hold at most 7 days; interior columns hold exactly 7 |
| Heatmap.WeekCount | frontend/src/components/BodyPartHeatmap.tsx:34-49 | the number of columns is the padding plus the number of days, divided by seven and rounded up |
| Heatmap.GridPosition | frontend/src/components/BodyPartHeatmap.tsx:34-49 | day i lies in column (padding + i) div 7, at (padding + i) mod 7 less the first column's padding |
| Heatmap.WindowColumns | frontend/src/components/BodyPartHeatmap.tsx:127-136 | for the year's window the padding is the weekday of the oldest day, there are 53 columns, the padding fills up the first column to seven, and interior columns are full weeks |
| Heatmap.LabelsAfter | frontend/src/components/BodyPartHeatmap.tsx:81-90 | after any number of loop steps, labelled days are within the first seven days of their month, in increasing order, with the months of successive labels differing; the current month is the last label's month or -1 |
| Heatmap.LabelsAfterRun | frontend/src/components/BodyPartHeatmap.tsx:81-90 | over a run of consecutive calendar days the labelled positions are exactly the month starts seen so far |
| Heatmap.LabelsOf | frontend/src/components/BodyPartHeatmap.tsx:77-93 | every label comes from a day within the first week of its month; successive labels have different months; offsets never decrease and never exceed the last week index |
| Heatmap.MonthLabels | frontend/src/components/BodyPartHeatmap.tsx:77-93 | the same properties stated directly in terms of the days' months and days of the month |
| Heatmap.MonthLabelsAtAnchors | frontend/src/components/BodyPartHeatmap.tsx:81-90 | there is one label per labelled day, in order; label k names the month of the k-th labelled day and has offset index div 7 |
| Heatmap.MonthDaysRun | frontend/src/components/BodyPartHeatmap.tsx:82-83 | the (month, day) pairs of consecutive days follow each other as calendar days do |
| Heatmap.MonthStartsSpec | frontend/src/components/BodyPartHeatmap.tsx:83 | a position is a month start exactly when it is the first day of a month, or the first day of the run while it falls within the first seven days of its month |
| Heatmap.LabelAnchorsAreMonthStarts | frontend/src/components/BodyPartHeatmap.tsx:77-93 | over consecutive days the labelled positions are exactly the month starts |
| Heatmap.LabelOnDayIff | frontend/src/components/BodyPartHeatmap.tsx:83 | a day gets a label exactly when it is the 1st of its month, or it is the first day shown and falls on the 1st to 7th |
| Heatmap.LabelColumn | frontend/src/components/BodyPartHeatmap.tsx:87 | a label's offset is its day index div 7, and the column in which that day is drawn is the offset or the one after it |
| Heatmap.RenderShape | frontend/src/components/BodyPartHeatmap.tsx:127-136 | the rendered year has 53 columns; the padding is the weekday of the oldest day and fills up the first column to a week; interior columns are full weeks |
| Heatmap.RenderPosition | frontend/src/components/BodyPartHeatmap.tsx:34-49 | the i-th day of the window is drawn at the column and row determined by the padding plus i |
| Heatmap.RenderCell | frontend/src/components/BodyPartHeatmap.tsx:51-75 | every cell shows a window day; its colour and tooltip come from the last history record with that day's key, grey and "No workout" when there is none or it lists no body part |
| Heatmap.RenderEmptyHistory | frontend/src/components/BodyPartHeatmap.tsx:65-70 | with an empty history every cell is grey and its tooltip is the date key followed by ": No workout" |
| Heatmap.RenderLabels | frontend/src/components/BodyPartHeatmap.tsx:77-93 | every label offset of the rendered year lies in 0..52, the range of its column indices, and successive labels name different months |
| Heatmap.RenderLabelDays | frontend/src/components/BodyPartHeatmap.tsx:77-93 | the rendered labels are one per labelled day of the year, in day order. Day i is labelled exactly when it is the 1st of its month, or it is the oldest day and falls on the 1st to 7th. Each label names that day's month and has offset i div 7 |

## Left out

- The local database layer (`db.ts`), the HTTP client (`api.ts`) and the backend (`main.py`, `config.py`) are not part of this model; the heatmap only receives the history array.
- The page components, routing and the JSX layout of the heatmap are left out: the modelled values do not depend on them. They include the prompt form's input checks and error handling (`PromptPage.tsx`). They also include label placement by `marginLeft: label.offset * 12` (`BodyPartHeatmap.tsx`, see the Heatmap.LabelColumn line below); the padding, which is modelled, is the one exception.
- The order of the history is left open. `WorkoutPage.tsx` passes the records sorted by date, newest first (`getWorkoutHistory` in `db.ts`), and that order decides which record for a date comes last. The model accepts the history in any order and states its results in terms of the last record for each date.
- The `Exercise`, `Workout` and `UserSettings` records are left out: the heatmap does not read them.
- The clock is left out: `new Date()` becomes the parameter `today`. Because the window is memoised with no dependencies, `today` is the date at the component's first render. A page left open past midnight keeps showing the old window.
- Time zones are left out. The source reads the weekday, month and day of the month in local time but builds the key with `toISOString`, which is UTC. The model uses one calendar for both. The two disagree for as many hours of every day as the local UTC offset. In UTC-8, for example, from 16:00 to 24:00 each cell's key is the next day's date, so the cell shows the next day's record.
- `toLocaleDateString` month names are left out: a label carries its month number 0..11.
- `useMemo` caching is left out apart from its effect on `today`, noted above: for the history and the derived columns and labels it only avoids recomputation.
- Years outside the range of the JavaScript `Date` object are not restricted: the calendar is unbounded.
- Heatmap.BuildLookup: a later record for the same date replaces an earlier one, as the source's `Map.set` does. The two records are not merged.
- Heatmap.DateColor and Heatmap.Tooltip: the contracts assume that `bodyParts` holds only `BodyPart` values, because that is the declared type. The source does not check this at run time.
- Heatmap.LabelColumn: a label's offset is the day index div 7, as the source computes it. It does not count the padding, so the column holding the labelled day is the offset or the one after it. Where a label is actually drawn is left out. The source places labels in a flex row with `marginLeft: label.offset * 12`. These margins add up from label to label, along with the widths and gaps of the earlier labels. The unit is 12 px, against a column pitch of 16 px (a 12 px cell plus a 4 px gap). So the offset is not a column position on screen, and the model does not claim it is.
