# Month calculator: a Dafny model

The month calculator is a Streamlit page. The user picks a start date and a signed number
of months. The page shows the date that many months later (or earlier) and the number of
days between the two dates. Its logic is the expression
`selected_date + relativedelta(months=months_to_add)` and the difference
`(result_date - selected_date).days`, plus a few display choices and a language toggle kept
in the session state.

The model has four modules.

- `Gregorian` (`calendar.dfy`) is the proleptic Gregorian calendar as Python's `datetime.date`
  implements it. It has leap years, month lengths, the ordinal `date.toordinal` (0001-01-01 is
  day 1) and the day difference. Python's year range 1..9999 separates `ValidDate` from
  `WellFormed`, which accepts any year. The ordinal has a reference definition to check it
  against: the successor `NextDay`. The lemmas prove that each successor adds one to the
  ordinal, that ordinals grow with the month and that distinct dates get distinct ordinals. So
  `Diff` is exactly the number of successor steps between two dates.
- `MonthShift` (`shift.dfy`) is the month shift. `AddMonths` computes the target year and month
  by floored division and modulo of `month - 1 + n` by 12. Dafny's Euclidean `/` and `%` agree
  with Python's floored ones for the divisor 12. The day is then clamped to the last day of the
  target month. `RelativeDeltaAdd` is dateutil's own route to the same date: it first normalises
  the month count to years plus at most 11 signed months, then carries once into the year.
  `RelativeDeltaAgrees` proves the two routes give the same date. `Shift` adds Python's range
  error. `date.replace` raises an exception when the target year is outside 1..9999
  (`ValueError`, or `OverflowError` for a year beyond a C `int`). The model returns
  `OutOfRange(year)` in that case.
- `Page` (`page.dfy`) holds what the page derives from its inputs. That is the input bounds
  (start date 2000-01-01..2050-12-31, months -120..120, initially 0), the hint under the month
  field and the calculation details box.
- `Language` (`language.dfy`) is the session's language preference. It is a class with one
  field, which starts as `"marathi"`. Its `ToggleLanguage` method is the sidebar button's
  callback.

Worked examples proved about `Shift` include the following. 2024-02-01 minus 3 months is
2023-11-01, a difference of -92 days. 2023-02-28 plus 12 months is 2024-02-28, a difference
of 365 days, because that year ends the day before the leap day 2024-02-29.

## Model

| member | source | states |
|---|---|---|
| `Gregorian.IsLeap` | calculatemonth.py:161 | The Gregorian rule in its four cases: not divisible by 4 is common, divisible by 4 but not by 100 is leap, divisible by 100 but not by 400 is common, divisible by 400 is leap. |
| `Gregorian.DaysInMonth` | calculatemonth.py:161 | A month length is 28..31 days. April, June, September and November have 30. February has 29 in a leap year and 28 otherwise. Every other month has at least 30. |
| `Gregorian.NextDay` | calculatemonth.py:167 | The successor of a real date is a real date, in the same month or on day 1 of the next month. |
| `Gregorian.AddDays` | calculatemonth.py:167 | Any number of successor steps from a real date gives a real date. |
| `Gregorian.DaysBeforeYearStep` | calculatemonth.py:167 | The ordinal count before year y+1 exceeds the count before year y by the length of year y (365, or 366 in a leap year). |
| `Gregorian.DaysBeforeYearOrder` | calculatemonth.py:167 | Every earlier year ends no later than a later year begins. |
| `Gregorian.DaysBeforeMonthStep` | calculatemonth.py:167 | Each month begins right after the days of the earlier months. December ends on the last day of the year. |
| `Gregorian.DaysBeforeMonthOrder` | calculatemonth.py:167 | Every earlier month of a year ends no later than a later month of that year begins. |
| `Gregorian.Ordinal` | calculatemonth.py:167 | `date.toordinal`: a real date's ordinal lies after the days of earlier years and within the days of its own year. OrdinalEpoch, OrdinalNextDay, OrdinalAddDays and DiffCountsDays characterise it as the count of days from 0001-01-01. |
| `Gregorian.Diff` | calculatemonth.py:167 | `(result_date - selected_date).days`: for real dates it is zero exactly when the two dates are equal, and positive whenever the second date lies in a later month. OrdinalAddDays and DiffCountsDays show it is the exact number of days between them. |
| `Gregorian.OrdinalMonthOrder` | calculatemonth.py:167 | A date in an earlier month has a strictly smaller ordinal. |
| `Gregorian.OrdinalInjective` | calculatemonth.py:167 | Two real dates have equal ordinals if and only if they are the same date. |
| `Gregorian.OrdinalEpoch` | calculatemonth.py:167 | 0001-01-01 has ordinal 1. |
| `Gregorian.OrdinalNextDay` | calculatemonth.py:167 | The successor's ordinal is one more, across month ends, year ends and leap days. |
| `Gregorian.OrdinalAddDays` | calculatemonth.py:167 | k successor steps from a date give a day difference of exactly k. |
| `Gregorian.DiffCountsDays` | calculatemonth.py:167 | Take a date b whose ordinal is not below that of a. Stepping Diff(a, b) days forward from a reaches exactly b. |
| `MonthShift.AddMonths` | calculatemonth.py:161 | The result is a real date. Its month count is the start's plus n, for either sign of n. Its day is the smaller of the start day and the target month's length. |
| `MonthShift.NormalizeMonths` | calculatemonth.py:161 | relativedelta splits n into whole years plus at most 11 months. The parts sum back to n, and each non-zero part has the sign of n. |
| `MonthShift.RelativeDeltaAdd` | calculatemonth.py:161 | dateutil's `date + relativedelta(months=n)`: normalise, add the years, carry the months once, clamp the day. The result is a real date whose month count is the start's plus n. |
| `MonthShift.MonthIndexUnique` | calculatemonth.py:161 | A month count determines the year and the month. |
| `MonthShift.RelativeDeltaAgrees` | calculatemonth.py:161 | dateutil's normalise-then-carry addition gives the same date as the floored division and modulo, for every start date and every n. |
| `MonthShift.YearRollover` | calculatemonth.py:161 | The year increases exactly when month + n passes 12. It decreases exactly when month + n falls below 1. |
| `MonthShift.ClampToMonthEnd` | calculatemonth.py:161 | The result day never exceeds the start day. It equals the start day exactly when the target month has that day. Otherwise it is the target month's last day. |
| `MonthShift.ZeroShift` | calculatemonth.py:161-167 | A shift of 0 months returns the start date, with a difference of 0 days. |
| `MonthShift.ShiftMonotone` | calculatemonth.py:161-167 | More months give a strictly later date. |
| `MonthShift.SignOfShift` | calculatemonth.py:161-167 | The day difference is positive exactly when months are added and negative exactly when they are subtracted. It is zero exactly for a zero shift. |
| `MonthShift.ComposeShifts` | calculatemonth.py:161 | Two shifts land in the month of the combined shift, never on a later day than it. They land exactly on it when the first shift kept the day. |
| `MonthShift.RoundTrip` | calculatemonth.py:161 | Shifting by n and back by -n returns to the start date when the first shift did not clamp the day. |
| `MonthShift.ClampingIsNotInvertible` | calculatemonth.py:161 | 2024-01-31 plus one month is 2024-02-29. Minus one month from there is 2024-01-29, not the start date. |
| `MonthShift.Shift` | calculatemonth.py:161-167 | Fails exactly when the clamped target leaves years 1..9999, and then reports that year. Otherwise it returns the shifted date and the exact signed day count, which has the sign of n. |
| `MonthShift.ClampingExamples` | calculatemonth.py:161-167 | Jan 31 plus 1 month is Feb 29 with a difference of 29 days in 2024. In 2023 it is Feb 28 with 28 days. |
| `MonthShift.NegativeExamples` | calculatemonth.py:161-167 | 2024-03-15 minus 1 month is 2024-02-15, -29 days. 2024-01-15 minus 1 month is 2023-12-15, -31 days. |
| `MonthShift.RolloverExamples` | calculatemonth.py:161-167 | 2024-11-30 plus 3 months is 2025-02-28, 90 days. 2024-02-01 minus 3 months is 2023-11-01, -92 days. |
| `MonthShift.LeapDayExamples` | calculatemonth.py:161-167 | 2000-01-01 plus 120 months is 2010-01-01, 3653 days. 2023-02-28 plus 12 months is 2024-02-28, 365 days. |
| `MonthShift.RangeErrorExamples` | calculatemonth.py:161 | 9999-12-01 plus 1 month fails with year 10000. 0001-01-01 minus 1 month fails with year 0. |
| `Page.StartInBounds` | calculatemonth.py:130-131 | The date picker admits exactly the representable dates that lie, in day order, between 2000-01-01 and 2050-12-31. |
| `Page.BoundsAsDates` | calculatemonth.py:130-131 | For a representable date, lying in years 2000..2050 is the same as lying between 2000-01-01 and 2050-12-31 in day order. |
| `Page.MonthsInBounds` | calculatemonth.py:143-145 | The month field admits exactly the offsets of magnitude at most 120, and its initial value 0 is among them. |
| `Page.InputBoundsNeverOverflow` | calculatemonth.py:127-161 | Take a start date in 2000-01-01..2050-12-31 and a month count in -120..120. The result year is in 1990..2060 and the shift never fails. |
| `Page.InputBoundsAreTight` | calculatemonth.py:130-144 | The extreme inputs reach 1990-01-01 and 2060-12-31. |
| `Page.HintFor` | calculatemonth.py:151-156 | The hint is "adding" exactly for positive months and "subtracting" exactly for negative ones. Otherwise it asks for input. A count is shown only when non-zero, as the magnitude of the month count. |
| `Page.Calculate` | calculatemonth.py:159-176 | Fails exactly when the shift leaves the year range. Otherwise it shows the start date and the shifted date. The direction word is "added" exactly when months >= 0. Word and shown month count together give back the signed month count. The days shown are the magnitude of the difference. "added" means the result is not before the start, and "subtracted" means it is strictly before. |
| `Page.DefaultInput` | calculatemonth.py:141-176 | At the initial month value 0 the hint asks for input. A calculation shows the start date itself with 0 months added and 0 days. |
| `Language.Toggled` | calculatemonth.py:81-85 | One toggle always gives a key of the translation table, always differs from the old value, and from a table key gives the other key. |
| `Language.ToggledTwice` | calculatemonth.py:81-85 | Toggling a table key twice restores it. |
| `Language.Session.constructor` | calculatemonth.py:7-8 | A new session's language is "marathi", a key of the translation table. |
| `Language.Session.CurrentLanguage` | calculatemonth.py:88 | The caption lookup key is the session's `language` field, and it is always a key of the translation table. |
| `Language.Session.ToggleLanguage` | calculatemonth.py:81-85 | The field becomes the toggled value of the old one. It stays a table key and always changes. |
| `Language.ToggleTwice` | calculatemonth.py:98-102 | Pressing the sidebar button twice leaves the session's language unchanged. |

## Left out

- The Streamlit calls are not modelled, because they are rendering and widget plumbing: page configuration, sidebar button, title, columns, date and number inputs, buttons, success and info boxes, divider, expander, caption and the CSS markdown. The widgets are represented only by the bounds they impose on their values. A button press is represented only by the call it triggers.
- `datetime.now()` is not modelled, because it reads the clock. The start date is an input of every member.
- `strftime('%d/%m/%Y')` formatting, `str.format` of the hints and the translated caption texts are not modelled, because they are presentation only. Only the key set of the translation table is modelled.
- The unused `pandas` and `timedelta` imports are not modelled.
- Only month addition is modelled from `relativedelta`. The page never sets its years, days, weekday, leap-day or absolute fields.
- The exception raised by `date.replace` (`ValueError`, or `OverflowError` for a year beyond a C `int`) is modelled as the result `OutOfRange`, not as an exception. Streamlit's display of the exception is not modelled.
