# Birthday dashboard: selection and ranking model

This project models a small birthday dashboard, a single Streamlit script (`main.py`). The dashboard reads a roster of people from a spreadsheet. Each row has a name (`NOME`), a birth date (`DATA NASCIMENTO`, parsed from `%d/%m/%Y`) and an avatar URL (`AVATAR`). It renders one of four pages:

- **today's birthdays**: the rows whose birth day and month equal today's;
- **upcoming birthdays**: each row gets a next occurrence `PROXIMO_ANIVERSARIO`; the rows are sorted by it and the first six are shown;
- **birthdays of the month**: the rows born in the current month, under a Portuguese month title looked up in the table `MESES_PT`;
- **full list**: every row, sorted by full birth date.

The upcoming and month pages lay their cards out three to a line.

The model states these selections as pure functions of the roster and of `hoje`. `hoje` is the instant the page is rendered, kept as a date plus a time of day in microseconds.

- `Dates` holds the calendar: Gregorian leap years, valid dates, the lexicographic date order, instants, and `replace(year=...)`. That call is a `Result` that fails when the day does not exist in the target year.
- `Sequences` holds the dataframe operations on rows: mask selection, sort by a date column, and `head(n)`.
- `MonthNames` holds the `%B` month names and `MESES_PT`.
- `Grid` holds the three-wide layout. `Grid.GridLines` is the `for i in range(0, n, 3)` loop, proved against a recursive chunking specification.
- `Birthdays` holds the four pages' selections.

The model captures two behaviours of the code as written:

- **Today's birthdays roll over to next year.** `hoje` carries a time of day, but the candidate date is a midnight timestamp. So a birthday falling today compares as earlier than `hoje` unless the page renders exactly at midnight, and its next occurrence is next year's date (`TodayRollsOverAfterMidnight`, `TodayStaysAtMidnight`).
- **February 29 breaks the upcoming page.** The birth date is moved into `hoje`'s year first. If that date is earlier than `hoje`, it is moved into the next year. Each move raises for February 29 when the target year is common. This also happens in a leap year once February 29 00:00 has passed (`NextOccurrenceFailure`). The column is computed for every row, so one such row fails the whole page (`WithNext`, `UpcomingFailure`).

## Model

| member | source | states |
|---|---|---|
| `Dates.ReplaceYearFailsOnlyOnLeapDay` | main.py:122-123 | for a valid date, `replace(year=y)` fails iff the date is February 29 and y is a common year; otherwise it yields a valid date in year y with the same month and day |
| `Sequences.FilterPicksMatches` | main.py:99-102 | a mask selection returns, one for one and in roster order, the rows at the indices the mask keeps |
| `Sequences.MatchIndices` | main.py:146 | the kept indices are in range, strictly increasing, and include every index whose row the mask keeps |
| `Sequences.SortBy` | main.py:125 | `sort_values` on a date column returns a permutation of the rows that is non-decreasing by that column |
| `Sequences.TakeOfSortedIsSmallest` | main.py:125 | `head(n)` of a sorted sequence has min(n, len) rows, stays sorted, is a sub-multiset, and no row left out has a smaller key than a row taken |
| `MonthNames.MonthTitle` | main.py:148-149 | for every month 1..12, looking up the English month name in `MESES_PT` succeeds and gives that month's Portuguese name |
| `MonthNames.TableCoversEveryMonth` | main.py:8-21 | every English month name is a key of `MESES_PT`, so the title lookup never raises `KeyError` |
| `MonthNames.TableKeysAreMonthNames` | main.py:8-21 | every key of `MESES_PT` is the English name of some month |
| `MonthNames.TableInjective` | main.py:8-21 | distinct keys of `MESES_PT` map to distinct Portuguese names |
| `MonthNames.MonthTitleInjective` | main.py:148-149 | distinct months get distinct page titles |
| `Grid.ChunksOfPartition` | main.py:129-131 | the slices `[i:i+w]` concatenate back to the input, and each has between 1 and w cards |
| `Grid.ChunksOfCount` | main.py:129 | a list of n cards takes ceil(n / 3) lines |
| `Grid.GridLines` | main.py:156-158 | the loop stepping i by 3 builds exactly the chunking specification; its lines concatenate to the rows and each holds 1 to 3 cards, so `cols[idx]` is always in range |
| `Birthdays.TodayFilterExact` | main.py:99-102 | today's page lists exactly the rows whose birth day and month are hoje's, in roster order |
| `Birthdays.LeapDayNeverToday` | main.py:99-102 | in a common year a February 29 birth date never matches today |
| `Birthdays.NextOccurrenceShape` | main.py:121-124 | a computed next occurrence is a valid date with the birth month and day, in hoje's year or the next; it is in hoje's year iff that year's midnight candidate is at or after hoje |
| `Birthdays.NextOccurrenceIsEarliest` | main.py:121-124 | the next occurrence's midnight is at or after hoje, and the anniversary in every earlier year is before hoje |
| `Birthdays.NextOccurrenceFailure` | main.py:122-123 | the computation fails iff the birth date is February 29 and it is not the case that hoje's year is leap and hoje is at or before February 29 00:00 |
| `Birthdays.TodayRollsOverAfterMidnight` | main.py:122-123 | a birthday falling today, seen after midnight, gets next year's date, or fails for February 29 |
| `Birthdays.TodayStaysAtMidnight` | main.py:122 | at exactly midnight, a birthday falling today gets today's date |
| `Birthdays.WithNext` | main.py:121-124 | the column succeeds iff every row's next occurrence succeeds; then it pairs each row, in order, with its own next occurrence |
| `Birthdays.UpcomingFailure` | main.py:121-125 | the upcoming page fails iff some row's next occurrence fails |
| `Birthdays.UpcomingSpec` | main.py:125 | a successful upcoming page shows min(6, n) rows, non-decreasing by next occurrence; together with the rows left out it is a permutation of the computed column, and no row left out has an earlier next occurrence than a row shown |
| `Birthdays.UpcomingRowsAreRosterRows` | main.py:125 | every upcoming row is a roster row carrying its own next occurrence |
| `Birthdays.UpcomingSucceedsWithoutLeapDays` | main.py:121-125 | a roster without February 29 birth dates always yields an upcoming page |
| `Birthdays.UpcomingFitsTwoLines` | main.py:129-131 | the upcoming cards fill at most two grid lines, and at least one when the roster is not empty |
| `Birthdays.MonthFilterExact` | main.py:145-146 | the month page lists exactly the rows whose birth month is hoje's month, in roster order |
| `Birthdays.MonthSelectionDependsOnlyOnMonths` | main.py:145-146 | which rows the month page selects depends only on the rows' birth months and hoje's month, not on birth years, days, or hoje's day or time |
| `Birthdays.LeapDayListedInFebruary` | main.py:146 | in February of a common year, a February 29 birthday is listed on the month page although its next occurrence fails |
| `Birthdays.FullList` | main.py:174 | the full list is a permutation of the roster, non-decreasing by full birth date, year included |

## Left out

- Streamlit rendering is not modelled: the sidebar radio, titles, `st.info` messages, `st.columns` and the HTML card and row markup. The CSS block is not modelled either. They are presentation only.
- Loading the spreadsheet with `pd.read_excel` and parsing with `pd.to_datetime` are not modelled: that is file I/O and a library parser. Birth dates are taken as already-parsed dates at midnight; `Birthdays.ValidRoster` says they are real dates.
- The clock read `datetime.today()` is a parameter, `hoje`.
- `strftime` is not modelled: `%d/%m` for display, and `%B` beyond the month-number-to-English-name table `MonthNames.EnglishName`. That table assumes an English (C) locale. Under another locale `%B` would give a name missing from `MESES_PT`, and the lookup would raise `KeyError`.
- Sort tie order is not modelled. pandas `sort_values` uses an unstable quicksort by default. `Sequences.SortBy` is an insertion sort, but no contract promises an order among rows with equal dates, or which tied rows `head(6)` keeps.
- The year range of dates is not modelled. Python's `datetime` allows years 1 to 9999, and pandas timestamps allow 1677-09-21 to 2262-04-11. Moving a date outside that range would also raise. Here years are unbounded integers, so the only failure of `replace(year=...)` is February 29 in a common year.
- The nanosecond resolution of pandas timestamps is not modelled. The comparison at main.py:122 only depends on whether `hoje`'s time of day is zero, and microseconds capture that.
- The `PROXIMO_ANIVERSARIO` column is written back into the shared dataframe at main.py:121. Here it is returned (`Birthdays.WithNext`), not stored. The script rebuilds the dataframe on every run, so nothing else reads the stored column.
- A day count until the next birthday, a grouping of the people with the smallest such count, and a configurable number of upcoming rows do not exist in `main.py`, so they are not modelled. The page shows a fixed six (`Birthdays.UPCOMING_COUNT`).
