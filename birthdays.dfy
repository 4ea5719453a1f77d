/**
 * The birthday selections behind the dashboard's four pages, as functions of
 * the roster and of `hoje`, the instant the page is rendered:
 *   - today's birthdays: rows whose birth day and month are today's;
 *   - upcoming birthdays: every row's next occurrence (`PROXIMO_ANIVERSARIO`),
 *     sorted, first six;
 *   - birthdays of the month: rows whose birth month is the current month;
 *   - the full list: all rows sorted by full birth date.
 */
module Birthdays {
  import opened Dates
  import opened Sequences
  import Grid

  /** One row of the roster: `NOME`, `DATA NASCIMENTO` and `AVATAR`. */
  datatype Person = Person(name: string, birth: Date, avatar: string)

  /** A row together with its computed `PROXIMO_ANIVERSARIO`. */
  datatype Ranked = Ranked(person: Person, next: Date)

  /** How many upcoming birthdays the page shows (`head(6)`). */
  const UPCOMING_COUNT: nat := 6

  /** Every birth date was parsed from `%d/%m/%Y`, so it is a real date. */
  predicate ValidRoster(roster: seq<Person>) {
    forall i :: 0 <= i < |roster| ==> ValidDate(roster[i].birth)
  }

  // ---------------------------------------------------------------------
  // Today's birthdays
  // ---------------------------------------------------------------------

  predicate BornOnDayOf(p: Person, hoje: Instant) {
    p.birth.day == hoje.date.day && p.birth.month == hoje.date.month
  }

  function TodayMask(hoje: Instant): Person -> bool {
    (p: Person) => BornOnDayOf(p, hoje)
  }

  /** `df[(day == hoje.day) & (month == hoje.month)]` */
  function TodayFilter(roster: seq<Person>, hoje: Instant): seq<Person> {
    Filter(roster, TodayMask(hoje))
  }

  /** The today page lists exactly the rows born on today's day and month, in
      roster order: its k-th row is the roster row at the k-th matching index. */
  lemma {:induction false} TodayFilterExact(roster: seq<Person>, hoje: Instant)
    ensures var idx := MatchIndices(roster, TodayMask(hoje));
      && |TodayFilter(roster, hoje)| == |idx|
      && (forall k :: 0 <= k < |idx| ==> TodayFilter(roster, hoje)[k] == roster[idx[k]])
      && (forall k, l :: 0 <= k < l < |idx| ==> idx[k] < idx[l])
      && (forall i :: 0 <= i < |roster| ==> (i in idx <==> BornOnDayOf(roster[i], hoje)))
  {
    FilterPicksMatches(roster, TodayMask(hoje));
  }

  /** In a common year nobody born on February 29 is ever listed as today's. */
  lemma LeapDayNeverToday(roster: seq<Person>, hoje: Instant, p: Person)
    requires ValidInstant(hoje) && !IsLeapYear(hoje.date.year)
    requires IsLeapDay(p.birth)
    ensures p !in TodayFilter(roster, hoje)
  {
  }

  // ---------------------------------------------------------------------
  // Next occurrence
  // ---------------------------------------------------------------------

  /** The lambda of `PROXIMO_ANIVERSARIO`: the birth date moved into hoje's
      year if that midnight is not earlier than hoje, else into the next
      year. Each `replace(year=...)` fails for February 29 in a common year. */
  function NextOccurrence(birth: Date, hoje: Instant): Result<Date> {
    match ReplaceYear(birth, hoje.date.year)
    case Err(e) => Err(e)
    case Ok(candidate) =>
      if InstantLe(hoje, Midnight(candidate)) then Ok(candidate)
      else ReplaceYear(birth, hoje.date.year + 1)
  }

  /** A successful next occurrence is a valid date with the birth month and
      day, in hoje's year or the one after; it is in hoje's year exactly when
      that year's midnight candidate is at or after hoje. */
  lemma NextOccurrenceShape(birth: Date, hoje: Instant)
    requires ValidDate(birth)
    requires NextOccurrence(birth, hoje).Ok?
    ensures var d := NextOccurrence(birth, hoje).value;
      && ValidDate(d)
      && d.month == birth.month && d.day == birth.day
      && (d.year == hoje.date.year || d.year == hoje.date.year + 1)
      && (d.year == hoje.date.year <==>
          InstantLe(hoje, Midnight(Date(hoje.date.year, birth.month, birth.day))))
  {
    ReplaceYearFailsOnlyOnLeapDay(birth, hoje.date.year);
    ReplaceYearFailsOnlyOnLeapDay(birth, hoje.date.year + 1);
  }

  /** The next occurrence is the earliest anniversary not before hoje: its
      midnight is at or after hoje, and every earlier year's anniversary is
      before hoje. */
  lemma NextOccurrenceIsEarliest(birth: Date, hoje: Instant, y: int)
    requires ValidDate(birth)
    requires NextOccurrence(birth, hoje).Ok?
    ensures InstantLe(hoje, Midnight(NextOccurrence(birth, hoje).value))
    ensures y < NextOccurrence(birth, hoje).value.year ==>
      !InstantLe(hoje, Midnight(Date(y, birth.month, birth.day)))
  {
    NextOccurrenceShape(birth, hoje);
  }

  /** The computation fails exactly for a February 29 birth date when the year
      it must be moved into is a common year: either hoje's year is common, or
      hoje is past February 29 00:00 of a leap year and the next year is
      common. */
  lemma NextOccurrenceFailure(birth: Date, hoje: Instant)
    requires ValidDate(birth)
    ensures NextOccurrence(birth, hoje).Err? <==>
      IsLeapDay(birth)
      && !(IsLeapYear(hoje.date.year) && InstantLe(hoje, Midnight(Date(hoje.date.year, 2, 29))))
  {
    var y := hoje.date.year;
    ReplaceYearFailsOnlyOnLeapDay(birth, y);
    ReplaceYearFailsOnlyOnLeapDay(birth, y + 1);
    if IsLeapDay(birth) && IsLeapYear(y) {
      assert !IsLeapYear(y + 1);
    }
  }

  /** A birthday falling today, seen any time after midnight, is moved to next
      year (or fails, for February 29). */
  lemma TodayRollsOverAfterMidnight(birth: Date, hoje: Instant)
    requires ValidDate(birth) && ValidInstant(hoje)
    requires birth.month == hoje.date.month && birth.day == hoje.date.day
    requires hoje.micros > 0
    ensures NextOccurrence(birth, hoje) ==
      if IsLeapDay(birth) then Err(DayOutOfRange)
      else Ok(Date(hoje.date.year + 1, birth.month, birth.day))
  {
    ReplaceYearFailsOnlyOnLeapDay(birth, hoje.date.year);
    ReplaceYearFailsOnlyOnLeapDay(birth, hoje.date.year + 1);
    if IsLeapDay(birth) {
      assert IsLeapYear(hoje.date.year) && !IsLeapYear(hoje.date.year + 1);
    }
  }

  /** Only at exactly midnight does a birthday falling today stay in this year. */
  lemma TodayStaysAtMidnight(birth: Date, hoje: Instant)
    requires ValidDate(birth) && ValidInstant(hoje)
    requires birth.month == hoje.date.month && birth.day == hoje.date.day
    requires hoje.micros == 0
    ensures NextOccurrence(birth, hoje) == Ok(hoje.date)
  {
  }

  // ---------------------------------------------------------------------
  // Upcoming birthdays
  // ---------------------------------------------------------------------

  /** `df["PROXIMO_ANIVERSARIO"] = df["DATA NASCIMENTO"].apply(...)`: the
      column is computed for every row, and one failing row fails the page. */
  function WithNext(roster: seq<Person>, hoje: Instant): (r: Result<seq<Ranked>>)
    ensures r.Ok? <==> forall i :: 0 <= i < |roster| ==> NextOccurrence(roster[i].birth, hoje).Ok?
    ensures r.Ok? ==> |r.value| == |roster|
    ensures r.Ok? ==> forall i :: 0 <= i < |roster| ==>
      r.value[i] == Ranked(roster[i], NextOccurrence(roster[i].birth, hoje).value)
  {
    if roster == [] then Ok([])
    else
      match NextOccurrence(roster[0].birth, hoje)
      case Err(e) => Err(e)
      case Ok(d) =>
        match WithNext(roster[1..], hoje)
        case Err(e) =>
          assert !forall i :: 0 <= i < |roster[1..]| ==> NextOccurrence(roster[1..][i].birth, hoje).Ok?;
          Err(e)
        case Ok(rest) => Ok([Ranked(roster[0], d)] + rest)
  }

  function NextOf(x: Ranked): Date {
    x.next
  }

  /** `df.sort_values("PROXIMO_ANIVERSARIO").head(6)` */
  function Upcoming(roster: seq<Person>, hoje: Instant): Result<seq<Ranked>> {
    match WithNext(roster, hoje)
    case Err(e) => Err(e)
    case Ok(rows) => Ok(Take(SortBy(rows, NextOf), UPCOMING_COUNT))
  }

  /** The upcoming page fails exactly when some row's next occurrence fails. */
  lemma {:induction false} UpcomingFailure(roster: seq<Person>, hoje: Instant)
    ensures Upcoming(roster, hoje).Err? <==>
      exists i :: 0 <= i < |roster| && NextOccurrence(roster[i].birth, hoje).Err?
  {
  }

  /** The upcoming page shows min(6, n) rows ordered by next occurrence. The
      rows it leaves out, `rest`, make up the rest of the computed column, and
      none of them has an earlier next occurrence than a row shown. */
  lemma {:induction false} UpcomingSpec(roster: seq<Person>, hoje: Instant) returns (rest: seq<Ranked>)
    requires Upcoming(roster, hoje).Ok?
    ensures var shown := Upcoming(roster, hoje).value;
      && |shown| == Min(UPCOMING_COUNT, |roster|)
      && (forall i, j :: 0 <= i < j < |shown| ==> DateLe(shown[i].next, shown[j].next))
      && multiset(shown + rest) == multiset(WithNext(roster, hoje).value)
      && (forall i, j :: 0 <= i < |shown| && 0 <= j < |rest| ==> DateLe(shown[i].next, rest[j].next))
  {
    var sorted := SortBy(WithNext(roster, hoje).value, NextOf);
    var k := Min(UPCOMING_COUNT, |sorted|);
    rest := sorted[k..];
    assert sorted[..k] + rest == sorted;
  }

  /** Every row the upcoming page shows comes from the roster and carries that
      row's next occurrence. */
  lemma {:induction false} UpcomingRowsAreRosterRows(roster: seq<Person>, hoje: Instant, x: Ranked)
    requires Upcoming(roster, hoje).Ok?
    requires x in Upcoming(roster, hoje).value
    ensures x.person in roster
    ensures NextOccurrence(x.person.birth, hoje) == Ok(x.next)
  {
    var all := WithNext(roster, hoje).value;
    var rest := UpcomingSpec(roster, hoje);
    assert x in multiset(Upcoming(roster, hoje).value + rest);
    assert x in multiset(all);
    var i :| 0 <= i < |all| && all[i] == x;
  }

  /** Without February 29 birth dates the upcoming page always renders. */
  lemma {:induction false} UpcomingSucceedsWithoutLeapDays(roster: seq<Person>, hoje: Instant)
    requires ValidRoster(roster)
    requires forall i :: 0 <= i < |roster| ==> !IsLeapDay(roster[i].birth)
    ensures Upcoming(roster, hoje).Ok?
  {
    forall i | 0 <= i < |roster|
      ensures NextOccurrence(roster[i].birth, hoje).Ok?
    {
      NextOccurrenceFailure(roster[i].birth, hoje);
    }
  }

  /** The upcoming cards fill at most two lines of three, every line non-empty. */
  lemma {:induction false} UpcomingFitsTwoLines(roster: seq<Person>, hoje: Instant)
    requires Upcoming(roster, hoje).Ok?
    ensures |Grid.ChunksOf(Upcoming(roster, hoje).value, Grid.COLUMNS)| <= 2
    ensures |roster| > 0 ==> |Grid.ChunksOf(Upcoming(roster, hoje).value, Grid.COLUMNS)| >= 1
  {
    var _ := UpcomingSpec(roster, hoje);
    Grid.ChunksOfCount(Upcoming(roster, hoje).value);
  }

  // ---------------------------------------------------------------------
  // Birthdays of the month
  // ---------------------------------------------------------------------

  function MonthMask(hoje: Instant): Person -> bool {
    (p: Person) => p.birth.month == hoje.date.month
  }

  /** `df[df["DATA NASCIMENTO"].dt.month == hoje.month]` */
  function MonthFilter(roster: seq<Person>, hoje: Instant): seq<Person> {
    Filter(roster, MonthMask(hoje))
  }

  /** The month page lists exactly the rows born in hoje's month, in roster
      order. */
  lemma {:induction false} MonthFilterExact(roster: seq<Person>, hoje: Instant)
    ensures var idx := MatchIndices(roster, MonthMask(hoje));
      && |MonthFilter(roster, hoje)| == |idx|
      && (forall k :: 0 <= k < |idx| ==> MonthFilter(roster, hoje)[k] == roster[idx[k]])
      && (forall k, l :: 0 <= k < l < |idx| ==> idx[k] < idx[l])
      && (forall i :: 0 <= i < |roster| ==> (i in idx <==> roster[i].birth.month == hoje.date.month))
  {
    FilterPicksMatches(roster, MonthMask(hoje));
  }

  /** Which rows the month page selects depends only on the rows' birth months
      and on hoje's month: not on birth years, birth days, or hoje's day and
      time. */
  lemma {:induction false} MonthSelectionDependsOnlyOnMonths(r1: seq<Person>, h1: Instant, r2: seq<Person>, h2: Instant)
    requires |r1| == |r2|
    requires forall i :: 0 <= i < |r1| ==> r1[i].birth.month == r2[i].birth.month
    requires h1.date.month == h2.date.month
    ensures MatchIndices(r1, MonthMask(h1)) == MatchIndices(r2, MonthMask(h2))
  {
    MatchIndicesPointwise(r1, MonthMask(h1), r2, MonthMask(h2));
  }

  /** The month page does not go through the next occurrence: in February of a
      common year, a February 29 birthday is listed although its next
      occurrence cannot be computed. */
  lemma {:induction false} LeapDayListedInFebruary(roster: seq<Person>, hoje: Instant, i: int)
    requires ValidInstant(hoje)
    requires hoje.date.month == 2 && !IsLeapYear(hoje.date.year)
    requires 0 <= i < |roster| && roster[i].birth == Date(roster[i].birth.year, 2, 29)
    ensures roster[i] in MonthFilter(roster, hoje)
    ensures NextOccurrence(roster[i].birth, hoje).Err?
  {
    MonthFilterExact(roster, hoje);
    var idx := MatchIndices(roster, MonthMask(hoje));
    var k :| 0 <= k < |idx| && idx[k] == i;
    assert MonthFilter(roster, hoje)[k] == roster[i];
  }

  // ---------------------------------------------------------------------
  // Full list
  // ---------------------------------------------------------------------

  function BirthOf(p: Person): Date {
    p.birth
  }

  /** `df.sort_values("DATA NASCIMENTO")`: every roster row, once, ordered by
      full birth date, year included. */
  function FullList(roster: seq<Person>): (r: seq<Person>)
    ensures multiset(r) == multiset(roster)
    ensures forall i, j :: 0 <= i < j < |r| ==> DateLe(r[i].birth, r[j].birth)
  {
    SortBy(roster, BirthOf)
  }
}
