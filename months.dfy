/**
 * The month title of the "birthdays of the month" page: the English month
 * name that `strftime("%B")` gives, translated to Portuguese through the
 * fixed table MESES_PT.
 */
module MonthNames {

  datatype Option<T> = None | Some(value: T)

  /** English month names, as `%B` prints them in the C locale. */
  function EnglishName(m: int): string
    requires 1 <= m <= 12
  {
    match m
    case 1 => "January"
    case 2 => "February"
    case 3 => "March"
    case 4 => "April"
    case 5 => "May"
    case 6 => "June"
    case 7 => "July"
    case 8 => "August"
    case 9 => "September"
    case 10 => "October"
    case 11 => "November"
    case _ => "December"
  }

  /** The translation table, keyed by English month name. */
  const MESES_PT: map<string, string> := map[
    "January" := "Janeiro",
    "February" := "Fevereiro",
    "March" := "Março",
    "April" := "Abril",
    "May" := "Maio",
    "June" := "Junho",
    "July" := "Julho",
    "August" := "Agosto",
    "September" := "Setembro",
    "October" := "Outubro",
    "November" := "Novembro",
    "December" := "Dezembro"
  ]

  /** The Portuguese month names listed by month number: a reference for the
      two-step lookup below. */
  function PortugueseName(m: int): string
    requires 1 <= m <= 12
  {
    match m
    case 1 => "Janeiro"
    case 2 => "Fevereiro"
    case 3 => "Março"
    case 4 => "Abril"
    case 5 => "Maio"
    case 6 => "Junho"
    case 7 => "Julho"
    case 8 => "Agosto"
    case 9 => "Setembro"
    case 10 => "Outubro"
    case 11 => "Novembro"
    case _ => "Dezembro"
  }

  /** `MESES_PT[hoje.strftime("%B")]`; None stands for the KeyError a name
      missing from the table would raise. For every month the lookup succeeds
      and yields that month's Portuguese name. */
  function MonthTitle(m: int): (r: Option<string>)
    requires 1 <= m <= 12
    ensures r == Some(PortugueseName(m))
  {
    var english := EnglishName(m);
    if english in MESES_PT then Some(MESES_PT[english]) else None
  }

  /** Every month's English name is a key of the table, so the title lookup
      is total on valid months. */
  lemma TableCoversEveryMonth(m: int)
    requires 1 <= m <= 12
    ensures EnglishName(m) in MESES_PT
  {
  }

  /** The table is defined on exactly the twelve English month names: each
      key is the name of some month. */
  lemma TableKeysAreMonthNames(name: string)
    requires name in MESES_PT
    ensures exists m :: 1 <= m <= 12 && EnglishName(m) == name
  {
    if name == "January" { assert EnglishName(1) == name; }
    else if name == "February" { assert EnglishName(2) == name; }
    else if name == "March" { assert EnglishName(3) == name; }
    else if name == "April" { assert EnglishName(4) == name; }
    else if name == "May" { assert EnglishName(5) == name; }
    else if name == "June" { assert EnglishName(6) == name; }
    else if name == "July" { assert EnglishName(7) == name; }
    else if name == "August" { assert EnglishName(8) == name; }
    else if name == "September" { assert EnglishName(9) == name; }
    else if name == "October" { assert EnglishName(10) == name; }
    else if name == "November" { assert EnglishName(11) == name; }
    else { assert EnglishName(12) == name; }
  }

  /** Distinct months get distinct titles, so the table is injective. */
  lemma MonthTitleInjective(m: int, n: int)
    requires 1 <= m <= 12 && 1 <= n <= 12
    requires m != n
    ensures MonthTitle(m) != MonthTitle(n)
  {
  }

  /** No two month names translate to the same Portuguese name. */
  lemma TableInjective(a: string, b: string)
    requires a in MESES_PT && b in MESES_PT
    requires a != b
    ensures MESES_PT[a] != MESES_PT[b]
  {
    TableKeysAreMonthNames(a);
    TableKeysAreMonthNames(b);
    var m :| 1 <= m <= 12 && EnglishName(m) == a;
    var n :| 1 <= n <= 12 && EnglishName(n) == b;
    MonthTitleInjective(m, n);
  }
}
