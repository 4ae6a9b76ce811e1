/** Calendar arithmetic on day numbers.

    A date is an integer count of days since 1970-01-01, so "add N days"
    (`setDate(getDate() + N)`) is integer addition. The only thing the
    billing code reads back from a date is its month name
    (`toLocaleString("default", { month: "long" })`), which ignores the year.
 */
module Calendar {

  /** A proleptic Gregorian calendar date. */
  datatype Date = Date(year: int, month: int, day: int)

  /** The position of a day inside the 400-year cycle of the Gregorian
      calendar, counted from 0000-03-01 so that the leap day is the last day
      of a year: `era` 400-year eras of 146097 days, then `century` centuries
      of 36524 days (the last century of an era is a day longer), `block`
      four-year blocks of 1461 days (the last block of a century is a day
      shorter unless the century ends the era), `year` years of 365 days
      (the last year of a block is a day longer), and `dayOfYear` days. */
  datatype CyclePosition = CyclePosition(era: int, century: int, block: int, year: int, dayOfYear: int)

  function Decompose(n: int): (p: CyclePosition)
    ensures 0 <= p.century <= 3 && 0 <= p.block <= 24 && 0 <= p.year <= 3
    ensures 0 <= p.dayOfYear <= 365
    ensures n + 719468 == 146097 * p.era + 36524 * p.century + 1461 * p.block + 365 * p.year + p.dayOfYear
  {
    var z := n + 719468;
    var era := z / 146097;
    var doe := z % 146097;
    var c := if doe / 36524 == 4 then 3 else doe / 36524;
    var doc := doe - 36524 * c;
    var q := doc / 1461;
    var doq := doc - 1461 * q;
    var yq := if doq / 365 == 4 then 3 else doq / 365;
    CyclePosition(era, c, q, yq, doq - 365 * yq)
  }

  /** Splits a day of a March-based year into a month index (0 = March,
      11 = February) and a day of that month; months start at the offsets
      0, 31, 61, 92, 122, 153, 184, 214, 245, 275, 306, 337. */
  function MonthAndDay(dayOfYear: int): (md: (int, int))
    requires 0 <= dayOfYear <= 365
    ensures 0 <= md.0 <= 11 && 1 <= md.1 <= 31
    ensures (153 * md.0 + 2) / 5 + md.1 - 1 == dayOfYear
  {
    var mp := (5 * dayOfYear + 2) / 153;
    (mp, dayOfYear - (153 * mp + 2) / 5 + 1)
  }

  /** Converts a day number to its calendar date. */
  function CivilFromDays(n: int): (d: Date)
    ensures 1 <= d.month <= 12
    ensures 1 <= d.day <= 31
  {
    var p := Decompose(n);
    var md := MonthAndDay(p.dayOfYear);
    var month := if md.0 < 10 then md.0 + 3 else md.0 - 9;
    var yearOfEra := 100 * p.century + 4 * p.block + p.year;
    Date(400 * p.era + yearOfEra + (if month <= 2 then 1 else 0), month, md.1)
  }

  /** Converts a calendar date back to its day number: the inverse of
      CivilFromDays. */
  function DaysFromCivil(d: Date): (n: int)
  {
    var y := if d.month <= 2 then d.year - 1 else d.year;
    var era := y / 400;
    var yoe := y - 400 * era;
    var mp := if d.month > 2 then d.month - 3 else d.month + 9;
    var doy := (153 * mp + 2) / 5 + d.day - 1;
    var doe := 365 * yoe + yoe / 4 - yoe / 100 + doy;
    146097 * era + doe - 719468
  }

  /** Every day number survives the conversion to a date and back, so
      CivilFromDays never maps two days to the same date. */
  lemma DaysFromCivilInverts(n: int)
    ensures DaysFromCivil(CivilFromDays(n)) == n
  {
    var p := Decompose(n);
    var md := MonthAndDay(p.dayOfYear);
    var yoe := 100 * p.century + 4 * p.block + p.year;
    YearOfEraSplits(p.century, p.block, p.year);
    DaysFromCivilParts(CivilFromDays(n), p.era, yoe, md.0, p.dayOfYear);
  }

  /** DaysFromCivil in terms of the era, the year of the era and the day of
      the March-based year. */
  lemma DaysFromCivilParts(d: Date, era: int, yoe: int, mp: int, doy: int)
    requires 0 <= yoe < 400
    requires (if d.month <= 2 then d.year - 1 else d.year) == 400 * era + yoe
    requires (if d.month > 2 then d.month - 3 else d.month + 9) == mp
    requires (153 * mp + 2) / 5 + d.day - 1 == doy
    ensures DaysFromCivil(d) == 146097 * era + 365 * yoe + yoe / 4 - yoe / 100 + doy - 719468
  {
    EraOfYear(era, yoe);
  }

  lemma YearOfEraSplits(c: int, q: int, yq: int)
    requires 0 <= c <= 3 && 0 <= q <= 24 && 0 <= yq <= 3
    ensures var yoe := 100 * c + 4 * q + yq;
      0 <= yoe < 400 && yoe / 4 == 25 * c + q && yoe / 100 == c
  {
  }

  lemma EraOfYear(era: int, yoe: int)
    requires 0 <= yoe < 400
    ensures (400 * era + yoe) / 400 == era
  {
  }

  /** The month (1 = January) a day number falls in. */
  function MonthOf(n: int): (m: int)
    ensures 1 <= m <= 12
  {
    CivilFromDays(n).month
  }

  const MonthNames: seq<string> := [
    "January", "February", "March", "April", "May", "June",
    "July", "August", "September", "October", "November", "December"
  ]

  function MonthName(m: int): (name: string)
    requires 1 <= m <= 12
  {
    MonthNames[m - 1]
  }

  /** The month label of a day number: its month's English name. */
  function Label(n: int): (name: string)
  {
    MonthName(MonthOf(n))
  }

  /** Two day numbers have the same label exactly when they fall in the same
      month, whatever their years. */
  lemma LabelsEqualIffSameMonth(a: int, b: int)
    ensures Label(a) == Label(b) <==> MonthOf(a) == MonthOf(b)
  {
    MonthNamesInjective(MonthOf(a), MonthOf(b));
  }

  /** Two months have the same name only when they are the same month. */
  lemma MonthNamesInjective(m: int, m': int)
    requires 1 <= m <= 12 && 1 <= m' <= 12
    ensures MonthName(m) == MonthName(m') <==> m == m'
  {
    if m != m' {
      MonthNamesDistinct(m - 1, m' - 1);
    }
  }

  lemma MonthNamesDistinct(i: int, j: int)
    requires 0 <= i < 12 && 0 <= j < 12 && i != j
    ensures MonthNames[i] != MonthNames[j]
  {
    // Each name is told apart from the others by its first three letters.
    assert MonthNames[i][0] != MonthNames[j][0] || MonthNames[i][1] != MonthNames[j][1]
        || MonthNames[i][2] != MonthNames[j][2];
  }

  /** 2024-01-01 is day 19723; 30 days later is 2024-01-31, and 31 days after
      that is 2024-03-02 (2024 is a leap year), labelled "March". */
  lemma NewYear2024()
    ensures CivilFromDays(19723) == Date(2024, 1, 1)
  {
    assert Decompose(19723) == CyclePosition(5, 0, 5, 3, 306);
    assert MonthAndDay(306) == (10, 1);
  }

  lemma EndOfJanuary2024()
    ensures CivilFromDays(19723 + 30) == Date(2024, 1, 31)
  {
    assert Decompose(19753) == CyclePosition(5, 0, 5, 3, 336);
    assert MonthAndDay(336) == (10, 31);
  }

  lemma FirstOfFebruary2024()
    ensures CivilFromDays(19723 + 31) == Date(2024, 2, 1)
    ensures Label(19723 + 31) == "February"
  {
    assert Decompose(19754) == CyclePosition(5, 0, 5, 3, 337);
    assert MonthAndDay(337) == (11, 1);
  }

  lemma ThirdOfMarch2024()
    ensures CivilFromDays(19723 + 30 + 31) == Date(2024, 3, 2)
    ensures Label(19723 + 30 + 31) == "March"
  {
    assert Decompose(19784) == CyclePosition(5, 0, 6, 0, 1);
    assert MonthAndDay(1) == (0, 2);
  }
}
