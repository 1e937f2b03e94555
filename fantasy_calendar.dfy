/**
 * The date engine of a fantasy calendar: a fixed table of named months with their day counts,
 * two era tokens ("before" and "after") and a flag saying whether the calendar has a year 0.
 * Dates are stored with astronomical year numbers; only the slash form `D/M/Y [era]` read by
 * `DateFromString` and written by `StringFromDate` uses era-relative numbers.
 *
 * The day-arithmetic helpers are modelled as the source computes them, which is not what a
 * calendar would: `UncheckedDayOfYear` counts the date's own month, the remainder helpers read the
 * following month's length, and the month loops of `_shifted_date` always start from the first
 * (or last) month. `Ordinal` and `DaysLeftInYear` are the intended quantities, and the lemmas
 * relate the two.
 */
module FantasyCalendar {
  import opened Wrappers
  import opened Text

  datatype Month = Month(name: string, days: int)

  /** A (year, month, day) triple. The source mutates such objects only on fresh copies. */
  datatype Date = Date(year: int, month: int, day: int)

  /** The exceptions the engine raises, one constructor per kind of exception, and `NoDate` for the
      None that `_shifted_date` returns when a month loop runs out. */
  datatype Error =
    | NotThreeFields(text: string)          // unpacking `s.split("/")` into three names
    | NotAnInteger(text: string)            // `int()` on text that is not a base-10 integer
    | MissingYear                           // `tup[1]` on a year field without words
    | UnknownEraToken(token: string)
    | NonPositiveMonth                      // raised by the `Date` constructor
    | NonPositiveDay                        // raised by the `Date` constructor
    | InvalidDate(date: Date)               // `DateError`
    | NoSuchMonth(index: int)               // IndexError on the month table
    | ZeroYearLength                        // ZeroDivisionError in `divmod`
    | EmptyRange                            // `randint(lo, hi)` with hi < lo
    | StartAfterStop(start: Date, stop: Date)
    | NoAddDays                             // `shifted_date` calls a method the class lacks
    | NoDate                                // `_shifted_date` runs off its loop: it returns None

  type Outcome<T> = Result<T, Error>

  /** The calendar. Nothing changes it after construction. */
  datatype Calendar = Calendar(
    months: seq<Month>,
    before: string,
    after: string,
    hasYearZero: bool,
    today: Date)

  /** The `Date` constructor, which rejects a month or a day below 1. */
  function NewDate(year: int, month: int, day: int): (r: Outcome<Date>)
    ensures r.Ok? <==> month >= 1 && day >= 1
    ensures r.Ok? ==> r.value == Date(year, month, day)
    ensures r.Err? ==> r.error == if month < 1 then NonPositiveMonth else NonPositiveDay
  {
    if month < 1 then Err(NonPositiveMonth)
    else if day < 1 then Err(NonPositiveDay)
    else Ok(Date(year, month, day))
  }

  // ---------------------------------------------------------------------------------------------
  // Ordering (`__lt__`, `__le__`, `__gt__`, `__ge__`; `__eq__` is equality of the three fields)

  predicate Before(a: Date, b: Date) {
    || a.year < b.year
    || (a.year == b.year && (a.month < b.month || (a.month == b.month && a.day < b.day)))
  }

  predicate AtOrBefore(a: Date, b: Date) {
    Before(a, b) || a == b
  }

  predicate After(a: Date, b: Date) {
    !AtOrBefore(a, b)
  }

  predicate AtOrAfter(a: Date, b: Date) {
    !Before(a, b)
  }

  /** The comparisons form a strict total order and its companions. */
  lemma DateOrder(a: Date, b: Date, c: Date)
    ensures !Before(a, a)
    ensures Before(a, b) && Before(b, c) ==> Before(a, c)
    ensures (Before(a, b) && a != b && !Before(b, a))
         || (!Before(a, b) && a == b && !Before(b, a))
         || (!Before(a, b) && a != b && Before(b, a))
    ensures After(a, b) <==> Before(b, a)
    ensures AtOrAfter(a, b) <==> AtOrBefore(b, a)
  {
  }

  /** The date pairs that the test suite compares. */
  lemma OrderFixtures()
    ensures Before(Date(1, 1, 1), Date(2, 1, 1)) && After(Date(2, 1, 1), Date(1, 1, 1))
    ensures Before(Date(1, 1, 1), Date(1, 2, 1)) && AtOrAfter(Date(1, 2, 1), Date(1, 1, 1))
    ensures Before(Date(1, 1, 1), Date(1, 1, 2)) && AtOrBefore(Date(1, 1, 1), Date(1, 1, 2))
    ensures Before(Date(-1, 1, 1), Date(0, 1, 1)) && Before(Date(-2, 1, 1), Date(-1, 1, 1))
  {
  }

  // ---------------------------------------------------------------------------------------------
  // The month table, read with Python's indexing and slicing rules

  /** `months[i]`, negative indices counting from the end; Err where Python raises IndexError. */
  function MonthAt(months: seq<Month>, i: int): (r: Outcome<Month>)
    ensures r.Ok? <==> -|months| <= i < |months|
    ensures 0 <= i < |months| ==> r == Ok(months[i])
  {
    if 0 <= i < |months| then Ok(months[i])
    else if -|months| <= i < 0 then Ok(months[|months| + i])
    else Err(NoSuchMonth(i))
  }

  /** Where a Python slice bound `k` falls in a sequence of length n. */
  function SliceBound(n: nat, k: int): (b: nat)
    ensures b <= n
    ensures 0 <= k <= n ==> b == k
  {
    if k < 0 then (if n + k < 0 then 0 else n + k)
    else if k > n then n
    else k
  }

  /** `months[i:j]`. */
  function Slice(months: seq<Month>, i: int, j: int): seq<Month> {
    var lo := SliceBound(|months|, i);
    var hi := SliceBound(|months|, j);
    if hi < lo then [] else months[lo..hi]
  }

  /** The total day count of a run of months. */
  function DaySum(ms: seq<Month>): int {
    if ms == [] then 0 else ms[0].days + DaySum(ms[1..])
  }

  lemma {:induction false} DaySumAppend(a: seq<Month>, b: seq<Month>)
    ensures DaySum(a + b) == DaySum(a) + DaySum(b)
  {
    if a == [] {
      assert a + b == b;
    } else {
      var ab := a + b;
      assert ab[0] == a[0];
      assert ab[1..] == a[1..] + b;
      DaySumAppend(a[1..], b);
      assert DaySum(ab) == ab[0].days + DaySum(ab[1..]);
    }
  }

  /** Splitting the table at k splits its day count. */
  lemma DaySumSplit(ms: seq<Month>, k: nat)
    requires k <= |ms|
    ensures DaySum(ms) == DaySum(ms[..k]) + DaySum(ms[k..])
  {
    assert ms == ms[..k] + ms[k..];
    DaySumAppend(ms[..k], ms[k..]);
  }

  /** A day count of at least one in every month. */
  predicate WellFormedMonths(cal: Calendar) {
    forall i | 0 <= i < |cal.months| :: cal.months[i].days >= 1
  }

  // ---------------------------------------------------------------------------------------------
  // Validity and year length

  /** `verify_date`: month within the table and day within the month; the year is free. */
  predicate VerifyDate(cal: Calendar, d: Date) {
    0 < d.month <= |cal.months| && 0 < d.day <= cal.months[d.month - 1].days
  }

  /** The month table of the test suite. */
  function FixtureMonths(): seq<Month> {
    [Month("first month", 30), Month("second month", 30), Month("first special day", 1),
     Month("third month", 30), Month("second special day", 1), Month("third special day", 1),
     Month("final month", 30)]
  }

  /** The dates the test suite expects `verify_date` to accept, years 0 and -1 included. */
  lemma VerifyDateFixtures(cal: Calendar)
    requires cal.months == FixtureMonths()
    ensures VerifyDate(cal, Date(1, 1, 1)) && VerifyDate(cal, Date(2015, 2, 17))
    ensures VerifyDate(cal, Date(100, 4, 30)) && VerifyDate(cal, Date(10, 3, 1))
    ensures VerifyDate(cal, Date(0, 2, 5)) && VerifyDate(cal, Date(-1, 2, 10))
    ensures VerifyDate(cal, Date(10, 7, 30))
    ensures !VerifyDate(cal, Date(10, 3, 2)) && !VerifyDate(cal, Date(10, 8, 1))
  {
  }

  /** `num_days_of_year`: the sum of all month lengths. */
  function NumDaysOfYear(cal: Calendar): (n: int)
    ensures WellFormedMonths(cal) ==> n >= |cal.months|
  {
    NumDaysAtLeastCount(cal.months);
    DaySum(cal.months)
  }

  lemma {:induction false} NumDaysAtLeastCount(ms: seq<Month>)
    ensures (forall i | 0 <= i < |ms| :: ms[i].days >= 1) ==> DaySum(ms) >= |ms|
  {
    if ms != [] {
      NumDaysAtLeastCount(ms[1..]);
      if forall i | 0 <= i < |ms| :: ms[i].days >= 1 {
        assert forall i | 0 <= i < |ms[1..]| :: ms[1..][i].days >= 1 by {
          forall i | 0 <= i < |ms[1..]| ensures ms[1..][i].days >= 1 { assert ms[1..][i] == ms[i + 1]; }
        }
      }
    }
  }

  /** The 1-based position of a valid date in its year: what a day-of-year should be. */
  function Ordinal(cal: Calendar, d: Date): int
    requires VerifyDate(cal, d)
  {
    DaySum(cal.months[..d.month - 1]) + d.day
  }

  /** The days of the year after a valid date: what a remainder-of-year should be. */
  function DaysLeftInYear(cal: Calendar, d: Date): int
    requires VerifyDate(cal, d)
  {
    NumDaysOfYear(cal) - Ordinal(cal, d)
  }

  // ---------------------------------------------------------------------------------------------
  // Day-of-year and remainders, as written

  /** `_day_of_year`: the day plus the lengths of `months[:month]`, the date's own month included. */
  function UncheckedDayOfYear(cal: Calendar, d: Date): int {
    d.day + DaySum(cal.months[..SliceBound(|cal.months|, d.month)])
  }

  /** For a valid date, `_day_of_year` is the date's ordinal plus the length of its own month. */
  lemma DayOfYearCountsOwnMonth(cal: Calendar, d: Date)
    requires VerifyDate(cal, d)
    ensures UncheckedDayOfYear(cal, d) == Ordinal(cal, d) + cal.months[d.month - 1].days
  {
    var ms := cal.months[..d.month];
    DaySumSplit(ms, d.month - 1);
    assert ms[..d.month - 1] == cal.months[..d.month - 1];
    assert ms[d.month - 1..] == [cal.months[d.month - 1]];
  }

  /** `_remainder_of_month`: the length of `months[month]`, which is the following month. */
  function UncheckedRemainderOfMonth(cal: Calendar, d: Date): (r: Outcome<int>)
    ensures VerifyDate(cal, d) ==> (r.Err? <==> d.month == |cal.months|)
  {
    match MonthAt(cal.months, d.month)
    case Ok(m) => Ok(m.days - d.day)
    case Err(e) => Err(e)
  }

  /** Short of the last month, `_remainder_of_month` is the true remainder shifted by the
      difference between the next month's length and the date's own. */
  lemma RemainderOfMonthReadsNextMonth(cal: Calendar, d: Date)
    requires VerifyDate(cal, d) && d.month < |cal.months|
    ensures UncheckedRemainderOfMonth(cal, d)
         == Ok((cal.months[d.month - 1].days - d.day) + cal.months[d.month].days - cal.months[d.month - 1].days)
  {
  }

  /** `_remainder_of_year`: `_remainder_of_month` plus the lengths of `months[month:]`. */
  function UncheckedRemainderOfYear(cal: Calendar, d: Date): (r: Outcome<int>)
    ensures r.Ok? <==> UncheckedRemainderOfMonth(cal, d).Ok?
  {
    match UncheckedRemainderOfMonth(cal, d)
    case Ok(rest) => Ok(rest + DaySum(cal.months[SliceBound(|cal.months|, d.month)..]))
    case Err(e) => Err(e)
  }

  /** Short of the last month, `_remainder_of_year` is the true number of days left in the year,
      off by the difference between the next month's length and the date's own. */
  lemma RemainderOfYearAgainstDaysLeft(cal: Calendar, d: Date)
    requires VerifyDate(cal, d) && d.month < |cal.months|
    ensures UncheckedRemainderOfYear(cal, d)
         == Ok(DaysLeftInYear(cal, d) + cal.months[d.month].days - cal.months[d.month - 1].days)
  {
    DaySumSplit(cal.months, d.month - 1);
    var tail := cal.months[d.month - 1..];
    assert tail[1..] == cal.months[d.month..];
  }

  /** `day_of_year`: validates, then `_day_of_year`. */
  function DayOfYear(cal: Calendar, d: Date): (r: Outcome<int>)
    ensures r.Ok? <==> VerifyDate(cal, d)
    ensures r.Ok? ==> r.value == Ordinal(cal, d) + cal.months[d.month - 1].days
  {
    if !VerifyDate(cal, d) then Err(InvalidDate(d))
    else
      DayOfYearCountsOwnMonth(cal, d);
      Ok(UncheckedDayOfYear(cal, d))
  }

  /** `remainder_of_month`: validates, then `_remainder_of_month`, which fails on the last month. */
  function RemainderOfMonth(cal: Calendar, d: Date): (r: Outcome<int>)
    ensures r.Ok? <==> VerifyDate(cal, d) && d.month < |cal.months|
    ensures r.Ok? ==> r.value == cal.months[d.month].days - d.day
    ensures r.Ok? ==> r.value == (cal.months[d.month - 1].days - d.day) + cal.months[d.month].days - cal.months[d.month - 1].days
  {
    if !VerifyDate(cal, d) then Err(InvalidDate(d)) else UncheckedRemainderOfMonth(cal, d)
  }

  /** `remainder_of_year`: validates, then `_remainder_of_year`. */
  function RemainderOfYear(cal: Calendar, d: Date): (r: Outcome<int>)
    ensures r.Ok? <==> VerifyDate(cal, d) && d.month < |cal.months|
    ensures r.Ok? ==> r.value == DaysLeftInYear(cal, d) + cal.months[d.month].days - cal.months[d.month - 1].days
  {
    if !VerifyDate(cal, d) then Err(InvalidDate(d))
    else if d.month == |cal.months| then UncheckedRemainderOfYear(cal, d)
    else
      RemainderOfYearAgainstDaysLeft(cal, d);
      UncheckedRemainderOfYear(cal, d)
  }

  // ---------------------------------------------------------------------------------------------
  // The slash form `D/M/Y [era]`

  /** The era-relative number and the era token that `string_from_date` prints for a year. */
  function EraOf(cal: Calendar, year: int): (r: (nat, string))
    ensures !cal.hasYearZero ==> r.0 >= 1
    ensures !cal.hasYearZero && year <= 0 ==> r == (1 - year, cal.before)
    ensures !cal.hasYearZero && year >= 1 ==> r == (year, cal.after)
    ensures cal.hasYearZero && year < 0 ==> r == (-year, cal.before)
    ensures cal.hasYearZero && year >= 0 ==> r == (year, cal.after)
  {
    var shown := year - (if year < 1 && !cal.hasYearZero then 1 else 0);
    if shown < 0 then (-shown, cal.before) else (shown, cal.after)
  }

  /** How `date_from_string` reads the words of the year field. */
  function YearFromWords(cal: Calendar, tup: seq<string>): (r: Outcome<int>)
    ensures |tup| == 0 ==> r == Err(MissingYear)
    ensures |tup| >= 2 && tup[1] != cal.before && tup[1] != cal.after ==> r == Err(UnknownEraToken(tup[1]))
    ensures |tup| == 1 && ParseInt(tup[0]).None? ==> r == Err(NotAnInteger(tup[0]))
  {
    if |tup| == 1 then
      match ParseInt(tup[0])
      case Some(n) => Ok(n)
      case None => Err(NotAnInteger(tup[0]))
    else if |tup| == 0 then Err(MissingYear)
    else if tup[1] == cal.before then
      match ParseInt(tup[0])
      case Some(n) => Ok(-n + if cal.hasYearZero then 0 else 1)
      case None => Err(NotAnInteger(tup[0]))
    else if tup[1] == cal.after then
      match ParseInt(tup[0])
      case Some(n) => Ok(n)
      case None => Err(NotAnInteger(tup[0]))
    else Err(UnknownEraToken(tup[1]))
  }

  /** Reading back the number and token that `EraOf` prints gives the year. */
  lemma EraRoundTrip(cal: Calendar, year: int)
    requires cal.before != cal.after
    ensures YearFromWords(cal, [NatToString(EraOf(cal, year).0), EraOf(cal, year).1]) == Ok(year)
  {
    ParseIntOfNat(EraOf(cal, year).0);
  }

  /** `date_from_string`. */
  function DateFromString(cal: Calendar, s: string): (r: Outcome<Date>)
    ensures r.Ok? ==> VerifyDate(cal, r.value)
    ensures |SplitOn(s, '/')| != 3 ==> r == Err(NotThreeFields(s))
    ensures r.Err? && r.error.InvalidDate? ==> !VerifyDate(cal, r.error.date)
  {
    var fields := SplitOn(s, '/');
    if |fields| != 3 then Err(NotThreeFields(s))
    else
      match YearFromWords(cal, Words(fields[2]))
      case Err(e) => Err(e)
      case Ok(year) =>
        match ParseInt(fields[1])
        case None => Err(NotAnInteger(fields[1]))
        case Some(month) =>
          match ParseInt(fields[0])
          case None => Err(NotAnInteger(fields[0]))
          case Some(day) =>
            match NewDate(year, month, day)
            case Err(e) => Err(e)
            case Ok(date) => if VerifyDate(cal, date) then Ok(date) else Err(InvalidDate(date))
  }

  /** `string_from_date`. */
  function StringFromDate(cal: Calendar, d: Date): (r: Outcome<string>)
    ensures r.Ok? <==> VerifyDate(cal, d)
  {
    if !VerifyDate(cal, d) then Err(InvalidDate(d))
    else
      var (n, era) := EraOf(cal, d.year);
      Ok(NatToString(d.day) + "/" + NatToString(d.month) + "/" + NatToString(n) + " " + era)
  }

  /** Era tokens the slash form can carry: distinct, non-empty, no whitespace and no '/'. */
  predicate UsableEraTokens(cal: Calendar) {
    && cal.before != cal.after
    && cal.before != [] && NoSpace(cal.before) && '/' !in cal.before
    && cal.after != [] && NoSpace(cal.after) && '/' !in cal.after
  }

  /** A rendered natural number is one word without a '/'. */
  lemma NatTextIsOneWord(n: nat)
    ensures NoSpace(NatToString(n)) && '/' !in NatToString(n)
  {
    var s := NatToString(n);
    forall i | 0 <= i < |s| ensures !IsSpace(s[i]) && s[i] != '/' {
      assert IsDigit(s[i]);
    }
  }

  /** So is a rendered integer. */
  lemma IntTextIsOneWord(n: int)
    ensures IntToString(n) != [] && NoSpace(IntToString(n)) && '/' !in IntToString(n)
  {
    var digits := NatToString(if n < 0 then -n else n);
    NatTextIsOneWord(if n < 0 then -n else n);
    var s := IntToString(n);
    forall i | 0 <= i < |s| ensures !IsSpace(s[i]) && s[i] != '/' {
      if n < 0 && i > 0 {
        assert s[i] == digits[i - 1];
      }
    }
  }

  /** Three '/'-free fields whose parts parse to a valid date are read as that date. */
  lemma ReadFields(cal: Calendar, dd: string, mm: string, yy: string, d: Date)
    requires '/' !in dd && '/' !in mm && '/' !in yy
    requires YearFromWords(cal, Words(yy)) == Ok(d.year)
    requires ParseInt(mm) == Some(d.month) && ParseInt(dd) == Some(d.day)
    requires VerifyDate(cal, d)
    ensures DateFromString(cal, dd + "/" + mm + "/" + yy) == Ok(d)
  {
    assert dd + "/" + mm + "/" + yy == dd + ['/'] + mm + ['/'] + yy;
    SplitThree(dd, mm, yy, '/');
  }

  /** A year field that cannot be read (no word, not an integer, an unknown era token) makes the
      whole text fail with that error, before the month and day are looked at. */
  lemma ReadFieldsBadYear(cal: Calendar, dd: string, mm: string, yy: string)
    requires '/' !in dd && '/' !in mm && '/' !in yy
    requires YearFromWords(cal, Words(yy)).Err?
    ensures DateFromString(cal, dd + "/" + mm + "/" + yy) == Err(YearFromWords(cal, Words(yy)).error)
  {
    assert dd + "/" + mm + "/" + yy == dd + ['/'] + mm + ['/'] + yy;
    SplitThree(dd, mm, yy, '/');
  }

  /** An era token that is neither of the calendar's makes the text fail with "not recognized". */
  lemma ReadFieldsUnknownEra(cal: Calendar, dd: string, mm: string, n: string, era: string)
    requires '/' !in dd && '/' !in mm && '/' !in n + " " + era
    requires n != [] && NoSpace(n) && era != [] && NoSpace(era)
    requires era != cal.before && era != cal.after
    ensures DateFromString(cal, dd + "/" + mm + "/" + (n + " " + era)) == Err(UnknownEraToken(era))
  {
    WordsOfTwo(n, era);
    ReadFieldsBadYear(cal, dd, mm, n + " " + era);
  }

  /** Once the year is read, `int(month)` runs before `int(day)`, and the `Date` constructor
      rejects a month below 1 before a day below 1. */
  lemma ReadFieldsBadMonthDay(cal: Calendar, dd: string, mm: string, yy: string, year: int)
    requires '/' !in dd && '/' !in mm && '/' !in yy
    requires YearFromWords(cal, Words(yy)) == Ok(year)
    ensures ParseInt(mm).None? ==> DateFromString(cal, dd + "/" + mm + "/" + yy) == Err(NotAnInteger(mm))
    ensures ParseInt(mm).Some? && ParseInt(dd).None?
         ==> DateFromString(cal, dd + "/" + mm + "/" + yy) == Err(NotAnInteger(dd))
    ensures ParseInt(mm).Some? && ParseInt(mm).value < 1 && ParseInt(dd).Some?
         ==> DateFromString(cal, dd + "/" + mm + "/" + yy) == Err(NonPositiveMonth)
    ensures ParseInt(mm).Some? && ParseInt(mm).value >= 1 && ParseInt(dd).Some? && ParseInt(dd).value < 1
         ==> DateFromString(cal, dd + "/" + mm + "/" + yy) == Err(NonPositiveDay)
  {
    assert dd + "/" + mm + "/" + yy == dd + ['/'] + mm + ['/'] + yy;
    SplitThree(dd, mm, yy, '/');
  }

  /** Fields that read as a date failing `verify_date` raise `DateError` with that date. */
  lemma ReadFieldsInvalidDate(cal: Calendar, dd: string, mm: string, yy: string, d: Date)
    requires '/' !in dd && '/' !in mm && '/' !in yy
    requires YearFromWords(cal, Words(yy)) == Ok(d.year)
    requires ParseInt(mm) == Some(d.month) && ParseInt(dd) == Some(d.day)
    requires d.month >= 1 && d.day >= 1 && !VerifyDate(cal, d)
    ensures DateFromString(cal, dd + "/" + mm + "/" + yy) == Err(InvalidDate(d))
  {
    assert dd + "/" + mm + "/" + yy == dd + ['/'] + mm + ['/'] + yy;
    SplitThree(dd, mm, yy, '/');
  }

  /** The text `string_from_date` prints, as its three '/'-separated fields. */
  lemma RenderedFields(cal: Calendar, d: Date)
    requires VerifyDate(cal, d)
    ensures StringFromDate(cal, d).value
         == NatToString(d.day) + "/" + NatToString(d.month) + "/"
          + (NatToString(EraOf(cal, d.year).0) + " " + EraOf(cal, d.year).1)
  {
  }

  /** Rendering a valid date and parsing the text back gives the date. */
  lemma StringRoundTrip(cal: Calendar, d: Date)
    requires UsableEraTokens(cal) && VerifyDate(cal, d)
    ensures DateFromString(cal, StringFromDate(cal, d).value) == Ok(d)
  {
    var n, era := EraOf(cal, d.year).0, EraOf(cal, d.year).1;
    var yy := NatToString(n);
    NatTextIsOneWord(d.day);
    NatTextIsOneWord(d.month);
    NatTextIsOneWord(n);
    WordsOfTwo(yy, era);
    EraRoundTrip(cal, d.year);
    ParseIntOfNat(d.month);
    ParseIntOfNat(d.day);
    assert '/' !in yy + " " + era;
    ReadFields(cal, NatToString(d.day), NatToString(d.month), yy + " " + era, d);
    RenderedFields(cal, d);
  }

  /** Without an era token the year is taken literally, as an astronomical year. */
  lemma LiteralYear(cal: Calendar, d: Date)
    requires VerifyDate(cal, d)
    ensures DateFromString(cal, NatToString(d.day) + "/" + NatToString(d.month) + "/" + IntToString(d.year)) == Ok(d)
  {
    var yy := IntToString(d.year);
    NatTextIsOneWord(d.day);
    NatTextIsOneWord(d.month);
    IntTextIsOneWord(d.year);
    WordsOfWord(yy, []);
    assert yy + [] == yy;
    ParseIntOfString(d.year);
    ParseIntOfNat(d.month);
    ParseIntOfNat(d.day);
    ReadFields(cal, NatToString(d.day), NatToString(d.month), yy, d);
  }

  /** `Calendar.__init__`: stores the configuration and parses `today` in the slash form. */
  function NewCalendar(months: seq<Month>, today: string, before: string, after: string, hasYearZero: bool): (r: Outcome<Calendar>)
    ensures r.Ok? ==> VerifyDate(r.value, r.value.today)
    ensures r.Ok? ==> r.value.months == months && r.value.before == before && r.value.after == after
    ensures r.Ok? ==> r.value.hasYearZero == hasYearZero
    ensures var draft := Calendar(months, before, after, hasYearZero, Date(1, 1, 1));
      r.Ok? <==> DateFromString(draft, today).Ok?
    ensures var draft := Calendar(months, before, after, hasYearZero, Date(1, 1, 1));
      r.Ok? ==> r.value.today == DateFromString(draft, today).value
    ensures var draft := Calendar(months, before, after, hasYearZero, Date(1, 1, 1));
      r.Err? ==> r.error == DateFromString(draft, today).error
  {
    // date_from_string reads neither `today` nor anything else set later in the constructor
    var draft := Calendar(months, before, after, hasYearZero, Date(1, 1, 1));
    match DateFromString(draft, today)
    case Ok(t) => Ok(draft.(today := t))
    case Err(e) => Err(e)
  }

  // ---------------------------------------------------------------------------------------------
  // Shifting a date by a number of days

  /** Python's `divmod(a, b)`: floor division, and a remainder with the sign of b. */
  function DivMod(a: int, b: int): (r: (int, int))
    requires b != 0
    ensures a == r.0 * b + r.1
    ensures b > 0 ==> 0 <= r.1 < b
    ensures b < 0 ==> b < r.1 <= 0
  {
    if b > 0 then (a / b, a % b)
    else
      var q := (-a) / (-b);
      assert -a == (-b) * q + (-a) % (-b);
      (q, a - b * q)
  }

  /**
   * The forward month loop of `_shifted_date`: whatever the starting month, it walks the table
   * from its first month, moving one month on for each whole month length it can subtract, and
   * adds what is left to the day. None when it runs off the table.
   */
  function WalkForward(ms: seq<Month>, days: int, month: int, day: int): Option<(int, int)> {
    if ms == [] then None
    else if days >= ms[0].days then WalkForward(ms[1..], days - ms[0].days, month + 1, day)
    else Some((month, day + days))
  }

  /** The backward month loop of `_shifted_date`: the same walk from the last month down,
      subtracting what is left from the day. */
  function WalkBackward(ms: seq<Month>, days: int, month: int, day: int): Option<(int, int)> {
    if ms == [] then None
    else if days >= ms[|ms| - 1].days then WalkBackward(ms[..|ms| - 1], days - ms[|ms| - 1].days, month - 1, day)
    else Some((month, day - days))
  }

  function Land(walk: Option<(int, int)>, year: int): Outcome<Date> {
    match walk
    case None => Err(NoDate)
    case Some((month, day)) => Ok(Date(year, month, day))
  }

  /** The forward branch of `_shifted_date`. */
  function ShiftForward(cal: Calendar, d: Date, days: int): Outcome<Date>
    requires NumDaysOfYear(cal) != 0
  {
    var (years, rest) := DivMod(days, NumDaysOfYear(cal));
    var year := d.year + years;
    match UncheckedRemainderOfYear(cal, Date(year, d.month, d.day))
    case Err(e) => Err(e)
    case Ok(remainder) =>
      if rest > remainder then Land(WalkForward(cal.months, rest - (remainder + 1), 1, 1), year + 1)
      else Land(WalkForward(cal.months, rest, d.month, d.day), year)
  }

  /** The backward branch of `_shifted_date`. */
  function ShiftBackward(cal: Calendar, d: Date, days: int): Outcome<Date>
    requires NumDaysOfYear(cal) != 0
  {
    var (years, rest) := DivMod(-days, NumDaysOfYear(cal));
    var year := d.year - years;
    var remainder := UncheckedDayOfYear(cal, Date(year, d.month, d.day));
    if rest >= remainder then
      var last := |cal.months|;
      Land(WalkBackward(cal.months, rest - remainder, last, cal.months[last - 1].days), year - 1)
    else Land(WalkBackward(cal.months, rest, d.month, d.day), year)
  }

  /** What `_shifted_date(d, days)` returns. */
  function UncheckedShiftedDate(cal: Calendar, d: Date, days: int): Outcome<Date> {
    match NewDate(d.year, d.month, d.day)
    case Err(e) => Err(e)
    case Ok(_) =>
      if days == 0 then Ok(d)
      else if NumDaysOfYear(cal) == 0 then Err(ZeroYearLength)
      else if days > 0 then ShiftForward(cal, d, days)
      else ShiftBackward(cal, d, days)
  }

  /** The forward `for month in self._months` loop of `_shifted_date`. */
  method WalkForwardLoop(ms: seq<Month>, days: int, month: int, day: int, year: int) returns (r: Outcome<Date>)
    ensures r == Land(WalkForward(ms, days, month, day), year)
  {
    var rest, m := days, month;
    var i := 0;
    while i < |ms|
      invariant 0 <= i <= |ms|
      invariant WalkForward(ms[i..], rest, m, day) == WalkForward(ms, days, month, day)
    {
      assert ms[i..][1..] == ms[i + 1..];
      if rest >= ms[i].days {
        rest := rest - ms[i].days;
        m := m + 1;
      } else {
        return Ok(Date(year, m, day + rest));
      }
      i := i + 1;
    }
    return Err(NoDate);
  }

  /** The backward `for month in reversed(self._months)` loop of `_shifted_date`. */
  method WalkBackwardLoop(ms: seq<Month>, days: int, month: int, day: int, year: int) returns (r: Outcome<Date>)
    ensures r == Land(WalkBackward(ms, days, month, day), year)
  {
    var rest, m := days, month;
    var i := |ms|;
    assert ms[..i] == ms;
    while i > 0
      invariant 0 <= i <= |ms|
      invariant WalkBackward(ms[..i], rest, m, day) == WalkBackward(ms, days, month, day)
    {
      assert ms[..i][..i - 1] == ms[..i - 1];
      if rest >= ms[i - 1].days {
        rest := rest - ms[i - 1].days;
        m := m - 1;
      } else {
        return Ok(Date(year, m, day - rest));
      }
      i := i - 1;
    }
    return Err(NoDate);
  }

  /** `_shifted_date`: copies the date, moves whole years by `divmod`, steps over the year end
      when the rest does not fit, then walks the months. */
  method ShiftedDate(cal: Calendar, d: Date, days: int) returns (r: Outcome<Date>)
    ensures r == UncheckedShiftedDate(cal, d, days)
    ensures days == 0 && d.month >= 1 && d.day >= 1 ==> r == Ok(d)
  {
    var copy := NewDate(d.year, d.month, d.day);
    if copy.Err? {
      return copy;
    }
    if days == 0 {
      return copy;
    }
    var n := NumDaysOfYear(cal);
    if n == 0 {
      return Err(ZeroYearLength);
    }
    var year, month, day := d.year, d.month, d.day;
    if days > 0 {
      var years, rest := DivMod(days, n).0, DivMod(days, n).1;
      year := year + years;
      var remainder := UncheckedRemainderOfYear(cal, Date(year, month, day));
      if remainder.Err? {
        return Err(remainder.error);
      }
      if rest > remainder.value {
        rest := rest - (remainder.value + 1);
        year, month, day := year + 1, 1, 1;
      }
      r := WalkForwardLoop(cal.months, rest, month, day, year);
    } else {
      var years, rest := DivMod(-days, n).0, DivMod(-days, n).1;
      year := year - years;
      var remainder := UncheckedDayOfYear(cal, Date(year, month, day));
      if rest >= remainder {
        rest := rest - remainder;
        year := year - 1;
        month := |cal.months|;
        day := cal.months[|cal.months| - 1].days;
      }
      r := WalkBackwardLoop(cal.months, rest, month, day, year);
    }
  }

  /** The forward walk never runs off the table while fewer days remain than the table holds. */
  lemma {:induction false} WalkForwardStops(ms: seq<Month>, days: int, month: int, day: int)
    requires 0 <= days < DaySum(ms)
    ensures WalkForward(ms, days, month, day).Some?
  {
    if days >= ms[0].days {
      WalkForwardStops(ms[1..], days - ms[0].days, month + 1, day);
    }
  }

  /**
   * Walking forward from the first day of month i+1 lands on a valid date whose position from
   * the start of that month is days + 1.
   */
  lemma {:induction false} WalkForwardFrom(cal: Calendar, i: nat, days: int)
    requires WellFormedMonths(cal) && i < |cal.months|
    requires 0 <= days < DaySum(cal.months[i..])
    ensures var w := WalkForward(cal.months[i..], days, i + 1, 1);
      && w.Some? && i < w.value.0 <= |cal.months|
      && VerifyDate(cal, Date(0, w.value.0, w.value.1))
      && DaySum(cal.months[i..w.value.0 - 1]) + w.value.1 == days + 1
    decreases |cal.months| - i
  {
    var ms := cal.months[i..];
    assert ms[0] == cal.months[i];
    if days >= ms[0].days {
      assert ms[1..] == cal.months[i + 1..];
      var w := WalkForward(cal.months[i + 1..], days - ms[0].days, i + 2, 1);
      WalkForwardFrom(cal, i + 1, days - ms[0].days);
      var m := w.value.0;
      var part := cal.months[i..m - 1];
      assert part[0] == cal.months[i] && part[1..] == cal.months[i + 1..m - 1];
    } else {
      assert cal.months[i..i] == [];
    }
  }

  /** From the first day of the year, the forward walk lands on the valid date whose ordinal is
      days + 1, for every days shorter than the year. */
  lemma WalkForwardFromNewYear(cal: Calendar, year: int, days: int)
    requires WellFormedMonths(cal) && 0 <= days < NumDaysOfYear(cal)
    ensures var w := WalkForward(cal.months, days, 1, 1);
      && w.Some? && VerifyDate(cal, Date(year, w.value.0, w.value.1))
      && Ordinal(cal, Date(year, w.value.0, w.value.1)) == days + 1
  {
    assert cal.months[0..] == cal.months;
    WalkForwardFrom(cal, 0, days);
    var w := WalkForward(cal.months, days, 1, 1);
    assert cal.months[0..w.value.0 - 1] == cal.months[..w.value.0 - 1];
  }

  // ---------------------------------------------------------------------------------------------
  // Days between dates

  function Negated(r: Outcome<int>): Outcome<int> {
    match r
    case Ok(v) => Ok(-v)
    case Err(e) => Err(e)
  }

  /** The body of `_days_between_dates` once the earlier date is first. */
  function DaysForward(cal: Calendar, d1: Date, d2: Date): Outcome<int> {
    var years := d2.year - d1.year;
    if years > 0 then
      match UncheckedRemainderOfYear(cal, d1)
      case Err(e) => Err(e)
      case Ok(rest) => Ok(rest + UncheckedDayOfYear(cal, d2) + (years - 1) * NumDaysOfYear(cal))
    else if d2.month > d1.month then
      match UncheckedRemainderOfMonth(cal, d1)
      case Err(e) => Err(e)
      case Ok(rest) => Ok(rest + d2.day + DaySum(Slice(cal.months, d1.month, d2.month)))
    else Ok(d2.day - d1.day)
  }

  /** `_days_between_dates`: swaps the dates when the second comes first and negates the result. */
  function UncheckedDaysBetween(cal: Calendar, a: Date, b: Date): (r: Outcome<int>)
    ensures a == b ==> r == Ok(0)
    ensures a.year == b.year && a.month == b.month ==> r == Ok(b.day - a.day)
  {
    if a == b then Ok(0)
    else if Before(b, a) then Negated(DaysForward(cal, b, a))
    else DaysForward(cal, a, b)
  }

  /** Exchanging the dates negates the count (or raises the same exception). */
  lemma DaysBetweenAntisymmetric(cal: Calendar, a: Date, b: Date)
    ensures UncheckedDaysBetween(cal, b, a) == Negated(UncheckedDaysBetween(cal, a, b))
  {
    DateOrder(a, b, a);
  }

  /** `days_between_dates`: validates both dates first. */
  function DaysBetween(cal: Calendar, a: Date, b: Date): (r: Outcome<int>)
    ensures !VerifyDate(cal, a) ==> r == Err(InvalidDate(a))
    ensures VerifyDate(cal, a) && !VerifyDate(cal, b) ==> r == Err(InvalidDate(b))
    ensures VerifyDate(cal, a) && VerifyDate(cal, b) && a.year == b.year && a.month == b.month ==> r == Ok(b.day - a.day)
  {
    if !VerifyDate(cal, a) then Err(InvalidDate(a))
    else if !VerifyDate(cal, b) then Err(InvalidDate(b))
    else UncheckedDaysBetween(cal, a, b)
  }

  /** `shifted_date`: validates, then calls `_add_days`, which the class does not define. */
  function PublicShiftedDate(cal: Calendar, d: Date, days: int): (r: Outcome<Date>)
    ensures r.Err?
    ensures r.error == if VerifyDate(cal, d) then NoAddDays else InvalidDate(d)
  {
    if !VerifyDate(cal, d) then Err(InvalidDate(d)) else Err(NoAddDays)
  }

  // ---------------------------------------------------------------------------------------------
  // Random dates; `draw` stands for the random number generator

  /** `randint(lo, hi)`, the generator's output given as `draw`. */
  function RandInt(lo: int, hi: int, draw: nat): (r: Outcome<int>)
    ensures r.Ok? <==> lo <= hi
    ensures r.Ok? ==> lo <= r.value <= hi
  {
    if hi < lo then Err(EmptyRange) else Ok(lo + draw % (hi - lo + 1))
  }

  /** `_get_random_date(start, stop)`. */
  function UncheckedRandomDate(cal: Calendar, start: Date, stop: Date, draw: nat): (r: Outcome<Date>)
    ensures start == stop ==> r == NewDate(start.year, start.month, start.day)
    ensures After(start, stop) ==> r == Err(StartAfterStop(start, stop))
  {
    if start == stop then NewDate(start.year, start.month, start.day)
    else if After(start, stop) then Err(StartAfterStop(start, stop))
    else
      match UncheckedDaysBetween(cal, start, stop)
      case Err(e) => Err(e)
      case Ok(count) =>
        match RandInt(0, count - 1, draw)
        case Err(e) => Err(e)
        case Ok(shift) => UncheckedShiftedDate(cal, start, shift)
  }

  /** The end of the year `get_random_date` uses when no stop is given. */
  function LastDayOf(cal: Calendar, year: int): Outcome<Date> {
    match MonthAt(cal.months, -1)
    case Err(e) => Err(e)
    case Ok(m) => NewDate(year, |cal.months|, m.days)
  }

  /** `get_random_date(start, stop)`, None standing for an omitted bound. */
  function RandomDate(cal: Calendar, start: Option<Date>, stop: Option<Date>, draw: nat): (r: Outcome<Date>)
    ensures start.Some? && !VerifyDate(cal, start.value) ==> r == Err(InvalidDate(start.value))
  {
    if start.None? && stop.None? then
      match RandInt(0, NumDaysOfYear(cal) - 1, draw)
      case Err(e) => Err(e)
      case Ok(shift) => UncheckedShiftedDate(cal, Date(cal.today.year, 1, 1), shift)
    else
      var first :=
        if start.None? then NewDate(stop.value.year, 1, 1)
        else if VerifyDate(cal, start.value) then Ok(start.value)
        else Err(InvalidDate(start.value));
      match first
      case Err(e) => Err(e)
      case Ok(s) =>
        var last :=
          if stop.None? then LastDayOf(cal, s.year)
          else if VerifyDate(cal, stop.value) then Ok(stop.value)
          else Err(InvalidDate(stop.value));
        match last
        case Err(e) => Err(e)
        case Ok(e) => UncheckedRandomDate(cal, s, e, draw)
  }

  /** The `_remainder_of_year` of the first day of a year: what decides whether an unbounded
      random date stays in the current year. */
  function NewYearRemainder(cal: Calendar): (r: int)
    requires WellFormedMonths(cal) && |cal.months| >= 2
    ensures r >= 0
  {
    var d := Date(cal.today.year, 1, 1);
    assert cal.months[1..] == [cal.months[1]] + cal.months[2..];
    NumDaysAtLeastCount(cal.months[2..]);
    assert forall i | 0 <= i < |cal.months[2..]| :: cal.months[2..][i].days >= 1 by {
      forall i | 0 <= i < |cal.months[2..]| ensures cal.months[2..][i].days >= 1 { assert cal.months[2..][i] == cal.months[i + 2]; }
    }
    UncheckedRemainderOfYear(cal, d).value
  }

  /**
   * With no bounds, `get_random_date` draws a shift below the year's length and shifts the first
   * day of today's year. On a table of at least two months, each at least one day long, it always
   * returns a valid date in today's year or the next; when the shift is at most the new-year
   * remainder, the date is in today's year and its ordinal is the shift plus one.
   */
  lemma RandomDateWithoutBounds(cal: Calendar, draw: nat)
    requires WellFormedMonths(cal) && |cal.months| >= 2
    ensures var r := RandomDate(cal, None, None, draw);
      && r.Ok? && VerifyDate(cal, r.value)
      && (r.value.year == cal.today.year || r.value.year == cal.today.year + 1)
      && (draw % NumDaysOfYear(cal) <= NewYearRemainder(cal) ==>
            r.value.year == cal.today.year && Ordinal(cal, r.value) == draw % NumDaysOfYear(cal) + 1)
  {
    var n := NumDaysOfYear(cal);
    var shift := draw % n;
    assert RandInt(0, n - 1, draw) == Ok(shift);
    var start := Date(cal.today.year, 1, 1);
    var remainder := NewYearRemainder(cal);
    if shift == 0 {
      assert cal.months[..0] == [];
    } else {
      assert DivMod(shift, n) == (0, shift);
      assert UncheckedRemainderOfYear(cal, start) == Ok(remainder);
      if shift > remainder {
        WalkForwardFromNewYear(cal, cal.today.year + 1, shift - (remainder + 1));
      } else {
        WalkForwardFromNewYear(cal, cal.today.year, shift);
      }
    }
  }

  // ---------------------------------------------------------------------------------------------
  // The `get-age` and `get-birthday` commands

  datatype Age = NotYetBorn | Years(years: int)

  /** The birthday moved `years` years on. */
  function Anniversary(birth: Date, years: int): Date {
    birth.(year := birth.year + years)
  }

  /**
   * The rule of `get-age`, as written: "Not yet born" only when the birth year is after today's;
   * otherwise the number n of completed years, the n with the n-th anniversary at or before
   * today and the next one after it. For a birthday later in the current year that n is -1.
   */
  function AgeOn(today: Date, birth: Date): (r: Age)
    ensures r.NotYetBorn? <==> today.year < birth.year
    ensures r.Years? ==> AtOrBefore(Anniversary(birth, r.years), today) && Before(today, Anniversary(birth, r.years + 1))
  {
    var age := today.year - birth.year;
    if age < 0 then NotYetBorn
    else if today.month < birth.month || (today.month == birth.month && today.day < birth.day) then Years(age - 1)
    else Years(age)
  }

  /** A birthday later in the current year is reported as an age of -1. */
  lemma AgeOnReportsMinusOne()
    ensures AgeOn(Date(17, 4, 12), Date(17, 7, 1)) == Years(-1)
  {
  }

  /** The evidently intended rule: "Not yet born" exactly when the birthday is after today. */
  function AgeOnIntended(today: Date, birth: Date): (r: Age)
    ensures r.NotYetBorn? <==> Before(today, birth)
    ensures r.Years? ==> r.years >= 0
    ensures r.Years? ==> AtOrBefore(Anniversary(birth, r.years), today) && Before(today, Anniversary(birth, r.years + 1))
  {
    if Before(today, birth) then NotYetBorn else AgeOn(today, birth)
  }

  /** The `get-age` command: parses the birthday in the slash form, then applies the rule. */
  function GetAge(cal: Calendar, birthday: string): (r: Outcome<Age>)
    ensures r.Ok? <==> DateFromString(cal, birthday).Ok?
    ensures r.Ok? ==> r.value == AgeOn(cal.today, DateFromString(cal, birthday).value)
    ensures r.Ok? ==> (r.value.NotYetBorn? <==> cal.today.year < DateFromString(cal, birthday).value.year)
    ensures r.Ok? && r.value.Years? ==> AtOrBefore(Anniversary(DateFromString(cal, birthday).value, r.value.years), cal.today)
    ensures r.Ok? && r.value.Years? ==> Before(cal.today, Anniversary(DateFromString(cal, birthday).value, r.value.years + 1))
  {
    match DateFromString(cal, birthday)
    case Err(e) => Err(e)
    case Ok(birth) => Ok(AgeOn(cal.today, birth))
  }

  /** The `get-birthday` command: draws a date in today's year, moves it back `age` years (one
      more when it is still ahead of today) and prints it in the slash form. */
  function GetBirthday(cal: Calendar, age: int, draw: nat): (r: Outcome<string>)
    ensures r.Ok? ==> RandomDate(cal, None, None, draw).Ok?
  {
    match RandomDate(cal, None, None, draw)
    case Err(e) => Err(e)
    case Ok(b) =>
      var birthday := b.(year := b.year - (age + if After(b, cal.today) then 1 else 0));
      StringFromDate(cal, birthday)
  }

  /** A date of today's year moved back `age` years, one more when it is after today, is `age`
      years old under both rules. */
  lemma AgeOfShiftedBirthday(today: Date, b: Date, age: nat)
    requires b.year == today.year
    ensures var birthday := b.(year := b.year - (age + if After(b, today) then 1 else 0));
      AgeOn(today, birthday) == Years(age) && AgeOnIntended(today, birthday) == Years(age)
  {
  }

  /**
   * A birthday printed by `get-birthday`, when its random date falls in today's year, is read
   * back by `get-age` as the requested age, under the rule as written and the intended one.
   */
  lemma BirthdayHasRequestedAge(cal: Calendar, age: nat, draw: nat)
    requires UsableEraTokens(cal) && WellFormedMonths(cal) && |cal.months| >= 2
    requires draw % NumDaysOfYear(cal) <= NewYearRemainder(cal)
    ensures GetBirthday(cal, age, draw).Ok?
    ensures GetAge(cal, GetBirthday(cal, age, draw).value) == Ok(Years(age))
    ensures AgeOnIntended(cal.today, DateFromString(cal, GetBirthday(cal, age, draw).value).value) == Years(age)
  {
    RandomDateWithoutBounds(cal, draw);
    var b := RandomDate(cal, None, None, draw).value;
    assert b.year == cal.today.year && VerifyDate(cal, b);
    var birthday := b.(year := b.year - (age + if After(b, cal.today) then 1 else 0));
    assert VerifyDate(cal, birthday);
    assert GetBirthday(cal, age, draw) == StringFromDate(cal, birthday);
    StringRoundTrip(cal, birthday);
    AgeOfShiftedBirthday(cal.today, b, age);
  }
}
