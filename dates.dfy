/** Python's proleptic Gregorian `datetime.date` and the parse done by
    `datetime.strptime(text, "%Y-%m-%d")`.

    The parse is modelled on what CPython's `_strptime` module does with that
    format: it compiles the regular expression
      `(?P<Y>\d\d\d\d)-(?P<m>1[0-2]|0[1-9]|[1-9])-(?P<d>3[01]|[12]\d|0[1-9]|[1-9]| [1-9])`
    and applies `re.match` (anchored at the start only, alternatives tried in
    order, backtracking into the month group when what follows fails); a
    match that stops short of the end of the text raises "unconverted data
    remains"; and the three numbers must form a real date, or the `date`
    constructor raises. Every one of these failures is a `ValueError`. */
module PyDate {
  import opened Wrappers

  datatype Date = Date(year: int, month: int, day: int)

  const MinYear: int := 1
  const MaxYear: int := 9999

  /** Gregorian leap years: every fourth year, except centuries not divisible by 400. */
  predicate IsLeapYear(y: int) {
    y % 4 == 0 && (y % 100 != 0 || y % 400 == 0)
  }

  function DaysInMonth(y: int, m: int): (n: int)
    requires 1 <= m <= 12
    ensures 28 <= n <= 31
    ensures m == 2 ==> (n == 29 <==> IsLeapYear(y))
  {
    if m == 2 then (if IsLeapYear(y) then 29 else 28)
    else if m == 4 || m == 6 || m == 9 || m == 11 then 30
    else 31
  }

  /** The triples the `date` constructor accepts. */
  predicate ValidDate(d: Date) {
    && MinYear <= d.year <= MaxYear
    && 1 <= d.month <= 12
    && 1 <= d.day <= DaysInMonth(d.year, d.month)
  }

  /** `a < b` on dates: Python compares the (year, month, day) triples lexicographically. */
  predicate Before(a: Date, b: Date) {
    || a.year < b.year
    || (a.year == b.year && a.month < b.month)
    || (a.year == b.year && a.month == b.month && a.day < b.day)
  }

  // ---------------------------------------------------------------------------
  // Digits

  predicate IsDigit(c: char) {
    '0' <= c <= '9'
  }

  function DigitValue(c: char): (n: int)
    requires IsDigit(c)
    ensures 0 <= n <= 9
  {
    c as int - '0' as int
  }

  function DigitChar(n: int): (c: char)
    requires 0 <= n <= 9
    ensures IsDigit(c) && DigitValue(c) == n
  {
    ('0' as int + n) as char
  }

  lemma DigitCharOfValue(c: char)
    requires IsDigit(c)
    ensures DigitChar(DigitValue(c)) == c
  {
  }

  // ---------------------------------------------------------------------------
  // The regular expression behind "%Y-%m-%d"

  /** A group of the pattern that matched: the number it denotes and the
      position just after it. */
  datatype Group = Group(value: int, end: nat)

  /** What the whole pattern matched: the three numbers and where the match ends. */
  datatype Fields = Fields(year: int, month: int, day: int, end: nat)

  /** `(?P<Y>\d\d\d\d)` at the start of the text, followed by the literal `-`. */
  predicate YearPrefix(s: string) {
    |s| > 4 && IsDigit(s[0]) && IsDigit(s[1]) && IsDigit(s[2]) && IsDigit(s[3]) && s[4] == '-'
  }

  function YearValue(s: string): (y: int)
    requires YearPrefix(s)
    ensures 0 <= y <= 9999
  {
    100 * (10 * DigitValue(s[0]) + DigitValue(s[1])) + (10 * DigitValue(s[2]) + DigitValue(s[3]))
  }

  /** Every way `(?P<m>1[0-2]|0[1-9]|[1-9])` matches at position `i`, in the
      order the regular-expression engine tries them. */
  function MonthCandidates(s: string, i: nat): (cs: seq<Group>) {
    (if i + 1 < |s| && s[i] == '1' && '0' <= s[i + 1] <= '2'
     then [Group(10 + DigitValue(s[i + 1]), i + 2)] else [])
    + (if i + 1 < |s| && s[i] == '0' && '1' <= s[i + 1] <= '9'
       then [Group(DigitValue(s[i + 1]), i + 2)] else [])
    + (if i < |s| && '1' <= s[i] <= '9'
       then [Group(DigitValue(s[i]), i + 1)] else [])
  }

  /** Every way `(?P<d>3[01]|[12]\d|0[1-9]|[1-9]| [1-9])` matches at position
      `i`, in the order the engine tries them. The day group ends the
      pattern, so the engine keeps the first of these. */
  function DayCandidates(s: string, i: nat): (cs: seq<Group>) {
    (if i + 1 < |s| && s[i] == '3' && '0' <= s[i + 1] <= '1'
     then [Group(30 + DigitValue(s[i + 1]), i + 2)] else [])
    + (if i + 1 < |s| && '1' <= s[i] <= '2' && IsDigit(s[i + 1])
       then [Group(10 * DigitValue(s[i]) + DigitValue(s[i + 1]), i + 2)] else [])
    + (if i + 1 < |s| && s[i] == '0' && '1' <= s[i + 1] <= '9'
       then [Group(DigitValue(s[i + 1]), i + 2)] else [])
    + (if i < |s| && '1' <= s[i] <= '9'
       then [Group(DigitValue(s[i]), i + 1)] else [])
    + (if i + 1 < |s| && s[i] == ' ' && '1' <= s[i + 1] <= '9'
       then [Group(DigitValue(s[i + 1]), i + 2)] else [])
  }

  /** Backtracking over the month alternatives `ms`: the first one that is
      followed by `-` and then by some day alternative wins, with the first
      day alternative. */
  function MatchMonthDay(s: string, y: int, ms: seq<Group>): Option<Fields>
    decreases |ms|
  {
    if ms == [] then None
    else match DayAfter(s, ms[0])
      case Some(g) => Some(Fields(y, ms[0].value, g.value, g.end))
      case None => MatchMonthDay(s, y, ms[1..])
  }

  /** The rest of the pattern after the month group `m`: the literal `-`,
      then the first day alternative. */
  function DayAfter(s: string, m: Group): Option<Group> {
    if m.end < |s| && s[m.end] == '-' && DayCandidates(s, m.end + 1) != []
    then Some(DayCandidates(s, m.end + 1)[0])
    else None
  }

  /** `re.match` of the whole pattern against `s`. */
  function MatchFormat(s: string): (r: Option<Fields>) {
    if YearPrefix(s) then MatchMonthDay(s, YearValue(s), MonthCandidates(s, 5)) else None
  }

  /** The three ways the parse raises `ValueError`. */
  datatype DateError =
    | NoMatch          // "time data ... does not match format ..."
    | UnconvertedData  // "unconverted data remains: ..."
    | OutOfRange       // raised by the date constructor: year 0, month day too large

  /** `datetime.strptime(s, "%Y-%m-%d").date()`. */
  function Strptime(s: string): (r: Result<Date, DateError>)
    ensures r.Ok? ==> ValidDate(r.value)
  {
    match MatchFormat(s)
    case None => Err(NoMatch)
    case Some(f) =>
      if f.end != |s| then Err(UnconvertedData)
      else if !ValidDate(Date(f.year, f.month, f.day)) then Err(OutOfRange)
      else Ok(Date(f.year, f.month, f.day))
  }

  // ---------------------------------------------------------------------------
  // Reference definition: the spellings of a date that the parse accepts

  /** `%m` and `%d` accept a leading zero or none; `%d` also accepts a leading space. */
  datatype MonthStyle = TwoDigitMonth | OneDigitMonth
  datatype DayStyle = TwoDigitDay | OneDigitDay | SpacePaddedDay

  /** A one-digit or space-padded spelling exists only for numbers below 10. */
  predicate StyleFits(d: Date, ms: MonthStyle, ds: DayStyle) {
    (ms == OneDigitMonth ==> d.month <= 9) && (ds != TwoDigitDay ==> d.day <= 9)
  }

  function Pad2(n: int): (t: string)
    requires 0 <= n <= 99
  {
    [DigitChar(n / 10), DigitChar(n % 10)]
  }

  function Pad4(n: int): (t: string)
    requires 0 <= n <= 9999
  {
    Pad2(n / 100) + Pad2(n % 100)
  }

  function MonthText(m: int, ms: MonthStyle): string
    requires 1 <= m <= 12 && (ms == OneDigitMonth ==> m <= 9)
  {
    match ms
    case TwoDigitMonth => Pad2(m)
    case OneDigitMonth => [DigitChar(m)]
  }

  function DayText(v: int, ds: DayStyle): string
    requires 1 <= v <= 31 && (ds != TwoDigitDay ==> v <= 9)
  {
    match ds
    case TwoDigitDay => Pad2(v)
    case OneDigitDay => [DigitChar(v)]
    case SpacePaddedDay => [' ', DigitChar(v)]
  }

  /** The text `YYYY-M-D` with the month and day spelled in the given styles. */
  function Render(d: Date, ms: MonthStyle, ds: DayStyle): (t: string)
    requires ValidDate(d) && StyleFits(d, ms, ds)
  {
    Pad4(d.year) + "-" + MonthText(d.month, ms) + "-" + DayText(d.day, ds)
  }

  /** `date.isoformat()`, the `full-date` form of section 5.6 of RFC 3339. */
  function IsoFormat(d: Date): string
    requires ValidDate(d)
  {
    Render(d, TwoDigitMonth, TwoDigitDay)
  }

  /** `s` spells the real date `d` in one of the accepted styles. */
  ghost predicate IsSpelling(s: string, d: Date) {
    ValidDate(d) && exists ms, ds :: StyleFits(d, ms, ds) && s == Render(d, ms, ds)
  }

  // ---------------------------------------------------------------------------
  // The parse accepts exactly the spellings of real dates

  /** Strptime(s) yields d exactly when s spells the real date d. */
  lemma StrptimeExact(s: string, d: Date)
    ensures Strptime(s) == Ok(d) <==> IsSpelling(s, d)
  {
    if Strptime(s) == Ok(d) {
      var ms, ds := StrptimeOnlySpellings(s);
    }
    if IsSpelling(s, d) {
      var ms, ds :| StyleFits(d, ms, ds) && s == Render(d, ms, ds);
      StrptimeAcceptsSpelling(d, ms, ds);
    }
  }

  /** The round trip: the parse reads back what `isoformat()` writes. */
  lemma IsoRoundTrip(d: Date)
    requires ValidDate(d)
    ensures Strptime(IsoFormat(d)) == Ok(d)
  {
    StrptimeAcceptsSpelling(d, TwoDigitMonth, TwoDigitDay);
  }

  /** Every spelling of a real date parses back to that date. */
  lemma StrptimeAcceptsSpelling(d: Date, ms: MonthStyle, ds: DayStyle)
    requires ValidDate(d) && StyleFits(d, ms, ds)
    ensures Strptime(Render(d, ms, ds)) == Ok(d)
  {
    var s := Render(d, ms, ds);
    var e := 5 + |MonthText(d.month, ms)|;
    RenderPieces(d, ms, ds);
    Pad4Digits(s, d.year);
    MonthTextMatches(s, 5, d.month, ms);
    DayTextMatches(s, e + 1, d.day, ds);
    var m := MonthCandidates(s, 5)[0];
    assert DayAfter(s, m) == Some(Group(d.day, |s|));
    assert MatchFormat(s) == Some(Fields(d.year, d.month, d.day, |s|));
  }

  /** Where the year, the month and the day sit in a rendered text. */
  lemma RenderPieces(d: Date, ms: MonthStyle, ds: DayStyle)
    requires ValidDate(d) && StyleFits(d, ms, ds)
    ensures var s, mt, dt := Render(d, ms, ds), MonthText(d.month, ms), DayText(d.day, ds);
      var e := 5 + |mt|;
      && |s| == e + 1 + |dt|
      && s[..4] == Pad4(d.year) && s[4] == '-'
      && s[5..e] == mt && s[e] == '-' && s[e + 1..] == dt
  {
    var s, mt, dt := Render(d, ms, ds), MonthText(d.month, ms), DayText(d.day, ds);
    var e := 5 + |mt|;
    assert s == Pad4(d.year) + "-" + mt + "-" + dt;
    assert s[..4] == Pad4(d.year);
    assert s[5..e] == mt;
    assert s[e + 1..] == dt;
  }

  /** Whatever the parse accepts is a spelling of the date it yields. */
  lemma StrptimeOnlySpellings(s: string) returns (ms: MonthStyle, ds: DayStyle)
    requires Strptime(s).Ok?
    ensures StyleFits(Strptime(s).value, ms, ds)
    ensures s == Render(Strptime(s).value, ms, ds)
  {
    var m, g := ParsedParts(s);
    var d := Strptime(s).value;
    ms := MonthCandidateText(s, 5, m);
    assert DayCandidates(s, m.end + 1)[0] == g;
    ds := DayCandidateText(s, m.end + 1);
    assert s[m.end + 1..] == s[m.end + 1..g.end];
    DigitsOfYear(s);
    Rejoin(s, m.end, Pad4(d.year), MonthText(d.month, ms), DayText(d.day, ds));
  }

  /** A text cut at its two `-` separators is the concatenation of its pieces. */
  lemma Rejoin(s: string, b: nat, y: string, mt: string, dt: string)
    requires 4 < b < |s| && s[..4] == y && s[4] == '-'
    requires s[5..b] == mt && s[b] == '-' && s[b + 1..] == dt
    ensures s == y + "-" + mt + "-" + dt
  {
    SplitAround(s, 4, b);
  }

  /** The groups of an accepted text: the month alternative chosen and the
      day alternative after it, which reaches the end of the text. */
  lemma ParsedParts(s: string) returns (m: Group, g: Group)
    requires Strptime(s).Ok?
    ensures YearPrefix(s) && m in MonthCandidates(s, 5) && DayAfter(s, m) == Some(g) && g.end == |s|
    ensures m.end < |s| && s[m.end] == '-'
    ensures Strptime(s).value == Date(YearValue(s), m.value, g.value)
  {
    m := MatchMonthDayWitness(s, YearValue(s), MonthCandidates(s, 5));
    g := DayAfter(s, m).value;
  }

  /** Cutting a sequence around two of its positions. */
  lemma SplitAround(s: string, a: nat, b: nat)
    requires a < b < |s|
    ensures s == s[..a] + [s[a]] + s[a + 1..b] + [s[b]] + s[b + 1..]
  {
  }

  lemma DivUnique(n: int, k: int, q: int, r: int)
    requires k == 10 || k == 100
    requires 0 <= r < k && n == q * k + r
    ensures n / k == q && n % k == r
  {
    if k == 10 {
      assert n == q * 10 + r;
    } else {
      assert n == q * 100 + r;
    }
  }

  // ---------------------------------------------------------------------------
  // Helpers for the two directions

  lemma Pad4Digits(s: string, y: int)
    requires 0 <= y <= 9999 && |s| > 4 && s[..4] == Pad4(y) && s[4] == '-'
    ensures YearPrefix(s) && YearValue(s) == y
  {
    var hi, lo := y / 100, y % 100;
    assert s[0] == DigitChar(hi / 10) && s[1] == DigitChar(hi % 10);
    assert s[2] == DigitChar(lo / 10) && s[3] == DigitChar(lo % 10);
  }

  lemma DigitsOfYear(s: string)
    requires YearPrefix(s)
    ensures s[..4] == Pad4(YearValue(s))
  {
    var a, b, c, e := DigitValue(s[0]), DigitValue(s[1]), DigitValue(s[2]), DigitValue(s[3]);
    var y := YearValue(s);
    DivUnique(y, 100, 10 * a + b, 10 * c + e);
    DivUnique(10 * a + b, 10, a, b);
    DivUnique(10 * c + e, 10, c, e);
    DigitCharOfValue(s[0]);
    DigitCharOfValue(s[1]);
    DigitCharOfValue(s[2]);
    DigitCharOfValue(s[3]);
  }

  /** A spelled month followed by `-` is the only month alternative that matches. */
  lemma MonthTextMatches(s: string, i: nat, m: int, ms: MonthStyle)
    requires 1 <= m <= 12 && (ms == OneDigitMonth ==> m <= 9)
    requires i + |MonthText(m, ms)| < |s|
    requires s[i..i + |MonthText(m, ms)|] == MonthText(m, ms) && s[i + |MonthText(m, ms)|] == '-'
    ensures MonthCandidates(s, i) != [] && MonthCandidates(s, i)[0] == Group(m, i + |MonthText(m, ms)|)
  {
    var mt := MonthText(m, ms);
    assert s[i] == mt[0];
    if ms == TwoDigitMonth {
      assert s[i + 1] == mt[1];
      DivUnique(m, 10, m / 10, m % 10);
    }
  }

  /** A spelled day at the end of the text: the first day alternative reads
      all of it. */
  lemma DayTextMatches(s: string, i: nat, v: int, ds: DayStyle)
    requires 1 <= v <= 31 && (ds != TwoDigitDay ==> v <= 9)
    requires i <= |s| && s[i..] == DayText(v, ds)
    ensures DayCandidates(s, i) != [] && DayCandidates(s, i)[0] == Group(v, |s|)
  {
    var dt := DayText(v, ds);
    assert s[i] == dt[0];
    if |dt| == 2 {
      assert s[i + 1] == dt[1];
    }
  }

  /** The month alternative that the backtracking search settled on. */
  lemma {:induction false} MatchMonthDayWitness(s: string, y: int, ms: seq<Group>) returns (m: Group)
    requires MatchMonthDay(s, y, ms).Some?
    ensures m in ms && DayAfter(s, m).Some?
    ensures MatchMonthDay(s, y, ms) == Some(Fields(y, m.value, DayAfter(s, m).value.value, DayAfter(s, m).value.end))
  {
    if DayAfter(s, ms[0]).Some? {
      m := ms[0];
    } else {
      m := MatchMonthDayWitness(s, y, ms[1..]);
    }
  }

  /** Each month alternative reads a spelling of the month it denotes. */
  lemma MonthCandidateText(s: string, i: nat, g: Group) returns (ms: MonthStyle)
    requires g in MonthCandidates(s, i)
    ensures 1 <= g.value <= 12 && (ms == OneDigitMonth ==> g.value <= 9)
    ensures i + |MonthText(g.value, ms)| == g.end <= |s|
    ensures s[i..g.end] == MonthText(g.value, ms)
  {
    if g.end == i + 2 {
      ms := TwoDigitMonth;
      DigitCharOfValue(s[i + 1]);
      assert s[i..g.end] == [s[i], s[i + 1]];
    } else {
      ms := OneDigitMonth;
      DigitCharOfValue(s[i]);
      assert s[i..g.end] == [s[i]];
    }
  }

  /** The first day alternative reads a spelling of the day it denotes. */
  lemma DayCandidateText(s: string, i: nat) returns (ds: DayStyle)
    requires DayCandidates(s, i) != []
    ensures var g := DayCandidates(s, i)[0];
      && 1 <= g.value <= 31 && (ds != TwoDigitDay ==> g.value <= 9)
      && i + |DayText(g.value, ds)| == g.end <= |s|
      && s[i..g.end] == DayText(g.value, ds)
  {
    var g := DayCandidates(s, i)[0];
    if g.end == i + 1 {
      ds := OneDigitDay;
      DigitCharOfValue(s[i]);
      assert s[i..g.end] == [s[i]];
    } else if s[i] == ' ' {
      ds := SpacePaddedDay;
      DigitCharOfValue(s[i + 1]);
      assert s[i..g.end] == [s[i], s[i + 1]];
    } else {
      ds := TwoDigitDay;
      DigitCharOfValue(s[i]);
      DigitCharOfValue(s[i + 1]);
      assert s[i..g.end] == [s[i], s[i + 1]];
    }
  }

  // ---------------------------------------------------------------------------
  // Examples of what the parse accepts and rejects

  lemma StrptimeAcceptsExamples()
    ensures Strptime("1990-05-10") == Ok(Date(1990, 5, 10))
    ensures Strptime("2020-02-29") == Ok(Date(2020, 2, 29))   // 2020 is a leap year
  {
    assert "1990-05-10" == Render(Date(1990, 5, 10), TwoDigitMonth, TwoDigitDay);
    StrptimeAcceptsSpelling(Date(1990, 5, 10), TwoDigitMonth, TwoDigitDay);
    assert "2020-02-29" == Render(Date(2020, 2, 29), TwoDigitMonth, TwoDigitDay);
    StrptimeAcceptsSpelling(Date(2020, 2, 29), TwoDigitMonth, TwoDigitDay);
  }

  /** Texts without the leading zeros that `isoformat()` writes. */
  lemma StrptimeAcceptsShortExamples()
    ensures Strptime("2020-5-7") == Ok(Date(2020, 5, 7))      // one-digit month and day
    ensures Strptime("2020-05- 7") == Ok(Date(2020, 5, 7))    // space-padded day
  {
    assert "2020-5-7" == Render(Date(2020, 5, 7), OneDigitMonth, OneDigitDay);
    StrptimeAcceptsSpelling(Date(2020, 5, 7), OneDigitMonth, OneDigitDay);
    assert "2020-05- 7" == Render(Date(2020, 5, 7), TwoDigitMonth, SpacePaddedDay);
    StrptimeAcceptsSpelling(Date(2020, 5, 7), TwoDigitMonth, SpacePaddedDay);
  }

  /** Texts that are not of the form at all. */
  lemma StrptimeNoMatchExamples()
    ensures Strptime("13/02/2020") == Err(NoMatch)
    ensures Strptime("not-a-date") == Err(NoMatch)
    ensures Strptime("2020-13-01") == Err(NoMatch)            // no month 13
    ensures Strptime("2020-00-10") == Err(NoMatch)            // no month 0
    ensures Strptime("20-01-01") == Err(NoMatch)              // %Y wants four digits
  {
  }

  /** Texts with something left over after the day. */
  lemma StrptimeUnconvertedExamples()
    ensures Strptime("2020-01-01x") == Err(UnconvertedData)
    ensures Strptime("2020-01-32") == Err(UnconvertedData)    // the day group reads only "3"
  {
  }

  /** Well-formed texts that name no real date: days past the end of February. */
  lemma StrptimeFebruaryExamples()
    ensures Strptime("2020-02-30") == Err(OutOfRange)
    ensures Strptime("2021-02-29") == Err(OutOfRange)         // 2021 is not a leap year
  {
  }

  /** ... a century that is not a leap year, and the year 0, which does not exist. */
  lemma StrptimeOutOfRangeExamples()
    ensures Strptime("1900-02-29") == Err(OutOfRange)
    ensures Strptime("0000-01-01") == Err(OutOfRange)
  {
  }

  // ---------------------------------------------------------------------------
  // Date order is calendar order

  function DaysInYear(y: int): int {
    if IsLeapYear(y) then 366 else 365
  }

  /** Days in the years 1 .. y - 1. */
  function DaysBeforeYear(y: int): int
    requires y >= 1
  {
    if y == 1 then 0 else DaysBeforeYear(y - 1) + DaysInYear(y - 1)
  }

  /** Days in the months 1 .. m - 1 of year y. */
  function DaysBeforeMonth(y: int, m: int): int
    requires 1 <= m <= 13
  {
    if m == 1 then 0 else DaysBeforeMonth(y, m - 1) + DaysInMonth(y, m - 1)
  }

  /** The day number of d, counting 0001-01-01 as day 1 (Python's `date.toordinal()`). */
  function Ordinal(d: Date): (n: int)
    requires ValidDate(d)
  {
    DaysBeforeYear(d.year) + DaysBeforeMonth(d.year, d.month) + d.day
  }

  /** Comparing dates as triples is comparing their day numbers: "before"
      means an earlier day of the calendar. */
  lemma BeforeIsEarlierDay(a: Date, b: Date)
    requires ValidDate(a) && ValidDate(b)
    ensures Before(a, b) <==> Ordinal(a) < Ordinal(b)
  {
    if Before(a, b) {
      OrdinalIncreasing(a, b);
    } else if a != b {
      assert Before(b, a);
      OrdinalIncreasing(b, a);
    }
  }

  lemma OrdinalIncreasing(a: Date, b: Date)
    requires ValidDate(a) && ValidDate(b) && Before(a, b)
    ensures Ordinal(a) < Ordinal(b)
  {
    OrdinalWithinYear(a);
    OrdinalWithinYear(b);
    if a.year < b.year {
      assert DaysBeforeYear(a.year + 1) == DaysBeforeYear(a.year) + DaysInYear(a.year);
      DaysBeforeYearIncreasing(a.year + 1, b.year);
    } else if a.month < b.month {
      DaysBeforeMonthIncreasing(a.year, a.month + 1, b.month);
    }
  }

  lemma OrdinalWithinYear(d: Date)
    requires ValidDate(d)
    ensures DaysBeforeYear(d.year) + DaysBeforeMonth(d.year, d.month) < Ordinal(d)
    ensures Ordinal(d) <= DaysBeforeYear(d.year) + DaysBeforeMonth(d.year, d.month + 1)
    ensures DaysBeforeMonth(d.year, d.month + 1) <= DaysInYear(d.year)
    ensures 0 <= DaysBeforeMonth(d.year, d.month)
  {
    DaysBeforeMonthIncreasing(d.year, 1, d.month);
    DaysBeforeMonthIncreasing(d.year, d.month + 1, 13);
    YearIsTwelveMonths(d.year);
  }

  lemma YearIsTwelveMonths(y: int)
    ensures DaysBeforeMonth(y, 13) == DaysInYear(y)
  {
    var leap := if IsLeapYear(y) then 1 else 0;
    assert DaysBeforeMonth(y, 2) == 31;
    assert DaysBeforeMonth(y, 3) == 59 + leap;
    assert DaysBeforeMonth(y, 4) == 90 + leap;
    assert DaysBeforeMonth(y, 5) == 120 + leap;
    assert DaysBeforeMonth(y, 6) == 151 + leap;
    assert DaysBeforeMonth(y, 7) == 181 + leap;
    assert DaysBeforeMonth(y, 8) == 212 + leap;
    assert DaysBeforeMonth(y, 9) == 243 + leap;
    assert DaysBeforeMonth(y, 10) == 273 + leap;
    assert DaysBeforeMonth(y, 11) == 304 + leap;
    assert DaysBeforeMonth(y, 12) == 334 + leap;
  }

  lemma {:induction false} DaysBeforeYearIncreasing(y1: int, y2: int)
    requires 1 <= y1 <= y2
    ensures DaysBeforeYear(y1) <= DaysBeforeYear(y2)
  {
    if y1 < y2 {
      DaysBeforeYearIncreasing(y1, y2 - 1);
    }
  }

  lemma {:induction false} DaysBeforeMonthIncreasing(y: int, m1: int, m2: int)
    requires 1 <= m1 <= m2 <= 13
    ensures DaysBeforeMonth(y, m1) <= DaysBeforeMonth(y, m2)
  {
    if m1 < m2 {
      DaysBeforeMonthIncreasing(y, m1, m2 - 1);
    }
  }
}
