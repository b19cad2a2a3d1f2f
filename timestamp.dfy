/** `parse_updated` (invasive_utils.py), which normalises the `LAST_UPDATE`
    attribute of a Forest Service record to a `YYYY-MM-DD` string, or to
    `''` when there is no usable date. Epoch values are turned into civil
    dates with day arithmetic; pandas' generic date-string parser is a
    parameter. */
module Timestamp {
  import opened Wrappers
  import opened Json
  import opened PyStr
  import opened Decimal

  // ---------------------------------------------------------------------
  // Civil dates of the proleptic Gregorian calendar

  datatype Date = Date(year: nat, month: nat, day: nat)

  predicate IsLeap(y: nat)
  {
    y % 4 == 0 && (y % 100 != 0 || y % 400 == 0)
  }

  function DaysInYear(y: nat): nat
  {
    if IsLeap(y) then 366 else 365
  }

  /** Days of the year `y` before the first of month `m` (`m` = 13 gives
      the whole year). */
  function DaysBeforeMonth(y: nat, m: nat): (n: nat)
    requires 1 <= m <= 13
    ensures m == 13 ==> n == DaysInYear(y)
  {
    var leap := if IsLeap(y) && m > 2 then 1 else 0;
    leap + (if m == 1 then 0 else if m == 2 then 31 else if m == 3 then 59
      else if m == 4 then 90 else if m == 5 then 120 else if m == 6 then 151
      else if m == 7 then 181 else if m == 8 then 212 else if m == 9 then 243
      else if m == 10 then 273 else if m == 11 then 304 else if m == 12 then 334
      else 365)
  }

  function DaysInMonth(y: nat, m: nat): (n: nat)
    requires 1 <= m <= 12
    ensures 28 <= n <= 31
  {
    DaysBeforeMonth(y, m + 1) - DaysBeforeMonth(y, m)
  }

  predicate ValidDate(d: Date)
  {
    1 <= d.month <= 12 && 1 <= d.day <= DaysInMonth(d.year, d.month)
  }

  /** Leap years from year 1 to year `y`. */
  function Leaps(y: nat): nat
  {
    y / 4 - y / 100 + y / 400
  }

  lemma LeapStep(y: nat)
    requires y >= 1
    ensures Leaps(y) == Leaps(y - 1) + (if IsLeap(y) then 1 else 0)
  {
    DivStep4(y);
    DivStep100(y);
    DivStep400(y);
  }

  lemma DivStep4(y: nat)
    requires y >= 1
    ensures y / 4 == (y - 1) / 4 + (if y % 4 == 0 then 1 else 0)
  {
  }

  lemma DivStep100(y: nat)
    requires y >= 1
    ensures y / 100 == (y - 1) / 100 + (if y % 100 == 0 then 1 else 0)
    ensures y % 100 == 0 ==> y % 4 == 0
  {
  }

  lemma DivStep400(y: nat)
    requires y >= 1
    ensures y / 400 == (y - 1) / 400 + (if y % 400 == 0 then 1 else 0)
    ensures y % 400 == 0 ==> y % 100 == 0
  {
  }

  /** Days from 1970-01-01 to the first of January of `y`: 365 a year and
      one more per leap year. */
  function DaysBeforeYear(y: nat): int
    requires y >= 1970
  {
    365 * (y - 1970) + Leaps(y - 1) - Leaps(1969)
  }

  /** Each year adds its own length. */
  lemma DaysBeforeYearStep(y: nat)
    requires y >= 1970
    ensures DaysBeforeYear(y + 1) == DaysBeforeYear(y) + DaysInYear(y)
  {
    LeapStep(y);
  }

  /** Days from 1970-01-01 to `d`. */
  function DaysSinceEpoch(d: Date): int
    requires ValidDate(d) && d.year >= 1970
  {
    DaysBeforeYear(d.year) + DaysBeforeMonth(d.year, d.month) + d.day - 1
  }

  /** The year holding day `z` counted from the start of year `y`, and the
      day's index within that year. */
  function YearOf(z: nat, y: nat): (r: (nat, nat))
    requires y >= 1970
    ensures r.0 >= y && r.1 < DaysInYear(r.0)
    ensures DaysBeforeYear(r.0) + r.1 == DaysBeforeYear(y) + z
    decreases z
  {
    if z < DaysInYear(y) then (y, z)
    else
      DaysBeforeYearStep(y);
      YearOf(z - DaysInYear(y), y + 1)
  }

  /** The month holding day `doy` of year `y`, and the day's index within
      that month. */
  function MonthOf(y: nat, doy: nat): (r: (nat, nat))
    requires doy < DaysInYear(y)
    ensures 1 <= r.0 <= 12 && r.1 < DaysInMonth(y, r.0)
    ensures DaysBeforeMonth(y, r.0) + r.1 == doy
  {
    var m := if doy < DaysBeforeMonth(y, 2) then 1 else if doy < DaysBeforeMonth(y, 3) then 2
      else if doy < DaysBeforeMonth(y, 4) then 3 else if doy < DaysBeforeMonth(y, 5) then 4
      else if doy < DaysBeforeMonth(y, 6) then 5 else if doy < DaysBeforeMonth(y, 7) then 6
      else if doy < DaysBeforeMonth(y, 8) then 7 else if doy < DaysBeforeMonth(y, 9) then 8
      else if doy < DaysBeforeMonth(y, 10) then 9 else if doy < DaysBeforeMonth(y, 11) then 10
      else if doy < DaysBeforeMonth(y, 12) then 11 else 12;
    (m, doy - DaysBeforeMonth(y, m))
  }

  /** The civil date `z` days after 1970-01-01. */
  function FromDays(z: nat): (d: Date)
    ensures ValidDate(d) && d.year >= 1970
    ensures DaysSinceEpoch(d) == z
  {
    var (y, doy) := YearOf(z, 1970);
    var (m, dd) := MonthOf(y, doy);
    Date(y, m, dd + 1)
  }

  lemma {:induction false} DaysBeforeYearMonotone(a: nat, b: nat)
    requires 1970 <= a <= b
    ensures DaysBeforeYear(a) + (b - a) * 365 <= DaysBeforeYear(b)
    decreases b
  {
    if a < b {
      DaysBeforeYearMonotone(a, b - 1);
      DaysBeforeYearStep(b - 1);
    }
  }

  /** Two dates on the same day count are the same date. */
  lemma DateUnique(d1: Date, d2: Date)
    requires ValidDate(d1) && d1.year >= 1970 && ValidDate(d2) && d2.year >= 1970
    requires DaysSinceEpoch(d1) == DaysSinceEpoch(d2)
    ensures d1 == d2
  {
    if d1.year < d2.year {
      EarlierYear(d1, d2);
    } else if d2.year < d1.year {
      EarlierYear(d2, d1);
    } else if d1.month < d2.month {
      EarlierMonth(d1, d2);
    } else if d2.month < d1.month {
      EarlierMonth(d2, d1);
    }
  }

  /** A valid date's index within its year is below the year's length. */
  lemma DayOfYearBound(d: Date)
    requires ValidDate(d)
    ensures DaysBeforeMonth(d.year, d.month) + d.day - 1 < DaysInYear(d.year)
  {
  }

  lemma DaysBeforeMonthMonotone(y: nat, a: nat, b: nat)
    requires 1 <= a <= b <= 13
    ensures DaysBeforeMonth(y, a) <= DaysBeforeMonth(y, b)
  {
  }

  lemma EarlierYear(d1: Date, d2: Date)
    requires ValidDate(d1) && ValidDate(d2) && 1970 <= d1.year < d2.year
    ensures DaysSinceEpoch(d1) < DaysSinceEpoch(d2)
  {
    DayOfYearBound(d1);
    DaysBeforeYearStep(d1.year);
    DaysBeforeYearMonotone(d1.year + 1, d2.year);
  }

  lemma EarlierMonth(d1: Date, d2: Date)
    requires ValidDate(d1) && ValidDate(d2) && 1970 <= d1.year == d2.year && d1.month < d2.month
    ensures DaysSinceEpoch(d1) < DaysSinceEpoch(d2)
  {
    DaysBeforeMonthMonotone(d1.year, d1.month + 1, d2.month);
  }

  /** Counting days and converting back gives the date again, so
      `FromDays` and `DaysSinceEpoch` are inverse bijections. */
  lemma FromDaysOf(d: Date)
    requires ValidDate(d) && d.year >= 1970
    ensures FromDays(DaysSinceEpoch(d)) == d
  {
    DateUnique(FromDays(DaysSinceEpoch(d)), d);
  }

  /** The date `z` days after 1970-01-01 lies at most `z / 365` years
      after 1970. */
  lemma FromDaysYearBound(z: nat)
    ensures FromDays(z).year <= 1970 + z / 365
  {
    var d := FromDays(z);
    DaysBeforeYearMonotone(1970, d.year);
  }

  // ---------------------------------------------------------------------
  // `dt.strftime('%Y-%m-%d')`

  function Format(d: Date): (s: string)
    ensures d.year < 10000 && d.month < 100 && d.day < 100 ==> IsIsoDate(s)
  {
    var s := PadNat(d.year, 4) + "-" + PadNat(d.month, 2) + "-" + PadNat(d.day, 2);
    if d.year < 10000 && d.month < 100 && d.day < 100 then
      assert Pow10(4) == 10000 && Pow10(2) == 100;
      PadNatWidth(d.year, 4);
      PadNatWidth(d.month, 2);
      PadNatWidth(d.day, 2);
      IsoOfParts(PadNat(d.year, 4), PadNat(d.month, 2), PadNat(d.day, 2));
      s
    else s
  }

  /** Four digits, two digits and two digits, joined by '-'. */
  lemma IsoOfParts(y: string, m: string, d: string)
    requires |y| == 4 && |m| == 2 && |d| == 2 && AllDigits(y) && AllDigits(m) && AllDigits(d)
    ensures IsIsoDate(y + "-" + m + "-" + d)
  {
    var s := y + "-" + m + "-" + d;
    assert s[..4] == y && s[5..7] == m && s[8..] == d;
  }

  /** Ten characters: four digits, '-', two digits, '-', two digits. */
  predicate IsIsoDate(s: string)
  {
    |s| == 10 && s[4] == '-' && s[7] == '-'
    && AllDigits(s[..4]) && AllDigits(s[5..7]) && AllDigits(s[8..])
  }

  function ReadIsoDate(s: string): Date
    requires IsIsoDate(s)
  {
    Date(DigitsValue(s[..4]), DigitsValue(s[5..7]), DigitsValue(s[8..]))
  }

  /** The formatted date reads back as the date, so different dates are
      formatted differently. */
  lemma FormatRoundTrip(d: Date)
    requires d.year < 10000 && d.month < 100 && d.day < 100
    ensures ReadIsoDate(Format(d)) == d
  {
    PadNatWidth(d.year, 4);
    PadNatWidth(d.month, 2);
    PadNatWidth(d.day, 2);
    var s := Format(d);
    assert s[..4] == PadNat(d.year, 4);
    assert s[5..7] == PadNat(d.month, 2);
    assert s[8..] == PadNat(d.day, 2);
  }

  // ---------------------------------------------------------------------
  // Python's `float(s)`

  datatype FloatVal = Finite(v: real) | Inf(negative: bool) | NaN

  /** The length of the longest all-digit prefix of `s`. */
  function LeadingDigits(s: string): (k: nat)
    ensures k <= |s| && AllDigits(s[..k])
    ensures k < |s| ==> !IsDigit(s[k])
  {
    if s == [] || !IsDigit(s[0]) then 0
    else
      var k := 1 + LeadingDigits(s[1..]);
      assert s[..k] == [s[0]] + s[1..][..k - 1];
      k
  }

  /** The index of the first character of `s` in `cs`, or `|s|`. */
  function FirstOf(s: string, cs: set<char>): (i: nat)
    ensures i <= |s| && (i < |s| ==> s[i] in cs)
    ensures forall j :: 0 <= j < i ==> s[j] !in cs
  {
    if s == [] then 0 else if s[0] in cs then 0 else 1 + FirstOf(s[1..], cs)
  }

  /** Ten to the integer power `k`. */
  function Scale(k: int): (r: real)
    ensures r > 0 as real
  {
    if k >= 0 then Pow10(k) as real else 1 as real / Pow10(-k) as real
  }

  /** Whether `s` starts with a minus sign. */
  predicate Negative(s: string)
  {
    s != [] && s[0] == '-'
  }

  /** `s` without its leading sign, if any. */
  function Unsigned(s: string): (body: string)
    ensures s == [] || (s[0] != '+' && s[0] != '-') ==> body == s
    ensures s != [] && (s[0] == '+' || s[0] == '-') ==> body == s[1..]
  {
    if s != [] && (s[0] == '+' || s[0] == '-') then s[1..] else s
  }

  /** An optionally signed run of at least one digit. */
  function ExponentLit(s: string): (e: Option<int>)
  {
    var body := Unsigned(s);
    if body != [] && AllDigits(body) then
      var k: int := DigitsValue(body);
      Some(if Negative(s) then -k else k)
    else None
  }

  /** An unsigned decimal literal: digits with an optional fraction and an
      optional exponent, with a digit before or after the point. */
  function DecimalLit(s: string): (v: Option<real>)
    ensures v.Some? ==> v.value >= 0 as real
  {
    var e := FirstOf(s, {'e', 'E'});
    var mantissa := s[..e];
    var exponent := if e < |s| then ExponentLit(s[e + 1..]) else Some(0);
    var p := FirstOf(mantissa, {'.'});
    var whole := mantissa[..p];
    var fraction := if p < |mantissa| then mantissa[p + 1..] else "";
    if exponent.Some? && AllDigits(whole) && AllDigits(fraction) && (whole != [] || fraction != []) then
      var m := DigitsValue(whole + fraction);
      var k := Scale(exponent.value - |fraction|);
      ScaledNonNegative(m, k);
      Some(m as real * k)
    else None
  }

  lemma ScaledNonNegative(m: nat, k: real)
    requires k > 0 as real
    ensures m as real * k >= 0 as real
  {
  }

  /** The words `inf`, `infinity` and `nan`, in any case. */
  function SpecialLit(body: string, negative: bool): (f: Option<FloatVal>)
    ensures body != [] && IsDigit(body[0]) ==> f.None?
  {
    var low := Lower(body);
    if body != [] && IsDigit(body[0]) then
      assert low[0] == body[0];
      None
    else if low == "inf" || low == "infinity" then Some(Inf(negative))
    else if low == "nan" then Some(NaN)
    else None
  }

  /** `float(s)` on a string without surrounding whitespace; `None` stands
      for the `ValueError` it raises. */
  function FloatLit(s: string): (f: Option<FloatVal>)
  {
    var body := Unsigned(s);
    var special := SpecialLit(body, Negative(s));
    if special.Some? then special
    else match DecimalLit(body)
      case Some(v) => Some(Finite(if Negative(s) then -v else v))
      case None => None
  }

  /** A run of digits is read as the integer it spells. */
  lemma DecimalLitDigits(s: string)
    requires s != [] && AllDigits(s)
    ensures DecimalLit(s) == Some(DigitsValue(s) as real)
  {
    FirstOfNone(s, {'e', 'E'});
    assert s[..|s|] == s;
    FirstOfNone(s, {'.'});
    assert s + "" == s;
    ScaleZero(DigitsValue(s));
  }

  lemma ScaleZero(n: nat)
    ensures n as real * Scale(0) == n as real
  {
    assert Scale(0) == 1 as real;
  }

  lemma FirstOfNone(s: string, cs: set<char>)
    requires forall j :: 0 <= j < |s| ==> s[j] !in cs
    ensures FirstOf(s, cs) == |s|
  {
  }

  /** A decimal integer reads back as itself. */
  lemma FloatLitOfNat(n: nat)
    ensures FloatLit(ShowNat(n)) == Some(Finite(n as real))
  {
    var s := ShowNat(n);
    assert IsDigit(s[0]);
    DecimalLitDigits(s);
    ShowNatRoundTrip(n);
  }

  lemma FloatLitOfInt(i: int)
    ensures FloatLit(ShowInt(i)) == Some(Finite(i as real))
  {
    if i < 0 {
      var s := ShowInt(i);
      var t := ShowNat(-i);
      assert Unsigned(s) == t;
      assert IsDigit(t[0]);
      DecimalLitDigits(t);
      ShowNatRoundTrip(-i);
    } else {
      FloatLitOfNat(i);
    }
  }

  // ---------------------------------------------------------------------
  // `parse_updated`

  /** What the model takes from pandas and Python as given: the generic
      `pd.to_datetime(s, errors='coerce')` of a string (`None` for NaT),
      and `str(f)` of a float. */
  datatype Lib = Lib(generic: string -> Option<Date>, floatRepr: real -> string)

  /** A pandas timestamp is a valid date between 1677 and 2262. */
  ghost predicate LibValid(lib: Lib)
  {
    forall s :: lib.generic(s).Some? ==> ValidDate(lib.generic(s).value) && 1677 <= lib.generic(s).value.year <= 2262
  }

  /** The strings `parse_updated` treats as "no date" once trimmed. */
  const Sentinels: set<string> := {"0", "0.0", "NaT", "None", "nan", "null"}

  /** The largest nanosecond count a pandas timestamp holds. */
  const Int64Max: int := 9223372036854775807

  function GenericDate(lib: Lib, s: string): (r: string)
  {
    match lib.generic(s)
    case Some(d) => Format(d)
    case None => ""
  }

  /** `re.match(r"Date\((\d+)\)", s)`: a string that starts with `Date(`,
      digits and `)` becomes the digits' value as `str(int(...))`. */
  function UnwrapDate(s: string): (r: string)
  {
    if StartsWith(s, "Date(") then
      var t := s[5..];
      var k := LeadingDigits(t);
      if k > 0 && k < |t| && t[k] == ')' then ShowNat(DigitsValue(t[..k])) else s
    else s
  }

  /** The `try` block: numbers above 10^11 are epoch milliseconds, above
      10^9 epoch seconds; anything else goes to the generic parser. A
      count of nanoseconds beyond the int64 range is NaT. */
  function Classify(v: real, sval: string, lib: Lib): (r: string)
  {
    if v > 100000000000 as real then
      var ms: nat := v.Floor;
      if ms * 1000000 > Int64Max then "" else Format(FromDays(ms / 86400000))
    else if v > 1000000000 as real then
      var s: nat := v.Floor;
      if s * 1000000000 > Int64Max then "" else Format(FromDays(s / 86400))
    else GenericDate(lib, sval)
  }

  /** The number test of the `try` block on the trimmed, unwrapped text:
      a number that `float` reads goes to `Classify`; positive infinity is
      beyond every timestamp; the rest goes to the generic parser. */
  function ParseNumber(sval: string, lib: Lib): (r: string)
  {
    match FloatLit(sval)
    case Some(Finite(v)) => Classify(v, sval, lib)
    case Some(Inf(negative)) => if negative then GenericDate(lib, sval) else ""
    case Some(NaN) => GenericDate(lib, sval)
    case None => GenericDate(lib, sval)
  }

  /** Everything after the `isna` and `== ''` tests, on `str(val)`. */
  function ParseText(text: string, lib: Lib): (r: string)
    ensures Strip(text) in Sentinels ==> r == ""
  {
    var t := Strip(text);
    if t in Sentinels then "" else ParseNumber(UnwrapDate(t), lib)
  }

  /** `parse_updated(val)`, where `str` of an integer is its decimal text
      and `str` of a float is `lib.floatRepr`. */
  function ParseUpdated(val: Scalar, lib: Lib): (r: string)
    ensures val.Null? ==> r == ""
    ensures val.Str? && (val.s == "" || Strip(val.s) in Sentinels) ==> r == ""
  {
    match val
    case Null => ""
    case Str(s) => if s == "" then "" else ParseText(s, lib)
    case Int(i) => ParseText(ShowInt(i), lib)
    case Float(f) => ParseText(lib.floatRepr(f), lib)
    case Bool(b) => ParseText(if b then "True" else "False", lib)
  }

  lemma GenericDateShape(lib: Lib, s: string)
    requires LibValid(lib)
    ensures var r := GenericDate(lib, s); r == "" || IsIsoDate(r)
  {
  }

  /** The epoch paths give dates no later than 2262. */
  lemma ClassifyShape(v: real, sval: string, lib: Lib)
    requires LibValid(lib)
    ensures var r := Classify(v, sval, lib); r == "" || IsIsoDate(r)
  {
    if v > 100000000000 as real {
      var ms: nat := v.Floor;
      FromDaysYearBound(ms / 86400000);
    } else if v > 1000000000 as real {
      var s: nat := v.Floor;
      FromDaysYearBound(s / 86400);
    }
  }

  lemma ParseNumberShape(sval: string, lib: Lib)
    requires LibValid(lib)
    ensures var r := ParseNumber(sval, lib); r == "" || IsIsoDate(r)
  {
    match FloatLit(sval)
    case Some(Finite(v)) =>
      assert ParseNumber(sval, lib) == Classify(v, sval, lib);
      ClassifyShape(v, sval, lib);
    case _ =>
      GenericDateShape(lib, sval);
  }

  lemma ParseTextShape(text: string, lib: Lib)
    requires LibValid(lib)
    ensures var r := ParseText(text, lib); r == "" || IsIsoDate(r)
  {
    ParseNumberShape(UnwrapDate(Strip(text)), lib);
  }

  /** Every result is `''` or a `YYYY-MM-DD` date. */
  lemma ParseUpdatedShape(val: Scalar, lib: Lib)
    requires LibValid(lib)
    ensures var r := ParseUpdated(val, lib); r == "" || IsIsoDate(r)
  {
    match val
    case Str(s) => ParseTextShape(s, lib);
    case Int(i) => ParseTextShape(ShowInt(i), lib);
    case Float(f) => ParseTextShape(lib.floatRepr(f), lib);
    case Bool(b) => ParseTextShape(if b then "True" else "False", lib);
    case Null =>
  }

  /** The decimal text of a non-zero integer is none of the sentinels. */
  lemma NotSentinel(i: int)
    requires i != 0
    ensures ShowInt(i) !in Sentinels
  {
    var s := ShowInt(i);
    if i > 0 && |s| == 1 {
      ShowNatRoundTrip(i);
      assert s != "0";
    } else if i > 0 {
      assert IsDigit(s[1]);
    } else {
      assert s[0] == '-';
    }
  }

  /** An integer is read as its own value: 0 is a sentinel, and any other
      integer goes to `Classify` with its decimal text. */
  lemma IntValue(i: int, lib: Lib)
    ensures ParseUpdated(Int(i), lib) == if i == 0 then "" else Classify(i as real, ShowInt(i), lib)
  {
    var s := ShowInt(i);
    assert IsDigit(ShowNat(if i < 0 then -i else i)[0]);
    StripNoSpace(s);
    if i == 0 {
      assert s == "0";
    } else {
      NotSentinel(i);
      assert !StartsWith(s, "Date(") by {
        assert s[0] != 'D';
      }
      FloatLitOfInt(i);
    }
  }

  /** An integer above 10^11 is a count of milliseconds since 1970-01-01;
      past the last pandas timestamp it gives `''`. */
  lemma EpochMillis(i: int, lib: Lib)
    requires i > 100000000000
    ensures i * 1000000 <= Int64Max ==> ParseUpdated(Int(i), lib) == Format(FromDays(i / 86400000))
    ensures i * 1000000 > Int64Max ==> ParseUpdated(Int(i), lib) == ""
  {
    IntValue(i, lib);
    assert (i as real).Floor == i;
  }

  /** An integer above 10^9 and up to 10^11 is a count of seconds since
      1970-01-01; past the last pandas timestamp it gives `''`. */
  lemma EpochSeconds(i: int, lib: Lib)
    requires 1000000000 < i <= 100000000000
    ensures i * 1000000000 <= Int64Max ==> ParseUpdated(Int(i), lib) == Format(FromDays(i / 86400))
    ensures i * 1000000000 > Int64Max ==> ParseUpdated(Int(i), lib) == ""
  {
    IntValue(i, lib);
    assert (i as real).Floor == i;
  }

  /** Any other non-zero integer goes to the generic parser as its
      decimal text. */
  lemma SmallIntsGeneric(i: int, lib: Lib)
    requires i != 0 && i <= 1000000000
    ensures ParseUpdated(Int(i), lib) == GenericDate(lib, ShowInt(i))
  {
    IntValue(i, lib);
  }

  /** An integer and its decimal text give the same result. */
  lemma IntTextAgrees(i: int, lib: Lib)
    ensures ParseUpdated(Str(ShowInt(i)), lib) == ParseUpdated(Int(i), lib)
  {
    var s := ShowInt(i);
    assert s != "";
    UpdatedOfText(s, lib);
  }

  /** `UnwrapDate` on `Date(<digits>)` followed by anything. */
  lemma UnwrapDateOf(ds: string, rest: string)
    requires ds != [] && AllDigits(ds)
    ensures UnwrapDate("Date(" + ds + ")" + rest) == ShowNat(DigitsValue(ds))
  {
    var s := "Date(" + ds + ")" + rest;
    var tail := ")" + rest;
    assert s == "Date(" + (ds + tail);
    assert s[..5] == "Date(";
    assert s[5..] == ds + tail;
    LeadingDigitsOf(ds, tail);
    assert (ds + tail)[..|ds|] == ds;
  }

  /** The digit run of a string stops where its digits stop. */
  lemma {:induction false} LeadingDigitsOf(ds: string, tail: string)
    requires AllDigits(ds) && tail != [] && !IsDigit(tail[0])
    ensures LeadingDigits(ds + tail) == |ds|
  {
    if ds != [] {
      assert (ds + tail)[1..] == ds[1..] + tail;
      LeadingDigitsOf(ds[1..], tail);
    }
  }

  /** A string with nothing to trim that is not a sentinel goes straight
      to the `Date(...)` unwrapping and the number test. */
  lemma TrimmedText(s: string, lib: Lib)
    requires s != [] && !IsSpace(s[0]) && !IsSpace(s[|s| - 1]) && s !in Sentinels
    ensures ParseUpdated(Str(s), lib) == ParseNumber(UnwrapDate(s), lib)
  {
    StripNoSpace(s);
    TextOfTrimmed(s, lib);
    UpdatedOfText(s, lib);
  }

  lemma TextOfTrimmed(s: string, lib: Lib)
    requires Strip(s) == s && s !in Sentinels
    ensures ParseText(s, lib) == ParseNumber(UnwrapDate(s), lib)
  {
  }

  /** A non-empty string cell goes to the text path. */
  lemma UpdatedOfText(s: string, lib: Lib)
    requires s != []
    ensures ParseUpdated(Str(s), lib) == ParseText(s, lib)
  {
  }

  /** A decimal natural number goes to `Classify` with its value. */
  lemma NumberOfNat(n: nat, lib: Lib)
    ensures ParseNumber(ShowNat(n), lib) == Classify(n as real, ShowNat(n), lib)
  {
    FloatLitOfNat(n);
  }

  /** `Date(<digits>)` at the start of the value stands for the number, with
      whatever follows it ignored; but `Date(0)` is not a sentinel, since the
      sentinels are checked before the wrapper is removed. */
  lemma DateWrapper(ds: string, rest: string, lib: Lib)
    requires ds != [] && AllDigits(ds)
    requires rest == [] || !IsSpace(rest[|rest| - 1])
    ensures var n := DigitsValue(ds);
      ParseUpdated(Str("Date(" + ds + ")" + rest), lib) ==
        if n == 0 then GenericDate(lib, "0") else ParseUpdated(Int(n), lib)
  {
    var s := "Date(" + ds + ")" + rest;
    var n := DigitsValue(ds);
    assert s[0] == 'D';
    assert s[|s| - 1] == (if rest == [] then ')' else rest[|rest| - 1]);
    assert s !in Sentinels by {
      assert s[0] == 'D';
    }
    TrimmedText(s, lib);
    UnwrapDateOf(ds, rest);
    NumberOfNat(n, lib);
    IntValue(n, lib);
    if n == 0 {
      assert ShowNat(0) == "0";
    }
  }

  lemma FormatExample2021()
    ensures Format(Date(2021, 1, 1)) == "2021-01-01"
  {
    assert ShowNat(2021) == "2021";
    assert PadNat(1, 2) == "01";
  }

  /** The record of the end-to-end example: 1609459200000 ms is
      2021-01-01. */
  lemma Example2021(lib: Lib)
    ensures ParseUpdated(Int(1609459200000), lib) == "2021-01-01"
  {
    EpochMillis(1609459200000, lib);
    Quotient2021();
    DaysExample2021();
    FormatExample2021();
  }

  lemma Quotient2021()
    ensures FromDays(1609459200000 / 86400000) == FromDays(18628)
  {
    assert 1609459200000 / 86400000 == 18628;
  }

  lemma DaysExample2021()
    ensures FromDays(18628) == Date(2021, 1, 1)
  {
    EpochDays2021();
    FromDaysOf(Date(2021, 1, 1));
  }

  lemma EpochDays2021()
    ensures ValidDate(Date(2021, 1, 1)) && DaysSinceEpoch(Date(2021, 1, 1)) == 18628
  {
    assert !IsLeap(2021);
    assert DaysBeforeYear(2021) == 18628;
    assert DaysBeforeMonth(2021, 1) == 0;
  }

  lemma FormatExample1973()
    ensures Format(Date(1973, 3, 3)) == "1973-03-03"
  {
    assert ShowNat(1973) == "1973";
    assert PadNat(3, 2) == "03";
  }

  /** There is no guard against early years: 10^11 + 1 ms is in 1973. */
  lemma Example1973(lib: Lib)
    ensures ParseUpdated(Int(100000000001), lib) == "1973-03-03"
  {
    EpochMillis(100000000001, lib);
    Quotient1973();
    DaysExample1973();
    FormatExample1973();
  }

  lemma Quotient1973()
    ensures FromDays(100000000001 / 86400000) == FromDays(1157)
  {
    assert 100000000001 / 86400000 == 1157;
  }

  lemma DaysExample1973()
    ensures FromDays(1157) == Date(1973, 3, 3)
  {
    EpochDays1973();
    FromDaysOf(Date(1973, 3, 3));
  }

  lemma EpochDays1973()
    ensures ValidDate(Date(1973, 3, 3)) && DaysSinceEpoch(Date(1973, 3, 3)) == 1157
  {
    assert !IsLeap(1973);
    assert DaysBeforeYear(1973) == 1096;
    assert DaysBeforeMonth(1973, 3) == 59;
  }
}
