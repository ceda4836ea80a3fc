/** Date-times as the kiosk reads and writes them. The forms post ISO 8601
    text; the handlers parse it with datetime.fromisoformat, compare and add
    naive date-times, and store `isoformat()` text whose string order the
    database queries rely on. Here a date-time is a record of its fields, an
    instant is a count of seconds, and ToSeconds is Python's proleptic
    Gregorian ordinal scaled to seconds. */
module Clock {
  import opened Common

  datatype DateTime = DateTime(year: int, month: int, day: int, hour: int, minute: int, second: int)

  const SecondsPerDay := 86400

  predicate IsLeap(y: int) {
    y % 4 == 0 && (y % 100 != 0 || y % 400 == 0)
  }

  function DaysInYear(y: int): int {
    if IsLeap(y) then 366 else 365
  }

  function DaysInMonth(y: int, m: int): (n: int)
    requires 1 <= m <= 12
    ensures 28 <= n <= 31
  {
    if m == 2 then (if IsLeap(y) then 29 else 28)
    else if m == 4 || m == 6 || m == 9 || m == 11 then 30
    else 31
  }

  /** The date-times Python's datetime accepts (without microseconds, which
      the kiosk always drops). */
  predicate Valid(dt: DateTime) {
    && 1 <= dt.year <= 9999
    && 1 <= dt.month <= 12
    && 1 <= dt.day <= DaysInMonth(dt.year, dt.month)
    && 0 <= dt.hour < 24
    && 0 <= dt.minute < 60
    && 0 <= dt.second < 60
  }

  /** Days before January 1st of year `y`, counting from 0001-01-01. */
  function DaysBeforeYear(y: int): int
    requires y >= 1
  {
    var p := y - 1;
    p * 365 + p / 4 - p / 100 + p / 400
  }

  /** Days of year `y` before the first of month `m`. */
  function DaysBeforeMonth(y: int, m: int): int
    requires 1 <= m <= 12
  {
    var cumulative := [0, 31, 59, 90, 120, 151, 181, 212, 243, 273, 304, 334];
    cumulative[m - 1] + (if m > 2 && IsLeap(y) then 1 else 0)
  }

  /** Python's date.toordinal(): 0001-01-01 is day 1. */
  function Ordinal(dt: DateTime): int
    requires Valid(dt)
  {
    DaysBeforeYear(dt.year) + DaysBeforeMonth(dt.year, dt.month) + dt.day
  }

  /** The instant a naive date-time denotes, in seconds. Adding a timedelta of
      `d` days to a date-time adds `d * SecondsPerDay` to this number. */
  function ToSeconds(dt: DateTime): int
    requires Valid(dt)
  {
    Ordinal(dt) * SecondsPerDay + dt.hour * 3600 + dt.minute * 60 + dt.second
  }

  /** Python's comparison of two naive date-times: field by field. */
  predicate Before(a: DateTime, b: DateTime) {
    || a.year < b.year
    || (a.year == b.year && a.month < b.month)
    || (a.year == b.year && a.month == b.month && a.day < b.day)
    || (a.year == b.year && a.month == b.month && a.day == b.day && a.hour < b.hour)
    || (a.year == b.year && a.month == b.month && a.day == b.day && a.hour == b.hour
        && a.minute < b.minute)
    || (a.year == b.year && a.month == b.month && a.day == b.day && a.hour == b.hour
        && a.minute == b.minute && a.second < b.second)
  }

  lemma MonthFollows(y: int, m: int)
    requires 1 <= m < 12
    ensures DaysBeforeMonth(y, m + 1) == DaysBeforeMonth(y, m) + DaysInMonth(y, m)
  {
  }

  lemma {:induction false} MonthsInOrder(y: int, m1: int, m2: int)
    requires 1 <= m1 < m2 <= 12
    ensures DaysBeforeMonth(y, m1) + DaysInMonth(y, m1) <= DaysBeforeMonth(y, m2)
    decreases m2 - m1
  {
    MonthFollows(y, m1);
    if m1 + 1 < m2 {
      MonthsInOrder(y, m1 + 1, m2);
    }
  }

  lemma LastMonthEndsYear(y: int)
    ensures DaysBeforeMonth(y, 12) + DaysInMonth(y, 12) == DaysInYear(y)
  {
  }

  lemma YearFollows(y: int)
    requires y >= 1
    ensures DaysBeforeYear(y + 1) == DaysBeforeYear(y) + DaysInYear(y)
  {
    var p := y - 1;
    assert y / 4 - p / 4 == (if y % 4 == 0 then 1 else 0);
    assert y / 100 - p / 100 == (if y % 100 == 0 then 1 else 0);
    assert y / 400 - p / 400 == (if y % 400 == 0 then 1 else 0);
  }

  lemma {:induction false} YearsInOrder(y1: int, y2: int)
    requires 1 <= y1 < y2
    ensures DaysBeforeYear(y1) + DaysInYear(y1) <= DaysBeforeYear(y2)
    decreases y2 - y1
  {
    YearFollows(y1);
    if y1 + 1 < y2 {
      YearsInOrder(y1 + 1, y2);
      YearFollows(y1 + 1);
    }
  }

  /** A date falls inside its own year's range of ordinals. */
  lemma OrdinalWithinYear(dt: DateTime)
    requires Valid(dt)
    ensures DaysBeforeYear(dt.year) < Ordinal(dt) <= DaysBeforeYear(dt.year) + DaysInYear(dt.year)
  {
    if dt.month < 12 {
      MonthsInOrder(dt.year, dt.month, 12);
    }
    LastMonthEndsYear(dt.year);
  }

  /** An earlier date has a smaller ordinal. */
  lemma OrdinalsInOrder(a: DateTime, b: DateTime)
    requires Valid(a) && Valid(b)
    requires a.year < b.year || (a.year == b.year && a.month < b.month)
             || (a.year == b.year && a.month == b.month && a.day < b.day)
    ensures Ordinal(a) < Ordinal(b)
  {
    if a.year < b.year {
      OrdinalWithinYear(a);
      OrdinalWithinYear(b);
      YearsInOrder(a.year, b.year);
    } else if a.month < b.month {
      MonthsInOrder(a.year, a.month, b.month);
    }
  }

  /** Comparing instants in seconds is comparing the date-times themselves,
      so the model may compare and add numbers where the source compares and
      adds datetime objects. */
  lemma ToSecondsKeepsOrder(a: DateTime, b: DateTime)
    requires Valid(a) && Valid(b)
    ensures Before(a, b) <==> ToSeconds(a) < ToSeconds(b)
    ensures a == b <==> ToSeconds(a) == ToSeconds(b)
  {
    if a.year != b.year || a.month != b.month || a.day != b.day {
      if Before(a, b) {
        OrdinalsInOrder(a, b);
      } else {
        OrdinalsInOrder(b, a);
      }
    }
  }

  // ---- Text forms -------------------------------------------------------

  predicate IsDigit(c: char) {
    '0' <= c <= '9'
  }

  function DigitValue(c: char): (n: int)
    requires IsDigit(c)
    ensures 0 <= n < 10
  {
    c as int - '0' as int
  }

  function DigitChar(n: int): (c: char)
    requires 0 <= n < 10
    ensures IsDigit(c) && DigitValue(c) == n
  {
    ('0' as int + n) as char
  }

  function Pow10(w: nat): (p: nat)
    ensures p >= 1
  {
    if w == 0 then 1 else 10 * Pow10(w - 1)
  }

  /** The value of a run of decimal digits, or None if some character is not
      a digit. */
  function Decimal(s: string): (r: Option<nat>)
    ensures r.Some? <==> forall i :: 0 <= i < |s| ==> IsDigit(s[i])
    ensures r.Some? ==> r.value < Pow10(|s|)
  {
    if s == [] then Some(0)
    else
      match Decimal(s[..|s| - 1])
      case None => None
      case Some(high) =>
        if IsDigit(s[|s| - 1]) then Some(high * 10 + DigitValue(s[|s| - 1])) else None
  }

  /** `n` written with exactly `w` digits, zero-padded as strftime and
      isoformat do. */
  function Padded(n: nat, w: nat): (s: string)
    requires n < Pow10(w)
    ensures |s| == w
  {
    if w == 0 then [] else Padded(n / 10, w - 1) + [DigitChar(n % 10)]
  }

  /** Reading back a zero-padded number gives the number. */
  lemma {:induction false} DecimalOfPadded(n: nat, w: nat)
    requires n < Pow10(w)
    ensures Decimal(Padded(n, w)) == Some(n)
  {
    if w > 0 {
      var s := Padded(n, w);
      DecimalOfPadded(n / 10, w - 1);
      assert s[..|s| - 1] == Padded(n / 10, w - 1);
    }
  }

  /** datetime.fromisoformat on the forms the kiosk's inputs produce:
      `YYYY-MM-DD`, optionally followed by any one separator character and
      `HH`, `HH:MM` or `HH:MM:SS`. Anything else, and any out-of-range field,
      is refused. */
  function ParseIso(s: string): (r: Option<DateTime>)
    ensures r.Some? ==> Valid(r.value)
    ensures r.Some? ==> |s| in {10, 13, 16, 19} && s[4] == '-' && s[7] == '-'
  {
    if |s| != 10 && |s| != 13 && |s| != 16 && |s| != 19 then None
    else if s[4] != '-' || s[7] != '-' then None
    else if |s| >= 16 && s[13] != ':' then None
    else if |s| == 19 && s[16] != ':' then None
    else
      var year := Decimal(s[0..4]);
      var month := Decimal(s[5..7]);
      var day := Decimal(s[8..10]);
      var hour := if |s| >= 13 then Decimal(s[11..13]) else Some(0);
      var minute := if |s| >= 16 then Decimal(s[14..16]) else Some(0);
      var second := if |s| == 19 then Decimal(s[17..19]) else Some(0);
      if year.None? || month.None? || day.None? || hour.None? || minute.None? || second.None? then None
      else
        var dt := DateTime(year.value, month.value, day.value, hour.value, minute.value, second.value);
        if Valid(dt) then Some(dt) else None
  }

  /** `dt.isoformat()` for a date-time without microseconds: the text the
      kiosk stores. */
  function IsoFormat(dt: DateTime): (s: string)
    requires Valid(dt)
    ensures |s| == 19
  {
    Padded(dt.year, 4) + "-" + Padded(dt.month, 2) + "-" + Padded(dt.day, 2) + "T"
    + Padded(dt.hour, 2) + ":" + Padded(dt.minute, 2) + ":" + Padded(dt.second, 2)
  }

  /** `strftime("%Y-%m-%d %H:%M")`: the text staff pages show. */
  function DisplayMinutes(dt: DateTime): (s: string)
    requires Valid(dt)
    ensures |s| == 16
  {
    Padded(dt.year, 4) + "-" + Padded(dt.month, 2) + "-" + Padded(dt.day, 2) + " "
    + Padded(dt.hour, 2) + ":" + Padded(dt.minute, 2)
  }

  /** What the kiosk stores parses back to the same date-time. */
  lemma ParseIsoFormat(dt: DateTime)
    requires Valid(dt)
    ensures ParseIso(IsoFormat(dt)) == Some(dt)
  {
    var s := IsoFormat(dt);
    assert s[0..4] == Padded(dt.year, 4);
    assert s[5..7] == Padded(dt.month, 2);
    assert s[8..10] == Padded(dt.day, 2);
    assert s[11..13] == Padded(dt.hour, 2);
    assert s[14..16] == Padded(dt.minute, 2);
    assert s[17..19] == Padded(dt.second, 2);
    DecimalOfPadded(dt.year, 4);
    DecimalOfPadded(dt.month, 2);
    DecimalOfPadded(dt.day, 2);
    DecimalOfPadded(dt.hour, 2);
    DecimalOfPadded(dt.minute, 2);
    DecimalOfPadded(dt.second, 2);
  }

  /** `dt` with the fields that the first `n` characters of its ISO text do
      not reach set to zero. */
  function Truncated(dt: DateTime, n: int): DateTime {
    DateTime(dt.year, dt.month, dt.day,
             if n >= 13 then dt.hour else 0,
             if n >= 16 then dt.minute else 0,
             if n >= 19 then dt.second else 0)
  }

  /** Every shorter form reads the fields it carries: the date alone, or the
      date, any separator and the hour, the minutes (a datetime-local field's
      `YYYY-MM-DDTHH:MM`) or the seconds; the fields it lacks are zero. */
  lemma ParseIsoPrefix(dt: DateTime, n: int, sep: char)
    requires Valid(dt) && n in {10, 13, 16, 19}
    ensures var s := IsoFormat(dt);
            ParseIso(if n == 10 then s[..10] else s[..10] + [sep] + s[11..n]) == Some(Truncated(dt, n))
  {
    var s := IsoFormat(dt);
    var t := if n == 10 then s[..10] else s[..10] + [sep] + s[11..n];
    assert |t| == n && t[4] == s[4] && t[7] == s[7];
    assert n >= 16 ==> t[13] == s[13];
    assert n == 19 ==> t[16] == s[16];
    SameSlices(s, t);
    IsoFormatFields(dt);
    DecimalOfPadded(dt.year, 4);
    DecimalOfPadded(dt.month, 2);
    DecimalOfPadded(dt.day, 2);
    DecimalOfPadded(dt.hour, 2);
    DecimalOfPadded(dt.minute, 2);
    DecimalOfPadded(dt.second, 2);
    ParseIsoFields(t, dt);
  }

  /** A text that agrees with `s` outside position 10 has the same digit
      runs. */
  lemma SameSlices(s: string, t: string)
    requires |s| == 19 && |t| in {10, 13, 16, 19}
    requires forall k :: 0 <= k < |t| && k != 10 ==> t[k] == s[k]
    ensures t[0..4] == s[0..4] && t[5..7] == s[5..7] && t[8..10] == s[8..10]
    ensures |t| >= 13 ==> t[11..13] == s[11..13]
    ensures |t| >= 16 ==> t[14..16] == s[14..16]
    ensures |t| == 19 ==> t[17..19] == s[17..19]
  {
  }

  /** Where isoformat puts each field and separator. */
  lemma IsoFormatFields(dt: DateTime)
    requires Valid(dt)
    ensures var s := IsoFormat(dt);
            && s[0..4] == Padded(dt.year, 4) && s[4] == '-' && s[5..7] == Padded(dt.month, 2)
            && s[7] == '-' && s[8..10] == Padded(dt.day, 2) && s[10] == 'T'
            && s[11..13] == Padded(dt.hour, 2) && s[13] == ':' && s[14..16] == Padded(dt.minute, 2)
            && s[16] == ':' && s[17..19] == Padded(dt.second, 2)
  {
    var s := IsoFormat(dt);
    assert s[0..4] == Padded(dt.year, 4);
    assert s[5..7] == Padded(dt.month, 2);
    assert s[8..10] == Padded(dt.day, 2);
    assert s[11..13] == Padded(dt.hour, 2);
    assert s[14..16] == Padded(dt.minute, 2);
    assert s[17..19] == Padded(dt.second, 2);
  }

  /** Text of the right length and separators whose digit runs decode to
      the fields of `dt` parses to `dt`, cut to the fields present. */
  lemma ParseIsoFields(t: string, dt: DateTime)
    requires Valid(dt) && |t| in {10, 13, 16, 19} && t[4] == '-' && t[7] == '-'
    requires Decimal(t[0..4]) == Some(dt.year) && Decimal(t[5..7]) == Some(dt.month)
    requires Decimal(t[8..10]) == Some(dt.day)
    requires |t| >= 13 ==> Decimal(t[11..13]) == Some(dt.hour)
    requires |t| >= 16 ==> t[13] == ':' && Decimal(t[14..16]) == Some(dt.minute)
    requires |t| == 19 ==> t[16] == ':' && Decimal(t[17..19]) == Some(dt.second)
    ensures ParseIso(t) == Some(Truncated(dt, |t|))
  {
    assert Valid(Truncated(dt, |t|));
  }

  /** What a successful parse read: the separators it checked and the
      fields it decoded, with the fields the text lacks at zero. */
  lemma ParseIsoReads(s: string)
    requires ParseIso(s).Some?
    ensures var dt := ParseIso(s).value;
            && s[4] == '-' && s[7] == '-' && (|s| >= 16 ==> s[13] == ':')
            && Decimal(s[0..4]) == Some(dt.year) && Decimal(s[5..7]) == Some(dt.month)
            && Decimal(s[8..10]) == Some(dt.day)
            && (if |s| >= 13 then Decimal(s[11..13]) == Some(dt.hour) else dt.hour == 0)
            && (if |s| >= 16 then Decimal(s[14..16]) == Some(dt.minute) else dt.minute == 0)
            && (if |s| == 19 then Decimal(s[17..19]) == Some(dt.second) else dt.second == 0)
  {
  }

  /** A run of digits is the zero-padded text of its value. */
  lemma {:induction false} PaddedOfDecimal(s: string)
    requires Decimal(s).Some?
    ensures Padded(Decimal(s).value, |s|) == s
  {
    if s != [] {
      var init, last := s[..|s| - 1], s[|s| - 1];
      PaddedOfDecimal(init);
      var h := Decimal(init).value;
      var n := h * 10 + DigitValue(last);
      assert Decimal(s).value == n;
      assert n / 10 == h && n % 10 == DigitValue(last);
      assert DigitChar(DigitValue(last)) == last;
      assert s == init + [last];
    }
  }

  // ---- Text order -------------------------------------------------------

  /** How the database compares two stored texts: character by character,
      with a proper prefix first. */
  predicate TextBefore(s: string, t: string)
    decreases |s|
  {
    if s == [] then t != []
    else t != [] && (s[0] < t[0] || (s[0] == t[0] && TextBefore(s[1..], t[1..])))
  }

  /** Texts made of parts of equal lengths compare on the first parts, and
      on the second parts only where the first parts agree. */
  lemma {:induction false} TextBeforeAppend(s: string, t: string, p: string, q: string)
    requires |s| == |t| && |p| == |q|
    ensures TextBefore(s + p, t + q) <==> TextBefore(s, t) || (s == t && TextBefore(p, q))
    ensures s + p == t + q <==> s == t && p == q
    decreases |s|
  {
    if s + p == t + q {
      assert s == (s + p)[..|s|] && t == (t + q)[..|t|];
      assert p == (s + p)[|s|..] && q == (t + q)[|t|..];
    }
    if s == [] {
      assert s + p == p && t + q == q;
    } else {
      TextBeforeAppend(s[1..], t[1..], p, q);
      assert (s + p)[1..] == s[1..] + p;
      assert (t + q)[1..] == t[1..] + q;
    }
  }

  /** One-digit texts compare as their digits do. */
  lemma DigitOrder(x: int, y: int)
    requires 0 <= x < 10 && 0 <= y < 10
    ensures TextBefore([DigitChar(x)], [DigitChar(y)]) <==> x < y
  {
    assert [DigitChar(x)][1..] == [];
  }

  /** Zero-padded numbers of one width are equal texts exactly when they are
      equal numbers. */
  lemma PaddedInjective(x: nat, y: nat, w: nat)
    requires x < Pow10(w) && y < Pow10(w)
    ensures Padded(x, w) == Padded(y, w) <==> x == y
  {
    DecimalOfPadded(x, w);
    DecimalOfPadded(y, w);
  }

  /** Zero-padded numbers of one width compare as texts as they do as
      numbers. */
  lemma {:induction false} PaddedOrder(x: nat, y: nat, w: nat)
    requires x < Pow10(w) && y < Pow10(w)
    ensures TextBefore(Padded(x, w), Padded(y, w)) <==> x < y
    decreases w
  {
    if w > 0 {
      var p := Pow10(w - 1);
      var hx, hy := x / 10, y / 10;
      var dx, dy := x % 10, y % 10;
      assert hx < p && hy < p;
      assert Padded(x, w) == Padded(hx, w - 1) + [DigitChar(dx)];
      assert Padded(y, w) == Padded(hy, w - 1) + [DigitChar(dy)];
      PaddedOrder(hx, hy, w - 1);
      PaddedInjective(hx, hy, w - 1);
      DigitOrder(dx, dy);
      TextBeforeAppend(Padded(hx, w - 1), Padded(hy, w - 1), [DigitChar(dx)], [DigitChar(dy)]);
      assert x < y <==> hx < hy || (hx == hy && dx < dy);
    }
  }

  /** Appending one more zero-padded field to texts of equal length. */
  lemma FieldStep(s: string, t: string, x: nat, y: nat, w: nat)
    requires |s| == |t| && x < Pow10(w) && y < Pow10(w)
    ensures TextBefore(s + Padded(x, w), t + Padded(y, w)) <==> TextBefore(s, t) || (s == t && x < y)
    ensures s + Padded(x, w) == t + Padded(y, w) <==> s == t && x == y
  {
    PaddedOrder(x, y, w);
    PaddedInjective(x, y, w);
    TextBeforeAppend(s, t, Padded(x, w), Padded(y, w));
  }

  /** Appending the same separator to texts of equal length. */
  lemma SeparatorStep(s: string, t: string, c: char)
    requires |s| == |t|
    ensures TextBefore(s + [c], t + [c]) <==> TextBefore(s, t)
    ensures s + [c] == t + [c] <==> s == t
  {
    assert !TextBefore([c], [c]) by {
      assert [c][1..] == [];
    }
    TextBeforeAppend(s, t, [c], [c]);
  }

  /** The date part of a stored timestamp, `YYYY-MM-DD`. */
  function DateText(dt: DateTime): (s: string)
    requires Valid(dt)
    ensures |s| == 10
  {
    Padded(dt.year, 4) + "-" + Padded(dt.month, 2) + "-" + Padded(dt.day, 2)
  }

  /** Date parts compare as texts as the dates do. */
  lemma DateTextOrder(a: DateTime, b: DateTime)
    requires Valid(a) && Valid(b)
    ensures TextBefore(DateText(a), DateText(b)) <==>
              a.year < b.year || (a.year == b.year && a.month < b.month)
              || (a.year == b.year && a.month == b.month && a.day < b.day)
    ensures DateText(a) == DateText(b) <==> a.year == b.year && a.month == b.month && a.day == b.day
  {
    var a0, b0 := Padded(a.year, 4), Padded(b.year, 4);
    PaddedOrder(a.year, b.year, 4);
    PaddedInjective(a.year, b.year, 4);
    SeparatorStep(a0, b0, '-');
    var a1, b1 := a0 + "-", b0 + "-";
    FieldStep(a1, b1, a.month, b.month, 2);
    var a2, b2 := a1 + Padded(a.month, 2), b1 + Padded(b.month, 2);
    SeparatorStep(a2, b2, '-');
    FieldStep(a2 + "-", b2 + "-", a.day, b.day, 2);
  }

  /** Stored timestamps compare as texts as the date-times compare, and so
      as their instants do: the string comparisons of the board queries
      agree with the model's comparisons of seconds. */
  lemma IsoFormatKeepsOrder(a: DateTime, b: DateTime)
    requires Valid(a) && Valid(b)
    ensures TextBefore(IsoFormat(a), IsoFormat(b)) <==> Before(a, b)
    ensures TextBefore(IsoFormat(a), IsoFormat(b)) <==> ToSeconds(a) < ToSeconds(b)
  {
    var a4, b4 := DateText(a), DateText(b);
    DateTextOrder(a, b);
    SeparatorStep(a4, b4, 'T');
    var a5, b5 := a4 + "T", b4 + "T";
    FieldStep(a5, b5, a.hour, b.hour, 2);
    var a6, b6 := a5 + Padded(a.hour, 2), b5 + Padded(b.hour, 2);
    SeparatorStep(a6, b6, ':');
    var a7, b7 := a6 + ":", b6 + ":";
    FieldStep(a7, b7, a.minute, b.minute, 2);
    var a8, b8 := a7 + Padded(a.minute, 2), b7 + Padded(b.minute, 2);
    SeparatorStep(a8, b8, ':');
    var a9, b9 := a8 + ":", b8 + ":";
    FieldStep(a9, b9, a.second, b.second, 2);
    assert IsoFormat(a) == a9 + Padded(a.second, 2);
    assert IsoFormat(b) == b9 + Padded(b.second, 2);
    ToSecondsKeepsOrder(a, b);
  }

  /** parse_dt, with the result as an instant. */
  function ParseInstant(s: string): (r: Option<int>)
    ensures r.Some? <==> ParseIso(s).Some?
    ensures r.Some? ==> r.value == ToSeconds(ParseIso(s).value)
  {
    match ParseIso(s)
    case None => None
    case Some(dt) => Some(ToSeconds(dt))
  }

  /** fmt_dt: blank for a missing or empty value, the value itself when it
      does not parse, and the minute-precision display otherwise. */
  function FmtDt(value: Option<string>): (r: string)
  {
    match value
    case None => ""
    case Some(s) =>
      if s == "" then ""
      else
        match ParseIso(s)
        case None => s
        case Some(dt) => DisplayMinutes(dt)
  }

  /** fmt_dt yields blank exactly for a missing or empty value; text it
      cannot parse comes back unchanged, and parsed text is shown as
      `YYYY-MM-DD HH:MM`. */
  lemma FmtDtCases(value: Option<string>)
    ensures FmtDt(value) == "" <==> value.None? || value.value == ""
    ensures value.Some? && value.value != "" && ParseIso(value.value).None?
            ==> FmtDt(value) == value.value
    ensures value.Some? && ParseIso(value.value).Some?
            ==> |FmtDt(value)| == 16 && FmtDt(value)[10] == ' '
    ensures value.Some? && ParseIso(value.value).Some? && |value.value| >= 16
            ==> FmtDt(value) == value.value[..10] + " " + value.value[11..16]
    ensures value.Some? && ParseIso(value.value).Some? && |value.value| == 13
            ==> FmtDt(value) == value.value[..10] + " " + value.value[11..13] + ":00"
    ensures value.Some? && ParseIso(value.value).Some? && |value.value| == 10
            ==> FmtDt(value) == value.value + " 00:00"
  {
    if value.Some? && ParseIso(value.value).Some? {
      FmtDtOfParsed(value.value);
    }
  }

  /** The display of parsed text keeps its own date and time digits. */
  lemma FmtDtOfParsed(s: string)
    requires ParseIso(s).Some?
    ensures var d := DisplayMinutes(ParseIso(s).value);
            && (|s| >= 16 ==> d == s[..10] + " " + s[11..16])
            && (|s| == 13 ==> d == s[..10] + " " + s[11..13] + ":00")
            && (|s| == 10 ==> d == s + " 00:00")
  {
    var dt := ParseIso(s).value;
    ParseIsoReads(s);
    PaddedOfDecimal(s[0..4]);
    PaddedOfDecimal(s[5..7]);
    PaddedOfDecimal(s[8..10]);
    if |s| >= 13 {
      PaddedOfDecimal(s[11..13]);
    }
    if |s| >= 16 {
      PaddedOfDecimal(s[14..16]);
    }
    DisplayOfFields(s, dt);
  }

  /** The display of a date-time whose padded fields are the digit runs of
      `s`. */
  lemma DisplayOfFields(s: string, dt: DateTime)
    requires Valid(dt) && |s| in {10, 13, 16, 19} && s[4] == '-' && s[7] == '-'
    requires Padded(dt.year, 4) == s[0..4] && Padded(dt.month, 2) == s[5..7]
    requires Padded(dt.day, 2) == s[8..10]
    requires if |s| >= 13 then Padded(dt.hour, 2) == s[11..13] else dt.hour == 0
    requires if |s| >= 16 then s[13] == ':' && Padded(dt.minute, 2) == s[14..16] else dt.minute == 0
    ensures var d := DisplayMinutes(dt);
            && (|s| >= 16 ==> d == s[..10] + " " + s[11..16])
            && (|s| == 13 ==> d == s[..10] + " " + s[11..13] + ":00")
            && (|s| == 10 ==> d == s + " 00:00")
  {
    assert s[..10] == s[0..4] + "-" + s[5..7] + "-" + s[8..10];
    if |s| >= 16 {
      assert s[11..16] == s[11..13] + ":" + s[14..16];
    } else {
      assert Padded(0, 2) == "00";
      if |s| == 10 {
        assert s == s[..10];
      }
    }
  }

  /** A stored timestamp is shown as its own date and minute. */
  lemma FmtDtOfStored(dt: DateTime)
    requires Valid(dt)
    ensures FmtDt(Some(IsoFormat(dt))) == DisplayMinutes(dt)
  {
    ParseIsoFormat(dt);
  }
}
