/** The formatting helpers of the shared utility script: dates and times,
    relative ages and deadlines, percentages and progress, text truncation and
    initials. Every helper is a pure function. A `Date` argument is replaced by
    the calendar fields it reports in local time (and, where the helper compares
    instants, by its time value in milliseconds); the current time is a parameter. */
module Utils {
  import opened Wrappers
  import opened Text

  // ---------------------------------------------------------------------------
  // Dates
  // ---------------------------------------------------------------------------

  /** `getMonth()`: 0 for January up to 11 for December. */
  type MonthIndex = m: int | 0 <= m < 12
  /** `getDate()`. */
  type DayOfMonth = d: int | 1 <= d <= 31 witness 1
  /** `getHours()`. */
  type Hour = h: int | 0 <= h < 24
  /** `getMinutes()`. */
  type Minute = m: int | 0 <= m < 60

  /** The local calendar fields a `Date` reports. */
  datatype DateTime = DateTime(year: int, monthIndex: MonthIndex, day: DayOfMonth, hours: Hour, minutes: Minute)

  /** A `Date`: its time value in milliseconds since the epoch, and its local calendar fields. */
  datatype Moment = Moment(epochMs: int, local: DateTime)

  const MsPerMinute: int := 60000
  const MsPerHour: int := 60 * MsPerMinute
  /** `1000 * 60 * 60 * 24`. */
  const MsPerDay: int := 1000 * 60 * 60 * 24

  /** Reads back a string of the form `<year>.<MM>.<DD>`. */
  function ParseDate(s: string): Option<(int, int, int)> {
    if |s| < 7 || s[|s| - 3] != '.' || s[|s| - 6] != '.' then
      None
    else
      var year, month, day := ParseInt(s[..|s| - 6]), s[|s| - 5..|s| - 3], s[|s| - 2..];
      if year.Some? && AllDigits(month) && AllDigits(day) then
        Some((year.value, DigitsValue(month), DigitsValue(day)))
      else
        None
  }

  lemma {:induction false} ParseJoinedDate(y: string, m: string, d: string)
    requires ParseInt(y).Some? && |m| == 2 && |d| == 2 && AllDigits(m) && AllDigits(d)
    ensures ParseDate(y + "." + m + "." + d) == Some((ParseInt(y).value, DigitsValue(m), DigitsValue(d)))
  {
    var s := y + "." + m + "." + d;
    assert s[..|s| - 6] == y;
    assert s[|s| - 5..|s| - 3] == m;
    assert s[|s| - 2..] == d;
  }

  lemma {:induction false} ParseFormattedDate(year: int, month: nat, day: nat)
    requires month < 100 && day < 100
    ensures ParseDate(DecimalString(year) + "." + TwoDigits(month) + "." + TwoDigits(day)) == Some((year, month, day))
  {
    TwoDigitsValue(month);
    TwoDigitsValue(day);
    ParseDecimalString(year);
    ParseJoinedDate(DecimalString(year), TwoDigits(month), TwoDigits(day));
  }

  lemma FourDigitYear(year: int)
    ensures 1000 <= year <= 9999 ==> |DecimalString(year)| == 4
  {
    if 1000 <= year <= 9999 {
      NatDigitsLength(year, 4);
      NatDigitsLength(year, 3);
    }
  }

  /** `formatDate`: `""` for a missing date, otherwise the year, the month and
      the day joined by dots, month and day padded to two digits. The result
      reads back as the same year, month and day, and a four-digit year gives
      ten characters. */
  function FormatDate(date: Option<DateTime>): (r: string)
    ensures date.None? ==> r == ""
    ensures date.Some? ==> ParseDate(r) == Some((date.value.year, date.value.monthIndex + 1, date.value.day))
    ensures date.Some? && 1000 <= date.value.year <= 9999 ==> |r| == 10
  {
    match date
    case None => ""
    case Some(d) =>
      ParseFormattedDate(d.year, d.monthIndex + 1, d.day);
      TwoDigitsValue(d.monthIndex + 1);
      TwoDigitsValue(d.day);
      FourDigitYear(d.year);
      DecimalString(d.year) + "." + TwoDigits(d.monthIndex + 1) + "." + TwoDigits(d.day)
  }

  /** `formatTime`: `""` for a missing date, otherwise `HH:MM`, exactly five
      characters whose two fields read back as the hour and the minute. */
  function FormatTime(date: Option<DateTime>): (r: string)
    ensures date.None? ==> r == ""
    ensures date.Some? ==> (|r| == 5 && r[2] == ':'
      && AllDigits(r[..2]) && DigitsValue(r[..2]) == date.value.hours
      && AllDigits(r[3..]) && DigitsValue(r[3..]) == date.value.minutes)
  {
    match date
    case None => ""
    case Some(d) =>
      TwoDigitsValue(d.hours);
      TwoDigitsValue(d.minutes);
      JoinedTimeFields(TwoDigits(d.hours), TwoDigits(d.minutes));
      TwoDigits(d.hours) + ":" + TwoDigits(d.minutes)
  }

  lemma JoinedTimeFields(h: string, m: string)
    requires |h| == 2 && |m| == 2
    ensures var r := h + ":" + m; |r| == 5 && r[2] == ':' && r[..2] == h && r[3..] == m
  {
  }

  // ---------------------------------------------------------------------------
  // Floor and ceiling division
  // ---------------------------------------------------------------------------

  lemma ProductNonNegative(a: int, b: int)
    requires a >= 0 && b >= 0
    ensures a * b >= 0
  {
  }

  /** Floor division is determined by its remainder: if `x == d * q + rem` with
      `0 <= rem < d`, then `q` is `x / d`. */
  lemma DivisionByRemainder(x: int, d: int, q: int, rem: int)
    requires d > 0 && 0 <= rem < d && x == d * q + rem
    ensures x / d == q
  {
    var q', rem' := x / d, x % d;
    assert d * q + rem == d * q' + rem';
    if q > q' {
      ProductNonNegative(d, q - q' - 1);
      assert false;
    } else if q < q' {
      ProductNonNegative(d, q' - q - 1);
      assert false;
    }
  }

  /** Flooring twice is flooring once by the product of the divisors:
      `floor(floor(x / a) / b) == floor(x / (a * b))`. */
  lemma FloorOfFloor(x: int, a: int, b: int)
    requires a > 0 && b > 0
    ensures (x / a) / b == x / (a * b)
  {
    var q, rem := x / a, x % a;
    var q2, rem2 := q / b, q % b;
    assert x == a * q + rem;
    assert q == b * q2 + rem2;
    assert a * q == a * (b * q2) + a * rem2;
    assert a * (b * q2) == (a * b) * q2;
    ProductNonNegative(a, b - 1 - rem2);
    assert a * (b - 1 - rem2) == a * b - a - a * rem2;
    ProductNonNegative(a, rem2);
    DivisionByRemainder(x, a * b, q2, a * rem2 + rem);
  }

  // ---------------------------------------------------------------------------
  // Relative time and deadlines
  // ---------------------------------------------------------------------------

  /** `getRelativeTime`: `""` for a missing date. Otherwise the age `now - date`
      in milliseconds falls in exactly one bucket: under a minute (including
      dates in the future), whole minutes, whole hours, whole days below a week,
      and from a week on the formatted date. Each count is the age divided by its
      unit and floored, although the code floors minutes, then hours, then days. */
  function GetRelativeTime(date: Option<Moment>, nowMs: int): (r: string)
    ensures date.None? ==> r == ""
    ensures date.Some? ==> var age := nowMs - date.value.epochMs;
      && (age < MsPerMinute ==> r == "방금 전")
      && (MsPerMinute <= age < MsPerHour ==>
            1 <= age / MsPerMinute <= 59 && r == DecimalString(age / MsPerMinute) + "분 전")
      && (MsPerHour <= age < MsPerDay ==>
            1 <= age / MsPerHour <= 23 && r == DecimalString(age / MsPerHour) + "시간 전")
      && (MsPerDay <= age < 7 * MsPerDay ==>
            1 <= age / MsPerDay <= 6 && r == DecimalString(age / MsPerDay) + "일 전")
      && (7 * MsPerDay <= age ==> r == FormatDate(Some(date.value.local)))
  {
    match date
    case None => ""
    case Some(target) =>
      var diff := nowMs - target.epochMs;
      var minutes := diff / 60000;
      var hours := minutes / 60;
      var days := hours / 24;
      FloorOfFloor(diff, 60000, 60);
      FloorOfFloor(diff, 60000 * 60, 24);
      if minutes < 1 then "방금 전"
      else if minutes < 60 then DecimalString(minutes) + "분 전"
      else if hours < 24 then DecimalString(hours) + "시간 전"
      else if days < 7 then DecimalString(days) + "일 전"
      else FormatDate(Some(target.local))
  }

  /** `Math.ceil(x / d)` for a positive divisor. */
  function CeilDiv(x: int, d: int): int
    requires d > 0
  {
    -((-x) / d)
  }

  /** `getDaysLeft`: `None` (JavaScript `null`) for a missing date. Otherwise the
      days left are the time to the target divided by a day and rounded up:
      a target a day or more in the past gives "마감", one less than a day in
      the past (or exactly now) gives "오늘", and a future target gives "D-" followed by
      the least `n` with `target - now <= n` days. */
  function GetDaysLeft(target: Option<int>, nowMs: int): (r: Option<string>)
    ensures target.None? ==> r.None?
    ensures target.Some? ==> var left := target.value - nowMs;
      && (left <= -MsPerDay ==> r == Some("마감"))
      && (-MsPerDay < left <= 0 ==> r == Some("오늘"))
      && (left > 0 ==> (r.Some? && |r.value| > 2 && r.value[..2] == "D-" && IsCanonicalNumeral(r.value[2..])
            && var n := DigitsValue(r.value[2..]); (n - 1) * MsPerDay < left <= n * MsPerDay))
  {
    match target
    case None => None
    case Some(t) =>
      var days := CeilDiv(t - nowMs, 1000 * 60 * 60 * 24);
      if days < 0 then Some("마감")
      else if days == 0 then Some("오늘")
      else
        var r := "D-" + DecimalString(days);
        assert r[2..] == DecimalString(days);
        Some(r)
  }

  // ---------------------------------------------------------------------------
  // Numbers
  // ---------------------------------------------------------------------------

  /** A total that JavaScript treats as false: missing or zero. */
  predicate IsFalsyTotal(total: Option<real>) {
    total.None? || total.value == 0.0
  }

  /** `Math.round`: the nearest integer, halves rounded up. */
  function RoundHalfUp(x: real): (k: int)
    ensures k as real - 0.5 <= x < k as real + 0.5
  {
    (x + 0.5).Floor
  }

  /** `formatPercent`: `"0%"` when the total is missing or zero; otherwise the
      integer nearest to `value / total * 100` followed by `%`. */
  function FormatPercent(value: real, total: Option<real>): (r: string)
    ensures IsFalsyTotal(total) ==> r == "0%"
    ensures !IsFalsyTotal(total) ==> var percent := value / total.value * 100.0;
      && |r| >= 2 && r[|r| - 1] == '%' && ParseInt(r[..|r| - 1]).Some?
      && var k := ParseInt(r[..|r| - 1]).value; k as real - 0.5 <= percent < k as real + 0.5
  {
    if IsFalsyTotal(total) then
      "0%"
    else
      var k := RoundHalfUp(value / total.value * 100.0);
      var r := DecimalString(k) + "%";
      assert r[..|r| - 1] == DecimalString(k);
      ParseDecimalString(k);
      r
  }

  /** `calculateProgress`: 0 when the total is missing or zero; otherwise
      `current / total * 100` clamped into `[0, 100]`. */
  function CalculateProgress(current: real, total: Option<real>): (r: real)
    ensures 0.0 <= r <= 100.0
    ensures IsFalsyTotal(total) ==> r == 0.0
    ensures !IsFalsyTotal(total) ==> var percent := current / total.value * 100.0;
      && (0.0 <= percent <= 100.0 ==> r == percent)
      && (percent < 0.0 ==> r == 0.0)
      && (100.0 < percent ==> r == 100.0)
  {
    if IsFalsyTotal(total) then
      0.0
    else
      var percent := current / total.value * 100.0;
      var atLeastZero := if percent > 0.0 then percent else 0.0;
      if atLeastZero < 100.0 then atLeastZero else 100.0
  }

  /** For a fixed positive total, more done never means less progress. */
  lemma ProgressMonotone(current1: real, current2: real, total: real)
    requires total > 0.0 && current1 <= current2
    ensures CalculateProgress(current1, Some(total)) <= CalculateProgress(current2, Some(total))
  {
  }

  // ---------------------------------------------------------------------------
  // Strings
  // ---------------------------------------------------------------------------

  /** The default `maxLength` of `truncateText`. */
  const DefaultMaxLength: int := 50

  /** `truncateText`: `""` for missing or empty text; the text itself when it
      has at most `maxLength` characters; otherwise `text.slice(0, maxLength)`
      followed by `"..."`. A negative `maxLength` makes the slice drop that many
      characters from the end. */
  function TruncateText(text: Option<string>, maxLength: int := DefaultMaxLength): (r: string)
    ensures text.None? || text.value == [] ==> r == []
    ensures text.Some? && text.value != [] && |text.value| <= maxLength ==> r == text.value
    ensures text.Some? && 0 <= maxLength < |text.value| ==>
      |r| == maxLength + 3 && r[..maxLength] == text.value[..maxLength] && r[maxLength..] == "..."
    ensures text.Some? && text.value != [] && maxLength < 0 ==>
      var kept := if |text.value| + maxLength > 0 then |text.value| + maxLength else 0;
      |r| == kept + 3 && r[..kept] == text.value[..kept] && r[kept..] == "..."
    ensures 0 <= maxLength ==> |r| <= maxLength + 3
  {
    match text
    case None => ""
    case Some(t) =>
      if t == [] then ""
      else if |t| <= maxLength then t
      else
        var kept := t[..SliceEnd(|t|, maxLength)];
        var r := kept + "...";
        assert r[..|kept|] == kept && r[|kept|..] == "...";
        r
  }

  /** For a non-negative limit, truncating a second time changes nothing. */
  lemma TruncateIdempotent(text: Option<string>, maxLength: int)
    requires 0 <= maxLength
    ensures TruncateText(Some(TruncateText(text, maxLength)), maxLength) == TruncateText(text, maxLength)
  {
  }

  /** A precomposed Hangul syllable, the range `[가-힣]`. */
  predicate IsHangulSyllable(c: char) {
    '가' <= c <= '힣'
  }

  predicate HasHangulSyllable(s: string) {
    exists i | 0 <= i < |s| :: IsHangulSyllable(s[i])
  }

  lemma SplitAtFirst(s: string, sep: char, k: nat)
    requires k < |s| && s[k] == sep && sep !in s[..k]
    ensures |Split(s, sep)| >= 2
    ensures Split(s, sep)[0] == s[..k]
    ensures Split(s, sep)[1] == Split(s[k + 1..], sep)[0]
  {
    assert s == s[..k] + [sep] + s[k + 1..];
    SplitConcat(s[..k], s[k + 1..], sep);
    SplitWithoutSeparator(s[..k], sep);
  }

  lemma FirstPieceStart(s: string, sep: char)
    ensures FirstChar(Split(s, sep)[0]) == if s != [] && s[0] != sep then [s[0]] else []
  {
  }

  /** `getInitials`: `"?"` for a missing or empty name; the first character of
      a name containing a Hangul syllable; otherwise, when the trimmed name
      contains a space, its first character followed by the character after its
      first space (nothing when that is a second space), and without a space
      the first character of the untrimmed name. The result has one or two
      characters. */
  function GetInitials(name: Option<string>): (r: string)
    ensures 1 <= |r| <= 2
    ensures name.None? || name.value == [] ==> r == "?"
    ensures name.Some? && name.value != [] && HasHangulSyllable(name.value) ==> r == [name.value[0]]
    ensures name.Some? && name.value != [] && !HasHangulSyllable(name.value) ==>
      var t := Trim(name.value);
      match IndexOf(t, " ")
      case None => r == [name.value[0]]
      case Some(k) => k + 1 < |t| && r == [t[0]] + (if t[k + 1] == ' ' then [] else [t[k + 1]])
  {
    match name
    case None => "?"
    case Some(n) =>
      if n == [] then "?"
      else if HasHangulSyllable(n) then FirstChar(n)
      else
        var t := Trim(n);
        var parts := Split(t, ' ');
        InitialsOfTrimmed(t);
        if |parts| >= 2 then FirstChar(parts[0]) + FirstChar(parts[1]) else FirstChar(n)
  }

  lemma InitialsOfTrimmed(t: string)
    requires t == [] || (!IsWhiteSpace(t[0]) && !IsWhiteSpace(t[|t| - 1]))
    ensures var parts := Split(t, ' ');
      match IndexOf(t, " ")
      case None => |parts| == 1
      case Some(k) => (k + 1 < |t| && |parts| >= 2
        && FirstChar(parts[0]) + FirstChar(parts[1]) == [t[0]] + (if t[k + 1] == ' ' then [] else [t[k + 1]]))
  {
    match IndexOf(t, " ")
    case None =>
      forall j | 0 <= j < |t| ensures t[j] != ' ' {
        assert !OccursAt(t, " ", j);
        assert t[j..j + 1] == [t[j]];
      }
      SplitWithoutSeparator(t, ' ');
    case Some(k) =>
      assert t[k..k + 1] == " ";
      assert ' ' !in t[..k] by {
        forall j | 0 <= j < k ensures t[j] != ' ' {
          assert !OccursAt(t, " ", j);
          assert t[j..j + 1] == [t[j]];
        }
      }
      SplitAtFirst(t, ' ', k);
      FirstPieceStart(t, ' ');
      FirstPieceStart(t[k + 1..], ' ');
  }

  // ---------------------------------------------------------------------------
  // Examples
  // ---------------------------------------------------------------------------

  lemma NumberExamples()
    ensures FormatPercent(50.0, Some(200.0)) == "25%"
    ensures FormatPercent(7.0, Some(0.0)) == "0%" && FormatPercent(7.0, None) == "0%"
    ensures CalculateProgress(150.0, Some(100.0)) == 100.0
    ensures CalculateProgress(-10.0, Some(100.0)) == 0.0
    ensures CalculateProgress(30.0, Some(0.0)) == 0.0
  {
    assert RoundHalfUp(50.0 / 200.0 * 100.0) == 25;
  }

  lemma TruncateExamples()
    ensures TruncateText(Some("hello"), 10) == "hello"
    ensures TruncateText(Some("hello world"), 5) == "hello..."
    ensures TruncateText(Some("hello world")) == "hello world"
  {
  }

  /** `getInitials("John Smith")` is `"JS"`. */
  lemma InitialsOfJohnSmith()
    ensures GetInitials(Some("John Smith")) == "JS"
  {
    assert "John Smith" == "John" + " " + "Smith";
    assert !HasHangulSyllable("John" + " " + "Smith");
    InitialsOfTwoWords("John", "Smith");
  }

  /** `getInitials("Madonna")` is `"M"`, and an empty name gives `"?"`. */
  lemma InitialsOfMadonnaAndEmpty()
    ensures GetInitials(Some("Madonna")) == "M"
    ensures GetInitials(Some("")) == "?"
  {
    InitialsOfOneWord("Madonna");
  }

  lemma {:induction false} NoSpaceOccurs(s: string, j: nat)
    requires ' ' !in s
    ensures !OccursAt(s, " ", j)
  {
    if j < |s| {
      assert s[j..j + 1] == [s[j]];
    }
  }

  /** A name of two words separated by one space gives the first letters of both words. */
  lemma {:induction false} InitialsOfTwoWords(first: string, last: string)
    requires first != [] && last != [] && ' ' !in first && last[0] != ' '
    requires !IsWhiteSpace(first[0]) && !IsWhiteSpace(last[|last| - 1])
    requires !HasHangulSyllable(first + " " + last)
    ensures GetInitials(Some(first + " " + last)) == [first[0], last[0]]
  {
    var name := first + " " + last;
    assert Trim(name) == name by {
      assert TrimStart(name) == name;
      assert TrimEnd(name) == name;
    }
    assert IndexOf(name, " ") == Some(|first|) by {
      assert OccursAt(name, " ", |first|) by {
        assert name[|first|..|first| + 1] == " ";
      }
      forall j | 0 <= j < |first| ensures !OccursAt(name, " ", j) {
        NoSpaceOccurs(first, j);
        assert name[j..j + 1] == first[j..j + 1];
      }
    }
    assert name[|first| + 1] == last[0];
  }

  /** A name without spaces and without Hangul gives its first character. */
  lemma InitialsOfOneWord(word: string)
    requires word != [] && ' ' !in word && !HasHangulSyllable(word)
    ensures GetInitials(Some(word)) == [word[0]]
  {
    var t := Trim(word);
    var lo: nat :| TrimmedAt(word, t, lo);
    assert ' ' !in t by {
      assert t == word[lo..lo + |t|];
    }
    forall j: nat ensures !OccursAt(t, " ", j) {
      NoSpaceOccurs(t, j);
    }
  }
}
