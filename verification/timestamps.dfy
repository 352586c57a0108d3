/**
 * Publish-time handling: the fixed-slice formatter for the blog API's compact
 * `YYYYMMDDHHmmss` strings, and the normalizer for the relative and absolute
 * time labels shown on the blog's article cards.
 *
 * The clock and the calendar are parameters: `Clock.now` is the instant of
 * parsing, `Clock.minus` is `now - timedelta(...)` (None where Python raises
 * `OverflowError`), and `Clock.format` is `strftime("%Y-%m-%d %H:%M:%S")`.
 */
module Timestamps {
  import opened Wrappers
  import opened Strings

  // ---------------------------------------------------------------------
  // Compact API times
  // ---------------------------------------------------------------------

  /** `YYYY-MM-DD HH:MM:SS`: nineteen characters with the separators in place. */
  predicate IsCanonicalShape(r: string) {
    |r| == 19 && r[4] == '-' && r[7] == '-' && r[10] == ' ' && r[13] == ':' && r[16] == ':'
  }

  /** The fourteen characters of a canonical timestamp with its separators taken out. */
  function Compact(r: string): string
    requires IsCanonicalShape(r)
  {
    r[0..4] + r[5..7] + r[8..10] + r[11..13] + r[14..16] + r[17..19]
  }

  function DatePart(year: string, month: string, day: string): string {
    year + "-" + month + "-" + day
  }

  function TimePart(hour: string, minute: string, second: string): string {
    hour + ":" + minute + ":" + second
  }

  /** `YYYY-MM-DD HH:MM:SS` assembled from its six fields. */
  function Canonical(year: string, month: string, day: string, hour: string, minute: string, second: string): string {
    DatePart(year, month, day) + " " + TimePart(hour, minute, second)
  }

  /** Fields of the right widths give a canonical timestamp whose digits are the fields in order. */
  lemma CanonicalFields(year: string, month: string, day: string, hour: string, minute: string, second: string)
    requires |year| == 4 && |month| == 2 && |day| == 2 && |hour| == 2 && |minute| == 2 && |second| == 2
    ensures var r := Canonical(year, month, day, hour, minute, second);
      IsCanonicalShape(r) && Compact(r) == year + month + day + hour + minute + second
  {
    var d, t := DatePart(year, month, day), TimePart(hour, minute, second);
    assert d[0..4] == year && d[4] == '-' && d[5..7] == month && d[7] == '-' && d[8..10] == day;
    assert t[0..2] == hour && t[2] == ':' && t[3..5] == minute && t[5] == ':' && t[6..8] == second;
    var r := d + " " + t;
    assert r[..10] == d && r[10] == ' ' && r[11..] == t;
    assert r[0..4] == d[0..4] && r[5..7] == d[5..7] && r[8..10] == d[8..10];
    assert r[11..13] == t[0..2] && r[14..16] == t[3..5] && r[17..19] == t[6..8];
  }

  /** The first fourteen characters of `t`, cut at the canonical field widths. */
  lemma FourteenFields(t: string)
    requires |t| >= 14
    ensures t[..14] == t[0..4] + t[4..6] + t[6..8] + t[8..10] + t[10..12] + t[12..14]
  {
  }

  /**
   * The API's publish time rendered canonically: a stripped string of at
   * least fourteen characters is cut into year, month, day, hour, minute and
   * second by position; anything shorter, and the empty string, gives the
   * current time `nowText`.
   */
  function FormatCompactTime(raw: string, nowText: string): (r: string)
    ensures |Strip(raw)| < 14 ==> r == nowText
  {
    if raw == "" then nowText
    else
      var t := Strip(raw);
      if |t| >= 14 then Canonical(t[0..4], t[4..6], t[6..8], t[8..10], t[10..12], t[12..14])
      else nowText
  }

  /**
   * A publish time of at least fourteen characters (after stripping) becomes
   * a canonical timestamp whose digits, separators taken out, are its first
   * fourteen characters.
   */
  lemma CompactTimeFields(raw: string, nowText: string)
    requires |Strip(raw)| >= 14
    ensures IsCanonicalShape(FormatCompactTime(raw, nowText))
    ensures Compact(FormatCompactTime(raw, nowText)) == Strip(raw)[..14]
  {
    var t := Strip(raw);
    CanonicalFields(t[0..4], t[4..6], t[6..8], t[8..10], t[10..12], t[12..14]);
    FourteenFields(t);
  }

  // ---------------------------------------------------------------------
  // Card time labels
  // ---------------------------------------------------------------------

  datatype DateTime = DateTime(year: int, month: int, day: int, hour: int, minute: int, second: int, microsecond: int)

  datatype Delta = Minutes(n: nat) | Hours(n: nat) | Days(n: nat)

  datatype Clock = Clock(
    now: DateTime,
    minus: (DateTime, Delta) -> Option<DateTime>,
    format: DateTime -> string)

  const MinutesAgo := "分钟前"
  const HoursAgo := "小时前"
  const DaysAgo := "天前"
  const Yesterday := "昨天"
  const DayBeforeYesterday := "前天"

  /** Number of ASCII digits at the start of `s`. */
  function DigitRun(s: string): (k: nat)
    ensures k <= |s| && AllDigits(s[..k])
    ensures k < |s| ==> !IsDigit(s[k])
  {
    if s == [] || !IsDigit(s[0]) then 0
    else
      var k := 1 + DigitRun(s[1..]);
      assert s[..k] == [s[0]] + s[1..][..k - 1];
      k
  }

  /** `re.search(r"(\d+)", s)` read with `int`: the value of the first run of digits. */
  function FirstNumber(s: string): Option<nat> {
    if s == [] then None
    else if IsDigit(s[0]) then Some(DecimalValue(s[..DigitRun(s)]))
    else FirstNumber(s[1..])
  }

  /** `re.match(r"\d{1,2}:\d{2}", s)`: the hour and minute of a clock time at the start of `s`. */
  function ClockAt(s: string): Option<(nat, nat)> {
    if |s| >= 5 && IsDigit(s[0]) && IsDigit(s[1]) && s[2] == ':' && IsDigit(s[3]) && IsDigit(s[4]) then
      Some((DecimalValue(s[..2]), DecimalValue(s[3..5])))
    else if |s| >= 4 && IsDigit(s[0]) && s[1] == ':' && IsDigit(s[2]) && IsDigit(s[3]) then
      Some((DecimalValue(s[..1]), DecimalValue(s[2..4])))
    else None
  }

  /** The first position at or after `from` where a clock time starts; `|s|` when there is none. */
  function ClockIndexFrom(s: string, from: nat): (i: nat)
    requires from <= |s|
    ensures from <= i <= |s|
    ensures forall j :: from <= j < i ==> ClockAt(s[j..]).None?
    ensures i < |s| ==> ClockAt(s[i..]).Some?
    decreases |s| - from
  {
    if from == |s| then |s|
    else if ClockAt(s[from..]).Some? then from
    else ClockIndexFrom(s, from + 1)
  }

  /** `re.search(r"(\d{1,2}:\d{2})", s)`: the leftmost clock time in `s`; None exactly when no position starts one. */
  function FindClock(s: string): (r: Option<(nat, nat)>)
    ensures r.None? <==> forall k :: 0 <= k < |s| ==> ClockAt(s[k..]).None?
    ensures r.Some? ==> exists k :: 0 <= k < |s| && ClockAt(s[k..]) == r && forall j :: 0 <= j < k ==> ClockAt(s[j..]).None?
  {
    var k := ClockIndexFrom(s, 0);
    if k < |s| then ClockAt(s[k..]) else None
  }

  /** `dt.replace(hour=h, minute=m, second=0, microsecond=0)`; None where Python raises `ValueError`. */
  function SetClock(dt: DateTime, h: nat, m: nat): Option<DateTime> {
    if h <= 23 && m <= 59 then Some(dt.(hour := h, minute := m, second := 0, microsecond := 0)) else None
  }

  predicate IsDateSeparator(c: char) {
    c == '.' || c == '/' || c == '-'
  }

  /** `re.match(r"\d{4}[./-]\d{2}[./-]\d{2}", s)`. */
  predicate StartsWithDate(s: string) {
    |s| >= 10 &&
    IsDigit(s[0]) && IsDigit(s[1]) && IsDigit(s[2]) && IsDigit(s[3]) && IsDateSeparator(s[4]) &&
    IsDigit(s[5]) && IsDigit(s[6]) && IsDateSeparator(s[7]) && IsDigit(s[8]) && IsDigit(s[9])
  }

  /** `now - delta`, formatted; the timeLabel itself where the subtraction overflows. */
  function Shifted(clock: Clock, delta: Delta, timeLabel: string): string {
    match clock.minus(clock.now, delta)
    case None => timeLabel
    case Some(dt) => clock.format(dt)
  }

  /** `now - days`, at the timeLabel's clock time when it carries one; the timeLabel itself on a Python error. */
  function DaysBackAt(clock: Clock, days: nat, timeLabel: string): string {
    match clock.minus(clock.now, Days(days))
    case None => timeLabel
    case Some(dt) =>
      match FindClock(timeLabel)
      case None => clock.format(dt)
      case Some((h, m)) =>
        match SetClock(dt, h, m)
        case None => timeLabel
        case Some(at) => clock.format(at)
  }

  /** An absolute date with `.` and `/` turned into `-`, plus midnight when only the date is there. */
  function AbsoluteDate(timeLabel: string): string {
    var normalized := ReplaceChar(ReplaceChar(timeLabel, '.', '-'), '/', '-');
    if |normalized| == 10 then normalized + " 00:00:00" else normalized
  }

  /**
   * `_normalize_time`: the timeLabel is stripped; a blank timeLabel gives the current
   * time; otherwise the forms are tried in the order "N minutes ago",
   * "N hours ago", "N days ago", "yesterday [HH:MM]", "day before yesterday
   * [HH:MM]", absolute date; anything else is returned as it stands.
   */
  function NormalizeTime(raw: string, clock: Clock): string {
    NormalizeLabel(Strip(raw), clock)
  }

  /** The normalizer's cases, applied to an already stripped timeLabel. */
  function NormalizeLabel(timeLabel: string, clock: Clock): string {
    if timeLabel == "" then clock.format(clock.now)
    else
      var number := FirstNumber(timeLabel);
      if Contains(timeLabel, MinutesAgo) && number.Some? then Shifted(clock, Minutes(number.value), timeLabel)
      else if Contains(timeLabel, HoursAgo) && number.Some? then Shifted(clock, Hours(number.value), timeLabel)
      else if Contains(timeLabel, DaysAgo) && number.Some? then Shifted(clock, Days(number.value), timeLabel)
      else if StartsWith(timeLabel, Yesterday) then DaysBackAt(clock, 1, timeLabel)
      else if StartsWith(timeLabel, DayBeforeYesterday) then DaysBackAt(clock, 2, timeLabel)
      else if StartsWithDate(timeLabel) then AbsoluteDate(timeLabel)
      else timeLabel
  }

  // ---------------------------------------------------------------------
  // Properties of the normalizer
  // ---------------------------------------------------------------------

  /** The normalizer strips its input itself, so a label stripped beforehand gives the same result. */
  lemma NormalizeStripped(raw: string, clock: Clock)
    ensures NormalizeTime(Strip(raw), clock) == NormalizeTime(raw, clock)
  {
    StripIdempotent(raw);
  }

  /** A string none of whose characters is `c` contains no needle that starts with `c`. */
  lemma {:induction false} AbsentLeadNotContained(hay: string, needle: string)
    requires needle != []
    requires forall i :: 0 <= i < |hay| ==> hay[i] != needle[0]
    ensures !Contains(hay, needle)
    decreases |hay|
  {
    if hay != [] {
      assert !(needle <= hay) by {
        assert hay[0] != needle[0];
      }
      assert forall i :: 0 <= i < |hay[1..]| ==> hay[1..][i] == hay[i + 1];
      AbsentLeadNotContained(hay[1..], needle);
    }
  }

  /** A needle that is a suffix is contained. */
  lemma {:induction false} SuffixContained(prefix: string, needle: string)
    ensures Contains(prefix + needle, needle)
    decreases |prefix|
  {
    if prefix == [] {
      assert prefix + needle == needle;
    } else {
      assert (prefix + needle)[1..] == prefix[1..] + needle;
      SuffixContained(prefix[1..], needle);
    }
  }

  /** The number written before a unit suffix is the one the timeLabel is read with. */
  lemma {:induction false} FirstNumberOfShown(n: nat, suffix: string)
    requires suffix != [] && !IsDigit(suffix[0])
    ensures FirstNumber(ShowNat(n) + suffix) == Some(n)
  {
    var digits := ShowNat(n);
    var s := digits + suffix;
    DigitRunOf(digits, suffix);
    assert s[..|digits|] == digits;
    ShowNatRoundTrip(n);
  }

  lemma {:induction false} DigitRunOf(digits: string, rest: string)
    requires AllDigits(digits)
    requires rest == [] || !IsDigit(rest[0])
    ensures DigitRun(digits + rest) == |digits|
    decreases |digits|
  {
    if digits == [] {
      assert digits + rest == rest;
    } else {
      assert (digits + rest)[1..] == digits[1..] + rest;
      DigitRunOf(digits[1..], rest);
    }
  }

  /** Stripping leaves a string that starts and ends with a non-space character unchanged. */
  lemma StripUnspaced(s: string)
    requires s != [] && !IsSpace(s[0]) && !IsSpace(s[|s| - 1])
    ensures Strip(s) == s
  {
  }

  /** A blank or all-whitespace timeLabel is the current time. */
  lemma NormalizeBlank(raw: string, clock: Clock)
    requires AllSpace(raw)
    ensures NormalizeTime(raw, clock) == clock.format(clock.now)
  {
  }

  /** Which relative unit a suffix stands for. */
  function UnitDelta(unit: string, n: nat): Delta {
    if unit == MinutesAgo then Minutes(n) else if unit == HoursAgo then Hours(n) else Days(n)
  }

  /**
   * "N分钟前", "N小时前" and "N天前" are `now` minus N minutes, hours or days
   * (or the timeLabel itself when that subtraction overflows).
   */
  lemma {:induction false} NormalizeRelative(n: nat, unit: string, clock: Clock)
    requires unit == MinutesAgo || unit == HoursAgo || unit == DaysAgo
    ensures NormalizeTime(ShowNat(n) + unit, clock) == Shifted(clock, UnitDelta(unit, n), ShowNat(n) + unit)
  {
    var timeLabel := ShowNat(n) + unit;
    var digits := ShowNat(n);
    assert timeLabel[0] == digits[0];
    assert timeLabel[|timeLabel| - 1] == '前';
    StripUnspaced(timeLabel);
    FirstNumberOfShown(n, unit);
    SuffixContained(digits, unit);
    if unit != MinutesAgo {
      forall i | 0 <= i < |timeLabel| ensures timeLabel[i] != MinutesAgo[0] {
        if i < |digits| { assert timeLabel[i] == digits[i]; } else { assert timeLabel[i] == unit[i - |digits|]; }
      }
      AbsentLeadNotContained(timeLabel, MinutesAgo);
    }
    if unit == DaysAgo {
      forall i | 0 <= i < |timeLabel| ensures timeLabel[i] != HoursAgo[0] {
        if i < |digits| { assert timeLabel[i] == digits[i]; } else { assert timeLabel[i] == unit[i - |digits|]; }
      }
      AbsentLeadNotContained(timeLabel, HoursAgo);
    }
  }

  /** A string in which no two adjacent characters begin `needle` does not contain it. */
  lemma {:induction false} AbsentPairNotContained(hay: string, needle: string)
    requires |needle| >= 2
    requires forall i :: 0 <= i < |hay| - 1 ==> hay[i] != needle[0] || hay[i + 1] != needle[1]
    ensures !Contains(hay, needle)
    decreases |hay|
  {
    if hay != [] {
      assert |hay| >= 2 ==> hay[0] != needle[0] || hay[1] != needle[1];
      forall i | 0 <= i < |hay[1..]| - 1 ensures hay[1..][i] != needle[0] || hay[1..][i + 1] != needle[1] {
        assert hay[1..][i] == hay[i + 1] && hay[1..][i + 1] == hay[i + 2];
      }
      AbsentPairNotContained(hay[1..], needle);
    }
  }

  /** No relative-unit branch fires: the label has no number, or names none of the three units. */
  predicate NoRelativeUnit(t: string) {
    FirstNumber(t).None? || (!Contains(t, MinutesAgo) && !Contains(t, HoursAgo) && !Contains(t, DaysAgo))
  }

  /** How far back the "昨天" and "前天" branches go. */
  function DaysBack(t: string): nat {
    if StartsWith(t, Yesterday) then 1 else 2
  }

  /**
   * A label that, once stripped, opens with "昨天" or "前天" and that no
   * relative-unit branch takes is now minus one or two days: at the leftmost
   * H:MM or HH:MM in the label, or at now's own time when it has none; the
   * label itself where the subtraction overflows or the time of day is invalid.
   */
  lemma NormalizeDaysBack(raw: string, clock: Clock)
    requires StartsWith(Strip(raw), Yesterday) || StartsWith(Strip(raw), DayBeforeYesterday)
    requires NoRelativeUnit(Strip(raw))
    ensures NormalizeTime(raw, clock) == DaysBackAt(clock, DaysBack(Strip(raw)), Strip(raw))
    ensures var t, back := Strip(raw), clock.minus(clock.now, Days(DaysBack(Strip(raw))));
      && (back.None? ==> NormalizeTime(raw, clock) == t)
      && (back.Some? && FindClock(t).None? ==> NormalizeTime(raw, clock) == clock.format(back.value))
      && (back.Some? && FindClock(t).Some? ==>
            var (h, m) := FindClock(t).value;
            NormalizeTime(raw, clock) == (match SetClock(back.value, h, m) case None => t case Some(at) => clock.format(at)))
  {
    var t := Strip(raw);
    assert StartsWith(t, Yesterday) ==> !StartsWith(t, DayBeforeYesterday) by {
      assert Yesterday[0] != DayBeforeYesterday[0];
    }
  }

  /** "昨天" or "前天". */
  predicate IsDayWord(word: string) {
    word == Yesterday || word == DayBeforeYesterday
  }

  /** "昨天" or "前天", an optional space, then H:MM or HH:MM. */
  predicate IsDayClockShape(word: string, sep: string, hh: string, mm: string) {
    IsDayWord(word) && (sep == "" || sep == " ") && 1 <= |hh| <= 2 && AllDigits(hh) && |mm| == 2 && AllDigits(mm)
  }

  /** Such a label carries no relative unit. */
  lemma DayClockNotRelative(word: string, sep: string, hh: string, mm: string)
    requires IsDayClockShape(word, sep, hh, mm)
    ensures var timeLabel := word + sep + hh + ":" + mm;
      !Contains(timeLabel, MinutesAgo) && !Contains(timeLabel, HoursAgo) && !Contains(timeLabel, DaysAgo)
  {
    var rest := sep + hh + ":" + mm;
    var timeLabel := word + rest;
    assert word + sep + hh + ":" + mm == timeLabel;
    assert forall i :: 0 <= i < |rest| ==> IsDigit(rest[i]) || rest[i] == ' ' || rest[i] == ':' by {
      forall i | 0 <= i < |rest| ensures IsDigit(rest[i]) || rest[i] == ' ' || rest[i] == ':' {
        if i < |sep| { assert rest[i] == sep[i]; }
        else if i < |sep| + |hh| { assert rest[i] == hh[i - |sep|]; }
        else if i == |sep| + |hh| { assert rest[i] == ':'; }
        else { assert rest[i] == mm[i - |sep| - |hh| - 1]; }
      }
    }
    forall i | 0 <= i < |timeLabel|
      ensures timeLabel[i] != MinutesAgo[0] && timeLabel[i] != HoursAgo[0]
      ensures i + 1 < |timeLabel| ==> timeLabel[i] != DaysAgo[0] || timeLabel[i + 1] != DaysAgo[1]
    {
      if i >= 2 { assert timeLabel[i] == rest[i - 2]; }
      if i + 1 >= 2 && i + 1 < |timeLabel| { assert timeLabel[i + 1] == rest[i - 1]; }
    }
    AbsentLeadNotContained(timeLabel, MinutesAgo);
    AbsentLeadNotContained(timeLabel, HoursAgo);
    AbsentPairNotContained(timeLabel, DaysAgo);
  }

  /** `re.match(r"\d{1,2}:\d{2}", ...)` on exactly H:MM or HH:MM reads its hour and minute. */
  lemma ClockAtShape(hh: string, mm: string)
    requires 1 <= |hh| <= 2 && AllDigits(hh) && |mm| == 2 && AllDigits(mm)
    ensures ClockAt(hh + ":" + mm) == Some((DecimalValue(hh), DecimalValue(mm)))
  {
    var s := hh + ":" + mm;
    if |hh| == 2 {
      assert s[..2] == hh && s[3..5] == mm;
    } else {
      assert s[..1] == hh && s[2..4] == mm;
    }
  }

  /** In such a label the leftmost clock time is the one after the word. */
  lemma DayClockFound(word: string, sep: string, hh: string, mm: string)
    requires IsDayClockShape(word, sep, hh, mm)
    ensures FindClock(word + sep + hh + ":" + mm) == Some((DecimalValue(hh), DecimalValue(mm)))
  {
    var p := |word| + |sep|;
    var timeLabel := word + sep + hh + ":" + mm;
    assert timeLabel[p..] == hh + ":" + mm;
    ClockAtShape(hh, mm);
    forall j | 0 <= j < p ensures ClockAt(timeLabel[j..]).None? {
      assert timeLabel[j..][0] == timeLabel[j];
      assert !IsDigit(timeLabel[j]) by {
        if j < 2 { assert timeLabel[j] == word[j]; } else { assert timeLabel[j] == sep[j - 2]; }
      }
    }
    assert ClockAt(timeLabel[p..]).Some?;
    assert ClockIndexFrom(timeLabel, 0) == p;
  }

  /**
   * "昨天 HH:MM", "前天9:30" and the like are one or two days before `now` at
   * that time, seconds zeroed (the label itself when the time of day is
   * invalid or the subtraction overflows).
   */
  lemma {:induction false} NormalizeDayClock(word: string, sep: string, hh: string, mm: string, clock: Clock)
    requires IsDayClockShape(word, sep, hh, mm)
    ensures var timeLabel := word + sep + hh + ":" + mm;
      NormalizeTime(timeLabel, clock) ==
        match clock.minus(clock.now, Days(if word == Yesterday then 1 else 2))
        case None => timeLabel
        case Some(dt) =>
          match SetClock(dt, DecimalValue(hh), DecimalValue(mm))
          case None => timeLabel
          case Some(at) => clock.format(at)
  {
    var timeLabel := word + sep + hh + ":" + mm;
    assert timeLabel[0] == word[0] && timeLabel[|timeLabel| - 1] == mm[1];
    StripUnspaced(timeLabel);
    DayClockNotRelative(word, sep, hh, mm);
    assert StartsWith(timeLabel, word) by {
      assert timeLabel[..2] == word;
    }
    assert DaysBack(timeLabel) == if word == Yesterday then 1 else 2 by {
      assert Yesterday[0] != DayBeforeYesterday[0];
    }
    NormalizeDaysBack(timeLabel, clock);
    DayClockFound(word, sep, hh, mm);
  }

  /** A bare "昨天" or "前天" is `now` minus one or two days at `now`'s own time. */
  lemma NormalizeBareDay(word: string, clock: Clock)
    requires IsDayWord(word)
    ensures NormalizeTime(word, clock) == Shifted(clock, Days(if word == Yesterday then 1 else 2), word)
  {
    StripUnspaced(word);
    assert FirstNumber(word[1..][1..]).None? by {
      assert word[1..][1..] == [];
    }
    assert FindClock(word).None? by {
      forall k | 0 <= k < |word| ensures ClockAt(word[k..]).None? {
        assert |word[k..]| <= 2;
      }
    }
    assert StartsWith(word, word);
    assert Yesterday[0] != DayBeforeYesterday[0];
    NormalizeDaysBack(word, clock);
  }

  /** A bare date label: "YYYY?MM?DD" with `.`, `/` or `-` separators and nothing else. */
  predicate IsDateLabel(s: string) {
    |s| == 10 && StartsWithDate(s)
  }

  /** A bare date carries no relative unit and no "yesterday" prefix. */
  lemma DateLabelNotRelative(timeLabel: string)
    requires IsDateLabel(timeLabel)
    ensures !Contains(timeLabel, MinutesAgo) && !Contains(timeLabel, HoursAgo) && !Contains(timeLabel, DaysAgo)
    ensures !StartsWith(timeLabel, Yesterday) && !StartsWith(timeLabel, DayBeforeYesterday)
  {
    forall i | 0 <= i < |timeLabel|
      ensures IsDigit(timeLabel[i]) || IsDateSeparator(timeLabel[i])
    {
    }
    forall i | 0 <= i < |timeLabel|
      ensures timeLabel[i] != MinutesAgo[0] && timeLabel[i] != HoursAgo[0] && timeLabel[i] != DaysAgo[0]
    {
    }
    AbsentLeadNotContained(timeLabel, MinutesAgo);
    AbsentLeadNotContained(timeLabel, HoursAgo);
    AbsentLeadNotContained(timeLabel, DaysAgo);
  }

  /**
   * A bare date becomes "YYYY-MM-DD 00:00:00": a canonical timestamp carrying
   * the date's digits at midnight.
   */
  lemma {:induction false} NormalizeDateOnly(timeLabel: string, clock: Clock)
    requires IsDateLabel(timeLabel)
    ensures var r := NormalizeTime(timeLabel, clock);
      && r == Canonical(timeLabel[0..4], timeLabel[5..7], timeLabel[8..10], "00", "00", "00")
      && IsCanonicalShape(r)
      && Compact(r) == timeLabel[0..4] + timeLabel[5..7] + timeLabel[8..10] + "000000"
  {
    StripUnspaced(timeLabel);
    DateLabelNotRelative(timeLabel);
    DateLabelIsAbsolute(timeLabel, clock);
    AbsoluteDateFields(timeLabel);
    CanonicalFields(timeLabel[0..4], timeLabel[5..7], timeLabel[8..10], "00", "00", "00");
  }

  /**
   * A label that, once stripped, opens with a date and names no relative unit
   * takes the absolute-date branch, whatever follows the date
   * ("2024/01/15 10:30" gives "2024-01-15 10:30").
   */
  lemma DateLabelIsAbsolute(raw: string, clock: Clock)
    requires StartsWithDate(Strip(raw))
    requires !Contains(Strip(raw), MinutesAgo) && !Contains(Strip(raw), HoursAgo) && !Contains(Strip(raw), DaysAgo)
    ensures NormalizeTime(raw, clock) == AbsoluteDate(Strip(raw))
  {
    var stripped := Strip(raw);
    assert stripped[0] != Yesterday[0] && stripped[0] != DayBeforeYesterday[0];
    assert NormalizeLabel(stripped, clock) == AbsoluteDate(stripped);
  }

  /** A bare date with its separators turned into `-`, at midnight. */
  lemma AbsoluteDateFields(timeLabel: string)
    requires IsDateLabel(timeLabel)
    ensures AbsoluteDate(timeLabel) == Canonical(timeLabel[0..4], timeLabel[5..7], timeLabel[8..10], "00", "00", "00")
  {
    var normalized := ReplaceChar(ReplaceChar(timeLabel, '.', '-'), '/', '-');
    var date := DatePart(timeLabel[0..4], timeLabel[5..7], timeLabel[8..10]);
    assert normalized == date by {
      forall i | 0 <= i < 10 ensures normalized[i] == date[i] {
        if i < 4 { assert date[i] == timeLabel[i]; }
        else if 5 <= i < 7 { assert date[i] == timeLabel[i]; }
        else if 8 <= i { assert date[i] == timeLabel[i]; }
      }
    }
    assert " 00:00:00" == " " + TimePart("00", "00", "00");
  }


  /** A timeLabel of none of the recognized forms is returned stripped but otherwise unchanged. */
  lemma NormalizeUnrecognized(raw: string, clock: Clock)
    requires Strip(raw) != ""
    requires FirstNumber(Strip(raw)).None? ||
             (!Contains(Strip(raw), MinutesAgo) && !Contains(Strip(raw), HoursAgo) && !Contains(Strip(raw), DaysAgo))
    requires !StartsWith(Strip(raw), Yesterday) && !StartsWith(Strip(raw), DayBeforeYesterday)
    requires !StartsWithDate(Strip(raw))
    ensures NormalizeTime(raw, clock) == Strip(raw)
  {
  }
}
