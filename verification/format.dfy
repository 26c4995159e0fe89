/** The two display formatters: `formatTime` turns the seconds left in an
    interval into an `MM:SS` clock face, and `formatMinutes` turns a todo's
    accumulated minutes into a Japanese hours/minutes label. Each comes with
    a reader for its output, and a lemma that reading gives the number back. */
module Format {

  import opened Optional
  import opened Strings

  /** 分 (minutes) */
  const MinuteMark: char := '\U{5206}'
  /** 時 (the first character of 時間, hours) */
  const HourChar: char := '\U{6642}'
  /** 時間 (hours) */
  const HourMark: string := [HourChar, '\U{9593}']

  /** `n.toString().padStart(2, '0')` */
  function TwoDigits(n: nat): (r: string)
    ensures |r| >= 2 && AllDigits(r)
    ensures n < 100 ==> |r| == 2
    ensures r[0] == '0' <==> n < 10
  {
    PadStart(NatToString(n), 2, '0')
  }

  /** `formatTime(seconds)`: whole minutes, a colon, the remaining seconds,
      both fields zero-padded to two digits. The minutes field grows past two
      digits from 100 minutes on, with no padding zero then; the seconds
      field is always two digits. */
  function FormatTime(seconds: nat): (r: string)
    ensures IsFace(r, seconds)
  {
    var m, sec := seconds / 60, seconds % 60;
    ClockShape(seconds, m, sec);
    Clock(m, sec)
  }

  /** The shape of the face showing `seconds`: digits, a colon three places
      from the end, five characters below 100 minutes, and a leading zero
      exactly below 10 minutes (from 100 minutes on the minutes field is
      the plain number). */
  predicate IsFace(r: string, seconds: nat) {
    && |r| >= 5 && r[|r| - 3] == ':'
    && AllDigits(r[..|r| - 3]) && AllDigits(r[|r| - 2..])
    && (seconds < 6000 ==> |r| == 5)
    && (r[0] == '0' <==> seconds < 600)
  }

  /** The clock face of `60 * m + sec` in terms of the seconds it shows. */
  lemma ClockShape(seconds: nat, m: nat, sec: nat)
    requires seconds == 60 * m + sec && sec < 60
    ensures IsFace(Clock(m, sec), seconds)
  {
    assert seconds < 6000 ==> m < 100;
    assert m < 10 <==> seconds < 600;
  }

  /** Two zero-padded fields around a colon. */
  function Clock(minutes: nat, secs: nat): (r: string)
    requires secs < 60
    ensures |r| >= 5 && r[|r| - 3] == ':'
    ensures AllDigits(r[..|r| - 3]) && AllDigits(r[|r| - 2..])
    ensures minutes < 100 ==> |r| == 5
    ensures r[0] == '0' <==> minutes < 10
  {
    var mm, ss := TwoDigits(minutes), TwoDigits(secs);
    assert (mm + ":" + ss)[..|mm|] == mm;
    assert (mm + ":" + ss)[|mm| + 1..] == ss;
    mm + ":" + ss
  }

  /** Reads an `MM:SS` clock face back into seconds: digits, one colon, two
      digits below 60. */
  function ParseClock(s: string): (r: Option<nat>)
    ensures r.Some? ==> ':' in s
  {
    match IndexOf(s, ':')
    case None => None
    case Some(i) =>
      var minutes := ParseNat(s[..i]);
      var secs := ParseNat(s[i + 1..]);
      if minutes.Some? && secs.Some? && |s| - i == 3 && secs.value < 60 then
        Some(60 * minutes.value + secs.value)
      else
        None
  }

  /** The clock face reads back as the seconds it shows: the minutes field
      holds `seconds / 60`, the seconds field `seconds % 60`. */
  lemma FormatTimeRoundTrip(seconds: nat)
    ensures ParseClock(FormatTime(seconds)) == Some(seconds)
  {
    FormatTimeIsClock(seconds);
    ClockRoundTrip(seconds, seconds / 60, seconds % 60);
  }

  /** `formatTime` is the clock face of whole minutes and leftover seconds. */
  lemma FormatTimeIsClock(seconds: nat)
    ensures FormatTime(seconds) == Clock(seconds / 60, seconds % 60)
  {
  }

  /** The face of `m` minutes and `sec` seconds reads back as the seconds it
      shows. */
  lemma ClockRoundTrip(seconds: nat, m: nat, sec: nat)
    requires seconds == 60 * m + sec && sec < 60
    ensures ParseClock(Clock(m, sec)) == Some(seconds)
  {
    var mm, ss := TwoDigits(m), TwoDigits(sec);
    assert Clock(m, sec) == mm + ":" + ss;
    PaddedRoundTrip(m, 2);
    PaddedRoundTrip(sec, 2);
    ParseClockFields(mm, ss, seconds, m, sec);
  }

  /** A clock face made of two digit fields reads as minutes times 60 plus
      seconds. */
  lemma ParseClockFields(mm: string, ss: string, seconds: nat, m: nat, sec: nat)
    requires ParseNat(mm) == Some(m) && ParseNat(ss) == Some(sec)
    requires |ss| == 2 && seconds == 60 * m + sec && sec < 60
    ensures ParseClock(mm + ":" + ss) == Some(seconds)
  {
    var rest := ":" + ss;
    DigitsExclude(mm, ':');
    IndexOfAfter(mm, rest, ':');
    assert (mm + rest)[..|mm|] == mm;
    assert (mm + rest)[|mm| + 1..] == ss;
    assert mm + ":" + ss == mm + rest;
  }

  /** Two different second counts never show the same clock face. */
  lemma FormatTimeInjective(a: nat, b: nat)
    requires FormatTime(a) == FormatTime(b)
    ensures a == b
  {
    FormatTimeRoundTrip(a);
    FormatTimeRoundTrip(b);
  }

  /** `formatMinutes(minutes)`: below 60 just the number and 分; from 60 on
      the whole hours and 時間, then the leftover minutes and 分 only when
      there are any. A negative count takes the first branch. */
  function FormatMinutes(minutes: int): (r: string)
    ensures |r| > 0
    ensures HourChar in r <==> minutes >= 60
    ensures r[|r| - 1] == MinuteMark <==> minutes < 60 || minutes % 60 > 0
    ensures minutes < 60 ==> MinuteMark !in r[..|r| - 1]
  {
    if minutes < 60 then MinutesLabel(minutes) else HoursLabel(minutes / 60, minutes % 60)
  }

  /** `{minutes}分` */
  function MinutesLabel(minutes: int): (r: string)
    ensures |r| > 0 && r[|r| - 1] == MinuteMark && HourChar !in r
    ensures MinuteMark !in r[..|r| - 1]
  {
    IntToString(minutes) + [MinuteMark]
  }

  /** `{hours}時間`, followed by `{mins}分` when `mins > 0`. */
  function HoursLabel(hours: nat, mins: nat): (r: string)
    ensures |r| > 0 && HourChar in r
    ensures r[|r| - 1] == MinuteMark <==> mins > 0
  {
    NatToString(hours) + HourMark + LeftoverField(mins)
  }

  /** Reads a label of the form `{m}分` (with m < 60), `{h}時間` or
      `{h}時間{m}分` (with h >= 1 and 0 < m < 60) back into minutes. The
      numbers must be written as `toString` writes them. */
  function ParseMinutesLabel(s: string): (r: Option<int>)
  {
    match IndexOf(s, HourChar)
    case None => ParseMinutesOnly(s)
    case Some(i) => ParseHours(s[..i], s[i..])
  }

  /** Reads a label of the form `{m}分` with m < 60. */
  function ParseMinutesOnly(s: string): (r: Option<int>)
  {
    if |s| > 0 && s[|s| - 1] == MinuteMark then
      match ParseInt(s[..|s| - 1])
      case Some(m) => if m < 60 then Some(m) else None
      case None => None
    else None
  }

  /** Reads the hours field `hs` and what follows it: 時間, then optionally
      a minutes field and 分. */
  function ParseHours(hs: string, rest: string): (r: Option<int>)
  {
    var hours := ParseInt(hs);
    if hours.None? || hours.value < 1 || |rest| < 2 || rest[..2] != HourMark then None
    else if |rest| == 2 then Some(60 * hours.value)
    else
      var tail := rest[2..];
      var mins := ParseInt(tail[..|tail| - 1]);
      if tail[|tail| - 1] == MinuteMark && mins.Some? && 0 < mins.value < 60 then
        Some(60 * hours.value + mins.value)
      else
        None
  }

  /** The label reads back as the minutes it was made from, negative counts
      included. */
  lemma FormatMinutesRoundTrip(minutes: int)
    ensures ParseMinutesLabel(FormatMinutes(minutes)) == Some(minutes)
  {
    if minutes < 60 {
      MinutesLabelRoundTrip(minutes);
    } else {
      HoursLabelRoundTrip(minutes, minutes / 60, minutes % 60);
    }
  }

  lemma MinutesLabelRoundTrip(minutes: int)
    requires minutes < 60
    ensures ParseMinutesLabel(MinutesLabel(minutes)) == Some(minutes)
  {
    var r := MinutesLabel(minutes);
    assert r[..|r| - 1] == IntToString(minutes);
    IntToStringRoundTrip(minutes);
  }

  /** The tail after 時間 in an hours label. */
  function LeftoverField(mins: nat): string {
    if mins > 0 then NatToString(mins) + [MinuteMark] else []
  }

  lemma HoursLabelRoundTrip(m: int, hours: nat, mins: nat)
    requires hours >= 1 && mins < 60 && m == 60 * hours + mins
    ensures ParseMinutesLabel(HoursLabel(hours, mins)) == Some(m)
  {
    var h := NatToString(hours);
    var rest := HourMark + LeftoverField(mins);
    assert HoursLabel(hours, mins) == h + rest;
    LabelSplitsAtHours(h, rest);
    ParseHoursRoundTrip(m, hours, mins);
  }

  /** The hours field is read up to the first 時. */
  lemma LabelSplitsAtHours(h: string, rest: string)
    requires AllDigits(h) && |rest| > 0 && rest[0] == HourChar
    ensures ParseMinutesLabel(h + rest) == ParseHours(h, rest)
  {
    DigitsExclude(h, HourChar);
    IndexOfAfter(h, rest, HourChar);
    assert (h + rest)[..|h|] == h;
    assert (h + rest)[|h|..] == rest;
  }

  lemma ParseHoursRoundTrip(m: int, hours: nat, mins: nat)
    requires hours >= 1 && mins < 60 && m == 60 * hours + mins
    ensures ParseHours(NatToString(hours), HourMark + LeftoverField(mins)) == Some(m)
  {
    IntToStringRoundTrip(hours);
    if mins == 0 {
      assert HourMark + LeftoverField(mins) == HourMark;
    } else {
      LeftoverRead(mins);
    }
  }

  /** A nonzero leftover after 時間 reads back as the minutes it holds. */
  lemma LeftoverRead(mins: nat)
    requires 0 < mins < 60
    ensures var tail := (HourMark + LeftoverField(mins))[2..];
      && tail[|tail| - 1] == MinuteMark
      && ParseInt(tail[..|tail| - 1]) == Some(mins)
  {
    var tail := LeftoverField(mins);
    assert (HourMark + tail)[2..] == tail;
    assert tail[..|tail| - 1] == NatToString(mins);
    IntToStringRoundTrip(mins);
  }

  /** The reader accepts exactly the labels `formatMinutes` prints: a string
      reads as `m` if and only if it is the label of `m`. */
  lemma FormatMinutesExact(s: string, m: int)
    ensures ParseMinutesLabel(s) == Some(m) <==> s == FormatMinutes(m)
  {
    if s == FormatMinutes(m) {
      FormatMinutesRoundTrip(m);
    }
    if ParseMinutesLabel(s) == Some(m) {
      LabelIsPrinted(s, m);
    }
  }

  /** Whatever the reader accepts is the label of what it read. */
  lemma LabelIsPrinted(s: string, m: int)
    requires ParseMinutesLabel(s) == Some(m)
    ensures FormatMinutes(m) == s
  {
    var i := IndexOf(s, HourChar);
    if i.None? {
      MinutesIsPrinted(s, m);
    } else {
      HoursIsPrinted(s[..i.value], s[i.value..], m);
      assert s == s[..i.value] + s[i.value..];
    }
  }

  lemma MinutesIsPrinted(s: string, m: int)
    requires ParseMinutesOnly(s) == Some(m)
    ensures FormatMinutes(m) == s
  {
    var body := s[..|s| - 1];
    ParseIntExact(body, m);
    assert s == body + [MinuteMark];
  }

  lemma HoursIsPrinted(hs: string, rest: string, m: int)
    requires ParseHours(hs, rest) == Some(m)
    ensures FormatMinutes(m) == hs + rest
  {
    if |rest| == 2 {
      WholeHoursAreRead(hs, rest, m);
    } else {
      HoursAndMinutesAreRead(hs, rest, m);
    }
  }

  lemma WholeHoursAreRead(hs: string, rest: string, m: int)
    requires ParseHours(hs, rest) == Some(m) && |rest| == 2
    ensures FormatMinutes(m) == hs + rest
  {
    var h := ParseInt(hs).value;
    assert IntToString(h) == hs by {
      ParseIntExact(hs, h);
    }
    assert rest == HourMark by {
      assert rest == rest[..2];
    }
    assert m == 60 * h;
    WholeHoursIsPrinted(hs, rest, m, h);
  }

  lemma HoursAndMinutesAreRead(hs: string, rest: string, m: int)
    requires ParseHours(hs, rest) == Some(m) && |rest| > 2
    ensures FormatMinutes(m) == hs + rest
  {
    var h := ParseInt(hs).value;
    assert IntToString(h) == hs by {
      ParseIntExact(hs, h);
    }
    var tail := rest[2..];
    var field := tail[..|tail| - 1];
    var mins := ParseInt(field).value;
    assert IntToString(mins) == field by {
      ParseIntExact(field, mins);
    }
    assert rest == HourMark + (field + [MinuteMark]) by {
      assert tail == field + [MinuteMark];
      assert rest == rest[..2] + tail;
    }
    assert m == 60 * h + mins;
    HoursAndMinutesArePrinted(hs, rest, field, m, h, mins);
  }

  lemma WholeHoursIsPrinted(hs: string, rest: string, m: int, h: int)
    requires h >= 1 && IntToString(h) == hs && rest == HourMark && m == 60 * h
    ensures FormatMinutes(m) == hs + rest
  {
    HoursLabelIs(m, h, 0);
    assert LeftoverField(0) == [];
    assert hs + rest + [] == hs + rest;
  }

  lemma HoursAndMinutesArePrinted(hs: string, rest: string, field: string, m: int, h: int, mins: int)
    requires h >= 1 && IntToString(h) == hs
    requires 0 < mins < 60 && IntToString(mins) == field
    requires rest == HourMark + (field + [MinuteMark]) && m == 60 * h + mins
    ensures FormatMinutes(m) == hs + rest
  {
    HoursLabelIs(m, h, mins);
    Concat3(hs, HourMark, field + [MinuteMark]);
  }

  lemma Concat3(a: string, b: string, c: string)
    ensures a + (b + c) == a + b + c
  {
  }

  /** From 60 minutes on, the label is the hours label of the quotient and
      remainder by 60. */
  lemma HoursLabelIs(m: int, h: nat, mins: nat)
    requires h >= 1 && mins < 60 && m == 60 * h + mins
    ensures FormatMinutes(m) == HoursLabel(h, mins)
  {
    assert m / 60 == h && m % 60 == mins;
  }
}
