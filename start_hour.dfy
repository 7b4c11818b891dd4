/**
 * Validation of the start-hour token of a parking intent
 * (`validate_start_hour` in services/ai-agent/app/main.py). The wall clock
 * read by the source is the parameter `now`.
 */
module StartHour {
  import opened Wrappers
  import opened PyText

  type Hour = h: int | 0 <= h < 24
  type Minute = m: int | 0 <= m < 60

  /** The current time of day, as the validator reads it from the wall clock. */
  datatype Clock = Clock(hour: Hour, minute: Minute)

  /** The outcome of validating a start hour: accepted, or rejected with a message for the user. */
  datatype Verdict = Accepted | Rejected(reason: string)

  const InvalidFormatMessage := "Invalid time format. Please use HH:mm format (e.g., '14:30')."
  const InvalidHourMessage := "Invalid hour. Hour must be between 00 and 23."
  const InvalidMinuteMessage := "Invalid minute. Minute must be between 00 and 59."

  /** An ASCII decimal digit. */
  predicate IsDigit(c: char) {
    '0' <= c <= '9'
  }

  function DigitValue(c: char): nat
    requires IsDigit(c)
  {
    c as int - '0' as int
  }

  function DigitChar(d: nat): char
    requires d < 10
  {
    ('0' as int + d) as char
  }

  /** A number below 100 written with two digits, zero-padded (`%H`, `%M`). */
  function TwoDigits(n: nat): string
    requires n < 100
  {
    [DigitChar(n / 10), DigitChar(n % 10)]
  }

  /** A time of day written `HH:MM`, as `strftime("%H:%M")` writes it. */
  function FormatTime(hour: Hour, minute: Minute): string {
    TwoDigits(hour) + ":" + TwoDigits(minute)
  }

  function FormatClock(now: Clock): string {
    FormatTime(now.hour, now.minute)
  }

  /**
   * `re.match(r'^\d{2}:\d{2}$', s)`: two digits, a colon and two digits. The
   * anchor `$` also matches just before a final newline, so one trailing
   * newline is accepted as well.
   */
  predicate MatchesTimePattern(s: string) {
    && (|s| == 5 || (|s| == 6 && s[5] == '\n'))
    && IsDigit(s[0]) && IsDigit(s[1]) && s[2] == ':' && IsDigit(s[3]) && IsDigit(s[4])
  }

  /** The hour written in a matching token (`int` of the part before the colon). */
  function HourOf(s: string): nat
    requires MatchesTimePattern(s)
  {
    10 * DigitValue(s[0]) + DigitValue(s[1])
  }

  /** The minute written in a matching token (`int` ignores the trailing newline). */
  function MinuteOf(s: string): nat
    requires MatchesTimePattern(s)
  {
    10 * DigitValue(s[3]) + DigitValue(s[4])
  }

  /** `hour:minute` lies strictly before the current time of day. */
  predicate Before(hour: int, minute: int, now: Clock) {
    hour < now.hour || (hour == now.hour && minute < now.minute)
  }

  function PastTimeMessage(token: string, now: Clock): string {
    "The start time you provided (" + token
    + ") is in the past. Please provide a valid start time for today (current time is "
    + FormatClock(now) + ")."
  }

  /**
   * `validate_start_hour`: an absent or blank token is accepted (the field is
   * optional here); otherwise the token must match the pattern, name an hour
   * up to 23 and a minute up to 59, in that order of checks, and must not lie
   * before `now` on the same day.
   */
  function ValidateStartHour(startHour: Option<string>, now: Clock): Verdict {
    if startHour.None? || Strip(startHour.value) == "" then Accepted
    else if !MatchesTimePattern(startHour.value) then Rejected(InvalidFormatMessage)
    else
      var hour, minute := HourOf(startHour.value), MinuteOf(startHour.value);
      if hour > 23 then Rejected(InvalidHourMessage)
      else if minute > 59 then Rejected(InvalidMinuteMessage)
      else if Before(hour, minute, now) then Rejected(PastTimeMessage(startHour.value, now))
      else Accepted
  }

  /** A token that matches the pattern is never blank: it starts with a digit. */
  lemma MatchingIsNotBlank(s: string)
    requires MatchesTimePattern(s)
    ensures Strip(s) != ""
  {
    assert !IsSpace(s[0]);
  }

  /** An absent token, or one that is blank after stripping, is accepted. */
  lemma AbsentOrBlankAccepted(startHour: Option<string>, now: Clock)
    requires startHour.None? || IsBlank(startHour.value)
    ensures ValidateStartHour(startHour, now) == Accepted
  {
  }

  /** A non-blank token of any other shape than `DD:DD` is rejected as a format error. */
  lemma MalformedRejected(token: string, now: Clock)
    requires !IsBlank(token) && !MatchesTimePattern(token)
    ensures ValidateStartHour(Some(token), now) == Rejected(InvalidFormatMessage)
  {
  }

  /** Surrounding spaces are not stripped before matching: " 14:30" is a format error. */
  lemma LeadingSpaceRejected(now: Clock)
    ensures ValidateStartHour(Some(" 14:30"), now) == Rejected(InvalidFormatMessage)
  {
    var s := " 14:30";
    assert !IsSpace(s[1]);
    assert !IsBlank(s);
  }

  /** An hour above 23 is rejected before the minute is looked at. */
  lemma HourCheckedFirst(token: string, now: Clock)
    requires MatchesTimePattern(token) && HourOf(token) > 23
    ensures ValidateStartHour(Some(token), now) == Rejected(InvalidHourMessage)
  {
    MatchingIsNotBlank(token);
  }

  /** With a valid hour, a minute above 59 is rejected. */
  lemma MinuteChecked(token: string, now: Clock)
    requires MatchesTimePattern(token) && HourOf(token) <= 23 && MinuteOf(token) > 59
    ensures ValidateStartHour(Some(token), now) == Rejected(InvalidMinuteMessage)
  {
    MatchingIsNotBlank(token);
  }

  /**
   * A well-formed token strictly earlier than `now` is rejected, and the
   * message shows both the token and the current time as HH:MM.
   */
  lemma PastRejected(token: string, now: Clock)
    requires MatchesTimePattern(token) && HourOf(token) <= 23 && MinuteOf(token) <= 59
    requires Before(HourOf(token), MinuteOf(token), now)
    ensures ValidateStartHour(Some(token), now) == Rejected(PastTimeMessage(token, now))
    ensures OccursAt(PastTimeMessage(token, now), token, 29)
    ensures OccursAt(PastTimeMessage(token, now), FormatClock(now), |PastTimeMessage(token, now)| - 7)
  {
    MatchingIsNotBlank(token);
    var msg := PastTimeMessage(token, now);
    var prefix := "The start time you provided (";
    var middle := ") is in the past. Please provide a valid start time for today (current time is ";
    assert |prefix| == 29;
    assert msg == prefix + token + middle + FormatClock(now) + ").";
    assert msg[29..29 + |token|] == token;
    assert |FormatClock(now)| == 5;
    assert msg[|msg| - 7..|msg| - 2] == FormatClock(now);
  }

  /** A well-formed token not earlier than `now` (the same minute included) is accepted. */
  lemma NotEarlierAccepted(token: string, now: Clock)
    requires MatchesTimePattern(token) && HourOf(token) <= 23 && MinuteOf(token) <= 59
    requires !Before(HourOf(token), MinuteOf(token), now)
    ensures ValidateStartHour(Some(token), now) == Accepted
  {
    MatchingIsNotBlank(token);
  }

  /** The tokens the validator accepts, in both directions. */
  lemma AcceptedIff(startHour: Option<string>, now: Clock)
    ensures ValidateStartHour(startHour, now) == Accepted <==>
      || startHour.None?
      || IsBlank(startHour.value)
      || (&& MatchesTimePattern(startHour.value)
          && HourOf(startHour.value) <= 23 && MinuteOf(startHour.value) <= 59
          && !Before(HourOf(startHour.value), MinuteOf(startHour.value), now))
  {
  }

  /** Every rejection carries a non-empty reason. */
  lemma RejectionExplained(startHour: Option<string>, now: Clock)
    ensures ValidateStartHour(startHour, now).Rejected? ==> ValidateStartHour(startHour, now).reason != ""
  {
    if startHour.Some? {
      assert |PastTimeMessage(startHour.value, now)| > 29;
    }
  }

  lemma DigitRoundTrip(d: nat)
    requires d < 10
    ensures IsDigit(DigitChar(d)) && DigitValue(DigitChar(d)) == d
  {
  }

  /** Writing a time as HH:MM and reading it back gives the same hour and minute. */
  lemma {:induction false} FormatTimeRoundTrip(hour: Hour, minute: Minute)
    ensures MatchesTimePattern(FormatTime(hour, minute))
    ensures HourOf(FormatTime(hour, minute)) == hour
    ensures MinuteOf(FormatTime(hour, minute)) == minute
  {
    var s := FormatTime(hour, minute);
    DigitRoundTrip(hour / 10);
    DigitRoundTrip(hour % 10);
    DigitRoundTrip(minute / 10);
    DigitRoundTrip(minute % 10);
    assert s[0] == DigitChar(hour / 10) && s[1] == DigitChar(hour % 10);
    assert s[3] == DigitChar(minute / 10) && s[4] == DigitChar(minute % 10);
  }

  /**
   * A time written HH:MM is accepted exactly when it is not before `now`;
   * in particular the current time itself is accepted.
   */
  lemma FormattedTimeVerdict(hour: Hour, minute: Minute, now: Clock)
    ensures ValidateStartHour(Some(FormatTime(hour, minute)), now) ==
      if Before(hour, minute, now) then Rejected(PastTimeMessage(FormatTime(hour, minute), now)) else Accepted
  {
    FormatTimeRoundTrip(hour, minute);
    MatchingIsNotBlank(FormatTime(hour, minute));
  }

  /** A token followed by one newline gets the same verdict kind as the token alone. */
  lemma TrailingNewlineAccepted(token: string, now: Clock)
    requires |token| == 5 && MatchesTimePattern(token)
    ensures MatchesTimePattern(token + "\n")
    ensures ValidateStartHour(Some(token + "\n"), now).Accepted? == ValidateStartHour(Some(token), now).Accepted?
  {
    var t := token + "\n";
    assert t[..5] == token;
    MatchingIsNotBlank(token);
    MatchingIsNotBlank(t);
  }

  /** "09:05" at 18:52 is rejected as past, with a message naming both times. */
  lemma PastTokenExample()
    ensures ValidateStartHour(Some("09:05"), Clock(18, 52)) == Rejected(PastTimeMessage("09:05", Clock(18, 52)))
    ensures FormatClock(Clock(18, 52)) == "18:52"
  {
    FormatTimeRoundTrip(9, 5);
    assert FormatTime(9, 5) == "09:05";
    PastRejected("09:05", Clock(18, 52));
  }
}
