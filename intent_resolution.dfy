/**
 * The decision the intent endpoint takes once the extraction oracle has
 * answered (`parse_intent` in services/ai-agent/app/main.py). The oracle's
 * answer is an input: every mandatory field is re-checked here, whatever the
 * oracle claims, and the outcome is either a clarification request or a
 * complete intent.
 */
module IntentResolution {
  import opened Wrappers
  import opened PyText
  import opened Models
  import opened StartHour

  /**
   * The extraction oracle's answer, key by key. `None` stands for a key that
   * is missing or null; a missing flag reads as false.
   */
  datatype RawIntentGuess = RawIntentGuess(
    locationQuery: Option<string>,
    durationMinutes: Option<int>,
    startHour: Option<string>,
    maxPrice: Option<real>,
    preferences: Option<map<string, Json>>,
    needsClarification: bool,
    clarificationMessage: Option<string>,
    isMoreRequest: bool,
    requestedRadiusKm: Option<real>,
    isClosestRequest: bool,
    isCheapestRequest: bool)

  /** The duration is absent or below one minute. */
  predicate MissingDuration(g: RawIntentGuess) {
    g.durationMinutes.None? || g.durationMinutes.value < 1
  }

  /** The location is absent, empty or whitespace only. */
  predicate MissingLocation(g: RawIntentGuess) {
    g.locationQuery.None? || Strip(g.locationQuery.value) == ""
  }

  /** The start hour is absent, empty or whitespace only. */
  predicate MissingStartHour(g: RawIntentGuess) {
    g.startHour.None? || Strip(g.startHour.value) == ""
  }

  /** A start hour is present and the validator rejects it. */
  predicate StartHourRejected(g: RawIntentGuess, now: Clock) {
    !MissingStartHour(g) && ValidateStartHour(g.startHour, now).Rejected?
  }

  /** The oracle asked for clarification, a mandatory field is missing, or the start hour is invalid. */
  predicate NeedsClarification(g: RawIntentGuess, now: Clock) {
    || g.needsClarification
    || MissingDuration(g) || MissingLocation(g) || MissingStartHour(g)
    || StartHourRejected(g, now)
  }

  const AskAll := "I'd be happy to help you find parking! Could you please tell me where you'd like to park, for how long, and what time you'd like to start? (e.g., 'at 14:30')"
  const AskLocationAndDuration := "I'd be happy to help you find parking! Could you please tell me where you'd like to park and for how long?"
  const AskLocationAndStart := "I'd be happy to help you find parking! Could you please tell me where you'd like to park and what time you'd like to start? (e.g., 'at 14:30')"
  const AskDurationAndStart := "I'd be happy to help you find parking! Could you please tell me for how long you need to park and what time you'd like to start? (e.g., 'at 14:30')"
  const AskLocation := "I'd be happy to help you find parking! Could you please tell me where you'd like to park?"
  const AskDuration := "I'd be happy to help you find parking! Could you please tell me for how long you need to park?"
  const AskStart := "Perfect! What time would you like to start parking? (e.g., 'at 14:30' or 'at 2pm')"
  const AskMoreInformation := "I need a bit more information to help you find parking. Could you please provide the location, duration, and start time?"

  /**
   * The fixed prompt for each combination of missing mandatory fields, and a
   * generic prompt when none is missing.
   */
  function DefaultPrompt(missingLocation: bool, missingDuration: bool, missingStartHour: bool): (msg: string)
    ensures msg != ""
  {
    if missingLocation && missingDuration && missingStartHour then AskAll
    else if missingLocation && missingDuration then AskLocationAndDuration
    else if missingLocation && missingStartHour then AskLocationAndStart
    else if missingDuration && missingStartHour then AskDurationAndStart
    else if missingLocation then AskLocation
    else if missingDuration then AskDuration
    else if missingStartHour then AskStart
    else AskMoreInformation
  }

  /** The table is keyed by exactly which fields are missing: different combinations get different prompts. */
  lemma DefaultPromptDistinguishes(l1: bool, d1: bool, s1: bool, l2: bool, d2: bool, s2: bool)
    requires DefaultPrompt(l1, d1, s1) == DefaultPrompt(l2, d2, s2)
    ensures l1 == l2 && d1 == d2 && s1 == s2
  {
  }

  /**
   * The message of a clarification: the validator's rejection first (it
   * overrides whatever the oracle said), then the oracle's own non-empty
   * message, then the prompt for the missing fields.
   */
  function ClarificationText(g: RawIntentGuess, now: Clock): (msg: string)
    ensures msg != ""
    ensures StartHourRejected(g, now) ==> msg == ValidateStartHour(g.startHour, now).reason
    ensures !StartHourRejected(g, now) && g.clarificationMessage.Some? && g.clarificationMessage.value != "" ==>
      msg == g.clarificationMessage.value
    ensures !StartHourRejected(g, now) && (g.clarificationMessage.None? || g.clarificationMessage.value == "") ==>
      msg == DefaultPrompt(MissingLocation(g), MissingDuration(g), MissingStartHour(g))
  {
    if StartHourRejected(g, now) then
      RejectionExplained(g.startHour, now);
      ValidateStartHour(g.startHour, now).reason
    else if g.clarificationMessage.Some? && g.clarificationMessage.value != "" then
      g.clarificationMessage.value
    else
      DefaultPrompt(MissingLocation(g), MissingDuration(g), MissingStartHour(g))
  }

  /** A preference that must be a boolean: absent or null reads as None. */
  predicate IsOptionalBool(m: map<string, Json>, key: string) {
    key !in m || m[key].JNull? || m[key].JBool?
  }

  /** A preference that must be a string: absent or null reads as None. */
  predicate IsOptionalText(m: map<string, Json>, key: string) {
    key !in m || m[key].JNull? || m[key].JString?
  }

  function OptionalBool(m: map<string, Json>, key: string): Option<bool> {
    if key in m && m[key].JBool? then Some(m[key].b) else None
  }

  function OptionalText(m: map<string, Json>, key: string): Option<string> {
    if key in m && m[key].JString? then Some(m[key].s) else None
  }

  /**
   * The oracle's preference object read into Preferences: a validation error
   * when one of the four known keys holds a value of the wrong type; other
   * keys are ignored.
   */
  function ToPreferences(m: map<string, Json>): (r: Result<Preferences, string>)
    ensures r.Ok? <==>
      IsOptionalBool(m, "covered") && IsOptionalText(m, "safety_priority")
      && IsOptionalBool(m, "accessibility") && IsOptionalText(m, "other")
    ensures r.Ok? ==> r.value == Preferences(
      OptionalBool(m, "covered"), OptionalText(m, "safety_priority"),
      OptionalBool(m, "accessibility"), OptionalText(m, "other"))
  {
    if IsOptionalBool(m, "covered") && IsOptionalText(m, "safety_priority")
       && IsOptionalBool(m, "accessibility") && IsOptionalText(m, "other")
    then Ok(Preferences(
      OptionalBool(m, "covered"), OptionalText(m, "safety_priority"),
      OptionalBool(m, "accessibility"), OptionalText(m, "other")))
    else Err("1 validation error for Preferences")
  }

  /** The preferences of a complete intent: none for an absent or empty object. */
  predicate PreferencesReadable(g: RawIntentGuess) {
    g.preferences.None? || |g.preferences.value| == 0 || ToPreferences(g.preferences.value).Ok?
  }

  function PreferencesOf(g: RawIntentGuess): Option<Preferences>
    requires PreferencesReadable(g)
  {
    if g.preferences.None? || |g.preferences.value| == 0 then None
    else Some(ToPreferences(g.preferences.value).value)
  }

  /** The optional price cap and search radius are not negative. */
  predicate OptionalBoundsHold(g: RawIntentGuess) {
    && (g.maxPrice.Some? ==> g.maxPrice.value >= 0.0)
    && (g.requestedRadiusKm.Some? ==> g.requestedRadiusKm.value >= 0.0)
  }

  /**
   * The decision of the intent endpoint, step by step as the source takes it.
   * A clarification is returned exactly when one is needed, with the message
   * ClarificationText chooses. Otherwise the complete intent carries the
   * oracle's non-blank location, its duration of at least one minute, the
   * start hour that passed validation, and the price cap, radius, mode flags
   * and message of the oracle unchanged; building it fails only when a
   * preference has the wrong type or the price cap or radius is negative.
   */
  method ParseIntent(guess: RawIntentGuess, now: Clock) returns (r: Result<ParseIntentResponse, string>)
    ensures r.Ok? ==> WithinBounds(r.value)
    ensures (r.Ok? && r.value.needsClarification) <==> NeedsClarification(guess, now)
    ensures NeedsClarification(guess, now) ==> r == Ok(ClarificationResponse(ClarificationText(guess, now)))
    ensures !NeedsClarification(guess, now) ==> (r.Ok? <==> PreferencesReadable(guess) && OptionalBoundsHold(guess))
    ensures r.Ok? && !r.value.needsClarification ==>
      && guess.locationQuery == Some(r.value.locationQuery) && !IsBlank(r.value.locationQuery)
      && guess.durationMinutes == Some(r.value.durationMinutes) && r.value.durationMinutes >= 1
      && guess.startHour.Some? && r.value.startHour == guess.startHour
      && !IsBlank(guess.startHour.value) && ValidateStartHour(guess.startHour, now) == Accepted
      && r.value.maxPrice == guess.maxPrice
      && r.value.requestedRadiusKm == guess.requestedRadiusKm
      && r.value.preferences == PreferencesOf(guess)
      && r.value.isMoreRequest == guess.isMoreRequest
      && r.value.isClosestRequest == guess.isClosestRequest
      && r.value.isCheapestRequest == guess.isCheapestRequest
      && r.value.clarificationMessage == guess.clarificationMessage
  {
    var needsClarification := guess.needsClarification;
    var clarificationMessage := guess.clarificationMessage;
    var isMoreRequest := guess.isMoreRequest;

    var durationMinutes := guess.durationMinutes;
    var locationQuery := guess.locationQuery;
    var startHour := guess.startHour;

    var missingDuration := durationMinutes.None? || durationMinutes.value < 1;
    var missingLocation := locationQuery.None? || locationQuery.value == "" || Strip(locationQuery.value) == "";
    var missingStartHour := startHour.None? || startHour.value == "" || Strip(startHour.value) == "";

    var startHourValid := true;
    if startHour.Some? && Strip(startHour.value) != "" {
      var verdict := ValidateStartHour(startHour, now);
      startHourValid := verdict.Accepted?;
      if !startHourValid {
        // The validator's message overrides the oracle's.
        clarificationMessage := Some(verdict.reason);
        needsClarification := true;
      }
    } else {
      startHourValid := false;
      missingStartHour := true;
    }

    if needsClarification || missingDuration || missingLocation || missingStartHour {
      var msg;
      if clarificationMessage.Some? && clarificationMessage.value != "" {
        msg := clarificationMessage.value;
      } else {
        msg := DefaultPrompt(missingLocation, missingDuration, missingStartHour);
      }
      return Ok(ClarificationResponse(msg));
    }

    // Defensive defaults; every one of them is already excluded above.
    if !startHourValid {
      startHour := None;
    }
    if locationQuery.None? || locationQuery.value == "" {
      locationQuery := Some("");
    }
    if durationMinutes.None? || durationMinutes.value < 1 {
      durationMinutes := Some(60);
    }

    var preferences: Option<Preferences> := None;
    if guess.preferences.Some? && |guess.preferences.value| > 0 {
      var converted := ToPreferences(guess.preferences.value);
      if converted.Err? {
        return Err(converted.error);
      }
      preferences := Some(converted.value);
    }

    r := CheckedParseIntentResponse(ParseIntentResponse(
      locationQuery := locationQuery.value,
      durationMinutes := durationMinutes.value,
      startHour := if startHourValid then startHour else None,
      maxPrice := guess.maxPrice,
      preferences := preferences,
      needsClarification := needsClarification,
      clarificationMessage := clarificationMessage,
      isMoreRequest := isMoreRequest,
      requestedRadiusKm := guess.requestedRadiusKm,
      isClosestRequest := guess.isClosestRequest,
      isCheapestRequest := guess.isCheapestRequest));
  }

  /**
   * A complete intent never carries a past start hour: when no clarification
   * is needed, the start hour is a well-formed HH:MM token within range and
   * not before `now`.
   */
  lemma CompleteStartHourNotPast(g: RawIntentGuess, now: Clock)
    requires !NeedsClarification(g, now)
    ensures g.startHour.Some? && MatchesTimePattern(g.startHour.value)
    ensures HourOf(g.startHour.value) <= 23 && MinuteOf(g.startHour.value) <= 59
    ensures !Before(HourOf(g.startHour.value), MinuteOf(g.startHour.value), now)
  {
    AcceptedIff(g.startHour, now);
  }

  /** The validator's rejection is the message even when the oracle wrote its own. */
  lemma InvalidStartHourOverridesOracle(g: RawIntentGuess, now: Clock)
    requires StartHourRejected(g, now)
    ensures NeedsClarification(g, now)
    ensures ClarificationText(g, now) == ValidateStartHour(g.startHour, now).reason
  {
  }

  /**
   * Location and duration given, no start hour and no oracle message (or
   * an empty one): the clarification asks for the start time only.
   */
  lemma MissingStartHourOnlyPrompt(g: RawIntentGuess, now: Clock)
    requires !MissingLocation(g) && !MissingDuration(g) && MissingStartHour(g)
    requires g.clarificationMessage.None? || g.clarificationMessage.value == ""
    ensures NeedsClarification(g, now)
    ensures ClarificationText(g, now) == AskStart
  {
  }

  /**
   * Every field present and the oracle asking nothing, but the start hour
   * "09:05" at 18:52: a clarification is still required, and its message
   * names both times.
   */
  lemma PastStartHourExample(g: RawIntentGuess)
    requires g.startHour == Some("09:05")
    ensures NeedsClarification(g, Clock(18, 52))
    ensures ClarificationText(g, Clock(18, 52)) == PastTimeMessage("09:05", Clock(18, 52))
    ensures OccursAt(ClarificationText(g, Clock(18, 52)), "09:05", 29)
    ensures FormatClock(Clock(18, 52)) == "18:52"
  {
    PastTokenExample();
    PastRejected("09:05", Clock(18, 52));
    MatchingIsNotBlank("09:05");
  }
}
