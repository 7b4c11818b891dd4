/**
 * The request and response records of the parking agent, with the field
 * bounds and defaults their declarations give them (services/ai-agent/app/models.py).
 * Floating-point fields are modelled as reals: the core compares scores
 * with 0 and 1 and with each other (in the backfill sort key), and only
 * copies the other floating-point values.
 */
module Models {
  import opened Wrappers

  /** A JSON value, as `json.loads` returns it. */
  datatype Json =
    | JNull
    | JBool(b: bool)
    | JNumber(n: real)
    | JString(s: string)
    | JArray(items: seq<Json>)
    | JObject(fields: map<string, Json>)

  /** One earlier turn of a conversation; both fields are required. */
  datatype ConversationMessage = ConversationMessage(text: string, isUser: bool)

  /** Optional preferences extracted from the user's message. */
  datatype Preferences = Preferences(
    covered: Option<bool>,
    safetyPriority: Option<string>,
    accessibility: Option<bool>,
    other: Option<string>)

  /** The answer of the intent endpoint: a clarification request or a complete intent. */
  datatype ParseIntentResponse = ParseIntentResponse(
    locationQuery: string,
    durationMinutes: int,
    startHour: Option<string>,
    maxPrice: Option<real>,
    preferences: Option<Preferences>,
    needsClarification: bool,
    clarificationMessage: Option<string>,
    isMoreRequest: bool,
    requestedRadiusKm: Option<real>,
    isClosestRequest: bool,
    isCheapestRequest: bool)

  /** The bounds declared on the fields of ParseIntentResponse. */
  predicate WithinBounds(r: ParseIntentResponse) {
    && r.durationMinutes >= 1
    && (r.maxPrice.Some? ==> r.maxPrice.value >= 0.0)
    && (r.requestedRadiusKm.Some? ==> r.requestedRadiusKm.value >= 0.0)
  }

  /** The message of the validation error raised when a declared bound fails. */
  const InvalidResponseMessage := "1 validation error for ParseIntentResponse"

  /**
   * Building a ParseIntentResponse: the record itself when every declared
   * bound holds, a validation error otherwise.
   */
  function CheckedParseIntentResponse(r: ParseIntentResponse): (v: Result<ParseIntentResponse, string>)
    ensures v.Ok? <==> WithinBounds(r)
    ensures v.Ok? ==> v.value == r
  {
    if WithinBounds(r) then Ok(r) else Err(InvalidResponseMessage)
  }

  /**
   * The clarification response: it carries the message and placeholder values
   * that satisfy every declared bound, so building it never fails.
   */
  function ClarificationResponse(message: string): (r: ParseIntentResponse)
    ensures WithinBounds(r)
    ensures r.needsClarification && r.clarificationMessage == Some(message)
    ensures r.locationQuery == "" && r.durationMinutes == 1
    ensures r.startHour.None? && r.maxPrice.None? && r.preferences.None? && r.requestedRadiusKm.None?
    ensures !r.isMoreRequest && !r.isClosestRequest && !r.isCheapestRequest
  {
    ParseIntentResponse(
      locationQuery := "",
      durationMinutes := 1,
      startHour := None,
      maxPrice := None,
      preferences := None,
      needsClarification := true,
      clarificationMessage := Some(message),
      isMoreRequest := false,
      requestedRadiusKm := None,
      isClosestRequest := false,
      isCheapestRequest := false)
  }

  /** The intent a recommendation is asked for. */
  datatype UserIntent = UserIntent(
    locationQuery: string,
    durationMinutes: int,
    startHour: Option<string>,
    maxPrice: Option<real>,
    preferences: Option<map<string, Json>>,
    isMoreRequest: bool,
    requestedRadiusKm: Option<real>,
    isClosestRequest: bool,
    isCheapestRequest: bool)

  /** A UserIntent given only its two required fields: every other field takes its default. */
  function NewUserIntent(locationQuery: string, durationMinutes: int): (u: UserIntent)
    ensures u.locationQuery == locationQuery && u.durationMinutes == durationMinutes
    ensures u.startHour.None? && u.maxPrice.None? && u.preferences.None? && u.requestedRadiusKm.None?
    ensures !u.isMoreRequest && !u.isClosestRequest && !u.isCheapestRequest
  {
    UserIntent(locationQuery, durationMinutes, None, None, None, false, None, false, false)
  }

  /** A candidate parking slot supplied by the caller. */
  datatype ParkingSlot = ParkingSlot(
    slotId: string,
    lat: real,
    lng: real,
    pricePerHour: real,
    distanceM: int,
    isAvailable: bool,
    address: Option<string>,
    locationName: Option<string>,
    covered: Option<bool>,
    safetyRating: Option<real>)

  /** A ranking entry as the ranking oracle writes it, before validation. */
  datatype RankingEntry = RankingEntry(slotId: string, score: real)

  /** A validated ranking entry: its score lies between 0 and 1. */
  type SlotRanking = e: RankingEntry | 0.0 <= e.score <= 1.0 witness RankingEntry("", 0.0)

  /** The message of the validation error raised for a score outside [0, 1]. */
  const InvalidScoreMessage := "1 validation error for SlotRanking"

  /** Building a SlotRanking: accepted exactly when the score lies in [0, 1]. */
  function NewSlotRanking(slotId: string, score: real): (r: Result<SlotRanking, string>)
    ensures r.Ok? <==> 0.0 <= score <= 1.0
    ensures r.Ok? ==> r.value.slotId == slotId && r.value.score == score
  {
    if 0.0 <= score <= 1.0 then Ok(RankingEntry(slotId, score)) else Err(InvalidScoreMessage)
  }

  /** The answer of the recommendation endpoint. */
  datatype RecommendSlotResponse = RecommendSlotResponse(
    bestSlotId: string,
    recommendedSlotIds: seq<string>,
    ranking: seq<SlotRanking>,
    explanationForUser: string,
    hasMoreAvailable: bool)

  /** A RecommendSlotResponse given only its required fields: no recommended ids, nothing more available. */
  function NewRecommendSlotResponse(bestSlotId: string, ranking: seq<SlotRanking>, explanationForUser: string): (r: RecommendSlotResponse)
    ensures r.bestSlotId == bestSlotId && r.ranking == ranking && r.explanationForUser == explanationForUser
    ensures r.recommendedSlotIds == [] && !r.hasMoreAvailable
  {
    RecommendSlotResponse(bestSlotId, [], ranking, explanationForUser, false)
  }
}
