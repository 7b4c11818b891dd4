# LiquidPark agent core in Dafny

This project models the deterministic core of the LiquidPark parking agent service
(`services/ai-agent`). The service turns a chat message into a parking intent and
reconciles a language model's slot ranking into a recommendation. Both language
models, the extraction oracle and the ranking oracle, are inputs here, as are the
wall clock and the JSON decoder. What the model covers:

- `validate_start_hour`: the `HH:mm` start-time check against the current time
  (`StartHour`, start_hour.dfy).
- The decision `parse_intent` takes once the extraction oracle has answered:
  either a clarification request with the right message, or a complete intent
  (`IntentResolution`, intent_resolution.dfy). It is a method that reassigns its
  locals as the endpoint does, proved against specification predicates.
- The bounded conversation context given to the extraction oracle: the last ten
  turns, newest first, cut at 2000 characters (`ConversationContext`,
  conversation_context.dfy). It is a `while` loop with `break`, proved equal to a
  specification function.
- The reconciliation at the end of `recommend_best_slot` (`Reconciliation`,
  reconciliation.dfy, and `ReconciliationProperties`,
  reconciliation_properties.dfy). This covers making the best id present, the
  "more" backfill with Python's stable sort, the best-first fix for
  "more"/"closest"/"cheapest", and the ten-id cap for normal requests.
- `_extract_json_from_response`: trimming, code-fence removal and the
  `{`…`}` cut applied before decoding (`JsonExtraction`, json_extraction.dfy).
- The request and response records, with the bounds their validators enforce
  (`Models`, models.dfy).
- Python's `str.strip`, `str.isspace`, `str.find` and `str.rfind` on
  `seq<char>` (`PyText`, py_text.dfy).
- `Option` and `Result` (`Wrappers`, wrappers.dfy).

The code's own comments and field descriptions promise more than the code enforces. For example, `recommended_slot_ids` is described as "all slots for 'more', 1-3 for closest/cheapest, up to 3 for normal" (services/ai-agent/app/models.py:128), and ai_logic.py:313 says a "more" answer should hold all slots. The model follows what the code does:

- The reconciler does not remove duplicates. `ReconciliationProperties.DuplicatesPassThrough` shows one surviving.
- The reconciler does not drop ids that are not candidates. `ReconciliationProperties.UnknownIdsPassThrough` shows one passing through.
- The reconciler does not reject an empty candidate list. `ReconciliationProperties.UnknownIdsPassThrough` also covers this.
- In normal mode the best id is not moved to the front (`ReconciliationProperties.NormalModeKeepsOracleOrder`).
- The ten-id cap in normal mode can drop the best id (`ReconciliationProperties.NormalCapCanDropBest`).
- A "more" list is backfilled only when it is shorter than the candidate list, so it need not cover every candidate (`ReconciliationProperties.MoreModeNeedNotCoverCandidates`).
- Those promises do hold when the oracle is well behaved: its listed ids are distinct candidates and its best id is a candidate. Under that condition every mode gives candidates only, without duplicates (`ReconciliationProperties.WellBehavedOracleGivesCandidatesOnce`). A "more" answer is then every candidate exactly once, best first (`ReconciliationProperties.MoreModeIsPermutationOfCandidates`).
- `parse_intent` copies the oracle's mode flags into the response unchanged. It does not resolve them against each other. The "more" > "closest" > "cheapest" priority is applied only by the reconciler (`Reconciliation.ModeOf`).

## Model

| member | source | states |
|---|---|---|
| Models.CheckedParseIntentResponse | services/ai-agent/app/models.py:31-43 | building a ParseIntentResponse succeeds exactly when its bounds hold, and then yields the record unchanged |
| Models.ClarificationResponse | services/ai-agent/app/models.py:45-60 | the clarification response satisfies the bounds, carries the message with needs_clarification set, and has placeholder values in every other field (empty location, duration 1, no start hour, flags false) |
| Models.NewUserIntent | services/ai-agent/app/models.py:79-89 | a UserIntent given its two required fields takes the declared defaults for all others |
| Models.NewSlotRanking | services/ai-agent/app/models.py:119-122 | a SlotRanking is created exactly when the score lies in [0, 1], keeping id and score |
| Models.NewRecommendSlotResponse | services/ai-agent/app/models.py:125-131 | a response without the optional fields has an empty recommended list and has_more_available false |
| PyText.Strip | services/ai-agent/app/services/gemini_client.py:35 | `str.strip`: the result is empty exactly when the text is all whitespace, and otherwise starts and ends with a non-space |
| PyText.StripPadded | services/ai-agent/app/services/gemini_client.py:35 | stripping removes exactly the whitespace padding around a text with non-space ends |
| PyText.StripIdempotent | services/ai-agent/app/services/gemini_client.py:35 | stripping twice is stripping once |
| PyText.Find | services/ai-agent/app/services/gemini_client.py:39-40 | `str.find(pat, start)`: the first occurrence at or after `start`, or -1 when there is none |
| PyText.FindChar | services/ai-agent/app/services/gemini_client.py:53 | `str.find(c)`: the first index holding `c`, -1 exactly when `c` is absent |
| PyText.RFindChar | services/ai-agent/app/services/gemini_client.py:54 | `str.rfind(c)`: the last index holding `c`, -1 exactly when `c` is absent |
| StartHour.AbsentOrBlankAccepted | services/ai-agent/app/main.py:40-41 | an absent or whitespace-only token is accepted |
| StartHour.MalformedRejected | services/ai-agent/app/main.py:44-45 | any non-blank token not of the form two digits, colon, two digits is a format error |
| StartHour.LeadingSpaceRejected | services/ai-agent/app/main.py:44-45 | the pattern is matched against the raw token: " 14:30" is a format error |
| StartHour.HourCheckedFirst | services/ai-agent/app/main.py:52-53 | an hour above 23 is rejected with the hour message, whatever the minute |
| StartHour.MinuteChecked | services/ai-agent/app/main.py:54-55 | with a valid hour, a minute above 59 is rejected with the minute message |
| StartHour.PastRejected | services/ai-agent/app/main.py:63-65 | a valid time strictly before `now` is rejected, and the message contains the token and the current time as HH:MM |
| StartHour.NotEarlierAccepted | services/ai-agent/app/main.py:63-67 | a valid time not before `now`, the same minute included, is accepted |
| StartHour.AcceptedIff | services/ai-agent/app/main.py:33-69 | both directions: accepted exactly when absent or blank, or well-formed, in range and not before `now` |
| StartHour.RejectionExplained | services/ai-agent/app/main.py:45-65 | every rejection carries a non-empty reason |
| StartHour.FormatTimeRoundTrip | services/ai-agent/app/main.py:44-49 | writing an in-range time as HH:MM matches the pattern and reads back the same hour and minute |
| StartHour.FormattedTimeVerdict | services/ai-agent/app/main.py:33-69 | a time written HH:MM is accepted exactly when it is not before `now` |
| StartHour.TrailingNewlineAccepted | services/ai-agent/app/main.py:44-49 | the pattern's `$` also matches before one final newline, and such a token is accepted exactly when it is accepted without the newline (a past-time rejection message still quotes the token with its newline) |
| StartHour.PastTokenExample | services/ai-agent/app/main.py:63-65 | "09:05" at 18:52 is rejected as past, and the clock is written "18:52" |
| IntentResolution.DefaultPrompt | services/ai-agent/app/main.py:163-178 | the fixed prompt for each combination of missing fields is never empty |
| IntentResolution.DefaultPromptDistinguishes | services/ai-agent/app/main.py:163-178 | different combinations of missing fields get different prompts |
| IntentResolution.ClarificationText | services/ai-agent/app/main.py:147-178 | the message precedence: the validator's rejection, then the oracle's non-empty message, then the prompt for the missing fields; never empty |
| IntentResolution.ToPreferences | services/ai-agent/app/main.py:198-205 | reading the preference object succeeds exactly when the four known keys hold values of their declared types (or are absent or null), and yields those values |
| IntentResolution.ParseIntent | services/ai-agent/app/main.py:130-222 | clarification exactly when the oracle asks for one, a mandatory field is missing or the start hour is rejected, with ClarificationText's message. Otherwise a complete intent: the oracle's non-blank location, duration of at least 1, accepted start hour, and the other fields unchanged. It fails only on ill-typed preferences or a negative price cap or radius, and the result always satisfies the bounds |
| IntentResolution.CompleteStartHourNotPast | services/ai-agent/app/main.py:143-159 | a complete intent always has a well-formed, in-range start hour that is not before `now` |
| IntentResolution.InvalidStartHourOverridesOracle | services/ai-agent/app/main.py:147-152 | a rejected start hour forces clarification and its reason replaces the oracle's message |
| IntentResolution.MissingStartHourOnlyPrompt | services/ai-agent/app/main.py:153-176 | location and duration given but no start hour, and no oracle message or an empty one: the clarification asks for the start time only |
| IntentResolution.PastStartHourExample | services/ai-agent/app/main.py:145-162 | a past start hour "09:05" at 18:52 forces clarification even when every field is present, with a message naming both times |
| ConversationContext.ToHistory | services/ai-agent/app/main.py:120-126 | the endpoint's history entries carry each message's text and role |
| ConversationContext.Kept | services/ai-agent/app/services/ai_logic.py:55-65 | the number of lines kept is at most the number of lines |
| ConversationContext.BuildContext | services/ai-agent/app/services/ai_logic.py:43-68 | the loop builds exactly ContextOf(history) |
| ConversationContext.KeptWithinBudget | services/ai-agent/app/services/ai_logic.py:60-65 | the kept lines total at most the budget |
| ConversationContext.KeptStopsAtFirstOverflow | services/ai-agent/app/services/ai_logic.py:60-62 | when not all lines are kept, the first line left out would have overflowed the budget |
| ConversationContext.ConcatLength | services/ai-agent/app/services/ai_logic.py:68 | the joined text is as long as its parts together |
| ConversationContext.TotalLengthReverse | services/ai-agent/app/services/ai_logic.py:68 | reversing the parts does not change their total length |
| ConversationContext.KeptLinesChronological | services/ai-agent/app/services/ai_logic.py:55-68 | the context is the header, the lines of a run of the most recent entries ending with the newest, written oldest first, and a final newline |
| ConversationContext.ContextBounded | services/ai-agent/app/services/ai_logic.py:44-68 | the context never exceeds the header plus 2000 characters plus one newline |
| ConversationContext.OnlyLastTenCount | services/ai-agent/app/services/ai_logic.py:43-49 | only the last ten entries affect the context |
| ConversationContext.AtMostTenLinesKept | services/ai-agent/app/services/ai_logic.py:43-49 | at most ten lines are kept |
| ConversationContext.EmptyContextIffNothingKept | services/ai-agent/app/services/ai_logic.py:67-68 | the context is empty exactly when no line fits |
| ConversationContext.OversizedNewestLineHidesOlder | services/ai-agent/app/services/ai_logic.py:60-62 | a newest line longer than the budget empties the context: older lines are not tried |
| ConversationContext.MissingKeysDefault | services/ai-agent/app/services/ai_logic.py:56-58 | an entry without keys reads as a user turn with empty text |
| ConversationContext.EndpointLines | services/ai-agent/app/services/ai_logic.py:56-58 | an endpoint entry becomes "User: text" or "AI: text" followed by a newline |
| Reconciliation.ModeOf | services/ai-agent/app/services/ai_logic.py:312-336 | "more" takes precedence over "closest", which takes precedence over "cheapest"; otherwise normal |
| Reconciliation.ToRankings | services/ai-agent/app/services/ai_logic.py:300 | validating the oracle's ranking succeeds exactly when every score lies in [0, 1], keeping every entry |
| Reconciliation.Without | services/ai-agent/app/services/ai_logic.py:309 | the filtered list lacks the id and equals the input when the id was absent |
| Reconciliation.WithoutAppend | services/ai-agent/app/services/ai_logic.py:309 | filtering a concatenation filters each part in place, so the ids that stay keep their relative order |
| Reconciliation.WithoutCount | services/ai-agent/app/services/ai_logic.py:309 | filtering removes every occurrence of the id and changes no other id's count |
| Reconciliation.WithBestPresent | services/ai-agent/app/services/ai_logic.py:305-309 | the best id is present afterwards; a list holding it is unchanged, otherwise it is prepended |
| Reconciliation.BestFirst | services/ai-agent/app/services/ai_logic.py:327-328 | a non-empty list then starts with the best id; when moved, the best id occurs once and every other id's count is unchanged |
| Reconciliation.MissingIdsCount | services/ai-agent/app/services/ai_logic.py:318 | the missing ids are exactly the candidates not yet listed, each as often as among the candidates |
| Reconciliation.MissingIdsAppend | services/ai-agent/app/services/ai_logic.py:318 | the missing ids of a concatenation are those of each part, in order, so they keep the candidates' order |
| Reconciliation.SlotIndex | services/ai-agent/app/services/ai_logic.py:303 | every slot id is a key; each key maps to a slot with that id; the final slot of the list is kept for its id |
| Reconciliation.SlotIndexKeepsLast | services/ai-agent/app/services/ai_logic.py:303 | for every id, the slot kept is its last slot in the list, as in a dict comprehension |
| Reconciliation.ScoreIndex | services/ai-agent/app/services/ai_logic.py:317 | every ranked id is a key; each maps to one of its scores; the final entry of the ranking supplies its id's score |
| Reconciliation.ScoreIndexKeepsLast | services/ai-agent/app/services/ai_logic.py:317 | for every id, the score kept is that of its last entry in the ranking, as in a dict comprehension |
| Reconciliation.Insert | services/ai-agent/app/services/ai_logic.py:320-323 | inserting adds exactly one occurrence of the id |
| Reconciliation.InsertDescending | services/ai-agent/app/services/ai_logic.py:320-323 | inserting into a list sorted by descending key keeps it sorted |
| Reconciliation.StableSort | services/ai-agent/app/services/ai_logic.py:320-323 | `sort(key=..., reverse=True)`: the result is a permutation sorted by descending key |
| Reconciliation.StableSortKeepsTies | services/ai-agent/app/services/ai_logic.py:320-323 | the sort is stable: ids with equal keys keep their original order |
| Reconciliation.ReconcileIds | services/ai-agent/app/services/ai_logic.py:303-341 | the step-by-step list repair yields exactly Reconciled(...) for the mode: best id first except in normal mode, and in normal mode at most ten ids forming a prefix of the best-present oracle list |
| Reconciliation.RecommendBestSlot | services/ai-agent/app/services/ai_logic.py:300-349 | fails exactly when a score lies outside [0, 1]. Otherwise the best id, ranking and explanation pass through, has_more defaults to false, and the list is Reconciled(...). The list starts with the best id except in normal mode, where it is a prefix of at most ten ids of the oracle's list after the best id was made present |
| ReconciliationProperties.PresentStaysWellBehaved | services/ai-agent/app/services/ai_logic.py:305-309 | making the best id present keeps a duplicate-free candidate list duplicate-free and within the candidates |
| ReconciliationProperties.BestFirstReorders | services/ai-agent/app/services/ai_logic.py:327-328 | on a duplicate-free list holding the best id, the best-first fix only reorders |
| ReconciliationProperties.BackfilledCoversCandidates | services/ai-agent/app/services/ai_logic.py:312-325 | with a well-behaved oracle the backfilled list is every candidate exactly once |
| ReconciliationProperties.MoreModeIsPermutationOfCandidates | services/ai-agent/app/services/ai_logic.py:312-329 | with a well-behaved oracle a "more" answer lists every candidate exactly once, best first |
| ReconciliationProperties.WellBehavedOracleGivesCandidatesOnce | services/ai-agent/app/services/ai_logic.py:305-341 | with a well-behaved oracle, every mode answers with candidate ids only and no duplicates |
| ReconciliationProperties.ClosestAndCheapestNeitherBackfillNorCut | services/ai-agent/app/services/ai_logic.py:330-335 | closest and cheapest answers start with the best id and are at most one id longer than the oracle's list |
| ReconciliationProperties.NormalModeOnlyCaps | services/ai-agent/app/services/ai_logic.py:336-341 | a normal answer is a prefix of at most ten ids of the oracle's list, unchanged when it has at most ten |
| ReconciliationProperties.ClosestAndCheapestMoveBestToFront | services/ai-agent/app/services/ai_logic.py:306-334 | for an oracle list `before + [best] + after` with best not in `before`: a closest or cheapest answer is best, then `before` in the oracle's order, then `after` in order without best's repeats; when `before` is empty, the list unchanged |
| ReconciliationProperties.MoreModeIsBestFirstThenBackfill | services/ai-agent/app/services/ai_logic.py:306-328 | a "more" answer is the best-present oracle list with the best id put first (the other ids in the oracle's order), followed unchanged by the backfill when that list is shorter than the candidate list and by nothing otherwise; the backfill never holds an id already listed |
| ReconciliationProperties.SortSwapsPair | services/ai-agent/app/services/ai_logic.py:320-323 | two ids in the wrong key order come out of the sort swapped |
| ReconciliationProperties.OnlyBestListed | services/ai-agent/app/services/ai_logic.py:306-325 | when the oracle lists only its best id and there are at least two candidates, a "more" answer is that id followed by the sorted backfill |
| ReconciliationProperties.BackfillSortedStably | services/ai-agent/app/services/ai_logic.py:314-323 | the backfill is in descending key order, and ids with equal keys keep the order they have among the candidates |
| ReconciliationProperties.NormalModeKeepsOracleOrder | services/ai-agent/app/services/ai_logic.py:336-341 | normal mode does not move the best id to the front |
| ReconciliationProperties.DuplicatesPassThrough | services/ai-agent/app/services/ai_logic.py:330-335 | duplicate ids in the oracle's list survive |
| ReconciliationProperties.UnknownIdsPassThrough | services/ai-agent/app/services/ai_logic.py:305-341 | ids that are not candidates survive, and an empty candidate list is answered, not rejected |
| ReconciliationProperties.NormalCapCanDropBest | services/ai-agent/app/services/ai_logic.py:340-341 | the ten-id cap drops a best id listed eleventh |
| ReconciliationProperties.MoreModeNeedNotCoverCandidates | services/ai-agent/app/services/ai_logic.py:316 | a "more" list as long as the candidate list is not backfilled, even when it names non-candidates |
| ReconciliationProperties.TwoSlotExample | services/ai-agent/app/services/ai_logic.py:305-341 | two slots, oracle list ["s1"]: normal gives ["s1"], "more" gives ["s1", "s2"] |
| ReconciliationProperties.BackfillNearestFirst | services/ai-agent/app/services/ai_logic.py:316-325 | unranked missing candidates are appended nearest first |
| JsonExtraction.StripFences | services/ai-agent/app/services/gemini_client.py:38-47 | a text without a fence is unchanged; the fenced cases are settled by ClosedJsonFence, ClosedPlainFence, UnclosedFenceKept, UnclosedPlainFenceKept and JsonFenceTakesPrecedence |
| JsonExtraction.CutToBraces | services/ai-agent/app/services/gemini_client.py:50-55 | a text already framed by braces, or lacking one of them, is unchanged. Otherwise the result is empty exactly when the last '}' precedes the first '{'; if not empty, it starts at the first '{', ends with '}', and no '}' follows it |
| JsonExtraction.ExtractJson | services/ai-agent/app/services/gemini_client.py:57-61 | the reply decodes exactly when the decoder accepts the extracted text; otherwise the invalid-JSON error |
| JsonExtraction.ObjectTextUnchanged | services/ai-agent/app/services/gemini_client.py:35-55 | a bare object text without backticks is handed to the decoder unchanged |
| JsonExtraction.PaddedObjectExtracted | services/ai-agent/app/services/gemini_client.py:35 | whitespace around an object is removed |
| JsonExtraction.ClosedJsonFence | services/ai-agent/app/services/gemini_client.py:38-42 | a closed "```json" fence yields its trimmed body, whatever backtick-free text precedes it and whatever text follows the closing fence |
| JsonExtraction.ClosedPlainFence | services/ai-agent/app/services/gemini_client.py:43-47 | in a text without "```json", a closed plain "```" fence yields its trimmed body, whatever backtick-free text precedes it and whatever follows |
| JsonExtraction.UnclosedPlainFenceKept | services/ai-agent/app/services/gemini_client.py:43-47 | in a text without "```json", a plain fence that no later "```" closes leaves the text unchanged |
| JsonExtraction.FencedObjectExtracted | services/ai-agent/app/services/gemini_client.py:35-55 | an object inside a "```json" fence, padded with whitespace, is recovered exactly |
| JsonExtraction.ObjectInProseExtracted | services/ai-agent/app/services/gemini_client.py:50-55 | prose without braces or backticks around an object is cut away |
| JsonExtraction.UnclosedFenceKept | services/ai-agent/app/services/gemini_client.py:38-42 | for any backtick-free prefix and any rest without "```", a "```json" fence that nothing closes leaves the text unchanged |
| JsonExtraction.JsonFenceTakesPrecedence | services/ai-agent/app/services/gemini_client.py:38-47 | "```a``` ```json {}" is kept whole by the fence step, while the plain branch alone would have yielded "a": an unclosed "```json" is not handed on to the plain branch |
| JsonExtraction.UnclosedFenceExample | services/ai-agent/app/services/gemini_client.py:38-55 | after an unclosed fence the brace cut still finds the object |
| JsonExtraction.ReversedBracesGiveEmptyText | services/ai-agent/app/services/gemini_client.py:52-55 | a last '}' before the first '{' leaves the decoder an empty text |

## Left out

- The language models themselves are inputs, not modelled. Their answers come in as `RawIntentGuess` and `RankingOracleResult`, as does the reply text given to `JsonExtraction.ExtractJson`. Prompt construction, retries and logging are not modelled.
- Geocoding and the Maps client are not part of this model.
- The FastAPI routes, HTTP status mapping and CORS set-up are not part of this model. Neither are `price_total` and the distance computation done before reconciliation.
- `datetime.now()` becomes the `now: Clock` parameter. Only its hour and minute matter.
- `json.loads` becomes a `parse` function parameter, because decoding JSON text is outside the core.
- JsonExtraction.ExtractJson: the error message keeps only the fixed text. The decoder's own detail appended after it is left out.
- The result of `json.loads` is not checked to be an object, so the model returns whatever the decoder produced.
- Floating-point values (price cap, radius, scores, coordinates) are `real`. Scores are compared with 0 and 1, with each other as the first part of the backfill sort key, and copied; the other values are only copied. Floats keep their order as reals, so rounding plays no part.
- StartHour.ValidateStartHour: `\d` also matches non-ASCII decimal digits in Python. The model accepts ASCII digits only.
- StartHour.ValidateStartHour: the `ValueError` branch and the `hour < 0` and `minute < 0` tests cannot fire for ASCII digits, so they are not modelled.
- IntentResolution.ParseIntent: a flag that is absent or null in the oracle's answer reads as false. The distinction between `None` and `False` in the response is not kept.
- IntentResolution.ToPreferences: pydantic's lax coercions are not modelled. For example, pydantic turns an oracle answer of `1` for `covered` into `True` (main.py:200-205), where the model reports a validation error. A non-dict preference value is not modelled either.
- IntentResolution.ParseIntent: float durations (truncated by int(), main.py:209) and non-numeric durations (TypeError at main.py:141) are outside the model's domain. The oracle's duration is an optional integer: a float such as 1.5 would pass the `< 1` test and become 1, 0.5 would count as missing, and a string such as "90" would end in a server error.
- IntentResolution.ParseIntent: the error texts of validation failures are fixed strings, not pydantic's full messages.
- Reconciliation.RecommendBestSlot: a missing `ranking`, `best_slot_id` or `explanation_for_user` key would raise `KeyError`. An explicit null `recommended_slot_ids` would raise `TypeError`. The model takes these keys as present and the list as a list or absent.
- Reconciliation.RecommendBestSlot: an explicit null `has_more_available` stays `None` in the source (`Optional[bool]`, models.py:131). The model gives false for both absent and null.
- Reconciliation.StableSort: Timsort's in-place mechanics are replaced by a functional stable insertion sort. It has the same result, a stable descending sort by the same key.
