/**
 * Reconciliation of the ranking oracle's answer with the candidate slots
 * (the tail of `recommend_best_slot` in services/ai-agent/app/services/ai_logic.py).
 * The oracle's answer is an input. The code repairs only what it names:
 * the best id is made present, "more" requests are backfilled with the
 * missing candidates, "more", "closest" and "cheapest" requests get the best
 * id first, and normal requests are capped at ten ids. It does not
 * deduplicate, does not drop ids that are not candidates, and does not
 * reject an empty candidate list.
 */
module Reconciliation {
  import opened Wrappers
  import opened Models

  /** The ranking oracle's answer; `recommendedSlotIds` is None when its key is missing. */
  datatype RankingOracleResult = RankingOracleResult(
    bestSlotId: string,
    recommendedSlotIds: Option<seq<string>>,
    ranking: seq<RankingEntry>,
    explanationForUser: string,
    hasMoreAvailable: Option<bool>)

  /** The four kinds of recommendation request. */
  datatype Mode = Normal | More | Closest | Cheapest

  /** The branch taken for an intent: "more" first, then closest, then cheapest, else normal. */
  function ModeOf(intent: UserIntent): (m: Mode)
    ensures m == More <==> intent.isMoreRequest
    ensures m == Closest <==> !intent.isMoreRequest && intent.isClosestRequest
    ensures m == Cheapest <==> !intent.isMoreRequest && !intent.isClosestRequest && intent.isCheapestRequest
    ensures m == Normal <==> !intent.isMoreRequest && !intent.isClosestRequest && !intent.isCheapestRequest
  {
    if intent.isMoreRequest then More
    else if intent.isClosestRequest then Closest
    else if intent.isCheapestRequest then Cheapest
    else Normal
  }

  /**
   * The oracle's ranking entries validated one by one: a validation error as
   * soon as one score lies outside [0, 1], otherwise the same entries.
   */
  function ToRankings(entries: seq<RankingEntry>): (r: Result<seq<SlotRanking>, string>)
    ensures r.Ok? <==> forall i :: 0 <= i < |entries| ==> 0.0 <= entries[i].score <= 1.0
    ensures r.Ok? ==> |r.value| == |entries| && forall i :: 0 <= i < |entries| ==> r.value[i] == entries[i]
  {
    if entries == [] then Ok([])
    else
      match NewSlotRanking(entries[0].slotId, entries[0].score)
      case Err(e) => Err(e)
      case Ok(first) =>
        match ToRankings(entries[1..])
        case Err(e) => Err(e)
        case Ok(rest) => Ok([first] + rest)
  }

  /** No id occurs twice. */
  ghost predicate NoDuplicates(ids: seq<string>) {
    forall x :: multiset(ids)[x] <= 1
  }

  /** The set of ids in a list. */
  ghost function Elems(ids: seq<string>): set<string> {
    set x | x in ids
  }

  /** `[sid for sid in ids if sid != x]`: every occurrence of `x` removed, the rest in order. */
  function Without(ids: seq<string>, x: string): (r: seq<string>)
    ensures x !in r
    ensures x !in ids ==> r == ids
  {
    if ids == [] then []
    else (if ids[0] == x then [] else [ids[0]]) + Without(ids[1..], x)
  }

  /** Removing `x` removes all its occurrences and leaves every other id's count alone. */
  lemma {:induction false} WithoutCount(ids: seq<string>, x: string)
    ensures multiset(Without(ids, x)) == multiset(ids)[x := 0]
    ensures |Without(ids, x)| == |ids| - multiset(ids)[x]
  {
    if ids != [] {
      assert ids == [ids[0]] + ids[1..];
      WithoutCount(ids[1..], x);
    }
  }

  /**
   * Removal works piece by piece, so the ids that stay keep their relative
   * order: those from `a` come first, then those from `b`.
   */
  lemma {:induction false} WithoutAppend(a: seq<string>, b: seq<string>, x: string)
    ensures Without(a + b, x) == Without(a, x) + Without(b, x)
  {
    if a == [] {
      assert a + b == b;
    } else {
      assert (a + b)[0] == a[0];
      assert (a + b)[1..] == a[1..] + b;
      WithoutAppend(a[1..], b, x);
    }
  }

  /**
   * Ensuring the best id is present: a list that lacks it (the empty list
   * included) gets it prepended, a list that has it is kept as it is.
   */
  function WithBestPresent(ids: seq<string>, best: string): (r: seq<string>)
    ensures best in r
    ensures best in ids ==> r == ids
    ensures best !in ids ==> r == [best] + ids
  {
    if ids == [] || best !in ids then [best] + Without(ids, best) else ids
  }

  /**
   * Putting the best id first: a non-empty list that starts with another id
   * gets the best id in front and loses its other occurrences of it; the
   * other ids keep their order and multiplicity.
   */
  function BestFirst(ids: seq<string>, best: string): (r: seq<string>)
    ensures ids != [] ==> r != [] && r[0] == best
    ensures ids == [] || ids[0] == best ==> r == ids
    ensures ids != [] && ids[0] != best ==> best !in r[1..] && multiset(r) == multiset(ids)[best := 1]
  {
    if ids != [] && ids[0] != best then
      WithoutCount(ids, best);
      [best] + Without(ids, best)
    else ids
  }

  /** `[slot.slot_id for slot in slots]`. */
  function IdsOf(slots: seq<ParkingSlot>): (ids: seq<string>)
    ensures |ids| == |slots| && forall i :: 0 <= i < |slots| ==> ids[i] == slots[i].slotId
  {
    seq(|slots|, i requires 0 <= i < |slots| => slots[i].slotId)
  }

  /** `[sid for sid in allIds if sid not in present]`: the ids not yet present, in order. */
  function MissingIds(allIds: seq<string>, present: seq<string>): seq<string> {
    if allIds == [] then []
    else (if allIds[0] in present then [] else [allIds[0]]) + MissingIds(allIds[1..], present)
  }

  /** The missing ids are exactly the ids not present, each as often as in the full list. */
  lemma {:induction false} MissingIdsCount(allIds: seq<string>, present: seq<string>)
    ensures forall y :: multiset(MissingIds(allIds, present))[y] == if y in present then 0 else multiset(allIds)[y]
  {
    if allIds != [] {
      assert allIds == [allIds[0]] + allIds[1..];
      MissingIdsCount(allIds[1..], present);
    }
  }

  /**
   * The missing ids are picked piece by piece, so they keep the candidates'
   * order: those from `a` come first, then those from `b`.
   */
  lemma {:induction false} MissingIdsAppend(a: seq<string>, b: seq<string>, present: seq<string>)
    ensures MissingIds(a + b, present) == MissingIds(a, present) + MissingIds(b, present)
  {
    if a == [] {
      assert a + b == b;
    } else {
      assert (a + b)[0] == a[0];
      assert (a + b)[1..] == a[1..] + b;
      MissingIdsAppend(a[1..], b, present);
    }
  }

  /** `{slot.slot_id: slot for slot in slots}`: a later slot replaces an earlier one with the same id. */
  function SlotIndex(slots: seq<ParkingSlot>): (m: map<string, ParkingSlot>)
    ensures forall i :: 0 <= i < |slots| ==> slots[i].slotId in m
    ensures forall id :: id in m ==> m[id] in slots && m[id].slotId == id
    ensures slots != [] ==> m[slots[|slots| - 1].slotId] == slots[|slots| - 1]
  {
    if slots == [] then map[]
    else
      var last := slots[|slots| - 1];
      var m := SlotIndex(slots[..|slots| - 1])[last.slotId := last];
      assert forall i :: 0 <= i < |slots| - 1 ==> slots[i] == slots[..|slots| - 1][i];
      m
  }

  /** `{r.slot_id: r.score for r in ranking}`: a later entry replaces an earlier one with the same id. */
  function ScoreIndex(ranking: seq<SlotRanking>): (m: map<string, real>)
    ensures forall i :: 0 <= i < |ranking| ==> ranking[i].slotId in m
    ensures forall id :: id in m ==> exists i :: 0 <= i < |ranking| && ranking[i].slotId == id && ranking[i].score == m[id]
    ensures ranking != [] ==> m[ranking[|ranking| - 1].slotId] == ranking[|ranking| - 1].score
  {
    if ranking == [] then map[]
    else
      var last := ranking[|ranking| - 1];
      var m := ScoreIndex(ranking[..|ranking| - 1])[last.slotId := last.score];
      assert forall i :: 0 <= i < |ranking| - 1 ==> ranking[i] == ranking[..|ranking| - 1][i];
      m
  }

  /** The slots that are the last of their id, each kept by the index. */
  ghost predicate KeepsLastSlots(slots: seq<ParkingSlot>) {
    forall i :: 0 <= i < |slots| && (forall j :: i < j < |slots| ==> slots[j].slotId != slots[i].slotId) ==>
      SlotIndex(slots)[slots[i].slotId] == slots[i]
  }

  /** The ranking entries that are the last of their id, each supplying the score the index keeps. */
  ghost predicate KeepsLastScores(ranking: seq<SlotRanking>) {
    forall i :: 0 <= i < |ranking| && (forall j :: i < j < |ranking| ==> ranking[j].slotId != ranking[i].slotId) ==>
      ScoreIndex(ranking)[ranking[i].slotId] == ranking[i].score
  }

  /** A slot kept before the final slot is added stays kept when the final slot has another id. */
  lemma SlotIndexStep(slots: seq<ParkingSlot>, i: int)
    requires 0 <= i < |slots| - 1 && slots[|slots| - 1].slotId != slots[i].slotId
    requires SlotIndex(slots[..|slots| - 1])[slots[i].slotId] == slots[i]
    ensures SlotIndex(slots)[slots[i].slotId] == slots[i]
  {
  }

  /** A score kept before the final entry is added stays kept when the final entry has another id. */
  lemma ScoreIndexStep(ranking: seq<SlotRanking>, i: int)
    requires 0 <= i < |ranking| - 1 && ranking[|ranking| - 1].slotId != ranking[i].slotId
    requires ScoreIndex(ranking[..|ranking| - 1])[ranking[i].slotId] == ranking[i].score
    ensures ScoreIndex(ranking)[ranking[i].slotId] == ranking[i].score
  {
  }

  /** For every id, the index keeps its last slot. */
  lemma {:induction false} SlotIndexKeepsLast(slots: seq<ParkingSlot>)
    ensures KeepsLastSlots(slots)
  {
    if slots != [] {
      var prefix := slots[..|slots| - 1];
      SlotIndexKeepsLast(prefix);
      forall i | 0 <= i < |slots| - 1 && (forall j :: i < j < |slots| ==> slots[j].slotId != slots[i].slotId)
        ensures SlotIndex(slots)[slots[i].slotId] == slots[i]
      {
        assert forall j :: i < j < |prefix| ==> prefix[j] == slots[j];
        assert prefix[i] == slots[i];
        SlotIndexStep(slots, i);
      }
    }
  }

  /** For every id, the index keeps the score of its last entry. */
  lemma {:induction false} ScoreIndexKeepsLast(ranking: seq<SlotRanking>)
    ensures KeepsLastScores(ranking)
  {
    if ranking != [] {
      var prefix := ranking[..|ranking| - 1];
      ScoreIndexKeepsLast(prefix);
      forall i | 0 <= i < |ranking| - 1 && (forall j :: i < j < |ranking| ==> ranking[j].slotId != ranking[i].slotId)
        ensures ScoreIndex(ranking)[ranking[i].slotId] == ranking[i].score
      {
        assert forall j :: i < j < |prefix| ==> prefix[j] == ranking[j];
        assert prefix[i] == ranking[i];
        ScoreIndexStep(ranking, i);
      }
    }
  }

  /** The backfill sort key: (oracle score or 0, minus the distance), compared as a tuple. */
  datatype SortKey = SortKey(score: real, closeness: int)

  /** `a` is strictly greater than `b` in tuple order. */
  predicate KeyAbove(a: SortKey, b: SortKey) {
    a.score > b.score || (a.score == b.score && a.closeness > b.closeness)
  }

  /** The key of a missing id: its oracle score (0 when unranked), then minus its distance. */
  function FallbackKey(id: string, scores: map<string, real>, index: map<string, ParkingSlot>): SortKey {
    SortKey(
      if id in scores then scores[id] else 0.0,
      if id in index then -index[id].distanceM else 999999)
  }

  /** No id is followed by one with a strictly greater key. */
  predicate Descending(ids: seq<string>, key: string -> SortKey) {
    forall i, j :: 0 <= i < j < |ids| ==> !KeyAbove(key(ids[j]), key(ids[i]))
  }

  /** The ids of `ids` whose key is `k`, in order. */
  function WithKey(ids: seq<string>, key: string -> SortKey, k: SortKey): seq<string> {
    if ids == [] then []
    else (if key(ids[0]) == k then [ids[0]] else []) + WithKey(ids[1..], key, k)
  }

  /** Inserts `x` after every id with a strictly greater key and before the others. */
  function Insert(x: string, s: seq<string>, key: string -> SortKey): (r: seq<string>)
    ensures multiset(r) == multiset(s) + multiset{x}
  {
    if s == [] || !KeyAbove(key(s[0]), key(x)) then [x] + s
    else
      assert s == [s[0]] + s[1..];
      [s[0]] + Insert(x, s[1..], key)
  }

  lemma {:induction false} InsertDescending(x: string, s: seq<string>, key: string -> SortKey)
    requires Descending(s, key)
    ensures Descending(Insert(x, s, key), key)
  {
    if s != [] && KeyAbove(key(s[0]), key(x)) {
      var t := Insert(x, s[1..], key);
      InsertDescending(x, s[1..], key);
      var r := [s[0]] + t;
      forall j | 1 <= j < |r| ensures !KeyAbove(key(r[j]), key(s[0])) {
        assert r[j] == t[j - 1];
        assert t[j - 1] in multiset(t);
        if r[j] != x {
          assert r[j] in s[1..];
        }
      }
    }
  }

  /**
   * Python's stable `list.sort(key=..., reverse=True)`: an insertion sort
   * that places each id after all ids with a strictly greater key, so ids
   * with equal keys keep their original order.
   */
  function StableSort(s: seq<string>, key: string -> SortKey): (r: seq<string>)
    ensures multiset(r) == multiset(s)
    ensures Descending(r, key)
  {
    if s == [] then []
    else
      assert s == [s[0]] + s[1..];
      var rest := StableSort(s[1..], key);
      InsertDescending(s[0], rest, key);
      Insert(s[0], rest, key)
  }

  lemma {:induction false} InsertKeepsTies(x: string, s: seq<string>, key: string -> SortKey, k: SortKey)
    ensures WithKey(Insert(x, s, key), key, k) == (if key(x) == k then [x] else []) + WithKey(s, key, k)
  {
    if s == [] || !KeyAbove(key(s[0]), key(x)) {
      assert ([x] + s)[1..] == s;
    } else {
      var r := Insert(x, s[1..], key);
      assert ([s[0]] + r)[1..] == r;
      InsertKeepsTies(x, s[1..], key, k);
    }
  }

  /** The sort is stable: the ids sharing any one key come out in their original order. */
  lemma {:induction false} StableSortKeepsTies(s: seq<string>, key: string -> SortKey, k: SortKey)
    ensures WithKey(StableSort(s, key), key, k) == WithKey(s, key, k)
  {
    if s != [] {
      StableSortKeepsTies(s[1..], key, k);
      InsertKeepsTies(s[0], StableSort(s[1..], key), key, k);
    }
  }

  /**
   * Backfilling a "more" list: when it is shorter than the candidate list,
   * the candidates it lacks are appended, best fallback key first.
   */
  function Backfilled(ids: seq<string>, slots: seq<ParkingSlot>, ranking: seq<SlotRanking>): seq<string> {
    if |ids| < |slots| then ids + Backfill(ids, slots, ranking) else ids
  }

  /** The candidates missing from `ids`, sorted by the backfill key. */
  function Backfill(ids: seq<string>, slots: seq<ParkingSlot>, ranking: seq<SlotRanking>): seq<string> {
    StableSort(MissingIds(IdsOf(slots), ids), BackfillKey(ScoreIndex(ranking), SlotIndex(slots)))
  }

  /** The sort key of the backfill, as a function of the id. */
  function BackfillKey(scores: map<string, real>, index: map<string, ParkingSlot>): string -> SortKey {
    id => FallbackKey(id, scores, index)
  }

  /** The recommended ids the reconciler returns, per mode. */
  function Reconciled(mode: Mode, slots: seq<ParkingSlot>, oracle: RankingOracleResult, ranking: seq<SlotRanking>): seq<string> {
    var best := oracle.bestSlotId;
    var ids := WithBestPresent(oracle.recommendedSlotIds.GetOr([]), best);
    match mode
    case More => BestFirst(Backfilled(ids, slots, ranking), best)
    case Closest => BestFirst(ids, best)
    case Cheapest => BestFirst(ids, best)
    case Normal => if |ids| > 10 then ids[..10] else ids
  }

  /**
   * The list repair of the reconciler, step by step as the source takes it:
   * make the best id present, then backfill and put the best id first for
   * "more", put the best id first for "closest" and "cheapest", or cap a
   * normal list at ten ids. The result is Reconciled(...): it starts with
   * the best id except in normal mode, where it is the oracle's list (with
   * the best id prepended when absent) cut to ten ids.
   */
  method ReconcileIds(mode: Mode, slots: seq<ParkingSlot>, oracle: RankingOracleResult, ranking: seq<SlotRanking>)
    returns (recommended: seq<string>)
    ensures recommended == Reconciled(mode, slots, oracle, ranking)
    ensures mode != Normal ==> recommended != [] && recommended[0] == oracle.bestSlotId
    ensures mode == Normal ==>
      && |recommended| <= 10
      && recommended <= WithBestPresent(oracle.recommendedSlotIds.GetOr([]), oracle.bestSlotId)
  {
    var slotIndex := SlotIndex(slots);

    var best := oracle.bestSlotId;
    recommended := oracle.recommendedSlotIds.GetOr([]);
    if recommended == [] || best !in recommended {
      recommended := [best] + Without(recommended, best);
    }
    ghost var present := recommended;
    assert present == WithBestPresent(oracle.recommendedSlotIds.GetOr([]), best) && present != [];

    if mode == More {
      var allSlotIds := IdsOf(slots);
      if |recommended| < |allSlotIds| {
        var scores := ScoreIndex(ranking);
        var missing := MissingIds(allSlotIds, recommended);
        missing := StableSort(missing, BackfillKey(scores, slotIndex));
        recommended := recommended + missing;
      }
      assert recommended == Backfilled(present, slots, ranking) && |recommended| >= |present|;
      if recommended != [] && recommended[0] != best {
        recommended := [best] + Without(recommended, best);
      }
      assert recommended == BestFirst(Backfilled(present, slots, ranking), best);
    } else if mode == Closest || mode == Cheapest {
      if recommended != [] && recommended[0] != best {
        recommended := [best] + Without(recommended, best);
      }
      assert recommended == BestFirst(present, best);
    } else {
      if |recommended| > 10 {
        recommended := recommended[..10];
      }
      assert recommended <= present;
    }
  }

  /**
   * The reconciler as the source runs it. It fails only when an oracle
   * score lies outside [0, 1]; otherwise the best id, ranking and
   * explanation pass through, "has more" defaults to false, and the list is
   * the one ReconcileIds builds for the request's mode.
   */
  method RecommendBestSlot(intent: UserIntent, slots: seq<ParkingSlot>, oracle: RankingOracleResult)
    returns (r: Result<RecommendSlotResponse, string>)
    ensures r.Ok? <==> forall i :: 0 <= i < |oracle.ranking| ==> 0.0 <= oracle.ranking[i].score <= 1.0
    ensures r.Ok? ==>
      && r.value.bestSlotId == oracle.bestSlotId
      && r.value.ranking == ToRankings(oracle.ranking).value
      && r.value.explanationForUser == oracle.explanationForUser
      && r.value.hasMoreAvailable == oracle.hasMoreAvailable.GetOr(false)
      && r.value.recommendedSlotIds == Reconciled(ModeOf(intent), slots, oracle, r.value.ranking)
    ensures r.Ok? && ModeOf(intent) != Normal ==>
      r.value.recommendedSlotIds != [] && r.value.recommendedSlotIds[0] == oracle.bestSlotId
    ensures r.Ok? && ModeOf(intent) == Normal ==>
      && |r.value.recommendedSlotIds| <= 10
      && r.value.recommendedSlotIds <= WithBestPresent(oracle.recommendedSlotIds.GetOr([]), oracle.bestSlotId)
  {
    var ranking := ToRankings(oracle.ranking);
    if ranking.Err? {
      return Err(ranking.error);
    }
    var recommended := ReconcileIds(ModeOf(intent), slots, oracle, ranking.value);
    r := Ok(RecommendSlotResponse(
      oracle.bestSlotId, recommended, ranking.value, oracle.explanationForUser, oracle.hasMoreAvailable.GetOr(false)));
  }
}
