/**
 * What the reconciler guarantees, and what it does not. When the oracle
 * behaves (its ids are distinct candidates and its best id is a candidate)
 * the result holds candidates only, without duplicates, and a "more"
 * result is a reordering of the whole candidate list. When it does not,
 * the concrete lemmas at the end show the list passing through unrepaired.
 */
module ReconciliationProperties {
  import opened Wrappers
  import opened Models
  import opened Reconciliation

  /** The oracle answer a well-behaved ranking oracle gives for these candidates. */
  ghost predicate WellBehaved(slots: seq<ParkingSlot>, oracle: RankingOracleResult) {
    var ids := IdsOf(slots);
    var listed := oracle.recommendedSlotIds.GetOr([]);
    && NoDuplicates(ids)
    && oracle.bestSlotId in ids
    && NoDuplicates(listed)
    && forall id :: id in listed ==> id in ids
  }

  lemma {:induction false} DistinctCard(s: seq<string>)
    requires NoDuplicates(s)
    ensures |Elems(s)| == |s|
  {
    if s != [] {
      assert s == [s[0]] + s[1..];
      assert multiset(s)[s[0]] == 1 + multiset(s[1..])[s[0]];
      assert s[0] !in s[1..];
      assert forall x :: multiset(s[1..])[x] <= multiset(s)[x];
      DistinctCard(s[1..]);
      assert Elems(s) == {s[0]} + Elems(s[1..]);
    }
  }

  lemma {:induction false} SubsetFull(a: set<string>, b: set<string>)
    requires a <= b && |a| >= |b|
    ensures a == b
    decreases a
  {
    if a != {} {
      var x :| x in a;
      assert |b - {x}| == |b| - 1;
      SubsetFull(a - {x}, b - {x});
    }
  }

  /** Making the best id present keeps a well-behaved list duplicate-free and within the candidates. */
  lemma PresentStaysWellBehaved(slots: seq<ParkingSlot>, oracle: RankingOracleResult)
    requires WellBehaved(slots, oracle)
    ensures var p := WithBestPresent(oracle.recommendedSlotIds.GetOr([]), oracle.bestSlotId);
      NoDuplicates(p) && forall id :: id in p ==> id in IdsOf(slots)
  {
    var listed := oracle.recommendedSlotIds.GetOr([]);
    var best := oracle.bestSlotId;
    if best !in listed {
      assert multiset([best] + listed) == multiset{best} + multiset(listed);
    }
  }

  /** Moving the best id to the front of a duplicate-free list holding it reorders the list only. */
  lemma BestFirstReorders(ids: seq<string>, best: string)
    requires NoDuplicates(ids) && best in ids
    ensures var r := BestFirst(ids, best);
      NoDuplicates(r) && Elems(r) == Elems(ids) && |r| == |ids| && r[0] == best
  {
    var r := BestFirst(ids, best);
    if ids[0] != best {
      WithoutCount(ids, best);
      assert multiset(ids)[best] == 1;
      assert forall y :: y in r <==> y in multiset(r);
      assert forall y :: y in ids <==> y in multiset(ids);
      assert |r| == |multiset(r)|;
    }
  }

  /** A prefix of a duplicate-free list is duplicate-free. */
  lemma PrefixDistinct(s: seq<string>, k: nat)
    requires NoDuplicates(s) && k <= |s|
    ensures NoDuplicates(s[..k])
  {
    assert s == s[..k] + s[k..];
    assert multiset(s) == multiset(s[..k]) + multiset(s[k..]);
    forall x ensures multiset(s[..k])[x] <= 1 {
      assert multiset(s[..k])[x] <= multiset(s)[x];
    }
  }

  /** Appending to a duplicate-free list of candidates exactly the candidates it lacks yields every candidate once. */
  lemma AppendMissing(p: seq<string>, ids: seq<string>, extra: seq<string>)
    requires NoDuplicates(p) && NoDuplicates(ids)
    requires forall y :: y in p ==> y in ids
    requires forall y :: multiset(extra)[y] == if y in p then 0 else multiset(ids)[y]
    ensures NoDuplicates(p + extra) && Elems(p + extra) == Elems(ids)
  {
    var b := p + extra;
    assert multiset(b) == multiset(p) + multiset(extra);
    forall y ensures multiset(b)[y] <= 1 {
      if y in p {
        assert multiset(extra)[y] == 0;
      } else {
        assert multiset(p)[y] == 0;
      }
    }
    forall y ensures y in b <==> y in ids {
      assert y in extra <==> multiset(extra)[y] > 0;
      assert y in ids <==> multiset(ids)[y] > 0;
    }
  }

  /** A backfilled "more" list of a well-behaved oracle is a reordering of the candidate ids. */
  lemma BackfilledCoversCandidates(slots: seq<ParkingSlot>, oracle: RankingOracleResult, ranking: seq<SlotRanking>)
    requires WellBehaved(slots, oracle)
    ensures var b := Backfilled(WithBestPresent(oracle.recommendedSlotIds.GetOr([]), oracle.bestSlotId), slots, ranking);
      NoDuplicates(b) && Elems(b) == Elems(IdsOf(slots)) && |b| == |slots|
  {
    var ids := IdsOf(slots);
    var p := WithBestPresent(oracle.recommendedSlotIds.GetOr([]), oracle.bestSlotId);
    PresentStaysWellBehaved(slots, oracle);
    var b := Backfilled(p, slots, ranking);
    DistinctCard(ids);
    if |p| < |slots| {
      var m := MissingIds(ids, p);
      MissingIdsCount(ids, p);
      var sorted := StableSort(m, BackfillKey(ScoreIndex(ranking), SlotIndex(slots)));
      assert b == p + sorted;
      AppendMissing(p, ids, sorted);
      DistinctCard(b);
    } else {
      assert b == p;
      DistinctCard(p);
      SubsetFull(Elems(p), Elems(ids));
    }
  }

  /**
   * With a well-behaved oracle, a "more" answer lists every candidate
   * exactly once, best first.
   */
  lemma MoreModeIsPermutationOfCandidates(slots: seq<ParkingSlot>, oracle: RankingOracleResult, ranking: seq<SlotRanking>)
    requires WellBehaved(slots, oracle)
    ensures var r := Reconciled(More, slots, oracle, ranking);
      && r != [] && r[0] == oracle.bestSlotId
      && NoDuplicates(r)
      && Elems(r) == Elems(IdsOf(slots))
      && |r| == |slots|
  {
    var p := WithBestPresent(oracle.recommendedSlotIds.GetOr([]), oracle.bestSlotId);
    BackfilledCoversCandidates(slots, oracle, ranking);
    BestFirstReorders(Backfilled(p, slots, ranking), oracle.bestSlotId);
  }

  /**
   * With a well-behaved oracle, every mode answers with candidate ids only
   * and never repeats one.
   */
  lemma WellBehavedOracleGivesCandidatesOnce(mode: Mode, slots: seq<ParkingSlot>, oracle: RankingOracleResult, ranking: seq<SlotRanking>)
    requires WellBehaved(slots, oracle)
    ensures var r := Reconciled(mode, slots, oracle, ranking);
      NoDuplicates(r) && forall id :: id in r ==> id in IdsOf(slots)
  {
    var p := WithBestPresent(oracle.recommendedSlotIds.GetOr([]), oracle.bestSlotId);
    PresentStaysWellBehaved(slots, oracle);
    var r := Reconciled(mode, slots, oracle, ranking);
    match mode
    case More =>
      MoreModeIsPermutationOfCandidates(slots, oracle, ranking);
      assert forall id :: id in r ==> id in Elems(IdsOf(slots));
    case Closest =>
      BestFirstReorders(p, oracle.bestSlotId);
      assert r == BestFirst(p, oracle.bestSlotId);
      assert forall id :: id in r ==> id in Elems(p);
    case Cheapest =>
      BestFirstReorders(p, oracle.bestSlotId);
      assert r == BestFirst(p, oracle.bestSlotId);
      assert forall id :: id in r ==> id in Elems(p);
    case Normal =>
      if |p| > 10 {
        PrefixDistinct(p, 10);
        assert r == p[..10];
      }
  }

  /** Closest and cheapest answers are never backfilled or cut: at most one id longer than the oracle's list. */
  lemma ClosestAndCheapestNeitherBackfillNorCut(mode: Mode, slots: seq<ParkingSlot>, oracle: RankingOracleResult, ranking: seq<SlotRanking>)
    requires mode == Closest || mode == Cheapest
    ensures var r := Reconciled(mode, slots, oracle, ranking);
      |r| <= |oracle.recommendedSlotIds.GetOr([])| + 1 && r[0] == oracle.bestSlotId
  {
    var listed := oracle.recommendedSlotIds.GetOr([]);
    var p := WithBestPresent(listed, oracle.bestSlotId);
    if p[0] != oracle.bestSlotId {
      WithoutCount(p, oracle.bestSlotId);
    }
  }

  /** A normal answer is the oracle's list, with the best id prepended when absent, cut to ten ids. */
  lemma NormalModeOnlyCaps(slots: seq<ParkingSlot>, oracle: RankingOracleResult, ranking: seq<SlotRanking>)
    ensures var p := WithBestPresent(oracle.recommendedSlotIds.GetOr([]), oracle.bestSlotId);
      var r := Reconciled(Normal, slots, oracle, ranking);
      |r| <= 10 && r <= p && (|p| <= 10 ==> r == p)
  {
  }

  /** Removing an id from the list holding only it leaves nothing. */
  lemma WithoutSingle(best: string)
    ensures Without([best], best) == []
  {
    assert [best][1..] == [];
  }

  /** Removing the best id from `before` followed by it leaves `before`. */
  lemma WithoutTrailingBest(before: seq<string>, best: string)
    requires best !in before
    ensures Without(before + [best], best) == before
  {
    WithoutSingle(best);
    WithoutAppend(before, [best], best);
    assert before + [] == before;
  }

  /** Removing the best id from a list that has it only after `before` leaves `before` in front. */
  lemma WithoutAroundBest(before: seq<string>, best: string, after: seq<string>)
    requires best !in before
    ensures Without(before + [best] + after, best) == before + Without(after, best)
  {
    WithoutTrailingBest(before, best);
    WithoutAppend(before + [best], after, best);
  }

  /** Putting the best id first in `before + [best] + after`, with the best id not in `before`. */
  lemma BestFirstAroundBest(before: seq<string>, best: string, after: seq<string>)
    requires best !in before
    ensures before != [] ==> BestFirst(before + [best] + after, best) == [best] + before + Without(after, best)
    ensures before == [] ==> BestFirst(before + [best] + after, best) == [best] + after
  {
    var listed := before + [best] + after;
    if before != [] {
      assert listed[0] == before[0];
      WithoutAroundBest(before, best, after);
    } else {
      assert listed == [best] + after;
    }
  }

  /**
   * "Closest" and "cheapest" answers keep the oracle's order: when the
   * oracle lists other ids before its best id, the best id moves to the
   * front, those ids follow unchanged, and the ids after it follow with
   * the best id's repeats removed; a list that already starts with the best
   * id is returned as it is.
   */
  lemma ClosestAndCheapestMoveBestToFront(
    mode: Mode, slots: seq<ParkingSlot>, oracle: RankingOracleResult, ranking: seq<SlotRanking>,
    before: seq<string>, after: seq<string>)
    requires mode == Closest || mode == Cheapest
    requires oracle.recommendedSlotIds == Some(before + [oracle.bestSlotId] + after)
    requires oracle.bestSlotId !in before
    ensures before != [] ==>
      Reconciled(mode, slots, oracle, ranking) == [oracle.bestSlotId] + before + Without(after, oracle.bestSlotId)
    ensures before == [] ==> Reconciled(mode, slots, oracle, ranking) == [oracle.bestSlotId] + after
  {
    var best := oracle.bestSlotId;
    var listed := before + [best] + after;
    assert listed[|before|] == best;
    assert WithBestPresent(oracle.recommendedSlotIds.GetOr([]), best) == listed;
    assert Reconciled(mode, slots, oracle, ranking) == BestFirst(listed, best);
    BestFirstAroundBest(before, best, after);
  }


  /** The backfill never holds an id of `p`, so in particular not the best id. */
  lemma BackfillAvoidsListed(p: seq<string>, slots: seq<ParkingSlot>, ranking: seq<SlotRanking>, x: string)
    requires x in p
    ensures x !in Backfill(p, slots, ranking)
  {
    MissingIdsCount(IdsOf(slots), p);
    assert multiset(MissingIds(IdsOf(slots), p))[x] == 0;
  }

  /** Putting the best id first reaches no further than the list it was already in. */
  lemma BestFirstBeforeBackfill(p: seq<string>, extra: seq<string>, best: string)
    requires best in p && best !in extra
    ensures BestFirst(p + extra, best) == BestFirst(p, best) + extra
  {
    assert p != [] && (p + extra)[0] == p[0];
    if p[0] != best {
      WithoutAppend(p, extra, best);
    }
  }

  /**
   * A "more" answer is the oracle's list with the best id put first,
   * followed by the backfill when the list is shorter than the candidate
   * list. The best id never sits in the backfill, so putting it first
   * leaves the backfill where it is.
   */
  lemma MoreModeIsBestFirstThenBackfill(slots: seq<ParkingSlot>, oracle: RankingOracleResult, ranking: seq<SlotRanking>)
    ensures var p := WithBestPresent(oracle.recommendedSlotIds.GetOr([]), oracle.bestSlotId);
      |p| < |slots| ==>
        Reconciled(More, slots, oracle, ranking) == BestFirst(p, oracle.bestSlotId) + Backfill(p, slots, ranking)
    ensures var p := WithBestPresent(oracle.recommendedSlotIds.GetOr([]), oracle.bestSlotId);
      |p| >= |slots| ==> Reconciled(More, slots, oracle, ranking) == BestFirst(p, oracle.bestSlotId)
  {
    var p := WithBestPresent(oracle.recommendedSlotIds.GetOr([]), oracle.bestSlotId);
    if |p| < |slots| {
      BackfillAvoidsListed(p, slots, ranking, oracle.bestSlotId);
      BestFirstBeforeBackfill(p, Backfill(p, slots, ranking), oracle.bestSlotId);
    }
  }

  /**
   * The backfill of a "more" answer is in descending key order, and ids
   * with equal keys keep the order they have among the candidates.
   */
  lemma BackfillSortedStably(p: seq<string>, slots: seq<ParkingSlot>, ranking: seq<SlotRanking>, k: SortKey)
    ensures Descending(Backfill(p, slots, ranking), BackfillKey(ScoreIndex(ranking), SlotIndex(slots)))
    ensures var key := BackfillKey(ScoreIndex(ranking), SlotIndex(slots));
      WithKey(Backfill(p, slots, ranking), key, k) == WithKey(MissingIds(IdsOf(slots), p), key, k)
  {
    StableSortKeepsTies(MissingIds(IdsOf(slots), p), BackfillKey(ScoreIndex(ranking), SlotIndex(slots)), k);
  }

  function Slot(id: string, distanceM: int): ParkingSlot {
    ParkingSlot(id, 0.0, 0.0, 2.0, distanceM, true, None, None, None, None)
  }

  function Answer(best: string, listed: seq<string>): RankingOracleResult {
    RankingOracleResult(best, Some(listed), [], "", None)
  }

  /** A normal answer is not reordered: best "s1" stays second. */
  lemma NormalModeKeepsOracleOrder()
    ensures Reconciled(Normal, [Slot("s1", 150), Slot("s2", 350)], Answer("s1", ["s2", "s1"]), []) == ["s2", "s1"]
  {
  }

  /** Duplicates pass through: nothing deduplicates the oracle's list. */
  lemma DuplicatesPassThrough()
    ensures Reconciled(Closest, [Slot("s1", 150), Slot("s2", 350)], Answer("s1", ["s1", "s2", "s2"]), []) == ["s1", "s2", "s2"]
  {
  }

  /** Ids that are not candidates pass through, and an empty candidate list is not rejected. */
  lemma UnknownIdsPassThrough()
    ensures Reconciled(Normal, [Slot("s1", 150)], Answer("ghost", ["ghost"]), []) == ["ghost"]
    ensures Reconciled(Normal, [], Answer("ghost", []), []) == ["ghost"]
  {
  }

  /** Cutting a normal answer to ten ids can drop the best id when the oracle lists it eleventh. */
  lemma NormalCapCanDropBest()
    ensures var listed := ["a", "b", "c", "d", "e", "f", "g", "h", "i", "j", "best"];
      "best" !in Reconciled(Normal, [], Answer("best", listed), [])
  {
    var listed := ["a", "b", "c", "d", "e", "f", "g", "h", "i", "j", "best"];
    assert "best" in listed by { assert listed[10] == "best"; }
    var r := listed[..10];
    assert forall k :: 0 <= k < 10 ==> r[k] != "best";
  }

  /** A "more" answer as long as the candidate list is not backfilled, even if it names no candidate but the best. */
  lemma MoreModeNeedNotCoverCandidates()
    ensures Reconciled(More, [Slot("s1", 150), Slot("s2", 350)], Answer("x", ["x", "y"]), []) == ["x", "y"]
  {
  }

  /**
   * The two-slot example: a normal request gets the oracle's single id, a
   * "more" request gets the other candidate appended.
   */
  lemma TwoSlotExample()
    ensures Reconciled(Normal, [Slot("s1", 150), Slot("s2", 350)], Answer("s1", ["s1"]), []) == ["s1"]
    ensures Reconciled(More, [Slot("s1", 150), Slot("s2", 350)], Answer("s1", ["s1"]), []) == ["s1", "s2"]
  {
    var slots := [Slot("s1", 150), Slot("s2", 350)];
    assert IdsOf(slots) == ["s1", "s2"];
    assert MissingIds(["s1", "s2"], ["s1"]) == ["s2"];
  }

  function ThreeSlots(): seq<ParkingSlot> {
    [Slot("s1", 150), Slot("s2", 350), Slot("s3", 50)]
  }

  lemma ThreeSlotsIndex()
    ensures var index := SlotIndex(ThreeSlots());
      "s2" in index && "s3" in index && index["s2"].distanceM == 350 && index["s3"].distanceM == 50
  {
    var slots := ThreeSlots();
    var front := slots[..2];
    assert front == [Slot("s1", 150), Slot("s2", 350)];
    assert SlotIndex(slots) == SlotIndex(front)["s3" := Slot("s3", 50)];
  }

  lemma ThreeSlotsMissing()
    ensures MissingIds(IdsOf(ThreeSlots()), ["s1"]) == ["s2", "s3"]
  {
    assert IdsOf(ThreeSlots()) == ["s1", "s2", "s3"];
  }

  /** Sorting two ids, the second with the greater key, swaps them. */
  lemma SortSwapsPair(x: string, y: string, key: string -> SortKey)
    requires KeyAbove(key(y), key(x))
    ensures StableSort([x, y], key) == [y, x]
  {
    assert [x, y][1..] == [y];
    assert [y][1..] == [];
    assert Insert(x, [y], key) == [y] + Insert(x, [], key);
  }

  lemma ThreeSlotsBackfillOrder()
    ensures StableSort(["s2", "s3"], BackfillKey(ScoreIndex([]), SlotIndex(ThreeSlots()))) == ["s3", "s2"]
  {
    ThreeSlotsIndex();
    var key := BackfillKey(ScoreIndex([]), SlotIndex(ThreeSlots()));
    assert key("s2") == SortKey(0.0, -350);
    assert key("s3") == SortKey(0.0, -50);
    SortSwapsPair("s2", "s3", key);
  }

  lemma ThreeSlotsBackfill()
    ensures Backfill(["s1"], ThreeSlots(), []) == ["s3", "s2"]
  {
    ThreeSlotsMissing();
    ThreeSlotsBackfillOrder();
  }

  /** A "more" answer to an oracle that lists only its best id is that id, then the backfill. */
  lemma OnlyBestListed(slots: seq<ParkingSlot>, oracle: RankingOracleResult, ranking: seq<SlotRanking>)
    requires oracle.recommendedSlotIds == Some([oracle.bestSlotId]) && 1 < |slots|
    ensures Reconciled(More, slots, oracle, ranking) == [oracle.bestSlotId] + Backfill([oracle.bestSlotId], slots, ranking)
  {
    MoreModeIsBestFirstThenBackfill(slots, oracle, ranking);
  }

  /** Unranked missing candidates are backfilled nearest first. */
  lemma BackfillNearestFirst()
    ensures Reconciled(More, ThreeSlots(), Answer("s1", ["s1"]), []) == ["s1", "s3", "s2"]
  {
    OnlyBestListed(ThreeSlots(), Answer("s1", ["s1"]), []);
    ThreeSlotsBackfill();
  }
}
