/**
 * The bounded conversation context handed to the extraction oracle
 * (`parse_user_intent` in services/ai-agent/app/services/ai_logic.py): the
 * last ten turns are walked newest first, lines are kept until the next one
 * would push the total over 2000 characters, and the kept lines are written
 * back oldest first under a fixed header.
 */
module ConversationContext {
  import opened Wrappers
  import opened Models

  /** One history entry as the context builder reads it: either key may be missing. */
  datatype HistoryEntry = HistoryEntry(text: Option<string>, isUser: Option<bool>)

  const HistoryWindow := 10
  const MaxContextLength := 2000
  const Header := "\n\nPrevious conversation:\n"

  /** The endpoint's conversion of its validated messages: every entry carries both keys. */
  function ToHistory(messages: seq<ConversationMessage>): (h: seq<HistoryEntry>)
    ensures |h| == |messages|
    ensures forall i :: 0 <= i < |h| ==> h[i].text == Some(messages[i].text) && h[i].isUser == Some(messages[i].isUser)
  {
    seq(|messages|, i requires 0 <= i < |messages| => HistoryEntry(Some(messages[i].text), Some(messages[i].isUser)))
  }

  /** The line an entry contributes; a missing role reads as the user's, a missing text as "". */
  function Line(e: HistoryEntry): string {
    (if e.isUser.GetOr(true) then "User" else "AI") + ": " + e.text.GetOr("") + "\n"
  }

  /** `history[-10:]`: the last ten entries, or all of them when there are fewer. */
  function Recent(history: seq<HistoryEntry>): seq<HistoryEntry> {
    if |history| <= HistoryWindow then history else history[|history| - HistoryWindow..]
  }

  /** The lines of `entries` in their own (chronological) order. */
  function LinesOf(entries: seq<HistoryEntry>): seq<string> {
    seq(|entries|, j requires 0 <= j < |entries| => Line(entries[j]))
  }

  /** The lines of `entries`, newest first. */
  function NewestFirst(entries: seq<HistoryEntry>): seq<string> {
    seq(|entries|, j requires 0 <= j < |entries| => Line(entries[|entries| - 1 - j]))
  }

  function Reverse<T>(s: seq<T>): seq<T> {
    seq(|s|, j requires 0 <= j < |s| => s[|s| - 1 - j])
  }

  /** The number of characters in all of `parts`. */
  function TotalLength(parts: seq<string>): nat {
    if parts == [] then 0 else |parts[0]| + TotalLength(parts[1..])
  }

  /** `"".join(parts)`. */
  function Concat(parts: seq<string>): string {
    if parts == [] then "" else parts[0] + Concat(parts[1..])
  }

  /**
   * How many of `lines`, taken in order, are kept when each is added while
   * the running total stays within `budget`, stopping at the first line that
   * would exceed it.
   */
  function Kept(lines: seq<string>, budget: int): (k: nat)
    ensures k <= |lines|
  {
    if lines == [] || |lines[0]| > budget then 0 else 1 + Kept(lines[1..], budget - |lines[0]|)
  }

  /** The conversation context the oracle prompt receives for `history`. */
  function ContextOf(history: seq<HistoryEntry>): string {
    var lines := NewestFirst(Recent(history));
    var k := Kept(lines, MaxContextLength);
    if k == 0 then "" else Header + Concat(Reverse(lines[..k])) + "\n"
  }

  lemma {:induction false} TotalLengthAppend(parts: seq<string>, s: string)
    ensures TotalLength(parts + [s]) == TotalLength(parts) + |s|
  {
    if parts != [] {
      assert (parts + [s])[1..] == parts[1..] + [s];
      TotalLengthAppend(parts[1..], s);
    }
  }

  /**
   * The context builder as the source runs it: a loop over the recent
   * history from the newest entry back, with a running total and a `break`
   * at the first line that does not fit. It produces ContextOf(history).
   */
  method BuildContext(history: seq<HistoryEntry>) returns (context: string)
    ensures context == ContextOf(history)
  {
    context := "";
    if |history| > 0 {
      var recent := Recent(history);
      ghost var lines := NewestFirst(recent);
      var parts: seq<string> := [];
      var totalLength := 0;
      var i := |recent|;
      while i > 0
        invariant 0 <= i <= |recent|
        invariant parts == lines[..|recent| - i]
        invariant totalLength == TotalLength(parts) <= MaxContextLength
        invariant Kept(lines, MaxContextLength) == |parts| + Kept(lines[|parts|..], MaxContextLength - totalLength)
      {
        i := i - 1;
        var msgStr := Line(recent[i]);
        assert lines[|parts|] == msgStr;
        if totalLength + |msgStr| > MaxContextLength {
          assert Kept(lines[|parts|..], MaxContextLength - totalLength) == 0;
          break;
        }
        assert lines[|parts|..][1..] == lines[|parts| + 1..];
        TotalLengthAppend(parts, msgStr);
        assert lines[..|recent| - i] == parts + [msgStr];
        parts := parts + [msgStr];
        totalLength := totalLength + |msgStr|;
      }
      assert parts == lines[..Kept(lines, MaxContextLength)];
      if parts != [] {
        context := Header + Concat(Reverse(parts)) + "\n";
      }
    }
  }

  /** The kept lines never add up to more than the budget. */
  lemma {:induction false} KeptWithinBudget(lines: seq<string>, budget: int)
    requires budget >= 0
    ensures TotalLength(lines[..Kept(lines, budget)]) <= budget
  {
    var k := Kept(lines, budget);
    if k > 0 {
      KeptWithinBudget(lines[1..], budget - |lines[0]|);
      assert lines[..k][1..] == lines[1..][..k - 1];
    }
  }

  /** Scanning stops at the first line that would overflow: the next line does not fit. */
  lemma {:induction false} KeptStopsAtFirstOverflow(lines: seq<string>, budget: int)
    requires Kept(lines, budget) < |lines|
    ensures TotalLength(lines[..Kept(lines, budget)]) + |lines[Kept(lines, budget)]| > budget
  {
    var k := Kept(lines, budget);
    if k > 0 {
      KeptStopsAtFirstOverflow(lines[1..], budget - |lines[0]|);
      assert lines[..k][1..] == lines[1..][..k - 1];
    }
  }

  lemma {:induction false} ConcatLength(parts: seq<string>)
    ensures |Concat(parts)| == TotalLength(parts)
  {
    if parts != [] {
      ConcatLength(parts[1..]);
    }
  }

  lemma {:induction false} TotalLengthReverse(parts: seq<string>)
    ensures TotalLength(Reverse(parts)) == TotalLength(parts)
  {
    if parts != [] {
      TotalLengthReverse(parts[1..]);
      assert Reverse(parts) == Reverse(parts[1..]) + [parts[0]];
      TotalLengthAppend(Reverse(parts[1..]), parts[0]);
    }
  }

  /**
   * The kept lines are the lines of the most recent entries, a contiguous
   * run ending with the newest, written oldest first.
   */
  lemma KeptLinesChronological(history: seq<HistoryEntry>)
    ensures var recent := Recent(history);
      var k := Kept(NewestFirst(recent), MaxContextLength);
      ContextOf(history) == if k == 0 then "" else Header + Concat(LinesOf(recent[|recent| - k..])) + "\n"
  {
    var recent := Recent(history);
    var lines := NewestFirst(recent);
    var k := Kept(lines, MaxContextLength);
    if k > 0 {
      var newestK := Reverse(lines[..k]);
      var oldestFirst := LinesOf(recent[|recent| - k..]);
      forall j | 0 <= j < k ensures newestK[j] == oldestFirst[j] {
        assert newestK[j] == lines[k - 1 - j];
        assert oldestFirst[j] == Line(recent[|recent| - k + j]);
      }
      assert newestK == oldestFirst;
      assert ContextOf(history) == Header + Concat(newestK) + "\n";
    }
  }

  /** The context is at most the header, 2000 characters of lines and a final newline. */
  lemma ContextBounded(history: seq<HistoryEntry>)
    ensures |ContextOf(history)| <= |Header| + MaxContextLength + 1
  {
    var lines := NewestFirst(Recent(history));
    var k := Kept(lines, MaxContextLength);
    KeptWithinBudget(lines, MaxContextLength);
    TotalLengthReverse(lines[..k]);
    ConcatLength(Reverse(lines[..k]));
  }

  /** Only the last ten entries are ever considered. */
  lemma OnlyLastTenCount(history: seq<HistoryEntry>)
    requires |history| > HistoryWindow
    ensures ContextOf(history) == ContextOf(history[|history| - HistoryWindow..])
  {
  }

  /** At most ten lines are kept. */
  lemma AtMostTenLinesKept(history: seq<HistoryEntry>)
    ensures Kept(NewestFirst(Recent(history)), MaxContextLength) <= HistoryWindow
  {
  }

  /** The context is empty exactly when no line was kept. */
  lemma EmptyContextIffNothingKept(history: seq<HistoryEntry>)
    ensures ContextOf(history) == "" <==> Kept(NewestFirst(Recent(history)), MaxContextLength) == 0
  {
  }

  /**
   * A newest entry too long for the budget hides every older one: scanning
   * stops there instead of skipping it.
   */
  lemma OversizedNewestLineHidesOlder(history: seq<HistoryEntry>)
    requires |history| > 0 && |Line(history[|history| - 1])| > MaxContextLength
    ensures ContextOf(history) == ""
  {
    var recent := Recent(history);
    assert recent[|recent| - 1] == history[|history| - 1];
  }

  /** A missing role reads as the user's and a missing text as empty. */
  lemma MissingKeysDefault()
    ensures Line(HistoryEntry(None, None)) == "User: \n"
  {
  }

  /** Entries built by the endpoint always carry both keys, so no default applies. */
  lemma EndpointLines(messages: seq<ConversationMessage>, i: nat)
    requires i < |messages|
    ensures Line(ToHistory(messages)[i]) ==
      (if messages[i].isUser then "User" else "AI") + ": " + messages[i].text + "\n"
  {
  }
}
