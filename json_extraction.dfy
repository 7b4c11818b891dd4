/**
 * Recovering the JSON text from a language-model reply
 * (`_extract_json_from_response` in services/ai-agent/app/services/gemini_client.py):
 * trim the reply, take the inside of a "```json" (or plain "```") fence
 * when the fence is closed, then cut from the first '{' through the last
 * '}' unless the text already starts with '{' and ends with '}'. The JSON
 * decoder is a parameter.
 */
module JsonExtraction {
  import opened Wrappers
  import opened PyText
  import opened Models

  const JsonFence: string := "```json"
  const Fence: string := "```"

  /** The fixed part of the error raised when the decoder rejects the text. */
  const InvalidJsonMessage: string := "Invalid JSON response from Gemini"

  /**
   * The inside of the first `fence`, trimmed, when a plain "```" closes it
   * further on; otherwise the text unchanged.
   */
  function Unfence(text: string, fence: string): string {
    var k := Find(text, fence, 0);
    if k == -1 then text
    else
      var start := k + |fence|;
      var end := Find(text, Fence, start);
      if end != -1 then Strip(text[start..end]) else text
  }

  /**
   * The fence step: a text holding "```json" is unfenced at that fence,
   * otherwise a text holding "```" at that one, otherwise it is unchanged.
   */
  function StripFences(text: string): (r: string)
    ensures !Contains(text, Fence) ==> r == text
  {
    if Contains(text, JsonFence) then Unfence(text, JsonFence)
    else if Contains(text, Fence) then Unfence(text, Fence)
    else text
  }

  /**
   * The object cut: a text that does not both start with '{' and end with
   * '}' but holds both braces becomes the span from its first '{' through
   * its last '}', which is empty when that '}' comes before that '{'.
   */
  function CutToBraces(text: string): (r: string)
    ensures StartsWith(text, "{") && EndsWith(text, "}") ==> r == text
    ensures '{' !in text || '}' !in text ==> r == text
    ensures !(StartsWith(text, "{") && EndsWith(text, "}")) && '{' in text && '}' in text ==>
      && (r == [] <==> RFindChar(text, '}') < FindChar(text, '{'))
      && (r != [] ==>
            && r[0] == '{' && r[|r| - 1] == '}'
            && OccursAt(text, r, FindChar(text, '{'))
            && '}' !in text[FindChar(text, '{') + |r|..])
  {
    if StartsWith(text, "{") && EndsWith(text, "}") then text
    else if '{' in text && '}' in text then
      var start := FindChar(text, '{');
      var end := RFindChar(text, '}') + 1;
      if end <= start then [] else text[start..end]
    else text
  }

  /** The text handed to the JSON decoder. */
  function ExtractJsonText(response: string): string {
    CutToBraces(StripFences(Strip(response)))
  }

  /** The decoded reply, or the invalid-JSON error when the decoder rejects the extracted text. */
  function ExtractJson(response: string, parse: string -> Option<Json>): (r: Result<Json, string>)
    ensures r.Ok? <==> parse(ExtractJsonText(response)).Some?
    ensures r.Ok? ==> r.value == parse(ExtractJsonText(response)).value
    ensures r.Err? ==> r.error == InvalidJsonMessage
  {
    match parse(ExtractJsonText(response))
    case Some(value) => Ok(value)
    case None => Err(InvalidJsonMessage)
  }

  /** A candidate object text: starts with '{', ends with '}', holds no backtick. */
  predicate ObjectText(j: string) {
    |j| >= 1 && j[0] == '{' && j[|j| - 1] == '}' && '`' !in j
  }

  /** No backtick means no fence. */
  lemma NoBacktickNoFence(s: string)
    requires '`' !in s
    ensures !Contains(s, Fence)
  {
    FenceStartsWithBacktick(s);
  }

  /** Every fence starts with a backtick. */
  lemma FenceStartsWithBacktick(s: string)
    ensures forall i :: OccursAt(s, Fence, i) ==> 0 <= i < |s| && s[i] == '`'
  {
    forall i | OccursAt(s, Fence, i) ensures 0 <= i < |s| && s[i] == '`' {
      assert s[i] == s[i..i + 3][0];
    }
  }

  /** Whitespace holds no backtick. */
  lemma BlankHasNoBacktick(s: string)
    requires IsBlank(s)
    ensures '`' !in s
  {
    forall k | 0 <= k < |s| ensures s[k] != '`' {
      assert IsSpace(s[k]);
    }
  }

  /** A text with non-space ends is its own trim. */
  lemma StripUnpadded(s: string)
    requires s != [] && !IsSpace(s[0]) && !IsSpace(s[|s| - 1])
    ensures Strip(s) == s
  {
    StripPadded([], s, []);
    assert [] + s + [] == s;
  }

  /** The object cut leaves a text that starts with '{' and ends with '}' alone. */
  lemma ObjectCutUnchanged(j: string)
    requires |j| >= 1 && j[0] == '{' && j[|j| - 1] == '}'
    ensures CutToBraces(j) == j
  {
    assert j[..1] == "{" && j[|j| - 1..] == "}";
  }

  /** Extraction leaves an object text as it is. */
  lemma ObjectTextUnchanged(j: string)
    requires ObjectText(j)
    ensures ExtractJsonText(j) == j
  {
    StripUnpadded(j);
    NoBacktickNoFence(j);
    ObjectCutUnchanged(j);
  }

  /** Whitespace around an object is trimmed away. */
  lemma PaddedObjectExtracted(before: string, j: string, after: string)
    requires IsBlank(before) && IsBlank(after) && ObjectText(j)
    ensures ExtractJsonText(before + j + after) == j
  {
    StripPadded(before, j, after);
    NoBacktickNoFence(j);
  }

  /** The first closing fence after a fenced body with no backtick is the one right after it. */
  lemma ClosingFenceFound(text: string, start: nat, body: string)
    requires start + |body| + 3 <= |text|
    requires text[start..start + |body|] == body && '`' !in body
    requires OccursAt(text, Fence, start + |body|)
    ensures Find(text, Fence, start) == start + |body|
  {
    FenceStartsWithBacktick(text);
    forall i | start <= i < start + |body| ensures text[i] != '`' {
      assert text[i] == body[i - start];
    }
  }

  /** Where `pat` first occurs at or after `start`, Find finds it. */
  lemma FindFirst(s: string, pat: string, start: nat, k: int)
    requires start <= k && OccursAt(s, pat, k)
    requires forall i :: start <= i < k ==> !OccursAt(s, pat, i)
    ensures Find(s, pat, start) == k
  {
  }

  /** `pat` does not occur at `i` when the text differs from it at offset `m`. */
  lemma MismatchAt(s: string, pat: string, i: nat, m: nat)
    requires m < |pat| && (i + m >= |s| || s[i + m] != pat[m])
    ensures !OccursAt(s, pat, i)
  {
    if i + |pat| <= |s| {
      assert s[i..i + |pat|][m] == s[i + m];
    }
  }

  /** A fence that follows a prefix with no backtick is the first occurrence of that fence. */
  lemma FenceAfterPlainPrefix(pre: string, fence: string, rest: string)
    requires '`' !in pre && fence != [] && fence[0] == '`'
    ensures Find(pre + fence + rest, fence, 0) == |pre|
  {
    var text := pre + fence + rest;
    assert text[|pre|..|pre| + |fence|] == fence;
    forall i | 0 <= i < |pre| ensures !OccursAt(text, fence, i) {
      assert text[i] == pre[i];
      MismatchAt(text, fence, i, 0);
    }
    FindFirst(text, fence, 0, |pre|);
  }

  /** A pattern the text does not contain occurs at no index. */
  lemma AbsentNowhere(s: string, pat: string, i: int)
    requires !Contains(s, pat)
    ensures !OccursAt(s, pat, i)
  {
    if i >= 0 {
      assert Find(s, pat, 0) == -1;
    }
  }

  /** No closing fence is found from `start` on when the rest of the text holds none. */
  lemma NoFenceAfter(text: string, start: nat)
    requires start <= |text| && !Contains(text[start..], Fence)
    ensures Find(text, Fence, start) == -1
  {
    var rest := text[start..];
    forall i | start <= i ensures !OccursAt(text, Fence, i) {
      if i + 3 <= |text| {
        assert text[i..i + 3] == rest[i - start..i - start + 3];
        AbsentNowhere(rest, Fence, i - start);
      }
    }
  }

  /** Unfencing at a first `fence` found at `k` whose closing "```" is found at `e`. */
  lemma UnfenceBetween(text: string, fence: string, k: nat, e: nat)
    requires Find(text, fence, 0) == k
    requires k + |fence| <= e <= |text|
    requires Find(text, Fence, k + |fence|) == e
    ensures Unfence(text, fence) == Strip(text[k + |fence|..e])
  {
  }

  /**
   * Unfencing at the first `fence` (after a prefix with no backtick) that a
   * plain "```" closes further on, with no backtick in between, yields the
   * trimmed inside, whatever follows.
   */
  lemma UnfenceClosed(pre: string, fence: string, body: string, post: string)
    requires fence != [] && fence[0] == '`'
    requires '`' !in pre && '`' !in body
    ensures Unfence(pre + fence + body + Fence + post, fence) == Strip(body)
  {
    var rest := body + Fence + post;
    var text := pre + fence + rest;
    assert text == pre + fence + body + Fence + post;
    FenceAfterPlainPrefix(pre, fence, rest);
    var start := |pre| + |fence|;
    assert text[start..start + |body|] == body;
    assert text[start + |body|..start + |body| + 3] == Fence;
    ClosingFenceFound(text, start, body);
    UnfenceBetween(text, fence, |pre|, start + |body|);
  }

  /** A first `fence` that no "```" closes leaves the text unchanged. */
  lemma UnfenceUnclosed(pre: string, fence: string, rest: string)
    requires fence != [] && fence[0] == '`'
    requires '`' !in pre && !Contains(rest, Fence)
    ensures Unfence(pre + fence + rest, fence) == pre + fence + rest
  {
    var text := pre + fence + rest;
    FenceAfterPlainPrefix(pre, fence, rest);
    assert text[|pre| + |fence|..] == rest;
    NoFenceAfter(text, |pre| + |fence|);
  }

  /**
   * A closed "```json" fence yields its trimmed body, whatever text
   * without a backtick comes before it and whatever text comes after it.
   */
  lemma ClosedJsonFence(pre: string, body: string, post: string)
    requires '`' !in pre && '`' !in body
    ensures StripFences(pre + JsonFence + body + Fence + post) == Strip(body)
  {
    FenceAfterPlainPrefix(pre, JsonFence, body + Fence + post);
    assert pre + JsonFence + body + Fence + post == pre + JsonFence + (body + Fence + post);
    UnfenceClosed(pre, JsonFence, body, post);
  }

  /** In a text without "```json", a closed plain "```" fence yields its trimmed body. */
  lemma ClosedPlainFence(pre: string, body: string, post: string)
    requires '`' !in pre && '`' !in body
    requires !Contains(pre + Fence + body + Fence + post, JsonFence)
    ensures StripFences(pre + Fence + body + Fence + post) == Strip(body)
  {
    var rest := body + Fence + post;
    var text := pre + Fence + rest;
    assert text == pre + Fence + body + Fence + post;
    FenceAfterPlainPrefix(pre, Fence, rest);
    assert StripFences(text) == Unfence(text, Fence);
    UnfenceClosed(pre, Fence, body, post);
  }

  /**
   * An unclosed "```json" fence leaves the text unchanged: the plain
   * branch is not tried, even when the text also holds a closed "```" pair.
   */
  lemma UnclosedFenceKept(pre: string, rest: string)
    requires '`' !in pre && !Contains(rest, Fence)
    ensures StripFences(pre + JsonFence + rest) == pre + JsonFence + rest
  {
    FenceAfterPlainPrefix(pre, JsonFence, rest);
    UnfenceUnclosed(pre, JsonFence, rest);
  }

  /** In a text without "```json", an unclosed plain "```" fence leaves the text unchanged. */
  lemma UnclosedPlainFenceKept(pre: string, rest: string)
    requires '`' !in pre && !Contains(rest, Fence)
    requires !Contains(pre + Fence + rest, JsonFence)
    ensures StripFences(pre + Fence + rest) == pre + Fence + rest
  {
    FenceAfterPlainPrefix(pre, Fence, rest);
    UnfenceUnclosed(pre, Fence, rest);
  }

  /** The only "```json" of "```a``` ```json {}" stands at index 8. */
  lemma JsonFenceAtEight(t: string)
    requires t == "```a``` ```json {}"
    ensures Find(t, JsonFence, 0) == 8
  {
    forall i | 0 <= i < 8 ensures !OccursAt(t, JsonFence, i) {
      assert t[i + 3] != 'j';
      MismatchAt(t, JsonFence, i, 3);
    }
    assert t[8..15] == JsonFence;
    FindFirst(t, JsonFence, 0, 8);
  }

  /** The plain branch on "```a``` ```json {}" would take the closed pair around "a". */
  lemma PlainBranchOnMixedFences(t: string)
    requires t == "```a``` ```json {}"
    ensures Unfence(t, Fence) == "a"
  {
    assert t[0..3] == Fence;
    FindFirst(t, Fence, 0, 0);
    assert t[3..4] == "a";
    assert t[4..7] == Fence;
    ClosingFenceFound(t, 3, "a");
    StripUnpadded("a");
  }

  /**
   * "```json" takes precedence even when unclosed: on "```a``` ```json {}"
   * the fence step keeps the whole text, where the plain branch would have
   * yielded "a".
   */
  lemma JsonFenceTakesPrecedence()
    ensures StripFences("```a``` ```json {}") == "```a``` ```json {}"
    ensures Unfence("```a``` ```json {}", Fence) == "a"
  {
    var t := "```a``` ```json {}";
    JsonFenceAtEight(t);
    assert t[15..] == " {}";
    NoBacktickNoFence(" {}");
    NoFenceAfter(t, 15);
    PlainBranchOnMixedFences(t);
  }

  /** A closed "```json" fence with only whitespace around it: the trimmed body goes on to the object cut. */
  lemma FencedReply(before: string, body: string, after: string)
    requires IsBlank(before) && IsBlank(after) && '`' !in body
    ensures ExtractJsonText(before + JsonFence + body + Fence + after) == CutToBraces(Strip(body))
  {
    var fenced := JsonFence + body + Fence;
    assert before + JsonFence + body + Fence + after == before + fenced + after;
    assert fenced[0] == '`' && fenced[|fenced| - 1] == '`';
    StripPadded(before, fenced, after);
    BareJsonFence(body);
  }

  /** A reply that is exactly a closed "```json" fence. */
  lemma BareJsonFence(body: string)
    requires '`' !in body
    ensures StripFences(JsonFence + body + Fence) == Strip(body)
  {
    assert [] + JsonFence + body + Fence + [] == JsonFence + body + Fence;
    ClosedJsonFence([], body, []);
  }

  /**
   * A reply holding one "```json" fence around an object, with only
   * whitespace inside the fence around the object and around the fence,
   * yields exactly that object.
   */
  lemma FencedObjectExtracted(before: string, ws1: string, j: string, ws2: string, after: string)
    requires IsBlank(before) && IsBlank(ws1) && IsBlank(ws2) && IsBlank(after)
    requires ObjectText(j)
    ensures ExtractJsonText(before + JsonFence + ws1 + j + ws2 + Fence + after) == j
  {
    var body := ws1 + j + ws2;
    assert before + JsonFence + ws1 + j + ws2 + Fence + after == before + JsonFence + body + Fence + after;
    BlankHasNoBacktick(ws1);
    BlankHasNoBacktick(ws2);
    FencedReply(before, body, after);
    StripPadded(ws1, j, ws2);
    assert Strip(body) == j;
    ObjectCutUnchanged(j);
  }

  /** Where `c` first stands, FindChar finds it. */
  lemma FindCharAt(s: string, c: char, k: int)
    requires 0 <= k < |s| && s[k] == c
    requires forall i :: 0 <= i < k ==> s[i] != c
    ensures FindChar(s, c) == k
  {
  }

  /** Where `c` last stands, RFindChar finds it. */
  lemma RFindCharAt(s: string, c: char, k: int)
    requires 0 <= k < |s| && s[k] == c
    requires forall i :: k < i < |s| ==> s[i] != c
    ensures RFindChar(s, c) == k
  {
  }

  /** The first '{' of the prose-wrapped text is the object's, and its last '}' too. */
  lemma BracesOfWrapped(pre: string, j: string, post: string)
    requires ObjectText(j)
    requires '{' !in pre && '}' !in post
    ensures FindChar(pre + j + post, '{') == |pre|
    ensures RFindChar(pre + j + post, '}') == |pre| + |j| - 1
  {
    var text := pre + j + post;
    assert text[|pre|] == '{' && text[|pre| + |j| - 1] == '}';
    forall i | 0 <= i < |pre| ensures text[i] != '{' {
      assert text[i] == pre[i];
    }
    FindCharAt(text, '{', |pre|);
    forall i | |pre| + |j| - 1 < i < |text| ensures text[i] != '}' {
      assert text[i] == post[i - |pre| - |j|];
    }
    RFindCharAt(text, '}', |pre| + |j| - 1);
  }

  /** Prose around an object, holding no brace and no backtick, is cut away. */
  lemma ObjectInProseExtracted(pre: string, j: string, post: string)
    requires ObjectText(j)
    requires pre != [] && !IsSpace(pre[0]) && post != [] && !IsSpace(post[|post| - 1])
    requires '{' !in pre && '}' !in pre && '`' !in pre
    requires '{' !in post && '}' !in post && '`' !in post
    ensures ExtractJsonText(pre + j + post) == j
  {
    var text := pre + j + post;
    assert text[0] == pre[0] && text[|text| - 1] == post[|post| - 1];
    StripUnpadded(text);
    NoBacktickNoFence(text);
    assert StripFences(text) == text;
    assert !StartsWith(text, "{") by {
      assert text[..1][0] == pre[0];
    }
    BracesOfWrapped(pre, j, post);
    assert text[|pre|..|pre| + |j|] == j;
  }

  /** The fence step keeps "```json {}" whole. */
  lemma UnclosedFenceOnly()
    ensures StripFences("```json {}") == "```json {}"
  {
    NoBacktickNoFence(" {}");
    assert [] + JsonFence + " {}" == "```json {}";
    UnclosedFenceKept([], " {}");
  }

  /** An unclosed "```json" fence is kept, and the object cut still finds the object after it. */
  lemma UnclosedFenceExample()
    ensures ExtractJsonText("```json {}") == "{}"
  {
    StripUnpadded("```json {}");
    UnclosedFenceOnly();
    CutAfterUnclosedFence("```json {}");
  }

  /** The object cut finds "{}" after the unclosed fence. */
  lemma CutAfterUnclosedFence(text: string)
    requires text == "```json {}"
    ensures CutToBraces(text) == "{}"
  {
    assert !StartsWith(text, "{") by {
      assert text[..1] == "`";
    }
    FindCharAt(text, '{', 8);
    RFindCharAt(text, '}', 9);
    assert text[8..10] == "{}";
  }

  /** A last '}' before the first '{' leaves the decoder an empty text. */
  lemma ReversedBracesGiveEmptyText()
    ensures ExtractJsonText("}x{") == ""
  {
    var text := "}x{";
    StripUnpadded(text);
    NoBacktickNoFence(text);
    assert !StartsWith(text, "{") by {
      assert text[..1] == "}";
    }
    assert FindChar(text, '{') == 2;
    assert RFindChar(text, '}') == 0;
  }
}
