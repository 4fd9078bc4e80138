/** The quiz endpoint (api/quiz.ts): builds a prompt from stored policies,
    asks a language model for true/false quizzes, unwraps the JSON it
    answers with and falls back to a fixed list on any failure. The model
    call and `JSON.parse` are oracles passed in as functions. */
module QuizApi {
  import opened Wrappers
  import opened Text
  import opened PolicyModel
  import opened QuizTexts

  const MaxQuizzes := 5
  const MaxContextPolicies := 10
  const Fence := "```"
  const JsonFence := "```json"

  // ---------------------------------------------------------------------
  // The fallback list
  // ---------------------------------------------------------------------

  /** How many quizzes of `qs` have the given answer. */
  function CountAnswers(qs: seq<Quiz>, answer: bool): (n: nat)
    ensures n <= |qs|
  {
    if qs == [] then 0
    else CountAnswers(qs[..|qs| - 1], answer) + (if qs[|qs| - 1].answer == answer then 1 else 0)
  }

  /** Every quiz is counted under exactly one answer. */
  lemma {:induction false} CountAnswersTotal(qs: seq<Quiz>)
    ensures CountAnswers(qs, true) + CountAnswers(qs, false) == |qs|
  {
    if qs != [] {
      CountAnswersTotal(qs[..|qs| - 1]);
    }
  }

  /** Five quizzes answered true, true, false, false, true: three true and two false. */
  lemma CountFive(qs: seq<Quiz>)
    requires |qs| == 5
    requires qs[0].answer && qs[1].answer && !qs[2].answer && !qs[3].answer && qs[4].answer
    ensures CountAnswers(qs, true) == 3 && CountAnswers(qs, false) == 2
  {
    assert qs[..5] == qs;
    assert qs[..5][..4] == qs[..4] && qs[..4][..3] == qs[..3] && qs[..3][..2] == qs[..2] && qs[..2][..1] == qs[..1];
    assert CountAnswers(qs[..1], true) == 1 && CountAnswers(qs[..1], false) == 0;
    assert CountAnswers(qs[..2], true) == 2 && CountAnswers(qs[..2], false) == 0;
    assert CountAnswers(qs[..3], true) == 2 && CountAnswers(qs[..3], false) == 1;
    assert CountAnswers(qs[..4], true) == 2 && CountAnswers(qs[..4], false) == 2;
  }

  /** The fallback list is balanced as the prompt asks of the model: three
      quizzes answered true, two false. */
  lemma FallbackBalance()
    ensures CountAnswers(FallbackQuizzes(), true) == 3
    ensures CountAnswers(FallbackQuizzes(), false) == 2
  {
    CountFive(FallbackQuizzes());
  }

  // ---------------------------------------------------------------------
  // Unwrapping the model's answer
  // ---------------------------------------------------------------------

  /** The part of `text` after the first `sep`. */
  function After(text: string, sep: string): (r: string)
    requires Contains(text, sep)
    ensures |r| <= |text|
  {
    text[IndexOf(text, sep) + |sep|..]
  }

  /** The `jsonText` the endpoint hands to `JSON.parse`: the inside of a
      ```` ```json ```` block, else of a ```` ``` ```` block, trimmed, else
      the whole text. */
  function ExtractJsonText(text: string): (r: string)
    ensures !Contains(text, Fence) ==> r == text
    ensures Contains(text, Fence) ==> !Contains(r, Fence) && (r == [] || (!IsSpace(r[0]) && !IsSpace(r[|r| - 1])))
  {
    JsonFenceIsFence(text);
    if Contains(text, JsonFence) then UnfencedPiece(SplitOn(text, JsonFence)[1])
    else if Contains(text, Fence) then UnfencedPiece(SplitOn(text, Fence)[1])
    else text
  }

  /** The trimmed part of `seg` before its first ```` ``` ````: no fence is left in it. */
  function UnfencedPiece(seg: string): (r: string)
    ensures !Contains(r, Fence) && (r == [] || (!IsSpace(r[0]) && !IsSpace(r[|r| - 1])))
  {
    var first := SplitOn(seg, Fence)[0];
    SplitFirst(seg, Fence);
    NoMatchInSlice(first, Fence, TrimOffset(first), TrimOffset(first) + |Trim(first)|);
    Trim(first)
  }

  /** An opening ```` ```json ```` is also a ```` ``` ````. */
  lemma JsonFenceIsFence(s: string)
    ensures Contains(s, JsonFence) ==> Contains(s, Fence)
    ensures EndOf(s, Fence) <= EndOf(s, JsonFence)
  {
    if Contains(s, JsonFence) {
      var k := IndexOf(s, JsonFence);
      assert s[k..k + 3] == s[k..k + 7][..3];
      assert MatchesAt(s, Fence, k);
      ContainsIff(s, Fence);
    }
  }

  /** After an opening ```` ```json ````, the first ```` ``` ```` closes the
      block, unless it overlaps the next ```` ```json ````. */
  predicate ClosesBeforeNextOpening(after: string)
  {
    EndOf(after, Fence) == EndOf(after, JsonFence) || EndOf(after, Fence) + |Fence| <= EndOf(after, JsonFence)
  }

  /** With a ```` ```json ```` block: what follows the first ```` ```json ````
      up to the next ```` ``` ```` (or the end), trimmed. */
  lemma ExtractFromJsonFence(text: string)
    requires Contains(text, JsonFence)
    requires ClosesBeforeNextOpening(After(text, JsonFence))
    ensures var after := After(text, JsonFence);
      ExtractJsonText(text) == Trim(after[..EndOf(after, Fence)])
  {
    var after := After(text, JsonFence);
    var p, e := EndOf(after, Fence), EndOf(after, JsonFence);
    SplitSecond(text, JsonFence);
    var seg := SplitOn(text, JsonFence)[1];
    assert seg == after[..e];
    EndOfInPrefix(after, Fence, e);
    SplitFirst(seg, Fence);
    assert seg[..p] == after[..p];
  }

  /** With only plain fences: what lies between the first and the second
      ```` ``` ```` (or the end), trimmed. */
  lemma ExtractFromFence(text: string)
    requires !Contains(text, JsonFence) && Contains(text, Fence)
    ensures var after := After(text, Fence);
      ExtractJsonText(text) == Trim(after[..EndOf(after, Fence)])
  {
    var after := After(text, Fence);
    var p := EndOf(after, Fence);
    SplitSecond(text, Fence);
    var seg := SplitOn(text, Fence)[1];
    assert seg == after[..p];
    EndOfInPrefix(after, Fence, p);
    SplitFirst(seg, Fence);
    assert seg[..p] == seg;
  }

  /** A fence cannot match where one of its backticks would meet another
      character or the end of the text. */
  lemma NoFenceAt(s: string, sep: string, k: int, i: nat)
    requires i < |sep| && sep[i] == '`'
    requires k + i >= |s| || (0 <= k + i && s[k + i] != '`')
    ensures !MatchesAt(s, sep, k)
  {
    if 0 <= k && k + |sep| <= |s| {
      assert s[k..k + |sep|][i] == s[k + i];
    }
  }

  /** In `pre + JsonFence + rest` with no backtick in `pre`, the first
      opening is right after `pre`. */
  lemma OpeningAfter(pre: string, rest: string)
    requires '`' !in pre
    ensures Contains(pre + JsonFence + rest, JsonFence)
    ensures After(pre + JsonFence + rest, JsonFence) == rest
  {
    var text := pre + JsonFence + rest;
    assert text[|pre|..|pre| + 7] == JsonFence;
    forall k | 0 <= k < |pre| ensures !MatchesAt(text, JsonFence, k) {
      assert text[k] == pre[k];
      NoFenceAt(text, JsonFence, k, 0);
    }
    FirstMatchAt(text, JsonFence, |pre|);
    assert text[|pre| + 7..] == rest;
  }

  /** In `body + Fence + post` without backticks in `body` and `post`, the
      first fence closes the block right after `body`. */
  lemma ClosingAfter(body: string, post: string)
    requires '`' !in body && '`' !in post
    ensures var after := body + Fence + post;
      EndOf(after, Fence) == |body| && ClosesBeforeNextOpening(after)
  {
    var after := body + Fence + post;
    var p := |body|;
    assert after[p..p + 3] == Fence;
    forall k | 0 <= k < p ensures !MatchesAt(after, Fence, k) && !MatchesAt(after, JsonFence, k) {
      assert after[k] == body[k];
      NoFenceAt(after, Fence, k, 0);
      NoFenceAt(after, JsonFence, k, 0);
    }
    FirstMatchAt(after, Fence, p);
    if p + 3 < |after| {
      assert after[p + 3] == post[0];
    }
    NoFenceAt(after, JsonFence, p + 1, 2);
    NoFenceAt(after, JsonFence, p + 2, 1);
  }

  /** Wrapping a trimmed, backtick-free answer in a ```` ```json ```` block,
      with any backtick-free text around it, and unwrapping it gives it back. */
  lemma ExtractWrapped(pre: string, body: string, post: string)
    requires '`' !in pre && '`' !in body && '`' !in post
    requires body == [] || (!IsSpace(body[0]) && !IsSpace(body[|body| - 1]))
    ensures ExtractJsonText(pre + JsonFence + body + Fence + post) == body
  {
    var after := body + Fence + post;
    assert pre + JsonFence + body + Fence + post == pre + JsonFence + after;
    OpeningAfter(pre, after);
    ClosingAfter(body, post);
    ExtractFromJsonFence(pre + JsonFence + after);
    assert after[..|body|] == body;
    TrimStartOfTrimmed(body);
    TrimEndOfTrimmed(body);
  }

  // ---------------------------------------------------------------------
  // The prompt
  // ---------------------------------------------------------------------

  /** One context line: `- <title> (출처: <source>)`. */
  function ContextLine(p: Policy): (line: string)
    ensures |line| > 2 + |p.title| && line[..2] == "- " && line[2..2 + |p.title|] == p.title
    ensures line[2 + |p.title|..] == " (출처: " + SourceName(p.source) + ")"
    ensures '\n' !in p.title ==> '\n' !in line
  {
    "- " + p.title + " (출처: " + SourceName(p.source) + ")"
  }

  /** One line per policy, in order: `- ` and the policy's title, then its
      source; a line breaks only where a title does. */
  function ContextLines(policies: seq<Policy>): (lines: seq<string>)
    ensures |lines| == |policies|
    ensures forall i :: 0 <= i < |lines| ==>
      && |lines[i]| > 2 + |policies[i].title|
      && lines[i][..2] == "- " && lines[i][2..2 + |policies[i].title|] == policies[i].title
      && lines[i][2 + |policies[i].title|..] == " (출처: " + SourceName(policies[i].source) + ")"
      && ('\n' !in policies[i].title ==> '\n' !in lines[i])
  {
    seq(|policies|, i requires 0 <= i < |policies| => ContextLine(policies[i]))
  }

  /** `policyContext`: a line for each of the first ten policies, joined by newlines. */
  function PolicyContext(policies: seq<Policy>): (context: string)
    ensures policies == [] ==> context == ""
    ensures policies != [] ==>
      |context| > 2 + |policies[0].title| && context[..2 + |policies[0].title|] == "- " + policies[0].title
  {
    Join(ContextLines(SliceTo(policies, MaxContextPolicies)), "\n")
  }

  /** The context has one line per policy, for at most the first ten, in order. */
  lemma PolicyContextLines(policies: seq<Policy>)
    requires |policies| >= 1
    requires forall i :: 0 <= i < |policies| ==> '\n' !in policies[i].title
    ensures var lines := SplitOn(PolicyContext(policies), "\n");
      && |lines| == (if |policies| < MaxContextPolicies then |policies| else MaxContextPolicies)
      && forall i :: 0 <= i < |lines| ==> lines[i] == ContextLine(policies[i])
  {
    var first := SliceTo(policies, MaxContextPolicies);
    var lines := ContextLines(first);
    forall k | 0 <= k < |lines| ensures "\n"[0] !in lines[k] {
      assert first[k] == policies[k];
    }
    SplitJoin(lines, "\n");
  }

  /** The instructions before the policy context, read through an index
      view of `PromptHeadText` (76 characters long) so that proofs which
      never look at the prompt's characters do not reason about its text;
      `PromptViewsAreTexts` shows that the view is the whole text. */
  function PromptHead(): string
  {
    seq(76, i requires 0 <= i < 76 => PromptHeadText[i])
  }

  /** The instructions after the policy context (370 characters long), read the same way. */
  function PromptTail(): string
  {
    seq(370, i requires 0 <= i < 370 => PromptTailText[i])
  }

  /** The views are the whole texts: nothing of the prompt is cut off. */
  lemma PromptViewsAreTexts()
    ensures PromptHead() == PromptHeadText
    ensures PromptTail() == PromptTailText
  {
  }

  const PromptHeadText :=
    "당신은 소상공인 정책 전문가입니다. 아래 정책 정보를 바탕으로 소상공인/자영업자를 위한 OX 퀴즈 5개를 만들어주세요.\n"
    + "\n"
    + "[정책 정보]\n"

  const PromptTailText :=
    "\n"
    + "\n"
    + "[요구사항]\n"
    + "1. 소상공인이 실제로 알아야 할 유용한 정보를 퀴즈로 만들어주세요.\n"
    + "2. 정답이 O인 것 3개, X인 것 2개로 균형있게 만들어주세요.\n"
    + "3. 설명은 친근하고 이해하기 쉽게 작성해주세요.\n"
    + "4. 팁은 실용적인 조언을 담아주세요.\n"
    + "\n"
    + "[출력 형식 - 반드시 이 JSON 형식으로만 응답하세요]\n"
    + "[\n"
    + "  {\n"
    + "    \"question\": \"퀴즈 질문 (O 또는 X로 답할 수 있는 형식)\",\n"
    + "    \"answer\": true 또는 false,\n"
    + "    \"explanation\": \"정답 설명\",\n"
    + "    \"tip\": \"실용적인 팁\",\n"
    + "    \"relatedPolicy\": \"관련 정책명\"\n"
    + "  }\n"
    + "]\n"
    + "\n"
    + "JSON 배열만 출력하세요. 다른 텍스트는 포함하지 마세요."

  /** The prompt: the fixed instructions around the policy context. */
  function Prompt(context: string): (prompt: string)
    ensures |prompt| == |PromptHeadText| + |context| + |PromptTailText|
    ensures prompt[..|PromptHeadText|] == PromptHeadText
    ensures prompt[|PromptHeadText|..|PromptHeadText| + |context|] == context
    ensures prompt[|PromptHeadText| + |context|..] == PromptTailText
  {
    PromptHead() + context + PromptTail()
  }

  // ---------------------------------------------------------------------
  // Generation
  // ---------------------------------------------------------------------

  /** What the call to the model yields: `Unreachable` when the request or
      reading its body throws, otherwise the response's `ok` flag and the
      text of its first candidate part, if any. */
  datatype Reply = Unreachable | Answered(ok: bool, text: Option<string>)

  /** What `JSON.parse` makes of a text: an error, an array, or any other value. */
  datatype Parsed = ParseError | JsonArray(items: seq<Quiz>) | JsonOther

  /** The model's usable text, if the call produced one: `!response.ok` and
      a missing or empty text count as no answer. */
  function AnswerText(reply: Reply): (t: Option<string>)
    ensures t.Some? ==> t.value != "" && reply == Answered(true, t)
    ensures reply.Unreachable? || !reply.ok || reply.text.None? || reply.text == Some("") ==> t.None?
    ensures reply.Answered? && reply.ok && reply.text.Some? && reply.text.value != "" ==> t == reply.text
  {
    if reply.Answered? && reply.ok && reply.text.Some? && reply.text.value != "" then reply.text else None
  }

  /** `generateQuizzesWithGemini`. `apiKey == ""` stands for a key that is not
      configured; `ask` answers a prompt, `parse` plays `JSON.parse`. */
  function GenerateQuizzes(apiKey: string, policies: seq<Policy>, ask: string -> Reply, parse: string -> Parsed): (r: seq<Quiz>)
    ensures 1 <= |r| <= MaxQuizzes
  {
    if apiKey == "" then FallbackQuizzes()
    else
      var text := AnswerText(ask(Prompt(PolicyContext(policies))));
      if text.None? then FallbackQuizzes()
      else
        var parsed := parse(ExtractJsonText(text.value));
        if parsed.JsonArray? && |parsed.items| > 0 then SliceTo(parsed.items, MaxQuizzes)
        else FallbackQuizzes()
  }

  /** Each failure gives the fallback list: no key, no usable answer, a parse
      error, a value that is not an array, or an empty array. */
  lemma FallbackOnFailure(apiKey: string, policies: seq<Policy>, ask: string -> Reply, parse: string -> Parsed)
    ensures var text := AnswerText(ask(Prompt(PolicyContext(policies))));
      (|| apiKey == ""
       || text.None?
       || !parse(ExtractJsonText(text.value)).JsonArray?
       || parse(ExtractJsonText(text.value)).items == [])
      ==> GenerateQuizzes(apiKey, policies, ask, parse) == FallbackQuizzes()
  {
  }

  /** A parsed non-empty array gives its first five quizzes (all, when fewer). */
  lemma ParsedQuizzesCapped(apiKey: string, policies: seq<Policy>, ask: string -> Reply, parse: string -> Parsed)
    requires apiKey != ""
    requires AnswerText(ask(Prompt(PolicyContext(policies)))).Some?
    requires var parsed := parse(ExtractJsonText(AnswerText(ask(Prompt(PolicyContext(policies)))).value));
      parsed.JsonArray? && parsed.items != []
    ensures var items := parse(ExtractJsonText(AnswerText(ask(Prompt(PolicyContext(policies)))).value)).items;
      var r := GenerateQuizzes(apiKey, policies, ask, parse);
      && |r| == (if |items| < MaxQuizzes then |items| else MaxQuizzes)
      && r == items[..|r|]
  {
  }

  // ---------------------------------------------------------------------
  // The HTTP handler
  // ---------------------------------------------------------------------

  /** The handler's answer: the empty reply to a preflight request, or the
      JSON body with the quizzes. `generatedAt` is absent on the error path. */
  datatype Response =
    | Preflight
    | QuizList(success: bool, count: int, generatedAt: Option<string>, quizzes: seq<Quiz>, fallback: bool)

  /** `handler`. `stored` is what `getPolicies(10)` returned (`None` when it
      failed or returned nothing), `mainPathThrows` says whether generating
      and answering threw, and `now` is the current time in ISO form. */
  function Handle(httpMethod: string, stored: Option<seq<Policy>>, mainPathThrows: bool, now: string,
                  apiKey: string, ask: string -> Reply, parse: string -> Parsed): (res: Response)
    ensures httpMethod == "OPTIONS" <==> res.Preflight?
    ensures res.QuizList? ==> res.success && res.count == |res.quizzes| && 1 <= |res.quizzes| <= MaxQuizzes
    ensures res.QuizList? ==> (res.fallback <==> mainPathThrows)
    ensures res.QuizList? && mainPathThrows ==> res.quizzes == FallbackQuizzes() && res.generatedAt.None?
    ensures res.QuizList? && !mainPathThrows ==>
      res.quizzes == GenerateQuizzes(apiKey, stored.GetOr([]), ask, parse) && res.generatedAt == Some(now)
  {
    if httpMethod == "OPTIONS" then Preflight
    else if mainPathThrows then QuizList(true, MaxQuizzes, None, FallbackQuizzes(), true)
    else
      var policies := stored.GetOr([]);
      var quizzes := GenerateQuizzes(apiKey, policies, ask, parse);
      QuizList(true, |quizzes|, Some(now), quizzes, false)
  }
}
