# Small-business policy news: a verified model

The application collects news about support programmes for small
business owners (소상공인). It ranks that news for one owner's profile,
writes alert lines for it, and runs a true/false quiz about it. This
project models the logic of that pipeline in Dafny and proves properties
of the model:

- **Crawler** (`crawler.dfy`, `api/lib/crawler.ts`). It turns the news
  links found on a Naver search page into policy records:
  - it cleans each title;
  - it accepts a link only with a title longer than five UTF-16 code
    units and a suitable URL;
  - it removes duplicate URLs, keeping the first occurrence;
  - it keeps at most 20 records;
  - it yields an empty list when the page cannot be fetched.
- **Relevance filter** (`ai_filter.dfy`, `api/lib/ai-filter.ts`). It
  scores each record against the profile:
  - +2 per industry keyword;
  - +5 for the user's own region, or −100 when another region is named
    and nothing marks the item as nationwide;
  - +2 per interest;
  - +1 per generic keyword.

  It then sorts the records by score, stable and descending, as
  insertion sort on an array. It drops items scoring −10 or less, and
  keeps the rest when they score at least 1 or were published in the last
  three days. Finally it truncates to `maxCount` and writes the alert
  message for a record.
- **Quiz endpoint** (`quiz_api.dfy`, `quiz_texts.dfy`, `api/quiz.ts`). It
  builds a prompt from the first ten stored policies and asks a language
  model for quizzes. It cuts the JSON out of a fenced reply, keeps at most
  five parsed quizzes, and falls back to five built-in quizzes on every
  failure. It also answers CORS preflight requests.
- **Quiz screen** (`policy_quiz.dfy`, `src/components/PolicyQuiz.tsx`). A
  class holds the component's six pieces of state, with methods for
  answering, moving on and restarting, and the closing score message.
- **Onboarding wizard** (`onboarding.dfy`, `src/components/Onboarding.tsx`).
  A class holds the step and the profile being filled in, with the
  interest toggle and the step gate `canProceed`.

Shared pieces:
- `text.dfy` models the JavaScript string and array operations the code
  relies on: `indexOf`, `includes`, `startsWith`, `slice(0, k)`,
  `toLowerCase`, `trim`, `split` and `join`.
- `policy.dfy` holds the stored record.
- `wrappers.dfy` holds an `Option` type.

Network calls, the database, clocks and the language model are parameters
of the model:
- a page of anchors, or `None` when the fetch fails;
- the day number `today` and the time `nowMs`;
- oracles `ask` and `parse` for the model call and `JSON.parse`;
- flags for the paths that throw.

The headline "인천 소상공인 지원금 신청 안내" scores 10 for a restaurant
owner in 인천 interested in 지원금: region +5, interest +2, and +1 for each
of the generic keywords "지원", "소상공인" and "신청".
`AiFilter.ScoreExample` proves this.

## Model

| member | source | states |
|---|---|---|
| Text.IndexOf | api/lib/ai-filter.ts:52 | `indexOf` gives the first position where the needle occurs, or −1 exactly when it occurs nowhere |
| Text.EndOf | api/quiz.ts:87 | the end of the text before the first separator: the first match, or the whole length when there is none, with no earlier match |
| Text.FirstMatchAt | api/quiz.ts:87 | a match with no earlier match is the position `indexOf` reports |
| Text.EndOfInPrefix | api/quiz.ts:87 | cutting a text after its first separator does not move that separator |
| Text.SliceTo | api/lib/crawler.ts:48 | `slice(0, k)` is a prefix of length min(k, length), or for negative k the length plus k, and never below 0 |
| Text.Utf16Length | api/lib/crawler.ts:30 | `length` counts UTF-16 code units: at least one and at most two per character, and a single character counts one below U+10000 and two at or above it |
| Text.Utf16LengthAppend | api/lib/crawler.ts:30 | the code-unit length of a concatenation is the sum of the lengths |
| Text.Utf16LengthAstral | api/lib/crawler.ts:30 | text whose characters all lie at or above U+10000, such as emoji, has two code units per character |
| Text.Utf16LengthBmp | api/lib/crawler.ts:30 | text whose characters all lie below U+10000, such as Korean titles, has one code unit per character |
| Text.Lower | api/lib/ai-filter.ts:23-24 | lower-casing keeps the length, leaves no capital letter, turns each capital A–Z into its small letter and keeps every other character |
| Text.LowerIdempotent | api/lib/ai-filter.ts:65 | lower-casing a lower-cased interest changes nothing |
| Text.LowerIdentity | api/lib/ai-filter.ts:65 | text without capital letters, such as the Korean interests, is its own lower-case form |
| Text.TrimStart | api/lib/crawler.ts:74 | the suffix left after leading white space only, beginning with a non-space |
| Text.TrimEnd | api/lib/crawler.ts:74 | the prefix left before trailing white space only, ending with a non-space |
| Text.Trim | api/lib/crawler.ts:28 | `trim` returns the middle slice of the text; all removed characters are white space and both ends are non-space |
| Text.TrimIdempotent | api/lib/crawler.ts:74 | trimming a trimmed title changes nothing |
| Text.SplitOn | api/quiz.ts:87 | `split` gives at least one piece, and at least two exactly when the separator occurs |
| Text.SplitFirst | api/quiz.ts:87 | the first piece is the text before the first separator and holds no separator |
| Text.SplitSecond | api/quiz.ts:87 | the second piece runs from the end of the first separator to the next one |
| Text.JoinSplit | api/quiz.ts:24-26 | joining the pieces of a split with its separator rebuilds the text |
| Text.SplitJoin | api/quiz.ts:24-26 | splitting a one-character join of pieces that lack the separator gives the pieces back |
| Text.ContainsIff | api/lib/ai-filter.ts:37 | `includes` holds exactly when some position matches |
| Text.MatchesInPrefix | api/quiz.ts:87 | a match in a prefix is a match in the whole that ends within the prefix |
| AiFilter.BusinessKeywords | api/lib/ai-filter.ts:28-35 | at most seven keywords per type, and a non-empty list exactly for the four listed types; any other type falls back to `[]` |
| AiFilter.UnlistedTypeNoIndustryPoints | api/lib/ai-filter.ts:28-38 | for an unlisted business type no industry keyword is found, and the score is the one of a profile with no type at all |
| AiFilter.MatchCount | api/lib/ai-filter.ts:36-38 | the number of keywords found is at most the number of keywords; MatchCountExtremes and KeywordPoints state which keywords are counted |
| AiFilter.MatchCountAppend | api/lib/ai-filter.ts:36-38 | counting over two keyword lists adds up |
| AiFilter.MatchCountExtremes | api/lib/ai-filter.ts:36-38 | all keywords present gives the full count; none present gives 0 |
| AiFilter.RegionPoints | api/lib/ai-filter.ts:44-61 | the regional step gives +5 exactly when filtering applies and the text names the user's region, −100 exactly in the penalized case, else 0 |
| AiFilter.InterestKeys | api/lib/ai-filter.ts:64-65 | one key per interest, as long as its interest and holding no capital letter |
| AiFilter.KeywordPoints | api/lib/ai-filter.ts:36-38 | the keyword loop adds the weight once per keyword found |
| AiFilter.FindOtherRegion | api/lib/ai-filter.ts:52 | `regions.find` succeeds exactly when some listed region is named in the text and is not the user's own region in either direction |
| AiFilter.RegionStep | api/lib/ai-filter.ts:44-61 | the regional branch computes the regional points |
| AiFilter.RelevanceScore | api/lib/ai-filter.ts:21-77 | `calculateRelevanceScore` returns the sum of the four weighted keyword and region parts |
| AiFilter.Score | api/lib/ai-filter.ts:21-77 | an unpenalized score lies between 0 and the sum of all possible bonuses |
| AiFilter.OwnRegionBonus | api/lib/ai-filter.ts:48-49 | naming the user's region adds exactly 5 over a nationwide profile and rules out the penalty |
| AiFilter.NoRegionalStep | api/lib/ai-filter.ts:44 | an empty or nationwide location scores as if no location were set |
| AiFilter.ExcludedIffPenalized | api/lib/ai-filter.ts:44-102 | with at most 35 interests, a score at or below −10 happens exactly when the other-region penalty applied |
| AiFilter.ScoreExample | api/lib/ai-filter.ts:21-77 | the example headline scores 10 for a restaurant owner in 인천 interested in 지원금 |
| AiFilter.ExampleIndustry | api/lib/ai-filter.ts:29 | the example headline holds none of the restaurant keywords |
| AiFilter.ExampleGeneric | api/lib/ai-filter.ts:71-74 | the example headline holds three generic keywords |
| AiFilter.ExampleInterest | api/lib/ai-filter.ts:64-68 | the example headline holds the interest 지원금 |
| AiFilter.ExampleRegion | api/lib/ai-filter.ts:44-50 | the example headline mentions 인천, so a user in 인천 gets the +5 region bonus |
| AiFilter.RegionalExclusionExample | api/lib/ai-filter.ts:52-57 | a 부산 headline is penalized for a user in 인천, and its score falls to −10 or below |
| AiFilter.BusanMentionsOtherRegion | api/lib/ai-filter.ts:52 | 부산 is found as another region for a user in 인천 |
| AiFilter.BusanNotLocal | api/lib/ai-filter.ts:48-55 | the 부산 headline names neither 인천 nor any nationwide word |
| AiFilter.OfScore | api/lib/ai-filter.ts:93 | the items of one score form a subsequence of the list |
| AiFilter.Insert | api/lib/ai-filter.ts:93 | inserting into the sorted list adds exactly one item |
| AiFilter.InsertPermutes | api/lib/ai-filter.ts:93 | insertion adds the item to the multiset and changes nothing else |
| AiFilter.InsertNonIncreasing | api/lib/ai-filter.ts:93 | insertion keeps the scores non-increasing |
| AiFilter.InsertOfScore | api/lib/ai-filter.ts:93 | insertion places the item after every item of equal score |
| AiFilter.SortByScore | api/lib/ai-filter.ts:93 | sorting keeps the length; SortByScorePermutes, SortByScoreOrdered and SortByScoreStable state that it is the stable descending sort |
| AiFilter.SortByScorePermutes | api/lib/ai-filter.ts:93 | the sort is a permutation |
| AiFilter.SortByScoreOrdered | api/lib/ai-filter.ts:93 | the sorted scores are non-increasing |
| AiFilter.SortByScoreStable | api/lib/ai-filter.ts:93 | items of equal score keep their input order |
| AiFilter.OfScoreAppend | api/lib/ai-filter.ts:93 | selecting one score distributes over concatenation |
| AiFilter.SortByScoreSnoc | api/lib/ai-filter.ts:93 | sorting one more item inserts it into the sorted prefix |
| AiFilter.InsertAt | api/lib/ai-filter.ts:93 | insertion lands after the last item scoring at least as much |
| AiFilter.SortByScoreInPlace | api/lib/ai-filter.ts:93 | the in-place sort leaves the array holding the stable descending sort of its old contents |
| AiFilter.InsertInPlace | api/lib/ai-filter.ts:93 | one pass shifts the lower-scored items right and places the item after its equals, leaving the rest of the array alone |
| AiFilter.KeepRelevant | api/lib/ai-filter.ts:100-106 | the kept items are exactly those above −10 that score at least 1 or are recent; KeepRelevantAppend states that order and multiplicity are kept |
| AiFilter.KeepRelevantAppend | api/lib/ai-filter.ts:100-106 | filtering distributes over concatenation, so kept items stay in their order |
| AiFilter.KeepRelevantOfScore | api/lib/ai-filter.ts:100-106 | filtering and selecting the items of one score commute |
| AiFilter.OfScorePrefix | api/lib/ai-filter.ts:107 | the items of one score within a prefix are a prefix of the items of that score |
| AiFilter.KeepRelevantOrdered | api/lib/ai-filter.ts:100-106 | filtering a sorted list keeps it sorted |
| AiFilter.PoliciesOf | api/lib/ai-filter.ts:108 | the projection keeps one policy per item; RankedCorrect states which policies reach it |
| AiFilter.ScoreAll | api/lib/ai-filter.ts:86-90 | one item per policy, each carrying that policy's own score |
| AiFilter.ScoreAllPolicies | api/lib/ai-filter.ts:86-90 | the items hold the input policies, in the input order |
| AiFilter.Ranked | api/lib/ai-filter.ts:80-113 | the ranked list is no longer than the input, nor than a non-negative `maxCount`; RankedCorrect, RankedComplete, RankedTop and RankedStable state what it holds |
| AiFilter.FilterPoliciesForUser | api/lib/ai-filter.ts:80-113 | `filterPoliciesForUser` returns the ranked list: score, sort, filter, `slice(0, maxCount)`, project; the profile defaults to `DEFAULT_USER_PROFILE` and `maxCount` to 5 |
| AiFilter.RankedItems | api/lib/ai-filter.ts:80-113 | the items behind the ranked list are sorted, kept and carry their policy's own score |
| AiFilter.RankedCorrect | api/lib/ai-filter.ts:80-113 | the result comes from the input, has at most `maxCount` items, is ordered by score, and holds only items scoring above −10 that are relevant or recent |
| AiFilter.RankedComplete | api/lib/ai-filter.ts:100-107 | when fewer than `maxCount` are returned, every qualifying input policy is among them |
| AiFilter.RankedTop | api/lib/ai-filter.ts:93-107 | a qualifying policy left out scores no higher than any returned one, and then exactly `maxCount` are returned: the result is a top-k |
| AiFilter.RankedStable | api/lib/ai-filter.ts:93-107 | among returned items of one score, the order is the input order: they are a prefix of the qualifying input items of that score |
| AiFilter.KeptInSorted | api/lib/ai-filter.ts:86-106 | a qualifying input policy's item survives sorting and filtering |
| AiFilter.PrefixScoresAtLeast | api/lib/ai-filter.ts:93-107 | in a sorted list, every item of a prefix that does not hold a given item scores at least as much as that item |
| AiFilter.RecentZeroScoreKept | api/lib/ai-filter.ts:104-105 | a recent item scoring 0 is kept |
| AiFilter.AlertEmoji | api/lib/ai-filter.ts:124-134 | a missing or empty category counts as 정책 (📢); a listed category gets its own emoji; a category outside the table gets 📌 |
| AiFilter.AlertMessage | api/lib/ai-filter.ts:136 | the whole template: the category emoji, then " [", the profile's business type and " 사장님 맞춤] ", then the title |
| AiFilter.AlertMessageInjective | api/lib/ai-filter.ts:136 | for one business type, the alert determines the emoji and the title |
| Crawler.NewsRecord | api/lib/crawler.ts:31-38 | a stored record is a Naver 뉴스 item with the fixed summary, the link, the title and today's date |
| Crawler.StripMark | api/lib/crawler.ts:28 | removing mark tags never lengthens the title, and a title without `<` is unchanged; StripMarkTags and StripMarkClean state what is removed |
| Crawler.StripMarkPlainPrefix | api/lib/crawler.ts:28 | text without `<` before the rest is kept as it is |
| Crawler.StripMarkOpenTag | api/lib/crawler.ts:28 | a leading `<mark>` is removed |
| Crawler.StripMarkCloseTag | api/lib/crawler.ts:28 | a leading `</mark>` is removed |
| Crawler.StripMarkTags | api/lib/crawler.ts:28 | a tag after plain text is removed and the text before it kept |
| Crawler.StripMarkClean | api/lib/crawler.ts:22-28 | when `<` only opens mark tags, as the capture group allows, no `<` survives |
| Crawler.NoTagWithoutLt | api/lib/crawler.ts:28 | text without `<` holds no mark tag |
| Crawler.RegexTitleClean | api/lib/crawler.ts:28 | a cleaned title holds no mark tag and has no white space at either end |
| Crawler.FromRegexMatches | api/lib/crawler.ts:25-40 | no more records than matches; FromRegexMatchesRecords and FromRegexMatchesAccepted state which records |
| Crawler.FromDomAnchors | api/lib/crawler.ts:71-86 | no more records than anchors; FromDomAnchorsRecords and FromDomAnchorsAccepted state which records |
| Crawler.CollectAppend | api/lib/crawler.ts:24-40 | collecting records over two parts of the page concatenates the two results |
| Crawler.CollectMembers | api/lib/crawler.ts:24-40 | a policy is collected exactly when some anchor of the page yields it |
| Crawler.FromRegexMatchesStep | api/lib/crawler.ts:25-40 | one more match adds that match's record at the end |
| Crawler.FromDomAnchorsStep | api/lib/crawler.ts:71-86 | one more anchor adds that anchor's record at the end |
| Crawler.CollectRegexMatches | api/lib/crawler.ts:24-40 | the `exec` loop pushes exactly the accepted records, in page order |
| Crawler.CollectDomAnchors | api/lib/crawler.ts:71-86 | the `each` callback pushes exactly the accepted records, in page order |
| Crawler.FromRegexMatchesAppend | api/lib/crawler.ts:25-40 | collecting over two parts of the page concatenates the results |
| Crawler.FromDomAnchorsAppend | api/lib/crawler.ts:71-86 | collecting over two parts of the page concatenates the results |
| Crawler.FromRegexMatchesRecords | api/lib/crawler.ts:30-38 | every record is today's Naver news record of some match, with a long enough title and a URL without `more` |
| Crawler.FromDomAnchorsRecords | api/lib/crawler.ts:76-84 | every record is today's Naver news record of some anchor, with a long enough title and an `http` URL |
| Crawler.FromRegexMatchesAccepted | api/lib/crawler.ts:30-38 | every match whose cleaned title is longer than five code units and whose URL lacks `more` yields its record |
| Crawler.FromDomAnchorsAccepted | api/lib/crawler.ts:76-84 | every anchor whose trimmed text is longer than five code units and whose URL starts with `http` yields its record |
| Crawler.FindIndex | api/lib/crawler.ts:44 | `findIndex` gives the first position with the URL, or −1 exactly when no item has it |
| Crawler.Dedup | api/lib/crawler.ts:43-45 | de-duplication never adds items and leaves URLs distinct; DedupCorrect states which items are kept, and in what order |
| Crawler.DedupSeenUrls | api/lib/crawler.ts:43-45 | the reference de-duplication keeps every URL of its input |
| Crawler.DedupPrefixIsDedupSeen | api/lib/crawler.ts:43-45 | the `filter`/`findIndex` form agrees with the reference on every prefix |
| Crawler.DedupIsDedupSeen | api/lib/crawler.ts:43-45 | the `filter`/`findIndex` form equals the left-to-right reference |
| Crawler.DedupSeenFromInput | api/lib/crawler.ts:43-45 | every kept URL comes from the input |
| Crawler.DedupSeenDistinctUrls | api/lib/crawler.ts:43-45 | the reference keeps URLs distinct |
| Crawler.DedupSeenFirsts | api/lib/crawler.ts:43-45 | each kept item is the first input item with its URL |
| Crawler.DedupSeenOrdered | api/lib/crawler.ts:43-45 | kept items keep the order of their first occurrences |
| Crawler.FirstsOrderedSnocInput | api/lib/crawler.ts:43-45 | appending an input item moves no first occurrence of a URL already present |
| Crawler.FirstsOrderedSnoc | api/lib/crawler.ts:43-45 | an item whose URL first occurs after all kept ones can follow them |
| Crawler.DedupSeenCorrect | api/lib/crawler.ts:43-45 | the reference is distinct, keeps first occurrences, and keeps their order |
| Crawler.DedupCorrect | api/lib/crawler.ts:43-45 | de-duplication gives distinct URLs, the first item of each URL, in input order, with exactly the input's URLs, and never more items |
| Crawler.DedupPrefixLength | api/lib/crawler.ts:43-45 | de-duplicating a prefix keeps at most its length |
| Crawler.DedupSeenDistinct | api/lib/crawler.ts:43-45 | a list with distinct URLs is left unchanged |
| Crawler.DedupIdempotent | api/lib/crawler.ts:43-45 | de-duplicating twice is de-duplicating once |
| Crawler.CappedDedup | api/lib/crawler.ts:43-48 | the first 20 de-duplicated records are at most 20, distinct, and all from the crawl |
| Crawler.CrawlNaverNews | api/lib/crawler.ts:9-54 | a failed fetch gives []; otherwise the first 20 de-duplicated accepted records, distinct, each a valid news record |
| Crawler.CrawlNaverNewsCheerio | api/lib/crawler.ts:57-100 | a failed fetch gives []; otherwise the first 20 de-duplicated accepted anchors, distinct, each a valid news record |
| Crawler.CrawlAll | api/lib/crawler.ts:103-107 | `crawlAll` is the DOM crawl |
| QuizTexts.FallbackQuizzes | api/quiz.ts:110-148 | the fallback list holds the five built-in quizzes |
| QuizApi.CountAnswers | api/quiz.ts:110-148 | the number of quizzes with a given answer is at most the number of quizzes; CountAnswersTotal states that the two counts add up to all quizzes |
| QuizApi.CountFive | api/quiz.ts:110-148 | five quizzes answered true, true, false, false, true count three true and two false |
| QuizApi.CountAnswersTotal | api/quiz.ts:110-148 | the true and the false quizzes together are all the quizzes |
| QuizApi.FallbackBalance | api/quiz.ts:110-148 | the fallback list has three true and two false answers, the balance the prompt asks for |
| QuizApi.After | api/quiz.ts:87 | the text after the first separator is no longer than the text; ExtractFromJsonFence and ExtractFromFence state what is cut out |
| QuizApi.ExtractJsonText | api/quiz.ts:85-90 | a reply without a fence is parsed as it is; from a fenced reply the parsed text holds no fence and has no white space at either end |
| QuizApi.UnfencedPiece | api/quiz.ts:87 | the trimmed part before the next "```" holds no fence and has no white space at either end |
| QuizApi.JsonFenceIsFence | api/quiz.ts:86-88 | a text holding "```json" holds "```", and the first "```" comes no later |
| QuizApi.ExtractFromJsonFence | api/quiz.ts:86-87 | with a "```json" fence, the parsed text is what follows it up to the next "```", trimmed |
| QuizApi.ExtractFromFence | api/quiz.ts:88-89 | with only plain fences, the parsed text is what lies between the first two "```", trimmed |
| QuizApi.OpeningAfter | api/quiz.ts:87 | the text after an opening fence preceded by no backtick is the rest |
| QuizApi.ClosingAfter | api/quiz.ts:87 | a body without backticks ends at the closing fence |
| QuizApi.ExtractWrapped | api/quiz.ts:85-90 | a trimmed body wrapped in "```json" … "```" is recovered exactly |
| QuizApi.ContextLine | api/quiz.ts:25 | a context line is "- ", the title and " (출처: <source>)", and is one line when the title is |
| QuizApi.ContextLines | api/quiz.ts:24-25 | one line per policy, in order, each "- ", that policy's title and " (출처: <source>)", and one line when the title is; PolicyContextLines states that the joined context splits back into these lines |
| QuizApi.PolicyContext | api/quiz.ts:24-26 | no policies give an empty context; otherwise the context starts with "- " and the first title |
| QuizApi.PolicyContextLines | api/quiz.ts:24-26 | the context splits back into one line per policy, for at most the first ten |
| QuizApi.Prompt | api/quiz.ts:28-50 | the prompt is the fixed instruction head, the context unchanged, then the fixed instruction tail, each text written out as in the code |
| QuizApi.AnswerText | api/quiz.ts:69-80 | a usable text is never empty and only comes from a call that succeeded with `ok`; an unreachable model, `!ok`, or a missing or empty text gives none; FallbackOnFailure states that each of these ends in the fallback list |
| QuizApi.GenerateQuizzes | api/quiz.ts:17-107 | quiz generation always returns between one and five quizzes |
| QuizApi.FallbackOnFailure | api/quiz.ts:17-107 | no key, no usable reply, a parse error, a non-array or an empty array each give the fallback list |
| QuizApi.ParsedQuizzesCapped | api/quiz.ts:94-96 | a parsed non-empty array gives its first five quizzes, or all of them when fewer |
| QuizApi.Handle | api/quiz.ts:150-189 | OPTIONS exactly gives the preflight; otherwise success, with `count` equal to the number of quizzes (1–5). The fallback flag is set exactly on the error path, which returns the fallback list without a timestamp; the normal path returns the generated quizzes with the time |
| PolicyQuiz.CountCorrect | src/components/PolicyQuiz.tsx:101-102 | the number of right answers is at most the number given |
| PolicyQuiz.CountCorrectSnoc | src/components/PolicyQuiz.tsx:101-104 | one more answer adds one exactly when it is right |
| PolicyQuiz.IncreasingSnoc | src/components/PolicyQuiz.tsx:104 | appending the current index keeps the answered list increasing |
| PolicyQuiz.IncreasingBound | src/components/PolicyQuiz.tsx:104 | increasing indices up to `hi` number at most `hi + 1` |
| PolicyQuiz.AnswerKeepsConsistent | src/components/PolicyQuiz.tsx:95-105 | a first answer to the current quiz keeps every state invariant |
| PolicyQuiz.QuizSession.constructor | src/components/PolicyQuiz.tsx:85-90 | the screen starts at quiz 0 with nothing selected, no result, score 0, nothing answered |
| PolicyQuiz.QuizSession.Answer | src/components/PolicyQuiz.tsx:95-105 | a shown result ignores the answer; otherwise the answer is selected and shown, the score rises by one exactly when it is right, and the index is recorded |
| PolicyQuiz.QuizSession.Next | src/components/PolicyQuiz.tsx:107-115 | before the last quiz the index advances and the selection clears; on the last quiz the session completes and nothing else changes |
| PolicyQuiz.QuizSession.Restart | src/components/PolicyQuiz.tsx:117-124 | restarting returns to the initial state |
| PolicyQuiz.QuizSession.WrongCount | src/components/PolicyQuiz.tsx:157 | right and wrong answers add up to the eight quizzes |
| PolicyQuiz.ScoreWithinQuizzes | src/components/PolicyQuiz.tsx:85-124 | in every reachable state, 0 ≤ score ≤ answered ≤ current index + 1 ≤ 8 |
| PolicyQuiz.Message | src/components/PolicyQuiz.tsx:128-132 | each tier has a non-empty message; MessagesDistinct states that no two tiers share one |
| PolicyQuiz.MessagesDistinct | src/components/PolicyQuiz.tsx:128-132 | different tiers have different messages |
| PolicyQuiz.Rank | src/components/PolicyQuiz.tsx:128-132 | tiers rank 0–4, with 4 only for the perfect tier |
| PolicyQuiz.ScoreTier | src/components/PolicyQuiz.tsx:126-133 | the perfect tier exactly at 100 %, the beginner's exactly below 40 % |
| PolicyQuiz.ScoreTierMonotone | src/components/PolicyQuiz.tsx:126-133 | a higher score never gets a lower message |
| PolicyQuiz.TiersOfEightQuizzes | src/components/PolicyQuiz.tsx:126-133 | of eight quizzes: 8 is perfect, 7 great, 5–6 good, 4 fair, 3 or fewer beginner |
| PolicyQuiz.ScoreMessage | src/components/PolicyQuiz.tsx:126-133 | the perfect message exactly when all eight answers are right, the beginner's exactly when at most three are; TiersOfEightQuizzes states every tier |
| Onboarding.OptionsNonEmpty | src/components/Onboarding.tsx:16-64 | every offered option is non-empty, so picking one answers its step |
| Onboarding.RemoveAll | src/components/Onboarding.tsx:79 | `filter(i => i !== id)` removes every copy of that id and keeps every other item with its multiplicity |
| Onboarding.RemoveAllAppend | src/components/Onboarding.tsx:79 | removal works on each part of a list separately, so the remaining items keep their order |
| Onboarding.RemoveAbsent | src/components/Onboarding.tsx:79 | removing an absent id changes nothing |
| Onboarding.RemoveAllNoDuplicates | src/components/Onboarding.tsx:79 | removal keeps a duplicate-free list duplicate-free |
| Onboarding.Toggled | src/components/Onboarding.tsx:75-82 | toggling appends an absent id, removes every copy of a present one keeping the other items with their multiplicity, and leaves other ids as they were |
| Onboarding.ToggleKeepsNoDuplicates | src/components/Onboarding.tsx:75-82 | toggling never creates duplicates |
| Onboarding.ToggleTwiceRestores | src/components/Onboarding.tsx:75-82 | toggling an absent id twice restores the list |
| Onboarding.CanProceedAt | src/components/Onboarding.tsx:84-92 | each step opens exactly when its field is set; any other step never opens |
| Onboarding.CompleteIffEveryStep | src/components/Onboarding.tsx:84-102 | a profile is complete exactly when every step's gate is open |
| Onboarding.InitiallyBlocked | src/components/Onboarding.tsx:84-92 | the empty profile cannot pass step 1 |
| Onboarding.Wizard.constructor | src/components/Onboarding.tsx:67-73 | the wizard starts at step 1 with the empty profile |
| Onboarding.Wizard.CanProceed | src/components/Onboarding.tsx:84-92 | the gate is open exactly when every step up to the current one has its field set, and on the last step it means the profile is complete; CompleteIffEveryStep and Wizard.Next state the hand-over |
| Onboarding.Wizard.SelectBusinessType | src/components/Onboarding.tsx:130 | picking a type sets only that field and opens step 1 |
| Onboarding.Wizard.SelectLocation | src/components/Onboarding.tsx:153 | picking a location sets only that field and opens step 2 |
| Onboarding.Wizard.ToggleInterest | src/components/Onboarding.tsx:176 | the interests become their toggle, keeping the wizard's invariant |
| Onboarding.Wizard.SelectBusinessSize | src/components/Onboarding.tsx:200 | picking a size sets only that field and opens step 4 |
| Onboarding.Wizard.Next | src/components/Onboarding.tsx:94-102 | below step 4 the step advances; on step 4 the profile is handed over, and it is complete |

## Left out

- Fetching the Naver page is left out because it is network I/O. So are
  the regular expression over its HTML and the `cheerio` DOM query. The
  crawl starts from the anchors they yield, or from `None` when the fetch
  throws.
- Calling the model is left out because it is network I/O. So are the
  request body, `generationConfig` and `JSON.parse`. They are the oracles
  `ask` and `parse`; a parsed array's elements are not validated, as in
  the code.
- Reading stored policies is left out because it is a database call. The
  quiz handler receives the stored policies, or `None`, and a flag for the
  path that throws.
- Clocks and dates are inputs. `new Date()` is `today`, as a day number,
  and `nowMs`. The `toISOString` text is `now`. A stored date that does not
  parse counts as absent. The daylight-saving shift of `setDate(-3)` is not
  modelled.
- The following are left out because they are I/O or rendering:
  - console logging, CORS headers and HTTP status codes;
  - `localStorage`, the `onComplete` callback and React rendering;
  - the texts of the eight on-screen quizzes, which are display content;
    only their answers are kept.
- AiFilter.UserLoc (`substring(0, 2)`) takes two characters, where the code
  takes two UTF-16 code units. They agree on text below U+10000, which
  covers every location offered.
- AiFilter.BusinessKeywords and AiFilter.AlertEmoji: the tables are plain
  maps. In the code they are object literals, so a business type or
  category named after an `Object.prototype` member such as `constructor`
  would find that member instead of falling back. Every type and category
  offered is Korean, so none reaches it.
- Text.Lower: lower-cases ASCII letters only. Every keyword, region and
  interest in the code is Korean, so the full Unicode case mapping makes no
  difference to them.
- AiFilter.ExcludedIffPenalized: assumes at most 35 interests. Beyond that
  the +2 per interest could lift a penalized score above −10.
- QuizApi.ExtractFromJsonFence: covers replies whose first "```" after the
  opening "```json" does not overlap a second "```json". ExtractJsonText
  itself models every reply.
- QuizApi.GenerateQuizzes: the branch where the model call throws is folded
  into `ask` returning `Unreachable`, which gives the fallback like `!ok`.
- PolicyQuiz.ScoreTier: compares whole numbers instead of the
  floating-point percentage. For eight quizzes every percentage is an exact
  multiple of 12.5, so both comparisons agree.
- PolicyQuiz.QuizSession.Answer: assumes each state update applies at
  once. The code queues its updates in React's batch, but no handler reads
  a value it has just set.
- Onboarding.Wizard.Next: requires `canProceed()`, because the next button
  is disabled otherwise. The option setters require their own step,
  because each option list is rendered only on its step.
- api/lib/gemini.ts, the database client api/lib/supabase.ts (beyond the
  `Policy` record), the endpoints api/crawl.ts and api/policies.ts, and the
  display components (App.tsx, DemoChat.tsx, NewsItem.tsx, AlertCard.tsx,
  ChatSection.tsx) are not part of this model. They are I/O, third-party
  calls, or static display.
