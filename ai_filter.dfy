/** Keyword relevance scoring, ranking and alert messages for a user profile
    (api/lib/ai-filter.ts). */
module AiFilter {
  import opened Wrappers
  import opened Text
  import opened PolicyModel

  /** The profile the filter scores against. `businessSize` is descriptive only. */
  datatype UserProfile = UserProfile(
    businessType: string,
    location: string,
    interests: seq<string>,
    businessSize: Option<string>)

  /** `DEFAULT_USER_PROFILE`, the profile `filterPoliciesForUser` uses when
      none is given. */
  const DefaultProfile := UserProfile("음식점", "인천", ["지원금", "대출", "세제 혜택", "위생"], Some("5인 미만"))

  /** The business types that have industry keywords. */
  const KeywordBusinessTypes: seq<string> := ["음식점", "소매업", "서비스업", "제조업"]

  /** Industry keywords per business type; an unlisted type has none. */
  function BusinessKeywords(businessType: string): (keywords: seq<string>)
    ensures |keywords| <= 7
    ensures keywords != [] <==> businessType in KeywordBusinessTypes
  {
    if businessType == "음식점" then ["음식", "외식", "식당", "요식", "배달", "위생", "식품"]
    else if businessType == "소매업" then ["소매", "유통", "판매", "매장", "상점"]
    else if businessType == "서비스업" then ["서비스", "프리랜서", "용역"]
    else if businessType == "제조업" then ["제조", "생산", "공장", "산업"]
    else []
  }

  /** The administrative regions whose mention marks an item as local to somewhere. */
  const Regions: seq<string> := ["서울", "부산", "대구", "인천", "광주", "대전", "울산", "세종",
    "경기", "강원", "충북", "충남", "전북", "전남", "경북", "경남", "제주", "수원", "성남", "고양",
    "용인", "부천", "안산", "안양", "남양주", "화성", "청주", "천안", "전주", "포항", "창원", "김해"]

  /** Keywords of general interest to every small-business owner. */
  const GenericKeywords: seq<string> := ["소상공인", "지원", "신청", "마감", "혜택", "무료"]

  /** The location value meaning "no regional restriction". */
  const Nationwide := "전국"

  const IndustryPoints := 2
  const OwnRegionPoints := 5
  const OtherRegionPenalty := 100
  const InterestPoints := 2
  const GenericPoints := 1

  /** Items scoring at or below this are excluded even when recent. */
  const ExclusionThreshold := -10

  const MsPerDay := 86400000
  const RecentDays := 3

  // ---------------------------------------------------------------------
  // Scoring, as a specification
  // ---------------------------------------------------------------------

  /** The lower-cased title and summary the keywords are searched in; a
      missing summary counts as empty. */
  function SearchText(p: Policy): string
  {
    Lower(p.title) + " " + Lower(p.summary.GetOr(""))
  }

  /** How many of `keywords` occur in `text` (a keyword listed twice counts twice). */
  function MatchCount(text: string, keywords: seq<string>): (n: nat)
    ensures n <= |keywords|
  {
    if keywords == [] then 0
    else MatchCount(text, keywords[..|keywords| - 1]) + (if Contains(text, keywords[|keywords| - 1]) then 1 else 0)
  }

  /** Counting over a concatenation adds the counts. */
  lemma {:induction false} MatchCountAppend(text: string, a: seq<string>, b: seq<string>)
    ensures MatchCount(text, a + b) == MatchCount(text, a) + MatchCount(text, b)
    decreases |b|
  {
    if b == [] {
      assert a + b == a;
    } else {
      assert (a + b)[..|a + b| - 1] == a + b[..|b| - 1];
      assert (a + b)[|a + b| - 1] == b[|b| - 1];
      MatchCountAppend(text, a, b[..|b| - 1]);
    }
  }

  /** Each listed keyword that occurs counts once: when all occur, all count;
      when none occurs, the count is zero. */
  lemma {:induction false} MatchCountExtremes(text: string, keywords: seq<string>)
    ensures (forall k :: 0 <= k < |keywords| ==> Contains(text, keywords[k])) ==> MatchCount(text, keywords) == |keywords|
    ensures (forall k :: 0 <= k < |keywords| ==> !Contains(text, keywords[k])) ==> MatchCount(text, keywords) == 0
  {
    if keywords != [] {
      var init := keywords[..|keywords| - 1];
      assert forall k :: 0 <= k < |init| ==> init[k] == keywords[k];
      MatchCountExtremes(text, init);
    }
  }

  /** The region code compared against: the first two characters of the location. */
  function UserLoc(location: string): string
  {
    location[..if |location| < 2 then |location| else 2]
  }

  /** The regional step applies only to a location that is set and not nationwide. */
  predicate RegionalFiltering(location: string)
  {
    location != "" && location != Nationwide
  }

  /** `region` is mentioned and is not the user's own region under either
      direction of comparison. */
  predicate IsOtherRegion(text: string, userLoc: string, region: string)
  {
    Contains(text, region) && !StartsWith(region, userLoc) && !Contains(userLoc, region)
  }

  predicate MentionsOtherRegion(text: string, userLoc: string)
  {
    exists i :: 0 <= i < |Regions| && IsOtherRegion(text, userLoc, Regions[i])
  }

  /** Words marking an item as nationwide in scope. */
  predicate MentionsNationwide(text: string)
  {
    Contains(text, "전국") || Contains(text, "정부") || Contains(text, "방방곡곡")
  }

  /** The three-part condition of the other-region penalty. */
  predicate Penalized(text: string, location: string)
  {
    && RegionalFiltering(location)
    && !Contains(text, UserLoc(location))
    && MentionsOtherRegion(text, UserLoc(location))
    && !MentionsNationwide(text)
  }

  /** Points from the regional step: +5 for the user's own region, -100 for
      a penalized other region, nothing otherwise. */
  function RegionPoints(text: string, location: string): (points: int)
    ensures points == 0 || points == OwnRegionPoints || points == -OtherRegionPenalty
    ensures points == OwnRegionPoints <==> RegionalFiltering(location) && Contains(text, UserLoc(location))
    ensures points == -OtherRegionPenalty <==> Penalized(text, location)
  {
    if !RegionalFiltering(location) then 0
    else if Contains(text, UserLoc(location)) then OwnRegionPoints
    else if Penalized(text, location) then -OtherRegionPenalty
    else 0
  }

  /** The interests as they are searched for: lower-cased. */
  function InterestKeys(interests: seq<string>): (keys: seq<string>)
    ensures |keys| == |interests|
    ensures forall i :: 0 <= i < |keys| ==> |keys[i]| == |interests[i]|
    ensures forall i, c :: 0 <= i < |keys| && 0 <= c < |keys[i]| ==> !('A' <= keys[i][c] <= 'Z')
  {
    seq(|interests|, i requires 0 <= i < |interests| => Lower(interests[i]))
  }

  /** The relevance score of `p` for `profile`. Without the other-region
      penalty it is non-negative and at most what every industry keyword,
      the region bonus, every interest and every generic keyword together
      give. */
  function Score(p: Policy, profile: UserProfile): (s: int)
    ensures !Penalized(SearchText(p), profile.location) ==>
      0 <= s <= IndustryPoints * |BusinessKeywords(profile.businessType)| + OwnRegionPoints
                + InterestPoints * |profile.interests| + GenericPoints * |GenericKeywords|
  {
    var text := SearchText(p);
    IndustryPoints * MatchCount(text, BusinessKeywords(profile.businessType))
    + RegionPoints(text, profile.location)
    + InterestPoints * MatchCount(text, InterestKeys(profile.interests))
    + GenericPoints * MatchCount(text, GenericKeywords)
  }

  // ---------------------------------------------------------------------
  // Scoring, as the source computes it
  // ---------------------------------------------------------------------

  /** Adds `weight` for each keyword found in `content`. */
  method KeywordPoints(content: string, keywords: seq<string>, weight: int) returns (points: int)
    ensures points == weight * MatchCount(content, keywords)
  {
    points := 0;
    var i := 0;
    while i < |keywords|
      invariant 0 <= i <= |keywords|
      invariant points == weight * MatchCount(content, keywords[..i])
    {
      ghost var before := MatchCount(content, keywords[..i]);
      assert keywords[..i + 1][..i] == keywords[..i];
      if Contains(content, keywords[i]) {
        points := points + weight;
        assert MatchCount(content, keywords[..i + 1]) == before + 1;
        assert weight * (before + 1) == weight * before + weight;
      } else {
        assert MatchCount(content, keywords[..i + 1]) == before;
      }
      i := i + 1;
    }
    assert keywords[..i] == keywords;
  }

  /** `regions.find(...)`: whether some listed region is mentioned and is not the user's own. */
  method FindOtherRegion(content: string, userLoc: string) returns (found: bool)
    ensures found <==> MentionsOtherRegion(content, userLoc)
  {
    found := false;
    var r := 0;
    while r < |Regions| && !found
      invariant 0 <= r <= |Regions|
      invariant found <==> exists k :: 0 <= k < r && IsOtherRegion(content, userLoc, Regions[k])
    {
      var region := Regions[r];
      if Contains(content, region) && !StartsWith(region, userLoc) && !Contains(userLoc, region) {
        found := true;
      }
      r := r + 1;
    }
  }

  /** The regional (negative-filtering) step of the score. */
  method RegionStep(content: string, location: string) returns (points: int)
    ensures points == RegionPoints(content, location)
  {
    points := 0;
    if location != "" && location != Nationwide {
      var userLoc := location[..if |location| < 2 then |location| else 2];
      if Contains(content, userLoc) {
        points := points + OwnRegionPoints;
      } else {
        var otherRegion := FindOtherRegion(content, userLoc);
        if otherRegion {
          if !Contains(content, "전국") && !Contains(content, "정부") && !Contains(content, "방방곡곡") {
            points := points - OtherRegionPenalty;
          }
        }
      }
    }
  }

  /** `calculateRelevanceScore`: accumulates points in a local score. */
  method RelevanceScore(policy: Policy, profile: UserProfile) returns (score: int)
    ensures score == Score(policy, profile)
  {
    score := 0;
    var content := Lower(policy.title) + " " + Lower(policy.summary.GetOr(""));

    var industry := KeywordPoints(content, BusinessKeywords(profile.businessType), IndustryPoints);
    score := score + industry;

    var regional := RegionStep(content, profile.location);
    score := score + regional;

    var interests := KeywordPoints(content, InterestKeys(profile.interests), InterestPoints);
    score := score + interests;
    var generic := KeywordPoints(content, GenericKeywords, GenericPoints);
    score := score + generic;
  }

  // ---------------------------------------------------------------------
  // Properties of the score
  // ---------------------------------------------------------------------

  /** A business type without industry keywords earns no industry points:
      the score is that of the same profile with no business type. */
  lemma UnlistedTypeNoIndustryPoints(p: Policy, profile: UserProfile)
    requires profile.businessType !in KeywordBusinessTypes
    ensures MatchCount(SearchText(p), BusinessKeywords(profile.businessType)) == 0
    ensures Score(p, profile) == Score(p, profile.(businessType := ""))
  {
  }

  /** A set location that is not nationwide and is found in the text earns
      exactly 5 and rules the penalty out. */
  lemma OwnRegionBonus(p: Policy, profile: UserProfile)
    requires RegionalFiltering(profile.location)
    requires Contains(SearchText(p), UserLoc(profile.location))
    ensures !Penalized(SearchText(p), profile.location)
    ensures Score(p, profile) == Score(p, profile.(location := Nationwide)) + OwnRegionPoints
  {
  }

  /** An empty or nationwide location leaves the score as if no region were given. */
  lemma NoRegionalStep(p: Policy, profile: UserProfile)
    requires !RegionalFiltering(profile.location)
    ensures Score(p, profile) == Score(p, profile.(location := ""))
  {
  }

  /** For a profile of at most 35 interests, an item falls at or below the
      exclusion threshold exactly when the other-region penalty applies. */
  lemma ExcludedIffPenalized(p: Policy, profile: UserProfile)
    requires |profile.interests| <= 35
    ensures Score(p, profile) <= ExclusionThreshold <==> Penalized(SearchText(p), profile.location)
  {
  }

  /** No character of `needle`'s first kind in `hay` means no occurrence. */
  lemma AbsentFirstChar(hay: string, needle: string)
    requires |needle| > 0 && needle[0] !in hay
    ensures !Contains(hay, needle)
  {
    forall k | 0 <= k && k + |needle| <= |hay| ensures !MatchesAt(hay, needle, k) {
      assert hay[k..k + |needle|][0] == hay[k];
    }
  }

  /** A two-character needle whose first character is never followed by its second does not occur. */
  lemma AbsentPair(hay: string, needle: string)
    requires |needle| == 2
    requires forall k :: 0 <= k < |hay| - 1 && hay[k] == needle[0] ==> hay[k + 1] != needle[1]
    ensures !Contains(hay, needle)
  {
    forall k | 0 <= k && k + 2 <= |hay| ensures !MatchesAt(hay, needle, k) {
      assert hay[k..k + 2] == [hay[k], hay[k + 1]];
    }
  }

  /** An occurrence at a known position means the text contains the needle. */
  lemma PresentAt(hay: string, needle: string, k: nat)
    requires MatchesAt(hay, needle, k)
    ensures Contains(hay, needle)
  {
  }

  /** The worked example: a local support notice for an Incheon restaurant
      owner interested in subsidies scores 5 (region) + 2 (interest) + 3
      (소상공인, 지원, 신청). */
  lemma ScoreExample()
    ensures Score(Policy("인천 소상공인 지원금 신청 안내", Naver, None, None, "", None),
                  UserProfile("음식점", "인천", ["지원금"], None)) == 10
  {
    var p := Policy("인천 소상공인 지원금 신청 안내", Naver, None, None, "", None);
    var text := SearchText(p);
    assert text == "인천 소상공인 지원금 신청 안내 ";
    ExampleIndustry(text);
    ExampleGeneric(text);
    ExampleInterest(text);
    ExampleRegion(text);
  }

  lemma ExampleRegion(text: string)
    requires text == "인천 소상공인 지원금 신청 안내 "
    ensures RegionPoints(text, "인천") == OwnRegionPoints
  {
    PresentAt(text, "인천", 0);
    assert UserLoc("인천") == "인천";
  }

  lemma ExampleIndustry(text: string)
    requires text == "인천 소상공인 지원금 신청 안내 "
    ensures MatchCount(text, BusinessKeywords("음식점")) == 0
  {
    AbsentFirstChar(text, "음식");
    AbsentFirstChar(text, "외식");
    AbsentFirstChar(text, "식당");
    AbsentFirstChar(text, "요식");
    AbsentFirstChar(text, "배달");
    AbsentFirstChar(text, "위생");
    AbsentFirstChar(text, "식품");
    MatchCountExtremes(text, BusinessKeywords("음식점"));
  }

  lemma ExampleGeneric(text: string)
    requires text == "인천 소상공인 지원금 신청 안내 "
    ensures MatchCount(text, GenericKeywords) == 3
  {
    var found: seq<string> := ["소상공인", "지원", "신청"];
    var missing: seq<string> := ["마감", "혜택", "무료"];
    ExampleGenericFound(text, found);
    ExampleGenericMissing(text, missing);
    assert GenericKeywords == found + missing;
    MatchCountAppend(text, found, missing);
  }

  lemma ExampleGenericFound(text: string, found: seq<string>)
    requires text == "인천 소상공인 지원금 신청 안내 "
    requires found == ["소상공인", "지원", "신청"]
    ensures MatchCount(text, found) == 3
  {
    PresentAt(text, "소상공인", 3);
    PresentAt(text, "지원", 8);
    PresentAt(text, "신청", 12);
    MatchCountExtremes(text, found);
  }

  lemma ExampleGenericMissing(text: string, missing: seq<string>)
    requires text == "인천 소상공인 지원금 신청 안내 "
    requires missing == ["마감", "혜택", "무료"]
    ensures MatchCount(text, missing) == 0
  {
    AbsentFirstChar(text, "마감");
    AbsentFirstChar(text, "혜택");
    AbsentFirstChar(text, "무료");
    MatchCountExtremes(text, missing);
  }

  lemma ExampleInterest(text: string)
    requires text == "인천 소상공인 지원금 신청 안내 "
    ensures MatchCount(text, InterestKeys(["지원금"])) == 1
  {
    LowerIdentity("지원금");
    assert InterestKeys(["지원금"]) == ["지원금"];
    PresentAt(text, "지원금", 8);
    MatchCountExtremes(text, ["지원금"]);
  }

  /** The Busan notice names Busan, which is another region for Incheon. */
  lemma BusanMentionsOtherRegion(text: string)
    requires text == "부산 소상공인 지원금 "
    ensures MentionsOtherRegion(text, "인천")
  {
    assert text[0..2] == "부산" == Regions[1];
    PresentAt(text, "부산", 0);
    assert "부산"[..2][0] != "인천"[0];
    AbsentFirstChar("인천", "부산");
    assert IsOtherRegion(text, "인천", Regions[1]);
  }

  /** The Busan notice names neither Incheon nor the whole country. */
  lemma BusanNotLocal(text: string)
    requires text == "부산 소상공인 지원금 "
    ensures !Contains(text, "인천") && !MentionsNationwide(text)
  {
    AbsentPair(text, "인천");
    AbsentFirstChar(text, "전국");
    AbsentFirstChar(text, "정부");
    AbsentFirstChar(text, "방방곡곡");
  }

  /** A Busan notice is excluded for an Incheon owner, whatever it matches otherwise. */
  lemma RegionalExclusionExample()
    ensures Penalized(SearchText(Policy("부산 소상공인 지원금", Naver, None, None, "", None)), "인천")
    ensures Score(Policy("부산 소상공인 지원금", Naver, None, None, "", None),
                  UserProfile("음식점", "인천", ["지원금"], None)) <= ExclusionThreshold
  {
    var p := Policy("부산 소상공인 지원금", Naver, None, None, "", None);
    assert SearchText(p) == "부산 소상공인 지원금 ";
    assert UserLoc("인천") == "인천";
    BusanMentionsOtherRegion(SearchText(p));
    BusanNotLocal(SearchText(p));
    ExcludedIffPenalized(p, UserProfile("음식점", "인천", ["지원금"], None));
  }

  // ---------------------------------------------------------------------
  // Ranking
  // ---------------------------------------------------------------------

  /** A policy paired with its score. */
  datatype ScoredPolicy = ScoredPolicy(policy: Policy, score: int)

  /** The items in non-increasing order of score. */
  predicate NonIncreasing(items: seq<ScoredPolicy>)
  {
    forall i, j :: 0 <= i < j < |items| ==> items[i].score >= items[j].score
  }

  /** The items of score `v`, in their order. */
  function OfScore(items: seq<ScoredPolicy>, v: int): (r: seq<ScoredPolicy>)
    ensures |r| <= |items|
  {
    if items == [] then []
    else OfScore(items[..|items| - 1], v) + (if items[|items| - 1].score == v then [items[|items| - 1]] else [])
  }

  /** Inserts `x` into a list after every item scoring at least as much. */
  function Insert(sorted: seq<ScoredPolicy>, x: ScoredPolicy): (r: seq<ScoredPolicy>)
    ensures |r| == |sorted| + 1
  {
    if sorted == [] || sorted[|sorted| - 1].score >= x.score then sorted + [x]
    else Insert(sorted[..|sorted| - 1], x) + [sorted[|sorted| - 1]]
  }

  /** Inserting adds exactly `x`. */
  lemma {:induction false} InsertPermutes(sorted: seq<ScoredPolicy>, x: ScoredPolicy)
    ensures multiset(Insert(sorted, x)) == multiset(sorted) + multiset{x}
  {
    if sorted != [] && sorted[|sorted| - 1].score < x.score {
      var init, last := sorted[..|sorted| - 1], sorted[|sorted| - 1];
      assert sorted == init + [last];
      InsertPermutes(init, x);
    }
  }

  /** The stable descending sort by score that `Array.prototype.sort` performs
      with the comparator `(a, b) => b.score - a.score`. */
  function SortByScore(items: seq<ScoredPolicy>): (r: seq<ScoredPolicy>)
    ensures |r| == |items|
  {
    if items == [] then []
    else Insert(SortByScore(items[..|items| - 1]), items[|items| - 1])
  }

  /** The sort is a permutation. */
  lemma {:induction false} SortByScorePermutes(items: seq<ScoredPolicy>)
    ensures multiset(SortByScore(items)) == multiset(items)
  {
    if items != [] {
      var init, last := items[..|items| - 1], items[|items| - 1];
      assert items == init + [last];
      SortByScorePermutes(init);
      InsertPermutes(SortByScore(init), last);
    }
  }

  lemma {:induction false} InsertNonIncreasing(sorted: seq<ScoredPolicy>, x: ScoredPolicy)
    requires NonIncreasing(sorted)
    ensures NonIncreasing(Insert(sorted, x))
  {
    if sorted == [] || sorted[|sorted| - 1].score >= x.score {
    } else {
      var init, last := sorted[..|sorted| - 1], sorted[|sorted| - 1];
      InsertNonIncreasing(init, x);
      var front := Insert(init, x);
      InsertPermutes(init, x);
      forall i | 0 <= i < |front| ensures front[i].score >= last.score {
        assert front[i] in multiset(front);
        if front[i] != x {
          assert front[i] in multiset(init);
          var k :| 0 <= k < |init| && init[k] == front[i];
          assert sorted[k] == init[k];
        }
      }
    }
  }

  lemma {:induction false} OfScoreAppend(a: seq<ScoredPolicy>, b: seq<ScoredPolicy>, v: int)
    ensures OfScore(a + b, v) == OfScore(a, v) + OfScore(b, v)
    decreases |b|
  {
    if b == [] {
      assert a + b == a;
    } else {
      assert (a + b)[..|a + b| - 1] == a + b[..|b| - 1];
      assert (a + b)[|a + b| - 1] == b[|b| - 1];
      OfScoreAppend(a, b[..|b| - 1], v);
    }
  }

  /** Inserting `x` puts it after every item of its own score. */
  lemma {:induction false} InsertOfScore(sorted: seq<ScoredPolicy>, x: ScoredPolicy, v: int)
    ensures OfScore(Insert(sorted, x), v) == OfScore(sorted, v) + OfScore([x], v)
  {
    if sorted == [] || sorted[|sorted| - 1].score >= x.score {
      OfScoreAppend(sorted, [x], v);
    } else {
      var init, last := sorted[..|sorted| - 1], sorted[|sorted| - 1];
      InsertOfScore(init, x, v);
      OfScoreAppend(Insert(init, x), [last], v);
      OfScoreAppend(init, [last], v);
      assert sorted == init + [last];
      assert OfScore([x], v) == [] || OfScore([last], v) == [] by {
        assert OfScore([x], v) == OfScore([x][..0], v) + (if x.score == v then [x] else []);
        assert OfScore([last], v) == OfScore([last][..0], v) + (if last.score == v then [last] else []);
      }
    }
  }

  /** The sort orders the items by non-increasing score. */
  lemma {:induction false} SortByScoreOrdered(items: seq<ScoredPolicy>)
    ensures NonIncreasing(SortByScore(items))
  {
    if items != [] {
      var init, last := items[..|items| - 1], items[|items| - 1];
      SortByScoreOrdered(init);
      InsertNonIncreasing(SortByScore(init), last);
    }
  }

  /** The sort is stable: the items of each score keep their input order. */
  lemma {:induction false} SortByScoreStable(items: seq<ScoredPolicy>, v: int)
    ensures OfScore(SortByScore(items), v) == OfScore(items, v)
  {
    if items != [] {
      var init, last := items[..|items| - 1], items[|items| - 1];
      assert items == init + [last];
      calc {
        OfScore(SortByScore(items), v);
        OfScore(Insert(SortByScore(init), last), v);
        { InsertOfScore(SortByScore(init), last, v); }
        OfScore(SortByScore(init), v) + OfScore([last], v);
        { SortByScoreStable(init, v); }
        OfScore(init, v) + OfScore([last], v);
        { OfScoreAppend(init, [last], v); }
        OfScore(items, v);
      }
    }
  }

  /** `scoredPolicies.sort(...)`: a stable in-place insertion sort by
      descending score. */
  method SortByScoreInPlace(a: array<ScoredPolicy>)
    modifies a
    ensures a[..] == SortByScore(old(a[..]))
  {
    ghost var input := a[..];
    var i := 0;
    while i < a.Length
      invariant 0 <= i <= a.Length
      invariant a[..i] == SortByScore(input[..i])
      invariant forall k :: i <= k < a.Length ==> a[k] == input[k]
    {
      InsertInPlace(a, i);
      SortByScoreSnoc(input, i);
      i := i + 1;
    }
    assert input[..a.Length] == input;
    assert a[..] == a[..a.Length];
  }

  /** Sorting one more item inserts it into the sorted prefix. */
  lemma SortByScoreSnoc(items: seq<ScoredPolicy>, i: nat)
    requires i < |items|
    ensures SortByScore(items[..i + 1]) == Insert(SortByScore(items[..i]), items[i])
  {
    assert items[..i + 1][..i] == items[..i];
  }

  /** One pass of the insertion sort: moves `a[i]` left past every item of
      smaller score. */
  method InsertInPlace(a: array<ScoredPolicy>, i: nat)
    requires i < a.Length
    modifies a
    ensures a[..i + 1] == Insert(old(a[..i]), old(a[i]))
    ensures forall k :: i < k < a.Length ==> a[k] == old(a[k])
  {
    var x := a[i];
    ghost var sorted := a[..i];
    var j := i;
    while j > 0 && a[j - 1].score < x.score
      invariant 0 <= j <= i
      invariant forall k :: 0 <= k < j ==> a[k] == sorted[k]
      invariant forall k :: j < k <= i ==> a[k] == sorted[k - 1]
      invariant forall k :: j <= k < i ==> sorted[k].score < x.score
      invariant forall k :: i < k < a.Length ==> a[k] == old(a[k])
    {
      a[j] := a[j - 1];
      j := j - 1;
    }
    a[j] := x;
    InsertAt(sorted, x, j);
    ghost var target := sorted[..j] + [x] + sorted[j..];
    forall k | 0 <= k <= i ensures a[k] == target[k] {
      if k > j {
        assert target[k] == sorted[k - 1];
      }
    }
    assert a[..i + 1] == target;
  }

  /** Inserting puts `x` after the items of at least its score and before
      the trailing items of smaller score. */
  lemma {:induction false} InsertAt(sorted: seq<ScoredPolicy>, x: ScoredPolicy, j: nat)
    requires j <= |sorted|
    requires j == 0 || sorted[j - 1].score >= x.score
    requires forall k :: j <= k < |sorted| ==> sorted[k].score < x.score
    ensures Insert(sorted, x) == sorted[..j] + [x] + sorted[j..]
    decreases |sorted|
  {
    if j == |sorted| {
      assert sorted[..j] == sorted && sorted[j..] == [];
    } else {
      var init, last := sorted[..|sorted| - 1], sorted[|sorted| - 1];
      InsertAt(init, x, j);
      assert init[..j] == sorted[..j];
      assert init[j..] + [last] == sorted[j..];
    }
  }

  /** The policy was published within the last three days: its publication
      day, taken as midnight UTC, is no earlier than `nowMs` minus three days. */
  predicate IsRecent(p: Policy, nowMs: int)
  {
    p.publishedAt.Some? && p.publishedAt.value * MsPerDay >= nowMs - RecentDays * MsPerDay
  }

  /** The filter's test: not excluded, and relevant or recent. */
  predicate Kept(item: ScoredPolicy, nowMs: int)
  {
    item.score > ExclusionThreshold && (item.score >= 1 || IsRecent(item.policy, nowMs))
  }

  /** The kept items, in their order. */
  function KeepRelevant(items: seq<ScoredPolicy>, nowMs: int): (r: seq<ScoredPolicy>)
    ensures |r| <= |items|
    ensures forall e :: e in r <==> e in items && Kept(e, nowMs)
  {
    if items == [] then []
    else
      var init, last := items[..|items| - 1], items[|items| - 1];
      assert items == init + [last];
      KeepRelevant(init, nowMs) + (if Kept(last, nowMs) then [last] else [])
  }

  /** The policies of scored items, in order. */
  function PoliciesOf(items: seq<ScoredPolicy>): (r: seq<Policy>)
    ensures |r| == |items|
  {
    seq(|items|, i requires 0 <= i < |items| => items[i].policy)
  }

  /** Every policy paired with its score, in input order. */
  function ScoreAll(policies: seq<Policy>, profile: UserProfile): (r: seq<ScoredPolicy>)
    ensures |r| == |policies|
    ensures forall i :: 0 <= i < |r| ==> r[i].score == Score(r[i].policy, profile)
  {
    seq(|policies|, i requires 0 <= i < |policies| => ScoredPolicy(policies[i], Score(policies[i], profile)))
  }

  /** Scoring keeps the policies: projecting the scored list gives the input back. */
  lemma ScoreAllPolicies(policies: seq<Policy>, profile: UserProfile)
    ensures PoliciesOf(ScoreAll(policies, profile)) == policies
  {
  }

  /** What `filterPoliciesForUser` returns: the first `maxCount` kept items of
      the score-sorted list (`slice(0, maxCount)`). */
  function Ranked(policies: seq<Policy>, profile: UserProfile, maxCount: int, nowMs: int): (r: seq<Policy>)
    ensures |r| <= |policies|
    ensures maxCount >= 0 ==> |r| <= maxCount
  {
    PoliciesOf(SliceTo(KeepRelevant(SortByScore(ScoreAll(policies, profile)), nowMs), maxCount))
  }

  /** `filterPoliciesForUser`: score every policy into an array, sort it in
      place, then filter, truncate and project. The profile and the count
      default to `DEFAULT_USER_PROFILE` and 5, as in the code. */
  method FilterPoliciesForUser(policies: seq<Policy>, nowMs: int, profile: UserProfile := DefaultProfile, maxCount: int := 5)
    returns (result: seq<Policy>)
    ensures result == Ranked(policies, profile, maxCount, nowMs)
  {
    var scored := new ScoredPolicy[|policies|];
    var i := 0;
    while i < |policies|
      invariant 0 <= i <= |policies|
      invariant scored[..i] == ScoreAll(policies, profile)[..i]
    {
      var s := RelevanceScore(policies[i], profile);
      scored[i] := ScoredPolicy(policies[i], s);
      i := i + 1;
    }
    assert scored[..] == ScoreAll(policies, profile);
    SortByScoreInPlace(scored);
    result := PoliciesOf(SliceTo(KeepRelevant(scored[..], nowMs), maxCount));
  }

  // ---------------------------------------------------------------------
  // Properties of the ranking
  // ---------------------------------------------------------------------

  /** The sorted, filtered and truncated items before projection, all
      carrying their policy's score. */
  lemma RankedItems(policies: seq<Policy>, profile: UserProfile, maxCount: int, nowMs: int)
    returns (items: seq<ScoredPolicy>)
    ensures Ranked(policies, profile, maxCount, nowMs) == PoliciesOf(items)
    ensures items == SliceTo(KeepRelevant(SortByScore(ScoreAll(policies, profile)), nowMs), maxCount)
    ensures NonIncreasing(items)
    ensures forall i :: 0 <= i < |items| ==>
      items[i].score == Score(items[i].policy, profile) && items[i].policy in policies && Kept(items[i], nowMs)
  {
    var all := ScoreAll(policies, profile);
    var sorted := SortByScore(all);
    SortByScoreOrdered(all);
    var kept := KeepRelevant(sorted, nowMs);
    items := SliceTo(kept, maxCount);
    forall i | 0 <= i < |items|
      ensures items[i].score == Score(items[i].policy, profile) && items[i].policy in policies && Kept(items[i], nowMs)
    {
      assert items[i] == kept[i];
      KeptFromInput(all, nowMs, items[i]);
      ScoreAllMember(policies, profile, items[i]);
    }
    KeepRelevantOrdered(sorted, nowMs);
  }

  /** A kept item of the sorted list is a kept item of the input. */
  lemma KeptFromInput(items: seq<ScoredPolicy>, nowMs: int, e: ScoredPolicy)
    requires e in KeepRelevant(SortByScore(items), nowMs)
    ensures e in items && Kept(e, nowMs)
  {
    SortByScorePermutes(items);
    assert e in multiset(SortByScore(items));
  }

  /** Each scored item is an input policy with its score. */
  lemma ScoreAllMember(policies: seq<Policy>, profile: UserProfile, e: ScoredPolicy)
    requires e in ScoreAll(policies, profile)
    ensures e.score == Score(e.policy, profile) && e.policy in policies
  {
    var k :| 0 <= k < |policies| && ScoreAll(policies, profile)[k] == e;
  }

  lemma {:induction false} KeepRelevantOrdered(items: seq<ScoredPolicy>, nowMs: int)
    requires NonIncreasing(items)
    ensures NonIncreasing(KeepRelevant(items, nowMs))
  {
    if items != [] {
      var init, last := items[..|items| - 1], items[|items| - 1];
      KeepRelevantOrdered(init, nowMs);
      var front := KeepRelevant(init, nowMs);
      forall i | 0 <= i < |front| ensures front[i].score >= last.score {
        assert front[i] in init;
      }
    }
  }

  /** Filtering distributes over concatenation: it keeps order and multiplicity. */
  lemma {:induction false} KeepRelevantAppend(a: seq<ScoredPolicy>, b: seq<ScoredPolicy>, nowMs: int)
    ensures KeepRelevant(a + b, nowMs) == KeepRelevant(a, nowMs) + KeepRelevant(b, nowMs)
    decreases |b|
  {
    if b == [] {
      assert a + b == a;
    } else {
      var init, last := b[..|b| - 1], b[|b| - 1];
      assert (a + b)[..|a + b| - 1] == a + init;
      assert (a + b)[|a + b| - 1] == last;
      KeepRelevantAppend(a, init, nowMs);
      var tail := if Kept(last, nowMs) then [last] else [];
      calc {
        KeepRelevant(a + b, nowMs);
        KeepRelevant(a + init, nowMs) + tail;
        KeepRelevant(a, nowMs) + KeepRelevant(init, nowMs) + tail;
        KeepRelevant(a, nowMs) + (KeepRelevant(init, nowMs) + tail);
        KeepRelevant(a, nowMs) + KeepRelevant(b, nowMs);
      }
    }
  }

  /** The kept items of one score are the items of that score that are kept. */
  lemma {:induction false} KeepRelevantOfScore(items: seq<ScoredPolicy>, nowMs: int, v: int)
    ensures OfScore(KeepRelevant(items, nowMs), v) == KeepRelevant(OfScore(items, v), nowMs)
  {
    if items != [] {
      var init, last := items[..|items| - 1], items[|items| - 1];
      var kept := if Kept(last, nowMs) then [last] else [];
      var same := if last.score == v then [last] else [];
      KeepRelevantOfScore(init, nowMs, v);
      OfScoreAppend(KeepRelevant(init, nowMs), kept, v);
      KeepRelevantAppend(OfScore(init, v), same, nowMs);
      assert OfScore(kept, v) == KeepRelevant(same, nowMs) by {
        if kept != [] {
          assert OfScore(kept, v) == OfScore(kept[..0], v) + same;
        }
        if same != [] {
          assert KeepRelevant(same, nowMs) == KeepRelevant(same[..0], nowMs) + kept;
        }
      }
    }
  }

  /** The items of one score in a prefix are a prefix of that score's items. */
  lemma OfScorePrefix(items: seq<ScoredPolicy>, n: nat, v: int)
    requires n <= |items|
    ensures OfScore(items[..n], v) <= OfScore(items, v)
  {
    assert items == items[..n] + items[n..];
    OfScoreAppend(items[..n], items[n..], v);
  }

  /** A qualifying input policy, with its score, survives sorting and filtering. */
  lemma KeptInSorted(policies: seq<Policy>, profile: UserProfile, nowMs: int, p: Policy)
    requires p in policies
    requires Kept(ScoredPolicy(p, Score(p, profile)), nowMs)
    ensures ScoredPolicy(p, Score(p, profile)) in KeepRelevant(SortByScore(ScoreAll(policies, profile)), nowMs)
  {
    var all := ScoreAll(policies, profile);
    SortByScorePermutes(all);
    var k :| 0 <= k < |policies| && policies[k] == p;
    assert all[k] == ScoredPolicy(p, Score(p, profile));
    assert ScoredPolicy(p, Score(p, profile)) in multiset(SortByScore(all));
  }

  /** In a non-increasing list, an item beyond a prefix scores no higher
      than anything in the prefix. */
  lemma PrefixScoresAtLeast(items: seq<ScoredPolicy>, n: nat, e: ScoredPolicy)
    requires NonIncreasing(items) && n <= |items|
    requires e in items && e !in items[..n]
    ensures forall x :: x in items[..n] ==> x.score >= e.score
  {
    forall j | 0 <= j < n ensures items[j] != e {
      assert items[..n][j] == items[j];
    }
    var m :| 0 <= m < |items| && items[m] == e;
    forall x | x in items[..n] ensures x.score >= e.score {
      var j :| 0 <= j < n && items[..n][j] == x;
    }
  }

  /** The policy of an item is among the projected policies. */
  lemma Projected(items: seq<ScoredPolicy>, e: ScoredPolicy)
    requires e in items
    ensures e.policy in PoliciesOf(items)
  {
    var j :| 0 <= j < |items| && items[j] == e;
    assert PoliciesOf(items)[j] == e.policy;
  }

  /** An item whose policy is not projected is not among the items. */
  lemma NotProjected(items: seq<ScoredPolicy>, e: ScoredPolicy)
    requires e.policy !in PoliciesOf(items)
    ensures e !in items
  {
    forall j | 0 <= j < |items| ensures items[j] != e {
      assert PoliciesOf(items)[j] == items[j].policy;
    }
  }

  /** Items that each carry their policy's score and all score at least `bound`
      project to policies scoring at least `bound`. */
  lemma ProjectedScoresAtLeast(items: seq<ScoredPolicy>, profile: UserProfile, bound: int)
    requires forall i :: 0 <= i < |items| ==> items[i].score == Score(items[i].policy, profile)
    requires forall x :: x in items ==> x.score >= bound
    ensures forall q :: q in PoliciesOf(items) ==> Score(q, profile) >= bound
  {
    forall q | q in PoliciesOf(items) ensures Score(q, profile) >= bound {
      var j :| 0 <= j < |items| && PoliciesOf(items)[j] == q;
      assert items[j] in items;
    }
  }

  /** The ranking is a top-k: a qualifying policy left out of the result
      scores no higher than any returned one, and for a non-negative count
      it was left out because the result is full. */
  lemma RankedTop(policies: seq<Policy>, profile: UserProfile, maxCount: int, nowMs: int, p: Policy)
    requires p in policies
    requires Kept(ScoredPolicy(p, Score(p, profile)), nowMs)
    requires p !in Ranked(policies, profile, maxCount, nowMs)
    ensures forall q :: q in Ranked(policies, profile, maxCount, nowMs) ==> Score(q, profile) >= Score(p, profile)
    ensures maxCount >= 0 ==> |Ranked(policies, profile, maxCount, nowMs)| == maxCount
  {
    var sorted := SortByScore(ScoreAll(policies, profile));
    var kept := KeepRelevant(sorted, nowMs);
    var e := ScoredPolicy(p, Score(p, profile));
    var items := RankedItems(policies, profile, maxCount, nowMs);
    SortByScoreOrdered(ScoreAll(policies, profile));
    KeepRelevantOrdered(sorted, nowMs);
    KeptInSorted(policies, profile, nowMs, p);
    NotProjected(items, e);
    assert items == kept[..|items|];
    PrefixScoresAtLeast(kept, |items|, e);
    ProjectedScoresAtLeast(items, profile, e.score);
    if maxCount >= 0 && |items| < maxCount {
      RankedComplete(policies, profile, maxCount, nowMs, p);
    }
  }

  /** Ties keep their input order: for each score, the returned items of
      that score are the first kept items of that score in input order. */
  lemma RankedStable(policies: seq<Policy>, profile: UserProfile, maxCount: int, nowMs: int, v: int)
    ensures var items := SliceTo(KeepRelevant(SortByScore(ScoreAll(policies, profile)), nowMs), maxCount);
      && Ranked(policies, profile, maxCount, nowMs) == PoliciesOf(items)
      && OfScore(items, v) <= KeepRelevant(OfScore(ScoreAll(policies, profile), v), nowMs)
  {
    var all := ScoreAll(policies, profile);
    var kept := KeepRelevant(SortByScore(all), nowMs);
    var items := SliceTo(kept, maxCount);
    OfScorePrefix(kept, |items|, v);
    KeepRelevantOfScore(SortByScore(all), nowMs, v);
    SortByScoreStable(all, v);
  }

  /** At most `maxCount` policies come back (for a non-negative count), all
      drawn from the input, in non-increasing order of score, none excluded,
      each relevant or recent. */
  lemma RankedCorrect(policies: seq<Policy>, profile: UserProfile, maxCount: int, nowMs: int)
    ensures var r := Ranked(policies, profile, maxCount, nowMs);
      && |r| <= |policies|
      && (maxCount >= 0 ==> |r| <= maxCount)
      && (forall i :: 0 <= i < |r| ==> r[i] in policies)
      && (forall i :: 0 <= i < |r| ==> Score(r[i], profile) > ExclusionThreshold)
      && (forall i :: 0 <= i < |r| ==> Score(r[i], profile) >= 1 || IsRecent(r[i], nowMs))
      && (forall i, j :: 0 <= i < j < |r| ==> Score(r[i], profile) >= Score(r[j], profile))
  {
    var items := RankedItems(policies, profile, maxCount, nowMs);
    var r := Ranked(policies, profile, maxCount, nowMs);
    assert forall i :: 0 <= i < |r| ==> r[i] == items[i].policy;
  }

  /** When fewer than `maxCount` policies come back, nothing was cut: every
      input policy that passes the filter is among them. */
  lemma RankedComplete(policies: seq<Policy>, profile: UserProfile, maxCount: int, nowMs: int, p: Policy)
    requires p in policies
    requires Kept(ScoredPolicy(p, Score(p, profile)), nowMs)
    requires 0 <= maxCount && |Ranked(policies, profile, maxCount, nowMs)| < maxCount
    ensures p in Ranked(policies, profile, maxCount, nowMs)
  {
    var kept := KeepRelevant(SortByScore(ScoreAll(policies, profile)), nowMs);
    var e := ScoredPolicy(p, Score(p, profile));
    KeptInSorted(policies, profile, nowMs, p);
    assert SliceTo(kept, maxCount) == kept;
    Projected(kept, e);
  }

  /** A recent item the keywords do not touch, for a profile without a
      region, still comes back when there is room. */
  lemma RecentZeroScoreKept(p: Policy, profile: UserProfile, nowMs: int)
    requires Score(p, profile) == 0 && IsRecent(p, nowMs)
    ensures p in Ranked([p], profile, 5, nowMs)
  {
    var r := Ranked([p], profile, 5, nowMs);
    RankedCorrect([p], profile, 5, nowMs);
    if p !in r {
      RankedComplete([p], profile, 5, nowMs, p);
    }
  }

  // ---------------------------------------------------------------------
  // Alert messages
  // ---------------------------------------------------------------------

  /** The emoji of a category, if it has one. */
  function CategoryEmoji(category: string): Option<string>
  {
    if category == "지원금" then Some("💰")
    else if category == "대출" then Some("🏦")
    else if category == "세금" then Some("📋")
    else if category == "노무" then Some("👥")
    else if category == "위생" then Some("🧹")
    else if category == "뉴스" then Some("📰")
    else if category == "정책" then Some("📢")
    else None
  }

  /** The emoji heading an alert: an absent or empty category counts as
      `정책`, and a category without an emoji gets 📌. */
  function AlertEmoji(category: Option<string>): (e: string)
    ensures |e| == 1
    ensures category.None? || category == Some("") ==> e == "📢"
    ensures category.Some? && category.value != "" && CategoryEmoji(category.value).None? ==> e == "📌"
    ensures category.Some? && category.value != "" && CategoryEmoji(category.value).Some? ==>
      e == CategoryEmoji(category.value).value
  {
    var key := if category.None? || category.value == "" then "정책" else category.value;
    CategoryEmoji(key).GetOr("📌")
  }

  /** `generateAlertMessage`: the emoji, the profile's business type in the
      " [… 사장님 맞춤] " tag, then the title. */
  function AlertMessage(p: Policy, profile: UserProfile): (msg: string)
    ensures |msg| > |p.title|
    ensures msg[..1] == AlertEmoji(p.category)
    ensures msg[1..|msg| - |p.title|] == " [" + profile.businessType + " 사장님 맞춤] "
    ensures msg[|msg| - |p.title|..] == p.title
  {
    AlertEmoji(p.category) + " [" + profile.businessType + " 사장님 맞춤] " + p.title
  }

  /** For one business type, the message determines the emoji and the title. */
  lemma AlertMessageInjective(p: Policy, q: Policy, profile: UserProfile)
    requires AlertMessage(p, profile) == AlertMessage(q, profile)
    ensures AlertEmoji(p.category) == AlertEmoji(q.category) && p.title == q.title
  {
    var prefix := " [" + profile.businessType + " 사장님 맞춤] ";
    var m := AlertMessage(p, profile);
    assert m == AlertEmoji(p.category) + prefix + p.title;
    assert m == AlertEmoji(q.category) + prefix + q.title;
    assert |p.title| == |q.title|;
  }
}
