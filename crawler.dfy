/** Post-processing of the Naver news search crawl (api/lib/crawler.ts). The
    HTML extraction itself (a regular expression over the page, or a DOM
    query) is outside the model: the crawl starts from the list of anchors
    it yields, each an `href` and the anchor's text, in page order. */
module Crawler {
  import opened Wrappers
  import opened Text
  import opened PolicyModel

  /** One news link found on the page. A DOM anchor without `href` has `href == ""`. */
  datatype Anchor = Anchor(href: string, text: string)

  const NewsCategory := "뉴스"
  const NewsSummary := "네이버 뉴스 - 소상공인 관련"
  const MinTitleLength := 5
  const MaxArticles := 20

  /** The record a crawl stores for an accepted link, published on `today`. */
  function NewsRecord(url: string, title: string, today: int): (p: Policy)
    ensures p.source == Naver && p.category == Some(NewsCategory) && p.summary == Some(NewsSummary)
    ensures p.publishedAt == Some(today) && p.url == url && p.title == title
  {
    Policy(title, Naver, Some(NewsCategory), Some(NewsSummary), url, Some(today))
  }

  // ---------------------------------------------------------------------
  // Title clean-up
  // ---------------------------------------------------------------------

  /** `replace(/<\/?mark>/g, '')`: removes every `<mark>` and `</mark>` tag,
      scanning left to right. */
  function StripMark(s: string): (r: string)
    ensures |r| <= |s|
    ensures '<' !in s ==> r == s
  {
    if s == [] then []
    else if StartsWith(s, "<mark>") then
      assert s[..6][0] == s[0];
      StripMark(s[6..])
    else if StartsWith(s, "</mark>") then
      assert s[..7][0] == s[0];
      StripMark(s[7..])
    else
      assert s == [s[0]] + s[1..];
      [s[0]] + StripMark(s[1..])
  }

  /** Text before the first `<` is kept as it is. */
  lemma {:induction false} StripMarkPlainPrefix(a: string, b: string)
    requires '<' !in a
    ensures StripMark(a + b) == a + StripMark(b)
    decreases |a|
  {
    if a != [] {
      var s := a + b;
      assert s[0] == a[0] && s[0] != '<';
      assert !StartsWith(s, "<mark>") && !StartsWith(s, "</mark>") by {
        assert "<mark>"[0] == '<' && "</mark>"[0] == '<';
      }
      assert s[1..] == a[1..] + b;
      assert a == [a[0]] + a[1..];
      StripMarkPlainPrefix(a[1..], b);
    } else {
      assert a + b == b;
    }
  }

  /** A leading `<mark>` is dropped. */
  lemma StripMarkOpenTag(b: string)
    ensures StripMark("<mark>" + b) == StripMark(b)
  {
    var s := "<mark>" + b;
    assert s[..6] == "<mark>" && s[6..] == b;
  }

  /** A leading `</mark>` is dropped. */
  lemma StripMarkCloseTag(b: string)
    ensures StripMark("</mark>" + b) == StripMark(b)
  {
    var s := "</mark>" + b;
    assert s[..7] == "</mark>" && s[7..] == b;
    assert s[1] == '/';
  }

  /** A tag is dropped and the text before it kept: the title keeps all its
      text outside the tags. */
  lemma StripMarkTags(a: string, b: string)
    requires '<' !in a
    ensures StripMark(a + "<mark>" + b) == a + StripMark(b)
    ensures StripMark(a + "</mark>" + b) == a + StripMark(b)
  {
    assert a + "<mark>" + b == a + ("<mark>" + b);
    assert a + "</mark>" + b == a + ("</mark>" + b);
    StripMarkPlainPrefix(a, "<mark>" + b);
    StripMarkPlainPrefix(a, "</mark>" + b);
    StripMarkOpenTag(b);
    StripMarkCloseTag(b);
  }

  /** Every `<` in `s` opens a `<mark>` or `</mark>` tag: the shape of the
      title text the page's link pattern captures. */
  predicate OnlyMarkTags(s: string)
  {
    forall i :: 0 <= i < |s| && s[i] == '<' ==> StartsWith(s[i..], "<mark>") || StartsWith(s[i..], "</mark>")
  }

  /** On captured title text, stripping leaves no `<` at all, so no tag. */
  lemma {:induction false} StripMarkClean(s: string)
    requires OnlyMarkTags(s)
    ensures '<' !in StripMark(s)
    decreases |s|
  {
    if s == [] {
    } else if StartsWith(s, "<mark>") {
      ShiftOnlyMarkTags(s, 6);
      StripMarkClean(s[6..]);
    } else if StartsWith(s, "</mark>") {
      ShiftOnlyMarkTags(s, 7);
      StripMarkClean(s[7..]);
    } else {
      assert s[0..] == s;
      ShiftOnlyMarkTags(s, 1);
      StripMarkClean(s[1..]);
    }
  }

  lemma ShiftOnlyMarkTags(s: string, n: nat)
    requires OnlyMarkTags(s) && n <= |s|
    ensures OnlyMarkTags(s[n..])
  {
    forall i | 0 <= i < |s| - n && s[n..][i] == '<'
      ensures StartsWith(s[n..][i..], "<mark>") || StartsWith(s[n..][i..], "</mark>")
    {
      assert s[n..][i..] == s[n + i..];
    }
  }

  /** A character absent from a string is absent from each of its slices. */
  lemma NotInSlice(s: string, c: char, lo: nat, hi: nat)
    requires lo <= hi <= |s| && c !in s
    ensures c !in s[lo..hi]
  {
    forall k | 0 <= k < hi - lo ensures s[lo..hi][k] != c {
      assert s[lo..hi][k] == s[lo + k];
    }
  }

  /** A string without `<` contains no tag. */
  lemma NoTagWithoutLt(s: string)
    requires '<' !in s
    ensures !Contains(s, "<mark>") && !Contains(s, "</mark>")
  {
    forall k | 0 <= k && k + 6 <= |s| ensures !MatchesAt(s, "<mark>", k) {
      assert s[k..k + 6][0] == s[k];
    }
    forall k | 0 <= k && k + 7 <= |s| ensures !MatchesAt(s, "</mark>", k) {
      assert s[k..k + 7][0] == s[k];
    }
  }

  /** The title the regular-expression path takes from captured text. */
  function RegexTitle(text: string): string
  {
    Trim(StripMark(text))
  }

  /** A captured title has no mark tag left and no surrounding white space. */
  lemma RegexTitleClean(text: string)
    requires OnlyMarkTags(text)
    ensures var t := RegexTitle(text);
      && !Contains(t, "<mark>") && !Contains(t, "</mark>")
      && (t == [] || (!IsSpace(t[0]) && !IsSpace(t[|t| - 1])))
  {
    var stripped := StripMark(text);
    StripMarkClean(text);
    var t := Trim(stripped);
    NotInSlice(stripped, '<', TrimOffset(stripped), TrimOffset(stripped) + |t|);
    NoTagWithoutLt(t);
  }

  // ---------------------------------------------------------------------
  // Accepting links
  // ---------------------------------------------------------------------

  /** The regular-expression path keeps a link whose title is longer than five
      UTF-16 code units and whose URL does not contain `more`. */
  predicate AcceptRegex(url: string, title: string)
  {
    title != "" && Utf16Length(title) > MinTitleLength && !Contains(url, "more")
  }

  /** The DOM path keeps a link whose title is longer than five UTF-16 code
      units and whose URL starts with `http`. */
  predicate AcceptDom(url: string, title: string)
  {
    title != "" && Utf16Length(title) > MinTitleLength && StartsWith(url, "http")
  }

  /** The record (if any) the regular-expression path makes of one match. */
  function RegexRecord(a: Anchor, today: int): seq<Policy>
  {
    var title := RegexTitle(a.text);
    if AcceptRegex(a.href, title) then [NewsRecord(a.href, title, today)] else []
  }

  /** The record (if any) the DOM path makes of one anchor. */
  function DomRecord(a: Anchor, today: int): seq<Policy>
  {
    var title := Trim(a.text);
    if AcceptDom(a.href, title) then [NewsRecord(a.href, title, today)] else []
  }

  /** The records collected from `anchors` in page order, `record` giving
      each anchor's records (none or one). */
  function Collect(anchors: seq<Anchor>, record: Anchor -> seq<Policy>): seq<Policy>
  {
    if anchors == [] then []
    else Collect(anchors[..|anchors| - 1], record) + record(anchors[|anchors| - 1])
  }

  lemma {:induction false} CollectLength(anchors: seq<Anchor>, record: Anchor -> seq<Policy>)
    requires forall a :: |record(a)| <= 1
    ensures |Collect(anchors, record)| <= |anchors|
  {
    if anchors != [] {
      CollectLength(anchors[..|anchors| - 1], record);
    }
  }

  lemma CollectSnoc(s: seq<Anchor>, last: Anchor, record: Anchor -> seq<Policy>)
    ensures Collect(s + [last], record) == Collect(s, record) + record(last)
  {
    assert (s + [last])[..|s|] == s;
  }

  /** Collecting is done anchor by anchor, so records keep the page order. */
  lemma {:induction false} CollectAppend(a: seq<Anchor>, b: seq<Anchor>, record: Anchor -> seq<Policy>)
    ensures Collect(a + b, record) == Collect(a, record) + Collect(b, record)
    decreases |b|
  {
    if b == [] {
      assert a + b == a;
    } else {
      var init, last := b[..|b| - 1], b[|b| - 1];
      assert a + b == (a + init) + [last] && b == init + [last];
      CollectSnoc(a + init, last, record);
      CollectSnoc(init, last, record);
      CollectAppend(a, init, record);
    }
  }

  /** A record is collected exactly when some anchor yields it. */
  lemma {:induction false} CollectMembers(anchors: seq<Anchor>, record: Anchor -> seq<Policy>)
    ensures forall p :: p in Collect(anchors, record) <==> exists a :: a in anchors && p in record(a)
  {
    if anchors != [] {
      var init, last := anchors[..|anchors| - 1], anchors[|anchors| - 1];
      CollectMembers(init, record);
      assert anchors == init + [last];
    }
  }

  function RegexRecords(today: int): Anchor -> seq<Policy>
  {
    a => RegexRecord(a, today)
  }

  function DomRecords(today: int): Anchor -> seq<Policy>
  {
    a => DomRecord(a, today)
  }

  /** The records the regular-expression path collects, in page order. */
  function FromRegexMatches(anchors: seq<Anchor>, today: int): (r: seq<Policy>)
    ensures |r| <= |anchors|
  {
    CollectLength(anchors, RegexRecords(today));
    Collect(anchors, RegexRecords(today))
  }

  /** The records the DOM path collects, in page order. */
  function FromDomAnchors(anchors: seq<Anchor>, today: int): (r: seq<Policy>)
    ensures |r| <= |anchors|
  {
    CollectLength(anchors, DomRecords(today));
    Collect(anchors, DomRecords(today))
  }

  lemma FromRegexMatchesStep(anchors: seq<Anchor>, i: nat, today: int)
    requires i < |anchors|
    ensures FromRegexMatches(anchors[..i + 1], today) == FromRegexMatches(anchors[..i], today) + RegexRecord(anchors[i], today)
  {
    assert anchors[..i + 1] == anchors[..i] + [anchors[i]];
    CollectSnoc(anchors[..i], anchors[i], RegexRecords(today));
  }

  lemma FromDomAnchorsStep(anchors: seq<Anchor>, i: nat, today: int)
    requires i < |anchors|
    ensures FromDomAnchors(anchors[..i + 1], today) == FromDomAnchors(anchors[..i], today) + DomRecord(anchors[i], today)
  {
    assert anchors[..i + 1] == anchors[..i] + [anchors[i]];
    CollectSnoc(anchors[..i], anchors[i], DomRecords(today));
  }

  /** The body of the regular-expression loop for one match: clean the
      title, push the record if the link is accepted. */
  method PushRegex(policies: seq<Policy>, a: Anchor, today: int) returns (next: seq<Policy>)
    ensures next == policies + RegexRecord(a, today)
  {
    var url := a.href;
    var title := StripMark(a.text);
    title := Trim(title);
    next := policies;
    if title != "" && Utf16Length(title) > MinTitleLength && !Contains(url, "more") {
      next := next + [NewsRecord(url, title, today)];
    }
  }

  /** The body of the DOM callback for one anchor. */
  method PushDom(policies: seq<Policy>, a: Anchor, today: int) returns (next: seq<Policy>)
    ensures next == policies + DomRecord(a, today)
  {
    var url := a.href;
    var title := Trim(a.text);
    next := policies;
    if title != "" && Utf16Length(title) > MinTitleLength && StartsWith(url, "http") {
      next := next + [NewsRecord(url, title, today)];
    }
  }

  /** The `while (linkRegex.exec(html))` loop: pushes a record per accepted match. */
  method CollectRegexMatches(anchors: seq<Anchor>, today: int) returns (policies: seq<Policy>)
    ensures policies == FromRegexMatches(anchors, today)
  {
    policies := [];
    var i := 0;
    while i < |anchors|
      invariant 0 <= i <= |anchors|
      invariant policies == FromRegexMatches(anchors[..i], today)
    {
      policies := PushRegex(policies, anchors[i], today);
      FromRegexMatchesStep(anchors, i, today);
      i := i + 1;
    }
    assert anchors[..i] == anchors;
  }

  /** The `$('a[...]').each(...)` callback: pushes a record per accepted anchor. */
  method CollectDomAnchors(anchors: seq<Anchor>, today: int) returns (policies: seq<Policy>)
    ensures policies == FromDomAnchors(anchors, today)
  {
    policies := [];
    var i := 0;
    while i < |anchors|
      invariant 0 <= i <= |anchors|
      invariant policies == FromDomAnchors(anchors[..i], today)
    {
      policies := PushDom(policies, anchors[i], today);
      FromDomAnchorsStep(anchors, i, today);
      i := i + 1;
    }
    assert anchors[..i] == anchors;
  }

  /** Records keep the page order: collecting over two parts of the page
      concatenates the two results. */
  lemma FromRegexMatchesAppend(a: seq<Anchor>, b: seq<Anchor>, today: int)
    ensures FromRegexMatches(a + b, today) == FromRegexMatches(a, today) + FromRegexMatches(b, today)
  {
    CollectAppend(a, b, RegexRecords(today));
  }

  lemma FromDomAnchorsAppend(a: seq<Anchor>, b: seq<Anchor>, today: int)
    ensures FromDomAnchors(a + b, today) == FromDomAnchors(a, today) + FromDomAnchors(b, today)
  {
    CollectAppend(a, b, DomRecords(today));
  }

  /** Every record of the regular-expression path is a news record of today
      with a long enough title and a URL without `more`, taken from some anchor. */
  lemma FromRegexMatchesRecords(anchors: seq<Anchor>, today: int)
    ensures forall p :: p in FromRegexMatches(anchors, today) ==>
      && p == NewsRecord(p.url, p.title, today)
      && Utf16Length(p.title) > MinTitleLength && !Contains(p.url, "more")
      && exists a :: a in anchors && a.href == p.url && RegexTitle(a.text) == p.title
  {
    CollectMembers(anchors, RegexRecords(today));
    forall p | p in FromRegexMatches(anchors, today)
      ensures exists a :: a in anchors && a.href == p.url && RegexTitle(a.text) == p.title
      ensures p == NewsRecord(p.url, p.title, today) && Utf16Length(p.title) > MinTitleLength && !Contains(p.url, "more")
    {
      var a :| a in anchors && p in RegexRecords(today)(a);
      assert p in RegexRecord(a, today);
    }
  }

  /** Every accepted match is stored, so together with
      `FromRegexMatchesRecords` a link is kept exactly when it is accepted. */
  lemma FromRegexMatchesAccepted(anchors: seq<Anchor>, today: int)
    ensures forall a :: a in anchors && AcceptRegex(a.href, RegexTitle(a.text)) ==>
      NewsRecord(a.href, RegexTitle(a.text), today) in FromRegexMatches(anchors, today)
  {
    CollectMembers(anchors, RegexRecords(today));
    forall a | a in anchors && AcceptRegex(a.href, RegexTitle(a.text))
      ensures NewsRecord(a.href, RegexTitle(a.text), today) in FromRegexMatches(anchors, today)
    {
      assert NewsRecord(a.href, RegexTitle(a.text), today) in RegexRecords(today)(a);
    }
  }

  /** Every record of the DOM path is a news record of today with a long
      enough title and an `http` URL, taken from some anchor. */
  lemma FromDomAnchorsRecords(anchors: seq<Anchor>, today: int)
    ensures forall p :: p in FromDomAnchors(anchors, today) ==>
      && p == NewsRecord(p.url, p.title, today)
      && Utf16Length(p.title) > MinTitleLength && StartsWith(p.url, "http")
      && exists a :: a in anchors && a.href == p.url && Trim(a.text) == p.title
  {
    CollectMembers(anchors, DomRecords(today));
    forall p | p in FromDomAnchors(anchors, today)
      ensures exists a :: a in anchors && a.href == p.url && Trim(a.text) == p.title
      ensures p == NewsRecord(p.url, p.title, today) && Utf16Length(p.title) > MinTitleLength && StartsWith(p.url, "http")
    {
      var a :| a in anchors && p in DomRecords(today)(a);
      assert p in DomRecord(a, today);
    }
  }

  /** Every accepted anchor is stored. */
  lemma FromDomAnchorsAccepted(anchors: seq<Anchor>, today: int)
    ensures forall a :: a in anchors && AcceptDom(a.href, Trim(a.text)) ==>
      NewsRecord(a.href, Trim(a.text), today) in FromDomAnchors(anchors, today)
  {
    CollectMembers(anchors, DomRecords(today));
    forall a | a in anchors && AcceptDom(a.href, Trim(a.text))
      ensures NewsRecord(a.href, Trim(a.text), today) in FromDomAnchors(anchors, today)
    {
      assert NewsRecord(a.href, Trim(a.text), today) in DomRecords(today)(a);
    }
  }

  // ---------------------------------------------------------------------
  // De-duplication by URL
  // ---------------------------------------------------------------------

  /** `self.findIndex(p => p.url === url)`: the first position of `url`, or -1. */
  function FindIndex(s: seq<Policy>, url: string): (r: int)
    ensures -1 <= r < |s|
    ensures r >= 0 ==> s[r].url == url && forall k :: 0 <= k < r ==> s[k].url != url
    ensures r == -1 <==> forall k :: 0 <= k < |s| ==> s[k].url != url
  {
    if s == [] then -1
    else
      var r := FindIndex(s[..|s| - 1], url);
      if r >= 0 then r else if s[|s| - 1].url == url then |s| - 1 else -1
  }

  /** The first `n` items of `s`, each kept when it is the first of its URL
      in the whole of `s`. */
  function DedupPrefix(s: seq<Policy>, n: nat): seq<Policy>
    requires n <= |s|
  {
    if n == 0 then []
    else DedupPrefix(s, n - 1) + (if FindIndex(s, s[n - 1].url) == n - 1 then [s[n - 1]] else [])
  }

  /** `policies.filter((p, i, self) => i === self.findIndex(q => q.url === p.url))`:
      no longer than its input, with no URL twice. */
  function Dedup(s: seq<Policy>): (r: seq<Policy>)
    ensures |r| <= |s| && DistinctUrls(r)
  {
    DedupPrefixLength(s, |s|);
    DedupPrefixIsDedupSeen(s, |s|);
    assert s[..|s|] == s;
    DedupSeenDistinctUrls(s);
    DedupPrefix(s, |s|)
  }

  /** Some item of `s` has this URL. */
  predicate HasUrl(s: seq<Policy>, url: string)
  {
    exists k :: 0 <= k < |s| && s[k].url == url
  }

  /** A reference de-duplication: scan left to right, keeping an item unless
      an earlier kept item has its URL. */
  function DedupSeen(s: seq<Policy>): seq<Policy>
  {
    if s == [] then []
    else
      var d := DedupSeen(s[..|s| - 1]);
      if HasUrl(d, s[|s| - 1].url) then d else d + [s[|s| - 1]]
  }

  /** The reference keeps the URLs of its input. */
  lemma {:induction false} DedupSeenUrls(s: seq<Policy>, url: string)
    ensures HasUrl(DedupSeen(s), url) <==> HasUrl(s, url)
  {
    if s != [] {
      var init, last := s[..|s| - 1], s[|s| - 1];
      DedupSeenUrls(init, url);
      HasUrlSnoc(init, last, url);
      assert s == init + [last];
      var d := DedupSeen(init);
      if !HasUrl(d, last.url) {
        HasUrlSnoc(d, last, url);
      }
    }
  }

  /** A URL is in `s + [x]` when it is in `s` or is `x`'s. */
  lemma HasUrlSnoc(s: seq<Policy>, x: Policy, url: string)
    ensures HasUrl(s + [x], url) <==> HasUrl(s, url) || x.url == url
  {
    if HasUrl(s, url) {
      var k :| 0 <= k < |s| && s[k].url == url;
      assert (s + [x])[k] == s[k];
    }
    if x.url == url {
      assert (s + [x])[|s|] == x;
    }
    if HasUrl(s + [x], url) && x.url != url {
      var k :| 0 <= k < |s + [x]| && (s + [x])[k].url == url;
      assert k < |s| && (s + [x])[k] == s[k];
    }
  }

  /** The filter with `findIndex` is the reference de-duplication. */
  lemma {:induction false} DedupPrefixIsDedupSeen(s: seq<Policy>, n: nat)
    requires n <= |s|
    ensures DedupPrefix(s, n) == DedupSeen(s[..n])
  {
    if n > 0 {
      DedupPrefixIsDedupSeen(s, n - 1);
      assert s[..n][..n - 1] == s[..n - 1] && s[..n][n - 1] == s[n - 1];
      DedupSeenUrls(s[..n - 1], s[n - 1].url);
      FindIndexIsFirst(s, n);
    }
  }

  /** The item at `n - 1` is the first of its URL exactly when no earlier item has it. */
  lemma FindIndexIsFirst(s: seq<Policy>, n: nat)
    requires 0 < n <= |s|
    ensures FindIndex(s, s[n - 1].url) == n - 1 <==> !HasUrl(s[..n - 1], s[n - 1].url)
  {
    var u := s[n - 1].url;
    var r := FindIndex(s, u);
    if 0 <= r < n - 1 {
      assert s[..n - 1][r] == s[r];
    }
    if HasUrl(s[..n - 1], u) {
      var k :| 0 <= k < n - 1 && s[..n - 1][k].url == u;
      assert s[k].url == u;
    }
  }

  lemma DedupIsDedupSeen(s: seq<Policy>)
    ensures Dedup(s) == DedupSeen(s)
  {
    DedupPrefixIsDedupSeen(s, |s|);
    assert s[..|s|] == s;
  }

  /** No two items share a URL. */
  predicate DistinctUrls(s: seq<Policy>)
  {
    forall i, j :: 0 <= i < j < |s| ==> s[i].url != s[j].url
  }

  /** Appending an item does not move the first position of a URL already
      present, and gives a new URL the last position. */
  lemma FindIndexSnoc(init: seq<Policy>, last: Policy, u: string)
    ensures HasUrl(init, u) ==> FindIndex(init + [last], u) == FindIndex(init, u)
    ensures !HasUrl(init, u) && last.url == u ==> FindIndex(init + [last], u) == |init|
  {
    var s := init + [last];
    assert s[..|s| - 1] == init;
    if HasUrl(init, u) {
      var k :| 0 <= k < |init| && init[k].url == u;
      assert FindIndex(init, u) >= 0;
    }
  }

  /** Every item the reference keeps has a URL of the input. */
  lemma DedupSeenFromInput(s: seq<Policy>)
    ensures forall i :: 0 <= i < |DedupSeen(s)| ==> HasUrl(s, DedupSeen(s)[i].url)
  {
    var d := DedupSeen(s);
    forall i | 0 <= i < |d| ensures HasUrl(s, d[i].url) {
      assert HasUrl(d, d[i].url);
      DedupSeenUrls(s, d[i].url);
    }
  }

  /** The reference keeps URLs distinct. */
  lemma {:induction false} DedupSeenDistinctUrls(s: seq<Policy>)
    ensures DistinctUrls(DedupSeen(s))
  {
    if s != [] {
      var init, last := s[..|s| - 1], s[|s| - 1];
      DedupSeenDistinctUrls(init);
      var d0 := DedupSeen(init);
      if !HasUrl(d0, last.url) {
        var d := d0 + [last];
        forall i, j | 0 <= i < j < |d| ensures d[i].url != d[j].url {
          if j == |d0| {
            assert d[i] == d0[i];
          }
        }
      }
    }
  }

  /** Every item the reference keeps is the first item of its URL in the input. */
  lemma {:induction false} DedupSeenFirsts(s: seq<Policy>)
    ensures var d := DedupSeen(s);
      forall i :: 0 <= i < |d| ==> FindIndex(s, d[i].url) >= 0 && d[i] == s[FindIndex(s, d[i].url)]
  {
    if s != [] {
      var init, last := s[..|s| - 1], s[|s| - 1];
      assert s == init + [last];
      DedupSeenFirsts(init);
      DedupSeenFromInput(init);
      var d0 := DedupSeen(init);
      forall i | 0 <= i < |d0| ensures FindIndex(s, d0[i].url) == FindIndex(init, d0[i].url) {
        FindIndexSnoc(init, last, d0[i].url);
      }
      if !HasUrl(d0, last.url) {
        DedupSeenUrls(init, last.url);
        FindIndexSnoc(init, last, last.url);
      }
    }
  }

  /** The items of `d` come in the order of their URLs' first positions in `s`. */
  predicate FirstsOrdered(s: seq<Policy>, d: seq<Policy>)
  {
    forall i, j :: 0 <= i < j < |d| ==> FindIndex(s, d[i].url) < FindIndex(s, d[j].url)
  }

  /** Appending an input item keeps the order of URLs already in the input. */
  lemma FirstsOrderedSnocInput(init: seq<Policy>, last: Policy, d: seq<Policy>)
    requires FirstsOrdered(init, d)
    requires forall i :: 0 <= i < |d| ==> HasUrl(init, d[i].url)
    ensures FirstsOrdered(init + [last], d)
    ensures forall i :: 0 <= i < |d| ==> FindIndex(init + [last], d[i].url) < |init|
  {
    forall i | 0 <= i < |d|
      ensures FindIndex(init + [last], d[i].url) == FindIndex(init, d[i].url) < |init|
    {
      FindIndexSnoc(init, last, d[i].url);
    }
  }

  /** An item whose URL comes first after all of `d`'s can follow them. */
  lemma FirstsOrderedSnoc(s: seq<Policy>, d: seq<Policy>, last: Policy)
    requires FirstsOrdered(s, d)
    requires forall i :: 0 <= i < |d| ==> FindIndex(s, d[i].url) < FindIndex(s, last.url)
    ensures FirstsOrdered(s, d + [last])
  {
    var d' := d + [last];
    forall i, j | 0 <= i < j < |d'| ensures FindIndex(s, d'[i].url) < FindIndex(s, d'[j].url) {
      assert d'[i] == d[i];
      if j < |d| {
        assert d'[j] == d[j];
      }
    }
  }

  /** The reference keeps items in the order of their URLs' first positions. */
  lemma {:induction false} DedupSeenOrdered(s: seq<Policy>)
    ensures FirstsOrdered(s, DedupSeen(s))
  {
    if s != [] {
      var init, last := s[..|s| - 1], s[|s| - 1];
      assert s == init + [last];
      DedupSeenOrdered(init);
      DedupSeenFromInput(init);
      var d0 := DedupSeen(init);
      FirstsOrderedSnocInput(init, last, d0);
      if HasUrl(d0, last.url) {
        assert DedupSeen(s) == d0;
      } else {
        assert DedupSeen(s) == d0 + [last];
        DedupSeenUrls(init, last.url);
        FindIndexSnoc(init, last, last.url);
        FirstsOrderedSnoc(s, d0, last);
      }
    }
  }

  /** The reference: distinct URLs, drawn from the input, each the first of its
      URL, in the order of their first occurrences. */
  lemma DedupSeenCorrect(s: seq<Policy>)
    ensures var d := DedupSeen(s);
      && DistinctUrls(d)
      && (forall i :: 0 <= i < |d| ==> FindIndex(s, d[i].url) >= 0 && d[i] == s[FindIndex(s, d[i].url)])
      && (forall i, j :: 0 <= i < j < |d| ==> FindIndex(s, d[i].url) < FindIndex(s, d[j].url))
  {
    DedupSeenDistinctUrls(s);
    DedupSeenFirsts(s);
    DedupSeenOrdered(s);
  }

  /** What the crawler's de-duplication promises: distinct URLs, every
      survivor the first item of its URL (so drawn from the input), survivors
      in their input order, and every input URL still present. */
  lemma DedupCorrect(s: seq<Policy>)
    ensures var d := Dedup(s);
      && DistinctUrls(d)
      && |d| <= |s|
      && (forall i :: 0 <= i < |d| ==> FindIndex(s, d[i].url) >= 0 && d[i] == s[FindIndex(s, d[i].url)])
      && (forall i, j :: 0 <= i < j < |d| ==> FindIndex(s, d[i].url) < FindIndex(s, d[j].url))
      && (forall u :: HasUrl(d, u) <==> HasUrl(s, u))
  {
    DedupIsDedupSeen(s);
    DedupSeenCorrect(s);
    forall u ensures HasUrl(Dedup(s), u) <==> HasUrl(s, u) {
      DedupSeenUrls(s, u);
    }
    DedupPrefixLength(s, |s|);
  }

  lemma {:induction false} DedupPrefixLength(s: seq<Policy>, n: nat)
    requires n <= |s|
    ensures |DedupPrefix(s, n)| <= n
  {
    if n > 0 {
      DedupPrefixLength(s, n - 1);
    }
  }

  /** A list with distinct URLs is its own de-duplication. */
  lemma {:induction false} DedupSeenDistinct(s: seq<Policy>)
    requires DistinctUrls(s)
    ensures DedupSeen(s) == s
  {
    if s != [] {
      var init, last := s[..|s| - 1], s[|s| - 1];
      forall i, j | 0 <= i < j < |init| ensures init[i].url != init[j].url {
        assert init[i] == s[i] && init[j] == s[j];
      }
      forall k | 0 <= k < |init| ensures init[k].url != last.url {
        assert init[k] == s[k];
      }
      assert !HasUrl(init, last.url);
      DedupSeenDistinct(init);
      assert s == init + [last];
    }
  }

  /** De-duplicating twice is de-duplicating once. */
  lemma DedupIdempotent(s: seq<Policy>)
    ensures Dedup(Dedup(s)) == Dedup(s)
  {
    DedupCorrect(s);
    DedupIsDedupSeen(Dedup(s));
    DedupSeenDistinct(Dedup(s));
  }

  /** The first `MaxArticles` de-duplicated records: at most that many,
      distinct URLs, each one of the collected records. */
  lemma CappedDedup(policies: seq<Policy>)
    ensures var r := SliceTo(Dedup(policies), MaxArticles);
      && |r| <= MaxArticles && DistinctUrls(r)
      && forall p :: p in r ==> p in policies
  {
    var unique := Dedup(policies);
    var r := SliceTo(unique, MaxArticles);
    DedupCorrect(policies);
    forall p | p in r ensures p in policies {
      var i :| 0 <= i < |r| && r[i] == p;
      assert p == unique[i];
    }
  }

  // ---------------------------------------------------------------------
  // The crawls
  // ---------------------------------------------------------------------

  /** `crawlNaverNews`: `page` is `None` when fetching or reading the page
      failed, which the crawler answers with an empty list. */
  method CrawlNaverNews(page: Option<seq<Anchor>>, today: int) returns (result: seq<Policy>)
    ensures page.None? ==> result == []
    ensures page.Some? ==> result == SliceTo(Dedup(FromRegexMatches(page.value, today)), MaxArticles)
    ensures |result| <= MaxArticles && DistinctUrls(result)
    ensures forall p :: p in result ==>
      p == NewsRecord(p.url, p.title, today) && Utf16Length(p.title) > MinTitleLength && !Contains(p.url, "more")
  {
    if page.None? {
      return [];
    }
    var policies := CollectRegexMatches(page.value, today);
    var unique := Dedup(policies);
    result := SliceTo(unique, MaxArticles);
    CappedDedup(policies);
    FromRegexMatchesRecords(page.value, today);
  }

  /** `crawlNaverNewsCheerio`, the crawl the application runs. */
  method CrawlNaverNewsCheerio(page: Option<seq<Anchor>>, today: int) returns (result: seq<Policy>)
    ensures page.None? ==> result == []
    ensures page.Some? ==> result == SliceTo(Dedup(FromDomAnchors(page.value, today)), MaxArticles)
    ensures |result| <= MaxArticles && DistinctUrls(result)
    ensures forall p :: p in result ==>
      p == NewsRecord(p.url, p.title, today) && Utf16Length(p.title) > MinTitleLength && StartsWith(p.url, "http")
  {
    if page.None? {
      return [];
    }
    var policies := CollectDomAnchors(page.value, today);
    var unique := Dedup(policies);
    result := SliceTo(unique, MaxArticles);
    CappedDedup(policies);
    FromDomAnchorsRecords(page.value, today);
  }

  /** `crawlAll`: the crawl the application runs is the DOM one. */
  method CrawlAll(page: Option<seq<Anchor>>, today: int) returns (result: seq<Policy>)
    ensures page.None? ==> result == []
    ensures page.Some? ==> result == SliceTo(Dedup(FromDomAnchors(page.value, today)), MaxArticles)
    ensures |result| <= MaxArticles && DistinctUrls(result)
  {
    result := CrawlNaverNewsCheerio(page, today);
  }
}
