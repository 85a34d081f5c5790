/** The two pure fragments of the scraper around its HTTP calls: the
    company slug cut out of a LinkedIn URL, and the filter that turns a
    stream of search results into the list of company pages to visit. */
module LinkedInUrls {
  import opened Text

  // ---------------------------------------------------------------------
  // Company slug

  /** The fifth '/'-separated part of the URL, or the empty string when
      there are fewer than five parts; for `https://host/company/<slug>`
      this is the slug. */
  function DomainSlug(url: string): (r: string)
    ensures '/' !in r
    ensures CountOf(url, '/') < 4 ==> r == ""
    ensures CountOf(url, '/') >= 4 ==> exists k :: PartAt(url, '/', 4, k, r)
  {
    var parts := Split(url, '/');
    SplitLength(url, '/');
    if |parts| > 4 then
      SplitPartPosition(url, '/', 4);
      parts[4]
    else
      ""
  }

  /** Reading the slug back out of a URL built from '/'-free parts. */
  lemma SlugOfJoinedUrl(parts: seq<string>)
    requires |parts| > 4
    requires forall k :: 0 <= k < |parts| ==> '/' !in parts[k]
    ensures DomainSlug(Join(parts, "/")) == parts[4]
  {
    SplitJoin(parts, '/');
  }

  /** A URL with fewer than four slashes has no slug. */
  lemma ShortUrlHasNoSlug(url: string)
    requires CountOf(url, '/') < 4
    ensures DomainSlug(url) == ""
  {
  }

  /** The company page of the scraper's own sample data. */
  lemma MicrosoftSlug()
    ensures DomainSlug("https://uk.linkedin.com/company/microsoft") == "microsoft"
  {
    var parts := MicrosoftUrlParts();
    SlugOfJoinedUrl(parts);
  }

  lemma MicrosoftUrlParts() returns (parts: seq<string>)
    ensures |parts| == 5 && parts[4] == "microsoft"
    ensures forall k :: 0 <= k < |parts| ==> '/' !in parts[k]
    ensures Join(parts, "/") == "https://uk.linkedin.com/company/microsoft"
  {
    parts := ["https:", "", "uk.linkedin.com", "company", "microsoft"];
    JoinFive(parts[0], parts[1], parts[2], parts[3], parts[4], "/");
    MicrosoftUrlSpelling();
  }

  lemma MicrosoftUrlSpelling()
    ensures "https:" + "/" + "" + "/" + "uk.linkedin.com" + "/" + "company" + "/" + "microsoft"
            == "https://uk.linkedin.com/company/microsoft"
  {
  }

  lemma JoinFive(a: string, b: string, c: string, d: string, e: string, sep: string)
    ensures Join([a, b, c, d, e], sep) == a + sep + b + sep + c + sep + d + sep + e
  {
    var parts := [a, b, c, d, e];
    assert parts[1..] == [b, c, d, e];
    assert parts[1..][1..] == [c, d, e];
    assert parts[1..][1..][1..] == [d, e];
    assert parts[1..][1..][1..][1..] == [e];
    assert Join([d, e], sep) == d + sep + e;
    assert Join([c, d, e], sep) == c + sep + (d + sep + e);
    assert Join([b, c, d, e], sep) == b + sep + (c + sep + (d + sep + e));
    assert Join(parts, sep) == a + sep + (b + sep + (c + sep + (d + sep + e)));
  }

  // ---------------------------------------------------------------------
  // Collecting company URLs from search results

  const CompanyMarker: string := "linkedin.com/company/"

  predicate IsCompanyUrl(url: string) {
    Contains(url, CompanyMarker)
  }

  /** The company URLs of `results`, each once, in order of first
      appearance: what the loop would collect with no limit. */
  function CompanyUrls(results: seq<string>): seq<string> {
    Unique(Select(results, IsCompanyUrl))
  }

  /** Python's `s[:n]`, including a negative `n` counted from the end. */
  function SliceTo<T>(s: seq<T>, n: int): (r: seq<T>)
    ensures |r| <= |s|
    ensures r == s[..|r|]
    ensures n >= 0 ==> |r| == if n < |s| then n else |s|
    ensures n < 0 ==> |r| == if |s| + n > 0 then |s| + n else 0
  {
    if n >= 0 then (if n < |s| then s[..n] else s)
    else if |s| + n > 0 then s[..|s| + n]
    else []
  }

  /** `google_search_linkedin_companies` on its primary path, with the
      search engine's answer given as `results`: keep the URLs naming a
      company page, skip ones already kept, stop once `maxResults` are
      kept, and return `urls[:max_results]`. */
  method CollectCompanyUrls(results: seq<string>, maxResults: int) returns (urls: seq<string>)
    ensures |urls| <= |CompanyUrls(results)| && urls == CompanyUrls(results)[..|urls|]
    ensures |urls| == if maxResults <= 0 then 0
                      else if maxResults < |CompanyUrls(results)| then maxResults
                      else |CompanyUrls(results)|
    ensures forall i :: 0 <= i < |urls| ==> IsCompanyUrl(urls[i]) && urls[i] in results
    ensures NoDuplicates(urls)
    ensures forall i, j :: 0 <= i < j < |urls| ==> FirstIndex(results, urls[i]) < FirstIndex(results, urls[j])
    ensures |urls| < maxResults ==> forall i :: 0 <= i < |results| && IsCompanyUrl(results[i]) ==> results[i] in urls
  {
    var kept, i := KeepCompanyUrls(results, maxResults);
    urls := SliceTo(kept, maxResults);
    CollectedUrls(results, maxResults, kept, i);
  }

  /** The loop itself: it reads `results[..i]` and stops early only when
      the limit is reached. */
  method KeepCompanyUrls(results: seq<string>, maxResults: int) returns (kept: seq<string>, i: nat)
    ensures i <= |results| && kept == Unique(Select(results[..i], IsCompanyUrl))
    ensures || (i == |results| && (kept == [] || |kept| < maxResults))
            || |kept| == if maxResults < 1 then 1 else maxResults
  {
    kept := [];
    i := 0;
    while i < |results|
      invariant 0 <= i <= |results|
      invariant kept == Unique(Select(results[..i], IsCompanyUrl))
      invariant kept == [] || |kept| < maxResults
    {
      var url := results[i];
      KeepStep(results, i, kept);
      ghost var next := Unique(Select(results[..i + 1], IsCompanyUrl));
      var added := IsCompanyUrl(url) && url !in kept;
      if added {
        kept := kept + [url];
      }
      assert kept == next;
      i := i + 1;
      if added && |kept| >= maxResults {
        return;
      }
    }
  }

  /** Everything the method promises, from the state the loop leaves. */
  lemma CollectedUrls(results: seq<string>, maxResults: int, kept: seq<string>, i: nat)
    requires i <= |results| && kept == Unique(Select(results[..i], IsCompanyUrl))
    requires || (i == |results| && (kept == [] || |kept| < maxResults))
             || |kept| == if maxResults < 1 then 1 else maxResults
    ensures var urls := SliceTo(kept, maxResults);
            && |urls| <= |CompanyUrls(results)| && urls == CompanyUrls(results)[..|urls|]
            && |urls| == (if maxResults <= 0 then 0
                          else if maxResults < |CompanyUrls(results)| then maxResults
                          else |CompanyUrls(results)|)
            && (forall i :: 0 <= i < |urls| ==> IsCompanyUrl(urls[i]) && urls[i] in results)
            && NoDuplicates(urls)
            && (forall i, j :: 0 <= i < j < |urls| ==> FirstIndex(results, urls[i]) < FirstIndex(results, urls[j]))
            && (|urls| < maxResults ==> forall i :: 0 <= i < |results| && IsCompanyUrl(results[i]) ==> results[i] in urls)
  {
    var urls := SliceTo(kept, maxResults);
    KeptPrefix(results, maxResults, kept, i);
    CompanyUrlsOrder(results, urls);
    if |urls| < maxResults {
      AllCompanyUrlsKept(results, urls);
    }
  }

  /** One more result read: a new company URL is appended, anything else
      leaves the list as it was. */
  lemma KeepStep(results: seq<string>, i: nat, kept: seq<string>)
    requires i < |results| && kept == Unique(Select(results[..i], IsCompanyUrl))
    ensures Unique(Select(results[..i + 1], IsCompanyUrl))
            == if IsCompanyUrl(results[i]) && results[i] !in kept then kept + [results[i]] else kept
  {
    assert results[..i + 1][..i] == results[..i];
  }

  /** The whole of `CompanyUrls` holds every company URL of the results. */
  lemma AllCompanyUrlsKept(results: seq<string>, urls: seq<string>)
    requires |urls| == |CompanyUrls(results)| && urls == CompanyUrls(results)[..|urls|]
    ensures forall i :: 0 <= i < |results| && IsCompanyUrl(results[i]) ==> results[i] in urls
  {
    assert urls == CompanyUrls(results);
    var sel := Select(results, IsCompanyUrl);
    forall i | 0 <= i < |results| && IsCompanyUrl(results[i]) ensures results[i] in urls {
      assert results[i] in sel;
      var j :| 0 <= j < |sel| && sel[j] == results[i];
    }
  }

  /** What the loop has kept after reading `results[..i]`, whether it ran
      out of results or stopped at the limit, sliced to the limit. */
  lemma KeptPrefix(results: seq<string>, maxResults: int, kept: seq<string>, i: nat)
    requires i <= |results| && kept == Unique(Select(results[..i], IsCompanyUrl))
    requires || (i == |results| && (kept == [] || |kept| < maxResults))
             || |kept| == if maxResults < 1 then 1 else maxResults
    ensures var urls := SliceTo(kept, maxResults);
            && |urls| <= |CompanyUrls(results)| && urls == CompanyUrls(results)[..|urls|]
            && |urls| == (if maxResults <= 0 then 0
                          else if maxResults < |CompanyUrls(results)| then maxResults
                          else |CompanyUrls(results)|)
  {
    SelectPrefix(results, IsCompanyUrl, i);
    UniquePrefix(Select(results, IsCompanyUrl), |Select(results[..i], IsCompanyUrl)|);
    if i == |results| {
      assert results[..i] == results;
    }
  }

  /** A prefix of `CompanyUrls` holds company URLs of `results`, each once,
      in the order they first appear there. */
  lemma CompanyUrlsOrder(results: seq<string>, urls: seq<string>)
    requires |urls| <= |CompanyUrls(results)| && urls == CompanyUrls(results)[..|urls|]
    ensures forall i :: 0 <= i < |urls| ==> IsCompanyUrl(urls[i]) && urls[i] in results
    ensures NoDuplicates(urls)
    ensures forall i, j :: 0 <= i < j < |urls| ==> FirstIndex(results, urls[i]) < FirstIndex(results, urls[j])
  {
    var sel := Select(results, IsCompanyUrl);
    var all := CompanyUrls(results);
    forall i, j | 0 <= i < j < |urls|
      ensures FirstIndex(results, urls[i]) < FirstIndex(results, urls[j])
    {
      assert urls[i] == all[i] && urls[j] == all[j];
      SelectKeepsFirstOrder(results, IsCompanyUrl, urls[i], urls[j]);
    }
  }
}
