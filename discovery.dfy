/**
 * The link filter and order-preserving de-duplication of
 * `extract_homepage_article_urls`. Parsing the HTML and resolving URLs are
 * library calls: the `href` values of the page's anchors arrive as a
 * sequence, and resolving a stripped `href` against the base URL
 * (`urljoin` followed by `urlparse`) as a function.
 */
module Discovery {
  import opened Wrappers
  import opened Text

  /** The six components `urlparse` splits a URL into. */
  datatype Url = Url(scheme: string, netloc: string, path: string, params: string, query: string, fragment: string)

  /** The hosts whose links are kept. */
  const BbcHosts: set<string> := {"www.bbc.com", "bbc.com"}

  predicate IsBbcHost(netloc: string) {
    Lower(netloc) in BbcHosts
  }

  /** `^/news(/|/articles/)` matched at the start of the path. */
  predicate IsNewsPath(path: string) {
    StartsWith(path, "/news/") || StartsWith(path, "/news/articles/")
  }

  /** The second alternative of the path pattern adds nothing: a news path is one under `/news/`. */
  lemma NewsPathIsNewsPrefix(path: string)
    ensures IsNewsPath(path) <==> StartsWith(path, "/news/")
  {
    if StartsWith(path, "/news/articles/") {
      assert path[..6] == path[..15][..6];
    }
  }

  /**
   * `geturl`: the components joined back into one string, for a URL that has
   * a network location.
   */
  function Unparse(u: Url): string {
    (if u.scheme == "" then "" else u.scheme + ":") + "//" + u.netloc + u.path
    + (if u.params == "" then "" else ";" + u.params)
    + (if u.query == "" then "" else "?" + u.query)
    + (if u.fragment == "" then "" else "#" + u.fragment)
  }

  /**
   * What one anchor contributes: nothing for a blank `href`, a foreign host
   * or a path outside `/news/`; otherwise its resolved URL without the
   * fragment.
   */
  function Candidate(href: string, resolve: string -> Url): Option<string> {
    var h := Strip(href);
    if h == "" then None
    else
      var u := resolve(h);
      if !IsBbcHost(u.netloc) || !IsNewsPath(u.path) then None
      else Some(Unparse(u.(fragment := "")))
  }

  /** The `found` list: the contributions of the anchors, in page order. */
  function Candidates(hrefs: seq<string>, resolve: string -> Url): seq<string> {
    if hrefs == [] then []
    else
      var rest := Candidates(hrefs[..|hrefs| - 1], resolve);
      match Candidate(hrefs[|hrefs| - 1], resolve)
      case None => rest
      case Some(u) => rest + [u]
  }

  /** `s` with every element after its first occurrence removed. */
  function Dedup(s: seq<string>): seq<string> {
    if s == [] then []
    else
      var prefix := s[..|s| - 1];
      var d := Dedup(prefix);
      if s[|s| - 1] in prefix then d else d + [s[|s| - 1]]
  }

  /** The links `extract_homepage_article_urls` returns. */
  function ArticleUrls(hrefs: seq<string>, resolve: string -> Url): seq<string> {
    Dedup(Candidates(hrefs, resolve))
  }

  /**
   * `extract_homepage_article_urls`: the filter loop fills `found`, then the
   * loop over `found` keeps each URL the `seen` set has not yet met.
   */
  method ExtractArticleUrls(hrefs: seq<string>, resolve: string -> Url) returns (out: seq<string>)
    ensures out == ArticleUrls(hrefs, resolve)
  {
    var found: seq<string> := [];
    for i := 0 to |hrefs|
      invariant found == Candidates(hrefs[..i], resolve)
    {
      CandidatesStep(hrefs, i, resolve);
      var href := Strip(hrefs[i]);
      if href != "" {
        var parsed := resolve(href);
        if IsBbcHost(parsed.netloc) && IsNewsPath(parsed.path) {
          found := found + [Unparse(parsed.(fragment := ""))];
        }
      }
    }
    assert hrefs[..|hrefs|] == hrefs;
    var seen: set<string> := {};
    out := [];
    for i := 0 to |found|
      invariant out == Dedup(found[..i])
      invariant forall u :: u in seen <==> u in out
    {
      assert found[..i + 1] == found[..i] + [found[i]];
      DedupSnoc(found[..i], found[i]);
      DedupElements(found[..i]);
      var u := found[i];
      if u !in seen {
        seen := seen + {u};
        out := out + [u];
      }
    }
    assert found[..|found|] == found;
  }

  // ---------------------------------------------------------------------
  // De-duplication
  // ---------------------------------------------------------------------

  predicate NoDuplicates(s: seq<string>) {
    forall i, j :: 0 <= i < j < |s| ==> s[i] != s[j]
  }

  /** The position of the first occurrence of `x` in `s`. */
  function FirstIndex(s: seq<string>, x: string): (k: nat)
    requires x in s
    ensures k < |s| && s[k] == x && x !in s[..k]
  {
    if s[0] == x then 0
    else
      var k := FirstIndex(s[1..], x);
      assert s[..k + 1] == [s[0]] + s[1..][..k];
      k + 1
  }

  /** Dropping the last element keeps the first occurrences of what remains. */
  lemma FirstIndexOfPrefix(s: seq<string>, x: string)
    requires s != [] && x in s[..|s| - 1]
    ensures FirstIndex(s, x) == FirstIndex(s[..|s| - 1], x)
  {
    assert s[FirstIndex(s[..|s| - 1], x)] == x;
  }

  /** An element met only at the end first occurs there. */
  lemma FirstIndexOfLast(s: seq<string>)
    requires s != [] && s[|s| - 1] !in s[..|s| - 1]
    ensures FirstIndex(s, s[|s| - 1]) == |s| - 1
  {
  }

  /** One step of `Candidates`. */
  lemma CandidatesStep(hrefs: seq<string>, i: nat, resolve: string -> Url)
    requires i < |hrefs|
    ensures Candidates(hrefs[..i + 1], resolve)
      == Candidates(hrefs[..i], resolve) + (match Candidate(hrefs[i], resolve) case None => [] case Some(u) => [u])
  {
    assert hrefs[..i + 1][..i] == hrefs[..i];
  }

  /** One step of `Dedup`. */
  lemma DedupSnoc(s: seq<string>, x: string)
    ensures Dedup(s + [x]) == if x in s then Dedup(s) else Dedup(s) + [x]
  {
    assert (s + [x])[..|s|] == s;
  }

  /** Every element occurs once in the de-duplicated sequence. */
  lemma {:induction false} DedupNoDuplicates(s: seq<string>)
    ensures NoDuplicates(Dedup(s))
  {
    if s != [] {
      var prefix := s[..|s| - 1];
      DedupNoDuplicates(prefix);
      DedupElements(prefix);
    }
  }

  /** De-duplication keeps exactly the elements of `s`. */
  lemma {:induction false} DedupElements(s: seq<string>)
    ensures forall x :: x in Dedup(s) <==> x in s
  {
    if s != [] {
      var prefix := s[..|s| - 1];
      DedupElements(prefix);
      assert s == prefix + [s[|s| - 1]];
    }
  }

  /** `d` lists elements of `s` in the order of their first occurrence in `s`. */
  predicate InFirstOccurrenceOrder(d: seq<string>, s: seq<string>) {
    forall i, j :: 0 <= i < j < |d| ==> d[i] in s && d[j] in s && FirstIndex(s, d[i]) < FirstIndex(s, d[j])
  }

  /** The de-duplicated sequence lists the elements in the order of their first occurrence in `s`. */
  lemma {:induction false} DedupFirstOccurrenceOrder(s: seq<string>)
    ensures InFirstOccurrenceOrder(Dedup(s), s)
  {
    if s != [] {
      var prefix := s[..|s| - 1];
      var last := s[|s| - 1];
      var d, dp := Dedup(s), Dedup(prefix);
      DedupFirstOccurrenceOrder(prefix);
      DedupElements(prefix);
      assert s == prefix + [last];
      forall i, j | 0 <= i < j < |d|
        ensures d[i] in s && d[j] in s && FirstIndex(s, d[i]) < FirstIndex(s, d[j])
      {
        assert d[i] == dp[i] && d[i] in prefix;
        FirstIndexOfPrefix(s, d[i]);
        if j < |dp| {
          assert d[j] == dp[j] && d[j] in prefix;
          FirstIndexOfPrefix(s, d[j]);
        } else {
          FirstIndexOfLast(s);
        }
      }
    }
  }

  // ---------------------------------------------------------------------
  // The filter
  // ---------------------------------------------------------------------

  /** A URL the filter accepts: a BBC host, a path under `/news/`, no fragment. */
  ghost predicate IsAllowed(u: string) {
    exists url: Url :: IsBbcHost(url.netloc) && StartsWith(url.path, "/news/") && url.fragment == "" && u == Unparse(url)
  }

  /** Some anchor of `hrefs` contributes `u`. */
  predicate Contributes(hrefs: seq<string>, resolve: string -> Url, u: string) {
    exists i :: 0 <= i < |hrefs| && Candidate(hrefs[i], resolve) == Some(u)
  }

  /** The candidates are exactly the contributions of the anchors. */
  lemma {:induction false} CandidatesKept(hrefs: seq<string>, resolve: string -> Url)
    ensures forall u :: u in Candidates(hrefs, resolve) <==> Contributes(hrefs, resolve, u)
  {
    if hrefs != [] {
      var n := |hrefs| - 1;
      CandidatesKept(hrefs[..n], resolve);
      forall u
        ensures u in Candidates(hrefs, resolve) <==> Contributes(hrefs, resolve, u)
      {
        ContributesSnoc(hrefs, resolve, u);
      }
    }
  }

  /** The contributions of a non-empty list: those of all but the last anchor, and the last one's. */
  lemma ContributesSnoc(hrefs: seq<string>, resolve: string -> Url, u: string)
    requires hrefs != []
    ensures Contributes(hrefs, resolve, u)
      <==> Contributes(hrefs[..|hrefs| - 1], resolve, u) || Candidate(hrefs[|hrefs| - 1], resolve) == Some(u)
  {
    var f := h => Candidate(h, resolve);
    var prefix := hrefs[..|hrefs| - 1];
    HitsSnoc(f, hrefs, u);
    assert Contributes(hrefs, resolve, u) <==> Hits(f, hrefs, u);
    assert Contributes(prefix, resolve, u) <==> Hits(f, prefix, u);
  }

  /** Some element of `xs` is mapped by `f` to `u`. */
  predicate Hits(f: string -> Option<string>, xs: seq<string>, u: string) {
    exists i :: 0 <= i < |xs| && f(xs[i]) == Some(u)
  }

  /** `Hits` on a non-empty list, split at its last element. */
  lemma HitsSnoc(f: string -> Option<string>, xs: seq<string>, u: string)
    requires xs != []
    ensures Hits(f, xs, u) <==> Hits(f, xs[..|xs| - 1], u) || f(xs[|xs| - 1]) == Some(u)
  {
    var prefix := xs[..|xs| - 1];
    if f(xs[|prefix|]) == Some(u) {
      assert Hits(f, xs, u);
    }
    if Hits(f, prefix, u) {
      var i :| 0 <= i < |prefix| && f(prefix[i]) == Some(u);
      assert xs[i] == prefix[i];
    }
    if Hits(f, xs, u) {
      var i :| 0 <= i < |xs| && f(xs[i]) == Some(u);
      if i < |prefix| {
        assert prefix[i] == xs[i];
        assert Hits(f, prefix, u);
      }
    }
  }

  /** Every contribution is an allowed URL. */
  lemma CandidateAllowed(href: string, resolve: string -> Url)
    ensures Candidate(href, resolve).Some? ==> IsAllowed(Candidate(href, resolve).value)
  {
    var h := Strip(href);
    if Candidate(href, resolve).Some? {
      var u := resolve(h);
      NewsPathIsNewsPrefix(u.path);
      var v := u.(fragment := "");
      assert IsBbcHost(v.netloc) && StartsWith(v.path, "/news/") && v.fragment == "";
    }
  }

  /**
   * What `extract_homepage_article_urls` promises: no URL twice, the order of
   * first occurrence among the kept links, exactly the URLs some anchor
   * contributes, and only allowed URLs.
   */
  lemma ArticleUrlsSpec(hrefs: seq<string>, resolve: string -> Url)
    ensures var out := ArticleUrls(hrefs, resolve);
      && NoDuplicates(out)
      && InFirstOccurrenceOrder(out, Candidates(hrefs, resolve))
      && (forall u :: u in out <==> Contributes(hrefs, resolve, u))
      && (forall u :: u in out ==> IsAllowed(u))
  {
    var found := Candidates(hrefs, resolve);
    DedupNoDuplicates(found);
    DedupFirstOccurrenceOrder(found);
    DedupElements(found);
    CandidatesKept(hrefs, resolve);
    forall u | u in ArticleUrls(hrefs, resolve)
      ensures IsAllowed(u)
    {
      assert Contributes(hrefs, resolve, u);
      var i :| 0 <= i < |hrefs| && Candidate(hrefs[i], resolve) == Some(u);
      CandidateAllowed(hrefs[i], resolve);
    }
  }
}
