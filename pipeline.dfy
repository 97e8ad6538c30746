/**
 * One run of `main`: fetch the homepage, discover article links, keep the
 * first `limit` of them, skip those already stored, enrich each remaining
 * one, and upsert the enriched rows in one batch.
 */
module Pipeline {
  import opened Wrappers
  import opened Text
  import opened Timestamp
  import opened Discovery
  import opened Extraction
  import opened Store
  import opened Fetch

  /**
   * What a run depends on besides the store: the network as per-request
   * outcomes, the HTML parser, URL resolution, the run's settings and the
   * clock.
   */
  datatype Env = Env(
    homeGet: nat -> Option<string>,          // outcomes of the homepage requests
    articleGet: string -> nat -> Option<string>, // outcomes of the requests for one article URL
    anchors: string -> seq<string>,          // the `href` of each anchor of a homepage
    resolve: string -> Url,                  // `urlparse(urljoin(base, href))`
    parsePage: string -> seq<Element>,       // the elements of an article page
    limit: nat,                              // `--limit-links`
    retries: int,                            // `--retries`
    cal: Calendar,
    now: int)                                // the clock when the run starts

  /** The summary a completed run reports. */
  datatype RunReport = RunReport(links: seq<string>, toFetch: seq<string>, rows: seq<map<string, string>>, ok: nat, fail: nat, upserted: nat)

  /** `run_ts_utc`: the start of the run, printed as an aware UTC instant. */
  function RunTs(env: Env): string {
    env.cal.toIso(env.now)
  }

  /** `s[:n]`. */
  function Take(s: seq<string>, n: nat): (r: seq<string>)
    ensures |r| == if |s| <= n then |s| else n
    ensures |s| <= n ==> r == s
    ensures forall i :: 0 <= i < |r| ==> r[i] == s[i]
  {
    if |s| <= n then s else s[..n]
  }

  /** The links of `links` not in `existing`, in their order (the `to_fetch` comprehension). */
  function NotStored(links: seq<string>, existing: set<string>): seq<string> {
    if links == [] then []
    else
      var rest := NotStored(links[..|links| - 1], existing);
      if links[|links| - 1] in existing then rest else rest + [links[|links| - 1]]
  }

  /** The row a fetched article page becomes, run timestamp and normalized time added. */
  function ArticleRow(fields: ArticleFields, runTs: string, iso: string): map<string, string> {
    map["url" := fields.url, "title" := fields.title, "published_raw" := fields.publishedRaw,
      "first_paragraph" := fields.firstParagraph, "run_ts_utc" := runTs, "published_iso" := iso]
  }

  /** The row one article URL yields, or `None` when its fetch fails or returns empty text. */
  function Enrich(env: Env, url: string): Option<map<string, string>> {
    match Fetched(env.articleGet(url), env.retries)
    case None => None
    case Some(html) =>
      if html == "" then None
      else
        var fields := Extracted(env.parsePage(html), url);
        Some(ArticleRow(fields, RunTs(env), Normalize(fields.publishedRaw, RunTs(env), env.cal, env.now)))
  }

  /** The rows the enrichment loop buffers for `urls`, in order. */
  function RowsOf(env: Env, urls: seq<string>): seq<map<string, string>> {
    if urls == [] then []
    else
      var rest := RowsOf(env, urls[..|urls| - 1]);
      match Enrich(env, urls[|urls| - 1])
      case None => rest
      case Some(row) => rest + [row]
  }

  /** The number of `urls` whose enrichment fails. */
  function Failures(env: Env, urls: seq<string>): nat {
    if urls == [] then 0
    else Failures(env, urls[..|urls| - 1]) + (if Enrich(env, urls[|urls| - 1]).None? then 1 else 0)
  }

  /** One step of the enrichment loop. */
  lemma RowsStep(env: Env, urls: seq<string>, i: nat)
    requires i < |urls|
    ensures RowsOf(env, urls[..i + 1]) == RowsOf(env, urls[..i]) + match Enrich(env, urls[i]) case None => [] case Some(row) => [row]
    ensures Failures(env, urls[..i + 1]) == Failures(env, urls[..i]) + if Enrich(env, urls[i]).None? then 1 else 0
  {
    assert urls[..i + 1][..i] == urls[..i];
  }

  /** What enriching one URL yields, by the outcome of its fetch. */
  lemma EnrichStep(env: Env, url: string)
    ensures var html := Fetched(env.articleGet(url), env.retries);
      if html.None? || html.value == "" then Enrich(env, url).None?
      else
        var fields := Extracted(env.parsePage(html.value), url);
        Enrich(env, url) == Some(ArticleRow(fields, RunTs(env), Normalize(fields.publishedRaw, RunTs(env), env.cal, env.now)))
  {
  }

  /**
   * The report of a run on a store holding `table`: none when the homepage
   * cannot be fetched or is empty, otherwise what the loop produced.
   */
  function Outcome(env: Env, table: map<string, Record>): Option<RunReport> {
    match Fetched(env.homeGet, env.retries)
    case None => None
    case Some(home) =>
      if home == "" then None
      else
        var links := Take(ArticleUrls(env.anchors(home), env.resolve), env.limit);
        var toFetch := NotStored(links, table.Keys);
        var rows := RowsOf(env, toFetch);
        Some(RunReport(links, toFetch, rows, |rows|, Failures(env, toFetch), |rows|))
  }

  /** The table after a run on `table`. */
  function StoredAfter(env: Env, table: map<string, Record>): map<string, Record> {
    match Outcome(env, table)
    case None => table
    case Some(report) => UpsertAll(table, report.rows)
  }

  /**
   * `main` from the homepage fetch to the upsert. Creating the table,
   * reading the arguments, logging, the pause after each article and the
   * final listing are not part of the model.
   */
  method Run(env: Env, store: ArticleStore) returns (report: Option<RunReport>)
    requires store.Valid()
    modifies store
    ensures store.Valid()
    ensures report == Outcome(env, old(store.table))
    ensures store.table == StoredAfter(env, old(store.table))
  {
    var runTs := RunTs(env);
    var homeHtml, _, _ := SafeGetHtml(env.homeGet, env.retries, DefaultBackoff);
    if homeHtml.None? || homeHtml.value == "" {
      return None;
    }
    var found := ExtractArticleUrls(env.anchors(homeHtml.value), env.resolve);
    var links := Take(found, env.limit);
    var existing := store.GetExistingUrls();
    assert existing == store.table.Keys;
    var toFetch := NotStored(links, existing);

    var rowsOut: seq<map<string, string>> := [];
    var ok, fail := 0, 0;
    for i := 0 to |toFetch|
      invariant rowsOut == RowsOf(env, toFetch[..i])
      invariant ok == |rowsOut| && fail == Failures(env, toFetch[..i])
      invariant store.table == old(store.table)
    {
      RowsStep(env, toFetch, i);
      var url := toFetch[i];
      var html, _, _ := SafeGetHtml(env.articleGet(url), env.retries, DefaultBackoff);
      EnrichStep(env, url);
      if html.None? || html.value == "" {
        fail := fail + 1;
      } else {
        var data := ExtractArticleFields(env.parsePage(html.value), url);
        var iso := Normalize(data.publishedRaw, runTs, env.cal, env.now);
        rowsOut := rowsOut + [ArticleRow(data, runTs, iso)];
        ok := ok + 1;
      }
    }
    assert toFetch[..|toFetch|] == toFetch;

    var inserted := store.UpsertRows(rowsOut);
    report := Some(RunReport(links, toFetch, rowsOut, ok, fail, inserted));
  }

  // ---------------------------------------------------------------------
  // Properties of a run
  // ---------------------------------------------------------------------

  /** A homepage that cannot be fetched, or is empty, ends the run before anything is written. */
  lemma AbortWritesNothing(env: Env, table: map<string, Record>)
    requires Fetched(env.homeGet, env.retries).None? || Fetched(env.homeGet, env.retries) == Some("")
    ensures Outcome(env, table).None? && StoredAfter(env, table) == table
  {
  }

  /** The links to fetch are exactly the links the store lacks, each once if the links are distinct. */
  lemma {:induction false} NotStoredSpec(links: seq<string>, existing: set<string>)
    ensures |NotStored(links, existing)| <= |links|
    ensures forall u :: u in NotStored(links, existing) <==> u in links && u !in existing
    ensures NoDuplicates(links) ==> NoDuplicates(NotStored(links, existing))
  {
    if links != [] {
      var prefix := links[..|links| - 1];
      NotStoredSpec(prefix, existing);
      assert links == prefix + [links[|links| - 1]];
      if NoDuplicates(links) {
        assert NoDuplicates(prefix);
        assert links[|links| - 1] !in prefix;
      }
    }
  }

  /** The comprehension keeps the links' order: filtering two pieces is filtering their concatenation. */
  lemma {:induction false} NotStoredConcat(a: seq<string>, b: seq<string>, existing: set<string>)
    ensures NotStored(a + b, existing) == NotStored(a, existing) + NotStored(b, existing)
    decreases |b|
  {
    if b == [] {
      assert a + b == a;
    } else {
      var init := b[..|b| - 1];
      NotStoredConcat(a, init, existing);
      assert (a + b)[..|a + b| - 1] == a + init;
      assert (a + b)[|a + b| - 1] == b[|b| - 1];
    }
  }

  /** One link is kept exactly when the store lacks it. */
  lemma NotStoredSingle(u: string, existing: set<string>)
    ensures NotStored([u], existing) == if u in existing then [] else [u]
  {
    assert [u][..0] == [];
  }

  /** Every link to fetch is counted once: as a buffered row or as a failure. */
  lemma {:induction false} CountsAddUp(env: Env, urls: seq<string>)
    ensures |RowsOf(env, urls)| + Failures(env, urls) == |urls|
  {
    if urls != [] {
      CountsAddUp(env, urls[..|urls| - 1]);
    }
  }

  /** A buffered row carries all six columns and belongs to the run. */
  predicate RowOfRun(env: Env, row: map<string, string>) {
    Columns <= row.Keys
    && row["run_ts_utc"] == RunTs(env)
    && row["published_iso"] == Normalize(row["published_raw"], RunTs(env), env.cal, env.now)
  }

  /** A row built for `url` carries the run's timestamp, the normalized raw time and `url` itself. */
  lemma EnrichRow(env: Env, url: string)
    ensures Enrich(env, url).Some? ==> RowOfRun(env, Enrich(env, url).value) && Get(Enrich(env, url).value, "url") == url
  {
    var html := Fetched(env.articleGet(url), env.retries);
    if html.Some? && html.value != "" {
      var fields := Extracted(env.parsePage(html.value), url);
      var row := ArticleRow(fields, RunTs(env), Normalize(fields.publishedRaw, RunTs(env), env.cal, env.now));
      assert Enrich(env, url) == Some(row);
      assert row["url"] == url && row["published_raw"] == fields.publishedRaw;
    }
  }

  /**
   * Every buffered row carries the run timestamp and the normalized form of
   * its raw time, and comes from one of the URLs.
   */
  lemma {:induction false} RowsCarryRun(env: Env, urls: seq<string>)
    ensures forall k :: 0 <= k < |RowsOf(env, urls)| ==> RowOfRun(env, RowsOf(env, urls)[k]) && Get(RowsOf(env, urls)[k], "url") in urls
  {
    if urls != [] {
      var prefix := urls[..|urls| - 1];
      var last := urls[|urls| - 1];
      RowsCarryRun(env, prefix);
      EnrichRow(env, last);
      assert forall u :: u in prefix ==> u in urls;
    }
  }

  /** Distinct URLs give rows with distinct URLs, in the URLs' order. */
  lemma {:induction false} RowsDistinct(env: Env, urls: seq<string>)
    requires NoDuplicates(urls)
    ensures forall k, l :: 0 <= k < l < |RowsOf(env, urls)| ==> Get(RowsOf(env, urls)[k], "url") != Get(RowsOf(env, urls)[l], "url")
  {
    if urls != [] {
      var prefix := urls[..|urls| - 1];
      var last := urls[|urls| - 1];
      assert urls == prefix + [last];
      assert NoDuplicates(prefix);
      assert last !in prefix;
      RowsDistinct(env, prefix);
      RowsCarryRun(env, prefix);
      EnrichRow(env, last);
    }
  }

  /**
   * What a completed run reports: at most `limit` distinct links, the links
   * to fetch being exactly those the store lacked; each counted once as a
   * success or a failure; as many rows as successes, all upserted.
   */
  lemma RunReportSpec(env: Env, table: map<string, Record>)
    requires Outcome(env, table).Some?
    ensures var r := Outcome(env, table).value;
      && |r.links| <= env.limit && NoDuplicates(r.links)
      && (forall u :: u in r.toFetch <==> u in r.links && u !in table)
      && NoDuplicates(r.toFetch)
      && r.ok + r.fail == |r.toFetch|
      && |r.rows| == r.ok == r.upserted
      && forall k :: 0 <= k < |r.rows| ==> RowOfRun(env, r.rows[k])
  {
    var home := Fetched(env.homeGet, env.retries).value;
    var found := ArticleUrls(env.anchors(home), env.resolve);
    var r := Outcome(env, table).value;
    ArticleUrlsSpec(env.anchors(home), env.resolve);
    assert NoDuplicates(r.links);
    NotStoredSpec(r.links, table.Keys);
    CountsAddUp(env, r.toFetch);
    RowsCarryRun(env, r.toFetch);
  }

  /**
   * A run never replaces an article the store already held, and leaves every
   * buffered row stored under its URL.
   */
  lemma RunStoresNewArticles(env: Env, table: map<string, Record>)
    ensures forall u :: u in table ==> u in StoredAfter(env, table) && StoredAfter(env, table)[u] == table[u]
    ensures Outcome(env, table).Some? ==> var rows := Outcome(env, table).value.rows;
      forall k :: 0 <= k < |rows| ==>
        Get(rows[k], "url") in StoredAfter(env, table) && StoredAfter(env, table)[Get(rows[k], "url")] == ToRecord(rows[k])
  {
    if Outcome(env, table).Some? {
      var r := Outcome(env, table).value;
      RunReportSpec(env, table);
      RowsCarryRun(env, r.toFetch);
      RowsDistinct(env, r.toFetch);
      forall u | u in table
        ensures u in StoredAfter(env, table) && StoredAfter(env, table)[u] == table[u]
      {
        forall j | 0 <= j < |r.rows|
          ensures Get(r.rows[j], "url") != u
        {
          assert Get(r.rows[j], "url") in r.toFetch;
        }
        OtherKeysUnchanged(table, r.rows, u);
      }
      forall k | 0 <= k < |r.rows|
        ensures Get(r.rows[k], "url") in StoredAfter(env, table) && StoredAfter(env, table)[Get(r.rows[k], "url")] == ToRecord(r.rows[k])
      {
        LastWriteWins(table, r.rows, k);
      }
    }
  }
}
