# BBC news pipeline core, modelled in Dafny

The pipeline fetches the BBC homepage. It collects the article links on that page and keeps the first `limit` of them. It skips the links already in its SQLite table. It fetches each remaining article and picks its title, raw publication time and first long paragraph. It then normalizes the publication time to a UTC ISO-8601 string and upserts the rows in one batch. Finally it lists the newest stored articles.

This project models that core from `src/bbc_pipeline/pipeline.py`. Each piece follows the form of its source:

- `wrappers.dfy`: `Option` and `Result`.
- `text.dfy`: the Python `str` operations the code relies on:
  - `strip`, with Python's whitespace set;
  - `lower`, on the code points that matter here;
  - `startswith`, `endswith`, `in`, `replace`;
  - decimal digits.
- `timestamp.dfy`: `parse_published_to_iso` as a pure function.
  - Instants are whole seconds since 1970-01-01T00:00:00Z.
  - Python's range runs from year 1 to year 9999.
  - `fromisoformat` and `isoformat` are library code. They are the fields of a `Calendar` value.
  - The relative-time pattern is matched code point by code point, with Python's case-insensitive equivalences.
- `normalize_laws.dfy`: what the normalizer promises, proved on that function.
- `discovery.dfy`: `extract_homepage_article_urls`.
  - The filter loop and the de-duplication loop are a method.
  - That method is proved against `Dedup(Candidates(..))`.
  - Resolving an `href` (`urljoin` then `urlparse`) is a function parameter.
- `extraction.dfy`: the selection rules of `extract_article_fields` over the page's elements in document order. The paragraph loop with its `break` is a method.
- `store.dfy`: the table as a class whose `table` field maps each URL to its record.
  - `get_existing_urls` and `upsert_rows` (a loop with a counter) are methods.
  - The `print_newest` query is a function.
- `fetch.dfy`: the attempt loop of `safe_get_html`. Each request's outcome is an oracle.
- `pipeline.dfy`: `main` from the homepage fetch to the upsert.
  - It is a method over the store, proved against `Outcome` and `StoredAfter`.
  - The network, the HTML parser, URL resolution and the clock are fields of an `Env` value.

## Model

| member | source | states |
|---|---|---|
| Timestamp.Normalize | src/bbc_pipeline/pipeline.py:95-141 | empty input gives `""`; any other result is the UTC rendering of a representable instant |
| Timestamp.ToUtc | src/bbc_pipeline/pipeline.py:106-110 | `astimezone(utc)` succeeds exactly when the wall clock minus the offset (the host's offset for a naive value) is within year 1..9999, and then gives that instant |
| Timestamp.ParsedToIso | src/bbc_pipeline/pipeline.py:105-110 | a successful parse-and-convert renders a representable instant |
| Timestamp.IsoBranch | src/bbc_pipeline/pipeline.py:103-112 | the two ISO rules share one `try`; a result from them is the rendering of a representable instant |
| Timestamp.AnchorInstant | src/bbc_pipeline/pipeline.py:120-126 | an unparsable `run_ts` anchors at `now`; a naive one at its wall clock read as UTC; an aware one (with `Z` read as `+00:00`) at its wall clock minus its offset; either falls back to `now` outside year 1..9999; the anchor is representable whenever `now` is |
| Timestamp.MatchRelative | src/bbc_pipeline/pipeline.py:115-118 | `REL_RE.match` gives a unit group that is one of the pattern's unit words, matched case-insensitively |
| Timestamp.NormalizeAsWritten | src/bbc_pipeline/pipeline.py:95-141 | the function as written raises only on non-empty text that no ISO rule takes and that the relative pattern matches |
| Timestamp.UnitSecondsOfWord | src/bbc_pipeline/pipeline.py:128-135 | the substring tests give 60, 3600, 86400 and 604800 seconds for the minute, hour, day and week words |
| Timestamp.MatchRelativePhrase | src/bbc_pipeline/pipeline.py:17 | the relative pattern matches a count, gap, unit, gap and `ago` surrounded by whitespace; its groups are the count's value and the unit word as written |
| Timestamp.PhraseIsNotIso | src/bbc_pipeline/pipeline.py:103-110 | a relative phrase is taken by neither ISO rule |
| Timestamp.PhraseGroups | src/bbc_pipeline/pipeline.py:100-118 | a stripped relative phrase reaches the relative rule with the expected count and unit |
| Timestamp.ZuluNotRelative | src/bbc_pipeline/pipeline.py:17 | text ending in `Z` never matches the relative pattern |
| Timestamp.LowerMatched | src/bbc_pipeline/pipeline.py:118 | an ASCII unit word matched case-insensitively lowers to the pattern's word |
| NormalizeLaws.RelativePhrase | src/bbc_pipeline/pipeline.py:115-139 | `N unit ago` with surrounding whitespace normalizes to the anchor minus N times the unit's length in seconds, or `""` outside the range; the as-written form raises there |
| NormalizeLaws.UnknownUnitPhrase | src/bbc_pipeline/pipeline.py:136-137 | a matched unit whose lower case contains no unit name yields `""` |
| NormalizeLaws.DotlessUnitIsUnknown | src/bbc_pipeline/pipeline.py:115-137 | `5 mınutes ago` (dotless ı) matches the pattern but yields `""` |
| NormalizeLaws.CorrectionAbsorbsOverflow | src/bbc_pipeline/pipeline.py:128-139 | the corrected normalizer equals the as-written one wherever the latter returns, and is `""` where it raises |
| NormalizeLaws.OverflowEscapes | src/bbc_pipeline/pipeline.py:128-135 | `10000000 days ago` raises OverflowError as written and yields `""` corrected |
| NormalizeLaws.NormalizeOfMatch | src/bbc_pipeline/pipeline.py:115-139 | once only the relative rule matches, the result is the anchor minus count times seconds, or `""`/OverflowError outside the range |
| NormalizeLaws.BlankIsEmpty | src/bbc_pipeline/pipeline.py:97-100 | whitespace-only input yields `""` |
| NormalizeLaws.NoRuleTaken | src/bbc_pipeline/pipeline.py:141 | when no ISO rule and no relative match applies, the result is `""` |
| NormalizeLaws.NoRuleIsEmpty | src/bbc_pipeline/pipeline.py:103-141 | text without digits, `T` or `Z` yields `""` |
| NormalizeLaws.GarbageIsEmpty | src/bbc_pipeline/pipeline.py:141 | `garbage text` yields `""` |
| NormalizeLaws.IsoRuleTaken | src/bbc_pipeline/pipeline.py:103-110 | a result of an ISO rule is the normalized value |
| NormalizeLaws.ZuluRendered | src/bbc_pipeline/pipeline.py:104-106 | text ending in `Z` that parses with `+00:00` is rendered as the UTC instant it denotes |
| NormalizeLaws.ZuluUnparsedIsEmpty | src/bbc_pipeline/pipeline.py:104-141 | text ending in `Z` that fails to parse yields `""`: the offset rule is skipped and the relative rule cannot match |
| NormalizeLaws.OffsetRendered | src/bbc_pipeline/pipeline.py:108-110 | text with `T` and `+` that parses as aware is rendered as the UTC instant it denotes |
| NormalizeLaws.ZuluOfDate | src/bbc_pipeline/pipeline.py:104-106 | a date-time plus `Z` normalizes to the rendering of the instant parsed from the date-time plus `+00:00` |
| NormalizeLaws.ZuluTestScenario | tests/test_parser.py:19-20 | `2026-02-25T04:32:30Z` normalizes to the UTC rendering of that instant, which starts with `2026-02-25T04:32:30` when the printer writes the UTC wall clock first |
| NormalizeLaws.NormalizeIdempotent | src/bbc_pipeline/pipeline.py:95-141 | with a printer whose output the parser reads back, normalizing a normalized value changes nothing |
| NormalizeLaws.PrintedNormalizes | src/bbc_pipeline/pipeline.py:108-110 | the rendering of a representable instant normalizes to itself |
| NormalizeLaws.AnchorOfPrintedRunTs | src/bbc_pipeline/pipeline.py:120-124 | a run timestamp from `isoformat` anchors relative phrases at its own instant |
| Discovery.ExtractArticleUrls | src/bbc_pipeline/pipeline.py:37-65 | the filter loop and the `seen`-set loop return `Dedup(Candidates(hrefs))` |
| Discovery.NewsPathIsNewsPrefix | src/bbc_pipeline/pipeline.py:16 | the path pattern, `/news` followed by `/` or by `/articles/`, accepts exactly the paths starting with `/news/` |
| Discovery.DedupNoDuplicates | src/bbc_pipeline/pipeline.py:58-65 | the de-duplicated list has no URL twice |
| Discovery.DedupElements | src/bbc_pipeline/pipeline.py:58-65 | de-duplication keeps exactly the URLs of its input |
| Discovery.DedupFirstOccurrenceOrder | src/bbc_pipeline/pipeline.py:58-65 | the de-duplicated list follows the order of first occurrence |
| Discovery.CandidatesKept | src/bbc_pipeline/pipeline.py:42-56 | `found` holds exactly the URLs some anchor contributes |
| Discovery.CandidateAllowed | src/bbc_pipeline/pipeline.py:43-55 | a contributed URL has a host in `BBC_HOSTS` after lower-casing, a path under `/news/` and no fragment |
| Discovery.ArticleUrlsSpec | src/bbc_pipeline/pipeline.py:37-65 | the result has no duplicates, keeps first-occurrence order, holds exactly the kept candidates, and holds only allowed URLs |
| Discovery.FirstIndex | src/bbc_pipeline/pipeline.py:58-65 | the first position of a URL holds it, and no earlier position does |
| Extraction.ExtractArticleFields | src/bbc_pipeline/pipeline.py:68-92 | the returned fields are the URL, the title rule, the raw-time rule and the first long paragraph; the loop stops at the first paragraph over 60 code points |
| Extraction.FindFirst | src/bbc_pipeline/pipeline.py:72-75 | `soup.find` gives the first element with the tag, and no earlier element has it |
| Extraction.TextsOf | src/bbc_pipeline/pipeline.py:81 | `find_all("p")` gives exactly the texts of the paragraph elements |
| Extraction.ParagraphStep | src/bbc_pipeline/pipeline.py:80-85 | the loop takes the first element when it is a paragraph over 60 code points, and otherwise goes on with the rest of the page |
| Extraction.FirstParagraphRule | src/bbc_pipeline/pipeline.py:80-85 | in document order, the first paragraph over 60 code points is the one chosen, and `""` is chosen when there is none |
| Extraction.ExtractedParagraph | src/bbc_pipeline/pipeline.py:68-92 | the extracted `first_paragraph` is the first paragraph element over 60 code points in document order, or `""` |
| Extraction.FirstLongRule | src/bbc_pipeline/pipeline.py:79-85 | the first paragraph is `""` exactly when no paragraph is over 60 code points; otherwise it is the first one that is |
| Extraction.TitleRule | src/bbc_pipeline/pipeline.py:72-73 | the title is the first `h1`'s text, or `""` without one |
| Extraction.PublishedRawRule | src/bbc_pipeline/pipeline.py:75-78 | the raw time is stripped; it comes from a non-empty `datetime` attribute, and from the element's text otherwise |
| Extraction.NoTimeElement | src/bbc_pipeline/pipeline.py:76-78 | without a `time` element the raw time is `""` |
| Extraction.ExtractionTestScenario | tests/test_parser.py:3-16 | the test page gives title `Test Title`, raw time `2026-02-25T04:32:30Z`, and a first paragraph whose lower case contains `long paragraph` |
| Store.ToRecord | src/bbc_pipeline/pipeline.py:177-189 | each column takes the row's value under its name, and `""` when the row lacks it |
| Store.ArticleStore.constructor | src/bbc_pipeline/pipeline.py:144-158 | a new table is empty |
| Store.ArticleStore.GetExistingUrls | src/bbc_pipeline/pipeline.py:161-167 | the result is exactly the URLs in the table |
| Store.ArticleStore.UpsertRows | src/bbc_pipeline/pipeline.py:170-195 | no rows leave the table as it was; otherwise each row in turn replaces the record under its URL; the count returned is the number of rows |
| Store.UpsertKeyed | src/bbc_pipeline/pipeline.py:177-179 | every record stays under its own URL, the primary key |
| Store.UpsertKeys | src/bbc_pipeline/pipeline.py:176-191 | after the upsert the table holds exactly its old URLs and the rows' URLs |
| Store.LastWriteWins | src/bbc_pipeline/pipeline.py:176-191 | of several rows with one URL, the last one is stored |
| Store.OtherKeysUnchanged | src/bbc_pipeline/pipeline.py:176-191 | a URL no row carries keeps its record, or its absence |
| Store.TextLeTotal | src/bbc_pipeline/pipeline.py:203 | text order compares any two strings |
| Store.TextLeTransitive | src/bbc_pipeline/pipeline.py:203 | text order is transitive |
| Store.TextLeAntisymmetric | src/bbc_pipeline/pipeline.py:203 | text order is antisymmetric |
| Store.Latest | src/bbc_pipeline/pipeline.py:203 | a non-empty set of URLs has one with the greatest `published_iso` |
| Store.NewestLength | src/bbc_pipeline/pipeline.py:199-205 | the query answers `n` rows, or every dated row when fewer are dated |
| Store.NewestDistinctDated | src/bbc_pipeline/pipeline.py:199-205 | the answer holds distinct URLs of the table with a non-empty `published_iso` |
| Store.NewestDescending | src/bbc_pipeline/pipeline.py:203 | the answer is in descending `published_iso` order |
| Store.NewestOutranks | src/bbc_pipeline/pipeline.py:203-204 | every dated row left out is no more recent than any row in the answer |
| Store.NewestStep | src/bbc_pipeline/pipeline.py:203-204 | the query's first URL has the greatest `published_iso` among those it picks from, and the rest are picked from the others |
| Store.NewestOfLength | src/bbc_pipeline/pipeline.py:203-204 | picking from a pool answers `n` URLs, or the whole pool when it is smaller |
| Store.NewestOfDistinct | src/bbc_pipeline/pipeline.py:203-204 | picking from a pool answers distinct URLs of that pool |
| Store.NewestOfDescending | src/bbc_pipeline/pipeline.py:203 | picking from a pool answers URLs in descending `published_iso` order |
| Store.NewestOfOutranks | src/bbc_pipeline/pipeline.py:203-204 | no URL of the pool left out is more recent than a URL in the answer |
| Fetch.FirstSuccess | src/bbc_pipeline/pipeline.py:23-28 | the attempt that returns is a success, and every earlier attempt failed |
| Fetch.SafeGetHtml | src/bbc_pipeline/pipeline.py:20-34 | at most `retries + 1` requests are made (none for negative `retries`); on success the count is the first success's number and the text is its response, every earlier request having failed; on failure all `retries + 1` requests failed and the result is `None`; each failed attempt before a further one is followed by a pause of `backoff` times its number |
| Pipeline.Take | src/bbc_pipeline/pipeline.py:239 | the truncated links are the first `limit` links, or all of them when there are fewer |
| Pipeline.Run | src/bbc_pipeline/pipeline.py:234-266 | the report and the new table are `Outcome` and `StoredAfter` of the old table |
| Pipeline.AbortWritesNothing | src/bbc_pipeline/pipeline.py:234-237 | a failed or empty homepage fetch ends the run with nothing written |
| Pipeline.NotStoredConcat | src/bbc_pipeline/pipeline.py:243 | the comprehension filters piece by piece and keeps the links' order |
| Pipeline.NotStoredSingle | src/bbc_pipeline/pipeline.py:243 | one link is kept exactly when it is not stored |
| Pipeline.NotStoredSpec | src/bbc_pipeline/pipeline.py:242-243 | the links to fetch are exactly the links not stored, no longer than the links, and distinct when the links are |
| Pipeline.CountsAddUp | src/bbc_pipeline/pipeline.py:246-264 | every link to fetch counts once, as a buffered row or as a failure |
| Pipeline.EnrichRow | src/bbc_pipeline/pipeline.py:250-262 | a row built for a URL has all six columns, that URL, the run timestamp, and the normalized form of its raw time |
| Pipeline.RowsCarryRun | src/bbc_pipeline/pipeline.py:246-264 | each buffered row has all six columns, the run timestamp, and the normalized form of its raw time, and comes from a link to fetch |
| Pipeline.RowsDistinct | src/bbc_pipeline/pipeline.py:246-264 | when the links to fetch are distinct, so are the URLs of the buffered rows |
| Pipeline.RunReportSpec | src/bbc_pipeline/pipeline.py:239-266 | a completed run has at most `limit` distinct links; `ok + fail` is the number to fetch; there are `ok` rows, all upserted; every row belongs to the run |
| Pipeline.RunStoresNewArticles | src/bbc_pipeline/pipeline.py:242-266 | a run never replaces a stored article, and each buffered row ends up stored under its URL |
| Text.Strip | src/bbc_pipeline/pipeline.py:100 | `str.strip()` leaves no whitespace at either end |
| Text.StripChars | src/bbc_pipeline/pipeline.py:100 | `str.strip()` removes characters and adds none |
| Text.LowerConcat | src/bbc_pipeline/pipeline.py:118 | `str.lower()` works code point by code point |
| Text.ReplaceAllConcat | src/bbc_pipeline/pipeline.py:105 | `str.replace` works piece by piece |
| Text.ReplaceAllAbsent | src/bbc_pipeline/pipeline.py:105 | `str.replace` of a code point the text lacks returns the text unchanged |

## Left out

- HTTP requests, headers, timeouts, `raise_for_status`, the pauses and all logging are left out. Each request is an outcome in an oracle. The pauses of `safe_get_html` come back as a list.
- The pause after each enriched article (line 264) is left out.
- The listing printed by `print_newest` is left out. Its query is `Store.Newest`.
- HTML parsing is left out. A homepage is given as the `href` of each anchor that has one. An article page is given as its elements in document order, each with its `get_text(" ", strip=True)` text and optional `datetime` attribute.
- `urljoin` and `urlparse` are left out. They are a parameter `resolve` that returns the six URL components.
- Discovery.Unparse: `geturl` is modelled as the usual join of scheme, `//`, host, path, parameters, query and fragment. It assumes a network location; the filter only keeps URLs with a BBC host, so one is always present.
- Opening, committing and closing the database are left out. So are the DDL and column types. `init_db` on an existing file keeps the table as it is; the constructor models a new file only.
- A negative `--limit-links` slices from the end in Python. A negative `LIMIT` means no limit in SQLite. Both are out of the model: `limit` and `n` are natural numbers.
- Argument parsing is left out. Run settings are fields of `Env`.
- `datetime.now` is left out. It is the parameter `now`.
- Timestamp.Normalize: `fromisoformat` and `isoformat` are parameters.
  - The calendar arithmetic, microseconds and the parser's accepted formats are therefore not modelled.
  - The host time zone for a naive value (line 110) is a constant offset.
- Timestamp.Normalize: `\d` is modelled as ASCII digits. Python also accepts other Unicode decimal digits.
- Timestamp.Normalize: `int()` refuses more than 4300 digits with ValueError, which would escape. This limit is not modelled.
- Text.Lower handles ASCII letters, the Kelvin sign and dotted capital I. Every other code point is kept as it is. Its real lower case never affects a comparison with the ASCII unit names and host names used here.
- NormalizeLaws.ZuluTestScenario: the test checks that the result starts with `2026-02-25T04:32:30`. The printer is a parameter, so this is proved for any printer that writes the UTC wall clock first.
- Only the direction "phrase ⇒ match" of the relative pattern is proved (`MatchRelativePhrase`). The converse appears only as `ZuluNotRelative` and `NoRuleIsEmpty`.
- Pipeline.Run uses the corrected normalizer. As written, an OverflowError escapes from the article loop and ends `main` before the upsert; see Findings.

## Findings

| source | as written | input that shows it | evidently intended | confidence | as-written member | corrected member |
|---|---|---|---|---|---|---|
| src/bbc_pipeline/pipeline.py:128-135 | the subtraction of the relative rule is outside any `try`; a result before year 1 raises OverflowError out of `parse_published_to_iso`, and out of `main` before the upsert | published text `10000000 days ago` | an unrepresentable relative time normalizes to `""`, like every other input no rule handles | not executed | NormalizeLaws.OverflowEscapes | Timestamp.Normalize |
