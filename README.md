# Culture-event crawler core, modelled in Dafny

This project models the normalisation and identity pipeline of the Korean
culture-event crawler `crawl_events.py`. For each listing the crawler:

- pulls text out of a detail page with CSS selectors (`text_of`);
- turns the free-text period into ISO start and end dates (`parse_period`);
- canonicalises the price into "무료" (free), `<digits>원`, or the stripped
  raw text (`parse_price`);
- maps the category onto a fixed four-label taxonomy (`normalize_category`);
- derives a stable identifier from title, start date, place and source
  (`make_id`);
- assembles the canonical `Event` record and drops listings that start
  before a `--since` cutoff (`crawl_source`).

`main` splits `--sources`, crawls each known source, emits its events and
reports a running count.

The libraries the code calls are parameters of the model, so every property
holds whatever they return:

- the regular-expression search (`re.search`, its groups);
- the date parser (`dateutil.parser.parse` followed by `.date()`);
- SHA-1 (`hashlib.sha1(...).hexdigest()`);
- the HTML document (`soup.select_one(sel).get_text(" ", strip=True)`, as
  a function from selector to optional text).

The UTC clock reading is a parameter as well. Fetching a page is modelled by
its outcome: a document, or nothing when the fetch failed.

Modules, one per concern:

- `Wrappers`: `Option`.
- `Strings`: Python's string primitives as used here. They cover `isspace`,
  `split()` and `" ".join`, `strip`, `re.sub(r"\s+", "", …)`, `in`, ASCII
  `lower`, `<` on strings, and `split(",")`.
- `Dates`: calendar dates and `isoformat`.
- `Identity`: `make_id`.
- `Extract`: `text_of`.
- `Period`: `parse_period`.
- `Price`: `parse_price`.
- `Category`: `normalize_category`.
- `Crawler`: `Event` and `crawl_source`.
- `Cli`: `main`.

One test disagrees with the code. tests/test_utils.py:10 expects
`normalize_category("특별전 안내", None)` to be "전시". The code returns
`None`, because "특별전 안내" contains none of the keywords: "특별전" is not
"전시". The model follows the code.

## Model

| member | source | states |
|---|---|---|
| Extract.TextOf | crawl_events.py:29-35 | no text exactly when the selector is absent or empty or nothing matches; otherwise the element's text with whitespace runs collapsed to single spaces and trimmed, keeping exactly the same words, and collapsing again changes nothing |
| Strings.Collapse | crawl_events.py:35 | `" ".join(s.split())` has no leading, trailing or doubled whitespace, only plain spaces, and splits into the same words as `s` |
| Strings.CollapseFixedPoints | crawl_events.py:35 | a text is left unchanged by collapsing if and only if it is already collapsed |
| Strings.CollapseIdempotent | crawl_events.py:35 | collapsing twice is collapsing once |
| Strings.WordsOfJoin | crawl_events.py:35 | joining whitespace-free words with single spaces and splitting again gives the words back |
| Identity.Key | crawl_events.py:26 | the hashed key is title, start, place and source joined with `|`, an absent start or place contributing the empty string |
| Identity.MakeId | crawl_events.py:25-27 | the identifier is the SHA-1 digest of those four fields joined with `|` |
| Identity.AbsentIsEmpty | crawl_events.py:26-27 | an absent start or place gives the same identifier as an empty one |
| Identity.KeyRoundTrip | crawl_events.py:26 | when no field contains `|`, splitting the key at `|` gives back the four fields |
| Identity.KeyInjective | crawl_events.py:25-27 | when no field contains `|`, equal keys mean equal title, start, place and source, so only a SHA-1 collision can merge two distinct events |
| Identity.DelimiterInFieldCollides | crawl_events.py:26 | fields that contain `|` can give the same key and identifier for different events ("a|" with place "b" and "a" with place "|b") |
| Period.PatternDates | crawl_events.py:41-48 | a pattern yields dates exactly when it matches with exactly two groups that are both present and both parse, and then the dates are the parses of the two groups; no match, or a match with another number of groups, yields nothing |
| Period.FirstPatternDates | crawl_events.py:40-50 | the patterns are tried in order and the first whose match has exactly two groups that both parse gives the dates; the result is empty exactly when no pattern does |
| Period.FirstUsableExists | crawl_events.py:40-48 | when any pattern yields dates, a first such pattern exists, so the first-usable clause of `ParsePeriod` is never vacuous while some pattern matches |
| Period.ParsePeriod | crawl_events.py:37-55 | empty or absent text gives no dates; start and end are both present or both absent; the first usable pattern decides; when no pattern is usable, the whole text parsed as one date gives that date as start and end, else no dates |
| Period.LaterPatternsIgnored | crawl_events.py:40-48 | once some pattern in a list yields dates, appending more patterns changes nothing |
| Period.SkippedPattern | crawl_events.py:41-50 | a pattern that does not match, matches with a group count other than two, or whose groups fail to parse is passed over as if absent |
| Dates.IsoOrder | crawl_events.py:46-52 | `isoformat` strings compare as strings exactly as the dates compare in time, and are equal exactly when the dates are |
| Price.FindAmount | crawl_events.py:63 | the scan finds the leftmost position where `(\d[\d, ]*)\s*원` matches text without whitespace, with the end of its group, or reports that there is none |
| Price.AmountEndsAtRunEnd | crawl_events.py:63 | a match's group always extends to the end of the digit-and-comma run that follows its first digit |
| Strings.RemoveWhitespace | crawl_events.py:60 | the result has no whitespace, keeps every other character, is no longer than the input, and leaves whitespace-free text unchanged |
| Strings.RemoveWhitespaceAppend | crawl_events.py:60 | removing whitespace distributes over concatenation, so order and repetitions are kept |
| Strings.RemoveWhitespaceChar | crawl_events.py:60 | a single character is kept exactly when it is not whitespace |
| Price.DropCommas | crawl_events.py:65 | the result has no comma, keeps every other character, is no longer than the input, and leaves comma-free text unchanged |
| Price.DropCommasAppend | crawl_events.py:65 | dropping commas distributes over concatenation, so order and repetitions are kept |
| Price.DropCommasChar | crawl_events.py:65 | a single character is kept exactly when it is not a comma |
| Price.AmountDigits | crawl_events.py:63-65 | a matched amount without its commas, followed by 원, is one or more digits followed by 원 |
| Price.ParsePrice | crawl_events.py:57-66 | empty or absent input gives nothing; "무료" anywhere in the whitespace-free text wins, even when amounts are present; otherwise the leftmost amount without commas followed by 원; otherwise the raw text stripped |
| Strings.Strip | crawl_events.py:66 | `strip()` leaves no whitespace at either end and removes only whitespace, from the two ends |
| Price.PriceForms | crawl_events.py:57-66 | every result is nothing, "무료", digits followed by 원, or the stripped raw text |
| Category.Classify | crawl_events.py:70-77 | a label comes out exactly when some keyword list from the given rule on occurs, and it is the label of the first such rule |
| Category.NormalizeCategory | crawl_events.py:68-78 | the label of the first keyword list with a member in the lowercased "raw category + space + title"; the raw category unchanged when no list matches |
| Category.ExhibitionFirst | crawl_events.py:70-71 | an exhibition keyword wins over every other list |
| Category.CategoryRange | crawl_events.py:68-78 | the result is one of the four labels or the raw category |
| Category.LabelMeansRule | crawl_events.py:68-78 | the result is the label of rule n if and only if rule n is the first matching rule |
| Category.CategoryIdempotent | crawl_events.py:68-78 | normalising again with the result as raw category gives the same result |
| Category.KeywordFacts | crawl_events.py:70-77 | keywords hold no spaces, each label is a keyword of its own list, and no label contains a keyword of an earlier list |
| Strings.Lower | crawl_events.py:69 | lowercasing keeps the length and lowers each character in place |
| Strings.LowerAppend | crawl_events.py:69 | lowercasing distributes over concatenation |
| Crawler.Selector | crawl_events.py:162-166 | `sel.get(field)` gives the adapter's selector for the field, and nothing exactly when the adapter has none |
| Strings.LexLess | crawl_events.py:168 | string `<` is strict: a string never sorts before itself |
| Crawler.Dropped | crawl_events.py:168 | an item is dropped only when both the cutoff and the start date are present and they differ; an empty or absent cutoff or start date never drops it |
| Crawler.ExtractItem | crawl_events.py:161-184 | the item is dropped exactly when the cutoff and the start date are both non-empty and the start sorts before the cutoff; a kept event carries the source name, the URL, the clock reading plus "Z", the extracted title ("" when there is none), an identifier that hashes title, start, place and source, start and end dates that are both present or both absent, and the normalised price and category |
| Crawler.RecencyIsChronological | crawl_events.py:168-169 | with an ISO cutoff the string comparison drops exactly the items starting on an earlier day; an item starting on the cutoff day is kept, and one without a start date is never dropped |
| Crawler.LinkEvents | crawl_events.py:197-226 | a link contributes one event exactly when its detail page was fetched and the item is not dropped, and that event is the item built from its own page by the per-item step |
| Crawler.LinksEvents | crawl_events.py:196-226 | a page's links give exactly as many events as they have kept items, each satisfying the per-item guarantees |
| Crawler.LinksEventsComplete | crawl_events.py:196-226 | every kept link's event is among the page's events |
| Crawler.LinksEventsSound | crawl_events.py:196-226 | every event of the page is the event of one of its kept links |
| Crawler.PagesEvents | crawl_events.py:188-226 | over all pages, exactly as many events as kept items on fetched pages, each satisfying the per-item guarantees; a page whose fetch failed contributes nothing |
| Crawler.PagesEventsComplete | crawl_events.py:188-226 | every kept link of every fetched list page yields its event |
| Crawler.PagesEventsSound | crawl_events.py:188-226 | every event of the paged branch is the event of a kept link of a fetched list page |
| Crawler.SourceEvents | crawl_events.py:155-226 | every returned event satisfies the per-item guarantees; the demo source returns its one item exactly when it is not dropped, built by the per-item step at the fixed demo URL; other sources return one event per kept item |
| Crawler.CrawlLinks | crawl_events.py:196-226 | the inner loop returns exactly the events of the page's links, in link order |
| Crawler.CrawlSource | crawl_events.py:155-226 | the crawl returns exactly the events of the demo page, or of every fetched page's links in page and link order |
| Crawler.PagesAsWritten | crawl_events.py:188-195 | as written, the paged branch raises exactly when some list page is fetched, with `KeyError` when the adapter has no `list_item_selector` and `TypeError` otherwise, and returns no events when no page is fetched |
| Crawler.SelctTypoLosesItems | crawl_events.py:195 | one fetched list page with one fetched item: as written the crawl raises, while the corrected crawl returns the item |
| Strings.SplitOn | crawl_events.py:236 | `split(",")` gives at least one piece, and no piece contains a comma |
| Cli.StrippedNames | crawl_events.py:236 | the names kept are non-empty and have no whitespace at either end |
| Cli.StrippedNamesAppend | crawl_events.py:236 | the list comprehension works part by part: it distributes over concatenation, keeping order |
| Cli.StrippedNamesOne | crawl_events.py:236 | one part gives its stripped form, or nothing when that is empty |
| Cli.StrippedNamesComplete | crawl_events.py:236 | every part that is not blank gives its stripped form as a name |
| Cli.RequestedSources | crawl_events.py:236 | each requested name is non-empty, has no comma and no whitespace at either end |
| Cli.RequestedSourcesComplete | crawl_events.py:236 | every comma-separated piece of the argument that is not blank is requested, stripped |
| Cli.RequestedSourcesRoundTrip | crawl_events.py:236 | a list of such names joined with commas is read back unchanged |
| Cli.KnownSources | crawl_events.py:236-239 | only names that have an adapter are crawled, at most one source per requested name |
| Cli.KnownSourcesMembers | crawl_events.py:236-239 | a name is crawled exactly when it is requested and has an adapter |
| Cli.KnownSourcesAppend | crawl_events.py:236-239 | the filter distributes over concatenation, so the crawled names keep request order |
| Cli.Collect | crawl_events.py:235-244 | emits the events of every known requested source in order; after each source it reports the running number of events, the last report being the number of events emitted |
| Cli.CollectNames | crawl_events.py:237-244 | the same, for the already-split list of names |
| Cli.CountsAt | crawl_events.py:243 | the count for a source is the number of events it yields |
| Cli.EmittedCount | crawl_events.py:240-244 | the number of emitted events is the sum of the per-source counts |
| Cli.CollectAsWritten | crawl_events.py:235-244 | as written, the events are emitted as intended but each report is the running sum of the squared per-source counts |
| Cli.CollectNamesAsWritten | crawl_events.py:237-244 | the same, for the already-split list of names |
| Cli.SquaredTotalsAgree | crawl_events.py:243 | the reports as written equal the intended ones if and only if no source yields more than one event |
| Cli.SquaredTotalExample | crawl_events.py:243 | one known source with two events: as written the report is 4, intended 2 |

## Left out

- Crawler.PagesAsWritten: a list page that itself contains a `<selct>` element is not modelled; there the search would find that tag, calling it would return no links, and nothing would be raised.
- Fetching pages (`fetch_html`, `requests`, encodings, timeouts) is not modelled. A fetch is represented by its outcome: a document, or nothing when it raised.
- HTML parsing and CSS selection (BeautifulSoup, `select_one`, `get_text`) are not modelled. The document is a function from selector to the element's text.
- Link discovery on a list page (the `href` filter and `urljoin`) is not modelled. The crawl is given each page's links as resolved URLs with their fetched detail pages.
- The regular-expression engine behind `parse_period`'s adapter patterns is not modelled, and neither is `re.error` for a malformed pattern. The search is a parameter returning the groups of the first match.
- The date parser is not modelled and is treated as deterministic. `dateutil` fills missing fields from today's date, which the model does not see. Dates check only the ranges of year, month and day, not the day count of each month.
- SHA-1 is a parameter. Nothing is assumed about it beyond being a function.
- The adapter table `ADAPTERS` and its demo HTML are not modelled. An adapter appears as its detail selectors and date patterns; the demo detail page is a parameter. Whether an adapter has a `list_item_selector` key is a parameter of `Crawler.PagesAsWritten`.
- `datetime.utcnow()` is a parameter: the clock reading of each item as ISO text to the second.
- `argparse` is not modelled: `--sources` arrives as its string, whose splitting is modelled (`Cli.RequestedSources`), and `--since` as an optional string. NDJSON serialisation and the printing of warnings and of `# collected=` lines are not modelled; the reports are returned as numbers.
- Cli.CollectAsWritten: the crawl of a source is a function that always returns its events. An exception escaping `crawl_source` (as the paged branch raises at crawl_events.py:195) ends `main` at line 240, and this is not modelled.
- `--pages` is not modelled directly: the crawl receives one entry per page number.
- Price.IsDigit: `\d` is taken as ASCII digits only; Python also matches other Unicode decimal digits.
- Strings.Lower: `lower()` is modelled for ASCII letters only; other cased characters (for example KELVIN SIGN) are left unchanged.
- Strings.LexLess: string `<` is modelled as code-point order, which is what Python compares.
- The concrete test vectors of tests/test_utils.py are not restated as lemmas.
- tests/test_utils.py:14-18 expects an end date that differs from its own input, so it is not a property of `parse_period`.
- The storage and report functions the tests import (`ensure_db`, `upsert_events`) and the throttling helpers (`parse_delay`, `throttle`) are not part of this model.

## Findings

| source | as written | input that shows it | evidently intended | confidence | as-written member | corrected member |
|---|---|---|---|---|---|---|
| crawl_events.py:195 | the link list is built with `lsoup.selct(...)`. BeautifulSoup reads the unknown attribute as a search for a `<selct>` tag, which gives `None`. The argument `conf["list_item_selector"]` then raises `KeyError` for an adapter without that key (city_a spells it `list_items_selector`, line 85); otherwise calling `None` raises `TypeError` (city_b, line 101). Line 204 would next call the selector dict, `sel("period")`, and raise `TypeError` | any non-demo source whose first list page is fetched: one page with one fetched item, no cutoff (`Crawler.SelctTypoLosesItems`) | `lsoup.select(...)` and `sel.get("period")`, as in the demo branch, so each fetched item becomes an event | high, not executed | Crawler.PagesAsWritten | Crawler.CrawlSource |
| crawl_events.py:243 | `total += len(items)` runs once per emitted event, so a source with n events adds n·n to the total | one known source yielding two events reports 4 instead of 2 (`Cli.SquaredTotalExample`) | one added per event, so the report counts the events collected | high, not executed | Cli.CollectAsWritten | Cli.Collect |
