# mink, modelled in Dafny

mink is a small command-line SEO crawler. It reads start URLs, crawls each
site, and builds one record per page (`PageStats`). A record holds the
page's status, its indexability, its title and meta tags, its size, its word
count, its link counts, its e-mail addresses and its response time. The
records are printed as a boxed table, as tab-separated text or as CSV.

This project models the deterministic core of that crawler:

- `gostrings.dfy` (module `GoStrings`): the parts of Go's `strings` and
  `strconv` packages the core relies on. These are `len` in UTF-8 bytes,
  ASCII `ToLower`, `Contains`, `Split`/`Join`, and `Trim`/`TrimLeft`/`TrimRight`
  with cutset semantics. It also has the strings `Atoi` accepts, `FormatInt`,
  and Go's truncating integer division.
- `web.dfy` (module `Web`): the libraries the crawler calls but does not own.
  - Modelled concretely: the parsed document (its elements in document order),
    goquery's `Attr` (`Web.Attr`: the attribute's value or "") and the
    response headers' `Get` (`Web.HeaderGet`: the first value or "").
  - Passed to the analysis as function values with no behaviour assumed: the
    fields of `Web.Libraries`. These are `parseUrl` (`net/url`), `parseHtml`
    (goquery's parsing of the body), `stripHtml` (bluemonday), `emailMatches`
    (the e-mail regular expression), `statusText` (`http.StatusText`) and
    `isSeparator` (the Unicode tables).
- `emails.dfy` (module `Emails`): `isValidEmail` and `parseEmails` from
  emails.go.
- `stats.go` is modelled in two modules:
  - `stats.dfy` (module `Stats`): the `PageStats` record and the page
    analysers from stats.go. These are the word counter, the robots and
    canonical detectors, the indexability decision, link extraction and
    counting, and meta extraction.
  - `scraping.dfy` (module `Scraping`): the `Scraper` from scraper.go, plus
    `processPage` from stats.go, which assembles a record and stores it in the
    scraper's map.
- `reporting.dfy` (module `Reporting`): report.go. It covers the header, the
  conversion of a record to named text cells, the ordered projection, and the
  table and CSV reporters.
- `cli.dfy` (module `Cli`): main.go's `concurrencyNumber` and `NewReporter`.

Loops in the source are loops here. Each loop method is proved against a
specification function, and the properties are proved about that function.

- `countWords` → `CountWords` / `WordCount`
- `isNoIndex` → `IsNoIndex` / `NoIndexFlag`
- `isRedirect` → `IsRedirect` / `RedirectFlag`
- `extractLinks` → `ExtractLinks` / `LinkCounts`
- `countLinks` → `TallyLinks` / `KeysOfKind`
- `parseEmails` → `ParseEmails` / `FirstOccurrences`
- `mapValues` → `MapValues` / `Project`

`PageStats`, `Scraper`, `TableReporter` and `CsvReporter` are classes, because
the source updates them in place.

## Model

| member | source | states |
|---|---|---|
| Emails.IsValidEmail | emails.go:12-29 | An address is valid when splitting on '.' gives at least two pieces, and the last piece has at least 2 bytes and is not accepted by `Atoi` (stated by the lemmas below) |
| Emails.NoDotRejected | emails.go:12-16 | A string with no '.' is never a valid e-mail address |
| Emails.ValidEmailByEnding | emails.go:12-29 | For an address ending in "." + ending: valid exactly when the ending has at least 2 bytes and `Atoi` rejects it |
| Emails.ShortEndingRejected | emails.go:18-22 | A last segment shorter than 2 bytes makes the address invalid |
| Emails.NumericEndingRejected | emails.go:24-28 | A last segment that `Atoi` accepts makes the address invalid |
| Emails.NumericExample | emails.go:24-28 | "user@host.12" is rejected |
| Emails.PlainExample | emails.go:12-29 | "a@b.co" is accepted |
| Emails.OutOfRangeExample | emails.go:24-28 | A 20-digit ending overflows `Atoi`, so "a@b.99999999999999999999" is accepted |
| Emails.NinesOutOfRange | emails.go:24 | Twenty nines exceed the 64-bit range, so `Atoi` rejects them |
| Emails.ValidEmails | emails.go:35-39 | The filter keeps no more matches than it is given |
| Emails.ValidEmailsMember | emails.go:35-39 | An address survives the filter exactly when it is a match and valid |
| Emails.FirstOccurrences | emails.go:41-53 | The deduplication has no duplicates, holds exactly the input's elements, and is no longer than the input |
| Emails.ParseEmails | emails.go:31-56 | The loop with its nested linear search computes the first-seen deduplication of the valid matches |
| Emails.FirstOccurrencesOrdered | emails.go:41-53 | The deduplication lists elements in the order of their first occurrence |
| Emails.ValidEmailsKeepOrder | emails.go:35-39 | Filtering keeps the relative order of first occurrences of valid matches |
| Emails.ParseEmailsMember | emails.go:31-56 | The output holds e exactly when e is a match and a valid address |
| Emails.ParseEmailsOrdered | emails.go:31-56 | The output lists the addresses in the order of their first match |
| Emails.ValidEmailsOfValid | emails.go:35-39 | Filtering a list of valid addresses changes nothing |
| Emails.FirstOccurrencesOfDistinct | emails.go:41-53 | Deduplicating a duplicate-free list changes nothing |
| Emails.ParseEmailsIdempotent | emails.go:31-56 | Running the filter and deduplication again on its own output gives the same list |
| Stats.PageStats.constructor | stats.go:21-43 | A new record (`&PageStats{}`) has every field at its zero value |
| Stats.PageStats.CountLinks | stats.go:130-144 | Only the four link fields change, each by the total (or the number) of the inbound or outbound keys |
| Stats.TallyLinks | stats.go:131-143 | The loop over the map's keys sums the counts and the keys of each kind, in any iteration order |
| Stats.CountWords | stats.go:50-62 | The rune loop counts the maximal runs of non-separator runes |
| Stats.WordCountBound | stats.go:50-62 | The count never exceeds the rune count, at most every other rune starts a word, and a trailing separator lowers the bound to half the rune count |
| Stats.NoWordsIffAllSeparators | stats.go:50-62 | The count is 0 exactly when every rune is a separator (including the empty string) |
| Stats.WordCountAtSeparator | stats.go:54-55 | A separator splits the text: the count is the sum of the counts on each side |
| Stats.SingleWord | stats.go:56-58 | A non-empty run without separators is one word |
| Stats.HelloWorldExample | stats.go:50-62 | "Hello, world!" has 2 words |
| Stats.SymbolExample | stats.go:54 | '+' is a symbol, not punctuation, so "a+b" is one word |
| Stats.LastWriteDecides | stats.go:66-74 | In an `Each` that overwrites a flag, the last element that sets it decides the result |
| Stats.LastWriteSkips | stats.go:66-74 | Elements that do not set the flag leave it unchanged |
| Stats.IsNoIndex | stats.go:78-88 | The loop computes the value the last robots meta with content gives |
| Stats.NoIndexLastDecides | stats.go:80-85 | For any robots meta with a `content` attribute followed only by elements that set nothing, the flag is whether that content contains "noindex" |
| Stats.NoIndexSkips | stats.go:81-83 | Trailing elements that are not robots metas with content leave the flag as it was |
| Stats.IsRedirect | stats.go:64-76 | The loop computes the value the last canonical link with a parseable href gives |
| Stats.RedirectLastDecides | stats.go:66-73 | The last canonical link with a parseable href decides: its host differs from the page's |
| Stats.RedirectSkipsUnparseable | stats.go:69-71 | A canonical link whose href fails to parse leaves the flag as it was |
| Stats.IndexabilityOf | stats.go:90-109 | The result is one of the two labels. A non-2xx status is Non-Indexable. Otherwise it is Indexable exactly when the header, the robots metas and the canonical links all allow it |
| Stats.Indexibility | stats.go:90-109 | The method returns the indexability decision |
| Stats.RobotsHeaderExample | stats.go:95-98 | A 200 page with X-Robots-Tag "noindex, nofollow" is Non-Indexable |
| Stats.Hrefs | stats.go:113-119 | There is at most one href per element, and every href is lower-cased |
| Stats.Occurrences | stats.go:111-128 | The frequency map's keys are exactly the values listed |
| Stats.OccurrencesAppend | stats.go:120-125 | One more href adds 1 to its count, or inserts it with count 1 |
| Stats.ExtractLinks | stats.go:111-128 | The map filled in place is the frequency map of the lower-cased hrefs of the `<a>` elements |
| Stats.LinkCountsStep | stats.go:113-126 | One more element: a link adds 1 to its lower-cased href's count (inserting it at 1), anything else changes nothing |
| Stats.LinkCountsShape | stats.go:111-128 | Every key is lower-cased and every count is at least 1 |
| Stats.LinkCountsTotal | stats.go:111-128 | The counts sum to the number of `<a>` elements that carry an href |
| Stats.OccurrencesTotal | stats.go:120-125 | The counts of a frequency map sum to the length of the list |
| Stats.ClassifyRule | stats.go:132-142 | A link is unparseable exactly when it fails to parse, outbound exactly when it parses as absolute on another host, and inbound exactly when it parses and is relative or on the same host |
| Stats.KeysOfKindStep | stats.go:131-143 | Visiting one more key adds it to its own kind only, adding its count to that kind's total |
| Stats.CountLinksTotals | stats.go:130-144 | Inbound plus outbound totals (and key counts) equal those of the parseable keys |
| Stats.UnparseableAddsNothing | stats.go:132-135 | A key that fails to parse changes no inbound or outbound figure |
| Stats.CountLinksGrows | stats.go:130-144 | Every kind's total over a document's links is non-negative, so `countLinks` only adds |
| Stats.ExtractMetaDescription | stats.go:146-154 | The description is the content of the last meta whose lower-cased name is "description" |
| Stats.ExtractMetaKeywords | stats.go:156-168 | The keywords are the last keywords meta's content, and the count is the number of comma-separated parts (0 for empty) |
| Stats.KeywordCount | stats.go:163-167 | The count is 0 exactly when the keywords are empty |
| Stats.MetaLastDecides | stats.go:148-152 | The last meta with the lower-cased name decides, and a missing content gives "" |
| Stats.MetaNameExample | stats.go:158 | The name is compared lower-cased: "Keywords" matches |
| Stats.KeywordCountExample | stats.go:163-167 | "go,seo,web" has 3 keywords |
| Stats.TitleText | stats.go:192 | The title is the concatenation of the texts of all title elements, in document order (stated by the three lemmas below) |
| Stats.TitleTextAppend | stats.go:192 | The title of a concatenation of documents is the concatenation of their titles |
| Stats.UntitledIsEmpty | stats.go:192 | A document without a title element has the empty title |
| Stats.SingleTitle | stats.go:192 | With exactly one title element, the title is its text |
| Scraping.TrimProtocol | scraper.go:48-50 | The result is empty, or neither starts nor ends with one of h, t, p, s, ':' or '/' |
| Scraping.TrimProtocolIsSubstring | scraper.go:48-50 | The result is a contiguous substring of the input |
| Scraping.TrimProtocolIdempotent | scraper.go:48-50 | Trimming twice is trimming once |
| Scraping.TrimProtocolShopExample | scraper.go:48-50 | "shop.com" becomes "op.com" |
| Scraping.TrimProtocolSchemeExample | scraper.go:48-50 | "https://example.com" becomes "example.com" |
| Scraping.PrepareAllowedDomain | scraper.go:30-46 | It fails exactly when the https URL fails to parse, with that error. On success there are six entries in order, and the domain is the host without its leading run of 'w' and '.' |
| Scraping.AllowedDomainExample | scraper.go:36-37 | "web.com" gives the domain "eb.com" |
| Scraping.Scraper.GetWebsite | scraper.go:58-63 | The start URL is "https://" or "http://" followed by the website |
| Scraping.GetWebsiteRoundTrip | scraper.go:48-63 | Trimming the start URL gives back a website that has no scheme runes at its ends |
| Scraping.Scraper.Scrape | scraper.go:65-76 | On a preparation error it returns that error and keeps `Website`. Otherwise `Website` loses its scheme runes |
| Scraping.Scraper.ProcessPage | stats.go:170-212 | If the URL or body fails to parse, the map is unchanged. Otherwise a fresh record describing the page replaces the entry for its URL, and no other key changes |
| Scraping.Analyze | stats.go:185-207 | The new record holds every field of the page as the analysers compute it |
| Scraping.RecordPage | stats.go:185-203 | The record's response and document fields are set |
| Scraping.RecordResponse | stats.go:185-203 | Url, Domain, status, content type, `len(Data)`, word count, depth, truncated milliseconds and the ";"-joined e-mails are set |
| Scraping.RecordDocument | stats.go:190-198 | Indexability, title, the title's byte length, the metas, their lengths and the keyword count are set |
| Scraping.RecordLinks | stats.go:205-207 | The link fields count the document's links against the lower-cased host |
| Scraping.Scraper.Report | scraper.go:116-122 | As written, the result has 2·\|stats\| entries: \|stats\| nils first, then each record exactly once |
| Scraping.Scraper.ReportIntended | scraper.go:116-122 | Corrected, the result has each record exactly once and no nil entries |
| Scraping.CountDistinctKeys | scraper.go:118-120 | A duplicate-free listing of the map's keys has one entry per record |
| Reporting.FieldNamesDistinct | stats.go:21-43 | The 21 field names are distinct |
| Reporting.StatHeaders | report.go:59-67 | The header is the 21 field names in declaration order, spelled "Indexibility" |
| Reporting.Render | report.go:24-38 | An int cell is the canonical base-10 text (no '+', no leading zero, no "-0") that reads back to the value, and `Atoi` accepts it in range. A string cell is the string |
| Reporting.IntCellDetermined | report.go:26-27 | Any canonical numeral of an integer is exactly the cell `structToMap` writes for it |
| GoStrings.CanonicalUnique | report.go:26-27 | Two canonical numerals of the same value are the same string |
| Reporting.Fields | report.go:19-23 | There is one value per field name |
| Reporting.Cells | report.go:97-101 | There is one cell per value, each rendered in place |
| Reporting.StructToMap | report.go:17-42 | The keys are exactly the 21 field names, and each holds its field rendered |
| Reporting.RenderUnder | report.go:22-40 | With distinct names, every name maps to its own rendered value |
| Reporting.Project | report.go:44-52 | The projection is no longer than the name list |
| Reporting.MapValues | report.go:44-52 | The loop computes the ordered projection of the map onto the names |
| Reporting.ProjectAppend | report.go:44-52 | The projection keeps order: projecting a concatenation concatenates the projections |
| Reporting.ProjectSkipsAbsent | report.go:47-49 | A name the map lacks contributes nothing, wherever it stands |
| Reporting.ProjectLength | report.go:44-52 | The row has one cell per name present in the map |
| Reporting.ProjectAllPresent | report.go:44-52 | When every name is a key, the row has one cell per name, and cell i is m[fields[i]] |
| Reporting.RowOfRecord | report.go:97-101 | The row of a record has 21 cells and is the rendered fields in header order |
| Reporting.TableReporter.constructor | report.go:69-77 | A new table has the `StatHeaders` header and no rows |
| Reporting.TableReporter.UseTabs | report.go:79-95 | The TSV styling changes only the table's style |
| Reporting.TableReporter.Append | report.go:97-101 | It appends exactly the record's 21-cell row aligned with the header, and keeps the header invariant |
| Reporting.NewTSVReporter | report.go:79-95 | The result is a fresh table with the `StatHeaders` header, no rows and the tab-padded style |
| Reporting.CsvReporter.constructor | report.go:113-120 | The header is written as the first record |
| Reporting.CsvReporter.Append | report.go:122-126 | It writes exactly the record's 21-cell row after the earlier records |
| Cli.ConcurrencyNumber | main.go:67-73 | The concurrency is always at least 1 |
| Cli.ConcurrencyIsShare | main.go:68 | With 1 ≤ depth ≤ CPUs, the concurrency is the quotient CPUs / depth |
| Cli.DeepCrawlIsSequential | main.go:68-71 | A depth greater than the number of CPUs gives 1 |
| Cli.NegativeDepthIsSequential | main.go:68-71 | A negative depth with a non-negative CPU count gives 1 |
| Cli.ConcurrencyBounds | main.go:67-73 | The concurrency never exceeds the CPU count, and it times the depth fits in the CPUs unless it was clamped to 1 |
| Cli.ReporterFor | main.go:23-34 | "csv" selects CSV, "tsv" selects TSV, and exactly everything else (including "table") selects the table |
| Cli.NewReporter | main.go:23-34 | The result is a fresh reporter of the selected kind, holding only the header |

## Left out

- Crawling is not modelled. This covers the colly collector, its callbacks, `Visit`, `Wait`, and the send on the never-initialised `pages` channel in `Scrape`. Only `Scrape`'s domain preparation and error path are modelled. The `url` parameter of `Scrape` is unused in the source.
- Concurrency is not modelled: the `waitGroup`, the `mutex`, and main.go's goroutines, semaphore, report channel and stdin scanning. `processPage` stores its record sequentially.
- `Log` is not modelled. It only writes a log line when `PrintLogs` is set.
- Foreign libraries are function values in `Web.Libraries` with no behaviour assumed:
  - `net/url` parsing, `Hostname` and `IsAbs`
  - goquery's parsing of the body into a document (`parseHtml`)
  - bluemonday's `stripHtml`
  - the e-mail regular expression
  - `http.StatusText`
  - `unicode.IsSpace`/`unicode.IsPunct` (an ASCII table is given only for the worked examples)
- A document is the sequence of its elements in document order. Each element has a tag, its attributes (the first of each name) and its text. goquery's `Find(tag)` is modelled as the elements with that tag, in document order. `Text()` of a selection is the concatenation of their texts (`Stats.TitleText`).
- `Headers.Get` is modelled as `Web.HeaderGet`: the first value stored under the canonical key, or "" when there is none. Header-name canonicalisation is not modelled; callers use canonical keys.
- `PageResponse` carries `Headers`, `Depth` and `Duration` (in nanoseconds), because `processPage` reads them. scraper.go's declaration of `PageResponse` lacks them.
- GoStrings.ToLower: only ASCII letters are mapped. Go's full Unicode case mapping is not modelled.
- Strings are sequences of Unicode scalar values, and `len` is their UTF-8 byte length. Invalid UTF-8 in a body is not modelled.
- Cli.ConcurrencyNumber: a depth of 0 makes Go's integer division panic; the model requires maxDepth != 0.
- Go's `int` is unbounded here, with one exception: `Atoi`'s 64-bit range, which decides `isValidEmail`. Field overflow is not modelled.
- `structToMap` walks the struct with `reflect`. Here that walk is the explicit 21-field list `Reporting.Fields`. The uint, float and `[]byte` branches are left out, since no field has those types.
- Drawing is not modelled: tablewriter's table and the CSV writer's quoting. `Render` and the output stream are left out. The reporters keep the header and rows they were given, plus a style tag for the TSV settings.
- Reporting.TableReporter.Append: a nil record makes Go's `structToMap` panic (report.go:19-20); the model takes only non-nil records.
- Reporting.CsvReporter.Append: a nil record makes Go's `structToMap` panic (report.go:19-20); the model takes only non-nil records.
- Scraping.RecordLinks: it requires the four link fields to be zero, as they are in the new record `processPage` builds. `PageStats.CountLinks` itself adds to any starting values.
- Scraping.Scraper.Report: the map's iteration order is the ghost `order`, an unspecified duplicate-free listing of its keys, as Go leaves it unspecified.
- Three behaviours of the code are easy to misread, and the model follows them:
  - the title is the text of all `<title>` elements, untrimmed;
  - the description and keyword metas are taken from the last matching element, not the first;
  - relative links that parse count as inbound.

## Findings

| source | as written | input that shows it | evidently intended | confidence | as-written member | corrected member |
|---|---|---|---|---|---|---|
| scraper.go:116-122 | `make([]*PageStats, len(s.stats))` and then `append` for every record | any scraper with one stored record: `Report` returns `[nil, record]`, and main.go:90-92 forwards the nil to the reporter's `Append`, where `structToMap` panics | `make([]*PageStats, 0, len(s.stats))`, so the result holds each record once | not executed | Scraping.Scraper.Report | Scraping.Scraper.ReportIntended |
