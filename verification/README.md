# ai-marketplace-monitor: MySQL comparison, Ollama backend, Craigslist monitor, zip loader

A Dafny model of the core of ai-marketplace-monitor. It covers four parts.

- **MySQL comparison engine** (`mysql_compare.py`), modules `Extract`, `Compare` and `Upsert`:
  - the text extractors: asking price, beds/baths/year, the table-name guard, zip code, city/state;
  - the resolution of a listing's location to zip, county and region;
  - the sales-comps search over those tiers;
  - the custom and built-in comparison queries;
  - the summary text and `fetch_comparison`, which decides which of these run;
  - the `insert_fb_listing` upsert.
- **Ollama backend** (`ai_ollama_mysql.py`), module `OllamaMySql`:
  - reading the `mysql` block;
  - when the backend builds a `MySQLCompare`;
  - the prompt decoration;
  - the ` | DB: ` suffix that `evaluate` adds to the AI comment.
- **Craigslist monitor** (`craigslist_monitor`), modules `Scraper`, `Telegram` and `Monitor`:
  - the RSS search URL, with `urllib.parse.quote`;
  - mapping feed entries to listings;
  - the Telegram message;
  - `run_once`: load the seen ids, fetch, dedupe, notify or log, save;
  - the capped `save_seen` and the pause between passes.
- **Zip loader** (`zip.py`), module `ZipLoader`:
  - the state filter and `str.zfill`;
  - the `zip_county` upsert pass;
  - the de-duplicated refill of `city_zip`.

## Modelling choices

Anything outside the program is a parameter:

- A database query is an oracle from query to `Outcome` (rows, or `Raised` for an exception).
- The feed request and parser is an oracle from URL to entries.
- Telegram delivery is a boolean oracle.
- An opened connection or a committed write is a boolean.
- The state file is the value reading it yields.

Other choices:

- A Python exception is the `Raised` case of `Outcome`.
- `re.search` is `Text.Leftmost`: the first position where a hand-written matcher succeeds. For the beds, baths and zip patterns, a lemma shows that the matcher agrees with the regular expression read literally.
- Character classes (`\d`, `\s`, `\w`, `isalpha`, `lower`, `upper`) are their ASCII versions.

Some behaviours of the code are easy to misread. The model keeps them as written:

- The price concatenates every digit of the text, so a range "$30,000 - $32,000" reads as 3000032000 (`Extract.PriceOfRange`).
- The sales comps make one pass over the zip, county and region tiers and stop at the first tier with rows.
- `_safe_table` uses `re.match` with `$`, so a name followed by one newline passes. `Extract.SafeTable` keeps that.
- `insert_fb_listing` stores the zip resolved by `_resolve_location` when there is one. Both extractions use the same regular expression, so it is the zip of the stripped location either way.

## Model

All sources below are paths under the repository root:
`src/ai_marketplace_monitor/` for the comparison engine and the backend, `craigslist-monitor/craigslist_monitor/` for the monitor.

| member | source | states |
|---|---|---|
| Extract.ParsePrice | src/ai_marketplace_monitor/mysql_compare.py:82-90 | No price for the empty text or `**unspecified**`. Otherwise a price exactly when the text left after dropping everything but digits and dots has at most one dot and at least one digit (what `float()` accepts). The price is never negative, and it is the decimal that cleaned text spells (`Extract.ParsePriceReading`). |
| Extract.CleanPrice | src/ai_marketplace_monitor/mysql_compare.py:86 | Only digits and dots are left, and the text never grows. A text made only of digits and dots is unchanged. |
| Extract.CleanPriceAppend | src/ai_marketplace_monitor/mysql_compare.py:86 | The cleaning works character by character: cleaning a concatenation is concatenating the cleanings. |
| Extract.ParseDecimal | src/ai_marketplace_monitor/mysql_compare.py:87-90 | `float()` on digits and dots succeeds exactly on the decimal shape. Without a dot the value is the digits read as a whole number. |
| Extract.ParseDecimalReading | src/ai_marketplace_monitor/mysql_compare.py:87-88 | What `float()` accepts it reads as the decimal its digits spell. With a dot, the value is the digits before it plus the digits after it divided by ten to their count. Without one, it is the digits read as a whole number. |
| Extract.ParsePriceReading | src/ai_marketplace_monitor/mysql_compare.py:86-88 | A parsed price is the decimal that the cleaned text spells. |
| Extract.PriceConcatenatesDigits | src/ai_marketplace_monitor/mysql_compare.py:84-88 | A price text with digits and no dot parses to all of its digits read as one number. |
| Extract.PriceOfRange | src/ai_marketplace_monitor/mysql_compare.py:84-88 | A range "$A - $B" parses to A's digits followed by B's (A·10^len(B) + B), not to A. |
| Extract.PriceOfDigits | src/ai_marketplace_monitor/mysql_compare.py:82-90 | A dollar sign followed by a digit run parses to that number. |
| Extract.PriceRoundTrip | src/ai_marketplace_monitor/mysql_compare.py:82-90 | Writing a whole number in decimal after "$" and parsing it gives the number back. |
| Extract.PriceAfterDollar | src/ai_marketplace_monitor/mysql_compare.py:84-88 | After a dollar sign, a text of digits and dots is read whole by `float()`: the sign is dropped and nothing else. |
| Extract.PriceWithCents | src/ai_marketplace_monitor/mysql_compare.py:82-90 | A price "$A.C" parses to A plus C read as the fraction after the point, so "$12.50" is 12.5 and not 0. |
| Extract.Hundredths | src/ai_marketplace_monitor/mysql_compare.py:88 | With two digits after the point, the fraction is that number of hundredths. |
| Extract.BedsAt | src/ai_marketplace_monitor/mysql_compare.py:98-99 | A beds match at a position gives a non-empty all-digit group after which `(\d+)\s*bed` can complete there. |
| Extract.BedsAtMatchesRegex | src/ai_marketplace_monitor/mysql_compare.py:99-104 | The beds matcher succeeds at a position exactly when `(\d+)\s*bed` can match there. The group it gives is the only digit group the expression can capture. |
| Extract.BedsRegexGroup | src/ai_marketplace_monitor/mysql_compare.py:99 | In a match of `(\d+)\s*bed`, the group ends where the digit run ends and the spaces end where the space run ends. The greedy group is therefore unique. |
| Extract.BathsAt | src/ai_marketplace_monitor/mysql_compare.py:105-110 | A baths match at a position is `float()` of a decimal group after which `(\d+(?:\.\d+)?)\s*bath` can complete there. |
| Extract.BathsAtMatchesRegex | src/ai_marketplace_monitor/mysql_compare.py:105-110 | The baths matcher succeeds at a position exactly when `(\d+(?:\.\d+)?)\s*bath` can match there. The value is `float()` of the only group the expression can capture. |
| Extract.BathsRegexGroup | src/ai_marketplace_monitor/mysql_compare.py:105 | In a match of the baths expression, the group is the digit run with its optional fraction and the spaces are the whole space run. The group is therefore unique. |
| Extract.DecimalGroupEndsRun | src/ai_marketplace_monitor/mysql_compare.py:105 | A `\d+(?:\.\d+)?` group that stops before anything but a digit or a dot is the digit run, plus the fraction run when a dot and a digit follow. |
| Extract.DecimalGroupShape | src/ai_marketplace_monitor/mysql_compare.py:105-108 | Every group the baths expression captures is text `float()` accepts, so the `ValueError` branch is never taken. |
| Extract.KeywordYearAt | src/ai_marketplace_monitor/mysql_compare.py:111 | A year read after `built`, `year` or `yr` has four digits, so it is below 10000. |
| Extract.BareYearAt | src/ai_marketplace_monitor/mysql_compare.py:113 | A bare year, which needs word boundaries on both sides, lies in 1900..2029. |
| Extract.ParseBedsBathsYear | src/ai_marketplace_monitor/mysql_compare.py:111-118 | The year is a four-digit number. When no keyword form matches, the year, if any, lies in 1900..2029. |
| Extract.SearchValueLeftmost | src/ai_marketplace_monitor/mysql_compare.py:98 | `re.search` returns what the leftmost matching position gives. |
| Extract.BedsFromLeftmostGroup | src/ai_marketplace_monitor/mysql_compare.py:98-104 | The bed count comes from the leftmost match only: the value of its digit group, or unset when that group has more than 4300 digits. |
| Extract.LongBedsGroupHidesLater | src/ai_marketplace_monitor/mysql_compare.py:98-104 | For a title of more than 4300 digits followed by ` bed, 3 bed`, a later match with group `3` exists, yet the bed count stays unset. |
| Extract.NoDigitsNoAttributes | src/ai_marketplace_monitor/mysql_compare.py:93-119 | A title and description without digits yield no beds, no baths and no year. |
| Extract.SafeTableCharacters | src/ai_marketplace_monitor/mysql_compare.py:122-123 | A name that passes the guard is non-empty. It is made of letters, digits and underscores, save a possible final newline. So it holds no backtick, semicolon or space. |
| Extract.SafeTableExamples | src/ai_marketplace_monitor/mysql_compare.py:122-123 | An injection attempt and the empty name are refused. A plain identifier passes, and so does one followed by a newline. |
| Extract.ZipAt | src/ai_marketplace_monitor/mysql_compare.py:189 | A zip match is five digits found in the text at that position. |
| Extract.ZipExtensionIrrelevant | src/ai_marketplace_monitor/mysql_compare.py:189 | The expression `\b(\d{5})(?:-\d{4})?\b`, with its optional extension, matches at exactly the positions where five digits stand between word boundaries. |
| Extract.ExtractZip | src/ai_marketplace_monitor/mysql_compare.py:188-190 | A found zip is five digits occurring in the text. It is the match at the leftmost matching position: no earlier position matches. No zip is found exactly when no position matches. |
| Extract.NoDigitsNoZip | src/ai_marketplace_monitor/mysql_compare.py:188-190 | A location without digits has no zip. |
| Extract.SplitLocation | src/ai_marketplace_monitor/mysql_compare.py:449 | Splitting on commas and on runs of two or more spaces gives at least one piece. The first piece is a prefix of the text, and no piece holds a comma or a double space. |
| Extract.SplitLocationSingle | src/ai_marketplace_monitor/mysql_compare.py:449 | A text without commas or double spaces is one piece. |
| Extract.SplitLocationAtComma | src/ai_marketplace_monitor/mysql_compare.py:449 | The text before a comma, when it holds no comma and no double space, is the first piece. The rest after the comma is split on its own. |
| Extract.StrippedParts | src/ai_marketplace_monitor/mysql_compare.py:449 | The kept parts are non-empty and have no surrounding whitespace. |
| Extract.StrippedPartsKeepAll | src/ai_marketplace_monitor/mysql_compare.py:449 | A piece is kept exactly when it strips to something. With no blank piece, every piece is kept, stripped, in order. |
| Extract.StrippedPartsDropBlank | src/ai_marketplace_monitor/mysql_compare.py:449 | Pieces that strip to nothing leave no part. |
| Extract.StrippedPartsAppend | src/ai_marketplace_monitor/mysql_compare.py:449 | The comprehension works piece by piece: the parts of a concatenation of pieces are the concatenation of their parts. |
| Extract.ParseLocationParts | src/ai_marketplace_monitor/mysql_compare.py:443-455 | The zip is the zip of the stripped location. Take the parts to be the stripped non-blank pieces. There is a state exactly when there are at least two parts and the last is two letters. The state is then that last part and the city the first. Without a state there is a city exactly when there is one part and no zip, and it is that part. |
| Extract.ErieWithZip | src/ai_marketplace_monitor/mysql_compare.py:443-455 | "Erie, PA 16509" gives no city and no state, because its last part is "PA 16509". The zip is 16509. |
| Extract.ErieWithoutZip | src/ai_marketplace_monitor/mysql_compare.py:443-455 | "Erie, PA" gives the city Erie, the state PA and no zip. |
| Extract.CityStateLocation | src/ai_marketplace_monitor/mysql_compare.py:443-455 | A location that splits into a city and a two-letter state, with no zip, gives that city and that state. |
| Extract.CityAndPart | src/ai_marketplace_monitor/mysql_compare.py:449 | "City, Part", with a one-word city and a part without commas or double spaces, splits into exactly those two parts. |
| Compare.ResolveLocation | src/ai_marketplace_monitor/mysql_compare.py:186-231 | No zip means nothing is resolved. An unsafe table name means no county. The county is present exactly when both names are safe and the zip is in the zip→county table, and it is that entry. The region is present exactly when the county is in the county→region table. No region without a county, no county without a zip. |
| Compare.NoDigitsResolvesToNothing | src/ai_marketplace_monitor/mysql_compare.py:188-196 | A location without digits resolves to no zip, county or region. |
| Compare.Tiers | src/ai_marketplace_monitor/mysql_compare.py:264-270 | The tiers hold exactly the identifiers that are present, in the order zip, county, region. |
| Compare.TiersOfResolvedLocation | src/ai_marketplace_monitor/mysql_compare.py:264-270 | For a resolved location the tiers are a prefix of [zip, county, region]. A wider scope is only tried after every narrower one. |
| Compare.SalesFilters | src/ai_marketplace_monitor/mysql_compare.py:249-262 | Beds and baths filter by equality. A year range exists exactly when a year was found and the tolerance is not negative, and it is the year ± the tolerance. The row limit is `sales_max_rows`. |
| Compare.SearchTiers | src/ai_marketplace_monitor/mysql_compare.py:277-294 | The loop stops at the first tier with rows or the first that raises, with every earlier tier empty. It runs out exactly when every tier is empty. |
| Compare.SalesFromTiers | src/ai_marketplace_monitor/mysql_compare.py:277-300 | Rows come from the first non-empty tier, after empty ones. The summary is that tier's header followed by the summary of its rows. No rows means the fixed "no comps" sentence and every tier empty. An exception comes from a tier after empty ones. The summary is never empty. |
| Compare.FetchSalesComps | src/ai_marketplace_monitor/mysql_compare.py:233-300 | Nothing unless sales comps are on and both table names are safe. Otherwise always a result, or the exception of a tier query. |
| Compare.SecondTierWins | src/ai_marketplace_monitor/mysql_compare.py:277-294 | When the first tier is empty and the second has rows, the comps are the second tier's rows under its header. |
| Compare.CountyTierWins | src/ai_marketplace_monitor/mysql_compare.py:264-294 | With zip, county and region resolved, an empty zip query and a county query with rows, the comps are the county's rows under the county header. |
| Compare.FieldTexts | src/ai_marketplace_monitor/mysql_compare.py:439 | One `key: value` text per column, in order. |
| Compare.NumberedLines | src/ai_marketplace_monitor/mysql_compare.py:438-440 | One line per row, numbered consecutively from the start index. |
| Compare.SummaryLines | src/ai_marketplace_monitor/mysql_compare.py:437-440 | At most `max_rows` lines. A negative cap drops that many rows from the end, as a slice does. Line k is its label `  k. ` followed by the first six `key: value` fields of row k, joined by ` | `. |
| Compare.RowsToSummary | src/ai_marketplace_monitor/mysql_compare.py:434-441 | Never empty. The fixed "no similar listings" sentence exactly when there are no rows. Otherwise the header followed by the numbered lines joined by newlines. |
| Compare.CustomQueryText | src/ai_marketplace_monitor/mysql_compare.py:373-379 | The query sent always mentions LIMIT (case-insensitively). It is the substituted template when that already did. Otherwise it is the template with trailing spaces and semicolons removed, then ` LIMIT max_rows`. |
| Compare.AppendedLimit | src/ai_marketplace_monitor/mysql_compare.py:378-379 | Appending ` LIMIT n` makes the upper-cased text contain LIMIT. |
| Compare.SubstitutePlaceholders | src/ai_marketplace_monitor/mysql_compare.py:373-376 | A template without `{` is sent unchanged. |
| Compare.TitleFilled | src/ai_marketplace_monitor/mysql_compare.py:373-376 | In a template whose only placeholder is `{title}`, the title with `%` doubled and cut to 200 characters takes its place, and nothing else changes. |
| Compare.PriceFilled | src/ai_marketplace_monitor/mysql_compare.py:374-376 | In a template whose only placeholder is `{price}`, the price text takes its place, and nothing else changes. |
| Compare.LocationFilled | src/ai_marketplace_monitor/mysql_compare.py:375-376 | In a template whose only placeholder is `{location}`, the location with `%` doubled and cut to 100 characters takes its place, and nothing else changes. |
| Compare.ItemNameFilled | src/ai_marketplace_monitor/mysql_compare.py:376 | In a template whose only placeholder is `{item_name}`, the item name takes its place and nothing else changes. |
| Compare.RunCustomQuery | src/ai_marketplace_monitor/mysql_compare.py:364-388 | Raises exactly when the query raises. Otherwise its rows and their summary. |
| Compare.SimilarQueryFor | src/ai_marketplace_monitor/mysql_compare.py:396-421 | No query exactly when the table name is unsafe. The title column falls back to `title` and the price column to `price` when unsafe. The pattern is the first 30 title characters between `%`. The price cap is used exactly when a price column is set and the price parses, and it is 1.5 × the price. |
| Compare.SimilarPatternBound | src/ai_marketplace_monitor/mysql_compare.py:405-406 | The LIKE pattern is at most 32 characters, and its middle is a prefix of the title. |
| Compare.RunBuiltinComparison | src/ai_marketplace_monitor/mysql_compare.py:390-432 | Nothing for an unsafe table. Otherwise it raises exactly when the query raises, and returns the rows with their non-empty summary. |
| Compare.CollectParts | src/ai_marketplace_monitor/mysql_compare.py:327-343 | At most two non-empty parts. A custom query excludes the other sources. Sales comps come before the built-in comparison. With no source configured nothing is collected. |
| Compare.SummaryParts | src/ai_marketplace_monitor/mysql_compare.py:325-343 | The parts gathered from the queries: at most two, none empty. With a custom query, its summary alone, or the exception when that query raises. With no source configured, none. |
| Compare.OptionalSummary | src/ai_marketplace_monitor/mysql_compare.py:334-335 | A comparison contributes its summary exactly when it exists and its summary is not empty. |
| Compare.FetchComparison | src/ai_marketplace_monitor/mysql_compare.py:302-362 | Nothing when disabled, when no source is configured, when the connection fails, or when a query raises. A result exactly when some part was collected. It is the parts joined by blank lines, with no rows, and never empty. |
| Compare.CustomQueryTakesPrecedence | src/ai_marketplace_monitor/mysql_compare.py:328-331 | With a custom query configured, the sales and built-in oracles and the location tables cannot change the result. |
| Compare.CustomQueryResult | src/ai_marketplace_monitor/mysql_compare.py:327-331 | With a custom query and an open connection, the result is its summary, or nothing when it raises. |
| Compare.SalesThenBuiltin | src/ai_marketplace_monitor/mysql_compare.py:332-339 | With sales comps and a comparison table, and both giving a comparison, the summary is the sales summary, a blank line, then the built-in summary. |
| Compare.FetchFromParts | src/ai_marketplace_monitor/mysql_compare.py:354-362 | With a source configured and the connection open, collected parts come back joined by a blank line, with no rows. |
| Upsert.CappedOrNull | src/ai_marketplace_monitor/mysql_compare.py:500-503 | `(s or "")[:n] or None`: NULL exactly for a missing or empty text or a zero cap. Otherwise the text itself when it fits, and its first n characters when it is longer. |
| Upsert.RowFor | src/ai_marketplace_monitor/mysql_compare.py:474-508 | The title is the listing's title, or its first 500 characters when longer. The description is likewise cut to its first 10000. The price is the parsed price. The city is the parsed city as `(city or "")[:200] or None` gives it, and the state is the parsed state. The zip is the stripped location's zip. The URL is `(post_url or "")[:2000] or None`. Beds and baths are the parsed attributes, and county and region the resolved location's. |
| Upsert.InsertFbListing | src/ai_marketplace_monitor/mysql_compare.py:457-523 | True exactly when enabled, inserting, the table name is safe, the connection opens and the write commits. Then the listing's row is stored under its id. Otherwise the table is unchanged. Other ids are never touched. |
| Upsert.Put | src/ai_marketplace_monitor/mysql_compare.py:487-513 | `ON DUPLICATE KEY UPDATE` on a unique id stores the row under the id whether or not one was there, and leaves every other id alone. A failed write changes nothing. |
| Upsert.PutTwice | src/ai_marketplace_monitor/mysql_compare.py:487-494 | Writing the same row twice is writing it once. |
| Upsert.PutOverwrites | src/ai_marketplace_monitor/mysql_compare.py:487-494 | A later write under an id replaces an earlier one. |
| Upsert.InsertIdempotent | src/ai_marketplace_monitor/mysql_compare.py:457-513 | Inserting the same listing twice leaves the table as one insert does. |
| Upsert.LaterInsertWins | src/ai_marketplace_monitor/mysql_compare.py:457-513 | Of two listings with the same external id, the table ends as if only the second had been inserted. |
| Upsert.InsertAllKeys | src/ai_marketplace_monitor/mysql_compare.py:487-513 | After a batch of successful writes there is one row per distinct id, old or new. Each id holds the row of the last listing carrying it. Ids outside the batch are unchanged. |
| OllamaMySql.PyInt | src/ai_marketplace_monitor/ai_ollama_mysql.py:39 | `int()` keeps integers and turns booleans into 0 and 1. On a text it succeeds exactly when, stripped, the text is an optional sign then digit groups joined by single underscores, with at most 4300 digits. Without a sign the result is not negative. |
| OllamaMySql.PyIntRoundTrip | src/ai_marketplace_monitor/ai_ollama_mysql.py:39 | A number written in decimal with at most 4300 digits reads back as itself. |
| OllamaMySql.PyIntTooManyDigits | src/ai_marketplace_monitor/ai_ollama_mysql.py:39 | A digit string of more than 4300 digits makes `int()` raise, with or without a minus sign. |
| OllamaMySql.BedsValueIsPyInt | src/ai_marketplace_monitor/mysql_compare.py:100-104 | The bed count read from a digit group is the value `int()` returns for it, and is unset exactly when `int()` raises. |
| OllamaMySql.PyIntUnderscore | src/ai_marketplace_monitor/ai_ollama_mysql.py:39 | `int("A_B")` is the number the digits of A and B spell together, so a port of "3_306" is 3306. |
| OllamaMySql.PyIntBadUnderscore | src/ai_marketplace_monitor/ai_ollama_mysql.py:39 | A doubled, leading or trailing underscore makes `int()` raise. |
| OllamaMySql.GetMySqlConfig | src/ai_marketplace_monitor/ai_ollama_mysql.py:33-48 | No configuration for a missing, non-table or empty block. Raises exactly when a given port or row cap is not an integer that `int()` accepts. Otherwise every key the block sets is taken from it, every other setting keeps its default, and sales comps and the upsert stay off. |
| OllamaMySql.UnknownKeysGiveDefaults | src/ai_marketplace_monitor/ai_ollama_mysql.py:33-48 | A non-empty block of keys the backend does not read yields the default configuration. |
| OllamaMySql.BackendCompare | src/ai_marketplace_monitor/ai_ollama_mysql.py:65-70 | The backend has a comparer exactly when the block gives a configuration that is enabled and names a custom query or a comparison table. |
| OllamaMySql.BackendNeverUsesSalesOrInsert | src/ai_marketplace_monitor/ai_ollama_mysql.py:65-70 | The backend's comparer never inserts a listing. Its comparison does not depend on the sales oracle or the location tables. |
| OllamaMySql.GetPrompt | src/ai_marketplace_monitor/ai_ollama_mysql.py:72-86 | The base prompt is always a prefix. It is the whole prompt without a comparer or without a comparison. Otherwise it is followed by the header, the summary and the footer. |
| OllamaMySql.PromptRoundTrip | src/ai_marketplace_monitor/ai_ollama_mysql.py:82-85 | The summary is found back in a decorated prompt between the header and the footer, and the base prompt before them. |
| OllamaMySql.DbText | src/ai_marketplace_monitor/ai_ollama_mysql.py:102-104 | The summary with each `\n` replaced by a space, then stripped. In the short format it is that text when it has at most 120 characters, otherwise its first 120 characters followed by `...`. It holds no `\n`. |
| OllamaMySql.Evaluate | src/ai_marketplace_monitor/ai_ollama_mysql.py:88-110 | Name and score never change, and the comment is only ever extended. It is extended exactly when there is a comparer, the response was evaluated, the output format is not `none` and a comparison with a summary came back. It is then extended by the `DB:` separator and the comparison text. |
| OllamaMySql.DbSuffixHasNoNewline | src/ai_marketplace_monitor/ai_ollama_mysql.py:101-108 | The suffix added to a comment holds no `\n`. In the short format it adds at most 130 characters. |
| Scraper.Quote | craigslist-monitor/craigslist_monitor/scraper.py:30 | The quoted text uses only unreserved characters, `/` and `%`. A text of safe characters is unchanged. |
| Scraper.QuoteRoundTrip | craigslist-monitor/craigslist_monitor/scraper.py:30 | Unquoting a quoted ASCII text gives it back. |
| Scraper.UnquoteQuotedChar | craigslist-monitor/craigslist_monitor/scraper.py:30 | Unquoting reads one quoted ASCII character back off the front of the text, escaped or not. |
| Scraper.RssParams | craigslist-monitor/craigslist_monitor/scraper.py:28-35 | The parameters, in order: the quoted query if any, each positive price bound, and `format=rss` always last. |
| Scraper.BuildRssUrl | craigslist-monitor/craigslist_monitor/scraper.py:25-36 | The URL starts with the search base and `?`. |
| Scraper.ParamsHaveNoAmpersand | craigslist-monitor/craigslist_monitor/scraper.py:29-35 | No parameter contains `&`: neither the quoted query nor a number can. |
| Scraper.RssUrlRoundTrip | craigslist-monitor/craigslist_monitor/scraper.py:25-36 | Everything before the first `?` is the base. Splitting the rest on `&` gives back the parameters in order. |
| Scraper.QueryStringRoundTrip | craigslist-monitor/craigslist_monitor/scraper.py:36 | For any base without `?` and any parameters without `&`, the URL `base?p1&p2…` splits back into that base and those parameters. |
| Scraper.StripTags | craigslist-monitor/craigslist_monitor/scraper.py:64 | No `<[^>]+>` is left after the substitution, and it adds no `>`. Text before the first `<` is kept. |
| Scraper.StripTagsTagFree | craigslist-monitor/craigslist_monitor/scraper.py:64 | A text without tags is unchanged. |
| Scraper.StripTagsPlainPrefix | craigslist-monitor/craigslist_monitor/scraper.py:64 | Text without `<` in front of the rest is copied as it is. |
| Scraper.StripTagsOneTag | craigslist-monitor/craigslist_monitor/scraper.py:64 | A tag is replaced by exactly one space. |
| Scraper.DollarAt | craigslist-monitor/craigslist_monitor/scraper.py:70 | A match at a position is `$` followed by the whole run of digits and commas there. There is one exactly when `$` stands there before a digit or comma. |
| Scraper.TitlePrice | craigslist-monitor/craigslist_monitor/scraper.py:70-72 | Empty exactly when no `\$[\d,]+` occurs. Otherwise the match at the leftmost matching position, with its whole run of digits and commas. |
| Scraper.ParenAt | craigslist-monitor/craigslist_monitor/scraper.py:74 | A match is a non-empty group without `)` between parentheses, followed only by whitespace to the end. |
| Scraper.TitleLocation | craigslist-monitor/craigslist_monitor/scraper.py:74-76 | A location holds no `)` and has no surrounding whitespace. It is empty when the title ends in no parenthesised group. |
| Scraper.OrElse | craigslist-monitor/craigslist_monitor/scraper.py:56 | The text when present and non-empty, the default otherwise. |
| Scraper.PlainSummary | craigslist-monitor/craigslist_monitor/scraper.py:62-64 | The plain summary holds no tag and no surrounding whitespace. |
| Scraper.PlainSummaryTagFree | craigslist-monitor/craigslist_monitor/scraper.py:62-64 | A summary without tags is only stripped. |
| Scraper.PlainSummaryLeadingTag | craigslist-monitor/craigslist_monitor/scraper.py:62-64 | A tag followed by plain text gives that text: the tag's space is stripped away. |
| Scraper.EntryListing | craigslist-monitor/craigslist_monitor/scraper.py:56-87 | An entry is skipped exactly when its stripped link is empty. Otherwise it becomes a well-formed listing whose id and URL are the link. Title, price and location come from the stripped title, or `No title` and no price or location. The description is the first 500 characters of the plain summary. The published date is the stripped `published`, else `updated`. |
| Scraper.MakeListing | craigslist-monitor/craigslist_monitor/scraper.py:77-87 | The listing is well formed: its id is its URL, it has a title, and its price is a dollar amount or empty. Its description is the first 500 characters of the plain summary, the whole of it when that fits. |
| Scraper.EntriesToListings | craigslist-monitor/craigslist_monitor/scraper.py:54-88 | Never more listings than entries, and every one well formed. |
| Scraper.LinkDecides | craigslist-monitor/craigslist_monitor/scraper.py:56-58 | An entry yields a listing exactly when its link is not blank. |
| Scraper.EntriesToListingsCount | craigslist-monitor/craigslist_monitor/scraper.py:55-87 | One listing per entry with a link. |
| Scraper.EntriesToListingsAppend | craigslist-monitor/craigslist_monitor/scraper.py:55-87 | The feed is mapped entry by entry: listings of a concatenation are the concatenation of listings. |
| Scraper.FetchListings | craigslist-monitor/craigslist_monitor/scraper.py:39-88 | The feed at the built URL is requested. It raises exactly when the request does. Otherwise the listings of its entries, one per linked entry. |
| Telegram.TitleLine | craigslist-monitor/craigslist_monitor/telegram_notify.py:40 | The title, or its first 80 characters followed by `...` when longer. |
| Telegram.OrDefault | craigslist-monitor/craigslist_monitor/telegram_notify.py:41 | The text when non-empty, the default otherwise. |
| Telegram.InfoLineShape | craigslist-monitor/craigslist_monitor/telegram_notify.py:41 | The second line starts with the price, or `No price`, followed by ` | `. It ends with the location, or `No location`. |
| Telegram.MessageLines | craigslist-monitor/craigslist_monitor/telegram_notify.py:40-43 | Three lines (title, price and location, URL), plus a blank line and the description cut to 200 when there is a description. |
| Telegram.MessageBody | craigslist-monitor/craigslist_monitor/telegram_notify.py:40-43 | The body starts with the three head lines. It is longer exactly when there is a description, which then follows a blank line. |
| Telegram.MessageBodyIsLines | craigslist-monitor/craigslist_monitor/telegram_notify.py:40-43 | The body is its lines joined by newlines. |
| Telegram.MessageSplitsIntoLines | craigslist-monitor/craigslist_monitor/telegram_notify.py:40-43 | When no field holds a newline, splitting the body on newlines gives back its lines. |
| Telegram.SendTelegram | craigslist-monitor/craigslist_monitor/telegram_notify.py:12-54 | True exactly when the bot library is present and delivering the body succeeds. Every failure gives False. |
| Monitor.SearchOf | craigslist-monitor/craigslist_monitor/main.py:52-56 | Missing settings default to `philadelphia`, `sss`, the empty query and 0 price bounds. |
| Monitor.CredentialsOf | craigslist-monitor/craigslist_monitor/main.py:57-63 | Token and chat id are both set or both empty. Listings are sent exactly when both stripped values are non-empty, and then they are those stripped values. |
| Monitor.LoadSeen | craigslist-monitor/craigslist_monitor/main.py:24-33 | The stored ids. Empty for a missing or unreadable file, or one without ids. |
| Monitor.SavedIdsAsWritten | craigslist-monitor/craigslist_monitor/main.py:38-40 | The written ids are a suffix of the list. |
| Monitor.SavedIdsAsWrittenIgnoresZero | craigslist-monitor/craigslist_monitor/main.py:38-40 | With a cap of 0 the slice `ids[-0:]` keeps every id. |
| Monitor.SavedIds | craigslist-monitor/craigslist_monitor/main.py:36-40 | At most `max_size` ids: the last ones of the list, or all of them when they fit. |
| Monitor.SavedIdsAgree | craigslist-monitor/craigslist_monitor/main.py:38-40 | For every positive cap the code and the intended cap agree. |
| Monitor.SaveSeenCapped | craigslist-monitor/craigslist_monitor/main.py:36-40 | With the default cap at most 5000 ids are written, the last ones of the list. |
| Monitor.SaveLoadRoundTrip | craigslist-monitor/craigslist_monitor/main.py:24-45 | Reading back what was saved gives ids of the saved set. It gives the whole set when the set fits under the cap. |
| Monitor.IdsMembership | craigslist-monitor/craigslist_monitor/main.py:73-76 | An id is among a run's ids exactly when some listing of the run carries it. |
| Monitor.NewListingsIds | craigslist-monitor/craigslist_monitor/main.py:73-77 | The ids of the new listings are the fetched ids not seen before. |
| Monitor.NewListingsFrom | craigslist-monitor/craigslist_monitor/main.py:73-77 | Each new listing is a fetched one whose id was not seen before. |
| Monitor.NewListingsDistinct | craigslist-monitor/craigslist_monitor/main.py:73-77 | No two new listings share an id, even when the feed repeats one. |
| Monitor.Dedupe | craigslist-monitor/craigslist_monitor/main.py:72-77 | The loop adds every fetched id to the seen set. The new listings are those ids not seen before, each once, in feed order, and there are as many of them as such ids. |
| Monitor.Pass | craigslist-monitor/craigslist_monitor/main.py:72-85 | New listings are all sent when notifying and all logged otherwise. The set is saved exactly when something was new. |
| Monitor.RunOnce | craigslist-monitor/craigslist_monitor/main.py:48-86 | A failed fetch returns the loaded set and sends, logs and saves nothing. Otherwise the loaded set grows by every fetched id. Each new id is handled once, sent only with both credentials and logged only without, and the set is saved exactly when something was new. |
| Monitor.IntervalSeconds | craigslist-monitor/craigslist_monitor/main.py:101-103 | The pause is at least a minute. A missing or zero interval is 30 minutes. Otherwise it is the interval in seconds. |
| ZipLoader.StateColumnOf | zip.py:29-31 | `state_id` when the CSV has it, else `state`. An exit exactly when neither exists. |
| ZipLoader.FilterRows | zip.py:37-38 | No filter keeps every row. A filter keeps exactly the rows whose state cell equals it. |
| ZipLoader.ZFill | zip.py:46 | `str.zfill`: pads with zeros to the width, after a leading sign. A text at least that wide is unchanged. |
| ZipLoader.ZFillKeepsValue | zip.py:46 | Padding a digit run keeps its numeric value. |
| ZipLoader.ZipPadsToFive | zip.py:46 | A zip of at most five digits pads to exactly five. |
| ZipLoader.ZipCountyKeys | zip.py:45-69 | After the pass the table holds its old zips and every written one. Zips no row wrote keep their old county. |
| ZipLoader.ZipCountyLastWins | zip.py:45-69 | Each written zip carries the county of the last row that wrote it. |
| ZipLoader.UnknownCountiesSkipped | zip.py:52-55 | When no row's county is known, the table is unchanged. |
| ZipLoader.Normalize | zip.py:79-83 | A row is kept exactly when it has a city that strips to something, a state cell that strips to something and a five-character padded zip. Its city is the stripped city cut to 255, its state the stripped state cell cut to 10, and its zip the padded zip. |
| ZipLoader.NormalizedRows | zip.py:78-83 | Exactly the normalised forms of the rows that survive normalisation: each comes from some row, and no surviving row is missed. |
| ZipLoader.CityZipHasEveryKey | zip.py:78-87 | The key of every valid row is among the keys offered for insertion: de-duplication loses no key. |
| ZipLoader.KeysMembership | zip.py:84-87 | A key has been seen exactly when some earlier row carries it. |
| ZipLoader.FirstByKey | zip.py:84-87 | The same keys as the input, each exactly once. |
| ZipLoader.FirstByKeyIsFirst | zip.py:84-87 | Every kept row is the first row of its key in the input. |
| ZipLoader.CityZipRows | zip.py:78-97 | The inserted rows are the first row of each key whose insert succeeded, in input order, with no key twice. |
| ZipLoader.CityZipStep | zip.py:84-97 | Each row adds its key to the seen keys. It is inserted exactly when its key is new and its insert succeeds. |
| ZipLoader.CityZipTable | zip.py:75-97 | The inserted rows are the first normalised row of each key whose insert succeeded, in input order. Keys are distinct, every row is valid, and with a filter every state is the filter's. |
| ZipLoader.Load | zip.py:21-99 | Exits exactly when the state or city column is missing. The county pass runs only with a county column and a filter, and otherwise leaves `zip_county` alone. `city_zip` is exactly the first normalised row of each key among the filtered rows, for those whose insert succeeded. |

## Left out

- Logging, `print`, the counters of `zip.py`, `raw_text` and `updated_at`: they do not affect any result the model states.
- Configuration files and TOML parsing: `config.py` is not part of this model. The configuration arrives already parsed. A TOML value of a wrong type (a table where a text is expected) is outside the value types modelled.
- The network, the database driver, `asyncio` and the bot library: each is an oracle or a boolean parameter.
  - `_get_client` and `close` reduce to the boolean `connected`.
  - Cursor rows arrive as lists of rendered fields. Tuple rows zipped with `column_names` look the same after that step.
- SQL semantics (LIKE, ORDER BY, LIMIT, collation): the query oracles stand for them. The model states what is sent and how the answer is used.
- Floating point: prices, baths and the 1.5 price cap are exact reals.
- Unicode beyond ASCII: character classes, case mapping and `isalpha` are their ASCII versions.
- The main loop of `main.py`, `time.sleep` and `KeyboardInterrupt`: only one pass and the interval computation are modelled.
- `MySQLCompare.insert_all_evaluated` and the rest of the marketplace monitor: no caller in the modelled core.
- pandas: NaN cells and a zip column read as floats. A zip is the text `str()` gives, and a missing city or state is `None`.
- The set order of `save_seen`: `list(seen)` has no specified order, so it is a parameter (`Monitor.Enumerates`).
- Scraper.QuoteRoundTrip: proved for ASCII text only. `UnquoteAscii` does not decode multi-byte UTF-8 escapes.
- Scraper.TitleLocation: states the shape of the location and the no-match case, not which parenthesised group the leftmost match picks.
- Extract.ParseBedsBathsYear: states bounds on the year and the no-keyword fallback. Which match each attribute takes is stated per pattern, by `Extract.BedsFromLeftmostGroup`, `Extract.BathsAtMatchesRegex` and the year matchers, not by this member.
- The digit cap of `int()`: the default of 4300 digits (Python 3.11 onwards) is modelled by `Text.IntMaxStrDigits`. A cap changed through `sys.set_int_max_str_digits`, `PYTHONINTMAXSTRDIGITS` or `-X int_max_str_digits`, and an interpreter without the cap, are not.
- Extract.SplitLocation: states the shape of the pieces, not that they reassemble into the text.
- Scraper.RssUrlRoundTrip: assumes the site and category hold no `?`. The code does not check this.
- Failures of the counties `SELECT` and of `DELETE FROM city_zip` in `zip.py` (lines 48-52 and 75): they sit outside any `try`, so a failure there ends the script. The model treats both as always succeeding: the county lookup is the `counties` map, and the table is emptied before the refill.

## Findings

| source | as written | input that shows it | evidently intended | confidence | as-written member | corrected member |
|---|---|---|---|---|---|---|
| craigslist-monitor/craigslist_monitor/main.py:38-40 | `ids[-max_size:]` when the list is longer than `max_size` | `max_size` 0 and seen ids `{"a"}`: `ids[-0:]` is the whole list, so "a" is written | keep only the last `max_size` ids, none for 0 | not executed; low: the only caller uses the default cap 5000, for which both agree (`Monitor.SavedIdsAgree`) | Monitor.SavedIdsAsWrittenIgnoresZero | Monitor.SavedIds |
