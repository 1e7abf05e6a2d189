# Homepedia real-time price worker, in Dafny

This project models the core of Homepedia's real-time housing price pipeline and proves properties of the model.

**The worker.** It polls the INSEE page of housing price indices. One run:

1. Extracts the price points from the page's HTML tables: the best "indices" table and the best "year-on-year variation" table.
2. Passes every point through a data-quality gate.
3. Stores the points that pass in SQLite:
   - a latest table, with one row per metric;
   - a history table that records only changes;
   - a runs table, with one row per run.
4. Mirrors the run into MongoDB: a raw run document, observations and latest documents.

Between runs it sleeps for the configured interval, but never less than five seconds.

**The batch helpers of the same repository:**
- the department code derived from an INSEE commune code (income ingestion);
- the label slug and numeric cleaning of the regional indicators scraper;
- the SQLite index set-up script;
- the SQLite-to-MongoDB copy of every user table, in batches of 5000 documents.

**How each file is modelled.**
- Files written as computations become datatypes, functions and lemmas: the table extractor, the department code, the slug, and the table-name query of the copy script.
- Code that changes state becomes classes whose methods change their fields:
  - `SqliteStore.Store`, the SQLite database of the worker;
  - `MongoStore.Mirror`, its MongoDB buffer;
  - `SetupIndexes.Database`;
  - `SqliteToMongoAllTables.MongoTarget`, the target of the copy.
- Where the source loops, the model has methods with loops and invariants, each proved against a specification function:
  - the data-quality filter;
  - the store loop;
  - the header, data-row and point loops of the extractor;
  - the index plan;
  - the batched insertion.

**Modules:**
- `Base`: `Option`, and floats as `Num`: finite real, infinity or NaN, with IEEE equality.
- `Text`: Python string built-ins: `strip`, `lower`, `upper`, `in`, and NFKD followed by `encode("ascii", "ignore")`.
- `RunRecord`: the data-quality errors, the failures a run can meet, and the error sample.
- `InseeScraper`: `insee_scraper.py`.
- `SqliteStore`: `sqlite_store.py`.
- `MongoStore`: `mongo_store.py`.
- `Worker`: `worker.py`.
- `IngestInseeIncome`: `extract_dept`.
- `ScraperInseeRegion`: `_slug`, and one element of `_clean_numeric`.
- `SetupIndexes`: `setup_indexes.py`.
- `SqliteToMongoAllTables`: `sqlite_to_mongo_all_tables.py`.

**What the environment becomes:**
- The fetched page becomes a parameter: a request error, or the page's tables.
- Each table is its caption and its rows, each row its cells, each cell a header flag and its text.
- The clock and the run identifier are parameters.
- Times are integers: microseconds since the epoch, UTC.
- Whether SQLite and MongoDB are reachable during a run is a boolean parameter for each.

## Model

| member | source | states |
|---|---|---|
| `Base.FloatEqIsEqualityExceptNaN` | src/realtime_price/sqlite_store.py:174 | Python's float `!=` as used for the change test: two floats compare equal exactly when they are the same value and not NaN |
| `InseeScraper.KeepNumeric` | src/realtime_price/insee_scraper.py:34 | every character kept is a digit, `.` or `-` |
| `InseeScraper.ParseUnsigned` | src/realtime_price/insee_scraper.py:35-38 | `float()` of an unsigned decimal literal gives a non-negative value or fails |
| `InseeScraper.NumericStrip` | src/realtime_price/insee_scraper.py:29-32 | stripping whitespace never changes the text `float()` is given |
| `InseeScraper.NumericNoNbsp` | src/realtime_price/insee_scraper.py:32 | replacing NBSP by spaces never changes the text `float()` is given |
| `InseeScraper.KeepNumericOfCommas` | src/realtime_price/insee_scraper.py:33-34 | turning commas into dots, then filtering `[^0-9.-]`, gives the numeric residue the model parses |
| `InseeScraper.ToFloat` | src/realtime_price/insee_scraper.py:26-38 | None for a missing or blank text; otherwise the parse of the cell's numeric residue |
| `InseeScraper.NoDigitNoNumber` | src/realtime_price/insee_scraper.py:34-38 | a text without any digit never yields a number |
| `InseeScraper.NumericOfDecimalComma` | src/realtime_price/insee_scraper.py:33-34 | a French number with a decimal comma and trailing noise (a `%` sign, letters) leaves exactly `whole.frac` |
| `InseeScraper.ParseDecimal` | src/realtime_price/insee_scraper.py:36 | `float("whole.frac")` is the decimal value of the literal |
| `InseeScraper.ParseFloatNegative` | src/realtime_price/insee_scraper.py:36 | a leading minus negates the value of the literal after it; the literal fails as the unsigned one does |
| `InseeScraper.ToFloatDecimalComma` | src/realtime_price/insee_scraper.py:26-38 | a cell such as "112,3 %" converts to the value 112.3 |
| `InseeScraper.SkipSpaces` | src/realtime_price/insee_scraper.py:54 | `\s*` consumes exactly the whitespace run at the position |
| `InseeScraper.QuarterAfterYear` | src/realtime_price/insee_scraper.py:54 | the tail `\s*[- ]?\s*T\s*([1-4])` captures only a quarter digit 1–4 |
| `InseeScraper.SearchYearQuarter` | src/realtime_price/insee_scraper.py:54 | a match of the year-first pattern captures four digits and a quarter 1–4 |
| `InseeScraper.QuarterYearAt` | src/realtime_price/insee_scraper.py:59 | a match of the quarter-first pattern at a position captures a quarter 1–4 and four digits |
| `InseeScraper.SearchQuarterYear` | src/realtime_price/insee_scraper.py:59 | a search for the quarter-first pattern captures a quarter 1–4 and four digits |
| `InseeScraper.NormalizePeriod` | src/realtime_price/insee_scraper.py:41-63 | the empty text gives None; any result is a canonical `YYYY-Tq` period |
| `InseeScraper.NormalizePeriodIdempotent` | src/realtime_price/insee_scraper.py:41-63 | a canonical period is returned unchanged |
| `InseeScraper.NormalizePeriodTwice` | src/realtime_price/insee_scraper.py:41-63 | normalising a normalised period changes nothing |
| `InseeScraper.PrepareKeeps` | src/realtime_price/insee_scraper.py:49-51 | strip, upper-case, NBSP replacement and whitespace collapsing leave an already canonical text unchanged |
| `InseeScraper.PrepareYearFirst` | src/realtime_price/insee_scraper.py:49-51 | the year-first forms survive the preparation unchanged |
| `InseeScraper.SearchYearFirst` | src/realtime_price/insee_scraper.py:54 | "2025-T3", "2025 T3" and "2025T3" match the first pattern with year and quarter captured |
| `InseeScraper.NormalizeYearFirst` | src/realtime_price/insee_scraper.py:44-56 | "2025-T3", "2025 T3" and "2025T3" all normalise to "2025-T3" |
| `InseeScraper.SearchQuarterFirst` | src/realtime_price/insee_scraper.py:54-61 | "T3 2025" misses the first pattern and matches the second with year and quarter captured |
| `InseeScraper.NormalizeQuarterFirst` | src/realtime_price/insee_scraper.py:58-61 | "T3 2025" normalises to "2025-T3" |
| `InseeScraper.Underscore` | src/realtime_price/insee_scraper.py:69 | the result is over `[a-z0-9_]` with no double underscore and keeps the alphanumerics in order; `UnderscoreSeparates` pins down where the underscores go |
| `InseeScraper.UnderscoreKeepsSlugChars` | src/realtime_price/insee_scraper.py:69 | a text of letters and digits comes out of the substitution unchanged |
| `InseeScraper.UnderscoreWordPrefix` | src/realtime_price/insee_scraper.py:69 | a leading word of letters and digits is kept as it is, and the rest is substituted on its own |
| `InseeScraper.UnderscoreRun` | src/realtime_price/insee_scraper.py:69 | a run of characters outside `[a-z0-9]` becomes exactly one underscore, or none when the run continues one already replaced |
| `InseeScraper.UnderscoreSeparates` | src/realtime_price/insee_scraper.py:69 | two words of letters and digits separated by any non-empty run of other characters come out as the words joined by one underscore |
| `InseeScraper.Squash` | src/realtime_price/insee_scraper.py:70 | underscore runs collapse to one, keeping the alphanumerics |
| `InseeScraper.SquashKeeps` | src/realtime_price/insee_scraper.py:69-70 | text without double underscores is left unchanged by the squash |
| `InseeScraper.DropUnderscores` | src/realtime_price/insee_scraper.py:70 | `lstrip("_")` removes exactly the leading underscores |
| `InseeScraper.DropTrailingUnderscores` | src/realtime_price/insee_scraper.py:70 | `rstrip("_")` removes exactly the trailing underscores |
| `InseeScraper.TrimUnderscoresSpec` | src/realtime_price/insee_scraper.py:70 | `strip("_")` gives a slice with no underscore at either end and the same alphanumerics |
| `InseeScraper.Slugify` | src/realtime_price/insee_scraper.py:66-71 | the result is always a slug (non-empty, `[a-z0-9_]`, no leading, trailing or double underscore); it is "col" exactly when the stripped, lower-cased, folded label has no alphanumeric, and otherwise keeps those alphanumerics in order |
| `InseeScraper.SlugifyJoinsWords` | src/realtime_price/insee_scraper.py:66-71 | a label whose stripped, lower-cased, folded text is two words around a run of separators slugs to `word_word` |
| `InseeScraper.SlugifyNbspJoins` | src/realtime_price/insee_scraper.py:66-71 | two words joined by a non-breaking space, such as "prix\xa0moyen", slug to the words joined by an underscore |
| `InseeScraper.FoldNbspJoins` | src/realtime_price/insee_scraper.py:68 | the fold turns a non-breaking space between two ASCII words into an ordinary space |
| `InseeScraper.FallbackIsSlug` | src/realtime_price/insee_scraper.py:71 | the fallback "col" is itself a slug |
| `InseeScraper.SlugifyParts` | src/realtime_price/insee_scraper.py:69-70 | the substituted, squashed and trimmed text is empty iff the input has no alphanumeric, and otherwise is a slug with the same alphanumerics |
| `InseeScraper.TrimmedIsSlug` | src/realtime_price/insee_scraper.py:70-71 | squashing and trimming any substituted text gives a slug or the empty text, with the same alphanumerics |
| `InseeScraper.InferGeo` | src/realtime_price/insee_scraper.py:168-176 | the geography is one of IDF, PROVINCE, FR, NA |
| `InseeScraper.InferGeoPrecedence` | src/realtime_price/insee_scraper.py:168-176 | a label naming Île-de-France or IDF is IDF; FR exactly when "france" occurs with neither an IDF mention nor "province"; NA only without "france" |
| `InseeScraper.InferGeoRegion` | src/realtime_price/insee_scraper.py:170 | "Île-de-France", accented and capitalised, is IDF |
| `InseeScraper.ScoreTable` | src/realtime_price/insee_scraper.py:74-121 | a table score, computed on the caption and cell texts, is between 0 and 15 |
| `InseeScraper.CaptionScored` | src/realtime_price/insee_scraper.py:74-75 | a keyword in the table's caption is in the text the table is scored on |
| `InseeScraper.ScoreIsRuleSum` | src/realtime_price/insee_scraper.py:78-121 | the score is the sum of the weights of the keyword rules of the kind that fire, plus 2 for a quarter token |
| `InseeScraper.IndicesScoreIsRuleSum` | src/realtime_price/insee_scraper.py:86-101 | the same for the indices rules written out as data |
| `InseeScraper.YoyScoreIsRuleSum` | src/realtime_price/insee_scraper.py:103-115 | the same for the year-on-year rules written out as data |
| `InseeScraper.RulesScoreBound` | src/realtime_price/insee_scraper.py:85-115 | with weights of at most 3, a score is at most three times the number of rules that fire |
| `InseeScraper.ThresholdNeedsTwoSignals` | src/realtime_price/insee_scraper.py:262-265 | reaching the threshold 4 needs at least two signals: two rules, or a rule and the quarter token |
| `InseeScraper.Scores` | src/realtime_price/insee_scraper.py:208-209 | one score per table, in table order, each at most 15 |
| `InseeScraper.BestIndex` | src/realtime_price/insee_scraper.py:208-212 | the head of the stable descending sort: a table of maximal score, and the first such table |
| `InseeScraper.LastWide` | src/realtime_price/insee_scraper.py:140-142 | a chosen candidate has at least two labels |
| `InseeScraper.HeadersFromLastWideRow` | src/realtime_price/insee_scraper.py:124-145 | `Headers` (`_extract_headers`): the headers are the labels of the last `th`-only row with two or more cells, or every `th` text of the table when no row qualifies |
| `InseeScraper.LastWideOfCandidates` | src/realtime_price/insee_scraper.py:129-142 | the reversed scan over the candidates finds the last wide header row, or nothing |
| `InseeScraper.ExtractHeaders` | src/realtime_price/insee_scraper.py:124-145 | the loops of `_extract_headers` compute `Headers` |
| `InseeScraper.DataRow` | src/realtime_price/insee_scraper.py:154-163 | a qualifying row has a canonical period in its first cell, at least two cells, and its NBSP-free texts |
| `InseeScraper.LatestDataRow` | src/realtime_price/insee_scraper.py:148-165 | a data row found has a canonical period and at least two cells |
| `InseeScraper.LatestDataRowIsFirst` | src/realtime_price/insee_scraper.py:153-165 | nothing is found iff no row qualifies; otherwise the result is the first qualifying row |
| `InseeScraper.FindLatestDataRow` | src/realtime_price/insee_scraper.py:148-165 | the loop of `_find_latest_data_row` computes `LatestDataRow` |
| `InseeScraper.ColumnLabels` | src/realtime_price/insee_scraper.py:230-236 | one label per value: the last n headers when there are at least n+1, otherwise `col_1` … `col_n` |
| `InseeScraper.MetricUid` | src/realtime_price/insee_scraper.py:245 | the identifier is `insee_<kind>:` followed by a slug |
| `InseeScraper.PointsFrom` | src/realtime_price/insee_scraper.py:239-260 | at most one point per cell |
| `InseeScraper.NumericCells` | src/realtime_price/insee_scraper.py:240-242 | the number of cells that convert is at most the number of cells |
| `InseeScraper.PointsFromShape` | src/realtime_price/insee_scraper.py:238-260 | exactly one point per cell that converts, each with the kind's unit and prefix, the row's period, source "insee", the URL and the scrape time |
| `InseeScraper.BuildPoints` | src/realtime_price/insee_scraper.py:239-260 | the loop over the labelled cells computes `PointsFrom` |
| `InseeScraper.ParseTable` | src/realtime_price/insee_scraper.py:220-260 | `parse_table` appends exactly the table's points |
| `InseeScraper.Sample` | src/realtime_price/insee_scraper.py:271-272 | the header sample is the first min(12, n) headers |
| `InseeScraper.ScrapeKind` | src/realtime_price/insee_scraper.py:208-265 | the chosen table is the first of maximal score, its score recorded, and it is parsed only when the score reaches 4 |
| `InseeScraper.Scrape` | src/realtime_price/insee_scraper.py:196-276 | no tables gives no points and the error "no_tables_found_in_html"; otherwise the debug record holds the best choices, the point count and the header samples, and the points are the indices points followed by the year-on-year points |
| `InseeScraper.TablePointsShape` | src/realtime_price/insee_scraper.py:220-260 | a table gives points only when it has a data row; then one point per converting value cell, all of the row's period |
| `InseeScraper.KindPointsShape` | src/realtime_price/insee_scraper.py:262-265 | every point of a kind has its shape and a canonical period; a best score under 4 gives none |
| `InseeScraper.ScrapePointsShape` | src/realtime_price/insee_scraper.py:203-265 | `ScrapePoints` (the points `scrape_insee_housing_prices` returns): every extracted point is an indices or a year-on-year point with a canonical period; when one kind misses the threshold only the other kind's unit appears |
| `SqliteStore.Upserted` | src/realtime_price/sqlite_store.py:177-207 | the upsert adds or overwrites only the point's metric row, with every field from the point, and keeps `first_seen_at` of an existing row |
| `SqliteStore.UpsertIdempotent` | src/realtime_price/sqlite_store.py:171-207 | for any point the store accepts (not NaN), an upsert right after the same upsert is reported unchanged, and upserting it again changes nothing |
| `SqliteStore.StoreStepKeepsDedup` | src/realtime_price/worker.py:109-118 | one upsert-then-history step keeps every latest row equal to its metric's last history row, and never appends a row that repeats the metric's previous period and value |
| `SqliteStore.StoreAllKeepsDedup` | src/realtime_price/worker.py:109-118 | `StoreAll` (the store loop of `run_once`) over a whole list of points: the history records changes only |
| `SqliteStore.StoreAllAppends` | src/realtime_price/worker.py:109-118 | `StoreAll` only appends to the history, at most one row per point with one id each, and every stored metric has a latest row |
| `SqliteStore.TruncDiv` | src/realtime_price/sqlite_store.py:250 | `int()` truncates toward zero, for both signs |
| `SqliteStore.DurationMs` | src/realtime_price/sqlite_store.py:250 | the duration in milliseconds is the elapsed time truncated toward zero, for both orders of the two instants |
| `SqliteStore.ColumnNameOfDef` | src/realtime_price/sqlite_store.py:93 | the name parsed from "name TYPE …" is the first word |
| `SqliteStore.WithColumn` | src/realtime_price/sqlite_store.py:94-96 | the column set gains the name, and is unchanged when the name is present |
| `SqliteStore.WithColumnIdempotent` | src/realtime_price/sqlite_store.py:91-96 | adding a column twice is adding it once, and no column is lost |
| `SqliteStore.MigrationsWellFormed` | src/realtime_price/sqlite_store.py:107-131 | every migration's definition starts with its column name |
| `SqliteStore.Store.constructor` | src/realtime_price/sqlite_store.py:80-83 | a new database has no tables, indexes or rows |
| `SqliteStore.Store.EnsureColumn` | src/realtime_price/sqlite_store.py:91-96 | the column is added to an existing table when missing; a missing table raises and changes nothing |
| `SqliteStore.Store.CreateSchema` | src/realtime_price/sqlite_store.py:9-71 | the script statement by statement: it runs to its end exactly when `SchemaFits`; the tables created so far stay even when an index statement raises |
| `SqliteStore.Store.EnsureSchema` | src/realtime_price/sqlite_store.py:99-150 | succeeds exactly when the schema fits: then the tables exist, the run table is migrated, other tables are untouched and the four indexes exist; otherwise it raises, existing tables keep their columns, and the schema still does not fit; the run table accepts rows afterwards iff it did before |
| `SqliteStore.Store.CreateIndex` | src/realtime_price/sqlite_store.py:43-44 | `CREATE INDEX IF NOT EXISTS` succeeds exactly when the name exists or the table has every indexed column; an existing name is a no-op |
| `SqliteStore.Store.CreateIndexesAgain` | src/realtime_price/sqlite_store.py:136-149 | the four closing index statements never drop an index, and are no-ops once the script has created them |
| `SqliteStore.SchemaFitsEach` | src/realtime_price/sqlite_store.py:9-71 | the schema fits exactly when each of its four index statements does |
| `SqliteStore.SchemaFitsAgain` | src/realtime_price/sqlite_store.py:9-71 | the script fits an empty database, and fits again after it has run |
| `SqliteStore.SchemaFailsOnLegacyHistory` | src/realtime_price/sqlite_store.py:44 | a history table of an older layout without `scraped_at`, not yet indexed, makes the script raise |
| `SqliteStore.ScriptFitsIff` | src/realtime_price/sqlite_store.py:9-71 | the script runs to its end exactly when the schema fits |
| `SqliteStore.ScriptSucceeds` | src/realtime_price/sqlite_store.py:9-71 | a script that ran to its end leaves the three tables and adds the four index names |
| `SqliteStore.ScriptFails` | src/realtime_price/sqlite_store.py:9-71 | a script that raised keeps the tables it created, never loses an index, and still does not fit, so the second `ensure_schema` of the run raises too |
| `SqliteStore.Store.MigrateRuns` | src/realtime_price/sqlite_store.py:106-134 | the run table gains every migrated column |
| `SqliteStore.Store.UpsertLatest` | src/realtime_price/sqlite_store.py:153-209 | the statements raise, changing nothing, when the value is NaN (refused by `value REAL NOT NULL`) or the latest table lacks a column they name (`LatestFits`: an older layout); otherwise reports a change exactly when the metric is new or its period or value differs, and updates the latest table to `Upserted` |
| `SqliteStore.Store.InsertHistory` | src/realtime_price/sqlite_store.py:212-230 | the INSERT raises, changing nothing, when the value is NaN or the history table lacks a column it names (`HistoryFits`: an older layout); otherwise appends one history row, with the next autoincrement id |
| `SqliteStore.FitsAfterSchema` | src/realtime_price/sqlite_store.py:10-47 | `CREATE TABLE IF NOT EXISTS` keeps a latest or history table already present as it is and creates a missing one with every column: after the script the store statements fit those tables exactly when any table already present had their columns |
| `SqliteStore.UnchangedPrefixIffNoHistory` | src/realtime_price/worker.py:109-118 | the store loop leaves the history untouched exactly when no point changes its metric, that is when the unchanged prefix is the whole list |
| `SqliteStore.StoreFailsIff` | src/realtime_price/worker.py:109-118 | the loop raises exactly when there is a point and the latest table does not fit, or the history table does not fit and storing the points would append a history row |
| `SqliteStore.Store.InsertRun` | src/realtime_price/sqlite_store.py:233-279 | writes the run row with the computed duration when the run table has every column and the run id is new; otherwise raises and writes nothing |
| `SqliteStore.MigratedRunTableComplete` | src/realtime_price/sqlite_store.py:48-67 | after migration the run table has every column `insert_run` writes iff it had the base columns or did not exist; migrating twice is migrating once |
| `SqliteStore.SchemaKeepsAcceptsRuns` | src/realtime_price/sqlite_store.py:99-134 | migrating the run table neither gains nor loses the ability to accept run rows |
| `SqliteStore.MigrationNamesAll` | src/realtime_price/sqlite_store.py:107-131 | the seven migrations add exactly the seven columns of the new run schema |
| `SqliteStore.MigrationCompletesRunTable` | src/realtime_price/sqlite_store.py:53-63 | the migrated columns complete a run table exactly when it has the base columns |
| `MongoStore.BsonDt` | src/realtime_price/mongo_store.py:12-17 | the result is naive and denotes the same instant |
| `MongoStore.BsonDtIdempotent` | src/realtime_price/mongo_store.py:12-17 | converting twice is converting once, and only the instant matters |
| `MongoStore.ObservationKeepsPoint` | src/realtime_price/mongo_store.py:64-76 | the point can be read back from its observation document |
| `MongoStore.ObservationDocs` | src/realtime_price/mongo_store.py:62-76 | one observation document per point, in order |
| `MongoStore.UpsertOne` | src/realtime_price/mongo_store.py:82-99 | `$set` overwrites every field of the metric's document; `$setOnInsert` sets `first_seen_at` only on a new document; other documents untouched |
| `MongoStore.LastWith` | src/realtime_price/mongo_store.py:81-99 | the last point of a metric in the list, or none when it does not occur |
| `MongoStore.FirstWith` | src/realtime_price/mongo_store.py:81-99 | the first point of a metric in the list, or none when it does not occur |
| `MongoStore.UpsertAllAppend` | src/realtime_price/mongo_store.py:81-99 | the loop upserts the points one after the other |
| `MongoStore.UpsertAllLastWins` | src/realtime_price/mongo_store.py:80-99 | `UpsertAll` (`upsert_latest`): a metric has a document iff it had one or occurs; an occurring metric holds its last point's fields and its old `first_seen_at`, or else its first point's time; other documents untouched |
| `MongoStore.UpsertAllKeys` | src/realtime_price/mongo_store.py:80-99 | the documents are exactly those of the old metrics and the listed ones |
| `MongoStore.Mirror.constructor` | src/realtime_price/mongo_store.py:20-21 | new collections are empty and unindexed |
| `MongoStore.Mirror.CreateRawIndex` | src/realtime_price/mongo_store.py:27-28 | the index is created unless another index holds its name or its keys, or it is the unique run-id index over duplicated run ids |
| `MongoStore.Mirror.EnsureIndexes` | src/realtime_price/mongo_store.py:24-39 | succeeds exactly when none of the six indexes has its name or its keys held by another definition (and the run ids are distinct), and then adds them; indexes are never lost |
| `MongoStore.ConflictsWith` | src/realtime_price/mongo_store.py:24-39 | an index of another name and other keys does not change whether the next index of `ensure_indexes` conflicts |
| `MongoStore.Mirror.InsertRawRun` | src/realtime_price/mongo_store.py:42-56 | appends the raw run with its naive UTC time, unless the unique index rejects a duplicate run id |
| `MongoStore.Mirror.InsertObservations` | src/realtime_price/mongo_store.py:59-77 | appends one observation per point, nothing for an empty list |
| `MongoStore.Mirror.UpsertLatest` | src/realtime_price/mongo_store.py:80-99 | the latest collection becomes `UpsertAll` of the points |
| `MongoStore.RawRunIdsStayDistinct` | src/realtime_price/mongo_store.py:27 | appending a run with a new id keeps run ids distinct |
| `Worker.DqAcceptsIff` | src/realtime_price/worker.py:27-64 | `DqValidate` (`_dq_validate_point`) returns no error iff the identifier, period and URL are not blank, the period is canonical once stripped, the value is finite, and the value is in the range its unit or prefix selects |
| `Worker.IsFiniteNumber` | src/realtime_price/worker.py:23-24 | true exactly for a finite value: neither NaN nor an infinity |
| `Worker.ValidPointsFinite` | src/realtime_price/worker.py:90-99 | every point that passes the gate has a finite value, so the stores never see a NaN |
| `Worker.DqErrorsExplained` | src/realtime_price/worker.py:32-64 | each error appears exactly when its check fails; a non-finite value is the last error and skips the range and URL checks |
| `Worker.ValueErrorsExplained` | src/realtime_price/worker.py:47-62 | the value checks report only value, range and URL errors |
| `Worker.PeriodStripped` | src/realtime_price/worker.py:37-44 | a canonical period is not blank and strips to itself |
| `Worker.KindDecidesRange` | src/realtime_price/worker.py:54-59 | an extracted indices point takes the index range, and a year-on-year point the percentage range |
| `Worker.ScrapedPointErrors` | src/realtime_price/worker.py:27-64 | an extracted point can fail only its kind's range check and, for a blank configured URL, the URL check |
| `Worker.Verdicts` | src/realtime_price/worker.py:91-92 | one verdict per point |
| `Worker.Passing` | src/realtime_price/worker.py:90-98 | the kept points are at most the points |
| `Worker.PassingMembers` | src/realtime_price/worker.py:90-98 | a point is kept iff it occurs with an empty verdict |
| `Worker.ValidPointsMembers` | src/realtime_price/worker.py:90-98 | a point is valid iff it occurs and passes the gate |
| `Worker.PassingAll` | src/realtime_price/worker.py:90-98 | when every verdict is empty, every point is kept |
| `Worker.FirstRejectionExists` | src/realtime_price/worker.py:93-96 | there is an error sample iff some point was rejected |
| `Worker.FirstRejectionIsFirst` | src/realtime_price/worker.py:95-96 | the error sample is built from the first rejected point and its errors |
| `Worker.ValidPointsAllValid` | src/realtime_price/worker.py:90-98 | a list of valid points passes unchanged |
| `Worker.FirstDqSampleExists` | src/realtime_price/worker.py:93-96 | the run's DQ sample exists iff some point fails the gate |
| `Worker.FirstDqSampleIsFirst` | src/realtime_price/worker.py:95-96 | the run's DQ sample names the first failing point and its errors |
| `Worker.FilterValid` | src/realtime_price/worker.py:90-100 | the loop keeps the valid points, counts the rest and keeps the first sample |
| `Worker.StorePoint` | src/realtime_price/worker.py:110-118 | one pass of the loop: the upsert runs exactly when the latest table fits and then reports whether the metric changed; the pass goes through exactly when, in addition, the history table fits or the point is unchanged, and then the tables are those of `StoreStep` |
| `Worker.StorePoints` | src/realtime_price/worker.py:109-118 | the loop goes through exactly when `StoreSucceeds`, and then the tables are `StoreAll` of the points, every point is counted as stored and each as written to the history or skipped, with the history grown by the written count; when a statement raises, no history row is counted, and the latest and skipped counters are 0 and 0 on a latest table that does not fit, else one more than the unchanged prefix and the unchanged prefix |
| `Worker.ReachedNext` | src/realtime_price/worker.py:110-118 | a pass whose statements went through moves the loop's progress one point on: the rest of the points stored from there still gives `StoreAll` of all of them, and the counters grow by one in the history or the skipped column as the point changed its metric |
| `Worker.ReachedEnd` | src/realtime_price/worker.py:109-118 | when every point has been stored the tables are `StoreAll` of the points and the loop went through |
| `Worker.StoreFailsAt` | src/realtime_price/worker.py:109-118 | a pass that raises at point i means the loop fails: on the latest table only at the first point, on the history table exactly at the first point that changes its metric, with no history row counted |
| `Worker.StoreValidPoints` | src/realtime_price/worker.py:106-122 | the loop inside `try`/`finally`: when it goes through, the tables are `StoreAll` of the valid points and the counters as in `StorePoints`; when a statement raises, `conn.close()` without `commit` leaves the latest and history tables and the next id as they were, and the counters are those reached |
| `Worker.StatusOf` | src/realtime_price/worker.py:81-102 | "error" iff an exception was raised; "ok" iff none was and no point failed the gate; otherwise "warn" |
| `Worker.ScrapePage` | src/realtime_price/worker.py:84-87 | a request error raises; otherwise the points are the extractor's |
| `Worker.ScrapeAndFilter` | src/realtime_price/worker.py:83-102 | the counters, status and error sample after the filter; a request error leaves the initial summary |
| `Worker.OpenSchema` | src/realtime_price/worker.py:105-107 | `connect` and `ensure_schema`: SQLite unreachable, else the schema not fitting, is the failure; after the script the latest and history tables fit the store statements exactly when the tables already present did; the run table is migrated |
| `Worker.StageAfterSchema` | src/realtime_price/worker.py:104-122 | once the schema script has run, the stage of the SQLite block is decided by whether the store loop goes through on the tables it left, and where it raises |
| `Worker.StoreStageOfTables` | src/realtime_price/worker.py:104-122 | on a latest and a history table of the current layout (or none) the SQLite block runs through; a latest table of an older layout raises at the first upsert with no counter moved; the counters reached never exceed the valid points |
| `Worker.SqliteStage` | src/realtime_price/worker.py:104-122 | the failure is SQLite unreachable, else `NoSuchColumn` when the schema script or a store statement meets a table of an older layout, else none; when the block runs through, the latest and history tables are `StoreAll` of the valid points and the counters follow, with the history grown by the written count; when a store statement raises, the rows are as before and the counters are those reached before the raise; when the block is not reached nothing changes |
| `Worker.ScrapeAndStore` | src/realtime_price/worker.py:83-122 | the counters, status and sample after the scrape, the DQ filter and the SQLite block, by the stage the block reaches (`CountsOf`): nothing stored before the loop, every valid point stored with `stored_history_count` the number of history rows appended and `skipped_history_count` the rest when it runs through, the counters reached when a store statement raises; the failure is the request, SQLite unreachable, or `NoSuchColumn` from the schema or a store statement, in that order; the latest and history rows change, to `StoreAll` of the valid points, exactly when none occurs |
| `Worker.MongoStage` | src/realtime_price/worker.py:124-146 | raises in every case: unreachable, index conflict, duplicate run id, or else the missing `upsert_observations` after the raw run was inserted |
| `Worker.RecordRun` | src/realtime_price/worker.py:174-205 | the run row is written iff SQLite is reachable, the schema fits, the run id is new and the run table accepts rows |
| `Worker.TryRun` | src/realtime_price/worker.py:83-172 | as written, every run ends "error" with one raised error: the request error with no counter, SQLite unreachable, `NoSuchColumn` from the schema or a store statement, MongoDB unreachable, or later; the counters follow the points and the stage the SQLite block reaches (`CountsOf`), with `stored_history_count` the number of history rows appended; the latest and history tables hold `StoreAll` of the valid points exactly when the block runs through, and are unchanged otherwise; at most one raw run is added |
| `Worker.RaiseAfterStore` | src/realtime_price/worker.py:123-172 | the `except` block as written: a failure of the earlier stages is raised as it is, otherwise the Mongo stage runs and raises; the summary becomes "error" with one more error and the same counters, and at most one raw run is added |
| `Worker.RunScraped` | src/realtime_price/worker.py:83-213 | the `try`, `except` and `finally` blocks: the run ends "error"; counters and SQLite rows as in `TryRun`, so the run row's `stored_history_count` is the number of history rows appended; no observation or latest document; the run row lands under the conditions of `RecordRun` and carries the final summary |
| `Worker.RunOnce` | src/realtime_price/worker.py:67-213 | as written: a failed request gives the fetch-failed summary with zero counters; otherwise the counters are those of `ScrapePoints` of the page by the stage the SQLite block reaches, with `stored_history_count` the number of history rows appended (zero when the loop is not reached or a store statement raises); SQLite holds `StoreAll` of the valid points when the block runs through and its latest and history tables are unchanged otherwise; MongoDB observations and latest documents are never written; the run row is recorded under the same conditions as `RecordRun` |
| `Worker.MongoStageIntended` | src/realtime_price/worker.py:124-146 | with `insert_observations`, a successful stage appends the raw run, one observation per valid point and upserts their latest documents |
| `Worker.TryRunIntended` | src/realtime_price/worker.py:83-172 | with every stage up, the schema fitting and the store loop running through, the run's status is "ok" or "warn" with no error, the sample is the first DQ failure, and MongoDB receives the valid points; `stored_history_count` is the number of history rows appended; any failure, a store statement on a table of an older layout among them, still ends "error" |
| `Worker.RunOnceIntended` | src/realtime_price/worker.py:67-213 | a fully successful run (every stage up, the schema fitting, the store loop running through) is not "error" and MongoDB's latest documents are those of the valid extracted points; `stored_history_count` is the number of history rows appended |
| `Worker.SleepSeconds` | src/realtime_price/worker.py:227 | the pause is the interval, at least five seconds |
| `IngestInseeIncome.ZFill` | src/backend/ingest_insee_income.py:20 | the padded length is max(len, width), and a long enough code is unchanged |
| `IngestInseeIncome.ZFillPads` | src/backend/ingest_insee_income.py:20 | only zeros are added on the left, after a leading sign when there is one |
| `IngestInseeIncome.ZFillKeepsValue` | src/backend/ingest_insee_income.py:20 | padding a digit string keeps its value |
| `IngestInseeIncome.ExtractDept` | src/backend/ingest_insee_income.py:19-25 | fails exactly for a padded code starting with "20" whose third character is not a digit; otherwise a two- or three-character department |
| `IngestInseeIncome.DeptIgnoresCommune` | src/backend/ingest_insee_income.py:20-25 | only the first three characters of a five-character code matter |
| `IngestInseeIncome.CorsicanLettersKept` | src/backend/ingest_insee_income.py:23-25 | codes already starting with 2A or 2B keep that department |
| `IngestInseeIncome.DeptByNumber` | src/backend/ingest_insee_income.py:19-25 | for a numeric code of value v: overseas codes give v / 100, 20000–20999 give 2A below 20200 and 2B above, others give v / 1000 on two digits |
| `ScraperInseeRegion.KeepLetters` | src/backend/scraper_insee_region.py:31 | only `a`–`z` remain, never more characters than given |
| `ScraperInseeRegion.Slug` | src/backend/scraper_insee_region.py:28-31 | a slug is made of `a`–`z` only |
| `ScraperInseeRegion.SlugAppend` | src/backend/scraper_insee_region.py:28-31 | the slug of a concatenation is the concatenation of the slugs |
| `ScraperInseeRegion.SlugOfLetters` | src/backend/scraper_insee_region.py:28-31 | a text of lower-case letters is its own slug |
| `ScraperInseeRegion.SlugIdempotent` | src/backend/scraper_insee_region.py:28-31 | slugging a slug changes nothing |
| `ScraperInseeRegion.SlugIgnores` | src/backend/scraper_insee_region.py:29-31 | removing a space, hyphen, apostrophe, digit or other ASCII non-letter leaves the slug unchanged |
| `ScraperInseeRegion.SlugCharLower` | src/backend/scraper_insee_region.py:30-31 | a character and its lower-case form have the same slug |
| `ScraperInseeRegion.SlugIgnoresCase` | src/backend/scraper_insee_region.py:28-31 | labels that differ only in case have the same slug |
| `ScraperInseeRegion.CleanElement` | src/backend/scraper_insee_region.py:19-24 | a kept element is non-empty and made of digits, `.` and `-` |
| `ScraperInseeRegion.CleanElementMissing` | src/backend/scraper_insee_region.py:23-24 | an element becomes missing iff it has no digit, dot or minus |
| `ScraperInseeRegion.CleanElementJoins` | src/backend/scraper_insee_region.py:23 | cleaning two halves and joining them is cleaning the whole |
| `ScraperInseeRegion.CleanElementIdempotent` | src/backend/scraper_insee_region.py:23-24 | cleaning a cleaned element changes nothing |
| `SetupIndexes.AnyNamed` | src/backend/setup_indexes.py:6 | true iff some column of the table info has the name |
| `SetupIndexes.HasCol` | src/backend/setup_indexes.py:4-6 | true iff the table exists and has a column of that name; a missing table has none |
| `SetupIndexes.AddIndexSpec` | src/backend/setup_indexes.py:8-11 | `AddIndex` (`safe_index`): the index exists afterwards iff it existed or the column exists; an existing index is never replaced; a missing column changes nothing |
| `SetupIndexes.Database.SafeIndex` | src/backend/setup_indexes.py:8-11 | the index set becomes `AddIndex` of the planned index; the schema is untouched |
| `SetupIndexes.Database.CreateIndexes` | src/backend/setup_indexes.py:13-30 | the two calls, the loop over the four INSEE tables and the two last calls run the eight-entry plan in order |
| `SetupIndexes.AfterPlanOnlyAdds` | src/backend/setup_indexes.py:13-30 | `AfterPlan`, the plan run in order, keeps every existing index and adds only planned indexes on existing columns, under their planned names |
| `SetupIndexes.AfterPlanCovers` | src/backend/setup_indexes.py:13-30 | every planned index whose column exists is present afterwards |
| `SetupIndexes.AfterPlanNoop` | src/backend/setup_indexes.py:11 | a plan whose indexes all exist changes nothing (`IF NOT EXISTS`) |
| `SetupIndexes.AfterPlanIdempotent` | src/backend/setup_indexes.py:13-30 | running the script twice is running it once |
| `SetupIndexes.IndexPlanNamesDistinct` | src/backend/setup_indexes.py:17-28 | the eight planned index names are distinct |
| `SetupIndexes.CreateIndexesFresh` | src/backend/setup_indexes.py:13-30 | on a database without indexes, the result is exactly one index per planned column that exists |
| `SqliteToMongoAllTables.LikeAnything` | src/etl/sqlite_to_mongo_all_tables.py:18 | `%` matches every name |
| `SqliteToMongoAllTables.LikePrefix` | src/etl/sqlite_to_mongo_all_tables.py:18 | `Like`, SQL `LIKE`: `LIKE 'q%'` holds iff the name starts with q, with `_` matching any character and ASCII letters case-insensitive |
| `SqliteToMongoAllTables.InternalIff` | src/etl/sqlite_to_mongo_all_tables.py:18 | a name is excluded iff it has at least seven characters and its first six spell "sqlite" ignoring ASCII case |
| `SqliteToMongoAllTables.LexLeqTotal` | src/etl/sqlite_to_mongo_all_tables.py:19 | the name order is total |
| `SqliteToMongoAllTables.LexLeqTransitive` | src/etl/sqlite_to_mongo_all_tables.py:19 | the name order is transitive |
| `SqliteToMongoAllTables.LexLeqAntisymmetric` | src/etl/sqlite_to_mongo_all_tables.py:19 | the name order is antisymmetric |
| `SqliteToMongoAllTables.UserTables` | src/etl/sqlite_to_mongo_all_tables.py:15-18 | every entry kept is a table whose name is not internal |
| `SqliteToMongoAllTables.UserTablesMember` | src/etl/sqlite_to_mongo_all_tables.py:15-18 | an entry is kept iff it is a table of the schema with a non-internal name |
| `SqliteToMongoAllTables.InsertPermutes` | src/etl/sqlite_to_mongo_all_tables.py:19 | insertion adds the entry and loses nothing |
| `SqliteToMongoAllTables.SortPermutes` | src/etl/sqlite_to_mongo_all_tables.py:19 | sorting is a permutation |
| `SqliteToMongoAllTables.InsertAscending` | src/etl/sqlite_to_mongo_all_tables.py:19 | insertion keeps the order |
| `SqliteToMongoAllTables.SortAscending` | src/etl/sqlite_to_mongo_all_tables.py:19 | the sort result is in ascending name order |
| `SqliteToMongoAllTables.FetchTableNames` | src/etl/sqlite_to_mongo_all_tables.py:10-23 | one name per fetched table |
| `SqliteToMongoAllTables.FetchTableNamesSpec` | src/etl/sqlite_to_mongo_all_tables.py:10-23 | `FetchTables`, the query's rows: the names come in ascending order, a name occurs iff it names a user table, and the fetched entries are a permutation of the user tables |
| `SqliteToMongoAllTables.RowDictKeys` | src/etl/sqlite_to_mongo_all_tables.py:33-37 | the keys are exactly the column names `zip` pairs with a value |
| `SqliteToMongoAllTables.RowDictPositional` | src/etl/sqlite_to_mongo_all_tables.py:37 | a column holds the value at its last position |
| `SqliteToMongoAllTables.RowDictOfTable` | src/etl/sqlite_to_mongo_all_tables.py:33-37 | `RowDict` (`dict(zip(columns, row))`): with distinct column names and a full row, each column holds its value and nothing else is a key |
| `SqliteToMongoAllTables.TableDocs` | src/etl/sqlite_to_mongo_all_tables.py:26-37 | one document per row |
| `SqliteToMongoAllTables.ChunksFlatten` | src/etl/sqlite_to_mongo_all_tables.py:83-99 | `Chunks`, the batches of 5000: joined, they are the documents, in order |
| `SqliteToMongoAllTables.ChunksSizes` | src/etl/sqlite_to_mongo_all_tables.py:83-99 | every batch holds 1 to 5000 documents, and every batch but the last exactly 5000 |
| `SqliteToMongoAllTables.ChunksAppend` | src/etl/sqlite_to_mongo_all_tables.py:88-94 | full batches followed by more documents split as their batches followed by the rest's |
| `SqliteToMongoAllTables.OneChunk` | src/etl/sqlite_to_mongo_all_tables.py:97-99 | a remainder of at most 5000 documents is one batch |
| `SqliteToMongoAllTables.InsertCallsAppend` | src/etl/sqlite_to_mongo_all_tables.py:88-99 | the calls for two lists of batches are the calls of each, in order |
| `SqliteToMongoAllTables.MongoTarget.DropCollection` | src/etl/sqlite_to_mongo_all_tables.py:80 | the collection is removed and the call recorded |
| `SqliteToMongoAllTables.MongoTarget.InsertManyDocs` | src/etl/sqlite_to_mongo_all_tables.py:91 | the documents are appended to the collection and the call recorded |
| `SqliteToMongoAllTables.MongoTarget.MigrateTable` | src/etl/sqlite_to_mongo_all_tables.py:66-101 | an empty table is skipped; otherwise the collection is dropped and refilled with the table's documents, with `TableCalls` recorded |
| `SqliteToMongoAllTables.MongoTarget.InsertInBatches` | src/etl/sqlite_to_mongo_all_tables.py:83-99 | the batch loop stores every document and issues one `insert_many` per batch of `Chunks` |
| `SqliteToMongoAllTables.MongoTarget.MigrateAll` | src/etl/sqlite_to_mongo_all_tables.py:53-101 | the collections and calls are those of copying every fetched table in name order; no table, no call |
| `SqliteToMongoAllTables.MongoTarget.MigrateTables` | src/etl/sqlite_to_mongo_all_tables.py:63-101 | the loop over the tables gives `AfterTables` and `CallsOf` |
| `SqliteToMongoAllTables.AfterTablesSpec` | src/etl/sqlite_to_mongo_all_tables.py:63-101 | with distinct names, each non-empty table's collection holds exactly its rows as documents; every other collection is untouched |
| `SqliteToMongoAllTables.TableCallsSpec` | src/etl/sqlite_to_mongo_all_tables.py:74-99 | an empty table issues no call; otherwise a drop, then `insert_many` calls of 1 to 5000 documents into the table's collection, all full but the last, carrying the rows in order |
| `Text.StripSpec` | src/realtime_price/insee_scraper.py:29 | `str.strip()` removes exactly the leading and trailing whitespace |
| `Text.BlankIffStripsEmpty` | src/realtime_price/worker.py:34 | a text is blank iff it strips to the empty string |
| `Text.StripKeeps` | src/realtime_price/insee_scraper.py:29 | a text without whitespace at its ends strips to itself |
| `Text.Lower` | src/realtime_price/insee_scraper.py:67 | `str.lower()` keeps the length, lowers each character, and leaves no ASCII, Latin-1 or fullwidth capital |
| `Text.FoldFullwidth` | src/realtime_price/insee_scraper.py:68 | NFKD folds a fullwidth ASCII form to its ASCII character |
| `Text.LowerIdempotent` | src/realtime_price/insee_scraper.py:67 | lowering twice is lowering once |
| `Text.Upper` | src/realtime_price/insee_scraper.py:49 | `str.upper()` keeps the length and leaves no ASCII lower-case letter |
| `Text.LowerUpper` | src/realtime_price/insee_scraper.py:49 | upper-casing loses nothing that lower-casing keeps: `lower(upper(s)) == lower(s)` |
| `Text.NoNbsp` | src/realtime_price/insee_scraper.py:75 | same length and no NBSP left |
| `Text.ContainsAt` | src/realtime_price/insee_scraper.py:86 | `in` on strings holds iff the needle occurs at some position |
| `Text.NatToString` | src/realtime_price/insee_scraper.py:236 | `str(n)` is a non-empty digit string whose value is n |
| `Text.Fold` | src/realtime_price/insee_scraper.py:68 | NFKD then ASCII with `ignore`, through the model's decomposition table: the result is ASCII only, and since no entry of that table is longer than three characters, at most three characters for each character of the input (a bound of the model's table, not of NFKD, which maps `⒇` to `(20)`) |
| `Text.FoldChar` | src/realtime_price/insee_scraper.py:68 | one character folds to at most three ASCII characters, and an ASCII character to itself |
| `Text.FoldCompat` | src/realtime_price/insee_scraper.py:68 | the ASCII part of a compatibility decomposition is at most three ASCII characters |
| `Text.FoldAppend` | src/realtime_price/insee_scraper.py:68 | the fold of a concatenation is the concatenation of the folds |
| `Text.FoldAscii` | src/realtime_price/insee_scraper.py:68 | an ASCII text is unchanged by the fold |

## Left out

- HTTP requests, HTML parsing and BeautifulSoup: the page is a parameter, either a request error or its tables. A table is its caption and its rows of cells, each cell carrying its header flag and the text `get_text(" ", strip=True)` gives.
- `InseeScraper.ScoreTable`: the scored text is the caption and the cell texts. Text inside the `<table>` but outside the caption and the cells, such as a stray text node between rows, is not scored.
- `InseeScraper.Scrape`: the debug record keeps the score and the table index of each best table, but not the ISO text of the scrape time.
- `InseeScraper.Scrape`: the `try` around the header samples cannot fail in the model, so the samples are always present for a non-empty page.
- Unicode digits: `\d` in regular expressions, and the digits `int()` accepts in `IngestInseeIncome.ExtractDept`, are the ASCII digits only, whereas Python's `re` and `int()` also accept other Unicode decimal digits.
- Case mapping:
  - `lower()` covers ASCII, the Latin-1 capitals and the fullwidth capitals `Ａ`–`Ｚ`. Other capitals, such as Greek or Cyrillic letters or `Ā`, are left as they are. The model's fold then drops them, as the next item says; Python lowers `Ā` to `ā` and folds that to `a`;
  - `upper()` covers ASCII only.
- NFKD folding: the model carries a table of compatibility decompositions.
  - It covers the accented Latin-1 letters; the spaces of every width; the spacing accents; the ordinal indicators; superscript and subscript digits; the fractions `¼`, `½` and `¾`; dot leaders; `№`; `™`; the Latin ligatures; and the fullwidth ASCII forms.
  - Any other non-ASCII character is dropped. Where NFKD has an ASCII part, the result then differs from Python's. Examples: Latin Extended letters such as `ā` (Python keeps `a`), Roman numerals such as `Ⅰ` (Python gives `I`), enclosed characters such as `①` (Python gives `1`), the other fractions such as `⅓` (Python gives `13`), and squared or parenthesised forms such as `⒇` (Python gives `(20)`).
  - Characters whose decomposition has no ASCII part, such as `œ`, `ł` or Greek letters, are dropped by Python too, and the model agrees there.
  - A label using one of these gets a shorter slug, and so a different `metric_uid`, than the one Python computes.
- `Worker.DqValidate`:
  - the error codes are a datatype;
  - `period_invalid:` and the range errors carry the offending value, not Python's `repr` text of it;
  - the `dq:` error sample is kept structured (the metric and its errors), not joined into one string.
- The `repr(e)` text of an exception is the failure itself: the request error, SQLite unreachable, MongoDB unreachable, an index conflict, a duplicate run id, or the missing Mongo function.
- Floating point: values are real numbers plus infinity and NaN.
  - Float rounding is not modelled.
  - `float()` of a decimal literal gives its exact value.
  - `SqliteStore.Store.UpsertLatest`: the change test compares numbers, not their SQLite round trip.
- Time:
  - the clock, `uuid4` and `time.sleep` are parameters or are left out;
  - ISO formatting of times is not modelled; the stored times are the microsecond instants;
  - the `while True` loop of `main` is left out; only the length of the pause is modelled, by `Worker.SleepSeconds`.
- Logging and `print` are left out: they only write to standard output.
- Reachability: SQLite and MongoDB are each reachable for a whole run or not at all. A database that fails half-way through a stage is not modelled.
- Connections, cursors, MongoDB's `_id` field and `ordered=False` are left out. Every write is applied when it is made, with one exception: when a store statement raises inside the `try` of worker.py:106-122, `conn.close()` runs without `commit`, and the model puts the latest and history rows and the next id back as they were. The schema script's changes stay, since `ensure_schema` commits them.
- `SqliteStore.Store.UpsertLatest`: `ON CONFLICT(metric_uid)` also needs a primary key or unique index on `metric_uid`. Tables are tracked by their columns only, so a latest table of an older layout that has every column but no such key counts as fitting, whereas SQLite raises on it.
- `SqliteStore.Store.UpsertLatest` and `SqliteStore.Store.InsertHistory`: a table of an older layout with an extra `NOT NULL` column that has no default would refuse the rows. The model counts such a table as fitting when it has every column the statements name.
- Indexes are tracked by name and indexed columns only. An index of the same name but other columns, left by an older version of the script, counts as present, as `IF NOT EXISTS` makes it.
- `SqliteToMongoAllTables.MongoTarget.MigrateAll` copies the rows of the fetched schema entries. It does not re-run `COUNT(*)` and `SELECT *` against a live database.
- `SqliteToMongoAllTables.MongoTarget.MigrateAll`: the `COUNT(*)` and `SELECT *` statements paste the table name unquoted (sqlite_to_mongo_all_tables.py:32, 70). A table whose name needs quoting (a space, a keyword) makes them raise, which stops `main`. The model copies every table and does not capture that exception.
- `ORDER BY name` is ordering by code points. SQLite's default BINARY collation compares UTF-8 bytes, which gives the same order.
- SQLite values (`SqlReal` among them) are abstract and are copied unchanged into documents.
- `_clean_numeric` is modelled one element at a time (`ScraperInseeRegion.CleanElement`). The pandas `astype(str)` and `astype(float)` conversions around it are not modelled.
- `_read_tables` and the three `fetch_*` functions of `scraper_insee_region.py` are left out: they are network and pandas I/O.
- The `main` functions are left out, except the parts modelled by the class methods:
  - the CSV pipeline of `ingest_insee_income.py`;
  - the connections of `setup_indexes.py` and `sqlite_to_mongo_all_tables.py`.

## Findings

| source | as written | input that shows it | evidently intended | confidence | as-written member | corrected member |
|---|---|---|---|---|---|---|
| src/realtime_price/worker.py:143 | calls `mongo_store.upsert_observations`, which `mongo_store.py` does not define. The resulting `AttributeError` is caught by the `except` at line 162. | Any run where the page is fetched, SQLite is reachable with a schema that fits and latest and history tables that take the store statements, and MongoDB is reachable with indexes that fit and a new run id: it ends with status "error", and no observation or latest document is ever written. | Call `mongo_store.insert_observations(obs_col, valid_points)` (mongo_store.py:59), so that a successful run is "ok" or "warn" and MongoDB receives the valid points. | not executed | `Worker.RunOnce` | `Worker.RunOnceIntended` |
