// The canonical SQLite store of the real-time price worker: the latest value
// of each metric, the deduplicated history of changes, the run log, and the
// additive migration of the run table. A database is abstracted as its table
// schemas (column names) and the rows the worker reads and writes; SQL text,
// connections and commits are not modelled. Timestamps are UTC microseconds
// and stand for the ISO strings the source writes.

module SqliteStore {
  import opened Base
  import opened Text
  import opened InseeScraper
  import opened RunRecord

  const LatestTable := "realtime_price_latest"
  const HistoryTable := "realtime_price_history"
  const RunsTable := "realtime_price_runs"

  const LatestColumns: set<string> := {
    "metric_uid", "metric_name", "geo", "unit", "period", "value",
    "source", "source_url", "first_seen_at", "last_seen_at", "scraped_at"}

  const HistoryColumns: set<string> := {
    "id", "metric_uid", "metric_name", "geo", "unit", "period", "value",
    "source", "source_url", "scraped_at"}

  const RunColumns: set<string> := {
    "run_id", "started_at", "finished_at", "duration_ms", "status", "source_url",
    "points_count", "points_valid_count", "stored_latest_count", "stored_history_count",
    "skipped_history_count", "dq_errors_count", "errors_count", "error_sample"}

  /** The seven columns later versions added to the run table, as
      (name, type) pairs; the column definition is `name + " " + type`. */
  const Migrations: seq<(string, string)> := [
    ("duration_ms", "INTEGER NOT NULL DEFAULT 0"),
    ("status", "TEXT NOT NULL DEFAULT 'ok'"),
    ("points_valid_count", "INTEGER NOT NULL DEFAULT 0"),
    ("stored_latest_count", "INTEGER NOT NULL DEFAULT 0"),
    ("stored_history_count", "INTEGER NOT NULL DEFAULT 0"),
    ("skipped_history_count", "INTEGER NOT NULL DEFAULT 0"),
    ("dq_errors_count", "INTEGER NOT NULL DEFAULT 0")]

  /** An index of the schema script: its name, its table and the columns
      it covers. */
  datatype SchemaIndex = SchemaIndex(name: string, table: string, cols: set<string>)

  const RphMetricScraped := SchemaIndex("idx_rph_metric_scraped", HistoryTable, {"metric_uid", "scraped_at"})
  const RphScraped := SchemaIndex("idx_rph_scraped", HistoryTable, {"scraped_at"})
  const RprStarted := SchemaIndex("idx_rpr_started", RunsTable, {"started_at"})
  const RprFinished := SchemaIndex("idx_rpr_finished", RunsTable, {"finished_at"})

  const SchemaIndexes: set<string> := {
    "idx_rph_metric_scraped", "idx_rph_scraped", "idx_rpr_started", "idx_rpr_finished"}

  /** The columns `CREATE TABLE IF NOT EXISTS` gives a missing table. */
  function FreshColumns(table: string): set<string>
  {
    if table == LatestTable then LatestColumns
    else if table == HistoryTable then HistoryColumns
    else RunColumns
  }

  lemma SchemaIndexNames()
    ensures SchemaIndexes == {RphMetricScraped.name, RphScraped.name, RprStarted.name, RprFinished.name}
  {
  }

  /** `CREATE TABLE IF NOT EXISTS`: a missing table is created with the
      current columns, an existing one is left as it is. */
  function WithTable(columns: map<string, set<string>>, table: string): (c: map<string, set<string>>)
    ensures c.Keys == columns.Keys + {table}
    ensures forall t :: t in columns ==> c[t] == columns[t]
    ensures table !in columns ==> c[table] == FreshColumns(table)
  {
    if table in columns then columns else columns[table := FreshColumns(table)]
  }

  /** The tables once the three `CREATE TABLE` statements of the script
      have run. */
  function WithTables(columns: map<string, set<string>>): map<string, set<string>>
  {
    WithTable(WithTable(WithTable(columns, LatestTable), HistoryTable), RunsTable)
  }

  /** `CREATE INDEX IF NOT EXISTS` goes through: the name is taken already,
      which makes the statement a no-op, or the table exists and has every
      indexed column. Otherwise SQLite raises "no such table" or "no such
      column". */
  predicate IndexFits(columns: map<string, set<string>>, indexes: set<string>, d: SchemaIndex)
  {
    d.name in indexes || (d.table in columns && d.cols <= columns[d.table])
  }

  /** The schema script runs to its end: each of its four indexes fits the
      tables as the script leaves them. A history or run table of an older
      layout that lacks an indexed column stops it. */
  predicate SchemaFits(columns: map<string, set<string>>, indexes: set<string>)
  {
    forall k :: 0 <= k < |ScriptIndexes| ==> IndexFits(WithTables(columns), indexes, ScriptIndexes[k])
  }

  /** The script's indexes, in the order it creates them. */
  const ScriptIndexes: seq<SchemaIndex> := [RphMetricScraped, RphScraped, RprStarted, RprFinished]

  /** The schema fits exactly when each of the four indexes does. */
  lemma SchemaFitsEach(columns: map<string, set<string>>, indexes: set<string>)
    ensures SchemaFits(columns, indexes) <==>
              var c := WithTables(columns);
              && IndexFits(c, indexes, RphMetricScraped) && IndexFits(c, indexes, RphScraped)
              && IndexFits(c, indexes, RprStarted) && IndexFits(c, indexes, RprFinished)
  {
    assert ScriptIndexes[0] == RphMetricScraped && ScriptIndexes[1] == RphScraped;
    assert ScriptIndexes[2] == RprStarted && ScriptIndexes[3] == RprFinished;
  }

  /** The script fits an empty database, and fits again once it has run:
      a second `ensure_schema` never fails where the first succeeded. */
  lemma SchemaFitsAgain(columns: map<string, set<string>>, indexes: set<string>)
    ensures SchemaFits(map[], {})
    ensures SchemaFits(columns, indexes) ==> SchemaFits(WithTables(columns), indexes + SchemaIndexes)
  {
    SchemaFitsEach(map[], {});
    SchemaFitsEach(columns, indexes);
    SchemaFitsEach(WithTables(columns), indexes + SchemaIndexes);
    SchemaIndexNames();
    assert WithTables(WithTables(columns)) == WithTables(columns);
  }

  /** A history table whose missing `scraped_at` is not yet indexed makes
      the script raise, whatever the other tables hold. */
  lemma SchemaFailsOnLegacyHistory(columns: map<string, set<string>>, indexes: set<string>)
    requires HistoryTable in columns && "scraped_at" !in columns[HistoryTable]
    requires "idx_rph_scraped" !in indexes
    ensures !SchemaFits(columns, indexes)
  {
    SchemaFitsEach(columns, indexes);
    assert WithTables(columns)[HistoryTable] == columns[HistoryTable];
  }

  datatype LatestRow = LatestRow(
    metricName: string, geo: string, unit: string, period: string, value: Num,
    source: string, sourceUrl: string, firstSeenAt: int, lastSeenAt: int, scrapedAt: int)

  datatype HistoryRow = HistoryRow(
    id: nat, metricUid: string, metricName: string, geo: string, unit: string,
    period: string, value: Num, source: string, sourceUrl: string, scrapedAt: int)

  datatype RunRow = RunRow(
    startedAt: int, finishedAt: int, durationMs: int, status: string, sourceUrl: string,
    pointsCount: nat, pointsValidCount: nat, storedLatestCount: nat, storedHistoryCount: nat,
    skippedHistoryCount: nat, dqErrorsCount: nat, errorsCount: nat, errorSample: Option<ErrorSample>)

  // =====================================================================
  // Deduplication: `upsert_latest` and `insert_history` as functions

  /** `changed` of `upsert_latest`: no row yet, or another period, or a
      value that is not `==` to the stored one (NaN never is). */
  predicate Changed(latest: map<string, LatestRow>, p: PricePoint)
  {
    p.metricUid !in latest
    || latest[p.metricUid].period != p.period
    || !FloatEq(latest[p.metricUid].value, p.value)
  }

  /** The row the upsert leaves: every field from the point, except that an
      existing row keeps its `first_seen_at`. */
  function Upserted(latest: map<string, LatestRow>, p: PricePoint): (l: map<string, LatestRow>)
    ensures l.Keys == latest.Keys + {p.metricUid}
    ensures forall k :: k in latest && k != p.metricUid ==> l[k] == latest[k]
    ensures var r := l[p.metricUid];
            && r.metricName == p.metricName && r.geo == p.geo && r.unit == p.unit
            && r.period == p.period && r.value == p.value
            && r.source == p.source && r.sourceUrl == p.sourceUrl
            && r.lastSeenAt == p.scrapedAt && r.scrapedAt == p.scrapedAt
            && r.firstSeenAt == (if p.metricUid in latest then latest[p.metricUid].firstSeenAt else p.scrapedAt)
  {
    var first := if p.metricUid in latest then latest[p.metricUid].firstSeenAt else p.scrapedAt;
    latest[p.metricUid := LatestRow(p.metricName, p.geo, p.unit, p.period, p.value,
                                    p.source, p.sourceUrl, first, p.scrapedAt, p.scrapedAt)]
  }

  function HistoryOf(id: nat, p: PricePoint): HistoryRow
  {
    HistoryRow(id, p.metricUid, p.metricName, p.geo, p.unit, p.period, p.value,
               p.source, p.sourceUrl, p.scrapedAt)
  }

  /** Upserting the same point twice changes nothing the second time: for
      every point the store accepts (a NaN is refused, see `UpsertLatest`)
      the second call reports "unchanged", and the row is the same. */
  lemma UpsertIdempotent(latest: map<string, LatestRow>, p: PricePoint)
    ensures !p.value.NaN? ==> !Changed(Upserted(latest, p), p)
    ensures Upserted(Upserted(latest, p), p) == Upserted(latest, p)
  {
  }

  /** The (period, value) of the last history row of a metric. */
  function LastFor(history: seq<HistoryRow>, uid: string): (r: Option<(string, Num)>)
    ensures r.Some? ==> exists i :: 0 <= i < |history| && history[i].metricUid == uid
  {
    if history == [] then None
    else if history[|history| - 1].metricUid == uid then
      Some((history[|history| - 1].period, history[|history| - 1].value))
    else LastFor(history[..|history| - 1], uid)
  }

  /** The latest table and the history agree: every metric with a history
      has a latest row whose period and value are those of its last
      history row. */
  ghost predicate Synced(latest: map<string, LatestRow>, history: seq<HistoryRow>)
  {
    forall uid :: LastFor(history, uid).Some? ==>
      uid in latest && LastFor(history, uid) == Some((latest[uid].period, latest[uid].value))
  }

  /** Row `n - 1` repeats the period and value of the previous history row
      of the same metric. */
  predicate RepeatsAt(history: seq<HistoryRow>, n: nat)
    requires 0 < n <= |history|
  {
    match LastFor(history[..n - 1], history[n - 1].metricUid)
    case None => false
    case Some((period, value)) => period == history[n - 1].period && FloatEq(value, history[n - 1].value)
  }

  /** History records changes only: no row repeats the previous row of its
      metric. */
  predicate NoRepeats(history: seq<HistoryRow>)
  {
    forall n :: 0 < n <= |history| ==> !RepeatsAt(history, n)
  }

  /** Storing one point as the worker does: upsert, then append to the
      history when the upsert reported a change. */
  function StoreStep(latest: map<string, LatestRow>, history: seq<HistoryRow>, id: nat, p: PricePoint)
    : (map<string, LatestRow>, seq<HistoryRow>)
  {
    (Upserted(latest, p), if Changed(latest, p) then history + [HistoryOf(id, p)] else history)
  }

  lemma LastForAppend(history: seq<HistoryRow>, row: HistoryRow, uid: string)
    ensures LastFor(history + [row], uid)
            == if row.metricUid == uid then Some((row.period, row.value)) else LastFor(history, uid)
  {
    assert (history + [row])[..|history|] == history;
  }

  /** The store step keeps the latest table in line with the history and
      never appends a row that repeats the metric's previous one. */
  lemma StoreStepKeepsDedup(latest: map<string, LatestRow>, history: seq<HistoryRow>, id: nat, p: PricePoint)
    requires Synced(latest, history)
    ensures var (l, h) := StoreStep(latest, history, id, p);
            Synced(l, h) && (NoRepeats(history) ==> NoRepeats(h))
  {
    var (l, h) := StoreStep(latest, history, id, p);
    var uid := p.metricUid;
    if Changed(latest, p) {
      var row := HistoryOf(id, p);
      forall u | LastFor(h, u).Some?
        ensures u in l && LastFor(h, u) == Some((l[u].period, l[u].value))
      {
        LastForAppend(history, row, u);
      }
      if NoRepeats(history) {
        forall n | 0 < n <= |h|
          ensures !RepeatsAt(h, n)
        {
          if n <= |history| {
            assert h[..n - 1] == history[..n - 1] && h[n - 1] == history[n - 1];
            assert !RepeatsAt(history, n);
          } else {
            assert h[..n - 1] == history && h[n - 1] == row;
            if uid in latest {
              FloatEqIsEqualityExceptNaN(latest[uid].value, p.value);
            }
          }
        }
      }
    } else {
      FloatEqIsEqualityExceptNaN(latest[uid].value, p.value);
      forall u | LastFor(h, u).Some?
        ensures u in l && LastFor(h, u) == Some((l[u].period, l[u].value))
      {
      }
    }
  }

  /** The worker's storing loop as a function: the latest table, the
      history and the next history id once every point has gone through
      `StoreStep`, in order. */
  function StoreAll(latest: map<string, LatestRow>, history: seq<HistoryRow>, nextId: nat, ps: seq<PricePoint>)
    : (map<string, LatestRow>, seq<HistoryRow>, nat)
    decreases |ps|
  {
    if ps == [] then (latest, history, nextId)
    else
      var (l, h) := StoreStep(latest, history, nextId, ps[0]);
      StoreAll(l, h, if Changed(latest, ps[0]) then nextId + 1 else nextId, ps[1..])
  }

  /** Storing a list keeps the latest table in line with the history and
      the history free of repeated rows. */
  lemma {:induction false} StoreAllKeepsDedup(latest: map<string, LatestRow>, history: seq<HistoryRow>, nextId: nat, ps: seq<PricePoint>)
    requires Synced(latest, history)
    ensures var (l, h, _) := StoreAll(latest, history, nextId, ps);
            Synced(l, h) && (NoRepeats(history) ==> NoRepeats(h))
    decreases |ps|
  {
    if ps != [] {
      StoreStepKeepsDedup(latest, history, nextId, ps[0]);
      var (l, h) := StoreStep(latest, history, nextId, ps[0]);
      StoreAllKeepsDedup(l, h, if Changed(latest, ps[0]) then nextId + 1 else nextId, ps[1..]);
    }
  }

  /** Storing only appends to the history, one row per id handed out, at
      most one per point, and every metric stored has a latest row. */
  lemma {:induction false} StoreAllAppends(latest: map<string, LatestRow>, history: seq<HistoryRow>, nextId: nat, ps: seq<PricePoint>)
    ensures var (l, h, n) := StoreAll(latest, history, nextId, ps);
            && |history| <= |h| && h[..|history|] == history
            && n - nextId == |h| - |history| <= |ps|
            && l.Keys == latest.Keys + set p | p in ps :: p.metricUid
    decreases |ps|
  {
    if ps != [] {
      var (l1, h1) := StoreStep(latest, history, nextId, ps[0]);
      var n1 := if Changed(latest, ps[0]) then nextId + 1 else nextId;
      StoreAllAppends(l1, h1, n1, ps[1..]);
      var (l, h, n) := StoreAll(latest, history, nextId, ps);
      assert h[..|h1|] == h1;
      assert h1[..|history|] == history;
      assert h[..|history|] == history;
      assert (set p | p in ps :: p.metricUid) == {ps[0].metricUid} + set p | p in ps[1..] :: p.metricUid;
    }
  }

  // =====================================================================
  // Store statements against tables of an older layout

  /** The columns `insert_history` names: every history column but the
      `id` SQLite assigns. */
  const HistoryWritten: set<string> := {
    "metric_uid", "metric_name", "geo", "unit", "period", "value",
    "source", "source_url", "scraped_at"}

  /** `upsert_latest` goes through: the latest table exists with every
      column its SELECT reads and its INSERT writes. */
  predicate LatestFits(columns: map<string, set<string>>)
  {
    LatestTable in columns && LatestColumns <= columns[LatestTable]
  }

  /** `insert_history` goes through: the history table exists with every
      column its INSERT writes. */
  predicate HistoryFits(columns: map<string, set<string>>)
  {
    HistoryTable in columns && HistoryWritten <= columns[HistoryTable]
  }

  /** The latest table will fit once the schema script has run: it is
      missing, and the script creates it with the current columns, or it
      has them already. */
  predicate LatestAccepts(columns: map<string, set<string>>)
  {
    LatestTable !in columns || LatestColumns <= columns[LatestTable]
  }

  /** The same for the history table. */
  predicate HistoryAccepts(columns: map<string, set<string>>)
  {
    HistoryTable !in columns || HistoryWritten <= columns[HistoryTable]
  }

  /** The schema script keeps an existing latest or history table as it is
      and creates a missing one with the current columns, so the store
      statements fit afterwards exactly when the tables accepted them
      before. */
  lemma FitsAfterSchema(before: map<string, set<string>>, after: map<string, set<string>>)
    requires LatestTable in after && HistoryTable in after
    requires forall t :: t in before && t != RunsTable ==> t in after && after[t] == before[t]
    requires forall t :: t in after && t !in before && t != RunsTable ==> after[t] == FreshColumns(t)
    ensures LatestFits(after) <==> LatestAccepts(before)
    ensures HistoryFits(after) <==> HistoryAccepts(before)
  {
    assert HistoryWritten <= HistoryColumns;
  }

  /** How many points, from the first, the storing loop meets unchanged
      before the first one that changes its metric: the points it gets
      through before its first `insert_history`. */
  function UnchangedPrefix(latest: map<string, LatestRow>, ps: seq<PricePoint>): (k: nat)
    ensures k <= |ps|
    decreases |ps|
  {
    if ps == [] || Changed(latest, ps[0]) then 0
    else 1 + UnchangedPrefix(Upserted(latest, ps[0]), ps[1..])
  }

  /** The loop never reaches `insert_history` exactly when it appends no
      history row. */
  lemma {:induction false} UnchangedPrefixIffNoHistory(latest: map<string, LatestRow>, history: seq<HistoryRow>,
                                                       nextId: nat, ps: seq<PricePoint>)
    ensures UnchangedPrefix(latest, ps) == |ps| <==> StoreAll(latest, history, nextId, ps).1 == history
    decreases |ps|
  {
    if ps != [] {
      var (l, h) := StoreStep(latest, history, nextId, ps[0]);
      var n := if Changed(latest, ps[0]) then nextId + 1 else nextId;
      assert StoreAll(latest, history, nextId, ps) == StoreAll(l, h, n, ps[1..]);
      if Changed(latest, ps[0]) {
        StoreAllAppends(l, h, n, ps[1..]);
      } else {
        UnchangedPrefixIffNoHistory(l, h, n, ps[1..]);
      }
    }
  }

  /** The storing loop runs to its end: there is no point, or the latest
      table fits and either the history table fits or no point changes
      its metric, so that `insert_history` is never reached. */
  predicate StoreSucceeds(latestFits: bool, historyFits: bool, latest: map<string, LatestRow>, ps: seq<PricePoint>)
  {
    ps == [] || (latestFits && (historyFits || UnchangedPrefix(latest, ps) == |ps|))
  }

  /** The loop fails exactly when a statement it reaches meets a table that
      lacks a column: the first upsert on the latest table, or the first
      history insert, which appending a history row needs. */
  lemma StoreFailsIff(latestFits: bool, historyFits: bool, latest: map<string, LatestRow>,
                      history: seq<HistoryRow>, nextId: nat, ps: seq<PricePoint>)
    ensures !StoreSucceeds(latestFits, historyFits, latest, ps) <==>
              (ps != [] && !latestFits) || (!historyFits && StoreAll(latest, history, nextId, ps).1 != history)
  {
    UnchangedPrefixIffNoHistory(latest, history, nextId, ps);
    if ps == [] {
      assert StoreAll(latest, history, nextId, ps).1 == history;
    }
  }

  // =====================================================================
  // `insert_run`

  /** Division truncating toward zero, as Python's `int()` of a float. */
  function TruncDiv(a: int, b: nat): (q: int)
    requires b > 0
    ensures a >= 0 ==> q >= 0 && q * b <= a < (q + 1) * b
    ensures a < 0 ==> q <= 0 && -q * b <= -a < (-q + 1) * b
  {
    if a >= 0 then
      DivBounds(a, b);
      a / b
    else
      DivBounds(-a, b);
      -((-a) / b)
  }

  lemma DivBounds(a: nat, b: nat)
    requires b > 0
    ensures 0 <= a / b && (a / b) * b <= a < (a / b + 1) * b
  {
    var q, r := a / b, a % b;
    assert a == q * b + r && 0 <= r < b;
    assert (q + 1) * b == q * b + b;
  }

  /** `int((finished_at - started_at).total_seconds() * 1000)` with times
      in microseconds: whole milliseconds, truncated toward zero. */
  function DurationMs(startedAt: int, finishedAt: int): (ms: int)
    ensures finishedAt >= startedAt ==> 0 <= ms * 1000 <= finishedAt - startedAt < ms * 1000 + 1000
    ensures finishedAt < startedAt ==> 0 <= -ms * 1000 <= startedAt - finishedAt < -ms * 1000 + 1000
  {
    TruncDiv(finishedAt - startedAt, 1000)
  }

  // =====================================================================
  // `_ensure_column`

  /** The leading run of non-whitespace characters. */
  function TakeWord(s: string): (w: string)
    ensures |w| <= |s| && w == s[..|w|]
    ensures forall i :: 0 <= i < |w| ==> !IsSpace(w[i])
    ensures |w| < |s| ==> IsSpace(s[|w|])
  {
    if s == [] || IsSpace(s[0]) then [] else [s[0]] + TakeWord(s[1..])
  }

  /** `col_def.strip().split()[0]`; a blank definition has no first token
      and makes the source raise, so it is excluded. */
  function ColumnName(colDef: string): string
    requires !IsBlank(colDef)
  {
    TakeWord(Strip(colDef))
  }

  predicate IsWord(w: string)
  {
    w != [] && forall i :: 0 <= i < |w| ==> !IsSpace(w[i])
  }

  /** The name of a definition `name + " " + type` is `name`. */
  lemma ColumnNameOfDef(name: string, ty: string)
    requires IsWord(name) && ty != [] && !IsSpace(ty[|ty| - 1])
    ensures !IsBlank(name + " " + ty) && ColumnName(name + " " + ty) == name
  {
    var d := name + " " + ty;
    assert d[0] == name[0] && d[|d| - 1] == ty[|ty| - 1];
    StripKeeps(d);
    forall i | 0 <= i < |name|
      ensures !IsSpace(d[i])
    {
      assert d[i] == name[i];
    }
    assert IsSpace(d[|name|]);
    assert d[..|name|] == name;
  }

  /** Adding a column when it is missing: the result has it, loses nothing,
      and a second addition changes nothing. */
  function WithColumn(cols: set<string>, name: string): (r: set<string>)
    ensures r == cols + {name}
    ensures name in cols ==> r == cols
  {
    if name !in cols then cols + {name} else cols
  }

  lemma WithColumnIdempotent(cols: set<string>, name: string)
    ensures WithColumn(WithColumn(cols, name), name) == WithColumn(cols, name)
    ensures cols <= WithColumn(cols, name)
  {
  }

  /** A migration is a column name followed by a type that does not end in
      whitespace. */
  predicate WellFormedMigration(m: (string, string))
  {
    IsWord(m.0) && m.1 != [] && !IsSpace(m.1[|m.1| - 1])
  }

  /** Lower-case letters and underscores make a word. */
  lemma LowerWord(w: string)
    requires w != [] && forall i :: 0 <= i < |w| ==> 'a' <= w[i] <= 'z' || w[i] == '_'
    ensures IsWord(w)
  {
  }

  /** A migration whose type ends in `0` or a quote is well formed when its
      name is a lower-case word. */
  lemma MigrationOfWord(m: (string, string))
    requires m.0 != [] && forall i :: 0 <= i < |m.0| ==> 'a' <= m.0[i] <= 'z' || m.0[i] == '_'
    requires m.1 != [] && m.1[|m.1| - 1] in "0'"
    ensures WellFormedMigration(m)
  {
    LowerWord(m.0);
  }

  lemma MigrationsWellFormed()
    ensures forall i :: 0 <= i < |Migrations| ==> WellFormedMigration(Migrations[i])
  {
    forall i | 0 <= i < |Migrations|
      ensures WellFormedMigration(Migrations[i])
    {
      MigrationOfWord(Migrations[i]);
    }
  }

  function MigrationNames(ms: seq<(string, string)>): set<string>
  {
    if ms == [] then {} else {ms[0].0} + MigrationNames(ms[1..])
  }

  // =====================================================================
  // The store

  class Store {
    /** Table name to column names, for the tables that exist. */
    var columns: map<string, set<string>>
    var indexes: set<string>
    var latest: map<string, LatestRow>
    var history: seq<HistoryRow>
    /** The next AUTOINCREMENT id: larger than every id ever handed out. */
    var nextId: nat
    var runs: map<string, RunRow>

    /** Ids increase along the history and stay below `nextId`. */
    predicate Valid()
      reads this`history, this`nextId
    {
      && (forall i, j :: 0 <= i < j < |history| ==> history[i].id < history[j].id)
      && (forall i :: 0 <= i < |history| ==> history[i].id < nextId)
    }

    constructor ()
      ensures columns == map[] && indexes == {} && latest == map[] && history == [] && runs == map[]
      ensures Valid()
    {
      columns := map[];
      indexes := {};
      latest := map[];
      history := [];
      nextId := 1;
      runs := map[];
    }

    /** `_ensure_column`: adds the column named by the definition's first
        token when the table lacks it. Altering a missing table raises;
        `ok` is false then and nothing changes. */
    method EnsureColumn(table: string, colDef: string) returns (ok: bool)
      requires !IsBlank(colDef)
      modifies this`columns
      ensures ok == (table in old(columns))
      ensures ok ==> columns == old(columns)[table := WithColumn(old(columns)[table], ColumnName(colDef))]
      ensures !ok ==> columns == old(columns)
    {
      ok := table in columns;
      if ok {
        var name := ColumnName(colDef);
        var cols := columns[table];
        if name !in cols {
          columns := columns[table := cols + {name}];
        }
      }
    }

    /** One `CREATE INDEX IF NOT EXISTS` of the schema script. */
    method CreateIndex(d: SchemaIndex) returns (ok: bool)
      modifies this`indexes
      ensures ok == IndexFits(columns, old(indexes), d)
      ensures indexes == if ok then old(indexes) + {d.name} else old(indexes)
      ensures d.name in old(indexes) ==> indexes == old(indexes)
    {
      if d.name in indexes {
        return true;
      }
      ok := d.table in columns && d.cols <= columns[d.table];
      if ok {
        indexes := indexes + {d.name};
      }
    }

    /** The schema script, statement by statement: the latest and history
        tables, the two history indexes, the run table, the two run
        indexes. */
    method CreateSchema() returns (ok: bool)
      modifies this`columns, this`indexes
      ensures (ok, columns, indexes) == Script(old(columns), old(indexes))
    {
      columns := WithTable(columns, LatestTable);
      columns := WithTable(columns, HistoryTable);
      ok := CreateIndex(RphMetricScraped);
      if !ok { return; }
      ok := CreateIndex(RphScraped);
      if !ok { return; }
      columns := WithTable(columns, RunsTable);
      ok := CreateIndex(RprStarted);
      if !ok { return; }
      ok := CreateIndex(RprFinished);
    }

    /** `ensure_schema`: the schema script, then the seven migrations of the
        run table, then the four indexes again, which the script has just
        made, so that those statements change nothing. When the script
        succeeds, the run table ends with every migrated column and keeps
        the others; when it raises, `ensure_schema` raises with it and a
        later call raises the same way. No row changes. */
    method EnsureSchema() returns (ok: bool)
      modifies this`columns, this`indexes
      ensures ok == SchemaFits(old(columns), old(indexes))
      ensures ok ==> SchemaFits(columns, indexes)
      ensures ok ==> LatestTable in columns && HistoryTable in columns && RunsTable in columns
      ensures ok ==> columns[RunsTable] == MigratedRunTable(old(columns))
      ensures ok ==> forall t :: t in old(columns) && t != RunsTable ==> t in columns && columns[t] == old(columns)[t]
      ensures ok ==> forall t :: t in columns && t !in old(columns) && t != RunsTable ==> columns[t] == FreshColumns(t)
      ensures ok ==> columns.Keys == old(columns).Keys + {LatestTable, HistoryTable, RunsTable}
      ensures ok ==> indexes == old(indexes) + SchemaIndexes
      ensures ok ==> (RunColumns <= columns[RunsTable] <==> AcceptsRuns(old(columns)))
      ensures !ok ==> !SchemaFits(columns, indexes)
      ensures !ok ==> forall t :: t in old(columns) ==> t in columns && columns[t] == old(columns)[t]
      ensures AcceptsRuns(columns) <==> AcceptsRuns(old(columns))
    {
      ghost var columns0, indexes0 := columns, indexes;
      SchemaKeepsAcceptsRuns(columns0);
      ScriptFitsIff(columns0, indexes0);
      ok := CreateSchema();
      if !ok {
        ScriptFails(columns0, indexes0);
        FailedSchemaKeepsAcceptsRuns(columns0, columns);
        return;
      }
      ScriptSucceeds(columns0, indexes0);
      MigrationNamesAll();
      MigrateRuns();
      ghost var migrated := columns;
      MigratedSchema(columns0, indexes0);
      CreateIndexesAgain();
    }

    /** The four `CREATE INDEX IF NOT EXISTS` statements that close
        `ensure_schema`: once the script has created them, each is a
        no-op. */
    method CreateIndexesAgain()
      modifies this`indexes
      ensures old(indexes) <= indexes
      ensures SchemaIndexes <= old(indexes) ==> indexes == old(indexes)
    {
      SchemaIndexNames();
      var again := CreateIndex(RprStarted);
      again := CreateIndex(RprFinished);
      again := CreateIndex(RphMetricScraped);
      again := CreateIndex(RphScraped);
    }

    /** The seven `_ensure_column` calls on the run table, in order. */
    method MigrateRuns()
      requires RunsTable in columns
      modifies this`columns
      ensures columns == old(columns)[RunsTable := old(columns)[RunsTable] + MigrationNames(Migrations)]
    {
      var i := 0;
      ghost var runs0 := columns[RunsTable];
      assert Migrations[..0] == [];
      while i < |Migrations|
        invariant 0 <= i <= |Migrations|
        invariant RunsTable in columns && columns == old(columns)[RunsTable := columns[RunsTable]]
        invariant columns[RunsTable] == runs0 + MigrationNames(Migrations[..i])
      {
        var (name, ty) := Migrations[i];
        MigrationDef(i);
        MigrationNamesPrefix(i);
        var ok := EnsureColumn(RunsTable, name + " " + ty);
        i := i + 1;
      }
      assert Migrations[..|Migrations|] == Migrations;
    }

    /** `upsert_latest`. SQLite binds a NaN as NULL, which `value REAL NOT
        NULL` refuses, and a latest table of an older layout lacks a
        column the statements name: either way a statement raises, `ok`
        is false and nothing changes. */
    method UpsertLatest(p: PricePoint) returns (ok: bool, changed: bool)
      modifies this`latest
      ensures ok == (!p.value.NaN? && LatestFits(columns))
      ensures ok ==> changed == Changed(old(latest), p) && latest == Upserted(old(latest), p)
      ensures !ok ==> latest == old(latest)
    {
      changed := p.metricUid !in latest
                 || latest[p.metricUid].period != p.period
                 || !FloatEq(latest[p.metricUid].value, p.value);
      ok := !p.value.NaN? && LatestFits(columns);
      if !ok {
        return;
      }
      var first := if p.metricUid in latest then latest[p.metricUid].firstSeenAt else p.scrapedAt;
      latest := latest[p.metricUid := LatestRow(p.metricName, p.geo, p.unit, p.period, p.value,
                                                p.source, p.sourceUrl, first, p.scrapedAt, p.scrapedAt)];
    }

    /** `insert_history`: one row with a fresh id above every earlier one. A
        NaN value is bound as NULL and refused by `value REAL NOT NULL`,
        and a history table of an older layout lacks a column the INSERT
        names: `ok` is false then and nothing changes. */
    method InsertHistory(p: PricePoint) returns (ok: bool)
      requires Valid()
      modifies this`history, this`nextId
      ensures Valid()
      ensures ok == (!p.value.NaN? && HistoryFits(columns))
      ensures ok ==> history == old(history) + [HistoryOf(old(nextId), p)] && nextId == old(nextId) + 1
      ensures !ok ==> history == old(history) && nextId == old(nextId)
    {
      ok := !p.value.NaN? && HistoryFits(columns);
      if ok {
        history := history + [HistoryOf(nextId, p)];
        nextId := nextId + 1;
      }
    }

    /** `insert_run`: one row under a new `run_id`. The primary key rejects
        an id already present, and a run table missing a column rejects the
        insert; `ok` is false then and nothing changes. */
    method InsertRun(runId: string, startedAt: int, finishedAt: int, sourceUrl: string,
                     pointsCount: nat, pointsValidCount: nat, storedLatestCount: nat,
                     storedHistoryCount: nat, skippedHistoryCount: nat, dqErrorsCount: nat,
                     errorsCount: nat, errorSample: Option<ErrorSample>, status: string)
      returns (ok: bool)
      modifies this`runs
      ensures ok == (RunsTable in columns && RunColumns <= columns[RunsTable] && runId !in old(runs))
      ensures ok ==> runs == old(runs)[runId := RunRow(
                startedAt, finishedAt, DurationMs(startedAt, finishedAt), status, sourceUrl,
                pointsCount, pointsValidCount, storedLatestCount, storedHistoryCount,
                skippedHistoryCount, dqErrorsCount, errorsCount, errorSample)]
      ensures !ok ==> runs == old(runs)
    {
      ok := RunsTable in columns && RunColumns <= columns[RunsTable] && runId !in runs;
      if ok {
        var durationMs := DurationMs(startedAt, finishedAt);
        runs := runs[runId := RunRow(startedAt, finishedAt, durationMs, status, sourceUrl,
                                     pointsCount, pointsValidCount, storedLatestCount, storedHistoryCount,
                                     skippedHistoryCount, dqErrorsCount, errorsCount, errorSample)];
      }
    }
  }

  /** The definition the migration loop passes for migration `i` names
      that migration's column. */
  lemma MigrationDef(i: nat)
    requires i < |Migrations|
    ensures var (name, ty) := Migrations[i];
            !IsBlank(name + " " + ty) && ColumnName(name + " " + ty) == name
  {
    MigrationsWellFormed();
    assert WellFormedMigration(Migrations[i]);
    ColumnNameOfDef(Migrations[i].0, Migrations[i].1);
  }

  lemma MigrationNamesPrefix(i: nat)
    requires i < |Migrations|
    ensures MigrationNames(Migrations[..i + 1]) == MigrationNames(Migrations[..i]) + {Migrations[i].0}
  {
    MigrationNamesAppend(Migrations[..i], Migrations[i]);
    assert Migrations[..i + 1] == Migrations[..i] + [Migrations[i]];
  }

  lemma MigrationNamesAppend(ms: seq<(string, string)>, m: (string, string))
    ensures MigrationNames(ms + [m]) == MigrationNames(ms) + {m.0}
  {
    if ms != [] {
      assert (ms + [m])[1..] == ms[1..] + [m];
      MigrationNamesAppend(ms[1..], m);
    } else {
      assert (ms + [m])[1..] == [];
    }
  }

  /** The run table's columns after `ensure_schema`: those it had, or the
      current ones for a new table, plus every migrated column. */
  function MigratedRunTable(columns: map<string, set<string>>): set<string>
  {
    (if RunsTable in columns then columns[RunsTable] else RunColumns) + MigratedColumns
  }

  /** After `ensure_schema` the run table accepts `insert_run` exactly when
      it is new or has the columns of the first version; a second
      `ensure_schema` changes nothing more. */
  lemma MigratedRunTableComplete(columns: map<string, set<string>>)
    ensures RunColumns <= MigratedRunTable(columns) <==> RunsTable !in columns || BaseRunColumns <= columns[RunsTable]
    ensures MigratedRunTable(columns[RunsTable := MigratedRunTable(columns)]) == MigratedRunTable(columns)
  {
    if RunsTable in columns {
      MigrationCompletesRunTable(columns[RunsTable]);
    }
  }

  /** `executescript(SCHEMA_SQL)` on the tables and indexes: whether it
      ran to its end, and the tables and indexes it leaves. It stops at the
      first statement that raises and keeps what the earlier ones did. */
  function Script(columns: map<string, set<string>>, indexes: set<string>)
    : (bool, map<string, set<string>>, set<string>)
  {
    var c2 := WithTable(WithTable(columns, LatestTable), HistoryTable);
    if !IndexFits(c2, indexes, RphMetricScraped) then (false, c2, indexes)
    else
      var i1 := indexes + {RphMetricScraped.name};
      if !IndexFits(c2, i1, RphScraped) then (false, c2, i1)
      else
        var c3 := WithTable(c2, RunsTable);
        var i2 := i1 + {RphScraped.name};
        if !IndexFits(c3, i2, RprStarted) then (false, c3, i2)
        else
          var i3 := i2 + {RprStarted.name};
          if !IndexFits(c3, i3, RprFinished) then (false, c3, i3)
          else (true, c3, i3 + {RprFinished.name})
  }

  /** The script runs to its end exactly when the schema fits. */
  lemma ScriptFitsIff(columns: map<string, set<string>>, indexes: set<string>)
    ensures Script(columns, indexes).0 == SchemaFits(columns, indexes)
  {
    SchemaFitsEach(columns, indexes);
    TablesAgain(columns);
  }

  /** A script that runs to its end leaves the three tables and the four
      indexes. */
  lemma ScriptSucceeds(columns: map<string, set<string>>, indexes: set<string>)
    requires Script(columns, indexes).0
    ensures Script(columns, indexes).1 == WithTables(columns)
    ensures Script(columns, indexes).2 == indexes + SchemaIndexes
  {
    TablesAgain(columns);
    SchemaIndexNames();
  }

  /** When the script raises, it has created at most the missing tables
      and some of the indexes, the run table is as it was or still missing,
      and the schema still does not fit, so that running it again raises
      again. */
  lemma ScriptFails(columns: map<string, set<string>>, indexes: set<string>)
    requires !Script(columns, indexes).0
    ensures var (_, c, i) := Script(columns, indexes);
            && (|| c == WithTable(WithTable(columns, LatestTable), HistoryTable)
                || (c == WithTables(columns) && RunsTable in columns))
            && indexes <= i && !SchemaFits(c, i)
  {
    TablesAgain(columns);
    var (_, c, i) := Script(columns, indexes);
    SchemaFitsEach(c, i);
    var w := WithTables(columns);
    var c2 := WithTable(WithTable(columns, LatestTable), HistoryTable);
    var i1 := indexes + {RphMetricScraped.name};
    var i2 := i1 + {RphScraped.name};
    if !IndexFits(c2, indexes, RphMetricScraped) {
      assert c == c2 && i == indexes;
      assert !IndexFits(w, i, RphMetricScraped);
    } else if !IndexFits(c2, i1, RphScraped) {
      assert c == c2 && i == i1;
      assert !IndexFits(w, i, RphScraped);
    } else if !IndexFits(w, i2, RprStarted) {
      assert c == w && i == i2;
    } else {
      assert c == w && i == i2 + {RprStarted.name};
    }
  }

  /** Running the `CREATE TABLE` statements again, or the rest of them,
      adds nothing. */
  lemma TablesAgain(columns: map<string, set<string>>)
    ensures WithTable(WithTable(WithTable(columns, LatestTable), HistoryTable), RunsTable) == WithTables(columns)
    ensures WithTables(WithTable(WithTable(columns, LatestTable), HistoryTable)) == WithTables(columns)
    ensures WithTables(WithTables(columns)) == WithTables(columns)
  {
  }

  /** The tables `ensure_schema` leaves after a successful script and the
      migrations: those of the script, with the migrated run table. */
  lemma MigratedSchema(columns: map<string, set<string>>, indexes: set<string>)
    requires SchemaFits(columns, indexes)
    ensures var c := WithTables(columns)[RunsTable := WithTables(columns)[RunsTable] + MigratedColumns];
            && c[RunsTable] == MigratedRunTable(columns)
            && c.Keys == columns.Keys + {LatestTable, HistoryTable, RunsTable}
            && (forall t :: t in columns && t != RunsTable ==> c[t] == columns[t])
            && (forall t :: t in c && t !in columns && t != RunsTable ==> c[t] == FreshColumns(t))
            && SchemaFits(c, indexes + SchemaIndexes)
            && (RunColumns <= c[RunsTable] <==> AcceptsRuns(columns))
  {
    var w := WithTables(columns);
    var c := w[RunsTable := w[RunsTable] + MigratedColumns];
    assert WithTables(c) == c;
    SchemaFitsEach(c, indexes + SchemaIndexes);
    SchemaIndexNames();
    MigratedRunTableComplete(columns);
  }

  /** A script that raised leaves the run table as it was, or still
      missing, so the run table accepts rows exactly as before. */
  lemma FailedSchemaKeepsAcceptsRuns(before: map<string, set<string>>, after: map<string, set<string>>)
    requires || after == WithTable(WithTable(before, LatestTable), HistoryTable)
             || (after == WithTables(before) && RunsTable in before)
    ensures AcceptsRuns(after) <==> AcceptsRuns(before)
    ensures forall t :: t in before ==> t in after && after[t] == before[t]
  {
  }

  /** The run table lets `insert_run` through once `ensure_schema` has run:
      it is new, or has the columns of the first version. */
  predicate AcceptsRuns(columns: map<string, set<string>>)
  {
    RunsTable !in columns || BaseRunColumns <= columns[RunsTable]
  }

  /** `ensure_schema` neither gives nor takes away that property. */
  lemma SchemaKeepsAcceptsRuns(columns: map<string, set<string>>)
    ensures AcceptsRuns(columns[RunsTable := MigratedRunTable(columns)]) <==> AcceptsRuns(columns)
  {
    MigratedRunTableComplete(columns);
    var m := MigratedRunTable(columns);
    MigrationCompletesRunTable(m);
    assert m + MigratedColumns == m;
  }

  /** The columns of the first version of the run table. */
  const BaseRunColumns: set<string> := {
    "run_id", "started_at", "finished_at", "source_url", "points_count", "errors_count", "error_sample"}

  /** The names of the seven migrated columns. */
  const MigratedColumns: set<string> := {
    "duration_ms", "status", "points_valid_count", "stored_latest_count",
    "stored_history_count", "skipped_history_count", "dq_errors_count"}

  /** The migrations add exactly the migrated columns. */
  lemma MigrationNamesAll()
    ensures MigrationNames(Migrations) == MigratedColumns
  {
    var ms := Migrations;
    assert MigrationNames(ms[7..]) == {};
    assert MigrationNames(ms[6..]) == {"dq_errors_count"} by { assert ms[6..][1..] == ms[7..]; }
    assert MigrationNames(ms[5..]) == {"skipped_history_count", "dq_errors_count"} by { assert ms[5..][1..] == ms[6..]; }
    assert MigrationNames(ms[4..]) == {"stored_history_count", "skipped_history_count", "dq_errors_count"} by { assert ms[4..][1..] == ms[5..]; }
    assert MigrationNames(ms[3..]) == {"stored_latest_count", "stored_history_count", "skipped_history_count", "dq_errors_count"} by { assert ms[3..][1..] == ms[4..]; }
    assert MigrationNames(ms[2..]) == {"points_valid_count", "stored_latest_count", "stored_history_count", "skipped_history_count", "dq_errors_count"} by { assert ms[2..][1..] == ms[3..]; }
    assert MigrationNames(ms[1..]) == {"status", "points_valid_count", "stored_latest_count", "stored_history_count", "skipped_history_count", "dq_errors_count"} by { assert ms[1..][1..] == ms[2..]; }
  }

  /** The migrations bring a run table to the current column set exactly
      when it has the columns of the first version. */
  lemma MigrationCompletesRunTable(cols: set<string>)
    ensures RunColumns <= cols + MigratedColumns <==> BaseRunColumns <= cols
  {
    assert RunColumns == BaseRunColumns + MigratedColumns;
    assert BaseRunColumns !! MigratedColumns;
  }
}
