// The Mongo mirror of the real-time price worker: raw runs, observations and
// the latest document per metric, held as abstract collections. Indexes are
// kept by name; a unique index is what rejects a second raw run with the same
// `run_id`. Connections, `_id` generation and write concerns are not modelled.

module MongoStore {
  import opened Base
  import opened InseeScraper

  // =====================================================================
  // `_bson_dt`

  /** A Python datetime: wall-clock microseconds and, for an aware value,
      its UTC offset in microseconds (`None` for a naive one). */
  datatype DateTime = DateTime(wall: int, offset: Option<int>)

  /** The instant a datetime denotes, a naive one being read as UTC. */
  function Instant(dt: DateTime): int
  {
    dt.wall - dt.offset.GetOr(0)
  }

  /** The aware UTC datetime of an instant, as `datetime.now(UTC)` gives. */
  function Utc(t: int): DateTime
  {
    DateTime(t, Some(0))
  }

  /** `_bson_dt`: a naive datetime denoting the same UTC instant. */
  function BsonDt(dt: DateTime): (r: DateTime)
    ensures r.offset.None? && Instant(r) == Instant(dt)
  {
    var aware := if dt.offset.None? then DateTime(dt.wall, Some(0)) else dt;
    var utc := DateTime(aware.wall - aware.offset.value, Some(0));
    DateTime(utc.wall, None)
  }

  /** Converting twice is converting once, and a UTC instant keeps its
      wall-clock reading. */
  lemma BsonDtIdempotent(dt: DateTime)
    ensures BsonDt(BsonDt(dt)) == BsonDt(dt)
    ensures BsonDt(Utc(Instant(dt))) == BsonDt(dt)
  {
  }

  // =====================================================================
  // Documents and indexes

  datatype RawRunDoc = RawRunDoc(runId: string, sourceUrl: string, scrapedAt: DateTime, rawDebug: Debug)

  datatype ObservationDoc = ObservationDoc(
    metricUid: string, metricName: string, geo: string, unit: string, period: string,
    value: Num, source: string, sourceUrl: string, scrapedAt: DateTime)

  /** A latest document; its `metric_uid` is the key of the collection map. */
  datatype LatestDoc = LatestDoc(
    metricName: string, geo: string, unit: string, period: string, value: Num,
    source: string, sourceUrl: string, firstSeenAt: DateTime, lastSeenAt: DateTime, scrapedAt: DateTime)

  /** An index: its name, its ascending key fields and whether it is unique. */
  datatype IndexDef = IndexDef(name: string, keys: seq<string>, unique: bool)

  const UniqRunId := IndexDef("uniq_run_id", ["run_id"], true)
  const RawScrapedAt := IndexDef("idx_scraped_at", ["scraped_at"], false)
  const ObsMetricScraped := IndexDef("idx_metric_scraped", ["metric_uid", "scraped_at"], false)
  const ObsScrapedAt := IndexDef("idx_scraped_at", ["scraped_at"], false)
  const UniqMetricUid := IndexDef("uniq_metric_uid", ["metric_uid"], true)
  const LatestLastSeen := IndexDef("idx_last_seen_at", ["last_seen_at"], false)

  /** `create_index` refuses an index when another definition holds its
      name (`IndexKeySpecsConflict`) or its keys under another name or
      other options (`IndexOptionsConflict`); the same definition again is
      a no-op. */
  predicate Conflicts(existing: set<IndexDef>, d: IndexDef)
  {
    exists e :: e in existing && e != d && (e.name == d.name || e.keys == d.keys)
  }

  /** An index of another name and other keys does not change whether a
      later index conflicts. */
  lemma ConflictsWith(existing: set<IndexDef>, e: IndexDef, d: IndexDef)
    requires e.name != d.name && e.keys != d.keys
    ensures Conflicts(existing + {e}, d) == Conflicts(existing, d)
  {
    if Conflicts(existing + {e}, d) {
      var x :| x in existing + {e} && x != d && (x.name == d.name || x.keys == d.keys);
      assert x in existing;
    }
  }

  /** `ensure_indexes` succeeds: neither the name nor the keys of an index
      are held by another definition, and the raw runs allow a unique
      index on `run_id`. */
  predicate IndexesFit(raw: set<IndexDef>, obs: set<IndexDef>, latest: set<IndexDef>, runs: seq<RawRunDoc>)
  {
    && !Conflicts(raw, UniqRunId) && DistinctRunIds(runs) && !Conflicts(raw, RawScrapedAt)
    && !Conflicts(obs, ObsMetricScraped) && !Conflicts(obs, ObsScrapedAt)
    && !Conflicts(latest, UniqMetricUid) && !Conflicts(latest, LatestLastSeen)
  }

  predicate HasRun(runs: seq<RawRunDoc>, runId: string)
  {
    exists i :: 0 <= i < |runs| && runs[i].runId == runId
  }

  predicate DistinctRunIds(runs: seq<RawRunDoc>)
  {
    forall i, j :: 0 <= i < j < |runs| ==> runs[i].runId != runs[j].runId
  }

  /** The observation `insert_observations` writes for a point. */
  function ObservationOf(p: PricePoint): ObservationDoc
  {
    ObservationDoc(p.metricUid, p.metricName, p.geo, p.unit, p.period, p.value,
                   p.source, p.sourceUrl, BsonDt(Utc(p.scrapedAt)))
  }

  /** An observation keeps every field of its point: the point can be read
      back from it. */
  lemma ObservationKeepsPoint(p: PricePoint)
    ensures var o := ObservationOf(p);
            PricePoint(o.metricUid, o.metricName, o.geo, o.unit, o.period, o.value,
                       o.source, o.sourceUrl, Instant(o.scrapedAt)) == p
  {
  }

  function ObservationDocs(ps: seq<PricePoint>): (docs: seq<ObservationDoc>)
    ensures |docs| == |ps|
    ensures forall i :: 0 <= i < |ps| ==> docs[i] == ObservationOf(ps[i])
  {
    if ps == [] then [] else [ObservationOf(ps[0])] + ObservationDocs(ps[1..])
  }

  /** One `update_one(..., upsert=True)`: `$set` overwrites every field,
      `$setOnInsert` gives `first_seen_at` only to a new document. */
  function UpsertOne(latest: map<string, LatestDoc>, p: PricePoint): (l: map<string, LatestDoc>)
    ensures l.Keys == latest.Keys + {p.metricUid}
    ensures forall k :: k in latest && k != p.metricUid ==> l[k] == latest[k]
    ensures var d := l[p.metricUid];
            && d.metricName == p.metricName && d.geo == p.geo && d.unit == p.unit
            && d.period == p.period && d.value == p.value
            && d.source == p.source && d.sourceUrl == p.sourceUrl
            && Instant(d.lastSeenAt) == p.scrapedAt && Instant(d.scrapedAt) == p.scrapedAt
            && d.firstSeenAt == (if p.metricUid in latest then latest[p.metricUid].firstSeenAt
                                 else BsonDt(Utc(p.scrapedAt)))
  {
    var t := BsonDt(Utc(p.scrapedAt));
    var first := if p.metricUid in latest then latest[p.metricUid].firstSeenAt else t;
    latest[p.metricUid := LatestDoc(p.metricName, p.geo, p.unit, p.period, p.value,
                                    p.source, p.sourceUrl, first, t, t)]
  }

  /** `upsert_latest` over a list: one upsert per point, in order. */
  function UpsertAll(latest: map<string, LatestDoc>, ps: seq<PricePoint>): map<string, LatestDoc>
    decreases |ps|
  {
    if ps == [] then latest else UpsertAll(UpsertOne(latest, ps[0]), ps[1..])
  }

  /** The last point of a list with a given metric. */
  function LastWith(ps: seq<PricePoint>, uid: string): (r: Option<PricePoint>)
    ensures r.Some? ==> r.value in ps && r.value.metricUid == uid
    ensures r.None? ==> forall p :: p in ps ==> p.metricUid != uid
  {
    if ps == [] then None
    else if ps[|ps| - 1].metricUid == uid then Some(ps[|ps| - 1])
    else LastWith(ps[..|ps| - 1], uid)
  }

  /** The first point of a list with a given metric. */
  function FirstWith(ps: seq<PricePoint>, uid: string): (r: Option<PricePoint>)
    ensures r.Some? ==> r.value in ps && r.value.metricUid == uid
    ensures r.None? ==> forall p :: p in ps ==> p.metricUid != uid
  {
    if ps == [] then None
    else if ps[0].metricUid == uid then Some(ps[0])
    else FirstWith(ps[1..], uid)
  }

  /** The document the last point of a metric leaves, with the first-seen
      time it inherits. */
  predicate DocFrom(d: LatestDoc, p: PricePoint, firstSeenAt: DateTime)
  {
    d == LatestDoc(p.metricName, p.geo, p.unit, p.period, p.value, p.source, p.sourceUrl,
                   firstSeenAt, BsonDt(Utc(p.scrapedAt)), BsonDt(Utc(p.scrapedAt)))
  }

  lemma LastWithAppend(ps: seq<PricePoint>, p: PricePoint, uid: string)
    ensures LastWith(ps + [p], uid) == if p.metricUid == uid then Some(p) else LastWith(ps, uid)
  {
    assert (ps + [p])[..|ps|] == ps;
  }

  lemma FirstWithAppend(ps: seq<PricePoint>, p: PricePoint, uid: string)
    ensures FirstWith(ps + [p], uid) == if FirstWith(ps, uid).Some? then FirstWith(ps, uid)
                                        else if p.metricUid == uid then Some(p) else None
  {
    if ps != [] {
      assert (ps + [p])[1..] == ps[1..] + [p];
      FirstWithAppend(ps[1..], p, uid);
    }
  }

  lemma UpsertAllAppend(latest: map<string, LatestDoc>, ps: seq<PricePoint>, p: PricePoint)
    ensures UpsertAll(latest, ps + [p]) == UpsertOne(UpsertAll(latest, ps), p)
    decreases |ps|
  {
    if ps != [] {
      assert (ps + [p])[1..] == ps[1..] + [p];
      UpsertAllAppend(UpsertOne(latest, ps[0]), ps[1..], p);
    }
  }

  /** The first-seen time a metric ends with: the stored one, or the time of
      its first point in the list. */
  function InheritedFirstSeen(latest: map<string, LatestDoc>, ps: seq<PricePoint>, uid: string): DateTime
    requires uid in latest || FirstWith(ps, uid).Some?
  {
    if uid in latest then latest[uid].firstSeenAt else BsonDt(Utc(FirstWith(ps, uid).value.scrapedAt))
  }

  /** After `upsert_latest(points)`, a metric has a document iff it had one
      or occurs in the list; a metric of the list holds its last point's
      fields and keeps its old `first_seen_at`, or else takes its first
      point's time; any other document is untouched. */
  lemma {:induction false} UpsertAllLastWins(latest: map<string, LatestDoc>, ps: seq<PricePoint>, uid: string)
    ensures var l := UpsertAll(latest, ps);
            && (uid in l <==> uid in latest || LastWith(ps, uid).Some?)
            && (uid in latest && LastWith(ps, uid).None? ==> l[uid] == latest[uid])
            && (LastWith(ps, uid).Some? ==>
                  && FirstWith(ps, uid).Some? && uid in l
                  && DocFrom(l[uid], LastWith(ps, uid).value, InheritedFirstSeen(latest, ps, uid)))
    decreases |ps|
  {
    if ps != [] {
      var front := ps[..|ps| - 1];
      var p := ps[|ps| - 1];
      assert ps == front + [p];
      UpsertAllLastWins(latest, front, uid);
      UpsertAllAppend(latest, front, p);
      LastWithAppend(front, p, uid);
      FirstWithAppend(front, p, uid);
      if LastWith(front, uid).Some? {
        assert FirstWith(ps, uid) == FirstWith(front, uid);
      }
    }
  }

  /** After `upsert_latest(points)` there is exactly one document per metric
      seen before or in the list. */
  lemma {:induction false} UpsertAllKeys(latest: map<string, LatestDoc>, ps: seq<PricePoint>)
    ensures UpsertAll(latest, ps).Keys == latest.Keys + (set p | p in ps :: p.metricUid)
    decreases |ps|
  {
    if ps != [] {
      UpsertAllKeys(UpsertOne(latest, ps[0]), ps[1..]);
      assert (set p | p in ps :: p.metricUid) == {ps[0].metricUid} + (set p | p in ps[1..] :: p.metricUid);
    }
  }

  // =====================================================================
  // The mirror

  class Mirror {
    var rawIndexes: set<IndexDef>
    var obsIndexes: set<IndexDef>
    var latestIndexes: set<IndexDef>
    var rawRuns: seq<RawRunDoc>
    var observations: seq<ObservationDoc>
    /** The latest collection, keyed by `metric_uid`. */
    var latest: map<string, LatestDoc>

    /** The unique index on `run_id`, once present, holds. */
    predicate Valid()
      reads this`rawIndexes, this`rawRuns
    {
      UniqRunId in rawIndexes ==> DistinctRunIds(rawRuns)
    }

    constructor ()
      ensures rawIndexes == {} && obsIndexes == {} && latestIndexes == {}
      ensures rawRuns == [] && observations == [] && latest == map[]
      ensures Valid()
    {
      rawIndexes := {};
      obsIndexes := {};
      latestIndexes := {};
      rawRuns := [];
      observations := [];
      latest := map[];
    }

    /** `create_index` on the raw collection; a unique index cannot be built
        over documents that already repeat its key. */
    method CreateRawIndex(d: IndexDef) returns (ok: bool)
      requires Valid()
      modifies this`rawIndexes
      ensures Valid()
      ensures ok == (!Conflicts(old(rawIndexes), d) && (d == UniqRunId ==> DistinctRunIds(rawRuns)))
      ensures rawIndexes == if ok then old(rawIndexes) + {d} else old(rawIndexes)
    {
      ok := !Conflicts(rawIndexes, d) && (d == UniqRunId ==> DistinctRunIds(rawRuns));
      if ok {
        rawIndexes := rawIndexes + {d};
      }
    }

    /** `ensure_indexes`: two indexes on each collection, the one on
        observations not unique. The first refused creation stops it. */
    method EnsureIndexes() returns (ok: bool)
      requires Valid()
      modifies this`rawIndexes, this`obsIndexes, this`latestIndexes
      ensures Valid()
      ensures ok ==> && rawIndexes == old(rawIndexes) + {UniqRunId, RawScrapedAt}
                     && obsIndexes == old(obsIndexes) + {ObsMetricScraped, ObsScrapedAt}
                     && latestIndexes == old(latestIndexes) + {UniqMetricUid, LatestLastSeen}
      ensures ok == IndexesFit(old(rawIndexes), old(obsIndexes), old(latestIndexes), rawRuns)
      ensures old(rawIndexes) <= rawIndexes && old(obsIndexes) <= obsIndexes && old(latestIndexes) <= latestIndexes
    {
      ConflictsWith(rawIndexes, UniqRunId, RawScrapedAt);
      ConflictsWith(obsIndexes, ObsMetricScraped, ObsScrapedAt);
      ConflictsWith(latestIndexes, UniqMetricUid, LatestLastSeen);
      ok := CreateRawIndex(UniqRunId);
      if !ok { return; }
      ok := CreateRawIndex(RawScrapedAt);
      if !ok { return; }
      ok := false;
      if Conflicts(obsIndexes, ObsMetricScraped) { return; }
      obsIndexes := obsIndexes + {ObsMetricScraped};
      if Conflicts(obsIndexes, ObsScrapedAt) { return; }
      obsIndexes := obsIndexes + {ObsScrapedAt};
      if Conflicts(latestIndexes, UniqMetricUid) { return; }
      latestIndexes := latestIndexes + {UniqMetricUid};
      if Conflicts(latestIndexes, LatestLastSeen) { return; }
      latestIndexes := latestIndexes + {LatestLastSeen};
      ok := true;
    }

    /** `insert_raw_run`: one document, refused when the unique index on
        `run_id` exists and the id is already stored. */
    method InsertRawRun(runId: string, sourceUrl: string, scrapedAt: DateTime, rawDebug: Debug) returns (ok: bool)
      requires Valid()
      modifies this`rawRuns
      ensures Valid()
      ensures ok == !(UniqRunId in rawIndexes && HasRun(old(rawRuns), runId))
      ensures rawRuns == if ok then old(rawRuns) + [RawRunDoc(runId, sourceUrl, BsonDt(scrapedAt), rawDebug)]
                         else old(rawRuns)
    {
      ok := !(UniqRunId in rawIndexes && HasRun(rawRuns, runId));
      if ok {
        rawRuns := rawRuns + [RawRunDoc(runId, sourceUrl, BsonDt(scrapedAt), rawDebug)];
      }
    }

    /** `insert_observations`: nothing for an empty list, else one document
        per point, in order; no index forbids repeating them. */
    method InsertObservations(ps: seq<PricePoint>)
      modifies this`observations
      ensures observations == old(observations) + ObservationDocs(ps)
    {
      if ps == [] {
        return;
      }
      var docs: seq<ObservationDoc> := [];
      for i := 0 to |ps|
        invariant docs == ObservationDocs(ps[..i])
      {
        docs := docs + [ObservationOf(ps[i])];
      }
      assert ps[..|ps|] == ps;
      observations := observations + docs;
    }

    /** `upsert_latest`: one upsert per point, in order. */
    method UpsertLatest(ps: seq<PricePoint>)
      modifies this`latest
      ensures latest == UpsertAll(old(latest), ps)
    {
      for i := 0 to |ps|
        invariant latest == UpsertAll(old(latest), ps[..i])
      {
        UpsertAllAppend(old(latest), ps[..i], ps[i]);
        assert ps[..i + 1] == ps[..i] + [ps[i]];
        latest := UpsertOne(latest, ps[i]);
      }
      assert ps[..|ps|] == ps;
    }
  }

  /** A second raw run under an id already stored is refused once the
      unique index exists: two successful inserts carry distinct ids. */
  lemma RawRunIdsStayDistinct(runs: seq<RawRunDoc>, d: RawRunDoc)
    requires DistinctRunIds(runs) && !HasRun(runs, d.runId)
    ensures DistinctRunIds(runs + [d])
  {
  }
}
