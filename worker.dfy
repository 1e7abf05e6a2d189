// The real-time price worker: the data-quality gate, one run of scrape,
// filter, SQLite and Mongo with its counters and status, the run record
// written in every case, and the interval between runs. The HTTP fetch, the
// clock, `uuid4` and the availability of the two databases are parameters of
// a run.

module Worker {
  import opened Base
  import opened Text
  import opened RunRecord
  import opened InseeScraper
  import opened SqliteStore
  import opened MongoStore

  // =====================================================================
  // The data-quality gate

  /** `_is_finite_number`: neither NaN nor an infinity. */
  function IsFiniteNumber(x: Num): (b: bool)
    ensures b <==> x.Finite?
  {
    match x
    case Finite(_) => true
    case _ => false
  }

  /** The point is checked against the index range. */
  predicate IndexLike(p: PricePoint)
  {
    p.unit == "index_base" || StartsWith(p.metricUid, "insee_indices")
  }

  /** The point is checked against the percentage range. */
  predicate PctLike(p: PricePoint)
  {
    p.unit == "pct" || StartsWith(p.metricUid, "insee_yoy")
  }

  /** The first check: a blank `metric_uid`. */
  function UidErrors(uid: string): (errs: seq<DqError>)
  {
    if IsBlank(uid) then [MetricUidEmpty] else []
  }

  /** The second check: a blank period, or one that is not `YYYY-T[1-4]`
      once stripped. */
  function PeriodErrors(period: string): (errs: seq<DqError>)
  {
    if IsBlank(period) then [PeriodEmpty]
    else if !IsPeriod(Strip(period)) then [PeriodInvalid(period)]
    else []
  }

  /** The range check of a finite value. */
  function RangeErrors(p: PricePoint): (errs: seq<DqError>)
    requires p.value.Finite?
  {
    var v := p.value.r;
    if IndexLike(p) then (if v <= 0.0 || v > 2000.0 then [ValueOutOfRangeIndex(v)] else [])
    else if PctLike(p) then (if v < -200.0 || v > 200.0 then [ValueOutOfRangePct(v)] else [])
    else []
  }

  /** The remaining checks: a value that is not finite stops there;
      otherwise the range, then a blank `source_url`. */
  function ValueErrors(p: PricePoint): (errs: seq<DqError>)
  {
    if !IsFiniteNumber(p.value) then [ValueNotFinite]
    else RangeErrors(p) + (if IsBlank(p.sourceUrl) then [SourceUrlEmpty] else [])
  }

  /** `_dq_validate_point`: the failed checks, in the order they run. */
  function DqValidate(p: PricePoint): (errs: seq<DqError>)
  {
    UidErrors(p.metricUid) + PeriodErrors(p.period) + ValueErrors(p)
  }

  /** What the gate lets through, condition by condition, with the
      blank tests written as Python's `not s.strip()`. */
  predicate Acceptable(p: PricePoint)
  {
    && Strip(p.metricUid) != []
    && IsPeriod(Strip(p.period))
    && p.value.Finite?
    && (IndexLike(p) ==> 0.0 < p.value.r <= 2000.0)
    && (!IndexLike(p) && PctLike(p) ==> -200.0 <= p.value.r <= 200.0)
    && Strip(p.sourceUrl) != []
  }

  /** A point passes the gate exactly when it is acceptable. */
  lemma DqAcceptsIff(p: PricePoint)
    ensures DqValidate(p) == [] <==> Acceptable(p)
  {
    var u, pe, v := UidErrors(p.metricUid), PeriodErrors(p.period), ValueErrors(p);
    assert |u + pe + v| == |u| + |pe| + |v|;
    BlankIffStripsEmpty(p.metricUid);
    BlankIffStripsEmpty(p.period);
    BlankIffStripsEmpty(p.sourceUrl);
  }

  lemma InConcat3<T>(x: T, a: seq<T>, b: seq<T>, c: seq<T>)
    ensures x in a + b + c <==> x in a || x in b || x in c
  {
    assert x in a + b + c <==> x in a + b || x in c;
  }

  /** Each error names the check that failed: the blank identifier, period
      and URL errors appear exactly when those fields are blank, and a value
      that is not finite is the last error, with no range or URL check
      after it. */
  lemma DqErrorsExplained(p: PricePoint)
    ensures var errs := DqValidate(p);
            && (MetricUidEmpty in errs <==> IsBlank(p.metricUid))
            && (PeriodEmpty in errs <==> IsBlank(p.period))
            && (PeriodInvalid(p.period) in errs <==> !IsBlank(p.period) && !IsPeriod(Strip(p.period)))
            && (ValueNotFinite in errs <==> !p.value.Finite?)
            && (!p.value.Finite? ==> errs[|errs| - 1] == ValueNotFinite && SourceUrlEmpty !in errs)
            && (SourceUrlEmpty in errs <==> p.value.Finite? && IsBlank(p.sourceUrl))
  {
    var u, pe, v := UidErrors(p.metricUid), PeriodErrors(p.period), ValueErrors(p);
    ValueErrorsExplained(p);
    InConcat3(MetricUidEmpty, u, pe, v);
    InConcat3(PeriodEmpty, u, pe, v);
    InConcat3(PeriodInvalid(p.period), u, pe, v);
    InConcat3(ValueNotFinite, u, pe, v);
    InConcat3(SourceUrlEmpty, u, pe, v);
  }

  /** The errors of the value checks concern the value and the URL only. */
  lemma ValueErrorsExplained(p: PricePoint)
    ensures var v := ValueErrors(p);
            && (!p.value.Finite? ==> v == [ValueNotFinite])
            && (ValueNotFinite in v <==> !p.value.Finite?)
            && (SourceUrlEmpty in v <==> p.value.Finite? && IsBlank(p.sourceUrl))
            && MetricUidEmpty !in v && PeriodEmpty !in v && PeriodInvalid(p.period) !in v
  {
    if p.value.Finite? {
      var r := RangeErrors(p);
      assert ValueNotFinite !in r && SourceUrlEmpty !in r;
    }
  }

  /** A canonical period is not blank and has nothing to strip. */
  lemma PeriodStripped(period: string)
    requires IsPeriod(period)
    ensures !IsBlank(period) && Strip(period) == period
  {
    assert period[..4][0] == period[0];
    assert IsDigit(period[0]) && !IsSpace(period[0]) && !IsSpace(period[6]);
    StripKeeps(period);
  }

  /** The prefix of an extracted identifier and its unit decide the range
      check: indices take the index range, year-on-year changes the
      percentage range. */
  lemma KindDecidesRange(p: PricePoint, kind: Kind)
    requires StartsWith(p.metricUid, UidPrefix(kind)) && p.unit == UnitOf(kind)
    ensures IndexLike(p) <==> kind == Indices
    ensures kind == Yoy ==> PctLike(p)
  {
    if kind == Yoy {
      assert p.metricUid[..10] == "insee_yoy:";
      assert p.metricUid[..10][6] == 'y';
      if |p.metricUid| >= 13 {
        assert p.metricUid[..13][6] == p.metricUid[6];
      }
      assert p.metricUid[..9] == "insee_yoy";
    }
  }

  /** A point built by the extractor can only fail the range check of its
      kind, and the URL check when the configured URL is blank. */
  lemma ScrapedPointErrors(p: PricePoint, kind: Kind, url: string, now: int)
    requires PointShape(p, kind, p.period, url, now) && IsPeriod(p.period)
    ensures DqValidate(p) == (if kind == Indices then
                                (if p.value.r <= 0.0 || p.value.r > 2000.0 then [ValueOutOfRangeIndex(p.value.r)] else [])
                              else
                                (if p.value.r < -200.0 || p.value.r > 200.0 then [ValueOutOfRangePct(p.value.r)] else []))
                             + (if IsBlank(url) then [SourceUrlEmpty] else [])
  {
    KindDecidesRange(p, kind);
    PeriodStripped(p.period);
    assert p.metricUid[..|UidPrefix(kind)|][0] == 'i';
    assert !IsSpace(p.metricUid[0]);
    assert UidErrors(p.metricUid) == [] && PeriodErrors(p.period) == [];
  }

  // =====================================================================
  // Filtering

  /** The gate's verdict on each point, in order. */
  function Verdicts(ps: seq<PricePoint>): (verdicts: seq<seq<DqError>>)
    ensures |verdicts| == |ps|
  {
    seq(|ps|, i requires 0 <= i < |ps| => DqValidate(ps[i]))
  }

  /** The verdict at each position is the gate's answer for that point. */
  lemma VerdictsAt(ps: seq<PricePoint>, i: nat)
    requires i < |ps|
    ensures Verdicts(ps)[i] == DqValidate(ps[i])
  {
  }

  /** The verdicts of a longer list extend those of its prefix. */
  lemma VerdictsSnoc(ps: seq<PricePoint>, p: PricePoint)
    ensures Verdicts(ps + [p]) == Verdicts(ps) + [DqValidate(p)]
  {
    var qs := ps + [p];
    forall k | 0 <= k < |qs|
      ensures Verdicts(qs)[k] == (Verdicts(ps) + [DqValidate(p)])[k]
    {
      if k < |ps| {
        assert qs[k] == ps[k];
      }
    }
  }

  /** The points whose verdict is empty, in order. */
  function Passing(ps: seq<PricePoint>, verdicts: seq<seq<DqError>>): (vs: seq<PricePoint>)
    requires |verdicts| == |ps|
    ensures |vs| <= |ps|
  {
    if ps == [] then []
    else Passing(ps[..|ps| - 1], verdicts[..|ps| - 1])
         + (if verdicts[|ps| - 1] == [] then [ps[|ps| - 1]] else [])
  }

  /** The error sample of the first point with a non-empty verdict. */
  function FirstRejection(ps: seq<PricePoint>, verdicts: seq<seq<DqError>>): Option<ErrorSample>
    requires |verdicts| == |ps|
  {
    if ps == [] then None
    else match FirstRejection(ps[..|ps| - 1], verdicts[..|ps| - 1])
      case Some(s) => Some(s)
      case None =>
        if verdicts[|ps| - 1] != [] then Some(DqSample(ps[|ps| - 1].metricUid, verdicts[|ps| - 1])) else None
  }

  /** The points that pass the gate, in order. */
  function ValidPoints(ps: seq<PricePoint>): seq<PricePoint>
  {
    Passing(ps, Verdicts(ps))
  }

  /** The error sample of the first rejected point. */
  function FirstDqSample(ps: seq<PricePoint>): Option<ErrorSample>
  {
    FirstRejection(ps, Verdicts(ps))
  }

  /** A point is kept exactly when it occurs with an empty verdict. */
  lemma {:induction false} PassingMembers(ps: seq<PricePoint>, verdicts: seq<seq<DqError>>, x: PricePoint)
    requires |verdicts| == |ps|
    ensures x in Passing(ps, verdicts) <==> exists i :: 0 <= i < |ps| && ps[i] == x && verdicts[i] == []
  {
    if ps != [] {
      var n := |ps| - 1;
      PassingMembers(ps[..n], verdicts[..n], x);
      if x in Passing(ps[..n], verdicts[..n]) {
        var i :| 0 <= i < n && ps[..n][i] == x && verdicts[..n][i] == [];
        assert ps[i] == x && verdicts[i] == [];
      }
      if exists i :: 0 <= i < |ps| && ps[i] == x && verdicts[i] == [] {
        var i :| 0 <= i < |ps| && ps[i] == x && verdicts[i] == [];
        if i < n {
          assert ps[..n][i] == x && verdicts[..n][i] == [];
        }
      }
    }
  }

  /** The gate keeps a point exactly when it occurs in the input and
      passes every check. */
  lemma ValidPointsMembers(ps: seq<PricePoint>, x: PricePoint)
    ensures x in ValidPoints(ps) <==> x in ps && DqValidate(x) == []
  {
    PassingMembers(ps, Verdicts(ps), x);
    forall i | 0 <= i < |ps|
      ensures Verdicts(ps)[i] == DqValidate(ps[i])
    {
      VerdictsAt(ps, i);
    }
  }

  /** Every point is kept when every verdict is empty. */
  lemma {:induction false} PassingAll(ps: seq<PricePoint>, verdicts: seq<seq<DqError>>)
    requires |verdicts| == |ps| && forall i :: 0 <= i < |ps| ==> verdicts[i] == []
    ensures Passing(ps, verdicts) == ps
  {
    if ps != [] {
      var n := |ps| - 1;
      assert forall i :: 0 <= i < n ==> verdicts[..n][i] == verdicts[i];
      PassingAll(ps[..n], verdicts[..n]);
    }
  }

  /** There is a sample exactly when some point is dropped. */
  lemma {:induction false} FirstRejectionExists(ps: seq<PricePoint>, verdicts: seq<seq<DqError>>)
    requires |verdicts| == |ps|
    ensures FirstRejection(ps, verdicts).None? <==> |Passing(ps, verdicts)| == |ps|
  {
    if ps != [] {
      FirstRejectionExists(ps[..|ps| - 1], verdicts[..|ps| - 1]);
    }
  }

  /** The sample is the one of the first dropped point. */
  lemma {:induction false} FirstRejectionIsFirst(ps: seq<PricePoint>, verdicts: seq<seq<DqError>>, i: nat)
    requires |verdicts| == |ps| && i < |ps| && verdicts[i] != []
    requires forall j :: 0 <= j < i ==> verdicts[j] == []
    ensures FirstRejection(ps, verdicts) == Some(DqSample(ps[i].metricUid, verdicts[i]))
  {
    var n := |ps| - 1;
    var front, vfront := ps[..n], verdicts[..n];
    assert forall j :: 0 <= j < n ==> vfront[j] == verdicts[j];
    if i < n {
      assert front[i] == ps[i];
      FirstRejectionIsFirst(front, vfront, i);
    } else {
      PassingAll(front, vfront);
      FirstRejectionExists(front, vfront);
    }
  }

  /** The gate lets through finite values only, so that the SQLite
      statements, which refuse a NaN, never see one. */
  lemma ValidPointsFinite(ps: seq<PricePoint>)
    ensures forall i :: 0 <= i < |ValidPoints(ps)| ==> ValidPoints(ps)[i].value.Finite?
  {
    var vs := ValidPoints(ps);
    forall i | 0 <= i < |vs|
      ensures vs[i].value.Finite?
    {
      ValidPointsMembers(ps, vs[i]);
      DqAcceptsIff(vs[i]);
    }
  }

  /** Every point is kept when every point passes the gate. */
  lemma ValidPointsAllValid(ps: seq<PricePoint>)
    requires forall i :: 0 <= i < |ps| ==> DqValidate(ps[i]) == []
    ensures ValidPoints(ps) == ps
  {
    forall i | 0 <= i < |ps|
      ensures Verdicts(ps)[i] == []
    {
      VerdictsAt(ps, i);
    }
    PassingAll(ps, Verdicts(ps));
  }

  /** There is a sample exactly when some point is rejected. */
  lemma FirstDqSampleExists(ps: seq<PricePoint>)
    ensures FirstDqSample(ps).None? <==> |ValidPoints(ps)| == |ps|
  {
    FirstRejectionExists(ps, Verdicts(ps));
  }

  /** The sample names the first rejected point and all its errors. */
  lemma FirstDqSampleIsFirst(ps: seq<PricePoint>, i: nat)
    requires i < |ps| && DqValidate(ps[i]) != []
    requires forall j :: 0 <= j < i ==> DqValidate(ps[j]) == []
    ensures FirstDqSample(ps) == Some(DqSample(ps[i].metricUid, DqValidate(ps[i])))
  {
    forall j | 0 <= j <= i
      ensures Verdicts(ps)[j] == DqValidate(ps[j])
    {
      VerdictsAt(ps, j);
    }
    FirstRejectionIsFirst(ps, Verdicts(ps), i);
  }

  /** Appending a point extends the kept points by that point when it
      passes, and sets the error sample when it is the first rejection. */
  lemma FilterStep(ps: seq<PricePoint>, p: PricePoint)
    ensures var errs := DqValidate(p);
            && ValidPoints(ps + [p]) == ValidPoints(ps) + (if errs == [] then [p] else [])
            && FirstDqSample(ps + [p])
               == if FirstDqSample(ps).Some? then FirstDqSample(ps)
                  else if errs != [] then Some(DqSample(p.metricUid, errs)) else None
  {
    var qs := ps + [p];
    VerdictsSnoc(ps, p);
    assert qs[..|qs| - 1] == ps && qs[|qs| - 1] == p;
    assert Verdicts(qs)[..|qs| - 1] == Verdicts(ps);
  }

  /** The DQ loop of `run_once`: counts the rejected points, keeps the
      sample of the first, collects the others. */
  method FilterValid(points: seq<PricePoint>) returns (valid: seq<PricePoint>, dqErrorsCount: nat, errorSample: Option<ErrorSample>)
    ensures valid == ValidPoints(points)
    ensures dqErrorsCount + |valid| == |points|
    ensures errorSample == FirstDqSample(points)
  {
    valid := [];
    dqErrorsCount := 0;
    errorSample := None;
    for i := 0 to |points|
      invariant valid == ValidPoints(points[..i])
      invariant dqErrorsCount + |valid| == i
      invariant errorSample == FirstDqSample(points[..i])
    {
      var p := points[i];
      var errs := DqValidate(p);
      assert points[..i + 1] == points[..i] + [p];
      FilterStep(points[..i], p);
      if errs != [] {
        dqErrorsCount := dqErrorsCount + 1;
        if errorSample.None? {
          errorSample := Some(DqSample(p.metricUid, errs));
        }
      } else {
        valid := valid + [p];
      }
    }
    assert points[..|points|] == points;
  }

  // =====================================================================
  // Storing

  /** The SQLite loop of `run_once`: upsert each valid point, append it to
      the history only when the upsert reports a change. The points have
      passed the gate, so that no statement meets a NaN, but a latest or
      history table of an older layout makes a statement raise. The loop
      then stops with the counters it has reached, and the `conn.close()`
      that follows without a `commit` discards every row it wrote. */
  method StoreValidPoints(store: Store, valid: seq<PricePoint>)
    returns (ok: bool, storedLatest: nat, storedHistory: nat, skippedHistory: nat)
    requires store.Valid()
    requires forall i :: 0 <= i < |valid| ==> valid[i].value.Finite?
    modifies store`latest, store`history, store`nextId
    ensures store.Valid()
    ensures ok == StoreSucceeds(LatestFits(store.columns), HistoryFits(store.columns), old(store.latest), valid)
    ensures ok ==> && (store.latest, store.history, store.nextId)
                      == StoreAll(old(store.latest), old(store.history), old(store.nextId), valid)
                   && storedLatest == |valid| && storedHistory + skippedHistory == storedLatest
    ensures !ok ==> && store.latest == old(store.latest) && store.history == old(store.history)
                    && store.nextId == old(store.nextId) && storedHistory == 0
                    && (storedLatest, skippedHistory)
                       == if !LatestFits(store.columns) then (0, 0)
                          else (UnchangedPrefix(old(store.latest), valid) + 1, UnchangedPrefix(old(store.latest), valid))
    ensures |old(store.history)| + storedHistory == |store.history|
  {
    var latest0, history0, nextId0 := store.latest, store.history, store.nextId;
    ok, storedLatest, storedHistory, skippedHistory := StorePoints(store, valid);
    if !ok {
      store.latest, store.history, store.nextId := latest0, history0, nextId0;
    }
  }

  /** The `for` loop itself, up to the statement that raises: the rows it
      wrote stay in place here, and the counters are those it reached. */
  method StorePoints(store: Store, valid: seq<PricePoint>)
    returns (ok: bool, storedLatest: nat, storedHistory: nat, skippedHistory: nat)
    requires store.Valid()
    requires forall i :: 0 <= i < |valid| ==> valid[i].value.Finite?
    modifies store`latest, store`history, store`nextId
    ensures store.Valid()
    ensures ok == StoreSucceeds(LatestFits(store.columns), HistoryFits(store.columns), old(store.latest), valid)
    ensures ok ==> && (store.latest, store.history, store.nextId)
                      == StoreAll(old(store.latest), old(store.history), old(store.nextId), valid)
                   && storedLatest == |valid| && storedHistory + skippedHistory == storedLatest
                   && |old(store.history)| + storedHistory == |store.history|
    ensures !ok ==> && storedHistory == 0
                    && (storedLatest, skippedHistory)
                       == if !LatestFits(store.columns) then (0, 0)
                          else (UnchangedPrefix(old(store.latest), valid) + 1, UnchangedPrefix(old(store.latest), valid))
  {
    storedLatest, storedHistory, skippedHistory := 0, 0, 0;
    assert valid[0..] == valid;
    for i := 0 to |valid|
      invariant store.Valid()
      invariant storedLatest == i
      invariant Reached(old(store.latest), old(store.history), old(store.nextId), valid, i,
                        store.latest, store.history, store.nextId,
                        LatestFits(store.columns), HistoryFits(store.columns), storedHistory, skippedHistory)
    {
      ghost var l0, h0, n0 := store.latest, store.history, store.nextId;
      var upserted, changed, stepOk := StorePoint(store, valid[i]);
      if !stepOk {
        StoreFailsAt(old(store.latest), old(store.history), old(store.nextId), valid, i, l0, h0, n0,
                     LatestFits(store.columns), HistoryFits(store.columns), storedHistory, skippedHistory);
        if upserted {
          storedLatest := storedLatest + 1;
        }
        return false, storedLatest, storedHistory, skippedHistory;
      }
      ReachedNext(old(store.latest), old(store.history), old(store.nextId), valid, i, l0, h0, n0,
                  LatestFits(store.columns), HistoryFits(store.columns), storedHistory, skippedHistory);
      storedLatest := storedLatest + 1;
      if changed {
        storedHistory := storedHistory + 1;
      } else {
        skippedHistory := skippedHistory + 1;
      }
    }
    ReachedEnd(old(store.latest), old(store.history), old(store.nextId), valid,
               store.latest, store.history, store.nextId,
               LatestFits(store.columns), HistoryFits(store.columns), storedHistory, skippedHistory);
    ok := true;
  }

  /** What the loop has done after its first `i` points: storing the rest
      from here gives what storing them all gives, the counters count
      them, no point has failed on the latest table, and on a history
      table of an older layout none of them changed its metric. */
  ghost predicate Reached(latest0: map<string, LatestRow>, history0: seq<HistoryRow>, nextId0: nat,
                          valid: seq<PricePoint>, i: nat,
                          latest: map<string, LatestRow>, history: seq<HistoryRow>, nextId: nat,
                          latestFits: bool, historyFits: bool, storedHistory: nat, skippedHistory: nat)
  {
    && i <= |valid|
    && StoreAll(latest, history, nextId, valid[i..]) == StoreAll(latest0, history0, nextId0, valid)
    && storedHistory + skippedHistory == i
    && |history0| + storedHistory == |history|
    && (0 < i ==> latestFits)
    && (!historyFits ==>
          storedHistory == 0 && UnchangedPrefix(latest0, valid) == i + UnchangedPrefix(latest, valid[i..]))
  }

  /** A pass whose statements all ran moves `Reached` one point on. */
  lemma ReachedNext(latest0: map<string, LatestRow>, history0: seq<HistoryRow>, nextId0: nat,
                    valid: seq<PricePoint>, i: nat,
                    latest: map<string, LatestRow>, history: seq<HistoryRow>, nextId: nat,
                    latestFits: bool, historyFits: bool, storedHistory: nat, skippedHistory: nat)
    requires Reached(latest0, history0, nextId0, valid, i, latest, history, nextId,
                     latestFits, historyFits, storedHistory, skippedHistory)
    requires i < |valid| && latestFits && (Changed(latest, valid[i]) ==> historyFits)
    ensures var changed := Changed(latest, valid[i]);
            Reached(latest0, history0, nextId0, valid, i + 1,
                    StoreStep(latest, history, nextId, valid[i]).0, StoreStep(latest, history, nextId, valid[i]).1,
                    if changed then nextId + 1 else nextId, latestFits, historyFits,
                    if changed then storedHistory + 1 else storedHistory,
                    if changed then skippedHistory else skippedHistory + 1)
  {
    StoreAllUnfold(latest, history, nextId, valid, i);
  }

  /** All points stored: the rows are those of `StoreAll` and the loop
      succeeded. */
  lemma ReachedEnd(latest0: map<string, LatestRow>, history0: seq<HistoryRow>, nextId0: nat,
                   valid: seq<PricePoint>,
                   latest: map<string, LatestRow>, history: seq<HistoryRow>, nextId: nat,
                   latestFits: bool, historyFits: bool, storedHistory: nat, skippedHistory: nat)
    requires Reached(latest0, history0, nextId0, valid, |valid|, latest, history, nextId,
                     latestFits, historyFits, storedHistory, skippedHistory)
    ensures (latest, history, nextId) == StoreAll(latest0, history0, nextId0, valid)
    ensures StoreSucceeds(latestFits, historyFits, latest0, valid)
  {
    assert valid[|valid|..] == [];
  }

  /** The loop stops at point `i`: either the latest table does not fit,
      which the first point already meets, or the history table does not
      fit and `i` is the first point that changes its metric. */
  lemma StoreFailsAt(latest0: map<string, LatestRow>, history0: seq<HistoryRow>, nextId0: nat,
                     valid: seq<PricePoint>, i: nat,
                     latest: map<string, LatestRow>, history: seq<HistoryRow>, nextId: nat,
                     latestFits: bool, historyFits: bool, storedHistory: nat, skippedHistory: nat)
    requires Reached(latest0, history0, nextId0, valid, i, latest, history, nextId,
                     latestFits, historyFits, storedHistory, skippedHistory)
    requires i < |valid| && (!latestFits || (Changed(latest, valid[i]) && !historyFits))
    ensures !StoreSucceeds(latestFits, historyFits, latest0, valid)
    ensures storedHistory == 0
    ensures !latestFits ==> skippedHistory == 0 && i == 0
    ensures latestFits ==> skippedHistory == i && UnchangedPrefix(latest0, valid) == i
  {
    StoreAllUnfold(latest, history, nextId, valid, i);
  }

  /** One pass of the SQLite loop: `upsert_latest`, then `insert_history`
      when the point changed its metric. `upserted` says the first
      statement ran, `ok` that both that were due ran. */
  method StorePoint(store: Store, p: PricePoint) returns (upserted: bool, changed: bool, ok: bool)
    requires store.Valid()
    requires p.value.Finite?
    modifies store`latest, store`history, store`nextId
    ensures store.Valid()
    ensures upserted == LatestFits(store.columns)
    ensures upserted ==> changed == Changed(old(store.latest), p)
    ensures ok == (upserted && (changed ==> HistoryFits(store.columns)))
    ensures ok ==> && store.latest == StoreStep(old(store.latest), old(store.history), old(store.nextId), p).0
                   && store.history == StoreStep(old(store.latest), old(store.history), old(store.nextId), p).1
                   && store.nextId == if changed then old(store.nextId) + 1 else old(store.nextId)
  {
    upserted, changed := store.UpsertLatest(p);
    ok := upserted;
    if upserted && changed {
      ok := store.InsertHistory(p);
    }
  }

  /** `StoreAll` and `UnchangedPrefix` after one more point. */
  lemma StoreAllUnfold(latest: map<string, LatestRow>, history: seq<HistoryRow>, nextId: nat,
                       valid: seq<PricePoint>, i: nat)
    requires i < |valid|
    ensures var p := valid[i];
            var (l, h) := StoreStep(latest, history, nextId, p);
            StoreAll(latest, history, nextId, valid[i..])
            == StoreAll(l, h, if Changed(latest, p) then nextId + 1 else nextId, valid[i + 1..])
    ensures UnchangedPrefix(latest, valid[i..])
            == if Changed(latest, valid[i]) then 0 else 1 + UnchangedPrefix(Upserted(latest, valid[i]), valid[i + 1..])
  {
    assert valid[i..][0] == valid[i] && valid[i..][1..] == valid[i + 1..];
  }

  // =====================================================================
  // One run

  /** The HTTP request: an exception, or the tables of the page. */
  datatype FetchOutcome = FetchError(reason: string) | Fetched(tables: seq<Table>)

  /** What `scrape_insee_housing_prices` gives the worker: the exception of
      the request, or the points and the debug record. */
  datatype ScrapeOutcome = ScrapeFailed(reason: string) | Scraped(points: seq<PricePoint>, debug: Debug)

  /** The six counters of a run. */
  datatype Counts = Counts(points: nat, pointsValid: nat, dqErrors: nat,
                           storedLatest: nat, storedHistory: nat, skippedHistory: nat)

  /** What a run ends with: its status, counters, error count and sample. */
  datatype RunSummary = RunSummary(status: string, counts: Counts, errorsCount: nat, errorSample: Option<ErrorSample>)

  const Initial := RunSummary("ok", Counts(0, 0, 0, 0, 0, 0), 0, None)

  /** `status`: `error` once an exception is caught, else `warn` when a
      point was rejected, else `ok`. */
  function StatusOf(dqErrorsCount: nat, raised: bool): (status: string)
    ensures status in {"ok", "warn", "error"}
    ensures status == "error" <==> raised
    ensures status == "ok" <==> !raised && dqErrorsCount == 0
  {
    if raised then "error" else if dqErrorsCount > 0 then "warn" else "ok"
  }

  /** The `except` block: one more error, whose `repr` replaces the sample;
      the counters stay as the completed stages left them. */
  function AfterException(s: RunSummary, f: Failure): RunSummary
  {
    s.(status := StatusOf(s.counts.dqErrors, true), errorsCount := s.errorsCount + 1, errorSample := Some(Raised(f)))
  }

  /** The row `insert_run` writes for a summary. */
  function RunRowOf(s: RunSummary, startedAt: int, finishedAt: int, sourceUrl: string): RunRow
  {
    var c := s.counts;
    RunRow(startedAt, finishedAt, DurationMs(startedAt, finishedAt), s.status, sourceUrl,
           c.points, c.pointsValid, c.storedLatest, c.storedHistory,
           c.skippedHistory, c.dqErrors, s.errorsCount, s.errorSample)
  }

  /** Where the SQLite block of a run ends: before the storing loop
      (SQLite unreachable, or the schema script raising), after it, or at
      a store statement that raised on a table of an older layout, with
      the upserts and the skipped history rows counted until then. */
  datatype StoreStage = NotReached | RanThrough | RaisedAt(storedLatest: nat, skippedHistory: nat)

  /** The stage the SQLite block reaches for these valid points on a
      database with these tables, indexes and latest rows. */
  function StoreStageOf(sqliteUp: bool, columns: map<string, set<string>>, indexes: set<string>,
                        latest: map<string, LatestRow>, valid: seq<PricePoint>): StoreStage
  {
    if !sqliteUp || !SchemaFits(columns, indexes) then NotReached
    else if StoreSucceeds(LatestAccepts(columns), HistoryAccepts(columns), latest, valid) then RanThrough
    else if !LatestAccepts(columns) then RaisedAt(0, 0)
    else RaisedAt(UnchangedPrefix(latest, valid) + 1, UnchangedPrefix(latest, valid))
  }

  /** On tables of the current layout, a reachable database whose schema
      script runs through stores every valid point; a latest table of an
      older layout stops the first upsert, before any counter moves. */
  lemma StoreStageOfTables(columns: map<string, set<string>>, indexes: set<string>,
                           latest: map<string, LatestRow>, valid: seq<PricePoint>)
    requires SchemaFits(columns, indexes)
    ensures LatestAccepts(columns) && HistoryAccepts(columns) ==>
              StoreStageOf(true, columns, indexes, latest, valid) == RanThrough
    ensures !LatestAccepts(columns) && valid != [] ==>
              StoreStageOf(true, columns, indexes, latest, valid) == RaisedAt(0, 0)
    ensures StoreStageOf(true, columns, indexes, latest, valid).RaisedAt? ==>
              StoreStageOf(true, columns, indexes, latest, valid).storedLatest <= |valid|
  {
  }

  /** Once the schema script has run, the stage is decided by whether the
      latest and history tables it left take the store statements. */
  lemma StageAfterSchema(columns0: map<string, set<string>>, indexes0: set<string>,
                         columns: map<string, set<string>>, latest: map<string, LatestRow>, valid: seq<PricePoint>)
    requires SchemaFits(columns0, indexes0)
    requires LatestFits(columns) == LatestAccepts(columns0) && HistoryFits(columns) == HistoryAccepts(columns0)
    ensures StoreStageOf(true, columns0, indexes0, latest, valid)
            == if StoreSucceeds(LatestFits(columns), HistoryFits(columns), latest, valid) then RanThrough
               else if !LatestFits(columns) then RaisedAt(0, 0)
               else RaisedAt(UnchangedPrefix(latest, valid) + 1, UnchangedPrefix(latest, valid))
  {
  }

  /** The counters of a run that got its page: every point counted, the
      rejected ones apart; then none stored when the storing loop is not
      reached, every valid one upserted and either written to the history
      or skipped when it runs through, and those counted before the raise
      when a store statement fails. */
  predicate CountsOf(c: Counts, points: seq<PricePoint>, stage: StoreStage)
  {
    var valid := ValidPoints(points);
    && c.points == |points| && c.pointsValid == |valid| && c.dqErrors + |valid| == |points|
    && match stage
       case NotReached => c.storedLatest == 0 && c.storedHistory == 0 && c.skippedHistory == 0
       case RanThrough => c.storedLatest == |valid| && c.storedHistory + c.skippedHistory == |valid|
       case RaisedAt(l, k) => c.storedLatest == l && c.storedHistory == 0 && c.skippedHistory == k
  }

  /** The call to `scrape_insee_housing_prices`: a failed request raises,
      otherwise the scraper's points and debug record come back. */
  method ScrapePage(fetched: FetchOutcome, sourceUrl: string, scrapedAt: int) returns (o: ScrapeOutcome)
    ensures fetched.FetchError? ==> o == ScrapeFailed(fetched.reason)
    ensures fetched.Fetched? ==> o.Scraped? && o.points == ScrapePoints(fetched.tables, sourceUrl, scrapedAt)
  {
    match fetched
    case FetchError(reason) =>
      o := ScrapeFailed(reason);
    case Fetched(tables) =>
      var points, debug := Scrape(tables, sourceUrl, scrapedAt);
      o := Scraped(points, debug);
  }

  /** The start of the `try` block: the scrape, then the DQ filter. */
  method ScrapeAndFilter(scraped: ScrapeOutcome)
    returns (s: RunSummary, valid: seq<PricePoint>, failure: Option<Failure>)
    ensures scraped.ScrapeFailed? ==> s == Initial && valid == [] && failure == Some(FetchFailed(scraped.reason))
    ensures scraped.Scraped? ==>
              var points := scraped.points;
              && valid == ValidPoints(points)
              && s.counts == Counts(|points|, |valid|, |points| - |valid|, 0, 0, 0)
              && s.status == StatusOf(s.counts.dqErrors, false) && s.errorsCount == 0
              && s.errorSample == FirstDqSample(points)
              && failure.None?
  {
    s, valid := Initial, [];
    match scraped
    case ScrapeFailed(reason) =>
      failure := Some(FetchFailed(reason));
    case Scraped(points, _) =>
      var dqErrorsCount, errorSample;
      valid, dqErrorsCount, errorSample := FilterValid(points);
      s := RunSummary(StatusOf(dqErrorsCount, false), Counts(|points|, |valid|, dqErrorsCount, 0, 0, 0), 0, errorSample);
      failure := None;
  }

  /** The SQLite block of `run_once`: the schema, then the storing loop.
      An unreachable database or a schema script that raises ends the
      stage before any row is written; a store statement that raises on a
      table of an older layout ends it with the loop's rows discarded and
      the counters it reached. */
  method SqliteStage(store: Store, s: RunSummary, valid: seq<PricePoint>, sqliteUp: bool)
    returns (r: RunSummary, failure: Option<Failure>)
    requires store.Valid()
    requires forall i :: 0 <= i < |valid| ==> valid[i].value.Finite?
    modifies store`columns, store`indexes, store`latest, store`history, store`nextId
    ensures store.Valid()
    ensures !sqliteUp ==> store.columns == old(store.columns) && store.indexes == old(store.indexes)
    ensures var stage := StoreStageOf(sqliteUp, old(store.columns), old(store.indexes), old(store.latest), valid);
            failure == if !sqliteUp then Some(SqliteUnavailable) else if stage.RanThrough? then None else Some(NoSuchColumn)
    ensures var stage := StoreStageOf(sqliteUp, old(store.columns), old(store.indexes), old(store.latest), valid);
            && (stage.NotReached? ==> r == s)
            && (stage.RaisedAt? ==>
                  r == s.(counts := s.counts.(storedLatest := stage.storedLatest, storedHistory := 0,
                                              skippedHistory := stage.skippedHistory)))
    ensures var stage := StoreStageOf(sqliteUp, old(store.columns), old(store.indexes), old(store.latest), valid);
            stage.RanThrough? ==>
              && (store.latest, store.history, store.nextId)
                 == StoreAll(old(store.latest), old(store.history), old(store.nextId), valid)
              && r == s.(counts := s.counts.(storedLatest := |valid|, storedHistory := r.counts.storedHistory,
                                             skippedHistory := r.counts.skippedHistory))
              && r.counts.storedHistory + r.counts.skippedHistory == |valid|
              && |old(store.history)| + r.counts.storedHistory == |store.history|
    ensures !StoreStageOf(sqliteUp, old(store.columns), old(store.indexes), old(store.latest), valid).RanThrough? ==>
              store.latest == old(store.latest) && store.history == old(store.history) && store.nextId == old(store.nextId)
    ensures sqliteUp && SchemaFits(old(store.columns), old(store.indexes)) ==>
              RunsTable in store.columns && store.columns[RunsTable] == MigratedRunTable(old(store.columns))
    ensures SchemaFits(store.columns, store.indexes) <==> SchemaFits(old(store.columns), old(store.indexes))
    ensures AcceptsRuns(store.columns) <==> AcceptsRuns(old(store.columns))
  {
    r := s;
    failure := OpenSchema(store, sqliteUp);
    if failure.None? {
      StageAfterSchema(old(store.columns), old(store.indexes), store.columns, old(store.latest), valid);
      var stored, storedLatest, storedHistory, skippedHistory := StoreValidPoints(store, valid);
      r := s.(counts := s.counts.(storedLatest := storedLatest, storedHistory := storedHistory,
                                  skippedHistory := skippedHistory));
      if !stored {
        failure := Some(NoSuchColumn);
      }
    }
  }

  /** `connect` and `ensure_schema`: an unreachable database, or a schema
      script that meets a table of an older layout, is the failure; after
      the script the latest and history tables take the store statements
      exactly when any tables of those names already present did. */
  method OpenSchema(store: Store, sqliteUp: bool) returns (failure: Option<Failure>)
    modifies store`columns, store`indexes
    ensures failure == if !sqliteUp then Some(SqliteUnavailable)
                       else if !SchemaFits(old(store.columns), old(store.indexes)) then Some(NoSuchColumn)
                       else None
    ensures failure.None? ==> && LatestFits(store.columns) == LatestAccepts(old(store.columns))
                              && HistoryFits(store.columns) == HistoryAccepts(old(store.columns))
    ensures !sqliteUp ==> store.columns == old(store.columns) && store.indexes == old(store.indexes)
    ensures sqliteUp && SchemaFits(old(store.columns), old(store.indexes)) ==>
              RunsTable in store.columns && store.columns[RunsTable] == MigratedRunTable(old(store.columns))
    ensures SchemaFits(store.columns, store.indexes) <==> SchemaFits(old(store.columns), old(store.indexes))
    ensures AcceptsRuns(store.columns) <==> AcceptsRuns(old(store.columns))
  {
    if !sqliteUp {
      return Some(SqliteUnavailable);
    }
    ghost var columns0 := store.columns;
    var ok := store.EnsureSchema();
    if !ok {
      return Some(NoSuchColumn);
    }
    FitsAfterSchema(columns0, store.columns);
    failure := None;
  }

  /** The scrape, the DQ filter and the SQLite block, the stages `run_once`
      shares with its intended form. They stop at the first failure: the
      request, the database, the schema script, or a store statement. */
  method ScrapeAndStore(store: Store, scraped: ScrapeOutcome, sqliteUp: bool)
    returns (s: RunSummary, valid: seq<PricePoint>, failure: Option<Failure>)
    requires store.Valid()
    modifies store`columns, store`indexes, store`latest, store`history, store`nextId
    ensures store.Valid()
    ensures scraped.ScrapeFailed? ==> s == Initial && failure == Some(FetchFailed(scraped.reason))
    ensures scraped.Scraped? ==>
              var stage := StoreStageOf(sqliteUp, old(store.columns), old(store.indexes), old(store.latest),
                                        ValidPoints(scraped.points));
              && CountsOf(s.counts, scraped.points, stage)
              && s.status == StatusOf(s.counts.dqErrors, false) && s.errorsCount == 0
              && s.errorSample == FirstDqSample(scraped.points)
              && failure == (if !sqliteUp then Some(SqliteUnavailable)
                             else if stage.RanThrough? then None
                             else Some(NoSuchColumn))
    ensures failure.None? ==>
              && valid == ValidPoints(scraped.points)
              && (store.latest, store.history, store.nextId)
                 == StoreAll(old(store.latest), old(store.history), old(store.nextId), valid)
    ensures failure.Some? ==>
              store.latest == old(store.latest) && store.history == old(store.history) && store.nextId == old(store.nextId)
    ensures SchemaFits(store.columns, store.indexes) <==> SchemaFits(old(store.columns), old(store.indexes))
    ensures AcceptsRuns(store.columns) <==> AcceptsRuns(old(store.columns))
    ensures |store.history| == |old(store.history)| + s.counts.storedHistory
  {
    s, valid, failure := ScrapeAndFilter(scraped);
    if failure.None? {
      ValidPointsFinite(scraped.points);
      s, failure := SqliteStage(store, s, valid, sqliteUp);
    }
  }

  /** The Mongo stage as written: indexes, the raw run, then the call to
      `mongo_store.upsert_observations`, a function the module does not
      define. The stage raises whatever happens, and never writes an
      observation or a latest document. */
  method MongoStage(mirror: Mirror, runId: string, sourceUrl: string, startedAt: int, debug: Debug, mongoUp: bool)
    returns (failure: Failure)
    requires mirror.Valid()
    modifies mirror`rawIndexes, mirror`obsIndexes, mirror`latestIndexes, mirror`rawRuns
    ensures mirror.Valid()
    ensures failure == (if !mongoUp then MongoUnavailable
                        else if !IndexesFit(old(mirror.rawIndexes), old(mirror.obsIndexes),
                                            old(mirror.latestIndexes), old(mirror.rawRuns)) then IndexConflict
                        else if HasRun(old(mirror.rawRuns), runId) then DuplicateRunId
                        else MissingUpsertObservations)
    ensures mirror.rawRuns == if failure == MissingUpsertObservations
                              then old(mirror.rawRuns) + [RawRunDoc(runId, sourceUrl, BsonDt(Utc(startedAt)), debug)]
                              else old(mirror.rawRuns)
  {
    if !mongoUp {
      return MongoUnavailable;
    }
    var ok := mirror.EnsureIndexes();
    if !ok {
      return IndexConflict;
    }
    ok := mirror.InsertRawRun(runId, sourceUrl, Utc(startedAt), debug);
    if !ok {
      return DuplicateRunId;
    }
    failure := MissingUpsertObservations;
  }

  /** The `finally` block: the schema again, then one `insert_run` with the
      final counters. A failure there, of the schema or of the insert, is
      only logged. */
  method RecordRun(store: Store, runId: string, startedAt: int, finishedAt: int, sourceUrl: string,
                   s: RunSummary, sqliteUp: bool) returns (recorded: bool)
    requires store.Valid()
    modifies store`columns, store`indexes, store`runs
    ensures store.Valid()
    ensures recorded <==> && sqliteUp && SchemaFits(old(store.columns), old(store.indexes))
                          && runId !in old(store.runs) && AcceptsRuns(old(store.columns))
    ensures store.runs == if recorded then old(store.runs)[runId := RunRowOf(s, startedAt, finishedAt, sourceUrl)]
                          else old(store.runs)
  {
    recorded := false;
    if !sqliteUp {
      return;
    }
    var ok := store.EnsureSchema();
    if !ok {
      return;
    }
    var c := s.counts;
    recorded := store.InsertRun(runId, startedAt, finishedAt, sourceUrl, c.points, c.pointsValid,
                                c.storedLatest, c.storedHistory, c.skippedHistory,
                                c.dqErrors, s.errorsCount, s.errorSample, s.status);
  }

  /** The `except` block as `run_once` is written: a failure of the
      shared stages is raised as it is; otherwise the Mongo stage runs,
      and it always raises. Either way the counters of the summary stay. */
  method RaiseAfterStore(mirror: Mirror, s: RunSummary, scraped: ScrapeOutcome, failure: Option<Failure>,
                         runId: string, sourceUrl: string, startedAt: int, mongoUp: bool)
    returns (r: RunSummary)
    requires mirror.Valid()
    requires scraped.ScrapeFailed? ==> failure.Some?
    modifies mirror`rawIndexes, mirror`obsIndexes, mirror`latestIndexes, mirror`rawRuns
    ensures mirror.Valid()
    ensures failure.Some? ==> r == AfterException(s, failure.value) && mirror.rawRuns == old(mirror.rawRuns)
    ensures failure.None? && !mongoUp ==> r == AfterException(s, MongoUnavailable)
    ensures r.counts == s.counts && r.status == StatusOf(s.counts.dqErrors, true)
            && r.errorsCount == s.errorsCount + 1 && r.errorSample.Some? && r.errorSample.value.Raised?
    ensures |old(mirror.rawRuns)| <= |mirror.rawRuns| <= |old(mirror.rawRuns)| + 1
            && mirror.rawRuns[..|old(mirror.rawRuns)|] == old(mirror.rawRuns)
  {
    if failure.Some? {
      return AfterException(s, failure.value);
    }
    var f := MongoStage(mirror, runId, sourceUrl, startedAt, scraped.debug, mongoUp);
    r := AfterException(s, f);
  }

  /** The `try` and `except` blocks of `run_once` as written. Every run
      raises: the fetch, SQLite, Mongo, or at the latest the missing
      `upsert_observations`. The summary therefore always has status
      `error` and one error, while keeping the counters of the stages that
      completed; the observations and latest documents of Mongo are never
      written, and at most one raw run is. */
  method TryRun(store: Store, mirror: Mirror, scraped: ScrapeOutcome, sourceUrl: string, runId: string,
                startedAt: int, sqliteUp: bool, mongoUp: bool)
    returns (s: RunSummary)
    requires store.Valid() && mirror.Valid()
    modifies store`columns, store`indexes, store`latest, store`history, store`nextId
    modifies mirror`rawIndexes, mirror`obsIndexes, mirror`latestIndexes, mirror`rawRuns
    ensures store.Valid() && mirror.Valid()
    ensures s.status == "error" && s.errorsCount == 1 && s.errorSample.Some? && s.errorSample.value.Raised?
    ensures scraped.ScrapeFailed? ==> s == AfterException(Initial, FetchFailed(scraped.reason))
    ensures scraped.Scraped? ==>
              CountsOf(s.counts, scraped.points,
                       StoreStageOf(sqliteUp, old(store.columns), old(store.indexes), old(store.latest), ValidPoints(scraped.points)))
    ensures scraped.Scraped? && !sqliteUp ==> s.errorSample == Some(Raised(SqliteUnavailable))
    ensures scraped.Scraped? && sqliteUp && !StoreStageOf(sqliteUp, old(store.columns), old(store.indexes), old(store.latest), ValidPoints(scraped.points)).RanThrough? ==>
              s.errorSample == Some(Raised(NoSuchColumn))
    ensures scraped.Scraped? && StoreStageOf(sqliteUp, old(store.columns), old(store.indexes), old(store.latest), ValidPoints(scraped.points)).RanThrough? && !mongoUp ==>
              s.errorSample == Some(Raised(MongoUnavailable))
    ensures scraped.Scraped? && StoreStageOf(sqliteUp, old(store.columns), old(store.indexes), old(store.latest), ValidPoints(scraped.points)).RanThrough? ==>
              (store.latest, store.history, store.nextId)
              == StoreAll(old(store.latest), old(store.history), old(store.nextId),
                          ValidPoints(scraped.points))
    ensures !(scraped.Scraped? && StoreStageOf(sqliteUp, old(store.columns), old(store.indexes), old(store.latest), ValidPoints(scraped.points)).RanThrough?) ==>
              store.latest == old(store.latest) && store.history == old(store.history) && store.nextId == old(store.nextId)
    ensures |old(mirror.rawRuns)| <= |mirror.rawRuns| <= |old(mirror.rawRuns)| + 1
            && mirror.rawRuns[..|old(mirror.rawRuns)|] == old(mirror.rawRuns)
    ensures SchemaFits(store.columns, store.indexes) <==> SchemaFits(old(store.columns), old(store.indexes))
    ensures AcceptsRuns(store.columns) <==> AcceptsRuns(old(store.columns))
    ensures |store.history| == |old(store.history)| + s.counts.storedHistory
  {
    var valid, failure;
    s, valid, failure := ScrapeAndStore(store, scraped, sqliteUp);
    s := RaiseAfterStore(mirror, s, scraped, failure, runId, sourceUrl, startedAt, mongoUp);
  }

  /** The `try`, `except` and `finally` blocks of `run_once` once the
      request has been made: the run ends `error` whatever happens; the
      SQLite tables hold the valid points when the page came back, the
      database is reachable, the schema fits and the latest and history
      tables take every store statement; Mongo never receives an
      observation or a latest document; and exactly one run row is
      attempted, which lands when SQLite is reachable, the schema fits,
      the run id is new and the run table accepts it. */
  method RunScraped(store: Store, mirror: Mirror, scraped: ScrapeOutcome, sourceUrl: string, runId: string,
                    startedAt: int, finishedAt: int, sqliteUp: bool, mongoUp: bool)
    returns (s: RunSummary, recorded: bool)
    requires store.Valid() && mirror.Valid()
    modifies store, mirror
    ensures store.Valid() && mirror.Valid()
    ensures s.status == "error" && s.errorsCount == 1
    ensures scraped.ScrapeFailed? ==> s == AfterException(Initial, FetchFailed(scraped.reason))
    ensures scraped.Scraped? ==>
              CountsOf(s.counts, scraped.points,
                       StoreStageOf(sqliteUp, old(store.columns), old(store.indexes), old(store.latest), ValidPoints(scraped.points)))
    ensures scraped.Scraped? && StoreStageOf(sqliteUp, old(store.columns), old(store.indexes), old(store.latest), ValidPoints(scraped.points)).RanThrough? ==>
              (store.latest, store.history, store.nextId)
              == StoreAll(old(store.latest), old(store.history), old(store.nextId), ValidPoints(scraped.points))
    ensures !(scraped.Scraped? && StoreStageOf(sqliteUp, old(store.columns), old(store.indexes), old(store.latest), ValidPoints(scraped.points)).RanThrough?) ==>
              store.latest == old(store.latest) && store.history == old(store.history) && store.nextId == old(store.nextId)
    ensures mirror.observations == old(mirror.observations) && mirror.latest == old(mirror.latest)
    ensures recorded <==> && sqliteUp && SchemaFits(old(store.columns), old(store.indexes))
                          && runId !in old(store.runs) && AcceptsRuns(old(store.columns))
    ensures store.runs == if recorded then old(store.runs)[runId := RunRowOf(s, startedAt, finishedAt, sourceUrl)]
                          else old(store.runs)
    ensures |store.history| == |old(store.history)| + s.counts.storedHistory
  {
    s := TryRun(store, mirror, scraped, sourceUrl, runId, startedAt, sqliteUp, mongoUp);
    recorded := RecordRun(store, runId, startedAt, finishedAt, sourceUrl, s, sqliteUp);
  }

  /** `run_once` as written: the request, then the blocks of `RunScraped`.
      A failed request ends the run with that exception and no counter; a
      page that came back is counted point by point, whatever the stages
      after it do. */
  method RunOnce(store: Store, mirror: Mirror, fetched: FetchOutcome, sourceUrl: string, runId: string,
                 startedAt: int, scrapedAt: int, finishedAt: int, sqliteUp: bool, mongoUp: bool)
    returns (s: RunSummary, recorded: bool)
    requires store.Valid() && mirror.Valid()
    modifies store, mirror
    ensures store.Valid() && mirror.Valid()
    ensures s.status == "error" && s.errorsCount == 1
    ensures fetched.FetchError? ==> s == AfterException(Initial, FetchFailed(fetched.reason))
    ensures fetched.Fetched? ==>
              CountsOf(s.counts, ScrapePoints(fetched.tables, sourceUrl, scrapedAt),
                       StoreStageOf(sqliteUp, old(store.columns), old(store.indexes), old(store.latest),
                                    ValidPoints(ScrapePoints(fetched.tables, sourceUrl, scrapedAt))))
    ensures fetched.Fetched? && StoreStageOf(sqliteUp, old(store.columns), old(store.indexes), old(store.latest),
                           ValidPoints(ScrapePoints(fetched.tables, sourceUrl, scrapedAt))).RanThrough? ==>
              (store.latest, store.history, store.nextId)
              == StoreAll(old(store.latest), old(store.history), old(store.nextId),
                          ValidPoints(ScrapePoints(fetched.tables, sourceUrl, scrapedAt)))
    ensures !(fetched.Fetched? && StoreStageOf(sqliteUp, old(store.columns), old(store.indexes), old(store.latest),
                           ValidPoints(ScrapePoints(fetched.tables, sourceUrl, scrapedAt))).RanThrough?) ==>
              store.latest == old(store.latest) && store.history == old(store.history) && store.nextId == old(store.nextId)
    ensures mirror.observations == old(mirror.observations) && mirror.latest == old(mirror.latest)
    ensures recorded <==> && sqliteUp && SchemaFits(old(store.columns), old(store.indexes))
                          && runId !in old(store.runs) && AcceptsRuns(old(store.columns))
    ensures store.runs == if recorded then old(store.runs)[runId := RunRowOf(s, startedAt, finishedAt, sourceUrl)]
                          else old(store.runs)
    ensures |store.history| == |old(store.history)| + s.counts.storedHistory
  {
    var scraped := ScrapePage(fetched, sourceUrl, scrapedAt);
    s, recorded := RunScraped(store, mirror, scraped, sourceUrl, runId, startedAt, finishedAt, sqliteUp, mongoUp);
  }

  // =====================================================================
  // The intended Mongo stage

  /** The Mongo stage with `insert_observations`, the function the module
      defines: indexes, the raw run, the observations of the valid points,
      then their latest documents. */
  method MongoStageIntended(mirror: Mirror, runId: string, sourceUrl: string, startedAt: int, debug: Debug,
                            valid: seq<PricePoint>, mongoUp: bool)
    returns (failure: Option<Failure>)
    requires mirror.Valid()
    modifies mirror
    ensures mirror.Valid()
    ensures failure == (if !mongoUp then Some(MongoUnavailable)
                        else if !IndexesFit(old(mirror.rawIndexes), old(mirror.obsIndexes),
                                            old(mirror.latestIndexes), old(mirror.rawRuns)) then Some(IndexConflict)
                        else if HasRun(old(mirror.rawRuns), runId) then Some(DuplicateRunId)
                        else None)
    ensures failure.None? ==>
              && mirror.rawRuns == old(mirror.rawRuns) + [RawRunDoc(runId, sourceUrl, BsonDt(Utc(startedAt)), debug)]
              && mirror.observations == old(mirror.observations) + ObservationDocs(valid)
              && mirror.latest == UpsertAll(old(mirror.latest), valid)
    ensures failure.Some? ==> mirror.observations == old(mirror.observations) && mirror.latest == old(mirror.latest)
  {
    if !mongoUp {
      return Some(MongoUnavailable);
    }
    var ok := mirror.EnsureIndexes();
    if !ok {
      return Some(IndexConflict);
    }
    ok := mirror.InsertRawRun(runId, sourceUrl, Utc(startedAt), debug);
    if !ok {
      return Some(DuplicateRunId);
    }
    mirror.InsertObservations(valid);
    mirror.UpsertLatest(valid);
    failure := None;
  }

  /** The `try` and `except` blocks with the intended Mongo call: when every
      stage succeeds the run ends `ok`, or `warn` when a point was
      rejected, with no error, and Mongo holds the valid points'
      observations and latest documents; any failure still ends `error`. */
  method TryRunIntended(store: Store, mirror: Mirror, scraped: ScrapeOutcome, sourceUrl: string, runId: string,
                        startedAt: int, sqliteUp: bool, mongoUp: bool)
    returns (s: RunSummary)
    requires store.Valid() && mirror.Valid()
    modifies store`columns, store`indexes, store`latest, store`history, store`nextId, mirror
    ensures store.Valid() && mirror.Valid()
    ensures scraped.Scraped? ==>
              CountsOf(s.counts, scraped.points,
                       StoreStageOf(sqliteUp, old(store.columns), old(store.indexes), old(store.latest), ValidPoints(scraped.points)))
    ensures scraped.Scraped? && StoreStageOf(sqliteUp, old(store.columns), old(store.indexes), old(store.latest), ValidPoints(scraped.points)).RanThrough? && mongoUp
            && IndexesFit(old(mirror.rawIndexes), old(mirror.obsIndexes), old(mirror.latestIndexes), old(mirror.rawRuns))
            && !HasRun(old(mirror.rawRuns), runId) ==>
              var points := scraped.points;
              var valid := ValidPoints(points);
              && s.status == StatusOf(s.counts.dqErrors, false) && s.errorsCount == 0
              && s.errorSample == FirstDqSample(points)
              && mirror.observations == old(mirror.observations) + ObservationDocs(valid)
              && mirror.latest == UpsertAll(old(mirror.latest), valid)
    ensures !(scraped.Scraped? && StoreStageOf(sqliteUp, old(store.columns), old(store.indexes), old(store.latest), ValidPoints(scraped.points)).RanThrough? && mongoUp) ==>
              s.status == "error" && s.errorsCount == 1
    ensures SchemaFits(store.columns, store.indexes) <==> SchemaFits(old(store.columns), old(store.indexes))
    ensures AcceptsRuns(store.columns) <==> AcceptsRuns(old(store.columns))
    ensures |store.history| == |old(store.history)| + s.counts.storedHistory
  {
    var valid, failure;
    s, valid, failure := ScrapeAndStore(store, scraped, sqliteUp);
    if failure.None? {
      failure := MongoStageIntended(mirror, runId, sourceUrl, startedAt, scraped.debug, valid, mongoUp);
    }
    if failure.Some? {
      s := AfterException(s, failure.value);
    }
  }

  /** `run_once` with the intended Mongo call: a run where every stage
      succeeds ends without error, and its run row is attempted as in
      `RunOnce`. */
  method RunOnceIntended(store: Store, mirror: Mirror, fetched: FetchOutcome, sourceUrl: string, runId: string,
                         startedAt: int, scrapedAt: int, finishedAt: int, sqliteUp: bool, mongoUp: bool)
    returns (s: RunSummary, recorded: bool)
    requires store.Valid() && mirror.Valid()
    modifies store, mirror
    ensures store.Valid() && mirror.Valid()
    ensures fetched.Fetched? && StoreStageOf(sqliteUp, old(store.columns), old(store.indexes), old(store.latest),
                           ValidPoints(ScrapePoints(fetched.tables, sourceUrl, scrapedAt))).RanThrough? && mongoUp
            && IndexesFit(old(mirror.rawIndexes), old(mirror.obsIndexes), old(mirror.latestIndexes), old(mirror.rawRuns))
            && !HasRun(old(mirror.rawRuns), runId) ==>
              s.status != "error" && s.errorsCount == 0
              && mirror.latest == UpsertAll(old(mirror.latest), ValidPoints(ScrapePoints(fetched.tables, sourceUrl, scrapedAt)))
    ensures recorded <==> && sqliteUp && SchemaFits(old(store.columns), old(store.indexes))
                          && runId !in old(store.runs) && AcceptsRuns(old(store.columns))
    ensures store.runs == if recorded then old(store.runs)[runId := RunRowOf(s, startedAt, finishedAt, sourceUrl)]
                          else old(store.runs)
    ensures |store.history| == |old(store.history)| + s.counts.storedHistory
  {
    var scraped := ScrapePage(fetched, sourceUrl, scrapedAt);
    s := TryRunIntended(store, mirror, scraped, sourceUrl, runId, startedAt, sqliteUp, mongoUp);
    recorded := RecordRun(store, runId, startedAt, finishedAt, sourceUrl, s, sqliteUp);
  }

  // =====================================================================
  // The loop of `main`

  /** The pause between two runs: the configured interval, at least five
      seconds. */
  function SleepSeconds(pollIntervalSeconds: int): (s: int)
    ensures s >= 5 && s >= pollIntervalSeconds
    ensures s == 5 || s == pollIntervalSeconds
  {
    Max(5, pollIntervalSeconds)
  }
}
