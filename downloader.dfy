/**
 * `download_stock` and `main` of akshare_downloader.py: for one stock the
 * daily, weekly and minute series are each resumed from the last stored
 * date, fetched through the retry policy and appended; `main` clamps the
 * thread count and runs one task per code, counting progress once per code.
 */
module Downloader {
  import opened Wrappers
  import opened Strings
  import opened Store
  import opened Fetch

  /** `MAX_THREADS`. */
  const MaxThreads: int := 300

  /** The pool size `main` uses: the requested thread count clamped to 1..`MaxThreads`. */
  function ThreadCount(requested: int): (n: int)
    ensures 1 <= n <= MaxThreads
    ensures 1 <= requested <= MaxThreads ==> n == requested
    ensures requested < 1 ==> n == 1
    ensures requested > MaxThreads ==> n == MaxThreads
  {
    var capped := if requested < MaxThreads then requested else MaxThreads;
    if capped < 1 then 1 else capped
  }

  /** What escapes `download_stock`: a fetch that gave up, or a refused INSERT. */
  datatype Error = FetchFailed(kind: Kind, cause: RetryError) | InsertFailed(kind: Kind, violation: IntegrityError)

  /** The start of a series' request: its watermark when there is one, inclusively, else the requested start. */
  function ResumeStart(last: Option<string>, start: string): (s: string)
    ensures last.Some? && last.value != "" ==> s == last.value
    ensures last.None? || last.value == "" ==> s == start
  {
    if last.Some? && last.value != "" then last.value else start
  }

  /** The store after one series was handled, the request made and whether it raised. */
  datatype Stepped = Stepped(tables: Tables, request: Request, outcome: Outcome<Error>)

  /**
   * One series of `download_stock`: read the watermark of `kind`'s table,
   * fetch from it (or from `start`) to `end`, and append what came back.
   */
  function Step(ts: Tables, kind: Kind, code: string, start: string, end: string, p: Provider): (s: Stepped)
    ensures s.request.kind == kind && s.request.code == code && s.request.end == end
    ensures s.request.start == ResumeStart(LastDate(ts.Get(kind), code), start)
    ensures forall other :: other != kind ==> s.tables.Get(other) == ts.Get(other)
    ensures s.outcome.Fail? ==> s.tables == ts && s.outcome.error.kind == kind
    ensures var f := Retry(p, s.request);
            && (f.result.Err? ==> s.outcome == Fail(FetchFailed(kind, f.result.error)) && s.tables == ts)
            && (f.result.Ok? ==>
                  (var a := Append(ts, kind, f.result.value, code);
                   && s.tables == a.tables
                   && (s.outcome.Fail? <==> a.outcome.Fail?)
                   && (a.outcome.Fail? ==> s.outcome == Fail(InsertFailed(kind, a.outcome.error)))))
  {
    var req := Request(kind, code, ResumeStart(LastDate(ts.Get(kind), code), start), end);
    match Retry(p, req).result
    case Err(e) => Stepped(ts, req, Fail(FetchFailed(kind, e)))
    case Ok(rows) =>
      var a := Append(ts, kind, rows, code);
      match a.outcome
      case Pass => Stepped(a.tables, req, Pass)
      case Fail(e) => Stepped(a.tables, req, Fail(InsertFailed(kind, e)))
  }

  /** The store after `download_stock`, the requests it made in order, and whether it raised. */
  datatype Synced = Synced(tables: Tables, requests: seq<Request>, outcome: Outcome<Error>)

  /**
   * `download_stock` for one code: daily, then weekly,
   * then minute; the first exception ends the call and propagates.
   */
  function Sync(ts: Tables, code: string, start: string, end: string, p: Provider): (r: Synced)
    ensures 1 <= |r.requests| <= |Kinds|
    ensures forall i :: 0 <= i < |r.requests| ==> r.requests[i].kind == Kinds[i]
    ensures forall i :: 0 <= i < |r.requests| ==> r.requests[i].code == code && r.requests[i].end == end
    ensures r.outcome.Pass? ==> |r.requests| == |Kinds|
    ensures r.outcome.Fail? ==> r.outcome.error.kind == Kinds[|r.requests| - 1]
  {
    var d := Step(ts, Daily, code, start, end, p);
    if d.outcome.Fail? then Synced(d.tables, [d.request], d.outcome)
    else
      var w := Step(d.tables, Weekly, code, start, end, p);
      if w.outcome.Fail? then Synced(w.tables, [d.request, w.request], w.outcome)
      else
        var m := Step(w.tables, Minute, code, start, end, p);
        Synced(m.tables, [d.request, w.request, m.request], m.outcome)
  }

  /**
   * The first series that raises ends `download_stock`: every series before
   * the last one requested passed, and the call raises exactly when that
   * last series raised, with its error. So a series follows a raising one
   * never.
   */
  lemma SyncStopsAtFirstFailure(ts: Tables, code: string, start: string, end: string, p: Provider)
    ensures var r := Sync(ts, code, start, end, p);
            && (forall i :: 0 <= i < |r.requests| - 1 ==> Step(ts, Kinds[i], code, start, end, p).outcome.Pass?)
            && r.outcome == Step(ts, Kinds[|r.requests| - 1], code, start, end, p).outcome
  {
    var r := Sync(ts, code, start, end, p);
    var d := Step(ts, Daily, code, start, end, p);
    if d.outcome.Fail? {
      assert r == Synced(d.tables, [d.request], d.outcome);
      return;
    }
    var w := Step(d.tables, Weekly, code, start, end, p);
    StepOnSameTable(d.tables, ts, Weekly, code, start, end, p);
    if w.outcome.Fail? {
      assert r == Synced(w.tables, [d.request, w.request], w.outcome);
      return;
    }
    var m := Step(w.tables, Minute, code, start, end, p);
    StepOnSameTable(w.tables, ts, Minute, code, start, end, p);
    assert r == Synced(m.tables, [d.request, w.request, m.request], m.outcome);
  }

  /**
   * The resume point: each series is requested from the last date stored
   * for this code in its own table before the call (else from `start`); the
   * appends of the earlier series never move a later series' watermark.
   */
  lemma SyncResumePoint(ts: Tables, code: string, start: string, end: string, p: Provider)
    ensures var r := Sync(ts, code, start, end, p);
            forall i :: 0 <= i < |r.requests| ==>
              r.requests[i].start == (match LastDate(ts.Get(Kinds[i]), code)
                                      case Some(d) => d
                                      case None => start)
  {
    var r := Sync(ts, code, start, end, p);
    forall i | 0 <= i < |r.requests|
      ensures r.requests[i] == Step(ts, Kinds[i], code, start, end, p).request
    {
      SyncRequestIsSolo(ts, code, start, end, p, i);
    }
  }

  /** The `i`-th request of `download_stock` is the one its series would make alone. */
  lemma SyncRequestIsSolo(ts: Tables, code: string, start: string, end: string, p: Provider, i: nat)
    requires i < |Sync(ts, code, start, end, p).requests|
    ensures Sync(ts, code, start, end, p).requests[i] == Step(ts, Kinds[i], code, start, end, p).request
  {
    var d := Step(ts, Daily, code, start, end, p);
    if i > 0 {
      var w := Step(d.tables, Weekly, code, start, end, p);
      StepOnSameTable(d.tables, ts, Weekly, code, start, end, p);
      if i > 1 {
        StepOnSameTable(w.tables, ts, Minute, code, start, end, p);
      }
    }
  }

  /**
   * Each series touches its own table only, as if handled alone on the
   * store as it was before the call; a series that was not reached (an
   * earlier one raised) leaves its table unchanged.
   */
  lemma SyncTablesIsolated(ts: Tables, code: string, start: string, end: string, p: Provider)
    ensures var r := Sync(ts, code, start, end, p);
            && (forall i :: 0 <= i < |Kinds| ==>
                  r.tables.Get(Kinds[i]) == if i < |r.requests| then Step(ts, Kinds[i], code, start, end, p).tables.Get(Kinds[i])
                                            else ts.Get(Kinds[i]))
            && (r.outcome.Fail? ==> r.outcome == Step(ts, Kinds[|r.requests| - 1], code, start, end, p).outcome)
  {
    var r := Sync(ts, code, start, end, p);
    var d := Step(ts, Daily, code, start, end, p);
    if d.outcome.Fail? {
      assert r == Synced(ts, [d.request], d.outcome);
      return;
    }
    var w := Step(d.tables, Weekly, code, start, end, p);
    StepOnSameTable(d.tables, ts, Weekly, code, start, end, p);
    if w.outcome.Fail? {
      assert r == Synced(w.tables, [d.request, w.request], w.outcome);
      assert w.tables == d.tables;
      return;
    }
    var m := Step(w.tables, Minute, code, start, end, p);
    StepOnSameTable(w.tables, ts, Minute, code, start, end, p);
    assert r == Synced(m.tables, [d.request, w.request, m.request], m.outcome);
  }

  /** A step depends only on the table of its own kind. */
  lemma StepOnSameTable(ts1: Tables, ts2: Tables, kind: Kind, code: string, start: string, end: string, p: Provider)
    requires ts1.Get(kind) == ts2.Get(kind)
    ensures Step(ts1, kind, code, start, end, p).request == Step(ts2, kind, code, start, end, p).request
    ensures Step(ts1, kind, code, start, end, p).outcome == Step(ts2, kind, code, start, end, p).outcome
    ensures Step(ts1, kind, code, start, end, p).tables.Get(kind) == Step(ts2, kind, code, start, end, p).tables.Get(kind)
  {
  }

  /**
   * A daily fetch that gives up ends `download_stock` at once: when all
   * three attempts at the daily request raise, only that request is made,
   * the call raises with the last attempt's error, and the store is
   * unchanged.
   */
  lemma DailyExhaustedStops(ts: Tables, code: string, start: string, end: string, p: Provider)
    requires var req := Request(Daily, code, ResumeStart(LastDate(ts.daily, code), start), end);
             forall i :: 0 <= i < MaxAttempts ==> p(req, i).Raised?
    ensures var req := Request(Daily, code, ResumeStart(LastDate(ts.daily, code), start), end);
            (Sync(ts, code, start, end, p) ==
             Synced(ts, [req], Fail(FetchFailed(Daily, RetryError(p(req, MaxAttempts - 1).reason)))))
  {
    var req := Request(Daily, code, ResumeStart(LastDate(ts.daily, code), start), end);
    RetryBound(p, req);
  }

  /** A provider that returns an empty frame for every request and attempt. */
  ghost predicate AlwaysEmpty(p: Provider)
  {
    forall req, n :: p(req, n) == Fetched([])
  }

  /** With a provider that always returns an empty frame, a series passes and stores nothing. */
  lemma StepEmptyPasses(ts: Tables, kind: Kind, code: string, start: string, end: string, p: Provider)
    requires AlwaysEmpty(p)
    ensures Step(ts, kind, code, start, end, p).outcome == Pass
    ensures Step(ts, kind, code, start, end, p).tables == ts
  {
    var f := Retry(p, Step(ts, kind, code, start, end, p).request);
    assert f.result == Ok([]);
  }

  /** With a provider that always returns an empty frame, `download_stock` succeeds and stores nothing. */
  lemma SyncEmptyPasses(ts: Tables, code: string, start: string, end: string, p: Provider)
    requires AlwaysEmpty(p)
    ensures Sync(ts, code, start, end, p).outcome == Pass
    ensures Sync(ts, code, start, end, p).tables == ts
  {
    StepEmptyPasses(ts, Daily, code, start, end, p);
    StepEmptyPasses(ts, Weekly, code, start, end, p);
    StepEmptyPasses(ts, Minute, code, start, end, p);
  }

  /**
   * Appending, not upserting: when the daily table already holds this
   * code's watermark row and the provider returns that date again (the
   * request includes it), the INSERT is refused, `download_stock` raises
   * before the weekly and minute series and the store is unchanged.
   */
  lemma ResumeOverlapRejected(ts: Tables, code: string, start: string, end: string, p: Provider,
                               d: string, rows: seq<Row>, i: nat)
    requires LastDate(ts.daily, code) == Some(d)
    requires Retry(p, Request(Daily, code, d, end)).result == Ok(rows)
    requires i < |rows| && rows[i].date == d
    ensures Sync(ts, code, start, end, p)
         == Synced(ts, [Request(Daily, code, d, end)], Fail(InsertFailed(Daily, IntegrityError(Daily))))
  {
    assert Key(code, d) in ts.Get(Daily);
    AppendRejectsStoredKey(ts, Daily, rows, code, i);
  }

  // ---------------------------------------------------------------------
  // Independence of the tasks of different codes
  // ---------------------------------------------------------------------

  /** Two stores hold the same rows for `code`, in every table. */
  ghost predicate AgreeAll(ts1: Tables, ts2: Tables, code: string)
  {
    forall kind :: AgreeOn(ts1.Get(kind), ts2.Get(kind), code)
  }

  lemma StepLocal(ts1: Tables, ts2: Tables, kind: Kind, code: string, start: string, end: string, p: Provider)
    requires AgreeAll(ts1, ts2, code)
    ensures Step(ts1, kind, code, start, end, p).request == Step(ts2, kind, code, start, end, p).request
    ensures Step(ts1, kind, code, start, end, p).outcome == Step(ts2, kind, code, start, end, p).outcome
    ensures AgreeAll(Step(ts1, kind, code, start, end, p).tables, Step(ts2, kind, code, start, end, p).tables, code)
  {
    LastDateLocal(ts1.Get(kind), ts2.Get(kind), code);
    var req := Step(ts1, kind, code, start, end, p).request;
    var f := Retry(p, req);
    if f.result.Ok? {
      AppendLocal(ts1, ts2, kind, f.result.value, code);
    }
  }

  /** What `download_stock(code)` requests, raises and stores for `code` depends only on the rows of `code`. */
  lemma {:induction false} SyncLocal(ts1: Tables, ts2: Tables, code: string, start: string, end: string, p: Provider)
    requires AgreeAll(ts1, ts2, code)
    ensures Sync(ts1, code, start, end, p).requests == Sync(ts2, code, start, end, p).requests
    ensures Sync(ts1, code, start, end, p).outcome == Sync(ts2, code, start, end, p).outcome
    ensures AgreeAll(Sync(ts1, code, start, end, p).tables, Sync(ts2, code, start, end, p).tables, code)
  {
    var d1 := Step(ts1, Daily, code, start, end, p);
    var d2 := Step(ts2, Daily, code, start, end, p);
    StepLocal(ts1, ts2, Daily, code, start, end, p);
    var w1 := Step(d1.tables, Weekly, code, start, end, p);
    var w2 := Step(d2.tables, Weekly, code, start, end, p);
    StepLocal(d1.tables, d2.tables, Weekly, code, start, end, p);
    StepLocal(w1.tables, w2.tables, Minute, code, start, end, p);
  }

  lemma StepKeepsOtherCodes(ts: Tables, kind: Kind, code: string, start: string, end: string, p: Provider, other: string)
    requires other != code
    ensures AgreeAll(Step(ts, kind, code, start, end, p).tables, ts, other)
  {
    var req := Step(ts, kind, code, start, end, p).request;
    var f := Retry(p, req);
    if f.result.Ok? {
      AppendKeepsOtherCodes(ts, kind, f.result.value, code, other);
    }
  }

  /** `download_stock(code)` leaves the rows of every other code as they were. */
  lemma {:induction false} SyncKeepsOtherCodes(ts: Tables, code: string, start: string, end: string, p: Provider, other: string)
    requires other != code
    ensures AgreeAll(Sync(ts, code, start, end, p).tables, ts, other)
  {
    var d := Step(ts, Daily, code, start, end, p);
    var w := Step(d.tables, Weekly, code, start, end, p);
    StepKeepsOtherCodes(ts, Daily, code, start, end, p, other);
    StepKeepsOtherCodes(d.tables, Weekly, code, start, end, p, other);
    StepKeepsOtherCodes(w.tables, Minute, code, start, end, p, other);
  }

  /**
   * Failure isolation between codes: running the task of `a` first does not
   * change what the task of another code `b` requests or whether it raises.
   */
  lemma SyncIsolated(ts: Tables, a: string, b: string, start: string, end: string, p: Provider)
    requires a != b
    ensures Sync(Sync(ts, a, start, end, p).tables, b, start, end, p).requests == Sync(ts, b, start, end, p).requests
    ensures Sync(Sync(ts, a, start, end, p).tables, b, start, end, p).outcome == Sync(ts, b, start, end, p).outcome
  {
    SyncKeepsOtherCodes(ts, a, start, end, p, b);
    SyncLocal(Sync(ts, a, start, end, p).tables, ts, b, start, end, p);
  }

  lemma AgreeTransitive(t1: Table, t2: Table, t3: Table, code: string)
    requires AgreeOn(t1, t2, code) && AgreeOn(t2, t3, code)
    ensures AgreeOn(t1, t3, code)
  {
  }

  /** Tables that agree on every code are equal. */
  lemma AgreeEverywhere(t1: Table, t2: Table)
    requires forall code :: AgreeOn(t1, t2, code)
    ensures t1 == t2
  {
    forall k | k in t1 ensures k in t2 && t1[k] == t2[k] {
      assert AgreeOn(t1, t2, k.code);
    }
    forall k | k in t2 ensures k in t1 {
      assert AgreeOn(t1, t2, k.code);
    }
  }

  /**
   * The whole tasks of two different codes, run one after the other, leave
   * the same store in either order.
   */
  lemma SyncCommutes(ts: Tables, a: string, b: string, start: string, end: string, p: Provider)
    requires a != b
    ensures Sync(Sync(ts, a, start, end, p).tables, b, start, end, p).tables
         == Sync(Sync(ts, b, start, end, p).tables, a, start, end, p).tables
  {
    var AB := Sync(Sync(ts, a, start, end, p).tables, b, start, end, p).tables;
    var BA := Sync(Sync(ts, b, start, end, p).tables, a, start, end, p).tables;
    forall c ensures AgreeAll(AB, BA, c) {
      if c == a {
        CommuteOwn(ts, a, b, start, end, p);
      } else if c == b {
        CommuteOwn(ts, b, a, start, end, p);
        AgreeAllSymmetric(BA, AB, c);
      } else {
        CommuteOther(ts, a, b, start, end, p, c);
      }
    }
    AgreeAllEverywhere(AB, BA);
  }

  /** After both tasks, in either order, the first code's rows are the same. */
  lemma CommuteOwn(ts: Tables, a: string, b: string, start: string, end: string, p: Provider)
    requires a != b
    ensures AgreeAll(Sync(Sync(ts, a, start, end, p).tables, b, start, end, p).tables,
                     Sync(Sync(ts, b, start, end, p).tables, a, start, end, p).tables, a)
  {
    var A := Sync(ts, a, start, end, p).tables;
    var B := Sync(ts, b, start, end, p).tables;
    SyncKeepsOtherCodes(A, b, start, end, p, a);
    SyncKeepsOtherCodes(ts, b, start, end, p, a);
    SyncLocal(B, ts, a, start, end, p);
    AgreeAllSymmetric(Sync(B, a, start, end, p).tables, A, a);
    AgreeAllTransitive(Sync(A, b, start, end, p).tables, A, Sync(B, a, start, end, p).tables, a);
  }

  /** After both tasks, in either order, a third code's rows are as they were. */
  lemma CommuteOther(ts: Tables, a: string, b: string, start: string, end: string, p: Provider, c: string)
    requires c != a && c != b
    ensures AgreeAll(Sync(Sync(ts, a, start, end, p).tables, b, start, end, p).tables,
                     Sync(Sync(ts, b, start, end, p).tables, a, start, end, p).tables, c)
  {
    var A := Sync(ts, a, start, end, p).tables;
    var B := Sync(ts, b, start, end, p).tables;
    SyncKeepsOtherCodes(ts, a, start, end, p, c);
    SyncKeepsOtherCodes(ts, b, start, end, p, c);
    SyncKeepsOtherCodes(A, b, start, end, p, c);
    SyncKeepsOtherCodes(B, a, start, end, p, c);
    AgreeAllTransitive(Sync(A, b, start, end, p).tables, A, ts, c);
    AgreeAllTransitive(Sync(B, a, start, end, p).tables, B, ts, c);
    AgreeAllSymmetric(Sync(B, a, start, end, p).tables, ts, c);
    AgreeAllTransitive(Sync(A, b, start, end, p).tables, ts, Sync(B, a, start, end, p).tables, c);
  }

  lemma AgreeAllSymmetric(ts1: Tables, ts2: Tables, code: string)
    requires AgreeAll(ts1, ts2, code)
    ensures AgreeAll(ts2, ts1, code)
  {
  }

  /** Stores that agree on every code are equal. */
  lemma AgreeAllEverywhere(ts1: Tables, ts2: Tables)
    requires forall code :: AgreeAll(ts1, ts2, code)
    ensures ts1 == ts2
  {
    forall kind ensures ts1.Get(kind) == ts2.Get(kind) {
      forall code ensures AgreeOn(ts1.Get(kind), ts2.Get(kind), code) {
        assert AgreeAll(ts1, ts2, code);
      }
      AgreeEverywhere(ts1.Get(kind), ts2.Get(kind));
    }
    assert ts1.daily == ts2.daily && ts1.weekly == ts2.weekly && ts1.minute == ts2.minute by {
      assert ts1.Get(Daily) == ts2.Get(Daily);
      assert ts1.Get(Weekly) == ts2.Get(Weekly);
      assert ts1.Get(Minute) == ts2.Get(Minute);
    }
  }

  // ---------------------------------------------------------------------
  // The imperative download
  // ---------------------------------------------------------------------

  /**
   * One block of `download_stock`: `get_last_date`, the resume choice, the
   * decorated fetcher and `append_data` for one series.
   */
  method SyncKind(db: Database, kind: Kind, code: string, start: string, end: string, p: Provider)
    returns (request: Request, outcome: Outcome<Error>)
    modifies db
    ensures var s := Step(old(db.Snapshot()), kind, code, start, end, p);
            db.Snapshot() == s.tables && request == s.request && outcome == s.outcome
  {
    var last := LastDate(db.Snapshot().Get(kind), code);
    request := Request(kind, code, ResumeStart(last, start), end);
    var result, attempts, waited := FetchWithRetry(p, request);
    if result.Err? {
      return request, Fail(FetchFailed(kind, result.error));
    }
    var appended := AppendData(db, kind, result.value, code);
    outcome := if appended.Fail? then Fail(InsertFailed(kind, appended.error)) else Pass;
  }

  /** `download_stock` on the database; an exception is returned as `Fail`. */
  method DownloadStock(db: Database, code: string, start: string, end: string, p: Provider)
    returns (requests: seq<Request>, outcome: Outcome<Error>)
    modifies db
    ensures Synced(db.Snapshot(), requests, outcome) == Sync(old(db.Snapshot()), code, start, end, p)
  {
    ghost var ts := db.Snapshot();
    var daily, weekly, minute: Request;
    daily, outcome := SyncKind(db, Daily, code, start, end, p);
    ghost var d := Step(ts, Daily, code, start, end, p);
    requests := [daily];
    if outcome.Fail? {
      assert Sync(ts, code, start, end, p) == Synced(d.tables, [d.request], d.outcome);
      return;
    }
    ghost var dt := db.Snapshot();
    weekly, outcome := SyncKind(db, Weekly, code, start, end, p);
    ghost var w := Step(dt, Weekly, code, start, end, p);
    requests := requests + [weekly];
    if outcome.Fail? {
      assert Sync(ts, code, start, end, p) == Synced(w.tables, [d.request, w.request], w.outcome);
      return;
    }
    ghost var wt := db.Snapshot();
    minute, outcome := SyncKind(db, Minute, code, start, end, p);
    ghost var m := Step(wt, Minute, code, start, end, p);
    requests := requests + [minute];
    assert Sync(ts, code, start, end, p) == Synced(m.tables, [d.request, w.request, m.request], m.outcome);
  }

  // ---------------------------------------------------------------------
  // main: the thread clamp and the per-code tasks
  // ---------------------------------------------------------------------

  /** The tqdm progress bar: `total` codes, `n` of them done. */
  class ProgressBar {
    const total: nat
    var n: nat

    constructor (total: nat)
      ensures this.total == total && n == 0
    {
      this.total := total;
      n := 0;
    }

    /** Advances the bar by `k` codes. */
    method Update(k: nat)
      modifies this
      ensures n == old(n) + k
    {
      n := n + k;
    }
  }

  /**
   * `task(code)`: download the stock, report a failure instead of raising,
   * and advance the progress bar once in the `finally` block.
   */
  method Task(db: Database, bar: ProgressBar, code: string, start: string, end: string, p: Provider)
    returns (failed: bool)
    modifies db, bar
    ensures bar.n == old(bar.n) + 1
    ensures db.Snapshot() == Sync(old(db.Snapshot()), code, start, end, p).tables
    ensures failed <==> Sync(old(db.Snapshot()), code, start, end, p).outcome.Fail?
  {
    var requests, outcome := DownloadStock(db, code, start, end, p);
    failed := outcome.Fail?;
    bar.Update(1);
  }

  /** The store after every code's task, and the codes whose download raised, in order. */
  datatype Report = Report(tables: Tables, failed: seq<string>)

  /** The tasks of `codes` run one after the other. */
  function SyncAll(ts: Tables, codes: seq<string>, start: string, end: string, p: Provider): (r: Report)
    ensures |r.failed| <= |codes|
    ensures forall c :: c in r.failed ==> c in codes
    decreases |codes|
  {
    if codes == [] then Report(ts, [])
    else
      var prev := SyncAll(ts, codes[..|codes| - 1], start, end, p);
      var last := codes[|codes| - 1];
      var s := Sync(prev.tables, last, start, end, p);
      Report(s.tables, prev.failed + if s.outcome.Fail? then [last] else [])
  }

  lemma SyncAllExtend(ts: Tables, codes: seq<string>, start: string, end: string, p: Provider, i: nat)
    requires i < |codes|
    ensures var prev := SyncAll(ts, codes[..i], start, end, p);
            var s := Sync(prev.tables, codes[i], start, end, p);
            SyncAll(ts, codes[..i + 1], start, end, p) == Report(s.tables, prev.failed + if s.outcome.Fail? then [codes[i]] else [])
  {
    assert codes[..i + 1][..i] == codes[..i];
  }

  /** The codes that `keep` accepts, in order. */
  function Filter(codes: seq<string>, keep: string -> bool): seq<string>
    decreases |codes|
  {
    if codes == [] then []
    else Filter(codes[..|codes| - 1], keep) + if keep(codes[|codes| - 1]) then [codes[|codes| - 1]] else []
  }

  lemma {:induction false} FilterMembers(codes: seq<string>, keep: string -> bool, c: string)
    ensures c in Filter(codes, keep) <==> c in codes && keep(c)
    decreases |codes|
  {
    if codes != [] {
      var front := codes[..|codes| - 1];
      FilterMembers(front, keep, c);
      assert codes == front + [codes[|codes| - 1]];
    }
  }

  /** The codes, in order, whose task fails when run alone on `ts`. */
  function FailedAlone(ts: Tables, codes: seq<string>, start: string, end: string, p: Provider): seq<string>
  {
    Filter(codes, c => Sync(ts, c, start, end, p).outcome.Fail?)
  }

  lemma FailedAloneMembers(ts: Tables, codes: seq<string>, start: string, end: string, p: Provider, c: string)
    ensures c in FailedAlone(ts, codes, start, end, p) <==> c in codes && Sync(ts, c, start, end, p).outcome.Fail?
  {
    FilterMembers(codes, c => Sync(ts, c, start, end, p).outcome.Fail?, c);
  }

  /** The codes, in order, whose task succeeds when run alone on `ts`. */
  function PassedAlone(ts: Tables, codes: seq<string>, start: string, end: string, p: Provider): seq<string>
  {
    Filter(codes, c => Sync(ts, c, start, end, p).outcome.Pass?)
  }

  lemma PassedAloneMembers(ts: Tables, codes: seq<string>, start: string, end: string, p: Provider, c: string)
    ensures c in PassedAlone(ts, codes, start, end, p) <==> c in codes && Sync(ts, c, start, end, p).outcome.Pass?
  {
    FilterMembers(codes, c => Sync(ts, c, start, end, p).outcome.Pass?, c);
  }

  lemma PassedAloneSnoc(ts: Tables, codes: seq<string>, c: string, start: string, end: string, p: Provider)
    ensures PassedAlone(ts, codes + [c], start, end, p)
         == PassedAlone(ts, codes, start, end, p) + if Sync(ts, c, start, end, p).outcome.Pass? then [c] else []
  {
    assert (codes + [c])[..|codes|] == codes;
  }

  lemma AgreeAllTransitive(ts1: Tables, ts2: Tables, ts3: Tables, code: string)
    requires AgreeAll(ts1, ts2, code) && AgreeAll(ts2, ts3, code)
    ensures AgreeAll(ts1, ts3, code)
  {
    forall kind ensures AgreeOn(ts1.Get(kind), ts3.Get(kind), code) {
      AgreeTransitive(ts1.Get(kind), ts2.Get(kind), ts3.Get(kind), code);
    }
  }

  /** The tasks of the other codes leave the rows of a code that is not in the list alone. */
  lemma {:induction false} SyncAllKeepsOthers(ts: Tables, codes: seq<string>, start: string, end: string, p: Provider, c: string)
    requires c !in codes
    ensures AgreeAll(SyncAll(ts, codes, start, end, p).tables, ts, c)
    decreases |codes|
  {
    if codes != [] {
      var front := codes[..|codes| - 1];
      assert c !in front by { assert forall x :: x in front ==> x in codes; }
      SyncAllKeepsOthers(ts, front, start, end, p, c);
      var prev := SyncAll(ts, front, start, end, p);
      SyncKeepsOtherCodes(prev.tables, codes[|codes| - 1], start, end, p, c);
      AgreeAllTransitive(SyncAll(ts, codes, start, end, p).tables, prev.tables, ts, c);
    }
  }

  /**
   * With distinct codes, the run reports exactly the codes whose task fails
   * when run alone on the starting store, in submission order.
   */
  lemma {:induction false} SyncAllFailures(ts: Tables, codes: seq<string>, start: string, end: string, p: Provider)
    requires forall i, j :: 0 <= i < j < |codes| ==> codes[i] != codes[j]
    ensures SyncAll(ts, codes, start, end, p).failed == FailedAlone(ts, codes, start, end, p)
    decreases |codes|
  {
    if codes != [] {
      SyncAllFailures(ts, codes[..|codes| - 1], start, end, p);
      SyncAllFailuresStep(ts, codes, start, end, p);
    }
  }

  /** The inductive step of `SyncAllFailures`: one more distinct code keeps the two lists equal. */
  lemma SyncAllFailuresStep(ts: Tables, codes: seq<string>, start: string, end: string, p: Provider)
    requires codes != []
    requires forall i, j :: 0 <= i < j < |codes| ==> codes[i] != codes[j]
    requires SyncAll(ts, codes[..|codes| - 1], start, end, p).failed == FailedAlone(ts, codes[..|codes| - 1], start, end, p)
    ensures SyncAll(ts, codes, start, end, p).failed == FailedAlone(ts, codes, start, end, p)
  {
    SyncAllFailedStep(ts, codes, start, end, p);
    FailedAloneStep(ts, codes, start, end, p);
  }

  /** With distinct codes, the last code is reported exactly when its task would fail alone. */
  lemma SyncAllFailedStep(ts: Tables, codes: seq<string>, start: string, end: string, p: Provider)
    requires codes != []
    requires forall i, j :: 0 <= i < j < |codes| ==> codes[i] != codes[j]
    ensures var last := codes[|codes| - 1];
            SyncAll(ts, codes, start, end, p).failed
              == SyncAll(ts, codes[..|codes| - 1], start, end, p).failed + if Sync(ts, last, start, end, p).outcome.Fail? then [last] else []
  {
    LastSyncAlone(ts, codes, start, end, p);
  }

  /** With distinct codes, the last task raises exactly when it would alone. */
  lemma LastSyncAlone(ts: Tables, codes: seq<string>, start: string, end: string, p: Provider)
    requires codes != []
    requires forall i, j :: 0 <= i < j < |codes| ==> codes[i] != codes[j]
    ensures var prev := SyncAll(ts, codes[..|codes| - 1], start, end, p);
            var last := codes[|codes| - 1];
            && Sync(prev.tables, last, start, end, p).outcome == Sync(ts, last, start, end, p).outcome
            && AgreeAll(Sync(prev.tables, last, start, end, p).tables, Sync(ts, last, start, end, p).tables, last)
  {
    var front := codes[..|codes| - 1];
    var last := codes[|codes| - 1];
    assert last !in front;
    SyncAllKeepsOthers(ts, front, start, end, p, last);
    SyncLocal(SyncAll(ts, front, start, end, p).tables, ts, last, start, end, p);
  }

  lemma FailedAloneStep(ts: Tables, codes: seq<string>, start: string, end: string, p: Provider)
    requires codes != []
    ensures var last := codes[|codes| - 1];
            FailedAlone(ts, codes, start, end, p)
              == FailedAlone(ts, codes[..|codes| - 1], start, end, p) + if Sync(ts, last, start, end, p).outcome.Fail? then [last] else []
  {
  }

  /**
   * With distinct codes, every listed code ends with the rows its task would
   * have stored running alone on the starting store.
   */
  lemma {:induction false} SyncAllPerCode(ts: Tables, codes: seq<string>, start: string, end: string, p: Provider, c: string)
    requires forall i, j :: 0 <= i < j < |codes| ==> codes[i] != codes[j]
    requires c in codes
    ensures AgreeAll(SyncAll(ts, codes, start, end, p).tables, Sync(ts, c, start, end, p).tables, c)
    decreases |codes|
  {
    var front := codes[..|codes| - 1];
    if c == codes[|codes| - 1] {
      LastAgrees(ts, codes, start, end, p);
    } else {
      assert c in front by { assert codes == front + [codes[|codes| - 1]]; }
      SyncAllPerCode(ts, front, start, end, p, c);
      LaterAgrees(ts, codes, start, end, p, c, Sync(ts, c, start, end, p).tables);
    }
  }

  /** The last code of the list ends as its task alone would leave it. */
  lemma LastAgrees(ts: Tables, codes: seq<string>, start: string, end: string, p: Provider)
    requires codes != []
    requires forall i, j :: 0 <= i < j < |codes| ==> codes[i] != codes[j]
    ensures var last := codes[|codes| - 1];
            AgreeAll(SyncAll(ts, codes, start, end, p).tables, Sync(ts, last, start, end, p).tables, last)
  {
    LastSyncAlone(ts, codes, start, end, p);
  }

  /** The task of the last code keeps what the earlier ones left for another code. */
  lemma LaterAgrees(ts: Tables, codes: seq<string>, start: string, end: string, p: Provider, c: string, target: Tables)
    requires codes != [] && c != codes[|codes| - 1]
    requires AgreeAll(SyncAll(ts, codes[..|codes| - 1], start, end, p).tables, target, c)
    ensures AgreeAll(SyncAll(ts, codes, start, end, p).tables, target, c)
  {
    var prev := SyncAll(ts, codes[..|codes| - 1], start, end, p).tables;
    SyncKeepsOtherCodes(prev, codes[|codes| - 1], start, end, p, c);
    AgreeAllTransitive(SyncAll(ts, codes, start, end, p).tables, prev, target, c);
  }

  /**
   * `main` after argument parsing: the clamped pool size, a progress bar
   * over the codes, and one task per code (run here in submission order).
   */
  method Run(db: Database, codes: seq<string>, start: string, end: string, threads: int, p: Provider)
    returns (threadCount: int, bar: ProgressBar, failed: seq<string>)
    modifies db
    ensures threadCount == ThreadCount(threads)
    ensures fresh(bar) && bar.total == |codes| && bar.n == |codes|
    ensures Report(db.Snapshot(), failed) == SyncAll(old(db.Snapshot()), codes, start, end, p)
  {
    threadCount := ThreadCount(threads);
    bar := new ProgressBar(|codes|);
    failed := [];
    var i := 0;
    while i < |codes|
      invariant 0 <= i <= |codes|
      invariant bar.n == i
      invariant Report(db.Snapshot(), failed) == SyncAll(old(db.Snapshot()), codes[..i], start, end, p)
    {
      SyncAllExtend(old(db.Snapshot()), codes, start, end, p, i);
      var f := Task(db, bar, codes[i], start, end, p);
      if f {
        failed := failed + [codes[i]];
      }
      i := i + 1;
    }
    assert codes[..i] == codes;
  }
}
