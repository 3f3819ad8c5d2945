/**
 * The SQLite store of akshare_downloader.py, abstracted to three keyed
 * tables. Each table maps the primary key `(ts_code, date)` to the row's
 * OHLCV payload; `get_last_date` is a MAX query over one code's dates and
 * `append_data` is a plain INSERT of a tagged batch (no upsert).
 */
module Store {
  import opened Wrappers
  import opened Strings

  /** The three series, each stored in its own table. */
  datatype Kind = Daily | Weekly | Minute

  /** The order in which one stock's series are downloaded. */
  const Kinds: seq<Kind> := [Daily, Weekly, Minute]

  /** The numeric columns of a bar; opaque to the downloader. */
  datatype Ohlcv = Ohlcv(open: real, high: real, low: real, close: real, volume: real, amount: real)

  /** One row of a fetched frame: its date (or date-time) and its payload. */
  datatype Row = Row(date: string, values: Ohlcv)

  /** The primary key `(ts_code, trade_date)` or `(ts_code, datetime)`. */
  datatype Key = Key(code: string, date: string)

  /** One table: a primary key determines at most one row. */
  type Table = map<Key, Ohlcv>

  /** The contents of the tables `daily`, `weekly` and `minute`. */
  datatype Tables = Tables(daily: Table, weekly: Table, minute: Table)
  {
    function Get(kind: Kind): Table
    {
      match kind
      case Daily => daily
      case Weekly => weekly
      case Minute => minute
    }

    /** The same store with the table of `kind` replaced by `t`. */
    function Set(kind: Kind, t: Table): (r: Tables)
      ensures r.Get(kind) == t
      ensures forall other :: other != kind ==> r.Get(other) == Get(other)
    {
      match kind
      case Daily => this.(daily := t)
      case Weekly => this.(weekly := t)
      case Minute => this.(minute := t)
    }
  }

  /** The error SQLite raises when an INSERT violates the primary key. */
  datatype IntegrityError = IntegrityError(kind: Kind)

  // ---------------------------------------------------------------------
  // get_last_date: SELECT MAX(date) FROM table WHERE ts_code = code
  // ---------------------------------------------------------------------

  /** `m` is the lexicographic maximum of `s`. */
  predicate IsLexMax(s: set<string>, m: string)
  {
    m in s && forall e :: e in s ==> LexLe(e, m)
  }

  lemma {:induction false} LexMaxExists(s: set<string>)
    requires s != {}
    ensures exists m :: IsLexMax(s, m)
    decreases |s|
  {
    var x :| x in s;
    var rest := s - {x};
    if rest == {} {
      assert s == {x};
      LexLeReflexive(x);
      assert IsLexMax(s, x);
    } else {
      LexMaxExists(rest);
      var m :| IsLexMax(rest, m);
      LexLeTotal(x, m);
      if LexLe(x, m) {
        assert IsLexMax(s, m);
      } else {
        LexLeReflexive(x);
        forall e | e in s ensures LexLe(e, x) {
          if e != x {
            LexLeTransitive(e, m, x);
          }
        }
        assert IsLexMax(s, x);
      }
    }
  }

  lemma LexMaxUnique(s: set<string>)
    ensures forall a, b :: IsLexMax(s, a) && IsLexMax(s, b) ==> a == b
  {
    forall a, b | IsLexMax(s, a) && IsLexMax(s, b) ensures a == b {
      LexLeAntisymmetric(a, b);
    }
  }

  /** SQL `MAX` over a non-empty set of TEXT values. */
  function MaxOf(s: set<string>): (m: string)
    requires s != {}
    ensures IsLexMax(s, m)
  {
    LexMaxExists(s);
    LexMaxUnique(s);
    var m :| IsLexMax(s, m);
    m
  }

  /** The dates stored for `code` in `t`. */
  function DatesOf(t: Table, code: string): (r: set<string>)
    ensures forall d :: d in r <==> Key(code, d) in t
  {
    set k | k in t && k.code == code :: k.date
  }

  /**
   * `get_last_date`: the lexicographic maximum of the dates stored for
   * `code`, or None when there is none — or when that maximum is the empty
   * string, which the source's truthiness test also turns into None.
   */
  function LastDate(t: Table, code: string): (r: Option<string>)
    ensures r.None? <==> forall d :: Key(code, d) in t ==> d == ""
    ensures r.Some? ==> r.value != "" && Key(code, r.value) in t
    ensures r.Some? ==> forall d :: Key(code, d) in t ==> LexLe(d, r.value)
  {
    var dates := DatesOf(t, code);
    if dates == {} then None
    else
      var m := MaxOf(dates);
      if m == "" then None else Some(m)
  }

  /** Two tables hold the same rows for `code`. */
  ghost predicate AgreeOn(t1: Table, t2: Table, code: string)
  {
    forall k: Key :: k.code == code ==> (k in t1 <==> k in t2) && (k in t1 ==> t1[k] == t2[k])
  }

  /** Rows of other codes do not affect `get_last_date`. */
  lemma LastDateLocal(t1: Table, t2: Table, code: string)
    requires AgreeOn(t1, t2, code)
    ensures LastDate(t1, code) == LastDate(t2, code)
  {
    assert DatesOf(t1, code) == DatesOf(t2, code) by {
      forall d ensures d in DatesOf(t1, code) <==> d in DatesOf(t2, code) {
        assert Key(code, d).code == code;
      }
    }
  }

  // ---------------------------------------------------------------------
  // append_data: tag the batch with ts_code and INSERT it
  // ---------------------------------------------------------------------

  /** No two rows of the batch share a date. */
  predicate DistinctDates(rows: seq<Row>)
  {
    forall i, j :: 0 <= i < j < |rows| ==> rows[i].date != rows[j].date
  }

  /** The key a row gets once tagged with `code`. */
  function KeyOf(code: string, row: Row): Key
  {
    Key(code, row.date)
  }

  lemma DistinctTail(rows: seq<Row>)
    requires |rows| > 0 && DistinctDates(rows)
    ensures DistinctDates(rows[1..])
    ensures forall i :: 0 <= i < |rows| - 1 ==> rows[1..][i].date != rows[0].date
  {
  }

  /** The batch, tagged with `code`, as a map from key to payload. */
  function BatchMap(rows: seq<Row>, code: string): map<Key, Ohlcv>
    requires DistinctDates(rows)
    decreases |rows|
  {
    if rows == [] then map[]
    else
      DistinctTail(rows);
      BatchMap(rows[1..], code)[KeyOf(code, rows[0]) := rows[0].values]
  }

  /** The batch map holds one entry per row, under the row's key, with the row's values. */
  lemma {:induction false} BatchMapContents(rows: seq<Row>, code: string)
    requires DistinctDates(rows)
    ensures var m := BatchMap(rows, code);
            && (forall k :: k in m <==> exists i :: 0 <= i < |rows| && k == KeyOf(code, rows[i]))
            && (forall i :: 0 <= i < |rows| ==> KeyOf(code, rows[i]) in m && m[KeyOf(code, rows[i])] == rows[i].values)
            && |m| == |rows|
    decreases |rows|
  {
    if rows != [] {
      var tail := rows[1..];
      DistinctTail(rows);
      BatchMapContents(tail, code);
      var rest := BatchMap(tail, code);
      assert forall i :: 1 <= i < |rows| ==> rows[i] == tail[i - 1];
      assert KeyOf(code, rows[0]) !in rest;
    }
  }

  /**
   * The batch cannot be inserted: two of its rows share a key, or one of
   * its keys is already stored.
   */
  predicate Collides(t: Table, rows: seq<Row>, code: string)
  {
    !DistinctDates(rows) || exists i :: 0 <= i < |rows| && KeyOf(code, rows[i]) in t
  }

  /**
   * One multi-row INSERT inside a transaction: it fails as a whole on a
   * primary-key violation and leaves the table as it was.
   */
  function Insert(t: Table, rows: seq<Row>, code: string, kind: Kind): (r: Result<Table, IntegrityError>)
    ensures r.Err? <==> Collides(t, rows, code)
    ensures r.Err? ==> r.error == IntegrityError(kind)
  {
    if Collides(t, rows, code) then Err(IntegrityError(kind)) else Ok(t + BatchMap(rows, code))
  }

  /** The store after an `append_data` call, and whether it raised. */
  datatype Appended = Appended(tables: Tables, outcome: Outcome<IntegrityError>)

  /**
   * `append_data` on the store's contents: an empty batch is a no-op,
   * otherwise the tagged batch is inserted into the table of `kind`.
   */
  function Append(ts: Tables, kind: Kind, rows: seq<Row>, code: string): (r: Appended)
    ensures rows == [] ==> r == Appended(ts, Pass)
    ensures r.outcome.Fail? <==> rows != [] && Collides(ts.Get(kind), rows, code)
    ensures r.outcome.Fail? ==> r.tables == ts && r.outcome.error == IntegrityError(kind)
    ensures forall other :: other != kind ==> r.tables.Get(other) == ts.Get(other)
  {
    if rows == [] then Appended(ts, Pass)
    else
      match Insert(ts.Get(kind), rows, code, kind)
      case Ok(t) => Appended(ts.Set(kind, t), Pass)
      case Err(e) => Appended(ts, Fail(e))
  }

  /**
   * A successful non-empty append adds exactly the batch rows, each under
   * its `(code, date)` key, and keeps every row that was already stored.
   */
  lemma AppendAddsBatch(ts: Tables, kind: Kind, rows: seq<Row>, code: string)
    requires Append(ts, kind, rows, code).outcome.Pass?
    ensures var old_ := ts.Get(kind);
            var new_ := Append(ts, kind, rows, code).tables.Get(kind);
            && |new_| == |old_| + |rows|
            && (forall k :: k in new_ <==> k in old_ || exists i :: 0 <= i < |rows| && k == KeyOf(code, rows[i]))
            && (forall k :: k in old_ ==> new_[k] == old_[k])
            && (forall i :: 0 <= i < |rows| ==> new_[KeyOf(code, rows[i])] == rows[i].values)
  {
    if rows != [] {
      var old_ := ts.Get(kind);
      var b := BatchMap(rows, code);
      BatchMapContents(rows, code);
      assert old_.Keys !! b.Keys;
      assert (old_ + b).Keys == old_.Keys + b.Keys;
      assert |(old_ + b).Keys| == |old_.Keys| + |b.Keys|;
    }
  }

  /**
   * A batch holding a key that is already stored is refused: the append
   * raises and the store is unchanged.
   */
  lemma AppendRejectsStoredKey(ts: Tables, kind: Kind, rows: seq<Row>, code: string, i: nat)
    requires i < |rows| && KeyOf(code, rows[i]) in ts.Get(kind)
    ensures Append(ts, kind, rows, code) == Appended(ts, Fail(IntegrityError(kind)))
  {
  }

  /** Whether an append succeeds, and what it adds, depend only on the rows of `code`. */
  lemma AppendLocal(ts1: Tables, ts2: Tables, kind: Kind, rows: seq<Row>, code: string)
    requires AgreeOn(ts1.Get(kind), ts2.Get(kind), code)
    ensures Append(ts1, kind, rows, code).outcome == Append(ts2, kind, rows, code).outcome
    ensures AgreeOn(Append(ts1, kind, rows, code).tables.Get(kind), Append(ts2, kind, rows, code).tables.Get(kind), code)
  {
    assert Collides(ts1.Get(kind), rows, code) == Collides(ts2.Get(kind), rows, code) by {
      forall i | 0 <= i < |rows| ensures KeyOf(code, rows[i]) in ts1.Get(kind) <==> KeyOf(code, rows[i]) in ts2.Get(kind) {
        assert KeyOf(code, rows[i]).code == code;
      }
    }
  }

  /** An append for `code` leaves every row of every other code as it was. */
  lemma AppendKeepsOtherCodes(ts: Tables, kind: Kind, rows: seq<Row>, code: string, other: string)
    requires other != code
    ensures forall x :: AgreeOn(Append(ts, kind, rows, code).tables.Get(x), ts.Get(x), other)
  {
    var r := Append(ts, kind, rows, code);
    forall x ensures AgreeOn(r.tables.Get(x), ts.Get(x), other) {
      if x == kind && r.outcome.Pass? && rows != [] {
        var b := BatchMap(rows, code);
        BatchMapContents(rows, code);
        assert r.tables.Get(x) == ts.Get(x) + b;
        forall k: Key | k.code == other ensures k !in b {
        }
      } else {
        assert r.tables.Get(x) == ts.Get(x);
      }
    }
  }

  // ---------------------------------------------------------------------
  // The database handle
  // ---------------------------------------------------------------------

  /** The SQLite database behind the engine; its three tables change in place. */
  class Database {
    var daily: Table
    var weekly: Table
    var minute: Table

    /** `init_db` on a database file that already holds `tables`. */
    constructor (tables: Tables)
      ensures Snapshot() == tables
    {
      daily, weekly, minute := tables.daily, tables.weekly, tables.minute;
    }

    function Snapshot(): Tables
      reads this
    {
      Tables(daily, weekly, minute)
    }

    /** Commits new contents for the table of `kind`. */
    method Replace(kind: Kind, t: Table)
      modifies this
      ensures Snapshot() == old(Snapshot()).Set(kind, t)
    {
      match kind
      case Daily => daily := t;
      case Weekly => weekly := t;
      case Minute => minute := t;
    }
  }

  /** `append_data` on the database: tag the batch with the code and insert it into the table of `kind`. */
  method AppendData(db: Database, kind: Kind, rows: seq<Row>, code: string) returns (outcome: Outcome<IntegrityError>)
    modifies db
    ensures Appended(db.Snapshot(), outcome) == Append(old(db.Snapshot()), kind, rows, code)
  {
    if rows == [] {
      return Pass;
    }
    var inserted := Insert(db.Snapshot().Get(kind), rows, code, kind);
    if inserted.Err? {
      return Fail(inserted.error);
    }
    db.Replace(kind, inserted.value);
    outcome := Pass;
  }
}
