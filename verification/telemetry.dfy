/**
 * `NightTelemetry` from `CI/db.py`: telemetry lookups by night through a
 * bounded cache of whole-night query results.
 *
 * A night's window runs from 07:00 on its date to 07:00 the next day, both
 * ends included. Times are whole seconds on one scale; the requested times
 * (`MJD` in the source) are taken as already converted to it, and
 * `dayStart(night)` gives the start of the night's window. The telemetry
 * table is a sequence of records, and a fetch is the inclusive selection of
 * the records in a window. The cache is a sequence of (night, records)
 * entries in insertion order, oldest first.
 */
module Telemetry {
  import opened Wrappers
  import opened Text
  import Query

  /** One day in seconds: the length of a night's window. */
  const OneDay: int := 86400

  /** A table value: SQL NULL, a number, a string, or a timestamp. */
  datatype Cell = Null | Num(x: real) | Str(s: string) | Stamp(t: int)

  /** A telemetry record: its timestamp and its other columns. */
  datatype Record = Record(time: int, cells: map<string, Cell>)

  /** One cached night: the records of its window. */
  datatype Entry = Entry(night: int, records: seq<Record>)

  /** The state of a `NightTelemetry` object. */
  datatype Telemetry = Telemetry(
    tablename: string,
    columns: seq<string>,
    what: string,
    timestamp: string,
    cachesize: int,
    cache: seq<Entry>)

  /** How a lookup fails. */
  datatype LookupError =
    | InvalidColumn(name: string)   // `what` is not one of the columns
    | NoTimes                       // `MJD.min()` of an empty array
    | OutsideNight(time: int)       // the earliest or latest requested time is outside the window
    | Evicted                       // the cache cannot hold even the new night: KeyError
    | NotNumeric(name: string)      // interpolation asked of a non-numeric column
    | UndefinedName(name: string)   // NameError: a module that was never imported

  /** What a lookup returns. */
  datatype Answer =
    | Whole(records: seq<Record>)                                          // every column
    | Series(name: string, points: seq<(int, Cell)>)                       // time and one column
    | Interpolation(name: string, times: seq<int>, points: seq<(int, Cell)>) // interpolation, left to the caller

  // ---------------------------------------------------------------- setup

  /** The test query run by the constructor: one row of `telemetry.<tablename>`. */
  function TestQuery(tablename: string, columns: string): (sql: string)
    ensures Query.SegmentAt(sql, 0, Query.Head("telemetry." + tablename, columns))
    ensures sql == Query.Head("telemetry." + tablename, columns) + " limit 1"
  {
    assert Text.IntToString(1) == "1" by {
      assert Text.Digits(1) == "1";
    }
    Query.Select("telemetry." + tablename, columns, None, Some(1), None)
  }

  /**
   * `NightTelemetry(db, tablename, columns, cachesize, timestamp)`, where
   * `found` are the columns the test query returned.
   */
  function Init(tablename: string, found: seq<string>, cachesize: int, timestamp: string): (t: Telemetry)
    ensures timestamp in t.columns
    ensures |t.columns| == if timestamp in found then |found| else |found| + 1
    ensures t.columns[..|found|] == found
    ensures t.what == Join(t.columns, ',')
    ensures t.timestamp == timestamp && t.cachesize == cachesize && t.tablename == tablename
    ensures t.cache == []
  {
    var columns := if timestamp in found then found else found + [timestamp];
    Telemetry(tablename, columns, Join(columns, ','), timestamp, cachesize, [])
  }

  /** When no column name holds a comma, `what` splits back into the columns. */
  lemma InitWhatSplits(tablename: string, found: seq<string>, cachesize: int, timestamp: string)
    requires ',' !in timestamp
    requires forall i :: 0 <= i < |found| ==> ',' !in found[i]
    ensures Split(Init(tablename, found, cachesize, timestamp).what, ',') == Init(tablename, found, cachesize, timestamp).columns
  {
    var t := Init(tablename, found, cachesize, timestamp);
    assert forall i :: 0 <= i < |t.columns| ==> ',' !in t.columns[i] by {
      forall i | 0 <= i < |t.columns|
        ensures ',' !in t.columns[i]
      {
        if i < |found| {
          assert t.columns[i] == t.columns[..|found|][i];
        }
      }
    }
    SplitJoin(t.columns, ',');
  }

  // ---------------------------------------------------------------- fetching

  /**
   * The records with `tmin <= time <= tmax`, in table order: what the query
   * built at CI/db.py:75-77 returns.
   */
  function Fetch(table: seq<Record>, tmin: int, tmax: int): (r: seq<Record>)
    ensures forall x :: x in r <==> x in table && tmin <= x.time <= tmax
    ensures |r| <= |table|
  {
    if table == [] then []
    else (if tmin <= table[0].time <= tmax then [table[0]] else []) + Fetch(table[1..], tmin, tmax)
  }

  /** The window of a night: from `dayStart(night)` to one day later. */
  function WindowEnd(dayStart: int -> int, night: int): (tmax: int)
    ensures tmax - dayStart(night) == OneDay
  {
    dayStart(night) + OneDay
  }

  /** The condition of the fetch query: the timestamp bounded on both sides, ends included. */
  function Between(timestamp: string, tminText: string, tmaxText: string): string
  {
    timestamp + ">=TIMESTAMP '" + tminText + "' and " + timestamp + "<=TIMESTAMP '" + tmaxText + "'"
  }

  /**
   * The fetch query: every column of `tablename` (without the `telemetry.`
   * prefix of the test query), the window condition, and no limit.
   */
  function FetchQuery(t: Telemetry, tminText: string, tmaxText: string): (sql: string)
    ensures Query.SegmentAt(sql, 0, Query.Head(t.tablename, t.what))
    ensures Query.SegmentAt(sql, |Query.Head(t.tablename, t.what)|, " where " + Between(t.timestamp, tminText, tmaxText))
    ensures |sql| == |Query.Head(t.tablename, t.what)| + 7 + |Between(t.timestamp, tminText, tmaxText)|
  {
    var where := Between(t.timestamp, tminText, tmaxText);
    Query.SelectWhere(t.tablename, t.what, Some(where), None, None);
    Query.SelectNoLimit(t.tablename, t.what, Some(where), None);
    Query.Select(t.tablename, t.what, Some(where), None, None)
  }

  // ---------------------------------------------------------------- the cache

  /** The nights held, oldest first. */
  function Nights(cache: seq<Entry>): (ns: seq<int>)
    ensures |ns| == |cache|
    ensures forall i :: 0 <= i < |cache| ==> ns[i] == cache[i].night
  {
    seq(|cache|, i requires 0 <= i < |cache| => cache[i].night)
  }

  predicate Distinct(ns: seq<int>)
  {
    forall i, j :: 0 <= i < j < |ns| ==> ns[i] != ns[j]
  }

  /** The records cached for `night`. */
  function Find(cache: seq<Entry>, night: int): (r: seq<Record>)
    requires night in Nights(cache)
    ensures exists i :: 0 <= i < |cache| && cache[i].night == night && cache[i].records == r
  {
    if cache[0].night == night then cache[0].records else Find(cache[1..], night)
  }

  /** Trimming the cache to `size` entries (CI/db.py:83-85): the oldest entries go first. */
  function Evict(cache: seq<Entry>, size: int): (r: seq<Entry>)
    ensures |r| == if |cache| <= size then |cache| else if size < 0 then 0 else size
    ensures r == cache[|cache| - |r|..]
  {
    if |cache| > size && cache != [] then Evict(cache[1..], size) else cache
  }

  /**
   * The cache invariant: each night at most once, no more entries than the
   * bound, and every entry holding exactly what a fresh fetch of its window gives.
   */
  ghost predicate Inv(t: Telemetry, table: seq<Record>, dayStart: int -> int)
  {
    && Distinct(Nights(t.cache))
    && |t.cache| <= (if t.cachesize < 0 then 0 else t.cachesize)
    && forall i :: 0 <= i < |t.cache| ==> Fresh(t.cache[i], table, dayStart)
  }

  /** The entry holds what a fetch of its night's window gives. */
  ghost predicate Fresh(e: Entry, table: seq<Record>, dayStart: int -> int)
  {
    e.records == Fetch(table, dayStart(e.night), WindowEnd(dayStart, e.night))
  }

  // ---------------------------------------------------------------- lookups

  function Min(s: seq<int>): (m: int)
    requires s != []
    ensures m in s && forall i :: 0 <= i < |s| ==> m <= s[i]
  {
    if |s| == 1 then s[0] else var rest := Min(s[1..]); if s[0] <= rest then s[0] else rest
  }

  function Max(s: seq<int>): (m: int)
    requires s != []
    ensures m in s && forall i :: 0 <= i < |s| ==> s[i] <= m
  {
    if |s| == 1 then s[0] else var rest := Max(s[1..]); if s[0] >= rest then s[0] else rest
  }

  /** The value of column `name` in a record; the timestamp column is the record's time. */
  function Value(x: Record, name: string, timestamp: string): Cell
  {
    if name == timestamp then Stamp(x.time) else if name in x.cells then x.cells[name] else Null
  }

  /** The time and the named column of every record (CI/db.py:91). */
  function Points(records: seq<Record>, name: string, timestamp: string): (ps: seq<(int, Cell)>)
    ensures |ps| == |records|
    ensures forall i :: 0 <= i < |records| ==> ps[i] == (records[i].time, Value(records[i], name, timestamp))
  {
    seq(|records|, i requires 0 <= i < |records| => (records[i].time, Value(records[i], name, timestamp)))
  }

  /**
   * The column's inferred dtype is a number type: every value is a number or
   * NULL (read as NaN), and at least one is a number.
   */
  predicate Numeric(records: seq<Record>, name: string, timestamp: string)
  {
    && (forall i :: 0 <= i < |records| ==> Value(records[i], name, timestamp).Num? || Value(records[i], name, timestamp).Null?)
    && (exists i :: 0 <= i < |records| && Value(records[i], name, timestamp).Num?)
  }

  /** The requested times all lie in the closed window `[tmin, tmax]`. */
  predicate AllInside(times: seq<int>, tmin: int, tmax: int)
  {
    forall i :: 0 <= i < |times| ==> tmin <= times[i] <= tmax
  }

  /** The checks made before the cache is looked at, and the error of the first that fails. */
  function Validate(t: Telemetry, dayStart: int -> int, night: int, what: Option<string>, times: Option<seq<int>>): (e: Option<LookupError>)
    ensures what.Some? && what.value !in t.columns ==> e == Some(InvalidColumn(what.value))
    ensures e.None? <==>
      && (what.None? || what.value in t.columns)
      && (times.Some? ==> times.value != [] && AllInside(times.value, dayStart(night), WindowEnd(dayStart, night)))
    ensures e.Some? && e.value.OutsideNight? ==>
      times.Some? && e.value.time in times.value && !(dayStart(night) <= e.value.time <= WindowEnd(dayStart, night))
  {
    var tmin, tmax := dayStart(night), WindowEnd(dayStart, night);
    if what.Some? && what.value !in t.columns then Some(InvalidColumn(what.value))
    else if times.None? then None
    else if times.value == [] then Some(NoTimes)
    else if Min(times.value) < tmin || Min(times.value) > tmax then Some(OutsideNight(Min(times.value)))
    else if Max(times.value) < tmin || Max(times.value) > tmax then Some(OutsideNight(Max(times.value)))
    else None
  }

  /** The cache after the lookup of `night` has passed validation. */
  function Remember(t: Telemetry, table: seq<Record>, dayStart: int -> int, night: int): (t': Telemetry)
    ensures t'.columns == t.columns && t'.what == t.what && t'.timestamp == t.timestamp
    ensures t'.cachesize == t.cachesize && t'.tablename == t.tablename
  {
    if night in Nights(t.cache) then t
    else t.(cache := Evict(t.cache + [Entry(night, Fetch(table, dayStart(night), WindowEnd(dayStart, night)))], t.cachesize))
  }

  /** The answer made of a night's records. */
  function Shape(records: seq<Record>, timestamp: string, what: Option<string>, times: Option<seq<int>>): Result<Answer, LookupError>
  {
    if what.None? then Success(Whole(records))
    else if times.None? then Success(Series(what.value, Points(records, what.value, timestamp)))
    else if !Numeric(records, what.value, timestamp) then Failure(NotNumeric(what.value))
    else Success(Interpolation(what.value, times.value, Points(records, what.value, timestamp)))
  }

  /**
   * `telemetry(night, what, MJD)`: the new state and the answer. Validation
   * comes first and leaves the state alone; a night already cached is used
   * as it is (not fetched, not moved); a new night is fetched, appended as
   * the newest entry, and the oldest entries are dropped down to the bound.
   */
  function Lookup(t: Telemetry, table: seq<Record>, dayStart: int -> int, night: int,
                  what: Option<string>, times: Option<seq<int>>): (r: (Telemetry, Result<Answer, LookupError>))
    ensures what.Some? && what.value !in t.columns ==> r == (t, Failure(InvalidColumn(what.value)))
    ensures r.1.Failure? && (r.1.error.InvalidColumn? || r.1.error.NoTimes? || r.1.error.OutsideNight?) ==> r.0 == t
    ensures (what.None? || what.value in t.columns) && times.Some? ==>
      (r.1 == Failure(NoTimes) <==> times.value == [])
    ensures (what.None? || what.value in t.columns) && times.Some? && times.value != [] ==>
      (r.1.Failure? && r.1.error.OutsideNight? <==> !AllInside(times.value, dayStart(night), WindowEnd(dayStart, night)))
    ensures night in Nights(t.cache) ==> r.0 == t
    ensures Validate(t, dayStart, night, what, times).None? && night !in Nights(t.cache) ==>
      r.0.cache == Evict(t.cache + [Entry(night, Fetch(table, dayStart(night), WindowEnd(dayStart, night)))], t.cachesize)
    ensures r.1 == Failure(Evicted) <==> Validate(t, dayStart, night, what, times).None? && night !in Nights(r.0.cache)
    ensures r.0.columns == t.columns && r.0.cachesize == t.cachesize && r.0.timestamp == t.timestamp
  {
    var e := Validate(t, dayStart, night, what, times);
    if e.Some? then (t, Failure(e.value))
    else
      var t' := Remember(t, table, dayStart, night);
      if night !in Nights(t'.cache) then (t', Failure(Evicted))
      else (t', Shape(Find(t'.cache, night), t.timestamp, what, times))
  }

  // ---------------------------------------------------------------- properties

  lemma DistinctAppend(cache: seq<Entry>, e: Entry)
    requires Distinct(Nights(cache)) && e.night !in Nights(cache)
    ensures Distinct(Nights(cache + [e]))
  {
    var ns := Nights(cache + [e]);
    forall i, j | 0 <= i < j < |ns|
      ensures ns[i] != ns[j]
    {
      if j == |cache| {
        assert ns[i] == Nights(cache)[i];
      } else {
        assert ns[i] == Nights(cache)[i] && ns[j] == Nights(cache)[j];
      }
    }
  }

  lemma DistinctSuffix(cache: seq<Entry>, k: nat)
    requires Distinct(Nights(cache)) && k <= |cache|
    ensures Distinct(Nights(cache[k..]))
  {
    var ns := Nights(cache[k..]);
    forall i, j | 0 <= i < j < |ns|
      ensures ns[i] != ns[j]
    {
      assert cache[k..][i] == cache[k + i] && cache[k..][j] == cache[k + j];
      assert ns[i] == Nights(cache)[k + i] && ns[j] == Nights(cache)[k + j];
    }
  }

  /** Eviction keeps the newest entry as long as the bound is at least one. */
  lemma NewestSurvives(cache: seq<Entry>, e: Entry, size: int)
    ensures e.night in Nights(Evict(cache + [e], size)) <==> size >= 1
  {
    var r := Evict(cache + [e], size);
    if size >= 1 {
      assert r[|r| - 1] == e;
      assert Nights(r)[|r| - 1] == e.night;
    } else {
      assert r == [];
    }
  }

  /** Every lookup keeps the cache invariant. */
  lemma LookupKeepsInv(t: Telemetry, table: seq<Record>, dayStart: int -> int, night: int,
                       what: Option<string>, times: Option<seq<int>>)
    requires Inv(t, table, dayStart)
    ensures Inv(Lookup(t, table, dayStart, night, what, times).0, table, dayStart)
  {
    var r := Lookup(t, table, dayStart, night, what, times);
    if Validate(t, dayStart, night, what, times).None? && night !in Nights(t.cache) {
      var e := Entry(night, Fetch(table, dayStart(night), WindowEnd(dayStart, night)));
      assert Fresh(e, table, dayStart);
      MissKeepsInv(t, table, dayStart, e);
      assert r.0 == t.(cache := Evict(t.cache + [e], t.cachesize));
    }
  }

  /** Appending a freshly fetched night and evicting keeps the cache invariant. */
  lemma MissKeepsInv(t: Telemetry, table: seq<Record>, dayStart: int -> int, e: Entry)
    requires Inv(t, table, dayStart)
    requires e.night !in Nights(t.cache)
    requires Fresh(e, table, dayStart)
    ensures Inv(t.(cache := Evict(t.cache + [e], t.cachesize)), table, dayStart)
  {
    MissDistinct(t.cache, e, t.cachesize);
    MissFresh(t.cache, e, t.cachesize, table, dayStart);
  }

  lemma MissDistinct(cache: seq<Entry>, e: Entry, size: int)
    requires Distinct(Nights(cache)) && e.night !in Nights(cache)
    ensures Distinct(Nights(Evict(cache + [e], size)))
  {
    var grown := cache + [e];
    DistinctAppend(cache, e);
    DistinctSuffix(grown, |grown| - |Evict(grown, size)|);
  }

  lemma MissFresh(cache: seq<Entry>, e: Entry, size: int, table: seq<Record>, dayStart: int -> int)
    requires forall i :: 0 <= i < |cache| ==> Fresh(cache[i], table, dayStart)
    requires Fresh(e, table, dayStart)
    ensures forall i :: 0 <= i < |Evict(cache + [e], size)| ==> Fresh(Evict(cache + [e], size)[i], table, dayStart)
  {
    var grown := cache + [e];
    var kept := Evict(grown, size);
    forall i | 0 <= i < |kept|
      ensures Fresh(kept[i], table, dayStart)
    {
      var k := |grown| - |kept| + i;
      SuffixAt(grown, kept, i);
      if k < |cache| {
        assert grown[k] == cache[k];
      }
    }
  }

  lemma SuffixAt<T>(s: seq<T>, suffix: seq<T>, i: int)
    requires |suffix| <= |s| && suffix == s[|s| - |suffix|..]
    requires 0 <= i < |suffix|
    ensures suffix[i] == s[|s| - |suffix| + i]
  {
  }

  /**
   * The uncached reference: validate, then fetch the night's window afresh
   * and shape the answer; a bound below one leaves no room for the night.
   */
  function Direct(t: Telemetry, table: seq<Record>, dayStart: int -> int, night: int,
                  what: Option<string>, times: Option<seq<int>>): Result<Answer, LookupError>
  {
    var e := Validate(t, dayStart, night, what, times);
    if e.Some? then Failure(e.value)
    else if t.cachesize < 1 then Failure(Evicted)
    else Shape(Fetch(table, dayStart(night), WindowEnd(dayStart, night)), t.timestamp, what, times)
  }

  /**
   * The cache is invisible to the caller: while the invariant holds, every
   * lookup answers exactly what the uncached reference answers.
   */
  lemma LookupMatchesDirect(t: Telemetry, table: seq<Record>, dayStart: int -> int, night: int,
                            what: Option<string>, times: Option<seq<int>>)
    requires Inv(t, table, dayStart)
    ensures Lookup(t, table, dayStart, night, what, times).1 == Direct(t, table, dayStart, night, what, times)
  {
    var r := Lookup(t, table, dayStart, night, what, times);
    if Validate(t, dayStart, night, what, times).None? {
      LookupKeepsInv(t, table, dayStart, night, what, times);
      var t' := r.0;
      if night !in Nights(t.cache) {
        NewestSurvives(t.cache, Entry(night, Fetch(table, dayStart(night), WindowEnd(dayStart, night))), t.cachesize);
      } else {
        assert |t.cache| >= 1;
      }
      if night in Nights(t'.cache) {
        var found := Find(t'.cache, night);
        var i :| 0 <= i < |t'.cache| && t'.cache[i].night == night && t'.cache[i].records == found;
      }
    }
  }

  /** The state after looking up each of `nights` in turn for every column. */
  function Replay(t: Telemetry, table: seq<Record>, dayStart: int -> int, nights: seq<int>): Telemetry
    decreases |nights|
  {
    if nights == [] then t else Replay(Lookup(t, table, dayStart, nights[0], None, None).0, table, dayStart, nights[1..])
  }

  /** A whole-night lookup of a night not cached appends it and evicts down to the bound. */
  lemma Miss(t: Telemetry, table: seq<Record>, dayStart: int -> int, night: int)
    requires night !in Nights(t.cache)
    ensures Lookup(t, table, dayStart, night, None, None).0
         == t.(cache := Evict(t.cache + [Entry(night, Fetch(table, dayStart(night), WindowEnd(dayStart, night)))], t.cachesize))
  {
  }

  /**
   * Eviction follows insertion, not use: with room for two nights, looking up
   * A, B, A again and then C leaves B and C cached; the hit on A did not
   * protect it.
   */
  lemma EvictionIgnoresHits(table: seq<Record>, dayStart: int -> int, found: seq<string>)
    ensures Nights(Replay(Init("ci", found, 2, "time_recorded"), table, dayStart, [20190401, 20190402, 20190401, 20190403]).cache)
         == [20190402, 20190403]
  {
    var A, B, C := NightEntry(table, dayStart, 20190401), NightEntry(table, dayStart, 20190402), NightEntry(table, dayStart, 20190403);
    var t0 := Init("ci", found, 2, "time_recorded");
    var t1 := t0.(cache := [A]);
    var t2 := t0.(cache := [A, B]);
    var t4 := t0.(cache := [B, C]);
    MissInto(t0, table, dayStart, 20190401, []);
    MissInto(t1, table, dayStart, 20190402, [A]);
    HitOnFirst(t2, table, dayStart, A, B);
    MissEvicts(t2, table, dayStart, 20190403, A, B);
    ReplayStep(t0, t1, table, dayStart, [20190401, 20190402, 20190401, 20190403]);
    ReplayStep(t1, t2, table, dayStart, [20190402, 20190401, 20190403]);
    ReplayStep(t2, t2, table, dayStart, [20190401, 20190403]);
    ReplayStep(t2, t4, table, dayStart, [20190403]);
    assert Nights(t4.cache) == [20190402, 20190403];
  }

  /** Replaying starts with the first lookup. */
  lemma ReplayStep(t: Telemetry, t': Telemetry, table: seq<Record>, dayStart: int -> int, nights: seq<int>)
    requires nights != [] && Lookup(t, table, dayStart, nights[0], None, None).0 == t'
    ensures Replay(t, table, dayStart, nights) == Replay(t', table, dayStart, nights[1..])
  {
  }

  /** What a miss on `night` fetches and caches. */
  function NightEntry(table: seq<Record>, dayStart: int -> int, night: int): Entry
  {
    Entry(night, Fetch(table, dayStart(night), WindowEnd(dayStart, night)))
  }

  /** A miss while there is room appends the night's entry. */
  lemma MissInto(t: Telemetry, table: seq<Record>, dayStart: int -> int, night: int, cached: seq<Entry>)
    requires t.cache == cached && |cached| < t.cachesize
    requires forall i :: 0 <= i < |cached| ==> cached[i].night != night
    ensures Lookup(t, table, dayStart, night, None, None).0 == t.(cache := cached + [NightEntry(table, dayStart, night)])
  {
    assert night !in Nights(t.cache);
    Miss(t, table, dayStart, night);
  }

  /** A hit on the oldest of two cached nights leaves the state as it was. */
  lemma HitOnFirst(t: Telemetry, table: seq<Record>, dayStart: int -> int, a: Entry, b: Entry)
    requires t.cache == [a, b]
    ensures Lookup(t, table, dayStart, a.night, None, None).0 == t
  {
    assert Nights(t.cache)[0] == a.night;
  }

  /** A miss when two nights fill a bound of two drops the oldest. */
  lemma MissEvicts(t: Telemetry, table: seq<Record>, dayStart: int -> int, night: int, a: Entry, b: Entry)
    requires t.cache == [a, b] && t.cachesize == 2 && a.night != night && b.night != night
    ensures Lookup(t, table, dayStart, night, None, None).0 == t.(cache := [b, NightEntry(table, dayStart, night)])
  {
    assert night !in Nights(t.cache);
    Miss(t, table, dayStart, night);
    var grown := [a, b, NightEntry(table, dayStart, night)];
    assert t.cache + [NightEntry(table, dayStart, night)] == grown;
    assert Evict(grown, 2) == grown[1..];
  }

  // ---------------------------------------------------------------- as written

  /**
   * `__call__` exactly as written: the window is computed with
   * `datetime.datetime.strptime`, but `datetime` is never imported, so every
   * call that needs the window (a night not cached, or requested times)
   * raises NameError once the column check has passed.
   */
  function LookupAsWritten(t: Telemetry, table: seq<Record>, dayStart: int -> int, night: int,
                           what: Option<string>, times: Option<seq<int>>): (r: (Telemetry, Result<Answer, LookupError>))
    ensures r.0 == t
    ensures (what.None? || what.value in t.columns) && (night !in Nights(t.cache) || times.Some?) ==>
      r.1 == Failure(UndefinedName("datetime"))
  {
    if what.Some? && what.value !in t.columns then (t, Failure(InvalidColumn(what.value)))
    else if night !in Nights(t.cache) || times.Some? then (t, Failure(UndefinedName("datetime")))
    else (t, Shape(Find(t.cache, night), t.timestamp, what, times))
  }

  /** One request: the night, the column and the requested times. */
  datatype Request = Request(night: int, what: Option<string>, times: Option<seq<int>>)

  /** A run of requests against one object, as written: the answers in order. */
  function RunAsWritten(t: Telemetry, table: seq<Record>, dayStart: int -> int, reqs: seq<Request>): seq<Result<Answer, LookupError>>
    decreases |reqs|
  {
    if reqs == [] then []
    else
      var r := LookupAsWritten(t, table, dayStart, reqs[0].night, reqs[0].what, reqs[0].times);
      [r.1] + RunAsWritten(r.0, table, dayStart, reqs[1..])
  }

  /**
   * As written, a freshly constructed object never answers: its cache starts
   * empty and nothing is ever added to it, so every request fails.
   */
  lemma {:induction false} NeverAnswersAsWritten(t: Telemetry, table: seq<Record>, dayStart: int -> int, reqs: seq<Request>)
    requires t.cache == []
    ensures |RunAsWritten(t, table, dayStart, reqs)| == |reqs|
    ensures forall i :: 0 <= i < |reqs| ==> RunAsWritten(t, table, dayStart, reqs)[i].Failure?
    decreases |reqs|
  {
    if reqs != [] {
      var r := LookupAsWritten(t, table, dayStart, reqs[0].night, reqs[0].what, reqs[0].times);
      NeverAnswersAsWritten(r.0, table, dayStart, reqs[1..]);
    }
  }
}
