/**
 * `CIfiles` from `CI/data.py`: a generator over a table of candidate
 * exposures that yields the ones that open, validate and carry matching
 * `NIGHT`/`EXPID` header values, and skips (with a log line) every other.
 *
 * The generator is modelled by the trace of what it does when the consumer
 * runs it to the end: containers opened and closed, rows skipped, records
 * yielded. A yielded container is closed by the `finally` block as soon as
 * the generator resumes or is closed, so in the trace its `Close` comes right
 * after its `Yield`; a consumer that stops early sees a prefix of the trace
 * ending with that `Close`. A header without `NIGHT` or `EXPID` raises a
 * KeyError that is not caught and ends the stream.
 */
module Stream {
  import opened Wrappers
  import opened Exposure

  /** A candidate row: `night` may be missing (None/NaN), `id` is the exposure id. */
  datatype Row = Row(night: Option<int>, id: int)

  /** The candidate table: its column names and its rows. */
  datatype Table = Table(columns: seq<string>, rows: seq<Row>)

  /** The inclusive range of nights the stream accepts. */
  const FirstNight: int := 20190317
  const LastNight: int := 20190701

  /** Why a row was skipped (each one is a log line in the source). */
  datatype SkipReason =
    | InvalidNight
    | OpenFailed(error: OpenError)
    | NightMismatch(header: int)
    | ExpidMismatch(header: int)

  /** One step of the generator, tagged with the index of the row it concerns. */
  datatype Event =
    | Open(row: nat)
    | Close(row: nat)
    | Skip(row: nat, why: SkipReason)
    | Yield(row: nat, hdus: Container, hdr: Header)

  /** Errors that escape the generator. */
  datatype StreamError = MissingColumn(name: string) | MissingHeaderKey(key: string, row: nat)

  /** The full trace and the error, if any, that ended it. */
  datatype StreamRun = StreamRun(events: seq<Event>, failure: Option<StreamError>)

  predicate ValidNight(night: Option<int>)
  {
    night.Some? && FirstNight <= night.value <= LastNight
  }

  /**
   * How the stream opens a row: `openCI` on the row's night and id. The loop
   * below is written over any opener that keeps the promise `Consistent`, and
   * `CIFiles` passes this one.
   */
  function Opener(fs: map<string, Container>): Row -> OpenOutcome
  {
    (row: Row) => if row.night.Some? then OpenCI(fs, row.night.value, row.id)
                  else OpenOutcome(Failure(NotFound(Root)), NeverOpened)
  }

  /** The opener of `CIFiles` keeps the promise the loop relies on. */
  lemma OpenerConsistent(fs: map<string, Container>)
    ensures forall row :: Consistent(Opener(fs)(row))
  {
  }

  /** The handle is open exactly when `openCI` succeeded (one of the promises of `OpenCI`). */
  predicate Consistent(o: OpenOutcome)
  {
    o.result.Success? <==> o.handle == LeftOpen
  }

  /** The header agrees with the row on night and exposure id. */
  predicate Agrees(row: Row, hdr: Header)
    requires row.night.Some?
  {
    hdr.night == Some(row.night.value) && hdr.expid == Some(row.id)
  }

  /** The header disagrees with the row on night, or on exposure id once the nights agree. */
  predicate Disagrees(row: Row, hdr: Header)
    requires row.night.Some?
  {
    hdr.night.Some? && (hdr.night.value != row.night.value || (hdr.expid.Some? && hdr.expid.value != row.id))
  }

  /** The comparison needs a header keyword that is missing: `hdr[...]` raises KeyError. */
  predicate Lacks(row: Row, hdr: Header)
    requires row.night.Some?
  {
    hdr.night.None? || (hdr.night == Some(row.night.value) && hdr.expid.None?)
  }

  /** The row is yielded: it opens and its header agrees with it. */
  predicate Accepted(open: Row -> OpenOutcome, row: Row)
  {
    ValidNight(row.night) && open(row).result.Success? && Agrees(row, open(row).result.value.hdr)
  }

  /** The row opens but is skipped because its header disagrees with it. */
  predicate Mismatched(open: Row -> OpenOutcome, row: Row)
  {
    ValidNight(row.night) && open(row).result.Success? && Disagrees(row, open(row).result.value.hdr)
  }

  /** The row opens but its header lacks a keyword, which ends the stream. */
  predicate Aborts(open: Row -> OpenOutcome, row: Row)
  {
    ValidNight(row.night) && open(row).result.Success? && Lacks(row, open(row).result.value.hdr)
  }

  /** What the generator does with row number `k` once `openCI` has answered `o`. */
  function AfterOpen(k: nat, row: Row, o: OpenOutcome): (r: (seq<Event>, Option<StreamError>))
    requires row.night.Some?
    ensures forall i :: 0 <= i < |r.0| ==> r.0[i].row == k
  {
    var night := row.night.value;
    var openEvents := if o.handle == NeverOpened then [] else [Open(k)];
    match o.result
    case Failure(e) =>
      (openEvents + (if o.handle == ClosedBeforeRaise then [Close(k)] else []) + [Skip(k, OpenFailed(e))], None)
    case Success(Opened(hdus, hdr)) =>
      if hdr.night.None? then (openEvents, Some(MissingHeaderKey("NIGHT", k)))
      else if hdr.night.value != night then (openEvents + [Skip(k, NightMismatch(hdr.night.value))], None)
      else if hdr.expid.None? then (openEvents, Some(MissingHeaderKey("EXPID", k)))
      else if hdr.expid.value != row.id then (openEvents + [Skip(k, ExpidMismatch(hdr.expid.value))], None)
      else (openEvents + [Yield(k, hdus, hdr), Close(k)], None)
  }

  /** What the generator does with row number `k`. */
  function RowEvents(open: Row -> OpenOutcome, k: nat, row: Row): (r: (seq<Event>, Option<StreamError>))
    ensures forall i :: 0 <= i < |r.0| ==> r.0[i].row == k
  {
    if !ValidNight(row.night) then ([Skip(k, InvalidNight)], None)
    else AfterOpen(k, row, open(row))
  }

  /** The generator's loop over `rows`, the first of which is row number `k`. */
  function Run(open: Row -> OpenOutcome, rows: seq<Row>, k: nat): (r: StreamRun)
    ensures forall i :: 0 <= i < |r.events| ==> k <= r.events[i].row < k + |rows|
    ensures r.failure.Some? ==> r.failure.value.MissingHeaderKey? && k <= r.failure.value.row < k + |rows|
    decreases |rows|
  {
    if rows == [] then StreamRun([], None)
    else
      var step := RowEvents(open, k, rows[0]);
      if step.1.Some? then StreamRun(step.0, step.1)
      else
        var rest := Run(open, rows[1..], k + 1);
        StreamRun(step.0 + rest.events, rest.failure)
  }

  /** `CIfiles(exposure_table)`: the column checks, then the loop. */
  function CIFiles(fs: map<string, Container>, table: Table): (r: StreamRun)
    ensures "id" !in table.columns ==> r == StreamRun([], Some(MissingColumn("id")))
    ensures "id" in table.columns && "night" !in table.columns ==> r == StreamRun([], Some(MissingColumn("night")))
    ensures "id" in table.columns && "night" in table.columns ==>
      r.failure.Some? ==> r.failure.value.MissingHeaderKey? && r.failure.value.row < |table.rows|
  {
    if "id" !in table.columns then StreamRun([], Some(MissingColumn("id")))
    else if "night" !in table.columns then StreamRun([], Some(MissingColumn("night")))
    else Run(Opener(fs), table.rows, 0)
  }

  /** The row numbers of the yielded records, in the order they are yielded. */
  function Yields(events: seq<Event>): seq<nat>
  {
    if events == [] then []
    else (if events[0].Yield? then [events[0].row] else []) + Yields(events[1..])
  }

  lemma {:induction false} YieldsConcat(a: seq<Event>, b: seq<Event>)
    ensures Yields(a + b) == Yields(a) + Yields(b)
    decreases |a|
  {
    if a == [] {
      assert a + b == b;
    } else {
      assert (a + b)[0] == a[0];
      assert (a + b)[1..] == a[1..] + b;
      YieldsConcat(a[1..], b);
    }
  }

  lemma {:induction false} YieldsBounded(events: seq<Event>, lo: int, hi: int)
    requires forall i :: 0 <= i < |events| ==> lo <= events[i].row < hi
    ensures forall i :: 0 <= i < |Yields(events)| ==> lo <= Yields(events)[i] < hi
    decreases |events|
  {
    if events != [] {
      YieldsBounded(events[1..], lo, hi);
    }
  }

  lemma YieldsNone(events: seq<Event>)
    requires forall i :: 0 <= i < |events| ==> !events[i].Yield?
    ensures Yields(events) == []
  {
    if events != [] {
      YieldsNone(events[1..]);
    }
  }

  /** Strictly increasing: in order, and no row twice. */
  predicate Increasing(ys: seq<nat>)
  {
    forall a, b :: 0 <= a < b < |ys| ==> ys[a] < ys[b]
  }

  /** Every `Yield` is immediately followed by the `Close` of the same row. */
  predicate ClosesAfterYield(events: seq<Event>)
  {
    forall i :: 0 <= i < |events| && events[i].Yield? ==> i + 1 < |events| && events[i + 1] == Close(events[i].row)
  }

  /** Every yielded row is closed exactly once. */
  predicate ClosedOnce(events: seq<Event>)
  {
    forall y :: y in Yields(events) ==> multiset(events)[Close(y)] == 1
  }

  /** The run went as far as the first row whose header lacks a keyword, and no further. */
  predicate StopsAtFirstAbort(open: Row -> OpenOutcome, rows: seq<Row>, k: nat, r: StreamRun)
  {
    && 0 <= Reached(r, rows, k) <= |rows|
    && (forall j :: 0 <= j < Reached(r, rows, k) ==> !Aborts(open, rows[j]))
    && (Reached(r, rows, k) < |rows| ==> Aborts(open, rows[Reached(r, rows, k)]))
  }

  /** The rows yielded are exactly the accepted rows among those reached. */
  predicate YieldsAccepted(open: Row -> OpenOutcome, rows: seq<Row>, k: nat, r: StreamRun)
  {
    && (forall j :: 0 <= j < |rows| ==>
          (k + j in Yields(r.events) <==> j < Reached(r, rows, k) && Accepted(open, rows[j])))
    && (forall y :: y in Yields(r.events) ==> k <= y < k + |rows|)
  }

  /** Every record yielded carries the container and header that `openCI` returned for its row. */
  predicate YieldsOpened(open: Row -> OpenOutcome, rows: seq<Row>, k: nat, events: seq<Event>)
  {
    forall i :: 0 <= i < |events| && events[i].Yield? ==>
      && k <= events[i].row < k + |rows|
      && open(rows[events[i].row - k]).result == Success(Opened(events[i].hdus, events[i].hdr))
  }

  /** A container opened for a row whose header disagrees or lacks a keyword is never closed. */
  predicate LeaksRejected(open: Row -> OpenOutcome, rows: seq<Row>, k: nat, r: StreamRun)
  {
    forall j :: 0 <= j < |rows| && j <= Reached(r, rows, k) && (Mismatched(open, rows[j]) || Aborts(open, rows[j])) ==>
      Open(k + j) in r.events && Close(k + j) !in r.events
  }

  /** One row stops the stream exactly when its header lacks a keyword. */
  lemma AfterOpenFailure(k: nat, row: Row, o: OpenOutcome)
    requires row.night.Some? && Consistent(o)
    ensures AfterOpen(k, row, o).1.Some? <==> o.result.Success? && Lacks(row, o.result.value.hdr)
    ensures AfterOpen(k, row, o).1.Some? ==>
      AfterOpen(k, row, o).1.value.MissingHeaderKey? && AfterOpen(k, row, o).1.value.row == k
  {
  }

  /** One row yields its own record exactly when its header agrees with it. */
  lemma AfterOpenYields(k: nat, row: Row, o: OpenOutcome)
    requires row.night.Some? && Consistent(o)
    ensures Yields(AfterOpen(k, row, o).0) == if o.result.Success? && Agrees(row, o.result.value.hdr) then [k] else []
    ensures o.result.Success? && Agrees(row, o.result.value.hdr) ==>
      Yield(k, o.result.value.hdus, o.result.value.hdr) in AfterOpen(k, row, o).0
    ensures forall i :: 0 <= i < |AfterOpen(k, row, o).0| && AfterOpen(k, row, o).0[i].Yield? ==>
      o.result == Success(Opened(AfterOpen(k, row, o).0[i].hdus, AfterOpen(k, row, o).0[i].hdr))
  {
    var r := AfterOpen(k, row, o).0;
    if o.result.Success? && Agrees(row, o.result.value.hdr) {
      var tail := [Yield(k, o.result.value.hdus, o.result.value.hdr), Close(k)];
      assert r == [Open(k)] + tail;
      YieldsConcat([Open(k)], tail);
      assert Yields(tail) == [k] + Yields([Close(k)]);
    } else {
      YieldsNone(r);
    }
  }

  /** One row's yield is followed by its close; an accepted row closes once; a rejected header leaks. */
  lemma AfterOpenCloses(k: nat, row: Row, o: OpenOutcome)
    requires row.night.Some? && Consistent(o)
    ensures ClosesAfterYield(AfterOpen(k, row, o).0)
    ensures o.result.Success? && Agrees(row, o.result.value.hdr) ==> multiset(AfterOpen(k, row, o).0)[Close(k)] == 1
    ensures o.result.Success? && (Disagrees(row, o.result.value.hdr) || Lacks(row, o.result.value.hdr)) ==>
      Open(k) in AfterOpen(k, row, o).0 && Close(k) !in AfterOpen(k, row, o).0
    ensures o.result.Failure? && o.handle != NeverOpened ==>
      Open(k) in AfterOpen(k, row, o).0 && Close(k) in AfterOpen(k, row, o).0
  {
    var r := AfterOpen(k, row, o).0;
    if o.result.Success? && Agrees(row, o.result.value.hdr) {
      assert r == [Open(k), Yield(k, o.result.value.hdus, o.result.value.hdr), Close(k)];
      assert multiset(r) == multiset{Open(k), Yield(k, o.result.value.hdus, o.result.value.hdr), Close(k)};
    }
  }

  /** How far the stream gets: the row whose header raised, or the end of the table. */
  function Reached(r: StreamRun, rows: seq<Row>, k: nat): int
  {
    if r.failure.Some? && r.failure.value.MissingHeaderKey? then r.failure.value.row - k else |rows|
  }

  /** One row stops the stream exactly when its header lacks a keyword. */
  lemma RowEventsStop(open: Row -> OpenOutcome, k: nat, row: Row)
    requires Consistent(open(row))
    ensures RowEvents(open, k, row).1.Some? <==> Aborts(open, row)
    ensures RowEvents(open, k, row).1.Some? ==>
      RowEvents(open, k, row).1.value.MissingHeaderKey? && RowEvents(open, k, row).1.value.row == k
  {
    if ValidNight(row.night) {
      AfterOpenFailure(k, row, open(row));
    }
  }

  /** One row yields its own record exactly when it is accepted. */
  lemma RowEventsYields(open: Row -> OpenOutcome, k: nat, row: Row)
    requires Consistent(open(row))
    ensures Yields(RowEvents(open, k, row).0) == if Accepted(open, row) then [k] else []
  {
    if ValidNight(row.night) {
      AfterOpenYields(k, row, open(row));
    } else {
      assert Yields([Skip(k, InvalidNight)]) == [];
    }
  }

  /** One row's yield is followed by its close; an accepted row closes once; a rejected header leaks. */
  lemma RowEventsCloses(open: Row -> OpenOutcome, k: nat, row: Row)
    requires Consistent(open(row))
    ensures ClosesAfterYield(RowEvents(open, k, row).0)
    ensures Accepted(open, row) ==> multiset(RowEvents(open, k, row).0)[Close(k)] == 1
    ensures Mismatched(open, row) || Aborts(open, row) ==>
      Open(k) in RowEvents(open, k, row).0 && Close(k) !in RowEvents(open, k, row).0
  {
    if ValidNight(row.night) {
      AfterOpenCloses(k, row, open(row));
    }
  }

  /** The stream runs until the first row whose header lacks a keyword, or to the end. */
  lemma {:induction false} RunReach(open: Row -> OpenOutcome, rows: seq<Row>, k: nat)
    requires forall row :: Consistent(open(row))
    ensures StopsAtFirstAbort(open, rows, k, Run(open, rows, k))
    decreases |rows|
  {
    if rows != [] {
      var step := RowEvents(open, k, rows[0]);
      RowEventsStop(open, k, rows[0]);
      if step.1.None? {
        var r := Run(open, rows, k);
        var rest := Run(open, rows[1..], k + 1);
        RunReach(open, rows[1..], k + 1);
        assert Reached(r, rows, k) == Reached(rest, rows[1..], k + 1) + 1;
        forall j | 0 < j < |rows|
          ensures rows[j] == rows[1..][j - 1]
        {
        }
      }
    }
  }

  /**
   * The stream yields exactly the accepted rows before the one (if any) whose
   * header raised; rows after that are never looked at.
   */
  lemma {:induction false} RunYields(open: Row -> OpenOutcome, rows: seq<Row>, k: nat)
    requires forall row :: Consistent(open(row))
    ensures YieldsAccepted(open, rows, k, Run(open, rows, k))
    decreases |rows|
  {
    var r := Run(open, rows, k);
    YieldsBounded(r.events, k, k + |rows|);
    if rows != [] {
      var step := RowEvents(open, k, rows[0]);
      RowEventsStop(open, k, rows[0]);
      RowEventsYields(open, k, rows[0]);
      if step.1.None? {
        var rest := Run(open, rows[1..], k + 1);
        RunYields(open, rows[1..], k + 1);
        YieldsConcat(step.0, rest.events);
        assert Reached(r, rows, k) == Reached(rest, rows[1..], k + 1) + 1;
        var ys, ts := Yields(r.events), Yields(rest.events);
        assert ys == Yields(step.0) + ts;
        forall j | 0 <= j < |rows|
          ensures k + j in ys <==> j < Reached(r, rows, k) && Accepted(open, rows[j])
        {
          if j > 0 {
            assert rows[j] == rows[1..][j - 1];
            assert k + j !in Yields(step.0);
            assert k + j in ys <==> k + 1 + (j - 1) in ts;
          } else {
            assert k !in ts;
          }
        }
      } else {
        assert r.events == step.0;
      }
    }
  }

  /** One row's record, if yielded, is what the opener returned for that row. */
  lemma RowEventsOpened(open: Row -> OpenOutcome, k: nat, row: Row)
    requires Consistent(open(row))
    ensures YieldsOpened(open, [row], k, RowEvents(open, k, row).0)
  {
    if ValidNight(row.night) {
      AfterOpenYields(k, row, open(row));
    }
  }

  /** The stream yields each record with the container and header its row opened to. */
  lemma {:induction false} RunYieldsOpened(open: Row -> OpenOutcome, rows: seq<Row>, k: nat)
    requires forall row :: Consistent(open(row))
    ensures YieldsOpened(open, rows, k, Run(open, rows, k).events)
    decreases |rows|
  {
    if rows != [] {
      var step := RowEvents(open, k, rows[0]);
      RowEventsOpened(open, k, rows[0]);
      if step.1.None? {
        var rest := Run(open, rows[1..], k + 1);
        RunYieldsOpened(open, rows[1..], k + 1);
        OpenedConcat(open, rows, k, step.0, rest.events);
      } else {
        OpenedConcat(open, rows, k, step.0, []);
      }
    }
  }

  /** The records of the first row followed by those of the rest of the table. */
  lemma OpenedConcat(open: Row -> OpenOutcome, rows: seq<Row>, k: nat, a: seq<Event>, b: seq<Event>)
    requires rows != []
    requires YieldsOpened(open, [rows[0]], k, a)
    requires YieldsOpened(open, rows[1..], k + 1, b)
    ensures YieldsOpened(open, rows, k, a + b)
  {
    forall i | 0 <= i < |a + b| && (a + b)[i].Yield?
      ensures k <= (a + b)[i].row < k + |rows|
      ensures open(rows[(a + b)[i].row - k]).result == Success(Opened((a + b)[i].hdus, (a + b)[i].hdr))
    {
      if i < |a| {
        assert (a + b)[i] == a[i];
      } else {
        var e := b[i - |a|];
        assert (a + b)[i] == e;
        assert rows[e.row - k] == rows[1..][e.row - (k + 1)];
      }
    }
  }

  /** The records come out in table order, each row at most once. */
  lemma {:induction false} RunYieldsOrdered(open: Row -> OpenOutcome, rows: seq<Row>, k: nat)
    requires forall row :: Consistent(open(row))
    ensures Increasing(Yields(Run(open, rows, k).events))
    decreases |rows|
  {
    var r := Run(open, rows, k);
    if rows != [] {
      var step := RowEvents(open, k, rows[0]);
      RowEventsStop(open, k, rows[0]);
      RowEventsYields(open, k, rows[0]);
      if step.1.None? {
        var rest := Run(open, rows[1..], k + 1);
        RunYieldsOrdered(open, rows[1..], k + 1);
        YieldsConcat(step.0, rest.events);
        YieldsBounded(rest.events, k + 1, k + |rows|);
        assert Yields(r.events) == Yields(step.0) + Yields(rest.events);
        PrependIncreasing(Yields(step.0), Yields(rest.events));
      } else {
        assert r.events == step.0;
      }
    }
  }

  /** An increasing sequence stays increasing behind at most one smaller element. */
  lemma PrependIncreasing(head: seq<nat>, ts: seq<nat>)
    requires Increasing(ts)
    requires |head| <= 1
    requires forall a, i :: 0 <= a < |head| && 0 <= i < |ts| ==> head[a] < ts[i]
    ensures Increasing(head + ts)
  {
    var ys := head + ts;
    forall a, b | 0 <= a < b < |ys|
      ensures ys[a] < ys[b]
    {
      assert ys[b] == ts[b - |head|];
      if a >= |head| {
        assert ys[a] == ts[a - |head|];
      }
    }
  }

  /** Consequence of the bounds on rows: a tail of the trace never mentions an earlier row. */
  lemma NotInLater(events: seq<Event>, lo: int, e: Event)
    requires forall i :: 0 <= i < |events| ==> lo <= events[i].row
    requires e.row < lo
    ensures e !in events
    ensures e !in multiset(events)
  {
  }

  /** Every yielded container is closed right after its record is yielded. */
  lemma {:induction false} RunClosesAfterYield(open: Row -> OpenOutcome, rows: seq<Row>, k: nat)
    requires forall row :: Consistent(open(row))
    ensures ClosesAfterYield(Run(open, rows, k).events)
    decreases |rows|
  {
    var r := Run(open, rows, k);
    if rows != [] {
      var step := RowEvents(open, k, rows[0]);
      RowEventsCloses(open, k, rows[0]);
      if step.1.None? {
        var rest := Run(open, rows[1..], k + 1);
        RunClosesAfterYield(open, rows[1..], k + 1);
        assert r.events == step.0 + rest.events;
        forall i | 0 <= i < |r.events| && r.events[i].Yield?
          ensures i + 1 < |r.events| && r.events[i + 1] == Close(r.events[i].row)
        {
          if i >= |step.0| {
            assert r.events[i] == rest.events[i - |step.0|];
            assert r.events[i + 1] == rest.events[i + 1 - |step.0|];
          } else if i + 1 < |step.0| {
            assert r.events[i + 1] == step.0[i + 1];
          }
        }
      } else {
        assert r.events == step.0;
      }
    }
  }

  /** Every yielded container is closed exactly once. */
  lemma {:induction false} RunClosedOnce(open: Row -> OpenOutcome, rows: seq<Row>, k: nat)
    requires forall row :: Consistent(open(row))
    ensures ClosedOnce(Run(open, rows, k).events)
    decreases |rows|
  {
    var r := Run(open, rows, k);
    if rows != [] {
      var step := RowEvents(open, k, rows[0]);
      RowEventsYields(open, k, rows[0]);
      RowEventsCloses(open, k, rows[0]);
      if step.1.None? {
        var rest := Run(open, rows[1..], k + 1);
        RunClosedOnce(open, rows[1..], k + 1);
        YieldsConcat(step.0, rest.events);
        YieldsBounded(rest.events, k + 1, k + |rows|);
        assert r.events == step.0 + rest.events;
        assert multiset(r.events) == multiset(step.0) + multiset(rest.events);
        NotInLater(rest.events, k + 1, Close(k));
        forall y | y in Yields(r.events)
          ensures multiset(r.events)[Close(y)] == 1
        {
          if y != k {
            assert y in Yields(rest.events);
            RowEventsOnlyOwnRow(open, k, rows[0], Close(y));
          }
        }
      } else {
        assert r.events == step.0;
      }
    }
  }

  /** One row's events mention only that row. */
  lemma RowEventsOnlyOwnRow(open: Row -> OpenOutcome, k: nat, row: Row, e: Event)
    requires e.row != k
    ensures e !in multiset(RowEvents(open, k, row).0)
  {
  }

  /** A container opened for a row rejected on its header, or whose header raised, is never closed. */
  lemma {:induction false} RunLeaks(open: Row -> OpenOutcome, rows: seq<Row>, k: nat)
    requires forall row :: Consistent(open(row))
    ensures LeaksRejected(open, rows, k, Run(open, rows, k))
    decreases |rows|
  {
    var r := Run(open, rows, k);
    if rows != [] {
      var step := RowEvents(open, k, rows[0]);
      RowEventsStop(open, k, rows[0]);
      RowEventsCloses(open, k, rows[0]);
      if step.1.None? {
        var rest := Run(open, rows[1..], k + 1);
        RunLeaks(open, rows[1..], k + 1);
        assert Reached(r, rows, k) == Reached(rest, rows[1..], k + 1) + 1;
        assert r.events == step.0 + rest.events;
        NotInLater(rest.events, k + 1, Close(k));
        forall j | 0 <= j < |rows| && j <= Reached(r, rows, k) && (Mismatched(open, rows[j]) || Aborts(open, rows[j]))
          ensures Open(k + j) in r.events && Close(k + j) !in r.events
        {
          if j > 0 {
            assert rows[j] == rows[1..][j - 1];
            RowEventsOnlyOwnRow(open, k, rows[0], Close(k + j));
            assert Close(k + j) !in step.0;
          }
        }
      } else {
        assert r.events == step.0;
      }
    }
  }

  /**
   * `CIfiles` over a table with both columns: it yields, in table order and
   * each at most once, exactly the accepted rows before the first row whose
   * header lacks a keyword; each yielded container is closed right after its
   * record and exactly once, and a container whose header disagreed is left open.
   * Every record carries the container and header `openCI` returned for its row.
   */
  lemma CIFilesYieldsAccepted(fs: map<string, Container>, table: Table)
    requires "id" in table.columns && "night" in table.columns
    ensures StopsAtFirstAbort(Opener(fs), table.rows, 0, CIFiles(fs, table))
    ensures YieldsAccepted(Opener(fs), table.rows, 0, CIFiles(fs, table))
    ensures Increasing(Yields(CIFiles(fs, table).events))
    ensures ClosesAfterYield(CIFiles(fs, table).events)
    ensures ClosedOnce(CIFiles(fs, table).events)
    ensures LeaksRejected(Opener(fs), table.rows, 0, CIFiles(fs, table))
    ensures YieldsOpened(Opener(fs), table.rows, 0, CIFiles(fs, table).events)
  {
    OpenerConsistent(fs);
    RunReach(Opener(fs), table.rows, 0);
    RunYields(Opener(fs), table.rows, 0);
    RunYieldsOrdered(Opener(fs), table.rows, 0);
    RunClosesAfterYield(Opener(fs), table.rows, 0);
    RunClosedOnce(Opener(fs), table.rows, 0);
    RunLeaks(Opener(fs), table.rows, 0);
    RunYieldsOpened(Opener(fs), table.rows, 0);
  }
}
