/** The queue between SQL Server's row events and the generator that yields row batches:
    a protocol of atomic steps, each run to completion by the event loop. */
module RowQueue {
  import opened JsText
  import opened Movement

  /** Where the generator is: about to look at the queue, suspended at a yield, waiting on
      `waitNext`, finished with or without an error, or closed early by its consumer. */
  datatype Consumer = Ready | AtYield | Blocked | Ended | Failed(message: string) | Closed

  datatype State = State(
    queue: seq<Batch>, waiter: bool, finished: bool, failure: Option<string>,
    consumer: Consumer, received: Batch, yielded: seq<Batch>)

  datatype Event = RowEvent(row: Row) | DoneEvent | ErrorEvent(message: string) | Resume | Close

  const START := State([], false, false, None, Ready, [], [])

  /** Resolve the waiter, if one is registered: the generator goes back to its loop. */
  function Wake(s: State): State
  {
    if s.waiter then s.(waiter := false, consumer := Ready) else s
  }

  function Push(queue: seq<Batch>, row: Row, batchSize: int): (r: seq<Batch>)
    ensures |r| >= 1
  {
    var q := if queue == [] then [[]] else queue;
    var last := q[|q| - 1] + [row];
    q[..|q| - 1] + [last] + (if |last| >= batchSize then [[]] else [])
  }

  /** One turn of the generator's loop. */
  function Turn(s: State): State
  {
    if s.queue != [] then s.(consumer := AtYield, queue := s.queue[1..], yielded := s.yielded + [s.queue[0]])
    else if s.finished then s.(consumer := if s.failure.Some? then Failed(s.failure.value) else Ended)
    else s.(consumer := Blocked, waiter := true)
  }

  function Step(s: State, e: Event, batchSize: int): State
  {
    match e
    case RowEvent(row) => Wake(s.(queue := Push(s.queue, row, batchSize), received := s.received + [row]))
    case DoneEvent => Wake(s.(finished := true))
    case ErrorEvent(message) => Wake(s.(finished := true, failure := Some(message)))
    case Resume => Turn(s)
    case Close => s.(consumer := Closed)
  }

  /** Events come at any time; the generator moves on only when it is asked to and can. */
  predicate Enabled(s: State, e: Event)
  {
    match e
    case Resume => s.consumer.Ready? || s.consumer.AtYield?
    case Close => s.consumer.AtYield?
    case _ => true
  }

  function Run(s: State, es: seq<Event>, batchSize: int): State
    decreases |es|
  {
    if es == [] then s else Run(Step(s, es[0], batchSize), es[1..], batchSize)
  }

  predicate Possible(s: State, es: seq<Event>, batchSize: int)
    decreases |es|
  {
    es == [] || (Enabled(s, es[0]) && Possible(Step(s, es[0], batchSize), es[1..], batchSize))
  }

  function FullSize(batchSize: int): nat
  {
    if batchSize < 1 then 1 else batchSize
  }

  /** Every queued batch but the last is full, and the last one is not. */
  ghost predicate Sizes(queue: seq<Batch>, batchSize: int)
  {
    && (forall i :: 0 <= i < |queue| - 1 ==> |queue[i]| == FullSize(batchSize))
    && (queue != [] ==> |queue[|queue| - 1]| < FullSize(batchSize))
  }

  ghost predicate Inv(s: State, batchSize: int)
  {
    // nothing is lost, repeated or reordered
    && Flatten(s.yielded) + Flatten(s.queue) == s.received
    && Sizes(s.queue, batchSize)
    && (forall batch :: batch in s.yielded ==> |batch| <= FullSize(batchSize))
    // a registered waiter has nothing to wake for
    && (s.waiter <==> s.consumer.Blocked?)
    && (s.waiter ==> s.queue == [] && !s.finished)
    && (s.failure.Some? ==> s.finished)
    && (s.consumer.Ended? || s.consumer.Failed? ==> s.finished)
  }

  /** `Push`, as the row handler does it: an update of the last batch, then perhaps one more. */
  lemma PushInPlace(queue: seq<Batch>, row: Row, batchSize: int)
    requires queue != []
    ensures var n := |queue| - 1;
      var updated := queue[n := queue[n] + [row]];
      Push(queue, row, batchSize) == if |updated[n]| >= batchSize then updated + [[]] else updated
  {
    var n := |queue| - 1;
    assert queue[n := queue[n] + [row]] == queue[..n] + [queue[n] + [row]];
  }

  lemma PushKeepsRows(queue: seq<Batch>, row: Row, batchSize: int)
    ensures Flatten(Push(queue, row, batchSize)) == Flatten(queue) + [row]
  {
    var q := if queue == [] then [[]] else queue;
    var front, last := q[..|q| - 1], q[|q| - 1];
    assert q == front + [last];
    FlattenSnoc(front, last);
    FlattenSnoc(front, last + [row]);
    FlattenSnoc(front + [last + [row]], []);
    assert Flatten(queue) == Flatten(q) by {
      if queue == [] { FlattenSnoc<Row>([], []); assert [] + [[]] == q; }
    }
    assert front + [last + [row]] + [] == front + [last + [row]];
  }

  lemma PushKeepsSizes(queue: seq<Batch>, row: Row, batchSize: int)
    requires Sizes(queue, batchSize)
    ensures Sizes(Push(queue, row, batchSize), batchSize)
  {
  }

  lemma TurnKeepsInv(s: State, batchSize: int)
    requires Inv(s, batchSize) && Enabled(s, Resume)
    ensures Inv(Turn(s), batchSize)
  {
    if s.queue != [] {
      var next := Turn(s);
      FlattenSnoc(s.yielded, s.queue[0]);
      assert Flatten(s.queue) == s.queue[0] + Flatten(s.queue[1..]);
      assert Flatten(next.yielded) + Flatten(next.queue) == Flatten(s.yielded) + Flatten(s.queue);
      assert Sizes(s.queue[1..], batchSize);
      assert forall batch :: batch in next.yielded <==> batch in s.yielded || batch == s.queue[0];
    }
  }

  lemma InvStep(s: State, e: Event, batchSize: int)
    requires Inv(s, batchSize) && Enabled(s, e)
    ensures Inv(Step(s, e, batchSize), batchSize)
  {
    if e.Resume? {
      TurnKeepsInv(s, batchSize);
    } else if e.RowEvent? {
      PushKeepsRows(s.queue, e.row, batchSize);
      PushKeepsSizes(s.queue, e.row, batchSize);
      assert Flatten(s.yielded) + (Flatten(s.queue) + [e.row]) == s.received + [e.row];
    }
  }

  /** In every interleaving of row, done and error events with the consumer, the yielded and
      the queued batches hold the rows received, in order, and no wake-up is lost. */
  lemma {:induction false} InvRun(s: State, es: seq<Event>, batchSize: int)
    requires Inv(s, batchSize) && Possible(s, es, batchSize)
    ensures Inv(Run(s, es, batchSize), batchSize)
    decreases |es|
  {
    if es != [] {
      InvStep(s, es[0], batchSize);
      InvRun(Step(s, es[0], batchSize), es[1..], batchSize);
    }
  }

  /** Whenever there is something to deliver, a generator that is not over can be resumed. */
  lemma NoLostWakeUp(es: seq<Event>, batchSize: int)
    requires Possible(START, es, batchSize)
    ensures var s := Run(START, es, batchSize);
      s.queue != [] || s.finished ==>
        s.consumer.Ended? || s.consumer.Failed? || s.consumer.Closed? || Enabled(s, Resume)
  {
    InvRun(START, es, batchSize);
  }

  /** Every queued batch but the last has exactly the batch size, and the last one has less. */
  lemma QueuedBatchesAreFull(es: seq<Event>, batchSize: int)
    requires Possible(START, es, batchSize) && batchSize >= 1
    ensures var queue := Run(START, es, batchSize).queue;
      (forall i :: 0 <= i < |queue| - 1 ==> |queue[i]| == batchSize) &&
      (queue != [] ==> |queue[|queue| - 1]| < batchSize)
  {
    InvRun(START, es, batchSize);
  }

  /** The generator ends or throws only once every row received so far has been yielded, and
      it throws exactly the last error reported. */
  lemma EndsAfterAllRows(s: State, batchSize: int)
    requires Inv(s, batchSize) && Enabled(s, Resume)
    ensures var next := Step(s, Resume, batchSize);
      next.consumer.Ended? || next.consumer.Failed? ==>
        Flatten(next.yielded) == s.received &&
        next.consumer == if s.failure.Some? then Failed(s.failure.value) else Ended
  {
  }

  function Resumes(n: nat): seq<Event>
  {
    seq(n, _ => Resume)
  }

  /** The state once all is out. */
  function Drained(s: State): State
  {
    s.(queue := [], yielded := s.yielded + s.queue,
       consumer := if s.failure.Some? then Failed(s.failure.value) else Ended)
  }

  /** Once the source is finished, resuming yields the queued batches one by one and then
      ends: after `|queue| + 1` turns all rows are out. */
  lemma {:induction false} Drains(s: State, batchSize: int)
    requires s.finished && Enabled(s, Resume)
    ensures Possible(s, Resumes(|s.queue| + 1), batchSize)
    ensures Run(s, Resumes(|s.queue| + 1), batchSize) == Drained(s)
    ensures Inv(s, batchSize) ==> Flatten(Drained(s).yielded) == s.received
    decreases |s.queue|
  {
    var es := Resumes(|s.queue| + 1);
    var next := Turn(s);
    assert es[0] == Resume && es[1..] == Resumes(|s.queue|);
    FlattenAppend(s.yielded, s.queue);
    if s.queue == [] {
      assert es[1..] == [];
      assert s.yielded + [] == s.yielded;
    } else {
      Drains(next, batchSize);
      assert s.yielded + [s.queue[0]] + s.queue[1..] == s.yielded + s.queue;
      assert Drained(next) == Drained(s);
    }
  }

  // ----- what the source reported -----

  /** The rows of the row events, in order. */
  function RowsIn(es: seq<Event>): Batch
  {
    if es == [] then [] else (if es[0].RowEvent? then [es[0].row] else []) + RowsIn(es[1..])
  }

  /** The message of the last error event, if there is one. */
  function LastError(es: seq<Event>): Option<string>
  {
    if es == [] then None
    else if LastError(es[1..]).Some? then LastError(es[1..])
    else if es[0].ErrorEvent? then Some(es[0].message)
    else None
  }

  /** The source reported its end, in one way or the other. */
  ghost predicate EndReported(es: seq<Event>)
  {
    exists e :: e in es && (e.DoneEvent? || e.ErrorEvent?)
  }

  lemma EndReportedFirst(e: Event, more: seq<Event>)
    ensures EndReported([e] + more) <==> e.DoneEvent? || e.ErrorEvent? || EndReported(more)
  {
    assert e in [e] + more && forall x :: x in more ==> x in [e] + more;
  }

  /** After any events the state knows exactly the rows, the end and the last error that came. */
  lemma {:induction false} EventsAreKnown(s: State, es: seq<Event>, batchSize: int)
    ensures var t := Run(s, es, batchSize);
      && t.received == s.received + RowsIn(es)
      && t.failure == (if LastError(es).Some? then LastError(es) else s.failure)
      && (t.finished <==> s.finished || EndReported(es))
    decreases |es|
  {
    if es == [] {
      assert s.received + [] == s.received;
    } else {
      var e, more := es[0], es[1..];
      EventsAreKnown(Step(s, e, batchSize), more, batchSize);
      Assoc(s.received, if e.RowEvent? then [e.row] else [], RowsIn(more));
      assert s.received + [] == s.received;
      assert es == [e] + more;
      EndReportedFirst(e, more);
    }
  }

  lemma {:induction false} RunSnoc(s: State, es: seq<Event>, e: Event, batchSize: int)
    ensures Run(s, es + [e], batchSize) == Step(Run(s, es, batchSize), e, batchSize)
    ensures Possible(s, es + [e], batchSize) <==>
            Possible(s, es, batchSize) && Enabled(Run(s, es, batchSize), e)
    decreases |es|
  {
    if es == [] {
      assert [e][1..] == [] && [] + [e] == [e];
    } else {
      RunSnoc(Step(s, es[0], batchSize), es[1..], e, batchSize);
      assert (es + [e])[1..] == es[1..] + [e];
    }
  }

  predicate IsOver(s: State)
  {
    s.consumer.Ended? || s.consumer.Failed?
  }

  lemma OverStaysOver(s: State, e: Event, batchSize: int)
    requires Inv(s, batchSize) && IsOver(s) && Enabled(s, e)
    ensures var t := Step(s, e, batchSize); t.consumer == s.consumer && t.yielded == s.yielded
  {
  }

  lemma EndingTurn(s: State, e: Event, batchSize: int)
    requires Inv(s, batchSize) && !IsOver(s) && Enabled(s, e) && IsOver(Step(s, e, batchSize))
    ensures e == Resume && s.finished
    ensures var t := Step(s, e, batchSize);
      Flatten(t.yielded) == s.received &&
      t.consumer == if s.failure.Some? then Failed(s.failure.value) else Ended
  {
    if e.Resume? {
      EndsAfterAllRows(s, batchSize);
    }
  }

  /** What a generator knows of the events `es` when it ends: the end was reported, it has yielded
      all rows, and it throws the last error that came, or ends if none did. */
  ghost predicate HonestEnd(t: State, es: seq<Event>)
  {
    && EndReported(es) && Flatten(t.yielded) == RowsIn(es)
    && t.consumer == if LastError(es).Some? then Failed(LastError(es).value) else Ended
  }

  /** A generator that has ended or thrown did so at some turn, rightly by what had come before. */
  lemma {:induction false} EndingIsHonest(es: seq<Event>, batchSize: int) returns (n: nat)
    requires Possible(START, es, batchSize) && IsOver(Run(START, es, batchSize))
    ensures n < |es| && es[n] == Resume && HonestEnd(Run(START, es, batchSize), es[..n])
    decreases |es|
  {
    var m := |es| - 1;
    var before, e := es[..m], es[m];
    var s := Run(START, before, batchSize);
    assert before + [e] == es;
    RunSnoc(START, before, e, batchSize);
    InvRun(START, before, batchSize);
    if IsOver(s) {
      OverStaysOver(s, e, batchSize);
      n := EndingIsHonest(before, batchSize);
      assert before[..n] == es[..n];
    } else {
      n := m;
      EventsAreKnown(START, before, batchSize);
      assert START.received + RowsIn(before) == RowsIn(before);
      EndingTurn(s, e, batchSize);
    }
  }

  // ----- the handlers -----

  /** The row handler's work on the queue. */
  method PushRow(queue: seq<Batch>, row: Row, batchSize: int) returns (q: seq<Batch>)
    ensures q == Push(queue, row, batchSize)
  {
    q := queue;
    if |q| == 0 {
      q := [[]];
    }
    PushInPlace(q, row, batchSize);
    var n := |q| - 1;
    q := q[n := q[n] + [row]];
    if |q[n]| >= batchSize {
      q := q + [[]];
    }
  }

  class RowStream {
    var queue: seq<Batch>
    var resolveNext: bool
    var finished: bool
    var finishErr: Option<string>
    const batchSize: int
    ghost var log: State

    ghost predicate Valid()
      reads this
    {
      log.queue == queue && log.waiter == resolveNext && log.finished == finished && log.failure == finishErr &&
      Inv(log, batchSize)
    }

    constructor (batchSize: int)
      ensures Valid() && log == START && this.batchSize == batchSize
    {
      this.batchSize := batchSize;
      queue, resolveNext, finished, finishErr := [], false, false, None;
      log := START;
    }

    /** `request.on("row")` */
    method OnRow(row: Row)
      requires Valid()
      modifies this
      ensures Valid() && log == Step(old(log), RowEvent(row), batchSize)
    {
      InvStep(log, RowEvent(row), batchSize);
      log := Step(log, RowEvent(row), batchSize);
      queue := PushRow(queue, row, batchSize);
      if resolveNext {
        resolveNext := false;
      }
    }

    /** `request.on("done")` */
    method OnDone()
      requires Valid()
      modifies this
      ensures Valid() && log == Step(old(log), DoneEvent, batchSize)
    {
      InvStep(log, DoneEvent, batchSize);
      log := Step(log, DoneEvent, batchSize);
      finished := true;
      if resolveNext {
        resolveNext := false;
      }
    }

    /** `request.on("error")` */
    method OnError(message: string)
      requires Valid()
      modifies this
      ensures Valid() && log == Step(old(log), ErrorEvent(message), batchSize)
    {
      InvStep(log, ErrorEvent(message), batchSize);
      log := Step(log, ErrorEvent(message), batchSize);
      finishErr := Some(message);
      finished := true;
      if resolveNext {
        resolveNext := false;
      }
    }

    /** One turn of the generator: a batch, the end, an error, or a wait (`None`). */
    method Next() returns (r: Option<Outcome<Option<Batch>>>)
      requires Valid() && Enabled(log, Resume)
      modifies this
      ensures Valid() && log == Step(old(log), Resume, batchSize)
      ensures log.consumer.AtYield? ==> old(log).queue != [] && r == Some(Returned(Some(old(log).queue[0])))
      ensures log.consumer.Ended? ==> r == Some(Returned(None))
      ensures log.consumer.Failed? ==> r == Some(Threw(log.consumer.message))
      ensures log.consumer.Blocked? ==> r == None
    {
      InvStep(log, Resume, batchSize);
      log := Step(log, Resume, batchSize);
      if |queue| > 0 {
        r := Some(Returned(Some(queue[0])));
        queue := queue[1..];
      } else if finished {
        if finishErr.Some? {
          return Some(Threw(finishErr.value));
        }
        return Some(Returned(None));
      } else {
        resolveNext := true;
        r := None;
      }
    }
  }
}
