/** The finish-once transaction handle: commit and rollback may be called any number of times,
    and again while an earlier call still waits for the database. */
module WarehouseTx {
  import opened JsText

  datatype Dialect = Mssql | Postgres

  datatype Statement = Commit | Rollback

  /** `sent` lists the statements sent to the database; `reply` is the answer to the first. */
  datatype State = State(finished: bool, sent: seq<Statement>, reply: Option<bool>, released: nat)

  /** A call of `commit` or `rollback`, up to its first await; and the database's reply, after
      which the waiting call ends. */
  datatype Event = Call(s: Statement) | Reply(ok: bool)

  const BEGUN := State(false, [], None, 0)

  function Step(dialect: Dialect, st: State, e: Event): State
  {
    match e
    case Call(s) => if st.finished then st else st.(finished := true, sent := st.sent + [s])
    case Reply(ok) => st.(reply := Some(ok), released := st.released + (if dialect.Postgres? then 1 else 0))
  }

  /** A reply answers a statement that waits for one. */
  predicate Enabled(st: State, e: Event)
  {
    e.Call? || (|st.sent| == 1 && st.reply.None?)
  }

  function Run(dialect: Dialect, st: State, es: seq<Event>): State
    decreases |es|
  {
    if es == [] then st else Run(dialect, Step(dialect, st, es[0]), es[1..])
  }

  predicate Possible(dialect: Dialect, st: State, es: seq<Event>)
    decreases |es|
  {
    es == [] || (Enabled(st, es[0]) && Possible(dialect, Step(dialect, st, es[0]), es[1..]))
  }

  /** At most one statement is ever sent, and the client is released once it was answered. */
  ghost predicate Inv(dialect: Dialect, st: State)
  {
    && |st.sent| == (if st.finished then 1 else 0)
    && (st.reply.Some? ==> st.finished)
    && st.released == (if dialect.Postgres? && st.reply.Some? then 1 else 0)
  }

  lemma {:induction false} FinishesOnce(dialect: Dialect, st: State, es: seq<Event>)
    requires Inv(dialect, st) && Possible(dialect, st, es)
    ensures Inv(dialect, Run(dialect, st, es))
    ensures st.finished ==> Run(dialect, st, es).sent == st.sent
    decreases |es|
  {
    if es != [] {
      FinishesOnce(dialect, Step(dialect, st, es[0]), es[1..]);
    }
  }

  /** The first call decides: whatever is called after it, and however the database replies,
      the only statement sent is its own. In particular a rollback after a commit that failed
      sends nothing. */
  lemma FirstCallDecides(dialect: Dialect, s: Statement, rest: seq<Event>)
    requires Possible(dialect, BEGUN, [Call(s)] + rest)
    ensures Run(dialect, BEGUN, [Call(s)] + rest).sent == [s]
  {
    var es := [Call(s)] + rest;
    assert es[1..] == rest;
    FinishesOnce(dialect, Step(dialect, BEGUN, es[0]), rest);
  }

  class Handle {
    const dialect: Dialect
    var finished: bool
    ghost var log: State

    ghost predicate Valid()
      reads this
    {
      log.finished == finished && Inv(dialect, log)
    }

    constructor (dialect: Dialect)
      ensures Valid() && log == BEGUN && this.dialect == dialect
    {
      this.dialect, finished, log := dialect, false, BEGUN;
    }

    /** `commit()` or `rollback()` up to its await: the statement to send, if any. */
    method Start(s: Statement) returns (send: Option<Statement>)
      requires Valid()
      modifies this
      ensures Valid() && log == Step(dialect, old(log), Call(s))
      ensures send == if old(finished) then None else Some(s)
    {
      log := Step(dialect, log, Call(s));
      if finished {
        return None;
      }
      finished := true;
      send := Some(s);
    }

    /** The rest of the call that sent `s`: a failed commit throws, a failed rollback does not. */
    method End(s: Statement, ok: bool) returns (r: Outcome<()>, release: bool)
      requires Valid() && Enabled(log, Reply(ok)) && log.sent == [s]
      modifies this
      ensures Valid() && log == Step(dialect, old(log), Reply(ok))
      ensures r.Threw? <==> s.Commit? && !ok
      ensures release <==> dialect.Postgres?
    {
      log := Step(dialect, log, Reply(ok));
      release := dialect.Postgres?;
      r := if s.Commit? && !ok then Threw("commit failed") else Returned(());
    }
  }
}
