/** Outermost atomicity: when the durable store can change, and what an abandoned transaction leaves behind. */
module Atomicity {
  import opened Wire
  import opened Transaction
  import StatementHandles

  /** The durable store moves at a COMMIT sent at depth one, at a statement sent with nothing open,
      and nowhere else; the first publishes the data seen after the flush. */
  lemma DurableStep(c: Conn, op: Op)
    requires Agree(c) && Tame(op)
    ensures Step(c, op).0.server.durable ==
            if op.Commit? && c.depth == 1 then Flush(c).0.server.working
            else if op.Execute? && c.depth == 0 && !op.user.effect(c.server.durable).Aborted? then
              op.user.effect(c.server.durable).store
            else c.server.durable
    ensures op.Commit? && c.depth == 1 ==> Step(c, op).0.depth == 0
  {
    hide Exec, Apply, Flush, StatementHandles.FirstI32;
    FlushAgreed(c);
    var f := Flush(c).0;
    match op {
      case Begin(_) => SendAgreed(f, BeginBatch(c, None));
      case Commit => if c.depth == 1 { SendAgreed(f, CommitTran); }
      case Rollback => if c.depth >= 1 { SendAgreed(f, if c.depth == 1 then RollbackTran else RollbackToSave); }
      case StartRollback =>
      case Execute(statement) => SendAgreed(f, User(statement));
      case PrepareQuery(outcome, returned) =>
        SendAgreed(f, Prepare(outcome));
        var handle := StatementHandles.FirstI32(returned);
        if outcome.Prepared? && handle.Ok? && handle.value.Some? {
          SendAgreed(Send(f, Prepare(outcome)).0, Unprepare(handle.value.value));
        }
      case Ping =>
    }
  }

  /** The run starts inside a transaction and no operation of it ends the outermost level. */
  ghost predicate StaysInside(c: Conn, ops: seq<Op>)
    decreases |ops|
  {
    After(c, ops).depth >= 1 && (|ops| > 0 ==> StaysInside(c, ops[..|ops| - 1]))
  }

  lemma {:induction false} InsideKeepsDurable(c: Conn, ops: seq<Op>)
    requires Agree(c) && StaysInside(c, ops) && forall op <- ops :: Tame(op)
    ensures Agree(After(c, ops)) && After(c, ops).server.durable == c.server.durable
    decreases |ops|
  {
    if |ops| > 0 {
      var n := |ops| - 1;
      InsideKeepsDurable(c, ops[..n]);
      AgreementKept(After(c, ops[..n]), ops[n]);
      DurableStep(After(c, ops[..n]), ops[n]);
    }
  }

  function Drops(k: nat): seq<Op> { seq(k, _ => StartRollback) }

  /** Dropping transactions sends nothing; enough drops leave exactly a full rollback queued. */
  lemma {:induction false} DropsOnlyQueue(c: Conn, k: nat)
    requires Agree(c)
    ensures var d := After(c, Drops(k));
            && d.server == c.server && d.descriptor == c.descriptor && Agree(d)
            && d.depth == (if k <= c.depth then c.depth - k else 0)
            && (0 < c.depth <= k ==> d.pending == Some(RollbackTran))
  {
    if k > 0 {
      assert Drops(k)[..k - 1] == Drops(k - 1);
      DropsOnlyQueue(c, k - 1);
      AgreementKept(After(c, Drops(k - 1)), StartRollback);
    }
  }

  /** Operations whose first act is a request. */
  predicate Requests(op: Op) { op.Begin? || op.Execute? || op.PrepareQuery? }

  function FirstBatch(c: Conn, op: Op): Batch
    requires Requests(op)
  {
    match op
    case Begin(statement) => BeginBatch(c, statement)
    case Execute(statement) => User(statement)
    case PrepareQuery(outcome, _) => Prepare(outcome)
  }

  /** The next request on a connection with a full rollback queued: one ROLLBACK, and then the request itself, which
      finds the durable store. */
  lemma QueuedRollbackComesFirst(y: Conn, next: Op)
    requires Agree(y) && y.pending == Some(RollbackTran) && Requests(next) && Tame(next)
    ensures var z, n := Step(y, next).0, |y.server.log|;
            && y.server.log <= z.server.log && |z.server.log| >= n + 2
            && z.server.log[n].batch == RollbackTran && z.server.log[n].ok
            && z.server.log[n + 1].batch == FirstBatch(y, next)
            && z.server.log[n + 1].working == z.server.log[n + 1].durable == y.server.durable
  {
    hide Exec, Apply, StatementHandles.FirstI32;
    FlushAgreed(y);
    SendAgreed(y.(pending := None), RollbackTran);
    var f := Flush(y).0;
    var first := FirstBatch(y, next);
    SendAgreed(f, first);
    if next.PrepareQuery? {
      var handle := StatementHandles.FirstI32(next.returned);
      if next.outcome.Prepared? && handle.Ok? && handle.value.Some? {
        SendAgreed(Send(f, first).0, Unprepare(handle.value.value));
      }
    }
  }

  /** A transaction abandoned at any nesting depth by dropping its guards: the next request of whatever kind is
      preceded by one full ROLLBACK and finds the store as it was before the outermost begin, which is also the
      durable one. The begin itself may have found another abandoned transaction still queued. */
  lemma AbandonedTransactionLeavesNoTrace(c: Conn, work: seq<Op>, k: nat, next: Op)
    requires Agree(c) && c.depth == 0
    requires forall op <- work :: Tame(op)
    requires Requests(next) && Tame(next)
    requires StaysInside(Step(c, Begin(None)).0, work)
    requires k >= After(Step(c, Begin(None)).0, work).depth
    ensures var x := After(Step(c, Begin(None)).0, work);
            var y := After(x, Drops(k));
            var z, n := Step(y, next).0, |x.server.log|;
            && y.depth == 0 && y.server == x.server
            && x.server.durable == c.server.durable == Flush(c).0.server.working
            && |z.server.log| >= n + 2
            && z.server.log[n].batch == RollbackTran && z.server.log[n].ok
            && z.server.log[n + 1].batch == FirstBatch(y, next)
            && z.server.log[n + 1].working == z.server.log[n + 1].durable == c.server.durable
  {
    hide Step, Flush;
    var b := Step(c, Begin(None)).0;
    FlushAgreed(c);
    AgreementKept(c, Begin(None));
    DurableStep(c, Begin(None));
    InsideKeepsDurable(b, work);
    var x := After(b, work);
    DropsOnlyQueue(x, k);
    StaysInsideEnds(b, work);
    QueuedRollbackComesFirst(After(x, Drops(k)), next);
  }

  lemma StaysInsideEnds(c: Conn, ops: seq<Op>)
    requires StaysInside(c, ops)
    ensures After(c, ops).depth >= 1
  {
  }
}
