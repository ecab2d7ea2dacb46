/** The transaction manager, the connection state it moves, and the server it talks to. */
module Transaction {
  import opened Wire
  import opened EnvChanges
  import Query
  import StatementHandles

  type Store = map<int, int>
  type Descriptor = d: int | 0 < d < 0x1_0000_0000_0000_0000 witness 1

  // ---- what is sent ----

  /** How a user batch ends: with a new store; with an error that leaves the transaction open and whatever the batch
      had done by then in place; or with an error on which the server rolls the open transaction back. */
  datatype Outcome = Done(store: Store) | Failed(store: Store) | Aborted

  /** How a prepare ends: accepted, refused, or refused with the open transaction rolled back. */
  datatype PrepareOutcome = Prepared | Refused | RefusedAborting

  datatype Statement = Statement(effect: Store -> Outcome, notices: seq<EnvChange>)

  datatype Batch =
    | BeginTran
    | SaveTran            // SAVE TRANSACTION sqlx_savepoint
    | CommitTran
    | RollbackTran
    | RollbackToSave      // ROLLBACK TRANSACTION sqlx_savepoint
    | User(statement: Statement)
    | Prepare(outcome: PrepareOutcome)
    | Unprepare(id: int)

  // ---- the server ----

  /** One request as the server saw it: the descriptor it carried and the one it had to carry,
      the stores at that moment and whether it was carried out. */
  datatype Entry = Entry(batch: Batch, descriptor: U64, current: U64, working: Store, durable: Store, ok: bool)

  datatype Server = Server(
    durable: Store,
    working: Store,
    savepoints: seq<Store>,         // all named sqlx_savepoint, oldest first
    tranCount: nat,
    descriptor: U64,                // 0 while no transaction is open
    issue: nat -> Descriptor,       // descriptors handed out, in any order and with repetitions
    issued: nat,
    keepsSavepoint: bool,           // whether rolling back to a savepoint leaves it in place
    log: seq<Entry>)

  datatype Reply = Success(changes: seq<EnvChange>) | ErrorReply

  /** What a batch with this new store leaves behind: without an open transaction it is durable at once. */
  function PutStore(s: Server, store: Store): Server {
    s.(working := store, durable := if s.tranCount == 0 then store else s.durable)
  }

  function EndTransaction(s: Server, store: Store): Server {
    s.(durable := store, working := store, savepoints := [], tranCount := 0, descriptor := 0)
  }

  /** Rolling back on the server's own account. */
  function Abandon(s: Server): Server { if s.tranCount == 0 then s else EndTransaction(s, s.durable) }

  /** Carrying out a batch that is addressed to the right transaction. */
  function Perform(s: Server, b: Batch): (Server, Reply) {
    match b
    case BeginTran =>
      if s.tranCount == 0 then
        (s.(tranCount := 1, descriptor := s.issue(s.issued), issued := s.issued + 1),
         Success([BeginTransaction(s.issue(s.issued))]))
      else (s.(tranCount := s.tranCount + 1), Success([]))
    case SaveTran =>
      if s.tranCount == 0 then (s, ErrorReply)
      else (s.(savepoints := s.savepoints + [s.working]), Success([]))
    case CommitTran =>
      if s.tranCount == 0 then (s, ErrorReply)
      else if s.tranCount > 1 then (s.(tranCount := s.tranCount - 1), Success([]))
      else (EndTransaction(s, s.working), Success([CommitTransaction(s.descriptor)]))
    case RollbackTran =>
      if s.tranCount == 0 then (s, ErrorReply)
      else (EndTransaction(s, s.durable), Success([RollbackTransaction(s.descriptor)]))
    case RollbackToSave =>
      if s.tranCount == 0 || |s.savepoints| == 0 then (s, ErrorReply)
      else (s.(working := s.savepoints[|s.savepoints| - 1],
               savepoints := if s.keepsSavepoint then s.savepoints else s.savepoints[..|s.savepoints| - 1]),
            Success([]))
    case User(statement) =>
      (match statement.effect(s.working)
       case Done(store) => (PutStore(s, store), Success(statement.notices))
       case Failed(store) => (PutStore(s, store), ErrorReply)
       case Aborted => (Abandon(s), ErrorReply))
    case Prepare(outcome) =>
      (match outcome
       case Prepared => (s, Success([]))
       case Refused => (s, ErrorReply)
       case RefusedAborting => (Abandon(s), ErrorReply))
    case Unprepare(_) => (s, Success([]))
  }

  /** A request whose descriptor is not the current one is refused. */
  function Exec(s: Server, descriptor: U64, b: Batch): (Server, Reply) {
    var right := descriptor == s.descriptor;
    var (t, reply) := if right then Perform(s, b) else (s, ErrorReply);
    (t.(log := s.log + [Entry(b, descriptor, s.descriptor, s.working, s.durable, right && reply.Success?)]), reply)
  }

  // ---- the connection ----

  datatype Conn = Conn(depth: nat, descriptor: U64, pending: Option<Batch>, packetSize: nat, server: Server)

  function ApplyOne(c: Conn, change: EnvChange): Conn {
    match change
    case PacketSize(n) => c.(packetSize := if n < 512 then 512 else if n > 32767 then 32767 else n)
    case BeginTransaction(d) => c.(descriptor := d)
    case CommitTransaction(_) => c.(descriptor := 0)
    case RollbackTransaction(_) => c.(descriptor := 0)
    case _ => c
  }

  function Apply(c: Conn, changes: seq<EnvChange>): Conn
    decreases |changes|
  {
    if |changes| == 0 then c else ApplyOne(Apply(c, changes[..|changes| - 1]), changes[|changes| - 1])
  }

  /** One request and its response; on an error response no environment change is applied. */
  function Send(c: Conn, b: Batch): (Conn, bool) {
    var (server, reply) := Exec(c.server, c.descriptor, b);
    var d := c.(server := server);
    if reply.ErrorReply? then (d, false) else (Apply(d, reply.changes), true)
  }

  function Flush(c: Conn): (Conn, bool) {
    if c.pending.None? then (c, true) else Send(c.(pending := None), c.pending.value)
  }

  function RunBatch(c: Conn, b: Batch): (Conn, bool) {
    var (d, ok) := Flush(c);
    if ok then Send(d, b) else (d, false)
  }

  function QueueRollback(c: Conn): Conn {
    if c.depth == 0 then c
    else if c.depth == 1 then c.(depth := 0, pending := Some(RollbackTran))
    else c.(depth := c.depth - 1, pending := Some(RollbackToSave))
  }

  datatype Op =
    | Begin(statement: Option<Batch>)
    | Commit
    | Rollback
    | StartRollback
    | Execute(user: Statement)
    | PrepareQuery(outcome: PrepareOutcome, returned: seq<Query.TypedValue>)
    | Ping

  function BeginBatch(c: Conn, statement: Option<Batch>): Batch {
    if statement.Some? then statement.value else if c.depth == 0 then BeginTran else SaveTran
  }

  /** After a prepare: the handle is given back if there is one; a return value that is no handle is an error. */
  function Release<E>(c: Conn, handle: Result<Option<int>, E>): (Conn, bool) {
    match handle
    case Err(_) => (c, false)
    case Ok(None) => (c, true)
    case Ok(Some(id)) => Send(c, Unprepare(id))
  }

  function Step(c: Conn, op: Op): (Conn, bool) {
    match op
    case Begin(statement) =>
      var (d, ok) := RunBatch(c, BeginBatch(c, statement));
      (if ok then d.(depth := d.depth + 1) else d, ok)
    case Commit =>
      if c.depth == 1 then
        var (d, ok) := RunBatch(c, CommitTran);
        (if ok then d.(depth := if d.depth == 0 then 0 else d.depth - 1) else d, ok)
      else if c.depth > 1 then (c.(depth := c.depth - 1), true)
      else (c, true)
    case Rollback =>
      if c.depth == 1 then
        var (d, ok) := RunBatch(c, RollbackTran);
        (if ok then d.(depth := 0) else d, ok)
      else if c.depth > 1 then
        var (d, ok) := RunBatch(c, RollbackToSave);
        (if ok then d.(depth := if d.depth == 0 then 0 else d.depth - 1) else d, ok)
      else (c, true)
    case StartRollback => (QueueRollback(c), true)
    case Execute(statement) => RunBatch(c, User(statement))
    case PrepareQuery(outcome, returned) =>
      var (d, ok) := RunBatch(c, Prepare(outcome));
      if !ok then (d, false) else Release(d, StatementHandles.FirstI32(returned))
    case Ping => Flush(c)
  }

  function After(c: Conn, ops: seq<Op>): Conn
    decreases |ops|
  {
    if |ops| == 0 then c else Step(After(c, ops[..|ops| - 1]), ops[|ops| - 1]).0
  }

  /** A fresh connection to a server in which nothing is open. */
  predicate Initial(c: Conn) {
    && c.depth == 0 && c.descriptor == 0 && c.pending.None?
    && c.server.tranCount == 0 && c.server.descriptor == 0 && c.server.savepoints == []
    && c.server.working == c.server.durable
  }

  // ---- agreement of connection and server, at any depth ----

  predicate Quiet(notices: seq<EnvChange>) {
    forall n <- notices :: !n.IsTransactional()
  }

  /** No custom begin text; statements report no transaction change of their own, and no request makes the server
      abandon the transaction. */
  ghost predicate Tame(op: Op) {
    && (op.Begin? ==> op.statement.None?)
    && (op.Execute? ==> Quiet(op.user.notices) && forall s: Store :: !op.user.effect(s).Aborted?)
    && (op.PrepareQuery? ==> !op.outcome.RefusedAborting?)
  }

  predicate ServerSound(s: Server) {
    && s.tranCount <= 1
    && (s.tranCount == 0 <==> s.descriptor == 0)
    && (s.tranCount == 0 ==> s.working == s.durable && s.savepoints == [])
  }

  /** The server has a transaction open exactly when the depth is positive or a full rollback is queued;
      the next descriptor sent is the current one; every savepoint a rollback can name exists. */
  predicate Agree(c: Conn) {
    && ServerSound(c.server)
    && c.descriptor == c.server.descriptor
    && (c.server.tranCount == 1 <==> c.depth > 0 || c.pending == Some(RollbackTran))
    && (c.pending.Some? ==> c.pending.value == RollbackTran || c.pending.value == RollbackToSave)
    && (c.pending == Some(RollbackTran) ==> c.depth == 0)
    && (c.pending == Some(RollbackToSave) ==> c.depth >= 1)
    && (c.depth >= 1 ==> |c.server.savepoints| >= c.depth - 1 + if c.pending.Some? then 1 else 0)
  }

  /** Entries the log gained, all of them with the right descriptor. */
  ghost predicate RightlyAddressed(before: seq<Entry>, after: seq<Entry>) {
    && before <= after
    && forall i | |before| <= i < |after| :: after[i].descriptor == after[i].current
  }

  lemma {:induction false} ApplyQuiet(c: Conn, changes: seq<EnvChange>)
    requires Quiet(changes)
    ensures var d := Apply(c, changes);
            d == c.(packetSize := d.packetSize)
    decreases |changes|
  {
    if |changes| > 0 {
      ApplyQuiet(c, changes[..|changes| - 1]);
      assert changes[|changes| - 1] in changes;
    }
  }

  lemma ApplySingle(c: Conn, change: EnvChange)
    ensures Apply(c, [change]) == ApplyOne(c, change)
  {
    assert [change][..0] == [];
  }

  /** What `Send` does on a connection that knows the current descriptor. */
  lemma SendAgreed(c: Conn, b: Batch)
    requires ServerSound(c.server) && c.descriptor == c.server.descriptor
    requires b.User? ==> Quiet(b.statement.notices)
    ensures var (d, ok) := Send(c, b);
            var (t, reply) := Perform(c.server, b);
            && ok == reply.Success?
            && RightlyAddressed(c.server.log, d.server.log)
            && |d.server.log| == |c.server.log| + 1
            && d.server.log[|c.server.log|] == Entry(b, c.descriptor, c.descriptor, c.server.working, c.server.durable, ok)
            && d == c.(server := t.(log := d.server.log), packetSize := d.packetSize,
                       descriptor := if ok then t.descriptor else c.descriptor)
  {
    var (server, reply) := Exec(c.server, c.descriptor, b);
    var d := c.(server := server);
    forall change ensures Apply(d, [change]) == ApplyOne(d, change) {
      ApplySingle(d, change);
    }
    if b.User? {
      ApplyQuiet(d, b.statement.notices);
    }
  }

  /** Flushing an agreed connection always succeeds, sends at most the queued batch and leaves nothing queued. */
  lemma FlushAgreed(c: Conn)
    requires Agree(c)
    ensures var (d, ok) := Flush(c);
            && ok && Agree(d) && d.pending.None? && d.depth == c.depth
            && RightlyAddressed(c.server.log, d.server.log)
            && |d.server.log| == |c.server.log| + (if c.pending.Some? then 1 else 0)
            && (c.pending.Some? ==> d.server.log[|c.server.log|].batch == c.pending.value)
            && d.server.durable == c.server.durable
            && d.server.working ==
                 (if c.pending.None? then c.server.working
                  else if c.pending.value == RollbackTran then c.server.durable
                  else c.server.savepoints[|c.server.savepoints| - 1])
            && (c.depth >= 1 ==>
                  d.server.savepoints == (if c.pending.None? || c.server.keepsSavepoint then c.server.savepoints
                                          else c.server.savepoints[..|c.server.savepoints| - 1]))
            && d.server.keepsSavepoint == c.server.keepsSavepoint
  {
    if c.pending.Some? {
      SendAgreed(c.(pending := None), c.pending.value);
    }
  }

  lemma RightlyAddressedTransitive(a: seq<Entry>, b: seq<Entry>, c: seq<Entry>)
    requires RightlyAddressed(a, b) && RightlyAddressed(b, c)
    ensures RightlyAddressed(a, c)
  {
    forall i | |a| <= i < |c| ensures c[i].descriptor == c[i].current {
      if i < |b| { assert c[i] == b[i]; }
    }
  }

  lemma NothingNew(log: seq<Entry>)
    ensures RightlyAddressed(log, log)
  {
  }

  /** Agreement survives every operation at every depth, every request carries the current descriptor, no batch of
      the transaction manager is ever refused, and a prepare succeeds exactly when the server accepts it and what
      comes back first, if anything does, is a handle. */
  lemma AgreementKept(c: Conn, op: Op)
    requires Agree(c) && Tame(op)
    ensures var (d, ok) := Step(c, op);
            && Agree(d)
            && RightlyAddressed(c.server.log, d.server.log)
            && (!op.Execute? && !op.PrepareQuery? ==> ok)
            && (op.PrepareQuery? ==>
                  (ok <==> op.outcome.Prepared? && StatementHandles.FirstI32(op.returned).Ok?))
  {
    hide Exec, Apply, RightlyAddressed, Flush, StatementHandles.FirstI32;
    var (d, ok) := Step(c, op);
    FlushAgreed(c);
    var f := Flush(c).0;
    match op {
      case Begin(_) =>
        SendAgreed(f, BeginBatch(c, None));
        RightlyAddressedTransitive(c.server.log, f.server.log, d.server.log);
      case Commit =>
        NothingNew(c.server.log);
        if c.depth == 1 {
          SendAgreed(f, CommitTran);
          RightlyAddressedTransitive(c.server.log, f.server.log, d.server.log);
        }
      case Rollback =>
        NothingNew(c.server.log);
        if c.depth >= 1 {
          SendAgreed(f, if c.depth == 1 then RollbackTran else RollbackToSave);
          RightlyAddressedTransitive(c.server.log, f.server.log, d.server.log);
        }
      case StartRollback => NothingNew(c.server.log);
      case Execute(statement) =>
        SendAgreed(f, User(statement));
        RightlyAddressedTransitive(c.server.log, f.server.log, d.server.log);
      case PrepareQuery(outcome, returned) =>
        SendAgreed(f, Prepare(outcome));
        var p := Send(f, Prepare(outcome)).0;
        RightlyAddressedTransitive(c.server.log, f.server.log, p.server.log);
        var handle := StatementHandles.FirstI32(returned);
        if outcome.Prepared? && handle.Ok? && handle.value.Some? {
          SendAgreed(p, Unprepare(handle.value.value));
          RightlyAddressedTransitive(c.server.log, p.server.log, d.server.log);
        }
      case Ping =>
    }
  }

  /** Whole runs, of any depth and length. */
  lemma {:induction false} AgreementInEveryRun(c: Conn, ops: seq<Op>)
    requires Initial(c) && forall op <- ops :: Tame(op)
    ensures Agree(After(c, ops)) && RightlyAddressed(c.server.log, After(c, ops).server.log)
    decreases |ops|
  {
    if |ops| > 0 {
      var n := |ops| - 1;
      AgreementInEveryRun(c, ops[..n]);
      AgreementKept(After(c, ops[..n]), ops[n]);
      RightlyAddressedTransitive(c.server.log, After(c, ops[..n]).server.log, After(c, ops).server.log);
    }
  }

  /** A statement breaks agreement exactly when it makes the server abandon an open transaction:
      the error response hides the environment change that came with it. */
  lemma StatementKeepsAgreementIff(c: Conn, statement: Statement)
    requires Agree(c) && Quiet(statement.notices)
    ensures var f := Flush(c).0;
            Agree(Step(c, Execute(statement)).0) <==>
            !(f.server.tranCount > 0 && statement.effect(f.server.working).Aborted?)
  {
    FlushAgreed(c);
    SendAgreed(Flush(c).0, User(statement));
  }

  /** So does a prepare that the server refuses. */
  lemma PrepareKeepsAgreementIff(c: Conn, outcome: PrepareOutcome, returned: seq<Query.TypedValue>)
    requires Agree(c)
    ensures Agree(Step(c, PrepareQuery(outcome, returned)).0) <==>
            !(Flush(c).0.server.tranCount > 0 && outcome.RefusedAborting?)
  {
    hide Exec, Apply, Flush, StatementHandles.FirstI32;
    FlushAgreed(c);
    var f := Flush(c).0;
    SendAgreed(f, Prepare(outcome));
    var handle := StatementHandles.FirstI32(returned);
    if outcome.Prepared? && handle.Ok? && handle.value.Some? {
      SendAgreed(Send(f, Prepare(outcome)).0, Unprepare(handle.value.value));
    }
  }

  // ---- what each operation sends ----

  lemma {:induction false} ApplyTouches(c: Conn, changes: seq<EnvChange>)
    ensures var d := Apply(c, changes);
            d.depth == c.depth && d.pending == c.pending && d.server == c.server
    decreases |changes|
  {
    if |changes| > 0 {
      ApplyTouches(c, changes[..|changes| - 1]);
    }
  }

  /** Any request, answered either way, is one entry of the log, with the descriptor the connection holds. If that is
      not the one the server wants, the request is refused and nothing else changes on either side. */
  lemma SendLogs(c: Conn, b: Batch)
    ensures var (d, ok) := Send(c, b);
            && |d.server.log| == |c.server.log| + 1 && c.server.log <= d.server.log
            && d.server.log[|c.server.log|] ==
                 Entry(b, c.descriptor, c.server.descriptor, c.server.working, c.server.durable, ok)
            && d.depth == c.depth && d.pending == c.pending
            && (!ok ==> d == c.(server := d.server))
            && (c.descriptor != c.server.descriptor ==> !ok && d == c.(server := c.server.(log := d.server.log)))
  {
    hide Perform;
    var (server, reply) := Exec(c.server, c.descriptor, b);
    if reply.Success? {
      ApplyTouches(c.(server := server), reply.changes);
    }
    PerformKeepsLog(c.server, b);
  }

  lemma PerformKeepsLog(s: Server, b: Batch)
    ensures Perform(s, b).0.log == s.log
  {
  }

  function Batches(log: seq<Entry>): (bs: seq<Batch>)
    ensures |bs| == |log|
  {
    seq(|log|, i requires 0 <= i < |log| => log[i].batch)
  }

  function Handle(op: Op): Option<int> {
    if op.PrepareQuery? && op.outcome.Prepared? then
      var handle := StatementHandles.FirstI32(op.returned);
      if handle.Ok? then handle.value else None
    else None
  }

  /** The batches an operation adds to the log. A queued rollback goes first; a commit or rollback below an open
      transaction that needs no batch sends nothing, not even the queued one; and an accepted prepare is followed
      by giving back exactly the handle that came with it. */
  lemma WhatIsSent(c: Conn, op: Op)
    requires Agree(c)
    ensures var d := Step(c, op).0;
            var queued := if c.pending.Some? then [c.pending.value] else [];
            && c.server.log <= d.server.log
            && Batches(d.server.log[|c.server.log|..]) ==
                 match op
                 case Begin(Some(text)) => queued + [text]
                 case Begin(None) => queued + [if c.depth == 0 then BeginTran else SaveTran]
                 case Commit => if c.depth == 1 then queued + [CommitTran] else []
                 case Rollback =>
                   if c.depth == 0 then [] else queued + [if c.depth == 1 then RollbackTran else RollbackToSave]
                 case StartRollback => []
                 case Execute(statement) => queued + [User(statement)]
                 case PrepareQuery(outcome, _) =>
                   queued + [Prepare(outcome)] + if Handle(op).Some? then [Unprepare(Handle(op).value)] else []
                 case Ping => queued
  {
    hide Exec, Apply, Flush, Agree, StatementHandles.FirstI32;
    FlushAgreed(c);
    FlushLogs(c);
    var f := Flush(c).0;
    match op {
      case Begin(_) => SendsOne(c, f, BeginBatch(c, op.statement));
      case Commit => if c.depth == 1 { SendsOne(c, f, CommitTran); }
      case Rollback => if c.depth >= 1 { SendsOne(c, f, if c.depth == 1 then RollbackTran else RollbackToSave); }
      case StartRollback =>
      case Execute(statement) => SendsOne(c, f, User(statement));
      case PrepareQuery(outcome, _) =>
        SendsOne(c, f, Prepare(outcome));
        PrepareAccepted(f, outcome);
        if Handle(op).Some? {
          SendsOne(c, Send(f, Prepare(outcome)).0, Unprepare(Handle(op).value));
        }
      case Ping =>
    }
  }

  lemma FlushLogs(c: Conn)
    requires Agree(c)
    ensures var d, queued := Flush(c).0, if c.pending.Some? then [c.pending.value] else [];
            c.server.log <= d.server.log && Batches(d.server.log[|c.server.log|..]) == queued
  {
    if c.pending.Some? {
      SendLogs(c.(pending := None), c.pending.value);
    }
  }

  lemma SendsOne(c: Conn, f: Conn, b: Batch)
    requires c.server.log <= f.server.log
    ensures var d := Send(f, b).0;
            && c.server.log <= d.server.log
            && Batches(d.server.log[|c.server.log|..]) == Batches(f.server.log[|c.server.log|..]) + [b]
  {
    SendLogs(f, b);
    hide Send;
    var d := Send(f, b).0;
    assert d.server.log == f.server.log + [d.server.log[|f.server.log|]];
    assert d.server.log[|c.server.log|..] == f.server.log[|c.server.log|..] + [d.server.log[|f.server.log|]];
  }

  lemma PrepareAccepted(c: Conn, outcome: PrepareOutcome)
    requires ServerSound(c.server) && c.descriptor == c.server.descriptor
    ensures Send(c, Prepare(outcome)).1 == outcome.Prepared?
  {
    SendAgreed(c, Prepare(outcome));
  }

  /** An accepted prepare is the last request but one, and the last gives back exactly the handle that came first
      in its response; without a handle, or with a first value that is none, the prepare is the last request. */
  lemma HandleIsGivenBack(c: Conn, outcome: PrepareOutcome, returned: seq<Query.TypedValue>)
    requires Agree(c)
    ensures var log, handle := Step(c, PrepareQuery(outcome, returned)).0.server.log, StatementHandles.FirstI32(returned);
            if outcome.Prepared? && handle.Ok? && handle.value.Some? then
              && |log| >= |c.server.log| + 2
              && log[|log| - 1].batch == Unprepare(handle.value.value) && log[|log| - 1].ok
              && log[|log| - 2].batch == Prepare(outcome) && log[|log| - 2].ok
            else
              |log| > |c.server.log| && log[|log| - 1].batch == Prepare(outcome) && log[|log| - 1].ok == outcome.Prepared?
  {
    hide Exec, Apply, Flush, Agree, StatementHandles.FirstI32;
    FlushAgreed(c);
    var f := Flush(c).0;
    AgreedNow(f);
    FlushLogs(c);
    SendLogs(f, Prepare(outcome));
    SendAgreed(f, Prepare(outcome));
    var p := Send(f, Prepare(outcome)).0;
    var handle := StatementHandles.FirstI32(returned);
    if outcome.Prepared? && handle.Ok? && handle.value.Some? {
      SendAgreed(p, Unprepare(handle.value.value));
    }
  }

  lemma AgreedNow(c: Conn)
    requires Agree(c)
    ensures ServerSound(c.server) && c.descriptor == c.server.descriptor
  {
  }

  lemma FlushKeepsDepth(c: Conn)
    requires Agree(c)
    ensures Flush(c).1 && Flush(c).0.depth == c.depth && Flush(c).0.pending.None?
  {
    FlushAgreed(c);
  }

  /** Where an operation leaves the depth and the queue: only a successful begin goes deeper, only a successful commit
      or rollback and a dropped transaction come back, and everything that sends empties the queue. */
  lemma DepthAndQueue(c: Conn, op: Op)
    requires Agree(c)
    ensures var (d, ok) := Step(c, op);
            && d.depth ==
                 (match op
                  case Begin(_) => if ok then c.depth + 1 else c.depth
                  case Commit => if ok && c.depth > 0 then c.depth - 1 else c.depth
                  case Rollback => if ok && c.depth > 0 then c.depth - 1 else c.depth
                  case StartRollback => if c.depth > 0 then c.depth - 1 else 0
                  case _ => c.depth)
            && d.pending ==
                 (match op
                  case StartRollback =>
                    if c.depth == 0 then c.pending else Some(if c.depth == 1 then RollbackTran else RollbackToSave)
                  case Commit => if c.depth == 1 then None else c.pending
                  case Rollback => if c.depth == 0 then c.pending else None
                  case _ => None)
  {
    hide Exec, Apply, Flush, Send, Agree, StatementHandles.FirstI32;
    FlushKeepsDepth(c);
    var f := Flush(c).0;
    match op {
      case Begin(_) => SendLogs(f, BeginBatch(c, op.statement));
      case Commit => SendLogs(f, CommitTran);
      case Rollback => SendLogs(f, if c.depth == 1 then RollbackTran else RollbackToSave);
      case StartRollback =>
      case Execute(statement) => SendLogs(f, User(statement));
      case PrepareQuery(outcome, returned) =>
        SendLogs(f, Prepare(outcome));
        var handle := StatementHandles.FirstI32(returned);
        if handle.Ok? && handle.value.Some? {
          SendLogs(Send(f, Prepare(outcome)).0, Unprepare(handle.value.value));
        }
      case Ping =>
    }
  }

  /** Of the changes in a response the last one of each kind counts: the descriptor begun last, or 0 after the end of a
      transaction, and the size announced last, if it lies within 512..32767, or else the nearer bound. */
  lemma {:induction false} LastChangeCounts(c: Conn, changes: seq<EnvChange>, k: nat)
    requires k < |changes|
    ensures changes[k].IsTransactional() && (forall j | k < j < |changes| :: !changes[j].IsTransactional()) ==>
              Apply(c, changes).descriptor == (match changes[k] case BeginTransaction(d) => d case _ => 0)
    ensures changes[k].PacketSize? && (forall j | k < j < |changes| :: !changes[j].PacketSize?) ==>
              var size := Apply(c, changes).packetSize;
              && 512 <= size <= 32767
              && (512 <= changes[k].size <= 32767 ==> size == changes[k].size)
              && (changes[k].size < 512 ==> size == 512) && (changes[k].size > 32767 ==> size == 32767)
    decreases |changes|
  {
    var n := |changes| - 1;
    if k < n {
      LastChangeCounts(c, changes[..n], k);
      assert changes[n] == changes[..][n];
    }
  }

  /** Without such a change the descriptor and the size stay. */
  lemma {:induction false} NoChangeKeeps(c: Conn, changes: seq<EnvChange>)
    ensures (forall change <- changes :: !change.IsTransactional()) ==> Apply(c, changes).descriptor == c.descriptor
    ensures (forall change <- changes :: !change.PacketSize?) ==> Apply(c, changes).packetSize == c.packetSize
    decreases |changes|
  {
    if |changes| > 0 {
      NoChangeKeeps(c, changes[..|changes| - 1]);
      assert changes[|changes| - 1] in changes;
    }
  }
}
