/** The connection object and the transaction manager that drives it, updated in place. */
module Connection {
  import opened Wire
  import opened EnvChanges
  import opened Transaction
  import Query
  import StatementHandles

  class MssqlConnection {
    var transactionDepth: nat
    var transactionDescriptor: U64
    var pendingRollback: Option<Batch>
    var packetSize: nat
    var server: Server     // the peer, which answers each request before the next one is sent

    function State(): Conn
      reads this
    {
      Conn(transactionDepth, transactionDescriptor, pendingRollback, packetSize, server)
    }

    constructor (server: Server, packetSize: nat, loginChanges: seq<EnvChange>)
      ensures State() == Apply(Conn(0, 0, None, packetSize, server), loginChanges)
    {
      transactionDepth, transactionDescriptor, pendingRollback := 0, 0, None;
      this.packetSize, this.server := packetSize, server;
      new;
      ApplyEnvChanges(loginChanges);
    }

    method ApplyEnvChanges(changes: seq<EnvChange>)
      modifies this
      ensures State() == Apply(old(State()), changes)
      ensures changes != [] && changes[|changes| - 1].PacketSize? ==>
                var size := changes[|changes| - 1].size;
                && 512 <= packetSize <= 32767 && (512 <= size <= 32767 ==> packetSize == size)
    {
      var i := 0;
      while i < |changes|
        invariant i <= |changes|
        invariant State() == Apply(old(State()), changes[..i])
        invariant i > 0 && changes[i - 1].PacketSize? ==>
                    var size := changes[i - 1].size;
                    && 512 <= packetSize <= 32767 && (512 <= size <= 32767 ==> packetSize == size)
      {
        assert changes[..i + 1][..i] == changes[..i];
        match changes[i] {
          case PacketSize(n) => packetSize := if n < 512 then 512 else if n > 32767 then 32767 else n;
          case BeginTransaction(d) => transactionDescriptor := d;
          case CommitTransaction(_) => transactionDescriptor := 0;
          case RollbackTransaction(_) => transactionDescriptor := 0;
          case _ =>
        }
        i := i + 1;
      }
      assert changes[..i] == changes;
    }

    method IncrementDepth()
      modifies this`transactionDepth
      ensures transactionDepth == old(transactionDepth) + 1
    {
      transactionDepth := transactionDepth + 1;
    }

    /** Saturates at zero. */
    method DecrementDepth()
      modifies this`transactionDepth
      ensures transactionDepth == if old(transactionDepth) == 0 then 0 else old(transactionDepth) - 1
    {
      transactionDepth := if transactionDepth == 0 then 0 else transactionDepth - 1;
    }

    /** Sends one request carrying the descriptor held now and takes in its response. */
    method SendDirect(batch: Batch) returns (ok: bool)
      modifies this
      ensures (State(), ok) == Send(old(State()), batch)
    {
      var descriptor := transactionDescriptor;
      var (answered, reply) := Exec(server, descriptor, batch);
      server := answered;
      if reply.ErrorReply? {
        return false;
      }
      ApplyEnvChanges(reply.changes);
      return true;
    }

    method QueueRollbackNow()
      modifies this`transactionDepth, this`pendingRollback
      ensures State() == QueueRollback(old(State()))
    {
      if transactionDepth == 0 {
        return;
      } else if transactionDepth == 1 {
        transactionDepth := 0;
        pendingRollback := Some(RollbackTran);
      } else {
        transactionDepth := transactionDepth - 1;
        pendingRollback := Some(RollbackToSave);
      }
    }

    method FlushPendingRollback() returns (ok: bool)
      modifies this
      ensures (State(), ok) == Flush(old(State()))
    {
      var pending := pendingRollback;
      pendingRollback := None;
      if pending.None? {
        return true;
      }
      ok := SendDirect(pending.value);
    }

    method RunSqlBatch(batch: Batch) returns (ok: bool)
      modifies this
      ensures (State(), ok) == RunBatch(old(State()), batch)
    {
      ok := FlushPendingRollback();
      if ok {
        ok := SendDirect(batch);
      }
    }

    method RunExecuteSql(statement: Statement) returns (ok: bool)
      modifies this
      ensures (State(), ok) == Step(old(State()), Execute(statement))
    {
      ok := RunSqlBatch(User(statement));
    }

    /** `returned` are the return values in the response, if the server accepts the prepare. */
    method RunPrepare(outcome: PrepareOutcome, returned: seq<Query.TypedValue>) returns (ok: bool)
      modifies this
      ensures (State(), ok) == Step(old(State()), PrepareQuery(outcome, returned))
    {
      hide StatementHandles.FirstI32;
      ok := RunSqlBatch(Prepare(outcome));
      if !ok {
        return false;
      }
      var handle := StatementHandles.FirstI32ReturnValue(returned);
      if handle.Err? {
        return false;
      }
      if handle.value.Some? {
        ok := SendDirect(Unprepare(handle.value.value));
      }
    }

    method PingServer() returns (ok: bool)
      modifies this
      ensures (State(), ok) == Step(old(State()), Ping)
    {
      ok := FlushPendingRollback();
    }
  }

  /** SQL Server's transaction manager: sends a batch, then moves the connection's depth. */
  class TransactionManager {
    static method Begin(conn: MssqlConnection, statement: Option<Batch>) returns (ok: bool)
      modifies conn
      ensures (conn.State(), ok) == Step(old(conn.State()), Op.Begin(statement))
    {
      var batch := if statement.Some? then statement.value
                   else if conn.transactionDepth == 0 then BeginTran else SaveTran;
      ok := conn.RunSqlBatch(batch);
      if ok {
        conn.IncrementDepth();
      }
    }

    static method Commit(conn: MssqlConnection) returns (ok: bool)
      modifies conn
      ensures (conn.State(), ok) == Step(old(conn.State()), Op.Commit)
    {
      ok := true;
      if conn.transactionDepth == 1 {
        ok := conn.RunSqlBatch(CommitTran);
        if ok {
          conn.DecrementDepth();
        }
      } else if conn.transactionDepth > 1 {
        conn.DecrementDepth();
      }
    }

    static method Rollback(conn: MssqlConnection) returns (ok: bool)
      modifies conn
      ensures (conn.State(), ok) == Step(old(conn.State()), Op.Rollback)
    {
      ok := true;
      if conn.transactionDepth == 1 {
        ok := conn.RunSqlBatch(RollbackTran);
        if ok {
          conn.transactionDepth := 0;
        }
      } else if conn.transactionDepth > 1 {
        ok := conn.RunSqlBatch(RollbackToSave);
        if ok {
          conn.DecrementDepth();
        }
      }
    }

    static method StartRollback(conn: MssqlConnection)
      modifies conn`transactionDepth, conn`pendingRollback
      ensures conn.State() == Step(old(conn.State()), Op.StartRollback).0
    {
      conn.QueueRollbackNow();
    }
  }
}
