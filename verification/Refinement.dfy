/** Nested transactions as a stack of snapshots, and exactly when the driver implements it. */
module Refinement {
  import opened Wire
  import opened Transaction
  import StatementHandles

  // ---- the specification: eager rollbacks over a stack of snapshots ----

  /** The committed data, the data in view, and the data in view when each open level began. */
  datatype Spec = Spec(durable: Store, current: Store, levels: seq<Store>)

  function Pop(s: Spec): Spec
    requires |s.levels| > 0
  {
    Spec(s.durable, s.levels[|s.levels| - 1], s.levels[..|s.levels| - 1])
  }

  function SpecStep(s: Spec, op: Op): Spec {
    match op
    case Begin(_) => s.(levels := s.levels + [s.current])
    case Commit =>
      if |s.levels| == 0 then s
      else if |s.levels| == 1 then Spec(s.current, s.current, [])
      else s.(levels := s.levels[..|s.levels| - 1])
    case Rollback => if |s.levels| == 0 then s else Pop(s)
    case StartRollback => if |s.levels| == 0 then s else Pop(s)
    case Execute(statement) =>
      var outcome := statement.effect(s.current);
      if !outcome.Aborted? then
        s.(current := outcome.store, durable := if |s.levels| == 0 then outcome.store else s.durable)
      else s
    case PrepareQuery(_, _) => s
    case Ping => s
  }

  function SpecAfter(s: Spec, ops: seq<Op>): Spec
    decreases |ops|
  {
    if |ops| == 0 then s else SpecStep(SpecAfter(s, ops[..|ops| - 1]), ops[|ops| - 1])
  }

  /** Once the queued rollback is flushed, connection and specification show the same data. */
  predicate SameData(c: Conn, s: Spec) {
    && |s.levels| == c.depth
    && Flush(c).0.server.working == s.current
    && Flush(c).0.server.durable == s.durable
  }

  /** SameData after every operation of the run. */
  ghost predicate Faithful(c: Conn, s: Spec, ops: seq<Op>)
    decreases |ops|
  {
    && SameData(After(c, ops), SpecAfter(s, ops))
    && (|ops| > 0 ==> Faithful(c, s, ops[..|ops| - 1]))
  }

  // ---- the caller's bookkeeping ----

  /** What a caller can count: the depth, the level each savepoint on the server was set for,
      and whether a savepoint rollback is queued. */
  datatype Shape = Shape(depth: nat, saves: seq<nat>, queued: bool)

  function DropLast(saves: seq<nat>, keeps: bool): seq<nat> {
    if keeps || |saves| == 0 then saves else saves[..|saves| - 1]
  }

  function Flushed(sh: Shape, keeps: bool): Shape {
    if sh.queued then Shape(sh.depth, DropLast(sh.saves, keeps), false) else sh
  }

  function ShapeStep(sh: Shape, op: Op, keeps: bool): Shape {
    var f := Flushed(sh, keeps);
    match op
    case Begin(_) => Shape(sh.depth + 1, if sh.depth == 0 then [] else f.saves + [sh.depth + 1], false)
    case Commit =>
      if sh.depth == 0 then sh
      else if sh.depth == 1 then Shape(0, [], false)
      else sh.(depth := sh.depth - 1)
    case Rollback =>
      if sh.depth == 0 then sh
      else if sh.depth == 1 then Shape(0, [], false)
      else Shape(sh.depth - 1, DropLast(f.saves, keeps), false)
    case StartRollback =>
      if sh.depth == 0 then sh
      else if sh.depth == 1 then Shape(0, [], false)
      else Shape(sh.depth - 1, sh.saves, true)
    case Execute(_) => f
    case PrepareQuery(_, _) => f
    case Ping => f
  }

  function ShapeAfter(ops: seq<Op>, keeps: bool): Shape
    decreases |ops|
  {
    if |ops| == 0 then Shape(0, [], false)
    else ShapeStep(ShapeAfter(ops[..|ops| - 1], keeps), ops[|ops| - 1], keeps)
  }

  /** Before rolling back an inner level: the newest savepoint the batch will find was set for that level. */
  predicate Guard(sh: Shape, op: Op, keeps: bool) {
    var saves := if op.Rollback? then Flushed(sh, keeps).saves else sh.saves;
    (op.Rollback? || op.StartRollback?) && sh.depth >= 2 ==> |saves| > 0 && saves[|saves| - 1] == sh.depth
  }

  predicate Guarded(ops: seq<Op>, keeps: bool)
    decreases |ops|
  {
    |ops| > 0 ==>
      Guarded(ops[..|ops| - 1], keeps) && Guard(ShapeAfter(ops[..|ops| - 1], keeps), ops[|ops| - 1], keeps)
  }

  // ---- guarded runs are faithful ----

  predicate Newest(saves: seq<nat>, i: nat)
    requires i < |saves|
  {
    forall k | i < k < |saves| :: saves[k] != saves[i]
  }

  /** The newest savepoint set for an open level holds the snapshot of that level. */
  predicate SavesMatch(savepoints: seq<Store>, saves: seq<nat>, levels: seq<Store>) {
    && |savepoints| == |saves|
    && forall i | 0 <= i < |saves| && Newest(saves, i) :: 2 <= saves[i] <= |levels| ==> savepoints[i] == levels[saves[i] - 1]
  }

  /** The data a flush would leave in view. */
  function Visible(c: Conn): Store {
    if c.pending.None? then c.server.working
    else if c.pending.value.RollbackTran? || |c.server.savepoints| == 0 then c.server.durable
    else c.server.savepoints[|c.server.savepoints| - 1]
  }

  lemma VisibleAfterFlush(c: Conn)
    requires Agree(c)
    ensures Flush(c).0.server.working == Visible(c) && Flush(c).0.server.durable == c.server.durable
  {
    FlushAgreed(c);
  }

  /** What ties connection, specification and the caller's bookkeeping together. */
  predicate Linked(c: Conn, s: Spec, sh: Shape, keeps: bool) {
    && c.server.keepsSavepoint == keeps
    && |s.levels| == c.depth == sh.depth
    && s.current == Visible(c) && s.durable == c.server.durable
    && (sh.queued <==> c.pending.Some? && c.pending.value.RollbackToSave?)
    && (c.depth == 0 ==> s.current == s.durable)
    && (c.depth >= 1 ==> s.levels[0] == s.durable && SavesMatch(c.server.savepoints, sh.saves, s.levels))
    && (sh.queued ==> |sh.saves| > 0 && sh.saves[|sh.saves| - 1] > sh.depth >= 1)
  }

  lemma SavesMatchDrop(savepoints: seq<Store>, saves: seq<nat>, levels: seq<Store>)
    requires SavesMatch(savepoints, saves, levels) && |saves| > 0 && saves[|saves| - 1] > |levels|
    ensures SavesMatch(savepoints[..|saves| - 1], saves[..|saves| - 1], levels)
  {
    var fewer := saves[..|saves| - 1];
    forall i | 0 <= i < |fewer| && Newest(fewer, i) && 2 <= fewer[i] <= |levels|
      ensures savepoints[i] == levels[fewer[i] - 1]
    {
      assert Newest(saves, i);
    }
  }

  lemma SavesMatchShrink(savepoints: seq<Store>, saves: seq<nat>, levels: seq<Store>)
    requires SavesMatch(savepoints, saves, levels) && |levels| > 0
    ensures SavesMatch(savepoints, saves, levels[..|levels| - 1])
  {
  }

  lemma SavesMatchPush(savepoints: seq<Store>, saves: seq<nat>, levels: seq<Store>, store: Store)
    requires SavesMatch(savepoints, saves, levels)
    ensures SavesMatch(savepoints + [store], saves + [|levels| + 1], levels + [store])
  {
    var more := saves + [|levels| + 1];
    forall i | 0 <= i < |more| && Newest(more, i) && 2 <= more[i] <= |levels| + 1
      ensures (savepoints + [store])[i] == (levels + [store])[more[i] - 1]
    {
      if i < |saves| {
        assert more[|saves|] == |levels| + 1;
        assert Newest(saves, i) by {
          forall k | i < k < |saves| ensures saves[k] != saves[i] { assert more[k] == saves[k]; }
        }
      }
    }
  }

  // ---- what each operation changes, field by field ----

  lemma FlushEffect(c: Conn)
    requires Agree(c)
    ensures var d := Flush(c).0;
            && Agree(d) && d.pending.None? && d.depth == c.depth
            && d.server.durable == c.server.durable && d.server.working == Visible(c)
            && d.server.keepsSavepoint == c.server.keepsSavepoint
            && (c.depth >= 1 ==>
                  d.server.savepoints == (if c.pending.None? || c.server.keepsSavepoint then c.server.savepoints
                                          else c.server.savepoints[..|c.server.savepoints| - 1]))
  {
    FlushAgreed(c);
  }

  lemma BeginEffect(c: Conn)
    requires Agree(c) && c.pending.None?
    ensures var d := Step(c, Begin(None)).0;
            && d.pending.None? && d.depth == c.depth + 1
            && d.server.working == c.server.working && d.server.durable == c.server.durable
            && d.server.keepsSavepoint == c.server.keepsSavepoint
            && d.server.savepoints == if c.depth == 0 then [] else c.server.savepoints + [c.server.working]
  {
    SendAgreed(c, BeginBatch(c, None));
  }

  lemma RollbackEffect(c: Conn)
    requires Agree(c) && c.pending.None? && c.depth >= 1
    ensures var d := Step(c, Rollback).0;
            && d.pending.None? && d.depth == c.depth - 1
            && d.server.durable == c.server.durable && d.server.keepsSavepoint == c.server.keepsSavepoint
            && (c.depth == 1 ==> d.server.working == c.server.durable)
            && (c.depth >= 2 ==>
                  && |c.server.savepoints| > 0
                  && d.server.working == c.server.savepoints[|c.server.savepoints| - 1]
                  && d.server.savepoints == if c.server.keepsSavepoint then c.server.savepoints
                                            else c.server.savepoints[..|c.server.savepoints| - 1])
  {
    SendAgreed(c, if c.depth == 1 then RollbackTran else RollbackToSave);
  }

  lemma CommitEffect(c: Conn)
    requires Agree(c) && c.pending.None? && c.depth == 1
    ensures var d := Step(c, Commit).0;
            && d.pending.None? && d.depth == 0 && d.server.keepsSavepoint == c.server.keepsSavepoint
            && d.server.working == d.server.durable == c.server.working
  {
    SendAgreed(c, CommitTran);
  }

  lemma RequestEffect(c: Conn, op: Op)
    requires Agree(c) && c.pending.None? && Tame(op)
    requires op.Execute? || op.PrepareQuery? || op.Ping?
    ensures var d := Step(c, op).0;
            var outcome := if op.Execute? then op.user.effect(c.server.working) else Aborted;
            && d.pending.None? && d.depth == c.depth && d.server.keepsSavepoint == c.server.keepsSavepoint
            && d.server.savepoints == c.server.savepoints
            && d.server.working == (if outcome.Aborted? then c.server.working else outcome.store)
            && d.server.durable == (if !outcome.Aborted? && c.depth == 0 then outcome.store else c.server.durable)
  {
    match op {
      case Execute(statement) => SendAgreed(c, User(statement));
      case PrepareQuery(outcome, returned) =>
        hide StatementHandles.FirstI32;
        SendAgreed(c, Prepare(outcome));
        var handle := StatementHandles.FirstI32(returned);
        if outcome.Prepared? && handle.Ok? && handle.value.Some? {
          SendAgreed(Send(c, Prepare(outcome)).0, Unprepare(handle.value.value));
        }
      case _ =>
    }
  }

  // ---- each operation keeps the link ----

  /** Under the guard, the newest savepoint is the snapshot of the level being rolled back. */
  lemma NewestIsCurrentLevel(savepoints: seq<Store>, saves: seq<nat>, levels: seq<Store>)
    requires SavesMatch(savepoints, saves, levels)
    requires |levels| >= 2 && |saves| > 0 && saves[|saves| - 1] == |levels|
    ensures savepoints[|saves| - 1] == levels[|levels| - 1]
  {
    assert Newest(saves, |saves| - 1);
  }

  lemma FlushLinked(c: Conn, s: Spec, sh: Shape, keeps: bool)
    requires Agree(c) && Linked(c, s, sh, keeps)
    ensures Agree(Flush(c).0) && Linked(Flush(c).0, s, Flushed(sh, keeps), keeps)
  {
    FlushEffect(c);
    if sh.queued && !keeps {
      SavesMatchDrop(c.server.savepoints, sh.saves, s.levels);
    }
  }

  lemma BeginLinked(c: Conn, d: Conn, s: Spec, sh: Shape, keeps: bool)
    requires Linked(c, s, sh, keeps) && c.pending.None? && d.pending.None? && d.depth == c.depth + 1
    requires d.server.working == c.server.working && d.server.durable == c.server.durable
    requires d.server.keepsSavepoint == keeps
    requires d.server.savepoints == if c.depth == 0 then [] else c.server.savepoints + [c.server.working]
    ensures Linked(d, s.(levels := s.levels + [s.current]),
                   Shape(sh.depth + 1, if sh.depth == 0 then [] else sh.saves + [sh.depth + 1], false), keeps)
  {
    if c.depth >= 1 {
      SavesMatchPush(c.server.savepoints, sh.saves, s.levels, s.current);
    }
  }

  lemma InnerRollbackLinked(c: Conn, d: Conn, s: Spec, sh: Shape, keeps: bool)
    requires Linked(c, s, sh, keeps) && c.pending.None? && c.depth >= 2
    requires |sh.saves| > 0 && sh.saves[|sh.saves| - 1] == sh.depth
    requires d.pending.None? && d.depth == c.depth - 1
    requires d.server.durable == c.server.durable && d.server.keepsSavepoint == keeps
    requires d.server.working == c.server.savepoints[|c.server.savepoints| - 1]
    requires d.server.savepoints == if keeps then c.server.savepoints else c.server.savepoints[..|c.server.savepoints| - 1]
    ensures Linked(d, Pop(s), Shape(sh.depth - 1, DropLast(sh.saves, keeps), false), keeps)
  {
    hide SavesMatch;
    NewestIsCurrentLevel(c.server.savepoints, sh.saves, s.levels);
    SavesMatchShrink(c.server.savepoints, sh.saves, s.levels);
    if !keeps {
      SavesMatchDrop(c.server.savepoints, sh.saves, Pop(s).levels);
    }
  }

  lemma StartRollbackLinked(c: Conn, s: Spec, sh: Shape, keeps: bool)
    requires Linked(c, s, sh, keeps) && Guard(sh, StartRollback, keeps)
    ensures Linked(QueueRollback(c), SpecStep(s, StartRollback), ShapeStep(sh, StartRollback, keeps), keeps)
  {
    if c.depth >= 2 {
      NewestIsCurrentLevel(c.server.savepoints, sh.saves, s.levels);
      SavesMatchShrink(c.server.savepoints, sh.saves, s.levels);
    }
  }

  lemma InnerCommitLinked(c: Conn, s: Spec, sh: Shape, keeps: bool)
    requires Linked(c, s, sh, keeps) && c.depth != 1
    ensures Linked(Step(c, Commit).0, SpecStep(s, Commit), ShapeStep(sh, Commit, keeps), keeps)
  {
    if c.depth > 1 {
      SavesMatchShrink(c.server.savepoints, sh.saves, s.levels);
    }
  }

  /** Flushing first never changes where an operation that flushes anyway ends up. */
  lemma FlushedStep(c: Conn, op: Op)
    requires Agree(c) && Tame(op)
    requires !op.StartRollback? && !(op.Commit? && c.depth != 1) && !(op.Rollback? && c.depth == 0)
    ensures Step(Flush(c).0, op) == Step(c, op)
  {
    FlushAgreed(c);
  }

  /** One operation from a connection with nothing queued. */
  lemma FlushedStepLinked(c: Conn, s: Spec, sh: Shape, op: Op, keeps: bool)
    requires Agree(c) && Linked(c, s, sh, keeps) && c.pending.None? && Tame(op) && Guard(sh, op, keeps)
    requires !op.StartRollback? && !(op.Commit? && c.depth != 1) && !(op.Rollback? && c.depth == 0)
    ensures Linked(Step(c, op).0, SpecStep(s, op), ShapeStep(sh, op, keeps), keeps)
  {
    var d := Step(c, op).0;
    match op {
      case Begin(_) => BeginEffect(c); BeginLinked(c, d, s, sh, keeps);
      case Commit => CommitEffect(c);
      case Rollback =>
        RollbackEffect(c);
        if c.depth >= 2 { InnerRollbackLinked(c, d, s, sh, keeps); }
      case _ => RequestEffect(c, op);
    }
  }

  lemma StepLinked(c: Conn, s: Spec, sh: Shape, op: Op, keeps: bool)
    requires Agree(c) && Linked(c, s, sh, keeps) && Tame(op) && Guard(sh, op, keeps)
    ensures Linked(Step(c, op).0, SpecStep(s, op), ShapeStep(sh, op, keeps), keeps)
  {
    hide Send, Flush, Tame, SavesMatch;
    if op.StartRollback? {
      StartRollbackLinked(c, s, sh, keeps);
    } else if op.Commit? && c.depth != 1 {
      InnerCommitLinked(c, s, sh, keeps);
    } else if !(op.Rollback? && c.depth == 0) {
      FlushLinked(c, s, sh, keeps);
      FlushedStep(c, op);
      FlushEffect(c);
      FlushedStepLinked(Flush(c).0, s, Flushed(sh, keeps), op, keeps);
      FlushedShapeStep(sh, op, keeps);
    }
  }

  lemma FlushedShapeStep(sh: Shape, op: Op, keeps: bool)
    requires !op.StartRollback? && !(op.Commit? && sh.depth != 1) && !(op.Rollback? && sh.depth == 0)
    ensures ShapeStep(Flushed(sh, keeps), op, keeps) == ShapeStep(sh, op, keeps)
    ensures Guard(sh, op, keeps) ==> Guard(Flushed(sh, keeps), op, keeps)
  {
  }

  function InitialSpec(c: Conn): Spec { Spec(c.server.durable, c.server.durable, []) }

  lemma {:induction false} GuardedRunsLinked(c: Conn, ops: seq<Op>)
    requires Initial(c) && (forall op <- ops :: Tame(op)) && Guarded(ops, c.server.keepsSavepoint)
    ensures Agree(After(c, ops))
    ensures Linked(After(c, ops), SpecAfter(InitialSpec(c), ops), ShapeAfter(ops, c.server.keepsSavepoint), c.server.keepsSavepoint)
    ensures Faithful(c, InitialSpec(c), ops)
    decreases |ops|
  {
    if |ops| > 0 {
      var n, keeps := |ops| - 1, c.server.keepsSavepoint;
      var d := After(c, ops[..n]);
      GuardedRunsLinked(c, ops[..n]);
      AgreementKept(d, ops[n]);
      StepLinked(d, SpecAfter(InitialSpec(c), ops[..n]), ShapeAfter(ops[..n], keeps), ops[n], keeps);
    }
    VisibleAfterFlush(After(c, ops));
  }

  // ---- depth at most two is always guarded ----

  predicate DepthAtMostTwo(ops: seq<Op>, keeps: bool)
    decreases |ops|
  {
    ShapeAfter(ops, keeps).depth <= 2 && (|ops| > 0 ==> DepthAtMostTwo(ops[..|ops| - 1], keeps))
  }

  /** At depth two the newest savepoint is the one set on the way in, and nothing is queued. */
  predicate Shallow(sh: Shape) {
    sh.depth == 2 ==> !sh.queued && |sh.saves| > 0 && sh.saves[|sh.saves| - 1] == 2
  }

  lemma ShallowStep(sh: Shape, op: Op, keeps: bool)
    requires Shallow(sh) && sh.depth <= 2 && ShapeStep(sh, op, keeps).depth <= 2
    ensures Shallow(ShapeStep(sh, op, keeps)) && Guard(sh, op, keeps)
  {
  }

  lemma {:induction false} ShallowRunsGuarded(ops: seq<Op>, keeps: bool)
    requires DepthAtMostTwo(ops, keeps)
    ensures Guarded(ops, keeps) && Shallow(ShapeAfter(ops, keeps))
    decreases |ops|
  {
    if |ops| > 0 {
      ShallowRunsGuarded(ops[..|ops| - 1], keeps);
      ShallowStep(ShapeAfter(ops[..|ops| - 1], keeps), ops[|ops| - 1], keeps);
    }
  }

  /** The headline case: two levels, any statements, any mix of immediate and queued rollbacks. */
  lemma ShallowRunsFaithful(c: Conn, ops: seq<Op>)
    requires Initial(c) && (forall op <- ops :: Tame(op)) && DepthAtMostTwo(ops, c.server.keepsSavepoint)
    ensures Faithful(c, InitialSpec(c), ops)
  {
    ShallowRunsGuarded(ops, c.server.keepsSavepoint);
    GuardedRunsLinked(c, ops);
  }
}
