/** Exactly which programs may nest transactions: the guard is necessary as well as sufficient. */
module NestingLimit {
  import opened Wire
  import opened Transaction
  import opened Refinement

  /** The same calls with their statements chosen by `fill`, and one more statement before each begin. */
  function Fill(ops: seq<Op>, fill: nat -> Statement): seq<Op>
    decreases |ops|
  {
    if |ops| == 0 then []
    else
      var n := |ops| - 1;
      var before := Fill(ops[..n], fill);
      match ops[n]
      case Begin(_) => before + [Execute(fill(n))] + [ops[n]]
      case Execute(_) => before + [Execute(fill(n))]
      case _ => before + [ops[n]]
  }

  ghost predicate TameFill(fill: nat -> Statement) {
    forall i: nat :: Tame(Execute(fill(i)))
  }

  /** No custom begin text and no prepare on which the server abandons the transaction. */
  ghost predicate PlainCalls(ops: seq<Op>) {
    forall op <- ops :: (op.Begin? ==> op.statement.None?) && (op.PrepareQuery? ==> !op.outcome.RefusedAborting?)
  }

  lemma Snoc(c: Conn, s: Spec, ops: seq<Op>, op: Op, keeps: bool)
    ensures After(c, ops + [op]) == Step(After(c, ops), op).0
    ensures SpecAfter(s, ops + [op]) == SpecStep(SpecAfter(s, ops), op)
    ensures ShapeAfter(ops + [op], keeps) == ShapeStep(ShapeAfter(ops, keeps), op, keeps)
    ensures Faithful(c, s, ops + [op]) <==>
            Faithful(c, s, ops) && SameData(After(c, ops + [op]), SpecAfter(s, ops + [op]))
    ensures Guarded(ops + [op], keeps) <==> Guarded(ops, keeps) && Guard(ShapeAfter(ops, keeps), op, keeps)
  {
    assert (ops + [op])[..|ops|] == ops;
  }

  lemma ShapeSnoc(ops: seq<Op>, op: Op, keeps: bool)
    ensures ShapeAfter(ops + [op], keeps) == ShapeStep(ShapeAfter(ops, keeps), op, keeps)
    ensures Guarded(ops + [op], keeps) <==> Guarded(ops, keeps) && Guard(ShapeAfter(ops, keeps), op, keeps)
  {
    assert (ops + [op])[..|ops|] == ops;
  }

  lemma StatementShape(sh: Shape, a: Statement, b: Statement, keeps: bool)
    ensures ShapeStep(sh, Execute(a), keeps) == ShapeStep(sh, Execute(b), keeps)
    ensures Guard(sh, Execute(a), keeps)
  {
  }

  lemma StatementThenBeginShape(sh: Shape, a: Statement, begin: Op, keeps: bool)
    requires begin.Begin?
    ensures ShapeStep(ShapeStep(sh, Execute(a), keeps), begin, keeps) == ShapeStep(sh, begin, keeps)
    ensures Guard(sh, begin, keeps) && Guard(ShapeStep(sh, Execute(a), keeps), begin, keeps)
  {
  }

  /** Filling in statements changes neither the bookkeeping nor the guard. */
  lemma {:induction false} FillKeepsShape(ops: seq<Op>, fill: nat -> Statement, keeps: bool)
    ensures ShapeAfter(Fill(ops, fill), keeps) == ShapeAfter(ops, keeps)
    ensures Guarded(Fill(ops, fill), keeps) <==> Guarded(ops, keeps)
    decreases |ops|
  {
    if |ops| > 0 {
      var n := |ops| - 1;
      FillKeepsShape(ops[..n], fill, keeps);
      FillOneMore(ops[..n], ops[n], fill, keeps);
      assert ops == ops[..n] + [ops[n]];
    }
  }

  lemma FillOneMore(ops: seq<Op>, op: Op, fill: nat -> Statement, keeps: bool)
    requires ShapeAfter(Fill(ops, fill), keeps) == ShapeAfter(ops, keeps)
    requires Guarded(Fill(ops, fill), keeps) <==> Guarded(ops, keeps)
    ensures ShapeAfter(Fill(ops + [op], fill), keeps) == ShapeAfter(ops + [op], keeps)
    ensures Guarded(Fill(ops + [op], fill), keeps) <==> Guarded(ops + [op], keeps)
  {
    var before, sh, a := Fill(ops, fill), ShapeAfter(ops, keeps), fill(|ops|);
    assert (ops + [op])[..|ops|] == ops;
    ShapeSnoc(ops, op, keeps);
    if op.Begin? {
      ShapeSnoc(before, Execute(a), keeps);
      ShapeSnoc(before + [Execute(a)], op, keeps);
      StatementThenBeginShape(sh, a, op, keeps);
      StatementShape(sh, a, a, keeps);
    } else if op.Execute? {
      ShapeSnoc(before, Execute(a), keeps);
      StatementShape(sh, a, op.user, keeps);
    } else {
      ShapeSnoc(before, op, keeps);
    }
  }

  lemma {:induction false} FillIsTame(ops: seq<Op>, fill: nat -> Statement)
    requires TameFill(fill) && PlainCalls(ops)
    ensures forall op <- Fill(ops, fill) :: Tame(op)
    decreases |ops|
  {
    if |ops| > 0 {
      var n := |ops| - 1;
      FillIsTame(ops[..n], fill);
      assert ops[n] in ops;
      assert Tame(Execute(fill(n)));
    }
  }

  // ---- a filling that tells any two begins apart ----

  function Stamped(i: int): Store { map[0 := i] }

  function Stamps(): nat -> Statement { (i: nat) => Statement(_ => Done(Stamped(i)), []) }

  predicate Below(store: Store, n: nat) { 0 in store && store[0] < n }

  /** Savepoints and inner levels carry stamps below `n`; a savepoint equals the snapshot of an inner level
      only if it was set for that level. */
  predicate Apart(savepoints: seq<Store>, saves: seq<nat>, levels: seq<Store>, n: nat) {
    && |savepoints| == |saves|
    && (forall i | 0 <= i < |savepoints| :: Below(savepoints[i], n))
    && (forall j | 1 <= j < |levels| :: Below(levels[j], n))
    && (forall i, j | 0 <= i < |savepoints| && 1 <= j < |levels| :: savepoints[i] == levels[j] ==> saves[i] == j + 1)
  }

  lemma ApartPush(savepoints: seq<Store>, saves: seq<nat>, levels: seq<Store>, n: nat)
    requires Apart(savepoints, saves, levels, n)
    ensures Apart(savepoints + [Stamped(n)], saves + [|levels| + 1], levels + [Stamped(n)], n + 1)
  {
    assert Stamped(n)[0] == n;
  }

  lemma ApartPrefix(savepoints: seq<Store>, saves: seq<nat>, levels: seq<Store>, n: nat,
                    savepoints': seq<Store>, saves': seq<nat>, levels': seq<Store>)
    requires Apart(savepoints, saves, levels, n)
    requires savepoints' <= savepoints && saves' <= saves && levels' <= levels && |savepoints'| == |saves'|
    ensures Apart(savepoints', saves', levels', n + 1)
  {
  }

  /** Operations other than begin set no savepoint and open no level. */
  lemma OnlyBeginAdds(c: Conn, s: Spec, sh: Shape, op: Op, keeps: bool)
    requires Agree(c) && Linked(c, s, sh, keeps) && Tame(op) && !op.Begin?
    ensures SpecStep(s, op).levels <= s.levels
    ensures Step(c, op).0.depth >= 1 ==>
              && c.depth >= 1
              && Step(c, op).0.server.savepoints <= c.server.savepoints
              && ShapeStep(sh, op, keeps).saves <= sh.saves
  {
    FlushEffect(c);
    var f := Flush(c).0;
    match op {
      case Commit => if c.depth == 1 { FlushedStep(c, op); CommitEffect(f); }
      case Rollback => if c.depth >= 1 { FlushedStep(c, op); RollbackEffect(f); }
      case StartRollback =>
      case _ => FlushedStep(c, op); RequestEffect(f, op);
    }
  }

  lemma {:induction false} StampedRunsApart(c: Conn, ops: seq<Op>)
    requires Initial(c) && PlainCalls(ops) && Guarded(ops, c.server.keepsSavepoint)
    ensures var run := Fill(ops, Stamps());
            var d, s, sh := After(c, run), SpecAfter(InitialSpec(c), run), ShapeAfter(run, c.server.keepsSavepoint);
            && Agree(d) && Linked(d, s, sh, c.server.keepsSavepoint)
            && (d.depth >= 1 ==> Apart(d.server.savepoints, sh.saves, s.levels, |ops|))
    decreases |ops|
  {
    var fill, keeps := Stamps(), c.server.keepsSavepoint;
    StampsAreTame();
    hide Agree, Linked, Apart, Guard, Tame, Stamps, ShapeStep, SpecStep, Step, Faithful;
    FillKeepsShape(ops, fill, keeps);
    FillIsTame(ops, fill);
    GuardedRunsLinked(c, Fill(ops, fill));
    if |ops| > 0 {
      var n := |ops| - 1;
      StampedRunsApart(c, ops[..n]);
      StampedStep(c, ops, n);
    }
  }

  lemma StampsAreTame()
    ensures TameFill(Stamps())
  {
  }

  lemma StampedStep(c: Conn, ops: seq<Op>, n: nat)
    requires Initial(c) && PlainCalls(ops) && n == |ops| - 1
    requires var run := Fill(ops[..n], Stamps());
             var d, s, sh := After(c, run), SpecAfter(InitialSpec(c), run), ShapeAfter(run, c.server.keepsSavepoint);
             && Agree(d) && Linked(d, s, sh, c.server.keepsSavepoint)
             && (d.depth >= 1 ==> Apart(d.server.savepoints, sh.saves, s.levels, n))
    requires var run := Fill(ops, Stamps());
             var d, s, sh := After(c, run), SpecAfter(InitialSpec(c), run), ShapeAfter(run, c.server.keepsSavepoint);
             Linked(d, s, sh, c.server.keepsSavepoint)
    ensures var run := Fill(ops, Stamps());
            var d, s, sh := After(c, run), SpecAfter(InitialSpec(c), run), ShapeAfter(run, c.server.keepsSavepoint);
            d.depth >= 1 ==> Apart(d.server.savepoints, sh.saves, s.levels, n + 1)
  {
    hide Agree, Linked, Apart, Initial;
    var fill, keeps, s0 := Stamps(), c.server.keepsSavepoint, InitialSpec(c);
    var run := Fill(ops[..n], fill);
    var d, s, sh := After(c, run), SpecAfter(s0, run), ShapeAfter(run, keeps);
    assert ops[n] in ops;
    match ops[n] {
      case Begin(_) =>
        Snoc(c, s0, run, Execute(fill(n)), keeps);
        Snoc(c, s0, run + [Execute(fill(n))], ops[n], keeps);
        StampThenBegin(d, s, sh, n, keeps);
      case Execute(_) =>
        Snoc(c, s0, run, Execute(fill(n)), keeps);
        OtherStepApart(d, s, sh, Execute(fill(n)), n, keeps);
      case _ =>
        Snoc(c, s0, run, ops[n], keeps);
        OtherStepApart(d, s, sh, ops[n], n, keeps);
    }
  }

  lemma OtherStepApart(d: Conn, s: Spec, sh: Shape, op: Op, n: nat, keeps: bool)
    requires Agree(d) && Linked(d, s, sh, keeps) && (d.depth >= 1 ==> Apart(d.server.savepoints, sh.saves, s.levels, n))
    requires Tame(op) && !op.Begin?
    requires Linked(Step(d, op).0, SpecStep(s, op), ShapeStep(sh, op, keeps), keeps)
    ensures Step(d, op).0.depth >= 1 ==>
              Apart(Step(d, op).0.server.savepoints, ShapeStep(sh, op, keeps).saves, SpecStep(s, op).levels, n + 1)
  {
    OnlyBeginAdds(d, s, sh, op, keeps);
    if Step(d, op).0.depth >= 1 {
      ApartPrefix(d.server.savepoints, sh.saves, s.levels, n,
                  Step(d, op).0.server.savepoints, ShapeStep(sh, op, keeps).saves, SpecStep(s, op).levels);
    }
  }

  lemma StampThenBegin(d: Conn, s: Spec, sh: Shape, n: nat, keeps: bool)
    requires Agree(d) && Linked(d, s, sh, keeps) && (d.depth >= 1 ==> Apart(d.server.savepoints, sh.saves, s.levels, n))
    ensures var stamp := Execute(Stamps()(n));
            var b, t, th := Step(Step(d, stamp).0, Begin(None)).0, SpecStep(SpecStep(s, stamp), Begin(None)),
                            ShapeStep(ShapeStep(sh, stamp, keeps), Begin(None), keeps);
            Apart(b.server.savepoints, th.saves, t.levels, n + 1)
  {
    hide Exec, Apply, Perform, SavesMatch, Flush;
    var stamp := Execute(Stamps()(n));
    var e, t, th := Step(d, stamp).0, SpecStep(s, stamp), ShapeStep(sh, stamp, keeps);
    assert Tame(stamp);
    AgreementKept(d, stamp);
    StepLinked(d, s, sh, stamp, keeps);
    FlushEffect(d);
    FlushedStep(d, stamp);
    RequestEffect(Flush(d).0, stamp);
    BeginEffect(e);
    if d.depth >= 1 {
      OnlyBeginAdds(d, s, sh, stamp, keeps);
      ApartTrim(d.server.savepoints, sh.saves, s.levels, n, e.server.savepoints, th.saves);
      ApartPush(e.server.savepoints, th.saves, t.levels, n);
    }
  }

  lemma ApartTrim(savepoints: seq<Store>, saves: seq<nat>, levels: seq<Store>, n: nat,
                  savepoints': seq<Store>, saves': seq<nat>)
    requires Apart(savepoints, saves, levels, n)
    requires savepoints' <= savepoints && saves' <= saves && |savepoints'| == |saves'|
    ensures Apart(savepoints', saves', levels, n)
  {
  }

  lemma WrongSavepoint(savepoints: seq<Store>, saves: seq<nat>, levels: seq<Store>, n: nat)
    requires Apart(savepoints, saves, levels, n) && |savepoints| > 0 && |levels| >= 2
    requires saves[|saves| - 1] != |levels|
    ensures savepoints[|savepoints| - 1] != levels[|levels| - 1]
  {
  }

  lemma UnguardedRollback(d: Conn, s: Spec, sh: Shape, n: nat, keeps: bool)
    requires Agree(d) && Linked(d, s, sh, keeps) && d.pending.None?
    requires d.depth >= 1 ==> Apart(d.server.savepoints, sh.saves, s.levels, n)
    requires !Guard(sh, Rollback, keeps)
    ensures Visible(Step(d, Rollback).0) != SpecStep(s, Rollback).current
  {
    RollbackEffect(d);
    WrongSavepoint(d.server.savepoints, sh.saves, s.levels, n);
  }

  lemma UnguardedStartRollback(d: Conn, s: Spec, sh: Shape, n: nat, keeps: bool)
    requires Agree(d) && Linked(d, s, sh, keeps)
    requires d.depth >= 1 ==> Apart(d.server.savepoints, sh.saves, s.levels, n)
    requires !Guard(sh, StartRollback, keeps)
    ensures Visible(Step(d, StartRollback).0) != SpecStep(s, StartRollback).current
  {
    WrongSavepoint(d.server.savepoints, sh.saves, s.levels, n);
  }

  /** An unguarded inner rollback restores the snapshot of another level. */
  lemma UnguardedRollbackDiffers(d: Conn, s: Spec, sh: Shape, op: Op, n: nat, keeps: bool)
    requires Agree(d) && Linked(d, s, sh, keeps) && (d.depth >= 1 ==> Apart(d.server.savepoints, sh.saves, s.levels, n))
    requires Tame(op) && !Guard(sh, op, keeps)
    ensures !SameData(Step(d, op).0, SpecStep(s, op))
  {
    hide Exec, Apply, Perform, SavesMatch, Newest;
    assert Agree(Step(d, op).0) by { AgreementKept(d, op); }
    if op.Rollback? {
      FlushEffect(d);
      var f, fh := Flush(d).0, Flushed(sh, keeps);
      FlushLinked(d, s, sh, keeps);
      FlushedStep(d, op);
      ApartTrim(d.server.savepoints, sh.saves, s.levels, n, f.server.savepoints, fh.saves);
      UnguardedRollback(f, s, fh, n, keeps);
    } else {
      UnguardedStartRollback(d, s, sh, n, keeps);
    }
    VisibleAfterFlush(Step(d, op).0);
  }

  lemma FaithfulPrefix(c: Conn, s: Spec, ops: seq<Op>, op: Op, fill: nat -> Statement)
    requires Faithful(c, s, Fill(ops + [op], fill))
    ensures Faithful(c, s, Fill(ops, fill))
  {
    var before, a := Fill(ops, fill), fill(|ops|);
    assert (ops + [op])[..|ops|] == ops;
    assert (before + [Execute(a)] + [op])[..|before| + 1] == before + [Execute(a)];
    assert (before + [Execute(a)])[..|before|] == before;
    assert (before + [op])[..|before|] == before;
  }

  lemma FirstUnguardedDiverges(c: Conn, ops: seq<Op>, op: Op)
    requires Initial(c) && PlainCalls(ops) && Guarded(ops, c.server.keepsSavepoint)
    requires op.Rollback? || op.StartRollback?
    requires !Guard(ShapeAfter(ops, c.server.keepsSavepoint), op, c.server.keepsSavepoint)
    ensures !Faithful(c, InitialSpec(c), Fill(ops + [op], Stamps()))
  {
    var fill, keeps, s0 := Stamps(), c.server.keepsSavepoint, InitialSpec(c);
    var run := Fill(ops, fill);
    assert (ops + [op])[..|ops|] == ops;
    StampedRunsApart(c, ops);
    FillKeepsShape(ops, fill, keeps);
    Snoc(c, s0, run, op, keeps);
    UnguardedRollbackDiffers(After(c, run), SpecAfter(s0, run), ShapeAfter(run, keeps), op, |ops|, keeps);
  }

  lemma {:induction false} UnguardedRunsDiverge(c: Conn, ops: seq<Op>)
    requires Initial(c) && PlainCalls(ops) && !Guarded(ops, c.server.keepsSavepoint)
    ensures !Faithful(c, InitialSpec(c), Fill(ops, Stamps()))
    decreases |ops|
  {
    var n := |ops| - 1;
    assert ops == ops[..n] + [ops[n]];
    if Guarded(ops[..n], c.server.keepsSavepoint) {
      FirstUnguardedDiverges(c, ops[..n], ops[n]);
    } else {
      UnguardedRunsDiverge(c, ops[..n]);
      if Faithful(c, InitialSpec(c), Fill(ops, Stamps())) {
        FaithfulPrefix(c, InitialSpec(c), ops[..n], ops[n], Stamps());
      }
    }
  }

  /** The exact condition: a program nests correctly, whatever its statements do, if and only if each inner
      rollback is issued or queued while the newest savepoint belongs to the level it ends. */
  lemma NestingIsFaithfulIff(c: Conn, ops: seq<Op>)
    requires Initial(c) && PlainCalls(ops)
    ensures Guarded(ops, c.server.keepsSavepoint) <==>
            forall fill: nat -> Statement | TameFill(fill) :: Faithful(c, InitialSpec(c), Fill(ops, fill))
  {
    if Guarded(ops, c.server.keepsSavepoint) {
      forall fill: nat -> Statement | TameFill(fill) ensures Faithful(c, InitialSpec(c), Fill(ops, fill)) {
        FillKeepsShape(ops, fill, c.server.keepsSavepoint);
        FillIsTame(ops, fill);
        GuardedRunsLinked(c, Fill(ops, fill));
      }
    } else {
      UnguardedRunsDiverge(c, ops);
      assert TameFill(Stamps());
    }
  }

  const DEPTH_THREE: seq<Op> := [Begin(None), Begin(None), Begin(None), Commit, Rollback]

  lemma DepthThreeUnguarded(keeps: bool)
    ensures !Guarded(DEPTH_THREE, keeps)
  {
    var ops := DEPTH_THREE;
    assert ops[..4][..3][..2][..1][..0] == [];
    assert ops[..4] == [Begin(None), Begin(None), Begin(None), Commit];
    assert ops[..4][..3] == [Begin(None), Begin(None), Begin(None)];
    assert ops[..4][..3][..2] == [Begin(None), Begin(None)];
    assert ops[..4][..3][..2][..1] == [Begin(None)];
    assert ShapeAfter(ops[..4][..3][..2][..1], keeps) == Shape(1, [], false);
    assert ShapeAfter(ops[..4][..3][..2], keeps) == Shape(2, [2], false);
    assert ShapeAfter(ops[..4][..3], keeps) == Shape(3, [2, 3], false);
    assert ShapeAfter(ops[..4], keeps) == Shape(2, [2, 3], false);
  }

  /** A concrete failure at depth three: with a statement that writes its own number before each begin, the inner
      commit leaves its savepoint behind, the rollback of the level around it stops there, and the data seen are
      not those of the specification. */
  lemma DepthThreeFails(c: Conn)
    requires Initial(c)
    ensures TameFill(Stamps())
    ensures !Faithful(c, InitialSpec(c), Fill(DEPTH_THREE, Stamps()))
  {
    DepthThreeUnguarded(c.server.keepsSavepoint);
    UnguardedRunsDiverge(c, DEPTH_THREE);
  }
}
