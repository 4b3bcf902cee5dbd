/**
 The server as its clients see it: a map. The tree that the consumer thread works on, and the answers that verify
 gives about its operations, are those of a map on which the executed operations are carried out in order.
 */
module ServerMap {
  import opened CStrings
  import opened Tree
  import opened TreeDelete
  import opened TreeSharing
  import opened TreeShape
  import TreeRuns
  import opened TaskQueue
  import Replication

  /** The map after the operations, from the empty one. */
  function MapAfter(ops: seq<WriteOp>): TreeRuns.Map {
    TreeRuns.MapAfterRun(map[], ops)
  }

  /** What a map answers to a lookup. */
  function Lookup(m: TreeRuns.Map, key: Key): Option<Data> {
    if key in m then m[key] else None
  }

  /** After every prefix of the log, every search of the tree and its size agree with the map. */
  ghost predicate LogAgrees(ops: seq<WriteOp>) {
    forall i :: 0 <= i <= |ops| ==> TreeRuns.Agrees(Replay(EMPTY, ops[..i]), MapAfter(ops[..i]))
  }

  lemma LogAgreesOneMore(ops: seq<WriteOp>, n: nat)
    requires n + 1 == |ops|
    ensures LogAgrees(ops) <==> LogAgrees(ops[..n]) && TreeRuns.Agrees(Replay(EMPTY, ops), MapAfter(ops))
  {
    assert ops[..n + 1] == ops;
    forall i | 0 <= i <= n ensures ops[..n][..i] == ops[..i] {
    }
    if LogAgrees(ops) {
      forall i | 0 <= i <= n ensures TreeRuns.Agrees(Replay(EMPTY, ops[..n][..i]), MapAfter(ops[..n][..i])) {
        assert TreeRuns.Agrees(Replay(EMPTY, ops[..i]), MapAfter(ops[..i]));
      }
      assert TreeRuns.Agrees(Replay(EMPTY, ops[..n + 1]), MapAfter(ops[..n + 1]));
    }
  }

  /**
   The server's execution of an operation is the call that the tree's theorems are about: of a deletion on any tree, of
   a put on a well-formed one.
   */
  lemma ExecutionIsCall(t: Tree, op: WriteOp)
    requires op.PutOp? ==> WellFormed(t)
    ensures Answer(Apply(PartFour, t, op).0, Apply(PartFour, t, op).1) == TreeRuns.Call(PartFour, t, op)
    ensures Apply(PartFour, t, op).0 == TreeRuns.After(PartFour, t, op)
  {
    match op
    case PutOp(key, value) => NothingSharedWhenWellFormed(t, key, value);
    case DelOp(key) => DelAnswers(PartFour, t, key);
  }

  lemma ExecutionAgreesIff(t: Tree, m: TreeRuns.Map, op: WriteOp)
    requires WellFormed(t) && TreeRuns.Models(t, m)
    ensures var (t', ok) := Apply(PartFour, t, op);
            var (m', ok') := TreeRuns.ApplyToMap(m, op);
            && (TreeRuns.SafeOp(PartFour, t, op) <==> TreeRuns.Agrees(t', m'))
            && (TreeRuns.SafeOp(PartFour, t, op) ==> ok == ok' && WellFormed(t'))
  {
    ExecutionIsCall(t, op);
    TreeRuns.StepAgreesIff(PartFour, t, m, op);
    DelKeepsAnswer(t, m, op);
  }

  /** The answer of an execution is right as soon as the searches before it are. */
  lemma DelKeepsAnswer(t: Tree, m: TreeRuns.Map, op: WriteOp)
    requires TreeRuns.Models(t, m)
    ensures Apply(PartFour, t, op).1 == TreeRuns.ApplyToMap(m, op).1
    ensures TreeRuns.Call(PartFour, t, op).Answer?
    ensures TreeRuns.Call(PartFour, t, op).ok == TreeRuns.ApplyToMap(m, op).1
  {
    if op.DelOp? {
      DelAnswers(PartFour, t, op.key);
    }
  }

  /** The log agrees with the map throughout exactly if every deletion in it is safe when its turn comes. */
  lemma {:induction false} LogAgreesIff(ops: seq<WriteOp>)
    ensures LogAgrees(ops) <==> TreeRuns.SafeRun(PartFour, EMPTY, ops)
    ensures LogAgrees(ops) ==> WellFormed(Replay(EMPTY, ops))
    ensures LogAgrees(ops) ==> Replay(EMPTY, ops) == TreeRuns.AfterRun(PartFour, EMPTY, ops)
    decreases |ops|
  {
    if ops == [] {
      assert ops[..0] == [];
      assert TreeRuns.Agrees(EMPTY, map[]);
    } else {
      var n := |ops| - 1;
      var before, op := ops[..n], ops[n];
      LogAgreesIff(before);
      LogAgreesOneMore(ops, n);
      TreeRuns.AfterRunOneMore(PartFour, EMPTY, before, op);
      assert before + [op] == ops;
      TreeRuns.MapAfterOneMore(map[], before, op);
      if LogAgrees(before) {
        assert before[..n] == before;
        assert TreeRuns.Agrees(Replay(EMPTY, before[..n]), MapAfter(before[..n]));
        ExecutionAgreesIff(Replay(EMPTY, before), MapAfter(before), op);
        ExecutionIsCall(Replay(EMPTY, before), op);
      }
    }
  }

  /** On any log: a put succeeds, and a deletion exactly if a search finds its key in the tree it is executed on. */
  lemma SucceedsIff(ops: seq<WriteOp>, n: nat)
    requires n < |ops|
    ensures Succeeds(ops, n) <==> ops[n].PutOp? || Find(Replay(EMPTY, ops[..n]), ops[n].key).Some?
  {
    if ops[n].DelOp? {
      DelAnswers(PartFour, Replay(EMPTY, ops[..n]), ops[n].key);
    }
  }

  lemma SucceedsAsOnMap(ops: seq<WriteOp>, n: nat)
    requires LogAgrees(ops) && n < |ops|
    ensures Succeeds(ops, n) <==> ops[n].PutOp? || ops[n].key in MapAfter(ops[..n])
  {
    SucceedsIff(ops, n);
    assert TreeRuns.Agrees(Replay(EMPTY, ops[..n]), MapAfter(ops[..n]));
    TreeRuns.GetOfModel(Replay(EMPTY, ops[..n]), MapAfter(ops[..n]), ops[n].key);
  }

  /** Where a log agrees with the map, so do the answers that its tree gives in the end. */
  lemma LogAnswers(ops: seq<WriteOp>)
    requires LogAgrees(ops)
    ensures forall k :: Get(Replay(EMPTY, ops), k) == Lookup(MapAfter(ops), k)
    ensures Size(Replay(EMPTY, ops)) == |MapAfter(ops)|
  {
    assert ops[..|ops|] == ops;
    assert TreeRuns.Agrees(Replay(EMPTY, ops[..|ops|]), MapAfter(ops[..|ops|]));
    forall k ensures Get(Replay(EMPTY, ops), k) == Lookup(MapAfter(ops), k) {
      TreeRuns.GetOfModel(Replay(EMPTY, ops), MapAfter(ops), k);
    }
  }

  /** The operations that a server has executed. */
  function Executed(s: Server): seq<WriteOp>
    requires Shape(s) && 0 <= ExecutedCount(s) <= s.lastAssigned
  {
    Ops(s)[..ExecutedCount(s)]
  }

  lemma StatusOnMap(s: Server, n: nat)
    requires Inv(s) && n < ExecutedCount(s) <= s.lastAssigned && LogAgrees(Executed(s))
    ensures var op, before := Executed(s)[n], MapAfter(Executed(s)[..n]);
            Verify(s, n) == if op.PutOp? || op.key in before then 1 else 2
  {
    VerifyIsTruthful(s, n);
    PrefixSucceeds(Executed(s), Ops(s), n);
    SucceedsAsOnMap(Executed(s), n);
  }

  /**
   A server after any run of its threads, as far as its executed operations are safe on its tree: tree_get
   answers every key as the map after these operations, tree_size counts the map, and verify answers 1 about an executed
   operation exactly if it is a put, or a deletion of a key that was in the map when its turn came, and 2 otherwise.
   */
  lemma ServerAnswersAsMap(run: seq<Action>)
    requires IsRun(START, run)
    ensures var s := After(START, run);
            && 0 <= ExecutedCount(s) <= s.lastAssigned == |EnqueuedBy(run)|
            && Executed(s) == EnqueuedBy(run)[..ExecutedCount(s)]
            && (TreeRuns.SafeRun(PartFour, EMPTY, Executed(s)) ==>
                  && (forall k :: Get(s.tree, k) == Lookup(MapAfter(Executed(s)), k))
                  && Size(s.tree) == |MapAfter(Executed(s))|
                  && forall n :: 0 <= n < ExecutedCount(s) ==>
                       var op, before := Executed(s)[n], MapAfter(Executed(s)[..n]);
                       Verify(s, n) == if op.PutOp? || op.key in before then 1 else 2)
  {
    RunKeepsInv(START, run);
    RunOps(START, run);
    var s := After(START, run);
    assert Ops(START) == [] && [] + EnqueuedBy(run) == EnqueuedBy(run);
    StateAnswersAsMap(s);
  }

  lemma StateAnswersAsMap(s: Server)
    requires Inv(s)
    ensures 0 <= ExecutedCount(s) <= s.lastAssigned
    ensures TreeRuns.SafeRun(PartFour, EMPTY, Executed(s)) ==>
              && (forall k :: Get(s.tree, k) == Lookup(MapAfter(Executed(s)), k))
              && Size(s.tree) == |MapAfter(Executed(s))|
              && forall n :: 0 <= n < ExecutedCount(s) ==>
                   var op, before := Executed(s)[n], MapAfter(Executed(s)[..n]);
                   Verify(s, n) == if op.PutOp? || op.key in before then 1 else 2
  {
    LogAgreesIff(Executed(s));
    if LogAgrees(Executed(s)) {
      LogAnswers(Executed(s));
      forall n | 0 <= n < ExecutedCount(s)
        ensures var op, before := Executed(s)[n], MapAfter(Executed(s)[..n]);
                Verify(s, n) == if op.PutOp? || op.key in before then 1 else 2
      {
        StatusOnMap(s, n);
      }
    }
  }

  /**
   Clients read at the backup. In every history, until a promotion, it answers every key as the map after some prefix
   of the operations that the primary has executed, as far as those are safe.
   */
  lemma BackupAnswersAsMap(events: seq<Replication.Event>)
    requires Replication.IsHistory(Replication.BOOT, events)
    requires !Replication.Outcome(Replication.BOOT, events).phase.Promoted?
    ensures var x := Replication.Outcome(Replication.BOOT, events);
            && Replication.Shown(x) <= ExecutedCount(x.primary) <= |Ops(x.primary)|
            && var shown := Ops(x.primary)[..Replication.Shown(x)];
               TreeRuns.SafeRun(PartFour, EMPTY, shown) ==>
                 forall k :: Get(x.backup.tree, k) == Lookup(MapAfter(shown), k)
  {
    Replication.BackupShowsThePast(events, []);
    var x := Replication.Outcome(Replication.BOOT, events);
    var shown := Ops(x.primary)[..Replication.Shown(x)];
    LogAgreesIff(shown);
    if LogAgrees(shown) {
      LogAnswers(shown);
    }
  }
}
