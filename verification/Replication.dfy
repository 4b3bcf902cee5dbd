/**
 Primary and backup. The consumer of the primary forwards every write that succeeded, synchronously and
 before it releases its locks; the backup runs the same code and queues what it receives. Servers take
 steps in any interleaving, and the primary may crash at any of them.
 */
module Replication {
  import opened CStrings
  import opened Tree
  import TreeDelete
  import opened TaskQueue

  /** Serving: both servers run. PrimaryDown: the primary has crashed. Promoted: the backup has its role. */
  datatype Phase = Serving | PrimaryDown | Promoted

  /**
   What became of the write that the primary is forwarding. Pending: the backup has not queued it. InOrder: the
   backup has queued it, behind the writes forwarded before it and ahead of any other. Late: the primary died
   first, and the backup read the write from its socket after its own promotion, behind writes of clients.
   */
  datatype Delivery = Pending | InOrder | Late

  /** After a crash the field primary keeps the state in which the primary died. */
  datatype System = System(primary: Server, backup: Server, delivery: Delivery, phase: Phase)

  datatype Event =
    | ClientWrite(op: WriteOp)
    | PrimaryConsumes
    | Deliver
    | PrimaryWakes
    | BackupConsumes
    | BackupWakes
    | Crash
    | Promote

  const BOOT := System(START, START, Pending, Serving)

  // ---------------------------------------------------------------- the steps

  predicate Ready(x: System) {
    Shape(x.primary) && Shape(x.backup)
  }

  /** The write that the primary has executed with success, but that has not reached the backup in its place. */
  function InFlight(x: System): Option<WriteOp>
    requires Ready(x)
  {
    if x.delivery.InOrder? then None else Forwarded(x.primary)
  }

  /**
   The forwarding call is synchronous: the backup queues the write once its queue_lock is free, and only
   then does the primary release its own locks. A write in the backup's socket outlives the primary, so it may
   be queued after the crash, and even after the promotion.
   */
  predicate Possible(x: System, e: Event)
    requires Ready(x)
  {
    match e
    case ClientWrite(op) =>
      || (x.phase.Serving? && Enabled(x.primary, Enqueue(op)))
      || (x.phase.Promoted? && Enabled(x.backup, Enqueue(op)))
    case PrimaryConsumes =>
      && x.phase.Serving?
      && Enabled(x.primary, Consume)
      && InFlight(x).None?
    case Deliver =>
      && x.delivery.Pending?
      && InFlight(x).Some?
      && Enabled(x.backup, Enqueue(InFlight(x).value))
    case PrimaryWakes => x.phase.Serving? && Enabled(x.primary, WakeUnasked)
    case BackupConsumes => Enabled(x.backup, Consume)
    case BackupWakes => Enabled(x.backup, WakeUnasked)
    case Crash => x.phase.Serving?
    case Promote => x.phase.PrimaryDown?
  }

  function Next(x: System, e: Event): (r: System)
    requires Ready(x) && Possible(x, e)
    ensures Ready(r)
  {
    match e
    case ClientWrite(op) =>
      if x.phase.Serving? then x.(primary := EnqueueStep(x.primary, op)) else x.(backup := EnqueueStep(x.backup, op))
    case PrimaryConsumes => x.(primary := ConsumeStep(x.primary), delivery := Pending)
    case Deliver =>
      x.(backup := EnqueueStep(x.backup, InFlight(x).value),
         delivery := if x.phase.Promoted? then Late else InOrder)
    case PrimaryWakes => x.(primary := Step(x.primary, WakeUnasked))
    case BackupConsumes => x.(backup := ConsumeStep(x.backup))
    case BackupWakes => x.(backup := Step(x.backup, WakeUnasked))
    case Crash => x.(phase := PrimaryDown)
    case Promote => x.(phase := Promoted)
  }

  predicate IsHistory(x: System, events: seq<Event>)
    requires Ready(x)
    decreases |events|
  {
    events == [] || (Possible(x, events[0]) && IsHistory(Next(x, events[0]), events[1..]))
  }

  function Outcome(x: System, events: seq<Event>): (r: System)
    requires Ready(x) && IsHistory(x, events)
    ensures Ready(r)
    decreases |events|
  {
    if events == [] then x else Outcome(Next(x, events[0]), events[1..])
  }

  // ---------------------------------------------------------------- logs of successful operations

  /** The operations that succeed when the log is executed in order from the empty tree. */
  function Successes(ops: seq<WriteOp>): seq<WriteOp>
    decreases |ops|
  {
    if ops == [] then []
    else
      var n := |ops| - 1;
      Successes(ops[..n]) + if Succeeds(ops, n) then [ops[n]] else []
  }

  /** Dropping the failed operations from a log does not change the tree that it produces. */
  lemma {:induction false} DroppingFailuresKeepsTree(ops: seq<WriteOp>)
    ensures Replay(EMPTY, Successes(ops)) == Replay(EMPTY, ops)
    decreases |ops|
  {
    if ops != [] {
      var n := |ops| - 1;
      DroppingFailuresKeepsTree(ops[..n]);
      if Succeeds(ops, n) {
        assert Successes(ops)[..|Successes(ops)| - 1] == Successes(ops[..n]);
      } else {
        assert Successes(ops) == Successes(ops[..n]);
        TreeDelete.DelAnswers(PartFour, Replay(EMPTY, ops[..n]), ops[n].key);
      }
    }
  }

  /** In a log of successes every operation succeeds again. */
  lemma {:induction false} SuccessesSucceed(ops: seq<WriteOp>, m: nat)
    requires m < |Successes(ops)|
    ensures Succeeds(Successes(ops), m)
    decreases |ops|
  {
    var n := |ops| - 1;
    var log := Successes(ops);
    var before := Successes(ops[..n]);
    if m < |before| {
      SuccessesSucceed(ops[..n], m);
      PrefixSucceeds(before, log, m);
    } else {
      DroppingFailuresKeepsTree(ops[..n]);
      assert log[..m] == before;
    }
  }

  lemma {:induction false} SuccessesOfPrefix(ops: seq<WriteOp>, n: nat)
    requires n <= |ops|
    ensures Successes(ops[..n]) <= Successes(ops)
    ensures n < |ops| && Succeeds(ops, n) ==>
              && |Successes(ops[..n])| < |Successes(ops)|
              && Successes(ops)[|Successes(ops[..n])|] == ops[n]
    decreases |ops|
  {
    if n < |ops| {
      var last := |ops| - 1;
      SuccessesOfPrefix(ops[..last], n);
      assert ops[..last][..n] == ops[..n];
      if n < last {
        PrefixSucceeds(ops[..last], ops, n);
      }
    } else {
      assert ops[..n] == ops;
    }
  }

  lemma SuccessesSnoc(ops: seq<WriteOp>, n: nat)
    requires n < |ops|
    ensures Successes(ops[..n + 1]) == Successes(ops[..n]) + if Succeeds(ops, n) then [ops[n]] else []
  {
    assert ops[..n + 1][..n] == ops[..n];
    PrefixSucceeds(ops[..n + 1], ops, n);
  }

  predicate AllSucceed(ops: seq<WriteOp>) {
    forall i :: 0 <= i < |ops| ==> Succeeds(ops, i)
  }

  lemma AllSucceedSnoc(ops: seq<WriteOp>, n: nat)
    requires n == |ops| - 1
    ensures AllSucceed(ops) <==> AllSucceed(ops[..n]) && Succeeds(ops, n)
  {
    forall i | 0 <= i < n ensures Succeeds(ops[..n], i) == Succeeds(ops, i) {
      PrefixSucceeds(ops[..n], ops, i);
    }
    assert forall i :: 0 <= i < |ops[..n]| ==> Succeeds(ops[..n], i) == Succeeds(ops, i);
  }

  lemma {:induction false} SuccessCount(ops: seq<WriteOp>)
    ensures |Successes(ops)| <= |ops|
    ensures |Successes(ops)| == |ops| <==> AllSucceed(ops)
    decreases |ops|
  {
    if ops != [] {
      SuccessCount(ops[..|ops| - 1]);
      AllSucceedSnoc(ops, |ops| - 1);
    }
  }

  // ---------------------------------------------------------------- the invariant of every history

  /** The number of executed tasks that the backup no longer misses. */
  function SentCount(x: System): int
    requires Ready(x)
  {
    if InFlight(x).Some? then x.primary.opCount else ExecutedCount(x.primary)
  }

  /** The operation stands in the log at place n or behind it. */
  ghost predicate OccursFrom(ops: seq<WriteOp>, n: nat, op: WriteOp) {
    exists i :: n <= i < |ops| && ops[i] == op
  }

  /**
   The backup has queued exactly the successes sent to it, in order. After its promotion more may follow,
   and the write that came late is among these.
   */
  ghost predicate SystemInv(x: System) {
    && Inv(x.primary)
    && Inv(x.backup)
    && (!x.delivery.Pending? ==> Forwarded(x.primary).Some?)
    && (x.delivery.Late? ==> x.phase.Promoted?)
    && var sent := Successes(Ops(x.primary)[..SentCount(x)]);
       && (if x.phase.Promoted? then sent <= Ops(x.backup) else sent == Ops(x.backup))
       && (x.delivery.Late? ==> OccursFrom(Ops(x.backup), |sent|, Forwarded(x.primary).value))
  }

  lemma ForwardedIfSucceeded(p: Server)
    requires Inv(p) && p.pc.Executed?
    ensures Forwarded(p) == if Succeeds(Ops(p), p.opCount) then Some(Ops(p)[p.opCount]) else None
  {
    assert p.queue[p.opCount].isDone == DueStatus(Ops(p), ExecutedCount(p), p.opCount);
  }

  /** The operations of a log that an option adds. */
  function Just(op: Option<WriteOp>): seq<WriteOp> {
    match op case None => [] case Some(x) => [x]
  }

  lemma SuccessesWithForwarded(ops: seq<WriteOp>, n: nat, forwarded: Option<WriteOp>)
    requires n < |ops| && forwarded == if Succeeds(ops, n) then Some(ops[n]) else None
    ensures Successes(ops[..n + 1]) == Successes(ops[..n]) + Just(forwarded)
  {
    SuccessesSnoc(ops, n);
  }

  /** The successes so far are those sent, and the one in flight if there is one. */
  lemma ExecutedSuccesses(x: System)
    requires Ready(x) && Inv(x.primary)
    ensures var p := x.primary;
            Successes(Ops(p)[..ExecutedCount(p)]) == Successes(Ops(p)[..SentCount(x)]) + Just(InFlight(x))
  {
    if InFlight(x).Some? {
      ForwardedIfSucceeded(x.primary);
      SuccessesWithForwarded(Ops(x.primary), x.primary.opCount, InFlight(x));
    }
  }

  lemma SentBeforeExecution(x: System)
    requires SystemInv(x) && Possible(x, PrimaryConsumes) && ConsumeStep(x.primary).pc.Executed?
    ensures SentCount(x) == x.primary.opCount < |Ops(x.primary)|
    ensures Inv(ConsumeStep(x.primary)) && Ops(ConsumeStep(x.primary)) == Ops(x.primary)
  {
    ConsumeKeepsInv(x.primary);
  }

  lemma SentAfterSuccess(x: System)
    requires Ready(x) && x.primary.pc.Executed? && x.delivery.Pending? && Forwarded(x.primary).Some?
    ensures SentCount(x) == x.primary.opCount
  {
  }

  lemma SentAfterFailure(x: System)
    requires Ready(x) && Inv(x.primary) && x.primary.pc.Executed? && Forwarded(x.primary).None?
    ensures SentCount(x) == x.primary.opCount + 1
    ensures Successes(Ops(x.primary)[..SentCount(x)]) == Successes(Ops(x.primary)[..x.primary.opCount])
  {
    ForwardedIfSucceeded(x.primary);
    SuccessesWithForwarded(Ops(x.primary), x.primary.opCount, None);
  }

  /** An operation just executed is in flight if it succeeded; one that failed adds nothing to the successes. */
  lemma ExecutionSendsNothing(x: System)
    requires SystemInv(x) && Possible(x, PrimaryConsumes) && ConsumeStep(x.primary).pc.Executed?
    ensures Successes(Ops(x.primary)[..SentCount(Next(x, PrimaryConsumes))]) ==
            Successes(Ops(x.primary)[..SentCount(x)])
  {
    var x' := Next(x, PrimaryConsumes);
    SentBeforeExecution(x);
    if Forwarded(x'.primary).Some? {
      SentAfterSuccess(x');
    } else {
      SentAfterFailure(x');
    }
  }

  lemma PrimaryConsumeKeepsInv(x: System)
    requires SystemInv(x) && Possible(x, PrimaryConsumes)
    ensures SystemInv(Next(x, PrimaryConsumes))
  {
    ConsumeKeepsInv(x.primary);
    if ConsumeStep(x.primary).pc.Executed? {
      ExecutionSendsNothing(x);
    } else {
      assert SentCount(Next(x, PrimaryConsumes)) == SentCount(x);
    }
  }

  lemma DeliverKeepsInv(x: System)
    requires SystemInv(x) && Possible(x, Deliver)
    ensures SystemInv(Next(x, Deliver))
  {
    var x' := Next(x, Deliver);
    EnqueueKeepsInv(x.backup, InFlight(x).value);
    if x.phase.Promoted? {
      assert SentCount(x') == SentCount(x);
      assert Ops(x'.backup)[|Ops(x.backup)|] == Forwarded(x.primary).value;
    } else {
      ExecutedSuccesses(x);
      assert SentCount(x') == ExecutedCount(x.primary);
    }
  }

  lemma ClientWriteKeepsInv(x: System, op: WriteOp)
    requires SystemInv(x) && Possible(x, ClientWrite(op))
    ensures SystemInv(Next(x, ClientWrite(op)))
  {
    var x' := Next(x, ClientWrite(op));
    if x.phase.Serving? {
      var n := SentCount(x);
      EnqueueKeepsInv(x.primary, op);
      assert SentCount(x') == n;
      assert (Ops(x.primary) + [op])[..n] == Ops(x.primary)[..n];
    } else {
      EnqueueKeepsInv(x.backup, op);
      assert SentCount(x') == SentCount(x);
      if x.delivery.Late? {
        var n := |Successes(Ops(x.primary)[..SentCount(x)])|;
        var i :| n <= i < |Ops(x.backup)| && Ops(x.backup)[i] == Forwarded(x.primary).value;
        assert Ops(x'.backup)[i] == Forwarded(x.primary).value;
      }
    }
  }

  lemma BackupStepKeepsInv(x: System, a: Action)
    requires SystemInv(x) && Enabled(x.backup, a) && !a.Enqueue?
    ensures SystemInv(x.(backup := Step(x.backup, a)))
  {
    StepKeepsInv(x.backup, a);
  }

  lemma PrimaryWakeKeepsInv(x: System)
    requires SystemInv(x) && Possible(x, PrimaryWakes)
    ensures SystemInv(Next(x, PrimaryWakes))
  {
    StepKeepsInv(x.primary, WakeUnasked);
    assert SentCount(Next(x, PrimaryWakes)) == SentCount(x);
  }

  lemma NextKeepsInv(x: System, e: Event)
    requires SystemInv(x) && Possible(x, e)
    ensures SystemInv(Next(x, e))
  {
    match e
    case ClientWrite(op) => ClientWriteKeepsInv(x, op);
    case PrimaryConsumes => PrimaryConsumeKeepsInv(x);
    case Deliver => DeliverKeepsInv(x);
    case PrimaryWakes => PrimaryWakeKeepsInv(x);
    case BackupConsumes => BackupStepKeepsInv(x, Consume);
    case BackupWakes => BackupStepKeepsInv(x, WakeUnasked);
    case Crash => assert SentCount(Next(x, e)) == SentCount(x);
    case Promote => assert SentCount(Next(x, e)) == SentCount(x);
  }

  lemma {:induction false} HistoryKeepsInv(x: System, events: seq<Event>)
    requires SystemInv(x) && IsHistory(x, events)
    ensures SystemInv(Outcome(x, events))
    decreases |events|
  {
    if events != [] {
      NextKeepsInv(x, events[0]);
      HistoryKeepsInv(Next(x, events[0]), events[1..]);
    }
  }

  lemma BootInv()
    ensures SystemInv(BOOT)
  {
    assert Ops(START) == [];
  }

  // ---------------------------------------------------------------- the theorems

  /**
   Replica agreement. In every history, until a promotion, the backup's queue is the primary's successful
   operations in id order, but for one in flight; and the backup, once it has drained its queue, holds the
   very tree of the primary, or the tree that the operation in flight will turn into it.
   */
  lemma ReplicasAgree(events: seq<Event>)
    requires IsHistory(BOOT, events) && !Outcome(BOOT, events).phase.Promoted?
    ensures var x := Outcome(BOOT, events);
            var p, b := x.primary, x.backup;
            && 0 <= ExecutedCount(p) <= |Ops(p)|
            && Successes(Ops(p)[..ExecutedCount(p)]) == Ops(b) + Just(InFlight(x))
            && match InFlight(x)
               case None => Drained(b).tree == p.tree
               case Some(op) => TreeDelete.Apply(PartFour, Drained(b).tree, op) == (p.tree, true)
  {
    BootInv();
    HistoryKeepsInv(BOOT, events);
    DrainedBackup(Outcome(BOOT, events));
  }

  lemma DrainedTree(x: System)
    requires SystemInv(x) && !x.phase.Promoted?
    ensures Drained(x.backup).tree == Replay(EMPTY, Ops(x.primary)[..SentCount(x)])
  {
    QueueDrains(x.backup);
    DroppingFailuresKeepsTree(Ops(x.primary)[..SentCount(x)]);
  }

  /** What the operation in flight makes of the tree that was sent. */
  lemma TreeOfInFlight(x: System)
    requires Ready(x) && Inv(x.primary) && InFlight(x).Some?
    ensures TreeDelete.Apply(PartFour, Replay(EMPTY, Ops(x.primary)[..SentCount(x)]), InFlight(x).value) ==
            (x.primary.tree, true)
  {
    var p := x.primary;
    ForwardedIfSucceeded(p);
    assert Ops(p)[..p.opCount + 1][..p.opCount] == Ops(p)[..p.opCount];
  }

  lemma DrainedBackup(x: System)
    requires SystemInv(x) && !x.phase.Promoted?
    ensures var p, b := x.primary, x.backup;
            && Successes(Ops(p)[..ExecutedCount(p)]) == Ops(b) + Just(InFlight(x))
            && match InFlight(x)
               case None => Drained(b).tree == p.tree
               case Some(op) => TreeDelete.Apply(PartFour, Drained(b).tree, op) == (p.tree, true)
  {
    ExecutedSuccesses(x);
    DrainedTree(x);
    if InFlight(x).Some? {
      TreeOfInFlight(x);
    }
  }

  /**
   A crash loses at most one applied operation. Whatever the promoted backup does later, its log starts
   with all the operations that succeeded on the dead primary, or with all of them but the last. If the last
   one reached the backup after the promotion, it is in the log too, behind its place.
   */
  lemma CrashLosesAtMostOne(events: seq<Event>)
    requires IsHistory(BOOT, events) && Outcome(BOOT, events).phase.Promoted?
    ensures var x := Outcome(BOOT, events);
            var applied := Successes(Ops(x.primary)[..ExecutedCount(x.primary)]);
            || applied <= Ops(x.backup)
            || (&& InFlight(x).Some?
                && applied != []
                && applied[|applied| - 1] == InFlight(x).value
                && applied[..|applied| - 1] <= Ops(x.backup)
                && (x.delivery.Late? ==> OccursFrom(Ops(x.backup), |applied| - 1, InFlight(x).value)))
  {
    BootInv();
    HistoryKeepsInv(BOOT, events);
    var x := Outcome(BOOT, events);
    ExecutedSuccesses(x);
  }

  // ---------------------------------------------------------------- what can always go on

  /**
   The synchronous forwarding never blocks for good: the backup can take the write at once, or after one turn of its
   own consumer, and then a primary that still runs can go on.
   */
  lemma ForwardingGetsThrough(x: System)
    requires SystemInv(x) && x.phase.Serving? && InFlight(x).Some?
    ensures !Possible(x, PrimaryConsumes)
    ensures x.backup.pc != Executed ==>
              Possible(x, Deliver) && Possible(Next(x, Deliver), PrimaryConsumes)
    ensures x.backup.pc == Executed ==>
              && Possible(x, BackupConsumes)
              && var y := Next(x, BackupConsumes);
                 Possible(y, Deliver) && Possible(Next(y, Deliver), PrimaryConsumes)
  {
  }

  /** A consumer that sleeps without a signal may wake at any time, at either server, and nothing comes of it. */
  lemma WakingIsHarmless(x: System)
    requires SystemInv(x)
    ensures x.phase.Serving? && x.primary.pc == Sleeping(false) && x.delivery.Pending? ==>
              && Possible(x, PrimaryWakes)
              && Possible(Next(x, PrimaryWakes), PrimaryConsumes)
              && Next(Next(x, PrimaryWakes), PrimaryConsumes) == x
    ensures x.backup.pc == Sleeping(false) ==>
              && Possible(x, BackupWakes)
              && Possible(Next(x, BackupWakes), BackupConsumes)
              && Next(Next(x, BackupWakes), BackupConsumes) == x
  {
  }

  // ---------------------------------------------------------------- reading at the backup

  /** The length of the shortest prefix of a log that contains m successes, all of the log if it has fewer. */
  function Reaching(ops: seq<WriteOp>, m: nat): (k: nat)
    ensures k <= |ops|
    decreases |ops|
  {
    if ops == [] || m > |Successes(ops[..|ops| - 1])| then |ops| else Reaching(ops[..|ops| - 1], m)
  }

  lemma {:induction false} ReachingHasSuccesses(ops: seq<WriteOp>, m: nat)
    requires m <= |Successes(ops)|
    ensures Successes(ops[..Reaching(ops, m)]) == Successes(ops)[..m]
    decreases |ops|
  {
    var k := Reaching(ops, m);
    if k == |ops| {
      assert ops[..k] == ops;
    } else {
      var before := ops[..|ops| - 1];
      ReachingHasSuccesses(before, m);
      assert before[..k] == ops[..k];
    }
  }

  /** As a log grows the prefix stays where it is, and more successes need a longer one. */
  lemma {:induction false} ReachingGrows(ops: seq<WriteOp>, more: seq<WriteOp>, m: nat, m': nat)
    requires ops <= more && m <= |Successes(ops)| && m <= m'
    ensures Reaching(ops, m) == Reaching(more, m) <= Reaching(more, m')
    decreases |more|
  {
    if |ops| < |more| {
      var before := more[..|more| - 1];
      SuccessesOfPrefix(before, |ops|);
      assert before[..|ops|] == ops;
      ReachingGrows(ops, before, m, m');
    } else {
      assert ops == more;
      if ops != [] && m' <= |Successes(ops[..|ops| - 1])| {
        ReachingGrows(ops[..|ops| - 1], ops[..|ops| - 1], m, m');
      }
    }
  }

  /** The part of the primary's log that the backup's tree shows. */
  function Shown(x: System): nat
    requires Ready(x)
  {
    Reaching(Ops(x.primary), ExecutedCount(x.backup))
  }

  lemma ReachingIn(ops: seq<WriteOp>, n: nat, m: nat)
    requires n <= |ops| && m <= |Successes(ops[..n])|
    ensures m <= |Successes(ops)| && Reaching(ops, m) <= n
    ensures Replay(EMPTY, ops[..Reaching(ops, m)]) == Replay(EMPTY, Successes(ops[..n])[..m])
  {
    SuccessesOfPrefix(ops, n);
    ReachingGrows(ops[..n], ops, m, m);
    ReachingHasSuccesses(ops, m);
    assert Successes(ops)[..m] == Successes(ops[..n])[..m];
    DroppingFailuresKeepsTree(ops[..Reaching(ops, m)]);
  }

  lemma ShownTree(x: System)
    requires SystemInv(x) && !x.phase.Promoted?
    ensures Shown(x) <= ExecutedCount(x.primary) <= |Ops(x.primary)|
    ensures ExecutedCount(x.backup) <= |Successes(Ops(x.primary))|
    ensures x.backup.tree == Replay(EMPTY, Ops(x.primary)[..Shown(x)])
  {
    ReachingIn(Ops(x.primary), SentCount(x), ExecutedCount(x.backup));
  }

  /** Logs only grow, the backup never undoes an execution, and a promotion is for good. */
  lemma NextGrows(x: System, e: Event)
    requires SystemInv(x) && Possible(x, e)
    ensures Ops(x.primary) <= Ops(Next(x, e).primary)
    ensures ExecutedCount(x.backup) <= ExecutedCount(Next(x, e).backup)
    ensures x.phase.Promoted? ==> Next(x, e).phase.Promoted?
  {
    match e
    case ClientWrite(op) =>
      if x.phase.Serving? {
        EnqueueKeepsInv(x.primary, op);
      }
    case PrimaryConsumes => ConsumeKeepsInv(x.primary);
    case PrimaryWakes => StepKeepsInv(x.primary, WakeUnasked);
    case _ =>
  }

  lemma {:induction false} HistoryGrows(x: System, events: seq<Event>)
    requires SystemInv(x) && IsHistory(x, events)
    ensures var y := Outcome(x, events);
            && Ops(x.primary) <= Ops(y.primary)
            && ExecutedCount(x.backup) <= ExecutedCount(y.backup)
            && (x.phase.Promoted? ==> y.phase.Promoted?)
    decreases |events|
  {
    if events != [] {
      NextGrows(x, events[0]);
      NextKeepsInv(x, events[0]);
      HistoryGrows(Next(x, events[0]), events[1..]);
    }
  }

  /**
   Clients read at the backup. What they see may be old but was never wrong, and never goes back: at every moment
   the backup's tree is the tree that the primary had after executing some prefix of its log, and at a
   later moment of the same history that prefix is no shorter.
   */
  lemma BackupShowsThePast(events: seq<Event>, more: seq<Event>)
    requires IsHistory(BOOT, events) && IsHistory(Outcome(BOOT, events), more)
    requires !Outcome(Outcome(BOOT, events), more).phase.Promoted?
    ensures var x := Outcome(BOOT, events);
            var y := Outcome(x, more);
            && Ops(x.primary) <= Ops(y.primary)
            && Shown(x) <= ExecutedCount(x.primary) <= |Ops(x.primary)|
            && Shown(y) <= ExecutedCount(y.primary) <= |Ops(y.primary)|
            && x.backup.tree == Replay(EMPTY, Ops(x.primary)[..Shown(x)])
            && y.backup.tree == Replay(EMPTY, Ops(y.primary)[..Shown(y)])
            && Shown(x) <= Shown(y)
  {
    BootInv();
    HistoryKeepsInv(BOOT, events);
    var x := Outcome(BOOT, events);
    HistoryKeepsInv(x, more);
    HistoryGrows(x, more);
    var y := Outcome(x, more);
    ShownTree(x);
    ShownTree(y);
    ReachingGrows(Ops(x.primary), Ops(y.primary), ExecutedCount(x.backup), ExecutedCount(y.backup));
  }

  /** Every operation that reaches the backup succeeds there, so verify at the backup never answers 2. */
  lemma BackupNeverFails(events: seq<Event>, opN: int)
    requires IsHistory(BOOT, events) && !Outcome(BOOT, events).phase.Promoted?
    ensures Verify(Outcome(BOOT, events).backup, opN) in {-1, 0, 1}
  {
    BootInv();
    HistoryKeepsInv(BOOT, events);
    var x := Outcome(BOOT, events);
    VerifyIsTruthful(x.backup, opN);
    if 0 <= opN < x.backup.lastAssigned {
      SuccessesSucceed(Ops(x.primary)[..SentCount(x)], opN);
    }
  }

  /**
   The id that a forwarded operation gets at the backup: the number of successes before it. It is the id
   that the primary gave it exactly when no earlier operation failed.
   */
  lemma IdTranslation(events: seq<Event>, n: nat)
    requires IsHistory(BOOT, events)
    requires var x := Outcome(BOOT, events); n < SentCount(x) && Verify(x.primary, n) == 1
    ensures var x := Outcome(BOOT, events);
            var ops := Ops(x.primary);
            && n < |ops|
            && var id := |Successes(ops[..n])|;
               && id < |Ops(x.backup)|
               && Ops(x.backup)[id] == ops[n]
               && (id == n <==> AllSucceed(ops[..n]))
  {
    BootInv();
    HistoryKeepsInv(BOOT, events);
    PlaceAtBackup(Outcome(BOOT, events), n);
  }

  lemma PlaceAtBackup(x: System, n: nat)
    requires SystemInv(x) && n < SentCount(x) && Verify(x.primary, n) == 1
    ensures var ops := Ops(x.primary);
            && n < |ops|
            && var id := |Successes(ops[..n])|;
               && id < |Ops(x.backup)|
               && Ops(x.backup)[id] == ops[n]
               && (id == n <==> AllSucceed(ops[..n]))
  {
    VerifyIsTruthful(x.primary, n);
    PlaceInLog(Ops(x.primary), SentCount(x), n);
  }

  /** The place of operation n among the successes of a longer log. */
  lemma PlaceInLog(ops: seq<WriteOp>, sent: nat, n: nat)
    requires n < sent <= |ops| && Succeeds(ops, n)
    ensures var log, id := Successes(ops[..sent]), |Successes(ops[..n])|;
            id < |log| && log[id] == ops[n] && (id == n <==> AllSucceed(ops[..n]))
  {
    PrefixSucceeds(ops[..sent], ops, n);
    SuccessesOfPrefix(ops[..sent], n);
    assert ops[..sent][..n] == ops[..n];
    SuccessCount(ops[..n]);
  }

  /**
   An operation that the primary reports as done stands in the backup's queue, under the number of successes before
   it, unless it is the one in flight.
   */
  lemma DoneMeansReplicated(events: seq<Event>, n: nat)
    requires IsHistory(BOOT, events) && Verify(Outcome(BOOT, events).primary, n) == 1
    ensures var x := Outcome(BOOT, events);
            var ops := Ops(x.primary);
            && n < |ops|
            && var id := |Successes(ops[..n])|;
               || (id < |Ops(x.backup)| && Ops(x.backup)[id] == ops[n])
               || InFlight(x) == Some(ops[n])
  {
    BootInv();
    HistoryKeepsInv(BOOT, events);
    var x := Outcome(BOOT, events);
    if n < SentCount(x) {
      PlaceAtBackup(x, n);
    } else {
      DoneButNotSent(x, n);
    }
  }

  lemma DoneButNotSent(x: System, n: nat)
    requires Ready(x) && Inv(x.primary) && Verify(x.primary, n) == 1 && n >= SentCount(x)
    ensures n < |Ops(x.primary)| && InFlight(x) == Some(Ops(x.primary)[n])
  {
    VerifyIsTruthful(x.primary, n);
    assert n == x.primary.opCount;
    ForwardedIfSucceeded(x.primary);
  }

  // ---------------------------------------------------------------- asking the backup by the primary's id

  /** Every operation executed and forwarded, and every forwarded one executed at the backup. */
  predicate Settled(x: System) {
    && x.phase.Serving?
    && x.primary.opCount == x.primary.lastAssigned
    && x.backup.opCount == x.backup.lastAssigned
  }

  /**
   The client asks the backup to verify an id that the primary gave. Once all is settled the answer says
   whether that operation succeeded, for every id, if and only if no success follows a failure.
   */
  lemma AskingTheBackupIsRightIff(events: seq<Event>)
    requires IsHistory(BOOT, events) && Settled(Outcome(BOOT, events))
    ensures var x := Outcome(BOOT, events);
            var ops := Ops(x.primary);
            (forall n :: 0 <= n < |ops| ==> (Verify(x.backup, n) == 1 <==> Succeeds(ops, n))) <==>
            (forall i, j :: 0 <= i < j < |ops| && Succeeds(ops, j) ==> Succeeds(ops, i))
  {
    BootInv();
    HistoryKeepsInv(BOOT, events);
    var x := Outcome(BOOT, events);
    var ops := Ops(x.primary);
    assert ops[..SentCount(x)] == ops;
    forall n | 0 <= n < |ops| ensures Verify(x.backup, n) == 1 <==> n < |Successes(ops)| {
      VerifyIsTruthful(x.backup, n);
      if n < |Successes(ops)| {
        SuccessesSucceed(ops, n);
      }
    }
    CountedSuccesses(ops);
  }

  /** The first |Successes| operations are the successful ones exactly when no success follows a failure. */
  lemma {:induction false} CountedSuccesses(ops: seq<WriteOp>)
    ensures |Successes(ops)| <= |ops|
    ensures (forall n :: 0 <= n < |ops| ==> (n < |Successes(ops)| <==> Succeeds(ops, n))) <==>
            (forall i, j :: 0 <= i < j < |ops| && Succeeds(ops, j) ==> Succeeds(ops, i))
    decreases |ops|
  {
    SuccessCount(ops);
    if ops != [] {
      var last := |ops| - 1;
      var before := ops[..last];
      CountedSuccesses(before);
      SuccessCount(before);
      forall n | 0 <= n < last ensures Succeeds(before, n) == Succeeds(ops, n) {
        PrefixSucceeds(before, ops, n);
      }
      assert forall n :: 0 <= n < |before| ==> Succeeds(before, n) == Succeeds(ops, n);
    }
  }

  lemma OneMoreEvent(x: System, e: Event, rest: seq<Event>)
    requires Ready(x) && Possible(x, e) && IsHistory(Next(x, e), rest)
    ensures IsHistory(x, [e] + rest) && Outcome(x, [e] + rest) == Outcome(Next(x, e), rest)
  {
    assert ([e] + rest)[1..] == rest;
  }

  lemma ThreeMoreEvents(x: System, e: Event, rest: seq<Event>)
    requires Ready(x) && Possible(x, e) && Possible(Next(x, e), e) && Possible(Next(Next(x, e), e), e)
    requires IsHistory(Next(Next(Next(x, e), e), e), rest)
    ensures IsHistory(x, [e, e, e] + rest)
    ensures Outcome(x, [e, e, e] + rest) == Outcome(Next(Next(Next(x, e), e), e), rest)
  {
    OneMoreEvent(Next(Next(x, e), e), e, rest);
    OneMoreEvent(Next(x, e), e, [e] + rest);
    OneMoreEvent(x, e, [e] + ([e] + rest));
    assert [e] + ([e] + ([e] + rest)) == [e, e, e] + rest;
  }

  // A settled history in which a deletion fails on the primary and a put follows it.
  const DEL: WriteOp := DelOp([97])
  const PUT: WriteOp := PutOp([97], Some([1]))
  const LEAF := Node(Some(Entry([97], Some([1]))), Nil, Nil)
  const QUEUE_1: seq<Task> := [Filled(0, DEL, Waiting), Placeholder]
  const QUEUE_2: seq<Task> := [Filled(0, DEL, Failed), Placeholder]
  const QUEUE_3: seq<Task> := [Filled(0, DEL, Failed), Filled(1, PUT, Waiting), Placeholder]
  const QUEUE_4: seq<Task> := [Filled(0, DEL, Failed), Filled(1, PUT, Done), Placeholder]
  const COPY: seq<Task> := [Filled(0, PUT, Waiting), Placeholder]
  const COPY_DONE: seq<Task> := [Filled(0, PUT, Done), Placeholder]
  const DEL_QUEUED := System(Server(EMPTY, QUEUE_1, 1, 0, Pc.Ready), START, Pending, Serving)
  const DEL_FAILED := System(Server(EMPTY, QUEUE_2, 1, 1, Pc.Ready), START, Pending, Serving)
  const PUT_QUEUED := System(Server(EMPTY, QUEUE_3, 2, 1, Pc.Ready), START, Pending, Serving)
  const PUT_EXECUTED := System(Server(LEAF, QUEUE_4, 2, 1, Executed), START, Pending, Serving)
  const PUT_DELIVERED := PUT_EXECUTED.(backup := Server(EMPTY, COPY, 1, 0, Pc.Ready), delivery := InOrder)
  const PUT_RELEASED := PUT_DELIVERED.(primary := Server(LEAF, QUEUE_4, 2, 1, Released), delivery := Pending)
  const PUT_SENT := PUT_RELEASED.(primary := Server(LEAF, QUEUE_4, 2, 2, Pc.Ready))
  const SETTLED := PUT_SENT.(backup := Server(LEAF, COPY_DONE, 1, 1, Pc.Ready))

  predicate Once(x: System, e: Event, y: System) {
    Ready(x) && Possible(x, e) && Next(x, e) == y
  }

  /** The event is possible three times in a row and leads from x to y. */
  predicate Thrice(x: System, e: Event, y: System) {
    && Ready(x) && Possible(x, e)
    && Possible(Next(x, e), e)
    && Possible(Next(Next(x, e), e), e)
    && Next(Next(Next(x, e), e), e) == y
  }

  lemma DeletionRuns()
    ensures Once(BOOT, ClientWrite(DEL), DEL_QUEUED)
    ensures Thrice(DEL_QUEUED, PrimaryConsumes, DEL_FAILED)
  {
  }

  lemma PutRuns()
    ensures Once(DEL_FAILED, ClientWrite(PUT), PUT_QUEUED)
    ensures Once(PUT_QUEUED, PrimaryConsumes, PUT_EXECUTED)
    ensures Once(PUT_EXECUTED, Deliver, PUT_DELIVERED)
    ensures Once(PUT_DELIVERED, PrimaryConsumes, PUT_RELEASED)
    ensures Once(PUT_RELEASED, PrimaryConsumes, PUT_SENT)
  {
  }

  lemma BackupRuns()
    ensures Thrice(PUT_SENT, BackupConsumes, SETTLED)
  {
  }

  lemma SettledAnswers()
    ensures Ready(SETTLED) && Settled(SETTLED)
    ensures Verify(SETTLED.primary, 0) == 2 && Verify(SETTLED.backup, 0) == 1
    ensures Verify(SETTLED.primary, 1) == 1 && Verify(SETTLED.backup, 1) == -1
  {
    VerifyFromIndex(SETTLED.primary.queue, 0, 0);
    VerifyFromIndex(SETTLED.primary.queue, 0, 1);
    VerifyFromIndex(SETTLED.backup.queue, 0, 0);
    VerifyFromIndex(SETTLED.backup.queue, 0, 1);
  }

  /** The backup can report as done an id that the primary reports as failed, and deny one that it reports as done. */
  lemma AskingTheBackupGoesWrong() returns (events: seq<Event>)
    ensures IsHistory(BOOT, events) && Settled(Outcome(BOOT, events))
    ensures Verify(Outcome(BOOT, events).primary, 0) == 2 && Verify(Outcome(BOOT, events).backup, 0) == 1
    ensures Verify(Outcome(BOOT, events).primary, 1) == 1 && Verify(Outcome(BOOT, events).backup, 1) == -1
  {
    DeletionRuns();
    PutRuns();
    BackupRuns();
    SettledAnswers();
    ThreeMoreEvents(PUT_SENT, BackupConsumes, []);
    events := [BackupConsumes, BackupConsumes, BackupConsumes] + [];
    OneMoreEvent(PUT_RELEASED, PrimaryConsumes, events);
    events := [PrimaryConsumes] + events;
    OneMoreEvent(PUT_DELIVERED, PrimaryConsumes, events);
    events := [PrimaryConsumes] + events;
    OneMoreEvent(PUT_EXECUTED, Deliver, events);
    events := [Deliver] + events;
    OneMoreEvent(PUT_QUEUED, PrimaryConsumes, events);
    events := [PrimaryConsumes] + events;
    OneMoreEvent(DEL_FAILED, ClientWrite(PUT), events);
    events := [ClientWrite(PUT)] + events;
    ThreeMoreEvents(DEL_QUEUED, PrimaryConsumes, events);
    events := [PrimaryConsumes, PrimaryConsumes, PrimaryConsumes] + events;
    OneMoreEvent(BOOT, ClientWrite(DEL), events);
    events := [ClientWrite(DEL)] + events;
  }

  // ---------------------------------------------------------------- the two ways in which a crash can hit a write

  const FIRST_QUEUED := System(Server(EMPTY, COPY, 1, 0, Pc.Ready), START, Pending, Serving)
  const FIRST_EXECUTED := System(Server(LEAF, COPY_DONE, 1, 0, Executed), START, Pending, Serving)
  const CRASHED := FIRST_EXECUTED.(phase := PrimaryDown)
  const TOOK_OVER := FIRST_EXECUTED.(phase := Promoted)
  const WRITTEN_TO := TOOK_OVER.(backup := Server(EMPTY, QUEUE_1, 1, 0, Pc.Ready))
  const QUEUE_LATE: seq<Task> := [Filled(0, DEL, Waiting), Filled(1, PUT, Waiting), Placeholder]
  const CAME_LATE := TOOK_OVER.(backup := Server(EMPTY, QUEUE_LATE, 2, 0, Pc.Ready), delivery := Late)

  lemma CrashRuns()
    ensures Once(BOOT, ClientWrite(PUT), FIRST_QUEUED)
    ensures Once(FIRST_QUEUED, PrimaryConsumes, FIRST_EXECUTED)
    ensures Once(FIRST_EXECUTED, Crash, CRASHED)
    ensures Once(CRASHED, Promote, TOOK_OVER)
    ensures Once(TOOK_OVER, ClientWrite(DEL), WRITTEN_TO)
    ensures Once(WRITTEN_TO, Deliver, CAME_LATE)
  {
  }

  lemma CrashLogs()
    ensures Ready(TOOK_OVER) && Ready(CAME_LATE)
    ensures Verify(TOOK_OVER.primary, 0) == 1 && Ops(TOOK_OVER.primary) == [PUT]
    ensures Ops(TOOK_OVER.backup) == [] && Ops(CAME_LATE.backup) == [DEL, PUT]
  {
    VerifyFromIndex(COPY_DONE, 0, 0);
  }

  /** One operation can indeed be lost: reported as done by the primary, and unknown to the promoted backup. */
  lemma OneOperationIsLost() returns (events: seq<Event>)
    ensures IsHistory(BOOT, events)
    ensures var x := Outcome(BOOT, events);
            && x.phase.Promoted? && Verify(x.primary, 0) == 1 && Ops(x.primary) == [PUT] && Ops(x.backup) == []
  {
    CrashRuns();
    CrashLogs();
    OneMoreEvent(CRASHED, Promote, []);
    events := [Promote] + [];
    OneMoreEvent(FIRST_EXECUTED, Crash, events);
    events := [Crash] + events;
    OneMoreEvent(FIRST_QUEUED, PrimaryConsumes, events);
    events := [PrimaryConsumes] + events;
    OneMoreEvent(BOOT, ClientWrite(PUT), events);
    events := [ClientWrite(PUT)] + events;
  }

  /** And it can come back behind a write that a client made after the promotion. */
  lemma LostOperationComesBack() returns (events: seq<Event>)
    ensures IsHistory(BOOT, events)
    ensures var x := Outcome(BOOT, events);
            && x.phase.Promoted? && Verify(x.primary, 0) == 1 && Ops(x.primary) == [PUT] && Ops(x.backup) == [DEL, PUT]
  {
    CrashRuns();
    CrashLogs();
    OneMoreEvent(WRITTEN_TO, Deliver, []);
    events := [Deliver] + [];
    OneMoreEvent(TOOK_OVER, ClientWrite(DEL), events);
    events := [ClientWrite(DEL)] + events;
    OneMoreEvent(CRASHED, Promote, events);
    events := [Promote] + events;
    OneMoreEvent(FIRST_EXECUTED, Crash, events);
    events := [Crash] + events;
    OneMoreEvent(FIRST_QUEUED, PrimaryConsumes, events);
    events := [PrimaryConsumes] + events;
    OneMoreEvent(BOOT, ClientWrite(PUT), events);
    events := [ClientWrite(PUT)] + events;
  }
}
