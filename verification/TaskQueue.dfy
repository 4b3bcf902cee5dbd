/**
 One server of Part 4: clients append write operations to a FIFO of tasks, a consumer thread executes
 them in order, and clients poll verify. The server is a state machine whose steps are the stretches of
 code that the locks make atomic; every theorem is about all runs of those steps.
 */
module TaskQueue {
  import opened CStrings
  import opened Tree
  import TreeDelete

  /** A write as the consumer executes it: the data of a put is never NULL. */
  type WriteOp = op: Op | op.PutOp? ==> op.value.Some? witness DelOp([])

  /** isDone: 0, 1 and -1. */
  datatype Status = Waiting | Done | Failed

  /** A node of the FIFO; the last node is always an unfilled placeholder without an id. */
  datatype Task = Filled(opN: int, op: WriteOp, isDone: Status) | Placeholder

  /**
   Where the consumer thread is. Ready: about to take queue_lock. Sleeping: inside pthread_cond_wait.
   Executed: task number op_count is done and both locks are still held, the write not yet forwarded. Released: the
   locks are free again and op_count is about to be incremented.
   */
  datatype Pc = Ready | Sleeping(signalled: bool) | Executed | Released

  datatype Server = Server(tree: Tree, queue: seq<Task>, lastAssigned: int, opCount: int, pc: Pc)

  datatype Action = Enqueue(op: WriteOp) | Consume | WakeUnasked

  const START := Server(EMPTY, [Placeholder], 0, 0, Ready)

  // ---------------------------------------------------------------- the steps

  /** What makes every pointer that the steps follow non-NULL. */
  predicate Shape(s: Server) {
    && 0 <= s.opCount <= s.lastAssigned
    && |s.queue| == s.lastAssigned + 1
    && (forall i :: 0 <= i < s.lastAssigned ==> s.queue[i].Filled?)
    && s.queue[s.lastAssigned].Placeholder?
    && (s.pc.Executed? || s.pc.Released? ==> s.opCount < s.lastAssigned)
  }

  /** The two write cases of invoke: fill the last node, append a new one, signal the consumer. */
  function EnqueueStep(s: Server, op: WriteOp): (r: Server)
    requires Shape(s)
    ensures Shape(r)
  {
    s.(queue := s.queue[s.lastAssigned := Filled(s.lastAssigned, op, Waiting)] + [Placeholder],
       lastAssigned := s.lastAssigned + 1,
       pc := if s.pc.Sleeping? then Sleeping(true) else s.pc)
  }

  /** process_task between taking the locks and forwarding: execute task number op_count and record the outcome. */
  function ExecuteStep(s: Server): (r: Server)
    requires Shape(s) && s.opCount < s.lastAssigned
    ensures Shape(r)
  {
    var task := s.queue[s.opCount];
    var (tree, ok) := TreeDelete.Apply(PartFour, s.tree, task.op);
    s.(tree := tree, queue := s.queue[s.opCount := task.(isDone := if ok then Done else Failed)], pc := Executed)
  }

  /** The write that a consumer sends to the backup before it releases the locks: only one that succeeded. */
  function Forwarded(s: Server): Option<WriteOp>
    requires Shape(s)
  {
    if s.pc == Executed && s.queue[s.opCount].isDone == Done then Some(s.queue[s.opCount].op) else None
  }

  /** One step of the consumer thread. */
  function ConsumeStep(s: Server): (r: Server)
    requires Shape(s)
    ensures Shape(r)
  {
    match s.pc
    case Ready => if s.lastAssigned == s.opCount then s.(pc := Sleeping(false)) else ExecuteStep(s)
    case Sleeping(signalled) => if signalled then s.(pc := Ready) else s
    case Executed => s.(pc := Released)
    case Released => s.(opCount := s.opCount + 1, pc := Ready)
  }

  /** queue_lock is held from the execution of a task until its forwarding, which keeps producers out. */
  predicate Enabled(s: Server, a: Action) {
    match a
    case Enqueue(_) => s.pc != Executed
    case Consume => s.pc != Sleeping(false)
    case WakeUnasked => s.pc.Sleeping?
  }

  function Step(s: Server, a: Action): (r: Server)
    requires Shape(s) && Enabled(s, a)
    ensures Shape(r)
  {
    match a
    case Enqueue(op) => EnqueueStep(s, op)
    case Consume => ConsumeStep(s)
    case WakeUnasked => s.(pc := Ready)
  }

  /** Every action of the run is enabled when its turn comes. */
  predicate IsRun(s: Server, run: seq<Action>)
    requires Shape(s)
    decreases |run|
  {
    run == [] || (Enabled(s, run[0]) && IsRun(Step(s, run[0]), run[1..]))
  }

  function After(s: Server, run: seq<Action>): (r: Server)
    requires Shape(s) && IsRun(s, run)
    ensures Shape(r)
    decreases |run|
  {
    if run == [] then s else After(Step(s, run[0]), run[1..])
  }

  // ---------------------------------------------------------------- verify

  function StatusCode(status: Status): int {
    match status
    case Done => 1
    case Failed => 2
    case Waiting => 0
  }

  /** verify walks the FIFO to the first node with the id: 1 done, 2 failed, 0 not yet, -1 no such id. */
  function VerifyFrom(queue: seq<Task>, opN: int): int {
    if queue == [] then -1
    else if queue[0].Filled? && queue[0].opN == opN then StatusCode(queue[0].isDone)
    else VerifyFrom(queue[1..], opN)
  }

  function Verify(s: Server, opN: int): int {
    VerifyFrom(s.queue, opN)
  }

  // ---------------------------------------------------------------- what a run should amount to

  /** The tree after executing the operations one after the other. */
  function Replay(t: Tree, ops: seq<WriteOp>): Tree
    decreases |ops|
  {
    if ops == [] then t
    else TreeDelete.Apply(PartFour, Replay(t, ops[..|ops| - 1]), ops[|ops| - 1]).0
  }

  /** Whether operation n succeeds when the operations are executed in order from the empty tree. */
  predicate Succeeds(ops: seq<WriteOp>, n: nat)
    requires n < |ops|
  {
    TreeDelete.Apply(PartFour, Replay(EMPTY, ops[..n]), ops[n]).1
  }

  function Ops(s: Server): (ops: seq<WriteOp>)
    requires Shape(s)
    ensures |ops| == s.lastAssigned
    ensures forall i :: 0 <= i < |ops| ==> ops[i] == s.queue[i].op
  {
    seq(s.lastAssigned, i requires 0 <= i < s.lastAssigned => s.queue[i].op)
  }

  /** The number of tasks whose execution has taken place. */
  function ExecutedCount(s: Server): int {
    s.opCount + if s.pc.Executed? || s.pc.Released? then 1 else 0
  }

  /** The status that task i should carry when the first so many tasks have been executed. */
  function DueStatus(ops: seq<WriteOp>, executed: int, i: nat): Status
    requires i < |ops|
  {
    if i >= executed then Waiting else if Succeeds(ops, i) then Done else Failed
  }

  /**
   The invariant of every run. Ids are positions; the tree is the replay of the executed prefix, each
   operation once and in id order; the statuses record that replay; and a consumer that sleeps without
   a signal on its way has nothing to do.
   */
  ghost predicate Inv(s: Server) {
    && Shape(s)
    && (forall i :: 0 <= i < s.lastAssigned ==> s.queue[i].opN == i)
    && s.tree == Replay(EMPTY, Ops(s)[..ExecutedCount(s)])
    && (forall i :: 0 <= i < s.lastAssigned ==> s.queue[i].isDone == DueStatus(Ops(s), ExecutedCount(s), i))
    && (s.pc == Sleeping(false) ==> s.lastAssigned == s.opCount)
  }

  lemma PrefixSucceeds(ops: seq<WriteOp>, more: seq<WriteOp>, n: nat)
    requires n < |ops| && ops <= more
    ensures Succeeds(more, n) == Succeeds(ops, n)
  {
    assert more[..n] == ops[..n];
  }

  lemma EnqueueKeepsInv(s: Server, op: WriteOp)
    requires Inv(s) && s.pc != Executed
    ensures Inv(EnqueueStep(s, op))
    ensures Ops(EnqueueStep(s, op)) == Ops(s) + [op]
  {
    var r := EnqueueStep(s, op);
    assert Ops(r) == Ops(s) + [op];
    assert Ops(r)[..ExecutedCount(r)] == Ops(s)[..ExecutedCount(s)];
    forall i | 0 <= i < r.lastAssigned ensures r.queue[i].isDone == DueStatus(Ops(r), ExecutedCount(r), i) {
      if i < s.lastAssigned {
        assert r.queue[i] == s.queue[i];
        PrefixSucceeds(Ops(s), Ops(r), i);
      }
    }
  }

  lemma ExecuteKeepsInv(s: Server)
    requires Inv(s) && s.pc.Ready? && s.opCount < s.lastAssigned
    ensures Inv(ExecuteStep(s))
    ensures Ops(ExecuteStep(s)) == Ops(s)
  {
    var r, ops, n := ExecuteStep(s), Ops(s), s.opCount;
    assert Ops(r) == ops;
    assert ops[..n + 1][..n] == ops[..n];
    assert r.tree == Replay(EMPTY, ops[..n + 1]);
    forall i | 0 <= i < r.lastAssigned
      ensures r.queue[i].isDone == DueStatus(ops, n + 1, i)
    {
      assert s.queue[i].isDone == DueStatus(ops, n, i);
    }
  }

  lemma ConsumeKeepsInv(s: Server)
    requires Inv(s)
    ensures Inv(ConsumeStep(s))
    ensures Ops(ConsumeStep(s)) == Ops(s)
  {
    if s.pc.Ready? && s.opCount < s.lastAssigned {
      ExecuteKeepsInv(s);
    } else {
      var r := ConsumeStep(s);
      assert Ops(r) == Ops(s) && ExecutedCount(r) == ExecutedCount(s);
    }
  }

  /** Every run from the start, of any length and interleaving, stays inside the invariant. */
  lemma {:induction false} RunKeepsInv(s: Server, run: seq<Action>)
    requires Inv(s) && IsRun(s, run)
    ensures Inv(After(s, run))
    ensures Ops(s) <= Ops(After(s, run))
    decreases |run|
  {
    if run != [] {
      StepKeepsInv(s, run[0]);
      RunKeepsInv(Step(s, run[0]), run[1..]);
    }
  }

  lemma StepKeepsInv(s: Server, a: Action)
    requires Inv(s) && Enabled(s, a)
    ensures Inv(Step(s, a))
    ensures Ops(Step(s, a)) == if a.Enqueue? then Ops(s) + [a.op] else Ops(s)
  {
    match a
    case Enqueue(op) => EnqueueKeepsInv(s, op);
    case Consume => ConsumeKeepsInv(s);
    case WakeUnasked => assert Ops(Step(s, a)) == Ops(s);
  }

  ghost function EnqueuedBy(run: seq<Action>): seq<WriteOp>
    decreases |run|
  {
    if run == [] then [] else (if run[0].Enqueue? then [run[0].op] else []) + EnqueuedBy(run[1..])
  }

  lemma StepOps(s: Server, a: Action)
    requires Shape(s) && Enabled(s, a)
    ensures Ops(Step(s, a)) == Ops(s) + if a.Enqueue? then [a.op] else []
  {
  }

  lemma {:induction false} RunOps(s: Server, run: seq<Action>)
    requires Shape(s) && IsRun(s, run)
    ensures Ops(After(s, run)) == Ops(s) + EnqueuedBy(run)
    decreases |run|
  {
    if run != [] {
      StepOps(s, run[0]);
      RunOps(Step(s, run[0]), run[1..]);
      var first := if run[0].Enqueue? then [run[0].op] else [];
      assert Ops(s) + (first + EnqueuedBy(run[1..])) == (Ops(s) + first) + EnqueuedBy(run[1..]);
    }
  }

  /**
   Exactly-once FIFO: after any run from the start, the tree is what executing the first executed-count
   operations that the clients enqueued, in that order, makes of the empty tree, and id n belongs to
   the n-th operation enqueued.
   */
  lemma ExactlyOnceInOrder(run: seq<Action>)
    requires IsRun(START, run)
    ensures var s := After(START, run);
            && 0 <= s.opCount <= ExecutedCount(s) <= s.lastAssigned == |EnqueuedBy(run)|
            && s.tree == Replay(EMPTY, EnqueuedBy(run)[..ExecutedCount(s)])
            && |s.queue| == s.lastAssigned + 1
            && s.queue[s.lastAssigned] == Placeholder
            && forall n :: 0 <= n < s.lastAssigned ==>
                 s.queue[n].Filled? && s.queue[n].opN == n && s.queue[n].op == EnqueuedBy(run)[n]
  {
    RunKeepsInv(START, run);
    RunOps(START, run);
    assert Ops(START) == [] && [] + EnqueuedBy(run) == EnqueuedBy(run);
    FifoOfInv(After(START, run), EnqueuedBy(run));
  }

  lemma FifoOfInv(s: Server, ops: seq<WriteOp>)
    requires Inv(s) && Ops(s) == ops
    ensures 0 <= s.opCount <= ExecutedCount(s) <= s.lastAssigned == |ops|
    ensures s.tree == Replay(EMPTY, ops[..ExecutedCount(s)])
    ensures |s.queue| == s.lastAssigned + 1 && s.queue[s.lastAssigned] == Placeholder
    ensures forall n :: 0 <= n < s.lastAssigned ==>
              s.queue[n].Filled? && s.queue[n].opN == n && s.queue[n].op == ops[n]
  {
  }

  // ---------------------------------------------------------------- verify tells the truth

  lemma {:induction false} VerifyFromIndex(queue: seq<Task>, base: int, opN: int)
    requires forall i :: 0 <= i < |queue| && queue[i].Filled? ==> queue[i].opN == base + i
    ensures 0 <= opN - base < |queue| && queue[opN - base].Filled? ==>
              VerifyFrom(queue, opN) == StatusCode(queue[opN - base].isDone)
    ensures !(0 <= opN - base < |queue| && queue[opN - base].Filled?) ==> VerifyFrom(queue, opN) == -1
    decreases |queue|
  {
    if queue != [] {
      VerifyFromIndex(queue[1..], base + 1, opN);
    }
  }

  /**
   verify answers -1 exactly for an unassigned id, 0 until its task has been executed, then 1 or 2 as it
   succeeded or not.
   */
  lemma VerifyIsTruthful(s: Server, opN: int)
    requires Inv(s)
    ensures Verify(s, opN) ==
            if !(0 <= opN < s.lastAssigned) then -1
            else if opN >= ExecutedCount(s) then 0
            else if Succeeds(Ops(s), opN) then 1 else 2
  {
    VerifyFromIndex(s.queue, 0, opN);
    if 0 <= opN < s.lastAssigned {
      assert s.queue[opN].isDone == DueStatus(Ops(s), ExecutedCount(s), opN);
    }
  }

  /** One step executes at most one task, and never one that it enqueues itself. */
  lemma ExecutedCountStep(s: Server, a: Action)
    requires Inv(s) && Enabled(s, a)
    ensures ExecutedCount(s) <= ExecutedCount(Step(s, a)) <= s.lastAssigned <= Step(s, a).lastAssigned
  {
  }

  /** The status that an id has by the truth about verify. */
  function DueCode(ops: seq<WriteOp>, executed: int, opN: int): int {
    if !(0 <= opN < |ops|) then -1 else StatusCode(DueStatus(ops, executed, opN))
  }

  lemma DueCodeStep(ops: seq<WriteOp>, more: seq<WriteOp>, executed: int, executed': int, opN: int)
    requires ops <= more && executed <= executed' <= |ops|
    ensures var before, after := DueCode(ops, executed, opN), DueCode(more, executed', opN);
            after == before || (before == -1 && after == 0) || (before == 0 && after in {1, 2})
  {
    if 0 <= opN < |ops| {
      PrefixSucceeds(ops, more, opN);
    }
  }

  /** One step moves a status at most from -1 to 0, or from 0 to its final value. */
  lemma StatusStep(s: Server, a: Action, opN: int)
    requires Inv(s) && Enabled(s, a)
    ensures var before, after := Verify(s, opN), Verify(Step(s, a), opN);
            || after == before
            || (before == -1 && after == 0)
            || (before == 0 && after in {1, 2})
  {
    var r := Step(s, a);
    StepKeepsInv(s, a);
    VerifyIsTruthful(s, opN);
    VerifyIsTruthful(r, opN);
    ExecutedCountStep(s, a);
    DueCodeStep(Ops(s), Ops(r), ExecutedCount(s), ExecutedCount(r), opN);
  }

  /** Along a run of any length a status never goes back, and 1 and 2 are final. */
  lemma {:induction false} StatusNeverRegresses(s: Server, run: seq<Action>, opN: int)
    requires Inv(s) && IsRun(s, run)
    ensures var before, after := Verify(s, opN), Verify(After(s, run), opN);
            && (before in {1, 2} ==> after == before)
            && (before == 0 ==> after in {0, 1, 2})
            && after in {-1, 0, 1, 2}
    decreases |run|
  {
    VerifyIsTruthful(s, opN);
    if run != [] {
      StepKeepsInv(s, run[0]);
      StatusStep(s, run[0], opN);
      StatusNeverRegresses(Step(s, run[0]), run[1..], opN);
    }
  }

  // ---------------------------------------------------------------- no lost wake-up, and draining

  /** While a task is waiting the consumer can always take a step, so no wake-up is ever lost. */
  lemma NoLostWakeUp(run: seq<Action>)
    requires IsRun(START, run)
    ensures After(START, run).opCount < After(START, run).lastAssigned ==> Enabled(After(START, run), Consume)
  {
    RunKeepsInv(START, run);
  }

  /** Work left for the consumer thread. */
  function Work(s: Server): nat
    requires Shape(s)
  {
    4 * (s.lastAssigned - s.opCount) +
    match s.pc
    case Sleeping(signalled) => if signalled then 4 else 0
    case Ready => 3
    case Executed => 2
    case Released => 1
  }

  /** The run of the consumer alone until it falls asleep. */
  function Drained(s: Server): (r: Server)
    requires Shape(s)
    ensures Shape(r)
    decreases Work(s)
  {
    if s.pc == Sleeping(false) then s else Drained(ConsumeStep(s))
  }

  /** Left alone, the consumer executes every waiting task and only then sleeps, and every task has its final status. */
  lemma {:induction false} QueueDrains(s: Server)
    requires Inv(s)
    ensures var r := Drained(s);
            && Inv(r)
            && r.pc == Sleeping(false)
            && r.opCount == r.lastAssigned == s.lastAssigned
            && Ops(r) == Ops(s)
            && r.tree == Replay(EMPTY, Ops(s))
            && forall n :: 0 <= n < s.lastAssigned ==> Verify(r, n) == if Succeeds(Ops(s), n) then 1 else 2
    decreases Work(s)
  {
    if s.pc == Sleeping(false) {
      assert Ops(s)[..s.lastAssigned] == Ops(s);
      forall n | 0 <= n < s.lastAssigned ensures Verify(s, n) == if Succeeds(Ops(s), n) then 1 else 2 {
        VerifyIsTruthful(s, n);
      }
    } else {
      ConsumeKeepsInv(s);
      QueueDrains(ConsumeStep(s));
    }
  }

  // ---------------------------------------------------------------- what can always go on

  lemma {:induction false} RunInTwoParts(s: Server, run: seq<Action>, more: seq<Action>)
    requires Shape(s) && IsRun(s, run) && IsRun(After(s, run), more)
    ensures IsRun(s, run + more) && After(s, run + more) == After(After(s, run), more)
    decreases |run|
  {
    if run == [] {
      assert run + more == more;
    } else {
      assert (run + more)[0] == run[0] && (run + more)[1..] == run[1..] + more;
      RunInTwoParts(Step(s, run[0]), run[1..], more);
    }
  }

  /** A client is held up only between the execution of a task and the release of its locks, for one turn. */
  lemma ClientGetsIn(run: seq<Action>, op: WriteOp)
    requires IsRun(START, run)
    ensures After(START, run).pc != Executed ==> IsRun(START, run + [Enqueue(op)])
    ensures After(START, run).pc == Executed ==> IsRun(START, run + [Consume, Enqueue(op)])
  {
    var s := After(START, run);
    if s.pc != Executed {
      RunInTwoParts(START, run, [Enqueue(op)]);
    } else {
      assert [Consume, Enqueue(op)][1..] == [Enqueue(op)];
      RunInTwoParts(START, run, [Consume, Enqueue(op)]);
    }
  }

  /** A consumer that sleeps without a signal may wake at any time; it finds nothing to do and sleeps again. */
  lemma WakingUnaskedIsHarmless(run: seq<Action>)
    requires IsRun(START, run) && After(START, run).pc == Sleeping(false)
    ensures IsRun(START, run + [WakeUnasked, Consume])
    ensures After(START, run + [WakeUnasked, Consume]) == After(START, run)
  {
    RunKeepsInv(START, run);
    var s := After(START, run);
    assert [WakeUnasked, Consume][1..] == [Consume] && [Consume][1..] == [];
    assert ConsumeStep(Step(s, WakeUnasked)) == s;
    RunInTwoParts(START, run, [WakeUnasked, Consume]);
  }
}
