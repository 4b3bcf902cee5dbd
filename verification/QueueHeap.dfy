/**
 The queue of tasks as the program keeps it: a linked list that starts at queue_head, two counters, and the
 tree on the heap. Each procedure walks the list as the program does and is tied to a step of TaskQueue.
 */
module QueueHeap {
  import opened CStrings
  import opened Tree
  import TreeDelete
  import TreeHeap
  import opened TaskQueue
  import TreeRuns
  import ServerMap

  class TaskNode {
    var task: Task
    var next: TaskNode?
    /** The place of the node in the list, which no other node shares. */
    ghost var position: int

    /** A node fresh from malloc, taken to have a NULL next pointer and no id. */
    constructor (ghost position: int)
      ensures task == Placeholder && next == null && this.position == position
    {
      task, next := Placeholder, null;
      this.position := position;
    }
  }

  /** The list that hangs from queue_head. */
  class TaskList {
    var head: TaskNode?
    /** The nodes of the list, in order. */
    ghost var nodes: seq<TaskNode>

    static ghost function NodeAfter(nodes: seq<TaskNode>, i: nat): TaskNode? {
      if i + 1 < |nodes| then nodes[i + 1] else null
    }

    /** The list is the sequence of its nodes: each in its place, linked in order, ended by NULL. */
    ghost predicate Valid()
      reads this, nodes
    {
      && nodes != []
      && head == nodes[0]
      && (forall i :: 0 <= i < |nodes| ==> nodes[i].position == i && nodes[i].next == NodeAfter(nodes, i))
    }

    ghost function Tasks(): (tasks: seq<Task>)
      reads this, nodes
      ensures |tasks| == |nodes|
      ensures forall i :: 0 <= i < |nodes| ==> tasks[i] == nodes[i].task
    {
      seq(|nodes|, i requires 0 <= i < |nodes| reads this, nodes => nodes[i].task)
    }

    constructor ()
      ensures Valid() && Tasks() == [Placeholder]
      ensures forall n :: n in nodes ==> fresh(n)
    {
      var first := new TaskNode(0);
      head := first;
      nodes := [first];
    }

    /** The walk of invoke to the end of the list. */
    method LastNode() returns (current: TaskNode)
      requires Valid()
      ensures current == nodes[|nodes| - 1]
    {
      current := head;
      ghost var k := 0;
      while current.next != null
        invariant 0 <= k < |nodes| && current == nodes[k]
        decreases |nodes| - k
      {
        current := current.next;
        k := k + 1;
      }
    }

    /** The walk of process_task along n links from the head. */
    method NodeNumber(n: int) returns (node: TaskNode)
      requires Valid() && 0 <= n < |nodes|
      ensures node == nodes[n]
    {
      node := head;
      for i := 0 to n
        invariant node == nodes[i]
      {
        node := node.next;
      }
    }

    /** Fills the last node of the list and hangs a fresh one behind it. */
    method Append(task: Task)
      requires Valid()
      modifies this, nodes
      ensures Valid()
      ensures forall n :: n in nodes ==> n in old(nodes) || fresh(n)
      ensures Tasks() == old(Tasks())[|old(Tasks())| - 1 := task] + [Placeholder]
    {
      var current := LastNode();
      var last := new TaskNode(|nodes|);
      current.next := last;
      current.task := task;
      AppendedNodes(nodes, last);
      nodes := nodes + [last];
    }

    /** What the links and places of the nodes make of the longer sequence. */
    static lemma AppendedNodes(nodes: seq<TaskNode>, last: TaskNode)
      requires nodes != [] && last.position == |nodes| && last.next == null
      requires forall i :: 0 <= i < |nodes| ==> nodes[i].position == i
      requires forall i :: 0 <= i < |nodes| - 1 ==> nodes[i].next == NodeAfter(nodes, i)
      requires nodes[|nodes| - 1].next == last
      ensures var all := nodes + [last];
              forall i :: 0 <= i < |all| ==> all[i].position == i && all[i].next == NodeAfter(all, i)
    {
    }

    /** The assignment of isDone in one node of the list, after the walk to it. */
    method RecordOutcome(n: int, status: Status)
      requires Valid() && 0 <= n < |nodes| && nodes[n].task.Filled?
      modifies nodes
      ensures Valid() && nodes == old(nodes)
      ensures Tasks() == old(Tasks())[n := old(Tasks())[n].(isDone := status)]
    {
      var node := NodeNumber(n);
      ghost var before := Tasks();
      SetDone(node, status);
      forall i | 0 <= i < |nodes| ensures Tasks()[i] == before[n := before[n].(isDone := status)][i] {
        assert i != n ==> nodes[i].position != node.position;
      }
    }

    method SetDone(node: TaskNode, status: Status)
      requires node.task.Filled?
      modifies node`task
      ensures node.task == old(node.task).(isDone := status)
    {
      node.task := node.task.(isDone := status);
    }

    /** verify: walk the list until the id is found or the list ends. */
    method VerifyId(opN: int) returns (status: int)
      requires Valid()
      ensures status == VerifyFrom(Tasks(), opN)
    {
      var current := head;
      ghost var k := 0;
      while true
        invariant 0 <= k < |nodes| && current == nodes[k]
        invariant VerifyFrom(Tasks(), opN) == VerifyFrom(Tasks()[k..], opN)
        decreases |nodes| - k
      {
        assert Tasks()[k..][0] == current.task && Tasks()[k..][1..] == Tasks()[k + 1..];
        if current.task.Filled? && current.task.opN == opN {
          match current.task.isDone
          case Done => return 1;
          case Failed => return 2;
          case Waiting => return 0;
        }
        if current.next == null {
          break;
        }
        current := current.next;
        k := k + 1;
      }
      status := -1;
    }
  }

  /** The execution step, field by field, and what it leaves to forward. */
  lemma ExecutedState(s: Server, r: Server, ok: bool)
    requires Shape(s) && s.opCount < s.lastAssigned
    requires var task := s.queue[s.opCount];
             && (r.tree, ok) == TreeDelete.Apply(PartFour, s.tree, task.op)
             && r.queue == s.queue[s.opCount := task.(isDone := if ok then Done else Failed)]
    requires r.lastAssigned == s.lastAssigned && r.opCount == s.opCount && r.pc == Executed
    ensures r == ExecuteStep(s)
    ensures Forwarded(r) == if ok then Some(s.queue[s.opCount].op) else None
  {
  }

  lemma FirstOfRun(s: Server, run: seq<Action>)
    requires Shape(s) && run != [] && IsRun(s, run)
    ensures Enabled(s, run[0]) && IsRun(Step(s, run[0]), run[1..])
    ensures After(s, run) == After(Step(s, run[0]), run[1..])
  {
  }

  class Skeleton {
    const tree: TreeHeap.TreeNode
    const queue: TaskList
    var lastAssigned: int
    var opCount: int
    /** Where the consumer thread stands, and so whether it waits on the condition variable. */
    var consumer: Pc

    ghost predicate Valid()
      reads queue, queue.nodes, tree, tree.Repr
    {
      queue.Valid() && tree.Valid()
    }

    /** The state of the machine that this server is in. */
    ghost function State(): Server
      requires Valid()
      reads this, queue, queue.nodes, tree, tree.Repr
    {
      Server(tree.Model(), queue.Tasks(), lastAssigned, opCount, consumer)
    }

    /** tree_skel_init, as far as the tree and the queue are concerned. */
    constructor ()
      ensures Valid() && State() == START && Shape(State())
      ensures fresh(queue) && fresh(tree.Repr) && forall n :: n in queue.nodes ==> fresh(n)
    {
      tree := new TreeHeap.TreeNode();
      queue := new TaskList();
      lastAssigned, opCount, consumer := 0, 0, Ready;
    }

    /** The OP_PUT and OP_DEL cases of invoke: the reply carries the id that the operation was given. */
    method InvokeWrite(op: WriteOp) returns (id: int)
      requires Valid() && Shape(State()) && consumer != Executed
      modifies this, queue, queue.nodes
      ensures Valid() && tree.Repr == old(tree.Repr)
      ensures forall n :: n in queue.nodes ==> n in old(queue.nodes) || fresh(n)
      ensures State() == EnqueueStep(old(State()), op)
      ensures id == old(lastAssigned) && id != lastAssigned
    {
      id := lastAssigned;
      AppendTask(Filled(lastAssigned, op, Waiting));
      lastAssigned := lastAssigned + 1;
      consumer := if consumer.Sleeping? then Sleeping(true) else consumer;
    }

    method AppendTask(task: Task)
      requires Valid()
      modifies queue, queue.nodes
      ensures Valid() && tree.Model() == old(tree.Model()) && tree.Repr == old(tree.Repr)
      ensures forall n :: n in queue.nodes ==> n in old(queue.nodes) || fresh(n)
      ensures queue.Tasks() == old(queue.Tasks())[|old(queue.Tasks())| - 1 := task] + [Placeholder]
    {
      queue.Append(task);
    }

    /**
     One turn of the consumer thread, from wherever it stands: process_task up to the forwarding, the release of the
     locks behind it, op_count++, or waking up. The result is the write to forward, if any.
     */
    method Consumer() returns (forward: Option<WriteOp>)
      requires Valid() && Shape(State()) && Enabled(State(), Consume)
      modifies this, queue.nodes, tree.Repr
      ensures Valid() && queue.nodes == old(queue.nodes) && fresh(tree.Repr - old(tree.Repr))
      ensures State() == ConsumeStep(old(State()))
      ensures forward == Forwarded(State())
    {
      match consumer
      case Ready => forward := ProcessTask();
      case Sleeping(_) => consumer, forward := Ready, None;
      case Executed => consumer, forward := Released, None;
      case Released =>
        FinishTask();
        forward := None;
    }

    /** op_count++, behind the release of the locks. */
    method FinishTask()
      requires Valid() && Shape(State()) && consumer == Released
      modifies this
      ensures Valid() && queue.nodes == old(queue.nodes) && tree.Repr == old(tree.Repr)
      ensures State() == ConsumeStep(old(State()))
    {
      opCount, consumer := opCount + 1, Ready;
    }

    /**
     process_task from taking queue_lock to forwarding: sleep if there is nothing to do, else execute the
     task. The result is the write to forward, if any.
     */
    method ProcessTask() returns (forward: Option<WriteOp>)
      requires Valid() && Shape(State()) && consumer == Ready
      modifies this, queue.nodes, tree.Repr
      ensures Valid() && queue.nodes == old(queue.nodes) && fresh(tree.Repr - old(tree.Repr))
      ensures State() == ConsumeStep(old(State()))
      ensures forward == Forwarded(State())
    {
      if lastAssigned == opCount {
        consumer := Sleeping(false);
        return None;
      }
      forward := ExecuteTask();
    }

    /** The part of process_task behind the wait: the task is there. */
    method ExecuteTask() returns (forward: Option<WriteOp>)
      requires Valid() && Shape(State()) && consumer == Ready && opCount < lastAssigned
      modifies this`consumer, queue.nodes, tree.Repr
      ensures Valid() && queue.nodes == old(queue.nodes) && fresh(tree.Repr - old(tree.Repr))
      ensures State() == ExecuteStep(old(State()))
      ensures forward == Forwarded(State())
    {
      ghost var before := State();
      var ok, op := RunTask();
      consumer := Executed;
      ExecutedState(before, State(), ok);
      forward := if ok then Some(op) else None;
    }

    /** The walk along op_count links from the head, the call on the tree and the record of its outcome. */
    method RunTask() returns (ok: bool, op: WriteOp)
      requires Valid() && 0 <= opCount < |queue.nodes| && queue.Tasks()[opCount].Filled?
      modifies queue.nodes, tree.Repr
      ensures Valid() && queue.nodes == old(queue.nodes) && fresh(tree.Repr - old(tree.Repr))
      ensures op == old(queue.Tasks()[opCount].op)
      ensures (tree.Model(), ok) == TreeDelete.Apply(PartFour, old(tree.Model()), op)
      ensures queue.Tasks() ==
              old(queue.Tasks())[opCount := old(queue.Tasks())[opCount].(isDone := if ok then Done else Failed)]
    {
      var node := queue.NodeNumber(opCount);
      op := node.task.op;
      ok := ExecuteOnTree(op);
      RecordOutcome(if ok then Done else Failed);
    }

    method RecordOutcome(status: Status)
      requires Valid() && 0 <= opCount < |queue.nodes| && queue.Tasks()[opCount].Filled?
      modifies queue.nodes
      ensures Valid() && queue.nodes == old(queue.nodes)
      ensures tree.Model() == old(tree.Model()) && tree.Repr == old(tree.Repr)
      ensures queue.Tasks() == old(queue.Tasks())[opCount := old(queue.Tasks())[opCount].(isDone := status)]
    {
      queue.RecordOutcome(opCount, status);
    }

    /** The call of tree_del or tree_put, and whether it answered 0. */
    method ExecuteOnTree(op: WriteOp) returns (ok: bool)
      requires Valid()
      modifies tree.Repr
      ensures Valid() && fresh(tree.Repr - old(tree.Repr))
      ensures queue.Tasks() == old(queue.Tasks()) && queue.nodes == old(queue.nodes)
      ensures (tree.Model(), ok) == TreeDelete.Apply(PartFour, old(tree.Model()), op)
    {
      match op
      case DelOp(key) =>
        ok := tree.TreeDel(key);
      case PutOp(key, value) =>
        tree.TreePut(key, value);
        ok := true;
    }

    /** Every object that a step may change. */
    ghost function Footprint(): set<object>
      reads this, queue, tree
    {
      {this, queue} + (set n | n in queue.nodes) + tree.Repr
    }

    /** One step of the machine, on the heap. */
    method Perform(a: Action)
      requires Valid() && Shape(State()) && Enabled(State(), a)
      modifies Footprint()
      ensures Valid() && fresh(Footprint() - old(Footprint()))
      ensures State() == Step(old(State()), a)
    {
      match a
      case Enqueue(op) => var id := InvokeWrite(op);
      case Consume => var forward := Consumer();
      case WakeUnasked => consumer := Ready;
    }

    /**
     Clients and the consumer thread in any interleaving that the lock allows: list, counters and tree on the heap are
     those of the machine after the same run, so everything proved about its runs holds of the heap.
     */
    method PerformAll(run: seq<Action>)
      requires Valid() && Shape(State()) && IsRun(State(), run)
      modifies Footprint()
      ensures Valid() && fresh(Footprint() - old(Footprint()))
      ensures State() == After(old(State()), run)
      decreases |run|
    {
      if run != [] {
        FirstOfRun(State(), run);
        Perform(run[0]);
        PerformAll(run[1..]);
      }
    }

    /** The OP_GET case of invoke. */
    method InvokeGet(key: Key) returns (value: Option<Data>)
      requires Valid()
      ensures value == Get(State().tree, key)
    {
      value := tree.TreeGet(key);
    }

    method VerifyId(opN: int) returns (status: int)
      requires Valid()
      ensures status == Verify(State(), opN)
    {
      status := queue.VerifyId(opN);
    }
  }

  /** A server from boot through any run of its threads: what is proved about runs of the machine holds of its heap. */
  method Serve(run: seq<Action>) returns (server: Skeleton)
    requires IsRun(START, run)
    ensures fresh(server) && server.Valid() && server.State() == After(START, run)
    ensures Inv(server.State()) && Ops(server.State()) == EnqueuedBy(run)
  {
    server := new Skeleton();
    server.PerformAll(run);
    RunKeepsInv(START, run);
    RunOps(START, run);
    assert Ops(START) == [] && [] + EnqueuedBy(run) == EnqueuedBy(run);
  }

  /** What a client gets from such a server, as far as the operations executed so far are safe: a read of the map. */
  method ServeThenGet(run: seq<Action>, key: Key) returns (value: Option<Data>)
    requires IsRun(START, run)
    ensures var s := After(START, run);
            && 0 <= ExecutedCount(s) <= |EnqueuedBy(run)|
            && var executed := EnqueuedBy(run)[..ExecutedCount(s)];
               TreeRuns.SafeRun(PartFour, EMPTY, executed) ==>
                 value == ServerMap.Lookup(ServerMap.MapAfter(executed), key)
  {
    var server := Serve(run);
    value := server.InvokeGet(key);
    ServerMap.ServerAnswersAsMap(run);
  }
}
