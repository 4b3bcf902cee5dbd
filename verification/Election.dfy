/**
 Who is primary. Servers start, crash and lose their ZooKeeper sessions in any interleaving; each call to
 ZooKeeper is one atomic step, and a server may be overtaken by others between any two of its calls.
 Creating a node fails if the node exists; the nodes of the two roles vanish with their creator's session.
 */
module Election {
  import opened CStrings

  type ServerId = nat

  /** Return codes of the client library: ZOK, ZNONODE, ZNODEEXISTS, and any failure of the session itself. */
  datatype Code = Ok | NoNode | NodeExists | SessionError

  datatype Role = NoRole | PrimaryRole | BackupRole

  /**
   The next call that a server will make. The first six are the start-up calls in their order; the
   existence tests of one condition are separate calls, evaluated from left to right. Then the server
   watches the children; a watcher that has read the list holding only "backup" deletes that node and
   creates the primary node. Exited is a process that has called exit.
   */
  datatype Pc =
    | CheckRoot | CreateRoot
    | CheckPrimaryTaken | CheckBackupTaken
    | CheckPrimaryFree | CheckBackupFree
    | CheckPrimaryThere | CheckBackupMissing
    | CreatePrimary | CreateBackup
    | Watching
    | DeleteBackup | PromoteSelf
    | Exited

  datatype Server = Server(pc: Pc, role: Role, session: bool)

  datatype World = World(
    root: bool,
    primary: Option<ServerId>,
    backup: Option<ServerId>,
    servers: map<ServerId, Server>
  )

  datatype Event =
    | Start(id: ServerId)        // a new process reaches the start-up code with a live session
    | Call(id: ServerId)         // the next ZooKeeper call of a server
    | ChildEvent(id: ServerId)   // the watcher of a server is invoked and reads the children
    | SessionEnd(id: ServerId)   // ZooKeeper ends a session and removes its nodes

  const NEW_WORLD := World(false, None, None, map[])

  // ---------------------------------------------------------------- ZooKeeper

  function Exists(live: bool, there: bool): Code {
    if !live then SessionError else if there then Ok else NoNode
  }

  function Create(live: bool, there: bool): Code {
    if !live then SessionError else if there then NodeExists else Ok
  }

  // ---------------------------------------------------------------- the steps

  /** One call by server id: the code that comes back decides the branch. */
  function CallStep(w: World, id: ServerId): World
    requires id in w.servers
  {
    var s := w.servers[id];
    var primaryThere := Exists(s.session, w.primary.Some?);
    var backupThere := Exists(s.session, w.backup.Some?);
    match s.pc
    case CheckRoot =>
      Goto(w, id, if Exists(s.session, w.root) != Ok then CreateRoot else CheckPrimaryTaken)
    case CreateRoot =>
      if Create(s.session, w.root) == Ok then Goto(w.(root := true), id, CreatePrimary) else Goto(w, id, Exited)
    case CheckPrimaryTaken => Goto(w, id, if primaryThere == Ok then CheckBackupTaken else CheckPrimaryFree)
    case CheckBackupTaken => Goto(w, id, if backupThere == Ok then Exited else CheckPrimaryFree)
    case CheckPrimaryFree => Goto(w, id, if primaryThere == NoNode then CheckBackupFree else CheckPrimaryThere)
    case CheckBackupFree => Goto(w, id, if backupThere == NoNode then CreatePrimary else CheckPrimaryThere)
    case CheckPrimaryThere => Goto(w, id, if primaryThere == Ok then CheckBackupMissing else Watching)
    case CheckBackupMissing => Goto(w, id, if backupThere == NoNode then CreateBackup else Watching)
    case CreatePrimary => TakePrimary(w, id)
    case PromoteSelf => TakePrimary(w, id)
    case CreateBackup =>
      if Create(s.session, w.backup.Some?) == Ok
      then w.(backup := Some(id), servers := w.servers[id := s.(pc := Watching, role := BackupRole)])
      else Goto(w, id, Exited)
    case DeleteBackup => Goto(if s.session then w.(backup := None) else w, id, PromoteSelf)
    case Watching => w
    case Exited => w
  }

  function Goto(w: World, id: ServerId, pc: Pc): World
    requires id in w.servers
  {
    w.(servers := w.servers[id := w.servers[id].(pc := pc)])
  }

  /** zoo_create of the primary node, at start-up and in the watcher alike: the role, or exit. */
  function TakePrimary(w: World, id: ServerId): World
    requires id in w.servers
  {
    var s := w.servers[id];
    if Create(s.session, w.primary.Some?) == Ok
    then w.(primary := Some(id), servers := w.servers[id := s.(pc := Watching, role := PrimaryRole)])
    else Goto(w, id, Exited)
  }

  predicate Possible(w: World, e: Event) {
    match e
    case Start(id) => id !in w.servers
    case Call(id) => id in w.servers
    case ChildEvent(id) => id in w.servers && w.servers[id].pc.Watching? && w.servers[id].session
    case SessionEnd(id) => id in w.servers && w.servers[id].session
  }

  /** A watcher acts on the list of children only if it is exactly ["backup"]. */
  function Next(w: World, e: Event): World
    requires Possible(w, e)
  {
    match e
    case Start(id) => w.(servers := w.servers[id := Server(CheckRoot, NoRole, true)])
    case Call(id) => CallStep(w, id)
    case ChildEvent(id) => if w.primary.None? && w.backup.Some? then Goto(w, id, DeleteBackup) else w
    case SessionEnd(id) =>
      w.(primary := if w.primary == Some(id) then None else w.primary,
         backup := if w.backup == Some(id) then None else w.backup,
         servers := w.servers[id := w.servers[id].(session := false)])
  }

  predicate IsHistory(w: World, events: seq<Event>)
    decreases |events|
  {
    events == [] || (Possible(w, events[0]) && IsHistory(Next(w, events[0]), events[1..]))
  }

  function Outcome(w: World, events: seq<Event>): World
    requires IsHistory(w, events)
    decreases |events|
  {
    if events == [] then w else Outcome(Next(w, events[0]), events[1..])
  }

  // ---------------------------------------------------------------- one primary

  /** A server that holds the role on a live session. */
  predicate Holds(w: World, id: ServerId, role: Role) {
    id in w.servers && w.servers[id].session && w.servers[id].role == role
  }

  /**
   A live primary owns the primary node and does nothing but watch; a role node belongs to a live server
   in that role; a server has no role until it watches; and one that is about to promote itself no longer
   owns the backup node.
   */
  ghost predicate Inv(w: World) {
    && (w.primary.Some? ==> Holds(w, w.primary.value, PrimaryRole))
    && (w.backup.Some? ==> Holds(w, w.backup.value, BackupRole))
    && forall id :: id in w.servers ==> ServerInv(w, id)
  }

  ghost predicate ServerInv(w: World, id: ServerId)
    requires id in w.servers
  {
    var s := w.servers[id];
    && (s.session && s.role == PrimaryRole ==> w.primary == Some(id) && s.pc.Watching?)
    && (s.pc.PromoteSelf? ==> w.backup != Some(id))
    && (s.pc in {Watching, DeleteBackup, PromoteSelf, Exited} || s.role == NoRole)
  }

  /** Moving on to the next call is harmless for a server that is not the live primary. */
  lemma GotoKeepsInv(w: World, id: ServerId, pc: Pc)
    requires Inv(w) && id in w.servers && !Holds(w, id, PrimaryRole)
    requires pc in {Watching, DeleteBackup, PromoteSelf, Exited} || w.servers[id].role == NoRole
    requires pc.PromoteSelf? ==> w.backup != Some(id)
    ensures Inv(Goto(w, id, pc))
  {
    forall other | other in w.servers ensures ServerInv(Goto(w, id, pc), other) {
      assert ServerInv(w, other);
    }
  }

  lemma TakePrimaryKeepsInv(w: World, id: ServerId)
    requires Inv(w) && id in w.servers && !Holds(w, id, PrimaryRole) && w.backup != Some(id)
    ensures Inv(TakePrimary(w, id))
  {
    if Create(w.servers[id].session, w.primary.Some?) == Ok {
      forall other | other in w.servers ensures ServerInv(TakePrimary(w, id), other) {
        assert ServerInv(w, other);
      }
    } else {
      GotoKeepsInv(w, id, Exited);
    }
  }

  lemma CallKeepsInv(w: World, id: ServerId)
    requires Inv(w) && id in w.servers
    ensures Inv(CallStep(w, id))
  {
    var s := w.servers[id];
    assert ServerInv(w, id);
    match s.pc
    case Watching =>
    case Exited =>
    case CreatePrimary => TakePrimaryKeepsInv(w, id);
    case PromoteSelf => TakePrimaryKeepsInv(w, id);
    case CreateRoot =>
      var r := w.(root := true);
      assert forall other :: other in w.servers ==> ServerInv(w, other) == ServerInv(r, other);
      GotoKeepsInv(r, id, CreatePrimary);
      GotoKeepsInv(w, id, Exited);
    case CreateBackup =>
      GotoKeepsInv(w, id, Exited);
      forall other | other in w.servers && Create(s.session, w.backup.Some?) == Ok
        ensures ServerInv(CallStep(w, id), other)
      {
        assert ServerInv(w, other);
      }
    case DeleteBackup =>
      var r := if s.session then w.(backup := None) else w;
      forall other | other in r.servers ensures ServerInv(r, other) {
        assert ServerInv(w, other);
      }
      GotoKeepsInv(r, id, PromoteSelf);
    case _ => GotoKeepsInv(w, id, CallStep(w, id).servers[id].pc);
  }

  lemma NextKeepsInv(w: World, e: Event)
    requires Inv(w) && Possible(w, e)
    ensures Inv(Next(w, e))
  {
    if e.Call? {
      CallKeepsInv(w, e.id);
    } else {
      assert e.id in w.servers ==> ServerInv(w, e.id);
      forall other | other in Next(w, e).servers ensures ServerInv(Next(w, e), other) {
        assert other in w.servers ==> ServerInv(w, other);
      }
    }
  }

  lemma {:induction false} HistoryKeepsInv(w: World, events: seq<Event>)
    requires Inv(w) && IsHistory(w, events)
    ensures Inv(Outcome(w, events))
    decreases |events|
  {
    if events != [] {
      NextKeepsInv(w, events[0]);
      HistoryKeepsInv(Next(w, events[0]), events[1..]);
    }
  }

  /** In every history of any number of servers, at most one live server holds the primary role. */
  lemma AtMostOnePrimary(events: seq<Event>, a: ServerId, b: ServerId)
    requires IsHistory(NEW_WORLD, events)
    requires Holds(Outcome(NEW_WORLD, events), a, PrimaryRole) && Holds(Outcome(NEW_WORLD, events), b, PrimaryRole)
    ensures a == b
  {
    HistoryKeepsInv(NEW_WORLD, events);
  }

  /**
   The role is never taken away: whatever the other servers do, a live primary stays the primary, and the
   only one, until its own session ends.
   */
  lemma {:induction false} PrimaryIsStable(w: World, events: seq<Event>, id: ServerId)
    requires Inv(w) && Holds(w, id, PrimaryRole)
    requires IsHistory(w, events) && SessionEnd(id) !in events
    ensures Holds(Outcome(w, events), id, PrimaryRole)
    ensures forall other: ServerId :: Holds(Outcome(w, events), other, PrimaryRole) ==> other == id
    decreases |events|
  {
    if events != [] {
      NextKeepsInv(w, events[0]);
      PrimaryIsStable(Next(w, events[0]), events[1..], id);
    }
  }

  // ---------------------------------------------------------------- which role a server gets

  /** A number of calls by one server that no other server overtakes. */
  function Calls(id: ServerId, n: nat): (events: seq<Event>)
    ensures |events| == n
  {
    if n == 0 then [] else [Call(id)] + Calls(id, n - 1)
  }

  lemma CallsStep(w: World, id: ServerId, n: nat)
    requires id in w.servers && n > 0
    requires IsHistory(CallStep(w, id), Calls(id, n - 1))
    ensures IsHistory(w, Calls(id, n)) && Outcome(w, Calls(id, n)) == Outcome(CallStep(w, id), Calls(id, n - 1))
  {
    assert Calls(id, n)[0] == Call(id) && Calls(id, n)[1..] == Calls(id, n - 1);
  }

  lemma {:induction false} CallsArePossible(w: World, id: ServerId, n: nat)
    requires id in w.servers
    ensures IsHistory(w, Calls(id, n))
    decreases n
  {
    if n > 0 {
      CallsArePossible(CallStep(w, id), id, n - 1);
      CallsStep(w, id, n);
    }
  }

  /** A server that only watches, or has exited, stays where it is when its turn comes. */
  lemma {:induction false} CallsAtRest(w: World, id: ServerId, n: nat)
    requires id in w.servers && w.servers[id].pc in {Watching, Exited}
    ensures IsHistory(w, Calls(id, n)) && Outcome(w, Calls(id, n)) == w
    decreases n
  {
    if n > 0 {
      CallsAtRest(w, id, n - 1);
      CallsStep(w, id, n);
    }
  }

  /** The events of a start-up, which takes at most seven calls. */
  function StartUp(id: ServerId): seq<Event> {
    [Start(id)] + Calls(id, 7)
  }

  /** The world after a new server has settled: who owns the nodes, and what the server became. */
  function Settled(w: World, id: ServerId, primary: Option<ServerId>, backup: Option<ServerId>, s: Server): World {
    World(true, primary, backup, w.servers[id := s])
  }

  /**
   The role of a server whose start-up calls are not overtaken, for every state of the nodes. Where the root is missing
   or there is neither primary nor backup it becomes primary; where there is a primary only, backup; it exits if
   both are there, or if a primary is there without the root; and it stays without a role where there is
   only a backup. Nothing else changes, but that the root is there afterwards.
   */
  lemma RoleAtStartUp(w: World, id: ServerId)
    requires id !in w.servers
    ensures IsHistory(w, StartUp(id))
    ensures Outcome(w, StartUp(id)) ==
            if w.primary.None? && (w.backup.None? || !w.root) then
              Settled(w, id, Some(id), w.backup, Server(Watching, PrimaryRole, true))
            else if w.primary.None? then
              Settled(w, id, None, w.backup, Server(Watching, NoRole, true))
            else if w.backup.None? && w.root then
              Settled(w, id, w.primary, Some(id), Server(Watching, BackupRole, true))
            else
              Settled(w, id, w.primary, w.backup, Server(Exited, NoRole, true))
  {
    assert Next(w, Start(id)) == At(w, id, CheckRoot);
    assert StartUp(id)[0] == Start(id) && StartUp(id)[1..] == Calls(id, 7);
    if !w.root {
      StartWithoutRoot(w, id);
      CreatesPrimary(w.(root := true), id, 5);
    } else if w.primary.Some? {
      if w.backup.None? {
        StartBesidePrimary(w, id);
        CreatesBackup(w, id, 1);
      } else {
        StartBesideBoth(w, id);
      }
    } else {
      StartWithoutPrimary(w, id);
      if w.backup.None? {
        CreatesPrimary(w, id, 3);
      }
    }
  }

  /** The world with a server of a live session, and no role yet, before one of its start-up calls. */
  function At(w: World, id: ServerId, pc: Pc): (r: World)
    ensures id in r.servers
  {
    w.(servers := w.servers[id := Server(pc, NoRole, true)])
  }

  lemma GotoAt(w: World, id: ServerId, pc: Pc, next: Pc)
    ensures Goto(At(w, id, pc), id, next) == At(w, id, next)
  {
    assert w.servers[id := Server(pc, NoRole, true)][id := Server(next, NoRole, true)]
        == w.servers[id := Server(next, NoRole, true)];
  }

  /** A call that only looks leads to the next call. */
  lemma LookingCall(w: World, id: ServerId, pc: Pc, next: Pc, n: nat)
    requires n > 0 && CallStep(At(w, id, pc), id) == Goto(At(w, id, pc), id, next)
    requires IsHistory(At(w, id, next), Calls(id, n - 1))
    ensures IsHistory(At(w, id, pc), Calls(id, n))
    ensures Outcome(At(w, id, pc), Calls(id, n)) == Outcome(At(w, id, next), Calls(id, n - 1))
  {
    GotoAt(w, id, pc, next);
    CallsStep(At(w, id, pc), id, n);
  }

  lemma CreatesPrimary(w: World, id: ServerId, n: nat)
    requires n > 0
    ensures IsHistory(At(w, id, CreatePrimary), Calls(id, n))
    ensures Outcome(At(w, id, CreatePrimary), Calls(id, n)) ==
            if w.primary.None?
            then w.(primary := Some(id), servers := w.servers[id := Server(Watching, PrimaryRole, true)])
            else At(w, id, Exited)
  {
    var r := CallStep(At(w, id, CreatePrimary), id);
    var role := if w.primary.None? then Server(Watching, PrimaryRole, true) else Server(Exited, NoRole, true);
    assert r.servers == w.servers[id := role];
    CallsAtRest(r, id, n - 1);
    CallsStep(At(w, id, CreatePrimary), id, n);
  }

  lemma CreatesBackup(w: World, id: ServerId, n: nat)
    requires n > 0 && w.backup.None?
    ensures IsHistory(At(w, id, CreateBackup), Calls(id, n))
    ensures Outcome(At(w, id, CreateBackup), Calls(id, n)) ==
            w.(backup := Some(id), servers := w.servers[id := Server(Watching, BackupRole, true)])
  {
    var r := CallStep(At(w, id, CreateBackup), id);
    assert r.servers == w.servers[id := Server(Watching, BackupRole, true)];
    CallsAtRest(r, id, n - 1);
    CallsStep(At(w, id, CreateBackup), id, n);
  }

  lemma StartWithoutRoot(w: World, id: ServerId)
    requires !w.root
    ensures IsHistory(At(w, id, CheckRoot), Calls(id, 7))
    ensures IsHistory(At(w.(root := true), id, CreatePrimary), Calls(id, 5))
    ensures Outcome(At(w, id, CheckRoot), Calls(id, 7)) ==
            Outcome(At(w.(root := true), id, CreatePrimary), Calls(id, 5))
  {
    GotoAt(w.(root := true), id, CreateRoot, CreatePrimary);
    CallsArePossible(At(w.(root := true), id, CreatePrimary), id, 5);
    CallsStep(At(w, id, CreateRoot), id, 6);
    LookingCall(w, id, CheckRoot, CreateRoot, 7);
  }

  lemma StartBesideBoth(w: World, id: ServerId)
    requires w.root && w.primary.Some? && w.backup.Some?
    ensures IsHistory(At(w, id, CheckRoot), Calls(id, 7))
    ensures Outcome(At(w, id, CheckRoot), Calls(id, 7)) == At(w, id, Exited)
  {
    CallsAtRest(At(w, id, Exited), id, 4);
    LookingCall(w, id, CheckBackupTaken, Exited, 5);
    LookingCall(w, id, CheckPrimaryTaken, CheckBackupTaken, 6);
    LookingCall(w, id, CheckRoot, CheckPrimaryTaken, 7);
  }

  lemma StartBesidePrimary(w: World, id: ServerId)
    requires w.root && w.primary.Some? && w.backup.None?
    ensures IsHistory(At(w, id, CheckRoot), Calls(id, 7)) && IsHistory(At(w, id, CreateBackup), Calls(id, 1))
    ensures Outcome(At(w, id, CheckRoot), Calls(id, 7)) == Outcome(At(w, id, CreateBackup), Calls(id, 1))
  {
    CallsArePossible(At(w, id, CreateBackup), id, 1);
    LookingCall(w, id, CheckBackupMissing, CreateBackup, 2);
    LookingCall(w, id, CheckPrimaryThere, CheckBackupMissing, 3);
    LookingCall(w, id, CheckPrimaryFree, CheckPrimaryThere, 4);
    LookingCall(w, id, CheckBackupTaken, CheckPrimaryFree, 5);
    LookingCall(w, id, CheckPrimaryTaken, CheckBackupTaken, 6);
    LookingCall(w, id, CheckRoot, CheckPrimaryTaken, 7);
  }

  lemma StartWithoutPrimary(w: World, id: ServerId)
    requires w.root && w.primary.None?
    ensures IsHistory(At(w, id, CheckRoot), Calls(id, 7))
    ensures w.backup.Some? ==> Outcome(At(w, id, CheckRoot), Calls(id, 7)) == At(w, id, Watching)
    ensures w.backup.None? ==>
              && IsHistory(At(w, id, CreatePrimary), Calls(id, 3))
              && Outcome(At(w, id, CheckRoot), Calls(id, 7)) == Outcome(At(w, id, CreatePrimary), Calls(id, 3))
  {
    if w.backup.Some? {
      CallsAtRest(At(w, id, Watching), id, 2);
      LookingCall(w, id, CheckPrimaryThere, Watching, 3);
      LookingCall(w, id, CheckBackupFree, CheckPrimaryThere, 4);
    } else {
      CallsArePossible(At(w, id, CreatePrimary), id, 3);
      LookingCall(w, id, CheckBackupFree, CreatePrimary, 4);
    }
    LookingCall(w, id, CheckPrimaryFree, CheckBackupFree, 5);
    LookingCall(w, id, CheckPrimaryTaken, CheckPrimaryFree, 6);
    LookingCall(w, id, CheckRoot, CheckPrimaryTaken, 7);
  }

  /** The calls of a server whose session has ended all fail: it touches no node, gets no role, and exits or watches. */
  lemma DeadSessionSettles(w: World, id: ServerId)
    requires id in w.servers && !w.servers[id].session
    ensures IsHistory(w, Calls(id, 3))
    ensures var exits := w.servers[id].pc in
              {CheckRoot, CreateRoot, CreatePrimary, CreateBackup, DeleteBackup, PromoteSelf, Exited};
            Outcome(w, Calls(id, 3)) == Goto(w, id, if exits then Exited else Watching)
  {
    var pc1 := DeadNext(w.servers[id].pc);
    var pc2 := DeadNext(pc1);
    DeadStep(w, id);
    DeadStep(Goto(w, id, pc1), id);
    DeadStep(Goto(w, id, pc2), id);
    GotoTwice(w, id, pc1, pc2);
    GotoTwice(w, id, pc2, DeadNext(pc2));
    CallsAtRest(Goto(w, id, DeadNext(pc2)), id, 0);
    CallsStep(Goto(w, id, pc2), id, 1);
    CallsStep(Goto(w, id, pc1), id, 2);
    CallsStep(w, id, 3);
  }

  /** Where a failing call leads. */
  function DeadNext(pc: Pc): Pc {
    match pc
    case CheckRoot => CreateRoot
    case CheckPrimaryTaken => CheckPrimaryFree
    case CheckBackupTaken => CheckPrimaryFree
    case CheckPrimaryFree => CheckPrimaryThere
    case CheckBackupFree => CheckPrimaryThere
    case DeleteBackup => PromoteSelf
    case CheckPrimaryThere => Watching
    case CheckBackupMissing => Watching
    case Watching => Watching
    case _ => Exited
  }

  lemma DeadStep(w: World, id: ServerId)
    requires id in w.servers && !w.servers[id].session
    ensures CallStep(w, id) == Goto(w, id, DeadNext(w.servers[id].pc))
  {
    assert w.servers[id := w.servers[id]] == w.servers;
  }

  lemma GotoTwice(w: World, id: ServerId, first: Pc, second: Pc)
    requires id in w.servers
    ensures Goto(Goto(w, id, first), id, second) == Goto(w, id, second)
  {
    var s := w.servers[id];
    assert w.servers[id := s.(pc := first)][id := s.(pc := second)] == w.servers[id := s.(pc := second)];
  }

  /**
   A watcher that is not overtaken either takes over, if it finds the backup node alone, or does nothing: the
   node of the backup goes and the server owns that of the primary.
   */
  lemma WatcherTakesOverIff(w: World, id: ServerId)
    requires Possible(w, ChildEvent(id))
    ensures IsHistory(w, [ChildEvent(id)] + Calls(id, 2))
    ensures Outcome(w, [ChildEvent(id)] + Calls(id, 2)) ==
            if w.primary.None? && w.backup.Some?
            then World(w.root, Some(id), None, w.servers[id := Server(Watching, PrimaryRole, true)])
            else w
  {
    var events := [ChildEvent(id)] + Calls(id, 2);
    assert events[0] == ChildEvent(id) && events[1..] == Calls(id, 2);
    var noticed := Next(w, ChildEvent(id));
    CallsArePossible(noticed, id, 2);
    if w.primary.None? && w.backup.Some? {
      CallsStep(noticed, id, 2);
      CallsArePossible(CallStep(noticed, id), id, 1);
      CallsStep(CallStep(noticed, id), id, 1);
    } else {
      CallsAtRest(noticed, id, 2);
    }
  }

  /**
   Failover: when the session of the primary ends, a watching backup that is not overtaken becomes primary, and the
   next server to start becomes its backup.
   */
  lemma BackupTakesOver(w: World, gone: ServerId, id: ServerId, next: ServerId)
    requires Inv(w) && w.root && w.primary == Some(gone) && w.backup == Some(id) && w.servers[id].pc.Watching?
    requires next !in w.servers
    ensures var events := [SessionEnd(gone)] + ([ChildEvent(id)] + Calls(id, 2)) + StartUp(next);
            && IsHistory(w, events)
            && var r := Outcome(w, events);
               && r.primary == Some(id) && Holds(r, id, PrimaryRole)
               && r.backup == Some(next) && Holds(r, next, BackupRole)
               && gone in r.servers && !r.servers[gone].session
  {
    var ended := Next(w, SessionEnd(gone));
    var takeOver, start := [ChildEvent(id)] + Calls(id, 2), StartUp(next);
    assert gone != id;
    WatcherTakesOverIff(ended, id);
    var led := Outcome(ended, takeOver);
    RoleAtStartUp(led, next);
    InTwoParts(ended, takeOver, start);
    var events := [SessionEnd(gone)] + takeOver + start;
    assert events[0] == SessionEnd(gone) && events[1..] == takeOver + start;
  }

  lemma {:induction false} InTwoParts(w: World, first: seq<Event>, rest: seq<Event>)
    requires IsHistory(w, first) && IsHistory(Outcome(w, first), rest)
    ensures IsHistory(w, first + rest) && Outcome(w, first + rest) == Outcome(Outcome(w, first), rest)
    decreases |first|
  {
    if first == [] {
      assert first + rest == rest;
    } else {
      assert (first + rest)[0] == first[0] && (first + rest)[1..] == first[1..] + rest;
      InTwoParts(Next(w, first[0]), first[1..], rest);
    }
  }

  /** When the session of the backup ends, the next server to start takes its place. */
  lemma BackupIsReplaced(w: World, gone: ServerId, next: ServerId)
    requires Inv(w) && w.root && w.primary.Some? && w.backup == Some(gone) && next !in w.servers
    ensures var events := [SessionEnd(gone)] + StartUp(next);
            && IsHistory(w, events)
            && Outcome(w, events).primary == w.primary
            && Outcome(w, events).backup == Some(next)
            && Holds(Outcome(w, events), next, BackupRole)
  {
    var ended := Next(w, SessionEnd(gone));
    assert w.primary != Some(gone);
    RoleAtStartUp(ended, next);
    var events := [SessionEnd(gone)] + StartUp(next);
    assert events[0] == SessionEnd(gone) && events[1..] == StartUp(next);
  }
}
