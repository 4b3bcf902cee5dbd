/**
 The tree with its entries as objects in memory: nodes hold addresses, the two-child case of tree_del makes two
 nodes hold one address, and a later write or free through one of them reaches the other. No run of either
 version ever frees an entry that some other node still points to.
 */
module TreeObjects {
  import opened CStrings
  import opened Tree
  import opened TreeDelete
  import opened TreeSharing
  import opened TreeRuns

  /** An entry that lies at an address. */
  datatype Object = Object(address: nat, entry: Entry)

  datatype OTree = ONil | ONode(held: Option<Object>, left: OTree, right: OTree)

  const OEMPTY := ONode(None, ONil, ONil)

  /** The tree of the entries that the nodes point to. */
  function Plain(o: OTree): Tree {
    match o
    case ONil => Nil
    case ONode(None, l, r) => Node(None, Plain(l), Plain(r))
    case ONode(Some(x), l, r) => Node(Some(x.entry), Plain(l), Plain(r))
  }

  ghost function Objects(o: OTree): set<Object> {
    match o
    case ONil => {}
    case ONode(None, l, r) => Objects(l) + Objects(r)
    case ONode(Some(x), l, r) => {x} + Objects(l) + Objects(r)
  }

  ghost function Addresses(o: OTree): set<nat> {
    match o
    case ONil => {}
    case ONode(None, l, r) => Addresses(l) + Addresses(r)
    case ONode(Some(x), l, r) => {x.address} + Addresses(l) + Addresses(r)
  }

  /** The number of nodes that point to the address. */
  function PointersTo(o: OTree, address: nat): nat {
    if o.ONil? then 0
    else
      (if o.held.Some? && o.held.value.address == address then 1 else 0)
      + PointersTo(o.left, address) + PointersTo(o.right, address)
  }

  // ---------------------------------------------------------------- the operations

  /** The node a search for key ends at. */
  function NodeOf(o: OTree, key: Key): OTree {
    match o
    case ONil => ONil
    case ONode(None, _, _) => ONil
    case ONode(Some(x), l, r) =>
      match Route(key, x.entry.key)
      case Here => o
      case ToRight => NodeOf(r, key)
      case ToLeft => NodeOf(l, key)
  }

  /** A write through an address, as every node that holds the address sees it. */
  function WriteTo(o: OTree, address: nat, value: Option<Data>): OTree {
    match o
    case ONil => ONil
    case ONode(None, l, r) => ONode(None, WriteTo(l, address, value), WriteTo(r, address, value))
    case ONode(Some(x), l, r) =>
      var x' := if x.address == address then Object(address, Entry(x.entry.key, value)) else x;
      ONode(Some(x'), WriteTo(l, address, value), WriteTo(r, address, value))
  }

  /** Hangs a new entry where the search for its key ends. */
  function Insert(o: OTree, added: Object): OTree {
    match o
    case ONil => ONode(Some(added), ONil, ONil)
    case ONode(None, l, r) => ONode(Some(added), l, r)
    case ONode(Some(x), l, r) =>
      match Route(added.entry.key, x.entry.key)
      case Here => o
      case ToRight => ONode(Some(x), l, Insert(r, added))
      case ToLeft => ONode(Some(x), Insert(l, added), r)
  }

  /** tree_put: writes to the entry that the search finds, or to a new one at the address that malloc gave. */
  function PutObject(o: OTree, key: Key, value: Option<Data>, address: nat): OTree {
    match NodeOf(o, key)
    case ONode(Some(x), _, _) => WriteTo(o, x.address, value)
    case _ => Insert(o, Object(address, Entry(key, value)))
  }

  function Bottom(o: OTree): (r: OTree)
    ensures o.ONode? ==> r.ONode?
  {
    if o.ONode? && o.left.ONode? then Bottom(o.left) else o
  }

  /** What tree_del does at the node that holds the key: with two children a second node points to the successor. */
  function TakeOut(v: Version, o: OTree): OTree
    requires o.ONode?
  {
    if o.left.ONil? && o.right.ONil? then OEMPTY
    else if o.left.ONil? then
      (if v.PartOne? then o.right else o.right.(held := None))
    else if o.right.ONil? then
      (if v.PartOne? then o.left else o.left.(held := None))
    else ONode(Bottom(o.right).held, o.left, o.right)
  }

  function DelObject(v: Version, o: OTree, key: Key): OTree {
    match o
    case ONil => ONil
    case ONode(None, _, _) => o
    case ONode(Some(x), l, r) =>
      match Route(key, x.entry.key)
      case Here => TakeOut(v, o)
      case ToLeft => ONode(Some(x), DelObject(v, l, key), r)
      case ToRight => ONode(Some(x), l, DelObject(v, r, key))
  }

  /** The address that the deletion passes to entry_destroy: that of the entry found, where a child is NULL. */
  function FreedBy(o: OTree, key: Key): Option<nat> {
    match NodeOf(o, key)
    case ONode(Some(x), l, r) => if l.ONil? || r.ONil? then Some(x.address) else None
    case _ => None
  }

  // ---------------------------------------------------------------- runs

  datatype Step = PutStep(key: Key, value: Option<Data>, address: nat) | DelStep(key: Key)

  /** malloc gives no address that is in use; a run ends where Part 1 frees a linked node. */
  ghost predicate Possible(v: Version, o: OTree, s: Step) {
    match s
    case PutStep(_, _, address) => address !in Addresses(o)
    case DelStep(key) => v.PartFour? || !EndsAtPlaceholder(Plain(o), key)
  }

  function Take(v: Version, o: OTree, s: Step): OTree {
    match s
    case PutStep(key, value, address) => PutObject(o, key, value, address)
    case DelStep(key) => DelObject(v, o, key)
  }

  ghost predicate PossibleRun(v: Version, o: OTree, steps: seq<Step>)
    decreases |steps|
  {
    steps == [] || (Possible(v, o, steps[0]) && PossibleRun(v, Take(v, o, steps[0]), steps[1..]))
  }

  function TakeAll(v: Version, o: OTree, steps: seq<Step>): OTree
    decreases |steps|
  {
    if steps == [] then o else TakeAll(v, Take(v, o, steps[0]), steps[1..])
  }

  // ---------------------------------------------------------------- the invariant of every run

  /** No address is held on two sides of a node, and a node that shares its entry with one below has two children. */
  ghost predicate SharedAbove(o: OTree) {
    o.ONil? ||
    (&& SharedAbove(o.left)
     && SharedAbove(o.right)
     && Addresses(o.left) !! Addresses(o.right)
     && (o.held.Some? && o.held.value.address in Addresses(o.left) + Addresses(o.right) ==>
           o.left.ONode? && o.right.ONode?))
  }

  /** There is one entry at an address. */
  ghost predicate OneEntry(o: OTree) {
    forall a, b :: a in Objects(o) && b in Objects(o) && a.address == b.address ==> a == b
  }

  ghost predicate Inv(o: OTree) {
    SharedAbove(o) && OneEntry(o)
  }

  /** No two addresses hold entries of the same key. */
  ghost predicate OnePerKey(o: OTree) {
    forall a, b :: a in Objects(o) && b in Objects(o) && a.entry.key == b.entry.key ==> a == b
  }

  lemma {:induction false} AddressesOfObjects(o: OTree)
    ensures forall x :: x in Objects(o) ==> x.address in Addresses(o)
    ensures forall a :: a in Addresses(o) ==> exists x :: x in Objects(o) && x.address == a
  {
    if o.ONode? {
      AddressesOfObjects(o.left);
      AddressesOfObjects(o.right);
      if o.held.Some? {
        assert o.held.value in Objects(o);
      }
      forall a | a in Addresses(o) ensures exists x :: x in Objects(o) && x.address == a {
        if a in Addresses(o.left) {
          var x :| x in Objects(o.left) && x.address == a;
          assert x in Objects(o);
        } else if a in Addresses(o.right) {
          var x :| x in Objects(o.right) && x.address == a;
          assert x in Objects(o);
        }
      }
    }
  }

  lemma {:induction false} BottomIsBelow(o: OTree)
    ensures Bottom(o).ONode? && Bottom(o).held.Some? ==>
              Bottom(o).held.value in Objects(o) && Bottom(o).held.value.address in Addresses(o)
  {
    if o.ONode? {
      BottomIsBelow(o.left);
    }
  }

  /** A deletion invents no object, and only a node that loses its place takes its children with it. */
  lemma {:induction false} DelObjectShrinks(v: Version, o: OTree, key: Key)
    ensures Objects(DelObject(v, o, key)) <= Objects(o) && Addresses(DelObject(v, o, key)) <= Addresses(o)
    ensures DelObject(v, o, key).ONode? <==> o.ONode?
  {
    if o.ONode? {
      DelObjectShrinks(v, o.left, key);
      DelObjectShrinks(v, o.right, key);
      BottomIsBelow(o.right);
    }
  }

  lemma {:induction false} DelKeepsSharedAbove(v: Version, o: OTree, key: Key)
    requires SharedAbove(o)
    ensures SharedAbove(DelObject(v, o, key))
  {
    if o.ONode? {
      DelKeepsSharedAbove(v, o.left, key);
      DelKeepsSharedAbove(v, o.right, key);
      DelObjectShrinks(v, o.left, key);
      DelObjectShrinks(v, o.right, key);
      BottomIsBelow(o.right);
    }
  }

  lemma {:induction false} InsertAddsOne(o: OTree, added: Object)
    ensures Addresses(Insert(o, added)) <= Addresses(o) + {added.address}
    ensures Objects(Insert(o, added)) <= Objects(o) + {added}
    ensures Insert(o, added).ONode?
  {
    if o.ONode? {
      InsertAddsOne(o.left, added);
      InsertAddsOne(o.right, added);
    }
  }

  lemma {:induction false} InsertKeepsSharedAbove(o: OTree, added: Object)
    requires SharedAbove(o) && added.address !in Addresses(o)
    ensures SharedAbove(Insert(o, added))
  {
    if o.ONode? && o.held.Some? {
      InsertAddsOne(o.left, added);
      InsertAddsOne(o.right, added);
      if Route(added.entry.key, o.held.value.entry.key) == ToLeft {
        InsertKeepsSharedAbove(o.left, added);
      } else {
        InsertKeepsSharedAbove(o.right, added);
      }
    }
  }

  lemma {:induction false} WriteKeepsSharedAbove(o: OTree, address: nat, value: Option<Data>)
    ensures Addresses(WriteTo(o, address, value)) == Addresses(o)
    ensures SharedAbove(o) ==> SharedAbove(WriteTo(o, address, value))
    ensures forall y :: y in Objects(WriteTo(o, address, value)) ==>
              exists x :: x in Objects(o) && y == Written(x, address, value)
  {
    if o.ONode? {
      WriteKeepsSharedAbove(o.left, address, value);
      WriteKeepsSharedAbove(o.right, address, value);
      forall y | y in Objects(WriteTo(o, address, value))
        ensures exists x :: x in Objects(o) && y == Written(x, address, value)
      {
        if y in Objects(WriteTo(o.left, address, value)) {
          var x :| x in Objects(o.left) && y == Written(x, address, value);
          assert x in Objects(o);
        } else if y in Objects(WriteTo(o.right, address, value)) {
          var x :| x in Objects(o.right) && y == Written(x, address, value);
          assert x in Objects(o);
        } else {
          assert o.held.value in Objects(o) && y == Written(o.held.value, address, value);
        }
      }
    }
  }

  function Written(x: Object, address: nat, value: Option<Data>): Object {
    if x.address == address then Object(address, Entry(x.entry.key, value)) else x
  }

  lemma WriteKeepsInv(o: OTree, address: nat, value: Option<Data>)
    requires Inv(o)
    ensures Inv(WriteTo(o, address, value))
    ensures OnePerKey(o) ==> OnePerKey(WriteTo(o, address, value))
  {
    WriteKeepsSharedAbove(o, address, value);
    var o' := WriteTo(o, address, value);
    forall a, b | a in Objects(o') && b in Objects(o')
      ensures a.address == b.address ==> a == b
      ensures OnePerKey(o) && a.entry.key == b.entry.key ==> a == b
    {
      var x :| x in Objects(o) && a == Written(x, address, value);
      var y :| y in Objects(o) && b == Written(y, address, value);
    }
  }

  lemma InsertKeepsInv(o: OTree, added: Object)
    requires Inv(o) && added.address !in Addresses(o)
    ensures Inv(Insert(o, added))
    ensures OnePerKey(o) && (forall x :: x in Objects(o) ==> x.entry.key != added.entry.key) ==>
              OnePerKey(Insert(o, added))
  {
    InsertKeepsSharedAbove(o, added);
    InsertAddsOne(o, added);
    AddressesOfObjects(o);
    var o' := Insert(o, added);
    forall a, b | a in Objects(o') && b in Objects(o') && a.address == b.address ensures a == b {
      assert a in Objects(o) || a == added;
      assert b in Objects(o) || b == added;
    }
  }

  lemma PutKeepsInv(o: OTree, key: Key, value: Option<Data>, address: nat)
    requires Inv(o) && address !in Addresses(o)
    ensures Inv(PutObject(o, key, value, address))
  {
    var node := NodeOf(o, key);
    if node.ONode? && node.held.Some? {
      WriteKeepsInv(o, node.held.value.address, value);
    } else {
      InsertKeepsInv(o, Object(address, Entry(key, value)));
    }
  }

  lemma DelKeepsInv(v: Version, o: OTree, key: Key)
    requires Inv(o)
    ensures Inv(DelObject(v, o, key))
  {
    DelKeepsSharedAbove(v, o, key);
    DelObjectShrinks(v, o, key);
  }

  lemma {:induction false} RunKeepsInv(v: Version, o: OTree, steps: seq<Step>)
    requires Inv(o) && PossibleRun(v, o, steps)
    ensures Inv(TakeAll(v, o, steps))
    decreases |steps|
  {
    if steps != [] {
      match steps[0] {
        case PutStep(key, value, address) => PutKeepsInv(o, key, value, address);
        case DelStep(key) => DelKeepsInv(v, o, key);
      }
      RunKeepsInv(v, Take(v, o, steps[0]), steps[1..]);
    }
  }

  // ---------------------------------------------------------------- nothing that is freed is still pointed to

  lemma {:induction false} NoPointer(o: OTree, address: nat)
    ensures PointersTo(o, address) == 0 <==> address !in Addresses(o)
  {
    if o.ONode? {
      NoPointer(o.left, address);
      NoPointer(o.right, address);
    }
  }

  /** The freed entry has the key of the deletion. */
  lemma {:induction false} FreedHasKey(o: OTree, key: Key)
    requires FreedBy(o, key).Some?
    ensures exists x :: x in Objects(o) && x.address == FreedBy(o, key).value && x.entry.key == key
    ensures FreedBy(o, key).value in Addresses(o)
  {
    var root := o.held.value;
    RouteCases(key, root.entry.key);
    if Route(key, root.entry.key) == Here {
      assert root in Objects(o);
    } else {
      var child := if Route(key, root.entry.key) == ToLeft then o.left else o.right;
      FreedHasKey(child, key);
      var x :| x in Objects(child) && x.address == FreedBy(o, key).value && x.entry.key == key;
      assert x in Objects(o);
    }
  }

  /** A deletion frees an entry exactly if a search finds its key, in a node of which a child is NULL. */
  lemma {:induction false} FreesIff(o: OTree, key: Key)
    ensures FreedBy(o, key).Some? <==>
            var node := NodeAt(Plain(o), key);
            Live(node) && (node.left.Nil? || node.right.Nil?)
  {
    if o.ONode? && o.held.Some? {
      FreesIff(o.left, key);
      FreesIff(o.right, key);
    }
  }

  lemma {:induction false} FreedIsUnshared(v: Version, o: OTree, key: Key)
    requires Inv(o) && FreedBy(o, key).Some?
    ensures PointersTo(o, FreedBy(o, key).value) == 1
    ensures FreedBy(o, key).value !in Addresses(DelObject(v, o, key))
  {
    var root, a := o.held.value, FreedBy(o, key).value;
    RouteCases(key, root.entry.key);
    if Route(key, root.entry.key) == Here {
      NoPointer(o.left, a);
      NoPointer(o.right, a);
    } else {
      var left := Route(key, root.entry.key) == ToLeft;
      var child, other := if left then o.left else o.right, if left then o.right else o.left;
      FreedIsUnshared(v, child, key);
      FreedHasKey(child, key);
      NoPointer(other, a);
      var x :| x in Objects(child) && x.address == a && x.entry.key == key;
      assert root in Objects(o) && x in Objects(o) && root.address != a;
    }
  }

  /**
   In every run of puts and deletions from a new tree, of either version and whatever the shapes of the deleted nodes:
   an entry that a deletion frees was held by one node, and no node holds its address afterwards.
   */
  lemma NoFreedEntryIsHeld(v: Version, steps: seq<Step>, key: Key)
    requires PossibleRun(v, OEMPTY, steps)
    ensures var o := TakeAll(v, OEMPTY, steps);
            var node := NodeAt(Plain(o), key);
            && (FreedBy(o, key).Some? <==> Live(node) && (node.left.Nil? || node.right.Nil?))
            && (FreedBy(o, key).Some? ==>
                  && PointersTo(o, FreedBy(o, key).value) == 1
                  && FreedBy(o, key).value !in Addresses(DelObject(v, o, key)))
  {
    RunKeepsInv(v, OEMPTY, steps);
    var o := TakeAll(v, OEMPTY, steps);
    FreesIff(o, key);
    if FreedBy(o, key).Some? {
      FreedIsUnshared(v, o, key);
    }
  }

  // ---------------------------------------------------------------- the same runs without addresses

  function OpOf(s: Step): Op {
    match s
    case PutStep(key, value, _) => PutOp(key, value)
    case DelStep(key) => DelOp(key)
  }

  function OpsOf(steps: seq<Step>): (ops: seq<Op>)
    ensures |ops| == |steps|
    decreases |steps|
  {
    if steps == [] then [] else [OpOf(steps[0])] + OpsOf(steps[1..])
  }

  lemma {:induction false} KeysOfObjects(o: OTree)
    ensures forall x :: x in Objects(o) ==> x.entry.key in Keys(Plain(o))
  {
    if o.ONode? {
      KeysOfObjects(o.left);
      KeysOfObjects(o.right);
    }
  }

  lemma {:induction false} FoundIsFound(o: OTree, key: Key)
    ensures Find(Plain(o), key).Some? <==> NodeOf(o, key).ONode?
    ensures NodeOf(o, key).ONode? ==>
              && NodeOf(o, key).held.Some?
              && NodeOf(o, key).held.value in Objects(o)
              && NodeOf(o, key).held.value.entry.key == key
  {
    if o.ONode? && o.held.Some? {
      RouteCases(key, o.held.value.entry.key);
      FoundIsFound(o.left, key);
      FoundIsFound(o.right, key);
    }
  }

  lemma {:induction false} PlainWrite(o: OTree, address: nat, key: Key, value: Option<Data>)
    requires forall x :: x in Objects(o) ==> (x.address == address <==> x.entry.key == key)
    ensures Plain(WriteTo(o, address, value)) == WriteThrough(Plain(o), key, value)
  {
    if o.ONode? {
      PlainWrite(o.left, address, key, value);
      PlainWrite(o.right, address, key, value);
      if o.held.Some? {
        assert o.held.value in Objects(o);
      }
    }
  }

  lemma {:induction false} PlainInsert(o: OTree, added: Object)
    requires NodeOf(o, added.entry.key).ONil?
    ensures Plain(Insert(o, added)) == Put(Plain(o), added.entry.key, added.entry.value)
  {
    if o.ONode? && o.held.Some? {
      PlainInsert(if Route(added.entry.key, o.held.value.entry.key) == ToLeft then o.left else o.right, added);
    }
  }

  lemma {:induction false} PlainBottom(o: OTree)
    ensures Plain(Bottom(o)) == Leftmost(Plain(o))
  {
    if o.ONode? {
      PlainBottom(o.left);
    }
  }

  lemma PlainTakeOut(v: Version, o: OTree)
    requires o.ONode?
    ensures Plain(TakeOut(v, o)) == RemoveHere(v, Plain(o))
  {
    PlainBottom(o.right);
  }

  /** On any tree the deletion of objects is the deletion of the entries that they are. */
  lemma {:induction false} PlainDel(v: Version, o: OTree, key: Key)
    ensures Plain(DelObject(v, o, key)) == Del(v, Plain(o), key).0
  {
    if o.ONode? && o.held.Some? {
      PlainTakeOut(v, o);
      PlainDel(v, o.left, key);
      PlainDel(v, o.right, key);
    }
  }

  lemma PlainPut(o: OTree, key: Key, value: Option<Data>, address: nat)
    requires Inv(o) && OnePerKey(o) && Loose(Plain(o)) && address !in Addresses(o)
    ensures Plain(PutObject(o, key, value, address)) == PutShared(Plain(o), key, value)
    ensures OnePerKey(PutObject(o, key, value, address))
  {
    FoundIsFound(o, key);
    var node := NodeOf(o, key);
    if node.ONode? {
      PlainWrite(o, node.held.value.address, key, value);
      WriteKeepsInv(o, node.held.value.address, value);
    } else {
      PlainInsert(o, Object(address, Entry(key, value)));
      FindIffStored(Plain(o), key);
      KeysOfObjects(o);
      InsertKeepsInv(o, Object(address, Entry(key, value)));
    }
  }

  /**
   As long as every deletion is loosely safe, nodes with equal keys are nodes with one address, so that the run on
   objects is the run of TreeRuns, and what is proved there about searches holds of the objects.
   */
  lemma {:induction false} ObjectsFollowTheRun(v: Version, o: OTree, m: Map, steps: seq<Step>)
    requires Inv(o) && OnePerKey(o) && Loose(Plain(o)) && Models(Plain(o), m)
    requires PossibleRun(v, o, steps) && LooselySafeRun(v, Plain(o), OpsOf(steps))
    ensures Plain(TakeAll(v, o, steps)) == AfterRun(v, Plain(o), OpsOf(steps))
    ensures OnePerKey(TakeAll(v, o, steps))
    decreases |steps|
  {
    if steps != [] {
      var s, o' := steps[0], Take(v, o, steps[0]);
      assert OpsOf(steps)[0] == OpOf(s) && OpsOf(steps)[1..] == OpsOf(steps[1..]);
      LooseStepIff(v, Plain(o), m, OpOf(s));
      match s {
        case PutStep(key, value, address) =>
          PutKeepsInv(o, key, value, address);
          PlainPut(o, key, value, address);
        case DelStep(key) =>
          DelKeepsInv(v, o, key);
          DelObjectShrinks(v, o, key);
          PlainDel(v, o, key);
      }
      ObjectsFollowTheRun(v, o', ApplyToMap(m, OpOf(s)).0, steps[1..]);
    }
  }
}
