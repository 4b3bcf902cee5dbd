/**
 The search tree on values: what tree_put, tree_get and tree_del compute, node by node, with the
 program's own three-way test. A child pointer that is NULL is Nil; a node whose entry pointer is
 NULL (a placeholder) is a Node with no entry.
 */
module Tree {
  import opened CStrings

  /** One more than the largest size_t. */
  const SIZE_LIMIT := 0x1_0000_0000_0000_0000

  /** A key fits in memory, so its length fits in a size_t. */
  type Key = k: CString | |k| < SIZE_LIMIT

  /** A stored value is None where the program stores a NULL data pointer. */
  datatype Entry = Entry(key: Key, value: Option<Data>)

  datatype Tree = Nil | Node(entry: Option<Entry>, left: Tree, right: Tree)

  datatype Side = Here | ToLeft | ToRight

  /** The two deletion procedures: Part 1 and Part 4 of the project differ when one child is NULL. */
  datatype Version = PartOne | PartFour

  datatype Op = PutOp(key: Key, value: Option<Data>) | DelOp(key: Key)

  const EMPTY := Node(None, Nil, Nil)

  // ---------------------------------------------------------------- the three-way test

  /** strlen(a) - strlen(b) in the unsigned type size_t: it wraps around instead of going negative. */
  function LengthDifference(a: Key, b: Key): nat {
    (|a| - |b|) % SIZE_LIMIT
  }

  /** Where a search for key continues at a node that holds the key at. */
  function Route(key: Key, at: Key): Side {
    if LengthDifference(key, at) == 0 then
      if StrCmp(key, at) == 0 then Here else if StrCmp(key, at) > 0 then ToRight else ToLeft
    else if LengthDifference(key, at) > 0 then ToRight
    else ToLeft
  }

  /** What the test really does: only keys of the same length are ever compared. */
  lemma RouteCases(key: Key, at: Key)
    ensures Route(key, at) == Here <==> key == at
    ensures Route(key, at) == ToLeft <==> |key| == |at| && StrCmp(key, at) < 0
    ensures Route(key, at) == ToRight <==> |key| != |at| || StrCmp(key, at) > 0
  {
    StrCmpAntisymmetric(key, at);
  }

  /** The test is not an order: two keys of different lengths each go to the right of the other. */
  lemma RouteIsNotAnOrder(a: Key, b: Key)
    ensures Route(a, b) == ToRight && Route(b, a) == ToRight <==> |a| != |b|
  {
    RouteCases(a, b);
    RouteCases(b, a);
    StrCmpAntisymmetric(a, b);
  }

  // ---------------------------------------------------------------- the operations

  /** tree_put; on Nil it is the freshly created child node that receives the entry. */
  function Put(t: Tree, key: Key, value: Option<Data>): Tree {
    match t
    case Nil => Node(Some(Entry(key, value)), Nil, Nil)
    case Node(None, l, r) => Node(Some(Entry(key, value)), l, r)
    case Node(Some(e), l, r) =>
      match Route(key, e.key)
      case Here => Node(Some(Entry(e.key, value)), l, r)
      case ToRight => Node(Some(e), l, Put(r, key, value))
      case ToLeft => Node(Some(e), Put(l, key, value), r)
  }

  /** The entry a search for key ends at. */
  function Find(t: Tree, key: Key): Option<Entry> {
    match t
    case Nil => None
    case Node(None, _, _) => None
    case Node(Some(e), l, r) =>
      match Route(key, e.key)
      case Here => Some(e)
      case ToRight => Find(r, key)
      case ToLeft => Find(l, key)
  }

  /** tree_get: a copy of the value found, NULL when there is none. */
  function Get(t: Tree, key: Key): Option<Data> {
    match Find(t, key)
    case None => None
    case Some(e) => e.value
  }

  /** The bottom of the left spine, where the two-child case of tree_del looks for a successor. */
  function Leftmost(t: Tree): Tree {
    if t.Node? && t.left.Node? then Leftmost(t.left) else t
  }

  function EntryOf(t: Tree): Option<Entry> {
    if t.Node? then t.entry else None
  }

  /** What tree_del does at the node that holds the key. */
  function RemoveHere(v: Version, t: Tree): Tree
    requires t.Node?
  {
    if t.left.Nil? && t.right.Nil? then Node(None, Nil, Nil)
    else if t.left.Nil? then
      (if v.PartOne? then t.right else t.right.(entry := None))
    else if t.right.Nil? then
      (if v.PartOne? then t.left else t.left.(entry := None))
    else Node(EntryOf(Leftmost(t.right)), t.left, t.right)
  }

  /**
   A call of tree_del that frees a node which stays linked: when a search ends at a placeholder, Part 1
   destroys that node and leaves the pointer to it, in its parent or in the caller, as it was.
   */
  predicate FreesLinkedNode(v: Version, t: Tree, key: Key) {
    match t
    case Nil => false
    case Node(None, _, _) => v.PartOne?
    case Node(Some(e), l, r) =>
      match Route(key, e.key)
      case Here => false
      case ToLeft => FreesLinkedNode(v, l, key)
      case ToRight => FreesLinkedNode(v, r, key)
  }

  /** tree_del, where it does not free a linked node: the new tree, and whether the procedure answered 0. */
  function Del(v: Version, t: Tree, key: Key): (Tree, bool) {
    match t
    case Nil => (Nil, false)
    case Node(None, _, _) => (t, false)
    case Node(Some(e), l, r) =>
      match Route(key, e.key)
      case Here => (RemoveHere(v, t), true)
      case ToLeft => (Node(Some(e), Del(v, l, key).0, r), Del(v, l, key).1)
      case ToRight => (Node(Some(e), l, Del(v, r, key).0), Del(v, r, key).1)
  }

  // ---------------------------------------------------------------- the invariant

  /** Every key stored anywhere in the tree, whether or not a search can reach it. */
  ghost function Keys(t: Tree): set<Key> {
    match t
    case Nil => {}
    case Node(None, l, r) => Keys(l) + Keys(r)
    case Node(Some(e), l, r) => {e.key} + Keys(l) + Keys(r)
  }

  predicate Live(t: Tree) {
    t.Node? && t.entry.Some?
  }

  /**
   Every key of a left subtree routes left at each ancestor; every key of a right subtree routes right, or
   is stored at the ancestor too and thus shadowed by it.
   */
  ghost predicate LooselyRouted(t: Tree) {
    t.Nil? ||
    (&& (t.entry.Some? ==> forall k :: k in Keys(t.left) ==> Route(k, t.entry.value.key) == ToLeft)
     && (t.entry.Some? ==> forall k :: k in Keys(t.right) ==> Route(k, t.entry.value.key) in {ToRight, Here})
     && LooselyRouted(t.left)
     && LooselyRouted(t.right))
  }

  /** Every key of a left subtree routes left and every key of a right subtree routes right, at each ancestor. */
  ghost predicate Routed(t: Tree)
    ensures Routed(t) ==> LooselyRouted(t)
  {
    t.Nil? ||
    (&& (t.entry.Some? ==> forall k :: k in Keys(t.left) ==> Route(k, t.entry.value.key) == ToLeft)
     && (t.entry.Some? ==> forall k :: k in Keys(t.right) ==> Route(k, t.entry.value.key) == ToRight)
     && Routed(t.left)
     && Routed(t.right))
  }

  /** Nothing is stored below a placeholder. */
  ghost predicate Tidy(t: Tree) {
    t.Nil? || ((t.entry.None? ==> Keys(t) == {}) && Tidy(t.left) && Tidy(t.right))
  }

  ghost predicate WellFormed(t: Tree) {
    Routed(t) && Tidy(t)
  }

  /** Well formed, but for shadowed keys. */
  ghost predicate Loose(t: Tree) {
    LooselyRouted(t) && Tidy(t)
  }

  /** Even with shadowed keys the search finds every stored key, and no other. */
  lemma {:induction false} FindIffStored(t: Tree, key: Key)
    requires Loose(t)
    ensures Find(t, key).Some? <==> key in Keys(t)
    ensures Find(t, key).Some? ==> Find(t, key).value.key == key
  {
    if Live(t) {
      RouteCases(key, t.entry.value.key);
      FindIffStored(t.left, key);
      FindIffStored(t.right, key);
    }
  }

  // ---------------------------------------------------------------- put

  lemma {:induction false} PutKeepsWellFormed(t: Tree, key: Key, value: Option<Data>)
    requires WellFormed(t)
    ensures WellFormed(Put(t, key, value))
    ensures Keys(Put(t, key, value)) == Keys(t) + {key}
  {
    if Live(t) {
      RouteCases(key, t.entry.value.key);
      PutKeepsWellFormed(t.left, key, value);
      PutKeepsWellFormed(t.right, key, value);
    }
  }

  lemma {:induction false} PutKeepsLoose(t: Tree, key: Key, value: Option<Data>)
    requires Loose(t)
    ensures Loose(Put(t, key, value))
    ensures Keys(Put(t, key, value)) == Keys(t) + {key}
  {
    if Live(t) {
      RouteCases(key, t.entry.value.key);
      PutKeepsLoose(t.left, key, value);
      PutKeepsLoose(t.right, key, value);
    }
  }

  /** A search never ends at an entry of another key. */
  lemma {:induction false} FindStored(t: Tree, key: Key)
    ensures Find(t, key).Some? ==> Find(t, key).value.key == key && key in Keys(t)
  {
    if Live(t) {
      RouteCases(key, t.entry.value.key);
      FindStored(t.left, key);
      FindStored(t.right, key);
    }
  }

  /**
   The put law, although the test is not an order: after a put every search answers as a map would, on any
   tree that stores nothing below a placeholder.
   */
  lemma {:induction false} FindAfterPut(t: Tree, key: Key, value: Option<Data>, other: Key)
    requires Tidy(t)
    ensures Find(Put(t, key, value), other) ==
            if other == key then Some(Entry(key, value)) else Find(t, other)
  {
    if t.Nil? {
      RouteCases(other, key);
    } else if t.entry.None? {
      RouteCases(other, key);
      FindStored(t.left, other);
      FindStored(t.right, other);
    } else {
      RouteCases(key, t.entry.value.key);
      RouteCases(other, t.entry.value.key);
      FindAfterPut(t.left, key, value, other);
      FindAfterPut(t.right, key, value, other);
    }
  }

  /** What tree_get answers after a put: all the data put for the key, and for every other key what it was. */
  lemma GetAfterPut(t: Tree, key: Key, value: Option<Data>, other: Key)
    requires Tidy(t)
    ensures Get(Put(t, key, value), other) == if other == key then value else Get(t, other)
  {
    FindAfterPut(t, key, value, other);
  }
}
