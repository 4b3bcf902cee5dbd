/**
 Shared entries. The two-child case of tree_del does not copy the successor's entry: it makes a second node
 point to it. This module says what that means for a later put and for a later deletion.
 */
module TreeSharing {
  import opened CStrings
  import opened Tree
  import opened TreeDelete

  /** The number of nodes that hold the key, wherever they are. */
  function Holders(t: Tree, key: Key): nat {
    if t.Nil? then 0
    else
      (if t.entry.Some? && t.entry.value.key == key then 1 else 0) + Holders(t.left, key) + Holders(t.right, key)
  }

  /** A write to the entry of a key, as all the nodes that share the entry see it. */
  function WriteThrough(t: Tree, key: Key, value: Option<Data>): Tree {
    match t
    case Nil => Nil
    case Node(e, l, r) =>
      var e' := if e.Some? && e.value.key == key then Some(Entry(key, value)) else e;
      Node(e', WriteThrough(l, key, value), WriteThrough(r, key, value))
  }

  /**
   tree_put where nodes with equal keys share one entry, as they do while searches find every stored key: TreeObjects
   derives this from a tree whose nodes hold the addresses of their entries.
   */
  function PutShared(t: Tree, key: Key, value: Option<Data>): Tree {
    if Find(t, key).Some? then WriteThrough(t, key, value) else Put(t, key, value)
  }

  lemma {:induction false} WriteThroughKeepsShape(t: Tree, key: Key, value: Option<Data>)
    ensures var t' := WriteThrough(t, key, value);
            && Keys(t') == Keys(t)
            && (LooselyRouted(t) ==> LooselyRouted(t'))
            && (Routed(t) ==> Routed(t'))
            && (Tidy(t) ==> Tidy(t'))
  {
    if t.Node? {
      WriteThroughKeepsShape(t.left, key, value);
      WriteThroughKeepsShape(t.right, key, value);
    }
  }

  lemma PutSharedKeepsLoose(t: Tree, key: Key, value: Option<Data>)
    requires Loose(t)
    ensures Loose(PutShared(t, key, value))
    ensures Keys(PutShared(t, key, value)) == Keys(t) + {key}
    ensures WellFormed(t) ==> WellFormed(PutShared(t, key, value))
  {
    FindIffStored(t, key);
    WriteThroughKeepsShape(t, key, value);
    PutKeepsLoose(t, key, value);
    if WellFormed(t) {
      PutKeepsWellFormed(t, key, value);
    }
  }

  lemma {:induction false} FindAfterWrite(t: Tree, key: Key, value: Option<Data>, other: Key)
    ensures Find(WriteThrough(t, key, value), other) ==
            if other == key && Find(t, key).Some? then Some(Entry(key, value)) else Find(t, other)
  {
    if Live(t) {
      RouteCases(other, t.entry.value.key);
      FindAfterWrite(t.left, key, value, other);
      FindAfterWrite(t.right, key, value, other);
    }
  }

  /** The put law with shared entries: every search answers as a map would. */
  lemma FindAfterPutShared(t: Tree, key: Key, value: Option<Data>, other: Key)
    requires Tidy(t)
    ensures Find(PutShared(t, key, value), other) ==
            if other == key then Some(Entry(key, value)) else Find(t, other)
  {
    FindAfterPut(t, key, value, other);
    FindAfterWrite(t, key, value, other);
  }

  lemma GetAfterPutShared(t: Tree, key: Key, value: Option<Data>, other: Key)
    requires Tidy(t)
    ensures Get(PutShared(t, key, value), other) == if other == key then value else Get(t, other)
  {
    FindAfterPutShared(t, key, value, other);
  }

  lemma {:induction false} NoHolder(t: Tree, key: Key, value: Option<Data>)
    requires key !in Keys(t)
    ensures Holders(t, key) == 0 && WriteThrough(t, key, value) == t
  {
    if t.Node? {
      NoHolder(t.left, key, value);
      NoHolder(t.right, key, value);
    }
  }

  /** On a well-formed tree no entry is shared, and a put through shared entries is the plain put. */
  lemma {:induction false} NothingSharedWhenWellFormed(t: Tree, key: Key, value: Option<Data>)
    requires WellFormed(t)
    ensures Holders(t, key) == if key in Keys(t) then 1 else 0
    ensures PutShared(t, key, value) == Put(t, key, value)
  {
    if Live(t) {
      var root := t.entry.value.key;
      RouteCases(key, root);
      FindIffStored(t, key);
      NothingSharedWhenWellFormed(t.left, key, value);
      NothingSharedWhenWellFormed(t.right, key, value);
      if Route(key, root) != ToLeft {
        NoHolder(t.left, key, value);
      }
      if Route(key, root) != ToRight {
        NoHolder(t.right, key, value);
      }
    } else {
      NoHolder(t, key, value);
    }
  }

  /**
   On any tree without keys below a placeholder: the key is held by the node that a search finds and by no other
   exactly if it is not stored again in that node's right subtree.
   */
  lemma {:induction false} FoundEntryIsUnsharedIff(t: Tree, key: Key)
    requires Loose(t) && Live(NodeAt(t, key))
    ensures Holders(t, key) == 1 <==> Find(NodeAt(t, key).right, key).None?
  {
    var root := t.entry.value.key;
    RouteCases(key, root);
    if Route(key, root) == Here {
      NoHolder(t.left, key, None);
      FindIffStored(t.right, key);
      HeldIffStored(t.right, key);
    } else if Route(key, root) == ToLeft {
      FoundEntryIsUnsharedIff(t.left, key);
      NoHolder(t.right, key, None);
    } else {
      FoundEntryIsUnsharedIff(t.right, key);
      NoHolder(t.left, key, None);
    }
  }

  lemma {:induction false} HeldIffStored(t: Tree, key: Key)
    ensures Holders(t, key) > 0 <==> key in Keys(t)
  {
    if t.Node? {
      HeldIffStored(t.left, key);
      HeldIffStored(t.right, key);
    }
  }
}
