/**
 The search tree as the program keeps it: nodes on the heap, changed in place by tree_put and tree_del.
 Every procedure is tied to the function on values that the modules Tree and TreeShape reason about.
 */
module TreeHeap {
  import opened CStrings
  import opened Tree
  import opened TreeShape

  class TreeNode {
    var entry: Option<Entry>
    var left: TreeNode?
    var right: TreeNode?
    ghost var Repr: set<TreeNode>

    ghost predicate Valid()
      reads this, Repr
      ensures Valid() ==> this in Repr
      decreases Repr
    {
      && this in Repr
      && (left != null ==> left in Repr && left.Repr <= Repr && this !in left.Repr && left.Valid())
      && (right != null ==> right in Repr && right.Repr <= Repr && this !in right.Repr && right.Valid())
      && (left != null && right != null ==> left.Repr !! right.Repr)
    }

    /** The tree of values that this node is the root of. */
    ghost function Model(): (t: Tree)
      requires Valid()
      reads this, Repr
      ensures t.Node?
      decreases Repr, 0
    {
      Node(entry, ModelOf(left), ModelOf(right))
    }

    static ghost function ModelOf(n: TreeNode?): (t: Tree)
      requires n != null ==> n.Valid()
      reads n, if n == null then {} else n.Repr
      ensures t.Node? <==> n != null
      decreases if n == null then {} else n.Repr, 1
    {
      if n == null then Nil else n.Model()
    }

    /** tree_create. */
    constructor ()
      ensures Valid() && fresh(Repr) && Model() == EMPTY
    {
      entry, left, right := None, null, null;
      Repr := {this};
    }

    /** tree_put: replaces the value in place, or fills a placeholder, or hangs a new node below. */
    method TreePut(key: Key, value: Option<Data>)
      requires Valid()
      modifies Repr
      ensures Valid() && fresh(Repr - old(Repr))
      ensures Model() == Put(old(Model()), key, value)
      decreases Size(Model()), 1
    {
      if entry.None? {
        entry := Some(Entry(key, value));
        return;
      }
      match Route(key, entry.value.key)
      case Here =>
        entry := Some(Entry(entry.value.key, value));
      case ToRight =>
        PutRight(key, value);
      case ToLeft =>
        PutLeft(key, value);
    }

    /** The right branch of tree_put: hangs a new, empty node there if the child is NULL, then puts below it. */
    method PutRight(key: Key, value: Option<Data>)
      requires Valid() && entry.Some?
      modifies Repr
      ensures Valid() && fresh(Repr - old(Repr))
      ensures Model() == Node(old(entry), old(ModelOf(left)), Put(old(ModelOf(right)), key, value))
      decreases Size(Model()), 0
    {
      ghost var size, other := Size(Model()), ModelOf(left);
      assert Size(ModelOf(right)) < size;
      if right == null {
        right := new TreeNode();
      }
      right.TreePut(key, value);
      Repr := Repr + right.Repr;
      assert Valid() && ModelOf(left) == other;
    }

    /** The left branch of tree_put: hangs a new, empty node there if the child is NULL, then puts below it. */
    method PutLeft(key: Key, value: Option<Data>)
      requires Valid() && entry.Some?
      modifies Repr
      ensures Valid() && fresh(Repr - old(Repr))
      ensures Model() == Node(old(entry), Put(old(ModelOf(left)), key, value), old(ModelOf(right)))
      decreases Size(Model()), 0
    {
      ghost var size, other := Size(Model()), ModelOf(right);
      assert Size(ModelOf(left)) < size;
      if left == null {
        left := new TreeNode();
      }
      left.TreePut(key, value);
      Repr := Repr + left.Repr;
      assert Valid() && ModelOf(right) == other;
    }

    /** tree_get: the stored value, NULL when the search ends at a NULL child or a placeholder. */
    function TreeGet(key: Key): (r: Option<Data>)
      requires Valid()
      reads this, Repr
      ensures r == Get(Model(), key)
      decreases Repr
    {
      if entry.None? then None
      else if Route(key, entry.value.key).Here? then entry.value.value
      else if Route(key, entry.value.key).ToRight? then
        assert Find(Model(), key) == Find(ModelOf(right), key);
        if right == null then None else right.TreeGet(key)
      else
        assert Find(Model(), key) == Find(ModelOf(left), key);
        if left == null then None else left.TreeGet(key)
    }

    /** tree_del of Part 4: empties a leaf, or copies a child or a successor's entry over this node. */
    method TreeDel(key: Key) returns (ok: bool)
      requires Valid()
      modifies Repr
      ensures Valid() && Repr == old(Repr)
      ensures Model() == Del(PartFour, old(Model()), key).0
      ensures ok == Del(PartFour, old(Model()), key).1
      decreases Repr
    {
      if entry.None? {
        return false;
      }
      ghost var l, r := ModelOf(left), ModelOf(right);
      match Route(key, entry.value.key)
      case Here =>
        if left == null && right == null {
          entry := None;
        } else if left == null {
          assert r == right.Model();
          entry, left, right := None, right.left, right.right;
        } else if right == null {
          assert l == left.Model();
          entry, left, right := None, left.left, left.right;
        } else {
          entry := right.LeftmostEntry();
        }
        ok := true;
      case ToLeft =>
        if left == null {
          ok := false;
        } else {
          ok := left.TreeDel(key);
          assert ModelOf(right) == r;
        }
      case ToRight =>
        if right == null {
          ok := false;
        } else {
          ok := right.TreeDel(key);
          assert ModelOf(left) == l;
        }
    }

    /** The loop of tree_del that walks down the left spine. */
    method LeftmostEntry() returns (e: Option<Entry>)
      requires Valid()
      ensures e == EntryOf(Leftmost(Model()))
    {
      var treepoint := this;
      while treepoint.left != null
        invariant treepoint in Repr && treepoint.Valid()
        invariant Leftmost(treepoint.Model()) == Leftmost(Model())
        decreases treepoint.Repr
      {
        treepoint := treepoint.left;
      }
      e := treepoint.entry;
    }

    function TreeSize(): (n: nat)
      requires Valid()
      reads this, Repr
      ensures n == Size(Model())
      decreases Repr
    {
      if entry.None? then 0
      else 1 + (if left == null then 0 else left.TreeSize()) + (if right == null then 0 else right.TreeSize())
    }

    function TreeHeight(): (n: nat)
      requires Valid()
      reads this, Repr
      ensures n == Height(Model())
      decreases Repr
    {
      if entry.None? then 0
      else
        var leftHeight := if left == null then 0 else left.TreeHeight();
        var rightHeight := if right == null then 0 else right.TreeHeight();
        1 + if leftHeight > rightHeight then leftHeight else rightHeight
    }

    /**
     tree_get_keys, in the room that the program allocates; null for an empty tree. The call does not survive a
     placeholder as a child, nor more keys than there is room for.
     */
    method TreeGetKeys() returns (survives: bool, keys: array?<Option<Key>>)
      requires Valid()
      ensures survives <==> ListingSurvives(Model())
      ensures survives ==> (keys == null <==> GetKeys(Model()).NullList?)
      ensures survives && keys != null ==> fresh(keys) && IsList(keys[..], GetKeys(Model()).keys)
      decreases Repr, 2
    {
      if TreeSize() == 0 {
        return true, null;
      }
      keys := new Option<Key>[SLOTS];
      survives := FillKeys(keys);
    }

    /** The array begins with pointers to the keys and a NULL behind the last of them. */
    static ghost predicate IsList(slots: seq<Option<Key>>, keys: seq<Key>) {
      |keys| < |slots| && slots[..|keys|] == Pointers(keys) && slots[|keys|] == None
    }

    static ghost function Pointers(keys: seq<Key>): (slots: seq<Option<Key>>)
      ensures |slots| == |keys|
    {
      seq(|keys|, i requires 0 <= i < |keys| => Some(keys[i]))
    }

    static lemma PointersOfThree(a: seq<Key>, b: seq<Key>, c: seq<Key>)
      ensures Pointers(a + b + c) == Pointers(a) + Pointers(b) + Pointers(c)
    {
    }

    /** The part of tree_get_keys behind the allocation: the node's key, the left keys, the right keys, NULL. */
    method FillKeys(keys: array<Option<Key>>) returns (survives: bool)
      requires Valid() && Live(Model()) && keys.Length == SLOTS
      modifies keys
      ensures survives <==> ListingSurvives(Model())
      ensures survives ==> IsList(keys[..], GetKeys(Model()).keys)
      decreases Repr, 1
    {
      ghost var root, l, r := [entry.value.key], ChildKeys(ModelOf(left)), ChildKeys(ModelOf(right));
      keys[0] := Some(entry.value.key);
      assert keys[..1] == Pointers(root);
      var index: nat;
      survives, index := CopyChildren(keys);
      if survives {
        PointersOfThree(root, l.keys, r.keys);
        survives := index < keys.Length;
        if survives {
          keys[index] := None;
        }
      }
    }

    /** The two parts that copy the keys of the children behind the node's own. */
    method CopyChildren(keys: array<Option<Key>>) returns (survives: bool, index: nat)
      requires Valid() && keys.Length == SLOTS
      modifies keys
      ensures var l, r := ChildKeys(ModelOf(left)), ChildKeys(ModelOf(right));
              && (survives <==> l.Listing? && r.Listing? && 1 + |l.keys| + |r.keys| <= SLOTS)
              && (survives ==>
                    && index == 1 + |l.keys| + |r.keys|
                    && keys[..index] == old(keys[..1]) + Pointers(l.keys) + Pointers(r.keys))
      decreases Repr, 0
    {
      ghost var l, r := ModelOf(left), ModelOf(right);
      survives, index := CopyChildKeys(keys, 1, left);
      assert ModelOf(left) == l && ModelOf(right) == r;
      if survives {
        survives, index := CopyChildKeys(keys, index, right);
        assert ModelOf(left) == l && ModelOf(right) == r;
      }
    }

    /**
     What tree_get_keys does for one child: list its keys and copy them behind the ones already there. The
     program does not survive a child whose list is NULL.
     */
    static method CopyChildKeys(keys: array<Option<Key>>, start: nat, child: TreeNode?)
      returns (survives: bool, index: nat)
      requires child != null ==> child.Valid()
      requires 0 < start <= keys.Length == SLOTS
      modifies keys
      ensures survives <==> ChildKeys(ModelOf(child)).Listing? && start + |ChildKeys(ModelOf(child)).keys| <= SLOTS
      ensures survives ==>
                && index == start + |ChildKeys(ModelOf(child)).keys|
                && keys[..index] == old(keys[..start]) + Pointers(ChildKeys(ModelOf(child)).keys)
      decreases if child == null then {} else child.Repr, 3
    {
      survives, index := true, start;
      if child != null {
        var part: array?<Option<Key>>;
        survives, part := child.TreeGetKeys();
        survives := survives && part != null;
        if survives {
          survives, index := CopyKeys(keys, start, part, GetKeys(child.Model()).keys);
        }
      }
    }

    /** The loop that copies a child's keys, up to the NULL behind them, behind the ones already there. */
    static method CopyKeys(keys: array<Option<Key>>, start: nat, part: array<Option<Key>>, ghost list: seq<Key>)
      returns (survives: bool, index: nat)
      requires keys != part && start <= keys.Length && IsList(part[..], list)
      modifies keys
      ensures survives <==> start + |list| <= keys.Length
      ensures survives ==> index == start + |list| && keys[..index] == old(keys[..start]) + Pointers(list)
    {
      index := start;
      var i := 0;
      while part[i].Some?
        invariant 0 <= i <= |list| && index == start + i <= keys.Length
        invariant keys[..start] == old(keys[..start])
        invariant keys[start..index] == Pointers(list)[..i]
        decreases |list| - i
      {
        if index == keys.Length {
          return false, index;
        }
        keys[index] := part[i];
        index, i := index + 1, i + 1;
      }
      survives := true;
    }
  }
}
