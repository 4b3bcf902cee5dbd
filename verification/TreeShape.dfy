/** What tree_size, tree_height and tree_get_keys answer, and how the answers are tied together. */
module TreeShape {
  import opened CStrings
  import opened Tree

  function Size(t: Tree): nat {
    match t
    case Nil => 0
    case Node(None, _, _) => 0
    case Node(Some(_), l, r) => 1 + Size(l) + Size(r)
  }

  function Height(t: Tree): nat {
    match t
    case Nil => 0
    case Node(None, _, _) => 0
    case Node(Some(_), l, r) => 1 + (if Height(l) > Height(r) then Height(l) else Height(r))
  }

  /** The array of keys is NULL for an empty tree; the loop over a child's NULL array is a fault. */
  datatype KeyList = NullList | Listing(keys: seq<Key>) | Fault

  /** The keys a child contributes: none for a NULL child; the loop faults on a child without an array. */
  function ChildKeys(child: Tree): KeyList
    decreases child, 1
  {
    if child.Nil? then Listing([])
    else if GetKeys(child).NullList? then Fault
    else GetKeys(child)
  }

  /** tree_get_keys: the node's key, then the left keys, then the right keys. */
  function GetKeys(t: Tree): KeyList
    decreases t, 0
  {
    if t.Nil? || Size(t) == 0 then NullList
    else
      var l, r := ChildKeys(t.left), ChildKeys(t.right);
      if l.Fault? || r.Fault? then Fault
      else Listing([t.entry.value.key] + l.keys + r.keys)
  }

  /**
   The room that tree_get_keys allocates: sizeof(char *) * sizeof(int) + sizeof(NULL) bytes whatever the tree, which is
   five pointers where a pointer has eight bytes and an int four.
   */
  const SLOTS := 5

  /** The listing with its final NULL stays inside that room, and no loop runs over a NULL array. */
  predicate ListingSurvives(t: Tree) {
    match GetKeys(t)
    case NullList => true
    case Listing(keys) => |keys| < SLOTS
    case Fault => false
  }

  /** No child pointer leads to a placeholder. */
  predicate NoEmptyChild(t: Tree) {
    t.Nil? ||
    (&& (t.left.Node? ==> t.left.entry.Some?)
     && (t.right.Node? ==> t.right.entry.Some?)
     && NoEmptyChild(t.left)
     && NoEmptyChild(t.right))
  }

  ghost predicate NoDuplicates(s: seq<Key>) {
    forall i, j :: 0 <= i < j < |s| ==> s[i] != s[j]
  }

  ghost function Elements(s: seq<Key>): set<Key> {
    set k | k in s
  }

  function Pow2(n: nat): nat {
    if n == 0 then 1 else 2 * Pow2(n - 1)
  }

  /** tree_size counts every stored key once. */
  lemma {:induction false} SizeCountsKeys(t: Tree)
    requires WellFormed(t)
    ensures Size(t) == |Keys(t)|
  {
    if Live(t) {
      SizeCountsKeys(t.left);
      SizeCountsKeys(t.right);
      SubtreesAreDisjoint(t);
      assert |{t.entry.value.key} + Keys(t.left)| == 1 + |Keys(t.left)|;
      assert |{t.entry.value.key} + Keys(t.left) + Keys(t.right)| == 1 + |Keys(t.left)| + |Keys(t.right)|;
    }
  }

  lemma SubtreesAreDisjoint(t: Tree)
    requires WellFormed(t) && Live(t)
    ensures Keys(t.left) !! Keys(t.right)
    ensures t.entry.value.key !in Keys(t.left) && t.entry.value.key !in Keys(t.right)
  {
    RouteCases(t.entry.value.key, t.entry.value.key);
  }

  /** The height is at most the size, and the size at most that of a full tree of the height, on any tree. */
  lemma {:induction false} HeightBounds(t: Tree)
    ensures Height(t) <= Size(t) <= Pow2(Height(t)) - 1
  {
    if Live(t) {
      HeightBounds(t.left);
      HeightBounds(t.right);
      var top := Height(t) - 1;
      Pow2Monotonic(Height(t.left), top);
      Pow2Monotonic(Height(t.right), top);
    }
  }

  lemma {:induction false} Pow2Monotonic(m: nat, n: nat)
    requires m <= n
    ensures 1 <= Pow2(m) <= Pow2(n)
    decreases n
  {
    if m < n {
      Pow2Monotonic(m, n - 1);
    } else if m > 0 {
      Pow2Monotonic(m - 1, n - 1);
    }
  }

  /** The listing holds every stored key exactly once, and its length is tree_size. */
  lemma {:induction false} ListingIsExact(t: Tree)
    requires WellFormed(t) && GetKeys(t).Listing?
    ensures var keys := GetKeys(t).keys;
            NoDuplicates(keys) && Elements(keys) == Keys(t) && |keys| == Size(t)
  {
    var l, r := ChildKeys(t.left).keys, ChildKeys(t.right).keys;
    if t.left.Node? {
      ListingIsExact(t.left);
    }
    if t.right.Node? {
      ListingIsExact(t.right);
    }
    assert Elements(l) == Keys(t.left) && Elements(r) == Keys(t.right);
    SubtreesAreDisjoint(t);
    var root := t.entry.value.key;
    var keys := [root] + l + r;
    forall k ensures k in keys <==> k in Keys(t) {
      assert k in keys <==> k == root || k in l || k in r;
      assert k in l <==> k in Elements(l);
      assert k in r <==> k in Elements(r);
    }
    forall i, j | 0 <= i < j < |keys| ensures keys[i] != keys[j] {
      ConcatDistinct(root, l, r, i, j);
    }
  }

  /** On any tree, a listing has as many keys as tree_size counts. */
  lemma {:induction false} ListingLength(t: Tree)
    requires GetKeys(t).Listing?
    ensures |GetKeys(t).keys| == Size(t)
  {
    if t.left.Node? {
      ListingLength(t.left);
    }
    if t.right.Node? {
      ListingLength(t.right);
    }
  }

  lemma ConcatDistinct(root: Key, l: seq<Key>, r: seq<Key>, i: nat, j: nat)
    requires NoDuplicates(l) && NoDuplicates(r) && Elements(l) !! Elements(r)
    requires root !in Elements(l) && root !in Elements(r)
    requires i < j < 1 + |l| + |r|
    ensures ([root] + l + r)[i] != ([root] + l + r)[j]
  {
    var keys := [root] + l + r;
    assert 0 < i <= |l| ==> keys[i] == l[i - 1] && l[i - 1] in Elements(l);
    assert 0 < j <= |l| ==> keys[j] == l[j - 1] && l[j - 1] in Elements(l);
    assert |l| < i ==> keys[i] == r[i - 1 - |l|] && r[i - 1 - |l|] in Elements(r);
    assert |l| < j ==> keys[j] == r[j - 1 - |l|] && r[j - 1 - |l|] in Elements(r);
  }

  /** The turns that a search for the key takes from the root. */
  function Path(t: Tree, key: Key): seq<Side> {
    if !Live(t) then []
    else match Route(key, t.entry.value.key)
      case Here => []
      case ToLeft => [ToLeft] + Path(t.left, key)
      case ToRight => [ToRight] + Path(t.right, key)
  }

  /** Where a sequence of turns leads from the root. */
  function Descend(t: Tree, turns: seq<Side>): Tree
    decreases |turns|
  {
    if turns == [] || t.Nil? then t
    else Descend(if turns[0] == ToLeft then t.left else t.right, turns[1..])
  }

  /** The turns stay on nodes with an entry, from the root to their end. */
  predicate OnEntries(t: Tree, turns: seq<Side>)
    decreases |turns|
  {
    && Live(t)
    && (turns != [] ==>
          turns[0] != Here && OnEntries(if turns[0] == ToLeft then t.left else t.right, turns[1..]))
  }

  /** The path of a stored key leads over entries to the node that holds it. */
  lemma {:induction false} PathLeadsToKey(t: Tree, key: Key)
    requires WellFormed(t) && key in Keys(t)
    ensures OnEntries(t, Path(t, key))
    ensures EntryOf(Descend(t, Path(t, key))).Some? && EntryOf(Descend(t, Path(t, key))).value.key == key
  {
    var root := t.entry.value.key;
    RouteCases(key, root);
    if Route(key, root) != Here {
      var child := if Route(key, root) == ToLeft then t.left else t.right;
      PathLeadsToKey(child, key);
      assert Path(t, key)[1..] == Path(child, key);
    }
  }

  /** No path over entries is as long as the height, on any tree. */
  lemma {:induction false} PathsAreShort(t: Tree, turns: seq<Side>)
    requires OnEntries(t, turns)
    ensures |turns| + 1 <= Height(t)
    decreases |turns|
  {
    if turns != [] {
      PathsAreShort(if turns[0] == ToLeft then t.left else t.right, turns[1..]);
    }
  }

  lemma {:induction false} LongestPath(t: Tree) returns (turns: seq<Side>)
    requires Live(t)
    ensures OnEntries(t, turns) && |turns| + 1 == Height(t)
    ensures EntryOf(Descend(t, turns)).Some?
  {
    var left := Height(t.left) > Height(t.right);
    var child := if left then t.left else t.right;
    turns := [];
    if Live(child) {
      var below := LongestPath(child);
      turns := [if left then ToLeft else ToRight] + below;
      assert turns[1..] == below;
    }
  }

  /** The height counts the nodes on the longest path from the root over entries: on any tree, no path is longer. */
  lemma HeightIsLongestPath(t: Tree)
    ensures forall turns :: OnEntries(t, turns) ==> |turns| + 1 <= Height(t)
    ensures Live(t) ==> exists turns :: OnEntries(t, turns) && |turns| + 1 == Height(t)
    ensures !Live(t) ==> Height(t) == 0
  {
    forall turns | OnEntries(t, turns) ensures |turns| + 1 <= Height(t) {
      PathsAreShort(t, turns);
    }
    if Live(t) {
      var turns := LongestPath(t);
    }
  }

  lemma {:induction false} KeyOnLongestPath(t: Tree) returns (key: Key)
    requires WellFormed(t) && Live(t)
    ensures key in Keys(t) && |Path(t, key)| + 1 == Height(t)
  {
    var child := if Height(t.left) > Height(t.right) then t.left else t.right;
    key := t.entry.value.key;
    PathInChild(t, key);
    if Live(child) {
      key := KeyOnLongestPath(child);
      PathInChild(t, key);
    }
  }

  /** In terms of searches: the height is the number of keys that the longest search for a stored key compares. */
  lemma HeightIsLongestSearch(t: Tree)
    requires WellFormed(t) && Live(t)
    ensures forall key :: key in Keys(t) ==> |Path(t, key)| + 1 <= Height(t)
    ensures exists key :: key in Keys(t) && |Path(t, key)| + 1 == Height(t)
  {
    forall key | key in Keys(t) ensures |Path(t, key)| + 1 <= Height(t) {
      PathLeadsToKey(t, key);
      PathsAreShort(t, Path(t, key));
    }
    var key := KeyOnLongestPath(t);
  }

  /** Paths in the order of a dictionary: a prefix comes first, and left comes before right. */
  predicate Earlier(p: seq<Side>, q: seq<Side>)
    decreases |p|
  {
    q != [] && (p == [] || (p[0] == ToLeft && q[0] == ToRight) || (p[0] == q[0] && Earlier(p[1..], q[1..])))
  }

  ghost predicate InPathOrder(t: Tree, keys: seq<Key>) {
    forall i, j :: 0 <= i < j < |keys| ==> Earlier(Path(t, keys[i]), Path(t, keys[j]))
  }

  lemma PathInChild(t: Tree, key: Key)
    requires WellFormed(t) && Live(t)
    ensures key in Keys(t.left) ==> Path(t, key) == [ToLeft] + Path(t.left, key)
    ensures key in Keys(t.right) ==> Path(t, key) == [ToRight] + Path(t.right, key)
    ensures key == t.entry.value.key ==> Path(t, key) == []
  {
    RouteCases(key, t.entry.value.key);
  }

  lemma ChildInPathOrder(t: Tree, child: Tree, side: Side, keys: seq<Key>)
    requires WellFormed(t) && Live(t) && side in {ToLeft, ToRight}
    requires child == (if side == ToLeft then t.left else t.right)
    requires Elements(keys) <= Keys(child) && InPathOrder(child, keys)
    ensures InPathOrder(t, keys)
    ensures forall i :: 0 <= i < |keys| ==> Path(t, keys[i]) != [] && Path(t, keys[i])[0] == side
  {
    forall i | 0 <= i < |keys| ensures Path(t, keys[i]) == [side] + Path(child, keys[i]) {
      assert keys[i] in Elements(keys);
      PathInChild(t, keys[i]);
    }
    forall i, j | 0 <= i < j < |keys| ensures Earlier(Path(t, keys[i]), Path(t, keys[j])) {
      assert Path(t, keys[i])[1..] == Path(child, keys[i]) && Path(t, keys[j])[1..] == Path(child, keys[j]);
      assert Earlier(Path(child, keys[i]), Path(child, keys[j]));
    }
  }

  /** The listing is in preorder: by the path that leads to each key, parents first, left before right. */
  lemma {:induction false} ListingIsPreorder(t: Tree)
    requires WellFormed(t) && GetKeys(t).Listing?
    ensures InPathOrder(t, GetKeys(t).keys)
  {
    var root, l, r := t.entry.value.key, ChildKeys(t.left).keys, ChildKeys(t.right).keys;
    if t.left.Node? {
      ListingIsPreorder(t.left);
      ListingIsExact(t.left);
    }
    if t.right.Node? {
      ListingIsPreorder(t.right);
      ListingIsExact(t.right);
    }
    ChildInPathOrder(t, t.left, ToLeft, l);
    ChildInPathOrder(t, t.right, ToRight, r);
    PathInChild(t, root);
    JoinedInPathOrder(t, root, l, r);
  }

  lemma JoinedInPathOrder(t: Tree, root: Key, l: seq<Key>, r: seq<Key>)
    requires InPathOrder(t, l) && InPathOrder(t, r) && Path(t, root) == []
    requires forall i :: 0 <= i < |l| ==> Path(t, l[i]) != [] && Path(t, l[i])[0] == ToLeft
    requires forall i :: 0 <= i < |r| ==> Path(t, r[i]) != [] && Path(t, r[i])[0] == ToRight
    ensures InPathOrder(t, [root] + l + r)
  {
    var keys := [root] + l + r;
    forall i, j | 0 <= i < j < |keys| ensures Earlier(Path(t, keys[i]), Path(t, keys[j])) {
      assert i > 0 ==> keys[i] == if i <= |l| then l[i - 1] else r[i - 1 - |l|];
      assert keys[j] == if j <= |l| then l[j - 1] else r[j - 1 - |l|];
    }
  }

  /**
   On any tree, with keys below a placeholder or not: tree_get_keys works below an entry iff no child is a
   placeholder, and gives NULL for a tree without an entry at its root.
   */
  lemma {:induction false} ListingExistsIff(t: Tree)
    ensures Live(t) ==> (GetKeys(t).Listing? <==> NoEmptyChild(t))
    ensures !Live(t) ==> GetKeys(t).NullList?
  {
    if Live(t) {
      ListingExistsIff(t.left);
      ListingExistsIff(t.right);
    }
  }

  /** The listing of a non-empty tree stays inside its memory iff there are at most four keys, in live nodes. */
  lemma ListingSurvivesIff(t: Tree)
    requires Live(t)
    ensures ListingSurvives(t) <==> NoEmptyChild(t) && Size(t) <= 4
  {
    ListingExistsIff(t);
    if GetKeys(t).Listing? {
      ListingLength(t);
    }
  }

  /** Putting "b" and "a" and deleting "a" again leaves a placeholder, on which the listing of the keys faults. */
  lemma ListingFaultsAfterDeletion()
    ensures var t := Put(Put(EMPTY, [98], Some([1])), [97], Some([2]));
            && GetKeys(t).Listing?
            && Del(PartFour, t, [97]).1
            && GetKeys(Del(PartFour, t, [97]).0).Fault?
  {
    assert Route([97], [98]) == ToLeft;
    assert Route([97], [97]) == Here;
    var t := Put(Put(EMPTY, [98], Some([1])), [97], Some([2]));
    assert t.left == Node(Some(Entry([97], Some([2]))), Nil, Nil);
    assert GetKeys(t.left) == Listing([[97]]);
    assert Del(PartFour, t, [97]).0.left == EMPTY;
    assert ChildKeys(EMPTY) == Fault;
  }

  /** A tree in which each of four keys is the right child of the one before. */
  function FourPuts(): Tree {
    Put(Put(Put(Put(EMPTY, [97], Some([1])), [98], Some([2])), [99], Some([3])), [100], Some([4]))
  }

  lemma FourPutsGoRight() returns (d: Tree)
    ensures d == Node(Some(Entry([100], Some([4]))), Nil, Nil)
    ensures FourPuts() ==
            Node(Some(Entry([97], Some([1]))), Nil,
                 Node(Some(Entry([98], Some([2]))), Nil,
                      Node(Some(Entry([99], Some([3]))), Nil, d)))
  {
    var a, b, c := Some(Entry([97], Some([1]))), Some(Entry([98], Some([2]))), Some(Entry([99], Some([3])));
    d := Node(Some(Entry([100], Some([4]))), Nil, Nil);
    assert forall x, y :: 97 <= x < y <= 100 ==> Route([y], [x]) == ToRight;
    assert Put(Node(a, Nil, Nil), [98], Some([2])) == Node(a, Nil, Node(b, Nil, Nil));
    assert Put(Node(a, Nil, Node(b, Nil, Nil)), [99], Some([3])) == Node(a, Nil, Node(b, Nil, Node(c, Nil, Nil)));
  }

  /**
   Part 4 also leaves placeholders with keys below them: after the puts of "a", "b", "c" and "d", deleting "b"
   clears the entry of "c", cuts "d" off from every search, and makes the listing fault.
   */
  lemma ListingFaultsAboveLostKeys()
    ensures var after := Del(PartFour, FourPuts(), [98]).0;
            && GetKeys(FourPuts()).Listing?
            && [100] in Keys(after) && Find(after, [100]).None?
            && !Tidy(after) && GetKeys(after).Fault?
  {
    var d := FourPutsGoRight();
    assert Route([98], [97]) == ToRight && Route([98], [98]) == Here && Route([100], [97]) == ToRight;
    var lost := Node(None, Nil, d);
    assert Del(PartFour, FourPuts(), [98]).0 == FourPuts().(right := lost);
    assert Keys(d) == {[100]} && Keys(lost) == {[100]};
    assert GetKeys(lost).NullList?;
    ListingExistsIff(FourPuts());
  }

  /** A put leaves no placeholder behind, so after a run of puts alone the listing never faults. */
  lemma {:induction false} PutLeavesNoEmptyChild(t: Tree, key: Key, value: Option<Data>)
    requires WellFormed(t) && NoEmptyChild(t)
    ensures NoEmptyChild(Put(t, key, value))
    ensures GetKeys(Put(t, key, value)).Listing?
    ensures Size(Put(t, key, value)) == |Keys(t) + {key}|
  {
    PutKeepsWellFormed(t, key, value);
    SizeCountsKeys(Put(t, key, value));
    PutStaysFull(t, key, value);
    ListingExistsIff(Put(t, key, value));
  }

  lemma {:induction false} PutStaysFull(t: Tree, key: Key, value: Option<Data>)
    requires NoEmptyChild(t)
    ensures NoEmptyChild(Put(t, key, value)) && Live(Put(t, key, value))
  {
    if Live(t) {
      PutStaysFull(t.left, key, value);
      PutStaysFull(t.right, key, value);
    }
  }

  lemma ShapeOfFullTree(t: Tree)
    requires WellFormed(t) && NoEmptyChild(t) && Keys(t) != {}
    ensures Size(t) == |Keys(t)| && GetKeys(t).Listing?
    ensures NoDuplicates(GetKeys(t).keys) && Elements(GetKeys(t).keys) == Keys(t)
  {
    SizeCountsKeys(t);
    ListingExistsIff(t);
    ListingIsExact(t);
  }

  /** The tree after a run of puts. */
  function AfterPuts(t: Tree, puts: seq<Entry>): Tree
    decreases |puts|
  {
    if puts == [] then t else AfterPuts(Put(t, puts[0].key, puts[0].value), puts[1..])
  }

  ghost function KeysPut(puts: seq<Entry>): set<Key> {
    set i | 0 <= i < |puts| :: puts[i].key
  }

  lemma KeysPutSplit(puts: seq<Entry>)
    requires puts != []
    ensures KeysPut(puts) == {puts[0].key} + KeysPut(puts[1..])
  {
    forall i | 0 <= i < |puts[1..]| ensures puts[1..][i].key in KeysPut(puts) {
      assert puts[1..][i] == puts[i + 1];
    }
    forall i | 0 < i < |puts| ensures puts[i].key in KeysPut(puts[1..]) {
      assert puts[1..][i - 1] == puts[i];
    }
  }

  lemma {:induction false} AfterPutsShape(t: Tree, puts: seq<Entry>)
    requires WellFormed(t) && NoEmptyChild(t)
    ensures WellFormed(AfterPuts(t, puts)) && NoEmptyChild(AfterPuts(t, puts))
    ensures Keys(AfterPuts(t, puts)) == Keys(t) + KeysPut(puts)
    decreases |puts|
  {
    if puts != [] {
      var e := puts[0];
      PutKeepsWellFormed(t, e.key, e.value);
      PutLeavesNoEmptyChild(t, e.key, e.value);
      AfterPutsShape(Put(t, e.key, e.value), puts[1..]);
      KeysPutSplit(puts);
    }
  }

  /** After any non-empty run of puts into a new tree: the size, the height and the listing of its keys. */
  lemma ShapeAfterPuts(puts: seq<Entry>)
    requires puts != []
    ensures var t := AfterPuts(EMPTY, puts);
            && Size(t) == |KeysPut(puts)|
            && Height(t) <= Size(t) <= Pow2(Height(t)) - 1
            && GetKeys(t).Listing?
            && NoDuplicates(GetKeys(t).keys)
            && Elements(GetKeys(t).keys) == KeysPut(puts)
            && (ListingSurvives(t) <==> |KeysPut(puts)| <= 4)
  {
    var t := AfterPuts(EMPTY, puts);
    AfterPutsShape(EMPTY, puts);
    assert Keys(t) == KeysPut(puts);
    assert puts[0].key in KeysPut(puts);
    HeightBounds(t);
    ShapeOfFullTree(t);
    ListingSurvivesIff(t);
  }
}
