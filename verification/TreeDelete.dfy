/**
 Deletion. The two versions of tree_del promise to remove one key and nothing else; neither always
 does. This module says exactly when a call does.
 */
module TreeDelete {
  import opened CStrings
  import opened Tree

  /** The node a search for key ends at. */
  function NodeAt(t: Tree, key: Key): Tree {
    match t
    case Nil => Nil
    case Node(None, _, _) => Nil
    case Node(Some(e), l, r) =>
      match Route(key, e.key)
      case Here => t
      case ToRight => NodeAt(r, key)
      case ToLeft => NodeAt(l, key)
  }

  /** After the deletion, every search answers as if exactly this key had been taken out of a map. */
  ghost predicate RemovesExactly(v: Version, t: Tree, key: Key) {
    forall k :: Find(Del(v, t, key).0, k) == if k == key then None else Find(t, k)
  }

  /**
   The shape test on the node that holds the key. A leaf is always removed well. With one child, Part 1
   copies the child up, while Part 4 then clears the entry it copied. With two children the entry at the
   bottom of the right child's left spine is copied up, which hides the left subtree unless that entry's
   key has the length of the deleted one, and hides both subtrees if there is no such entry.
   */
  predicate RemovableShape(v: Version, node: Tree)
    requires Live(node)
  {
    if node.left.Nil? && node.right.Nil? then true
    else if node.left.Nil? then v.PartOne? || !Live(node.right)
    else if node.right.Nil? then v.PartOne? || !Live(node.left)
    else match EntryOf(Leftmost(node.right))
      case None => !Live(node.left) && !Live(node.right)
      case Some(s) => !Live(node.left) || |s.key| == |node.entry.value.key|
  }

  /** The shape test for a deletion that also leaves no key stored twice. */
  predicate RepeatableShape(v: Version, node: Tree)
    requires Live(node)
  {
    || (!Live(node.left) && !Live(node.right))
    || (v.PartOne? && (node.left.Nil? || node.right.Nil?))
  }

  // ---------------------------------------------------------------- what a call answers

  datatype Outcome = Answer(tree: Tree, ok: bool) | FreedLinkedNode

  /** The tree after an operation that does not free a linked node, and whether it answered 0. */
  function Apply(v: Version, t: Tree, op: Op): (Tree, bool) {
    match op
    case PutOp(key, value) => (Put(t, key, value), true)
    case DelOp(key) => Del(v, t, key)
  }

  /** A call of tree_del; where its search ends at a placeholder, Part 1 leaves a pointer to freed memory. */
  function CallDel(v: Version, t: Tree, key: Key): Outcome {
    if FreesLinkedNode(v, t, key) then FreedLinkedNode else Answer(Del(v, t, key).0, Del(v, t, key).1)
  }

  lemma {:induction false} DelAnswers(v: Version, t: Tree, key: Key)
    ensures !Del(v, t, key).1 ==> Del(v, t, key).0 == t
    ensures Del(v, t, key).1 <==> Find(t, key).Some?
    ensures FreesLinkedNode(v, t, key) ==> v.PartOne? && Find(t, key).None?
  {
    if Live(t) {
      DelAnswers(v, t.left, key);
      DelAnswers(v, t.right, key);
    }
  }

  /** The search for the key ends at a node without an entry. */
  predicate EndsAtPlaceholder(t: Tree, key: Key) {
    t.Node? &&
    match t.entry
    case None => true
    case Some(e) =>
      match Route(key, e.key)
      case Here => false
      case ToLeft => EndsAtPlaceholder(t.left, key)
      case ToRight => EndsAtPlaceholder(t.right, key)
  }

  lemma {:induction false} FreesIffEndsAtPlaceholder(v: Version, t: Tree, key: Key)
    ensures FreesLinkedNode(v, t, key) <==> v.PartOne? && EndsAtPlaceholder(t, key)
  {
    if Live(t) {
      FreesIffEndsAtPlaceholder(v, t.left, key);
      FreesIffEndsAtPlaceholder(v, t.right, key);
    }
  }

  /**
   On any tree: a deletion of Part 4 always answers, one of Part 1 exactly if its search does not end at a
   placeholder; the answer is 0 exactly if the search finds the key, and a call that answers -1 changes nothing.
   */
  lemma DeleteAnswers(v: Version, t: Tree, key: Key)
    ensures CallDel(v, t, key).Answer? <==> v.PartFour? || !EndsAtPlaceholder(t, key)
    ensures CallDel(v, t, key).Answer? ==>
              var Answer(after, ok) := CallDel(v, t, key);
              (ok <==> Find(t, key).Some?) && (!ok ==> after == t)
  {
    DelAnswers(v, t, key);
    FreesIffEndsAtPlaceholder(v, t, key);
  }

  // ---------------------------------------------------------------- facts about trees

  /** The node that a search finds holds the key, and its keys are keys of the tree. */
  lemma {:induction false} NodeAtHoldsKey(t: Tree, key: Key)
    ensures Live(NodeAt(t, key)) <==> Find(t, key).Some?
    ensures Live(NodeAt(t, key)) ==> NodeAt(t, key).entry.value.key == key
    ensures Keys(NodeAt(t, key)) <= Keys(t)
    ensures Loose(t) ==> Loose(NodeAt(t, key))
    ensures WellFormed(t) ==> WellFormed(NodeAt(t, key))
  {
    if Live(t) {
      RouteCases(key, t.entry.value.key);
      NodeAtHoldsKey(t.left, key);
      NodeAtHoldsKey(t.right, key);
    }
  }

  lemma DeadHasNoKeys(t: Tree)
    requires Tidy(t)
    ensures !Live(t) <==> Keys(t) == {}
  {
    if Live(t) {
      assert t.entry.value.key in Keys(t);
    }
  }

  /** The entry at the bottom of the left spine: reachable, and every other key of the tree routes right of it. */
  lemma {:induction false} LeftmostIsLeast(t: Tree)
    requires Loose(t) && EntryOf(Leftmost(t)).Some?
    ensures var s := EntryOf(Leftmost(t)).value;
            && Live(t)
            && Find(t, s.key) == Some(s)
            && (forall k :: k in Keys(t) && k != s.key ==> Route(k, s.key) == ToRight)
    ensures t.left.Node? ==> |t.entry.value.key| == |EntryOf(Leftmost(t)).value.key|
  {
    var s := EntryOf(Leftmost(t)).value;
    if t.left.Nil? {
      RouteCases(s.key, s.key);
      forall k | k in Keys(t) && k != s.key ensures Route(k, s.key) == ToRight {
        RouteCases(k, s.key);
      }
    } else {
      LeftmostIsLeast(t.left);
      FindIffStored(t.left, s.key);
      assert s.key in Keys(t.left);
      var root := t.entry.value.key;
      RouteCases(s.key, root);
      forall k | k in Keys(t) && k != s.key
        ensures Route(k, s.key) == ToRight
      {
        RouteCases(k, s.key);
        RouteCases(k, root);
        StrCmpAntisymmetric(s.key, root);
        StrCmpAntisymmetric(k, root);
        StrCmpAntisymmetric(k, s.key);
        if k in Keys(t.right) && |k| == |root| && k != root {
          StrCmpTransitive(s.key, root, k);
        }
      }
    }
  }

  lemma {:induction false} LeftmostStored(t: Tree)
    ensures EntryOf(Leftmost(t)).Some? ==> EntryOf(Leftmost(t)).value.key in Keys(t)
  {
    if t.Node? && t.left.Node? {
      LeftmostStored(t.left);
    }
  }

  /** No deletion invents a key. */
  lemma {:induction false} DelKeys(v: Version, t: Tree, key: Key)
    ensures Keys(Del(v, t, key).0) <= Keys(t)
  {
    if Live(t) {
      DelKeys(v, t.left, key);
      DelKeys(v, t.right, key);
      LeftmostStored(t.right);
    }
  }

  // ---------------------------------------------------------------- the searches that pass the node

  /** The search for k takes every turn that leads to the node that holds key. */
  predicate Passes(t: Tree, key: Key, k: Key) {
    Live(t) ==>
      match Route(key, t.entry.value.key)
      case Here => true
      case ToLeft => Route(k, t.entry.value.key) == ToLeft && Passes(t.left, key, k)
      case ToRight => Route(k, t.entry.value.key) == ToRight && Passes(t.right, key, k)
  }

  /** Some other key stored in this child of the node that holds key is found through the node. */
  ghost predicate Seen(t: Tree, key: Key, child: Tree) {
    exists k :: k in Keys(child) && k != key && Passes(t, key, k)
  }

  /**
   When a deletion is exact, on any tree without keys below a placeholder, even with shadowed keys. Compared with
   RemovableShape it asks whether a child is seen instead of whether it is live, and it forbids a shadowed
   copy of the deleted key wherever the deletion would bring that copy to light.
   */
  ghost predicate ExactShape(v: Version, t: Tree, key: Key)
    requires Live(NodeAt(t, key))
  {
    var node := NodeAt(t, key);
    if node.left.Nil? && node.right.Nil? then true
    else if node.left.Nil? then (if v.PartOne? then key !in Keys(node.right) else !Seen(t, key, node.right))
    else if node.right.Nil? then v.PartOne? || !Seen(t, key, node.left)
    else match EntryOf(Leftmost(node.right))
      case None => !Seen(t, key, node.left) && !Seen(t, key, node.right)
      case Some(s) => key !in Keys(node.right) && (!Seen(t, key, node.left) || |s.key| == |key|)
  }

  ghost predicate RightFor(v: Version, node: Tree, k: Key)
    requires Live(node)
  {
    Find(RemoveHere(v, node), k) == if k == node.entry.value.key then None else Find(node, k)
  }

  /** A search that does not pass the node is not touched, on any tree; one that does is decided at the node. */
  lemma {:induction false} DecidedAtNode(v: Version, t: Tree, key: Key, k: Key)
    requires Live(NodeAt(t, key))
    ensures !Passes(t, key, k) ==> k != key && Find(Del(v, t, key).0, k) == Find(t, k)
    ensures Passes(t, key, k) ==>
              && Find(Del(v, t, key).0, k) == Find(RemoveHere(v, NodeAt(t, key)), k)
              && Find(t, k) == Find(NodeAt(t, key), k)
  {
    var root := t.entry.value.key;
    RouteCases(key, root);
    if Route(key, root) != Here {
      DecidedAtNode(v, if Route(key, root) == ToLeft then t.left else t.right, key, k);
    }
  }

  lemma ExactIffRightForPassing(v: Version, t: Tree, key: Key)
    requires Live(NodeAt(t, key))
    ensures RemovesExactly(v, t, key) <==> forall k :: Passes(t, key, k) ==> RightFor(v, NodeAt(t, key), k)
  {
    NodeAtHoldsKey(t, key);
    forall k
      ensures (Find(Del(v, t, key).0, k) == if k == key then None else Find(t, k)) <==>
              (Passes(t, key, k) ==> RightFor(v, NodeAt(t, key), k))
    {
      DecidedAtNode(v, t, key, k);
    }
  }

  lemma {:induction false} KeyPasses(t: Tree, key: Key)
    ensures Passes(t, key, key)
  {
    if Live(t) {
      KeyPasses(t.left, key);
      KeyPasses(t.right, key);
    }
  }

  // ---------------------------------------------------------------- what happens at the node

  /** A key of a child is found at the parent as it is in the child. */
  lemma FindInChildren(node: Tree, k: Key)
    requires Loose(node) && Live(node) && k != node.entry.value.key
    ensures k in Keys(node.left) ==>
              k !in Keys(node.right) && Find(node, k) == Find(node.left, k) && Find(node, k).Some?
    ensures k in Keys(node.right) ==> Find(node, k) == Find(node.right, k) && Find(node, k).Some?
    ensures k !in Keys(node.left) && k !in Keys(node.right) ==> Find(node, k).None?
  {
    RouteCases(k, node.entry.value.key);
    FindIffStored(node, k);
    FindIffStored(node.left, k);
    FindIffStored(node.right, k);
  }

  /** The two-child case with a successor s: which searches the copied entry leaves right. */
  lemma FindAfterSuccessorCopy(node: Tree, k: Key)
    requires Loose(node) && Live(node) && node.left.Node? && node.right.Node?
    requires EntryOf(Leftmost(node.right)).Some?
    ensures var s, key := EntryOf(Leftmost(node.right)).value, node.entry.value.key;
            var after := Node(Some(s), node.left, node.right);
            && (k in Keys(node.right) && k != key ==> Find(after, k) == Find(node, k))
            && (k in Keys(node.left) ==>
                  if |s.key| == |key| then Find(after, k) == Find(node, k) else Find(after, k).None?)
            && (k !in Keys(node.left) && k !in Keys(node.right) ==> Find(after, k).None?)
            && (k == key && k in Keys(node.right) ==> Find(after, k).Some?)
  {
    var s, key := EntryOf(Leftmost(node.right)).value, node.entry.value.key;
    LeftmostIsLeast(node.right);
    LeftmostStored(node.right);
    FindIffStored(node.left, k);
    FindIffStored(node.right, k);
    RouteCases(k, s.key);
    RouteCases(s.key, key);
    RouteCases(k, key);
    if k in Keys(node.left) && |s.key| == |key| {
      StrCmpAntisymmetric(s.key, key);
      StrCmpAntisymmetric(k, s.key);
      if s.key != key {
        StrCmpTransitive(k, key, s.key);
      }
    }
  }

  /** One search through the node, in terms of where its key is stored. */
  lemma RightForIff(v: Version, node: Tree, k: Key)
    requires Loose(node) && Live(node)
    ensures var key, l, r := node.entry.value.key, node.left, node.right;
            RightFor(v, node, k) <==>
              if l.Nil? && r.Nil? then true
              else if l.Nil? then (if v.PartOne? then !(k == key && key in Keys(r)) else k == key || k !in Keys(r))
              else if r.Nil? then v.PartOne? || k !in Keys(l)
              else match EntryOf(Leftmost(r))
                case None => k == key || (k !in Keys(l) && k !in Keys(r))
                case Some(s) => !(k == key && key in Keys(r)) && (k !in Keys(l) || |s.key| == |key|)
  {
    var key := node.entry.value.key;
    RouteCases(k, key);
    if k != key {
      FindInChildren(node, k);
    }
    FindIffStored(node.left, k);
    FindIffStored(node.right, k);
    if node.left.Node? && node.right.Node? && EntryOf(Leftmost(node.right)).Some? {
      FindAfterSuccessorCopy(node, k);
    }
  }

  /**
   Deleting a key that the search finds removes exactly that key if and only if the shape is exact: on any tree
   in which keys may be shadowed, as the copying of successors leaves them.
   */
  lemma DeleteIsExactIff(v: Version, t: Tree, key: Key)
    requires Loose(t) && key in Keys(t)
    ensures Live(NodeAt(t, key))
    ensures RemovesExactly(v, t, key) <==> ExactShape(v, t, key)
  {
    FindIffStored(t, key);
    NodeAtHoldsKey(t, key);
    ExactIffRightForPassing(v, t, key);
    KeyPasses(t, key);
    var node := NodeAt(t, key);
    RouteCases(key, key);
    forall k | Passes(t, key, k) && ExactShape(v, t, key) ensures RightFor(v, node, k) {
      RightForIff(v, node, k);
    }
    if !ExactShape(v, t, key) {
      var wrong := WrongSearch(v, t, key);
      RightForIff(v, node, wrong);
    }
  }

  /** A search that a deletion of another shape gets wrong. */
  lemma WrongSearch(v: Version, t: Tree, key: Key) returns (k: Key)
    requires Loose(t) && Live(NodeAt(t, key)) && NodeAt(t, key).entry.value.key == key && Loose(NodeAt(t, key))
    requires !ExactShape(v, t, key)
    ensures Passes(t, key, k) && !RightFor(v, NodeAt(t, key), k)
  {
    var node := NodeAt(t, key);
    KeyPasses(t, key);
    if Seen(t, key, node.left) {
      k :| k in Keys(node.left) && k != key && Passes(t, key, k);
      RightForIff(v, node, k);
      if !RightFor(v, node, k) {
        return;
      }
    }
    if Seen(t, key, node.right) {
      k :| k in Keys(node.right) && k != key && Passes(t, key, k);
      RightForIff(v, node, k);
      if !RightFor(v, node, k) {
        return;
      }
    }
    k := key;
    RightForIff(v, node, key);
  }

  // ---------------------------------------------------------------- on well-formed trees

  lemma {:induction false} KeysBelowPass(t: Tree, key: Key, k: Key)
    requires WellFormed(t) && key in Keys(t) && k in Keys(NodeAt(t, key))
    ensures Passes(t, key, k)
  {
    var root := t.entry.value.key;
    RouteCases(key, root);
    FindIffStored(t, key);
    if Route(key, root) != Here {
      var child := if Route(key, root) == ToLeft then t.left else t.right;
      NodeAtHoldsKey(child, key);
      KeysBelowPass(child, key, k);
    }
  }

  /** Without shadowed keys a child is seen exactly if it is live. */
  lemma SeenIffLive(t: Tree, key: Key)
    requires WellFormed(t) && key in Keys(t)
    ensures Live(NodeAt(t, key))
    ensures Seen(t, key, NodeAt(t, key).left) <==> Live(NodeAt(t, key).left)
    ensures Seen(t, key, NodeAt(t, key).right) <==> Live(NodeAt(t, key).right)
    ensures key !in Keys(NodeAt(t, key).right)
  {
    FindIffStored(t, key);
    NodeAtHoldsKey(t, key);
    RouteCases(key, key);
    var node := NodeAt(t, key);
    DeadHasNoKeys(node.left);
    DeadHasNoKeys(node.right);
    if Live(node.left) {
      KeysBelowPass(t, key, node.left.entry.value.key);
      assert node.left.entry.value.key in Keys(node.left);
    }
    if Live(node.right) {
      KeysBelowPass(t, key, node.right.entry.value.key);
      assert node.right.entry.value.key in Keys(node.right);
    }
  }

  /** Deleting a stored key removes exactly that key if and only if the node that holds it has a removable shape. */
  lemma DeleteRemovesExactlyIff(v: Version, t: Tree, key: Key)
    requires WellFormed(t) && key in Keys(t)
    ensures Live(NodeAt(t, key))
    ensures RemovesExactly(v, t, key) <==> RemovableShape(v, NodeAt(t, key))
  {
    SeenIffLive(t, key);
    NodeAtHoldsKey(t, key);
    DeleteIsExactIff(v, t, key);
  }

  // ---------------------------------------------------------------- what the next call finds

  lemma {:induction false} RepeatableKeepsWellFormed(v: Version, t: Tree, key: Key)
    requires WellFormed(t) && key in Keys(t)
    requires Live(NodeAt(t, key)) && RepeatableShape(v, NodeAt(t, key))
    ensures WellFormed(Del(v, t, key).0)
  {
    RouteCases(key, t.entry.value.key);
    if Route(key, t.entry.value.key) == Here {
      DeadHasNoKeys(t.left);
      DeadHasNoKeys(t.right);
      LeftmostStored(t.right);
    } else {
      var child := if Route(key, t.entry.value.key) == ToLeft then t.left else t.right;
      RepeatableKeepsWellFormed(v, child, key);
      DelKeys(v, child, key);
      FindIffStored(t, key);
    }
  }

  /** Part 4 clears the entry of this child: it may, if no search through the node finds it and nothing is below it. */
  predicate Clearable(t: Tree, key: Key, child: Tree) {
    Live(child) ==>
      && !Live(child.left) && !Live(child.right)
      && (child.entry.value.key == key || !Passes(t, key, child.entry.value.key))
  }

  /** The shape test for a deletion that is exact and leaves no key below a placeholder and none hidden. */
  predicate LooseShape(v: Version, t: Tree, key: Key)
    requires Live(NodeAt(t, key))
  {
    var node := NodeAt(t, key);
    if node.left.Nil? && node.right.Nil? then true
    else if node.left.Nil? then (if v.PartOne? then Find(node.right, key).None? else Clearable(t, key, node.right))
    else if node.right.Nil? then v.PartOne? || Clearable(t, key, node.left)
    else match EntryOf(Leftmost(node.right))
      case None => !Live(node.left) && !Live(node.right)
      case Some(s) => Find(node.right, key).None? && (!Live(node.left) || |s.key| == |key|)
  }

  /** The part of that test that is about what the next call finds. */
  predicate StaysLooseShape(v: Version, node: Tree)
    requires Live(node)
  {
    if node.left.Nil? && node.right.Nil? then true
    else if node.left.Nil? then v.PartOne? || NothingBelow(node.right)
    else if node.right.Nil? then v.PartOne? || NothingBelow(node.left)
    else match EntryOf(Leftmost(node.right))
      case None => !Live(node.left) && !Live(node.right)
      case Some(s) => !Live(node.left) || |s.key| == |node.entry.value.key|
  }

  predicate NothingBelow(child: Tree) {
    Live(child) ==> !Live(child.left) && !Live(child.right)
  }

  /** A copied successor shadows itself; a live left child stays routed only if the two keys have the same length. */
  lemma CopiedSuccessorIsLooseIff(node: Tree)
    requires Loose(node) && Live(node) && node.left.Node? && node.right.Node?
    requires EntryOf(Leftmost(node.right)).Some?
    ensures var s := EntryOf(Leftmost(node.right)).value;
            Loose(Node(Some(s), node.left, node.right)) <==>
            !Live(node.left) || |s.key| == |node.entry.value.key|
  {
    var s, key := EntryOf(Leftmost(node.right)).value.key, node.entry.value.key;
    LeftmostIsLeast(node.right);
    LeftmostStored(node.right);
    DeadHasNoKeys(node.left);
    RouteCases(s, key);
    StrCmpAntisymmetric(s, key);
    forall k | k in Keys(node.right) ensures Route(k, s) in {ToRight, Here} {
      RouteCases(k, s);
    }
    forall k | k in Keys(node.left) ensures Route(k, s) == ToLeft <==> |s| == |key| {
      RouteCases(k, key);
      RouteCases(k, s);
      if |s| == |key| && s != key {
        StrCmpTransitive(k, key, s);
      }
    }
    if Live(node.left) {
      assert node.left.entry.value.key in Keys(node.left);
    }
  }

  lemma StaysLooseHereIff(v: Version, node: Tree)
    requires Loose(node) && Live(node)
    ensures Loose(RemoveHere(v, node)) <==> StaysLooseShape(v, node)
  {
    var l, r := node.left, node.right;
    DeadHasNoKeys(l);
    DeadHasNoKeys(r);
    if l.Node? && r.Node? {
      if EntryOf(Leftmost(r)).Some? {
        CopiedSuccessorIsLooseIff(node);
      }
    } else if l.Node? {
      ClearedIsLooseIff(l);
    } else if r.Node? {
      ClearedIsLooseIff(r);
    }
  }

  lemma ClearedIsLooseIff(child: Tree)
    requires Loose(child) && child.Node?
    ensures Loose(child.(entry := None)) <==> NothingBelow(child)
  {
    var cleared := child.(entry := None);
    assert Keys(cleared) == Keys(child.left) + Keys(child.right);
    assert Keys(cleared) == {} <==> Keys(child.left) == {} && Keys(child.right) == {};
    DeadHasNoKeys(child.left);
    DeadHasNoKeys(child.right);
    DeadHasNoKeys(child);
  }

  lemma {:induction false} StaysLooseIff(v: Version, t: Tree, key: Key)
    requires Loose(t) && Live(NodeAt(t, key))
    ensures Loose(Del(v, t, key).0) <==> StaysLooseShape(v, NodeAt(t, key))
  {
    if Route(key, t.entry.value.key) == Here {
      StaysLooseHereIff(v, t);
    } else {
      var child := if Route(key, t.entry.value.key) == ToLeft then t.left else t.right;
      StaysLooseIff(v, child, key);
      DelKeys(v, child, key);
    }
  }

  lemma ClearableIff(t: Tree, key: Key, child: Tree)
    requires Tidy(child)
    ensures Clearable(t, key, child) <==> NothingBelow(child) && !Seen(t, key, child)
  {
    DeadHasNoKeys(child);
    if Live(child) {
      DeadHasNoKeys(child.left);
      DeadHasNoKeys(child.right);
      assert child.entry.value.key in Keys(child);
    }
  }

  /**
   Deleting a key that the search finds removes exactly that key and leaves a tree for which the next call can rely
   on the same, shadowed keys and all, if and only if it passes the shape test, which a caller can evaluate.
   */
  lemma DeleteStaysLooseIff(v: Version, t: Tree, key: Key)
    requires Loose(t) && key in Keys(t)
    ensures Live(NodeAt(t, key))
    ensures RemovesExactly(v, t, key) && Loose(Del(v, t, key).0) <==> LooseShape(v, t, key)
  {
    DeleteIsExactIff(v, t, key);
    StaysLooseIff(v, t, key);
    NodeAtHoldsKey(t, key);
    var node := NodeAt(t, key);
    DeadHasNoKeys(node.left);
    DeadHasNoKeys(node.right);
    FindIffStored(node.right, key);
    ClearableIff(t, key, node.left);
    ClearableIff(t, key, node.right);
  }

  // ---------------------------------------------------------------- inputs on which the promise fails

  /** Part 4 deletes "a" above its right child "bb" and loses "bb", which Part 1 keeps. */
  lemma PartFourLosesAChild()
    ensures var t := Put(Put(EMPTY, [97], Some([1])), [98, 98], Some([2]));
            && WellFormed(t)
            && Get(Del(PartFour, t, [97]).0, [98, 98]) == None
            && Get(Del(PartOne, t, [97]).0, [98, 98]) == Some([2])
  {
    PutKeepsWellFormed(EMPTY, [97], Some([1]));
    PutKeepsWellFormed(Put(EMPTY, [97], Some([1])), [98, 98], Some([2]));
    assert Route([98, 98], [97]) == ToRight;
    assert Route([98, 98], [98, 98]) == Here;
  }

  lemma ThreePutsKeepWellFormed(a: Entry, b: Entry, c: Entry)
    ensures WellFormed(Put(Put(Put(EMPTY, a.key, a.value), b.key, b.value), c.key, c.value))
  {
    var t1 := Put(EMPTY, a.key, a.value);
    var t2 := Put(t1, b.key, b.value);
    PutKeepsWellFormed(EMPTY, a.key, a.value);
    PutKeepsWellFormed(t1, b.key, b.value);
    PutKeepsWellFormed(t2, c.key, c.value);
  }

  /** With two children, both versions hide the left child behind a copied entry of another length. */
  lemma SuccessorHidesLeftChild(v: Version)
    ensures var t := Put(Put(Put(EMPTY, [98], Some([1])), [97], Some([2])), [99, 99], Some([3]));
            && WellFormed(t)
            && Get(t, [97]) == Some([2])
            && Get(Del(v, t, [98]).0, [97]) == None
  {
    var b, a, c := Entry([98], Some([1])), Entry([97], Some([2])), Entry([99, 99], Some([3]));
    ThreePutsKeepWellFormed(b, a, c);
    assert Route([97], [98]) == ToLeft && Route([99, 99], [98]) == ToRight && Route([98], [98]) == Here;
    assert Route([97], [97]) == Here && Route([97], [99, 99]) == ToRight;
    var t := Put(Put(EMPTY, b.key, b.value), a.key, a.value);
    assert t == Node(Some(b), Node(Some(a), Nil, Nil), Nil);
    assert Put(t, c.key, c.value) == Node(Some(b), t.left, Node(Some(c), Nil, Nil));
  }
}
