/**
 Whole runs of puts and deletions against a map: when every answer, every search and the size agree from
 start to end, and what still holds for searches once a deletion has stored a key twice.
 */
module TreeRuns {
  import opened CStrings
  import opened Tree
  import opened TreeDelete
  import opened TreeSharing
  import opened TreeShape

  type Map = map<Key, Option<Data>>

  function ApplyToMap(m: Map, op: Op): (Map, bool) {
    match op
    case PutOp(key, value) => (m[key := value], true)
    case DelOp(key) => (m - {key}, key in m)
  }

  /** The tree after a call that does not free a linked node. */
  function After(v: Version, t: Tree, op: Op): Tree {
    match op
    case PutOp(key, value) => PutShared(t, key, value)
    case DelOp(key) => Del(v, t, key).0
  }

  function Call(v: Version, t: Tree, op: Op): Outcome {
    if op.PutOp? then Answer(After(v, t, op), true) else CallDel(v, t, op.key)
  }

  /** Every search of the tree answers as the map. */
  ghost predicate Models(t: Tree, m: Map) {
    forall k :: Find(t, k) == if k in m then Some(Entry(k, m[k])) else None
  }

  /** Where every search answers as the map, tree_get returns what the map holds, and NULL for any other key. */
  lemma GetOfModel(t: Tree, m: Map, key: Key)
    requires Models(t, m)
    ensures Find(t, key).Some? <==> key in m
    ensures Get(t, key) == if key in m then m[key] else None
  {
  }

  /** Every search and tree_size answer as the map. */
  ghost predicate Agrees(t: Tree, m: Map) {
    Models(t, m) && Size(t) == |m|
  }

  /** The call frees no linked node and answers as the map. */
  predicate CallAgrees(v: Version, t: Tree, m: Map, op: Op) {
    Call(v, t, op).Answer? && Call(v, t, op).ok == ApplyToMap(m, op).1
  }

  /** At every point of the run, every search and tree_size agree with the map, and every call answers as the map. */
  ghost predicate AgreesThroughout(v: Version, t: Tree, m: Map, ops: seq<Op>)
    decreases |ops|
  {
    && Agrees(t, m)
    && (ops != [] ==>
          && CallAgrees(v, t, m, ops[0])
          && AgreesThroughout(v, Call(v, t, ops[0]).tree, ApplyToMap(m, ops[0]).0, ops[1..]))
  }

  /** The same for the searches and the answers alone. */
  ghost predicate SearchesAgreeThroughout(v: Version, t: Tree, m: Map, ops: seq<Op>)
    decreases |ops|
  {
    && Models(t, m)
    && (ops != [] ==>
          && CallAgrees(v, t, m, ops[0])
          && SearchesAgreeThroughout(v, Call(v, t, ops[0]).tree, ApplyToMap(m, ops[0]).0, ops[1..]))
  }

  lemma CallTree(v: Version, t: Tree, op: Op)
    ensures Call(v, t, op).Answer? ==> Call(v, t, op).tree == After(v, t, op)
  {
  }

  // ---------------------------------------------------------------- what a caller can check before a call

  /** No deletion of Part 1 may search its way to a placeholder, and the node it finds must have the right shape. */
  predicate SafeOp(v: Version, t: Tree, op: Op) {
    op.DelOp? ==>
      && (v.PartFour? || !EndsAtPlaceholder(t, op.key))
      && (Live(NodeAt(t, op.key)) ==> RepeatableShape(v, NodeAt(t, op.key)))
  }

  predicate SafeRun(v: Version, t: Tree, ops: seq<Op>)
    decreases |ops|
  {
    ops == [] || (SafeOp(v, t, ops[0]) && SafeRun(v, After(v, t, ops[0]), ops[1..]))
  }

  /** The weaker test under which the searches stay right although a key may come to be stored twice. */
  predicate LooselySafeOp(v: Version, t: Tree, op: Op) {
    op.DelOp? ==>
      && (v.PartFour? || !EndsAtPlaceholder(t, op.key))
      && (Live(NodeAt(t, op.key)) ==> LooseShape(v, t, op.key))
  }

  predicate LooselySafeRun(v: Version, t: Tree, ops: seq<Op>)
    decreases |ops|
  {
    ops == [] || (LooselySafeOp(v, t, ops[0]) && LooselySafeRun(v, After(v, t, ops[0]), ops[1..]))
  }

  /** At every point of the run no key lies below a placeholder and none is hidden from the searches. */
  ghost predicate StaysLoose(v: Version, t: Tree, ops: seq<Op>)
    decreases |ops|
  {
    Loose(t) && (ops != [] ==> StaysLoose(v, After(v, t, ops[0]), ops[1..]))
  }

  // ---------------------------------------------------------------- one step of the searches

  lemma ModelsAfterDelete(v: Version, t: Tree, m: Map, key: Key)
    requires Models(t, m)
    ensures Models(Del(v, t, key).0, m - {key}) <==> RemovesExactly(v, t, key)
  {
    var t', m' := Del(v, t, key).0, m - {key};
    forall k
      ensures (Find(t', k) == if k in m' then Some(Entry(k, m'[k])) else None) <==>
              (Find(t', k) == if k == key then None else Find(t, k))
    {
    }
  }

  lemma ModelsAfterPut(t: Tree, m: Map, key: Key, value: Option<Data>)
    requires Tidy(t) && Models(t, m)
    ensures Models(PutShared(t, key, value), m[key := value])
  {
    var m' := m[key := value];
    forall k ensures Find(PutShared(t, key, value), k) == if k in m' then Some(Entry(k, m'[k])) else None {
      FindAfterPutShared(t, key, value, k);
    }
  }

  /** The test that makes the searches right after one call, as exactly as DeleteIsExactIff knows it. */
  ghost predicate ExactOp(v: Version, t: Tree, op: Op) {
    op.DelOp? ==>
      && (v.PartFour? || !EndsAtPlaceholder(t, op.key))
      && (Live(NodeAt(t, op.key)) ==> ExactShape(v, t, op.key))
  }

  lemma SearchStepIff(v: Version, t: Tree, m: Map, op: Op)
    requires Loose(t) && Models(t, m)
    ensures ExactOp(v, t, op) <==> CallAgrees(v, t, m, op) && Models(After(v, t, op), ApplyToMap(m, op).0)
  {
    match op
    case PutOp(key, value) => ModelsAfterPut(t, m, key, value);
    case DelOp(key) =>
      DeleteAnswers(v, t, key);
      NodeAtHoldsKey(t, key);
      FindIffStored(t, key);
      if key in Keys(t) {
        DeleteIsExactIff(v, t, key);
        ModelsAfterDelete(v, t, m, key);
      } else {
        DelAnswers(v, t, key);
        assert m - {key} == m;
      }
  }

  lemma LooseStepIff(v: Version, t: Tree, m: Map, op: Op)
    requires Loose(t) && Models(t, m)
    ensures LooselySafeOp(v, t, op) <==>
            && CallAgrees(v, t, m, op)
            && Models(After(v, t, op), ApplyToMap(m, op).0)
            && Loose(After(v, t, op))
  {
    SearchStepIff(v, t, m, op);
    match op
    case PutOp(key, value) => PutSharedKeepsLoose(t, key, value);
    case DelOp(key) =>
      DelAnswers(v, t, key);
      NodeAtHoldsKey(t, key);
      FindIffStored(t, key);
      if key in Keys(t) {
        DeleteStaysLooseIff(v, t, key);
        DeleteIsExactIff(v, t, key);
      }
  }

  // ---------------------------------------------------------------- runs of searches

  /**
   The searches and answers of a whole run, with keys stored twice where successors were copied. They agree
   with a map from start to end, on trees without keys below a placeholder, if and only if every deletion is
   loosely safe when its turn comes.
   */
  lemma {:induction false} SearchesAgreeIff(v: Version, t: Tree, m: Map, ops: seq<Op>)
    requires Loose(t) && Models(t, m)
    ensures SearchesAgreeThroughout(v, t, m, ops) && StaysLoose(v, t, ops) <==> LooselySafeRun(v, t, ops)
    decreases |ops|
  {
    if ops != [] {
      var t', m' := After(v, t, ops[0]), ApplyToMap(m, ops[0]).0;
      CallTree(v, t, ops[0]);
      LooseStepIff(v, t, m, ops[0]);
      if LooselySafeOp(v, t, ops[0]) {
        SearchesAgreeIff(v, t', m', ops[1..]);
      } else if SearchesAgreeThroughout(v, t', m', ops[1..]) && StaysLoose(v, t', ops[1..]) {
        ModelsAtOnce(v, t', m', ops[1..]);
      }
    }
  }

  lemma ModelsAtOnce(v: Version, t: Tree, m: Map, ops: seq<Op>)
    requires SearchesAgreeThroughout(v, t, m, ops)
    ensures Models(t, m)
  {
  }

  // ---------------------------------------------------------------- the size tells the rest

  lemma SizeOfModel(t: Tree, m: Map)
    requires WellFormed(t) && Models(t, m)
    ensures Size(t) == |m|
  {
    forall k ensures k in m <==> k in Keys(t) {
      FindIffStored(t, k);
    }
    assert m.Keys == Keys(t);
    SizeCountsKeys(t);
  }

  /** Copying up a live successor takes no node away. */
  lemma {:induction false} CopyKeepsSize(v: Version, t: Tree, key: Key)
    requires Live(NodeAt(t, key))
    requires NodeAt(t, key).left.Node? && NodeAt(t, key).right.Node? && EntryOf(Leftmost(NodeAt(t, key).right)).Some?
    ensures Size(Del(v, t, key).0) == Size(t)
  {
    RouteCases(key, t.entry.value.key);
    if Route(key, t.entry.value.key) == ToLeft {
      CopyKeepsSize(v, t.left, key);
    } else if Route(key, t.entry.value.key) == ToRight {
      CopyKeepsSize(v, t.right, key);
    }
  }

  lemma RepeatableIsRemovable(v: Version, node: Tree)
    requires Loose(node) && Live(node) && RepeatableShape(v, node)
    ensures RemovableShape(v, node)
  {
    if node.right.Node? && EntryOf(Leftmost(node.right)).Some? {
      LeftmostIsLeast(node.right);
    }
  }

  /**
   A deletion removes exactly the given key and takes one off tree_size if and only if the node has no live
   child or, in Part 1, a NULL child; and then the tree is well formed again, for the next call.
   */
  lemma DeleteIsRepeatableIff(v: Version, t: Tree, key: Key)
    requires WellFormed(t) && key in Keys(t)
    ensures Live(NodeAt(t, key))
    ensures RemovesExactly(v, t, key) && Size(Del(v, t, key).0) == Size(t) - 1 <==> RepeatableShape(v, NodeAt(t, key))
    ensures RepeatableShape(v, NodeAt(t, key)) ==> WellFormed(Del(v, t, key).0)
  {
    FindIffStored(t, key);
    NodeAtHoldsKey(t, key);
    DeleteRemovesExactlyIff(v, t, key);
    var node := NodeAt(t, key);
    if RepeatableShape(v, node) {
      RepeatableIsRemovable(v, node);
      RepeatableKeepsWellFormed(v, t, key);
      RemovedKeyIsGone(v, t, key);
    } else if RemovableShape(v, node) {
      CopyKeepsSize(v, t, key);
    }
  }

  lemma RemovedKeyIsGone(v: Version, t: Tree, key: Key)
    requires WellFormed(t) && key in Keys(t) && RemovesExactly(v, t, key) && WellFormed(Del(v, t, key).0)
    ensures Size(Del(v, t, key).0) == Size(t) - 1
  {
    var t' := Del(v, t, key).0;
    forall k ensures k in Keys(t') <==> k in Keys(t) && k != key {
      FindIffStored(t, k);
      FindIffStored(t', k);
    }
    assert Keys(t') == Keys(t) - {key};
    SizeCountsKeys(t);
    SizeCountsKeys(t');
  }

  lemma DeletionAgreesIff(v: Version, t: Tree, m: Map, key: Key)
    requires WellFormed(t) && Models(t, m) && key in Keys(t)
    ensures Live(NodeAt(t, key))
    ensures RepeatableShape(v, NodeAt(t, key)) <==> Agrees(Del(v, t, key).0, m - {key})
    ensures RepeatableShape(v, NodeAt(t, key)) ==> WellFormed(Del(v, t, key).0)
  {
    SizeOfModel(t, m);
    FindIffStored(t, key);
    ModelsAfterDelete(v, t, m, key);
    DeleteIsRepeatableIff(v, t, key);
    assert |m - {key}| == |m| - 1;
  }

  lemma PutAgrees(t: Tree, m: Map, key: Key, value: Option<Data>)
    requires WellFormed(t) && Models(t, m)
    ensures WellFormed(PutShared(t, key, value)) && Agrees(PutShared(t, key, value), m[key := value])
  {
    PutSharedKeepsLoose(t, key, value);
    ModelsAfterPut(t, m, key, value);
    SizeOfModel(PutShared(t, key, value), m[key := value]);
  }

  /** A key that is not stored is not in the map, and the call that tries to delete it changes neither. */
  lemma AbsentKeyAgrees(v: Version, t: Tree, m: Map, key: Key)
    requires WellFormed(t) && Models(t, m) && key !in Keys(t)
    ensures !Live(NodeAt(t, key)) && Del(v, t, key) == (t, false) && Agrees(t, m - {key})
  {
    DelAnswers(v, t, key);
    NodeAtHoldsKey(t, key);
    FindIffStored(t, key);
    SizeOfModel(t, m);
    assert m - {key} == m;
  }

  lemma DeletionCallAgreesIff(v: Version, t: Tree, m: Map, key: Key)
    requires Models(t, m)
    ensures CallAgrees(v, t, m, DelOp(key)) <==> v.PartFour? || !EndsAtPlaceholder(t, key)
  {
    DeleteAnswers(v, t, key);
  }

  lemma TreeAfterDeletionAgreesIff(v: Version, t: Tree, m: Map, key: Key)
    requires WellFormed(t) && Models(t, m)
    ensures (Live(NodeAt(t, key)) ==> RepeatableShape(v, NodeAt(t, key))) <==> Agrees(Del(v, t, key).0, m - {key})
    ensures Agrees(Del(v, t, key).0, m - {key}) ==> WellFormed(Del(v, t, key).0)
  {
    if key in Keys(t) {
      DeletionAgreesIff(v, t, m, key);
    } else {
      AbsentKeyAgrees(v, t, m, key);
    }
  }

  lemma StepAgreesIff(v: Version, t: Tree, m: Map, op: Op)
    requires WellFormed(t) && Models(t, m)
    ensures SafeOp(v, t, op) <==> CallAgrees(v, t, m, op) && Agrees(After(v, t, op), ApplyToMap(m, op).0)
    ensures SafeOp(v, t, op) ==> WellFormed(After(v, t, op))
  {
    match op
    case PutOp(key, value) => PutAgrees(t, m, key, value);
    case DelOp(key) =>
      DeletionCallAgreesIff(v, t, m, key);
      TreeAfterDeletionAgreesIff(v, t, m, key);
  }

  /**
   Over any run of puts and deletions, every answer, every search and tree_size agree with a map from start
   to end if and only if every deletion is safe when its turn comes.
   */
  lemma {:induction false} RunAgreesIff(v: Version, t: Tree, m: Map, ops: seq<Op>)
    requires WellFormed(t) && Models(t, m)
    ensures AgreesThroughout(v, t, m, ops) <==> SafeRun(v, t, ops)
    decreases |ops|
  {
    SizeOfModel(t, m);
    if ops != [] {
      var t', m' := After(v, t, ops[0]), ApplyToMap(m, ops[0]).0;
      StepAgreesIff(v, t, m, ops[0]);
      CallTree(v, t, ops[0]);
      if SafeOp(v, t, ops[0]) {
        RunAgreesIff(v, t', m', ops[1..]);
      } else if AgreesThroughout(v, t', m', ops[1..]) {
        AgreesAtOnce(v, t', m', ops[1..]);
      }
    }
  }

  lemma AgreesAtOnce(v: Version, t: Tree, m: Map, ops: seq<Op>)
    requires AgreesThroughout(v, t, m, ops)
    ensures Agrees(t, m)
  {
  }

  function MapAfterRun(m: Map, ops: seq<Op>): Map
    decreases |ops|
  {
    if ops == [] then m else MapAfterRun(ApplyToMap(m, ops[0]).0, ops[1..])
  }

  lemma {:induction false} MapAfterOneMore(m: Map, ops: seq<Op>, op: Op)
    ensures MapAfterRun(m, ops + [op]) == ApplyToMap(MapAfterRun(m, ops), op).0
    decreases |ops|
  {
    var all := ops + [op];
    if ops == [] {
      assert all == [op] && all[1..] == [];
    } else {
      assert all[0] == ops[0] && all[1..] == ops[1..] + [op];
      MapAfterOneMore(ApplyToMap(m, ops[0]).0, ops[1..], op);
    }
  }

  /** What tree_get answers after a run whose searches agree with a map throughout, for every key. */
  lemma {:induction false} GetAfterRun(v: Version, t: Tree, m: Map, ops: seq<Op>, key: Key)
    requires SearchesAgreeThroughout(v, t, m, ops)
    ensures Get(AfterRun(v, t, ops), key) ==
            if key in MapAfterRun(m, ops) then MapAfterRun(m, ops)[key] else None
    decreases |ops|
  {
    if ops == [] {
      GetOfModel(t, m, key);
    } else {
      CallTree(v, t, ops[0]);
      GetAfterRun(v, After(v, t, ops[0]), ApplyToMap(m, ops[0]).0, ops[1..], key);
    }
  }

  function AfterRun(v: Version, t: Tree, ops: seq<Op>): Tree
    decreases |ops|
  {
    if ops == [] then t else AfterRun(v, After(v, t, ops[0]), ops[1..])
  }

  lemma DeletionIsSearchSafeIff(v: Version, t: Tree, m: Map, key: Key)
    requires WellFormed(t) && Models(t, m)
    ensures CallAgrees(v, t, m, DelOp(key)) && Models(Del(v, t, key).0, m - {key}) <==>
            && (v.PartFour? || !EndsAtPlaceholder(t, key))
            && (Live(NodeAt(t, key)) ==> RemovableShape(v, NodeAt(t, key)))
  {
    SearchStepIff(v, t, m, DelOp(key));
    FindIffStored(t, key);
    NodeAtHoldsKey(t, key);
    if key in Keys(t) {
      SeenIffLive(t, key);
    }
  }

  /**
   The first deletion that is not safe, after a safe run of any length: with it the searches still agree
   exactly if its node has a removable shape, and its search does not free a linked node.
   */
  lemma {:induction false} FirstUnsafeDeletionIff(v: Version, t: Tree, m: Map, ops: seq<Op>, key: Key)
    requires WellFormed(t) && Models(t, m) && SafeRun(v, t, ops)
    ensures SearchesAgreeThroughout(v, t, m, ops + [DelOp(key)]) <==>
            var last := AfterRun(v, t, ops);
            && (v.PartFour? || !EndsAtPlaceholder(last, key))
            && (Live(NodeAt(last, key)) ==> RemovableShape(v, NodeAt(last, key)))
    decreases |ops|
  {
    var all := ops + [DelOp(key)];
    if ops == [] {
      assert all == [DelOp(key)] && all[1..] == [];
      DeletionIsSearchSafeIff(v, t, m, key);
    } else {
      assert all[0] == ops[0] && all[1..] == ops[1..] + [DelOp(key)];
      StepAgreesIff(v, t, m, ops[0]);
      FirstUnsafeDeletionIff(v, After(v, t, ops[0]), ApplyToMap(m, ops[0]).0, ops[1..], key);
    }
  }

  /** After a loosely safe run of any length, one more deletion keeps the searches right exactly if it is exact. */
  lemma {:induction false} FirstLooselyUnsafeDeletionIff(v: Version, t: Tree, m: Map, ops: seq<Op>, key: Key)
    requires Loose(t) && Models(t, m) && LooselySafeRun(v, t, ops)
    ensures SearchesAgreeThroughout(v, t, m, ops + [DelOp(key)]) <==> ExactOp(v, AfterRun(v, t, ops), DelOp(key))
    decreases |ops|
  {
    var all := ops + [DelOp(key)];
    CallTree(v, t, all[0]);
    if ops == [] {
      assert all == [DelOp(key)] && all[1..] == [];
      SearchStepIff(v, t, m, DelOp(key));
    } else {
      assert all[0] == ops[0] && all[1..] == ops[1..] + [DelOp(key)];
      LooseStepIff(v, t, m, ops[0]);
      FirstLooselyUnsafeDeletionIff(v, After(v, t, ops[0]), ApplyToMap(m, ops[0]).0, ops[1..], key);
    }
  }

  // ---------------------------------------------------------------- puts alone, and inputs that fail

  lemma {:induction false} PutsAreSafe(v: Version, t: Tree, ops: seq<Op>)
    requires forall op :: op in ops ==> op.PutOp?
    ensures SafeRun(v, t, ops)
    decreases |ops|
  {
    if ops != [] {
      PutsAreSafe(v, After(v, t, ops[0]), ops[1..]);
    }
  }

  /** After any sequence of puts into a new tree, and at every point of it, the tree answers as a map. */
  lemma PutsBehaveAsMap(v: Version, ops: seq<Op>)
    requires forall op :: op in ops ==> op.PutOp?
    ensures AgreesThroughout(v, EMPTY, map[], ops)
  {
    PutsAreSafe(v, EMPTY, ops);
    RunAgreesIff(v, EMPTY, map[], ops);
  }

  /** Part 1 frees the root of a new tree when a key is deleted from it, and a put would then write to freed memory. */
  lemma DeletingFromANewTree(value: Option<Data>)
    ensures Call(PartOne, EMPTY, DelOp([97])) == FreedLinkedNode
    ensures Call(PartFour, EMPTY, DelOp([97])) == Answer(EMPTY, false)
    ensures !AgreesThroughout(PartOne, EMPTY, map[], [DelOp([97]), PutOp([98], value)])
    ensures !SafeRun(PartOne, EMPTY, [DelOp([97]), PutOp([98], value)])
  {
  }

  lemma {:induction false} AfterRunOneMore(v: Version, t: Tree, ops: seq<Op>, op: Op)
    ensures AfterRun(v, t, ops + [op]) == After(v, AfterRun(v, t, ops), op)
    ensures SafeRun(v, t, ops + [op]) <==> SafeRun(v, t, ops) && SafeOp(v, AfterRun(v, t, ops), op)
    decreases |ops|
  {
    var all := ops + [op];
    if ops == [] {
      assert all == [op] && all[1..] == [];
    } else {
      assert all[0] == ops[0] && all[1..] == ops[1..] + [op];
      AfterRunOneMore(v, After(v, t, ops[0]), ops[1..], op);
    }
  }

  lemma ThreePutsRun(v: Version, a: Op, b: Op, c: Op)
    requires a.PutOp? && b.PutOp? && c.PutOp?
    ensures AfterRun(v, EMPTY, [a, b, c]) ==
            PutShared(PutShared(PutShared(EMPTY, a.key, a.value), b.key, b.value), c.key, c.value)
  {
    assert [a, b, c] == [a, b] + [c] && [a, b] == [a] + [b] && [a] == [] + [a];
    AfterRunOneMore(v, EMPTY, [], a);
    AfterRunOneMore(v, EMPTY, [a], b);
    AfterRunOneMore(v, EMPTY, [a, b], c);
  }

  /** Deleting "b" above "a" and "c" keeps every search right, but stores "c" twice, and tree_size shows it. */
  lemma SearchesAgreeButSizeDoesNot(v: Version)
    ensures var puts := [PutOp([98], Some([1])), PutOp([97], Some([2])), PutOp([99], Some([3]))];
            var ops := puts + [DelOp([98])];
            && SearchesAgreeThroughout(v, EMPTY, map[], ops)
            && !AgreesThroughout(v, EMPTY, map[], ops)
            && Size(AfterRun(v, EMPTY, ops)) == 3
  {
    var puts := [PutOp([98], Some([1])), PutOp([97], Some([2])), PutOp([99], Some([3]))];
    var t := AfterRun(v, EMPTY, puts);
    ThreePutsRun(v, puts[0], puts[1], puts[2]);
    SmallTree(v, t);
    PutsAreSafe(v, EMPTY, puts);
    FirstUnsafeDeletionIff(v, EMPTY, map[], puts, [98]);
    AfterRunOneMore(v, EMPTY, puts, DelOp([98]));
    RunAgreesIff(v, EMPTY, map[], puts + [DelOp([98])]);
  }

  lemma SmallTree(v: Version, t: Tree)
    requires t == PutShared(PutShared(PutShared(EMPTY, [98], Some([1])), [97], Some([2])), [99], Some([3]))
    ensures !EndsAtPlaceholder(t, [98]) && Live(NodeAt(t, [98]))
    ensures RemovableShape(v, NodeAt(t, [98])) && !RepeatableShape(v, NodeAt(t, [98]))
    ensures Size(Del(v, t, [98]).0) == 3
  {
    assert Route([97], [98]) == ToLeft && Route([99], [98]) == ToRight && Route([98], [98]) == Here;
    var b, a, c := Entry([98], Some([1])), Entry([97], Some([2])), Entry([99], Some([3]));
    assert PutShared(EMPTY, b.key, b.value) == Node(Some(b), Nil, Nil);
    var ba := Node(Some(b), Node(Some(a), Nil, Nil), Nil);
    assert PutShared(Node(Some(b), Nil, Nil), a.key, a.value) == ba;
    assert Find(ba, c.key).None?;
    assert t == Node(Some(b), Node(Some(a), Nil, Nil), Node(Some(c), Nil, Nil));
    assert Leftmost(t.right) == t.right;
  }

  lemma {:induction false} LooselySafeInTwoParts(v: Version, t: Tree, first: seq<Op>, rest: seq<Op>)
    ensures LooselySafeRun(v, t, first + rest) <==>
            LooselySafeRun(v, t, first) && LooselySafeRun(v, AfterRun(v, t, first), rest)
    decreases |first|
  {
    if first == [] {
      assert first + rest == rest;
    } else {
      assert (first + rest)[0] == first[0] && (first + rest)[1..] == first[1..] + rest;
      LooselySafeInTwoParts(v, After(v, t, first[0]), first[1..], rest);
    }
  }

  /** After the puts of "b", "a", "d" and "c", Part 4 may delete "b" and then "d", whose child holds a shadowed key. */
  lemma ClearingAShadowedChild()
    ensures var puts :=
              [PutOp([98], Some([1])), PutOp([97], Some([2])), PutOp([100], Some([4])), PutOp([99], Some([3]))];
            var ops := puts + [DelOp([98]), DelOp([100])];
            && LooselySafeRun(PartFour, EMPTY, ops)
            && SearchesAgreeThroughout(PartFour, EMPTY, map[], ops)
  {
    var three := [PutOp([98], Some([1])), PutOp([97], Some([2])), PutOp([100], Some([4]))];
    var puts := three + [PutOp([99], Some([3]))];
    var dels := [DelOp([98]), DelOp([100])];
    assert puts == [PutOp([98], Some([1])), PutOp([97], Some([2])), PutOp([100], Some([4])), PutOp([99], Some([3]))];
    ThreePutsRun(PartFour, three[0], three[1], three[2]);
    AfterRunOneMore(PartFour, EMPTY, three, PutOp([99], Some([3])));
    FourKeys(AfterRun(PartFour, EMPTY, puts));
    LooselySafePuts(PartFour, EMPTY, puts);
    LooselySafeInTwoParts(PartFour, EMPTY, puts, dels);
    assert Loose(EMPTY) && Models(EMPTY, map[]);
    SearchesAgreeIff(PartFour, EMPTY, map[], puts + dels);
  }

  lemma {:induction false} LooselySafePuts(v: Version, t: Tree, ops: seq<Op>)
    requires forall op :: op in ops ==> op.PutOp?
    ensures LooselySafeRun(v, t, ops)
    decreases |ops|
  {
    if ops != [] {
      LooselySafePuts(v, After(v, t, ops[0]), ops[1..]);
    }
  }

  lemma FourKeys(t: Tree)
    requires var three := PutShared(PutShared(PutShared(EMPTY, [98], Some([1])), [97], Some([2])), [100], Some([4]));
             t == PutShared(three, [99], Some([3]))
    ensures LooselySafeRun(PartFour, t, [DelOp([98]), DelOp([100])])
  {
    var b, d := Entry([98], Some([1])), Entry([100], Some([4]));
    var a, c := Node(Some(Entry([97], Some([2]))), Nil, Nil), Node(Some(Entry([99], Some([3]))), Nil, Nil);
    assert Route([97], [98]) == ToLeft && Route([100], [98]) == ToRight;
    assert Route([99], [98]) == ToRight && Route([99], [100]) == ToLeft;
    assert PutShared(Node(Some(b), Nil, Nil), [97], Some([2])) == Node(Some(b), a, Nil);
    var bad := Node(Some(b), a, Node(Some(d), Nil, Nil));
    assert PutShared(Node(Some(b), a, Nil), [100], Some([4])) == bad;
    assert PutShared(bad, [99], Some([3])) == Node(Some(b), a, Node(Some(d), c, Nil)) by {
      assert Find(bad.right, [99]).None? && Find(bad, [99]).None?;
      assert Put(bad.right, [99], Some([3])) == Node(Some(d), c, Nil);
    }
    assert t == Node(Some(b), a, Node(Some(d), c, Nil));
    FourKeysWithoutB(t, a, c, d);
  }

  lemma FourKeysWithoutB(t: Tree, a: Tree, c: Tree, d: Entry)
    requires a == Node(Some(Entry([97], Some([2]))), Nil, Nil) && c == Node(Some(Entry([99], Some([3]))), Nil, Nil)
    requires d.key == [100] && t == Node(Some(Entry([98], Some([1]))), a, Node(Some(d), c, Nil))
    ensures LooselySafeRun(PartFour, t, [DelOp([98]), DelOp([100])])
  {
    assert Route([98], [98]) == Here && Route([98], [100]) == ToLeft && Route([98], [99]) == ToLeft;
    assert Leftmost(t.right) == c;
    assert Find(t.right, [98]).None?;
    var t' := Node(c.entry, a, Node(Some(d), c, Nil));
    assert After(PartFour, t, DelOp([98])) == t';
    assert Route([100], [99]) == ToRight && Route([100], [100]) == Here && Route([99], [99]) == Here;
    assert NodeAt(t', [100]) == t'.right;
    assert !Passes(t', [100], [99]);
    assert LooselySafeOp(PartFour, t', DelOp([100]));
    assert [DelOp([98]), DelOp([100])][1..] == [DelOp([100])];
  }
}
