/**
 Whole runs of puts, lookups and updates of the hash table against a map of bounded size: when the table answers
 as the map from start to end.
 */
module TableRuns {
  import opened CStrings
  import opened Table
  import opened TableProofs

  datatype Op = PutOp(key: CString, value: seq<Byte>) | UpdateOp(key: CString, value: seq<Byte>) | GetOp(key: CString)

  datatype Reply = Code(code: int) | Value(value: Option<seq<Byte>>)

  type Map = map<CString, seq<Byte>>

  /** One call on the table; no result when the program would dereference NULL or index in front of its array. */
  function Apply(t: Table, op: Op): Option<(Table, Reply)> {
    if op.PutOp? && t.numElem == |t.slots| then Some((t, Code(-1)))
    else if !Hashable(op.key, |t.slots|) then None
    else match op
      case PutOp(key, value) => Some((Put(t, key, value).0, Code(Put(t, key, value).1)))
      case GetOp(key) => Some((t, Value(Get(t, key))))
      case UpdateOp(key, value) =>
        match Update(t, key, value)
        case NullDereference => None
        case Answer(t', code) => Some((t', Code(code)))
  }

  /** A map that holds at most size keys, on the same operation. */
  function ApplyToMap(m: Map, size: nat, op: Op): (Map, Reply) {
    match op
    case PutOp(key, value) => if key !in m && |m| < size then (m[key := value], Code(0)) else (m, Code(-1))
    case GetOp(key) => (m, Value(if key in m then Some(m[key]) else None))
    case UpdateOp(key, value) => if key in m then (m[key := value], Code(0)) else (m, Code(-1))
  }

  /** The size of the table and every lookup are those of the map. */
  ghost predicate Models(t: Table, m: Map) {
    && |m| == t.numElem
    && (forall k :: k in m ==> Hashable(k, |t.slots|))
    && forall k :: Hashable(k, |t.slots|) ==> Get(t, k) == if k in m then Some(m[k]) else None
  }

  /**
   A caller can check this before the call. Only a put into a full table may have a key without a proper hash;
   a put of an absent key must bring a value; an update of a stored key too, and one of an absent key
   must find the slot of its hash free.
   */
  predicate SafeOp(t: Table, op: Op) {
    || (op.PutOp? && t.numElem == |t.slots|)
    || (&& Hashable(op.key, |t.slots|)
        && match op
           case PutOp(key, value) => |value| > 0 || Get(t, key).Some?
           case GetOp(_) => true
           case UpdateOp(key, value) =>
             if Get(t, key).Some? then |value| > 0 else !Occupied(t.slots, Hash(key, |t.slots|)))
  }

  predicate SafeRun(t: Table, ops: seq<Op>)
    decreases |ops|
  {
    ops == [] ||
    (&& SafeOp(t, ops[0])
     && match Apply(t, ops[0])
        case None => false
        case Some((t', _)) => SafeRun(t', ops[1..]))
  }

  /** At every point of the run, the size and every lookup agree with the map, and every call replies as the map. */
  ghost predicate AgreesThroughout(t: Table, m: Map, size: nat, ops: seq<Op>)
    decreases |ops|
  {
    && Models(t, m)
    && (ops != [] ==>
          match Apply(t, ops[0])
          case None => false
          case Some((t', reply)) =>
            && reply == ApplyToMap(m, size, ops[0]).1
            && AgreesThroughout(t', ApplyToMap(m, size, ops[0]).0, size, ops[1..]))
  }

  /** The table that a run leaves; one that the program does not survive ends there. */
  function LastTable(t: Table, ops: seq<Op>): Table
    decreases |ops|
  {
    if ops == [] || Apply(t, ops[0]).None? then t else LastTable(Apply(t, ops[0]).value.0, ops[1..])
  }

  ghost predicate Good(t: Table) {
    exists rank :: Inv(t, rank)
  }

  lemma OneMoreKey(t: Table, t': Table, m: Map, key: CString, value: seq<Byte>)
    requires Models(t, m) && |t'.slots| == |t.slots| && Hashable(key, |t.slots|) && key !in m
    requires t'.numElem == t.numElem + 1
    requires forall k :: Hashable(k, |t.slots|) ==> Get(t', k) == if k == key then Dup(value) else Get(t, k)
    ensures Models(t', m[key := value]) <==> |value| > 0
  {
    var m' := m[key := value];
    assert m'.Keys == m.Keys + {key} && |m'| == |m'.Keys| == |m| + 1;
    if |value| > 0 {
      forall k | Hashable(k, |t.slots|) ensures Get(t', k) == if k in m' then Some(m'[k]) else None {
        assert k != key ==> Get(t', k) == Get(t, k);
      }
    } else {
      assert Get(t', key).None? && key in m';
    }
  }

  lemma ChangedKey(t: Table, t': Table, m: Map, key: CString, value: seq<Byte>)
    requires Models(t, m) && |t'.slots| == |t.slots| && Hashable(key, |t.slots|) && key in m
    requires t'.numElem == t.numElem
    requires forall k :: Hashable(k, |t.slots|) ==> Get(t', k) == if k == key then Dup(value) else Get(t, k)
    ensures Models(t', m[key := value]) <==> |value| > 0
  {
    var m' := m[key := value];
    assert m'.Keys == m.Keys && |m'| == |m'.Keys| == |m|;
    if |value| > 0 {
      forall k | Hashable(k, |t.slots|) ensures Get(t', k) == if k in m' then Some(m'[k]) else None {
        assert k != key ==> Get(t', k) == Get(t, k);
      }
    } else {
      assert Get(t', key).None? && key in m';
    }
  }

  /** The reply of a put is always that of the map; what it leaves behind is right exactly if the put is safe. */
  lemma PutRefinesIff(t: Table, m: Map, key: CString, value: seq<Byte>)
    requires Good(t) && Models(t, m) && Hashable(key, |t.slots|)
    ensures var (t', code) := Put(t, key, value);
            var (m', reply) := ApplyToMap(m, |t.slots|, PutOp(key, value));
            && |t'.slots| == |t.slots|
            && Code(code) == reply
            && (Models(t', m') <==> SafeOp(t, PutOp(key, value)))
            && (SafeOp(t, PutOp(key, value)) ==> Good(t'))
  {
    var rank :| Inv(t, rank);
    PutIsRight(t, rank, key, value);
    RankFits(t, rank);
    if Put(t, key, value).1 == 0 {
      OneMoreKey(t, Put(t, key, value).0, m, key, value);
    }
  }

  lemma UpdateRefinesIff(t: Table, m: Map, key: CString, value: seq<Byte>)
    requires Good(t) && Models(t, m) && Hashable(key, |t.slots|)
    ensures SafeOp(t, UpdateOp(key, value)) ==> Update(t, key, value).Answer?
    ensures Update(t, key, value).Answer? ==>
              var Answer(t', code) := Update(t, key, value);
              var (m', reply) := ApplyToMap(m, |t.slots|, UpdateOp(key, value));
              && |t'.slots| == |t.slots|
              && Code(code) == reply
              && (Models(t', m') <==> SafeOp(t, UpdateOp(key, value)))
              && (SafeOp(t, UpdateOp(key, value)) ==> Good(t'))
  {
    var rank :| Inv(t, rank);
    UpdateIsRight(t, rank, key, value);
    if Update(t, key, value).Answer? && key in m {
      ChangedKey(t, Update(t, key, value).table, m, key, value);
    }
  }

  /** An operation is safe exactly if it has a result, and that result agrees with the map. */
  lemma StepAgreesIff(t: Table, m: Map, op: Op)
    requires Good(t) && Models(t, m)
    ensures SafeOp(t, op) <==>
            && Apply(t, op).Some?
            && Models(Apply(t, op).value.0, ApplyToMap(m, |t.slots|, op).0)
    ensures Apply(t, op).Some? ==>
              var (t', reply) := Apply(t, op).value;
              |t'.slots| == |t.slots| && reply == ApplyToMap(m, |t.slots|, op).1
    ensures SafeOp(t, op) ==> Good(Apply(t, op).value.0)
  {
    if Hashable(op.key, |t.slots|) {
      match op
      case GetOp(_) =>
      case PutOp(key, value) => PutRefinesIff(t, m, key, value);
      case UpdateOp(key, value) => UpdateRefinesIff(t, m, key, value);
    }
  }

  /**
   Over any run of puts, lookups and updates, with any keys and any values, the table answers every lookup and
   replies to every call as a map that holds at most size keys, if and only if every call is safe when its
   turn comes.
   */
  lemma {:induction false} RunAgreesIff(t: Table, m: Map, ops: seq<Op>)
    requires Good(t) && Models(t, m)
    ensures AgreesThroughout(t, m, |t.slots|, ops) <==> SafeRun(t, ops)
    ensures SafeRun(t, ops) ==> Good(LastTable(t, ops))
    decreases |ops|
  {
    if ops != [] {
      StepAgreesIff(t, m, ops[0]);
      var m' := ApplyToMap(m, |t.slots|, ops[0]).0;
      if SafeOp(t, ops[0]) {
        RunAgreesIff(Apply(t, ops[0]).value.0, m', ops[1..]);
      } else if AgreesThroughout(t, m, |t.slots|, ops) {
        ModelsAtOnce(Apply(t, ops[0]).value.0, m', |t.slots|, ops[1..]);
      }
    }
  }

  lemma ModelsAtOnce(t: Table, m: Map, size: nat, ops: seq<Op>)
    requires AgreesThroughout(t, m, size, ops)
    ensures Models(t, m)
  {
  }

  /**
   A table fresh from table_create behaves as an empty map over a run exactly if every call of the run is safe, and
   then the run leaves the invariant intact.
   */
  lemma NewTableRefinesMapIff(n: nat, ops: seq<Op>)
    requires n > 0
    ensures AgreesThroughout(Create(n), map[], n, ops) <==> SafeRun(Create(n), ops)
    ensures SafeRun(Create(n), ops) ==> Good(LastTable(Create(n), ops))
  {
    CreateIsValid(n);
    assert Models(Create(n), map[]);
    RunAgreesIff(Create(n), map[], ops);
  }

  // ---------------------------------------------------------------- the replies alone

  /** The replies of the table; a run that the program does not survive ends there. */
  function Replies(t: Table, ops: seq<Op>): seq<Reply>
    decreases |ops|
  {
    if ops == [] then []
    else match Apply(t, ops[0])
      case None => []
      case Some((t', reply)) => [reply] + Replies(t', ops[1..])
  }

  function MapReplies(m: Map, size: nat, ops: seq<Op>): seq<Reply>
    decreases |ops|
  {
    if ops == [] then []
    else
      var (m', reply) := ApplyToMap(m, size, ops[0]);
      [reply] + MapReplies(m', size, ops[1..])
  }

  predicate NoEmptyValue(ops: seq<Op>) {
    forall i :: 0 <= i < |ops| && !ops[i].GetOp? ==> |ops[i].value| > 0
  }

  /** Where no value is empty the replies alone tell: they are those of the map exactly in a safe run. */
  lemma {:induction false} RepliesAgreeIff(t: Table, m: Map, ops: seq<Op>)
    requires Good(t) && Models(t, m) && NoEmptyValue(ops)
    ensures Replies(t, ops) == MapReplies(m, |t.slots|, ops) <==> SafeRun(t, ops)
    decreases |ops|
  {
    if ops != [] {
      StepAgreesIff(t, m, ops[0]);
      if SafeOp(t, ops[0]) {
        var (t', reply) := Apply(t, ops[0]).value;
        var m' := ApplyToMap(m, |t.slots|, ops[0]).0;
        RepliesAgreeIff(t', m', ops[1..]);
        SameHead(reply, Replies(t', ops[1..]), MapReplies(m', |t.slots|, ops[1..]));
      } else {
        UnsafeHasNoResult(t, ops[0]);
      }
    }
  }

  lemma UnsafeHasNoResult(t: Table, op: Op)
    requires Good(t) && !SafeOp(t, op) && (op.GetOp? || |op.value| > 0)
    ensures Apply(t, op).None?
  {
    if Hashable(op.key, |t.slots|) && op.UpdateOp? {
      var rank :| Inv(t, rank);
      UpdateIsRight(t, rank, op.key, op.value);
    }
  }

  lemma SameHead(head: Reply, a: seq<Reply>, b: seq<Reply>)
    ensures [head] + a == [head] + b <==> a == b
  {
    assert ([head] + a)[1..] == a && ([head] + b)[1..] == b;
  }
}
