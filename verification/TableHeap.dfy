/**
 The hash table as the program keeps it: an array of entries changed in place, walked along its links and
 scanned for free slots by loops. Every procedure is tied to the function on values of the module Table.
 */
module TableHeap {
  import opened CStrings
  import opened Table
  import opened TableProofs
  import opened TableRuns

  class HashTable {
    const ary: array<Slot>
    var numElem: int
    var numCol: int
    /** The order in which the occupied slots were filled. */
    ghost var rank: map<nat, nat>

    ghost function State(): Table
      reads this, ary
    {
      Table(ary[..], numElem, numCol)
    }

    ghost predicate Valid()
      reads this, ary
    {
      ary.Length > 0 && Inv(State(), rank)
    }

    /** table_create, for a size that it accepts. */
    constructor (n: nat)
      requires n >= 1
      ensures Valid() && State() == Create(n) && fresh(ary)
    {
      var slots := new Slot[n];
      for i := 0 to n
        invariant forall j :: 0 <= j < i ==> slots[j] == FREE
      {
        slots[i] := FREE;
      }
      ary := slots;
      numElem, numCol := 0, 0;
      rank := map[];
      new;
      assert State() == Create(n);
      CreateIsValid(n);
    }

    /** hash: the loop over a short key, or four characters of a longer one, and the remainder. */
    static method HashOf(key: CString, size: nat) returns (h: int)
      requires size > 0
      ensures h == Hash(key, size)
    {
      var sum := 0;
      var n := |key|;
      if n < 5 {
        for i := 0 to n
          invariant sum == SumOfChars(key[..i])
        {
          assert key[..i + 1][..i] == key[..i];
          sum := sum + Signed(key[i]);
        }
        assert key[..n] == key;
      } else {
        sum := Signed(key[0]) + Signed(key[1]) + Signed(key[n - 2]) + Signed(key[n - 1]);
      }
      h := if sum >= 0 then sum % size else -((-sum) % size);
    }

    /**
     The loop of table_get and table_update: along the links until the key or the end of the chain. It compares
     at most numElem keys.
     */
    method Walk(key: CString) returns (slot: Option<nat>, ghost compared: nat)
      requires Valid() && Hashable(key, ary.Length)
      ensures slot == Find(State(), key)
      ensures slot.Some? ==> slot.value < ary.Length
      ensures compared == Comparisons(ary[..], Hash(key, ary.Length), key, ary.Length) <= numElem
    {
      var h := HashOf(key, ary.Length);
      ghost var t := State();
      assert SlotInv(t.slots, rank, h);
      RankFits(t, rank);
      LookupIsBounded(t, rank, h, key, ary.Length);
      if ary[h].key.None? {
        return None, 0;
      }
      var x: nat := h;
      ghost var fuel: nat := ary.Length;
      compared := 1;
      while ary[x].key.value != key
        invariant x < ary.Length && x in rank && ary[x].key.Some? && rank[x] + fuel >= |rank| && fuel > 0
        invariant FindFrom(t.slots, h, key, |t.slots|) == FindFrom(t.slots, x, key, fuel)
        invariant Comparisons(t.slots, h, key, |t.slots|) == compared - 1 + Comparisons(t.slots, x, key, fuel)
        invariant compared >= 1
        decreases |rank| - rank[x]
      {
        assert SlotInv(t.slots, rank, x);
        if ary[x].next.None? {
          return None, compared;
        }
        x, fuel := ary[x].next.value, fuel - 1;
        compared := compared + 1;
        assert SlotInv(t.slots, rank, x);
      }
      assert SlotInv(t.slots, rank, x);
      slot := Some(x);
    }

    /** table_get; no result for a key whose hash is in front of the array. */
    method TableGet(key: CString) returns (value: Option<Option<Data>>)
      requires Valid()
      ensures Apply(State(), GetOp(key)) == if value.None? then None else Some((State(), Value(value.value)))
    {
      var h := HashOf(key, ary.Length);
      if h < 0 {
        return None;
      }
      var found := Lookup(key);
      value := Some(found);
    }

    /** The body of table_get behind the hash. */
    method Lookup(key: CString) returns (value: Option<Data>)
      requires Valid() && Hashable(key, ary.Length)
      ensures value == Get(State(), key)
    {
      var slot, _ := Walk(key);
      value := match slot case None => None case Some(x) => ary[x].value;
    }

    /** The loop of table_put to the end of the chain that leads on from slot h. */
    method LastOfChain(h: nat) returns (x: nat)
      requires Valid() && h in rank
      ensures x == ChainEnd(ary[..], h, ary.Length)
      ensures x < ary.Length
    {
      ghost var t := State();
      RankFits(t, rank);
      x := h;
      ghost var fuel: nat := ary.Length;
      assert SlotInv(t.slots, rank, h);
      while ary[x].next.Some?
        invariant x < ary.Length && x in rank && rank[x] + fuel >= |rank|
        invariant ChainEnd(t.slots, h, |t.slots|) == ChainEnd(t.slots, x, fuel)
        decreases |rank| - rank[x]
      {
        assert SlotInv(t.slots, rank, x);
        x, fuel := ary[x].next.value, fuel - 1;
        assert SlotInv(t.slots, rank, x);
      }
    }

    /** The loop of table_put that scans for a free slot from the highest index downwards. */
    method ScanForFree() returns (slot: Option<nat>)
      ensures slot == TopFree(ary[..], ary.Length)
    {
      var i := ary.Length - 1;
      while i >= 0
        invariant -1 <= i < ary.Length
        invariant TopFree(ary[..], ary.Length) == TopFree(ary[..], i + 1)
      {
        if ary[i].key.None? {
          return Some(i);
        }
        i := i - 1;
      }
      slot := None;
    }

    /**
     table_put; no result for a key whose hash is in front of the array. An entry with an empty value is stored
     with a NULL value, and the table is valid after all other calls.
     */
    method TablePut(key: CString, value: seq<Byte>) returns (code: Option<int>)
      requires Valid()
      modifies this, ary
      ensures Apply(old(State()), PutOp(key, value)) == if code.None? then None else Some((State(), Code(code.value)))
      ensures code.None? ==> State() == old(State())
      ensures Valid() <==> !(code == Some(0) && |value| == 0)
    {
      if numElem == ary.Length {
        return Some(-1);
      }
      var h := HashOf(key, ary.Length);
      if h < 0 {
        return None;
      }
      ghost var t, was := State(), rank;
      var answer := PutEntry(key, value);
      rank := RankAfterPut(t, was, key);
      PutIsRight(t, was, key, value);
      code := Some(answer);
    }

    /** The body of table_put behind the first check. */
    method PutEntry(key: CString, value: seq<Byte>) returns (code: int)
      requires Valid() && Hashable(key, ary.Length) && numElem != ary.Length
      modifies this`numElem, this`numCol, ary
      ensures (State(), code) == Put(old(State()), key, value)
    {
      var sub := Lookup(key);
      if sub.Some? {
        return -1;
      }
      var h := HashOf(key, ary.Length);
      if ary[h].value.None? {
        ary[h] := ary[h].(key := Some(key), value := Dup(value));
        numElem := numElem + 1;
        code := 0;
      } else {
        code := PutInOverflow(h, key, value);
      }
    }

    /** The collision branch of table_put. */
    method PutInOverflow(h: nat, key: CString, value: seq<Byte>) returns (code: int)
      requires Valid() && h < ary.Length && ary[h].value.Some?
      modifies this`numElem, this`numCol, ary
      ensures var t := old(State());
              var end := ChainEnd(t.slots, h, |t.slots|);
              && end < |t.slots|
              && match TopFree(t.slots, |t.slots|)
                 case None => code == -1 && State() == t.(numCol := t.numCol + 1)
                 case Some(i) =>
                   var filled := t.slots[i := t.slots[i].(key := Some(key), value := Dup(value))];
                   && code == 0
                   && State() == Table(filled[end := filled[end].(next := Some(i))], t.numElem + 1, t.numCol + 1)
    {
      assert SlotInv(ary[..], rank, h);
      var end := LastOfChain(h);
      numCol := numCol + 1;
      var slot := ScanForFree();
      match slot
      case None => code := -1;
      case Some(i) =>
        ary[i] := ary[i].(key := Some(key), value := Dup(value));
        numElem := numElem + 1;
        ary[end] := ary[end].(next := Some(i));
        code := 0;
    }

    /**
     table_update; no result for a key whose hash is in front of the array, nor where the loop leaves a NULL
     pointer that is then dereferenced.
     */
    method TableUpdate(key: CString, value: seq<Byte>) returns (code: Option<int>)
      requires Valid()
      modifies ary
      ensures Apply(old(State()), UpdateOp(key, value)) ==
              if code.None? then None else Some((State(), Code(code.value)))
      ensures code.None? ==> State() == old(State())
      ensures Valid() <==> !(code == Some(0) && |value| == 0)
    {
      var h := HashOf(key, ary.Length);
      if h < 0 {
        return None;
      }
      UpdateIsRight(State(), rank, key, value);
      code := UpdateEntry(key, value);
    }

    /** The body of table_update behind the hash. */
    method UpdateEntry(key: CString, value: seq<Byte>) returns (code: Option<int>)
      requires Valid() && Hashable(key, ary.Length)
      modifies ary
      ensures Update(old(State()), key, value) ==
              if code.None? then NullDereference else Answer(State(), code.value)
      ensures code.None? ==> State() == old(State())
    {
      var h := HashOf(key, ary.Length);
      if ary[h].key.None? {
        return Some(-1);
      }
      var slot, _ := Walk(key);
      match slot
      case None => code := None;
      case Some(x) =>
        ary[x] := ary[x].(value := Dup(value));
        code := Some(0);
    }

    /** table_get_keys: an array of numElem + 1 pointers, the last one NULL. */
    method TableGetKeys() returns (keys: array<Option<CString>>)
      requires Valid()
      ensures fresh(keys) && keys.Length == numElem + 1 == |KeysUpTo(ary[..], ary.Length)| + 1
      ensures forall i :: 0 <= i < numElem ==> keys[i] == Some(KeysUpTo(ary[..], ary.Length)[i])
      ensures keys[numElem] == None
    {
      KeysAreExact(State(), rank);
      ghost var slots, all := ary[..], KeysUpTo(ary[..], ary.Length);
      keys := new Option<CString>[numElem + 1];
      var k := 0;
      for i := 0 to ary.Length
        invariant k == |KeysUpTo(slots, i)| <= |all|
        invariant forall j :: 0 <= j < k ==> keys[j] == Some(all[j])
      {
        KeysUpToPrefix(slots, i + 1, ary.Length);
        if ary[i].key.Some? {
          keys[k] := ary[i].key;
          k := k + 1;
        }
      }
      keys[k] := None;
    }
  }
}
