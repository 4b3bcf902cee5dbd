/**
 What the operations of the hash table keep, where they put an entry, and what their counters count.
 */
module TableProofs {
  import opened CStrings
  import opened Table

  // ---------------------------------------------------------------- placing an entry

  /** A link that is set stays set, so what could be reached can still be reached. */
  lemma {:induction false} ReachKept(slots: seq<Slot>, slots': seq<Slot>, a: nat, b: nat, n: nat)
    requires |slots| == |slots'|
    requires forall x: nat :: x < |slots| && slots[x].next.Some? ==> slots'[x].next == slots[x].next
    requires ReachIn(slots, a, b, n)
    ensures ReachIn(slots', a, b, n)
    decreases n
  {
    if n > 0 {
      ReachKept(slots, slots', slots[a].next.value, b, n - 1);
    }
  }

  lemma {:induction false} ReachOneMore(slots: seq<Slot>, a: nat, b: nat, c: nat, n: nat)
    requires ReachIn(slots, a, b, n) && Links(slots, b, c)
    ensures ReachIn(slots, a, c, n + 1)
    decreases n
  {
    if n > 0 {
      ReachOneMore(slots, slots[a].next.value, b, c, n - 1);
    } else {
      assert ReachIn(slots, c, c, 0);
    }
  }

  /** The array after slot i, free before, received an entry. */
  function Filled(slots: seq<Slot>, i: nat, key: CString, value: Data): seq<Slot>
    requires i < |slots|
  {
    slots[i := Slot(Some(key), Some(value), None)]
  }

  /** An entry placed in the slot of its own hash starts a chain and changes no other. */
  lemma HomeKeepsInv(t: Table, rank: map<nat, nat>, i: nat, key: CString, value: Data)
    requires Inv(t, rank) && Hashable(key, |t.slots|)
    requires i == Hash(key, |t.slots|) && !Occupied(t.slots, i)
    requires forall x: nat :: Occupied(t.slots, x) ==> t.slots[x].key != Some(key)
    ensures Inv(Table(Filled(t.slots, i, key, value), t.numElem + 1, t.numCol), rank[i := |rank|])
  {
    var slots, slots', rank' := t.slots, Filled(t.slots, i, key, value), rank[i := |rank|];
    assert |rank'| == |rank| + 1 by {
      assert SlotInv(slots, rank, i);
      assert rank'.Keys == rank.Keys + {i};
    }
    HomeSlots(t, rank, slots', rank', i, key);
    assert LinksDiffer(slots') by {
      assert SlotInv(slots, rank, i);
      LinksStayTheSame(slots, slots');
    }
    assert DisplacedSlots(slots') == DisplacedSlots(slots) && LinkedSlots(slots') == LinkedSlots(slots) by {
      assert SlotInv(slots, rank, i);
      HomeCounts(slots, slots', i);
    }
    assert KeysDiffer(slots') by {
      KeysStillDiffer(slots, slots', i);
    }
  }

  lemma HomeSlots(t: Table, rank: map<nat, nat>, slots': seq<Slot>, rank': map<nat, nat>, i: nat, key: CString)
    requires Inv(t, rank) && Hashable(key, |t.slots|)
    requires i == Hash(key, |t.slots|) && !Occupied(t.slots, i)
    requires rank' == rank[i := |rank|] && |rank'| == |rank| + 1
    requires |slots'| == |t.slots|
    requires slots'[i].key == Some(key) && slots'[i].value.Some? && slots'[i].next.None?
    requires forall x: nat :: x < |t.slots| && x != i ==> slots'[x] == t.slots[x]
    ensures forall x: nat :: x < |slots'| ==> SlotInv(slots', rank', x)
  {
    assert ReachIn(slots', i, i, 0);
    forall x: nat | x < |slots'| ensures SlotInv(slots', rank', x) {
      PlacedSlot(t, rank, slots', rank', i, x);
    }
  }

  lemma KeysStillDiffer(slots: seq<Slot>, slots': seq<Slot>, i: nat)
    requires KeysDiffer(slots) && |slots'| == |slots| && i < |slots| && slots'[i].key.Some?
    requires forall x: nat :: x < |slots| && x != i ==> slots'[x].key == slots[x].key
    requires forall x: nat :: Occupied(slots, x) ==> slots[x].key != slots'[i].key
    ensures KeysDiffer(slots')
  {
    forall x: nat | Occupied(slots', x) && x != i ensures Occupied(slots, x) && slots'[x].key != slots'[i].key {
      assert slots'[x].key == slots[x].key;
    }
  }

  lemma LinksStayTheSame(slots: seq<Slot>, slots': seq<Slot>)
    requires LinksDiffer(slots) && |slots'| == |slots|
    requires forall x: nat :: x < |slots| ==> slots'[x].next == slots[x].next
    ensures LinksDiffer(slots')
  {
    forall p: nat, y: nat | Links(slots', p, y) ensures Links(slots, p, y) {
      assert slots'[p].next == slots[p].next;
    }
  }

  lemma LinksStillDiffer(slots: seq<Slot>, slots': seq<Slot>, end: nat, i: nat)
    requires LinksDiffer(slots) && |slots'| == |slots| && end < |slots|
    requires forall x: nat :: x < |slots| && x != end ==> slots'[x].next == slots[x].next
    requires slots'[end].next == Some(i) && forall p: nat :: !Links(slots, p, i)
    ensures LinksDiffer(slots')
  {
    forall p: nat, y: nat | Links(slots', p, y) ensures Links(slots, p, y) || (p == end && y == i) {
      if p != end {
        assert slots'[p].next == slots[p].next;
      }
    }
  }

  /** No more displaced entries and no more links. */
  lemma HomeCounts(slots: seq<Slot>, slots': seq<Slot>, i: nat)
    requires |slots'| == |slots| && i < |slots|
    requires !Displaced(slots, i) && !Displaced(slots', i) && slots[i].next.None? && slots'[i].next.None?
    requires forall x: nat :: x < |slots| && x != i ==> slots'[x] == slots[x]
    ensures DisplacedSlots(slots') == DisplacedSlots(slots)
    ensures LinkedSlots(slots') == LinkedSlots(slots)
  {
    forall x: nat | x < |slots| ensures Displaced(slots', x) == Displaced(slots, x) && slots'[x].next == slots[x].next {
      if x != i {
        assert slots'[x] == slots[x];
      }
    }
  }

  /** What the placing of an entry in slot i, with or without a new link to it, means for a slot. */
  lemma PlacedSlot(t: Table, rank: map<nat, nat>, slots': seq<Slot>, rank': map<nat, nat>, i: nat, x: nat)
    requires Inv(t, rank) && x < |t.slots| == |slots'|
    requires i < |t.slots| && !Occupied(t.slots, i)
    requires rank' == rank[i := |rank|] && |rank'| == |rank| + 1
    requires slots'[i].key.Some? && slots'[i].value.Some? && slots'[i].next.None?
    requires Hashable(slots'[i].key.value, |slots'|)
    requires Reaches(slots', Hash(slots'[i].key.value, |slots'|), i)
    requires forall y: nat :: y < |slots'| && y != i ==>
               slots'[y].key == t.slots[y].key && slots'[y].value == t.slots[y].value
    requires forall y: nat :: y < |slots'| && y != i && slots'[y].next != t.slots[y].next ==>
               t.slots[y].next.None? && y in rank && slots'[y].next == Some(i) && Displaced(slots', i)
    requires Displaced(slots', i) ==> exists p: nat :: Links(slots', p, i)
    ensures SlotInv(slots', rank', x)
  {
    assert SlotInv(t.slots, rank, x);
    assert SlotInv(t.slots, rank, i);
    if x != i {
      if t.slots[x].key.Some? {
        var h := Hash(t.slots[x].key.value, |t.slots|);
        var n: nat :| ReachIn(t.slots, h, x, n);
        ReachKept(t.slots, slots', h, x, n);
      }
      if Displaced(slots', x) {
        assert Displaced(t.slots, x);
        var p: nat :| Links(t.slots, p, x);
        assert Links(slots', p, x);
      }
    }
  }

  /** An entry placed elsewhere and linked from the end of its chain extends that chain. */
  lemma OverflowKeepsInv(t: Table, rank: map<nat, nat>, slots': seq<Slot>, i: nat, end: nat, key: CString)
    requires Inv(t, rank) && Hashable(key, |t.slots|)
    requires i < |t.slots| && !Occupied(t.slots, i) && i != Hash(key, |t.slots|)
    requires end in rank && end < |t.slots| && end != i && t.slots[end].next.None?
    requires Reaches(t.slots, Hash(key, |t.slots|), end)
    requires forall x: nat :: Occupied(t.slots, x) ==> t.slots[x].key != Some(key)
    requires |slots'| == |t.slots|
    requires slots'[i].key == Some(key) && slots'[i].value.Some? && slots'[i].next.None?
    requires slots'[end] == t.slots[end].(next := Some(i))
    requires forall x: nat :: x < |t.slots| && x != i && x != end ==> slots'[x] == t.slots[x]
    ensures Inv(Table(slots', t.numElem + 1, t.numCol + 1), rank[i := |rank|])
  {
    var rank' := rank[i := |rank|];
    assert |rank'| == |rank| + 1 by {
      assert SlotInv(t.slots, rank, i);
      assert rank'.Keys == rank.Keys + {i};
    }
    OverflowSlots(t, rank, slots', rank', i, end, key);
    assert LinksDiffer(slots') by {
      NoLinkToFreeSlot(t, rank, i);
      LinksStillDiffer(t.slots, slots', end, i);
    }
    assert |DisplacedSlots(slots')| == t.numCol + 1 == |LinkedSlots(slots')| by {
      assert SlotInv(t.slots, rank, i);
      OverflowCounts(t.slots, slots', i, end);
    }
    assert KeysDiffer(slots') by {
      KeysStillDiffer(t.slots, slots', i);
    }
  }

  lemma OverflowSlots(
    t: Table, rank: map<nat, nat>, slots': seq<Slot>, rank': map<nat, nat>, i: nat, end: nat, key: CString)
    requires Inv(t, rank) && Hashable(key, |t.slots|)
    requires i < |t.slots| && !Occupied(t.slots, i) && i != Hash(key, |t.slots|)
    requires end in rank && end < |t.slots| && end != i && t.slots[end].next.None?
    requires Reaches(t.slots, Hash(key, |t.slots|), end)
    requires |slots'| == |t.slots| && rank' == rank[i := |rank|] && |rank'| == |rank| + 1
    requires slots'[i].key == Some(key) && slots'[i].value.Some? && slots'[i].next.None?
    requires slots'[end] == t.slots[end].(next := Some(i))
    requires forall x: nat :: x < |t.slots| && x != i && x != end ==> slots'[x] == t.slots[x]
    ensures forall x: nat :: x < |slots'| ==> SlotInv(slots', rank', x)
  {
    assert SlotInv(t.slots, rank, i);
    OverflowReach(t.slots, slots', Hash(key, |t.slots|), end, i);
    assert Displaced(slots', i);
    forall x: nat | x < |slots'| ensures SlotInv(slots', rank', x) {
      PlacedSlot(t, rank, slots', rank', i, x);
    }
  }

  /** The new slot is one link further than the old end of the chain. */
  lemma OverflowReach(slots: seq<Slot>, slots': seq<Slot>, h: nat, end: nat, i: nat)
    requires |slots'| == |slots| && end < |slots| && Reaches(slots, h, end)
    requires forall x: nat :: x < |slots| && slots[x].next.Some? ==> slots'[x].next == slots[x].next
    requires slots'[end].next == Some(i)
    ensures Links(slots', end, i) && Reaches(slots', h, i)
  {
    var n: nat :| ReachIn(slots, h, end, n);
    ReachKept(slots, slots', h, end, n);
    assert Links(slots', end, i);
    ReachOneMore(slots', h, end, i, n);
  }

  lemma NoLinkToFreeSlot(t: Table, rank: map<nat, nat>, i: nat)
    requires Inv(t, rank) && i < |t.slots| && !Occupied(t.slots, i)
    ensures forall p: nat :: !Links(t.slots, p, i)
  {
    forall p: nat ensures !Links(t.slots, p, i) {
      if p < |t.slots| {
        assert SlotInv(t.slots, rank, p);
      }
    }
  }

  /** One more displaced entry, one more link. */
  lemma OverflowCounts(slots: seq<Slot>, slots': seq<Slot>, i: nat, end: nat)
    requires |slots'| == |slots| && i < |slots| && end < |slots| && i != end
    requires !Occupied(slots, i) && Displaced(slots', i) && slots[i].next.None? && slots'[i].next.None?
    requires slots[end].next.None? && slots'[end].next.Some? && slots'[end].key == slots[end].key
    requires forall x: nat :: x < |slots| && x != i && x != end ==> slots'[x] == slots[x]
    ensures |DisplacedSlots(slots')| == |DisplacedSlots(slots)| + 1
    ensures |LinkedSlots(slots')| == |LinkedSlots(slots)| + 1
  {
    forall x: nat | x < |slots| && x != i
      ensures Displaced(slots', x) == Displaced(slots, x) && (x != end ==> slots'[x].next == slots[x].next)
    {
      if x != end {
        assert slots'[x] == slots[x];
      }
    }
    assert DisplacedSlots(slots') == DisplacedSlots(slots) + {i};
    assert LinkedSlots(slots') == LinkedSlots(slots) + {end};
  }

  // ---------------------------------------------------------------- put

  /** The insertion order after a put. */
  ghost function RankAfterPut(t: Table, rank: map<nat, nat>, key: CString): map<nat, nat>
    requires Hashable(key, |t.slots|)
  {
    var h := Hash(key, |t.slots|);
    if t.numElem == |t.slots| || Get(t, key).Some? then rank
    else if t.slots[h].value.None? then rank[h := |rank|]
    else match TopFree(t.slots, |t.slots|)
      case None => rank
      case Some(i) => rank[i := |rank|]
  }

  /** The key is a new one, and the slot that its hash names is taken. */
  lemma CollisionFacts(t: Table, rank: map<nat, nat>, key: CString)
    requires Inv(t, rank) && Hashable(key, |t.slots|)
    requires t.numElem != |t.slots| && Occupied(t.slots, Hash(key, |t.slots|))
    ensures var h := Hash(key, |t.slots|);
            var top, end := TopFree(t.slots, |t.slots|), ChainEnd(t.slots, h, |t.slots|);
            && top.Some? && !Occupied(t.slots, top.value) && top.value != h
            && t.slots[top.value] == FREE
            && end in rank && end < |t.slots| && t.slots[end].next.None? && Reaches(t.slots, h, end)
  {
    var h := Hash(key, |t.slots|);
    RankFits(t, rank);
    TopFreeIsTop(t.slots, |t.slots|);
    assert SlotInv(t.slots, rank, h);
    ChainEndIsLast(t, rank, h, |t.slots|);
    assert SlotInv(t.slots, rank, TopFree(t.slots, |t.slots|).value);
  }

  /** An entry placed with a value in it keeps the invariant, and changes what a lookup answers for its key alone. */
  lemma PutOfDataIsRight(t: Table, rank: map<nat, nat>, key: CString, value: Data)
    requires Inv(t, rank) && Hashable(key, |t.slots|)
    ensures var (t', code) := Put(t, key, value);
            && |t'.slots| == |t.slots|
            && Inv(t', RankAfterPut(t, rank, key))
            && (code == 0 <==> Get(t, key).None? && t.numElem < |t.slots|)
            && (code == 0 || (code == -1 && t' == t))
            && t'.numElem == t.numElem + (if code == 0 then 1 else 0)
            && forall k :: Hashable(k, |t.slots|) ==>
                 Get(t', k) == if code == 0 && k == key then Some(value) else Get(t, k)
  {
    var (t', code) := Put(t, key, value);
    var h := Hash(key, |t.slots|);
    RankFits(t, rank);
    FindIsRight(t, rank, key);
    assert SlotInv(t.slots, rank, h);
    if t.numElem != |t.slots| && Get(t, key).None? {
      if t.slots[h].value.None? {
        HomeKeepsInv(t, rank, h, key, value);
        LookupsAfterPlacing(t, rank, t', rank[h := |rank|], h, key, value);
      } else {
        CollisionFacts(t, rank, key);
        var i, end := TopFree(t.slots, |t.slots|).value, ChainEnd(t.slots, h, |t.slots|);
        assert SlotInv(t.slots, rank, end);
        OverflowKeepsInv(t, rank, t'.slots, i, end, key);
        LookupsAfterPlacing(t, rank, t', rank[i := |rank|], i, key, value);
      }
    }
  }

  /** A search follows keys and links and does not look at values. */
  lemma {:induction false} FindIgnoresValues(slots: seq<Slot>, slots': seq<Slot>, x: nat, key: CString, fuel: nat)
    requires |slots'| == |slots|
    requires forall y: nat :: y < |slots| ==> slots'[y].key == slots[y].key && slots'[y].next == slots[y].next
    ensures FindFrom(slots', x, key, fuel) == FindFrom(slots, x, key, fuel)
    decreases fuel
  {
    if x < |slots| && fuel > 0 && slots[x].next.Some? {
      FindIgnoresValues(slots, slots', slots[x].next.value, key, fuel - 1);
    }
  }

  /**
   Replacing the value of a stored key changes what a lookup answers for that key alone. An empty value is stored as
   NULL, and then no insertion order satisfies the invariant any more.
   */
  lemma ValueChange(t: Table, rank: map<nat, nat>, x: nat, value: seq<Byte>)
    requires Inv(t, rank) && Occupied(t.slots, x)
    ensures forall k :: Hashable(k, |t.slots|) ==>
              Get(WithValue(t, x, value), k) == if Some(k) == t.slots[x].key then Dup(value) else Get(t, k)
    ensures |value| > 0 ==> Inv(WithValue(t, x, value), rank)
    ensures |value| == 0 ==> forall r :: !Inv(WithValue(t, x, value), r)
  {
    var t' := WithValue(t, x, value);
    forall k | Hashable(k, |t.slots|)
      ensures Get(t', k) == if Some(k) == t.slots[x].key then Dup(value) else Get(t, k)
    {
      FindIgnoresValues(t.slots, t'.slots, Hash(k, |t.slots|), k, |t.slots|);
      FindIsRight(t, rank, k);
    }
    if |value| > 0 {
      ValueChangeKeepsInv(t, rank, x, value);
    } else {
      forall r ensures !Inv(t', r) {
        assert !SlotInv(t'.slots, r, x);
      }
    }
  }

  /** A put of another value differs in that value only. */
  lemma PutOfOtherValue(t: Table, key: CString, value: seq<Byte>, other: seq<Byte>) returns (x: nat)
    requires Hashable(key, |t.slots|)
    ensures Put(t, key, value).1 == Put(t, key, other).1
    ensures Put(t, key, value).1 != 0 ==> Put(t, key, value).0 == Put(t, key, other).0
    ensures Put(t, key, value).1 == 0 ==>
              && Occupied(Put(t, key, other).0.slots, x)
              && Put(t, key, other).0.slots[x].key == Some(key)
              && Put(t, key, value).0 == WithValue(Put(t, key, other).0, x, value)
  {
    x := Hash(key, |t.slots|);
    if t.slots[x].value.Some? && TopFree(t.slots, |t.slots|).Some? {
      x := TopFree(t.slots, |t.slots|).value;
    }
  }

  /**
   table_put answers 0 exactly when the key is absent and a slot is free, and then changes what a lookup answers for
   that key alone; otherwise it changes nothing. It keeps the invariant unless it stores an empty value, after
   which no insertion order satisfies the invariant.
   */
  lemma PutIsRight(t: Table, rank: map<nat, nat>, key: CString, value: seq<Byte>)
    requires Inv(t, rank) && Hashable(key, |t.slots|)
    ensures var (t', code) := Put(t, key, value);
            && |t'.slots| == |t.slots|
            && (code == 0 <==> Get(t, key).None? && t.numElem < |t.slots|)
            && (code == 0 || (code == -1 && t' == t))
            && t'.numElem == t.numElem + (if code == 0 then 1 else 0)
            && (code == -1 || |value| > 0 ==> Inv(t', RankAfterPut(t, rank, key)))
            && (code == 0 && |value| == 0 ==> forall r :: !Inv(t', r))
            && forall k :: Hashable(k, |t.slots|) ==>
                 Get(t', k) == if code == 0 && k == key then Dup(value) else Get(t, k)
  {
    if |value| > 0 {
      PutOfDataIsRight(t, rank, key, value);
    } else {
      PutOfDataIsRight(t, rank, key, [0]);
      var x := PutOfOtherValue(t, key, value, [0]);
      if Put(t, key, value).1 == 0 {
        ValueChange(Put(t, key, [0]).0, RankAfterPut(t, rank, key), x, value);
      }
    }
  }

  lemma LookupsAfterPlacing(
    t: Table, rank: map<nat, nat>, t': Table, rank': map<nat, nat>, i: nat, key: CString, value: Data)
    requires Inv(t, rank) && Inv(t', rank') && |t.slots| == |t'.slots|
    requires i < |t.slots| && !Occupied(t.slots, i)
    requires t'.slots[i].key == Some(key) && t'.slots[i].value == Some(value)
    requires forall x: nat :: x < |t.slots| && x != i ==>
               t'.slots[x].key == t.slots[x].key && t'.slots[x].value == t.slots[x].value
    ensures forall k :: Hashable(k, |t.slots|) ==> Get(t', k) == if k == key then Some(value) else Get(t, k)
  {
    forall k | Hashable(k, |t.slots|) ensures Get(t', k) == if k == key then Some(value) else Get(t, k) {
      FindIsRight(t, rank, k);
      FindIsRight(t', rank', k);
      if k == key {
        assert Occupied(t'.slots, i);
      } else if Find(t, k).Some? {
        assert Occupied(t'.slots, Find(t, k).value);
      } else if Find(t', k).Some? {
        assert Occupied(t.slots, Find(t', k).value);
      }
    }
  }

  /**
   Where a successful put leaves the key: in the slot of its hash if that was free; otherwise in the free
   slot with the highest index, linked from the end of the chain that passes through the slot of its hash.
   */
  lemma PutPlacement(t: Table, rank: map<nat, nat>, key: CString, value: seq<Byte>)
    requires Inv(t, rank) && Hashable(key, |t.slots|) && Put(t, key, value).1 == 0
    ensures var t', h := Put(t, key, value).0, Hash(key, |t.slots|);
            && |t'.slots| == |t.slots|
            && Find(t', key).Some?
            && var x := Find(t', key).value;
               && !Occupied(t.slots, x)
               && (!Occupied(t.slots, h) ==> x == h && t'.numCol == t.numCol)
               && (Occupied(t.slots, h) ==>
                     && t'.numCol == t.numCol + 1
                     && (forall y: nat :: x < y < |t.slots| ==> Occupied(t.slots, y))
                     && exists end: nat ::
                          && end < |t.slots|
                          && t.slots[end].next.None?
                          && Reaches(t.slots, h, end)
                          && Links(t'.slots, end, x))
  {
    var data: Data := if |value| > 0 then value else [0];
    PlacementOfData(t, rank, key, data);
    PutOfDataIsRight(t, rank, key, data);
    var other := Put(t, key, data).0;
    var i := PutOfOtherValue(t, key, value, data);
    FindIgnoresValues(other.slots, Put(t, key, value).0.slots, Hash(key, |t.slots|), key, |t.slots|);
    if Occupied(t.slots, Hash(key, |t.slots|)) {
      var end: nat :|
        && end < |t.slots|
        && t.slots[end].next.None?
        && Reaches(t.slots, Hash(key, |t.slots|), end)
        && Links(other.slots, end, Find(other, key).value);
      assert Links(Put(t, key, value).0.slots, end, Find(other, key).value);
    }
  }

  lemma PlacementOfData(t: Table, rank: map<nat, nat>, key: CString, value: Data)
    requires Inv(t, rank) && Hashable(key, |t.slots|) && Put(t, key, value).1 == 0
    ensures var t', h := Put(t, key, value).0, Hash(key, |t.slots|);
            && |t'.slots| == |t.slots|
            && Find(t', key).Some?
            && var x := Find(t', key).value;
               && !Occupied(t.slots, x)
               && (!Occupied(t.slots, h) ==> x == h && t'.numCol == t.numCol)
               && (Occupied(t.slots, h) ==>
                     && t'.numCol == t.numCol + 1
                     && (forall y: nat :: x < y < |t.slots| ==> Occupied(t.slots, y))
                     && exists end: nat ::
                          && end < |t.slots|
                          && t.slots[end].next.None?
                          && Reaches(t.slots, h, end)
                          && Links(t'.slots, end, x))
  {
    var t', h := Put(t, key, value).0, Hash(key, |t.slots|);
    PutOfDataIsRight(t, rank, key, value);
    assert SlotInv(t.slots, rank, h);
    FindIsRight(t', RankAfterPut(t, rank, key), key);
    if !Occupied(t.slots, h) {
      assert Occupied(t'.slots, h);
    } else {
      CollisionFacts(t, rank, key);
      TopFreeIsTop(t.slots, |t.slots|);
      var i, end := TopFree(t.slots, |t.slots|).value, ChainEnd(t.slots, h, |t.slots|);
      assert SlotInv(t.slots, rank, end);
      assert Occupied(t'.slots, i) && t'.slots[i].key == Some(key);
      assert Links(t'.slots, end, i);
    }
  }

  /** table_put, then table_get: the value comes back exactly when it is not empty; an empty one is stored as NULL. */
  lemma PutThenGetIff(t: Table, rank: map<nat, nat>, key: CString, value: seq<Byte>)
    requires Inv(t, rank) && Hashable(key, |t.slots|) && Put(t, key, value).1 == 0
    ensures |Put(t, key, value).0.slots| == |t.slots|
    ensures Get(Put(t, key, value).0, key) == Some(value) <==> |value| > 0
  {
    PutIsRight(t, rank, key, value);
  }

  /** An empty value is accepted and cannot be read back. */
  lemma EmptyValueIsLost()
    ensures var t := Create(1);
            && Hashable([97], 1)
            && Put(t, [97], []).1 == 0
            && |Put(t, [97], []).0.slots| == 1
            && Get(Put(t, [97], []).0, [97]) == None
  {
    assert Hash([97], 1) == 0;
  }

  /** Putting "b" with an empty value and then again fills a table of two slots with one key, for every later put. */
  lemma EmptyValueWastesASlot(key: CString, value: seq<Byte>)
    requires Hashable(key, 2)
    ensures Hashable([98], 2) && |Put(Create(2), [98], []).0.slots| == 2
    ensures var t := Put(Put(Create(2), [98], []).0, [98], [1]).0;
            && |t.slots| == 2 && t.numElem == 2 && t.slots[1] == FREE
            && Put(t, key, value) == (t, -1)
  {
    assert Hash([98], 2) == 0;
    assert Put(Create(2), [98], []).0 == Table([Slot(Some([98]), None, None), FREE], 1, 0);
    assert Put(Put(Create(2), [98], []).0, [98], [1]).0 == Table([Slot(Some([98]), Some([1]), None), FREE], 2, 0);
  }

  // ---------------------------------------------------------------- update

  /**
   table_update fails on a NULL pointer exactly when the key is absent and the slot of its hash is taken; it
   changes the value of a stored key alone, and keeps the invariant unless it stores an empty value.
   */
  lemma UpdateIsRight(t: Table, rank: map<nat, nat>, key: CString, value: seq<Byte>)
    requires Inv(t, rank) && Hashable(key, |t.slots|)
    ensures Update(t, key, value).NullDereference? <==> Get(t, key).None? && Occupied(t.slots, Hash(key, |t.slots|))
    ensures Update(t, key, value).Answer? ==>
              var Answer(t', code) := Update(t, key, value);
              && |t'.slots| == |t.slots| && t'.numElem == t.numElem
              && code == (if Get(t, key).Some? then 0 else -1)
              && (code == -1 ==> t' == t)
              && (code == -1 || |value| > 0 ==> Inv(t', rank))
              && (code == 0 && |value| == 0 ==> forall r :: !Inv(t', r))
              && forall k :: Hashable(k, |t.slots|) ==>
                   Get(t', k) == if code == 0 && k == key then Dup(value) else Get(t, k)
  {
    FindIsRight(t, rank, key);
    assert SlotInv(t.slots, rank, Hash(key, |t.slots|));
    if Find(t, key).Some? {
      ValueChange(t, rank, Find(t, key).value, value);
    }
  }

  /** In a table of one slot into which "a" was put, the update of "b" runs off the end of the chain. */
  lemma UpdateRunsOffTheChain()
    ensures var t := Put(Create(1), [97], [1]).0;
            |t.slots| == 1 && Hashable([98], 1) && Update(t, [98], [2]) == NullDereference
  {
    assert Hash([97], 1) == 0 && Hash([98], 1) == 0;
    assert Put(Create(1), [97], [1]).0 == Table([Slot(Some([97]), Some([1]), None)], 1, 0);
  }

  lemma ValueChangeKeepsInv(t: Table, rank: map<nat, nat>, x: nat, value: Data)
    requires Inv(t, rank) && Occupied(t.slots, x)
    ensures Inv(t.(slots := t.slots[x := t.slots[x].(value := Some(value))]), rank)
  {
    var slots, slots' := t.slots, t.slots[x := t.slots[x].(value := Some(value))];
    forall y: nat | y < |slots| ensures SlotInv(slots', rank, y) {
      assert SlotInv(slots, rank, y);
      if slots[y].key.Some? {
        var h := Hash(slots[y].key.value, |slots|);
        var n: nat :| ReachIn(slots, h, y, n);
        ReachKept(slots, slots', h, y, n);
      }
      if Displaced(slots', y) {
        assert Displaced(slots, y);
        var p: nat :| Links(slots, p, y);
        assert Links(slots', p, y);
      }
    }
    LinksStayTheSame(slots, slots');
    assert DisplacedSlots(slots') == DisplacedSlots(slots);
    assert LinkedSlots(slots') == LinkedSlots(slots);
  }

  // ---------------------------------------------------------------- a new table

  lemma CreateIsValid(n: nat)
    ensures Inv(Create(n), map[])
  {
    var t := Create(n);
    assert DisplacedSlots(t.slots) == {} && LinkedSlots(t.slots) == {};
    forall x: nat | x < n ensures SlotInv(t.slots, map[], x) {
    }
  }

  // ---------------------------------------------------------------- accounting

  /** The slots at which a chain begins: occupied, and no link leads there. */
  ghost function ChainHeads(slots: seq<Slot>): set<nat> {
    set x: nat | x < |slots| && Occupied(slots, x) && forall p: nat :: p < |slots| ==> !Links(slots, p, x)
  }

  /**
   numElem counts the occupied slots; numCol counts the entries outside the slot of their hash, and also
   the links; so numElem - numCol is the number of separate chains.
   */
  lemma CountersAreRight(t: Table, rank: map<nat, nat>)
    requires Inv(t, rank)
    ensures t.numElem == |OccupiedSlots(t.slots)|
    ensures t.numCol == |DisplacedSlots(t.slots)| == |LinkedSlots(t.slots)|
    ensures |ChainHeads(t.slots)| == t.numElem - t.numCol
  {
    var slots := t.slots;
    forall x: nat | x < |slots| ensures Occupied(slots, x) <==> x in rank {
      assert SlotInv(slots, rank, x);
    }
    assert OccupiedSlots(slots) == rank.Keys;
    forall x: nat | x < |slots| && Occupied(slots, x)
      ensures Displaced(slots, x) <==> exists p: nat :: p < |slots| && Links(slots, p, x)
    {
      assert SlotInv(slots, rank, x);
      forall p: nat | Links(slots, p, x) ensures Displaced(slots, x) {
        assert SlotInv(slots, rank, p);
      }
    }
    assert ChainHeads(slots) == OccupiedSlots(slots) - DisplacedSlots(slots);
    assert DisplacedSlots(slots) <= OccupiedSlots(slots);
  }

  ghost function OccupiedBelow(slots: seq<Slot>, n: nat): set<nat> {
    set x: nat | x < n && Occupied(slots, x)
  }

  lemma {:induction false} KeysUpToLength(slots: seq<Slot>, n: nat)
    requires n <= |slots|
    ensures |KeysUpTo(slots, n)| == |OccupiedBelow(slots, n)|
  {
    if n > 0 {
      KeysUpToLength(slots, n - 1);
      assert OccupiedBelow(slots, n) ==
             OccupiedBelow(slots, n - 1) + if Occupied(slots, n - 1) then {n - 1} else {};
    }
  }

  lemma {:induction false} KeysUpToPrefix(slots: seq<Slot>, m: nat, n: nat)
    requires m <= n <= |slots|
    ensures KeysUpTo(slots, m) <= KeysUpTo(slots, n)
    decreases n
  {
    if m < n {
      KeysUpToPrefix(slots, m, n - 1);
    }
  }

  /** The list holds the keys of the slots that it covers, and no other key. */
  lemma {:induction false} KeysUpToMembers(slots: seq<Slot>, n: nat)
    requires n <= |slots|
    ensures forall k :: k in KeysUpTo(slots, n) ==>
              exists x: nat :: x < n && Occupied(slots, x) && slots[x].key == Some(k)
    ensures forall x: nat :: x < n && Occupied(slots, x) ==> slots[x].key.value in KeysUpTo(slots, n)
  {
    if n > 0 {
      KeysUpToMembers(slots, n - 1);
      assert slots[n - 1].key.Some? ==> Occupied(slots, n - 1);
    }
  }

  lemma {:induction false} KeysUpToDistinct(slots: seq<Slot>, n: nat)
    requires n <= |slots| && KeysDiffer(slots)
    ensures forall i, j :: 0 <= i < j < |KeysUpTo(slots, n)| ==> KeysUpTo(slots, n)[i] != KeysUpTo(slots, n)[j]
  {
    if n > 0 {
      KeysUpToDistinct(slots, n - 1);
      KeysUpToMembers(slots, n - 1);
      if slots[n - 1].key.Some? {
        assert Occupied(slots, n - 1);
        assert slots[n - 1].key.value !in KeysUpTo(slots, n - 1);
      }
    }
  }

  /** table_get_keys lists each stored key once and nothing else, so numElem + 1 pointers are enough. */
  lemma KeysAreExact(t: Table, rank: map<nat, nat>)
    requires Inv(t, rank)
    ensures var keys := KeysUpTo(t.slots, |t.slots|);
            && |keys| == t.numElem
            && (forall k :: k in keys <==> Hashable(k, |t.slots|) && Get(t, k).Some?)
            && forall i, j :: 0 <= i < j < |keys| ==> keys[i] != keys[j]
  {
    var keys := KeysUpTo(t.slots, |t.slots|);
    KeysUpToLength(t.slots, |t.slots|);
    KeysUpToMembers(t.slots, |t.slots|);
    KeysUpToDistinct(t.slots, |t.slots|);
    CountersAreRight(t, rank);
    assert OccupiedBelow(t.slots, |t.slots|) == OccupiedSlots(t.slots);
    forall k ensures k in keys <==> Hashable(k, |t.slots|) && Get(t, k).Some? {
      if Hashable(k, |t.slots|) {
        FindIsRight(t, rank, k);
      }
      if k in keys {
        var x: nat :| x < |t.slots| && Occupied(t.slots, x) && t.slots[x].key == Some(k);
        assert SlotInv(t.slots, rank, x);
      }
    }
  }
}
