/**
 The hash table of Part 1, on values: chains of colliding entries run through the table's own array, so
 that the chains of different buckets can merge, and an entry that finds its slot taken goes to the free
 slot with the highest index.
 */
module Table {
  import opened CStrings

  /** One entry of the array; next is the index of the entry that the link points to. */
  datatype Slot = Slot(key: Option<CString>, value: Option<Data>, next: Option<nat>)

  datatype Table = Table(slots: seq<Slot>, numElem: int, numCol: int)

  const FREE := Slot(None, None, None)

  // ---------------------------------------------------------------- hash

  /** The value of a char as the program's platform reads it, where char is signed. */
  function Signed(c: CChar): int {
    if c < 128 then c else c - 256
  }

  function SumOfChars(key: CString): int
    decreases |key|
  {
    if key == [] then 0 else SumOfChars(key[..|key| - 1]) + Signed(key[|key| - 1])
  }

  /** A short key counts all its characters, a longer one its first two and last two. */
  function HashSum(key: CString): int {
    var n := |key|;
    if n < 5 then SumOfChars(key) else Signed(key[0]) + Signed(key[1]) + Signed(key[n - 2]) + Signed(key[n - 1])
  }

  /** hash: the remainder of C, which takes the sign of the dividend. */
  function Hash(key: CString, size: nat): int
    requires size > 0
  {
    var sum := HashSum(key);
    if sum >= 0 then sum % size else -((-sum) % size)
  }

  /** The hash is an index into the array. */
  predicate Hashable(key: CString, size: nat) {
    size > 0 && 0 <= Hash(key, size) < size
  }

  // ---------------------------------------------------------------- what a hash depends on

  /** A char is congruent to its byte and lies in the range of a signed byte. */
  lemma SignedIsCongruent(c: CChar)
    ensures (c - Signed(c)) % 256 == 0 && -128 <= Signed(c) < 128
  {
  }

  lemma HashSumOfOne(c: CChar)
    ensures HashSum([]) == 0 && HashSum([c]) == Signed(c)
  {
    assert [c][..0] == [];
  }

  /** The sum of a short key is the sum over its characters. */
  lemma {:induction false} HashSumAdds(a: CString, b: CString)
    requires |a| + |b| < 5
    ensures HashSum(a + b) == HashSum(a) + HashSum(b)
    decreases |b|
  {
    if b == [] {
      assert a + b == a;
    } else {
      var n := |b| - 1;
      HashSumAdds(a, b[..n]);
      assert (a + b)[..|a + b| - 1] == a + b[..n];
    }
  }

  /** The sum of a longer key is that of its first two and last two characters, taken as a short key. */
  lemma HashSumOfLong(key: CString)
    requires |key| >= 5
    ensures HashSum(key) == HashSum(key[..2] + key[|key| - 2..])
  {
    var n := |key|;
    HashSumAdds(key[..2], key[n - 2..]);
    assert key[..2] == [key[0]] + [key[1]] && key[n - 2..] == [key[n - 2]] + [key[n - 1]];
    HashSumAdds([key[0]], [key[1]]);
    HashSumAdds([key[n - 2]], [key[n - 1]]);
    HashSumOfOne(key[0]);
    HashSumOfOne(key[1]);
    HashSumOfOne(key[n - 2]);
    HashSumOfOne(key[n - 1]);
  }

  /** The hash is the remainder of C: congruent to the sum, smaller than the size, and of the sign of the sum. */
  lemma HashIsRemainder(key: CString, size: nat)
    requires size > 0
    ensures (HashSum(key) - Hash(key, size)) % size == 0
    ensures Hash(key, size) < size && -Hash(key, size) < size
    ensures HashSum(key) >= 0 ==> Hash(key, size) >= 0
    ensures HashSum(key) <= 0 ==> Hash(key, size) <= 0
  {
    var sum, h := HashSum(key), Hash(key, size);
    if sum >= 0 {
      assert sum - h == (sum / size) * size;
      MultipleHasNoRemainder(sum / size, size);
    } else {
      assert sum - h == -((-sum) / size) * size;
      MultipleHasNoRemainder(-((-sum) / size), size);
    }
  }

  lemma MultipleHasNoRemainder(q: int, size: nat)
    requires size > 0
    ensures (q * size) % size == 0
  {
    var r := (q * size) % size;
    var p := (q * size) / size;
    assert q * size == p * size + r && 0 <= r < size;
    assert (q - p) * size == r;
    MultiplesAreApart(q - p, size);
  }

  lemma MultiplesAreApart(d: int, size: nat)
    ensures d >= 1 ==> d * size >= size
    ensures d <= -1 ==> -(d * size) >= size
  {
    if d >= 1 {
      assert d * size == (d - 1) * size + size;
    } else if d <= -1 {
      assert -(d * size) == (-d - 1) * size + size;
    }
  }

  /** Longer keys collide, in a table of any size, as soon as their first two and last two characters are the same. */
  lemma SameEndsCollide(a: CString, b: CString, size: nat)
    requires |a| >= 5 && |b| >= 5 && size > 0
    requires a[..2] == b[..2] && a[|a| - 2..] == b[|b| - 2..]
    ensures Hash(a, size) == Hash(b, size)
  {
    HashSumOfLong(a);
    HashSumOfLong(b);
  }

  lemma {:induction false} AsciiIsHashable(key: CString, size: nat)
    requires size > 0 && forall i :: 0 <= i < |key| ==> key[i] < 128
    ensures Hashable(key, size)
  {
    AsciiSum(key);
  }

  lemma {:induction false} AsciiSum(key: CString)
    requires forall i :: 0 <= i < |key| ==> key[i] < 128
    ensures SumOfChars(key) >= 0
    decreases |key|
  {
    if key != [] {
      AsciiSum(key[..|key| - 1]);
    }
  }

  // ---------------------------------------------------------------- the operations

  function Create(n: nat): Table {
    Table(seq(n, _ => FREE), 0, 0)
  }

  /** The walk of table_get along the links from slot x; fuel bounds the number of slots it may visit. */
  function FindFrom(slots: seq<Slot>, x: nat, key: CString, fuel: nat): Option<nat>
    decreases fuel
  {
    if x >= |slots| || slots[x].key.None? || fuel == 0 then None
    else if slots[x].key.value == key then Some(x)
    else match slots[x].next
      case None => None
      case Some(y) => FindFrom(slots, y, key, fuel - 1)
  }

  /** The last slot of the chain that leads on from slot x. */
  function ChainEnd(slots: seq<Slot>, x: nat, fuel: nat): nat
    decreases fuel
  {
    if x < |slots| && slots[x].next.Some? && fuel > 0 then ChainEnd(slots, slots[x].next.value, fuel - 1) else x
  }

  /** The scan for a free slot, from index n - 1 downwards. */
  function TopFree(slots: seq<Slot>, n: nat): (r: Option<nat>)
    requires n <= |slots|
    ensures r.Some? ==> r.value < n
  {
    if n == 0 then None else if slots[n - 1].key.None? then Some(n - 1) else TopFree(slots, n - 1)
  }

  /** data_dup: a copy, but NULL for an empty block. */
  function Dup(value: seq<Byte>): Option<Data> {
    if |value| > 0 then Some(value) else None
  }

  function Find(t: Table, key: CString): Option<nat>
    requires Hashable(key, |t.slots|)
  {
    FindFrom(t.slots, Hash(key, |t.slots|), key, |t.slots|)
  }

  function Get(t: Table, key: CString): Option<Data>
    requires Hashable(key, |t.slots|)
  {
    match Find(t, key)
    case Some(x) => if x < |t.slots| then t.slots[x].value else None
    case None => None
  }

  /** table_put and its answer. */
  function Put(t: Table, key: CString, value: seq<Byte>): (Table, int)
    requires Hashable(key, |t.slots|)
  {
    var h := Hash(key, |t.slots|);
    if t.numElem == |t.slots| || Get(t, key).Some? then (t, -1)
    else if t.slots[h].value.None? then
      (t.(slots := t.slots[h := t.slots[h].(key := Some(key), value := Dup(value))], numElem := t.numElem + 1), 0)
    else match TopFree(t.slots, |t.slots|)
      case None => (t.(numCol := t.numCol + 1), -1)
      case Some(i) =>
        var end := ChainEnd(t.slots, h, |t.slots|);
        if end >= |t.slots| then (t, -1)
        else
          var filled := t.slots[i := t.slots[i].(key := Some(key), value := Dup(value))];
          (Table(filled[end := filled[end].(next := Some(i))], t.numElem + 1, t.numCol + 1), 0)
  }

  /** The table after the value in slot x was replaced by a copy of the given one. */
  function WithValue(t: Table, x: nat, value: seq<Byte>): Table
    requires x < |t.slots|
  {
    t.(slots := t.slots[x := t.slots[x].(value := Dup(value))])
  }

  datatype UpdateOutcome = Answer(table: Table, code: int) | NullDereference

  /** table_update; its loop leaves the chain of an absent key at NULL, which is then dereferenced. */
  function Update(t: Table, key: CString, value: seq<Byte>): UpdateOutcome
    requires Hashable(key, |t.slots|)
  {
    if t.slots[Hash(key, |t.slots|)].key.None? then Answer(t, -1)
    else match Find(t, key)
      case None => NullDereference
      case Some(x) =>
        if x >= |t.slots| then NullDereference
        else Answer(WithValue(t, x, value), 0)
  }

  /** table_get_keys: the keys of the occupied slots, by increasing index, of the first n slots. */
  function KeysUpTo(slots: seq<Slot>, n: nat): seq<CString>
    requires n <= |slots|
  {
    if n == 0 then []
    else KeysUpTo(slots, n - 1) + match slots[n - 1].key case None => [] case Some(k) => [k]
  }

  // ---------------------------------------------------------------- the invariant

  predicate Occupied(slots: seq<Slot>, x: nat) {
    x < |slots| && slots[x].key.Some?
  }

  /** The entry in slot x is not in the slot that its key hashes to. */
  predicate Displaced(slots: seq<Slot>, x: nat) {
    Occupied(slots, x) && Hash(slots[x].key.value, |slots|) != x
  }

  predicate Links(slots: seq<Slot>, x: nat, y: nat) {
    x < |slots| && slots[x].next == Some(y)
  }

  /** Slot b is n links after slot a. */
  predicate ReachIn(slots: seq<Slot>, a: nat, b: nat, n: nat)
    decreases n
  {
    if n == 0 then a == b
    else a < |slots| && slots[a].next.Some? && ReachIn(slots, slots[a].next.value, b, n - 1)
  }

  ghost predicate Reaches(slots: seq<Slot>, a: nat, b: nat) {
    exists n: nat :: ReachIn(slots, a, b, n)
  }

  /** No key is stored twice. */
  ghost predicate KeysDiffer(slots: seq<Slot>) {
    forall x: nat, y: nat :: Occupied(slots, x) && Occupied(slots, y) && slots[x].key == slots[y].key ==> x == y
  }

  /** No two links lead to the same slot. */
  ghost predicate LinksDiffer(slots: seq<Slot>) {
    forall p: nat, q: nat, y: nat :: Links(slots, p, y) && Links(slots, q, y) ==> p == q
  }

  ghost function OccupiedSlots(slots: seq<Slot>): set<nat> {
    set x: nat | x < |slots| && Occupied(slots, x)
  }

  ghost function DisplacedSlots(slots: seq<Slot>): set<nat> {
    set x: nat | x < |slots| && Displaced(slots, x)
  }

  ghost function LinkedSlots(slots: seq<Slot>): set<nat> {
    set x: nat | x < |slots| && slots[x].next.Some?
  }

  /** What one slot promises, given the order in which the slots were filled. */
  ghost predicate SlotInv(slots: seq<Slot>, rank: map<nat, nat>, x: nat)
    requires x < |slots|
  {
    && (x in rank <==> slots[x].key.Some?)
    && (slots[x].key.Some? <==> slots[x].value.Some?)
    && (x in rank ==> rank[x] < |rank|)
    // A link leads to a slot that was filled later, which is displaced.
    && (slots[x].next.Some? ==>
          var y := slots[x].next.value;
          x in rank && y in rank && rank[x] < rank[y] && Displaced(slots, y))
    // A stored key lies on the chain that starts at its hash, behind another slot unless it is displaced.
    && (slots[x].key.Some? ==>
          && Hashable(slots[x].key.value, |slots|)
          && Reaches(slots, Hash(slots[x].key.value, |slots|), x))
    && (Displaced(slots, x) ==> exists p: nat :: Links(slots, p, x))
  }

  /** The whole invariant; rank is the insertion order of the occupied slots. */
  ghost predicate Inv(t: Table, rank: map<nat, nat>) {
    && (forall x :: x in rank ==> x < |t.slots|)
    && (forall x: nat :: x < |t.slots| ==> SlotInv(t.slots, rank, x))
    && LinksDiffer(t.slots)
    && KeysDiffer(t.slots)
    && t.numElem == |rank|
    && t.numCol == |DisplacedSlots(t.slots)| == |LinkedSlots(t.slots)|
  }

  // ---------------------------------------------------------------- lookups

  /** The walk from an occupied slot finds a key exactly if it is stored further along, and never runs out of fuel. */
  lemma {:induction false} WalkIsRight(t: Table, rank: map<nat, nat>, x: nat, key: CString, fuel: nat)
    requires Inv(t, rank) && x in rank && rank[x] + fuel >= |rank|
    ensures var r := FindFrom(t.slots, x, key, fuel);
            && (r.Some? ==> Occupied(t.slots, r.value) && t.slots[r.value].key == Some(key))
            && (forall y: nat ::
                  Occupied(t.slots, y) && t.slots[y].key == Some(key) && Reaches(t.slots, x, y) ==> r == Some(y))
    decreases fuel
  {
    assert SlotInv(t.slots, rank, x);
    forall y: nat | Reaches(t.slots, x, y)
      ensures y == x || (t.slots[x].next.Some? && Reaches(t.slots, t.slots[x].next.value, y))
    {
      var n: nat :| ReachIn(t.slots, x, y, n);
      if n > 0 {
        assert ReachIn(t.slots, t.slots[x].next.value, y, n - 1);
      }
    }
    if t.slots[x].key != Some(key) && t.slots[x].next.Some? {
      WalkIsRight(t, rank, t.slots[x].next.value, key, fuel - 1);
    }
  }

  lemma RankFits(t: Table, rank: map<nat, nat>)
    requires Inv(t, rank)
    ensures |rank| <= |t.slots|
    ensures |rank| == |t.slots| <==> forall x: nat :: x < |t.slots| ==> Occupied(t.slots, x)
  {
    RangeIsRange(|t.slots|);
    assert rank.Keys <= Range(|t.slots|);
    SubsetSize(rank.Keys, Range(|t.slots|));
    forall x: nat | x < |t.slots| ensures Occupied(t.slots, x) <==> x in rank {
      assert SlotInv(t.slots, rank, x);
    }
    assert rank.Keys == Range(|t.slots|) <==> forall x: nat :: x < |t.slots| ==> x in rank;
  }

  ghost function Range(n: nat): set<nat> {
    if n == 0 then {} else Range(n - 1) + {n - 1}
  }

  lemma {:induction false} RangeIsRange(n: nat)
    ensures |Range(n)| == n
    ensures forall x: nat :: x in Range(n) <==> x < n
  {
    if n > 0 {
      RangeIsRange(n - 1);
    }
  }

  lemma {:induction false} SubsetSize(a: set<nat>, b: set<nat>)
    requires a <= b
    ensures |a| <= |b|
    ensures |a| == |b| ==> a == b
  {
    assert b == a + (b - a);
  }

  /** A lookup finds a key exactly if it is stored: every stored key is on the chain of its hash. */
  lemma FindIsRight(t: Table, rank: map<nat, nat>, key: CString)
    requires Inv(t, rank) && Hashable(key, |t.slots|)
    ensures Find(t, key).Some? ==> Occupied(t.slots, Find(t, key).value) && t.slots[Find(t, key).value].key == Some(key)
    ensures forall y: nat :: Occupied(t.slots, y) && t.slots[y].key == Some(key) ==> Find(t, key) == Some(y)
    ensures Get(t, key).Some? <==> Find(t, key).Some?
  {
    var h := Hash(key, |t.slots|);
    assert SlotInv(t.slots, rank, h);
    RankFits(t, rank);
    if h in rank {
      WalkIsRight(t, rank, h, key, |t.slots|);
    }
    forall y: nat | Occupied(t.slots, y) && t.slots[y].key == Some(key) ensures Find(t, key) == Some(y) {
      assert SlotInv(t.slots, rank, y);
    }
    if Find(t, key).Some? {
      assert SlotInv(t.slots, rank, Find(t, key).value);
    }
  }

  /** The number of keys that a lookup compares. */
  function Comparisons(slots: seq<Slot>, x: nat, key: CString, fuel: nat): nat
    decreases fuel
  {
    if x >= |slots| || slots[x].key.None? || fuel == 0 then 0
    else if slots[x].key.value == key || slots[x].next.None? then 1
    else 1 + Comparisons(slots, slots[x].next.value, key, fuel - 1)
  }

  /** Following a link strictly increases the insertion order, so a lookup compares at most numElem keys. */
  lemma {:induction false} LookupIsBounded(t: Table, rank: map<nat, nat>, x: nat, key: CString, fuel: nat)
    requires Inv(t, rank) && x < |t.slots|
    ensures Comparisons(t.slots, x, key, fuel) <= t.numElem - (if x in rank then rank[x] else 0)
    decreases fuel
  {
    assert SlotInv(t.slots, rank, x);
    if x in rank && fuel > 0 && t.slots[x].next.Some? {
      LookupIsBounded(t, rank, t.slots[x].next.value, key, fuel - 1);
    }
  }

  lemma {:induction false} ChainEndIsLast(t: Table, rank: map<nat, nat>, x: nat, fuel: nat)
    requires Inv(t, rank) && x in rank && rank[x] + fuel >= |rank|
    ensures var end := ChainEnd(t.slots, x, fuel);
            end in rank && end < |t.slots| && t.slots[end].next.None? && Reaches(t.slots, x, end)
    decreases fuel
  {
    assert SlotInv(t.slots, rank, x);
    if t.slots[x].next.Some? {
      var y := t.slots[x].next.value;
      ChainEndIsLast(t, rank, y, fuel - 1);
      var n: nat :| ReachIn(t.slots, y, ChainEnd(t.slots, y, fuel - 1), n);
      assert ReachIn(t.slots, x, ChainEnd(t.slots, x, fuel), n + 1);
    } else {
      assert ReachIn(t.slots, x, x, 0);
    }
  }

  lemma {:induction false} TopFreeIsTop(slots: seq<Slot>, n: nat)
    requires n <= |slots|
    ensures match TopFree(slots, n)
            case None => forall x: nat :: x < n ==> Occupied(slots, x)
            case Some(i) => i < n && !Occupied(slots, i) && forall x: nat :: i < x < n ==> Occupied(slots, x)
  {
    if n > 0 && slots[n - 1].key.Some? {
      TopFreeIsTop(slots, n - 1);
    }
  }
}
