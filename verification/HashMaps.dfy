// lib/util/hashmap.c: open addressing with linear probing, tombstones and
// resizing in place.
module HashMaps {

  type uint64 = x: int | 0 <= x < 0x1_0000_0000_0000_0000

  const NOT_FOUND: uint64 := 0xFFFF_FFFF_FFFF_FFFF

  datatype Bucket = Bucket(key: uint64, val: uint64, isOccupied: bool, isDeleted: bool)

  const ZEROED := Bucket(0, 0, false, false)

  predicate Live(b: Bucket) { b.isOccupied && !b.isDeleted }

  function Hash(key: uint64, capacity: nat): (h: nat)
    requires capacity > 0
    ensures h < capacity
  {
    key % capacity
  }

  // The d-th bucket that a probe for key looks at.
  function Probe(key: uint64, capacity: nat, d: nat): (i: nat)
    requires d < capacity
    ensures i < capacity
  {
    var h := Hash(key, capacity);
    if h + d < capacity then h + d else h + d - capacity
  }

  // Probing is linear: d steps behind the key modulo the capacity, wrapping around.
  lemma ProbeIsLinear(key: uint64, capacity: nat, d: nat)
    requires d < capacity
    ensures Probe(key, capacity, d) == (key + d) % capacity
  {
    var h := key % capacity;
    if h + d < capacity {
      ModUnique(key + d, capacity, key / capacity, h + d);
    } else {
      ModUnique(key + d, capacity, key / capacity + 1, h + d - capacity);
    }
  }

  lemma ModUnique(a: int, m: int, q: int, r: int)
    requires 0 <= r < m && a == m * q + r
    ensures a % m == r
  {
    var e := a / m - q;
    assert m * (a / m) == m * q + m * e;
    assert e >= 1 ==> m * e >= m;
    assert e <= -1 ==> m * e <= -m;
  }

  // A probe ends at a bucket that was never occupied or that holds the key.
  predicate StopsAt(bs: seq<Bucket>, key: uint64, i: nat)
    requires i < |bs|
  {
    !bs[i].isOccupied || (!bs[i].isDeleted && bs[i].key == key)
  }

  ghost predicate HoldsAt(bs: seq<Bucket>, key: uint64, val: uint64, d: nat) {
    && d < |bs|
    && bs[Probe(key, |bs|, d)] == Bucket(key, val, true, false)
    && forall e :: 0 <= e < d ==> bs[Probe(key, |bs|, e)].isOccupied
  }

  // The table bs stores exactly the map m, with unbroken probe chains.
  ghost predicate Stores(bs: seq<Bucket>, m: map<uint64, uint64>) {
    && |bs| > 0
    && (forall i :: 0 <= i < |bs| && Live(bs[i]) ==> bs[i].key in m)
    && (forall i, j :: 0 <= i < j < |bs| && Live(bs[i]) && Live(bs[j]) ==> bs[i].key != bs[j].key)
    && (forall k: uint64 :: k in m ==> exists d: nat :: HoldsAt(bs, k, m[k], d))
  }

  ghost predicate HasFree(bs: seq<Bucket>) {
    exists i :: 0 <= i < |bs| && !bs[i].isOccupied
  }

  ghost predicate NoTombstones(bs: seq<Bucket>) {
    forall i :: 0 <= i < |bs| ==> !bs[i].isDeleted
  }

  function OccupiedCount(bs: seq<Bucket>): nat {
    if bs == [] then 0
    else OccupiedCount(bs[..|bs| - 1]) + if bs[|bs| - 1].isOccupied then 1 else 0
  }

  lemma {:induction false} OccupiedUpdate(bs: seq<Bucket>, i: nat, b: Bucket)
    requires i < |bs| && b.isOccupied
    ensures OccupiedCount(bs[i := b]) == OccupiedCount(bs) + if bs[i].isOccupied then 0 else 1
    decreases |bs|
  {
    var n := |bs| - 1;
    if i < n {
      OccupiedUpdate(bs[..n], i, b);
      assert bs[i := b][..n] == bs[..n][i := b];
    } else {
      assert bs[i := b][..n] == bs[..n];
    }
  }

  lemma {:induction false} OccupiedBound(bs: seq<Bucket>)
    ensures OccupiedCount(bs) <= |bs|
    ensures OccupiedCount(bs) < |bs| <==> HasFree(bs)
    decreases |bs|
  {
    if bs != [] {
      var n := |bs| - 1;
      OccupiedBound(bs[..n]);
      if HasFree(bs[..n]) {
        var i :| 0 <= i < n && !bs[..n][i].isOccupied;
        assert !bs[i].isOccupied;
      }
      if HasFree(bs) && bs[n].isOccupied {
        var i :| 0 <= i < |bs| && !bs[i].isOccupied;
        assert !bs[..n][i].isOccupied;
      }
    }
  }

  lemma {:induction false} OccupiedZeroed(bs: seq<Bucket>)
    requires forall i :: 0 <= i < |bs| ==> bs[i] == ZEROED
    ensures OccupiedCount(bs) == 0
    ensures NoTombstones(bs) && (|bs| > 0 ==> Stores(bs, map[]))
    decreases |bs|
  {
    if bs != [] { OccupiedZeroed(bs[..|bs| - 1]); }
  }

  // Every bucket is on every probe sequence.
  lemma ProbeReaches(key: uint64, capacity: nat, i: nat) returns (d: nat)
    requires i < capacity
    ensures d < capacity && Probe(key, capacity, d) == i
  {
    var h := Hash(key, capacity);
    d := if h <= i then i - h else i + capacity - h;
  }

  lemma NextIndex(i: nat, n: nat)
    requires i < n
    ensures (i + 1) % n == if i + 1 < n then i + 1 else 0
  {
  }

  // A probe for key ends exactly when the key is stored or some bucket was
  // never occupied.
  lemma ProbeEnds(bs: seq<Bucket>, m: map<uint64, uint64>, key: uint64)
    requires Stores(bs, m)
    ensures (exists d: nat :: d < |bs| && StopsAt(bs, key, Probe(key, |bs|, d))) <==> key in m || HasFree(bs)
  {
    if key in m {
      var d: nat :| HoldsAt(bs, key, m[key], d);
      assert StopsAt(bs, key, Probe(key, |bs|, d));
    } else if HasFree(bs) {
      var i :| 0 <= i < |bs| && !bs[i].isOccupied;
      var d := ProbeReaches(key, |bs|, i);
      assert StopsAt(bs, key, Probe(key, |bs|, d));
    }
  }

  // The first d buckets of the probe for key do not end it.
  ghost predicate Passed(bs: seq<Bucket>, key: uint64, d: nat) {
    d <= |bs| && forall e: nat :: e < d ==> !StopsAt(bs, key, Probe(key, |bs|, e))
  }

  // Where the probe stops tells whether the key is stored.
  lemma StopMeansFound(bs: seq<Bucket>, m: map<uint64, uint64>, key: uint64, d: nat)
    requires Stores(bs, m) && d < |bs| && Passed(bs, key, d) && StopsAt(bs, key, Probe(key, |bs|, d))
    ensures bs[Probe(key, |bs|, d)].isOccupied <==> key in m
    ensures key in m ==> bs[Probe(key, |bs|, d)].val == m[key]
  {
    var i := Probe(key, |bs|, d);
    if key in m {
      var c: nat :| HoldsAt(bs, key, m[key], c);
      assert StopsAt(bs, key, Probe(key, |bs|, c));
      if d < c {
        assert bs[Probe(key, |bs|, d)].isOccupied;
      }
      var j := Probe(key, |bs|, c);
      assert Live(bs[j]);
      if bs[i].isOccupied { assert Live(bs[i]); }
    } else if bs[i].isOccupied {
      assert Live(bs[i]);
    }
  }

  // Writing the key where its probe stopped.
  lemma StoreKeeps(bs: seq<Bucket>, m: map<uint64, uint64>, key: uint64, val: uint64, d: nat)
    requires Stores(bs, m) && d < |bs| && Passed(bs, key, d) && StopsAt(bs, key, Probe(key, |bs|, d))
    ensures Stores(bs[Probe(key, |bs|, d) := Bucket(key, val, true, false)], m[key := val])
    ensures NoTombstones(bs) ==> NoTombstones(bs[Probe(key, |bs|, d) := Bucket(key, val, true, false)])
  {
    StopMeansFound(bs, m, key, d);
    var i := Probe(key, |bs|, d);
    var bs', m' := bs[i := Bucket(key, val, true, false)], m[key := val];
    forall j | 0 <= j < |bs| && j != i && Live(bs[j]) ensures bs[j].key != key {
      if bs[i].isOccupied { assert Live(bs[i]); }
    }
    forall k: uint64 | k in m' ensures exists c: nat :: HoldsAt(bs', k, m'[k], c) {
      if k == key {
        forall e | 0 <= e < d ensures bs'[Probe(key, |bs|, e)].isOccupied {
          assert !StopsAt(bs, key, Probe(key, |bs|, e));
        }
        assert HoldsAt(bs', key, val, d);
      } else {
        var c: nat :| HoldsAt(bs, k, m[k], c);
        assert HoldsAt(bs', k, m[k], c);
      }
    }
  }

  // Turning the key's bucket into a tombstone.
  lemma DeleteKeeps(bs: seq<Bucket>, m: map<uint64, uint64>, key: uint64, i: nat)
    requires Stores(bs, m) && i < |bs| && Live(bs[i]) && bs[i].key == key
    ensures key in m && Stores(bs[i := bs[i].(isDeleted := true)], m - {key})
  {
    hide Hash;
    var bs', m' := bs[i := bs[i].(isDeleted := true)], m - {key};
    assert forall j :: 0 <= j < |bs| && Live(bs'[j]) ==> j != i && Live(bs[j]) && bs'[j] == bs[j];
    forall k: uint64 | k in m' ensures exists c: nat :: HoldsAt(bs', k, m'[k], c) {
      var c: nat :| HoldsAt(bs, k, m[k], c);
      assert bs[Probe(k, |bs|, c)].key == k != bs[i].key;
      assert HoldsAt(bs', k, m'[k], c);
    }
  }

  class HashMap {
    var buckets: array<Bucket>
    var capacity: nat
    var size: nat
    ghost var Contents: map<uint64, uint64>

    ghost predicate Valid()
      reads this, buckets
    {
      buckets.Length == capacity > 0 && Stores(buckets[..], Contents) && |Contents| <= size
    }

    predicate NeedsResize()
      reads this
    {
      4 * size >= 3 * capacity
    }

    // hashmap_init()
    constructor (n: nat)
      requires n > 0
      ensures Valid() && fresh(buckets) && capacity == n && size == 0 && Contents == map[]
      ensures OccupiedCount(buckets[..]) == 0
    {
      buckets := new Bucket[n](_ => ZEROED);
      capacity := n;
      size := 0;
      Contents := map[];
      new;
      OccupiedZeroed(buckets[..]);
    }

    // The probe loop shared by put, get and remove.
    method Find(key: uint64) returns (index: nat, ghost d: nat)
      requires Valid() && (key in Contents || HasFree(buckets[..]))
      ensures d < capacity && index == Probe(key, capacity, d)
      ensures Passed(buckets[..], key, d) && StopsAt(buckets[..], key, index)
    {
      hide Hash, Stores;
      ghost var bs := buckets[..];
      ProbeEnds(bs, Contents, key);
      ghost var stop: nat :| stop < |bs| && StopsAt(bs, key, Probe(key, |bs|, stop));
      index := Hash(key, capacity);
      d := 0;
      while buckets[index].isOccupied
        invariant d <= stop && index == Probe(key, capacity, d) && Passed(bs, key, d)
        decreases stop - d
      {
        if !buckets[index].isDeleted && buckets[index].key == key {
          return;
        }
        assert !StopsAt(bs, key, index);
        NextIndex(index, capacity);
        index := (index + 1) % capacity;
        d := d + 1;
      }
    }

    // hashmap_get(): the value and success, or -1 and failure.
    method Get(key: uint64) returns (val: uint64, success: bool)
      requires Valid() && (key in Contents || HasFree(buckets[..]))
      ensures success <==> key in Contents
      ensures val == if key in Contents then Contents[key] else NOT_FOUND
    {
      var index, d := Find(key);
      StopMeansFound(buckets[..], Contents, key, d);
      if buckets[index].isOccupied {
        return buckets[index].val, true;
      }
      return NOT_FOUND, false;
    }

    // hashmap_has()
    method Has(key: uint64) returns (ok: bool)
      requires Valid() && (key in Contents || HasFree(buckets[..]))
      ensures ok <==> key in Contents
    {
      var _, found := Get(key);
      ok := found;
    }

    // hashmap_put(): size counts every put, also one that overwrites.
    method Put(key: uint64, val: uint64)
      requires Valid() && (key in Contents || HasFree(buckets[..]) || NeedsResize())
      modifies this, buckets
      ensures Valid() && (buckets == old(buckets) || fresh(buckets))
      ensures Contents == old(Contents)[key := val]
      // The table grows exactly from three quarters on.
      ensures 4 * old(size) < 3 * old(capacity) ==> buckets == old(buckets) && capacity == old(capacity)
      ensures 4 * old(size) >= 3 * old(capacity) ==> fresh(buckets) && capacity == 2 * old(capacity)
      ensures old(NeedsResize()) ==>
                && capacity == 2 * old(capacity) && NoTombstones(buckets[..])
                && size == |old(Contents)| + 1 && OccupiedCount(buckets[..]) == |Contents|
      ensures !old(NeedsResize()) ==>
                && buckets == old(buckets) && capacity == old(capacity) && size == old(size) + 1
                && (old(NoTombstones(buckets[..])) ==> NoTombstones(buckets[..]))
                && OccupiedCount(buckets[..]) == old(OccupiedCount(buckets[..])) + (if key in old(Contents) then 0 else 1)
      decreases if NeedsResize() then 2 else 0
    {
      hide Hash, Stores, Passed, Probe, OccupiedCount, HasFree, NoTombstones;
      if NeedsResize() {
        Resize();
        OccupiedBound(buckets[..]);
      }
      ghost var bs := buckets[..];
      var index, d := Find(key);
      StopMeansFound(bs, Contents, key, d);
      StoreKeeps(bs, Contents, key, val, d);
      OccupiedUpdate(bs, index, Bucket(key, val, true, false));
      if buckets[index].isOccupied {
        buckets[index] := buckets[index].(val := val);
      } else {
        buckets[index] := Bucket(key, val, true, false);
      }
      size := size + 1;
      Contents := Contents[key := val];
      assert buckets[..] == bs[index := Bucket(key, val, true, false)];
    }

    // hashmap_resize(): the same map in twice the buckets, without tombstones.
    method Resize()
      requires Valid() && NeedsResize()
      modifies this
      ensures Valid() && fresh(buckets) && Contents == old(Contents)
      ensures capacity == 2 * old(capacity) && size == |Contents| && !NeedsResize()
      ensures NoTombstones(buckets[..]) && OccupiedCount(buckets[..]) == |Contents|
      decreases 1
    {
      hide Hash, Kept, HasFree, Stores, OccupiedCount, NoTombstones;
      var oldBuckets, oldCapacity := buckets, capacity;
      ghost var bs, m := buckets[..], Contents;
      capacity := capacity * 2;
      buckets := new Bucket[capacity](_ => ZEROED);
      size := 0;
      Contents := map[];
      OccupiedZeroed(buckets[..]);
      KeptNone(bs, m);
      var i := 0;
      while i < oldCapacity
        invariant 0 <= i <= oldCapacity == oldBuckets.Length && oldBuckets[..] == bs
        invariant fresh(buckets) && buckets != oldBuckets && Valid() && capacity == 2 * oldCapacity
        invariant size == |Contents| == OccupiedCount(buckets[..]) <= i && NoTombstones(buckets[..])
        invariant Contents == Kept(bs, m, i)
      {
        KeptStep(bs, m, i);
        if oldBuckets[i].isOccupied && !oldBuckets[i].isDeleted {
          OccupiedBound(buckets[..]);
          Put(oldBuckets[i].key, oldBuckets[i].val);
        }
        i := i + 1;
      }
      KeptAll(bs, m);
    }

    // hashmap_remove(): the bucket stays occupied.
    method Remove(key: uint64) returns (found: bool)
      requires Valid() && (key in Contents || HasFree(buckets[..]))
      modifies this, buckets
      ensures Valid() && buckets == old(buckets) && capacity == old(capacity)
      ensures found <==> key in old(Contents)
      ensures Contents == old(Contents) - {key}
      ensures size == old(size) - (if found then 1 else 0)
      ensures OccupiedCount(buckets[..]) == old(OccupiedCount(buckets[..]))
    {
      hide Hash, Stores, Passed, Probe, OccupiedCount, HasFree;
      ghost var bs := buckets[..];
      var index, d := Find(key);
      StopMeansFound(bs, Contents, key, d);
      if buckets[index].isOccupied {
        DeleteKeeps(bs, Contents, key, index);
        OccupiedUpdate(bs, index, bs[index].(isDeleted := true));
        buckets[index] := buckets[index].(isDeleted := true);
        assert buckets[..] == bs[index := bs[index].(isDeleted := true)];
        size := size - 1;
        Contents := Contents - {key};
        return true;
      }
      return false;
    }
  }

  // The part of m that the first n buckets hold.
  ghost function Kept(bs: seq<Bucket>, m: map<uint64, uint64>, n: nat): map<uint64, uint64>
    requires n <= |bs|
  {
    map k: uint64 | k in m && exists i :: 0 <= i < n && Live(bs[i]) && bs[i].key == k :: m[k]
  }

  lemma KeptNone(bs: seq<Bucket>, m: map<uint64, uint64>)
    ensures Kept(bs, m, 0) == map[]
  {
  }

  lemma KeptStep(bs: seq<Bucket>, m: map<uint64, uint64>, n: nat)
    requires Stores(bs, m) && n < |bs|
    ensures Live(bs[n]) ==> bs[n].key !in Kept(bs, m, n) && Kept(bs, m, n + 1) == Kept(bs, m, n)[bs[n].key := bs[n].val]
    ensures !Live(bs[n]) ==> Kept(bs, m, n + 1) == Kept(bs, m, n)
  {
    if Live(bs[n]) {
      LiveStored(bs, m, n);
      hide Stores;
      assert Kept(bs, m, n + 1) == Kept(bs, m, n)[bs[n].key := bs[n].val];
    } else {
      hide Stores;
      assert Kept(bs, m, n + 1) == Kept(bs, m, n);
    }
  }

  // A live bucket holds its key's value, and no other live bucket has that key.
  lemma LiveStored(bs: seq<Bucket>, m: map<uint64, uint64>, n: nat)
    requires Stores(bs, m) && n < |bs| && Live(bs[n])
    ensures bs[n].key in m && m[bs[n].key] == bs[n].val
    ensures forall i :: 0 <= i < |bs| && Live(bs[i]) && bs[i].key == bs[n].key ==> i == n
  {
    hide Probe;
    var k := bs[n].key;
    var d: nat :| HoldsAt(bs, k, m[k], d);
    assert Live(bs[Probe(k, |bs|, d)]);
  }

  lemma KeptAll(bs: seq<Bucket>, m: map<uint64, uint64>)
    requires Stores(bs, m)
    ensures Kept(bs, m, |bs|) == m
  {
    forall k: uint64 | k in m ensures k in Kept(bs, m, |bs|) {
      var d: nat :| HoldsAt(bs, k, m[k], d);
      assert Live(bs[Probe(k, |bs|, d)]);
    }
  }

  // ---- Histories ----

  datatype Op = PutOp(key: uint64, val: uint64) | GetOp(key: uint64) | RemoveOp(key: uint64)

  datatype Answer = Got(val: uint64, success: bool) | Removed(found: bool)

  // What a history leaves behind, counted without looking at any bucket: the
  // mathematical map, and how many buckets were ever occupied.
  datatype Table = Table(capacity: nat, size: nat, occupied: nat, contents: map<uint64, uint64>)

  predicate Full(t: Table) { 4 * t.size >= 3 * t.capacity }

  function Next(t: Table, op: Op): Table {
    match op
    case GetOp(_) => t
    case PutOp(k, v) =>
      var m := t.contents[k := v];
      if Full(t) then Table(2 * t.capacity, |t.contents| + 1, |m|, m)
      else Table(t.capacity, t.size + 1, t.occupied + if k in t.contents then 0 else 1, m)
    case RemoveOp(k) =>
      if k !in t.contents || t.size == 0 then t
      else Table(t.capacity, t.size - 1, t.occupied, t.contents - {k})
  }

  function After(n: nat, ops: seq<Op>): Table {
    if ops == [] then Table(n, 0, 0, map[]) else Next(After(n, ops[..|ops| - 1]), ops[|ops| - 1])
  }

  // No bucket is left at which the probe of op could stop, and op does not make
  // room first.
  predicate Stuck(t: Table, op: Op) {
    op.key !in t.contents && t.occupied >= t.capacity && !(op.PutOp? && Full(t))
  }

  ghost predicate NeverStuck(n: nat, ops: seq<Op>) {
    forall i :: 0 <= i < |ops| ==> !Stuck(After(n, ops[..i]), ops[i])
  }

  function AnswerOf(m: map<uint64, uint64>, op: Op): seq<Answer> {
    match op
    case PutOp(_, _) => []
    case GetOp(k) => [if k in m then Got(m[k], true) else Got(NOT_FOUND, false)]
    case RemoveOp(k) => [Removed(k in m)]
  }

  // The map after a history and the answers of its gets and removes, by a
  // mathematical map.
  function Replay(ops: seq<Op>): map<uint64, uint64> {
    if ops == [] then map[]
    else
      var m := Replay(ops[..|ops| - 1]);
      match ops[|ops| - 1]
      case PutOp(k, v) => m[k := v]
      case GetOp(_) => m
      case RemoveOp(k) => m - {k}
  }

  function Answers(ops: seq<Op>): seq<Answer> {
    if ops == [] then []
    else Answers(ops[..|ops| - 1]) + AnswerOf(Replay(ops[..|ops| - 1]), ops[|ops| - 1])
  }

  ghost predicate Matches(hm: HashMap, t: Table)
    reads hm, hm.buckets
  {
    && hm.Valid() && hm.capacity == t.capacity && hm.size == t.size
    && OccupiedCount(hm.buckets[..]) == t.occupied && hm.Contents == t.contents
  }

  method Apply(hm: HashMap, ghost t: Table, op: Op) returns (answer: seq<Answer>)
    requires Matches(hm, t) && !Stuck(t, op)
    modifies hm, hm.buckets
    ensures Matches(hm, Next(t, op)) && (hm.buckets == old(hm.buckets) || fresh(hm.buckets))
    ensures answer == AnswerOf(t.contents, op)
    ensures Next(t, op).contents == (match op case PutOp(k, v) => t.contents[k := v] case GetOp(_) => t.contents case RemoveOp(k) => t.contents - {k})
  {
    hide Stores, OccupiedCount, Hash, Probe;
    OccupiedBound(hm.buckets[..]);
    match op {
      case PutOp(k, v) =>
        hm.Put(k, v);
        answer := [];
      case GetOp(k) =>
        var v, ok := hm.Get(k);
        answer := [Got(v, ok)];
      case RemoveOp(k) =>
        if k in t.contents { NonEmpty(t.contents, k); }
        var ok := hm.Remove(k);
        answer := [Removed(ok)];
    }
  }

  lemma NonEmpty(m: map<uint64, uint64>, k: uint64)
    requires k in m
    ensures |m| > 0
  {
  }

  // Every history that is never stuck runs to the end and answers like the
  // mathematical map, whatever it removes.
  method RunHistory(n: nat, ops: seq<Op>) returns (hm: HashMap, answers: seq<Answer>)
    requires n > 0 && NeverStuck(n, ops)
    ensures fresh(hm) && fresh(hm.buckets) && Matches(hm, After(n, ops)) && hm.Contents == Replay(ops)
    ensures answers == Answers(ops)
  {
    hide Stores, OccupiedCount, Next, Stuck;
    hm := new HashMap(n);
    answers := [];
    for i := 0 to |ops|
      invariant fresh(hm) && fresh(hm.buckets) && Matches(hm, After(n, ops[..i]))
      invariant hm.Contents == Replay(ops[..i]) && answers == Answers(ops[..i])
    {
      assert ops[..i + 1][..i] == ops[..i];
      var a := Apply(hm, After(n, ops[..i]), ops[i]);
      answers := answers + a;
    }
    assert ops[..|ops|] == ops;
  }

  // And the operation at which a history is stuck has a probe without an end.
  method StuckProbe(n: nat, ops: seq<Op>, op: Op) returns (hm: HashMap, answers: seq<Answer>)
    requires n > 0 && NeverStuck(n, ops) && Stuck(After(n, ops), op)
    ensures hm.Valid() && answers == Answers(ops) && !(op.PutOp? && hm.NeedsResize())
    ensures !exists d: nat :: d < hm.capacity && StopsAt(hm.buckets[..], op.key, Probe(op.key, hm.capacity, d))
  {
    hide Stores, OccupiedCount, Hash, Probe, StopsAt, After, NeverStuck;
    hm, answers := RunHistory(n, ops);
    OccupiedBound(hm.buckets[..]);
    ProbeEnds(hm.buckets[..], hm.Contents, op.key);
  }

  // Enough never-occupied buckets for the next operation.
  predicate Roomy(t: Table) {
    && t.capacity >= 4 && t.occupied <= t.size && |t.contents| <= t.size && 4 * t.size < 3 * t.capacity + 4
  }

  lemma RoomyStep(t: Table, op: Op)
    requires Roomy(t) && !op.RemoveOp?
    ensures !Stuck(t, op) && Roomy(Next(t, op))
  {
    if op.PutOp? {
      var m := t.contents[op.key := op.val];
      assert m.Keys == t.contents.Keys + {op.key};
      assert |m| == |m.Keys| && |t.contents| == |t.contents.Keys|;
    }
  }

  // From four buckets on a history without removes is never stuck.
  lemma {:induction false} PutsAndGetsNeverStuck(n: nat, ops: seq<Op>)
    requires n >= 4 && forall i :: 0 <= i < |ops| ==> !ops[i].RemoveOp?
    ensures NeverStuck(n, ops) && Roomy(After(n, ops))
    decreases |ops|
  {
    if ops != [] {
      var init := ops[..|ops| - 1];
      PutsAndGetsNeverStuck(n, init);
      RoomyStep(After(n, init), ops[|ops| - 1]);
      forall i | 0 <= i < |ops| ensures !Stuck(After(n, ops[..i]), ops[i]) {
        if i < |init| {
          assert init[..i] == ops[..i] && init[i] == ops[i];
        } else {
          assert ops[..i] == init;
        }
      }
    }
  }

  // Below four buckets, n puts of distinct keys fill the table, and then the
  // probe for any other key has nowhere to stop.
  method FillSmallTable(n: nat, key: uint64) returns (hm: HashMap)
    requires 1 <= n <= 3 && key >= n
    ensures hm.Valid() && hm.capacity == n && (forall k: uint64 :: k in hm.Contents <==> k < n)
    ensures !exists d: nat :: d < n && StopsAt(hm.buckets[..], key, Probe(key, n, d))
  {
    hide Stores, Hash, Probe, OccupiedCount, StopsAt;
    hm := new HashMap(n);
    for i := 0 to n
      invariant hm.Valid() && hm.capacity == n && fresh(hm) && fresh(hm.buckets)
      invariant hm.size == i == OccupiedCount(hm.buckets[..])
      invariant forall k: uint64 :: k in hm.Contents <==> k < i
    {
      OccupiedBound(hm.buckets[..]);
      hm.Put(i, 0);
    }
    OccupiedBound(hm.buckets[..]);
    ProbeEnds(hm.buckets[..], hm.Contents, key);
  }

  // Whatever the capacity, that many put/remove pairs turn every bucket into a
  // tombstone: the map is empty, size is 0, and no probe stops any more.
  method FillWithTombstones(n: nat, key: uint64) returns (hm: HashMap)
    requires 1 <= n < 0x1_0000_0000_0000_0000
    ensures hm.Valid() && hm.capacity == n && hm.Contents == map[] && hm.size == 0
    ensures !exists d: nat :: d < n && StopsAt(hm.buckets[..], key, Probe(key, n, d))
  {
    hm := new HashMap(n);
    for i := 0 to n
      invariant hm.Valid() && hm.capacity == n && fresh(hm) && fresh(hm.buckets)
      invariant hm.size == 0 && hm.Contents == map[] && OccupiedCount(hm.buckets[..]) == i
    {
      OccupiedBound(hm.buckets[..]);
      hm.Put(i, 0);
      var _ := hm.Remove(i);
    }
    OccupiedBound(hm.buckets[..]);
    ProbeEnds(hm.buckets[..], hm.Contents, key);
  }
}
