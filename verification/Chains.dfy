/** The walks along a bucket and its overflow chain. */
module Chains {
  import opened Swar
  import opened Items
  import opened Buckets

  ghost function Last(c: seq<Bucket>): Bucket
    requires |c| > 0
  {
    c[|c| - 1]
  }

  // c lists the buckets reached from its first one along the next pointers.
  ghost predicate Linked(c: seq<Bucket>)
    reads c`next
  {
    |c| > 0 && forall j | 0 <= j < |c| :: LinkAt(c, j)
  }

  ghost predicate LinkAt(c: seq<Bucket>, j: nat)
    requires j < |c|
    reads c`next
  {
    c[j].pos == j && c[j].home == c[0].home && c[j].next == At(c, j + 1)
  }

  ghost function At(c: seq<Bucket>, j: nat): Bucket? {
    if j < |c| then c[j] else null
  }

  ghost predicate Searchable(c: seq<Bucket>, tag: bv64, key: Key)
    reads c, set j, s | 0 <= j < |c| && 0 <= s < |c[j].items| :: c[j].items[s]
  {
    forall j | 0 <= j < |c| :: c[j].Searchable(tag, key)
  }

  ghost predicate Lacks(c: seq<Bucket>, key: Key)
    reads c, set j, s | 0 <= j < |c| && 0 <= s < |c[j].items| :: c[j].items[s]
  {
    forall j | 0 <= j < |c| :: c[j].Lacks(key)
  }

  // b, s is the first slot along c that holds the key.
  ghost predicate FirstHolder(c: seq<Bucket>, key: Key, b: Bucket, s: int)
    reads c, set j, s | 0 <= j < |c| && 0 <= s < |c[j].items| :: c[j].items[s]
  {
    b.pos < |c| && c[b.pos] == b && 0 <= s < SLOTS && b.Holds(s, key) &&
    (forall r | 0 <= r < s :: !b.Holds(r, key)) &&
    forall j | 0 <= j < b.pos :: c[j].Lacks(key)
  }

  // b, s is the first empty slot along c.
  ghost predicate FirstEmpty(c: seq<Bucket>, b: Bucket, s: int)
    reads c`slotStates
  {
    b.pos < |c| && c[b.pos] == b && 0 <= s < SLOTS && !b.Busy(s) &&
    (forall r | 0 <= r < s :: b.Busy(r)) &&
    forall j | 0 <= j < b.pos :: c[j].Full()
  }

  method FindSlotChained(bucket: Bucket, tag: bv64, key: Key, ghost c: seq<Bucket>) returns (b: Bucket?, slot: int)
    requires Linked(c) && c[0] == bucket && tag < 256 && Searchable(c, tag, key)
    requires bucket.Lacks(key)
    ensures slot < 0 ==> Lacks(c, key)
    ensures slot >= 0 ==> b != null && FirstHolder(c, key, b, slot)
  {
    hide Bit, TagAt, Bucket.Lacks, Bucket.Holds, Bucket.Searchable;
    assert LinkAt(c, 0);
    var current := bucket.next;
    ghost var i := 1;
    while current != null
      invariant 1 <= i <= |c| && current == At(c, i)
      invariant forall j | 0 <= j < i :: c[j].Lacks(key)
      decreases |c| - i
    {
      assert LinkAt(c, i);
      slot := current.Scan(tag, key);
      if slot >= 0 {
        return current, slot;
      }
      current := current.next;
      i := i + 1;
    }
    return null, -1;
  }

  method FindSlot(bucket: Bucket, tag: bv64, key: Key, ghost c: seq<Bucket>) returns (b: Bucket?, slot: int)
    requires Linked(c) && c[0] == bucket && tag < 256 && Searchable(c, tag, key)
    ensures slot < 0 ==> Lacks(c, key)
    ensures slot >= 0 ==> b != null && FirstHolder(c, key, b, slot)
  {
    assert LinkAt(c, 0);
    slot := bucket.Scan(tag, key);
    if slot >= 0 {
      return bucket, slot;
    }
    b, slot := FindSlotChained(bucket, tag, key, c);
  }

  // Append a zeroed bucket after the last one.
  method InitChain(bucket: Bucket, ghost c: seq<Bucket>) returns (ghost d: seq<Bucket>)
    requires Linked(c) && bucket == Last(c)
    modifies bucket`next
    ensures Linked(d) && |d| == |c| + 1 && d[..|c|] == c
    ensures bucket.next == d[|c|] && fresh(d[|c|]) && d[|c|].Empty()
  {
    assert LinkAt(c, 0) && LinkAt(c, |c| - 1);
    var chained := new Bucket(c[0].home, |c|);
    bucket.next := chained;
    d := c + [chained];
    forall j | 0 <= j < |d|
      ensures LinkAt(d, j)
    {
      if j < |c| {
        assert old(LinkAt(c, j));
      }
    }
  }

  // The walk over the overflow chain: the slot that holds the key, else the first empty slot,
  // else the last bucket of the chain.
  method WalkChain(bucket: Bucket, tag: bv64, key: Key, free: int, ghost c: seq<Bucket>)
    returns (b: Bucket, slot: int, ghost found: bool)
    requires Linked(c) && c[0] == bucket && tag < 256 && Searchable(c, tag, key)
    requires bucket.Lacks(key)
    requires free >= 0 ==> FirstEmpty(c, bucket, free)
    requires free < 0 ==> bucket.Full()
    ensures found ==> FirstHolder(c, key, b, slot)
    ensures !found ==> Lacks(c, key)
    ensures !found && slot >= 0 ==> FirstEmpty(c, b, slot)
    ensures !found && slot < 0 ==> b == Last(c) && forall j | 0 <= j < |c| :: c[j].Full()
  {
    hide Bit, TagAt, Bucket.Lacks, Bucket.Full, Bucket.Holds, Bucket.Searchable;
    assert LinkAt(c, 0);
    var prev, current := bucket, bucket.next;
    var freeSlot := free;
    var out: Bucket := bucket;
    ghost var i := 1;
    while current != null
      invariant 1 <= i <= |c| && prev == c[i - 1] && current == At(c, i)
      invariant forall j | 0 <= j < i :: c[j].Lacks(key)
      invariant freeSlot >= 0 ==> FirstEmpty(c, out, freeSlot)
      invariant freeSlot < 0 ==> forall j | 0 <= j < i :: c[j].Full()
      decreases |c| - i
    {
      assert LinkAt(c, i);
      slot := current.Scan(tag, key);
      if slot >= 0 {
        return current, slot, true;
      }
      if freeSlot < 0 {
        freeSlot := current.FirstFreeSlot();
        if freeSlot >= 0 {
          out := current;
        }
      }
      prev, current := current, current.next;
      i := i + 1;
    }
    if freeSlot >= 0 {
      return out, freeSlot, false;
    }
    return prev, -1, false;
  }

  // d is c with one zeroed bucket appended because all of c was full.
  ghost predicate Appended(c: seq<Bucket>, d: seq<Bucket>)
    reads d
  {
    |d| == |c| + 1 && d[..|c|] == c && d[|c|].Empty() && forall j | 0 <= j < |c| :: d[j].Full()
  }

  method FindSlotOrFreeChained(bucket: Bucket, tag: bv64, key: Key, free: int, ghost c: seq<Bucket>)
    returns (b: Bucket, slot: int, ghost d: seq<Bucket>, ghost found: bool)
    requires Linked(c) && c[0] == bucket && tag < 256 && Searchable(c, tag, key)
    requires bucket.Lacks(key)
    requires free >= 0 ==> FirstEmpty(c, bucket, free)
    requires free < 0 ==> bucket.Full()
    modifies Last(c)`next
    ensures Linked(d) && (d == c || (Appended(c, d) && fresh(Last(d))))
    ensures d == c ==> unchanged(Last(c))
    ensures found ==> d == c && FirstHolder(c, key, b, slot)
    ensures !found ==> old(Lacks(c, key)) && FirstEmpty(d, b, slot)
  {
    hide Bit, TagAt, Bucket.Lacks, Bucket.Holds, Bucket.Searchable;
    b, slot, found := WalkChain(bucket, tag, key, free, c);
    d := c;
    if slot < 0 {
      d := InitChain(b, c);
      forall j, s | 0 <= j < |c| && 0 <= s < SLOTS
        ensures d[j].Busy(s)
      {
        assert old(c[j].Full() && c[j].Busy(s)) && d[j] == c[j];
      }
      assert LinkAt(d, |c|);
      b, slot := b.next, 0;
    }
  }

  method FindSlotOrFree(bucket: Bucket, tag: bv64, key: Key, ghost c: seq<Bucket>)
    returns (b: Bucket, slot: int, ghost d: seq<Bucket>, ghost found: bool)
    requires Linked(c) && c[0] == bucket && tag < 256 && Searchable(c, tag, key)
    modifies Last(c)`next
    ensures Linked(d) && (d == c || (Appended(c, d) && fresh(Last(d))))
    ensures d == c ==> unchanged(Last(c))
    ensures found ==> d == c && FirstHolder(c, key, b, slot)
    ensures !found ==> old(Lacks(c, key)) && FirstEmpty(d, b, slot)
  {
    hide Bit, TagAt, Bucket.Lacks, Bucket.Holds, Bucket.Searchable;
    assert LinkAt(c, 0);
    slot := bucket.Scan(tag, key);
    if slot >= 0 {
      return bucket, slot, c, true;
    }
    var free := bucket.FirstFreeSlot();
    b, slot, d, found := FindSlotOrFreeChained(bucket, tag, key, free, c);
  }
}
