/** The whole store: 256 shards, chosen by the low byte of the key's hash. */
module Kvs {
  import opened Bytes
  import opened Items
  import opened Halves
  import opened Tables
  import opened Slabs
  import opened Allocators
  import opened Shards

  const SHARDS: nat := 256

  function ShardIndex(hash: bv64): nat
    ensures ShardIndex(hash) < SHARDS
  {
    (hash & 255) as nat
  }

  // The shard is picked by the low byte of the hash.
  lemma ShardIs(hash: bv64)
    ensures ShardIndex(hash) == (hash % 256) as nat
  {
    assert hash & 255 == hash % 256;
  }

  // ---- one map in 256 parts

  /** Each part is the restriction of the map to the keys that pick it. */
  ghost predicate Covers(H: Hash, parts: seq<Store>, s: Store) {
    |parts| == SHARDS &&
    (forall k | k in s :: k in parts[ShardIndex(H(k))] && parts[ShardIndex(H(k))][k] == s[k]) &&
    (forall i, k | 0 <= i < SHARDS && k in parts[i] :: ShardIndex(H(k)) == i && k in s)
  }

  // An operation on the part its key picks is the operation on the whole map.
  lemma CoverSet(H: Hash, parts: seq<Store>, s: Store, key: Key, e: Entry)
    requires Covers(H, parts, s)
    ensures var i := ShardIndex(H(key)); var (reply, part) := SetStep(parts[i], key, e);
      SetStep(s, key, e).0 == reply && Covers(H, parts[i := part], SetStep(s, key, e).1)
  {
    hide ShardIndex;
  }

  lemma CoverDelete(H: Hash, parts: seq<Store>, s: Store, key: Key)
    requires Covers(H, parts, s)
    ensures var i := ShardIndex(H(key)); var (reply, part) := DeleteStep(parts[i], key);
      DeleteStep(s, key).0 == reply && Covers(H, parts[i := part], DeleteStep(s, key).1)
  {
    hide ShardIndex;
  }

  lemma CoverGet(H: Hash, parts: seq<Store>, s: Store, key: Key, dst: seq<Byte>)
    requires Covers(H, parts, s)
    ensures GetStep(parts[ShardIndex(H(key))], key, dst) == GetStep(s, key, dst)
    ensures forall value :: Settable(parts[ShardIndex(H(key))], key, value) <==> Settable(s, key, value)
  {
    hide ShardIndex;
  }

  // ---- memory

  // Two shards share no memory.
  ghost predicate Apart(a: Shard, b: Shard)
    reads a`buckets, b`buckets, a.allocator, b.allocator
  {
    a != b && a.table != b.table && a.allocator != b.allocator &&
    (forall x | x in a.buckets :: x !in b.buckets) &&
    (forall k, l | 0 <= k < |a.allocator.classes| && 0 <= l < |b.allocator.classes| ::
      a.allocator.classes[k] != b.allocator.classes[l]) &&
    (forall x | x in a.allocator.slabs :: x !in b.allocator.slabs) &&
    forall x | x in a.allocator.items :: x !in b.allocator.items
  }

  class Kv {
    const H: Hash
    const shards: seq<Shard>
    ghost var store: Store    // the map the store stands for

    ghost predicate Valid()
      reads *
    {
      |shards| == SHARDS && Sound() && Separate() && Covers(H, Parts(), store)
    }

    ghost predicate Sound()
      reads *
    {
      forall i | 0 <= i < |shards| :: shards[i].Valid() && shards[i].table.H == H && !shards[i].locked
    }

    ghost predicate Separate()
      reads *
    {
      forall i, j | 0 <= i < |shards| && 0 <= j < |shards| && i != j :: Apart(shards[i], shards[j])
    }

    ghost function Parts(): (parts: seq<Store>)
      reads shards`store
      ensures |parts| == |shards| && forall i | 0 <= i < |shards| :: parts[i] == shards[i].store
    {
      PartsFrom(|shards|)
    }

    ghost function PartsFrom(n: nat): (parts: seq<Store>)
      requires n <= |shards|
      reads shards`store
      ensures |parts| == n && forall i | 0 <= i < n :: parts[i] == shards[i].store
    {
      if n == 0 then [] else PartsFrom(n - 1) + [shards[n - 1].store]
    }

    function ShardOf(key: Key): Shard
      requires |shards| == SHARDS
    {
      shards[ShardIndex(H(key))]
    }

    method Set(key: Key, value: seq<Byte>, flags: nat, exp: nat, pagesOk: bool) returns (reply: Reply)
      requires Valid() && Settable(store, key, value)
      modifies this`store, ShardOf(key), ShardOf(key).table, ShardOf(key).buckets
      modifies ShardOf(key).allocator, ShardOf(key).allocator.classes, ShardOf(key).allocator.slabs
      modifies ShardOf(key).allocator.items
      ensures Valid() && (reply, store) == SetStep(old(store), key, Entry(value, flags, exp))
      ensures fresh(Memory() - old(Memory()))
    {
      hide Shard.Valid, Apart, Covers, SetStep, Settable, ShardIndex, Kv.Memory, Kv.Parts;
      ghost var parts, e := Parts(), Entry(value, flags, exp);
      CoverSet(H, parts, store, key, e);
      CoverGet(H, parts, store, key, []);
      store := SetStep(store, key, e).1;
      reply := SetIn(ShardOf(key), ShardIndex(H(key)), key, value, flags, exp, pagesOk);
      MemoryGrows(ShardIndex(H(key)));
      PartsAfter(ShardIndex(H(key)));
    }

    method SetIn(shard: Shard, ghost i: nat, key: Key, value: seq<Byte>, flags: nat, exp: nat, pagesOk: bool)
      returns (reply: Reply)
      requires Sound() && Separate() && i < |shards| && shards[i] == shard && Settable(shard.store, key, value)
      modifies shard, shard.table, shard.buckets, shard.allocator, shard.allocator.classes
      modifies shard.allocator.slabs, shard.allocator.items
      ensures Sound() && Separate() && (reply, shard.store) == SetStep(old(shard.store), key, Entry(value, flags, exp))
      ensures OnlyGrew(i)
    {
      hide Shard.Valid, Apart, SetStep, Settable, Kv.Separate;
      Disjoint(i);
      reply := SetAlone(shard, i, key, value, flags, exp, pagesOk);
      KeepSeparate(i);
    }

    // The shard's own set; what the other shards read is not touched.
    method SetAlone(shard: Shard, ghost i: nat, key: Key, value: seq<Byte>, flags: nat, exp: nat, pagesOk: bool)
      returns (reply: Reply)
      requires Sound() && i < |shards| && shards[i] == shard && Settable(shard.store, key, value) && NothingShared(i)
      modifies shard, shard.table, shard.buckets, shard.allocator, shard.allocator.classes
      modifies shard.allocator.slabs, shard.allocator.items
      ensures Sound() && (reply, shard.store) == SetStep(old(shard.store), key, Entry(value, flags, exp))
      ensures OnlyGrew(i)
    {
      hide Shard.Valid, SetStep, Settable;
      reply := shard.Set(H(key), key, value, flags, exp, pagesOk);
      forall j | 0 <= j < |shards| && j != i
        ensures shards[j].Valid()
      {
        assert old(shards[j].Valid());
      }
    }

    method Delete(key: Key) returns (reply: Reply)
      requires Valid()
      modifies this`store, ShardOf(key), ShardOf(key).table, ShardOf(key).buckets
      modifies ShardOf(key).allocator, ShardOf(key).allocator.classes, ShardOf(key).allocator.slabs
      modifies ShardOf(key).allocator.items
      ensures Valid() && (reply, store) == DeleteStep(old(store), key)
      ensures fresh(Memory() - old(Memory()))
    {
      hide Shard.Valid, Apart, Covers, DeleteStep, ShardIndex, Kv.Memory, Kv.Parts;
      ghost var parts := Parts();
      CoverDelete(H, parts, store, key);
      store := DeleteStep(store, key).1;
      reply := DeleteIn(ShardOf(key), ShardIndex(H(key)), key);
      MemoryGrows(ShardIndex(H(key)));
      PartsAfter(ShardIndex(H(key)));
    }

    method DeleteIn(shard: Shard, ghost i: nat, key: Key) returns (reply: Reply)
      requires Sound() && Separate() && i < |shards| && shards[i] == shard
      modifies shard, shard.table, shard.buckets, shard.allocator, shard.allocator.classes
      modifies shard.allocator.slabs, shard.allocator.items
      ensures Sound() && Separate() && (reply, shard.store) == DeleteStep(old(shard.store), key)
      ensures OnlyGrew(i)
    {
      hide Shard.Valid, Apart, DeleteStep, Kv.Separate;
      Disjoint(i);
      reply := DeleteAlone(shard, i, key);
      KeepSeparate(i);
    }

    // The shard's own delete; what the other shards read is not touched.
    method DeleteAlone(shard: Shard, ghost i: nat, key: Key) returns (reply: Reply)
      requires Sound() && i < |shards| && shards[i] == shard && NothingShared(i)
      modifies shard, shard.table, shard.buckets, shard.allocator, shard.allocator.classes
      modifies shard.allocator.slabs, shard.allocator.items
      ensures Sound() && (reply, shard.store) == DeleteStep(old(shard.store), key)
      ensures OnlyGrew(i)
    {
      hide Shard.Valid, DeleteStep;
      reply := shard.Delete(H(key), key);
      NoGrowth(shard.allocator.slabs);
      NoGrowth(shard.allocator.items);
      forall j | 0 <= j < |shards| && j != i
        ensures shards[j].Valid()
      {
        assert old(shards[j].Valid());
      }
    }

    method Get(key: Key, dst: array<Byte>) returns (reply: Reply)
      requires Valid()
      modifies ShardOf(key)`locked, dst
      ensures Valid() && (reply, dst[..]) == GetStep(store, key, old(dst[..]))
      ensures fresh(Memory() - old(Memory()))
    {
      hide Shard.Valid, Covers, GetStep, ShardIndex, Kv.Memory;
      CoverGet(H, Parts(), store, key, dst[..]);
      ghost var i, parts := ShardIndex(H(key)), Parts();
      reply := ShardOf(key).Get(H(key), key, dst);
      forall j | 0 <= j < |shards| && j != i
        ensures shards[j].Valid()
      {
        assert old(shards[j].Valid());
      }
      forall j, k | 0 <= j < |shards| && 0 <= k < |shards| && j != k
        ensures Apart(shards[j], shards[k])
      {
        assert old(Apart(shards[j], shards[k]));
      }
      assert Parts() == parts;
      assert OnlyGrew(i);
      MemoryGrows(i);
    }

    constructor (H: Hash)
      ensures Valid() && store == map[] && this.H == H && fresh(Memory())
    {
      hide Apart, Unused, Kv.Valid, Shard.Valid, Owned;
      var made, mine := MakeShards(H);
      this.H, shards, store := H, made, map[];
      new;
      StartsEmpty();
      MemoryWithin(mine, |shards|);
    }

    lemma StartsEmpty()
      requires |shards| == SHARDS && store == map[] && forall i | 0 <= i < |shards| :: Unused(shards[i], H)
      requires forall i, j | 0 <= i < |shards| && 0 <= j < |shards| && i != j :: Apart(shards[i], shards[j])
      ensures Valid()
    {
      hide Shard.Valid, Apart;
    }

    static method AddShard(H: Hash, ghost made: seq<Shard>) returns (shard: Shard)
      ensures Unused(shard, H) && fresh(Owned(shard)) && forall i | 0 <= i < |made| ::
        Apart(made[i], shard) && Apart(shard, made[i])
      ensures forall i | 0 <= i < |made| ::
        Owned(made[i]) == old(Owned(made[i])) && Unused(made[i], H) == old(Unused(made[i], H))
      ensures forall i, j | 0 <= i < |made| && 0 <= j < |made| ::
        Apart(made[i], made[j]) == old(Apart(made[i], made[j]))
    {
      hide Shard.Valid;
      shard := new Shard(H);
    }

    static method MakeShards(H: Hash) returns (made: seq<Shard>, ghost mine: set<object>)
      ensures |made| == SHARDS && fresh(mine) && forall i | 0 <= i < |made| ::
        Unused(made[i], H) && Owned(made[i]) <= mine
      ensures forall i, j | 0 <= i < |made| && 0 <= j < |made| && i != j :: Apart(made[i], made[j])
    {
      hide Unused, Apart, Owned;
      made, mine := [], {};
      while |made| < SHARDS
        invariant |made| <= SHARDS && fresh(mine)
        invariant forall i | 0 <= i < |made| :: Unused(made[i], H) && Owned(made[i]) <= mine
        invariant forall i, j | 0 <= i < |made| && 0 <= j < |made| && i != j :: Apart(made[i], made[j])
      {
        var shard := AddShard(H, made);
        made, mine := made + [shard], mine + Owned(shard);
      }
    }

    // Everything the store owns.
    ghost function Memory(): set<object>
      reads shards`buckets, set s | s in shards :: s.allocator
    {
      MemoryOf(|shards|)
    }

    ghost function MemoryOf(n: nat): set<object>
      requires n <= |shards|
      reads shards`buckets, set s | s in shards :: s.allocator
    {
      if n == 0 then {} else MemoryOf(n - 1) + Owned(shards[n - 1])
    }

    lemma {:induction false} InMemory(i: nat, n: nat)
      requires i < n <= |shards|
      ensures Owned(shards[i]) <= MemoryOf(n)
    {
      hide Owned;
      if i < n - 1 {
        InMemory(i, n - 1);
      }
    }

    lemma {:induction false} MemoryWithin(mine: set<object>, n: nat)
      requires n <= |shards| && forall i | 0 <= i < n :: Owned(shards[i]) <= mine
      ensures MemoryOf(n) <= mine
    {
      hide Owned;
      if n > 0 {
        MemoryWithin(mine, n - 1);
      }
    }

    twostate lemma PartsAfter(i: nat)
      requires i < |shards| && OnlyGrew(i)
      ensures Parts() == old(Parts())[i := shards[i].store]
    {
    }

    // A key's shard and all it owns belong to the store.
    lemma InStore(key: Key)
      requires |shards| == SHARDS
      ensures var s := ShardOf(key);
        s in Memory() && s.table in Memory() && s.allocator in Memory() && s.buckets <= Memory() &&
        s.allocator.slabs <= Memory() && s.allocator.items <= Memory() &&
        forall k | 0 <= k < |s.allocator.classes| :: s.allocator.classes[k] in Memory()
    {
      InMemory(ShardIndex(H(key)), SHARDS);
      var s := ShardOf(key);
      assert forall k | 0 <= k < |s.allocator.classes| :: s.allocator.classes[k] in Owned(s);
    }

    // Shard i may have gained fresh memory and changed its map; the others are as they were.
    twostate predicate OnlyGrew(i: nat)
      requires i < |shards|
      reads shards, set s | s in shards :: s.allocator
    {
      Grown(shards[i]) && forall j | 0 <= j < |shards| && j != i ::
        Same(shards[j]) && shards[j].store == old(shards[j].store)
    }

    twostate lemma MemoryGrows(i: nat)
      requires i < |shards| && OnlyGrew(i)
      ensures fresh(Memory() - old(Memory()))
    {
      forall j | 0 <= j < |shards|
        ensures Grown(shards[j])
      {
        assert j != i ==> Same(shards[j]);
      }
      MemoryOfGrows(|shards|);
    }

    twostate lemma {:induction false} MemoryOfGrows(n: nat)
      requires n <= |shards| && forall j | 0 <= j < |shards| :: Grown(shards[j])
      ensures fresh(MemoryOf(n) - old(MemoryOf(n)))
    {
      hide Owned, Grown;
      if n > 0 {
        MemoryOfGrows(n - 1);
        OwnedGrows(shards[n - 1]);
        forall x | x in MemoryOf(n) - old(MemoryOf(n))
          ensures fresh(x)
        {
          assert x in MemoryOf(n - 1) - old(MemoryOf(n - 1)) || x in Owned(shards[n - 1]) - old(Owned(shards[n - 1]));
        }
      }
    }

    // What one shard may touch, no other shard reads.
    ghost predicate NothingShared(i: nat)
      requires i < |shards|
      reads *
    {
      (forall j | 0 <= j < |shards| && j != i ::
        shards[i] != shards[j] && shards[i].table != shards[j].table && shards[i].allocator != shards[j].allocator) &&
      (forall j, x | 0 <= j < |shards| && j != i && x in shards[j].buckets :: x !in shards[i].buckets) &&
      (forall j, k, l | 0 <= j < |shards| && j != i && 0 <= k < |shards[j].allocator.classes| &&
        0 <= l < |shards[i].allocator.classes| ::
        shards[j].allocator.classes[k] != shards[i].allocator.classes[l]) &&
      (forall j, x | 0 <= j < |shards| && j != i && x in shards[j].allocator.slabs ::
        x !in shards[i].allocator.slabs) &&
      forall j, x | 0 <= j < |shards| && j != i && x in shards[j].allocator.items :: x !in shards[i].allocator.items
    }

    lemma Disjoint(i: nat)
      requires i < |shards| && Separate()
      ensures NothingShared(i)
    {
      assert forall j | 0 <= j < |shards| && j != i :: Apart(shards[j], shards[i]);
    }

    // Shards stay apart when one of them gains fresh memory.
    twostate lemma KeepSeparate(i: nat)
      requires i < |shards| && old(Separate())
      requires forall j | 0 <= j < |shards| && j != i :: Same(shards[j])
      requires Grown(shards[i])
      ensures Separate()
    {
      forall j, k | 0 <= j < |shards| && 0 <= k < |shards| && j != k
        ensures Apart(shards[j], shards[k])
      {
        assert old(Apart(shards[j], shards[k]));
      }
    }
  }

  ghost predicate Unused(s: Shard, H: Hash)
    reads *
  {
    s.Valid() && s.table.H == H && s.store == map[] && !s.locked
  }

  // A shard with its table and allocator and all that these own.
  ghost function Owned(s: Shard): set<object>
    reads s`buckets, s.allocator
  {
    {s, s.table, s.allocator} + s.buckets + (set c | c in s.allocator.classes) + s.allocator.slabs + s.allocator.items
  }

  lemma NoGrowth<T>(s: set<T>)
    ensures s - s == {}
  {
  }

  twostate lemma OwnedGrows(s: Shard)
    requires Grown(s)
    ensures fresh(Owned(s) - old(Owned(s)))
  {
  }

  twostate predicate Same(s: Shard)
    reads s, s.allocator
  {
    s.buckets == old(s.buckets) && s.allocator.classes == old(s.allocator.classes) &&
    s.allocator.slabs == old(s.allocator.slabs) && s.allocator.items == old(s.allocator.items)
  }

  twostate predicate Grown(s: Shard)
    reads s, s.allocator
  {
    fresh(s.buckets - old(s.buckets)) && s.allocator.classes == old(s.allocator.classes) &&
    fresh(s.allocator.slabs - old(s.allocator.slabs)) && fresh(s.allocator.items - old(s.allocator.items))
  }

  // ---- runs

  datatype Op =
    | GetOp(key: Key, dst: seq<Byte>)
    | SetOp(key: Key, e: Entry)
    | DeleteOp(key: Key)

  datatype Answer = Answer(reply: Reply, dst: seq<Byte>)

  /** One operation on a plain map: the map after it and the answer (with the destination buffer of a get). */
  function Step(s: Store, op: Op): (Store, Answer) {
    match op
    case GetOp(key, dst) => var (r, d) := GetStep(s, key, dst); (s, Answer(r, d))
    case SetOp(key, e) => var (r, s') := SetStep(s, key, e); (s', Answer(r, []))
    case DeleteOp(key) => var (r, s') := DeleteStep(s, key); (s', Answer(r, []))
  }

  predicate Admissible(s: Store, op: Op) {
    op.SetOp? ==> Settable(s, op.key, op.e.value)
  }

  // Each operation meets its precondition when its turn comes.
  predicate AllAdmissible(s: Store, ops: seq<Op>)
    decreases |ops|
  {
    ops == [] || (Admissible(s, ops[0]) && AllAdmissible(Step(s, ops[0]).0, ops[1..]))
  }

  /** What a sequence of operations does to a plain map, and all its answers. */
  function Steps(s: Store, ops: seq<Op>): (Store, seq<Answer>)
    decreases |ops|
  {
    if ops == [] then (s, [])
    else
      var (s1, a) := Step(s, ops[0]);
      var (s2, rest) := Steps(s1, ops[1..]);
      (s2, [a] + rest)
  }

  method Perform(kv: Kv, op: Op, pagesOk: bool) returns (a: Answer)
    requires kv.Valid() && Admissible(kv.store, op)
    modifies kv, kv.Memory()
    ensures kv.Valid() && (kv.store, a) == Step(old(kv.store), op) && fresh(kv.Memory() - old(kv.Memory()))
  {
    hide Kv.Sound, Kv.Separate, Kv.Memory, Covers, GetStep, SetStep, DeleteStep, Settable, Kv.ShardOf;
    kv.InStore(op.key);
    match op
    case GetOp(key, bytes) =>
      var dst := new Byte[|bytes|](i requires 0 <= i < |bytes| => bytes[i]);
      assert dst[..] == bytes;
      var reply := kv.Get(key, dst);
      a := Answer(reply, dst[..]);
    case SetOp(key, e) =>
      var reply := kv.Set(key, e.value, e.flags, e.exp, pagesOk);
      a := Answer(reply, []);
    case DeleteOp(key) =>
      var reply := kv.Delete(key);
      a := Answer(reply, []);
  }

  /** Every run of the store gives the answers of a plain map, whatever the page allocator answers. */
  method Run(kv: Kv, ops: seq<Op>, pagesOk: seq<bool>) returns (answers: seq<Answer>)
    requires kv.Valid() && AllAdmissible(kv.store, ops) && |pagesOk| == |ops|
    modifies kv, kv.Memory()
    ensures kv.Valid() && (kv.store, answers) == Steps(old(kv.store), ops)
    decreases |ops|
  {
    hide Kv.Valid, Kv.Memory, Step;
    if ops == [] {
      return [];
    }
    var a := Perform(kv, ops[0], pagesOk[0]);
    answers := Run(kv, ops[1..], pagesOk[1..]);
    answers := [a] + answers;
  }

  /** A run from a new store. */
  method RunNew(H: Hash, ops: seq<Op>, pagesOk: seq<bool>) returns (kv: Kv, answers: seq<Answer>)
    requires AllAdmissible(map[], ops) && |pagesOk| == |ops|
    ensures fresh(kv) && kv.Valid() && (kv.store, answers) == Steps(map[], ops)
  {
    hide Kv.Valid, Kv.Memory, Step;
    kv := new Kv(H);
    answers := Run(kv, ops, pagesOk);
  }
}
