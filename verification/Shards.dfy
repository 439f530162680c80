/** One shard of the store: a table and an allocator behind a mutex. */
module Shards {
  import opened Bytes
  import opened Swar
  import opened Mask
  import opened Items
  import opened Buckets
  import opened Halves
  import opened Tables
  import opened TableRuns
  import opened Slabs
  import opened SizeClasses
  import opened Allocators

  const TABLE_SIZE: nat := 128
  const KEY_MAX: nat := UINT16 - 1
  const DATA_MAX: nat := MAX_CHUNK - ITEM_SIZE

  datatype Entry = Entry(value: seq<Byte>, flags: nat, exp: nat)

  datatype Reply = Done | Got(valueLen: nat, flags: nat, exp: nat) | TooLong(valueLen: nat) | NotFound | NoMem

  type Store = map<Key, Entry>

  // ---- what the operations mean on a plain map

  /** The reply to a get and the destination buffer after it. */
  function GetStep(s: Store, key: Key, dst: seq<Byte>): (Reply, seq<Byte>) {
    if key !in s then (NotFound, dst)
    else if |s[key].value| > |dst| then (TooLong(|s[key].value|), dst)
    else (Got(|s[key].value|, s[key].flags, s[key].exp), s[key].value + dst[|s[key].value|..])
  }

  function SetStep(s: Store, key: Key, e: Entry): (Reply, Store) {
    if |key| + |e.value| > DATA_MAX then (NoMem, s) else (Done, s[key := e])
  }

  function DeleteStep(s: Store, key: Key): (Reply, Store) {
    if key in s then (Done, s - {key}) else (NotFound, s)
  }

  // What a set asks of its caller: a key that fits its length field, and room in some chunk if the key is new.
  predicate Settable(s: Store, key: Key, value: seq<Byte>) {
    |key| <= KEY_MAX && |key| + |value| + ITEM_SIZE <= SIZE_MAX &&
    (key !in s ==> 1 <= |key| + |value| <= DATA_MAX)
  }

  // ---- chunks and items

  /** Live chunks and items of the map correspond one to one. */
  ghost predicate Bijective(live: set<Item>, M: map<Key, Item>) {
    (forall k | k in M :: M[k] in live) &&
    (forall k, l | k in M && l in M && k != l :: M[k] != M[l]) &&
    forall x | x in live :: exists k :: k in M && M[k] == x
  }

  lemma BindNew(live: set<Item>, M: map<Key, Item>, key: Key, item: Item)
    requires Bijective(live, M) && key !in M && item !in live
    ensures Bijective(live + {item}, M[key := item])
  {
    var N := M[key := item];
    forall x | x in live + {item}
      ensures exists k :: k in N && N[k] == x
    {
      if x == item {
        assert N[key] == x;
      } else {
        var k :| k in M && M[k] == x;
        assert N[k] == x;
      }
    }
  }

  lemma Rebind(live: set<Item>, M: map<Key, Item>, key: Key, item: Item)
    requires Bijective(live, M) && key in M && item !in live
    ensures Bijective(live + {item} - {M[key]}, M[key := item])
  {
    var N := M[key := item];
    forall x | x in live + {item} - {M[key]}
      ensures exists k :: k in N && N[k] == x
    {
      if x == item {
        assert N[key] == x;
      } else {
        var k :| k in M && M[k] == x;
        assert N[k] == x;
      }
    }
  }

  lemma Unbind(live: set<Item>, M: map<Key, Item>, key: Key)
    requires Bijective(live, M) && key in M
    ensures Bijective(live - {M[key]}, M - {key})
  {
    var N := M - {key};
    forall x | x in live - {M[key]}
      ensures exists k :: k in N && N[k] == x
    {
      var k :| k in M && M[k] == x;
      assert k in N && N[k] == x;
    }
  }

  lemma Injective(live: set<Item>, M: map<Key, Item>, key: Key)
    requires Bijective(live, M) && key in M
    ensures forall k | k in M && k != key :: M[k] != M[key]
  {
  }

  method WriteItem(item: Item, key: Key, value: seq<Byte>, flags: nat, exp: nat)
    requires |key| + |value| <= item.dataSize == |item.data| <= DATA_MAX && |key| <= KEY_MAX && |value| < UINT32
    modifies item`expireAt, item`flags, item`keyLen, item`valueLen, item`data
    ensures Entered(item, key, Entry(value, flags, exp)) && |item.data| == old(|item.data|)
    ensures item.keyLen + item.valueLen <= |item.data|
    ensures item.Key() == key && item.Value() == value && item.flags == flags && item.expireAt == exp
  {
    item.expireAt := exp;
    item.flags := flags;
    item.SetKey(key);
    item.SetValue(value);
    assert item.data[..|key|] == key;
    assert item.data[|key|..|key| + |value|] == value;
  }

  // The item holds the entry under the key, inside its chunk.
  ghost predicate Entered(item: Item, key: Key, e: Entry)
    reads item`keyLen, item`data, item`valueLen, item`dataSize, item`flags, item`expireAt
  {
    item.keyLen + item.valueLen <= item.dataSize == |item.data| <= DATA_MAX &&
    item.Key() == key && Entry(item.Value(), item.flags, item.expireAt) == e
  }

  lemma SmallPow2()
    ensures IsPow2(TABLE_SIZE)
  {
    assert IsPow2(1);
    Pow2Doubles(1);
    Pow2Doubles(2);
    Pow2Doubles(4);
    Pow2Doubles(8);
    Pow2Doubles(16);
    Pow2Doubles(32);
    Pow2Doubles(64);
  }

  class Shard {
    const table: Table
    const allocator: Allocator
    var locked: bool                 // the mutex
    ghost var store: Store           // the map the shard stands for
    ghost var buckets: set<Bucket>   // of the table

    ghost predicate Valid()
      reads this`store, this`buckets, table, allocator
      reads buckets`slotStates, buckets`hashTags, buckets`items, buckets`keys, buckets`next
      reads allocator.classes`slabsCap, allocator.classes`slabs, allocator.classes`freeStack, allocator.classes`items
      reads allocator.slabs`chunks, allocator.slabs`used, allocator.slabs`bump, allocator.slabs`free
      reads allocator.slabs`live, allocator.slabs`freeCount, allocator.slabs`freeList, allocator.slabs`stackPos
      reads allocator.items`word0, allocator.items`dataSize, allocator.items`keyLen, allocator.items`valueLen
      reads allocator.items`flags, allocator.items`expireAt, allocator.items`data
    {
      TableOk({}) && allocator.Valid() && ChunksOk() && Records({})
    }

    ghost predicate TableOk(open: set<Key>)
      reads this`buckets, table
      reads buckets`slotStates, buckets`hashTags, buckets`items, buckets`keys, buckets`next
    {
      table.Repr() == buckets && table.Shape(open)
    }

    ghost predicate ChunksOk()
      reads table`M, allocator`live, allocator`items, allocator.items`data
    {
      ChunksMatch(table.M)
    }

    // Live chunks and items correspond one to one; every chunk keeps its size.
    ghost predicate ChunksMatch(M: map<Key, Item>)
      reads allocator`live, allocator`items, allocator.items`data
    {
      Bijective(allocator.live, M) && allocator.live <= allocator.items &&
      (forall k | k in M :: M[k] in allocator.live) &&
      forall x | x in allocator.items :: |x.data| == x.room
    }

    ghost predicate Records(except: set<Key>)
      requires ChunksOk()
      reads this`store, table`M, allocator`live, allocator`items
      reads allocator.items`dataSize, allocator.items`keyLen, allocator.items`valueLen, allocator.items`flags
      reads allocator.items`expireAt, allocator.items`data
    {
      Recorded(table.M, except)
    }

    // Every item of the map, but those of the excepted keys, holds its entry.
    ghost predicate Recorded(M: map<Key, Item>, except: set<Key>)
      requires ChunksMatch(M)
      reads this`store, allocator`live, allocator`items
      reads allocator.items`dataSize, allocator.items`keyLen, allocator.items`valueLen, allocator.items`flags
      reads allocator.items`expireAt, allocator.items`data
    {
      (forall k | k in M && k !in except :: k in store && Entered(M[k], k, store[k])) &&
      (forall k | k in store && k !in except :: k in M)
    }

    lemma TableValid()
      requires TableOk({}) && ChunksOk() && Records({})
      ensures table.Valid()
    {
    }

    // An empty shard; its first bucket memory is assumed granted.
    constructor (H: Hash)
      ensures Valid() && fresh(table) && table.H == H && store == map[] && !locked
      ensures fresh(buckets) && fresh(allocator) && fresh(allocator.classes) && allocator.slabs == {} &&
        allocator.items == {}
      ensures table.newBuckets == [] && |table.oldBuckets| == 128 && table.scaleAtSize == 768 && table.oldSize == 0
    {
      hide Allocator.Valid, Table.Shape;
      var alloc := new Allocator();
      SmallPow2();
      var t := Init(H, TABLE_SIZE, true);
      table, allocator, locked, store, buckets := t, alloc, false, map[], t.Repr();
    }

    method Lock()
      requires !locked
      modifies this`locked
      ensures locked
    {
      locked := true;
    }

    method Unlock()
      requires locked
      modifies this`locked
      ensures !locked
    {
      locked := false;
    }

    method Get(hash: bv64, key: Key, dst: array<Byte>) returns (reply: Reply)
      requires Valid() && hash == table.H(key) && !locked
      modifies this`locked, dst
      ensures Valid() && !locked
      ensures (reply, dst[..]) == GetStep(store, key, old(dst[..]))
    {
      hide Shard.Valid, Item.Key, Item.Value, Entered;
      Lock();
      var item := Find(hash, key);
      if item == null {
        Unlock();
        return NotFound;
      }
      var valueLen := item.valueLen;
      if item.valueLen > dst.Length {
        Unlock();
        return TooLong(valueLen);
      }
      reply := Got(valueLen, item.flags, item.expireAt);
      CopyInto(item.Value(), dst);
      Unlock();
    }

    method Find(hash: bv64, key: Key) returns (item: Item?)
      requires Valid() && hash == table.H(key)
      ensures item == null <==> key !in store
      ensures item != null ==> Entered(item, key, store[key]) && item in allocator.items
      ensures item != null ==> item.keyLen + item.valueLen <= |item.data| && item.valueLen == |store[key].value|
      ensures item != null ==>
        item.Value() == store[key].value && item.flags == store[key].flags && item.expireAt == store[key].exp
    {
      hide Allocator.Valid, Table.Shape;
      TableValid();
      item := table.Get(hash, key);
    }

    // An item is set aside for the key; its bytes are still to be written.
    ghost predicate Pending(key: Key, item: Item, dataLen: nat)
      reads this`store, this`buckets, table, allocator
      reads buckets`slotStates, buckets`hashTags, buckets`items, buckets`keys, buckets`next
      reads allocator.classes`slabsCap, allocator.classes`slabs, allocator.classes`freeStack, allocator.classes`items
      reads allocator.slabs`chunks, allocator.slabs`used, allocator.slabs`bump, allocator.slabs`free
      reads allocator.slabs`live, allocator.slabs`freeCount, allocator.slabs`freeList, allocator.slabs`stackPos
      reads allocator.items`word0, allocator.items`dataSize, allocator.items`keyLen, allocator.items`valueLen
      reads allocator.items`flags, allocator.items`expireAt, allocator.items`data
    {
      TableOk({}) && allocator.Valid() && ChunksOk() && Records({key}) && key in table.M && table.M[key] == item &&
      dataLen <= item.dataSize == |item.data| <= DATA_MAX
    }

    // The table's part of a set.
    method Reserve(hash: bv64, key: Key, pagesOk: bool) returns (b: Bucket, slot: int)
      requires Valid() && hash == table.H(key)
      modifies this`buckets, table`scaleAtSize, table`migrationPos, table`oldBuckets, table`oldSize, table`p
      modifies table`newBuckets, table`newSize, table`q, table`mapped, buckets
      ensures TableOk({key}) && (key in table.M ==> TableOk({})) && fresh(buckets - old(buckets))
      ensures allocator.Valid() && ChunksOk() && Records({})
      ensures 0 <= slot < SLOTS && table.Placed(key, b, slot) && b in buckets && b.WellFormed()
      ensures b.items[slot] == if key in table.M then table.M[key] else null
      ensures old(table.newBuckets) == [] && old(table.oldSize < table.scaleAtSize) ==> table.newBuckets == []
    {
      hide Allocator.Valid, Table.Shape, Shard.ChunksMatch, Shard.Recorded;
      TableValid();
      b, slot := table.Set(hash, key, pagesOk);
      buckets := table.Repr();
    }

    // One live chunk is not yet any key's; every key has its entry.
    ghost predicate Spare(M: map<Key, Item>, item: Item)
      reads this`store, allocator`live, allocator`items
      reads allocator.items`dataSize, allocator.items`keyLen, allocator.items`valueLen, allocator.items`flags
      reads allocator.items`expireAt, allocator.items`data
    {
      item in allocator.live && allocator.live <= allocator.items && Bijective(allocator.live - {item}, M) &&
      (forall k | k in M :: M[k] in allocator.live && M[k] != item) &&
      (forall x | x in allocator.items :: |x.data| == x.room) &&
      (forall k | k in M :: k in store && Entered(M[k], k, store[k])) &&
      (forall k | k in store :: k in M)
    }

    // The allocator's part of a set: one more chunk, the recorded entries untouched.
    method Provide(dataLen: nat) returns (item: Item?)
      requires allocator.Valid() && ChunksOk() && Records({}) && dataLen + ITEM_SIZE <= SIZE_MAX
      modifies allocator`slabs, allocator`items, allocator`live, allocator.classes`slabsCap
      modifies allocator.classes`slabs, allocator.classes`freeStack, allocator.classes`items
      modifies allocator.slabs`freeList, allocator.slabs`bump, allocator.slabs`freeCount, allocator.slabs`free
      modifies allocator.slabs`used, allocator.slabs`live, allocator.slabs`stackPos
      modifies allocator.items`word0, allocator.items`dataSize
      ensures item == null <==> dataLen == 0 || dataLen > DATA_MAX
      ensures allocator.Valid() && fresh(allocator.slabs - old(allocator.slabs)) &&
        fresh(allocator.items - old(allocator.items))
      ensures item == null ==> ChunksOk() && Records({})
      ensures item != null ==>
        Spare(table.M, item) && item in allocator.items && dataLen <= item.dataSize == |item.data| <= DATA_MAX
      ensures item != null ==> item !in old(allocator.live) && Fits(item, allocator.sizes, dataLen + 24)
    {
      hide Allocator.Valid, Bijective, Entered;
      item := allocator.AllocItem(dataLen);
      assert item != null ==> allocator.live - {item} == old(allocator.live);
      forall k | k in table.M
        ensures Entered(table.M[k], k, store[k])
      {
        assert old(Entered(table.M[k], k, store[k])) && table.M[k] in old(allocator.live);
      }
    }

    // The table's part: the chunk goes into the slot reserved for the key.
    method Bind(key: Key, b: Bucket, slot: nat, item: Item)
      requires TableOk({key}) && table.Placed(key, b, slot) && b in buckets && b.WellFormed()
      modifies table`M, b`items
      ensures TableOk({}) && table.M == old(table.M)[key := item]
    {
      hide Table.Shape;
      table.Store(key, b, slot, item);
    }

    // A first chunk for an absent key.
    method Take(key: Key, dataLen: nat, b: Bucket, slot: nat) returns (item: Item)
      requires TableOk({key}) && allocator.Valid() && ChunksOk() && Records({})
      requires key !in table.M && 1 <= dataLen <= DATA_MAX
      requires table.Placed(key, b, slot) && b in buckets && b.WellFormed()
      modifies table`M, b`items
      modifies allocator`slabs, allocator`items, allocator`live, allocator.classes`slabsCap
      modifies allocator.classes`slabs, allocator.classes`freeStack, allocator.classes`items
      modifies allocator.slabs`freeList, allocator.slabs`bump, allocator.slabs`freeCount, allocator.slabs`free
      modifies allocator.slabs`used, allocator.slabs`live, allocator.slabs`stackPos
      modifies allocator.items`word0, allocator.items`dataSize
      ensures Pending(key, item, dataLen) && dataLen <= item.dataSize <= DATA_MAX && item in allocator.items
      ensures Fits(item, allocator.sizes, dataLen + 24)
      ensures fresh(allocator.slabs - old(allocator.slabs)) && fresh(allocator.items - old(allocator.items))
    {
      hide Allocator.Valid, Shard.TableOk, Shard.ChunksMatch, Shard.Recorded, Shard.Spare, Table.Placed, Fits;
      item := Provide(dataLen);
      SpareTaken(table.M, key, item);
      Bind(key, b, slot, item);
    }

    lemma SpareTaken(M: map<Key, Item>, key: Key, item: Item)
      requires Spare(M, item) && key !in M
      ensures ChunksMatch(M[key := item]) && Recorded(M[key := item], {key})
    {
      hide Bijective, Entered;
      BindNew(allocator.live - {item}, M, key, item);
      assert allocator.live - {item} + {item} == allocator.live;
    }

    // A larger chunk for a key whose chunk is too small; the old one is freed.
    method Replace(key: Key, dataLen: nat, b: Bucket, slot: nat, was: Item) returns (item: Item?)
      requires TableOk({key}) && TableOk({}) && allocator.Valid() && ChunksOk() && Records({})
      requires key in table.M && table.M[key] == was && was in allocator.items && was.dataSize < dataLen &&
        dataLen + ITEM_SIZE <= SIZE_MAX
      requires table.Placed(key, b, slot) && b in buckets && b.WellFormed()
      modifies table`M, b`items
      modifies allocator`slabs, allocator`items, allocator`live, allocator.classes`slabsCap
      modifies allocator.classes`slabs, allocator.classes`freeStack, allocator.classes`items
      modifies allocator.slabs`freeList, allocator.slabs`bump, allocator.slabs`freeCount, allocator.slabs`free
      modifies allocator.slabs`used, allocator.slabs`live, allocator.slabs`stackPos
      modifies allocator.items`word0, allocator.items`dataSize
      ensures item == null <==> dataLen > DATA_MAX
      ensures fresh(allocator.slabs - old(allocator.slabs)) && fresh(allocator.items - old(allocator.items))
      ensures if item == null then Valid() && table.M == old(table.M)
        else Pending(key, item, dataLen) && item in allocator.items && item.dataSize <= DATA_MAX
      ensures item != null ==> Fits(item, allocator.sizes, dataLen + 24)
    {
      hide Allocator.Valid, Shard.TableOk, Shard.ChunksMatch, Shard.Recorded, Shard.Spare, Table.Placed, Fits;
      hide Shard.Pending;
      item := Provide(dataLen);
      if item == null {
        return;
      }
      Install(key, dataLen, b, slot, was, item);
    }

    // The new chunk takes the place of the old one.
    method Install(key: Key, dataLen: nat, b: Bucket, slot: nat, was: Item, item: Item)
      requires TableOk({key}) && allocator.Valid() && Spare(table.M, item)
      requires key in table.M && table.M[key] == was
      requires dataLen <= item.dataSize == |item.data| <= DATA_MAX
      requires table.Placed(key, b, slot) && b in buckets && b.WellFormed()
      modifies table`M, b`items, allocator`live, allocator.classes`freeStack
      modifies allocator.slabs`freeList, allocator.slabs`freeCount, allocator.slabs`free, allocator.slabs`live
      modifies allocator.slabs`stackPos, was`word0
      ensures Pending(key, item, dataLen)
    {
      hide Allocator.Valid, Shard.TableOk, Shard.ChunksMatch, Shard.Recorded, Shard.Spare, Table.Placed;
      Exchange(key, was, item);
      Bind(key, b, slot, item);
    }

    // Free the chunk that gives way to a new one.
    method Exchange(key: Key, was: Item, item: Item)
      requires allocator.Valid() && Spare(table.M, item) && key in table.M && table.M[key] == was
      modifies allocator`live, allocator.classes`freeStack
      modifies allocator.slabs`freeList, allocator.slabs`freeCount, allocator.slabs`free, allocator.slabs`live
      modifies allocator.slabs`stackPos, was`word0
      ensures allocator.Valid() && ChunksMatch(table.M[key := item]) && Recorded(table.M[key := item], {key})
    {
      hide Allocator.Valid, Bijective, Entered;
      ghost var live := allocator.live - {item};
      Injective(live, table.M, key);
      Rebind(live, table.M, key, item);
      allocator.FreeItem(was);
      assert allocator.live == live + {item} - {was};
    }

    // Write the entry into the item set aside for it.
    method Fill(key: Key, value: seq<Byte>, flags: nat, exp: nat, item: Item)
      requires Pending(key, item, |key| + |value|) && |key| <= KEY_MAX && |value| < UINT32
      modifies this`store, item`expireAt, item`flags, item`keyLen, item`valueLen, item`data
      ensures Valid() && store == old(store)[key := Entry(value, flags, exp)]
      ensures item.keyLen + item.valueLen <= |item.data|
      ensures item.Key() == key && item.Value() == value && item.flags == flags && item.expireAt == exp
    {
      hide Allocator.Valid, Shard.TableOk, Bijective, Entered;
      Injective(allocator.live, table.M, key);
      store := store[key := Entry(value, flags, exp)];
      FillItem(key, value, flags, exp, item);
    }

    method FillItem(key: Key, value: seq<Byte>, flags: nat, exp: nat, item: Item)
      requires ChunksOk() && Records({key}) && key in table.M && table.M[key] == item && item in allocator.items
      requires key in store && store[key] == Entry(value, flags, exp)
      requires forall k | k in table.M && k != key :: table.M[k] != item
      requires |key| + |value| <= item.dataSize == |item.data| <= DATA_MAX && |key| <= KEY_MAX && |value| < UINT32
      modifies item`expireAt, item`flags, item`keyLen, item`valueLen, item`data
      ensures ChunksOk() && Records({})
      ensures item.keyLen + item.valueLen <= |item.data|
      ensures item.Key() == key && item.Value() == value && item.flags == flags && item.expireAt == exp
    {
      hide Bijective, Entered;
      WriteItem(item, key, value, flags, exp);
      assert forall k | k in table.M && k != key :: Entered(table.M[k], k, store[k]);
    }

    lemma Known(key: Key)
      requires Valid()
      ensures key in store <==> key in table.M
    {
    }

    // The chunk a key already has will do when it is large enough.
    lemma Reuse(key: Key, item: Item, dataLen: nat)
      requires TableOk({}) && allocator.Valid() && ChunksOk() && Records({}) && key in table.M && table.M[key] == item
      ensures item in allocator.items && item.dataSize <= DATA_MAX &&
        (dataLen <= item.dataSize ==> Pending(key, item, dataLen))
    {
      hide Allocator.Valid, Bijective;
      assert Entered(item, key, store[key]);
    }

    method Set(hash: bv64, key: Key, value: seq<Byte>, flags: nat, exp: nat, pagesOk: bool) returns (reply: Reply)
      requires Valid() && hash == table.H(key) && !locked && Settable(store, key, value)
      modifies this`locked, this`store, this`buckets, table, buckets
      modifies allocator`slabs, allocator`items, allocator`live, allocator.classes`slabsCap
      modifies allocator.classes`slabs, allocator.classes`freeStack, allocator.classes`items
      modifies allocator.slabs`freeList, allocator.slabs`bump, allocator.slabs`freeCount, allocator.slabs`free
      modifies allocator.slabs`used, allocator.slabs`live, allocator.slabs`stackPos
      modifies allocator.items
      ensures Valid() && !locked && (reply, store) == SetStep(old(store), key, Entry(value, flags, exp))
      ensures fresh(buckets - old(buckets)) && fresh(allocator.slabs - old(allocator.slabs)) &&
        fresh(allocator.items - old(allocator.items))
    {
      hide Shard.Valid, Shard.Pending;
      Lock();
      var dataLen := |key| + |value|;
      var item := MakeRoom(hash, key, dataLen, pagesOk);
      if item == null {
        Unlock();
        return NoMem;
      }
      Fill(key, value, flags, exp, item);
      Unlock();
      return Done;
    }

    method MakeRoom(hash: bv64, key: Key, dataLen: nat, pagesOk: bool) returns (item: Item?)
      requires Valid() && hash == table.H(key) && dataLen + ITEM_SIZE <= SIZE_MAX
      requires key !in store ==> 1 <= dataLen <= DATA_MAX
      modifies this`buckets, table, buckets
      modifies allocator`slabs, allocator`items, allocator`live, allocator.classes`slabsCap
      modifies allocator.classes`slabs, allocator.classes`freeStack, allocator.classes`items
      modifies allocator.slabs`freeList, allocator.slabs`bump, allocator.slabs`freeCount, allocator.slabs`free
      modifies allocator.slabs`used, allocator.slabs`live, allocator.slabs`stackPos
      modifies allocator.items`word0, allocator.items`dataSize
      ensures if dataLen > DATA_MAX then item == null && Valid()
        else item != null && Pending(key, item, dataLen) && item in allocator.items
      ensures if old(key in table.M && dataLen <= table.M[key].dataSize)
        then item == old(table.M)[key] && allocator.live == old(allocator.live)
        else item != null ==> Fits(item, allocator.sizes, dataLen + 24)
      ensures fresh(buckets - old(buckets)) && fresh(allocator.slabs - old(allocator.slabs)) &&
        fresh(allocator.items - old(allocator.items))
    {
      hide Shard.TableOk, Allocator.Valid, Shard.ChunksMatch, Shard.Recorded, Shard.Pending, Table.Placed, Fits;
      Known(key);
      var b, slot := Reserve(hash, key, pagesOk);
      item := Settle(key, dataLen, b, slot);
    }

    /** A set of an absent key up to the point where no chunk is granted, which is exactly when its size fits no chunk.
      * The slot reserved for the key is then busy with the key's tag and holds null. The delete that the source calls
      * next comes to that null: either its migration step takes the slot's chain and rehashes the item of every busy
      * slot there, or the step leaves the chain alone and the search compares the key with the slot's item before it
      * finds the key. */
    method ReserveInVain(hash: bv64, key: Key, dataLen: nat, pagesOk: bool) returns (b: Bucket, slot: int, item: Item?)
      requires Valid() && hash == table.H(key) && key !in store && dataLen + ITEM_SIZE <= SIZE_MAX
      modifies this`buckets, table, buckets
      modifies allocator`slabs, allocator`items, allocator`live
      modifies allocator.classes`slabsCap, allocator.classes`slabs, allocator.classes`freeStack, allocator.classes`items
      modifies allocator.slabs`freeList, allocator.slabs`bump, allocator.slabs`freeCount, allocator.slabs`free
      modifies allocator.slabs`used, allocator.slabs`live, allocator.slabs`stackPos
      modifies allocator.items`word0, allocator.items`dataSize
      ensures item == null <==> !(1 <= dataLen <= DATA_MAX)
      ensures 0 <= slot < SLOTS && b.WellFormed() && b.Busy(slot) && b.items[slot] == null
      ensures Bit(MatchTag(b.hashTags, b.slotStates, TagOf(hash)), slot)
      ensures item == null ==> table.Met(key, b, slot) && (table.NextMigrated(key) || table.Aside(key))
      ensures old(table.newBuckets) == [] && old(table.oldSize < table.scaleAtSize) ==> table.newBuckets == []
    {
      hide Shard.TableOk, Allocator.Valid, Shard.ChunksMatch, Shard.Recorded, Shard.Spare, Table.Placed, Bit;
      hide MatchTag, TagOf;
      hide Table.Met;
      Known(key);
      b, slot := Reserve(hash, key, pagesOk);
      VainSlot(key, b, slot);
      item := Provide(dataLen);
      if item == null {
        VainSlot(key, b, slot);
      }
    }

    lemma VainSlot(key: Key, b: Bucket, slot: nat)
      requires TableOk({key}) && ChunksOk() && Records({}) && key !in table.M && table.Placed(key, b, slot)
      ensures slot < SLOTS && b.WellFormed() && b.Busy(slot) &&
        Bit(MatchTag(b.hashTags, b.slotStates, TagOf(table.H(key))), slot)
      ensures table.Met(key, b, slot) && (table.NextMigrated(key) || table.Aside(key))
    {
      hide Table.Shape, Table.Placed, Bit, MatchTag, TagOf, Bijective;
      assert KeysMatch(table.M);
      table.Compared(key, b, slot);
    }

    // The chunk for a key: new for an absent key, the present one if large enough, else a larger one.
    method Settle(key: Key, dataLen: nat, b: Bucket, slot: nat) returns (item: Item?)
      requires TableOk({key}) && (key in table.M ==> TableOk({})) && allocator.Valid() && ChunksOk() && Records({})
      requires table.Placed(key, b, slot) && b in buckets && b.WellFormed() && slot < SLOTS
      requires b.items[slot] == if key in table.M then table.M[key] else null
      requires dataLen + ITEM_SIZE <= SIZE_MAX && (key !in table.M ==> 1 <= dataLen <= DATA_MAX)
      modifies table`M, b`items
      modifies allocator`slabs, allocator`items, allocator`live, allocator.classes`slabsCap
      modifies allocator.classes`slabs, allocator.classes`freeStack, allocator.classes`items
      modifies allocator.slabs`freeList, allocator.slabs`bump, allocator.slabs`freeCount, allocator.slabs`free
      modifies allocator.slabs`used, allocator.slabs`live, allocator.slabs`stackPos
      modifies allocator.items`word0, allocator.items`dataSize
      ensures if dataLen > DATA_MAX then item == null && Valid()
        else item != null && Pending(key, item, dataLen) && item in allocator.items
      ensures fresh(allocator.slabs - old(allocator.slabs)) && fresh(allocator.items - old(allocator.items))
      ensures if old(key in table.M && dataLen <= table.M[key].dataSize)
        then item == old(table.M)[key] && allocator.live == old(allocator.live)
        else item != null ==> Fits(item, allocator.sizes, dataLen + 24)
    {
      hide Shard.TableOk, Allocator.Valid, Shard.ChunksMatch, Shard.Recorded, Shard.Pending, Table.Placed, Fits;
      item := b.items[slot];
      if item == null {
        item := Take(key, dataLen, b, slot);
      } else {
        Reuse(key, item, dataLen);
      }
      if item.dataSize < dataLen {
        item := Replace(key, dataLen, b, slot, item);
      }
    }

    method Delete(hash: bv64, key: Key) returns (reply: Reply)
      requires Valid() && hash == table.H(key) && !locked
      modifies this`locked, this`store, this`buckets, table, buckets
      modifies allocator`slabs, allocator`items, allocator`live, allocator.classes`slabsCap
      modifies allocator.classes`slabs, allocator.classes`freeStack, allocator.classes`items
      modifies allocator.slabs`freeList, allocator.slabs`bump, allocator.slabs`freeCount, allocator.slabs`free
      modifies allocator.slabs`used, allocator.slabs`live, allocator.slabs`stackPos
      modifies allocator.items`word0
      ensures Valid() && !locked && (reply, store) == DeleteStep(old(store), key)
      ensures fresh(buckets - old(buckets)) && allocator.slabs == old(allocator.slabs) &&
        allocator.items == old(allocator.items)
    {
      hide Shard.TableOk, Allocator.Valid, Shard.ChunksMatch, Shard.Recorded;
      Known(key);
      Lock();
      var item := Remove(hash, key);
      if item == null {
        Unlock();
        return NotFound;
      }
      Release(key, item, old(table.M));
      Unlock();
      return Done;
    }

    // The table's part of a delete.
    method Remove(hash: bv64, key: Key) returns (item: Item?)
      requires Valid() && hash == table.H(key)
      modifies this`buckets, table, buckets
      ensures TableOk({}) && fresh(buckets - old(buckets)) && table.M == old(table.M) - {key}
      ensures item == if key in old(table.M) then old(table.M)[key] else null
      ensures allocator.Valid() && ChunksMatch(old(table.M)) && Recorded(old(table.M), {})
      ensures if item == null then table.M == old(table.M) else item in allocator.items
    {
      hide Allocator.Valid, Table.Shape, Shard.ChunksMatch, Shard.Recorded;
      TableValid();
      OwnChunk(key);
      item := table.Delete(hash, key);
      buckets := table.Repr();
    }

    lemma OwnChunk(key: Key)
      requires ChunksOk()
      ensures key in table.M ==> table.M[key] in allocator.items
    {
    }

    // Free the chunk of a key that has left the table.
    method Release(key: Key, item: Item, ghost M: map<Key, Item>)
      requires allocator.Valid() && ChunksMatch(M) && Recorded(M, {}) && key in M && M[key] == item &&
        table.M == M - {key}
      modifies this`store, allocator`live, allocator.classes`freeStack
      modifies allocator.slabs`freeList, allocator.slabs`freeCount, allocator.slabs`free, allocator.slabs`live
      modifies allocator.slabs`stackPos, item`word0
      ensures allocator.Valid() && ChunksOk() && Records({}) && store == old(store) - {key}
    {
      hide Allocator.Valid, Bijective, Entered;
      ghost var live := allocator.live;
      Injective(live, M, key);
      Unbind(live, M, key);
      allocator.FreeItem(item);
      store := store - {key};
    }
  }

  // The empty key with the empty value, on a new shard: no chunk is granted, and the delete compares with null.
  method EmptyKeyInVain(H: Hash) returns (shard: Shard, b: Bucket, slot: int)
    ensures 0 <= slot < SLOTS && b.WellFormed() && b.Busy(slot) && b.items[slot] == null
    ensures shard.table.Met([], b, slot) && shard.table.newBuckets == []
  {
    hide Shard.Valid, Table.Met, MatchTag, Bit;
    shard := new Shard(H);
    var item;
    b, slot, item := shard.ReserveInVain(H([]), [], 0, true);
  }

  method CopyInto(src: seq<Byte>, dst: array<Byte>)
    requires |src| <= dst.Length
    modifies dst
    ensures dst[..] == src + old(dst[..])[|src|..]
  {
    for i := 0 to |src|
      invariant dst[..] == src[..i] + old(dst[..])[i..]
    {
      dst[i] := src[i];
    }
  }
}
