/** Slabs: two-megabyte blocks cut into equal chunks, with an intrusive free list. */
module Slabs {
  import opened Items
  import opened Mask

  const SLAB_SIZE: nat := 0x20_0000
  const SLAB_HEADER: nat := 40      // chunk size, free list, bump pointer, free count, parent
  const ALIGNMENT: nat := 8

  function AlignUp(value: nat): nat {
    (value + ALIGNMENT - 1) / ALIGNMENT * ALIGNMENT
  }

  /** The least multiple of eight that is not below the value. */
  lemma AlignUpLeast(value: nat)
    ensures AlignUp(value) % 8 == 0 && value <= AlignUp(value) < value + 8
  {
  }

  lemma UsedChunk(used: nat, size: nat)
    requires size > 0
    ensures used * size / size == used && (used + 1) * size == used * size + size
  {
    ModuloUnique(used * size, size, used, 0);
  }

  ghost predicate Distinct(s: seq<nat>) {
    forall j, k | 0 <= j < k < |s| :: s[j] != s[k]
  }

  // The first `used` chunks are live or free, never both, and none is listed twice.
  ghost predicate Splits(live: set<nat>, free: seq<nat>, used: nat) {
    Distinct(free) && (forall i | i in free :: i !in live) && forall i: nat :: i < used <==> i in live || i in free
  }

  lemma PopSplits(live: set<nat>, free: seq<nat>, used: nat)
    requires Splits(live, free, used) && free != []
    ensures Splits(live + {free[0]}, free[1..], used) && free[0] !in live && free[0] < used
  {
    assert free == [free[0]] + free[1..];
  }

  lemma PushSplits(live: set<nat>, free: seq<nat>, used: nat, i: nat)
    requires Splits(live, free, used) && i in live
    ensures Splits(live - {i}, [i] + free, used)
  {
  }

  lemma BumpSplits(live: set<nat>, used: nat)
    requires Splits(live, [], used)
    ensures Splits(live + {used}, [], used + 1) && used !in live
  {
  }

  class Slab {
    const chunkSize: nat
    var chunks: seq<Item>            // the memory behind the header, chunk by chunk
    const parent: object             // the class this slab belongs to
    ghost const pos: nat             // and its position there
    var freeList: Item?
    var bump: nat                    // byte offset of the next never-used chunk
    var freeCount: nat
    ghost var free: seq<nat>         // the free list, as chunk indices
    ghost var used: nat              // chunks handed out by the bump pointer so far
    ghost var live: set<nat>         // chunks handed out and not freed since
    ghost var stackPos: nat          // where the class's stack holds this slab, if it does

    // Chunks are live, on the free list, or never used; the free list runs through word 0.
    ghost predicate Valid()
      reads this`chunks, this`used, this`bump, this`free, this`live, this`freeCount, this`freeList
      reads chunks`word0, chunks`dataSize
    {
      Cut() && Partitioned() && freeCount == |free| + (|chunks| - used) && Linked() && Headed(live)
    }

    ghost predicate Partitioned()
      reads this`chunks, this`used, this`bump, this`free, this`live
    {
      used <= |chunks| && bump == used * chunkSize && Splits(live, free, used)
    }

    ghost predicate Linked()
      reads this`chunks, this`free, this`freeList, chunks`word0
    {
      freeList == Next(0) && forall j | 0 <= j < |free| :: LinkAt(j)
    }

    ghost predicate LinkAt(j: nat)
      requires j < |free|
      reads this`free, this`chunks, chunks`word0
    {
      free[j] < |chunks| && chunks[free[j]].word0 == Next(j + 1)
    }

    // Live chunks carry their header.
    ghost predicate Headed(s: set<nat>)
      reads this`chunks, chunks`word0, chunks`dataSize
    {
      forall i | i in s :: i < |chunks| && chunks[i].word0 == this && chunks[i].dataSize == chunks[i].room
    }

    ghost predicate Cut()
      reads this`chunks
    {
      ITEM_SIZE < chunkSize <= SLAB_SIZE - SLAB_HEADER &&
      |chunks| == (SLAB_SIZE - SLAB_HEADER) / chunkSize &&
      forall i | 0 <= i < |chunks| ::
        chunks[i].owner == parent && chunks[i].slab == this && chunks[i].index == i &&
          chunks[i].room == chunkSize - ITEM_SIZE
    }

    ghost function Next(j: nat): Item?
      reads this`free, this`chunks
    {
      if j < |free| && free[j] < |chunks| then chunks[free[j]] else null
    }

    constructor (dataChunkSize: nat, parent: object, ghost pos: nat)
      requires ITEM_SIZE < dataChunkSize && AlignUp(dataChunkSize) <= SLAB_SIZE - SLAB_HEADER
      ensures Valid() && Cut() && chunkSize == AlignUp(dataChunkSize) && this.parent == parent && this.pos == pos
      ensures live == {} && free == [] && used == 0 && freeCount == |chunks| == (0x20_0000 - 40) / chunkSize > 0
      ensures forall i | 0 <= i < |chunks| :: fresh(chunks[i]) && |chunks[i].data| == chunks[i].room
    {
      var size := AlignUp(dataChunkSize);
      chunkSize := size;
      this.parent, this.pos := parent, pos;
      chunks := [];
      freeList, bump := null, 0;
      freeCount := (SLAB_SIZE - SLAB_HEADER) / size;
      free, used, live, stackPos := [], 0, {}, 0;
      new;
      for i := 0 to freeCount
        invariant |chunks| == i && freeList == null && bump == 0 && freeCount == (SLAB_SIZE - SLAB_HEADER) / size
        invariant free == [] && used == 0 && live == {}
        invariant forall j | 0 <= j < i ::
          fresh(chunks[j]) && chunks[j].owner == parent && chunks[j].slab == this && chunks[j].index == j &&
          chunks[j].room == size - ITEM_SIZE && |chunks[j].data| == chunks[j].room
      {
        var chunk := new Item(size - ITEM_SIZE, parent, this, i);
        chunks := chunks + [chunk];
      }
    }

    method TakeFree() returns (item: Item)
      requires Valid() && free != []
      modifies this`freeList, this`free, this`live
      ensures Partitioned() && Linked() && Headed(old(live))
      ensures free == old(free)[1..] && live == old(live) + {old(free)[0]} && old(free)[0] !in old(live)
      ensures old(free)[0] < |chunks| && item == chunks[old(free)[0]]
    {
      hide Splits;
      PopSplits(live, free, used);
      item := freeList;
      assert LinkAt(0);
      freeList := item.word0 as Item?;
      live, free := live + {free[0]}, free[1..];
      forall j | 0 <= j < |free|
        ensures LinkAt(j)
      {
        assert old(LinkAt(j + 1));
      }
    }

    method TakeFresh() returns (item: Item)
      requires Valid() && free == [] && freeCount > 0
      modifies this`bump, this`used, this`live
      ensures Partitioned() && Linked() && Headed(old(live))
      ensures live == old(live) + {old(used)} && used == old(used) + 1 && old(used) !in old(live)
      ensures old(used) < |chunks| && item == chunks[old(used)]
    {
      hide Splits;
      BumpSplits(live, used);
      UsedChunk(used, chunkSize);
      item := chunks[bump / chunkSize];
      bump := bump + chunkSize;
      live, used := live + {used}, used + 1;
    }

    method AllocItem() returns (item: Item?)
      requires Valid()
      modifies this`freeList, this`bump, this`freeCount, this`free, this`used, this`live, chunks`word0, chunks`dataSize
      ensures Valid()
      ensures old(freeCount) == 0 ==> item == null && live == old(live) && freeCount == 0
      ensures old(freeCount) > 0 ==>
        item != null && item.slab == this && item.index < |chunks| && chunks[item.index] == item &&
        item.index !in old(live) && live == old(live) + {item.index} && freeCount == old(freeCount) - 1 &&
        item.dataSize == item.room
      ensures old(freeCount) > 0 ==>
        if old(free) != [] then item.index == old(free)[0] && free == old(free)[1..] && used == old(used)
        else item.index == old(used) && free == [] && used == old(used) + 1
      ensures forall c | c in chunks && c != item :: c.word0 == old(c.word0) && c.dataSize == old(c.dataSize)
    {
      hide Splits;
      if freeCount == 0 {
        return null;
      }
      assert free != [] ==> LinkAt(0);
      if freeList != null {
        item := TakeFree();
      } else {
        item := TakeFresh();
      }
      freeCount := freeCount - 1;
      StampHeader(item);
    }

    // Write the header of a chunk that has just become live.
    method StampHeader(item: Item)
      requires Cut() && Partitioned() && Linked() && item.index in live && item.index < |chunks| &&
        chunks[item.index] == item
      requires Headed(live - {item.index})
      modifies item`word0, item`dataSize
      ensures Linked() && Headed(live)
    {
      item.word0 := this;
      item.dataSize := chunkSize - ITEM_SIZE;
      forall j | 0 <= j < |free|
        ensures LinkAt(j)
      {
        assert old(LinkAt(j)) && free[j] in free;
      }
    }

    // Push a live chunk on the free list, overwriting its word 0.
    method FreeItem(item: Item)
      requires Valid() && item.index in live && item.index < |chunks| && chunks[item.index] == item
      modifies this`freeList, this`freeCount, this`free, this`live, item`word0
      ensures Valid()
      ensures free == [item.index] + old(free) && live == old(live) - {item.index} && freeCount == old(freeCount) + 1
    {
      hide Splits;
      PushSplits(live, free, used, item.index);
      item.word0 := freeList;
      freeList := item;
      freeCount := freeCount + 1;
      live, free := live - {item.index}, [item.index] + free;
      forall j | 0 <= j < |free|
        ensures LinkAt(j)
      {
        if j > 0 {
          assert old(LinkAt(j - 1)) && free[j] in old(free);
        }
      }
    }

    // ---- addresses

    ghost function Address(i: nat): nat {
      SLAB_HEADER + i * chunkSize
    }

    lemma InsideSlab(i: nat)
      requires Cut() && i < |chunks|
      ensures SLAB_HEADER <= Address(i) && Address(i) + chunkSize <= SLAB_SIZE
    {
      WholeMultiple(SLAB_SIZE - SLAB_HEADER, chunkSize, i);
    }

    lemma ChunksDisjoint(i: nat, j: nat)
      requires Cut() && i < j < |chunks|
      ensures Address(i) + chunkSize <= Address(j)
    {
      Spread(i, j, chunkSize);
    }
  }

  lemma {:induction false} Spread(i: nat, j: nat, size: nat)
    requires i < j
    ensures i * size + size <= j * size
  {
    if i + 1 < j {
      Spread(i, j - 1, size);
      assert (j - 1) * size + size == j * size;
    } else {
      assert (i + 1) * size == i * size + size;
    }
  }

  lemma WholeMultiple(total: nat, size: nat, i: nat)
    requires size > 0 && i < total / size
    ensures (i + 1) * size <= total && (i + 1) * size == i * size + size
  {
    Euclid(total, size);
    var rest := total / size - i - 1;
    assert total / size * size == (i + 1) * size + rest * size;
    assert rest * size >= 0;
  }
}
