/** Size classes, each a set of slabs with a stack of those that have room, and the allocator over them. */
module Allocators {
  import opened Bytes
  import opened Items
  import opened Slabs
  import opened SizeClasses

  const INITIAL_CAP: nat := 8

  ghost function SlabsOf(item: Item): set<Slab> {
    if item.slab is Slab then {item.slab as Slab} else {}
  }

  // The item's chunk has been handed out and not freed since.
  ghost predicate IsLive(item: Item)
    reads SlabsOf(item)`live
  {
    exists slab | slab in SlabsOf(item) :: item.index in slab.live
  }

  class SlabClass {
    const dataChunkSize: nat
    var slabsCap: nat
    var slabs: seq<Slab>          // the filled part of the slab array
    var freeStack: seq<Slab>      // the filled part of the stack of slabs with free chunks, of the same capacity
    ghost var items: set<Item>    // every chunk of every slab

    ghost predicate Valid()
      reads this`slabsCap, this`slabs, this`freeStack, this`items
      reads slabs`chunks, slabs`used, slabs`bump, slabs`free, slabs`live, slabs`freeCount, slabs`freeList
      reads slabs`stackPos
      reads items`word0, items`dataSize
    {
      Sized() && Owned() && Stacked() && SlabsValid()
    }

    ghost predicate SlabsValid()
      requires Owned()
      reads this`slabs, this`items
      reads slabs`chunks, slabs`used, slabs`bump, slabs`free, slabs`live, slabs`freeCount, slabs`freeList
      reads items`word0, items`dataSize
    {
      forall i | 0 <= i < |slabs| :: slabs[i].Valid()
    }

    ghost predicate Sized()
      reads this`slabsCap, this`slabs, this`freeStack
    {
      MIN_CHUNK <= dataChunkSize <= MAX_CHUNK && Aligned(dataChunkSize) &&
      INITIAL_CAP <= slabsCap && |slabs| <= slabsCap && |freeStack| <= |slabs|
    }

    // Slabs and chunks know their place.
    ghost predicate Owned()
      reads this`slabs, this`items, slabs`chunks
    {
      (forall i | 0 <= i < |slabs| :: slabs[i].pos == i && slabs[i].parent == this &&
        slabs[i].chunkSize == dataChunkSize && slabs[i].Cut()) &&
      (forall i, k | 0 <= i < |slabs| && 0 <= k < |slabs[i].chunks| :: slabs[i].chunks[k] in items) &&
      (forall item | item in items :: ItemOwned(item))
    }

    ghost predicate ItemOwned(item: Item)
      reads this`slabs, slabs`chunks
    {
      item.owner == this && item.slab is Slab && InSlab(item.slab as Slab, item)
    }

    ghost predicate InSlab(slab: Slab, item: Item)
      reads this`slabs, slabs`chunks
    {
      slab.pos < |slabs| && slabs[slab.pos] == slab && item.index < |slab.chunks| && slab.chunks[item.index] == item
    }

    // The stack lists each slab with a free chunk once, and no other.
    ghost predicate Stacked()
      reads this`slabs, this`freeStack, slabs`freeCount, slabs`stackPos
    {
      (forall j | 0 <= j < |freeStack| :: OnStack(j)) &&
      (forall i | 0 <= i < |slabs| && slabs[i].freeCount > 0 :: slabs[i].stackPos < |freeStack| &&
        freeStack[slabs[i].stackPos] == slabs[i])
    }

    ghost predicate OnStack(j: nat)
      requires j < |freeStack|
      reads this`slabs, this`freeStack, slabs`freeCount, slabs`stackPos
    {
      var slab := freeStack[j];
      slab.pos < |slabs| && slabs[slab.pos] == slab && slab.stackPos == j && slab.freeCount > 0
    }

    constructor (chunkSize: nat)
      requires MIN_CHUNK <= chunkSize <= MAX_CHUNK && Aligned(chunkSize)
      ensures Valid() && dataChunkSize == chunkSize && slabsCap == 8 && items == {} && slabs == []
    {
      dataChunkSize := chunkSize;
      slabsCap, slabs, freeStack, items := INITIAL_CAP, [], [], {};
    }

    // Make room in both arrays, half as much again.
    method GrowSlabs()
      requires Valid()
      modifies this`slabsCap
      ensures Valid() && slabsCap == old(slabsCap) + old(slabsCap) / 2 > old(slabsCap)
    {
      slabsCap := slabsCap + slabsCap / 2;
    }

    // Add an unused slab when no slab has room.
    method Grow()
      requires Valid() && freeStack == []
      modifies this`slabsCap, this`slabs, this`freeStack, this`items
      ensures Valid() && |slabs| == old(|slabs|) + 1 && slabs[..old(|slabs|)] == old(slabs) &&
        freeStack == [slabs[old(|slabs|)]]
      ensures fresh(slabs[old(|slabs|)]) && forall x | x in old(items) :: IsLive(x) == old(IsLive(x))
      ensures old(items) <= items && forall item | item in items && item !in old(items) ::
        fresh(item) && !IsLive(item) && |item.data| == item.room
    {
      hide Slab.Valid, SlabClass.Owned, SlabClass.Stacked;
      if |slabs| == slabsCap {
        GrowSlabs();
      }
      AlignedSize(dataChunkSize);
      var slab := new Slab(dataChunkSize, this, |slabs|);
      AddSlab(slab);
    }

    method AddSlab(slab: Slab)
      requires Valid() && freeStack == [] && |slabs| < slabsCap
      requires slab.Valid() && slab.Cut() && slab.pos == |slabs| && slab.parent == this &&
        slab.chunkSize == dataChunkSize
      requires slab.freeCount > 0 && slab.live == {}
      modifies this`slabs, this`freeStack, this`items, slab`stackPos
      ensures Valid() && slabs == old(slabs) + [slab] && freeStack == [slab]
      ensures items == old(items) + set c | c in slab.chunks
    {
      hide Slab.Valid;
      slabs := slabs + [slab];
      freeStack := [slab];
      slab.stackPos := 0;
      items := items + set c | c in slab.chunks;
      forall i | 0 <= i < |slabs|
        ensures slabs[i].Valid() && slabs[i].pos == i && slabs[i].parent == this &&
          slabs[i].chunkSize == dataChunkSize && slabs[i].Cut()
      {
        assert i < |slabs| - 1 ==> slabs[i] == old(slabs[i]);
      }
      forall item | item in items
        ensures ItemOwned(item)
      {
        assert item in old(items) ==> old(ItemOwned(item));
      }
      assert OnStack(0);
    }

    // A chunk of the class, from the slab on top of the stack, and from a new slab when the stack is empty; a class
    // never fails to provide one.
    method AllocItem() returns (item: Item)
      requires Valid()
      modifies this`slabsCap, this`slabs, this`freeStack, this`items
      modifies slabs`freeList, slabs`bump, slabs`freeCount, slabs`free, slabs`used, slabs`live
      modifies items`word0, items`dataSize
      ensures Valid() && (forall x | x in items :: x.owner == this && HeldBySlab(x)) && forall s | s in slabs ::
        s in old(slabs) || fresh(s)
      ensures old(items) <= items && item in items && IsLive(item) &&
        item.dataSize == item.room == dataChunkSize - ITEM_SIZE
      ensures item in old(items) ==> !old(IsLive(item))
      ensures if old(freeStack) != [] then slabs == old(slabs) && item.slab == old(freeStack)[old(|freeStack|) - 1]
        else |slabs| == old(|slabs|) + 1 && slabs[..old(|slabs|)] == old(slabs) && item.slab == slabs[old(|slabs|)]
      ensures forall x | x in old(items) && x != item :: IsLive(x) == old(IsLive(x)) && x.dataSize == old(x.dataSize)
      ensures forall x | x in items && x !in old(items) :: fresh(x) && (x != item ==> !IsLive(x)) && |x.data| == x.room
    {
      hide Slab.Valid, IsLive, SlabClass.Valid;
      if freeStack == [] {
        Grow();
        assert forall s | s in slabs :: s in slabs[..old(|slabs|)] || s == slabs[old(|slabs|)];
      }
      assert forall s | s in slabs :: s in old(slabs) || fresh(s);
      forall x | x in items
        ensures x in old(items) || fresh(x)
      {
        assert x in old(items) || x in items - old(items);
      }
      item := AllocFromTop();
      Owns();
    }

    method AllocFromTop() returns (item: Item)
      requires Valid() && freeStack != []
      modifies this`freeStack
      modifies slabs`freeList, slabs`bump, slabs`freeCount, slabs`free, slabs`used, slabs`live
      modifies items`word0, items`dataSize
      ensures Valid() && item.slab == old(freeStack)[old(|freeStack|) - 1]
      ensures item in items && IsLive(item) && !old(IsLive(item)) &&
        item.dataSize == item.room == dataChunkSize - ITEM_SIZE
      ensures forall x | x in items && x != item :: IsLive(x) == old(IsLive(x)) && x.dataSize == old(x.dataSize)
    {
      hide Slab.Valid, IsLive, SlabClass.SlabsValid, SlabClass.Owned;
      var slab := freeStack[|freeStack| - 1];
      assert OnStack(|freeStack| - 1);
      item := AllocFrom(slab);
      if slab.freeCount == 0 {
        freeStack := freeStack[..|freeStack| - 1];
      }
      forall j | 0 <= j < |freeStack|
        ensures OnStack(j)
      {
        assert old(OnStack(j));
      }
    }

    // Take a chunk of one slab; only that slab changes.
    method AllocFrom(slab: Slab) returns (item: Item)
      requires Owned() && SlabsValid() && slab.pos < |slabs| && slabs[slab.pos] == slab && slab.freeCount > 0
      modifies slab`freeList, slab`bump, slab`freeCount, slab`free, slab`used, slab`live
      modifies items`word0, items`dataSize
      ensures Owned() && SlabsValid() && slab.freeCount == old(slab.freeCount) - 1 && item.slab == slab
      ensures item in items && IsLive(item) && !old(IsLive(item)) &&
        item.dataSize == item.room == dataChunkSize - ITEM_SIZE
      ensures forall x | x in items && x != item :: IsLive(x) == old(IsLive(x)) && x.dataSize == old(x.dataSize)
    {
      hide Slab.Valid;
      item := slab.AllocItem();
      forall i | 0 <= i < |slabs|
        ensures slabs[i].Valid()
      {
        if slabs[i] != slab {
          assert old(slabs[i].Valid());
        }
      }
      forall x | x in items
        ensures ItemOwned(x) && (x != item ==> IsLive(x) == old(IsLive(x)) && x.dataSize == old(x.dataSize))
      {
        assert old(ItemOwned(x));
      }
    }

    // A slab that has just regained its first free chunk goes back on the stack; it never overflows.
    method FreeItem(slab: Slab)
      requires Sized() && Owned() && SlabsValid() && slab.pos < |slabs| && slabs[slab.pos] == slab
      requires StackedExcept(slab) && slab.freeCount > 0
      modifies this`freeStack, slab`stackPos
      ensures Valid() && freeStack == if slab.freeCount == 1 then old(freeStack) + [slab] else old(freeStack)
    {
      hide SlabClass.SlabsValid, SlabClass.Owned, SlabClass.Stacked, SlabClass.StackedExcept, SlabClass.OnStack;
      if slab.freeCount == 1 {
        StackHasRoom(slab);
        assert |freeStack| < slabsCap;
        Push(slab);
      } else {
        StillStacked(slab);
      }
    }

    method Push(slab: Slab)
      requires slab.pos < |slabs| && slabs[slab.pos] == slab && StackedExcept(slab) && slab.freeCount == 1
      modifies this`freeStack, slab`stackPos
      ensures Stacked() && freeStack == old(freeStack) + [slab]
    {
      slab.stackPos := |freeStack|;
      freeStack := freeStack + [slab];
      forall j | 0 <= j < |freeStack|
        ensures OnStack(j)
      {
        if j < old(|freeStack|) {
          assert old(OnStack(j)) && old(freeStack)[j] in old(freeStack);
        }
      }
      forall i | 0 <= i < |slabs| && slabs[i].freeCount > 0
        ensures slabs[i].stackPos < |freeStack| && freeStack[slabs[i].stackPos] == slabs[i]
      {
        assert slabs[i] != slab ==> slabs[i].stackPos == old(slabs[i].stackPos);
      }
    }

    lemma StillStacked(slab: Slab)
      requires StackedExcept(slab) && slab.freeCount > 1
      ensures Stacked()
    {
    }

    // Free a live chunk: it goes on its slab's free list, and the slab on the stack if it was full.
    method Release(slab: Slab, item: Item)
      requires Valid() && item in items && IsLive(item) && item.slab == slab
      modifies this`freeStack
      modifies slab`freeList, slab`freeCount, slab`free, slab`live, slab`stackPos, item`word0
      ensures Valid() && !IsLive(item)
      ensures forall x | x in items && x != item :: IsLive(x) == old(IsLive(x))
    {
      hide Slab.Valid, SlabClass.Stacked, SlabClass.OnStack;
      assert ItemOwned(item);
      ReleaseChunk(slab, item);
      FreeItem(slab);
    }

    method ReleaseChunk(slab: Slab, item: Item)
      requires Valid() && item in items && ItemOwned(item) && IsLive(item) && item.slab == slab
      modifies slab`freeList, slab`freeCount, slab`free, slab`live, item`word0
      ensures Owned() && SlabsValid() && StackedExcept(slab) && slab.freeCount > 0 && !IsLive(item)
      ensures forall x | x in items && x != item :: IsLive(x) == old(IsLive(x))
    {
      hide Slab.Valid;
      slab.FreeItem(item);
      forall i | 0 <= i < |slabs|
        ensures slabs[i].Valid()
      {
        if slabs[i] != slab {
          assert old(slabs[i].Valid());
        }
      }
      forall x | x in items
        ensures ItemOwned(x) && (x != item ==> IsLive(x) == old(IsLive(x)))
      {
        assert old(ItemOwned(x));
      }
      assert !IsLive(item);
      forall j | 0 <= j < |freeStack|
        ensures OnStack(j) && (slab.freeCount == 1 ==> freeStack[j] != slab)
      {
        assert old(OnStack(j));
      }
    }

    // The stack as it stood before one more chunk of the slab was freed.
    ghost predicate StackedExcept(slab: Slab)
      reads this`slabs, this`freeStack, slabs`freeCount, slabs`stackPos
    {
      (forall j | 0 <= j < |freeStack| :: OnStack(j)) &&
      (forall i | 0 <= i < |slabs| && slabs[i].freeCount > 0 && (slabs[i] != slab || slab.freeCount > 1) ::
        slabs[i].stackPos < |freeStack| && freeStack[slabs[i].stackPos] == slabs[i]) &&
      (slab in slabs && slab.freeCount == 1 ==> slab !in freeStack)
    }

    ghost predicate HeldBySlab(x: Item)
      reads this`slabs
    {
      x.slab is Slab && x.slab as Slab in slabs
    }

    lemma Owns()
      requires Valid()
      ensures forall x | x in items :: x.owner == this && HeldBySlab(x)
    {
      assert forall x | x in items :: ItemOwned(x);
    }

    // A live chunk's word 0 leads back to its slab, and from there to this class.
    lemma LiveHeader(item: Item)
      requires Valid() && item in items && IsLive(item)
      ensures item.slab is Slab && item.word0 == item.slab && (item.slab as Slab).parent == this
      ensures item.slab as Slab in slabs && item.dataSize == item.room
    {
      assert ItemOwned(item);
      assert slabs[(item.slab as Slab).pos].Valid();
    }

    // Room for one more: the stacked slabs and this one are distinct members of the slab array.
    lemma StackHasRoom(slab: Slab)
      requires Sized() && StackedExcept(slab) && slab.pos < |slabs| && slabs[slab.pos] == slab && slab.freeCount == 1
      ensures |freeStack| < |slabs|
    {
      var stacked := freeStack + [slab];
      forall j, k | 0 <= j < k < |stacked|
        ensures stacked[j] != stacked[k]
      {
        assert OnStack(j);
        if k < |freeStack| {
          assert OnStack(k);
        } else {
          assert freeStack[j] in freeStack;
        }
      }
      forall s | s in stacked
        ensures s in slabs
      {
        if s != slab {
          var j :| 0 <= j < |freeStack| && freeStack[j] == s;
          assert OnStack(j);
        }
      }
      DistinctFits(stacked, slabs);
    }
  }

  class Allocator {
    var classes: seq<SlabClass>
    ghost var sizes: seq<nat>    // the class sizes
    ghost var slabs: set<Slab>   // of all classes
    ghost var items: set<Item>   // chunks of all classes
    ghost var live: set<Item>    // those handed out and not freed since

    ghost predicate Valid()
      reads this, classes`slabsCap, classes`slabs, classes`freeStack, classes`items
      reads slabs`chunks, slabs`used, slabs`bump, slabs`free, slabs`live, slabs`freeCount, slabs`freeList
      reads slabs`stackPos
      reads items`word0, items`dataSize
    {
      Configured() && Covering() && Tracks() && forall i | 0 <= i < |classes| :: classes[i].Valid()
    }

    ghost predicate Configured()
      reads this`classes, this`sizes
    {
      Ladder(sizes) && |classes| == |sizes| &&
      (forall i | 0 <= i < |classes| :: classes[i].dataChunkSize == sizes[i]) &&
      (forall i, j | 0 <= i < j < |classes| :: classes[i] != classes[j])
    }

    ghost predicate Covering()
      reads this`classes, this`slabs, this`items, classes`slabs, classes`items
    {
      (forall i, s | 0 <= i < |classes| && s in classes[i].slabs :: s in slabs) &&
      (forall i | 0 <= i < |classes| :: classes[i].items <= items) &&
      forall item | item in items :: item.owner is SlabClass && item.owner as SlabClass in classes &&
        item in (item.owner as SlabClass).items &&
        item.slab is Slab && item.slab as Slab in slabs
    }

    ghost predicate Tracks()
      reads this`items, this`live, this`slabs, slabs`live
    {
      live <= items &&
      forall x | x in items :: x.slab is Slab && x.slab as Slab in slabs && (x in live <==> LiveNow(x))
    }

    constructor ()
      ensures Valid() && items == {} && slabs == {} && live == {} && fresh(classes)
    {
      new;
      hide SlabClass.Valid, Ladder;
      var made, ladder := MakeClasses();
      slabs, items, live, classes, sizes := {}, {}, {}, made, ladder;
    }

    static method MakeClasses() returns (made: seq<SlabClass>, ghost ladder: seq<nat>)
      ensures Ladder(ladder) && |made| == |ladder|
      ensures forall k | 0 <= k < |made| ::
        fresh(made[k]) && made[k].Valid() && made[k].dataChunkSize == ladder[k] && made[k].items == {} &&
        made[k].slabs == []
      ensures forall k, l | 0 <= k < l < |made| :: made[k] != made[l]
    {
      hide SlabClass.Valid;
      var num;
      num, ladder := CountSlabClasses();
      ClimbGrows(ladder);
      var chunkSize := MIN_CHUNK;
      made := [];
      for i := 0 to num
        invariant |made| == i && (i < num ==> chunkSize == ladder[i])
        invariant forall k | 0 <= k < i ::
          fresh(made[k]) && made[k].Valid() && made[k].dataChunkSize == ladder[k] && made[k].items == {} &&
          made[k].slabs == []
        invariant forall k, l | 0 <= k < l < i :: made[k] != made[l]
      {
        var class_ := new SlabClass(chunkSize);
        made := made + [class_];
        assert i + 1 < num ==> StepAt(ladder, i);
        chunkSize := NextChunkSize(chunkSize);
      }
    }

    ghost function ClassOf(item: Item): (k: nat)
      requires Covering() && item in items
      reads this`classes, this`slabs, this`items, classes`slabs, classes`items
      ensures k < |classes| && item.owner == classes[k] && item in classes[k].items
    {
      var k: nat :| k < |classes| && classes[k] == item.owner;
      k
    }

    // Classes share neither slabs nor chunks, and a chunk's slab belongs to the class that owns it.
    lemma Separate(k: nat)
      requires Valid() && k < |classes|
      ensures forall i, j, l | 0 <= i < |classes| && i != k && 0 <= j < |classes[i].slabs| &&
        0 <= l < |classes[k].slabs| ::
        classes[i].slabs[j] != classes[k].slabs[l]
      ensures forall i | 0 <= i < |classes| && i != k :: classes[i] != classes[k]
      ensures forall i, x | 0 <= i < |classes| && i != k && x in classes[i].items :: x !in classes[k].items
      ensures forall x, s, j | x in items && x !in classes[k].items && s in SlabsOf(x) && 0 <= j < |classes[k].slabs| ::
        classes[k].slabs[j] != s
      ensures forall x, s | x in items && s in SlabsOf(x) :: s in slabs
    {
      hide Ladder, SlabClass.Sized, SlabClass.Stacked, SlabClass.SlabsValid;
      assert forall i, j | 0 <= i < |classes| && 0 <= j < |classes[i].slabs| ::
        classes[i].slabs[j].parent == classes[i];
      forall i, x | 0 <= i < |classes| && i != k && x in classes[i].items
        ensures x !in classes[k].items
      {
        classes[i].Owns();
        classes[k].Owns();
      }
      forall x, s | x in items && s in SlabsOf(x)
        ensures s in slabs && (x !in classes[k].items ==> s.parent != classes[k])
      {
        var own := x.owner as SlabClass;
        assert own.ItemOwned(x);
        assert s in own.slabs;
      }
    }

    // Binary search for the first class that fits.
    method FindClass(size: nat) returns (left: nat)
      requires Configured()
      ensures LeastFit(sizes, size, left) && Ladder(sizes) && |sizes| == |classes|
    {
      ClimbGrows(sizes);
      left := 0;
      var right := |classes|;
      while left < right
        invariant left <= right <= |classes|
        invariant forall i | 0 <= i < left :: sizes[i] < size
        invariant forall i | right <= i < |classes| :: size <= sizes[i]
      {
        var mid := left + (right - left) / 2;
        if classes[mid].dataChunkSize < size {
          left := mid + 1;
        } else {
          right := mid;
        }
      }
    }

    lemma LiveBelow()
      requires Valid()
      ensures live <= items
    {
    }

    // A chunk with room for `dataLen` bytes, or none for empty and for oversized requests; sums wrap at 64 bits.
    method AllocItem(dataLen: nat) returns (item: Item?)
      requires Valid()
      modifies this`slabs, this`items, this`live, classes`slabsCap, classes`slabs, classes`freeStack, classes`items
      modifies slabs`freeList, slabs`bump, slabs`freeCount, slabs`free, slabs`used, slabs`live
      modifies items`word0, items`dataSize
      ensures Valid() && fresh(slabs - old(slabs)) && fresh(items - old(items))
      ensures item == null <==> dataLen == 0 || (dataLen + 24) % 0x1_0000_0000_0000_0000 > 0x8_0000
      ensures item == null ==> items == old(items) && live == old(live)
      ensures item != null ==> item !in old(live) && live == old(live) + {item} && Fits(item, sizes, Total(dataLen))
      ensures old(items) <= items && live <= items
      ensures forall x | x in old(items) && x != item :: x.dataSize == old(x.dataSize)
      ensures forall x | x in items && x !in old(items) :: |x.data| == x.room
    {
      hide SlabClass.Valid, Allocator.Covering, Allocator.Tracks, Ladder, LeastFit;
      LiveBelow();
      var size := Total(dataLen);
      if dataLen == 0 || size > MAX_CHUNK {
        return null;
      }
      var k := FindClass(size);
      FitIsTight(sizes, size, k);
      if k == |classes| {
        return null;
      }
      item := AllocFromClass(k);
    }

    method AllocFromClass(k: nat) returns (item: Item)
      requires Valid() && k < |classes|
      modifies this`slabs, this`items, this`live, classes`slabsCap, classes`slabs, classes`freeStack, classes`items
      modifies slabs`freeList, slabs`bump, slabs`freeCount, slabs`free, slabs`used, slabs`live
      modifies items`word0, items`dataSize
      ensures Valid() && fresh(slabs - old(slabs)) && fresh(items - old(items))
      ensures item !in old(live) && live == old(live) + {item} && item.dataSize == item.room == sizes[k] - ITEM_SIZE
      ensures old(items) <= items && live <= items
      ensures forall x | x in old(items) && x != item :: x.dataSize == old(x.dataSize)
      ensures forall x | x in items && x !in old(items) :: |x.data| == x.room
    {
      hide SlabClass.Valid, Ladder, IsLive;
      item := TakeFromClass(k);
      Absorb(k, item);
      assert forall i | 0 <= i < |classes| :: classes[i].Valid();
    }

    // Count in what one class has gained.
    ghost method Absorb(k: nat, item: Item)
      requires Configured() && k < |classes| && live <= items && item in classes[k].items
      requires forall i, s | 0 <= i < |classes| && i != k && s in classes[i].slabs :: s in slabs
      requires forall i | 0 <= i < |classes| && i != k :: classes[i].items <= items
      requires forall x | x in items || x in classes[k].items ::
        x.slab is Slab && (LiveNow(x) <==> x in live || x == item)
      requires forall x | x in items :: x.slab as Slab in slabs && (x.owner == classes[k] ==> x in classes[k].items)
      requires forall x | x in items ::
        x.owner is SlabClass && x.owner as SlabClass in classes && x in (x.owner as SlabClass).items
      requires forall x | x in classes[k].items :: x.slab as Slab in classes[k].slabs && x.owner == classes[k]
      modifies this`slabs, this`items, this`live
      ensures Configured() && Covering() && Tracks()
      ensures slabs == old(slabs) + (set s | s in classes[k].slabs) && items == old(items) + classes[k].items &&
        live == old(live) + {item}
    {
      slabs := slabs + set s | s in classes[k].slabs;
      items := items + classes[k].items;
      live := live + {item};
    }

    ghost predicate LiveNow(x: Item)
      requires x.slab is Slab
      reads (x.slab as Slab)`live
    {
      x.index in (x.slab as Slab).live
    }

    method TakeFromClass(k: nat) returns (item: Item)
      requires Valid() && k < |classes|
      modifies classes`slabsCap, classes`slabs, classes`freeStack, classes`items
      modifies slabs`freeList, slabs`bump, slabs`freeCount, slabs`free, slabs`used, slabs`live
      modifies items`word0, items`dataSize
      ensures forall i | 0 <= i < |classes| :: classes[i].Valid()
      ensures forall s | s in classes[k].slabs :: s in slabs || fresh(s)
      ensures forall i | 0 <= i < |classes| && i != k ::
        classes[i].slabs == old(classes[i].slabs) && classes[i].items == old(classes[i].items)
      ensures old(classes[k].items) <= classes[k].items && forall x | x in classes[k].items ::
        x.owner == classes[k] && classes[k].HeldBySlab(x)
      ensures item in classes[k].items && item !in live && item.dataSize == item.room == sizes[k] - ITEM_SIZE
      ensures forall x | x in items || x in classes[k].items ::
        x.slab is Slab && (LiveNow(x) <==> x in live || x == item)
      ensures forall x | x in items && x != item :: x.dataSize == old(x.dataSize)
      ensures forall x | x in classes[k].items && x !in items :: fresh(x) && |x.data| == x.room
    {
      hide SlabClass.Valid, Ladder;
      Separate(k);
      item := classes[k].AllocItem();
      forall x | x in items || x in classes[k].items
        ensures x.slab is Slab && (LiveNow(x) <==> x in live || x == item)
      {
        if x in items && x !in old(classes[k].items) {
          assert x.slab as Slab in SlabsOf(x) && (x.slab as Slab).live == old((x.slab as Slab).live);
        }
      }
      forall i | 0 <= i < |classes|
        ensures classes[i].Valid()
      {
        assert i != k ==> old(classes[i].Valid());
      }
    }

    // Free a live chunk, found through its word 0.
    method FreeItem(item: Item)
      requires Valid() && item in live
      modifies this`live, classes`freeStack
      modifies slabs`freeList, slabs`freeCount, slabs`free, slabs`live, slabs`stackPos, item`word0
      ensures Valid() && live == old(live) - {item} && live <= items
    {
      hide SlabClass.Valid, Ladder, Allocator.Configured;
      ghost var k := ClassOf(item);
      Separate(k);
      classes[k].LiveHeader(item);
      var slab := item.word0 as Slab;
      (slab.parent as SlabClass).Release(slab, item);
      live := live - {item};
      forall x | x in items && x !in classes[k].items
        ensures IsLive(x) == old(IsLive(x))
      {
        assert forall s | s in SlabsOf(x) :: s.live == old(s.live);
      }
      forall i | 0 <= i < |classes|
        ensures classes[i].Valid()
      {
        assert i != k ==> old(classes[i].Valid());
      }
    }
  }

  // The sum of the request and the header, in 64 bits.
  function Total(dataLen: nat): nat {
    (dataLen + ITEM_SIZE) % (SIZE_MAX + 1)
  }

  // A chunk of the least class for `size` bytes; above 48 bytes at most a quarter and seven bytes are wasted.
  ghost predicate Fits(item: Item, sizes: seq<nat>, size: nat)
    reads item`dataSize
  {
    item.dataSize == item.room && size <= item.room + ITEM_SIZE <= MAX_CHUNK &&
    (size > MIN_CHUNK ==> 4 * (item.room + ITEM_SIZE) < 5 * size + 28) &&
    exists k: nat :: LeastFit(sizes, size, k) && k < |sizes| && sizes[k] == item.room + ITEM_SIZE
  }

  /** A granted chunk is of the least of the 42 sizes that has the room, and 25 bytes get one of 64. */
  lemma LeastChunk(item: Item, sizes: seq<nat>, size: nat)
    requires Ladder(sizes) && Fits(item, sizes, size)
    ensures |sizes| == 42 && item.dataSize + 24 in sizes && size <= item.dataSize + 24
    ensures forall c | c in sizes && size <= c :: item.dataSize + 24 <= c
    ensures size == 25 + 24 ==> item.dataSize == 40
  {
    hide Ladder, LeastFit;
    var k: nat :| LeastFit(sizes, size, k) && k < |sizes| && sizes[k] == item.room + ITEM_SIZE;
    LeastClass(sizes, size, k);
  }

  lemma LeastClass(sizes: seq<nat>, size: nat, k: nat)
    requires Ladder(sizes) && LeastFit(sizes, size, k) && k < |sizes|
    ensures |sizes| == 42 && forall c | c in sizes && size <= c :: sizes[k] <= c
    ensures size == 49 ==> sizes[k] == 64
  {
    hide Ladder;
    IsClimb(sizes);
    ClimbGrows(sizes);
    SecondClass(sizes);
    forall c | c in sizes && size <= c
      ensures sizes[k] <= c
    {
      var i :| 0 <= i < |sizes| && sizes[i] == c;
    }
  }

  lemma IsClimb(sizes: seq<nat>)
    requires Ladder(sizes)
    ensures Climb(sizes)
  {
  }

  lemma SecondClass(sizes: seq<nat>)
    requires Ladder(sizes)
    ensures |sizes| == 42 && sizes[0] == 48 && sizes[1] == 64
  {
    hide Ladder;
    FortyTwoClasses(sizes);
  }

  /** A granted chunk has the room asked for exactly when the sum with the header does not wrap. */
  lemma RoomExactlyWhen(item: Item, sizes: seq<nat>, dataLen: nat)
    requires 0 < dataLen <= SIZE_MAX && Fits(item, sizes, Total(dataLen))
    ensures dataLen <= item.dataSize <==> dataLen + ITEM_SIZE <= SIZE_MAX
  {
    if dataLen + ITEM_SIZE <= SIZE_MAX {
      assert Total(dataLen) == dataLen + ITEM_SIZE;
    }
  }

  // A request for the largest size wraps, and is granted a chunk that is far too small.
  method WrappedRequest() returns (alloc: Allocator, item: Item)
    ensures alloc.Valid() && item in alloc.live && item.dataSize < SIZE_MAX
  {
    hide Allocator.Valid;
    alloc := new Allocator();
    item := alloc.AllocItem(SIZE_MAX);
    RoomExactlyWhen(item, alloc.sizes, SIZE_MAX);
  }

  // A duplicate-free list of members of another list is no longer than it.
  lemma {:induction false} DistinctFits<T>(a: seq<T>, b: seq<T>)
    requires forall j, k | 0 <= j < k < |a| :: a[j] != a[k]
    requires forall x | x in a :: x in b
    ensures |a| <= |b|
  {
    if a != [] {
      var n := |a| - 1;
      assert a[n] in a;
      var i :| 0 <= i < |b| && b[i] == a[n];
      forall x | x in a[..n]
        ensures x in b[..i] + b[i + 1..]
      {
        assert x in a && x != b[i];
      }
      DistinctFits(a[..n], b[..i] + b[i + 1..]);
    }
  }

  lemma AlignedSize(size: nat)
    requires MIN_CHUNK <= size <= MAX_CHUNK && Aligned(size)
    ensures AlignUp(size) == size <= SLAB_SIZE - SLAB_HEADER
  {
  }

  // ---- runs

  datatype Request = Alloc(dataLen: nat) | Free(pos: nat)

  // The requests still held: those granted and not yet freed, in order.
  function Outstanding(lens: seq<nat>, req: Request): seq<nat> {
    match req
    case Alloc(n) => if n == 0 || Total(n) > MAX_CHUNK then lens else lens + [n]
    case Free(p) => if p < |lens| then lens[..p] + lens[p + 1..] else lens
  }

  function Outstandings(lens: seq<nat>, reqs: seq<Request>): seq<nat>
    decreases |reqs|
  {
    if reqs == [] then lens
    else Outstandings(Outstanding(lens, reqs[0]), reqs[1..])
  }

  /** What is held after one more request: a granted length joins at the end, a freed one is cut out of its place. */
  lemma {:induction false} OneMoreRequest(lens: seq<nat>, reqs: seq<Request>, req: Request)
    ensures Outstandings(lens, []) == lens
    ensures var held := Outstandings(lens, reqs);
      Outstandings(lens, reqs + [req]) ==
        match req
        case Alloc(n) => if n == 0 || (n + 24) % 0x1_0000_0000_0000_0000 > 0x8_0000 then held else held + [n]
        case Free(p) => if p < |held| then held[..p] + held[p + 1..] else held
    decreases |reqs|
  {
    if reqs == [] {
      assert [] + [req] == [req] && Outstandings(lens, [req]) == Outstandings(Outstanding(lens, req), []);
    } else {
      OneMoreRequest(Outstanding(lens, reqs[0]), reqs[1..], req);
      assert (reqs + [req])[1..] == reqs[1..] + [req];
    }
  }

  // The held chunks are exactly the live ones, each held once, with the room that was asked for.
  ghost predicate Holds(alloc: Allocator, held: seq<Item>, lens: seq<nat>)
    reads alloc`live, alloc.live`dataSize
  {
    |held| == |lens| &&
    (forall i, j | 0 <= i < j < |held| :: held[i] != held[j]) &&
    (forall i | 0 <= i < |held| :: held[i] in alloc.live && Room(held[i], lens[i])) &&
    forall x | x in alloc.live :: x in held
  }

  // Room for the wrapped sum of length and header, and for the length itself if the sum does not wrap.
  ghost predicate Room(item: Item, len: nat)
    reads item`dataSize
  {
    Total(len) <= item.dataSize + ITEM_SIZE && (len + ITEM_SIZE <= SIZE_MAX ==> len <= item.dataSize)
  }

  lemma RemoveHeld(live: set<Item>, held: seq<Item>, p: nat)
    requires p < |held| && (forall x | x in live :: x in held) && (forall i | 0 <= i < |held| :: held[i] in live)
    requires forall i, j | 0 <= i < j < |held| :: held[i] != held[j]
    ensures var rest := held[..p] + held[p + 1..];
      (forall x | x in live - {held[p]} :: x in rest) && (forall i | 0 <= i < |rest| :: rest[i] in live - {held[p]}) &&
      forall i, j | 0 <= i < j < |rest| :: rest[i] != rest[j]
  {
    var rest := held[..p] + held[p + 1..];
    forall x | x in live - {held[p]}
      ensures x in rest
    {
      var i :| 0 <= i < |held| && held[i] == x;
      assert rest[if i < p then i else i - 1] == x;
    }
  }

  method ServeAlloc(alloc: Allocator, held: seq<Item>, ghost lens: seq<nat>, n: nat) returns (held': seq<Item>)
    requires alloc.Valid() && Holds(alloc, held, lens)
    modifies alloc`slabs, alloc`items, alloc`live, alloc.classes`slabsCap, alloc.classes`slabs
    modifies alloc.classes`freeStack, alloc.classes`items
    modifies alloc.slabs`freeList, alloc.slabs`bump, alloc.slabs`freeCount, alloc.slabs`free, alloc.slabs`used
    modifies alloc.slabs`live
    modifies alloc.items`word0, alloc.items`dataSize
    ensures alloc.Valid() && Holds(alloc, held', Outstanding(lens, Alloc(n)))
    ensures fresh(alloc.slabs - old(alloc.slabs)) && fresh(alloc.items - old(alloc.items))
  {
    hide SlabClass.Valid, Allocator.Configured, Allocator.Covering, Allocator.LiveNow;
    var item := alloc.AllocItem(n);
    held' := if item == null then held else held + [item];
  }

  method ServeFree(alloc: Allocator, held: seq<Item>, ghost lens: seq<nat>, p: nat) returns (held': seq<Item>)
    requires alloc.Valid() && Holds(alloc, held, lens)
    modifies alloc`live, alloc.classes`freeStack
    modifies alloc.slabs`freeList, alloc.slabs`freeCount, alloc.slabs`free, alloc.slabs`live, alloc.slabs`stackPos
    modifies alloc.items`word0
    ensures alloc.Valid() && Holds(alloc, held', Outstanding(lens, Free(p)))
  {
    hide SlabClass.Valid, Allocator.Configured, Allocator.Covering, Allocator.LiveNow, Room;
    if p >= |held| {
      return held;
    }
    RemoveHeld(alloc.live, held, p);
    alloc.FreeItem(held[p]);
    held' := held[..p] + held[p + 1..];
    forall i | 0 <= i < |held'|
      ensures Room(held'[i], Outstanding(lens, Free(p))[i])
    {
      var j := if i < p then i else i + 1;
      assert held'[i] == held[j] && Outstanding(lens, Free(p))[i] == lens[j];
    }
  }

  /** Any sequence of requests: no chunk is handed out twice, and the live chunks are those not yet freed. */
  method Serve(reqs: seq<Request>) returns (alloc: Allocator, held: seq<Item>)
    ensures alloc.Valid() && Holds(alloc, held, Outstandings([], reqs))
  {
    hide Allocator.Valid;
    alloc := new Allocator();
    held := [];
    ghost var lens := [];
    assert Holds(alloc, [], []);
    hide Holds;
    for i := 0 to |reqs|
      invariant alloc.Valid() && Holds(alloc, held, lens) && fresh(alloc) && fresh(alloc.classes) &&
        fresh(alloc.slabs) && fresh(alloc.items)
      invariant Outstandings(lens, reqs[i..]) == Outstandings([], reqs)
    {
      assert reqs[i..][0] == reqs[i] && reqs[i..][1..] == reqs[i + 1..];
      match reqs[i] {
        case Alloc(n) => held := ServeAlloc(alloc, held, lens, n);
        case Free(p) => held := ServeFree(alloc, held, lens, p);
      }
      lens := Outstanding(lens, reqs[i]);
    }
  }
}
