/** Hash buckets of eight slots and the walks along a chain of them. */
module Buckets {
  import opened Swar
  import opened Items

  class Bucket {
    var slotStates: bv8
    var hashTags: bv64
    var items: seq<Item?>        // the eight item pointers, inline in the bucket
    var next: Bucket?
    ghost var keys: seq<Key>     // the key each busy slot was reserved for
    ghost const home: nat        // the chain this bucket belongs to
    ghost const pos: nat         // and its position there

    // A bucket of zeroed memory.
    constructor (ghost home: nat, ghost pos: nat)
      ensures Empty() && next == null
      ensures this.home == home && this.pos == pos
    {
      slotStates, hashTags, next := 0, 0, null;
      items := seq(SLOTS, _ => null);
      keys := seq(SLOTS, _ => []);
      this.home, this.pos := home, pos;
    }

    ghost predicate WellFormed()
      reads this`items, this`keys
    {
      |items| == SLOTS == |keys|
    }

    predicate Busy(s: nat)
      requires s < SLOTS
      reads this`slotStates
    {
      Bit(slotStates, s)
    }

    function Tag(s: nat): bv64
      requires s < SLOTS
      reads this`hashTags
    {
      TagAt(hashTags, s)
    }

    ghost predicate Empty()
      reads this`slotStates, this`items, this`keys
    {
      WellFormed() && forall s | 0 <= s < SLOTS :: !Busy(s) && items[s] == null
    }

    ghost predicate Full()
      reads this`slotStates
    {
      forall s | 0 <= s < SLOTS :: Busy(s)
    }

    // Slot s holds an item carrying the given key.
    ghost predicate Holds(s: nat, key: Key)
      requires s < SLOTS
      reads this, items
    {
      WellFormed() && Busy(s) && items[s] != null && items[s].keyLen <= |items[s].data| && items[s].Key() == key
    }

    ghost predicate Lacks(key: Key)
      reads this, items
    {
      forall s | 0 <= s < SLOTS :: !Holds(s, key)
    }

    // Every busy slot holds an item, and the slots that hold the key wear its tag.
    ghost predicate Searchable(tag: bv64, key: Key)
      reads this, items
    {
      WellFormed() && forall s | 0 <= s < SLOTS :: SlotSearchable(s, tag, key)
    }

    ghost predicate SlotSearchable(s: nat, tag: bv64, key: Key)
      requires s < SLOTS && WellFormed()
      reads this, items
    {
      Busy(s) ==>
        items[s] != null && items[s].keyLen <= |items[s].data| && (items[s].Key() == key ==> Tag(s) == tag)
    }

    // Walk the candidate slots in ascending order and compare keys.
    method Scan(tag: bv64, key: Key) returns (slot: int)
      requires tag < 256 && Searchable(tag, key)
      ensures -1 <= slot < SLOTS
      ensures slot < 0 ==> Lacks(key)
      ensures slot >= 0 ==> Holds(slot, key) && forall s | 0 <= s < slot :: !Holds(s, key)
    {
      hide Bit, MatchTag, TagAt, Candidate;
      var candidates := MatchTag(hashTags, slotStates, tag);
      forall s | 0 <= s < SLOTS
        ensures Holds(s, key) ==> Bit(candidates, s)
        ensures Bit(candidates, s) ==> Busy(s)
      {
        assert SlotSearchable(s, tag, key);
        MatchBit(hashTags, slotStates, tag, s);
      }
      while candidates != 0
        invariant forall s | 0 <= s < SLOTS && Bit(candidates, s) :: Busy(s)
        invariant forall s | 0 <= s < SLOTS && Holds(s, key) :: Bit(candidates, s)
        decreases candidates
      {
        slot := Ctz(candidates);
        forall s | 0 <= s < SLOTS
          ensures Bit(candidates & (candidates - 1), s) <==> Bit(candidates, s) && s != slot
        {
          DropLowest(candidates, s);
        }
        candidates := candidates & (candidates - 1);
        assert SlotSearchable(slot, tag, key);
        if items[slot].KeyMatches(key) {
          return;
        }
      }
      NoBits(candidates);
      slot := -1;
    }

    method FirstFreeSlot() returns (slot: int)
      ensures -1 <= slot < SLOTS
      ensures slot >= 0 ==> !Busy(slot) && forall s | 0 <= s < slot :: Busy(s)
      ensures slot < 0 ==> Full()
    {
      slot := FirstFree(slotStates);
    }

    // Reserve an empty slot for a key: busy, with the key's tag, the item pointer untouched.
    method Reserve(s: nat, tag: bv64, ghost key: Key)
      requires s < SLOTS && WellFormed() && tag < 256
      modifies this`slotStates, this`hashTags, this`keys
      ensures WellFormed() && keys == old(keys)[s := key]
      ensures Busy(s) && Tag(s) == tag
      ensures forall r | 0 <= r < SLOTS && r != s :: Busy(r) == old(Busy(r)) && Tag(r) == old(Tag(r))
    {
      hide Bit, TagAt, SetTag, SetBit;
      forall r | 0 <= r < SLOTS
        ensures TagAt(SetTag(hashTags, s, tag), r) == if r == s then tag else TagAt(hashTags, r)
      {
        SetTagAt(hashTags, s, tag, r);
      }
      slotStates := SetBit(slotStates, s);
      hashTags := SetTag(hashTags, s, tag);
      keys := keys[s := key];
    }

    // Mark a slot empty, leaving its tag and item pointer behind.
    method Vacate(s: nat)
      requires s < SLOTS
      modifies this`slotStates
      ensures !Busy(s)
      ensures forall r | 0 <= r < SLOTS && r != s :: Busy(r) == old(Busy(r))
    {
      hide Bit, ClearBit;
      slotStates := ClearBit(slotStates, s);
    }

    // Delete a slot: empty, tag zero, item pointer null.
    method Clear(s: nat)
      requires s < SLOTS && WellFormed()
      modifies this`slotStates, this`hashTags, this`items
      ensures WellFormed() && items == old(items)[s := null]
      ensures !Busy(s) && Tag(s) == 0
      ensures forall r | 0 <= r < SLOTS && r != s :: Busy(r) == old(Busy(r)) && Tag(r) == old(Tag(r))
    {
      hide Bit, TagAt, SetTag, ClearBit;
      forall r | 0 <= r < SLOTS
        ensures TagAt(SetTag(hashTags, s, 0), r) == if r == s then 0 else TagAt(hashTags, r)
      {
        SetTagAt(hashTags, s, 0, r);
      }
      slotStates := ClearBit(slotStates, s);
      hashTags := SetTag(hashTags, s, 0);
      items := items[s := null];
    }
  }
}
