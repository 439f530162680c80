/** One array of buckets with its overflow chains: the old or the new half of a table. */
module Halves {
  import opened Swar
  import opened Mask
  import opened Items
  import opened Buckets
  import opened Chains

  type Hash = Key -> bv64

  function TagOf(hash: bv64): bv64 {
    hash >> 56
  }

  // The tag is the top byte of the hash.
  lemma TagIs(hash: bv64)
    ensures TagOf(hash) == hash / 0x0100_0000_0000_0000
  {
  }

  lemma TagSmall(hash: bv64)
    ensures TagOf(hash) < 256
  {
  }

  datatype Slot = Slot(b: Bucket, s: nat)

  /** Ghost picture of a half: the bucket array, every chain as a sequence, the slot of every stored key, and all
    * buckets. */
  datatype Half = Half(heads: seq<Bucket>, chains: seq<seq<Bucket>>, loc: map<Key, Slot>, repr: set<Bucket>)

  // Chain i starts at bucket i of the array and stays inside the half.
  ghost predicate ChainOk(h: Half, i: nat)
    requires i < |h.heads| == |h.chains|
    reads h.repr`next
  {
    var c := h.chains[i];
    |c| > 0 && c[0] == h.heads[i] && c[0].home == i && (forall b | b in c :: b in h.repr) && Linked(c)
  }

  ghost predicate BucketOk(h: Half, lo: nat, b: Bucket) {
    lo <= b.home < |h.chains| && b.pos < |h.chains[b.home]| && h.chains[b.home][b.pos] == b
  }

  // Every bucket of the half lies on its chain, and every chain from lo on is complete.
  ghost predicate Layout(h: Half, lo: nat)
    reads h.repr`next
  {
    |h.chains| == |h.heads| &&
    (forall b | b in h.repr :: BucketOk(h, lo, b)) &&
    (forall i | lo <= i < |h.heads| :: ChainOk(h, i))
  }

  // A busy slot is the place of its key, wears its tag and lies in its bucket; an empty slot holds null.
  ghost predicate SlotOk(H: Hash, h: Half, b: Bucket, s: nat)
    requires s < SLOTS && b.WellFormed() && |h.chains| > 0
    reads b`slotStates, b`hashTags, b`items, b`keys
  {
    var k := b.keys[s];
    if b.Busy(s) then
      k in h.loc && h.loc[k] == Slot(b, s) && b.Tag(s) == TagOf(H(k)) && BucketIndex(H(k), |h.chains|) == b.home
    else
      b.items[s] == null
  }

  ghost predicate KeyOk(h: Half, k: Key)
    requires k in h.loc
    reads h.repr`slotStates, h.repr`items, h.repr`keys
  {
    var p := h.loc[k];
    p.b in h.repr && p.s < SLOTS && p.b.WellFormed() && p.b.Busy(p.s) && p.b.keys[p.s] == k
  }

  // Outside the open keys, a busy slot holds the item its key maps to.
  ghost predicate ItemOk(M: map<Key, Item>, open: set<Key>, b: Bucket, s: nat)
    requires s < SLOTS && b.WellFormed()
    reads b`slotStates, b`items, b`keys
  {
    b.Busy(s) && b.keys[s] !in open ==> b.keys[s] in M && b.items[s] == M[b.keys[s]]
  }

  ghost predicate Stored(H: Hash, h: Half, M: map<Key, Item>, open: set<Key>)
    reads h.repr`slotStates, h.repr`hashTags, h.repr`items, h.repr`keys
  {
    |h.chains| > 0 &&
    (forall b | b in h.repr :: b.WellFormed()) &&
    (forall b, s | b in h.repr && 0 <= s < SLOTS :: SlotOk(H, h, b, s)) &&
    (forall b, s | b in h.repr && 0 <= s < SLOTS :: ItemOk(M, open, b, s)) &&
    (forall k | k in h.loc :: KeyOk(h, k))
  }

  // Every stored item carries its own key.
  ghost predicate KeysMatch(M: map<Key, Item>)
    reads M.Values`keyLen, M.Values`data
  {
    forall k | k in M :: M[k].keyLen <= |M[k].data| && M[k].Key() == k
  }

  lemma ChainSearchable(H: Hash, h: Half, lo: nat, M: map<Key, Item>, i: nat, key: Key)
    requires Layout(h, lo) && Stored(H, h, M, {}) && KeysMatch(M) && lo <= i < |h.heads|
    ensures Searchable(h.chains[i], TagOf(H(key)), key)
  {
    hide Bit, TagAt, TagOf;
    assert ChainOk(h, i);
    forall j, s | 0 <= j < |h.chains[i]| && 0 <= s < SLOTS
      ensures h.chains[i][j].WellFormed() && h.chains[i][j].SlotSearchable(s, TagOf(H(key)), key)
    {
      var b := h.chains[i][j];
      assert b in h.chains[i];
      assert SlotOk(H, h, b, s) && ItemOk(M, {}, b, s);
    }
    forall j | 0 <= j < |h.chains[i]|
      ensures h.chains[i][j].Searchable(TagOf(H(key)), key)
    {
      assert h.chains[i][j] in h.chains[i];
    }
  }

  // Searching a key's chain finds it exactly when the half stores it, in the slot recorded for it.
  lemma SearchFinds(H: Hash, h: Half, lo: nat, M: map<Key, Item>, key: Key, b: Bucket, s: nat)
    requires Layout(h, lo) && Stored(H, h, M, {}) && KeysMatch(M)
    requires lo <= BucketIndex(H(key), |h.heads|) < |h.heads|
    requires FirstHolder(h.chains[BucketIndex(H(key), |h.heads|)], key, b, s)
    ensures key in h.loc && h.loc[key] == Slot(b, s) && key in M && b.items[s] == M[key] && b in h.repr
  {
    hide Bit, TagAt, TagOf, BucketIndex;
    var i := BucketIndex(H(key), |h.heads|);
    assert ChainOk(h, i);
    assert b in h.chains[i];
    assert SlotOk(H, h, b, s) && ItemOk(M, {}, b, s);
  }

  lemma StoredIsHeld(H: Hash, h: Half, lo: nat, M: map<Key, Item>, key: Key)
    requires Layout(h, lo) && Stored(H, h, M, {}) && KeysMatch(M) && key in h.loc
    ensures var p := h.loc[key]; var i := BucketIndex(H(key), |h.heads|);
      lo <= i < |h.heads| && p.s < SLOTS && p.b in h.chains[i] && p.b.Holds(p.s, key)
  {
    hide Bit, TagAt, TagOf, BucketIndex;
    assert KeyOk(h, key);
    var p := h.loc[key];
    assert SlotOk(H, h, p.b, p.s) && ItemOk(M, {}, p.b, p.s) && BucketOk(h, lo, p.b);
  }

  lemma StoredIndex(H: Hash, h: Half, lo: nat, M: map<Key, Item>, open: set<Key>, key: Key)
    requires Layout(h, lo) && Stored(H, h, M, open) && key in h.loc
    ensures lo <= BucketIndex(H(key), |h.heads|) && h.loc[key].b in h.repr
  {
    hide Bit, TagAt, TagOf, BucketIndex;
    assert KeyOk(h, key);
    var p := h.loc[key];
    assert SlotOk(H, h, p.b, p.s) && BucketOk(h, lo, p.b);
  }

  lemma SearchMisses(H: Hash, h: Half, lo: nat, M: map<Key, Item>, key: Key)
    requires Layout(h, lo) && Stored(H, h, M, {}) && KeysMatch(M)
    requires lo <= BucketIndex(H(key), |h.heads|) < |h.heads| && Lacks(h.chains[BucketIndex(H(key), |h.heads|)], key)
    ensures key !in h.loc
  {
    hide Bit, TagAt, TagOf, BucketIndex;
    if key in h.loc {
      StoredIsHeld(H, h, lo, M, key);
    }
  }

  // A search for the key reads the item of a busy slot and passes on.
  ghost predicate PassedBy(d: Bucket, s: nat, key: Key)
    requires s < SLOTS
    reads d, d.items
  {
    d.WellFormed() &&
    (d.Busy(s) ==> d.items[s] != null && d.items[s].keyLen <= |d.items[s].data| && d.items[s].Key() != key)
  }

  // A walk along the chain comes to slot s of bucket b without having found the key.
  ghost predicate FirstMet(c: seq<Bucket>, key: Key, b: Bucket, s: nat)
    reads *
  {
    b.pos < |c| && c[b.pos] == b &&
    forall j, r | 0 <= j <= b.pos && 0 <= r < SLOTS && (j < b.pos || r < s) :: PassedBy(c[j], r, key)
  }

  // A search for a key that owns a slot but is not in the map comes to that slot first.
  lemma OpenSlotMet(H: Hash, h: Half, lo: nat, M: map<Key, Item>, key: Key, b: Bucket, s: nat)
    requires Layout(h, lo) && Stored(H, h, M, {key}) && KeysMatch(M) && key !in M && key in h.loc &&
      h.loc[key] == Slot(b, s)
    ensures var i := BucketIndex(H(key), |h.chains|);
      lo <= i < |h.heads| == |h.chains| && ChainOk(h, i) && FirstMet(h.chains[i], key, b, s)
  {
    hide Bit, TagAt, TagOf, BucketIndex;
    assert KeyOk(h, key);
    assert SlotOk(H, h, b, s) && BucketOk(h, lo, b);
    var c := h.chains[b.home];
    assert ChainOk(h, b.home);
    forall j, r | 0 <= j <= b.pos && 0 <= r < SLOTS && (j < b.pos || r < s)
      ensures PassedBy(c[j], r, key)
    {
      var d := c[j];
      assert d in c && LinkAt(c, j);
      assert SlotOk(H, h, d, r) && ItemOk(M, {key}, d, r);
    }
  }

  // ---- growing a chain

  ghost function WithChain(h: Half, i: nat, d: seq<Bucket>): Half
    requires i < |h.chains|
  {
    h.(chains := h.chains[i := d], repr := h.repr + set b | b in d)
  }

  lemma GrownStored(H: Hash, h: Half, M: map<Key, Item>, i: nat, d: seq<Bucket>)
    requires Stored(H, h, M, {}) && i < |h.chains|
    requires forall b | b in d && b !in h.repr :: b.Empty()
    ensures Stored(H, WithChain(h, i, d), M, {})
  {
    hide Bit, TagAt, TagOf, BucketIndex;
    var g := WithChain(h, i, d);
    forall b, s | b in g.repr && 0 <= s < SLOTS
      ensures b.WellFormed() && SlotOk(H, g, b, s) && ItemOk(M, {}, b, s)
    {
      if b in h.repr {
        assert SlotOk(H, h, b, s) && ItemOk(M, {}, b, s);
      }
    }
    forall k | k in g.loc
      ensures KeyOk(g, k)
    {
      assert KeyOk(h, k);
    }
  }

  ghost predicate OtherLayout(h: Half, lo: nat, i: nat)
    reads h.repr`next
  {
    |h.chains| == |h.heads| &&
    (forall b | b in h.repr :: BucketOk(h, lo, b)) &&
    (forall x | lo <= x < |h.heads| && x != i :: ChainOk(h, x))
  }

  lemma ChainFacts(h: Half, lo: nat, i: nat)
    requires Layout(h, lo) && lo <= i < |h.heads|
    ensures |h.chains| == |h.heads|
    ensures var c := h.chains[i]; Linked(c) && c[0] == h.heads[i] && c[0].home == i && Last(c) in h.repr
    ensures forall b | b in h.chains[i] :: b in h.repr && b.home == i
    ensures forall b | b in h.repr && b.home == i :: b in h.chains[i]
  {
    assert ChainOk(h, i);
    var c := h.chains[i];
    forall b | b in c
      ensures b in h.repr && b.home == i
    {
      assert BucketOk(h, lo, b);
      var j :| 0 <= j < |c| && c[j] == b;
      assert LinkAt(c, j);
    }
    forall b | b in h.repr && b.home == i
      ensures b in c
    {
      assert BucketOk(h, lo, b);
    }
  }

  twostate lemma SameLayout(h: Half, new lo: nat)
    requires old(Layout(h, lo)) && forall b | b in h.repr :: b.next == old(b.next)
    ensures Layout(h, lo)
  {
  }

  twostate lemma OtherChains(h: Half, new lo: nat, new i: nat)
    requires old(Layout(h, lo))
    requires forall b | b in h.repr && b.home != i :: b.next == old(b.next)
    ensures OtherLayout(h, lo, i)
  {
    forall x | lo <= x < |h.heads| && x != i
      ensures ChainOk(h, x)
    {
      assert old(ChainOk(h, x));
      var c := h.chains[x];
      forall j | 0 <= j < |c|
        ensures LinkAt(c, j)
      {
        assert old(LinkAt(c, 0) && LinkAt(c, j)) && c[j] in c;
      }
    }
  }

  lemma GrownLayout(h: Half, lo: nat, i: nat, d: seq<Bucket>)
    requires lo <= i < |h.heads| && OtherLayout(h, lo, i)
    requires Linked(d) && d[0] == h.heads[i] && d[0].home == i && h.chains[i] <= d
    ensures Layout(WithChain(h, i, d), lo)
  {
    var g, c := WithChain(h, i, d), h.chains[i];
    forall b | b in g.repr
      ensures BucketOk(g, lo, b)
    {
      if b in h.repr {
        assert BucketOk(h, lo, b);
        if b.home == i {
          assert d[b.pos] == c[b.pos];
        }
      } else {
        var j :| 0 <= j < |d| && d[j] == b;
        assert LinkAt(d, j);
      }
    }
    forall x | lo <= x < |h.heads|
      ensures ChainOk(g, x)
    {
      if x != i {
        assert ChainOk(h, x);
      }
    }
  }

  // Find the slot of a key or a free one in its chain; the half may gain one empty bucket.
  method FindOrGrow(H: Hash, heads: seq<Bucket>, ghost h: Half, ghost lo: nat, ghost M: map<Key, Item>, i: nat,
    tag: bv64, key: Key)
    returns (b: Bucket, slot: int, ghost g: Half, ghost found: bool)
    requires Layout(h, lo) && Stored(H, h, M, {}) && KeysMatch(M) && heads == h.heads
    requires i == BucketIndex(H(key), |heads|) && lo <= i < |heads| && tag == TagOf(H(key))
    modifies h.repr`next
    ensures Layout(g, lo) && Stored(H, g, M, {})
    ensures g.loc == h.loc && g.heads == h.heads && |g.chains| == |h.chains| && h.repr <= g.repr &&
      fresh(g.repr - h.repr)
    ensures b in g.repr && 0 <= slot < SLOTS
    ensures found <==> key in h.loc
    ensures found ==> b.Busy(slot) && h.loc[key] == Slot(b, slot) && key in M && b.items[slot] == M[key] && g == h
    ensures !found ==> b.home == i && FirstEmpty(g.chains[i], b, slot)
  {
    hide Bit, TagAt, TagOf, BucketIndex, Layout, OtherLayout, Stored, KeysMatch, Searchable, Lacks;
    ChainFacts(h, lo, i);
    ghost var c, d := h.chains[i], [];
    ChainSearchable(H, h, lo, M, i, key);
    TagSmall(H(key));
    if Lacks(c, key) {
      SearchMisses(H, h, lo, M, key);
    }
    b, slot, d, found := FindSlotOrFree(heads[i], tag, key, c);
    if d == c {
      g := h;
      SameLayout(h, lo);
      if found {
        SearchFinds(H, h, lo, M, key, b, slot);
      }
    } else {
      g := WithChain(h, i, d);
      GrownStored(H, h, M, i, d);
      OtherChains(h, lo, i);
      assert d[0] == c[0];
      GrownLayout(h, lo, i, d);
    }
    ChainFacts(g, lo, i);
  }

  // ---- filling and emptying slots

  lemma RelocatedLayout(h: Half, lo: nat, loc: map<Key, Slot>)
    requires Layout(h, lo)
    ensures Layout(h.(loc := loc), lo)
  {
    var g := h.(loc := loc);
    forall b | b in g.repr
      ensures BucketOk(g, lo, b)
    {
      assert BucketOk(h, lo, b);
    }
    forall i | lo <= i < |g.heads|
      ensures ChainOk(g, i)
    {
      assert ChainOk(h, i);
    }
  }

  // Give an empty slot to a key. Until an item is stored there, the key is open.
  method OccupySlot(H: Hash, ghost h: Half, ghost lo: nat, ghost M: map<Key, Item>, b: Bucket, slot: nat, tag: bv64,
    ghost key: Key)
    returns (ghost g: Half)
    requires Layout(h, lo) && Stored(H, h, M, {}) && key !in h.loc
    requires b in h.repr && slot < SLOTS && !b.Busy(slot)
    requires tag == TagOf(H(key)) && b.home == BucketIndex(H(key), |h.chains|)
    modifies b`slotStates, b`hashTags, b`keys
    ensures g == h.(loc := h.loc[key := Slot(b, slot)])
    ensures Layout(g, lo) && Stored(H, g, M, {key})
    ensures b.Busy(slot) && b.items[slot] == null
  {
    hide Bit, TagAt, TagOf, BucketIndex;
    TagSmall(H(key));
    assert SlotOk(H, h, b, slot);
    b.Reserve(slot, tag, key);
    g := h.(loc := h.loc[key := Slot(b, slot)]);
    RelocatedLayout(h, lo, g.loc);
    forall c, s | c in g.repr && 0 <= s < SLOTS
      ensures SlotOk(H, g, c, s) && ItemOk(M, {key}, c, s)
    {
      assert old(SlotOk(H, h, c, s) && ItemOk(M, {}, c, s));
    }
    forall k | k in g.loc
      ensures KeyOk(g, k)
    {
      if k != key {
        assert old(KeyOk(h, k)) && old(SlotOk(H, h, h.loc[k].b, h.loc[k].s));
      }
    }
  }

  // Empty the slot of a stored key.
  method ClearSlot(H: Hash, ghost h: Half, ghost lo: nat, ghost M: map<Key, Item>, b: Bucket, slot: nat, ghost key: Key)
    returns (ghost g: Half)
    requires Layout(h, lo) && Stored(H, h, M, {}) && key in h.loc && h.loc[key] == Slot(b, slot)
    requires b in h.repr && slot < SLOTS && b.WellFormed()
    modifies b`slotStates, b`hashTags, b`items
    ensures g == h.(loc := h.loc - {key})
    ensures Layout(g, lo) && Stored(H, g, M - {key}, {})
  {
    hide Bit, TagAt, TagOf, BucketIndex;
    assert KeyOk(h, key);
    b.Clear(slot);
    g := h.(loc := h.loc - {key});
    RelocatedLayout(h, lo, g.loc);
    forall c, s | c in g.repr && 0 <= s < SLOTS
      ensures SlotOk(H, g, c, s) && ItemOk(M - {key}, {}, c, s)
    {
      assert old(SlotOk(H, h, c, s) && ItemOk(M, {}, c, s));
    }
    forall k | k in g.loc
      ensures KeyOk(g, k)
    {
      assert old(KeyOk(h, k)) && old(SlotOk(H, h, h.loc[k].b, h.loc[k].s));
    }
  }

  // Write an item pointer into the slot of a key.
  method StoreItem(H: Hash, ghost h: Half, ghost M: map<Key, Item>, b: Bucket, slot: nat, item: Item, ghost key: Key)
    requires Stored(H, h, M, {key}) && key in h.loc && h.loc[key] == Slot(b, slot)
    requires b in h.repr && slot < SLOTS && b.WellFormed()
    modifies b`items
    ensures b.WellFormed() && b.items == old(b.items)[slot := item]
    ensures Stored(H, h, M[key := item], {})
  {
    hide Bit, TagAt, TagOf, BucketIndex;
    assert KeyOk(h, key);
    ghost var N := M[key := item];
    b.items := b.items[slot := item];
    forall c | c in h.repr
      ensures c.WellFormed()
    {
      assert old(c.WellFormed());
    }
    forall c, s | c in h.repr && 0 <= s < SLOTS
      ensures SlotOk(H, h, c, s) && ItemOk(N, {}, c, s)
    {
      assert old(SlotOk(H, h, c, s) && ItemOk(M, {key}, c, s)) && old(c.WellFormed());
    }
    forall k | k in h.loc
      ensures KeyOk(h, k)
    {
      assert old(KeyOk(h, k)) && h.loc[k].b.WellFormed();
    }
  }

  // A half depends on the map only at its own keys.
  lemma MapAgrees(H: Hash, h: Half, M: map<Key, Item>, open: set<Key>, N: map<Key, Item>, wider: set<Key>)
    requires Stored(H, h, M, open) && open <= wider
    requires forall k | k in h.loc && k in M && k !in wider :: k in N && N[k] == M[k]
    ensures Stored(H, h, N, wider)
  {
    hide Bit, TagAt, TagOf, BucketIndex;
    forall b, s | b in h.repr && 0 <= s < SLOTS
      ensures ItemOk(N, wider, b, s)
    {
      assert SlotOk(H, h, b, s) && ItemOk(M, open, b, s);
    }
  }

  // Insert an item the half does not store yet, rehashing the key it carries.
  method InsertItem(H: Hash, heads: seq<Bucket>, ghost h: Half, ghost M: map<Key, Item>, item: Item, ghost k: Key)
    returns (ghost g: Half, added: bool)
    requires Layout(h, 0) && Stored(H, h, M, {}) && KeysMatch(M) && heads == h.heads && IsPow2(|heads|)
    requires k in M && M[k] == item && k !in h.loc
    modifies h.repr
    ensures Layout(g, 0) && Stored(H, g, M, {}) && added
    ensures g.heads == heads && g.loc.Keys == h.loc.Keys + {k} && h.repr <= g.repr && fresh(g.repr - h.repr)
    ensures g.loc[k].b.home == BucketIndex(H(k), |heads|)
  {
    hide Bit, TagAt, TagOf, BucketIndex, SlotOk, ItemOk, KeyOk, ChainOk;
    var key := item.Key();
    var hash := H(key);
    var index := BucketIndex(hash, |heads|);
    IndexInRange(hash, |heads|);
    var b, slot;
    ghost var found;
    b, slot, g, found := FindOrGrow(H, heads, h, 0, M, index, TagOf(hash), key);
    added := false;
    if !b.Busy(slot) {
      g := OccupySlot(H, g, 0, M, b, slot, TagOf(hash), key);
      StoreItem(H, g, M, b, slot, item, key);
      assert M[key := item] == M;
      added := true;
    }
  }

  // ---- the table operations on one half

  // The slot of a key, reserved for it when the half does not store the key.
  method ClaimSlot(H: Hash, heads: seq<Bucket>, ghost h: Half, ghost lo: nat, ghost M: map<Key, Item>, hash: bv64,
    key: Key)
    returns (b: Bucket, slot: int, ghost g: Half, added: bool)
    requires Layout(h, lo) && Stored(H, h, M, {}) && KeysMatch(M) && heads == h.heads && IsPow2(|heads|)
    requires hash == H(key) && lo <= BucketIndex(hash, |heads|)
    modifies h.repr
    ensures Layout(g, lo) && Stored(H, g, M, {key})
    ensures g.heads == heads && h.repr <= g.repr && fresh(g.repr - h.repr)
    ensures b in g.repr && 0 <= slot < SLOTS && b.WellFormed() && g.loc == h.loc[key := Slot(b, slot)]
    ensures added <==> key !in h.loc
    ensures added ==> b.items[slot] == null
    ensures !added ==> key in M && b.items[slot] == M[key] && Stored(H, g, M, {}) && g.loc == h.loc
  {
    hide Bit, TagAt, TagOf, BucketIndex, SlotOk, ItemOk, KeyOk, ChainOk;
    var index := BucketIndex(hash, |heads|);
    IndexInRange(hash, |heads|);
    ghost var found;
    b, slot, g, found := FindOrGrow(H, heads, h, lo, M, index, TagOf(hash), key);
    added := false;
    if !b.Busy(slot) {
      g := OccupySlot(H, g, lo, M, b, slot, TagOf(hash), key);
      added := true;
    } else {
      assert h.loc[key := Slot(b, slot)] == h.loc;
      MapAgrees(H, g, M, {}, M, {key});
    }
  }

  method GetItem(H: Hash, heads: seq<Bucket>, ghost h: Half, ghost lo: nat, ghost M: map<Key, Item>, hash: bv64,
    key: Key)
    returns (item: Item?)
    requires Layout(h, lo) && Stored(H, h, M, {}) && KeysMatch(M) && heads == h.heads && IsPow2(|heads|)
    requires hash == H(key) && lo <= BucketIndex(hash, |heads|)
    ensures item != null <==> key in h.loc
    ensures item != null ==> key in M && item == M[key]
  {
    hide Bit, TagAt, TagOf, BucketIndex, SlotOk, ItemOk, KeyOk, ChainOk;
    var index := BucketIndex(hash, |heads|);
    IndexInRange(hash, |heads|);
    ChainFacts(h, lo, index);
    ChainSearchable(H, h, lo, M, index, key);
    TagSmall(hash);
    var b, slot := FindSlot(heads[index], TagOf(hash), key, h.chains[index]);
    if slot < 0 {
      SearchMisses(H, h, lo, M, key);
      return null;
    }
    SearchFinds(H, h, lo, M, key, b, slot);
    return b.items[slot];
  }

  method DeleteItem(H: Hash, heads: seq<Bucket>, ghost h: Half, ghost lo: nat, ghost M: map<Key, Item>, hash: bv64,
    key: Key)
    returns (item: Item?, ghost g: Half)
    requires Layout(h, lo) && Stored(H, h, M, {}) && KeysMatch(M) && heads == h.heads && IsPow2(|heads|)
    requires hash == H(key) && lo <= BucketIndex(hash, |heads|)
    modifies h.repr
    ensures Layout(g, lo) && Stored(H, g, M - {key}, {}) && g == h.(loc := h.loc - {key})
    ensures item != null <==> key in h.loc
    ensures item != null ==> key in M && item == M[key]
  {
    hide Bit, TagAt, TagOf, BucketIndex, SlotOk, ItemOk, KeyOk, ChainOk;
    var index := BucketIndex(hash, |heads|);
    IndexInRange(hash, |heads|);
    ChainFacts(h, lo, index);
    ChainSearchable(H, h, lo, M, index, key);
    TagSmall(hash);
    var b, slot := FindSlot(heads[index], TagOf(hash), key, h.chains[index]);
    if slot < 0 {
      SearchMisses(H, h, lo, M, key);
      MapAgrees(H, h, M, {}, M - {key}, {});
      assert h.loc - {key} == h.loc;
      return null, h;
    }
    SearchFinds(H, h, lo, M, key, b, slot);
    item := b.items[slot];
    g := ClearSlot(H, h, lo, M, b, slot, key);
  }

  // ---- fresh bucket memory

  ghost predicate Blank(h: Half)
    reads h.repr
  {
    h.loc == map[] && |h.heads| > 0 && Layout(h, 0) && forall b | b in h.repr :: b.Empty()
  }

  // An array of zeroed buckets.
  method MapBuckets(count: nat) returns (buckets: seq<Bucket>, ghost h: Half)
    requires count > 0
    ensures |buckets| == count && h.heads == buckets && Blank(h) && fresh(h.repr)
  {
    buckets := [];
    ghost var chains: seq<seq<Bucket>> := [];
    for i := 0 to count
      invariant |buckets| == i == |chains|
      invariant forall j | 0 <= j < i :: chains[j] == [buckets[j]] && fresh(buckets[j]) && buckets[j].Empty()
      invariant forall j | 0 <= j < i :: buckets[j].home == j && buckets[j].pos == 0 && buckets[j].next == null
    {
      var b := new Bucket(i, 0);
      buckets := buckets + [b];
      chains := chains + [[b]];
    }
    h := Half(buckets, chains, map[], set b | b in buckets);
    forall i | 0 <= i < count
      ensures ChainOk(h, i)
    {
      assert LinkAt(chains[i], 0);
    }
  }

  lemma BlankStored(H: Hash, h: Half, M: map<Key, Item>)
    requires Blank(h)
    ensures Stored(H, h, M, {})
  {
    hide Bit, TagAt, TagOf, BucketIndex;
    forall b, s | b in h.repr && 0 <= s < SLOTS
      ensures SlotOk(H, h, b, s) && ItemOk(M, {}, b, s)
    {
      assert b.Empty() && !b.Busy(s);
    }
  }
}
