/** The incrementally migrating hash table. */
module Tables {
  import opened Swar
  import opened Mask
  import opened Items
  import opened Buckets
  import opened Chains
  import opened Halves

  const INIT_CAP: nat := 128

  ghost const NO_HALF: Half := Half([], [], map[], {})

  // The busy slots of a chain being migrated are exactly the keys still in flight.
  ghost predicate FlightOk(c: set<Bucket>, fl: map<Key, Slot>, M: map<Key, Item>)
    reads c`slotStates, c`items, c`keys
  {
    (forall b | b in c :: b.WellFormed()) &&
    (forall b, s | b in c && 0 <= s < SLOTS :: FlightSlotOk(b, s, fl, M)) &&
    (forall k | k in fl :: FlightKeyOk(c, fl, k))
  }

  ghost predicate FlightSlotOk(b: Bucket, s: nat, fl: map<Key, Slot>, M: map<Key, Item>)
    requires s < SLOTS && b.WellFormed()
    reads b`slotStates, b`items, b`keys
  {
    b.Busy(s) ==> b.keys[s] in fl && fl[b.keys[s]] == Slot(b, s) && b.keys[s] in M && b.items[s] == M[b.keys[s]]
  }

  ghost predicate FlightKeyOk(c: set<Bucket>, fl: map<Key, Slot>, k: Key)
    requires k in fl
    reads c`slotStates, c`items, c`keys
  {
    var p := fl[k];
    p.b in c && p.s < SLOTS && p.b.WellFormed() && p.b.Busy(p.s) && p.b.keys[p.s] == k
  }

  // Taking a slot out of its bucket takes its key off the flight.
  method LeaveSlot(b: Bucket, slot: nat, ghost c: set<Bucket>, ghost fl: map<Key, Slot>, ghost M: map<Key, Item>)
    requires FlightOk(c, fl, M) && b in c && slot < SLOTS && b.Busy(slot)
    modifies b`slotStates
    ensures b.WellFormed() && FlightOk(c, fl - {b.keys[slot]}, M)
    ensures !b.Busy(slot) && forall s | 0 <= s < SLOTS && s != slot :: b.Busy(s) == old(b.Busy(s))
  {
    hide Bit;
    assert FlightSlotOk(b, slot, fl, M);
    ghost var k := b.keys[slot];
    b.Vacate(slot);
    ghost var rest := fl - {k};
    forall d, s | d in c && 0 <= s < SLOTS
      ensures FlightSlotOk(d, s, rest, M)
    {
      assert old(FlightSlotOk(d, s, fl, M));
    }
    forall x | x in rest
      ensures FlightKeyOk(c, rest, x)
    {
      assert old(FlightKeyOk(c, fl, x)) && old(FlightSlotOk(fl[x].b, fl[x].s, fl, M));
    }
  }

  lemma FlightSlot(b: Bucket, slot: nat, c: set<Bucket>, fl: map<Key, Slot>, M: map<Key, Item>)
    requires FlightOk(c, fl, M) && b in c && slot < SLOTS && b.Busy(slot)
    ensures b.WellFormed() && b.keys[slot] in fl && b.keys[slot] in M && b.items[slot] == M[b.keys[slot]]
  {
    assert FlightSlotOk(b, slot, fl, M);
  }

  ghost predicate KeysSplit<T>(m: set<T>, a: set<T>, b: set<T>, open: set<T>) {
    m + open == a + b + open && a !! b
  }

  ghost predicate Split<T>(all: set<T>, a: set<T>, b: set<T>, f: set<T>) {
    all == a + b + f && a !! b !! f
  }

  lemma Moved<T>(all: set<T>, a: set<T>, b: set<T>, f: set<T>, k: T)
    requires Split(all, a, b, f) && k in f
    ensures f !! b && Split(all, a, b + {k}, f - {k}) && |b + {k}| == |b| + 1 && |f - {k}| == |f| - 1
  {
  }

  // The two halves of a table of n buckets whose migration has reached position pos.
  ghost predicate TwoHalves(H: Hash, n: nat, pos: nat, p: Half, q: Half, M: map<Key, Item>, open: set<Key>)
    reads p.repr`slotStates, p.repr`hashTags, p.repr`items, p.repr`keys, p.repr`next
    reads q.repr`slotStates, q.repr`hashTags, q.repr`items, q.repr`keys, q.repr`next
  {
    IsPow2(n) && |p.heads| == n && p.repr !! q.repr &&
    Layout(p, pos) && Stored(H, p, M, open) && NewOk(H, n, q, M, open) &&
    (forall k | k in q.loc :: BucketIndex(H(k), n) < pos)
  }

  ghost predicate NewOk(H: Hash, n: nat, q: Half, M: map<Key, Item>, open: set<Key>)
    reads q.repr`slotStates, q.repr`hashTags, q.repr`items, q.repr`keys, q.repr`next
  {
    if q.heads == [] then q == NO_HALF
    else |q.heads| == 2 * n && Layout(q, 0) && Stored(H, q, M, open)
  }

  // The halves while chain pos - 1, with buckets c, is being emptied into the new half.
  ghost predicate InFlight(H: Hash, n: nat, pos: nat, p: Half, q: Half, M: map<Key, Item>, c: set<Bucket>,
    fl: map<Key, Slot>)
    reads p.repr`slotStates, p.repr`hashTags, p.repr`items, p.repr`keys, p.repr`next
    reads q.repr`slotStates, q.repr`hashTags, q.repr`items, q.repr`keys, q.repr`next
    reads c`slotStates, c`items, c`keys
  {
    TwoHalves(H, n, pos, p, q, M, {}) && q.heads != [] && 1 <= pos <= n &&
    p.repr !! q.repr !! c && FlightOk(c, fl, M) &&
    (forall k | k in fl :: BucketIndex(H(k), n) == pos - 1) &&
    Split(M.Keys, p.loc.Keys, q.loc.Keys, fl.Keys)
  }

  // Take an item off the flight and insert it in the new half h, the old half being p.
  method MoveItem(H: Hash, heads: seq<Bucket>, ghost h: Half, ghost p: Half, ghost pos: nat, ghost M: map<Key, Item>,
                  slot: nat, b: Bucket, item: Item, ghost c: set<Bucket>, ghost fl: map<Key, Slot>)
    returns (ghost g: Half, ghost k: Key, added: bool)
    requires Layout(h, 0) && Stored(H, h, M, {}) && KeysMatch(M) && heads == h.heads && IsPow2(|heads|)
    requires Layout(p, pos) && Stored(H, p, M, {}) && p.repr !! h.repr !! c
    requires FlightOk(c, fl, M) && fl.Keys !! h.loc.Keys
    requires slot < SLOTS && b in c && b.WellFormed() && b.Busy(slot) && item == b.items[slot]
    modifies b`slotStates, h.repr
    ensures k == old(b.keys[slot]) && k in fl && added
    ensures Layout(g, 0) && Stored(H, g, M, {}) && g.heads == heads
    ensures g.loc.Keys == h.loc.Keys + {k} && h.repr <= g.repr && fresh(g.repr - h.repr)
    ensures g.loc[k].b.home == BucketIndex(H(k), |heads|)
    ensures Layout(p, pos) && Stored(H, p, M, {}) && FlightOk(c, fl - {k}, M)
    ensures !b.Busy(slot) && forall s | 0 <= s < SLOTS && s != slot :: b.Busy(s) == old(b.Busy(s))
  {
    hide Bit, TagAt, TagOf, BucketIndex, Layout, Stored, FlightOk, KeysMatch, IsPow2;
    k := b.keys[slot];
    FlightSlot(b, slot, c, fl, M);
    LeaveSlot(b, slot, c, fl, M);
    assert Layout(h, 0) && Stored(H, h, M, {});
    assert Layout(p, pos) && Stored(H, p, M, {});
    g, added := InsertItem(H, heads, h, M, item, k);
  }

  // Migrate one slot: no key is lost, duplicated or found in the new half already.
  method Transfer(H: Hash, ghost n: nat, ghost pos: nat, heads: seq<Bucket>, ghost p: Half, ghost h: Half,
    ghost M: map<Key, Item>,
                  slot: nat, b: Bucket, item: Item, ghost c: set<Bucket>, ghost fl: map<Key, Slot>)
    returns (ghost g: Half, ghost rest: map<Key, Slot>, added: bool)
    requires InFlight(H, n, pos, p, h, M, c, fl) && KeysMatch(M) && heads == h.heads
    requires slot < SLOTS && b in c && b.WellFormed() && b.Busy(slot) && item == b.items[slot]
    modifies b`slotStates, h.repr
    ensures rest == fl - {old(b.keys[slot])} && added
    ensures InFlight(H, n, pos, p, g, M, c, rest) && g.heads == heads
    ensures p.repr !! g.repr !! c
    ensures h.repr <= g.repr && fresh(g.repr - h.repr)
    ensures |g.loc.Keys| == |h.loc.Keys| + 1 && |rest.Keys| == |fl.Keys| - 1
    ensures forall d | d in c :: d.next == old(d.next)
    ensures forall d, s | d in c && 0 <= s < SLOTS && d != b :: d.Busy(s) == old(d.Busy(s))
    ensures !b.Busy(slot) && forall s | 0 <= s < SLOTS && s != slot :: b.Busy(s) == old(b.Busy(s))
  {
    hide Bit, TagAt, TagOf, BucketIndex, Layout, Stored, FlightOk, KeysMatch, IsPow2, Split, InFlight, TwoHalves;
    ghost var k := b.keys[slot];
    Unpack(H, n, pos, p, h, M, c, fl);
    FlightSlot(b, slot, c, fl, M);
    Moved(M.Keys, p.loc.Keys, h.loc.Keys, fl.Keys, k);
    g, k, added := MoveItem(H, heads, h, p, pos, M, slot, b, item, c, fl);
    rest := fl - {k};
    SameKeysLess(fl, rest, k);
    Pack(H, n, pos, p, g, M, c, rest, h, fl, k);
  }

  lemma Unpack(H: Hash, n: nat, pos: nat, p: Half, h: Half, M: map<Key, Item>, c: set<Bucket>, fl: map<Key, Slot>)
    requires InFlight(H, n, pos, p, h, M, c, fl)
    ensures IsPow2(n) && |p.heads| == n && |h.heads| == 2 * n && IsPow2(2 * n) && 1 <= pos <= n
    ensures p.repr !! h.repr !! c
    ensures Layout(p, pos) && Stored(H, p, M, {}) && Layout(h, 0) && Stored(H, h, M, {})
    ensures FlightOk(c, fl, M) && Split(M.Keys, p.loc.Keys, h.loc.Keys, fl.Keys)
    ensures forall k | k in h.loc :: BucketIndex(H(k), n) < pos
    ensures forall k | k in fl :: BucketIndex(H(k), n) == pos - 1
  {
    hide BucketIndex, Layout, Stored, FlightOk, IsPow2, Split;
    Pow2Doubles(n);
  }

  lemma Pack(H: Hash, n: nat, pos: nat, p: Half, g: Half, M: map<Key, Item>, c: set<Bucket>, rest: map<Key, Slot>,
             h: Half, fl: map<Key, Slot>, key: Key)
    requires IsPow2(n) && |p.heads| == n && |g.heads| == 2 * n && 1 <= pos <= n
    requires p.repr !! g.repr !! c
    requires Layout(p, pos) && Stored(H, p, M, {}) && Layout(g, 0) && Stored(H, g, M, {})
    requires FlightOk(c, rest, M) && Split(M.Keys, p.loc.Keys, g.loc.Keys, rest.Keys)
    requires key in fl && rest == fl - {key} && g.loc.Keys == h.loc.Keys + {key}
    requires forall k | k in h.loc :: BucketIndex(H(k), n) < pos
    requires forall k | k in fl :: BucketIndex(H(k), n) == pos - 1
    ensures InFlight(H, n, pos, p, g, M, c, rest)
  {
    hide BucketIndex, Layout, Stored, FlightOk, IsPow2, Split;
    assert forall k | k in g.loc :: k in g.loc.Keys;
  }

  // ---- starting and ending the migration of one chain

  ghost function ElementsOf(c: seq<Bucket>): set<Bucket> {
    set b | b in c
  }

  ghost function FlightOf(p: Half, pos: nat): map<Key, Slot> {
    map k | k in p.loc && p.loc[k].b.home == pos :: p.loc[k]
  }

  ghost function WithoutChain(p: Half, pos: nat): Half
    requires pos < |p.chains|
  {
    p.(chains := p.chains[pos := []], loc := p.loc - FlightOf(p, pos).Keys, repr := p.repr - ElementsOf(p.chains[pos]))
  }

  lemma StartLayout(p: Half, pos: nat)
    requires Layout(p, pos) && pos < |p.heads|
    ensures |p.chains| == |p.heads| && Layout(WithoutChain(p, pos), pos + 1)
  {
    var g, c := WithoutChain(p, pos), p.chains[pos];
    ChainFacts(p, pos, pos);
    forall b | b in g.repr
      ensures BucketOk(g, pos + 1, b)
    {
      assert BucketOk(p, pos, b);
    }
    forall i | pos + 1 <= i < |g.heads|
      ensures ChainOk(g, i)
    {
      ChainFacts(p, pos, i);
      assert ChainOk(p, i);
    }
  }

  lemma StartStored(H: Hash, p: Half, pos: nat, M: map<Key, Item>)
    requires Layout(p, pos) && Stored(H, p, M, {}) && pos < |p.heads|
    ensures |p.chains| == |p.heads| && Stored(H, WithoutChain(p, pos), M, {})
  {
    hide Bit, TagAt, TagOf, BucketIndex;
    var g := WithoutChain(p, pos);
    ChainFacts(p, pos, pos);
    forall b, s | b in g.repr && 0 <= s < SLOTS
      ensures SlotOk(H, g, b, s) && ItemOk(M, {}, b, s)
    {
      assert SlotOk(H, p, b, s) && ItemOk(M, {}, b, s);
    }
    forall k | k in g.loc
      ensures KeyOk(g, k)
    {
      assert KeyOk(p, k);
    }
  }

  lemma StartFlightOk(H: Hash, p: Half, pos: nat, M: map<Key, Item>)
    requires Layout(p, pos) && Stored(H, p, M, {}) && pos < |p.heads|
    ensures |p.chains| == |p.heads|
    ensures FlightOk(ElementsOf(p.chains[pos]), FlightOf(p, pos), M)
    ensures forall k | k in FlightOf(p, pos) :: BucketIndex(H(k), |p.heads|) == pos
  {
    hide Bit, TagAt, TagOf, BucketIndex;
    var fl, c := FlightOf(p, pos), ElementsOf(p.chains[pos]);
    ChainFacts(p, pos, pos);
    forall b, s | b in c && 0 <= s < SLOTS
      ensures b.WellFormed() && FlightSlotOk(b, s, fl, M)
    {
      assert SlotOk(H, p, b, s) && ItemOk(M, {}, b, s);
    }
    forall k | k in fl
      ensures FlightKeyOk(c, fl, k) && BucketIndex(H(k), |p.heads|) == pos
    {
      assert KeyOk(p, k) && SlotOk(H, p, p.loc[k].b, p.loc[k].s);
    }
  }

  lemma StartKeys(p: Half, pos: nat, q: Half, M: map<Key, Item>)
    requires pos < |p.chains|
    requires M.Keys == p.loc.Keys + q.loc.Keys && p.loc.Keys !! q.loc.Keys
    ensures var g, fl := WithoutChain(p, pos), FlightOf(p, pos);
      Split(M.Keys, g.loc.Keys, q.loc.Keys, fl.Keys) && |g.loc.Keys| + |fl.Keys| == |p.loc.Keys|
    ensures var g := WithoutChain(p, pos); g.heads == p.heads && g.repr == p.repr - ElementsOf(p.chains[pos])
  {
    hide Split;
    var g, fl := WithoutChain(p, pos), FlightOf(p, pos);
    assert g.loc.Keys == p.loc.Keys - fl.Keys && fl.Keys <= p.loc.Keys;
    PutInFlight(M.Keys, p.loc.Keys, q.loc.Keys, fl.Keys);
  }

  lemma PutInFlight<T>(all: set<T>, a: set<T>, b: set<T>, f: set<T>)
    requires all == a + b && a !! b && f <= a
    ensures Split(all, a - f, b, f) && |a - f| + |f| == |a|
  {
  }

  // Taking chain pos out of the old half puts its keys in flight.
  lemma StartFlight(H: Hash, n: nat, pos: nat, p: Half, q: Half, M: map<Key, Item>)
    requires TwoHalves(H, n, pos, p, q, M, {}) && q.heads != [] && pos < n
    requires M.Keys == p.loc.Keys + q.loc.Keys && p.loc.Keys !! q.loc.Keys
    ensures |p.chains| == n
    ensures InFlight(H, n, pos + 1, WithoutChain(p, pos), q, M, ElementsOf(p.chains[pos]), FlightOf(p, pos))
    ensures |WithoutChain(p, pos).loc.Keys| + |FlightOf(p, pos).Keys| == |p.loc.Keys|
    ensures Linked(p.chains[pos]) && p.chains[pos][0] == p.heads[pos] && ElementsOf(p.chains[pos]) <= p.repr
    ensures WithoutChain(p, pos).heads == p.heads && WithoutChain(p, pos).repr == p.repr - ElementsOf(p.chains[pos])
  {
    hide Layout, Stored, FlightOk, IsPow2, BucketIndex, Split, FlightOf, WithoutChain;
    StartLayout(p, pos);
    StartStored(H, p, pos, M);
    StartFlightOk(H, p, pos, M);
    StartKeys(p, pos, q, M);
    ChainFacts(p, pos, pos);
  }

  lemma LandFlight(H: Hash, n: nat, pos: nat, p: Half, q: Half, M: map<Key, Item>, c: set<Bucket>)
    requires InFlight(H, n, pos, p, q, M, c, map[])
    ensures TwoHalves(H, n, pos, p, q, M, {}) && KeysSplit(M.Keys, p.loc.Keys, q.loc.Keys, {})
  {
    hide Layout, Stored, FlightOk, IsPow2, BucketIndex, TwoHalves;
  }

  // Once the last chain is migrated the old half is empty and the new one stands alone.
  lemma LandLastFlight(H: Hash, n: nat, p: Half, q: Half, M: map<Key, Item>, c: set<Bucket>)
    requires InFlight(H, n, n, p, q, M, c, map[])
    ensures TwoHalves(H, 2 * n, 0, q, NO_HALF, M, {}) && p.loc.Keys == {} && KeysSplit(M.Keys, q.loc.Keys, {}, {})
  {
    hide Bit, TagAt, TagOf, BucketIndex, IsPow2, Stored;
    Pow2Doubles(n);
    forall k | k in p.loc
      ensures p.loc[k].b in p.repr
    {
      StoredInside(H, p, M, k);
    }
    assert forall b | b in p.repr :: BucketOk(p, n, b);
  }

  lemma StoredInside(H: Hash, p: Half, M: map<Key, Item>, k: Key)
    requires Stored(H, p, M, {}) && k in p.loc
    ensures p.loc[k].b in p.repr
  {
    assert KeyOk(p, k);
  }

  lemma FlightEnds(c: set<Bucket>, fl: map<Key, Slot>, M: map<Key, Item>)
    requires FlightOk(c, fl, M) && forall b, s | b in c && 0 <= s < SLOTS :: !b.Busy(s)
    ensures fl == map[]
  {
    assert forall k | k in fl :: FlightKeyOk(c, fl, k);
    assert fl.Keys == {};
  }

  // ---- the state of a table

  datatype State = State(scaleAtSize: nat, migrationPos: nat,
                         oldSize: nat, oldBuckets: seq<Bucket>, p: Half,
                         newSize: nat, newBuckets: seq<Bucket>, q: Half,
                         M: map<Key, Item>, mapped: bool)

  function ScaleAt(count: nat): nat {
    count * SLOTS * 3 / 4
  }

  ghost predicate Loaded(t: State) {
    t.scaleAtSize == 6 * |t.oldBuckets| &&
    (t.mapped ==>
      t.oldSize + t.newSize <=
        if t.newBuckets == [] then 6 * |t.oldBuckets| else 6 * |t.oldBuckets| + 1 + t.migrationPos)
  }

  // One more item may be added.
  ghost predicate Roomy(t: State) {
    t.mapped ==>
      t.oldSize + t.newSize < if t.newBuckets == [] then 6 * |t.oldBuckets| else 6 * |t.oldBuckets| + 1 + t.migrationPos
  }

  // Sizes, positions and key sets fit together; the open keys may be stored without being in the map.
  ghost predicate Sized(t: State, open: set<Key>) {
    t.p.heads == t.oldBuckets && t.q.heads == t.newBuckets &&
    (if t.newBuckets == [] then t.migrationPos == 0 else t.migrationPos < |t.oldBuckets|) &&
    KeysSplit(t.M.Keys, t.p.loc.Keys, t.q.loc.Keys, open) &&
    t.oldSize == |t.p.loc.Keys| && t.newSize == |t.q.loc.Keys| && Loaded(t)
  }

  ghost predicate ShapeOf(H: Hash, t: State, open: set<Key>)
    reads t.p.repr`slotStates, t.p.repr`hashTags, t.p.repr`items, t.p.repr`keys, t.p.repr`next
    reads t.q.repr`slotStates, t.q.repr`hashTags, t.q.repr`items, t.q.repr`keys, t.q.repr`next
  {
    Sized(t, open) && TwoHalves(H, |t.oldBuckets|, t.migrationPos, t.p, t.q, t.M, open)
  }

  // In the middle of migrating a chain with buckets c, with the keys fl not yet moved.
  ghost predicate MovingOf(H: Hash, t: State, c: set<Bucket>, fl: map<Key, Slot>)
    reads t.p.repr`slotStates, t.p.repr`hashTags, t.p.repr`items, t.p.repr`keys, t.p.repr`next
    reads t.q.repr`slotStates, t.q.repr`hashTags, t.q.repr`items, t.q.repr`keys, t.q.repr`next
    reads c`slotStates, c`items, c`keys
  {
    Counted(t, fl) && InFlight(H, |t.oldBuckets|, t.migrationPos, t.p, t.q, t.M, c, fl)
  }

  ghost predicate Counted(t: State, fl: map<Key, Slot>) {
    t.p.heads == t.oldBuckets && t.q.heads == t.newBuckets && t.scaleAtSize == 6 * |t.oldBuckets| &&
    t.oldSize == |t.p.loc.Keys| + |fl.Keys| && t.newSize == |t.q.loc.Keys| &&
    (t.mapped ==> t.oldSize + t.newSize <= 6 * |t.oldBuckets| + t.migrationPos)
  }

  ghost function Begun(t: State): State
    requires t.migrationPos < |t.p.chains|
  {
    t.(migrationPos := t.migrationPos + 1, p := WithoutChain(t.p, t.migrationPos))
  }

  lemma ClosedSplit<T>(m: set<T>, a: set<T>, b: set<T>)
    requires KeysSplit(m, a, b, {})
    ensures m == a + b && a !! b
  {
  }

  // A table whose migration runs, between two steps.
  lemma Running(H: Hash, t: State)
    requires ShapeOf(H, t, {}) && t.newBuckets != []
    ensures TwoHalves(H, |t.oldBuckets|, t.migrationPos, t.p, t.q, t.M, {}) && t.migrationPos < |t.oldBuckets|
    ensures t.M.Keys == t.p.loc.Keys + t.q.loc.Keys && t.p.loc.Keys !! t.q.loc.Keys
    ensures t.p.heads == t.oldBuckets && t.q.heads == t.newBuckets && t.scaleAtSize == 6 * |t.oldBuckets|
    ensures t.oldSize == |t.p.loc.Keys| && t.newSize == |t.q.loc.Keys|
    ensures t.mapped ==> t.oldSize + t.newSize <= 6 * |t.oldBuckets| + 1 + t.migrationPos
  {
    hide TwoHalves, KeysSplit;
    ClosedSplit(t.M.Keys, t.p.loc.Keys, t.q.loc.Keys);
  }

  lemma BeginState(H: Hash, t: State)
    requires ShapeOf(H, t, {}) && t.newBuckets != []
    ensures t.migrationPos < |t.p.chains| == |t.oldBuckets|
    ensures MovingOf(H, Begun(t), ElementsOf(t.p.chains[t.migrationPos]), FlightOf(t.p, t.migrationPos))
  {
    hide InFlight, WithoutChain, FlightOf, TwoHalves, ShapeOf;
    Running(H, t);
    StartFlight(H, |t.oldBuckets|, t.migrationPos, t.p, t.q, t.M);
  }

  lemma BeginChain(H: Hash, t: State)
    requires ShapeOf(H, t, {}) && t.newBuckets != []
    ensures t.migrationPos < |t.p.chains| == |t.oldBuckets|
    ensures var chain := t.p.chains[t.migrationPos];
      Linked(chain) && chain[0] == t.oldBuckets[t.migrationPos] && ElementsOf(chain) + Begun(t).p.repr <= t.p.repr
  {
    hide InFlight, FlightOf, KeysSplit;
    ClosedSplit(t.M.Keys, t.p.loc.Keys, t.q.loc.Keys);
    StartFlight(H, |t.oldBuckets|, t.migrationPos, t.p, t.q, t.M);
  }

  ghost function Shifted(t: State, g: Half): State
    requires t.oldSize > 0
  {
    t.(oldSize := t.oldSize - 1, newSize := t.newSize + 1, q := g)
  }

  ghost function Finished(t: State): State {
    State(ScaleAt(|t.newBuckets|), 0, t.newSize, t.newBuckets, t.q, 0, [], NO_HALF, t.M, t.mapped)
  }

  lemma EndState(H: Hash, t: State, c: set<Bucket>)
    requires MovingOf(H, t, c, map[])
    ensures t.migrationPos <= |t.oldBuckets| && |t.newBuckets| == 2 * |t.oldBuckets|
    ensures t.migrationPos < |t.oldBuckets| ==> ShapeOf(H, t, {}) && Roomy(t)
  {
    hide TwoHalves, FlightOk, IsPow2, Split, KeysSplit;
    SizesOf(H, t, c, map[]);
    LandFlight(H, |t.oldBuckets|, t.migrationPos, t.p, t.q, t.M, c);
  }

  lemma FinishState(H: Hash, t: State, c: set<Bucket>)
    requires MovingOf(H, t, c, map[]) && t.migrationPos == |t.oldBuckets|
    ensures ShapeOf(H, Finished(t), {}) && t.oldSize == 0
    ensures t.mapped ==> t.newSize < ScaleAt(|t.newBuckets|)
  {
    hide TwoHalves, FlightOk, IsPow2, Split, KeysSplit;
    SizesOf(H, t, c, map[]);
    LandLastFlight(H, |t.oldBuckets|, t.p, t.q, t.M, c);
  }

  lemma SizesOf(H: Hash, t: State, c: set<Bucket>, fl: map<Key, Slot>)
    requires MovingOf(H, t, c, fl)
    ensures 1 <= t.migrationPos <= |t.oldBuckets| && |t.newBuckets| == 2 * |t.oldBuckets|
    ensures t.p.repr !! t.q.repr !! c && FlightOk(c, fl, t.M)
  {
    hide FlightOk, IsPow2;
  }

  lemma MovingSlot(H: Hash, t: State, c: set<Bucket>, fl: map<Key, Slot>, b: Bucket, s: nat)
    requires MovingOf(H, t, c, fl) && b in c && s < SLOTS && b.Busy(s)
    ensures b.WellFormed() && b.items[s] != null && t.oldSize > 0 && t.q.heads == t.newBuckets && Counted(t, fl)
    ensures InFlight(H, |t.oldBuckets|, t.migrationPos, t.p, t.q, t.M, c, fl)
  {
    hide TwoHalves, Split;
    FlightSlot(b, s, c, fl, t.M);
    assert b.keys[s] in fl.Keys;
  }

  lemma ShiftState(H: Hash, t: State, c: set<Bucket>, fl: map<Key, Slot>, g: Half, rest: map<Key, Slot>)
    requires Counted(t, fl) && g.heads == t.newBuckets && t.oldSize > 0
    requires InFlight(H, |t.oldBuckets|, t.migrationPos, t.p, g, t.M, c, rest)
    requires |g.loc.Keys| == |t.q.loc.Keys| + 1 && |rest.Keys| == |fl.Keys| - 1
    ensures MovingOf(H, Shifted(t, g), c, rest)
  {
    hide InFlight;
  }

  // ---- one set, get or delete

  lemma RoutedTo(H: Hash, t: State, key: Key)
    requires ShapeOf(H, t, {})
    ensures |t.oldBuckets| > 0 && IsPow2(|t.oldBuckets|)
    ensures BucketIndex(H(key), |t.oldBuckets|) < t.migrationPos ==> key !in t.p.loc && t.newBuckets != []
    ensures BucketIndex(H(key), |t.oldBuckets|) >= t.migrationPos ==> key !in t.q.loc
    ensures key in t.M <==> key in t.p.loc || key in t.q.loc
  {
    hide BucketIndex, Layout, Stored, IsPow2;
    if key in t.p.loc {
      StoredIndex(H, t.p, t.migrationPos, t.M, {}, key);
    }
    assert key in t.M.Keys + {} <==> key in t.p.loc.Keys + t.q.loc.Keys + {};
    Pow2Positive(|t.oldBuckets|);
  }

  // The halves of a table at rest.
  lemma Rest(H: Hash, t: State, open: set<Key>)
    requires ShapeOf(H, t, open)
    ensures IsPow2(|t.oldBuckets|) && t.p.repr !! t.q.repr && Sized(t, open) && t.p.heads == t.oldBuckets &&
      t.q.heads == t.newBuckets
    ensures Layout(t.p, t.migrationPos) && Stored(H, t.p, t.M, open) && NewOk(H, |t.oldBuckets|, t.q, t.M, open)
    ensures t.newBuckets != [] ==>
      |t.newBuckets| == 2 * |t.oldBuckets| && IsPow2(|t.newBuckets|) && Layout(t.q, 0) && Stored(H, t.q, t.M, open)
    ensures NewKeysBelow(H, |t.oldBuckets|, t.migrationPos, t.q)
  {
    hide IsPow2, Layout, Stored, KeysSplit;
    Pow2Positive(|t.oldBuckets|);
    Pow2Doubles(|t.oldBuckets|);
  }

  ghost predicate NewKeysBelow(H: Hash, n: nat, pos: nat, q: Half) {
    n > 0 && forall k | k in q.loc :: BucketIndex(H(k), n) < pos
  }

  lemma NewOkAgrees(H: Hash, n: nat, q: Half, M: map<Key, Item>, open: set<Key>, N: map<Key, Item>, wider: set<Key>)
    requires NewOk(H, n, q, M, open) && open <= wider
    requires forall k | k in q.loc && k in M && k !in wider :: k in N && N[k] == M[k]
    ensures NewOk(H, n, q, N, wider)
  {
    hide Layout, Stored;
    if q.heads != [] {
      MapAgrees(H, q, M, open, N, wider);
    }
  }

  lemma Assemble(H: Hash, n: nat, pos: nat, p: Half, q: Half, M: map<Key, Item>, open: set<Key>)
    requires IsPow2(n) && |p.heads| == n && p.repr !! q.repr && NewKeysBelow(H, n, pos, q)
    requires Layout(p, pos) && Stored(H, p, M, open) && NewOk(H, n, q, M, open)
    ensures TwoHalves(H, n, pos, p, q, M, open)
  {
    hide IsPow2, Layout, Stored, NewOk;
  }

  ghost function ClaimedOld(t: State, g: Half, added: bool): State {
    t.(p := g, oldSize := t.oldSize + if added then 1 else 0)
  }

  ghost function ClaimedNew(t: State, g: Half, added: bool): State {
    t.(q := g, newSize := t.newSize + if added then 1 else 0)
  }

  lemma AddKey<T>(m: set<T>, a: set<T>, b: set<T>, k: T)
    requires KeysSplit(m, a, b, {}) && k !in b
    ensures KeysSplit(m, a + {k}, b, {k}) && KeysSplit(m, b, a + {k}, {k}) && |a + {k}| == |a| + if k in a then 0 else 1
    ensures k in a ==> a + {k} == a
  {
    assert m + {k} == a + {k} + b + {k};
    assert m + {k} == b + (a + {k}) + {k};
  }

  lemma SwapKeys<T>(m: set<T>, a: set<T>, b: set<T>)
    requires KeysSplit(m, a, b, {})
    ensures KeysSplit(m, b, a, {})
  {
  }

  lemma KeepSized(t: State, g: Half)
    requires Sized(t, {})
    ensures g.heads == t.oldBuckets && g.loc == t.p.loc ==> Sized(ClaimedOld(t, g, false), {})
    ensures g.heads == t.newBuckets && g.loc == t.q.loc ==> Sized(ClaimedNew(t, g, false), {})
  {
    hide KeysSplit;
  }

  lemma SameKeysPlus<V>(was: map<Key, V>, loc: map<Key, V>, key: Key, s: V)
    requires loc == was[key := s]
    ensures loc.Keys == was.Keys + {key} && (key in was <==> key in was.Keys)
  {
  }

  lemma ClaimOldSized(t: State, g: Half, key: Key, added: bool)
    requires Sized(t, {}) && Roomy(t) && key !in t.q.loc
    requires g.heads == t.oldBuckets && g.loc.Keys == t.p.loc.Keys + {key} && (added <==> key !in t.p.loc.Keys)
    ensures Sized(ClaimedOld(t, g, added), {key})
  {
    hide KeysSplit;
    AddKey(t.M.Keys, t.p.loc.Keys, t.q.loc.Keys, key);
  }

  lemma ClaimNewSized(t: State, g: Half, key: Key, added: bool)
    requires Sized(t, {}) && Roomy(t) && key !in t.p.loc
    requires g.heads == t.newBuckets && g.loc.Keys == t.q.loc.Keys + {key} && (added <==> key !in t.q.loc.Keys)
    ensures Sized(ClaimedNew(t, g, added), {key})
  {
    hide KeysSplit;
    SwapKeys(t.M.Keys, t.p.loc.Keys, t.q.loc.Keys);
    AddKey(t.M.Keys, t.q.loc.Keys, t.p.loc.Keys, key);
  }

  lemma ClaimOldShape(H: Hash, t: State, g: Half, key: Key, s: Slot, added: bool)
    requires IsPow2(|t.oldBuckets|) && Sized(t, {}) && Roomy(t) && t.p.heads == t.oldBuckets
    requires NewOk(H, |t.oldBuckets|, t.q, t.M, {}) && NewKeysBelow(H, |t.oldBuckets|, t.migrationPos, t.q)
    requires Layout(g, t.migrationPos) && Stored(H, g, t.M, {key}) && g.heads == t.oldBuckets && g.repr !! t.q.repr
    requires g.loc == t.p.loc[key := s] && (added <==> key !in t.p.loc) && key !in t.q.loc
    requires !added ==> g.loc == t.p.loc
    ensures ShapeOf(H, ClaimedOld(t, g, added), {key})
    ensures !added && Stored(H, g, t.M, {}) ==> ShapeOf(H, ClaimedOld(t, g, added), {})
  {
    hide Sized, TwoHalves, Layout, Stored, NewOk, NewKeysBelow, IsPow2, Roomy;
    SameKeysPlus(t.p.loc, g.loc, key, s);
    ClaimOldSized(t, g, key, added);
    NewOkAgrees(H, |t.oldBuckets|, t.q, t.M, {}, t.M, {key});
    Assemble(H, |t.oldBuckets|, t.migrationPos, g, t.q, t.M, {key});
    if !added && Stored(H, g, t.M, {}) {
      KeepSized(t, g);
      Assemble(H, |t.oldBuckets|, t.migrationPos, g, t.q, t.M, {});
    }
  }

  lemma ClaimNewShape(H: Hash, t: State, g: Half, key: Key, s: Slot, added: bool)
    requires IsPow2(|t.oldBuckets|) && Sized(t, {}) && Roomy(t) && t.q.heads == t.newBuckets != [] &&
      t.p.heads == t.oldBuckets
    requires |t.newBuckets| == 2 * |t.oldBuckets| && NewKeysBelow(H, |t.oldBuckets|, t.migrationPos, t.q)
    requires Layout(t.p, t.migrationPos) && Stored(H, t.p, t.M, {})
    requires Layout(g, 0) && Stored(H, g, t.M, {key}) && g.heads == t.newBuckets && t.p.repr !! g.repr
    requires g.loc == t.q.loc[key := s] && (added <==> key !in t.q.loc) && key !in t.p.loc
    requires BucketIndex(H(key), |t.oldBuckets|) < t.migrationPos
    requires !added ==> g.loc == t.q.loc
    ensures ShapeOf(H, ClaimedNew(t, g, added), {key})
    ensures !added && Stored(H, g, t.M, {}) ==> ShapeOf(H, ClaimedNew(t, g, added), {})
  {
    hide Sized, TwoHalves, Layout, Stored, IsPow2, Roomy, BucketIndex;
    SameKeysPlus(t.q.loc, g.loc, key, s);
    ClaimNewSized(t, g, key, added);
    MapAgrees(H, t.p, t.M, {}, t.M, {key});
    Assemble(H, |t.oldBuckets|, t.migrationPos, t.p, g, t.M, {key});
    if !added && Stored(H, g, t.M, {}) {
      KeepSized(t, g);
      Assemble(H, |t.oldBuckets|, t.migrationPos, t.p, g, t.M, {});
    }
  }

  // ---- deleting a key

  ghost function DeletedOld(t: State, g: Half, key: Key): State {
    LessOld(t, g, key in t.p.loc, t.M - {key})
  }

  ghost function DeletedNew(t: State, g: Half, key: Key): State {
    LessNew(t, g, key in t.q.loc, t.M - {key})
  }

  ghost function LessOld(t: State, g: Half, found: bool, N: map<Key, Item>): State {
    t.(p := g, oldSize := if found && t.oldSize > 0 then t.oldSize - 1 else t.oldSize, M := N)
  }

  ghost function LessNew(t: State, g: Half, found: bool, N: map<Key, Item>): State {
    t.(q := g, newSize := if found && t.newSize > 0 then t.newSize - 1 else t.newSize, M := N)
  }

  lemma DropKey<T>(m: set<T>, a: set<T>, b: set<T>, k: T)
    requires KeysSplit(m, a, b, {}) && k !in b
    ensures KeysSplit(m - {k}, a - {k}, b, {}) && KeysSplit(m - {k}, b, a - {k}, {})
    ensures k in a ==> |a| > 0 && |a - {k}| == |a| - 1
    ensures k !in a ==> a - {k} == a
  {
    assert m + {} == m && a + b + {} == a + b;
    assert m - {k} == (a - {k}) + b;
    assert m - {k} + {} == a - {k} + b + {};
    assert m - {k} + {} == b + (a - {k}) + {};
  }

  lemma SameKeysLess<V>(was: map<Key, V>, loc: map<Key, V>, key: Key)
    requires loc == was - {key}
    ensures loc.Keys == was.Keys - {key} && (key in was <==> key in was.Keys)
  {
  }

  lemma DeleteOldSized(t: State, g: Half, key: Key, N: map<Key, Item>)
    requires Sized(t, {}) && key !in t.q.loc.Keys && g.heads == t.oldBuckets
    requires g.loc.Keys == t.p.loc.Keys - {key} && N.Keys == t.M.Keys - {key}
    ensures Sized(LessOld(t, g, key in t.p.loc.Keys, N), {})
    ensures key in t.p.loc.Keys ==> t.oldSize > 0
  {
    hide KeysSplit;
    DropKey(t.M.Keys, t.p.loc.Keys, t.q.loc.Keys, key);
  }

  lemma DeleteNewSized(t: State, g: Half, key: Key, N: map<Key, Item>)
    requires Sized(t, {}) && key !in t.p.loc.Keys && g.heads == t.newBuckets
    requires g.loc.Keys == t.q.loc.Keys - {key} && N.Keys == t.M.Keys - {key}
    ensures Sized(LessNew(t, g, key in t.q.loc.Keys, N), {})
    ensures key in t.q.loc.Keys ==> t.newSize > 0
  {
    hide KeysSplit;
    SwapKeys(t.M.Keys, t.p.loc.Keys, t.q.loc.Keys);
    DropKey(t.M.Keys, t.q.loc.Keys, t.p.loc.Keys, key);
  }

  lemma DeleteOldShape(H: Hash, t: State, g: Half, key: Key)
    requires IsPow2(|t.oldBuckets|) && Sized(t, {}) && t.p.heads == t.oldBuckets && t.p.repr !! t.q.repr
    requires NewOk(H, |t.oldBuckets|, t.q, t.M, {}) && NewKeysBelow(H, |t.oldBuckets|, t.migrationPos, t.q)
    requires g == t.p.(loc := t.p.loc - {key}) && Layout(g, t.migrationPos) && Stored(H, g, t.M - {key}, {}) &&
      key !in t.q.loc
    ensures ShapeOf(H, DeletedOld(t, g, key), {}) && (key in t.p.loc ==> t.oldSize > 0)
  {
    hide Sized, TwoHalves, Layout, Stored, NewOk, NewKeysBelow, IsPow2;
    SameKeysLess(t.p.loc, g.loc, key);
    SameKeysLess(t.M, t.M - {key}, key);
    DeleteOldSized(t, g, key, t.M - {key});
    NewOkAgrees(H, |t.oldBuckets|, t.q, t.M, {}, t.M - {key}, {});
    Assemble(H, |t.oldBuckets|, t.migrationPos, g, t.q, t.M - {key}, {});
  }

  lemma DeleteNewShape(H: Hash, t: State, g: Half, key: Key)
    requires IsPow2(|t.oldBuckets|) && Sized(t, {}) && t.p.heads == t.oldBuckets && t.p.repr !! t.q.repr
    requires t.q.heads == t.newBuckets != [] && |t.newBuckets| == 2 * |t.oldBuckets|
    requires NewKeysBelow(H, |t.oldBuckets|, t.migrationPos, t.q)
    requires Layout(t.p, t.migrationPos) && Stored(H, t.p, t.M, {})
    requires g == t.q.(loc := t.q.loc - {key}) && Layout(g, 0) && Stored(H, g, t.M - {key}, {}) && key !in t.p.loc
    ensures ShapeOf(H, DeletedNew(t, g, key), {}) && (key in t.q.loc ==> t.newSize > 0)
  {
    hide Sized, TwoHalves, Layout, Stored, IsPow2, BucketIndex;
    SameKeysLess(t.q.loc, g.loc, key);
    SameKeysLess(t.M, t.M - {key}, key);
    DeleteNewSized(t, g, key, t.M - {key});
    MapAgrees(H, t.p, t.M, {}, t.M - {key}, {});
    Assemble(H, |t.oldBuckets|, t.migrationPos, t.p, g, t.M - {key}, {});
  }

  // ---- writing an item pointer into a reserved slot

  lemma CloseSplit<T>(m: set<T>, a: set<T>, b: set<T>, k: T)
    requires KeysSplit(m, a, b, {k}) && (k in a || k in b)
    ensures KeysSplit(m + {k}, a, b, {})
  {
    assert m + {k} + {} == m + {k} && a + b + {} == a + b && a + b + {k} == a + b;
  }

  lemma StoredKeys(t: State, key: Key, item: Item)
    requires Sized(t, {key}) && (key in t.p.loc.Keys || key in t.q.loc.Keys)
    ensures Sized(t.(M := t.M[key := item]), {})
  {
    hide KeysSplit;
    CloseSplit(t.M.Keys, t.p.loc.Keys, t.q.loc.Keys, key);
    SameKeysPlus(t.M, t.M[key := item], key, item);
  }

  lemma StoreShape(H: Hash, t: State, key: Key, item: Item)
    requires IsPow2(|t.oldBuckets|) && Sized(t, {key}) && t.p.heads == t.oldBuckets && t.p.repr !! t.q.repr
    requires NewKeysBelow(H, |t.oldBuckets|, t.migrationPos, t.q) && Layout(t.p, t.migrationPos)
    requires Stored(H, t.p, t.M[key := item], {}) && NewOk(H, |t.oldBuckets|, t.q, t.M[key := item], {})
    requires key in t.p.loc || key in t.q.loc
    ensures ShapeOf(H, t.(M := t.M[key := item]), {})
  {
    hide TwoHalves, Sized, Layout, Stored, NewOk, NewKeysBelow, IsPow2;
    StoredKeys(t, key, item);
    Assemble(H, |t.oldBuckets|, t.migrationPos, t.p, t.q, t.M[key := item], {});
  }

  // An open key that a half does not store is no obstacle.
  lemma CloseKey(H: Hash, h: Half, M: map<Key, Item>, key: Key, N: map<Key, Item>)
    requires Stored(H, h, M, {key}) && key !in h.loc
    requires forall k | k in M && k != key :: k in N && N[k] == M[k]
    ensures Stored(H, h, N, {})
  {
    hide Bit, TagAt, TagOf, BucketIndex;
    forall b, s | b in h.repr && 0 <= s < SLOTS
      ensures ItemOk(N, {}, b, s)
    {
      assert SlotOk(H, h, b, s) && ItemOk(M, {key}, b, s);
    }
  }

  lemma CloseNew(H: Hash, n: nat, q: Half, M: map<Key, Item>, key: Key, N: map<Key, Item>)
    requires NewOk(H, n, q, M, {key}) && key !in q.loc
    requires forall k | k in M && k != key :: k in N && N[k] == M[k]
    ensures NewOk(H, n, q, N, {})
  {
    hide Layout, Stored;
    if q.heads != [] {
      CloseKey(H, q, M, key, N);
    }
  }

  lemma OneHalf(t: State, open: set<Key>, key: Key)
    requires Sized(t, open)
    ensures !(key in t.p.loc && key in t.q.loc)
    ensures t.newBuckets == [] && t.q == NO_HALF ==> key !in t.q.loc
  {
    assert key in t.p.loc.Keys * t.q.loc.Keys <==> key in t.p.loc && key in t.q.loc;
  }

  lemma IdleNew(H: Hash, t: State)
    requires ShapeOf(H, t, {}) && t.newBuckets == []
    ensures t.q == NO_HALF && t.newSize == 0 && t.migrationPos == 0 && t.scaleAtSize == 6 * |t.oldBuckets| &&
      |t.oldBuckets| > 0
  {
    hide Layout, Stored, IsPow2, KeysSplit;
    Pow2Positive(|t.oldBuckets|);
  }

  lemma StartState(H: Hash, t: State, h: Half)
    requires ShapeOf(H, t, {}) && t.newBuckets == []
    requires Blank(h) && |h.heads| == 2 * |t.oldBuckets| && h.repr !! t.p.repr
    ensures ShapeOf(H, t.(newBuckets := h.heads, q := h), {})
    ensures Roomy(t.(newBuckets := h.heads, q := h))
  {
    hide Layout, Stored, IsPow2, KeysSplit;
    BlankStored(H, h, t.M);
    BlankLayout(h);
    Pow2Positive(|t.oldBuckets|);
  }

  lemma BlankLayout(h: Half)
    requires Blank(h)
    ensures Layout(h, 0) && h.loc == map[]
  {
  }

  lemma NewInUse(H: Hash, n: nat, q: Half, M: map<Key, Item>, open: set<Key>)
    requires NewOk(H, n, q, M, open)
    ensures q.loc != map[] ==> q.heads != [] && Layout(q, 0) && Stored(H, q, M, open)
    ensures q.heads != [] ==> |q.heads| == 2 * n
  {
    hide Layout, Stored;
  }

  lemma NewIntro(H: Hash, n: nat, q: Half, M: map<Key, Item>)
    requires q.heads != [] && |q.heads| == 2 * n && Layout(q, 0) && Stored(H, q, M, {})
    ensures NewOk(H, n, q, M, {})
  {
  }

  lemma OpenSlotBusy(H: Hash, h: Half, M: map<Key, Item>, key: Key, b: Bucket, slot: nat)
    requires Stored(H, h, M, {key}) && key in h.loc && h.loc[key] == Slot(b, slot)
    ensures slot < SLOTS && b.WellFormed() && b.Busy(slot) && b.Tag(slot) == TagOf(H(key))
  {
    hide TagAt, TagOf, BucketIndex, Bit;
    assert KeyOk(h, key) && SlotOk(H, h, b, slot);
  }

  // Keys of different old buckets go to different new buckets.
  lemma DifferentTargets(H: Hash, key: Key, k: Key, n: nat)
    requires IsPow2(n) && n > 0 && BucketIndex(H(key), n) != BucketIndex(H(k), n)
    ensures BucketIndex(H(key), 2 * n) != BucketIndex(H(k), 2 * n)
  {
    hide BucketIndex, IsPow2;
    IndexDoubles(H(key), n);
    IndexDoubles(H(k), n);
    IndexInRange(H(key), n);
    IndexInRange(H(k), n);
  }

  class Table {
    const H: Hash
    var scaleAtSize: nat
    var migrationPos: nat
    var oldSize: nat
    var oldBuckets: seq<Bucket>
    var newSize: nat
    var newBuckets: seq<Bucket>   // no buckets when no migration runs
    ghost var p: Half             // the old half
    ghost var q: Half             // the new half
    ghost var M: map<Key, Item>   // the map the table stands for
    ghost var mapped: bool        // every request for bucket memory has succeeded

    ghost function St(): State
      reads this
    {
      State(scaleAtSize, migrationPos, oldSize, oldBuckets, p, newSize, newBuckets, q, M, mapped)
    }

    ghost function Repr(): set<Bucket>
      reads this
    {
      p.repr + q.repr
    }

    ghost predicate Shape(open: set<Key>)
      reads this
      reads p.repr`slotStates, p.repr`hashTags, p.repr`items, p.repr`keys, p.repr`next
      reads q.repr`slotStates, q.repr`hashTags, q.repr`items, q.repr`keys, q.repr`next
    {
      ShapeOf(H, St(), open)
    }

    ghost predicate Valid()
      reads this, M.Values`keyLen, M.Values`data
      reads p.repr`slotStates, p.repr`hashTags, p.repr`items, p.repr`keys, p.repr`next
      reads q.repr`slotStates, q.repr`hashTags, q.repr`items, q.repr`keys, q.repr`next
    {
      Shape({}) && KeysMatch(M)
    }

    ghost predicate Moving(c: set<Bucket>, fl: map<Key, Slot>)
      reads this, c`slotStates, c`items, c`keys
      reads p.repr`slotStates, p.repr`hashTags, p.repr`items, p.repr`keys, p.repr`next
      reads q.repr`slotStates, q.repr`hashTags, q.repr`items, q.repr`keys, q.repr`next
    {
      MovingOf(H, St(), c, fl)
    }

    lemma MovingBusySlot(c: set<Bucket>, fl: map<Key, Slot>, b: Bucket, s: nat)
      requires Moving(c, fl) && b in c && s < SLOTS && b.Busy(s)
      ensures b.WellFormed() && b.items[s] != null
    {
      MovingSlot(H, St(), c, fl, b, s);
    }

    lemma MovingSizes(c: set<Bucket>, fl: map<Key, Slot>)
      requires Moving(c, fl)
      ensures p.repr !! q.repr !! c && FlightOk(c, fl, M)
    {
      SizesOf(H, St(), c, fl);
    }

    method MigrateSlot(slot: nat, b: Bucket, item: Item, ghost c: set<Bucket>, ghost fl: map<Key, Slot>)
      returns (ghost rest: map<Key, Slot>)
      requires Moving(c, fl) && KeysMatch(M)
      requires slot < SLOTS && b in c && b.WellFormed() && b.Busy(slot) && item == b.items[slot]
      modifies this`oldSize, this`newSize, this`q, b`slotStates, q.repr
      ensures rest == fl - {old(b.keys[slot])}
      ensures Moving(c, rest) && oldSize + newSize == old(oldSize + newSize)
      ensures !b.Busy(slot) && forall s | 0 <= s < SLOTS && s != slot :: b.Busy(s) == old(b.Busy(s))
      ensures forall d | d in c :: d.next == old(d.next)
      ensures forall d, s | d in c && 0 <= s < SLOTS && d != b :: d.Busy(s) == old(d.Busy(s))
      ensures old(q.repr) <= q.repr && fresh(q.repr - old(q.repr))
    {
      hide InFlight, KeysMatch, Bit, MovingOf, Counted;
      ghost var g, t := NO_HALF, St();
      var added;
      MovingSlot(H, t, c, fl, b, slot);
      g, rest, added := Transfer(H, |oldBuckets|, migrationPos, newBuckets, p, q, M, slot, b, item, c, fl);
      ShiftState(H, t, c, fl, g, rest);
      oldSize := oldSize - 1;
      if added {
        newSize := newSize + 1;
      }
      q := g;
      assert St() == Shifted(t, g);
    }

    method MigrateSlots(b: Bucket, ghost c: set<Bucket>, ghost fl: map<Key, Slot>) returns (ghost rest: map<Key, Slot>)
      requires Moving(c, fl) && KeysMatch(M) && b in c
      modifies this`oldSize, this`newSize, this`q, b`slotStates, q.repr
      ensures Moving(c, rest) && oldSize + newSize == old(oldSize + newSize)
      ensures forall s | 0 <= s < SLOTS :: !b.Busy(s)
      ensures forall d | d in c :: d.next == old(d.next)
      ensures forall d, s | d in c && 0 <= s < SLOTS && d != b :: d.Busy(s) == old(d.Busy(s))
      ensures old(q.repr) <= q.repr && fresh(q.repr - old(q.repr))
    {
      hide Table.Moving, KeysMatch, Bit;
      rest := fl;
      for i := 0 to SLOTS
        invariant Moving(c, rest) && KeysMatch(M) && oldSize + newSize == old(oldSize + newSize)
        invariant forall s | 0 <= s < i :: !b.Busy(s)
        invariant forall d | d in c :: d.next == old(d.next)
        invariant forall d, s | d in c && 0 <= s < SLOTS && d != b :: d.Busy(s) == old(d.Busy(s))
        invariant old(q.repr) <= q.repr && fresh(q.repr - old(q.repr))
      {
        if !b.Busy(i) {
          continue;
        }
        MovingBusySlot(c, rest, b, i);
        rest := MigrateSlot(i, b, b.items[i], c, rest);
      }
    }

    // Empty a bucket and its overflow chain into the new half; the chain's buckets are released.
    method MigrateBucket(bucket: Bucket, ghost chain: seq<Bucket>, ghost fl: map<Key, Slot>)
      requires Linked(chain) && chain[0] == bucket
      requires Moving(ElementsOf(chain), fl) && KeysMatch(M)
      modifies this`oldSize, this`newSize, this`q, chain, q.repr
      ensures Moving(ElementsOf(chain), map[]) && oldSize + newSize == old(oldSize + newSize)
      ensures old(q.repr) <= q.repr && fresh(q.repr - old(q.repr))
    {
      hide Table.Moving, KeysMatch, Bit;
      ghost var c := ElementsOf(chain);
      assert forall j | 0 <= j < |chain| :: LinkAt(chain, j) && chain[j] in c;
      ghost var rest := MigrateSlots(bucket, c, fl);
      var current := bucket.next;
      MovingSizes(c, rest);
      bucket.next := null;
      rest := MigrateChain(current, chain, c, rest);
      MovingSizes(c, rest);
      FlightEnds(c, rest, M);
    }

    method MigrateChain(bucket: Bucket?, ghost chain: seq<Bucket>, ghost c: set<Bucket>, ghost fl: map<Key, Slot>)
      returns (ghost rest: map<Key, Slot>)
      requires |chain| > 0 && bucket == At(chain, 1) &&
        (forall j | 1 <= j < |chain| :: chain[j].next == At(chain, j + 1))
      requires c == ElementsOf(chain) && Moving(c, fl) && KeysMatch(M)
      requires forall s | 0 <= s < SLOTS :: !chain[0].Busy(s)
      modifies this`oldSize, this`newSize, this`q, c`slotStates, q.repr
      ensures Moving(c, rest) && oldSize + newSize == old(oldSize + newSize)
      ensures forall j, s | 0 <= j < |chain| && 0 <= s < SLOTS :: !chain[j].Busy(s)
      ensures old(q.repr) <= q.repr && fresh(q.repr - old(q.repr))
    {
      hide Table.Moving, KeysMatch, Bit, Bucket.Busy;
      assert forall j | 0 <= j < |chain| :: chain[j] in c;
      var current := bucket;
      ghost var i := 1;
      rest := fl;
      while current != null
        invariant 1 <= i <= |chain| && current == At(chain, i)
        invariant forall d | d in c :: d.next == old(d.next)
        invariant Moving(c, rest) && KeysMatch(M) && oldSize + newSize == old(oldSize + newSize)
        invariant forall j, s | 0 <= j < i && 0 <= s < SLOTS :: !chain[j].Busy(s)
        invariant old(q.repr) <= q.repr && fresh(q.repr - old(q.repr))
        decreases |chain| - i
      {
        var next := current.next;
        rest := MigrateSlots(current, c, rest);
        current := next;
        i := i + 1;
      }
    }

    method FinishMigration(ghost c: set<Bucket>)
      requires Moving(c, map[]) && migrationPos == |oldBuckets|
      modifies this`scaleAtSize, this`migrationPos, this`oldBuckets, this`oldSize, this`p, this`newBuckets
      modifies this`newSize, this`q
      ensures Shape({}) && St() == Finished(old(St()))
      ensures oldSize + newSize == old(oldSize + newSize)
      ensures newBuckets == [] && (mapped ==> oldSize < scaleAtSize)
    {
      hide MovingOf, ShapeOf;
      ghost var t := St();
      FinishState(H, t, c);
      migrationPos := 0;
      scaleAtSize := ScaleAt(|newBuckets|);
      oldBuckets := newBuckets;
      oldSize := newSize;
      newBuckets := [];
      newSize := 0;
      p := q;
      q := NO_HALF;
      assert ShapeOf(H, Finished(t), {});
      assert St() == Finished(t);
    }

    method BeginStep() returns (bucket: Bucket, ghost chain: seq<Bucket>, ghost fl: map<Key, Slot>)
      requires Shape({}) && newBuckets != []
      modifies this`migrationPos, this`p
      ensures Linked(chain) && chain[0] == bucket && Moving(ElementsOf(chain), fl)
      ensures migrationPos == old(migrationPos) + 1 && ElementsOf(chain) + p.repr <= old(p.repr)
    {
      hide MovingOf, ShapeOf;
      ghost var t := St();
      BeginState(H, t);
      BeginChain(H, t);
      chain, fl := p.chains[migrationPos], FlightOf(p, migrationPos);
      bucket := oldBuckets[migrationPos];
      p := WithoutChain(p, migrationPos);
      migrationPos := migrationPos + 1;
      assert MovingOf(H, Begun(t), ElementsOf(chain), fl);
      assert St() == Begun(t);
    }

    method ProcessMigrationStep()
      requires Valid() && newBuckets != []
      modifies this`scaleAtSize, this`migrationPos, this`oldBuckets, this`oldSize, this`p, this`newBuckets
      modifies this`newSize, this`q, Repr()
      ensures Valid() && oldSize + newSize == old(oldSize + newSize)
      ensures Stepped() && fresh(Repr() - old(Repr()))
      ensures if newBuckets != [] then Roomy(St()) else mapped ==> oldSize < scaleAtSize
    {
      hide MovingOf, ShapeOf, KeysMatch;
      var bucket;
      ghost var chain, fl;
      bucket, chain, fl := BeginStep();
      MigrateBucket(bucket, chain, fl);
      EndState(H, St(), ElementsOf(chain));
      if migrationPos == |oldBuckets| {
        FinishMigration(ElementsOf(chain));
      }
    }

    // Where the next set or delete finds the migration.
    twostate predicate Stepped()
      reads this
    {
      if old(newBuckets) == [] then
        oldBuckets == old(oldBuckets) && newBuckets == [] && migrationPos == old(migrationPos)
      else if old(migrationPos) + 1 < |old(oldBuckets)| then
        oldBuckets == old(oldBuckets) && newBuckets == old(newBuckets) && migrationPos == old(migrationPos) + 1
      else
        oldBuckets == old(newBuckets) && newBuckets == [] && migrationPos == 0
    }

    // A migration has begun, no other being under way.
    twostate predicate Started()
      reads this
    {
      newBuckets != [] && |newBuckets| == 2 * |oldBuckets| && migrationPos == 0 &&
      if old(newBuckets) == [] then oldBuckets == old(oldBuckets)
      else old(migrationPos) + 1 >= |old(oldBuckets)| && oldBuckets == old(newBuckets)
    }

    method Maintenance()
      requires Valid()
      modifies this`scaleAtSize, this`migrationPos, this`oldBuckets, this`oldSize, this`p, this`newBuckets
      modifies this`newSize, this`q, Repr()
      ensures Valid() && oldSize + newSize == old(oldSize + newSize)
      ensures Stepped() && fresh(Repr() - old(Repr()))
      ensures newBuckets != [] ==> Roomy(St())
      ensures old(newBuckets) == [] ==> oldSize == old(oldSize) && scaleAtSize == old(scaleAtSize)
      ensures mapped && old(newBuckets) != [] && newBuckets == [] ==> oldSize < scaleAtSize
    {
      hide ShapeOf, KeysMatch, Roomy;
      if newBuckets != [] {
        ProcessMigrationStep();
      }
    }

    // A fresh table of zeroed buckets.
    constructor (H: Hash, cap: nat, buckets: seq<Bucket>, ghost h: Half)
      requires cap > 0 && IsPow2(cap) && |buckets| == cap && h.heads == buckets && Blank(h)
      ensures Valid() && M == map[] && mapped && this.H == H && Repr() == h.repr
      ensures oldBuckets == buckets && newBuckets == [] && scaleAtSize == 6 * cap && oldSize == 0
    {
      this.H := H;
      scaleAtSize := ScaleAt(cap);
      migrationPos := 0;
      oldSize, oldBuckets, p := 0, buckets, h;
      newSize, newBuckets, q := 0, [], NO_HALF;
      M, mapped := map[], true;
      new;
      BlankStored(H, h, map[]);
    }

    // Growth starts when the old half is at the threshold, unless bucket memory is refused.
    method CheckInitMigration(pagesOk: bool)
      requires Shape({}) && (newBuckets != [] ==> Roomy(St()))
      modifies this`newBuckets, this`q, this`mapped
      ensures Shape({}) && Roomy(St())
      ensures q.repr == old(q.repr) || fresh(q.repr)
      ensures if old(oldSize < scaleAtSize || newBuckets != [])
              then newBuckets == old(newBuckets) && mapped == old(mapped)
              else if pagesOk then Started() && mapped == old(mapped)
              else newBuckets == [] && !mapped
    {
      hide TwoHalves, KeysSplit, Blank;
      ghost var t := St();
      if newBuckets == [] {
        IdleNew(H, t);
      }
      if oldSize < scaleAtSize || newBuckets != [] {
        return;
      }
      if !pagesOk {
        mapped := false;
        return;
      }
      var buckets;
      ghost var h;
      buckets, h := MapBuckets(|oldBuckets| * 2);
      StartState(H, t, h);
      newBuckets := buckets;
      q := h;
      assert St() == t.(newBuckets := h.heads, q := h);
    }

    method SetOld(hash: bv64, key: Key) returns (b: Bucket, slot: int)
      requires Valid() && Roomy(St()) && hash == H(key) && BucketIndex(hash, |oldBuckets|) >= migrationPos
      modifies this`p, this`oldSize, p.repr
      ensures Shape({key}) && (key in M ==> Shape({}))
      ensures key in p.loc && 0 <= slot < SLOTS && p.loc[key] == Slot(b, slot) && b in p.repr && b.WellFormed()
      ensures b.items[slot] == if key in M then M[key] else null
      ensures oldSize == old(oldSize) + if key in M then 0 else 1
      ensures old(p.repr) <= p.repr && fresh(p.repr - old(p.repr))
    {
      hide ShapeOf, Sized, TwoHalves, Layout, Stored, NewOk, NewKeysBelow, KeysMatch, IsPow2, BucketIndex, Roomy;
      ghost var t, g := St(), NO_HALF;
      var added;
      Rest(H, t, {});
      RoutedTo(H, t, key);
      b, slot, g, added := ClaimSlot(H, oldBuckets, p, migrationPos, M, hash, key);
      if added {
        oldSize := oldSize + 1;
      }
      ClaimOldShape(H, t, g, key, Slot(b, slot), added);
      p := g;
      assert St() == ClaimedOld(t, g, added);
    }

    method SetNew(hash: bv64, key: Key) returns (b: Bucket, slot: int)
      requires Valid() && Roomy(St()) && hash == H(key) && BucketIndex(hash, |oldBuckets|) < migrationPos
      modifies this`q, this`newSize, q.repr
      ensures Shape({key}) && (key in M ==> Shape({}))
      ensures key in q.loc && 0 <= slot < SLOTS && q.loc[key] == Slot(b, slot) && b in q.repr && b.WellFormed()
      ensures b.items[slot] == if key in M then M[key] else null
      ensures newSize == old(newSize) + if key in M then 0 else 1
      ensures old(q.repr) <= q.repr && fresh(q.repr - old(q.repr))
    {
      hide ShapeOf, Sized, TwoHalves, Layout, Stored, NewOk, NewKeysBelow, KeysMatch, IsPow2, BucketIndex, Roomy;
      ghost var t, g := St(), NO_HALF;
      var added;
      Rest(H, t, {});
      RoutedTo(H, t, key);
      b, slot, g, added := ClaimSlot(H, newBuckets, q, 0, M, hash, key);
      if added {
        newSize := newSize + 1;
      }
      ClaimNewShape(H, t, g, key, Slot(b, slot), added);
      q := g;
      assert St() == ClaimedNew(t, g, added);
    }

    method DeleteOld(hash: bv64, key: Key) returns (item: Item?)
      requires Valid() && hash == H(key) && BucketIndex(hash, |oldBuckets|) >= migrationPos
      modifies this`p, this`oldSize, this`M, p.repr
      ensures Shape({}) && M == old(M) - {key} && p.repr == old(p.repr)
      ensures item == if key in old(M) then old(M)[key] else null
      ensures oldSize == old(oldSize) - if key in old(M) then 1 else 0
    {
      hide ShapeOf, Sized, TwoHalves, Layout, Stored, NewOk, NewKeysBelow, KeysMatch, IsPow2, BucketIndex;
      ghost var t, g := St(), NO_HALF;
      Rest(H, t, {});
      RoutedTo(H, t, key);
      item, g := DeleteItem(H, oldBuckets, p, migrationPos, M, hash, key);
      DeleteOldShape(H, t, g, key);
      if item != null {
        oldSize := oldSize - 1;
      }
      M := M - {key};
      p := g;
      assert St() == DeletedOld(t, g, key);
    }

    method DeleteNew(hash: bv64, key: Key) returns (item: Item?)
      requires Valid() && hash == H(key) && BucketIndex(hash, |oldBuckets|) < migrationPos
      modifies this`q, this`newSize, this`M, q.repr
      ensures Shape({}) && M == old(M) - {key} && q.repr == old(q.repr)
      ensures item == if key in old(M) then old(M)[key] else null
      ensures newSize == old(newSize) - if key in old(M) then 1 else 0
    {
      hide ShapeOf, Sized, TwoHalves, Layout, Stored, NewOk, NewKeysBelow, KeysMatch, IsPow2, BucketIndex;
      ghost var t, g := St(), NO_HALF;
      Rest(H, t, {});
      RoutedTo(H, t, key);
      item, g := DeleteItem(H, newBuckets, q, 0, M, hash, key);
      DeleteNewShape(H, t, g, key);
      if item != null {
        newSize := newSize - 1;
      }
      M := M - {key};
      q := g;
      assert St() == DeletedNew(t, g, key);
    }

    // The slot reserved for a key.
    ghost predicate Placed(key: Key, b: Bucket, slot: nat)
      reads this
    {
      slot < SLOTS &&
      ((key in p.loc && p.loc[key] == Slot(b, slot) && b in p.repr) ||
       (key in q.loc && q.loc[key] == Slot(b, slot) && b in q.repr))
    }

    predicate ItemInNewBucket(hash: bv64)
      requires |oldBuckets| > 0
      reads this`newBuckets, this`oldBuckets, this`migrationPos
    {
      newBuckets != [] && BucketIndex(hash, |oldBuckets|) < migrationPos
    }

    // Returns the slot of the key; for an absent key a slot holding null, reserved for it.
    method Set(hash: bv64, key: Key, pagesOk: bool) returns (b: Bucket, slot: int)
      requires Valid() && hash == H(key)
      modifies this`scaleAtSize, this`migrationPos, this`oldBuckets, this`oldSize, this`p, this`newBuckets
      modifies this`newSize, this`q, this`mapped, Repr()
      ensures Shape({key}) && (key in M ==> Shape({}))
      ensures 0 <= slot && Placed(key, b, slot) && b.WellFormed()
      ensures b.items[slot] == if key in M then M[key] else null
      ensures oldSize + newSize == old(oldSize + newSize) + if key in M then 0 else 1
      ensures fresh(Repr() - old(Repr()))
      ensures mapped ==> old(mapped)
      ensures pagesOk ==> mapped == old(mapped)
      ensures Stepped() || (Started() && pagesOk)
      ensures old(newBuckets) == [] && old(oldSize < scaleAtSize) ==> Stepped() && mapped == old(mapped)
      ensures old(newBuckets) == [] && old(oldSize >= scaleAtSize) ==>
        if pagesOk then Started() else Stepped() && !mapped
      ensures old(newBuckets) != [] && mapped ==> Stepped()
    {
      hide ShapeOf, Sized, TwoHalves, KeysMatch, IsPow2, BucketIndex, Roomy;
      Maintenance();
      RoutedTo(H, St(), key);
      if ItemInNewBucket(hash) {
        b, slot := SetNew(hash, key);
      } else {
        CheckInitMigration(pagesOk);
        RoutedTo(H, St(), key);
        b, slot := SetOld(hash, key);
      }
    }

    method Get(hash: bv64, key: Key) returns (item: Item?)
      requires Valid() && hash == H(key)
      ensures item == if key in M then M[key] else null
    {
      hide ShapeOf, Sized, TwoHalves, KeysMatch, IsPow2, BucketIndex;
      Rest(H, St(), {});
      RoutedTo(H, St(), key);
      if ItemInNewBucket(hash) {
        item := GetItem(H, newBuckets, q, 0, M, hash, key);
      } else {
        item := GetItem(H, oldBuckets, p, migrationPos, M, hash, key);
      }
    }

    method Delete(hash: bv64, key: Key) returns (item: Item?)
      requires Valid() && hash == H(key)
      modifies this`scaleAtSize, this`migrationPos, this`oldBuckets, this`oldSize, this`p, this`newBuckets
      modifies this`newSize, this`q, this`M, Repr()
      ensures Shape({}) && M == old(M) - {key}
      ensures item == if key in old(M) then old(M)[key] else null
      ensures fresh(Repr() - old(Repr())) && Stepped()
      ensures oldSize + newSize == old(oldSize + newSize) - if key in old(M) then 1 else 0
    {
      hide ShapeOf, Sized, TwoHalves, KeysMatch, IsPow2, BucketIndex, Roomy;
      Maintenance();
      RoutedTo(H, St(), key);
      if ItemInNewBucket(hash) {
        item := DeleteNew(hash, key);
      } else {
        item := DeleteOld(hash, key);
      }
    }

    function Len(): nat
      reads this`oldSize, this`newSize
    {
      oldSize + newSize
    }

    lemma LenIsMapSize()
      requires Shape({})
      ensures Len() == |M|
    {
      hide TwoHalves;
      assert M.Keys + {} == M.Keys && p.loc.Keys + q.loc.Keys + {} == p.loc.Keys + q.loc.Keys;
    }

    // The load bound, at every point of every migration.
    lemma LoadBound()
      requires Shape({}) && mapped
      ensures |M| <= if newBuckets == [] then 6 * |oldBuckets| else 6 * |oldBuckets| + 1 + migrationPos
    {
      hide TwoHalves;
      LenIsMapSize();
    }

    // ---- what a delete finds that follows a set without the caller's store

    // Where a search for the key begins: the half that holds its slot, and the bucket there.
    ghost function HalfOf(key: Key): Half
      reads this`p, this`q
    {
      if key in p.loc then p else q
    }

    // A search for the key comes to the slot before it finds the key, and compares with the item there.
    ghost predicate Met(key: Key, b: Bucket, slot: nat)
      reads *
    {
      var h := HalfOf(key);
      |h.chains| == |h.heads| > 0 && slot < SLOTS && b.WellFormed() && b.Busy(slot) &&
      var i := BucketIndex(H(key), |h.chains|);
      i < |h.heads| && ChainOk(h, i) && FirstMet(h.chains[i], key, b, slot) &&
      Bit(MatchTag(b.hashTags, b.slotStates, TagOf(H(key))), slot)
    }

    // The next migration step takes the chain of the key's slot, and so rehashes the item of every busy slot on it.
    ghost predicate NextMigrated(key: Key)
      reads this
    {
      newBuckets != [] && key in p.loc && |oldBuckets| > 0 && BucketIndex(H(key), |oldBuckets|) == migrationPos
    }

    // The next migration step, if any, neither takes the chain of the key's slot nor adds to it, and leaves the
    // key routed to it.
    ghost predicate Aside(key: Key)
      reads this
    {
      newBuckets != [] ==>
        var n := |oldBuckets|;
        n > 0 && |newBuckets| == 2 * n &&
        if key in p.loc then BucketIndex(H(key), n) > migrationPos
        else
          BucketIndex(H(key), n) < migrationPos &&
          forall k | k in p.loc && BucketIndex(H(k), n) == migrationPos ::
            BucketIndex(H(k), 2 * n) != BucketIndex(H(key), 2 * n)
    }

    /** With a slot reserved and not stored to, a delete of the key either migrates that slot first or compares with
      * it. */
    lemma Compared(key: Key, b: Bucket, slot: nat)
      requires Shape({key}) && Placed(key, b, slot) && KeysMatch(M) && key !in M
      ensures Met(key, b, slot) && (NextMigrated(key) || Aside(key))
    {
      hide Layout, MatchTag, TagAt, TagOf, Sized, BucketIndex, Bit, IsPow2, Candidate, Stored, KeysMatch;
      Rest(H, St(), {key});
      NewInUse(H, |oldBuckets|, q, M, {key});
      OneHalf(St(), {key}, key);
      ghost var h := HalfOf(key);
      OpenSlotMet(H, h, if key in p.loc then migrationPos else 0, M, key, b, slot);
      OpenSlotBusy(H, h, M, key, b, slot);
      TagSmall(H(key));
      MatchBit(b.hashTags, b.slotStates, TagOf(H(key)), slot);
      if newBuckets != [] && key !in p.loc {
        forall k | k in p.loc && BucketIndex(H(k), |oldBuckets|) == migrationPos
          ensures BucketIndex(H(k), 2 * |oldBuckets|) != BucketIndex(H(key), 2 * |oldBuckets|)
        {
          DifferentTargets(H, key, k, |oldBuckets|);
        }
      }
    }

    // Write an item pointer into the slot returned by Set.
    method Store(key: Key, b: Bucket, slot: nat, item: Item)
      requires Shape({key}) && Placed(key, b, slot) && b.WellFormed()
      modifies this`M, b`items
      ensures b.WellFormed() && b.items == old(b.items)[slot := item]
      ensures M == old(M)[key := item] && Shape({}) && Placed(key, b, slot)
    {
      hide ShapeOf, Sized, TwoHalves, Layout, Stored, NewOk, NewKeysBelow, IsPow2;
      ghost var t, N := St(), M[key := item];
      Rest(H, t, {key});
      OneHalf(t, {key}, key);
      NewInUse(H, |oldBuckets|, q, M, {key});
      StoreItem(H, if key in p.loc then p else q, M, b, slot, item, key);
      if key in p.loc {
        CloseNew(H, |oldBuckets|, q, M, key, N);
      } else {
        CloseKey(H, p, M, key, N);
        NewIntro(H, |oldBuckets|, q, N);
      }
      StoreShape(H, t, key, item);
      M := N;
      assert St() == t.(M := N);
    }
  }
}
