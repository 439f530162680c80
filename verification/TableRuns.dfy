/** Whole runs of a table, against a plain map. */
module TableRuns {
  import opened Swar
  import opened Mask
  import opened Items
  import opened Buckets
  import opened Halves
  import opened Tables

  // A table of `cap` buckets (128 when zero); null when cap is no power of two or memory is refused.
  method Init(H: Hash, cap: nat, pagesOk: bool) returns (t: Table?)
    ensures t != null <==> pagesOk && IsPow2(if cap == 0 then INIT_CAP else cap)
    ensures t != null ==> fresh(t) && fresh(t.Repr()) && t.Valid() && t.M == map[] && t.H == H && t.mapped
    ensures t != null ==> t.newBuckets == [] && t.oldSize == 0 && t.scaleAtSize == 6 * |t.oldBuckets|
    ensures t != null ==> |t.oldBuckets| == if cap == 0 then 128 else cap
  {
    var c := if cap == 0 then INIT_CAP else cap;
    PowerOfTwoTest(c);
    if BitAnd(c, c - 1) != 0 {
      return null;
    }
    if !pagesOk {
      return null;
    }
    var buckets;
    ghost var h;
    buckets, h := MapBuckets(c);
    t := new Table(H, c, buckets, h);
  }

  // ---- migration steps

  // New buckets that the migration has not reached are empty.
  lemma UnreachedAreEmpty(H: Hash, t: State, b: Bucket, s: nat)
    requires ShapeOf(H, t, {}) && t.newBuckets != [] && b in t.q.repr && s < SLOTS && b.Busy(s)
    ensures b.home < t.migrationPos || |t.oldBuckets| <= b.home < |t.oldBuckets| + t.migrationPos
  {
    hide Bit, TagAt, TagOf, BucketIndex, IsPow2;
    assert SlotOk(H, t.q, b, s);
    IndexDoubles(H(b.keys[s]), |t.oldBuckets|);
  }

  // ---- runs

  datatype Op =
    | SetOp(key: Key, item: Item, pagesOk: bool)
    | GetOp(key: Key)
    | DeleteOp(key: Key)
    | LenOp

  datatype Res = Found(item: Item?) | Size(n: nat)

  function Lookup(m: map<Key, Item>, key: Key): Item? {
    if key in m then m[key] else null
  }

  /** What an operation does to a plain map, and what it returns. */
  function Step(m: map<Key, Item>, op: Op): (map<Key, Item>, Res) {
    match op
    case SetOp(key, item, _) => (m[key := item], Found(Lookup(m, key)))
    case GetOp(key) => (m, Found(Lookup(m, key)))
    case DeleteOp(key) => (m - {key}, Found(Lookup(m, key)))
    case LenOp => (m, Size(|m|))
  }

  function RunMap(m: map<Key, Item>, ops: seq<Op>): (map<Key, Item>, seq<Res>) {
    if ops == [] then (m, [])
    else
      var (m1, rs) := RunMap(m, ops[..|ops| - 1]);
      var (m2, r) := Step(m1, ops[|ops| - 1]);
      (m2, rs + [r])
  }

  ghost predicate Carries(op: Op)
    reads if op.SetOp? then {op.item} else {}
  {
    op.SetOp? ==> op.item.keyLen <= |op.item.data| && op.item.Key() == op.key
  }

  // ---- phases of the migration

  /** Bucket count of the old half, migration position, and whether a migration runs. */
  datatype Phase = Phase(count: nat, pos: nat, running: bool)

  ghost function PhaseOf(t: Table): Phase
    reads t
  {
    Phase(|t.oldBuckets|, t.migrationPos, t.newBuckets != [])
  }

  /** Every set or delete advances a running migration by one bucket and no more. */
  ghost function Tick(a: Phase): Phase {
    if !a.running then a
    else if a.pos + 1 < a.count then a.(pos := a.pos + 1)
    else Phase(2 * a.count, 0, false)
  }

  predicate Moves(op: Op) {
    op.SetOp? || op.DeleteOp?
  }

  // With memory granted throughout, a set never starts a migration while one runs, nor in the call
  // that ends one.
  ghost predicate PhaseStep(a: Phase, b: Phase, op: Op, granted: bool) {
    if !Moves(op) then b == a
    else if op.DeleteOp? || (granted && a.running) then b == Tick(a)
    else b == Tick(a) || (!Tick(a).running && op.pagesOk && b == Phase(Tick(a).count, 0, true))
  }

  lemma HalvesDouble(H: Hash, t: State)
    requires ShapeOf(H, t, {})
    ensures t.newBuckets != [] ==> |t.newBuckets| == 2 * |t.oldBuckets| && t.migrationPos < |t.oldBuckets|
    ensures t.newBuckets == [] ==> t.migrationPos == 0
  {
    hide Layout, Stored, IsPow2;
  }

  // A set with its caller's store; returns what the slot held.
  method SetAndStore(t: Table, key: Key, item: Item, pagesOk: bool) returns (was: Item?)
    requires t.Valid() && item.keyLen <= |item.data| && item.Key() == key
    modifies t, t.Repr()
    ensures t.Valid() && fresh(t.Repr() - old(t.Repr()))
    ensures t.M == old(t.M)[key := item] && was == Lookup(old(t.M), key)
    ensures PhaseStep(old(PhaseOf(t)), PhaseOf(t), SetOp(key, item, pagesOk), t.mapped)
    ensures (t.mapped ==> old(t.mapped)) && (pagesOk ==> t.mapped == old(t.mapped))
  {
    hide ShapeOf;
    HalvesDouble(t.H, t.St());
    var b, slot := t.Set(t.H(key), key, pagesOk);
    was := b.items[slot];
    t.Store(key, b, slot, item);
  }

  /** One table operation, with the caller's store after a set. */
  method Perform(t: Table, op: Op) returns (r: Res)
    requires t.Valid() && Carries(op)
    modifies t, t.Repr()
    ensures t.Valid() && fresh(t.Repr() - old(t.Repr()))
    ensures (t.M, r) == Step(old(t.M), op)
    ensures PhaseStep(old(PhaseOf(t)), PhaseOf(t), op, t.mapped)
    ensures t.mapped ==> old(t.mapped)
    ensures (op.SetOp? ==> op.pagesOk) ==> t.mapped == old(t.mapped)
  {
    hide ShapeOf;
    HalvesDouble(t.H, t.St());
    match op
    case SetOp(key, item, pagesOk) =>
      var was := SetAndStore(t, key, item, pagesOk);
      r := Found(was);
    case GetOp(key) =>
      var item := t.Get(t.H(key), key);
      r := Found(item);
    case DeleteOp(key) =>
      var item := t.Delete(t.H(key), key);
      r := Found(item);
    case LenOp =>
      t.LenIsMapSize();
      r := Size(t.Len());
  }

  ghost predicate PhaseRun(ph: seq<Phase>, ops: seq<Op>, granted: bool) {
    |ph| == |ops| + 1 && forall i | 0 <= i < |ops| :: PhaseStep(ph[i], ph[i + 1], ops[i], granted)
  }

  /** Every run of a table returns what a plain map returns, at every point of every migration. */
  method Run(t: Table, ops: seq<Op>) returns (rs: seq<Res>, ghost ph: seq<Phase>)
    requires t.Valid() && forall op | op in ops :: Carries(op)
    modifies t, t.Repr()
    ensures t.Valid() && (t.M, rs) == RunMap(old(t.M), ops)
    ensures PhaseRun(ph, ops, t.mapped) && ph[0] == old(PhaseOf(t)) && ph[|ops|] == PhaseOf(t)
    ensures old(t.mapped) && (forall op | op in ops :: op.SetOp? ==> op.pagesOk) ==> t.mapped
  {
    hide Table.Valid, Step, PhaseStep, RunMap, Tick;
    RunNothing(t.M, ops);
    rs, ph := [], [PhaseOf(t)];
    for i := 0 to |ops|
      invariant t.Valid() && fresh(t.Repr() - old(t.Repr()))
      invariant forall op | op in ops :: Carries(op)
      invariant (t.M, rs) == RunMap(old(t.M), ops[..i])
      invariant |ph| == i + 1 && ph[0] == old(PhaseOf(t)) && ph[i] == PhaseOf(t)
      invariant t.mapped ==> forall j | 0 <= j < i :: PhaseStep(ph[j], ph[j + 1], ops[j], true)
      invariant forall j | 0 <= j < i :: PhaseStep(ph[j], ph[j + 1], ops[j], false)
      invariant old(t.mapped) && (forall op | op in ops[..i] :: op.SetOp? ==> op.pagesOk) ==> t.mapped
    {
      var r := Perform(t, ops[i]);
      PhaseWeakens(ph[i], PhaseOf(t), ops[i], t.mapped);
      RunOneMore(old(t.M), ops, i);
      rs := rs + [r];
      ph := ph + [PhaseOf(t)];
    }
  }

  lemma RunNothing(m: map<Key, Item>, ops: seq<Op>)
    ensures RunMap(m, ops[..0]) == (m, []) && ops[..|ops|] == ops
  {
  }

  lemma RunOneMore(m: map<Key, Item>, ops: seq<Op>, i: nat)
    requires i < |ops|
    ensures var (m1, rs) := RunMap(m, ops[..i]); var (m2, r) := Step(m1, ops[i]);
      RunMap(m, ops[..i + 1]) == (m2, rs + [r])
  {
    hide Step;
    assert ops[..i + 1][..i] == ops[..i];
  }

  lemma PhaseWeakens(a: Phase, b: Phase, op: Op, granted: bool)
    requires PhaseStep(a, b, op, granted)
    ensures PhaseStep(a, b, op, false)
  {
  }

  function MoveCount(ops: seq<Op>): nat {
    if ops == [] then 0 else MoveCount(ops[..|ops| - 1]) + if Moves(ops[|ops| - 1]) then 1 else 0
  }

  /** A migration over n buckets that has begun at step i ends with the n-th set or delete after it, whatever memory is
    * refused. With memory granted throughout the table is idle then; else that very set may begin the next growth. */
  lemma {:induction false} MigrationLength(ph: seq<Phase>, ops: seq<Op>, granted: bool, i: nat, k: nat, n: nat)
    requires PhaseRun(ph, ops, granted) && i <= k <= |ops| && ph[i] == Phase(n, 0, true) && n > 0
    ensures MoveCount(ops[i..k]) < n ==> ph[k] == Phase(n, MoveCount(ops[i..k]), true)
    ensures MoveCount(ops[i..k]) == n && Moves(ops[k - 1]) ==>
      ph[k] == Phase(2 * n, 0, false) ||
      (!granted && ops[k - 1].SetOp? && ops[k - 1].pagesOk && ph[k] == Phase(2 * n, 0, true))
    decreases k
  {
    if k > i {
      assert ops[i..k][..k - 1 - i] == ops[i..k - 1];
      MigrationLength(ph, ops, granted, i, k - 1, n);
      assert PhaseStep(ph[k - 1], ph[k], ops[k - 1], granted);
    }
  }
}
