/** What runs of a table return, told by the operations alone. */
module TableLaws {
  import opened Items
  import opened TableRuns

  // The map before the i-th operation.
  function MapAt(m: map<Key, Item>, ops: seq<Op>, i: nat): map<Key, Item>
    requires i <= |ops|
  {
    RunMap(m, ops[..i]).0
  }

  lemma {:induction false} ResultAt(m: map<Key, Item>, ops: seq<Op>, i: nat)
    requires i < |ops|
    ensures |RunMap(m, ops).1| == |ops| && RunMap(m, ops).1[i] == Step(MapAt(m, ops, i), ops[i]).1
    ensures MapAt(m, ops, i + 1) == Step(MapAt(m, ops, i), ops[i]).0
    decreases |ops|
  {
    hide Step;
    var n := |ops| - 1;
    RunOneMore(m, ops, i);
    if i < n {
      ResultAt(m, ops[..n], i);
      assert ops[..n][..i] == ops[..i];
    } else {
      CountResults(m, ops[..n]);
      assert ops[..n + 1] == ops;
    }
  }

  lemma {:induction false} CountResults(m: map<Key, Item>, ops: seq<Op>)
    ensures |RunMap(m, ops).1| == |ops|
  {
    hide Step;
    if ops != [] {
      CountResults(m, ops[..|ops| - 1]);
    }
  }

  predicate Touches(op: Op, key: Key) {
    (op.SetOp? || op.DeleteOp?) && op.key == key
  }

  /** No set or delete of the key from lo to hi. */
  predicate Quiet(ops: seq<Op>, key: Key, lo: nat, hi: nat)
    requires hi <= |ops|
  {
    forall i | lo <= i < hi :: !Touches(ops[i], key)
  }

  lemma QuietStep(m: map<Key, Item>, op: Op, key: Key)
    requires !Touches(op, key)
    ensures key in m <==> key in Step(m, op).0
    ensures key in m ==> Step(m, op).0[key] == m[key]
  {
  }

  lemma {:induction false} QuietKeeps(m: map<Key, Item>, ops: seq<Op>, key: Key, lo: nat, hi: nat)
    requires lo <= hi <= |ops| && Quiet(ops, key, lo, hi)
    ensures key in MapAt(m, ops, lo) <==> key in MapAt(m, ops, hi)
    ensures key in MapAt(m, ops, lo) ==> MapAt(m, ops, hi)[key] == MapAt(m, ops, lo)[key]
    decreases hi
  {
    hide Step, RunMap;
    if lo < hi {
      QuietKeeps(m, ops, key, lo, hi - 1);
      ResultAt(m, ops, hi - 1);
      QuietStep(MapAt(m, ops, hi - 1), ops[hi - 1], key);
    }
  }

  lemma ReturnsItem(m: map<Key, Item>, op: Op)
    requires !op.LenOp?
    ensures Step(m, op).1 == Found(if op.key in m then m[op.key] else null)
  {
  }

  lemma TouchStep(m: map<Key, Item>, op: Op)
    ensures op.SetOp? ==> op.key in Step(m, op).0 && Step(m, op).0[op.key] == op.item
    ensures op.DeleteOp? ==> op.key !in Step(m, op).0
  {
  }

  /** A set, get or delete returns the item of the last set of its key, or null after a delete. */
  lemma AfterTouch(m: map<Key, Item>, ops: seq<Op>, l: nat, g: nat)
    requires l < g < |ops| == |RunMap(m, ops).1| && !ops[g].LenOp? && Touches(ops[l], ops[g].key)
    requires Quiet(ops, ops[g].key, l + 1, g)
    ensures RunMap(m, ops).1[g] == Found(if ops[l].SetOp? then ops[l].item else null)
  {
    hide Step, RunMap;
    ResultAt(m, ops, l);
    ResultAt(m, ops, g);
    TouchStep(MapAt(m, ops, l), ops[l]);
    QuietKeeps(m, ops, ops[g].key, l + 1, g);
    ReturnsItem(MapAt(m, ops, g), ops[g]);
  }

  /** On a new table it returns null while its key has not been set. */
  lemma NeverSet(ops: seq<Op>, g: nat)
    requires g < |ops| == |RunMap(map[], ops).1| && !ops[g].LenOp? && Quiet(ops, ops[g].key, 0, g)
    ensures RunMap(map[], ops).1[g] == Found(null)
  {
    ResultAt(map[], ops, g);
    hide Step;
    QuietKeeps(map[], ops, ops[g].key, 0, g);
    ReturnsItem(MapAt(map[], ops, g), ops[g]);
  }

  /** The key's last set or delete before the g-th operation is a set. */
  ghost predicate Present(ops: seq<Op>, key: Key, g: nat)
    requires g <= |ops|
  {
    exists l :: 0 <= l < g && ops[l].SetOp? && ops[l].key == key && Quiet(ops, key, l + 1, g)
  }

  lemma {:induction false} PresentInMap(ops: seq<Op>, key: Key, g: nat)
    requires g <= |ops|
    ensures key in MapAt(map[], ops, g) <==> Present(ops, key, g)
  {
    hide Step, RunMap;
    if g == 0 {
      EmptyStart(ops);
    } else {
      PresentInMap(ops, key, g - 1);
      ResultAt(map[], ops, g - 1);
      if Touches(ops[g - 1], key) {
        TouchStep(MapAt(map[], ops, g - 1), ops[g - 1]);
        TouchDecides(ops, key, g);
      } else {
        QuietStep(MapAt(map[], ops, g - 1), ops[g - 1], key);
        QuietDecides(ops, key, g);
      }
    }
  }

  lemma EmptyStart(ops: seq<Op>)
    ensures MapAt(map[], ops, 0) == map[]
  {
  }

  lemma TouchDecides(ops: seq<Op>, key: Key, g: nat)
    requires 0 < g <= |ops| && Touches(ops[g - 1], key)
    ensures Present(ops, key, g) <==> ops[g - 1].SetOp?
  {
    if ops[g - 1].SetOp? {
      assert Quiet(ops, key, g - 1 + 1, g);
    }
  }

  lemma QuietDecides(ops: seq<Op>, key: Key, g: nat)
    requires 0 < g <= |ops| && !Touches(ops[g - 1], key)
    ensures Present(ops, key, g) <==> Present(ops, key, g - 1)
  {
    if Present(ops, key, g - 1) {
      var l :| 0 <= l < g - 1 && ops[l].SetOp? && ops[l].key == key && Quiet(ops, key, l + 1, g - 1);
      assert Quiet(ops, key, l + 1, g);
    }
    if Present(ops, key, g) {
      var l :| 0 <= l < g && ops[l].SetOp? && ops[l].key == key && Quiet(ops, key, l + 1, g);
      assert Quiet(ops, key, l + 1, g - 1);
    }
  }

  /** The length is the number of keys whose last set or delete is a set. */
  lemma LengthCounts(ops: seq<Op>, g: nat, keys: set<Key>)
    requires g < |ops| == |RunMap(map[], ops).1| && ops[g].LenOp? && forall k :: k in keys <==> Present(ops, k, g)
    ensures RunMap(map[], ops).1[g] == Size(|keys|)
  {
    hide Present;
    ResultAt(map[], ops, g);
    forall k
      ensures k in keys <==> k in MapAt(map[], ops, g)
    {
      PresentInMap(ops, k, g);
    }
    assert keys == MapAt(map[], ops, g).Keys;
    SameSize(MapAt(map[], ops, g));
  }

  lemma SameSize(m: map<Key, Item>)
    ensures |m| == |m.Keys|
  {
  }
}
