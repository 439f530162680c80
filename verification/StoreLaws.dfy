/** What runs of the store answer, told by the operations and their answers alone. */
module StoreLaws {
  import opened Bytes
  import opened Items
  import opened Shards
  import opened Kvs

  // The map before the i-th operation.
  function StateAt(s: Store, ops: seq<Op>, i: nat): Store
    requires i <= |ops|
  {
    if i == 0 then s else Step(StateAt(s, ops, i - 1), ops[i - 1]).0
  }

  lemma {:induction false} StateShift(s: Store, ops: seq<Op>, i: nat)
    requires 0 < i <= |ops|
    ensures StateAt(s, ops, i) == StateAt(Step(s, ops[0]).0, ops[1..], i - 1)
  {
    hide Step;
    if i > 1 {
      StateShift(s, ops, i - 1);
    } else {
      assert StateAt(s, ops, 0) == s;
    }
  }

  lemma {:induction false} AnswerAt(s: Store, ops: seq<Op>, i: nat)
    requires i < |ops|
    ensures |Steps(s, ops).1| == |ops| && Steps(s, ops).1[i] == Step(StateAt(s, ops, i), ops[i]).1
    decreases i
  {
    hide Step;
    AnswerCount(s, ops);
    if i > 0 {
      AnswerAt(Step(s, ops[0]).0, ops[1..], i - 1);
      StateShift(s, ops, i);
    }
  }

  lemma {:induction false} AnswerCount(s: Store, ops: seq<Op>)
    ensures |Steps(s, ops).1| == |ops|
    decreases |ops|
  {
    hide Step;
    if ops != [] {
      AnswerCount(Step(s, ops[0]).0, ops[1..]);
    }
  }

  /** A set or delete of the key that was answered as done. */
  predicate Changed(op: Op, a: Answer, key: Key) {
    !op.GetOp? && op.key == key && a.reply == Done
  }

  /** No operation from lo to hi changed the key. */
  predicate Quiet(ops: seq<Op>, answers: seq<Answer>, key: Key, lo: nat, hi: nat)
    requires hi <= |ops| == |answers|
  {
    forall m | lo <= m < hi :: !Changed(ops[m], answers[m], key)
  }

  predicate Agree(s: Store, t: Store, key: Key) {
    (key in s <==> key in t) && (key in s ==> s[key] == t[key])
  }

  lemma QuietStep(s: Store, op: Op, key: Key)
    requires !Changed(op, Step(s, op).1, key)
    ensures Agree(s, Step(s, op).0, key)
  {
  }

  // Operations on other keys, gets, and sets and deletes without effect do not matter.
  lemma {:induction false} QuietKeeps(s: Store, ops: seq<Op>, key: Key, lo: nat, hi: nat)
    requires lo <= hi <= |ops| == |Steps(s, ops).1| && Quiet(ops, Steps(s, ops).1, key, lo, hi)
    ensures Agree(StateAt(s, ops, lo), StateAt(s, ops, hi), key)
    decreases hi
  {
    hide Step, Steps;
    if lo < hi {
      QuietKeeps(s, ops, key, lo, hi - 1);
      AnswerAt(s, ops, hi - 1);
      QuietStep(StateAt(s, ops, hi - 1), ops[hi - 1], key);
    }
  }

  /** The answer to an operation when the key has the value, flags and expiry of an earlier set. */
  lemma AnswerPresent(s: Store, op: Op, v: seq<Byte>, f: nat, x: nat)
    requires op.key in s && s[op.key] == Entry(v, f, x)
    ensures op.GetOp? ==>
      Step(s, op).1 ==
        if |v| <= |op.dst| then Answer(Got(|v|, f, x), v + op.dst[|v|..]) else Answer(TooLong(|v|), op.dst)
    ensures op.DeleteOp? ==> Step(s, op).1 == Answer(Done, [])
  {
  }

  lemma AnswerAbsent(s: Store, op: Op)
    requires op.key !in s
    ensures op.GetOp? ==> Step(s, op).1 == Answer(NotFound, op.dst)
    ensures op.DeleteOp? ==> Step(s, op).1 == Answer(NotFound, [])
  {
  }

  lemma DoneStep(s: Store, op: Op)
    requires Step(s, op).1.reply == Done
    ensures op.SetOp? ==> op.key in Step(s, op).0 && Step(s, op).0[op.key] == op.e
    ensures op.DeleteOp? ==> op.key !in Step(s, op).0
  {
  }

  /** When the last change of a key was a set to a value with flags and expiry, a get answers just these, with the value
    * at the front of a large enough buffer and the rest of the buffer as it was, and a delete succeeds. */
  lemma AfterSet(s: Store, ops: seq<Op>, l: nat, g: nat)
    requires l < g < |ops| == |Steps(s, ops).1| && ops[l].SetOp? && ops[g].key == ops[l].key
    requires Steps(s, ops).1[l].reply == Done && Quiet(ops, Steps(s, ops).1, ops[g].key, l + 1, g)
    ensures var v, f, x := ops[l].e.value, ops[l].e.flags, ops[l].e.exp;
      (ops[g].GetOp? ==>
        var dst := ops[g].dst;
        Steps(s, ops).1[g] ==
          if |v| <= |dst| then Answer(Got(|v|, f, x), v + dst[|v|..]) else Answer(TooLong(|v|), dst)) &&
      (ops[g].DeleteOp? ==> Steps(s, ops).1[g] == Answer(Done, []))
  {
    hide Step, Steps;
    AnswerAt(s, ops, l);
    AnswerAt(s, ops, g);
    DoneStep(StateAt(s, ops, l), ops[l]);
    QuietKeeps(s, ops, ops[g].key, l + 1, g);
    AnswerPresent(StateAt(s, ops, g), ops[g], ops[l].e.value, ops[l].e.flags, ops[l].e.exp);
  }

  /** When the last change of a key was a delete, a get and another delete answer NOT_FOUND. */
  lemma AfterDelete(s: Store, ops: seq<Op>, l: nat, g: nat)
    requires l < g < |ops| == |Steps(s, ops).1| && ops[l].DeleteOp? && ops[g].key == ops[l].key
    requires Steps(s, ops).1[l].reply == Done && Quiet(ops, Steps(s, ops).1, ops[g].key, l + 1, g)
    ensures ops[g].GetOp? ==> Steps(s, ops).1[g] == Answer(NotFound, ops[g].dst)
    ensures ops[g].DeleteOp? ==> Steps(s, ops).1[g] == Answer(NotFound, [])
  {
    hide Step, Steps;
    AnswerAt(s, ops, l);
    AnswerAt(s, ops, g);
    DoneStep(StateAt(s, ops, l), ops[l]);
    QuietKeeps(s, ops, ops[g].key, l + 1, g);
    AnswerAbsent(StateAt(s, ops, g), ops[g]);
  }

  /** So do they when nothing has changed the key of a new store. */
  lemma NeverSet(ops: seq<Op>, g: nat)
    requires g < |ops| == |Steps(map[], ops).1| && Quiet(ops, Steps(map[], ops).1, ops[g].key, 0, g)
    ensures ops[g].GetOp? ==> Steps(map[], ops).1[g] == Answer(NotFound, ops[g].dst)
    ensures ops[g].DeleteOp? ==> Steps(map[], ops).1[g] == Answer(NotFound, [])
  {
    hide Step, Steps;
    AnswerAt(map[], ops, g);
    assert StateAt(map[], ops, 0) == map[];
    QuietKeeps(map[], ops, ops[g].key, 0, g);
    AnswerAbsent(StateAt(map[], ops, g), ops[g]);
  }

  /** A set is answered by the size of its entry alone. */
  lemma SetAnswer(s: Store, ops: seq<Op>, g: nat)
    requires g < |ops| == |Steps(s, ops).1| && ops[g].SetOp?
    ensures Steps(s, ops).1[g] ==
      Answer(if |ops[g].key| + |ops[g].e.value| > 524288 - 24 then NoMem else Done, [])
  {
    hide Steps;
    AnswerAt(s, ops, g);
  }
}
