/** Threads calling the store: one mutex per shard, and a sequential order that explains every run. */
module Threads {
  import opened Halves
  import opened Shards
  import opened Kvs

  // ---- threads

  /** Where a thread is in its call: before the lock, inside, after its last write, after the unlock. */
  datatype Pc =
    | Idle
    | Waiting(id: nat, op: Op)
    | Inside(id: nat, op: Op, seen: Store)
    | Leaving(id: nat, op: Op, answer: Answer)
    | Returning(id: nat, op: Op, answer: Answer)

  datatype Lock = Free | Held(t: nat)

  datatype Event = Call(id: nat, op: Op) | Ret(id: nat, answer: Answer)

  datatype Record = Record(id: nat, op: Op, answer: Answer)

  datatype State = State(
    mem: seq<Store>,      // what each shard's memory holds
    locks: seq<Lock>,     // each shard's mutex
    pcs: seq<Pc>,
    calls: nat,           // calls made so far
    hist: seq<Event>,     // calls and returns, as seen from outside
    lin: seq<Record>)     // operations in the order in which they took effect

  datatype Action =
    | Invoke(t: nat, op: Op)
    | Acquire(t: nat)
    | Scribble(t: nat, torn: Store)   // an intermediate write of a set or a delete
    | Finish(t: nat)
    | Release(t: nat)
    | Return(t: nat)

  function Init(threads: nat): State {
    State(seq(SHARDS, _ => map[]), seq(SHARDS, _ => Free), seq(threads, _ => Idle), 0, [], [])
  }

  function Shard(H: Hash, op: Op): (i: nat)
    ensures i < SHARDS
  {
    ShardIndex(H(op.key))
  }

  predicate Sized(s: State) {
    |s.mem| == SHARDS && |s.locks| == SHARDS
  }

  predicate Enabled(H: Hash, s: State, a: Action) {
    Sized(s) && a.t < |s.pcs| &&
    match a
    case Invoke(t, _) => s.pcs[t].Idle?
    case Acquire(t) => s.pcs[t].Waiting? && s.locks[Shard(H, s.pcs[t].op)].Free?
    case Scribble(t, _) => s.pcs[t].Inside? && !s.pcs[t].op.GetOp?
    case Finish(t) => s.pcs[t].Inside? && Admissible(s.pcs[t].seen, s.pcs[t].op)
    case Release(t) => s.pcs[t].Leaving?
    case Return(t) => s.pcs[t].Returning?
  }

  /** One step of one thread; a thread reads its shard on entering and may tear it until it leaves. */
  function Next(H: Hash, s: State, a: Action): State
    requires Enabled(H, s, a)
  {
    var pc := s.pcs[a.t];
    match a
    case Invoke(t, op) =>
      s.(pcs := s.pcs[t := Waiting(s.calls, op)], calls := s.calls + 1, hist := s.hist + [Call(s.calls, op)])
    case Acquire(t) =>
      var i := Shard(H, pc.op);
      s.(pcs := s.pcs[t := Inside(pc.id, pc.op, s.mem[i])], locks := s.locks[i := Held(t)])
    case Scribble(t, torn) =>
      s.(mem := s.mem[Shard(H, pc.op) := torn])
    case Finish(t) =>
      var (part, answer) := Step(pc.seen, pc.op);
      s.(mem := s.mem[Shard(H, pc.op) := part], pcs := s.pcs[t := Leaving(pc.id, pc.op, answer)],
         lin := s.lin + [Record(pc.id, pc.op, answer)])
    case Release(t) =>
      s.(pcs := s.pcs[t := Returning(pc.id, pc.op, pc.answer)], locks := s.locks[Shard(H, pc.op) := Free])
    case Return(t) =>
      s.(pcs := s.pcs[t := Idle], hist := s.hist + [Ret(pc.id, pc.answer)])
  }

  ghost predicate StepAt(H: Hash, acts: seq<Action>, states: seq<State>, j: nat)
    requires j < |acts| < |states|
  {
    Enabled(H, states[j], acts[j]) && states[j + 1] == Next(H, states[j], acts[j])
  }

  /** Any interleaving of any number of threads, state by state. */
  ghost predicate IsRun(H: Hash, threads: nat, acts: seq<Action>, states: seq<State>) {
    |states| == |acts| + 1 && states[0] == Init(threads) && forall j | 0 <= j < |acts| :: StepAt(H, acts, states, j)
  }

  // ---- the sequential order

  function After(lin: seq<Record>): Store {
    if lin == [] then map[] else Step(After(lin[..|lin| - 1]), lin[|lin| - 1].op).0
  }

  /** Every answer is the one a plain map gives when the operations run one after another. */
  ghost predicate Legal(lin: seq<Record>) {
    forall j | 0 <= j < |lin| :: LegalAt(lin, j)
  }

  ghost predicate LegalAt(lin: seq<Record>, j: nat)
    requires j < |lin|
  {
    lin[j].answer == Step(After(lin[..j]), lin[j].op).1
  }

  // Each call appears at most once, and each answered call with the answer it returned.
  ghost predicate Explains(hist: seq<Event>, lin: seq<Record>) {
    (forall j, k | 0 <= j < k < |lin| :: lin[j].id != lin[k].id) &&
    (forall j | 0 <= j < |lin| :: Call(lin[j].id, lin[j].op) in hist) &&
    forall h | 0 <= h < |hist| && hist[h].Ret? :: Answered(hist[h], lin)
  }

  ghost predicate Answered(e: Event, lin: seq<Record>)
    requires e.Ret?
  {
    exists j :: 0 <= j < |lin| && lin[j].id == e.id && lin[j].answer == e.answer
  }

  // A call that returned before another was made comes first.
  ghost predicate RealTime(hist: seq<Event>, lin: seq<Record>) {
    forall g, h, j, k | 0 <= g < h < |hist| && 0 <= j < |lin| && 0 <= k < |lin| && j != k ::
      hist[g].Ret? && hist[h].Call? && hist[g].id == lin[j].id && hist[h].id == lin[k].id ==> j < k
  }

  /** Every call has its own number, and every return answers one earlier call, once. */
  ghost predicate Numbered(hist: seq<Event>) {
    (forall g, h | 0 <= g < h < |hist| && hist[g].id == hist[h].id :: hist[g].Call? && hist[h].Ret?) &&
    forall h | 0 <= h < |hist| && hist[h].Ret? :: Called(hist, h)
  }

  ghost predicate Called(hist: seq<Event>, h: nat)
    requires h < |hist|
  {
    exists g :: 0 <= g < h && hist[g].Call? && hist[g].id == hist[h].id
  }

  // ---- the invariant

  predicate Critical(pc: Pc) {
    pc.Inside? || pc.Leaving?
  }

  ghost predicate Locking(H: Hash, s: State) {
    Sized(s) &&
    (forall t | 0 <= t < |s.pcs| && Critical(s.pcs[t]) :: s.locks[Shard(H, s.pcs[t].op)] == Held(t)) &&
    (forall i | 0 <= i < SHARDS && s.locks[i].Held? :: s.locks[i].t < |s.pcs| && Critical(s.pcs[s.locks[i].t]) &&
      Shard(H, s.pcs[s.locks[i].t].op) == i)
  }

  // What a shard stands for: its memory, or what the thread inside has read, until that thread has finished.
  function View(s: State, i: nat): Store
    requires Sized(s) && i < SHARDS
  {
    if s.locks[i].Held? && s.locks[i].t < |s.pcs| && s.pcs[s.locks[i].t].Inside? then s.pcs[s.locks[i].t].seen
    else s.mem[i]
  }

  ghost function Views(s: State): seq<Store>
    requires Sized(s)
  {
    seq(SHARDS, i requires 0 <= i < SHARDS => View(s, i))
  }

  ghost predicate Recorded(lin: seq<Record>, id: nat, answer: Answer) {
    exists j :: 0 <= j < |lin| && lin[j].id == id && lin[j].answer == answer
  }

  // Calls have their own numbers; a call is recorded once it has finished and not before.
  ghost predicate Tracked(s: State) {
    (forall t, u | 0 <= t < u < |s.pcs| && !s.pcs[t].Idle? && !s.pcs[u].Idle? :: s.pcs[t].id != s.pcs[u].id) &&
    (forall t | 0 <= t < |s.pcs| && !s.pcs[t].Idle? :: PcTracked(s, s.pcs[t])) &&
    (forall j | 0 <= j < |s.lin| :: s.lin[j].id < s.calls) &&
    (forall h | 0 <= h < |s.hist| :: s.hist[h].id < s.calls)
  }

  ghost predicate PcTracked(s: State, pc: Pc)
    requires !pc.Idle?
  {
    pc.id < s.calls && Call(pc.id, pc.op) in s.hist &&
    (pc.Waiting? || pc.Inside? ==> forall j | 0 <= j < |s.lin| :: s.lin[j].id != pc.id) &&
    (pc.Leaving? || pc.Returning? ==> Recorded(s.lin, pc.id, pc.answer))
  }

  // A call in progress has not returned.
  ghost predicate Unreturned(s: State) {
    forall t, h | 0 <= t < |s.pcs| && !s.pcs[t].Idle? && 0 <= h < |s.hist| && s.hist[h].Ret? ::
      s.hist[h].id != s.pcs[t].id
  }

  ghost predicate Inv(H: Hash, s: State) {
    Numbered(s.hist) && Unreturned(s) && Locking(H, s) && Covers(H, Views(s), After(s.lin)) && Legal(s.lin) &&
      Tracked(s) && Explains(s.hist, s.lin) && RealTime(s.hist, s.lin)
  }

  // ---- every step keeps it

  lemma KeepsLocking(H: Hash, s: State, a: Action)
    requires Locking(H, s) && Enabled(H, s, a)
    ensures Locking(H, Next(H, s, a))
  {
    hide Step, ShardIndex;
  }

  // Only finishing changes what a shard stands for, and only that of the key's shard.
  lemma KeepsViews(H: Hash, s: State, a: Action)
    requires Locking(H, s) && Enabled(H, s, a)
    ensures Locking(H, Next(H, s, a))
    ensures Views(Next(H, s, a)) ==
      if a.Finish? then Views(s)[Shard(H, s.pcs[a.t].op) := Step(s.pcs[a.t].seen, s.pcs[a.t].op).0] else Views(s)
    ensures a.Finish? ==> Views(s)[Shard(H, s.pcs[a.t].op)] == s.pcs[a.t].seen
  {
    hide Step, ShardIndex;
    KeepsLocking(H, s, a);
  }

  lemma CoverStep(H: Hash, parts: seq<Store>, s: Store, op: Op)
    requires Covers(H, parts, s)
    ensures var i := Shard(H, op); var (part, answer) := Step(parts[i], op);
      answer == Step(s, op).1 && Covers(H, parts[i := part], Step(s, op).0)
  {
    hide GetStep, SetStep, DeleteStep, Covers;
    var i := Shard(H, op);
    match op
    case GetOp(key, dst) =>
      CoverGet(H, parts, s, key, dst);
      CoverLength(H, parts, s);
      assert parts[i := parts[i]] == parts;
    case SetOp(key, e) => CoverSet(H, parts, s, key, e);
    case DeleteOp(key) => CoverDelete(H, parts, s, key);
  }

  lemma CoverLength(H: Hash, parts: seq<Store>, s: Store)
    requires Covers(H, parts, s)
    ensures |parts| == SHARDS
  {
  }

  lemma AppendLegal(lin: seq<Record>, r: Record)
    requires Legal(lin) && r.answer == Step(After(lin), r.op).1
    ensures Legal(lin + [r]) && After(lin + [r]) == Step(After(lin), r.op).0
  {
    hide Step;
    var l := lin + [r];
    assert l[..|l| - 1] == lin;
    forall j | 0 <= j < |l|
      ensures LegalAt(l, j)
    {
      if j < |lin| {
        assert LegalAt(lin, j) && l[..j] == lin[..j];
      }
    }
  }

  // Shards stand for the map after the operations so far, and each new answer is the map's own.
  lemma KeepsMeaning(H: Hash, s: State, a: Action)
    requires Locking(H, s) && Covers(H, Views(s), After(s.lin)) && Legal(s.lin) && Enabled(H, s, a)
    ensures var s' := Next(H, s, a); Locking(H, s') && Covers(H, Views(s'), After(s'.lin)) && Legal(s'.lin)
  {
    hide Step, Covers, Shard, Legal, After;
    KeepsViews(H, s, a);
    if a.Finish? {
      var pc := s.pcs[a.t];
      CoverStep(H, Views(s), After(s.lin), pc.op);
      AppendLegal(s.lin, Record(pc.id, pc.op, Step(pc.seen, pc.op).1));
    }
  }

  // A call's standing survives more events, and more records of other calls.
  lemma StillTracked(s: State, s': State, pc: Pc)
    requires !pc.Idle? && PcTracked(s, pc) && s.calls <= s'.calls
    requires forall e | e in s.hist :: e in s'.hist
    requires s.lin <= s'.lin
    requires forall j | |s.lin| <= j < |s'.lin| :: pc.Waiting? || pc.Inside? ==> s'.lin[j].id != pc.id
    ensures PcTracked(s', pc)
  {
    if pc.Leaving? || pc.Returning? {
      var j :| 0 <= j < |s.lin| && s.lin[j].id == pc.id && s.lin[j].answer == pc.answer;
      assert s'.lin[j].id == pc.id;
    }
  }

  lemma IdsBelow(s: State)
    requires Tracked(s)
    ensures forall t | 0 <= t < |s.pcs| && !s.pcs[t].Idle? :: s.pcs[t].id < s.calls
  {
    assert forall t | 0 <= t < |s.pcs| && !s.pcs[t].Idle? :: PcTracked(s, s.pcs[t]);
  }

  lemma KeepsTracked(H: Hash, s: State, a: Action)
    requires Tracked(s) && Enabled(H, s, a)
    ensures Tracked(Next(H, s, a))
  {
    hide Step, Shard, PcTracked;
    IdsBelow(s);
    var s' := Next(H, s, a);
    forall t | 0 <= t < |s.pcs| && !s'.pcs[t].Idle?
      ensures PcTracked(s', s'.pcs[t])
    {
      if t == a.t {
        MovedTracked(H, s, a);
      } else {
        StillTracked(s, s', s.pcs[t]);
      }
    }
  }

  // The thread that moves.
  lemma MovedTracked(H: Hash, s: State, a: Action)
    requires Tracked(s) && Enabled(H, s, a) && !a.Return?
    ensures PcTracked(Next(H, s, a), Next(H, s, a).pcs[a.t])
  {
    hide Step, Shard;
    var s' := Next(H, s, a);
    if a.Finish? {
      assert s'.lin[|s.lin|].id == s.pcs[a.t].id;
      assert Call(s.pcs[a.t].id, s.pcs[a.t].op) in s'.hist;
    } else if a.Invoke? {
      assert s'.hist[|s.hist|] == Call(s.calls, a.op);
    }
  }

  lemma KeepsExplains(H: Hash, s: State, a: Action)
    requires Tracked(s) && Explains(s.hist, s.lin) && Enabled(H, s, a)
    ensures Explains(Next(H, s, a).hist, Next(H, s, a).lin)
  {
    hide Step, Shard, Answered;
    var s' := Next(H, s, a);
    forall h | 0 <= h < |s'.hist| && s'.hist[h].Ret?
      ensures Answered(s'.hist[h], s'.lin)
    {
      if h < |s.hist| {
        StillAnswered(s.hist[h], s.lin, s'.lin);
      } else {
        RecordedAnswers(s.lin, s.pcs[a.t].id, s.pcs[a.t].answer);
      }
    }
    if a.Finish? {
      assert PcTracked(s, s.pcs[a.t]);
    }
  }

  lemma StillAnswered(e: Event, lin: seq<Record>, more: seq<Record>)
    requires e.Ret? && Answered(e, lin) && lin <= more
    ensures Answered(e, more)
  {
    var j :| 0 <= j < |lin| && lin[j].id == e.id && lin[j].answer == e.answer;
    assert more[j].id == e.id;
  }

  lemma RecordedAnswers(lin: seq<Record>, id: nat, answer: Answer)
    requires Recorded(lin, id, answer)
    ensures Answered(Ret(id, answer), lin)
  {
  }

  lemma KeepsRealTime(H: Hash, s: State, a: Action)
    requires Tracked(s) && Explains(s.hist, s.lin) && RealTime(s.hist, s.lin) && Enabled(H, s, a)
    ensures RealTime(Next(H, s, a).hist, Next(H, s, a).lin)
  {
    hide Step, Shard, Answered;
    var s' := Next(H, s, a);
    forall g, h, j, k | 0 <= g < h < |s'.hist| && 0 <= j < |s'.lin| && 0 <= k < |s'.lin| && j != k &&
      s'.hist[g].Ret? && s'.hist[h].Call? && s'.hist[g].id == s'.lin[j].id && s'.hist[h].id == s'.lin[k].id
      ensures j < k
    {
      if a.Finish? && j == |s.lin| {
        assert PcTracked(s, s.pcs[a.t]) && Answered(s.hist[g], s.lin);
        NotAnswered(s.hist[g], s.lin);
      }
    }
  }

  lemma KeepsNumbers(H: Hash, s: State, a: Action)
    requires Tracked(s) && Numbered(s.hist) && Unreturned(s) && Enabled(H, s, a)
    ensures Numbered(Next(H, s, a).hist) && Unreturned(Next(H, s, a))
  {
    hide Step, Shard, Called;
    var s' := Next(H, s, a);
    forall h | 0 <= h < |s'.hist| && s'.hist[h].Ret?
      ensures Called(s'.hist, h)
    {
      if h < |s.hist| {
        StillCalled(s.hist, s'.hist, h);
      } else {
        CallFound(s, s', s.pcs[a.t]);
      }
    }
    forall g, h | 0 <= g < h < |s'.hist| && s'.hist[g].id == s'.hist[h].id
      ensures s'.hist[g].Call? && s'.hist[h].Ret?
    {
      assert g < |s.hist| ==> s.hist[g].id < s.calls;
    }
    IdsBelow(s);
  }

  lemma StillCalled(hist: seq<Event>, more: seq<Event>, h: nat)
    requires h < |hist| && hist <= more && Called(hist, h)
    ensures Called(more, h)
  {
    var g :| 0 <= g < h && hist[g].Call? && hist[g].id == hist[h].id;
    assert more[g].Call?;
  }

  lemma CallFound(s: State, s': State, pc: Pc)
    requires pc.Returning? && PcTracked(s, pc) && s'.hist == s.hist + [Ret(pc.id, pc.answer)]
    ensures Called(s'.hist, |s.hist|)
  {
    var g :| 0 <= g < |s.hist| && s.hist[g] == Call(pc.id, pc.op);
    assert s'.hist[g].Call?;
  }

  lemma NotAnswered(e: Event, lin: seq<Record>)
    requires e.Ret? && forall j | 0 <= j < |lin| :: lin[j].id != e.id
    ensures !Answered(e, lin)
  {
  }

  lemma StepKeeps(H: Hash, s: State, a: Action)
    requires Inv(H, s) && Enabled(H, s, a)
    ensures Inv(H, Next(H, s, a))
  {
    hide Locking, Covers, Legal, Tracked, Explains, RealTime, Numbered, Unreturned, Next, Enabled;
    KeepsLocking(H, s, a);
    KeepsMeaning(H, s, a);
    KeepsTracked(H, s, a);
    KeepsExplains(H, s, a);
    KeepsRealTime(H, s, a);
    KeepsNumbers(H, s, a);
  }

  lemma InitKeeps(H: Hash, threads: nat)
    ensures Inv(H, Init(threads))
  {
    var s := Init(threads);
    assert forall i | 0 <= i < SHARDS :: Views(s)[i] == map[];
  }

  // ---- main results

  lemma {:induction false} Reachable(H: Hash, threads: nat, acts: seq<Action>, states: seq<State>, k: nat)
    requires IsRun(H, threads, acts, states) && k <= |acts|
    ensures Inv(H, states[k])
  {
    hide Inv, Next, Enabled;
    if k == 0 {
      InitKeeps(H, threads);
    } else {
      Reachable(H, threads, acts, states, k - 1);
      assert StepAt(H, acts, states, k - 1);
      StepKeeps(H, states[k - 1], acts[k - 1]);
    }
  }

  /** Linearizability: at every point of every interleaving, the calls that have taken effect form a sequential
    * run of a plain map which gives every returned answer and respects the order of non-overlapping calls. */
  lemma Linearizable(H: Hash, threads: nat, acts: seq<Action>, states: seq<State>, k: nat)
    requires IsRun(H, threads, acts, states) && k <= |acts|
    ensures var s := states[k]; Legal(s.lin) && Explains(s.hist, s.lin) && RealTime(s.hist, s.lin) && Numbered(s.hist)
  {
    Reachable(H, threads, acts, states, k);
  }

  /** Two threads are never inside the same shard. */
  lemma MutualExclusion(H: Hash, threads: nat, acts: seq<Action>, states: seq<State>, k: nat, t: nat, u: nat)
    requires IsRun(H, threads, acts, states) && k <= |acts| && t < |states[k].pcs| && u < |states[k].pcs|
    requires Critical(states[k].pcs[t]) && Critical(states[k].pcs[u])
    requires Shard(H, states[k].pcs[t].op) == Shard(H, states[k].pcs[u].op)
    ensures t == u
  {
    Reachable(H, threads, acts, states, k);
  }

  /** A shard's memory changes only by the thread that holds its mutex. */
  lemma ChangesOnlyUnderLock(H: Hash, threads: nat, acts: seq<Action>, states: seq<State>, k: nat, i: nat)
    requires IsRun(H, threads, acts, states) && k < |acts| && i < SHARDS
    ensures Sized(states[k]) && Sized(states[k + 1])
    ensures states[k + 1].mem[i] != states[k].mem[i] ==> states[k].locks[i] == Held(acts[k].t)
  {
    Reachable(H, threads, acts, states, k);
    assert StepAt(H, acts, states, k);
  }

  /** When no call is in progress, every mutex is free and the shards together are the map of the order. */
  lemma Quiescent(H: Hash, threads: nat, acts: seq<Action>, states: seq<State>, k: nat)
    requires IsRun(H, threads, acts, states) && k <= |acts|
    requires forall t | 0 <= t < |states[k].pcs| :: states[k].pcs[t].Idle?
    ensures Sized(states[k]) && (forall i | 0 <= i < SHARDS :: states[k].locks[i] == Free)
    ensures Covers(H, states[k].mem, After(states[k].lin))
  {
    Reachable(H, threads, acts, states, k);
    var s := states[k];
    assert forall i | 0 <= i < SHARDS :: s.locks[i].Held? ==> Critical(s.pcs[s.locks[i].t]);
    assert Views(s) == s.mem;
  }

  // How many steps a call still has to take.
  function Effort(pc: Pc): nat {
    match pc
    case Idle => 0
    case Waiting(_, _) => 4
    case Inside(_, _, _) => 3
    case Leaving(_, _, _) => 2
    case Returning(_, _, _) => 1
  }

  /** No deadlock: while some call is in progress, some thread can take a step that brings its call nearer to its
    * end. */
  lemma NoDeadlock(H: Hash, threads: nat, acts: seq<Action>, states: seq<State>, k: nat, t: nat)
    requires IsRun(H, threads, acts, states) && k <= |acts| && t < |states[k].pcs| && !states[k].pcs[t].Idle?
    requires forall u | 0 <= u < |states[k].pcs| && states[k].pcs[u].Inside? ::
      Admissible(states[k].pcs[u].seen, states[k].pcs[u].op)
    ensures exists a :: Advances(H, states[k], a)
  {
    hide Step, Admissible, Shard, Covers, Legal, Tracked, Explains, RealTime, Numbered, Unreturned;
    Reachable(H, threads, acts, states, k);
    var s := states[k];
    match s.pcs[t]
    case Waiting(_, op) =>
      var lock := s.locks[Shard(H, op)];
      var a := if lock.Free? then Acquire(t) else if s.pcs[lock.t].Inside? then Finish(lock.t) else Release(lock.t);
      assert Advances(H, s, a);
    case Inside(_, _, _) =>
      assert Advances(H, s, Finish(t));
    case Leaving(_, _, _) =>
      assert Advances(H, s, Release(t));
    case Returning(_, _, _) =>
      assert Advances(H, s, Return(t));
  }

  ghost predicate Advances(H: Hash, s: State, a: Action) {
    Enabled(H, s, a) && Effort(Next(H, s, a).pcs[a.t]) < Effort(s.pcs[a.t]) &&
    forall u | 0 <= u < |s.pcs| && u != a.t :: Next(H, s, a).pcs[u] == s.pcs[u]
  }

  // ---- the order as a run

  function OpsOf(lin: seq<Record>): seq<Op> {
    if lin == [] then [] else OpsOf(lin[..|lin| - 1]) + [lin[|lin| - 1].op]
  }

  function AnswersOf(lin: seq<Record>): seq<Answer> {
    if lin == [] then [] else AnswersOf(lin[..|lin| - 1]) + [lin[|lin| - 1].answer]
  }

  lemma {:induction false} StepsLast(s: Store, ops: seq<Op>, op: Op)
    ensures var (t, answers) := Steps(s, ops);
      Steps(s, ops + [op]) == (Step(t, op).0, answers + [Step(t, op).1])
    decreases |ops|
  {
    hide Step;
    if ops == [] {
      assert ops + [op] == [op] && [op][0] == op && [op][1..] == [];
      assert Steps(Step(s, op).0, []) == (Step(s, op).0, []);
      assert [Step(s, op).1] + [] == [] + [Step(s, op).1];
    } else {
      assert (ops + [op])[0] == ops[0] && (ops + [op])[1..] == ops[1..] + [op];
      var s1, a := Step(s, ops[0]).0, Step(s, ops[0]).1;
      StepsLast(s1, ops[1..], op);
      var t, rest := Steps(s1, ops[1..]).0, Steps(s1, ops[1..]).1;
      assert [a] + (rest + [Step(t, op).1]) == ([a] + rest) + [Step(t, op).1];
    }
  }

  /** The sequential order is a run of the plain map from empty: its answers are those the run gives. */
  lemma {:induction false} LegalIsRun(lin: seq<Record>)
    requires Legal(lin)
    ensures Steps(map[], OpsOf(lin)) == (After(lin), AnswersOf(lin)) && |OpsOf(lin)| == |lin|
  {
    hide Step;
    if lin != [] {
      var n := |lin| - 1;
      assert LegalAt(lin, n);
      forall j | 0 <= j < n
        ensures LegalAt(lin[..n], j)
      {
        assert LegalAt(lin, j) && lin[..n][..j] == lin[..j];
      }
      LegalIsRun(lin[..n]);
      StepsLast(map[], OpsOf(lin[..n]), lin[n].op);
    }
  }
}
