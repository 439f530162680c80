/** Sattolo's shuffle: a random permutation that is one single cycle. */
module Cycles {

  predicate InRange(s: seq<nat>) {
    forall i | 0 <= i < |s| :: s[i] < |s|
  }

  /** The k-th successor of x. */
  function Follow(s: seq<nat>, x: nat, k: nat): (y: nat)
    requires InRange(s) && x < |s|
    ensures y < |s|
  {
    if k == 0 then x else s[Follow(s, x, k - 1)]
  }

  /** Following the array from 0 visits every index and is back after |s| steps and not sooner. */
  ghost predicate SingleCycle(s: seq<nat>) {
    |s| > 0 && InRange(s) && Follow(s, 0, |s|) == 0 &&
    (forall k | 0 < k < |s| :: Follow(s, 0, k) != 0) &&
    forall x: nat | x < |s| :: Visited(s, x)
  }

  ghost predicate Visited(s: seq<nat>, x: nat)
    requires |s| > 0 && InRange(s)
  {
    exists k: nat :: k < |s| && Follow(s, 0, k) == x
  }

  // A list that the array runs through, from its first element back to it.
  ghost predicate IsCycle(s: seq<nat>, c: seq<nat>) {
    c != [] && forall k: nat | k < |c| :: Linked(s, c, k)
  }

  ghost predicate Linked(s: seq<nat>, c: seq<nat>, k: nat)
    requires k < |c|
  {
    c[k] < |s| && s[c[k]] == if k + 1 < |c| then c[k + 1] else c[0]
  }

  function Lengths(cs: seq<seq<nat>>): nat {
    if cs == [] then 0 else Lengths(cs[..|cs| - 1]) + |cs[|cs| - 1]|
  }

  ghost predicate Covered(cs: seq<seq<nat>>, x: nat) {
    exists c | 0 <= c < |cs| :: x in cs[c]
  }

  /** Cycle c starts at index c and else holds only indices from |cs| on; together they hold every index once. */
  ghost predicate Cycles(s: seq<nat>, cs: seq<seq<nat>>) {
    |cs| <= |s| && (forall c | 0 <= c < |cs| :: IsCycle(s, cs[c]) && cs[c][0] == c) &&
    (forall c, k | 0 <= c < |cs| && 0 < k < |cs[c]| :: cs[c][k] >= |cs|) &&
    (forall x: nat | x < |s| :: Covered(cs, x)) && Lengths(cs) == |s|
  }

  // The two cycles that a swap joins.
  function Joined(a: seq<nat>, b: seq<nat>): seq<nat>
    requires a != [] && b != []
  {
    [a[0]] + b[1..] + [b[0]] + a[1..]
  }

  function Merged(cs: seq<seq<nat>>, j: nat): seq<seq<nat>>
    requires j + 1 < |cs| && cs[j] != [] && cs[|cs| - 1] != []
  {
    cs[..|cs| - 1][j := Joined(cs[j], cs[|cs| - 1])]
  }

  function Swapped(s: seq<nat>, i: nat, j: nat): seq<nat>
    requires i < |s| && j < |s|
  {
    s[i := s[j]][j := s[i]]
  }

  lemma JoinedIsCycle(s: seq<nat>, a: seq<nat>, b: seq<nat>)
    requires IsCycle(s, a) && IsCycle(s, b) && a[0] != b[0]
    requires forall k | 0 < k < |a| :: a[k] != a[0] && a[k] != b[0]
    requires forall k | 0 < k < |b| :: b[k] != a[0] && b[k] != b[0]
    ensures Linked(s, a, 0) && Linked(s, b, 0) && IsCycle(Swapped(s, b[0], a[0]), Joined(a, b))
  {
    assert Linked(s, a, 0) && Linked(s, b, 0);
    var t, c := Swapped(s, b[0], a[0]), Joined(a, b);
    forall k: nat | k < |c|
      ensures Linked(t, c, k)
    {
      if 0 < k < |b| {
        assert Linked(s, b, k);
      } else if k > |b| {
        assert Linked(s, a, k - |b|);
      }
    }
  }

  lemma OtherCycle(s: seq<nat>, c: seq<nat>, i: nat, j: nat)
    requires IsCycle(s, c) && i < |s| && j < |s| && forall k | 0 <= k < |c| :: c[k] != i && c[k] != j
    ensures IsCycle(Swapped(s, i, j), c)
  {
    forall k: nat | k < |c|
      ensures Linked(Swapped(s, i, j), c, k)
    {
      assert Linked(s, c, k);
    }
  }

  lemma {:induction false} LengthsUpdate(cs: seq<seq<nat>>, j: nat, c: seq<nat>)
    requires j < |cs|
    ensures Lengths(cs[j := c]) + |cs[j]| == Lengths(cs) + |c|
  {
    var n := |cs| - 1;
    if j == n {
      assert cs[j := c][..n] == cs[..n];
    } else {
      LengthsUpdate(cs[..n], j, c);
      assert cs[j := c][..n] == cs[..n][j := c];
    }
  }

  /** Before step i every cycle holds exactly one index up to i; the swap joins two of them. */
  lemma SwapJoins(s: seq<nat>, cs: seq<seq<nat>>, j: nat)
    requires Cycles(s, cs) && j + 1 < |cs|
    ensures Cycles(Swapped(s, |cs| - 1, j), Merged(cs, j))
  {
    var i := |cs| - 1;
    var t, ds := Swapped(s, i, j), Merged(cs, j);
    assert IsCycle(s, cs[i]) && IsCycle(s, cs[j]);
    JoinedIsCycle(s, cs[j], cs[i]);
    forall c | 0 <= c < |ds|
      ensures IsCycle(t, ds[c]) && ds[c][0] == c
    {
      if c != j {
        OtherCycle(s, cs[c], i, j);
      }
    }
    forall x: nat | x < |t|
      ensures Covered(ds, x)
    {
      assert Covered(cs, x);
      var c :| 0 <= c < |cs| && x in cs[c];
      if c == i || c == j {
        MemberJoined(cs[j], cs[i], x);
      }
      assert c != i && c != j ==> ds[c] == cs[c];
      assert x in ds[if c == i then j else c];
    }
    LengthsUpdate(cs[..i], j, Joined(cs[j], cs[i]));
  }

  lemma MemberJoined(a: seq<nat>, b: seq<nat>, x: nat)
    requires a != [] && b != [] && (x in a || x in b)
    ensures x in Joined(a, b)
  {
    assert a == [a[0]] + a[1..] && b == [b[0]] + b[1..];
  }

  // ---- one cycle left

  lemma {:induction false} FollowCycle(s: seq<nat>, c: seq<nat>, k: nat)
    requires InRange(s) && IsCycle(s, c) && k < |c|
    ensures c[0] < |s| && Follow(s, c[0], k) == c[k]
  {
    assert Linked(s, c, 0);
    if k > 0 {
      FollowCycle(s, c, k - 1);
      assert Linked(s, c, k - 1);
    }
  }

  lemma OneCycle(s: seq<nat>, cs: seq<seq<nat>>)
    requires InRange(s) && Cycles(s, cs) && |cs| == 1
    ensures SingleCycle(s)
  {
    var c := cs[0];
    assert IsCycle(s, c) && Lengths(cs[..0]) == 0 && |c| == |s|;
    forall k: nat | k < |c|
      ensures Follow(s, 0, k) == c[k]
    {
      FollowCycle(s, c, k);
    }
    assert Linked(s, c, |c| - 1);
    forall x: nat | x < |s|
      ensures Visited(s, x)
    {
      assert Covered(cs, x);
      var k :| 0 <= k < |c| && c[k] == x;
      assert Follow(s, 0, k) == x;
    }
  }

  // Every index its own cycle.
  lemma {:induction false} Singletons(n: nat) returns (cs: seq<seq<nat>>)
    ensures |cs| == n && Lengths(cs) == n && forall c | 0 <= c < n :: cs[c] == [c]
  {
    if n == 0 {
      cs := [];
    } else {
      cs := Singletons(n - 1);
      assert (cs + [[n - 1]])[..n - 1] == cs;
      cs := cs + [[n - 1]];
    }
  }

  lemma StartCycles(s: seq<nat>) returns (cs: seq<seq<nat>>)
    requires forall i | 0 <= i < |s| :: s[i] == i
    ensures Cycles(s, cs) && |cs| == |s|
  {
    cs := Singletons(|s|);
    forall c | 0 <= c < |cs|
      ensures IsCycle(s, cs[c])
    {
      assert Linked(s, cs[c], 0);
    }
    forall x: nat | x < |s|
      ensures Covered(cs, x)
    {
      assert x in cs[x];
    }
  }

  // ---- what the random numbers decide

  // After k steps from i, all before them above i, comes j below i.
  ghost predicate Arrives(s: seq<nat>, i: nat, j: nat, k: nat)
    requires InRange(s) && i < |s|
  {
    0 < k && Follow(s, i, k) == j < i && forall m: nat | 0 < m < k :: Follow(s, i, m) > i
  }

  /** The first index below i that comes after i in the array is j. */
  ghost predicate FirstBelow(s: seq<nat>, i: nat, j: nat)
    requires InRange(s) && i < |s|
  {
    exists k: nat :: Arrives(s, i, j, k)
  }

  /** For every i the first index below it after i is the i-th random number modulo i. */
  ghost predicate ChosenBy(s: seq<nat>, random: seq<nat>)
    requires InRange(s)
  {
    |s| <= |random| && forall i | 0 < i < |s| :: FirstBelow(s, i, random[i] % i)
  }

  lemma OneFirstBelow(s: seq<nat>, i: nat, j: nat, k: nat)
    requires InRange(s) && i < |s| && FirstBelow(s, i, j) && FirstBelow(s, i, k)
    ensures j == k
  {
    var m: nat :| Arrives(s, i, j, m);
    var n: nat :| Arrives(s, i, k, n);
  }

  // What comes after i before anything below it depends on the array from i on.
  lemma SameFirstBelow(s: seq<nat>, t: seq<nat>, i: nat, j: nat)
    requires InRange(s) && InRange(t) && i < |s| == |t| && FirstBelow(s, i, j)
    requires forall x | i <= x < |s| :: s[x] == t[x]
    ensures FirstBelow(t, i, j)
  {
    var k: nat :| Arrives(s, i, j, k);
    forall m: nat | m <= k
      ensures Follow(t, i, m) == Follow(s, i, m)
    {
      SamePath(s, t, i, j, k, m);
    }
    assert Arrives(t, i, j, k);
  }

  lemma {:induction false} SamePath(s: seq<nat>, t: seq<nat>, i: nat, j: nat, k: nat, m: nat)
    requires InRange(s) && InRange(t) && i < |s| == |t| && Arrives(s, i, j, k) && m <= k
    requires forall x | i <= x < |s| :: s[x] == t[x]
    ensures Follow(t, i, m) == Follow(s, i, m)
  {
    if m > 0 {
      SamePath(s, t, i, j, k, m - 1);
      assert Follow(s, i, m - 1) >= i;
    }
  }

  // The swap of step i puts i in front of the cycle of j, without j.
  lemma SwapChooses(s: seq<nat>, cs: seq<seq<nat>>, j: nat)
    requires InRange(s) && Cycles(s, cs) && j + 1 < |cs|
    ensures InRange(Swapped(s, |cs| - 1, j)) && FirstBelow(Swapped(s, |cs| - 1, j), |cs| - 1, j)
  {
    var i, a := |cs| - 1, cs[j];
    var t := Swapped(s, i, j);
    assert IsCycle(s, a) && Linked(s, a, 0);
    forall m: nat | 0 < m <= |a|
      ensures Follow(t, i, m) == if m < |a| then a[m] else j
    {
      SwapPath(s, cs, j, m);
    }
    assert Arrives(t, i, j, |a|);
  }

  lemma {:induction false} SwapPath(s: seq<nat>, cs: seq<seq<nat>>, j: nat, m: nat)
    requires InRange(s) && Cycles(s, cs) && j + 1 < |cs| && 0 < m <= |cs[j]|
    ensures InRange(Swapped(s, |cs| - 1, j))
    ensures Follow(Swapped(s, |cs| - 1, j), |cs| - 1, m) == if m < |cs[j]| then cs[j][m] else j
  {
    var i, a := |cs| - 1, cs[j];
    assert IsCycle(s, a) && Linked(s, a, m - 1);
    if m > 1 {
      SwapPath(s, cs, j, m - 1);
      assert a[m - 1] > i;
    } else {
      assert Follow(Swapped(s, i, j), i, 0) == i;
    }
  }

  // ---- taking a step back

  // No index lies on two cycles or twice on one.
  lemma {:induction false} OnePlace(s: seq<nat>, cs: seq<seq<nat>>, c: nat, a: nat, d: nat, b: nat)
    requires Cycles(s, cs) && c < |cs| && d < |cs| && a < |cs[c]| && b < |cs[d]| && cs[c][a] == cs[d][b]
    ensures c == d && a == b
    decreases |cs[c]| - a
  {
    assert IsCycle(s, cs[c]) && IsCycle(s, cs[d]) && Linked(s, cs[c], a) && Linked(s, cs[d], b);
    if a + 1 < |cs[c]| && b + 1 < |cs[d]| {
      OnePlace(s, cs, c, a + 1, d, b + 1);
    }
  }

  // The index after the heads lies in the middle of some cycle; the swap with its head cuts that cycle in two.
  lemma StepBack(s: seq<nat>, cs: seq<seq<nat>>) returns (j: nat, ds: seq<seq<nat>>)
    requires InRange(s) && Cycles(s, cs) && |cs| < |s|
    ensures j < |cs| && |ds| == |cs| + 1
    ensures InRange(Swapped(s, |cs|, j)) && Cycles(Swapped(s, |cs|, j), ds) && FirstBelow(s, |cs|, j)
  {
    var m := |cs|;
    assert Covered(cs, m);
    j :| 0 <= j < m && m in cs[j];
    var c := cs[j];
    var p :| 0 <= p < |c| && c[p] == m;
    assert c[0] == j;
    var a, b := [j] + c[p + 1..], [m] + c[1..p];
    ds := cs[j := a] + [b];
    CutCycles(s, cs, j, p);
    var t := Swapped(s, m, j);
    SwapChooses(t, ds, j);
    assert Swapped(t, m, j) == s;
  }

  lemma CutCycles(s: seq<nat>, cs: seq<seq<nat>>, j: nat, p: nat)
    requires InRange(s) && Cycles(s, cs) && |cs| < |s| && j < |cs| && 0 < p < |cs[j]| && cs[j][p] == |cs|
    ensures var a, b := [j] + cs[j][p + 1..], [|cs|] + cs[j][1..p];
      InRange(Swapped(s, |cs|, j)) && Cycles(Swapped(s, |cs|, j), cs[j := a] + [b])
  {
    var m, c := |cs|, cs[j];
    var a, b := [j] + c[p + 1..], [m] + c[1..p];
    var t, ds := Swapped(s, m, j), cs[j := a] + [b];
    assert IsCycle(s, c) && Linked(s, c, 0) && Linked(s, c, p);
    forall k: nat | k < |a|
      ensures Linked(t, a, k)
    {
      CutPlace(s, cs, j, p, if k == 0 then p else p + k);
    }
    forall k: nat | k < |b|
      ensures Linked(t, b, k)
    {
      CutPlace(s, cs, j, p, k);
    }
    forall d | 0 <= d < |ds|
      ensures IsCycle(t, ds[d]) && ds[d][0] == d && forall k | 0 < k < |ds[d]| :: ds[d][k] >= |ds|
    {
      if d < m && d != j {
        forall k | 0 <= k < |cs[d]|
          ensures cs[d][k] != m && cs[d][k] != j
        {
          NotThere(s, cs, j, p, d, k);
        }
        OtherCycle(s, cs[d], m, j);
        assert IsCycle(s, cs[d]);
      } else {
        forall k: nat | 0 < k < |c| && k != p
          ensures c[k] > m
        {
          NotTwice(s, cs, j, p, k);
        }
      }
    }
    CutCovers(s, cs, j, p);
  }

  // The cut loses no index.
  lemma CutCovers(s: seq<nat>, cs: seq<seq<nat>>, j: nat, p: nat)
    requires Cycles(s, cs) && |cs| < |s| && j < |cs| && 0 < p < |cs[j]| && cs[j][p] == |cs|
    ensures var a, b := [j] + cs[j][p + 1..], [|cs|] + cs[j][1..p]; var ds := cs[j := a] + [b];
      Lengths(ds) == |s| && forall x: nat | x < |s| :: Covered(ds, x)
  {
    var m, c := |cs|, cs[j];
    var a, b := [j] + c[p + 1..], [m] + c[1..p];
    var ds := cs[j := a] + [b];
    assert c == [j] + c[1..p] + [m] + c[p + 1..];
    forall x: nat | x < |s|
      ensures Covered(ds, x)
    {
      assert Covered(cs, x);
      var d :| 0 <= d < |cs| && x in cs[d];
      assert x in ds[d] || x in ds[m];
    }
    LengthsUpdate(cs, j, a);
    assert ds[..m] == cs[j := a];
  }

  // Away from the cut every index keeps its successor.
  lemma CutPlace(s: seq<nat>, cs: seq<seq<nat>>, j: nat, p: nat, k: nat)
    requires InRange(s) && Cycles(s, cs) && |cs| < |s| && j < |cs| && 0 < p < |cs[j]| && cs[j][p] == |cs| && k < |cs[j]|
    ensures Linked(s, cs[j], k) && (k != 0 && k != p ==> cs[j][k] != j && cs[j][k] != |cs|)
    ensures cs[j][0] == j
  {
    assert IsCycle(s, cs[j]);
    if cs[j][k] == cs[j][p] {
      OnePlace(s, cs, j, k, j, p);
    }
  }

  lemma NotTwice(s: seq<nat>, cs: seq<seq<nat>>, j: nat, p: nat, k: nat)
    requires Cycles(s, cs) && j < |cs| && 0 < p < |cs[j]| && cs[j][p] == |cs| && 0 < k < |cs[j]| && k != p
    ensures cs[j][k] > |cs|
  {
    if cs[j][k] == cs[j][p] {
      OnePlace(s, cs, j, k, j, p);
    }
  }

  lemma NotThere(s: seq<nat>, cs: seq<seq<nat>>, j: nat, p: nat, d: nat, k: nat)
    requires Cycles(s, cs) && j < |cs| && 0 < p < |cs[j]| && cs[j][p] == |cs| && d < |cs| && d != j && k < |cs[d]|
    ensures cs[d][k] != |cs| && cs[d][k] != j && (k > 0 ==> cs[d][k] > |cs|)
  {
    if cs[d][k] == cs[j][p] {
      OnePlace(s, cs, d, k, j, p);
    }
  }

  // ---- a cycle and its choices determine each other

  // A single cycle as a list from 0.
  lemma CycleList(s: seq<nat>) returns (cs: seq<seq<nat>>)
    requires SingleCycle(s)
    ensures Cycles(s, cs) && |cs| == 1
  {
    var c := seq(|s|, k requires 0 <= k < |s| => Follow(s, 0, k));
    cs := [c];
    forall k: nat | k < |c|
      ensures Linked(s, c, k)
    {
      assert k + 1 == |c| ==> Follow(s, 0, k + 1) == s[Follow(s, 0, k)];
    }
    forall x: nat | x < |s|
      ensures Covered(cs, x)
    {
      assert Visited(s, x);
      var k: nat :| k < |s| && Follow(s, 0, k) == x;
      assert c[k] == x && x in cs[0];
    }
    assert Lengths(cs[..0]) == 0;
  }

  lemma {:induction false} Singles(s: seq<nat>, cs: seq<seq<nat>>)
    requires Cycles(s, cs) && |cs| == |s|
    ensures forall i | 0 <= i < |s| :: s[i] == i
  {
    forall i | 0 <= i < |s|
      ensures s[i] == i
    {
      assert IsCycle(s, cs[i]) && Linked(s, cs[i], 0);
      assert |cs[i]| > 1 ==> Linked(s, cs[i], 1);
    }
  }

  ghost predicate Alike(s: seq<nat>, t: seq<nat>, i: nat)
    requires InRange(s) && InRange(t) && i < |s| == |t|
  {
    exists j: nat :: FirstBelow(s, i, j) && FirstBelow(t, i, j)
  }

  lemma {:induction false} SameChoices(s: seq<nat>, cs: seq<seq<nat>>, t: seq<nat>, ds: seq<seq<nat>>)
    requires InRange(s) && InRange(t) && |s| == |t| && Cycles(s, cs) && Cycles(t, ds) && 0 < |cs| == |ds| <= |s|
    requires forall i | |cs| <= i < |s| :: Alike(s, t, i)
    ensures s == t
    decreases |s| - |cs|
  {
    hide FirstBelow, Cycles;
    if |cs| == |s| {
      Singles(s, cs);
      Singles(t, ds);
    } else {
      var m := |cs|;
      assert Alike(s, t, m);
      var j, cs' := StepBack(s, cs);
      var k, ds' := StepBack(t, ds);
      var l: nat :| FirstBelow(s, m, l) && FirstBelow(t, m, l);
      OneFirstBelow(s, m, j, l);
      OneFirstBelow(t, m, k, l);
      var u, v := Swapped(s, m, j), Swapped(t, m, j);
      forall i | m + 1 <= i < |s|
        ensures Alike(u, v, i)
      {
        StillAlike(s, t, m, j, i);
      }
      SameChoices(u, cs', v, ds');
      assert s == Swapped(u, m, j) && t == Swapped(v, m, j);
    }
  }

  lemma StillAlike(s: seq<nat>, t: seq<nat>, m: nat, j: nat, i: nat)
    requires InRange(s) && InRange(t) && j < m < i < |s| == |t| && Alike(s, t, i)
    ensures InRange(Swapped(s, m, j)) && InRange(Swapped(t, m, j)) && Alike(Swapped(s, m, j), Swapped(t, m, j), i)
  {
    hide FirstBelow;
    var h: nat :| FirstBelow(s, i, h) && FirstBelow(t, i, h);
    SameFirstBelow(s, Swapped(s, m, j), i, h);
    SameFirstBelow(t, Swapped(t, m, j), i, h);
  }

  lemma {:induction false} ChoicesOf(s: seq<nat>, cs: seq<seq<nat>>) returns (r: seq<nat>)
    requires InRange(s) && Cycles(s, cs)
    ensures |r| == |s| && forall i | |cs| <= i < |s| :: r[i] < i && FirstBelow(s, i, r[i])
    decreases |s| - |cs|
  {
    if |cs| == |s| {
      r := s;
    } else {
      var m := |cs|;
      var j, ds := StepBack(s, cs);
      var u := Swapped(s, m, j);
      var q := ChoicesOf(u, ds);
      r := q[m := j];
      forall i | m < i < |s|
        ensures FirstBelow(s, i, r[i])
      {
        SameFirstBelow(u, s, i, q[i]);
      }
    }
  }

  /** Two results are the same exactly when their random numbers have the same residues. */
  lemma ChoicesDecide(s: seq<nat>, r: seq<nat>, t: seq<nat>, q: seq<nat>)
    requires SingleCycle(s) && SingleCycle(t) && |s| == |t| && ChosenBy(s, r) && ChosenBy(t, q)
    ensures s == t <==> forall i | 0 < i < |s| :: r[i] % i == q[i] % i
  {
    if s == t {
      forall i | 0 < i < |s|
        ensures r[i] % i == q[i] % i
      {
        OneFirstBelow(s, i, r[i] % i, q[i] % i);
      }
    }
    if forall i | 0 < i < |s| :: r[i] % i == q[i] % i {
      var cs := CycleList(s);
      var ds := CycleList(t);
      forall i | 1 <= i < |s|
        ensures Alike(s, t, i)
      {
        assert FirstBelow(s, i, r[i] % i) && FirstBelow(t, i, q[i] % i) && r[i] % i == q[i] % i;
      }
      SameChoices(s, cs, t, ds);
    }
  }

  /** Every single cycle is the result for some random numbers. */
  lemma EveryCycleChosen(s: seq<nat>)
    requires SingleCycle(s)
    ensures exists r :: ChosenBy(s, r)
  {
    var cs := CycleList(s);
    var r := ChoicesOf(s, cs);
    forall i | 0 < i < |s|
      ensures r[i] % i == r[i]
    {
      SmallResidue(r[i], i);
    }
    assert ChosenBy(s, r);
  }

  lemma SmallResidue(x: nat, i: nat)
    requires x < i
    ensures x % i == x
  {
  }

  /** A single cycle of n indices, whatever the random numbers, and the one that these choose. */
  method MakeCycle(n: nat, random: seq<nat>) returns (next: array<nat>)
    requires 1 <= n <= |random|
    ensures next.Length == n && SingleCycle(next[..]) && ChosenBy(next[..], random)
  {
    hide Cycles, SingleCycle, FirstBelow;
    next := new nat[n];
    for i := 0 to n
      invariant forall k | 0 <= k < i :: next[k] == k
    {
      next[i] := i;
    }
    ghost var cs := StartCycles(next[..]);
    var i := n - 1;
    while i > 0
      invariant 0 <= i < n && InRange(next[..]) && Cycles(next[..], cs) && |cs| == i + 1
      invariant forall k | i < k < n :: FirstBelow(next[..], k, random[k] % k)
    {
      var j := random[i] % i;
      ghost var was := next[..];
      SwapChooses(was, cs, j);
      var tmp := next[i];
      next[i] := next[j];
      next[j] := tmp;
      assert next[..] == Swapped(was, i, j);
      forall k | i < k < n
        ensures FirstBelow(next[..], k, random[k] % k)
      {
        SameFirstBelow(was, next[..], k, random[k] % k);
      }
      cs := MergedCycles(was, cs, j);
      i := i - 1;
    }
    OneCycle(next[..], cs);
  }

  lemma MergedCycles(s: seq<nat>, cs: seq<seq<nat>>, j: nat) returns (ds: seq<seq<nat>>)
    requires Cycles(s, cs) && j + 1 < |cs|
    ensures |ds| == |cs| - 1 && Cycles(Swapped(s, |cs| - 1, j), ds)
  {
    SwapJoins(s, cs, j);
    ds := Merged(cs, j);
  }
}
