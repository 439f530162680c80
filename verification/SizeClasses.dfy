/** The geometric chunk sizes of the allocator and the search for the class of a request. */
module SizeClasses {
  import opened Slabs

  const MIN_CHUNK: nat := 48
  const MAX_CHUNK: nat := 0x8_0000

  /** The class size after `size`: a quarter more, aligned, at least one step, capped. */
  function NextChunkSize(size: nat): nat {
    var grown := AlignUp(5 * size / 4);
    var next := if grown <= size then size + ALIGNMENT else grown;
    if next > MAX_CHUNK then MAX_CHUNK else next
  }

  predicate Aligned(size: nat) {
    size % ALIGNMENT == 0
  }

  // One growth step: aligned, strictly larger, a quarter larger and at most seven bytes more, or the top size. There
  // is only one such multiple of eight.
  lemma NextIsLarger(size: nat)
    requires Aligned(size) && MIN_CHUNK <= size < MAX_CHUNK
    ensures Aligned(NextChunkSize(size)) && size < NextChunkSize(size) <= MAX_CHUNK
    ensures 4 * NextChunkSize(size) <= 5 * size + 28
    ensures NextChunkSize(size) == 0x8_0000 || 5 * size <= 4 * NextChunkSize(size)
    ensures 5 * size <= 4 * 0x8_0000 ==> 5 * size <= 4 * NextChunkSize(size)
  {
    hide AlignUp;
    var eighths := size / 8;
    assert size == 8 * eighths && 5 * size / 4 == 10 * eighths;
    AlignUpLeast(10 * eighths);
  }

  /** The class sizes: from 48 bytes, each the next of the one before, to the first that reaches 2^19. */
  ghost predicate Ladder(s: seq<nat>) {
    Climb(s) && s[|s| - 1] == MAX_CHUNK
  }

  ghost predicate Climb(s: seq<nat>) {
    |s| > 0 && s[0] == MIN_CHUNK && forall i: nat | i + 1 < |s| :: StepAt(s, i)
  }

  ghost predicate StepAt(s: seq<nat>, i: nat)
    requires i + 1 < |s|
  {
    s[i] < MAX_CHUNK && s[i + 1] == NextChunkSize(s[i])
  }

  ghost predicate Growing(s: seq<nat>) {
    (forall i | 0 <= i < |s| :: Aligned(s[i]) && MIN_CHUNK <= s[i] <= MAX_CHUNK) &&
    (forall i: nat | i + 1 < |s| :: Moderate(s, i)) &&
    (forall i, j | 0 <= i < j < |s| :: s[i] < s[j])
  }

  ghost predicate Moderate(s: seq<nat>, i: nat)
    requires i + 1 < |s|
  {
    4 * s[i + 1] <= 5 * s[i] + 28 && (s[i + 1] == 0x8_0000 || 5 * s[i] <= 4 * s[i + 1])
  }

  // Class sizes are multiples of eight, strictly increasing, each a quarter more than the last and at most
  // seven bytes beyond that, or the largest size.
  lemma {:induction false} ClimbGrows(s: seq<nat>)
    requires Climb(s)
    ensures Growing(s)
  {
    if |s| > 1 {
      var n := |s| - 2;
      var t := s[..n + 1];
      forall i: nat | i + 1 < |t|
        ensures StepAt(t, i)
      {
        assert StepAt(s, i);
      }
      ClimbGrows(t);
      assert StepAt(s, n) && t[n] == s[n];
      NextIsLarger(s[n]);
      forall i: nat | i + 1 < |s|
        ensures Moderate(s, i)
      {
        if i < n {
          assert Moderate(t, i);
        }
      }
    }
  }

  // There is only one such list.
  lemma {:induction false} LadderUnique(s: seq<nat>, t: seq<nat>)
    requires Ladder(s) && Ladder(t)
    ensures s == t
  {
    var n := if |s| <= |t| then |s| else |t|;
    assert |s| < |t| ==> StepAt(t, |s| - 1);
    assert |t| < |s| ==> StepAt(s, |t| - 1);
    SameClimb(s, t, n);
  }

  lemma {:induction false} SameClimb(s: seq<nat>, t: seq<nat>, n: nat)
    requires Climb(s) && Climb(t) && n <= |s| && n <= |t|
    ensures forall i | 0 <= i < n :: s[i] == t[i]
  {
    if n > 1 {
      SameClimb(s, t, n - 1);
      assert StepAt(s, n - 2) && StepAt(t, n - 2);
    }
  }

  lemma ClimbStep(s: seq<nat>)
    requires Climb(s) && s[|s| - 1] < MAX_CHUNK
    ensures Climb(s + [NextChunkSize(s[|s| - 1])])
  {
    var t := s + [NextChunkSize(s[|s| - 1])];
    forall i: nat | i + 1 < |t|
      ensures StepAt(t, i)
    {
      assert i + 1 < |s| ==> StepAt(s, i);
    }
  }

  // The sizes once more: from 48, to 2^19, each the one multiple of eight from a quarter more to seven beyond, or 2^19.
  ghost predicate Geometric(s: seq<nat>) {
    |s| > 0 && s[0] == 48 && s[|s| - 1] == 524288 && forall i: nat | i + 1 < |s| :: Quarter(s[i], s[i + 1])
  }

  predicate Quarter(size: nat, next: nat) {
    size < 524288 && next % 8 == 0 &&
    if 5 * size <= 4 * 524288 then 5 * size <= 4 * next <= 5 * size + 28 else next == 524288
  }

  lemma LadderIsGeometric(s: seq<nat>)
    requires Ladder(s)
    ensures Geometric(s)
  {
    ClimbGrows(s);
    forall i: nat | i + 1 < |s|
      ensures Quarter(s[i], s[i + 1])
    {
      assert StepAt(s, i);
      NextIsLarger(s[i]);
    }
  }

  lemma Onward(s: seq<nat>, i: nat, next: nat)
    requires Geometric(s) && i < |s| && Quarter(s[i], next)
    ensures i + 1 < |s| && s[i + 1] == next
  {
    hide Quarter;
    assert s[i] < 524288 by {
      Below(s[i], next);
    }
    assert i + 1 < |s|;
    OneQuarter(s[i], s[i + 1], next);
  }

  lemma Below(size: nat, next: nat)
    requires Quarter(size, next)
    ensures size < 524288
  {
  }

  lemma OneQuarter(size: nat, a: nat, b: nat)
    requires Quarter(size, a) && Quarter(size, b)
    ensures a == b
  {
    var i, j := a / 8, b / 8;
    assert a == 8 * i && b == 8 * j;
  }

  lemma StartsAt48(s: seq<nat>)
    requires Geometric(s)
    ensures |s| > 0 && s[0] == 48
  {
  }

  lemma Sizes0To14(s: seq<nat>)
    requires Geometric(s)
    ensures |s| > 14 && s[0..15] == [
      48, 64, 80, 104, 136, 176, 224, 280, 352, 440, 552, 696, 872, 1096, 1376]
  {
    hide Geometric;
    StartsAt48(s);
    Onward(s, 0, 64);
    Onward(s, 1, 80);
    Onward(s, 2, 104);
    Onward(s, 3, 136);
    Onward(s, 4, 176);
    Onward(s, 5, 224);
    Onward(s, 6, 280);
    Onward(s, 7, 352);
    Onward(s, 8, 440);
    Onward(s, 9, 552);
    Onward(s, 10, 696);
    Onward(s, 11, 872);
    Onward(s, 12, 1096);
    Onward(s, 13, 1376);
  }

  lemma Sizes14To28(s: seq<nat>)
    requires Geometric(s) && 14 < |s| && s[14] == 1376
    ensures |s| > 28 && s[14..29] == [
      1376, 1720, 2152, 2696, 3376, 4224, 5280, 6600, 8256, 10320, 12904, 16136, 20176, 25224, 31536]
  {
    hide Geometric;
    Onward(s, 14, 1720);
    Onward(s, 15, 2152);
    Onward(s, 16, 2696);
    Onward(s, 17, 3376);
    Onward(s, 18, 4224);
    Onward(s, 19, 5280);
    Onward(s, 20, 6600);
    Onward(s, 21, 8256);
    Onward(s, 22, 10320);
    Onward(s, 23, 12904);
    Onward(s, 24, 16136);
    Onward(s, 25, 20176);
    Onward(s, 26, 25224);
    Onward(s, 27, 31536);
  }

  lemma Sizes28To41(s: seq<nat>)
    requires Geometric(s) && 28 < |s| && s[28] == 31536
    ensures |s| > 41 && s[28..42] == [
      31536, 39424, 49280, 61600, 77000, 96256, 120320, 150400, 188000, 235000, 293752, 367192, 458992,
      524288]
  {
    hide Geometric;
    Onward(s, 28, 39424);
    Onward(s, 29, 49280);
    Onward(s, 30, 61600);
    Onward(s, 31, 77000);
    Onward(s, 32, 96256);
    Onward(s, 33, 120320);
    Onward(s, 34, 150400);
    Onward(s, 35, 188000);
    Onward(s, 36, 235000);
    Onward(s, 37, 293752);
    Onward(s, 38, 367192);
    Onward(s, 39, 458992);
    Onward(s, 40, 524288);
  }

  /** There are 42 classes, of these sizes. */
  lemma FortyTwoClasses(s: seq<nat>)
    requires Ladder(s)
    ensures |s| == 42 && s == [
      48, 64, 80, 104, 136, 176, 224, 280, 352, 440, 552, 696, 872, 1096, 1376, 1720, 2152, 2696, 3376,
      4224, 5280, 6600, 8256, 10320, 12904, 16136, 20176, 25224, 31536, 39424, 49280, 61600, 77000,
      96256, 120320, 150400, 188000, 235000, 293752, 367192, 458992, 524288]
  {
    hide Quarter;
    LadderIsGeometric(s);
    Sizes0To14(s);
    Sizes14To28(s);
    Sizes28To41(s);
    LastSize(s, 41);
    assert s == s[0..15] + s[14..29][1..] + s[28..42][1..];
  }

  lemma LastSize(s: seq<nat>, i: nat)
    requires Geometric(s) && i < |s| && s[i] == 524288
    ensures |s| == i + 1
  {
    assert i + 1 < |s| ==> Quarter(s[i], s[i + 1]);
  }

  /** Count the classes by walking up the sizes; the walk ends. */
  method CountSlabClasses() returns (count: nat, ghost sizes: seq<nat>)
    ensures count == 42 && forall s | Ladder(s) :: |s| == count
    ensures Ladder(sizes) && count == |sizes|
  {
    var size := MIN_CHUNK;
    count, sizes := 1, [MIN_CHUNK];
    while size < MAX_CHUNK
      invariant Climb(sizes) && size == sizes[|sizes| - 1] && count == |sizes|
      invariant Aligned(size) && MIN_CHUNK <= size <= MAX_CHUNK
      decreases MAX_CHUNK - size
    {
      ClimbStep(sizes);
      NextIsLarger(size);
      size := NextChunkSize(size);
      sizes := sizes + [size];
      count := count + 1;
    }
    FortyTwoClasses(sizes);
    forall s | Ladder(s)
      ensures |s| == count
    {
      LadderUnique(s, sizes);
    }
  }

  // The first class that fits.
  ghost predicate LeastFit(s: seq<nat>, size: nat, k: nat) {
    k <= |s| && (forall i | 0 <= i < k :: s[i] < size) && (k < |s| ==> size <= s[k])
  }

  // Some class fits every request of at most 2^19 bytes, and wastes little: above 48 bytes the chunk is
  // below a quarter and seven bytes more than asked.
  lemma FitIsTight(s: seq<nat>, size: nat, k: nat)
    requires Ladder(s) && LeastFit(s, size, k)
    ensures size <= MAX_CHUNK <==> k < |s|
    ensures k < |s| ==> size <= s[k] <= MAX_CHUNK && Aligned(s[k])
    ensures k < |s| && size > MIN_CHUNK ==> 4 * s[k] < 5 * size + 28
  {
    hide NextChunkSize;
    ClimbGrows(s);
    if k < |s| && size > MIN_CHUNK {
      assert k > 0 && s[k - 1] < size && Moderate(s, k - 1);
    }
  }
}
