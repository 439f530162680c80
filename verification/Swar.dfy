/** The word tricks behind a bucket's eight slots: one-byte tags packed in a 64-bit word and
    matched all at once, and the eight slot states packed in a byte. */
module Swar {

  const SLOTS: nat := 8
  const TAG_LSBS: bv64 := 0x0101010101010101
  const TAG_MSBS: bv64 := 0x8080808080808080
  const TAG_GATHER: bv64 := 0x0002040810204081

  function Shift(i: nat): bv64
    requires i < SLOTS
  {
    if i == 0 then 0 else if i == 1 then 8 else if i == 2 then 16 else if i == 3 then 24
    else if i == 4 then 32 else if i == 5 then 40 else if i == 6 then 48 else 56
  }

  predicate IsShift(s: bv64) {
    s < 64 && s & 7 == 0
  }

  function ByteAt(x: bv64, s: bv64): bv64
    requires IsShift(s)
  {
    (x >> s) & 0xff
  }

  function TagAt(tags: bv64, i: nat): bv64
    requires i < SLOTS
  {
    ByteAt(tags, Shift(i))
  }

  function SetByte(tags: bv64, s: bv64, tag: bv64): bv64
    requires IsShift(s)
  {
    (tags & !(0xff << s)) | (tag << s)
  }

  function SetTag(tags: bv64, i: nat, tag: bv64): bv64
    requires i < SLOTS
  {
    SetByte(tags, Shift(i), tag)
  }

  function Xor(x: bv64, y: bv64): bv64 {
    x ^ y
  }

  function Splat(tag: bv64): bv64 {
    TAG_LSBS * tag
  }

  function ZeroBytes(x: bv64): bv64 {
    (x - TAG_LSBS) & !x & TAG_MSBS
  }

  function Gather(zero: bv64): bv8 {
    ((zero * TAG_GATHER) >> 56) as bv8
  }

  function Candidates(tags: bv64, tag: bv64): bv8 {
    Gather(ZeroBytes(Xor(tags, Splat(tag))))
  }

  function MatchTag(tags: bv64, states: bv8, tag: bv64): bv8 {
    Candidates(tags, tag) & states
  }

  function SlotBit(i: nat): bv8
    requires i < SLOTS
  {
    if i == 0 then 1 else if i == 1 then 2 else if i == 2 then 4 else if i == 3 then 8
    else if i == 4 then 16 else if i == 5 then 32 else if i == 6 then 64 else 128
  }

  predicate Bit(m: bv8, i: nat)
    requires i < SLOTS
  {
    m & SlotBit(i) != 0
  }

  lemma SetByteAt(tags: bv64, s: bv64, tag: bv64, r: bv64)
    requires IsShift(s) && IsShift(r) && tag < 256
    ensures ByteAt(SetByte(tags, s, tag), r) == if r == s then tag else ByteAt(tags, r)
  {
    if r == s {
    } else if r < s {
    } else {
    }
  }

  lemma SetTagAt(tags: bv64, i: nat, tag: bv64, j: nat)
    requires i < SLOTS && j < SLOTS && tag < 256
    ensures TagAt(SetTag(tags, i, tag), j) == if j == i then tag else TagAt(tags, j)
  {
    SetByteAt(tags, Shift(i), tag, Shift(j));
  }

  // Gathering moves bit 8i+7 to bit i, and the eight partial products never carry into one another.
  lemma GatherBit(zero: bv64, i: nat)
    requires i < SLOTS && zero & TAG_MSBS == zero
    ensures Bit(Gather(zero), i) <==> TagAt(zero, i) == 0x80
  {
  }

  lemma XorByte(x: bv64, y: bv64, xor: bv64, s: bv64)
    requires IsShift(s) && xor == x ^ y
    ensures ByteAt(xor, s) == ByteAt(x, s) ^ ByteAt(y, s)
  {
    if s == 0 {
    } else if s == 8 {
    } else if s == 16 {
    } else if s == 24 {
    } else if s == 32 {
    } else if s == 40 {
    } else if s == 48 {
    } else {
    }
  }

  lemma SplatByte(tag: bv64, s: bv64)
    requires IsShift(s) && tag < 256
    ensures ByteAt(Splat(tag), s) == tag
  {
  }

  predicate Flagged(x: bv64, s: bv64)
    requires IsShift(s)
  {
    ByteAt(ZeroBytes(x), s) == 0x80
  }

  // The borrow of the subtraction leaves a flagged byte only upwards, and only into a byte equal to one.
  lemma BorrowStep(x: bv64, s: bv64)
    requires IsShift(s)
    ensures Flagged(x, s) <==> ByteAt(x, s) == 0 || (s >= 8 && ByteAt(x, s) == 1 && Flagged(x, s - 8))
  {
  }

  predicate IsXor(x: bv64, y: bv64, xor: bv64, s: bv64)
    requires IsShift(s)
  {
    ByteAt(xor, s) == ByteAt(x, s) ^ ByteAt(y, s)
  }

  lemma XorOfXor(x: bv64, y: bv64, s: bv64)
    requires IsShift(s)
    ensures IsXor(x, y, Xor(x, y), s)
  {
    hide ByteAt;
    XorByte(x, y, Xor(x, y), s);
  }

  predicate OneBitOff(b: bv64, tag: bv64) {
    b == tag ^ 1
  }

  lemma XorTag(x: bv64, b: bv64, tag: bv64)
    requires x == b ^ tag && b < 256 && tag < 256
    ensures x == 0 <==> b == tag
    ensures x == 1 <==> OneBitOff(b, tag)
  {
  }

  lemma ByteSmall(x: bv64, s: bv64)
    requires IsShift(s)
    ensures ByteAt(x, s) < 256
  {
  }

  lemma XorDifference(x: bv64, y: bv64, s: bv64)
    requires IsShift(s) && IsXor(x, y, Xor(x, y), s)
    ensures ByteAt(Xor(x, y), s) == 0 <==> ByteAt(x, s) == ByteAt(y, s)
    ensures ByteAt(Xor(x, y), s) == 1 <==> OneBitOff(ByteAt(x, s), ByteAt(y, s))
  {
    hide ByteAt, OneBitOff, Xor;
    ByteSmall(x, s);
    ByteSmall(y, s);
    XorTag(ByteAt(Xor(x, y), s), ByteAt(x, s), ByteAt(y, s));
  }

  lemma DifferenceByte(tags: bv64, tag: bv64, s: bv64)
    requires IsShift(s) && tag < 256
    ensures ByteAt(Xor(tags, Splat(tag)), s) == 0 <==> ByteAt(tags, s) == tag
    ensures ByteAt(Xor(tags, Splat(tag)), s) == 1 <==> OneBitOff(ByteAt(tags, s), tag)
  {
    hide Splat, ByteAt, OneBitOff, Xor, IsXor;
    XorOfXor(tags, Splat(tag), s);
    XorDifference(tags, Splat(tag), s);
    SplatByte(tag, s);
  }

  predicate Candidate(tags: bv64, tag: bv64, i: nat)
    requires i < SLOTS
  {
    Bit(Candidates(tags, tag), i)
  }

  lemma CandidateFlagged(tags: bv64, tag: bv64, i: nat)
    requires i < SLOTS
    ensures Candidate(tags, tag, i) <==> Flagged(Xor(tags, Splat(tag)), Shift(i))
  {
    hide Splat, ZeroBytes, Gather, ByteAt, Bit, Xor;
    var x := Xor(tags, Splat(tag));
    ZeroBytesHigh(x);
    GatherBit(ZeroBytes(x), i);
  }

  lemma ZeroBytesHigh(x: bv64)
    ensures ZeroBytes(x) & TAG_MSBS == ZeroBytes(x)
  {
  }

  // The exact meaning of a candidate bit: the tag is equal, or it differs in bit 0 alone and the
  // slot below is a candidate too.
  lemma CandidateExactly(tags: bv64, tag: bv64, i: nat)
    requires i < SLOTS && tag < 256
    ensures Candidate(tags, tag, i) <==>
              TagAt(tags, i) == tag || (i > 0 && OneBitOff(TagAt(tags, i), tag) && Candidate(tags, tag, i - 1))
  {
    hide Candidate, Flagged, ByteAt, Splat, Xor, OneBitOff;
    CandidateFlagged(tags, tag, i);
    if i > 0 {
      CandidateFlagged(tags, tag, i - 1);
    }
    BorrowStep(Xor(tags, Splat(tag)), Shift(i));
    DifferenceByte(tags, tag, Shift(i));
  }

  // The candidates are not always the slots that wear the tag: with tags 1 and 0 at the bottom, slot 1 is a
  // candidate for tag 1.
  lemma FalseCandidate()
    ensures Candidate(1, 1, 1) && TagAt(1, 1) != 1
  {
    CandidateExactly(1, 1, 1);
    CandidateExactly(1, 1, 0);
  }

  predicate Mimics(tags: bv64, tag: bv64, i: nat)
    requires 0 < i < SLOTS
  {
    TagAt(tags, i - 1) == tag && OneBitOff(TagAt(tags, i), tag)
  }

  /** The candidates are exactly the slots that wear the tag if and only if no slot above one of them differs in
    * bit 0 alone. */
  lemma CandidatesExactWhen(tags: bv64, tag: bv64)
    requires tag < 256
    ensures (forall i | 0 <= i < SLOTS :: Candidate(tags, tag, i) <==> TagAt(tags, i) == tag) <==>
            (forall i | 0 < i < SLOTS :: !Mimics(tags, tag, i))
  {
    hide Candidate, TagAt, OneBitOff;
    if forall i | 0 < i < SLOTS :: !Mimics(tags, tag, i) {
      NoFalseCandidate(tags, tag, SLOTS);
    }
    if exists i :: 0 < i < SLOTS && Mimics(tags, tag, i) {
      var i :| 0 < i < SLOTS && Mimics(tags, tag, i);
      CandidateExactly(tags, tag, i - 1);
      CandidateExactly(tags, tag, i);
      OneBitOffDiffers(TagAt(tags, i), tag);
    }
  }

  lemma {:induction false} NoFalseCandidate(tags: bv64, tag: bv64, n: nat)
    requires n <= SLOTS && tag < 256 && forall i | 0 < i < SLOTS :: !Mimics(tags, tag, i)
    ensures forall i | 0 <= i < n :: Candidate(tags, tag, i) <==> TagAt(tags, i) == tag
  {
    hide Candidate, TagAt, OneBitOff;
    if n > 0 {
      NoFalseCandidate(tags, tag, n - 1);
      CandidateExactly(tags, tag, n - 1);
      assert n > 1 ==> !Mimics(tags, tag, n - 1);
    }
  }

  lemma OneBitOffDiffers(a: bv64, tag: bv64)
    ensures OneBitOff(a, tag) ==> a != tag
  {
  }

  // ---- slot states and candidate sets

  /** Index of the lowest set bit. */
  function Ctz(m: bv8): (i: nat)
    requires m != 0
    ensures i < SLOTS && Bit(m, i)
    ensures forall j | 0 <= j < i :: !Bit(m, j)
  {
    if m & 1 != 0 then 0 else if m & 2 != 0 then 1 else if m & 4 != 0 then 2 else if m & 8 != 0 then 3
    else if m & 16 != 0 then 4 else if m & 32 != 0 then 5 else if m & 64 != 0 then 6 else 7
  }

  lemma DropLowest(m: bv8, j: nat)
    requires m != 0 && j < SLOTS
    ensures Bit(m & (m - 1), j) <==> Bit(m, j) && j != Ctz(m)
  {
  }

  lemma NoBits(m: bv8)
    ensures m == 0 <==> forall j | 0 <= j < SLOTS :: !Bit(m, j)
  {
    if m != 0 {
      assert Bit(m, Ctz(m));
    }
  }

  function SetBit(m: bv8, i: nat): (r: bv8)
    requires i < SLOTS
    ensures forall j | 0 <= j < SLOTS :: Bit(r, j) <==> j == i || Bit(m, j)
  {
    m | SlotBit(i)
  }

  function ClearBit(m: bv8, i: nat): (r: bv8)
    requires i < SLOTS
    ensures forall j | 0 <= j < SLOTS :: Bit(r, j) <==> j != i && Bit(m, j)
  {
    m & !SlotBit(i)
  }

  /** Lowest empty slot, or -1 when all eight are busy. */
  function FirstFree(states: bv8): (i: int)
    ensures -1 <= i < SLOTS
    ensures i >= 0 ==> !Bit(states, i) && forall j | 0 <= j < i :: Bit(states, j)
    ensures i < 0 ==> forall j | 0 <= j < SLOTS :: Bit(states, j)
  {
    var free := !states;
    if free != 0 then Ctz(free) else -1
  }

  lemma MatchBit(tags: bv64, states: bv8, tag: bv64, i: nat)
    requires i < SLOTS && tag < 256
    ensures Bit(MatchTag(tags, states, tag), i) <==> Bit(states, i) && Candidate(tags, tag, i)
    ensures Bit(states, i) && TagAt(tags, i) == tag ==> Bit(MatchTag(tags, states, tag), i)
  {
    hide Candidates, TagAt;
    CandidateExactly(tags, tag, i);
  }
}
