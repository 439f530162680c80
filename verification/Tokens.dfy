/** Words separated by blanks and tabs, as slices of a line. */
module Tokens {
  import opened Bytes

  predicate IsSeparator(c: Byte) {
    c == SPACE || c == TAB
  }

  /** The first position from `pos` that is no separator, or the end. */
  function SkipSeparators(b: seq<Byte>, pos: nat, end: nat): (p: nat)
    requires pos <= end <= |b|
    ensures pos <= p <= end && forall i | pos <= i < p :: IsSeparator(b[i])
    ensures p < end ==> !IsSeparator(b[p])
    decreases end - pos
  {
    if pos < end && IsSeparator(b[pos]) then SkipSeparators(b, pos + 1, end) else pos
  }

  /** The first separator from `pos`, or the end. */
  function SkipWord(b: seq<Byte>, pos: nat, end: nat): (p: nat)
    requires pos <= end <= |b|
    ensures pos <= p <= end && forall i | pos <= i < p :: !IsSeparator(b[i])
    ensures p < end ==> IsSeparator(b[p])
    decreases end - pos
  {
    if pos < end && !IsSeparator(b[pos]) then SkipWord(b, pos + 1, end) else pos
  }

  lemma SeparatorsEnd(b: seq<Byte>, pos: nat, end: nat, p: nat)
    requires pos <= p <= end <= |b| && (forall i | pos <= i < p :: IsSeparator(b[i])) &&
      (p < end ==> !IsSeparator(b[p]))
    ensures SkipSeparators(b, pos, end) == p
  {
    assert forall i | pos <= i < SkipSeparators(b, pos, end) :: IsSeparator(b[i]);
  }

  lemma WordEnds(b: seq<Byte>, pos: nat, end: nat, p: nat)
    requires pos <= p <= end <= |b| && (forall i | pos <= i < p :: !IsSeparator(b[i])) &&
      (p < end ==> IsSeparator(b[p]))
    ensures SkipWord(b, pos, end) == p
  {
    assert forall i | pos <= i < SkipWord(b, pos, end) :: !IsSeparator(b[i]);
  }

  method PassSeparators(b: seq<Byte>, pos: nat) returns (p: nat)
    requires pos <= |b|
    ensures p == SkipSeparators(b, pos, |b|)
  {
    p := pos;
    while p < |b| && IsSeparator(b[p])
      invariant pos <= p <= |b| && forall i | pos <= i < p :: IsSeparator(b[i])
    {
      p := p + 1;
    }
    SeparatorsEnd(b, pos, |b|, p);
  }

  method PassWord(b: seq<Byte>, pos: nat) returns (p: nat)
    requires pos <= |b|
    ensures p == SkipWord(b, pos, |b|)
  {
    p := pos;
    while p < |b| && !IsSeparator(b[p])
      invariant pos <= p <= |b| && forall i | pos <= i < p :: !IsSeparator(b[i])
    {
      p := p + 1;
    }
    WordEnds(b, pos, |b|, p);
  }

  /** The words of b[pos..end], left to right. */
  function TokensOf(b: seq<Byte>, pos: nat, end: nat): (ts: seq<Slice>)
    requires pos <= end <= |b|
    ensures forall t | t in ts :: pos <= t.at && t.len > 0 && t.at + t.len <= end
    decreases end - pos
  {
    var s := SkipSeparators(b, pos, end);
    if s == end then []
    else
      var e := SkipWord(b, s, end);
      [Slice(s, e - s)] + TokensOf(b, e, end)
  }

  // A longest run of bytes other than blank and tab in b[lo..hi].
  predicate IsToken(b: seq<Byte>, lo: nat, hi: nat, t: Slice)
    requires lo <= hi <= |b|
  {
    lo <= t.at && t.len > 0 && t.at + t.len <= hi &&
    (forall i | t.at <= i < t.at + t.len :: b[i] != 32 && b[i] != 9) &&
    (t.at == lo || b[t.at - 1] == 32 || b[t.at - 1] == 9) &&
    (t.at + t.len == hi || b[t.at + t.len] == 32 || b[t.at + t.len] == 9)
  }

  /** The tokens are exactly the longest runs of non-separators, each listed once, in order. */
  lemma {:induction false} TokensExactly(b: seq<Byte>, lo: nat, hi: nat)
    requires lo <= hi <= |b|
    ensures forall t :: t in TokensOf(b, lo, hi) <==> IsToken(b, lo, hi, t)
    ensures forall i, j | 0 <= i < j < |TokensOf(b, lo, hi)| ::
      TokensOf(b, lo, hi)[i].at + TokensOf(b, lo, hi)[i].len < TokensOf(b, lo, hi)[j].at
    decreases hi - lo
  {
    var s := SkipSeparators(b, lo, hi);
    if s < hi {
      var e := SkipWord(b, s, hi);
      TokensExactly(b, e, hi);
      forall t
        ensures t in TokensOf(b, lo, hi) <==> IsToken(b, lo, hi, t)
      {
        FirstToken(b, lo, hi, t);
        assert TokensOf(b, lo, hi)[0] == Slice(s, e - s);
        assert t in TokensOf(b, e, hi) ==> t in TokensOf(b, lo, hi);
      }
      forall t | t in TokensOf(b, e, hi)
        ensures t.at > e
      {
        assert IsToken(b, e, hi, t);
      }
    } else {
      forall t
        ensures !IsToken(b, lo, hi, t)
      {
        assert lo <= t.at < hi ==> IsSeparator(b[t.at]);
      }
    }
  }

  lemma FirstToken(b: seq<Byte>, lo: nat, hi: nat, t: Slice)
    requires lo <= hi <= |b| && SkipSeparators(b, lo, hi) < hi
    ensures var s := SkipSeparators(b, lo, hi); var e := SkipWord(b, s, hi);
      IsToken(b, lo, hi, t) <==> t == Slice(s, e - s) || IsToken(b, e, hi, t)
  {
    var s := SkipSeparators(b, lo, hi);
    var e := SkipWord(b, s, hi);
    if IsToken(b, lo, hi, t) {
      assert !IsSeparator(b[t.at]) && t.at >= s;
    }
    if IsToken(b, e, hi, t) {
      assert !IsSeparator(b[t.at]);
    }
  }

  // Words depend on the bytes up to the end only.
  lemma {:induction false} TokensLocal(b: seq<Byte>, c: seq<Byte>, pos: nat, end: nat)
    requires pos <= end <= |b| && end <= |c| && forall i | 0 <= i < end :: b[i] == c[i]
    ensures TokensOf(b, pos, end) == TokensOf(c, pos, end)
    decreases end - pos
  {
    hide TokensOf, SkipSeparators, SkipWord;
    TokensStep(b, pos, end);
    TokensStep(c, pos, end);
    var s := SkipSeparators(b, pos, end);
    SkipLocal(b, c, pos, end);
    if s < end {
      SkipLocal(b, c, s, end);
      TokensLocal(b, c, SkipWord(b, s, end), end);
    }
  }

  lemma TokensStep(b: seq<Byte>, pos: nat, end: nat)
    requires pos <= end <= |b|
    ensures var s := SkipSeparators(b, pos, end); var e := SkipWord(b, s, end);
      TokensOf(b, pos, end) == (if s == end then [] else [Slice(s, e - s)] + TokensOf(b, e, end)) && (s < end ==> s < e)
  {
  }

  lemma SkipLocal(b: seq<Byte>, c: seq<Byte>, pos: nat, end: nat)
    requires pos <= end <= |b| && end <= |c| && forall i | 0 <= i < end :: b[i] == c[i]
    ensures SkipSeparators(b, pos, end) == SkipSeparators(c, pos, end) && SkipWord(b, pos, end) == SkipWord(c, pos, end)
  {
    var s, t := SkipSeparators(b, pos, end), SkipSeparators(c, pos, end);
    assert forall i | pos <= i < t :: IsSeparator(b[i]);
    assert forall i | pos <= i < s :: IsSeparator(c[i]);
    var v, w := SkipWord(b, pos, end), SkipWord(c, pos, end);
    assert forall i | pos <= i < w :: !IsSeparator(b[i]);
    assert forall i | pos <= i < v :: !IsSeparator(c[i]);
  }
}
