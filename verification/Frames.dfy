/** How parser verdicts behave as a buffer grows, and what a stream of bytes means. */
module Frames {
  import opened Bytes
  import opened Numbers
  import opened Tokens
  import opened Protocol

  // ---- stability

  lemma BreakStable(b: seq<Byte>, c: seq<Byte>)
    requires b <= c
    ensures FirstBreak(b, 0) < |b| ==> FirstBreak(c, 0) == FirstBreak(b, 0)
    ensures FirstBreak(c, 0) < |b| ==> FirstBreak(b, 0) == FirstBreak(c, 0)
  {
    assert forall i | 0 <= i < FirstBreak(c, 0) :: !IsBreak(c[i]);
    assert forall i | 0 <= i < FirstBreak(b, 0) :: !IsBreak(c[i]);
  }

  lemma LineStable(b: seq<Byte>, c: seq<Byte>)
    requires b <= c
    ensures LineOf(b) != Err(Incomplete) ==> LineOf(c) == LineOf(b)
    ensures LineOf(c).Ok? && |b| < LineOf(c).value + 2 ==> LineOf(b) == Err(Incomplete)
    ensures LineOf(c).Ok? && |b| >= LineOf(c).value + 2 ==> LineOf(b) == LineOf(c)
  {
    BreakStable(b, c);
  }

  lemma BodyStable(b: seq<Byte>, c: seq<Byte>, offset: nat, valueLen: nat)
    requires b <= c && offset <= |b|
    ensures BodyOf(b, offset, valueLen) != Err(Incomplete) ==>
      BodyOf(c, offset, valueLen) == BodyOf(b, offset, valueLen)
    ensures BodyOf(c, offset, valueLen).Ok? && |b| < BodyOf(c, offset, valueLen).value ==>
      BodyOf(b, offset, valueLen) == Err(Incomplete)
    ensures BodyOf(c, offset, valueLen).Ok? && |b| >= BodyOf(c, offset, valueLen).value ==>
      BodyOf(b, offset, valueLen) == BodyOf(c, offset, valueLen)
  {
  }

  /** A verdict other than INCOMPLETE never changes when more bytes arrive. */
  lemma VerdictStable(b: seq<Byte>, c: seq<Byte>)
    requires b <= c && FrameOf(b) != Err(Incomplete)
    ensures FrameOf(c) == FrameOf(b)
  {
    hide HeaderOf, LineOf, BodyOf;
    LineStable(b, c);
    if LineOf(b).Ok? {
      var n := LineOf(b).value;
      assert b[..n] == c[..n];
      if HeaderOf(b[..n]).Ok? {
        BodyStable(b, c, n + 2, HeaderOf(b[..n]).value.valueLen);
      }
    }
  }

  /** With part of a frame the verdict is INCOMPLETE; with all of it, it is final. */
  lemma VerdictOfPrefix(b: seq<Byte>, c: seq<Byte>)
    requires b <= c && FrameOf(c).Ok?
    ensures FrameOf(b) == if |b| < FrameOf(c).value.len then Err(Incomplete) else FrameOf(c)
  {
    hide HeaderOf, LineOf, BodyOf;
    LineStable(b, c);
    if LineOf(b).Ok? {
      var n := LineOf(b).value;
      assert b[..n] == c[..n];
      if HeaderOf(b[..n]).Ok? {
        BodyStable(b, c, n + 2, HeaderOf(b[..n]).value.valueLen);
      }
    }
  }

  predicate IsFrame(b: seq<Byte>) {
    FrameOf(b).Ok? && FrameOf(b).value.len == |b|
  }

  /** No frame is a proper prefix of another. */
  lemma PrefixFree(b: seq<Byte>, c: seq<Byte>)
    requires IsFrame(b) && IsFrame(c) && b <= c
    ensures b == c
  {
    VerdictOfPrefix(b, c);
  }

  // ---- keys of a get

  /** Move to the next key of the command, if there is one. */
  method NextKey(b: seq<Byte>, cmd: Command) returns (more: bool, next: Command)
    requires cmd.key.Some? ==> cmd.key.value.at + cmd.key.value.len <= cmd.keysEnd <= |b|
    ensures cmd.key.None? ==> !more && next == cmd
    ensures cmd.key.Some? ==>
      var rest := TokensOf(b, cmd.key.value.at + cmd.key.value.len, cmd.keysEnd);
      if rest == [] then !more && next == cmd
      else more && next == cmd.(key := Some(rest[0])) && rest[1..] == TokensOf(b, rest[0].at + rest[0].len, cmd.keysEnd)
  {
    hide SkipSeparators, SkipWord;
    if cmd.key.None? {
      return false, cmd;
    }
    var p := cmd.key.value.at + cmd.key.value.len;
    ghost var from := p;
    while p < cmd.keysEnd && IsSeparator(b[p])
      invariant from <= p <= cmd.keysEnd && forall i | from <= i < p :: IsSeparator(b[i])
    {
      p := p + 1;
    }
    SeparatorsEnd(b, from, cmd.keysEnd, p);
    if p == cmd.keysEnd {
      return false, cmd;
    }
    var start := p;
    while p < cmd.keysEnd && !IsSeparator(b[p])
      invariant start <= p <= cmd.keysEnd && forall i | start <= i < p :: !IsSeparator(b[i])
    {
      p := p + 1;
    }
    WordEnds(b, start, cmd.keysEnd, p);
    return true, cmd.(key := Some(Slice(start, p - start)));
  }

  lemma {:induction false} AllValid(line: seq<Byte>, ts: seq<Slice>)
    requires (forall t | t in ts :: Within(t, line)) && KeysOf(line, ts).None?
    ensures forall t | t in ts :: ValidKey(Text(line, t))
  {
    if ts != [] {
      AllValid(line, ts[1..]);
      assert forall t | t in ts :: t == ts[0] || t in ts[1..];
    }
  }

  // A get's key is the second word of its line, and the keys reach to the end of the line.
  lemma GetKeys(b: seq<Byte>)
    requires FrameOf(b).Ok? && FrameOf(b).value.cmd.kind.Get?
    ensures LineOf(b).Ok?
    ensures var n := LineOf(b).value; var ts := TokensOf(b, 0, n); var cmd := FrameOf(b).value.cmd;
      |ts| > 1 && cmd.key == Some(ts[1]) && cmd.keysEnd == n <= |b| &&
        ts[2..] == TokensOf(b, ts[1].at + ts[1].len, n) &&
      Text(b, ts[0]) == GET && forall t | t in ts[1..] :: ValidKey(Text(b, t))
  {
    hide LineOf, HeaderOf, TokensOf, ValidKey;
    var n := LineOf(b).value;
    var line := b[..n];
    TokensLocal(line, b, 0, n);
    OnlyGetIsGet(line);
    SecondWord(b, n);
    var ts := TokensOf(b, 0, n);
    forall t | t in ts
      ensures Text(b, t) == Text(line, t)
    {
    }
    assert forall t | t in ts[1..] :: t in ts;
  }

  lemma OnlyGetIsGet(line: seq<Byte>)
    requires HeaderOf(line).Ok? && HeaderOf(line).value.kind.Get?
    ensures var ts := TokensOf(line, 0, |line|); 
      |ts| > 1 && Text(line, ts[0]) == GET && (forall t | t in ts[1..] :: ValidKey(Text(line, t))) &&
      HeaderOf(line).value.key == Some(ts[1]) && HeaderOf(line).value.keysEnd == |line|
  {
    hide TokensOf, ValidKey;
    var ts := TokensOf(line, 0, |line|);
    assert forall t | t in ts[1..] :: t in ts;
    AllValid(line, ts[1..]);
  }

  lemma SecondWord(b: seq<Byte>, n: nat)
    requires n <= |b| && |TokensOf(b, 0, n)| > 1
    ensures var ts := TokensOf(b, 0, n); ts[2..] == TokensOf(b, ts[1].at + ts[1].len, n)
  {
    hide SkipSeparators, SkipWord;
    var s := SkipSeparators(b, 0, n);
    var e := SkipWord(b, s, n);
    var rest := TokensOf(b, e, n);
    assert TokensOf(b, 0, n) == [Slice(s, e - s)] + rest;
    var s2 := SkipSeparators(b, e, n);
    assert rest == [Slice(s2, SkipWord(b, s2, n) - s2)] + TokensOf(b, SkipWord(b, s2, n), n);
  }

  /** After a successful get, its key and the keys after it are exactly the words of the line, in order, all valid. */
  method ListKeys(b: seq<Byte>, cmd: Command) returns (keys: seq<Slice>)
    requires FrameOf(b).Ok? && FrameOf(b).value.cmd == cmd && cmd.kind.Get?
    ensures LineOf(b).Ok? && |TokensOf(b, 0, LineOf(b).value)| > 1
    ensures keys == TokensOf(b, 0, LineOf(b).value)[1..] && forall k | k in keys :: ValidKey(Text(b, k))
  {
    hide TokensOf, FrameOf, LineOf, ValidKey;
    GetKeys(b);
    ghost var all := TokensOf(b, 0, LineOf(b).value);
    var at, more := cmd, true;
    keys := [];
    while more
      invariant more ==> at.key.Some? && at.key.value.at + at.key.value.len <= at.keysEnd
      invariant at.keysEnd == LineOf(b).value
      invariant |keys| < |all| && keys == all[1..|keys| + 1]
      invariant more ==> |keys| + 1 < |all| && at.key == Some(all[|keys| + 1])
      invariant more ==> TokensOf(b, at.key.value.at + at.key.value.len, at.keysEnd) == all[|keys| + 2..]
      invariant !more ==> |keys| + 1 == |all|
      decreases |all| - |keys| + if more then 1 else 0
    {
      keys := keys + [at.key.value];
      more, at := NextKey(b, at);
    }
  }
}
