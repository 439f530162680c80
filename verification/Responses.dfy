/** The answer to a get: how it is written, and that it can be read back in one way only. */
module Responses {
  import opened Bytes
  import opened Numbers
  import opened Tokens
  import opened Protocol
  import opened Printing
  import opened Grammar

  const VALUE: seq<Byte> := [86, 65, 76, 85, 69]

  function ResultWords(key: seq<Byte>, flags: nat, length: nat): seq<seq<Byte>> {
    [VALUE, key, Digits(flags), Digits(length)]
  }

  /** VALUE, key, flags and length on a line, then the value, each ended by CR LF. */
  function ResultText(key: seq<Byte>, flags: nat, value: seq<Byte>): seq<Byte> {
    Join(ResultWords(key, flags, |value|)) + CRLF + value + CRLF
  }

  // Copy bytes into a buffer at p.
  method CopyAt(b: array<Byte>, p: nat, src: seq<Byte>) returns (end: nat)
    requires p + |src| <= b.Length
    modifies b
    ensures end == p + |src| && b[..end] == old(b[..p]) + src && forall i | end <= i < b.Length :: b[i] == old(b[i])
  {
    for i := 0 to |src|
      invariant b[..p + i] == old(b[..p]) + src[..i] && forall j | p + i <= j < b.Length :: b[j] == old(b[j])
    {
      b[p + i] := src[i];
    }
    end := p + |src|;
  }

  /** Write one found item; on any error the destination is unchanged. */
  method WriteGetResult(b: array<Byte>, key: seq<Byte>, flags: nat, value: seq<Byte>)
    returns (err: Option<Error>, written: nat)
    requires flags <= UINT32_MAX && |value| <= SIZE_MAX
    modifies b
    ensures err ==
      if key == [] then Some(InvalidArguments)
      else if |key| > 250 then Some(KeyTooLong)
      else if |ResultText(key, flags, value)| > 0xFFFF_FFFF_FFFF_FFFF then Some(InvalidValueLength)
      else if b.Length < |ResultText(key, flags, value)| then Some(BufferTooSmall)
      else None
    ensures err.Some? ==> written == 0 && b[..] == old(b[..])
    ensures err.None? ==> written <= b.Length && b[..written] == ResultText(key, flags, value)
    ensures err.None? ==> forall i | written <= i < b.Length :: b[i] == old(b[i])
  {
    hide Digits, Join;
    ResultLine(key, flags, |value|);
    if |key| == 0 {
      return Some(InvalidArguments), 0;
    }
    if |key| > MAX_KEY_LENGTH {
      return Some(KeyTooLong), 0;
    }
    var flagsBuf, lengthBuf := new Byte[10], new Byte[24];
    DigitsFitBuffers(flags);
    DigitsFitBuffers(|value|);
    var flagsStart := FormatUint(flagsBuf, flagsBuf.Length, flags);
    var lengthStart := FormatUint(lengthBuf, lengthBuf.Length, |value|);
    var flagsText, lengthText := flagsBuf[flagsStart..], lengthBuf[lengthStart..];
    assert flagsText == Digits(flags) && lengthText == Digits(|value|);
    var headerLen := 6 + |key| + 1 + |flagsText| + 1 + |lengthText| + 2;
    if |value| > SIZE_MAX - headerLen - 2 {
      return Some(InvalidValueLength), 0;
    }
    var total := headerLen + |value| + 2;
    if b.Length < total {
      return Some(BufferTooSmall), 0;
    }
    var p := WriteHeader(b, key, flagsText, lengthText);
    assert b[..p] == Join(ResultWords(key, flags, |value|)) + CRLF;
    p := CopyAt(b, p, value);
    p := CopyAt(b, p, CRLF);
    return None, total;
  }

  method WriteHeader(b: array<Byte>, key: seq<Byte>, flagsText: seq<Byte>, lengthText: seq<Byte>) returns (p: nat)
    requires 6 + |key| + 1 + |flagsText| + 1 + |lengthText| + 2 <= b.Length
    modifies b
    ensures p == 6 + |key| + 1 + |flagsText| + 1 + |lengthText| + 2 && forall i | p <= i < b.Length :: b[i] == old(b[i])
    ensures b[..p] == VALUE + [SPACE] + key + [SPACE] + flagsText + [SPACE] + lengthText + CRLF
  {
    ghost var a := VALUE + [SPACE] + key;
    ghost var c := a + [SPACE] + flagsText;
    p := CopyAt(b, 0, VALUE + [SPACE]);
    p := CopyAt(b, p, key);
    assert b[..p] == a;
    p := CopyAt(b, p, [SPACE]);
    p := CopyAt(b, p, flagsText);
    assert b[..p] == c;
    p := CopyAt(b, p, [SPACE]);
    p := CopyAt(b, p, lengthText);
    p := CopyAt(b, p, CRLF);
  }

  lemma ResultLine(key: seq<Byte>, flags: nat, length: nat)
    ensures Join(ResultWords(key, flags, length)) ==
      VALUE + [SPACE] + key + [SPACE] + Digits(flags) + [SPACE] + Digits(length)
  {
    hide Digits, Join;
    var f, l := Digits(flags), Digits(length);
    JoinLast([VALUE], key);
    JoinLast([VALUE, key], f);
    JoinLast([VALUE, key, f], l);
    assert [VALUE] + [key] == [VALUE, key] && [VALUE, key] + [f] == [VALUE, key, f];
    assert [VALUE, key, f] + [l] == [VALUE, key, f, l];
  }

  lemma ResultClean(key: seq<Byte>, flags: nat, length: nat)
    requires ValidKey(key)
    ensures AllClean(ResultWords(key, flags, length))
  {
    hide Digits;
    KeyClean(key);
    NumberClean(Digits(flags));
    NumberClean(Digits(length));
    assert Clean(VALUE);
  }

  /** Two answers that start a stream alike are the same answer, with the same bytes behind it. */
  lemma ResultUnambiguous(k1: seq<Byte>, f1: nat, v1: seq<Byte>, r1: seq<Byte>, k2: seq<Byte>, f2: nat, v2: seq<Byte>,
    r2: seq<Byte>)
    requires ValidKey(k1) && ValidKey(k2) && ResultText(k1, f1, v1) + r1 == ResultText(k2, f2, v2) + r2
    ensures k1 == k2 && f1 == f2 && v1 == v2 && r1 == r2
  {
    hide Digits, Join, LineOf, TokensOf, ValidKey, ResultWords;
    var b := ResultText(k1, f1, v1) + r1;
    var w1, w2 := ResultWords(k1, f1, |v1|), ResultWords(k2, f2, |v2|);
    ResultClean(k1, f1, |v1|);
    ResultClean(k2, f2, |v2|);
    var t1, t2 := v1 + CRLF + r1, v2 + CRLF + r2;
    ResultRest(k1, f1, v1, r1);
    ResultRest(k2, f2, v2, r2);
    LineOfWords(w1, t1);
    LineOfWords(w2, t2);
    SameWords(w1, w2);
    SameNumbers(k1, f1, |v1|, k2, f2, |v2|);
    assert t1 == b[|Join(w1)| + 2..] == t2;
    assert v1 == t1[..|v1|] == v2;
    assert r1 == t1[|v1| + 2..] == r2;
  }

  lemma ResultRest(k: seq<Byte>, f: nat, v: seq<Byte>, r: seq<Byte>)
    ensures ResultText(k, f, v) + r == Join(ResultWords(k, f, |v|)) + CRLF + (v + CRLF + r) &&
      |ResultWords(k, f, |v|)| == 4
  {
  }

  lemma SameWords(w1: seq<seq<Byte>>, w2: seq<seq<Byte>>)
    requires w1 != [] && w2 != [] && AllClean(w1) && AllClean(w2) && Join(w1) == Join(w2)
    ensures w1 == w2
  {
    hide Join, TokensOf, Clean;
    var line := Join(w1);
    JoinTokens(line, 0, |line|, w1);
    JoinTokens(line, 0, |line|, w2);
    assert forall i | 0 <= i < |w1| :: w1[i] == Text(line, Places(w1, 0)[i]) == w2[i];
  }

  lemma SameNumbers(k1: seq<Byte>, f1: nat, n1: nat, k2: seq<Byte>, f2: nat, n2: nat)
    requires ResultWords(k1, f1, n1) == ResultWords(k2, f2, n2)
    ensures k1 == k2 && f1 == f2 && n1 == n2
  {
    var w1, w2 := ResultWords(k1, f1, n1), ResultWords(k2, f2, n2);
    assert w1[1] == w2[1] && w1[2] == w2[2] && w1[3] == w2[3];
    assert Value(w1[2]) == f1 && Value(w2[2]) == f2 && Value(w1[3]) == n1 && Value(w2[3]) == n2;
  }

  /** The bytes of an answer: on a line of n bytes the word VALUE, the key, the flags and the length, then the value. */
  predicate AnswerAt(b: seq<Byte>, key: seq<Byte>, flags: nat, value: seq<Byte>, n: nat) {
    n + 2 + |value| + 2 <= |b| && LineAt(b, n) &&
    var ts := TokensOf(b, 0, n);
    |ts| == 4 && Spells(b[ts[0].at..ts[0].at + ts[0].len], "VALUE") && b[ts[1].at..ts[1].at + ts[1].len] == key &&
    Decimal(b[ts[2].at..ts[2].at + ts[2].len], flags) && Decimal(b[ts[3].at..ts[3].at + ts[3].len], |value|) &&
    b[n + 2..n + 2 + |value|] == value && b[n + 2 + |value|] == 13 && b[n + 2 + |value| + 1] == 10
  }

  predicate Decimal(s: seq<Byte>, n: nat) {
    IsNumber(s) && Value(s) == n
  }

  /** What is written reads back, field by field, and is no longer than that. */
  lemma ResultReadsBack(key: seq<Byte>, flags: nat, value: seq<Byte>, rest: seq<Byte>)
    requires ValidKey(key)
    ensures exists n: nat ::
      AnswerAt(ResultText(key, flags, value) + rest, key, flags, value, n) &&
      |ResultText(key, flags, value)| == n + 2 + |value| + 2
  {
    hide TokensOf, ValidKey, LineAt, Join, ResultWords, Decimal, Spells;
    AnswerWords(key, flags, |value|);
    var n := |Join(ResultWords(key, flags, |value|))|;
    AnswerLine(key, flags, value, rest);
    AnswerTail(key, flags, value, rest);
    assert AnswerAt(ResultText(key, flags, value) + rest, key, flags, value, n);
  }

  lemma AnswerLine(key: seq<Byte>, flags: nat, value: seq<Byte>, rest: seq<Byte>)
    requires ValidKey(key)
    ensures var ws, b := ResultWords(key, flags, |value|), ResultText(key, flags, value) + rest;
      |ws| == 4 && var n := |Join(ws)|;
      LineAt(b, n) && var ts := TokensOf(b, 0, n);
      |ts| == 4 && forall i | 0 <= i < 4 :: Within(ts[i], b) && b[ts[i].at..ts[i].at + ts[i].len] == ws[i]
  {
    hide Join, TokensOf, ValidKey, ResultWords, Digits, LineOf, LineAt;
    var ws, b := ResultWords(key, flags, |value|), ResultText(key, flags, value) + rest;
    AnswerWords(key, flags, |value|);
    ResultClean(key, flags, |value|);
    ResultRest(key, flags, value, rest);
    LineOfWords(ws, value + CRLF + rest);
    LineExactly(b, |Join(ws)|);
    JoinTokens(b, 0, |Join(ws)|, ws);
    var ts := TokensOf(b, 0, |Join(ws)|);
    assert forall i | 0 <= i < 4 :: Text(b, ts[i]) == ws[i];
  }

  lemma AnswerTail(key: seq<Byte>, flags: nat, value: seq<Byte>, rest: seq<Byte>)
    requires |ResultWords(key, flags, |value|)| == 4
    ensures var b, n := ResultText(key, flags, value) + rest, |Join(ResultWords(key, flags, |value|))|;
      |ResultText(key, flags, value)| == n + 2 + |value| + 2 && b[n + 2..n + 2 + |value|] == value &&
      b[n + 2 + |value|] == 13 && b[n + 2 + |value| + 1] == 10
  {
    hide Join, ResultWords;
    var line := Join(ResultWords(key, flags, |value|));
    var b := ResultText(key, flags, value) + rest;
    assert b == line + CRLF + value + CRLF + rest;
  }

  lemma AnswerWords(key: seq<Byte>, flags: nat, length: nat)
    ensures var ws := ResultWords(key, flags, length);
      |ws| == 4 && Spells(ws[0], "VALUE") && ws[1] == key && Decimal(ws[2], flags) && Decimal(ws[3], length)
  {
  }
}
