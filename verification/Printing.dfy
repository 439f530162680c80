/** Printing commands, and what the parser makes of the printed bytes. */
module Printing {
  import opened Bytes
  import opened Numbers
  import opened Tokens
  import opened Protocol

  datatype Request =
    | GetReq(key: seq<Byte>)
    | SetReq(key: seq<Byte>, flags: nat, exptime: nat, value: seq<Byte>, noreply: bool)
    | DeleteReq(key: seq<Byte>, noreply: bool)
    | TouchReq(key: seq<Byte>, exptime: nat, noreply: bool)

  // ---- lines of words

  function Join(ws: seq<seq<Byte>>): seq<Byte>
    requires ws != []
  {
    if |ws| == 1 then ws[0] else ws[0] + [SPACE] + Join(ws[1..])
  }

  function Places(ws: seq<seq<Byte>>, at: nat): (ts: seq<Slice>)
    ensures |ts| == |ws|
  {
    if ws == [] then [] else [Slice(at, |ws[0]|)] + Places(ws[1..], at + |ws[0]| + 1)
  }

  predicate Clean(w: seq<Byte>) {
    w != [] && forall i | 0 <= i < |w| :: !IsSeparator(w[i]) && !IsBreak(w[i])
  }

  predicate AllClean(ws: seq<seq<Byte>>) {
    forall i | 0 <= i < |ws| :: Clean(ws[i])
  }

  lemma SeparatorSkipped(b: seq<Byte>, p: nat, end: nat)
    requires p < end <= |b| && IsSeparator(b[p])
    ensures TokensOf(b, p, end) == TokensOf(b, p + 1, end)
  {
    assert SkipSeparators(b, p, end) == SkipSeparators(b, p + 1, end);
  }

  // Where the first of some joined words ends, and where the others are.
  lemma SplitJoin(b: seq<Byte>, at: nat, end: nat, ws: seq<seq<Byte>>)
    requires ws != [] && AllClean(ws) && at <= end <= |b| && b[at..end] == Join(ws)
    ensures var e := at + |ws[0]|;
      at < e <= end && b[at..e] == ws[0] && (forall i | at <= i < e :: !IsSeparator(b[i])) &&
      if |ws| == 1 then e == end else e < end && IsSeparator(b[e]) && b[e + 1..end] == Join(ws[1..])
  {
    var w, j := ws[0], b[at..end];
    var e := at + |w|;
    assert Clean(w);
    assert b[at..e] == j[..|w|] == w;
    assert forall i | at <= i < e :: b[i] == w[i - at];
    if |ws| > 1 {
      assert b[e] == j[|w|] == SPACE;
      assert b[e + 1..end] == j[|w| + 1..] == Join(ws[1..]);
    }
  }

  // Joined words are told apart again, each in its place.
  lemma {:induction false} JoinTokens(b: seq<Byte>, at: nat, end: nat, ws: seq<seq<Byte>>)
    requires ws != [] && AllClean(ws) && at <= end <= |b| && b[at..end] == Join(ws)
    ensures TokensOf(b, at, end) == Places(ws, at)
    ensures forall i | 0 <= i < |ws| :: Within(Places(ws, at)[i], b) && Text(b, Places(ws, at)[i]) == ws[i]
    decreases |ws|
  {
    hide SkipSeparators, SkipWord, Join, Clean, IsSeparator;
    SplitJoin(b, at, end, ws);
    var e := at + |ws[0]|;
    SeparatorsEnd(b, at, end, at);
    WordEnds(b, at, end, e);
    if |ws| > 1 {
      SeparatorSkipped(b, e, end);
      JoinTokens(b, e + 1, end, ws[1..]);
    }
  }

  lemma {:induction false} JoinUnbroken(ws: seq<seq<Byte>>)
    requires ws != [] && AllClean(ws)
    ensures forall i | 0 <= i < |Join(ws)| :: !IsBreak(Join(ws)[i])
  {
    assert Clean(ws[0]);
    if |ws| > 1 {
      JoinUnbroken(ws[1..]);
    }
  }

  // The line that words make, with CR LF behind it and anything behind that.
  lemma LineOfWords(ws: seq<seq<Byte>>, rest: seq<Byte>)
    requires ws != [] && AllClean(ws)
    ensures var line := Join(ws); var b := line + CRLF + rest;
      LineOf(b) == Ok(|line|) && b[..|line|] == line
  {
    hide Join, AllClean, Clean;
    JoinUnbroken(ws);
    var line := Join(ws);
    var b := line + CRLF + rest;
    assert forall i | 0 <= i < FirstBreak(b, 0) :: !IsBreak(b[i]);
    assert b[|line|] == CR && b[|line| + 1] == LF;
    assert forall i | 0 <= i < |line| :: b[i] == line[i];
  }

  // ---- commands

  predicate ValidRequest(r: Request) {
    ValidKey(r.key) &&
    match r
    case GetReq(_) => true
    case SetReq(_, flags, exptime, value, _) => flags <= UINT32_MAX && exptime <= UINT32_MAX && |Print(r)| <= SIZE_MAX
    case DeleteReq(_, _) => true
    case TouchReq(_, exptime, _) => exptime <= UINT32_MAX
  }

  function Suffix(noreply: bool): seq<seq<Byte>> {
    if noreply then [NOREPLY] else []
  }

  function Words(r: Request): (ws: seq<seq<Byte>>)
    ensures |ws| > 1
  {
    match r
    case GetReq(key) => [GET, key]
    case SetReq(key, flags, exptime, value, noreply) =>
      [SET, key, Digits(flags), Digits(exptime), Digits(|value|)] + Suffix(noreply)
    case DeleteReq(key, noreply) => [DELETE, key] + Suffix(noreply)
    case TouchReq(key, exptime, noreply) => [TOUCH, key, Digits(exptime)] + Suffix(noreply)
  }

  function Print(r: Request): seq<Byte> {
    if r.SetReq? then Join(Words(r)) + CRLF + r.value + CRLF else Join(Words(r)) + CRLF
  }

  /** What the parser must report for the printed command. */
  function CommandOf(r: Request): Command {
    match r
    case GetReq(key) => Blank(Get).(key := Some(Slice(4, |key|)), keysEnd := 4 + |key|)
    case SetReq(key, flags, exptime, value, noreply) =>
      Command(Set, Some(Slice(4, |key|)), 4 + |key|, Some(Slice(|Join(Words(r))| + 2, |value|)), |value|, flags,
        exptime, noreply)
    case DeleteReq(key, noreply) =>
      Blank(Delete).(key := Some(Slice(7, |key|)), keysEnd := 7 + |key|, noreply := noreply)
    case TouchReq(key, exptime, noreply) =>
      Blank(Touch).(key := Some(Slice(6, |key|)), keysEnd := 6 + |key|, exptime := exptime, noreply := noreply)
  }

  lemma WordsClean(r: Request)
    requires ValidRequest(r)
    ensures AllClean(Words(r))
  {
    hide Digits, Join;
    KeyClean(r.key);
    NamesClean();
    if r.SetReq? {
      NumberClean(Digits(r.flags));
      NumberClean(Digits(r.exptime));
      NumberClean(Digits(|r.value|));
    } else if r.TouchReq? {
      NumberClean(Digits(r.exptime));
    }
  }

  lemma NamesClean()
    ensures Clean(GET) && Clean(SET) && Clean(DELETE) && Clean(TOUCH) && Clean(NOREPLY)
  {
  }

  lemma KeyClean(k: seq<Byte>)
    requires ValidKey(k)
    ensures Clean(k)
  {
    assert forall i | 0 <= i < |k| :: IsKeyByte(k[i]);
  }

  lemma NumberClean(s: seq<Byte>)
    requires IsNumber(s)
    ensures Clean(s)
  {
    assert forall i | 0 <= i < |s| :: IsDigit(s[i]);
  }

  // The words of a printed command are found again on its line.
  lemma WordsFound(r: Request)
    requires ValidRequest(r)
    ensures var line, ws := Join(Words(r)), Words(r); var ts := TokensOf(line, 0, |line|);
      |ts| == |ws| && ts[1] == Slice(|ws[0]| + 1, |r.key|) && forall i | 0 <= i < |ws| :: Text(line, ts[i]) == ws[i]
  {
    hide Join, TokensOf, ValidKey, Digits;
    WordsClean(r);
    var line := Join(Words(r));
    JoinTokens(line, 0, |line|, Words(r));
  }

  // The header of a printed command, the value not yet attached.
  lemma HeaderRoundTrip(r: Request)
    requires ValidRequest(r)
    ensures HeaderOf(Join(Words(r))) == Ok(CommandOf(r).(value := None))
  {
    hide Digits, Join, TokensOf, ValidKey, IsNumber, Value;
    WordsFound(r);
    NamesDiffer();
    var line := Join(Words(r));
    var ts := TokensOf(line, 0, |line|);
    match r
    case GetReq(key) =>
      LineText(r);
      assert ts[1..] == [ts[1]];
      assert KeysOf(line, ts[1..]) == None;
    case SetReq(key, flags, exptime, value, noreply) => SetHeader(r);
    case DeleteReq(key, noreply) => assert Arity(line, ts, Delete);
    case TouchReq(key, exptime, noreply) => assert Arity(line, ts, Touch);
  }

  lemma SetHeader(r: Request)
    requires ValidRequest(r) && r.SetReq?
    ensures HeaderOf(Join(Words(r))) == Ok(CommandOf(r).(value := None))
  {
    hide Digits, Join, TokensOf, ValidKey, IsNumber, Value;
    WordsFound(r);
    NamesDiffer();
    var line := Join(Words(r));
    assert Arity(line, TokensOf(line, 0, |line|), Set);
  }

  lemma NamesDiffer()
    ensures KindOf(GET) == Some(Get) && KindOf(SET) == Some(Set) && KindOf(DELETE) == Some(Delete) &&
      KindOf(TOUCH) == Some(Touch)
    ensures SET != GET && DELETE != GET && TOUCH != GET
  {
  }

  /** Round trip: parsing a printed command gives back its fields and consumes exactly what was printed, whatever
    * the value contains and whatever follows. */
  lemma RoundTrip(r: Request, rest: seq<Byte>)
    requires ValidRequest(r)
    ensures FrameOf(Print(r) + rest) == Ok(Frame(CommandOf(r), |Print(r)|))
  {
    if r.SetReq? {
      SetRoundTrip(r, rest);
    } else {
      PlainRoundTrip(r, rest);
    }
  }

  /** The same, field by field: kind, key, flags, expiry, value and noreply are those of the request. */
  lemma PrintedFields(r: Request, rest: seq<Byte>)
    requires ValidRequest(r)
    ensures var b := Print(r) + rest;
      FrameOf(b).Ok? && FrameOf(b).value.len == |Print(r)| &&
      var cmd := FrameOf(b).value.cmd;
      cmd.key.Some? && Within(cmd.key.value, b) && b[cmd.key.value.at..cmd.key.value.at + cmd.key.value.len] == r.key &&
      match r
      case GetReq(_) => cmd.kind == Get
      case SetReq(_, flags, exptime, value, noreply) =>
        cmd.kind == Set && cmd.flags == flags && cmd.exptime == exptime && cmd.noreply == noreply && cmd.value.Some? &&
        Within(cmd.value.value, b) && cmd.valueLen == |value| &&
        b[cmd.value.value.at..cmd.value.value.at + cmd.value.value.len] == value
      case DeleteReq(_, noreply) => cmd.kind == Delete && cmd.noreply == noreply
      case TouchReq(_, exptime, noreply) => cmd.kind == Touch && cmd.exptime == exptime && cmd.noreply == noreply
  {
    hide FrameOf, Join, Digits, ValidKey, Words, ValidRequest, Print;
    RoundTrip(r, rest);
    KeyPlace(r, rest);
    if r.SetReq? {
      ValuePlace(r, rest);
    }
  }

  lemma Middle(pre: seq<Byte>, w: seq<Byte>, post: seq<Byte>)
    ensures (pre + w + post)[|pre|..|pre| + |w|] == w
  {
  }

  lemma KeyPlace(r: Request, rest: seq<Byte>)
    requires ValidRequest(r)
    ensures var b, at := Print(r) + rest, CommandOf(r).key.value.at;
      at + |r.key| <= |b| && b[at..at + |r.key|] == r.key
  {
    hide Join, Digits, TokensOf, ValidRequest;
    WordsFound(r);
    var line := Join(Words(r));
    var ts := TokensOf(line, 0, |line|);
    assert ts[1] in ts && Text(line, ts[1]) == Words(r)[1] == r.key;
    assert (Print(r) + rest)[..|line|] == line;
    Prefixed(line, Print(r) + rest, ts[1].at, |r.key|);
  }

  lemma Prefixed(a: seq<Byte>, b: seq<Byte>, at: nat, n: nat)
    requires a <= b && at + n <= |a|
    ensures b[at..at + n] == a[at..at + n]
  {
  }

  lemma ValuePlace(r: Request, rest: seq<Byte>)
    requires r.SetReq?
    ensures var b, at := Print(r) + rest, CommandOf(r).value.value.at;
      at + |r.value| <= |b| && b[at..at + |r.value|] == r.value
  {
    hide Join, Digits, Words;
    Middle(Join(Words(r)) + CRLF, r.value, CRLF + rest);
    assert Print(r) + rest == Join(Words(r)) + CRLF + r.value + (CRLF + rest);
  }

  lemma SetRoundTrip(r: Request, rest: seq<Byte>)
    requires ValidRequest(r) && r.SetReq?
    ensures FrameOf(Print(r) + rest) == Ok(Frame(CommandOf(r), |Print(r)|))
  {
    hide Join, HeaderOf, LineOf, ValidKey, Words, FrameOf, BodyOf;
    var line, tail, b := Join(Words(r)), r.value + CRLF + rest, Print(r) + rest;
    WordsClean(r);
    HeaderRoundTrip(r);
    LineOfWords(Words(r), tail);
    assert b == line + CRLF + tail;
    assert b[|line| + 2 + |r.value|..] == CRLF + rest;
    FrameWithBody(b, |line|, CommandOf(r).(value := None), |r.value|);
    assert CommandOf(r).(value := None).(value := Some(Slice(|line| + 2, |r.value|))) == CommandOf(r);
    assert |Print(r)| == |line| + 2 + |r.value| + 2;
  }

  lemma PlainRoundTrip(r: Request, rest: seq<Byte>)
    requires ValidRequest(r) && !r.SetReq?
    ensures FrameOf(Print(r) + rest) == Ok(Frame(CommandOf(r), |Print(r)|))
  {
    hide Join, HeaderOf, LineOf, ValidKey, Words, FrameOf, BodyOf;
    WordsClean(r);
    HeaderRoundTrip(r);
    LineOfWords(Words(r), rest);
    assert CommandOf(r).(value := None) == CommandOf(r);
    FrameWithoutBody(Print(r) + rest, |Join(Words(r))|, CommandOf(r));
  }

  lemma FrameWithoutBody(b: seq<Byte>, n: nat, cmd: Command)
    requires LineOf(b) == Ok(n) && HeaderOf(b[..n]) == Ok(cmd) && !cmd.kind.Set?
    ensures FrameOf(b) == Ok(Frame(cmd, n + 2))
  {
    hide LineOf, HeaderOf;
  }

  lemma FrameWithBody(b: seq<Byte>, n: nat, cmd: Command, valueLen: nat)
    requires LineOf(b) == Ok(n) && HeaderOf(b[..n]) == Ok(cmd) && cmd.kind.Set? && cmd.valueLen == valueLen
    requires n + 2 + valueLen + 2 <= |b| && n + 2 + valueLen + 2 <= SIZE_MAX && CRLF <= b[n + 2 + valueLen..]
    ensures FrameOf(b) == Ok(Frame(cmd.(value := Some(Slice(n + 2, valueLen))), n + 2 + valueLen + 2))
  {
    hide LineOf, HeaderOf;
    var tail := b[n + 2 + valueLen..];
    assert tail[0] == CRLF[0] && tail[1] == CRLF[1];
  }

  // ---- many commands

  function PrintAll(rs: seq<Request>): seq<Byte> {
    if rs == [] then [] else Print(rs[0]) + PrintAll(rs[1..])
  }

  // Beyond its key and value a command prints at most 96 bytes.
  lemma PrintBound(r: Request)
    requires ValidRequest(r)
    ensures |Print(r)| <= 96 + |r.key| + if r.SetReq? then |r.value| else 0
  {
    hide Digits, Join, TotalLength;
    var ws := Words(r);
    JoinLength(ws);
    TotalStep(ws, 0);
    TotalStep(ws, 1);
    if r.SetReq? {
      DigitsFitBuffers(r.flags);
      DigitsFitBuffers(r.exptime);
      DigitsFitBuffers(|r.value|);
      TotalStep(ws, 2);
      TotalStep(ws, 3);
      TotalStep(ws, 4);
      SuffixLength(ws[5..], r.noreply);
    } else if r.TouchReq? {
      DigitsFitBuffers(r.exptime);
      TotalStep(ws, 2);
      SuffixLength(ws[3..], r.noreply);
    } else {
      SuffixLength(ws[2..], r.DeleteReq? && r.noreply);
    }
  }

  lemma TotalStep(ws: seq<seq<Byte>>, k: nat)
    requires k < |ws|
    ensures TotalLength(ws[k..]) == |ws[k]| + 1 + TotalLength(ws[k + 1..]) && ws[0..] == ws
  {
  }

  lemma SuffixLength(ws: seq<seq<Byte>>, noreply: bool)
    requires ws == Suffix(noreply)
    ensures TotalLength(ws) <= 8
  {
  }

  function TotalLength(ws: seq<seq<Byte>>): nat {
    if ws == [] then 0 else |ws[0]| + 1 + TotalLength(ws[1..])
  }

  lemma {:induction false} JoinLength(ws: seq<seq<Byte>>)
    requires ws != []
    ensures |Join(ws)| + 1 == TotalLength(ws)
  {
    if |ws| > 1 {
      JoinLength(ws[1..]);
    }
  }

  // ---- the writer

  class Writer {
    const buf: array<Byte>
    var pos: nat
    ghost var mark: nat    // where the command at hand starts

    ghost predicate Valid()
      reads this
    {
      mark <= pos <= buf.Length
    }

    ghost function Written(): seq<Byte>
      requires Valid()
      reads this, buf
    {
      buf[..pos]
    }

    // What has been written of the command at hand, and before it.
    ghost function Current(): seq<Byte>
      requires Valid()
      reads this, buf
    {
      buf[mark..pos]
    }

    ghost function Earlier(): seq<Byte>
      requires Valid()
      reads this, buf
    {
      buf[..mark]
    }

    constructor (buf: array<Byte>)
      ensures Valid() && pos == 0 && this.buf == buf
    {
      this.buf, pos, mark := buf, 0, 0;
    }

    method PutBytes(src: seq<Byte>)
      requires Valid() && pos + |src| <= buf.Length
      modifies this`pos, buf
      ensures Valid() && Current() == old(Current()) + src && Earlier() == old(Earlier())
    {
      for i := 0 to |src|
        invariant pos == old(pos) + i <= buf.Length
        invariant buf[..mark] == old(buf[..mark]) && buf[mark..pos] == old(buf[mark..pos]) + src[..i]
      {
        buf[pos] := src[i];
        pos := pos + 1;
      }
      assert src[..|src|] == src;
    }

    method PutChar(c: Byte)
      requires Valid() && pos < buf.Length
      modifies this`pos, buf
      ensures Valid() && Current() == old(Current()) + [c] && Earlier() == old(Earlier())
    {
      buf[pos] := c;
      pos := pos + 1;
    }

    // Digits are collected from the last to the first and put out in reverse.
    method PutNumber(v: nat)
      requires Valid() && v <= SIZE_MAX && pos + |Digits(v)| <= buf.Length
      modifies this`pos, buf
      ensures Valid() && Current() == old(Current()) + Digits(v) && Earlier() == old(Earlier())
    {
      hide Digits, IsNumber, Value;
      DigitsFitBuffers(v);
      var digits := new Byte[20];
      var n, rest: nat := 0, v;
      while true
        invariant n + |Digits(rest)| == |Digits(v)| <= 20
        invariant forall i | 0 <= i < n :: digits[i] == Digits(v)[|Digits(v)| - 1 - i]
        invariant Digits(v)[..|Digits(v)| - n] == Digits(rest)
        decreases rest
        modifies digits
      {
        DigitsStep(rest);
        assert Digits(v)[|Digits(v)| - n - 1] == ZERO + rest % 10;
        digits[n] := ZERO + rest % 10;
        n := n + 1;
        rest := rest / 10;
        if rest == 0 {
          break;
        }
      }
      while n > 0
        invariant n <= |Digits(v)|
        invariant forall i | 0 <= i < |Digits(v)| :: digits[i] == Digits(v)[|Digits(v)| - 1 - i]
        invariant pos + n == old(pos) + |Digits(v)| && Valid()
        invariant Earlier() == old(Earlier()) && Current() == old(Current()) + Digits(v)[..|Digits(v)| - n]
      {
        n := n - 1;
        PutChar(digits[n]);
      }
    }

    // A blank and a number.
    method PutField(v: nat)
      requires Valid() && v <= SIZE_MAX && pos + 1 + |Digits(v)| <= buf.Length
      modifies this`pos, buf
      ensures Valid() && Current() == old(Current()) + [SPACE] + Digits(v) && Earlier() == old(Earlier())
    {
      hide Digits;
      PutChar(SPACE);
      PutNumber(v);
    }

    // Print a request and note where its fields went.
    method Emit(r: Request) returns (e: Expect)
      requires Valid() && ValidRequest(r) && pos + |Print(r)| <= buf.Length
      modifies this`pos, this`mark, buf
      ensures Valid() && Written() == old(Written()) + Print(r)
      ensures e == ExpectOf(r, old(pos))
    {
      hide Print, ExpectOf;
      NumbersFit(r);
      mark := pos;
      match r
      case GetReq(key) => e := EmitGet(key);
      case SetReq(key, flags, exptime, value, noreply) => e := EmitSet(key, flags, exptime, value, noreply);
      case DeleteReq(key, noreply) => e := EmitDelete(key, noreply);
      case TouchReq(key, exptime, noreply) => e := EmitTouch(key, exptime, noreply);
    }

    method EmitNoreply(noreply: bool)
      requires Valid() && pos + (if noreply then 8 else 0) <= buf.Length
      modifies this`pos, buf
      ensures Valid() && Current() == old(Current()) + (if noreply then [SPACE] + NOREPLY else []) &&
        Earlier() == old(Earlier())
    {
      if noreply {
        PutBytes([SPACE] + NOREPLY);
      }
    }

    method EmitGet(key: seq<Byte>) returns (e: Expect)
      requires Valid() && mark == pos && pos + |Print(GetReq(key))| <= buf.Length
      modifies this`pos, buf
      ensures Valid() && Earlier() == old(Earlier()) && Current() == Print(GetReq(key)) &&
        e == ExpectOf(GetReq(key), old(pos))
    {
      hide Join, Words;
      LineText(GetReq(key));
      e := Expect(Get, 0, 0, 0, 0, 0, 0, false);
      PutBytes(GET + [SPACE]);
      e := e.(keyOff := pos, keyLen := |key|);
      PutBytes(key);
      PutBytes(CRLF);
    }

    method EmitSet(key: seq<Byte>, flags: nat, exptime: nat, value: seq<Byte>, noreply: bool) returns (e: Expect)
      requires Valid() && mark == pos && pos + |Print(SetReq(key, flags, exptime, value, noreply))| <= buf.Length
      requires flags <= UINT32_MAX && exptime <= UINT32_MAX && |value| <= SIZE_MAX
      modifies this`pos, buf
      ensures Valid() && Earlier() == old(Earlier()) && Current() == Print(SetReq(key, flags, exptime, value, noreply))
      ensures e == ExpectOf(SetReq(key, flags, exptime, value, noreply), old(pos))
    {
      hide Digits, Join, Words;
      ghost var line := Join(Words(SetReq(key, flags, exptime, value, noreply)));
      e := EmitSetLine(key, flags, exptime, value, noreply);
      PutBytes(CRLF);
      e := e.(valueOff := pos);
      PutBytes(value);
      PutBytes(CRLF);
    }

    method EmitSetLine(key: seq<Byte>, flags: nat, exptime: nat, value: seq<Byte>, noreply: bool) returns (e: Expect)
      requires Valid() && mark == pos && pos + |Join(Words(SetReq(key, flags, exptime, value, noreply)))| <= buf.Length
      requires flags <= UINT32_MAX && exptime <= UINT32_MAX && |value| <= SIZE_MAX
      modifies this`pos, buf
      ensures Valid() && Earlier() == old(Earlier()) &&
        Current() == Join(Words(SetReq(key, flags, exptime, value, noreply)))
      ensures e == Expect(Set, mark + 4, |key|, 0, |value|, flags, exptime, noreply)
    {
      hide Digits, Join, Words;
      LineText(SetReq(key, flags, exptime, value, noreply));
      ghost var a := SET + [SPACE] + key;
      ghost var f := a + [SPACE] + Digits(flags) + [SPACE] + Digits(exptime) + [SPACE] + Digits(|value|);
      assert |Join(Words(SetReq(key, flags, exptime, value, noreply)))| == |f| + if noreply then 8 else 0;
      e := Expect(Set, 0, 0, 0, |value|, flags, exptime, noreply);
      PutBytes(SET + [SPACE]);
      e := e.(keyOff := pos, keyLen := |key|);
      PutBytes(key);
      assert Current() == a;
      PutFields(flags, exptime, |value|);
      assert Current() == f;
      EmitNoreply(noreply);
    }

    method PutFields(flags: nat, exptime: nat, length: nat)
      requires Valid() && flags <= UINT32_MAX && exptime <= UINT32_MAX && length <= SIZE_MAX
      requires pos + 3 + |Digits(flags)| + |Digits(exptime)| + |Digits(length)| <= buf.Length
      modifies this`pos, buf
      ensures Valid() && Earlier() == old(Earlier())
      ensures Current() ==
        old(Current()) + [SPACE] + Digits(flags) + [SPACE] + Digits(exptime) + [SPACE] + Digits(length)
    {
      hide Digits;
      PutField(flags);
      PutField(exptime);
      PutField(length);
    }

    method EmitDelete(key: seq<Byte>, noreply: bool) returns (e: Expect)
      requires Valid() && mark == pos && pos + |Print(DeleteReq(key, noreply))| <= buf.Length
      modifies this`pos, buf
      ensures Valid() && Earlier() == old(Earlier()) && Current() == Print(DeleteReq(key, noreply))
      ensures e == ExpectOf(DeleteReq(key, noreply), old(pos))
    {
      hide Join, Words;
      LineText(DeleteReq(key, noreply));
      e := Expect(Delete, 0, 0, 0, 0, 0, 0, noreply);
      PutBytes(DELETE + [SPACE]);
      e := e.(keyOff := pos, keyLen := |key|);
      PutBytes(key);
      assert Current() == DELETE + [SPACE] + key;
      EmitNoreply(noreply);
      PutBytes(CRLF);
    }

    method EmitTouch(key: seq<Byte>, exptime: nat, noreply: bool) returns (e: Expect)
      requires Valid() && mark == pos && pos + |Print(TouchReq(key, exptime, noreply))| <= buf.Length &&
        exptime <= UINT32_MAX
      modifies this`pos, buf
      ensures Valid() && Earlier() == old(Earlier()) && Current() == Print(TouchReq(key, exptime, noreply))
      ensures e == ExpectOf(TouchReq(key, exptime, noreply), old(pos))
    {
      hide Digits, Join, Words;
      LineText(TouchReq(key, exptime, noreply));
      ghost var a := TOUCH + [SPACE] + key;
      ghost var c := a + [SPACE] + Digits(exptime);
      assert |Print(TouchReq(key, exptime, noreply))| == |c| + (if noreply then 8 else 0) + 2;
      e := Expect(Touch, 0, 0, 0, 0, 0, exptime, noreply);
      PutBytes(TOUCH + [SPACE]);
      e := e.(keyOff := pos, keyLen := |key|);
      PutBytes(key);
      assert Current() == a;
      PutField(exptime);
      assert Current() == c;
      EmitNoreply(noreply);
      PutBytes(CRLF);
    }
  }

  /** Where the writer put the fields of a command, counted from the start of the buffer, and their values. */
  datatype Expect = Expect(kind: Kind, keyOff: nat, keyLen: nat, valueOff: nat, valueLen: nat, flags: nat,
    exptime: nat, noreply: bool)

  function ExpectOf(r: Request, start: nat): Expect {
    var cmd := CommandOf(r);
    var valueOff := if cmd.value.Some? then start + cmd.value.value.at else 0;
    Expect(cmd.kind, start + cmd.key.value.at, cmd.key.value.len, valueOff, cmd.valueLen, cmd.flags, cmd.exptime,
           cmd.noreply)
  }

  lemma NumbersFit(r: Request)
    requires ValidRequest(r)
    ensures r.SetReq? ==> r.flags <= UINT32_MAX && r.exptime <= UINT32_MAX && |r.value| <= SIZE_MAX
    ensures r.TouchReq? ==> r.exptime <= UINT32_MAX
  {
  }

  // The line of a request, spelled out.
  lemma LineText(r: Request)
    ensures var tail := if !r.GetReq? && r.noreply then [SPACE] + NOREPLY else [];
      Join(Words(r)) ==
        match r
        case GetReq(key) => GET + [SPACE] + key
        case SetReq(key, flags, exptime, value, _) =>
          SET + [SPACE] + key + [SPACE] + Digits(flags) + [SPACE] + Digits(exptime) + [SPACE] + Digits(|value|) + tail
        case DeleteReq(key, _) => DELETE + [SPACE] + key + tail
        case TouchReq(key, exptime, _) => TOUCH + [SPACE] + key + [SPACE] + Digits(exptime) + tail
  {
    hide Digits, Join;
    match r
    case GetReq(key) =>
      JoinLast([GET], key);
      assert [GET] + [key] == [GET, key];
    case SetReq(key, flags, exptime, value, noreply) =>
      var f, x, l := Digits(flags), Digits(exptime), Digits(|value|);
      JoinLast([SET], key);
      JoinLast([SET, key], f);
      JoinLast([SET, key, f], x);
      JoinLast([SET, key, f, x], l);
      JoinSuffix([SET, key, f, x, l], noreply);
      assert [SET] + [key] == [SET, key] && [SET, key] + [f] == [SET, key, f];
      assert [SET, key, f] + [x] == [SET, key, f, x] && [SET, key, f, x] + [l] == [SET, key, f, x, l];
    case DeleteReq(key, noreply) =>
      JoinLast([DELETE], key);
      assert [DELETE] + [key] == [DELETE, key];
      JoinSuffix([DELETE, key], noreply);
    case TouchReq(key, exptime, noreply) =>
      var x := Digits(exptime);
      JoinLast([TOUCH], key);
      JoinLast([TOUCH, key], x);
      assert [TOUCH] + [key] == [TOUCH, key] && [TOUCH, key] + [x] == [TOUCH, key, x];
      JoinSuffix([TOUCH, key, x], noreply);
  }

  lemma {:induction false} JoinLast(ws: seq<seq<Byte>>, w: seq<Byte>)
    requires ws != []
    ensures Join(ws + [w]) == Join(ws) + [SPACE] + w
    ensures |ws| == 1 ==> Join(ws) == ws[0]
  {
    assert (ws + [w])[1..] == ws[1..] + [w];
    if |ws| > 1 {
      JoinLast(ws[1..], w);
    }
  }

  lemma JoinSuffix(ws: seq<seq<Byte>>, noreply: bool)
    requires ws != []
    ensures Join(ws + Suffix(noreply)) == Join(ws) + if noreply then [SPACE] + NOREPLY else []
  {
    JoinLast(ws, NOREPLY);
    assert ws + [] == ws;
  }
}
