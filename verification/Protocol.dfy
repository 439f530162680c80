/** The text protocol: what a buffer means as a command, and the parser that finds out. */
module Protocol {
  import opened Bytes
  import opened Numbers
  import opened Tokens

  const MAX_TOKENS: nat := 6
  const MAX_KEY_LENGTH: nat := 250

  const GET: seq<Byte> := [103, 101, 116]
  const SET: seq<Byte> := [115, 101, 116]
  const QUIT: seq<Byte> := [113, 117, 105, 116]
  const TOUCH: seq<Byte> := [116, 111, 117, 99, 104]
  const DELETE: seq<Byte> := [100, 101, 108, 101, 116, 101]
  const VERSION: seq<Byte> := [118, 101, 114, 115, 105, 111, 110]
  const NOREPLY: seq<Byte> := [110, 111, 114, 101, 112, 108, 121]

  datatype Error =
    | Incomplete
    | InvalidCommand
    | InvalidArguments
    | KeyTooLong
    | InvalidFlags
    | InvalidExptime
    | InvalidValueLength
    | ExpectedCrlf
    | InvalidDataBlock
    | BufferTooSmall

  datatype Result<T> = Ok(value: T) | Err(error: Error)

  datatype Kind = Get | Set | Delete | Touch | Version | Quit

  /** A parsed command; key and value are slices of the buffer. */
  datatype Command = Command(
    kind: Kind,
    key: Option<Slice>,
    keysEnd: nat,
    value: Option<Slice>,
    valueLen: nat,
    flags: nat,
    exptime: nat,
    noreply: bool)

  datatype Frame = Frame(cmd: Command, len: nat)

  function Blank(kind: Kind): Command {
    Command(kind, None, 0, None, 0, 0, 0, false)
  }

  // ---- the line

  predicate IsBreak(c: Byte) {
    c == CR || c == LF
  }

  // The first CR or LF, or the end.
  function FirstBreak(b: seq<Byte>, pos: nat): (p: nat)
    requires pos <= |b|
    ensures pos <= p <= |b| && forall i | pos <= i < p :: !IsBreak(b[i])
    ensures p < |b| ==> IsBreak(b[p])
    decreases |b| - pos
  {
    if pos < |b| && !IsBreak(b[pos]) then FirstBreak(b, pos + 1) else pos
  }

  /** The length of the first line, which must end in CR LF. */
  function LineOf(b: seq<Byte>): (r: Result<nat>)
    ensures r.Ok? ==> r.value + 2 <= |b|
  {
    var p := FirstBreak(b, 0);
    if p == |b| then Err(Incomplete)
    else if b[p] == LF then Err(ExpectedCrlf)
    else if p + 1 == |b| then Err(Incomplete)
    else if b[p + 1] != LF then Err(ExpectedCrlf)
    else Ok(p)
  }

  // ---- the header

  predicate IsKeyByte(c: Byte) {
    c > SPACE && c != DEL
  }

  predicate ValidKey(k: seq<Byte>) {
    1 <= |k| <= MAX_KEY_LENGTH && forall i | 0 <= i < |k| :: IsKeyByte(k[i])
  }

  function KeyError(k: seq<Byte>): Error {
    if |k| > MAX_KEY_LENGTH then KeyTooLong else InvalidArguments
  }

  function KindOf(name: seq<Byte>): Option<Kind> {
    if name == GET then Some(Get)
    else if name == SET then Some(Set)
    else if name == QUIT then Some(Quit)
    else if name == TOUCH then Some(Touch)
    else if name == DELETE then Some(Delete)
    else if name == VERSION then Some(Version)
    else None
  }

  // Words of a command, its name included and noreply not.
  function TokenCount(kind: Kind): nat {
    match kind
    case Get => 2
    case Set => 5
    case Delete => 2
    case Touch => 3
    case Version => 1
    case Quit => 1
  }

  predicate AllowsNoreply(kind: Kind) {
    kind.Set? || kind.Delete? || kind.Touch?
  }

  predicate Arity(line: seq<Byte>, ts: seq<Slice>, kind: Kind)
    requires forall t | t in ts :: Within(t, line)
  {
    |ts| == TokenCount(kind) || Noreply(line, ts, kind)
  }

  predicate Noreply(line: seq<Byte>, ts: seq<Slice>, kind: Kind)
    requires forall t | t in ts :: Within(t, line)
  {
    AllowsNoreply(kind) && |ts| == TokenCount(kind) + 1 && Text(line, ts[|ts| - 1]) == NOREPLY
  }

  function NumberUpTo(s: seq<Byte>, limit: nat): Option<nat> {
    if IsNumber(s) && Value(s) <= limit then Some(Value(s)) else None
  }

  // The first of the keys that is invalid decides the error.
  function KeysOf(line: seq<Byte>, ts: seq<Slice>): Option<Error>
    requires forall t | t in ts :: Within(t, line)
  {
    if ts == [] then None
    else if !ValidKey(Text(line, ts[0])) then Some(KeyError(Text(line, ts[0])))
    else KeysOf(line, ts[1..])
  }

  function GetOf(line: seq<Byte>, ts: seq<Slice>): Result<Command>
    requires forall t | t in ts :: Within(t, line)
  {
    match KeysOf(line, ts)
    case Some(e) => Err(e)
    case None =>
      if ts == [] then Err(InvalidArguments)
      else Ok(Blank(Get).(key := Some(ts[0]), keysEnd := |line|))
  }

  function WithExptime(s: seq<Byte>, cmd: Command): Result<Command> {
    match NumberUpTo(s, UINT32_MAX)
    case None => Err(InvalidExptime)
    case Some(v) => Ok(cmd.(exptime := v))
  }

  function SetFieldsOf(flags: seq<Byte>, exptime: seq<Byte>, length: seq<Byte>, cmd: Command): Result<Command> {
    match NumberUpTo(flags, UINT32_MAX)
    case None => Err(InvalidFlags)
    case Some(f) =>
      match WithExptime(exptime, cmd.(flags := f))
      case Err(e) => Err(e)
      case Ok(c) =>
        match NumberUpTo(length, SIZE_MAX)
        case None => Err(InvalidValueLength)
        case Some(n) => Ok(c.(valueLen := n))
  }

  function OtherOf(line: seq<Byte>, ts: seq<Slice>, kind: Kind): Result<Command>
    requires forall t | t in ts :: Within(t, line)
  {
    if !Arity(line, ts, kind) then Err(InvalidArguments)
    else
      var cmd := Blank(kind).(noreply := |ts| != TokenCount(kind));
      if kind.Version? || kind.Quit? then Ok(cmd)
      else if !ValidKey(Text(line, ts[1])) then Err(KeyError(Text(line, ts[1])))
      else
        var keyed := cmd.(key := Some(ts[1]), keysEnd := ts[1].at + ts[1].len);
        if kind.Set? then SetFieldsOf(Text(line, ts[2]), Text(line, ts[3]), Text(line, ts[4]), keyed)
        else if kind.Touch? then WithExptime(Text(line, ts[2]), keyed)
        else Ok(keyed)
  }

  /** The command a line stands for, a set still without its value. */
  function HeaderOf(line: seq<Byte>): Result<Command> {
    var ts := TokensOf(line, 0, |line|);
    if ts != [] && Text(line, ts[0]) == GET then
      assert forall t | t in ts[1..] :: t in ts;
      GetOf(line, ts[1..])
    else if |ts| > MAX_TOKENS then Err(InvalidArguments)
    else if ts == [] then Err(InvalidCommand)
    else
      match KindOf(Text(line, ts[0]))
      case None => Err(InvalidCommand)
      case Some(kind) => OtherOf(line, ts, kind)
  }

  // ---- the data block

  /** The end of a frame whose value starts at `offset`: CR LF must follow the value. */
  function BodyOf(b: seq<Byte>, offset: nat, valueLen: nat): (r: Result<nat>)
    requires offset <= |b|
    ensures r.Ok? ==> r.value == offset + valueLen + 2 <= |b|
  {
    var end := offset + valueLen;
    if end + 2 > SIZE_MAX then Err(InvalidValueLength)
    else if |b| <= end then Err(Incomplete)
    else if b[end] != CR then Err(InvalidDataBlock)
    else if |b| == end + 1 then Err(Incomplete)
    else if b[end + 1] != LF then Err(InvalidDataBlock)
    else Ok(end + 2)
  }

  /** The first command of a buffer. */
  function FrameOf(b: seq<Byte>): (r: Result<Frame>)
    ensures r.Ok? ==> 2 <= r.value.len <= |b|
  {
    match LineOf(b)
    case Err(e) => Err(e)
    case Ok(n) =>
      match HeaderOf(b[..n])
      case Err(e) => Err(e)
      case Ok(cmd) =>
        if !cmd.kind.Set? then Ok(Frame(cmd, n + 2))
        else
          match BodyOf(b, n + 2, cmd.valueLen)
          case Err(e) => Err(e)
          case Ok(len) => Ok(Frame(cmd.(value := Some(Slice(n + 2, cmd.valueLen))), len))
  }

  // ---- the parser

  method FindLine(b: seq<Byte>) returns (r: Result<nat>)
    ensures r == LineOf(b)
  {
    for i := 0 to |b|
      invariant FirstBreak(b, i) == FirstBreak(b, 0)
    {
      if b[i] == LF {
        return Err(ExpectedCrlf);
      }
      if b[i] != CR {
        continue;
      }
      if |b| - i < 2 {
        return Err(Incomplete);
      }
      if b[i + 1] != LF {
        return Err(ExpectedCrlf);
      }
      return Ok(i);
    }
    return Err(Incomplete);
  }

  method Tokenize(line: seq<Byte>) returns (r: Result<seq<Slice>>)
    ensures r ==
      if |TokensOf(line, 0, |line|)| <= MAX_TOKENS then Ok(TokensOf(line, 0, |line|)) else Err(InvalidArguments)
  {
    hide SkipSeparators, SkipWord;
    var tokens: seq<Slice> := [];
    var pos := 0;
    ghost var all := TokensOf(line, 0, |line|);
    while pos < |line|
      invariant pos <= |line| && |tokens| <= MAX_TOKENS && |tokens| <= |all|
      invariant tokens == all[..|tokens|] && TokensOf(line, pos, |line|) == all[|tokens|..]
    {
      var start := PassSeparators(line, pos);
      if start == |line| {
        break;
      }
      if |tokens| == MAX_TOKENS {
        return Err(InvalidArguments);
      }
      ghost var rest := all[|tokens|..];
      pos := PassWord(line, start);
      assert rest[0] == Slice(start, pos - start) && rest[1..] == TokensOf(line, pos, |line|);
      tokens := tokens + [Slice(start, pos - start)];
    }
    assert TokensOf(line, pos, |line|) == [];
    assert |all| == |tokens|;
    assert tokens == all;
    return Ok(tokens);
  }

  method ParseKey(k: seq<Byte>) returns (err: Option<Error>)
    ensures err == if ValidKey(k) then None else Some(KeyError(k))
  {
    if |k| == 0 {
      return Some(InvalidArguments);
    }
    if |k| > MAX_KEY_LENGTH {
      return Some(KeyTooLong);
    }
    for i := 0 to |k|
      invariant forall j | 0 <= j < i :: IsKeyByte(k[j])
    {
      if k[i] <= SPACE || k[i] == DEL {
        return Some(InvalidArguments);
      }
    }
    return None;
  }

  // Every key is checked before the first is reported.
  method ParseGetKeys(line: seq<Byte>, from: nat) returns (r: Result<Command>)
    requires from <= |line|
    ensures r == GetOf(line, TokensOf(line, from, |line|))
  {
    hide SkipSeparators, SkipWord, ValidKey;
    var pos, first := from, None;
    ghost var all := TokensOf(line, from, |line|);
    while pos < |line|
      invariant from <= pos <= |line|
      invariant KeysOf(line, TokensOf(line, pos, |line|)) == KeysOf(line, all)
      invariant first == None ==> TokensOf(line, pos, |line|) == all
      invariant first != None ==> all != [] && first == Some(all[0])
    {
      var start := PassSeparators(line, pos);
      if start == |line| {
        break;
      }
      ghost var rest := TokensOf(line, pos, |line|);
      pos := PassWord(line, start);
      var token := Slice(start, pos - start);
      assert rest[0] == token && rest[1..] == TokensOf(line, pos, |line|);
      var err := ParseKey(Text(line, token));
      if err.Some? {
        return Err(err.value);
      }
      if first == None {
        first := Some(token);
      }
    }
    if first == None {
      return Err(InvalidArguments);
    }
    return Ok(Blank(Get).(key := first, keysEnd := |line|));
  }

  method ParseExptime(s: seq<Byte>, cmd: Command) returns (r: Result<Command>)
    ensures r == WithExptime(s, cmd)
  {
    var value := ParseUint(s, UINT32_MAX);
    return if value.None? then Err(InvalidExptime) else Ok(cmd.(exptime := value.value));
  }

  method ParseSetFields(line: seq<Byte>, ts: seq<Slice>, cmd: Command) returns (r: Result<Command>)
    requires |ts| >= 5 && forall t | t in ts :: Within(t, line)
    ensures r == SetFieldsOf(Text(line, ts[2]), Text(line, ts[3]), Text(line, ts[4]), cmd)
  {
    var value := ParseUint(Text(line, ts[2]), UINT32_MAX);
    if value.None? {
      return Err(InvalidFlags);
    }
    r := ParseExptime(Text(line, ts[3]), cmd.(flags := value.value));
    if r.Err? {
      return;
    }
    value := ParseUint(Text(line, ts[4]), SIZE_MAX);
    if value.None? {
      return Err(InvalidValueLength);
    }
    return Ok(r.value.(valueLen := value.value));
  }

  method ParseHeader(line: seq<Byte>) returns (r: Result<Command>)
    ensures r == HeaderOf(line)
  {
    hide SkipSeparators, SkipWord, TokensOf, KindOf, ValidKey, GetOf, SetFieldsOf, WithExptime;
    var start := PassSeparators(line, 0);
    GetPrefix(line);
    if GetAt(line, start) {
      r := ParseGetKeys(line, start + 3);
      return;
    }
    var tokens := Tokenize(line);
    if tokens.Err? {
      return Err(tokens.error);
    }
    var ts := tokens.value;
    if |ts| == 0 {
      return Err(InvalidCommand);
    }
    var kind := KindOf(Text(line, ts[0]));
    if kind.None? {
      return Err(InvalidCommand);
    }
    if !Arity(line, ts, kind.value) {
      return Err(InvalidArguments);
    }
    var cmd := Blank(kind.value).(noreply := |ts| != TokenCount(kind.value));
    if cmd.kind.Version? || cmd.kind.Quit? {
      return Ok(cmd);
    }
    var err := ParseKey(Text(line, ts[1]));
    if err.Some? {
      return Err(err.value);
    }
    cmd := cmd.(key := Some(ts[1]), keysEnd := ts[1].at + ts[1].len);
    match cmd.kind {
      case Set => r := ParseSetFields(line, ts, cmd);
      case Touch => r := ParseExptime(Text(line, ts[2]), cmd);
      case _ => r := Ok(cmd);
    }
  }

  predicate GetAt(line: seq<Byte>, s: nat)
    requires s <= |line|
  {
    |line| - s >= 3 && line[s..s + 3] == GET && (|line| - s == 3 || IsSeparator(line[s + 3]))
  }

  // The first word is "get" exactly when the line starts so after separators; its other words follow it.
  lemma GetPrefix(line: seq<Byte>)
    ensures var s := SkipSeparators(line, 0, |line|); var ts := TokensOf(line, 0, |line|);
      if GetAt(line, s) then ts != [] && Text(line, ts[0]) == GET && ts[1..] == TokensOf(line, s + 3, |line|)
      else ts == [] || Text(line, ts[0]) != GET
  {
    hide SkipSeparators, SkipWord, TokensOf, GetAt, Text;
    FirstWord(line);
    GetIsWord(line, SkipSeparators(line, 0, |line|));
  }

  lemma GetIsWord(line: seq<Byte>, s: nat)
    requires s <= |line|
    ensures GetAt(line, s) <==> line[s..SkipWord(line, s, |line|)] == GET
    ensures GetAt(line, s) ==> SkipWord(line, s, |line|) == s + 3
  {
    hide SkipWord, IsSeparator;
    NoSeparators();
    if GetAt(line, s) {
      assert forall i | s <= i < s + 3 :: line[i] == line[s..s + 3][i - s];
      WordEnds(line, s, |line|, s + 3);
    }
  }

  lemma NoSeparators()
    ensures forall i | 0 <= i < 3 :: !IsSeparator(GET[i])
  {
  }

  lemma FirstWord(line: seq<Byte>)
    ensures var s := SkipSeparators(line, 0, |line|); var ts := TokensOf(line, 0, |line|);
      if s == |line| then ts == []
      else
        var e := SkipWord(line, s, |line|);
        ts != [] && Text(line, ts[0]) == line[s..e] && ts[1..] == TokensOf(line, e, |line|)
  {
    hide SkipSeparators, SkipWord;
  }

  method ParseBody(b: seq<Byte>, offset: nat, valueLen: nat) returns (r: Result<nat>)
    requires offset <= |b| <= SIZE_MAX
    ensures r == BodyOf(b, offset, valueLen)
  {
    if SIZE_MAX - offset < 2 || valueLen > SIZE_MAX - offset - 2 {
      return Err(InvalidValueLength);
    }
    var remaining := |b| - offset;
    if remaining < valueLen {
      return Err(Incomplete);
    }
    var valueEnd := offset + valueLen;
    var trailing := remaining - valueLen;
    if trailing == 0 {
      return Err(Incomplete);
    }
    if b[valueEnd] != CR {
      return Err(InvalidDataBlock);
    }
    if trailing == 1 {
      return Err(Incomplete);
    }
    if b[valueEnd + 1] != LF {
      return Err(InvalidDataBlock);
    }
    return Ok(valueEnd + 2);
  }

  /** Parse the first command of a buffer; no error consumes anything. */
  method ParseCommand(b: seq<Byte>) returns (r: Result<Frame>, consumed: nat)
    requires |b| <= SIZE_MAX
    ensures r == FrameOf(b) && consumed == if r.Ok? then r.value.len else 0
  {
    consumed := 0;
    var line := FindLine(b);
    if line.Err? {
      return Err(line.error), 0;
    }
    var header := ParseHeader(b[..line.value]);
    if header.Err? {
      return Err(header.error), 0;
    }
    var cmd := header.value;
    var end := line.value + 2;
    if cmd.kind.Set? {
      var body := ParseBody(b, end, cmd.valueLen);
      if body.Err? {
        return Err(body.error), 0;
      }
      cmd := cmd.(value := Some(Slice(end, cmd.valueLen)));
      end := body.value;
    }
    return Ok(Frame(cmd, end)), end;
  }
}
