/** Streams of commands: parsed in one go, and parsed as bytes arrive in chunks. */
module Streams {
  import opened Bytes
  import opened Numbers
  import opened Protocol
  import opened Frames
  import opened Printing

  const UINT64: nat := SIZE_MAX + 1

  /** The frames of a stream, up to the first that does not parse. */
  function FramesOf(b: seq<Byte>): seq<Frame>
    decreases |b|
  {
    match FrameOf(b)
    case Err(_) => []
    case Ok(f) => [f] + FramesOf(b[f.len..])
  }

  function LengthOf(fs: seq<Frame>): nat {
    if fs == [] then 0 else LengthOf(fs[..|fs| - 1]) + fs[|fs| - 1].len
  }

  function CodeOf(kind: Kind): nat {
    match kind
    case Get => 0
    case Set => 1
    case Delete => 2
    case Touch => 3
    case Version => 4
    case Quit => 5
  }

  // What the drivers add up for one command, and for many.
  function Consume(cmd: Command): nat {
    (if cmd.key.Some? then cmd.key.value.len else 0) + cmd.valueLen + CodeOf(cmd.kind)
  }

  function Accumulated(fs: seq<Frame>): nat {
    if fs == [] then 0 else (Accumulated(fs[..|fs| - 1]) + Consume(fs[|fs| - 1].cmd)) % UINT64
  }

  // ---- printed streams

  function FramesFor(rs: seq<Request>): seq<Frame> {
    if rs == [] then [] else [Frame(CommandOf(rs[0]), |Print(rs[0])|)] + FramesFor(rs[1..])
  }

  lemma {:induction false} FramesForAt(rs: seq<Request>, i: nat)
    requires i < |rs|
    ensures |FramesFor(rs)| == |rs| && FramesFor(rs)[i] == Frame(CommandOf(rs[i]), |Print(rs[i])|)
    decreases |rs|
  {
    hide CommandOf, Print;
    if i > 0 {
      FramesForAt(rs[1..], i - 1);
    } else if |rs| > 1 {
      FramesForAt(rs[1..], 0);
    }
  }

  /** Concatenated printed commands parse back to the same commands, whatever follows. */
  lemma {:induction false} PrintedStream(rs: seq<Request>, rest: seq<Byte>)
    requires forall r | r in rs :: ValidRequest(r)
    ensures FramesOf(PrintAll(rs) + rest) == FramesFor(rs) + FramesOf(rest)
  {
    hide FrameOf, ValidRequest, Print, CommandOf;
    if rs == [] {
      assert PrintAll(rs) + rest == rest;
    } else {
      var p, tail := Print(rs[0]), PrintAll(rs[1..]) + rest;
      assert PrintAll(rs) + rest == p + tail;
      RoundTrip(rs[0], tail);
      assert (p + tail)[|p|..] == tail;
      PrintedStream(rs[1..], rest);
    }
  }

  // ---- the drivers

  // The state of a driver: the commands before `pos` are accounted for.
  ghost predicate Parsed(data: seq<Byte>, pos: nat, done: seq<Frame>, count: nat, acc: nat) {
    pos <= |data| && done + FramesOf(data[pos..]) == FramesOf(data) &&
    pos == LengthOf(done) && count == |done| && acc == Accumulated(done)
  }

  lemma Start(data: seq<Byte>)
    ensures Parsed(data, 0, [], 0, 0)
  {
    assert data[0..] == data && [] + FramesOf(data) == FramesOf(data);
  }

  // One more command.
  lemma Advance(data: seq<Byte>, pos: nat, done: seq<Frame>, count: nat, acc: nat)
    requires Parsed(data, pos, done, count, acc) && FrameOf(data[pos..]).Ok?
    ensures var f := FrameOf(data[pos..]).value;
      Parsed(data, pos + f.len, done + [f], count + 1, (acc + Consume(f.cmd)) % UINT64)
  {
    hide FrameOf, Consume, LengthOf, Accumulated, FramesOf;
    var f := FrameOf(data[pos..]).value;
    Totals(done, f);
    ConsumeIs(f.cmd);
    NextFrame(data, pos);
    Regroup(done, f, FramesOf(data[pos + f.len..]));
  }

  lemma NextFrame(data: seq<Byte>, pos: nat)
    requires pos <= |data| && FrameOf(data[pos..]).Ok?
    ensures var f := FrameOf(data[pos..]).value;
      pos + f.len <= |data| && FramesOf(data[pos..]) == [f] + FramesOf(data[pos + f.len..])
  {
    hide FrameOf;
    var f := FrameOf(data[pos..]).value;
    assert data[pos..][f.len..] == data[pos + f.len..];
  }

  /** One more frame adds its length to the total, and its key length, value length and the number of its kind to the
    * sum, modulo 2^64. */
  lemma Totals(done: seq<Frame>, f: Frame)
    ensures LengthOf([]) == 0 && LengthOf(done + [f]) == LengthOf(done) + f.len
    ensures Accumulated([]) == 0
    ensures Accumulated(done + [f]) ==
      (Accumulated(done) + (if f.cmd.key.Some? then f.cmd.key.value.len else 0) + f.cmd.valueLen + KindNumber(f.cmd)) %
      0x1_0000_0000_0000_0000
  {
    assert (done + [f])[..|done|] == done;
  }

  // The place of the kind in the source's enumeration: get, set, delete, touch, version, quit.
  function KindNumber(cmd: Command): (n: nat)
    ensures cmd.kind.Get? ==> n == 0
    ensures cmd.kind.Set? ==> n == 1
    ensures cmd.kind.Delete? ==> n == 2
    ensures cmd.kind.Touch? ==> n == 3
    ensures cmd.kind.Version? ==> n == 4
    ensures cmd.kind.Quit? ==> n == 5
  {
    CodeOf(cmd.kind)
  }

  lemma ConsumeIs(cmd: Command)
    ensures Consume(cmd) == (if cmd.key.Some? then cmd.key.value.len else 0) + cmd.valueLen + KindNumber(cmd)
  {
  }

  lemma Regroup(done: seq<Frame>, f: Frame, rest: seq<Frame>)
    ensures done + ([f] + rest) == done + [f] + rest
  {
  }

  // No more commands.
  lemma Stop(data: seq<Byte>, pos: nat, done: seq<Frame>, count: nat, acc: nat)
    requires Parsed(data, pos, done, count, acc) && (pos < |data| ==> FrameOf(data[pos..]).Err?)
    ensures count == |FramesOf(data)| && acc == Accumulated(FramesOf(data)) && pos == LengthOf(FramesOf(data))
  {
    assert FramesOf(data[pos..]) == [];
    assert done + [] == done;
  }

  /** Parse a whole stream until something does not parse. */
  method ParseAll(data: seq<Byte>) returns (count: nat, acc: nat, ghost used: nat)
    requires |data| <= SIZE_MAX
    ensures count == |FramesOf(data)| && acc == Accumulated(FramesOf(data)) && used == LengthOf(FramesOf(data))
  {
    hide FrameOf, Consume, Parsed, FramesOf;
    var pos: nat := 0;
    count, acc := 0, 0;
    ghost var done: seq<Frame> := [];
    Start(data);
    while pos < |data|
      invariant pos <= |data| && Parsed(data, pos, done, count, acc)
    {
      var r, consumed := ParseCommand(data[pos..]);
      if r.Err? {
        break;
      }
      Advance(data, pos, done, count, acc);
      acc := (acc + Consume(r.value.cmd)) % UINT64;
      pos := pos + consumed;
      count := count + 1;
      done := done + [r.value];
    }
    Stop(data, pos, done, count, acc);
    used := pos;
  }

  function GrowWindow(filled: nat, chunk: nat, len: nat): nat {
    var sum := (filled + chunk) % UINT64;
    if sum < len then sum else len
  }

  function ChunksIn(len: nat, chunk: nat): nat
    requires chunk > 0
  {
    (len + chunk - 1) / chunk
  }

  /** Parse a stream that arrives a chunk at a time: the same commands as in one go, accepted exactly when the
    * whole stream parses, with at most one retry a chunk, and just one a chunk when the stream is accepted. The sum of
    * sizes cannot wrap: no object reaches 2^63 bytes. */
  method ParseChunked(data: seq<Byte>, chunk: nat) returns (count: nat, acc: nat, retries: nat, ok: bool)
    requires 1 <= chunk <= SIZE_MAX && |data| < UINT64 / 2
    ensures count == |FramesOf(data)| && acc == Accumulated(FramesOf(data))
    ensures ok <==> LengthOf(FramesOf(data)) == |data|
    ensures retries <= (|data| + chunk - 1) / chunk && (ok ==> retries == (|data| + chunk - 1) / chunk)
  {
    hide FrameOf, Consume, Parsed, FramesOf, GrowWindow, ChunksIn;
    var pos: nat, filled: nat := 0, 0;
    count, acc, retries, ok := 0, 0, 0, true;
    ghost var done: seq<Frame> := [];
    Start(data);
    NoChunks(chunk);
    while pos < |data|
      invariant pos <= filled <= |data| && Parsed(data, pos, done, count, acc) && ok
      invariant filled < |data| ==> filled == retries * chunk
      invariant if filled < |data| then retries <= ChunksIn(|data|, chunk) else retries == ChunksIn(|data|, chunk)
      decreases |data| - pos + (|data| - filled)
    {
      var window := data[pos..filled];
      ghost var whole := data[pos..];
      assert window <= whole;
      var r, consumed := ParseCommand(window);
      if r.Ok? {
        VerdictStable(window, whole);
        Advance(data, pos, done, count, acc);
        acc := (acc + Consume(r.value.cmd)) % UINT64;
        count := count + 1;
        pos := pos + consumed;
        done := done + [r.value];
        continue;
      }
      if r.error != Incomplete {
        VerdictStable(window, whole);
        ok := false;
        break;
      }
      if filled == |data| {
        assert window == whole;
        ok := false;
        break;
      }
      WindowGrows(filled, chunk, |data|, retries);
      filled := GrowWindow(filled, chunk, |data|);
      retries := retries + 1;
    }
    Stop(data, pos, done, count, acc);
    ChunksAre(|data|, chunk);
  }

  lemma NoChunks(chunk: nat)
    requires chunk > 0
    ensures ChunksIn(0, chunk) == 0
  {
  }

  lemma ChunksAre(len: nat, chunk: nat)
    requires chunk > 0
    ensures ChunksIn(len, chunk) == (len + chunk - 1) / chunk
  {
  }

  lemma WindowGrows(filled: nat, chunk: nat, len: nat, retries: nat)
    requires 1 <= chunk <= SIZE_MAX && filled < len < UINT64 / 2 && filled == retries * chunk
    ensures filled < GrowWindow(filled, chunk, len) <= len
    ensures GrowWindow(filled, chunk, len) < len ==> GrowWindow(filled, chunk, len) == (retries + 1) * chunk
    ensures retries + 1 <= ChunksIn(len, chunk)
    ensures GrowWindow(filled, chunk, len) == len ==> retries + 1 == ChunksIn(len, chunk)
  {
    hide ChunksIn;
    var n := ChunksIn(len, chunk);
    Enough(len, chunk);
    Monotone(n, retries, chunk);
    Monotone(retries + 1, n - 1, chunk);
    NoWrap(filled, chunk, len, retries);
  }

  // The chunks reach the length, and one fewer would not.
  lemma Enough(len: nat, chunk: nat)
    requires len > 0 && chunk > 0
    ensures var n := ChunksIn(len, chunk); n > 0 && (n - 1) * chunk < len <= n * chunk
  {
    var n, r := (len + chunk - 1) / chunk, (len + chunk - 1) % chunk;
    assert n * chunk + r == len + chunk - 1;
    assert n > 0;
    assert (n - 1) * chunk == n * chunk - chunk;
  }

  lemma Monotone(n: nat, m: nat, chunk: nat)
    ensures n <= m ==> n * chunk <= m * chunk
  {
  }

  lemma NoWrap(filled: nat, chunk: nat, len: nat, retries: nat)
    requires 1 <= chunk <= SIZE_MAX && filled < len < UINT64 / 2 && filled == retries * chunk
    ensures filled + chunk <= SIZE_MAX && filled + chunk == (retries + 1) * chunk
  {
    if retries > 0 {
      assert retries * chunk >= chunk;
    }
  }

  // ---- building and checking a stream

  datatype Entry = Entry(start: nat, len: nat, fields: Expect)

  function EntriesFor(rs: seq<Request>): (es: seq<Entry>)
    ensures |es| == |rs|
  {
    if rs == [] then []
    else
      var r, front := rs[|rs| - 1], rs[..|rs| - 1];
      EntriesFor(front) + [Entry(|PrintAll(front)|, |Print(r)|, ExpectOf(r, |PrintAll(front)|))]
  }

  lemma {:induction false} PrintAllLast(rs: seq<Request>, r: Request)
    ensures PrintAll(rs + [r]) == PrintAll(rs) + Print(r)
  {
    if rs == [] {
      assert rs + [r] == [r] && PrintAll([r]) == Print(r) + [];
    } else {
      assert (rs + [r])[1..] == rs[1..] + [r];
      PrintAllLast(rs[1..], r);
    }
  }

  predicate Fits(r: Request, keyLen: nat, valueLen: nat) {
    ValidRequest(r) && |r.key| == keyLen && (r.SetReq? ==> |r.value| == valueLen)
  }

  /** Print requests into one buffer, with room for the longest command for each; the room suffices. */
  method BuildStream(rs: seq<Request>, keyLen: nat, valueLen: nat) returns (data: seq<Byte>, wanted: seq<Entry>)
    requires forall r | r in rs :: Fits(r, keyLen, valueLen)
    ensures data == PrintAll(rs) && wanted == EntriesFor(rs)
  {
    hide ValidRequest, Print, ExpectOf, PrintAll, EntriesFor, Times;
    var perCmd := 96 + keyLen + valueLen;
    var buf := new Byte[Times(|rs|, perCmd)];
    var w := new Writer(buf);
    wanted := [];
    NoneYet(perCmd);
    for i := 0 to |rs|
      invariant w.Valid() && w.buf == buf && fresh(w) && w.pos <= Times(i, perCmd)
      invariant w.Written() == PrintAll(rs[..i]) && wanted == EntriesFor(rs[..i])
    {
      assert Fits(rs[i], keyLen, valueLen);
      PrintBound(rs[i]);
      Room(i, |rs|, perCmd);
      var start := w.pos;
      var fields := w.Emit(rs[i]);
      OneMore(rs, i);
      wanted := wanted + [Entry(start, w.pos - start, fields)];
    }
    assert rs[..|rs|] == rs;
    data := buf[..w.pos];
  }

  function Times(n: nat, size: nat): nat {
    n * size
  }

  lemma Room(i: nat, n: nat, per: nat)
    requires i < n
    ensures Times(i, per) + per == Times(i + 1, per) <= Times(n, per)
  {
    Monotone(i + 1, n, per);
  }

  lemma NoneYet(per: nat)
    ensures PrintAll([]) == [] && EntriesFor([]) == [] && Times(0, per) == 0
  {
  }

  lemma OneMore(rs: seq<Request>, i: nat)
    requires i < |rs|
    ensures PrintAll(rs[..i + 1]) == PrintAll(rs[..i]) + Print(rs[i])
    ensures EntriesFor(rs[..i + 1]) ==
      EntriesFor(rs[..i]) + [Entry(|PrintAll(rs[..i])|, |Print(rs[i])|, ExpectOf(rs[i], |PrintAll(rs[..i])|))]
  {
    hide Print, ExpectOf, PrintAll;
    PrintAllLast(rs[..i], rs[i]);
    assert rs[..i + 1] == rs[..i] + [rs[i]] && rs[..i + 1][..i] == rs[..i];
  }

  // What the benchmark compares: the reported fields against the record made when printing.
  predicate Reported(data: seq<Byte>, frame: seq<Byte>, e: Expect, cmd: Command)
    requires e.keyOff + e.keyLen <= |data| && e.valueOff + e.valueLen <= |data|
    requires (cmd.key.Some? ==> Within(cmd.key.value, frame)) && (cmd.value.Some? ==> Within(cmd.value.value, frame))
  {
    cmd.kind == e.kind && cmd.key.Some? && Text(frame, cmd.key.value) == data[e.keyOff..e.keyOff + e.keyLen] &&
    (cmd.kind.Set? ==>
      cmd.value.Some? && Text(frame, cmd.value.value) == data[e.valueOff..e.valueOff + e.valueLen] &&
        cmd.flags == e.flags) &&
    (cmd.kind.Set? || cmd.kind.Touch? ==> cmd.exptime == e.exptime) &&
    (cmd.kind.Set? || cmd.kind.Touch? || cmd.kind.Delete? ==> cmd.noreply == e.noreply)
  }

  method CheckFields(data: seq<Byte>, frame: seq<Byte>, e: Expect, cmd: Command) returns (ok: bool)
    requires e.keyOff + e.keyLen <= |data| && e.valueOff + e.valueLen <= |data|
    requires (cmd.key.Some? ==> Within(cmd.key.value, frame)) && (cmd.value.Some? ==> Within(cmd.value.value, frame))
    ensures ok <==> Reported(data, frame, e, cmd)
  {
    if cmd.kind != e.kind {
      return false;
    }
    if cmd.key.None? || Text(frame, cmd.key.value) != data[e.keyOff..e.keyOff + e.keyLen] {
      return false;
    }
    match e.kind {
      case Set =>
        if cmd.value.None? || Text(frame, cmd.value.value) != data[e.valueOff..e.valueOff + e.valueLen] {
          return false;
        }
        return cmd.flags == e.flags && cmd.exptime == e.exptime && cmd.noreply == e.noreply;
      case Touch =>
        return cmd.exptime == e.exptime && cmd.noreply == e.noreply;
      case Delete =>
        return cmd.noreply == e.noreply;
      case _ =>
        return true;
    }
  }

  lemma {:induction false} EntryAt(rs: seq<Request>, i: nat)
    requires i < |rs|
    ensures EntriesFor(rs)[i] == Entry(|PrintAll(rs[..i])|, |Print(rs[i])|, ExpectOf(rs[i], |PrintAll(rs[..i])|))
  {
    hide Print, ExpectOf, PrintAll;
    if i < |rs| - 1 {
      EntryAt(rs[..|rs| - 1], i);
      assert rs[..|rs| - 1][..i] == rs[..i];
    }
  }

  lemma {:induction false} PrintAllSplit(rs: seq<Request>, i: nat)
    requires i <= |rs|
    ensures PrintAll(rs) == PrintAll(rs[..i]) + PrintAll(rs[i..])
  {
    hide Print;
    if i > 0 {
      PrintAllSplit(rs[1..], i - 1);
      assert rs[1..][..i - 1] == rs[..i][1..] && rs[1..][i - 1..] == rs[i..];
    } else {
      assert rs[0..] == rs;
    }
  }

  // The command printed at the i-th place is reported with the recorded fields.
  lemma PrintedAt(rs: seq<Request>, i: nat)
    requires i < |rs| && ValidRequest(rs[i])
    ensures var data, e := PrintAll(rs), EntriesFor(rs)[i];
      e.start == |PrintAll(rs[..i])| && e.start + e.len == |PrintAll(rs[..i + 1])| <= |data| &&
      FrameOf(data[e.start..]) == Ok(Frame(CommandOf(rs[i]), e.len))
  {
    hide Print, ExpectOf, ValidRequest, CommandOf, FrameOf;
    EntryAt(rs, i);
    PrintAllSplit(rs, i);
    PrintAllSplit(rs, i + 1);
    PrintAllLast(rs[..i], rs[i]);
    assert rs[..i + 1] == rs[..i] + [rs[i]];
    var rest := PrintAll(rs[i + 1..]);
    assert PrintAll(rs[i..]) == Print(rs[i]) + rest;
    assert PrintAll(rs)[|PrintAll(rs[..i])|..] == Print(rs[i]) + rest;
    RoundTrip(rs[i], rest);
  }

  // Recorded offsets point at the fields of the frame.
  lemma FieldsMatch(data: seq<Byte>, start: nat, r: Request)
    requires start + |Print(r)| <= |data|
    ensures var e, cmd := ExpectOf(r, start), CommandOf(r);
      e.keyOff + e.keyLen <= |data| && e.valueOff + e.valueLen <= |data| &&
      Within(cmd.key.value, data[start..]) && (cmd.value.Some? ==> Within(cmd.value.value, data[start..])) &&
      Reported(data, data[start..], e, cmd)
  {
    hide Join, Digits, Words;
    FieldsInside(r);
    var e, cmd := ExpectOf(r, start), CommandOf(r);
    SameBytes(data, start, cmd.key.value);
    if r.SetReq? {
      SameBytes(data, start, cmd.value.value);
    }
  }

  /** The check of a printed command is passed by the reports of its own fields and no others: its kind and key, and
    * for a set the value, flags, expiry and noreply, for a touch the last two, for a delete the last. */
  lemma CheckDecides(data: seq<Byte>, start: nat, r: Request, cmd: Command)
    requires ValidRequest(r) && start + |Print(r)| <= |data| && data[start..start + |Print(r)|] == Print(r)
    requires cmd.key.Some? ==> Within(cmd.key.value, data[start..])
    requires cmd.value.Some? ==> Within(cmd.value.value, data[start..])
    ensures var frame, e := data[start..], ExpectOf(r, start);
      e.keyOff + e.keyLen <= |data| && e.valueOff + e.valueLen <= |data| &&
      (Reported(data, frame, e, cmd) <==>
        cmd.key.Some? && frame[cmd.key.value.at..cmd.key.value.at + cmd.key.value.len] == r.key &&
        match r
        case GetReq(_) => cmd.kind == Get
        case SetReq(_, flags, exptime, value, noreply) =>
          cmd.kind == Set && cmd.flags == flags && cmd.exptime == exptime && cmd.noreply == noreply &&
            cmd.value.Some? && frame[cmd.value.value.at..cmd.value.value.at + cmd.value.value.len] == value
        case DeleteReq(_, noreply) => cmd.kind == Delete && cmd.noreply == noreply
        case TouchReq(_, exptime, noreply) => cmd.kind == Touch && cmd.exptime == exptime && cmd.noreply == noreply)
  {
    hide Join, Digits, Words, Print, ValidRequest;
    OwnBytes(data, start, r);
  }

  // What is recorded for a printed command are the bytes of its key and value.
  lemma OwnBytes(data: seq<Byte>, start: nat, r: Request)
    requires ValidRequest(r) && start + |Print(r)| <= |data| && data[start..start + |Print(r)|] == Print(r)
    ensures var e := ExpectOf(r, start);
      e.keyOff + e.keyLen <= |data| && e.valueOff + e.valueLen <= |data| &&
      data[e.keyOff..e.keyOff + e.keyLen] == r.key &&
      (r.SetReq? ==> data[e.valueOff..e.valueOff + e.valueLen] == r.value)
  {
    hide Join, Digits, Words, Print, ValidRequest;
    FieldsInside(r);
    var frame, own := data[start..], CommandOf(r);
    var rest := frame[|Print(r)|..];
    assert frame[..|Print(r)|] == Print(r);
    assert frame == Print(r) + rest;
    KeyPlace(r, rest);
    SameBytes(data, start, own.key.value);
    if r.SetReq? {
      ValuePlace(r, rest);
      SameBytes(data, start, own.value.value);
    }
  }

  lemma FieldsInside(r: Request)
    ensures var cmd := CommandOf(r);
      cmd.key.value.at + cmd.key.value.len <= |Print(r)| &&
      (cmd.value.Some? ==> cmd.value.value.at + cmd.value.value.len <= |Print(r)|)
  {
    hide Join, Digits, Words;
    LineText(r);
  }

  lemma SameBytes(data: seq<Byte>, start: nat, t: Slice)
    requires start + t.at + t.len <= |data|
    ensures Text(data[start..], t) == data[start + t.at..start + t.at + t.len]
  {
  }

  /** Checking a printed stream command by command finds every field as recorded. */
  method VerifyStream(data: seq<Byte>, wanted: seq<Entry>, ghost rs: seq<Request>) returns (ok: bool)
    requires (forall r | r in rs :: ValidRequest(r)) && data == PrintAll(rs) && wanted == EntriesFor(rs) &&
      |data| <= SIZE_MAX
    ensures ok
  {
    hide FrameOf, PrintAll, EntriesFor, ValidRequest, CommandOf, ExpectOf, Reported, Print;
    var pos := 0;
    PrintAllSplit(rs, 0);
    assert rs[0..] == rs;
    for i := 0 to |wanted|
      invariant pos == |PrintAll(rs[..i])| <= |data|
    {
      PrintedAt(rs, i);
      EntryAt(rs, i);
      FieldsMatch(data, pos, rs[i]);
      var e := wanted[i];
      var r, consumed := ParseCommand(data[pos..]);
      if r.Err? {
        return false;
      }
      if consumed != e.len {
        return false;
      }
      var fine := CheckFields(data, data[pos..], e.fields, r.value.cmd);
      if !fine {
        return false;
      }
      pos := pos + consumed;
    }
    return true;
  }
}
