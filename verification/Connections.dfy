/** Connection buffers: byte queues that grow, and compact lazily, under a hard limit. */
module Connections {
  import opened Bytes

  const DEFAULT_CAP: nat := 4096
  const SSIZE_MAX: nat := 0x7FFF_FFFF_FFFF_FFFF

  datatype Result = Error | Ok | Again | Eof | Full

  /** What the kernel answers to one recv: some of the bytes on offer, end of stream, or a failure. */
  datatype RecvEvent = Data(bytes: seq<Byte>) | Closed | RecvInterrupted | RecvWouldBlock | RecvFailed

  /** What the kernel answers to one send: it accepts up to so many bytes, or fails. */
  datatype SendEvent = Accept(n: nat) | SendInterrupted | SendWouldBlock | SendFailed

  // ---- capacities

  /** The capacity after doubling up to at least `minCap`, under the limit. */
  function Doubled(cap: nat, minCap: nat, max: nat): (c: nat)
    requires 0 < cap <= max && minCap <= max
    ensures cap <= c <= max && minCap <= c
    ensures c == cap || c == max || c >= 2 * cap
    decreases max - cap
  {
    if cap >= minCap then cap else if cap > max / 2 then max else Doubled(2 * cap, minCap, max)
  }

  /** The capacity doubled k times. */
  function Times2(cap: nat, k: nat): nat
    decreases k
  {
    if k == 0 then cap else Times2(2 * cap, k - 1)
  }

  /** After k doublings c is reached: the first that suffices, or the limit because one more would pass it. */
  predicate ReachedBy(c: nat, cap: nat, minCap: nat, max: nat, k: nat) {
    (c == Times2(cap, k) && minCap <= c && (k > 0 ==> Times2(cap, k - 1) < minCap)) ||
    (c == max && Times2(cap, k) < minCap && max < 2 * Times2(cap, k))
  }

  /** The doubled capacity is the first of cap, 2 cap, 4 cap, ... to reach the need, or the limit if the one before
    * it is too small and its double above the limit. */
  lemma {:induction false} DoubledExactly(cap: nat, minCap: nat, max: nat)
    requires 0 < cap <= max && minCap <= max
    ensures exists k: nat :: ReachedBy(Doubled(cap, minCap, max), cap, minCap, max, k)
    decreases max - cap
  {
    var c := Doubled(cap, minCap, max);
    if cap >= minCap || cap > max / 2 {
      assert ReachedBy(c, cap, minCap, max, 0);
    } else {
      DoubledExactly(2 * cap, minCap, max);
      var k: nat :| ReachedBy(c, 2 * cap, minCap, max, k);
      assert ReachedBy(c, cap, minCap, max, k + 1);
    }
  }

  // The capacity wanted for n bytes is more than twice n only if it was so before.
  lemma {:induction false} CapModest(cap: nat, max: nat, grants: seq<bool>, n: nat)
    requires 0 < cap <= max
    ensures CapFor(cap, max, grants, n) == cap || CapFor(cap, max, grants, n) <= 2 * n
    decreases max - cap
  {
    if !(n < cap || cap == max || !Granted(grants)) {
      assert Doubled(cap, cap + 1, max) <= if cap > max / 2 then max else Doubled(2 * cap, cap + 1, max);
      assert cap <= max / 2 ==> Doubled(2 * cap, cap + 1, max) == 2 * cap;
      CapModest(Doubled(cap, cap + 1, max), max, Later(grants), n);
    }
  }

  // Memory requests beyond the recorded answers are granted.
  predicate Granted(grants: seq<bool>) {
    grants == [] || grants[0]
  }

  function Later(grants: seq<bool>): seq<bool> {
    if grants == [] then [] else grants[1..]
  }

  /** The capacity when room for more than n bytes is wanted: a full buffer asks for memory, until it has the room,
    * has reached the limit, or is refused. */
  function CapFor(cap: nat, max: nat, grants: seq<bool>, n: nat): (c: nat)
    requires 0 < cap <= max
    ensures cap <= c <= max
    decreases max - cap
  {
    if n < cap || cap == max || !Granted(grants) then cap
    else CapFor(Doubled(cap, cap + 1, max), max, Later(grants), n)
  }

  // Without a refusal only the limit keeps a buffer from having the room.
  lemma {:induction false} CapGranted(cap: nat, max: nat, grants: seq<bool>, n: nat)
    requires 0 < cap <= max && false !in grants
    ensures n < CapFor(cap, max, grants, n) || CapFor(cap, max, grants, n) == max
    decreases max - cap
  {
    if !(n < cap || cap == max) {
      assert grants != [] ==> grants[0] in grants;
      CapGranted(Doubled(cap, cap + 1, max), max, Later(grants), n);
    }
  }

  // ---- what a receive means

  /** The bytes a script of answers offers. */
  function Offered(script: seq<RecvEvent>): seq<Byte> {
    if script == [] then []
    else (if script[0].Data? then script[0].bytes else []) + Offered(script[1..])
  }

  // A read of no bytes is the end of the stream.
  predicate Stops(event: RecvEvent) {
    event.Closed? || event.RecvWouldBlock? || event.RecvFailed? || event == Data([])
  }

  /** The bytes that come before the first answer that ends the loop. */
  function Flow(script: seq<RecvEvent>): seq<Byte> {
    if script == [] || Stops(script[0]) then []
    else (if script[0].Data? then script[0].bytes else []) + Flow(script[1..])
  }

  // The first answer that ends the loop, and what is left behind it.
  function Stop(script: seq<RecvEvent>): (RecvEvent, seq<RecvEvent>) {
    if script == [] then (RecvWouldBlock, [])
    else if Stops(script[0]) then (script[0], script[1..])
    else Stop(script[1..])
  }

  // What is left of a script once n of its bytes are read.
  function Drop(script: seq<RecvEvent>, n: nat): seq<RecvEvent> {
    if n == 0 || script == [] then script
    else if !script[0].Data? then Drop(script[1..], n)
    else if |script[0].bytes| <= n then Drop(script[1..], n - |script[0].bytes|)
    else [Data(script[0].bytes[n..])] + script[1..]
  }

  function ResultOf(event: RecvEvent): Result {
    if event.RecvWouldBlock? then Again else if event.RecvFailed? then Error else Eof
  }

  datatype Received = Received(result: Result, arrived: seq<Byte>, rest: seq<RecvEvent>, cap: nat)

  /** A receive takes everything up to the first final answer, which decides the result, if the buffer has room for
    * more; else as much as there is room for, and the result is FULL at the limit and an error below it. */
  function RecvSpec(unread: nat, cap: nat, max: nat, script: seq<RecvEvent>, grants: seq<bool>): Received
    requires unread <= cap <= max && 0 < cap
  {
    var flow := Flow(script);
    var c := CapFor(cap, max, grants, unread + |flow|);
    if unread + |flow| < c then Received(ResultOf(Stop(script).0), flow, Stop(script).1, c)
    else Received(if c == max then Full else Error, flow[..c - unread], Drop(script, c - unread), c)
  }

  function Behind(got: seq<Byte>, r: Received): Received {
    r.(arrived := got + r.arrived)
  }

  // A script after its first n bytes, with n within its first answer.
  function Shortened(script: seq<RecvEvent>, n: nat): seq<RecvEvent>
    requires script != [] && script[0].Data? && n <= |script[0].bytes|
  {
    if n == |script[0].bytes| then script[1..] else [Data(script[0].bytes[n..])] + script[1..]
  }

  lemma Skipped(script: seq<RecvEvent>)
    requires script != [] && !script[0].Data?
    ensures Offered(script[1..]) == Offered(script)
  {
  }

  lemma FlowShortened(script: seq<RecvEvent>, n: nat)
    requires script != [] && script[0].Data? && 0 < n <= |script[0].bytes|
    ensures Flow(script) == script[0].bytes[..n] + Flow(Shortened(script, n)) &&
      Stop(script) == Stop(Shortened(script, n))
    ensures Offered(script) == script[0].bytes[..n] + Offered(Shortened(script, n))
  {
    hide Flow, Offered, Stop;
    var bytes := script[0].bytes;
    assert bytes == bytes[..n] + bytes[n..];
    if n < |bytes| {
      StepsTo(Shortened(script, n), bytes[n..], script[1..]);
      Regroup(bytes[..n], bytes[n..], Flow(script[1..]));
      Regroup(bytes[..n], bytes[n..], Offered(script[1..]));
    }
    StepsTo(script, bytes, script[1..]);
  }

  lemma StepsTo(script: seq<RecvEvent>, bytes: seq<Byte>, rest: seq<RecvEvent>)
    requires script == [Data(bytes)] + rest && bytes != []
    ensures Flow(script) == bytes + Flow(rest) && Stop(script) == Stop(rest) && Offered(script) == bytes + Offered(rest)
  {
  }

  lemma Regroup(a: seq<Byte>, b: seq<Byte>, c: seq<Byte>)
    ensures (a + b) + c == a + (b + c)
  {
  }

  lemma DropShortened(script: seq<RecvEvent>, n: nat, m: nat)
    requires script != [] && script[0].Data? && 0 < n <= |script[0].bytes|
    ensures Drop(script, n + m) == Drop(Shortened(script, n), m)
  {
  }

  // Taking n bytes of the first answer leaves the rest of the receive to do.
  lemma ReceiveSome(unread: nat, cap: nat, max: nat, script: seq<RecvEvent>, grants: seq<bool>, n: nat)
    requires unread + n <= cap <= max && 0 < cap && script != [] && script[0].Data? && 0 < n <= |script[0].bytes|
    ensures RecvSpec(unread, cap, max, script, grants) ==
      Behind(script[0].bytes[..n], RecvSpec(unread + n, cap, max, Shortened(script, n), grants))
  {
    hide Flow, Stop, Drop, CapFor, Shortened;
    FlowShortened(script, n);
    var flow, later, c := Flow(script), Flow(Shortened(script, n)), CapFor(cap, max, grants, unread + |Flow(script)|);
    assert unread + |flow| == unread + n + |later|;
    if unread + |flow| >= c {
      DropShortened(script, n, c - unread - n);
      assert flow[..c - unread] == script[0].bytes[..n] + later[..c - unread - n];
    }
  }

  lemma ReceiveInterrupted(unread: nat, cap: nat, max: nat, script: seq<RecvEvent>, grants: seq<bool>)
    requires unread < cap <= max && script != [] && script[0].RecvInterrupted?
    ensures RecvSpec(unread, cap, max, script, grants) == RecvSpec(unread, cap, max, script[1..], grants)
  {
  }

  lemma ReceiveStops(unread: nat, cap: nat, max: nat, script: seq<RecvEvent>, grants: seq<bool>)
    requires unread < cap <= max && (script == [] || Stops(script[0]))
    ensures RecvSpec(unread, cap, max, script, grants) == Received(ResultOf(Stop(script).0), [], Stop(script).1, cap)
  {
  }

  // A full buffer below the limit asks for memory.
  lemma ReceiveGrows(unread: nat, max: nat, script: seq<RecvEvent>, grants: seq<bool>)
    requires 0 < unread <= max
    ensures unread == max ==> RecvSpec(unread, unread, max, script, grants) == Received(Full, [], script, max)
    ensures unread < max && grants != [] && !grants[0] ==>
      RecvSpec(unread, unread, max, script, grants) == Received(Error, [], script, unread)
    ensures unread < max && (grants == [] || grants[0]) ==>
      RecvSpec(unread, unread, max, script, grants) ==
      RecvSpec(unread, Doubled(unread, unread + 1, max), max, script, if grants == [] then [] else grants[1..])
  {
  }

  /** The bytes of all reads. */
  function Concat(pieces: seq<seq<Byte>>): seq<Byte> {
    if pieces == [] then [] else Concat(pieces[..|pieces| - 1]) + pieces[|pieces| - 1]
  }

  lemma NoReads()
    ensures Concat([]) == []
  {
  }

  lemma OneMoreRead(pieces: seq<seq<Byte>>, got: seq<Byte>)
    ensures Concat(pieces + [got]) == Concat(pieces) + got && Concat(pieces) + [] == Concat(pieces)
  {
    assert (pieces + [got])[..|pieces|] == pieces;
  }

  lemma {:induction false} StopOffered(script: seq<RecvEvent>)
    ensures Flow(script) + Offered(Stop(script).1) == Offered(script)
  {
    if script != [] && !Stops(script[0]) {
      StopOffered(script[1..]);
    }
  }

  lemma {:induction false} DropOffered(script: seq<RecvEvent>, n: nat)
    requires n <= |Flow(script)|
    ensures Flow(script)[..n] + Offered(Drop(script, n)) == Offered(script)
  {
    if n > 0 {
      var bytes := if script[0].Data? then script[0].bytes else [];
      if |bytes| <= n {
        DropOffered(script[1..], n - |bytes|);
        assert Flow(script)[..n] == bytes + Flow(script[1..])[..n - |bytes|];
      } else {
        assert bytes == bytes[..n] + bytes[n..];
        assert Flow(script)[..n] == bytes[..n];
      }
    }
  }

  /** No byte is lost or reordered: what arrived and what is left make up what was on offer. FULL means a buffer at
    * the limit with no byte to spare; if memory is granted, that is when the stream has as many bytes as there is
    * room. */
  lemma RecvConserves(unread: nat, cap: nat, max: nat, script: seq<RecvEvent>, grants: seq<bool>)
    requires unread <= cap <= max && 0 < cap
    ensures var r := RecvSpec(unread, cap, max, script, grants);
      r.arrived + Offered(r.rest) == Offered(script) && unread + |r.arrived| <= r.cap <= max &&
      (r.result == Full ==> unread + |r.arrived| == max) &&
      (false !in grants ==> (r.result == Full <==> unread + |Flow(script)| >= max))
  {
    hide Flow, Stop, Drop, CapFor, Offered;
    var n := unread + |Flow(script)|;
    if n < CapFor(cap, max, grants, n) {
      StopOffered(script);
    } else {
      DropOffered(script, CapFor(cap, max, grants, n) - unread);
    }
    if false !in grants {
      CapGranted(cap, max, grants, n);
    }
  }

  // The first answers of a script bring bytes or are interrupted.
  predicate Ordinary(script: seq<RecvEvent>) {
    forall e | e in script :: (e.Data? && e.bytes != []) || e.RecvInterrupted?
  }

  lemma {:induction false} OrdinaryFirst(before: seq<RecvEvent>, tail: seq<RecvEvent>)
    requires Ordinary(before) && (tail == [] || Stops(tail[0]))
    ensures Flow(before + tail) == Offered(before) && Stop(before + tail) == Stop(tail)
  {
    if before == [] {
      assert before + tail == tail;
    } else {
      assert before[0] in before && (before + tail)[0] == before[0] && (before + tail)[1..] == before[1..] + tail;
      OrdinaryFirst(before[1..], tail);
    }
  }

  /** With room for more than the bytes that come before it, the first final answer decides: AGAIN for would-block or
    * when nothing more comes, ERROR for a failure, EOF for a close or an empty read. All bytes before it arrive. */
  lemma RecvByAnswer(unread: nat, cap: nat, max: nat, before: seq<RecvEvent>, tail: seq<RecvEvent>, grants: seq<bool>)
    requires unread <= cap <= max && 0 < cap && Ordinary(before)
    requires unread + |Offered(before)| < cap || (false !in grants && unread + |Offered(before)| < max)
    ensures var r := RecvSpec(unread, cap, max, before + tail, grants);
      (tail == [] ==> r.result == Again && r.arrived == Offered(before) && r.rest == []) &&
      (tail != [] && tail[0].RecvWouldBlock? ==>
        r.result == Again && r.arrived == Offered(before) && r.rest == tail[1..]) &&
      (tail != [] && tail[0].RecvFailed? ==>
        r.result == Error && r.arrived == Offered(before) && r.rest == tail[1..]) &&
      (tail != [] && tail[0].Closed? ==> r.result == Eof && r.arrived == Offered(before) && r.rest == tail[1..]) &&
      (tail != [] && tail[0] == Data([]) ==> r.result == Eof && r.arrived == Offered(before) && r.rest == tail[1..])
  {
    hide Flow, Offered;
    if tail == [] || Stops(tail[0]) {
      OrdinaryFirst(before, tail);
      if false !in grants {
        CapGranted(cap, max, grants, unread + |Offered(before)|);
      }
    }
  }

  // ---- what a flush means

  // As many bytes as one send can report.
  function Share(k: nat): nat {
    if k <= SSIZE_MAX then k else SSIZE_MAX
  }

  /** How many bytes the kernel takes before the first answer that ends the loop. */
  function Willing(script: seq<SendEvent>): nat {
    if script == [] then 0
    else
      match script[0]
      case Accept(k) => if k == 0 then 0 else Share(k) + Willing(script[1..])
      case SendInterrupted => Willing(script[1..])
      case SendWouldBlock => 0
      case SendFailed => 0
  }

  // The script from the first answer that ends the loop.
  function Refusal(script: seq<SendEvent>): seq<SendEvent> {
    if script == [] || script[0] == SendEvent.Accept(0) || script[0].SendWouldBlock? || script[0].SendFailed? then
      script
    else Refusal(script[1..])
  }

  // What is left of a script once it has taken n bytes.
  function AfterSent(script: seq<SendEvent>, n: nat): seq<SendEvent> {
    if n == 0 || script == [] then script
    else if !script[0].Accept? then AfterSent(script[1..], n)
    else AfterSent(script[1..], if Share(script[0].n) < n then n - Share(script[0].n) else 0)
  }

  datatype Flushed = Flushed(result: Result, count: nat, rest: seq<SendEvent>)

  /** A flush succeeds exactly when the kernel takes all that is pending; else it sends what the kernel takes. */
  function FlushSpec(pending: nat, script: seq<SendEvent>): Flushed {
    if pending <= Willing(script) then Flushed(Ok, pending, AfterSent(script, pending))
    else
      var rest := Refusal(script);
      Flushed(if rest == [] || rest[0].SendWouldBlock? then Again else Error, Willing(script), rest)
  }

  function After(n: nat, f: Flushed): Flushed {
    f.(count := n + f.count)
  }

  // One answer of the kernel, with something pending.
  lemma FlushStep(pending: nat, script: seq<SendEvent>)
    requires pending > 0
    ensures script == [] ==> FlushSpec(pending, script) == Flushed(Again, 0, [])
    ensures script != [] ==>
      match script[0]
      case Accept(k) =>
        var most := if k <= 0x7FFF_FFFF_FFFF_FFFF then k else 0x7FFF_FFFF_FFFF_FFFF;
        var n := if most <= pending then most else pending;
        if n == 0 then FlushSpec(pending, script) == Flushed(Error, 0, script)
        else
          var later := FlushSpec(pending - n, script[1..]);
          FlushSpec(pending, script) == After(n, later)
      case SendInterrupted => FlushSpec(pending, script) == FlushSpec(pending, script[1..])
      case SendWouldBlock => FlushSpec(pending, script) == Flushed(Again, 0, script)
      case SendFailed => FlushSpec(pending, script) == Flushed(Error, 0, script)
  {
  }

  // ---- buffers

  /** Grow a buffer by at least `extra`, doubling, up to the limit; the bytes stay. */
  method Grow(buf: array<Byte>, extra: nat, max: nat, granted: bool) returns (ok: bool, grown: array<Byte>)
    requires buf.Length <= max <= SIZE_MAX && DEFAULT_CAP <= max
    ensures ok <==> extra <= max - buf.Length && (extra == 0 || granted)
    ensures if ok && extra > 0 then fresh(grown) else grown == buf
    ensures ok ==> buf.Length + extra <= grown.Length <= max && grown[..buf.Length] == buf[..]
    ensures ok && extra > 0 ==>
      grown.Length == Doubled(if buf.Length != 0 then buf.Length else DEFAULT_CAP, buf.Length + extra, max)
  {
    if extra > max - buf.Length {
      return false, buf;
    }
    if extra == 0 {
      return true, buf;
    }
    var minCap := buf.Length + extra;
    var newCap := if buf.Length != 0 then buf.Length else DEFAULT_CAP;
    while newCap < minCap
      invariant 0 < newCap <= max && buf.Length <= newCap
      invariant Doubled(newCap, minCap, max) ==
        Doubled(if buf.Length != 0 then buf.Length else DEFAULT_CAP, minCap, max)
      decreases max - newCap
    {
      if newCap > max / 2 {
        newCap := max;
        break;
      }
      newCap := newCap * 2;
    }
    if !granted {
      return false, buf;
    }
    grown := new Byte[newCap];
    for i := 0 to buf.Length
      invariant grown[..i] == buf[..i]
    {
      grown[i] := buf[i];
    }
    ok := true;
  }

  // Move the live bytes to the front.
  method Compact(buf: array<Byte>, len: nat, pos: nat) returns (newLen: nat)
    requires pos <= len <= buf.Length
    modifies buf
    ensures newLen == len - pos && buf[..newLen] == old(buf[pos..len])
  {
    if pos == 0 {
      return len;
    }
    newLen := len - pos;
    for i := 0 to newLen
      invariant buf[..i] == old(buf[pos..pos + i])
      invariant forall j | pos + i <= j < len :: buf[j] == old(buf[j])
    {
      buf[i] := buf[pos + i];
    }
  }

  class Conn {
    const max: nat
    var fd: int
    var peerClosed: bool
    var rBuf: array<Byte>
    var rLen: nat
    var rPos: nat
    var wBuf: array<Byte>
    var wLen: nat
    var wPos: nat
    ghost var received: seq<Byte>   // every byte received since the connection was attached
    ghost var consumed: seq<Byte>   // those taken by the parser
    ghost var written: seq<Byte>    // every byte accepted for output
    ghost var sent: seq<Byte>       // those taken by the kernel

    ghost predicate Valid()
      reads this, rBuf, wBuf
    {
      DEFAULT_CAP <= max <= SIZE_MAX && rBuf != wBuf &&
      rPos <= rLen <= rBuf.Length <= max && wPos <= wLen <= wBuf.Length <= max && rBuf.Length > 0 && wBuf.Length > 0 &&
      received == consumed + Unread() && written == sent + Pending()
    }

    function Unread(): seq<Byte>
      requires rPos <= rLen <= rBuf.Length
      reads this`rPos, this`rLen, this`rBuf, rBuf
    {
      rBuf[rPos..rLen]
    }

    function Pending(): seq<Byte>
      requires wPos <= wLen <= wBuf.Length
      reads this`wPos, this`wLen, this`wBuf, wBuf
    {
      wBuf[wPos..wLen]
    }

    // Two empty buffers of the default size, memory granted.
    constructor (max: nat)
      requires DEFAULT_CAP <= max <= SIZE_MAX
      ensures Valid() && this.max == max && fd == -1 && !peerClosed
      ensures rBuf.Length == 4096 && wBuf.Length == 4096
      ensures fresh(rBuf) && fresh(wBuf) && received == [] && written == [] && Unread() == [] && Pending() == []
    {
      var none := new Byte[0];
      var _, r := Grow(none, DEFAULT_CAP, max, true);
      var _, w := Grow(none, DEFAULT_CAP, max, true);
      this.max, fd, peerClosed := max, -1, false;
      rBuf, rLen, rPos, wBuf, wLen, wPos := r, 0, 0, w, 0, 0;
      received, consumed, written, sent := [], [], [], [];
    }

    method Attach(newFd: int) returns (ok: bool)
      requires Valid()
      modifies this
      ensures Valid() && ok == (newFd >= 0 && old(fd) == -1)
      ensures rBuf == old(rBuf) && wBuf == old(wBuf)
      ensures ok ==> fd == newFd && !peerClosed && received == [] && written == [] && Unread() == [] && Pending() == []
      ensures !ok ==>
        fd == old(fd) && peerClosed == old(peerClosed) && received == old(received) && written == old(written)
      ensures !ok ==> consumed == old(consumed) && sent == old(sent)
    {
      if newFd < 0 || fd != -1 {
        return false;
      }
      fd, peerClosed := newFd, false;
      rLen, rPos, wLen, wPos := 0, 0, 0, 0;
      received, consumed, written, sent := [], [], [], [];
      return true;
    }

    // Make room to receive: compact first, then grow; `left` are the grants still to be asked for.
    method MakeRoom(grants: seq<bool>) returns (full: bool, failed: bool, left: seq<bool>)
      requires Valid()
      modifies this`rBuf, this`rLen, this`rPos, rBuf
      ensures Valid() && Unread() == old(Unread()) && (rBuf == old(rBuf) || fresh(rBuf))
      ensures full <==> |old(Unread())| == max
      ensures failed <==> |old(Unread())| == old(rBuf.Length) < max && !Granted(grants)
      ensures if |old(Unread())| == old(rBuf.Length) < max && Granted(grants)
        then rBuf.Length == Doubled(old(rBuf.Length), old(rBuf.Length) + 1, max) && left == Later(grants)
        else rBuf.Length == old(rBuf.Length) && left == grants
      ensures !full && !failed ==> rLen < rBuf.Length
    {
      full, failed, left := false, false, grants;
      if rLen == rBuf.Length {
        rLen := Compact(rBuf, rLen, rPos);
        rPos := 0;
        if rLen == rBuf.Length {
          if rBuf.Length == max {
            full := true;
            return;
          }
          var ok, grown := Grow(rBuf, 1, max, Granted(grants));
          if !ok {
            failed := true;
            return;
          }
          rBuf, left := grown, Later(grants);
        }
      }
    }

    // The receive that is due in this state.
    ghost function Due(script: seq<RecvEvent>, grants: seq<bool>): Received
      requires Valid()
      reads this, rBuf, wBuf
    {
      RecvSpec(|Unread()|, rBuf.Length, max, script, grants)
    }

    // Receive until the kernel has no more, the buffer is full, or something fails. The script holds the kernel's
    // answers, the grants those of the memory allocator to the requests made; a script that runs out would block.
    // `fills` is what each successful read brought, so the reads are no more than the bytes there is room for.
    method Recv(script: seq<RecvEvent>, grants: seq<bool>)
      returns (result: Result, rest: seq<RecvEvent>, ghost fills: seq<seq<Byte>>)
      requires Valid()
      modifies this`rBuf, this`rLen, this`rPos, this`peerClosed, this`received, rBuf
      ensures Valid() && (rBuf == old(rBuf) || fresh(rBuf))
      ensures old(fd < 0 || peerClosed) ==>
        result == (if fd < 0 then Error else Eof) && rest == script &&
        Unread() == old(Unread()) && received == old(received) &&
        rBuf == old(rBuf) && peerClosed == old(peerClosed)
      ensures old(fd >= 0 && !peerClosed) ==>
        var r := old(Due(script, grants));
        result == r.result && rest == r.rest && rBuf.Length == r.cap && peerClosed == (result == Eof) &&
        Unread() == old(Unread()) + r.arrived && received == old(received) + r.arrived
      ensures received == old(received) + Concat(fills) && [] !in fills
      ensures |fills| <= |Concat(fills)| <= max - |old(Unread())|
    {
      hide RecvSpec, Offered, Concat;
      NoReads();
      rest, fills := script, [];
      if fd < 0 {
        result := Error;
        return;
      }
      if peerClosed {
        result := Eof;
        return;
      }
      var left, more := grants, true;
      ghost var arrived := [];
      result := Ok;
      while more
        invariant Valid() && (rBuf == old(rBuf) || fresh(rBuf))
        invariant Unread() == old(Unread()) + arrived && received == old(received) + arrived
        invariant Concat(fills) == arrived && [] !in fills && |fills| <= |arrived|
        invariant more ==> !peerClosed && old(Due(script, grants)) == Behind(arrived, Due(rest, left))
        invariant !more ==> peerClosed == (result == Eof)
        invariant !more ==> old(Due(script, grants)) == Received(result, arrived, rest, rBuf.Length)
        decreases more, |Offered(rest)|, |rest|, max - rBuf.Length
      {
        ghost var got;
        more, result, rest, left, got := RecvOnce(rest, left);
        Regroup(old(Unread()), arrived, got);
        Regroup(old(received), arrived, got);
        Regroup(arrived, got, Due(rest, left).arrived);
        arrived := arrived + got;
        OneMoreRead(fills, got);
        fills := if got != [] then fills + [got] else fills;
      }
    }

    // One turn of the receiving loop.
    method RecvOnce(script: seq<RecvEvent>, grants: seq<bool>)
      returns (more: bool, result: Result, rest: seq<RecvEvent>, left: seq<bool>, ghost got: seq<Byte>)
      requires Valid() && !peerClosed
      modifies this`rBuf, this`rLen, this`rPos, this`peerClosed, this`received, rBuf
      ensures Valid() && (rBuf == old(rBuf) || fresh(rBuf))
      ensures Unread() == old(Unread()) + got && received == old(received) + got
      ensures more ==> !peerClosed && old(Due(script, grants)) == Behind(got, Due(rest, left))
      ensures more ==> |Offered(rest)| < |Offered(script)| || (Offered(rest) == Offered(script) && |rest| < |script|)
      ensures !more ==> peerClosed == (result == Eof) && got == []
      ensures !more ==> old(Due(script, grants)) == Received(result, [], rest, rBuf.Length)
    {
      hide Offered, RecvSpec, Doubled;
      rest, more, result, got := script, false, Ok, [];
      var full, failed;
      if rLen - rPos == rBuf.Length {
        ReceiveGrows(|Unread()|, max, script, grants);
      }
      full, failed, left := MakeRoom(grants);
      if full {
        result := Full;
        return;
      }
      if failed {
        result := Error;
        return;
      }
      var event := if rest == [] then RecvWouldBlock else rest[0];
      if event.Data? && event.bytes != [] {
        rest, got := Accept(rest, left);
        more := true;
        return;
      }
      if event.RecvInterrupted? {
        ReceiveInterrupted(|Unread()|, rBuf.Length, max, script, left);
        Skipped(rest);
        rest, more := rest[1..], true;
        return;
      }
      ReceiveStops(|Unread()|, rBuf.Length, max, script, left);
      rest := if rest == [] then [] else rest[1..];
      if event.RecvWouldBlock? {
        result := Again;
      } else if event.RecvFailed? {
        result := Error;
      } else {
        peerClosed := true;
        result := Eof;
      }
    }

    // One successful read: as many of the bytes on offer as there is room for.
    method Accept(script: seq<RecvEvent>, ghost grants: seq<bool>) returns (rest: seq<RecvEvent>, ghost got: seq<Byte>)
      requires Valid() && rLen < rBuf.Length && script != [] && script[0].Data? && script[0].bytes != []
      modifies this`rLen, this`received, rBuf
      ensures Valid() && got != [] && Unread() == old(Unread()) + got && received == old(received) + got
      ensures |Offered(rest)| < |Offered(script)| && old(Due(script, grants)) == Behind(got, Due(rest, grants))
    {
      hide Offered, RecvSpec;
      var bytes := script[0].bytes;
      var available := rBuf.Length - rLen;
      available := if available > SSIZE_MAX then SSIZE_MAX else available;
      var n := if |bytes| <= available then |bytes| else available;
      ReceiveSome(|Unread()|, rBuf.Length, max, script, grants, n);
      FlowShortened(script, n);
      got := bytes[..n];
      Deliver(bytes[..n]);
      rest := Shortened(script, n);
    }

    // The kernel puts bytes behind those received.
    method Deliver(bytes: seq<Byte>)
      requires Valid() && |bytes| <= rBuf.Length - rLen
      modifies this`rLen, this`received, rBuf
      ensures Valid() && Unread() == old(Unread()) + bytes && received == old(received) + bytes &&
        rLen == old(rLen) + |bytes|
    {
      for i := 0 to |bytes|
        modifies rBuf
        invariant rBuf[..rLen + i] == old(rBuf[..rLen]) + bytes[..i]
      {
        rBuf[rLen + i] := bytes[i];
      }
      rLen := rLen + |bytes|;
      received := received + bytes;
    }

    // The parser is done with `count` bytes.
    method Consume(count: nat) returns (ok: bool)
      requires Valid()
      modifies this`rPos, this`rLen, this`consumed
      ensures Valid() && ok == (count <= |old(Unread())|)
      ensures ok ==> Unread() == old(Unread())[count..] && consumed == old(consumed) + old(Unread())[..count]
      ensures !ok ==> Unread() == old(Unread()) && consumed == old(consumed)
    {
      if count > rLen - rPos {
        return false;
      }
      consumed := consumed + Unread()[..count];
      rPos := rPos + count;
      if rPos == rLen {
        rPos, rLen := 0, 0;
      }
      return true;
    }

    // A queue of that size is within the limit, and within the buffer or the memory granted.
    predicate Accepts(size: nat, capacity: nat, granted: bool) {
      size <= max && (granted || size <= capacity)
    }

    // The capacity of the output buffer after a write that leaves so many bytes pending.
    function WriteCap(size: nat, capacity: nat, ok: bool): nat
      requires 0 < capacity <= max
    {
      if ok && capacity < size <= max then Doubled(capacity, size, max) else capacity
    }

    // Queue bytes for output; `granted` is the memory allocator's answer if it is asked.
    method Write(data: seq<Byte>, granted: bool) returns (ok: bool)
      requires Valid()
      modifies this`wBuf, this`wLen, this`wPos, this`written, wBuf
      ensures Valid() && (wBuf == old(wBuf) || fresh(wBuf))
      ensures ok <==>
        data == [] ||
        (|old(Pending())| + |data| <= max && (granted || |old(Pending())| + |data| <= old(wBuf.Length)))
      ensures Pending() == old(Pending()) + (if ok then data else []) &&
        written == old(written) + (if ok then data else [])
      ensures wBuf.Length == WriteCap(|old(Pending())| + |data|, old(wBuf.Length), ok)
    {
      if |data| == 0 {
        return true;
      }
      var pending := wLen - wPos;
      if |data| > max - pending {
        return false;
      }
      var room := Reserve(|data|, granted);
      if !room {
        return false;
      }
      Queue(data);
      return true;
    }

    // Make room to queue: compact first, then grow.
    method Reserve(len: nat, granted: bool) returns (ok: bool)
      requires Valid() && |Pending()| + len <= max
      modifies this`wBuf, this`wLen, this`wPos, wBuf
      ensures Valid() && Pending() == old(Pending()) && (wBuf == old(wBuf) || fresh(wBuf))
      ensures ok == Accepts(|old(Pending())| + len, old(wBuf.Length), granted) && (ok ==> len <= wBuf.Length - wLen)
      ensures wBuf.Length == WriteCap(|old(Pending())| + len, old(wBuf.Length), ok)
    {
      if len > wBuf.Length - wLen {
        wLen := Compact(wBuf, wLen, wPos);
        wPos := 0;
        var available := wBuf.Length - wLen;
        if len > available {
          var grew, grown := Grow(wBuf, len - available, max, granted);
          if !grew {
            return false;
          }
          wBuf := grown;
        }
      }
      return true;
    }

    method Queue(data: seq<Byte>)
      requires Valid() && |data| <= wBuf.Length - wLen
      modifies this`wLen, this`written, wBuf
      ensures Valid() && Pending() == old(Pending()) + data && written == old(written) + data
    {
      for i := 0 to |data|
        modifies wBuf
        invariant wBuf[..wLen + i] == old(wBuf[..wLen]) + data[..i]
      {
        wBuf[wLen + i] := data[i];
      }
      wLen := wLen + |data|;
      written := written + data;
    }

    // The kernel took the first n pending bytes; `gone` are those of `all` it took before.
    method Sent(n: nat, ghost before: seq<Byte>, ghost all: seq<Byte>, ghost gone: seq<Byte>)
      returns (ghost more: seq<Byte>)
      requires Valid() && n <= |Pending()| && sent == before + gone && all == gone + Pending()
      modifies this`wPos, this`sent
      ensures Valid() && wPos == old(wPos) + n && |Pending()| == |old(Pending())| - n
      ensures |more| == |gone| + n && sent == before + more && all == more + Pending()
    {
      more := gone + Pending()[..n];
      sent := sent + Pending()[..n];
      wPos := wPos + n;
    }

    // Send until nothing is pending, the kernel takes no more, or something fails; the script holds the kernel's
    // answers.
    method Flush(script: seq<SendEvent>) returns (result: Result, rest: seq<SendEvent>)
      requires Valid()
      modifies this`wLen, this`wPos, this`sent
      ensures Valid()
      ensures fd < 0 ==> result == Error && rest == script && sent == old(sent) && Pending() == old(Pending())
      ensures fd >= 0 ==>
        var f := FlushSpec(|old(Pending())|, script);
        result == f.result && rest == f.rest && f.count <= |old(Pending())| &&
        sent == old(sent) + old(Pending())[..f.count] && Pending() == old(Pending())[f.count..]
    {
      hide FlushSpec;
      rest := script;
      if fd < 0 {
        return Error, rest;
      }
      ghost var gone := [];
      while wPos < wLen
        invariant Valid() && wLen == old(wLen) && sent == old(sent) + gone && old(Pending()) == gone + Pending()
        invariant FlushSpec(|old(Pending())|, script) == After(|gone|, FlushSpec(|Pending()|, rest))
        decreases |rest|, wLen - wPos
      {
        FlushStep(|Pending()|, rest);
        var remaining := wLen - wPos;
        remaining := if remaining > SSIZE_MAX then SSIZE_MAX else remaining;
        var event := if rest == [] then SendWouldBlock else rest[0];
        match event {
          case Accept(k) =>
            var n := if k <= remaining then k else remaining;
            if n == 0 {
              return Error, rest;
            }
            gone := Sent(n, old(sent), old(Pending()), gone);
            rest := rest[1..];
          case SendInterrupted =>
            rest := rest[1..];
          case SendWouldBlock =>
            return Again, rest;
          case SendFailed =>
            return Error, rest;
        }
      }
      FlushDone(rest);
      wPos, wLen := 0, 0;
      return Ok, rest;
    }

    lemma FlushDone(script: seq<SendEvent>)
      ensures FlushSpec(0, script) == Flushed(Ok, 0, script)
    {
    }
  }

  // ---- runs

  datatype Op =
    | RecvOp(incoming: seq<RecvEvent>, grants: seq<bool>)
    | ConsumeOp(count: nat)
    | WriteOp(data: seq<Byte>, granted: bool)
    | FlushOp(outgoing: seq<SendEvent>)

  /** How an operation ended, with the bytes it moved and what it left of its script. */
  datatype Outcome =
    | Recvd(result: Result, arrived: seq<Byte>, left: seq<RecvEvent>)
    | Consumed(ok: bool, taken: seq<Byte>)
    | Wrote(ok: bool)
    | Sent(result: Result, gone: seq<Byte>, unasked: seq<SendEvent>)

  /** A connection as two queues and two capacities. */
  datatype View = View(max: nat, open: bool, closed: bool, unread: seq<Byte>, rCap: nat, pending: seq<Byte>, wCap: nat)

  predicate Bounded(v: View) {
    |v.unread| <= v.rCap <= v.max && |v.pending| <= v.wCap <= v.max && 0 < v.rCap && 0 < v.wCap
  }

  function RecvStep(v: View, script: seq<RecvEvent>, grants: seq<bool>): (View, Outcome)
    requires Bounded(v)
  {
    if !v.open then (v, Recvd(Error, [], script))
    else if v.closed then (v, Recvd(Eof, [], script))
    else
      var r := RecvSpec(|v.unread|, v.rCap, v.max, script, grants);
      (v.(unread := v.unread + r.arrived, rCap := r.cap, closed := r.result == Eof), Recvd(r.result, r.arrived, r.rest))
  }

  function ConsumeStep(v: View, count: nat): (View, Outcome) {
    if count <= |v.unread| then (v.(unread := v.unread[count..]), Consumed(true, v.unread[..count]))
    else (v, Consumed(false, []))
  }

  function WriteStep(v: View, data: seq<Byte>, granted: bool): (View, Outcome)
    requires Bounded(v)
  {
    var size := |v.pending| + |data|;
    if data == [] then (v, Wrote(true))
    else if size > v.max || (size > v.wCap && !granted) then (v, Wrote(false))
    else (v.(pending := v.pending + data, wCap := Doubled(v.wCap, size, v.max)), Wrote(true))
  }

  function FlushStepOf(v: View, script: seq<SendEvent>): (View, Outcome) {
    if !v.open then (v, Sent(Error, [], script))
    else
      var f := FlushSpec(|v.pending|, script);
      if f.count <= |v.pending| then (v.(pending := v.pending[f.count..]), Sent(f.result, v.pending[..f.count], f.rest))
      else (v, Sent(f.result, [], f.rest))
  }

  /** What an operation does to the queues, and its outcome. */
  function StepOf(v: View, op: Op): (View, Outcome)
    requires Bounded(v)
  {
    match op
    case RecvOp(script, grants) => RecvStep(v, script, grants)
    case ConsumeOp(count) => ConsumeStep(v, count)
    case WriteOp(data, granted) => WriteStep(v, data, granted)
    case FlushOp(script) => FlushStepOf(v, script)
  }

  /** The literal outcomes of the operations whose success depends on sizes or on the connection's state. */
  lemma OutcomesExactly(v: View, op: Op)
    requires Bounded(v)
    ensures op.ConsumeOp? ==>
      StepOf(v, op).1 ==
      if op.count <= |v.unread| then Consumed(true, v.unread[..op.count]) else Consumed(false, [])
    ensures op.WriteOp? ==>
      StepOf(v, op).1 ==
      Wrote(op.data == [] || (|v.pending| + |op.data| <= v.max && (op.granted || |v.pending| + |op.data| <= v.wCap)))
    ensures op.RecvOp? && !v.open ==> StepOf(v, op).1 == Recvd(Error, [], op.incoming)
    ensures op.RecvOp? && v.open && v.closed ==> StepOf(v, op).1 == Recvd(Eof, [], op.incoming)
    ensures op.FlushOp? && !v.open ==> StepOf(v, op).1 == Sent(Error, [], op.outgoing)
  {
  }

  lemma StepBounded(v: View, op: Op)
    requires Bounded(v)
    ensures Bounded(StepOf(v, op).0) && StepOf(v, op).0.max == v.max
  {
    if op.RecvOp? {
      RecvConserves(|v.unread|, v.rCap, v.max, op.incoming, op.grants);
    }
  }

  function StepsOf(v: View, ops: seq<Op>): (View, seq<Outcome>)
    requires Bounded(v)
    decreases |ops|
  {
    if ops == [] then (v, [])
    else
      StepBounded(v, ops[0]);
      var (v1, out) := StepOf(v, ops[0]);
      var (v2, outs) := StepsOf(v1, ops[1..]);
      (v2, [out] + outs)
  }

  // ---- what went through

  /** The data of every write that succeeded. */
  function Accepted(ops: seq<Op>, outs: seq<Outcome>): seq<Byte>
    requires |ops| == |outs|
  {
    if ops == [] then []
    else (if ops[0].WriteOp? && outs[0] == Wrote(true) then ops[0].data else []) + Accepted(ops[1..], outs[1..])
  }

  /** The bytes the kernel took in every flush. */
  function Gone(outs: seq<Outcome>): seq<Byte> {
    if outs == [] then [] else (if outs[0].Sent? then outs[0].gone else []) + Gone(outs[1..])
  }

  /** The bytes every receive took from its script. */
  function Arrived(outs: seq<Outcome>): seq<Byte> {
    if outs == [] then [] else (if outs[0].Recvd? then outs[0].arrived else []) + Arrived(outs[1..])
  }

  /** The bytes every successful consume removed. */
  function Taken(outs: seq<Outcome>): seq<Byte> {
    if outs == [] then [] else (if outs[0].Consumed? then outs[0].taken else []) + Taken(outs[1..])
  }

  // One operation moves bytes through the queues and keeps their order.
  lemma StepConserves(v: View, op: Op)
    requires Bounded(v)
    ensures var (w, out) := StepOf(v, op);
      Gone([out]) + w.pending == v.pending + Accepted([op], [out]) &&
      Taken([out]) + w.unread == v.unread + Arrived([out])
  {
  }

  /** Over any run, what was sent and then what is pending is the data of all accepted writes in order; what was
    * consumed and then what is unread is all bytes received in order. */
  lemma {:induction false} RunConserves(v: View, ops: seq<Op>)
    requires Bounded(v)
    ensures var (w, outs) := StepsOf(v, ops);
      |outs| == |ops| && Bounded(w) && w.max == v.max &&
      Gone(outs) + w.pending == v.pending + Accepted(ops, outs) && Taken(outs) + w.unread == v.unread + Arrived(outs)
    decreases |ops|
  {
    hide StepOf, Bounded;
    if ops != [] {
      var (v1, out) := StepOf(v, ops[0]);
      StepBounded(v, ops[0]);
      StepConserves(v, ops[0]);
      RunConserves(v1, ops[1..]);
      var (w, outs) := StepsOf(v1, ops[1..]);
      Outputs(ops, out, outs);
      Chain(Gone([out]), v1.pending, v.pending, Accepted([ops[0]], [out]), Gone(outs), w.pending,
        Accepted(ops[1..], outs));
      Chain(Taken([out]), v1.unread, v.unread, Arrived([out]), Taken(outs), w.unread, Arrived(outs));
    }
  }

  lemma Outputs(ops: seq<Op>, out: Outcome, outs: seq<Outcome>)
    requires |ops| == |outs| + 1
    ensures Gone([out] + outs) == Gone([out]) + Gone(outs) && Taken([out] + outs) == Taken([out]) + Taken(outs)
    ensures Arrived([out] + outs) == Arrived([out]) + Arrived(outs)
    ensures Accepted(ops, [out] + outs) == Accepted([ops[0]], [out]) + Accepted(ops[1..], outs)
  {
    hide Gone, Taken, Arrived, Accepted;
    Single(ops[0], out);
    OneMore(ops, out, outs);
  }

  lemma OneMore(ops: seq<Op>, out: Outcome, outs: seq<Outcome>)
    requires |ops| == |outs| + 1
    ensures Gone([out] + outs) == (if out.Sent? then out.gone else []) + Gone(outs)
    ensures Taken([out] + outs) == (if out.Consumed? then out.taken else []) + Taken(outs)
    ensures Arrived([out] + outs) == (if out.Recvd? then out.arrived else []) + Arrived(outs)
    ensures Accepted(ops, [out] + outs) ==
      (if ops[0].WriteOp? && out == Wrote(true) then ops[0].data else []) + Accepted(ops[1..], outs)
  {
    assert ([out] + outs)[1..] == outs;
  }

  // Two conserving steps make one.
  lemma Chain(gone: seq<Byte>, mid: seq<Byte>, first: seq<Byte>, add: seq<Byte>, gone2: seq<Byte>, last: seq<Byte>,
    add2: seq<Byte>)
    requires gone + mid == first + add && gone2 + last == mid + add2
    ensures (gone + gone2) + last == first + (add + add2)
  {
    Regroup(gone, gone2, last);
    Regroup(gone, mid, add2);
    Regroup(first, add, add2);
  }

  // ---- the connection runs so

  ghost function ViewOf(c: Conn): (v: View)
    requires c.Valid()
    reads c, c.rBuf, c.wBuf
    ensures Bounded(v)
  {
    View(c.max, c.fd >= 0, c.peerClosed, c.Unread(), c.rBuf.Length, c.Pending(), c.wBuf.Length)
  }

  lemma Single(op: Op, out: Outcome)
    ensures Gone([out]) == (if out.Sent? then out.gone else []) &&
      Taken([out]) == (if out.Consumed? then out.taken else [])
    ensures Arrived([out]) == if out.Recvd? then out.arrived else []
    ensures Accepted([op], [out]) == if op.WriteOp? && out == Wrote(true) then op.data else []
  {
  }

  // The histories grow by what the outcome tells.
  twostate predicate Logged(c: Conn, op: Op, out: Outcome)
    reads c
  {
    c.sent == old(c.sent) + Gone([out]) && c.consumed == old(c.consumed) + Taken([out]) &&
    c.written == old(c.written) + Accepted([op], [out]) && c.received == old(c.received) + Arrived([out])
  }

  method PerformRecv(c: Conn, script: seq<RecvEvent>, grants: seq<bool>) returns (out: Outcome)
    requires c.Valid()
    modifies c, c.rBuf, c.wBuf
    ensures c.Valid() && (c.rBuf == old(c.rBuf) || fresh(c.rBuf)) && (c.wBuf == old(c.wBuf) || fresh(c.wBuf))
    ensures (ViewOf(c), out) == RecvStep(old(ViewOf(c)), script, grants)
    ensures Logged(c, RecvOp(script, grants), out)
  {
    hide RecvSpec, Gone, Taken, Arrived, Accepted;
    var before := |c.Unread()|;
    var result, rest, _ := c.Recv(script, grants);
    out := Recvd(result, c.Unread()[before..], rest);
    Single(RecvOp(script, grants), out);
  }

  method PerformConsume(c: Conn, count: nat) returns (out: Outcome)
    requires c.Valid()
    modifies c, c.rBuf, c.wBuf
    ensures c.Valid() && (c.rBuf == old(c.rBuf) || fresh(c.rBuf)) && (c.wBuf == old(c.wBuf) || fresh(c.wBuf))
    ensures (ViewOf(c), out) == ConsumeStep(old(ViewOf(c)), count)
    ensures Logged(c, ConsumeOp(count), out)
  {
    var unread := c.Unread();
    hide Gone, Taken, Arrived, Accepted;
    ghost var step := ConsumeStep(ViewOf(c), count);
    Single(ConsumeOp(count), step.1);
    var ok := c.Consume(count);
    assert ViewOf(c) == step.0;
    if ok {
      out := Consumed(true, unread[..count]);
    } else {
      out := Consumed(false, []);
    }
  }

  method PerformWrite(c: Conn, data: seq<Byte>, granted: bool) returns (out: Outcome)
    requires c.Valid()
    modifies c, c.rBuf, c.wBuf
    ensures c.Valid() && (c.rBuf == old(c.rBuf) || fresh(c.rBuf)) && (c.wBuf == old(c.wBuf) || fresh(c.wBuf))
    ensures (ViewOf(c), out) == WriteStep(old(ViewOf(c)), data, granted)
    ensures Logged(c, WriteOp(data, granted), out)
  {
    hide Gone, Taken, Arrived, Accepted, Doubled;
    ghost var v := ViewOf(c);
    ghost var step := WriteStep(v, data, granted);
    Single(WriteOp(data, granted), step.1);
    NothingAdded(v.pending);
    NoGrowth(v);
    var ok := c.Write(data, granted);
    assert ok == step.1.ok && ViewOf(c) == step.0;
    out := Wrote(ok);
  }

  lemma NothingAdded(s: seq<Byte>)
    ensures s + [] == s
  {
  }

  lemma NoGrowth(v: View)
    requires Bounded(v)
    ensures forall size: nat | size <= v.wCap :: Doubled(v.wCap, size, v.max) == v.wCap
  {
  }

  method PerformFlush(c: Conn, script: seq<SendEvent>) returns (out: Outcome)
    requires c.Valid()
    modifies c, c.rBuf, c.wBuf
    ensures c.Valid() && (c.rBuf == old(c.rBuf) || fresh(c.rBuf)) && (c.wBuf == old(c.wBuf) || fresh(c.wBuf))
    ensures (ViewOf(c), out) == FlushStepOf(old(ViewOf(c)), script)
    ensures Logged(c, FlushOp(script), out)
  {
    hide FlushSpec, Gone, Taken, Arrived, Accepted;
    var pending := c.Pending();
    ghost var step := FlushStepOf(ViewOf(c), script);
    Single(FlushOp(script), step.1);
    var result, rest := c.Flush(script);
    assert ViewOf(c) == step.0;
    if c.fd < 0 {
      out := Sent(result, [], rest);
    } else {
      out := Sent(result, pending[..|pending| - |c.Pending()|], rest);
    }
  }

  method Perform(c: Conn, op: Op) returns (out: Outcome)
    requires c.Valid()
    modifies c, c.rBuf, c.wBuf
    ensures c.Valid() && (c.rBuf == old(c.rBuf) || fresh(c.rBuf)) && (c.wBuf == old(c.wBuf) || fresh(c.wBuf))
    ensures (ViewOf(c), out) == StepOf(old(ViewOf(c)), op)
    ensures Logged(c, op, out)
  {
    hide RecvStep, ConsumeStep, WriteStep, FlushStepOf, ViewOf, Logged;
    match op {
      case RecvOp(script, grants) => out := PerformRecv(c, script, grants);
      case ConsumeOp(count) => out := PerformConsume(c, count);
      case WriteOp(data, granted) => out := PerformWrite(c, data, granted);
      case FlushOp(script) => out := PerformFlush(c, script);
    }
  }

  /** Any run over a connection: its outcomes are those of the two queues, and the bytes the kernel and the parser saw
    * are the ones these outcomes tell. */
  method Run(c: Conn, ops: seq<Op>) returns (outs: seq<Outcome>)
    requires c.Valid()
    modifies c, c.rBuf, c.wBuf
    ensures c.Valid() && |outs| == |ops| && (ViewOf(c), outs) == StepsOf(old(ViewOf(c)), ops)
    ensures c.sent == old(c.sent) + Gone(outs) && c.consumed == old(c.consumed) + Taken(outs)
    ensures c.written == old(c.written) + Accepted(ops, outs) && c.received == old(c.received) + Arrived(outs)
    ensures Gone(outs) + c.Pending() == old(c.Pending()) + Accepted(ops, outs)
    ensures Taken(outs) + c.Unread() == old(c.Unread()) + Arrived(outs)
    decreases |ops|
  {
    hide StepOf, Bounded, ViewOf, Gone, Taken, Arrived, Accepted;
    ghost var v := ViewOf(c);
    RunConserves(v, ops);
    Queues(c);
    Nothing();
    if ops == [] {
      return [];
    }
    var out := Perform(c, ops[0]);
    outs := Run(c, ops[1..]);
    Queues(c);
    Outputs(ops, out, outs);
    Regroup(old(c.sent), Gone([out]), Gone(outs));
    Regroup(old(c.consumed), Taken([out]), Taken(outs));
    Regroup(old(c.written), Accepted([ops[0]], [out]), Accepted(ops[1..], outs));
    Regroup(old(c.received), Arrived([out]), Arrived(outs));
    outs := [out] + outs;
  }

  lemma Nothing()
    ensures Gone([]) == [] && Taken([]) == [] && Arrived([]) == [] && Accepted([], []) == []
  {
  }

  lemma Queues(c: Conn)
    requires c.Valid()
    ensures ViewOf(c).pending == c.Pending() && ViewOf(c).unread == c.Unread()
  {
  }
}
