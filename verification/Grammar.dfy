/** The accepted and the rejected bytes, described byte by byte, and the parser's agreement with that. */
module Grammar {
  import opened Bytes
  import opened Numbers
  import opened Tokens
  import opened Protocol

  // ---- words

  /** The word is this name, character by character. */
  predicate Spells(w: seq<Byte>, name: string) {
    |w| == |name| && forall i | 0 <= i < |w| :: w[i] == name[i] as nat
  }

  /** The command that a first word names. */
  predicate Names(w: seq<Byte>, kind: Kind) {
    match kind
    case Get => Spells(w, "get")
    case Set => Spells(w, "set")
    case Delete => Spells(w, "delete")
    case Touch => Spells(w, "touch")
    case Version => Spells(w, "version")
    case Quit => Spells(w, "quit")
  }

  /** One to 250 bytes above a blank, none of them DEL. */
  predicate GoodKey(k: seq<Byte>) {
    1 <= |k| <= 250 && forall i | 0 <= i < |k| :: k[i] > 32 && k[i] != 127
  }

  /** A decimal number up to 2^32 - 1. */
  predicate Uint32(s: seq<Byte>) {
    IsNumber(s) && Value(s) <= 0xFFFF_FFFF
  }

  /** A decimal number up to 2^64 - 1. */
  predicate Uint64(s: seq<Byte>) {
    IsNumber(s) && Value(s) <= 0xFFFF_FFFF_FFFF_FFFF
  }

  predicate Inside(line: seq<Byte>, ts: seq<Slice>) {
    forall t | t in ts :: Within(t, line)
  }

  function Word(line: seq<Byte>, ts: seq<Slice>, i: nat): seq<Byte>
    requires Inside(line, ts) && i < |ts|
  {
    assert ts[i] in ts;
    line[ts[i].at..ts[i].at + ts[i].len]
  }

  /** So many words, and then "noreply" if so flagged. */
  predicate Ends(line: seq<Byte>, ts: seq<Slice>, count: nat, noreply: bool)
    requires Inside(line, ts)
  {
    if noreply then |ts| == count + 1 && Spells(Word(line, ts, count), "noreply") else |ts| == count
  }

  // ---- accepted lines

  /** The line reads as this command: its first word names the kind, and the others are its fields. */
  predicate Reads(line: seq<Byte>, cmd: Command) {
    var ts := TokensOf(line, 0, |line|);
    ts != [] && Names(Word(line, ts, 0), cmd.kind) && ReadsWords(line, ts, cmd)
  }

  predicate ReadsWords(line: seq<Byte>, ts: seq<Slice>, cmd: Command)
    requires Inside(line, ts)
  {
    match cmd.kind
    case Get => ReadsGet(line, ts, cmd)
    case Set => ReadsSet(line, ts, cmd)
    case Delete => ReadsDelete(line, ts, cmd)
    case Touch => ReadsTouch(line, ts, cmd)
    case Version => |ts| == 1 && cmd == Command(Version, None, 0, None, 0, 0, 0, false)
    case Quit => |ts| == 1 && cmd == Command(Quit, None, 0, None, 0, 0, 0, false)
  }

  predicate ReadsGet(line: seq<Byte>, ts: seq<Slice>, cmd: Command)
    requires Inside(line, ts)
  {
    |ts| > 1 && (forall i | 1 <= i < |ts| :: GoodKey(Word(line, ts, i))) &&
    cmd == Command(Get, Some(ts[1]), |line|, None, 0, 0, 0, false)
  }

  predicate ReadsSet(line: seq<Byte>, ts: seq<Slice>, cmd: Command)
    requires Inside(line, ts)
  {
    Ends(line, ts, 5, cmd.noreply) && GoodKey(Word(line, ts, 1)) &&
    Uint32(Word(line, ts, 2)) && cmd.flags == Value(Word(line, ts, 2)) &&
    Uint32(Word(line, ts, 3)) && cmd.exptime == Value(Word(line, ts, 3)) &&
    Uint64(Word(line, ts, 4)) && cmd.valueLen == Value(Word(line, ts, 4)) &&
    cmd.key == Some(ts[1]) && cmd.keysEnd == ts[1].at + ts[1].len && cmd.value == None
  }

  predicate ReadsDelete(line: seq<Byte>, ts: seq<Slice>, cmd: Command)
    requires Inside(line, ts)
  {
    Ends(line, ts, 2, cmd.noreply) && GoodKey(Word(line, ts, 1)) &&
    cmd == Command(Delete, Some(ts[1]), ts[1].at + ts[1].len, None, 0, 0, 0, cmd.noreply)
  }

  predicate ReadsTouch(line: seq<Byte>, ts: seq<Slice>, cmd: Command)
    requires Inside(line, ts)
  {
    Ends(line, ts, 3, cmd.noreply) && GoodKey(Word(line, ts, 1)) &&
    Uint32(Word(line, ts, 2)) && cmd.exptime == Value(Word(line, ts, 2)) &&
    cmd == Command(Touch, Some(ts[1]), ts[1].at + ts[1].len, None, 0, 0, cmd.exptime, cmd.noreply)
  }

  // ---- rejected lines

  /** The number of words is right, "noreply" counted where it may stand. */
  predicate Complete(line: seq<Byte>, ts: seq<Slice>, kind: Kind)
    requires Inside(line, ts)
  {
    match kind
    case Get => |ts| > 1
    case Set => Ends(line, ts, 5, false) || Ends(line, ts, 5, true)
    case Delete => Ends(line, ts, 2, false) || Ends(line, ts, 2, true)
    case Touch => Ends(line, ts, 3, false) || Ends(line, ts, 3, true)
    case Version => |ts| == 1
    case Quit => |ts| == 1
  }

  /** The i-th word is a get's first bad key. */
  predicate FirstBad(line: seq<Byte>, ts: seq<Slice>, i: nat)
    requires Inside(line, ts)
  {
    1 <= i < |ts| && !GoodKey(Word(line, ts, i)) && forall j | 1 <= j < i :: GoodKey(Word(line, ts, j))
  }

  /** The line reads as a complete set, delete or touch up to its key. */
  predicate Keyed(line: seq<Byte>, ts: seq<Slice>, kind: Kind)
    requires Inside(line, ts)
  {
    (kind.Set? || kind.Delete? || kind.Touch?) && ts != [] && Names(Word(line, ts, 0), kind) && Complete(line, ts, kind)
  }

  // Up to its key, and that is good.
  predicate KeyedWell(line: seq<Byte>, ts: seq<Slice>, kind: Kind)
    requires Inside(line, ts)
  {
    Keyed(line, ts, kind) && GoodKey(Word(line, ts, 1))
  }

  /** The error of a line, in the order in which its words are looked at. */
  ghost predicate Rejects(line: seq<Byte>, e: Error) {
    var ts := TokensOf(line, 0, |line|);
    RejectsWords(line, ts, e)
  }

  ghost predicate RejectsWords(line: seq<Byte>, ts: seq<Slice>, e: Error)
    requires Inside(line, ts)
  {
    match e
    case InvalidCommand => ts == [] || (|ts| <= 6 && forall kind :: !Names(Word(line, ts, 0), kind))
    case InvalidArguments =>
      ts != [] &&
      if Names(Word(line, ts, 0), Get) then
        |ts| == 1 || exists i: nat :: FirstBad(line, ts, i) && |Word(line, ts, i)| <= 250
      else
        |ts| > 6 || exists kind ::
          Names(Word(line, ts, 0), kind) &&
          (!Complete(line, ts, kind) ||
           (Keyed(line, ts, kind) && !GoodKey(Word(line, ts, 1)) && |Word(line, ts, 1)| <= 250))
    case KeyTooLong =>
      ts != [] &&
      if Names(Word(line, ts, 0), Get) then exists i: nat :: FirstBad(line, ts, i) && |Word(line, ts, i)| > 250
      else exists kind :: Keyed(line, ts, kind) && |Word(line, ts, 1)| > 250
    case InvalidFlags => KeyedWell(line, ts, Set) && !Uint32(Word(line, ts, 2))
    case InvalidExptime =>
      (KeyedWell(line, ts, Set) && Uint32(Word(line, ts, 2)) && !Uint32(Word(line, ts, 3))) ||
      (KeyedWell(line, ts, Touch) && !Uint32(Word(line, ts, 2)))
    case InvalidValueLength =>
      KeyedWell(line, ts, Set) && Uint32(Word(line, ts, 2)) && Uint32(Word(line, ts, 3)) && !Uint64(Word(line, ts, 4))
    case _ => false
  }

  // ---- the parser's own words

  lemma NamesSpelled(w: seq<Byte>, kind: Kind)
    ensures KindOf(w) == Some(kind) <==> Names(w, kind)
  {
    SpelledGet(w);
    SpelledOthers(w);
    match kind
    case Get =>
    case Set =>
    case Delete =>
    case Touch =>
    case Version =>
    case Quit =>
  }

  lemma SpelledGet(w: seq<Byte>)
    ensures w == GET <==> Spells(w, "get")
    ensures w == SET <==> Spells(w, "set")
    ensures w == QUIT <==> Spells(w, "quit")
  {
  }

  lemma SpelledOthers(w: seq<Byte>)
    ensures w == TOUCH <==> Spells(w, "touch")
    ensures w == DELETE <==> Spells(w, "delete")
    ensures w == VERSION <==> Spells(w, "version")
    ensures w == NOREPLY <==> Spells(w, "noreply")
  {
  }

  lemma KeysGood(k: seq<Byte>)
    ensures ValidKey(k) <==> GoodKey(k)
    ensures k != [] && !GoodKey(k) ==> KeyError(k) == if |k| > 250 then KeyTooLong else InvalidArguments
  {
    assert forall i | 0 <= i < |k| :: IsKeyByte(k[i]) <==> k[i] > 32 && k[i] != 127;
  }

  lemma ArityComplete(line: seq<Byte>, ts: seq<Slice>, kind: Kind)
    requires Inside(line, ts) && !kind.Get?
    ensures Arity(line, ts, kind) <==> Complete(line, ts, kind)
    ensures Complete(line, ts, kind) ==> (|ts| == TokenCount(kind) <==> !Noreply(line, ts, kind)) && 0 < |ts| <= 6
  {
    if |ts| > 0 {
      SpelledOthers(Word(line, ts, |ts| - 1));
    }
  }

  // ---- gets

  lemma {:induction false} KeysInOrder(line: seq<Byte>, ts: seq<Slice>)
    requires Inside(line, ts) && forall t | t in ts :: t.len > 0
    ensures KeysOf(line, ts).None? <==> forall i | 0 <= i < |ts| :: GoodKey(Word(line, ts, i))
    ensures forall e :: KeysOf(line, ts) == Some(e) <==> exists i: nat :: EarliestBad(line, ts, i, e)
  {
    hide ValidKey, KeyError, GoodKey;
    if ts != [] {
      var rest := ts[1..];
      assert ts[0] in ts && forall t | t in rest :: t in ts;
      KeysGood(Word(line, ts, 0));
      KeysInOrder(line, rest);
      forall e
        ensures KeysOf(line, ts) == Some(e) <==> exists i: nat :: EarliestBad(line, ts, i, e)
      {
        ShiftBad(line, ts, e);
      }
      assert forall i | 0 < i < |ts| :: Word(line, ts, i) == Word(line, rest, i - 1);
      assert forall i | 0 <= i < |rest| :: Word(line, rest, i) == Word(line, ts, i + 1);
    }
  }

  /** The i-th word is the first bad key, and its length decides the error. */
  ghost predicate EarliestBad(line: seq<Byte>, ts: seq<Slice>, i: nat, e: Error)
    requires Inside(line, ts)
  {
    i < |ts| && !GoodKey(Word(line, ts, i)) && (forall j | 0 <= j < i :: GoodKey(Word(line, ts, j))) &&
    e == if |Word(line, ts, i)| > 250 then KeyTooLong else InvalidArguments
  }

  lemma ShiftBad(line: seq<Byte>, ts: seq<Slice>, e: Error)
    requires Inside(line, ts) && ts != []
    ensures Inside(line, ts[1..])
    ensures GoodKey(Word(line, ts, 0)) ==>
      ((exists i: nat :: EarliestBad(line, ts, i, e)) <==> exists i: nat :: EarliestBad(line, ts[1..], i, e))
    ensures !GoodKey(Word(line, ts, 0)) ==>
      ((exists i: nat :: EarliestBad(line, ts, i, e)) <==> EarliestBad(line, ts, 0, e))
  {
    hide GoodKey;
    var rest := ts[1..];
    assert forall t | t in rest :: t in ts;
    assert forall i | 0 < i < |ts| :: Word(line, ts, i) == Word(line, rest, i - 1);
    assert forall i | 0 <= i < |rest| :: Word(line, rest, i) == Word(line, ts, i + 1);
    if GoodKey(Word(line, ts, 0)) {
      if exists i: nat :: EarliestBad(line, ts, i, e) {
        var i: nat :| EarliestBad(line, ts, i, e);
        assert EarliestBad(line, rest, i - 1, e);
      }
      if exists i: nat :: EarliestBad(line, rest, i, e) {
        var i: nat :| EarliestBad(line, rest, i, e);
        assert EarliestBad(line, ts, i + 1, e);
      }
    }
  }

  lemma GetAccepts(line: seq<Byte>, ts: seq<Slice>, cmd: Command)
    requires Inside(line, ts) && ts != [] && forall t | t in ts :: t.len > 0
    ensures Inside(line, ts[1..]) && (GetOf(line, ts[1..]) == Ok(cmd) <==> ReadsGet(line, ts, cmd))
    ensures ReadsGet(line, ts, cmd) ==> cmd.kind.Get?
  {
    hide GoodKey, KeysOf;
    var rest := ts[1..];
    assert forall t | t in rest :: t in ts;
    KeysInOrder(line, rest);
    assert forall i | 0 < i < |ts| :: Word(line, ts, i) == Word(line, rest, i - 1);
    assert forall i | 0 <= i < |rest| :: Word(line, rest, i) == Word(line, ts, i + 1);
  }

  lemma GetRejects(line: seq<Byte>, ts: seq<Slice>, e: Error)
    requires Inside(line, ts) && ts != [] && (forall t | t in ts :: t.len > 0) && Names(Word(line, ts, 0), Get)
    ensures Inside(line, ts[1..]) && (GetOf(line, ts[1..]) == Err(e) <==> RejectsWords(line, ts, e))
  {
    hide GoodKey, KeysOf, Names, Complete, Uint32, Uint64;
    var rest := ts[1..];
    assert forall t | t in rest :: t in ts;
    KeysInOrder(line, rest);
    OneName(Word(line, ts, 0), Get);
    BadAgain(line, ts, e);
    if rest == [] {
      assert KeysOf(line, rest).None?;
    }
  }

  lemma OneName(w: seq<Byte>, kind: Kind)
    requires Names(w, kind)
    ensures forall other :: Names(w, other) <==> other == kind
  {
    forall other
      ensures Names(w, other) <==> other == kind
    {
      NamesSpelled(w, kind);
      NamesSpelled(w, other);
    }
  }

  lemma BadAgain(line: seq<Byte>, ts: seq<Slice>, e: Error)
    requires Inside(line, ts) && ts != []
    ensures Inside(line, ts[1..])
    ensures (exists i: nat :: EarliestBad(line, ts[1..], i, KeyTooLong)) <==>
      exists i: nat :: FirstBad(line, ts, i) && |Word(line, ts, i)| > 250
    ensures (exists i: nat :: EarliestBad(line, ts[1..], i, InvalidArguments)) <==>
      exists i: nat :: FirstBad(line, ts, i) && |Word(line, ts, i)| <= 250
    ensures e != KeyTooLong && e != InvalidArguments ==> !exists i: nat :: EarliestBad(line, ts[1..], i, e)
  {
    hide GoodKey;
    var rest := ts[1..];
    assert forall t | t in rest :: t in ts;
    forall i: nat | i < |rest|
      ensures EarliestBad(line, rest, i, KeyTooLong) <==> FirstBad(line, ts, i + 1) && |Word(line, ts, i + 1)| > 250
      ensures EarliestBad(line, rest, i, InvalidArguments) <==>
        FirstBad(line, ts, i + 1) && |Word(line, ts, i + 1)| <= 250
    {
      SameBad(line, ts, i);
    }
    assert forall i: nat | FirstBad(line, ts, i) :: i - 1 + 1 == i && i - 1 < |rest|;
    if exists i: nat :: FirstBad(line, ts, i) && |Word(line, ts, i)| > 250 {
      var i: nat :| FirstBad(line, ts, i) && |Word(line, ts, i)| > 250;
      assert EarliestBad(line, rest, i - 1, KeyTooLong);
    }
    if exists i: nat :: FirstBad(line, ts, i) && |Word(line, ts, i)| <= 250 {
      var i: nat :| FirstBad(line, ts, i) && |Word(line, ts, i)| <= 250;
      assert EarliestBad(line, rest, i - 1, InvalidArguments);
    }
  }

  lemma SameBad(line: seq<Byte>, ts: seq<Slice>, i: nat)
    requires Inside(line, ts) && i + 1 < |ts|
    ensures Inside(line, ts[1..])
    ensures EarliestBad(line, ts[1..], i, KeyTooLong) <==> FirstBad(line, ts, i + 1) && |Word(line, ts, i + 1)| > 250
    ensures EarliestBad(line, ts[1..], i, InvalidArguments) <==>
      FirstBad(line, ts, i + 1) && |Word(line, ts, i + 1)| <= 250
  {
    hide GoodKey;
    var rest := ts[1..];
    assert forall t | t in rest :: t in ts;
    assert forall k | 0 < k < |ts| :: Word(line, ts, k) == Word(line, rest, k - 1);
    assert forall k | 0 <= k < |rest| :: Word(line, rest, k) == Word(line, ts, k + 1);
  }

  // ---- the other commands

  lemma OtherAccepts(line: seq<Byte>, ts: seq<Slice>, kind: Kind, cmd: Command)
    requires Inside(line, ts) && ts != [] && !kind.Get? && forall t | t in ts :: t.len > 0
    ensures OtherOf(line, ts, kind) == Ok(cmd) <==> cmd.kind == kind && ReadsWords(line, ts, cmd)
  {
    hide ValidKey, GoodKey, IsNumber, Value;
    ArityComplete(line, ts, kind);
    if |ts| > 1 {
      KeysGood(Word(line, ts, 1));
    }
    SpelledOthers(Word(line, ts, |ts| - 1));
  }

  /** The error of a set, delete, touch, version or quit. */
  predicate RejectsOther(line: seq<Byte>, ts: seq<Slice>, kind: Kind, e: Error)
    requires Inside(line, ts)
  {
    if !Complete(line, ts, kind) then e == InvalidArguments
    else if kind.Get? || kind.Version? || kind.Quit? then false
    else if !GoodKey(Word(line, ts, 1)) then e == if |Word(line, ts, 1)| > 250 then KeyTooLong else InvalidArguments
    else if kind.Set? && !Uint32(Word(line, ts, 2)) then e == InvalidFlags
    else if kind.Set? && !Uint32(Word(line, ts, 3)) then e == InvalidExptime
    else if kind.Set? && !Uint64(Word(line, ts, 4)) then e == InvalidValueLength
    else kind.Touch? && !Uint32(Word(line, ts, 2)) && e == InvalidExptime
  }

  lemma OtherRejects(line: seq<Byte>, ts: seq<Slice>, kind: Kind, e: Error)
    requires Inside(line, ts) && ts != [] && !kind.Get? && forall t | t in ts :: t.len > 0
    ensures OtherOf(line, ts, kind) == Err(e) <==> RejectsOther(line, ts, kind, e)
  {
    hide ValidKey, GoodKey, IsNumber, Value;
    ArityComplete(line, ts, kind);
    if |ts| > 1 {
      assert ts[1] in ts;
      KeysGood(Word(line, ts, 1));
    }
  }

  lemma LongKeyBad(k: seq<Byte>)
    ensures |k| > 250 ==> !GoodKey(k)
  {
  }

  lemma RejectsByKind(line: seq<Byte>, ts: seq<Slice>, kind: Kind, e: Error)
    requires Inside(line, ts) && ts != [] && !kind.Get? && Names(Word(line, ts, 0), kind) && |ts| <= 6
    ensures RejectsOther(line, ts, kind, e) <==> RejectsWords(line, ts, e)
  {
    hide GoodKey, Uint32, Uint64, Complete, Names;
    OneName(Word(line, ts, 0), kind);
    ArityComplete(line, ts, kind);
    assert forall other :: Keyed(line, ts, other) ==> other == kind;
    if |ts| > 1 {
      LongKeyBad(Word(line, ts, 1));
    }
    match e
    case InvalidCommand => assert Names(Word(line, ts, 0), kind);
    case InvalidArguments =>
      assert RejectsOther(line, ts, kind, e) ==> !Complete(line, ts, kind) || Keyed(line, ts, kind);
    case KeyTooLong => assert RejectsOther(line, ts, kind, e) ==> Keyed(line, ts, kind);
    case _ =>
  }

  // ---- lines

  /** The header parser accepts a line as a command exactly when the line reads as that command. */
  lemma HeaderExactly(line: seq<Byte>, cmd: Command)
    ensures HeaderOf(line) == Ok(cmd) <==> Reads(line, cmd)
  {
    hide TokensOf, ReadsGet, ReadsWords, OtherOf, GetOf, KindOf, Names;
    var ts := TokensOf(line, 0, |line|);
    if ts != [] {
      FirstName(line, ts);
      if Text(line, ts[0]) == GET {
        GetAccepts(line, ts, cmd);
        AsGet(line, ts, cmd);
      } else {
        FewWords(line, ts, cmd);
        if KindOf(Text(line, ts[0])).Some? {
          OtherAccepts(line, ts, KindOf(Text(line, ts[0])).value, cmd);
        }
      }
    }
  }

  // The first word's name, in the parser's terms.
  lemma FirstName(line: seq<Byte>, ts: seq<Slice>)
    requires Inside(line, ts) && ts != []
    ensures Within(ts[0], line) && Text(line, ts[0]) == Word(line, ts, 0)
    ensures forall kind :: KindOf(Text(line, ts[0])) == Some(kind) <==> Names(Word(line, ts, 0), kind)
    ensures Text(line, ts[0]) == GET <==> KindOf(Text(line, ts[0])) == Some(Get)
  {
    assert ts[0] in ts;
    forall kind
      ensures KindOf(Text(line, ts[0])) == Some(kind) <==> Names(Word(line, ts, 0), kind)
    {
      NamesSpelled(Word(line, ts, 0), kind);
    }
  }

  lemma AsGet(line: seq<Byte>, ts: seq<Slice>, cmd: Command)
    requires Inside(line, ts)
    ensures cmd.kind.Get? ==> (ReadsWords(line, ts, cmd) <==> ReadsGet(line, ts, cmd))
  {
    hide ReadsGet;
  }

  lemma FewWords(line: seq<Byte>, ts: seq<Slice>, cmd: Command)
    requires Inside(line, ts)
    ensures !cmd.kind.Get? && ReadsWords(line, ts, cmd) ==> |ts| <= 6
  {
    hide GoodKey, Uint32, Uint64;
  }

  /** It rejects a line with an error exactly when the words call for that error. */
  lemma HeaderRejects(line: seq<Byte>, e: Error)
    ensures HeaderOf(line) == Err(e) <==> Rejects(line, e)
  {
    hide TokensOf, RejectsWords, RejectsOther, OtherOf, GetOf, KindOf, Names;
    var ts := TokensOf(line, 0, |line|);
    if ts == [] {
      NoWords(line, ts, e);
    } else {
      FirstName(line, ts);
      if Text(line, ts[0]) == GET {
        GetRejects(line, ts, e);
      } else if |ts| > 6 {
        ManyWords(line, ts, e);
      } else {
        if KindOf(Text(line, ts[0])).Some? {
          OtherRejects(line, ts, KindOf(Text(line, ts[0])).value, e);
          RejectsByKind(line, ts, KindOf(Text(line, ts[0])).value, e);
        } else {
          assert forall kind :: !Names(Word(line, ts, 0), kind);
          NoName(line, ts, e);
        }
      }
    }
  }

  lemma NoWords(line: seq<Byte>, ts: seq<Slice>, e: Error)
    requires ts == []
    ensures RejectsWords(line, ts, e) <==> e == InvalidCommand
  {
  }

  lemma NoName(line: seq<Byte>, ts: seq<Slice>, e: Error)
    requires Inside(line, ts) && 0 < |ts| <= 6 && forall kind :: !Names(Word(line, ts, 0), kind)
    ensures RejectsWords(line, ts, e) <==> e == InvalidCommand
  {
    hide GoodKey, Complete, Names, Uint32, Uint64;
  }

  lemma ManyWords(line: seq<Byte>, ts: seq<Slice>, e: Error)
    requires Inside(line, ts) && |ts| > 6 && !Names(Word(line, ts, 0), Get)
    ensures RejectsWords(line, ts, e) <==> e == InvalidArguments
  {
    hide GoodKey, Names, Uint32, Uint64;
    forall kind
      ensures !Keyed(line, ts, kind)
    {
      if !kind.Get? {
        ArityComplete(line, ts, kind);
      }
    }
  }

  // ---- frames

  predicate Unbroken(b: seq<Byte>, n: nat)
    requires n <= |b|
  {
    forall i | 0 <= i < n :: b[i] != 13 && b[i] != 10
  }

  /** The first n bytes are a line, ended by CR LF. */
  predicate LineAt(b: seq<Byte>, n: nat) {
    n + 2 <= |b| && Unbroken(b, n) && b[n] == 13 && b[n + 1] == 10
  }

  /** The buffer starts with a line of n bytes that reads as the command, and a set's value with its CR LF behind it. */
  predicate Framed(b: seq<Byte>, f: Frame, n: nat) {
    LineAt(b, n) && Reads(b[..n], f.cmd.(value := None)) &&
    if f.cmd.kind.Set? then
      f.cmd.value == Some(Slice(n + 2, f.cmd.valueLen)) &&
      f.len == n + 2 + f.cmd.valueLen + 2 <= 0xFFFF_FFFF_FFFF_FFFF &&
      f.len <= |b| && b[f.len - 2] == 13 && b[f.len - 1] == 10
    else
      f.cmd.value == None && f.len == n + 2
  }

  // The buffer starts with the line of a set, its value still to come.
  predicate SetAt(b: seq<Byte>, n: nat, cmd: Command) {
    LineAt(b, n) && cmd.kind.Set? && Reads(b[..n], cmd)
  }

  /** The verdict on a buffer that is no frame. */
  ghost predicate Refuses(b: seq<Byte>, e: Error) {
    match e
    case ExpectedCrlf =>
      exists p: nat :: p < |b| && Unbroken(b, p) && (b[p] == 10 || (b[p] == 13 && p + 1 < |b| && b[p + 1] != 10))
    case Incomplete =>
      Unbroken(b, |b|) || (|b| > 0 && Unbroken(b, |b| - 1) && b[|b| - 1] == 13) ||
      exists n: nat, cmd :: SetAt(b, n, cmd) && Lacking(b, n + 2 + cmd.valueLen)
    case InvalidDataBlock => exists n: nat, cmd :: SetAt(b, n, cmd) && Spoilt(b, n + 2 + cmd.valueLen)
    case InvalidValueLength =>
      (exists n: nat :: LineAt(b, n) && Rejects(b[..n], e)) ||
      exists n: nat, cmd :: SetAt(b, n, cmd) && n + 2 + cmd.valueLen + 2 > 0xFFFF_FFFF_FFFF_FFFF
    case _ => exists n: nat :: LineAt(b, n) && Rejects(b[..n], e)
  }

  // The value, which ends there, or its CR LF has not arrived in full.
  predicate Lacking(b: seq<Byte>, end: nat) {
    end + 2 <= 0xFFFF_FFFF_FFFF_FFFF && (|b| <= end || (|b| == end + 1 && b[end] == 13))
  }

  // Something else than CR LF follows the value.
  predicate Spoilt(b: seq<Byte>, end: nat) {
    end + 2 <= 0xFFFF_FFFF_FFFF_FFFF && end < |b| && (b[end] != 13 || (end + 1 < |b| && b[end + 1] != 10))
  }

  lemma LineExactly(b: seq<Byte>, n: nat)
    ensures LineOf(b) == Ok(n) <==> LineAt(b, n)
  {
    assert forall i | 0 <= i < FirstBreak(b, 0) :: !IsBreak(b[i]);
  }

  lemma LineRejects(b: seq<Byte>, e: Error)
    ensures LineOf(b) == Err(e) <==>
      (e == ExpectedCrlf && Refuses(b, ExpectedCrlf)) ||
      (e == Incomplete && (Unbroken(b, |b|) || (|b| > 0 && Unbroken(b, |b| - 1) && b[|b| - 1] == 13)))
  {
    var p := FirstBreak(b, 0);
    assert forall i | 0 <= i < p :: !IsBreak(b[i]);
    assert Unbroken(b, p);
    if Refuses(b, ExpectedCrlf) {
      var q: nat :| q < |b| && Unbroken(b, q) && (b[q] == 10 || (b[q] == 13 && q + 1 < |b| && b[q + 1] != 10));
      assert q == p;
    }
  }

  /** The parser accepts a frame exactly when the buffer is framed so. */
  lemma FrameExactly(b: seq<Byte>, f: Frame)
    ensures FrameOf(b) == Ok(f) <==> exists n: nat :: Framed(b, f, n)
  {
    hide LineOf, HeaderOf, Reads;
    if FrameOf(b) == Ok(f) {
      var n := LineOf(b).value;
      LineExactly(b, n);
      NoValueYet(b[..n]);
      HeaderExactly(b[..n], HeaderOf(b[..n]).value);
      assert f.cmd.(value := None) == HeaderOf(b[..n]).value;
      assert Framed(b, f, n);
    }
    if exists n: nat :: Framed(b, f, n) {
      var n: nat :| Framed(b, f, n);
      LineExactly(b, n);
      HeaderExactly(b[..n], f.cmd.(value := None));
      assert FrameOf(b) == Ok(f);
    }
  }

  lemma NoValueYet(line: seq<Byte>)
    ensures HeaderOf(line).Ok? ==> HeaderOf(line).value.value == None
  {
    hide TokensOf, ValidKey, IsNumber, Value, KindOf, KeysOf;
  }

  lemma OneLine(b: seq<Byte>, n: nat)
    requires LineAt(b, n)
    ensures forall m: nat :: LineAt(b, m) <==> m == n
    ensures !Unbroken(b, |b|) && !(Unbroken(b, |b| - 1) && b[|b| - 1] == 13) && !Refuses(b, ExpectedCrlf)
  {
    LineExactly(b, n);
    forall m: nat
      ensures LineAt(b, m) <==> m == n
    {
      LineExactly(b, m);
    }
    LineRejects(b, ExpectedCrlf);
    LineRejects(b, Incomplete);
  }

  /** It gives a verdict exactly when the bytes call for it. */
  lemma FrameRejects(b: seq<Byte>, e: Error)
    ensures FrameOf(b) == Err(e) <==> Refuses(b, e)
  {
    hide LineOf, HeaderOf, Refuses, FrameOf;
    if LineOf(b).Err? {
      NoLine(b, e);
    } else {
      var n := LineOf(b).value;
      LineExactly(b, n);
      if HeaderOf(b[..n]).Err? {
        LineRejected(b, n, e);
      } else {
        LineAccepted(b, n, HeaderOf(b[..n]).value, e);
      }
    }
  }

  lemma NoLine(b: seq<Byte>, e: Error)
    requires LineOf(b).Err?
    ensures FrameOf(b) == Err(e) <==> Refuses(b, e)
  {
    hide LineOf, HeaderOf, Reads, Rejects, Lacking, Spoilt;
    LineRejects(b, LineOf(b).error);
    LineRejects(b, e);
    forall n: nat
      ensures !LineAt(b, n)
    {
      LineExactly(b, n);
    }
  }

  lemma LineRejected(b: seq<Byte>, n: nat, e: Error)
    requires LineAt(b, n) && LineOf(b) == Ok(n) && HeaderOf(b[..n]).Err?
    ensures FrameOf(b) == Err(e) <==> Refuses(b, e)
  {
    hide LineOf, HeaderOf, Reads, Lacking, Spoilt, RejectsWords;
    OneLine(b, n);
    HeaderRejects(b[..n], e);
    LineErrors(b[..n], e);
    forall cmd
      ensures !SetAt(b, n, cmd)
    {
      HeaderExactly(b[..n], cmd);
    }
  }

  lemma LineErrors(line: seq<Byte>, e: Error)
    ensures Rejects(line, e) ==> e != Incomplete && e != ExpectedCrlf && e != InvalidDataBlock
  {
  }

  lemma LineAccepted(b: seq<Byte>, n: nat, cmd: Command, e: Error)
    requires LineAt(b, n) && LineOf(b) == Ok(n) && HeaderOf(b[..n]) == Ok(cmd)
    ensures FrameOf(b) == Err(e) <==> Refuses(b, e)
  {
    hide LineOf, HeaderOf, Reads, Rejects, Lacking, Spoilt, Unbroken, SetAt, BodyOf;
    OneLine(b, n);
    HeaderRejects(b[..n], e);
    forall c
      ensures Reads(b[..n], c) <==> c == cmd
    {
      HeaderExactly(b[..n], c);
    }
    OneSet(b, n, cmd);
    BodyRejects(b, n, cmd, e);
    assert SetAt(b, n, cmd) <==> cmd.kind.Set?;
    assert !Rejects(b[..n], e);
    NoReject(b, n, e);
  }

  lemma NoReject(b: seq<Byte>, n: nat, e: Error)
    requires LineAt(b, n) && !Rejects(b[..n], e)
    ensures !exists m: nat :: LineAt(b, m) && Rejects(b[..m], e)
  {
    hide Rejects, LineAt;
    OneLine(b, n);
  }

  lemma OneSet(b: seq<Byte>, n: nat, cmd: Command)
    requires LineAt(b, n) && forall c :: Reads(b[..n], c) <==> c == cmd
    ensures forall m: nat, c :: SetAt(b, m, c) <==> m == n && c == cmd && cmd.kind.Set?
  {
    hide Reads, LineAt;
    OneLine(b, n);
  }

  // The error of the data block.
  lemma BodyRejects(b: seq<Byte>, n: nat, cmd: Command, e: Error)
    requires n + 2 <= |b|
    ensures BodyOf(b, n + 2, cmd.valueLen) == Err(e) <==>
      var end := n + 2 + cmd.valueLen;
      (e == Incomplete && Lacking(b, end)) || (e == InvalidDataBlock && Spoilt(b, end)) ||
      (e == InvalidValueLength && end + 2 > 0xFFFF_FFFF_FFFF_FFFF)
  {
  }

  // ---- waiting for more

  /** No buffer is INCOMPLETE for ever: some bytes after it give another verdict. */
  lemma IncompleteEnds(b: seq<Byte>)
    requires FrameOf(b) == Err(Incomplete)
    ensures exists more :: FrameOf(b + more) != Err(Incomplete)
  {
    hide FrameOf, SetAt, Lacking;
    FrameRejects(b, Incomplete);
    if Unbroken(b, |b|) {
      Settled(b, [10]);
    } else if |b| > 0 && Unbroken(b, |b| - 1) && b[|b| - 1] == 13 {
      Settled(b, [0]);
    } else {
      var n: nat, cmd :| SetAt(b, n, cmd) && Lacking(b, n + 2 + cmd.valueLen);
      SpoiltLater(b, n, cmd);
    }
  }

  lemma SpoiltLater(b: seq<Byte>, n: nat, cmd: Command)
    requires SetAt(b, n, cmd) && Lacking(b, n + 2 + cmd.valueLen)
    ensures exists more :: FrameOf(b + more) == Err(InvalidDataBlock)
  {
    hide Reads;
    var end := n + 2 + cmd.valueLen;
    var more := seq(end + 2 - |b|, _ => 0);
    var c := b + more;
    assert c[..n] == b[..n];
    assert SetAt(c, n, cmd) && Spoilt(c, end);
    FrameRejects(c, InvalidDataBlock);
  }

  lemma Settled(b: seq<Byte>, more: seq<Byte>)
    requires (more == [10] && Unbroken(b, |b|)) || (more == [0] && |b| > 0 && Unbroken(b, |b| - 1) && b[|b| - 1] == 13)
    ensures FrameOf(b + more) == Err(ExpectedCrlf)
  {
    var c := b + more;
    var p := if more == [10] then |b| else |b| - 1;
    assert Unbroken(c, p) && p < |c| && (c[p] == 10 || (c[p] == 13 && p + 1 < |c| && c[p + 1] != 10));
    FrameRejects(c, ExpectedCrlf);
  }
}
