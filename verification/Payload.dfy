/** Payload codecs: the text codec, the LessMessage codec layered over it, and an arbitrary script
    of reader calls standing for any other one. */
module Payload {
  import opened Common
  import opened Bytes
  import opened BufferReader
  import opened LimitReader
  import opened BufferWriter

  const MAGIC: nat := 76698383
  const MAGIC_LENGTH: nat := 4
  const TYPE_LENGTH: nat := 2

  /** A LessMessage, or a message of the inner codec. */
  datatype Msg = Less(magic: nat, msgType: nat, body: seq<Byte>) | Plain(text: seq<Byte>)

  /** Magic is a uint32 and the type a uint16. */
  predicate WellTyped(m: Msg) {
    m.Less? ==> m.magic < 0x1_0000_0000 && m.msgType < 0x1_0000
  }

  /** What Marshal writes. */
  function Encoding(m: Msg): (s: seq<Byte>) {
    match m
    case Less(magic, msgType, body) => BigEndian32(magic) + BigEndian16(msgType) + body
    case Plain(text) => text
  }

  predicate StartsWithMagic(s: seq<Byte>) {
    |s| >= MAGIC_LENGTH + TYPE_LENGTH && ToNat32(s[..MAGIC_LENGTH]) == MAGIC
  }

  /** What the LessMessage codec makes of a whole frame. */
  function Parse(s: seq<Byte>): (m: Msg) {
    if StartsWithMagic(s)
    then Less(MAGIC, ToNat16(s[MAGIC_LENGTH..MAGIC_LENGTH + TYPE_LENGTH]), s[MAGIC_LENGTH + TYPE_LENGTH..])
    else Plain(s)
  }

  /** Messages the layered codec can tell apart. */
  predicate Distinguishable(m: Msg) {
    match m
    case Less(magic, _, _) => magic == MAGIC
    case Plain(text) => !StartsWithMagic(text)
  }

  /** The layered codec round-trips exactly the LessMessages that carry the magic and the inner
      messages whose encoding is shorter than 6 bytes or does not start with it. */
  lemma LayeredRoundTrip(m: Msg)
    requires WellTyped(m)
    ensures Parse(Encoding(m)) == m <==> Distinguishable(m)
  {
    match m
    case Plain(_) =>
    case Less(magic, msgType, body) =>
      var s := Encoding(m);
      assert s[..4] == BigEndian32(magic) && s[4..6] == BigEndian16(msgType) && s[6..] == body;
      RoundTrip32(magic);
      RoundTrip16(msgType);
  }

  /** A LessMessage on the wire: the four bytes of the magic, the type and the body. */
  lemma MagicOnTheWire(msgType: nat, body: seq<Byte>)
    requires msgType < 0x1_0000
    ensures Encoding(Less(76698383, msgType, body)) == [4, 146, 83, 15, msgType / 0x100, msgType % 0x100] + body
  {
    assert BigEndian32(76698383) == [4, 146, 83, 15];
    assert BigEndian16(msgType) == [msgType / 0x100, msgType % 0x100];
  }

  /** A frame is a LessMessage if and only if it has room for magic and type and starts with the magic;
      type and body are what follows.  Any other frame belongs to the inner codec as it is. */
  lemma LessByItsStart(frame: seq<Byte>)
    ensures Parse(frame).Less? <==> |frame| >= 6 && frame[..4] == [4, 146, 83, 15]
    ensures Parse(frame).Less? ==> Parse(frame) == Less(76698383, (frame[4] as int) * 0x100 + frame[5], frame[6..])
    ensures Parse(frame).Plain? ==> Parse(frame) == Plain(frame)
  {
    if |frame| >= 6 {
      var s := frame[..4];
      Weights32(s);
      assert s == [s[0], s[1], s[2], s[3]];
      assert frame[4..6] == [frame[4], frame[5]];
    }
  }

  // ------------------------------------------------------------ marshalling

  /** WrapBufferWriter: writes go straight to the outer writer and are counted. */
  class DirectWriter {
    const w: Writer
    var writeIndex: nat

    constructor (decorator: Writer)
      ensures w == decorator && writeIndex == 0
    {
      w, writeIndex := decorator, 0;
    }

    /** Mallocs room for `bytes` and fills it in at once. */
    method Put(bytes: seq<Byte>)
      requires w.Ready() && w.growable
      modifies this`writeIndex, w`buff, w`writeIndex, w.buff.arr
      ensures w.Ready() && w.Contents() == old(w.Contents()) + bytes
      ensures writeIndex == old(writeIndex) + |bytes| && w.writeIndex == old(w.writeIndex) + |bytes|
      ensures if old(w.Free()) >= |bytes| then w.buff == old(w.buff) else fresh(w.buff.arr)
    {
      hide Writer.Valid, Writer.Contents;
      ghost var held := w.Contents();
      ghost var at := |held|;
      w.ReadyHasRoom(|bytes|);
      var _, window := w.Malloc(|bytes|);
      writeIndex := writeIndex + |bytes|;
      w.Fill(window, bytes, at);
      assert (held + Zeros(|bytes|))[..at] == held;
      assert w.Contents() == held + bytes + [];
    }

    method Write(bytes: seq<Byte>)
      requires w.Ready() && w.growable
      modifies this`writeIndex, w`buff, w`writeIndex, w.buff.arr
      ensures w.Ready() && w.Contents() == old(w.Contents()) + bytes
      ensures writeIndex == old(writeIndex) + |bytes| && w.writeIndex == old(w.writeIndex) + |bytes|
      ensures if old(w.Free()) >= |bytes| then w.buff == old(w.buff) else fresh(w.buff.arr)
    {
      w.ReadyHasRoom(|bytes|);
      var _ := w.Write(bytes);
      writeIndex := writeIndex + |bytes|;
    }

    /** Marshals a message.  The outer writer keeps its array exactly when the encoding fits. */
    method Marshal(m: Msg)
      requires w.Ready() && w.growable
      modifies this`writeIndex, w`buff, w`writeIndex, w.buff.arr
      ensures w.Ready() && w.Contents() == old(w.Contents()) + Encoding(m)
      ensures writeIndex == old(writeIndex) + |Encoding(m)| && w.writeIndex == old(w.writeIndex) + |Encoding(m)|
      ensures if old(w.Free()) >= |Encoding(m)| then w.buff == old(w.buff) else fresh(w.buff.arr)
    {
      match m
      case Plain(text) => Write(text);
      case Less(magic, msgType, body) => MarshalLess(BigEndian32(magic), BigEndian16(msgType), body);
    }

    method MarshalLess(magic: seq<Byte>, msgType: seq<Byte>, body: seq<Byte>)
      requires w.Ready() && w.growable
      modifies this`writeIndex, w`buff, w`writeIndex, w.buff.arr
      ensures var s := magic + msgType + body;
        && w.Ready() && w.Contents() == old(w.Contents()) + s
        && writeIndex == old(writeIndex) + |s| && w.writeIndex == old(w.writeIndex) + |s|
        && if old(w.Free()) >= |s| then w.buff == old(w.buff) else fresh(w.buff.arr)
    {
      hide Writer.Ready, Writer.Valid, Writer.Contents;
      w.ReadyIsValid();
      ghost var held := w.Contents();
      Put(magic);
      Put(msgType);
      Write(body);
      assert held + magic + msgType + body == held + (magic + msgType + body);
    }
  }

  /** `Malloc` on a writer itself, filled in at once. */
  method Put(w: Writer, bytes: seq<Byte>) returns (ok: bool)
    requires w.Ready()
    modifies w`buff, w`writeIndex, w.buff.arr
    ensures w.Ready() && (ok <==> old(w.Free()) >= |bytes| || w.growable)
    ensures w.Contents() == old(w.Contents()) + if ok then bytes else []
    ensures w.writeIndex == old(w.writeIndex) + if ok then |bytes| else 0
    ensures if old(w.Free()) >= |bytes| || !w.growable then w.buff == old(w.buff) else fresh(w.buff.arr)
    ensures w.buff == old(w.buff) ==> Kept(old(w.buff.arr[..]), w.buff)
  {
    hide Writer.Valid, Writer.Contents;
    ghost var held := w.Contents();
    ghost var at := |held|;
    w.ReadyHasRoom(|bytes|);
    var o, window := w.Malloc(|bytes|);
    ok := o.Made();
    if ok {
      w.Fill(window, bytes, at);
      assert (held + Zeros(|bytes|))[..at] == held;
      assert w.Contents() == held + bytes + [];
    }
  }

  /** `Write` on a writer itself. */
  method PutAll(w: Writer, bytes: seq<Byte>) returns (ok: bool)
    requires w.Ready()
    modifies w`buff, w`writeIndex, w.buff.arr
    ensures w.Ready() && (ok <==> old(w.Free()) >= |bytes| || w.growable)
    ensures w.Contents() == old(w.Contents()) + if ok then bytes else []
    ensures w.writeIndex == old(w.writeIndex) + if ok then |bytes| else 0
    ensures if old(w.Free()) >= |bytes| || !w.growable then w.buff == old(w.buff) else fresh(w.buff.arr)
    ensures w.buff == old(w.buff) ==> Kept(old(w.buff.arr[..]), w.buff)
  {
    w.ReadyHasRoom(|bytes|);
    var o := w.Write(bytes);
    ok := o.Made();
  }

  /** An array is as it was outside a window. */
  ghost predicate Kept(before: seq<Byte>, window: Slice)
    reads window.arr
  {
    && |before| == window.arr.Length
    && forall i | 0 <= i < |before| && !(window.off <= i < window.off + window.len) :: window.arr[i] == before[i]
  }

  /** Marshals a message into a writer, which may be a window that belongs to somebody else. */
  method MarshalTo(w: Writer, m: Msg) returns (ok: bool)
    requires w.Ready()
    modifies w`buff, w`writeIndex, w.buff.arr
    ensures w.Ready() && (ok <==> old(w.Free()) >= |Encoding(m)| || w.growable)
    ensures ok ==> w.Contents() == old(w.Contents()) + Encoding(m)
    ensures w.buff == old(w.buff) || fresh(w.buff.arr)
    ensures !w.growable ==> w.buff == old(w.buff) && Kept(old(w.buff.arr[..]), w.buff)
  {
    match m
    case Plain(text) => ok := PutAll(w, text);
    case Less(magic, msgType, body) => ok := MarshalLessTo(w, BigEndian32(magic), BigEndian16(msgType), body);
  }

  method MarshalLessTo(w: Writer, magic: seq<Byte>, msgType: seq<Byte>, body: seq<Byte>) returns (ok: bool)
    requires w.Ready()
    modifies w`buff, w`writeIndex, w.buff.arr
    ensures w.Ready() && (ok <==> old(w.Free()) >= |magic + msgType + body| || w.growable)
    ensures ok ==> w.Contents() == old(w.Contents()) + (magic + msgType + body)
    ensures w.buff == old(w.buff) || fresh(w.buff.arr)
    ensures !w.growable ==> w.buff == old(w.buff) && Kept(old(w.buff.arr[..]), w.buff)
  {
    hide Writer.Ready, Writer.Valid, Writer.Contents;
    w.ReadyIsValid();
    ghost var held := w.Contents();
    ok := Put(w, magic);
    if !ok { return; }
    ok := Put(w, msgType);
    if !ok { return; }
    ok := PutAll(w, body);
    assert held + magic + msgType + body == held + (magic + msgType + body);
  }

  // ------------------------------------------------------------ unmarshalling

  datatype Codec = Text | LayeredText | Script(ops: seq<Op>)

  /** What a codec returns for a whole frame. */
  predicate Decodes(codec: Codec, frame: seq<Byte>, m: Option<Msg>) {
    match codec
    case Text => m == Some(Plain(frame))
    case LayeredText => m == Some(Parse(frame))
    case Script(_) => true
  }

  /** The outcome of a series of calls on a limit reader, up to the first that fails. */
  datatype Trail = Trail(o: Outcome, p: Pos, remain: nat)

  function Take(t: Trail, n: nat): (t': Trail)
    requires Sound(t.p)
    ensures Sound(t'.p)
  {
    if !t.o.Ok? then t
    else if n > t.remain then t.(o := OverLimit)
    else Trail(Reading(t.p, n), Taken(t.p, n), if Reading(t.p, n).Ok? then t.remain - n else t.remain)
  }

  function Look(t: Trail, n: nat): (t': Trail)
    requires Sound(t.p)
    ensures Sound(t'.p)
  {
    if !t.o.Ok? then t
    else if n > t.remain then t.(o := OverLimit)
    else Trail(Reading(t.p, n), Peeked(t.p, n), t.remain)
  }

  /** Four bytes to look at that are the magic. */
  predicate HasMagic(s: seq<Byte>) {
    |s| >= MAGIC_LENGTH && ToNat32(s[..MAGIC_LENGTH]) == MAGIC
  }

  function TextTrail(p: Pos, n: nat): (t: Trail)
    requires Sound(p)
    ensures Sound(t.p)
  {
    Take(Trail(Ok, p, n), n)
  }

  function LayeredTrail(p: Pos, n: nat, magic: bool): (t: Trail)
    requires Sound(p)
    ensures Sound(t.p)
  {
    if n < MAGIC_LENGTH + TYPE_LENGTH then TextTrail(p, n)
    else
      var looked := Look(Trail(Ok, p, n), MAGIC_LENGTH);
      if magic
      then Take(Take(Take(looked, MAGIC_LENGTH), TYPE_LENGTH), n - MAGIC_LENGTH - TYPE_LENGTH)
      else Take(looked, n)
  }

  /** How decoding a frame of n bytes ends: as the payload codec does, but the release of the limit
      reader, whose failure is ignored, may still panic. */
  function Released(t: Trail): (o: Outcome)
    requires Sound(t.p)
  {
    if Reading(t.p, t.remain).Panic? then Panic else t.o
  }

  function FrameOutcome(codec: Codec, p: Pos, n: nat, magic: bool): (o: Outcome)
    requires Sound(p) && !codec.Script?
  {
    Released(if codec.Text? then TextTrail(p, n) else LayeredTrail(p, n, magic))
  }

  /** The text codec ends as reading the frame ahead does. */
  lemma TextOutcome(p: Pos, n: nat, magic: bool)
    requires Sound(p)
    ensures FrameOutcome(Text, p, n, magic) == Reading(p, n)
  {
  }

  /** A frame that is complete and has room is decoded; and a decoded frame is consumed whole, with
      nothing drawn behind it. */
  lemma FramedOutcome(codec: Codec, p: Pos, n: nat, magic: bool)
    requires Sound(p) && !codec.Script?
    ensures Framed(p, n) ==> FrameOutcome(codec, p, n, magic).Ok?
    ensures var t := if codec.Text? then TextTrail(p, n) else LayeredTrail(p, n, magic);
      && (t.o.Ok? ==> t.remain == 0 && Stepped(p, t.p, n))
      && (t.o.Ok? <==> FrameOutcome(codec, p, n, magic).Ok?)
  {
    if codec.Text? || n < MAGIC_LENGTH + TYPE_LENGTH {
      TakeStays(Trail(Ok, p, n), n);
      NothingMore(TextTrail(p, n));
    } else {
      LayeredFramed(p, n, magic);
      NothingMore(LayeredTrail(p, n, magic));
    }
    hide Reading, Taken, Peeked, Take, Look, Framed, Sound, Stepped;
  }

  lemma LayeredFramed(p: Pos, n: nat, magic: bool)
    requires Sound(p) && n >= MAGIC_LENGTH + TYPE_LENGTH
    ensures var t := LayeredTrail(p, n, magic);
      (Framed(p, n) ==> t.o.Ok?) && (t.o.Ok? ==> t.remain == 0 && Stepped(p, t.p, n))
  {
    hide Reading, Taken, Peeked, Take, Look, Framed, Sound;
    var start := Trail(Ok, p, n);
    LookStays(start, MAGIC_LENGTH);
    var looked := Look(start, MAGIC_LENGTH);
    if magic {
      var a := Take(looked, MAGIC_LENGTH);
      var b := Take(a, TYPE_LENGTH);
      TakeStays(looked, MAGIC_LENGTH);
      TakeStays(a, TYPE_LENGTH);
      TakeStays(b, n - MAGIC_LENGTH - TYPE_LENGTH);
    } else {
      TakeStays(looked, n);
    }
  }

  lemma NothingMore(t: Trail)
    requires Sound(t.p)
    ensures t.remain == 0 ==> Reading(t.p, t.remain).Ok?
  {
  }

  lemma TakeStays(t: Trail, n: nat)
    requires Sound(t.p)
    ensures t.o.Ok? && n <= t.remain && Framed(t.p, t.remain) ==>
      Take(t, n).o.Ok? && Framed(Take(t, n).p, t.remain - n)
    ensures Take(t, n).o.Ok? ==> t.o.Ok? && n <= t.remain == Take(t, n).remain + n && Stepped(t.p, Take(t, n).p, n)
  {
    if t.o.Ok? && n <= t.remain {
      if Reading(t.p, n).Ok? { TakenSteps(t.p, n); }
      if Framed(t.p, t.remain) { FramedReads(t.p, t.remain, n); }
    }
    hide Reading, Taken, Peeked, Framed, Stepped;
  }

  lemma LookStays(t: Trail, n: nat)
    requires Sound(t.p)
    ensures t.o.Ok? && n <= t.remain && Framed(t.p, t.remain) ==>
      Look(t, n).o.Ok? && Framed(Look(t, n).p, t.remain)
    ensures Look(t, n).o.Ok? ==> t.o.Ok? && n <= t.remain == Look(t, n).remain
    ensures Look(t, n).o.Ok? ==> Looked(t.p, Look(t, n).p, n)
  {
    if t.o.Ok? && n <= t.remain && Framed(t.p, t.remain) { FramedReads(t.p, t.remain, n); }
  }

  /** Bytes were read ahead, and only those. */
  predicate Looked(p: Pos, p': Pos, n: nat) {
    && p'.readIndex == p.readIndex
    && p'.writeIndex == if p.writeIndex < p.readIndex + n then p.readIndex + n else p.writeIndex
  }

  /** The outcome by the room left at each of the three places where the codec can fail. */
  lemma LayeredLong(at: nat, available: nat, n: nat, magic: bool)
    requires n >= MAGIC_LENGTH + TYPE_LENGTH && at + MAGIC_LENGTH + TYPE_LENGTH <= DEFAULT_SIZE
    ensures FrameOutcome(LayeredText, Pos(DEFAULT_SIZE, true, at, at, available), n, magic)
         == if available < 4 then if Room(DEFAULT_SIZE, at, n) then Eof else Panic
            else if !magic || available < 6 then
              if !Room(DEFAULT_SIZE, at + 4, n - 4) then Panic else if available < n then Eof else Ok
            else if !Room(DEFAULT_SIZE, at + 6, n - 6) then Panic else if available < n then Eof else Ok
  {
    hide Reading, Peeked, Taken, Room;
    var p := Pos(DEFAULT_SIZE, true, at, at, available);
    var looked := Look(Trail(Ok, p, n), MAGIC_LENGTH);
    ShortRead(p, MAGIC_LENGTH);
    if available < 4 {
      StopsThere(looked, n);
      AskFor(looked.p, n);
    } else if magic {
      LessLong(Pos(DEFAULT_SIZE, true, at, at + 4, available - 4), n);
    } else {
      LastTake(looked.p, n);
      AskFor(looked.p, n);
    }
  }

  lemma LessLong(p: Pos, n: nat)
    requires p.growable && p.length == DEFAULT_SIZE && p.writeIndex == p.readIndex + MAGIC_LENGTH
    requires p.writeIndex + TYPE_LENGTH <= DEFAULT_SIZE && n >= MAGIC_LENGTH + TYPE_LENGTH
    ensures Released(Take(Take(Take(Trail(Ok, p, n), MAGIC_LENGTH), TYPE_LENGTH), n - MAGIC_LENGTH - TYPE_LENGTH))
         == if p.available < 2 then if Room(DEFAULT_SIZE, p.writeIndex, n - 4) then Eof else Panic
            else if !Room(DEFAULT_SIZE, p.writeIndex + 2, n - 6) then Panic else if p.available < n - 4 then Eof else Ok
  {
    hide Reading, Peeked, Taken, Room;
    ShortRead(p, MAGIC_LENGTH);
    var skipped := Take(Trail(Ok, p, n), MAGIC_LENGTH);
    assert skipped == Trail(Ok, p.(readIndex := p.writeIndex), n - 4);
    ShortRead(skipped.p, TYPE_LENGTH);
    var typed := Take(skipped, TYPE_LENGTH);
    if p.available < 2 {
      StopsThere(typed, n);
      AskFor(typed.p, n - 4);
    } else {
      LastTake(typed.p, n - 6);
      AskFor(typed.p, n - 6);
    }
  }

  /** A read that fits the buffer. */
  lemma ShortRead(p: Pos, n: nat)
    requires Sound(p) && p.readIndex + n <= p.length && p.writeIndex <= p.readIndex + n
    ensures var want := p.readIndex + n - p.writeIndex;
      if p.available < want then Reading(p, n) == Eof && Peeked(p, n) == Taken(p, n) == p.(available := 0)
      else
        && Reading(p, n) == Ok
        && Peeked(p, n) == p.(writeIndex := p.readIndex + n, available := p.available - want)
        && Taken(p, n) == Peeked(p, n).(readIndex := p.readIndex + n)
  {
  }

  /** A read from a growable buffer, by what is asked of the connection. */
  lemma AskFor(p: Pos, n: nat)
    requires Sound(p) && p.growable && p.readIndex + n >= p.writeIndex
    ensures var want := p.readIndex + n - p.writeIndex;
      Reading(p, n) == if !Room(p.length, p.writeIndex, want) then Panic else if p.available < want then Eof else Ok
  {
  }

  /** Taking all that remains: the release that follows a failure panics no more than that did. */
  lemma LastTake(p: Pos, n: nat)
    requires Sound(p)
    ensures Released(Take(Trail(Ok, p, n), n)) == Reading(p, n)
  {
  }

  /** The payload codec reads from a limit reader over a frame that it has not touched yet. */
  method Unmarshal(l: Limit, codec: Codec) returns (o: Outcome, m: Option<Msg>)
    requires l.r.Valid() && l.remain == l.total
    modifies l`remain, l.r, l.r.buff
    ensures l.r.Valid() && (l.r.buff == old(l.r.buff) || fresh(l.r.buff))
    ensures codec.Text? ==> Trail(o, l.r.At(), l.remain) == TextTrail(old(l.r.At()), l.total)
    ensures codec.LayeredText? ==>
      Trail(o, l.r.At(), l.remain) == LayeredTrail(old(l.r.At()), l.total, HasMagic(old(l.r.Unread())))
    ensures o.Ok? && !codec.Script? ==>
      && l.total <= |old(l.r.Unread())| && l.r.Unread() == old(l.r.Unread())[l.total..]
      && Decodes(codec, old(l.r.Unread())[..l.total], m)
    ensures codec.Script? && Framed(old(l.r.At()), l.total) ==>
      o.Ok? && l.Inside(old(l.r.Unread()), l.total, old(l.r.At()))
  {
    match codec
    case Text => o, m := UnmarshalText(l);
    case LayeredText => o, m := UnmarshalLayered(l);
    case Script(ops) =>
      if Framed(l.r.At(), l.remain) { l.Enter(); }
      hide *;
      var panics, _ := l.CallAll(ops, l.r.Unread(), l.remain, l.r.At());
      o, m := if panics then Panic else Ok, None;
  }

  /** The text codec takes all that remains. */
  method UnmarshalText(l: Limit) returns (o: Outcome, m: Option<Msg>)
    requires l.r.Valid()
    modifies l`remain, l.r, l.r.buff
    ensures l.r.Valid() && (l.r.buff == old(l.r.buff) || fresh(l.r.buff))
    ensures Trail(o, l.r.At(), l.remain) == Take(Trail(Ok, old(l.r.At()), old(l.remain)), l.total)
    ensures o.Ok? ==> l.total <= |old(l.r.Unread())| && l.r.Unread() == old(l.r.Unread())[l.total..]
    ensures o.Ok? ==> m == Some(Plain(old(l.r.Unread())[..l.total]))
  {
    var s;
    o, s := NextBytes(l, l.total, Trail(Ok, l.r.At(), l.remain));
    m := if o.Ok? then Some(Plain(s)) else None;
  }

  /** `Next`, with a copy of the window it returns. */
  method NextBytes(l: Limit, n: nat, ghost t: Trail) returns (o: Outcome, s: seq<Byte>)
    requires l.r.Valid() && t == Trail(Ok, l.r.At(), l.remain)
    modifies l`remain, l.r, l.r.buff
    ensures l.r.Valid() && (l.r.buff == old(l.r.buff) || fresh(l.r.buff))
    ensures Trail(o, l.r.At(), l.remain) == Take(t, n)
    ensures o.Ok? ==>
      && n <= |old(l.r.Unread())| && l.r.Unread() == old(l.r.Unread())[n..] && s == old(l.r.Unread())[..n]
  {
    var buf;
    o, buf := l.Next(n);
    s := buf.Copy();
  }

  method UnmarshalLayered(l: Limit) returns (o: Outcome, m: Option<Msg>)
    requires l.r.Valid() && l.remain == l.total
    modifies l`remain, l.r, l.r.buff
    ensures l.r.Valid() && (l.r.buff == old(l.r.buff) || fresh(l.r.buff))
    ensures Trail(o, l.r.At(), l.remain) == LayeredTrail(old(l.r.At()), l.total, HasMagic(old(l.r.Unread())))
    ensures o.Ok? ==> l.total <= |old(l.r.Unread())| && l.r.Unread() == old(l.r.Unread())[l.total..]
    ensures o.Ok? ==> m == Some(Parse(old(l.r.Unread())[..l.total]))
  {
    ghost var p, all, n := l.r.At(), l.r.Unread(), l.total;
    if l.total < MAGIC_LENGTH + TYPE_LENGTH {
      o, m := UnmarshalText(l);
      return;
    }
    hide Take, Look, Sound, Reader.Unread, Parse, HasMagic;
    var magic;
    o, magic := PeekMagic(l);
    ghost var looked := Look(Trail(Ok, p, n), MAGIC_LENGTH);
    if !o.Ok? {
      StopsThere(looked, n);
      return o, None;
    }
    if n <= |all| { ParseByMagic(all, n); }
    if magic {
      SkipsMagic(looked);
      o, m := TakeLess(l, looked);
    } else {
      o, m := UnmarshalText(l);
    }
  }

  /** Once a call has failed the codec is done, whatever it would have done next. */
  lemma StopsThere(t: Trail, n: nat)
    requires Sound(t.p) && !t.o.Ok?
    ensures forall k: nat :: Take(t, k) == t
  {
  }

  lemma ParseByMagic(all: seq<Byte>, n: nat)
    requires MAGIC_LENGTH + TYPE_LENGTH <= n <= |all|
    ensures Parse(all[..n]) == if HasMagic(all) then LessOf(all, n) else Plain(all[..n])
  {
    assert all[..n][..4] == all[..4];
    assert all[..n][4..6] == all[4..6];
    assert all[..n][6..] == all[6..n];
  }

  /** The message in a frame of n bytes that starts with the magic. */
  function LessOf(all: seq<Byte>, n: nat): (m: Msg)
    requires MAGIC_LENGTH + TYPE_LENGTH <= n <= |all|
  {
    Less(MAGIC, ToNat16(all[MAGIC_LENGTH..MAGIC_LENGTH + TYPE_LENGTH]), all[MAGIC_LENGTH + TYPE_LENGTH..n])
  }

  /** Looks at the first bytes of the frame without consuming any. */
  method PeekMagic(l: Limit) returns (o: Outcome, magic: bool)
    requires l.r.Valid()
    modifies l.r, l.r.buff
    ensures l.r.Valid() && (l.r.buff == old(l.r.buff) || fresh(l.r.buff))
    ensures Trail(o, l.r.At(), l.remain) == Look(Trail(Ok, old(l.r.At()), l.remain), MAGIC_LENGTH)
    ensures o.Ok? ==> l.r.Unread() == old(l.r.Unread()) && (magic <==> HasMagic(old(l.r.Unread())))
  {
    var buf;
    o, buf := l.Peek(MAGIC_LENGTH);
    magic := false;
    if o.Ok? {
      var bytes := buf.Copy();
      magic := ToNat32(bytes) == MAGIC;
    }
  }

  /** Reads a frame that starts with the magic: skips it, then takes the type and the body. */
  method TakeLess(l: Limit, ghost t: Trail) returns (o: Outcome, m: Option<Msg>)
    requires l.r.Valid() && t == Trail(Ok, l.r.At(), l.remain) && MAGIC_LENGTH + TYPE_LENGTH <= l.remain == l.total
    requires Sound(t.p) && Take(t, MAGIC_LENGTH).o.Ok?
    modifies l`remain, l.r, l.r.buff
    ensures l.r.Valid() && (l.r.buff == old(l.r.buff) || fresh(l.r.buff))
    ensures Trail(o, l.r.At(), l.remain)
         == Take(Take(Take(t, MAGIC_LENGTH), TYPE_LENGTH), l.total - MAGIC_LENGTH - TYPE_LENGTH)
    ensures o.Ok? ==> l.total <= |old(l.r.Unread())| && l.r.Unread() == old(l.r.Unread())[l.total..]
    ensures o.Ok? ==> m == Some(LessOf(old(l.r.Unread()), l.total))
  {
    hide Take, Sound, Reading, Taken, Reader.Unread, Reader.Buffered, Reader.Valid, Reader.At, ToNat16;
    ghost var all, n := l.r.Unread(), l.total;
    ghost var skipped := Take(t, MAGIC_LENGTH);
    var _, _ := NextBytes(l, MAGIC_LENGTH, t);
    var msgType, body;
    o, msgType := NextBytes(l, TYPE_LENGTH, skipped);
    ghost var typed := Take(skipped, TYPE_LENGTH);
    if !o.Ok? {
      StopsThere(typed, n);
      return o, None;
    }
    o, body := NextBytes(l, l.total - MAGIC_LENGTH - TYPE_LENGTH, typed);
    if !o.Ok? { return o, None; }
    SplitFrame(all, n);
    m := Some(Less(MAGIC, ToNat16(msgType), body));
  }

  lemma SkipsMagic(t: Trail)
    requires Sound(t.p) && t.o.Ok? && MAGIC_LENGTH <= t.remain && Reading(t.p, MAGIC_LENGTH).Ok?
    ensures Take(t, MAGIC_LENGTH).o.Ok?
  {
  }

  lemma SplitFrame(all: seq<Byte>, n: nat)
    requires MAGIC_LENGTH + TYPE_LENGTH <= n && (n <= |all| || |all| >= MAGIC_LENGTH + TYPE_LENGTH)
    ensures all[MAGIC_LENGTH..][..TYPE_LENGTH] == all[MAGIC_LENGTH..MAGIC_LENGTH + TYPE_LENGTH]
    ensures var body := all[MAGIC_LENGTH..][TYPE_LENGTH..];
      n - 6 <= |body| ==> body[..n - 6] == all[6..n] && body[n - 6..] == all[n..]
  {
    assert all[4..][2..] == all[6..];
  }

  /** A packet codec's frame of n bytes handed to a payload codec.  How it ends is determined by the
      position, the length and, for the layered codec, the magic.  A frame that is complete and has
      room is decoded whatever the payload codec does, and then the reader ends up right behind
      the frame and nothing behind the frame is drawn. */
  method DecodeFrame(r: Reader, n: nat, codec: Codec) returns (o: Outcome, m: Option<Msg>)
    requires r.Valid()
    modifies r, r.buff
    ensures r.Valid() && (r.buff == old(r.buff) || fresh(r.buff))
    ensures !codec.Script? ==> o == FrameOutcome(codec, old(r.At()), n, HasMagic(old(r.Unread())))
    ensures Framed(old(r.At()), n) ==> o.Ok?
    ensures o.Ok? && (!codec.Script? || Framed(old(r.At()), n)) ==>
      && n <= |old(r.Unread())| && r.Unread() == old(r.Unread())[n..] && Stepped(old(r.At()), r.At(), n)
      && Decodes(codec, old(r.Unread())[..n], m)
  {
    ghost var p, all := r.At(), r.Unread();
    var l := new Limit(r, n);
    if !codec.Script? {
      FramedOutcome(codec, p, n, HasMagic(all));
    }
    hide Decodes, Take, Look, HasMagic, Reader.Unread, Sound, Reading, Taken, LayeredTrail, TextTrail;
    o, m := Unmarshal(l, codec);
    ghost var left, q := l.remain, r.At();
    if codec.Script? && Framed(p, n) {
      ReleaseInside(l, all, n, p);
      DropDrop(all, n - left, left);
    }
    if left == 0 { NothingLeft(q); }
    var panics := l.Release();
    if panics { o := Panic; }
  }

  lemma NothingLeft(p: Pos)
    requires Sound(p)
    ensures Reading(p, 0).Ok? && Taken(p, 0) == p
  {
  }

  lemma ReleaseInside(l: Limit, all: seq<Byte>, n: nat, p: Pos)
    requires l.Inside(all, n, p) && Sound(p)
    ensures l.r.Valid() && Reading(l.r.At(), l.remain).Ok? && Stepped(p, Taken(l.r.At(), l.remain), n)
  {
    assert l.r.Valid() && Framed(l.r.At(), l.remain);
    hide Reader.Unread, Framed, Sound, Reading, Taken, Stepped, Beyond;
    ReleaseSteps(p, n, l.r.At(), l.remain);
  }

  lemma ReleaseSteps(p: Pos, n: nat, q: Pos, remain: nat)
    requires Sound(p) && Framed(q, remain) && remain <= n
    requires Beyond(q, remain) == Beyond(p, n) && q.readIndex == p.readIndex + (n - remain)
    ensures Reading(q, remain).Ok? && Stepped(p, Taken(q, remain), n)
  {
    FramedReads(q, remain, remain);
    TakenSteps(q, remain);
    hide Reading, Taken;
  }
}
