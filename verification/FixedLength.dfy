/** The fixed-length packet codec: the payload is marshalled into a window of the outer buffer. */
module FixedLength {
  import opened Common
  import opened Bytes
  import opened Doubling
  import opened BufferReader
  import opened BufferWriter
  import opened Payload

  /** Marshals a message into a window of `length` bytes; its encoding must not be longer. */
  method Encode(m: Msg, length: nat, w: Writer) returns (ok: bool)
    requires w.Ready() && w.growable && w.writeIndex == 0
    modifies w, w.buff.arr
    ensures w.Valid() && (ok <==> |Encoding(m)| <= length)
    ensures w.sink == old(w.sink) + if ok then Encoding(m) + Zeros(length - |Encoding(m)|) else []
  {
    w.ReadyHasRoom(length);
    var _, window := w.Malloc(length);
    assert w.Contents() == Zeros(length);
    hide Encoding;
    ok := MarshalInto(m, window, w);
    if ok {
      w.Flush();
    }
  }

  /** The inner writer writes through the window into the outer writer's buffer. */
  method MarshalInto(m: Msg, window: Slice, w: Writer) returns (ok: bool)
    requires w.Valid() && w.growable && w.preWriteIndex == 0
    requires window == Slice(w.buff.arr, w.buff.off, w.writeIndex) && w.Contents() == Zeros(window.len)
    modifies window.arr
    ensures w.Valid() && (ok <==> |Encoding(m)| <= window.len)
    ensures ok ==> w.Contents() == Encoding(m) + Zeros(window.len - |Encoding(m)|)
  {
    assert forall i | 0 <= i < window.len :: window.arr[window.off + i] == w.Contents()[i];
    hide Encoding, Writer.Contents;
    var inner := new Writer.WithBuff(window);
    ok := MarshalTo(inner, m);
    KeepsOuter(old(window.arr[..]), w, window);
    if ok {
      assert inner.Contents() == [] + Encoding(m) == Encoding(m);
      WindowFilled(inner, w, window);
    }
  }

  /** Writing inside the pending part of a writer leaves the writer as it should be. */
  lemma KeepsOuter(before: seq<Byte>, w: Writer, window: Slice)
    requires window.Valid() && Kept(before, window) && w.buff.Valid() && w.growable && w.preWriteIndex == 0
    requires window == Slice(w.buff.arr, w.buff.off, w.writeIndex) && w.writeIndex <= w.buff.len
    requires w.buff.off + w.buff.len == w.buff.arr.Length
    requires forall i | w.buff.off + w.writeIndex <= i < w.buff.off + w.buff.len :: before[i] == 0
    ensures w.Valid()
  {
  }

  lemma WindowFilled(inner: Writer, w: Writer, window: Slice)
    requires inner.Valid() && !inner.growable && inner.buff == window && inner.preWriteIndex == 0
    requires w.Valid() && w.preWriteIndex == 0 && window == Slice(w.buff.arr, w.buff.off, w.writeIndex)
    ensures |inner.Contents()| <= window.len
    ensures w.Contents() == inner.Contents() + Zeros(window.len - |inner.Contents()|)
  {
    var arr, off, n := window.arr, window.off, inner.writeIndex;
    assert arr[off + n..off + window.len] == Zeros(window.len - n);
    assert arr[off..off + window.len] == arr[off..off + n] + arr[off + n..off + window.len];
  }

  /** Exact framing for the fixed-length codec, as for any frame of that many bytes. */
  method Decode(r: Reader, length: nat, codec: Codec) returns (o: Outcome, m: Option<Msg>)
    requires r.Valid()
    modifies r, r.buff
    ensures r.Valid() && (r.buff == old(r.buff) || fresh(r.buff))
    ensures !codec.Script? ==> o == FrameOutcome(codec, old(r.At()), length, HasMagic(old(r.Unread())))
    ensures Framed(old(r.At()), length) ==> o.Ok?
    ensures o.Ok? && (!codec.Script? || Framed(old(r.At()), length)) ==>
      && length <= |old(r.Unread())| && r.Unread() == old(r.Unread())[length..]
      && Stepped(old(r.At()), r.At(), length) && Decodes(codec, old(r.Unread())[..length], m)
  {
    hide *;
    o, m := DecodeFrame(r, length, codec);
  }

  predicate InGap(length: nat, above: int, m: nat) {
    256 * Pow2(m) < length <= 256 * Pow2(m) + above
  }

  ghost predicate Gapped(length: nat, above: int) {
    exists m: nat :: InGap(length, above, m)
  }

  /** The room for the rest of a frame of which k bytes have been drawn by a new reader. */
  lemma GapExactly(length: nat, k: nat)
    requires k <= length
    ensures Room(256, k, length - k) <==> !Gapped(length, 256 - k)
  {
    var want, above := length - k, 256 - k;
    RoomExactly(256, k, want);
    assert forall m: nat :: Window(256, k, want, m) <==> InGap(length, above, m);
  }

  /** Which lengths a new reader can take: all but those with c < length <= c + 256 for some
      c = 256 * 2^m. */
  lemma LengthTaken(length: nat, magic: bool)
    ensures FrameOutcome(Text, NewReader(length), length, magic) == if Room(256, 0, length) then Ok else Panic
    ensures Room(256, 0, length) <==> !Gapped(length, 256)
  {
    TextOutcome(NewReader(length), length, magic);
    GapExactly(length, 0);
  }

  /** A text round-trips if and only if it fills the frame and a new reader can take that length:
      shorter texts come back padded. */
  method RoundTrip(text: seq<Byte>, length: nat) returns (back: Option<Msg>)
    ensures back == Some(Plain(text)) <==> |text| == length && Room(256, 0, length)
  {
    var w := new Writer();
    var ok := Encode(Plain(text), length, w);
    if !ok { return None; }
    var r := new Reader(w.sink);
    LengthTaken(length, HasMagic(w.sink));
    hide FrameOutcome, Room;
    var o, m := Decode(r, length, Text);
    if !o.Ok? { return None; }
    back := m;
    assert w.sink[..length] == w.sink;
    assert |text| == length ==> w.sink == text;
  }

  /** How many bytes the layered codec has drawn when it asks for the rest of a message. */
  function DrawnBefore(m: Msg): (k: nat) {
    if m.Less? then MAGIC_LENGTH + TYPE_LENGTH else MAGIC_LENGTH
  }

  /** A message of the layered codec round-trips if and only if it can be told apart, fills the frame
      and the length is not in a gap c < length <= c + 250, or c + 252 for an inner message, for any
      c = 256 * 2^m. */
  method LayeredRoundTrip(m: Msg, length: nat) returns (back: Option<Msg>)
    requires WellTyped(m)
    ensures back == Some(m) <==>
      && |Encoding(m)| == length && Distinguishable(m)
      && !Gapped(length, 256 - DrawnBefore(m))
  {
    hide FrameOutcome, Gapped, Parse, Distinguishable, Encoding, HasMagic;
    var w := new Writer();
    var ok := Encode(m, length, w);
    if !ok { return None; }
    assert w.sink == Padded(m, length);
    var r := new Reader(w.sink);
    LayeredLength(m, length);
    var o, got := Decode(r, length, LayeredText);
    if !o.Ok? { return None; }
    back := got;
    assert w.sink[..length] == w.sink;
  }

  /** What is flushed for a message that is not too long. */
  function Padded(m: Msg, length: nat): (s: seq<Byte>)
    requires |Encoding(m)| <= length
    ensures |s| == length
  {
    Encoding(m) + Zeros(length - |Encoding(m)|)
  }

  lemma LayeredLength(m: Msg, length: nat)
    requires WellTyped(m) && |Encoding(m)| <= length
    ensures var s := Padded(m, length);
      Parse(s) == m && FrameOutcome(LayeredText, NewReader(length), length, HasMagic(s)).Ok? <==>
      && |Encoding(m)| == length && Distinguishable(m)
      && !Gapped(length, 256 - DrawnBefore(m))
  {
    var s := Padded(m, length);
    if Parse(s) == m { ParseLength(s); }
    if |Encoding(m)| == length {
      assert s == Encoding(m);
      Payload.LayeredRoundTrip(m);
      if Distinguishable(m) { LayeredTaken(m); }
    }
    hide FrameOutcome, Gapped, Parse, Distinguishable, Encoding, HasMagic, Padded;
  }

  lemma ParseLength(s: seq<Byte>)
    ensures |Encoding(Parse(s))| == |s|
  {
  }

  lemma LayeredTaken(m: Msg)
    requires WellTyped(m) && Distinguishable(m)
    ensures var s := Encoding(m);
      FrameOutcome(LayeredText, NewReader(|s|), |s|, HasMagic(s)).Ok? <==>
      !Gapped(|s|, 256 - DrawnBefore(m))
  {
    hide FrameOutcome, HasMagic, Encoding, Room, Gapped;
    var s := Encoding(m);
    if |s| < MAGIC_LENGTH + TYPE_LENGTH {
      ShortFrame(|s|, HasMagic(s), 256 - DrawnBefore(m));
    } else {
      GapExactly(|s|, DrawnBefore(m));
      LayeredLong(0, |s|, |s|, HasMagic(s));
      MagicTells(m);
    }
  }

  lemma MagicTells(m: Msg)
    requires Distinguishable(m) && |Encoding(m)| >= MAGIC_LENGTH + TYPE_LENGTH
    ensures HasMagic(Encoding(m)) == m.Less?
  {
    if m.Less? {
      assert Encoding(m)[..4] == BigEndian32(MAGIC);
      RoundTrip32(MAGIC);
    }
  }

  lemma ShortFrame(n: nat, magic: bool, above: int)
    requires n < MAGIC_LENGTH + TYPE_LENGTH
    ensures FrameOutcome(LayeredText, NewReader(n), n, magic).Ok? && !Gapped(n, above)
  {
    LastTake(NewReader(n), n);
  }
}
