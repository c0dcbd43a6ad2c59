/** The variable-length packet codec: a 5-byte header, of which 4 hold the body length, allocated
    first and patched after the body has been marshalled. */
module VarLength {
  import opened Common
  import opened Bytes
  import opened Doubling
  import opened BufferReader
  import opened BufferWriter
  import opened Payload

  const HEADER: nat := 5  // binary.MaxVarintLen32

  /** What reaches the connection for a body, from a buffer of the given length.  If the buffer has
      to grow for the body, the patched header stays behind in the old array. */
  function Frame(body: seq<Byte>, length: nat): (s: seq<Byte>)
    ensures |s| == HEADER + |body|
  {
    (if HEADER + |body| <= length then BigEndian32(|body|) + [0] else Zeros(HEADER)) + body
  }

  method Encode(m: Msg, w: Writer)
    requires w.Ready() && w.growable && w.writeIndex == 0 && w.buff.len >= HEADER
    modifies w, w.buff.arr
    ensures w.Valid() && w.sink == old(w.sink) + Frame(Encoding(m), old(w.buff.len))
  {
    hide Encoding, BigEndian32, Zeros, Writer.Contents, Writer.Valid;
    var header := AllocateHeader(w);
    var d := new DirectWriter(w);
    d.Marshal(m);
    Patch(w, header, d.writeIndex, Encoding(m));
    w.Flush();
  }

  /** The first bytes of a buffer that is long enough. */
  method AllocateHeader(w: Writer) returns (header: Slice)
    requires w.Ready() && w.growable && w.writeIndex == 0 && w.buff.len >= HEADER
    modifies w`buff, w`writeIndex
    ensures w.Ready() && w.buff == old(w.buff) && w.writeIndex == HEADER && w.Contents() == Zeros(HEADER)
    ensures w.preWriteIndex == 0 && header == Slice(w.buff.arr, w.buff.off, HEADER) && header.Valid()
  {
    w.ReadyHasRoom(HEADER);
    assert w.Contents() == [];
    var o;
    o, header := w.Malloc(HEADER);
    assert [] + Zeros(HEADER) == Zeros(HEADER);
  }

  /** The patch changes what will be flushed exactly when the writer still uses the header's array. */
  method Patch(w: Writer, header: Slice, n: nat, ghost body: seq<Byte>)
    requires w.Ready() && w.growable && w.preWriteIndex == 0 && header.Valid() && header.len == HEADER
    requires header.arr == w.buff.arr ==> header.off == w.buff.off
    requires w.Contents() == Zeros(HEADER) + body
    modifies header.arr
    ensures w.Valid()
    ensures w.Contents() == (if header.arr == w.buff.arr then BigEndian32(n) + [0] else Zeros(HEADER)) + body
  {
    ghost var held := w.Contents();
    if header.arr == w.buff.arr {
      w.Fill(header, BigEndian32(n), 0);
      assert held[4..] == [0] + body;
      assert w.Contents() == BigEndian32(n) + ([0] + body);
    } else {
      header.Overwrite(BigEndian32(n));
    }
  }

  /** Exact framing.  Decoding ends as the read of the header does if that fails, and otherwise as the
      payload codec does on the length that the header states.  When it succeeds the reader has
      consumed header and body and drawn nothing behind them; that is so for every payload codec
      when the body is complete and has room. */
  method Decode(r: Reader, codec: Codec) returns (o: Outcome, m: Option<Msg>)
    requires r.Valid()
    modifies r, r.buff
    ensures r.Valid() && (r.buff == old(r.buff) || fresh(r.buff))
    ensures var p, all := old(r.At()), old(r.Unread());
      if !Reading(p, HEADER).Ok? then o == Reading(p, HEADER) && m == None
      else
        && HEADER <= |all|
        && var n, q := ToNat32(all[..4]), Taken(p, HEADER);
        && (!codec.Script? ==> o == FrameOutcome(codec, q, n, HasMagic(all[HEADER..])))
        && (Framed(q, n) ==> o.Ok?)
        && (o.Ok? && (!codec.Script? || Framed(q, n)) ==>
             && HEADER + n <= |all| && r.Unread() == all[HEADER + n..] && Stepped(p, r.At(), HEADER + n)
             && Decodes(codec, all[HEADER..HEADER + n], m))
  {
    ghost var p, all := r.At(), r.Unread();
    if Reading(p, HEADER).Ok? { TakenSteps(p, HEADER); }
    hide Reader.Unread, ToNat32, FrameOutcome, Decodes, HasMagic, Framed, Reading, Taken, Sound;
    var length;
    o, length := ReadHeader(r);
    if !o.Ok? { return o, None; }
    o, m := DecodeFrame(r, length, codec);
    Rejoin(all, length);
  }

  lemma Rejoin(all: seq<Byte>, n: nat)
    requires HEADER <= |all|
    ensures HEADER + n <= |all| ==>
      all[HEADER..][..n] == all[HEADER..HEADER + n] && all[HEADER..][n..] == all[HEADER + n..]
  {
  }

  /** Consumes the header and returns the body length in its first four bytes. */
  method ReadHeader(r: Reader) returns (o: Outcome, n: nat)
    requires r.Valid()
    modifies r, r.buff
    ensures r.Valid() && (r.buff == old(r.buff) || fresh(r.buff))
    ensures o == Reading(old(r.At()), HEADER) && r.At() == Taken(old(r.At()), HEADER)
    ensures o.Ok? ==>
      && HEADER <= |old(r.Unread())| && n == ToNat32(old(r.Unread())[..4]) && r.Unread() == old(r.Unread())[HEADER..]
  {
    ghost var all := r.Unread();
    hide Reader.Unread, ToNat32, Reading, Taken;
    n := 0;
    var header;
    o, header := r.Next(HEADER);
    if o.Ok? {
      var prefix := header.arr[header.off..header.off + 4];
      assert prefix == header.Value()[..4] == all[..4];
      n := ToNat32(prefix);
    }
  }

  /** The patched header says the truth exactly when the writer did not have to grow, or when
      there is no body to speak of. */
  lemma HeaderTruth(body: seq<Byte>, length: nat)
    requires length < 0x1_0000_0000
    ensures ToNat32(Frame(body, length)[..4]) == |body| <==> HEADER + |body| <= length || body == []
    ensures HEADER + |body| > length ==> ToNat32(Frame(body, length)[..4]) == 0
  {
    var s := Frame(body, length);
    if HEADER + |body| <= length {
      assert s[..4] == BigEndian32(|body|);
      RoundTrip32(|body|);
    } else {
      assert s[..4] == Zeros(4);
    }
  }

  /** What a new writer flushes for a body that fits its 256 bytes: the length is the fourth byte. */
  lemma SmallFrame(body: seq<Byte>)
    requires |body| <= 251
    ensures DEFAULT_SIZE == 256 && Frame(body, DEFAULT_SIZE) == [0, 0, 0, |body|, 0] + body
  {
    assert BigEndian32(|body|) == [0, 0, 0, |body|];
  }

  /** One message, one new writer. */
  method EncodeOnce(m: Msg) returns (wire: seq<Byte>)
    ensures wire == Frame(Encoding(m), DEFAULT_SIZE)
    ensures |Encoding(m)| <= 251 ==> wire == [0, 0, 0, |Encoding(m)|, 0] + Encoding(m)
  {
    if |Encoding(m)| <= 251 { SmallFrame(Encoding(m)); }
    hide Frame, Encoding;
    var w := new Writer();
    Encode(m, w);
    wire := w.sink;
  }

  /** One message, one new reader. */
  method DecodeOnce(wire: seq<Byte>) returns (m: Option<Msg>)
    requires |wire| >= HEADER && HEADER + ToNat32(wire[..4]) <= |wire| && HEADER + ToNat32(wire[..4]) <= DEFAULT_SIZE
    ensures m == Some(Parse(wire[HEADER..HEADER + ToNat32(wire[..4])]))
  {
    var r := new Reader(wire);
    AfterHeader(|wire| - HEADER);
    hide ToNat32, Parse, FrameOutcome;
    var o;
    o, m := Decode(r, LayeredText);
  }

  /** Encoding with a new writer and decoding with a new reader, as the transport does per message.
      The message comes back if and only if header and body fit the 256-byte buffer and the
      layered payload codec can tell the message apart. */
  method RoundTrip(m: Msg) returns (back: Option<Msg>)
    requires WellTyped(m)
    ensures back == Some(m) <==> HEADER + |Encoding(m)| <= DEFAULT_SIZE && Distinguishable(m)
  {
    ghost var body := Encoding(m);
    HeaderTruth(body, DEFAULT_SIZE);
    LayeredRoundTrip(m);
    var wire := EncodeOnce(m);
    assert wire[HEADER..HEADER + |body|] == body;
    back := DecodeOnce(wire);
  }

  // ------------------------------------------------------------ which frames a new reader can take

  lemma AfterHeader(available: nat)
    ensures Reading(NewReader(HEADER + available), HEADER).Ok?
    ensures Taken(NewReader(HEADER + available), HEADER) == Pos(DEFAULT_SIZE, true, HEADER, HEADER, available)
  {
  }

  /** The body length lies in the window above a doubled buffer length. */
  predicate InWindow(n: nat, above: int, m: nat) {
    DEFAULT_SIZE * Pow2(m) - HEADER < n <= DEFAULT_SIZE * Pow2(m) + above
  }

  ghost predicate Unlucky(n: nat, above: int) {
    exists m: nat :: InWindow(n, above, m)
  }

  /** A request for the rest of an n-byte body when the buffer is filled up to `writeIndex`. */
  lemma UnluckyExactly(writeIndex: nat, n: nat)
    requires HEADER <= writeIndex <= DEFAULT_SIZE && n >= writeIndex - HEADER
    ensures !Room(DEFAULT_SIZE, writeIndex, n + HEADER - writeIndex) <==> Unlucky(n, DEFAULT_SIZE - HEADER - writeIndex)
  {
    var want, above := n + HEADER - writeIndex, DEFAULT_SIZE - HEADER - writeIndex;
    RoomExactly(DEFAULT_SIZE, writeIndex, want);
    assert forall m: nat :: Window(DEFAULT_SIZE, writeIndex, want, m) <==> InWindow(n, above, m);
  }

  /** A new reader panics on the body of a text frame exactly if its length n satisfies
      c - 5 < n <= c + 246 for some c = 256 * 2^m; any other complete body is decoded. */
  lemma TextBody(available: nat, n: nat, magic: bool)
    ensures FrameOutcome(Text, Taken(NewReader(HEADER + available), HEADER), n, magic)
         == if Unlucky(n, 246) then Panic else if available < n then Eof else Ok
  {
    AfterHeader(available);
    UnluckyExactly(HEADER, n);
    TextOutcome(Pos(DEFAULT_SIZE, true, HEADER, HEADER, available), n, magic);
  }

  /** The layered codec reads in smaller portions, which shifts the upper end of the windows: by the
      magic it has looked at, and by magic and type once it has read both. */
  lemma LayeredBody(available: nat, n: nat, magic: bool)
    ensures FrameOutcome(LayeredText, Taken(NewReader(HEADER + available), HEADER), n, magic)
         == if Unlucky(n, if available < 4 then 246 else if !magic || available < 6 then 242 else 240) then Panic
            else if available < n then Eof else Ok
  {
    hide Room, Grown, Unlucky, Reading, Taken, Sound;
    AfterHeader(available);
    UnluckyExactly(5, n);
    if n >= 4 { UnluckyExactly(9, n); }
    if n >= 6 { UnluckyExactly(11, n); }
    if n >= 6 {
      LayeredLong(HEADER, available, n, magic);
    } else {
      LayeredShort(available, n, magic);
    }
  }

  lemma LayeredShort(available: nat, n: nat, magic: bool)
    requires n < MAGIC_LENGTH + TYPE_LENGTH
    ensures FrameOutcome(LayeredText, Pos(DEFAULT_SIZE, true, HEADER, HEADER, available), n, magic)
         == if available < n then Eof else Ok
    ensures !Unlucky(n, 246) && !Unlucky(n, 242) && !Unlucky(n, 240)
  {
  }
}
