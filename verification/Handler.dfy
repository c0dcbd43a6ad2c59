/** What `OnRead` does with one message.  The size check looks at the reader's length after decoding,
    which exact framing makes the length of the frame: nothing else was ever drawn through that
    reader. */
module Handler {
  import opened Common
  import opened Bytes
  import opened Doubling
  import opened BufferReader
  import opened BufferWriter
  import opened Payload
  import opened VarLength

  /** How decoding the next message of a connection with a reader of its own ends. */
  ghost function Decoding(connection: seq<Byte>): (o: Outcome) {
    if |connection| < HEADER then Eof
    else
      var n, body := ToNat32(connection[..4]), connection[HEADER..];
      if Unlucky(n, if |body| < 4 then 246 else if !HasMagic(body) || |body| < 6 then 242 else 240) then Panic
      else if |body| < n then Eof
      else Ok
  }

  /** What `OnRead` comes to: the transport is down, the channel is closed, the message is dropped or
      handed to the inbound pipeline. */
  datatype Reaction = Down | Closed | Dropped | Handed(m: Msg)

  /** The message is decoded and passes the size check, which sees its frame length modulo 2^32. */
  ghost predicate Passes(connection: seq<Byte>, maxReceiveMessageSize: nat) {
    && Decoding(connection).Ok?
    && (maxReceiveMessageSize == 0
        || (HEADER + ToNat32(connection[..4])) % UINT32 <= maxReceiveMessageSize)
  }

  const UINT32: nat := 0x1_0000_0000

  /** One message read with a reader of its own.  The channel is closed exactly when decoding fails or
      panics; otherwise exactly the frame is taken from the stream. */
  method OnRead(serving: bool, connection: seq<Byte>, maxReceiveMessageSize: nat)
    returns (r: Reaction, rest: seq<Byte>)
    ensures r.Down? <==> !serving
    ensures r.Closed? <==> serving && !Decoding(connection).Ok?
    ensures r.Handed? <==> serving && Passes(connection, maxReceiveMessageSize)
    ensures r.Down? ==> rest == connection
    ensures r.Dropped? || r.Handed? ==>
      && HEADER + ToNat32(connection[..4]) <= |connection|
      && rest == connection[HEADER + ToNat32(connection[..4])..]
    ensures r.Handed? ==> r.m == Parse(connection[HEADER..HEADER + ToNat32(connection[..4])])
  {
    hide Decoding, Parse, ToNat32;
    if !serving { return Down, connection; }
    var o, m, length;
    o, m, length, rest := ReadOne(connection);
    if !o.Ok? { return Closed, rest; }
    if maxReceiveMessageSize > 0 && length % UINT32 > maxReceiveMessageSize { return Dropped, rest; }
    r := Handed(m.value);
  }

  // ------------------------------------------------------------ the receive limit

  lemma Pow2At24()
    ensures Pow2(24) == 0x100_0000 && Pow2(23) == 0x80_0000
  {
    assert Pow2(8) == 256;
    assert Pow2(16) == 0x1_0000;
  }

  /** A body of 2^32 - 5 bytes lies in none of the windows that panic, a longer one in all of them. */
  lemma LargestBodies(n: nat, above: int)
    requires UINT32 - HEADER <= n < UINT32 && 0 <= above <= DEFAULT_SIZE
    ensures Unlucky(n, above) <==> n > UINT32 - HEADER
  {
    Pow2At24();
    if n > UINT32 - HEADER {
      assert InWindow(n, above, 24);
    } else {
      forall m: nat
        ensures !InWindow(n, above, m)
      {
        if m >= 24 { Pow2Monotone(24, m); } else { Pow2Monotone(m, 23); }
      }
    }
  }

  /** A message within the limit is handed on whenever it is decoded, and so is every one without a limit.
      Exactly one frame length escapes a limit: a message whose frame exceeds the limit is handed on
      if and only if the frame is 2^32 bytes long and complete.  Longer ones close the channel. */
  lemma LimitEscaped(connection: seq<Byte>, max: nat)
    requires |connection| >= HEADER && max < UINT32
    ensures var n := HEADER + ToNat32(connection[..4]);
      && (n <= max || max == 0 ==> (Passes(connection, max) <==> Decoding(connection).Ok?))
      && (0 < max < n ==> (Passes(connection, max) <==> n == UINT32 <= |connection|))
      && (n > UINT32 ==> Decoding(connection) == Panic)
  {
    var n := ToNat32(connection[..4]);
    if n >= UINT32 - HEADER {
      LargestBodies(n, 246);
      LargestBodies(n, 242);
      LargestBodies(n, 240);
    }
    hide Unlucky, ToNat32, HasMagic;
  }

  /** Such a frame, for every limit. */
  lemma EscapingFrame(max: nat) returns (connection: seq<Byte>)
    ensures |connection| == UINT32 && Passes(connection, max)
  {
    hide Unlucky, HasMagic;
    var body: seq<Byte> := seq(UINT32 - HEADER, _ => 0);
    connection := BigEndian32(UINT32 - HEADER) + [0] + body;
    assert connection[..4] == BigEndian32(UINT32 - HEADER);
    RoundTrip32(UINT32 - HEADER);
    LargestBodies(UINT32 - HEADER, 246);
    LargestBodies(UINT32 - HEADER, 242);
    LargestBodies(UINT32 - HEADER, 240);
  }

  // ------------------------------------------------------------ one message

  /** Decodes with a new reader and reports how much was read through it. */
  method ReadOne(connection: seq<Byte>) returns (o: Outcome, m: Option<Msg>, length: nat, rest: seq<Byte>)
    ensures o == Decoding(connection)
    ensures o.Ok? ==>
      && |connection| >= HEADER && length == HEADER + ToNat32(connection[..4]) <= |connection|
      && rest == connection[length..] && m == Some(Parse(connection[HEADER..length]))
  {
    hide Decoding, FrameOutcome, Parse, ToNat32, HasMagic, Reading, Taken, Framed, Sound, Reader.Unread;
    DecodingIs(connection);
    var r := new Reader(connection);
    o, m := VarLength.Decode(r, LayeredText);
    length, rest := r.writeIndex, r.source;
    if o.Ok? { ConsumedAll(r); }
  }

  /** The spelled-out outcome is what the codec does with a new reader. */
  lemma DecodingIs(connection: seq<Byte>)
    ensures var p := NewReader(|connection|);
      if |connection| < HEADER then Reading(p, HEADER) == Eof == Decoding(connection)
      else
        && Reading(p, HEADER).Ok?
        && Decoding(connection)
           == FrameOutcome(LayeredText, Taken(p, HEADER), ToNat32(connection[..4]), HasMagic(connection[HEADER..]))
  {
    hide FrameOutcome, ToNat32, HasMagic, Unlucky, Reading, Taken;
    HeaderFirst(connection);
    if |connection| >= HEADER {
      LayeredBody(|connection| - HEADER, ToNat32(connection[..4]), HasMagic(connection[HEADER..]));
    }
  }

  lemma HeaderFirst(connection: seq<Byte>)
    ensures Reading(NewReader(|connection|), HEADER) == if |connection| < HEADER then Eof else Ok
  {
  }

  /** With nothing buffered the rest of the stream is what the connection still holds. */
  lemma ConsumedAll(r: Reader)
    requires r.Valid() && r.readIndex == r.writeIndex
    ensures r.source == r.Unread()
  {
  }

  // ------------------------------------------------------------ streams of messages

  /** A message that the codec brings back: it fits the first buffer with its header and can be told
      apart. */
  predicate Good(m: Msg) {
    HEADER + |Encoding(m)| <= DEFAULT_SIZE && Distinguishable(m)
  }

  /** All messages as their writers flush them, one after the other. */
  function Wire(ms: seq<Msg>): (s: seq<Byte>) {
    if ms == [] then [] else Frame(Encoding(ms[0]), DEFAULT_SIZE) + Wire(ms[1..])
  }

  lemma {:induction false} WireSnoc(ms: seq<Msg>, m: Msg)
    ensures Wire(ms + [m]) == Wire(ms) + Frame(Encoding(m), DEFAULT_SIZE)
  {
    if ms == [] {
      assert ms + [m] == [m];
      assert Wire([m]) == Frame(Encoding(m), DEFAULT_SIZE) + Wire([]);
    } else {
      assert (ms + [m])[1..] == ms[1..] + [m];
      WireSnoc(ms[1..], m);
    }
  }

  /** Sends every message through a writer of its own. */
  method Send(ms: seq<Msg>) returns (wire: seq<Byte>)
    ensures wire == Wire(ms)
  {
    wire := [];
    for i := 0 to |ms|
      invariant wire == Wire(ms[..i])
    {
      var frame := EncodeOnce(ms[i]);
      WireSnoc(ms[..i], ms[i]);
      assert ms[..i + 1] == ms[..i] + [ms[i]];
      wire := wire + frame;
    }
    assert ms[..|ms|] == ms;
  }

  /** The next message of a stream whose frames are in step: it is always decoded, it comes back if and
      only if it is good, and behind a good one the stream is still in step. */
  lemma NextInStep(m: Msg, more: seq<Byte>)
    requires WellTyped(m)
    ensures var s := Frame(Encoding(m), DEFAULT_SIZE) + more;
      && Decoding(s).Ok?
      && var n := HEADER + ToNat32(s[..4]);
      && n <= |s| && (Parse(s[HEADER..n]) == m <==> Good(m)) && (Good(m) ==> s[n..] == more)
  {
    var body := Encoding(m);
    var s := Frame(body, DEFAULT_SIZE) + more;
    HeaderTruth(body, DEFAULT_SIZE);
    assert s[..4] == Frame(body, DEFAULT_SIZE)[..4];
    LayeredRoundTrip(m);
    hide Distinguishable, Encoding, Parse, ToNat32, HasMagic;
    var n := ToNat32(s[..4]);
    assert !Unlucky(n, 246) && !Unlucky(n, 242) && !Unlucky(n, 240) by { SmallIsLucky(n); }
    if n == |body| {
      assert s[HEADER..HEADER + n] == body;
      assert s[HEADER + n..] == more;
    } else {
      ParseNothing(m, s[HEADER..HEADER + n]);
    }
  }

  lemma SmallIsLucky(n: nat)
    requires n <= DEFAULT_SIZE - HEADER
    ensures forall above: int :: !Unlucky(n, above)
  {
  }

  lemma ParseNothing(m: Msg, s: seq<Byte>)
    requires s == [] && Encoding(m) != []
    ensures Parse(s) != m
  {
  }

  /** A stream read as the transport reads it, with a new reader for every message, until as many have
      come as were sent or the channel is closed.  What comes back is what was sent if and only if
      every message is good. */
  method Transmit(ms: seq<Msg>) returns (back: seq<Msg>)
    requires forall m <- ms :: WellTyped(m)
    ensures back == ms <==> forall m <- ms :: Good(m)
  {
    hide Decoding, Good, Wire, Parse, ToNat32, Encoding;
    var rest := Send(ms);
    back := [];
    assert ms[0..] == ms;
    ghost var spoiled: Option<nat> := None;
    while |back| < |ms|
      invariant |back| <= |ms|
      invariant spoiled.None? ==> rest == Wire(ms[|back|..]) && back == ms[..|back|] && forall m <- back :: Good(m)
      invariant spoiled.Some? ==> Spoiled(ms, back, spoiled.value)
      decreases |ms| - |back|
    {
      ghost var i := |back|;
      if spoiled.None? { WireHead(ms, i); }
      var o, m, _, tail := ReadOne(rest);
      if !o.Ok? {
        assert spoiled.Some?;
        break;
      }
      if spoiled.None? && !Good(ms[i]) { spoiled := Some(i); }
      back, rest := back + [m.value], tail;
      assert spoiled.None? ==> back == ms[..i + 1];
    }
  }

  /** Message j came back wrong. */
  predicate Spoiled(ms: seq<Msg>, back: seq<Msg>, j: nat) {
    j < |ms| && !Good(ms[j]) && j < |back| && back[j] != ms[j]
  }

  lemma WireHead(ms: seq<Msg>, i: nat)
    requires i < |ms| && WellTyped(ms[i])
    ensures var s := Wire(ms[i..]);
      && Decoding(s).Ok?
      && var n := HEADER + ToNat32(s[..4]);
      && n <= |s| && (Parse(s[HEADER..n]) == ms[i] <==> Good(ms[i])) && (Good(ms[i]) ==> s[n..] == Wire(ms[i + 1..]))
  {
    assert ms[i..][1..] == ms[i + 1..];
    NextInStep(ms[i], Wire(ms[i + 1..]));
  }
}
