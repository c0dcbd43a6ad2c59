/** The delimiter packet codec: frames end with a delimiter, found by peeking one byte further at a
    time, through any number of buffer growths. */
module Delimiter {
  import opened Common
  import opened Bytes
  import opened BufferReader
  import opened BufferWriter
  import opened Payload

  /** The first L bytes of s end with the delimiter. */
  predicate EndsAt(s: seq<Byte>, d: seq<Byte>, L: nat) {
    |d| <= L <= |s| && s[L - |d|..L] == d
  }

  /** The length of the shortest prefix of s, from length L on and up to max, that ends with d. */
  function FirstEnd(s: seq<Byte>, d: seq<Byte>, L: nat, max: nat): (r: Option<nat>)
    ensures r.Some? ==> L <= r.value <= max && EndsAt(s, d, r.value)
    decreases |s| - L
  {
    if L > max || L > |s| then None
    else if EndsAt(s, d, L) then Some(L)
    else FirstEnd(s, d, L + 1, max)
  }

  /** No shorter prefix ends with the delimiter. */
  lemma {:induction false} FirstEndIsFirst(s: seq<Byte>, d: seq<Byte>, L: nat, max: nat, k: nat)
    requires L <= k && var r := FirstEnd(s, d, L, max); if r.Some? then k < r.value else k <= max
    ensures !EndsAt(s, d, k)
    decreases |s| - L
  {
    if L < k && L <= |s| {
      FirstEndIsFirst(s, d, L + 1, max, k);
    }
  }

  predicate OccursAt(s: seq<Byte>, d: seq<Byte>, i: nat) {
    i + |d| <= |s| && s[i..i + |d|] == d
  }

  ghost predicate Occurs(s: seq<Byte>, d: seq<Byte>) {
    exists i: nat :: OccursAt(s, d, i)
  }

  /** The delimiter does not occur in the message, nor across its end. */
  ghost predicate Clean(text: seq<Byte>, d: seq<Byte>)
    requires d != []
  {
    !Occurs(text + d[..|d| - 1], d)
  }

  /** The frame is found where it ends exactly for the clean messages that are short enough. */
  lemma FrameFound(text: seq<Byte>, d: seq<Byte>, rest: seq<Byte>, max: nat)
    requires d != []
    ensures FirstEnd(text + d + rest, d, 1, max) == Some(|text| + |d|)
       <==> Clean(text, d) && |text| + |d| <= max
  {
    var s, n := text + d + rest, |text| + |d|;
    var head := text + d[..|d| - 1];
    assert s[|text|..n] == d;
    assert forall i: nat | i < n - 1 :: s[i] == head[i];
    forall L: nat | L < n
      ensures EndsAt(s, d, L) <==> L >= |d| && OccursAt(head, d, L - |d|)
    {
      if L >= |d| { assert s[L - |d|..L] == head[L - |d|..L]; }
    }
    assert EndsAt(s, d, n);
    var r := FirstEnd(s, d, 1, max);
    if Clean(text, d) && n <= max && (r.None? || r.value > n) {
      FirstEndIsFirst(s, d, 1, max, n);
    }
    if r == Some(n) {
      forall i: nat
        ensures !OccursAt(head, d, i)
      {
        if i + |d| < n { FirstEndIsFirst(s, d, 1, max, i + |d|); }
      }
    }
  }

  // ------------------------------------------------------------ the codec

  /** Marshals straight into the writer and appends the delimiter unless that is switched off. */
  method Encode(m: Msg, d: seq<Byte>, autoAppend: bool, w: Writer)
    requires w.Ready() && w.growable && w.writeIndex == 0
    modifies w, w.buff.arr
    ensures w.Valid() && w.sink == old(w.sink) + Encoding(m) + if autoAppend then d else []
  {
    assert w.Contents() == [];
    hide *;
    var _ := MarshalTo(w, m);
    assert w.Contents() == [] + Encoding(m) == Encoding(m);
    Finish(w, if autoAppend then d else [], Encoding(m));
  }

  /** Appends what is to be appended and flushes. */
  method Finish(w: Writer, d: seq<Byte>, ghost body: seq<Byte>)
    requires w.Ready() && w.growable && w.Contents() == body
    modifies w, w.buff.arr
    ensures w.Valid() && w.sink == old(w.sink) + body + d
  {
    hide Writer.Valid, Writer.Contents;
    if d != [] {
      var _ := PutAll(w, d);
    }
    ghost var all := w.Contents();
    assert all == body + d;
    w.Flush();
    assert old(w.sink) + (body + d) == old(w.sink) + body + d;
  }

  datatype Search = Found(length: nat) | TooLong | Closed

  /** Looks for the end of the frame.  Each peek asks for one byte more than is buffered, so the
      buffer always grows enough; nothing is consumed and nothing behind the frame is drawn. */
  method FindEnd(r: Reader, d: seq<Byte>, max: nat) returns (found: Search)
    requires r.Valid() && r.growable
    modifies r, r.buff
    ensures r.Valid() && (r.buff == old(r.buff) || fresh(r.buff))
    ensures !found.Closed? ==> r.Unread() == old(r.Unread()) && r.readIndex == old(r.readIndex)
    ensures match FirstEnd(old(r.Unread()), d, 1, max)
            case Some(L) => found == Found(L)
            case None => found == if |old(r.Unread())| >= max then TooLong else Closed
    ensures found.Found? ==>
      r.writeIndex - r.readIndex
        == if found.length < old(r.writeIndex - r.readIndex) then old(r.writeIndex - r.readIndex) else found.length
  {
    hide Reader.Unread, Reader.Buffered, Reader.Valid, EndsAt;
    ghost var s := r.Unread();
    ghost var b0 := r.writeIndex - r.readIndex;
    InOrder(r);
    assert b0 <= |s|;
    var L := 1;
    while L <= max
      invariant 1 <= L && r.Valid() && r.Unread() == s && r.readIndex == old(r.readIndex)
      invariant r.buff == old(r.buff) || fresh(r.buff)
      invariant r.writeIndex - r.readIndex == if L - 1 < b0 then b0 else L - 1
      invariant L <= max + 1 || L == 1
      invariant L - 1 <= |s|
      invariant FirstEnd(s, d, L, max) == FirstEnd(s, d, 1, max)
    {
      var o, ends := PeekEnd(r, d, L);
      if o.Eof? { return Closed; }
      if ends { return Found(L); }
      L := L + 1;
    }
    return TooLong;
  }

  lemma InOrder(r: Reader)
    requires r.Valid()
    ensures r.readIndex <= r.writeIndex && r.writeIndex - r.readIndex <= |r.Unread()|
  {
  }

  lemma TailEnds(s: seq<Byte>, d: seq<Byte>, L: nat)
    requires L <= |s|
    ensures EndsAt(s, d, L) <==> L >= |d| && s[..L][L - |d|..] == d
  {
    assert L >= |d| ==> s[..L][L - |d|..] == s[L - |d|..L];
  }

  /** Peeks L bytes and compares their end with the delimiter. */
  method PeekEnd(r: Reader, d: seq<Byte>, L: nat) returns (o: Outcome, ends: bool)
    requires r.Valid() && r.growable && L <= r.writeIndex - r.readIndex + 1
    modifies r, r.buff
    ensures r.Valid() && (r.buff == old(r.buff) || fresh(r.buff)) && r.readIndex == old(r.readIndex)
    ensures o == if L <= |old(r.Unread())| then Ok else Eof
    ensures o.Ok? ==> r.Unread() == old(r.Unread()) && (ends <==> EndsAt(r.Unread(), d, L))
    ensures o.Ok? ==>
      r.writeIndex - r.readIndex == if L <= old(r.writeIndex - r.readIndex) then old(r.writeIndex - r.readIndex) else L
  {
    ghost var all := r.Unread();
    assert |all| == r.writeIndex - r.readIndex + |r.source|;
    OneMore(r, L);
    PeekStep(r.At(), L);
    hide Reading, Peeked, Reader.Unread, EndsAt;
    var peek;
    o, peek := r.Peek(L);
    ends := false;
    if o.Ok? {
      var bytes := peek.arr[peek.off..peek.off + peek.len];
      assert bytes == all[..L];
      ends := L >= |d| && bytes[L - |d|..] == d;
      TailEnds(all, d, L);
    }
  }

  lemma PeekStep(p: Pos, n: nat)
    requires Sound(p)
    ensures Peeked(p, n).readIndex == p.readIndex
    ensures Reading(p, n).Ok? ==>
      Peeked(p, n).writeIndex - p.readIndex == if n <= p.writeIndex - p.readIndex then p.writeIndex - p.readIndex else n
  {
  }

  /** A peek for at most one byte more than is buffered ends well or at the end of the stream. */
  lemma OneMore(r: Reader, n: nat)
    requires r.Valid() && r.growable && n <= r.writeIndex - r.readIndex + 1
    ensures Reading(r.At(), n) == if n <= r.writeIndex - r.readIndex + |r.source| then Ok else Eof
  {
    if r.writeIndex >= r.buff.Length {
      FullBufferHasRoom(r.buff.Length, r.writeIndex, 1);
    }
  }

  /** Exact framing for the delimiter codec, without any room to be promised: the reader ends up
      right behind the delimiter, whatever the payload codec does. */
  method Decode(r: Reader, d: seq<Byte>, max: nat, strip: bool, codec: Codec) returns (found: Search, m: Option<Msg>)
    requires r.Valid() && r.growable
    modifies r, r.buff
    ensures r.Valid() && (r.buff == old(r.buff) || fresh(r.buff))
    ensures match FirstEnd(old(r.Unread()), d, 1, max)
            case Some(L) =>
              && found == Found(L) && r.Unread() == old(r.Unread())[L..] && r.readIndex == old(r.readIndex) + L
              && Decodes(codec, old(r.Unread())[..if strip then L - |d| else L], m)
            case None => found == if |old(r.Unread())| >= max then TooLong else Closed
    ensures found.TooLong? ==> r.Unread() == old(r.Unread())
    ensures found.Found? && old(r.readIndex == r.writeIndex) ==> r.readIndex == r.writeIndex
  {
    m := None;
    found := FindEnd(r, d, max);
    if found.Found? {
      m := Take(r, found.length, if strip then |d| else 0, codec);
    }
  }

  /** Hands the buffered frame without its last k bytes to the payload codec and skips those. */
  method Take(r: Reader, L: nat, k: nat, codec: Codec) returns (m: Option<Msg>)
    requires r.Valid() && k <= L <= r.writeIndex - r.readIndex
    modifies r, r.buff
    ensures r.Valid() && (r.buff == old(r.buff) || fresh(r.buff)) && L <= |old(r.Unread())|
    ensures r.Unread() == old(r.Unread())[L..] && Decodes(codec, old(r.Unread())[..L - k], m)
    ensures r.writeIndex - r.readIndex == old(r.writeIndex - r.readIndex) - L && r.readIndex == old(r.readIndex) + L
  {
    hide Decodes, HasMagic, Reader.Unread, Reader.Buffered, FrameOutcome, Reading, Taken, Framed, Stepped, Sound;
    ghost var p, all := r.At(), r.Unread();
    BufferedFrame(p, L, k);
    var o;
    o, m := DecodeFrame(r, L - k, codec);
    ThenDelimiter(p, r.At(), L, k);
    var _, _ := r.Next(k);
    DropDrop(all, L - k, k);
  }

  lemma BufferedFrame(p: Pos, L: nat, k: nat)
    requires Sound(p) && k <= L <= p.writeIndex - p.readIndex
    ensures Framed(p, L - k)
  {
  }

  /** Behind the frame the delimiter is buffered as well. */
  lemma ThenDelimiter(p: Pos, q: Pos, L: nat, k: nat)
    requires Sound(p) && k <= L <= p.writeIndex - p.readIndex && Sound(q) && Stepped(p, q, L - k)
    ensures Reading(q, k).Ok?
    ensures var end := Taken(q, k);
      end.readIndex == p.readIndex + L && end.writeIndex == p.writeIndex
  {
    FramedReads(q, k, k);
    TakenSteps(q, k);
  }

  // ------------------------------------------------------------ streams of messages

  /** All messages with their delimiters, one after the other. */
  function Wire(texts: seq<seq<Byte>>, d: seq<Byte>): (s: seq<Byte>) {
    if texts == [] then [] else texts[0] + d + Wire(texts[1..], d)
  }

  lemma {:induction false} WireSnoc(texts: seq<seq<Byte>>, text: seq<Byte>, d: seq<Byte>)
    ensures Wire(texts + [text], d) == Wire(texts, d) + text + d
  {
    if texts == [] {
      assert texts + [text] == [text];
      assert Wire([text], d) == text + d + Wire([], d);
    } else {
      assert (texts + [text])[1..] == texts[1..] + [text];
      WireSnoc(texts[1..], text, d);
      assert texts[0] + d + (Wire(texts[1..], d) + text + d) == texts[0] + d + Wire(texts[1..], d) + text + d;
    }
  }

  /** Sends every message through a writer of its own. */
  method Send(texts: seq<seq<Byte>>, d: seq<Byte>) returns (wire: seq<Byte>)
    ensures wire == Wire(texts, d)
  {
    wire := [];
    for i := 0 to |texts|
      invariant wire == Wire(texts[..i], d)
    {
      var w := new Writer();
      Encode(Plain(texts[i]), d, true, w);
      wire := wire + w.sink;
      WireSnoc(texts[..i], texts[i], d);
      assert texts[..i + 1] == texts[..i] + [texts[i]];
    }
    assert texts[..|texts|] == texts;
  }

  /** Stream round trip: any list of clean messages, of any length within the limit, sent one by
      one and decoded from one reader, comes back as it was. */
  method Transmit(texts: seq<seq<Byte>>, d: seq<Byte>, max: nat) returns (back: seq<seq<Byte>>)
    requires d != [] && forall t <- texts :: Clean(t, d) && |t| + |d| <= max
    ensures back == texts
  {
    hide Reader.Unread, Clean, Wire;
    var wire := Send(texts, d);
    var r := new Reader(wire);
    back := [];
    assert texts[0..] == texts;
    for i := 0 to |texts|
      invariant r.Valid() && fresh(r) && fresh(r.buff) && r.growable
      invariant r.Unread() == Wire(texts[i..], d) && back == texts[..i]
    {
      var text := Receive(r, texts[i..], d, max);
      back := back + [text];
    }
  }

  method Receive(r: Reader, ghost texts: seq<seq<Byte>>, d: seq<Byte>, max: nat) returns (text: seq<Byte>)
    requires r.Valid() && r.growable && d != [] && texts != [] && r.Unread() == Wire(texts, d)
    requires Clean(texts[0], d) && |texts[0]| + |d| <= max
    modifies r, r.buff
    ensures r.Valid() && (r.buff == old(r.buff) || fresh(r.buff))
    ensures text == texts[0] && r.Unread() == Wire(texts[1..], d)
  {
    ghost var rest := Wire(texts[1..], d);
    FrameFound(texts[0], d, rest, max);
    var _, m := Decode(r, d, max, true, Text);
    assert (texts[0] + d + rest)[..|texts[0]|] == texts[0];
    assert (texts[0] + d + rest)[|texts[0]| + |d|..] == rest;
    text := m.value.text;
  }
}
