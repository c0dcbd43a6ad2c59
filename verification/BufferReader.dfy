/** The growable buffer reader.  `source` is what the connection has still to deliver; the buffer
    holds what was drawn from it and not yet read. */
module BufferReader {
  import opened Bytes
  import opened Doubling

  /** How a read ends.  `Panic` is the slice-bounds panic of a buffer that did not grow enough,
      `OverLimit` the refusal of a limit reader. */
  datatype Outcome = Ok | NotEnough | Eof | Panic | OverLimit

  // ------------------------------------------------------------ growing

  /** The buffer length after `growth`, called because `want` more bytes do not fit behind
      `writeIndex`.  The argument of `growth` is already net of the free space. */
  function Grown(length: nat, writeIndex: nat, want: nat): (c: nat)
    requires 0 < length < writeIndex + want
  {
    Doubled(length, writeIndex + (want + writeIndex - length))
  }

  /** Whether `want` more bytes have room behind `writeIndex`, after growing if need be. */
  predicate Room(length: nat, writeIndex: nat, want: nat)
    requires length > 0
  {
    length >= writeIndex + want || Grown(length, writeIndex, want) >= writeIndex + want
  }

  /** A full buffer always grows enough. */
  lemma FullBufferHasRoom(length: nat, writeIndex: nat, want: nat)
    requires 0 < length <= writeIndex
    ensures Room(length, writeIndex, want)
  {
  }

  /** `want` lies in the window above some doubled length for which growing stops too early. */
  predicate Window(length: nat, writeIndex: nat, want: nat, m: nat) {
    length * Pow2(m) - writeIndex < want <= length * Pow2(m) + length - 2 * writeIndex
  }

  ghost predicate Outgrown(length: nat, writeIndex: nat, want: nat) {
    exists m: nat :: Window(length, writeIndex, want, m)
  }

  /** Exactly which requests outgrow the buffer: with F free bytes, those that exceed the free
      space behind some doubled length by at most F. */
  lemma RoomExactly(length: nat, writeIndex: nat, want: nat)
    requires length > 0
    ensures !Room(length, writeIndex, want) <==> exists m: nat :: Window(length, writeIndex, want, m)
  {
    var min := writeIndex + (want + writeIndex - length);
    if length < writeIndex + want && min >= 0 {
      DoubledIsLeast(length, min);
      if !Room(length, writeIndex, want) {
        var m := DoubledIsPower(length, min);
        assert Window(length, writeIndex, want, m);
      }
    }
    if length >= writeIndex + want {
      forall m: nat
        ensures !Window(length, writeIndex, want, m)
      {
        MulMonotone(length, 1, Pow2(m));
      }
    }
  }

  // ------------------------------------------------------------ where a reader stands

  /** Everything about a reader except the bytes. */
  datatype Pos = Pos(length: nat, growable: bool, readIndex: nat, writeIndex: nat, available: nat)

  /** The indices pass the end of the buffer only together, when reads bypass it. */
  predicate Sound(p: Pos) {
    && p.readIndex <= p.writeIndex
    && (p.growable ==> p.length > 0)
    && (p.readIndex < p.writeIndex ==> p.writeIndex <= p.length)
  }

  function NewReader(available: nat): (p: Pos)
    ensures Sound(p)
  {
    Pos(256, true, 0, 0, available)
  }

  /** What reading up to `n` bytes ahead does in a given position. */
  function Reading(p: Pos, n: nat): (o: Outcome)
    requires Sound(p)
  {
    if p.writeIndex - p.readIndex >= n then Ok
    else
      var want := n - (p.writeIndex - p.readIndex);
      if !p.growable && p.length < p.writeIndex + want then NotEnough
      else if p.growable && !Room(p.length, p.writeIndex, want) then Panic
      else if p.available < want then Eof
      else Ok
  }

  /** The position once `want` more bytes than are buffered have been asked for. */
  function GrownFor(p: Pos, want: nat): (p': Pos)
    requires Sound(p)
  {
    if !p.growable || p.length >= p.writeIndex + want then p
    else p.(length := Grown(p.length, p.writeIndex, want))
  }

  /** The position after reading `n` bytes ahead.  A failed read has drained the connection. */
  function Peeked(p: Pos, n: nat): (p': Pos)
    requires Sound(p)
    ensures Sound(p')
  {
    if p.writeIndex - p.readIndex >= n then p
    else
      var want := n - (p.writeIndex - p.readIndex);
      var q := GrownFor(p, want);
      match Reading(p, n)
      case Ok => q.(writeIndex := p.readIndex + n, available := p.available - want)
      case Eof => q.(available := 0)
      case _ => q
  }

  /** The same, stepping over the bytes if they are there. */
  function Taken(p: Pos, n: nat): (p': Pos)
    requires Sound(p)
    ensures Sound(p')
  {
    if Reading(p, n).Ok? then Peeked(p, n).(readIndex := p.readIndex + n) else Peeked(p, n)
  }

  /** What filling `n` bytes of the caller does when the connection has `k` bytes at hand.  Nothing
      is sliced from the buffer, so there is no panic. */
  function Filling(p: Pos, n: nat, k: nat): (o: Outcome)
    requires Sound(p)
  {
    if p.readIndex == p.writeIndex then if k == 0 && n > 0 then Eof else Ok
    else if p.writeIndex - p.readIndex >= n then Ok
    else if !p.growable && p.length < p.readIndex + n then NotEnough
    else if p.available < n - (p.writeIndex - p.readIndex) then Eof
    else Ok
  }

  /** How many bytes a read that succeeds delivers. */
  function Delivered(p: Pos, n: nat, k: nat): (m: nat) {
    if p.readIndex == p.writeIndex then k else n
  }

  function Filled(p: Pos, n: nat, k: nat): (p': Pos)
    requires Sound(p) && k <= p.available
    ensures Sound(p')
  {
    if p.readIndex == p.writeIndex then
      if k == 0 && n > 0 then p
      else p.(readIndex := p.readIndex + k, writeIndex := p.writeIndex + k, available := p.available - k)
    else if p.writeIndex - p.readIndex >= n then p.(readIndex := p.readIndex + n)
    else
      var want := n - (p.writeIndex - p.readIndex);
      var q := GrownFor(p, want);
      match Filling(p, n, k)
      case Ok => q.(readIndex := p.readIndex + n, writeIndex := p.readIndex + n, available := p.available - want)
      case Eof => q.(available := 0)
      case _ => q
  }

  /** How reading ahead ends, spelled out: only what is not buffered can fail; a fixed buffer refuses what
      does not fit; a growable one panics exactly in its windows; and otherwise the read ends as
      the connection does. */
  lemma ReadingExactly(p: Pos, n: nat)
    requires Sound(p)
    ensures var buffered, o := p.writeIndex - p.readIndex, Reading(p, n);
      && (o.NotEnough? <==> n > buffered && !p.growable && p.length < p.readIndex + n)
      && (o.Panic? <==> n > buffered && p.growable && Outgrown(p.length, p.writeIndex, n - buffered))
      && (o.Eof? ==> n > buffered + p.available)
      && (o.Ok? ==> n <= buffered + p.available)
      && (o.Ok? || o.Eof? || o.NotEnough? || o.Panic?)
  {
    if n > p.writeIndex - p.readIndex && p.growable {
      RoomExactly(p.length, p.writeIndex, n - (p.writeIndex - p.readIndex));
    }
  }

  /** Where a read ahead leaves the reader. */
  lemma PeekedExactly(p: Pos, n: nat)
    requires Sound(p)
    ensures var buffered, o, q := p.writeIndex - p.readIndex, Reading(p, n), Peeked(p, n);
      && q.readIndex == p.readIndex && q.growable == p.growable
      && q.writeIndex == (if o.Ok? && n > buffered then p.readIndex + n else p.writeIndex)
      && q.available == (if o.Eof? then 0 else p.available - (q.writeIndex - p.writeIndex))
      && q.length >= p.length
      && (q.length > p.length ==> p.growable && n > buffered && p.length < p.readIndex + n)
      && (o.Ok? && n > buffered ==> q.length >= p.readIndex + n)
  {
  }

  /** How filling the caller's buffer ends, and where it leaves the reader: with nothing buffered it takes
      what the connection has at hand, otherwise all or nothing. */
  lemma FillingExactly(p: Pos, n: nat, k: nat)
    requires Sound(p) && k <= n && k <= p.available && (k == 0 ==> n == 0 || p.available == 0)
    ensures var buffered, o, q := p.writeIndex - p.readIndex, Filling(p, n, k), Filled(p, n, k);
      && (o.NotEnough? <==> 0 < buffered < n && !p.growable && p.length < p.readIndex + n)
      && (o.Ok? <==> !o.NotEnough? && if buffered == 0 then k > 0 || n == 0 else n <= buffered + p.available)
      && (o.Ok? || o.Eof? || o.NotEnough?)
      && q.readIndex == p.readIndex + (if o.Ok? then Delivered(p, n, k) else 0)
      && Delivered(p, n, k) == (if buffered == 0 then k else n)
      && (o.Ok? ==> q.writeIndex == if q.readIndex > p.writeIndex then q.readIndex else p.writeIndex)
  {
  }

  /** Between two positions `n` bytes were consumed, and nothing was drawn that was not needed. */
  predicate Stepped(p: Pos, p': Pos, n: nat) {
    && p'.readIndex == p.readIndex + n
    && p'.writeIndex == if p.writeIndex < p'.readIndex then p'.readIndex else p.writeIndex
  }

  lemma PeekedBuffers(p: Pos, n: nat)
    requires Sound(p) && Reading(p, n).Ok?
    ensures Peeked(p, n).readIndex == p.readIndex && n <= Peeked(p, n).writeIndex - p.readIndex
  {
  }

  lemma TakenSteps(p: Pos, n: nat)
    requires Sound(p) && Reading(p, n).Ok?
    ensures Stepped(p, Taken(p, n), n)
  {
  }

  // ------------------------------------------------------------ frames

  /** The rest of a frame is buffered or to come, and what is to come fits the buffer. */
  predicate Framed(p: Pos, remain: nat) {
    && Sound(p)
    && remain <= p.writeIndex - p.readIndex + p.available
    && (remain <= p.writeIndex - p.readIndex || p.readIndex + remain <= p.length)
  }

  /** How many bytes behind the frame are buffered already. */
  function Beyond(p: Pos, remain: nat): (n: nat) {
    if p.writeIndex - p.readIndex <= remain then 0 else p.writeIndex - p.readIndex - remain
  }

  /** Inside its frame a reader always gets what it asks for, and what is left is still a frame
      with the same bytes behind it. */
  lemma FramedReads(p: Pos, remain: nat, n: nat)
    requires Framed(p, remain) && n <= remain
    ensures Reading(p, n).Ok?
    ensures Framed(Peeked(p, n), remain) && Beyond(Peeked(p, n), remain) == Beyond(p, remain)
    ensures Framed(Taken(p, n), remain - n) && Beyond(Taken(p, n), remain - n) == Beyond(p, remain)
  {
  }

  lemma FramedFills(p: Pos, remain: nat, n: nat, k: nat)
    requires Framed(p, remain) && n <= remain && k <= n && k <= p.available
    requires k == 0 ==> n == 0 || p.available == 0
    ensures Filling(p, n, k).Ok? && Delivered(p, n, k) <= n
    ensures var q, left := Filled(p, n, k), remain - Delivered(p, n, k);
      && Framed(q, left) && Beyond(q, left) == Beyond(p, remain)
      && q.readIndex == p.readIndex + Delivered(p, n, k)
  {
  }

  lemma NotOverLimit(p: Pos, n: nat, k: nat)
    requires Sound(p)
    ensures !Reading(p, n).OverLimit? && !Filling(p, n, k).OverLimit?
  {
  }

  class Reader {
    var source: seq<Byte>
    var buff: array<Byte>
    const growable: bool
    var readIndex: nat
    var writeIndex: nat

    function At(): (p: Pos)
      reads this
    {
      Pos(buff.Length, growable, readIndex, writeIndex, |source|)
    }

    ghost predicate Valid()
      reads this
    {
      Sound(At())
    }

    ghost function Buffered(): (s: seq<Byte>)
      requires Valid()
      reads this, buff
    {
      if readIndex < writeIndex then buff[readIndex..writeIndex] else []
    }

    /** Everything the reader will still deliver. */
    ghost function Unread(): (s: seq<Byte>)
      requires Valid()
      reads this, buff
      ensures |s| == writeIndex - readIndex + |source|
    {
      Buffered() + source
    }

    constructor (connection: seq<Byte>)
      ensures Valid() && fresh(buff) && At() == NewReader(|connection|)
      ensures source == connection && Unread() == connection
    {
      source, readIndex, writeIndex, growable := connection, 0, 0, true;
      buff := new Byte[256];
    }

    constructor WithBuf(connection: seq<Byte>, buf: array<Byte>)
      ensures Valid() && buff == buf && !growable
      ensures readIndex == writeIndex == 0 && source == connection && Unread() == connection
    {
      source, readIndex, writeIndex, growable := connection, 0, 0, false;
      buff := buf;
    }

    method Growth(want: nat)
      requires Valid() && buff.Length > 0
      modifies this`buff
      ensures fresh(buff) && buff.Length == Doubled(old(buff.Length), writeIndex + want)
      ensures buff[..old(buff.Length)] == old(buff[..])
    {
      var min := writeIndex + want;
      var capacity := buff.Length;
      while capacity < min
        invariant capacity >= buff.Length && Doubled(capacity, min) == Doubled(buff.Length, min)
        decreases min - capacity
      {
        capacity := 2 * capacity;
      }
      var previous := buff;
      var buf := new Byte[capacity];
      forall i | 0 <= i < previous.Length { buf[i] := previous[i]; }
      buff := buf;
    }

    method GrowFor(want: nat)
      requires Valid() && growable && buff.Length < writeIndex + want
      modifies this`buff
      ensures Valid() && fresh(buff) && At() == GrownFor(old(At()), want)
      ensures Buffered() == old(Buffered())
    {
      ghost var before := buff[..];
      Growth(want + writeIndex - buff.Length);
      assert forall i | 0 <= i < |before| :: buff[i] == buff[..|before|][i] == before[i];
    }

    /** Makes sure that `n` bytes are buffered, drawing the missing ones from the connection; if it ends
        before that, what it had is lost. */
    method EnsureReadable(n: nat) returns (o: Outcome)
      requires Valid()
      modifies this, buff
      ensures Valid() && (buff == old(buff) || fresh(buff))
      ensures o == Reading(old(At()), n) && At() == Peeked(old(At()), n)
      ensures !o.Eof? ==> Unread() == old(Unread())
      ensures o.Eof? ==> source == [] && Unread() == old(Buffered())
    {
      var readable := writeIndex - readIndex;
      if readable >= n { return Ok; }
      var want := n - readable;
      if !growable && buff.Length < writeIndex + want { return NotEnough; }
      if buff.Length < writeIndex + want {
        GrowFor(want);
      }
      if buff.Length < writeIndex + want { return Panic; }
      if |source| < want {
        source := [];
        return Eof;
      }
      Draw(want);
      return Ok;
    }

    /** io.ReadFull into the free part of the buffer. */
    method Draw(want: nat)
      requires Valid() && want <= |source| && writeIndex + want <= buff.Length
      modifies this`source, this`writeIndex, buff
      ensures Valid() && Unread() == old(Unread())
      ensures writeIndex == old(writeIndex) + want && |source| == |old(source)| - want
    {
      ghost var s, r, w, held := source, readIndex, writeIndex, Buffered();
      CopyIn(want);
      source := source[want..];
      writeIndex := writeIndex + want;
      assert w <= buff.Length ==> buff[r..w + want] == buff[r..w] + buff[w..w + want];
      assert Buffered() == held + s[..want];
      assert s == s[..want] + s[want..];
    }

    method CopyIn(want: nat)
      requires Valid() && want <= |source| && writeIndex + want <= buff.Length
      modifies buff
      ensures buff[..writeIndex] == old(buff[..writeIndex])
      ensures buff[writeIndex..writeIndex + want] == source[..want]
    {
      var w := writeIndex;
      forall i | 0 <= i < want { buff[w + i] := source[i]; }
    }

    /** What is buffered is what comes next. */
    lemma AheadWindow(n: nat)
      requires Valid() && n <= writeIndex - readIndex
      ensures n <= |Unread()|
      ensures n > 0 ==> readIndex + n <= buff.Length && buff[readIndex..readIndex + n] == Unread()[..n]
    {
      if n > 0 { assert Buffered()[..n] == buff[readIndex..readIndex + n]; }
    }

    /** The next n bytes without advancing; the slice is a window into the buffer. */
    method Peek(n: nat) returns (o: Outcome, buf: Slice)
      requires Valid()
      modifies this, buff
      ensures Valid() && (buff == old(buff) || fresh(buff))
      ensures o == Reading(old(At()), n) && At() == Peeked(old(At()), n)
      ensures !o.Eof? ==> Unread() == old(Unread())
      ensures buf.Valid() && buf.arr == buff && (o.Ok? ==> n <= |Unread()| && buf.Value() == Unread()[..n])
    {
      hide Unread, Buffered, Reading, Peeked;
      if Reading(At(), n).Ok? { PeekedBuffers(At(), n); }
      o := EnsureReadable(n);
      buf := Slice(buff, 0, 0);
      if o.Ok? {
        AheadWindow(n);
        if n > 0 {
          buf := Slice(buff, readIndex, n);
        }
      }
    }

    /** The next n bytes, advancing. */
    method Next(n: nat) returns (o: Outcome, buf: Slice)
      requires Valid()
      modifies this, buff
      ensures Valid() && (buff == old(buff) || fresh(buff))
      ensures o == Reading(old(At()), n) && At() == Taken(old(At()), n)
      ensures !o.Eof? && !o.Ok? ==> Unread() == old(Unread())
      ensures o.Ok? ==> n <= |old(Unread())| && Unread() == old(Unread())[n..]
      ensures buf.Valid() && buf.arr == buff && (o.Ok? ==> buf.Value() == old(Unread())[..n])
    {
      if Reading(At(), n).Ok? { PeekedBuffers(At(), n); }
      hide Reading, Peeked, Unread;
      o, buf := Peek(n);
      if o.Ok? {
        Advance(n);
      }
    }

    method Advance(n: nat)
      requires Valid() && n <= writeIndex - readIndex
      modifies this`readIndex
      ensures Valid() && readIndex == old(readIndex) + n && Unread() == old(Unread())[n..]
    {
      ghost var held := Buffered();
      readIndex := readIndex + n;
      assert Buffered() == held[n..];
    }

    /** Reads into the caller's buffer.  With nothing buffered the connection fills it directly, with
        as many bytes as it has at hand (`k`), and the indices step over them; otherwise it is
        filled completely, what is missing going past the buffer as well. */
    method Read(dst: array<Byte>, k: nat) returns (o: Outcome, n: nat)
      requires Valid() && dst != buff
      requires k <= dst.Length && k <= |source| && (k == 0 ==> dst.Length == 0 || source == [])
      modifies this, dst
      ensures Valid() && (buff == old(buff) || fresh(buff))
      ensures o == Filling(old(At()), dst.Length, k) && At() == Filled(old(At()), dst.Length, k)
      ensures n == if o.Ok? then Delivered(old(At()), dst.Length, k) else 0
      ensures n <= dst.Length && n <= |old(Unread())| && dst[..n] == old(Unread())[..n]
      ensures !o.Eof? ==> Unread() == old(Unread())[n..]
    {
      n := 0;
      if readIndex == writeIndex {
        if k == 0 && dst.Length > 0 { return Eof, 0; }
        forall i | 0 <= i < k { dst[i] := source[i]; }
        source := source[k..];
        readIndex, writeIndex := readIndex + k, writeIndex + k;
        return Ok, k;
      }
      o := FillFull(dst, k);
      n := if o.Ok? then dst.Length else 0;
    }

    /** Fills all of `dst`, beginning with what is buffered. */
    method FillFull(dst: array<Byte>, ghost k: nat) returns (o: Outcome)
      requires Valid() && dst != buff && readIndex < writeIndex && k <= |source|
      modifies this, dst
      ensures Valid() && (buff == old(buff) || fresh(buff))
      ensures o == Filling(old(At()), dst.Length, k) && At() == Filled(old(At()), dst.Length, k)
      ensures o.Ok? ==>
        && dst.Length <= |old(Unread())| && dst[..] == old(Unread())[..dst.Length]
        && Unread() == old(Unread())[dst.Length..]
      ensures !o.Ok? && !o.Eof? ==> Unread() == old(Unread())
    {
      var readable := writeIndex - readIndex;
      if readable >= dst.Length {
        CopyOut(dst);
        return Ok;
      }
      hide Unread;
      var want := dst.Length - readable;
      if !growable && buff.Length < writeIndex + want { return NotEnough; }
      if buff.Length < writeIndex + want {
        GrowUnread(want);
      }
      if |source| < want {
        source := [];
        return Eof;
      }
      FillPast(dst, want);
      return Ok;
    }

    method GrowUnread(want: nat)
      requires Valid() && growable && buff.Length < writeIndex + want
      modifies this`buff
      ensures Valid() && fresh(buff) && At() == GrownFor(old(At()), want)
      ensures Unread() == old(Unread())
    {
      hide GrownFor;
      GrowFor(want);
    }

    method CopyOut(dst: array<Byte>)
      requires Valid() && dst != buff && readIndex < writeIndex && dst.Length <= writeIndex - readIndex
      modifies this`readIndex, dst
      ensures Valid() && readIndex == old(readIndex) + dst.Length
      ensures dst[..] == old(Unread())[..dst.Length] && Unread() == old(Unread())[dst.Length..]
    {
      forall i | 0 <= i < dst.Length { dst[i] := buff[readIndex + i]; }
      assert dst[..] == Buffered()[..dst.Length];
      Advance(dst.Length);
    }

    /** Everything buffered and `want` bytes of the connection go to `dst`. */
    method FillPast(dst: array<Byte>, want: nat)
      requires Valid() && dst != buff && readIndex < writeIndex && want <= |source|
      requires dst.Length == writeIndex - readIndex + want
      modifies this`source, this`readIndex, this`writeIndex, dst
      ensures Valid() && readIndex == writeIndex == old(writeIndex) + want && |source| == |old(source)| - want
      ensures dst[..] == old(Unread())[..dst.Length] && Unread() == old(Unread())[dst.Length..]
    {
      var readable := writeIndex - readIndex;
      ghost var all := Unread();
      forall i | 0 <= i < dst.Length {
        dst[i] := if i < readable then buff[readIndex + i] else source[i - readable];
      }
      assert forall i | 0 <= i < dst.Length :: dst[i] == all[i];
      source := source[want..];
      writeIndex := writeIndex + want;
      readIndex := writeIndex;
      assert source == all[dst.Length..];
    }
  }
}
