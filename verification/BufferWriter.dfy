/** The buffer writer.  `Malloc` hands out windows into the buffer, so what is written through a
    window reaches the connection only while the writer still uses that array.  `Flush` slices the
    flushed part off the buffer but leaves the indices where they are. */
module BufferWriter {
  import opened Bytes
  import opened Doubling

  const DEFAULT_SIZE: nat := 256

  function Zeros(n: nat): (s: seq<Byte>)
    ensures |s| == n && forall i | 0 <= i < n :: s[i] == 0
  {
    seq(n, _ => 0)
  }

  /** How a request for room ends.  `Hangs`: the loop that doubles a capacity of zero does not end.
      `Panics`: an empty write whose index lies behind the buffer slices out of bounds. */
  datatype Making = Fits | Grows(length: nat) | Refused | Panics | Hangs {
    predicate Made() {
      Fits? || Grows?
    }
  }

  /** What asking for n bytes behind `writeIndex` does to a buffer of the given length. */
  function RoomFor(length: nat, growable: bool, writeIndex: nat, n: nat): (o: Making) {
    if length - writeIndex >= n then Fits
    else if !growable then Refused
    else if n == 0 then Panics
    else if length == 0 then Hangs
    else Grows(Doubled(length, writeIndex + n))
  }

  class Writer {
    var buff: Slice
    var preWriteIndex: nat
    var writeIndex: nat
    const growable: bool
    var sink: seq<Byte>  // what was flushed to the connection

    /** What is behind the write index has never been written and is zero.  Right after a flush the
        indices may lie behind the end of the buffer. */
    ghost predicate Valid()
      reads this, buff.arr
    {
      && buff.Valid() && preWriteIndex <= writeIndex
      && (preWriteIndex < writeIndex || !growable ==> writeIndex <= buff.len)
      && (growable ==> buff.off + buff.len == buff.arr.Length)
      && (forall i | buff.off + writeIndex <= i < buff.off + buff.len :: buff.arr[i] == 0)
    }

    /** What was written and not yet flushed. */
    ghost function Contents(): (s: seq<Byte>)
      requires Valid()
      reads this, buff.arr
      ensures |s| == writeIndex - preWriteIndex
    {
      if preWriteIndex < writeIndex then buff.arr[buff.off + preWriteIndex..buff.off + writeIndex] else []
    }

    function Free(): (n: int)
      reads this
    {
      buff.len - writeIndex
    }

    function Asking(n: nat): (o: Making)
      reads this
    {
      RoomFor(buff.len, growable, writeIndex, n)
    }

    /** A writer that has not been flushed into a corner: if it can grow, every write succeeds. */
    ghost predicate Ready()
      reads this, buff.arr
    {
      Valid() && writeIndex <= buff.len && (growable ==> buff.len > 0)
    }

    lemma ReadyIsValid()
      requires Ready()
      ensures Valid()
    {
    }

    lemma ReadyHasRoom(n: nat)
      requires Ready()
      ensures Asking(n).Made() <==> Free() >= n || growable
      ensures Asking(n).Grows? <==> Free() < n && growable
    {
    }

    /** NewBufferWriter */
    constructor ()
      ensures Ready() && growable && fresh(buff.arr) && buff.len == DEFAULT_SIZE
      ensures preWriteIndex == writeIndex == 0 && Contents() == [] && sink == []
    {
      var arr := new Byte[DEFAULT_SIZE](_ => 0);
      buff := Slice(arr, 0, DEFAULT_SIZE);
      preWriteIndex, writeIndex, growable, sink := 0, 0, true, [];
    }

    /** NewBufferWriterWithBuff: writes into a window that belongs to somebody else. */
    constructor WithBuff(buf: Slice)
      requires buf.Valid() && forall i | buf.off <= i < buf.off + buf.len :: buf.arr[i] == 0
      ensures Ready() && !growable && buff == buf
      ensures preWriteIndex == writeIndex == 0 && Contents() == [] && sink == []
    {
      buff := buf;
      preWriteIndex, writeIndex, growable, sink := 0, 0, false, [];
    }

    /** Makes room for n bytes.  The array stays exactly when the room is there already; otherwise the
        capacity is doubled until it suffices. */
    method CheckWriteable(n: nat) returns (o: Making)
      requires Valid()
      modifies this`buff
      ensures Valid() && Contents() == old(Contents()) && o == old(Asking(n))
      ensures o.Made() ==> Free() >= n
      ensures if o.Grows? then fresh(buff.arr) && buff.off == 0 && buff.len == o.length else buff == old(buff)
    {
      if buff.len - writeIndex >= n { return Fits; }
      if !growable { return Refused; }
      if n == 0 { return Panics; }
      if buff.len == 0 { return Hangs; }
      var min := writeIndex + n;
      var capacity := buff.len;
      while capacity < min
        invariant capacity >= buff.len && Doubled(capacity, min) == Doubled(buff.len, min)
        decreases min - capacity
      {
        capacity := 2 * capacity;
      }
      Move(capacity);
      return Grows(capacity);
    }

    /** Copies the buffer to a longer array. */
    method Move(capacity: nat)
      requires Valid() && growable && capacity >= buff.len
      modifies this`buff
      ensures Valid() && Contents() == old(Contents())
      ensures fresh(buff.arr) && buff.off == 0 && buff.len == capacity
    {
      var previous := buff;
      var buf := new Byte[capacity](
        i requires 0 <= i reads previous.arr => if i < previous.len then previous.arr[previous.off + i] else 0);
      buff := Slice(buf, 0, capacity);
      assert forall i | writeIndex <= i < previous.len :: buf[i] == previous.arr[previous.off + i] == 0;
      if preWriteIndex < writeIndex {
        assert buf[preWriteIndex..writeIndex]
            == previous.arr[previous.off + preWriteIndex..previous.off + writeIndex];
      }
    }

    method Write(buf: seq<Byte>) returns (o: Making)
      requires Valid()
      modifies this`buff, this`writeIndex, buff.arr
      ensures Valid() && o == old(Asking(|buf|))
      ensures Contents() == old(Contents()) + if o.Made() then buf else []
      ensures writeIndex == old(writeIndex) + if o.Made() then |buf| else 0
      ensures o.Made() ==> writeIndex <= buff.len
      ensures if o.Grows? then fresh(buff.arr) && buff.off == 0 && buff.len == o.length else buff == old(buff)
      ensures buff == old(buff) ==>
                forall i | 0 <= i < buff.arr.Length && !(buff.off + old(writeIndex) <= i < buff.off + writeIndex) ::
                  buff.arr[i] == old(buff.arr[i])
    {
      o := CheckWriteable(|buf|);
      if o.Made() {
        Append(buf);
      }
    }

    method Append(buf: seq<Byte>)
      requires Valid() && Free() >= |buf|
      modifies this`writeIndex, buff.arr
      ensures Valid() && writeIndex == old(writeIndex) + |buf| && Contents() == old(Contents()) + buf
      ensures forall i | 0 <= i < buff.arr.Length && !(buff.off + old(writeIndex) <= i < buff.off + writeIndex) ::
                buff.arr[i] == old(buff.arr[i])
    {
      ghost var held, arr := Contents(), buff.arr;
      ghost var from, at := buff.off + preWriteIndex, buff.off + writeIndex;
      Slice(buff.arr, buff.off + writeIndex, |buf|).Overwrite(buf);
      writeIndex := writeIndex + |buf|;
      assert arr[from..at] == held;
      assert arr[from..at + |buf|] == arr[from..at] + arr[at..at + |buf|];
    }

    /** The next n bytes of the buffer, to be filled in by the caller. */
    method Malloc(n: nat) returns (o: Making, buf: Slice)
      requires Valid()
      modifies this`buff, this`writeIndex
      ensures Valid() && o == old(Asking(n))
      ensures Contents() == old(Contents()) + if o.Made() then Zeros(n) else []
      ensures writeIndex == old(writeIndex) + if o.Made() then n else 0
      ensures o.Made() ==> writeIndex <= buff.len
      ensures if o.Grows? then fresh(buff.arr) && buff.off == 0 && buff.len == o.length else buff == old(buff)
      ensures o.Made() ==> buf == Slice(buff.arr, buff.off + old(writeIndex), n)
    {
      o := CheckWriteable(n);
      buf := buff;
      if o.Made() {
        buf := Slice(buff.arr, buff.off + writeIndex, n);
        Reserve(n);
      }
    }

    method Reserve(n: nat)
      requires Valid() && Free() >= n
      modifies this`writeIndex
      ensures Valid() && writeIndex == old(writeIndex) + n && Contents() == old(Contents()) + Zeros(n)
    {
      ghost var from, at := buff.off + preWriteIndex, buff.off + writeIndex;
      assert buff.arr[at..at + n] == Zeros(n);
      assert buff.arr[from..at + n] == buff.arr[from..at] + buff.arr[at..at + n];
      writeIndex := writeIndex + n;
    }

    /** Fills in a window that lies in the pending part of this writer's own array. */
    method Fill(window: Slice, bytes: seq<Byte>, ghost at: nat)
      requires Valid() && window.arr == buff.arr && window.off == buff.off + preWriteIndex + at
      requires |bytes| <= window.len && preWriteIndex + at + window.len <= writeIndex <= buff.len
      modifies window.arr
      ensures Valid() && at + |bytes| <= |old(Contents())|
      ensures Contents() == old(Contents())[..at] + bytes + old(Contents())[at + |bytes|..]
      ensures forall i | 0 <= i < buff.arr.Length && !(window.off <= i < window.off + |bytes|) ::
                buff.arr[i] == old(buff.arr[i])
    {
      ghost var before := buff.arr[..];
      assert Contents() == before[buff.off + preWriteIndex..buff.off + writeIndex];
      window.Overwrite(bytes);
      assert window.arr[window.off..window.off + |bytes|] == bytes;
      Overwritten(before, bytes, at);
    }

    /** The pending part after some of it was overwritten. */
    lemma Overwritten(before: seq<Byte>, bytes: seq<Byte>, at: nat)
      requires buff.Valid() && preWriteIndex <= writeIndex <= buff.len && |before| == buff.arr.Length
      requires growable ==> buff.off + buff.len == buff.arr.Length
      requires forall i | buff.off + writeIndex <= i < buff.off + buff.len :: before[i] == 0
      requires var x := buff.off + preWriteIndex + at;
        && x + |bytes| <= buff.off + writeIndex && buff.arr[x..x + |bytes|] == bytes
        && forall i | 0 <= i < |before| && !(x <= i < x + |bytes|) :: buff.arr[i] == before[i]
      ensures var held := before[buff.off + preWriteIndex..buff.off + writeIndex];
        Valid() && Contents() == held[..at] + bytes + held[at + |bytes|..]
    {
      var from, to := buff.off + preWriteIndex, buff.off + writeIndex;
      var x := from + at;
      assert forall i | to <= i < buff.off + buff.len :: buff.arr[i] == before[i];
      Patched(before, buff.arr[..], from, x, x + |bytes|, to);
      assert buff.arr[..][x..x + |bytes|] == bytes;
      assert buff.arr[..][from..to] == buff.arr[from..to];
    }

    /** Hands what is pending to the connection and slices it off the buffer. */
    method Flush()
      requires Valid()
      modifies this`buff, this`preWriteIndex, this`sink
      ensures Valid()
      ensures if growable then Contents() == [] && sink == old(sink) + old(Contents()) && preWriteIndex == writeIndex
              else Contents() == old(Contents()) && sink == old(sink) && preWriteIndex == old(preWriteIndex)
      ensures buff == if growable && old(preWriteIndex) < writeIndex
                      then Slice(old(buff).arr, old(buff).off + writeIndex, old(buff).len - writeIndex) else old(buff)
    {
      if !growable { return; }
      if writeIndex <= 0 || preWriteIndex == writeIndex { return; }
      sink := sink + buff.arr[buff.off + preWriteIndex..buff.off + writeIndex];
      buff := Slice(buff.arr, buff.off + writeIndex, buff.len - writeIndex);
      preWriteIndex := writeIndex;
    }
  }

  // ------------------------------------------------------------ a writer that is used again

  /** All chunks, one after the other. */
  function Joined(chunks: seq<seq<Byte>>): (s: seq<Byte>) {
    if chunks == [] then [] else Joined(chunks[..|chunks| - 1]) + chunks[|chunks| - 1]
  }

  /** Chunks written and flushed one by one through one writer reach the connection in order, up to
      the first that makes the writer panic or hang. */
  method WriteAll(chunks: seq<seq<Byte>>) returns (sent: nat, wire: seq<Byte>, o: Making)
    ensures sent <= |chunks| && wire == Joined(chunks[..sent])
    ensures if sent < |chunks| then o.Panics? || o.Hangs? else o.Made()
  {
    var w := new Writer();
    sent, o := 0, Fits;
    while sent < |chunks|
      invariant sent <= |chunks| && w.Valid() && w.growable && fresh(w) && fresh(w.buff.arr) && o.Made()
      invariant w.Contents() == [] && w.sink == Joined(chunks[..sent])
    {
      o := w.Write(chunks[sent]);
      if !o.Made() { return sent, w.sink, o; }
      w.Flush();
      assert chunks[..sent + 1][..sent] == chunks[..sent];
      sent := sent + 1;
    }
    wire := w.sink;
  }

  /** The buffer length of a new writer after a first write of `a` bytes. */
  function AfterFirst(a: nat): (length: nat)
    ensures length >= a
  {
    if a <= DEFAULT_SIZE then DEFAULT_SIZE else Doubled(DEFAULT_SIZE, a)
  }

  /** What a second write of n bytes does, after a first one of a > 0 bytes was flushed: it hangs if
      and only if the first filled the buffer exactly, that is a = 256 * 2^m, and there is something
      to write; it panics if and only if there is nothing to write and less than half of the buffer
      was left. */
  lemma SecondWrite(a: nat, n: nat)
    requires a > 0
    ensures var o := RoomFor(AfterFirst(a) - a, true, a, n);
      && (o.Hangs? <==> n > 0 && exists m: nat :: a == DEFAULT_SIZE * Pow2(m))
      && (o.Panics? <==> n == 0 && AfterFirst(a) < 2 * a)
      && !o.Refused?
  {
    FilledExactly(DEFAULT_SIZE, a);
    if a <= DEFAULT_SIZE {
      forall m: nat
        ensures a == DEFAULT_SIZE * Pow2(m) ==> a == DEFAULT_SIZE
      {
        MulMonotone(DEFAULT_SIZE, 1, Pow2(m));
      }
      assert DEFAULT_SIZE * Pow2(0) == DEFAULT_SIZE;
    }
  }
}
