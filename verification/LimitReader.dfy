/** The limit reader that a packet codec hands to its payload codec, and exact framing: whatever
    the payload codec does with it, releasing it leaves the outer reader at the end of the frame. */
module LimitReader {
  import opened Bytes
  import opened BufferReader

  /** One call of a payload codec.  `k` is how many bytes the connection has at hand for a read. */
  datatype Op = OpRead(n: nat, k: nat) | OpNext(n: nat) | OpPeek(n: nat) | OpSkip(n: nat)

  class Limit {
    var remain: nat
    const total: nat
    const r: Reader

    constructor (decorator: Reader, limit: nat)
      ensures remain == limit && total == limit && r == decorator
    {
      remain, total, r := limit, limit, decorator;
    }

    method Next(n: nat) returns (o: Outcome, buf: Slice)
      requires r.Valid()
      modifies this`remain, r, r.buff
      ensures r.Valid() && (r.buff == old(r.buff) || fresh(r.buff))
      ensures o == if n > old(remain) then OverLimit else Reading(old(r.At()), n)
      ensures r.At() == if n > old(remain) then old(r.At()) else Taken(old(r.At()), n)
      ensures remain == if o.Ok? then old(remain) - n else old(remain)
      ensures !o.Eof? && !o.Ok? ==> r.Unread() == old(r.Unread())
      ensures o.Ok? ==> n <= |old(r.Unread())| && r.Unread() == old(r.Unread())[n..]
      ensures buf.Valid() && buf.arr == r.buff && (o.Ok? ==> buf.Value() == old(r.Unread())[..n])
    {
      if n > remain { return OverLimit, Slice(r.buff, 0, 0); }
      o, buf := r.Next(n);
      if o.Ok? {
        remain := remain - n;
      }
    }

    method Peek(n: nat) returns (o: Outcome, buf: Slice)
      requires r.Valid()
      modifies r, r.buff
      ensures r.Valid() && (r.buff == old(r.buff) || fresh(r.buff))
      ensures o == if n > remain then OverLimit else Reading(old(r.At()), n)
      ensures r.At() == if n > remain then old(r.At()) else Peeked(old(r.At()), n)
      ensures !o.Eof? ==> r.Unread() == old(r.Unread())
      ensures buf.Valid() && buf.arr == r.buff
      ensures o.Ok? ==> n <= |r.Unread()| && buf.Value() == r.Unread()[..n]
    {
      if n > remain { return OverLimit, Slice(r.buff, 0, 0); }
      o, buf := r.Peek(n);
    }

    method Read(dst: array<Byte>, k: nat) returns (o: Outcome, n: nat)
      requires r.Valid() && dst != r.buff
      requires k <= dst.Length && k <= |r.source| && (k == 0 ==> dst.Length == 0 || r.source == [])
      modifies this`remain, r, dst
      ensures r.Valid() && (r.buff == old(r.buff) || fresh(r.buff))
      ensures o == if dst.Length > old(remain) then OverLimit else Filling(old(r.At()), dst.Length, k)
      ensures r.At() == if dst.Length > old(remain) then old(r.At()) else Filled(old(r.At()), dst.Length, k)
      ensures n == if o.Ok? then Delivered(old(r.At()), dst.Length, k) else 0
      ensures n <= dst.Length && n <= |old(r.Unread())| && dst[..n] == old(r.Unread())[..n]
      ensures n <= old(remain) && remain == old(remain) - n
      ensures !o.Eof? ==> r.Unread() == old(r.Unread())[n..]
    {
      if dst.Length > remain { return OverLimit, 0; }
      o, n := r.Read(dst, k);
      if o.Ok? {
        remain := remain - n;
      }
    }

    /** Skips what the payload codec left of the frame; a failure is ignored, a panic is not. */
    method Release() returns (panics: bool)
      requires r.Valid()
      modifies this`remain, r, r.buff
      ensures remain == 0 && r.Valid() && (r.buff == old(r.buff) || fresh(r.buff))
      ensures panics <==> Reading(old(r.At()), old(remain)).Panic?
      ensures r.At() == Taken(old(r.At()), old(remain))
      ensures Reading(old(r.At()), old(remain)).Ok? ==>
        old(remain) <= |old(r.Unread())| && r.Unread() == old(r.Unread())[old(remain)..]
    {
      panics := false;
      if remain != 0 {
        var o, _ := r.Next(remain);
        panics := o.Panic?;
        remain := 0;
      }
    }

    /** A limit reader inside its frame: `limit` bytes of `all` made up the frame at position `start`,
        and what was consumed since is what the limit reader counted. */
    ghost predicate Inside(all: seq<Byte>, limit: nat, start: Pos)
      reads this, r, r.buff
    {
      r.Valid() && InFrame(r.At(), remain, r.Unread(), all, limit, start)
    }

    lemma Enter()
      requires r.Valid() && Framed(r.At(), remain)
      ensures Inside(r.Unread(), remain, r.At())
    {
    }

    lemma FrameLength(all: seq<Byte>, limit: nat, start: Pos)
      requires r.Valid()
      ensures Sound(r.At())
      ensures Inside(all, limit, start) ==>
        && r.Valid() && InFrame(r.At(), remain, r.Unread(), all, limit, start)
        && remain <= |r.Unread()|
    {
    }

    lemma Sources()
      ensures r.At().available == |r.source|
    {
    }

    lemma StillInside(all: seq<Byte>, limit: nat, start: Pos)
      requires r.Valid() && InFrame(r.At(), remain, r.Unread(), all, limit, start)
      ensures Inside(all, limit, start)
    {
    }

    /** One call.  It is refused exactly when it asks for more than the frame holds, and inside the
        frame nothing else goes wrong; what it delivers comes next in the stream and is counted. */
    method Call(op: Op, ghost all: seq<Byte>, ghost limit: nat, ghost start: Pos)
      returns (o: Outcome, out: seq<Byte>)
      requires r.Valid()
      modifies this`remain, r, r.buff
      ensures r.Valid() && (r.buff == old(r.buff) || fresh(r.buff))
      ensures o.OverLimit? <==> op.n > old(remain)
      ensures o.Ok? ==> out <= old(r.Unread()) && |out| <= op.n && (!op.OpRead? ==> |out| == op.n)
      ensures remain == if !o.Ok? || op.OpPeek? then old(remain) else old(remain) - |out|
      ensures old(Inside(all, limit, start)) ==> (o.Ok? || o.OverLimit?) && Inside(all, limit, start)
    {
      hide *;
      match op
      case OpRead(n, k) => o, out := CallRead(n, k, all, limit, start);
      case OpPeek(n) => o, out := CallPeek(n, all, limit, start);
      case _ => o, out := CallNext(op.n, all, limit, start);
    }

    method CallNext(n: nat, ghost all: seq<Byte>, ghost limit: nat, ghost start: Pos)
      returns (o: Outcome, out: seq<Byte>)
      requires r.Valid()
      modifies this`remain, r, r.buff
      ensures r.Valid() && (r.buff == old(r.buff) || fresh(r.buff))
      ensures o.OverLimit? <==> n > old(remain)
      ensures o.Ok? ==> out <= old(r.Unread()) && |out| == n
      ensures remain == if o.Ok? then old(remain) - n else old(remain)
      ensures old(Inside(all, limit, start)) ==> (o.Ok? || o.OverLimit?) && Inside(all, limit, start)
    {
      hide *;
      ghost var p, before, inside := r.At(), r.Unread(), Inside(all, limit, start);
      FrameLength(all, limit, start);
      NotOverLimit(p, n, 0);
      if inside && n <= remain { NextInFrame(p, remain, before, all, limit, start, n); }
      var buf;
      o, buf := Next(n);
      out := buf.Copy();
      assert o.Ok? ==> out == before[..n];
      if inside { StillInside(all, limit, start); }
    }

    method CallPeek(n: nat, ghost all: seq<Byte>, ghost limit: nat, ghost start: Pos)
      returns (o: Outcome, out: seq<Byte>)
      requires r.Valid()
      modifies r, r.buff
      ensures r.Valid() && (r.buff == old(r.buff) || fresh(r.buff))
      ensures o.OverLimit? <==> n > remain
      ensures o.Ok? ==> out <= old(r.Unread()) && |out| == n
      ensures old(Inside(all, limit, start)) ==> (o.Ok? || o.OverLimit?) && Inside(all, limit, start)
    {
      hide *;
      ghost var p, before, inside := r.At(), r.Unread(), Inside(all, limit, start);
      FrameLength(all, limit, start);
      NotOverLimit(p, n, 0);
      if inside && n <= remain { NextInFrame(p, remain, before, all, limit, start, n); }
      var buf;
      o, buf := Peek(n);
      out := buf.Copy();
      assert o.Ok? ==> out == before[..n];
      if inside { StillInside(all, limit, start); }
    }

    method CallRead(n: nat, k: nat, ghost all: seq<Byte>, ghost limit: nat, ghost start: Pos)
      returns (o: Outcome, out: seq<Byte>)
      requires r.Valid()
      modifies this`remain, r, r.buff
      ensures r.Valid() && (r.buff == old(r.buff) || fresh(r.buff))
      ensures o.OverLimit? <==> n > old(remain)
      ensures o.Ok? ==> out <= old(r.Unread()) && |out| <= n
      ensures remain == if o.Ok? then old(remain) - |out| else old(remain)
      ensures old(Inside(all, limit, start)) ==> (o.Ok? || o.OverLimit?) && Inside(all, limit, start)
    {
      hide *;
      var at := AtHand(n, k, |r.source|);
      var dst := new Byte[n];
      var m;
      o, m := ReadInto(dst, at, all, limit, start);
      out := dst[..m];
    }

    method ReadInto(dst: array<Byte>, at: nat, ghost all: seq<Byte>, ghost limit: nat, ghost start: Pos)
      returns (o: Outcome, m: nat)
      requires r.Valid() && dst != r.buff
      requires at <= dst.Length && at <= |r.source| && (at == 0 ==> dst.Length == 0 || r.source == [])
      modifies this`remain, r, dst
      ensures r.Valid() && (r.buff == old(r.buff) || fresh(r.buff))
      ensures o.OverLimit? <==> dst.Length > old(remain)
      ensures m <= dst.Length && m <= |old(r.Unread())| && dst[..m] == old(r.Unread())[..m]
      ensures remain == if o.Ok? then old(remain) - m else old(remain)
      ensures old(Inside(all, limit, start)) ==> (o.Ok? || o.OverLimit?) && Inside(all, limit, start)
    {
      hide *;
      ghost var n := dst.Length;
      ghost var p, before, inside := r.At(), r.Unread(), Inside(all, limit, start);
      FrameLength(all, limit, start);
      NotOverLimit(p, n, at);
      Sources();
      if inside && n <= remain { ReadInFrame(p, remain, before, all, limit, start, n, at); }
      o, m := Read(dst, at);
      if inside { StillInside(all, limit, start); }
    }

    /** Any sequence of calls, up to the first panic; the payload codec may ignore every other failure.
        Inside its frame there is none, and all that moves is counted. */
    method CallAll(ops: seq<Op>, ghost all: seq<Byte>, ghost limit: nat, ghost start: Pos)
      returns (panics: bool, outs: seq<Outcome>)
      requires r.Valid()
      modifies this`remain, r, r.buff
      ensures r.Valid() && (r.buff == old(r.buff) || fresh(r.buff)) && remain <= old(remain)
      ensures !panics ==> |outs| == |ops|
      ensures old(Inside(all, limit, start)) ==> !panics && Inside(all, limit, start)
      decreases |ops|
    {
      hide *;
      panics, outs := false, [];
      if ops == [] { return; }
      var o, _ := Call(ops[0], all, limit, start);
      if o.Panic? { return true, [o]; }
      panics, outs := CallAll(ops[1..], all, limit, start);
      outs := [o] + outs;
    }
  }

  predicate InFrame(p: Pos, remain: nat, unread: seq<Byte>, all: seq<Byte>, limit: nat, start: Pos) {
    && Framed(p, remain) && remain <= limit <= |all|
    && Beyond(p, remain) == Beyond(start, limit)
    && p.readIndex == start.readIndex + (limit - remain)
    && unread == all[limit - remain..]
  }

  lemma NextInFrame(p: Pos, remain: nat, unread: seq<Byte>, all: seq<Byte>, limit: nat, start: Pos, n: nat)
    requires InFrame(p, remain, unread, all, limit, start) && n <= remain && n <= |unread|
    ensures Sound(p) && Reading(p, n).Ok?
    ensures InFrame(Taken(p, n), remain - n, unread[n..], all, limit, start)
    ensures InFrame(Peeked(p, n), remain, unread, all, limit, start)
  {
    FramedReads(p, remain, n);
    TakenSteps(p, n);
    PeekedBuffers(p, n);
    DropDrop(all, limit - remain, n);
    hide Framed, Beyond, Reading, Taken, Peeked, Sound;
  }

  lemma ReadInFrame(
      p: Pos, remain: nat, unread: seq<Byte>, all: seq<Byte>, limit: nat, start: Pos, n: nat, k: nat)
    requires InFrame(p, remain, unread, all, limit, start) && n <= remain && n <= |unread|
    requires k <= n && k <= p.available && (k == 0 ==> n == 0 || p.available == 0)
    ensures Sound(p) && Filling(p, n, k).Ok? && Delivered(p, n, k) <= n
    ensures var m := Delivered(p, n, k);
      InFrame(Filled(p, n, k), remain - m, unread[m..], all, limit, start)
  {
    FramedFills(p, remain, n, k);
    DropDrop(all, limit - remain, Delivered(p, n, k));
    hide Framed, Beyond, Filling, Filled, Delivered, Sound;
  }

  /** What a connection delivers to one read: something unless there is nothing. */
  function AtHand(n: nat, k: nat, available: nat): (m: nat)
    ensures m <= n && m <= available && (m == 0 ==> n == 0 || available == 0)
  {
    var most := if n < available then n else available;
    if k > most then most else if k == 0 && most > 0 then 1 else k
  }
}
