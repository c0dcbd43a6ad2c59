/** Bytes and the big-endian numbers the codecs write. */
module Bytes {

  type Byte = b: int | 0 <= b < 256

  /** binary.BigEndian.PutUint32; the argument is truncated to 32 bits as uint32() does. */
  function BigEndian32(n: nat): (s: seq<Byte>)
    ensures |s| == 4
  {
    [n / 256 / 256 / 256 % 256, n / 256 / 256 % 256, n / 256 % 256, n % 256]
  }

  function ToNat32(s: seq<Byte>): (n: nat)
    requires |s| == 4
    ensures n < 0x1_0000_0000
  {
    (((s[0] as int) * 256 + s[1]) * 256 + s[2]) * 256 + s[3]
  }

  function BigEndian16(n: nat): (s: seq<Byte>)
    ensures |s| == 2
  {
    [n / 256 % 256, n % 256]
  }

  function ToNat16(s: seq<Byte>): (n: nat)
    requires |s| == 2
    ensures n < 0x1_0000
  {
    (s[0] as int) * 256 + s[1]
  }

  lemma RoundTrip32(n: nat)
    requires n < 0x1_0000_0000
    ensures ToNat32(BigEndian32(n)) == n
  {
  }

  lemma RoundTrip16(n: nat)
    requires n < 0x1_0000
    ensures ToNat16(BigEndian16(n)) == n
  {
  }

  /** The order in which dictionaries list words. */
  predicate Precedes(a: seq<Byte>, b: seq<Byte>) {
    exists i | 0 <= i < |a| && i < |b| :: a[..i] == b[..i] && a[i] < b[i]
  }

  /** The most significant byte comes first: numbers are in the order of their encodings. */
  lemma MostSignificantFirst32(m: nat, n: nat)
    requires m < 0x1_0000_0000 && n < 0x1_0000_0000
    ensures m < n <==> Precedes(BigEndian32(m), BigEndian32(n))
  {
    var a, b := BigEndian32(m), BigEndian32(n);
    Weights32(a);
    Weights32(b);
    RoundTrip32(m);
    RoundTrip32(n);
    assert a == [a[0], a[1], a[2], a[3]] && b == [b[0], b[1], b[2], b[3]];
    hide BigEndian32, ToNat32;
    if m < n {
      if a[0] != b[0] { assert a[..0] == b[..0]; }
      else if a[1] != b[1] { assert a[..1] == b[..1]; }
      else if a[2] != b[2] { assert a[..2] == b[..2]; }
      else { assert a[..3] == b[..3]; }
    } else if Precedes(a, b) {
      var i :| 0 <= i < 4 && a[..i] == b[..i] && a[i] < b[i];
      assert forall j | 0 <= j < i :: a[j] == a[..i][j] == b[j];
    }
  }

  /** What each byte of a number is worth. */
  lemma Weights32(s: seq<Byte>)
    requires |s| == 4
    ensures ToNat32(s) == (s[0] as int) * 0x100_0000 + (s[1] as int) * 0x1_0000 + (s[2] as int) * 0x100 + s[3]
  {
  }

  lemma MostSignificantFirst16(m: nat, n: nat)
    requires m < 0x1_0000 && n < 0x1_0000
    ensures m < n <==> Precedes(BigEndian16(m), BigEndian16(n))
  {
    var a, b := BigEndian16(m), BigEndian16(n);
    assert m == (a[0] as int) * 0x100 + a[1] && n == (b[0] as int) * 0x100 + b[1];
    if m < n {
      if a[0] != b[0] { assert a[..0] == b[..0]; } else { assert a[..1] == b[..1]; }
    } else if Precedes(a, b) {
      var i :| 0 <= i < 2 && a[..i] == b[..i] && a[i] < b[i];
      assert forall j | 0 <= j < i :: a[j] == a[..i][j] == b[j];
    }
  }

  lemma DropDrop<T>(s: seq<T>, a: nat, b: nat)
    requires a + b <= |s|
    ensures s[a..][b..] == s[a + b..]
  {
  }

  /** A part of a sequence after some of its elements, and only those, were overwritten. */
  lemma Patched<T>(a: seq<T>, b: seq<T>, from: nat, x: nat, y: nat, to: nat)
    requires |a| == |b| && from <= x <= y <= to <= |a|
    requires forall i | 0 <= i < |a| && !(x <= i < y) :: b[i] == a[i]
    ensures b[from..to] == a[from..to][..x - from] + b[x..y] + a[from..to][y - from..]
  {
  }

  /** A Go slice: a window into an array that others may share. */
  datatype Slice = Slice(arr: array<Byte>, off: nat, len: nat) {
    predicate Valid() {
      off + len <= arr.Length
    }

    ghost function Value(): (s: seq<Byte>)
      requires Valid()
      reads arr
    {
      arr[off..off + len]
    }

    /** Fills in the first bytes of the window. */
    method Overwrite(bytes: seq<Byte>)
      requires Valid() && |bytes| <= len
      modifies arr
      ensures arr[off..off + |bytes|] == bytes
      ensures forall i | 0 <= i < arr.Length && !(off <= i < off + |bytes|) :: arr[i] == old(arr[i])
    {
      forall i | 0 <= i < |bytes| { arr[off + i] := bytes[i]; }
    }

    method Copy() returns (s: seq<Byte>)
      requires Valid()
      ensures s == Value()
    {
      s := arr[off..off + len];
    }
  }
}
