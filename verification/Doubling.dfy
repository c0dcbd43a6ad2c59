/** Buffer lengths: a capacity doubled until it suffices. */
module Doubling {

  function Pow2(m: nat): (p: nat)
    ensures p > m
  {
    if m == 0 then 1 else 2 * Pow2(m - 1)
  }

  lemma {:induction false} Pow2Monotone(m: nat, k: nat)
    requires m <= k
    ensures Pow2(m) <= Pow2(k)
    decreases k
  {
    if m < k { Pow2Monotone(m, k - 1); }
  }

  /** The doubling loop with which reader and writer grow their buffers. */
  function Doubled(capacity: nat, min: nat): (c: nat)
    requires capacity > 0
    ensures c >= min && c >= capacity
    decreases if capacity < min then min - capacity else 0
  {
    if capacity < min then Doubled(2 * capacity, min) else capacity
  }

  /** Doubling ends with the capacity times a power of two. */
  lemma {:induction false} DoubledIsPower(capacity: nat, min: nat) returns (m: nat)
    requires capacity > 0
    ensures Doubled(capacity, min) == capacity * Pow2(m)
    ensures m > 0 ==> capacity * Pow2(m - 1) < min
    decreases if capacity < min then min - capacity else 0
  {
    if capacity < min {
      var k := DoubledIsPower(2 * capacity, min);
      m := k + 1;
      MoveTwo(capacity, Pow2(k));
      if k > 0 { MoveTwo(capacity, Pow2(k - 1)); }
    } else {
      m := 0;
    }
  }

  /** The least such number that suffices, and only such a number. */
  lemma DoubledIsLeast(capacity: nat, min: nat)
    requires capacity > 0
    ensures exists m: nat :: Doubled(capacity, min) == capacity * Pow2(m)
    ensures forall k: nat | capacity * Pow2(k) >= min :: Doubled(capacity, min) <= capacity * Pow2(k)
  {
    var m := DoubledIsPower(capacity, min);
    forall k: nat | capacity * Pow2(k) >= min
      ensures Doubled(capacity, min) <= capacity * Pow2(k)
    {
      if k >= m {
        Pow2Monotone(m, k);
        MulMonotone(capacity, Pow2(m), Pow2(k));
      } else {
        Pow2Monotone(k, m - 1);
        MulMonotone(capacity, Pow2(k), Pow2(m - 1));
      }
    }
  }

  lemma MoveTwo(a: nat, x: nat)
    ensures 2 * a * x == a * (2 * x)
  {
  }

  lemma MulMonotone(a: nat, x: nat, y: nat)
    requires x <= y
    ensures a * x <= a * y
  {
  }

  /** Doubling ends exactly at `min` if and only if `min` is the capacity times a power of two. */
  lemma FilledExactly(capacity: nat, min: nat)
    requires capacity > 0
    ensures Doubled(capacity, min) == min <==> min > 0 && exists m: nat :: min == capacity * Pow2(m)
  {
    var m := DoubledIsPower(capacity, min);
    DoubledIsLeast(capacity, min);
  }
}
