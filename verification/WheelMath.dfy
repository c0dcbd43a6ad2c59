/** Slot arithmetic of the hierarchical timing wheel.

    The source shifts and masks unsigned 64-bit ticks; here `x >> s & 63` is
    `x / 2^s % 64`, and the one subtraction that can wrap is written with its wrap.

    The central notion is the tick at which a linked timer is going to fire, its
    `Due` tick, computed from nothing but the slot it sits in, its expiry and the
    current tick.  The lemmas say what the slot chosen by the wheel does to it. */
module WheelMath {
  import opened Common

  const NEAR_SIZE: nat := 256
  const LEVEL_SIZE: nat := 64
  const LEVELS: nat := 4
  const MAX_VAL: nat := 0xFFFF_FFFF
  const TWO_64: nat := 0x1_0000_0000_0000_0000
  // Ticks up to here keep every expiry below 2^63 (a Duration is below 2^40 ticks).
  const TICK_LIMIT: nat := 0x4000_0000_0000_0000
  const SLICE: nat := 10_000_000

  /** A non-negative time.Duration, in nanoseconds. */
  type Duration = d: int | 0 <= d < 0x8000_0000_0000_0000

  datatype Slot = Near(index: nat) | Level(level: nat, index: nat)

  predicate ValidSlot(s: Slot) {
    match s
    case Near(k) => k < NEAR_SIZE
    case Level(i, k) => i < LEVELS && k < LEVEL_SIZE
  }

  /** Whole 10 ms slices in a duration. */
  function Ticks(d: Duration): (t: nat)
    ensures t * 10_000_000 <= d < (t + 1) * 10_000_000
    ensures t < 0x100_0000_0000
  {
    d / SLICE
  }

  /** 1 << (8 + 6 * i) */
  function LevelMax(i: nat): (w: nat)
    requires i <= LEVELS
    ensures w > 0
  {
    if i == 0 then 0x100
    else if i == 1 then 0x4000
    else if i == 2 then 0x10_0000
    else if i == 3 then 0x400_0000
    else 0x1_0000_0000
  }

  lemma LevelMaxStep(i: nat)
    requires i < LEVELS
    ensures LevelMax(i + 1) == 64 * LevelMax(i)
  {
  }

  /** Distance from `jiffies` to `expire` in uint64 arithmetic. */
  function Distance(expire: nat, jiffies: nat): (d: nat)
    requires expire < TWO_64 && jiffies < TWO_64
    ensures d < TWO_64
    ensures d == expire - jiffies || d == expire - jiffies + TWO_64
  {
    (expire - jiffies) % TWO_64
  }

  function LevelOf(idx: nat): (i: nat)
    requires idx <= MAX_VAL
    ensures i < LEVELS
    ensures idx < LevelMax(i + 1)
    ensures i > 0 ==> LevelMax(i) <= idx
  {
    if idx < LevelMax(1) then 0 else if idx < LevelMax(2) then 1 else if idx < LevelMax(3) then 2 else 3
  }

  /** The expiry by which a level slot is chosen: beyond 2^32-1 ticks it is clamped. */
  function ClampedExpire(expire: nat, jiffies: nat): (e: nat)
    requires expire < TWO_64 && jiffies < TWO_64
  {
    if Distance(expire, jiffies) > MAX_VAL then jiffies + MAX_VAL else expire
  }

  /** The slot the wheel files a timer under when it believes the tick is `jiffies`. */
  function SlotOf(expire: nat, jiffies: nat): (s: Slot)
    requires expire < TWO_64 && jiffies < TWO_64
    ensures ValidSlot(s)
  {
    var idx := Distance(expire, jiffies);
    if idx < NEAR_SIZE then
      Near(expire % NEAR_SIZE)
    else
      var i := LevelOf(if idx > MAX_VAL then MAX_VAL else idx);
      Level(i, ClampedExpire(expire, jiffies) / LevelMax(i) % LEVEL_SIZE)
  }

  /** The slots spelled out: 256 near ones a tick apart, and four levels of 64 whose slots are 2^8, 2^14,
      2^20 and 2^26 ticks apart. */
  lemma SlotSpelledOut(expire: nat, jiffies: nat)
    requires jiffies <= expire < 0x8000_0000_0000_0000
    ensures var d := expire - jiffies;
      SlotOf(expire, jiffies) ==
      if d < 0x100 then Near(expire % 0x100)
      else if d < 0x4000 then Level(0, expire / 0x100 % 0x40)
      else if d < 0x10_0000 then Level(1, expire / 0x4000 % 0x40)
      else if d < 0x400_0000 then Level(2, expire / 0x10_0000 % 0x40)
      else if d < 0x1_0000_0000 then Level(3, expire / 0x400_0000 % 0x40)
      else Level(3, (jiffies + 0xFFFF_FFFF) / 0x400_0000 % 0x40)
  {
  }

  /** A slot is drained periodically: at the ticks congruent to `Offset` modulo `Period`. */
  function Period(s: Slot): (p: nat)
    requires ValidSlot(s)
    ensures p > 0
  {
    match s
    case Near(_) => NEAR_SIZE
    case Level(i, _) => LevelMax(i + 1)
  }

  function Offset(s: Slot): (o: nat)
    requires ValidSlot(s)
    ensures o < Period(s)
  {
    match s
    case Near(k) => k
    case Level(i, k) => OffsetBound(i, k); k * LevelMax(i)
  }

  lemma OffsetBound(i: nat, k: nat)
    requires i < LEVELS && k < LEVEL_SIZE
    ensures 0 <= k * LevelMax(i) < LevelMax(i + 1)
  {
    LevelMaxStep(i);
  }

  predicate DrainedAt(s: Slot, tick: nat)
    requires ValidSlot(s)
  {
    tick % Period(s) == Offset(s)
  }

  /** The first tick at or after `jiffies` that drains `s`. */
  function NextDrain(s: Slot, jiffies: nat): (d: nat)
    requires ValidSlot(s)
    ensures jiffies <= d < jiffies + Period(s)
  {
    jiffies + (Offset(s) - jiffies) % Period(s)
  }

  /** x is the only multiple-of-p shift of itself in a window of length p. */
  lemma ModUnique(x: int, y: int, p: nat)
    requires p > 0 && 0 <= x - y < p && x % p == y % p
    ensures x == y
  {
    var qx, qy := x / p, y / p;
    assert x == qx * p + x % p && y == qy * p + y % p;
    assert x - y == (qx - qy) * p;
    if qx - qy >= 1 { MulAtLeast(qx - qy, p); }
    if qx - qy <= -1 { MulAtLeast(qy - qx, p); }
  }

  lemma MulAtLeast(q: int, p: nat)
    requires q >= 1
    ensures q * p >= p
  {
  }

  lemma ModShift(x: int, k: int, p: nat)
    requires p > 0
    ensures (x + k * p) % p == x % p
  {
    var q := x / p;
    assert x + k * p == (q + k) * p + x % p;
    QuotientUnique(x + k * p, q + k, x % p, p);
  }

  lemma QuotientUnique(x: int, q: int, r: int, p: nat)
    requires p > 0 && x == q * p + r && 0 <= r < p
    ensures x / p == q && x % p == r
  {
    var d := x / p - q;
    assert x == (x / p) * p + x % p;
    assert d * p == r - x % p;
    if d >= 1 { MulAtLeast(d, p); }
    if d <= -1 { MulAtLeast(-d, p); }
  }

  /** `NextDrain` is what it says: it drains `s`, and nothing before it does. */
  lemma {:induction false} NextDrainIsFirst(s: Slot, jiffies: nat, tick: nat)
    requires ValidSlot(s) && jiffies <= tick
    ensures DrainedAt(s, NextDrain(s, jiffies))
    ensures DrainedAt(s, tick) ==> NextDrain(s, jiffies) <= tick
  {
    var p, o := Period(s), Offset(s);
    var d := NextDrain(s, jiffies);
    var q := (o - jiffies) / p;
    assert o - jiffies == q * p + (o - jiffies) % p;
    assert d == o + (-q) * p;
    ModShift(o, -q, p);
    QuotientUnique(o, 0, o, p);
    if DrainedAt(s, tick) && tick < d {
      ModUnique(d, tick, p);
    }
  }

  /** Passing a tick that does not drain a slot leaves its next drain where it was. */
  lemma NextDrainStable(s: Slot, jiffies: nat)
    requires ValidSlot(s)
    ensures DrainedAt(s, jiffies) <==> NextDrain(s, jiffies) == jiffies
    ensures !DrainedAt(s, jiffies) ==> NextDrain(s, jiffies + 1) == NextDrain(s, jiffies)
  {
    NextDrainIsFirst(s, jiffies, jiffies);
    if !DrainedAt(s, jiffies) {
      NextDrainIsFirst(s, jiffies + 1, NextDrain(s, jiffies));
      NextDrainIsFirst(s, jiffies, NextDrain(s, jiffies + 1));
    }
  }

  /** If some tick drains `s` within one period of `jiffies`, it is the next drain. */
  lemma NextDrainIs(s: Slot, jiffies: nat, tick: nat)
    requires ValidSlot(s) && jiffies <= tick < jiffies + Period(s) && DrainedAt(s, tick)
    ensures NextDrain(s, jiffies) == tick
  {
    NextDrainIsFirst(s, jiffies, tick);
    ModUnique(tick, NextDrain(s, jiffies), Period(s));
  }

  /** The aligned boundary of `e` at level `i` drains the slot chosen by shifting and masking `e`. */
  lemma BoundaryDrains(e: nat, i: nat)
    requires i < LEVELS
    ensures DrainedAt(Level(i, e / LevelMax(i) % LEVEL_SIZE), e / LevelMax(i) * LevelMax(i))
  {
    var w := LevelMax(i);
    LevelMaxStep(i);
    var q := e / w;
    var k := q % 64;
    OffsetBound(i, k);
    assert q * w == (q / 64 * 64 + k) * w == (q / 64) * (64 * w) + k * w;
    QuotientUnique(q * w, q / 64, k * w, 64 * w);
  }

  /** Where a timer that has not expired is filed.  A near slot is next drained exactly at
      the expiry.  A level slot is next drained at the slot-aligned boundary of the clamped
      expiry: strictly after now, so a re-filing never lands in a slot that the current tick
      drains, and never after the expiry. */
  lemma FiledOnTime(expire: nat, jiffies: nat)
    requires jiffies <= expire < TWO_64
    ensures var s := SlotOf(expire, jiffies);
      match s
      case Near(_) => NextDrain(s, jiffies) == expire
      case Level(i, _) =>
        && NextDrain(s, jiffies) == ClampedExpire(expire, jiffies) / LevelMax(i) * LevelMax(i)
        && jiffies < NextDrain(s, jiffies) <= expire
  {
    FiledAt(expire, jiffies);
    var s := SlotOf(expire, jiffies);
    if s.Near? {
      NextDrainIs(s, jiffies, expire);
    }
  }

  /** A timer whose expiry already lies behind is filed as far ahead as the wheel reaches. */
  lemma FiledBehind(expire: nat, jiffies: nat)
    requires expire < jiffies < TICK_LIMIT + TICK_LIMIT
    ensures var s := SlotOf(expire, jiffies);
      s.Level? && s.level == 3 && expire < jiffies < NextDrain(s, jiffies)
  {
    FiledAt(expire, jiffies);
  }

  /** The next drain of a chosen level slot is the boundary of the clamped expiry. */
  lemma FiledAt(expire: nat, jiffies: nat)
    requires expire < TWO_64 && jiffies < TWO_64
    requires SlotOf(expire, jiffies).Level? ==> jiffies <= ClampedExpire(expire, jiffies)
    ensures var s := SlotOf(expire, jiffies);
      s.Level? ==>
        var ce := ClampedExpire(expire, jiffies);
        && NextDrain(s, jiffies) == ce / LevelMax(s.level) * LevelMax(s.level)
        && jiffies < NextDrain(s, jiffies) <= ce
  {
    var s := SlotOf(expire, jiffies);
    if s.Level? {
      var i, ce := s.level, ClampedExpire(expire, jiffies);
      var w := LevelMax(i);
      LevelMaxStep(i);
      var b := ce / w * w;
      assert ce - w < b <= ce;
      BoundaryDrains(ce, i);
      NextDrainIs(s, jiffies, b);
    }
  }

  // ------------------------------------------------------------ due ticks

  /** When a timer linked in slot `s` is going to fire, seen from the tick `jiffies` that is
      still to be processed.  A near slot fires whatever it holds at its next drain.  A level
      slot lets the timer fire on its expiry if it is drained by then; otherwise the timer is
      re-filed behind the wheel's back over and over, and never fires. */
  function Due(s: Slot, expire: nat, jiffies: nat): (due: Option<nat>)
    requires ValidSlot(s)
  {
    var d := NextDrain(s, jiffies);
    if s.Near? then Some(d)
    else if d <= expire then Some(expire)
    else None
  }

  /** Re-filing at the tick that drains a level slot leaves the due tick unchanged. */
  lemma RefileKeepsDue(s: Slot, expire: nat, jiffies: nat)
    requires ValidSlot(s) && s.Level? && DrainedAt(s, jiffies)
    requires expire < TICK_LIMIT + TICK_LIMIT && jiffies < TICK_LIMIT + TICK_LIMIT
    ensures Due(SlotOf(expire, jiffies), expire, jiffies) == Due(s, expire, jiffies)
    ensures SlotOf(expire, jiffies).Level? ==> !DrainedAt(SlotOf(expire, jiffies), jiffies)
  {
    NextDrainStable(s, jiffies);
    NextDrainStable(SlotOf(expire, jiffies), jiffies);
    if jiffies <= expire {
      FiledOnTime(expire, jiffies);
    } else {
      FiledBehind(expire, jiffies);
    }
  }

  /** Ticks that do not drain a slot leave the due ticks of its timers unchanged. */
  lemma TickKeepsDue(s: Slot, expire: nat, jiffies: nat)
    requires ValidSlot(s) && !DrainedAt(s, jiffies)
    ensures Due(s, expire, jiffies + 1) == Due(s, expire, jiffies)
    ensures Due(s, expire, jiffies) != Some(jiffies)
  {
    NextDrainStable(s, jiffies);
  }

  /** A timer filed with the current tick fires exactly on its expiry, however far away. */
  lemma FreshDue(expire: nat, jiffies: nat)
    requires expire < TICK_LIMIT + TICK_LIMIT && jiffies < TICK_LIMIT + TICK_LIMIT
    ensures Due(SlotOf(expire, jiffies), expire, jiffies)
         == if jiffies <= expire then Some(expire) else None
  {
    if jiffies <= expire {
      FiledOnTime(expire, jiffies);
    } else {
      FiledBehind(expire, jiffies);
    }
  }

  /** Stale insertion: the slot was chosen with the tick read at `readAt`, and the push happens
      when the wheel has already reached `jiffies`.  The timer fires on its expiry if and only
      if the chosen slot is drained once more no later than the expiry. */
  lemma StaleDue(expire: nat, readAt: nat, jiffies: nat)
    requires readAt <= expire < TICK_LIMIT + TICK_LIMIT && readAt <= jiffies
    ensures var s := SlotOf(expire, readAt);
      Due(s, expire, jiffies) == Some(expire) <==> NextDrain(s, jiffies) <= expire
  {
    var s := SlotOf(expire, readAt);
    FiledOnTime(expire, readAt);
    if s.Near? {
      NextDrainIsFirst(s, jiffies, jiffies);
      if NextDrain(s, jiffies) <= expire {
        NextDrainIsFirst(s, readAt, NextDrain(s, jiffies));
      }
    }
  }

  /** In particular it does whenever the drain tick of the chosen slot has not been processed,
      whatever number of whole ticks ran between the read and the push. */
  lemma StaleButInTime(expire: nat, readAt: nat, jiffies: nat)
    requires readAt <= expire < TICK_LIMIT + TICK_LIMIT && readAt <= jiffies
    requires jiffies <= NextDrain(SlotOf(expire, readAt), readAt)
    ensures Due(SlotOf(expire, readAt), expire, jiffies) == Some(expire)
  {
    var s := SlotOf(expire, readAt);
    FiledOnTime(expire, readAt);
    NextDrainIsFirst(s, readAt, jiffies);
    NextDrainIsFirst(s, jiffies, NextDrain(s, readAt));
    StaleDue(expire, readAt, jiffies);
  }

  /** Read at tick 0, pushed one tick later: a zero-delay timer is 256 ticks late. */
  lemma StaleMiss()
    ensures Due(SlotOf(0, 0), 0, 1) == Some(256)
  {
    assert SlotOf(0, 0) == Near(0);
    NextDrainIs(Near(0), 1, 256);
  }

  /** Far-future timers: parking keeps the real expiry, and every re-filing happens strictly
      later than the one before, so the distance to the expiry strictly shrinks. */
  lemma FarFutureShrinks(expire: nat, jiffies: nat)
    requires jiffies <= expire < TICK_LIMIT + TICK_LIMIT
    requires SlotOf(expire, jiffies).Level?
    ensures var d := NextDrain(SlotOf(expire, jiffies), jiffies);
      && expire - d < expire - jiffies
      && Due(SlotOf(expire, d), expire, d) == Some(expire)
  {
    FiledOnTime(expire, jiffies);
    FreshDue(expire, NextDrain(SlotOf(expire, jiffies), jiffies));
  }
}
