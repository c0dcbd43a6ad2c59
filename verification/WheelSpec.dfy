/** What the timing wheel is for, without a wheel: a set of pending timers, a tick counter
    and the history of what fired at each tick.  The `TimeWheel` class is proved to do
    exactly this; the lemmas here say what it means for callers over whole runs. */
module WheelSpec {
  import opened Common
  import opened WheelMath

  type Id = nat

  /** A pending timer: when it fires next (`None`: never), and how it is re-armed. */
  datatype Entry = Entry(due: Option<nat>, period: nat, periodic: bool)

  /** `history[t]` is the set of timers fired by the tick that processed jiffies value `t`; `used` are
      the timers ever inserted and `stopped` those ever stopped. */
  datatype State = State(
    jiffies: nat, curTimePoint: nat, pending: map<Id, Entry>, history: seq<set<Id>>,
    used: set<Id>, stopped: set<Id>)

  function Initial(now: nat): (w: State) {
    State(0, now, map[], [], {}, {})
  }

  predicate Consistent(w: State) {
    && |w.history| == w.jiffies
    && forall id <- w.pending :: w.pending[id].due.Some? ==> w.jiffies <= w.pending[id].due.value
  }

  function Expired(w: State): (ids: set<Id>) {
    set id <- w.pending | w.pending[id].due == Some(w.jiffies)
  }

  /** The entry of a timer that has just fired at `tick` and re-arms. */
  function Rearmed(e: Entry, tick: nat): (r: Entry) {
    e.(due := if e.period >= 1 then Some(tick + e.period) else None)
  }

  /** One tick: the timers due now fire, the periodic ones among them are re-armed. */
  function Tick(w: State): (w': State) {
    w.(jiffies := w.jiffies + 1,
       pending := map id <- w.pending | id !in Expired(w) || w.pending[id].periodic ::
         if id in Expired(w) then Rearmed(w.pending[id], w.jiffies) else w.pending[id],
       history := w.history + [Expired(w)])
  }

  function TickMany(w: State, n: nat): (w': State)
    ensures w'.jiffies == w.jiffies + n && w'.curTimePoint == w.curTimePoint
    decreases n
  {
    if n == 0 then w else TickMany(Tick(w), n - 1)
  }

  datatype Op =
    | Insert(id: Id, delay: Duration, periodic: bool, readAt: nat)
    | Stop(id: Id)
    | Run(reading: nat)

  /** The due tick given by the slot that was chosen with the tick read at `readAt`. */
  function InsertedEntry(delay: Duration, periodic: bool, readAt: nat, jiffies: nat): (e: Entry)
    requires readAt <= jiffies <= TICK_LIMIT
  {
    var expire := readAt + Ticks(delay);
    Entry(Due(SlotOf(expire, readAt), expire, jiffies), if periodic then Ticks(delay) else 0, periodic)
  }

  /** Callers insert new timers, with a tick they read earlier, and stop a timer at most once:
      `RingList.SecondDeleteLosesTail` shows what a second stop can do. */
  predicate Enabled(w: State, op: Op) {
    match op
    case Insert(id, _, _, readAt) => id !in w.used && readAt <= w.jiffies <= TICK_LIMIT
    case Stop(id) => id in w.used && id !in w.stopped
    case Run(r) => w.jiffies + Steps(w.curTimePoint, r) <= TICK_LIMIT
  }

  /** Ticks performed for a clock reading: none when the clock was set back. */
  function Steps(curTimePoint: nat, reading: nat): (n: nat) {
    if reading < curTimePoint then 0 else reading - curTimePoint
  }

  function Apply(w: State, op: Op): (w': State)
    requires Enabled(w, op)
  {
    match op
    case Insert(id, delay, periodic, readAt) =>
      w.(pending := w.pending[id := InsertedEntry(delay, periodic, readAt, w.jiffies)], used := w.used + {id})
    case Stop(id) => w.(pending := w.pending - {id}, stopped := w.stopped + {id})
    case Run(r) => TickMany(w.(curTimePoint := r), Steps(w.curTimePoint, r))
  }

  predicate EnabledAll(w: State, ops: seq<Op>)
    decreases |ops|
  {
    ops == [] || (Enabled(w, ops[0]) && EnabledAll(Apply(w, ops[0]), ops[1..]))
  }

  function ApplyAll(w: State, ops: seq<Op>): (w': State)
    requires EnabledAll(w, ops)
    decreases |ops|
  {
    if ops == [] then w else ApplyAll(Apply(w, ops[0]), ops[1..])
  }

  predicate Touches(op: Op, id: Id) {
    match op
    case Insert(i, _, _, _) => i == id
    case Stop(i) => i == id
    case Run(_) => false
  }

  // ------------------------------------------------------------ which ticks fire a timer

  /** The ticks at which an entry fires, if it is left alone. */
  predicate Fires(e: Entry, tick: nat) {
    && e.due.Some?
    && if e.periodic && e.period >= 1
       then tick >= e.due.value && (tick - e.due.value) % e.period == 0
       else tick == e.due.value
  }

  /** A timer that is not pending has no ticks to fire at. */
  predicate FiresIn(w: State, id: Id, tick: nat) {
    id in w.pending && Fires(w.pending[id], tick)
  }

  /** `w'` extends the history of `w`, firing `id` exactly at the ticks `w` foretells, and
      foretells the same from there on. */
  ghost predicate Foretold(w: State, w': State, id: Id) {
    && Consistent(w')
    && w.history <= w'.history
    && (forall t: nat | w.jiffies <= t < w'.jiffies :: id in w'.history[t] <==> FiresIn(w, id, t))
    && (forall t: nat | w'.jiffies <= t :: FiresIn(w', id, t) <==> FiresIn(w, id, t))
  }

  lemma ForetoldTrans(w0: State, w1: State, w2: State, id: Id)
    requires Consistent(w0) && Foretold(w0, w1, id) && Foretold(w1, w2, id)
    ensures Foretold(w0, w2, id)
  {
    forall t: nat | w0.jiffies <= t < w2.jiffies
      ensures id in w2.history[t] <==> FiresIn(w0, id, t)
    {
      if t < w1.jiffies {
        assert w2.history[t] == w1.history[t];
      }
    }
  }

  lemma TickForetold(w: State, id: Id)
    requires Consistent(w)
    ensures Foretold(w, Tick(w), id)
  {
    var w' := Tick(w);
    assert w'.history[w.jiffies] == Expired(w);
    forall t: nat | w.jiffies <= t
      ensures t == w.jiffies ==> (id in Expired(w) <==> FiresIn(w, id, t))
      ensures t > w.jiffies ==> (FiresIn(w', id, t) <==> FiresIn(w, id, t))
    {
      if id in w.pending && w.pending[id].due.Some? {
        var e := w.pending[id];
        if e.periodic && e.period >= 1 {
          PeriodicShift(e.due.value, e.period, t);
        }
      }
    }
  }

  lemma PeriodicShift(due: nat, period: nat, t: nat)
    requires period >= 1
    ensures t > due ==>
      ((t - due) % period == 0 <==> t >= due + period && (t - (due + period)) % period == 0)
  {
    if t >= due + period {
      ModShift(t - (due + period), 1, period);
    } else if t > due {
      QuotientUnique(t - due, 0, t - due, period);
    }
  }

  lemma {:induction false} TickManyForetold(w: State, n: nat, id: Id)
    requires Consistent(w)
    ensures Foretold(w, TickMany(w, n), id)
    decreases n
  {
    if n > 0 {
      TickForetold(w, id);
      TickManyForetold(Tick(w), n - 1, id);
      ForetoldTrans(w, Tick(w), TickMany(w, n), id);
    }
  }

  lemma ApplyForetold(w: State, op: Op, id: Id)
    requires Consistent(w) && Enabled(w, op) && !Touches(op, id)
    ensures Foretold(w, Apply(w, op), id)
  {
    match op
    case Insert(i, delay, periodic, readAt) =>
      InsertedNotBehind(delay, periodic, readAt, w.jiffies);
    case Stop(_) =>
    case Run(r) =>
      var w1 := w.(curTimePoint := r);
      TickManyForetold(w1, Steps(w.curTimePoint, r), id);
      var w2 := Apply(w, op);
      assert forall t: nat :: FiresIn(w1, id, t) <==> FiresIn(w, id, t);
      assert w1.history == w.history && w1.jiffies == w.jiffies;
  }

  lemma InsertedNotBehind(delay: Duration, periodic: bool, readAt: nat, jiffies: nat)
    requires readAt <= jiffies <= TICK_LIMIT
    ensures var e := InsertedEntry(delay, periodic, readAt, jiffies);
      e.due.Some? ==> jiffies <= e.due.value
  {
  }

  /** Exact firing over every run.  From any consistent state and for every sequence of
      inserts, stops and clock readings that leaves timer `id` alone, the ticks that fire it
      are exactly the ones its entry foretells: none early, none late, none missing, and a
      periodic timer without drift. */
  lemma {:induction false} ExactFiring(w: State, ops: seq<Op>, id: Id)
    requires Consistent(w) && EnabledAll(w, ops)
    requires forall op <- ops :: !Touches(op, id)
    ensures Foretold(w, ApplyAll(w, ops), id)
    decreases |ops|
  {
    if ops != [] {
      ApplyForetold(w, ops[0], id);
      ExactFiring(Apply(w, ops[0]), ops[1..], id);
      ForetoldTrans(w, Apply(w, ops[0]), ApplyAll(w, ops), id);
    }
  }

  /** A run keeps the state consistent and only extends the history. */
  lemma {:induction false} RunConsistent(w: State, ops: seq<Op>)
    requires Consistent(w) && EnabledAll(w, ops)
    ensures Consistent(ApplyAll(w, ops)) && w.history <= ApplyAll(w, ops).history
    decreases |ops|
  {
    if ops != [] {
      var w1 := Apply(w, ops[0]);
      match ops[0] {
        case Insert(_, delay, periodic, readAt) => InsertedNotBehind(delay, periodic, readAt, w.jiffies);
        case Stop(_) =>
        case Run(r) => TickManyForetold(w.(curTimePoint := r), Steps(w.curTimePoint, r), 0);
      }
      RunConsistent(w1, ops[1..]);
    }
  }

  lemma {:induction false} RunSplit(w: State, a: seq<Op>, b: seq<Op>)
    requires EnabledAll(w, a + b)
    ensures EnabledAll(w, a) && EnabledAll(ApplyAll(w, a), b)
    ensures ApplyAll(w, a + b) == ApplyAll(ApplyAll(w, a), b)
    decreases |a|
  {
    if a == [] {
      assert a + b == b;
    } else {
      assert (a + b)[1..] == a[1..] + b;
      RunSplit(Apply(w, a[0]), a[1..], b);
    }
  }

  /** First at `first`, then, if periodic with a period of at least one tick, at every whole period. */
  predicate FiresFrom(first: nat, period: nat, periodic: bool, tick: nat) {
    if periodic && period >= 1 then tick >= first && (tick - first) % period == 0 else tick == first
  }

  /** A timer filed under a tick read at `readAt`, pushed at `w.jiffies >= readAt` in any
      consistent state and then left alone for any continuation `rest`.  If its slot is drained
      again no later than its expiry, it fires at the expiry and, with a period of at least one
      tick, at every whole period after it; a periodic timer of less than one tick fires once.
      Otherwise a timer in a near slot fires late, first at the next drain of that slot and then
      every period, and a timer in a level slot never fires. */
  lemma InsertedFiresExactly(w: State, id: Id, delay: Duration, periodic: bool, readAt: nat, rest: seq<Op>)
    requires Consistent(w)
    requires EnabledAll(w, [Insert(id, delay, periodic, readAt)] + rest)
    requires forall op <- rest :: !Touches(op, id)
    ensures var expire, d := readAt + Ticks(delay), Ticks(delay);
      var end := ApplyAll(w, [Insert(id, delay, periodic, readAt)] + rest);
      && |end.history| == end.jiffies
      && forall t: nat | w.jiffies <= t < end.jiffies ::
           var slot := SlotOf(expire, readAt);
           var drain := NextDrain(slot, w.jiffies);
           if drain <= expire then id in end.history[t] <==> FiresFrom(expire, d, periodic, t)
           else if slot.Near? then id in end.history[t] <==> FiresFrom(drain, d, periodic, t)
           else id !in end.history[t]
  {
    var op := Insert(id, delay, periodic, readAt);
    assert ([op] + rest)[1..] == rest;
    InsertedNotBehind(delay, periodic, readAt, w.jiffies);
    ExactFiring(Apply(w, op), rest, id);
    hide InsertedEntry, Fires, FiresFrom, SlotOf, NextDrain;
    var end := ApplyAll(w, [op] + rest);
    forall t: nat | w.jiffies <= t < end.jiffies
      ensures id in end.history[t] <==> Fires(InsertedEntry(delay, periodic, readAt, w.jiffies), t)
    {
    }
    InsertedFires(delay, periodic, readAt, w.jiffies);
  }

  /** The ticks foretold by the entry of a timer at its insertion. */
  lemma InsertedFires(delay: Duration, periodic: bool, readAt: nat, jiffies: nat)
    requires readAt <= jiffies <= TICK_LIMIT
    ensures var expire, d := readAt + Ticks(delay), Ticks(delay);
      var slot := SlotOf(expire, readAt);
      var drain := NextDrain(slot, jiffies);
      forall t: nat | jiffies <= t ::
        Fires(InsertedEntry(delay, periodic, readAt, jiffies), t) <==>
        if drain <= expire then FiresFrom(expire, d, periodic, t)
        else slot.Near? && FiresFrom(drain, d, periodic, t)
  {
    StaleDue(readAt + Ticks(delay), readAt, jiffies);
    hide SlotOf, NextDrain;
  }

  /** The usual case, without a slot in sight: a timer inserted with the current tick fires exactly
      at its expiry, and a periodic one of at least one tick exactly every period after that, for
      every delay up to the largest Duration and every continuation that leaves it alone. */
  lemma TimerFiresExactly(w: State, id: Id, delay: Duration, periodic: bool, rest: seq<Op>)
    requires Consistent(w)
    requires EnabledAll(w, [Insert(id, delay, periodic, w.jiffies)] + rest)
    requires forall op <- rest :: !Touches(op, id)
    ensures var d := Ticks(delay);
      var expire := w.jiffies + d;
      var end := ApplyAll(w, [Insert(id, delay, periodic, w.jiffies)] + rest);
      && |end.history| == end.jiffies
      && forall t: nat | w.jiffies <= t < end.jiffies ::
           id in end.history[t] <==> FiresFrom(expire, d, periodic, t)
  {
    FiledOnTime(w.jiffies + Ticks(delay), w.jiffies);
    InsertedFiresExactly(w, id, delay, periodic, w.jiffies, rest);
  }

  /** After a stop the timer is not fired by any later tick. */
  lemma StoppedNeverFires(w: State, id: Id, rest: seq<Op>)
    requires Consistent(w) && EnabledAll(w, [Stop(id)] + rest)
    requires forall op <- rest :: !Touches(op, id)
    ensures var end := ApplyAll(w, [Stop(id)] + rest);
      && |end.history| == end.jiffies
      && forall t: nat | w.jiffies <= t < end.jiffies :: id !in end.history[t]
  {
    assert ([Stop(id)] + rest)[1..] == rest;
    ExactFiring(Apply(w, Stop(id)), rest, id);
  }

  // ------------------------------------------------------------ coupling to the clock

  /** The sum of the forward steps among the clock readings of a run. */
  function ForwardSteps(curTimePoint: nat, ops: seq<Op>): (n: nat)
    decreases |ops|
  {
    if ops == [] then 0
    else if ops[0].Run? then
      var reading := ops[0].reading;
      (if curTimePoint < reading then reading - curTimePoint else 0) + ForwardSteps(reading, ops[1..])
    else ForwardSteps(curTimePoint, ops[1..])
  }

  predicate Monotone(curTimePoint: nat, ops: seq<Op>)
    decreases |ops|
  {
    ops == [] ||
    if ops[0].Run? then curTimePoint <= ops[0].reading && Monotone(ops[0].reading, ops[1..])
    else Monotone(curTimePoint, ops[1..])
  }

  /** Jiffies grow by the forward steps of the clock and by nothing else; while the clock
      never steps back, jiffies and the time point stay in step. */
  lemma {:induction false} ClockCoupling(w: State, ops: seq<Op>)
    requires EnabledAll(w, ops)
    ensures var end := ApplyAll(w, ops);
      && end.jiffies == w.jiffies + ForwardSteps(w.curTimePoint, ops)
      && (Monotone(w.curTimePoint, ops) ==> end.jiffies - end.curTimePoint == w.jiffies - w.curTimePoint)
    decreases |ops|
  {
    if ops != [] {
      ClockCoupling(Apply(w, ops[0]), ops[1..]);
    }
  }

  /** A wheel made in slice `now` has ticked, after any calls, once for every slice the clock has moved
      forward since. */
  lemma TicksSinceStart(now: nat, ops: seq<Op>)
    requires EnabledAll(Initial(now), ops)
    ensures ApplyAll(Initial(now), ops).jiffies == ForwardSteps(now, ops)
    ensures Consistent(Initial(now)) && Initial(now).pending == map[]
  {
    ClockCoupling(Initial(now), ops);
  }

  /** A reading that is not ahead of the time point performs no tick: nothing fires and nothing moves,
      only the time point is set back. */
  lemma ClockSetBack(w: State, reading: nat)
    requires reading <= w.curTimePoint && Enabled(w, Run(reading))
    ensures Apply(w, Run(reading)) == w.(curTimePoint := reading)
  {
  }

  /** A one-shot timer of `d` whole slices, registered when the time point was `w.curTimePoint`,
      fires in the first run whose reading is at least d + 1 slices ahead, and in no other. */
  lemma FiresInFirstLateEnoughRun(w: State, id: Id, d: nat, pre: seq<Op>, reading: nat)
    requires Consistent(w) && id in w.pending && w.pending[id] == Entry(Some(w.jiffies + d), 0, false)
    requires EnabledAll(w, pre + [Run(reading)]) && Monotone(w.curTimePoint, pre)
    requires forall op <- pre :: !Touches(op, id)
    ensures EnabledAll(w, pre)
    ensures var before, after := ApplyAll(w, pre), ApplyAll(w, pre + [Run(reading)]);
      && |after.history| == after.jiffies
      && (before.curTimePoint <= reading ==>
           ((exists t: nat | before.jiffies <= t < after.jiffies :: id in after.history[t])
            <==> before.curTimePoint < w.curTimePoint + d + 1 <= reading))
  {
    RunSplit(w, pre, [Run(reading)]);
    var before := ApplyAll(w, pre);
    var after := Apply(before, Run(reading));
    assert ApplyAll(before, [Run(reading)]) == after;
    ClockCoupling(w, pre);
    ExactFiring(w, pre, id);
    ApplyForetold(before, Run(reading), id);
    ForetoldTrans(w, before, after, id);
    var due := w.jiffies + d;
    if before.curTimePoint < w.curTimePoint + d + 1 <= reading {
      assert before.jiffies <= due < after.jiffies;
      assert FiresIn(w, id, due) && id in after.history[due];
    }
  }

  // ------------------------------------------------------------ runs in real time

  /** A call at a time in nanoseconds. */
  datatype Event = Event(at: nat, op: Op)

  function Ops(events: seq<Event>): (ops: seq<Op>) {
    if events == [] then [] else [events[0].op] + Ops(events[1..])
  }

  /** Calls in the order of time, in which the wheel reads the clock at least every `gap`. */
  predicate Timely(now: nat, lastRun: nat, events: seq<Event>, gap: nat)
    decreases |events|
  {
    events == [] ||
    (&& now <= events[0].at <= lastRun + gap
     && (events[0].op.Run? ==> events[0].op.reading == events[0].at / SLICE)
     && Timely(events[0].at, if events[0].op.Run? then events[0].at else lastRun, events[1..], gap))
  }

  /** When the wheel last ran. */
  function LastRun(lastRun: nat, events: seq<Event>): (t: nat)
    decreases |events|
  {
    if events == [] then lastRun
    else LastRun(if events[0].op.Run? then events[0].at else lastRun, events[1..])
  }

  lemma {:induction false} TimelyRun(w: State, now: nat, lastRun: nat, events: seq<Event>, gap: nat)
    requires lastRun <= now && Timely(now, lastRun, events, gap)
    requires w.curTimePoint == lastRun / SLICE && EnabledAll(w, Ops(events))
    ensures Monotone(w.curTimePoint, Ops(events)) && lastRun <= LastRun(lastRun, events)
    ensures ApplyAll(w, Ops(events)).curTimePoint == LastRun(lastRun, events) / SLICE
    decreases |events|
  {
    if events != [] {
      var e := events[0];
      assert Ops(events)[1..] == Ops(events[1..]);
      assert lastRun / SLICE <= e.at / SLICE;
      TimelyRun(Apply(w, e.op), e.at, if e.op.Run? then e.at else lastRun, events[1..], gap);
    }
  }

  lemma {:induction false} UntouchedOps(events: seq<Event>, id: Id)
    requires forall e <- events :: !Touches(e.op, id)
    ensures forall op <- Ops(events) :: !Touches(op, id)
  {
    if events != [] {
      UntouchedOps(events[1..], id);
    }
  }

  /** The state in which a one-shot timer has just been inserted, and its entry. */
  lemma JustInserted(w: State, id: Id, delay: Duration)
    requires Consistent(w) && Enabled(w, Insert(id, delay, false, w.jiffies))
    ensures var w1 := Apply(w, Insert(id, delay, false, w.jiffies));
      && Consistent(w1) && w1.jiffies == w.jiffies && w1.curTimePoint == w.curTimePoint
      && id in w1.pending && w1.pending[id] == Entry(Some(w.jiffies + Ticks(delay)), 0, false)
  {
    InsertedNotBehind(delay, false, w.jiffies, w.jiffies);
    FiledOnTime(w.jiffies + Ticks(delay), w.jiffies);
    StaleDue(w.jiffies + Ticks(delay), w.jiffies, w.jiffies);
  }

  predicate FiredBetween(id: Id, from: State, to: State) {
    |to.history| == to.jiffies && exists t: nat | from.jiffies <= t < to.jiffies :: id in to.history[t]
  }

  /** A one-shot timer of any delay, inserted at time `armed` into a wheel that last ran at `lastRun`,
      with any timely calls after it.  The run that fires it takes place less than SLICE + gap
      before or after armed + delay. */
  lemma FireWindow(
      w: State, lastRun: nat, armed: nat, id: Id, delay: Duration, events: seq<Event>, fire: nat, gap: nat)
    requires Consistent(w) && w.curTimePoint == lastRun / SLICE && lastRun <= armed <= lastRun + gap
    requires Enabled(w, Insert(id, delay, false, w.jiffies))
    requires var w1 := Apply(w, Insert(id, delay, false, w.jiffies));
      EnabledAll(w1, Ops(events) + [Run(fire / SLICE)])
    requires Timely(armed, lastRun, events, gap) && LastRun(lastRun, events) <= fire <= LastRun(lastRun, events) + gap
    requires forall e <- events :: !Touches(e.op, id)
    ensures var w1 := Apply(w, Insert(id, delay, false, w.jiffies));
      && EnabledAll(w1, Ops(events))
      && var before, after := ApplyAll(w1, Ops(events)), ApplyAll(w1, Ops(events) + [Run(fire / SLICE)]);
      FiredBetween(id, before, after) ==> armed + delay - (SLICE + gap) < fire < armed + delay + (SLICE + gap)
  {
    var w1 := Apply(w, Insert(id, delay, false, w.jiffies));
    JustInserted(w, id, delay);
    UntouchedOps(events, id);
    RunSplit(w1, Ops(events), [Run(fire / SLICE)]);
    TimelyRun(w1, armed, lastRun, events, gap);
    FiresInFirstLateEnoughRun(w1, id, Ticks(delay), Ops(events), fire / SLICE);
    InNanoseconds(armed, lastRun, delay, LastRun(lastRun, events), fire, gap);
  }

  /** And it does not stay pending for longer: as long as it has not fired, less than delay + SLICE +
      gap have passed. */
  lemma PendingWindow(
      w: State, lastRun: nat, armed: nat, id: Id, delay: Duration, events: seq<Event>, now: nat, gap: nat)
    requires Consistent(w) && w.curTimePoint == lastRun / SLICE && lastRun <= armed <= lastRun + gap
    requires Enabled(w, Insert(id, delay, false, w.jiffies))
    requires EnabledAll(Apply(w, Insert(id, delay, false, w.jiffies)), Ops(events))
    requires Timely(armed, lastRun, events, gap) && LastRun(lastRun, events) <= now <= LastRun(lastRun, events) + gap
    requires forall e <- events :: !Touches(e.op, id)
    ensures var end := ApplyAll(Apply(w, Insert(id, delay, false, w.jiffies)), Ops(events));
      !FiredBetween(id, w, end) ==> now < armed + delay + SLICE + gap
  {
    var op := Insert(id, delay, false, w.jiffies);
    var w1 := Apply(w, op);
    JustInserted(w, id, delay);
    UntouchedOps(events, id);
    TimelyRun(w1, armed, lastRun, events, gap);
    ClockCoupling(w1, Ops(events));
    assert ([op] + Ops(events))[1..] == Ops(events);
    TimerFiresExactly(w, id, delay, false, Ops(events));
    var end := ApplyAll(w1, Ops(events));
    var due := w.jiffies + Ticks(delay);
    if due < end.jiffies {
      assert FiresFrom(due, Ticks(delay), false, due) && id in end.history[due];
    } else {
      StillEarly(armed, lastRun, delay, LastRun(lastRun, events));
    }
  }

  lemma InNanoseconds(armed: nat, lastRun: nat, delay: Duration, prev: nat, fire: nat, gap: nat)
    requires lastRun <= armed <= lastRun + gap && prev <= fire <= prev + gap
    ensures prev / SLICE < lastRun / SLICE + Ticks(delay) + 1 <= fire / SLICE ==>
      armed + delay - (SLICE + gap) < fire < armed + delay + (SLICE + gap)
  {
  }

  lemma StillEarly(armed: nat, lastRun: nat, delay: Duration, last: nat)
    requires lastRun <= armed && last / SLICE <= lastRun / SLICE + Ticks(delay)
    ensures last < armed + delay + SLICE
  {
  }
}
