/** The keepalive loop running on the timing wheel.  The keeper's timers are timers of the wheel,
    among any others; the wheel reads the clock at least every `gap` and a timer's callback starts
    as soon as a tick fires it.  Every such run is a trace of `Keepalive`, so its theorems hold
    with timers that are off by less than one slice and one gap. */
module KeepaliveOnWheel {
  import opened Common
  import opened WheelMath
  import W = WheelSpec
  import K = Keepalive

  /** `ids[i]` is the wheel's timer behind the keeper's `timers[i]`; the wheel last ran at `lastRun`. */
  datatype State = State(w: W.State, lastRun: nat, k: K.State, ids: seq<W.Id>)

  datatype Step =
    | Pass(to: nat)                      // time passes
    | Turn(to: nat)                      // the wheel reads the clock and catches up
    | Keeper(a: K.Action, newId: W.Id)   // a step of the keeper; a timer it arms gets id `newId`
    | Other(op: W.Op)                    // somebody else arms or stops a timer

  /** The keeper's timers that stay when it takes a step; a step may add one. */
  function Staying<T>(xs: seq<T>, a: K.Action): (ys: seq<T>) {
    if a.Fire? && a.i < |xs| then xs[..a.i] + xs[a.i + 1..] else xs
  }

  predicate Arms(p: K.Params, s: K.State, a: K.Action)
    requires K.Enabled(p, s, a) && K.Stamped(s)
  {
    |K.Next(p, s, a).timers| > |Staying(s.timers, a)|
  }

  function ArmedDelay(p: K.Params, s: K.State, a: K.Action): (d: nat)
    requires K.Enabled(p, s, a) && K.Stamped(s) && Arms(p, s, a)
  {
    var timers := K.Next(p, s, a).timers;
    timers[|timers| - 1].delay
  }

  /** No fired timer waits for its callback. */
  predicate NoneDue(st: State) {
    forall id <- st.ids :: id in st.w.pending
  }

  predicate TimeMay(p: K.Params, st: State, to: nat) {
    && st.k.now <= to <= st.lastRun + p.gap && NoneDue(st)
    && (st.k.pinging.Some? ==> to <= st.k.pinging.value + p.write)
  }

  /** What the keeper waits for: a fired timer, a written ping, a message on a readable channel. */
  predicate KeeperMay(st: State, a: K.Action) {
    match a
    case Advance(_) => false
    case Fire(i, _) => i < |st.ids| && st.ids[i] !in st.w.pending
    case PingWritten(_, _) => st.k.pinging.Some?
    case Receive(_) => st.k.readable
    case CloseElsewhere => true
    case CloseReader => true
  }

  predicate Enabled(p: K.Params, st: State, step: Step) {
    match step
    case Pass(to) => TimeMay(p, st, to)
    case Turn(to) => TimeMay(p, st, to) && W.Enabled(st.w, W.Run(to / SLICE))
    case Keeper(a, newId) =>
      && KeeperMay(st, a)
      && (K.Enabled(p, st.k, a) && K.Stamped(st.k) && Arms(p, st.k, a) ==>
           && ArmedDelay(p, st.k, a) < 0x8000_0000_0000_0000
           && W.Enabled(st.w, W.Insert(newId, ArmedDelay(p, st.k, a), false, st.w.jiffies)))
    case Other(op) => !op.Run? && W.Enabled(st.w, op) && forall id <- st.ids :: !W.Touches(op, id)
  }

  function Next(p: K.Params, st: State, step: Step): (st': State)
    requires Enabled(p, st, step) && K.Stamped(st.k)
    requires step.Keeper? ==> K.Enabled(p, st.k, step.a)
  {
    match step
    case Pass(to) => st.(k := st.k.(now := to))
    case Turn(to) => st.(w := W.Apply(st.w, W.Run(to / SLICE)), lastRun := to, k := st.k.(now := to))
    case Keeper(a, newId) =>
      var ids := Staying(st.ids, a);
      var k' := K.Next(p, st.k, a);
      if Arms(p, st.k, a) then
        var op := W.Insert(newId, ArmedDelay(p, st.k, a), false, st.w.jiffies);
        State(W.Apply(st.w, op), st.lastRun, k', ids + [newId])
      else st.(k := k', ids := ids)
    case Other(op) => st.(w := W.Apply(st.w, op))
  }

  /** The keepalive action that a step is; steps of others take no time. */
  function Project(st: State, step: Step): (a: K.Action) {
    match step
    case Pass(to) => K.Advance(to)
    case Turn(to) => K.Advance(to)
    case Keeper(a, _) => a
    case Other(_) => K.Advance(st.k.now)
  }

  // ------------------------------------------------------------ the timer between keeper and wheel

  /** The slice whose run fires a pending one-shot timer: the tick due, counted in clock readings. */
  function FiringSlice(w: W.State, due: nat): (slice: int) {
    due - w.jiffies + w.curTimePoint + 1
  }

  /** A pending timer fires in a slice close to its time; a fired one is close to its time now. */
  predicate TimerOk(p: K.Params, w: W.State, now: nat, id: W.Id, t: K.Timer) {
    && id in w.used
    && if id in w.pending then
         var e := w.pending[id];
         && e.due.Some? && e == W.Entry(e.due, 0, false)
         && K.Target(t) - K.Slack(p) < FiringSlice(w, e.due.value) * SLICE <= K.Target(t) + SLICE
       else K.Target(t) < now + K.Slack(p)
  }

  /** The clock, the wheel and the keeper agree on the time. */
  predicate Synchronous(p: K.Params, w: W.State, lastRun: nat, now: nat) {
    W.Consistent(w) && w.curTimePoint == lastRun / SLICE && lastRun <= now <= lastRun + p.gap
  }

  predicate Inv(p: K.Params, st: State) {
    && K.Inv(p, st.k) && |st.ids| == |st.k.timers|
    && Synchronous(p, st.w, st.lastRun, st.k.now)
    && forall i | 0 <= i < |st.ids| :: TimerOk(p, st.w, st.k.now, st.ids[i], st.k.timers[i])
  }

  /** While a timer is pending its time has not passed by more than a slice and a gap. */
  lemma PendingInTime(p: K.Params, w: W.State, lastRun: nat, now: nat, id: W.Id, t: K.Timer, to: nat)
    requires Synchronous(p, w, lastRun, now) && TimerOk(p, w, now, id, t) && id in w.pending && to <= lastRun + p.gap
    ensures to < K.Target(t) + K.Slack(p)
  {
    var due := w.pending[id].due.value;
    assert w.jiffies <= due;
    assert lastRun < (w.curTimePoint + 1) * SLICE <= FiringSlice(w, due) * SLICE;
  }

  lemma {:induction false} TicksOnEntry(w: W.State, n: nat, id: W.Id, due: nat)
    requires W.Consistent(w) && id in w.pending && w.pending[id] == W.Entry(Some(due), 0, false)
    ensures var w' := W.TickMany(w, n);
      && w'.used == w.used
      && (id in w'.pending <==> due >= w.jiffies + n)
      && (id in w'.pending ==> w'.pending[id] == w.pending[id])
    decreases n
  {
    if n > 0 {
      W.TickForetold(w, id);
      if id in W.Tick(w).pending {
        TicksOnEntry(W.Tick(w), n - 1, id, due);
      } else {
        TicksOnGone(W.Tick(w), n - 1, id);
      }
    }
  }

  lemma {:induction false} TicksOnGone(w: W.State, n: nat, id: W.Id)
    requires id !in w.pending
    ensures id !in W.TickMany(w, n).pending && W.TickMany(w, n).used == w.used
    decreases n
  {
    if n > 0 { TicksOnGone(W.Tick(w), n - 1, id); }
  }

  /** A run of the wheel keeps a timer's slice, and a timer that it fires is close to its time. */
  lemma TurnTimer(p: K.Params, w: W.State, lastRun: nat, now: nat, id: W.Id, t: K.Timer, to: nat)
    requires Synchronous(p, w, lastRun, now) && TimerOk(p, w, now, id, t) && id in w.pending && now <= to
    requires W.Enabled(w, W.Run(to / SLICE))
    ensures TimerOk(p, W.Apply(w, W.Run(to / SLICE)), to, id, t)
  {
    var r := to / SLICE;
    assert w.curTimePoint <= r;
    var w1 := w.(curTimePoint := r);
    var n := W.Steps(w.curTimePoint, r);
    var due := w.pending[id].due.value;
    TicksOnEntry(w1, n, id, due);
    var w' := W.TickMany(w1, n);
    assert id in w'.pending ==> FiringSlice(w', due) == FiringSlice(w, due);
    if id !in w'.pending {
      assert FiringSlice(w, due) * SLICE <= r * SLICE <= to;
    }
  }

  lemma TurnSynchronous(p: K.Params, w: W.State, lastRun: nat, now: nat, to: nat)
    requires Synchronous(p, w, lastRun, now) && now <= to && W.Enabled(w, W.Run(to / SLICE))
    ensures Synchronous(p, W.Apply(w, W.Run(to / SLICE)), to, to)
  {
    W.RunConsistent(w, [W.Run(to / SLICE)]);
    assert W.ApplyAll(w, [W.Run(to / SLICE)]) == W.Apply(w, W.Run(to / SLICE));
  }

  /** A timer that is armed now. */
  lemma InsertTimer(p: K.Params, w: W.State, lastRun: nat, now: nat, id: W.Id, delay: Duration)
    requires Synchronous(p, w, lastRun, now) && W.Enabled(w, W.Insert(id, delay, false, w.jiffies))
    ensures var w' := W.Apply(w, W.Insert(id, delay, false, w.jiffies));
      Synchronous(p, w', lastRun, now) && TimerOk(p, w', now, id, K.Timer(now, delay))
  {
    W.JustInserted(w, id, delay);
    var w' := W.Apply(w, W.Insert(id, delay, false, w.jiffies));
    assert FiringSlice(w', w.jiffies + Ticks(delay)) == w.curTimePoint + Ticks(delay) + 1;
  }

  /** Timers of others leave it alone. */
  lemma OtherTimer(p: K.Params, w: W.State, lastRun: nat, now: nat, op: W.Op, id: W.Id, t: K.Timer)
    requires Synchronous(p, w, lastRun, now) && TimerOk(p, w, now, id, t)
    requires W.Enabled(w, op) && !op.Run? && !W.Touches(op, id)
    ensures TimerOk(p, W.Apply(w, op), now, id, t)
  {
  }

  lemma OtherSynchronous(p: K.Params, w: W.State, lastRun: nat, now: nat, op: W.Op)
    requires Synchronous(p, w, lastRun, now) && W.Enabled(w, op) && !op.Run?
    ensures Synchronous(p, W.Apply(w, op), lastRun, now)
  {
    W.RunConsistent(w, [op]);
    assert W.ApplyAll(w, [op]) == W.Apply(w, op);
  }

  // ------------------------------------------------------------ simulation

  /** What the wheel allows, the keepalive model allows. */
  lemma ProjectEnabled(p: K.Params, st: State, step: Step)
    requires Inv(p, st) && Enabled(p, st, step)
    ensures K.Stamped(st.k) && K.Enabled(p, st.k, Project(st, step))
  {
    match step
    case Keeper(a, _) => if a.Fire? { assert TimerOk(p, st.w, st.k.now, st.ids[a.i], st.k.timers[a.i]); }
    case Other(_) =>
    case _ =>
      forall t <- st.k.timers
        ensures step.to < K.Target(t) + K.Slack(p)
      {
        var i :| 0 <= i < |st.k.timers| && st.k.timers[i] == t;
        PendingInTime(p, st.w, st.lastRun, st.k.now, st.ids[i], t, step.to);
      }
  }

  /** Every step of the combined system is a step of the keepalive model and keeps the invariant. */
  lemma Simulates(p: K.Params, st: State, step: Step)
    requires Inv(p, st) && Enabled(p, st, step)
    ensures K.Stamped(st.k) && K.Enabled(p, st.k, Project(st, step))
    ensures var st' := Next(p, st, step);
      Inv(p, st') && st'.k == K.Next(p, st.k, Project(st, step))
  {
    ProjectEnabled(p, st, step);
    K.StepKeepsInv(p, st.k, Project(st, step));
    match step
    case Pass(_) => PassKeeps(p, st, step);
    case Turn(_) => TurnKeeps(p, st, step);
    case Keeper(_, _) => KeeperKeeps(p, st, step);
    case Other(_) => OtherKeeps(p, st, step);
  }

  lemma PassKeeps(p: K.Params, st: State, step: Step)
    requires Inv(p, st) && step.Pass? && Enabled(p, st, step) && K.Enabled(p, st.k, Project(st, step))
    requires K.Stamped(st.k) && K.Inv(p, K.Next(p, st.k, Project(st, step)))
    ensures Inv(p, Next(p, st, step))
  {
    hide K.Inv;
    var st' := Next(p, st, step);
    forall i | 0 <= i < |st'.ids|
      ensures TimerOk(p, st'.w, st'.k.now, st'.ids[i], st'.k.timers[i])
    {
      assert TimerOk(p, st.w, st.k.now, st.ids[i], st.k.timers[i]);
    }
  }

  lemma TurnKeeps(p: K.Params, st: State, step: Step)
    requires Inv(p, st) && step.Turn? && Enabled(p, st, step) && K.Enabled(p, st.k, Project(st, step))
    requires K.Stamped(st.k) && K.Inv(p, K.Next(p, st.k, Project(st, step)))
    ensures Inv(p, Next(p, st, step))
  {
    hide K.Inv;
    var st' := Next(p, st, step);
    TurnSynchronous(p, st.w, st.lastRun, st.k.now, step.to);
    forall i | 0 <= i < |st'.ids|
      ensures TimerOk(p, st'.w, st'.k.now, st'.ids[i], st'.k.timers[i])
    {
      assert TimerOk(p, st.w, st.k.now, st.ids[i], st.k.timers[i]);
      TurnTimer(p, st.w, st.lastRun, st.k.now, st.ids[i], st.k.timers[i], step.to);
    }
  }

  lemma OtherKeeps(p: K.Params, st: State, step: Step)
    requires Inv(p, st) && step.Other? && Enabled(p, st, step) && K.Enabled(p, st.k, Project(st, step))
    requires K.Stamped(st.k) && K.Inv(p, K.Next(p, st.k, Project(st, step)))
    ensures Inv(p, Next(p, st, step))
  {
    hide K.Inv;
    var st' := Next(p, st, step);
    OtherSynchronous(p, st.w, st.lastRun, st.k.now, step.op);
    forall i | 0 <= i < |st'.ids|
      ensures TimerOk(p, st'.w, st'.k.now, st'.ids[i], st'.k.timers[i])
    {
      OtherTimer(p, st.w, st.lastRun, st.k.now, step.op, st.ids[i], st.k.timers[i]);
    }
  }

  /** A keeper's step drops the timer it ran on, and arms at most one, now. */
  lemma KeeperTimers(p: K.Params, s: K.State, a: K.Action)
    requires K.Stamped(s) && K.Enabled(p, s, a) && !a.Advance?
    ensures var s' := K.Next(p, s, a);
      && s'.now == s.now
      && s'.timers == Staying(s.timers, a) + if Arms(p, s, a) then [K.Timer(s.now, ArmedDelay(p, s, a))] else []
  {
    if a.Fire? { assert Staying(s.timers, a) == s.timers[..a.i] + s.timers[a.i + 1..]; }
  }

  lemma AtMostOne(p: K.Params, s: K.State)
    requires K.Inv(p, s)
    ensures |s.timers| <= 1
  {
  }

  lemma KeeperKeeps(p: K.Params, st: State, step: Step)
    requires Inv(p, st) && step.Keeper? && Enabled(p, st, step) && K.Enabled(p, st.k, step.a)
    requires K.Stamped(st.k) && K.Inv(p, K.Next(p, st.k, step.a))
    ensures Inv(p, Next(p, st, step))
  {
    hide K.Inv, K.Next, K.Enabled, TimerOk, Synchronous, Arms, ArmedDelay;
    AtMostOne(p, K.Next(p, st.k, step.a));
    var st', a := Next(p, st, step), step.a;
    KeeperTimers(p, st.k, a);
    var arms := Arms(p, st.k, a);
    var kept := Staying(st.ids, a);
    assert |kept| == |Staying(st.k.timers, a)|;
    if arms {
      assert kept == [];
      InsertTimer(p, st.w, st.lastRun, st.k.now, step.newId, ArmedDelay(p, st.k, a));
    } else if a.Fire? {
      AtMostOne(p, st.k);
      assert kept == [];
    }
  }

  // ------------------------------------------------------------ runs

  /** The keeper has just been started and has armed its first timer. */
  predicate Begins(p: K.Params, st: State) {
    && st.k == K.Start(p, st.k.now) && |st.ids| == 1
    && Synchronous(p, st.w, st.lastRun, st.k.now)
    && st.ids[0] in st.w.used && st.ids[0] in st.w.pending
    && st.w.pending[st.ids[0]] == W.Entry(Some(st.w.jiffies + Ticks(p.time)), 0, false)
  }

  ghost predicate IsRun(p: K.Params, run: seq<State>, steps: seq<Step>) {
    && |run| == |steps| + 1 && Begins(p, run[0])
    && forall i | 0 <= i < |steps| :: IsStep(p, run[i], steps[i], run[i + 1])
  }

  predicate IsStep(p: K.Params, st: State, step: Step, st': State) {
    && Enabled(p, st, step) && K.Stamped(st.k)
    && (step.Keeper? ==> K.Enabled(p, st.k, step.a))
    && st' == Next(p, st, step)
  }

  lemma BeginsInv(p: K.Params, st: State)
    requires Begins(p, st)
    ensures Inv(p, st)
  {
    assert FiringSlice(st.w, st.w.jiffies + Ticks(p.time)) == st.w.curTimePoint + Ticks(p.time) + 1;
  }

  lemma {:induction false} RunInv(p: K.Params, run: seq<State>, steps: seq<Step>, i: nat)
    requires IsRun(p, run, steps) && i < |run|
    ensures Inv(p, run[i])
  {
    hide Next, Enabled, Inv;
    if i == 0 {
      BeginsInv(p, run[0]);
    } else {
      RunInv(p, run, steps, i - 1);
      assert IsStep(p, run[i - 1], steps[i - 1], run[i]);
      Simulates(p, run[i - 1], steps[i - 1]);
    }
  }

  ghost function TraceOf(run: seq<State>, steps: seq<Step>): (tr: K.Trace)
    requires |run| == |steps| + 1
  {
    K.Trace(seq(|run|, i requires 0 <= i < |run| => run[i].k),
            seq(|steps|, i requires 0 <= i < |steps| => Project(run[i], steps[i])))
  }

  /** Refinement: the keeper's part of every run on the wheel is a keepalive trace. */
  lemma RunIsTrace(p: K.Params, run: seq<State>, steps: seq<Step>)
    requires IsRun(p, run, steps)
    ensures K.IsTrace(p, TraceOf(run, steps))
  {
    hide Next, Enabled, Inv, K.Next, K.Enabled;
    var tr := TraceOf(run, steps);
    forall i | 0 <= i < |tr.actions|
      ensures K.IsStep(p, tr.states[i], tr.actions[i], tr.states[i + 1])
    {
      RunInv(p, run, steps, i);
      assert IsStep(p, run[i], steps[i], run[i + 1]);
      Simulates(p, run[i], steps[i]);
    }
  }

  /** The call on the wheel that a step makes, if any. */
  function OpOf(p: K.Params, st: State, step: Step): (ops: seq<W.Op>)
    requires Enabled(p, st, step) && K.Stamped(st.k)
    requires step.Keeper? ==> K.Enabled(p, st.k, step.a)
  {
    match step
    case Pass(_) => []
    case Turn(to) => [W.Run(to / SLICE)]
    case Keeper(a, newId) =>
      if Arms(p, st.k, a) then [W.Insert(newId, ArmedDelay(p, st.k, a), false, st.w.jiffies)] else []
    case Other(op) => [op]
  }

  /** The wheel's part of every step is what the wheel does for that call: clock readings, the keeper's
      timers and everybody else's. */
  lemma WheelPart(p: K.Params, st: State, step: Step)
    requires Enabled(p, st, step) && K.Stamped(st.k)
    requires step.Keeper? ==> K.Enabled(p, st.k, step.a)
    ensures W.EnabledAll(st.w, OpOf(p, st, step))
    ensures Next(p, st, step).w == W.ApplyAll(st.w, OpOf(p, st, step))
    ensures Next(p, st, step).lastRun == if step.Turn? then step.to else st.lastRun
  {
    hide Arms, ArmedDelay;
    var ops := OpOf(p, st, step);
    if ops != [] { assert ops[1..] == []; }
  }

  /** The detection bound on the wheel: a peer that falls silent at time t is closed by
      t + max(Time, Timeout) + Timeout + write + 2 * (10 ms + gap). */
  lemma DetectionOnWheel(p: K.Params, run: seq<State>, steps: seq<Step>, i: nat, j: nat)
    requires K.Consummate(p) && IsRun(p, run, steps) && i <= j < |run|
    requires run[i].k.closed.None? && !run[i].k.done && run[i].k.readable
    requires forall n | i <= n < j :: !K.Activity(Project(run[n], steps[n]))
    ensures run[j].k.closed.Some? ||
      run[j].k.now <= run[i].k.now + K.Max(p.time, p.timeout) + p.timeout + p.write + 2 * (SLICE + p.gap)
  {
    RunIsTrace(p, run, steps);
    var tr := TraceOf(run, steps);
    assert forall n | i <= n < j :: tr.actions[n] == Project(run[n], steps[n]);
    K.DetectionBound(p, tr, i, j);
  }

  // ------------------------------------------------------------ time does not get stuck on the wheel

  /** What happens next if nobody else does anything: the ping is written, a fired timer runs, time
      passes, or the wheel reads the clock. */
  function NextMove(p: K.Params, st: State, id: W.Id): (step: Step) {
    if st.k.pinging.Some? || st.ids == [] then Keeper(K.PingWritten(true, true), id)
    else if st.ids[0] !in st.w.pending then Keeper(K.Fire(0, true), id)
    else if st.k.now < st.lastRun + p.gap then Pass(st.k.now + 1)
    else Turn(st.k.now)
  }

  /** There are ticks left until the deadline. */
  predicate Ample(p: K.Params, st: State, t: nat) {
    st.w.jiffies + (K.Deadline(p, t) / SLICE - st.w.curTimePoint) <= TICK_LIMIT
  }

  /** A silent, open system before its deadline. */
  predicate Waiting(p: K.Params, st: State, t: nat) {
    && K.Consummate(p) && p.gap > 0 && Inv(p, st) && K.Silent(p, st.k, t)
    && st.k.now <= K.Deadline(p, t) && Ample(p, st, t)
  }

  /** Time first, then whether the wheel has to read the clock, then what the keeper has to do. */
  function Rank(p: K.Params, st: State, t: nat): (r: int) {
    6 * (K.Deadline(p, t) - st.k.now) + (if st.k.now < st.lastRun + p.gap then 0 else 3)
    + if st.k.pinging.Some? then 1 else if st.ids != [] && st.ids[0] in st.w.pending then 0 else 2
  }

  lemma MoveEnabled(p: K.Params, st: State, id: W.Id, t: nat)
    requires Waiting(p, st, t) && st.k.closed.None? && id !in st.w.used
    ensures Enabled(p, st, NextMove(p, st, id)) && !K.Activity(Project(st, NextMove(p, st, id)))
  {
    hide K.Deadline;
    K.SilentOpen(p, st.k, t);
    var step := NextMove(p, st, id);
    assert st.lastRun / SLICE <= st.k.now / SLICE <= K.Deadline(p, t) / SLICE;
    if step.Keeper? && K.Enabled(p, st.k, step.a) {
      K.StepKeepsInv(p, st.k, step.a);
      DelayIsDuration(p, st.k, step.a);
    }
    if !step.Keeper? { OnlyTimer(p, st); }
  }

  lemma DelayIsDuration(p: K.Params, s: K.State, a: K.Action)
    requires K.Stamped(s) && K.Enabled(p, s, a) && K.Inv(p, K.Next(p, s, a))
    ensures Arms(p, s, a) ==> ArmedDelay(p, s, a) < 0x8000_0000_0000_0000
  {
    hide K.Next, K.Enabled;
    if Arms(p, s, a) {
      var timers := K.Next(p, s, a).timers;
      assert timers[|timers| - 1] in timers;
    }
  }

  lemma OnlyTimer(p: K.Params, st: State)
    requires Inv(p, st)
    ensures |st.ids| <= 1
  {
  }

  /** The keeper's part of a move, at the same time: a timer that ran is followed by a ping, by another
      timer or by the close, and a ping by a timer. */
  lemma KeeperMoves(p: K.Params, st: State, id: W.Id)
    requires Inv(p, st) && !st.k.done && st.k.readable && NextMove(p, st, id).Keeper?
    requires Enabled(p, st, NextMove(p, st, id)) && K.Stamped(st.k) && K.Enabled(p, st.k, NextMove(p, st, id).a)
    ensures var st' := Next(p, st, NextMove(p, st, id));
      && st'.k.now == st.k.now && st'.lastRun == st.lastRun
      && st'.w.jiffies == st.w.jiffies && st'.w.curTimePoint == st.w.curTimePoint
      && (st'.k.closed.Some?
          || (st'.k.pinging.None? && st'.ids != [] && st'.ids[0] in st'.w.pending)
          || (st'.k.pinging.Some? && st.k.pinging.None? && !(st.ids != [] && st.ids[0] in st.w.pending)))
  {
    OnlyTimer(p, st);
    var a := NextMove(p, st, id).a;
    assert Staying(st.ids, a) == [];
    assert Staying(st.k.timers, a) == [];
    KeeperTimers(p, st.k, a);
  }

  /** A move of the clock keeps the keeper as it is. */
  lemma ClockMoves(p: K.Params, st: State, id: W.Id)
    requires Inv(p, st) && !NextMove(p, st, id).Keeper? && p.gap > 0
    requires Enabled(p, st, NextMove(p, st, id)) && K.Stamped(st.k)
    ensures var st' := Next(p, st, NextMove(p, st, id));
      && st'.k.closed == st.k.closed && st'.k.pinging == st.k.pinging == None && st'.ids == st.ids
      && st'.w.jiffies - st'.w.curTimePoint == st.w.jiffies - st.w.curTimePoint
      && (if NextMove(p, st, id).Pass? then st'.k.now == st.k.now + 1
          else st'.k.now == st.k.now >= st.lastRun + p.gap && st'.k.now < st'.lastRun + p.gap)
  {
    if NextMove(p, st, id).Turn? {
      assert st.w.curTimePoint <= st.k.now / SLICE;
    }
  }

  /** A move keeps the system waiting or closes the channel, and gets it closer to its deadline. */
  lemma MoveGetsCloser(p: K.Params, st: State, id: W.Id, t: nat)
    requires Waiting(p, st, t) && st.k.closed.None? && id !in st.w.used
    ensures var step := NextMove(p, st, id);
      && Enabled(p, st, step) && K.Stamped(st.k) && (step.Keeper? ==> K.Enabled(p, st.k, step.a))
      && !K.Activity(Project(st, step))
      && var st' := Next(p, st, step);
      Waiting(p, st', t) && (st'.k.closed.None? ==> Rank(p, st', t) < Rank(p, st, t))
  {
    hide K.Deadline, K.Silent, Inv, K.Inv, Enabled, K.Enabled, Next, K.Next;
    var step := NextMove(p, st, id);
    K.SilentOpen(p, st.k, t);
    MoveEnabled(p, st, id, t);
    Simulates(p, st, step);
    K.SilentStep(p, st.k, Project(st, step), t);
    K.SilentDeadline(p, Next(p, st, step).k, t);
    if step.Keeper? { KeeperMoves(p, st, id); } else { ClockMoves(p, st, id); }
  }

  lemma WaitingRank(p: K.Params, st: State, t: nat)
    requires Waiting(p, st, t)
    ensures Rank(p, st, t) >= 0
  {
  }

  lemma {:induction false} UnusedId(used: set<W.Id>) returns (id: W.Id)
    ensures forall x <- used :: x < id
    decreases used
  {
    if used == {} { return 0; }
    var x :| x in used;
    var y := UnusedId(used - {x});
    id := x + y + 1;
    assert forall z <- used :: z == x || z in used - {x};
  }

  /** Steps in which nobody but keeper, clock and wheel does anything, up to time d. */
  ghost predicate Quiet(p: K.Params, run: seq<State>, steps: seq<Step>, d: nat) {
    && |run| == |steps| + 1
    && (forall i | 0 <= i < |steps| ::
          IsStep(p, run[i], steps[i], run[i + 1]) && !K.Activity(Project(run[i], steps[i])))
    && (forall i | 0 <= i < |run| :: run[i].k.now <= d)
  }

  lemma Prepend(p: K.Params, st: State, step: Step, run: seq<State>, steps: seq<Step>, d: nat)
    requires Quiet(p, run, steps, d) && IsStep(p, st, step, run[0]) && !K.Activity(Project(st, step)) && st.k.now <= d
    ensures Quiet(p, [st] + run, [step] + steps, d)
  {
    hide IsStep, K.Activity, Project;
  }

  /** Every silent state on the wheel has a continuation that closes the channel, within the deadline and
      without anybody else doing anything, as long as the wheel has ticks left. */
  lemma {:induction false} ClosesOnWheel(p: K.Params, st: State, t: nat) returns (run: seq<State>, steps: seq<Step>)
    requires Waiting(p, st, t)
    ensures Quiet(p, run, steps, K.Deadline(p, t)) && run[0] == st && run[|steps|].k.closed.Some?
    decreases st.k.closed.None?, if st.k.closed.None? then Rank(p, st, t) else 0
  {
    if st.k.closed.Some? { return [st], []; }
    hide Rank, Next, Enabled, K.Deadline, NextMove, Quiet, Inv, K.Activity, K.Silent, K.Enabled;
    var id := UnusedId(st.w.used);
    MoveGetsCloser(p, st, id, t);
    var step := NextMove(p, st, id);
    var st' := Next(p, st, step);
    WaitingRank(p, st, t);
    WaitingRank(p, st', t);
    var rest, more := ClosesOnWheel(p, st', t);
    Prepend(p, st, step, rest, more, K.Deadline(p, t));
    run, steps := [st] + rest, [step] + more;
  }

  /** The bound is met: from every open state of every run, with ticks left until the deadline, there is a
      continuation in which nobody else does anything and the channel is closed in time. */
  lemma DetectionHappens(p: K.Params, run: seq<State>, steps: seq<Step>, i: nat)
    returns (more: seq<State>, moreSteps: seq<Step>)
    requires K.Consummate(p) && p.gap > 0 && IsRun(p, run, steps) && i < |run|
    requires run[i].k.closed.None? && !run[i].k.done && run[i].k.readable && Ample(p, run[i], run[i].k.now)
    ensures Quiet(p, more, moreSteps, K.Deadline(p, run[i].k.now)) && more[0] == run[i]
    ensures more[|moreSteps|].k.closed.Some?
  {
    hide IsRun, Quiet;
    RunInv(p, run, steps, i);
    K.SilentNow(p, run[i].k);
    more, moreSteps := ClosesOnWheel(p, run[i], run[i].k.now);
  }
}
