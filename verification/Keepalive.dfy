/** The keepalive health loop: a self-re-arming timer callback over the stamps of the last read,
    the last ping and the last pong.  Times are nanoseconds of a monotone clock.  The wheel reads
    the clock at least every `gap`, so a timer runs less than one slice and one gap before or
    after its time; `KeepaliveOnWheel` proves that.  Writing a ping takes at most `write`; other
    messages may arrive meanwhile. */
module Keepalive {
  import opened Common
  import opened WheelMath

  datatype Params = Params(time: Duration, timeout: Duration, pingConfigured: bool, gap: nat, write: nat)

  /** How far from its time a timer may run. */
  function Slack(p: Params): (d: nat) {
    SLICE + p.gap
  }

  /** HealthParams after ConsummateKeepaliveParams: both durations are positive. */
  predicate Consummate(p: Params) {
    p.time > 0 && p.timeout > 0
  }

  datatype Timer = Timer(armed: nat, delay: nat)

  datatype Cause = PingTimeout | PingFailed | Elsewhere

  datatype Message = PingMsg | PongMsg | GoAwayMsg | OtherMsg

  /** `pinging`: the callback is inside sendPing since the given time. */
  datatype State = State(
    now: nat, readable: bool, lastRead: nat,
    done: bool, lastPing: nat, lastPong: nat,
    timers: seq<Timer>, pinging: Option<nat>, closed: Option<Cause>)

  /** `wins`: if the step closes the channel, its one compare-and-swap of the state bits succeeds. */
  datatype Action =
    | Advance(to: nat)
    | Receive(m: Message)
    | Fire(i: nat, wins: bool)
    | PingWritten(ok: bool, wins: bool)
    | CloseElsewhere      // the channel is closed by somebody else, who also closes the keeper
    | CloseReader

  function Target(t: Timer): (x: nat) {
    t.armed + t.delay
  }

  /** Time passes only as far as pending timers and an unfinished ping write allow. */
  predicate Enabled(p: Params, s: State, a: Action) {
    match a
    case Advance(to) =>
      && s.now <= to
      && (forall t <- s.timers :: to < Target(t) + Slack(p))
      && (s.pinging.Some? ==> to <= s.pinging.value + p.write)
    case Receive(_) => s.readable
    case Fire(i, _) => i < |s.timers| && Target(s.timers[i]) < s.now + Slack(p)
    case PingWritten(_, _) => s.pinging.Some?
    case CloseElsewhere => true
    case CloseReader => true
  }

  function AfterFunc(s: State, delay: nat): (s': State) {
    s.(timers := s.timers + [Timer(s.now, delay)])
  }

  /** A keeper tries to close its channel once; if the channel is closed already, or somebody changes the
      state bits between the load and the compare-and-swap, the channel stays as it is. */
  function StopChannel(s: State, cause: Cause, wins: bool): (s': State) {
    if s.done then s
    else if wins && s.closed.None? then s.(done := true, readable := false, closed := Some(cause))
    else s.(done := true)
  }

  /** The health callback up to the write of a ping. */
  function Callback(p: Params, s: State, wins: bool): (s': State)
    requires s.lastRead <= s.now && s.lastPing <= s.now
  {
    if s.done || !s.readable then s
    else
      var idle := s.now - s.lastRead;
      if idle < p.time then AfterFunc(s, p.time - idle)
      else if s.lastPing > s.lastPong then
        var elapsed := s.now - s.lastPing;
        if elapsed >= p.timeout then StopChannel(s, PingTimeout, wins) else AfterFunc(s, p.timeout - elapsed)
      else if p.pingConfigured then s.(pinging := Some(s.now))
      else StopChannel(s, PingFailed, wins)
  }

  /** The middleware and the recorder behind it: pings and pongs do not count as reads. */
  function Received(s: State, m: Message): (s': State) {
    match m
    case PingMsg => s
    case PongMsg => s.(lastPong := s.now)
    case GoAwayMsg => s.(readable := false, closed := if s.closed.None? then Some(Elsewhere) else s.closed)
    case OtherMsg => s.(lastRead := s.now)
  }

  predicate Stamped(s: State) {
    s.lastRead <= s.now && s.lastPing <= s.now && s.lastPong <= s.now
  }

  function Next(p: Params, s: State, a: Action): (s': State)
    requires Enabled(p, s, a) && Stamped(s)
  {
    match a
    case Advance(to) => s.(now := to)
    case Receive(m) => Received(s, m)
    case Fire(i, wins) => Callback(p, s.(timers := s.timers[..i] + s.timers[i + 1..]), wins)
    case PingWritten(ok, wins) =>
      var s1 := s.(pinging := None);
      if ok then AfterFunc(s1.(lastPing := s.now), p.timeout) else StopChannel(s1, PingFailed, wins)
    case CloseElsewhere =>
      s.(done := true, readable := false, closed := if s.closed.None? then Some(Elsewhere) else s.closed)
    case CloseReader => s.(readable := false)
  }

  // ------------------------------------------------------------ the keeper as an object

  /** `Keeper`: the callback and `Close` update its fields in place. */
  class Keeper {
    var done: bool
    var lastPing: nat
    var lastPong: nat
    var timers: seq<Timer>
    var pinging: Option<nat>
    var closed: Option<Cause>

    function View(now: nat, readable: bool, lastRead: nat): (s: State)
      reads this
    {
      State(now, readable, lastRead, done, lastPing, lastPong, timers, pinging, closed)
    }

    constructor (p: Params, now: nat)
      ensures View(now, true, 0) == Start(p, now)
    {
      done, lastPing, lastPong, pinging, closed := false, 0, 0, None, None;
      timers := [Timer(now, p.time)];
    }

    /** The health callback run by timer `i`; `readable` says whether the channel still is. */
    method Health(p: Params, i: nat, wins: bool, now: nat, isReadable: bool, lastRead: nat) returns (readable: bool)
      requires Stamped(View(now, isReadable, lastRead)) && Enabled(p, View(now, isReadable, lastRead), Fire(i, wins))
      modifies this
      ensures View(now, readable, lastRead) == Next(p, old(View(now, isReadable, lastRead)), Fire(i, wins))
    {
      readable := isReadable;
      timers := timers[..i] + timers[i + 1..];
      if done { return; }
      if !readable { return; }
      var idle := now - lastRead;
      if idle < p.time {
        timers := timers + [Timer(now, p.time - idle)];
        return;
      }
      if lastPing > lastPong {
        var elapsed := now - lastPing;
        if elapsed >= p.timeout {
          readable := Stop(PingTimeout, wins, readable);
          return;
        }
        timers := timers + [Timer(now, p.timeout - elapsed)];
        return;
      }
      if p.pingConfigured {
        pinging := Some(now);
        return;
      }
      readable := Stop(PingFailed, wins, readable);
    }

    /** The rest of the callback, once the ping has been written or not. */
    method FinishPing(p: Params, ok: bool, wins: bool, now: nat, isReadable: bool, lastRead: nat)
      returns (readable: bool)
      requires Stamped(View(now, isReadable, lastRead))
      requires Enabled(p, View(now, isReadable, lastRead), PingWritten(ok, wins))
      modifies this
      ensures View(now, readable, lastRead) == Next(p, old(View(now, isReadable, lastRead)), PingWritten(ok, wins))
    {
      readable := isReadable;
      pinging := None;
      if ok {
        lastPing := now;
        timers := timers + [Timer(now, p.timeout)];
        return;
      }
      readable := Stop(PingFailed, wins, readable);
    }

    /** stopChannel: unless the keeper is already done it is from now on, and the channel is closed if
        the compare-and-swap of `Channel.Close` wins. */
    method Stop(cause: Cause, wins: bool, isReadable: bool) returns (readable: bool)
      modifies this`done, this`closed
      ensures forall now, lastRead ::
        View(now, readable, lastRead) == StopChannel(old(View(now, isReadable, lastRead)), cause, wins)
    {
      if done { return isReadable; }
      done := true;
      if !wins || closed.Some? { return isReadable; }
      closed := Some(cause);
      return false;
    }

    /** The inbound middleware: only a pong is stamped here. */
    method Inbound(m: Message, now: nat, isReadable: bool, lastRead: nat) returns (readable: bool, read: nat)
      modifies this`lastPong, this`closed
      ensures View(now, readable, read) == Received(old(View(now, isReadable, lastRead)), m)
    {
      readable, read := isReadable, lastRead;
      match m
      case PingMsg =>
      case PongMsg => lastPong := now;
      case GoAwayMsg =>
        readable := false;
        if closed.None? { closed := Some(Elsewhere); }
      case OtherMsg => read := now;
    }

    method Close()
      modifies this`done, this`closed
      ensures forall now, lastRead, readable ::
        View(now, false, lastRead) == old(View(now, readable, lastRead)).(done := true, readable := false,
          closed := if old(closed).None? then Some(Elsewhere) else old(closed))
    {
      done := true;
      if closed.None? { closed := Some(Elsewhere); }
    }

    /** One step of the system around a keeper. */
    method Perform(p: Params, a: Action, now0: nat, readable0: bool, lastRead0: nat)
      returns (now: nat, readable: bool, lastRead: nat)
      requires Stamped(View(now0, readable0, lastRead0)) && Enabled(p, View(now0, readable0, lastRead0), a)
      modifies this
      ensures View(now, readable, lastRead) == Next(p, old(View(now0, readable0, lastRead0)), a)
    {
      hide Callback;
      now, readable, lastRead := now0, readable0, lastRead0;
      match a
      case Advance(to) => now := to;
      case Receive(m) => readable, lastRead := Inbound(m, now, readable, lastRead);
      case Fire(i, wins) => readable := Health(p, i, wins, now, readable, lastRead);
      case PingWritten(ok, wins) => readable := FinishPing(p, ok, wins, now, readable, lastRead);
      case CloseElsewhere =>
        Close();
        readable := false;
      case CloseReader => readable := false;
    }
  }

  // ------------------------------------------------------------ runs

  function Start(p: Params, now: nat): (s: State) {
    State(now, true, 0, false, 0, 0, [Timer(now, p.time)], None, None)
  }

  datatype Trace = Trace(states: seq<State>, actions: seq<Action>)

  ghost predicate IsTrace(p: Params, tr: Trace) {
    && |tr.states| == |tr.actions| + 1
    && tr.states[0] == Start(p, tr.states[0].now)
    && forall i | 0 <= i < |tr.actions| :: IsStep(p, tr.states[i], tr.actions[i], tr.states[i + 1])
  }

  predicate IsStep(p: Params, s: State, a: Action, s': State) {
    Stamped(s) && Enabled(p, s, a) && s' == Next(p, s, a)
  }

  function Max(a: nat, b: nat): (m: nat) {
    if a < b then b else a
  }

  /** A keeper driven through any actions goes through a trace: what is proved of traces holds of
      the object.  It stops at the first action that is not possible. */
  method Drive(p: Params, actions: seq<Action>, start: nat) returns (k: Keeper, taken: nat, ghost tr: Trace)
    ensures IsTrace(p, tr) && taken <= |actions| && tr.actions == actions[..taken]
    ensures var s := tr.states[taken];
      && k.View(s.now, s.readable, s.lastRead) == s
      && (taken < |actions| ==> !Enabled(p, s, actions[taken]))
  {
    hide Next, Inv;
    k := new Keeper(p, start);
    var now, readable, lastRead := start, true, 0;
    tr := Trace([Start(p, start)], []);
    taken := 0;
    while taken < |actions|
      invariant IsTrace(p, tr) && taken <= |actions| && tr.actions == actions[..taken] && fresh(k)
      invariant k.View(now, readable, lastRead) == tr.states[taken]
      decreases |actions| - taken
    {
      StampedAlong(p, tr, taken);
      var a := actions[taken];
      if !Enabled(p, k.View(now, readable, lastRead), a) { return; }
      tr := Extend(p, tr, a);
      now, readable, lastRead := k.Perform(p, a, now, readable, lastRead);
      assert actions[..taken + 1] == actions[..taken] + [a];
      taken := taken + 1;
    }
  }

  lemma StampedAlong(p: Params, tr: Trace, i: nat)
    requires IsTrace(p, tr) && i < |tr.states|
    ensures Stamped(tr.states[i])
  {
    TraceInv(p, tr, i);
  }

  /** In every reachable state stamps lie in the past, at most one health timer or ping write is
      pending, exactly one while the channel is open and readable, and no timer is overdue. */
  predicate Inv(p: Params, s: State) {
    && Stamped(s)
    && |s.timers| + One(s.pinging.Some?) <= 1
    && (!s.done && s.readable ==> |s.timers| + One(s.pinging.Some?) == 1 && s.closed.None?)
    && (forall t <- s.timers :: t.armed <= s.now < Target(t) + Slack(p) && t.delay <= Max(p.time, p.timeout))
    && (s.pinging.Some? ==> s.pinging.value <= s.now <= s.pinging.value + p.write)
  }

  lemma StepKeepsInv(p: Params, s: State, a: Action)
    requires Inv(p, s) && Enabled(p, s, a)
    ensures Inv(p, Next(p, s, a))
  {
    hide Callback;
    if a.Fire? {
      FireKeepsInv(p, s, a.i, a.wins);
    }
  }

  lemma FireKeepsInv(p: Params, s: State, i: nat, wins: bool)
    requires Inv(p, s) && Enabled(p, s, Fire(i, wins))
    ensures Inv(p, Next(p, s, Fire(i, wins)))
  {
    assert s.timers[..i] + s.timers[i + 1..] == [];
  }

  lemma {:induction false} TraceInv(p: Params, tr: Trace, i: nat)
    requires IsTrace(p, tr) && i < |tr.states|
    ensures Inv(p, tr.states[i])
  {
    if i > 0 {
      hide Next, Enabled, Inv;
      TraceInv(p, tr, i - 1);
      assert IsStep(p, tr.states[i - 1], tr.actions[i - 1], tr.states[i]);
      StepKeepsInv(p, tr.states[i - 1], tr.actions[i - 1]);
    }
  }

  // ------------------------------------------------------------ detection bound

  /** The latest time at which the keeper closes a channel whose peer fell silent at time t. */
  function Deadline(p: Params, t: nat): (d: nat) {
    t + Max(p.time, p.timeout) + p.timeout + 2 * Slack(p) + p.write
  }

  /** Where the loop can stand after the peer fell silent at time t. */
  predicate Silent(p: Params, s: State, t: nat) {
    var m := t + Max(p.time, p.timeout);
    && Inv(p, s) && s.lastRead <= t && s.lastPong <= t
    && (s.closed.None? ==>
         && !s.done && s.readable
         && (s.pinging.Some? ==> s.pinging.value <= m + Slack(p))
         && s.lastPing <= m + Slack(p) + p.write
         && (forall x <- s.timers :: Target(x) <= if s.lastPing <= t then m else Max(m, s.lastPing + p.timeout)))
  }

  /** The peer shows up, or somebody else works on the channel: closes it, half-closes it or makes the
      keeper lose its compare-and-swap. */
  predicate Activity(a: Action) {
    || a == Receive(OtherMsg) || a == Receive(PongMsg) || a == Receive(GoAwayMsg)
    || a.CloseElsewhere? || a.CloseReader?
    || (a.Fire? && !a.wins) || (a.PingWritten? && !a.wins)
  }

  lemma SilentStep(p: Params, s: State, a: Action, t: nat)
    requires Consummate(p) && Silent(p, s, t) && Enabled(p, s, a) && !Activity(a)
    ensures Silent(p, Next(p, s, a), t)
  {
    StepKeepsInv(p, s, a);
    if a.Fire? {
      SilentFire(p, s, a.i, t);
    }
  }

  lemma SilentFire(p: Params, s: State, i: nat, t: nat)
    requires Consummate(p) && Silent(p, s, t) && Enabled(p, s, Fire(i, true)) && Inv(p, Next(p, s, Fire(i, true)))
    ensures Silent(p, Next(p, s, Fire(i, true)), t)
  {
    assert s.timers[i] in s.timers;
    assert s.timers[..i] + s.timers[i + 1..] == [];
  }

  /** A silent loop is still within its deadline, or has closed the channel. */
  lemma SilentDeadline(p: Params, s: State, t: nat)
    requires Silent(p, s, t)
    ensures s.closed.Some? || s.now <= Deadline(p, t)
  {
    if s.closed.None? && s.pinging.None? {
      assert s.timers[0] in s.timers;
    }
  }

  /** Detection bound.  If from state i on the peer sends nothing that counts as a read or a pong
      and nobody else closes or half-closes the channel, then in every later state the keeper has
      closed the channel or the deadline has not passed, and at most one timer is pending. */
  lemma DetectionBound(p: Params, tr: Trace, i: nat, j: nat)
    requires Consummate(p) && IsTrace(p, tr) && i <= j < |tr.states|
    requires tr.states[i].closed.None? && !tr.states[i].done && tr.states[i].readable
    requires forall k | i <= k < j :: !Activity(tr.actions[k])
    ensures |tr.states[j].timers| <= 1
    ensures tr.states[j].closed.Some? || tr.states[j].now <= Deadline(p, tr.states[i].now)
  {
    TraceInv(p, tr, i);
    SilentTrace(p, tr, i, j);
    SilentDeadline(p, tr.states[j], tr.states[i].now);
  }

  lemma {:induction false} SilentTrace(p: Params, tr: Trace, i: nat, j: nat)
    requires Consummate(p) && IsTrace(p, tr) && i <= j < |tr.states| && Inv(p, tr.states[i])
    requires tr.states[i].closed.None? && !tr.states[i].done && tr.states[i].readable
    requires forall k | i <= k < j :: !Activity(tr.actions[k])
    ensures Silent(p, tr.states[j], tr.states[i].now)
    decreases j
  {
    if i < j {
      hide Next, Enabled, Inv, Silent;
      SilentTrace(p, tr, i, j - 1);
      assert IsStep(p, tr.states[j - 1], tr.actions[j - 1], tr.states[j]);
      SilentStep(p, tr.states[j - 1], tr.actions[j - 1], tr.states[i].now);
    }
  }

  // ------------------------------------------------------------ time does not get stuck

  /** What the loop does next, left to itself: it writes the ping, waits for its timer or runs it. */
  function NextMove(s: State): (a: Action) {
    if s.pinging.Some? || s.timers == [] then PingWritten(true, true)
    else if s.now < Target(s.timers[0]) then Advance(Target(s.timers[0]))
    else Fire(0, true)
  }

  /** An open channel always has a next move, and it is no activity of anybody else. */
  lemma MoveEnabled(p: Params, s: State)
    requires Inv(p, s) && !s.done && s.readable
    ensures Enabled(p, s, NextMove(s)) && !Activity(NextMove(s))
  {
  }

  /** How far the loop is from its deadline: time first, then what is left to do at this time. */
  function Rank(p: Params, s: State, t: nat): (r: int) {
    3 * (Deadline(p, t) - s.now)
    + if s.pinging.Some? then 1 else if s.timers != [] && s.now < Target(s.timers[0]) then 0 else 2
  }

  lemma MoveGetsCloser(p: Params, s: State, t: nat)
    requires Consummate(p) && Inv(p, s) && !s.done && s.readable
    ensures Enabled(p, s, NextMove(s)) && !Activity(NextMove(s))
    ensures var s' := Next(p, s, NextMove(s));
      if s'.closed.None? then Rank(p, s', t) < Rank(p, s, t) else s'.now == s.now
  {
    MoveEnabled(p, s);
    hide Deadline;
    if NextMove(s).Fire? {
      assert s.timers[..0] + s.timers[1..] == [];
    }
  }

  /** An open channel is silent from now on, until somebody does something. */
  lemma SilentNow(p: Params, s: State)
    requires Inv(p, s) && s.closed.None? && !s.done && s.readable
    ensures Silent(p, s, s.now) && s.now <= Deadline(p, s.now)
  {
  }

  /** A silent loop that has not closed the channel is in order, open and within its deadline. */
  lemma SilentOpen(p: Params, s: State, t: nat)
    requires Silent(p, s, t) && s.closed.None?
    ensures Inv(p, s) && !s.done && s.readable && Stamped(s)
    ensures s.now <= Deadline(p, t) && Rank(p, s, t) >= 0
  {
    SilentDeadline(p, s, t);
  }

  /** A sequence of steps in which nobody but the keeper does anything, up to time d. */
  ghost predicate Quiet(p: Params, states: seq<State>, actions: seq<Action>, d: nat) {
    && |states| == |actions| + 1
    && (forall i | 0 <= i < |actions| :: IsStep(p, states[i], actions[i], states[i + 1]) && !Activity(actions[i]))
    && (forall i | 0 <= i < |states| :: states[i].now <= d)
  }

  lemma Prepend(p: Params, s: State, a: Action, states: seq<State>, actions: seq<Action>, d: nat)
    requires Quiet(p, states, actions, d) && IsStep(p, s, a, states[0]) && !Activity(a) && s.now <= d
    ensures Quiet(p, [s] + states, [a] + actions, d)
  {
    hide IsStep, Activity;
  }

  /** Every silent state within its deadline has a continuation that closes the channel, within the
      deadline and without anybody else doing anything. */
  lemma {:induction false} SilentCloses(p: Params, s: State, t: nat) returns (states: seq<State>, actions: seq<Action>)
    requires Consummate(p) && Silent(p, s, t) && s.now <= Deadline(p, t)
    ensures Quiet(p, states, actions, Deadline(p, t)) && states[0] == s && states[|actions|].closed.Some?
    decreases s.closed.None?, if s.closed.None? then Rank(p, s, t) else 0
  {
    if s.closed.Some? { return [s], []; }
    hide Silent, Rank, Next, Enabled, Deadline, NextMove, Quiet, Inv, Activity;
    SilentOpen(p, s, t);
    MoveGetsCloser(p, s, t);
    var a := NextMove(s);
    SilentStep(p, s, a, t);
    var s' := Next(p, s, a);
    if s'.closed.None? { SilentOpen(p, s', t); }
    var ss, as' := SilentCloses(p, s', t);
    Prepend(p, s, a, ss, as', Deadline(p, t));
    states, actions := [s] + ss, [a] + as';
  }

  // ------------------------------------------------------------ what the stamps tell

  predicate ReadAt(tr: Trace, k: nat)
    requires k < |tr.actions|
  {
    tr.actions[k] == Receive(OtherMsg)
  }

  predicate PongAt(tr: Trace, k: nat)
    requires k < |tr.actions|
  {
    tr.actions[k] == Receive(PongMsg)
  }

  predicate PingAt(tr: Trace, k: nat)
    requires k < |tr.actions|
  {
    tr.actions[k].PingWritten? && tr.actions[k].ok
  }

  /** The read stamp is the time of the last read, or zero if there was none. */
  lemma {:induction false} ReadStamp(p: Params, tr: Trace, j: nat)
    requires IsTrace(p, tr) && j < |tr.states|
    ensures forall k | 0 <= k < j && ReadAt(tr, k) :: tr.states[k].now <= tr.states[j].lastRead
    ensures tr.states[j].lastRead == 0 ||
      exists k :: 0 <= k < j && ReadAt(tr, k) && tr.states[k].now == tr.states[j].lastRead
  {
    if j > 0 {
      ReadStamp(p, tr, j - 1);
      assert IsStep(p, tr.states[j - 1], tr.actions[j - 1], tr.states[j]);
      if ReadAt(tr, j - 1) {
        assert tr.states[j].lastRead == tr.states[j - 1].now;
      }
    }
  }

  lemma {:induction false} PongStamp(p: Params, tr: Trace, j: nat)
    requires IsTrace(p, tr) && j < |tr.states|
    ensures forall k | 0 <= k < j && PongAt(tr, k) :: tr.states[k].now <= tr.states[j].lastPong
    ensures tr.states[j].lastPong == 0 ||
      exists k :: 0 <= k < j && PongAt(tr, k) && tr.states[k].now == tr.states[j].lastPong
  {
    if j > 0 {
      PongStamp(p, tr, j - 1);
      assert IsStep(p, tr.states[j - 1], tr.actions[j - 1], tr.states[j]);
      if PongAt(tr, j - 1) {
        assert tr.states[j].lastPong == tr.states[j - 1].now;
      }
    }
  }

  /** Ping i is the last one before state j. */
  predicate LastPing(tr: Trace, i: nat, j: nat)
    requires j <= |tr.actions|
  {
    i < j && PingAt(tr, i) && forall k | i < k < j :: !PingAt(tr, k)
  }

  /** The ping stamp is the time of the last ping, or zero if there was none. */
  lemma {:induction false} PingStamp(p: Params, tr: Trace, j: nat)
    requires IsTrace(p, tr) && j < |tr.states|
    ensures forall i: nat | LastPing(tr, i, j) :: tr.states[j].lastPing == tr.states[i].now
    ensures tr.states[j].lastPing == 0 || exists i: nat :: LastPing(tr, i, j)
  {
    if j > 0 {
      PingStamp(p, tr, j - 1);
      assert IsStep(p, tr.states[j - 1], tr.actions[j - 1], tr.states[j]);
      if PingAt(tr, j - 1) {
        assert LastPing(tr, j - 1, j);
      } else if tr.states[j - 1].lastPing > 0 {
        var i: nat :| LastPing(tr, i, j - 1);
        assert LastPing(tr, i, j);
      }
      forall i: nat | LastPing(tr, i, j)
        ensures if PingAt(tr, j - 1) then i == j - 1 else LastPing(tr, i, j - 1)
      {
      }
    }
  }

  /** A ping is only written after the channel has been idle for a positive time. */
  lemma {:induction false} PingsAreLate(p: Params, tr: Trace, j: nat)
    requires Consummate(p) && IsTrace(p, tr) && j < |tr.states| && tr.states[j].pinging.Some?
    ensures tr.states[j].pinging.value > 0
  {
    if j > 0 {
      assert IsStep(p, tr.states[j - 1], tr.actions[j - 1], tr.states[j]);
      if tr.states[j - 1].pinging.Some? { PingsAreLate(p, tr, j - 1); }
    }
  }

  // ------------------------------------------------------------ when a peer is given up

  /** Nothing that counts as a read for as long as Time. */
  ghost predicate Idle(p: Params, tr: Trace, j: nat)
    requires |tr.states| == |tr.actions| + 1 && j < |tr.actions|
  {
    && p.time <= tr.states[j].now
    && forall k | 0 <= k < j && ReadAt(tr, k) :: tr.states[k].now + p.time <= tr.states[j].now
  }

  /** Ping i is the last one and no pong is stamped at or after it. */
  ghost predicate Outstanding(tr: Trace, i: nat, j: nat)
    requires |tr.states| == |tr.actions| + 1 && j < |tr.actions|
  {
    && LastPing(tr, i, j)
    && forall k | 0 <= k < j && PongAt(tr, k) :: tr.states[k].now < tr.states[i].now
  }

  /** Such a ping is at least Timeout old. */
  ghost predicate Unanswered(p: Params, tr: Trace, i: nat, j: nat)
    requires |tr.states| == |tr.actions| + 1 && j < |tr.actions|
  {
    Outstanding(tr, i, j) && tr.states[i].now + p.timeout <= tr.states[j].now
  }

  /** What one step does, in terms of the stamps. */
  lemma TimeoutBranch(p: Params, s: State, a: Action)
    requires Inv(p, s) && Enabled(p, s, a)
    ensures s.closed != Some(PingTimeout) && Next(p, s, a).closed == Some(PingTimeout) <==>
      && a.Fire? && a.wins && !s.done && s.readable
      && s.now - s.lastRead >= p.time && s.lastPing > s.lastPong && s.now - s.lastPing >= p.timeout
  {
    if a.Fire? {
      HealthByStamps(p, s, a.i, a.wins);
      hide Next;
    }
  }

  /** Over every trace: step j closes the channel for a ping timeout if and only if it runs the health
      timer of an open channel that has been idle for Time and whose last ping is unanswered, and
      wins its compare-and-swap. */
  lemma TimeoutExactly(p: Params, tr: Trace, j: nat)
    requires Consummate(p) && IsTrace(p, tr) && j < |tr.actions|
    ensures tr.states[j].closed != Some(PingTimeout) && tr.states[j + 1].closed == Some(PingTimeout) <==>
      && tr.actions[j].Fire? && tr.actions[j].wins && !tr.states[j].done && tr.states[j].readable
      && Idle(p, tr, j) && exists i: nat :: Unanswered(p, tr, i, j)
  {
    var s, a := tr.states[j], tr.actions[j];
    TraceInv(p, tr, j);
    assert IsStep(p, s, a, tr.states[j + 1]);
    TimeoutBranch(p, s, a);
    IdleByStamp(p, tr, j);
    UnansweredByStamps(p, tr, j);
    hide *;
  }

  lemma IdleByStamp(p: Params, tr: Trace, j: nat)
    requires IsTrace(p, tr) && j < |tr.actions| && Stamped(tr.states[j])
    ensures Idle(p, tr, j) <==> tr.states[j].now - tr.states[j].lastRead >= p.time
  {
    ReadStamp(p, tr, j);
  }

  lemma OutstandingByStamps(p: Params, tr: Trace, j: nat)
    requires Consummate(p) && IsTrace(p, tr) && j < |tr.actions| && Stamped(tr.states[j])
    ensures (exists i: nat :: Outstanding(tr, i, j)) <==> tr.states[j].lastPing > tr.states[j].lastPong
    ensures forall i: nat | Outstanding(tr, i, j) :: tr.states[i].now == tr.states[j].lastPing
  {
    var s := tr.states[j];
    PingStamp(p, tr, j);
    PongStamp(p, tr, j);
    forall i: nat | LastPing(tr, i, j)
      ensures tr.states[i].now > 0
    {
      PingTime(p, tr, i);
    }
    if s.lastPing > s.lastPong {
      var i: nat :| LastPing(tr, i, j);
      assert Outstanding(tr, i, j);
    }
  }

  lemma UnansweredByStamps(p: Params, tr: Trace, j: nat)
    requires Consummate(p) && IsTrace(p, tr) && j < |tr.actions| && Stamped(tr.states[j])
    ensures (exists i: nat :: Unanswered(p, tr, i, j)) <==>
      tr.states[j].lastPing > tr.states[j].lastPong && tr.states[j].now - tr.states[j].lastPing >= p.timeout
  {
    hide Outstanding;
    var s := tr.states[j];
    OutstandingByStamps(p, tr, j);
    if s.lastPing > s.lastPong && s.now - s.lastPing >= p.timeout {
      var i: nat :| Outstanding(tr, i, j);
      assert Unanswered(p, tr, i, j);
    }
  }

  lemma PingTime(p: Params, tr: Trace, i: nat)
    requires Consummate(p) && IsTrace(p, tr) && i < |tr.actions| && PingAt(tr, i)
    ensures tr.states[i].now > 0
  {
    assert IsStep(p, tr.states[i], tr.actions[i], tr.states[i + 1]);
    PingsAreLate(p, tr, i);
    TraceInv(p, tr, i);
  }

  // ------------------------------------------------------------ what every step does, by what happened before

  /** The health callback over every trace.  On a channel that is not open it does nothing but use up
      its timer.  On an open channel that is not idle it waits until Time after the last read; if
      idle with an outstanding ping, until Timeout after that ping, or it gives up; if idle
      without one, it pings, or gives up if no ping is configured. */
  lemma HealthExactly(p: Params, tr: Trace, j: nat)
    requires Consummate(p) && IsTrace(p, tr) && j < |tr.actions| && tr.actions[j].Fire?
    ensures var s, s', wins := tr.states[j], tr.states[j + 1], tr.actions[j].wins;
      if s.done || !s.readable then s' == s.(timers := [])
      else if !Idle(p, tr, j) then Rearms(s, s', s.lastRead + p.time)
      else if exists i: nat :: Unanswered(p, tr, i, j) then GivesUp(s, s', PingTimeout, wins)
      else if exists i: nat :: Outstanding(tr, i, j) then
        exists i: nat :: Outstanding(tr, i, j) && Rearms(s, s', tr.states[i].now + p.timeout)
      else if p.pingConfigured then s' == s.(timers := [], pinging := Some(s.now))
      else GivesUp(s, s', PingFailed, wins)
  {
    var s, s', a := tr.states[j], tr.states[j + 1], tr.actions[j];
    TraceInv(p, tr, j);
    assert IsStep(p, s, a, s');
    HealthByStamps(p, s, a.i, a.wins);
    IdleByStamp(p, tr, j);
    UnansweredByStamps(p, tr, j);
    OutstandingByStamps(p, tr, j);
    hide *;
    if exists i: nat :: Outstanding(tr, i, j) {
      var i: nat :| Outstanding(tr, i, j);
    }
  }

  /** The one pending timer is replaced by one for time `target`, armed now, and nothing else changes. */
  predicate Rearms(s: State, s': State, target: int) {
    |s'.timers| == 1 && s'.timers[0].armed == s.now && Target(s'.timers[0]) == target && s' == s.(timers := s'.timers)
  }

  /** The keeper is done, and the channel is closed for that cause if it is still open and the
      compare-and-swap wins. */
  predicate GivesUp(s: State, s': State, cause: Cause, wins: bool) {
    s' == if wins && s.closed.None? then s.(timers := [], done := true, readable := false, closed := Some(cause))
          else s.(timers := [], done := true)
  }

  lemma HealthByStamps(p: Params, s: State, i: nat, wins: bool)
    requires Inv(p, s) && Enabled(p, s, Fire(i, wins))
    ensures var s' := Next(p, s, Fire(i, wins));
      if s.done || !s.readable then s' == s.(timers := [])
      else if s.now - s.lastRead < p.time then Rearms(s, s', s.lastRead + p.time)
      else if s.lastPing > s.lastPong then
        if s.now - s.lastPing >= p.timeout then GivesUp(s, s', PingTimeout, wins)
        else Rearms(s, s', s.lastPing + p.timeout)
      else if p.pingConfigured then s' == s.(timers := [], pinging := Some(s.now))
      else GivesUp(s, s', PingFailed, wins)
  {
    assert s.timers[..i] + s.timers[i + 1..] == [];
  }

  /** The end of a ping write over every trace: a written ping is stamped and checked on after Timeout,
      a failed one closes the channel unless the keeper is done. */
  lemma PingEndsExactly(p: Params, tr: Trace, j: nat)
    requires IsTrace(p, tr) && j < |tr.actions| && tr.actions[j].PingWritten?
    ensures var s, s' := tr.states[j], tr.states[j + 1];
      if tr.actions[j].ok then s' == s.(pinging := None, lastPing := s.now, timers := [Timer(s.now, p.timeout)])
      else if s.done then s' == s.(pinging := None)
      else GivesUp(s.(pinging := None), s', PingFailed, tr.actions[j].wins)
  {
    TraceInv(p, tr, j);
    assert IsStep(p, tr.states[j], tr.actions[j], tr.states[j + 1]);
  }

  /** Over every trace: step j closes the channel for a failed ping if and only if it is a failed ping
      write of a keeper that is not done, or runs the health timer of an open channel that is idle
      and has no outstanding ping while no ping is configured; and wins its compare-and-swap. */
  lemma FailedExactly(p: Params, tr: Trace, j: nat)
    requires Consummate(p) && IsTrace(p, tr) && j < |tr.actions|
    ensures tr.states[j].closed != Some(PingFailed) && tr.states[j + 1].closed == Some(PingFailed) <==>
      && !tr.states[j].done && tr.states[j].closed.None?
      && match tr.actions[j]
         case PingWritten(ok, wins) => !ok && wins
         case Fire(_, wins) =>
           && wins && tr.states[j].readable && Idle(p, tr, j) && !p.pingConfigured
           && !exists i: nat :: Outstanding(tr, i, j)
         case _ => false
  {
    var s, a := tr.states[j], tr.actions[j];
    TraceInv(p, tr, j);
    assert IsStep(p, s, a, tr.states[j + 1]);
    if a.Fire? {
      HealthExactly(p, tr, j);
      AnsweredIsNotOutstanding(p, tr, j);
    }
    hide Idle, Outstanding, Unanswered;
  }

  lemma AnsweredIsNotOutstanding(p: Params, tr: Trace, j: nat)
    requires |tr.states| == |tr.actions| + 1 && j < |tr.actions|
    ensures (exists i: nat :: Unanswered(p, tr, i, j)) ==> exists i: nat :: Outstanding(tr, i, j)
  {
  }

  /** Over every trace: step j starts a ping if and only if it runs the health timer of an open channel
      that is idle and has no outstanding ping, and a ping is configured. */
  lemma PingStartsExactly(p: Params, tr: Trace, j: nat)
    requires Consummate(p) && IsTrace(p, tr) && j < |tr.actions|
    ensures tr.states[j].pinging.None? && tr.states[j + 1].pinging.Some? <==>
      && tr.actions[j].Fire? && !tr.states[j].done && tr.states[j].readable && p.pingConfigured
      && Idle(p, tr, j) && !exists i: nat :: Outstanding(tr, i, j)
  {
    var s, a := tr.states[j], tr.actions[j];
    TraceInv(p, tr, j);
    assert IsStep(p, s, a, tr.states[j + 1]);
    if a.Fire? {
      HealthExactly(p, tr, j);
      AnsweredIsNotOutstanding(p, tr, j);
    }
    hide Idle, Outstanding, Unanswered;
  }

  /** Over every trace: a channel stops being readable exactly when somebody closes it or its reading
      side, a peer sends it away, or the keeper closes it; and it never becomes readable again. */
  lemma ReadableExactly(p: Params, tr: Trace, j: nat)
    requires IsTrace(p, tr) && j < |tr.actions|
    ensures var s, s', a := tr.states[j], tr.states[j + 1], tr.actions[j];
      s'.readable <==>
      && s.readable && !a.CloseElsewhere? && !a.CloseReader? && a != Receive(GoAwayMsg)
      && !(s.closed.None? && (s'.closed == Some(PingTimeout) || s'.closed == Some(PingFailed)))
  {
    TraceInv(p, tr, j);
    assert IsStep(p, tr.states[j], tr.actions[j], tr.states[j + 1]);
  }

  /** A channel is closed at most once: the cause never changes. */
  lemma {:induction false} ClosedForGood(p: Params, tr: Trace, i: nat, j: nat)
    requires IsTrace(p, tr) && i <= j < |tr.states| && tr.states[i].closed.Some?
    ensures tr.states[j].closed == tr.states[i].closed
    decreases j
  {
    if i < j {
      ClosedForGood(p, tr, i, j - 1);
      assert IsStep(p, tr.states[j - 1], tr.actions[j - 1], tr.states[j]);
    }
  }

  /** Whoever closes the channel closes the keeper with it, and a keeper that is done stays done. */
  lemma {:induction false} DoneForGood(p: Params, tr: Trace, i: nat, j: nat)
    requires IsTrace(p, tr) && i < j < |tr.states| && (tr.states[i].done || tr.actions[i].CloseElsewhere?)
    ensures tr.states[j].done
    decreases j
  {
    if i < j - 1 { DoneForGood(p, tr, i, j - 1); }
    assert IsStep(p, tr.states[j - 1], tr.actions[j - 1], tr.states[j]);
  }

  // ------------------------------------------------------------ responsive peers survive

  /** Every ping stamped at some time is answered by a pong stamped at or after it and less than
      `timeout` later, before the trace gets that far. */
  ghost predicate Responsive(p: Params, tr: Trace)
    requires |tr.states| == |tr.actions| + 1
  {
    forall i, j | 0 <= i < j < |tr.actions| && PingAt(tr, i)
               && tr.states[j].now >= tr.states[i].now + p.timeout ::
      exists k :: i < k < j && Answers(p, tr, i, k)
  }

  predicate Answers(p: Params, tr: Trace, i: nat, k: nat)
    requires |tr.states| == |tr.actions| + 1 && i < |tr.actions| && k < |tr.actions|
  {
    && PongAt(tr, k)
    && tr.states[i].now <= tr.states[k].now < tr.states[i].now + p.timeout
  }

  /** A peer that answers every ping in time is never closed for a ping timeout, even when the
      wheel wakes the callback early. */
  lemma {:induction false} ResponsiveSurvives(p: Params, tr: Trace, j: nat)
    requires Consummate(p) && IsTrace(p, tr) && Responsive(p, tr) && j < |tr.states|
    ensures tr.states[j].closed != Some(PingTimeout)
    decreases j
  {
    if j > 0 {
      ResponsiveSurvives(p, tr, j - 1);
      TimeoutExactly(p, tr, j - 1);
      AllAnswered(p, tr, j - 1);
    }
  }

  /** Nobody else closes or half-closes the channel, and pings get written. */
  predicate LeftAlone(a: Action) {
    !a.CloseElsewhere? && !a.CloseReader? && a != Receive(GoAwayMsg) && (a.PingWritten? ==> a.ok)
  }

  /** Such a peer keeps its channel, and the keeper keeps checking on it, for as long as pings are
      configured and written and nobody else closes anything. */
  lemma {:induction false} ResponsiveStaysOpen(p: Params, tr: Trace, j: nat)
    requires Consummate(p) && IsTrace(p, tr) && Responsive(p, tr) && p.pingConfigured && j < |tr.states|
    requires forall k | 0 <= k < j :: LeftAlone(tr.actions[k])
    ensures tr.states[j].closed.None? && !tr.states[j].done && tr.states[j].readable
    ensures |tr.states[j].timers| + One(tr.states[j].pinging.Some?) == 1
    decreases j
  {
    TraceInv(p, tr, j);
    if j > 0 {
      ResponsiveStaysOpen(p, tr, j - 1);
      AllAnswered(p, tr, j - 1);
      assert LeftAlone(tr.actions[j - 1]) && IsStep(p, tr.states[j - 1], tr.actions[j - 1], tr.states[j]);
      if tr.actions[j - 1].Fire? { HealthExactly(p, tr, j - 1); }
    }
  }

  lemma AllAnswered(p: Params, tr: Trace, j: nat)
    requires |tr.states| == |tr.actions| + 1 && Responsive(p, tr) && j < |tr.actions|
    ensures forall i: nat :: !Unanswered(p, tr, i, j)
  {
    forall i: nat | LastPing(tr, i, j) && tr.states[i].now + p.timeout <= tr.states[j].now
      ensures !Unanswered(p, tr, i, j)
    {
      var k :| i < k < j && Answers(p, tr, i, k);
      assert PongAt(tr, k);
    }
  }

  // ------------------------------------------------------------ what the stamps cannot tell

  lemma Extend(p: Params, tr: Trace, a: Action) returns (tr': Trace)
    requires IsTrace(p, tr) && Stamped(tr.states[|tr.actions|]) && Enabled(p, tr.states[|tr.actions|], a)
    ensures IsTrace(p, tr') && tr'.actions == tr.actions + [a]
    ensures tr'.states[|tr'.actions|] == Next(p, tr.states[|tr.actions|], a)
  {
    hide Next, Enabled;
    tr' := Trace(tr.states + [Next(p, tr.states[|tr.actions|], a)], tr.actions + [a]);
    forall i | 0 <= i < |tr'.actions|
      ensures IsStep(p, tr'.states[i], tr'.actions[i], tr'.states[i + 1])
    {
      if i < |tr.actions| { assert IsStep(p, tr.states[i], tr.actions[i], tr.states[i + 1]); }
    }
  }

  /** The ping is stamped after its write returns.  A pong that comes back before the stamp is
      taken looks older than the ping, so a peer that answered its only ping at once is closed
      for a ping timeout.  This happens for all durations, as soon as the write takes time. */
  lemma FastPongTimesOut(p: Params, now: nat) returns (tr: Trace)
    requires Consummate(p) && p.pingConfigured && p.write > 0
    ensures IsTrace(p, tr)
    ensures tr.actions == [Advance(now + p.time), Fire(0, true), Receive(PongMsg), Advance(now + p.time + 1),
                           PingWritten(true, true), Advance(now + p.time + 1 + p.timeout), Fire(0, true)]
    ensures tr.states[|tr.actions|].closed == Some(PingTimeout)
  {
    var t := now + p.time;
    tr := Trace([Start(p, now)], []);
    tr := Extend(p, tr, Advance(t));
    tr := Extend(p, tr, Fire(0, true));
    assert tr.states[|tr.actions|] == Start(p, now).(now := t, timers := [], pinging := Some(t));
    tr := Extend(p, tr, Receive(PongMsg));
    tr := Extend(p, tr, Advance(t + 1));
    assert tr.states[|tr.actions|] == Start(p, now).(now := t + 1, timers := [], pinging := Some(t), lastPong := t);
    tr := Extend(p, tr, PingWritten(true, true));
    assert tr.states[|tr.actions|]
        == Start(p, now).(now := t + 1, timers := [Timer(t + 1, p.timeout)], lastPong := t, lastPing := t + 1);
    tr := Extend(p, tr, Advance(t + 1 + p.timeout));
    tr := Extend(p, tr, Fire(0, true));
  }

  /** The keeper has given up on a channel that is still open. */
  predicate Abandoned(s: State) {
    s.done && s.closed.None?
  }

  lemma AbandonedStep(p: Params, s: State, a: Action)
    requires Stamped(s) && Enabled(p, s, a) && Abandoned(s) && !a.CloseElsewhere? && a != Receive(GoAwayMsg)
    ensures Abandoned(Next(p, s, a))
  {
  }

  /** A keeper that loses its one compare-and-swap never tries again: from any state in which a
      losing step ends with the channel open and the keeper done, the channel stays open until
      somebody else closes it, however long the peer is silent. */
  lemma {:induction false} LostCloseIsFinal(p: Params, tr: Trace, i: nat, j: nat)
    requires IsTrace(p, tr) && i <= j < |tr.states| && Abandoned(tr.states[i])
    requires forall k | i <= k < j :: !tr.actions[k].CloseElsewhere? && tr.actions[k] != Receive(GoAwayMsg)
    ensures Abandoned(tr.states[j])
    decreases j
  {
    if i < j {
      LostCloseIsFinal(p, tr, i, j - 1);
      assert IsStep(p, tr.states[j - 1], tr.actions[j - 1], tr.states[j]);
      AbandonedStep(p, tr.states[j - 1], tr.actions[j - 1]);
    }
  }

  /** Such a state is reached for all durations: the ping fails, or is never configured, while somebody
      half-closes the writing side. */
  lemma LostCloseHappens(p: Params, now: nat) returns (tr: Trace)
    requires Consummate(p) && !p.pingConfigured
    ensures IsTrace(p, tr) && tr.actions == [Advance(now + p.time), Fire(0, false)]
    ensures Abandoned(tr.states[2]) && tr.states[2].readable && tr.states[2].timers == []
  {
    tr := Trace([Start(p, now)], []);
    tr := Extend(p, tr, Advance(now + p.time));
    tr := Extend(p, tr, Fire(0, false));
  }
}
