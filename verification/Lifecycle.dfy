/** Connection lifecycle of the transport handler: connects, closes, errors and shutdown run on
    their own threads and meet in the channel map, the channel counter and the state bits of
    each channel.  One step is one atomic access; all threads interleave freely.

    Each channel has one `OnConnect` thread and at most one closing goroutine; any number of
    other threads may call `closeChannel`, `Channel.Close` or a half-close on it at any time. */
module Lifecycle {
  import opened Common

  type Ch = nat
  type Tid = nat

  /** The readable and writeable state bits. */
  datatype Bits = Bits(readable: bool, writeable: bool)

  const INACTIVE := Bits(false, false)
  const READ_WRITE := Bits(true, true)

  predicate Has(b: Bits, mask: Bits) {
    (mask.readable ==> b.readable) && (mask.writeable ==> b.writeable)
  }

  function Without(b: Bits, mask: Bits): (r: Bits) {
    Bits(b.readable && !mask.readable, b.writeable && !mask.writeable)
  }

  /** Program counter of `OnConnect`. */
  datatype ConnectPc =
    | Arrived                 // before the first isActive
    | Limit                   // before the channel limit is read
    | Admitted                // channel made, hooks running
    | Active                  // state bits set, before Inc
    | Counted                 // before Store
    | Recheck(failed: bool)   // the deferred isActive
    | CloseLoad | CloseCas(seen: Bits)
    | Returned

  /** Program counter of the goroutine that a successful `Channel.Close` starts. */
  datatype CloserPc =
    | NotStarted
    | WaitTasks
    | Hook                    // the closed hook, before LoadAndDelete
    | HookGot                 // deregistered, before Dec
    | HookLoad | HookCas(seen: Bits)
    | Release                 // before done is closed and the pipeline released
    | Finished

  /** Program counter of the other threads. */
  datatype ExtPc =
    | Deregister              // closeChannel, before LoadAndDelete
    | GotIt                   // before Dec
    | ExtLoad | ExtCas(seen: Bits)
    | HalfLoad(mask: Bits) | HalfCas(seen: Bits, mask: Bits)
    | Done

  datatype Remover = Nobody | ByThread(t: Tid) | ByCloser

  /** `spawned` counts successful closes, `decs` the decrements for this channel, `released` the
      times its done channel was closed and its pipeline released; `remover` is whoever's
      LoadAndDelete found the channel.  Two events are recorded that can leave a channel behind:
      `hookEarly`, the closing goroutine's LoadAndDelete ran before the store, and `gaveUp`, the
      deferred close of a stored channel returned without closing and nobody else had closed. */
  datatype Chan = Chan(
    connect: ConnectPc, bits: Bits, activated: bool, stored: bool,
    closer: CloserPc, spawned: nat, released: nat,
    registered: bool, remover: Remover, decs: nat, rescuer: Option<Tid>,
    hookEarly: bool, gaveUp: bool)

  datatype Ext = Ext(ch: Ch, pc: ExtPc)

  datatype RangePc = Before | Ranging(todo: set<Ch>) | After

  /** `halved`: some half-close succeeded at some time. */
  datatype State = State(
    serving: bool, range: RangePc, count: int,
    chans: map<Ch, Chan>, exts: map<Tid, Ext>, halved: bool)

  // ------------------------------------------------------------ what one thread does to one channel

  datatype Effect = Effect(chan: Chan, delta: int, halved: bool)

  function Quietly(chan: Chan): (e: Effect) {
    Effect(chan, 0, false)
  }

  /** The successful compare-and-swap of `Channel.Close`. */
  function Closed(chan: Chan): (e: Effect) {
    Effect(chan.(bits := INACTIVE, spawned := chan.spawned + 1, closer := WaitTasks), 0, false)
  }

  /** The deferred close returns without having closed the channel. */
  function Unclosed(chan: Chan): (chan': Chan) {
    chan.(connect := Returned, gaveUp := chan.stored && chan.spawned == 0)
  }

  function ConnectNext(chan: Chan, serving: bool, count: int, max: nat, hooksOk: bool): (e: Effect)
    ensures e.chan.remover == chan.remover && e.chan.rescuer == chan.rescuer && !e.halved
    ensures (chan.stored ==> e.chan.stored) && (chan.activated ==> e.chan.activated)
  {
    match chan.connect
    case Arrived => Quietly(chan.(connect := if serving then Limit else Returned))
    case Limit => Quietly(chan.(connect := if max > 0 && count > max then Returned else Admitted))
    case Admitted =>
      if hooksOk then Quietly(chan.(connect := Active, bits := READ_WRITE, activated := true))
      else Quietly(chan.(connect := Recheck(true)))
    case Active => Effect(chan.(connect := Counted), 1, false)
    case Counted => Quietly(chan.(connect := Recheck(false), stored := true, registered := true))
    case Recheck(failed) => Quietly(chan.(connect := if failed || !serving then CloseLoad else Returned))
    case CloseLoad =>
      if chan.bits == INACTIVE then Quietly(Unclosed(chan))
      else Quietly(chan.(connect := CloseCas(chan.bits)))
    case CloseCas(seen) =>
      if chan.bits == seen then Closed(chan.(connect := Returned)) else Quietly(Unclosed(chan))
    case Returned => Quietly(chan)
  }

  function CloserNext(chan: Chan): (e: Effect)
    ensures e.chan.remover == chan.remover || e.chan.remover == ByCloser
    ensures e.chan.rescuer == chan.rescuer && !e.halved
    ensures e.chan.connect == chan.connect && e.chan.stored == chan.stored && e.chan.activated == chan.activated
  {
    match chan.closer
    case NotStarted => Quietly(chan)
    case WaitTasks => Quietly(chan.(closer := Hook))
    case Hook =>
      if chan.registered then Quietly(chan.(closer := HookGot, registered := false, remover := ByCloser))
      else Quietly(chan.(closer := Release, hookEarly := !chan.stored))
    case HookGot => Effect(chan.(closer := HookLoad, decs := chan.decs + 1), -1, false)
    case HookLoad => Quietly(chan.(closer := if chan.bits == INACTIVE then Release else HookCas(chan.bits)))
    case HookCas(seen) => if chan.bits == seen then Closed(chan) else Quietly(chan.(closer := Release))
    case Release => Quietly(chan.(closer := Finished, released := chan.released + 1))
    case Finished => Quietly(chan)
  }

  function ExtNext(t: Tid, pc: ExtPc, chan: Chan): (r: (ExtPc, Effect))
    ensures r.1.chan.remover == chan.remover || r.1.chan.remover == ByThread(t)
    ensures r.1.chan.connect == chan.connect && r.1.chan.rescuer == chan.rescuer
    ensures r.1.chan.stored == chan.stored && r.1.chan.activated == chan.activated
  {
    match pc
    case Deregister =>
      if chan.registered then (GotIt, Quietly(chan.(registered := false, remover := ByThread(t))))
      else (Done, Quietly(chan))
    case GotIt => (ExtLoad, Effect(chan.(decs := chan.decs + 1), -1, false))
    case ExtLoad => (if chan.bits == INACTIVE then Done else ExtCas(chan.bits), Quietly(chan))
    case ExtCas(seen) => (Done, if chan.bits == seen then Closed(chan) else Quietly(chan))
    case HalfLoad(mask) => (if Has(chan.bits, mask) then HalfCas(chan.bits, mask) else Done, Quietly(chan))
    case HalfCas(seen, mask) =>
      if chan.bits == seen
      then (Done, Effect(chan.(bits := Without(seen, mask)), 0, true))
      else (HalfLoad(mask), Quietly(chan))
    case Done => (Done, Quietly(chan))
  }

  // ------------------------------------------------------------ steps

  datatype Action =
    | Arrive(ch: Ch)
    | Connect(ch: Ch, hooksOk: bool)
    | Closer(ch: Ch)
    | Spawn(t: Tid, ch: Ch, pc: ExtPc)
    | Run(t: Tid)
    | Shutdown
    | StartRange
    | Visit(ch: Ch, t: Tid)
    | SkipGone(ch: Ch)
    | EndRange

  predicate Starts(pc: ExtPc) {
    pc.Deregister? || pc.ExtLoad? || (pc.HalfLoad? && pc.mask != INACTIVE)
  }

  predicate Enabled(st: State, a: Action) {
    match a
    case Arrive(c) => c !in st.chans
    case Connect(c, _) => c in st.chans
    case Closer(c) => c in st.chans
    case Spawn(t, c, pc) => t !in st.exts && c in st.chans && Starts(pc)
    case Run(t) => t in st.exts && st.exts[t].ch in st.chans
    case Shutdown => st.serving
    case StartRange => !st.serving && st.range.Before?
    case Visit(c, t) => st.range.Ranging? && c in st.range.todo && c in st.chans && t !in st.exts
    case SkipGone(c) => st.range.Ranging? && c in st.range.todo && c in st.chans && !st.chans[c].registered
    case EndRange => st.range == Ranging({})
  }

  const NEW_CHAN := Chan(Arrived, INACTIVE, false, false, NotStarted, 0, 0, false, Nobody, 0, None, false, false)

  function Put(st: State, c: Ch, e: Effect): (st': State) {
    st.(chans := st.chans[c := e.chan], count := st.count + e.delta, halved := st.halved || e.halved)
  }

  function Registered(chans: map<Ch, Chan>): (cs: set<Ch>) {
    set c <- chans | chans[c].registered
  }

  /** One step under channel limit `max`. */
  function Next(st: State, a: Action, max: nat): (st': State)
    requires Enabled(st, a)
  {
    match a
    case Arrive(c) => st.(chans := st.chans[c := NEW_CHAN])
    case Connect(c, hooksOk) => Put(st, c, ConnectNext(st.chans[c], st.serving, st.count, max, hooksOk))
    case Closer(c) => Put(st, c, CloserNext(st.chans[c]))
    case Spawn(t, c, pc) => st.(exts := st.exts[t := Ext(c, pc)])
    case Run(t) =>
      var x := st.exts[t];
      var (pc, e) := ExtNext(t, x.pc, st.chans[x.ch]);
      Put(st, x.ch, e).(exts := st.exts[t := Ext(x.ch, pc)])
    case Shutdown => st.(serving := false)
    case StartRange => st.(range := Ranging(Registered(st.chans)))
    case Visit(c, t) =>
      st.(range := Ranging(st.range.todo - {c}), exts := st.exts[t := Ext(c, Deregister)],
          chans := st.chans[c := st.chans[c].(rescuer := Some(t))])
    case SkipGone(c) => st.(range := Ranging(st.range.todo - {c}))
    case EndRange => st.(range := After)
  }

  // ------------------------------------------------------------ invariants of one channel

  /** What the connect thread's position says about the channel. */
  predicate Progress(x: Chan) {
    match x.connect
    case Arrived => !x.activated && !x.stored
    case Limit => !x.activated && !x.stored
    case Admitted => !x.activated && !x.stored
    case Active => x.activated && !x.stored
    case Counted => x.activated && !x.stored
    case Recheck(failed) => if failed then !x.activated && !x.stored else x.activated && x.stored
    case CloseLoad => x.activated == x.stored
    case CloseCas(seen) => x.activated == x.stored && seen != INACTIVE
    case Returned => x.activated == x.stored
  }

  /** Exactly-once teardown, for one channel: it is closed once, */
  predicate OnceClosed(x: Chan) {
    && x.spawned <= 1 && (x.spawned == 0 <==> x.closer.NotStarted?) && (x.spawned == 1 ==> x.activated)
    && x.released == One(x.closer.Finished?)
    && (x.bits != INACTIVE ==> x.activated && x.spawned == 0)
    && (x.closer.HookCas? ==> x.closer.seen != INACTIVE)
  }

  /** and taken out of the map and counted down once. */
  predicate OnceRemoved(x: Chan) {
    && (x.registered ==> x.stored && x.remover.Nobody?)
    && (x.stored && !x.registered ==> !x.remover.Nobody?)
    && (!x.stored ==> x.remover.Nobody?)
    && x.decs <= 1 && (x.remover.Nobody? ==> x.decs == 0)
    && (x.closer.HookGot? <==> x.remover.ByCloser? && x.decs == 0)
    && (x.remover.ByCloser? ==> x.spawned == 1)
  }

  predicate Once(x: Chan) {
    OnceClosed(x) && OnceRemoved(x)
  }

  predicate Rereading(pc: ConnectPc) {
    pc == Recheck(false) || pc.CloseLoad? || pc.CloseCas?
  }

  /** The closing goroutine has still to look for the channel in the map. */
  predicate HookAhead(pc: CloserPc) {
    pc.WaitTasks? || pc.Hook?
  }

  /** Every registered channel has somebody who is going to deregister it once the range runs, unless
      one of the two events happened. */
  predicate Covered(x: Chan, c: Ch, range: RangePc) {
    && (x.spawned == 1 && (x.registered || !x.stored) ==> HookAhead(x.closer) || x.hookEarly)
    && (x.hookEarly ==> x.spawned == 1)
    && (x.gaveUp ==> x.stored)
    && (x.registered && !range.Before? ==>
         || (range.Ranging? && c in range.todo)
         || Rereading(x.connect)
         || x.rescuer.Some?
         || x.spawned == 1
         || x.gaveUp)
  }

  /** Without half-closes a channel that was deregistered is closed by whoever deregistered it, and no
      deferred close gives up. */
  predicate TornDown(x: Chan) {
    && (x.bits == READ_WRITE || x.bits == INACTIVE)
    && (x.activated && x.bits == INACTIVE ==> x.spawned == 1)
    && (x.connect.CloseCas? ==> x.connect.seen == READ_WRITE)
    && !x.gaveUp
  }

  predicate ChanOk(x: Chan, c: Ch, st: State) {
    && Progress(x) && Once(x)
    && Covered(x, c, st.range)
    && (!st.halved ==> TornDown(x))
    && (x.remover.ByThread? ==> x.remover.t in st.exts && st.exts[x.remover.t].ch == c)
    && (x.rescuer.Some? ==> x.stored && x.rescuer.value in st.exts && st.exts[x.rescuer.value].ch == c)
    && (st.range.Ranging? && c in st.range.todo ==> x.stored)
  }

  /** One thread and the channel it works on. */
  predicate ExtOk(t: Tid, pc: ExtPc, x: Chan, halved: bool) {
    && (pc.GotIt? <==> x.remover == ByThread(t) && x.decs == 0)
    && (x.rescuer == Some(t) ==> pc.Deregister? || !x.registered)
    && (pc.ExtCas? ==> pc.seen != INACTIVE && (!halved ==> pc.seen == READ_WRITE))
    && (pc.HalfLoad? || pc.HalfCas? ==> pc.mask != INACTIVE)
    && (pc.HalfCas? ==> Has(pc.seen, pc.mask))
    && (!halved && x.remover == ByThread(t) && x.bits != INACTIVE ==> pc.GotIt? || pc.ExtLoad? || pc.ExtCas?)
  }

  ghost predicate Inv(st: State) {
    && (st.serving ==> st.range.Before?)
    && (st.range.Ranging? ==> st.range.todo <= st.chans.Keys)
    && (forall c <- st.chans :: ChanOk(st.chans[c], c, st))
    && (forall t <- st.exts :: st.exts[t].ch in st.chans && ExtOk(t, st.exts[t].pc, st.chans[st.exts[t].ch], st.halved))
  }

  // ------------------------------------------------------------ one step on one channel

  /** What a step on a channel must keep, whoever takes it. */
  predicate Kept(x: Chan, e: Effect, c: Ch, range: RangePc) {
    && Progress(e.chan) && Once(e.chan)
    && (Covered(x, c, range) ==> Covered(e.chan, c, range))
    && (TornDown(x) && !e.halved ==> TornDown(e.chan))
    && e.chan.rescuer == x.rescuer && (x.stored ==> e.chan.stored)
    && (x.activated ==> e.chan.activated && Has(x.bits, e.chan.bits))
  }

  lemma ConnectLocal(x: Chan, c: Ch, serving: bool, range: RangePc, count: int, max: nat, hooksOk: bool)
    requires Progress(x) && Once(x) && (serving ==> range.Before?)
    ensures var e := ConnectNext(x, serving, count, max, hooksOk);
      Kept(x, e, c, range) && e.chan.remover == x.remover && !e.halved
  {
    hide Progress, Once, Covered, TornDown, ConnectNext, Has;
    ConnectProgress(x, serving, count, max, hooksOk);
    ConnectOnce(x, serving, count, max, hooksOk);
    if x.activated { ConnectShrinks(x, serving, count, max, hooksOk); }
    if Covered(x, c, range) { ConnectCovered(x, c, serving, range, count, max, hooksOk); }
    if TornDown(x) { ConnectTorn(x, serving, count, max, hooksOk); }
  }

  lemma ConnectShrinks(x: Chan, serving: bool, count: int, max: nat, hooksOk: bool)
    requires Progress(x) && x.activated
    ensures Has(x.bits, ConnectNext(x, serving, count, max, hooksOk).chan.bits)
  {
  }

  lemma ConnectProgress(x: Chan, serving: bool, count: int, max: nat, hooksOk: bool)
    requires Progress(x) && Once(x)
    ensures Progress(ConnectNext(x, serving, count, max, hooksOk).chan)
  {
    hide Once;
  }

  lemma ConnectOnce(x: Chan, serving: bool, count: int, max: nat, hooksOk: bool)
    requires Progress(x) && Once(x)
    ensures Once(ConnectNext(x, serving, count, max, hooksOk).chan)
  {
    hide OnceClosed, OnceRemoved, ConnectNext;
    ConnectOnceClosed(x, serving, count, max, hooksOk);
    ConnectOnceRemoved(x, serving, count, max, hooksOk);
  }

  lemma ConnectOnceClosed(x: Chan, serving: bool, count: int, max: nat, hooksOk: bool)
    requires Progress(x) && OnceClosed(x)
    ensures OnceClosed(ConnectNext(x, serving, count, max, hooksOk).chan)
  {
  }

  lemma ConnectOnceRemoved(x: Chan, serving: bool, count: int, max: nat, hooksOk: bool)
    requires Progress(x) && OnceClosed(x) && OnceRemoved(x)
    ensures OnceRemoved(ConnectNext(x, serving, count, max, hooksOk).chan)
  {
  }

  lemma ConnectCovered(x: Chan, c: Ch, serving: bool, range: RangePc, count: int, max: nat, hooksOk: bool)
    requires Progress(x) && Once(x) && (serving ==> range.Before?) && Covered(x, c, range)
    ensures Covered(ConnectNext(x, serving, count, max, hooksOk).chan, c, range)
  {
  }

  lemma ConnectTorn(x: Chan, serving: bool, count: int, max: nat, hooksOk: bool)
    requires Progress(x) && Once(x) && TornDown(x)
    ensures TornDown(ConnectNext(x, serving, count, max, hooksOk).chan)
  {
  }

  lemma ConnectBystander(x: Chan, serving: bool, count: int, max: nat, hooksOk: bool, t: Tid, pc: ExtPc, halved: bool)
    requires Progress(x) && Once(x) && ExtOk(t, pc, x, halved) && (x.rescuer.Some? ==> x.stored)
    ensures ExtOk(t, pc, ConnectNext(x, serving, count, max, hooksOk).chan, halved)
  {
  }

  lemma CloserLocal(x: Chan, c: Ch, range: RangePc)
    requires Progress(x) && Once(x)
    ensures var e := CloserNext(x);
      Kept(x, e, c, range) && (e.chan.remover == x.remover || e.chan.remover == ByCloser) && !e.halved
  {
    hide Progress, Once, Covered, TornDown, Has, CloserNext;
    CloserProgress(x);
    CloserOnce(x);
    if Covered(x, c, range) { CloserCovered(x, c, range); }
  }

  lemma CloserProgress(x: Chan)
    requires Progress(x) && Once(x)
    ensures var e := CloserNext(x);
      Progress(e.chan) && Has(x.bits, e.chan.bits) && (TornDown(x) ==> TornDown(e.chan))
  {
    hide OnceRemoved;
  }

  lemma CloserOnce(x: Chan)
    requires Progress(x) && Once(x)
    ensures OnceClosed(CloserNext(x).chan) && OnceRemoved(CloserNext(x).chan)
    ensures Once(CloserNext(x).chan)
  {
    hide Progress;
  }

  lemma CloserCovered(x: Chan, c: Ch, range: RangePc)
    requires Progress(x) && Once(x) && Covered(x, c, range)
    ensures Covered(CloserNext(x).chan, c, range)
  {
  }

  lemma CloserBystander(x: Chan, t: Tid, pc: ExtPc, halved: bool)
    requires Progress(x) && Once(x) && ExtOk(t, pc, x, halved)
    ensures ExtOk(t, pc, CloserNext(x).chan, halved)
  {
  }

  lemma ExtLocal(t: Tid, pc: ExtPc, x: Chan, c: Ch, range: RangePc, halved: bool)
    requires Progress(x) && Once(x) && ExtOk(t, pc, x, halved) && (!halved ==> TornDown(x))
    ensures var (pc', e) := ExtNext(t, pc, x);
      && Kept(x, e, c, range) && ExtOk(t, pc', e.chan, halved || e.halved)
      && (e.chan.remover == x.remover || e.chan.remover == ByThread(t))
  {
    hide Progress, Once, Covered, TornDown, Has, ExtOk, ExtNext;
    ExtProgress(t, pc, x, halved);
    ExtOnce(t, pc, x, halved);
    ExtSelf(t, pc, x, halved);
    if Covered(x, c, range) { ExtCovered(t, pc, x, c, range, halved); }
  }

  lemma ExtProgress(t: Tid, pc: ExtPc, x: Chan, halved: bool)
    requires Progress(x) && Once(x) && ExtOk(t, pc, x, halved)
    ensures var e := ExtNext(t, pc, x).1;
      && Progress(e.chan) && (x.activated ==> Has(x.bits, e.chan.bits))
      && (TornDown(x) && !e.halved ==> TornDown(e.chan))
  {
    hide OnceRemoved;
  }

  lemma ExtOnce(t: Tid, pc: ExtPc, x: Chan, halved: bool)
    requires Progress(x) && Once(x) && ExtOk(t, pc, x, halved)
    ensures Once(ExtNext(t, pc, x).1.chan)
  {
  }

  lemma ExtSelf(t: Tid, pc: ExtPc, x: Chan, halved: bool)
    requires Once(x) && ExtOk(t, pc, x, halved) && (!halved ==> TornDown(x))
    ensures var (pc', e) := ExtNext(t, pc, x);
      ExtOk(t, pc', e.chan, halved || e.halved)
  {
    hide OnceClosed;
  }

  lemma ExtCovered(t: Tid, pc: ExtPc, x: Chan, c: Ch, range: RangePc, halved: bool)
    requires Progress(x) && Once(x) && ExtOk(t, pc, x, halved) && Covered(x, c, range)
    ensures Covered(ExtNext(t, pc, x).1.chan, c, range)
  {
  }

  lemma ExtBystander(t: Tid, pc: ExtPc, x: Chan, t': Tid, pc': ExtPc, halved: bool)
    requires Progress(x) && Once(x) && ExtOk(t, pc, x, halved) && ExtOk(t', pc', x, halved) && t != t'
    ensures var e := ExtNext(t, pc, x).1;
      ExtOk(t', pc', e.chan, halved || e.halved)
  {
  }

  // ------------------------------------------------------------ every step keeps the invariant

  /** Putting a step's effect on channel `c` into the state, when the threads are accounted for. */
  lemma PutKeepsInv(st: State, c: Ch, e: Effect, exts: map<Tid, Ext>)
    requires Inv(st) && c in st.chans && Kept(st.chans[c], e, c, st.range)
    requires exts.Keys == st.exts.Keys && forall t <- exts :: exts[t].ch == st.exts[t].ch
    requires e.chan.remover == st.chans[c].remover || e.chan.remover == ByCloser
          || (e.chan.remover.ByThread? && e.chan.remover.t in exts && exts[e.chan.remover.t].ch == c)
    requires forall t <- exts ::
      if exts[t].ch == c then ExtOk(t, exts[t].pc, e.chan, st.halved || e.halved) else exts[t] == st.exts[t]
    ensures Inv(Put(st, c, e).(exts := exts))
  {
    hide Progress, Once, Covered, TornDown;
    var st' := Put(st, c, e).(exts := exts);
    forall d <- st'.chans
      ensures ChanOk(st'.chans[d], d, st')
    {
      assert ChanOk(st.chans[d], d, st) && ChanOk(st.chans[c], c, st);
    }
    forall t <- st'.exts
      ensures st'.exts[t].ch in st'.chans && ExtOk(t, st'.exts[t].pc, st'.chans[st'.exts[t].ch], st'.halved)
    {
      if exts[t].ch != c { HalvedWeakens(t, exts[t].pc, st.chans[exts[t].ch], st.halved, st'.halved); }
    }
  }

  lemma HalvedWeakens(t: Tid, pc: ExtPc, x: Chan, halved: bool, halved': bool)
    requires ExtOk(t, pc, x, halved) && (halved ==> halved')
    ensures ExtOk(t, pc, x, halved')
  {
  }

  lemma StepKeepsInv(st: State, a: Action, max: nat)
    requires Inv(st) && Enabled(st, a)
    ensures Inv(Next(st, a, max))
  {
    match a
    case Connect(c, hooksOk) => ConnectKeepsInv(st, c, hooksOk, max);
    case Closer(c) => CloserKeepsInv(st, c);
    case Run(t) => RunKeepsInv(st, t);
    case Visit(c, t) => VisitKeepsInv(st, c, t);
    case _ => OtherKeepsInv(st, a, max);
  }

  lemma ConnectKeepsInv(st: State, c: Ch, hooksOk: bool, max: nat)
    requires Inv(st) && c in st.chans
    ensures Inv(Put(st, c, ConnectNext(st.chans[c], st.serving, st.count, max, hooksOk)))
  {
    var x := st.chans[c];
    assert ChanOk(x, c, st);
    hide Progress, Once, Covered, TornDown, ConnectNext, ExtOk, Kept;
    ConnectLocal(x, c, st.serving, st.range, st.count, max, hooksOk);
    forall t <- st.exts | st.exts[t].ch == c
      ensures ExtOk(t, st.exts[t].pc, ConnectNext(x, st.serving, st.count, max, hooksOk).chan, st.halved)
    {
      ConnectBystander(x, st.serving, st.count, max, hooksOk, t, st.exts[t].pc, st.halved);
    }
    PutKeepsInv(st, c, ConnectNext(x, st.serving, st.count, max, hooksOk), st.exts);
  }

  lemma CloserKeepsInv(st: State, c: Ch)
    requires Inv(st) && c in st.chans
    ensures Inv(Put(st, c, CloserNext(st.chans[c])))
  {
    var x := st.chans[c];
    assert ChanOk(x, c, st);
    hide Progress, Once, Covered, TornDown, CloserNext, ExtOk, Kept;
    CloserLocal(x, c, st.range);
    forall t <- st.exts | st.exts[t].ch == c
      ensures ExtOk(t, st.exts[t].pc, CloserNext(x).chan, st.halved)
    {
      CloserBystander(x, t, st.exts[t].pc, st.halved);
    }
    PutKeepsInv(st, c, CloserNext(x), st.exts);
  }

  lemma RunKeepsInv(st: State, t: Tid)
    requires Inv(st) && Enabled(st, Run(t))
    ensures Inv(Next(st, Run(t), 0))
  {
    var c, pc := st.exts[t].ch, st.exts[t].pc;
    var x := st.chans[c];
    assert ChanOk(x, c, st);
    hide Progress, Once, Covered, TornDown, ExtNext, ExtOk, Kept;
    ExtLocal(t, pc, x, c, st.range, st.halved);
    var (pc', e) := ExtNext(t, pc, x);
    var exts := st.exts[t := Ext(c, pc')];
    forall t' <- exts | exts[t'].ch == c
      ensures ExtOk(t', exts[t'].pc, e.chan, st.halved || e.halved)
    {
      if t' != t { ExtBystander(t, pc, x, t', exts[t'].pc, st.halved); }
    }
    PutKeepsInv(st, c, e, exts);
  }

  lemma RescuerAside(x: Chan, t: Option<Tid>)
    ensures Progress(x.(rescuer := t)) == Progress(x) && Once(x.(rescuer := t)) == Once(x)
    ensures TornDown(x.(rescuer := t)) == TornDown(x) && Weight(x.(rescuer := t)) == Weight(x)
  {
  }

  lemma VisitKeepsInv(st: State, c: Ch, t: Tid)
    requires Inv(st) && Enabled(st, Visit(c, t))
    ensures Inv(Next(st, Visit(c, t), 0))
  {
    hide Progress, Once, TornDown;
    var st' := Next(st, Visit(c, t), 0);
    RescuerAside(st.chans[c], Some(t));
    forall d <- st'.chans
      ensures ChanOk(st'.chans[d], d, st')
    {
      assert ChanOk(st.chans[d], d, st);
    }
    forall u <- st'.exts
      ensures st'.exts[u].ch in st'.chans && ExtOk(u, st'.exts[u].pc, st'.chans[st'.exts[u].ch], st'.halved)
    {
      assert ChanOk(st.chans[c], c, st);
    }
  }

  lemma OtherKeepsInv(st: State, a: Action, max: nat)
    requires Inv(st) && Enabled(st, a)
    requires a.Arrive? || a.Spawn? || a.Shutdown? || a.StartRange? || a.SkipGone? || a.EndRange?
    ensures Inv(Next(st, a, max))
  {
    hide Progress, Once, TornDown, Covered, ExtOk;
    var st' := Next(st, a, max);
    forall d <- st'.chans
      ensures ChanOk(st'.chans[d], d, st')
    {
      if d in st.chans { OtherKeepsChan(st, a, max, d); } else { NewChanOk(d, st'); }
    }
    forall u <- st'.exts
      ensures st'.exts[u].ch in st'.chans && ExtOk(u, st'.exts[u].pc, st'.chans[st'.exts[u].ch], st'.halved)
    {
      if u !in st.exts {
        assert ChanOk(st.chans[st'.exts[u].ch], st'.exts[u].ch, st);
        NewExtOk(u, st'.exts[u].pc, st.chans[st'.exts[u].ch], st.halved, st.exts.Keys);
      }
    }
  }

  lemma NewChanOk(c: Ch, st: State)
    requires st.range.Ranging? ==> c !in st.range.todo
    ensures ChanOk(NEW_CHAN, c, st)
  {
  }

  lemma NewExtOk(t: Tid, pc: ExtPc, x: Chan, halved: bool, others: set<Tid>)
    requires Starts(pc) && t !in others && (x.remover.ByThread? ==> x.remover.t in others)
    requires x.rescuer.Some? ==> x.rescuer.value in others
    ensures ExtOk(t, pc, x, halved)
  {
  }

  lemma OtherKeepsChan(st: State, a: Action, max: nat, d: Ch)
    requires Inv(st) && Enabled(st, a) && d in st.chans
    requires a.Arrive? || a.Spawn? || a.Shutdown? || a.StartRange? || a.SkipGone? || a.EndRange?
    ensures d in Next(st, a, max).chans && ChanOk(Next(st, a, max).chans[d], d, Next(st, a, max))
  {
    hide Progress, Once, TornDown;
    assert ChanOk(st.chans[d], d, st);
    RegisteredIsStored(st.chans[d]);
  }

  lemma RegisteredIsStored(x: Chan)
    requires Once(x)
    ensures x.registered ==> x.stored
  {
  }

  // ------------------------------------------------------------ counting

  function Where<K, V>(m: map<K, V>, p: V -> bool): (ks: set<K>) {
    set k <- m | p(m[k])
  }

  lemma WhereUpdate<K, V>(m: map<K, V>, k: K, v: V, p: V -> bool)
    ensures |Where(m[k := v], p)| == |Where(m, p)| + One(p(v)) - One(k in m && p(m[k]))
  {
    var before, after := Where(m, p), Where(m[k := v], p);
    assert forall x :: x != k ==> (x in before <==> x in after);
    assert before - {k} == after - {k};
    hide Where;
    CardWithout(before, k);
    CardWithout(after, k);
  }

  lemma CardWithout<K>(s: set<K>, k: K)
    ensures |s - {k}| == |s| - One(k in s)
  {
    if k in s {
      assert s == (s - {k}) + {k};
    } else {
      assert s - {k} == s;
    }
  }

  predicate IsRegistered(x: Chan) { x.registered }
  predicate IsCounted(x: Chan) { x.connect.Counted? }
  predicate IsHookGot(x: Chan) { x.closer.HookGot? }
  predicate IsGotIt(x: Ext) { x.pc.GotIt? }
  predicate IsAdmitted(x: Chan) { x.connect.Admitted? || x.connect.Active? }
  predicate IsInFlight(x: Chan) { !x.connect.Returned? }

  /** The channels that the counter counts: in the map, between Inc and Store, or between
      LoadAndDelete and Dec. */
  ghost predicate Balanced(st: State) {
    st.count == |Where(st.chans, IsRegistered)| + |Where(st.chans, IsCounted)|
              + |Where(st.chans, IsHookGot)| + |Where(st.exts, IsGotIt)|
  }

  function Weight(x: Chan): (w: nat) {
    One(x.registered) + One(x.connect.Counted?) + One(x.closer.HookGot?)
  }

  lemma ConnectWeight(x: Chan, serving: bool, count: int, max: nat, hooksOk: bool)
    requires Progress(x) && Once(x)
    ensures var e := ConnectNext(x, serving, count, max, hooksOk);
      Weight(e.chan) - Weight(x) == e.delta
  {
    hide OnceRemoved;
    RegisteredIsStored(x);
  }

  lemma CloserWeight(x: Chan)
    requires Once(x)
    ensures Weight(CloserNext(x).chan) - Weight(x) == CloserNext(x).delta
  {
  }

  lemma ExtWeight(t: Tid, pc: ExtPc, x: Chan, halved: bool)
    requires Once(x) && ExtOk(t, pc, x, halved)
    ensures var (pc', e) := ExtNext(t, pc, x);
      Weight(e.chan) - Weight(x) + One(pc'.GotIt?) - One(pc.GotIt?) == e.delta
  {
  }

  lemma PutBalanced(st: State, c: Ch, e: Effect)
    requires c in st.chans
    ensures var st' := Put(st, c, e);
      |Where(st'.chans, IsRegistered)| + |Where(st'.chans, IsCounted)| + |Where(st'.chans, IsHookGot)|
      == |Where(st.chans, IsRegistered)| + |Where(st.chans, IsCounted)| + |Where(st.chans, IsHookGot)|
       + Weight(e.chan) - Weight(st.chans[c])
  {
    WhereUpdate(st.chans, c, e.chan, IsRegistered);
    WhereUpdate(st.chans, c, e.chan, IsCounted);
    WhereUpdate(st.chans, c, e.chan, IsHookGot);
  }

  lemma StepBalanced(st: State, a: Action, max: nat)
    requires Inv(st) && Balanced(st) && Enabled(st, a)
    ensures Balanced(Next(st, a, max))
  {
    hide ConnectNext, CloserNext, ExtNext, Weight, Once, Progress, Covered, TornDown, ExtOk, Where;
    match a
    case Arrive(c) =>
      WhereUpdate(st.chans, c, NEW_CHAN, IsRegistered);
      WhereUpdate(st.chans, c, NEW_CHAN, IsCounted);
      WhereUpdate(st.chans, c, NEW_CHAN, IsHookGot);
    case Connect(c, hooksOk) =>
      assert ChanOk(st.chans[c], c, st);
      ConnectWeight(st.chans[c], st.serving, st.count, max, hooksOk);
      PutBalanced(st, c, ConnectNext(st.chans[c], st.serving, st.count, max, hooksOk));
    case Closer(c) =>
      assert ChanOk(st.chans[c], c, st);
      CloserWeight(st.chans[c]);
      PutBalanced(st, c, CloserNext(st.chans[c]));
    case Spawn(t, c, pc) => WhereUpdate(st.exts, t, Ext(c, pc), IsGotIt);
    case Run(t) =>
      var x := st.exts[t];
      assert ChanOk(st.chans[x.ch], x.ch, st);
      ExtWeight(t, x.pc, st.chans[x.ch], st.halved);
      var (pc, e) := ExtNext(t, x.pc, st.chans[x.ch]);
      PutBalanced(st, x.ch, e);
      WhereUpdate(st.exts, t, Ext(x.ch, pc), IsGotIt);
    case Visit(c, t) =>
      RescuerAside(st.chans[c], Some(t));
      PutBalanced(st, c, Quietly(st.chans[c].(rescuer := Some(t))));
      WhereUpdate(st.exts, t, Ext(c, Deregister), IsGotIt);
    case _ =>
  }

  /** At most k connects in flight, and room left for those already admitted. */
  ghost predicate Bounded(st: State, max: nat, k: nat) {
    st.count + |Where(st.chans, IsAdmitted)| <= max + k
  }

  lemma AdmittedInFlight(chans: map<Ch, Chan>)
    ensures |Where(chans, IsAdmitted)| <= |Where(chans, IsInFlight)|
  {
    Subset(Where(chans, IsAdmitted), Where(chans, IsInFlight));
  }

  lemma {:induction false} Subset<K>(a: set<K>, b: set<K>)
    requires a <= b
    ensures |a| <= |b|
    decreases a
  {
    if a != {} {
      var x :| x in a;
      Subset(a - {x}, b - {x});
      CardWithout(a, x);
      CardWithout(b, x);
    }
  }

  lemma StepBounded(st: State, a: Action, max: nat, k: nat)
    requires Inv(st) && Bounded(st, max, k) && Enabled(st, a) && max > 0
    requires |Where(Next(st, a, max).chans, IsInFlight)| <= k
    ensures Bounded(Next(st, a, max), max, k)
  {
    hide Inv, Where, ConnectNext, CloserNext, ExtNext;
    match a
    case Arrive(c) => WhereUpdate(st.chans, c, NEW_CHAN, IsAdmitted);
    case Connect(c, hooksOk) =>
      ConnectAdmits(st.chans[c], st.serving, st.count, max, hooksOk);
      WhereUpdate(st.chans, c, ConnectNext(st.chans[c], st.serving, st.count, max, hooksOk).chan, IsAdmitted);
      AdmittedInFlight(Next(st, a, max).chans);
    case Closer(c) =>
      OthersAdmitNone(st.chans[c], 0, Done);
      WhereUpdate(st.chans, c, CloserNext(st.chans[c]).chan, IsAdmitted);
    case Run(t) =>
      var x := st.exts[t];
      OthersAdmitNone(st.chans[x.ch], t, x.pc);
      WhereUpdate(st.chans, x.ch, ExtNext(t, x.pc, st.chans[x.ch]).1.chan, IsAdmitted);
    case Visit(c, t) => WhereUpdate(st.chans, c, st.chans[c].(rescuer := Some(t)), IsAdmitted);
    case _ =>
  }

  /** A connect pays for its increment with its admission, and is admitted only under the limit. */
  lemma ConnectAdmits(x: Chan, serving: bool, count: int, max: nat, hooksOk: bool)
    requires max > 0
    ensures var e := ConnectNext(x, serving, count, max, hooksOk);
      e.delta + One(IsAdmitted(e.chan)) <= One(IsAdmitted(x)) || (e.delta == 0 && count <= max)
  {
  }

  lemma OthersAdmitNone(x: Chan, t: Tid, pc: ExtPc)
    ensures CloserNext(x).delta <= 0 && CloserNext(x).chan.connect == x.connect
    ensures ExtNext(t, pc, x).1.delta <= 0 && ExtNext(t, pc, x).1.chan.connect == x.connect
  {
  }

  // ------------------------------------------------------------ runs

  predicate Initial(st: State) {
    st == State(true, Before, 0, map[], map[], false)
  }

  ghost predicate IsStep(st: State, st': State, max: nat) {
    exists a :: Enabled(st, a) && st' == Next(st, a, max)
  }

  /** The states a handler with channel limit `max` passes through under some schedule. */
  ghost predicate IsRun(run: seq<State>, max: nat) {
    && run != [] && Initial(run[0])
    && forall i | 0 <= i < |run| - 1 :: IsStep(run[i], run[i + 1], max)
  }

  lemma {:induction false} RunInv(run: seq<State>, max: nat, i: nat)
    requires IsRun(run, max) && i < |run|
    ensures Inv(run[i]) && Balanced(run[i])
  {
    if i > 0 {
      RunInv(run, max, i - 1);
      assert IsStep(run[i - 1], run[i], max);
      var a :| Enabled(run[i - 1], a) && run[i] == Next(run[i - 1], a, max);
      StepKeepsInv(run[i - 1], a, max);
      StepBalanced(run[i - 1], a, max);
    }
  }

  /** Shutdown has begun, the range is over and every thread has run to its end. */
  predicate Quiescent(st: State) {
    && !st.serving && st.range.After?
    && (forall c <- st.chans ::
          st.chans[c].connect.Returned? && (st.chans[c].closer.NotStarted? || st.chans[c].closer.Finished?))
    && (forall t <- st.exts :: st.exts[t].pc.Done?)
  }

  /** A channel that was left behind: nobody's LoadAndDelete found it, and the closing goroutine had
      looked too early or the deferred close had given up. */
  predicate LeftBehind(x: Chan) {
    (x.hookEarly || x.gaveUp) && x.remover.Nobody?
  }

  /** Shutdown quiescence.  Under every interleaving of shutdown with connects, closes, errors and
      half-closes, once all threads have finished, the map holds exactly the channels that were
      left behind, and the counter is their number; in particular both are empty if neither event
      happened.  If nobody half-closed, every channel that was ever activated has been torn down
      exactly once, and no deferred close gave up. */
  lemma ShutdownQuiescence(run: seq<State>, max: nat)
    requires IsRun(run, max) && Quiescent(run[|run| - 1])
    ensures var end := run[|run| - 1];
      && (forall c <- end.chans :: end.chans[c].registered <==> LeftBehind(end.chans[c]))
      && end.count == |Registered(end.chans)|
      && ((forall c <- end.chans :: !end.chans[c].hookEarly && !end.chans[c].gaveUp) ==>
           Registered(end.chans) == {} && end.count == 0)
      && (!end.halved ==> forall c <- end.chans ::
           !end.chans[c].gaveUp && (end.chans[c].activated ==> TornDownOnce(end.chans[c])))
  {
    var end := run[|run| - 1];
    RunInv(run, max, |run| - 1);
    forall c <- end.chans
      ensures end.chans[c].registered <==> LeftBehind(end.chans[c])
      ensures !end.halved ==> !end.chans[c].gaveUp && (end.chans[c].activated ==> TornDownOnce(end.chans[c]))
    {
      QuiescentChan(end, c);
    }
    hide Inv, LeftBehind, TornDownOnce;
    assert Where(end.chans, IsCounted) == {} && Where(end.chans, IsHookGot) == {} && Where(end.exts, IsGotIt) == {};
    assert Registered(end.chans) == Where(end.chans, IsRegistered);
    if forall c <- end.chans :: !end.chans[c].hookEarly && !end.chans[c].gaveUp {
      forall c <- end.chans
        ensures !end.chans[c].registered
      {
        NotLeftBehind(end.chans[c]);
      }
      assert Registered(end.chans) == {};
    }
  }

  lemma NotLeftBehind(x: Chan)
    ensures !x.hookEarly && !x.gaveUp ==> !LeftBehind(x)
  {
  }

  /** Closed, released and counted down once; counted down unless it was left behind. */
  predicate TornDownOnce(x: Chan) {
    x.bits == INACTIVE && x.spawned == 1 && x.released == 1 && x.decs == One(!x.registered)
  }

  lemma QuiescentChan(end: State, c: Ch)
    requires Inv(end) && Quiescent(end) && c in end.chans
    ensures end.chans[c].registered <==> LeftBehind(end.chans[c])
    ensures !end.halved ==> !end.chans[c].gaveUp && (end.chans[c].activated ==> TornDownOnce(end.chans[c]))
  {
    var x := end.chans[c];
    assert ChanOk(x, c, end);
    if x.rescuer.Some? {
      assert ExtOk(x.rescuer.value, end.exts[x.rescuer.value].pc, x, end.halved);
    }
    if x.remover.ByThread? {
      assert ExtOk(x.remover.t, end.exts[x.remover.t].pc, x, end.halved);
    }
  }

  /** Exactly-once teardown, in every reachable state and without any assumption on the closers. */
  lemma ExactlyOnce(run: seq<State>, max: nat, i: nat, c: Ch)
    requires IsRun(run, max) && i < |run| && c in run[i].chans
    ensures var x := run[i].chans[c];
      && x.spawned <= 1 && x.released <= x.spawned && x.decs <= 1
      && (x.decs == 1 ==> x.stored && !x.registered)
      && (x.bits != INACTIVE ==> x.activated && x.spawned == 0)
  {
    RunInv(run, max, i);
    assert ChanOk(run[i].chans[c], c, run[i]);
  }

  /** After the one activation the state bits only ever shrink. */
  lemma {:induction false} BitsOnlyShrink(run: seq<State>, max: nat, i: nat, j: nat, c: Ch)
    requires IsRun(run, max) && i <= j < |run| && c in run[i].chans && run[i].chans[c].activated
    ensures c in run[j].chans && run[j].chans[c].activated && Has(run[i].chans[c].bits, run[j].chans[c].bits)
    decreases j - i
  {
    hide Inv, Balanced, Next, Enabled;
    if i < j {
      BitsOnlyShrink(run, max, i, j - 1, c);
      RunInv(run, max, j - 1);
      assert IsStep(run[j - 1], run[j], max);
      var a :| Enabled(run[j - 1], a) && run[j] == Next(run[j - 1], a, max);
      StepShrinks(run[j - 1], a, max, c);
    }
  }

  lemma HasAll(b: Bits)
    ensures Has(b, b)
  {
  }

  lemma StepShrinks(st: State, a: Action, max: nat, c: Ch)
    requires Inv(st) && Enabled(st, a) && c in st.chans && st.chans[c].activated
    ensures var st' := Next(st, a, max);
      c in st'.chans && st'.chans[c].activated && Has(st.chans[c].bits, st'.chans[c].bits)
  {
    hide ConnectNext, CloserNext, ExtNext, Progress, Once, Covered, TornDown, ExtOk, Has;
    assert ChanOk(st.chans[c], c, st);
    match a
    case Connect(d, hooksOk) =>
      HasAll(st.chans[c].bits);
      if d == c { ConnectLocal(st.chans[c], c, st.serving, st.range, st.count, max, hooksOk); }
    case Closer(d) =>
      HasAll(st.chans[c].bits);
      if d == c { CloserLocal(st.chans[c], c, st.range); }
    case Run(t) =>
      HasAll(st.chans[c].bits);
      if st.exts[t].ch == c { ExtLocal(t, st.exts[t].pc, st.chans[c], c, st.range, st.halved); }
    case _ => HasAll(st.chans[c].bits);
  }

  /** Conservation: in every reachable state the counter is the size of the map plus the threads
      between Inc and Store plus the threads between LoadAndDelete and Dec. */
  lemma CountConserved(run: seq<State>, max: nat, i: nat)
    requires IsRun(run, max) && i < |run|
    ensures run[i].count == |Registered(run[i].chans)| + |Where(run[i].chans, IsCounted)|
                          + |Where(run[i].chans, IsHookGot)| + |Where(run[i].exts, IsGotIt)|
  {
    RunInv(run, max, i);
    assert Registered(run[i].chans) == Where(run[i].chans, IsRegistered);
  }

  lemma NoneAdmitted(st: State)
    requires Initial(st)
    ensures |Where(st.chans, IsAdmitted)| == 0
  {
    assert Where(st.chans, IsAdmitted) == {};
  }

  /** Admission: with a limit and at most k connects in flight at any time, the counter never
      exceeds the limit by more than k. */
  lemma {:induction false} AdmissionBound(run: seq<State>, max: nat, k: nat, i: nat)
    requires IsRun(run, max) && i < |run| && max > 0
    requires forall j | 0 <= j <= i :: |Where(run[j].chans, IsInFlight)| <= k
    ensures run[i].count <= max + k && Bounded(run[i], max, k)
  {
    hide Inv, Balanced, Next, Enabled, Where;
    if i == 0 {
      NoneAdmitted(run[0]);
    } else {
      AdmissionBound(run, max, k, i - 1);
      RunInv(run, max, i - 1);
      var st, st' := run[i - 1], run[i];
      assert IsStep(st, st', max) && |Where(st'.chans, IsInFlight)| <= k;
      var a :| Enabled(st, a) && st' == Next(st, a, max);
      StepBounded(st, a, max, k);
    }
  }

  // ------------------------------------------------------------ who gets in

  /** A connect that has been turned away: it never gets as far as the activation. */
  predicate TurnedAway(x: Chan) {
    && !x.activated
    && (x.connect == Recheck(true) || x.connect.CloseLoad? || x.connect.CloseCas? || x.connect.Returned?)
  }

  /** A connect is turned away exactly if the transport is down when it arrives, if there is a limit and the
      counter exceeds it, or if a hook fails; otherwise it goes on, and the activation sets both bits. */
  lemma TurnedAwayExactly(run: seq<State>, max: nat, i: nat, c: Ch, hooksOk: bool)
    requires IsRun(run, max) && i < |run| && c in run[i].chans
    requires var pc := run[i].chans[c].connect; pc.Arrived? || pc.Limit? || pc.Admitted?
    ensures var st, x, x' := run[i], run[i].chans[c], Next(run[i], Connect(c, hooksOk), max).chans[c];
      && (TurnedAway(x') <==>
           || (x.connect.Arrived? && !st.serving)
           || (x.connect.Limit? && max > 0 && st.count > max)
           || (x.connect.Admitted? && !hooksOk))
      && (TurnedAway(x') || x' == x.(connect := Limit) || x' == x.(connect := Admitted)
          || x' == x.(connect := Active, activated := true, bits := Bits(true, true)))
  {
    RunInv(run, max, i);
    assert ChanOk(run[i].chans[c], c, run[i]);
  }

  /** The step belongs to a thread that works on channel c. */
  predicate WorksOn(st: State, a: Action, c: Ch) {
    a == Closer(c) || (a.Connect? && a.ch == c) || (a.Run? && a.t in st.exts && st.exts[a.t].ch == c)
  }

  lemma ConnectStaysAway(x: Chan, serving: bool, count: int, max: nat, hooksOk: bool)
    requires Once(x) && Progress(x) && TurnedAway(x)
    ensures var e := ConnectNext(x, serving, count, max, hooksOk);
      TurnedAway(e.chan) && e.delta == 0
  {
    hide OnceRemoved;
  }

  lemma CloserStaysAway(x: Chan)
    requires Once(x) && TurnedAway(x)
    ensures TurnedAway(CloserNext(x).chan) && CloserNext(x).delta == 0
  {
    hide OnceRemoved;
  }

  lemma ExtStaysAway(t: Tid, pc: ExtPc, x: Chan, halved: bool)
    requires Once(x) && Progress(x) && TurnedAway(x) && ExtOk(t, pc, x, halved)
    ensures var e := ExtNext(t, pc, x).1;
      TurnedAway(e.chan) && e.delta == 0
  {
  }

  lemma StepStaysAway(st: State, a: Action, max: nat, c: Ch)
    requires Inv(st) && Enabled(st, a) && c in st.chans && TurnedAway(st.chans[c])
    ensures var st' := Next(st, a, max);
      && c in st'.chans && TurnedAway(st'.chans[c])
      && (WorksOn(st, a, c) ==> st'.count == st.count)
  {
    hide Covered, TornDown, Once, Progress, ConnectNext, CloserNext, ExtNext, ExtOk;
    var x := st.chans[c];
    assert ChanOk(x, c, st);
    match a
    case Connect(d, hooksOk) =>
      if d == c { ConnectStaysAway(x, st.serving, st.count, max, hooksOk); }
    case Closer(d) =>
      if d == c { CloserStaysAway(x); }
    case Run(t) =>
      if st.exts[t].ch == c { ExtStaysAway(t, st.exts[t].pc, x, st.halved); }
    case _ =>
  }

  /** Over every run: a connect that was turned away is never activated, stored, registered or closed, and
      no step of any thread on its channel changes the counter. */
  lemma {:induction false} TurnedAwayStaysOut(run: seq<State>, max: nat, i: nat, j: nat, c: Ch)
    requires IsRun(run, max) && i <= j < |run| && c in run[i].chans && TurnedAway(run[i].chans[c])
    ensures c in run[j].chans && TurnedAway(run[j].chans[c])
    ensures var x := run[j].chans[c];
      !x.activated && !x.stored && !x.registered && x.bits == INACTIVE && x.spawned == 0 && x.decs == 0
    ensures forall a | Enabled(run[j], a) && WorksOn(run[j], a, c) :: Next(run[j], a, max).count == run[j].count
    decreases j - i
  {
    hide Next, Enabled, TurnedAway, Inv, Balanced;
    RunInv(run, max, j);
    if i < j {
      TurnedAwayStaysOut(run, max, i, j - 1, c);
      RunInv(run, max, j - 1);
      assert IsStep(run[j - 1], run[j], max);
      var a :| Enabled(run[j - 1], a) && run[j] == Next(run[j - 1], a, max);
      StepStaysAway(run[j - 1], a, max, c);
    }
    AwayMeansOut(run[j], c);
    forall a | Enabled(run[j], a) && WorksOn(run[j], a, c)
      ensures Next(run[j], a, max).count == run[j].count
    {
      StepStaysAway(run[j], a, max, c);
    }
  }

  lemma AwayMeansOut(st: State, c: Ch)
    requires Inv(st) && c in st.chans && TurnedAway(st.chans[c])
    ensures var x := st.chans[c];
      !x.activated && !x.stored && !x.registered && x.bits == INACTIVE && x.spawned == 0 && x.decs == 0
  {
    assert ChanOk(st.chans[c], c, st);
  }

  // ------------------------------------------------------------ who clears which bit

  predicate Bit(b: Bits, reading: bool) {
    if reading then b.readable else b.writeable
  }

  /** The step closes channel c, or is a half-close of it that names the bit. */
  predicate MayClear(st: State, a: Action, st': State, c: Ch, reading: bool) {
    && c in st.chans && c in st'.chans
    && ((st.chans[c].spawned == 0 && st'.chans[c].spawned == 1)
        || (a.Run? && a.t in st.exts && st.exts[a.t].ch == c
            && st.exts[a.t].pc.HalfCas? && Bit(st.exts[a.t].pc.mask, reading)))
  }

  lemma ConnectClears(x: Chan, serving: bool, count: int, max: nat, hooksOk: bool, reading: bool)
    requires Once(x) && Progress(x) && Bit(x.bits, reading)
    ensures var x' := ConnectNext(x, serving, count, max, hooksOk).chan;
      !Bit(x'.bits, reading) ==> x.spawned == 0 && x'.spawned == 1
  {
    hide OnceRemoved;
  }

  lemma CloserClears(x: Chan, reading: bool)
    requires Once(x) && Bit(x.bits, reading)
    ensures Bit(CloserNext(x).chan.bits, reading)
  {
    hide OnceRemoved;
  }

  lemma ExtClears(t: Tid, pc: ExtPc, x: Chan, reading: bool)
    requires Once(x) && Bit(x.bits, reading)
    ensures var x' := ExtNext(t, pc, x).1.chan;
      !Bit(x'.bits, reading) ==> (x.spawned == 0 && x'.spawned == 1) || (pc.HalfCas? && Bit(pc.mask, reading))
  {
    hide OnceRemoved;
  }

  lemma StepClears(st: State, a: Action, max: nat, c: Ch, reading: bool)
    requires Inv(st) && Enabled(st, a) && c in st.chans && Bit(st.chans[c].bits, reading)
    ensures var st' := Next(st, a, max);
      c in st'.chans && (!Bit(st'.chans[c].bits, reading) ==> MayClear(st, a, st', c, reading))
  {
    hide Covered, TornDown, Once, Progress, ConnectNext, CloserNext, ExtNext, Bit;
    assert ChanOk(st.chans[c], c, st);
    match a
    case Connect(d, hooksOk) =>
      if d == c { ConnectClears(st.chans[c], st.serving, st.count, max, hooksOk, reading); }
    case Closer(d) =>
      if d == c { CloserClears(st.chans[c], reading); }
    case Run(t) =>
      if st.exts[t].ch == c { ExtClears(t, st.exts[t].pc, st.chans[c], reading); }
    case _ =>
  }

  /** Over every run: a bit that is set and later is not was cleared by a close or by a half-close that names
      it; a half-close of one side leaves the other alone. */
  lemma {:induction false} BitClearedBy(run: seq<State>, max: nat, i: nat, j: nat, c: Ch, reading: bool)
    requires IsRun(run, max) && i <= j < |run| && c in run[i].chans && Bit(run[i].chans[c].bits, reading)
    ensures c in run[j].chans
    ensures Bit(run[j].chans[c].bits, reading) ||
      exists k, a :: i <= k < j && Enabled(run[k], a) && run[k + 1] == Next(run[k], a, max)
        && MayClear(run[k], a, run[k + 1], c, reading)
    decreases j - i
  {
    hide Next, Enabled, MayClear, Inv, Balanced;
    if i < j {
      BitClearedBy(run, max, i, j - 1, c, reading);
      RunInv(run, max, j - 1);
      assert IsStep(run[j - 1], run[j], max);
      var a :| Enabled(run[j - 1], a) && run[j] == Next(run[j - 1], a, max);
      if Bit(run[j - 1].chans[c].bits, reading) {
        StepClears(run[j - 1], a, max, c, reading);
      } else {
        StepKeepsChan(run[j - 1], a, max, c);
      }
    }
  }

  lemma StepKeepsChan(st: State, a: Action, max: nat, c: Ch)
    requires Enabled(st, a) && c in st.chans
    ensures c in Next(st, a, max).chans
  {
    hide ConnectNext, CloserNext, ExtNext;
  }

  /** A half-close that finds the bits as it loaded them clears exactly the bits it names, and changes
      nothing else of the channel; and a half-close only ever ends with one of its bits clear. */
  lemma HalfCloseExactly(st: State, t: Tid, max: nat)
    requires Enabled(st, Run(t)) && (st.exts[t].pc.HalfLoad? || st.exts[t].pc.HalfCas?)
    ensures var st', pc := Next(st, Run(t), max), st.exts[t].pc;
      var x, x' := st.chans[st.exts[t].ch], st'.chans[st.exts[t].ch];
      && x' == x.(bits := x'.bits) && st'.count == st.count
      && (if pc.HalfCas? && x.bits == pc.seen then
            && x'.bits.readable == (x.bits.readable && !pc.mask.readable)
            && x'.bits.writeable == (x.bits.writeable && !pc.mask.writeable)
          else x'.bits == x.bits)
      && (st'.exts[t].pc.Done? ==>
            (pc.mask.readable && !x'.bits.readable) || (pc.mask.writeable && !x'.bits.writeable) || pc.mask == INACTIVE)
  {
  }

  // ------------------------------------------------------------ channels that are left behind

  /** A run grows by one step. */
  lemma Extend(run: seq<State>, a: Action, max: nat) returns (run': seq<State>)
    requires IsRun(run, max) && Enabled(run[|run| - 1], a)
    ensures IsRun(run', max) && run' == run + [Next(run[|run| - 1], a, max)]
  {
    run' := run + [Next(run[|run| - 1], a, max)];
    forall i | 0 <= i < |run'| - 1
      ensures IsStep(run'[i], run'[i + 1], max)
    {
      if i < |run| - 1 { assert IsStep(run[i], run[i + 1], max); }
    }
  }

  function Last(run: seq<State>): (st: State)
    requires run != []
  {
    run[|run| - 1]
  }

  /** Channel 0 is the only one and looks like `x`. */
  ghost predicate Alone(run: seq<State>, x: Chan) {
    run != [] && IsRun(run, 0) && Last(run).chans.Keys == {0} && Last(run).chans[0] == x
  }

  lemma ExtendConnect(run: seq<State>, x: Chan) returns (run': seq<State>)
    requires Alone(run, x)
    ensures var e := ConnectNext(x, Last(run).serving, Last(run).count, 0, true);
      && Alone(run', e.chan)
      && Last(run') == Last(run).(chans := Last(run').chans, count := Last(run).count + e.delta,
                                  halved := Last(run).halved || e.halved)
  {
    run' := Extend(run, Connect(0, true), 0);
  }

  lemma ExtendCloser(run: seq<State>, x: Chan) returns (run': seq<State>)
    requires Alone(run, x) && !x.closer.HookGot? && !x.closer.HookCas?
    ensures Alone(run', CloserNext(x).chan) && Last(run') == Last(run).(chans := Last(run').chans)
  {
    run' := Extend(run, Closer(0), 0);
  }

  /** A new thread is started on channel 0 and takes its first two steps. */
  lemma ExtendThread(run: seq<State>, x: Chan, t: Tid, pc: ExtPc) returns (run': seq<State>)
    requires Alone(run, x) && t !in Last(run).exts && Starts(pc)
    ensures var (pc1, e1) := ExtNext(t, pc, x);
      var (pc2, e2) := ExtNext(t, pc1, e1.chan);
      && Alone(run', e2.chan)
      && Last(run') == Last(run).(chans := Last(run').chans, exts := Last(run).exts[t := Ext(0, pc2)],
                                  count := Last(run).count + e1.delta + e2.delta,
                                  halved := Last(run).halved || e1.halved || e2.halved)
  {
    hide ExtNext;
    run' := Extend(run, Spawn(t, 0, pc), 0);
    run' := Extend(run', Run(t), 0);
    run' := Extend(run', Run(t), 0);
  }

  /** Shutdown while nothing is in the map: the range sees no channel. */
  lemma ExtendShutdown(run: seq<State>, x: Chan) returns (run': seq<State>)
    requires Alone(run, x) && Last(run).serving && Last(run).range.Before? && !x.registered
    ensures Alone(run', x) && Last(run') == Last(run).(serving := false, range := After)
  {
    run' := Extend(run, Shutdown, 0);
    assert Registered(Last(run').chans) == {};
    run' := Extend(run', StartRange, 0);
    run' := Extend(run', EndRange, 0);
  }

  const ACTIVE_CHAN := Chan(Active, READ_WRITE, true, false, NotStarted, 0, 0, false, Nobody, 0, None, false, false)

  lemma UntilActive() returns (run: seq<State>)
    ensures Alone(run, ACTIVE_CHAN)
    ensures Last(run) == State(true, Before, 0, Last(run).chans, map[], false)
  {
    run := [State(true, Before, 0, map[], map[], false)];
    run := Extend(run, Arrive(0), 0);
    assert Alone(run, NEW_CHAN);
    run := ExtendConnect(run, NEW_CHAN);
    run := ExtendConnect(run, NEW_CHAN.(connect := Limit));
    run := ExtendConnect(run, NEW_CHAN.(connect := Admitted));
  }

  const CLOSED_EARLY := Chan(Active, INACTIVE, true, false, Finished, 1, 1, false, Nobody, 0, None, true, false)

  /** A thread closes the channel before it is counted, and the closing goroutine runs to its end. */
  lemma UntilClosedEarly() returns (run: seq<State>)
    ensures Alone(run, CLOSED_EARLY)
    ensures Last(run) == State(true, Before, 0, Last(run).chans, map[0 := Ext(0, Done)], false)
  {
    hide IsRun;
    run := UntilActive();
    run := ExtendThread(run, ACTIVE_CHAN, 0, ExtLoad);
    run := ExtendCloser(run, CLOSED_EARLY.(closer := WaitTasks, released := 0, hookEarly := false));
    run := ExtendCloser(run, CLOSED_EARLY.(closer := Hook, released := 0, hookEarly := false));
    run := ExtendCloser(run, CLOSED_EARLY.(closer := Release, released := 0));
  }

  /** A close before the store: the closing goroutine deregisters nothing, the store comes later,
      and the deferred close finds the channel inactive.  The channel stays in the map. */
  lemma EarlyCloseLeaks() returns (run: seq<State>)
    ensures IsRun(run, 0) && Quiescent(Last(run)) && !Last(run).halved
    ensures Last(run).count == 1 && 0 in Registered(Last(run).chans) && Last(run).chans[0].hookEarly
  {
    hide IsRun;
    var x := CLOSED_EARLY;
    run := UntilClosedEarly();
    run := ExtendShutdown(run, x);
    run := ExtendConnect(run, x);
    run := ExtendConnect(run, x.(connect := Counted));
    x := x.(stored := true, registered := true);
    run := ExtendConnect(run, x.(connect := Recheck(false)));
    run := ExtendConnect(run, x.(connect := CloseLoad));
  }

  const STORED_CHAN := ACTIVE_CHAN.(connect := CloseLoad, stored := true, registered := true)

  /** Shutdown before the store: the range misses the channel, which is about to be closed by the
      deferred close of its OnConnect. */
  lemma UntilDeferredClose() returns (run: seq<State>)
    ensures Alone(run, STORED_CHAN)
    ensures Last(run) == State(false, After, 1, Last(run).chans, map[], false)
  {
    hide IsRun;
    var x := ACTIVE_CHAN;
    run := UntilActive();
    run := ExtendShutdown(run, x);
    run := ExtendConnect(run, x);
    run := ExtendConnect(run, x.(connect := Counted));
    run := ExtendConnect(run, STORED_CHAN.(connect := Recheck(false)));
  }

  /** A half-close between the deferred close's load and its compare-and-swap: the close gives up
      and the channel stays in the map. */
  lemma HalfCloseLeaks() returns (run: seq<State>)
    ensures IsRun(run, 0) && Quiescent(Last(run))
    ensures Last(run).count == 1 && 0 in Registered(Last(run).chans)
    ensures Last(run).chans[0].gaveUp && Last(run).chans[0].bits == Bits(false, true)
  {
    hide IsRun;
    run := UntilDeferredClose();
    run := ExtendConnect(run, STORED_CHAN);
    var x := STORED_CHAN.(connect := CloseCas(READ_WRITE));
    run := ExtendThread(run, x, 0, HalfLoad(Bits(true, false)));
    run := ExtendConnect(run, x.(bits := Bits(false, true)));
  }

  /** Both halves closed before the deferred close's load: the state bits say inactive, so the close
      gives up, although no closing goroutine was ever started. */
  lemma BothHalvesLeak() returns (run: seq<State>)
    ensures IsRun(run, 0) && Quiescent(Last(run))
    ensures Last(run).count == 1 && 0 in Registered(Last(run).chans)
    ensures Last(run).chans[0].gaveUp && Last(run).chans[0].bits == INACTIVE && Last(run).chans[0].spawned == 0
  {
    hide IsRun;
    run := UntilDeferredClose();
    var x := STORED_CHAN;
    run := ExtendThread(run, x, 0, HalfLoad(Bits(true, false)));
    run := ExtendThread(run, x.(bits := Bits(false, true)), 1, HalfLoad(Bits(false, true)));
    run := ExtendConnect(run, x.(bits := INACTIVE));
  }

  // ------------------------------------------------------------ the admission bound is sharp

  predicate OthersReturned(st: State, c: Ch) {
    forall d <- st.chans :: d != c ==> st.chans[d].connect.Returned?
  }

  ghost predicate OneAtATime(run: seq<State>) {
    forall j | 0 <= j < |run| :: |Where(run[j].chans, IsInFlight)| <= 1
  }

  lemma ExtendAlone(run: seq<State>, a: Action, c: Ch, max: nat) returns (run': seq<State>)
    requires run != [] && IsRun(run, max) && OneAtATime(run)
    requires Enabled(Last(run), a) && OthersReturned(Next(Last(run), a, max), c)
    ensures run' != [] && IsRun(run', max) && OneAtATime(run') && Last(run') == Next(Last(run), a, max)
  {
    run' := Extend(run, a, max);
    Subset(Where(Last(run').chans, IsInFlight), {c});
  }

  /** Channel c goes through a whole OnConnect under the limit while the others have returned. */
  lemma ConnectAlone(run: seq<State>, c: Ch, max: nat) returns (run': seq<State>)
    requires run != [] && IsRun(run, max) && OneAtATime(run)
    requires c !in Last(run).chans && OthersReturned(Last(run), c)
    requires Last(run).serving && 0 <= Last(run).count && (max == 0 || Last(run).count <= max)
    ensures run' != [] && IsRun(run', max) && OneAtATime(run')
    ensures Last(run').serving && Last(run').count == Last(run).count + 1
    ensures Last(run').chans.Keys == Last(run).chans.Keys + {c} && OthersReturned(Last(run'), c)
    ensures Last(run').chans[c].connect.Returned?
  {
    hide IsRun, OneAtATime, Where;
    run' := ExtendAlone(run, Arrive(c), c, max);
    var k := 0;
    while k < 6
      invariant 0 <= k <= 6 && run' != []
      invariant IsRun(run', max) && OneAtATime(run') && Last(run').serving && OthersReturned(Last(run'), c)
      invariant Last(run').chans.Keys == Last(run).chans.Keys + {c}
      invariant Last(run').chans[c].connect == [Arrived, Limit, Admitted, Active, Counted, Recheck(false), Returned][k]
      invariant Last(run').count == Last(run).count + One(k > 3)
    {
      run' := ExtendAlone(run', Connect(c, true), c, max);
      k := k + 1;
    }
  }

  /** One connect at a time takes the counter to any value up to the limit plus one: the limit is
      tested with a strict comparison before the increment.  Without a limit any value is reached. */
  lemma {:induction false} LimitOvershot(max: nat, n: nat) returns (run: seq<State>)
    requires max == 0 || n <= max + 1
    ensures IsRun(run, max) && OneAtATime(run) && Last(run).serving && Last(run).count == n
    ensures forall c <- Last(run).chans :: c < n && Last(run).chans[c].connect.Returned?
    decreases n
  {
    if n == 0 {
      run := [State(true, Before, 0, map[], map[], false)];
      assert Where(run[0].chans, IsInFlight) == {};
    } else {
      run := LimitOvershot(max, n - 1);
      run := ConnectAlone(run, n - 1, max);
    }
  }

  /** Never more than k connects are in flight. */
  ghost predicate AtMost(run: seq<State>, k: nat) {
    forall j | 0 <= j < |run| :: |Where(run[j].chans, IsInFlight)| <= k
  }

  ghost function InFlight(run: seq<State>): (n: nat)
    requires run != []
  {
    |Where(Last(run).chans, IsInFlight)|
  }

  /** The connect of channel c takes one step, and afterwards it is at `pc`. */
  lemma ConnectStep(run: seq<State>, c: Ch, max: nat, k: nat, pc: ConnectPc) returns (run': seq<State>)
    requires IsRun(run, max) && AtMost(run, k) && Last(run).serving && c in Last(run).chans
    requires !Last(run).chans[c].connect.Returned? && !pc.Returned?
    requires ConnectNext(Last(run).chans[c], true, Last(run).count, max, true).chan.connect == pc
    ensures IsRun(run', max) && AtMost(run', k) && Last(run').serving && InFlight(run') == InFlight(run)
    ensures Last(run').count
         == Last(run).count + ConnectNext(Last(run).chans[c], true, Last(run).count, max, true).delta
    ensures Last(run').chans.Keys == Last(run).chans.Keys && Last(run').chans[c].connect == pc
    ensures forall d <- Last(run).chans :: d != c ==> Last(run').chans[d] == Last(run).chans[d]
  {
    hide ConnectNext, Where;
    var st := Last(run);
    run' := Extend(run, Connect(c, true), max);
    WhereUpdate(st.chans, c, ConnectNext(st.chans[c], true, st.count, max, true).chan, IsInFlight);
  }

  /** Channel c arrives and is admitted, up to just before its increment. */
  lemma ArriveAndAdmit(run: seq<State>, c: Ch, max: nat, k: nat) returns (run': seq<State>)
    requires IsRun(run, max) && AtMost(run, k) && Last(run).serving && c !in Last(run).chans
    requires Last(run).count <= max && InFlight(run) < k
    ensures IsRun(run', max) && AtMost(run', k) && Last(run').serving && InFlight(run') == InFlight(run) + 1
    ensures Last(run').count == Last(run).count && Last(run').chans.Keys == Last(run).chans.Keys + {c}
    ensures Last(run').chans[c].connect.Active?
    ensures forall d <- Last(run).chans :: Last(run').chans[d] == Last(run).chans[d]
  {
    hide IsRun, AtMost, InFlight;
    run' := ArriveStep(run, c, max, k);
    run' := ConnectStep(run', c, max, k, Limit);
    run' := ConnectStep(run', c, max, k, Admitted);
    run' := ConnectStep(run', c, max, k, Active);
  }

  lemma ArriveStep(run: seq<State>, c: Ch, max: nat, k: nat) returns (run': seq<State>)
    requires IsRun(run, max) && AtMost(run, k) && c !in Last(run).chans && InFlight(run) < k
    ensures IsRun(run', max) && AtMost(run', k) && InFlight(run') == InFlight(run) + 1
    ensures Last(run') == Last(run).(chans := Last(run).chans[c := NEW_CHAN])
  {
    hide Where;
    run' := Extend(run, Arrive(c), max);
    WhereUpdate(Last(run).chans, c, NEW_CHAN, IsInFlight);
  }

  /** The counter is at the limit and i connects have passed the test but not counted themselves. */
  ghost predicate Waiting(run: seq<State>, max: nat, i: nat) {
    && run != [] && IsRun(run, max) && Last(run).serving && Last(run).count == max && InFlight(run) == i
    && (forall c <- Last(run).chans :: c < max + i)
    && (forall c | max <= c < max + i :: c in Last(run).chans && Last(run).chans[c].connect.Active?)
  }

  lemma {:induction false} AdmitMany(max: nat, k: nat, i: nat) returns (run: seq<State>)
    requires i <= k && k >= 1
    ensures Waiting(run, max, i) && AtMost(run, k)
    decreases i
  {
    if i == 0 {
      run := LimitOvershot(max, max);
      assert Where(Last(run).chans, IsInFlight) == {};
    } else {
      run := AdmitMany(max, k, i - 1);
      run := ArriveAndAdmit(run, max + i - 1, max, k);
    }
  }

  /** The first i of them count themselves. */
  lemma {:induction false} CountMany(max: nat, k: nat, i: nat) returns (run: seq<State>)
    requires i <= k && k >= 1
    ensures run != [] && IsRun(run, max) && AtMost(run, k) && Last(run).serving && Last(run).count == max + i
    ensures forall c | max + i <= c < max + k :: c in Last(run).chans && Last(run).chans[c].connect.Active?
    decreases i
  {
    if i == 0 {
      run := AdmitMany(max, k, k);
    } else {
      run := CountMany(max, k, i - 1);
      run := ConnectStep(run, max + i - 1, max, k, Counted);
    }
  }

  /** The admission bound is sharp: for every limit and every k, with at most k connects in flight the
      counter can reach the limit plus k. */
  lemma BoundReached(max: nat, k: nat) returns (run: seq<State>)
    requires k >= 1
    ensures IsRun(run, max) && AtMost(run, k) && Last(run).count == max + k
  {
    run := CountMany(max, k, k);
  }
}
