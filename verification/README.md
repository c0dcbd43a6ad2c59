# Verified models of Less

Less is a Go network framework. This project models its four hardest parts in Dafny and proves
what they promise, over all inputs and all runs:

- the hierarchical timing wheel, its intrusive ring lists and its stop protocol
  (`WheelMath`, `WheelSpec`, `TimeWheel`, `RingList`, `StopProtocol`);
- the connection lifecycle shared by the transport handler and its channels (`Lifecycle`);
- the keepalive health loop, alone and on the wheel (`Keepalive`, `KeepaliveOnWheel`);
- packet framing over growable, aliasing buffers (`Bytes`, `Doubling`, `BufferReader`, `LimitReader`,
  `BufferWriter`, `Payload`, `VarLength`, `FixedLength`, `Delimiter`, `Handler`);
  `Common` holds what they share.

`dafny verify dfyconfig.toml` checks everything.

## How the parts are modelled

**Timing wheel.** `TimeWheel.Wheel` is the wheel with its list heads, nodes, versions and loops. Each
method is proved against `WheelSpec`, a plain set of pending timers with a tick counter and a history
of what fired when; `Execute` does so for every sequence of calls in which a timer is new when it is
inserted and stopped at most once. The link is the *due* tick of a linked timer, a function of its
slot, its expiry and the current tick only: re-filing a slot and passing a tick do not change it. It
is defined for every timer, also for one that the wheel files too late (fires at the next drain of
its near slot) or behind its own back (never fires), so the refinement needs no assumption that
timers are on time. Shifts and masks of 64-bit ticks are divisions and remainders; the subtraction
that can wrap is written with its wrap. Ticks stay below 2^62 and a Duration below 2^63 ns, which
keeps expiries below 2^63; delays are not negative. One tick is one step. Nodes and list heads are
identities, the heads below zero.

**Ring lists.** References are identities and `Lists` holds the `Next`, `Prev` and `len` columns of
all of them, so that writing a link through one ring is visible in every other. The wheel's slots are
rings of one such store, and its walks over detached lists follow the links.

**Stop protocol.** Every access of `lockPushBack`, of `Stop` and of the wheel's check and submit is a
step of its own and interleaves with the wheel detaching slots. A slot is drained fewer than 2^32
times and a node stopped at most once; `SecondStopHarmlessIffDrained` and the lemmas on second deletes
in `RingList` say what a second stop does.

**Lifecycle.** Small steps, one per atomic access, with a program counter per thread: one OnConnect
and one closing goroutine per channel, any number of threads calling `closeChannel`, `Close`,
`CloseReader` or `CloseWriter` at any time, and shutdown with its range over the map. A key that is
in the map when the range starts is visited unless it is deleted first; later keys may be missed.
`ch.close(inactive)` inside `Close` masks nothing and changes nothing.

**Keepalive.** A monotone clock. A timer runs less than 10 ms plus the gap between two clock readings
away from its time; `KeepaliveOnWheel` puts the keeper and the wheel into one system and proves that,
and `WheelSpec.FireWindow` states it for any timer. A callback starts as soon as it is submitted. The
write of a ping takes time, and the stamp is taken after it, as in the code. Whether the keeper's one
compare-and-swap wins is left open.

**Framing.** Arrays, windows into them, and readers and writers as objects. The connection is the
byte sequence still to come. Where a reader stands is a `Pos`, and what a read does to it is a
function, so that the outcome of every decoding, panics included, is determined for every stream. A
payload codec is the text codec, the LessMessage codec over it, or any script of limit-reader calls
with non-negative sizes. A loop that does not end is an outcome, `Hangs`.

## What the code does not do

Each of these is proved, with the exact condition where one exists.

- A periodic timer shorter than 10 ms fires once and never again (`WheelSpec.InsertedFiresExactly`).
- A timer whose push is overtaken by ticks fires on time if and only if its slot is drained again by
  its expiry (`WheelMath.StaleDue`); otherwise it is late or lost.
- Stopping a timer twice is harmless if and only if its slot was drained after the first stop unlinked
  it (`StopProtocol.SecondStopHarmlessIffDrained`); otherwise other timers of the slot can be lost
  (`RingList.StopTwiceLosesNode`).
- A stop between the wheel's check and its submit does not prevent the callback
  (`StopProtocol.StoppedButFired`).
- A channel stays in the map for ever if and only if its closing goroutine looked for it before the
  store, or its deferred close gave up, and nobody else found it (`Lifecycle.ShutdownQuiescence`;
  three such runs are `EarlyCloseLeaks`, `HalfCloseLeaks` and `BothHalvesLeak`).
- A keeper that loses its compare-and-swap never closes its channel (`Keepalive.LostCloseIsFinal`).
- A pong that arrives before its ping is stamped does not count (`Keepalive.FastPongTimesOut`).
- A variable-length message survives if and only if it fits 251 bytes: a growing writer leaves the
  patched header behind in the old array (`VarLength.RoundTrip`).
- A reader that is not full may not grow enough. A new one panics on bodies of 252 to 502, 508 to 758,
  1020 to 1270 bytes and so on (`VarLength.TextBody`), and on fixed lengths of 257 to 768, 1025 to 1280
  and so on (`FixedLength.LengthTaken`).
- A frame of exactly 2^32 bytes passes every receive limit, because its length is taken modulo 2^32; it
  is the only one (`Handler.LimitEscaped`, `Handler.EscapingFrame`).
- A writer that is used again after a flush that emptied a full buffer hangs on the next write
  (`BufferWriter.SecondWrite`).
- The channel limit is tested with `>` before the increment, so even one connect at a time takes the
  counter to the limit plus one (`Lifecycle.LimitOvershot`), and k of them to the limit plus k
  (`Lifecycle.BoundReached`), which `Lifecycle.AdmissionBound` shows to be the most.

Where code and comments differ the model follows the code: the comment on `HealthParams.Timeout`
speaks of read activity after a ping, the code looks for a pong newer than the ping
(keepalive/keepalive.go:35-37, internal/keepalive/keepliave.go:238-246).

## Model

| member | source | states |
|---|---|---|
| WheelMath.FiledOnTime | internal/timewheel/time_wheel.go:87-126 | a timer that has not expired lands in a slot whose next drain is the expiry itself (near), or the aligned boundary of the clamped expiry, after the current tick and not after the expiry (level) |
| WheelMath.SlotSpelledOut | internal/timewheel/time_wheel.go:87-116 | for every distance which of the 256 near slots or of the four levels of 64 is chosen, with all widths and the clamp spelled out in numbers |
| WheelMath.FiledBehind | internal/timewheel/time_wheel.go:91-108 | a timer whose expiry has passed wraps around and is parked in the highest level, ahead of its expiry for good |
| WheelMath.NextDrainIsFirst | internal/timewheel/time_wheel.go:204-228 | the next drain of a slot drains it and nothing before does |
| WheelMath.RefileKeepsDue | internal/timewheel/time_wheel.go:167-190 | re-filing a drained level slot changes no due tick and never lands in a level slot that the same tick drains |
| WheelMath.TickKeepsDue | internal/timewheel/time_wheel.go:216-228 | a tick that does not drain a slot changes no due tick of its timers, and none of them is due at it |
| WheelMath.FreshDue | internal/timewheel/time_wheel.go:128-140 | filed with the current tick, a timer is due exactly at its expiry, or never if that has passed |
| WheelMath.StaleDue | internal/timewheel/time_wheel.go:128-140 | filed with a tick read earlier, a timer is due at its expiry if and only if its slot is drained again by then |
| WheelMath.StaleButInTime | internal/timewheel/time_wheel_node.go:39-50 | any number of ticks between reading jiffies and pushing is harmless while the slot's drain tick is unprocessed |
| WheelMath.StaleMiss | internal/timewheel/time_wheel.go:128-140 | one tick between read and push makes a zero-delay timer 256 ticks late |
| WheelMath.FarFutureShrinks | internal/timewheel/time_wheel.go:102-116 | a parked timer keeps its real expiry, each re-filing is strictly nearer to it and it is still due exactly then |
| WheelSpec.ExactFiring | internal/timewheel/time_wheel.go:196-255 | over every run that leaves a timer alone, inserts only new timers and stops each at most once, the ticks that fire the timer are exactly those its entry foretells, none early, late or missing |
| WheelSpec.InsertedFiresExactly | internal/timewheel/time_wheel.go:142-160 | for any stale or prompt insertion and any continuation: in time, it fires at the expiry and at every whole period after it without drift, a sub-tick period once; not in time, from a near slot first at the next drain and then every period, from a level slot never |
| WheelSpec.TimerFiresExactly | internal/timewheel/time_wheel.go:128-160 | a promptly inserted timer fires exactly at its expiry, a periodic one exactly at expiry plus multiples of its period |
| WheelSpec.StoppedNeverFires | internal/timewheel/time_wheel.go:237-239 | no tick after a stop fires the timer |
| WheelSpec.RunConsistent | internal/timewheel/time_wheel.go:196-281 | every run keeps all due ticks ahead of the tick counter and only extends the history |
| WheelSpec.ClockCoupling | internal/timewheel/time_wheel.go:258-281 | jiffies grow by the sum of the forward moves of the clock and by nothing else, and stay in step with the time point while the clock never steps back |
| WheelSpec.ClockSetBack | internal/timewheel/time_wheel.go:265-272 | a reading that is not ahead performs no tick: nothing fires, nothing moves, only the time point is set |
| WheelSpec.TicksSinceStart | internal/timewheel/time_wheel.go:60-73 | a wheel made in some slice has ticked once for every slice the clock has moved forward since |
| WheelSpec.FiresInFirstLateEnoughRun | internal/timewheel/time_wheel.go:258-281 | with non-decreasing readings a timer of d slices fires in the first run whose reading is at least d + 1 slices ahead, and in no other |
| WheelSpec.FireWindow | internal/timewheel/time_wheel.go:258-301 | in nanoseconds, over every run whose clock readings are at most `gap` apart: the run that fires a timer of any delay takes place less than one slice plus one gap before or after its time |
| WheelSpec.PendingWindow | internal/timewheel/time_wheel.go:258-301 | over the same runs, a timer that has not fired is overdue by less than one slice plus one gap |
| TimeWheel.Wheel.ChooseSlot | internal/timewheel/time_wheel.go:87-121 | the search over the levels always finds a head, so the panic is unreachable |
| TimeWheel.Wheel.Add | internal/timewheel/time_wheel.go:87-126 | a loose node ends up in exactly one ring, that of the slot its list field names, carrying that head's version; no other node moves and no link outside the rings is written |
| TimeWheel.Wheel.AfterFunc | internal/timewheel/time_wheel.go:128-140 | adds exactly one pending one-shot timer, also with a stale tick |
| TimeWheel.Wheel.ScheduleFunc | internal/timewheel/time_wheel.go:146-160 | adds exactly one pending periodic timer, also with a stale tick |
| TimeWheel.Wheel.StopTimer | internal/timewheel/time_wheel_node.go:72-87 | comparing the node's version with its list's unlinks a pending timer and leaves the rings alone for a fired one; that timer, and no other, leaves the pending set; the versions that decide it are kept by every other method |
| TimeWheel.Wheel.Cascade | internal/timewheel/time_wheel.go:167-190 | re-filing a drained list leaves the pending set unchanged, the slot empty, no node in a level slot drained by this tick, and every list as it was plus the nodes filed there, in order |
| TimeWheel.Wheel.Refile | internal/timewheel/list.go:88-98 | following the links of a detached list while its nodes are linked into other rings visits every node once, ends, and appends each node to the list it is filed in, in order |
| TimeWheel.Wheel.Detach | internal/timewheel/time_wheel.go:172-182 | a non-empty list moves to a private head, with its head's version bumped; an empty one is left alone |
| TimeWheel.Wheel.CascadeAll | internal/timewheel/time_wheel.go:204-214 | the cascade loop empties every level slot that the tick drains, at all levels, and changes no pending timer |
| TimeWheel.Wheel.MoveAndExec | internal/timewheel/time_wheel.go:196-255 | one tick fires exactly the pending timers due at it, each once, and re-arms exactly the periodic ones |
| TimeWheel.Wheel.ExecAll | internal/timewheel/time_wheel.go:233-253 | deleting each node from the walked ring and linking it elsewhere while following the links visits every node once, in order, and empties the ring |
| TimeWheel.Wheel.DrainNear | internal/timewheel/time_wheel.go:216-253 | the timers that fire are the drained list, in its order, and the periodic ones among them are appended to their lists in that order |
| TimeWheel.Wheel.Exec | internal/timewheel/time_wheel.go:233-253 | a fired timer is dropped or re-armed one period after the tick that fired it |
| TimeWheel.Wheel.RunTo | internal/timewheel/time_wheel.go:258-281 | a reading performs exactly the ticks the clock moved forward, none when it moved back |
| TimeWheel.Wheel.Execute | internal/timewheel/time_wheel.go:87-281 | every sequence of calls that inserts new timers and stops each at most once takes the wheel, with its rings and versions, where it takes the pending set |
| TimeWheel.Simulate | internal/timewheel/time_wheel.go:47-73 | the same from a new wheel on, whose heads are all empty rings |
| TimeWheel.DetachedAreDue | internal/timewheel/time_wheel.go:216-228 | after the cascades the drained near slot holds exactly the timers due now |
| TimeWheel.LevelDrained | internal/timewheel/time_wheel.go:83-85 | shifting and masking the tick names the one slot of a level that the tick drains |
| RingList.AppendRing | internal/timewheel/list.go:26-29 | linking before the head extends the ring's sequence at its end |
| RingList.RemoveRing | internal/timewheel/list.go:33-36 | bypassing a node removes exactly it, wherever it is in the ring |
| RingList.ReplaceRing | internal/timewheel/list.go:116-123 | a new head takes over the whole ring, the empty one included |
| RingList.DeleteSplices | internal/timewheel/list.go:33-36 | deleting through any links into a ring leaves a circle without everything between them and a counter one less; it is a ring if and only if exactly one node is in between |
| RingList.SecondDeleteLosesTail | internal/timewheel/list.go:33-36 | a node that was last when it was deleted, deleted again after others were appended: all of those are lost, and with one of them the counter agrees with the loss |
| RingList.StopTwiceLosesNode | internal/timewheel/list.go:26-36 | delete the only node, append another, delete the first again: the head is an empty ring with length zero and the other node is lost |
| RingList.AppendApart | internal/timewheel/list.go:168-173 | appending to one ring leaves all other rings of the store intact |
| RingList.RemoveApart | internal/timewheel/list.go:163-166 | deleting from one ring leaves all other rings of the store intact |
| RingList.ReplaceApart | internal/timewheel/list.go:125-128 | handing a ring over leaves all other rings of the store intact |
| RingList.Lists.Init | internal/timewheel/list.go:13-17 | a new head is an empty ring beside the others |
| RingList.Lists.AddTail | internal/timewheel/list.go:26-29 | the ring's sequence grows by the node at its end, len with it |
| RingList.Lists.Del | internal/timewheel/list.go:33-36 | the ring's sequence loses that node, len with it |
| RingList.Lists.ReplaceInit | internal/timewheel/list.go:125-128 | the new head has the sequence, the old one is empty |
| StopProtocol.VersionInjective | internal/timewheel/time_wheel_node.go:35-37 | with fewer than 2^32 drains a version number determines level, index and drain count |
| StopProtocol.VersionFields | internal/timewheel/time_wheel_node.go:20-37 | level, index and drain counter sit in the 16, 16 and 32 bits of a version, near slots being level 1 |
| StopProtocol.StepKeepsInv | internal/timewheel/time_wheel_node.go:39-87 | every step of every thread keeps the invariant that the current version of a list is carried by its members only |
| StopProtocol.StopUnlinksOnlyMembers | internal/timewheel/time_wheel_node.go:72-87 | over every interleaving a version match means the node is linked in that very list or was already unlinked by its stop, no delete ever hits a non-member and no node is in two lists |
| StopProtocol.CompareExactly | internal/timewheel/time_wheel_node.go:82-86 | over every run the comparison of a stop matches if and only if the node is a member of that list at that moment; otherwise the stop ends there and lets go of the list |
| StopProtocol.UndisturbedStop | internal/timewheel/time_wheel_node.go:72-87 | a stop of a linked node that nobody interferes with runs through its five steps and unlinks the node, and only it |
| StopProtocol.StopUnlinks | internal/timewheel/time_wheel_node.go:72-87 | a run from the start in which a stop unlinks a resting node |
| StopProtocol.StoppedIsNotRelinked | internal/timewheel/time_wheel_node.go:39-50 | once the flag is set, a node that is in no list and whose push has not passed its check is never linked again |
| StopProtocol.StoppedFiresAtMostOnceMore | internal/timewheel/time_wheel.go:233-243 | over every interleaving, once the flag is set a node is fired at most once more, and only if the wheel had passed its check of the flag at that moment |
| StopProtocol.StoppedButFired | internal/timewheel/time_wheel.go:237-243 | a run from the start in which a node is stopped before it has fired and fires all the same, its stop falling between check and submit |
| StopProtocol.PassedStillFires | internal/timewheel/time_wheel.go:237-243 | in every state in which a node has passed the check, setting its flag does not prevent the submit |
| StopProtocol.OneShotFiresOnce | internal/timewheel/time_wheel.go:233-253 | over every interleaving a one-shot node is fired at most once |
| StopProtocol.PeriodicFires | internal/timewheel/time_wheel.go:245-252 | for every k below 2^32 a run in which a periodic node fires k times |
| StopProtocol.OnlyDrainOrOwnStop | internal/timewheel/time_wheel_node.go:72-87 | over every run a node leaves a list only when the wheel drains the list or the node's own stop unlinks it |
| StopProtocol.SecondStopHarmlessIffDrained | internal/timewheel/time_wheel_node.go:72-87 | over every run, after a stop has unlinked a node it is in no list and unchanged for good, and one more stop deletes it again if and only if the list was not drained since |
| StopProtocol.ExtraStopDamages | internal/timewheel/time_wheel_node.go:72-87 | in every reachable state one more stop deletes a node that is not in its list if and only if an earlier stop unlinked it and the list's version is still the node's |
| Lifecycle.StepKeepsInv | internal/trans/trans_handler.go:101-266 | every step of every thread keeps the lifecycle invariant |
| Lifecycle.ShutdownQuiescence | internal/trans/trans_handler.go:216-251 | once all threads have finished after shutdown, a channel is in the map if and only if its closing goroutine looked before the store or its deferred close gave up, and nobody's LoadAndDelete found it; the counter is the number of those; without half-closes every activated channel was torn down exactly once |
| Lifecycle.ExactlyOnce | internal/channel/channel.go:102-155 | in every reachable state a channel was closed at most once, released at most once and counted down at most once |
| Lifecycle.BitsOnlyShrink | internal/channel/channel.go:243-258 | after the one activation the state bits only ever shrink |
| Lifecycle.BitClearedBy | internal/channel/channel.go:86-107 | over every run a state bit that was set and is not any more was cleared by a close or by a half-close that names it |
| Lifecycle.HalfCloseExactly | internal/channel/channel.go:243-258 | a half-close clears exactly the bits it names, changes nothing else of the channel, and only ever ends with one of them clear |
| Lifecycle.CountConserved | internal/trans/trans_handler.go:137-139 | the counter is the map size plus the threads between Inc and Store plus those between LoadAndDelete and Dec |
| Lifecycle.AdmissionBound | internal/trans/trans_handler.go:124-141 | with at most k connects in flight the counter never exceeds the limit by more than k |
| Lifecycle.TurnedAwayExactly | internal/trans/trans_handler.go:103-135 | over every run a connect is turned away exactly if the transport is down when it arrives, if there is a limit and the counter exceeds it, or if a hook fails; otherwise it goes on, and activation sets both bits |
| Lifecycle.TurnedAwayStaysOut | internal/trans/trans_handler.go:107-139 | over every run a connect that was turned away is never activated, stored, registered or closed, and no step on its channel changes the counter |
| Lifecycle.LimitOvershot | internal/trans/trans_handler.go:124-139 | for every limit, a run with one connect in flight at a time that takes the counter to any value up to the limit plus one, and without a limit to any value at all |
| Lifecycle.BoundReached | internal/trans/trans_handler.go:124-139 | for every limit and every k, a run with at most k connects in flight that takes the counter to the limit plus k |
| Lifecycle.StepBalanced | internal/trans/trans_handler.go:253-266 | no step of any thread breaks the conservation of the counter |
| Lifecycle.EarlyCloseLeaks | internal/trans/trans_handler.go:107-120 | a run in which the closing goroutine deregisters before the store and the dead channel stays in the map for good |
| Lifecycle.HalfCloseLeaks | internal/channel/channel.go:104-107 | a run in which a half-close between load and compare-and-swap makes the deferred close give up and the channel stays |
| Lifecycle.BothHalvesLeak | internal/channel/channel.go:86-107 | a run in which both half-closes before the deferred load leave the channel inactive, in the map and without a closing goroutine |
| Keepalive.Keeper.Health | internal/keepalive/keepliave.go:217-262 | the callback on the keeper's fields is one step of the state machine of the theorems |
| Keepalive.Keeper.FinishPing | internal/keepalive/keepliave.go:253-260 | the end of the callback stamps and re-arms, or closes, as the state machine does |
| Keepalive.Keeper.Stop | internal/keepalive/keepliave.go:275-288 | stopping makes the keeper done, closes the channel once if the compare-and-swap wins, and changes nothing when the keeper was done |
| Keepalive.Drive | internal/keepalive/keepliave.go:213-288 | a keeper object driven through any sequence of actions goes through a trace, so every theorem about traces holds of it |
| Keepalive.TraceInv | internal/keepalive/keepliave.go:213-264 | in every reachable state stamps lie in the past, no timer is overdue and exactly one timer or ping write is pending while the channel is open |
| Keepalive.HealthExactly | internal/keepalive/keepliave.go:217-262 | over every trace what the health callback does, by events only: waits until Time after the last read, waits until Timeout after an outstanding ping, gives up on an unanswered one, pings if none is outstanding, or gives up if no ping is configured |
| Keepalive.PingEndsExactly | internal/keepalive/keepliave.go:252-260 | over every trace a written ping is stamped and checked on after Timeout, and a failed one closes the channel unless the keeper is done |
| Keepalive.PingStartsExactly | internal/keepalive/keepliave.go:252-256 | over every trace a step starts a ping if and only if it runs the timer of an open channel with no read for Time and no outstanding ping, and a ping is configured |
| Keepalive.FailedExactly | internal/keepalive/keepliave.go:252-261 | over every trace a step closes for a failed ping if and only if a ping write failed, or an idle open channel has no outstanding ping and none is configured; and it wins its compare-and-swap |
| Keepalive.ReadableExactly | internal/keepalive/keepliave.go:226-229 | over every trace exactly what makes a channel unreadable, for good |
| Keepalive.DetectionBound | internal/keepalive/keepliave.go:214-264 | a silent peer is closed by t + max(Time, Timeout) + Timeout plus one ping write plus twice (10 ms + gap), with at most one timer pending throughout |
| Keepalive.SilentCloses | internal/keepalive/keepliave.go:214-264 | time does not get stuck: every silent state has a continuation, with nobody else doing anything, that closes the channel within the deadline |
| KeepaliveOnWheel.RunIsTrace | internal/keepalive/keepliave.go:214-264 | refinement: a keeper whose timers are timers of the wheel, among any others, only goes through keepalive traces with timers off by less than 10 ms plus the gap between clock readings |
| KeepaliveOnWheel.Simulates | internal/timewheel/time_wheel.go:128-140 | every step of keeper and wheel together keeps the link between a keeper's timer and the slice whose run fires it, and is a step of the keepalive model |
| KeepaliveOnWheel.WheelPart | internal/timewheel/time_wheel.go:128-140 | the wheel's part of every step is what the wheel does for the clock reading, the keeper's timer or anybody else's call |
| KeepaliveOnWheel.DetectionOnWheel | internal/keepalive/keepliave.go:214-264 | the detection bound on the wheel itself |
| KeepaliveOnWheel.DetectionHappens | internal/keepalive/keepliave.go:214-264 | the same on the wheel, from every open state of every run, as long as the clock is read with a positive gap and ticks are left until the deadline |
| Keepalive.ResponsiveSurvives | internal/keepalive/keepliave.go:237-256 | if every ping gets a pong stamped at or after it and within Timeout, the ping-timeout close is never taken, even when timers run early |
| Keepalive.ResponsiveStaysOpen | internal/keepalive/keepliave.go:217-262 | if moreover pings are configured and written and nobody else closes anything, the channel stays open, the keeper is not done and keeps exactly one timer or ping pending |
| Keepalive.TimeoutExactly | internal/keepalive/keepliave.go:237-246 | over every trace, a step closes for a ping timeout if and only if it runs the timer of an open channel with no read for Time, whose last ping is at least Timeout old with no pong stamped at or after it, and wins its compare-and-swap |
| Keepalive.FastPongTimesOut | internal/keepalive/keepliave.go:252-256 | for all durations, a run in which the peer answers before the ping is stamped and is closed for a ping timeout |
| Keepalive.LostCloseIsFinal | internal/keepalive/keepliave.go:275-288 | a keeper that loses its one compare-and-swap leaves the channel open until somebody else closes it |
| Keepalive.ClosedForGood | internal/channel/channel.go:102-107 | a channel is closed at most once, for a cause that never changes |
| Keepalive.LostCloseHappens | internal/channel/channel.go:104-107 | for all durations such a state is reached |
| BufferReader.FullBufferHasRoom | pkg/io/reader/buffer.go:165-182 | a full buffer always grows enough |
| Doubling.DoubledIsLeast | pkg/io/reader/buffer.go:173-177 | doubling ends with the capacity times a power of two, the least such number that suffices |
| BufferReader.RoomExactly | pkg/io/reader/buffer.go:146-156 | growing makes too little room if and only if the request exceeds the space behind some doubled length by at most the space that was free |
| BufferReader.ReadingExactly | pkg/io/reader/buffer.go:130-163 | how reading ahead ends, spelled out: a fixed buffer refuses what does not fit, a growable one panics exactly in its windows, and otherwise the read ends as the connection does |
| BufferReader.PeekedExactly | pkg/io/reader/buffer.go:130-163 | where a read ahead leaves indices, buffer and connection |
| BufferReader.FillingExactly | pkg/io/reader/buffer.go:45-64 | how a read into the caller's buffer ends and where it leaves the indices |
| BufferReader.Reader.Growth | pkg/io/reader/buffer.go:165-182 | the new buffer has the doubled length and begins with the old contents |
| BufferReader.Reader.EnsureReadable | pkg/io/reader/buffer.go:130-163 | for every request exactly how it ends, the new buffer length and both indices; what will be delivered is unchanged unless the connection ended |
| BufferReader.Reader.Peek | pkg/io/reader/buffer.go:77-86 | the slice is a window into the buffer holding the next bytes, and nothing is consumed |
| BufferReader.Reader.Next | pkg/io/reader/buffer.go:67-74 | the next bytes are returned and exactly they are consumed |
| BufferReader.Reader.Read | pkg/io/reader/buffer.go:45-64 | bytes that bypass the buffer are the next bytes of the stream and the indices step over exactly them |
| BufferReader.FramedReads | pkg/io/reader/buffer.go:130-163 | inside a complete frame that fits the buffer every request succeeds, and what is left is such a frame with the same bytes behind it |
| LimitReader.Limit.Next | pkg/io/reader/limit.go:36-45 | refused exactly when more is asked than remains, otherwise it ends as the outer read does, and only a success is counted |
| LimitReader.Limit.Peek | pkg/io/reader/limit.go:47-52 | the same without consuming |
| LimitReader.Limit.Read | pkg/io/reader/limit.go:25-34 | the same for reads into the caller's buffer; short reads are counted by what they delivered |
| LimitReader.Limit.Release | pkg/io/reader/limit.go:70-76 | releasing skips what remains; a failure of that is ignored and a panic is reported |
| LimitReader.Limit.CallAll | pkg/io/reader/limit.go:25-63 | any sequence of calls inside a complete frame moves the outer reader by what the limit counts, draws nothing beyond the frame and never panics |
| BufferWriter.Writer.CheckWriteable | pkg/io/writer/buffer.go:140-164 | for every writer and request whether it fits, grows, is refused, panics or never ends; growing keeps the contents and doubles to the least sufficient length, and the array stays exactly when there was room |
| BufferWriter.Writer.Write | pkg/io/writer/buffer.go:59-77 | the contents grow by the bytes exactly when room is made |
| BufferWriter.Writer.Malloc | pkg/io/writer/buffer.go:80-92 | hands out a zero window that aliases the array in use at that moment |
| BufferWriter.Writer.Flush | pkg/io/writer/buffer.go:101-129 | what is pending reaches the connection once and is sliced off the buffer, with the indices left where they are |
| BufferWriter.WriteAll | pkg/io/writer/buffer.go:59-129 | chunks written and flushed one by one through one writer reach the connection in order, up to the first that makes it panic or hang |
| BufferWriter.SecondWrite | pkg/io/writer/buffer.go:140-164 | after a first write of a bytes was flushed, the next one hangs if and only if a = 256 * 2^m and there is something to write, and panics if and only if there is nothing to write and less than half of the buffer was left |
| Payload.LayeredRoundTrip | internal/msg/codec.go:29-81 | unmarshalling undoes marshalling exactly for LessMessages with the magic and for inner messages shorter than 6 bytes or not starting with it |
| Payload.MagicOnTheWire | internal/msg/message.go:3-5 | a LessMessage goes out as 4, 146, 83, 15, the two bytes of its type, most significant first, and its body |
| Payload.LessByItsStart | internal/msg/codec.go:55-81 | a frame is a LessMessage if and only if it has at least 6 bytes and starts with 4, 146, 83, 15; type and body are what follows, and any other frame is the inner codec's |
| Payload.DirectWriter.Marshal | internal/msg/codec.go:29-53 | windows filled at once reach the outer buffer, the length is counted, and the outer array stays exactly when the encoding fits |
| Payload.MarshalTo | internal/msg/codec.go:29-53 | marshalling into a fixed window succeeds exactly when the encoding fits and writes nothing outside the window |
| Payload.Unmarshal | internal/msg/codec.go:55-81 | how a payload codec ends on any frame and any stream; when it succeeds it has consumed the frame and returns what the frame means |
| Payload.DecodeFrame | codec/packet/fixed_length.go:40-45 | the outcome for every position, length and stream; a complete frame with room is decoded whatever the payload codec does, and then the reader is right behind it and nothing more is drawn |
| Payload.FramedOutcome | codec/packet/fixed_length.go:40-45 | decoding succeeds if and only if the payload codec does, and then the whole frame and nothing else was consumed |
| VarLength.Encode | codec/packet/var_length.go:24-40 | the flushed header carries the length exactly when header and body fit the initial buffer, and is zero otherwise |
| VarLength.Decode | codec/packet/var_length.go:42-54 | total: exactly how decoding ends for every reader and stream, and exact framing with the meaning of the frame when it succeeds |
| VarLength.HeaderTruth | codec/packet/var_length.go:37 | the header tells the body length if and only if the writer did not grow or there is no body |
| VarLength.EncodeOnce | codec/packet/var_length.go:24-40 | a body of n <= 251 bytes goes out behind the header 0, 0, 0, n, 0 |
| Bytes.MostSignificantFirst32 | codec/packet/var_length.go:37-49 | the four bytes of a length are in the order of significance: numbers are ordered as their encodings |
| Bytes.Weights32 | codec/packet/var_length.go:49 | what each of the four bytes is worth |
| Bytes.MostSignificantFirst16 | internal/msg/codec.go:42-48 | the same for the two bytes of a type |
| VarLength.RoundTrip | codec/packet/var_length.go:24-54 | with the transport's writer and reader a message comes back if and only if it fits 256 bytes with its header and is distinguishable |
| VarLength.TextBody | pkg/io/reader/buffer.go:146-156 | a new reader panics on the body of a text frame if and only if c - 5 < n <= c + 246 for some c = 256 * 2^m, and otherwise succeeds exactly on complete bodies |
| VarLength.LayeredBody | internal/msg/codec.go:55-81 | the same for the layered codec, whose smaller reads shift the upper end of the windows to 242 and 240 |
| FixedLength.Encode | codec/packet/fixed_length.go:25-38 | a message whose encoding fits is flushed padded with zeros through the inner writer's window, a longer one is refused and nothing is flushed |
| FixedLength.Decode | codec/packet/fixed_length.go:40-45 | total: exactly how decoding ends for every reader, length and stream, and exact framing when it succeeds |
| FixedLength.RoundTrip | codec/packet/fixed_length.go:25-45 | for every length, a text round-trips if and only if it fills the frame and the length has room in a new reader |
| FixedLength.LengthTaken | pkg/io/reader/buffer.go:146-156 | which lengths have: all but those with c < length <= c + 256 for some c = 256 * 2^m, which panic |
| FixedLength.LayeredRoundTrip | codec/packet/fixed_length.go:25-45 | a message of the layered codec round-trips if and only if it can be told apart, fills the frame and the length is in no gap c < length <= c + 250, or c + 252 for an inner message, with c = 256 * 2^m |
| Delimiter.FrameFound | codec/packet/delimiter.go:78-98 | the search stops at the end of the frame if and only if the delimiter does not occur in message plus delimiter minus its last byte and the frame is within maxLength |
| Delimiter.Encode | codec/packet/delimiter.go:59-74 | any message, and the delimiter unless that is switched off, is flushed, through any growth of the writer |
| Delimiter.FindEnd | codec/packet/delimiter.go:78-93 | the search finds the shortest prefix ending with the delimiter, or tells a too long frame from a closed stream, without panic, consumption or drawing beyond it |
| Delimiter.Decode | codec/packet/delimiter.go:76-110 | exact framing without any promise of room, with or without stripping, for any payload codec |
| Delimiter.Transmit | codec/packet/delimiter.go:59-110 | any list of clean messages within maxLength, sent one by one and decoded from one reader, comes back unchanged |
| Handler.OnRead | internal/trans/trans_handler.go:167-197 | for every stream: refused while the transport is down; the channel is closed exactly when decoding fails or panics, with that condition spelled out; otherwise exactly the frame is taken, and the message is handed on exactly when its frame length modulo 2^32 is within the limit |
| Handler.LimitEscaped | internal/trans/trans_handler.go:185-188 | a decoded message within the limit, or without a limit, is handed on; one whose frame exceeds the limit is handed on if and only if the frame is exactly 2^32 bytes long and complete; longer ones panic and close the channel |
| Handler.EscapingFrame | internal/trans/trans_handler.go:185-188 | such a frame, for every limit |
| Handler.Transmit | internal/trans/trans_handler.go:144-159 | any list of messages, each sent through a writer and read with a reader of its own, comes back unchanged if and only if every one of them is at most 251 bytes long and distinguishable |

## Left out

- Interleavings inside one tick: the near slot is locked after jiffies is bumped, so an insertion between the two is not covered by the exact-tick results.
- Negative durations and ticks of 2^62 or more.
- `Head.Move`, `MoveTail`, `RotateLeft`, `Add` and the other list operations the wheel does not use; `Entry` offset arithmetic.
- TimeWheel.Wheel.StopTimer: takes a stop as one step; the interleaving of its accesses is `StopProtocol`, whose lists are sets of members; that deleting a member leaves the links of all other rings and nodes alone is `RingList.RemoveApart`. A second stop of a timer is excluded here and treated there and in `RingList`.
- Waiting for read and write tasks, idle-time tracking, closed hooks other than deregistration, panics and recovery inside OnConnect.
- Keepalive: maximum idle time, maximum age, GoAway sending and parameter completion; jitter; the time the goroutine pool takes to start a callback.
- The packet encoders are proved for a writer that has not been written to, as the transport uses it; a failing connection is not modelled.
- The JSON payload codec: reflection; any payload codec is covered by the script of calls as far as framing goes.
- Handler.OnRead: the variable-length codec with the layered text codec; what the inbound pipeline does with a message handed to it is not modelled.
- Sockets, accept loop, goroutine pool, router, options and logging.
