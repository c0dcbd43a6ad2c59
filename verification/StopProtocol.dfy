/** The version protocol by which `timeNode.Stop` decides whether its node may be unlinked.

    Every step is one atomic access or one critical section.  Nodes are pushed by the thread
    that owns them (the caller of AfterFunc, or the wheel re-filing a drained slot); the wheel
    detaches whole slots; any thread may stop a node once AfterFunc has returned it, at most
    once.  The steps of all threads interleave freely. */
module StopProtocol {
  import opened Common
  import opened WheelMath

  type Id = nat

  const SEQ_LIMIT: nat := 0x1_0000_0000

  // ------------------------------------------------------------ version numbers

  /** `level << 48 | index << 32` plus the number of drains. */
  function Version(s: Slot, drains: nat): (v: nat)
    requires ValidSlot(s)
  {
    match s
    case Near(k) => 0x1_0000_0000_0000 + k * SEQ_LIMIT + drains
    case Level(i, k) => (i + 2) * 0x1_0000_0000_0000 + k * SEQ_LIMIT + drains
  }

  /** The fields of a version: 16 bits of level, 1 for the near slots, 16 bits of index, and a counter of
      drains that starts at zero. */
  lemma VersionFields(s: Slot, drains: nat)
    requires ValidSlot(s) && drains < 0x1_0000_0000
    ensures Version(s, drains) / 0x1_0000_0000_0000 == if s.Near? then 1 else s.level + 2
    ensures Version(s, drains) / 0x1_0000_0000 % 0x1_0000 == s.index
    ensures Version(s, drains) % 0x1_0000_0000 == drains
  {
    var level := if s.Near? then 1 else s.level + 2;
    var v := Version(s, drains);
    assert v == (level * 0x1_0000 + s.index) * 0x1_0000_0000 + drains;
    assert v / 0x1_0000_0000 == level * 0x1_0000 + s.index;
  }

  /** With fewer than 2^32 drains the version names the slot and the drain count. */
  lemma VersionInjective(s: Slot, m: nat, s': Slot, m': nat)
    requires ValidSlot(s) && ValidSlot(s') && m < SEQ_LIMIT && m' < SEQ_LIMIT
    requires Version(s, m) == Version(s', m')
    ensures s == s' && m == m'
  {
    var k, k' := s.index, s'.index;
    var l, l' := if s.Near? then 1 else s.level + 2, if s'.Near? then 1 else s'.level + 2;
    assert Version(s, m) == l * 0x1_0000_0000_0000 + k * SEQ_LIMIT + m;
    assert Version(s', m') == l' * 0x1_0000_0000_0000 + k' * SEQ_LIMIT + m';
  }

  // ------------------------------------------------------------ states

  datatype Stage = Waiting | Locked | Checked | Appended | ListStored | VersionStored

  /** Where a node is from the point of view of the thread that moves it. */
  datatype Phase =
    | Fresh
    | Pushing(target: Slot, stage: Stage)
    | Resting
    | Detached(from: Slot)
    | Passed
    | Rearming
    | Gone

  datatype StopPc =
    | Idle
    | Flagged
    | Loaded(list: Slot)
    | Holding(list: Slot)
    | Matched(list: Slot)
    | Done(unlinked: bool)

  /** What `node.version` was last set from: zero, or the version of a slot. */
  datatype Stamp = Zero | Stamp(slot: Slot, drains: nat)

  datatype Node = Node(
    periodic: bool, stop: bool, list: Option<Slot>, stamp: Stamp, phase: Phase, pc: StopPc, fired: nat)

  datatype Lock = Free | ByPush(n: Id) | ByStop(n: Id)

  datatype SlotState = SlotState(drains: nat, members: set<Id>, lock: Lock)

  /** `corrupt` records a `Del` applied to a node that is not a member of that list. */
  datatype State = State(slots: map<Slot, SlotState>, nodes: map<Id, Node>, corrupt: bool)

  /** The steps a thread takes on one node and one slot. */
  datatype Kind =
    // lockPushBack, by the thread that owns the node
    | StartPush | LockForPush | CheckStop | Append | StoreList | StoreVersion | UnlockPush
    // the wheel, on a node of a detached near slot
    | CheckFire | Submit
    // Stop
    | SetFlag | LoadList | LockForStop | Compare | Unlink

  datatype Action =
    | New(n: Id, periodic: bool)
    | Do(n: Id, kind: Kind, slot: Slot)
    | Detach(slot: Slot)

  function VersionOf(stamp: Stamp): (v: nat)
    requires stamp.Stamp? ==> ValidSlot(stamp.slot)
  {
    match stamp
    case Zero => 0
    case Stamp(s, drains) => Version(s, drains)
  }

  predicate Ready(node: Node, t: Slot, slot: SlotState, kind: Kind) {
    match kind
    case StartPush =>
      node.phase.Fresh? || node.phase.Rearming? || (node.phase.Detached? && node.phase.from.Level?)
    case LockForPush => node.phase == Pushing(t, Waiting) && slot.lock.Free?
    case CheckStop => node.phase == Pushing(t, Locked)
    case Append => node.phase == Pushing(t, Checked)
    case StoreList => node.phase == Pushing(t, Appended)
    case StoreVersion => node.phase == Pushing(t, ListStored)
    case UnlockPush => node.phase == Pushing(t, VersionStored)
    case CheckFire => node.phase.Detached? && node.phase.from.Near?
    case Submit => node.phase.Passed?
    case SetFlag => node.pc.Idle? && node.stamp.Stamp?
    case LoadList => node.pc.Flagged? && node.list == Some(t)
    case LockForStop => node.pc == Loaded(t) && slot.lock.Free?
    case Compare => node.pc == Holding(t)
    case Unlink => node.pc == Matched(t)
  }

  function NodeNext(node: Node, t: Slot, slot: SlotState, kind: Kind): (node': Node)
    requires ValidSlot(t) && (node.stamp.Stamp? ==> ValidSlot(node.stamp.slot))
  {
    match kind
    case StartPush => node.(phase := Pushing(t, Waiting))
    case LockForPush => node.(phase := Pushing(t, Locked))
    case CheckStop => node.(phase := if node.stop then Gone else Pushing(t, Checked))
    case Append => node.(phase := Pushing(t, Appended))
    case StoreList => node.(phase := Pushing(t, ListStored), list := Some(t))
    case StoreVersion => node.(phase := Pushing(t, VersionStored), stamp := Stamp(t, slot.drains))
    case UnlockPush => node.(phase := Resting)
    case CheckFire => node.(phase := if node.stop then Gone else Passed)
    case Submit => node.(fired := node.fired + 1, phase := if node.periodic then Rearming else Gone)
    case SetFlag => node.(stop := true, pc := Flagged)
    case LoadList => node.(pc := Loaded(t))
    case LockForStop => node.(pc := Holding(t))
    case Compare => node.(pc := if VersionOf(node.stamp) == Version(t, slot.drains) then Matched(t) else Done(false))
    case Unlink => node.(phase := Gone, pc := Done(true))
  }

  function SlotNext(n: Id, node: Node, t: Slot, slot: SlotState, kind: Kind): (slot': SlotState)
    requires ValidSlot(t) && (node.stamp.Stamp? ==> ValidSlot(node.stamp.slot))
  {
    match kind
    case LockForPush => slot.(lock := ByPush(n))
    case CheckStop => if node.stop then slot.(lock := Free) else slot
    case Append => slot.(members := slot.members + {n})
    case UnlockPush => slot.(lock := Free)
    case LockForStop => slot.(lock := ByStop(n))
    case Compare => if VersionOf(node.stamp) == Version(t, slot.drains) then slot else slot.(lock := Free)
    case Unlink => slot.(members := slot.members - {n}, lock := Free)
    case _ => slot
  }

  predicate Enabled(st: State, a: Action) {
    match a
    case New(n, _) => n !in st.nodes
    case Do(n, kind, t) => n in st.nodes && t in st.slots && Ready(st.nodes[n], t, st.slots[t], kind)
    case Detach(s) =>
      && s in st.slots && st.slots[s].lock.Free?
      && st.slots[s].members != {} && st.slots[s].drains + 1 < SEQ_LIMIT
  }

  /** Versions are those of real slots. */
  predicate Typed(st: State) {
    && (forall s <- st.slots :: ValidSlot(s))
    && (forall n <- st.nodes :: st.nodes[n].stamp.Stamp? ==> ValidSlot(st.nodes[n].stamp.slot))
  }

  function Next(st: State, a: Action): (st': State)
    requires Enabled(st, a) && Typed(st)
  {
    match a
    case New(n, periodic) => st.(nodes := st.nodes[n := Node(periodic, false, None, Zero, Fresh, Idle, 0)])
    case Do(n, kind, t) =>
      State(
        st.slots[t := SlotNext(n, st.nodes[n], t, st.slots[t], kind)],
        st.nodes[n := NodeNext(st.nodes[n], t, st.slots[t], kind)],
        st.corrupt || (kind.Unlink? && n !in st.slots[t].members))
    case Detach(s) =>
      st.(slots := st.slots[s := Drained(st.slots[s])],
          nodes := map n <- st.nodes ::
            if n in st.slots[s].members then st.nodes[n].(phase := Detached(s)) else st.nodes[n])
  }

  // ------------------------------------------------------------ the invariant

  predicate Appending(p: Phase) {
    p.Pushing? && (p.stage.Appended? || p.stage.ListStored? || p.stage.VersionStored?)
  }

  /** The lock a push holds. */
  predicate HoldsPush(p: Phase, s: Slot) {
    p.Pushing? && p.target == s && !p.stage.Waiting?
  }

  predicate HoldsStop(pc: StopPc, s: Slot) {
    (pc.Holding? || pc.Matched?) && pc.list == s
  }

  predicate Unlinked(node: Node) {
    node.pc == Done(true)
  }

  /** What holds between one node and one slot, in every reachable state. */
  predicate Related(n: Id, node: Node, s: Slot, slot: SlotState) {
    // locks
    && (slot.lock == ByPush(n) <==> HoldsPush(node.phase, s))
    && (slot.lock == ByStop(n) <==> HoldsStop(node.pc, s))
    // members
    && (n in slot.members ==>
         || (node.phase.Resting? && node.list == Some(s) && node.stamp == Stamp(s, slot.drains))
         || (Appending(node.phase) && node.phase.target == s))
    && (Appending(node.phase) && node.phase.target == s ==> n in slot.members)
    && (node.phase.Resting? && node.list == Some(s) ==> n in slot.members)
    && (node.phase == Pushing(s, ListStored) || node.phase == Pushing(s, VersionStored) ==> node.list == Some(s))
    && (node.phase == Pushing(s, VersionStored) ==> node.stamp == Stamp(s, slot.drains))
    // versions come from the past, and the current one is carried by members only
    && (node.stamp.Stamp? && node.stamp.slot == s ==> node.stamp.drains <= slot.drains)
    && (node.stamp == Stamp(s, slot.drains) ==> n in slot.members || Unlinked(node))
    && (node.pc == Matched(s) ==> n in slot.members && node.phase.Resting?)
  }

  /** What holds of one node. */
  predicate NodeOk(slots: set<Slot>, node: Node) {
    && (node.stamp.Stamp? ==> node.stamp.slot in slots)
    && (node.list.Some? ==> node.list.value in slots)
    && (node.phase.Resting? ==> node.list.Some?)
    && (node.phase.Pushing? ==> node.phase.target in slots)
    && (Unlinked(node) ==> node.phase.Gone?)
    && (!node.periodic ==> node.fired == 0 || (node.fired == 1 && node.phase.Gone?))
  }

  predicate SlotOk(nodes: set<Id>, s: Slot, slot: SlotState) {
    && ValidSlot(s) && slot.drains < SEQ_LIMIT
    && slot.members <= nodes
    && (slot.lock.Free? || slot.lock.n in nodes)
  }

  predicate Inv(st: State) {
    && !st.corrupt
    && (forall s <- st.slots :: SlotOk(st.nodes.Keys, s, st.slots[s]))
    && (forall n <- st.nodes :: NodeOk(st.slots.Keys, st.nodes[n]))
    && (forall n <- st.nodes, s <- st.slots :: Related(n, st.nodes[n], s, st.slots[s]))
  }

  lemma SlotsValid(st: State)
    requires Inv(st)
    ensures Typed(st)
  {
    assert forall s <- st.slots :: SlotOk(st.nodes.Keys, s, st.slots[s]);
    assert forall n <- st.nodes :: NodeOk(st.slots.Keys, st.nodes[n]);
  }

  /** Agreement of version numbers is agreement of slot and drain count. */
  predicate VersionsFaithful(node: Node, t: Slot, slot: SlotState)
    requires ValidSlot(t) && (node.stamp.Stamp? ==> ValidSlot(node.stamp.slot))
  {
    VersionOf(node.stamp) == Version(t, slot.drains) <==> node.stamp == Stamp(t, slot.drains)
  }

  lemma MatchMeansCurrent(st: State, n: Id, t: Slot)
    requires Inv(st) && Typed(st) && n in st.nodes && t in st.slots
    ensures VersionsFaithful(st.nodes[n], t, st.slots[t])
  {
    var node := st.nodes[n];
    assert SlotOk(st.nodes.Keys, t, st.slots[t]);
    if node.stamp.Stamp? {
      var s := node.stamp.slot;
      assert NodeOk(st.slots.Keys, node);
      assert SlotOk(st.nodes.Keys, s, st.slots[s]);
      assert Related(n, node, s, st.slots[s]);
      if VersionOf(node.stamp) == Version(t, st.slots[t].drains) {
        VersionInjective(s, node.stamp.drains, t, st.slots[t].drains);
      }
    }
  }

  // ------------------------------------------------------------ one step, one pair at a time

  /** The moving node and the slot it works on. */
  lemma ActorAtItsSlot(n: Id, node: Node, t: Slot, slot: SlotState, kind: Kind)
    requires ValidSlot(t) && (node.stamp.Stamp? ==> ValidSlot(node.stamp.slot))
    requires Related(n, node, t, slot) && VersionsFaithful(node, t, slot) && Ready(node, t, slot, kind)
    requires Unlinked(node) ==> node.phase.Gone?
    ensures Related(n, NodeNext(node, t, slot, kind), t, SlotNext(n, node, t, slot, kind))
    ensures kind.Unlink? ==> n in slot.members
  {
    hide Version, VersionOf;
  }

  /** The moving node and any other slot. */
  lemma ActorElsewhere(n: Id, node: Node, t: Slot, slot: SlotState, kind: Kind, s: Slot, other: SlotState)
    requires ValidSlot(t) && (node.stamp.Stamp? ==> ValidSlot(node.stamp.slot))
    requires Related(n, node, t, slot) && Related(n, node, s, other) && s != t && Ready(node, t, slot, kind)
    ensures Related(n, NodeNext(node, t, slot, kind), s, other)
  {
    hide Version, VersionOf;
  }

  /** Any other node and the slot worked on. */
  lemma BystanderAtSlot(n: Id, node: Node, t: Slot, slot: SlotState, kind: Kind, m: Id, other: Node)
    requires ValidSlot(t) && (node.stamp.Stamp? ==> ValidSlot(node.stamp.slot))
    requires Related(n, node, t, slot) && Related(m, other, t, slot) && m != n && Ready(node, t, slot, kind)
    ensures Related(m, other, t, SlotNext(n, node, t, slot, kind))
  {
    hide Version, VersionOf;
  }

  lemma DoKeepsInv(st: State, a: Action)
    requires Inv(st) && Typed(st) && a.Do? && Enabled(st, a)
    ensures Inv(Next(st, a))
  {
    hide Version, VersionOf, NodeNext, SlotNext, Ready, Related, NodeOk, SlotOk, VersionsFaithful;
    var n, t, kind := a.n, a.slot, a.kind;
    var st' := Next(st, a);
    var node, slot := st.nodes[n], st.slots[t];
    assert st'.nodes.Keys == st.nodes.Keys && st'.slots.Keys == st.slots.Keys;
    assert NodeOk(st.slots.Keys, node) && SlotOk(st.nodes.Keys, t, slot) && Related(n, node, t, slot);
    MatchMeansCurrent(st, n, t);
    DoLocally(st, n, t, kind);
    ActorAtItsSlot(n, node, t, slot, kind);
    forall m <- st'.nodes, s <- st'.slots
      ensures Related(m, st'.nodes[m], s, st'.slots[s])
    {
      assert Related(m, st.nodes[m], s, st.slots[s]);
      if m == n && s != t { ActorElsewhere(n, node, t, slot, kind, s, st.slots[s]); }
      if m != n && s == t { BystanderAtSlot(n, node, t, slot, kind, m, st.nodes[m]); }
    }
  }

  lemma DoLocally(st: State, n: Id, t: Slot, kind: Kind)
    requires Typed(st) && Enabled(st, Do(n, kind, t))
    requires NodeOk(st.slots.Keys, st.nodes[n]) && SlotOk(st.nodes.Keys, t, st.slots[t])
    requires Related(n, st.nodes[n], t, st.slots[t])
    ensures Unlinked(st.nodes[n]) ==> st.nodes[n].phase.Gone?
    ensures NodeOk(st.slots.Keys, NodeNext(st.nodes[n], t, st.slots[t], kind))
    ensures SlotOk(st.nodes.Keys, t, SlotNext(n, st.nodes[n], t, st.slots[t], kind))
  {
    hide Version, VersionOf;
  }

  function Drained(slot: SlotState): (slot': SlotState) {
    slot.(members := {}, drains := slot.drains + 1)
  }

  /** A node of a drained slot, or not of it, and the drained slot or another one. */
  lemma DrainedPair(m: Id, node: Node, t: Slot, slot: SlotState, s: Slot, other: SlotState)
    requires Related(m, node, t, slot) && Related(m, node, s, other) && (s == t ==> other == slot)
    requires slot.lock.Free?
    ensures var node' := if m in slot.members then node.(phase := Detached(t)) else node;
      Related(m, node', s, if s == t then Drained(slot) else other)
  {
  }

  lemma DrainedAlone(slots: set<Slot>, nodes: set<Id>, m: Id, node: Node, t: Slot, slot: SlotState)
    requires NodeOk(slots, node) && SlotOk(nodes, t, slot) && Related(m, node, t, slot)
    requires slot.drains + 1 < SEQ_LIMIT
    ensures NodeOk(slots, if m in slot.members then node.(phase := Detached(t)) else node)
    ensures SlotOk(nodes, t, Drained(slot))
  {
  }

  lemma DetachKeepsInv(st: State, t: Slot)
    requires Inv(st) && Typed(st) && Enabled(st, Detach(t))
    ensures Inv(Next(st, Detach(t)))
  {
    hide Related, NodeOk, SlotOk, Typed, Drained;
    var st' := Next(st, Detach(t));
    assert st'.nodes.Keys == st.nodes.Keys && st'.slots.Keys == st.slots.Keys;
    forall m <- st'.nodes, s <- st'.slots
      ensures Related(m, st'.nodes[m], s, st'.slots[s]) && NodeOk(st'.slots.Keys, st'.nodes[m])
      ensures SlotOk(st'.nodes.Keys, t, Drained(st.slots[t]))
    {
      DrainedPair(m, st.nodes[m], t, st.slots[t], s, st.slots[s]);
      DrainedAlone(st.slots.Keys, st.nodes.Keys, m, st.nodes[m], t, st.slots[t]);
    }
    var m :| m in st.slots[t].members;
    assert m in st'.nodes by { MembersKnown(st, t, m); }
    assert Related(m, st'.nodes[m], t, st'.slots[t]);
  }

  lemma MembersKnown(st: State, t: Slot, m: Id)
    requires Inv(st) && t in st.slots && m in st.slots[t].members
    ensures m in st.nodes
  {
    assert SlotOk(st.nodes.Keys, t, st.slots[t]);
  }

  lemma NewKeepsInv(st: State, n: Id, periodic: bool)
    requires Inv(st) && Typed(st) && Enabled(st, New(n, periodic))
    ensures Inv(Next(st, New(n, periodic)))
  {
    var st' := Next(st, New(n, periodic));
    forall s <- st'.slots
      ensures SlotOk(st'.nodes.Keys, s, st'.slots[s])
    {
      assert SlotOk(st.nodes.Keys, s, st.slots[s]);
    }
    forall m <- st'.nodes, s <- st'.slots
      ensures Related(m, st'.nodes[m], s, st'.slots[s])
    {
      assert SlotOk(st.nodes.Keys, s, st.slots[s]);
      assert m in st.nodes ==> Related(m, st.nodes[m], s, st.slots[s]);
    }
  }

  lemma StepKeepsInv(st: State, a: Action)
    requires Inv(st) && Enabled(st, a)
    ensures Typed(st) && Inv(Next(st, a))
  {
    SlotsValid(st);
    hide *;
    match a
    case New(n, periodic) => NewKeepsInv(st, n, periodic);
    case Do(_, _, _) => DoKeepsInv(st, a);
    case Detach(t) => DetachKeepsInv(st, t);
  }

  // ------------------------------------------------------------ runs

  predicate Initial(st: State) {
    && st.nodes == map[] && !st.corrupt
    && forall s <- st.slots :: ValidSlot(s) && st.slots[s] == SlotState(0, {}, Free)
  }

  /** `run` lists the states passed through, one step apart. */
  ghost predicate IsRun(run: seq<State>) {
    && run != []
    && forall i | 0 <= i < |run| - 1 :: IsStep(run[i], run[i + 1])
  }

  ghost predicate IsStep(st: State, st': State) {
    Typed(st) && exists a :: Enabled(st, a) && st' == Next(st, a)
  }

  lemma {:induction false} RunKeepsInv(run: seq<State>, i: nat)
    requires IsRun(run) && Inv(run[0]) && i < |run|
    ensures Inv(run[i])
  {
    if i > 0 {
      RunKeepsInv(run, i - 1);
      assert IsStep(run[i - 1], run[i]);
      var a :| Enabled(run[i - 1], a) && run[i] == Next(run[i - 1], a);
      StepKeepsInv(run[i - 1], a);
    }
  }

  /** Over every interleaving: a `Stop` never unlinks a node from a list it is not in, and in
      every state a node's version equals the version of a list exactly when the node is linked
      in that list with its push complete, or has already been unlinked from it by its stop. */
  lemma StopUnlinksOnlyMembers(run: seq<State>, i: nat, n: Id, l: Slot)
    requires IsRun(run) && Initial(run[0]) && i < |run| && n in run[i].nodes && l in run[i].slots
    ensures !run[i].corrupt && Typed(run[i])
    ensures var node, slot := run[i].nodes[n], run[i].slots[l];
      && (VersionOf(node.stamp) == Version(l, slot.drains) ==> n in slot.members || Unlinked(node))
      && (n in slot.members && node.phase.Resting? ==> VersionOf(node.stamp) == Version(l, slot.drains))
      && (n in slot.members ==> forall l' <- run[i].slots :: l' != l ==> n !in run[i].slots[l'].members)
  {
    RunKeepsInv(run, i);
    var st := run[i];
    SlotsValid(st);
    MatchMeansCurrent(st, n, l);
    assert Related(n, st.nodes[n], l, st.slots[l]);
    hide Version, VersionOf;
    forall l' <- st.slots | l' != l && n in st.slots[l].members
      ensures n !in st.slots[l'].members
    {
      assert Related(n, st.nodes[n], l', st.slots[l']);
    }
  }

  /** The comparison of a stop over every run: it matches if and only if the node is in that list at that
      moment, and otherwise the stop ends there and lets go of the list. */
  lemma CompareExactly(run: seq<State>, i: nat, n: Id, t: Slot)
    requires IsRun(run) && Initial(run[0]) && i < |run| && Enabled(run[i], Do(n, Compare, t))
    ensures Typed(run[i])
    ensures var st' := Next(run[i], Do(n, Compare, t));
      if n in run[i].slots[t].members then st'.nodes[n].pc == Matched(t) && st'.slots[t] == run[i].slots[t]
      else st'.nodes[n].pc == Done(false) && st'.slots[t] == run[i].slots[t].(lock := Free)
  {
    RunKeepsInv(run, i);
    var st := run[i];
    SlotsValid(st);
    MatchMeansCurrent(st, n, t);
    assert Related(n, st.nodes[n], t, st.slots[t]);
    hide Version, VersionOf;
  }

  /** A stop of a linked node that nobody interferes with runs through its five steps and unlinks the node,
      and only it. */
  lemma UndisturbedStop(run: seq<State>, i: nat, n: Id, t: Slot) returns (states: seq<State>)
    requires IsRun(run) && Initial(run[0]) && i < |run| && n in run[i].nodes && t in run[i].slots
    requires n in run[i].slots[t].members && run[i].nodes[n].phase.Resting?
    requires run[i].nodes[n].pc.Idle? && run[i].slots[t].lock.Free?
    ensures |states| == 6 && states[0] == run[i]
    ensures forall k | 0 <= k < 5 ::
      && Typed(states[k]) && Enabled(states[k], Do(n, STOP_STEPS[k], t))
      && states[k + 1] == Next(states[k], Do(n, STOP_STEPS[k], t))
    ensures var end := states[5];
      && n in end.nodes && Unlinked(end.nodes[n]) && end.nodes[n].stop && t in end.slots
      && end.slots[t] == run[i].slots[t].(members := run[i].slots[t].members - {n})
  {
    hide *;
    InitialInv(run[0]);
    RunKeepsInv(run, i);
    RestingFacts(run[i], n, t);
    states := StopSteps(run[i], n, t);
  }

  lemma InitialInv(st: State)
    requires Initial(st)
    ensures Inv(st)
  {
  }

  lemma RestingFacts(st: State, n: Id, t: Slot)
    requires Inv(st) && n in st.nodes && t in st.slots && n in st.slots[t].members && st.nodes[n].phase.Resting?
    ensures Typed(st) && st.nodes[n].list == Some(t) && st.nodes[n].stamp == Stamp(t, st.slots[t].drains)
  {
    SlotsValid(st);
    assert Related(n, st.nodes[n], t, st.slots[t]);
  }

  lemma StopSteps(st: State, n: Id, t: Slot) returns (states: seq<State>)
    requires Typed(st) && n in st.nodes && t in st.slots
    requires st.nodes[n].list == Some(t) && st.nodes[n].stamp == Stamp(t, st.slots[t].drains)
    requires st.nodes[n].pc.Idle? && st.slots[t].lock.Free?
    ensures |states| == 6 && states[0] == st
    ensures forall k | 0 <= k < 5 ::
      && Typed(states[k]) && Enabled(states[k], Do(n, STOP_STEPS[k], t))
      && states[k + 1] == Next(states[k], Do(n, STOP_STEPS[k], t))
    ensures var end := states[5];
      && n in end.nodes && Unlinked(end.nodes[n]) && end.nodes[n].stop && t in end.slots
      && end.slots[t] == st.slots[t].(members := st.slots[t].members - {n})
  {
    hide Next, Enabled, Typed, Version;
    var s1, s2, s3 := StopUpToLock(st, n, t);
    var node, slot := st.nodes[n].(stop := true, pc := Holding(t)), st.slots[t].(lock := ByStop(n));
    StopStep(s3, n, t, node, slot, Compare);
    var s4 := Next(s3, Do(n, Compare, t));
    StopStep(s4, n, t, node.(pc := Matched(t)), slot, Unlink);
    states := [st, s1, s2, s3, s4, Next(s4, Do(n, Unlink, t))];
  }

  lemma StopUpToLock(st: State, n: Id, t: Slot) returns (s1: State, s2: State, s3: State)
    requires Typed(st) && n in st.nodes && t in st.slots && st.nodes[n].list == Some(t) && st.nodes[n].stamp.Stamp?
    requires st.nodes[n].pc.Idle? && st.slots[t].lock.Free?
    ensures Enabled(st, Do(n, SetFlag, t)) && s1 == Next(st, Do(n, SetFlag, t)) && Typed(s1)
    ensures Enabled(s1, Do(n, LoadList, t)) && s2 == Next(s1, Do(n, LoadList, t)) && Typed(s2)
    ensures Enabled(s2, Do(n, LockForStop, t)) && s3 == Next(s2, Do(n, LockForStop, t)) && Typed(s3)
    ensures n in s3.nodes && s3.nodes[n] == st.nodes[n].(stop := true, pc := Holding(t))
    ensures t in s3.slots && s3.slots[t] == st.slots[t].(lock := ByStop(n))
  {
    hide Next, Enabled, Typed, Version, VersionOf;
    var node, slot := st.nodes[n], st.slots[t];
    StopStep(st, n, t, node, slot, SetFlag);
    s1 := Next(st, Do(n, SetFlag, t));
    node := node.(stop := true, pc := Flagged);
    StopStep(s1, n, t, node, slot, LoadList);
    s2 := Next(s1, Do(n, LoadList, t));
    StopStep(s2, n, t, node.(pc := Loaded(t)), slot, LockForStop);
    s3 := Next(s2, Do(n, LockForStop, t));
  }

  const STOP_STEPS: seq<Kind> := [SetFlag, LoadList, LockForStop, Compare, Unlink]

  lemma StopStep(st: State, n: Id, t: Slot, node: Node, slot: SlotState, kind: Kind)
    requires Typed(st) && n in st.nodes && t in st.slots && st.nodes[n] == node && st.slots[t] == slot
    requires Ready(node, t, slot, kind) && !kind.StoreVersion?
    ensures Enabled(st, Do(n, kind, t))
    ensures var st' := Next(st, Do(n, kind, t));
      && Typed(st')
      && n in st'.nodes && st'.nodes[n] == NodeNext(node, t, slot, kind)
      && t in st'.slots && st'.slots[t] == SlotNext(n, node, t, slot, kind)
  {
    hide SlotNext, Ready, Version, VersionOf;
  }

  // ------------------------------------------------------------ what a stop prevents

  /** Callbacks a node has had or can still be given without another look at its flag. */
  function Committed(node: Node): (k: nat) {
    node.fired + One(node.phase.Passed?)
  }

  lemma StepKeepsStopped(st: State, a: Action, n: Id)
    requires Typed(st) && Enabled(st, a) && n in st.nodes && st.nodes[n].stop
    ensures var st' := Next(st, a);
      n in st'.nodes && st'.nodes[n].stop && Committed(st'.nodes[n]) <= Committed(st.nodes[n])
  {
  }

  /** Once the flag is set the node is fired at most once more, and only if the wheel had already
      passed its check of the flag at that moment. */
  lemma {:induction false} StoppedFiresAtMostOnceMore(run: seq<State>, i: nat, j: nat, n: Id)
    requires IsRun(run) && i <= j < |run| && n in run[i].nodes && run[i].nodes[n].stop
    ensures n in run[j].nodes && run[j].nodes[n].stop
    ensures Committed(run[j].nodes[n]) <= Committed(run[i].nodes[n])
    ensures run[j].nodes[n].fired <= run[i].nodes[n].fired + One(run[i].nodes[n].phase.Passed?)
    decreases j - i
  {
    hide Next, Enabled, Typed;
    if i < j {
      StoppedFiresAtMostOnceMore(run, i, j - 1, n);
      assert IsStep(run[j - 1], run[j]);
      var a :| Enabled(run[j - 1], a) && run[j] == Next(run[j - 1], a);
      StepKeepsStopped(run[j - 1], a, n);
    }
  }

  /** And that one callback does happen: a flag set after the check does not prevent it. */
  lemma PassedStillFires(st: State, n: Id, t: Slot)
    requires Typed(st) && n in st.nodes && t in st.slots
    requires st.nodes[n].phase.Passed? && Enabled(st, Do(n, SetFlag, t))
    ensures var st1 := Next(st, Do(n, SetFlag, t));
      && Typed(st1) && st1.nodes[n].stop && Enabled(st1, Do(n, Submit, t))
      && Next(st1, Do(n, Submit, t)).nodes[n].fired == st.nodes[n].fired + 1
  {
    hide Version, VersionOf;
    var st1 := Next(st, Do(n, SetFlag, t));
    assert st1.nodes[n].stamp == st.nodes[n].stamp;
  }

  /** A run grows by one step. */
  lemma Extend(run: seq<State>, a: Action) returns (run': seq<State>)
    requires IsRun(run) && Typed(run[|run| - 1]) && Enabled(run[|run| - 1], a)
    ensures IsRun(run') && run' == run + [Next(run[|run| - 1], a)]
  {
    run' := run + [Next(run[|run| - 1], a)];
    forall i | 0 <= i < |run'| - 1
      ensures IsStep(run'[i], run'[i + 1])
    {
      if i < |run| - 1 { assert IsStep(run[i], run[i + 1]); }
    }
  }

  /** A state with one slot and one node. */
  function Single(slot: SlotState, node: Node): (st: State) {
    State(map[Near(0) := slot], map[0 := node], false)
  }

  lemma ExtendSingle(run: seq<State>, slot: SlotState, node: Node, kind: Kind) returns (run': seq<State>)
    requires run != [] && IsRun(run) && run[|run| - 1] == Single(slot, node) && Ready(node, Near(0), slot, kind)
    requires (node.stamp.Stamp? ==> node.stamp.slot == Near(0)) && !kind.Unlink?
    ensures run' != [] && IsRun(run') && |run'| == |run| + 1 && run <= run' && run'[0] == run[0]
    ensures run'[|run|] == Single(SlotNext(0, node, Near(0), slot, kind), NodeNext(node, Near(0), slot, kind))
  {
    hide SlotNext, NodeNext, Ready;
    run' := Extend(run, Do(0, kind, Near(0)));
    assert run'[|run|] == Single(SlotNext(0, node, Near(0), slot, kind), NodeNext(node, Near(0), slot, kind));
  }

  const NEW_NODE := Node(false, false, None, Zero, Fresh, Idle, 0)

  /** The slot after d drains, empty or with the node in it. */
  function Drains(d: nat): (slot: SlotState) { SlotState(d, {}, Free) }
  function Occupied(d: nat): (slot: SlotState) { SlotState(d, {0}, Free) }

  /** The node linked in the slot after d drains. */
  function Filed(n: Node, d: nat): (n': Node) {
    n.(list := Some(Near(0)), stamp := Stamp(Near(0), d), phase := Resting)
  }

  lemma FirstState(periodic: bool) returns (run: seq<State>)
    ensures IsRun(run) && Initial(run[0]) && run[|run| - 1] == Single(Drains(0), NEW_NODE.(periodic := periodic))
  {
    run := [State(map[Near(0) := Drains(0)], map[], false)];
    run := Extend(run, New(0, periodic));
  }

  /** A node that is not stopped is pushed to the slot. */
  lemma PushFrom(run: seq<State>, d: nat, n: Node) returns (run': seq<State>)
    requires run != [] && IsRun(run) && Initial(run[0]) && run[|run| - 1] == Single(Drains(d), n)
    requires (n.phase.Fresh? || n.phase.Rearming?) && !n.stop && (n.stamp.Stamp? ==> n.stamp.slot == Near(0))
    ensures run' != [] && IsRun(run') && Initial(run'[0]) && run'[|run'| - 1] == Single(Occupied(d), Filed(n, d))
  {
    hide IsRun, Initial, Version, VersionOf;
    run' := AppendFrom(run, d, n);
    var s, m := Occupied(d).(lock := ByPush(0)), n;
    run' := ExtendSingle(run', s, m.(phase := Pushing(Near(0), Appended)), StoreList);
    m := m.(list := Some(Near(0)));
    run' := ExtendSingle(run', s, m.(phase := Pushing(Near(0), ListStored)), StoreVersion);
    m := m.(stamp := Stamp(Near(0), d));
    run' := ExtendSingle(run', s, m.(phase := Pushing(Near(0), VersionStored)), UnlockPush);
  }

  lemma AppendFrom(run: seq<State>, d: nat, n: Node) returns (run': seq<State>)
    requires run != [] && IsRun(run) && Initial(run[0]) && run[|run| - 1] == Single(Drains(d), n)
    requires (n.phase.Fresh? || n.phase.Rearming?) && !n.stop && (n.stamp.Stamp? ==> n.stamp.slot == Near(0))
    ensures run' != [] && IsRun(run') && Initial(run'[0])
    ensures run'[|run'| - 1] == Single(Occupied(d).(lock := ByPush(0)), n.(phase := Pushing(Near(0), Appended)))
  {
    hide IsRun, Initial, Version, VersionOf;
    var s := Drains(d);
    run' := ExtendSingle(run, s, n, StartPush);
    run' := ExtendSingle(run', s, n.(phase := Pushing(Near(0), Waiting)), LockForPush);
    s := s.(lock := ByPush(0));
    run' := ExtendSingle(run', s, n.(phase := Pushing(Near(0), Locked)), CheckStop);
    run' := ExtendSingle(run', s, n.(phase := Pushing(Near(0), Checked)), Append);
    assert {} + {0} == {0};
  }

  lemma DetachSingle(run: seq<State>, d: nat, n: Node) returns (run': seq<State>)
    requires run != [] && IsRun(run) && Initial(run[0]) && run[|run| - 1] == Single(Occupied(d), Filed(n, d))
    requires d + 1 < SEQ_LIMIT
    ensures run' != [] && IsRun(run') && Initial(run'[0])
    ensures run'[|run'| - 1] == Single(Drains(d + 1), Filed(n, d).(phase := Detached(Near(0))))
  {
    run' := Extend(run, Detach(Near(0)));
  }

  /** A one-shot node is pushed to a slot. */
  lemma PushRun() returns (run: seq<State>)
    ensures IsRun(run) && Initial(run[0]) && run[|run| - 1] == Single(Occupied(0), Filed(NEW_NODE, 0))
  {
    run := FirstState(false);
    run := PushFrom(run, 0, NEW_NODE);
  }

  /** A run in which a node is stopped before it has fired and fires all the same: its stop comes
      between the wheel's check and its submit. */
  lemma StoppedButFired() returns (run: seq<State>, i: nat)
    ensures IsRun(run) && Initial(run[0]) && i < |run|
    ensures 0 in run[i].nodes && run[i].nodes[0].stop && run[i].nodes[0].fired == 0 && run[i].nodes[0].phase.Passed?
    ensures var end := run[|run| - 1];
      0 in end.nodes && end.nodes[0].stop && end.nodes[0].fired == 1
  {
    hide Version, VersionOf, IsRun;
    run := PushRun();
    run := DetachSingle(run, 0, NEW_NODE);
    var s, n := Drains(1), Filed(NEW_NODE, 0).(phase := Detached(Near(0)));
    run := ExtendSingle(run, s, n, CheckFire);
    run := ExtendSingle(run, s, n.(phase := Passed), SetFlag);
    i := |run| - 1;
    run := ExtendSingle(run, s, n.(phase := Passed, stop := true, pc := Flagged), Submit);
  }

  /** A periodic node can fire any number of times: after each submit it is pushed again. */
  lemma {:induction false} PeriodicFires(k: nat) returns (run: seq<State>, n: Node)
    requires k < SEQ_LIMIT
    ensures run != [] && IsRun(run) && Initial(run[0]) && run[|run| - 1] == Single(Drains(k), n)
    ensures n.periodic && !n.stop && n.fired == k && (n.phase.Fresh? || n.phase.Rearming?)
    ensures n.stamp.Stamp? ==> n.stamp.slot == Near(0)
    decreases k
  {
    if k == 0 {
      run := FirstState(true);
      n := NEW_NODE.(periodic := true);
    } else {
      hide IsRun, Initial;
      run, n := PeriodicFires(k - 1);
      run := PushFrom(run, k - 1, n);
      run := DetachSingle(run, k - 1, n);
      n := Filed(n, k - 1).(phase := Detached(Near(0)));
      run := FireFrom(run, k, n);
      n := n.(fired := k, phase := Rearming);
    }
  }

  /** A detached periodic node that is not stopped fires and is to be pushed again. */
  lemma FireFrom(run: seq<State>, d: nat, n: Node) returns (run': seq<State>)
    requires run != [] && IsRun(run) && Initial(run[0]) && run[|run| - 1] == Single(Drains(d), n)
    requires n.phase == Detached(Near(0)) && n.periodic && !n.stop && (n.stamp.Stamp? ==> n.stamp.slot == Near(0))
    ensures run' != [] && IsRun(run') && Initial(run'[0])
    ensures run'[|run'| - 1] == Single(Drains(d), n.(fired := n.fired + 1, phase := Rearming))
  {
    hide IsRun, Initial, Version, VersionOf;
    run' := ExtendSingle(run, Drains(d), n, CheckFire);
    run' := ExtendSingle(run', Drains(d), n.(phase := Passed), Submit);
  }

  /** A run in which a stop unlinks a node that rests in a slot. */
  lemma StopUnlinks() returns (run: seq<State>)
    ensures IsRun(run) && Initial(run[0])
    ensures var end := run[|run| - 1];
      0 in end.nodes && Unlinked(end.nodes[0]) && Near(0) in end.slots && end.slots[Near(0)].members == {}
  {
    run := PushRun();
    var states := UndisturbedStop(run, |run| - 1, 0, Near(0));
    hide Next, Enabled, Typed, Initial;
    for k := 0 to 5
      invariant run != [] && IsRun(run) && Initial(run[0]) && run[|run| - 1] == states[k]
    {
      run := Extend(run, Do(0, STOP_STEPS[k], Near(0)));
    }
  }

  /** A one-shot node is fired at most once, whatever is stopped or re-filed when. */
  lemma OneShotFiresOnce(run: seq<State>, i: nat, n: Id)
    requires IsRun(run) && Initial(run[0]) && i < |run| && n in run[i].nodes && !run[i].nodes[n].periodic
    ensures run[i].nodes[n].fired <= 1
  {
    RunKeepsInv(run, i);
    assert NodeOk(run[i].slots.Keys, run[i].nodes[n]);
  }

  /** A step on one node, a stop in particular, leaves every other node where it is. */
  lemma StepLeavesOthers(st: State, kind: Kind, n: Id, t: Slot, other: Id, s: Slot)
    requires Typed(st) && Enabled(st, Do(n, kind, t)) && other != n
    ensures var st' := Next(st, Do(n, kind, t));
      && (other in st.nodes <==> other in st'.nodes)
      && (other in st.nodes ==> st'.nodes[other] == st.nodes[other])
      && (s in st.slots <==> s in st'.slots)
      && (s in st.slots ==> st'.slots[s].drains == st.slots[s].drains)
      && (s in st.slots ==> (other in st'.slots[s].members <==> other in st.slots[s].members))
  {
    hide Version, VersionOf;
  }

  /** A push that will still look at the flag, or none at all. */
  predicate NotCommitted(node: Node) {
    !(node.phase.Pushing? && !node.phase.stage.Waiting? && !node.phase.stage.Locked?)
  }

  lemma StepKeepsOut(st: State, a: Action, n: Id)
    requires Typed(st) && Enabled(st, a) && n in st.nodes && st.nodes[n].stop && NotCommitted(st.nodes[n])
    requires forall s <- st.slots :: n !in st.slots[s].members
    ensures var st' := Next(st, a);
      && n in st'.nodes && st'.nodes[n].stop && NotCommitted(st'.nodes[n])
      && forall s <- st'.slots :: n !in st'.slots[s].members
  {
    hide Version, VersionOf;
  }

  /** Once the flag is set, a node that is in no list and whose push has not passed its check of the flag
      is never linked again. */
  lemma {:induction false} StoppedIsNotRelinked(run: seq<State>, i: nat, j: nat, n: Id)
    requires IsRun(run) && i <= j < |run| && n in run[i].nodes && run[i].nodes[n].stop
    requires NotCommitted(run[i].nodes[n]) && forall s <- run[i].slots :: n !in run[i].slots[s].members
    ensures n in run[j].nodes && run[j].nodes[n].stop && NotCommitted(run[j].nodes[n])
    ensures forall s <- run[j].slots :: n !in run[j].slots[s].members
    decreases j - i
  {
    hide Next, Enabled, Typed, NotCommitted;
    if i < j {
      StoppedIsNotRelinked(run, i, j - 1, n);
      assert IsStep(run[j - 1], run[j]);
      var a :| Enabled(run[j - 1], a) && run[j] == Next(run[j - 1], a);
      StepKeepsOut(run[j - 1], a, n);
    }
  }

  /** Over every run: a node leaves a list only when the wheel drains the list or the node's own stop
      unlinks it; nothing that is done to other nodes takes it out. */
  lemma {:induction false} OnlyDrainOrOwnStop(run: seq<State>, i: nat, j: nat, n: Id, l: Slot)
    requires IsRun(run) && i <= j < |run|
    requires l in run[i].slots && n in run[i].slots[l].members
    ensures l in run[j].slots
    ensures n !in run[j].slots[l].members ==> exists k :: i <= k < j && TakesOut(run[k], run[k + 1], n, l)
    decreases j - i
  {
    hide Next, Enabled, Typed, TakesOut;
    if i < j {
      OnlyDrainOrOwnStop(run, i, j - 1, n, l);
      assert IsStep(run[j - 1], run[j]);
      var a :| Enabled(run[j - 1], a) && run[j] == Next(run[j - 1], a);
      StepTakesOut(run[j - 1], a, n, l);
    }
  }

  /** The step is the drain of list l or the unlinking of node n from it by its stop. */
  ghost predicate TakesOut(st: State, st': State, n: Id, l: Slot) {
    Typed(st) && exists a :: (a == Detach(l) || a == Do(n, Unlink, l)) && Enabled(st, a) && st' == Next(st, a)
  }

  lemma StepTakesOut(st: State, a: Action, n: Id, l: Slot)
    requires Typed(st) && Enabled(st, a) && l in st.slots
    ensures var st' := Next(st, a);
      l in st'.slots && (n in st.slots[l].members && n !in st'.slots[l].members ==> TakesOut(st, st', n, l))
  {
    hide Version, VersionOf, NodeNext;
    match a
    case Do(m, kind, t) => if m != n { StepLeavesOthers(st, kind, m, t, n, l); }
    case _ =>
  }

  // ------------------------------------------------------------ a second stop

  /** One more `Stop` of a node, run on its own: it would delete the node from its list. */
  predicate WouldDelete(st: State, n: Id)
    requires Typed(st) && n in st.nodes
  {
    var node := st.nodes[n];
    && node.list.Some? && node.list.value in st.slots
    && VersionOf(node.stamp) == Version(node.list.value, st.slots[node.list.value].drains)
  }

  /** In every reachable state: one more stop deletes a node that is not in the list if and only if
      an earlier stop unlinked it and the list has not been drained since it was stamped. */
  lemma ExtraStopDamages(run: seq<State>, i: nat, n: Id, t: Slot)
    requires IsRun(run) && Initial(run[0]) && i < |run| && n in run[i].nodes && t in run[i].slots
    requires run[i].nodes[n].list == Some(t)
    ensures Typed(run[i])
    ensures var node, slot := run[i].nodes[n], run[i].slots[t];
      WouldDelete(run[i], n) && n !in slot.members <==> Unlinked(node) && node.stamp == Stamp(t, slot.drains)
  {
    RunKeepsInv(run, i);
    var st := run[i];
    SlotsValid(st);
    MatchMeansCurrent(st, n, t);
    assert Related(n, st.nodes[n], t, st.slots[t]) && NodeOk(st.slots.Keys, st.nodes[n]);
    hide Version, VersionOf;
  }

  /** A stop unlinked node `n` from list `t` in step i.  In every later state j the node is as that
      step left it and in no list, and one more stop would delete it again, damaging the list, if
      and only if the list was not drained in between. */
  lemma SecondStopHarmlessIffDrained(run: seq<State>, i: nat, j: nat, n: Id, t: Slot)
    requires IsRun(run) && Initial(run[0]) && 0 < i <= j < |run|
    requires Typed(run[i - 1]) && Enabled(run[i - 1], Do(n, Unlink, t)) && run[i] == Next(run[i - 1], Do(n, Unlink, t))
    ensures n in run[j].nodes && run[j].nodes[n] == run[i].nodes[n] && t in run[j].slots && Typed(run[j])
    ensures forall s <- run[j].slots :: n !in run[j].slots[s].members
    ensures WouldDelete(run[j], n) <==> run[j].slots[t].drains == run[i].slots[t].drains
  {
    RunKeepsInv(run, i - 1);
    AfterUnlink(run[i - 1], n, t);
    RunKeepsInv(run, i);
    UnlinkedStays(run, i, j, n, t);
    RunKeepsInv(run, j);
    NotAMember(run[j], n);
    ExtraStopDamages(run, j, n, t);
  }

  lemma AfterUnlink(st: State, n: Id, t: Slot)
    requires Inv(st) && Typed(st) && Enabled(st, Do(n, Unlink, t))
    ensures var st' := Next(st, Do(n, Unlink, t));
      && Unlinked(st'.nodes[n]) && st'.nodes[n].list == Some(t)
      && st'.nodes[n].stamp == Stamp(t, st'.slots[t].drains)
  {
    assert Related(n, st.nodes[n], t, st.slots[t]);
    hide Version, VersionOf;
  }

  lemma NotAMember(st: State, n: Id)
    requires Inv(st) && n in st.nodes && Unlinked(st.nodes[n])
    ensures forall s <- st.slots :: n !in st.slots[s].members
  {
    assert NodeOk(st.slots.Keys, st.nodes[n]);
    forall s <- st.slots
      ensures n !in st.slots[s].members
    {
      assert Related(n, st.nodes[n], s, st.slots[s]);
    }
  }

  lemma {:induction false} UnlinkedStays(run: seq<State>, i: nat, j: nat, n: Id, t: Slot)
    requires IsRun(run) && Inv(run[0]) && i <= j < |run| && n in run[i].nodes && Unlinked(run[i].nodes[n])
    requires t in run[i].slots
    ensures n in run[j].nodes && run[j].nodes[n] == run[i].nodes[n]
    ensures t in run[j].slots && run[i].slots[t].drains <= run[j].slots[t].drains
    decreases j - i
  {
    hide Next, Enabled, Typed, Inv;
    if i < j {
      UnlinkedStays(run, i, j - 1, n, t);
      assert IsStep(run[j - 1], run[j]);
      var a :| Enabled(run[j - 1], a) && run[j] == Next(run[j - 1], a);
      RunKeepsInv(run, j - 1);
      UnlinkedStep(run[j - 1], a, n, t);
    }
  }

  lemma UnlinkedStep(st: State, a: Action, n: Id, t: Slot)
    requires Inv(st) && Typed(st) && Enabled(st, a) && n in st.nodes && Unlinked(st.nodes[n]) && t in st.slots
    ensures var st' := Next(st, a);
      && n in st'.nodes && st'.nodes[n] == st.nodes[n]
      && t in st'.slots && st.slots[t].drains <= st'.slots[t].drains
  {
    hide Version, VersionOf, Related, NodeOk, SlotOk, NodeNext, SlotNext, Ready;
    UnlinkedIsGone(st, n);
    NotAMember(st, n);
    match a
    case Do(m, kind, s) =>
      NothingReady(st.nodes[m], s, st.slots[s], kind);
      DrainsStay(m, st.nodes[m], s, st.slots[s], kind);
    case _ =>
  }

  lemma UnlinkedIsGone(st: State, n: Id)
    requires Inv(st) && n in st.nodes && Unlinked(st.nodes[n])
    ensures st.nodes[n].phase.Gone?
  {
    assert NodeOk(st.slots.Keys, st.nodes[n]);
  }

  /** A node that its stop has unlinked takes no further step. */
  lemma NothingReady(node: Node, t: Slot, slot: SlotState, kind: Kind)
    requires Ready(node, t, slot, kind)
    ensures !(Unlinked(node) && node.phase.Gone?)
  {
  }

  lemma DrainsStay(n: Id, node: Node, t: Slot, slot: SlotState, kind: Kind)
    requires ValidSlot(t) && (node.stamp.Stamp? ==> ValidSlot(node.stamp.slot))
    ensures SlotNext(n, node, t, slot, kind).drains == slot.drains
  {
    hide Version, VersionOf;
  }
}
