/** The timing wheel itself: 256 near slots, four levels of 64 slots, timers filed by
    shifting and masking, whole slots re-filed downwards.  Every method is proved against
    the pending-set machine of `WheelSpec`. */
module TimeWheel {
  import opened Common
  import opened WheelMath
  import opened WheelSpec
  import opened RingList
  import StopProtocol

  /** A timer node.  `list` is the slot whose head the node was last pushed to and `version` the
      version of that head at the time. */
  datatype Timer = Timer(expire: nat, userExpire: Duration, isSchedule: bool, list: Slot, version: nat)

  function AsSet(s: seq<Id>): (r: set<Id>) {
    set id <- s
  }

  /** The spec's entry for a timer, seen from tick `jiffies`. */
  function EntryOf(t: Timer, jiffies: nat): (e: Entry)
    requires ValidSlot(t.list)
  {
    Entry(Due(t.list, t.expire, jiffies), if t.isSchedule then Ticks(t.userExpire) else 0, t.isSchedule)
  }

  /** A node pushed to the list of slot s. */
  function Filed(t: Timer, s: Slot, version: map<Slot, nat>): (t': Timer) {
    t.(list := s, version := if s in version then version[s] else 0)
  }

  /** A node pushed to where it belongs at tick `jiffies`. */
  predicate IsRefiled(t: Timer, t': Timer, version: map<Slot, nat>, jiffies: nat) {
    t.expire < TWO_64 && jiffies < TWO_64 && t' == Filed(t, SlotOf(t.expire, jiffies), version)
  }

  // ------------------------------------------------------------ which slots a tick drains

  /** A tick reaches level i of the cascade loop only when it is aligned to that level. */
  lemma Aligned(tick: nat, i: nat)
    requires i < LEVELS
    ensures tick % LevelMax(i + 1) == 0 <==> tick % LevelMax(i) == 0 && tick / LevelMax(i) % LEVEL_SIZE == 0
  {
    var w := LevelMax(i);
    LevelMaxStep(i);
    var q := tick / w;
    assert tick == (q / 64) * (64 * w) + ((q % 64) * w + tick % w);
    OffsetBound(i, q % 64);
    assert (q % 64) * w + tick % w < 64 * w;
    QuotientUnique(tick, q / 64, (q % 64) * w + tick % w, 64 * w);
  }

  lemma LevelDrained(tick: nat, i: nat, k: nat)
    requires i < LEVELS && k < LEVEL_SIZE
    ensures DrainedAt(Level(i, k), tick) <==> tick % LevelMax(i) == 0 && tick / LevelMax(i) % LEVEL_SIZE == k
  {
    var w := LevelMax(i);
    LevelMaxStep(i);
    var q := tick / w;
    var m := q % 64;
    assert tick == (q / 64) * (64 * w) + (m * w + tick % w);
    OffsetBound(i, m);
    OffsetBound(i, k);
    QuotientUnique(tick, q / 64, m * w + tick % w, 64 * w);
    assert tick % (64 * w) == m * w + tick % w;
    var d := k - m;
    assert k * w == m * w + d * w;
    if d >= 1 { MulAtLeast(d, w); }
    if d <= -1 { MulAtLeast(-d, w); }
  }

  lemma UnalignedAbove(tick: nat, i: nat, i': nat)
    requires i <= i' <= LEVELS && tick % LevelMax(i) != 0
    ensures tick % LevelMax(i') != 0
    decreases i' - i
  {
    if i < i' {
      Aligned(tick, i' - 1);
      UnalignedAbove(tick, i, i' - 1);
    }
  }

  // ------------------------------------------------------------ which node is in which slot

  type Slots = map<Slot, seq<Id>>

  ghost predicate Complete(slots: Slots) {
    forall s :: s in slots <==> ValidSlot(s)
  }

  ghost predicate WellFiled(nodes: map<Id, Timer>) {
    forall id <- nodes :: ValidSlot(nodes[id].list) && nodes[id].expire < TICK_LIMIT + TICK_LIMIT
  }

  /** Every node outside `loose` is linked in exactly the slot its `list` names, once. */
  ghost predicate Linked(slots: Slots, nodes: map<Id, Timer>, loose: set<Id>) {
    && Complete(slots)
    && (forall id <- nodes :: id !in loose ==> nodes[id].list in slots && id in slots[nodes[id].list])
    && (forall s <- slots, id <- slots[s] :: id in nodes && id !in loose && nodes[id].list == s)
    && (forall s <- slots :: Distinct(slots[s]))
  }

  lemma AtHome(slots: Slots, nodes: map<Id, Timer>, id: Id)
    requires Linked(slots, nodes, {}) && id in nodes
    ensures nodes[id].list in slots && id in slots[nodes[id].list] && Distinct(slots[nodes[id].list])
  {
  }

  lemma PushKeepsLinked(
      slots: Slots, nodes: map<Id, Timer>, loose: set<Id>, id: Id, s: Slot, version: map<Slot, nat>)
    requires Linked(slots, nodes, loose) && id in nodes && id in loose && s in slots
    ensures Linked(slots[s := slots[s] + [id]], nodes[id := Filed(nodes[id], s, version)], loose - {id})
  {
  }

  /** Fields of a loose node can change, and loose nodes can come and go, without touching a slot. */
  lemma LooseKeepsLinked(slots: Slots, nodes: map<Id, Timer>, loose: set<Id>, id: Id, t: Timer)
    requires Linked(slots, nodes, loose) && (id in nodes ==> id in loose)
    ensures Linked(slots, nodes[id := t], loose + {id})
    ensures Linked(slots, nodes - {id}, loose - {id})
  {
  }

  lemma DetachKeepsLinked(slots: Slots, nodes: map<Id, Timer>, s: Slot)
    requires Linked(slots, nodes, {}) && s in slots
    ensures Linked(slots[s := []], nodes, AsSet(slots[s]))
    ensures Distinct(slots[s]) && forall id <- slots[s] :: id in nodes
    ensures forall id <- nodes :: id in slots[s] <==> nodes[id].list == s
  {
    var slots', loose := slots[s := []], AsSet(slots[s]);
    assert Complete(slots') by { assert slots'.Keys == slots.Keys; }
    forall id <- nodes
      ensures id in slots[s] <==> nodes[id].list == s
      ensures id !in loose ==> nodes[id].list in slots' && id in slots'[nodes[id].list]
    {
      assert nodes[id].list in slots && id in slots[nodes[id].list];
    }
    forall s' <- slots', id <- slots'[s']
      ensures id in nodes && id !in loose && nodes[id].list == s'
    {
      assert s' != s && id in slots[s'];
    }
  }

  lemma UnlinkKeepsLinked(slots: Slots, nodes: map<Id, Timer>, id: Id, k: nat)
    requires Linked(slots, nodes, {}) && id in nodes
    requires k < |slots[nodes[id].list]| && slots[nodes[id].list][k] == id
    ensures var ids := slots[nodes[id].list];
      Linked(slots[nodes[id].list := ids[..k] + ids[k + 1..]], nodes - {id}, {})
  {
    hide Distinct;
    AtHome(slots, nodes, id);
    var home := nodes[id].list;
    var ids := slots[home];
    var rest := ids[..k] + ids[k + 1..];
    var slots', nodes' := slots[home := rest], nodes - {id};
    RemoveAt(ids, k);
    assert Complete(slots') by { assert slots'.Keys == slots.Keys; }
    forall x <- nodes'
      ensures nodes'[x].list in slots' && x in slots'[nodes'[x].list]
    {
      assert x in slots[nodes[x].list];
    }
    forall s <- slots', x <- slots'[s]
      ensures x in nodes' && nodes'[x].list == s
    {
      assert x in slots[s];
    }
  }

  ghost function PendingAt(nodes: map<Id, Timer>, tick: nat): (p: map<Id, Entry>)
    requires WellFiled(nodes)
  {
    map id <- nodes :: EntryOf(nodes[id], tick)
  }

  lemma PendingInsert(nodes: map<Id, Timer>, id: Id, t: Timer, tick: nat)
    requires WellFiled(nodes) && WellFiled(nodes[id := t]) && ValidSlot(t.list)
    ensures PendingAt(nodes[id := t], tick) == PendingAt(nodes, tick)[id := EntryOf(t, tick)]
  {
  }

  lemma PendingRemove(nodes: map<Id, Timer>, id: Id, tick: nat)
    requires WellFiled(nodes) && WellFiled(nodes - {id})
    ensures PendingAt(nodes - {id}, tick) == PendingAt(nodes, tick) - {id}
  {
  }

  // ------------------------------------------------------------ heads, rings and versions

  /** The head of a slot, as a reference: below zero, where no node is. */
  function HeadOf(s: Slot): (h: Ref) {
    match s
    case Near(k) => -1 - k
    case Level(i, k) => -1 - NEAR_SIZE - LEVEL_SIZE * i - k
  }

  function SlotAt(h: Ref): (s: Slot)
    requires h < 0
  {
    if h + NEAR_SIZE >= 0 then Near(-1 - h)
    else Level((-1 - NEAR_SIZE - h) / LEVEL_SIZE, (-1 - NEAR_SIZE - h) % LEVEL_SIZE)
  }

  /** Where the list of a drained slot is walked. */
  const TMP: Ref := -1000

  lemma HeadInverse(s: Slot)
    requires ValidSlot(s)
    ensures TMP < HeadOf(s) < 0 && SlotAt(HeadOf(s)) == s
  {
  }

  /** The rings are the slots' lists, and perhaps one list that is being walked. */
  ghost predicate Threaded(elems: map<Ref, seq<Ref>>, slots: Slots, tmp: Option<seq<Id>>) {
    && (forall s <- slots :: HeadOf(s) in elems && elems[HeadOf(s)] == slots[s])
    && (forall h <- elems :: h < 0 && if h == TMP then tmp.Some? else SlotAt(h) in slots && HeadOf(SlotAt(h)) == h)
    && (tmp.Some? ==> TMP in elems && elems[TMP] == tmp.value)
  }

  lemma HeadsApart(slots: Slots)
    requires Complete(slots)
    ensures forall s <- slots :: TMP < HeadOf(s) < 0 && SlotAt(HeadOf(s)) == s
  {
    forall s <- slots
      ensures TMP < HeadOf(s) < 0 && SlotAt(HeadOf(s)) == s
    {
      HeadInverse(s);
    }
  }

  /** A loose node that is not in the walked list is in no ring. */
  lemma Unowned(r: Rings, slots: Slots, nodes: map<Id, Timer>, loose: set<Id>, tmp: Option<seq<Id>>, id: Id)
    requires Owned(r) && Threaded(r.elems, slots, tmp) && Linked(slots, nodes, loose)
    requires id in loose && (tmp.Some? ==> id !in tmp.value)
    ensures id !in r.owner
  {
    forall x <- r.owner | x >= 0 && (tmp.Some? ==> x !in tmp.value)
      ensures x !in loose
    {
      var h := r.owner[x];
      assert x in r.elems[h] && r.elems[h] == slots[SlotAt(h)];
    }
  }

  lemma NothingWalked(r: Rings, slots: Slots)
    requires Owned(r) && Threaded(r.elems, slots, None)
    ensures TMP !in r.owner
  {
    forall x <- r.owner
      ensures x != TMP
    {
      var h := r.owner[x];
      if x != h { assert x in r.elems[h] && r.elems[h] == slots[SlotAt(h)]; }
    }
  }

  lemma ThreadPut(elems: map<Ref, seq<Ref>>, slots: Slots, tmp: Option<seq<Id>>, s: Slot, ids: seq<Id>)
    requires Threaded(elems, slots, tmp) && Complete(slots) && s in slots
    ensures Threaded(elems[HeadOf(s) := ids], slots[s := ids], tmp)
  {
    HeadsApart(slots);
  }

  lemma ThreadDetach(elems: map<Ref, seq<Ref>>, slots: Slots, s: Slot)
    requires Threaded(elems, slots, None) && Complete(slots) && s in slots
    ensures Threaded(elems[TMP := slots[s]][HeadOf(s) := []], slots[s := []], Some(slots[s]))
  {
    HeadsApart(slots);
  }

  lemma ThreadPop(elems: map<Ref, seq<Ref>>, slots: Slots, ids: seq<Id>, rest: seq<Id>)
    requires Threaded(elems, slots, Some(ids)) && Complete(slots)
    ensures Threaded(elems[TMP := rest], slots, Some(rest))
    ensures Threaded(elems - {TMP}, slots, None)
  {
    HeadsApart(slots);
  }

  /** Linked nodes carry the version of their list; those in a walked list, and those that have fired,
      an older one. */
  ghost predicate Current(nodes: map<Id, Timer>, spent: map<Id, Timer>, version: map<Slot, nat>, loose: set<Id>) {
    && (forall s :: s in version <==> ValidSlot(s))
    && (forall s <- version :: version[s] > 0)
    && (forall id <- nodes :: nodes[id].list in version)
    && (forall id <- nodes ::
          if id in loose then nodes[id].version < version[nodes[id].list]
          else nodes[id].version == version[nodes[id].list])
    && (forall id <- spent :: spent[id].list in version && spent[id].version < version[spent[id].list])
  }

  lemma PushKeepsCurrent(
      nodes: map<Id, Timer>, spent: map<Id, Timer>, version: map<Slot, nat>, loose: set<Id>, id: Id, s: Slot)
    requires Current(nodes, spent, version, loose) && id in nodes && ValidSlot(s)
    ensures Current(nodes[id := Filed(nodes[id], s, version)], spent, version, loose - {id})
  {
  }

  lemma DetachKeepsCurrent(
      nodes: map<Id, Timer>, spent: map<Id, Timer>, version: map<Slot, nat>, ids: seq<Id>, s: Slot)
    requires Current(nodes, spent, version, {}) && ValidSlot(s)
    requires forall id <- nodes :: id in ids <==> nodes[id].list == s
    ensures s in version && Current(nodes, spent, version[s := version[s] + 1], AsSet(ids))
  {
    assert s in version;
    assert version[s := version[s] + 1].Keys == version.Keys;
  }

  lemma NewKeepsCurrent(
      nodes: map<Id, Timer>, spent: map<Id, Timer>, version: map<Slot, nat>, id: Id, node: Timer)
    requires Current(nodes, spent, version, {}) && ValidSlot(node.list) && node.version == 0
    ensures Current(nodes[id := node], spent, version, {id})
  {
  }

  /** The test of a stop: the version of a node agrees with that of its list exactly while it is
      linked. */
  lemma MatchMeansLinked(nodes: map<Id, Timer>, spent: map<Id, Timer>, version: map<Slot, nat>, id: Id)
    requires Current(nodes, spent, version, {}) && (id in nodes || id in spent)
    ensures var t := if id in nodes then nodes[id] else spent[id];
      t.list in version && (t.version == version[t.list] <==> id in nodes)
  {
  }

  lemma ForgetNode(nodes: map<Id, Timer>, spent: map<Id, Timer>, version: map<Slot, nat>, id: Id)
    requires Current(nodes, spent, version, {})
    ensures Current(nodes, spent - {id}, version, {}) && Current(nodes - {id}, spent - {id}, version, {})
  {
  }

  /** A node that fires and is not re-armed keeps its outdated version. */
  lemma SpendKeepsCurrent(
      nodes: map<Id, Timer>, spent: map<Id, Timer>, version: map<Slot, nat>, loose: set<Id>, id: Id)
    requires Current(nodes, spent, version, loose) && id in nodes && id in loose
    ensures Current(nodes - {id}, spent[id := nodes[id]], version, loose - {id})
  {
  }

  lemma RearmKeepsCurrent(
      nodes: map<Id, Timer>, spent: map<Id, Timer>, version: map<Slot, nat>, loose: set<Id>, id: Id, expire: nat)
    requires Current(nodes, spent, version, loose) && id in nodes
    ensures Current(nodes[id := nodes[id].(expire := expire)], spent, version, loose)
  {
  }

  lemma CompleteSlots(slots: Slots, nodes: map<Id, Timer>, loose: set<Id>)
    requires Linked(slots, nodes, loose)
    ensures Complete(slots)
  {
  }

  lemma HeadThere(elems: map<Ref, seq<Ref>>, slots: Slots, tmp: Option<seq<Id>>, s: Slot)
    requires Threaded(elems, slots, tmp) && Complete(slots) && ValidSlot(s)
    ensures s in slots && HeadOf(s) in elems && elems[HeadOf(s)] == slots[s]
  {
  }

  lemma WalkedThere(elems: map<Ref, seq<Ref>>, slots: Slots, tmp: seq<Id>)
    requires Threaded(elems, slots, Some(tmp))
    ensures TMP in elems && elems[TMP] == tmp
  {
  }

  lemma OwnedBy(lists: Lists)
    requires lists.Valid()
    ensures Owned(lists.rings)
  {
  }

  /** The first n heads are there, with empty rings. */
  ghost predicate EmptyHeads(elems: map<Ref, seq<Ref>>, n: nat) {
    && (forall h: Ref :: h in elems <==> h < 0 <= h + n)
    && (forall h <- elems :: elems[h] == [])
  }

  lemma NoHeadYet(r: Rings, n: nat)
    requires Owned(r) && EmptyHeads(r.elems, n)
    ensures -1 - n !in r.owner
  {
  }

  lemma AllEmpty(elems: map<Ref, seq<Ref>>, slots: Slots)
    requires EmptyHeads(elems, NEAR_SIZE + LEVEL_SIZE * LEVELS)
    requires Complete(slots) && forall s <- slots :: slots[s] == []
    ensures Threaded(elems, slots, None)
  {
    HeadsApart(slots);
  }

  /** What comes later in a list without repetitions has not come before. */
  lemma NotYet(ids: seq<Id>, k: nat)
    requires Distinct(ids) && k < |ids|
    ensures ids[k] !in ids[..k] && ids[k] !in ids[k + 1..] && Distinct(ids[k..])
    ensures AsSet(ids[k..]) - {ids[k]} == AsSet(ids[k + 1..])
  {
    assert ids[k..] == [ids[k]] + ids[k + 1..];
  }

  /** The list of one slot has got one more node, at its end. */
  ghost predicate PushedTo(before: Slots, after: Slots, s: Slot, id: Id) {
    s in before && after == before[s := before[s] + [id]]
  }

  /** The nodes among `ids` that are filed in slot s, in order. */
  ghost function FiledAt(ids: seq<Id>, nodes: map<Id, Timer>, s: Slot): (r: seq<Id>) {
    if ids == [] then []
    else
      var x := ids[|ids| - 1];
      FiledAt(ids[..|ids| - 1], nodes, s) + if x in nodes && nodes[x].list == s then [x] else []
  }

  /** Every list has got the nodes of `ids` that are filed there, in order, and nothing else changed. */
  ghost predicate InOrder(before: Slots, after: Slots, ids: seq<Id>, nodes: map<Id, Timer>) {
    && (forall s <- before :: s in after)
    && (forall s <- after :: s in before && after[s] == before[s] + FiledAt(ids, nodes, s))
  }

  /** A drained list has been emptied and its nodes distributed, in order. */
  ghost predicate Distributed(before: Slots, after: Slots, s: Slot, nodes: map<Id, Timer>) {
    s in before && InOrder(before[s := []], after, before[s], nodes)
  }

  lemma {:induction false} FiledAtFrame(ids: seq<Id>, nodes: map<Id, Timer>, nodes': map<Id, Timer>, s: Slot)
    requires forall x <- ids :: (x in nodes <==> x in nodes') && (x in nodes ==> nodes'[x].list == nodes[x].list)
    ensures FiledAt(ids, nodes, s) == FiledAt(ids, nodes', s)
  {
    if ids != [] {
      assert ids[|ids| - 1] in ids;
      FiledAtFrame(ids[..|ids| - 1], nodes, nodes', s);
    }
  }

  lemma NoneMoved(slots: Slots, nodes: map<Id, Timer>)
    ensures InOrder(slots, slots, [], nodes)
  {
  }

  /** The next node of a walk is pushed where it is filed, or to no list. */
  lemma OneMoved(
      before: Slots, mid: Slots, after: Slots, ids: seq<Id>, nodes: map<Id, Timer>, nodes': map<Id, Timer>, id: Id)
    requires InOrder(before, mid, ids, nodes)
    requires forall x <- ids :: (x in nodes <==> x in nodes') && (x in nodes ==> nodes'[x].list == nodes[x].list)
    requires if id in nodes' then PushedTo(mid, after, nodes'[id].list, id) else after == mid
    ensures InOrder(before, after, ids + [id], nodes')
  {
    assert (ids + [id])[..|ids|] == ids;
    forall s <- after
      ensures s in before && after[s] == before[s] + FiledAt(ids + [id], nodes', s)
    {
      FiledAtFrame(ids, nodes, nodes', s);
    }
  }

  lemma RefileKeepsEntry(t: Timer, t': Timer, version: map<Slot, nat>, jiffies: nat)
    requires t.expire < TICK_LIMIT + TICK_LIMIT && jiffies <= TICK_LIMIT && IsRefiled(t, t', version, jiffies)
    requires ValidSlot(t.list) && t.list.Level? && DrainedAt(t.list, jiffies)
    ensures ValidSlot(t'.list) && EntryOf(t', jiffies) == EntryOf(t, jiffies)
    ensures t'.list != t.list && (t'.list.Near? || !DrainedAt(t'.list, jiffies))
  {
    RefileKeepsDue(t.list, t.expire, jiffies);
  }

  /** A node that fired at `tick` has been re-armed, as its entry says. */
  predicate IsRearmed(t: Timer, t': Timer, tick: nat) {
    ValidSlot(t.list) && ValidSlot(t'.list) && EntryOf(t', tick + 1) == Rearmed(EntryOf(t, tick), tick)
  }

  lemma RearmedEntry(t: Timer, t': Timer, tick: nat)
    requires tick < TICK_LIMIT && ValidSlot(t.list) && t.isSchedule
    requires t'.isSchedule && t'.userExpire == t.userExpire && t'.expire == Ticks(t.userExpire) + tick
    requires t'.list == SlotOf(t'.expire, tick + 1)
    ensures IsRearmed(t, t', tick)
  {
    FreshDue(t'.expire, tick + 1);
  }

  lemma InsertedIsEntry(t: Timer, delay: Duration, isSchedule: bool, readAt: nat, jiffies: nat)
    requires readAt <= jiffies <= TICK_LIMIT && t.userExpire == delay && t.isSchedule == isSchedule
    requires t.expire == readAt + Ticks(delay) && t.list == SlotOf(t.expire, readAt)
    ensures ValidSlot(t.list) && EntryOf(t, jiffies) == InsertedEntry(delay, isSchedule, readAt, jiffies)
  {
  }

  /** All the heads of a wheel, with empty lists. */
  method NewHeads() returns (l: Lists)
    ensures fresh(l) && l.Valid() && EmptyHeads(l.rings.elems, NEAR_SIZE + LEVEL_SIZE * LEVELS)
  {
    l := new Lists();
    for k := 0 to NEAR_SIZE
      invariant l.Valid() && fresh(l) && EmptyHeads(l.rings.elems, k)
    {
      NewHead(l, Near(k), k);
    }
    for i := 0 to LEVELS
      invariant l.Valid() && fresh(l) && EmptyHeads(l.rings.elems, NEAR_SIZE + LEVEL_SIZE * i)
    {
      for k := 0 to LEVEL_SIZE
        invariant l.Valid() && fresh(l) && EmptyHeads(l.rings.elems, NEAR_SIZE + LEVEL_SIZE * i + k)
      {
        NewHead(l, Level(i, k), NEAR_SIZE + LEVEL_SIZE * i + k);
      }
    }
  }

  method NewHead(l: Lists, s: Slot, ghost n: nat)
    requires l.Valid() && EmptyHeads(l.rings.elems, n) && HeadOf(s) == -1 - n
    modifies l
    ensures l.Valid() && EmptyHeads(l.rings.elems, n + 1)
  {
    hide Lists.Valid;
    OwnedBy(l);
    NoHeadYet(l.rings, n);
    l.Init(HeadOf(s));
  }

  function AllSlots(): (all: set<Slot>)
    ensures forall s :: s in all <==> ValidSlot(s)
  {
    (set k | 0 <= k < NEAR_SIZE :: Near(k)) + (set i, k | 0 <= i < LEVELS && 0 <= k < LEVEL_SIZE :: Level(i, k))
  }

  function FirstVersions(): (version: map<Slot, nat>)
    ensures Current(map[], map[], version, {})
  {
    map s <- AllSlots() :: StopProtocol.Version(s, 0)
  }

  function NoTimers(): (slots: Slots)
    ensures Linked(slots, map[], {}) && forall s <- slots :: slots[s] == []
  {
    map s <- AllSlots() :: []
  }

  class Wheel {
    var jiffies: nat
    var curTimePoint: nat
    const lists: Lists
    var version: map<Slot, nat>
    var nodes: map<Id, Timer>    // the timers that are linked
    var spent: map<Id, Timer>    // those that have fired and can still be stopped
    ghost var slots: Slots
    ghost var history: seq<set<Id>>
    ghost var used: set<Id>
    ghost var stopped: set<Id>

    /** The wheel while the nodes of `loose` are on their way from one list to another and those of
        `tmp` are still to be walked. */
    ghost predicate Holds(loose: set<Id>, tmp: Option<seq<Id>>)
      reads this`slots, this`nodes, this`spent, this`version, lists
    {
      && lists.Valid() && Threaded(lists.rings.elems, slots, tmp)
      && Linked(slots, nodes, loose) && WellFiled(nodes) && Current(nodes, spent, version, loose)
      && (tmp.Some? ==> forall id <- tmp.value :: id in loose)
    }

    ghost predicate Valid()
      reads this, lists
    {
      && Holds({}, None)
      && jiffies <= TICK_LIMIT
      && |history| == jiffies
      && used == nodes.Keys + spent.Keys + stopped
    }

    /** The abstract state: what is pending, without slots. */
    ghost function View(): (w: State)
      requires Valid()
      reads this, lists
    {
      State(jiffies, curTimePoint, PendingAt(nodes, jiffies), history, used, stopped)
    }

    lemma Filing(loose: set<Id>, tmp: Option<seq<Id>>)
      requires Holds(loose, tmp)
      ensures WellFiled(nodes)
    {
    }

    lemma Opened()
      requires Valid()
      ensures Holds({}, None) && WellFiled(nodes) && |history| == jiffies && used == nodes.Keys + spent.Keys + stopped
      ensures View() == State(jiffies, curTimePoint, PendingAt(nodes, jiffies), history, used, stopped)
    {
    }

    lemma Closed()
      requires Holds({}, None) && WellFiled(nodes) && jiffies <= TICK_LIMIT
      requires |history| == jiffies && used == nodes.Keys + spent.Keys + stopped
      ensures Valid()
      ensures View() == State(jiffies, curTimePoint, PendingAt(nodes, jiffies), history, used, stopped)
    {
    }

    constructor (now: nat)
      ensures Valid() && View() == Initial(now) && fresh(lists)
    {
      hide Linked, Current, Threaded, Lists.Valid, EmptyHeads, FirstVersions, NoTimers;
      version := FirstVersions();
      slots := NoTimers();
      jiffies, curTimePoint, nodes, spent, history, used, stopped := 0, now, map[], map[], [], {}, {};
      var heads := NewHeads();
      lists := heads;
      new;
      CompleteSlots(slots, nodes, {});
      AllEmpty(lists.rings.elems, slots);
    }

    /** The due tick of a node is that of its slot (see `WheelMath`): chooses the slot for node `id`
        believing the tick is `now`, and appends the node to it. */
    method Add(id: Id, now: nat, ghost loose: set<Id>, ghost tmp: Option<seq<Id>>)
      requires Holds(loose, tmp) && id in nodes && id in loose && now < TWO_64
      requires tmp.Some? ==> id !in tmp.value
      modifies this`nodes, this`slots, lists
      ensures Holds(loose - {id}, tmp)
      ensures nodes == old(nodes)[id := Filed(old(nodes)[id], SlotOf(old(nodes)[id].expire, now), version)]
      ensures PushedTo(old(slots), slots, SlotOf(old(nodes)[id].expire, now), id)
      ensures id !in old(lists.rings.owner)
      ensures lists.rings.owner == old(lists.rings.owner)[id := HeadOf(SlotOf(old(nodes)[id].expire, now))]
      ensures forall x | x in old(lists.next) :: x in lists.next
      ensures forall x | x in old(lists.next) && x != id && x !in old(lists.rings.owner) ::
                lists.next[x] == old(lists.next)[x]
    {
      hide Linked, Threaded, Current, Lists.Valid;
      var s := ChooseSlot(nodes[id].expire, now);
      assert ValidSlot(s);
      CompleteSlots(slots, nodes, loose);
      OwnedBy(lists);
      Unowned(lists.rings, slots, nodes, loose, tmp, id);
      HeadThere(lists.rings.elems, slots, tmp, s);
      ThreadPut(lists.rings.elems, slots, tmp, s, slots[s] + [id]);
      PushKeepsLinked(slots, nodes, loose, id, s, version);
      PushKeepsCurrent(nodes, spent, version, loose, id, s);
      lists.AddTail(HeadOf(s), id);
      slots := slots[s := slots[s] + [id]];
      nodes := nodes[id := Filed(nodes[id], s, version)];
    }

    /** The loop always finds a head: the source's panic is unreachable. */
    static method ChooseSlot(nodeExpire: nat, now: nat) returns (s: Slot)
      requires nodeExpire < TWO_64 && now < TWO_64
      ensures s == SlotOf(nodeExpire, now)
    {
      var expire := nodeExpire;
      var idx := Distance(expire, now);
      var head: Option<Slot> := None;
      if idx < NEAR_SIZE {
        head := Some(Near(expire % NEAR_SIZE));
      } else {
        var i := 0;
        while i <= 3 && head == None
          invariant 0 <= i <= 4
          invariant head == None ==> LevelMax(i) <= idx
          invariant head == None && i == 0 ==> idx == Distance(nodeExpire, now) && expire == nodeExpire
          invariant head == None && i > 0 ==> expire == ClampedExpire(nodeExpire, now)
          invariant head == None && i > 0 ==>
                      idx == if Distance(nodeExpire, now) > MAX_VAL then MAX_VAL else Distance(nodeExpire, now)
          invariant head != None ==> head == Some(SlotOf(nodeExpire, now))
        {
          if idx > MAX_VAL {
            idx := MAX_VAL;
            expire := idx + now;
          }
          if idx < LevelMax(i + 1) {
            head := Some(Level(i, expire / LevelMax(i) % LEVEL_SIZE));
          }
          i := i + 1;
        }
      }
      s := head.value;
    }

    /** Moves the whole list of a slot to a private head and bumps the slot's version, unless the list
        is empty. */
    method Detach(s: Slot) returns (empty: bool, ghost ids: seq<Id>)
      requires Holds({}, None) && ValidSlot(s)
      modifies this`slots, this`version, lists
      ensures s in old(slots) && ids == old(slots)[s] && slots == old(slots)[s := []]
      ensures Distinct(ids) && (empty <==> ids == [])
      ensures forall id <- nodes :: id in ids <==> nodes[id].list == s
      ensures forall id <- ids :: id in nodes
      ensures if empty then Holds({}, None) else Holds(AsSet(ids), Some(ids))
    {
      hide Linked, Threaded, Current, Lists.Valid, Distinct;
      CompleteSlots(slots, nodes, {});
      HeadThere(lists.rings.elems, slots, None, s);
      lists.Counts(HeadOf(s));
      DetachKeepsLinked(slots, nodes, s);
      ids := slots[s];
      if lists.len[HeadOf(s)] == 0 { return true, ids; }
      empty := false;
      OwnedBy(lists);
      NothingWalked(lists.rings, slots);
      ThreadDetach(lists.rings.elems, slots, s);
      DetachKeepsCurrent(nodes, spent, version, ids, s);
      lists.ReplaceInit(HeadOf(s), TMP);
      version := version[s := version[s] + 1];
      slots := slots[s := []];
    }

    method AfterFunc(id: Id, delay: Duration, readAt: nat)
      requires Valid() && Enabled(View(), Insert(id, delay, false, readAt))
      modifies this`nodes, this`slots, this`used, lists
      ensures Valid() && View() == Apply(old(View()), Insert(id, delay, false, readAt))
    {
      Schedule(id, delay, false, readAt);
    }

    method ScheduleFunc(id: Id, delay: Duration, readAt: nat)
      requires Valid() && Enabled(View(), Insert(id, delay, true, readAt))
      modifies this`nodes, this`slots, this`used, lists
      ensures Valid() && View() == Apply(old(View()), Insert(id, delay, true, readAt))
    {
      Schedule(id, delay, true, readAt);
    }

    method Schedule(id: Id, delay: Duration, isSchedule: bool, readAt: nat)
      requires Valid() && Enabled(View(), Insert(id, delay, isSchedule, readAt))
      modifies this`nodes, this`slots, this`used, lists
      ensures Valid() && View() == Apply(old(View()), Insert(id, delay, isSchedule, readAt))
    {
      hide Valid, View, Holds, PendingAt, EntryOf;
      Opened();
      ghost var before := nodes;
      used := used + {id};
      var node := Timer(Ticks(delay) + readAt, delay, isSchedule, Near(0), 0);
      NewNode(id, node);
      Add(id, readAt, {id}, None);
      assert {id} - {id} == {};
      Filing({}, None);
      ghost var t := Filed(node, SlotOf(node.expire, readAt), version);
      assert nodes == before[id := t];
      PendingInsert(before, id, t, jiffies);
      InsertedIsEntry(t, delay, isSchedule, readAt, jiffies);
      Closed();
    }

    /** A node that is in no list yet. */
    method NewNode(id: Id, node: Timer)
      requires id !in nodes && node.list == Near(0) && node.version == 0 && node.expire < TICK_LIMIT + TICK_LIMIT
      requires Holds({}, None)
      modifies this`nodes
      ensures nodes == old(nodes)[id := node] && Holds({id}, None)
    {
      hide Linked, Threaded, Current, Lists.Valid;
      LooseKeepsLinked(slots, nodes, {}, id, node);
      NewKeepsCurrent(nodes, spent, version, id, node);
      assert {} + {id} == {id};
      nodes := nodes[id := node];
    }

    /** Stops a timer: it is deleted from its list if its version is still that of the list. */
    method StopTimer(id: Id)
      requires Valid() && Enabled(View(), Stop(id))
      modifies this`nodes, this`spent, this`slots, this`stopped, lists
      ensures Valid() && View() == Apply(old(View()), Stop(id))
    {
      hide Linked, Threaded, Current, Lists.Valid, PendingAt, EntryOf;
      stopped := stopped + {id};
      var t := if id in nodes then nodes[id] else spent[id];
      MatchMeansLinked(nodes, spent, version, id);
      if t.version == version[t.list] {
        Unlink(id);
      } else {
        ForgetNode(nodes, spent, version, id);
        spent := spent - {id};
      }
      PendingRemove(old(nodes), id, jiffies);
      assert nodes == old(nodes) - {id};
    }

    method Unlink(id: Id)
      requires Holds({}, None) && id in nodes
      modifies this`nodes, this`spent, this`slots, lists
      ensures Holds({}, None) && nodes == old(nodes) - {id} && spent == old(spent) - {id}
    {
      hide Linked, Threaded, Current, Lists.Valid, Distinct;
      AtHome(slots, nodes, id);
      CompleteSlots(slots, nodes, {});
      ghost var s := nodes[id].list;
      ghost var ids := slots[s];
      ghost var k :| 0 <= k < |ids| && ids[k] == id;
      HeadThere(lists.rings.elems, slots, None, s);
      UnlinkKeepsLinked(slots, nodes, id, k);
      ThreadPut(lists.rings.elems, slots, None, s, ids[..k] + ids[k + 1..]);
      ForgetNode(nodes, spent, version, id);
      lists.Del(HeadOf(nodes[id].list), id, k);
      slots := slots[s := ids[..k] + ids[k + 1..]];
      nodes := nodes - {id};
      spent := spent - {id};
    }

    /** Re-files a whole level slot that the current tick drains.  No due tick changes, and no
        node ends up in a level slot drained by this tick. */
    method Cascade(level: nat, index: nat)
      requires level < LEVELS && index < LEVEL_SIZE && DrainedAt(Level(level, index), jiffies)
      requires jiffies <= TICK_LIMIT && WellFiled(nodes) && Holds({}, None)
      modifies this`nodes, this`slots, this`version, lists
      ensures WellFiled(nodes) && nodes.Keys == old(nodes.Keys)
      ensures PendingAt(nodes, jiffies) == PendingAt(old(nodes), jiffies)
      ensures forall id <- nodes :: nodes[id].list != Level(level, index)
      ensures forall id <- nodes ::
                nodes[id].list == old(nodes)[id].list || nodes[id].list.Near? || !DrainedAt(nodes[id].list, jiffies)
      ensures Distributed(old(slots), slots, Level(level, index), nodes)
      ensures Holds({}, None)
    {
      hide Holds, Distinct, DrainedAt, EntryOf, IsRefiled, InOrder;
      var s := Level(level, index);
      var empty, tmp := Detach(s);
      if empty {
        NoneMoved(slots, nodes);
        return;
      }
      LeaveRing(tmp);
      Refile(tmp);
      Filing({}, None);
      forall id <- nodes
        ensures EntryOf(nodes[id], jiffies) == EntryOf(old(nodes)[id], jiffies)
        ensures nodes[id].list != s
        ensures nodes[id].list == old(nodes)[id].list || nodes[id].list.Near? || !DrainedAt(nodes[id].list, jiffies)
      {
        if id in tmp {
          RefileKeepsEntry(old(nodes)[id], nodes[id], version, jiffies);
        }
      }
    }

    /** The walked list is no ring any more: from here on it is only a chain to follow. */
    ghost method LeaveRing(tmp: seq<Id>)
      requires Holds(AsSet(tmp), Some(tmp))
      modifies lists`rings
      ensures Holds(AsSet(tmp), None) && Chain(tmp, 0) && TMP in lists.next && lists.next[TMP] == At(tmp, TMP, 0)
    {
      hide Linked, Current, Threaded, Lists.Valid;
      CompleteSlots(slots, nodes, AsSet(tmp));
      WalkedThere(lists.rings.elems, slots, tmp);
      ThreadPop(lists.rings.elems, slots, tmp, []);
      lists.Dissolve(TMP);
    }

    /** What the walk has not reached still leads back to the walked head, and is in no ring. */
    ghost predicate Chain(tmp: seq<Id>, k: nat)
      reads lists
    {
      lists.Unvisited(tmp, TMP, k) && At(tmp, TMP, k) in lists.next && TMP in lists.next
    }

    /** Adds the nodes of a detached list one by one; the next node is read before each is added. */
    method Refile(ghost tmp: seq<Id>)
      requires Holds(AsSet(tmp), None) && jiffies <= TICK_LIMIT && (forall id <- tmp :: id in nodes)
      requires Distinct(tmp) && Chain(tmp, 0) && TMP in lists.next && lists.next[TMP] == At(tmp, TMP, 0)
      modifies this`nodes, this`slots, lists
      ensures Holds({}, None) && nodes.Keys == old(nodes.Keys)
      ensures forall id <- nodes ::
                if id in tmp then IsRefiled(old(nodes)[id], nodes[id], version, jiffies)
                else nodes[id] == old(nodes)[id]
      ensures InOrder(old(slots), slots, tmp, nodes)
    {
      hide Linked, Threaded, Current, Lists.Valid, Lists.Unvisited, Distinct, InOrder, PushedTo;
      NoneMoved(slots, nodes);
      ChainHead(tmp, 0);
      var pos := lists.next[TMP];
      var n := lists.next[pos];
      ghost var k := 0;
      assert tmp[0..] == tmp;
      while pos != TMP
        invariant 0 <= k <= |tmp| && pos == At(tmp, TMP, k) && pos in lists.next && n == lists.next[pos]
        invariant Chain(tmp, k) && Holds(AsSet(tmp[k..]), None) && nodes.Keys == old(nodes.Keys)
        invariant forall id <- nodes ::
                    if id in tmp[..k] then IsRefiled(old(nodes)[id], nodes[id], version, jiffies)
                    else nodes[id] == old(nodes)[id]
        invariant InOrder(old(slots), slots, tmp[..k], nodes)
        decreases |tmp| - k
      {
        ChainHead(tmp, k);
        assert k < |tmp|;
        assert tmp[..k + 1] == tmp[..k] + [tmp[k]];
        NotYet(tmp, k);
        ghost var nodes0, slots0 := nodes, slots;
        RefileOne(pos, tmp, k);
        OneMoved(old(slots), slots0, slots, tmp[..k], nodes0, nodes, tmp[k]);
        ChainHead(tmp, k + 1);
        pos := n;
        n := lists.next[pos];
        k := k + 1;
      }
      ChainHead(tmp, k);
      assert k == |tmp| && tmp[..k] == tmp && AsSet(tmp[k..]) == {};
    }

    lemma ChainHead(tmp: seq<Id>, k: nat)
      requires Chain(tmp, k) && k <= |tmp|
      ensures TMP in lists.next && At(tmp, TMP, k) in lists.next && (At(tmp, TMP, k) == TMP <==> k == |tmp|)
      ensures k < |tmp| ==> lists.next[tmp[k]] == At(tmp, TMP, k + 1)
    {
      if k < |tmp| { assert NextAt(lists.next, TMP, tmp, k); }
    }

    method RefileOne(pos: Ref, ghost tmp: seq<Id>, ghost k: nat)
      requires Distinct(tmp) && k < |tmp| && pos == tmp[k] && tmp[k] in nodes
      requires Chain(tmp, k) && Holds(AsSet(tmp[k..]), None)
      requires jiffies <= TICK_LIMIT
      modifies this`nodes, this`slots, lists
      ensures Chain(tmp, k + 1) && Holds(AsSet(tmp[k + 1..]), None)
      ensures nodes.Keys == old(nodes.Keys) && IsRefiled(old(nodes)[tmp[k]], nodes[tmp[k]], version, jiffies)
      ensures forall id <- nodes :: id != tmp[k] ==> nodes[id] == old(nodes)[id]
      ensures PushedTo(old(slots), slots, nodes[tmp[k]].list, tmp[k])
    {
      hide Linked, Threaded, Current, Lists.Valid, PushedTo;
      ghost var before := lists.next;
      NotYet(tmp, k);
      Add(pos, jiffies, AsSet(tmp[k..]), None);
      forall i | k + 1 <= i < |tmp|
        ensures NextAt(lists.next, TMP, tmp, i) && tmp[i] !in lists.rings.owner
      {
        assert NextAt(before, TMP, tmp, i);
      }
      assert k + 1 < |tmp| ==> NextAt(before, TMP, tmp, k + 1);
    }

    /** All the cascades of one tick: afterwards no level slot drained by it holds a node. */
    method CascadeAll()
      requires jiffies <= TICK_LIMIT && WellFiled(nodes) && Holds({}, None)
      modifies this`nodes, this`slots, this`version, lists
      ensures WellFiled(nodes) && nodes.Keys == old(nodes.Keys)
      ensures PendingAt(nodes, jiffies) == PendingAt(old(nodes), jiffies)
      ensures forall id <- nodes :: nodes[id].list.Level? ==> !DrainedAt(nodes[id].list, jiffies)
      ensures Holds({}, None)
    {
      hide Holds, EntryOf, PendingAt, Distributed;
      var stop := jiffies % NEAR_SIZE != 0;
      var i := 0;
      while i <= 3 && !stop
        invariant 0 <= i <= 4
        invariant if stop then jiffies % LevelMax(i) != 0 else jiffies % LevelMax(i) == 0
        invariant WellFiled(nodes) && Holds({}, None)
        invariant PendingAt(nodes, jiffies) == PendingAt(old(nodes), jiffies) && nodes.Keys == old(nodes.Keys)
        invariant forall id <- nodes ::
                    nodes[id].list.Level? && nodes[id].list.level < i ==> !DrainedAt(nodes[id].list, jiffies)
        decreases 4 - i
      {
        var index2 := jiffies / LevelMax(i) % LEVEL_SIZE;
        LevelDrained(jiffies, i, index2);
        Cascade(i, index2);
        forall id <- nodes | nodes[id].list.Level? && nodes[id].list.level == i
          ensures !DrainedAt(nodes[id].list, jiffies)
        {
          LevelDrained(jiffies, i, nodes[id].list.index);
        }
        Aligned(jiffies, i);
        stop := index2 != 0;
        i := i + 1;
      }
      forall id <- nodes | nodes[id].list.Level? && nodes[id].list.level >= i
        ensures !DrainedAt(nodes[id].list, jiffies)
      {
        var s := nodes[id].list;
        LevelDrained(jiffies, s.level, s.index);
        UnalignedAbove(jiffies, i, s.level);
      }
    }

    /** One 10 ms tick. */
    method MoveAndExec() returns (fired: seq<Id>)
      requires Valid() && jiffies < TICK_LIMIT
      modifies this`jiffies, this`nodes, this`spent, this`history, this`slots, this`version, lists
      ensures Valid() && View() == Tick(old(View()))
      ensures Distinct(fired) && AsSet(fired) == Expired(old(View()))
    {
      hide Valid, View, Holds, Executed, PendingAt, EntryOf, Distinct, WellFiled, FiredThen;
      Opened();
      ghost var w, before := View(), nodes;
      fired, before := CascadeAndDrain();
      history := history + [AsSet(fired)];
      FiredThenIsTick(w, before, nodes, fired);
      Closed();
    }

    /** The cascades of a tick, the bump of the tick counter and the timers that fire. */
    method CascadeAndDrain() returns (fired: seq<Id>, ghost before: map<Id, Timer>)
      requires jiffies < TICK_LIMIT && WellFiled(nodes) && Holds({}, None)
      modifies this`jiffies, this`nodes, this`spent, this`slots, this`version, lists
      ensures jiffies == old(jiffies) + 1 && WellFiled(nodes) && WellFiled(before) && Distinct(fired)
      ensures PendingAt(before, old(jiffies)) == PendingAt(old(nodes), old(jiffies))
      ensures FiredThen(before, nodes, fired, old(jiffies))
      ensures nodes.Keys + spent.Keys == old(nodes.Keys + spent.Keys)
      ensures Holds({}, None)
    {
      hide Holds, Executed, PendingAt, EntryOf, DrainedAt, Distinct, WellFiled, Distributed;
      CascadeAll();
      jiffies := jiffies + 1;
      before := nodes;
      fired := DrainNear(old(jiffies));
      Filing({}, None);
    }

    /** Drains the near slot of the tick that has just passed and runs its timers. */
    method DrainNear(ghost tick: nat) returns (fired: seq<Id>)
      requires Holds({}, None) && jiffies == tick + 1 <= TICK_LIMIT
      requires forall id <- nodes :: nodes[id].list.Level? ==> !DrainedAt(nodes[id].list, tick)
      modifies this`nodes, this`spent, this`slots, this`version, lists
      ensures Holds({}, None) && Distinct(fired) && forall id <- fired :: id in old(nodes)
      ensures Executed(old(nodes), nodes, fired, tick) && nodes.Keys + spent.Keys == old(nodes.Keys + spent.Keys)
      ensures forall id <- old(nodes) :: id in fired <==> EntryOf(old(nodes)[id], tick).due == Some(tick)
      ensures forall id <- old(nodes) ::
                id !in fired ==> EntryOf(old(nodes)[id], tick + 1) == EntryOf(old(nodes)[id], tick)
      ensures Near(tick % NEAR_SIZE) in old(slots) && fired == old(slots)[Near(tick % NEAR_SIZE)]
      ensures Distributed(old(slots), slots, Near(tick % NEAR_SIZE), nodes)
    {
      hide Linked, Threaded, Current, Lists.Valid, Executed, EntryOf, DrainedAt, Distinct, InOrder;
      var empty, ids := Detach(Near((jiffies - 1) % NEAR_SIZE));
      DetachedAreDue(nodes, tick, ids);
      fired := [];
      if empty {
        NoneExecuted(nodes, tick);
        NoneMoved(slots, nodes);
      } else {
        fired := ExecAll(ids, tick);
      }
    }

    /** Runs the detached timers in order and re-arms the periodic ones.  The next node is read before
        each is deleted from the walked list. */
    method ExecAll(ghost ids: seq<Id>, ghost tick: nat) returns (fired: seq<Id>)
      requires jiffies == tick + 1 <= TICK_LIMIT && Holds(AsSet(ids), Some(ids))
      requires Distinct(ids) && forall id <- ids :: id in nodes
      modifies this`nodes, this`spent, this`slots, lists
      ensures fired == ids && Holds({}, None) && InOrder(old(slots), slots, ids, nodes)
      ensures Executed(old(nodes), nodes, ids, tick) && nodes.Keys <= old(nodes.Keys)
      ensures nodes.Keys + spent.Keys == old(nodes.Keys + spent.Keys)
    {
      hide Linked, Threaded, Current, Lists.Valid, Distinct, Executed, InOrder;
      ghost var before := nodes;
      NoneExecuted(nodes, tick);
      NoneMoved(slots, nodes);
      WalkLinks(ids);
      assert ids[0..] == ids && ids[..0] == [];
      fired := [];
      var pos := lists.next[TMP];
      var n := lists.next[pos];
      while pos != TMP
        invariant |fired| <= |ids| && fired == ids[..|fired|]
        invariant Holds(AsSet(ids[|fired|..]), Some(ids[|fired|..])) && WellFiled(nodes)
        invariant TMP in lists.next && pos == lists.next[TMP] && pos in lists.next && n == lists.next[pos]
        invariant Executed(before, nodes, fired, tick) && nodes.Keys <= before.Keys
        invariant nodes.Keys + spent.Keys == old(nodes.Keys + spent.Keys)
        invariant InOrder(old(slots), slots, fired, nodes)
        decreases |ids| - |fired|
      {
        WalkLinks(ids[|fired|..]);
        assert pos == ids[|fired|] && ids[|fired|..][1..] == ids[|fired| + 1..];
        assert ids[..|fired| + 1] == fired + [pos];
        NotYet(ids, |fired|);
        ExecutedSoFar(before, nodes, fired, tick, pos);
        ghost var nodes0, slots0 := nodes, slots;
        ExecOne(pos, ids[|fired|..], before, fired, tick);
        OneMoved(old(slots), slots0, slots, fired, nodes0, nodes, pos);
        fired := fired + [pos];
        WalkLinks(ids[|fired|..]);
        pos := n;
        n := lists.next[pos];
      }
      WalkLinks(ids[|fired|..]);
      assert ids[|fired|..] == [] && fired == ids && AsSet(ids[|fired|..]) == {};
      EndWalk();
    }

    lemma WalkLinks(rest: seq<Id>)
      requires Holds(AsSet(rest), Some(rest))
      ensures TMP in lists.next && lists.next[TMP] == At(rest, TMP, 0) && lists.next[TMP] in lists.next
      ensures rest != [] ==> lists.next[rest[0]] == At(rest, TMP, 1)
      ensures WellFiled(nodes) && (At(rest, TMP, 0) == TMP <==> rest == [])
    {
      lists.FirstLinks(TMP);
    }

    /** One node of the walk: deleted from the walked list, then dropped or re-armed. */
    method ExecOne(id: Id, ghost rest: seq<Id>, ghost before: map<Id, Timer>, ghost done: seq<Id>, ghost tick: nat)
      requires rest != [] && id == rest[0] && Distinct(rest) && Holds(AsSet(rest), Some(rest))
      requires jiffies == tick + 1 <= TICK_LIMIT && id in nodes && id !in done
      requires WellFiled(before) && WellFiled(nodes) && Executed(before, nodes, done, tick)
      modifies this`nodes, this`spent, this`slots, lists
      ensures Holds(AsSet(rest[1..]), Some(rest[1..])) && WellFiled(nodes) && nodes.Keys <= old(nodes.Keys)
      ensures Executed(before, nodes, done + [id], tick)
      ensures nodes.Keys + spent.Keys == old(nodes.Keys + spent.Keys)
      ensures forall x <- old(nodes) :: x != id ==> x in nodes && nodes[x] == old(nodes)[x]
      ensures if id in nodes then PushedTo(old(slots), slots, nodes[id].list, id) else slots == old(slots)
    {
      hide Linked, Threaded, Current, Lists.Valid, Executed, Distinct, IsRearmed, PushedTo;
      NotYet(rest, 0);
      assert rest[0..] == rest;
      DropFirst(id, rest);
      Exec(id, tick, AsSet(rest), Some(rest[1..]));
      ExecutedOneMore(before, old(nodes), nodes, done, id, tick);
    }

    method DropFirst(id: Id, ghost rest: seq<Id>)
      requires rest != [] && id == rest[0] && Holds(AsSet(rest), Some(rest))
      modifies lists
      ensures Holds(AsSet(rest), Some(rest[1..]))
    {
      hide Linked, Current, Threaded, Lists.Valid;
      CompleteSlots(slots, nodes, AsSet(rest));
      WalkedThere(lists.rings.elems, slots, rest);
      ThreadPop(lists.rings.elems, slots, rest, rest[1..]);
      assert rest[..0] + rest[1..] == rest[1..];
      lists.Del(TMP, id, 0);
    }

    ghost method EndWalk()
      requires Holds({}, Some([]))
      modifies lists`rings
      ensures Holds({}, None)
    {
      hide Linked, Current, Threaded, Lists.Valid;
      CompleteSlots(slots, nodes, {});
      WalkedThere(lists.rings.elems, slots, []);
      ThreadPop(lists.rings.elems, slots, [], []);
      lists.Dissolve(TMP);
    }

    method Exec(id: Id, ghost tick: nat, ghost loose: set<Id>, ghost tmp: Option<seq<Id>>)
      requires jiffies == tick + 1 <= TICK_LIMIT && id in nodes && id in loose && (tmp.Some? ==> id !in tmp.value)
      requires Holds(loose, tmp)
      modifies this`nodes, this`spent, this`slots, lists
      ensures nodes.Keys == if old(nodes)[id].isSchedule then old(nodes.Keys) else old(nodes.Keys) - {id}
      ensures forall x <- nodes ::
                if x == id then IsRearmed(old(nodes)[x], nodes[x], tick) else nodes[x] == old(nodes)[x]
      ensures nodes.Keys + spent.Keys == old(nodes.Keys + spent.Keys)
      ensures if id in nodes then PushedTo(old(slots), slots, nodes[id].list, id) else slots == old(slots)
      ensures WellFiled(nodes) && Holds(loose - {id}, tmp)
    {
      hide Holds, IsRearmed, PushedTo;
      Filing(loose, tmp);
      if nodes[id].isSchedule {
        Rearm(id, tick, loose, tmp);
      } else {
        Spend(id, loose, tmp);
        Filing(loose - {id}, tmp);
      }
    }

    /** Re-arms from the tick that has just passed, so that periods do not drift. */
    method Rearm(id: Id, ghost tick: nat, ghost loose: set<Id>, ghost tmp: Option<seq<Id>>)
      requires jiffies == tick + 1 <= TICK_LIMIT && id in nodes && nodes[id].isSchedule
      requires id in loose && (tmp.Some? ==> id !in tmp.value) && Holds(loose, tmp)
      modifies this`nodes, this`slots, lists
      ensures nodes.Keys == old(nodes.Keys)
      ensures forall x <- nodes ::
                if x == id then IsRearmed(old(nodes)[x], nodes[x], tick) else nodes[x] == old(nodes)[x]
      ensures PushedTo(old(slots), slots, nodes[id].list, id)
      ensures WellFiled(nodes) && Holds(loose - {id}, tmp)
    {
      hide Holds, IsRearmed, PushedTo;
      Filing(loose, tmp);
      var expire := Ticks(nodes[id].userExpire) + (jiffies - 1);
      SetExpire(id, expire, loose, tmp);
      Add(id, jiffies, loose, tmp);
      Filing(loose - {id}, tmp);
      RearmedEntry(old(nodes)[id], nodes[id], tick);
    }

    method SetExpire(id: Id, expire: nat, ghost loose: set<Id>, ghost tmp: Option<seq<Id>>)
      requires id in nodes && id in loose && Holds(loose, tmp) && expire < TICK_LIMIT + TICK_LIMIT
      modifies this`nodes
      ensures Holds(loose, tmp) && nodes == old(nodes)[id := old(nodes)[id].(expire := expire)]
    {
      hide Linked, Current, Threaded, Lists.Valid;
      LooseKeepsLinked(slots, nodes, loose, id, nodes[id].(expire := expire));
      RearmKeepsCurrent(nodes, spent, version, loose, id, expire);
      assert loose + {id} == loose;
      nodes := nodes[id := nodes[id].(expire := expire)];
    }

    /** A one-shot node is not linked any more; whoever armed it can still stop it. */
    method Spend(id: Id, ghost loose: set<Id>, ghost tmp: Option<seq<Id>>)
      requires id in nodes && id in loose && Holds(loose, tmp) && (tmp.Some? ==> id !in tmp.value)
      modifies this`nodes, this`spent
      ensures Holds(loose - {id}, tmp) && nodes == old(nodes) - {id} && spent == old(spent)[id := old(nodes)[id]]
    {
      hide Linked, Current, Threaded, Lists.Valid;
      LooseKeepsLinked(slots, nodes, loose, id, nodes[id]);
      SpendKeepsCurrent(nodes, spent, version, loose, id);
      spent := spent[id := nodes[id]];
      nodes := nodes - {id};
    }

    /** Brings the wheel up to the clock reading `ms10`. */
    method RunTo(ms10: nat)
      requires Valid() && Enabled(View(), Run(ms10))
      modifies this, lists
      ensures Valid() && View() == Apply(old(View()), Run(ms10))
    {
      hide Linked, Threaded, Current, Lists.Valid;
      if ms10 < curTimePoint {
        curTimePoint := ms10;
        return;
      }
      var diff := ms10 - curTimePoint;
      curTimePoint := ms10;
      ghost var start := View();
      var i := 0;
      while i < diff
        invariant 0 <= i <= diff
        invariant Valid() && jiffies == start.jiffies + i
        invariant TickMany(View(), diff - i) == TickMany(start, diff)
      {
        var _ := MoveAndExec();
        i := i + 1;
      }
    }

    /** Any sequence of calls that inserts new timers and stops each at most once, in any order: the
        wheel does what the pending set does. */
    method Execute(ops: seq<Op>)
      requires Valid() && EnabledAll(View(), ops)
      modifies this, lists
      ensures Valid() && View() == ApplyAll(old(View()), ops)
    {
      hide Holds;
      for k := 0 to |ops|
        invariant Valid() && EnabledAll(View(), ops[k..])
        invariant ApplyAll(View(), ops[k..]) == ApplyAll(old(View()), ops)
      {
        assert ops[k..][1..] == ops[k + 1..];
        Perform(ops[k]);
      }
    }

    method Perform(op: Op)
      requires Valid() && Enabled(View(), op)
      modifies this, lists
      ensures Valid() && View() == Apply(old(View()), op)
    {
      hide Holds;
      match op
      case Insert(id, delay, periodic, readAt) =>
        if periodic { ScheduleFunc(id, delay, readAt); } else { AfterFunc(id, delay, readAt); }
      case Stop(id) => StopTimer(id);
      case Run(reading) => RunTo(reading);
    }
  }

  /** A new wheel and any calls on it. */
  method Simulate(now: nat, ops: seq<Op>) returns (wheel: Wheel)
    requires EnabledAll(Initial(now), ops)
    ensures wheel.Valid() && wheel.View() == ApplyAll(Initial(now), ops)
  {
    wheel := new Wheel(now);
    hide Wheel.Valid, Wheel.View;
    wheel.Execute(ops);
  }

  /** `after` is `before` with the timers of `fired` dropped, or re-armed if periodic. */
  ghost predicate Executed(before: map<Id, Timer>, after: map<Id, Timer>, fired: seq<Id>, tick: nat)
    requires WellFiled(before) && WellFiled(after)
  {
    && (forall id <- after :: id in before)
    && (forall id <- before :: id in after <==> id !in fired || before[id].isSchedule)
    && (forall id <- after :: id !in fired ==> after[id] == before[id])
    && (forall id <- after :: id in fired ==> IsRearmed(before[id], after[id], tick))
  }

  lemma NoneExecuted(nodes: map<Id, Timer>, tick: nat)
    requires WellFiled(nodes)
    ensures Executed(nodes, nodes, [], tick)
  {
  }

  lemma ExecutedSoFar(before: map<Id, Timer>, nodes: map<Id, Timer>, done: seq<Id>, tick: nat, id: Id)
    requires WellFiled(before) && WellFiled(nodes) && Executed(before, nodes, done, tick) && id in before && id !in done
    ensures id in nodes
  {
  }

  lemma ExecutedOneMore(
      before: map<Id, Timer>, mid: map<Id, Timer>, after: map<Id, Timer>, done: seq<Id>, id: Id, tick: nat)
    requires WellFiled(before) && WellFiled(mid) && WellFiled(after)
    requires Executed(before, mid, done, tick) && id in mid && id !in done
    requires after.Keys == if mid[id].isSchedule then mid.Keys else mid.Keys - {id}
    requires forall x <- after :: if x == id then IsRearmed(mid[x], after[x], tick) else after[x] == mid[x]
    ensures Executed(before, after, done + [id], tick)
  {
    hide IsRearmed;
  }

  /** The timers in `fired` are those due at the tick, no other due tick moves, and they were executed. */
  ghost predicate FiredThen(before: map<Id, Timer>, after: map<Id, Timer>, fired: seq<Id>, tick: nat)
    requires WellFiled(before) && WellFiled(after)
  {
    && (forall id <- fired :: id in before)
    && (forall id <- before :: id in fired <==> EntryOf(before[id], tick).due == Some(tick))
    && (forall id <- before :: id !in fired ==> EntryOf(before[id], tick + 1) == EntryOf(before[id], tick))
    && Executed(before, after, fired, tick)
  }

  lemma FiredThenIsTick(w: State, before: map<Id, Timer>, after: map<Id, Timer>, fired: seq<Id>)
    requires WellFiled(before) && WellFiled(after) && w.pending == PendingAt(before, w.jiffies)
    requires FiredThen(before, after, fired, w.jiffies)
    ensures AsSet(fired) == Expired(w)
    ensures PendingAt(after, w.jiffies + 1) == Tick(w).pending
  {
    hide EntryOf, Executed, PendingAt;
    ExecutedIsTick(w, before, after, fired);
  }

  lemma EntryPeriodic(t: Timer, jiffies: nat)
    requires ValidSlot(t.list)
    ensures EntryOf(t, jiffies).periodic == t.isSchedule
  {
  }

  lemma ExecutedIsTick(w: State, before: map<Id, Timer>, after: map<Id, Timer>, fired: seq<Id>)
    requires WellFiled(before) && WellFiled(after) && w.pending == PendingAt(before, w.jiffies)
    requires forall id <- fired :: id in before
    requires forall id <- before :: id in fired <==> EntryOf(before[id], w.jiffies).due == Some(w.jiffies)
    requires forall id <- before ::
      id !in fired ==> EntryOf(before[id], w.jiffies + 1) == EntryOf(before[id], w.jiffies)
    requires Executed(before, after, fired, w.jiffies)
    ensures AsSet(fired) == Expired(w)
    ensures PendingAt(after, w.jiffies + 1) == Tick(w).pending
  {
    hide EntryOf;
    forall id <- before
      ensures EntryOf(before[id], w.jiffies).periodic == before[id].isSchedule
    {
      EntryPeriodic(before[id], w.jiffies);
    }
  }

  /** Once the level slots drained by `tick` are empty, the near slot it drains holds exactly
      the timers due at `tick`, and passing the tick moves no other due tick. */
  lemma DetachedAreDue(nodes: map<Id, Timer>, tick: nat, fired: seq<Id>)
    requires WellFiled(nodes)
    requires forall id <- nodes :: id in fired <==> nodes[id].list == Near(tick % NEAR_SIZE)
    requires forall id <- nodes :: nodes[id].list.Level? ==> !DrainedAt(nodes[id].list, tick)
    ensures forall id <- nodes :: id in fired <==> EntryOf(nodes[id], tick).due == Some(tick)
    ensures forall id <- nodes :: id !in fired ==> EntryOf(nodes[id], tick + 1) == EntryOf(nodes[id], tick)
  {
    forall id <- nodes
      ensures id in fired <==> EntryOf(nodes[id], tick).due == Some(tick)
      ensures id !in fired ==> EntryOf(nodes[id], tick + 1) == EntryOf(nodes[id], tick)
    {
      NextDrainStable(nodes[id].list, tick);
      if id !in fired {
        TickKeepsDue(nodes[id].list, nodes[id].expire, tick);
      }
    }
  }
}
