/** The intrusive ring list under every slot: a head and its nodes are linked in a circle by
    `Next` and `Prev`, and the head counts them.  References are identities and the link fields
    of all heads and nodes form a store, so that aliasing between rings is explicit: writing a
    link through one ring is visible through every other. */
module RingList {
  import opened Common

  type Ref = int

  datatype Store = Store(next: map<Ref, Ref>, prev: map<Ref, Ref>, len: map<Ref, int>)

  /** The node at position i of a ring; positions off either end are the head. */
  function At(s: seq<Ref>, h: Ref, i: int): (x: Ref) {
    if 0 <= i < |s| then s[i] else h
  }

  /** The links of position i, where position -1 is the head. */
  predicate NextAt(next: map<Ref, Ref>, h: Ref, s: seq<Ref>, i: int) {
    At(s, h, i) in next && next[At(s, h, i)] == At(s, h, i + 1)
  }

  predicate PrevAt(prev: map<Ref, Ref>, h: Ref, s: seq<Ref>, i: int) {
    At(s, h, i) in prev && prev[At(s, h, i)] == At(s, h, if i == -1 then |s| - 1 else i - 1)
  }

  /** The ring of head `h` holds exactly `s`, in order, and its counter says so. */
  ghost predicate Ring(m: Store, h: Ref, s: seq<Ref>) {
    && h !in s && Distinct(s)
    && h in m.len && m.len[h] == |s|
    && (forall i | -1 <= i < |s| :: NextAt(m.next, h, s, i))
    && (forall i | -1 <= i < |s| :: PrevAt(m.prev, h, s, i))
  }

  // ------------------------------------------------------------ the link surgery, on values

  function Inserted(m: Store, node: Ref, before: Ref, after: Ref): (m': Store) {
    m.(prev := m.prev[after := node][node := before], next := m.next[node := after][before := node])
  }

  function Bypassed(m: Store, before: Ref, after: Ref): (m': Store) {
    m.(prev := m.prev[after := before], next := m.next[before := after])
  }

  lemma AppendRing(m: Store, h: Ref, s: seq<Ref>, node: Ref)
    requires Ring(m, h, s) && node != h && node !in s
    ensures PrevAt(m.prev, h, s, -1)
    ensures Ring(Inserted(m.(len := m.len[h := m.len[h] + 1]), node, m.prev[h], h), h, s + [node])
  {
    assert PrevAt(m.prev, h, s, -1);
    var m' := Inserted(m.(len := m.len[h := m.len[h] + 1]), node, m.prev[h], h);
    var s' := s + [node];
    forall i | -1 <= i < |s'|
      ensures NextAt(m'.next, h, s', i) && PrevAt(m'.prev, h, s', i)
    {
      if i < |s| {
        assert NextAt(m.next, h, s, i) && PrevAt(m.prev, h, s, i);
      }
    }
  }

  lemma RemoveRing(m: Store, h: Ref, s: seq<Ref>, k: nat)
    requires Ring(m, h, s) && k < |s|
    ensures NextAt(m.next, h, s, k) && PrevAt(m.prev, h, s, k)
    ensures Ring(Bypassed(m.(len := m.len[h := m.len[h] - 1]), m.prev[s[k]], m.next[s[k]]), h, s[..k] + s[k + 1..])
  {
    assert NextAt(m.next, h, s, k) && PrevAt(m.prev, h, s, k);
    var before, after := m.prev[s[k]], m.next[s[k]];
    var m' := Bypassed(m.(len := m.len[h := m.len[h] - 1]), before, after);
    var rest := s[..k] + s[k + 1..];
    RemoveAt(s, k);
    forall i | -1 <= i < |rest|
      ensures NextAt(m'.next, h, rest, i) && PrevAt(m'.prev, h, rest, i)
    {
      var j := if i < k then i else i + 1;
      assert NextAt(m.next, h, s, j) && PrevAt(m.prev, h, s, j);
    }
  }

  // ------------------------------------------------------------ deleting a node twice

  /** The links of a ring, whatever its counter says. */
  ghost predicate Circle(m: Store, h: Ref, s: seq<Ref>) {
    && h !in s && Distinct(s)
    && (forall i | -1 <= i < |s| :: NextAt(m.next, h, s, i))
    && (forall i | -1 <= i < |s| :: PrevAt(m.prev, h, s, i))
  }

  /** Deleting through links that lead to positions i and j of the ring, wherever they come from,
      leaves a circle without everything in between and a counter that is one less.  It is never
      harmless, and it leaves a ring if and only if exactly one node is in between. */
  lemma DeleteSplices(m: Store, h: Ref, s: seq<Ref>, i: int, j: int)
    requires Ring(m, h, s) && -1 <= i < j <= |s|
    ensures var m' := Bypassed(m.(len := m.len[h := m.len[h] - 1]), At(s, h, i), At(s, h, j));
      && Circle(m', h, s[..i + 1] + s[j..]) && m'.len[h] == |s| - 1
      && !Ring(m', h, s) && (Ring(m', h, s[..i + 1] + s[j..]) <==> j == i + 2)
  {
    var m' := Bypassed(m.(len := m.len[h := m.len[h] - 1]), At(s, h, i), At(s, h, j));
    var rest := s[..i + 1] + s[j..];
    Spliced(s, i, j);
    forall x | -1 <= x < |rest|
      ensures NextAt(m'.next, h, rest, x) && PrevAt(m'.prev, h, rest, x)
    {
      SpliceOne(m, h, s, i, j, x);
    }
  }

  lemma Spliced(s: seq<Ref>, i: int, j: int)
    requires Distinct(s) && -1 <= i < j <= |s|
    ensures var rest := s[..i + 1] + s[j..];
      && Distinct(rest) && (forall x :: x in rest ==> x in s)
      && forall x | 0 <= x < |rest| :: rest[x] == if x <= i then s[x] else s[x + (j - i - 1)]
  {
  }

  lemma SpliceOne(m: Store, h: Ref, s: seq<Ref>, i: int, j: int, x: int)
    requires Ring(m, h, s) && -1 <= i < j <= |s| && -1 <= x < |s| - (j - i - 1)
    ensures var rest := s[..i + 1] + s[j..];
      var m' := Bypassed(m, At(s, h, i), At(s, h, j));
      NextAt(m'.next, h, rest, x) && PrevAt(m'.prev, h, rest, x)
  {
    var rest := s[..i + 1] + s[j..];
    var y := if x <= i then x else x + (j - i - 1);
    assert NextAt(m.next, h, s, y) && PrevAt(m.prev, h, s, y);
    assert At(rest, h, x) == At(s, h, y);
  }

  /** Node `a` was last in the ring and is deleted, the nodes of `t` are appended, and `a` is deleted
      once more through the links it still has: from the head only `rest` can be reached, and all
      of `t` is lost.  With one node appended the counter even agrees with the loss. */
  lemma SecondDeleteLosesTail(m: Store, h: Ref, rest: seq<Ref>, t: seq<Ref>, a: Ref)
    requires Ring(m, h, rest + t)
    requires a in m.prev && m.prev[a] == At(rest, h, |rest| - 1) && a in m.next && m.next[a] == h
    ensures var m' := Bypassed(m.(len := m.len[h := m.len[h] - 1]), m.prev[a], m.next[a]);
      Circle(m', h, rest) && m'.len[h] == |rest| + |t| - 1 && (Ring(m', h, rest) <==> |t| == 1)
  {
    var s := rest + t;
    assert s[..|rest|] + s[|s|..] == rest;
    DeleteSplices(m, h, s, |rest| - 1, |s|);
  }

  /** The shortest such input, from the only node of a ring on: delete `a`, append `b`, delete `a`
      again.  The head's own links form an empty ring, its counter is zero, and `b` is lost. */
  lemma StopTwiceLosesNode(m: Store, h: Ref, a: Ref, b: Ref)
    requires Ring(m, h, [a]) && b != h && b != a
    ensures NextAt(m.next, h, [a], 0) && PrevAt(m.prev, h, [a], 0)
    ensures var m1 := Bypassed(m.(len := m.len[h := m.len[h] - 1]), m.prev[a], m.next[a]);
      && Ring(m1, h, []) && PrevAt(m1.prev, h, [], -1)
      && var m2 := Inserted(m1.(len := m1.len[h := m1.len[h] + 1]), b, m1.prev[h], h);
      && Ring(m2, h, [b]) && a in m2.prev && a in m2.next
      && var m3 := Bypassed(m2.(len := m2.len[h := m2.len[h] - 1]), m2.prev[a], m2.next[a]);
      Ring(m3, h, []) && m3.len[h] == 0 && m3.next[h] == h && m3.prev[h] == h
  {
    RemoveRing(m, h, [a], 0);
    assert [a][..0] + [a][1..] == [];
    assert [a][0] == a;
    var m1 := Bypassed(m.(len := m.len[h := m.len[h] - 1]), m.prev[a], m.next[a]);
    AppendRing(m1, h, [], b);
    assert [] + [b] == [b];
    var m2 := Inserted(m1.(len := m1.len[h := m1.len[h] + 1]), b, m1.prev[h], h);
    SecondDeleteLosesTail(m2, h, [], [b], a);
    var m3 := Bypassed(m2.(len := m2.len[h := m2.len[h] - 1]), m2.prev[a], m2.next[a]);
    assert NextAt(m3.next, h, [], -1) && PrevAt(m3.prev, h, [], -1);
  }

  /** A ring whose own links are untouched is still that ring. */
  lemma Framed(m: Store, m': Store, h: Ref, s: seq<Ref>)
    requires Ring(m, h, s)
    requires h in m'.len && m'.len[h] == m.len[h]
    requires forall x | x == h || x in s :: Same(m, m', x)
    ensures Ring(m', h, s)
  {
    forall i | -1 <= i < |s|
      ensures NextAt(m'.next, h, s, i) && PrevAt(m'.prev, h, s, i)
    {
      assert Same(m, m', At(s, h, i));
      assert NextAt(m.next, h, s, i) && PrevAt(m.prev, h, s, i);
    }
  }

  predicate Same(m: Store, m': Store, x: Ref) {
    && (x in m.next ==> x in m'.next && m'.next[x] == m.next[x])
    && (x in m.prev ==> x in m'.prev && m'.prev[x] == m.prev[x])
  }

  // ------------------------------------------------------------ several rings in one store

  /** The rings of a store by head; `owner` names the ring of every head and node, and of nothing else. */
  datatype Rings = Rings(elems: map<Ref, seq<Ref>>, owner: map<Ref, Ref>)

  predicate Owned(r: Rings) {
    && (forall h <- r.elems :: h in r.owner && r.owner[h] == h)
    && (forall h <- r.elems, x <- r.elems[h] :: x in r.owner && r.owner[x] == h)
    && (forall x <- r.owner :: r.owner[x] in r.elems && (x == r.owner[x] || x in r.elems[r.owner[x]]))
  }

  ghost predicate Apart(m: Store, r: Rings) {
    Owned(r) && forall h <- r.elems :: Ring(m, h, r.elems[h])
  }

  /** Writes that stay within one ring, and within unowned nodes, leave the other rings alone. */
  lemma KeepOthers(m: Store, m': Store, r: Rings, h: Ref)
    requires Apart(m, r)
    requires forall x <- r.owner :: r.owner[x] != h ==> Same(m, m', x)
    requires forall h' <- r.elems :: h' != h && h' in m.len ==> h' in m'.len && m'.len[h'] == m.len[h']
    ensures forall h' <- r.elems :: h' != h ==> Ring(m', h', r.elems[h'])
  {
    forall h' <- r.elems | h' != h
      ensures Ring(m', h', r.elems[h'])
    {
      var s' := r.elems[h'];
      assert Ring(m, h', s');
      forall x | x == h' || x in s'
        ensures Same(m, m', x)
      {
        assert r.owner[x] == h';
      }
      Framed(m, m', h', s');
    }
  }

  /** A node owned by no ring is appended to one of them; the other rings are as they were. */
  lemma AppendApart(m: Store, r: Rings, h: Ref, node: Ref)
    requires Apart(m, r) && h in r.elems && node !in r.owner
    ensures h in m.len && PrevAt(m.prev, h, r.elems[h], -1)
    ensures var m' := Inserted(m.(len := m.len[h := m.len[h] + 1]), node, m.prev[h], h);
      Apart(m', Rings(r.elems[h := r.elems[h] + [node]], r.owner[node := h]))
  {
    var s := r.elems[h];
    assert Ring(m, h, s) && PrevAt(m.prev, h, s, -1) && node !in s && node != h;
    var m' := Inserted(m.(len := m.len[h := m.len[h] + 1]), node, m.prev[h], h);
    AppendRing(m, h, s, node);
    hide Ring, Distinct;
    assert m.prev[h] == h || m.prev[h] in s;
    KeepOthers(m, m', r, h);
  }

  lemma RingFacts(m: Store, h: Ref, s: seq<Ref>)
    requires Ring(m, h, s)
    ensures h !in s && Distinct(s) && h in m.len && m.len[h] == |s|
  {
  }

  lemma OwnsAt(r: Rings, h: Ref, i: int)
    requires Owned(r) && h in r.elems
    ensures At(r.elems[h], h, i) in r.owner && r.owner[At(r.elems[h], h, i)] == h
  {
    var s := r.elems[h];
    if 0 <= i < |s| { OwnerOf(r, h, s[i]); }
  }

  lemma NotAmong(r: Rings, h: Ref, x: Ref)
    requires Owned(r) && h in r.elems && x !in r.owner
    ensures x != h && x !in r.elems[h]
  {
  }

  lemma NotAHead(r: Rings, x: Ref)
    requires Owned(r) && x !in r.owner
    ensures x !in r.elems
  {
  }

  /** Removing a node from one ring leaves the other rings as they were. */
  lemma RemoveApart(m: Store, r: Rings, h: Ref, k: nat)
    requires Apart(m, r) && h in r.elems && k < |r.elems[h]|
    ensures h in m.len && NextAt(m.next, h, r.elems[h], k) && PrevAt(m.prev, h, r.elems[h], k)
    ensures var s := r.elems[h];
      var m' := Bypassed(m.(len := m.len[h := m.len[h] - 1]), m.prev[s[k]], m.next[s[k]]);
      Apart(m', Rings(r.elems[h := s[..k] + s[k + 1..]], r.owner - {s[k]}))
  {
    hide Ring, Distinct, Owned;
    var s := r.elems[h];
    assert Ring(m, h, s);
    RingFacts(m, h, s);
    RemoveRing(m, h, s, k);
    OwnedRemoved(r, h, k);
    RemoveAt(s, k);
    OwnsAt(r, h, k - 1);
    OwnsAt(r, h, k + 1);
    KeepOthers(m, Bypassed(m.(len := m.len[h := m.len[h] - 1]), m.prev[s[k]], m.next[s[k]]), r, h);
  }

  lemma OwnerOf(r: Rings, h: Ref, x: Ref)
    requires Owned(r) && h in r.elems && x in r.elems[h]
    ensures x in r.owner && r.owner[x] == h && r.owner[h] == h
  {
  }

  lemma OwnedRemoved(r: Rings, h: Ref, k: nat)
    requires Owned(r) && h in r.elems && k < |r.elems[h]| && Distinct(r.elems[h]) && h !in r.elems[h]
    ensures var s := r.elems[h];
      Owned(Rings(r.elems[h := s[..k] + s[k + 1..]], r.owner - {s[k]}))
  {
    var s := r.elems[h];
    var r' := Rings(r.elems[h := s[..k] + s[k + 1..]], r.owner - {s[k]});
    RemoveAt(s, k);
    OwnerOf(r, h, s[k]);
    forall h' <- r'.elems, x <- r'.elems[h']
      ensures x in r'.owner && r'.owner[x] == h'
    {
      assert x in r.elems[h'] && r.owner[x] == h';
    }
  }

  /** The store after `new` takes over the ring of `h`, field by field as the source writes it. */
  function Replaced(m: Store, h: Ref, new': Ref): (m': Store)
    requires h in m.next && h in m.prev && h in m.len
  {
    var first := m.next[h];
    var prev1 := m.prev[first := new'];
    var next1 := m.next[new' := first];
    var last := prev1[h];
    Store(next1[last := new'], prev1[new' := last], m.len[new' := m.len[h]])
  }

  lemma ReplaceRing(m: Store, h: Ref, s: seq<Ref>, new': Ref)
    requires Ring(m, h, s) && new' != h && new' !in s
    ensures NextAt(m.next, h, s, -1) && PrevAt(m.prev, h, s, -1)
    ensures Ring(Replaced(m, h, new'), new', s)
  {
    assert NextAt(m.next, h, s, -1) && PrevAt(m.prev, h, s, -1);
    var m' := Replaced(m, h, new');
    forall i | -1 <= i < |s|
      ensures NextAt(m'.next, new', s, i) && PrevAt(m'.prev, new', s, i)
    {
      assert NextAt(m.next, h, s, i) && PrevAt(m.prev, h, s, i);
    }
  }

  /** A fresh head takes over a whole ring and leaves an empty one behind. */
  lemma ReplaceApart(m: Store, r: Rings, h: Ref, new': Ref)
    requires Apart(m, r) && h in r.elems && new' !in r.owner
    ensures h in m.len && NextAt(m.next, h, r.elems[h], -1) && PrevAt(m.prev, h, r.elems[h], -1)
    ensures Apart(Cleared(Replaced(m, h, new'), h), HandedOver(r, h, new'))
  {
    hide Ring, Distinct, Owned;
    var s := r.elems[h];
    assert Ring(m, h, s);
    RingFacts(m, h, s);
    NotAmong(r, h, new');
    ReplaceRing(m, h, s, new');
    var m1 := Replaced(m, h, new');
    var m' := Cleared(m1, h);
    assert Ring(m', new', s) by {
      assert forall x | x == new' || x in s :: x != h && Same(m1, m', x);
      RingFacts(m1, new', s);
      Framed(m1, m', new', s);
    }
    EmptyRing(m', h);
    OwnedHandedOver(r, h, new');
    OwnsAt(r, h, 0);
    OwnsAt(r, h, |s| - 1);
    OwnsAt(r, h, -1);
    NotAHead(r, new');
    KeepOthers(m, m', r, h);
  }

  lemma OwnedHandedOver(r: Rings, h: Ref, new': Ref)
    requires Owned(r) && h in r.elems && new' !in r.owner && h !in r.elems[h]
    ensures Owned(HandedOver(r, h, new'))
  {
    var r' := HandedOver(r, h, new');
    forall h' <- r'.elems
      ensures h' in r'.owner && r'.owner[h'] == h'
      ensures forall x <- r'.elems[h'] :: x in r'.owner && r'.owner[x] == h'
    {
      HandedOverHead(r, h, new', h');
    }
    forall x <- r'.owner
      ensures r'.owner[x] in r'.elems && (x == r'.owner[x] || x in r'.elems[r'.owner[x]])
    {
      HandedOverOwner(r, h, new', x);
    }
    hide HandedOver;
  }

  lemma HandedOverHead(r: Rings, h: Ref, new': Ref, h': Ref)
    requires Owned(r) && h in r.elems && new' !in r.owner && h !in r.elems[h] && h' in HandedOver(r, h, new').elems
    ensures var r' := HandedOver(r, h, new');
      h' in r'.owner && r'.owner[h'] == h' && forall x <- r'.elems[h'] :: x in r'.owner && r'.owner[x] == h'
  {
    OwnerOfHead(r, h);
    if h' != new' { OwnerOfHead(r, h'); }
    forall x <- HandedOver(r, h, new').elems[h']
      ensures x in r.owner && r.owner[x] == if h' == new' then h else h'
    {
      OwnerOf(r, if h' == new' then h else h', x);
    }
  }

  lemma HandedOverOwner(r: Rings, h: Ref, new': Ref, x: Ref)
    requires Owned(r) && h in r.elems && new' !in r.owner && x in HandedOver(r, h, new').owner
    ensures var r' := HandedOver(r, h, new');
      r'.owner[x] in r'.elems && (x == r'.owner[x] || x in r'.elems[r'.owner[x]])
  {
  }

  lemma OwnerOfHead(r: Rings, h: Ref)
    requires Owned(r) && h in r.elems
    ensures h in r.owner && r.owner[h] == h
  {
  }

  lemma EmptyRing(m: Store, h: Ref)
    requires h in m.next && m.next[h] == h && h in m.prev && m.prev[h] == h && h in m.len && m.len[h] == 0
    ensures Ring(m, h, [])
  {
    assert NextAt(m.next, h, [], -1) && PrevAt(m.prev, h, [], -1);
  }

  function Cleared(m: Store, h: Ref): (m': Store) {
    Store(m.next[h := h], m.prev[h := h], m.len[h := 0])
  }

  function HandedOver(r: Rings, h: Ref, new': Ref): (r': Rings)
    requires h in r.elems
  {
    Rings(r.elems[new' := r.elems[h]][h := []],
          map x <- r.owner.Keys + {new'} :: if x == new' || x in r.elems[h] then new' else r.owner[x])
  }

  /** Giving up a ring: its head and its nodes are owned by nobody any more. */
  function Dissolved(r: Rings, h: Ref): (r': Rings)
    requires h in r.elems
  {
    Rings(r.elems - {h}, map x <- r.owner | x != h && x !in r.elems[h] :: r.owner[x])
  }

  lemma DissolveApart(m: Store, r: Rings, h: Ref)
    requires Apart(m, r) && h in r.elems
    ensures Apart(m, Dissolved(r, h))
  {
    hide Ring;
    assert r.owner[h] == h;
    forall h' <- Dissolved(r, h).elems, x <- r.elems[h']
      ensures x in Dissolved(r, h).owner && r.owner[x] == h'
    {
      assert h' != h && r.owner[x] == h';
    }
  }

  // ------------------------------------------------------------ the operations

  class Lists {
    var next: map<Ref, Ref>
    var prev: map<Ref, Ref>
    var len: map<Ref, int>
    ghost var rings: Rings

    ghost function Links(): (m: Store)
      reads this
    {
      Store(next, prev, len)
    }

    ghost predicate Valid()
      reads this
    {
      Apart(Links(), rings)
    }

    constructor ()
      ensures Valid() && rings == Rings(map[], map[])
    {
      next, prev, len, rings := map[], map[], map[], Rings(map[], map[]);
    }

    lemma Counts(h: Ref)
      requires Valid() && h in rings.elems
      ensures h in len && len[h] == |rings.elems[h]|
    {
      RingFacts(Links(), h, rings.elems[h]);
    }

    /** A new head becomes an empty ring. */
    method Init(h: Ref)
      requires Valid() && h !in rings.owner
      modifies this
      ensures Valid() && rings.elems == old(rings.elems)[h := []]
    {
      ghost var m := Links();
      next, prev, len := next[h := h], prev[h := h], len[h := 0];
      rings := Rings(rings.elems[h := []], rings.owner[h := h]);
      EmptyRing(Links(), h);
      hide Ring;
      forall h' <- rings.elems | h' != h
        ensures Ring(Links(), h', rings.elems[h'])
      {
        Framed(m, Links(), h', rings.elems[h']);
      }
    }

    method AddTail(h: Ref, node: Ref)
      requires Valid() && h in rings.elems && node !in rings.owner
      modifies this
      ensures Valid()
      ensures rings == Rings(old(rings.elems)[h := old(rings.elems)[h] + [node]], old(rings.owner)[node := h])
      ensures forall x | x in old(next) ::
                x in next && (x != node && x !in old(rings.owner) ==> next[x] == old(next)[x])
    {
      AppendApart(Links(), rings, h, node);
      ghost var s := rings.elems[h];
      len := len[h := len[h] + 1];
      var before := prev[h];
      prev := prev[h := node];
      next := next[node := h];
      prev := prev[node := before];
      next := next[before := node];
      assert before == At(s, h, |s| - 1) && before in rings.owner;
      rings := Rings(rings.elems[h := s + [node]], rings.owner[node := h]);
    }

    /** Unlinks a member; its own links are left as they were. */
    method Del(h: Ref, node: Ref, ghost k: nat)
      requires Valid() && h in rings.elems && k < |rings.elems[h]| && rings.elems[h][k] == node
      modifies this
      ensures Valid()
      ensures var s := old(rings.elems)[h];
        rings == Rings(old(rings.elems)[h := s[..k] + s[k + 1..]], old(rings.owner) - {node})
    {
      RemoveApart(Links(), rings, h, k);
      hide Apart;
      len := len[h := len[h] - 1];
      var before, after := prev[node], next[node];
      prev := prev[after := before];
      next := next[before := after];
      ghost var s := rings.elems[h];
      rings := Rings(rings.elems[h := s[..k] + s[k + 1..]], rings.owner - {node});
    }

    method ReplaceInit(h: Ref, new': Ref)
      requires Valid() && h in rings.elems && new' !in rings.owner
      modifies this
      ensures Valid() && rings.elems == old(rings.elems)[new' := old(rings.elems)[h]][h := []]
    {
      ReplaceApart(Links(), rings, h, new');
      hide Apart;
      next := next[new' := next[h]];
      prev := prev[next[new'] := new'];
      prev := prev[new' := prev[h]];
      next := next[prev[new'] := new'];
      len := len[new' := len[h]];
      assert Links() == Replaced(old(Links()), h, new');
      next, prev, len := next[h := h], prev[h := h], len[h := 0];
      rings := HandedOver(rings, h, new');
    }

    /** The walked ring is given up: from here on it is only a chain to follow. */
    ghost method Dissolve(tmp: Ref)
      requires Valid() && tmp in rings.elems
      modifies this`rings
      ensures Valid() && rings == Dissolved(old(rings), tmp)
      ensures var s := old(rings.elems)[tmp];
        && Unvisited(s, tmp, 0)
        && tmp in next && next[tmp] == At(s, tmp, 0) && next[tmp] in next
    {
      ghost var s := rings.elems[tmp];
      assert Ring(Links(), tmp, s) && NextAt(next, tmp, s, -1);
      if s != [] { assert NextAt(next, tmp, s, 0); }
      DissolveApart(Links(), rings, tmp);
      rings := Dissolved(rings, tmp);
    }

    /** What the walk has not reached still leads back to the walked head and is in no ring. */
    ghost predicate Unvisited(s: seq<Ref>, tmp: Ref, k: nat)
      reads this
    {
      && Distinct(s) && tmp !in s && tmp !in rings.owner
      && (forall i | k <= i < |s| :: NextAt(next, tmp, s, i))
      && (forall i | k <= i < |s| :: s[i] !in rings.owner)
    }

    lemma FirstLinks(h: Ref)
      requires Valid() && h in rings.elems
      ensures var s := rings.elems[h];
        && h in next && next[h] == At(s, h, 0)
        && next[h] in next && (s != [] ==> next[s[0]] == At(s, h, 1))
        && h !in s
    {
      var s := rings.elems[h];
      assert Ring(Links(), h, s) && NextAt(next, h, s, -1);
      if s != [] { assert NextAt(next, h, s, 0); }
    }
  }
}
