/** The update walk, one level at a time, on values.

    `Walk(mem0, shape, m, s, root, vpn, i)` is what holds when the update of
    `vpn` stands at trie level `i` (1..5): `mem0` and `shape` are memory and
    trie before the update, `m` and `s` the memory and trie so far.  Each
    lemma below is one branch of the source loop body, stated as a step from
    `Walk` at level `i` to `Walk` at level `i + 1`, or as the end of the walk. */
module UpdateWalk {
  import opened Pte
  import opened Trie
  import opened PathUpdates

  ghost predicate Walk(mem0: Memory, shape: Shape, m: Memory, s: Shape, root: Frame, vpn: Word, i: nat)
    requires 1 <= i <= LEVELS
  {
    && IsTrie(m, root, s)
    && Prefix(vpn, i - 1) in s
    && Untouched(mem0, m, s, vpn, i - 1)
    && PathUpdate(mem0, shape, m, s, vpn)
    && (forall k | i <= k <= 4 :: Prefix(vpn, k) in s <==> Prefix(vpn, k) in shape)
    && (forall v :: Lookup(m, s, v) == Lookup(mem0, shape, v))
  }

  /** The update of `vpn` to `ppn` is ready to go on at level `i` from
      `node`, with the free list `free`: the walk holds, `node` is the node
      the walk has reached, the free frames are not in use and, when
      mapping, there are enough of them for the nodes still missing; a
      destroy has changed nothing so far. */
  ghost predicate Ready(mem0: Memory, shape: Shape, m: Memory, s: Shape, root: Frame, node: Frame,
                        vpn: Word, ppn: Word, i: nat, free: seq<Word>)
    requires 1 <= i <= LEVELS
  {
    && vpn < VPN_LIMIT && (ppn < PPN_LIMIT || ppn == NO_MAPPING)
    && Walk(mem0, shape, m, s, root, vpn, i) && node == s[Prefix(vpn, i - 1)]
    && FreeList(free, m.Keys)
    && (ppn != NO_MAPPING ==> MissingAfter(shape, vpn, i - 1) <= |free|)
    && (ppn == NO_MAPPING ==> m == mem0 && s == shape)
  }

  /** The walk starts at the root, with nothing written yet. */
  lemma WalkStart(mem0: Memory, shape: Shape, root: Frame, vpn: Word)
    requires IsTrie(mem0, root, shape)
    ensures Walk(mem0, shape, mem0, shape, root, vpn, 1)
    ensures shape[Prefix(vpn, 0)] == root
  {
    PathUpdateNone(mem0, shape, vpn);
  }

  /** A valid slot at levels 1-4: the walk descends into the existing node the
      slot links, writing nothing and allocating nothing. */
  lemma WalkDescend(mem0: Memory, shape: Shape, m: Memory, s: Shape, root: Frame, vpn: Word, i: nat)
    requires 1 <= i < LEVELS && Walk(mem0, shape, m, s, root, vpn, i)
    requires IsValid(Entry(m, s[Prefix(vpn, i - 1)], LevelIndex(vpn, i)))
    ensures Walk(mem0, shape, m, s, root, vpn, i + 1)
    ensures s[Prefix(vpn, i)] == Frame(FrameNumber(Entry(m, s[Prefix(vpn, i - 1)], LevelIndex(vpn, i))))
    ensures s[Prefix(vpn, i)] in m
    ensures Missing(shape, vpn, i) == Missing(shape, vpn, i - 1)
  {
    WalkDown(m, root, s, vpn, i);
  }

  /** An invalid slot at levels 1-4 while destroying: `vpn` has no mapping,
      and destroying it writes nothing. */
  lemma WalkStop(m: Memory, s: Shape, root: Frame, vpn: Word, i: nat)
    requires 1 <= i < LEVELS && IsTrie(m, root, s) && Prefix(vpn, i - 1) in s
    requires !IsValid(Entry(m, s[Prefix(vpn, i - 1)], LevelIndex(vpn, i)))
    ensures Lookup(m, s, vpn) == NO_MAPPING
    ensures Destroyed(m, s, vpn) == m
  {
    QueryStops(m, root, s, vpn, i);
    WalkStops(m, root, s, vpn, i);
    DestroyAbsent(m, s, vpn, i);
  }

  /** An invalid slot at levels 1-4 means a missing node of vpn's path, one
      the update has to allocate. */
  lemma WalkMissing(mem0: Memory, shape: Shape, m: Memory, s: Shape, root: Frame, vpn: Word, i: nat)
    requires 1 <= i < LEVELS && Walk(mem0, shape, m, s, root, vpn, i)
    requires !IsValid(Entry(m, s[Prefix(vpn, i - 1)], LevelIndex(vpn, i)))
    ensures Prefix(vpn, i) !in s
    ensures Missing(shape, vpn, i) == Missing(shape, vpn, i - 1) + 1
  {
    WalkStops(m, root, s, vpn, i);
  }

  /** An invalid slot at levels 1-4 while mapping: a fresh zeroed frame `c`
      becomes the missing node, linked from the slot; no lookup changes and
      one more missing node of vpn's path has been allocated. */
  lemma WalkLink(mem0: Memory, shape: Shape, m: Memory, s: Shape, root: Frame, vpn: Word, i: nat,
                 c: Frame, m2: Memory, s2: Shape)
    requires 1 <= i < LEVELS && Walk(mem0, shape, m, s, root, vpn, i)
    requires !IsValid(Entry(m, s[Prefix(vpn, i - 1)], LevelIndex(vpn, i)))
    requires c !in m && c.number < PPN_LIMIT
    requires m2 == Store(m[c := ZeroNode()], s[Prefix(vpn, i - 1)], LevelIndex(vpn, i), MakePte(c.number))
    requires s2 == s[Prefix(vpn, i) := c]
    ensures Walk(mem0, shape, m2, s2, root, vpn, i + 1)
  {
    var p := Prefix(vpn, i - 1);
    var idx := LevelIndex(vpn, i);
    assert Prefix(vpn, i) == p + [idx];
    WalkStops(m, root, s, vpn, i);
    NoDeeperNodes(s, vpn, i);
    var m1 := m[c := ZeroNode()];
    AllocKeepsTrie(m, root, s, c);
    assert Entry(m1, s[p], idx) == Entry(m, s[p], idx);
    LinkKeepsTrie(m1, root, s, p, idx, c);
    assert m1[s[p]] == m[s[p]];
    PathUpdateLink(mem0, shape, m, s, vpn, i, c);
    UntouchedLink(mem0, m, s, vpn, i, c);
    forall k | i + 1 <= k <= 4
      ensures Prefix(vpn, k) !in s2 && Prefix(vpn, k) !in shape
    {
      assert |Prefix(vpn, k)| != |Prefix(vpn, i)|;
    }
  }

  /** The leaf level: writing `w` into vpn's leaf slot completes the update.
      The tree is kept, `vpn` now reads `w` and every other VPN reads what it
      read before the update. */
  lemma WalkLeaf(mem0: Memory, shape: Shape, m: Memory, s: Shape, root: Frame, vpn: Word, w: Word, m2: Memory)
    requires vpn < VPN_LIMIT && Walk(mem0, shape, m, s, root, vpn, LEVELS)
    requires m2 == Store(m, s[Prefix(vpn, 4)], LevelIndex(vpn, 5), w)
    ensures IsTrie(m2, root, s) && PathUpdate(mem0, shape, m2, s, vpn)
    ensures Lookup(m2, s, vpn) == LeafValue(w)
    ensures forall v | v < VPN_LIMIT && v != vpn :: Lookup(m2, s, v) == Lookup(mem0, shape, v)
  {
    var p := Prefix(vpn, 4);
    StoreLeafKeepsTrie(m, root, s, p, LevelIndex(vpn, 5), w);
    PathUpdateLeaf(mem0, shape, m, s, vpn, w);
    forall v | v < VPN_LIMIT && v != vpn
      ensures Lookup(m2, s, v) == Lookup(mem0, shape, v)
    {
      if Prefix(v, 4) == p && LevelIndex(v, 5) == LevelIndex(vpn, 5) {
        SameLeafSlotSameVpn(v, vpn);
      }
    }
  }
}
