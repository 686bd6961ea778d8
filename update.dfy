/** What the update does to the trie.

    The lemmas below prove, by induction over the levels, that on a trie with
    enough free frames the walk never faults, keeps the trie, maps `vpn` to
    the new page number and leaves every other VPN alone.

    Several contracts below write `Ready(...) == true` or
    `Finished(...) == true` instead of the bare predicate.  The two mean the
    same; the comparison keeps the verifier from splitting the predicate
    into one proof obligation per conjunct, which these large contexts
    cannot afford. */
module Update {
  import opened Pte
  import opened Trie
  import opened PathUpdates
  import opened UpdateWalk
  import opened UpdateSpec

  /** The update from level `i` on: induction over the remaining levels,
      one walk step per level.  The walk stands at `node` with memory `m`,
      trie `s` and free list `free`, the first `k` frames of `free0` having
      been linked on the way down; `r` and `s1` are what the rest of the
      walk finishes with. */
  lemma {:induction false} UpdateFromWalk(mem0: Memory, shape: Shape, m: Memory, s: Shape, root: Frame, node: Frame,
                                          vpn: Word, ppn: Word, i: nat, free: seq<Word>,
                                          r: Outcome, s1: Shape, free0: seq<Word>, used0: nat, k: nat)
    requires 1 <= i <= LEVELS && Ready(mem0, shape, m, s, root, node, vpn, ppn, i, free) == true
    requires ppn == NO_MAPPING ==> k == 0
    requires r == UpdateFrom(m, node, vpn, ppn, i, free) && s1 == ShapeFrom(s, vpn, ppn, i, free)
    requires k <= |free0| && free == free0[k..] && used0 == MissingAfter(shape, vpn, i - 1) + k
    ensures Finished(mem0, shape, r, s1, root, vpn, ppn, free0, used0)
    decreases LEVELS - i, 1
  {
    if i == LEVELS {
      UpdateLeaf(mem0, shape, m, s, root, node, vpn, ppn, free);
      FinishedRest(mem0, shape, r, s1, root, vpn, ppn, free0, MissingAfter(shape, vpn, i - 1), k);
    } else if IsValid(Entry(m, node, LevelIndex(vpn, i))) {
      UpdateDescend(mem0, shape, m, s, root, node, vpn, ppn, i, free, r, s1, free0, used0, k);
    } else if ppn == NO_MAPPING {
      UpdateStop(mem0, shape, m, s, root, node, vpn, i, free);
      FinishedRest(mem0, shape, r, s1, root, vpn, ppn, free0, MissingAfter(shape, vpn, i - 1), k);
    } else {
      UpdateLink(mem0, shape, m, s, root, node, vpn, ppn, i, free, r, s1, free0, used0, k);
    }
  }

  /** Finishing with the rest `free0[k..]` of a free list, having used
      `used` frames of it, is finishing with `free0`, having used `used + k`. */
  lemma FinishedRest(mem0: Memory, shape: Shape, r: Outcome, s1: Shape, root: Frame, vpn: Word, ppn: Word,
                     free0: seq<Word>, used: nat, k: nat)
    requires k <= |free0| && (ppn == NO_MAPPING ==> k == 0)
    requires Finished(mem0, shape, r, s1, root, vpn, ppn, free0[k..], used)
    ensures Finished(mem0, shape, r, s1, root, vpn, ppn, free0, used + k)
  {
    if ppn != NO_MAPPING {
      assert free0[k..][used..] == free0[used + k..];
    }
  }

  /** A valid entry at levels 1-4: descend into the node it links. */
  lemma {:induction false} UpdateDescend(mem0: Memory, shape: Shape, m: Memory, s: Shape, root: Frame, node: Frame,
                                         vpn: Word, ppn: Word, i: nat, free: seq<Word>,
                                         r: Outcome, s1: Shape, free0: seq<Word>, used0: nat, k: nat)
    requires 1 <= i < LEVELS && Ready(mem0, shape, m, s, root, node, vpn, ppn, i, free) == true
    requires IsValid(Entry(m, node, LevelIndex(vpn, i)))
    requires ppn == NO_MAPPING ==> k == 0
    requires r == UpdateFrom(m, node, vpn, ppn, i, free) && s1 == ShapeFrom(s, vpn, ppn, i, free)
    requires k <= |free0| && free == free0[k..] && used0 == MissingAfter(shape, vpn, i - 1) + k
    ensures Finished(mem0, shape, r, s1, root, vpn, ppn, free0, used0) == true
    decreases LEVELS - i, 0
  {
    var next := DescendStep(mem0, shape, m, s, root, node, vpn, ppn, i, free);
    UpdateFromWalk(mem0, shape, m, s, root, next, vpn, ppn, i + 1, free, r, s1, free0, used0, k);
  }

  /** From a valid entry the update is ready at the next level, standing at
      the node the entry links, with the same memory, trie and free list. */
  lemma DescendStep(mem0: Memory, shape: Shape, m: Memory, s: Shape, root: Frame, node: Frame,
                    vpn: Word, ppn: Word, i: nat, free: seq<Word>)
    returns (next: Frame)
    requires 1 <= i < LEVELS && Ready(mem0, shape, m, s, root, node, vpn, ppn, i, free) == true
    requires IsValid(Entry(m, node, LevelIndex(vpn, i)))
    ensures Ready(mem0, shape, m, s, root, next, vpn, ppn, i + 1, free) == true
    ensures MissingAfter(shape, vpn, i - 1) == MissingAfter(shape, vpn, i)
    ensures UpdateFrom(m, node, vpn, ppn, i, free) == UpdateFrom(m, next, vpn, ppn, i + 1, free)
    ensures ShapeFrom(s, vpn, ppn, i, free) == ShapeFrom(s, vpn, ppn, i + 1, free)
  {
    WalkDescend(mem0, shape, m, s, root, vpn, i);
    next := s[Prefix(vpn, i)];
    assert Prefix(vpn, i) in shape;
    DescendNext(m, s, shape, node, vpn, ppn, i, free);
  }

  /** The descend step itself: from a valid entry, the walk goes on from
      the node the entry links, with nothing written and nothing allocated. */
  lemma DescendNext(m: Memory, s: Shape, shape: Shape, node: Frame, vpn: Word, ppn: Word, i: nat, free: seq<Word>)
    requires 1 <= i < LEVELS && node in m && IsValid(Entry(m, node, LevelIndex(vpn, i)))
    requires Prefix(vpn, i) in s && Prefix(vpn, i) in shape
    ensures MissingAfter(shape, vpn, i - 1) == MissingAfter(shape, vpn, i)
    ensures UpdateFrom(m, node, vpn, ppn, i, free)
         == UpdateFrom(m, Frame(FrameNumber(Entry(m, node, LevelIndex(vpn, i)))), vpn, ppn, i + 1, free)
    ensures ShapeFrom(s, vpn, ppn, i, free) == ShapeFrom(s, vpn, ppn, i + 1, free)
  {
  }

  /** An invalid entry at levels 1-4 while destroying: nothing to do. */
  lemma UpdateStop(mem0: Memory, shape: Shape, m: Memory, s: Shape, root: Frame, node: Frame,
                   vpn: Word, i: nat, free: seq<Word>)
    requires 1 <= i < LEVELS && vpn < VPN_LIMIT
    requires Walk(mem0, shape, m, s, root, vpn, i) && node == s[Prefix(vpn, i - 1)]
    requires !IsValid(Entry(m, node, LevelIndex(vpn, i)))
    requires m == mem0 && s == shape
    ensures Finished(mem0, shape, UpdateFrom(m, node, vpn, NO_MAPPING, i, free), ShapeFrom(s, vpn, NO_MAPPING, i, free),
                     root, vpn, NO_MAPPING, free, MissingAfter(shape, vpn, i - 1))
  {
    WalkStop(m, s, root, vpn, i);
  }

  /** The leaf level: write or clear vpn's leaf entry. */
  lemma UpdateLeaf(mem0: Memory, shape: Shape, m: Memory, s: Shape, root: Frame, node: Frame,
                   vpn: Word, ppn: Word, free: seq<Word>)
    requires vpn < VPN_LIMIT && (ppn < PPN_LIMIT || ppn == NO_MAPPING)
    requires Walk(mem0, shape, m, s, root, vpn, LEVELS) && node == s[Prefix(vpn, 4)]
    requires ppn == NO_MAPPING ==> m == mem0 && s == shape
    ensures Finished(mem0, shape, UpdateFrom(m, node, vpn, ppn, LEVELS, free), ShapeFrom(s, vpn, ppn, LEVELS, free),
                     root, vpn, ppn, free, MissingAfter(shape, vpn, 4))
  {
    var w := if ppn == NO_MAPPING then 0 else MakePte(ppn);
    WalkLeaf(mem0, shape, m, s, root, vpn, w, Store(m, node, LevelIndex(vpn, LEVELS), w));
    if ppn == NO_MAPPING {
      DestroyPresent(m, s, vpn);
    } else {
      LeafRoundTrip(ppn);
    }
  }

  /** An invalid entry at levels 1-4 while mapping: link the next free frame
      and go on from the next level. */
  lemma {:induction false} UpdateLink(mem0: Memory, shape: Shape, m: Memory, s: Shape, root: Frame, node: Frame,
                                      vpn: Word, ppn: Word, i: nat, free: seq<Word>,
                                      r: Outcome, s1: Shape, free0: seq<Word>, used0: nat, k: nat)
    requires 1 <= i < LEVELS && Ready(mem0, shape, m, s, root, node, vpn, ppn, i, free) == true
    requires ppn != NO_MAPPING && !IsValid(Entry(m, node, LevelIndex(vpn, i)))
    requires r == UpdateFrom(m, node, vpn, ppn, i, free) && s1 == ShapeFrom(s, vpn, ppn, i, free)
    requires k <= |free0| && free == free0[k..] && used0 == MissingAfter(shape, vpn, i - 1) + k
    ensures Finished(mem0, shape, r, s1, root, vpn, ppn, free0, used0) == true
    decreases LEVELS - i, 0
  {
    var c, m2, s2 := LinkStep(mem0, shape, m, s, root, node, vpn, ppn, i, free);
    DropNext(free0, k);
    UpdateFromWalk(mem0, shape, m2, s2, root, c, vpn, ppn, i + 1, free[1..], r, s1, free0, used0, k + 1);
  }

  /** Dropping `k` elements and then one more drops `k + 1`. */
  lemma DropNext(xs: seq<Word>, k: nat)
    requires k < |xs|
    ensures xs[k..][1..] == xs[k + 1..]
  {
  }

  /** From an invalid entry, when mapping, the update is ready at the next
      level, standing at the next free frame, now linked, with the rest of
      the free list and one node fewer to allocate. */
  lemma LinkStep(mem0: Memory, shape: Shape, m: Memory, s: Shape, root: Frame, node: Frame,
                 vpn: Word, ppn: Word, i: nat, free: seq<Word>)
    returns (c: Frame, m2: Memory, s2: Shape)
    requires 1 <= i < LEVELS && Ready(mem0, shape, m, s, root, node, vpn, ppn, i, free) == true
    requires ppn != NO_MAPPING && !IsValid(Entry(m, node, LevelIndex(vpn, i)))
    ensures 0 < |free|
    ensures Ready(mem0, shape, m2, s2, root, c, vpn, ppn, i + 1, free[1..]) == true
    ensures MissingAfter(shape, vpn, i - 1) == MissingAfter(shape, vpn, i) + 1
    ensures UpdateFrom(m, node, vpn, ppn, i, free) == UpdateFrom(m2, c, vpn, ppn, i + 1, free[1..])
    ensures ShapeFrom(s, vpn, ppn, i, free) == ShapeFrom(s2, vpn, ppn, i + 1, free[1..])
  {
    WalkMissing(mem0, shape, m, s, root, vpn, i);
    assert Prefix(vpn, i) !in shape;
    c, m2, s2 := LinkNext(m, s, shape, node, vpn, ppn, i, free);
    WalkLink(mem0, shape, m, s, root, vpn, i, c, m2, s2);
  }

  /** The link step itself: the next free frame `c`, zero-filled, becomes
      the missing node of vpn's path at level `i + 1`; the walk goes on from
      `c` with the rest of the free list and one node fewer to allocate. */
  lemma LinkNext(m: Memory, s: Shape, shape: Shape, node: Frame, vpn: Word, ppn: Word, i: nat, free: seq<Word>)
    returns (c: Frame, m2: Memory, s2: Shape)
    requires 1 <= i < LEVELS && ppn != NO_MAPPING && node in m
    requires !IsValid(Entry(m, node, LevelIndex(vpn, i)))
    requires Prefix(vpn, i) !in s && Prefix(vpn, i) !in shape
    requires FreeList(free, m.Keys) && 0 < |free|
    ensures c == Frame(free[0]) && c !in m && c.number < PPN_LIMIT
    ensures s2 == s[Prefix(vpn, i) := c] && c == s2[Prefix(vpn, i)]
    ensures m2 == Store(m[c := ZeroNode()], node, LevelIndex(vpn, i), MakePte(free[0]))
    ensures FreeList(free[1..], m2.Keys)
    ensures MissingAfter(shape, vpn, i - 1) == MissingAfter(shape, vpn, i) + 1
    ensures UpdateFrom(m, node, vpn, ppn, i, free) == UpdateFrom(m2, c, vpn, ppn, i + 1, free[1..])
    ensures ShapeFrom(s, vpn, ppn, i, free) == ShapeFrom(s2, vpn, ppn, i + 1, free[1..])
  {
    var f := free[0];
    c := Frame(f);
    m2 := Store(m[c := ZeroNode()], node, LevelIndex(vpn, i), MakePte(f));
    s2 := s[Prefix(vpn, i) := c];
    FreeListGrow(free[1..], m.Keys, f);
    assert m2.Keys == m.Keys + {c};
  }

  /** `page_table_update` on a trie with enough free frames: it does not
      fault; the result is a trie; `vpn` maps to `ppn` (to nothing when
      destroying) and every other VPN keeps its mapping.  A destroy writes
      at most vpn's leaf entry and allocates nothing; a mapping consumes one
      free frame per missing node of vpn's path and writes only that path. */
  lemma UpdateCorrect(mem0: Memory, shape: Shape, root: Frame, vpn: Word, ppn: Word, free: seq<Word>)
    requires IsTrie(mem0, root, shape) && FreeList(free, mem0.Keys)
    requires vpn < VPN_LIMIT && (ppn < PPN_LIMIT || ppn == NO_MAPPING)
    requires ppn != NO_MAPPING ==> Missing(shape, vpn, 4) <= |free|
    ensures Finished(mem0, shape, UpdateFrom(mem0, root, vpn, ppn, 1, free), ShapeFrom(shape, vpn, ppn, 1, free),
                     root, vpn, ppn, free, Missing(shape, vpn, 4))
  {
    WalkStart(mem0, shape, root, vpn);
    assert Ready(mem0, shape, mem0, shape, root, root, vpn, ppn, 1, free);
    UpdateFromWalk(mem0, shape, mem0, shape, root, root, vpn, ppn, 1, free,
                   UpdateFrom(mem0, root, vpn, ppn, 1, free), ShapeFrom(shape, vpn, ppn, 1, free),
                   free, Missing(shape, vpn, 4), 0);
  }

  /** Round trip and independence, stated with the query walk itself: after
      the update `page_table_query(pt, vpn)` returns `ppn` (`NO_MAPPING`
      after a destroy, whether or not a mapping existed, and the latest
      write when one did), and the query of every other VPN in range is
      what it was, even one sharing upper slices with `vpn`. */
  lemma QueryAfterUpdate(mem0: Memory, shape: Shape, root: Frame, vpn: Word, ppn: Word, free: seq<Word>)
    requires IsTrie(mem0, root, shape) && FreeList(free, mem0.Keys)
    requires vpn < VPN_LIMIT && (ppn < PPN_LIMIT || ppn == NO_MAPPING)
    requires ppn != NO_MAPPING ==> Missing(shape, vpn, 4) <= |free|
    ensures UpdateFrom(mem0, root, vpn, ppn, 1, free).Done?
    ensures Query(UpdateFrom(mem0, root, vpn, ppn, 1, free).mem, root, vpn) == ppn
    ensures forall v | v < VPN_LIMIT && v != vpn ::
      Query(UpdateFrom(mem0, root, vpn, ppn, 1, free).mem, root, v) == Query(mem0, root, v)
  {
    UpdateCorrect(mem0, shape, root, vpn, ppn, free);
    var r := UpdateFrom(mem0, root, vpn, ppn, 1, free);
    var s1 := ShapeFrom(shape, vpn, ppn, 1, free);
    QueryIsLookup(r.mem, root, s1, vpn);
    forall v | v < VPN_LIMIT && v != vpn
      ensures Query(r.mem, root, v) == Query(mem0, root, v)
    {
      QueryIsLookup(r.mem, root, s1, v);
      QueryIsLookup(mem0, root, shape, v);
    }
  }

  /** Allocation only where an entry is missing: a mapping takes exactly one
      free frame per missing node of vpn's path, so at most four, and none
      when vpn's leaf node exists; a destroy takes none. */
  lemma UpdateAllocations(mem0: Memory, shape: Shape, root: Frame, vpn: Word, ppn: Word, free: seq<Word>)
    requires IsTrie(mem0, root, shape) && FreeList(free, mem0.Keys)
    requires vpn < VPN_LIMIT && (ppn < PPN_LIMIT || ppn == NO_MAPPING)
    requires ppn != NO_MAPPING ==> Missing(shape, vpn, 4) <= |free|
    ensures UpdateFrom(mem0, root, vpn, ppn, 1, free).Done?
    ensures ppn == NO_MAPPING ==> UpdateFrom(mem0, root, vpn, ppn, 1, free).free == free
    ensures ppn != NO_MAPPING ==> UpdateFrom(mem0, root, vpn, ppn, 1, free).free == free[Missing(shape, vpn, 4)..]
    ensures Missing(shape, vpn, 4) <= 4
    ensures Missing(shape, vpn, 4) == 0 <==> Prefix(vpn, 4) in shape
  {
    UpdateCorrect(mem0, shape, root, vpn, ppn, free);
    NothingMissing(shape, vpn, 4);
  }

  /** A destroy whose path is cut off at some level writes nothing. */
  lemma DestroyCutOff(mem0: Memory, shape: Shape, root: Frame, vpn: Word, free: seq<Word>, level: nat)
    requires IsTrie(mem0, root, shape) && FreeList(free, mem0.Keys) && vpn < VPN_LIMIT
    requires level <= 4 && Prefix(vpn, level) !in shape
    ensures UpdateFrom(mem0, root, vpn, NO_MAPPING, 1, free) == Done(mem0, free)
  {
    UpdateCorrect(mem0, shape, root, vpn, NO_MAPPING, free);
    DestroyAbsent(mem0, shape, vpn, level);
  }

  /** Destroying twice is destroying once. */
  lemma DestroyTwice(mem0: Memory, shape: Shape, root: Frame, vpn: Word, free: seq<Word>)
    requires IsTrie(mem0, root, shape) && FreeList(free, mem0.Keys) && vpn < VPN_LIMIT
    ensures UpdateFrom(mem0, root, vpn, NO_MAPPING, 1, free).Done?
    ensures var r := UpdateFrom(mem0, root, vpn, NO_MAPPING, 1, free);
      UpdateFrom(r.mem, root, vpn, NO_MAPPING, 1, r.free) == r
  {
    UpdateCorrect(mem0, shape, root, vpn, NO_MAPPING, free);
    var r := UpdateFrom(mem0, root, vpn, NO_MAPPING, 1, free);
    assert r.mem.Keys == mem0.Keys;
    UpdateCorrect(r.mem, shape, root, vpn, NO_MAPPING, r.free);
    DestroyIdempotent(mem0, shape, vpn);
  }
}
