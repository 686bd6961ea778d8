/** `page_table_update` and `page_table_query`: the two operations on a
    five-level page table whose root is frame `pt`, working in place on the
    frames of simulated physical memory.

    Each method takes the trie's `Shape` as a ghost argument: the abstract
    tree that the frames hold.  The query returns what `Lookup` says of that
    tree; the update leaves a tree in which `vpn` reads the new page number
    and every other VPN reads what it read before. */
module PageTable {
  import opened Pte
  import opened Trie
  import opened UpdateSpec
  import opened PhysMem

  /** `page_table_update(pt, vpn, ppn)`: map `vpn` to `ppn`, allocating the
      missing nodes of its path, or destroy vpn's mapping when `ppn` is
      `NO_MAPPING`.  The frames end up holding what `UpdateFrom` computes
      from their contents before the call, and the allocator's free list
      is what `UpdateFrom` leaves of it; arrays that existed are kept. */
  method PageTableUpdate(mem: PhysicalMemory, pt: Word, vpn: Word, ppn: Word)
    requires mem.Valid() && pt < PPN_LIMIT
    requires UpdateFrom(mem.Contents(), Frame(pt), vpn, ppn, 1, mem.free).Done?
    modifies mem, mem.frames.Values
    ensures mem.Valid() && mem.Grew()
    ensures UpdateFrom(old(mem.Contents()), Frame(pt), vpn, ppn, 1, old(mem.free)) == Done(mem.Contents(), mem.free)
  {
    ghost var target := UpdateFrom(mem.Contents(), Frame(pt), vpn, ppn, 1, mem.free);
    FrameAddressRoundTrip(pt);
    var ptPointer := mem.PhysToVirt(FrameAddress(pt));
    ghost var node := Frame(pt);
    for i := 1 to 5
      invariant mem.Valid() && mem.Holds(node, ptPointer)
      invariant UpdateFrom(mem.Contents(), node, vpn, ppn, i, mem.free) == target
      invariant mem.Grew()
    {
      var stop;
      ptPointer, stop, node := UpdateLevel(mem, ptPointer, vpn, ppn, i, node, target);
      if stop {
        return;
      }
    }
    UpdateLeaf(mem, ptPointer, vpn, ppn, node, target);
  }

  /** The end of `page_table_update`: clear vpn's leaf entry (destroy) or
      write the entry for `ppn` into it, in the leaf node `node`, whose
      array is `ptPointer`. */
  method UpdateLeaf(mem: PhysicalMemory, ptPointer: array<Word>, vpn: Word, ppn: Word,
                    ghost node: Frame, ghost target: Outcome)
    requires mem.Valid() && mem.Holds(node, ptPointer)
    requires UpdateFrom(mem.Contents(), node, vpn, ppn, LEVELS, mem.free) == target
    modifies ptPointer
    ensures mem.Valid() && target == Done(mem.Contents(), mem.free)
  {
    var ptIndex := LeafIndex(vpn);
    if ppn == NO_MAPPING {
      SetEntry(mem, ptPointer, node, ptIndex, 0, mem.Contents());
      return;
    }
    SetEntry(mem, ptPointer, node, ptIndex, MakePte(ppn), mem.Contents());
  }

  /** One pass of the loop body of `page_table_update`, at level `i` (1-4),
      standing at frame `node`, whose array is `ptPointer`.  An invalid slot
      ends a destroy (`stop`) and otherwise receives a freshly allocated,
      zero-filled table; then the walk moves to the table the slot links.
      Either way the update still to do computes the same `target`. */
  method UpdateLevel(mem: PhysicalMemory, ptPointer: array<Word>, vpn: Word, ppn: Word, i: nat,
                     ghost node: Frame, ghost target: Outcome)
    returns (next: array<Word>, stop: bool, ghost node2: Frame)
    requires 1 <= i < LEVELS && mem.Valid() && mem.Holds(node, ptPointer)
    requires UpdateFrom(mem.Contents(), node, vpn, ppn, i, mem.free) == target && target.Done?
    modifies mem, ptPointer
    ensures mem.Valid()
    ensures stop ==> target == Done(mem.Contents(), mem.free)
    ensures !stop ==> mem.Holds(node2, next)
    ensures !stop ==> UpdateFrom(mem.Contents(), node2, vpn, ppn, i + 1, mem.free) == target
    ensures mem.Grew()
  {
    var ptIndex := LevelIndex(vpn, i);
    mem.ElementsAreEntries(mem.Contents());
    if !IsValid(ptPointer[ptIndex]) {
      if ppn == NO_MAPPING {
        return ptPointer, true, node;
      }
      var f := LinkNewTable(mem, ptPointer, node, ptIndex, mem.Contents());
      MakePteIsValid(f);
    }
    node2 := Frame(FrameNumber(ptPointer[ptIndex]));
    next := mem.NextTable(ptPointer[ptIndex]);
    stop := false;
  }

  /** `ptPointer[ptIndex] = w`: write word `w` into slot `ptIndex` of the
      node in frame `node`, whose array is `ptPointer`.  `m` is the memory
      before. */
  method SetEntry(mem: PhysicalMemory, ptPointer: array<Word>, ghost node: Frame, ptIndex: Index, w: Word, ghost m: Memory)
    requires mem.Valid() && m == mem.Contents()
    requires mem.Holds(node, ptPointer)
    modifies ptPointer
    ensures mem.Valid() && mem.Contents() == Store(m, node, ptIndex, w)
  {
    ptPointer[ptIndex] := w;
    assert ptPointer[..] == old(ptPointer[..])[ptIndex := w];
    forall g | g in mem.frames
      ensures mem.Contents()[g] == Store(m, node, ptIndex, w)[g]
    {
      if g != node {
        assert mem.frames[g][..] == old(mem.frames[g][..]);
      }
    }
  }

  /** `ptPointer[ptIndex] = (alloc_page_frame() << 12) + 1`: allocate a
      zeroed frame and link it from slot `ptIndex` of the node in frame
      `node`, whose array is `ptPointer`.  `m` is the memory before. */
  method LinkNewTable(mem: PhysicalMemory, ptPointer: array<Word>, ghost node: Frame, ptIndex: Index, ghost m: Memory)
    returns (f: Word)
    requires mem.Valid() && m == mem.Contents() && |mem.free| > 0
    requires mem.Holds(node, ptPointer)
    modifies mem, ptPointer
    ensures mem.Valid() && f == old(mem.free[0]) && mem.free == old(mem.free[1..])
    ensures Frame(f) !in m && f < PPN_LIMIT && ptPointer[ptIndex] == MakePte(f)
    ensures mem.Contents() == Store(m[Frame(f) := ZeroNode()], node, ptIndex, MakePte(f))
    ensures Frame(f) !in old(mem.frames) && fresh(mem.frames[Frame(f)])
    ensures mem.frames == old(mem.frames)[Frame(f) := mem.frames[Frame(f)]]
  {
    f := mem.AllocPageFrame();
    SetEntry(mem, ptPointer, node, ptIndex, MakePte(f), mem.Contents());
  }

  /** `page_table_query(pt, vpn)`: the page number `vpn` is mapped to, or
      `NO_MAPPING`.  It reads the frames and changes nothing.  The source
      only needs the frames its own walk visits to exist; on a page table
      (any trie `shape` the frames hold) the result is the trie's mapping. */
  method PageTableQuery(mem: PhysicalMemory, pt: Word, vpn: Word, ghost mem0: Memory) returns (ppn: Word)
    requires mem.Valid() && mem0 == mem.Contents() && pt < PPN_LIMIT
    requires WalkInMemory(mem0, Frame(pt), vpn, 1)
    ensures ppn == Query(mem0, Frame(pt), vpn)
    ensures forall shape | IsTrie(mem0, Frame(pt), shape) :: ppn == Lookup(mem0, shape, vpn)
  {
    ghost var root := Frame(pt);
    mem.ElementsAreEntries(mem0);
    FrameAddressRoundTrip(pt);
    var ptPointer := mem.PhysToVirt(FrameAddress(pt));
    ghost var node := root;
    var ptIndex: int := 0;
    for i := 1 to 6
      invariant mem.Holds(node, ptPointer)
      invariant i <= 5 ==> WalkInMemory(mem0, node, vpn, i) && QueryFrom(mem0, node, vpn, i) == Query(mem0, root, vpn)
      invariant i == 6 ==> node in mem0 && ptIndex == LevelIndex(vpn, 5) && IsValid(Entry(mem0, node, ptIndex))
      invariant i == 6 ==> QueryFrom(mem0, node, vpn, 5) == Query(mem0, root, vpn)
    {
      ptIndex := LevelIndex(vpn, i);
      assert ptPointer[ptIndex] == Entry(mem0, node, ptIndex);
      if !IsValid(ptPointer[ptIndex]) {
        ppn := NO_MAPPING;
        QueryOnTries(mem0, root, vpn, ppn);
        return;
      }
      if i != 5 {
        node := Frame(FrameNumber(ptPointer[ptIndex]));
        ptPointer := mem.NextTable(ptPointer[ptIndex]);
      }
    }
    assert ptPointer[ptIndex] == Entry(mem0, node, ptIndex);
    ppn := FrameNumber(ptPointer[ptIndex]);
    QueryOnTries(mem0, root, vpn, ppn);
  }

  /** The query's result is the mapping of every trie the frames hold. */
  lemma QueryOnTries(mem0: Memory, root: Frame, vpn: Word, ppn: Word)
    requires ppn == Query(mem0, root, vpn)
    ensures forall shape | IsTrie(mem0, root, shape) :: ppn == Lookup(mem0, shape, vpn)
  {
    forall shape | IsTrie(mem0, root, shape)
      ensures ppn == Lookup(mem0, shape, vpn)
    {
      QueryIsLookup(mem0, root, shape, vpn);
    }
  }
}
