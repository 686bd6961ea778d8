/** The update walk as a function on values.

    `UpdateFrom` follows the loop of `page_table_update` level by level on
    the contents of memory and the allocator's free list; the update method
    is proved to leave exactly the memory and free list it computes.
    `Finished` is what the lemmas of module `Update` prove of its result. */
module UpdateSpec {
  import opened Pte
  import opened Trie
  import opened PathUpdates

  /** How the update ends: the memory and free list after it, or a fault
      (the allocator ran out of frames, or a valid entry named a frame that
      does not exist). */
  datatype Outcome = Done(mem: Memory, free: seq<Word>) | Fault

  /** The update of `vpn` to `ppn` from trie level `level` (1..5), standing
      at frame `node`, with `free` the frames the allocator hands out next.
      At levels 1-4 a valid entry is followed; an invalid one ends a destroy
      and otherwise receives a link to the next free frame, zero-filled.  At
      level 5 the leaf entry is cleared (destroy) or written. */
  function UpdateFrom(mem: Memory, node: Frame, vpn: Word, ppn: Word, level: nat, free: seq<Word>): (r: Outcome)
    requires 1 <= level <= LEVELS
    ensures r.Done? ==> node in mem
    decreases LEVELS - level
  {
    if node !in mem then Fault
    else if level == LEVELS then
      Done(Store(mem, node, LevelIndex(vpn, LEVELS), if ppn == NO_MAPPING then 0 else MakePte(ppn)), free)
    else
      var idx := LevelIndex(vpn, level);
      var e := Entry(mem, node, idx);
      if IsValid(e) then UpdateFrom(mem, Frame(FrameNumber(e)), vpn, ppn, level + 1, free)
      else if ppn == NO_MAPPING then Done(mem, free)
      else if |free| == 0 then Fault
      else
        var f := free[0];
        UpdateFrom(Store(mem[Frame(f) := ZeroNode()], node, idx, MakePte(f)), Frame(f), vpn, ppn, level + 1, free[1..])
  }

  /** The trie after the update from level `level`: each missing node of
      vpn's path at levels `level`..4 becomes the next free frame. */
  ghost function ShapeFrom(shape: Shape, vpn: Word, ppn: Word, level: nat, free: seq<Word>): Shape
    requires 1 <= level <= LEVELS
    decreases LEVELS - level
  {
    if level == LEVELS || ppn == NO_MAPPING then shape
    else if Prefix(vpn, level) in shape then ShapeFrom(shape, vpn, ppn, level + 1, free)
    else if |free| == 0 then shape
    else ShapeFrom(shape[Prefix(vpn, level) := Frame(free[0])], vpn, ppn, level + 1, free[1..])
  }

  /** A word the update may write: zero, or a valid entry whose bits 1-11
      are zero, i.e. `(f << 12) + 1` for some frame number `f`. */
  predicate PteWord(w: Word)
  {
    w == 0 || w % 0x1000 == 1
  }

  /** From `mem` to `mem'` frames are only added, and every entry that
      changed, or that sits in an added frame, holds a `PteWord`. */
  ghost predicate WritesPtes(mem: Memory, mem': Memory)
  {
    && mem.Keys <= mem'.Keys
    && forall g, j: Index | g in mem' && (g !in mem || Entry(mem', g, j) != Entry(mem, g, j)) ::
         PteWord(Entry(mem', g, j))
  }

  /** Only `PteWord`s, composed. */
  lemma WritesPtesTrans(a: Memory, b: Memory, c: Memory)
    requires WritesPtes(a, b) && WritesPtes(b, c)
    ensures WritesPtes(a, c)
  {
    forall g, j: Index | g in c && (g !in a || Entry(c, g, j) != Entry(a, g, j))
      ensures PteWord(Entry(c, g, j))
    {
      if g in b && Entry(c, g, j) == Entry(b, g, j) {
        assert PteWord(Entry(b, g, j));
      }
    }
  }

  /** Writing a `PteWord` into one slot. */
  lemma StoreWritesPtes(mem: Memory, f: Frame, i: Index, w: Word)
    requires f in mem && PteWord(w)
    ensures WritesPtes(mem, Store(mem, f, i, w))
  {
  }

  /** Allocating a zero-filled frame and linking it from one slot. */
  lemma LinkWritesPtes(mem: Memory, node: Frame, i: Index, f: Word)
    requires node in mem
    ensures WritesPtes(mem, Store(mem[Frame(f) := ZeroNode()], node, i, MakePte(f)))
  {
    var m1 := mem[Frame(f) := ZeroNode()];
    assert WritesPtes(mem, m1);
    StoreWritesPtes(m1, node, i, MakePte(f));
    WritesPtesTrans(mem, m1, Store(m1, node, i, MakePte(f)));
  }

  /** Every word the update writes is zero or `(f << 12) + 1`: the frame
      links at levels 1-4, the cleared leaf entry of a destroy and the new
      leaf entry of a mapping; a zero-filled frame holds zeros. */
  lemma {:induction false} UpdateWritesPtes(mem: Memory, node: Frame, vpn: Word, ppn: Word, level: nat, free: seq<Word>)
    requires 1 <= level <= LEVELS && UpdateFrom(mem, node, vpn, ppn, level, free).Done?
    ensures WritesPtes(mem, UpdateFrom(mem, node, vpn, ppn, level, free).mem)
    decreases LEVELS - level
  {
    var idx := LevelIndex(vpn, level);
    if level == LEVELS {
      StoreWritesPtes(mem, node, idx, if ppn == NO_MAPPING then 0 else MakePte(ppn));
    } else if IsValid(Entry(mem, node, idx)) {
      UpdateWritesPtes(mem, Frame(FrameNumber(Entry(mem, node, idx))), vpn, ppn, level + 1, free);
    } else if ppn == NO_MAPPING {
    } else {
      var f := free[0];
      var m2 := Store(mem[Frame(f) := ZeroNode()], node, idx, MakePte(f));
      LinkWritesPtes(mem, node, idx, f);
      UpdateWritesPtes(m2, Frame(f), vpn, ppn, level + 1, free[1..]);
      WritesPtesTrans(mem, m2, UpdateFrom(mem, node, vpn, ppn, level, free).mem);
    }
  }

  /** The allocator never hands out a frame twice: what the update leaves of
      the free list is still a list of distinct frames that the new memory
      does not use, so updates chain. */
  lemma {:induction false} UpdateKeepsFreeList(mem: Memory, node: Frame, vpn: Word, ppn: Word, level: nat, free: seq<Word>)
    requires 1 <= level <= LEVELS && FreeList(free, mem.Keys)
    requires UpdateFrom(mem, node, vpn, ppn, level, free).Done?
    ensures FreeList(UpdateFrom(mem, node, vpn, ppn, level, free).free, UpdateFrom(mem, node, vpn, ppn, level, free).mem.Keys)
    decreases LEVELS - level
  {
    if level < LEVELS {
      var idx := LevelIndex(vpn, level);
      var e := Entry(mem, node, idx);
      if IsValid(e) {
        UpdateKeepsFreeList(mem, Frame(FrameNumber(e)), vpn, ppn, level + 1, free);
      } else if ppn != NO_MAPPING {
        var f := free[0];
        var m2 := Store(mem[Frame(f) := ZeroNode()], node, idx, MakePte(f));
        FreeListGrow(free[1..], mem.Keys, f);
        assert m2.Keys == mem.Keys + {Frame(f)};
        UpdateKeepsFreeList(m2, Frame(f), vpn, ppn, level + 1, free[1..]);
      }
    }
  }

  /** What the update does, stated for a walk standing at level `i`. */
  ghost predicate Finished(mem0: Memory, shape: Shape, r: Outcome, s1: Shape, root: Frame, vpn: Word, ppn: Word, free: seq<Word>, used: nat)
  {
    && r.Done?
    && IsTrie(r.mem, root, s1)
    && Lookup(r.mem, s1, vpn) == ppn
    && (forall v | v < VPN_LIMIT && v != vpn :: Lookup(r.mem, s1, v) == Lookup(mem0, shape, v))
    && (ppn == NO_MAPPING ==> s1 == shape && r.mem == Destroyed(mem0, shape, vpn) && r.free == free)
    && (ppn != NO_MAPPING ==> PathUpdate(mem0, shape, r.mem, s1, vpn) && used <= |free| && r.free == free[used..])
  }
}
