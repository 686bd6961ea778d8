/** Simulated physical memory and its two collaborators: the frame allocator
    (`alloc_page_frame`) and the translation of a physical address into a
    pointer the program can use (`phys_to_virt`).

    Memory is an arena of frames indexed by frame number; each allocated
    frame is a 512-entry array of words.  The allocator hands out frames
    from a free list of frame numbers that are distinct and not yet in use,
    and returns each one zero-filled. */
module PhysMem {
  import opened Pte
  import opened Trie

  class PhysicalMemory {
    /** The allocated frames, by frame number. */
    var frames: map<Frame, array<Word>>
    /** Frame numbers the allocator has not handed out yet, in order. */
    var free: seq<Word>
    /** The frame each allocated array belongs to: no array is shared by two
        frames. */
    ghost var owner: map<array<Word>, Frame>

    ghost predicate Valid()
      reads this
    {
      && (forall f | f in frames :: frames[f].Length == 512 && frames[f] in owner && owner[frames[f]] == f)
      && FreeList(free, frames.Keys)
    }

    /** Frame `f` is allocated and its array is `a`. */
    ghost predicate Holds(f: Frame, a: array<Word>)
      reads this
    {
      f in frames && frames[f] == a
    }

    /** Since the old state frames were only added, each with a new array;
        every frame that existed keeps its array. */
    twostate predicate Grew()
      reads this
    {
      && (forall g | g in old(frames) :: g in frames && frames[g] == old(frames)[g])
      && (forall g | g in frames && g !in old(frames) :: fresh(frames[g]))
    }

    /** The contents of every allocated frame. */
    ghost function Contents(): (m: Memory)
      reads this, frames.Values
      requires Valid()
      ensures m.Keys == frames.Keys
    {
      map f | f in frames :: frames[f][..]
    }

    /** Every slot of every frame's array holds the frame's entry. */
    lemma ElementsAreEntries(m: Memory)
      requires Valid() && m == Contents()
      ensures forall f, i: Index | f in frames :: frames[f][i] == Entry(m, f, i)
    {
    }

    /** Memory with no frame allocated yet and the given frame numbers free. */
    constructor (free: seq<Word>)
      requires FreeList(free, {})
      ensures Valid() && frames == map[] && this.free == free
    {
      frames := map[];
      this.free := free;
      owner := map[];
      new;
      assert frames.Keys == {};
    }

    /** `alloc_page_frame`: a frame not in use, zero-filled, that fits a PTE. */
    method AllocPageFrame() returns (f: Word)
      requires Valid() && |free| > 0
      modifies this
      ensures Valid()
      ensures f == old(free[0]) && free == old(free[1..])
      ensures Frame(f) !in old(frames) && f < PPN_LIMIT
      ensures Frame(f) in frames && fresh(frames[Frame(f)])
      ensures frames == old(frames)[Frame(f) := frames[Frame(f)]]
      ensures Contents() == old(Contents())[Frame(f) := ZeroNode()]
    {
      f := free[0];
      var a := new Word[512](_ => 0);
      FreeListGrow(free[1..], frames.Keys, f);
      frames := frames[Frame(f) := a];
      owner := owner[a := Frame(f)];
      free := free[1..];
      assert frames.Keys == old(frames.Keys) + {Frame(f)};
      assert a[..] == ZeroNode();
    }

    /** `phys_to_virt`: the frame that physical address `addr` lies in. */
    function PhysToVirt(addr: Word): (a: array<Word>)
      reads this
      requires Frame(FrameNumber(addr)) in frames
      ensures a in frames.Values
    {
      frames[Frame(FrameNumber(addr))]
    }

    /** `phys_to_virt(e - 1)`: the next-level table that a valid entry `e`
        points to, at the physical address the entry holds once its valid
        bit is taken off. */
    method NextTable(e: Word) returns (a: array<Word>)
      requires Valid() && IsValid(e) && Frame(FrameNumber(e)) in frames
      ensures a == frames[Frame(FrameNumber(e))]
      ensures Valid() && Contents() == old(Contents())
    {
      FrameNumberOfValid(e);
      a := PhysToVirt(e - 1);
    }
  }
}
