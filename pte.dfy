/** Page-table entries and virtual page numbers as 64-bit words.

    A page-table entry (PTE) keeps the valid flag in bit 0, leaves bits 1-11
    zero and holds a 52-bit frame number in bits 12-63.  A virtual page number
    (VPN) has 45 significant bits, cut into five 9-bit indices, one per trie
    level, most significant first.

    Words are unsigned 64-bit integers.  The source's shifts and masks by
    constants are written as what they are on unsigned words: `x >> n` is
    `x / 2^n`, `x & (2^n - 1)` is `x % 2^n`, and `x << n` is `x * 2^n`
    reduced modulo 2^64. */
module Pte {

  const WORD_LIMIT: int := 0x1_0000_0000_0000_0000

  /** A machine word, `uint64_t` in the source. */
  newtype Word = x: int | 0 <= x < WORD_LIMIT

  /** A slot number inside one 512-entry trie node. */
  type Index = i: int | 0 <= i < 512

  const LEVELS: nat := 5
  /** 2^45: VPNs have 45 significant bits. */
  const VPN_LIMIT: Word := 0x2000_0000_0000
  /** 2^52: frame and page numbers have 52 bits. */
  const PPN_LIMIT: Word := 0x10_0000_0000_0000
  /** 2^12: the size of a frame, and the shift between a frame number and
      the frame's physical address. */
  const FRAME_SIZE: Word := 0x1000

  /** The "no mapping" sentinel.  Its definition lives in a header that is
      not part of this model; the proofs only use that it lies outside the
      52-bit range of legal physical page numbers. */
  const NO_MAPPING: Word := 0xFFFF_FFFF_FFFF_FFFF

  lemma NoMappingIsNotAPpn()
    ensures NO_MAPPING >= PPN_LIMIT
  {
  }

  // ---------------------------------------------------------------- VPN slices

  /** 2^n. */
  function Pow2(n: nat): (r: nat)
    ensures r >= 1
  {
    if n == 0 then 1 else 2 * Pow2(n - 1)
  }

  /** The shift `45 - i * 9` that brings the slice of trie level `i` (1..5)
      down to bit 0. */
  function Shift(level: nat): nat
    requires 1 <= level <= LEVELS
  {
    45 - level * 9
  }

  /** The 9-bit slice of `vpn` that indexes trie level `level`:
      `(vpn >> (45 - level * 9)) & 0x1ff`, with the level's shift written out
      as a constant. */
  function Slice(vpn: Word, level: nat): (r: Index)
    requires 1 <= level <= LEVELS
  {
    if level == 1 then (vpn as int / 0x10_0000_0000) % 512
    else if level == 2 then (vpn as int / 0x800_0000) % 512
    else if level == 3 then (vpn as int / 0x4_0000) % 512
    else if level == 4 then (vpn as int / 0x200) % 512
    else vpn as int % 512
  }

  /** The slice is the source's computation for every level: shift right by
      `45 - level * 9`, then keep the low nine bits. */
  lemma SliceIsShiftAndMask(vpn: Word, level: nat)
    requires 1 <= level <= LEVELS
    ensures Slice(vpn, level) == (vpn as int / Pow2(Shift(level))) % 512
  {
    Pow2Values();
    if level == 1 {
      assert Shift(1) == 36;
    } else if level == 2 {
      assert Shift(2) == 27;
    } else if level == 3 {
      assert Shift(3) == 18;
    } else if level == 4 {
      assert Shift(4) == 9;
    } else {
      assert Shift(5) == 0;
    }
  }

  lemma Pow2Values()
    ensures Pow2(0) == 1 && Pow2(9) == 0x200 && Pow2(18) == 0x4_0000
    ensures Pow2(27) == 0x800_0000 && Pow2(36) == 0x10_0000_0000
  {
    assert Pow2(9) == 0x200 by { Pow2Step(0); }
    assert Pow2(18) == 0x4_0000 by { Pow2Step(9); }
    assert Pow2(27) == 0x800_0000 by { Pow2Step(18); }
    assert Pow2(36) == 0x10_0000_0000 by { Pow2Step(27); }
  }

  /** Nine more bits multiply by 512. */
  lemma Pow2Step(n: nat)
    ensures Pow2(n + 9) == 512 * Pow2(n)
  {
    calc {
      Pow2(n + 9);
      2 * Pow2(n + 8);
      4 * Pow2(n + 7);
      8 * Pow2(n + 6);
      16 * Pow2(n + 5);
      32 * Pow2(n + 4);
      64 * Pow2(n + 3);
      128 * Pow2(n + 2);
      256 * Pow2(n + 1);
      512 * Pow2(n);
    }
  }

  /** The slot number of trie level `level` for `vpn`: the name the trie
      and the walks use for the index, whose arithmetic is `Slice`.  Keeping
      the arithmetic behind this one call keeps the verifier from unfolding
      it in the large contexts of the update's induction. */
  function LevelIndex(vpn: Word, level: nat): Index
    requires 1 <= level <= LEVELS
  {
    Slice(vpn, level)
  }

  /** The leaf index the update computes with a bare mask (`vpn & 0x1ff`);
      it is the slot that the query reaches at its fifth level. */
  function LeafIndex(vpn: Word): (r: Index)
    ensures r == LevelIndex(vpn, 5)
  {
    vpn as int % 512
  }

  /** Reassembles a VPN from its five 9-bit slices, most significant first:
      the slices shifted into place, which occupy disjoint bits. */
  function Compose(s1: Index, s2: Index, s3: Index, s4: Index, s5: Index): (r: Word)
    ensures r < VPN_LIMIT
  {
    (s1 * 0x10_0000_0000 + s2 * 0x800_0000 + s3 * 0x4_0000 + s4 * 0x200 + s5) as Word
  }

  /** The five slices are exactly the 9-bit groups of a 45-bit VPN. */
  lemma SlicesCompose(vpn: Word)
    requires vpn < VPN_LIMIT
    ensures Compose(Slice(vpn, 1), Slice(vpn, 2), Slice(vpn, 3), Slice(vpn, 4), Slice(vpn, 5)) == vpn
  {
    var v := vpn as int;
    var q4 := v / 0x200;
    var q3 := q4 / 512;
    var q2 := q3 / 512;
    var q1 := q2 / 512;
    assert v == q4 * 0x200 + v % 512;
    assert q4 == q3 * 512 + q4 % 512;
    assert q3 == q2 * 512 + q3 % 512;
    assert q2 == q1 * 512 + q2 % 512;
    assert q3 == v / 0x4_0000;
    assert q2 == v / 0x800_0000;
    assert q1 == v / 0x10_0000_0000;
  }

  /** Slicing a composed VPN gives back the slices. */
  lemma ComposeSlices(s1: Index, s2: Index, s3: Index, s4: Index, s5: Index)
    ensures var v := Compose(s1, s2, s3, s4, s5);
      Slice(v, 1) == s1 && Slice(v, 2) == s2 && Slice(v, 3) == s3 &&
      Slice(v, 4) == s4 && Slice(v, 5) == s5
  {
    var v := Compose(s1, s2, s3, s4, s5) as int;
    assert v / 0x200 == s1 * 0x800_0000 + s2 * 0x4_0000 + s3 * 0x200 + s4;
    assert v / 0x4_0000 == s1 * 0x4_0000 + s2 * 0x200 + s3;
    assert v / 0x800_0000 == s1 * 0x200 + s2;
    assert v / 0x10_0000_0000 == s1;
  }

  /** Two VPNs in range whose five indices agree are the same VPN: the trie
      gives every VPN its own leaf slot. */
  lemma IndicesDetermineVpn(a: Word, b: Word)
    requires a < VPN_LIMIT && b < VPN_LIMIT
    requires forall level | 1 <= level <= LEVELS :: LevelIndex(a, level) == LevelIndex(b, level)
    ensures a == b
  {
    assert LevelIndex(a, 1) == LevelIndex(b, 1) && LevelIndex(a, 2) == LevelIndex(b, 2);
    assert LevelIndex(a, 3) == LevelIndex(b, 3) && LevelIndex(a, 4) == LevelIndex(b, 4);
    assert LevelIndex(a, 5) == LevelIndex(b, 5);
    SlicesCompose(a);
    SlicesCompose(b);
  }

  // ------------------------------------------------------------------ entries

  /** The valid flag, bit 0: `(e & 1) == 1`. */
  predicate IsValid(e: Word) {
    e % 2 == 1
  }

  /** The frame or page number in the top 52 bits of `e`: `e >> 12`. */
  function FrameNumber(e: Word): (f: Word)
    ensures f < PPN_LIMIT
  {
    e / 0x1000
  }

  /** The physical address of the start of frame `f`: `f << 12`, which drops
      the top twelve bits of `f`. */
  function FrameAddress(f: Word): (a: Word)
    ensures a % 0x1000 == 0
  {
    ((f as int % 0x10_0000_0000_0000) * 0x1000) as Word
  }

  /** A frame number below 2^52 survives the shift there and back. */
  lemma FrameAddressRoundTrip(f: Word)
    requires f < PPN_LIMIT
    ensures FrameNumber(FrameAddress(f)) == f
  {
  }

  /** The source descends into `phys_to_virt(e - 1)`: taking the valid bit
      off a valid entry before the shift lands in the same frame. */
  lemma FrameNumberOfValid(e: Word)
    requires IsValid(e)
    ensures FrameNumber(e - 1) == FrameNumber(e)
  {
    var q, r := e as int / 0x1000, e as int % 0x1000;
    assert e as int == 2 * (q * 0x800) + r;
    if r == 0 {
      TwiceIsEven(q * 0x800);
      assert false;
    }
    assert (e - 1) as int == q * 0x1000 + (r - 1);
  }

  /** The entry the update installs for frame or page number `f`:
      `(f << 12) + 1`, whose low twelve bits are the valid flag alone. */
  function MakePte(f: Word): (e: Word)
    ensures e % 0x1000 == 1
  {
    FrameAddress(f) + 1
  }

  /** A frame number below 2^52 survives: the entry made for it is valid
      and names it. */
  lemma MakePteIsValid(f: Word)
    requires f < PPN_LIMIT
    ensures IsValid(MakePte(f)) && FrameNumber(MakePte(f)) == f
  {
    assert MakePte(f) as int == f as int * 0x1000 + 1;
    OneMoreThanEven(f as int * 0x800);
  }

  lemma TwiceIsEven(q: int)
    ensures (2 * q) % 2 == 0
  {
  }

  lemma OneMoreThanEven(q: int)
    ensures (2 * q + 1) % 2 == 1
  {
  }

  /** What a leaf entry says: the page number in its top 52 bits, or the
      sentinel when its valid bit is clear. */
  function LeafValue(e: Word): (r: Word)
    ensures r == NO_MAPPING <==> !IsValid(e)
    ensures IsValid(e) ==> r < PPN_LIMIT
  {
    if !IsValid(e) then NO_MAPPING else FrameNumber(e)
  }

  /** A leaf entry written by the update reads back as what was written. */
  lemma LeafRoundTrip(ppn: Word)
    requires ppn < PPN_LIMIT
    ensures LeafValue(MakePte(ppn)) == ppn
    ensures LeafValue(0) == NO_MAPPING
  {
    MakePteIsValid(ppn);
  }
}
