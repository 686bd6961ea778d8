/** The five-level page-table trie over physical memory, as pure values.

    Physical memory is a map from frame numbers to nodes of 512 entries.  The
    query walk is `Query`, which follows the source loop entry by entry.  The
    tree invariant is stated with a ghost `Shape`: the map from each path of
    slot indices (length 0..4) to the frame of the node that path reaches. */
module Trie {
  import opened Pte

  /** One 4096-byte frame, seen as 512 entries. */
  type Node = s: seq<Word> | |s| == 512 witness seq(512, _ => 0)

  /** A physical frame number. */
  datatype Frame = Frame(number: Word)

  /** Physical memory: the frames in existence, by frame number. */
  type Memory = map<Frame, Node>

  /** Slot indices from the root, one per level. */
  type Path = seq<Index>

  /** The trie nodes by path: `[]` is the root, a path of length 4 a leaf node. */
  type Shape = map<Path, Frame>

  /** A freshly allocated frame: every entry zero, so every entry invalid. */
  function ZeroNode(): (n: Node)
    ensures forall i: Index :: n[i] == 0
  {
    seq(512, _ => 0)
  }

  /** The entry in slot `i` of frame `f`. */
  function Entry(mem: Memory, f: Frame, i: Index): Word
    requires f in mem
  {
    var n: Node := mem[f];
    n[i]
  }

  /** Memory after writing word `w` into slot `i` of frame `f`. */
  function Store(mem: Memory, f: Frame, i: Index, w: Word): (m: Memory)
    requires f in mem
    ensures m.Keys == mem.Keys
    ensures Entry(m, f, i) == w
    ensures forall j: Index :: j != i ==> Entry(m, f, j) == Entry(mem, f, j)
    ensures forall g :: g in mem && g != f ==> m[g] == mem[g]
  {
    var n: Node := mem[f];
    mem[f := n[i := w]]
  }

  // ------------------------------------------------------------------ query

  /** The query walk from trie level `level` (1..5), standing at frame `node`:
      read the entry for this level's index; an invalid entry means no
      mapping; at the fifth level a valid entry holds the page number in its
      top bits; otherwise descend to the frame the entry names.  A frame that
      is not in memory is read as no mapping (the tree invariant rules this
      out). */
  function QueryFrom(mem: Memory, node: Frame, vpn: Word, level: nat): (r: Word)
    requires 1 <= level <= LEVELS
    ensures r == NO_MAPPING || r < PPN_LIMIT
    decreases LEVELS - level
  {
    if node !in mem then NO_MAPPING
    else
      var e := Entry(mem, node, LevelIndex(vpn, level));
      if !IsValid(e) then NO_MAPPING
      else if level == LEVELS then FrameNumber(e)
      else QueryFrom(mem, Frame(FrameNumber(e)), vpn, level + 1)
  }

  /** The page number `vpn` maps to in the trie rooted at frame `root`, or
      `NO_MAPPING`. */
  function Query(mem: Memory, root: Frame, vpn: Word): (r: Word)
    ensures r == NO_MAPPING || r < PPN_LIMIT
  {
    QueryFrom(mem, root, vpn, 1)
  }

  /** Every node that the query walk of `vpn` visits from frame `node` at
      level `level` is an allocated frame: the walk never follows an entry
      into memory that does not exist. */
  ghost predicate WalkInMemory(mem: Memory, node: Frame, vpn: Word, level: nat)
    requires 1 <= level <= LEVELS
    decreases LEVELS - level
  {
    && node in mem
    && (level < LEVELS && IsValid(Entry(mem, node, LevelIndex(vpn, level))) ==>
          WalkInMemory(mem, Frame(FrameNumber(Entry(mem, node, LevelIndex(vpn, level)))), vpn, level + 1))
  }

  // ------------------------------------------------------------------ shape

  /** The indices of the first `k` levels of `vpn`. */
  function Prefix(vpn: Word, k: nat): (p: Path)
    requires k <= 4
    ensures |p| == k
  {
    if k == 0 then [] else Prefix(vpn, k - 1) + [LevelIndex(vpn, k)]
  }

  /** The nodes of vpn's path: the paths of its prefixes of length 0..4. */
  function PathTo(vpn: Word): set<Path>
  {
    set k | 0 <= k <= 4 :: Prefix(vpn, k)
  }

  /** The frames reachable from `root` form a tree described by `shape`:
      the root sits at path `[]`; every node is an existing frame with a
      number that fits a PTE; a node's slot at levels 1-4 is valid exactly when
      the extended path is a node, and then the entry names that node's frame;
      paths are prefix-closed; and no frame sits at two paths, so distinct
      slots never point to the same frame and no child is the root. */
  ghost predicate IsTrie(mem: Memory, root: Frame, shape: Shape)
  {
    && [] in shape && shape[[]] == root
    && NodesIn(mem, shape)
    && PrefixClosed(shape)
    && Linked(mem, shape)
    && Injective(shape)
  }

  /** Every node is an existing frame whose number fits a PTE, at depth 0..4. */
  ghost predicate NodesIn(mem: Memory, shape: Shape)
  {
    forall p {:trigger p in shape} | p in shape :: |p| <= 4 && shape[p] in mem && shape[p].number < PPN_LIMIT
  }

  /** At levels 1-4 every slot of every node is linked. */
  ghost predicate Linked(mem: Memory, shape: Shape)
  {
    forall p: Path, i: Index | p in shape && |p| < 4 :: SlotLinked(mem, shape, p, i)
  }

  /** Slot `i` of the node at `p` is valid exactly when the extended path is
      a node, and then the entry names that node's frame. */
  ghost predicate SlotLinked(mem: Memory, shape: Shape, p: Path, i: Index)
  {
    p in shape && shape[p] in mem ==>
      && (p + [i] in shape) == IsValid(Entry(mem, shape[p], i))
      && (p + [i] in shape ==> shape[p + [i]] == Frame(FrameNumber(Entry(mem, shape[p], i))))
  }

  /** No frame is the node of two paths. */
  ghost predicate Injective(shape: Shape)
  {
    forall p, q :: SameNode(shape, p, q) ==> p == q
  }

  /** Paths `p` and `q` are both nodes, held in the same frame. */
  ghost predicate SameNode(shape: Shape, p: Path, q: Path)
  {
    p in shape && q in shape && shape[p] == shape[q]
  }

  /** No node but `p` is held in the frame of `p`. */
  lemma OnlyNodeAt(shape: Shape, p: Path)
    requires Injective(shape) && p in shape
    ensures forall q | q in shape && q != p :: shape[q] != shape[p]
  {
    forall q | q in shape && q != p
      ensures shape[q] != shape[p]
    {
      assert !SameNode(shape, q, p);
    }
  }

  /** The parent path of every node is a node. */
  ghost predicate PrefixClosed(shape: Shape)
  {
    forall p: Path, i: Index | p + [i] in shape :: p in shape
  }

  /** Reference definition of the mapping: the leaf entry of `vpn` in its
      leaf node, if that node exists. */
  function Lookup(mem: Memory, shape: Shape, vpn: Word): (r: Word)
  {
    var p := Prefix(vpn, 4);
    if p in shape && shape[p] in mem then LeafValue(Entry(mem, shape[p], LevelIndex(vpn, 5)))
    else NO_MAPPING
  }

  /** A prefix of a node's path is a node. */
  lemma {:induction false} PrefixOfNode(shape: Shape, vpn: Word, j: nat, k: nat)
    requires PrefixClosed(shape)
    requires j <= k <= 4 && Prefix(vpn, k) in shape
    ensures Prefix(vpn, j) in shape
    decreases k - j
  {
    if j < k {
      assert Prefix(vpn, k) == Prefix(vpn, k - 1) + [LevelIndex(vpn, k)];
      PrefixOfNode(shape, vpn, j, k - 1);
    }
  }

  /** One step of the walk from a node at level 1-4: go on to the child
      node if the path extends, otherwise stop with no mapping. */
  lemma WalkStep(mem: Memory, shape: Shape, vpn: Word, level: nat)
    requires NodesIn(mem, shape) && Linked(mem, shape)
    requires 1 <= level < LEVELS && Prefix(vpn, level - 1) in shape
    ensures QueryFrom(mem, shape[Prefix(vpn, level - 1)], vpn, level)
         == if Prefix(vpn, level) in shape then QueryFrom(mem, shape[Prefix(vpn, level)], vpn, level + 1)
            else NO_MAPPING
  {
    var p := Prefix(vpn, level - 1);
    var i := LevelIndex(vpn, level);
    assert Prefix(vpn, level) == p + [i];
    assert SlotLinked(mem, shape, p, i);
  }

  /** Without a node at some level of vpn's path there is no leaf node. */
  lemma AbsentBelow(mem: Memory, shape: Shape, vpn: Word, level: nat)
    requires PrefixClosed(shape) && level <= 4 && Prefix(vpn, level) !in shape
    ensures Lookup(mem, shape, vpn) == NO_MAPPING
  {
    if Prefix(vpn, 4) in shape {
      PrefixOfNode(shape, vpn, level, 4);
    }
  }

  lemma {:induction false} QueryFromLookup(mem: Memory, shape: Shape, vpn: Word, level: nat)
    requires NodesIn(mem, shape) && Linked(mem, shape) && PrefixClosed(shape)
    requires 1 <= level <= LEVELS && Prefix(vpn, level - 1) in shape
    ensures QueryFrom(mem, shape[Prefix(vpn, level - 1)], vpn, level) == Lookup(mem, shape, vpn)
    decreases LEVELS - level
  {
    if level < LEVELS {
      WalkStep(mem, shape, vpn, level);
      if Prefix(vpn, level) in shape {
        QueryFromLookup(mem, shape, vpn, level + 1);
      } else {
        AbsentBelow(mem, shape, vpn, level);
      }
    } else {
      LeafStep(mem, shape, vpn);
    }
  }

  /** The last step of the walk reads the leaf entry. */
  lemma LeafStep(mem: Memory, shape: Shape, vpn: Word)
    requires Prefix(vpn, 4) in shape && shape[Prefix(vpn, 4)] in mem
    ensures QueryFrom(mem, shape[Prefix(vpn, 4)], vpn, LEVELS) == Lookup(mem, shape, vpn)
  {
  }

  /** Under the tree invariant the query walk finds exactly the leaf entry of
      the reference definition. */
  lemma QueryIsLookup(mem: Memory, root: Frame, shape: Shape, vpn: Word)
    requires IsTrie(mem, root, shape)
    ensures Query(mem, root, vpn) == Lookup(mem, shape, vpn)
  {
    QueryFromLookup(mem, shape, vpn, 1);
  }

  // ------------------------------------------------------------- the writes

  /** Seq append is injective in its prefix. */
  lemma AppendInjective(p: Path, i: Index, q: Path, j: Index)
    requires p + [i] == q + [j]
    ensures p == q && i == j
  {
    assert p == (p + [i])[..|p|];
    assert q == (q + [j])[..|q|];
  }

  /** A fresh zero-filled frame (what the allocator returns) is outside the
      trie: adding it keeps the tree and every lookup. */
  lemma AllocKeepsTrie(mem: Memory, root: Frame, shape: Shape, c: Frame)
    requires IsTrie(mem, root, shape) && c !in mem
    ensures IsTrie(mem[c := ZeroNode()], root, shape)
    ensures forall v :: Lookup(mem[c := ZeroNode()], shape, v) == Lookup(mem, shape, v)
  {
    var mem' := mem[c := ZeroNode()];
    forall q: Path, j: Index | q in shape && |q| < 4
      ensures SlotLinked(mem', shape, q, j)
    {
      assert SlotLinked(mem, shape, q, j);
      assert Entry(mem', shape[q], j) == Entry(mem, shape[q], j);
    }
  }

  /** Installing a link to a fresh zeroed frame `c` in an invalid slot `i` of
      the node at path `p` (levels 1-4) grows the tree by the node `p + [i]`
      and changes no lookup at all: the new node has no valid entry. */
  lemma LinkKeepsTrie(mem: Memory, root: Frame, shape: Shape, p: Path, i: Index, c: Frame)
    requires IsTrie(mem, root, shape)
    requires p in shape && |p| < 4 && !IsValid(Entry(mem, shape[p], i))
    requires c in mem && mem[c] == ZeroNode() && c.number < PPN_LIMIT
    requires forall q | q in shape :: shape[q] != c
    ensures IsTrie(Store(mem, shape[p], i, MakePte(c.number)), root, shape[p + [i] := c])
    ensures forall v :: Lookup(Store(mem, shape[p], i, MakePte(c.number)), shape[p + [i] := c], v)
                     == Lookup(mem, shape, v)
  {
    assert SlotLinked(mem, shape, p, i);
    OnlyNodeAt(shape, p);
    LinkKeepsTrieShape(mem, root, shape, p, i, c);
    forall v
      ensures Lookup(Store(mem, shape[p], i, MakePte(c.number)), shape[p + [i] := c], v)
           == Lookup(mem, shape, v)
    {
      LinkKeepsLookup(mem, shape, p, i, c, v);
    }
  }

  lemma LinkKeepsLookup(mem: Memory, shape: Shape, p: Path, i: Index, c: Frame, v: Word)
    requires p in shape && shape[p] in mem && |p| < 4 && p + [i] !in shape
    requires forall q | q in shape :: shape[q] in mem && (shape[q] == shape[p] ==> q == p)
    requires c in mem && mem[c] == ZeroNode() && c != shape[p] && c.number < PPN_LIMIT
    ensures Lookup(Store(mem, shape[p], i, MakePte(c.number)), shape[p + [i] := c], v)
         == Lookup(mem, shape, v)
  {
    var leaf := Prefix(v, 4);
    if leaf == p + [i] {
      LinkNewLeafLookup(mem, shape, p, i, c, v);
    } else if leaf in shape {
      assert shape[leaf] != shape[p];
    }
  }

  /** A VPN whose leaf node is the new node maps to nothing, before and after. */
  lemma LinkNewLeafLookup(mem: Memory, shape: Shape, p: Path, i: Index, c: Frame, v: Word)
    requires p in shape && shape[p] in mem && p + [i] !in shape && Prefix(v, 4) == p + [i]
    requires c in mem && mem[c] == ZeroNode() && c != shape[p] && c.number < PPN_LIMIT
    ensures Lookup(Store(mem, shape[p], i, MakePte(c.number)), shape[p + [i] := c], v) == NO_MAPPING
    ensures Lookup(mem, shape, v) == NO_MAPPING
  {
    var mem' := Store(mem, shape[p], i, MakePte(c.number));
    assert mem'[c] == ZeroNode();
    assert Entry(mem', c, LevelIndex(v, 5)) == 0;
  }

  lemma LinkKeepsTrieShape(mem: Memory, root: Frame, shape: Shape, p: Path, i: Index, c: Frame)
    requires IsTrie(mem, root, shape)
    requires p in shape && |p| < 4 && !IsValid(Entry(mem, shape[p], i))
    requires c in mem && mem[c] == ZeroNode() && c.number < PPN_LIMIT
    requires forall q | q in shape :: shape[q] != c
    ensures IsTrie(Store(mem, shape[p], i, MakePte(c.number)), root, shape[p + [i] := c])
  {
    assert SlotLinked(mem, shape, p, i);
    OnlyNodeAt(shape, p);
    LinkKeepsPrefixClosed(shape, p, i, c);
    LinkKeepsLinked(mem, shape, p, i, c);
    var shape' := shape[p + [i] := c];
    forall q, r | SameNode(shape', q, r)
      ensures q == r
    {
      if q != p + [i] && r != p + [i] {
        assert SameNode(shape, q, r);
      }
    }
  }

  lemma LinkKeepsPrefixClosed(shape: Shape, p: Path, i: Index, c: Frame)
    requires PrefixClosed(shape) && p in shape
    ensures PrefixClosed(shape[p + [i] := c])
  {
    forall q: Path, j: Index | q + [j] in shape[p + [i] := c]
      ensures q in shape[p + [i] := c]
    {
      if q + [j] == p + [i] {
        AppendInjective(q, j, p, i);
      }
    }
  }

  lemma LinkKeepsLinked(mem: Memory, shape: Shape, p: Path, i: Index, c: Frame)
    requires NodesIn(mem, shape) && Linked(mem, shape) && PrefixClosed(shape)
    requires p in shape && |p| < 4 && p + [i] !in shape
    requires forall q | q in shape :: shape[q] == shape[p] ==> q == p
    requires c in mem && mem[c] == ZeroNode() && c.number < PPN_LIMIT
    requires forall q | q in shape :: shape[q] != c
    ensures Linked(Store(mem, shape[p], i, MakePte(c.number)), shape[p + [i] := c])
  {
    var mem' := Store(mem, shape[p], i, MakePte(c.number));
    var shape' := shape[p + [i] := c];
    forall q: Path, j: Index | q in shape' && |q| < 4
      ensures SlotLinked(mem', shape', q, j)
    {
      LinkSlot(mem, shape, p, i, c, q, j);
    }
  }

  /** Slot `j` of node `q` after the link of `p + [i]` to `c`. */
  lemma LinkSlot(mem: Memory, shape: Shape, p: Path, i: Index, c: Frame, q: Path, j: Index)
    requires NodesIn(mem, shape) && Linked(mem, shape) && PrefixClosed(shape)
    requires p in shape && |p| < 4 && p + [i] !in shape
    requires forall q | q in shape :: shape[q] == shape[p] ==> q == p
    requires c in mem && mem[c] == ZeroNode() && c.number < PPN_LIMIT
    requires forall q | q in shape :: shape[q] != c
    requires q in shape[p + [i] := c] && |q| < 4
    ensures SlotLinked(Store(mem, shape[p], i, MakePte(c.number)), shape[p + [i] := c], q, j)
  {
    var mem' := Store(mem, shape[p], i, MakePte(c.number));
    if q == p + [i] {
      assert Entry(mem', c, j) == 0;
      assert q + [j] !in shape;
      if q + [j] == p + [i] {
        AppendInjective(q, j, p, i);
      }
    } else if q + [j] == p + [i] {
      AppendInjective(q, j, p, i);
      MakePteIsValid(c.number);
    } else if q == p {
      assert SlotLinked(mem, shape, q, j);
    } else {
      assert shape[q] != shape[p];
      assert SlotLinked(mem, shape, q, j);
    }
  }

  /** Writing word `w` into slot `i` of a leaf node (path of length 4) keeps
      the tree and changes the lookup of exactly the VPNs whose leaf slot that
      is. */
  lemma StoreLeafKeepsTrie(mem: Memory, root: Frame, shape: Shape, p: Path, i: Index, w: Word)
    requires IsTrie(mem, root, shape)
    requires p in shape && |p| == 4
    ensures IsTrie(Store(mem, shape[p], i, w), root, shape)
    ensures forall v :: Lookup(Store(mem, shape[p], i, w), shape, v)
                     == if Prefix(v, 4) == p && LevelIndex(v, 5) == i then LeafValue(w)
                        else Lookup(mem, shape, v)
  {
    var mem' := Store(mem, shape[p], i, w);
    forall q: Path, j: Index | q in shape && |q| < 4
      ensures SlotLinked(mem', shape, q, j)
    {
      assert !SameNode(shape, q, p);
      assert SlotLinked(mem, shape, q, j);
    }
    forall v
      ensures Lookup(mem', shape, v)
           == if Prefix(v, 4) == p && LevelIndex(v, 5) == i then LeafValue(w) else Lookup(mem, shape, v)
    {
      var leaf := Prefix(v, 4);
      if leaf in shape && leaf != p {
        assert !SameNode(shape, leaf, p);
      }
    }
  }

  // ---------------------------------------------------- update and destroy

  lemma {:induction false} PrefixAt(vpn: Word, k: nat, j: nat)
    requires j < k <= 4
    ensures Prefix(vpn, k)[j] == LevelIndex(vpn, j + 1)
  {
    if j < k - 1 {
      PrefixAt(vpn, k - 1, j);
    }
  }

  /** Two VPNs in range with the same leaf node path and leaf index are the
      same VPN. */
  lemma SameLeafSlotSameVpn(a: Word, b: Word)
    requires a < VPN_LIMIT && b < VPN_LIMIT
    requires Prefix(a, 4) == Prefix(b, 4) && LevelIndex(a, 5) == LevelIndex(b, 5)
    ensures a == b
  {
    forall level | 1 <= level <= LEVELS
      ensures LevelIndex(a, level) == LevelIndex(b, level)
    {
      if level < LEVELS {
        PrefixAt(a, 4, level - 1);
        PrefixAt(b, 4, level - 1);
      }
    }
    IndicesDetermineVpn(a, b);
  }

  /** Writing `w` into vpn's leaf slot, once its leaf node exists, makes the
      query of `vpn` read `w` and leaves the query of every other VPN as it
      was, even one that shares upper slices with `vpn`. */
  lemma LeafWriteQuery(mem: Memory, root: Frame, shape: Shape, vpn: Word, w: Word)
    requires IsTrie(mem, root, shape) && vpn < VPN_LIMIT && Prefix(vpn, 4) in shape
    ensures IsTrie(Store(mem, shape[Prefix(vpn, 4)], LevelIndex(vpn, 5), w), root, shape)
    ensures Query(Store(mem, shape[Prefix(vpn, 4)], LevelIndex(vpn, 5), w), root, vpn) == LeafValue(w)
    ensures forall v :: v < VPN_LIMIT && v != vpn ==>
      Query(Store(mem, shape[Prefix(vpn, 4)], LevelIndex(vpn, 5), w), root, v) == Query(mem, root, v)
  {
    var mem' := Store(mem, shape[Prefix(vpn, 4)], LevelIndex(vpn, 5), w);
    StoreLeafKeepsTrie(mem, root, shape, Prefix(vpn, 4), LevelIndex(vpn, 5), w);
    QueryIsLookup(mem', root, shape, vpn);
    forall v | v < VPN_LIMIT && v != vpn
      ensures Query(mem', root, v) == Query(mem, root, v)
    {
      QueryIsLookup(mem', root, shape, v);
      QueryIsLookup(mem, root, shape, v);
      if Prefix(v, 4) == Prefix(vpn, 4) && LevelIndex(v, 5) == LevelIndex(vpn, 5) {
        SameLeafSlotSameVpn(v, vpn);
      }
    }
  }

  /** Memory after destroying the mapping of `vpn`: the leaf slot cleared
      when the leaf node exists; otherwise nothing at all is written. */
  function Destroyed(mem: Memory, shape: Shape, vpn: Word): Memory
  {
    var p := Prefix(vpn, 4);
    if p in shape && shape[p] in mem then Store(mem, shape[p], LevelIndex(vpn, 5), 0) else mem
  }

  /** Destroying twice is destroying once. */
  lemma DestroyIdempotent(mem: Memory, shape: Shape, vpn: Word)
    ensures Destroyed(Destroyed(mem, shape, vpn), shape, vpn) == Destroyed(mem, shape, vpn)
  {
    var p := Prefix(vpn, 4);
    if p in shape && shape[p] in mem {
      StoreAgain(mem, shape[p], LevelIndex(vpn, 5), 0);
    }
  }

  /** Writing a word twice into the same slot is writing it once. */
  lemma StoreAgain(mem: Memory, f: Frame, i: Index, w: Word)
    requires f in mem
    ensures Store(Store(mem, f, i, w), f, i, w) == Store(mem, f, i, w)
  {
    var n: Node := Store(mem, f, i, w)[f];
    assert n[i := w] == n;
  }

  /** Destroy removes the mapping of `vpn`, whether or not it existed, keeps
      the tree, and leaves every other VPN's mapping as it was. */
  lemma DestroyQuery(mem: Memory, root: Frame, shape: Shape, vpn: Word)
    requires IsTrie(mem, root, shape) && vpn < VPN_LIMIT
    ensures IsTrie(Destroyed(mem, shape, vpn), root, shape)
    ensures Query(Destroyed(mem, shape, vpn), root, vpn) == NO_MAPPING
    ensures forall v :: v < VPN_LIMIT && v != vpn ==>
      Query(Destroyed(mem, shape, vpn), root, v) == Query(mem, root, v)
  {
    var p := Prefix(vpn, 4);
    if p in shape {
      DestroyPresent(mem, shape, vpn);
      LeafWriteQuery(mem, root, shape, vpn, 0);
    } else {
      QueryIsLookup(mem, root, shape, vpn);
    }
  }

  lemma DestroyPresent(mem: Memory, shape: Shape, vpn: Word)
    requires Prefix(vpn, 4) in shape && shape[Prefix(vpn, 4)] in mem
    ensures Destroyed(mem, shape, vpn) == Store(mem, shape[Prefix(vpn, 4)], LevelIndex(vpn, 5), 0)
  {
  }

  /** A zero-filled root frame is an empty trie: every VPN maps to nothing. */
  lemma EmptyTrie(mem: Memory, root: Frame)
    requires root in mem && mem[root] == ZeroNode() && root.number < PPN_LIMIT
    ensures IsTrie(mem, root, map[[] := root])
    ensures forall v :: Query(mem, root, v) == NO_MAPPING
  {
    var shape := map[[] := root];
    forall p: Path, i: Index | p in shape && |p| < 4
      ensures SlotLinked(mem, shape, p, i)
    {
      assert Entry(mem, root, i) == 0;
    }
    forall v
      ensures Query(mem, root, v) == NO_MAPPING
    {
      assert Entry(mem, root, LevelIndex(v, 1)) == 0;
    }
  }

  // ------------------------------------------------------ allocation count

  /** How many of the nodes at levels 2..k+1 of vpn's path (paths of length
      1..k) are missing: the frames an update of `vpn` has to allocate. */
  function Missing(shape: Shape, vpn: Word, k: nat): (n: nat)
    requires k <= 4
    ensures n <= k
  {
    if k == 0 then 0 else Missing(shape, vpn, k - 1) + (if Prefix(vpn, k) in shape then 0 else 1)
  }

  /** How many of the nodes of vpn's path deeper than length `k` (paths of
      length k+1..4) are missing: what is left to allocate once the update
      stands below the node at length `k`. */
  function MissingAfter(shape: Shape, vpn: Word, k: nat): (n: nat)
    requires k <= 4
    ensures Missing(shape, vpn, k) + n == Missing(shape, vpn, 4)
    decreases 4 - k
  {
    if k == 4 then 0 else MissingAfter(shape, vpn, k + 1) + (if Prefix(vpn, k + 1) in shape then 0 else 1)
  }

  /** Nothing is missing exactly when vpn's leaf node exists. */
  lemma {:induction false} NothingMissing(shape: Shape, vpn: Word, k: nat)
    requires [] in shape && PrefixClosed(shape) && k <= 4
    ensures Missing(shape, vpn, k) == 0 <==> Prefix(vpn, k) in shape
  {
    if k > 0 {
      NothingMissing(shape, vpn, k - 1);
      if Prefix(vpn, k) in shape {
        PrefixOfNode(shape, vpn, k - 1, k);
      }
    }
  }

  // ------------------------------------------------------- walking down

  /** The query walk stops at an invalid slot of vpn's path: vpn is unmapped. */
  lemma QueryStops(mem: Memory, root: Frame, shape: Shape, vpn: Word, level: nat)
    requires IsTrie(mem, root, shape)
    requires 1 <= level <= LEVELS && Prefix(vpn, level - 1) in shape
    requires !IsValid(Entry(mem, shape[Prefix(vpn, level - 1)], LevelIndex(vpn, level)))
    ensures Lookup(mem, shape, vpn) == NO_MAPPING
  {
    if level < LEVELS {
      WalkStops(mem, root, shape, vpn, level);
      AbsentBelow(mem, shape, vpn, level);
    }
  }

  /** A valid slot on vpn's path at levels 1-4 leads to the next node of the
      path, in the frame the entry names. */
  lemma WalkDown(mem: Memory, root: Frame, shape: Shape, vpn: Word, level: nat)
    requires IsTrie(mem, root, shape)
    requires 1 <= level < LEVELS && Prefix(vpn, level - 1) in shape
    requires IsValid(Entry(mem, shape[Prefix(vpn, level - 1)], LevelIndex(vpn, level)))
    ensures Prefix(vpn, level) in shape && shape[Prefix(vpn, level)] in mem
    ensures shape[Prefix(vpn, level)]
         == Frame(FrameNumber(Entry(mem, shape[Prefix(vpn, level - 1)], LevelIndex(vpn, level))))
  {
    var p := Prefix(vpn, level - 1);
    var i := LevelIndex(vpn, level);
    assert Prefix(vpn, level) == p + [i];
    assert SlotLinked(mem, shape, p, i);
  }

  /** On a trie the query walk of any VPN, from any node of its path, stays
      in allocated frames. */
  lemma {:induction false} TrieWalkInMemory(mem: Memory, root: Frame, shape: Shape, vpn: Word, level: nat)
    requires IsTrie(mem, root, shape)
    requires 1 <= level <= LEVELS && Prefix(vpn, level - 1) in shape
    ensures WalkInMemory(mem, shape[Prefix(vpn, level - 1)], vpn, level)
    decreases LEVELS - level
  {
    var node := shape[Prefix(vpn, level - 1)];
    if level < LEVELS && IsValid(Entry(mem, node, LevelIndex(vpn, level))) {
      WalkDown(mem, root, shape, vpn, level);
      TrieWalkInMemory(mem, root, shape, vpn, level + 1);
    }
  }

  /** An invalid slot on vpn's path means vpn's path has no node at that level. */
  lemma WalkStops(mem: Memory, root: Frame, shape: Shape, vpn: Word, level: nat)
    requires IsTrie(mem, root, shape)
    requires 1 <= level < LEVELS && Prefix(vpn, level - 1) in shape
    requires !IsValid(Entry(mem, shape[Prefix(vpn, level - 1)], LevelIndex(vpn, level)))
    ensures Prefix(vpn, level) !in shape
  {
    var p := Prefix(vpn, level - 1);
    var i := LevelIndex(vpn, level);
    assert Prefix(vpn, level) == p + [i];
    assert SlotLinked(mem, shape, p, i);
  }

  /** Below a missing node there are no nodes. */
  lemma NoDeeperNodes(shape: Shape, vpn: Word, level: nat)
    requires PrefixClosed(shape) && level <= 4 && Prefix(vpn, level) !in shape
    ensures forall k | level <= k <= 4 :: Prefix(vpn, k) !in shape
  {
    forall k | level <= k <= 4
      ensures Prefix(vpn, k) !in shape
    {
      if Prefix(vpn, k) in shape {
        PrefixOfNode(shape, vpn, level, k);
      }
    }
  }

  /** Destroying a mapping whose path is cut off writes nothing. */
  lemma DestroyAbsent(mem: Memory, shape: Shape, vpn: Word, level: nat)
    requires PrefixClosed(shape) && level <= 4 && Prefix(vpn, level) !in shape
    ensures Destroyed(mem, shape, vpn) == mem
  {
    NoDeeperNodes(shape, vpn, level);
  }

  // ------------------------------------------------------------ allocation

  /** `free` lists distinct frame numbers that fit a PTE and are not in
      `used`: the frames the allocator may still hand out. */
  ghost predicate FreeList(free: seq<Word>, used: set<Frame>)
  {
    |free| == 0 ||
    (free[0] < PPN_LIMIT && Frame(free[0]) !in used && free[0] !in free[1..] && FreeList(free[1..], used))
  }

  /** Using a frame that is not on the free list keeps the list free. */
  lemma {:induction false} FreeListGrow(free: seq<Word>, used: set<Frame>, f: Word)
    requires FreeList(free, used) && f !in free
    ensures FreeList(free, used + {Frame(f)})
    decreases |free|
  {
    if |free| > 0 {
      FreeListGrow(free[1..], used, f);
    }
  }
}
