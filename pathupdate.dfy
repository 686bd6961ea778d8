/** What an update of one VPN may write.

    `PathUpdate(mem, shape, mem', shape', vpn)` relates the memory and trie
    before an update to the memory and trie after it.  The trie only grows,
    and only along vpn's path, into frames that did not exist.  Every frame
    off vpn's path is left as it was.  Every node on the path differs from
    its former content (zeros for a new node) in at most the one slot on the
    path.  At levels 1-4 that slot keeps a link that already existed, and
    links a node that the update added. */
module PathUpdates {
  import opened Pte
  import opened Trie

  /** A frame's content before the update: the old content, or zeros for a
      frame the update allocated. */
  function Before(mem: Memory, f: Frame): Node
  {
    if f in mem then mem[f] else ZeroNode()
  }

  /** The frames of the nodes on vpn's path. */
  function PathFrames(shape: Shape, vpn: Word): set<Frame>
  {
    set k | 0 <= k <= 4 && Prefix(vpn, k) in shape :: shape[Prefix(vpn, k)]
  }

  /** The node at `Prefix(vpn, k)`, if any, changed at most in its slot on
      vpn's path.  At levels 1-4 that slot is unchanged when the next node
      already existed, and links the next node when the update added it. */
  ghost predicate NodeUpdate(mem: Memory, shape: Shape, mem': Memory, shape': Shape, vpn: Word, k: nat)
    requires k <= 4
  {
    Prefix(vpn, k) in shape' && shape'[Prefix(vpn, k)] in mem' ==>
      var f := shape'[Prefix(vpn, k)];
      var i := LevelIndex(vpn, k + 1);
      var before := Before(mem, f);
      && mem'[f] == before[i := Entry(mem', f, i)]
      && (k < 4 && Prefix(vpn, k + 1) in shape ==> Entry(mem', f, i) == before[i])
      && (k < 4 && Prefix(vpn, k + 1) in shape' && Prefix(vpn, k + 1) !in shape
            && shape'[Prefix(vpn, k + 1)].number < PPN_LIMIT
          ==> Entry(mem', f, i) == MakePte(shape'[Prefix(vpn, k + 1)].number))
  }

  ghost predicate PathUpdate(mem: Memory, shape: Shape, mem': Memory, shape': Shape, vpn: Word)
  {
    && FramesGrow(mem, mem', shape', vpn)
    && ShapeGrows(mem, shape, shape', vpn)
    && OffPathKept(mem, mem', shape', vpn)
    && (forall k | 0 <= k <= 4 :: NodeUpdate(mem, shape, mem', shape', vpn, k))
  }

  /** Frames are only added, and only as nodes of vpn's path. */
  ghost predicate FramesGrow(mem: Memory, mem': Memory, shape': Shape, vpn: Word)
  {
    mem.Keys <= mem'.Keys && mem'.Keys - mem.Keys <= PathFrames(shape', vpn)
  }

  /** Nodes are only added, on vpn's path, in frames that did not exist. */
  ghost predicate ShapeGrows(mem: Memory, shape: Shape, shape': Shape, vpn: Word)
  {
    && (forall q | q in shape :: q in shape' && shape'[q] == shape[q])
    && (forall q | q in shape' && q !in shape :: q in PathTo(vpn) && shape'[q] !in mem)
  }

  /** Every frame off vpn's path is as it was. */
  ghost predicate OffPathKept(mem: Memory, mem': Memory, shape': Shape, vpn: Word)
  {
    forall f | f in mem && f !in PathFrames(shape', vpn) :: f in mem' && mem'[f] == mem[f]
  }

  /** The nodes of vpn's path from level `from` on still hold what they held
      before the update (zeros, for a frame the update allocated). */
  ghost predicate Untouched(mem: Memory, mem': Memory, shape': Shape, vpn: Word, from: nat)
  {
    forall k | from <= k <= 4 && Prefix(vpn, k) in shape' ::
      shape'[Prefix(vpn, k)] in mem' && mem'[shape'[Prefix(vpn, k)]] == Before(mem, shape'[Prefix(vpn, k)])
  }

  /** Changing nothing is such an update. */
  lemma PathUpdateNone(mem: Memory, shape: Shape, vpn: Word)
    ensures PathUpdate(mem, shape, mem, shape, vpn)
  {
    forall k | 0 <= k <= 4
      ensures NodeUpdate(mem, shape, mem, shape, vpn, k)
    {
      if Prefix(vpn, k) in shape && shape[Prefix(vpn, k)] in mem {
        var n: Node := mem[shape[Prefix(vpn, k)]];
        var i := LevelIndex(vpn, k + 1);
        assert n[i := n[i]] == n;
      }
    }
  }

  // ------------------------------------------------- linking a new node

  /** The frames on the path after linking the node at level `i` are those
      before, plus the new frame. */
  lemma LinkPathFrames(s: Shape, vpn: Word, i: nat, c: Frame)
    requires 1 <= i <= 4 && Prefix(vpn, i) !in s
    ensures PathFrames(s[Prefix(vpn, i) := c], vpn) == PathFrames(s, vpn) + {c}
  {
    var s2 := s[Prefix(vpn, i) := c];
    forall f | f in PathFrames(s2, vpn)
      ensures f in PathFrames(s, vpn) + {c}
    {
      var k :| 0 <= k <= 4 && Prefix(vpn, k) in s2 && s2[Prefix(vpn, k)] == f;
      if k != i {
        assert |Prefix(vpn, k)| != |Prefix(vpn, i)|;
      }
    }
    forall f | f in PathFrames(s, vpn) + {c}
      ensures f in PathFrames(s2, vpn)
    {
      if f == c {
        assert s2[Prefix(vpn, i)] == c;
      } else {
        var k :| 0 <= k <= 4 && Prefix(vpn, k) in s && s[Prefix(vpn, k)] == f;
        assert |Prefix(vpn, k)| != |Prefix(vpn, i)|;
        assert s2[Prefix(vpn, k)] == f;
      }
    }
  }

  lemma PrefixInPathTo(vpn: Word, k: nat)
    requires k <= 4
    ensures Prefix(vpn, k) in PathTo(vpn)
  {
  }

  lemma PrefixFrameOnPath(s: Shape, vpn: Word, k: nat)
    requires k <= 4 && Prefix(vpn, k) in s
    ensures s[Prefix(vpn, k)] in PathFrames(s, vpn)
  {
  }

  /** The new node: zeros everywhere, and nothing below it yet. */
  lemma LinkNodeNew(mem: Memory, shape: Shape, m: Memory, s: Shape, vpn: Word, i: nat, c: Frame)
    requires 1 <= i <= 4 && Prefix(vpn, i - 1) in s && s[Prefix(vpn, i - 1)] in m
    requires forall k | i <= k <= 4 :: Prefix(vpn, k) !in s
    requires c !in m && c !in mem && c.number < PPN_LIMIT
    ensures NodeUpdate(mem, shape,
                       Store(m[c := ZeroNode()], s[Prefix(vpn, i - 1)], LevelIndex(vpn, i), MakePte(c.number)),
                       s[Prefix(vpn, i) := c], vpn, i)
  {
    var m2 := Store(m[c := ZeroNode()], s[Prefix(vpn, i - 1)], LevelIndex(vpn, i), MakePte(c.number));
    var j := LevelIndex(vpn, i + 1);
    assert m2[c] == ZeroNode();
    assert Entry(m2, c, j) == 0;
    assert ZeroNode()[j := 0] == ZeroNode();
    if i < 4 {
      assert |Prefix(vpn, i + 1)| != |Prefix(vpn, i)|;
      assert Prefix(vpn, i + 1) !in s;
    }
  }

  /** The parent node: its path slot now links the new node. */
  lemma LinkNodeParent(mem: Memory, shape: Shape, m: Memory, s: Shape, vpn: Word, i: nat, c: Frame)
    requires 1 <= i <= 4 && Prefix(vpn, i - 1) in s && s[Prefix(vpn, i - 1)] in m
    requires m[s[Prefix(vpn, i - 1)]] == Before(mem, s[Prefix(vpn, i - 1)])
    requires Prefix(vpn, i) !in s && Prefix(vpn, i) !in shape
    requires c !in m && c.number < PPN_LIMIT
    ensures NodeUpdate(mem, shape,
                       Store(m[c := ZeroNode()], s[Prefix(vpn, i - 1)], LevelIndex(vpn, i), MakePte(c.number)),
                       s[Prefix(vpn, i) := c], vpn, i - 1)
  {
    var n := s[Prefix(vpn, i - 1)];
    var s2 := s[Prefix(vpn, i) := c];
    assert |Prefix(vpn, i - 1)| != |Prefix(vpn, i)|;
    assert s2[Prefix(vpn, i - 1)] == n;
    assert s2[Prefix(vpn, i)] == c;
  }

  /** Any other node on the path keeps what the earlier steps did to it. */
  lemma LinkNodeOther(mem: Memory, shape: Shape, m: Memory, s: Shape, vpn: Word, i: nat, c: Frame, k: nat)
    requires 1 <= i <= 4 && k <= 4 && k != i && k != i - 1
    requires Prefix(vpn, i - 1) in s && s[Prefix(vpn, i - 1)] in m
    requires forall l | i <= l <= 4 :: Prefix(vpn, l) !in s
    requires Injective(s) && NodesIn(m, s)
    requires c !in m && c.number < PPN_LIMIT
    requires NodeUpdate(mem, shape, m, s, vpn, k)
    ensures NodeUpdate(mem, shape,
                       Store(m[c := ZeroNode()], s[Prefix(vpn, i - 1)], LevelIndex(vpn, i), MakePte(c.number)),
                       s[Prefix(vpn, i) := c], vpn, k)
  {
    if k < i - 1 && Prefix(vpn, k) in s {
      var s2 := s[Prefix(vpn, i) := c];
      assert |Prefix(vpn, k)| != |Prefix(vpn, i)| && |Prefix(vpn, k)| != |Prefix(vpn, i - 1)|;
      assert |Prefix(vpn, k + 1)| != |Prefix(vpn, i)|;
      assert s2[Prefix(vpn, k)] == s[Prefix(vpn, k)];
      assert !SameNode(s, Prefix(vpn, k), Prefix(vpn, i - 1));
    }
  }

  /** Linking a zeroed frame `c`, not in memory before, below the node at
      level `i - 1` of vpn's path, whose path slot was not yet written,
      is a step of an update of `vpn`. */
  lemma PathUpdateLink(mem: Memory, shape: Shape, m: Memory, s: Shape, vpn: Word, i: nat, c: Frame)
    requires PathUpdate(mem, shape, m, s, vpn)
    requires Injective(s) && NodesIn(m, s)
    requires 1 <= i <= 4 && Prefix(vpn, i - 1) in s
    requires m[s[Prefix(vpn, i - 1)]] == Before(mem, s[Prefix(vpn, i - 1)])
    requires forall k | i <= k <= 4 :: Prefix(vpn, k) !in s
    requires c !in m && c.number < PPN_LIMIT
    ensures PathUpdate(mem, shape,
                       Store(m[c := ZeroNode()], s[Prefix(vpn, i - 1)], LevelIndex(vpn, i), MakePte(c.number)),
                       s[Prefix(vpn, i) := c], vpn)
    ensures var m2 := Store(m[c := ZeroNode()], s[Prefix(vpn, i - 1)], LevelIndex(vpn, i), MakePte(c.number));
            c in m2 && m2[c] == Before(mem, c)
  {
    LinkPathFrames(s, vpn, i, c);
    LinkFramesGrow(mem, m, s, vpn, i, c);
    LinkShapeGrows(mem, shape, m, s, vpn, i, c);
    LinkOffPathKept(mem, m, s, vpn, i, c);
    LinkNodesUpdated(mem, shape, m, s, vpn, i, c,
                     Store(m[c := ZeroNode()], s[Prefix(vpn, i - 1)], LevelIndex(vpn, i), MakePte(c.number)),
                     s[Prefix(vpn, i) := c]);
  }

  lemma LinkFramesGrow(mem: Memory, m: Memory, s: Shape, vpn: Word, i: nat, c: Frame)
    requires FramesGrow(mem, m, s, vpn)
    requires 1 <= i <= 4 && Prefix(vpn, i - 1) in s && s[Prefix(vpn, i - 1)] in m && Prefix(vpn, i) !in s
    requires c !in m && c.number < PPN_LIMIT
    requires PathFrames(s[Prefix(vpn, i) := c], vpn) == PathFrames(s, vpn) + {c}
    ensures FramesGrow(mem, Store(m[c := ZeroNode()], s[Prefix(vpn, i - 1)], LevelIndex(vpn, i), MakePte(c.number)),
                       s[Prefix(vpn, i) := c], vpn)
  {
  }

  lemma LinkShapeGrows(mem: Memory, shape: Shape, m: Memory, s: Shape, vpn: Word, i: nat, c: Frame)
    requires ShapeGrows(mem, shape, s, vpn) && mem.Keys <= m.Keys
    requires 1 <= i <= 4 && Prefix(vpn, i) !in s && c !in m
    ensures ShapeGrows(mem, shape, s[Prefix(vpn, i) := c], vpn)
  {
    PrefixInPathTo(vpn, i);
  }

  lemma LinkOffPathKept(mem: Memory, m: Memory, s: Shape, vpn: Word, i: nat, c: Frame)
    requires OffPathKept(mem, m, s, vpn) && mem.Keys <= m.Keys
    requires 1 <= i <= 4 && Prefix(vpn, i - 1) in s && s[Prefix(vpn, i - 1)] in m && Prefix(vpn, i) !in s
    requires c !in m && c.number < PPN_LIMIT
    requires PathFrames(s[Prefix(vpn, i) := c], vpn) == PathFrames(s, vpn) + {c}
    ensures OffPathKept(mem, Store(m[c := ZeroNode()], s[Prefix(vpn, i - 1)], LevelIndex(vpn, i), MakePte(c.number)),
                        s[Prefix(vpn, i) := c], vpn)
  {
    PrefixFrameOnPath(s, vpn, i - 1);
  }

  lemma LinkNodesUpdated(mem: Memory, shape: Shape, m: Memory, s: Shape, vpn: Word, i: nat, c: Frame,
                         m2: Memory, s2: Shape)
    requires forall k | 0 <= k <= 4 :: NodeUpdate(mem, shape, m, s, vpn, k)
    requires ShapeGrows(mem, shape, s, vpn) && mem.Keys <= m.Keys
    requires Injective(s) && NodesIn(m, s)
    requires 1 <= i <= 4 && Prefix(vpn, i - 1) in s
    requires m[s[Prefix(vpn, i - 1)]] == Before(mem, s[Prefix(vpn, i - 1)])
    requires forall k | i <= k <= 4 :: Prefix(vpn, k) !in s
    requires c !in m && c.number < PPN_LIMIT
    requires m2 == Store(m[c := ZeroNode()], s[Prefix(vpn, i - 1)], LevelIndex(vpn, i), MakePte(c.number))
    requires s2 == s[Prefix(vpn, i) := c]
    ensures forall k | 0 <= k <= 4 :: NodeUpdate(mem, shape, m2, s2, vpn, k)
  {
    assert Prefix(vpn, i) !in shape;
    forall k | 0 <= k <= 4
      ensures NodeUpdate(mem, shape, m2, s2, vpn, k)
    {
      if k == i {
        LinkNodeNew(mem, shape, m, s, vpn, i, c);
      } else if k == i - 1 {
        LinkNodeParent(mem, shape, m, s, vpn, i, c);
      } else {
        LinkNodeOther(mem, shape, m, s, vpn, i, c, k);
      }
    }
  }

  // --------------------------------------------------- the leaf write

  /** Writing the path slot of the leaf node, not yet written, is a step of
      an update of `vpn`. */
  lemma PathUpdateLeaf(mem: Memory, shape: Shape, m: Memory, s: Shape, vpn: Word, w: Word)
    requires PathUpdate(mem, shape, m, s, vpn)
    requires Injective(s) && NodesIn(m, s)
    requires Prefix(vpn, 4) in s && m[s[Prefix(vpn, 4)]] == Before(mem, s[Prefix(vpn, 4)])
    ensures PathUpdate(mem, shape, Store(m, s[Prefix(vpn, 4)], LevelIndex(vpn, 5), w), s, vpn)
  {
    PrefixFrameOnPath(s, vpn, 4);
    LeafNodesUpdated(mem, shape, m, s, vpn, w);
  }

  lemma LeafNodesUpdated(mem: Memory, shape: Shape, m: Memory, s: Shape, vpn: Word, w: Word)
    requires forall k | 0 <= k <= 4 :: NodeUpdate(mem, shape, m, s, vpn, k)
    requires Injective(s) && NodesIn(m, s)
    requires Prefix(vpn, 4) in s && m[s[Prefix(vpn, 4)]] == Before(mem, s[Prefix(vpn, 4)])
    ensures forall k | 0 <= k <= 4 :: NodeUpdate(mem, shape, Store(m, s[Prefix(vpn, 4)], LevelIndex(vpn, 5), w), s, vpn, k)
  {
    forall k | 0 <= k <= 4
      ensures NodeUpdate(mem, shape, Store(m, s[Prefix(vpn, 4)], LevelIndex(vpn, 5), w), s, vpn, k)
    {
      if k < 4 {
        LeafNodeOther(mem, shape, m, s, vpn, w, k);
      }
    }
  }

  lemma LeafNodeOther(mem: Memory, shape: Shape, m: Memory, s: Shape, vpn: Word, w: Word, k: nat)
    requires k < 4 && NodeUpdate(mem, shape, m, s, vpn, k)
    requires Injective(s) && NodesIn(m, s) && Prefix(vpn, 4) in s
    ensures NodeUpdate(mem, shape, Store(m, s[Prefix(vpn, 4)], LevelIndex(vpn, 5), w), s, vpn, k)
  {
    if Prefix(vpn, k) in s {
      assert |Prefix(vpn, k)| != |Prefix(vpn, 4)|;
      assert !SameNode(s, Prefix(vpn, k), Prefix(vpn, 4));
    }
  }

  /** After the link at level `i` the new node is the only node at levels
      `i` and below, and it is still zero. */
  lemma UntouchedLink(mem: Memory, m: Memory, s: Shape, vpn: Word, i: nat, c: Frame)
    requires 1 <= i <= 4 && Prefix(vpn, i - 1) in s && s[Prefix(vpn, i - 1)] in m
    requires forall k | i <= k <= 4 :: Prefix(vpn, k) !in s
    requires c !in m && c !in mem && c.number < PPN_LIMIT
    ensures Untouched(mem, Store(m[c := ZeroNode()], s[Prefix(vpn, i - 1)], LevelIndex(vpn, i), MakePte(c.number)),
                      s[Prefix(vpn, i) := c], vpn, i)
  {
    var s2 := s[Prefix(vpn, i) := c];
    forall k | i <= k <= 4 && Prefix(vpn, k) in s2
      ensures k == i
    {
      if k != i {
        assert false;
      }
    }
  }
}
