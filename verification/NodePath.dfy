/** The arithmetic of a file's index tree: from a block to its path (get_node_path,
    fs/f2fs/node.c), from a node offset back to its first block
    (start_bidx_of_node, fs/f2fs/gc.c), and the numbering in between (fs/f2fs/node.h). */
module NodePath {
  import opened Division

  /** a0 is ADDRS_PER_INODE, a is ADDRS_PER_BLOCK, n is NIDS_PER_BLOCK, and dir1 is
      NODE_DIR1_BLOCK, which no inode address index reaches. */
  datatype Fan = Fan(a0: nat, a: nat, n: nat, dir1: nat) {
    predicate Valid() { 0 < a0 <= dir1 && 0 < a && 0 < n }

    function IndirectBlks(): nat { a * n }
    function DindirectBlks(): nat { a * n * n }

    /** How many blocks the tree can index. */
    function Capacity(): nat { a0 + 2 * a + 2 * IndirectBlks() + DindirectBlks() }

    /** One more than the largest node offset. */
    function MaxOfs(): nat { 6 + 2 * n + n * (n + 1) }
  }

  /** offset[..] and noffset[..]; the level is one less than their length. */
  datatype Path = Path(offset: seq<nat>, noffset: seq<nat>) {
    function Level(): int { |offset| - 1 }
    predicate Valid() { 0 < |offset| == |noffset| <= 4 }
    function Leaf(): nat requires Valid() { noffset[|noffset| - 1] }
    function Slot(): nat requires Valid() { offset[|offset| - 1] }
  }

  /** The leaf-th direct node after the inode, leaves numbered from 0. */
  function LeafPath(f: Fan, leaf: nat, slot: nat): (p: Path)
    requires f.Valid()
    ensures p.Valid() && p.Slot() == slot
  {
    var n := f.n;
    if leaf < 2 then Path([f.dir1 + leaf, slot], [0, 1 + leaf])
    else if leaf < 2 + n then
      Path([f.dir1 + 2, leaf - 2, slot], [0, 3, 4 + (leaf - 2)])
    else if leaf < 2 + 2 * n then
      Path([f.dir1 + 3, leaf - 2 - n, slot], [0, 4 + n, 5 + n + (leaf - 2 - n)])
    else
      var r := leaf - 2 - 2 * n;
      Path([f.dir1 + 4, r / n, r % n, slot],
           [0, 5 + 2 * n, 6 + 2 * n + (r / n) * (n + 1), 7 + 2 * n + (r / n) * (n + 1) + r % n])
  }

  /** The path of a block: the inode's own addresses first, then leaf after leaf. */
  function PathOf(f: Fan, block: nat): (p: Path)
    requires f.Valid()
    ensures p.Valid()
  {
    if block < f.a0 then Path([block], [0])
    else LeafPath(f, (block - f.a0) / f.a, (block - f.a0) % f.a)
  }

  /** get_node_path, which fills two arrays of four; it gives up (BUG) exactly on
      blocks the tree cannot index. */
  method GetNodePath(f: Fan, block: nat, offset: array<nat>, noffset: array<nat>) returns (level: int)
    requires f.Valid() && offset.Length == 4 && noffset.Length == 4 && offset != noffset
    modifies offset, noffset
    ensures level == -1 <==> block >= f.Capacity()
    ensures level >= 0 ==>
              && level == PathOf(f, block).Level()
              && offset[..level + 1] == PathOf(f, block).offset
              && noffset[..level + 1] == PathOf(f, block).noffset
  {
    var direct, dptrs, indirect, dindirect := f.a, f.n, f.IndirectBlks(), f.DindirectBlks();
    noffset[0] := 0;
    if block < f.a0 {
      offset[0] := block;
      return 0;
    }
    var b := block - f.a0;
    LeafSteps(f, b);
    if b < direct {
      offset[0] := f.dir1;
      noffset[1] := 1;
      offset[1] := b;
      return 1;
    }
    b := b - direct;
    if b < direct {
      offset[0] := f.dir1 + 1;
      noffset[1] := 2;
      offset[1] := b;
      return 1;
    }
    b := b - direct;
    if b < indirect {
      offset[0] := f.dir1 + 2;
      noffset[1] := 3;
      offset[1] := b / direct;
      noffset[2] := 4 + offset[1];
      offset[2] := b % direct;
      return 2;
    }
    b := b - indirect;
    if b < indirect {
      offset[0] := f.dir1 + 3;
      noffset[1] := 4 + dptrs;
      offset[1] := b / direct;
      noffset[2] := 5 + dptrs + offset[1];
      offset[2] := b % direct;
      return 2;
    }
    b := b - indirect;
    if b < dindirect {
      offset[0] := f.dir1 + 4;
      noffset[1] := 5 + dptrs * 2;
      offset[1] := b / indirect;
      noffset[2] := 6 + dptrs * 2 + offset[1] * (dptrs + 1);
      offset[2] := (b / direct) % dptrs;
      noffset[3] := 7 + dptrs * 2 + offset[1] * (dptrs + 1) + offset[2];
      offset[3] := b % direct;
      return 3;
    }
    level := -1;
  }

  /** (x - k a) / a and % a. */
  lemma DivLess(x: nat, a: nat, k: nat)
    requires 0 < a && k * a <= x
    ensures x / a >= k && (x - k * a) / a == x / a - k && (x - k * a) % a == x % a
  {
    var q, r := x / a, x % a;
    assert x == q * a + r;
    if q < k {
      TimesMono(q + 1, k, a);
    }
    assert x - k * a == (q - k) * a + r;
    DivUnique(x - k * a, a, q - k, r);
  }

  lemma DivBelow(x: nat, a: nat, k: nat)
    requires 0 < a
    ensures x < k * a <==> x / a < k
  {
    var q, r := x / a, x % a;
    assert x == q * a + r;
    if q < k {
      TimesMono(q + 1, k, a);
    } else {
      TimesMono(k, q, a);
    }
  }

  lemma DivTwice(x: nat, a: nat, n: nat)
    requires 0 < a && 0 < n && 0 < a * n
    ensures x / (a * n) == (x / a) / n
  {
    var q, r := x / a, x % a;
    var p, m := q / n, q % n;
    Divided(x, a);
    Divided(q, n);
    Nested(p, m, r, a, n);
    DivUnique(x, a * n, p, m * a + r);
  }

  lemma Nested(p: int, m: int, r: int, a: int, n: int)
    requires 0 <= m < n && 0 <= r < a
    ensures (p * n + m) * a + r == p * (a * n) + (m * a + r)
    ensures 0 <= m * a + r < a * n
  {
    assert (p * n) * a == p * (a * n);
    TimesMono(m + 1, n, a);
    TimesMono(0, m, a);
  }

  /** What each of get_node_path's subtractions leaves, in leaves. */
  lemma LeafSteps(f: Fan, b: nat)
    requires f.Valid()
    ensures var q, i, d := b / f.a, f.IndirectBlks(), f.DindirectBlks();
            && (b < f.a <==> q < 1) && (b < 2 * f.a <==> q < 2)
            && (b < 2 * f.a + i <==> q < 2 + f.n) && (b < 2 * f.a + 2 * i <==> q < 2 + 2 * f.n)
            && (b < 2 * f.a + 2 * i + d <==> q < 2 + 2 * f.n + f.n * f.n)
            && (b < f.a ==> b % f.a == b)
            && (f.a <= b < 2 * f.a ==> b % f.a == b - f.a)
    ensures var q, i := b / f.a, f.IndirectBlks();
            && (2 * f.a <= b ==> (b - 2 * f.a) / f.a == q - 2 && (b - 2 * f.a) % f.a == b % f.a)
            && (2 * f.a + i <= b ==> (b - 2 * f.a - i) / f.a == q - 2 - f.n && (b - 2 * f.a - i) % f.a == b % f.a)
            && (2 * f.a + 2 * i <= b ==>
                  && (b - 2 * f.a - 2 * i) / f.a == q - 2 - 2 * f.n && (b - 2 * f.a - 2 * i) % f.a == b % f.a
                  && 0 < i && (b - 2 * f.a - 2 * i) / i == (q - 2 - 2 * f.n) / f.n)
  {
    LeafBounds(f, b);
    LeafRests(f, b);
  }

  lemma LeafBounds(f: Fan, b: nat)
    requires f.Valid()
    ensures var q, i, d := b / f.a, f.IndirectBlks(), f.DindirectBlks();
            && (b < f.a <==> q < 1) && (b < 2 * f.a <==> q < 2)
            && (b < 2 * f.a + i <==> q < 2 + f.n) && (b < 2 * f.a + 2 * i <==> q < 2 + 2 * f.n)
            && (b < 2 * f.a + 2 * i + d <==> q < 2 + 2 * f.n + f.n * f.n)
            && (b < f.a ==> b % f.a == b)
            && (f.a <= b < 2 * f.a ==> b % f.a == b - f.a)
  {
    DivBelow(b, f.a, 1);
    DivBelow(b, f.a, 2);
    UpperBounds(f, b);
    if f.a <= b < 2 * f.a {
      DivUnique(b, f.a, 1, b - f.a);
    }
  }

  lemma UpperBounds(f: Fan, b: nat)
    requires f.Valid()
    ensures var q, i, d := b / f.a, f.IndirectBlks(), f.DindirectBlks();
            && (b < 2 * f.a + i <==> q < 2 + f.n) && (b < 2 * f.a + 2 * i <==> q < 2 + 2 * f.n)
            && (b < 2 * f.a + 2 * i + d <==> q < 2 + 2 * f.n + f.n * f.n)
  {
    Products(f.a, f.n);
    DivBelow(b, f.a, 2 + f.n);
    DivBelow(b, f.a, 2 + 2 * f.n);
    DivBelow(b, f.a, 2 + 2 * f.n + f.n * f.n);
  }

  lemma Products(a: nat, n: nat)
    ensures (2 + n) * a == 2 * a + a * n
    ensures (2 + 2 * n) * a == 2 * a + 2 * (a * n)
    ensures (2 + 2 * n + n * n) * a == 2 * a + 2 * (a * n) + a * n * n
  {
    assert (n * n) * a == a * n * n;
  }

  lemma LeafRests(f: Fan, b: nat)
    requires f.Valid()
    ensures var q, i := b / f.a, f.IndirectBlks();
            && (2 * f.a <= b ==> (b - 2 * f.a) / f.a == q - 2 && (b - 2 * f.a) % f.a == b % f.a)
            && (2 * f.a + i <= b ==> (b - 2 * f.a - i) / f.a == q - 2 - f.n && (b - 2 * f.a - i) % f.a == b % f.a)
            && (2 * f.a + 2 * i <= b ==>
                  && (b - 2 * f.a - 2 * i) / f.a == q - 2 - 2 * f.n && (b - 2 * f.a - 2 * i) % f.a == b % f.a
                  && 0 < i && (b - 2 * f.a - 2 * i) / i == (q - 2 - 2 * f.n) / f.n)
  {
    if 2 * f.a <= b {
      DivLess(b, f.a, 2);
    }
    if 2 * f.a + f.IndirectBlks() <= b {
      FirstIndirect(f, b);
    }
    if 2 * f.a + 2 * f.IndirectBlks() <= b {
      DoubleIndirect(f, b);
    }
  }

  lemma FirstIndirect(f: Fan, b: nat)
    requires f.Valid() && 2 * f.a + f.IndirectBlks() <= b
    ensures (b - 2 * f.a - f.IndirectBlks()) / f.a == b / f.a - 2 - f.n
    ensures (b - 2 * f.a - f.IndirectBlks()) % f.a == b % f.a
  {
    Products(f.a, f.n);
    DivLess(b, f.a, 2 + f.n);
  }

  lemma DoubleIndirect(f: Fan, b: nat)
    requires f.Valid() && 2 * f.a + 2 * f.IndirectBlks() <= b
    ensures var i, c := f.IndirectBlks(), b - 2 * f.a - 2 * f.IndirectBlks();
            && 0 < i && b / f.a >= 2 + 2 * f.n
            && c / f.a == b / f.a - 2 - 2 * f.n && c % f.a == b % f.a
            && c / i == (b / f.a - 2 - 2 * f.n) / f.n
  {
    PastIndirects(f, b);
    Product(f.a, f.n);
    DivTwice(b - 2 * f.a - 2 * f.IndirectBlks(), f.a, f.n);
  }

  lemma PastIndirects(f: Fan, b: nat)
    requires f.Valid() && 2 * f.a + 2 * f.IndirectBlks() <= b
    ensures var c := b - 2 * f.a - 2 * f.IndirectBlks();
            b / f.a >= 2 + 2 * f.n && c / f.a == b / f.a - 2 - 2 * f.n && c % f.a == b % f.a
  {
    Products(f.a, f.n);
    DivLess(b, f.a, 2 + 2 * f.n);
  }

  lemma Product(a: nat, n: nat)
    requires 0 < a && 0 < n
    ensures 0 < a * n
  {
  }

  // ----- from node offsets back to blocks -----

  /** IS_DNODE, xattr blocks aside. */
  predicate IsDnode(f: Fan, ofs: nat) {
    && ofs != 3 && ofs != 4 + f.n && ofs != 5 + 2 * f.n
    && (ofs >= 6 + 2 * f.n ==> (ofs - (6 + 2 * f.n)) % (f.n + 1) != 0)
  }

  /** start_bidx_of_node, asked of direct nodes only. */
  function StartBidx(f: Fan, ofs: nat): int
    requires f.Valid() && IsDnode(f, ofs)
  {
    var indirect := 2 * f.n + 4;
    if ofs == 0 then 0
    else
      var bidx := if ofs <= 2 then ofs - 1
                  else if ofs <= indirect then ofs - 2 - (ofs - 4) / (f.n + 1)
                  else ofs - 5 - (ofs - indirect - 3) / (f.n + 1);
      bidx * f.a + f.a0
  }

  function Leaves(f: Fan): nat { 2 + 2 * f.n + f.n * f.n }

  /** The node offset of the leaf-th direct node. */
  function LeafOfs(f: Fan, leaf: nat): nat
    requires f.Valid()
  {
    LeafPath(f, leaf, 0).Leaf()
  }

  /** The rows of the double indirect node: x rows of n + 1 offsets and then 1 + y. */
  lemma RowOf(n: nat, x: nat, y: nat)
    requires y < n
    ensures var r := x * (n + 1) + 1 + y;
            r % (n + 1) == 1 + y && r / (n + 1) == x && (r - 1) / (n + 1) == x
  {
    DivUnique(x * (n + 1) + 1 + y, n + 1, x, 1 + y);
    DivUnique(x * (n + 1) + y, n + 1, x, y);
  }

  lemma RowStart(n: nat, x: nat)
    ensures (x * (n + 1)) % (n + 1) == 0 && (x * (n + 1)) / (n + 1) == x
  {
    DivUnique(x * (n + 1), n + 1, x, 0);
  }

  /** The number of a leaf takes start_bidx_of_node back to that leaf's first block. */
  lemma BidxOfLeaf(f: Fan, leaf: nat)
    requires f.Valid() && leaf < Leaves(f)
    ensures var ofs := LeafOfs(f, leaf);
            0 < ofs && IsDnode(f, ofs) && StartBidx(f, ofs) == leaf * f.a + f.a0
  {
    var n, ofs := f.n, LeafOfs(f, leaf);
    if 2 <= leaf < 2 + n {
      DivUnique(ofs - 4, n + 1, 0, ofs - 4);
    } else if 2 + n <= leaf < 2 + 2 * n {
      DivUnique(ofs - 4, n + 1, 1, ofs - 5 - n);
    } else if leaf >= 2 + 2 * n {
      DeepLeaf(f, leaf);
    }
  }

  lemma DeepLeaf(f: Fan, leaf: nat)
    requires f.Valid() && 2 + 2 * f.n <= leaf < Leaves(f)
    ensures var ofs := LeafOfs(f, leaf);
            0 < ofs && IsDnode(f, ofs) && StartBidx(f, ofs) == leaf * f.a + f.a0
  {
    var n, r := f.n, leaf - 2 - 2 * f.n;
    var x, y := r / n, r % n;
    Divided(r, n);
    RowOf(n, x, y);
    assert LeafOfs(f, leaf) == 7 + 2 * n + x * (n + 1) + y;
    assert x * (n + 1) == x * n + x;
  }

  lemma LeafInTree(f: Fan, block: nat)
    requires f.Valid() && f.a0 <= block < f.Capacity()
    ensures (block - f.a0) / f.a < Leaves(f)
  {
    Products(f.a, f.n);
    DivBelow(block - f.a0, f.a, Leaves(f));
  }

  /** start_bidx_of_node undoes get_node_path. */
  lemma PathRoundTrip(f: Fan, block: nat)
    requires f.Valid() && block < f.Capacity()
    ensures var p := PathOf(f, block);
            IsDnode(f, p.Leaf()) && StartBidx(f, p.Leaf()) + p.Slot() == block
  {
    if block >= f.a0 {
      var b := block - f.a0;
      LeafInTree(f, block);
      BidxOfLeaf(f, b / f.a);
      SameLeaf(f, b / f.a, b % f.a);
      Divided(b, f.a);
    }
  }

  lemma SameLeaf(f: Fan, leaf: nat, slot: nat)
    requires f.Valid()
    ensures LeafPath(f, leaf, slot).Leaf() == LeafOfs(f, leaf)
  {
  }

  /** Which leaf a direct node's offset numbers. */
  function LeafAt(f: Fan, ofs: nat): nat
    requires f.Valid() && IsDnode(f, ofs) && 0 < ofs < f.MaxOfs()
  {
    var n := f.n;
    if ofs <= 2 then ofs - 1
    else if ofs < 4 + n then ofs - 2
    else if ofs < 5 + 2 * n then ofs - 3
    else
      var r := ofs - 6 - 2 * n;
      RowLeaf(f, r);
      2 + 2 * n + (r / (n + 1)) * n + (r % (n + 1) - 1)
  }

  lemma RowLeaf(f: Fan, r: int)
    requires f.Valid() && 0 <= r < f.n * (f.n + 1) && r % (f.n + 1) != 0
    ensures var n, x, y := f.n, r / (f.n + 1), r % (f.n + 1) - 1;
            && 0 <= x < n && 0 <= y < n
            && 0 <= x * n + y < n * n && (x * n + y) / n == x && (x * n + y) % n == y
  {
    var n, x, y := f.n, r / (f.n + 1), r % (f.n + 1) - 1;
    DivBelow(r, n + 1, n);
    TimesMono(x + 1, n, n);
    TimesMono(0, x, n);
    assert (x + 1) * n == x * n + n;
    DivUnique(x * n + y, n, x, y);
  }

  lemma LeafAtOfs(f: Fan, ofs: nat)
    requires f.Valid() && IsDnode(f, ofs) && 0 < ofs < f.MaxOfs()
    ensures LeafAt(f, ofs) < Leaves(f) && LeafOfs(f, LeafAt(f, ofs)) == ofs
  {
    var n := f.n;
    if ofs >= 5 + 2 * n {
      var r := ofs - 6 - 2 * n;
      RowLeaf(f, r);
      assert r == (r / (n + 1)) * (n + 1) + r % (n + 1);
    }
  }

  lemma SlotOf(f: Fan, leaf: nat, slot: nat)
    requires f.Valid() && leaf < Leaves(f) && slot < f.a
    ensures var block := f.a0 + leaf * f.a + slot;
            block < f.Capacity() && PathOf(f, block) == LeafPath(f, leaf, slot)
  {
    var b := leaf * f.a + slot;
    assert 0 <= leaf * f.a;
    DivUnique(b, f.a, leaf, slot);
    LeafBounds(f, b);
  }

  /** The slot-th block of the direct node ofs, counting from start_bidx_of_node, has
      its path end in that slot of that node. */
  ghost predicate SlotPath(f: Fan, ofs: nat, slot: nat)
    requires f.Valid() && IsDnode(f, ofs)
  {
    var block := StartBidx(f, ofs) + slot;
    0 <= block < f.Capacity() && PathOf(f, block).Leaf() == ofs && PathOf(f, block).Slot() == slot
  }

  lemma EverySlot(f: Fan, ofs: nat, slot: nat)
    requires f.Valid() && ofs < f.MaxOfs() && IsDnode(f, ofs)
    requires slot < if ofs == 0 then f.a0 else f.a
    ensures SlotPath(f, ofs, slot)
  {
    if ofs > 0 {
      LeafAtOfs(f, ofs);
      BidxOfLeaf(f, LeafAt(f, ofs));
      SlotOf(f, LeafAt(f, ofs), slot);
    } else {
      assert f.a0 <= f.Capacity();
    }
  }

  /** IS_DNODE holds of exactly the offsets at which some block's path ends, and
      then every slot of that node is the end of the path of the block that
      start_bidx_of_node gives it. */
  lemma DnodeIffLeaf(f: Fan, ofs: nat)
    requires f.Valid() && ofs < f.MaxOfs()
    ensures IsDnode(f, ofs) <==> exists block: nat :: block < f.Capacity() && PathOf(f, block).Leaf() == ofs
    ensures IsDnode(f, ofs) ==> forall slot: nat {:trigger SlotPath(f, ofs, slot)} ::
                                  slot < (if ofs == 0 then f.a0 else f.a) ==> SlotPath(f, ofs, slot)
  {
    if IsDnode(f, ofs) {
      forall slot: nat {:trigger SlotPath(f, ofs, slot)} | slot < (if ofs == 0 then f.a0 else f.a)
        ensures SlotPath(f, ofs, slot)
      {
        EverySlot(f, ofs, slot);
      }
      EverySlot(f, ofs, 0);
      var block := StartBidx(f, ofs) + 0;
      assert 0 <= block < f.Capacity() && PathOf(f, block).Leaf() == ofs;
    }
    if block: nat :| block < f.Capacity() && PathOf(f, block).Leaf() == ofs {
      PathRoundTrip(f, block);
    }
  }

  // ----- the numbering of all nodes -----

  /** The way from the inode to the node with a given offset. */
  function Route(f: Fan, ofs: nat): seq<nat> {
    var n := f.n;
    if ofs == 0 then []
    else if ofs <= 3 then [f.dir1 + ofs - 1]
    else if ofs < 4 + n then [f.dir1 + 2, ofs - 4]
    else if ofs == 4 + n then [f.dir1 + 3]
    else if ofs < 5 + 2 * n then [f.dir1 + 3, ofs - 5 - n]
    else if ofs == 5 + 2 * n then [f.dir1 + 4]
    else
      var r := ofs - 6 - 2 * n;
      if r % (n + 1) == 0 then [f.dir1 + 4, r / (n + 1)]
      else [f.dir1 + 4, r / (n + 1), r % (n + 1) - 1]
  }

  lemma RouteOfLeafPath(f: Fan, leaf: nat, slot: nat, i: nat)
    requires f.Valid() && leaf < Leaves(f) && i < |LeafPath(f, leaf, slot).offset|
    ensures var p := LeafPath(f, leaf, slot); Route(f, p.noffset[i]) == p.offset[..i]
  {
    var n := f.n;
    if leaf >= 2 + 2 * n {
      var r := leaf - 2 - 2 * n;
      DeepRoutes(f, r / n, r % n);
      assert i == 3 ==> LeafPath(f, leaf, slot).offset[..i] == [f.dir1 + 4, r / n, r % n];
    }
  }

  lemma DeepRoutes(f: Fan, x: nat, y: nat)
    requires y < f.n
    ensures 0 <= x * (f.n + 1)
    ensures Route(f, 6 + 2 * f.n + x * (f.n + 1)) == [f.dir1 + 4, x]
    ensures Route(f, 7 + 2 * f.n + x * (f.n + 1) + y) == [f.dir1 + 4, x, y]
  {
    RowOf(f.n, x, y);
    RowStart(f.n, x);
  }

  /** A node's offset names the way to it: paths that pass through the same offset
      pass through the same node, and paths through different nodes never share one. */
  lemma NodesNumberedApart(f: Fan, b1: nat, i1: nat, b2: nat, i2: nat)
    requires f.Valid() && b1 < f.Capacity() && b2 < f.Capacity()
    requires i1 < |PathOf(f, b1).offset| && i2 < |PathOf(f, b2).offset|
    ensures var p1, p2 := PathOf(f, b1), PathOf(f, b2);
            p1.noffset[i1] == p2.noffset[i2] <==> p1.offset[..i1] == p2.offset[..i2]
  {
    RouteOfPath(f, b1, i1);
    RouteOfPath(f, b2, i2);
    if PathOf(f, b1).offset[..i1] == PathOf(f, b2).offset[..i2] {
      RouteInjective(f, PathOf(f, b1).noffset[i1], PathOf(f, b2).noffset[i2]);
    }
  }

  lemma RouteOfPath(f: Fan, block: nat, i: nat)
    requires f.Valid() && block < f.Capacity() && i < |PathOf(f, block).offset|
    ensures var p := PathOf(f, block); Route(f, p.noffset[i]) == p.offset[..i] && p.noffset[i] < f.MaxOfs()
  {
    if block >= f.a0 {
      var b := block - f.a0;
      LeafInTree(f, block);
      RouteOfLeafPath(f, b / f.a, b % f.a, i);
      OffsetsBelowMax(f, b / f.a, b % f.a, i);
    }
  }

  lemma OffsetsBelowMax(f: Fan, leaf: nat, slot: nat, i: nat)
    requires f.Valid() && leaf < Leaves(f) && i < |LeafPath(f, leaf, slot).offset|
    ensures LeafPath(f, leaf, slot).noffset[i] < f.MaxOfs()
  {
    var n := f.n;
    if leaf >= 2 + 2 * n {
      var r := leaf - 2 - 2 * n;
      DivBelow(r, n, n);
      TimesMono(r / n + 1, n, n + 1);
      assert (r / n + 1) * (n + 1) == (r / n) * (n + 1) + n + 1;
    } else {
      TimesMono(1, n, n + 1);
    }
  }

  lemma RouteInjective(f: Fan, o1: nat, o2: nat)
    requires f.Valid() && Route(f, o1) == Route(f, o2)
    ensures o1 == o2
  {
    var n := f.n;
    if o1 > 5 + 2 * n && o2 > 5 + 2 * n {
      var r1, r2 := o1 - 6 - 2 * n, o2 - 6 - 2 * n;
      assert r1 == (r1 / (n + 1)) * (n + 1) + r1 % (n + 1);
      assert r2 == (r2 / (n + 1)) * (n + 1) + r2 % (n + 1);
    }
  }

  // ----- the next leaf -----

  /** PGOFS_OF_NEXT_DNODE. */
  function NextDnode(f: Fan, b: nat): int
    requires f.Valid()
  {
    if b < f.a0 then f.a0 else (b - f.a0 + f.a) / f.a * f.a + f.a0
  }

  /** PGOFS_OF_NEXT_DNODE is where the next leaf starts: up to it every block ends
      in b's leaf, and at it, if the tree goes on, a new leaf begins. */
  lemma NextDnodeStartsLeaf(f: Fan, b: nat)
    requires f.Valid() && b < f.Capacity()
    ensures b < NextDnode(f, b) <= f.Capacity()
    ensures forall c :: b <= c < NextDnode(f, b) ==> PathOf(f, c).Leaf() == PathOf(f, b).Leaf()
    ensures NextDnode(f, b) < f.Capacity() ==>
              PathOf(f, NextDnode(f, b)).Slot() == 0 && PathOf(f, NextDnode(f, b)).Leaf() != PathOf(f, b).Leaf()
  {
    if b < f.a0 {
      SlotOf(f, 0, 0);
    } else {
      var q := (b - f.a0) / f.a;
      LeafInTree(f, b);
      NextDnodeAt(f, b);
      forall c | b <= c < NextDnode(f, b) ensures PathOf(f, c).Leaf() == PathOf(f, b).Leaf() {
        DivUnique(c - f.a0, f.a, q, c - f.a0 - q * f.a);
      }
      NextLeaf(f, q);
    }
  }

  lemma NextDnodeAt(f: Fan, b: nat)
    requires f.Valid() && f.a0 <= b
    ensures var q := (b - f.a0) / f.a;
            NextDnode(f, b) == f.a0 + (q + 1) * f.a && f.a0 + q * f.a <= b < f.a0 + q * f.a + f.a
            && (q + 1) * f.a == q * f.a + f.a
  {
    var d := b - f.a0;
    var q := d / f.a;
    assert d == q * f.a + d % f.a;
    assert (q + 1) * f.a == q * f.a + f.a;
    DivUnique(d + f.a, f.a, q + 1, d % f.a);
  }

  lemma NextLeaf(f: Fan, q: nat)
    requires f.Valid() && q < Leaves(f)
    ensures f.a0 + (q + 1) * f.a <= f.Capacity()
    ensures f.a0 + (q + 1) * f.a < f.Capacity() ==>
              var p := PathOf(f, f.a0 + (q + 1) * f.a); p.Slot() == 0 && p.Leaf() != LeafOfs(f, q)
  {
    SlotOf(f, q, f.a - 1);
    assert (q + 1) * f.a == q * f.a + f.a;
    if q + 1 < Leaves(f) {
      SlotOf(f, q + 1, 0);
      BidxOfLeaf(f, q);
      BidxOfLeaf(f, q + 1);
    } else {
      DivUnique((q + 1) * f.a, f.a, q + 1, 0);
      LeafBounds(f, (q + 1) * f.a);
    }
  }

  // ----- the largest file -----

  /** max_file_size in blocks: the smaller of the two kinds of inode decides. */
  function MaxFileBlocks(defAddrs: nat, inlineXattrAddrs: nat, a: nat, n: nat): int {
    (defAddrs - inlineXattrAddrs) + a * 2 + a * n * 2 + a * n * n
  }

  /** Below the maximum file size the BUG is never reached, with inline xattrs or without. */
  lemma MaxFileHasPaths(f: Fan, defAddrs: nat, inlineXattrAddrs: nat, block: nat)
    requires f.Valid() && inlineXattrAddrs <= defAddrs && f.a0 in {defAddrs, defAddrs - inlineXattrAddrs}
    ensures block < MaxFileBlocks(defAddrs, inlineXattrAddrs, f.a, f.n) ==> block < f.Capacity()
    ensures f.a0 == defAddrs - inlineXattrAddrs ==> MaxFileBlocks(defAddrs, inlineXattrAddrs, f.a, f.n) == f.Capacity()
  {
  }
}
