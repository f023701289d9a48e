/** Truncation in place (truncate_blocks, fs/f2fs/file.c; truncate_inode_blocks,
    fs/f2fs/node.c): the pointer tree is cut and the two counters follow. */
module Truncate {
  import opened Division
  import opened Options
  import opened NodePath
  import opened FileTree

  class Inode {
    const f: Fan
    var addrs: seq<Addr>
    var direct: seq<Leaf>
    var ind: seq<Ind>
    var dind: Dind
    /** What this inode contributes to the valid block and valid node counts. */
    var validBlocks: int
    var validNodes: int

    ghost function Tree(): File
      reads this
    {
      File(addrs, direct, ind, dind)
    }

    /** The counts are those of the tree. */
    ghost predicate Valid()
      reads this
    {
      f.Valid() && FileOk(f, Tree()) && validBlocks == FileSize(Tree(), true) && validNodes == FileSize(Tree(), false)
    }

    /** The two counters, which every node and data block freed lowers. */
    ghost function Count(data: bool): int
      reads this
    {
      if data then validBlocks else validNodes
    }

    constructor (f: Fan, t: File)
      requires f.Valid() && FileOk(f, t)
      ensures Valid() && this.f == f && Tree() == t
    {
      this.f := f;
      addrs, direct, ind, dind := t.addrs, t.direct, t.ind, t.dind;
      validBlocks, validNodes := FileSize(t, true), FileSize(t, false);
      new;
      assert Tree() == t;
    }

    /** truncate_data_blocks_range from ofs to the end: every address cleared is counted off once. */
    method TruncateDataBlocksRange(s: seq<Addr>, ofs: nat) returns (r: seq<Addr>)
      requires ofs <= |s|
      modifies this`validBlocks
      ensures r == CutAddrs(s, ofs)
      ensures validBlocks == old(validBlocks) - (DataIn(s) - DataIn(r))
    {
      r := s;
      var nrFree := 0;
      var i := ofs;
      while i < |s|
        invariant ofs <= i <= |s| && |r| == |s|
        invariant forall k :: 0 <= k < |s| ==> r[k] == if ofs <= k < i then Null else s[k]
        invariant DataIn(r) == DataIn(s) - nrFree && validBlocks == old(validBlocks)
      {
        if !r[i].Null? {
          DataUpdate(r, i);
          r := r[i := Null];
          nrFree := nrFree + 1;
        }
        i := i + 1;
      }
      if nrFree != 0 {
        validBlocks := validBlocks - nrFree;
      }
      assert r == CutAddrs(s, ofs);
    }

    /** truncate_node: a node block is a block and a node. */
    method TruncateNode()
      modifies this`validBlocks, this`validNodes
      ensures validBlocks == old(validBlocks) - 1 && validNodes == old(validNodes) - 1
    {
      validBlocks := validBlocks - 1;
      validNodes := validNodes - 1;
    }

    /** truncate_dnode: the data of a direct node and then the node; nothing if there is none. */
    method TruncateDnode(l: Leaf)
      modifies this`validBlocks, this`validNodes
      ensures forall data :: Count(data) == old(Count(data)) - LeafSize(l, data)
    {
      if l.None? {
        return;
      }
      var s := TruncateDataBlocksRange(l.value, 0);
      NoData(s);
      TruncateNode();
    }

    /** The loop that frees the direct nodes under an indirect one from ofs on. */
    method TruncateLeaves(s: seq<Leaf>, ofs: nat) returns (r: seq<Leaf>)
      requires ofs <= |s|
      modifies this`validBlocks, this`validNodes
      ensures r == CutLeaves(s, ofs)
      ensures forall data :: Count(data) == old(Count(data)) - (LeavesSize(s, data) - LeavesSize(r, data))
    {
      r := s;
      var i := ofs;
      while i < |s|
        invariant ofs <= i <= |s| && |r| == |s|
        invariant forall k :: 0 <= k < |s| ==> r[k] == if ofs <= k < i then None else s[k]
        invariant forall data :: Count(data) == old(Count(data)) - (LeavesSize(s, data) - LeavesSize(r, data))
      {
        if r[i].Some? {
          TruncateDnode(r[i]);
          LeavesUpdate(r, i, None, true);
          LeavesUpdate(r, i, None, false);
          r := r[i := None];
        }
        i := i + 1;
      }
      assert r == CutLeaves(s, ofs);
    }

    /** truncate_nodes at depth 2. */
    method TruncateIndirect(i: Ind, ofs: nat) returns (r: Ind)
      requires i.Some? ==> ofs <= |i.value|
      modifies this`validBlocks, this`validNodes
      ensures r == CutInd(i, ofs)
      ensures forall data :: Count(data) == old(Count(data)) - (IndSize(i, data) - IndSize(r, data))
    {
      if i.None? {
        return None;
      }
      var s := TruncateLeaves(i.value, ofs);
      if ofs == 0 {
        EmptyLeaves(s, true);
        EmptyLeaves(s, false);
        TruncateNode();
        r := None;
      } else {
        r := Some(s);
      }
    }

    /** The loop that frees whole indirect nodes from ofs on. */
    method TruncateInds(s: seq<Ind>, ofs: nat) returns (r: seq<Ind>)
      requires ofs <= |s|
      modifies this`validBlocks, this`validNodes
      ensures r == CutInds(s, ofs)
      ensures forall data :: Count(data) == old(Count(data)) - (IndsSize(s, data) - IndsSize(r, data))
    {
      r := s;
      var i := ofs;
      while i < |s|
        invariant ofs <= i <= |s| && |r| == |s|
        invariant forall k :: 0 <= k < |s| ==> r[k] == if ofs <= k < i then None else s[k]
        invariant forall data :: Count(data) == old(Count(data)) - (IndsSize(s, data) - IndsSize(r, data))
      {
        if r[i].Some? {
          var gone := TruncateIndirect(r[i], 0);
          IndsUpdate(r, i, gone, true);
          IndsUpdate(r, i, gone, false);
          r := r[i := gone];
        }
        i := i + 1;
      }
      assert r == CutInds(s, ofs);
    }

    /** truncate_nodes at depth 3. */
    method TruncateDoubleIndirect(d: Dind, ofs: nat) returns (r: Dind)
      requires d.Some? ==> ofs <= |d.value|
      modifies this`validBlocks, this`validNodes
      ensures r == CutDind(d, ofs)
      ensures forall data :: Count(data) == old(Count(data)) - (DindSize(d, data) - DindSize(r, data))
    {
      if d.None? {
        return None;
      }
      var s := TruncateInds(d.value, ofs);
      if ofs == 0 {
        EmptyInds(s, true);
        EmptyInds(s, false);
        TruncateNode();
        r := None;
      } else {
        r := Some(s);
      }
    }

    /** truncate_partial_nodes at level 3, and what is then left for the main loop: from
        which child on to cut. A missing node on the way leaves it where it was. */
    method TruncatePartialDouble(d: Dind, x: nat, y: nat) returns (r: Dind, next: nat)
      requires f.Valid() && DindOk(f, d) && x < f.n && 0 < y < f.n
      modifies this`validBlocks, this`validNodes
      ensures if d.Some? && d.value[x].Some? then r == Some(d.value[x := CutInd(d.value[x], y)]) && next == x + 1 else r == d && next == x
      ensures forall data :: Count(data) == old(Count(data)) - (DindSize(d, data) - DindSize(r, data))
    {
      r, next := d, x;
      if d.None? || d.value[x].None? {
        return;
      }
      var s := TruncateLeaves(d.value[x].value, y);
      IndsUpdate(d.value, x, Some(s), true);
      IndsUpdate(d.value, x, Some(s), false);
      r, next := Some(d.value[x := Some(s)]), x + 1;
    }

    /** Cutting the double indirect node, partially first when the cut is inside one of its children. */
    method TruncateDindAt(d: Dind, x: nat, y: nat) returns (r: Dind)
      requires f.Valid() && DindOk(f, d) && x < f.n && y < f.n
      modifies this`validBlocks, this`validNodes
      ensures r == CutDindAt(f, d, x, y)
      ensures forall data :: Count(data) == old(Count(data)) - (DindSize(d, data) - DindSize(r, data))
    {
      var rest, next := d, x;
      if y != 0 {
        rest, next := TruncatePartialDouble(d, x, y);
      }
      r := TruncateDoubleIndirect(rest, next);
    }

    /** One of the two indirect nodes, whose leaves are start.., against a cut at leaf. */
    method TruncateSub(i: Ind, start: nat, leaf: nat) returns (r: Ind)
      requires f.Valid() && IndOk(f, i)
      modifies this`validBlocks, this`validNodes
      ensures r == CutSub(f, i, start, leaf)
      ensures forall data :: Count(data) == old(Count(data)) - (IndSize(i, data) - IndSize(r, data))
    {
      r := i;
      if leaf < start + f.n {
        r := TruncateIndirect(i, if leaf <= start then 0 else leaf - start);
      }
    }

    /** The two direct nodes of the inode against a cut at leaf. */
    method TruncateDirect(leaf: nat)
      requires |direct| == 2
      modifies this`direct, this`validBlocks, this`validNodes
      ensures direct == [if 0 < leaf then old(direct[0]) else None, if 1 < leaf then old(direct[1]) else None]
      ensures forall data :: Count(data) == old(Count(data))
                                            - (LeafSize(old(direct[0]), data) - LeafSize(direct[0], data))
                                            - (LeafSize(old(direct[1]), data) - LeafSize(direct[1], data))
    {
      if leaf < 1 {
        TruncateDnode(direct[0]);
        direct := direct[0 := None];
      }
      if leaf < 2 {
        TruncateDnode(direct[1]);
        direct := direct[1 := None];
      }
    }

    /** truncate_inode_blocks from the first slot, or a slot of a missing leaf, of the
        leaf given: the tree is cut there, and the counters are again the tree's. */
    method TruncateInodeBlocks(leaf: nat)
      requires Valid() && leaf < Leaves(f)
      modifies this`direct, this`ind, this`dind, this`validBlocks, this`validNodes
      ensures Valid() && Tree() == CutFile(f, old(Tree()), leaf)
    {
      CutFileLeaves(f, Tree(), leaf, 0);
      TruncateDirect(leaf);
      var i0 := TruncateSub(ind[0], 2, leaf);
      var i1 := TruncateSub(ind[1], 2 + f.n, leaf);
      ind := [i0, i1];
      BelowDouble(f, leaf);
      dind := TruncateDeep(dind, leaf);
    }

    /** The double indirect node against a cut at leaf. */
    method TruncateDeep(d: Dind, leaf: nat) returns (r: Dind)
      requires f.Valid() && DindOk(f, d) && (leaf >= 2 + 2 * f.n ==> (leaf - 2 - 2 * f.n) / f.n < f.n)
      modifies this`validBlocks, this`validNodes
      ensures r == if leaf <= 2 + 2 * f.n then None else CutDeep(f, d, leaf - 2 - 2 * f.n)
      ensures forall data :: Count(data) == old(Count(data)) - (DindSize(d, data) - DindSize(r, data))
    {
      if leaf <= 2 + 2 * f.n {
        r := TruncateDoubleIndirect(d, 0);
      } else {
        var p := leaf - 2 - 2 * f.n;
        r := TruncateDindAt(d, p / f.n, p % f.n);
      }
    }

    /** The rest of the leaf that slot lies in, as truncate_blocks clears it first. */
    method TruncateRestOfLeaf(q: nat, slot: nat)
      requires Valid() && q < Leaves(f) && slot < f.a && LeafOf(f, Tree(), q).Some?
      modifies this`direct, this`ind, this`dind, this`validBlocks
      ensures Valid() && Tree() == ClearRest(f, old(Tree()), q, slot)
    {
      ghost var t := Tree();
      ClearRestOk(f, t, q, slot);
      var l := LeafOf(f, File(addrs, direct, ind, dind), q);
      var s := TruncateDataBlocksRange(l.value, slot);
      var r := ClearRest(f, File(addrs, direct, ind, dind), q, slot);
      direct, ind, dind := r.direct, r.ind, r.dind;
    }

    /** truncate_blocks: below freeFrom nothing changes, from it on nothing is mapped, and
        the node blocks that go are those NodesFrom says; it gives up (BUG) exactly when
        there is no leaf after the cut to go on with. */
    method TruncateBlocks(freeFrom: nat) returns (ok: bool)
      requires Valid() && freeFrom <= f.Capacity()
      modifies this`addrs, this`direct, this`ind, this`dind, this`validBlocks, this`validNodes
      ensures ok <==> !OffTheEnd(f, old(Tree()), freeFrom)
      ensures ok ==> Valid() && forall b: nat {:trigger Lookup(f, Tree(), b)} :: b < f.Capacity() ==>
                       Lookup(f, Tree(), b) == if b < freeFrom then Lookup(f, old(Tree()), b) else Null
      ensures ok ==> NodesFrom(f, old(Tree()), Tree(), freeFrom)
    {
      ghost var t := Tree();
      if freeFrom == f.Capacity() {
        return false;
      }
      var leaf := ClearAtCut(freeFrom);
      if leaf == Leaves(f) {
        return false;
      }
      ghost var cleared := Tree();
      TruncateInodeBlocks(leaf);
      CutMeans(f, t, cleared, freeFrom, leaf);
      CutNodes(f, t, cleared, freeFrom, leaf);
      ok := true;
    }

    /** The part of truncate_blocks before truncate_inode_blocks: what shares a node with
        blocks to be kept is cleared; leaf is where the rest starts. */
    method ClearAtCut(freeFrom: nat) returns (leaf: nat)
      requires Valid() && freeFrom < f.Capacity()
      modifies this`addrs, this`direct, this`ind, this`dind, this`validBlocks
      ensures Valid() && leaf <= Leaves(f) && ClearedFrom(f, old(Tree()), Tree(), freeFrom, leaf)
      ensures leaf == Leaves(f) <==> OffTheEnd(f, old(Tree()), freeFrom)
    {
      leaf := 0;
      if freeFrom < f.a0 {
        addrs := TruncateDataBlocksRange(addrs, freeFrom);
      } else {
        var q, slot := (freeFrom - f.a0) / f.a, (freeFrom - f.a0) % f.a;
        LeafInTree(f, freeFrom);
        leaf := q;
        if LeafOf(f, File(addrs, direct, ind, dind), q).Some? && slot != 0 {
          TruncateRestOfLeaf(q, slot);
          leaf := q + 1;
        }
      }
    }
  }

  /** The tree after the inode's own addresses, or the leaf freeFrom lies in, have
      been cleared from there on. */
  ghost predicate ClearedFrom(f: Fan, t: File, r: File, freeFrom: nat, leaf: nat)
    requires f.Valid() && FileOk(f, t) && FileOk(f, r)
  {
    if freeFrom < f.a0 then r == t.(addrs := CutAddrs(t.addrs, freeFrom)) && leaf == 0
    else
      var q, slot := (freeFrom - f.a0) / f.a, (freeFrom - f.a0) % f.a;
      if LeafOf(f, t, q).Some? && slot != 0 then q < Leaves(f) && r == ClearRest(f, t, q, slot) && leaf == q + 1
      else r == t && leaf == q
  }

  /** The cut would have to go on beyond the last leaf. */
  ghost predicate OffTheEnd(f: Fan, t: File, freeFrom: nat)
    requires f.Valid() && FileOk(f, t) && freeFrom <= f.Capacity()
  {
    || freeFrom == f.Capacity()
    || (freeFrom >= f.a0 && (freeFrom - f.a0) / f.a == Leaves(f) - 1 && (freeFrom - f.a0) % f.a != 0
        && LeafOf(f, t, Leaves(f) - 1).Some?)
  }

  /** The failing inputs. The largest file of an inode with inline xattrs fills the tree,
      and truncating it at its own size runs off it, whatever is mapped; without inline
      xattrs so does truncating it inside its last leaf, if that is there. */
  lemma MaximumSizeOffTheEnd(f: Fan, t: File, defAddrs: nat, inlineXattrAddrs: nat)
    requires f.Valid() && FileOk(f, t) && 0 < inlineXattrAddrs <= defAddrs
    ensures f.a0 == defAddrs - inlineXattrAddrs ==>
              OffTheEnd(f, t, MaxFileBlocks(defAddrs, inlineXattrAddrs, f.a, f.n))
    ensures f.a0 == defAddrs && inlineXattrAddrs < f.a ==>
              MaxFileBlocks(defAddrs, inlineXattrAddrs, f.a, f.n) == f.Capacity() - inlineXattrAddrs
              && (OffTheEnd(f, t, f.Capacity() - inlineXattrAddrs) <==> LeafOf(f, t, Leaves(f) - 1).Some?)
  {
    if f.a0 == defAddrs && inlineXattrAddrs < f.a {
      AllLeaves(f);
      DivUnique(f.Capacity() - inlineXattrAddrs - f.a0, f.a, Leaves(f) - 1, f.a - inlineXattrAddrs);
    }
  }

  lemma AllLeaves(f: Fan)
    ensures f.Capacity() == f.a0 + Leaves(f) * f.a && Leaves(f) * f.a == (Leaves(f) - 1) * f.a + f.a
  {
    assert f.a * f.n * f.n == f.n * f.n * f.a;
    assert (2 + 2 * f.n + f.n * f.n) * f.a == 2 * f.a + 2 * (f.a * f.n) + f.n * f.n * f.a;
  }

  /** A file of one node block below the double indirect node, cut inside it. */
  lemma LastLeafOffTheEnd()
    ensures var f := Fan(1, 2, 1, 1);
            var t := File([Null], [None, None], [None, None], Some([Some([Some([At(7), At(8)])])]));
            f.Valid() && FileOk(f, t) && Leaves(f) == 5 && f.Capacity() == 11 && OffTheEnd(f, t, 10)
  {
    var f := Fan(1, 2, 1, 1);
    var t := File([Null], [None, None], [None, None], Some([Some([Some([At(7), At(8)])])]));
    assert (10 - 1) / 2 == 4 && (10 - 1) % 2 == 1 && 0 / 1 == 0 && 0 % 1 == 0;
    assert LeafOf(f, t, 4) == LeafBelow(f, t.dind, 0) == Some([At(7), At(8)]);
  }

  /** Of the leaves from start on something is kept: the cut comes after the first of
      them, or inside it and it is there. */
  ghost predicate Reaches(f: Fan, t: File, freeFrom: nat, start: nat)
    requires f.Valid() && FileOk(f, t)
  {
    f.a0 + (start + 1) * f.a <= freeFrom || (f.a0 + start * f.a < freeFrom && LeafOf(f, t, start).Some?)
  }

  /** The node blocks of r are those of t that hold something to be kept: direct nodes whose
      range starts before freeFrom, and indirect ones the cut leaves a leaf to. (The
      double indirect node goes too if the cut is below its first child and that is
      missing.) */
  ghost predicate NodesFrom(f: Fan, t: File, r: File, freeFrom: nat)
    requires f.Valid() && FileOk(f, t) && FileOk(f, r)
  {
    && (forall p: nat :: p < Leaves(f) ==> (LeafOf(f, r, p).Some? <==> LeafOf(f, t, p).Some? && Reaches(f, t, freeFrom, p)))
    && (r.ind[0].Some? <==> t.ind[0].Some? && Reaches(f, t, freeFrom, 2))
    && (r.ind[1].Some? <==> t.ind[1].Some? && Reaches(f, t, freeFrom, 2 + f.n))
    && (forall x: nat {:trigger IndIn(r.dind, x)} :: x < f.n ==>
          (IndIn(r.dind, x).Some? <==> IndIn(t.dind, x).Some? && Reaches(f, t, freeFrom, 2 + 2 * f.n + x * f.n)))
    && (r.dind.Some? <==> t.dind.Some? && Reaches(f, t, freeFrom, 2 + 2 * f.n)
                          && (IndIn(t.dind, 0).Some? || Reaches(f, t, freeFrom, 1 + 3 * f.n)))
  }

  lemma ReachesLeaf(f: Fan, t: File, r: File, freeFrom: nat, leaf: nat, start: nat)
    requires f.Valid() && FileOk(f, t) && FileOk(f, r) && ClearedFrom(f, t, r, freeFrom, leaf)
    ensures Reaches(f, t, freeFrom, start) <==> start < leaf
  {
    TimesMono(0, start, f.a);
    NextTimes(start, f.a);
    if freeFrom >= f.a0 {
      PlaceOf(freeFrom - f.a0, f.a, start);
    }
  }

  lemma NextTimes(k: int, a: int)
    ensures (k + 1) * a == k * a + a
  {
  }

  /** Where x lies against the start of the k-th piece of a. */
  lemma PlaceOf(x: nat, a: nat, k: nat)
    requires 0 < a
    ensures (k + 1) * a <= x <==> k < x / a
    ensures k * a < x <==> k < x / a || (k == x / a && x % a != 0)
  {
    var q := x / a;
    Divided(x, a);
    NextTimes(q, a);
    NextTimes(k, a);
    if k < q {
      TimesMono(k + 1, q, a);
    } else if q < k {
      TimesMono(q + 1, k, a);
    }
  }

  /** Clearing part of a leaf takes no node away. */
  lemma ClearedSameNodes(f: Fan, t: File, r: File, freeFrom: nat, leaf: nat)
    requires f.Valid() && FileOk(f, t) && FileOk(f, r) && ClearedFrom(f, t, r, freeFrom, leaf)
    ensures (r.ind[0].Some? <==> t.ind[0].Some?) && (r.ind[1].Some? <==> t.ind[1].Some?)
    ensures r.dind.Some? <==> t.dind.Some?
    ensures forall x :: 0 <= x < f.n ==> (IndIn(r.dind, x).Some? <==> IndIn(t.dind, x).Some?)
  {
  }

  lemma ClearedSameLeaf(f: Fan, t: File, r: File, freeFrom: nat, leaf: nat, p: nat)
    requires f.Valid() && FileOk(f, t) && FileOk(f, r) && ClearedFrom(f, t, r, freeFrom, leaf) && p < Leaves(f)
    ensures LeafOf(f, r, p).Some? <==> LeafOf(f, t, p).Some?
  {
    if freeFrom >= f.a0 {
      ClearedLeaf(f, t, r, freeFrom, leaf, p);
    }
  }

  /** What clearing and cutting come to, node by node. */
  lemma CutNodes(f: Fan, t: File, r: File, freeFrom: nat, leaf: nat)
    requires f.Valid() && FileOk(f, t) && FileOk(f, r) && freeFrom < f.Capacity()
    requires ClearedFrom(f, t, r, freeFrom, leaf) && leaf < Leaves(f)
    ensures FileOk(f, CutFile(f, r, leaf)) && NodesFrom(f, t, CutFile(f, r, leaf), freeFrom)
  {
    var c := CutFile(f, r, leaf);
    CutFileLeaves(f, r, leaf, 0);
    ClearedSameNodes(f, t, r, freeFrom, leaf);
    CutIndirects(f, t, r, freeFrom, leaf);
    forall p: nat | p < Leaves(f)
      ensures LeafOf(f, c, p).Some? <==> LeafOf(f, t, p).Some? && Reaches(f, t, freeFrom, p)
    {
      CutFileLeaves(f, r, leaf, p);
      ClearedSameLeaf(f, t, r, freeFrom, leaf, p);
      ReachesLeaf(f, t, r, freeFrom, leaf, p);
    }
    forall x: nat | x < f.n
      ensures IndIn(c.dind, x).Some? <==> IndIn(t.dind, x).Some? && Reaches(f, t, freeFrom, 2 + 2 * f.n + x * f.n)
    {
      CutFileNodes(f, r, leaf, x);
      TimesMono(0, x, f.n);
      ReachesLeaf(f, t, r, freeFrom, leaf, 2 + 2 * f.n + x * f.n);
    }
  }

  lemma CutIndirects(f: Fan, t: File, r: File, freeFrom: nat, leaf: nat)
    requires f.Valid() && FileOk(f, t) && FileOk(f, r) && ClearedFrom(f, t, r, freeFrom, leaf) && leaf < Leaves(f)
    ensures var c := CutFile(f, r, leaf);
            && (c.ind[0].Some? <==> t.ind[0].Some? && Reaches(f, t, freeFrom, 2))
            && (c.ind[1].Some? <==> t.ind[1].Some? && Reaches(f, t, freeFrom, 2 + f.n))
            && (c.dind.Some? <==> t.dind.Some? && Reaches(f, t, freeFrom, 2 + 2 * f.n)
                                  && (IndIn(t.dind, 0).Some? || Reaches(f, t, freeFrom, 1 + 3 * f.n)))
  {
    ClearedSameNodes(f, t, r, freeFrom, leaf);
    CutFileNodes(f, r, leaf, 0);
    ReachesLeaf(f, t, r, freeFrom, leaf, 2);
    ReachesLeaf(f, t, r, freeFrom, leaf, 2 + f.n);
    ReachesLeaf(f, t, r, freeFrom, leaf, 2 + 2 * f.n);
    ReachesLeaf(f, t, r, freeFrom, leaf, 1 + 3 * f.n);
  }

  /** Leaf q with its slots from slot on cleared; nothing else changes. */
  function ClearRest(f: Fan, t: File, q: nat, slot: nat): File
    requires f.Valid() && FileOk(f, t) && q < Leaves(f) && slot < f.a && LeafOf(f, t, q).Some?
  {
    var n := f.n;
    var l := Some(CutAddrs(LeafOf(f, t, q).value, slot));
    if q < 2 then t.(direct := t.direct[q := l])
    else if q < 2 + n then t.(ind := t.ind[0 := Some(t.ind[0].value[q - 2 := l])])
    else if q < 2 + 2 * n then t.(ind := t.ind[1 := Some(t.ind[1].value[q - 2 - n := l])])
    else t.(dind := PutDeep(f, t.dind, q - 2 - 2 * n, l))
  }

  /** The double indirect node with its r-th leaf replaced. */
  function PutDeep(f: Fan, d: Dind, r: nat, l: Leaf): Dind
    requires f.Valid() && DindOk(f, d) && LeafBelow(f, d, r).Some?
  {
    var x, y := r / f.n, r % f.n;
    Some(d.value[x := Some(d.value[x].value[y := l])])
  }

  lemma PutDeepLeaf(f: Fan, d: Dind, r: nat, l: Leaf, p: nat)
    requires f.Valid() && DindOk(f, d) && LeafBelow(f, d, r).Some? && LeafOk(f, l)
    ensures DindOk(f, PutDeep(f, d, r, l))
    ensures LeafBelow(f, PutDeep(f, d, r, l), p) == if p == r then l else LeafBelow(f, d, p)
  {
    SamePlace(f.n, p, r);
    PutAt(f, d, r / f.n, r % f.n, l, p / f.n, p % f.n);
  }

  lemma PutAt(f: Fan, d: Dind, x: nat, y: nat, l: Leaf, j: nat, k: nat)
    requires f.Valid() && DindOk(f, d) && LeafIn(IndIn(d, x), y).Some? && LeafOk(f, l)
    ensures var r := Some(d.value[x := Some(d.value[x].value[y := l])]);
            DindOk(f, r) && LeafIn(IndIn(r, j), k) == if j == x && k == y then l else LeafIn(IndIn(d, j), k)
  {
  }

  lemma PutDeepSize(f: Fan, d: Dind, r: nat, l: Leaf, data: bool)
    requires f.Valid() && DindOk(f, d) && LeafBelow(f, d, r).Some?
    ensures DindSize(PutDeep(f, d, r, l), data) ==
            DindSize(d, data) - LeafSize(LeafBelow(f, d, r), data) + LeafSize(l, data)
  {
    var x, y := r / f.n, r % f.n;
    LeavesUpdate(d.value[x].value, y, l, data);
    IndsUpdate(d.value, x, Some(d.value[x].value[y := l]), data);
  }

  /** Clearing part of a leaf changes that leaf only, */
  lemma ClearRestLeaves(f: Fan, t: File, q: nat, slot: nat, p: nat)
    requires f.Valid() && FileOk(f, t) && q < Leaves(f) && slot < f.a && LeafOf(f, t, q).Some? && p < Leaves(f)
    ensures slot <= |LeafOf(f, t, q).value|
    ensures FileOk(f, ClearRest(f, t, q, slot))
    ensures LeafOf(f, ClearRest(f, t, q, slot), p) == if p == q then Some(CutAddrs(LeafOf(f, t, q).value, slot)) else LeafOf(f, t, p)
  {
    LeafSizes(f, t, q);
    if q >= 2 + 2 * f.n {
      var l := Some(CutAddrs(LeafOf(f, t, q).value, slot));
      PutDeepLeaf(f, t.dind, q - 2 - 2 * f.n, l, if p >= 2 + 2 * f.n then p - 2 - 2 * f.n else 0);
    }
  }

  lemma LeafSizes(f: Fan, t: File, q: nat)
    requires f.Valid() && FileOk(f, t) && LeafOf(f, t, q).Some?
    ensures |LeafOf(f, t, q).value| == f.a
  {
  }

  /** and lowers the tree's block count by the data it clears, its node count not at all. */
  lemma ClearRestOk(f: Fan, t: File, q: nat, slot: nat)
    requires f.Valid() && FileOk(f, t) && q < Leaves(f) && slot < f.a && LeafOf(f, t, q).Some?
    ensures slot <= |LeafOf(f, t, q).value|
    ensures var r, l := ClearRest(f, t, q, slot), LeafOf(f, t, q).value;
            && FileOk(f, r)
            && FileSize(r, true) == FileSize(t, true) - (DataIn(l) - DataIn(CutAddrs(l, slot)))
            && FileSize(r, false) == FileSize(t, false)
  {
    LeafSizes(f, t, q);
    ClearRestLeaves(f, t, q, slot, q);
    ClearRestSize(f, t, q, slot, true);
    ClearRestSize(f, t, q, slot, false);
  }

  lemma ClearRestSize(f: Fan, t: File, q: nat, slot: nat, data: bool)
    requires f.Valid() && FileOk(f, t) && q < Leaves(f) && slot < f.a && LeafOf(f, t, q).Some?
    ensures slot <= |LeafOf(f, t, q).value|
    ensures FileSize(ClearRest(f, t, q, slot), data) ==
            FileSize(t, data) - LeafSize(LeafOf(f, t, q), data) + LeafSize(Some(CutAddrs(LeafOf(f, t, q).value, slot)), data)
  {
    LeafSizes(f, t, q);
    var n := f.n;
    var l := Some(CutAddrs(LeafOf(f, t, q).value, slot));
    if 2 <= q < 2 + n {
      LeavesUpdate(t.ind[0].value, q - 2, l, data);
    } else if 2 + n <= q < 2 + 2 * n {
      LeavesUpdate(t.ind[1].value, q - 2 - n, l, data);
    } else if q >= 2 + 2 * n {
      PutDeepSize(f, t.dind, q - 2 - 2 * n, l, data);
    }
  }

  /** What clearing and cutting come to, block by block. */
  lemma CutMeansAt(f: Fan, t: File, r: File, freeFrom: nat, leaf: nat, b: nat)
    requires f.Valid() && FileOk(f, t) && FileOk(f, r) && freeFrom < f.Capacity() && b < f.Capacity()
    requires ClearedFrom(f, t, r, freeFrom, leaf) && leaf < Leaves(f)
    ensures FileOk(f, CutFile(f, r, leaf))
    ensures Lookup(f, CutFile(f, r, leaf), b) == if b < freeFrom then Lookup(f, t, b) else Null
  {
    CutFileLeaves(f, r, leaf, 0);
    if b < f.a0 {
      InodeKept(f, t, r, freeFrom, leaf, b);
    } else if freeFrom < f.a0 {
      LeafInTree(f, b);
      NothingBeyond(f, t, r, freeFrom, leaf, b);
    } else {
      LeafInTree(f, b);
      CutBeyond(f, t, r, freeFrom, leaf, b);
    }
  }

  lemma NothingBeyond(f: Fan, t: File, r: File, freeFrom: nat, leaf: nat, b: nat)
    requires f.Valid() && FileOk(f, t) && FileOk(f, r) && freeFrom < f.a0 <= b
    requires ClearedFrom(f, t, r, freeFrom, leaf) && (b - f.a0) / f.a < Leaves(f)
    ensures FileOk(f, CutFile(f, r, leaf)) && Lookup(f, CutFile(f, r, leaf), b) == Null
  {
    CutFileLeaves(f, r, leaf, (b - f.a0) / f.a);
  }

  lemma CutBeyond(f: Fan, t: File, r: File, freeFrom: nat, leaf: nat, b: nat)
    requires f.Valid() && FileOk(f, t) && FileOk(f, r) && f.a0 <= freeFrom && f.a0 <= b
    requires ClearedFrom(f, t, r, freeFrom, leaf) && leaf < Leaves(f) && (b - f.a0) / f.a < Leaves(f)
    ensures FileOk(f, CutFile(f, r, leaf))
    ensures Lookup(f, CutFile(f, r, leaf), b) == if b < freeFrom then Lookup(f, t, b) else Null
  {
    var q, slot := (b - f.a0) / f.a, (b - f.a0) % f.a;
    BeforeInLeaf(f, b, freeFrom);
    CutMeansInLeaf(f, t, r, freeFrom, leaf, q, slot, b < freeFrom);
    LookupByLeaf(f, t, CutFile(f, r, leaf), b, b < freeFrom);
  }

  lemma BeforeInLeaf(f: Fan, b: nat, freeFrom: nat)
    requires f.Valid() && f.a0 <= b && f.a0 <= freeFrom
    ensures b < freeFrom <==>
              (b - f.a0) / f.a < (freeFrom - f.a0) / f.a
              || ((b - f.a0) / f.a == (freeFrom - f.a0) / f.a && (b - f.a0) % f.a < (freeFrom - f.a0) % f.a)
  {
    DivOrder(b - f.a0, freeFrom - f.a0, f.a);
  }

  lemma LookupByLeaf(f: Fan, t: File, c: File, b: nat, before: bool)
    requires f.Valid() && FileOk(f, t) && FileOk(f, c) && f.a0 <= b
    requires var q, k := (b - f.a0) / f.a, (b - f.a0) % f.a;
             InLeaf(LeafOf(f, c, q), k) == if before then InLeaf(LeafOf(f, t, q), k) else Null
    ensures Lookup(f, c, b) == if before then Lookup(f, t, b) else Null
  {
  }

  lemma InodeKept(f: Fan, t: File, r: File, freeFrom: nat, leaf: nat, b: nat)
    requires f.Valid() && FileOk(f, t) && FileOk(f, r) && freeFrom < f.Capacity() && b < f.a0
    requires ClearedFrom(f, t, r, freeFrom, leaf) && leaf < Leaves(f)
    ensures CutFile(f, r, leaf).addrs == r.addrs && r.addrs[b] == if b < freeFrom then t.addrs[b] else Null
  {
  }

  lemma CutMeansInLeaf(f: Fan, t: File, r: File, freeFrom: nat, leaf: nat, bq: nat, bs: nat, before: bool)
    requires f.Valid() && FileOk(f, t) && FileOk(f, r) && f.a0 <= freeFrom && bq < Leaves(f)
    requires ClearedFrom(f, t, r, freeFrom, leaf) && leaf < Leaves(f)
    requires var q, slot := (freeFrom - f.a0) / f.a, (freeFrom - f.a0) % f.a;
             before <==> bq < q || (bq == q && bs < slot)
    ensures FileOk(f, CutFile(f, r, leaf))
    ensures InLeaf(LeafOf(f, CutFile(f, r, leaf), bq), bs) == if before then InLeaf(LeafOf(f, t, bq), bs) else Null
  {
    var q, slot := (freeFrom - f.a0) / f.a, (freeFrom - f.a0) % f.a;
    CutFileLeaves(f, r, leaf, bq);
    ClearedLeaf(f, t, r, freeFrom, leaf, bq);
    SlotMeans(LeafOf(f, t, bq), LeafOf(f, r, bq), LeafOf(f, t, q), q, slot, leaf, bq, bs);
  }

  /** Slot bs of leaf bq, which was was and is now is, when the cut is at slot of leaf q. */
  lemma SlotMeans(was: Leaf, now: Leaf, cut: Leaf, q: nat, slot: nat, leaf: nat, bq: nat, bs: nat)
    requires q <= leaf <= q + 1 && (bq == q ==> was == cut)
    requires leaf == q ==> now == was && (slot == 0 || cut.None?)
    requires leaf == q + 1 ==> cut.Some? && slot <= |cut.value|
    requires leaf == q + 1 ==> now == if bq == q then Some(CutAddrs(cut.value, slot)) else was
    ensures InLeaf(if bq < leaf then now else None, bs) == if bq < q || (bq == q && bs < slot) then InLeaf(was, bs) else Null
  {
  }

  /** The leaves after the clearing: as before, but for the slots cleared. */
  lemma ClearedLeaf(f: Fan, t: File, r: File, freeFrom: nat, leaf: nat, p: nat)
    requires f.Valid() && FileOk(f, t) && FileOk(f, r) && f.a0 <= freeFrom && p < Leaves(f)
    requires ClearedFrom(f, t, r, freeFrom, leaf)
    ensures var q, slot := (freeFrom - f.a0) / f.a, (freeFrom - f.a0) % f.a;
            && q <= leaf <= q + 1
            && (leaf == q ==> LeafOf(f, r, p) == LeafOf(f, t, p) && (slot == 0 || LeafOf(f, t, q).None?))
            && (leaf == q + 1 ==> LeafOf(f, t, q).Some? && slot <= |LeafOf(f, t, q).value|)
            && (leaf == q + 1 ==>
                  LeafOf(f, r, p) == if p == q then Some(CutAddrs(LeafOf(f, t, q).value, slot)) else LeafOf(f, t, p))
  {
    var q, slot := (freeFrom - f.a0) / f.a, (freeFrom - f.a0) % f.a;
    if LeafOf(f, t, q).Some? && slot != 0 {
      ClearRestLeaves(f, t, q, slot, p);
    }
  }

  lemma CutMeans(f: Fan, t: File, r: File, freeFrom: nat, leaf: nat)
    requires f.Valid() && FileOk(f, t) && FileOk(f, r) && freeFrom < f.Capacity()
    requires ClearedFrom(f, t, r, freeFrom, leaf) && leaf < Leaves(f)
    ensures FileOk(f, CutFile(f, r, leaf))
    ensures forall b: nat {:trigger Lookup(f, CutFile(f, r, leaf), b)} :: b < f.Capacity() ==>
              Lookup(f, CutFile(f, r, leaf), b) == if b < freeFrom then Lookup(f, t, b) else Null
  {
    CutFileLeaves(f, r, leaf, 0);
    forall b: nat {:trigger Lookup(f, CutFile(f, r, leaf), b)} | b < f.Capacity()
      ensures Lookup(f, CutFile(f, r, leaf), b) == if b < freeFrom then Lookup(f, t, b) else Null
    {
      CutMeansAt(f, t, r, freeFrom, leaf, b);
    }
  }

  lemma {:induction false} NoData(s: seq<Addr>)
    requires forall k :: 0 <= k < |s| ==> s[k] == Null
    ensures DataIn(s) == 0
  {
    if s != [] {
      NoData(s[..|s| - 1]);
    }
  }
}
