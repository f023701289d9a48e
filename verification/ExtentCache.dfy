/** The two extent caches of fs/f2fs/data.c as they are updated in place: the
    inode's single extent, and the extent tree with its cached node. */
module ExtentCache {
  import opened Options
  import opened Extents

  // ----- the single extent -----

  /** An empty extent caches nothing. */
  ghost predicate SingleAgrees(e: Extent, file: map<nat, nat>) {
    forall o: nat, a: int :: e.Maps(o, a) ==> o in file && file[o] == a
  }

  /** The half update_extent_info keeps when fofs splits e. */
  function KeptHalf(e: Extent, fofs: nat): Extent
    requires e.Covers(fofs)
  {
    if e.End() - 1 - fofs < e.len / 2 then Extent(e.fofs, e.blk, fofs - e.fofs)
    else Extent(fofs + 1, e.blk + (fofs - e.fofs) + 1, e.len - (fofs - e.fofs + 1))
  }

  /** Splitting never leaves an empty half: the one kept is the longer, it loses
      fofs and it says nothing that e did not say. */
  lemma KeptHalfIsLonger(e: Extent, fofs: nat)
    requires e.Covers(fofs) && e.len > 1
    ensures var h := KeptHalf(e, fofs);
            && h.len > 0 && !h.Covers(fofs)
            && h.len >= fofs - e.fofs && h.len >= e.End() - 1 - fofs
            && forall o: nat, a: int :: h.Maps(o, a) ==> e.Maps(o, a)
  {
  }

  /** An extent that says of other offsets only what e said stays true of the file. */
  lemma SingleStep(e: Extent, r: Extent, fofs: nat, blk: nat)
    requires forall o: nat, a: int :: r.Maps(o, a) ==> (e.Maps(o, a) && o != fofs) || (o == fofs && a == blk && blk != 0)
    ensures forall file :: SingleAgrees(e, file) ==> SingleAgrees(r, FileAfter(file, fofs, blk))
  {
  }

  class InodeExtent {
    var ext: Extent
    var noExtent: bool

    /** Main-area addresses lie beyond the superblock's two blocks. */
    ghost predicate Valid()
      reads this
    {
      && (ext.len > 0 ==> ext.blk > 1)
      && (noExtent ==> ext.len == 0)
    }

    /** f2fs_init_extent_cache: what the inode on disk holds. */
    constructor (e: Extent)
      requires e.len > 0 ==> e.blk > 1
      ensures Valid() && ext == e && !noExtent
    {
      ext, noExtent := e, false;
    }

    /** lookup_extent_info. */
    method LookupExtentInfo(o: nat) returns (found: bool, e: Extent)
      requires Valid()
      ensures found <==> ext.Covers(o)
      ensures found ==> e == ext
    {
      found, e := false, ext;
      if ext.len == 0 {
        return;
      }
      found := o >= ext.fofs && o <= ext.fofs + ext.len - 1;
    }

    /** update_extent_info: agreement with any file is kept; fofs is dropped or, when
        it starts or continues the extent, gained; a surviving extent that did not
        just start or grow is at least MIN_EXTENT_LEN long. */
    method UpdateExtentInfo(fofs: nat, blkaddr: nat) returns (needUpdate: bool)
      requires Valid() && !noExtent && blkaddr != 1
      modifies this
      ensures Valid()
      ensures forall file :: SingleAgrees(old(ext), file) ==> SingleAgrees(ext, FileAfter(file, fofs, blkaddr))
      ensures ext.Covers(fofs) ==> ext.Maps(fofs, blkaddr) && blkaddr != 0
      ensures ext.Covers(fofs) ==> forall o: nat, a: int :: ext.Maps(o, a) <==> (old(ext).Maps(o, a) && o != fofs) || (o == fofs && a == blkaddr)
      ensures !ext.Covers(fofs) && ext.len > 0 ==> ext.len >= MIN_EXTENT_LEN
      ensures !needUpdate ==> ext == old(ext)
      ensures noExtent ==> ext.len == 0 && needUpdate
    {
      needUpdate := true;
      var start: int, end: int := ext.fofs, ext.fofs + ext.len - 1;
      var startBlk: int, endBlk: int := ext.blk, ext.blk + ext.len - 1;
      var e := ext;
      if ext.len == 1 && fofs == start {
        ext := ext.(len := 0);
      }
      if ext.len == 0 {
        if blkaddr != 0 {
          ext := Extent(fofs, blkaddr, 1);
        }
        SingleStep(e, ext, fofs, blkaddr);
        return;
      }
      if fofs == start - 1 && blkaddr == startBlk - 1 {
        ext := Extent(ext.fofs - 1, ext.blk - 1, ext.len + 1);
        SingleStep(e, ext, fofs, blkaddr);
        return;
      }
      if fofs == end + 1 && blkaddr == endBlk + 1 {
        ext := ext.(len := ext.len + 1);
        SingleStep(e, ext, fofs, blkaddr);
        return;
      }
      if ext.len > 1 && fofs >= start && fofs <= end {
        KeptHalfIsLonger(ext, fofs);
        if end - fofs < ext.len / 2 {
          ext := ext.(len := fofs - start);
        } else {
          ext := Extent(fofs + 1, startBlk + fofs - start + 1, ext.len - (fofs - start + 1));
        }
      } else {
        needUpdate := false;
      }
      if ext.len < MIN_EXTENT_LEN {
        ext := ext.(len := 0);
        noExtent := true;
        needUpdate := true;
      }
      SingleStep(e, ext, fofs, blkaddr);
    }
  }

  // ----- the extent tree -----

  datatype Node = Node(id: nat, ei: Extent)

  /** The tree's extents in key order: the order rb_prev and rb_next walk. */
  ghost function Infos(nodes: seq<Node>): (s: seq<Extent>)
    ensures |s| == |nodes| && forall k :: 0 <= k < |nodes| ==> s[k] == nodes[k].ei
  {
    seq(|nodes|, (k: nat) requires k < |nodes| => nodes[k].ei)
  }

  ghost predicate DistinctIds(nodes: seq<Node>) {
    forall i, j :: 0 <= i < j < |nodes| ==> nodes[i].id != nodes[j].id
  }

  ghost predicate HasId(nodes: seq<Node>, id: nat) {
    exists k :: 0 <= k < |nodes| && nodes[k].id == id
  }

  /** A binary search tree over n nodes in key order is a choice of root for every
      interval; rebalancing makes another choice, so shape also takes a time. */
  ghost predicate IsShape(shape: (nat, nat, nat) -> nat) {
    forall t: nat, lo: nat, hi: nat :: lo < hi ==> lo <= shape(t, lo, hi) < hi
  }

  class ExtentTree {
    var nodes: seq<Node>
    var cached: Option<nat>
    var nextId: nat
    var time: nat
    const shape: (nat, nat, nat) -> nat

    ghost predicate Ids()
      reads this
    {
      && DistinctIds(nodes) && (forall k :: 0 <= k < |nodes| ==> nodes[k].id < nextId)
      && (cached.Some? ==> HasId(nodes, cached.value))
    }

    /** Sorted, disjoint and merged; the cached node is in the tree. */
    ghost predicate Valid()
      reads this
    {
      WellFormed(Infos(nodes)) && Ids() && IsShape(shape)
    }

    constructor (shape: (nat, nat, nat) -> nat)
      requires IsShape(shape)
      ensures Valid() && nodes == [] && cached == None
    {
      nodes, cached, nextId, time := [], None, 0, 0;
      this.shape := shape;
    }

    /** The node cached_en points to. */
    method Deref(id: nat) returns (i: nat)
      requires HasId(nodes, id)
      ensures i < |nodes| && nodes[i].id == id
    {
      i := 0;
      while nodes[i].id != id
        invariant i < |nodes| && forall k :: 0 <= k < i ==> nodes[k].id != id
        decreases |nodes| - i
      {
        i := i + 1;
      }
    }

    /** __lookup_extent_tree: the node holding fofs, which becomes the cached one; if
        there is none, |nodes|. */
    method LookupExtentTree(fofs: nat) returns (i: nat)
      requires Valid()
      modifies this`cached
      ensures Valid() && i == Find(Infos(nodes), fofs)
      ensures cached == if i < |nodes| then Some(nodes[i].id) else old(cached)
    {
      if cached.Some? {
        i := Deref(cached.value);
        if nodes[i].ei.Covers(fofs) {
          FindUnique(Infos(nodes), fofs, i);
          return;
        }
      }
      var lo, hi := 0, |nodes|;
      while lo < hi
        invariant lo <= hi <= |nodes|
        invariant forall k :: 0 <= k < lo ==> !nodes[k].ei.Covers(fofs)
        invariant forall k :: hi <= k < |nodes| ==> !nodes[k].ei.Covers(fofs)
      {
        var mid := shape(time, lo, hi);
        if fofs < nodes[mid].ei.fofs {
          hi := mid;
        } else if fofs >= nodes[mid].ei.End() {
          lo := mid + 1;
        } else {
          FindUnique(Infos(nodes), fofs, mid);
          cached := Some(nodes[mid].id);
          return mid;
        }
      }
      i := |nodes|;
    }

    /** __detach_extent_node. */
    method DetachExtentNode(i: nat) returns (en: Node)
      requires Ids() && i < |nodes|
      modifies this`nodes, this`cached, this`time
      ensures Ids() && en == old(nodes)[i] && nodes == old(nodes)[..i] + old(nodes)[i + 1..]
      ensures cached == if old(cached) == Some(en.id) then None else old(cached)
    {
      en := nodes[i];
      if cached == Some(en.id) {
        cached := None;
      }
      WithoutId(nodes, i);
      nodes := nodes[..i] + nodes[i + 1..];
      time := time + 1;
    }

    /** __try_back_merge: node i takes over the one before it, if that one leads up to it. */
    method TryBackMerge(i: nat) returns (den: Option<Node>)
      requires Ids() && i < |nodes|
      modifies this`nodes, this`cached, this`time
      ensures Ids()
      ensures var n := old(nodes);
              if i > 0 && Mergeable(n[i - 1].ei, n[i].ei)
              then den == Some(n[i - 1])
                   && nodes == n[..i - 1] + [Node(n[i].id, Extent(n[i - 1].ei.fofs, n[i - 1].ei.blk, n[i].ei.len + n[i - 1].ei.len))] + n[i + 1..]
              else den == None && nodes == n
    {
      den := None;
      if i == 0 {
        return;
      }
      var prev := nodes[i - 1];
      var en := nodes[i];
      if Mergeable(prev.ei, en.ei) {
        nodes := nodes[i := Node(en.id, Extent(prev.ei.fofs, prev.ei.blk, en.ei.len + prev.ei.len))];
        SameIds(old(nodes), nodes);
        var gone := DetachExtentNode(i - 1);
        den := Some(gone);
      }
    }

    /** __try_front_merge. */
    method TryFrontMerge(i: nat) returns (den: Option<Node>)
      requires Ids() && i < |nodes|
      modifies this`nodes, this`cached, this`time
      ensures Ids()
      ensures var n := old(nodes);
              if i + 1 < |n| && Mergeable(n[i].ei, n[i + 1].ei)
              then den == Some(n[i + 1])
                   && nodes == n[..i] + [Node(n[i].id, n[i].ei.(len := n[i].ei.len + n[i + 1].ei.len))] + n[i + 2..]
              else den == None && nodes == n
    {
      den := None;
      if i + 1 == |nodes| {
        return;
      }
      var next := nodes[i + 1];
      var en := nodes[i];
      if Mergeable(en.ei, next.ei) {
        nodes := nodes[i := Node(en.id, en.ei.(len := en.ei.len + next.ei.len))];
        SameIds(old(nodes), nodes);
        var gone := DetachExtentNode(i + 1);
        den := Some(gone);
      }
    }

    /** __attach_extent_node. */
    method AttachExtentNode(i: nat, ei: Extent)
      requires Ids() && i <= |nodes|
      modifies this`nodes, this`nextId, this`time
      ensures Ids() && nodes == old(nodes)[..i] + [Node(old(nextId), ei)] + old(nodes)[i..]
    {
      nodes := nodes[..i] + [Node(nextId, ei)] + nodes[i..];
      nextId := nextId + 1;
      time := time + 1;
      assert cached.Some? ==> HasId(nodes, cached.value) by {
        if cached.Some? {
          var k :| 0 <= k < |old(nodes)| && old(nodes)[k].id == cached.value;
          assert nodes[if k < i then k else k + 1] == old(nodes)[k];
        }
      }
    }

    /** ei leads up to node mid, which grows by it and then by the node before. */
    method MergeInFront(mid: nat, ei: Extent) returns (den: Option<Node>)
      requires Ids() && mid < |nodes| && Mergeable(ei, nodes[mid].ei)
      modifies this`nodes, this`cached, this`time
      ensures Ids() && Infos(nodes) == InsertAt(Infos(old(nodes)), mid, ei)
    {
      var en := nodes[mid];
      ghost var n := nodes;
      nodes := nodes[mid := Node(en.id, Extent(ei.fofs, ei.blk, en.ei.len + ei.len))];
      SameIds(n, nodes);
      den := TryBackMerge(mid);
      FrontInfos(n, nodes, mid, ei);
    }

    /** ei continues node mid, which grows by it and then by the node after. */
    method MergeBehind(mid: nat, ei: Extent) returns (den: Option<Node>)
      requires Ids() && mid < |nodes| && Mergeable(nodes[mid].ei, ei)
      modifies this`nodes, this`cached, this`time
      ensures Ids() && Infos(nodes) == InsertAt(Infos(old(nodes)), mid + 1, ei)
    {
      var en := nodes[mid];
      ghost var n := nodes;
      nodes := nodes[mid := Node(en.id, en.ei.(len := en.ei.len + ei.len))];
      SameIds(n, nodes);
      den := TryFrontMerge(mid);
      BackInfos(n, nodes, mid, ei);
    }

    /** The way down the tree: to the first node ei continues or leads up to, or else
        to the empty place where ei belongs. */
    method Descend(ei: Extent) returns (hit: bool, i: nat)
      requires WellFormed(Infos(nodes)) && IsShape(shape) && ei.len > 0 && Apart(Infos(nodes), ei)
      ensures hit ==> i < |nodes| && (Mergeable(ei, nodes[i].ei) || Mergeable(nodes[i].ei, ei))
      ensures !hit ==> i == Place(Infos(nodes), ei) && !MergesBack(Infos(nodes), i, ei) && !MergesFront(Infos(nodes), i, ei)
    {
      ghost var s := Infos(nodes);
      var lo: nat, hi: nat := 0, |nodes|;
      hit, i := false, 0;
      while lo < hi && !hit
        invariant Between(s, ei, lo, hi)
        invariant hit ==> i < |nodes| && (Mergeable(ei, nodes[i].ei) || Mergeable(nodes[i].ei, ei))
        decreases hi - lo, !hit
      {
        i := shape(time, lo, hi);
        hit, lo, hi := OneDown(ei, lo, i, hi);
      }
      i := if hit then i else lo;
    }

    /** One node on the way down. */
    method OneDown(ei: Extent, lo: nat, mid: nat, hi: nat) returns (hit: bool, l: nat, h: nat)
      requires WellFormed(Infos(nodes)) && ei.len > 0 && Apart(Infos(nodes), ei)
      requires Between(Infos(nodes), ei, lo, hi) && lo <= mid < hi
      ensures hit ==> l == lo && h == hi && (Mergeable(ei, nodes[mid].ei) || Mergeable(nodes[mid].ei, ei))
      ensures !hit ==> Between(Infos(nodes), ei, l, h) && h - l < hi - lo && l <= h
    {
      var en := nodes[mid].ei;
      assert en == Infos(nodes)[mid];
      PlaceSide(Infos(nodes), ei, mid);
      if ei.fofs < en.fofs {
        return Mergeable(ei, en), lo, if Mergeable(ei, en) then hi else mid;
      } else {
        return Mergeable(en, ei), if Mergeable(en, ei) then lo else mid + 1, hi;
      }
    }

    /** __insert_extent_tree: merging with the first node met that ei continues or
        leads up to, and then with its other neighbour; else as a new leaf.
        merges says whether the caller gave a place for a merged node: without
        one the bug check fires, and nothing is inserted, exactly when some node
        could be merged with. */
    method InsertExtentTree(ei: Extent, merges: bool) returns (ok: bool, den: Option<Node>)
      requires Valid() && ei.len > 0 && Apart(Infos(nodes), ei)
      modifies this`nodes, this`cached, this`nextId, this`time
      ensures Valid() && (ok <==> merges || !MeetsMergeable(Infos(old(nodes)), ei))
      ensures Infos(nodes) == if ok then Insert(Infos(old(nodes)), ei) else Infos(old(nodes))
      ensures den.Some? ==> merges
    {
      ghost var s := Infos(nodes);
      InsertGood(s, ei);
      ok, den := true, None;
      var hit, i := Descend(ei);
      if !hit {
        NoneToMeet(s, ei, i);
        PlainInfos(nodes, i, Node(nextId, ei));
        AttachExtentNode(i, ei);
      } else {
        assert Infos(nodes)[i] == nodes[i].ei;
        if !merges {
          return false, None;
        }
        PlaceSide(s, ei, i);
        if Mergeable(ei, nodes[i].ei) {
          den := MergeInFront(i, ei);
        } else {
          den := MergeBehind(i, ei);
        }
      }
    }

    /** Inserting the left part of the extent s[i] just removed, if it is worth keeping. */
    method InsertLeft(ghost s: seq<Extent>, ghost i: nat, dei: Extent, fofs: nat)
      requires Valid() && WellFormed(s) && i < |s| && s[i] == dei && dei.Covers(fofs)
      requires Infos(nodes) == RemoveAt(s, i)
      modifies this`nodes, this`cached, this`nextId, this`time
      ensures Valid() && Infos(nodes) == WithLeft(RemoveAt(s, i), dei, fofs)
    {
      if dei.len > 1 && fofs - dei.fofs >= MIN_EXTENT_LEN {
        LeftFits(s, i, fofs);
        var ok, none := InsertExtentTree(LeftPart(dei, fofs), false);
      }
    }

    /** Then the right part. */
    method InsertRight(ghost s: seq<Extent>, ghost i: nat, dei: Extent, fofs: nat, bias: nat) returns (ok: bool)
      requires Valid() && WellFormed(s) && i < |s| && s[i] == dei && dei.Covers(fofs) && i == Find(s, fofs)
      requires Infos(nodes) == WithLeft(RemoveAt(s, i), dei, fofs)
      modifies this`nodes, this`cached, this`nextId, this`time
      ensures Valid() && (ok <==> !TripsBug(s, fofs, bias))
      ensures Infos(nodes) == if ok then WithRight(WithLeft(RemoveAt(s, i), dei, fofs), dei, fofs, bias) else WithLeft(RemoveAt(s, i), dei, fofs)
    {
      ok := true;
      if dei.len > 1 && dei.End() - 1 - fofs >= MIN_EXTENT_LEN {
        RightFits(s, i, fofs, bias);
        RightMeets(s, i, fofs, bias);
        var none;
        ok, none := InsertExtentTree(RightPart(dei, fofs, bias), false);
      }
    }

    /** Steps 1 and 2 of f2fs_update_extent_tree once en is found. */
    method SplitExtentTree(i: nat, fofs: nat, bias: nat) returns (ok: bool)
      requires Valid() && i < |nodes| && i == Find(Infos(nodes), fofs)
      modifies this`nodes, this`cached, this`nextId, this`time
      ensures Valid() && (ok <==> !TripsBug(Infos(old(nodes)), fofs, bias))
      ensures ok ==> Infos(nodes) == CutOut(Infos(old(nodes)), fofs, bias)
    {
      ghost var s := Infos(nodes);
      var dei := nodes[i].ei;
      FreeExtentNode(i, s);
      InsertLeft(s, i, dei, fofs);
      ok := InsertRight(s, i, dei, fofs, bias);
    }

    /** f2fs_update_extent_tree; bias 0 is the right half's address as written,
        bias 1 as the single extent computes it. The bug check of the insertion
        fires exactly when TripsBug says so; never with bias 1. */
    method UpdateExtentTree(fofs: nat, blkaddr: nat, bias: nat) returns (ok: bool)
      requires Valid()
      modifies this`nodes, this`cached, this`nextId, this`time
      ensures Valid() && (ok <==> !TripsBug(Infos(old(nodes)), fofs, bias)) && (bias == 1 ==> ok)
      ensures ok ==> Infos(nodes) == Updated(Infos(old(nodes)), fofs, blkaddr, bias)
    {
      ghost var s := Infos(nodes);
      NeverCorrected(s, fofs);
      var i := LookupExtentTree(fofs);
      ok := true;
      if i < |nodes| {
        ok := SplitExtentTree(i, fofs, bias);
        if !ok {
          return;
        }
      }
      if blkaddr != 0 {
        HoleFree(s, fofs, bias, Extent(fofs, blkaddr, 1));
        var ok3, den := InsertExtentTree(Extent(fofs, blkaddr, 1), true);
      }
    }

    /** __free_extent_tree for one node, as f2fs_shrink_extent_tree evicts it. */
    method FreeExtentNode(i: nat, ghost s: seq<Extent>)
      requires Valid() && i < |nodes| && s == Infos(nodes)
      modifies this`nodes, this`cached, this`time
      ensures Valid() && Infos(nodes) == RemoveAt(s, i)
    {
      RemoveKeeps(s, i);
      var en := DetachExtentNode(i);
      assert Infos(nodes) == RemoveAt(s, i);
    }

    /** f2fs_preserve_extent_tree: what the inode gets to keep is true of any file
        the tree agrees with. */
    method PreserveExtentTree() returns (e: Option<Extent>)
      requires Valid()
      ensures e.Some? <==> nodes != []
      ensures e.Some? ==> forall file :: Agrees(Infos(nodes), file) ==> SingleAgrees(e.value, file)
    {
      if nodes == [] {
        return None;
      }
      var i := 0;
      if cached.Some? {
        i := Deref(cached.value);
      }
      OneOfMany(Infos(nodes), i);
      e := Some(nodes[i].ei);
    }
  }

  /** The place of x is in lo..hi, and what bounds that does not merge with x. */
  ghost predicate Between(s: seq<Extent>, x: Extent, lo: nat, hi: nat) {
    && lo <= Place(s, x) <= hi <= |s|
    && (lo > 0 ==> !Mergeable(s[lo - 1], x)) && (hi < |s| ==> !Mergeable(x, s[hi]))
  }

  /** Some extent continues x or is continued by it. */
  ghost predicate MeetsMergeable(s: seq<Extent>, x: Extent) {
    exists k :: 0 <= k < |s| && (Mergeable(s[k], x) || Mergeable(x, s[k]))
  }

  /** An extent that merges with neither neighbour merges with none. */
  lemma NoneToMeet(s: seq<Extent>, x: Extent, i: nat)
    requires WellFormed(s) && Apart(s, x) && x.len > 0
    requires i == Place(s, x) && !MergesBack(s, i, x) && !MergesFront(s, i, x)
    ensures !MeetsMergeable(s, x)
  {
    forall k | 0 <= k < |s| ensures !Mergeable(s[k], x) && !Mergeable(x, s[k]) {
      PlaceSide(s, x, k);
    }
  }

  /** What makes the insertion of the right half hit its bug check: the extent cut keeps
      a right half, and another starts where it ends, at the address the half then ends
      with (one below, as written). */
  ghost predicate TripsBug(s: seq<Extent>, fofs: nat, bias: nat) {
    var i := Find(s, fofs);
    i < |s| && KeepsRight(s[i], fofs)
    && exists j :: 0 <= j < |s| && s[j].fofs == s[i].End() && s[j].blk == s[i].blk + s[i].len - 1 + bias
  }

  /** With the true address it never does. */
  lemma NeverCorrected(s: seq<Extent>, fofs: nat)
    requires WellFormed(s)
    ensures !TripsBug(s, fofs, 1)
  {
    var i := Find(s, fofs);
    if i < |s| && KeepsRight(s[i], fofs) {
      forall j | 0 <= j < |s| && s[j].fofs == s[i].End() ensures s[j].blk != s[i].blk + s[i].len {
        NoneMerge(s, i, j);
      }
    }
  }

  lemma OneOfMany(s: seq<Extent>, i: nat)
    requires i < |s|
    ensures forall file :: Agrees(s, file) ==> SingleAgrees(s[i], file)
  {
    forall o: nat, a: int | s[i].Maps(o, a) ensures Caches(s, o, a) {
    }
  }

  /** While the tree agrees with a file that uses no block twice, the code as written
      does not trip it either. */
  lemma InjectiveTripsNone(s: seq<Extent>, file: map<nat, nat>, fofs: nat)
    requires WellFormed(s) && Agrees(s, file) && Injective(file)
    ensures !TripsBug(s, fofs, 0)
  {
    var i := Find(s, fofs);
    if i < |s| {
      forall j | 0 <= j < |s| && s[j].fofs == s[i].End() ensures s[j].blk != s[i].blk + s[i].len - 1 {
        var o, a := s[i].End() - 1, s[i].blk + s[i].len - 1;
        assert s[i].len > 0 && s[j].len > 0;
        assert s[i].Maps(o, a) && Caches(s, o, a);
        assert s[j].Maps(s[j].fofs, s[j].blk) && Caches(s, s[j].fofs, s[j].blk);
      }
    }
  }

  /** No block is used twice. */
  ghost predicate Injective(file: map<nat, nat>) {
    forall o, p :: o in file && p in file && o != p ==> file[o] != file[p]
  }

  /** But a run does, though its file, which starts with block o at 1000 + o for the 200
      blocks there are, never uses a block twice: the first update leaves a right half
      one address too low, the second merges what is before it back, and the third
      finds the two extents sharing a block. */
  lemma RunTripsBug(f0: map<nat, nat>)
    requires (forall o: nat :: o in f0 <==> o < 200) && forall o :: o in f0 ==> f0[o] == 1000 + o
    ensures var s0, s2 := [Extent(0, 1000, 200)], [Extent(0, 1000, 100), Extent(100, 1099, 100)];
            var s1 := Updated(s0, 99, 5000, 0);
            && WellFormed(s0) && Agrees(s0, f0) && !TripsBug(s0, 99, 0) && !TripsBug(s1, 99, 0)
            && Updated(s1, 99, 1099, 0) == s2 && TripsBug(s2, 0, 0)
    ensures Injective(f0) && Injective(FileAfter(f0, 99, 5000)) && Injective(FileAfter(FileAfter(f0, 99, 5000), 99, 1099))
  {
    var l, r := Extent(0, 1000, 99), Extent(100, 1099, 100);
    FirstCut([Extent(0, 1000, 200)], l, r);
    SecondCut([l, Extent(99, 5000, 1), r], l, r);
    StartsTrue([Extent(0, 1000, 200)], f0);
    StaysInjective(f0);
  }

  lemma StartsTrue(s0: seq<Extent>, f0: map<nat, nat>)
    requires s0 == [Extent(0, 1000, 200)]
    requires (forall o: nat :: o in f0 <==> o < 200) && forall o :: o in f0 ==> f0[o] == 1000 + o
    ensures WellFormed(s0) && Agrees(s0, f0) && !TripsBug(s0, 99, 0)
  {
  }

  lemma StaysInjective(f0: map<nat, nat>)
    requires (forall o: nat :: o in f0 <==> o < 200) && forall o :: o in f0 ==> f0[o] == 1000 + o
    ensures Injective(f0) && Injective(FileAfter(f0, 99, 5000)) && Injective(FileAfter(FileAfter(f0, 99, 5000), 99, 1099))
  {
  }

  lemma FirstCut(s0: seq<Extent>, l: Extent, r: Extent)
    requires s0 == [Extent(0, 1000, 200)] && l == Extent(0, 1000, 99) && r == Extent(100, 1099, 100)
    ensures Updated(s0, 99, 5000, 0) == [l, Extent(99, 5000, 1), r]
  {
    CutInTwo(s0[0], 99);
    assert CutOut(s0, 99, 0) == [l, r];
    FillIn(l, r, Extent(99, 5000, 1));
  }

  /** A lone extent cut where both halves are worth keeping. */
  lemma CutInTwo(e: Extent, fofs: nat)
    requires e.Covers(fofs) && KeepsLeft(e, fofs) && KeepsRight(e, fofs)
    ensures CutOut([e], fofs, 0) == [LeftPart(e, fofs), RightPart(e, fofs, 0)]
  {
    assert Find([e], fofs) == 0 && RemoveAt([e], 0) == [];
    TwoInserts(LeftPart(e, fofs), RightPart(e, fofs, 0));
  }

  lemma TwoInserts(l: Extent, r: Extent)
    requires l.End() <= r.fofs && !Mergeable(l, r)
    ensures Insert([], l) == [l] && Insert([l], r) == [l, r]
  {
    assert Place([], l) == 0;
    assert [l][1..] == [] && Place([l], r) == 1;
  }

  /** An extent between two that merges with neither. */
  lemma FillIn(l: Extent, r: Extent, x: Extent)
    requires l.End() <= x.fofs < r.End() && !Mergeable(l, x) && !Mergeable(x, r)
    ensures Insert([l, r], x) == [l, x, r]
  {
    PlaceBetween(l, r, x);
  }

  lemma PlaceBetween(l: Extent, r: Extent, x: Extent)
    requires l.End() <= x.fofs < r.End()
    ensures Place([l, r], x) == 1
  {
    assert [l, r][1..] == [r];
  }

  lemma SecondCut(s1: seq<Extent>, l: Extent, r: Extent)
    requires s1 == [l, Extent(99, 5000, 1), r] && l == Extent(0, 1000, 99) && r == Extent(100, 1099, 100)
    ensures !TripsBug(s1, 99, 0) && Updated(s1, 99, 1099, 0) == [Extent(0, 1000, 100), r]
    ensures TripsBug([Extent(0, 1000, 100), r], 0, 0)
  {
    assert !s1[0].Covers(99) && s1[1..][0] == s1[1];
    assert Find(s1, 99) == 1 && RemoveAt(s1, 1) == [l, r];
    PlaceBetween(l, r, Extent(99, 1099, 1));
    var s2 := [Extent(0, 1000, 100), r];
    assert Find(s2, 0) == 0 && s2[1].fofs == s2[0].End() && s2[1].blk == s2[0].blk + s2[0].len - 1 + 0;
  }

  /** No extent of a well-formed list continues another. */
  lemma NoneMerge(s: seq<Extent>, i: nat, j: nat)
    requires WellFormed(s) && i < |s| && j < |s| && i != j
    ensures !Mergeable(s[i], s[j])
  {
    if i + 1 < j {
      assert s[i].End() <= s[i + 1].fofs && s[i + 1].len > 0 && s[i + 1].End() <= s[j].fofs;
    }
    if j < i {
      assert s[j].End() <= s[i].fofs && s[i].len > 0;
    }
  }

  /** The left part touches nothing that is left. */
  lemma LeftFits(s: seq<Extent>, i: nat, fofs: nat)
    requires WellFormed(s) && i < |s| && s[i].Covers(fofs) && fofs > s[i].fofs
    ensures var s0, x := RemoveAt(s, i), LeftPart(s[i], fofs);
            Apart(s0, x) && !MeetsMergeable(s0, x)
  {
    var s0, x := RemoveAt(s, i), LeftPart(s[i], fofs);
    forall k | 0 <= k < |s0|
      ensures (s0[k].End() <= x.fofs || x.End() <= s0[k].fofs) && !Mergeable(s0[k], x) && !Mergeable(x, s0[k])
    {
      var j := if k < i then k else k + 1;
      assert s0[k] == s[j] && s[j].len > 0;
      NoneMerge(s, j, i);
    }
  }

  /** What stands in the tree when the right part comes. */
  lemma LeftMembers(s: seq<Extent>, i: nat, fofs: nat)
    requires WellFormed(s) && i < |s| && s[i].Covers(fofs)
    ensures forall y :: y in WithLeft(RemoveAt(s, i), s[i], fofs) <==>
                        y in RemoveAt(s, i) || (KeepsLeft(s[i], fofs) && y == LeftPart(s[i], fofs))
  {
    if KeepsLeft(s[i], fofs) {
      LeftFits(s, i, fofs);
      PlainMembers(RemoveAt(s, i), LeftPart(s[i], fofs));
    }
  }

  /** Nothing of that meets the right part. */
  lemma RightFits(s: seq<Extent>, i: nat, fofs: nat, bias: nat)
    requires WellFormed(s) && i < |s| && s[i].Covers(fofs) && fofs + 1 < s[i].End()
    ensures Apart(WithLeft(RemoveAt(s, i), s[i], fofs), RightPart(s[i], fofs, bias))
  {
    var x, s1 := RightPart(s[i], fofs, bias), WithLeft(RemoveAt(s, i), s[i], fofs);
    LeftMembers(s, i, fofs);
    forall k | 0 <= k < |s1| ensures s1[k].End() <= x.fofs || x.End() <= s1[k].fofs {
      assert s1[k] in s1;
      RightApartOne(s, i, fofs, s1[k]);
    }
  }

  lemma RightApartOne(s: seq<Extent>, i: nat, fofs: nat, y: Extent)
    requires WellFormed(s) && i < |s| && s[i].Covers(fofs)
    requires y in RemoveAt(s, i) || (KeepsLeft(s[i], fofs) && y == LeftPart(s[i], fofs))
    ensures y.End() <= fofs + 1 || s[i].End() <= y.fofs
  {
    if y in RemoveAt(s, i) {
      var k :| 0 <= k < |RemoveAt(s, i)| && RemoveAt(s, i)[k] == y;
      assert s[if k < i then k else k + 1] == y;
    }
  }

  /** It merges with one of them exactly when the bug check says so. */
  lemma RightMeets(s: seq<Extent>, i: nat, fofs: nat, bias: nat)
    requires WellFormed(s) && i < |s| && i == Find(s, fofs) && KeepsRight(s[i], fofs)
    ensures MeetsMergeable(WithLeft(RemoveAt(s, i), s[i], fofs), RightPart(s[i], fofs, bias)) <==> TripsBug(s, fofs, bias)
  {
    var x, s1 := RightPart(s[i], fofs, bias), WithLeft(RemoveAt(s, i), s[i], fofs);
    LeftMembers(s, i, fofs);
    if MeetsMergeable(s1, x) {
      var k :| 0 <= k < |s1| && (Mergeable(s1[k], x) || Mergeable(x, s1[k]));
      assert s1[k] in s1;
      RightMeetsOne(s, i, fofs, bias, s1[k]);
    }
    if TripsBug(s, fofs, bias) {
      MetByRight(s, i, fofs, bias, s1);
    }
  }

  lemma MetByRight(s: seq<Extent>, i: nat, fofs: nat, bias: nat, s1: seq<Extent>)
    requires WellFormed(s) && i < |s| && i == Find(s, fofs) && TripsBug(s, fofs, bias)
    requires forall y :: y in RemoveAt(s, i) ==> y in s1
    ensures MeetsMergeable(s1, RightPart(s[i], fofs, bias))
  {
    var j :| 0 <= j < |s| && s[j].fofs == s[i].End() && s[j].blk == s[i].blk + s[i].len - 1 + bias;
    assert j != i;
    assert RemoveAt(s, i)[if j < i then j else j - 1] == s[j];
    assert s[j] in s1;
    var k :| 0 <= k < |s1| && s1[k] == s[j];
    assert Mergeable(RightPart(s[i], fofs, bias), s1[k]);
  }

  lemma RightMeetsOne(s: seq<Extent>, i: nat, fofs: nat, bias: nat, y: Extent)
    requires WellFormed(s) && i < |s| && i == Find(s, fofs) && KeepsRight(s[i], fofs)
    requires y in RemoveAt(s, i) || (KeepsLeft(s[i], fofs) && y == LeftPart(s[i], fofs))
    requires var x := RightPart(s[i], fofs, bias); Mergeable(y, x) || Mergeable(x, y)
    ensures TripsBug(s, fofs, bias)
  {
    if y in RemoveAt(s, i) {
      var k :| 0 <= k < |RemoveAt(s, i)| && RemoveAt(s, i)[k] == y;
      var j := if k < i then k else k + 1;
      assert s[j] == y && s[j].len > 0;
    }
  }

  /** An extent that merges with nothing is just added. */
  lemma PlainMembers(s: seq<Extent>, x: Extent)
    requires !MeetsMergeable(s, x)
    ensures forall y :: y in Insert(s, x) <==> y in s || y == x
  {
    var i := Place(s, x);
    assert Insert(s, x) == s[..i] + [x] + s[i..];
    assert s == s[..i] + s[i..];
  }

  /** The cut leaves room for fofs. */
  lemma HoleFree(s: seq<Extent>, fofs: nat, bias: nat, x: Extent)
    requires WellFormed(s) && x.fofs == fofs && x.len == 1
    ensures Apart(CutOut(s, fofs, bias), x)
  {
    CutOutGood(s, fofs, bias);
    forall o: nat, a: int ensures x.Covers(o) ==> !Caches(CutOut(s, fofs, bias), o, a) {
      CutClears(s, fofs, bias, a);
    }
    FreeRange(CutOut(s, fofs, bias), x);
  }

  /** Which side of node mid the place of x lies on, and where exactly if they merge. */
  lemma PlaceSide(s: seq<Extent>, x: Extent, mid: nat)
    requires WellFormed(s) && Apart(s, x) && x.len > 0 && mid < |s|
    ensures x.fofs < s[mid].fofs ==> Place(s, x) <= mid
    ensures x.fofs >= s[mid].fofs ==> Place(s, x) >= mid + 1 && s[mid].End() <= x.fofs
    ensures Mergeable(x, s[mid]) ==> Place(s, x) == mid
    ensures Mergeable(s[mid], x) ==> Place(s, x) == mid + 1
  {
    var i := Place(s, x);
    assert IsPlace(s, x, i) && s[mid].len > 0;
    assert i < mid ==> s[i].End() <= s[mid].fofs && s[i].len > 0;
    assert mid + 1 < |s| ==> s[mid].End() <= s[mid + 1].fofs && s[mid + 1].len > 0;
  }

  lemma FindUnique(s: seq<Extent>, fofs: nat, i: nat)
    requires Sorted(s) && i < |s| && s[i].Covers(fofs)
    ensures Find(s, fofs) == i
  {
  }

  lemma WithoutId(nodes: seq<Node>, i: nat)
    requires DistinctIds(nodes) && i < |nodes|
    ensures DistinctIds(nodes[..i] + nodes[i + 1..])
    ensures forall id :: HasId(nodes, id) && id != nodes[i].id ==> HasId(nodes[..i] + nodes[i + 1..], id)
  {
    var r := nodes[..i] + nodes[i + 1..];
    forall id | HasId(nodes, id) && id != nodes[i].id ensures HasId(r, id) {
      var k :| 0 <= k < |nodes| && nodes[k].id == id;
      assert r[if k < i then k else k - 1] == nodes[k];
    }
  }

  lemma SameIds(a: seq<Node>, b: seq<Node>)
    requires |a| == |b| && forall k :: 0 <= k < |a| ==> a[k].id == b[k].id
    ensures DistinctIds(a) ==> DistinctIds(b)
    ensures forall id :: HasId(a, id) ==> HasId(b, id)
  {
    forall id | HasId(a, id) ensures HasId(b, id) {
      var k :| 0 <= k < |a| && a[k].id == id;
      assert b[k].id == id;
    }
  }

  lemma PlainInfos(n: seq<Node>, i: nat, x: Node)
    requires i <= |n| && !MergesBack(Infos(n), i, x.ei) && !MergesFront(Infos(n), i, x.ei)
    ensures Infos(n[..i] + [x] + n[i..]) == InsertAt(Infos(n), i, x.ei)
  {
  }

  /** What MergeInFront leaves is what inserting at mid means, */
  lemma FrontInfos(n: seq<Node>, r: seq<Node>, mid: nat, ei: Extent)
    requires mid < |n| && Mergeable(ei, n[mid].ei)
    requires var y := Node(n[mid].id, Extent(ei.fofs, ei.blk, n[mid].ei.len + ei.len));
             if mid > 0 && Mergeable(n[mid - 1].ei, y.ei)
             then r == n[..mid - 1] + [Node(y.id, Extent(n[mid - 1].ei.fofs, n[mid - 1].ei.blk, y.ei.len + n[mid - 1].ei.len))] + n[mid + 1..]
             else r == n[mid := y]
    ensures Infos(r) == InsertAt(Infos(n), mid, ei)
  {
  }

  /** and what MergeBehind leaves is inserting after mid: the outcome does not
      depend on which neighbour the walk met first. */
  lemma BackInfos(n: seq<Node>, r: seq<Node>, mid: nat, ei: Extent)
    requires mid < |n| && Mergeable(n[mid].ei, ei)
    requires var y := Node(n[mid].id, n[mid].ei.(len := n[mid].ei.len + ei.len));
             if mid + 1 < |n| && Mergeable(y.ei, n[mid + 1].ei)
             then r == n[..mid] + [Node(y.id, y.ei.(len := y.ei.len + n[mid + 1].ei.len))] + n[mid + 2..]
             else r == n[mid := y]
    ensures Infos(r) == InsertAt(Infos(n), mid + 1, ei)
  {
  }
}
