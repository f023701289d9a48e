/** Directories as multi-level hash tables of dentry blocks (fs/f2fs/dir.c), and the
    conversion from an inline directory (fs/f2fs/inline.c). */
module Directory {
  import opened Options
  import opened DirBlock

  /** maxDepth and maxBuckets are MAX_DIR_HASH_DEPTH and MAX_DIR_BUCKETS, slots is
      NR_DENTRY_IN_BLOCK, dirLevel is i_dir_level. */
  datatype DirGeo = DirGeo(maxDepth: nat, maxBuckets: nat, slots: nat, dirLevel: nat) {
    predicate Valid() { 0 < maxBuckets && 0 < maxDepth && 0 < slots }
  }

  function Pow2(n: nat): (r: nat)
    ensures r > 0
  {
    if n == 0 then 1 else 2 * Pow2(n - 1)
  }

  /** dir_buckets. */
  function Buckets(g: DirGeo, level: nat): (r: nat)
    requires g.Valid()
    ensures r > 0
  {
    if level + g.dirLevel < g.maxDepth / 2 then Pow2(level + g.dirLevel) else g.maxBuckets
  }

  /** bucket_blocks. */
  function BucketBlocks(g: DirGeo, level: nat): (r: nat)
    ensures r == 2 || r == 4
  {
    if level < g.maxDepth / 2 then 2 else 4
  }

  /** Where a level starts. */
  function LevelStart(g: DirGeo, level: nat): nat
    requires g.Valid()
  {
    if level == 0 then 0 else LevelStart(g, level - 1) + Buckets(g, level - 1) * BucketBlocks(g, level - 1)
  }

  /** dir_block_index. */
  function BlockIndex(g: DirGeo, level: nat, bucket: nat): nat
    requires g.Valid()
  {
    LevelStart(g, level) + bucket * BucketBlocks(g, level)
  }

  method DirBlockIndex(g: DirGeo, level: nat, bucket: nat) returns (bidx: nat)
    requires g.Valid()
    ensures bidx == BlockIndex(g, level, bucket)
  {
    bidx := 0;
    for i := 0 to level
      invariant bidx == LevelStart(g, i)
    {
      bidx := bidx + Buckets(g, i) * BucketBlocks(g, i);
    }
    bidx := bidx + bucket * BucketBlocks(g, level);
  }

  /** Block i belongs to this bucket of this level. */
  predicate InRange(g: DirGeo, level: nat, bucket: nat, i: nat)
    requires g.Valid()
  {
    BlockIndex(g, level, bucket) <= i < BlockIndex(g, level, bucket) + BucketBlocks(g, level)
  }

  /** Block i is one of those this hash may use at this level. */
  predicate HashRange(g: DirGeo, level: nat, hash: nat, i: nat)
    requires g.Valid()
  {
    InRange(g, level, hash % Buckets(g, level), i)
  }

  lemma Scaled(a: nat, b: nat, k: nat)
    requires a < b
    ensures a * k + k <= b * k
  {
    assert b * k == a * k + (b - a) * k;
    assert (b - a) * k >= k by { OneTimes(b - a, k); }
  }

  lemma OneTimes(a: nat, k: nat)
    requires a >= 1
    ensures a * k >= k
  {
  }

  lemma {:induction false} LevelsAscend(g: DirGeo, l: nat, m: nat)
    requires g.Valid() && l < m
    ensures LevelStart(g, l) + Buckets(g, l) * BucketBlocks(g, l) <= LevelStart(g, m)
  {
    if l + 1 < m {
      LevelsAscend(g, l, m - 1);
    }
  }

  /** The block ranges of distinct (level, bucket) pairs are disjoint. */
  lemma RangesDisjoint(g: DirGeo, l1: nat, b1: nat, l2: nat, b2: nat, i: nat)
    requires g.Valid() && b1 < Buckets(g, l1) && b2 < Buckets(g, l2)
    requires InRange(g, l1, b1, i) && InRange(g, l2, b2, i)
    ensures l1 == l2 && b1 == b2
  {
    Scaled(b1, Buckets(g, l1), BucketBlocks(g, l1));
    Scaled(b2, Buckets(g, l2), BucketBlocks(g, l2));
    if l1 < l2 {
      LevelsAscend(g, l1, l2);
    } else if l2 < l1 {
      LevelsAscend(g, l2, l1);
    } else if b1 < b2 {
      Scaled(b1, b2, BucketBlocks(g, l1));
    } else if b2 < b1 {
      Scaled(b2, b1, BucketBlocks(g, l1));
    }
  }

  // ----- what a directory holds -----

  datatype Loc = Loc(blk: nat, pos: nat)

  /** Some level below depth has block i in the bucket hash falls into. */
  ghost predicate InBucket(g: DirGeo, hash: nat, depth: nat, i: nat)
    requires g.Valid()
  {
    exists level :: 0 <= level < depth && HashRange(g, level, hash, i)
  }

  /** The blocks in use, where the entries in each start, and where each name is. */
  datatype Table = Table(blocks: map<nat, Block>, starts: map<nat, set<nat>>, where: map<Name, Loc>) {
    ghost predicate BlockOk(g: DirGeo, i: nat) {
      i in blocks && i in starts && blocks[i].Max() == g.slots && blocks[i].Holds(starts[i])
    }

    ghost predicate IsEntry(i: nat, p: nat) {
      i in blocks && i in starts && p in starts[i]
    }

    /** The entry at l has this name and hash. */
    ghost predicate IsAt(name: Name, hash: nat, l: Loc) {
      && IsEntry(l.blk, l.pos) && blocks[l.blk].Holds(starts[l.blk])
      && blocks[l.blk].NameAt(l.pos) == name && blocks[l.blk].dentry[l.pos].hash == hash
    }

    /** A listed name is where it is said to be, in a bucket of its hash. */
    ghost predicate NameOk(g: DirGeo, hash: Name -> nat, depth: nat, n: Name)
      requires g.Valid()
    {
      n in where && IsAt(n, hash(n), where[n]) && InBucket(g, hash(n), depth, where[n].blk)
    }

    /** An entry is listed under its name. */
    ghost predicate EntryOk(i: nat, p: nat) {
      && IsEntry(i, p) && blocks[i].Holds(starts[i])
      && blocks[i].NameAt(p) in where && where[blocks[i].NameAt(p)] == Loc(i, p)
    }

    ghost predicate Ok(g: DirGeo, hash: Name -> nat, depth: nat) {
      && g.Valid() && blocks.Keys == starts.Keys
      && (forall i :: i in blocks ==> BlockOk(g, i))
      && (forall n {:trigger NameOk(g, hash, depth, n)} :: n in where ==> NameOk(g, hash, depth, n))
      && (forall i: nat, p: nat {:trigger EntryOk(i, p)} :: IsEntry(i, p) ==> EntryOk(i, p))
    }

    /** The blocks and the listing agree, whichever blocks the names are in. */
    ghost predicate Sound(g: DirGeo, hash: Name -> nat) {
      && g.Valid() && blocks.Keys == starts.Keys
      && (forall i :: i in blocks ==> BlockOk(g, i))
      && (forall n :: n in where ==> IsAt(n, hash(n), where[n]))
      && (forall i: nat, p: nat {:trigger EntryOk(i, p)} :: IsEntry(i, p) ==> EntryOk(i, p))
    }

    function InoAt(l: Loc): nat {
      if l.blk in blocks && l.pos < |blocks[l.blk].dentry| then blocks[l.blk].dentry[l.pos].ino else 0
    }

    /** The name → inode map. */
    function Map(): map<Name, nat> { map n | n in where :: InoAt(where[n]) }
  }

  /** Every block of the name's bucket at this level is there and has no room. */
  ghost predicate Full(g: DirGeo, blocks: map<nat, Block>, level: nat, hash: nat, slots: nat)
    requires g.Valid()
  {
    forall i: nat :: HashRange(g, level, hash, i) ==>
      BlockFull(g, blocks, i, slots)
  }

  ghost predicate BlockFull(g: DirGeo, blocks: map<nat, Block>, i: nat, slots: nat) {
    i in blocks && forall p: nat :: p < g.slots ==> !blocks[i].FreeRun(p, slots)
  }

  /** No level below depth has block i in the bucket hash falls into. */
  ghost predicate NotBelow(g: DirGeo, hash: nat, depth: nat, i: nat)
    requires g.Valid()
  {
    forall level :: 0 <= level < depth ==> !HashRange(g, level, hash, i)
  }

  ghost predicate FullFrom(g: DirGeo, blocks: map<nat, Block>, lo: nat, hi: nat, hash: nat, slots: nat)
    requires g.Valid()
  {
    forall level :: lo <= level < hi ==> Full(g, blocks, level, hash, slots)
  }

  class Dir {
    const g: DirGeo
    const hash: Name -> nat
    var blocks: map<nat, Block>
    var depth: nat
    var chash: nat
    var clevel: nat
    ghost var starts: map<nat, set<nat>>
    ghost var where: map<Name, Loc>

    ghost function State(): Table
      reads this
    {
      Table(blocks, starts, where)
    }

    /** The level hint stays below the recorded depth. */
    ghost predicate Valid()
      reads this
    {
      State().Ok(g, hash, depth) && clevel < depth && depth <= g.maxDepth
    }

    /** The same, but names may be in blocks a lookup does not search. */
    ghost predicate Sound()
      reads this
    {
      State().Sound(g, hash) && clevel < depth && depth <= g.maxDepth
    }

    ghost function Map(): map<Name, nat>
      reads this
    {
      State().Map()
    }

    constructor (g: DirGeo, hash: Name -> nat)
      requires g.Valid()
      ensures Valid() && Map() == map[] && this.g == g && this.hash == hash
    {
      this.g, this.hash := g, hash;
      blocks, depth, chash, clevel, starts, where := map[], 1, 0, 0, map[], map[];
    }

    /** find_in_level: the entry if it is in this level's bucket; otherwise the hint
        remembers a level with room, unless it already stands for this hash. */
    method FindInLevel(level: nat, name: Name) returns (r: Option<Loc>)
      requires Sound() && level < depth
      modifies this`chash, this`clevel
      ensures Sound()
      ensures r.Some? ==> name in where && r.value == where[name] && HashRange(g, level, hash(name), r.value.blk)
      ensures r.None? && name in where ==> !HashRange(g, level, hash(name), where[name].blk)
    {
      r := None;
      var h := hash(name);
      var room := false;
      var bidx := DirBlockIndex(g, level, h % Buckets(g, level));
      var end := bidx + BucketBlocks(g, level);
      ghost var first := bidx;
      while bidx < end
        invariant first <= bidx <= end && r.None? && Sound()
        invariant name in where ==> !(first <= where[name].blk < bidx)
      {
        assert name in where ==> State().IsAt(name, hash(name), where[name]);
        if bidx !in blocks {
          room := true;
        } else {
          var pos, maxSlots := FindInBlock(bidx, name);
          if pos < g.slots {
            r := Some(Loc(bidx, pos));
            break;
          }
          if maxSlots >= Slots(|name|) {
            room := true;
          }
        }
        bidx := bidx + 1;
      }
      if r.None? && room && chash != h {
        chash, clevel := h, level;
      }
    }

    /** find_in_block: a name is found in the block it is listed in, and nowhere else. */
    method FindInBlock(i: nat, name: Name) returns (pos: nat, maxSlots: nat)
      requires Sound() && i in blocks
      ensures pos < g.slots ==> name in where && where[name] == Loc(i, pos)
      ensures pos >= g.slots && name in where ==> where[name].blk != i
    {
      assert State().BlockOk(g, i);
      pos, maxSlots := FindTargetDentry(blocks[i], name, hash(name), starts[i]);
      if pos < g.slots {
        assert State().IsEntry(i, pos) && State().EntryOk(i, pos);
      } else if name in where {
        assert State().IsAt(name, hash(name), where[name]);
      }
    }

    /** f2fs_find_entry finds exactly the listed names that are in a bucket of their hash
        at some level; in a valid directory these are all, so that it agrees with
        the name → inode map. */
    method FindEntry(name: Name) returns (r: Option<Loc>)
      requires Sound()
      modifies this`chash, this`clevel
      ensures Sound() && (old(Valid()) ==> Valid())
      ensures r == if name in where && InBucket(g, hash(name), depth, where[name].blk) then Some(where[name]) else None
      ensures old(Valid()) ==> r == if name in where then Some(where[name]) else None
      ensures r.Some? ==> State().IsAt(name, hash(name), r.value)
    {
      r := None;
      var level := 0;
      while level < depth
        invariant Sound() && level <= depth && r.None?
        invariant name in where ==> NotBelow(g, hash(name), level, where[name].blk)
      {
        r := FindInLevel(level, name);
        if r.Some? {
          break;
        }
        level := level + 1;
      }
      if name in where {
        assert State().IsAt(name, hash(name), where[name]);
        InBucketOrNot(g, hash(name), depth, where[name].blk);
        assert old(Valid()) ==> State().NameOk(g, hash, depth, name);
      }
      if r.None? && chash != hash(name) {
        chash, clevel := hash(name), level - 1;
      }
    }

    /** get_new_data_page: a hole becomes an empty block. */
    method GetNewDataPage(i: nat)
      requires Valid()
      modifies this`blocks, this`starts
      ensures Valid() && Map() == old(Map()) && i in blocks
      ensures forall j :: j in old(blocks) ==> j in blocks && blocks[j] == old(blocks)[j]
    {
      if i !in blocks {
        NewBlockKeeps(State(), g, hash, depth, i);
        blocks := blocks[i := EmptyBlock(g.slots)];
        starts := starts[i := {}];
      }
    }

    /** The search of one level for room, making blocks as it goes. */
    method RoomInLevel(level: nat, h: nat, slots: nat) returns (found: bool, i: nat, pos: nat)
      requires Valid() && slots > 0
      modifies this`blocks, this`starts
      ensures Valid() && Map() == old(Map())
      ensures forall j :: j in old(blocks) ==> j in blocks && blocks[j] == old(blocks)[j]
      ensures found ==> HashRange(g, level, h, i) && i in blocks && pos < g.slots && blocks[i].FreeRun(pos, slots)
      ensures !found ==> Full(g, blocks, level, h, slots)
    {
      i := DirBlockIndex(g, level, h % Buckets(g, level));
      ghost var first := i;
      var end := i + BucketBlocks(g, level);
      while i < end
        invariant first <= i <= end
        invariant Valid() && Map() == old(Map())
        invariant forall j :: j in old(blocks) ==> j in blocks && blocks[j] == old(blocks)[j]
        invariant forall j :: first <= j < i ==> BlockFull(g, blocks, j, slots)
      {
        ghost var before := blocks;
        GetNewDataPage(i);
        forall j | first <= j < i ensures BlockFull(g, blocks, j, slots) {
          assert BlockFull(g, before, j, slots);
        }
        assert State().BlockOk(g, i);
        pos := RoomForFilename(blocks[i], slots);
        if pos < g.slots {
          return true, i, pos;
        }
        i := i + 1;
      }
      found, pos := false, 0;
    }

    /** f2fs_update_dentry in its block, and update_parent_metadata's depth. */
    method AddDentry(i: nat, pos: nat, name: Name, ino: nat, newDepth: nat, ghost level: nat)
      requires Valid() && |name| > 0 && name !in where
      requires i in blocks && pos < g.slots && blocks[i].FreeRun(pos, Slots(|name|))
      requires level < newDepth && depth <= newDepth <= g.maxDepth && HashRange(g, level, hash(name), i)
      modifies this`blocks, this`starts, this`where, this`depth
      ensures Valid() && Map() == old(Map())[name := ino] && depth == newDepth
    {
      assert State().BlockOk(g, i);
      AddKeeps(State(), g, hash, depth, i, pos, name, ino, newDepth);
      blocks := blocks[i := Added(blocks[i], pos, name, hash(name), ino)];
      starts := starts[i := starts[i] + {pos}];
      where := where[name := Loc(i, pos)];
      if depth != newDepth {
        depth := newDepth;
      }
    }

    /** __f2fs_add_link, for a name the caller has looked up and not found. The entry
        goes below the new depth; it fails only at full depth or when the name's
        buckets are full at every level from the one it started at. */
    method AddLink(name: Name, ino: nat) returns (ok: bool)
      requires Valid() && |name| > 0 && name !in Map()
      modifies this
      ensures Valid() && depth >= old(depth)
      ensures Map() == if ok then old(Map())[name := ino] else old(Map())
      ensures !ok ==> old(depth) == g.maxDepth ||
                      FullFrom(g, blocks, if old(chash) == hash(name) then old(clevel) else 0, g.maxDepth, hash(name), Slots(|name|))
    {
      SlotsPositive(|name|);
      var h := hash(name);
      var level, currentDepth := 0, depth;
      if chash == h {
        level, chash := clevel, 0;
      }
      ghost var first := level;
      while true
        invariant first <= level <= currentDepth <= g.maxDepth && old(depth) == depth <= currentDepth
        invariant currentDepth == old(depth) || currentDepth == level
        invariant Valid() && Map() == old(Map())
        invariant FullFrom(g, blocks, first, level, h, Slots(|name|))
        decreases g.maxDepth - level
      {
        if currentDepth == g.maxDepth {
          return false;
        }
        if level == currentDepth {
          currentDepth := currentDepth + 1;
        }
        ghost var before := blocks;
        var found, i, pos := RoomInLevel(level, h, Slots(|name|));
        if found {
          AddDentry(i, pos, name, ino, currentDepth, level);
          return true;
        }
        StillFull(g, before, blocks, first, level, h, Slots(|name|));
        level := level + 1;
      }
    }

    /** f2fs_delete_entry, for an entry found before. Its block is freed exactly if no entry
        is left in it, and otherwise loses the entry; no other block changes. */
    method DeleteEntry(l: Loc, ghost name: Name)
      requires Valid() && name in where && where[name] == l
      modifies this`blocks, this`starts, this`where
      ensures Valid() && Map() == old(Map()) - {name}
      ensures l.blk in old(blocks) && l.blk in old(starts) && old(blocks)[l.blk].Shape() && l.pos < old(blocks)[l.blk].Max()
      ensures blocks == if old(starts)[l.blk] == {l.pos} then old(blocks) - {l.blk}
                        else old(blocks)[l.blk := Deleted(old(blocks)[l.blk], l.pos)]
    {
      assert State().NameOk(g, hash, depth, name) && State().BlockOk(g, l.blk);
      DeleteKeeps(State(), g, hash, depth, name, l);
      ghost var left := starts[l.blk] - {l.pos};
      var b := Deleted(blocks[l.blk], l.pos);
      blocks := blocks[l.blk := b];
      starts := starts[l.blk := left];
      where := where - {name};
      FreeIfEmpty(l.blk, b);
    }

    /** A block without entries is freed. */
    method FreeIfEmpty(i: nat, b: Block)
      requires Valid() && i in blocks && i in starts && blocks[i] == b
      modifies this`blocks, this`starts
      ensures Valid() && Map() == old(Map())
      ensures blocks == if old(starts)[i] == {} then old(blocks) - {i} else old(blocks)
    {
      assert State().BlockOk(g, i);
      EmptyIffNoStart(b, starts[i]);
      var pos := FindNext(b.bits, true, 0);
      if pos == g.slots {
        DropEmptyBlock(i, b);
      }
    }

    /** truncate_hole on a block without entries. */
    method DropEmptyBlock(i: nat, b: Block)
      requires Valid() && i in blocks && blocks[i] == b && forall k :: 0 <= k < |b.bits| ==> !b.bits[k]
      modifies this`blocks, this`starts
      ensures Valid() && Map() == old(Map()) && blocks == old(blocks) - {i}
    {
      assert State().BlockOk(g, i);
      EmptyIffNoStart(b, starts[i]);
      DropBlockKeeps(State(), g, hash, depth, i);
      blocks := blocks - {i};
      starts := starts - {i};
    }

    /** f2fs_convert_inline_dir on a directory without blocks: every entry goes to block 0.
        The listing is the inline one, and the directory is valid, so that lookups
        agree with it, exactly if each hash falls into the first bucket of level 0. */
    method ConvertInlineDir(inline: Block, ghost s: set<nat>, ghost w: map<Name, Loc>)
      requires Valid() && blocks == map[] && InlineOk(hash, inline, s, w) && inline.Max() <= g.slots
      modifies this`blocks, this`starts, this`where
      ensures Sound() && where == w && Map() == Table(map[0 := inline], map[0 := s], w).Map()
      ensures forall n :: n in w ==> where[n].blk == 0
      ensures Valid() <==> forall n :: n in w ==> hash(n) % Buckets(g, 0) == 0
    {
      ConvertedSound(g, hash, inline, s, w);
      ConversionRightIff(g, hash, inline, depth, s, w);
      blocks := map[0 := Extended(inline, g.slots)];
      starts := map[0 := s];
      where := w;
    }
  }

  // ----- the steps keep the directory -----

  /** What was at l still is. */
  ghost predicate SameAt(t: Table, r: Table, l: Loc) {
    && r.IsEntry(l.blk, l.pos) && t.IsEntry(l.blk, l.pos)
    && r.blocks[l.blk].Holds(r.starts[l.blk]) && t.blocks[l.blk].Holds(t.starts[l.blk])
    && r.blocks[l.blk].NameAt(l.pos) == t.blocks[l.blk].NameAt(l.pos)
    && r.blocks[l.blk].dentry[l.pos] == t.blocks[l.blk].dentry[l.pos]
  }

  lemma NewBlockKeeps(t: Table, g: DirGeo, hash: Name -> nat, depth: nat, i: nat)
    requires t.Ok(g, hash, depth) && i !in t.blocks
    ensures var r := Table(t.blocks[i := EmptyBlock(g.slots)], t.starts[i := {}], t.where);
            r.Ok(g, hash, depth) && r.Map() == t.Map()
  {
    var r := Table(t.blocks[i := EmptyBlock(g.slots)], t.starts[i := {}], t.where);
    forall j | j in r.blocks ensures r.BlockOk(g, j) {
      assert j != i ==> t.BlockOk(g, j);
    }
    forall n {:trigger r.NameOk(g, hash, depth, n)} | n in r.where
      ensures r.NameOk(g, hash, depth, n) && SameAt(t, r, r.where[n])
    {
      assert t.NameOk(g, hash, depth, n);
    }
    forall j: nat, p: nat {:trigger r.EntryOk(j, p)} | r.IsEntry(j, p) ensures r.EntryOk(j, p) {
      assert t.IsEntry(j, p) && t.EntryOk(j, p);
    }
  }

  function AddedTable(t: Table, hash: Name -> nat, i: nat, pos: nat, name: Name, ino: nat): Table
    requires i in t.blocks && i in t.starts && t.blocks[i].Shape() && |name| > 0 && pos + Slots(|name|) <= t.blocks[i].Max()
  {
    Table(t.blocks[i := Added(t.blocks[i], pos, name, hash(name), ino)],
          t.starts[i := t.starts[i] + {pos}],
          t.where[name := Loc(i, pos)])
  }

  /** What adding name in a free run of block i asks for. */
  ghost predicate CanAdd(t: Table, g: DirGeo, hash: Name -> nat, depth: nat, i: nat, pos: nat, name: Name) {
    && t.Ok(g, hash, depth) && t.BlockOk(g, i) && |name| > 0 && name !in t.where
    && pos < g.slots && t.blocks[i].FreeRun(pos, Slots(|name|))
  }

  lemma AddedSame(t: Table, g: DirGeo, hash: Name -> nat, depth: nat, i: nat, pos: nat, name: Name, ino: nat, l: Loc)
    requires CanAdd(t, g, hash, depth, i, pos, name) && t.IsEntry(l.blk, l.pos)
    ensures SameAt(t, AddedTable(t, hash, i, pos, name, ino), l) && l != Loc(i, pos)
  {
    assert t.BlockOk(g, l.blk);
    AddedHolds(t.blocks[i], t.starts[i], pos, name, hash(name), ino);
  }

  lemma AddedName(t: Table, g: DirGeo, hash: Name -> nat, depth: nat, i: nat, pos: nat, name: Name, ino: nat, newDepth: nat, n: Name)
    requires CanAdd(t, g, hash, depth, i, pos, name) && depth <= newDepth && InBucket(g, hash(name), newDepth, i)
    requires n in t.where || n == name
    ensures var r := AddedTable(t, hash, i, pos, name, ino);
            r.NameOk(g, hash, newDepth, n) && r.InoAt(r.where[n]) == if n == name then ino else t.InoAt(t.where[n])
  {
    if n == name {
      AddedHolds(t.blocks[i], t.starts[i], pos, name, hash(name), ino);
    } else {
      assert t.NameOk(g, hash, depth, n);
      AddedSame(t, g, hash, depth, i, pos, name, ino, t.where[n]);
      DeeperBucket(g, hash(n), depth, newDepth, t.where[n].blk);
    }
  }

  lemma AddedEntry(t: Table, g: DirGeo, hash: Name -> nat, depth: nat, i: nat, pos: nat, name: Name, ino: nat, j: nat, p: nat)
    requires CanAdd(t, g, hash, depth, i, pos, name)
    requires AddedTable(t, hash, i, pos, name, ino).IsEntry(j, p)
    ensures AddedTable(t, hash, i, pos, name, ino).EntryOk(j, p)
  {
    if j == i && p == pos {
      AddedHolds(t.blocks[i], t.starts[i], pos, name, hash(name), ino);
    } else {
      assert t.IsEntry(j, p) && t.EntryOk(j, p);
      AddedSame(t, g, hash, depth, i, pos, name, ino, Loc(j, p));
    }
  }

  lemma AddedBlock(t: Table, g: DirGeo, hash: Name -> nat, depth: nat, i: nat, pos: nat, name: Name, ino: nat, j: nat)
    requires CanAdd(t, g, hash, depth, i, pos, name) && j in t.blocks
    ensures AddedTable(t, hash, i, pos, name, ino).BlockOk(g, j)
  {
    assert t.BlockOk(g, j);
    AddedHolds(t.blocks[i], t.starts[i], pos, name, hash(name), ino);
  }

  lemma AddedOk(t: Table, g: DirGeo, hash: Name -> nat, depth: nat, i: nat, pos: nat, name: Name, ino: nat, newDepth: nat)
    requires CanAdd(t, g, hash, depth, i, pos, name) && depth <= newDepth && InBucket(g, hash(name), newDepth, i)
    ensures AddedTable(t, hash, i, pos, name, ino).Ok(g, hash, newDepth)
  {
    var r := AddedTable(t, hash, i, pos, name, ino);
    forall j | j in r.blocks ensures r.BlockOk(g, j) {
      AddedBlock(t, g, hash, depth, i, pos, name, ino, j);
    }
    forall n {:trigger r.NameOk(g, hash, newDepth, n)} | n in r.where ensures r.NameOk(g, hash, newDepth, n) {
      AddedName(t, g, hash, depth, i, pos, name, ino, newDepth, n);
    }
    forall j: nat, p: nat {:trigger r.EntryOk(j, p)} | r.IsEntry(j, p) ensures r.EntryOk(j, p) {
      AddedEntry(t, g, hash, depth, i, pos, name, ino, j, p);
    }
  }

  lemma AddKeeps(t: Table, g: DirGeo, hash: Name -> nat, depth: nat, i: nat, pos: nat, name: Name, ino: nat, newDepth: nat)
    requires CanAdd(t, g, hash, depth, i, pos, name) && depth <= newDepth && InBucket(g, hash(name), newDepth, i)
    ensures var r := AddedTable(t, hash, i, pos, name, ino);
            r.Ok(g, hash, newDepth) && r.Map() == t.Map()[name := ino]
  {
    AddedOk(t, g, hash, depth, i, pos, name, ino, newDepth);
    var m, n := AddedTable(t, hash, i, pos, name, ino).Map(), t.Map()[name := ino];
    forall k | k in m ensures k in n && m[k] == n[k] {
      AddedName(t, g, hash, depth, i, pos, name, ino, newDepth, k);
    }
  }

  lemma InBucketOrNot(g: DirGeo, hash: nat, depth: nat, i: nat)
    requires g.Valid()
    ensures InBucket(g, hash, depth, i) <==> !NotBelow(g, hash, depth, i)
  {
  }

  lemma DeeperBucket(g: DirGeo, hash: nat, d1: nat, d2: nat, i: nat)
    requires g.Valid() && InBucket(g, hash, d1, i) && d1 <= d2
    ensures InBucket(g, hash, d2, i)
  {
  }

  function DeletedTable(t: Table, name: Name, d: Loc): Table
    requires d.blk in t.blocks && d.blk in t.starts && t.blocks[d.blk].Shape() && d.pos < t.blocks[d.blk].Max()
  {
    Table(t.blocks[d.blk := Deleted(t.blocks[d.blk], d.pos)], t.starts[d.blk := t.starts[d.blk] - {d.pos}], t.where - {name})
  }

  ghost predicate CanDelete(t: Table, g: DirGeo, hash: Name -> nat, depth: nat, name: Name, d: Loc) {
    && t.Ok(g, hash, depth) && name in t.where && t.where[name] == d
    && t.NameOk(g, hash, depth, name) && t.BlockOk(g, d.blk)
  }

  lemma DeletedSame(t: Table, g: DirGeo, hash: Name -> nat, depth: nat, name: Name, d: Loc, l: Loc)
    requires CanDelete(t, g, hash, depth, name, d) && t.IsEntry(l.blk, l.pos) && l != d
    ensures d.pos < g.slots && SameAt(t, DeletedTable(t, name, d), l)
  {
    assert t.BlockOk(g, l.blk);
    DeletedHolds(t.blocks[d.blk], t.starts[d.blk], d.pos);
  }

  lemma DeletedName(t: Table, g: DirGeo, hash: Name -> nat, depth: nat, name: Name, d: Loc, n: Name)
    requires CanDelete(t, g, hash, depth, name, d) && n in t.where && n != name
    ensures d.pos < g.slots
    ensures var r := DeletedTable(t, name, d);
            r.NameOk(g, hash, depth, n) && r.InoAt(r.where[n]) == t.InoAt(t.where[n])
  {
    assert t.NameOk(g, hash, depth, n);
    DeletedSame(t, g, hash, depth, name, d, t.where[n]);
  }

  lemma DeletedEntry(t: Table, g: DirGeo, hash: Name -> nat, depth: nat, name: Name, d: Loc, j: nat, p: nat)
    requires CanDelete(t, g, hash, depth, name, d) && t.IsEntry(j, p) && Loc(j, p) != d
    ensures d.pos < g.slots && DeletedTable(t, name, d).EntryOk(j, p)
  {
    assert t.EntryOk(j, p);
    DeletedSame(t, g, hash, depth, name, d, Loc(j, p));
  }

  lemma DeletedOk(t: Table, g: DirGeo, hash: Name -> nat, depth: nat, name: Name, d: Loc)
    requires CanDelete(t, g, hash, depth, name, d)
    ensures d.pos < g.slots
    ensures DeletedTable(t, name, d).Ok(g, hash, depth) && DeletedTable(t, name, d).BlockOk(g, d.blk)
  {
    DeletedHolds(t.blocks[d.blk], t.starts[d.blk], d.pos);
    var r := DeletedTable(t, name, d);
    forall j | j in r.blocks ensures r.BlockOk(g, j) {
      assert t.BlockOk(g, j);
    }
    forall n {:trigger r.NameOk(g, hash, depth, n)} | n in r.where ensures r.NameOk(g, hash, depth, n) {
      DeletedName(t, g, hash, depth, name, d, n);
    }
    forall j: nat, p: nat {:trigger r.EntryOk(j, p)} | r.IsEntry(j, p) ensures r.EntryOk(j, p) {
      DeletedEntry(t, g, hash, depth, name, d, j, p);
    }
  }

  lemma DeleteKeeps(t: Table, g: DirGeo, hash: Name -> nat, depth: nat, name: Name, d: Loc)
    requires CanDelete(t, g, hash, depth, name, d)
    ensures d.pos < g.slots
    ensures var r := DeletedTable(t, name, d);
            r.Ok(g, hash, depth) && r.BlockOk(g, d.blk) && r.Map() == t.Map() - {name}
  {
    DeletedOk(t, g, hash, depth, name, d);
    var m, n := DeletedTable(t, name, d).Map(), t.Map() - {name};
    forall k | k in m ensures k in n && m[k] == n[k] {
      DeletedName(t, g, hash, depth, name, d, k);
    }
  }

  lemma DroppedSame(t: Table, g: DirGeo, hash: Name -> nat, depth: nat, i: nat, n: Name)
    requires t.Ok(g, hash, depth) && i in t.blocks && t.starts[i] == {} && n in t.where
    ensures var r := Table(t.blocks - {i}, t.starts - {i}, t.where);
            r.NameOk(g, hash, depth, n) && r.InoAt(r.where[n]) == t.InoAt(t.where[n])
  {
    assert t.NameOk(g, hash, depth, n);
  }

  lemma DropBlockKeeps(t: Table, g: DirGeo, hash: Name -> nat, depth: nat, i: nat)
    requires t.Ok(g, hash, depth) && i in t.blocks && t.starts[i] == {}
    ensures var r := Table(t.blocks - {i}, t.starts - {i}, t.where); r.Ok(g, hash, depth) && r.Map() == t.Map()
  {
    var r := Table(t.blocks - {i}, t.starts - {i}, t.where);
    forall j | j in r.blocks ensures r.BlockOk(g, j) {
      assert t.BlockOk(g, j);
    }
    forall n {:trigger r.NameOk(g, hash, depth, n)} | n in r.where
      ensures r.NameOk(g, hash, depth, n) && r.InoAt(r.where[n]) == t.InoAt(t.where[n])
    {
      DroppedSame(t, g, hash, depth, i, n);
    }
    forall j: nat, p: nat {:trigger r.EntryOk(j, p)} | r.IsEntry(j, p) ensures r.EntryOk(j, p) {
      assert t.IsEntry(j, p) && t.EntryOk(j, p);
    }
    var m, k := r.Map(), t.Map();
    forall n | n in m ensures n in k && m[n] == k[n] {
      DroppedSame(t, g, hash, depth, i, n);
    }
  }

  lemma StillFull(g: DirGeo, before: map<nat, Block>, after: map<nat, Block>, lo: nat, hi: nat, hash: nat, slots: nat)
    requires g.Valid() && FullFrom(g, before, lo, hi, hash, slots)
    requires forall j :: j in before ==> j in after && after[j] == before[j]
    ensures FullFrom(g, after, lo, hi, hash, slots)
  {
    forall level | lo <= level < hi ensures Full(g, after, level, hash, slots) {
      assert Full(g, before, level, hash, slots);
    }
  }

  // ----- inline directories -----

  /** An inline directory is one block, with no buckets. */
  ghost predicate InlineOk(hash: Name -> nat, b: Block, s: set<nat>, w: map<Name, Loc>) {
    var t := Table(map[0 := b], map[0 := s], w);
    && b.Holds(s)
    && (forall n :: n in w ==> t.IsAt(n, hash(n), w[n]))
    && (forall p :: p in s ==> t.EntryOk(0, p))
  }

  /** The bitmap, dentries and names of b copied to the start of a zeroed block. */
  function Extended(b: Block, max: nat): (r: Block)
    requires b.Shape() && b.Max() <= max
    ensures r.Shape() && r.Max() == max
  {
    var e := EmptyBlock(max);
    Block(b.bits + e.bits[b.Max()..], b.dentry + e.dentry[b.Max()..], b.filename + e.filename[SLOT_LEN * b.Max()..])
  }

  lemma ExtendedHolds(b: Block, max: nat, s: set<nat>)
    requires b.Holds(s) && b.Max() <= max
    ensures Extended(b, max).Holds(s)
    ensures forall p :: p in s ==> Extended(b, max).dentry[p] == b.dentry[p] && Extended(b, max).NameAt(p) == b.NameAt(p)
  {
    var r := Extended(b, max);
    forall p | p in s ensures r.Run(p) && r.dentry[p] == b.dentry[p] && r.NameAt(p) == b.NameAt(p) {
      assert b.Run(p);
      NameFits(p, b.dentry[p].nameLen, b.Max());
    }
    forall k | 0 <= k < r.Max() && r.bits[k] ensures r.InSome(s, k) {
      assert b.InSome(s, k);
      var p :| p in s && p < b.Max() && p <= k < b.RunEnd(p);
      assert r.RunEnd(p) == b.RunEnd(p);
    }
  }

  /** Block 0 belongs to the first bucket of level 0 and to nothing else. */
  lemma BlockZero(g: DirGeo, hash: nat, depth: nat)
    requires g.Valid() && depth > 0
    ensures InBucket(g, hash, depth, 0) <==> hash % Buckets(g, 0) == 0
  {
    if hash % Buckets(g, 0) == 0 {
      assert HashRange(g, 0, hash, 0);
    }
    forall level | 0 <= level < depth && HashRange(g, level, hash, 0)
      ensures hash % Buckets(g, 0) == 0
    {
      assert InRange(g, 0, 0, 0);
      RangesDisjoint(g, level, hash % Buckets(g, level), 0, 0, 0);
    }
  }

  lemma ConvertedSame(g: DirGeo, hash: Name -> nat, b: Block, s: set<nat>, w: map<Name, Loc>, p: nat)
    requires InlineOk(hash, b, s, w) && b.Max() <= g.slots && p in s
    ensures SameAt(Table(map[0 := b], map[0 := s], w), Table(map[0 := Extended(b, g.slots)], map[0 := s], w), Loc(0, p))
  {
    ExtendedHolds(b, g.slots, s);
  }

  lemma ConvertedSound(g: DirGeo, hash: Name -> nat, b: Block, s: set<nat>, w: map<Name, Loc>)
    requires g.Valid() && InlineOk(hash, b, s, w) && b.Max() <= g.slots
    ensures var t := Table(map[0 := Extended(b, g.slots)], map[0 := s], w);
            t.Sound(g, hash) && t.Map() == Table(map[0 := b], map[0 := s], w).Map() && forall n :: n in w ==> w[n].blk == 0
  {
    ExtendedHolds(b, g.slots, s);
    var t0, t := Table(map[0 := b], map[0 := s], w), Table(map[0 := Extended(b, g.slots)], map[0 := s], w);
    forall n | n in w ensures t.IsAt(n, hash(n), w[n]) && SameAt(t0, t, w[n]) && w[n].blk == 0 {
      assert t0.IsAt(n, hash(n), w[n]);
      ConvertedSame(g, hash, b, s, w, w[n].pos);
    }
    forall j: nat, p: nat {:trigger t.EntryOk(j, p)} | t.IsEntry(j, p) ensures t.EntryOk(j, p) {
      assert t0.EntryOk(0, p);
      ConvertedSame(g, hash, b, s, w, p);
    }
  }

  lemma ConvertedOk(g: DirGeo, hash: Name -> nat, b: Block, depth: nat, s: set<nat>, w: map<Name, Loc>)
    requires g.Valid() && InlineOk(hash, b, s, w) && b.Max() <= g.slots && depth > 0
    requires forall n :: n in w ==> hash(n) % Buckets(g, 0) == 0
    ensures var t := Table(map[0 := Extended(b, g.slots)], map[0 := s], w);
            t.Ok(g, hash, depth) && t.Map() == Table(map[0 := b], map[0 := s], w).Map()
  {
    ExtendedHolds(b, g.slots, s);
    var t0, t := Table(map[0 := b], map[0 := s], w), Table(map[0 := Extended(b, g.slots)], map[0 := s], w);
    forall n {:trigger t.NameOk(g, hash, depth, n)} | n in w
      ensures t.NameOk(g, hash, depth, n) && SameAt(t0, t, w[n])
    {
      assert t0.IsAt(n, hash(n), w[n]);
      ConvertedSame(g, hash, b, s, w, w[n].pos);
      BlockZero(g, hash(n), depth);
    }
    forall j: nat, p: nat {:trigger t.EntryOk(j, p)} | t.IsEntry(j, p) ensures t.EntryOk(j, p) {
      assert t0.EntryOk(0, p);
      ConvertedSame(g, hash, b, s, w, p);
    }
  }

  /** Conversion leaves every entry where a lookup will find it exactly when the hash
      of each falls into the first bucket of level 0; */
  lemma ConversionRightIff(g: DirGeo, hash: Name -> nat, b: Block, depth: nat, s: set<nat>, w: map<Name, Loc>)
    requires g.Valid() && InlineOk(hash, b, s, w) && b.Max() <= g.slots && depth > 0
    ensures Table(map[0 := Extended(b, g.slots)], map[0 := s], w).Ok(g, hash, depth) <==>
              forall n :: n in w ==> hash(n) % Buckets(g, 0) == 0
  {
    var t := Table(map[0 := Extended(b, g.slots)], map[0 := s], w);
    if forall n :: n in w ==> hash(n) % Buckets(g, 0) == 0 {
      ConvertedOk(g, hash, b, depth, s, w);
    }
    if t.Ok(g, hash, depth) {
      forall n | n in w ensures hash(n) % Buckets(g, 0) == 0 {
        assert t.NameOk(g, hash, depth, n);
        BlockZero(g, hash(n), depth);
      }
    }
  }

  /** so always when i_dir_level is 0, */
  lemma OneBucketAtLevelZero(g: DirGeo, hash: nat)
    requires g.Valid() && g.dirLevel == 0 && g.maxDepth >= 2
    ensures hash % Buckets(g, 0) == 0
  {
  }

  /** and not when i_dir_level is 1 and an entry's hash is odd: block 0 is in none of that
      hash's buckets, so FindEntry does not find the entry, though it is listed. */
  lemma ConversionLosesOdd(g: DirGeo, hash: nat, depth: nat)
    requires g.Valid() && g.dirLevel == 1 && g.maxDepth >= 4 && depth > 0 && hash % 2 == 1
    ensures !InBucket(g, hash, depth, 0)
  {
    assert Pow2(1) == 2 * Pow2(0);
    BlockZero(g, hash, depth);
  }

  /** The failing run: after converting such a directory the lookup misses the name. */
  method LookupAfterConversion(d: Dir, inline: Block, ghost s: set<nat>, ghost w: map<Name, Loc>, name: Name) returns (r: Option<Loc>)
    requires d.Valid() && d.blocks == map[] && InlineOk(d.hash, inline, s, w) && inline.Max() <= d.g.slots
    requires d.g.dirLevel == 1 && d.g.maxDepth >= 4 && name in w && d.hash(name) % 2 == 1
    modifies d
    ensures name in d.Map() && r == None
  {
    d.ConvertInlineDir(inline, s, w);
    ConversionLosesOdd(d.g, d.hash(name), d.depth);
    r := d.FindEntry(name);
  }
}
