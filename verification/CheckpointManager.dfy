/** do_checkpoint's writing of the pack and get_valid_checkpoint's reading of it,
    block by block (fs/f2fs/checkpoint.c). */
module CheckpointManager {
  import opened Options
  import opened Division
  import opened CheckpointPack
  import opened CheckpointCommit

  /** a with b written over it from start on. */
  function Over<T>(a: seq<T>, start: nat, b: seq<T>): seq<T>
    requires start + |b| <= |a|
  {
    a[..start] + b + a[start + |b|..]
  }

  lemma OverGrows<T>(a: seq<T>, start: nat, b: seq<T>, x: T)
    requires start + |b| < |a|
    ensures Over(a, start, b)[start + |b| := x] == Over(a, start, b + [x])
  {
  }

  /** Writing a whole pack in place is the finished case of a torn write. */
  lemma WholeWrite<N, S, E>(g: Geometry, area: seq<Block<N, S, E>>, c: Contents<N, S, E>)
    requires g.Valid() && c.Valid(g) && |area| == 2 * g.blocksPerSeg
    ensures g.Start(c.version) + |Pack(g, c)| <= |area|
    ensures Torn(g, area, c, |Pack(g, c)|, Over(area, g.Start(c.version), Pack(g, c)))
  {
    PackFits(g, c);
  }

  /** After now the pages for inos are still to come. */
  ghost predicate PagesLeft<N, S, E>(g: Geometry, now: seq<Block<N, S, E>>, inos: seq<nat>, index: nat, count: nat, goal: seq<Block<N, S, E>>)
    requires g.Valid()
  {
    now + OrphanPages<N, S, E>(g, inos, index, count) == goal
  }

  lemma FullPageLeft<N, S, E>(g: Geometry, now: seq<Block<N, S, E>>, page: seq<nat>, rest: seq<nat>, index: nat, count: nat, goal: seq<Block<N, S, E>>)
    requires g.Valid() && |page| == g.orphansPerBlock && PagesLeft(g, now, page + rest, index, count, goal)
    ensures PagesLeft(g, now + [OrphanPage(page, index, count)], rest, index + 1, count, goal)
    ensures |now| < |goal|
  {
    assert (page + rest)[..|page|] == page && (page + rest)[|page|..] == rest;
    assert rest == [] ==> page + rest == page;
    var p: Block<N, S, E> := OrphanPage(page, index, count);
    var more := OrphanPages<N, S, E>(g, rest, index + 1, count);
    assert OrphanPages<N, S, E>(g, page + rest, index, count) == [p] + more;
    assert (now + [p]) + more == now + ([p] + more);
  }

  /** A pack's parts in order, with the sizes that leave room for each. */
  lemma PackParts<N, S, E>(g: Geometry, c: Contents<N, S, E>)
    requires g.Valid() && c.Valid(g)
    ensures g.Start(c.version) + 2 + g.payload + |OrphanPages<N, S, E>(g, c.orphans, 1, g.NumOrphanBlocks(|c.orphans|))|
            + |DataPages(c)| + |c.nodeSums| <= 2 * g.blocksPerSeg
    ensures Pack(g, c) ==
            ([] + [CpBlock(HeadOf(g, c))]) + BitmapPages(g, c.sitSecond, g.payload)
            + OrphanPages(g, c.orphans, 1, g.NumOrphanBlocks(|c.orphans|))
            + DataPages(c) + NodePages(c.nodeSums) + [CpBlock(HeadOf(g, c))]
  {
    PackFits(g, c);
    PackRegions(g, c);
    OrphanPagesRead<N, S, E>(g, c.orphans, 1, g.NumOrphanBlocks(|c.orphans|));
    var head: Block<N, S, E> := CpBlock(HeadOf(g, c));
    assert [] + [head] == [head];
  }

  class CheckpointArea<N, S, E> {
    const g: Geometry
    const area: array<Block<N, S, E>>

    predicate Valid() { g.Valid() && area.Length == 2 * g.blocksPerSeg }

    constructor (g: Geometry, area: array<Block<N, S, E>>)
      requires g.Valid() && area.Length == 2 * g.blocksPerSeg
      ensures Valid() && this.g == g && this.area == area
    {
      this.g, this.area := g, area;
    }

    /** One block at start_blk, which moves on. */
    method Put(at: nat, b: Block<N, S, E>, ghost a0: seq<Block<N, S, E>>, ghost start: nat, ghost done: seq<Block<N, S, E>>)
      returns (next: nat, ghost now: seq<Block<N, S, E>>)
      requires Valid() && |a0| == area.Length && start + |done| == at < area.Length && area[..] == Over(a0, start, done)
      modifies area
      ensures next == at + 1 && now == done + [b]
      ensures start + |now| <= |a0| && area[..] == Over(a0, start, now)
    {
      area[at] := b;
      OverGrows(a0, start, done, b);
      next := at + 1;
      now := done + [b];
    }

    /** The payload pages, holding the SIT version bitmap. */
    method WritePayload(at: nat, bits: set<nat>, ghost a0: seq<Block<N, S, E>>, ghost start: nat, ghost done: seq<Block<N, S, E>>)
      returns (next: nat, ghost now: seq<Block<N, S, E>>)
      requires Valid() && |a0| == area.Length && start + |done| == at && at + g.payload <= area.Length
      requires area[..] == Over(a0, start, done)
      modifies area
      ensures now == done + BitmapPages<N, S, E>(g, bits, g.payload) && next == start + |now|
      ensures start + |now| <= |a0| && area[..] == Over(a0, start, now)
    {
      next, now := at, done;
      var i := 0;
      while i < g.payload
        invariant i <= g.payload && next == at + i == start + |now|
        invariant now == done + BitmapPages<N, S, E>(g, bits, i)
        invariant start + |now| <= |a0| && area[..] == Over(a0, start, now)
      {
        next, now := Put(next, BitmapPage(PageBits(g, bits, i)), a0, start, now);
        i := i + 1;
      }
    }

    /** write_orphan_inodes: a page is written when full, and the last one at the end. */
    method WriteOrphanInodes(at: nat, inos: seq<nat>, count: nat, ghost a0: seq<Block<N, S, E>>, ghost start: nat, ghost done: seq<Block<N, S, E>>)
      returns (next: nat, ghost now: seq<Block<N, S, E>>)
      requires Valid() && |a0| == area.Length && start + |done| == at
      requires at + |OrphanPages<N, S, E>(g, inos, 1, count)| <= area.Length
      requires area[..] == Over(a0, start, done)
      modifies area
      ensures now == done + OrphanPages<N, S, E>(g, inos, 1, count) && next == start + |now|
      ensures start + |now| <= |a0| && area[..] == Over(a0, start, now)
    {
      next, now := at, done;
      var index, page, i := 1, [], 0;
      ghost var goal := done + OrphanPages<N, S, E>(g, inos, 1, count);
      assert page + inos[i..] == inos;
      while i < |inos|
        invariant i <= |inos| && |page| < g.orphansPerBlock && start + |now| == next <= |a0|
        invariant PagesLeft(g, now, page + inos[i..], index, count, goal)
        invariant area[..] == Over(a0, start, now)
      {
        assert (page + [inos[i]]) + inos[i + 1..] == page + inos[i..];
        page := page + [inos[i]];
        i := i + 1;
        if |page| == g.orphansPerBlock {
          FullPageLeft(g, now, page, inos[i..], index, count, goal);
          next, now := Put(next, OrphanPage(page, index, count), a0, start, now);
          index := index + 1;
          page := [];
          assert page + inos[i..] == inos[i..];
        }
      }
      assert page + inos[i..] == page;
      if page != [] {
        next, now := Put(next, OrphanPage(page, index, count), a0, start, now);
      }
    }

    /** write_data_summaries / write_node_summaries, page by page. */
    method WritePages(at: nat, pages: seq<Block<N, S, E>>, ghost a0: seq<Block<N, S, E>>, ghost start: nat, ghost done: seq<Block<N, S, E>>)
      returns (next: nat, ghost now: seq<Block<N, S, E>>)
      requires Valid() && |a0| == area.Length && start + |done| == at && at + |pages| <= area.Length
      requires area[..] == Over(a0, start, done)
      modifies area
      ensures now == done + pages && next == start + |now|
      ensures start + |now| <= |a0| && area[..] == Over(a0, start, now)
    {
      next, now := at, done;
      var i := 0;
      while i < |pages|
        invariant i <= |pages| && next == at + i == start + |now| && now == done + pages[..i]
        invariant start + |now| <= |a0| && area[..] == Over(a0, start, now)
      {
        next, now := Put(next, pages[i], a0, start, now);
        i := i + 1;
      }
    }

    /** do_checkpoint: the whole pack lands in the segment of its version's parity,
        and nothing else is touched. */
    method DoCheckpoint(c: Contents<N, S, E>)
      requires Valid() && c.Valid(g)
      modifies area
      ensures g.Start(c.version) + |Pack(g, c)| <= area.Length
      ensures area[..] == Over(old(area[..]), g.Start(c.version), Pack(g, c))
    {
      PackParts(g, c);
      ghost var a0 := area[..];
      ghost var start := g.Start(c.version);
      ghost var done: seq<Block<N, S, E>> := [];
      var at := g.Start(c.version);
      var count := g.NumOrphanBlocks(|c.orphans|);
      at, done := Put(at, CpBlock(HeadOf(g, c)), a0, start, done);
      at, done := WritePayload(at, c.sitSecond, a0, start, done);
      at, done := WriteOrphanInodes(at, c.orphans, count, a0, start, done);
      at, done := WritePages(at, DataPages(c), a0, start, done);
      at, done := WritePages(at, NodePages<N, S, E>(c.nodeSums), a0, start, done);
      at, done := Put(at, CpBlock(HeadOf(g, c)), a0, start, done);
    }

    /** validate_checkpoint. */
    method ValidateCheckpoint(start: nat) returns (r: Option<Cp>)
      requires Valid()
      ensures r.Some? <==> PackValid(area[..], start)
      ensures r.Some? ==> r.value == At(area[..], start).cp
    {
      var head := At(area[..], start);
      if !head.CpBlock? {
        return None;
      }
      var foot := At(area[..], start + head.cp.total - 1);
      if !foot.CpBlock? {
        return None;
      }
      if foot.cp.version == head.cp.version {
        return Some(head.cp);
      }
      return None;
    }

    /** get_valid_checkpoint: on an area kept by checkpoints, however interrupted,
        it picks the current pack. */
    method GetValidCheckpoint(ghost cur: Contents<N, S, E>, ghost age: nat) returns (r: Option<nat>)
      requires Valid()
      ensures r == Chosen(g, area[..])
      ensures AreaOk(g, area[..], cur, age) ==> r == Some(g.Start(cur.version))
    {
      var cp1 := ValidateCheckpoint(0);
      var cp2 := ValidateCheckpoint(g.blocksPerSeg);
      if cp1.Some? && cp2.Some? {
        r := if VerAfter(cp2.value.version, cp1.value.version) then Some(g.blocksPerSeg) else Some(0);
      } else if cp1.Some? {
        r := Some(0);
      } else if cp2.Some? {
        r := Some(g.blocksPerSeg);
      } else {
        r := None;
      }
      if AreaOk(g, area[..], cur, age) {
        ChoosesCurrent(g, area[..], cur, age);
      }
    }

    /** write_checkpoint's version bump and pack: the area now stands for the new contents. */
    method WriteCheckpoint(c: Contents<N, S, E>, version: nat, ghost cur: Contents<N, S, E>, ghost age: nat)
      requires Valid() && AreaOk(g, area[..], cur, age) && version == cur.version && age + 1 < VERSIONS / 2
      requires c.(version := Next(version)).Valid(g)
      modifies area
      ensures AreaOk(g, area[..], c.(version := Next(version)), age + 1)
      ensures Mount(g, area[..]) == Some(c.(version := Next(version)))
    {
      var new_ := c.(version := Next(version));
      WholeWrite(g, area[..], new_);
      ghost var a0 := area[..];
      DoCheckpoint(new_);
      WholePackCommits(g, a0, cur, age, new_, area[..]);
      MountsCurrent(g, area[..], new_, age + 1);
    }
  }
}
