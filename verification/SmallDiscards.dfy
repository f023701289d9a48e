/** The small discards of a checkpoint over all dirty segments (flush_sit_entries and
    add_discard_addrs, fs/f2fs/segment.c): what is collected is what the segment model
    allows a checkpoint to discard. */
module SmallDiscards {
  import opened SegmentState
  import opened SegmentInvariant
  import opened Division
  import opened BitSearch
  import opened FreeOffsets
  import Runs = SegmentRuns
  import D = Discard

  /** The a-th block of the main area. */
  function BlockAt(bps: nat, a: nat): Addr
    requires 0 < bps
  {
    Blk(a / bps, a % bps)
  }

  function BlocksFrom(bps: nat, a: nat, n: nat): (r: set<Addr>)
    requires 0 < bps
    ensures forall b :: b in r ==> exists k: nat :: a <= k < a + n && b == BlockAt(bps, k)
  {
    if n == 0 then {} else BlocksFrom(bps, a, n - 1) + {BlockAt(bps, a + n - 1)}
  }

  /** All the blocks of the list. */
  function Blocks(bps: nat, list: seq<D.Entry>): (r: set<Addr>)
    requires 0 < bps
  {
    if list == [] then {}
    else Blocks(bps, list[..|list| - 1]) + BlocksFrom(bps, list[|list| - 1].blkaddr, list[|list| - 1].len)
  }

  lemma {:induction false} BlocksCovered(bps: nat, list: seq<D.Entry>)
    requires 0 < bps
    ensures forall b :: b in Blocks(bps, list) ==> exists a: nat :: D.Covers(list, a) && b == BlockAt(bps, a)
  {
    if list != [] {
      var n := |list| - 1;
      BlocksCovered(bps, list[..n]);
      forall b | b in Blocks(bps, list) ensures exists a: nat :: D.Covers(list, a) && b == BlockAt(bps, a) {
        if b in Blocks(bps, list[..n]) {
          var a: nat :| D.Covers(list[..n], a) && b == BlockAt(bps, a);
          var k :| 0 <= k < n && list[..n][k].blkaddr <= a < list[..n][k].blkaddr + list[..n][k].len;
          assert list[k].blkaddr <= a < list[k].blkaddr + list[k].len;
          assert D.Covers(list, a);
        } else {
          var a: nat :| list[n].blkaddr <= a < list[n].blkaddr + list[n].len && b == BlockAt(bps, a);
          assert D.Covers(list, a);
        }
      }
    }
  }

  /** Every block of the list is in the main area and not valid. */
  ghost predicate AllStale(s: Segs, list: seq<D.Entry>)
    requires s.Shape()
  {
    forall a: nat :: D.Covers(list, a) ==> StaleAt(s, a)
  }

  ghost predicate StaleAt(s: Segs, a: nat)
    requires s.Shape()
  {
    a / s.geo.blocksPerSeg < |s.sentries| && !ValidBlk(s, BlockAt(s.geo.blocksPerSeg, a))
  }

  /** A block of segment segno whose bit is clear is not valid. */
  lemma ClearIsStale(s: Segs, segno: nat, cur: seq<Word>, ckpt: seq<Word>, a: nat)
    requires s.Shape() && segno < |s.sentries| && HasMaps(s.sentries[segno], cur, ckpt, s.geo.blocksPerSeg)
    requires segno * s.geo.blocksPerSeg <= a < segno * s.geo.blocksPerSeg + s.geo.blocksPerSeg
    requires a - segno * s.geo.blocksPerSeg < 64 * |cur| && !Bit(cur, a - segno * s.geo.blocksPerSeg)
    ensures StaleAt(s, a)
  {
    DivUnique(a, s.geo.blocksPerSeg, segno, a - segno * s.geo.blocksPerSeg);
  }

  ghost predicate AllMaps(s: Segs, cur: seq<seq<Word>>, ckpt: seq<seq<Word>>) {
    && |cur| == |ckpt| == |s.sentries| && s.geo.blocksPerSeg % 8 == 0
    && forall i :: 0 <= i < |s.sentries| ==> HasMaps(s.sentries[i], cur[i], ckpt[i], s.geo.blocksPerSeg)
  }

  /** add_discard_addrs for one segment. */
  method CollectSegment(d: D.Discards, s: Segs, segno: nat, cur: seq<Word>, ckpt: seq<Word>, option: bool, maxDiscards: nat)
    requires d.Valid() && s.Shape() && EntriesOk(s) && segno < |s.sentries| && AllStale(s, d.list)
    requires HasMaps(s.sentries[segno], cur, ckpt, s.geo.blocksPerSeg) && s.geo.blocksPerSeg % 8 == 0
    modifies d
    ensures d.Valid() && AllStale(s, d.list)
  {
    var bps := s.geo.blocksPerSeg;
    assert EntryOk(s, segno);
    ghost var before := d.list;
    EmptyMap(s.sentries[segno], cur, ckpt, bps);
    d.AddDiscardAddrs(segno * bps, cur, ckpt, bps, s.sentries[segno].validBlocks, segno in s.dirty.segmap[PRE], false, 0, option, maxDiscards);
    forall a: nat | D.Covers(d.list, a) ensures StaleAt(s, a) {
      if !D.Covers(before, a) {
        ClearIsStale(s, segno, cur, ckpt, a);
      }
    }
  }

  lemma EmptyMap(e: SegEntry, cur: seq<Word>, ckpt: seq<Word>, bps: nat)
    requires HasMaps(e, cur, ckpt, bps) && e.validBlocks == |e.curMap|
    ensures e.validBlocks == 0 ==> NoneSet(cur, 0, bps)
  {
    if e.validBlocks == 0 {
      forall k | 0 <= k < bps ensures !Bit(cur, k) {
        assert k !in e.curMap;
      }
    }
  }

  /** Over all dirty segments: what a checkpoint finds is what it may discard. */
  method CollectDiscards(d: D.Discards, s: Segs, cur: seq<seq<Word>>, ckpt: seq<seq<Word>>, option: bool, maxDiscards: nat)
    requires d.Valid() && d.list == [] && s.Shape() && EntriesOk(s) && AllMaps(s, cur, ckpt)
    modifies d
    ensures d.Valid() && Runs.Discardable(s, Blocks(s.geo.blocksPerSeg, d.list))
  {
    var segno := 0;
    while segno < |s.sentries|
      invariant segno <= |s.sentries| && d.Valid() && AllStale(s, d.list)
    {
      if segno in s.dirtySit {
        CollectSegment(d, s, segno, cur[segno], ckpt[segno], option, maxDiscards);
      }
      segno := segno + 1;
    }
    StaleDiscardable(s, d.list);
  }

  lemma StaleDiscardable(s: Segs, list: seq<D.Entry>)
    requires s.Shape() && AllStale(s, list)
    ensures Runs.Discardable(s, Blocks(s.geo.blocksPerSeg, list))
  {
    var bps := s.geo.blocksPerSeg;
    BlocksCovered(bps, list);
    forall b | b in Blocks(bps, list) ensures b.Blk? && b.segno < |s.sentries| && !ValidBlk(s, b) {
      var a: nat :| D.Covers(list, a) && b == BlockAt(bps, a);
      assert StaleAt(s, a);
    }
  }
}
