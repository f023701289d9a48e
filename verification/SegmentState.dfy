/** The segment manager of fs/f2fs/segment.c as values and step functions.

    Block addresses of the main area are pairs (segno, offset). A bitmap is the
    set of its set bits, so that a counter and the bitmap it counts can be
    compared. One value of `Segs` is what `sentry_lock`, `seglist_lock`,
    `segmap_lock` and the six `curseg_mutex`es protect together.
 */
module SegmentState {

  const NR_LOGS: nat := 6

  /** CURSEG_HOT_DATA = 0 .. CURSEG_COLD_NODE = 5. */
  type LogType = t: nat | t < 6 witness 0

  const HOT_DATA: LogType := 0
  const WARM_DATA: LogType := 1
  const COLD_DATA: LogType := 2
  const HOT_NODE: LogType := 3
  const WARM_NODE: LogType := 4
  const COLD_NODE: LogType := 5

  predicate IsDataLog(t: LogType) { t <= COLD_DATA }

  /** enum dirty_type: one list per log type, then DIRTY and PRE. */
  type DirtyType = t: nat | t < 8 witness 0

  const DIRTY: DirtyType := 6
  const PRE: DirtyType := 7

  datatype AllocType = LFS | SSR

  datatype Geo = Geo(mainSecs: nat, segsPerSec: nat, blocksPerSeg: nat) {
    predicate Valid() { 0 < segsPerSec && 0 < blocksPerSeg }
    function MainSegs(): nat { mainSecs * segsPerSec }
    function Sec(segno: nat): nat requires Valid() { segno / segsPerSec }
  }

  datatype SegEntry = SegEntry(
    validBlocks: int,
    curMap: set<nat>,
    ckptValidBlocks: int,
    ckptMap: set<nat>,
    typ: LogType)

  datatype Curseg = Curseg(segno: nat, nextBlkoff: nat, allocType: AllocType)

  /** A block address: none yet, reserved but unwritten, or a main-area block. */
  datatype Addr = NullAddr | NewAddr | Blk(segno: nat, off: nat)

  /** free_segmap_info: the segments and sections whose bit is set. */
  datatype FreeMap = FreeMap(inuse: set<nat>, freeSegments: int, inuseSecs: set<nat>, freeSections: int)

  /** dirty_seglist_info: the eight bitmaps with their counters. */
  datatype DirtyLists = DirtyLists(segmap: seq<set<nat>>, nr: seq<int>) {
    predicate Valid() { |segmap| == 8 && |nr| == 8 }
  }

  datatype Segs = Segs(
    geo: Geo,
    sentries: seq<SegEntry>,
    secValid: seq<int>,
    dirtySit: set<nat>,
    nDirtySit: int,
    logs: seq<Curseg>,
    free: FreeMap,
    dirty: DirtyLists,
    victimSecs: set<nat>)
  {
    /** Geometry and array lengths, fixed at mount; every log is in the main area. */
    predicate Shape() {
      && geo.Valid()
      && |sentries| == geo.MainSegs()
      && |secValid| == geo.mainSecs
      && |logs| == NR_LOGS
      && (forall t: LogType :: logs[t].segno < |sentries|)
      && dirty.Valid()
    }

    predicate InMain(a: Addr) {
      a.Blk? ==> a.segno < |sentries|
    }
  }

  predicate IsCurseg(logs: seq<Curseg>, segno: nat)
    requires |logs| == NR_LOGS
  {
    exists t: LogType :: logs[t].segno == segno
  }

  predicate IsCursec(s: Segs, secno: nat)
    requires s.Shape()
  {
    exists t: LogType :: s.geo.Sec(s.logs[t].segno) == secno
  }

  lemma SecInRange(g: Geo, segno: nat)
    requires g.Valid() && segno < g.MainSegs()
    ensures g.Sec(segno) < g.mainSecs
    ensures g.Sec(segno) * g.segsPerSec <= segno < g.Sec(segno) * g.segsPerSec + g.segsPerSec
  {
  }

  // ----- SIT entries (fs/f2fs/segment.c, update_sit_entry) -----

  function EntryAfter(e: SegEntry, off: nat, add: bool): SegEntry {
    SegEntry(e.validBlocks + (if add then 1 else -1),
             if add then e.curMap + {off} else e.curMap - {off},
             e.ckptValidBlocks + (if off in e.ckptMap then 0 else if add then 1 else -1),
             e.ckptMap,
             e.typ)
  }

  function MarkCount(dirtySit: set<nat>, n: int, segno: nat): int {
    if segno in dirtySit then n else n + 1
  }

  function SecValidAfter(s: Segs, segno: nat, add: bool): (r: seq<int>)
    requires s.Shape() && segno < |s.sentries|
    ensures |r| == |s.secValid|
  {
    if s.geo.segsPerSec > 1 then
      SecInRange(s.geo, segno);
      s.secValid[s.geo.Sec(segno) := s.secValid[s.geo.Sec(segno)] + (if add then 1 else -1)]
    else s.secValid
  }

  /** update_sit_entry with del = +1 (add) or -1. */
  function UpdateSit(s: Segs, segno: nat, off: nat, add: bool): (r: Segs)
    requires s.Shape() && segno < |s.sentries|
    ensures r.Shape() && r.geo == s.geo
  {
    s.(sentries := s.sentries[segno := EntryAfter(s.sentries[segno], off, add)],
       dirtySit := s.dirtySit + {segno},
       nDirtySit := MarkCount(s.dirtySit, s.nDirtySit, segno),
       secValid := SecValidAfter(s, segno, add))
  }

  /** __set_sit_entry_type with modified set. */
  function SetSitType(s: Segs, segno: nat, t: LogType): (r: Segs)
    requires s.Shape() && segno < |s.sentries|
    ensures r.Shape() && r.geo == s.geo
  {
    s.(sentries := s.sentries[segno := s.sentries[segno].(typ := t)],
       dirtySit := s.dirtySit + {segno},
       nDirtySit := MarkCount(s.dirtySit, s.nDirtySit, segno))
  }

  /** get_valid_blocks(sbi, segno, segs_per_sec). */
  function SectionValid(s: Segs, segno: nat): int
    requires s.Shape() && segno < |s.sentries|
  {
    if s.geo.segsPerSec > 1 then SecInRange(s.geo, segno); s.secValid[s.geo.Sec(segno)]
    else s.sentries[segno].validBlocks
  }

  // ----- dirty segment lists -----

  function AddTo(d: DirtyLists, segno: nat, t: DirtyType): (r: DirtyLists)
    requires d.Valid()
    ensures r.Valid()
  {
    DirtyLists(d.segmap[t := d.segmap[t] + {segno}],
               d.nr[t := if segno in d.segmap[t] then d.nr[t] else d.nr[t] + 1])
  }

  function RemoveFrom(d: DirtyLists, segno: nat, t: DirtyType): (r: DirtyLists)
    requires d.Valid()
    ensures r.Valid()
  {
    DirtyLists(d.segmap[t := d.segmap[t] - {segno}],
               d.nr[t := if segno in d.segmap[t] then d.nr[t] - 1 else d.nr[t]])
  }

  /** __locate_dirty_segment for a segment that is not current; typ is its SIT type. */
  function ListedAs(d: DirtyLists, segno: nat, t: DirtyType, typ: LogType): (r: DirtyLists)
    requires d.Valid()
    ensures r.Valid()
  {
    if t == DIRTY then AddTo(AddTo(d, segno, t), segno, typ) else AddTo(d, segno, t)
  }

  /** The list part of __remove_dirty_segment. */
  function Unlisted(d: DirtyLists, segno: nat, t: DirtyType, typ: LogType): (r: DirtyLists)
    requires d.Valid()
    ensures r.Valid()
  {
    if t == DIRTY then RemoveFrom(RemoveFrom(d, segno, t), segno, typ) else RemoveFrom(d, segno, t)
  }

  /** The victim_secmap part of __remove_dirty_segment(.., DIRTY). */
  function VictimsAfterRemoval(s: Segs, segno: nat): set<nat>
    requires s.Shape() && segno < |s.sentries|
  {
    if SectionValid(s, segno) == 0 then s.victimSecs - {s.geo.Sec(segno)} else s.victimSecs
  }

  /** locate_dirty_segment: file a segment under what its valid count says. */
  function Locate(s: Segs, segno: nat): (r: Segs)
    requires s.Shape() && segno < |s.sentries|
    ensures r.Shape() && r.geo == s.geo
  {
    var e := s.sentries[segno];
    if IsCurseg(s.logs, segno) then s
    else if e.validBlocks == 0 then
      s.(dirty := Unlisted(ListedAs(s.dirty, segno, PRE, e.typ), segno, DIRTY, e.typ),
         victimSecs := VictimsAfterRemoval(s, segno))
    else if e.validBlocks < s.geo.blocksPerSeg then
      s.(dirty := ListedAs(s.dirty, segno, DIRTY, e.typ))
    else
      s.(dirty := Unlisted(s.dirty, segno, DIRTY, e.typ),
         victimSecs := VictimsAfterRemoval(s, segno))
  }

  function LocateAddr(s: Segs, a: Addr): (r: Segs)
    requires s.Shape() && s.InMain(a)
    ensures r.Shape() && r.geo == s.geo
  {
    if a.Blk? then Locate(s, a.segno) else s
  }

  function DropOld(s: Segs, a: Addr): (r: Segs)
    requires s.Shape() && s.InMain(a)
    ensures r.Shape() && r.geo == s.geo
  {
    if a.Blk? then UpdateSit(s, a.segno, a.off, false) else s
  }

  /** refresh_sit_entry: the new block becomes valid, the old one (if any) invalid. */
  function Refresh(s: Segs, old_: Addr, new_: Addr): (r: Segs)
    requires s.Shape() && new_.Blk? && s.InMain(new_) && s.InMain(old_)
    ensures r.Shape() && r.geo == s.geo
  {
    LocateAddr(LocateAddr(DropOld(UpdateSit(s, new_.segno, new_.off, true), old_), old_), new_)
  }

  /** invalidate_blocks; a reserved address has no block to invalidate. */
  function Invalidate(s: Segs, a: Addr): (r: Segs)
    requires s.Shape() && !a.NullAddr? && s.InMain(a)
    ensures r.Shape() && r.geo == s.geo
  {
    LocateAddr(DropOld(s, a), a)
  }

  // ----- free maps (fs/f2fs/segment.h) -----

  function SetInuse(g: Geo, f: FreeMap, segno: nat): FreeMap
    requires g.Valid()
  {
    FreeMap(f.inuse + {segno}, f.freeSegments - 1,
            f.inuseSecs + {g.Sec(segno)},
            if g.Sec(segno) in f.inuseSecs then f.freeSections else f.freeSections - 1)
  }

  function SetTestAndInuse(g: Geo, f: FreeMap, segno: nat): FreeMap
    requires g.Valid()
  {
    if segno in f.inuse then f else SetInuse(g, f, segno)
  }

  /** find_next_bit over the section's range finds nothing. */
  predicate SectionIdle(g: Geo, inuse: set<nat>, secno: nat)
    requires g.Valid()
  {
    forall i | i in inuse :: !(secno * g.segsPerSec <= i < secno * g.segsPerSec + g.segsPerSec)
  }

  function SetTestAndFree(g: Geo, f: FreeMap, segno: nat): FreeMap
    requires g.Valid()
  {
    if segno !in f.inuse then f
    else
      var left := f.inuse - {segno};
      if SectionIdle(g, left, g.Sec(segno)) && g.Sec(segno) in f.inuseSecs then
        FreeMap(left, f.freeSegments + 1, f.inuseSecs - {g.Sec(segno)}, f.freeSections + 1)
      else
        FreeMap(left, f.freeSegments + 1, f.inuseSecs, f.freeSections)
  }

  // ----- current segments -----

  /** An offset is free for a log when neither the running nor the checkpointed map has it. */
  predicate OffFree(e: SegEntry, off: nat) {
    off !in e.curMap && off !in e.ckptMap
  }

  /** First free offset at or after start, or bps. */
  function NextFree(e: SegEntry, bps: nat, start: nat): (off: nat)
    ensures off <= bps
    ensures off < bps ==> start <= off && OffFree(e, off)
    ensures forall o :: start <= o < off ==> !OffFree(e, o)
    decreases bps - start
  {
    if start >= bps then bps
    else if OffFree(e, start) then start
    else NextFree(e, bps, start + 1)
  }

  /** new_curseg once get_new_segment has picked segno. */
  function NewCurseg(s: Segs, t: LogType, segno: nat): (r: Segs)
    requires s.Shape() && segno < |s.sentries|
    ensures r.Shape() && r.geo == s.geo
  {
    SetSitType(s.(free := SetInuse(s.geo, s.free, segno),
                  logs := s.logs[t := Curseg(segno, 0, LFS)]), segno, t)
  }

  /** change_curseg: take over segno and fill its holes. */
  function ChangeCurseg(s: Segs, t: LogType, segno: nat): (r: Segs)
    requires s.Shape() && segno < |s.sentries|
    ensures r.Shape() && r.geo == s.geo
  {
    var e := s.sentries[segno];
    SetSitType(s.(free := SetTestAndInuse(s.geo, s.free, segno),
                  dirty := Unlisted(Unlisted(s.dirty, segno, PRE, e.typ), segno, DIRTY, e.typ),
                  victimSecs := VictimsAfterRemoval(s, segno),
                  logs := s.logs[t := Curseg(segno, NextFree(e, s.geo.blocksPerSeg, 0), SSR)]), segno, t)
  }

  /** __refresh_next_blkoff. */
  function Advance(s: Segs, t: LogType): (r: Segs)
    requires s.Shape()
    ensures r.Shape() && r.geo == s.geo
  {
    var c := s.logs[t];
    s.(logs := s.logs[t := Curseg(c.segno,
        if c.allocType.SSR? then NextFree(s.sentries[c.segno], s.geo.blocksPerSeg, c.nextBlkoff + 1)
        else c.nextBlkoff + 1,
        c.allocType)])
  }

  /** What a log moves to when it leaves its segment. */
  datatype Pick = FreeSeg(segno: nat) | Victim(segno: nat)

  /** A free segment is what get_new_segment returns; an SSR victim is what
      get_victim_by_default returns: listed dirty, outside the current
      sections, of cost below a full segment. */
  predicate Legal(s: Segs, p: Pick)
    requires s.Shape()
  {
    && p.segno < |s.sentries|
    && match p {
         case FreeSeg(i) => i !in s.free.inuse
         case Victim(i) =>
           && i in s.dirty.segmap[DIRTY]
           && !IsCursec(s, s.geo.Sec(i))
           && s.sentries[i].ckptValidBlocks < s.geo.blocksPerSeg
       }
  }

  /** Whose segments SSR offers log t (get_ssr_segment): a node log those of its own
      type, a data log also those of hotter data; the warm-node log fills no holes. */
  predicate SsrTypeOk(s: Segs, t: LogType, p: Pick)
    requires s.Shape() && p.segno < |s.sentries|
  {
    p.Victim? ==>
      var typ := s.sentries[p.segno].typ;
      t != WARM_NODE && (typ == t || (IsDataLog(t) && typ <= t))
  }

  function SwitchLog(s: Segs, t: LogType, p: Pick): (r: Segs)
    requires s.Shape() && p.segno < |s.sentries|
    ensures r.Shape() && r.geo == s.geo
  {
    match p
    case FreeSeg(i) => NewCurseg(s, t, i)
    case Victim(i) => ChangeCurseg(s, t, i)
  }

  /** __allocate_new_segments: force log t onto a fresh segment and file the one it left. */
  function ForceNewSegment(s: Segs, t: LogType, segno: nat): (r: Segs)
    requires s.Shape() && segno < |s.sentries|
    ensures r.Shape() && r.geo == s.geo
  {
    Locate(NewCurseg(s, t, segno), s.logs[t].segno)
  }

  /** NEXT_FREE_BLKADDR. */
  function NextAddr(s: Segs, t: LogType): Addr
    requires s.Shape()
  {
    Blk(s.logs[t].segno, s.logs[t].nextBlkoff)
  }

  /** allocate_segment runs only when the advanced log has no space. */
  function AdvanceOrSwitch(s: Segs, t: LogType, p: Pick): (r: Segs)
    requires s.Shape() && p.segno < |s.sentries|
    ensures r.Shape() && r.geo == s.geo
  {
    var s1 := Advance(s, t);
    if s1.logs[t].nextBlkoff < s.geo.blocksPerSeg then s1 else SwitchLog(s1, t, p)
  }

  /** allocate_data_block for log t, replacing old_. The switch comes before the SIT update, as in the code. */
  function AllocateBlock(s: Segs, t: LogType, old_: Addr, p: Pick): (r: Segs)
    requires s.Shape() && p.segno < |s.sentries| && s.InMain(old_)
    ensures r.Shape() && r.geo == s.geo
  {
    Refresh(AdvanceOrSwitch(s, t, p), old_, NextAddr(s, t))
  }

  // ----- checkpoint -----

  /** seg_info_to_raw_sit seen from memory: the checkpoint side catches up. */
  function FlushedEntry(e: SegEntry): SegEntry {
    e.(ckptMap := e.curMap, ckptValidBlocks := e.validBlocks)
  }

  /** flush_sit_entries, in-memory side: every dirty entry is flushed, none stays dirty. */
  function FlushSit(s: Segs): (r: Segs)
    requires s.Shape()
    ensures r.Shape() && r.geo == s.geo
  {
    s.(sentries := seq(|s.sentries|, i requires 0 <= i < |s.sentries| =>
         if i in s.dirtySit then FlushedEntry(s.sentries[i]) else s.sentries[i]),
       dirtySit := {},
       nDirtySit := 0)
  }

  /** The sections of the segments of m. */
  function SecsOf(g: Geo, m: set<nat>): set<nat>
    requires g.Valid()
  {
    set i | i in m :: g.Sec(i)
  }

  /** set_prefree_as_free_segments: every pre-free segment becomes free, and so
      does every section this empties. */
  function SetPrefreeFree(s: Segs): (r: Segs)
    requires s.Shape()
    ensures r.Shape() && r.geo == s.geo
  {
    var left := s.free.inuse - s.dirty.segmap[PRE];
    var emptied := set c | c in SecsOf(s.geo, s.free.inuse * s.dirty.segmap[PRE]) && c !in SecsOf(s.geo, left);
    var gone := emptied * s.free.inuseSecs;
    s.(free := FreeMap(left, s.free.freeSegments + |s.free.inuse * s.dirty.segmap[PRE]|,
                       s.free.inuseSecs - gone, s.free.freeSections + |gone|))
  }

  /** clear_prefree_segments, in-memory side: the pre-free list is emptied. */
  function ClearPrefree(s: Segs): (r: Segs)
    requires s.Shape()
    ensures r.Shape() && r.geo == s.geo
  {
    s.(dirty := DirtyLists(s.dirty.segmap[PRE := {}], s.dirty.nr[PRE := 0]))
  }

  // ----- roll-forward of one data block (recover_data_page) -----

  /** The log that takes over the recovered block's segment. */
  function RecoveryLog(s: Segs, old_: Addr, new_: Addr): LogType
    requires s.Shape() && new_.Blk? && s.InMain(new_)
  {
    var e := s.sentries[new_.segno];
    if e.validBlocks == 0 && !IsCurseg(s.logs, new_.segno) then
      if old_.NullAddr? then COLD_DATA else WARM_DATA
    else e.typ
  }

  /** Log t stands on the recovered block itself, in the block's segment. */
  function StandOn(s: Segs, t: LogType, a: Addr): (r: Segs)
    requires s.Shape() && a.Blk? && s.InMain(a)
    ensures r.Shape() && r.geo == s.geo
  {
    var s1 := if a.segno != s.logs[t].segno then ChangeCurseg(s, t, a.segno) else s;
    s1.(logs := s1.logs[t := s1.logs[t].(nextBlkoff := a.off)])
  }

  function RecoverData(s: Segs, old_: Addr, new_: Addr): (r: Segs)
    requires s.Shape() && new_.Blk? && s.InMain(new_) && s.InMain(old_)
    ensures r.Shape() && r.geo == s.geo
  {
    var t := RecoveryLog(s, old_, new_);
    Locate(Refresh(StandOn(s, t, new_), old_, new_), s.logs[t].segno)
  }

  // ----- mount (build_segment_manager) -----

  /** What a committed checkpoint says about the main area. */
  datatype Durable = Durable(maps: seq<set<nat>>, types: seq<LogType>, logs: seq<Curseg>)

  predicate DurableShape(g: Geo, d: Durable) {
    && g.Valid()
    && |d.maps| == g.MainSegs() && |d.types| == g.MainSegs()
    && |d.logs| == NR_LOGS
    && forall t: LogType :: d.logs[t].segno < g.MainSegs()
  }

  function Snapshot(s: Segs): Durable {
    Durable(seq(|s.sentries|, i requires 0 <= i < |s.sentries| => s.sentries[i].curMap),
            seq(|s.sentries|, i requires 0 <= i < |s.sentries| => s.sentries[i].typ),
            s.logs)
  }

  /** seg_info_from_raw_sit. */
  function MountedEntry(m: set<nat>, t: LogType): SegEntry {
    SegEntry(|m|, m, |m|, m, t)
  }

  /** init_free_segmap: segments with valid blocks, and the current ones, are in use. */
  function MountedInuse(d: Durable): set<nat>
    requires |d.logs| == NR_LOGS
  {
    set i: nat | i < |d.maps| && (d.maps[i] != {} || IsCurseg(d.logs, i))
  }

  function MountedFree(g: Geo, d: Durable): FreeMap
    requires g.Valid() && |d.logs| == NR_LOGS
  {
    var inuse := MountedInuse(d);
    FreeMap(inuse, g.MainSegs() - |inuse|, SecsOf(g, inuse), g.mainSecs - |SecsOf(g, inuse)|)
  }

  /** init_dirty_segmap: partly valid segments that are not current. */
  function MountedDirty(g: Geo, d: Durable): set<nat>
    requires |d.logs| == NR_LOGS
  {
    set i: nat | i < |d.maps| && 0 < |d.maps[i]| < g.blocksPerSeg && !IsCurseg(d.logs, i)
  }

  function OfType(m: set<nat>, types: seq<LogType>, t: LogType): set<nat> {
    set i | i in m && i < |types| && types[i] == t
  }

  function MountedLists(g: Geo, d: Durable): DirtyLists
    requires |d.logs| == NR_LOGS
  {
    var m := MountedDirty(g, d);
    var lists := [OfType(m, d.types, 0), OfType(m, d.types, 1), OfType(m, d.types, 2),
                  OfType(m, d.types, 3), OfType(m, d.types, 4), OfType(m, d.types, 5), m, {}];
    DirtyLists(lists, seq(8, t requires 0 <= t < 8 => |lists[t]|))
  }

  function SumCards(maps: seq<set<nat>>, lo: nat, hi: nat): nat
    requires lo <= hi <= |maps|
    decreases hi - lo
  {
    if lo == hi then 0 else SumCards(maps, lo, hi - 1) + |maps[hi - 1]|
  }

  lemma SecBounds(g: Geo, c: nat)
    requires g.Valid() && c < g.mainSecs
    ensures c * g.segsPerSec + g.segsPerSec <= g.MainSegs()
  {
    assert (c + 1) * g.segsPerSec <= g.mainSecs * g.segsPerSec;
  }

  function MountedSecValid(g: Geo, d: Durable): seq<int>
    requires DurableShape(g, d)
  {
    seq(g.mainSecs, c requires 0 <= c < g.mainSecs =>
      if g.segsPerSec > 1 then
        SecBounds(g, c);
        SumCards(d.maps, c * g.segsPerSec, c * g.segsPerSec + g.segsPerSec)
      else 0)
  }

  /** build_segment_manager from a committed checkpoint. */
  function Mount(g: Geo, d: Durable): (r: Segs)
    requires DurableShape(g, d)
    ensures r.Shape()
  {
    Segs(g,
         seq(g.MainSegs(), i requires 0 <= i < g.MainSegs() => MountedEntry(d.maps[i], d.types[i])),
         MountedSecValid(g, d),
         {}, 0,
         d.logs,
         MountedFree(g, d),
         MountedLists(g, d),
         {})
  }
}
