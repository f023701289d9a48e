/** The segment manager as fs/f2fs/segment.c runs it: fields updated in place,
    every method proved against the step functions of SegmentState. */
module SegmentManager {
  import opened SegmentState
  import opened Options
  import opened SegmentInvariant
  import Runs = SegmentRuns
  import Alloc = Allocator
  import Gc = Victim
  import opened ShadowTable

  /** The SSR cost of every segment (get_gc_cost with alloc_mode SSR). */
  function CkptCosts(es: seq<SegEntry>): (r: seq<nat>)
    requires forall i :: 0 <= i < |es| ==> 0 <= es[i].ckptValidBlocks
    ensures |r| == |es| && forall i :: 0 <= i < |es| ==> r[i] == es[i].ckptValidBlocks
  {
    if es == [] then [] else [es[0].ckptValidBlocks] + CkptCosts(es[1..])
  }

  class Manager {
    const geo: Geo
    const secsPerZone: nat
    const maxVictimSearch: nat
    var sentries: seq<SegEntry>
    var secValid: seq<int>
    var dirtySit: set<nat>
    var nDirtySit: int
    var logs: seq<Curseg>
    var free: FreeMap
    var dirty: DirtyLists
    var victimSecs: set<nat>
    // sbi->last_victim[GC_GREEDY] and sbi->cur_victim_sec
    var lastVictim: nat
    var curVictimSec: Option<nat>

    ghost function State(): Segs
      reads this
    {
      Segs(geo, sentries, secValid, dirtySit, nDirtySit, logs, free, dirty, victimSecs)
    }

    /** build_segment_manager: the three builders together restore exactly what the
        committed checkpoint's SIT and logs say, and the invariant holds at once. */
    constructor (g: Geo, zone: nat, maxSearch: nat, sit: Table<RawSit>, curs: seq<Curseg>)
      requires Covers(g, sit) && Runs.DurableOk(g, Saved(g, sit, curs))
      ensures State() == Mount(g, Saved(g, sit, curs)) && Inv(State())
      ensures curVictimSec.None? && secsPerZone == zone && maxVictimSearch == maxSearch
    {
      geo, secsPerZone, maxVictimSearch := g, zone, maxSearch;
      logs, dirtySit, nDirtySit, victimSecs := curs, {}, 0, {};
      lastVictim, curVictimSec := 0, None;
      ghost var d := Saved(g, sit, curs);
      var es, sums := BuildSitEntries(g, sit, curs);
      var f := InitFreeSegmap(g, es, curs, d);
      var lists := InitDirtySegmap(g, es, curs, f.inuse, d);
      sentries, secValid, free, dirty := es, sums, f, lists;
      new;
      Runs.MountEstablishes(g, d);
    }

    // ----- SIT entries -----

    /** update_sit_entry: counter, bitmap, checkpoint-side counter, dirty mark and section counter. */
    method UpdateSitEntry(segno: nat, off: nat, add: bool)
      requires State().Shape() && segno < |sentries|
      modifies this`sentries, this`dirtySit, this`nDirtySit, this`secValid
      ensures State() == UpdateSit(old(State()), segno, off, add)
    {
      var e := sentries[segno];
      var del := if add then 1 else -1;
      e := e.(validBlocks := e.validBlocks + del);
      e := e.(curMap := if add then e.curMap + {off} else e.curMap - {off});
      if off !in e.ckptMap {
        e := e.(ckptValidBlocks := e.ckptValidBlocks + del);
      }
      sentries := sentries[segno := e];
      MarkSitEntryDirty(segno);
      if geo.segsPerSec > 1 {
        SecInRange(geo, segno);
        secValid := secValid[geo.Sec(segno) := secValid[geo.Sec(segno)] + del];
      }
    }

    method MarkSitEntryDirty(segno: nat)
      modifies this`dirtySit, this`nDirtySit
      ensures dirtySit == old(dirtySit) + {segno}
      ensures nDirtySit == MarkCount(old(dirtySit), old(nDirtySit), segno)
    {
      if segno !in dirtySit {
        dirtySit := dirtySit + {segno};
        nDirtySit := nDirtySit + 1;
      }
    }

    // ----- dirty lists -----

    method TestAndSet(segno: nat, t: DirtyType)
      requires dirty.Valid()
      modifies this`dirty
      ensures dirty == AddTo(old(dirty), segno, t)
    {
      if segno !in dirty.segmap[t] {
        dirty := DirtyLists(dirty.segmap[t := dirty.segmap[t] + {segno}], dirty.nr[t := dirty.nr[t] + 1]);
      } else {
        assert dirty.segmap[t] + {segno} == dirty.segmap[t];
      }
    }

    method TestAndClear(segno: nat, t: DirtyType)
      requires dirty.Valid()
      modifies this`dirty
      ensures dirty == RemoveFrom(old(dirty), segno, t)
    {
      if segno in dirty.segmap[t] {
        dirty := DirtyLists(dirty.segmap[t := dirty.segmap[t] - {segno}], dirty.nr[t := dirty.nr[t] - 1]);
      } else {
        assert dirty.segmap[t] - {segno} == dirty.segmap[t];
      }
    }

    /** __remove_dirty_segment(.., DIRTY). */
    method RemoveDirty(segno: nat)
      requires State().Shape() && segno < |sentries|
      modifies this`dirty, this`victimSecs
      ensures dirty == Unlisted(old(dirty), segno, DIRTY, sentries[segno].typ)
      ensures victimSecs == VictimsAfterRemoval(old(State()), segno)
    {
      TestAndClear(segno, DIRTY);
      TestAndClear(segno, sentries[segno].typ);
      var valid: int;
      if geo.segsPerSec > 1 {
        SecInRange(geo, segno);
        valid := secValid[geo.Sec(segno)];
      } else {
        valid := sentries[segno].validBlocks;
      }
      if valid == 0 {
        victimSecs := victimSecs - {geo.Sec(segno)};
      }
    }

    method IsCurrent(segno: nat) returns (b: bool)
      requires |logs| == NR_LOGS
      ensures b <==> IsCurseg(logs, segno)
    {
      b := false;
      for t := 0 to NR_LOGS
        invariant b <==> exists u: LogType :: u < t && logs[u].segno == segno
      {
        if logs[t].segno == segno {
          b := true;
        }
      }
    }

    /** locate_dirty_segment. */
    method LocateDirtySegment(segno: nat)
      requires State().Shape() && segno < |sentries|
      modifies this`dirty, this`victimSecs
      ensures State() == Locate(old(State()), segno)
    {
      var cur := IsCurrent(segno);
      if cur {
        return;
      }
      if sentries[segno].validBlocks == 0 {
        TestAndSet(segno, PRE);
        RemoveDirty(segno);
      } else if sentries[segno].validBlocks < geo.blocksPerSeg {
        TestAndSet(segno, DIRTY);
        TestAndSet(segno, sentries[segno].typ);
      } else {
        RemoveDirty(segno);
      }
    }

    /** refresh_sit_entry. */
    method RefreshSitEntry(old_: Addr, new_: Addr)
      requires State().Shape() && new_.Blk? && State().InMain(new_) && State().InMain(old_)
      modifies this`sentries, this`dirtySit, this`nDirtySit, this`secValid, this`dirty, this`victimSecs
      ensures State() == Refresh(old(State()), old_, new_)
    {
      UpdateSitEntry(new_.segno, new_.off, true);
      if old_.Blk? {
        UpdateSitEntry(old_.segno, old_.off, false);
        LocateDirtySegment(old_.segno);
      }
      LocateDirtySegment(new_.segno);
    }

    /** invalidate_blocks. */
    method InvalidateBlocks(a: Addr)
      requires Inv(State()) && (a.NewAddr? || ValidBlk(State(), a))
      modifies this`sentries, this`dirtySit, this`nDirtySit, this`secValid, this`dirty, this`victimSecs
      ensures State() == Invalidate(old(State()), a) && Inv(State())
    {
      InvalidateKeeps(State(), a);
      if a.NewAddr? {
        return;
      }
      UpdateSitEntry(a.segno, a.off, false);
      LocateDirtySegment(a.segno);
    }

    // ----- free maps -----

    /** __set_test_and_inuse. */
    method TestAndUse(segno: nat)
      requires geo.Valid()
      modifies this`free
      ensures free == SetTestAndInuse(geo, old(free), segno)
    {
      var secno := geo.Sec(segno);
      if segno !in free.inuse {
        free := free.(inuse := free.inuse + {segno}, freeSegments := free.freeSegments - 1);
        if secno !in free.inuseSecs {
          free := free.(inuseSecs := free.inuseSecs + {secno}, freeSections := free.freeSections - 1);
        } else {
          assert free.inuseSecs + {secno} == free.inuseSecs;
        }
      }
    }

    /** __set_test_and_free, with the bit search over the section. */
    method TestAndFree(segno: nat)
      requires geo.Valid() && FreeOk(geo, free) && segno < geo.MainSegs()
      modifies this`free
      ensures free == SetTestAndFree(geo, old(free), segno) && FreeOk(geo, free)
    {
      SetTestAndFreeOk(geo, free, segno);
      var secno := geo.Sec(segno);
      var start := secno * geo.segsPerSec;
      if segno in free.inuse {
        free := free.(inuse := free.inuse - {segno}, freeSegments := free.freeSegments + 1);
        var next := start;
        while next < start + geo.segsPerSec && next !in free.inuse
          invariant start <= next <= start + geo.segsPerSec
          invariant forall i :: start <= i < next ==> i !in free.inuse
        {
          next := next + 1;
        }
        if next >= start + geo.segsPerSec {
          if secno in free.inuseSecs {
            free := free.(inuseSecs := free.inuseSecs - {secno}, freeSections := free.freeSections + 1);
          }
        }
      }
    }

    lemma CountsNonNegative()
      requires EntriesOk(State())
      ensures forall i :: 0 <= i < |sentries| ==> 0 <= sentries[i].ckptValidBlocks
    {
      forall i | 0 <= i < |sentries| ensures 0 <= sentries[i].ckptValidBlocks {
        assert EntryOk(State(), i);
      }
    }

    // ----- logs -----

    /** __next_free_blkoff: the first offset clear in both maps. */
    method NextFreeBlkoff(segno: nat, start: nat) returns (off: nat)
      requires segno < |sentries|
      ensures off == NextFree(sentries[segno], geo.blocksPerSeg, start)
    {
      var target := sentries[segno].ckptMap + sentries[segno].curMap;
      off := if start < geo.blocksPerSeg then start else geo.blocksPerSeg;
      while off < geo.blocksPerSeg && off in target
        invariant off <= geo.blocksPerSeg
        invariant NextFree(sentries[segno], geo.blocksPerSeg, start) == NextFree(sentries[segno], geo.blocksPerSeg, off)
      {
        off := off + 1;
      }
    }

    /** reset_curseg with modified set. */
    method ResetCurseg(t: LogType, c: Curseg)
      requires State().Shape() && c.segno < |sentries|
      modifies this`logs, this`sentries, this`dirtySit, this`nDirtySit
      ensures State() == SetSitType(old(State()).(logs := old(logs)[t := c]), c.segno, t)
    {
      logs := logs[t := c];
      sentries := sentries[c.segno := sentries[c.segno].(typ := t)];
      MarkSitEntryDirty(c.segno);
    }

    ghost predicate SectionFree()
      reads this
    {
      Alloc.SomeFree(free.inuseSecs, geo.mainSecs)
    }

    /** new_curseg: get_new_segment finds a free one, from either direction. */
    method TakeNewCurseg(t: LogType, newSec: bool, noheap: bool) returns (segno: nat)
      requires State().Shape() && FreeOk(geo, free) && 0 < secsPerZone && SectionFree()
      modifies this`free, this`logs, this`sentries, this`dirtySit, this`nDirtySit
      ensures segno < |old(sentries)| && segno !in old(free).inuse
      ensures State() == NewCurseg(old(State()), t, segno)
    {
      var dir := if t == WARM_DATA || t == COLD_DATA || noheap then Alloc.Right else Alloc.Left;
      var zones := set u: LogType | true :: geo.Sec(logs[u].segno) / secsPerZone;
      segno := Alloc.GetNewSegment(geo, free, secsPerZone, zones, logs[t].segno, newSec, dir);
      TestAndUse(segno);
      ResetCurseg(t, Curseg(segno, 0, LFS));
    }

    /** change_curseg on a given segment. */
    method TakeOverCurseg(t: LogType, segno: nat)
      requires State().Shape() && segno < |sentries|
      modifies this`free, this`dirty, this`victimSecs, this`logs, this`sentries, this`dirtySit, this`nDirtySit
      ensures State() == ChangeCurseg(old(State()), t, segno)
    {
      TestAndUse(segno);
      TestAndClear(segno, PRE);
      RemoveDirty(segno);
      var off := NextFreeBlkoff(segno, 0);
      ResetCurseg(t, Curseg(segno, off, SSR));
    }

    /** get_victim_by_default(.., BG_GC, type, SSR): a dirty segment of the type,
        outside the sections in use, of cost below a full segment; the cheapest
        one when the search bound covers the list. */
    method GetSsrVictim(typ: LogType) returns (victim: Option<nat>)
      requires Core(State(), {})
      modifies this`lastVictim
      ensures victim.Some? ==> Legal(State(), Victim(victim.value))
      ensures victim.Some? ==> victim.value in dirty.segmap[typ] && sentries[victim.value].typ == typ
      ensures victim.Some? ==> geo.Sec(victim.value) !in victimSecs
      ensures victim.Some? && curVictimSec.Some? ==> geo.Sec(victim.value) != curVictimSec.value
      ensures victim.Some? && dirty.nr[typ] <= maxVictimSearch ==>
                forall i :: i in dirty.segmap[typ] && !IsCursec(State(), geo.Sec(i)) && geo.Sec(i) !in victimSecs
                         && (curVictimSec.Some? ==> geo.Sec(i) != curVictimSec.value)
                  ==> sentries[victim.value].ckptValidBlocks <= sentries[i].ckptValidBlocks
    {
      CountsNonNegative();
      var costs := CkptCosts(sentries);
      var n := |sentries|;
      var nr := dirty.nr[typ];
      var maxSearch := if nr > maxVictimSearch then maxVictimSearch else nr;
      var used := set u: LogType | true :: geo.Sec(logs[u].segno);
      var barred := used + victimSecs + (if curVictimSec.Some? then {curVictimSec.value} else {});
      var zeros := seq(n, _ => 0);
      var p := Gc.Policy(dirty.segmap[typ], n, geo.segsPerSec, 1, maxSearch, costs, geo.blocksPerSeg,
                         barred, false, zeros, zeros);
      assert p.Valid();
      ghost var truth := Gc.TruthExists(p, 0, 0);
      var last, lo, hi;
      victim, last, lo, hi := Gc.Scan(p, lastVictim, 0, 0, truth);
      lastVictim := last;
      if victim.Some? {
        var v := victim.value;
        assert Placed(State(), v);
        assert p.Eligible(v);
        assert forall u: LogType :: geo.Sec(logs[u].segno) in used;
        if nr <= maxVictimSearch {
          forall i | i in dirty.segmap[typ] && !IsCursec(State(), geo.Sec(i)) && geo.Sec(i) !in victimSecs
                     && (curVictimSec.Some? ==> geo.Sec(i) != curVictimSec.value)
            ensures sentries[v].ckptValidBlocks <= sentries[i].ckptValidBlocks
          {
            assert p.Eligible(i);
            assert Gc.FixedCost(p, i, 0, 0) == truth[i] && Gc.FixedCost(p, v, 0, 0) == truth[v];
          }
        }
      }
    }

    /** need_SSR and has_not_enough_free_secs; demand is node_secs + 2 * dent_secs + reserved_sections. */
    predicate NeedSsr(demand: int)
      reads this
    {
      free.freeSections <= demand + 1
    }

    predicate LowOnSections(demand: int, recovering: bool)
      reads this
    {
      !recovering && free.freeSections <= demand
    }

    /** get_ssr_segment: short of sections, a data log also tries the hotter lists. */
    method GetSsrSegment(t: LogType, demand: int, recovering: bool) returns (victim: Option<nat>)
      requires Core(State(), {}) && t != WARM_NODE
      modifies this`lastVictim
      ensures victim.Some? ==> Legal(State(), Victim(victim.value)) && SsrTypeOk(State(), t, Victim(victim.value))
    {
      victim := GetSsrVictim(t);
      if !IsDataLog(t) || !LowOnSections(demand, recovering) {
        return;
      }
      var u := t;
      while victim.None? && u > 0
        invariant u <= t
        invariant victim.Some? ==> Legal(State(), Victim(victim.value)) && SsrTypeOk(State(), t, Victim(victim.value))
      {
        u := u - 1;
        victim := GetSsrVictim(u);
      }
    }

    /** is_next_segment_free. */
    predicate NextSegmentFree(t: LogType)
      requires |logs| == NR_LOGS && geo.Valid()
      reads this
    {
      var segno := logs[t].segno + 1;
      segno < geo.MainSegs() && segno % geo.segsPerSec != 0 && segno !in free.inuse
    }

    /** allocate_segment_by_default: the log moves to a legal place, by a switch of the right kind. */
    method AllocateSegment(t: LogType, force: bool, demand: int, recovering: bool, noheap: bool)
      returns (ghost p: Pick)
      requires Core(State(), {}) && 0 < secsPerZone && SectionFree()
      modifies this`free, this`logs, this`sentries, this`dirtySit, this`nDirtySit, this`dirty, this`victimSecs, this`lastVictim
      ensures Legal(old(State()), p) && State() == SwitchLog(old(State()), t, p)
      ensures SsrTypeOk(old(State()), t, p) && (force ==> p.FreeSeg?)
      ensures p.Victim? ==> old(NeedSsr(demand))
    {
      var victim: Option<nat> := None;
      if !force && t != WARM_NODE && !(logs[t].allocType == LFS && NextSegmentFree(t)) && NeedSsr(demand) {
        victim := GetSsrSegment(t, demand, recovering);
      }
      if victim.Some? {
        p := Victim(victim.value);
        TakeOverCurseg(t, victim.value);
      } else {
        var segno := TakeNewCurseg(t, force, noheap);
        p := FreeSeg(segno);
      }
    }

    /** __allocate_new_segments. */
    method AllocateNewSegment(t: LogType, noheap: bool) returns (ghost segno: nat)
      requires Core(State(), {}) && 0 < secsPerZone && SectionFree()
      modifies this`free, this`logs, this`sentries, this`dirtySit, this`nDirtySit, this`dirty, this`victimSecs
      ensures segno < |old(sentries)| && segno !in old(free).inuse
      ensures State() == ForceNewSegment(old(State()), t, segno)
    {
      var oldSegno := logs[t].segno;
      segno := TakeNewCurseg(t, true, noheap);
      LocateDirtySegment(oldSegno);
    }

    /** allocate_data_block (not direct I/O): the block handed out is the log's next
        one, free in the running and the checkpointed map; the whole state steps as
        AllocateBlock for a legal choice; the invariant holds again. */
    method AllocateDataBlock(t: LogType, old_: Addr, demand: int, recovering: bool, noheap: bool)
      returns (new_: Addr, ghost p: Pick)
      requires Inv(State()) && 0 < secsPerZone && SectionFree()
      requires old_.Blk? ==> ValidBlk(State(), old_)
      modifies this`free, this`logs, this`sentries, this`secValid, this`dirtySit, this`nDirtySit, this`dirty, this`victimSecs, this`lastVictim
      ensures new_ == NextAddr(old(State()), t)
      ensures OffFree(old(sentries)[new_.segno], new_.off)
      ensures CanAllocate(old(State()), t, old_, p) && SsrTypeOk(old(State()), t, p)
      ensures State() == AllocateBlock(old(State()), t, old_, p) && Inv(State())
    {
      new_ := Blk(logs[t].segno, logs[t].nextBlkoff);
      AdvanceKeeps(State(), t);
      var off: nat;
      if logs[t].allocType == SSR {
        off := NextFreeBlkoff(logs[t].segno, logs[t].nextBlkoff + 1);
      } else {
        off := logs[t].nextBlkoff + 1;
      }
      logs := logs[t := logs[t].(nextBlkoff := off)];
      assert State() == Advance(old(State()), t);
      p := FreeSeg(logs[t].segno);
      if logs[t].nextBlkoff >= geo.blocksPerSeg {
        p := AllocateSegment(t, false, demand, recovering, noheap);
      }
      RefreshSitEntry(old_, new_);
      AllocateKeeps(old(State()), t, old_, p);
    }

    // ----- checkpoint -----

    /** flush_sit_entries, in-memory side: each dirty entry is flushed and unmarked. */
    method FlushSitEntries()
      requires State().Shape() && EntriesOk(State())
      modifies this`sentries, this`dirtySit, this`nDirtySit
      ensures State() == FlushSit(old(State()))
    {
      var segno := 0;
      while segno < |sentries|
        invariant segno <= |sentries| == |old(sentries)|
        invariant dirtySit == set i | i in old(dirtySit) && segno <= i
        invariant nDirtySit == |dirtySit|
        invariant forall i :: segno <= i < |sentries| ==> sentries[i] == old(sentries)[i]
        invariant forall i :: 0 <= i < segno ==>
                    sentries[i] == (if i in old(dirtySit) then FlushedEntry(old(sentries)[i]) else old(sentries)[i])
      {
        ghost var before := dirtySit;
        if segno in dirtySit {
          sentries := sentries[segno := FlushedEntry(sentries[segno])];
          dirtySit := dirtySit - {segno};
          nDirtySit := nDirtySit - 1;
        }
        assert dirtySit == set i | i in old(dirtySit) && segno + 1 <= i;
        segno := segno + 1;
      }
      assert dirtySit == {};
      assert sentries == FlushSit(old(State())).sentries;
    }

    /** set_prefree_as_free_segments, one bit at a time. */
    method SetPrefreeAsFree()
      requires State().Shape() && FreeOk(geo, free)
      modifies this`free
      ensures State() == SetPrefreeFree(old(State()))
    {
      var segno := 0;
      while segno < geo.MainSegs()
        invariant segno <= geo.MainSegs()
        invariant FreeOk(geo, free) && FreedTo(old(free.inuse), dirty.segmap[PRE], free.inuse, segno)
      {
        if segno in dirty.segmap[PRE] {
          TestAndFree(segno);
        }
        segno := segno + 1;
      }
      PrefreeFreed(old(State()), free);
    }

    /** The inner loop of clear_prefree_segments: one run of set bits is cleared and counted off. */
    method ClearRun(start: nat, end: nat)
      requires dirty.Valid() && start <= end && forall i :: start <= i < end ==> i in dirty.segmap[PRE]
      modifies this`dirty
      ensures dirty.Valid()
      ensures dirty.segmap == old(dirty).segmap[PRE := dirty.segmap[PRE]]
      ensures dirty.nr == old(dirty).nr[PRE := old(dirty).nr[PRE] - (end - start)]
      ensures forall j :: j in dirty.segmap[PRE] <==> j in old(dirty).segmap[PRE] && !(start <= j < end)
      ensures |dirty.segmap[PRE]| == |old(dirty).segmap[PRE]| - (end - start)
    {
      var i := start;
      while i < end
        invariant start <= i <= end
        invariant |dirty.segmap| == 8 && dirty.nr == old(dirty).nr
        invariant dirty.segmap == old(dirty).segmap[PRE := dirty.segmap[PRE]]
        invariant forall j :: j in dirty.segmap[PRE] <==> j in old(dirty).segmap[PRE] && !(start <= j < i)
        invariant |dirty.segmap[PRE]| == |old(dirty).segmap[PRE]| - (i - start)
      {
        assert i in dirty.segmap[PRE];
        dirty := dirty.(segmap := dirty.segmap[PRE := dirty.segmap[PRE] - {i}]);
        i := i + 1;
      }
      dirty := dirty.(nr := dirty.nr[PRE := dirty.nr[PRE] - (end - start)]);
    }

    /** clear_prefree_segments: the runs of set bits found are exactly what is discarded. */
    method ClearPrefreeSegments() returns (discarded: seq<(nat, nat)>)
      requires State().Shape() && DirtyOk(dirty, |sentries|)
      modifies this`dirty
      ensures State() == ClearPrefree(old(State()))
      ensures forall i: nat :: i in old(dirty).segmap[PRE] <==> InRuns(discarded, i)
    {
      discarded := [];
      var end := 0;
      ghost var pre := dirty.segmap[PRE];
      while true
        invariant end <= |sentries|
        invariant dirty.Valid()
        invariant dirty.segmap == old(dirty).segmap[PRE := dirty.segmap[PRE]] && dirty.nr == old(dirty).nr[PRE := dirty.nr[PRE]]
        invariant dirty.nr[PRE] == |dirty.segmap[PRE]|
        invariant forall j :: j in dirty.segmap[PRE] <==> j in pre && end <= j
        invariant forall j: nat :: InRuns(discarded, j) <==> j in pre && j < end
        decreases |sentries| - end
      {
        var start := Gc.FindNext(dirty.segmap[PRE], |sentries|, end);
        if start >= |sentries| {
          break;
        }
        end := Alloc.FindNextZero(dirty.segmap[PRE], |sentries|, start + 1);
        ClearRun(start, end);
        AppendRun(discarded, start, end);
        discarded := discarded + [(start, end)];
      }
      forall j: nat | j in pre ensures j < end {
        assert j in old(dirty).segmap[PRE];
        assert j !in dirty.segmap[PRE];
      }
      assert dirty.segmap[PRE] == {};
    }

    // ----- roll-forward -----

    /** recover_data_page. */
    method RecoverDataPage(old_: Addr, new_: Addr)
      requires Runs.RecoveryInv(State()) && Runs.CanRecover(State(), old_, new_)
      modifies this`free, this`logs, this`sentries, this`secValid, this`dirtySit, this`nDirtySit, this`dirty, this`victimSecs
      ensures State() == RecoverData(old(State()), old_, new_) && Runs.RecoveryInv(State())
    {
      Runs.RecoverKeeps(State(), old_, new_);
      var segno := new_.segno;
      var t := sentries[segno].typ;
      var cur := IsCurrent(segno);
      if sentries[segno].validBlocks == 0 && !cur {
        t := if old_.NullAddr? then COLD_DATA else WARM_DATA;
      }
      var oldCursegno := logs[t].segno;
      if segno != oldCursegno {
        TakeOverCurseg(t, segno);
      }
      logs := logs[t := logs[t].(nextBlkoff := new_.off)];
      RefreshSitEntry(old_, new_);
      LocateDirtySegment(oldCursegno);
    }
  }

  /** Of the pre-free segments those below n have been freed. */
  ghost predicate FreedTo(was: set<nat>, pre: set<nat>, inuse: set<nat>, n: nat) {
    forall i: nat :: i in inuse <==> i in was && !(i < n && i in pre)
  }

  /** A free map is determined by the segments in use. */
  lemma PrefreeFreed(s: Segs, f: FreeMap)
    requires s.Shape() && FreeOk(s.geo, s.free) && FreeOk(s.geo, f)
    requires FreedTo(s.free.inuse, s.dirty.segmap[PRE], f.inuse, s.geo.MainSegs())
    ensures s.(free := f) == SetPrefreeFree(s)
  {
    SetPrefreeFreeOk(s);
    assert f.inuse == SetPrefreeFree(s).free.inuse;
  }

  /** i lies in one of the half-open runs. */
  ghost predicate InRuns(runs: seq<(nat, nat)>, i: nat) {
    exists k :: 0 <= k < |runs| && runs[k].0 <= i < runs[k].1
  }

  lemma AppendRun(runs: seq<(nat, nat)>, start: nat, end: nat)
    ensures forall i: nat :: InRuns(runs + [(start, end)], i) <==> InRuns(runs, i) || start <= i < end
  {
    var r := runs + [(start, end)];
    forall i: nat | InRuns(runs, i) || start <= i < end
      ensures InRuns(r, i)
    {
      if start <= i < end {
        assert r[|runs|].0 <= i < r[|runs|].1;
      } else {
        var k :| 0 <= k < |runs| && runs[k].0 <= i < runs[k].1;
        assert r[k].0 <= i < r[k].1;
      }
    }
  }

  // ----- mount-time builders -----

  function Min(a: nat, b: nat): nat {
    if a < b then a else b
  }

  /** The part of section c's range that lies below n. */
  function PartSum(g: Geo, maps: seq<set<nat>>, c: nat, n: nat): nat
    requires n <= |maps|
  {
    SumCards(maps, Min(c * g.segsPerSec, n), Min(c * g.segsPerSec + g.segsPerSec, n))
  }

  /** A raw SIT entry: the valid map and the type (its valid count is the map's size). */
  datatype RawSit = RawSit(m: set<nat>, typ: LogType)

  /** The SIT has an entry for every segment. */
  ghost predicate Covers(g: Geo, sit: Table<RawSit>) {
    sit.Valid() && g.MainSegs() <= sit.nblocks * sit.per
  }

  /** What a checkpoint says: a segment's entry is the journal's, if it has one, else that
      of the block in use. */
  ghost function Saved(g: Geo, sit: Table<RawSit>, curs: seq<Curseg>): Durable
    requires Covers(g, sit)
  {
    Durable(seq(g.MainSegs(), i requires 0 <= i < g.MainSegs() => sit.Stored(i).m),
            seq(g.MainSegs(), i requires 0 <= i < g.MainSegs() => sit.Stored(i).typ),
            curs)
  }

  /** The entry of one segment, looked for in the journal first. */
  method ReadSit(sit: Table<RawSit>, segno: nat) returns (raw: RawSit)
    requires sit.Valid() && segno < sit.nblocks * sit.per
    ensures raw == sit.Stored(segno)
  {
    var i := 0;
    while i < |sit.journal|
      invariant i <= |sit.journal| && forall k :: 0 <= k < i ==> sit.journal[k].0 != segno
    {
      if sit.journal[i].0 == segno {
        FoundAt(sit.journal, segno, i);
        return sit.journal[i].1;
      }
      i := i + 1;
    }
    BlockOf(sit.per, sit.nblocks, segno);
    raw := sit.disk[sit.Current(segno / sit.per)][segno % sit.per];
  }

  /** The section counters when the first n entries have been read. */
  ghost predicate CountedTo(g: Geo, d: Durable, secValid: seq<int>, n: nat)
    requires n <= |d.maps|
  {
    |secValid| == g.mainSecs
    && forall c :: 0 <= c < g.mainSecs ==> secValid[c] == (if g.segsPerSec > 1 then PartSum(g, d.maps, c, n) else 0)
  }

  /** One more segment counted into its section. */
  method CountInto(g: Geo, ghost d: Durable, segno: nat, valid: int, secValid: seq<int>) returns (r: seq<int>)
    requires DurableShape(g, d) && segno < |d.maps| && valid == |d.maps[segno]| && CountedTo(g, d, secValid, segno)
    ensures CountedTo(g, d, r, segno + 1)
  {
    r := secValid;
    if g.segsPerSec > 1 {
      SecInRange(g, segno);
      forall c | 0 <= c < g.mainSecs
        ensures PartSum(g, d.maps, c, segno + 1) == PartSum(g, d.maps, c, segno) + (if c == g.Sec(segno) then |d.maps[segno]| else 0)
      {
        OtherSection(g, segno, c);
      }
      r := r[g.Sec(segno) := r[g.Sec(segno)] + valid];
    }
  }

  lemma AllCounted(g: Geo, d: Durable, secValid: seq<int>)
    requires DurableShape(g, d) && CountedTo(g, d, secValid, |d.maps|)
    ensures secValid == Mount(g, d).secValid
  {
    forall c | 0 <= c < g.mainSecs
      ensures secValid[c] == Mount(g, d).secValid[c]
    {
      SecBounds(g, c);
    }
  }

  /** build_sit_entries: entries from the SIT, the journal overriding the blocks; section
      counters are summed on the way. */
  method BuildSitEntries(g: Geo, sit: Table<RawSit>, ghost curs: seq<Curseg>) returns (sentries: seq<SegEntry>, secValid: seq<int>)
    requires Covers(g, sit) && DurableShape(g, Saved(g, sit, curs))
    ensures sentries == Mount(g, Saved(g, sit, curs)).sentries
    ensures secValid == Mount(g, Saved(g, sit, curs)).secValid
  {
    ghost var d := Saved(g, sit, curs);
    sentries := [];
    secValid := seq(g.mainSecs, _ => 0);
    var segno := 0;
    while segno < g.MainSegs()
      invariant segno <= |d.maps| == g.MainSegs()
      invariant |sentries| == segno && forall i :: 0 <= i < segno ==> sentries[i] == MountedEntry(d.maps[i], d.types[i])
      invariant CountedTo(g, d, secValid, segno)
    {
      var raw := ReadSit(sit, segno);
      sentries := sentries + [SegEntry(|raw.m|, raw.m, |raw.m|, raw.m, raw.typ)];
      secValid := CountInto(g, d, segno, |raw.m|, secValid);
      segno := segno + 1;
    }
    AllCounted(g, d, secValid);
  }

  /** Of the empty segments those below n have been freed. */
  ghost predicate EmptyFreedTo(maps: seq<set<nat>>, inuse: set<nat>, n: nat) {
    forall i: nat :: i in inuse <==> i < |maps| && (n <= i || maps[i] != {})
  }

  /** init_free_segmap, first loop: starting from all bits set, empty segments are freed. */
  method FreeEmptySegments(g: Geo, sentries: seq<SegEntry>, ghost d: Durable) returns (f: FreeMap)
    requires DurableShape(g, d) && sentries == Mount(g, d).sentries
    ensures FreeOk(g, f)
    ensures forall i: nat :: i in f.inuse <==> i < |d.maps| && d.maps[i] != {}
  {
    var all := Below(|sentries|);
    f := FreeMap(all, 0, SecsOf(g, all), 0);
    AllSections(g);
    var segno := 0;
    while segno < |sentries|
      invariant segno <= |sentries|
      invariant FreeOk(g, f)
      invariant EmptyFreedTo(d.maps, f.inuse, segno)
    {
      assert sentries[segno] == MountedEntry(d.maps[segno], d.types[segno]);
      if sentries[segno].validBlocks == 0 {
        SetTestAndFreeOk(g, f, segno);
        f := SetTestAndFree(g, f, segno);
      }
      segno := segno + 1;
    }
  }

  /** init_free_segmap: the current segments are in use whatever their count. */
  method InitFreeSegmap(g: Geo, sentries: seq<SegEntry>, logs: seq<Curseg>, ghost d: Durable) returns (f: FreeMap)
    requires DurableShape(g, d) && sentries == Mount(g, d).sentries && logs == d.logs
    ensures f == MountedFree(g, d)
  {
    f := FreeEmptySegments(g, sentries, d);
    ghost var held := f.inuse;
    var t := 0;
    while t < NR_LOGS
      invariant t <= NR_LOGS
      invariant FreeOk(g, f)
      invariant forall i: nat :: i in f.inuse <==> i in held || UsedBy(logs, t, i)
    {
      UsedByOneMore(logs, t);
      if logs[t].segno !in f.inuse {
        SetInuseOk(g, f, logs[t].segno);
        f := SetInuse(g, f, logs[t].segno);
      }
      t := t + 1;
    }
    assert f.inuse == MountedInuse(d) by {
      forall i: nat ensures i in f.inuse <==> i in MountedInuse(d) {
        assert UsedBy(logs, NR_LOGS, i) <==> IsCurseg(logs, i);
      }
    }
  }

  lemma UsedByOneMore(logs: seq<Curseg>, t: LogType)
    requires |logs| == NR_LOGS
    ensures forall i: nat :: UsedBy(logs, t + 1, i) <==> UsedBy(logs, t, i) || logs[t].segno == i
  {
    forall i: nat ensures UsedBy(logs, t + 1, i) <==> UsedBy(logs, t, i) || logs[t].segno == i {
      if UsedBy(logs, t, i) {
        var u: LogType :| u < t && logs[u].segno == i;
        assert u < t + 1;
      }
      if logs[t].segno == i {
        assert t < t + 1;
      }
    }
  }

  /** One of the first n logs stands on segment i. */
  predicate UsedBy(logs: seq<Curseg>, n: nat, i: nat)
    requires |logs| == NR_LOGS
  {
    exists u: LogType :: u < n && logs[u].segno == i
  }

  function Below(n: nat): (r: set<nat>)
    ensures forall i: nat :: i in r <==> i < n
    ensures |r| == n
  {
    if n == 0 then {} else Below(n - 1) + {n - 1}
  }

  lemma AllSections(g: Geo)
    requires g.Valid()
    ensures FreeOk(g, FreeMap(Below(g.MainSegs()), 0, SecsOf(g, Below(g.MainSegs())), 0))
  {
    var all := Below(g.MainSegs());
    forall c: nat
      ensures c in SecsOf(g, all) <==> c < g.mainSecs
    {
      if c < g.mainSecs {
        SecBounds(g, c);
        OtherSection(g, c * g.segsPerSec, c);
        assert c * g.segsPerSec in all;
      } else if c in SecsOf(g, all) {
        var i :| i in all && g.Sec(i) == c;
        SecInRange(g, i);
      }
    }
    assert SecsOf(g, all) == Below(g.mainSecs);
  }

  /** The lists so far hold the dirty segments below offset. */
  ghost predicate MountedTo(g: Geo, d: Durable, lists: DirtyLists, offset: nat)
    requires DurableShape(g, d)
  {
    && DirtyOk(lists, |d.maps|)
    && (forall i :: i in lists.segmap[DIRTY] <==> i < offset && i in MountedDirty(g, d))
    && (forall t: LogType, i :: i in lists.segmap[t] <==> i in lists.segmap[DIRTY] && i < |d.types| && d.types[i] == t)
    && lists.segmap[PRE] == {}
  }

  /** One partly valid segment of init_dirty_segmap, current or not. */
  method MountDirtySegment(g: Geo, logs: seq<Curseg>, typ: LogType, lists: DirtyLists, segno: nat, ghost d: Durable) returns (r: DirtyLists)
    requires DurableShape(g, d) && segno < |d.maps| && MountedTo(g, d, lists, segno) && logs == d.logs && typ == d.types[segno]
    requires 0 < |d.maps[segno]| < g.blocksPerSeg && segno in MountedInuse(d)
    ensures MountedTo(g, d, r, segno + 1)
  {
    r := lists;
    if !IsCurseg(logs, segno) {
      ListedAsOk(lists, segno, DIRTY, typ, |d.maps|);
      r := ListedAs(lists, segno, DIRTY, typ);
    }
  }

  /** init_dirty_segmap: partly valid segments go on DIRTY and on their type's list, current ones do not. */
  method InitDirtySegmap(g: Geo, sentries: seq<SegEntry>, logs: seq<Curseg>, inuse: set<nat>, ghost d: Durable) returns (lists: DirtyLists)
    requires DurableShape(g, d) && sentries == Mount(g, d).sentries && logs == d.logs && inuse == MountedInuse(d)
    ensures lists == MountedLists(g, d)
  {
    lists := DirtyLists([{}, {}, {}, {}, {}, {}, {}, {}], [0, 0, 0, 0, 0, 0, 0, 0]);
    var offset := 0;
    while true
      invariant offset <= |sentries|
      invariant MountedTo(g, d, lists, offset)
      decreases |sentries| - offset
    {
      var segno := Gc.FindNext(inuse, |sentries|, offset);
      NotMountedBetween(g, d, offset, segno);
      if segno >= |sentries| {
        break;
      }
      offset := segno + 1;
      var e := sentries[segno];
      assert e == MountedEntry(d.maps[segno], d.types[segno]);
      if e.validBlocks >= g.blocksPerSeg || e.validBlocks == 0 {
        continue;
      }
      lists := MountDirtySegment(g, logs, e.typ, lists, segno, d);
    }
    MountedListsAre(g, d, lists);
  }

  lemma NotMountedBetween(g: Geo, d: Durable, offset: nat, segno: nat)
    requires DurableShape(g, d) && offset <= segno <= |d.maps|
    requires forall i :: offset <= i < segno ==> i !in MountedInuse(d)
    ensures forall i :: offset <= i < segno ==> i !in MountedDirty(g, d)
  {
    forall i | offset <= i < segno ensures i !in MountedDirty(g, d) {
      assert i !in MountedInuse(d);
    }
  }

  lemma MountedListsAre(g: Geo, d: Durable, lists: DirtyLists)
    requires DurableShape(g, d) && DirtyOk(lists, |d.maps|)
    requires lists.segmap[DIRTY] == MountedDirty(g, d) && lists.segmap[PRE] == {}
    requires forall t: LogType, i :: i in lists.segmap[t] <==> i in lists.segmap[DIRTY] && i < |d.types| && d.types[i] == t
    ensures lists == MountedLists(g, d)
  {
    var m := MountedDirty(g, d);
    var r := MountedLists(g, d);
    forall t: LogType ensures lists.segmap[t] == r.segmap[t] {
      assert r.segmap[t] == OfType(m, d.types, t);
    }
    assert lists.segmap == r.segmap;
    assert lists.nr == r.nr;
  }
}
