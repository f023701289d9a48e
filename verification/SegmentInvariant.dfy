/** The web of invariants between SIT entries, dirty lists, free maps and logs,
    and the lemmas that every operation keeps it. */
module SegmentInvariant {
  import opened SegmentState
  import opened Division

  // ----- accounting -----

  /** Counters agree with bitmaps, and a clean entry's two maps agree. */
  ghost predicate EntryOk(s: Segs, i: nat)
    requires i < |s.sentries|
  {
    var e := s.sentries[i];
    && (forall o :: o in e.curMap || o in e.ckptMap ==> o < s.geo.blocksPerSeg)
    && e.validBlocks == |e.curMap|
    && e.ckptValidBlocks == |e.curMap + e.ckptMap|
    && (i !in s.dirtySit ==> e.curMap == e.ckptMap)
  }

  ghost predicate EntriesOk(s: Segs) {
    && (forall i :: 0 <= i < |s.sentries| ==> EntryOk(s, i))
    && s.nDirtySit == |s.dirtySit|
    && (forall i :: i in s.dirtySit ==> i < |s.sentries|)
  }

  function SumValid(es: seq<SegEntry>, lo: nat, hi: nat): int
    requires lo <= hi <= |es|
    decreases hi - lo
  {
    if lo == hi then 0 else SumValid(es, lo, hi - 1) + es[hi - 1].validBlocks
  }

  function SectionSum(s: Segs, c: nat): int
    requires s.Shape() && c < s.geo.mainSecs
  {
    SecBounds(s.geo, c);
    SumValid(s.sentries, c * s.geo.segsPerSec, c * s.geo.segsPerSec + s.geo.segsPerSec)
  }

  /** Section counters are the sums of their segments' counters. */
  ghost predicate SectionsOk(s: Segs)
    requires s.Shape()
  {
    s.geo.segsPerSec > 1 ==> forall c :: 0 <= c < s.geo.mainSecs ==> s.secValid[c] == SectionSum(s, c)
  }

  // ----- free maps -----

  /** A section bit is set exactly when one of its segments is in use; the counters count clear bits. */
  ghost predicate FreeOk(g: Geo, f: FreeMap)
    requires g.Valid()
  {
    && (forall i :: i in f.inuse ==> i < g.MainSegs())
    && f.inuseSecs == SecsOf(g, f.inuse)
    && f.freeSegments == g.MainSegs() - |f.inuse|
    && f.freeSections == g.mainSecs - |f.inuseSecs|
  }

  // ----- dirty lists -----

  ghost predicate DirtyOk(d: DirtyLists, n: nat) {
    && d.Valid()
    && (forall t: DirtyType :: d.nr[t] == |d.segmap[t]|)
    && (forall t: DirtyType, i :: i in d.segmap[t] ==> i < n)
  }

  /** The per-type lists split DIRTY by segment type. */
  ghost predicate TypeSplit(s: Segs, i: nat)
    requires s.Shape() && i < |s.sentries|
  {
    forall t: LogType :: i in s.dirty.segmap[t] <==> i in s.dirty.segmap[DIRTY] && s.sentries[i].typ == t
  }

  /** Segment i is filed where its use and its valid count say: current, free,
      pre-free (no valid block left), dirty or full. */
  ghost predicate Placed(s: Segs, i: nat)
    requires s.Shape() && i < |s.sentries|
  {
    var e := s.sentries[i];
    var d := s.dirty.segmap;
    && TypeSplit(s, i)
    && if IsCurseg(s.logs, i) then i in s.free.inuse && i !in d[DIRTY] && i !in d[PRE]
       else if i !in s.free.inuse then e.curMap == {} && e.ckptMap == {} && i !in d[DIRTY] && i !in d[PRE]
       else (i in d[PRE] <==> e.validBlocks == 0) && (i in d[DIRTY] <==> 0 < e.validBlocks < s.geo.blocksPerSeg)
  }

  /** What locate_dirty_segment needs to file segment i correctly. */
  ghost predicate Loose(s: Segs, i: nat)
    requires s.Shape() && i < |s.sentries|
  {
    && TypeSplit(s, i)
    && i in s.free.inuse
    && (i in s.dirty.segmap[PRE] ==> s.sentries[i].validBlocks == 0)
    && (IsCurseg(s.logs, i) ==> i !in s.dirty.segmap[DIRTY] && i !in s.dirty.segmap[PRE])
  }

  /** Every segment is placed, except that those in x may be only loose. */
  ghost predicate PlacedBut(s: Segs, x: set<nat>)
    requires s.Shape()
  {
    forall i :: 0 <= i < |s.sentries| ==> if i in x then Loose(s, i) else Placed(s, i)
  }

  // ----- logs -----

  /** Offset off is still to be written by a log at position c. */
  predicate Ahead(c: Curseg, off: nat) {
    if c.allocType.LFS? then c.nextBlkoff <= off else c.nextBlkoff == off
  }

  /** The log's segment carries its type, and everything ahead of it is free in both maps. */
  ghost predicate LogOk(s: Segs, t: LogType)
    requires s.Shape()
  {
    var c := s.logs[t];
    && s.sentries[c.segno].typ == t
    && forall off :: Ahead(c, off) ==> OffFree(s.sentries[c.segno], off)
  }

  ghost predicate LogsDistinct(logs: seq<Curseg>)
    requires |logs| == NR_LOGS
  {
    forall t: LogType, u: LogType :: t != u ==> logs[t].segno != logs[u].segno
  }

  /** Holds in the middle of an operation too; x are the segments still to be filed. */
  ghost predicate Core(s: Segs, x: set<nat>) {
    && s.Shape()
    && EntriesOk(s)
    && SectionsOk(s)
    && FreeOk(s.geo, s.free)
    && DirtyOk(s.dirty, |s.sentries|)
    && PlacedBut(s, x)
    && LogsDistinct(s.logs)
    && forall t: LogType :: s.sentries[s.logs[t].segno].typ == t
  }

  ghost predicate LogsOk(s: Segs)
    requires s.Shape()
  {
    forall t: LogType :: LogOk(s, t)
  }

  ghost predicate LogsHaveRoom(s: Segs)
    requires s.Shape()
  {
    forall t: LogType :: s.logs[t].nextBlkoff < s.geo.blocksPerSeg
  }

  /** The invariant between operations. */
  ghost predicate Inv(s: Segs) {
    Core(s, {}) && LogsOk(s) && LogsHaveRoom(s)
  }

  // ----- section sums under one update -----

  lemma {:induction false} SumValidUpdate(es: seq<SegEntry>, i: nat, e: SegEntry, lo: nat, hi: nat)
    requires i < |es| && lo <= hi <= |es|
    ensures SumValid(es[i := e], lo, hi)
         == SumValid(es, lo, hi) + (if lo <= i < hi then e.validBlocks - es[i].validBlocks else 0)
    decreases hi - lo
  {
    if lo < hi {
      SumValidUpdate(es, i, e, lo, hi - 1);
    }
  }

  lemma OtherSection(g: Geo, i: nat, c: nat)
    requires g.Valid() && i < g.MainSegs() && c < g.mainSecs
    ensures g.Sec(i) == c <==> c * g.segsPerSec <= i < c * g.segsPerSec + g.segsPerSec
  {
    DivIs(i, g.segsPerSec, c);
  }

  lemma UpdateSitSections(s: Segs, segno: nat, off: nat, add: bool)
    requires s.Shape() && segno < |s.sentries| && SectionsOk(s)
    ensures SectionsOk(UpdateSit(s, segno, off, add))
  {
    var r := UpdateSit(s, segno, off, add);
    if s.geo.segsPerSec > 1 {
      SecInRange(s.geo, segno);
      forall c | 0 <= c < s.geo.mainSecs
        ensures r.secValid[c] == SectionSum(r, c)
      {
        SecBounds(s.geo, c);
        OtherSection(s.geo, segno, c);
        SumValidUpdate(s.sentries, segno, EntryAfter(s.sentries[segno], off, add),
                       c * s.geo.segsPerSec, c * s.geo.segsPerSec + s.geo.segsPerSec);
      }
    }
  }

  lemma SameCountsSections(s: Segs, r: Segs)
    requires s.Shape() && r.Shape() && SectionsOk(s)
    requires r.geo == s.geo && r.secValid == s.secValid
    requires forall i :: 0 <= i < |s.sentries| ==> r.sentries[i].validBlocks == s.sentries[i].validBlocks
    ensures SectionsOk(r)
  {
    if s.geo.segsPerSec > 1 {
      forall c | 0 <= c < s.geo.mainSecs
        ensures r.secValid[c] == SectionSum(r, c)
      {
        SecBounds(s.geo, c);
        SameSum(s.sentries, r.sentries, c * s.geo.segsPerSec, c * s.geo.segsPerSec + s.geo.segsPerSec);
      }
    }
  }

  lemma {:induction false} SameSum(es: seq<SegEntry>, fs: seq<SegEntry>, lo: nat, hi: nat)
    requires |es| == |fs| && lo <= hi <= |es|
    requires forall i :: 0 <= i < |es| ==> es[i].validBlocks == fs[i].validBlocks
    ensures SumValid(es, lo, hi) == SumValid(fs, lo, hi)
    decreases hi - lo
  {
    if lo < hi {
      SameSum(es, fs, lo, hi - 1);
    }
  }

  // ----- one SIT update -----

  lemma EntryAfterOk(e: SegEntry, off: nat, add: bool)
    requires e.validBlocks == |e.curMap| && e.ckptValidBlocks == |e.curMap + e.ckptMap|
    requires add <==> off !in e.curMap
    ensures var r := EntryAfter(e, off, add);
            r.validBlocks == |r.curMap| && r.ckptValidBlocks == |r.curMap + r.ckptMap|
  {
    var r := EntryAfter(e, off, add);
    var u := e.curMap + e.ckptMap;
    if off in e.ckptMap {
      assert r.curMap + r.ckptMap == u;
    } else if add {
      assert r.curMap + r.ckptMap == u + {off};
    } else {
      assert r.curMap + r.ckptMap == u - {off};
    }
  }

  /** update_sit_entry never trips its bug checks here, keeps all accounting,
      and leaves only its own segment to be filed. */
  lemma UpdateSitKeeps(s: Segs, segno: nat, off: nat, add: bool, x: set<nat>)
    requires Core(s, x) && segno < |s.sentries| && off < s.geo.blocksPerSeg
    requires add <==> off !in s.sentries[segno].curMap
    requires segno in s.free.inuse
    requires add ==> segno !in s.dirty.segmap[PRE]
    ensures Core(UpdateSit(s, segno, off, add), x + {segno})
    ensures 0 <= UpdateSit(s, segno, off, add).sentries[segno].validBlocks <= s.geo.blocksPerSeg
  {
    var r := UpdateSit(s, segno, off, add);
    var e := s.sentries[segno];
    assert EntryOk(s, segno);
    EntryAfterOk(e, off, add);
    assert EntryOk(r, segno);
    forall i | 0 <= i < |r.sentries|
      ensures EntryOk(r, i)
      ensures if i in x + {segno} then Loose(r, i) else Placed(r, i)
    {
      assert EntryOk(s, i);
      assert if i in x then Loose(s, i) else Placed(s, i);
    }
    UpdateSitSections(s, segno, off, add);
    BoundedCard(r.sentries[segno].curMap, s.geo.blocksPerSeg);
  }

  lemma {:induction false} BoundedCard(m: set<nat>, n: nat)
    requires forall o :: o in m ==> o < n
    ensures |m| <= n
  {
    if n == 0 {
      assert m == {};
    } else {
      BoundedCard(m - {n - 1}, n - 1);
    }
  }

  /** A set below n with fewer than n members misses an offset. */
  lemma {:induction false} FreeOffsetExists(m: set<nat>, n: nat) returns (off: nat)
    requires forall o :: o in m ==> o < n
    requires |m| < n
    ensures off < n && off !in m
  {
    if n - 1 in m {
      off := FreeOffsetExists(m - {n - 1}, n - 1);
    } else {
      off := n - 1;
    }
  }

  // ----- filing -----

  lemma AddToOk(d: DirtyLists, segno: nat, t: DirtyType, n: nat)
    requires DirtyOk(d, n) && segno < n
    ensures DirtyOk(AddTo(d, segno, t), n)
  {
    OneMore(d.segmap[t], segno);
  }

  lemma RemoveFromOk(d: DirtyLists, segno: nat, t: DirtyType, n: nat)
    requires DirtyOk(d, n)
    ensures DirtyOk(RemoveFrom(d, segno, t), n)
  {
  }

  lemma ListedAsOk(d: DirtyLists, segno: nat, t: DirtyType, typ: LogType, n: nat)
    requires DirtyOk(d, n) && segno < n
    ensures DirtyOk(ListedAs(d, segno, t, typ), n)
    ensures forall u: DirtyType, i :: i in ListedAs(d, segno, t, typ).segmap[u] <==>
              i in d.segmap[u] || (i == segno && (u == t || (t == DIRTY && u == typ)))
  {
    AddToOk(d, segno, t, n);
    AddToOk(AddTo(d, segno, t), segno, typ, n);
  }

  lemma UnlistedOk(d: DirtyLists, segno: nat, t: DirtyType, typ: LogType, n: nat)
    requires DirtyOk(d, n)
    ensures DirtyOk(Unlisted(d, segno, t, typ), n)
    ensures forall u: DirtyType, i :: i in Unlisted(d, segno, t, typ).segmap[u] <==>
              i in d.segmap[u] && !(i == segno && (u == t || (t == DIRTY && u == typ)))
  {
    RemoveFromOk(d, segno, t, n);
    RemoveFromOk(RemoveFrom(d, segno, t), segno, typ, n);
  }

  /** Nothing but the lists (and victim bits) changed, and of the lists only segno's membership. */
  ghost predicate OnlyRefiled(s: Segs, r: Segs, segno: nat)
    requires s.Shape() && r.Shape()
  {
    && r == s.(dirty := r.dirty, victimSecs := r.victimSecs)
    && forall u: DirtyType, i :: i != segno ==> (i in r.dirty.segmap[u] <==> i in s.dirty.segmap[u])
  }

  lemma RefiledCore(s: Segs, r: Segs, segno: nat, x: set<nat>)
    requires Core(s, x) && segno < |s.sentries| && r.Shape()
    requires OnlyRefiled(s, r, segno) && DirtyOk(r.dirty, |s.sentries|) && Placed(r, segno)
    ensures Core(r, x - {segno})
  {
    forall i | 0 <= i < |r.sentries|
      ensures EntryOk(r, i)
      ensures if i in x - {segno} then Loose(r, i) else Placed(r, i)
    {
      assert EntryOk(s, i);
      assert if i in x then Loose(s, i) else Placed(s, i);
    }
    SameCountsSections(s, r);
  }

  lemma LocateLists(s: Segs, segno: nat)
    requires s.Shape() && DirtyOk(s.dirty, |s.sentries|) && segno < |s.sentries|
    requires EntryOk(s, segno) && (Loose(s, segno) || Placed(s, segno)) && segno in s.free.inuse
    ensures OnlyRefiled(s, Locate(s, segno), segno)
    ensures DirtyOk(Locate(s, segno).dirty, |s.sentries|)
    ensures Placed(Locate(s, segno), segno)
  {
    var e := s.sentries[segno];
    var n := |s.sentries|;
    if IsCurseg(s.logs, segno) {
    } else if e.validBlocks == 0 {
      ListedAsOk(s.dirty, segno, PRE, e.typ, n);
      UnlistedOk(ListedAs(s.dirty, segno, PRE, e.typ), segno, DIRTY, e.typ, n);
    } else if e.validBlocks < s.geo.blocksPerSeg {
      ListedAsOk(s.dirty, segno, DIRTY, e.typ, n);
    } else {
      UnlistedOk(s.dirty, segno, DIRTY, e.typ, n);
    }
  }

  /** locate_dirty_segment files its segment, whatever list it was on. */
  lemma LocateKeeps(s: Segs, segno: nat, x: set<nat>)
    requires Core(s, x) && segno < |s.sentries|
    requires segno in s.free.inuse
    ensures Core(Locate(s, segno), x - {segno})
    ensures OnlyRefiled(s, Locate(s, segno), segno)
  {
    assert EntryOk(s, segno);
    LocateLists(s, segno);
    RefiledCore(s, Locate(s, segno), segno, x);
  }

  // ----- free maps -----

  lemma SetInuseOk(g: Geo, f: FreeMap, segno: nat)
    requires g.Valid() && FreeOk(g, f) && segno < g.MainSegs() && segno !in f.inuse
    ensures FreeOk(g, SetInuse(g, f, segno))
  {
    SecsOfAdd(g, f.inuse, segno);
    OneMore(f.inuse, segno);
    OneMore(f.inuseSecs, g.Sec(segno));
  }

  lemma SecsOfAdd(g: Geo, inuse: set<nat>, segno: nat)
    requires g.Valid()
    ensures SecsOf(g, inuse + {segno}) == SecsOf(g, inuse) + {g.Sec(segno)}
  {
  }

  lemma OneMore(m: set<nat>, x: nat)
    ensures |m + {x}| == if x in m then |m| else |m| + 1
  {
    if x in m {
      assert m + {x} == m;
    }
  }

  lemma SectionIdleMeaning(g: Geo, inuse: set<nat>, secno: nat)
    requires g.Valid() && secno < g.mainSecs && forall i :: i in inuse ==> i < g.MainSegs()
    ensures SectionIdle(g, inuse, secno) <==> secno !in SecsOf(g, inuse)
  {
    forall i | i in inuse
      ensures g.Sec(i) == secno <==> secno * g.segsPerSec <= i < secno * g.segsPerSec + g.segsPerSec
    {
      OtherSection(g, i, secno);
    }
  }

  /** __set_test_and_free clears the section bit exactly when the section has emptied. */
  lemma SetTestAndFreeOk(g: Geo, f: FreeMap, segno: nat)
    requires g.Valid() && FreeOk(g, f) && segno < g.MainSegs()
    ensures FreeOk(g, SetTestAndFree(g, f, segno))
  {
    if segno in f.inuse {
      var left := f.inuse - {segno};
      SecInRange(g, segno);
      SectionIdleMeaning(g, left, g.Sec(segno));
      assert f.inuse == left + {segno};
      assert SecsOf(g, f.inuse) == SecsOf(g, left) + {g.Sec(segno)};
    }
  }

  lemma SetPrefreeFreeOk(s: Segs)
    requires s.Shape() && FreeOk(s.geo, s.free)
    ensures FreeOk(s.geo, SetPrefreeFree(s).free)
  {
    var pre := s.dirty.segmap[PRE];
    var left := s.free.inuse - pre;
    var both := s.free.inuse * pre;
    var r := SetPrefreeFree(s).free;
    assert s.free.inuse == left + both;
    assert SecsOf(s.geo, s.free.inuse) == SecsOf(s.geo, left) + SecsOf(s.geo, both);
    assert r.inuseSecs == SecsOf(s.geo, left);
    var gone := s.free.inuseSecs - r.inuseSecs;
    assert s.free.inuseSecs == r.inuseSecs + gone;
  }

  // ----- what filing and refreshing leave alone -----

  lemma OnlyFiled(s: Segs, segno: nat)
    requires s.Shape() && segno < |s.sentries|
    ensures Locate(s, segno) == s.(dirty := Locate(s, segno).dirty, victimSecs := Locate(s, segno).victimSecs)
  {
  }

  lemma OnlyFiledAddr(s: Segs, a: Addr)
    requires s.Shape() && s.InMain(a)
    ensures LocateAddr(s, a) == s.(dirty := LocateAddr(s, a).dirty, victimSecs := LocateAddr(s, a).victimSecs)
  {
  }

  /** s's entries and r's differ in the running map and the counters at most. */
  ghost predicate SameTypes(s: Segs, r: Segs) {
    |r.sentries| == |s.sentries| && forall i :: 0 <= i < |s.sentries| ==> r.sentries[i].typ == s.sentries[i].typ
  }

  /** refresh_sit_entry touches no log, no free map and no type. */
  lemma RefreshElsewhere(s: Segs, old_: Addr, new_: Addr)
    requires s.Shape() && s.InMain(old_) && s.InMain(new_) && new_.Blk?
    ensures Refresh(s, old_, new_).logs == s.logs && Refresh(s, old_, new_).free == s.free
    ensures SameTypes(s, Refresh(s, old_, new_))
  {
    var s1 := DropOld(UpdateSit(s, new_.segno, new_.off, true), old_);
    assert s1.logs == s.logs && s1.free == s.free && SameTypes(s, s1);
    OnlyFiledAddr(s1, old_);
    OnlyFiledAddr(LocateAddr(s1, old_), new_);
  }

  /** What it does to the running maps. */
  lemma RefreshedMaps(s: Segs, old_: Addr, new_: Addr, i: nat)
    requires s.Shape() && s.InMain(old_) && s.InMain(new_) && new_.Blk? && i < |s.sentries|
    ensures |Refresh(s, old_, new_).sentries| == |s.sentries|
    ensures Refresh(s, old_, new_).sentries[i].curMap ==
              s.sentries[i].curMap + (if i == new_.segno then {new_.off} else {})
              - (if old_.Blk? && i == old_.segno then {old_.off} else {})
  {
    var s1 := DropOld(UpdateSit(s, new_.segno, new_.off, true), old_);
    OnlyFiledAddr(s1, old_);
    OnlyFiledAddr(LocateAddr(s1, old_), new_);
  }

  /** invalidate_blocks likewise. */
  lemma InvalidateElsewhere(s: Segs, a: Addr)
    requires s.Shape() && s.InMain(a) && !a.NullAddr?
    ensures Invalidate(s, a).logs == s.logs && Invalidate(s, a).free == s.free
    ensures SameTypes(s, Invalidate(s, a))
    ensures forall i :: 0 <= i < |s.sentries| ==>
              Invalidate(s, a).sentries[i].curMap == s.sentries[i].curMap - (if a.Blk? && i == a.segno then {a.off} else {})
  {
    OnlyFiledAddr(DropOld(s, a), a);
  }

  // ----- switching logs -----

  /** What new_curseg and change_curseg have in common: log t moves to segno,
      which is then in use, typed t and on no list. */
  ghost predicate MovedLog(s: Segs, r: Segs, t: LogType, segno: nat)
    requires s.Shape() && r.Shape() && segno < |s.sentries|
  {
    && r.geo == s.geo
    && r.sentries == s.sentries[segno := s.sentries[segno].(typ := t)]
    && r.secValid == s.secValid
    && r.dirtySit == s.dirtySit + {segno}
    && r.nDirtySit == MarkCount(s.dirtySit, s.nDirtySit, segno)
    && r.logs == s.logs[t := r.logs[t]] && r.logs[t].segno == segno
    && r.free.inuse == s.free.inuse + {segno}
    && forall u: DirtyType, i :: i in r.dirty.segmap[u] <==> i != segno && i in s.dirty.segmap[u]
  }

  lemma LeftSegmentUnlisted(s: Segs, t: LogType, x: set<nat>)
    requires Core(s, x)
    ensures var c := s.logs[t].segno;
            c in s.free.inuse && c !in s.dirty.segmap[DIRTY] && c !in s.dirty.segmap[PRE]
  {
    var c := s.logs[t].segno;
    assert IsCurseg(s.logs, c);
    assert if c in x then Loose(s, c) else Placed(s, c);
  }

  lemma MovedLogPlace(s: Segs, r: Segs, t: LogType, segno: nat, x: set<nat>, i: nat)
    requires Core(s, x) && r.Shape() && segno < |s.sentries| && !IsCurseg(s.logs, segno)
    requires MovedLog(s, r, t, segno) && i < |s.sentries|
    ensures if i in (x - {segno}) + {s.logs[t].segno} then Loose(r, i) else Placed(r, i)
  {
    assert if i in x then Loose(s, i) else Placed(s, i);
    LeftSegmentUnlisted(s, t, x);
    assert r.logs[t].segno == segno;
    if i == segno {
      assert IsCurseg(r.logs, i);
    } else if i != s.logs[t].segno {
      assert IsCurseg(r.logs, i) <==> IsCurseg(s.logs, i) by {
        forall u: LogType ensures u != t ==> r.logs[u] == s.logs[u] {}
      }
    } else {
      assert forall u: LogType :: u != t ==> s.logs[u].segno != i;
      assert !IsCurseg(r.logs, i);
    }
  }

  lemma MovedLogCore(s: Segs, r: Segs, t: LogType, segno: nat, x: set<nat>)
    requires Core(s, x) && r.Shape() && segno < |s.sentries| && !IsCurseg(s.logs, segno)
    requires MovedLog(s, r, t, segno) && FreeOk(r.geo, r.free) && DirtyOk(r.dirty, |s.sentries|)
    ensures Core(r, (x - {segno}) + {s.logs[t].segno})
  {
    assert SectionsOk(r) by { SameCountsSections(s, r); }
    assert EntriesOk(r) by { MovedLogEntries(s, r, t, segno); }
    assert PlacedBut(r, (x - {segno}) + {s.logs[t].segno}) by {
      forall i | 0 <= i < |r.sentries|
        ensures if i in (x - {segno}) + {s.logs[t].segno} then Loose(r, i) else Placed(r, i)
      {
        MovedLogPlace(s, r, t, segno, x, i);
      }
    }
    MovedLogTypes(s, r, t, segno);
  }

  lemma MovedLogEntries(s: Segs, r: Segs, t: LogType, segno: nat)
    requires s.Shape() && EntriesOk(s) && r.Shape() && segno < |s.sentries| && MovedLog(s, r, t, segno)
    ensures EntriesOk(r)
  {
    assert segno in s.dirtySit ==> s.dirtySit + {segno} == s.dirtySit;
    forall i | 0 <= i < |r.sentries|
      ensures EntryOk(r, i)
    {
      assert EntryOk(s, i);
    }
  }

  lemma MovedLogTypes(s: Segs, r: Segs, t: LogType, segno: nat)
    requires s.Shape() && r.Shape() && segno < |s.sentries| && !IsCurseg(s.logs, segno) && MovedLog(s, r, t, segno)
    requires LogsDistinct(s.logs) && forall u: LogType :: s.sentries[s.logs[u].segno].typ == u
    ensures LogsDistinct(r.logs) && forall u: LogType :: r.sentries[r.logs[u].segno].typ == u
  {
    forall u: LogType
      ensures r.sentries[r.logs[u].segno].typ == u
      ensures u != t ==> r.logs[u] == s.logs[u]
    {
      assert s.sentries[s.logs[u].segno].typ == u;
    }
  }

  lemma FreeNotCurrent(s: Segs, segno: nat, x: set<nat>)
    requires Core(s, x) && segno < |s.sentries| && segno !in s.free.inuse
    ensures segno !in x && !IsCurseg(s.logs, segno)
    ensures forall u: DirtyType :: segno !in s.dirty.segmap[u]
    ensures s.sentries[segno].curMap == {} && s.sentries[segno].ckptMap == {}
  {
    assert if segno in x then Loose(s, segno) else Placed(s, segno);
  }

  lemma NewCursegMoves(s: Segs, t: LogType, segno: nat)
    requires s.Shape() && segno < |s.sentries| && forall u: DirtyType :: segno !in s.dirty.segmap[u]
    ensures MovedLog(s, NewCurseg(s, t, segno), t, segno)
    ensures NewCurseg(s, t, segno).free == SetInuse(s.geo, s.free, segno) && NewCurseg(s, t, segno).dirty == s.dirty
  {
  }

  /** new_curseg: the log's old segment is left to be filed. */
  lemma NewCursegKeeps(s: Segs, t: LogType, segno: nat, x: set<nat>)
    requires Core(s, x) && segno < |s.sentries| && segno !in s.free.inuse
    ensures Core(NewCurseg(s, t, segno), x + {s.logs[t].segno})
    ensures LogOk(NewCurseg(s, t, segno), t)
  {
    FreeNotCurrent(s, segno, x);
    NewCursegMoves(s, t, segno);
    SetInuseOk(s.geo, s.free, segno);
    MovedLogCore(s, NewCurseg(s, t, segno), t, segno, x);
    assert (x - {segno}) + {s.logs[t].segno} == x + {s.logs[t].segno};
  }

  /** change_curseg: the victim leaves every list, and the log starts at its
      first hole if the SSR cost said there is one. */
  lemma ChangeCursegKeeps(s: Segs, t: LogType, segno: nat, x: set<nat>)
    requires Core(s, x) && segno < |s.sentries| && !IsCurseg(s.logs, segno)
    ensures Core(ChangeCurseg(s, t, segno), (x - {segno}) + {s.logs[t].segno})
    ensures LogOk(ChangeCurseg(s, t, segno), t)
    ensures s.sentries[segno].ckptValidBlocks < s.geo.blocksPerSeg
        ==> ChangeCurseg(s, t, segno).logs[t].nextBlkoff < s.geo.blocksPerSeg
  {
    assert EntryOk(s, segno);
    ChangeCursegHole(s, t, segno);
    ChangeCursegMoves(s, t, segno, x);
    MovedLogCore(s, ChangeCurseg(s, t, segno), t, segno, x);
  }

  lemma ChangeCursegLists(s: Segs, segno: nat)
    requires s.Shape() && DirtyOk(s.dirty, |s.sentries|) && segno < |s.sentries| && TypeSplit(s, segno)
    ensures var e := s.sentries[segno];
            var r := Unlisted(Unlisted(s.dirty, segno, PRE, e.typ), segno, DIRTY, e.typ);
            DirtyOk(r, |s.sentries|) && forall u: DirtyType, i :: i in r.segmap[u] <==> i != segno && i in s.dirty.segmap[u]
  {
    var e := s.sentries[segno];
    UnlistedOk(s.dirty, segno, PRE, e.typ, |s.sentries|);
    UnlistedOk(Unlisted(s.dirty, segno, PRE, e.typ), segno, DIRTY, e.typ, |s.sentries|);
  }

  lemma TestAndInuseOk(g: Geo, f: FreeMap, segno: nat)
    requires g.Valid() && FreeOk(g, f) && segno < g.MainSegs()
    ensures FreeOk(g, SetTestAndInuse(g, f, segno)) && SetTestAndInuse(g, f, segno).inuse == f.inuse + {segno}
  {
    if segno !in f.inuse {
      SetInuseOk(g, f, segno);
    }
  }

  lemma ChangeCursegMoves(s: Segs, t: LogType, segno: nat, x: set<nat>)
    requires Core(s, x) && segno < |s.sentries|
    ensures var r := ChangeCurseg(s, t, segno);
            MovedLog(s, r, t, segno) && FreeOk(r.geo, r.free) && DirtyOk(r.dirty, |s.sentries|)
  {
    assert TypeSplit(s, segno) by { assert if segno in x then Loose(s, segno) else Placed(s, segno); }
    TestAndInuseOk(s.geo, s.free, segno);
    ChangeCursegLists(s, segno);
  }

  lemma ChangeCursegHole(s: Segs, t: LogType, segno: nat)
    requires s.Shape() && segno < |s.sentries| && EntryOk(s, segno)
    ensures LogOk(ChangeCurseg(s, t, segno), t)
    ensures s.sentries[segno].ckptValidBlocks < s.geo.blocksPerSeg
        ==> ChangeCurseg(s, t, segno).logs[t].nextBlkoff < s.geo.blocksPerSeg
  {
    var e := s.sentries[segno];
    if e.ckptValidBlocks < s.geo.blocksPerSeg {
      var off := FreeOffsetExists(e.curMap + e.ckptMap, s.geo.blocksPerSeg);
      assert OffFree(e, off);
    }
  }

  // ----- taking a block -----

  /** Advancing a log steps over exactly the block handed out. */
  lemma AdvanceKeeps(s: Segs, t: LogType)
    requires Inv(s)
    ensures Core(Advance(s, t), {}) && LogsOk(Advance(s, t))
    ensures !Ahead(Advance(s, t).logs[t], s.logs[t].nextBlkoff)
    ensures forall u: LogType :: u != t ==> Advance(s, t).logs[u] == s.logs[u]
  {
    var r := Advance(s, t);
    forall i | 0 <= i < |r.sentries|
      ensures EntryOk(r, i)
      ensures Placed(r, i)
    {
      assert EntryOk(s, i);
      assert Placed(s, i);
      assert IsCurseg(r.logs, i) <==> IsCurseg(s.logs, i) by {
        forall u: LogType ensures r.logs[u].segno == s.logs[u].segno {}
      }
    }
    SameCountsSections(s, r);
    assert LogOk(s, t) && EntryOk(s, s.logs[t].segno);
    assert LogOk(r, t);
    forall u: LogType ensures LogOk(r, u) {
      assert LogOk(s, u);
    }
  }

  lemma UpdateSitLogs(s: Segs, segno: nat, off: nat, add: bool)
    requires s.Shape() && LogsOk(s) && segno < |s.sentries|
    requires add ==> forall u: LogType :: s.logs[u].segno == segno ==> !Ahead(s.logs[u], off)
    ensures LogsOk(UpdateSit(s, segno, off, add))
  {
    var r := UpdateSit(s, segno, off, add);
    forall u: LogType ensures LogOk(r, u) {
      assert LogOk(s, u);
    }
  }

  lemma LocateLogs(s: Segs, r: Segs)
    requires s.Shape() && LogsOk(s) && r.Shape() && r.sentries == s.sentries && r.logs == s.logs
    ensures LogsOk(r)
  {
    forall u: LogType ensures LogOk(r, u) {
      assert LogOk(s, u);
    }
  }

  /** The checkpointed maps are the same in both states. */
  ghost predicate SameCkpt(s: Segs, r: Segs) {
    |r.sentries| == |s.sentries| && forall i :: 0 <= i < |s.sentries| ==> r.sentries[i].ckptMap == s.sentries[i].ckptMap
  }

  /** a is a valid block now. */
  predicate ValidBlk(s: Segs, a: Addr) {
    a.Blk? && a.segno < |s.sentries| && a.off in s.sentries[a.segno].curMap
  }

  lemma ValidBlkInuse(s: Segs, a: Addr, x: set<nat>)
    requires Core(s, x) && ValidBlk(s, a)
    ensures a.segno in s.free.inuse && a.off < s.geo.blocksPerSeg
  {
    assert EntryOk(s, a.segno);
    assert if a.segno in x then Loose(s, a.segno) else Placed(s, a.segno);
  }

  /** The segments refresh_sit_entry files. */
  function Refiled(old_: Addr, new_: Addr): set<nat>
    requires new_.Blk?
  {
    {new_.segno} + (if old_.Blk? then {old_.segno} else {})
  }

  /** The segment may receive a new block: in use and not on the pre-free list. */
  ghost predicate Receiving(s: Segs, a: Addr)
    requires s.Shape()
  {
    && a.Blk? && a.segno < |s.sentries| && a.off < s.geo.blocksPerSeg
    && a.segno in s.free.inuse && a.segno !in s.dirty.segmap[PRE]
  }

  lemma UpdateBoth(s: Segs, old_: Addr, new_: Addr, x: set<nat>)
    requires Core(s, x) && Receiving(s, new_) && !ValidBlk(s, new_) && (old_.Blk? ==> ValidBlk(s, old_))
    ensures var r := DropOld(UpdateSit(s, new_.segno, new_.off, true), old_);
            Core(r, x + Refiled(old_, new_)) && SameCkpt(s, r) && r.logs == s.logs && r.free == s.free && r.geo == s.geo
  {
    var s1 := UpdateSit(s, new_.segno, new_.off, true);
    UpdateSitKeeps(s, new_.segno, new_.off, true, x);
    if old_.Blk? {
      ValidBlkInuse(s, old_, x);
      UpdateSitKeeps(s1, old_.segno, old_.off, false, x + {new_.segno});
      assert x + {new_.segno} + {old_.segno} == x + Refiled(old_, new_);
    } else {
      assert x + {new_.segno} == x + Refiled(old_, new_);
    }
  }

  lemma LocateBoth(s: Segs, old_: Addr, new_: Addr, y: set<nat>)
    requires Core(s, y) && new_.Blk? && s.InMain(new_) && s.InMain(old_)
    requires new_.segno in s.free.inuse && (old_.Blk? ==> old_.segno in s.free.inuse)
    ensures var r := LocateAddr(LocateAddr(s, old_), new_);
            Core(r, y - Refiled(old_, new_)) && r == s.(dirty := r.dirty, victimSecs := r.victimSecs)
  {
    if old_.Blk? {
      LocateKeeps(s, old_.segno, y);
      LocateKeeps(Locate(s, old_.segno), new_.segno, y - {old_.segno});
      assert y - {old_.segno} - {new_.segno} == y - Refiled(old_, new_);
    } else {
      LocateKeeps(s, new_.segno, y);
      assert y - {new_.segno} == y - Refiled(old_, new_);
    }
  }

  /** refresh_sit_entry: both bitmaps change, both segments are filed. */
  lemma RefreshCore(s: Segs, old_: Addr, new_: Addr, x: set<nat>)
    requires Core(s, x) && Receiving(s, new_) && !ValidBlk(s, new_) && (old_.Blk? ==> ValidBlk(s, old_))
    ensures Core(Refresh(s, old_, new_), x - Refiled(old_, new_))
    ensures Refresh(s, old_, new_).logs == s.logs && Refresh(s, old_, new_).geo == s.geo
    ensures Refresh(s, old_, new_).free == s.free
    ensures SameCkpt(s, Refresh(s, old_, new_))
  {
    UpdateBoth(s, old_, new_, x);
    if old_.Blk? {
      ValidBlkInuse(s, old_, x);
    }
    var s2 := DropOld(UpdateSit(s, new_.segno, new_.off, true), old_);
    LocateBoth(s2, old_, new_, x + Refiled(old_, new_));
    assert x + Refiled(old_, new_) - Refiled(old_, new_) == x - Refiled(old_, new_);
  }

  lemma RefreshLogs(s: Segs, old_: Addr, new_: Addr)
    requires s.Shape() && LogsOk(s) && new_.Blk? && s.InMain(new_) && s.InMain(old_)
    requires forall u: LogType :: s.logs[u].segno == new_.segno ==> !Ahead(s.logs[u], new_.off)
    ensures LogsOk(Refresh(s, old_, new_))
  {
    var s1 := UpdateSit(s, new_.segno, new_.off, true);
    UpdateSitLogs(s, new_.segno, new_.off, true);
    if old_.Blk? {
      UpdateSitLogs(s1, old_.segno, old_.off, false);
    }
    LocateLogs(DropOld(s1, old_), Refresh(s, old_, new_));
  }

  lemma RefreshKeeps(s: Segs, old_: Addr, new_: Addr, x: set<nat>)
    requires Core(s, x) && LogsOk(s)
    requires Receiving(s, new_) && !ValidBlk(s, new_) && (old_.Blk? ==> ValidBlk(s, old_))
    requires x <= {new_.segno}
    requires forall u: LogType :: s.logs[u].segno == new_.segno ==> !Ahead(s.logs[u], new_.off)
    ensures Core(Refresh(s, old_, new_), {}) && LogsOk(Refresh(s, old_, new_))
    ensures Refresh(s, old_, new_).logs == s.logs && Refresh(s, old_, new_).geo == s.geo
    ensures SameCkpt(s, Refresh(s, old_, new_))
  {
    RefreshCore(s, old_, new_, x);
    RefreshLogs(s, old_, new_);
    assert x - Refiled(old_, new_) == {};
  }

  /** What the callers of allocate_data_block must bring: an old block that is
      valid, and, when the log is out of space, a legal place to go. */
  ghost predicate CanAllocate(s: Segs, t: LogType, old_: Addr, p: Pick)
    requires s.Shape()
  {
    && (old_.Blk? ==> ValidBlk(s, old_))
    && p.segno < |s.sentries|
    && (Advance(s, t).logs[t].nextBlkoff >= s.geo.blocksPerSeg ==> Legal(Advance(s, t), p))
  }

  lemma LegalNotCurrent(s: Segs, p: Pick)
    requires Core(s, {}) && Legal(s, p)
    ensures !IsCurseg(s.logs, p.segno)
  {
    assert Placed(s, p.segno);
  }

  /** Log t has moved from its segment, which is left to be filed, to segno, where it has room. */
  ghost predicate MovedTo(s: Segs, r: Segs, t: LogType, segno: nat)
    requires s.Shape() && r.Shape()
  {
    && Core(r, {s.logs[t].segno}) && LogOk(r, t)
    && r.logs[t].nextBlkoff < s.geo.blocksPerSeg && r.logs[t].segno == segno != s.logs[t].segno
  }

  lemma MovesToFree(s: Segs, t: LogType, i: nat)
    requires Core(s, {}) && i < |s.sentries| && i !in s.free.inuse && !IsCurseg(s.logs, i)
    ensures MovedTo(s, NewCurseg(s, t, i), t, i)
  {
    NewCursegKeeps(s, t, i, {});
    assert {} + {s.logs[t].segno} == {s.logs[t].segno};
  }

  lemma MovesToVictim(s: Segs, t: LogType, i: nat)
    requires Core(s, {}) && i < |s.sentries| && !IsCurseg(s.logs, i) && s.sentries[i].ckptValidBlocks < s.geo.blocksPerSeg
    ensures MovedTo(s, ChangeCurseg(s, t, i), t, i)
  {
    ChangeCursegKeeps(s, t, i, {});
    assert ({} - {i}) + {s.logs[t].segno} == {s.logs[t].segno};
  }

  lemma SwitchMoves(s: Segs, t: LogType, p: Pick)
    requires Core(s, {}) && Legal(s, p)
    ensures MovedTo(s, SwitchLog(s, t, p), t, p.segno)
  {
    LegalNotCurrent(s, p);
    if p.FreeSeg? {
      MovesToFree(s, t, p.segno);
    } else {
      MovesToVictim(s, t, p.segno);
    }
  }

  /** A switch changes no bitmap, and no other log. */
  lemma SwitchElsewhere(s: Segs, t: LogType, p: Pick)
    requires s.Shape() && p.segno < |s.sentries|
    ensures var r := SwitchLog(s, t, p);
            && (forall u: LogType :: u != t ==> r.logs[u] == s.logs[u])
            && SameCkpt(s, r)
            && (forall i :: 0 <= i < |s.sentries| ==> r.sentries[i].curMap == s.sentries[i].curMap)
            && (forall i :: 0 <= i < |s.sentries| && i != p.segno ==> r.sentries[i] == s.sentries[i])
            && s.free.inuse <= r.free.inuse && r.dirty.segmap[PRE] <= s.dirty.segmap[PRE]
  {
  }

  lemma SwitchKeeps(s: Segs, t: LogType, p: Pick)
    requires Core(s, {}) && LogsOk(s) && Legal(s, p)
    ensures Core(SwitchLog(s, t, p), {s.logs[t].segno}) && LogsOk(SwitchLog(s, t, p))
    ensures SwitchLog(s, t, p).logs[t].nextBlkoff < s.geo.blocksPerSeg
    ensures SwitchLog(s, t, p).logs[t].segno == p.segno != s.logs[t].segno
    ensures forall u: LogType :: u != t ==> SwitchLog(s, t, p).logs[u] == s.logs[u]
    ensures SameCkpt(s, SwitchLog(s, t, p))
    ensures forall i :: 0 <= i < |s.sentries| ==> SwitchLog(s, t, p).sentries[i].curMap == s.sentries[i].curMap
  {
    var r := SwitchLog(s, t, p);
    SwitchMoves(s, t, p);
    SwitchElsewhere(s, t, p);
    LegalNotCurrent(s, p);
    forall u: LogType ensures LogOk(r, u) {
      if u != t {
        assert LogOk(s, u) && s.logs[u].segno != p.segno;
      }
    }
  }

  /** The block a log is about to hand out is free in both maps, and its segment is on no list. */
  lemma NextAddrFree(s: Segs, t: LogType)
    requires Inv(s)
    ensures OffFree(s.sentries[s.logs[t].segno], s.logs[t].nextBlkoff)
    ensures s.logs[t].segno in s.free.inuse && s.logs[t].segno !in s.dirty.segmap[PRE]
  {
    assert LogOk(s, t);
    assert Ahead(s.logs[t], s.logs[t].nextBlkoff);
    LeftSegmentUnlisted(s, t, {});
  }

  lemma RefreshAfterStay(s: Segs, t: LogType, old_: Addr)
    requires Inv(s) && Advance(s, t).logs[t].nextBlkoff < s.geo.blocksPerSeg && (old_.Blk? ==> ValidBlk(s, old_))
    ensures Inv(Refresh(Advance(s, t), old_, NextAddr(s, t)))
    ensures SameCkpt(s, Refresh(Advance(s, t), old_, NextAddr(s, t)))
  {
    AdvanceKeeps(s, t);
    NextAddrFree(s, t);
    RefreshKeeps(Advance(s, t), old_, NextAddr(s, t), {});
  }

  /** No log stands on the segment a switch has left. */
  lemma SwitchLeaves(s: Segs, t: LogType, p: Pick)
    requires Core(s, {}) && LogsOk(s) && Legal(s, p)
    ensures forall u: LogType :: SwitchLog(s, t, p).logs[u].segno != s.logs[t].segno
  {
    SwitchKeeps(s, t, p);
  }

  /** A block of a segment no log is on, which alone is left to be filed, can be written. */
  ghost predicate LeftBlock(s: Segs, a: Addr) {
    && s.Shape() && a.Blk? && Core(s, {a.segno}) && LogsOk(s) && LogsHaveRoom(s)
    && Receiving(s, a) && !ValidBlk(s, a) && forall u: LogType :: s.logs[u].segno != a.segno
  }

  /** What a switch leaves behind can take the block being handed out. */
  lemma SwitchReady(s: Segs, t: LogType, p: Pick, a: Addr)
    requires Core(s, {}) && LogsOk(s) && Legal(s, p) && Receiving(s, a) && a.segno == s.logs[t].segno && !ValidBlk(s, a)
    requires forall u: LogType :: u != t ==> s.logs[u].nextBlkoff < s.geo.blocksPerSeg
    ensures LeftBlock(SwitchLog(s, t, p), a) && SameCkpt(s, SwitchLog(s, t, p))
    ensures forall b :: ValidBlk(SwitchLog(s, t, p), b) <==> ValidBlk(s, b)
  {
    SwitchKeeps(s, t, p);
    SwitchLeaves(s, t, p);
    SwitchElsewhere(s, t, p);
  }

  lemma RefreshLeft(s: Segs, old_: Addr, a: Addr)
    requires LeftBlock(s, a) && (old_.Blk? ==> ValidBlk(s, old_))
    ensures Inv(Refresh(s, old_, a)) && SameCkpt(s, Refresh(s, old_, a))
  {
    RefreshKeeps(s, old_, a, {a.segno});
  }

  lemma RefreshAfterSwitch(s: Segs, t: LogType, old_: Addr, p: Pick)
    requires Inv(s) && Legal(Advance(s, t), p) && (old_.Blk? ==> ValidBlk(s, old_))
    ensures Inv(Refresh(SwitchLog(Advance(s, t), t, p), old_, NextAddr(s, t)))
    ensures SameCkpt(s, Refresh(SwitchLog(Advance(s, t), t, p), old_, NextAddr(s, t)))
  {
    var s1, a := Advance(s, t), NextAddr(s, t);
    AdvanceKeeps(s, t);
    NextAddrReceives(s, t);
    SwitchReady(s1, t, p, a);
    RefreshLeft(SwitchLog(s1, t, p), old_, a);
  }

  lemma NextAddrReceives(s: Segs, t: LogType)
    requires Inv(s)
    ensures var s1, a := Advance(s, t), NextAddr(s, t);
            && Receiving(s1, a) && !ValidBlk(s1, a) && s1.logs[t].segno == a.segno
            && forall b :: ValidBlk(s1, b) <==> ValidBlk(s, b)
  {
    NextAddrFree(s, t);
  }

  /** allocate_data_block keeps the whole invariant, its bug checks cannot fire,
      the block it hands out is free in the running and in the checkpointed map,
      and every log has room again afterwards. */
  lemma AllocateKeeps(s: Segs, t: LogType, old_: Addr, p: Pick)
    requires Inv(s) && CanAllocate(s, t, old_, p)
    ensures Inv(AllocateBlock(s, t, old_, p))
    ensures OffFree(s.sentries[s.logs[t].segno], s.logs[t].nextBlkoff)
    ensures SameCkpt(s, AllocateBlock(s, t, old_, p))
  {
    NextAddrFree(s, t);
    if Advance(s, t).logs[t].nextBlkoff < s.geo.blocksPerSeg {
      RefreshAfterStay(s, t, old_);
      assert AdvanceOrSwitch(s, t, p) == Advance(s, t);
    } else {
      RefreshAfterSwitch(s, t, old_, p);
      assert AdvanceOrSwitch(s, t, p) == SwitchLog(Advance(s, t), t, p);
    }
  }

  lemma AdvancedMaps(s: Segs, t: LogType, p: Pick, i: nat)
    requires s.Shape() && p.segno < |s.sentries| && i < |s.sentries|
    ensures AdvanceOrSwitch(s, t, p).sentries[i].curMap == s.sentries[i].curMap
  {
  }

  /** Allocating changes validity at the two addresses only. */
  lemma AllocatedValid(s: Segs, t: LogType, old_: Addr, p: Pick, a: Addr)
    requires Inv(s) && CanAllocate(s, t, old_, p)
    ensures |AllocateBlock(s, t, old_, p).sentries| == |s.sentries|
    ensures NextAddr(s, t) != old_ && !ValidBlk(s, NextAddr(s, t))
    ensures ValidBlk(AllocateBlock(s, t, old_, p), a) <==> (ValidBlk(s, a) && a != old_) || a == NextAddr(s, t)
  {
    NextAddrFree(s, t);
    var s1 := AdvanceOrSwitch(s, t, p);
    if a.Blk? && a.segno < |s.sentries| {
      AdvancedMaps(s, t, p, a.segno);
      RefreshedMaps(s1, old_, NextAddr(s, t), a.segno);
    }
    RefreshedMaps(s1, old_, NextAddr(s, t), 0);
  }

  // ----- the other operations -----

  lemma InvalidateCore(s: Segs, a: Addr)
    requires Core(s, {}) && (a.NewAddr? || ValidBlk(s, a))
    ensures Core(Invalidate(s, a), {}) && SameCkpt(s, Invalidate(s, a)) && Invalidate(s, a).logs == s.logs
    ensures Invalidate(s, a).geo == s.geo
  {
    if a.Blk? {
      ValidBlkInuse(s, a, {});
      UpdateSitKeeps(s, a.segno, a.off, false, {});
      LocateKeeps(UpdateSit(s, a.segno, a.off, false), a.segno, {} + {a.segno});
      assert {} + {a.segno} - {a.segno} == {};
    }
  }

  /** invalidate_blocks on a reserved or a valid block. */
  lemma InvalidateKeeps(s: Segs, a: Addr)
    requires Inv(s) && (a.NewAddr? || ValidBlk(s, a))
    ensures Inv(Invalidate(s, a)) && SameCkpt(s, Invalidate(s, a))
  {
    InvalidateCore(s, a);
    if a.Blk? {
      UpdateSitLogs(s, a.segno, a.off, false);
      LocateLogs(UpdateSit(s, a.segno, a.off, false), Invalidate(s, a));
    }
  }

  /** Log t stands well on a segment of r, and every other log as it did. */
  ghost predicate Mended(s: Segs, r: Segs, t: LogType)
    requires s.Shape() && r.Shape()
  {
    && LogOk(r, t) && r.logs[t].nextBlkoff < r.geo.blocksPerSeg
    && (forall u: LogType :: u != t ==> r.logs[u] == s.logs[u] && (LogOk(s, u) ==> LogOk(r, u)))
  }

  /** Forcing a new segment mends a log that stood anywhere, and files the segment it left. */
  lemma ForceNewSegmentCore(s: Segs, t: LogType, segno: nat)
    requires Core(s, {}) && segno < |s.sentries| && segno !in s.free.inuse
    ensures Core(ForceNewSegment(s, t, segno), {}) && SameCkpt(s, ForceNewSegment(s, t, segno))
    ensures Mended(s, ForceNewSegment(s, t, segno), t)
  {
    var s1, c := NewCurseg(s, t, segno), s.logs[t].segno;
    LeftSegmentUnlisted(s, t, {});
    NewCursegKeeps(s, t, segno, {});
    LocateKeeps(s1, c, {} + {c});
    assert {} + {c} - {c} == {};
    OnlyFiled(s1, c);
    ForcedMends(s, t, segno);
  }

  lemma ForcedMends(s: Segs, t: LogType, segno: nat)
    requires Core(s, {}) && segno < |s.sentries| && segno !in s.free.inuse
    requires LogOk(NewCurseg(s, t, segno), t)
    ensures Mended(s, ForceNewSegment(s, t, segno), t)
  {
    var s1, r := NewCurseg(s, t, segno), ForceNewSegment(s, t, segno);
    OnlyFiled(s1, s.logs[t].segno);
    assert LogOk(r, t);
    FreeNotCurrent(s, segno, {});
    forall u: LogType | u != t && LogOk(s, u)
      ensures LogOk(r, u)
    {
      assert r.logs[u] == s.logs[u] && s.logs[u].segno != segno;
    }
  }

  lemma ForceNewSegmentKeeps(s: Segs, t: LogType, segno: nat)
    requires Inv(s) && segno < |s.sentries| && segno !in s.free.inuse
    ensures Inv(ForceNewSegment(s, t, segno)) && SameCkpt(s, ForceNewSegment(s, t, segno))
  {
    ForceNewSegmentCore(s, t, segno);
    MendedAll(s, ForceNewSegment(s, t, segno), t);
  }

  lemma MendedAll(s: Segs, r: Segs, t: LogType)
    requires s.Shape() && r.Shape() && r.geo == s.geo && LogsOk(s) && LogsHaveRoom(s) && Mended(s, r, t)
    ensures LogsOk(r) && LogsHaveRoom(r)
  {
    forall u: LogType ensures LogOk(r, u) && r.logs[u].nextBlkoff < r.geo.blocksPerSeg {
      assert LogOk(s, u);
    }
  }

  // ----- checkpoint -----

  lemma FlushKeeps(s: Segs)
    requires Inv(s)
    ensures Inv(FlushSit(s))
    ensures forall i :: 0 <= i < |s.sentries| ==>
              FlushSit(s).sentries[i].ckptMap == FlushSit(s).sentries[i].curMap == s.sentries[i].curMap
  {
    var r := FlushSit(s);
    forall i | 0 <= i < |r.sentries|
      ensures EntryOk(r, i)
      ensures Placed(r, i)
      ensures r.sentries[i].ckptMap == r.sentries[i].curMap == s.sentries[i].curMap
    {
      assert EntryOk(s, i);
      assert Placed(s, i);
      assert r.sentries[i].curMap + r.sentries[i].ckptMap == r.sentries[i].curMap;
    }
    SameCountsSections(s, r);
    forall u: LogType ensures LogOk(r, u) {
      assert LogOk(s, u);
    }
  }

  /** Pre-free segments hold no valid block. */
  lemma PrefreeEmpty(s: Segs, i: nat)
    requires Core(s, {}) && i in s.dirty.segmap[PRE]
    ensures i < |s.sentries| && s.sentries[i].curMap == {} && !IsCurseg(s.logs, i) && i in s.free.inuse
  {
    assert i < |s.sentries|;
    assert EntryOk(s, i) && Placed(s, i);
  }

  /** A flush followed by freeing and clearing the pre-free segments is again a good state. */
  lemma FreePrefreeKeeps(s: Segs)
    requires Inv(s) && forall i :: 0 <= i < |s.sentries| ==> s.sentries[i].ckptMap == s.sentries[i].curMap
    ensures Inv(ClearPrefree(SetPrefreeFree(s)))
  {
    var r := ClearPrefree(SetPrefreeFree(s));
    SetPrefreeFreeOk(s);
    assert r.free.inuse == s.free.inuse - s.dirty.segmap[PRE];
    forall i | 0 <= i < |r.sentries|
      ensures EntryOk(r, i)
      ensures Placed(r, i)
    {
      assert EntryOk(s, i);
      assert Placed(s, i);
      if i in s.dirty.segmap[PRE] {
        PrefreeEmpty(s, i);
      }
    }
    SameCountsSections(s, r);
    forall u: LogType ensures LogOk(r, u) {
      assert LogOk(s, u);
    }
  }
}
