/** Whole runs of the segment manager, with checkpoints, crashes and roll-forward:
    no block the last committed checkpoint holds valid is ever written or discarded. */
module SegmentRuns {
  import opened SegmentState
  import opened SegmentInvariant

  // ----- what a committed checkpoint guarantees to the next mount -----

  ghost predicate DurableOk(g: Geo, d: Durable) {
    && DurableShape(g, d)
    && (forall i, o :: 0 <= i < |d.maps| && o in d.maps[i] ==> o < g.blocksPerSeg)
    && LogsDistinct(d.logs)
    && forall t: LogType ::
         var c := d.logs[t];
         && d.types[c.segno] == t
         && c.nextBlkoff < g.blocksPerSeg
         && forall off :: Ahead(c, off) ==> off !in d.maps[c.segno]
  }

  lemma SnapshotOk(s: Segs)
    requires Inv(s)
    ensures DurableOk(s.geo, Snapshot(s))
  {
    var d := Snapshot(s);
    forall i, o | 0 <= i < |d.maps| && o in d.maps[i]
      ensures o < s.geo.blocksPerSeg
    {
      assert EntryOk(s, i);
    }
    forall t: LogType
      ensures d.types[d.logs[t].segno] == t
      ensures d.logs[t].nextBlkoff < s.geo.blocksPerSeg
      ensures forall off :: Ahead(d.logs[t], off) ==> off !in d.maps[d.logs[t].segno]
    {
      assert LogOk(s, t);
    }
  }

  lemma {:induction false} SumMounted(es: seq<SegEntry>, maps: seq<set<nat>>, lo: nat, hi: nat)
    requires |es| == |maps| && lo <= hi <= |es|
    requires forall i :: 0 <= i < |es| ==> es[i].validBlocks == |maps[i]|
    ensures SumValid(es, lo, hi) == SumCards(maps, lo, hi)
    decreases hi - lo
  {
    if lo < hi {
      SumMounted(es, maps, lo, hi - 1);
    }
  }

  lemma MountSections(g: Geo, d: Durable)
    requires DurableOk(g, d)
    ensures SectionsOk(Mount(g, d))
  {
    var r := Mount(g, d);
    if g.segsPerSec > 1 {
      forall c | 0 <= c < g.mainSecs
        ensures r.secValid[c] == SectionSum(r, c)
      {
        SecBounds(g, c);
        SumMounted(r.sentries, d.maps, c * g.segsPerSec, c * g.segsPerSec + g.segsPerSec);
      }
    }
  }

  lemma MountLists(g: Geo, d: Durable)
    requires DurableOk(g, d)
    ensures DirtyOk(Mount(g, d).dirty, g.MainSegs())
    ensures forall t: LogType, i :: i in Mount(g, d).dirty.segmap[t] <==>
              i in Mount(g, d).dirty.segmap[DIRTY] && i < |d.types| && d.types[i] == t
  {
    var r := Mount(g, d).dirty;
    var m := MountedDirty(g, d);
    forall t: DirtyType ensures r.segmap[t] == (if t < 6 then OfType(m, d.types, t) else if t == DIRTY then m else {}) {
    }
  }

  lemma MountPlaced(g: Geo, d: Durable, i: nat)
    requires DurableOk(g, d) && i < g.MainSegs()
    ensures EntryOk(Mount(g, d), i) && Placed(Mount(g, d), i)
  {
    var r := Mount(g, d);
    MountLists(g, d);
    var e := r.sentries[i];
    assert e.curMap + e.ckptMap == d.maps[i];
    BoundedCard(d.maps[i], g.blocksPerSeg);
    assert i in r.free.inuse <==> d.maps[i] != {} || IsCurseg(d.logs, i);
    assert i in r.dirty.segmap[DIRTY] <==> 0 < |d.maps[i]| < g.blocksPerSeg && !IsCurseg(d.logs, i);
    assert |d.maps[i]| == 0 <==> d.maps[i] == {};
  }

  /** The mount-time builders establish the whole invariant. */
  lemma MountEstablishes(g: Geo, d: Durable)
    requires DurableOk(g, d)
    ensures Inv(Mount(g, d))
    ensures Snapshot(Mount(g, d)) == d
  {
    var r := Mount(g, d);
    MountSections(g, d);
    MountLists(g, d);
    assert EntriesOk(r) && PlacedBut(r, {}) by {
      forall i | 0 <= i < |r.sentries|
        ensures EntryOk(r, i) && Placed(r, i)
      {
        MountPlaced(g, d, i);
      }
    }
    assert FreeOk(g, r.free);
    forall t: LogType
      ensures LogOk(r, t) && r.logs[t].nextBlkoff < g.blocksPerSeg && r.sentries[r.logs[t].segno].typ == t
    {
    }
  }

  // ----- roll-forward -----

  /** During roll-forward the data logs stand on recovered blocks; all else is as between operations. */
  ghost predicate RecoveryInv(s: Segs) {
    Core(s, {}) && forall t: LogType :: !IsDataLog(t) ==> LogOk(s, t) && s.logs[t].nextBlkoff < s.geo.blocksPerSeg
  }

  /** What do_recover_data passes: a main-area block not valid any more (its
      previous index was dropped first), in a segment of data type unless empty. */
  ghost predicate CanRecover(s: Segs, old_: Addr, new_: Addr)
    requires s.Shape()
  {
    && new_.Blk? && new_.segno < |s.sentries| && new_.off < s.geo.blocksPerSeg && !ValidBlk(s, new_)
    && (old_.Blk? ==> ValidBlk(s, old_))
    && IsDataLog(RecoveryLog(s, old_, new_))
  }

  lemma StoodOn(s: Segs, t: LogType, a: Addr)
    requires s.Shape() && a.Blk? && s.InMain(a)
    ensures var r := StandOn(s, t, a);
            && r.logs == s.logs[t := r.logs[t]] && r.logs[t].segno == a.segno
            && (forall i :: 0 <= i < |s.sentries| ==> r.sentries[i].curMap == s.sentries[i].curMap)
            && (forall i :: 0 <= i < |s.sentries| ==>
                  r.sentries[i].typ == if i == a.segno && a.segno != s.logs[t].segno then t else s.sentries[i].typ)
  {
  }

  lemma StandOnKeeps(s: Segs, t: LogType, a: Addr)
    requires RecoveryInv(s) && IsDataLog(t)
    requires a.Blk? && a.segno < |s.sentries| && a.off < s.geo.blocksPerSeg
    requires IsCurseg(s.logs, a.segno) ==> s.logs[t].segno == a.segno
    ensures var r := StandOn(s, t, a);
            && Core(r, if s.logs[t].segno == a.segno then {} else {s.logs[t].segno})
            && SameCkpt(s, r) && r.geo == s.geo && r.logs[t].segno == a.segno
            && (forall u: LogType :: u != t ==> r.logs[u] == s.logs[u])
            && (forall i :: 0 <= i < |s.sentries| ==> r.sentries[i].curMap == s.sentries[i].curMap)
            && s.free.inuse <= r.free.inuse
  {
    var c := s.logs[t].segno;
    if a.segno != c {
      ChangeCursegKeeps(s, t, a.segno, {});
      var s1 := ChangeCurseg(s, t, a.segno);
      assert ({} - {a.segno}) + {c} == {c};
      MoveOffset(s1, t, a.off, {c});
    } else {
      MoveOffset(s, t, a.off, {});
    }
  }

  lemma MoveOffset(s: Segs, t: LogType, off: nat, x: set<nat>)
    requires Core(s, x)
    ensures Core(s.(logs := s.logs[t := s.logs[t].(nextBlkoff := off)]), x)
  {
    var r := s.(logs := s.logs[t := s.logs[t].(nextBlkoff := off)]);
    assert forall u: LogType :: r.logs[u].segno == s.logs[u].segno;
    forall i | 0 <= i < |r.sentries|
      ensures EntryOk(r, i)
      ensures if i in x then Loose(r, i) else Placed(r, i)
    {
      assert EntryOk(s, i);
      assert if i in x then Loose(s, i) else Placed(s, i);
      assert IsCurseg(r.logs, i) <==> IsCurseg(s.logs, i) by {
        forall u: LogType ensures r.logs[u].segno == s.logs[u].segno {}
      }
    }
    SameCountsSections(s, r);
  }

  /** recover_data_page keeps all accounting and filing, and leaves the node logs alone. */
  lemma RecoverKeeps(s: Segs, old_: Addr, new_: Addr)
    requires RecoveryInv(s) && CanRecover(s, old_, new_)
    ensures RecoveryInv(RecoverData(s, old_, new_)) && SameCkpt(s, RecoverData(s, old_, new_))
    ensures RecoverData(s, old_, new_).geo == s.geo
  {
    var t := RecoveryLog(s, old_, new_);
    var c := s.logs[t].segno;
    if IsCurseg(s.logs, new_.segno) {
      var u: LogType :| s.logs[u].segno == new_.segno;
      assert s.sentries[s.logs[u].segno].typ == u;
      assert t == u;
    }
    StandOnKeeps(s, t, new_);
    var s1 := StandOn(s, t, new_);
    var x := if c == new_.segno then {} else {c};
    LeftSegmentUnlisted(s1, t, x);
    assert Receiving(s1, new_);
    RefreshCore(s1, old_, new_, x);
    var s2 := Refresh(s1, old_, new_);
    LeftSegmentUnlisted(s, t, {});
    assert c in s2.free.inuse;
    LocateKeeps(s2, c, x - Refiled(old_, new_));
    assert x - Refiled(old_, new_) - {c} == {};
    var r := Locate(s2, c);
    forall u: LogType | !IsDataLog(u)
      ensures LogOk(r, u) && r.logs[u].nextBlkoff < r.geo.blocksPerSeg
    {
      RecoverOtherLog(s, s1, old_, new_, t, u);
      assert r.sentries == s2.sentries && r.logs == s2.logs;
    }
  }

  /** A log other than t is untouched by standing on a block and refreshing. */
  lemma RecoverOtherLog(s: Segs, s1: Segs, old_: Addr, new_: Addr, t: LogType, u: LogType)
    requires s.Shape() && s1.Shape() && t != u && LogOk(s, u)
    requires |s1.sentries| == |s.sentries| && LogsDistinct(s1.logs)
    requires new_.Blk? && s1.InMain(new_) && s1.InMain(old_) && s1.logs[t].segno == new_.segno
    requires s1.logs[u] == s.logs[u] && SameCkpt(s, s1)
    requires s1.sentries[s1.logs[u].segno].typ == u
    requires forall i :: 0 <= i < |s.sentries| ==> s1.sentries[i].curMap == s.sentries[i].curMap
    ensures LogOk(Refresh(s1, old_, new_), u)
    ensures Refresh(s1, old_, new_).logs[u] == s.logs[u]
  {
    assert s1.logs[u].segno != new_.segno;
    var s2 := UpdateSit(s1, new_.segno, new_.off, true);
    assert LogOk(s2, u);
    var s3 := DropOld(s2, old_);
    assert LogOk(s3, u);
    var r := Refresh(s1, old_, new_);
    assert r.sentries == s3.sentries && r.logs == s3.logs;
  }

  // ----- worlds and events -----

  /** Recovering: mounted, roll-forward in progress. Mending: roll-forward done, the
      data logs below k moved to fresh segments (allocate_new_segments). Frozen: inside a checkpoint,
      tables flushed, pack not yet committed. Committed: pack on disk, pre-free
      segments not yet discarded. */
  datatype Phase = Running | Recovering | Mending(k: nat) | Frozen | Committed

  datatype World = World(s: Segs, phase: Phase, durable: Durable, discards: set<Addr>)

  datatype Event =
    | Write(t: LogType, old_: Addr, p: Pick)
    | Drop(a: Addr)
    | ForceSegment(t: LogType, segno: nat)
    | Flush(found: set<Addr>)
    | DiscardNextDnode
    | Commit
    | Finish
    | Crash(rollForward: bool)
    | Recover(old_: Addr, new_: Addr)
    | MendLog(segno: nat)

  ghost predicate FreshSeg(s: Segs, segno: nat)
    requires s.Shape()
  {
    segno < |s.sentries| && segno !in s.free.inuse
  }

  /** The data log allocate_new_segments moves next. */
  function NextLog(p: Phase): nat { if p.Mending? then p.k else 0 }

  /** Small-discard candidates: main-area blocks that are not valid when the tables are flushed. */
  ghost predicate Discardable(s: Segs, found: set<Addr>) {
    forall a :: a in found ==> a.Blk? && a.segno < |s.sentries| && !ValidBlk(s, a)
  }

  ghost predicate Enabled(w: World, e: Event)
    requires w.s.Shape()
  {
    match e
    case Write(t, old_, p) => w.phase == Running && CanAllocate(w.s, t, old_, p)
    case Drop(a) => (w.phase == Running || w.phase == Recovering) && (a.NewAddr? || ValidBlk(w.s, a))
    case ForceSegment(t, segno) => w.phase == Running && FreshSeg(w.s, segno)
    case Flush(found) => w.phase == Running && Discardable(w.s, found)
    case DiscardNextDnode => w.phase == Frozen
    case Commit => w.phase == Frozen
    case Finish => w.phase == Committed
    case Crash(_) => DurableShape(w.s.geo, w.durable)
    case Recover(old_, new_) => w.phase == Recovering && CanRecover(w.s, old_, new_)
    case MendLog(segno) =>
      (w.phase == Recovering || w.phase.Mending?) && NextLog(w.phase) <= COLD_DATA && FreshSeg(w.s, segno)
  }

  ghost function Next(w: World, e: Event): World
    requires w.s.Shape() && Enabled(w, e)
  {
    match e
    case Write(t, old_, p) => w.(s := AllocateBlock(w.s, t, old_, p))
    case Drop(a) => w.(s := Invalidate(w.s, a))
    case ForceSegment(t, segno) => w.(s := ForceNewSegment(w.s, t, segno))
    case Flush(found) => w.(s := SetPrefreeFree(FlushSit(w.s)), phase := Frozen, discards := found)
    case DiscardNextDnode => w
    case Commit => w.(phase := Committed, durable := Snapshot(w.s))
    case Finish => w.(s := ClearPrefree(w.s), phase := Running, discards := {})
    case Crash(rollForward) => World(Mount(w.s.geo, w.durable), if rollForward then Recovering else Running, w.durable, {})
    case Recover(old_, new_) => w.(s := RecoverData(w.s, old_, new_))
    case MendLog(segno) =>
      var k := NextLog(w.phase);
      w.(s := ForceNewSegment(w.s, k, segno), phase := if k == COLD_DATA then Running else Mending(k + 1))
  }

  /** The event writes or discards block a on the device. */
  ghost predicate Touches(w: World, e: Event, a: Addr)
    requires w.s.Shape()
  {
    match e
    case Write(t, _, _) => a == NextAddr(w.s, t)
    case DiscardNextDnode => a == NextAddr(w.s, WARM_NODE)
    case Finish => a in w.discards || (a.Blk? && a.segno in w.s.dirty.segmap[PRE])
    case _ => false
  }

  /** The committed checkpoint holds block a valid. */
  predicate Needed(d: Durable, a: Addr) {
    a.Blk? && a.segno < |d.maps| && a.off in d.maps[a.segno]
  }

  /** The checkpoint side of every SIT entry is what the disk holds. */
  ghost predicate CkptIs(s: Segs, d: Durable) {
    |d.maps| == |s.sentries| && forall i :: 0 <= i < |s.sentries| ==> s.sentries[i].ckptMap == d.maps[i]
  }

  /** Between flush and finish: clearing the pre-free list restores the
      invariant, and what is to be discarded holds nothing valid. */
  ghost predicate FrozenInv(w: World) {
    && w.s.Shape()
    && w.s.dirtySit == {}
    && Inv(ClearPrefree(w.s))
    && Discardable(w.s, w.discards)
    && forall i :: i in w.s.dirty.segmap[PRE] ==> i < |w.s.sentries| && w.s.sentries[i].curMap == {}
  }

  ghost predicate GoodWorld(w: World) {
    && w.s.Shape()
    && DurableOk(w.s.geo, w.durable)
    && match w.phase
       case Running => Inv(w.s) && CkptIs(w.s, w.durable)
       case Recovering => RecoveryInv(w.s) && CkptIs(w.s, w.durable)
       case Mending(k) => k <= COLD_DATA && MendedBelow(w.s, k) && CkptIs(w.s, w.durable)
       case Frozen => FrozenInv(w) && !Needed(w.durable, NextAddr(w.s, WARM_NODE))
       case Committed => FrozenInv(w) && w.durable == Snapshot(w.s)
  }

  // ----- every step is safe -----

  lemma SameCkptIs(s: Segs, r: Segs, d: Durable)
    requires CkptIs(s, d) && SameCkpt(s, r)
    ensures CkptIs(r, d)
  {
  }

  lemma FlushStep(w: World, found: set<Addr>)
    requires GoodWorld(w) && Enabled(w, Flush(found))
    ensures GoodWorld(Next(w, Flush(found)))
  {
    var s1 := FlushSit(w.s);
    var s2 := SetPrefreeFree(s1);
    FlushKeeps(w.s);
    FreePrefreeKeeps(s1);
    assert s2.sentries == s1.sentries && s2.logs == w.s.logs && s2.dirty == w.s.dirty;
    forall i | i in s2.dirty.segmap[PRE]
      ensures i < |s2.sentries| && s2.sentries[i].curMap == {}
    {
      PrefreeEmpty(w.s, i);
    }
    NextAddrFree(w.s, WARM_NODE);
  }

  lemma CommitStep(w: World)
    requires GoodWorld(w) && w.phase == Frozen
    ensures GoodWorld(Next(w, Commit))
  {
    SnapshotOk(ClearPrefree(w.s));
    assert Snapshot(ClearPrefree(w.s)) == Snapshot(w.s);
  }

  lemma FinishStep(w: World)
    requires GoodWorld(w) && w.phase == Committed
    ensures GoodWorld(Next(w, Finish))
    ensures forall a :: Touches(w, Finish, a) ==> !Needed(w.durable, a)
  {
    var r := ClearPrefree(w.s);
    forall i | 0 <= i < |r.sentries|
      ensures r.sentries[i].ckptMap == w.durable.maps[i]
    {
      assert EntryOk(r, i);
    }
  }

  /** Of the data logs, those below k have been moved to fresh segments. */
  ghost predicate MendedBelow(s: Segs, k: nat) {
    Core(s, {}) && forall t: LogType :: t < k || !IsDataLog(t) ==> LogOk(s, t) && s.logs[t].nextBlkoff < s.geo.blocksPerSeg
  }

  lemma MendOne(s: Segs, k: LogType, segno: nat)
    requires MendedBelow(s, k) && IsDataLog(k) && FreshSeg(s, segno)
    ensures MendedBelow(ForceNewSegment(s, k, segno), k + 1)
    ensures SameCkpt(s, ForceNewSegment(s, k, segno)) && ForceNewSegment(s, k, segno).geo == s.geo
  {
    ForceNewSegmentCore(s, k, segno);
    var r := ForceNewSegment(s, k, segno);
    forall t: LogType | t < k + 1 || !IsDataLog(t)
      ensures LogOk(r, t) && r.logs[t].nextBlkoff < r.geo.blocksPerSeg
    {
      if t != k {
        assert LogOk(s, t);
      }
    }
  }

  lemma MendStep(w: World, segno: nat)
    requires GoodWorld(w) && Enabled(w, MendLog(segno))
    ensures GoodWorld(Next(w, MendLog(segno)))
  {
    var k := NextLog(w.phase);
    assert MendedBelow(w.s, k);
    MendOne(w.s, k, segno);
    SameCkptIs(w.s, ForceNewSegment(w.s, k, segno), w.durable);
  }

  lemma CrashStep(w: World, rollForward: bool)
    requires GoodWorld(w)
    ensures GoodWorld(Next(w, Crash(rollForward)))
  {
    MountEstablishes(w.s.geo, w.durable);
    assert Snapshot(Mount(w.s.geo, w.durable)).maps == w.durable.maps;
  }

  lemma WriteStep(w: World, t: LogType, old_: Addr, p: Pick)
    requires GoodWorld(w) && Enabled(w, Write(t, old_, p))
    ensures GoodWorld(Next(w, Write(t, old_, p)))
    ensures !Needed(w.durable, NextAddr(w.s, t))
  {
    AllocateKeeps(w.s, t, old_, p);
    SameCkptIs(w.s, AllocateBlock(w.s, t, old_, p), w.durable);
    AllocateGeo(w.s, t, old_, p);
  }

  lemma AllocateGeo(s: Segs, t: LogType, old_: Addr, p: Pick)
    requires s.Shape() && p.segno < |s.sentries| && s.InMain(old_)
    ensures AllocateBlock(s, t, old_, p).geo == s.geo
  {
    var s1 := AdvanceOrSwitch(s, t, p);
    assert s1.geo == s.geo;
    var s2 := DropOld(UpdateSit(s1, s.logs[t].segno, s.logs[t].nextBlkoff, true), old_);
    assert s2.geo == s.geo;
    assert LocateAddr(s2, old_).geo == s.geo;
  }

  /** Dropping a block disturbs no log. */
  lemma DropLogs(s: Segs, a: Addr, u: LogType)
    requires s.Shape() && s.InMain(a) && !a.NullAddr? && LogOk(s, u)
    ensures Invalidate(s, a).logs == s.logs && LogOk(Invalidate(s, a), u)
  {
    OnlyFiledAddr(DropOld(s, a), a);
  }

  lemma DropStep(w: World, a: Addr)
    requires GoodWorld(w) && Enabled(w, Drop(a))
    ensures GoodWorld(Next(w, Drop(a)))
  {
    InvalidateCore(w.s, a);
    if w.phase == Running {
      InvalidateKeeps(w.s, a);
    } else {
      forall u: LogType | !IsDataLog(u)
        ensures LogOk(Invalidate(w.s, a), u)
      {
        DropLogs(w.s, a, u);
      }
    }
    SameCkptIs(w.s, Invalidate(w.s, a), w.durable);
  }

  lemma ForceStep(w: World, t: LogType, segno: nat)
    requires GoodWorld(w) && Enabled(w, ForceSegment(t, segno))
    ensures GoodWorld(Next(w, ForceSegment(t, segno)))
  {
    ForceNewSegmentCore(w.s, t, segno);
    ForceNewSegmentKeeps(w.s, t, segno);
    SameCkptIs(w.s, ForceNewSegment(w.s, t, segno), w.durable);
  }

  lemma RecoverStep(w: World, old_: Addr, new_: Addr)
    requires GoodWorld(w) && Enabled(w, Recover(old_, new_))
    ensures GoodWorld(Next(w, Recover(old_, new_)))
  {
    RecoverKeeps(w.s, old_, new_);
    SameCkptIs(w.s, RecoverData(w.s, old_, new_), w.durable);
  }

  lemma StepKeeps(w: World, e: Event)
    requires GoodWorld(w) && Enabled(w, e)
    ensures GoodWorld(Next(w, e))
  {
    match e {
      case Write(t, old_, p) => WriteStep(w, t, old_, p);
      case Drop(a) => DropStep(w, a);
      case ForceSegment(t, segno) => ForceStep(w, t, segno);
      case Flush(found) => FlushStep(w, found);
      case DiscardNextDnode =>
      case Commit => CommitStep(w);
      case Finish => FinishStep(w);
      case Crash(rollForward) => CrashStep(w, rollForward);
      case Recover(old_, new_) => RecoverStep(w, old_, new_);
      case MendLog(segno) => MendStep(w, segno);
    }
  }

  lemma TouchSafe(w: World, e: Event)
    requires GoodWorld(w) && Enabled(w, e)
    ensures forall a :: Touches(w, e, a) ==> !Needed(w.durable, a)
  {
    match e {
      case Write(t, old_, p) => WriteStep(w, t, old_, p);
      case Finish => FinishStep(w);
      case _ =>
    }
  }

  /** One step: the world stays good and nothing the committed checkpoint needs is touched. */
  lemma StepSafe(w: World, e: Event)
    requires GoodWorld(w) && Enabled(w, e)
    ensures GoodWorld(Next(w, e))
    ensures forall a :: Touches(w, e, a) ==> !Needed(w.durable, a)
  {
    StepKeeps(w, e);
    TouchSafe(w, e);
  }

  // ----- runs -----

  ghost predicate IsRun(w: World, es: seq<Event>)
    decreases |es|
  {
    es == [] || (w.s.Shape() && Enabled(w, es[0]) && IsRun(Next(w, es[0]), es[1..]))
  }

  ghost function After(w: World, es: seq<Event>): World
    requires IsRun(w, es)
    decreases |es|
  {
    if es == [] then w else After(Next(w, es[0]), es[1..])
  }

  /** Crash safety over every run: whatever sequence of writes, invalidations,
      log switches, checkpoints, crashes and roll-forwards happens, the last
      event never touches a block that the then-committed checkpoint needs. */
  lemma {:induction false} RunSafe(w: World, es: seq<Event>, e: Event)
    requires GoodWorld(w) && IsRun(w, es)
    requires After(w, es).s.Shape() && Enabled(After(w, es), e)
    ensures GoodWorld(After(w, es))
    ensures forall a :: Touches(After(w, es), e, a) ==> !Needed(After(w, es).durable, a)
    decreases |es|
  {
    if es == [] {
      StepSafe(w, e);
    } else {
      StepSafe(w, es[0]);
      RunSafe(Next(w, es[0]), es[1..], e);
    }
  }

  /** A mount from any well-formed checkpoint starts a good world. */
  lemma FirstMountGood(g: Geo, d: Durable)
    requires DurableOk(g, d)
    ensures GoodWorld(World(Mount(g, d), Recovering, d, {}))
    ensures GoodWorld(World(Mount(g, d), Running, d, {}))
  {
    MountEstablishes(g, d);
    assert Snapshot(Mount(g, d)).maps == d.maps;
  }

  /** Between operations every segment is exactly one of current, free, pre-free,
      dirty or full, and the counters count their bitmaps. */
  lemma SegmentPartition(s: Segs, i: nat)
    requires Inv(s) && i < |s.sentries|
    ensures var cur := IsCurseg(s.logs, i);
            var free := i !in s.free.inuse;
            var pre := i in s.dirty.segmap[PRE];
            var dirty := i in s.dirty.segmap[DIRTY];
            var full := !cur && |s.sentries[i].curMap| == s.geo.blocksPerSeg;
            && (cur || free || pre || dirty || full)
            && !(cur && (free || pre || dirty || full)) && !(free && (pre || dirty || full))
            && !(pre && (dirty || full)) && !(dirty && full)
            && (dirty <==> exists t: LogType :: i in s.dirty.segmap[t])
            && (forall t: LogType, u: LogType :: i in s.dirty.segmap[t] && i in s.dirty.segmap[u] ==> t == u)
  {
    assert Placed(s, i) && EntryOk(s, i);
    BoundedCard(s.sentries[i].curMap, s.geo.blocksPerSeg);
    if i in s.dirty.segmap[DIRTY] {
      assert i in s.dirty.segmap[s.sentries[i].typ];
    }
  }

  /** A section's bit is clear exactly when all its segments are free, and the
      counters are the counts of their bitmaps. */
  lemma SectionBitExact(s: Segs, c: nat)
    requires Inv(s) && c < s.geo.mainSecs
    ensures c !in s.free.inuseSecs <==>
              forall i :: c * s.geo.segsPerSec <= i < c * s.geo.segsPerSec + s.geo.segsPerSec ==> i !in s.free.inuse
    ensures s.free.freeSegments == s.geo.MainSegs() - |s.free.inuse|
    ensures s.free.freeSections == s.geo.mainSecs - |s.free.inuseSecs|
    ensures forall t: DirtyType :: s.dirty.nr[t] == |s.dirty.segmap[t]|
  {
    SectionIdleMeaning(s.geo, s.free.inuse, c);
  }
}
