/** Re-pointing file indices during roll-forward (do_recover_data and
    check_index_in_prev_nodes, fs/f2fs/recovery.c): who owns each data block. */
module RecoveryOwnership {
  import opened SegmentState
  import opened SegmentInvariant
  import opened RecoveryChain
  import opened Folds
  import Runs = SegmentRuns

  /** A block pointer of a file. A summary names the node and slot; here it names
      the file index these stand for. */
  datatype Key = Key(ino: nat, idx: nat)

  /** Node number 0, as in a summary never written. */
  const NO_KEY: Key := Key(0, 0)

  type SumPage = map<nat, Key>

  function SumAt(m: SumPage, off: nat): Key { if off in m then m[off] else NO_KEY }

  function WithSum(m: SumPage, off: nat, k: Key): SumPage { m[off := k] }

  /** The segments; every pointer that is not NULL; each log's own copy of its
      segment's summary entries; and the summary area, segment by segment. */
  datatype Owners = Owners(s: Segs, ptr: map<Key, Addr>, cur: seq<SumPage>, ssa: map<nat, SumPage>) {
    predicate Shape() { s.Shape() && |cur| == NR_LOGS }

    function Ptr(k: Key): Addr { if k in ptr then ptr[k] else NullAddr }

    function Ssa(segno: nat): SumPage { if segno in ssa then ssa[segno] else map[] }

    /** The data logs from first on are asked for their copies before the summary area. */
    function Sums(first: nat, segno: nat): SumPage
      requires Shape() && first <= COLD_DATA + 1
      decreases COLD_DATA + 1 - first
    {
      if first > COLD_DATA then Ssa(segno)
      else if s.logs[first].segno == segno then cur[first]
      else Sums(first + 1, segno)
    }

    /** The owner the summary of b names. */
    function Named(first: nat, b: Addr): Key
      requires Shape() && first <= COLD_DATA + 1 && b.Blk?
    {
      SumAt(Sums(first, b.segno), b.off)
    }

    /** A valid block of a data segment. */
    predicate Data(a: Addr)
      requires Shape()
    {
      ValidBlk(s, a) && IsDataLog(s.sentries[a.segno].typ)
    }

    /** Every valid data block has exactly one owner, the one its summary names. */
    ghost predicate OneOwner()
      requires Shape()
    {
      && (forall a :: Data(a) ==> Ptr(Named(HOT_DATA, a)) == a)
      && (forall k: Key :: Ptr(k).Blk? ==> Data(Ptr(k)) && Named(HOT_DATA, Ptr(k)) == k)
    }

    ghost predicate Owned() { Shape() && Runs.RecoveryInv(s) && OneOwner() }
  }

  /** check_index_in_prev_nodes: the owner the summary of b names, if it still points
      to b, is truncated. The code starts at first == WARM_DATA. */
  function Release(first: nat, o: Owners, b: Addr): (r: Owners)
    requires o.Shape() && Real(o.s.geo, b) && first <= COLD_DATA
    ensures r.Shape() && r.s.geo == o.s.geo
  {
    var k := o.Named(first, b);
    if ValidBlk(o.s, b) && o.Ptr(k) == b then o.(ptr := o.ptr[k := NullAddr], s := Invalidate(o.s, b)) else o
  }

  /** What k points to, as recover_data_page takes it. */
  function Source(o: Owners, k: Key): (a: Addr)
    requires o.Shape()
    ensures o.s.InMain(a)
  {
    if o.s.InMain(o.Ptr(k)) then o.Ptr(k) else NewAddr
  }

  /** The log that takes over b's segment enters k in its copy of the summaries; if it
      stood elsewhere its old copy goes to the summary area and b's segment's is read in. */
  function Entered(o: Owners, t: LogType, b: Addr, k: Key): (r: (seq<SumPage>, map<nat, SumPage>))
    requires o.Shape() && b.Blk?
    ensures |r.0| == NR_LOGS
  {
    var c := o.s.logs[t].segno;
    if b.segno == c then (o.cur[t := WithSum(o.cur[t], b.off, k)], o.ssa)
    else (o.cur[t := WithSum(o.Ssa(b.segno), b.off, k)], o.ssa[c := o.cur[t]])
  }

  /** recover_data_page and set_data_blkaddr: k, which pointed to src, now owns b. */
  function Point(o: Owners, k: Key, src: Addr, b: Addr): (r: Owners)
    requires o.Shape() && Real(o.s.geo, b) && o.s.InMain(src)
    ensures r.Shape() && r.s.geo == o.s.geo
  {
    var e := Entered(o, RecoveryLog(o.s, src, b), b, k);
    Owners(RecoverData(o.s, src, b), o.ptr[k := b], e.0, e.1)
  }

  /** One index of a recovered node page. */
  function Assign(first: nat, o: Owners, k: Key, dest: Addr): (r: Owners)
    requires o.Shape() && first <= COLD_DATA
    ensures r.Shape() && r.s.geo == o.s.geo
  {
    if o.Ptr(k) != dest && Real(o.s.geo, dest) then Point(Release(first, o, dest), k, Source(o, k), dest) else o
  }

  // ----- what the two operations on segments do -----

  /** As far as ownership goes: validity changes at src and b, types at b's segment, and
      log t moves there. */
  ghost predicate Recovers(s: Segs, r: Segs, src: Addr, b: Addr, t: LogType)
    requires s.Shape() && r.Shape() && b.Blk? && b.segno < |s.sentries|
  {
    && r.geo == s.geo && IsDataLog(t)
    && (forall a :: ValidBlk(r, a) <==> (ValidBlk(s, a) && a != src) || a == b)
    && (forall i :: 0 <= i < |s.sentries| && i != b.segno ==> r.sentries[i].typ == s.sentries[i].typ)
    && r.sentries[b.segno].typ == t
    && (s.sentries[b.segno].typ == t || (s.sentries[b.segno].curMap == {} && !IsCurseg(s.logs, b.segno)))
    && r.logs[t].segno == b.segno
    && (forall u: LogType :: u != t ==> r.logs[u] == s.logs[u] && s.logs[u].segno != b.segno)
  }

  lemma RecoveredMaps(s: Segs, src: Addr, b: Addr)
    requires s.Shape() && b.Blk? && s.InMain(b) && s.InMain(src)
    ensures var t, r := RecoveryLog(s, src, b), RecoverData(s, src, b);
            && r.logs == StandOn(s, t, b).logs && SameTypes(StandOn(s, t, b), r)
            && forall i :: 0 <= i < |s.sentries| ==>
                 r.sentries[i].curMap ==
                   s.sentries[i].curMap + (if i == b.segno then {b.off} else {}) - (if src.Blk? && i == src.segno then {src.off} else {})
  {
    var t := RecoveryLog(s, src, b);
    var s1 := StandOn(s, t, b);
    Runs.StoodOn(s, t, b);
    RefreshElsewhere(s1, src, b);
    OnlyFiled(Refresh(s1, src, b), s.logs[t].segno);
    forall i | 0 <= i < |s.sentries|
      ensures RecoverData(s, src, b).sentries[i].curMap ==
                s.sentries[i].curMap + (if i == b.segno then {b.off} else {}) - (if src.Blk? && i == src.segno then {src.off} else {})
    {
      RefreshedMaps(s1, src, b, i);
    }
  }

  /** The log on b's segment, if any, is the one that takes it over. */
  lemma TakerOnly(s: Segs, src: Addr, b: Addr)
    requires Runs.RecoveryInv(s) && Runs.CanRecover(s, src, b)
    ensures var t := RecoveryLog(s, src, b);
            && (forall u: LogType :: u != t ==> s.logs[u].segno != b.segno)
            && (s.sentries[b.segno].typ == t || (s.sentries[b.segno].curMap == {} && !IsCurseg(s.logs, b.segno)))
  {
    assert EntryOk(s, b.segno);
    forall u: LogType | s.logs[u].segno == b.segno ensures u == RecoveryLog(s, src, b) {
      assert s.sentries[s.logs[u].segno].typ == u;
    }
  }

  lemma RecoverDoes(s: Segs, src: Addr, b: Addr)
    requires Runs.RecoveryInv(s) && Runs.CanRecover(s, src, b)
    ensures Runs.RecoveryInv(RecoverData(s, src, b))
    ensures Recovers(s, RecoverData(s, src, b), src, b, RecoveryLog(s, src, b))
  {
    Runs.RecoverKeeps(s, src, b);
    assert s.logs[RecoveryLog(s, src, b)].segno == b.segno ==> s.sentries[b.segno].typ == RecoveryLog(s, src, b);
    TakerOnly(s, src, b);
    RecoversAs(s, src, b);
  }

  lemma RecoversAs(s: Segs, src: Addr, b: Addr)
    requires s.Shape() && b.Blk? && s.InMain(b) && s.InMain(src) && src != b && IsDataLog(RecoveryLog(s, src, b))
    requires var t := RecoveryLog(s, src, b);
             && (s.logs[t].segno == b.segno ==> s.sentries[b.segno].typ == t)
             && (forall u: LogType :: u != t ==> s.logs[u].segno != b.segno)
             && (s.sentries[b.segno].typ == t || (s.sentries[b.segno].curMap == {} && !IsCurseg(s.logs, b.segno)))
    ensures Recovers(s, RecoverData(s, src, b), src, b, RecoveryLog(s, src, b))
  {
    RecoveredMaps(s, src, b);
    Runs.StoodOn(s, RecoveryLog(s, src, b), b);
    ValidFromMaps(s, RecoverData(s, src, b), src, b);
  }

  lemma ValidFromMaps(s: Segs, r: Segs, src: Addr, b: Addr)
    requires b.Blk? && b.segno < |s.sentries| && |r.sentries| == |s.sentries| && src != b
    requires forall i :: 0 <= i < |s.sentries| ==>
               r.sentries[i].curMap ==
                 s.sentries[i].curMap + (if i == b.segno then {b.off} else {}) - (if src.Blk? && i == src.segno then {src.off} else {})
    ensures forall a :: ValidBlk(r, a) <==> (ValidBlk(s, a) && a != src) || a == b
  {
  }

  lemma DropDoes(s: Segs, b: Addr)
    requires Runs.RecoveryInv(s) && ValidBlk(s, b)
    ensures var r := Invalidate(s, b);
            && Runs.RecoveryInv(r) && r.logs == s.logs && SameTypes(s, r)
            && forall a :: ValidBlk(r, a) <==> ValidBlk(s, a) && a != b
  {
    var r := Invalidate(s, b);
    InvalidateElsewhere(s, b);
    InvalidateCore(s, b);
    forall u: LogType | !IsDataLog(u)
      ensures LogOk(r, u) && r.logs[u].nextBlkoff < r.geo.blocksPerSeg
    {
      assert LogOk(s, u);
    }
  }

  // ----- the intended step -----

  lemma SumsSame(o: Owners, p: Owners, first: nat, segno: nat)
    requires o.Shape() && p.Shape() && first <= COLD_DATA + 1
    requires o.s.logs == p.s.logs && o.cur == p.cur && o.ssa == p.ssa
    ensures o.Sums(first, segno) == p.Sums(first, segno)
    decreases COLD_DATA + 1 - first
  {
    if first <= COLD_DATA {
      SumsSame(o, p, first + 1, segno);
    }
  }

  /** Truncating the owner of b frees b and touches no other index. */
  lemma ReleaseKeeps(o: Owners, b: Addr)
    requires o.Owned() && Real(o.s.geo, b) && IsDataSeg(o.s, b.segno)
    ensures var r := Release(HOT_DATA, o, b);
            && r.Owned() && !ValidBlk(r.s, b) && r.s.logs == o.s.logs && SameTypes(o.s, r.s)
            && (forall a :: ValidBlk(r.s, a) <==> ValidBlk(o.s, a) && a != b)
            && (forall k: Key :: r.Ptr(k) == if o.Ptr(k) == b then NullAddr else o.Ptr(k))
            && r.cur == o.cur && r.ssa == o.ssa
  {
    if ValidBlk(o.s, b) {
      var r, n := Release(HOT_DATA, o, b), o.Named(HOT_DATA, b);
      assert o.Data(b) && o.Ptr(n) == b;
      DropDoes(o.s, b);
      assert forall k: Key :: o.Ptr(k) == b ==> k == n;
      forall k: Key ensures r.Ptr(k) == if o.Ptr(k) == b then NullAddr else o.Ptr(k) {
      }
      forall a: Addr | a.Blk? ensures r.Named(HOT_DATA, a) == o.Named(HOT_DATA, a) {
        SumsSame(o, r, HOT_DATA, a.segno);
      }
      assert r.OneOwner();
    }
  }

  /** Entering k for b in log t's copy changes no other block's summary. */
  lemma EnteredNames(o: Owners, r: Owners, t: LogType, src: Addr, b: Addr, k: Key, a: Addr)
    requires o.Shape() && r.Shape() && b.Blk? && a.Blk? && b.segno < |o.s.sentries|
    requires Recovers(o.s, r.s, src, b, t) && LogsDistinct(o.s.logs) && (r.cur, r.ssa) == Entered(o, t, b, k)
    ensures r.Named(HOT_DATA, a) == if a == b then k else o.Named(HOT_DATA, a)
  {
    assert o.Sums(0, a.segno) == (
             if o.s.logs[0].segno == a.segno then o.cur[0] else if o.s.logs[1].segno == a.segno then o.cur[1]
             else if o.s.logs[2].segno == a.segno then o.cur[2] else o.Ssa(a.segno)) by { SumsAre(o, a.segno); }
    SumsAre(r, a.segno);
  }

  lemma SumsAre(o: Owners, segno: nat)
    requires o.Shape()
    ensures o.Sums(3, segno) == o.Ssa(segno)
    ensures o.Sums(2, segno) == if o.s.logs[2].segno == segno then o.cur[2] else o.Ssa(segno)
    ensures o.Sums(1, segno) == if o.s.logs[1].segno == segno then o.cur[1] else o.Sums(2, segno)
    ensures o.Sums(0, segno) == if o.s.logs[0].segno == segno then o.cur[0] else o.Sums(1, segno)
  {
  }

  /** Pointing k at a block that is not valid makes it the block's one owner; neither
      its bit is set twice nor that of src cleared twice (CanRecover). */
  lemma PointKeeps(o: Owners, k: Key, b: Addr)
    requires o.Owned() && Real(o.s.geo, b) && IsDataSeg(o.s, b.segno) && !ValidBlk(o.s, b)
    ensures Runs.CanRecover(o.s, Source(o, k), b)
    ensures var r := Point(o, k, Source(o, k), b);
            && r.Owned() && r.Named(HOT_DATA, b) == k
            && Recovers(o.s, r.s, Source(o, k), b, RecoveryLog(o.s, Source(o, k), b))
            && forall j: Key :: r.Ptr(j) == if j == k then b else o.Ptr(j)
  {
    var src := Source(o, k);
    assert EntryOk(o.s, b.segno);
    assert src == o.Ptr(k);
    assert Runs.CanRecover(o.s, src, b);
    RecoverDoes(o.s, src, b);
    var r, t := Point(o, k, src, b), RecoveryLog(o.s, src, b);
    forall a: Addr | a.Blk? ensures r.Named(HOT_DATA, a) == if a == b then k else o.Named(HOT_DATA, a) {
      EnteredNames(o, r, t, src, b, k, a);
    }
    PointData(o, r, t, src, b);
    PointOwned(o, r, k, src, b);
  }

  lemma PointData(o: Owners, r: Owners, t: LogType, src: Addr, b: Addr)
    requires o.Shape() && r.Shape() && Real(o.s.geo, b) && Recovers(o.s, r.s, src, b, t)
    ensures forall a :: r.Data(a) <==> (o.Data(a) && a != src) || a == b
  {
    forall a ensures r.Data(a) <==> (o.Data(a) && a != src) || a == b {
      if ValidBlk(o.s, a) && a.segno == b.segno {
        assert o.s.sentries[b.segno].curMap != {};
      }
    }
  }

  lemma PointOwned(o: Owners, r: Owners, k: Key, src: Addr, b: Addr)
    requires o.Shape() && o.OneOwner() && r.Shape() && b.Blk? && !o.Data(b) && src == o.Ptr(k)
    requires r.ptr == o.ptr[k := b] && forall a :: r.Data(a) <==> (o.Data(a) && a != src) || a == b
    requires forall a: Addr :: a.Blk? ==> r.Named(HOT_DATA, a) == if a == b then k else o.Named(HOT_DATA, a)
    ensures r.OneOwner()
  {
    forall a | r.Data(a) ensures r.Ptr(r.Named(HOT_DATA, a)) == a {
      if a != b {
        assert o.Ptr(o.Named(HOT_DATA, a)) == a && r.Named(HOT_DATA, a) == o.Named(HOT_DATA, a);
      }
    }
    forall j: Key | r.Ptr(j).Blk? ensures r.Data(r.Ptr(j)) && r.Named(HOT_DATA, r.Ptr(j)) == j {
      if j != k {
        assert r.Ptr(j) == o.Ptr(j) && o.Named(HOT_DATA, o.Ptr(j)) == j;
      }
    }
  }

  /** Asking the HOT_DATA log too, re-pointing keeps the one-owner rule: what the index
      pointed to is given up, the destination leaves its former owner, and nothing else
      changes. */
  lemma AssignKeeps(o: Owners, k: Key, dest: Addr)
    requires o.Owned() && Claimable(o.s, dest)
    ensures var r := Assign(HOT_DATA, o, k, dest);
            && r.Owned()
            && forall j: Key :: r.Ptr(j) == if !Real(o.s.geo, dest) then o.Ptr(j) else if j == k then dest
                                            else if o.Ptr(j) == dest then NullAddr else o.Ptr(j)
  {
    if o.Ptr(k) != dest && Real(o.s.geo, dest) {
      ReleaseKeeps(o, dest);
      var p := Release(HOT_DATA, o, dest);
      assert p.Ptr(k) == o.Ptr(k) && Source(p, k) == Source(o, k);
      PointKeeps(p, k, dest);
    } else if Real(o.s.geo, dest) {
      assert o.Named(HOT_DATA, dest) == k;
    }
  }

  lemma DataSegTaken(s: Segs, r: Segs, src: Addr, b: Addr, t: LogType, i: nat)
    requires s.Shape() && r.Shape() && b.Blk? && b.segno < |s.sentries| && i < |s.sentries|
    requires Recovers(s, r, src, b, t) && IsDataSeg(s, i)
    ensures IsDataSeg(r, i)
  {
    if i != b.segno && !IsDataLog(s.sentries[i].typ) {
      forall x ensures x !in r.sentries[i].curMap {
        assert !ValidBlk(s, Blk(i, x)) && !ValidBlk(r, Blk(i, x));
      }
      assert !IsCurseg(r.logs, i);
    }
  }

  /** A data segment stays one, whatever is re-pointed. */
  lemma ClaimableKept(o: Owners, k: Key, dest: Addr, other: Addr)
    requires o.Owned() && Claimable(o.s, dest) && Claimable(o.s, other)
    ensures Claimable(Assign(HOT_DATA, o, k, dest).s, other)
  {
    if o.Ptr(k) != dest && Real(o.s.geo, dest) && Real(o.s.geo, other) {
      ReleaseKeeps(o, dest);
      var p := Release(HOT_DATA, o, dest);
      DataSegKept(o.s, p.s, dest.segno);
      DataSegKept(o.s, p.s, other.segno);
      PointKeeps(p, k, dest);
      DataSegTaken(p.s, Point(p, k, Source(p, k), dest).s, Source(p, k), dest, RecoveryLog(p.s, Source(p, k), dest), other.segno);
    }
  }

  lemma DataSegKept(s: Segs, r: Segs, i: nat)
    requires s.Shape() && r.Shape() && i < |s.sentries| && IsDataSeg(s, i)
    requires r.logs == s.logs && SameTypes(s, r) && forall a :: ValidBlk(r, a) ==> ValidBlk(s, a)
    ensures IsDataSeg(r, i)
  {
    if !IsDataLog(s.sentries[i].typ) {
      forall x ensures x !in r.sentries[i].curMap {
        assert !ValidBlk(s, Blk(i, x)) && !ValidBlk(r, Blk(i, x));
      }
    }
  }

  /** What a step does to the segments: the old owner's block is dropped, then the block
      is recovered. */
  ghost function AssignEvents(o: Owners, k: Key, dest: Addr): seq<Runs.Event>
    requires o.Shape()
  {
    if o.Ptr(k) == dest || !Real(o.s.geo, dest) then []
    else (if ValidBlk(o.s, dest) then [Runs.Drop(dest)] else []) + [Runs.Recover(Source(o, k), dest)]
  }

  /** The intended step is a run of the segment manager in its recovering phase. */
  lemma AssignIsRun(w: Runs.World, o: Owners, k: Key, dest: Addr)
    requires w.phase == Runs.Recovering && w.s == o.s && o.Owned() && Claimable(o.s, dest)
    ensures Runs.IsRun(w, AssignEvents(o, k, dest))
    ensures Runs.After(w, AssignEvents(o, k, dest)) == w.(s := Assign(HOT_DATA, o, k, dest).s)
  {
    if o.Ptr(k) != dest && Real(o.s.geo, dest) {
      ReleaseKeeps(o, dest);
      var p := Release(HOT_DATA, o, dest);
      assert Source(p, k) == Source(o, k);
      DataSegKept(o.s, p.s, dest.segno);
      PointKeeps(p, k, dest);
      var recover := Runs.Recover(Source(o, k), dest);
      var w1 := w.(s := p.s);
      OneEvent(w1, recover);
      if ValidBlk(o.s, dest) {
        assert o.Data(dest);
        assert Runs.Next(w, Runs.Drop(dest)) == w1;
        TwoEvents(w, Runs.Drop(dest), recover);
      } else {
        assert w1 == w;
      }
    }
  }

  lemma OneEvent(w: Runs.World, e: Runs.Event)
    requires w.s.Shape() && Runs.Enabled(w, e)
    ensures Runs.IsRun(w, [e]) && Runs.After(w, [e]) == Runs.Next(w, e)
  {
    assert [e][1..] == [];
  }

  lemma TwoEvents(w: Runs.World, e: Runs.Event, f: Runs.Event)
    requires w.s.Shape() && Runs.Enabled(w, e) && Runs.Next(w, e).s.Shape() && Runs.Enabled(Runs.Next(w, e), f)
    ensures Runs.IsRun(w, [e] + [f]) && Runs.After(w, [e] + [f]) == Runs.Next(Runs.Next(w, e), f)
  {
    OneEvent(Runs.Next(w, e), f);
    assert ([e] + [f])[1..] == [f];
  }

  // ----- the step as written -----

  /** The destination is a valid block of the HOT_DATA log's segment, and its entry in the
      summary area, which that log's copy has outrun, names another index than its owner. */
  ghost predicate Stale(o: Owners, k: Key, dest: Addr)
    requires o.Shape()
  {
    && o.Ptr(k) != dest && Real(o.s.geo, dest) && ValidBlk(o.s, dest)
    && dest.segno == o.s.logs[HOT_DATA].segno
    && SumAt(o.Ssa(dest.segno), dest.off) != o.Named(HOT_DATA, dest)
  }

  /** As written the loop over the logs' copies leaves the HOT_DATA log out. One step keeps
      single ownership if and only if its destination is not stale, and then it is
      the intended step; if it is stale, a bit already set is set again. */
  lemma AsWrittenKeepsIff(o: Owners, k: Key, dest: Addr)
    requires o.Owned() && Claimable(o.s, dest)
    ensures Assign(WARM_DATA, o, k, dest).Owned() <==> !Stale(o, k, dest)
    ensures !Stale(o, k, dest) ==> Assign(WARM_DATA, o, k, dest) == Assign(HOT_DATA, o, k, dest)
    ensures Stale(o, k, dest) ==> ValidBlk(Release(WARM_DATA, o, dest).s, dest)
  {
    if o.Ptr(k) != dest && Real(o.s.geo, dest) {
      SumsAre(o, dest.segno);
      if Stale(o, k, dest) {
        StaleBreaks(o, k, dest);
      } else {
        AssignKeeps(o, k, dest);
        SameRelease(o, k, dest);
      }
    }
  }

  lemma SameRelease(o: Owners, k: Key, dest: Addr)
    requires o.Owned() && Claimable(o.s, dest) && Real(o.s.geo, dest) && o.Ptr(k) != dest && !Stale(o, k, dest)
    ensures Release(WARM_DATA, o, dest) == Release(HOT_DATA, o, dest)
  {
    SumsAre(o, dest.segno);
    if o.s.logs[HOT_DATA].segno == dest.segno {
      assert o.s.logs[1].segno != o.s.logs[0].segno && o.s.logs[2].segno != o.s.logs[0].segno;
    }
  }

  lemma StaleBreaks(o: Owners, k: Key, dest: Addr)
    requires o.Owned() && Claimable(o.s, dest) && Stale(o, k, dest)
    ensures Release(WARM_DATA, o, dest) == o && !Assign(WARM_DATA, o, k, dest).Owned()
  {
    SumsAre(o, dest.segno);
    assert o.s.logs[1].segno != o.s.logs[0].segno && o.s.logs[2].segno != o.s.logs[0].segno;
    var owner := o.Named(HOT_DATA, dest);
    assert o.Data(dest) && o.Ptr(owner) == dest;
    assert o.Ptr(o.Named(WARM_DATA, dest)) != dest;
    var r := Assign(WARM_DATA, o, k, dest);
    assert r.Ptr(k) == dest && r.Ptr(owner) == dest && owner != k;
  }

  /** The failing inputs: two indices given one block of a HOT_DATA segment, not valid
      until then, whose entry in the summary area names neither. */
  lemma SecondClaimStale(o: Owners, k1: Key, k2: Key, dest: Addr)
    requires o.Owned() && Real(o.s.geo, dest) && k1 != k2 && !ValidBlk(o.s, dest)
    requires RecoveryLog(o.s, Source(o, k1), dest) == HOT_DATA && SumAt(o.Sums(HOT_DATA, dest.segno), dest.off) != k1
    requires dest.segno != o.s.logs[HOT_DATA].segno
    ensures var r := Assign(WARM_DATA, o, k1, dest);
            r.Owned() && Stale(r, k2, dest) && !Assign(WARM_DATA, r, k2, dest).Owned()
  {
    SumsAre(o, dest.segno);
    var r := Assign(WARM_DATA, o, k1, dest);
    AsWrittenKeepsIff(o, k1, dest);
    PointKeeps(o, k1, dest);
    AsWrittenKeepsIff(r, k2, dest);
  }

  // ----- whole pages and runs of pages -----

  type Write = (Key, Addr)

  /** What a page asks for: its indices from n on. */
  function PageWrites(p: Page, n: nat): seq<Write>
    requires n <= |p.dests|
    decreases |p.dests| - n
  {
    if n == |p.dests| then [] else [(Key(p.ino, p.start + n), p.dests[n])] + PageWrites(p, n + 1)
  }

  /** One index; the code starts its search for the summary at first == WARM_DATA. */
  function Step(first: nat): (Owners, Write) -> Owners
    requires first <= COLD_DATA
  {
    (o: Owners, x: Write) => if o.Shape() then Assign(first, o, x.0, x.1) else o
  }

  function AssignAll(first: nat, o: Owners, w: seq<Write>): Owners
    requires first <= COLD_DATA
  {
    Fold(Step(first), o, w, |w|)
  }

  predicate Within(done: seq<nat>, n: nat) {
    forall j :: 0 <= j < |done| ==> done[j] < n
  }

  /** All that the replayed pages ask for, page after page. */
  function ReplayWrites(d: Device, chain: seq<Addr>, done: seq<nat>): seq<Write>
    requires Within(done, |chain|)
  {
    if done == [] then []
    else
      ReplayWrites(d, chain, done[..|done| - 1]) + PageWrites(d.Read(chain[done[|done| - 1]]), 0)
  }

  ghost predicate AllClaimable(s: Segs, w: seq<Write>)
    requires s.Shape()
  {
    forall i :: 0 <= i < |w| ==> Claimable(s, w[i].1)
  }

  // ----- whole runs, as written and as intended -----

  /** Good enough to go on from: single ownership, and every destination to come claimable. */
  ghost predicate Ready(o: Owners, w: seq<Write>) {
    o.Owned() && AllClaimable(o.s, w)
  }

  lemma ReadyStep(o: Owners, w: seq<Write>, x: Write)
    requires Ready(o, w) && x in w
    ensures Ready(Assign(HOT_DATA, o, x.0, x.1), w)
    ensures !Stale(o, x.0, x.1) ==> Assign(WARM_DATA, o, x.0, x.1) == Assign(HOT_DATA, o, x.0, x.1)
    ensures Ready(Assign(WARM_DATA, o, x.0, x.1), w) <==> !Stale(o, x.0, x.1)
  {
    AssignKeeps(o, x.0, x.1);
    AsWrittenKeepsIff(o, x.0, x.1);
    forall i | 0 <= i < |w| ensures Claimable(Assign(HOT_DATA, o, x.0, x.1).s, w[i].1) {
      ClaimableKept(o, x.0, x.1, w[i].1);
    }
  }

  /** No step of the intended replay has a stale destination. */
  ghost predicate NoneStale(o: Owners, w: seq<Write>) {
    NeverOff(Step(HOT_DATA), (a: Owners, x: Write) => a.Shape() && Stale(a, x.0, x.1), o, w, |w|)
  }

  /** Every state of the replay as written is ready for what is to come. */
  ghost predicate ReadyThroughout(o: Owners, w: seq<Write>) {
    GoodThroughout(Step(WARM_DATA), (a: Owners) => Ready(a, w), o, w, |w|)
  }

  /** Replay as written keeps single ownership at every step if and only if no step's
      destination is stale, and then it does what the intended replay does. */
  lemma AsWrittenRunIff(o: Owners, w: seq<Write>)
    requires o.Owned() && AllClaimable(o.s, w)
    ensures AssignAll(HOT_DATA, o, w).Owned()
    ensures ReadyThroughout(o, w) <==> NoneStale(o, w)
    ensures NoneStale(o, w) ==> AssignAll(WARM_DATA, o, w) == AssignAll(HOT_DATA, o, w)
  {
    var f, h := Step(WARM_DATA), Step(HOT_DATA);
    var good := (a: Owners) => Ready(a, w);
    var off := (a: Owners, x: Write) => a.Shape() && Stale(a, x.0, x.1);
    forall a, x | x in w && good(a)
      ensures good(h(a, x)) && (good(f(a, x)) <==> !off(a, x)) && (!off(a, x) ==> f(a, x) == h(a, x))
    {
      ReadyStep(a, w, x);
    }
    FoldsAgree(f, h, good, off, o, w, |w|);
  }

  /** Mid-replay everything is still as crash safety over all runs wants it. */
  ghost predicate ReadyWorld(w: Runs.World, ws: seq<Write>, o: Owners) {
    Ready(o, ws) && Runs.GoodWorld(w.(s := o.s))
  }

  lemma WorldStep(w: Runs.World, ws: seq<Write>, o: Owners, x: Write)
    requires w.phase == Runs.Recovering && x in ws && ReadyWorld(w, ws, o)
    ensures ReadyWorld(w, ws, Step(HOT_DATA)(o, x))
  {
    var v := w.(s := o.s);
    ReadyStep(o, ws, x);
    AssignIsRun(v, o, x.0, x.1);
    Runs.RunSafe(v, AssignEvents(o, x.0, x.1), Runs.Crash(true));
  }

  /** The intended replay goes from good worlds to good worlds: a crash in the middle of
      it finds every block the checkpoint needs. */
  lemma ReplaySafe(w: Runs.World, o: Owners, ws: seq<Write>, n: nat)
    requires w.phase == Runs.Recovering && Runs.GoodWorld(w) && w.s == o.s && Ready(o, ws) && n <= |ws|
    ensures Runs.GoodWorld(w.(s := Fold(Step(HOT_DATA), o, ws, n).s))
  {
    var rel := (a: Owners, b: ()) => ReadyWorld(w, ws, a);
    var h := (b: (), x: Write) => ();
    forall a, b, x | x in ws && rel(a, b) ensures rel(Step(HOT_DATA)(a, x), h(b, x)) {
      WorldStep(w, ws, a, x);
    }
    assert w.(s := o.s) == w;
    FoldRefines(Step(HOT_DATA), h, rel, o, (), ws, n);
  }

  /** A main area of seven segments of two blocks. Each log is on an empty segment of its
      own; the seventh, of hot data, holds one block, which index 0 of inode 3 owns. */
  function SevenSegments(): Durable {
    Durable([{}, {}, {}, {}, {}, {}, {0}], [0, 1, 2, 3, 4, 5, 0],
            [Curseg(0, 0, LFS), Curseg(1, 0, LFS), Curseg(2, 0, LFS), Curseg(3, 0, LFS), Curseg(4, 0, LFS), Curseg(5, 0, LFS)])
  }

  function AtMount(): Owners {
    Owners(Mount(Geo(7, 1, 2), SevenSegments()), map[Key(3, 0) := Blk(6, 0)],
           [map[], map[], map[], map[], map[], map[]], map[6 := map[0 := Key(3, 0)]])
  }

  /** Two inodes fsynced with the same block, one after the other. */
  const TWICE: seq<Write> := [(Key(4, 0), Blk(6, 1)), (Key(5, 0), Blk(6, 1))]

  lemma SevenOk()
    ensures Runs.DurableOk(Geo(7, 1, 2), SevenSegments())
  {
    var d := SevenSegments();
    forall t: LogType ensures d.logs[t] == Curseg(t, 0, LFS) && d.types[t] == t && d.maps[t] == {} {
    }
  }

  lemma AtMountOwned()
    ensures AtMount().Owned() && AllClaimable(AtMount().s, TWICE)
  {
    SevenOk();
    Runs.MountEstablishes(Geo(7, 1, 2), SevenSegments());
    OnlyBlock();
    SumsAre(AtMount(), 6);
  }

  lemma OnlyBlock()
    ensures AtMount().Shape() && AtMount().s.geo == Geo(7, 1, 2)
    ensures forall a :: AtMount().Data(a) <==> a == Blk(6, 0)
    ensures forall t: LogType :: AtMount().s.logs[t].segno != 6
  {
    var d, o := SevenSegments(), AtMount();
    forall a | o.Data(a) ensures a == Blk(6, 0) {
      assert a.off in d.maps[a.segno];
    }
    forall t: LogType ensures o.s.logs[t].segno == t {
    }
  }

  /** The failing input: replay as written leaves the block with two owners. */
  lemma TwoOwners()
    ensures AtMount().Owned() && AllClaimable(AtMount().s, TWICE) && !NoneStale(AtMount(), TWICE)
    ensures var r := AssignAll(WARM_DATA, AtMount(), TWICE);
            !r.Owned() && r.Ptr(Key(4, 0)) == r.Ptr(Key(5, 0)) == Blk(6, 1)
  {
    var o := AtMount();
    AtMountOwned();
    SumsAre(o, 6);
    assert |{0}| == 1;
    assert o.s.sentries[6].validBlocks == 1 && o.s.sentries[6].typ == HOT_DATA;
    SecondClaimStale(o, Key(4, 0), Key(5, 0), Blk(6, 1));
    var r := Assign(WARM_DATA, o, Key(4, 0), Blk(6, 1));
    assert Fold(Step(WARM_DATA), o, TWICE, 1) == r;
    assert AssignAll(WARM_DATA, o, TWICE) == Assign(WARM_DATA, r, Key(5, 0), Blk(6, 1));
    AsWrittenRunIff(o, TWICE);
    PointKeeps(o, Key(4, 0), Blk(6, 1));
    AsWrittenKeepsIff(o, Key(4, 0), Blk(6, 1));
    StaleBreaks(r, Key(5, 0), Blk(6, 1));
  }

  // ----- where each index ends -----

  /** What a replay does to pointers alone. */
  function Claim(g: Geo): (Key -> Addr, Write) -> (Key -> Addr) {
    (p: Key -> Addr, x: Write) => (k: Key) =>
      if !Real(g, x.1) then p(k) else if k == x.0 then x.1 else if p(k) == x.1 then NullAddr else p(k)
  }

  ghost predicate Points(o: Owners, p: Key -> Addr) {
    forall k :: o.Ptr(k) == p(k)
  }

  ghost predicate ReadyAs(g: Geo, w: seq<Write>, o: Owners, p: Key -> Addr) {
    Ready(o, w) && o.s.geo == g && Points(o, p)
  }

  lemma ClaimStep(g: Geo, w: seq<Write>, o: Owners, p: Key -> Addr, x: Write)
    requires x in w && ReadyAs(g, w, o, p)
    ensures ReadyAs(g, w, Step(HOT_DATA)(o, x), Claim(g)(p, x))
  {
    ReadyStep(o, w, x);
    AssignKeeps(o, x.0, x.1);
  }

  /** The intended replay, seen through the pointers, claims block after block. */
  lemma ReplayClaims(o: Owners, w: seq<Write>, p: Key -> Addr, n: nat)
    requires n <= |w| && o.Owned() && AllClaimable(o.s, w) && Points(o, p)
    ensures Points(Fold(Step(HOT_DATA), o, w, n), Fold(Claim(o.s.geo), p, w, n))
  {
    var g := o.s.geo;
    var rel := (a: Owners, q: Key -> Addr) => ReadyAs(g, w, a, q);
    forall a, q, x | x in w && rel(a, q) ensures rel(Step(HOT_DATA)(a, x), Claim(g)(q, x)) {
      ClaimStep(g, w, a, q, x);
    }
    FoldRefines(Step(HOT_DATA), Claim(g), rel, o, p, w, n);
  }

  /** Write i gives k a main-area block. */
  predicate Gives(g: Geo, w: seq<Write>, i: nat, k: Key)
    requires i < |w|
  {
    w[i].0 == k && Real(g, w[i].1)
  }

  /** Write i hands block dest to another index than k. */
  predicate Takes(g: Geo, w: seq<Write>, i: nat, k: Key, dest: Addr)
    requires i < |w|
  {
    w[i].0 != k && w[i].1 == dest && Real(g, dest)
  }

  ghost predicate TakenIn(g: Geo, w: seq<Write>, m: nat, n: nat, k: Key, dest: Addr)
    requires m <= n <= |w|
  {
    exists i :: m <= i < n && Takes(g, w, i, k, dest)
  }

  /** A pointer nothing writes to stands until its block is handed to another index. */
  lemma {:induction false} PointerStands(g: Geo, p: Key -> Addr, w: seq<Write>, m: nat, n: nat, k: Key, base: Addr)
    requires m <= n <= |w| && Fold(Claim(g), p, w, m)(k) == base
    requires forall i :: m <= i < n ==> !Gives(g, w, i, k)
    ensures Fold(Claim(g), p, w, n)(k) == if TakenIn(g, w, m, n, k, base) then NullAddr else base
    decreases n
  {
    if m < n {
      PointerStands(g, p, w, m, n - 1, k, base);
      assert !Gives(g, w, n - 1, k);
      assert TakenIn(g, w, m, n, k, base) <==> TakenIn(g, w, m, n - 1, k, base) || Takes(g, w, n - 1, k, base);
    }
  }

  /** Write i is the last to give k a main-area block. */
  ghost predicate LastGift(g: Geo, w: seq<Write>, i: nat, k: Key)
    requires i < |w|
  {
    Gives(g, w, i, k) && forall j :: i < j < |w| ==> !Gives(g, w, j, k)
  }

  /** After the intended replay each index ends at the last main-area block any replayed
      page gives it, unless that block was later given to another index, which then has
      it. An index no page gives a block keeps its pointer on the same condition. */
  lemma LastDestinationWins(o: Owners, w: seq<Write>, k: Key)
    requires o.Owned() && AllClaimable(o.s, w)
    ensures var g, end := o.s.geo, AssignAll(HOT_DATA, o, w).Ptr(k);
            && (forall i :: 0 <= i < |w| && LastGift(g, w, i, k) ==>
                  end == if TakenIn(g, w, i + 1, |w|, k, w[i].1) then NullAddr else w[i].1)
            && ((forall i :: 0 <= i < |w| ==> !Gives(g, w, i, k)) ==>
                  end == if TakenIn(g, w, 0, |w|, k, o.Ptr(k)) then NullAddr else o.Ptr(k))
  {
    var g, p := o.s.geo, (j: Key) => o.Ptr(j);
    ReplayClaims(o, w, p, |w|);
    forall i | 0 <= i < |w| && LastGift(g, w, i, k)
      ensures Fold(Claim(g), p, w, |w|)(k) == if TakenIn(g, w, i + 1, |w|, k, w[i].1) then NullAddr else w[i].1
    {
      PointerStands(g, p, w, i + 1, |w|, k, w[i].1);
    }
    if forall i :: 0 <= i < |w| ==> !Gives(g, w, i, k) {
      PointerStands(g, p, w, 0, |w|, k, o.Ptr(k));
    }
  }

  // ----- the recovery itself -----

  class Recovery {
    const d: Device
    const ver: nat
    var segs: Segs
    var ptr: map<Key, Addr>
    var cur: seq<SumPage>
    var ssa: map<nat, SumPage>
    var list: seq<Entry>
    var known: set<nat>

    ghost function State(): Owners
      reads this
    {
      Owners(segs, ptr, cur, ssa)
    }

    constructor (d: Device, ver: nat, o: Owners, known: set<nat>)
      ensures State() == o && this.d == d && this.ver == ver && list == [] && this.known == known
    {
      this.d, this.ver, this.list, this.known := d, ver, [], known;
      segs, ptr, cur, ssa := o.s, o.ptr, o.cur, o.ssa;
    }

    /** get_fsync_inode. */
    method GetFsyncInode(ino: nat) returns (i: nat)
      ensures i == RecoveryChain.Find(list, ino)
    {
      i := 0;
      while i < |list|
        invariant i <= |list| && forall k :: 0 <= k < i ==> list[k].ino != ino
      {
        if list[i].ino == ino {
          break;
        }
        i := i + 1;
      }
      FoundFirst(list, ino, i);
    }

    /** One page of pass one. */
    method FindFsyncDnode(p: Page, blkaddr: Addr)
      modifies this`list, this`known
      ensures Found(list, known) == FindStep(Found(old(list), old(known)), p, blkaddr)
    {
      if !p.fsync {
        return;
      }
      var i := GetFsyncInode(p.ino);
      if i == |list| {
        if p.isInode && p.dent {
          known := known + {p.ino};
        }
        if p.ino !in known {
          return;
        }
        list := list + [Marked(Entry(p.ino, NullAddr, NullAddr, NullAddr), p, blkaddr)];
      } else {
        list := list[i := Marked(list[i], p, blkaddr)];
      }
    }

    /** find_fsync_dnodes in as many turns of its loop: it ends exactly if the walk comes
        to fewer blocks, and the list is then the specified one. With more turns than
        the main area has blocks it ends exactly if the walk does (EndsIff). */
    method FindFsyncDnodes(start: Addr, turns: nat) returns (ended: bool, ghost chain: seq<Addr>)
      requires list == []
      modifies this`list, this`known
      ensures chain == Walk(d, ver, start, turns) && (ended <==> |chain| < turns)
      ensures ended ==> IsChain(d, ver, start, chain)
      ensures turns > d.segs * d.bps ==> (ended <==> Ends(d, ver, start))
      ensures Found(list, known) == FindAll(d, chain, |chain|, old(known))
    {
      WalkLinked(d, ver, start, turns);
      WalkEnds(d, ver, start, turns);
      chain := Walk(d, ver, start, turns);
      var blkaddr, n := start, 0;
      while n < turns
        invariant n <= |chain| && n <= turns && blkaddr == StepAt(d, start, chain, n)
        invariant Found(list, known) == FindAll(d, chain, n, old(known))
      {
        WalkGoesOn(d, ver, start, turns, n);
        if !d.InMain(blkaddr) {
          return true, chain;
        }
        var p := d.Read(blkaddr);
        if p.ver != ver {
          return true, chain;
        }
        FindFsyncDnode(p, blkaddr);
        blkaddr := p.next;
        n := n + 1;
      }
      ended := false;
    }

    /** check_index_in_prev_nodes, its loop from CURSEG_WARM_DATA. */
    method CheckIndexInPrevNodes(b: Addr)
      requires State().Shape() && Real(segs.geo, b)
      modifies this`segs, this`ptr
      ensures State() == Release(WARM_DATA, old(State()), b)
    {
      if b.off !in segs.sentries[b.segno].curMap {
        return;
      }
      var t := WARM_DATA;
      while t <= COLD_DATA && segs.logs[t].segno != b.segno
        invariant t <= COLD_DATA + 1 && State().Sums(WARM_DATA, b.segno) == State().Sums(t, b.segno)
      {
        t := t + 1;
      }
      var page := if t <= COLD_DATA then cur[t] else if b.segno in ssa then ssa[b.segno] else map[];
      var k := SumAt(page, b.off);
      if k in ptr && ptr[k] == b {
        ptr := ptr[k := NullAddr];
        segs := Invalidate(segs, b);
      }
    }

    /** recover_data_page, with the log's move to the block's segment (change_curseg), and
        set_data_blkaddr. */
    method RecoverDataPage(k: Key, src: Addr, dest: Addr)
      requires State().Shape() && Real(segs.geo, dest) && segs.InMain(src)
      modifies this`segs, this`ptr, this`cur, this`ssa
      ensures State() == Point(old(State()), k, src, dest)
    {
      var segno := dest.segno;
      var t := RecoveryLog(segs, src, dest);
      if segno != segs.logs[t].segno {
        ssa := ssa[segs.logs[t].segno := cur[t]];
        cur := cur[t := if segno in ssa then ssa[segno] else map[]];
      }
      cur := cur[t := WithSum(cur[t], dest.off, k)];
      segs := SegmentState.RecoverData(segs, src, dest);
      ptr := ptr[k := dest];
    }

    /** The body of do_recover_data's loop. */
    method RecoverIndex(k: Key, dest: Addr)
      requires State().Shape()
      modifies this`segs, this`ptr, this`cur, this`ssa
      ensures State().Shape() && State() == Assign(WARM_DATA, old(State()), k, dest)
    {
      var src := if k in ptr then ptr[k] else NullAddr;
      if src != dest && Real(segs.geo, dest) {
        if !segs.InMain(src) {
          src := NewAddr;
        }
        CheckIndexInPrevNodes(dest);
        RecoverDataPage(k, src, dest);
      }
    }

    /** One pass of that loop. */
    method RecoverAt(p: Page, ofs: nat, ghost o: Owners, ghost w: seq<Write>)
      requires State().Shape() && ofs < |p.dests| == |w| && w[ofs] == (Key(p.ino, p.start + ofs), p.dests[ofs])
      requires State() == Fold(Step(WARM_DATA), o, w, ofs)
      modifies this`segs, this`ptr, this`cur, this`ssa
      ensures State().Shape() && State() == Fold(Step(WARM_DATA), o, w, ofs + 1)
    {
      RecoverIndex(Key(p.ino, p.start + ofs), p.dests[ofs]);
    }

    method DoRecoverData(p: Page)
      requires State().Shape()
      modifies this`segs, this`ptr, this`cur, this`ssa
      ensures State().Shape() && State() == AssignAll(WARM_DATA, old(State()), PageWrites(p, 0))
    {
      ghost var o, w := State(), PageWrites(p, 0);
      PageWritesAt(p, 0);
      var ofs := 0;
      while ofs < |p.dests|
        invariant ofs <= |p.dests| && State().Shape() && State() == Fold(Step(WARM_DATA), o, w, ofs)
      {
        RecoverAt(p, ofs, o, w);
        ofs := ofs + 1;
      }
    }

    /** The inode leaves the list once its last fsync-marked page has been dealt with. */
    method DropEntry(i: nat, ino: nat, blkaddr: Addr)
      requires i < |list| && i == RecoveryChain.Find(list, ino)
      modifies this`list
      ensures list == DrainStep(old(list), ino, blkaddr)
    {
      if list[i].blkaddr == blkaddr {
        list := list[..i] + list[i + 1..];
      }
    }

    /** One page of pass two. */
    method RecoverPage(p: Page, blkaddr: Addr) returns (replayed: bool)
      requires State().Shape()
      modifies this`segs, this`ptr, this`cur, this`ssa, this`list
      ensures State().Shape() && list == DrainStep(old(list), p.ino, blkaddr)
      ensures replayed <==> RecoveryChain.Find(old(list), p.ino) < |old(list)|
      ensures State() == if replayed then AssignAll(WARM_DATA, old(State()), PageWrites(p, 0)) else old(State())
    {
      var i := GetFsyncInode(p.ino);
      replayed := i < |list|;
      if replayed {
        DoRecoverData(p);
        DropEntry(i, p.ino, blkaddr);
      }
    }

    /** One turn of pass two: it has come to the end of the walk, or page n is dealt with. */
    method RecoverNext(start: Addr, ghost turns: nat, blkaddr: Addr, ghost n: nat, ghost o: Owners, ghost list0: seq<Entry>, ghost done: seq<nat>)
      returns (ended: bool, next: Addr, ghost r: seq<nat>)
      requires State().Shape() && n < turns && Pass2(start, turns, n, blkaddr, o, list0, done)
      modifies this`segs, this`ptr, this`cur, this`ssa, this`list
      ensures State().Shape() && (ended <==> n == |Walk(d, ver, start, turns)|)
      ensures Pass2(start, turns, if ended then n else n + 1, next, o, list0, r)
    {
      ghost var chain := Walk(d, ver, start, turns);
      WalkGoesOn(d, ver, start, turns, n);
      if !d.InMain(blkaddr) {
        return true, blkaddr, done;
      }
      var p := d.Read(blkaddr);
      if p.ver != ver {
        return true, blkaddr, done;
      }
      ghost var before, was := State(), list;
      var replayed := RecoverPage(p, blkaddr);
      RecoveredMore(d, o, chain, n, list0, before, was, done, State());
      r := if replayed then done + [n] else done;
      ended, next := false, p.next;
    }

    /** Pass two has dealt with n pages of the walk and stands at blkaddr. */
    ghost predicate Pass2(start: Addr, turns: nat, n: nat, blkaddr: Addr, o: Owners, list0: seq<Entry>, done: seq<nat>)
      reads this
    {
      var chain := Walk(d, ver, start, turns);
      n <= |chain| && blkaddr == StepAt(d, start, chain, n) && Recovered(d, o, chain, n, list0, State(), list, done)
    }

    /** recover_data in as many turns of its loop. */
    method RecoverData(start: Addr, turns: nat) returns (ended: bool, ghost done: seq<nat>)
      requires State().Shape()
      modifies this`segs, this`ptr, this`cur, this`ssa, this`list
      ensures var chain := Walk(d, ver, start, turns);
              && State().Shape() && (ended <==> |chain| < turns)
              && Recovered(d, old(State()), chain, |chain|, old(list), State(), list, done)
    {
      var blkaddr, n := start, 0;
      ended, done := false, [];
      while n < turns && !ended
        invariant n <= turns && State().Shape() && Pass2(start, turns, n, blkaddr, old(State()), old(list), done)
        invariant ended ==> n == |Walk(d, ver, start, turns)| < turns
        decreases turns - n, !ended
      {
        ended, blkaddr, done := RecoverNext(start, turns, blkaddr, n, old(State()), old(list), done);
        n := if ended then n else n + 1;
      }
    }

    /** recover_fsync_data: both passes. With more turns than the main area has blocks it
        ends exactly if the walk does. If it does not, pass one goes round and round
        and no pointer is touched. If it does, the list ends empty, exactly the pages
        up to each listed inode's last fsync-marked one are replayed, every step keeps
        single ownership if and only if no destination is stale, and then the
        outcome is that of the intended replay. */
    method RecoverFsyncData(start: Addr, turns: nat) returns (ended: bool, ghost chain: seq<Addr>, ghost done: seq<nat>)
      requires State().Owned() && list == [] && NodesClaimable(d, ver, segs)
      modifies this
      ensures chain == Walk(d, ver, start, turns) && (ended <==> |chain| < turns) && (ended ==> IsChain(d, ver, start, chain))
      ensures turns > d.segs * d.bps ==> (ended <==> Ends(d, ver, start))
      ensures !ended ==> State() == old(State())
      ensures ended ==> list == [] && Ascending(done) && Within(done, |chain|)
      ensures ended ==> forall i: nat :: i in done <==> i < |chain| && ToReplay(d, chain, i, old(known))
      ensures ended && Within(done, |chain|) ==> ReplayedAs(d, chain, done, old(State()), State())
    {
      done := [];
      ended, chain := FindFsyncDnodes(start, turns);
      if !ended {
        return;
      }
      TwoPasses(d, ver, start, chain, old(known));
      if list == [] {
        NothingReplayed(d, chain, |chain|);
      } else {
        ended, done := RecoverData(start, turns);
      }
      ReplayClaimable(d, ver, start, chain, done, old(segs));
      AsWrittenRunIff(old(State()), ReplayWrites(d, chain, done));
    }
  }

  /** The state r is what replay as written makes of o, good at every step if and only if
      no destination is stale, and then the intended one. */
  ghost predicate ReplayedAs(d: Device, chain: seq<Addr>, done: seq<nat>, o: Owners, r: Owners)
    requires Within(done, |chain|)
  {
    var w := ReplayWrites(d, chain, done);
    && r == AssignAll(WARM_DATA, o, w)
    && (ReadyThroughout(o, w) <==> NoneStale(o, w))
    && (NoneStale(o, w) ==> r.Owned() && r == AssignAll(HOT_DATA, o, w))
  }

  /** With more turns than blocks the walk has ended, or never does. */
  lemma WalkEnds(d: Device, ver: nat, start: Addr, turns: nat)
    ensures turns > d.segs * d.bps ==> (|Walk(d, ver, start, turns)| < turns <==> Ends(d, ver, start))
  {
    WalkLinked(d, ver, start, turns);
    if turns > d.segs * d.bps && Ends(d, ver, start) {
      var c :| IsChain(d, ver, start, c);
      ChainNoRepeat(d, ver, start, c);
      NoRepeatShort(d, ver, start, c);
      ChainIsWalk(d, ver, start, c, turns);
    }
  }

  lemma {:induction false} ReplayClaimable(d: Device, ver: nat, start: Addr, chain: seq<Addr>, done: seq<nat>, s: Segs)
    requires Within(done, |chain|) && s.Shape() && NodesClaimable(d, ver, s) && Linked(d, ver, start, chain)
    ensures AllClaimable(s, ReplayWrites(d, chain, done))
  {
    if done != [] {
      var m := |done| - 1;
      var a := chain[done[m]];
      var p := d.Read(a);
      assert a == StepAt(d, start, chain, done[m]) && !d.Stops(ver, a);
      ReplayClaimable(d, ver, start, chain, done[..m], s);
      PageWritesAt(p, 0);
      var v: seq<Write> := ReplayWrites(d, chain, done[..m]);
      var w: seq<Write> := PageWrites(p, 0);
      forall i | 0 <= i < |v + w| ensures Claimable(s, (v + w)[i].1) {
        if i >= |v| {
          assert w[i - |v|] == (Key(p.ino, p.start + (i - |v|)), p.dests[i - |v|]);
        }
      }
    }
  }

  /** Where pass two stands after n pages. */
  ghost predicate Recovered(d: Device, o: Owners, chain: seq<Addr>, n: nat, list0: seq<Entry>,
                            r: Owners, list: seq<Entry>, done: seq<nat>)
  {
    && n <= |chain|
    && list == Left(d, chain, n, list0) && done == Replayed(d, chain, n, list0) && Within(done, |chain|)
    && r == AssignAll(WARM_DATA, o, ReplayWrites(d, chain, done))
  }

  lemma RecoveredMore(d: Device, o: Owners, chain: seq<Addr>, n: nat, list0: seq<Entry>,
                      b: Owners, list: seq<Entry>, done: seq<nat>, r: Owners)
    requires n < |chain| && Recovered(d, o, chain, n, list0, b, list, done)
    requires var p := d.Read(chain[n]);
             r == if RecoveryChain.Find(list, p.ino) < |list| then AssignAll(WARM_DATA, b, PageWrites(p, 0)) else b
    ensures var p := d.Read(chain[n]);
            Recovered(d, o, chain, n + 1, list0, r, DrainStep(list, p.ino, chain[n]),
                      if RecoveryChain.Find(list, p.ino) < |list| then done + [n] else done)
  {
    ReplayMore(d, o, chain, done, n);
  }

  lemma FoundFirst(list: seq<Entry>, ino: nat, i: nat)
    requires i <= |list| && (i < |list| ==> list[i].ino == ino) && forall k :: 0 <= k < i ==> list[k].ino != ino
    ensures RecoveryChain.Find(list, ino) == i
  {
  }

  lemma {:induction false} PageWritesAt(p: Page, n: nat)
    requires n <= |p.dests|
    ensures |PageWrites(p, n)| == |p.dests| - n
    ensures forall i :: n <= i < |p.dests| ==> PageWrites(p, n)[i - n] == (Key(p.ino, p.start + i), p.dests[i])
    decreases |p.dests| - n
  {
    if n < |p.dests| {
      PageWritesAt(p, n + 1);
    }
  }

  lemma ReplayMore(d: Device, o: Owners, chain: seq<Addr>, done: seq<nat>, n: nat)
    requires n < |chain| && Within(done, |chain|)
    ensures var v, w := ReplayWrites(d, chain, done), PageWrites(d.Read(chain[n]), 0);
            && Within(done + [n], |chain|)
            && ReplayWrites(d, chain, done + [n]) == v + w
            && AssignAll(WARM_DATA, o, v + w) == AssignAll(WARM_DATA, AssignAll(WARM_DATA, o, v), w)
  {
    var v, w := ReplayWrites(d, chain, done), PageWrites(d.Read(chain[n]), 0);
    assert (done + [n])[..|done + [n]| - 1] == done;
    FoldSplit(Step(WARM_DATA), o, v, w, |w|);
  }

  lemma {:induction false} NothingReplayed(d: Device, chain: seq<Addr>, n: nat)
    requires n <= |chain|
    ensures Left(d, chain, n, []) == [] && Replayed(d, chain, n, []) == []
  {
    if n > 0 {
      NothingReplayed(d, chain, n - 1);
    }
  }
}
