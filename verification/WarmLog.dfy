/** Why the chain roll-forward follows is never led astray (allocate_segment_by_default,
    fs/f2fs/segment.c): between two checkpoints the warm-node log, which takes free
    segments only, never comes to a block used since, and the segments it has written
    keep its type, so that no other log fills their holes. */
module WarmLog {
  import opened SegmentState
  import opened SegmentInvariant

  /** Everything used since the checkpoint lies in segments in use, and in the
      warm-node log's own segment behind its next free block. */
  ghost predicate Behind(s: Segs, used: set<Addr>)
    requires s.Shape()
  {
    && s.logs[WARM_NODE].allocType == LFS
    && forall a :: a in used ==>
         a.Blk? && a.segno in s.free.inuse
         && (a.segno == s.logs[WARM_NODE].segno ==> a.off < s.logs[WARM_NODE].nextBlkoff)
  }

  /** The segments the warm-node log has written are in use and of its type. */
  ghost predicate Typed(s: Segs, warm: seq<Addr>)
    requires s.Shape()
  {
    forall a :: a in warm ==> TypedAt(s, a)
  }

  ghost predicate TypedAt(s: Segs, a: Addr)
    requires s.Shape()
  {
    a.Blk? && a.segno < |s.sentries| && a.segno in s.free.inuse && s.sentries[a.segno].typ == WARM_NODE
  }

  lemma AdvanceOrSwitchBehind(s: Segs, t: LogType, p: Pick, used: set<Addr>)
    requires Inv(s) && Behind(s, used) && p.segno < |s.sentries| && SsrTypeOk(s, t, p)
    requires Advance(s, t).logs[t].nextBlkoff >= s.geo.blocksPerSeg ==> Legal(Advance(s, t), p)
    ensures Behind(AdvanceOrSwitch(s, t, p), used + {NextAddr(s, t)})
  {
    NextAddrFree(s, t);
    NextAddrFree(s, WARM_NODE);
    assert t != WARM_NODE ==> s.logs[t].segno != s.logs[WARM_NODE].segno;
  }

  /** Moving a log gives no segment in use another log's type, unless it is a data
      segment or the log's own type. */
  lemma AdvanceOrSwitchTyped(s: Segs, t: LogType, p: Pick, a: Addr)
    requires s.Shape() && TypedAt(s, a) && p.segno < |s.sentries| && SsrTypeOk(s, t, p)
    requires Advance(s, t).logs[t].nextBlkoff >= s.geo.blocksPerSeg ==> Legal(Advance(s, t), p)
    ensures TypedAt(AdvanceOrSwitch(s, t, p), a)
  {
  }

  /** allocate_data_block for any log keeps both, for its own block too. */
  lemma AllocateBehind(s: Segs, t: LogType, old_: Addr, p: Pick, used: set<Addr>)
    requires Inv(s) && CanAllocate(s, t, old_, p) && SsrTypeOk(s, t, p) && Behind(s, used)
    ensures Behind(AllocateBlock(s, t, old_, p), used + {NextAddr(s, t)})
  {
    AdvanceOrSwitchBehind(s, t, p, used);
    RefreshElsewhere(AdvanceOrSwitch(s, t, p), old_, NextAddr(s, t));
  }

  lemma AllocateTyped(s: Segs, t: LogType, old_: Addr, p: Pick, warm: seq<Addr>)
    requires Inv(s) && CanAllocate(s, t, old_, p) && SsrTypeOk(s, t, p) && Typed(s, warm)
    ensures Typed(AllocateBlock(s, t, old_, p), if t == WARM_NODE then warm + [NextAddr(s, t)] else warm)
  {
    var r := AllocateBlock(s, t, old_, p);
    NextAddrFree(s, t);
    RefreshElsewhere(AdvanceOrSwitch(s, t, p), old_, NextAddr(s, t));
    forall a | TypedAt(s, a) ensures TypedAt(r, a) {
      AdvanceOrSwitchTyped(s, t, p, a);
    }
  }

  /** No other log is about to write over a block of the chain, or where it goes on. */
  lemma OtherLogElsewhere(s: Segs, t: LogType, warm: seq<Addr>)
    requires Inv(s) && Typed(s, warm) && t != WARM_NODE
    ensures NextAddr(s, t) !in warm && NextAddr(s, t) != NextAddr(s, WARM_NODE)
  {
    assert s.sentries[s.logs[t].segno].typ == t;
  }

  /** Whatever lies behind the log is not where it writes next. */
  lemma NextIsNew(s: Segs, used: set<Addr>)
    requires s.Shape() && Behind(s, used)
    ensures NextAddr(s, WARM_NODE) !in used
  {
  }

  lemma ForceElsewhere(s: Segs, t: LogType, segno: nat)
    requires s.Shape() && segno < |s.sentries|
    ensures var r := ForceNewSegment(s, t, segno);
            && r.logs == s.logs[t := Curseg(segno, 0, LFS)] && r.free.inuse == s.free.inuse + {segno}
            && r.sentries == s.sentries[segno := s.sentries[segno].(typ := t)] && r.geo == s.geo
  {
    var s1 := NewCurseg(s, t, segno);
    OnlyFiled(s1, s.logs[t].segno);
  }

  lemma ForceBehind(s: Segs, t: LogType, segno: nat, used: set<Addr>, warm: seq<Addr>)
    requires s.Shape() && Behind(s, used) && Typed(s, warm)
    requires segno < |s.sentries| && segno !in s.free.inuse && t != WARM_NODE
    ensures Behind(ForceNewSegment(s, t, segno), used) && Typed(ForceNewSegment(s, t, segno), warm)
    ensures NextAddr(ForceNewSegment(s, t, segno), WARM_NODE) == NextAddr(s, WARM_NODE)
  {
    ForceElsewhere(s, t, segno);
  }
}
