/** Foreground cleaning (gc_data_segment, gc_node_segment and f2fs_gc, fs/f2fs/gc.c;
    do_write_data_page, fs/f2fs/data.c): the valid blocks of a victim section move to
    the logs their pages belong to. */
module Cleaning {
  import opened Options
  import opened SegmentState
  import opened SegmentInvariant
  import opened Division
  import Allocator

  /** What points to a block: an index of a file, or the NAT entry of a node. */
  datatype Key = Index(ino: nat, idx: nat) | Node(nid: nat)

  /** The segments, every block pointer, the summary entries, and what the device
      holds. A summary names a node and a slot; here it names the pointer these
      stand for. */
  datatype World<C> = World(s: Segs, ptr: map<Key, Addr>, sum: map<Addr, Key>, dev: map<Addr, C>)

  ghost predicate InSection(s: Segs, a: Addr, sec: nat)
    requires s.Shape()
  {
    a.Blk? && a.segno < |s.sentries| && s.geo.Sec(a.segno) == sec
  }

  /** Every pointer leads to a valid block of its own; */
  ghost predicate PointersOk<C>(w: World<C>) {
    forall k :: k in w.ptr ==> ValidBlk(w.s, w.ptr[k]) && w.ptr[k] in w.sum && w.sum[w.ptr[k]] == k && w.ptr[k] in w.dev
  }

  /** every valid block of the victim section has its owner; */
  ghost predicate OwnedIn<C>(w: World<C>, sec: nat)
    requires w.s.Shape()
  {
    forall a :: InSection(w.s, a, sec) && ValidBlk(w.s, a) ==> a in w.sum && w.sum[a] in w.ptr && w.ptr[w.sum[a]] == a
  }

  /** and no log stands in the victim section. */
  ghost predicate LogsElsewhere(s: Segs, sec: nat)
    requires s.Shape()
  {
    forall t: LogType :: s.geo.Sec(s.logs[t].segno) != sec
  }

  ghost predicate Good<C>(w: World<C>, sec: nat) {
    Inv(w.s) && PointersOk(w) && OwnedIn(w, sec) && LogsElsewhere(w.s, sec)
  }

  /** What a file reads at k. */
  ghost function Content<C>(w: World<C>, k: Key): C
    requires k in w.ptr && w.ptr[k] in w.dev
  {
    w.dev[w.ptr[k]]
  }

  ghost predicate SameContents<C>(w: World<C>, r: World<C>) {
    && r.ptr.Keys == w.ptr.Keys
    && forall k :: k in w.ptr && w.ptr[k] in w.dev ==> r.ptr[k] in r.dev && Content(r, k) == Content(w, k)
  }

  /** A pointer that changed now leads out of the victim section. */
  ghost predicate MovedOut<C>(w: World<C>, r: World<C>, sec: nat)
    requires r.s.Shape()
  {
    r.ptr.Keys == w.ptr.Keys && forall k :: k in w.ptr ==> r.ptr[k] == w.ptr[k] || !InSection(r.s, r.ptr[k], sec)
  }

  // ----- moving one block -----

  /** The log, if out of space, has somewhere to go outside the victim section
      (get_new_segment and SSR selection offer nothing else). */
  ghost predicate CanMove<C>(w: World<C>, t: LogType, a: Addr, sec: nat, p: Pick)
    requires w.s.Shape()
  {
    && CanAllocate(w.s, t, a, p)
    && (Advance(w.s, t).logs[t].nextBlkoff >= w.s.geo.blocksPerSeg ==> w.s.geo.Sec(p.segno) != sec)
  }

  /** The page is written at its log's next address, which replaces the old one. */
  function Moved<C>(w: World<C>, t: LogType, a: Addr, p: Pick): World<C>
    requires w.s.Shape() && p.segno < |w.s.sentries| && w.s.InMain(a) && a in w.sum && a in w.dev
  {
    var new_ := NextAddr(w.s, t);
    World(AllocateBlock(w.s, t, a, p), w.ptr[w.sum[a] := new_], w.sum[new_ := w.sum[a]], w.dev[new_ := w.dev[a]])
  }

  lemma AllocatedLogs(s: Segs, t: LogType, old_: Addr, p: Pick, u: LogType)
    requires s.Shape() && p.segno < |s.sentries| && s.InMain(old_) && old_.Blk?
    ensures AllocateBlock(s, t, old_, p).logs == AdvanceOrSwitch(s, t, p).logs
    ensures u != t ==> AllocateBlock(s, t, old_, p).logs[u] == s.logs[u]
    ensures AllocateBlock(s, t, old_, p).logs[t].segno ==
              if Advance(s, t).logs[t].nextBlkoff < s.geo.blocksPerSeg then s.logs[t].segno else p.segno
  {
    RefreshElsewhere(AdvanceOrSwitch(s, t, p), old_, NextAddr(s, t));
  }

  /** What a move does to pointers: the owner of the block points to the new one. */
  lemma MovePointers<C>(w: World<C>, t: LogType, a: Addr, sec: nat, p: Pick)
    requires Good(w, sec) && InSection(w.s, a, sec) && ValidBlk(w.s, a) && CanMove(w, t, a, sec, p)
    ensures a in w.sum && a in w.dev && w.sum[a] in w.ptr
    ensures var r := Moved(w, t, a, p);
            PointersOk(r) && SameContents(w, r) && !ValidBlk(w.s, NextAddr(w.s, t))
  {
    var r, new_ := Moved(w, t, a, p), NextAddr(w.s, t);
    AllocatedValid(w.s, t, a, p, new_);
    forall k | k in r.ptr
      ensures ValidBlk(r.s, r.ptr[k]) && r.ptr[k] in r.sum && r.sum[r.ptr[k]] == k && r.ptr[k] in r.dev
    {
      AllocatedValid(w.s, t, a, p, r.ptr[k]);
    }
  }

  /** One move keeps everything: contents, ownership, the invariant of the
      segments; the log stays outside the victim section, and the block is gone. */
  lemma MoveKeeps<C>(w: World<C>, t: LogType, a: Addr, sec: nat, p: Pick)
    requires Good(w, sec) && InSection(w.s, a, sec) && ValidBlk(w.s, a) && CanMove(w, t, a, sec, p)
    ensures a in w.sum && a in w.dev
    ensures var r := Moved(w, t, a, p);
            && Good(r, sec) && SameContents(w, r) && MovedOut(w, r, sec)
            && r.s.geo == w.s.geo && |r.s.sentries| == |w.s.sentries|
    ensures forall b :: InSection(w.s, b, sec) ==> (ValidBlk(Moved(w, t, a, p).s, b) <==> ValidBlk(w.s, b) && b != a)
  {
    MovePointers(w, t, a, sec, p);
    var r, new_ := Moved(w, t, a, p), NextAddr(w.s, t);
    AllocateKeeps(w.s, t, a, p);
    AllocatedValid(w.s, t, a, p, a);
    forall u: LogType ensures r.s.geo.Sec(r.s.logs[u].segno) != sec {
      AllocatedLogs(w.s, t, a, p, u);
    }
    forall b | InSection(w.s, b, sec) ensures ValidBlk(r.s, b) <==> ValidBlk(w.s, b) && b != a {
      AllocatedValid(w.s, t, a, p, b);
    }
    forall b | InSection(r.s, b, sec) && ValidBlk(r.s, b) ensures b in r.sum && r.sum[b] in r.ptr && r.ptr[r.sum[b]] == b {
      assert InSection(w.s, b, sec) && ValidBlk(w.s, b);
    }
  }

  // ----- what the allocator offers -----

  /** A segment from get_new_segment is never in the victim section, which is in use
      and which the log is not in. */
  lemma NewSegmentElsewhere(s: Segs, sec: nat, t: LogType, secsPerZone: nat, zones: set<nat>, newSec: bool, dir: Allocator.Dir)
    requires Inv(s) && LogsElsewhere(s, sec) && sec in s.free.inuseSecs && 0 < secsPerZone
    requires Allocator.SomeFree(s.free.inuseSecs, s.geo.mainSecs)
    ensures var r := Allocator.NewSegment(s.geo, s.free, secsPerZone, zones, s.logs[t].segno, newSec, dir);
            r < |s.sentries| && r !in s.free.inuse && s.geo.Sec(r) != sec
  {
    Allocator.NewSegmentFree(s.geo, s.free, secsPerZone, zones, s.logs[t].segno, newSec, dir);
  }

  /** SSR offers a log dirty segments with a hole, outside the current sections and the
      one being cleaned (sec_usage_check), or nothing. */
  ghost predicate SsrOk(ssr: (Segs, LogType) -> Option<nat>, sec: nat) {
    forall s: Segs, t: LogType :: s.Shape() && ssr(s, t).Some? ==>
      Legal(s, Victim(ssr(s, t).value)) && s.geo.Sec(ssr(s, t).value) != sec
  }

  lemma FreeSectionExists(s: Segs)
    requires s.Shape() && FreeOk(s.geo, s.free) && s.free.freeSections > 0
    ensures Allocator.SomeFree(s.free.inuseSecs, s.geo.mainSecs)
  {
    forall c | c in s.free.inuseSecs ensures c < s.geo.mainSecs {
      var i :| i in s.free.inuse && s.geo.Sec(i) == c;
      SecInRange(s.geo, i);
    }
    var c := FreeOffsetExists(s.free.inuseSecs, s.geo.mainSecs);
  }

  /** A segment holding a valid block is in use, and so is its section. */
  lemma VictimInUse(s: Segs, a: Addr, sec: nat)
    requires Inv(s) && InSection(s, a, sec) && ValidBlk(s, a)
    ensures sec in s.free.inuseSecs
  {
    assert Placed(s, a.segno);
  }

  // ----- which log a page goes to -----

  /** What __get_segment_type looks at: for data whether it is a directory's or of a file
      kept cold, for a node whether it is a direct one and whether it is marked cold. */
  datatype PageKind = DataPage(isDir: bool, coldFile: bool) | NodePage(isDnode: bool, isCold: bool)

  /** __get_segment_type with 2, 4 or 6 active logs. */
  function SegmentType(active: nat, p: PageKind, coldData: bool): LogType {
    match p
    case DataPage(isDir, coldFile) =>
      if active == 2 || isDir then HOT_DATA
      else if active == 4 || coldData || coldFile then COLD_DATA
      else WARM_DATA
    case NodePage(isDnode, isCold) =>
      if active == 2 then HOT_NODE
      else if active == 4 then (if isDnode && isCold then WARM_NODE else COLD_NODE)
      else if isDnode then (if isCold then WARM_NODE else HOT_NODE)
      else COLD_NODE
  }

  /** Cleaning marks data cold (move_data_page), and it goes to the cold log, or to the
      hot one if it is a directory's or there are two logs only; so of the six logs
      cleaning needs five at the most. */
  lemma CleanedTo(active: nat, p: PageKind)
    ensures var t := SegmentType(active, p, true);
            && t in ALL_CLEANED && (IsDataLog(t) <==> p.DataPage?)
            && (p.DataPage? ==> (t == COLD_DATA <==> active != 2 && !p.isDir))
    ensures |ALL_CLEANED| == 5
  {
  }

  const ALL_CLEANED: set<LogType> := {HOT_DATA, COLD_DATA, HOT_NODE, WARM_NODE, COLD_NODE}

  // ----- room -----

  /** What is left of the log's segment; one block if it fills holes. */
  function RoomIn(s: Segs, t: LogType): int
    requires s.Shape()
  {
    if s.logs[t].allocType.LFS? then s.geo.blocksPerSeg - s.logs[t].nextBlkoff else 1
  }

  /** By how much log t, if it is one of ls, falls short of an empty segment. */
  function Short(s: Segs, ls: set<LogType>, t: LogType): int
    requires s.Shape()
  {
    if t in ls then s.geo.blocksPerSeg - RoomIn(s, t) else 0
  }

  function Shorts(s: Segs, ls: set<LogType>, n: nat): int
    requires s.Shape() && n <= NR_LOGS
  {
    if n == 0 then 0 else Shorts(s, ls, n - 1) + Short(s, ls, n - 1)
  }

  function AllShort(s: Segs, ls: set<LogType>): int
    requires s.Shape()
  {
    Shorts(s, ls, NR_LOGS)
  }

  /** How many blocks the logs of ls can certainly still take before free sections run
      out, however the blocks are spread over them. */
  function Capacity(s: Segs, ls: set<LogType>): int
    requires s.Shape()
  {
    s.free.freeSections * s.geo.blocksPerSeg + s.geo.blocksPerSeg - AllShort(s, ls)
  }

  lemma OneSectionLess(n: int, k: int)
    ensures (n - 1) * k + k == n * k
  {
  }

  lemma NotPositive(n: int, k: int)
    requires n <= 0 && k >= 0
    ensures n * k <= 0
  {
  }

  lemma RoomBounds(s: Segs, t: LogType)
    requires Inv(s)
    ensures 1 <= RoomIn(s, t) <= s.geo.blocksPerSeg
  {
    assert s.logs[t].nextBlkoff < s.geo.blocksPerSeg;
  }

  lemma ShortBounds(s: Segs, ls: set<LogType>, t: LogType)
    requires Inv(s)
    ensures 0 <= Short(s, ls, t) <= if t in ls then s.geo.blocksPerSeg - 1 else 0
  {
    RoomBounds(s, t);
  }

  /** A log without space has one block left, */
  lemma LastBlock(s: Segs, t: LogType)
    requires Inv(s) && Advance(s, t).logs[t].nextBlkoff >= s.geo.blocksPerSeg
    ensures RoomIn(s, t) == 1
  {
    assert s.logs[t].nextBlkoff < s.geo.blocksPerSeg;
  }

  /** and with capacity for one more than is asked it finds a free section. */
  lemma SectionLeft(s: Segs, t: LogType, ls: set<LogType>)
    requires Inv(s) && t in ls && Capacity(s, ls) > 1
    requires Advance(s, t).logs[t].nextBlkoff >= s.geo.blocksPerSeg
    ensures s.free.freeSections > 0
  {
    LastBlock(s, t);
    ShortsAtLeast(s, ls, t, NR_LOGS);
    if s.free.freeSections <= 0 {
      NotPositive(s.free.freeSections, s.geo.blocksPerSeg);
    }
  }

  lemma {:induction false} ShortsAtLeast(s: Segs, ls: set<LogType>, t: LogType, n: nat)
    requires Inv(s) && n <= NR_LOGS
    ensures Shorts(s, ls, n) >= if t < n then Short(s, ls, t) else 0
  {
    if n > 0 {
      ShortsAtLeast(s, ls, t, n - 1);
      ShortBounds(s, ls, n - 1);
    }
  }

  /** Only the log that moves changes its room, */
  lemma OtherRooms(s: Segs, t: LogType, old_: Addr, p: Pick, u: LogType)
    requires s.Shape() && p.segno < |s.sentries| && s.InMain(old_) && old_.Blk? && u != t
    ensures RoomIn(AllocateBlock(s, t, old_, p), u) == RoomIn(s, u)
  {
    RefreshElsewhere(AdvanceOrSwitch(s, t, p), old_, NextAddr(s, t));
  }

  /** by one block or, on taking a free section, by less than that section holds. */
  lemma OwnRoom(s: Segs, t: LogType, old_: Addr, p: Pick)
    requires Inv(s) && CanAllocate(s, t, old_, p) && old_.Blk?
    ensures var r := AllocateBlock(s, t, old_, p);
            || (r.free.freeSections >= s.free.freeSections && RoomIn(r, t) >= RoomIn(s, t) - 1)
            || (r.free.freeSections >= s.free.freeSections - 1 && RoomIn(s, t) == 1 && RoomIn(r, t) == s.geo.blocksPerSeg)
  {
    RefreshElsewhere(AdvanceOrSwitch(s, t, p), old_, NextAddr(s, t));
    if Advance(s, t).logs[t].nextBlkoff >= s.geo.blocksPerSeg {
      LastBlock(s, t);
      if p.Victim? {
        assert Placed(s, p.segno);
      }
    }
  }

  /** So what all fall short by changes as the log that moves does. */
  lemma ShortChange(s: Segs, t: LogType, ls: set<LogType>, old_: Addr, p: Pick)
    requires s.Shape() && p.segno < |s.sentries| && s.InMain(old_) && old_.Blk? && t in ls
    ensures var r := AllocateBlock(s, t, old_, p);
            AllShort(r, ls) - AllShort(s, ls) == RoomIn(s, t) - RoomIn(r, t)
  {
    var r := AllocateBlock(s, t, old_, p);
    forall u: LogType | u != t ensures RoomIn(r, u) == RoomIn(s, u) {
      OtherRooms(s, t, old_, p, u);
    }
    ShortsChange(s, r, ls, t, NR_LOGS);
  }

  lemma {:induction false} ShortsChange(s: Segs, r: Segs, ls: set<LogType>, t: LogType, n: nat)
    requires s.Shape() && r.Shape() && r.geo == s.geo && t in ls && n <= NR_LOGS
    requires forall u: LogType :: u != t ==> RoomIn(r, u) == RoomIn(s, u)
    ensures Shorts(r, ls, n) - Shorts(s, ls, n) == if t < n then RoomIn(s, t) - RoomIn(r, t) else 0
  {
    if n > 0 {
      ShortsChange(s, r, ls, t, n - 1);
    }
  }

  /** A block costs at most one of the capacity. */
  lemma MoveCost(s: Segs, t: LogType, ls: set<LogType>, old_: Addr, p: Pick)
    requires Inv(s) && CanAllocate(s, t, old_, p) && old_.Blk? && t in ls
    ensures Capacity(AllocateBlock(s, t, old_, p), ls) >= Capacity(s, ls) - 1
  {
    OwnRoom(s, t, old_, p);
    ShortChange(s, t, ls, old_, p);
    var n, m, k := s.free.freeSections, AllocateBlock(s, t, old_, p).free.freeSections, s.geo.blocksPerSeg;
    OneSectionLess(n, k);
    if m >= n {
      TimesMono(n, m, k);
    }
    if m >= n - 1 {
      TimesMono(n - 1, m, k);
    }
  }

  // ----- the cleaner -----

  /** What cleaning leaves as it was: what every file reads, and, of the victim
      section, everything but the segment itself; what moved left the section. */
  ghost predicate Kept<C>(w: World<C>, r: World<C>, sec: nat, segno: nat) {
    && Good(w, sec) && Good(r, sec) && SameContents(w, r) && MovedOut(w, r, sec)
    && r.s.geo == w.s.geo && |r.s.sentries| == |w.s.sentries|
    && forall b :: InSection(w.s, b, sec) && b.segno != segno ==> (ValidBlk(r.s, b) <==> ValidBlk(w.s, b))
  }

  lemma KeptChain<C>(a: World<C>, b: World<C>, c: World<C>, sec: nat, segno: nat)
    requires Kept(a, b, sec, segno) && Kept(b, c, sec, segno)
    ensures Kept(a, c, sec, segno)
  {
  }

  /** The valid blocks of segment segno are m, and there is room for all of them. */
  ghost predicate Holding<C>(w: World<C>, ls: set<LogType>, sec: nat, segno: nat, m: set<nat>, spare: int) {
    && Good(w, sec) && segno < |w.s.sentries| && w.s.geo.Sec(segno) == sec
    && w.s.sentries[segno].curMap == m && Capacity(w.s, ls) > |m| + spare
  }

  /** Of m those at or after off are left, and those that fail. */
  ghost predicate LeftAt(m: set<nat>, left: set<nat>, fails: set<nat>, off: nat) {
    left <= m && forall o :: o in m ==> (o in left <==> o in fails || off <= o)
  }

  lemma AllPassed<C>(w: World<C>, w0: World<C>, sec: nat, segno: nat, m: set<nat>, left: set<nat>, fails: set<nat>)
    requires Kept(w0, w, sec, segno) && segno < |w0.s.sentries| && w0.s.sentries[segno].curMap == m
    requires LeftAt(m, left, fails, w0.s.geo.blocksPerSeg)
    ensures left == m * fails
  {
    assert EntryOk(w0.s, segno);
  }

  class Cleaner<C> {
    var w: World<C>
    const secsPerZone: nat
    const zones: seq<Curseg> -> set<nat>
    const dir: Allocator.Dir
    /** How many logs are in use, what each owner's page is, and the logs these go to. */
    const active: nat
    const page: Key -> PageKind
    const logs: set<LogType>

    constructor (w: World<C>, secsPerZone: nat, zones: seq<Curseg> -> set<nat>, dir: Allocator.Dir,
                 active: nat, page: Key -> PageKind, logs: set<LogType>)
      ensures this.w == w && this.secsPerZone == secsPerZone && this.zones == zones && this.dir == dir
      ensures this.active == active && this.page == page && this.logs == logs
    {
      this.w, this.secsPerZone, this.zones, this.dir := w, secsPerZone, zones, dir;
      this.active, this.page, this.logs := active, page, logs;
    }

    /** The log a page of k is cleaned to. */
    function LogOf(k: Key): LogType { SegmentType(active, page(k), true) }

    ghost predicate Set() { 0 < secsPerZone && forall k :: LogOf(k) in logs }

    /** Where the log goes next: nowhere while it has space, else to what SSR offers,
        else to a new segment. */
    method ChoosePick(t: LogType, a: Addr, sec: nat, ssr: (Segs, LogType) -> Option<nat>) returns (p: Pick)
      requires Good(w, sec) && InSection(w.s, a, sec) && ValidBlk(w.s, a) && SsrOk(ssr, sec) && Set()
      requires t in logs && Capacity(w.s, logs) > 1
      ensures CanMove(w, t, a, sec, p)
    {
      var s1 := Advance(w.s, t);
      if s1.logs[t].nextBlkoff < w.s.geo.blocksPerSeg {
        return FreeSeg(w.s.logs[t].segno);
      }
      var v := ssr(s1, t);
      if v.Some? {
        return Victim(v.value);
      }
      SectionLeft(w.s, t, logs);
      FreeSectionExists(w.s);
      VictimInUse(w.s, a, sec);
      NewSegmentElsewhere(w.s, sec, t, secsPerZone, zones(s1.logs), false, dir);
      p := FreeSeg(Allocator.NewSegment(s1.geo, s1.free, secsPerZone, zones(s1.logs), s1.logs[t].segno, false, dir));
    }

    /** One valid block: the owner the summary names still points here (check_dnode), and
        its page is written out. */
    method MovePage(segno: nat, off: nat, sec: nat, ssr: (Segs, LogType) -> Option<nat>, ghost m: set<nat>, ghost spare: int)
      requires Holding(w, logs, sec, segno, m, spare) && off in m && spare >= 0 && SsrOk(ssr, sec) && Set()
      modifies this
      ensures Holding(w, logs, sec, segno, m - {off}, spare) && Kept(old(w), w, sec, segno)
    {
      var a := Blk(segno, off);
      assert |m| >= 1 by { assert off in m; }
      assert InSection(w.s, a, sec) && ValidBlk(w.s, a);
      var t := LogOf(w.sum[a]);
      var p := ChoosePick(t, a, sec, ssr);
      MoveKeeps(w, t, a, sec, p);
      MoveCost(w.s, t, logs, a, p);
      MovedMap(w, t, a, sec, p);
      w := Moved(w, t, a, p);
    }

    /** The body of a pass over the segment, for one offset. */
    method MoveIfValid(segno: nat, off: nat, sec: nat, ssr: (Segs, LogType) -> Option<nat>, fails: set<nat>,
                       ghost m: set<nat>, ghost left: set<nat>, ghost spare: int, ghost w0: World<C>)
      returns (ghost now: set<nat>)
      requires Holding(w, logs, sec, segno, left, spare) && spare >= 0 && SsrOk(ssr, sec) && Set() && Kept(w0, w, sec, segno)
      requires LeftAt(m, left, fails, off)
      modifies this
      ensures LeftAt(m, now, fails, off + 1)
      ensures Holding(w, logs, sec, segno, now, spare) && Kept(w0, w, sec, segno)
    {
      now := if off in fails then left else left - {off};
      if off in w.s.sentries[segno].curMap && off !in fails {
        ghost var b := w;
        MovePage(segno, off, sec, ssr, left, spare);
        KeptChain(w0, b, w, sec, segno);
      } else {
        assert now == left;
      }
    }

    /** One pass over the segment: every valid block but those whose page cannot be had
        this time. */
    method MovePages(segno: nat, sec: nat, ssr: (Segs, LogType) -> Option<nat>, fails: set<nat>, ghost m: set<nat>, ghost spare: int)
      requires Holding(w, logs, sec, segno, m, spare) && spare >= 0 && SsrOk(ssr, sec) && Set()
      modifies this
      ensures Holding(w, logs, sec, segno, m * fails, spare) && Kept(old(w), w, sec, segno)
    {
      ghost var left, w0 := m, w;
      var off, bps := 0, w.s.geo.blocksPerSeg;
      KeptSelf(w, sec, segno);
      while off < bps
        invariant off <= bps && LeftAt(m, left, fails, off)
        invariant Holding(w, logs, sec, segno, left, spare) && Kept(w0, w, sec, segno)
      {
        left := MoveIfValid(segno, off, sec, ssr, fails, m, left, spare, w0);
        off := off + 1;
      }
      AllPassed(w, w0, sec, segno, m, left, fails);
    }

    /** gc_data_segment and gc_node_segment: passes until nothing valid is left. fails[p] are the blocks the
        p-th pass cannot get at; every pass leaves only those, and once there are no
        more errors the segment is empty. */
    method GcSegment(segno: nat, sec: nat, ssr: (Segs, LogType) -> Option<nat>, fails: seq<set<nat>>, ghost spare: int)
      requires Good(w, sec) && segno < |w.s.sentries| && w.s.geo.Sec(segno) == sec && SsrOk(ssr, sec) && Set()
      requires spare >= 0 && Capacity(w.s, logs) > w.s.sentries[segno].validBlocks + spare
      modifies this
      ensures Kept(old(w), w, sec, segno) && w.s.sentries[segno].curMap == {} && w.s.sentries[segno].validBlocks == 0
      ensures Capacity(w.s, logs) > spare
    {
      assert EntryOk(w.s, segno);
      var pass := 0;
      KeptSelf(w, sec, segno);
      while w.s.sentries[segno].validBlocks != 0
        invariant segno < |w.s.sentries| && Kept(old(w), w, sec, segno)
        invariant Holding(w, logs, sec, segno, w.s.sentries[segno].curMap, spare)
        decreases if pass < |fails| then |fails| - pass else 0, |w.s.sentries[segno].curMap|
      {
        ghost var b := w;
        assert EntryOk(w.s, segno);
        MovePages(segno, sec, ssr, if pass < |fails| then fails[pass] else {}, w.s.sentries[segno].curMap, spare);
        KeptChain(old(w), b, w, sec, segno);
        pass := pass + 1;
        assert EntryOk(w.s, segno);
      }
      assert EntryOk(w.s, segno);
    }

    /** f2fs_gc on one victim section: segment after segment, until the section holds no
        valid block, whatever mix of data and node segments it is. As many free sections
        always suffice as the section has segments, and one more for each log that is
        written to but one. */
    method GcSection(sec: nat, ssr: (Segs, LogType) -> Option<nat>, fails: seq<seq<set<nat>>>)
      requires Good(w, sec) && sec < w.s.geo.mainSecs && SsrOk(ssr, sec) && Set()
      requires w.s.free.freeSections >= w.s.geo.segsPerSec + |logs| - 1 && |fails| == w.s.geo.segsPerSec
      modifies this
      ensures Inv(w.s) && SameContents(old(w), w) && MovedOut(old(w), w, sec)
      ensures forall a :: InSection(w.s, a, sec) ==> !ValidBlk(w.s, a)
    {
      var g := w.s.geo;
      SecBounds(g, sec);
      assert LogOf(Node(0)) in logs;
      SectionFits(w.s, sec, logs);
      var first := sec * g.segsPerSec;
      var i := 0;
      while i < g.segsPerSec
        invariant i <= g.segsPerSec && Cleaned(old(w), w, g, sec, first, i)
        invariant Capacity(w.s, logs) > SumValid(w.s.sentries, first + i, first + g.segsPerSec)
      {
        CleanNext(g, sec, first, i, ssr, fails[i], old(w));
        i := i + 1;
      }
      SectionEmpty(old(w), w, g, sec, first);
    }

    /** One segment of the section. */
    method CleanNext(g: Geo, sec: nat, first: nat, i: nat, ssr: (Segs, LogType) -> Option<nat>, fails: seq<set<nat>>, ghost w0: World<C>)
      requires g.Valid() && sec < g.mainSecs && first == sec * g.segsPerSec && i < g.segsPerSec && first + g.segsPerSec <= g.MainSegs()
      requires Cleaned(w0, w, g, sec, first, i) && SsrOk(ssr, sec) && Set()
      requires Capacity(w.s, logs) > SumValid(w.s.sentries, first + i, first + g.segsPerSec)
      modifies this
      ensures Cleaned(w0, w, g, sec, first, i + 1)
      ensures Capacity(w.s, logs) > SumValid(w.s.sentries, first + (i + 1), first + g.segsPerSec)
    {
      ghost var b := w;
      ghost var rest := SumValid(w.s.sentries, first + i + 1, first + g.segsPerSec);
      OtherSection(g, first + i, sec);
      SplitFirst(w.s.sentries, first + i, first + g.segsPerSec);
      SumNotNegative(w.s, first + i + 1, first + g.segsPerSec);
      GcSegment(first + i, sec, ssr, fails, rest);
      SameSection(g, sec, first, first + i + 1);
      RestSame(b, w, sec, first + i, first + i + 1, first + g.segsPerSec);
      CleanedMore(w0, b, w, g, sec, first, i);
    }
  }

  lemma SameSection(g: Geo, sec: nat, first: nat, lo: nat)
    requires g.Valid() && sec < g.mainSecs && first == sec * g.segsPerSec <= lo && first + g.segsPerSec <= g.MainSegs()
    ensures forall j :: lo <= j < first + g.segsPerSec ==> g.Sec(j) == sec
  {
    forall j | lo <= j < first + g.segsPerSec ensures g.Sec(j) == sec {
      OtherSection(g, j, sec);
    }
  }

  lemma SectionEmpty<C>(w: World<C>, r: World<C>, g: Geo, sec: nat, first: nat)
    requires g.Valid() && Cleaned(w, r, g, sec, first, g.segsPerSec) && first == sec * g.segsPerSec
    ensures forall a :: InSection(r.s, a, sec) ==> !ValidBlk(r.s, a)
  {
    forall a | InSection(r.s, a, sec) ensures !ValidBlk(r.s, a) {
      SecInRange(g, a.segno);
    }
  }

  // ----- the loops -----

  lemma KeptSelf<C>(w: World<C>, sec: nat, segno: nat)
    requires Good(w, sec)
    ensures Kept(w, w, sec, segno)
  {
  }

  lemma MovedMap<C>(w: World<C>, t: LogType, a: Addr, sec: nat, p: Pick)
    requires Good(w, sec) && InSection(w.s, a, sec) && ValidBlk(w.s, a) && CanMove(w, t, a, sec, p)
    requires a in w.sum && a in w.dev
    ensures |Moved(w, t, a, p).s.sentries| == |w.s.sentries|
    ensures Moved(w, t, a, p).s.sentries[a.segno].curMap == w.s.sentries[a.segno].curMap - {a.off}
  {
    AdvancedMaps(w.s, t, p, a.segno);
    RefreshedMaps(AdvanceOrSwitch(w.s, t, p), a, NextAddr(w.s, t), a.segno);
    assert w.s.geo.Sec(NextAddr(w.s, t).segno) != sec;
  }

  /** The first n segments of the section, from first on, have been emptied. */
  ghost predicate Cleaned<C>(w: World<C>, r: World<C>, g: Geo, sec: nat, first: nat, n: nat) {
    && Good(r, sec) && SameContents(w, r) && MovedOut(w, r, sec) && r.s.geo == g
    && forall j :: first <= j < first + n && j < |r.s.sentries| ==> r.s.sentries[j].curMap == {}
  }

  lemma CleanedMore<C>(w: World<C>, b: World<C>, r: World<C>, g: Geo, sec: nat, first: nat, n: nat)
    requires g.Valid() && sec < g.mainSecs && Cleaned(w, b, g, sec, first, n) && Kept(b, r, sec, first + n)
    requires first == sec * g.segsPerSec && n < g.segsPerSec && first + n < |r.s.sentries| && r.s.sentries[first + n].curMap == {}
    ensures Cleaned(w, r, g, sec, first, n + 1)
  {
    forall j | first <= j < first + n && j < |r.s.sentries| ensures r.s.sentries[j].curMap == {} {
      OtherSection(g, j, sec);
      StillEmpty(b, r, sec, first + n, j);
    }
  }

  lemma StillEmpty<C>(b: World<C>, r: World<C>, sec: nat, segno: nat, j: nat)
    requires Kept(b, r, sec, segno) && j != segno && j < |b.s.sentries| && b.s.geo.Sec(j) == sec && b.s.sentries[j].curMap == {}
    ensures r.s.sentries[j].curMap == {}
  {
    forall o: nat ensures o !in r.s.sentries[j].curMap {
      assert InSection(b.s, Blk(j, o), sec);
      assert ValidBlk(r.s, Blk(j, o)) <==> ValidBlk(b.s, Blk(j, o));
    }
  }

  lemma {:induction false} SplitFirst(es: seq<SegEntry>, lo: nat, hi: nat)
    requires lo < hi <= |es|
    ensures SumValid(es, lo, hi) == es[lo].validBlocks + SumValid(es, lo + 1, hi)
    decreases hi - lo
  {
    if lo + 1 < hi {
      SplitFirst(es, lo, hi - 1);
    }
  }

  lemma {:induction false} SumNotNegative(s: Segs, lo: nat, hi: nat)
    requires EntriesOk(s) && lo <= hi <= |s.sentries|
    ensures 0 <= SumValid(s.sentries, lo, hi) <= (hi - lo) * s.geo.blocksPerSeg
    decreases hi - lo
  {
    if lo < hi {
      SumNotNegative(s, lo, hi - 1);
      assert EntryOk(s, hi - 1);
      BoundedCard(s.sentries[hi - 1].curMap, s.geo.blocksPerSeg);
      OneSectionLess(hi - lo, s.geo.blocksPerSeg);
    }
  }

  /** The other segments of the section count what they did. */
  lemma {:induction false} RestSame<C>(b: World<C>, r: World<C>, sec: nat, segno: nat, lo: nat, hi: nat)
    requires Kept(b, r, sec, segno) && segno < lo <= hi <= |r.s.sentries|
    requires forall j :: lo <= j < hi ==> b.s.geo.Sec(j) == sec
    ensures SumValid(r.s.sentries, lo, hi) == SumValid(b.s.sentries, lo, hi)
    decreases hi - lo
  {
    if lo < hi {
      RestSame(b, r, sec, segno, lo, hi - 1);
      var j := hi - 1;
      assert EntryOk(b.s, j) && EntryOk(r.s, j);
      forall o ensures o in r.s.sentries[j].curMap <==> o in b.s.sentries[j].curMap {
        assert InSection(b.s, Blk(j, o), sec);
        assert ValidBlk(r.s, Blk(j, o)) <==> ValidBlk(b.s, Blk(j, o));
      }
      assert r.s.sentries[j].curMap == b.s.sentries[j].curMap;
    }
  }

  function Below(ls: set<LogType>, n: nat): set<LogType> { set t | t in ls && t < n }

  /** What all logs fall short by is less than a segment for each. */
  lemma {:induction false} ShortInAll(s: Segs, ls: set<LogType>, n: nat)
    requires Inv(s) && n <= NR_LOGS
    ensures Shorts(s, ls, n) <= |Below(ls, n)| * (s.geo.blocksPerSeg - 1)
  {
    if n > 0 {
      var k := s.geo.blocksPerSeg - 1;
      ShortInAll(s, ls, n - 1);
      ShortBounds(s, ls, n - 1);
      BelowGrows(ls, n);
      OneSectionLess(|Below(ls, n - 1)| + 1, k);
    }
  }

  lemma BelowGrows(ls: set<LogType>, n: nat)
    requires 0 < n <= NR_LOGS
    ensures |Below(ls, n)| == |Below(ls, n - 1)| + if n - 1 in ls then 1 else 0
  {
    assert Below(ls, n) == Below(ls, n - 1) + if n - 1 in ls then {n - 1} else {};
  }

  lemma RoomForAll(segs: int, n: int, free: int, b: int, short: int)
    requires segs + n - 1 <= free && 1 <= n && 1 <= b && short <= n * (b - 1)
    ensures free * b + b - short > segs * b
  {
    TimesMono(segs + n - 1, free, b);
    Spread(segs, n, b);
  }

  lemma Spread(segs: int, n: int, b: int)
    ensures (segs + n - 1) * b == segs * b + n * b - b && n * (b - 1) == n * b - n
  {
  }

  /** A section never holds more than its segments' worth of blocks. */
  lemma SectionFits(s: Segs, sec: nat, ls: set<LogType>)
    requires Inv(s) && sec < s.geo.mainSecs && ls != {} && s.free.freeSections >= s.geo.segsPerSec + |ls| - 1
    ensures sec * s.geo.segsPerSec + s.geo.segsPerSec <= |s.sentries|
    ensures Capacity(s, ls) > SumValid(s.sentries, sec * s.geo.segsPerSec, sec * s.geo.segsPerSec + s.geo.segsPerSec)
  {
    var lo, g := sec * s.geo.segsPerSec, s.geo;
    SecBounds(g, sec);
    SumNotNegative(s, lo, lo + g.segsPerSec);
    ShortInAll(s, ls, NR_LOGS);
    assert Below(ls, NR_LOGS) == ls;
    RoomForAll(g.segsPerSec, |ls|, s.free.freeSections, g.blocksPerSeg, AllShort(s, ls));
  }
}
