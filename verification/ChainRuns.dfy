/** Whole runs of the segment manager together with the device: what roll-forward's
    walk meets after a crash at any point. */
module ChainRuns {
  import opened SegmentState
  import opened SegmentInvariant
  import opened SegmentRuns
  import WarmLog
  import C = RecoveryChain
  import O = RecoveryOwnership

  /** Where each file index lies; an index without a block is not listed. */
  type Pointers = map<O.Key, Addr>

  function Ptr(f: Pointers, k: O.Key): Addr { if k in f then f[k] else NullAddr }

  /** io is the device as it stands and what has been written since the last commit or
      mount, base the device as it was then; ver is the committed checkpoint's version,
      which node blocks are stamped with; unbroken says that no crash came since the
      commit. file is what the files' indices point to now, saved what they pointed to
      at the commit, and was what they pointed to when each block of the chain was written. */
  datatype Life = Life(
    w: World, io: C.Writer, base: C.Device, ver: nat, unbroken: bool,
    file: Pointers, saved: Pointers, was: seq<Pointers>)

  /** An event, the page it writes if it writes one, the index whose pointer it changes if
      it changes one, and which blocks reach the device should it be a crash, or outlast
      it should it discard any. */
  datatype Act = Act(e: Event, page: C.Page, key: O.Key, kept: set<Addr>)

  /** The committed checkpoint's next free warm-node address, where the walk starts. */
  function WalkStart(d: Durable): Addr
    requires |d.logs| == NR_LOGS
  {
    Blk(d.logs[WARM_NODE].segno, d.logs[WARM_NODE].nextBlkoff)
  }

  /** One block, or no block on either side. */
  predicate SameBlock(a: Addr, b: Addr) { a.Blk? || b.Blk? ==> a == b }

  /** A node block holds the pointers of its indices. */
  predicate Shows(page: C.Page, f: Pointers) {
    forall j :: 0 <= j < |page.dests| ==> SameBlock(page.dests[j], Ptr(f, O.Key(page.ino, page.start + j)))
  }

  /** The block lies in a segment of data type. */
  predicate InData(s: Segs, a: Addr) {
    a.Blk? && a.segno < |s.sentries| && IsDataLog(s.sentries[a.segno].typ)
  }

  /** Segment i is one of data for the checkpoint, or it holds nothing there and no log is on it. */
  ghost predicate ClaimableIn(d: Durable, i: nat)
    requires |d.logs| == NR_LOGS
  {
    i < |d.types| && i < |d.maps| && (IsDataLog(d.types[i]) || (d.maps[i] == {} && !IsCurseg(d.logs, i)))
  }

  /** Victims are of a type their log may fill, and logs are forced onto new segments for
      data only; a data page does not pass for a node block of this version or a later
      one, and replaces the block its index had; a node block shows the pointers there
      are, and replaces a node block; what is dropped or recovered is an index's block,
      and a block is recovered where the checkpoint leaves room for data. */
  ghost predicate Allowed(x: Life, a: Act)
    requires x.w.s.Shape()
  {
    && |x.w.durable.logs| == NR_LOGS && Enabled(x.w, a.e)
    && match a.e
       case Write(t, old_, p) =>
         && SsrTypeOk(x.w.s, t, p)
         && if IsDataLog(t) then a.page.ver < x.ver && SameBlock(old_, Ptr(x.file, a.key))
            else Shows(a.page, x.file) && !InData(x.w.s, old_)
       case ForceSegment(t, _) => IsDataLog(t)
       case Drop(b) => InData(x.w.s, b) ==> Ptr(x.file, a.key) == b
       case Recover(old_, new_) => SameBlock(old_, Ptr(x.file, a.key)) && new_.Blk? && ClaimableIn(x.w.durable, new_.segno)
       case _ => true
  }

  /** fill_node_footer_blkaddr stamps every node with the version and with where its own
      log goes on; next is that address. */
  function WriteOf(x: Life, t: LogType, page: C.Page, next: Addr): C.Event
    requires x.w.s.Shape()
  {
    var stamped := page.(ver := x.ver, next := next);
    if t == WARM_NODE then C.WarmWrite(stamped, next)
    else C.OtherWrite(NextAddr(x.w.s, t), if IsDataLog(t) then page else stamped)
  }

  /** The blocks in lost are discarded and read as zeroes. */
  function Wiped(d: C.Device, lost: set<Addr>): C.Device {
    d.(blocks := map a | a in d.blocks && a !in lost :: d.blocks[a])
  }

  /** What the event discards, but for what outlasts it. */
  ghost function Lost(x: Life, a: Act): set<Addr>
    requires x.w.s.Shape()
  {
    set b | b in x.io.d.blocks.Keys + x.base.blocks.Keys && !a.e.Write? && Touches(x.w, a.e, b) && b !in a.kept
  }

  /** What the indices point to afterwards. */
  function FileAfter(x: Life, a: Act): Pointers
    requires x.w.s.Shape()
  {
    match a.e
    case Write(t, _, _) => if IsDataLog(t) then x.file[a.key := NextAddr(x.w.s, t)] else x.file
    case Drop(b) => if b.Blk? && Ptr(x.file, a.key) == b then x.file - {a.key} else x.file
    case Recover(_, new_) => x.file[a.key := new_]
    case Crash(_) => x.saved
    case _ => x.file
  }

  ghost function Step(x: Life, a: Act): Life
    requires x.w.s.Shape() && Allowed(x, a)
  {
    var w, file := Next(x.w, a.e), FileAfter(x, a);
    match a.e
    case Write(t, _, _) =>
      assert w.s.Shape();
      x.(w := w, io := C.After(x.io, WriteOf(x, t, a.page, NextAddr(w.s, t))), file := file,
         was := if t == WARM_NODE then x.was + [x.file] else x.was)
    case Commit => Life(w, C.Writer(x.io.d, x.io.next, [], {}), x.io.d, x.ver + 1, true, file, file, [])
    case Crash(_) =>
      var d := C.Crashed(x.base, x.io, a.kept);
      Life(w, C.Writer(d, WalkStart(x.w.durable), [], {}), d, x.ver, false, file, x.saved, [])
    case _ =>
      var lost := Lost(x, a);
      x.(w := w, io := x.io.(d := Wiped(x.io.d, lost)), base := Wiped(x.base, lost), file := file)
  }

  /** No block is of a version above ver. */
  ghost predicate UpTo(d: C.Device, ver: nat) {
    forall a :: d.Read(a).ver <= ver
  }

  ghost predicate Below(d: C.Device, ver: nat) {
    forall a :: d.Read(a).ver < ver
  }

  ghost predicate AtWarmLog(x: Life)
    requires x.w.s.Shape()
  {
    && |x.w.durable.logs| == NR_LOGS
    && x.io.d.segs == |x.w.s.sentries| && x.io.d.bps == x.w.s.geo.blocksPerSeg
    && x.io.next == NextAddr(x.w.s, WARM_NODE)
    && x.w.s.logs[WARM_NODE].allocType == LFS && x.w.durable.logs[WARM_NODE].allocType == LFS
  }

  /** What of the writing since the last commit the phase lets be known. */
  ghost predicate Since(x: Life)
    requires x.w.s.Shape()
  {
    match x.w.phase
    case Running => WarmLog.Behind(x.w.s, x.io.used) && WarmLog.Typed(x.w.s, x.io.warm)
    case Frozen => true
    case _ => x.io.used == {} && x.io.warm == []
  }

  ghost predicate Versions(x: Life) {
    UpTo(x.io.d, x.ver) && UpTo(x.base, x.ver) && (x.unbroken ==> Below(x.base, x.ver))
  }

  /** The world, the chain and the versions are as they should be, */
  ghost predicate Linked(x: Life) {
    && GoodWorld(x.w)
    && AtWarmLog(x) && Since(x) && Versions(x)
    && C.WriterInv(x.ver, x.base, WalkStart(x.w.durable), x.io)
  }

  // ----- every act keeps it -----

  /** What allocate_data_block does as far as the writer sees it. */
  lemma AllocateSeen(s: Segs, t: LogType, old_: Addr, p: Pick, used: set<Addr>, warm: seq<Addr>)
    requires Inv(s) && CanAllocate(s, t, old_, p) && SsrTypeOk(s, t, p)
    requires WarmLog.Behind(s, used) && WarmLog.Typed(s, warm)
    ensures var r, a := AllocateBlock(s, t, old_, p), NextAddr(s, t);
            && WarmLog.Behind(r, used + {a}) && WarmLog.Typed(r, if t == WARM_NODE then warm + [a] else warm)
            && NextAddr(r, WARM_NODE) !in used + {a}
            && (t != WARM_NODE ==> a !in warm && a != NextAddr(s, WARM_NODE) && NextAddr(r, WARM_NODE) == NextAddr(s, WARM_NODE))
            && r.geo == s.geo && |r.sentries| == |s.sentries|
            && a.off < s.geo.blocksPerSeg && NextAddr(r, t).off < s.geo.blocksPerSeg
  {
    var r := AllocateBlock(s, t, old_, p);
    AllocateKeeps(s, t, old_, p);
    WarmLog.AllocateBehind(s, t, old_, p, used);
    WarmLog.AllocateTyped(s, t, old_, p, warm);
    RefreshElsewhere(AdvanceOrSwitch(s, t, p), old_, NextAddr(s, t));
    WarmLog.NextIsNew(r, used + {NextAddr(s, t)});
    if t != WARM_NODE {
      WarmLog.OtherLogElsewhere(s, t, warm);
    }
  }

  lemma WriteEnabled(x: Life, a: Act)
    requires Linked(x) && Allowed(x, a) && a.e.Write?
    ensures Next(x.w, a.e).s.Shape()
    ensures C.Enabled(x.ver, x.io, WriteOf(x, a.e.t, a.page, NextAddr(Next(x.w, a.e).s, a.e.t)))
  {
    AllocateSeen(x.w.s, a.e.t, a.e.old_, a.e.p, x.io.used, x.io.warm);
  }

  lemma WriteLinked(x: Life, a: Act)
    requires Linked(x) && Allowed(x, a) && a.e.Write?
    ensures Linked(Step(x, a))
  {
    StepKeeps(x.w, a.e);
    AllocateSeen(x.w.s, a.e.t, a.e.old_, a.e.p, x.io.used, x.io.warm);
    WriteEnabled(x, a);
    C.WriterKeeps(x.ver, x.base, WalkStart(x.w.durable), x.io, WriteOf(x, a.e.t, a.page, NextAddr(Next(x.w, a.e).s, a.e.t)));
    WritePlace(x, a);
  }

  lemma WritePlace(x: Life, a: Act)
    requires Linked(x) && Allowed(x, a) && a.e.Write?
    ensures Next(x.w, a.e).s.Shape() && AtWarmLog(Step(x, a)) && Since(Step(x, a)) && Versions(Step(x, a))
  {
    AllocateSeen(x.w.s, a.e.t, a.e.old_, a.e.p, x.io.used, x.io.warm);
    WriteVersions(x, a);
  }

  lemma WriteVersions(x: Life, a: Act)
    requires Linked(x) && Allowed(x, a) && a.e.Write?
    ensures Versions(Step(x, a))
  {
    var r := Step(x, a);
    forall b ensures r.io.d.Read(b).ver <= r.ver {
      assert x.io.d.Read(b).ver <= x.ver;
    }
  }

  lemma WipedReads(d: C.Device, lost: set<Addr>, a: Addr)
    ensures Wiped(d, lost).Read(a) == if a in lost then C.ZERO_PAGE else d.Read(a)
  {
  }

  lemma WipedWriter(ver: nat, base: C.Device, start: Addr, io: C.Writer, lost: set<Addr>)
    requires C.WriterInv(ver, base, start, io) && lost !! io.used
    ensures C.WriterInv(ver, Wiped(base, lost), start, io.(d := Wiped(io.d, lost)))
  {
    var d := Wiped(io.d, lost);
    forall a ensures d.Read(a) == if a in lost then C.ZERO_PAGE else io.d.Read(a) {
      WipedReads(io.d, lost, a);
      WipedReads(base, lost, a);
    }
    forall a | a !in io.used ensures d.Read(a) == Wiped(base, lost).Read(a) {
      WipedReads(base, lost, a);
    }
    forall i {:trigger C.StepAt(d, start, io.warm, i)} | 0 <= i <= |io.warm|
      ensures C.StepAt(d, start, io.warm, i) == C.StepAt(io.d, start, io.warm, i)
      ensures i < |io.warm| ==> io.warm[i] == C.StepAt(d, start, io.warm, i) && !d.Stops(ver, io.warm[i])
    {
      assert i > 0 ==> io.warm[i - 1] in io.warm;
      if i < |io.warm| {
        assert io.warm[i] in io.warm && io.warm[i] == C.StepAt(io.d, start, io.warm, i);
      }
    }
  }

  /** Only a block nothing has used since the last commit or mount is discarded. */
  lemma LostUnused(x: Life, a: Act)
    requires Linked(x) && Allowed(x, a) && !a.e.Write?
    ensures Lost(x, a) !! x.io.used
  {
  }

  lemma WipeLinked(x: Life, a: Act)
    requires Linked(x) && Allowed(x, a) && !a.e.Write? && !a.e.Commit? && !a.e.Crash?
    ensures Versions(Step(x, a))
    ensures C.WriterInv(x.ver, Step(x, a).base, WalkStart(x.w.durable), Step(x, a).io)
  {
    var lost := Lost(x, a);
    LostUnused(x, a);
    WipedWriter(x.ver, x.base, WalkStart(x.w.durable), x.io, lost);
    forall b ensures Wiped(x.io.d, lost).Read(b).ver <= x.io.d.Read(b).ver && Wiped(x.base, lost).Read(b).ver <= x.base.Read(b).ver {
      WipedReads(x.io.d, lost, b);
      WipedReads(x.base, lost, b);
    }
  }

  /** The events that write nothing leave the warm-node log where it is. */
  lemma WarmStays(w: World, e: Event)
    requires GoodWorld(w) && Enabled(w, e) && !e.Write? && !e.Crash? && (e.ForceSegment? ==> IsDataLog(e.t))
    ensures Next(w, e).s.Shape() && Next(w, e).s.logs[WARM_NODE] == w.s.logs[WARM_NODE]
    ensures |Next(w, e).s.sentries| == |w.s.sentries| && Next(w, e).s.geo == w.s.geo
    ensures !e.Commit? ==> Next(w, e).durable == w.durable
  {
    match e {
      case Drop(a) => InvalidateElsewhere(w.s, a);
      case ForceSegment(t, segno) => ForceNewSegmentCore(w.s, t, segno);
      case Recover(old_, new_) => RecoverElsewhere(w.s, old_, new_);
      case MendLog(segno) => MendElsewhere(w, segno);
      case _ =>
    }
  }

  lemma RecoverElsewhere(s: Segs, old_: Addr, new_: Addr)
    requires RecoveryInv(s) && CanRecover(s, old_, new_)
    ensures var r := RecoverData(s, old_, new_);
            r.logs[WARM_NODE] == s.logs[WARM_NODE] && |r.sentries| == |s.sentries| && r.geo == s.geo
  {
    var t := RecoveryLog(s, old_, new_);
    var s1 := StandOn(s, t, new_);
    StoodOn(s, t, new_);
    RefreshElsewhere(s1, old_, new_);
    OnlyFiled(Refresh(s1, old_, new_), s.logs[t].segno);
  }

  lemma MendElsewhere(w: World, segno: nat)
    requires GoodWorld(w) && Enabled(w, MendLog(segno))
    ensures var r := ForceNewSegment(w.s, NextLog(w.phase), segno);
            r.logs[WARM_NODE] == w.s.logs[WARM_NODE] && |r.sentries| == |w.s.sentries| && r.geo == w.s.geo
  {
    assert MendedBelow(w.s, NextLog(w.phase));
    ForceNewSegmentCore(w.s, NextLog(w.phase), segno);
  }

  lemma SinceKept(x: Life, a: Act)
    requires Linked(x) && Allowed(x, a) && !a.e.Write? && !a.e.Commit? && !a.e.Crash?
    ensures Next(x.w, a.e).s.Shape() && Since(Step(x, a))
  {
    var s, r := x.w.s, Next(x.w, a.e).s;
    WarmStays(x.w, a.e);
    match a.e {
      case Drop(b) =>
        InvalidateElsewhere(s, b);
        if x.w.phase == Running {
          forall c | WarmLog.TypedAt(s, c) ensures WarmLog.TypedAt(r, c) {
          }
        }
      case ForceSegment(t, segno) => WarmLog.ForceBehind(s, t, segno, x.io.used, x.io.warm);
      case _ =>
    }
  }

  lemma QuietLinked(x: Life, a: Act)
    requires Linked(x) && Allowed(x, a) && !a.e.Write? && !a.e.Commit? && !a.e.Crash?
    ensures Linked(Step(x, a))
  {
    StepKeeps(x.w, a.e);
    WarmStays(x.w, a.e);
    WipeLinked(x, a);
    SinceKept(x, a);
  }

  lemma CommitLinked(x: Life, a: Act)
    requires Linked(x) && Allowed(x, a) && a.e.Commit?
    ensures Linked(Step(x, a))
  {
    StepKeeps(x.w, a.e);
    WarmStays(x.w, a.e);
  }

  lemma CrashLinked(x: Life, a: Act)
    requires Linked(x) && Allowed(x, a) && a.e.Crash?
    ensures Linked(Step(x, a))
  {
    StepKeeps(x.w, a.e);
    CrashVersions(x, a);
    CrashPlace(x.w, a.e.rollForward);
    NothingWritten(x.ver, C.Crashed(x.base, x.io, a.kept), WalkStart(x.w.durable));
  }

  lemma CrashVersions(x: Life, a: Act)
    requires Linked(x) && Allowed(x, a) && a.e.Crash?
    ensures Versions(Step(x, a))
  {
    var r := Step(x, a);
    forall b ensures r.base.Read(b).ver <= x.ver {
      C.CrashedReads(x.base, x.io, a.kept, b);
    }
  }

  lemma NothingWritten(ver: nat, d: C.Device, start: Addr)
    requires d.InMain(start)
    ensures C.WriterInv(ver, d, start, C.Writer(d, start, [], {}))
  {
  }

  lemma CrashPlace(w: World, rollForward: bool)
    requires GoodWorld(w)
    ensures var s := Next(w, Crash(rollForward)).s;
            && s.logs == w.durable.logs && |s.sentries| == |w.s.sentries| && s.geo == w.s.geo
            && w.durable.logs[WARM_NODE].segno < |w.s.sentries| && w.durable.logs[WARM_NODE].nextBlkoff < w.s.geo.blocksPerSeg
  {
  }

  lemma StepLinked(x: Life, a: Act)
    requires Linked(x) && Allowed(x, a)
    ensures Linked(Step(x, a))
  {
    if a.e.Write? {
      WriteLinked(x, a);
    } else if a.e.Commit? {
      CommitLinked(x, a);
    } else if a.e.Crash? {
      CrashLinked(x, a);
    } else {
      QuietLinked(x, a);
    }
  }

  // ----- files, and where their pointers lead -----

  ghost predicate DataBlk(s: Segs, a: Addr) { ValidBlk(s, a) && InData(s, a) }

  /** Every pointer leads to a valid data block of its own. */
  ghost predicate FileOk(s: Segs, f: Pointers) {
    && (forall k :: Ptr(f, k).Blk? ==> DataBlk(s, Ptr(f, k)))
    && (forall k, l :: k != l && Ptr(f, k).Blk? ==> Ptr(f, k) != Ptr(f, l))
  }

  /** Data segments in use are ones the checkpoint leaves room for data in, and the logs it
      knows still hold their segments. */
  ghost predicate SegsTied(s: Segs, d: Durable)
    requires s.Shape() && |d.logs| == NR_LOGS
  {
    && (forall t: LogType :: d.logs[t].segno in s.free.inuse)
    && forall i :: 0 <= i < |s.sentries| && i in s.free.inuse && IsDataLog(s.sentries[i].typ) ==> ClaimableIn(d, i)
  }

  /** The node blocks of the version point into such segments only. */
  ghost predicate NodesTied(dev: C.Device, ver: nat, d: Durable)
    requires |d.logs| == NR_LOGS
  {
    forall a, j :: !dev.Stops(ver, a) && 0 <= j < |dev.Read(a).dests| ==> DestTied(dev, d, dev.Read(a).dests[j])
  }

  ghost predicate DestTied(dev: C.Device, d: Durable, b: Addr)
    requires |d.logs| == NR_LOGS
  {
    dev.InMain(b) ==> ClaimableIn(d, b.segno)
  }

  /** Each block of the chain shows what its indices pointed to when it was written. */
  ghost predicate ChainShows(x: Life) {
    AllShow(x.io.d, x.io.warm, x.was)
  }

  ghost predicate Tied(x: Life) {
    && x.w.s.Shape() && DurableShape(x.w.s.geo, x.w.durable)
    && FileOk(x.w.s, x.file) && FileOk(Mount(x.w.s.geo, x.w.durable), x.saved)
    && (x.w.phase != Frozen ==> SegsTied(x.w.s, x.w.durable))
    && NodesTied(x.io.d, x.ver, x.w.durable) && NodesTied(x.base, x.ver, x.w.durable)
    && ChainShows(x)
  }

  ghost predicate Good(x: Life) { Linked(x) && Tied(x) }

  /** All data blocks but gone are still there. */
  ghost predicate Keeps(s: Segs, r: Segs, gone: Addr) {
    forall a :: DataBlk(s, a) && a != gone ==> DataBlk(r, a)
  }

  lemma FileKept(s: Segs, r: Segs, f: Pointers, gone: Addr)
    requires FileOk(s, f) && Keeps(s, r, gone) && forall k :: gone.Blk? ==> Ptr(f, k) != gone
    ensures FileOk(r, f)
  {
  }

  lemma FilePointed(s: Segs, r: Segs, f: Pointers, k: O.Key, old_: Addr, new_: Addr)
    requires FileOk(s, f) && SameBlock(old_, Ptr(f, k)) && Keeps(s, r, old_) && DataBlk(r, new_) && !DataBlk(s, new_)
    ensures FileOk(r, f[k := new_])
  {
    var g := f[k := new_];
    forall l ensures Ptr(g, l) == if l == k then new_ else Ptr(f, l) {
    }
  }

  lemma FileDropped(s: Segs, r: Segs, f: Pointers, k: O.Key, b: Addr)
    requires FileOk(s, f) && Keeps(s, r, b) && (InData(s, b) ==> Ptr(f, k) == b)
    ensures FileOk(r, if b.Blk? && Ptr(f, k) == b then f - {k} else f)
  {
    if b.Blk? && Ptr(f, k) == b {
      var g := f - {k};
      forall l ensures Ptr(g, l) == if l == k then NullAddr else Ptr(f, l) {
      }
    } else {
      FileKept(s, r, f, b);
    }
  }

  // ----- what each event does to data blocks and segments -----

  /** Free segments have room for data in the checkpoint's eyes too. */
  lemma FreeClaimable(s: Segs, d: Durable, i: nat)
    requires Core(s, {}) && CkptIs(s, d) && |d.logs| == NR_LOGS && |d.types| == |s.sentries| && SegsTied(s, d)
    requires i < |s.sentries| && i !in s.free.inuse
    ensures ClaimableIn(d, i)
  {
    FreeNotCurrent(s, i, {});
    assert forall t: LogType :: d.logs[t].segno != i;
  }

  lemma AllocateTypes(s: Segs, t: LogType, old_: Addr, p: Pick)
    requires Inv(s) && CanAllocate(s, t, old_, p)
    ensures var r := AllocateBlock(s, t, old_, p);
            && |r.sentries| == |s.sentries| && r.free.inuse == AdvanceOrSwitch(s, t, p).free.inuse
            && (forall i :: 0 <= i < |s.sentries| ==> r.sentries[i].typ == AdvanceOrSwitch(s, t, p).sentries[i].typ)
            && r.sentries[s.logs[t].segno].typ == t
  {
    RefreshElsewhere(AdvanceOrSwitch(s, t, p), old_, NextAddr(s, t));
    assert s.sentries[s.logs[t].segno].typ == t;
  }

  /** Moving a log changes the type of no segment in use from data to node, or back, but
      for a segment it takes from the free ones, which then is of its type. */
  lemma SwitchTypes(s: Segs, t: LogType, p: Pick, i: nat)
    requires Core(s, {}) && p.segno < |s.sentries| && i < |s.sentries| && SsrTypeOk(s, t, p)
    requires Advance(s, t).logs[t].nextBlkoff >= s.geo.blocksPerSeg ==> Legal(Advance(s, t), p)
    ensures var r := AdvanceOrSwitch(s, t, p);
            && |r.sentries| == |s.sentries| && s.free.inuse <= r.free.inuse
            && (i in s.free.inuse ==> (IsDataLog(r.sentries[i].typ) <==> IsDataLog(s.sentries[i].typ)))
            && (i in r.free.inuse && i !in s.free.inuse ==> i == p.segno && r.sentries[i].typ == t)
  {
    if p.Victim? && Advance(s, t).logs[t].nextBlkoff >= s.geo.blocksPerSeg {
      assert Placed(s, p.segno);
    }
  }

  lemma AllocateKeepsData(s: Segs, t: LogType, old_: Addr, p: Pick)
    requires Inv(s) && CanAllocate(s, t, old_, p) && SsrTypeOk(s, t, p)
    ensures var r, a := AllocateBlock(s, t, old_, p), NextAddr(s, t);
            Keeps(s, r, old_) && !DataBlk(s, a) && (IsDataLog(t) ==> DataBlk(r, a))
  {
    var r, a := AllocateBlock(s, t, old_, p), NextAddr(s, t);
    AllocateTypes(s, t, old_, p);
    AllocatedValid(s, t, old_, p, a);
    forall b | DataBlk(s, b) && b != old_ ensures DataBlk(r, b) {
      AllocatedValid(s, t, old_, p, b);
      ValidBlkInuse(s, b, {});
      SwitchTypes(s, t, p, b.segno);
    }
  }

  lemma AllocateTied(s: Segs, t: LogType, old_: Addr, p: Pick, d: Durable)
    requires Inv(s) && CanAllocate(s, t, old_, p) && SsrTypeOk(s, t, p)
    requires CkptIs(s, d) && |d.logs| == NR_LOGS && |d.types| == |s.sentries| && SegsTied(s, d)
    ensures SegsTied(AllocateBlock(s, t, old_, p), d)
  {
    var r := AllocateBlock(s, t, old_, p);
    AllocateTypes(s, t, old_, p);
    SwitchTypes(s, t, p, 0);
    forall i | 0 <= i < |s.sentries| && i in r.free.inuse && IsDataLog(r.sentries[i].typ) ensures ClaimableIn(d, i) {
      SwitchTypes(s, t, p, i);
      if i !in s.free.inuse {
        FreeClaimable(s, d, i);
      }
    }
  }

  lemma ForceKeepsData(s: Segs, t: LogType, segno: nat)
    requires Core(s, {}) && segno < |s.sentries| && segno !in s.free.inuse
    ensures Keeps(s, ForceNewSegment(s, t, segno), NullAddr)
  {
    WarmLog.ForceElsewhere(s, t, segno);
    FreeNotCurrent(s, segno, {});
    var r := ForceNewSegment(s, t, segno);
    forall a | DataBlk(s, a) ensures DataBlk(r, a) {
      assert a.segno != segno;
    }
  }

  lemma ForceTied(s: Segs, t: LogType, segno: nat, d: Durable)
    requires Core(s, {}) && segno < |s.sentries| && segno !in s.free.inuse
    requires CkptIs(s, d) && |d.logs| == NR_LOGS && |d.types| == |s.sentries| && SegsTied(s, d)
    ensures SegsTied(ForceNewSegment(s, t, segno), d)
  {
    WarmLog.ForceElsewhere(s, t, segno);
    FreeClaimable(s, d, segno);
  }

  lemma DropKeepsData(s: Segs, b: Addr)
    requires s.Shape() && s.InMain(b) && !b.NullAddr?
    ensures Keeps(s, Invalidate(s, b), b)
  {
    InvalidateElsewhere(s, b);
  }

  lemma DropTied(s: Segs, b: Addr, d: Durable)
    requires s.Shape() && s.InMain(b) && !b.NullAddr? && |d.logs| == NR_LOGS && SegsTied(s, d)
    ensures SegsTied(Invalidate(s, b), d)
  {
    InvalidateElsewhere(s, b);
  }

  lemma RecoverKeepsData(s: Segs, old_: Addr, new_: Addr)
    requires RecoveryInv(s) && CanRecover(s, old_, new_)
    ensures var r := RecoverData(s, old_, new_);
            Keeps(s, r, old_) && !DataBlk(s, new_) && DataBlk(r, new_)
  {
    O.RecoverDoes(s, old_, new_);
    var r := RecoverData(s, old_, new_);
    forall a | DataBlk(s, a) && a != old_ ensures DataBlk(r, a) {
      assert s.sentries[a.segno].curMap != {};
    }
  }

  lemma RecoverTied(s: Segs, old_: Addr, new_: Addr, d: Durable)
    requires RecoveryInv(s) && CanRecover(s, old_, new_) && |d.logs| == NR_LOGS && SegsTied(s, d) && ClaimableIn(d, new_.segno)
    ensures SegsTied(RecoverData(s, old_, new_), d)
  {
    O.RecoverDoes(s, old_, new_);
    RecoverInuse(s, old_, new_);
  }

  lemma RecoverInuse(s: Segs, old_: Addr, new_: Addr)
    requires s.Shape() && new_.Blk? && s.InMain(new_) && s.InMain(old_)
    ensures s.free.inuse <= RecoverData(s, old_, new_).free.inuse <= s.free.inuse + {new_.segno}
  {
    var t := RecoveryLog(s, old_, new_);
    var s1 := StandOn(s, t, new_);
    assert s.free.inuse <= s1.free.inuse <= s.free.inuse + {new_.segno};
    RefreshElsewhere(s1, old_, new_);
    OnlyFiled(Refresh(s1, old_, new_), s.logs[t].segno);
  }

  // ----- every act keeps the files -----

  lemma WriteFile(x: Life, a: Act)
    requires Good(x) && Allowed(x, a) && a.e.Write?
    ensures Next(x.w, a.e).s.Shape() && FileOk(Next(x.w, a.e).s, FileAfter(x, a)) && SegsTied(Next(x.w, a.e).s, x.w.durable)
  {
    var s, t, old_, p := x.w.s, a.e.t, a.e.old_, a.e.p;
    var r := AllocateBlock(s, t, old_, p);
    AllocateKeepsData(s, t, old_, p);
    AllocateTied(s, t, old_, p, x.w.durable);
    if IsDataLog(t) {
      FilePointed(s, r, x.file, a.key, old_, NextAddr(s, t));
    } else {
      FileKept(s, r, x.file, old_);
    }
  }

  /** What a page of the version points to is tied. */
  ghost predicate PageTied(dev: C.Device, ver: nat, d: Durable, page: C.Page)
    requires |d.logs| == NR_LOGS
  {
    page.ver == ver ==> forall j :: 0 <= j < |page.dests| ==> DestTied(dev, d, page.dests[j])
  }

  lemma WrittenTied(dev: C.Device, ver: nat, d: Durable, b: Addr, page: C.Page)
    requires |d.logs| == NR_LOGS && NodesTied(dev, ver, d) && PageTied(dev, ver, d, page)
    ensures NodesTied(dev.Write(b, page), ver, d)
  {
    var r := dev.Write(b, page);
    forall c, j | !r.Stops(ver, c) && 0 <= j < |r.Read(c).dests| ensures DestTied(r, d, r.Read(c).dests[j]) {
      if c == b {
        assert DestTied(dev, d, page.dests[j]);
      } else {
        assert !dev.Stops(ver, c) && DestTied(dev, d, dev.Read(c).dests[j]);
      }
    }
  }

  /** The page the event writes is tied: a data page is not of the version, and a node
      block points where the files do. */
  lemma PageIsTied(x: Life, a: Act, next: Addr)
    requires Good(x) && Allowed(x, a) && a.e.Write?
    ensures PageTied(x.io.d, x.ver, x.w.durable, WriteOf(x, a.e.t, a.page, next).page)
  {
    if !IsDataLog(a.e.t) {
      forall j | 0 <= j < |a.page.dests| ensures DestTied(x.io.d, x.w.durable, a.page.dests[j]) {
        if a.page.dests[j].Blk? {
          PointerTied(x, O.Key(a.page.ino, a.page.start + j));
        }
      }
    }
  }

  lemma WriteNodes(x: Life, a: Act)
    requires Good(x) && Allowed(x, a) && a.e.Write?
    ensures Next(x.w, a.e).s.Shape() && NodesTied(Step(x, a).io.d, x.ver, x.w.durable)
  {
    StepKeeps(x.w, a.e);
    var next := NextAddr(Next(x.w, a.e).s, a.e.t);
    PageIsTied(x, a, next);
    var ev := WriteOf(x, a.e.t, a.page, next);
    WrittenTied(x.io.d, x.ver, x.w.durable, if a.e.t == WARM_NODE then x.io.next else NextAddr(x.w.s, a.e.t), ev.page);
  }

  lemma PointerTied(x: Life, k: O.Key)
    requires Good(x) && x.w.phase == Running && Ptr(x.file, k).Blk?
    ensures ClaimableIn(x.w.durable, Ptr(x.file, k).segno)
  {
    assert DataBlk(x.w.s, Ptr(x.file, k));
    ValidBlkInuse(x.w.s, Ptr(x.file, k), {});
  }

  ghost predicate AllShow(dev: C.Device, warm: seq<Addr>, was: seq<Pointers>) {
    |was| == |warm| && forall i :: 0 <= i < |was| ==> Shows(dev.Read(warm[i]), was[i])
  }

  /** An event of the writer leaves what the chain shows; its own next block shows what
      there is now. */
  lemma ShownAfter(ver: nat, base: C.Device, start: Addr, io: C.Writer, ev: C.Event, was: seq<Pointers>, f: Pointers)
    requires C.WriterInv(ver, base, start, io) && C.Enabled(ver, io, ev) && AllShow(io.d, io.warm, was)
    requires ev.WarmWrite? ==> Shows(ev.page, f)
    ensures AllShow(C.After(io, ev).d, C.After(io, ev).warm, if ev.WarmWrite? then was + [f] else was)
  {
    var r := C.After(io, ev);
    forall i | 0 <= i < |was| ensures Shows(r.d.Read(r.warm[i]), was[i]) {
      assert io.warm[i] in io.warm && io.warm[i] in io.used;
      assert r.warm[i] == io.warm[i] && r.d.Read(io.warm[i]) == io.d.Read(io.warm[i]);
    }
  }

  lemma WriteShows(x: Life, a: Act)
    requires Linked(x) && ChainShows(x) && Allowed(x, a) && a.e.Write?
    ensures Next(x.w, a.e).s.Shape() && ChainShows(Step(x, a))
  {
    WriteEnabled(x, a);
    var ev := WriteOf(x, a.e.t, a.page, NextAddr(Next(x.w, a.e).s, a.e.t));
    assert a.e.t == WARM_NODE ==> Shows(ev.page, x.file);
    ShownAfter(x.ver, x.base, WalkStart(x.w.durable), x.io, ev, x.was, x.file);
  }

  lemma WriteTied(x: Life, a: Act)
    requires Good(x) && Allowed(x, a) && a.e.Write?
    ensures Tied(Step(x, a))
  {
    StepKeeps(x.w, a.e);
    WriteFile(x, a);
    WriteNodes(x, a);
    WriteShows(x, a);
  }

  /** Discarding ties nothing new. */
  lemma WipedTied(dev: C.Device, ver: nat, d: Durable, lost: set<Addr>)
    requires |d.logs| == NR_LOGS && NodesTied(dev, ver, d)
    ensures NodesTied(Wiped(dev, lost), ver, d)
  {
    var r := Wiped(dev, lost);
    forall b, j | !r.Stops(ver, b) && 0 <= j < |r.Read(b).dests| ensures DestTied(r, d, r.Read(b).dests[j]) {
      WipedReads(dev, lost, b);
      assert !dev.Stops(ver, b) && DestTied(dev, d, dev.Read(b).dests[j]);
    }
  }

  /** The files stay right, and so, outside a checkpoint, do the segments. */
  ghost predicate FileAndSegs(x: Life, a: Act)
    requires x.w.s.Shape() && Allowed(x, a)
  {
    && Next(x.w, a.e).s.Shape() && FileOk(Next(x.w, a.e).s, FileAfter(x, a))
    && (Next(x.w, a.e).phase != Frozen ==> SegsTied(Next(x.w, a.e).s, x.w.durable))
  }

  lemma DropFile(x: Life, a: Act)
    requires Good(x) && Allowed(x, a) && a.e.Drop?
    ensures FileAndSegs(x, a)
  {
    DropKeepsData(x.w.s, a.e.a);
    DropTied(x.w.s, a.e.a, x.w.durable);
    FileDropped(x.w.s, Invalidate(x.w.s, a.e.a), x.file, a.key, a.e.a);
  }

  lemma ForceFile(x: Life, a: Act)
    requires Good(x) && Allowed(x, a) && (a.e.ForceSegment? || a.e.MendLog?)
    ensures FileAndSegs(x, a)
  {
    var t := if a.e.ForceSegment? then a.e.t else NextLog(x.w.phase);
    if a.e.MendLog? {
      assert MendedBelow(x.w.s, NextLog(x.w.phase));
    }
    ForceKeepsData(x.w.s, t, a.e.segno);
    ForceTied(x.w.s, t, a.e.segno, x.w.durable);
    FileKept(x.w.s, ForceNewSegment(x.w.s, t, a.e.segno), x.file, NullAddr);
  }

  lemma RecoverFile(x: Life, a: Act)
    requires Good(x) && Allowed(x, a) && a.e.Recover?
    ensures FileAndSegs(x, a)
  {
    RecoverKeepsData(x.w.s, a.e.old_, a.e.new_);
    RecoverTied(x.w.s, a.e.old_, a.e.new_, x.w.durable);
    FilePointed(x.w.s, RecoverData(x.w.s, a.e.old_, a.e.new_), x.file, a.key, a.e.old_, a.e.new_);
  }

  lemma CheckpointFile(x: Life, a: Act)
    requires Good(x) && Allowed(x, a) && (a.e.Flush? || a.e.DiscardNextDnode? || a.e.Finish?)
    ensures FileAndSegs(x, a)
  {
    var r := Next(x.w, a.e).s;
    if !a.e.Flush? {
      assert r.free == x.w.s.free && r.sentries == x.w.s.sentries;
    }
    SameData(x.w.s, r);
    FileKept(x.w.s, r, x.file, NullAddr);
  }

  lemma SameData(s: Segs, r: Segs)
    requires SameTypes(s, r) && forall i :: 0 <= i < |s.sentries| ==> r.sentries[i].curMap == s.sentries[i].curMap
    ensures Keeps(s, r, NullAddr)
  {
  }

  lemma QuietFile(x: Life, a: Act)
    requires Good(x) && Allowed(x, a) && !a.e.Write? && !a.e.Commit? && !a.e.Crash?
    ensures FileAndSegs(x, a)
  {
    if a.e.Drop? {
      DropFile(x, a);
    } else if a.e.ForceSegment? || a.e.MendLog? {
      ForceFile(x, a);
    } else if a.e.Recover? {
      RecoverFile(x, a);
    } else {
      CheckpointFile(x, a);
    }
  }

  lemma QuietTied(x: Life, a: Act)
    requires Good(x) && Allowed(x, a) && !a.e.Write? && !a.e.Commit? && !a.e.Crash?
    ensures Tied(Step(x, a))
  {
    StepKeeps(x.w, a.e);
    WarmStays(x.w, a.e);
    QuietFile(x, a);
    var lost := Lost(x, a);
    WipedTied(x.io.d, x.ver, x.w.durable, lost);
    WipedTied(x.base, x.ver, x.w.durable, lost);
    QuietShows(x, a);
  }

  lemma QuietShows(x: Life, a: Act)
    requires Good(x) && Allowed(x, a) && !a.e.Write? && !a.e.Commit? && !a.e.Crash?
    ensures ChainShows(Step(x, a))
  {
    var r, lost := Step(x, a), Lost(x, a);
    LostUnused(x, a);
    forall i | 0 <= i < |r.was| ensures Shows(r.io.d.Read(r.io.warm[i]), r.was[i]) {
      assert x.io.warm[i] in x.io.warm && x.io.warm[i] in x.io.used;
      WipedReads(x.io.d, lost, x.io.warm[i]);
    }
  }

  lemma CommitTied(x: Life, a: Act)
    requires Good(x) && Allowed(x, a) && a.e.Commit?
    ensures Tied(Step(x, a))
  {
    StepKeeps(x.w, a.e);
    var r := Step(x, a);
    forall t: LogType ensures r.w.durable.logs[t].segno in r.w.s.free.inuse {
      LeftSegmentUnlisted(ClearPrefree(x.w.s), t, {});
    }
    SnapshotFile(x.w.s, x.file);
    NothingNewer(x.io.d, x.ver, r.w.durable);
  }

  /** What a checkpoint saves of the files is what a mount finds. */
  lemma SnapshotFile(s: Segs, f: Pointers)
    requires s.Shape() && DurableShape(s.geo, Snapshot(s)) && FileOk(s, f)
    ensures FileOk(Mount(s.geo, Snapshot(s)), f)
  {
    FileKept(s, Mount(s.geo, Snapshot(s)), f, NullAddr);
  }

  lemma NothingNewer(dev: C.Device, ver: nat, d: Durable)
    requires UpTo(dev, ver) && |d.logs| == NR_LOGS
    ensures NodesTied(dev, ver + 1, d)
  {
  }

  lemma CrashTied(x: Life, a: Act)
    requires Good(x) && Allowed(x, a) && a.e.Crash?
    ensures Tied(Step(x, a))
  {
    StepKeeps(x.w, a.e);
    CrashPlace(x.w, a.e.rollForward);
    MountTied(x.w.s.geo, x.w.durable);
    CrashNodes(x, a.kept);
  }

  lemma MountTied(g: Geo, d: Durable)
    requires DurableShape(g, d)
    ensures SegsTied(Mount(g, d), d)
  {
    forall t: LogType ensures d.logs[t].segno in Mount(g, d).free.inuse {
      assert IsCurseg(d.logs, d.logs[t].segno);
    }
  }

  lemma CrashNodes(x: Life, kept: set<Addr>)
    requires Good(x)
    ensures NodesTied(C.Crashed(x.base, x.io, kept), x.ver, x.w.durable)
  {
    var r := C.Crashed(x.base, x.io, kept);
    forall b, j | !r.Stops(x.ver, b) && 0 <= j < |r.Read(b).dests| ensures DestTied(r, x.w.durable, r.Read(b).dests[j]) {
      C.CrashedReads(x.base, x.io, kept, b);
      if r.Read(b) == x.io.d.Read(b) {
        assert !x.io.d.Stops(x.ver, b) && DestTied(x.io.d, x.w.durable, x.io.d.Read(b).dests[j]);
      } else {
        assert !x.base.Stops(x.ver, b) && DestTied(x.base, x.w.durable, x.base.Read(b).dests[j]);
      }
    }
  }

  lemma StepGood(x: Life, a: Act)
    requires Good(x) && Allowed(x, a)
    ensures Good(Step(x, a))
  {
    StepLinked(x, a);
    if a.e.Write? {
      WriteTied(x, a);
    } else if a.e.Commit? {
      CommitTied(x, a);
    } else if a.e.Crash? {
      CrashTied(x, a);
    } else {
      QuietTied(x, a);
    }
  }

  // ----- runs -----

  ghost predicate IsLife(x: Life, acts: seq<Act>)
    decreases |acts|
  {
    acts == [] || (x.w.s.Shape() && Allowed(x, acts[0]) && IsLife(Step(x, acts[0]), acts[1..]))
  }

  ghost function Outcome(x: Life, acts: seq<Act>): Life
    requires IsLife(x, acts)
    decreases |acts|
  {
    if acts == [] then x else Outcome(Step(x, acts[0]), acts[1..])
  }

  lemma {:induction false} LifeGood(x: Life, acts: seq<Act>)
    requires Good(x) && IsLife(x, acts)
    ensures Good(Outcome(x, acts))
    decreases |acts|
  {
    if acts != [] {
      StepGood(x, acts[0]);
      LifeGood(Step(x, acts[0]), acts[1..]);
    }
  }

  /** After any run of writes to all six logs, invalidations, switches, discards,
      checkpoints, crashes, mounts and roll-forwards, and then a crash at any point that
      lets any set of blocks reach the device, the walk from the committed checkpoint's
      next free warm-node address comes, in order, to the warm-node blocks written since
      the commit or mount, up to the first that was lost. If no crash came since the
      commit it visits exactly these; otherwise exactly these if and only if the block it
      ends on is not left over from an earlier life, and if it is, the walk goes on there. */
  lemma CrashWalk(x: Life, acts: seq<Act>, kept: set<Addr>)
    requires Good(x) && IsLife(x, acts)
    ensures var r := Outcome(x, acts);
            && |r.w.durable.logs| == NR_LOGS
            && var m, d, start, end := C.KeptPrefix(r.io.warm, kept), C.Crashed(r.base, r.io, kept), WalkStart(r.w.durable), C.FirstLost(r.io, kept);
            && (r.unbroken ==> C.IsChain(d, r.ver, start, r.io.warm[..m]))
            && (C.IsChain(d, r.ver, start, r.io.warm[..m]) <==> r.base.Stops(r.ver, end))
            && forall c :: C.IsChain(d, r.ver, start, c) <==>
                 |c| >= m && c[..m] == r.io.warm[..m] && C.IsChain(d, r.ver, end, c[m..])
  {
    LifeGood(x, acts);
    var r := Outcome(x, acts);
    C.CrashLeavesChain(r.ver, r.base, WalkStart(r.w.durable), r.io, kept);
    if r.unbroken {
      assert r.base.Read(C.FirstLost(r.io, kept)).ver < r.ver;
    }
  }

  /** An act and then a run. */
  lemma LifeLonger(x: Life, a: Act, v: Life, acts: seq<Act>)
    requires x.w.s.Shape() && Allowed(x, a) && v == Step(x, a) && IsLife(v, acts)
    ensures IsLife(x, [a] + acts) && Outcome(x, [a] + acts) == Outcome(v, acts)
  {
    assert ([a] + acts)[1..] == acts;
  }

  /** The walk ends if and only if it repeats no block in as many steps from the first block
      lost as there are blocks, and one; always if no crash came since the commit. */
  ghost predicate WalkEndsIff(r: Life, kept: set<Addr>)
    requires |r.w.durable.logs| == NR_LOGS
  {
    var d, start, end := C.Crashed(r.base, r.io, kept), WalkStart(r.w.durable), C.FirstLost(r.io, kept);
    && (C.Ends(d, r.ver, start) <==> C.NoRepeat(C.Walk(d, r.ver, end, d.segs * d.bps + 1)))
    && (r.unbroken ==> C.Ends(d, r.ver, start))
  }

  /** After any run and a crash. */
  lemma CrashWalkEnds(x: Life, acts: seq<Act>, kept: set<Addr>)
    requires Good(x) && IsLife(x, acts)
    ensures |Outcome(x, acts).w.durable.logs| == NR_LOGS && WalkEndsIff(Outcome(x, acts), kept)
  {
    var r := Outcome(x, acts);
    LifeGood(x, acts);
    LogsThere(r);
    GoodWalkEnds(r, kept);
  }

  lemma LogsThere(r: Life)
    requires Linked(r)
    ensures |r.w.durable.logs| == NR_LOGS
  {
  }

  lemma GoodWalkEnds(r: Life, kept: set<Addr>)
    requires Linked(r) && |r.w.durable.logs| == NR_LOGS
    ensures WalkEndsIff(r, kept)
  {
    C.CrashEnds(r.ver, r.base, WalkStart(r.w.durable), r.io, kept);
    if r.unbroken {
      assert r.base.Read(C.FirstLost(r.io, kept)).ver < r.ver;
    }
  }

  /** After any run and a crash, the mount that is to roll forward finds everything the
      node blocks of the version point to in data segments, or in segments that hold
      nothing and that no log is on. */
  lemma CrashClaimable(x: Life, acts: seq<Act>, kept: set<Addr>)
    requires Good(x) && IsLife(x, acts)
    ensures var r := Outcome(x, acts);
            && DurableShape(r.w.s.geo, r.w.durable)
            && var s := Mount(r.w.s.geo, r.w.durable);
            && RecoveryInv(s) && C.NodesClaimable(C.Crashed(r.base, r.io, kept), r.ver, s)
  {
    LifeGood(x, acts);
    var r := Outcome(x, acts);
    var s, d := Mount(r.w.s.geo, r.w.durable), C.Crashed(r.base, r.io, kept);
    MountEstablishes(r.w.s.geo, r.w.durable);
    CrashNodes(r, kept);
    forall a, j | !d.Stops(r.ver, a) && 0 <= j < |d.Read(a).dests| ensures C.Claimable(s, d.Read(a).dests[j]) {
      assert DestTied(d, r.w.durable, d.Read(a).dests[j]);
    }
  }

  /** A mount of a checkpoint newer than every block on the device starts such a run. */
  lemma FirstLifeGood(g: Geo, d: Durable, dev: C.Device, ver: nat, rollForward: bool, saved: Pointers)
    requires DurableOk(g, d) && d.logs[WARM_NODE].allocType == LFS && FileOk(Mount(g, d), saved)
    requires dev.segs == g.MainSegs() && dev.bps == g.blocksPerSeg && Below(dev, ver)
    ensures Good(FirstLife(g, d, dev, ver, rollForward, saved))
  {
    FirstMountGood(g, d);
    MountTied(g, d);
  }

  function FirstLife(g: Geo, d: Durable, dev: C.Device, ver: nat, rollForward: bool, saved: Pointers): Life
    requires DurableShape(g, d)
  {
    Life(World(Mount(g, d), if rollForward then Recovering else Running, d, {}),
         C.Writer(dev, WalkStart(d), [], {}), dev, ver, true, saved, saved, [])
  }
}
