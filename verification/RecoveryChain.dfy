/** Roll-forward recovery's view of the device (fs/f2fs/recovery.c): the chain of
    warm-node blocks written since the last checkpoint, and the two passes over it. */
module RecoveryChain {
  import opened SegmentState
  import opened Division

  /** A node block. start and dests are the file indices it maps; an xattr block or
      an inode with inline data maps none. */
  datatype Page = Page(
    ver: nat, next: Addr, ino: nat,
    isInode: bool, fsync: bool, dent: bool,
    start: nat, dests: seq<Addr>)

  /** A block never written reads as zeroes. */
  const ZERO_PAGE: Page := Page(0, NullAddr, 0, false, false, false, 0, [])

  /** The main area, segs segments of bps blocks each; an address outside it is a pair
      out of range. */
  datatype Device = Device(segs: nat, bps: nat, blocks: map<Addr, Page>) {
    predicate InMain(a: Addr) { a.Blk? && a.segno < segs && a.off < bps }

    function Read(a: Addr): Page { if a in blocks then blocks[a] else ZERO_PAGE }

    function Write(a: Addr, p: Page): Device { this.(blocks := blocks[a := p]) }

    /** The walk ends at a: outside the main area, or not of the current version. */
    predicate Stops(ver: nat, a: Addr) { !InMain(a) || Read(a).ver != ver }
  }

  /** Where the walk from start stands after following i links of chain. */
  function StepAt(d: Device, start: Addr, chain: seq<Addr>, i: nat): Addr
    requires i <= |chain|
  {
    if i == 0 then start else d.Read(chain[i - 1]).next
  }

  /** Following next_blkaddr from start leads through chain. */
  ghost predicate Linked(d: Device, ver: nat, start: Addr, chain: seq<Addr>) {
    forall i {:trigger StepAt(d, start, chain, i)} ::
      0 <= i < |chain| ==> chain[i] == StepAt(d, start, chain, i) && !d.Stops(ver, chain[i])
  }

  /** Following next_blkaddr from start visits exactly chain and then stops. */
  ghost predicate IsChain(d: Device, ver: nat, start: Addr, chain: seq<Addr>) {
    Linked(d, ver, start, chain) && d.Stops(ver, StepAt(d, start, chain, |chain|))
  }

  // ----- the writing side (allocate_data_block, fill_node_footer_blkaddr) -----

  /** next is NEXT_FREE_BLKADDR of the warm-node log; warm lists what that log has
      written since the checkpoint, used everything written since. */
  datatype Writer = Writer(d: Device, next: Addr, warm: seq<Addr>, used: set<Addr>)

  datatype Event =
    | WarmWrite(page: Page, newNext: Addr)
    | OtherWrite(a: Addr, page: Page)

  /** The warm-node log never returns to a block used since the checkpoint, and no
      other log writes over its blocks or where it is about to write. */
  ghost predicate Enabled(ver: nat, w: Writer, e: Event) {
    match e
    case WarmWrite(page, newNext) =>
      && page.ver == ver && page.next == newNext
      && w.d.InMain(newNext) && newNext !in w.used && newNext != w.next
    case OtherWrite(a, page) => w.d.InMain(a) && a !in w.warm && a != w.next
  }

  function After(w: Writer, e: Event): Writer {
    match e
    case WarmWrite(page, newNext) => Writer(w.d.Write(w.next, page), newNext, w.warm + [w.next], w.used + {w.next})
    case OtherWrite(a, page) => w.(d := w.d.Write(a, page), used := w.used + {a})
  }

  /** Of d0's blocks only used ones have changed; the warm blocks are linked in order. */
  ghost predicate WriterInv(ver: nat, d0: Device, start: Addr, w: Writer) {
    && w.d.segs == d0.segs && w.d.bps == d0.bps && w.d.InMain(w.next) && w.next !in w.used
    && (forall a :: a !in w.used ==> w.d.Read(a) == d0.Read(a))
    && (forall a :: a in w.warm ==> a in w.used)
    && Linked(w.d, ver, start, w.warm)
    && StepAt(w.d, start, w.warm, |w.warm|) == w.next
  }

  lemma LinkedElsewhere(d: Device, ver: nat, start: Addr, chain: seq<Addr>, a: Addr, p: Page)
    requires Linked(d, ver, start, chain) && forall i :: 0 <= i < |chain| ==> chain[i] != a
    ensures Linked(d.Write(a, p), ver, start, chain)
    ensures StepAt(d.Write(a, p), start, chain, |chain|) == StepAt(d, start, chain, |chain|)
  {
    var r := d.Write(a, p);
    forall i {:trigger StepAt(r, start, chain, i)} | 0 <= i <= |chain|
      ensures StepAt(r, start, chain, i) == StepAt(d, start, chain, i)
    {
      assert i > 0 ==> chain[i - 1] != a && r.Read(chain[i - 1]) == d.Read(chain[i - 1]);
    }
    forall i {:trigger StepAt(r, start, chain, i)} | 0 <= i < |chain|
      ensures chain[i] == StepAt(r, start, chain, i) && !r.Stops(ver, chain[i])
    {
      assert StepAt(r, start, chain, i) == StepAt(d, start, chain, i);
      assert chain[i] != a && !d.Stops(ver, chain[i]) && r.Read(chain[i]) == d.Read(chain[i]);
    }
  }

  lemma LinkedMore(d: Device, ver: nat, start: Addr, chain: seq<Addr>, a: Addr)
    requires Linked(d, ver, start, chain) && StepAt(d, start, chain, |chain|) == a && !d.Stops(ver, a)
    ensures Linked(d, ver, start, chain + [a]) && StepAt(d, start, chain + [a], |chain| + 1) == d.Read(a).next
  {
    var r := chain + [a];
    forall i {:trigger StepAt(d, start, r, i)} | 0 <= i < |r|
      ensures r[i] == StepAt(d, start, r, i) && !d.Stops(ver, r[i])
    {
      assert i < |chain| ==> r[i] == StepAt(d, start, chain, i);
      assert i > 0 ==> r[i - 1] == chain[i - 1];
    }
  }

  lemma WriterKeeps(ver: nat, d0: Device, start: Addr, w: Writer, e: Event)
    requires WriterInv(ver, d0, start, w) && Enabled(ver, w, e)
    ensures WriterInv(ver, d0, start, After(w, e))
  {
    match e {
      case OtherWrite(a, page) =>
        LinkedElsewhere(w.d, ver, start, w.warm, a, page);
      case WarmWrite(page, newNext) =>
        LinkedElsewhere(w.d, ver, start, w.warm, w.next, page);
        LinkedMore(w.d.Write(w.next, page), ver, start, w.warm, w.next);
    }
  }

  /** What a crash leaves when only the blocks in kept have reached the device. */
  function Crashed(d0: Device, w: Writer, kept: set<Addr>): Device {
    d0.(blocks := map a | a in d0.blocks.Keys + w.used :: if a in w.used && a in kept then w.d.Read(a) else d0.Read(a))
  }

  lemma CrashedReads(d0: Device, w: Writer, kept: set<Addr>, a: Addr)
    ensures Crashed(d0, w, kept).Read(a) == if a in w.used && a in kept then w.d.Read(a) else d0.Read(a)
  {
  }

  /** How many of the warm blocks, from the first on, have all been kept. */
  function KeptPrefix(warm: seq<Addr>, kept: set<Addr>): (m: nat)
    ensures m <= |warm|
    ensures forall i :: 0 <= i < m ==> warm[i] in kept
    ensures m < |warm| ==> warm[m] !in kept
  {
    if warm == [] || warm[0] !in kept then 0 else 1 + KeptPrefix(warm[1..], kept)
  }

  /** The first block of the chain that did not reach the device, or that is to come. */
  function FirstLost(w: Writer, kept: set<Addr>): Addr {
    var m := KeptPrefix(w.warm, kept);
    if m < |w.warm| then w.warm[m] else w.next
  }

  lemma CrashLinks(ver: nat, d0: Device, start: Addr, w: Writer, kept: set<Addr>)
    requires WriterInv(ver, d0, start, w)
    ensures var m := KeptPrefix(w.warm, kept);
            && Linked(Crashed(d0, w, kept), ver, start, w.warm[..m])
            && StepAt(Crashed(d0, w, kept), start, w.warm[..m], m) == FirstLost(w, kept)
  {
    var d := Crashed(d0, w, kept);
    var m := KeptPrefix(w.warm, kept);
    var chain := w.warm[..m];
    forall i {:trigger StepAt(d, start, chain, i)} | 0 <= i <= m
      ensures StepAt(d, start, chain, i) == StepAt(w.d, start, w.warm, i)
      ensures i < m ==> chain[i] == StepAt(d, start, chain, i) && !d.Stops(ver, chain[i])
    {
      if i > 0 {
        KeptReads(ver, d0, start, w, kept, i - 1);
      }
      if i < m {
        KeptReads(ver, d0, start, w, kept, i);
      }
    }
    assert StepAt(d, start, chain, m) == StepAt(w.d, start, w.warm, m);
    if m < |w.warm| {
      assert w.warm[m] == StepAt(w.d, start, w.warm, m);
    }
  }

  /** A kept block of the chain reads as it was written. */
  lemma KeptReads(ver: nat, d0: Device, start: Addr, w: Writer, kept: set<Addr>, i: nat)
    requires WriterInv(ver, d0, start, w) && i < KeptPrefix(w.warm, kept)
    ensures w.warm[..KeptPrefix(w.warm, kept)][i] == w.warm[i] == StepAt(w.d, start, w.warm, i)
    ensures Crashed(d0, w, kept).Read(w.warm[i]) == w.d.Read(w.warm[i])
    ensures !Crashed(d0, w, kept).Stops(ver, w.warm[i])
  {
    assert w.warm[i] == StepAt(w.d, start, w.warm, i) && !w.d.Stops(ver, w.warm[i]);
    assert w.warm[i] in w.warm && w.warm[i] in w.used && w.warm[i] in kept;
    CrashedReads(d0, w, kept, w.warm[i]);
  }

  /** After a crash the walk from the checkpoint's next free warm-node address comes,
      in order, to the warm-node blocks written since, up to the first that did not
      reach the device. That one holds what it held before, and the walk ends there if
      and only if this is not itself a block of the version; if it is, the walk goes on
      from it. */
  lemma CrashLeavesChain(ver: nat, d0: Device, start: Addr, w: Writer, kept: set<Addr>)
    requires WriterInv(ver, d0, start, w)
    ensures var m, d, end := KeptPrefix(w.warm, kept), Crashed(d0, w, kept), FirstLost(w, kept);
            && (IsChain(d, ver, start, w.warm[..m]) <==> d0.Stops(ver, end))
            && forall c :: IsChain(d, ver, start, c) <==> |c| >= m && c[..m] == w.warm[..m] && IsChain(d, ver, end, c[m..])
  {
    var m, d, end := KeptPrefix(w.warm, kept), Crashed(d0, w, kept), FirstLost(w, kept);
    CrashLinks(ver, d0, start, w, kept);
    CrashedReads(d0, w, kept, end);
    forall c ensures IsChain(d, ver, start, c) <==> |c| >= m && c[..m] == w.warm[..m] && IsChain(d, ver, end, c[m..]) {
      ChainSplits(d, ver, start, w.warm[..m], end, c);
    }
  }

  lemma StepAtTail(d: Device, start: Addr, end: Addr, c: seq<Addr>, m: nat, i: nat)
    requires m <= i <= |c| && StepAt(d, start, c, m) == end
    ensures StepAt(d, end, c[m..], i - m) == StepAt(d, start, c, i)
  {
    assert i > m ==> c[m..][i - m - 1] == c[i - 1];
  }

  lemma StepAtHead(d: Device, start: Addr, c1: seq<Addr>, c2: seq<Addr>, i: nat)
    requires i <= |c1| && i <= |c2| && forall k :: 0 <= k < i ==> c1[k] == c2[k]
    ensures StepAt(d, start, c1, i) == StepAt(d, start, c2, i)
  {
  }

  lemma ChainTail(d: Device, ver: nat, start: Addr, c: seq<Addr>, m: nat, end: Addr)
    requires m <= |c| && IsChain(d, ver, start, c) && StepAt(d, start, c, m) == end
    ensures IsChain(d, ver, end, c[m..])
  {
    var r := c[m..];
    forall i {:trigger StepAt(d, end, r, i)} | 0 <= i < |r|
      ensures r[i] == StepAt(d, end, r, i) && !d.Stops(ver, r[i])
    {
      StepAtTail(d, start, end, c, m, m + i);
      assert r[i] == c[m + i] == StepAt(d, start, c, m + i);
    }
    StepAtTail(d, start, end, c, m, |c|);
  }

  lemma ChainJoins(d: Device, ver: nat, start: Addr, head: seq<Addr>, end: Addr, c: seq<Addr>)
    requires Linked(d, ver, start, head) && StepAt(d, start, head, |head|) == end
    requires |c| >= |head| && c[..|head|] == head && IsChain(d, ver, end, c[|head|..])
    ensures IsChain(d, ver, start, c)
  {
    var m := |head|;
    assert forall k :: 0 <= k < m ==> c[k] == c[..m][k];
    StepAtHead(d, start, head, c, m);
    forall i {:trigger StepAt(d, start, c, i)} | 0 <= i < |c|
      ensures c[i] == StepAt(d, start, c, i) && !d.Stops(ver, c[i])
    {
      if i < m {
        StepAtHead(d, start, head, c, i);
        assert head[i] == StepAt(d, start, head, i);
      } else {
        StepAtTail(d, start, end, c, m, i);
        assert c[m..][i - m] == StepAt(d, end, c[m..], i - m);
      }
    }
    StepAtTail(d, start, end, c, m, |c|);
  }

  /** A walk that starts along head is head and then the walk from where head leads. */
  lemma ChainSplits(d: Device, ver: nat, start: Addr, head: seq<Addr>, end: Addr, c: seq<Addr>)
    requires Linked(d, ver, start, head) && StepAt(d, start, head, |head|) == end
    ensures IsChain(d, ver, start, c) <==> |c| >= |head| && c[..|head|] == head && IsChain(d, ver, end, c[|head|..])
  {
    var m := |head|;
    if IsChain(d, ver, start, c) {
      SamePrefix(d, ver, start, head, c, if |c| < m then |c| else m);
      StepAtHead(d, start, head, c, if |c| < m then |c| else m);
      if |c| < m {
        assert false;
      } else {
        assert c[..m] == head;
        ChainTail(d, ver, start, c, m, end);
      }
    } else if |c| >= m && c[..m] == head && IsChain(d, ver, end, c[m..]) {
      ChainJoins(d, ver, start, head, end, c);
    }
  }

  /** The walk is determined by the device: no other chain fits. */
  lemma ChainUnique(d: Device, ver: nat, start: Addr, c1: seq<Addr>, c2: seq<Addr>)
    requires IsChain(d, ver, start, c1) && IsChain(d, ver, start, c2)
    ensures c1 == c2
  {
    if |c1| <= |c2| {
      ChainExtends(d, ver, start, c1, c2);
    } else {
      ChainExtends(d, ver, start, c2, c1);
    }
  }

  lemma ChainExtends(d: Device, ver: nat, start: Addr, c1: seq<Addr>, c2: seq<Addr>)
    requires IsChain(d, ver, start, c1) && Linked(d, ver, start, c2) && |c1| <= |c2|
    ensures c1 == c2
  {
    SamePrefix(d, ver, start, c1, c2, |c1|);
    assert StepAt(d, start, c1, |c1|) == StepAt(d, start, c2, |c1|);
  }

  lemma {:induction false} SamePrefix(d: Device, ver: nat, start: Addr, c1: seq<Addr>, c2: seq<Addr>, n: nat)
    requires Linked(d, ver, start, c1) && Linked(d, ver, start, c2) && n <= |c1| && n <= |c2|
    ensures forall i :: 0 <= i < n ==> c1[i] == c2[i]
  {
    if n > 0 {
      SamePrefix(d, ver, start, c1, c2, n - 1);
      assert StepAt(d, start, c1, n - 1) == StepAt(d, start, c2, n - 1);
    }
  }

  // ----- whether the walk ends -----

  /** The first n blocks of the walk, or all of them if it ends sooner. */
  function Walk(d: Device, ver: nat, start: Addr, n: nat): (c: seq<Addr>)
    ensures |c| <= n
  {
    if n == 0 then []
    else
      var c := Walk(d, ver, start, n - 1);
      var a := StepAt(d, start, c, |c|);
      if |c| < n - 1 || d.Stops(ver, a) then c else c + [a]
  }

  /** The walk ends. */
  ghost predicate Ends(d: Device, ver: nat, start: Addr) {
    exists c :: IsChain(d, ver, start, c)
  }

  lemma {:induction false} WalkLinked(d: Device, ver: nat, start: Addr, n: nat)
    ensures Linked(d, ver, start, Walk(d, ver, start, n))
    ensures |Walk(d, ver, start, n)| < n ==> IsChain(d, ver, start, Walk(d, ver, start, n))
  {
    if n > 0 {
      WalkLinked(d, ver, start, n - 1);
      var c := Walk(d, ver, start, n - 1);
      var a := StepAt(d, start, c, |c|);
      if |c| == n - 1 && !d.Stops(ver, a) {
        LinkedMore(d, ver, start, c, a);
      }
    }
  }

  /** If it ends it is the chain as far as that goes. */
  lemma {:induction false} ChainIsWalk(d: Device, ver: nat, start: Addr, c: seq<Addr>, n: nat)
    requires IsChain(d, ver, start, c)
    ensures Walk(d, ver, start, n) == c[..if n < |c| then n else |c|]
  {
    if n > 0 {
      ChainIsWalk(d, ver, start, c, n - 1);
      var w := Walk(d, ver, start, n - 1);
      StepAtHead(d, start, w, c, |w|);
      if n <= |c| {
        assert c[n - 1] == StepAt(d, start, c, n - 1);
        assert c[..n] == w + [c[n - 1]];
      }
    }
  }

  /** A duplicate-free list of numbers below n is no longer than n. */
  lemma {:induction false} DistinctBelow(s: seq<nat>, n: nat)
    requires (forall i :: 0 <= i < |s| ==> s[i] < n) && forall i, j :: 0 <= i < j < |s| ==> s[i] != s[j]
    ensures |s| <= n
  {
    if s != [] {
      assert s[0] < n;
      if exists k :: 0 <= k < |s| && s[k] == n - 1 {
        var k :| 0 <= k < |s| && s[k] == n - 1;
        DistinctBelow(s[..k] + s[k + 1..], n - 1);
      } else {
        DistinctBelow(s, n - 1);
      }
    }
  }

  /** Blocks numbered through the main area. */
  function NumberOf(bps: nat, a: Addr): nat
    requires a.Blk?
  {
    a.segno * bps + a.off
  }

  lemma NumbersApart(d: Device, a: Addr, b: Addr)
    requires d.InMain(a) && d.InMain(b)
    ensures NumberOf(d.bps, a) == NumberOf(d.bps, b) ==> a == b
    ensures NumberOf(d.bps, a) < d.segs * d.bps
  {
    DivUnique(NumberOf(d.bps, a), d.bps, a.segno, a.off);
    DivUnique(NumberOf(d.bps, b), d.bps, b.segno, b.off);
    TimesMono(a.segno + 1, d.segs, d.bps);
    assert (a.segno + 1) * d.bps == a.segno * d.bps + d.bps;
  }

  /** A walk comes to no more blocks than there are before it repeats one. */
  lemma NoRepeatShort(d: Device, ver: nat, start: Addr, c: seq<Addr>)
    requires Linked(d, ver, start, c) && NoRepeat(c)
    ensures |c| <= d.segs * d.bps
  {
    forall i | 0 <= i < |c| ensures d.InMain(c[i]) {
      assert c[i] == StepAt(d, start, c, i);
    }
    var s := seq(|c|, (i: nat) requires i < |c| => if d.InMain(c[i]) then NumberOf(d.bps, c[i]) else 0);
    forall i | 0 <= i < |s| ensures s[i] < d.segs * d.bps {
      NumbersApart(d, c[i], c[i]);
    }
    forall i, j | 0 <= i < j < |s| ensures s[i] != s[j] {
      NumbersApart(d, c[i], c[j]);
    }
    DistinctBelow(s, d.segs * d.bps);
  }

  /** The walk ends if and only if it repeats no block in as many steps as there are
      blocks, and one; if and only if it has ended by then. */
  lemma EndsIff(d: Device, ver: nat, start: Addr)
    ensures var w := Walk(d, ver, start, d.segs * d.bps + 1);
            (Ends(d, ver, start) <==> NoRepeat(w)) && (Ends(d, ver, start) <==> |w| <= d.segs * d.bps)
  {
    var n := d.segs * d.bps + 1;
    var w := Walk(d, ver, start, n);
    WalkLinked(d, ver, start, n);
    if c :| IsChain(d, ver, start, c) {
      ChainNoRepeat(d, ver, start, c);
      ChainIsWalk(d, ver, start, c, n);
      NoRepeatShort(d, ver, start, c);
    }
    if NoRepeat(w) {
      NoRepeatShort(d, ver, start, w);
    }
  }

  /** A walk that starts along head ends exactly if it does from where head leads. */
  lemma EndsAfter(d: Device, ver: nat, start: Addr, head: seq<Addr>, end: Addr)
    requires Linked(d, ver, start, head) && StepAt(d, start, head, |head|) == end
    ensures Ends(d, ver, start) <==> Ends(d, ver, end)
  {
    if c :| IsChain(d, ver, start, c) {
      ChainSplits(d, ver, start, head, end, c);
    }
    if c :| IsChain(d, ver, end, c) {
      ChainSplits(d, ver, start, head, end, head + c);
    }
  }

  /** Where the walk stands after n of at most turns steps. */
  lemma WalkGoesOn(d: Device, ver: nat, start: Addr, turns: nat, n: nat)
    requires n <= |Walk(d, ver, start, turns)|
    ensures var w := Walk(d, ver, start, turns);
            if n < |w| then w[n] == StepAt(d, start, w, n) && !d.Stops(ver, w[n])
            else n < turns ==> d.Stops(ver, StepAt(d, start, w, n))
  {
    WalkLinked(d, ver, start, turns);
  }

  /** After a crash the walk ends exactly if it does from the first block lost on. */
  lemma CrashEnds(ver: nat, d0: Device, start: Addr, w: Writer, kept: set<Addr>)
    requires WriterInv(ver, d0, start, w)
    ensures var d, end := Crashed(d0, w, kept), FirstLost(w, kept);
            && (Ends(d, ver, start) <==> Ends(d, ver, end))
            && (Ends(d, ver, start) <==> NoRepeat(Walk(d, ver, end, d.segs * d.bps + 1)))
            && (d0.Stops(ver, end) ==> Ends(d, ver, start))
  {
    var m, d, end := KeptPrefix(w.warm, kept), Crashed(d0, w, kept), FirstLost(w, kept);
    CrashLinks(ver, d0, start, w, kept);
    EndsAfter(d, ver, start, w.warm[..m], end);
    EndsIff(d, ver, end);
    if d0.Stops(ver, end) {
      CrashLeavesChain(ver, d0, start, w, kept);
    }
  }

  // ----- what the pointers of a node block may lead to -----

  /** do_recover_data acts on a destination only if it is a main-area block. */
  predicate Real(g: Geo, dest: Addr) { dest.Blk? && dest.segno < g.MainSegs() && dest.off < g.blocksPerSeg }

  /** Segment i is a data segment, or holds nothing and no log is on it. */
  ghost predicate IsDataSeg(s: Segs, i: nat)
    requires s.Shape() && i < |s.sentries|
  {
    IsDataLog(s.sentries[i].typ) || (s.sentries[i].curMap == {} && !IsCurseg(s.logs, i))
  }

  /** A destination do_recover_data can be given. */
  ghost predicate Claimable(s: Segs, dest: Addr)
    requires s.Shape()
  {
    Real(s.geo, dest) ==> IsDataSeg(s, dest.segno)
  }

  /** All that the node blocks of this version on the device point to is claimable. */
  ghost predicate NodesClaimable(d: Device, ver: nat, s: Segs)
    requires s.Shape()
  {
    forall a, j :: !d.Stops(ver, a) && 0 <= j < |d.Read(a).dests| ==> Claimable(s, d.Read(a).dests[j])
  }

  // ----- pass one: find_fsync_dnodes -----

  /** One fsync_inode_entry. */
  datatype Entry = Entry(ino: nat, blkaddr: Addr, lastInode: Addr, lastDentry: Addr)

  /** The inode list, and the inodes f2fs_iget finds. */
  datatype Found = Found(list: seq<Entry>, known: set<nat>)

  /** get_fsync_inode: the index of ino's entry, or |list|. */
  function Find(list: seq<Entry>, ino: nat): (i: nat)
    ensures i <= |list|
    ensures i < |list| ==> list[i].ino == ino
    ensures forall k :: 0 <= k < i ==> list[k].ino != ino
  {
    if list == [] || list[0].ino == ino then 0 else 1 + Find(list[1..], ino)
  }

  function Marked(e: Entry, p: Page, a: Addr): Entry {
    Entry(e.ino, a, if p.isInode then a else e.lastInode, if p.isInode && p.dent then a else e.lastDentry)
  }

  /** What a fsync-marked page at a does to the list: an unlisted inode is added if
      it can be found, a new one being recovered first when its dentry is marked. */
  function FindStep(f: Found, p: Page, a: Addr): Found {
    if !p.fsync then f
    else
      var i := Find(f.list, p.ino);
      if i < |f.list| then f.(list := f.list[i := Marked(f.list[i], p, a)])
      else
        var known := if p.isInode && p.dent then f.known + {p.ino} else f.known;
        if p.ino in known then Found(f.list + [Marked(Entry(p.ino, NullAddr, NullAddr, NullAddr), p, a)], known) else Found(f.list, known)
  }

  function FindAll(d: Device, chain: seq<Addr>, n: nat, known: set<nat>): Found
    requires n <= |chain|
  {
    if n == 0 then Found([], known) else FindStep(FindAll(d, chain, n - 1, known), d.Read(chain[n - 1]), chain[n - 1])
  }

  /** Page i of the chain is a fsync-marked page of ino. */
  predicate IsFsync(d: Device, chain: seq<Addr>, i: nat, ino: nat)
    requires i < |chain|
  {
    d.Read(chain[i]).fsync && d.Read(chain[i]).ino == ino
  }

  /** Page i lets ino be listed: it is fsync-marked, and ino was known or is
      recovered from this very page. */
  predicate Lists(d: Device, chain: seq<Addr>, i: nat, ino: nat, known: set<nat>)
    requires i < |chain|
  {
    IsFsync(d, chain, i, ino) && (ino in known || (d.Read(chain[i]).isInode && d.Read(chain[i]).dent))
  }

  ghost predicate Listed(d: Device, chain: seq<Addr>, n: nat, ino: nat, known: set<nat>)
    requires n <= |chain|
  {
    exists i :: 0 <= i < n && Lists(d, chain, i, ino, known)
  }

  /** a is the last of the first n pages that is fsync-marked for ino. */
  ghost predicate IsLastFsync(d: Device, chain: seq<Addr>, n: nat, ino: nat, a: Addr)
    requires n <= |chain|
  {
    exists i :: 0 <= i < n && chain[i] == a && IsFsync(d, chain, i, ino)
                && forall k :: i < k < n ==> !IsFsync(d, chain, k, ino)
  }

  ghost predicate Distinct(list: seq<Entry>) {
    forall i, j :: 0 <= i < j < |list| ==> list[i].ino != list[j].ino
  }

  ghost predicate FoundOk(d: Device, chain: seq<Addr>, n: nat, known: set<nat>, f: Found)
    requires n <= |chain|
  {
    && Distinct(f.list)
    && known <= f.known
    && (forall k :: 0 <= k < |f.list| ==> IsLastFsync(d, chain, n, f.list[k].ino, f.list[k].blkaddr))
    && (forall ino: nat :: Find(f.list, ino) < |f.list| <==> Listed(d, chain, n, ino, known))
    && (forall ino: nat :: ino in f.known && ino !in known ==> Listed(d, chain, n, ino, known))
  }

  lemma ListedMore(d: Device, chain: seq<Addr>, n: nat, ino: nat, known: set<nat>)
    requires n < |chain|
    ensures Listed(d, chain, n + 1, ino, known) <==> Listed(d, chain, n, ino, known) || Lists(d, chain, n, ino, known)
  {
  }

  lemma LastFsyncMore(d: Device, chain: seq<Addr>, n: nat, ino: nat, a: Addr)
    requires n < |chain|
    ensures IsFsync(d, chain, n, ino) ==> IsLastFsync(d, chain, n + 1, ino, chain[n])
    ensures !IsFsync(d, chain, n, ino) && IsLastFsync(d, chain, n, ino, a) ==> IsLastFsync(d, chain, n + 1, ino, a)
  {
  }

  lemma FindStepKeeps(d: Device, chain: seq<Addr>, n: nat, known: set<nat>, f: Found)
    requires n < |chain| && FoundOk(d, chain, n, known, f)
    ensures FoundOk(d, chain, n + 1, known, FindStep(f, d.Read(chain[n]), chain[n]))
  {
    var p := d.Read(chain[n]);
    var r := FindStep(f, p, chain[n]);
    forall ino: nat ensures Listed(d, chain, n + 1, ino, known) <==> Listed(d, chain, n, ino, known) || Lists(d, chain, n, ino, known) {
      ListedMore(d, chain, n, ino, known);
    }
    forall k | 0 <= k < |r.list|
      ensures IsLastFsync(d, chain, n + 1, r.list[k].ino, r.list[k].blkaddr)
    {
      LastFsyncMore(d, chain, n, r.list[k].ino, r.list[k].blkaddr);
    }
    FindStepLists(d, chain, n, known, f);
  }

  lemma FindStepLists(d: Device, chain: seq<Addr>, n: nat, known: set<nat>, f: Found)
    requires n < |chain| && FoundOk(d, chain, n, known, f)
    ensures var r := FindStep(f, d.Read(chain[n]), chain[n]);
            forall ino: nat :: Find(r.list, ino) < |r.list| <==> Find(f.list, ino) < |f.list| || Lists(d, chain, n, ino, known)
  {
    var p := d.Read(chain[n]);
    var r := FindStep(f, p, chain[n]);
    forall ino: nat
      ensures Find(r.list, ino) < |r.list| <==> Find(f.list, ino) < |f.list| || Lists(d, chain, n, ino, known)
    {
      var i := Find(f.list, ino);
      assert i < |f.list| ==> r.list[i].ino == ino;
      assert |r.list| > |f.list| ==> r.list[|f.list|].ino == p.ino;
      var j := Find(r.list, ino);
      assert j < |f.list| ==> f.list[j].ino == ino;
    }
  }

  lemma NothingFound(d: Device, chain: seq<Addr>, known: set<nat>)
    ensures FoundOk(d, chain, 0, known, Found([], known))
  {
  }

  /** After pass one the list holds exactly the inodes some page lets it list, each
      once, with the address of its last fsync-marked page. */
  lemma {:induction false} FindAllOk(d: Device, chain: seq<Addr>, n: nat, known: set<nat>)
    requires n <= |chain|
    ensures FoundOk(d, chain, n, known, FindAll(d, chain, n, known))
  {
    if n == 0 {
      NothingFound(d, chain, known);
    } else {
      FindAllOk(d, chain, n - 1, known);
      FindStepKeeps(d, chain, n - 1, known, FindAll(d, chain, n - 1, known));
    }
  }

  // ----- pass two: recover_data -----

  /** list_del of an entry. */
  function WithoutEntry(list: seq<Entry>, i: nat): seq<Entry>
    requires i < |list|
  {
    list[..i] + list[i + 1..]
  }

  /** The list after page a of inode ino has been dealt with. */
  function DrainStep(list: seq<Entry>, ino: nat, a: Addr): seq<Entry> {
    var i := Find(list, ino);
    if i < |list| && list[i].blkaddr == a then WithoutEntry(list, i) else list
  }

  /** The list when the walk has dealt with n pages, */
  function Left(d: Device, chain: seq<Addr>, n: nat, list: seq<Entry>): seq<Entry>
    requires n <= |chain|
  {
    if n == 0 then list else DrainStep(Left(d, chain, n - 1, list), d.Read(chain[n - 1]).ino, chain[n - 1])
  }

  /** and the pages it has replayed: those whose inode was still listed. */
  function Replayed(d: Device, chain: seq<Addr>, n: nat, list: seq<Entry>): seq<nat>
    requires n <= |chain|
  {
    if n == 0 then []
    else
      var l := Left(d, chain, n - 1, list);
      var done := Replayed(d, chain, n - 1, list);
      if Find(l, d.Read(chain[n - 1]).ino) < |l| then done + [n - 1] else done
  }

  /** Page i is to be replayed: its inode is listed, and a fsync-marked page of that
      inode comes at i or later. */
  ghost predicate ToReplay(d: Device, chain: seq<Addr>, i: nat, known: set<nat>)
    requires i < |chain|
  {
    var ino := d.Read(chain[i]).ino;
    Listed(d, chain, |chain|, ino, known) && exists k :: i <= k < |chain| && IsFsync(d, chain, k, ino)
  }

  ghost predicate AllToCome(chain: seq<Addr>, list: seq<Entry>) {
    forall e :: e in list ==> StillToCome(chain, 0, e.blkaddr)
  }

  /** After n pages exactly the entries whose last fsync-marked page is still to come are left. */
  ghost predicate DrainOk(chain: seq<Addr>, n: nat, list: seq<Entry>, l: seq<Entry>) {
    && Distinct(l)
    && (forall k :: 0 <= k < |l| ==> l[k] in list)
    && forall e :: e in list ==> (e in l <==> StillToCome(chain, n, e.blkaddr))
  }

  ghost predicate StillToCome(chain: seq<Addr>, n: nat, a: Addr) {
    exists k :: n <= k < |chain| && chain[k] == a
  }

  ghost predicate NoRepeat(chain: seq<Addr>) {
    forall i, j :: 0 <= i < j < |chain| ==> chain[i] != chain[j]
  }

  /** A walk that ends never comes to a block twice. */
  lemma ChainNoRepeat(d: Device, ver: nat, start: Addr, chain: seq<Addr>)
    requires IsChain(d, ver, start, chain)
    ensures NoRepeat(chain)
  {
    forall i, j | 0 <= i < j < |chain| ensures chain[i] != chain[j] {
      StepsApart(d, ver, start, chain, i, j);
    }
  }

  lemma {:induction false} StepsApart(d: Device, ver: nat, start: Addr, chain: seq<Addr>, i: nat, j: nat)
    requires IsChain(d, ver, start, chain) && i < j < |chain|
    ensures chain[i] != chain[j]
    decreases |chain| - j
  {
    assert chain[i + 1] == StepAt(d, start, chain, i + 1) && !d.Stops(ver, chain[i + 1]);
    if j + 1 < |chain| {
      StepsApart(d, ver, start, chain, i + 1, j + 1);
      assert chain[j + 1] == StepAt(d, start, chain, j + 1);
    }
  }

  lemma FindMember(l: seq<Entry>, e: Entry)
    requires Distinct(l)
    ensures e in l ==> Find(l, e.ino) < |l| && l[Find(l, e.ino)] == e
  {
  }

  lemma WithoutEntryMembers(l: seq<Entry>, i: nat)
    requires Distinct(l) && i < |l|
    ensures Distinct(WithoutEntry(l, i))
    ensures forall e :: e in WithoutEntry(l, i) <==> e in l && e != l[i]
  {
    forall e | e in l && e != l[i] ensures e in WithoutEntry(l, i) {
      var k :| 0 <= k < |l| && l[k] == e;
      assert WithoutEntry(l, i)[if k < i then k else k - 1] == e;
    }
  }

  /** The page at an entry's address belongs to that entry's inode. */
  ghost predicate Addressed(d: Device, list: seq<Entry>) {
    forall e :: e in list ==> d.Read(e.blkaddr).ino == e.ino
  }

  lemma DrainKeeps(d: Device, chain: seq<Addr>, n: nat, list: seq<Entry>, l: seq<Entry>)
    requires n < |chain| && NoRepeat(chain) && Addressed(d, list) && DrainOk(chain, n, list, l)
    ensures DrainOk(chain, n + 1, list, DrainStep(l, d.Read(chain[n]).ino, chain[n]))
  {
    var ino := d.Read(chain[n]).ino;
    var i := Find(l, ino);
    var r := DrainStep(l, ino, chain[n]);
    if i < |l| && l[i].blkaddr == chain[n] {
      WithoutEntryMembers(l, i);
    }
    forall e | e in list ensures e in r <==> StillToCome(chain, n + 1, e.blkaddr) {
      FindMember(l, e);
      assert StillToCome(chain, n, e.blkaddr) <==> StillToCome(chain, n + 1, e.blkaddr) || chain[n] == e.blkaddr;
    }
    forall k | 0 <= k < |r| ensures r[k] in list {
      assert r[k] in r;
    }
  }

  lemma DrainStarts(chain: seq<Addr>, list: seq<Entry>)
    requires Distinct(list) && AllToCome(chain, list)
    ensures DrainOk(chain, 0, list, list)
  {
  }

  lemma DrainMore(d: Device, chain: seq<Addr>, n: nat, list: seq<Entry>)
    requires n < |chain| && NoRepeat(chain) && Addressed(d, list) && DrainOk(chain, n, list, Left(d, chain, n, list))
    ensures DrainOk(chain, n + 1, list, Left(d, chain, n + 1, list))
  {
    DrainKeeps(d, chain, n, list, Left(d, chain, n, list));
  }

  lemma {:induction false} DrainAllOk(d: Device, chain: seq<Addr>, n: nat, list: seq<Entry>)
    requires n <= |chain| && NoRepeat(chain) && Addressed(d, list) && Distinct(list)
    requires AllToCome(chain, list)
    ensures DrainOk(chain, n, list, Left(d, chain, n, list))
  {
    if n == 0 {
      DrainStarts(chain, list);
    } else {
      DrainAllOk(d, chain, n - 1, list);
      DrainMore(d, chain, n - 1, list);
    }
  }

  /** The entry of ino is still on the list after i pages exactly when page i, if it
      is one of ino's, has to be replayed. */
  lemma StillListed(d: Device, chain: seq<Addr>, i: nat, ino: nat, known: set<nat>, list: seq<Entry>, l: seq<Entry>)
    requires i <= |chain| && NoRepeat(chain) && DrainOk(chain, i, list, l)
    requires exists m :: FoundOk(d, chain, |chain|, known, Found(list, m))
    ensures Find(l, ino) < |l| <==>
              Listed(d, chain, |chain|, ino, known) && exists k :: i <= k < |chain| && IsFsync(d, chain, k, ino)
  {
    var m :| FoundOk(d, chain, |chain|, known, Found(list, m));
    var at := Find(list, ino);
    if at < |list| {
      var e := list[at];
      FindMember(l, e);
      assert IsLastFsync(d, chain, |chain|, ino, e.blkaddr);
      var last :| 0 <= last < |chain| && chain[last] == e.blkaddr && IsFsync(d, chain, last, ino)
                  && forall k :: last < k < |chain| ==> !IsFsync(d, chain, k, ino);
      assert StillToCome(chain, i, e.blkaddr) <==> i <= last;
      assert e in list;
      if Find(l, ino) < |l| {
        var x := l[Find(l, ino)];
        assert x in list && x.ino == ino;
        FindMember(list, x);
      }
    } else {
      forall k | 0 <= k < |l| ensures l[k].ino != ino {
        assert l[k] in list;
        FindMember(list, l[k]);
      }
    }
  }

  lemma ListFacts(d: Device, chain: seq<Addr>, known: set<nat>, f: Found)
    requires FoundOk(d, chain, |chain|, known, f)
    ensures Addressed(d, f.list) && AllToCome(chain, f.list)
  {
    forall e | e in f.list ensures d.Read(e.blkaddr).ino == e.ino && StillToCome(chain, 0, e.blkaddr) {
      var k :| 0 <= k < |f.list| && f.list[k] == e;
      assert IsLastFsync(d, chain, |chain|, f.list[k].ino, f.list[k].blkaddr);
    }
  }

  lemma StillListedAt(d: Device, chain: seq<Addr>, i: nat, known: set<nat>, f: Found)
    requires i < |chain| && NoRepeat(chain) && FoundOk(d, chain, |chain|, known, f)
    ensures var l := Left(d, chain, i, f.list); Find(l, d.Read(chain[i]).ino) < |l| <==> ToReplay(d, chain, i, known)
  {
    ListFacts(d, chain, known, f);
    DrainAllOk(d, chain, i, f.list);
    StillListed(d, chain, i, d.Read(chain[i]).ino, known, f.list, Left(d, chain, i, f.list));
  }

  ghost predicate Ascending(s: seq<nat>) {
    forall i, j :: 0 <= i < j < |s| ==> s[i] < s[j]
  }

  lemma {:induction false} ReplayedBelow(d: Device, chain: seq<Addr>, n: nat, list: seq<Entry>)
    requires n <= |chain|
    ensures Ascending(Replayed(d, chain, n, list))
    ensures forall j :: 0 <= j < |Replayed(d, chain, n, list)| ==> Replayed(d, chain, n, list)[j] < n
  {
    if n > 0 {
      ReplayedBelow(d, chain, n - 1, list);
    }
  }

  /** done are the first n pages' that are to be replayed. */
  ghost predicate ReplaysBelow(d: Device, chain: seq<Addr>, n: nat, known: set<nat>, done: seq<nat>)
    requires n <= |chain|
  {
    forall i: nat :: i in done <==> i < n && ToReplay(d, chain, i, known)
  }

  lemma ReplaysMore(d: Device, chain: seq<Addr>, n: nat, known: set<nat>, f: Found)
    requires n < |chain| && NoRepeat(chain) && FoundOk(d, chain, |chain|, known, f)
    requires ReplaysBelow(d, chain, n, known, Replayed(d, chain, n, f.list))
    ensures ReplaysBelow(d, chain, n + 1, known, Replayed(d, chain, n + 1, f.list))
  {
    StillListedAt(d, chain, n, known, f);
    var done := Replayed(d, chain, n, f.list);
    assert Replayed(d, chain, n + 1, f.list) == if ToReplay(d, chain, n, known) then done + [n] else done;
  }

  lemma {:induction false} DrainReplays(d: Device, chain: seq<Addr>, n: nat, known: set<nat>, f: Found)
    requires n <= |chain| && NoRepeat(chain) && FoundOk(d, chain, |chain|, known, f)
    ensures ReplaysBelow(d, chain, n, known, Replayed(d, chain, n, f.list))
  {
    if n > 0 {
      DrainReplays(d, chain, n - 1, known, f);
      ReplaysMore(d, chain, n - 1, known, f);
    }
  }

  /** Recovery ends with the inode list empty, having replayed, in chain order, for
      each listed inode exactly its pages up to its last fsync-marked one. */
  lemma TwoPasses(d: Device, ver: nat, start: Addr, chain: seq<Addr>, known: set<nat>)
    requires IsChain(d, ver, start, chain)
    ensures Left(d, chain, |chain|, FindAll(d, chain, |chain|, known).list) == []
    ensures var done := Replayed(d, chain, |chain|, FindAll(d, chain, |chain|, known).list);
            Ascending(done) && forall i: nat :: i in done <==> i < |chain| && ToReplay(d, chain, i, known)
  {
    var f := FindAll(d, chain, |chain|, known);
    ChainNoRepeat(d, ver, start, chain);
    FindAllOk(d, chain, |chain|, known);
    ListFacts(d, chain, known, f);
    DrainAllOk(d, chain, |chain|, f.list);
    DrainReplays(d, chain, |chain|, known, f);
    ReplayedBelow(d, chain, |chain|, f.list);
    DrainedEmpty(chain, f.list, Left(d, chain, |chain|, f.list));
  }

  lemma HasMember(l: seq<Entry>)
    requires l != []
    ensures exists e :: e in l
  {
    assert l[0] in l;
  }

  lemma DrainedEmpty(chain: seq<Addr>, list: seq<Entry>, l: seq<Entry>)
    requires DrainOk(chain, |chain|, list, l)
    ensures l == []
  {
    if l != [] {
      HasMember(l);
    }
  }

  // ----- blocks left over by an earlier crash -----

  /** A walk that runs on into blocks of which none is fsync-marked finds and replays
      what it would have without them. */
  lemma StaleTailHarmless(d: Device, chain: seq<Addr>, m: nat, known: set<nat>)
    requires m <= |chain| && forall k :: m <= k < |chain| ==> !d.Read(chain[k]).fsync
    ensures FindAll(d, chain, |chain|, known) == FindAll(d, chain[..m], m, known)
    ensures forall i: nat :: i < |chain| ==> (ToReplay(d, chain, i, known) <==> i < m && ToReplay(d, chain[..m], i, known))
  {
    FindAllHead(d, chain, m, known, m);
    FindAllTail(d, chain, m, |chain|, known);
    forall i: nat | i < |chain|
      ensures ToReplay(d, chain, i, known) <==> i < m && ToReplay(d, chain[..m], i, known)
    {
      var ino := d.Read(chain[i]).ino;
      assert forall k :: 0 <= k < m ==> (IsFsync(d, chain, k, ino) <==> IsFsync(d, chain[..m], k, ino));
      assert forall k :: 0 <= k < m ==> (Lists(d, chain, k, ino, known) <==> Lists(d, chain[..m], k, ino, known));
      assert forall k :: m <= k < |chain| ==> !IsFsync(d, chain, k, ino) && !Lists(d, chain, k, ino, known);
    }
  }

  lemma {:induction false} FindAllHead(d: Device, chain: seq<Addr>, m: nat, known: set<nat>, n: nat)
    requires n <= m <= |chain|
    ensures FindAll(d, chain, n, known) == FindAll(d, chain[..m], n, known)
  {
    if n > 0 {
      FindAllHead(d, chain, m, known, n - 1);
    }
  }

  lemma {:induction false} FindAllTail(d: Device, chain: seq<Addr>, m: nat, n: nat, known: set<nat>)
    requires m <= n <= |chain| && forall k :: m <= k < |chain| ==> !d.Read(chain[k]).fsync
    ensures FindAll(d, chain, n, known) == FindAll(d, chain, m, known)
    decreases n - m
  {
    if m < n {
      FindAllTail(d, chain, m, n - 1, known);
    }
  }
}
