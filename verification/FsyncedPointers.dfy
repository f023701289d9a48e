/** Fsync from end to end: what a file's indices point to after a crash and roll-forward,
    told by what they pointed to when its node blocks were written. */
module FsyncedPointers {
  import opened SegmentState
  import opened SegmentRuns
  import opened ChainRuns
  import C = RecoveryChain
  import O = RecoveryOwnership

  // ----- which page a replayed write comes from -----

  /** The page maps index k. */
  predicate Slot(p: C.Page, k: O.Key) { p.ino == k.ino && p.start <= k.idx < p.start + |p.dests| }

  function DestOf(p: C.Page, k: O.Key): Addr
    requires Slot(p, k)
  {
    p.dests[k.idx - p.start]
  }

  /** It gives k a main-area block. */
  predicate PageGives(g: Geo, p: C.Page, k: O.Key) { Slot(p, k) && C.Real(g, DestOf(p, k)) }

  function PageAt(d: C.Device, chain: seq<Addr>, done: seq<nat>, q: nat): C.Page
    requires O.Within(done, |chain|) && q < |done|
  {
    d.Read(chain[done[q]])
  }

  /** Where the writes of the q-th replayed page begin. */
  function Offset(d: C.Device, chain: seq<Addr>, done: seq<nat>, q: nat): nat
    requires O.Within(done, |chain|) && q <= |done|
  {
    |O.ReplayWrites(d, chain, done[..q])|
  }

  lemma OffsetNext(d: C.Device, chain: seq<Addr>, done: seq<nat>, q: nat)
    requires O.Within(done, |chain|) && q < |done|
    ensures Offset(d, chain, done, q + 1) == Offset(d, chain, done, q) + |PageAt(d, chain, done, q).dests|
    ensures O.ReplayWrites(d, chain, done[..q + 1]) ==
            O.ReplayWrites(d, chain, done[..q]) + O.PageWrites(PageAt(d, chain, done, q), 0)
  {
    assert done[..q + 1][..q] == done[..q];
    O.PageWritesAt(PageAt(d, chain, done, q), 0);
  }

  lemma {:induction false} OffsetsAscend(d: C.Device, chain: seq<Addr>, done: seq<nat>, q: nat, r: nat)
    requires O.Within(done, |chain|) && q < r <= |done|
    ensures Offset(d, chain, done, q) + |PageAt(d, chain, done, q).dests| <= Offset(d, chain, done, r)
    decreases r
  {
    OffsetNext(d, chain, done, r - 1);
    if q < r - 1 {
      OffsetsAscend(d, chain, done, q, r - 1);
    }
  }

  /** Slot j of the q-th replayed page among all writes. */
  lemma {:induction false} WriteAt(d: C.Device, chain: seq<Addr>, done: seq<nat>, q: nat, j: nat, n: nat)
    requires O.Within(done, |chain|) && q < n <= |done| && j < |PageAt(d, chain, done, q).dests|
    ensures var w, p, i := O.ReplayWrites(d, chain, done[..n]), PageAt(d, chain, done, q), Offset(d, chain, done, q) + j;
            i < |w| && w[i] == (O.Key(p.ino, p.start + j), p.dests[j])
    decreases n
  {
    OffsetNext(d, chain, done, n - 1);
    if q < n - 1 {
      WriteAt(d, chain, done, q, j, n - 1);
    } else {
      O.PageWritesAt(PageAt(d, chain, done, q), 0);
    }
  }

  /** Every write is some slot of some replayed page. */
  lemma {:induction false} Origin(d: C.Device, chain: seq<Addr>, done: seq<nat>, i: nat, n: nat) returns (q: nat, j: nat)
    requires O.Within(done, |chain|) && n <= |done| && i < |O.ReplayWrites(d, chain, done[..n])|
    ensures q < n && j < |PageAt(d, chain, done, q).dests| && i == Offset(d, chain, done, q) + j
    ensures var p := PageAt(d, chain, done, q);
            O.ReplayWrites(d, chain, done[..n])[i] == (O.Key(p.ino, p.start + j), p.dests[j])
    decreases n
  {
    OffsetNext(d, chain, done, n - 1);
    if i < Offset(d, chain, done, n - 1) {
      q, j := Origin(d, chain, done, i, n - 1);
    } else {
      q, j := n - 1, i - Offset(d, chain, done, n - 1);
      O.PageWritesAt(PageAt(d, chain, done, q), 0);
    }
  }

  /** Of the replayed pages the q-th is the last to give k a block. */
  ghost predicate LastToGive(g: Geo, d: C.Device, chain: seq<Addr>, done: seq<nat>, q: nat, k: O.Key)
    requires O.Within(done, |chain|) && q < |done|
  {
    PageGives(g, PageAt(d, chain, done, q), k)
    && forall r :: q < r < |done| ==> !PageGives(g, PageAt(d, chain, done, r), k)
  }

  /** The q-th replayed page or a later one gives block b to another index than k. */
  ghost predicate HandedOn(d: C.Device, chain: seq<Addr>, done: seq<nat>, q: nat, k: O.Key, b: Addr)
    requires O.Within(done, |chain|)
  {
    exists r, l :: q <= r < |done| && l != k && Slot(PageAt(d, chain, done, r), l) && DestOf(PageAt(d, chain, done, r), l) == b
  }

  lemma LastWrite(g: Geo, d: C.Device, chain: seq<Addr>, done: seq<nat>, q: nat, k: O.Key)
    requires O.Within(done, |chain|) && q < |done| && LastToGive(g, d, chain, done, q, k)
    ensures var w, p := O.ReplayWrites(d, chain, done), PageAt(d, chain, done, q);
            var i := Offset(d, chain, done, q) + (k.idx - p.start);
            i < |w| && w[i] == (k, DestOf(p, k)) && O.LastGift(g, w, i, k)
  {
    var w, p := O.ReplayWrites(d, chain, done), PageAt(d, chain, done, q);
    var i := Offset(d, chain, done, q) + (k.idx - p.start);
    assert done[..|done|] == done;
    WriteAt(d, chain, done, q, k.idx - p.start, |done|);
    forall n | i < n < |w| ensures !O.Gives(g, w, n, k) {
      var r, j := Origin(d, chain, done, n, |done|);
      if r < q {
        OffsetsAscend(d, chain, done, r, q);
      } else if q < r && w[n].0 == k {
        assert !PageGives(g, PageAt(d, chain, done, r), k);
      }
    }
  }

  lemma TakenIsHandedOn(g: Geo, d: C.Device, chain: seq<Addr>, done: seq<nat>, q: nat, k: O.Key, b: Addr, i: nat)
    requires O.Within(done, |chain|) && q < |done| && Offset(d, chain, done, q) <= i <= |O.ReplayWrites(d, chain, done)|
    requires O.TakenIn(g, O.ReplayWrites(d, chain, done), i, |O.ReplayWrites(d, chain, done)|, k, b)
    ensures HandedOn(d, chain, done, q, k, b)
  {
    var w := O.ReplayWrites(d, chain, done);
    var n :| i <= n < |w| && O.Takes(g, w, n, k, b);
    assert done[..|done|] == done;
    var r, j := Origin(d, chain, done, n, |done|);
    if r < q {
      OffsetsAscend(d, chain, done, r, q);
    }
    var l := w[n].0;
    assert Slot(PageAt(d, chain, done, r), l) && DestOf(PageAt(d, chain, done, r), l) == b;
  }

  /** Where the intended replay leaves an index: at what the last replayed page that gives
      it a block says, unless that page or a later one hands the block on. */
  lemma ReplayedTo(o: O.Owners, d: C.Device, chain: seq<Addr>, done: seq<nat>, q: nat, k: O.Key)
    requires O.Within(done, |chain|) && q < |done| && o.Owned() && O.AllClaimable(o.s, O.ReplayWrites(d, chain, done))
    requires LastToGive(o.s.geo, d, chain, done, q, k)
    ensures var end, b := O.AssignAll(HOT_DATA, o, O.ReplayWrites(d, chain, done)).Ptr(k), DestOf(PageAt(d, chain, done, q), k);
            end == b || (end == NullAddr && HandedOn(d, chain, done, q, k, b))
  {
    var w, p := O.ReplayWrites(d, chain, done), PageAt(d, chain, done, q);
    var i := Offset(d, chain, done, q) + (k.idx - p.start);
    LastWrite(o.s.geo, d, chain, done, q, k);
    O.LastDestinationWins(o, w, k);
    if O.TakenIn(o.s.geo, w, i + 1, |w|, k, w[i].1) {
      TakenIsHandedOn(o.s.geo, d, chain, done, q, k, w[i].1, i + 1);
    }
  }

  // ----- from a life to its recovery -----

  /** The blocks of the chain that reached the device show what their indices pointed to
      when they were written. */
  lemma KeptShows(r: Life, kept: set<Addr>, i: nat)
    requires Good(r) && i < C.KeptPrefix(r.io.warm, kept)
    ensures i < |r.was| == |r.io.warm| && Shows(C.Crashed(r.base, r.io, kept).Read(r.io.warm[i]), r.was[i])
  {
    C.KeptReads(r.ver, r.base, WalkStart(r.w.durable), r.io, kept, i);
    assert Shows(r.io.d.Read(r.io.warm[i]), r.was[i]);
  }

  /** What roll-forward replays of the walk it finds. */
  function Replays(d: C.Device, chain: seq<Addr>, known: set<nat>): seq<nat> {
    C.Replayed(d, chain, |chain|, C.FindAll(d, chain, |chain|, known).list)
  }

  /** After any run since a commit without a crash, a crash that lets any set of blocks
      reach the device, and the intended replay: of the chain's blocks that reached it,
      exactly those of listed inodes up to each one's last fsync-marked one have been
      replayed; and an index one of these gives a block ends where it pointed when the
      last such block was written, unless that one or a later one handed the block to
      another index. */
  lemma FsyncedPointersRecovered(x: Life, acts: seq<Act>, kept: set<Addr>, known: set<nat>, o: O.Owners, q: nat, k: O.Key)
    requires Good(x) && IsLife(x, acts) && Outcome(x, acts).unbroken && o.Owned()
    requires var r := Outcome(x, acts); DurableShape(r.w.s.geo, r.w.durable) && o.s == Mount(r.w.s.geo, r.w.durable)
    ensures var r := Outcome(x, acts);
            var m, d := C.KeptPrefix(r.io.warm, kept), C.Crashed(r.base, r.io, kept);
            var chain := r.io.warm[..m];
            var done := Replays(d, chain, known);
            && C.IsChain(d, r.ver, WalkStart(r.w.durable), chain) && O.Within(done, m) && m <= |r.was|
            && (forall i: nat :: i in done <==> i < m && C.ToReplay(d, chain, i, known))
            && (q < |done| && LastToGive(o.s.geo, d, chain, done, q, k) ==>
                  var end, b := O.AssignAll(HOT_DATA, o, O.ReplayWrites(d, chain, done)).Ptr(k), Ptr(r.was[done[q]], k);
                  end == b || (end == NullAddr && HandedOn(d, chain, done, q, k, b)))
  {
    LifeGood(x, acts);
    CrashWalk(x, acts, kept);
    CrashClaimable(x, acts, kept);
    PointersRecovered(Outcome(x, acts), kept, known, o, q, k);
  }

  lemma PointersRecovered(r: Life, kept: set<Addr>, known: set<nat>, o: O.Owners, q: nat, k: O.Key)
    requires Good(r) && o.Owned() && |r.w.durable.logs| == NR_LOGS
    requires C.NodesClaimable(C.Crashed(r.base, r.io, kept), r.ver, o.s)
    requires C.IsChain(C.Crashed(r.base, r.io, kept), r.ver, WalkStart(r.w.durable), r.io.warm[..C.KeptPrefix(r.io.warm, kept)])
    ensures var m, d := C.KeptPrefix(r.io.warm, kept), C.Crashed(r.base, r.io, kept);
            var chain := r.io.warm[..m];
            var done := Replays(d, chain, known);
            && O.Within(done, m) && m <= |r.was|
            && (forall i: nat :: i in done <==> i < m && C.ToReplay(d, chain, i, known))
            && (q < |done| && LastToGive(o.s.geo, d, chain, done, q, k) ==>
                  var end, b := O.AssignAll(HOT_DATA, o, O.ReplayWrites(d, chain, done)).Ptr(k), Ptr(r.was[done[q]], k);
                  end == b || (end == NullAddr && HandedOn(d, chain, done, q, k, b)))
  {
    var m, d := C.KeptPrefix(r.io.warm, kept), C.Crashed(r.base, r.io, kept);
    var chain, start := r.io.warm[..m], WalkStart(r.w.durable);
    var done := Replays(d, chain, known);
    C.TwoPasses(d, r.ver, start, chain, known);
    C.ReplayedBelow(d, chain, m, C.FindAll(d, chain, m, known).list);
    assert O.Within(done, m);
    assert |r.was| == |r.io.warm|;
    O.ReplayClaimable(d, r.ver, start, chain, done, o.s);
    if q < |done| && LastToGive(o.s.geo, d, chain, done, q, k) {
      ReplayedTo(o, d, chain, done, q, k);
      KeptShows(r, kept, done[q]);
      ShownDest(PageAt(d, chain, done, q), r.was[done[q]], k);
    }
  }

  lemma ShownDest(p: C.Page, f: Pointers, k: O.Key)
    requires Shows(p, f) && Slot(p, k) && DestOf(p, k).Blk?
    ensures DestOf(p, k) == Ptr(f, k)
  {
    assert SameBlock(p.dests[k.idx - p.start], Ptr(f, O.Key(p.ino, p.start + (k.idx - p.start))));
  }
}
