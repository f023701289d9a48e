/** Two crashes without a checkpoint in between: lives after which the walk of roll-forward
    runs on into blocks of the life before, and one after which it never ends
    (find_fsync_dnodes, fs/f2fs/recovery.c, has no other way out). */
module SecondLives {
  import opened SegmentState
  import opened SegmentInvariant
  import opened SegmentRuns
  import opened ChainRuns
  import C = RecoveryChain
  import O = RecoveryOwnership

  /** Eight segments of one block; each log is on an empty segment of its own. */
  const GEO: Geo := Geo(8, 1, 1)

  function EmptyDisk(): Durable {
    Durable([{}, {}, {}, {}, {}, {}, {}, {}], [0, 1, 2, 3, 4, 5, 0, 0],
            [Curseg(0, 0, LFS), Curseg(1, 0, LFS), Curseg(2, 0, LFS), Curseg(3, 0, LFS), Curseg(4, 0, LFS), Curseg(5, 0, LFS)])
  }

  lemma EmptyOk()
    ensures DurableOk(GEO, EmptyDisk()) && EmptyDisk().logs[WARM_NODE] == Curseg(4, 0, LFS)
  {
    var d := EmptyDisk();
    forall t: LogType ensures d.logs[t] == Curseg(t, 0, LFS) && d.types[t] == t && d.maps[t] == {} {
    }
  }

  lemma EmptyInuse()
    ensures DurableShape(GEO, EmptyDisk())
    ensures forall i: nat :: i in Mount(GEO, EmptyDisk()).free.inuse <==> i < 6
  {
    var d := EmptyDisk();
    EmptyOk();
    forall i: nat ensures i in Mount(GEO, d).free.inuse <==> i < 6 {
      if i < 6 {
        var t: LogType := i;
        assert d.logs[t].segno == i;
      }
    }
  }

  function Start(): Life {
    EmptyOk();
    FirstLife(GEO, EmptyDisk(), C.Device(8, 1, map[]), 1, false, map[])
  }

  /** A node block that maps nothing and that nobody fsynced. */
  const PLAIN: C.Page := C.Page(0, NullAddr, 3, false, false, false, 0, [])

  const NO_KEY: O.Key := O.Key(0, 0)

  /** A running life of this disk in its checkpoint's epoch, whose warm-node log is at
      block next, with the segments of inuse in use. */
  ghost predicate At(x: Life, inuse: set<nat>, next: nat) {
    && Good(x) && x.w.phase == Running && x.w.durable == EmptyDisk() && x.ver == 1
    && x.w.s.geo == GEO && |x.w.s.sentries| == 8 && x.io.d.segs == 8 && x.io.d.bps == 1
    && (forall i: nat :: i in x.w.s.free.inuse <==> i < 6 || i in inuse)
    && x.io.next == Blk(next, 0)
  }

  lemma Starts()
    ensures At(Start(), {}, 4) && Start().io.warm == [] && Start().io.used == {}
  {
    EmptyOk();
    EmptyInuse();
    FirstLifeGood(GEO, EmptyDisk(), C.Device(8, 1, map[]), 1, false, map[]);
  }

  function Turned(x: Life, p: nat): Act { Act(Write(WARM_NODE, NullAddr, FreeSeg(p)), PLAIN, NO_KEY, {}) }

  function Stamped(p: nat): C.Page { PLAIN.(ver := 1, next := Blk(p, 0)) }

  /** acts lead from x to y, whatever comes after. */
  ghost predicate Reaches(x: Life, acts: seq<Act>, y: Life) {
    forall rest :: IsLife(y, rest) ==> IsLife(x, acts + rest) && Outcome(x, acts + rest) == Outcome(y, rest)
  }

  lemma ReachesOne(x: Life, a: Act, y: Life)
    requires x.w.s.Shape() && Allowed(x, a) && y == Step(x, a)
    ensures Reaches(x, [a], y)
  {
    forall rest | IsLife(y, rest) ensures IsLife(x, [a] + rest) && Outcome(x, [a] + rest) == Outcome(y, rest) {
      LifeLonger(x, a, y, rest);
    }
  }

  lemma ReachesOn(x: Life, a: seq<Act>, y: Life, b: seq<Act>, z: Life)
    requires Reaches(x, a, y) && Reaches(y, b, z)
    ensures Reaches(x, a + b, z)
  {
    forall rest | IsLife(z, rest) ensures IsLife(x, a + b + rest) && Outcome(x, a + b + rest) == Outcome(z, rest) {
      assert IsLife(y, b + rest) && Outcome(y, b + rest) == Outcome(z, rest);
      assert a + b + rest == a + (b + rest);
    }
  }

  lemma Reached(x: Life, acts: seq<Act>, y: Life)
    requires Reaches(x, acts, y)
    ensures IsLife(x, acts) && Outcome(x, acts) == y
  {
    assert IsLife(y, []) && Outcome(y, []) == y;
    assert acts + [] == acts;
  }

  function Written(io: C.Writer, next: nat, p: nat): C.Writer {
    C.Writer(io.d.Write(Blk(next, 0), Stamped(p)), Blk(p, 0), io.warm + [Blk(next, 0)], io.used + {Blk(next, 0)})
  }

  lemma TwoWritten(io: C.Writer, p: nat, q: nat)
    requires io.warm == [] && io.used == {} && p != 4
    ensures var r := Written(Written(io, 4, p), p, q);
            && r.warm == [Blk(4, 0), Blk(p, 0)] && r.used == {Blk(4, 0), Blk(p, 0)}
            && r.d.Read(Blk(4, 0)) == Stamped(p) && r.d.Read(Blk(p, 0)) == Stamped(q)
  {
  }

  /** A node block is written to the warm-node log, which goes on in free segment p. */
  lemma Turn(x: Life, inuse: set<nat>, next: nat, p: nat) returns (acts: seq<Act>, y: Life)
    requires At(x, inuse, next) && 6 <= p < 8 && p !in inuse
    ensures Reaches(x, acts, y) && At(y, inuse + {p}, p)
    ensures y.io == Written(x.io, next, p) && y.base == x.base
  {
    var a := Turned(x, p);
    assert Advance(x.w.s, WARM_NODE).logs[WARM_NODE].nextBlkoff >= 1;
    assert Allowed(x, a);
    acts, y := [a], Step(x, a);
    StepGood(x, a);
    TurnPlace(x.w.s, p);
    ReachesOne(x, a, y);
  }

  lemma TurnPlace(s: Segs, p: nat)
    requires Inv(s) && s.geo == GEO && p < |s.sentries|
    ensures var r := AllocateBlock(s, WARM_NODE, NullAddr, FreeSeg(p));
            r.logs[WARM_NODE] == Curseg(p, 0, LFS) && r.free.inuse == s.free.inuse + {p} && |r.sentries| == |s.sentries|
  {
    RefreshElsewhere(AdvanceOrSwitch(s, WARM_NODE, FreeSeg(p)), NullAddr, NextAddr(s, WARM_NODE));
  }

  /** A crash that lets kept reach the device, and a mount with nothing to roll forward. */
  lemma Fall(x: Life, inuse: set<nat>, next: nat, kept: set<Addr>) returns (acts: seq<Act>, y: Life)
    requires At(x, inuse, next)
    ensures Reaches(x, acts, y) && At(y, {}, 4)
    ensures y.io == C.Writer(C.Crashed(x.base, x.io, kept), Blk(4, 0), [], {}) && y.base == y.io.d
  {
    EmptyOk();
    EmptyInuse();
    var a := Act(Crash(false), PLAIN, NO_KEY, kept);
    acts, y := [a], Step(x, a);
    StepGood(x, a);
    ReachesOne(x, a, y);
  }

  /** Two blocks written one after the other, to segments p and q, from a fresh mount. */
  lemma TwoTurns(x: Life, p: nat, q: nat) returns (acts: seq<Act>, y: Life)
    requires At(x, {}, 4) && x.io.warm == [] && x.io.used == {} && 6 <= p < 8 && 6 <= q < 8 && p != q
    ensures Reaches(x, acts, y) && At(y, {6, 7}, q) && y.base == x.base
    ensures y.io.warm == [Blk(4, 0), Blk(p, 0)] && y.io.used == {Blk(4, 0), Blk(p, 0)}
    ensures y.io.d.Read(Blk(4, 0)) == Stamped(p) && y.io.d.Read(Blk(p, 0)) == Stamped(q)
  {
    var first, x1 := Turn(x, {}, 4, p);
    assert {} + {p} == {p};
    var second;
    second, y := Turn(x1, {p}, p, q);
    BothInUse(p, q);
    TwoWritten(x.io, p, q);
    ReachesOn(x, first, x1, second, y);
    acts := first + second;
  }

  lemma BothInUse(p: nat, q: nat)
    requires 6 <= p < 8 && 6 <= q < 8 && p != q
    ensures {p} + {q} == {6, 7}
  {
  }

  /** The first life writes blocks 4 and 6, which reach the device, and not 7. */
  lemma FirstLifeOf() returns (acts: seq<Act>, y: Life)
    ensures Good(Start()) && Reaches(Start(), acts, y) && At(y, {}, 4)
    ensures y.io.warm == [] && y.io.used == {} && y.base == y.io.d
    ensures y.io.d.Read(Blk(6, 0)) == Stamped(7) && y.io.d.Read(Blk(7, 0)) == C.ZERO_PAGE
  {
    Starts();
    var kept := {Blk(4, 0), Blk(6, 0)};
    var up, x2 := TwoTurns(Start(), 6, 7);
    var down;
    down, y := Fall(x2, {6, 7}, 7, kept);
    C.CrashedReads(x2.base, x2.io, kept, Blk(6, 0));
    C.CrashedReads(x2.base, x2.io, kept, Blk(7, 0));
    ReachesOn(Start(), up, x2, down, y);
    acts := up + down;
  }

  /** The second life writes 4 again, which leads to 6 again, and crashes: the walk runs on
      into block 6 of the life before. */
  lemma WalkRunsOn() returns (acts: seq<Act>, kept: set<Addr>)
    ensures Good(Start()) && IsLife(Start(), acts)
    ensures var r := Outcome(Start(), acts);
            && r.w.durable == EmptyDisk() && r.ver == 1 && r.io.warm == [Blk(4, 0)]
            && C.IsChain(C.Crashed(r.base, r.io, kept), r.ver, WalkStart(EmptyDisk()), [Blk(4, 0), Blk(6, 0)])
  {
    var one, x := FirstLifeOf();
    var two, y := Turn(x, {}, 4, 6);
    kept := {Blk(4, 0)};
    ReachesOn(Start(), one, x, two, y);
    acts := one + two;
    Reached(Start(), acts, y);
    var d := C.Crashed(y.base, y.io, kept);
    C.CrashedReads(y.base, y.io, kept, Blk(4, 0));
    C.CrashedReads(y.base, y.io, kept, Blk(6, 0));
    C.CrashedReads(y.base, y.io, kept, Blk(7, 0));
    TwoLinks(d, Blk(4, 0), Blk(6, 0), Blk(7, 0));
  }

  lemma TwoLinks(d: C.Device, a: Addr, b: Addr, c: Addr)
    requires !d.Stops(1, a) && !d.Stops(1, b) && d.Stops(1, c) && d.Read(a).next == b && d.Read(b).next == c
    ensures C.IsChain(d, 1, a, [a, b])
  {
    var ch := [a, b];
    assert C.StepAt(d, a, ch, 0) == a && C.StepAt(d, a, ch, 1) == b && C.StepAt(d, a, ch, 2) == c;
  }

  /** The second life writes 4, which now leads to 7, and 7, which leads to 6, and crashes
      before it writes 6. But 6 still leads to 7: the walk never ends. */
  lemma WalkNeverEnds() returns (acts: seq<Act>, kept: set<Addr>)
    ensures Good(Start()) && IsLife(Start(), acts)
    ensures var r := Outcome(Start(), acts);
            && r.w.durable == EmptyDisk() && r.ver == 1 && r.io.warm == [Blk(4, 0), Blk(7, 0)]
            && C.KeptPrefix(r.io.warm, kept) == 2
            && !C.Ends(C.Crashed(r.base, r.io, kept), r.ver, WalkStart(EmptyDisk()))
  {
    var one, x := FirstLifeOf();
    var two, y := TwoTurns(x, 7, 6);
    kept := {Blk(4, 0), Blk(7, 0)};
    ReachesOn(Start(), one, x, two, y);
    acts := one + two;
    Reached(Start(), acts, y);
    var d := C.Crashed(y.base, y.io, kept);
    C.CrashedReads(y.base, y.io, kept, Blk(4, 0));
    C.CrashedReads(y.base, y.io, kept, Blk(6, 0));
    C.CrashedReads(y.base, y.io, kept, Blk(7, 0));
    BothKept(Blk(4, 0), Blk(7, 0), kept);
    RoundAndRound(d, Blk(4, 0), Blk(7, 0), Blk(6, 0));
  }

  lemma BothKept(a: Addr, b: Addr, kept: set<Addr>)
    requires a in kept && b in kept
    ensures C.KeptPrefix([a, b], kept) == 2
  {
    assert [a, b][1..] == [b] && [b][1..] == [];
  }

  lemma RoundAndRound(d: C.Device, a: Addr, b: Addr, c: Addr)
    requires !d.Stops(1, a) && !d.Stops(1, b) && !d.Stops(1, c)
    requires d.Read(a).next == b && d.Read(b).next == c && d.Read(c).next == b
    ensures !C.Ends(d, 1, a)
  {
    if C.Ends(d, 1, a) {
      var w :| C.IsChain(d, 1, a, w);
      assert |w| > 0 && w[0] == C.StepAt(d, a, w, 0) == a;
      assert |w| > 1 && w[1] == C.StepAt(d, a, w, 1) == b;
      assert |w| > 2 && w[2] == C.StepAt(d, a, w, 2) == c;
      assert |w| > 3 && w[3] == C.StepAt(d, a, w, 3) == b;
      C.ChainNoRepeat(d, 1, a, w);
      assert false;
    }
  }
}
