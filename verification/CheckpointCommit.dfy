/** Which checkpoint pack a mount picks (get_valid_checkpoint, fs/f2fs/checkpoint.c)
    and why a crash while one is being written is harmless. */
module CheckpointCommit {
  import opened Options
  import opened ShadowTable
  import opened CheckpointPack

  /** checkpoint_ver is an unsigned 64-bit counter. */
  const VERSIONS: nat := 0x1_0000_0000_0000_0000

  function Next(v: nat): nat { (v + 1) % VERSIONS }

  /** How many checkpoints before version v version w was written, counting round the clock. */
  function Age(v: nat, w: nat): nat { (v - w) % VERSIONS }

  /** ver_after: the difference, taken as a signed 64-bit number, is positive. */
  predicate VerAfter(a: nat, b: nat) { 0 < (a - b) % VERSIONS < VERSIONS / 2 }

  /** The block at i of the checkpoint area; outside it there is no checkpoint block. */
  function At<N, S, E>(area: seq<Block<N, S, E>>, i: int): Block<N, S, E> {
    if 0 <= i < |area| then area[i] else Junk
  }

  /** validate_checkpoint: both checkpoint blocks of the pack carry the same version. */
  predicate PackValid<N, S, E>(area: seq<Block<N, S, E>>, start: nat) {
    var head := At(area, start);
    head.CpBlock?
    && var foot := At(area, start + head.cp.total - 1);
       foot.CpBlock? && foot.cp.version == head.cp.version
  }

  /** get_valid_checkpoint: where the pack it settles on starts. */
  function Chosen<N, S, E>(g: Geometry, area: seq<Block<N, S, E>>): Option<nat> {
    var cp1, cp2 := PackValid(area, 0), PackValid(area, g.blocksPerSeg);
    if cp1 && cp2 then
      if VerAfter(At(area, g.blocksPerSeg).cp.version, At(area, 0).cp.version) then Some(g.blocksPerSeg) else Some(0)
    else if cp1 then Some(0)
    else if cp2 then Some(g.blocksPerSeg)
    else None
  }

  /** What a mount takes from the checkpoint area. */
  function Mount<N, S, E>(g: Geometry, area: seq<Block<N, S, E>>): Option<Contents<N, S, E>> {
    match Chosen(g, area)
    case None => None
    case Some(start) =>
      var total := At(area, start).cp.total;
      if start + total <= |area| && Readable(g, area[start..start + total])
      then Some(ReadPack(g, area[start..start + total]))
      else None
  }

  // ----- the area between checkpoints -----

  ghost predicate Holds<N, S, E>(area: seq<Block<N, S, E>>, start: nat, b: seq<Block<N, S, E>>) {
    start + |b| <= |area| && forall k :: 0 <= k < |b| ==> area[start + k] == b[k]
  }

  /** A checkpoint block at i when version v is current and nothing left over is
      more than age checkpoints old. The one block that may be newer than v is
      the head that an interrupted checkpoint left behind. */
  ghost predicate StampOk(g: Geometry, cp: Cp, i: nat, v: nat, age: nat) {
    && 2 <= cp.total <= g.blocksPerSeg
    && (g.Start(cp.version) == 0 <==> i < g.blocksPerSeg)
    && (Age(v, cp.version) <= age || (cp.version == Next(v) && i == g.Start(Next(v))))
    && cp.version < VERSIONS
  }

  ghost predicate AreaOk<N, S, E>(g: Geometry, area: seq<Block<N, S, E>>, cur: Contents<N, S, E>, age: nat) {
    && g.Valid() && cur.Valid(g) && cur.version < VERSIONS && age < VERSIONS / 2
    && |area| == 2 * g.blocksPerSeg
    && Holds(area, g.Start(cur.version), Pack(g, cur))
    && forall i :: 0 <= i < |area| && area[i].CpBlock? ==> StampOk(g, area[i].cp, i, cur.version, age)
  }

  lemma HeldLast<N, S, E>(area: seq<Block<N, S, E>>, start: nat, b: seq<Block<N, S, E>>)
    requires Holds(area, start, b) && b != []
    ensures start + |b| <= |area| && area[start + |b| - 1] == b[|b| - 1]
  {
    assert area[start + (|b| - 1)] == b[|b| - 1];
  }

  lemma HeldSlice<N, S, E>(area: seq<Block<N, S, E>>, start: nat, b: seq<Block<N, S, E>>)
    requires Holds(area, start, b)
    ensures start + |b| <= |area| && area[start..start + |b|] == b
  {
  }

  lemma MountAt<N, S, E>(g: Geometry, area: seq<Block<N, S, E>>, start: nat, b: seq<Block<N, S, E>>)
    requires Chosen(g, area) == Some(start) && At(area, start).CpBlock? && At(area, start).cp.total == |b|
    requires start + |b| <= |area| && area[start..start + |b|] == b && Readable(g, b)
    ensures Mount(g, area) == Some(ReadPack(g, b))
  {
  }

  lemma Parity(g: Geometry, v: nat)
    requires g.Valid() && v < VERSIONS
    ensures (g.Start(Next(v)) == 0) != (g.Start(v) == 0)
  {
  }

  lemma Ages(v: nat, w: nat)
    requires v < VERSIONS && w < VERSIONS
    ensures Age(v, w) == 0 <==> v == w
    ensures Age(v, Next(v)) == VERSIONS - 1
    ensures w != Next(v) ==> Age(Next(v), w) == Age(v, w) + 1
    ensures Age(Next(v), Next(v)) == 0
    ensures VerAfter(v, w) <==> 0 < Age(v, w) < VERSIONS / 2
    ensures VerAfter(w, v) <==> Age(v, w) > VERSIONS / 2
  {
  }

  lemma CurrentValid<N, S, E>(g: Geometry, area: seq<Block<N, S, E>>, cur: Contents<N, S, E>, age: nat)
    requires AreaOk(g, area, cur, age)
    ensures var start := g.Start(cur.version);
            PackValid(area, start) && At(area, start).cp == HeadOf(g, cur)
  {
    PackFits(g, cur);
    PackRegions(g, cur);
    var start, b := g.Start(cur.version), Pack(g, cur);
    assert area[start + 0] == b[0];
    assert area[start + (|b| - 1)] == b[|b| - 1];
  }

  /** The other pack, if valid at all, is strictly older. */
  lemma OtherOlder<N, S, E>(g: Geometry, area: seq<Block<N, S, E>>, cur: Contents<N, S, E>, age: nat, start: nat)
    requires AreaOk(g, area, cur, age)
    requires start == 0 || start == g.blocksPerSeg
    requires start != g.Start(cur.version) && PackValid(area, start)
    ensures 0 < Age(cur.version, At(area, start).cp.version) <= age && At(area, start).cp.version < VERSIONS
  {
    var v, head := cur.version, area[start].cp;
    assert StampOk(g, head, start, v, age);
    var foot := start + head.total - 1;
    assert StampOk(g, area[foot].cp, foot, v, age);
    Ages(v, head.version);
    Parity(g, v);
  }

  lemma ChoosesCurrent<N, S, E>(g: Geometry, area: seq<Block<N, S, E>>, cur: Contents<N, S, E>, age: nat)
    requires AreaOk(g, area, cur, age)
    ensures Chosen(g, area) == Some(g.Start(cur.version))
  {
    CurrentValid(g, area, cur, age);
    var start := g.Start(cur.version);
    var other := if start == 0 then g.blocksPerSeg else 0;
    if PackValid(area, other) {
      OtherOlder(g, area, cur, age, other);
      Ages(cur.version, At(area, other).cp.version);
    }
  }

  /** Between checkpoints a mount finds exactly the current one. */
  lemma MountsCurrent<N, S, E>(g: Geometry, area: seq<Block<N, S, E>>, cur: Contents<N, S, E>, age: nat)
    requires AreaOk(g, area, cur, age)
    ensures Mount(g, area) == Some(cur)
  {
    CurrentValid(g, area, cur, age);
    ChoosesCurrent(g, area, cur, age);
    PackRoundTrip(g, cur);
    PackRegions(g, cur);
    HeldSlice(area, g.Start(cur.version), Pack(g, cur));
    MountAt(g, area, g.Start(cur.version), Pack(g, cur));
  }

  // ----- a checkpoint being written -----

  /** The new pack's blocks persist in order: the first p are there; the next one
      may be torn, which leaves no checkpoint block; nothing else has changed. */
  ghost predicate Torn<N, S, E>(g: Geometry, area: seq<Block<N, S, E>>, new_: Contents<N, S, E>, p: nat, d: seq<Block<N, S, E>>)
    requires g.Valid() && new_.Valid(g)
  {
    var start, b := g.Start(new_.version), Pack(g, new_);
    && |d| == |area| && p <= |b|
    && (forall k :: 0 <= k < p && start + k < |d| ==> d[start + k] == b[k])
    && (p < |b| && start + p < |d| ==> d[start + p] == area[start + p] || !d[start + p].CpBlock?)
    && (forall i :: 0 <= i < |d| && !(start <= i < start + p) && !(i == start + p && p < |b|) ==> d[i] == area[i])
  }

  lemma PieceOf<N, S, E>(g: Geometry, area: seq<Block<N, S, E>>, new_: Contents<N, S, E>, p: nat, d: seq<Block<N, S, E>>, i: nat)
    requires g.Valid() && new_.Valid(g) && Torn(g, area, new_, p, d) && i < |d|
    ensures var start, b := g.Start(new_.version), Pack(g, new_);
            if start <= i < start + p then d[i] == b[i - start]
            else d[i] == area[i] || (i == start + p && p < |b| && !d[i].CpBlock?)
  {
    var start := g.Start(new_.version);
    if start <= i < start + p {
      assert d[start + (i - start)] == d[i];
    }
  }

  lemma OldPackUntouched<N, S, E>(g: Geometry, area: seq<Block<N, S, E>>, cur: Contents<N, S, E>, age: nat,
                                  new_: Contents<N, S, E>, p: nat, d: seq<Block<N, S, E>>)
    requires AreaOk(g, area, cur, age) && new_.Valid(g) && new_.version == Next(cur.version) && Torn(g, area, new_, p, d)
    ensures Holds(d, g.Start(cur.version), Pack(g, cur))
  {
    PackFits(g, cur);
    PackFits(g, new_);
    Parity(g, cur.version);
    var start, b := g.Start(cur.version), Pack(g, cur);
    forall k | 0 <= k < |b| ensures d[start + k] == b[k] {
      PieceOf(g, area, new_, p, d, start + k);
    }
  }

  /** Up to its last block a new pack changes nothing a mount would see, however
      often the attempt is cut short. */
  lemma TornKeepsOld<N, S, E>(g: Geometry, area: seq<Block<N, S, E>>, cur: Contents<N, S, E>, age: nat,
                              new_: Contents<N, S, E>, p: nat, d: seq<Block<N, S, E>>)
    requires AreaOk(g, area, cur, age) && new_.Valid(g) && new_.version == Next(cur.version)
    requires Torn(g, area, new_, p, d) && p < |Pack(g, new_)|
    ensures AreaOk(g, d, cur, age)
  {
    OldPackUntouched(g, area, cur, age, new_, p, d);
    PackFits(g, new_);
    PackRegions(g, new_);
    Parity(g, cur.version);
    var start, b := g.Start(new_.version), Pack(g, new_);
    forall i | 0 <= i < |d| && d[i].CpBlock? ensures StampOk(g, d[i].cp, i, cur.version, age) {
      PieceOf(g, area, new_, p, d, i);
      if start < i < start + p {
        CpBlocksOfPack(g, new_, i - start);
      }
    }
  }

  /** The last block commits. */
  lemma WholePackCommits<N, S, E>(g: Geometry, area: seq<Block<N, S, E>>, cur: Contents<N, S, E>, age: nat,
                                  new_: Contents<N, S, E>, d: seq<Block<N, S, E>>)
    requires AreaOk(g, area, cur, age) && new_.Valid(g) && new_.version == Next(cur.version) && age + 1 < VERSIONS / 2
    requires Torn(g, area, new_, |Pack(g, new_)|, d)
    ensures AreaOk(g, d, new_, age + 1)
  {
    var v, start, b := cur.version, g.Start(new_.version), Pack(g, new_);
    PackFits(g, new_);
    PackRegions(g, new_);
    Parity(g, v);
    Parity(g, Next(v));
    Ages(v, Next(v));
    forall i | 0 <= i < |d| && d[i].CpBlock? ensures StampOk(g, d[i].cp, i, Next(v), age + 1) {
      PieceOf(g, area, new_, |b|, d, i);
      if start < i < start + |b| - 1 {
        CpBlocksOfPack(g, new_, i - start);
      }
      if d[i] == area[i] {
        Ages(v, area[i].cp.version);
      }
    }
    assert Holds(d, start, b);
  }

  /** Were the versions to lap, a stale block could complete a torn pack: a pack cut
      short after its head is taken for valid exactly when the block now at its
      last place is a checkpoint block of that same version. */
  lemma TornPackValidIff<N, S, E>(g: Geometry, area: seq<Block<N, S, E>>, new_: Contents<N, S, E>, p: nat, d: seq<Block<N, S, E>>)
    requires g.Valid() && new_.Valid(g) && |area| == 2 * g.blocksPerSeg && Torn(g, area, new_, p, d) && 0 < p < |Pack(g, new_)|
    ensures var start, last := g.Start(new_.version), g.Start(new_.version) + |Pack(g, new_)| - 1;
            last < |d| && (PackValid(d, start) <==> d[last] == area[last] && area[last].CpBlock? && area[last].cp.version == new_.version)
  {
    var start, last := g.Start(new_.version), g.Start(new_.version) + |Pack(g, new_)| - 1;
    PackFits(g, new_);
    PackRegions(g, new_);
    PieceOf(g, area, new_, p, d, start);
    PieceOf(g, area, new_, p, d, last);
  }

  // ----- NAT, SIT and the pack together -----

  datatype Device<N, S, E> = Device(nat_: Disk<N>, sit: Disk<S>, area: seq<Block<N, S, E>>)

  /** The device between checkpoints, with the tables its current checkpoint stands for. */
  datatype Durable<N, S, E> = Durable(
    dev: Device<N, S, E>, natT: Table<N>, sitT: Table<S>, cur: Contents<N, S, E>, age: nat)

  ghost predicate Describes<N, S, E>(c: Contents<N, S, E>, natT: Table<N>, sitT: Table<S>) {
    c.natSecond == natT.second && c.nats == natT.journal && c.sitSecond == sitT.second && c.sits == sitT.journal
  }

  ghost predicate Good<N, S, E>(g: Geometry, w: Durable<N, S, E>) {
    && AreaOk(g, w.dev.area, w.cur, w.age)
    && w.natT.Valid() && w.sitT.Valid() && Describes(w.cur, w.natT, w.sitT)
    && w.dev.nat_ == w.natT.disk && w.dev.sit == w.sitT.disk
  }

  /** One checkpoint attempt: the tables as flushed, the pack meant to describe
      them, and the device as the attempt left it. */
  datatype Attempt<N, S, E> = Attempt(
    natT: Table<N>, sitT: Table<S>, natMoved: set<nat>, sitMoved: set<nat>,
    new_: Contents<N, S, E>, dev: Device<N, S, E>)

  /** Table blocks reach the device in any order, all of them before the pack. */
  ghost predicate Reached<N, S, E>(g: Geometry, w: Durable<N, S, E>, a: Attempt<N, S, E>)
    requires g.Valid() && a.new_.Valid(g)
  {
    || (a.dev.area == w.dev.area && Between(a.dev.nat_, w.dev.nat_, a.natT.disk) && Between(a.dev.sit, w.dev.sit, a.sitT.disk))
    || (a.dev.nat_ == a.natT.disk && a.dev.sit == a.sitT.disk && exists p: nat :: Torn(g, w.dev.area, a.new_, p, a.dev.area))
  }

  ghost predicate AttemptOk<N, S, E>(g: Geometry, w: Durable<N, S, E>, a: Attempt<N, S, E>)
    requires Good(g, w)
  {
    && a.natT.Valid() && a.sitT.Valid()
    && OldCopiesKept(w.natT, a.natT, a.natMoved) && OldCopiesKept(w.sitT, a.sitT, a.sitMoved)
    && a.new_.Valid(g) && a.new_.version == Next(w.cur.version) && Describes(a.new_, a.natT, a.sitT)
    && Reached(g, w, a)
  }

  /** The whole new pack is on the device. */
  ghost predicate Committed<N, S, E>(g: Geometry, a: Attempt<N, S, E>)
    requires g.Valid() && a.new_.Valid(g)
  {
    Holds(a.dev.area, g.Start(a.new_.version), Pack(g, a.new_))
  }

  ghost function After<N, S, E>(g: Geometry, w: Durable<N, S, E>, a: Attempt<N, S, E>): Durable<N, S, E>
    requires g.Valid() && a.new_.Valid(g)
  {
    if Committed(g, a) then Durable(a.dev, a.natT, a.sitT, a.new_, w.age + 1)
    else Durable(a.dev, w.natT.(disk := a.dev.nat_), w.sitT.(disk := a.dev.sit), w.cur, w.age)
  }

  /** Nothing but the whole pack looks like the whole pack. */
  lemma NotYetHeld<N, S, E>(g: Geometry, area: seq<Block<N, S, E>>, cur: Contents<N, S, E>, age: nat, new_: Contents<N, S, E>)
    requires AreaOk(g, area, cur, age) && new_.Valid(g) && new_.version == Next(cur.version)
    ensures !Holds(area, g.Start(new_.version), Pack(g, new_))
  {
    var start, b := g.Start(new_.version), Pack(g, new_);
    PackFits(g, new_);
    PackRegions(g, new_);
    Ages(cur.version, new_.version);
    var last := start + (|b| - 1);
    Parity(g, cur.version);
    assert area[last].CpBlock? ==> StampOk(g, area[last].cp, last, cur.version, age);
    assert area[last] != b[|b| - 1];
    if Holds(area, start, b) {
      HeldLast(area, start, b);
    }
  }

  lemma OldBlocksKept<V>(t0: Table<V>, t1: Table<V>, moved: set<nat>, d: Disk<V>)
    requires t0.Valid() && t1.Valid() && OldCopiesKept(t0, t1, moved) && Between(d, t0.disk, t1.disk)
    ensures t0.(disk := d).Valid()
    ensures forall key :: 0 <= key < t0.nblocks * t0.per ==> t0.(disk := d).Stored(key) == t0.Stored(key)
  {
    forall off: nat, b: bool | off < t0.nblocks
      ensures t0.layout.Addr(off, b) in d && |d[t0.layout.Addr(off, b)]| == t0.per
    {
      assert t0.layout.Addr(off, b) in t0.disk;
      assert t1.layout.Addr(off, b) in t1.disk && |t1.disk[t1.layout.Addr(off, b)]| == t1.per;
    }
    assert t0.HasBlocks(d) && t0.(disk := d).HasBlocks(d);
    forall key | 0 <= key < t0.nblocks * t0.per
      ensures t0.(disk := d).Stored(key) == t0.Stored(key)
    {
      CrashSeesOld(t0, t1, moved, d, key);
    }
  }

  lemma AllBetween<V>(t0: Table<V>, t1: Table<V>, moved: set<nat>)
    requires t0.Valid() && t1.Valid() && OldCopiesKept(t0, t1, moved)
    ensures Between(t1.disk, t0.disk, t1.disk)
  {
  }

  ghost predicate SameStored<V>(t0: Table<V>, t1: Table<V>)
    requires t0.Valid() && t1.Valid()
  {
    && t1.nblocks == t0.nblocks && t1.per == t0.per
    && forall key :: 0 <= key < t0.nblocks * t0.per ==> t1.Stored(key) == t0.Stored(key)
  }

  /** After a crash anywhere in a checkpoint the device stands for the old NAT and
      SIT or for the new ones, both from the same checkpoint. */
  lemma CrashAtomic<N, S, E>(g: Geometry, w: Durable<N, S, E>, a: Attempt<N, S, E>)
    requires Good(g, w) && AttemptOk(g, w, a) && w.age + 1 < VERSIONS / 2
    ensures Good(g, After(g, w, a))
    ensures Mount(g, a.dev.area) == Some(if Committed(g, a) then a.new_ else w.cur)
    ensures !Committed(g, a) ==> SameStored(w.natT, After(g, w, a).natT) && SameStored(w.sitT, After(g, w, a).sitT)
  {
    AllBetween(w.natT, a.natT, a.natMoved);
    AllBetween(w.sitT, a.sitT, a.sitMoved);
    OldBlocksKept(w.natT, a.natT, a.natMoved, a.dev.nat_);
    OldBlocksKept(w.sitT, a.sitT, a.sitMoved, a.dev.sit);
    AreaAfter(g, w, a);
    var r := After(g, w, a);
    MountsCurrent(g, r.dev.area, r.cur, r.age);
  }

  lemma AreaAfter<N, S, E>(g: Geometry, w: Durable<N, S, E>, a: Attempt<N, S, E>)
    requires Good(g, w) && AttemptOk(g, w, a) && w.age + 1 < VERSIONS / 2
    ensures AreaOk(g, a.dev.area, After(g, w, a).cur, After(g, w, a).age)
    ensures Committed(g, a) ==> a.dev.nat_ == a.natT.disk && a.dev.sit == a.sitT.disk
  {
    NotYetHeld(g, w.dev.area, w.cur, w.age, a.new_);
    if a.dev.area != w.dev.area {
      var p: nat :| Torn(g, w.dev.area, a.new_, p, a.dev.area);
      if p < |Pack(g, a.new_)| {
        TornKeepsOld(g, w.dev.area, w.cur, w.age, a.new_, p, a.dev.area);
        NotYetHeld(g, a.dev.area, w.cur, w.age, a.new_);
      } else {
        WholePackCommits(g, w.dev.area, w.cur, w.age, a.new_, a.dev.area);
      }
    }
  }

  // ----- whole runs -----

  /** Attempts one after another, each from where the last one left the device:
      completed checkpoints, and checkpoints cut short by a crash and a mount. */
  ghost predicate IsRun<N, S, E>(g: Geometry, w: Durable<N, S, E>, run: seq<Attempt<N, S, E>>)
    decreases |run|
  {
    run == [] || (Good(g, w) && AttemptOk(g, w, run[0]) && IsRun(g, After(g, w, run[0]), run[1..]))
  }

  /** The tables of the last attempt whose pack is whole, or else the first ones. */
  ghost function LastCommitted<N, S, E>(g: Geometry, w: Durable<N, S, E>, run: seq<Attempt<N, S, E>>): Durable<N, S, E>
    requires IsRun(g, w, run)
    decreases |run|
  {
    if run == [] then w
    else
      var last := LastCommitted(g, After(g, w, run[0]), run[1..]);
      if AnyCommitted(g, w, run) then last else w
  }

  ghost predicate AnyCommitted<N, S, E>(g: Geometry, w: Durable<N, S, E>, run: seq<Attempt<N, S, E>>)
    requires IsRun(g, w, run)
    decreases |run|
  {
    run != [] && (Committed(g, run[0]) || AnyCommitted(g, After(g, w, run[0]), run[1..]))
  }

  ghost function EndOf<N, S, E>(g: Geometry, w: Durable<N, S, E>, run: seq<Attempt<N, S, E>>): Durable<N, S, E>
    requires IsRun(g, w, run)
    decreases |run|
  {
    if run == [] then w else EndOf(g, After(g, w, run[0]), run[1..])
  }

  /** Whatever the crashes, at the end a mount finds the checkpoint committed
      last, and NAT and SIT hold exactly what they held then. */
  lemma {:induction false} RunAtomic<N, S, E>(g: Geometry, w: Durable<N, S, E>, run: seq<Attempt<N, S, E>>)
    requires Good(g, w) && IsRun(g, w, run) && w.age + |run| < VERSIONS / 2
    ensures var end, last := EndOf(g, w, run), LastCommitted(g, w, run);
            && Good(g, end)
            && end.cur == last.cur && Mount(g, end.dev.area) == Some(last.cur)
            && last.natT.Valid() && SameStored(last.natT, end.natT)
            && last.sitT.Valid() && SameStored(last.sitT, end.sitT)
    decreases |run|
  {
    if run == [] {
      MountsCurrent(g, w.dev.area, w.cur, w.age);
    } else {
      CrashAtomic(g, w, run[0]);
      RunAtomic(g, After(g, w, run[0]), run[1..]);
      if !AnyCommitted(g, w, run) {
        NoneCommitted(g, After(g, w, run[0]), run[1..]);
      }
    }
  }

  lemma {:induction false} NoneCommitted<N, S, E>(g: Geometry, w: Durable<N, S, E>, run: seq<Attempt<N, S, E>>)
    requires IsRun(g, w, run) && !AnyCommitted(g, w, run)
    ensures LastCommitted(g, w, run) == w
  {
  }
}
