/** The checkpoint pack of fs/f2fs/checkpoint.c: its blocks, how they are laid
    out, and what a mount reads back from them. */
module CheckpointPack {
  import opened Division

  const CP_PACKS: nat := 2
  const NR_DATA: nat := 3
  const NR_NODE: nat := 3

  datatype Geometry = Geometry(blocksPerSeg: nat, payload: nat, bitsPerBlock: nat, orphansPerBlock: nat) {
    predicate Valid() {
      0 < bitsPerBlock && 0 < orphansPerBlock && CP_PACKS + NR_DATA + NR_NODE + payload <= blocksPerSeg
    }

    /** sbi->max_orphans. */
    function MaxOrphans(): nat
      requires Valid()
    {
      (blocksPerSeg - CP_PACKS - (NR_DATA + NR_NODE) - payload) * orphansPerBlock
    }

    /** __start_cp_addr, relative to the checkpoint area: odd versions go to segment 0. */
    function Start(version: nat): nat { if version % 2 == 1 then 0 else blocksPerSeg }

    /** GET_ORPHAN_BLOCKS. */
    function NumOrphanBlocks(n: nat): nat
      requires Valid()
    {
      (n + orphansPerBlock - 1) / orphansPerBlock
    }
  }

  /** A checkpoint block whose checksum is right. */
  datatype Cp = Cp(
    version: nat, total: nat, startSum: nat,
    orphanFlag: bool, compactFlag: bool, nodeSumFlag: bool,
    natBits: set<nat>, sitBits: set<nat>)

  /** N and S are the NAT and SIT journal values, E the summary entries of a page.
      Junk is any other block, a torn checkpoint block included. */
  datatype Block<N, S, E> =
    | CpBlock(cp: Cp)
    | BitmapPage(bits: set<nat>)
    | OrphanPage(inos: seq<nat>, index: nat, count: nat)
    | SumPage(nats: seq<(nat, N)>, sits: seq<(nat, S)>, entries: E)
    | Junk

  datatype Contents<N, S, E> = Contents(
    version: nat,
    natSecond: set<nat>, sitSecond: set<nat>,
    orphans: seq<nat>,
    nats: seq<(nat, N)>, sits: seq<(nat, S)>,
    dataSums: seq<E>, nodeSums: seq<E>)
  {
    /** What do_checkpoint has at hand: one, two or three data summary pages,
        node summaries or none, no more orphans than were admitted, and a SIT
        bitmap that fits the payload when there is one. */
    predicate Valid(g: Geometry)
      requires g.Valid()
    {
      && 1 <= |dataSums| <= NR_DATA
      && (|nodeSums| == 0 || |nodeSums| == NR_NODE)
      && |orphans| <= g.MaxOrphans()
      && (g.payload > 0 ==> forall i :: i in sitSecond ==> i / g.bitsPerBlock < g.payload)
    }
  }

  // ----- writing -----

  function NumBlocks<N, S, E>(g: Geometry, c: Contents<N, S, E>): nat
    requires g.Valid()
  {
    CP_PACKS + g.payload + |c.dataSums| + g.NumOrphanBlocks(|c.orphans|) + |c.nodeSums|
  }

  function HeadOf<N, S, E>(g: Geometry, c: Contents<N, S, E>): Cp
    requires g.Valid()
  {
    Cp(c.version, NumBlocks(g, c), 1 + g.payload + g.NumOrphanBlocks(|c.orphans|),
       |c.orphans| > 0, |c.dataSums| < NR_DATA, |c.nodeSums| > 0,
       c.natSecond, if g.payload > 0 then {} else c.sitSecond)
  }

  function PageBits(g: Geometry, bits: set<nat>, j: nat): set<nat>
    requires g.Valid()
  {
    set i | i in bits && i / g.bitsPerBlock == j
  }

  function BitmapPages<N, S, E>(g: Geometry, bits: set<nat>, n: nat): (r: seq<Block<N, S, E>>)
    requires g.Valid()
    ensures |r| == n
    ensures forall j :: 0 <= j < n ==> r[j] == BitmapPage(PageBits(g, bits, j))
  {
    if n == 0 then [] else BitmapPages(g, bits, n - 1) + [BitmapPage(PageBits(g, bits, n - 1))]
  }

  /** The orphan blocks from the index-th on. */
  function OrphanPages<N, S, E>(g: Geometry, inos: seq<nat>, index: nat, count: nat): seq<Block<N, S, E>>
    requires g.Valid()
    decreases |inos|
  {
    if inos == [] then []
    else if |inos| <= g.orphansPerBlock then [OrphanPage(inos, index, count)]
    else [OrphanPage(inos[..g.orphansPerBlock], index, count)]
         + OrphanPages(g, inos[g.orphansPerBlock..], index + 1, count)
  }

  function DataPages<N, S, E>(c: Contents<N, S, E>): (r: seq<Block<N, S, E>>)
    requires 1 <= |c.dataSums| <= NR_DATA
    ensures |r| == |c.dataSums|
  {
    if |c.dataSums| == 3 then
      [SumPage(c.nats, [], c.dataSums[0]), SumPage([], [], c.dataSums[1]), SumPage([], c.sits, c.dataSums[2])]
    else if |c.dataSums| == 2 then
      [SumPage(c.nats, c.sits, c.dataSums[0]), SumPage([], [], c.dataSums[1])]
    else
      [SumPage(c.nats, c.sits, c.dataSums[0])]
  }

  function NodePages<N, S, E>(sums: seq<E>): (r: seq<Block<N, S, E>>)
    ensures |r| == |sums| && forall k :: 0 <= k < |sums| ==> r[k] == SumPage([], [], sums[k])
  {
    if sums == [] then [] else [SumPage([], [], sums[0])] + NodePages(sums[1..])
  }

  /** The pack in the order do_checkpoint fills it in. */
  function Pack<N, S, E>(g: Geometry, c: Contents<N, S, E>): seq<Block<N, S, E>>
    requires g.Valid() && c.Valid(g)
  {
    [CpBlock(HeadOf(g, c))]
    + BitmapPages(g, c.sitSecond, g.payload)
    + OrphanPages(g, c.orphans, 1, g.NumOrphanBlocks(|c.orphans|))
    + DataPages(c)
    + NodePages(c.nodeSums)
    + [CpBlock(HeadOf(g, c))]
  }

  // ----- reading -----

  function OrphansIn<N, S, E>(b: seq<Block<N, S, E>>): seq<nat> {
    if b == [] then [] else (if b[0].OrphanPage? then b[0].inos else []) + OrphansIn(b[1..])
  }

  function BitsIn<N, S, E>(b: seq<Block<N, S, E>>): set<nat> {
    if b == [] then {} else (if b[0].BitmapPage? then b[0].bits else {}) + BitsIn(b[1..])
  }

  function EntriesIn<N, S, E>(b: seq<Block<N, S, E>>): seq<E> {
    if b == [] then [] else (if b[0].SumPage? then [b[0].entries] else []) + EntriesIn(b[1..])
  }

  /** sum_blk_addr, relative to the pack. */
  function SumBlkAddr(cp: Cp, base: nat, t: nat): int { cp.total - (base + 1) + t }

  function DataBase(cp: Cp): nat { if cp.nodeSumFlag then NR_DATA + NR_NODE else NR_DATA }

  /** The regions the reader will look at lie inside the pack, one after the other. */
  predicate Readable<N, S, E>(g: Geometry, b: seq<Block<N, S, E>>) {
    && b != [] && b[0].CpBlock?
    && var cp := b[0].cp;
       && cp.total == |b|
       && 1 + g.payload <= cp.startSum
       && cp.startSum < cp.total - 1 - (if cp.nodeSumFlag then NR_NODE else 0)
       && (!cp.compactFlag ==> SumBlkAddr(cp, DataBase(cp), 0) >= 1)
  }

  function NatsOf<N, S, E>(b: Block<N, S, E>): seq<(nat, N)> { if b.SumPage? then b.nats else [] }
  function SitsOf<N, S, E>(b: Block<N, S, E>): seq<(nat, S)> { if b.SumPage? then b.sits else [] }

  /** get_valid_checkpoint's copy of the chosen pack, recover_orphan_inodes and
      restore_curseg_summaries. */
  function ReadPack<N, S, E>(g: Geometry, b: seq<Block<N, S, E>>): Contents<N, S, E>
    requires Readable(g, b)
  {
    var cp := b[0].cp;
    var nodeAt := SumBlkAddr(cp, NR_NODE, 0);
    var dataAt := SumBlkAddr(cp, DataBase(cp), 0);
    Contents(
      cp.version, cp.natBits,
      if g.payload > 0 then BitsIn(b[1..1 + g.payload]) else cp.sitBits,
      if cp.orphanFlag then OrphansIn(b[1 + g.payload..cp.startSum]) else [],
      NatsOf(b[if cp.compactFlag then cp.startSum else dataAt]),
      SitsOf(b[if cp.compactFlag then cp.startSum else dataAt + 2]),
      if cp.compactFlag then EntriesIn(b[cp.startSum..if cp.nodeSumFlag then nodeAt else |b| - 1])
      else EntriesIn(b[dataAt..dataAt + NR_DATA]),
      if cp.nodeSumFlag then EntriesIn(b[nodeAt..nodeAt + NR_NODE]) else [])
  }

  // ----- round trip -----

  lemma {:induction false} OrphanPagesRead<N, S, E>(g: Geometry, inos: seq<nat>, index: nat, count: nat)
    requires g.Valid()
    ensures var r := OrphanPages<N, S, E>(g, inos, index, count);
            && |r| == g.NumOrphanBlocks(|inos|)
            && OrphansIn(r) == inos
            && (forall k :: 0 <= k < |r| ==> r[k].OrphanPage? && r[k].index == index + k && r[k].count == count
                                             && 0 < |r[k].inos| <= g.orphansPerBlock)
    decreases |inos|
  {
    CeilStep(|inos|, g.orphansPerBlock);
    var r := OrphanPages<N, S, E>(g, inos, index, count);
    if |inos| > g.orphansPerBlock {
      OrphanPagesRead<N, S, E>(g, inos[g.orphansPerBlock..], index + 1, count);
      var rest := OrphanPages<N, S, E>(g, inos[g.orphansPerBlock..], index + 1, count);
      assert r[1..] == rest;
      assert inos == inos[..g.orphansPerBlock] + inos[g.orphansPerBlock..];
    } else if inos != [] {
      assert r[1..] == [];
    }
  }

  lemma {:induction false} BitsInPages<N, S, E>(b: seq<Block<N, S, E>>, i: nat)
    ensures i in BitsIn(b) <==> exists j :: 0 <= j < |b| && b[j].BitmapPage? && i in b[j].bits
  {
    if b != [] {
      BitsInPages(b[1..], i);
      if j :| 0 <= j < |b[1..]| && b[1..][j].BitmapPage? && i in b[1..][j].bits {
        assert b[j + 1] == b[1..][j];
      }
      if j :| 0 <= j < |b| && b[j].BitmapPage? && i in b[j].bits {
        assert j > 0 ==> b[1..][j - 1] == b[j];
      }
    }
  }

  lemma PagesHoldBits<N, S, E>(g: Geometry, bits: set<nat>, n: nat)
    requires g.Valid() && forall i :: i in bits ==> i / g.bitsPerBlock < n
    ensures BitsIn(BitmapPages<N, S, E>(g, bits, n)) == bits
  {
    var r := BitmapPages<N, S, E>(g, bits, n);
    forall i: nat ensures i in BitsIn(r) <==> i in bits {
      BitsInPages(r, i);
      if i in bits {
        assert r[i / g.bitsPerBlock].BitmapPage? && i in r[i / g.bitsPerBlock].bits;
      }
    }
  }

  lemma {:induction false} NodePagesRead<N, S, E>(sums: seq<E>)
    ensures EntriesIn(NodePages<N, S, E>(sums)) == sums
  {
    if sums != [] {
      NodePagesRead<N, S, E>(sums[1..]);
      assert NodePages<N, S, E>(sums)[1..] == NodePages<N, S, E>(sums[1..]);
    }
  }

  lemma {:induction false} EntriesAre<N, S, E>(b: seq<Block<N, S, E>>, sums: seq<E>)
    requires |b| == |sums| && forall k :: 0 <= k < |b| ==> b[k].SumPage? && b[k].entries == sums[k]
    ensures EntriesIn(b) == sums
  {
    if b != [] {
      EntriesAre(b[1..], sums[1..]);
    }
  }

  lemma DataPagesRead<N, S, E>(c: Contents<N, S, E>)
    requires 1 <= |c.dataSums| <= NR_DATA
    ensures EntriesIn(DataPages(c)) == c.dataSums
  {
    var r := DataPages(c);
    EntriesAre(r, c.dataSums);
  }

  lemma SixParts<T>(a: seq<T>, b: seq<T>, c: seq<T>, d: seq<T>, e: seq<T>, f: seq<T>)
    ensures var s, i, j, k, l := a + b + c + d + e + f, |a|, |a| + |b|, |a| + |b| + |c|, |a| + |b| + |c| + |d|;
            && s[..i] == a && s[i..j] == b && s[j..k] == c && s[k..l] == d && s[l..l + |e|] == e && s[l + |e|..] == f
  {
    var s := a + b + c + d + e + f;
    assert s == a + (b + (c + (d + (e + f))));
  }

  /** Where each region of a pack lies. */
  lemma PackRegions<N, S, E>(g: Geometry, c: Contents<N, S, E>)
    requires g.Valid() && c.Valid(g)
    ensures var b, cp := Pack(g, c), HeadOf(g, c);
            && |b| == cp.total
            && 1 + g.payload <= cp.startSum && cp.startSum + |c.dataSums| + |c.nodeSums| + 1 == |b|
            && b[0] == CpBlock(cp) && b[|b| - 1] == CpBlock(cp)
            && b[1..1 + g.payload] == BitmapPages<N, S, E>(g, c.sitSecond, g.payload)
            && b[1 + g.payload..cp.startSum] == OrphanPages<N, S, E>(g, c.orphans, 1, g.NumOrphanBlocks(|c.orphans|))
            && b[cp.startSum..cp.startSum + |c.dataSums|] == DataPages(c)
            && b[cp.startSum + |c.dataSums|..|b| - 1] == NodePages<N, S, E>(c.nodeSums)
  {
    var head: Block<N, S, E> := CpBlock(HeadOf(g, c));
    var bits := BitmapPages<N, S, E>(g, c.sitSecond, g.payload);
    var orphans := OrphanPages<N, S, E>(g, c.orphans, 1, g.NumOrphanBlocks(|c.orphans|));
    OrphanPagesRead<N, S, E>(g, c.orphans, 1, g.NumOrphanBlocks(|c.orphans|));
    SixParts([head], bits, orphans, DataPages(c), NodePages<N, S, E>(c.nodeSums), [head]);
  }

  /** With orphans capped, a pack fits its segment. */
  lemma PackFits<N, S, E>(g: Geometry, c: Contents<N, S, E>)
    requires g.Valid() && c.Valid(g)
    ensures 3 <= |Pack(g, c)| <= g.blocksPerSeg
  {
    PackRegions(g, c);
    CeilBound(|c.orphans|, g.orphansPerBlock, g.blocksPerSeg - CP_PACKS - (NR_DATA + NR_NODE) - g.payload);
  }

  /** Only the first and the last block of a pack are checkpoint blocks. */
  lemma CpBlocksOfPack<N, S, E>(g: Geometry, c: Contents<N, S, E>, i: nat)
    requires g.Valid() && c.Valid(g) && 0 < i < |Pack(g, c)| - 1
    ensures !Pack(g, c)[i].CpBlock?
  {
    PackRegions(g, c);
    var b, cp := Pack(g, c), HeadOf(g, c);
    OrphanPagesRead<N, S, E>(g, c.orphans, 1, g.NumOrphanBlocks(|c.orphans|));
    if i < 1 + g.payload {
      assert b[i] == b[1..1 + g.payload][i - 1];
    } else if i < cp.startSum {
      assert b[i] == b[1 + g.payload..cp.startSum][i - 1 - g.payload];
    } else if i < cp.startSum + |c.dataSums| {
      assert b[i] == b[cp.startSum..cp.startSum + |c.dataSums|][i - cp.startSum];
    } else {
      assert b[i] == b[cp.startSum + |c.dataSums|..|b| - 1][i - cp.startSum - |c.dataSums|];
    }
  }

  /** Normal summaries are read from the addresses they were written to. */
  lemma SummaryAddresses<N, S, E>(g: Geometry, c: Contents<N, S, E>)
    requires g.Valid() && c.Valid(g)
    ensures var cp := HeadOf(g, c);
            && (!cp.compactFlag ==> SumBlkAddr(cp, DataBase(cp), 0) == cp.startSum)
            && (cp.nodeSumFlag ==> SumBlkAddr(cp, NR_NODE, 0) == cp.startSum + |c.dataSums|)
  {
  }

  lemma FirstDataPages<N, S, E>(b: seq<Block<N, S, E>>, at: nat, c: Contents<N, S, E>)
    requires 1 <= |c.dataSums| <= NR_DATA && at + |c.dataSums| <= |b| && b[at..at + |c.dataSums|] == DataPages(c)
    ensures b[at] == DataPages(c)[0]
    ensures |c.dataSums| == NR_DATA ==> b[at + 2] == DataPages(c)[2]
  {
    var data := b[at..at + |c.dataSums|];
    assert b[at] == data[0];
    assert |c.dataSums| == NR_DATA ==> b[at + 2] == data[2];
  }

  lemma DataRegionRead<N, S, E>(g: Geometry, c: Contents<N, S, E>)
    requires g.Valid() && c.Valid(g) && Readable(g, Pack(g, c))
    ensures var r := ReadPack(g, Pack(g, c)); r.nats == c.nats && r.sits == c.sits && r.dataSums == c.dataSums
  {
    var b, cp := Pack(g, c), HeadOf(g, c);
    PackRegions(g, c);
    SummaryAddresses(g, c);
    DataPagesRead(c);
    FirstDataPages(b, cp.startSum, c);
  }

  lemma NodeRegionRead<N, S, E>(g: Geometry, c: Contents<N, S, E>)
    requires g.Valid() && c.Valid(g) && Readable(g, Pack(g, c))
    ensures ReadPack(g, Pack(g, c)).nodeSums == c.nodeSums
  {
    PackRegions(g, c);
    SummaryAddresses(g, c);
    NodePagesRead<N, S, E>(c.nodeSums);
  }

  lemma PackReadable<N, S, E>(g: Geometry, c: Contents<N, S, E>)
    requires g.Valid() && c.Valid(g)
    ensures Readable(g, Pack(g, c))
  {
    PackRegions(g, c);
    SummaryAddresses(g, c);
  }

  lemma BitmapRegionRead<N, S, E>(g: Geometry, c: Contents<N, S, E>)
    requires g.Valid() && c.Valid(g) && Readable(g, Pack(g, c))
    ensures ReadPack(g, Pack(g, c)).sitSecond == c.sitSecond
  {
    PackRegions(g, c);
    if g.payload > 0 {
      PagesHoldBits<N, S, E>(g, c.sitSecond, g.payload);
    }
  }

  lemma OrphanRegionRead<N, S, E>(g: Geometry, c: Contents<N, S, E>)
    requires g.Valid() && c.Valid(g) && Readable(g, Pack(g, c))
    ensures ReadPack(g, Pack(g, c)).orphans == c.orphans
  {
    PackRegions(g, c);
    OrphanPagesRead<N, S, E>(g, c.orphans, 1, g.NumOrphanBlocks(|c.orphans|));
  }

  /** A mount reads back exactly what the checkpoint wrote: bitmaps, orphans,
      both journals and every summary, compacted or not. */
  lemma PackRoundTrip<N, S, E>(g: Geometry, c: Contents<N, S, E>)
    requires g.Valid() && c.Valid(g)
    ensures Readable(g, Pack(g, c)) && ReadPack(g, Pack(g, c)) == c
  {
    PackReadable(g, c);
    BitmapRegionRead(g, c);
    OrphanRegionRead(g, c);
    DataRegionRead(g, c);
    NodeRegionRead(g, c);
  }
}
