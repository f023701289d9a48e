/** An on-disk table kept as twin blocks, a version bitmap and a small journal:
    the scheme NAT and SIT share (fs/f2fs/node.h, fs/f2fs/segment.h, fs/f2fs/f2fs.h). */
module ShadowTable {
  import opened Division

  /** Where the two copies of a table block lie. NAT interleaves segments of
      first and second copies; SIT puts all second copies after all first ones. */
  datatype Layout =
    | NatArea(base: nat, blocksPerSeg: nat)
    | SitArea(base: nat, sitBlocks: nat)
  {
    predicate Valid(nblocks: nat) {
      match this
      case NatArea(_, bps) => 0 < bps
      case SitArea(_, n) => 0 < n && nblocks <= n
    }

    /** current_nat_addr / current_sit_addr for block off with the given version bit. */
    function Addr(off: nat, second: bool): nat
      requires Valid(0)
    {
      match this
      case NatArea(b, bps) => b + (off / bps) * bps * 2 + off % bps + (if second then bps else 0)
      case SitArea(b, n) => b + off + (if second then n else 0)
    }

    /** next_nat_addr / next_sit_addr. */
    function Twin(addr: nat): int
      requires Valid(0) && base <= addr
    {
      match this
      case NatArea(b, bps) =>
        var a := addr - b;
        b + (if (a / bps) % 2 != 0 then a - bps else a + bps)
      case SitArea(b, n) =>
        var a := addr - b;
        b + (if a < n then a + n else a - n)
    }
  }

  /** A NAT address determines its block and its copy. */
  lemma NatAddrParts(l: Layout, off: nat, second: bool)
    requires l.NatArea? && l.Valid(0)
    ensures var a := l.Addr(off, second) - l.base;
            && a / l.blocksPerSeg == 2 * (off / l.blocksPerSeg) + (if second then 1 else 0)
            && a % l.blocksPerSeg == off % l.blocksPerSeg
  {
    var bps := l.blocksPerSeg;
    var q := off / bps;
    var k := 2 * q + (if second then 1 else 0);
    var a := l.Addr(off, second) - l.base;
    assert q * bps * 2 == (2 * q) * bps;
    if second {
      assert (2 * q + 1) * bps == (2 * q) * bps + bps;
    }
    assert a == k * bps + off % bps;
    DivUnique(a, bps, k, off % bps);
  }

  /** No two (block, copy) pairs share an address. */
  lemma AddrInjective(l: Layout, nblocks: nat, o1: nat, s1: bool, o2: nat, s2: bool)
    requires l.Valid(nblocks) && o1 < nblocks && o2 < nblocks
    requires l.Addr(o1, s1) == l.Addr(o2, s2)
    ensures o1 == o2 && s1 == s2
  {
    if l.NatArea? {
      NatAddrParts(l, o1, s1);
      NatAddrParts(l, o2, s2);
      var bps := l.blocksPerSeg;
      assert o1 / bps == o2 / bps;
      assert o1 == (o1 / bps) * bps + o1 % bps;
      assert o2 == (o2 / bps) * bps + o2 % bps;
    }
  }

  /** The "next" address of one copy is the other copy of the same block. */
  lemma TwinIsOtherCopy(l: Layout, nblocks: nat, off: nat, second: bool)
    requires l.Valid(nblocks) && off < nblocks
    ensures l.base <= l.Addr(off, second)
    ensures l.Twin(l.Addr(off, second)) == l.Addr(off, !second)
  {
    if l.NatArea? {
      NatAddrParts(l, off, second);
      var bps := l.blocksPerSeg;
      var q := off / bps;
      assert 0 <= q * bps * 2;
    }
  }

  // ----- the table -----

  type Disk<V> = map<nat, seq<V>>

  datatype Table<V> = Table(
    layout: Layout,
    per: nat,
    nblocks: nat,
    cap: nat,
    journal: seq<(nat, V)>,
    second: set<nat>,
    disk: Disk<V>)
  {
    function Current(off: nat): nat requires layout.Valid(nblocks) { layout.Addr(off, off in second) }

    ghost predicate Valid() {
      && 0 < per
      && layout.Valid(nblocks)
      && |journal| <= cap
      && DistinctKeys(journal)
      && (forall k :: 0 <= k < |journal| ==> journal[k].0 < nblocks * per)
      && HasBlocks(disk)
    }

    /** Both copies of every block exist and have the block's size. */
    ghost predicate HasBlocks(d: Disk<V>)
      requires layout.Valid(nblocks)
    {
      forall off: nat, b: bool :: off < nblocks ==> layout.Addr(off, b) in d && |d[layout.Addr(off, b)]| == per
    }

    /** What a mount would read for key: the journal first, else the current block. */
    ghost function Stored(key: nat): V
      requires Valid() && key < nblocks * per
    {
      View(this, disk, second, journal, key)
    }
  }

  ghost predicate DistinctKeys<V>(j: seq<(nat, V)>) {
    forall a, b :: 0 <= a < b < |j| ==> j[a].0 != j[b].0
  }

  /** lookup_journal_in_cursum with alloc off: the entry's index, or |j| when there is none. */
  function Lookup<V>(j: seq<(nat, V)>, key: nat): (i: nat)
    ensures i <= |j|
    ensures i < |j| ==> j[i].0 == key
    ensures forall k :: 0 <= k < i ==> j[k].0 != key
  {
    if j == [] then 0 else if j[0].0 == key then 0 else 1 + Lookup(j[1..], key)
  }

  lemma BlockOf(per: nat, nblocks: nat, key: nat)
    requires 0 < per && key < nblocks * per
    ensures key / per < nblocks && key % per < per
  {
  }

  /** Reading key from a disk image, given a version bitmap and a journal. */
  ghost function View<V>(t: Table<V>, d: Disk<V>, second: set<nat>, j: seq<(nat, V)>, key: nat): V
    requires 0 < t.per && t.layout.Valid(t.nblocks) && t.HasBlocks(d) && key < t.nblocks * t.per
  {
    BlockOf(t.per, t.nblocks, key);
    var i := Lookup(j, key);
    if i < |j| then j[i].1 else d[t.layout.Addr(key / t.per, (key / t.per) in second)][key % t.per]
  }

  // ----- journal updates -----

  /** lookup_journal_in_cursum with alloc on, then the entry is written. */
  function Put<V>(j: seq<(nat, V)>, key: nat, v: V): (r: seq<(nat, V)>)
  {
    var i := Lookup(j, key);
    if i < |j| then j[i := (key, v)] else j + [(key, v)]
  }

  /** A put changes what the journal says about its key only. */
  lemma PutLookup<V>(j: seq<(nat, V)>, key: nat, v: V, other: nat)
    requires DistinctKeys(j)
    ensures var r := Put(j, key, v);
            && DistinctKeys(r)
            && |r| == (if Lookup(j, key) < |j| then |j| else |j| + 1)
            && (Lookup(r, key) < |r| && r[Lookup(r, key)].1 == v)
            && (other != key ==> (Lookup(r, other) < |r| <==> Lookup(j, other) < |j|))
            && (other != key && Lookup(j, other) < |j| ==> r[Lookup(r, other)].1 == j[Lookup(j, other)].1)
  {
    var r := Put(j, key, v);
    var i := Lookup(j, key);
    var n := if i < |j| then i else |j|;
    assert r[n] == (key, v);
    assert Lookup(r, key) == n;
    if other != key {
      var o := Lookup(j, other);
      if o < |j| {
        assert r[o] == j[o];
        assert forall k :: 0 <= k < o ==> r[k].0 != other;
        FoundAt(r, other, o);
      } else {
        assert forall k :: 0 <= k < |r| ==> r[k].0 != other;
      }
    }
  }

  lemma FoundAt<V>(j: seq<(nat, V)>, key: nat, i: nat)
    requires i < |j| && j[i].0 == key && forall k :: 0 <= k < i ==> j[k].0 != key
    ensures Lookup(j, key) == i
  {
  }

  function JournalPut<V>(t: Table<V>, key: nat, v: V): Table<V> {
    t.(journal := Put(t.journal, key, v))
  }

  /** Journalling key changes what is stored for key, and nothing else. */
  lemma JournalPutStored<V>(t: Table<V>, key: nat, v: V)
    requires t.Valid() && key < t.nblocks * t.per
    requires |t.journal| < t.cap || Lookup(t.journal, key) < |t.journal|
    ensures JournalPut(t, key, v).Valid()
    ensures forall other :: 0 <= other < t.nblocks * t.per ==>
              JournalPut(t, key, v).Stored(other) == (if other == key then v else t.Stored(other))
  {
    var r := JournalPut(t, key, v);
    PutLookup(t.journal, key, v, key);
    assert forall k :: 0 <= k < |r.journal| ==> r.journal[k].0 < t.nblocks * t.per;
    forall other | 0 <= other < t.nblocks * t.per
      ensures r.Stored(other) == (if other == key then v else t.Stored(other))
    {
      PutLookup(t.journal, key, v, other);
    }
  }

  // ----- block updates -----

  /** get_next_nat_page / get_next_sit_page: copy the current block over its twin and switch to it. */
  function Switch<V>(t: Table<V>, off: nat): Table<V>
    requires t.layout.Valid(t.nblocks) && t.Current(off) in t.disk
  {
    t.(disk := t.disk[t.layout.Addr(off, off !in t.second) := t.disk[t.Current(off)]],
       second := if off in t.second then t.second - {off} else t.second + {off})
  }

  /** Overwrite one entry of the current block. */
  function SetEntry<V>(t: Table<V>, key: nat, v: V): Table<V>
    requires 0 < t.per && t.layout.Valid(t.nblocks)
    requires t.Current(key / t.per) in t.disk && |t.disk[t.Current(key / t.per)]| == t.per
  {
    var a := t.Current(key / t.per);
    t.(disk := t.disk[a := t.disk[a][key % t.per := v]])
  }

  /** Switching changes nothing that is stored, and touches only the copy not in use before. */
  lemma SwitchStored<V>(t: Table<V>, off: nat)
    requires t.Valid() && off < t.nblocks
    ensures Switch(t, off).Valid()
    ensures forall key :: 0 <= key < t.nblocks * t.per ==> Switch(t, off).Stored(key) == t.Stored(key)
    ensures forall o :: 0 <= o < t.nblocks ==> Switch(t, off).disk[t.Current(o)] == t.disk[t.Current(o)]
  {
    var r := Switch(t, off);
    var a := t.layout.Addr(off, off !in t.second);
    forall o: nat, b: bool | o < t.nblocks
      ensures t.layout.Addr(o, b) in r.disk && |r.disk[t.layout.Addr(o, b)]| == t.per
      ensures !(o == off && b == (off !in t.second)) ==> r.disk[t.layout.Addr(o, b)] == t.disk[t.layout.Addr(o, b)]
    {
      if t.layout.Addr(o, b) == a {
        AddrInjective(t.layout, t.nblocks, o, b, off, off !in t.second);
      }
    }
    assert r.HasBlocks(r.disk);
    forall key | 0 <= key < t.nblocks * t.per
      ensures r.Stored(key) == t.Stored(key)
    {
      BlockOf(t.per, t.nblocks, key);
    }
    forall o | 0 <= o < t.nblocks
      ensures r.disk[t.Current(o)] == t.disk[t.Current(o)]
    {
      assert t.Current(o) == t.layout.Addr(o, o in t.second);
    }
  }

  lemma SetEntryBlocks<V>(t: Table<V>, key: nat, v: V)
    requires t.Valid() && key < t.nblocks * t.per
    ensures t.Current(key / t.per) in t.disk && |t.disk[t.Current(key / t.per)]| == t.per
    ensures SetEntry(t, key, v).HasBlocks(SetEntry(t, key, v).disk)
  {
    BlockOf(t.per, t.nblocks, key);
    var off := key / t.per;
    assert t.Current(off) == t.layout.Addr(off, off in t.second);
    var r := SetEntry(t, key, v);
    forall o: nat, b: bool | o < t.nblocks
      ensures t.layout.Addr(o, b) in r.disk && |r.disk[t.layout.Addr(o, b)]| == t.per
    {
      assert t.layout.Addr(o, b) in t.disk;
    }
  }

  lemma SetEntryAt<V>(t: Table<V>, key: nat, v: V, o: nat)
    requires 0 < t.per && t.layout.Valid(t.nblocks) && key / t.per < t.nblocks && o < t.nblocks
    requires t.Current(key / t.per) in t.disk && |t.disk[t.Current(key / t.per)]| == t.per && t.Current(o) in t.disk
    ensures SetEntry(t, key, v).disk[t.Current(o)] ==
              if o == key / t.per then t.disk[t.Current(o)][key % t.per := v] else t.disk[t.Current(o)]
  {
    var off := key / t.per;
    if t.Current(o) == t.Current(off) {
      AddrInjective(t.layout, t.nblocks, o, o in t.second, off, off in t.second);
    }
  }

  /** Without a journal entry, the current block is what counts. */
  lemma StoredInBlock<V>(t: Table<V>, key: nat)
    requires t.Valid() && key < t.nblocks * t.per && Lookup(t.journal, key) == |t.journal|
    ensures key / t.per < t.nblocks && key % t.per < t.per
    ensures t.Current(key / t.per) in t.disk && |t.disk[t.Current(key / t.per)]| == t.per
    ensures t.Stored(key) == t.disk[t.Current(key / t.per)][key % t.per]
  {
    BlockOf(t.per, t.nblocks, key);
    CurrentBlock(t, key / t.per);
  }

  lemma CurrentBlock<V>(t: Table<V>, off: nat)
    requires t.Valid() && off < t.nblocks
    ensures t.Current(off) in t.disk && |t.disk[t.Current(off)]| == t.per
  {
    assert t.Current(off) == t.layout.Addr(off, off in t.second);
  }

  lemma SetEntryOther<V>(t: Table<V>, key: nat, v: V, other: nat)
    requires t.Valid() && key < t.nblocks * t.per && Lookup(t.journal, key) == |t.journal|
    requires other < t.nblocks * t.per && t.Current(key / t.per) in t.disk && |t.disk[t.Current(key / t.per)]| == t.per
    requires SetEntry(t, key, v).Valid()
    ensures SetEntry(t, key, v).Stored(other) == (if other == key then v else t.Stored(other))
  {
    var r := SetEntry(t, key, v);
    assert r.journal == t.journal && r.second == t.second;
    if Lookup(t.journal, other) == |t.journal| {
      StoredInBlock(t, other);
      StoredInBlock(r, other);
      BlockOf(t.per, t.nblocks, key);
      SetEntryRead(t, key, v, other);
    }
  }

  /** Reading the overwritten block. */
  lemma SetEntryRead<V>(t: Table<V>, key: nat, v: V, other: nat)
    requires 0 < t.per && t.layout.Valid(t.nblocks) && key / t.per < t.nblocks && other / t.per < t.nblocks
    requires t.Current(key / t.per) in t.disk && |t.disk[t.Current(key / t.per)]| == t.per
    requires t.Current(other / t.per) in t.disk && |t.disk[t.Current(other / t.per)]| == t.per
    ensures var r := SetEntry(t, key, v);
            && t.Current(other / t.per) in r.disk && |r.disk[t.Current(other / t.per)]| == t.per
            && r.disk[t.Current(other / t.per)][other % t.per] ==
               (if other == key then v else t.disk[t.Current(other / t.per)][other % t.per])
  {
    SetEntryAt(t, key, v, other / t.per);
    if other / t.per == key / t.per && other % t.per == key % t.per {
      SamePlace(t.per, other, key);
    }
  }

  /** Overwriting an entry the journal does not shadow changes what is stored for
      its key, and touches only the block in use. */
  lemma SetEntryStored<V>(t: Table<V>, key: nat, v: V)
    requires t.Valid() && key < t.nblocks * t.per && Lookup(t.journal, key) == |t.journal|
    ensures t.Current(key / t.per) in t.disk && |t.disk[t.Current(key / t.per)]| == t.per
    ensures SetEntry(t, key, v).Valid()
    ensures forall other :: 0 <= other < t.nblocks * t.per ==>
              SetEntry(t, key, v).Stored(other) == (if other == key then v else t.Stored(other))
    ensures forall a :: a in t.disk && a != t.Current(key / t.per) ==>
              a in SetEntry(t, key, v).disk && SetEntry(t, key, v).disk[a] == t.disk[a]
  {
    SetEntryBlocks(t, key, v);
    var r := SetEntry(t, key, v);
    forall other | 0 <= other < t.nblocks * t.per
      ensures r.Stored(other) == (if other == key then v else t.Stored(other))
    {
      SetEntryOther(t, key, v, other);
    }
  }

  // ----- journal against blocks -----

  /** No journal entry belongs to block k. */
  ghost predicate NoneOfBlock<V>(t: Table<V>, k: nat)
    requires 0 < t.per
  {
    forall m :: 0 <= m < |t.journal| ==> t.journal[m].0 / t.per != k
  }

  /** Every journal entry of r is for block k or for a nid t journalled too. */
  ghost predicate JournalOnlyGains<V>(t: Table<V>, r: Table<V>, k: nat)
    requires 0 < r.per
  {
    forall m :: 0 <= m < |r.journal| ==> r.journal[m].0 / r.per == k || Lookup(t.journal, r.journal[m].0) < |t.journal|
  }

  lemma FoundInItself<V>(t: Table<V>, k: nat)
    requires 0 < t.per
    ensures JournalOnlyGains(t, t, k)
  {
    forall m | 0 <= m < |t.journal|
      ensures Lookup(t.journal, t.journal[m].0) < |t.journal|
    {
      if Lookup(t.journal, t.journal[m].0) == |t.journal| {
        assert false;
      }
    }
  }

  lemma PutGains<V>(t0: Table<V>, t: Table<V>, r: Table<V>, k: nat, nid: nat, v: V, toJournal: bool)
    requires 0 < t.per == r.per && JournalOnlyGains(t0, t, k) && nid / t.per == k
    requires r.journal == if toJournal then Put(t.journal, nid, v) else t.journal
    ensures JournalOnlyGains(t0, r, k)
  {
  }

  // ----- what a crash can see -----

  /** No block that was current in t0 has changed in t1, and t1 uses a block's
      other copy for exactly the blocks in moved. */
  ghost predicate OldCopiesKept<V>(t0: Table<V>, t1: Table<V>, moved: set<nat>)
    requires t0.Valid() && t1.Valid()
  {
    && t1.layout == t0.layout && t1.nblocks == t0.nblocks && t1.per == t0.per && t1.cap == t0.cap
    && t0.disk.Keys <= t1.disk.Keys
    && (forall off :: 0 <= off < t0.nblocks ==> t1.disk[t0.Current(off)] == t0.disk[t0.Current(off)])
    && (forall off :: 0 <= off < t0.nblocks ==> ((off in t1.second) == (off in t0.second) <==> off !in moved))
  }

  // ----- how old copies survive -----

  lemma SwitchKeepsOld<V>(t0: Table<V>, t: Table<V>, moved: set<nat>, k: nat)
    requires t0.Valid() && t.Valid() && OldCopiesKept(t0, t, moved) && k < t.nblocks && k !in moved
    ensures Switch(t, k).Valid()
    ensures OldCopiesKept(t0, Switch(t, k), moved + {k})
  {
    SwitchStored(t, k);
    var r := Switch(t, k);
    forall off | 0 <= off < t0.nblocks
      ensures r.disk[t0.Current(off)] == t0.disk[t0.Current(off)]
    {
      if t0.Current(off) == t.layout.Addr(k, k !in t.second) {
        AddrInjective(t.layout, t.nblocks, off, off in t0.second, k, k !in t.second);
      }
    }
  }

  lemma SetEntryKeepsOld<V>(t0: Table<V>, t: Table<V>, moved: set<nat>, key: nat, v: V)
    requires t0.Valid() && t.Valid() && OldCopiesKept(t0, t, moved) && key < t.nblocks * t.per
    requires Lookup(t.journal, key) == |t.journal| && key / t.per in moved
    ensures t.Current(key / t.per) in t.disk && |t.disk[t.Current(key / t.per)]| == t.per
    ensures SetEntry(t, key, v).Valid()
    ensures OldCopiesKept(t0, SetEntry(t, key, v), moved)
  {
    SetEntryStored(t, key, v);
    BlockOf(t.per, t.nblocks, key);
    var k := key / t.per;
    var r := SetEntry(t, key, v);
    forall off | 0 <= off < t0.nblocks
      ensures r.disk[t0.Current(off)] == t0.disk[t0.Current(off)]
    {
      assert t0.layout.Addr(off, off in t0.second) in t0.disk;
      assert t.layout.Addr(off, off in t0.second) in t.disk;
      if t0.Current(off) == t.Current(k) {
        AddrInjective(t.layout, t.nblocks, off, off in t0.second, k, k in t.second);
      }
    }
  }

  /** d is what the device may hold while the writes leading from d0 to d1 are
      in flight: each block is still old or already new. */
  ghost predicate Between<V>(d: Disk<V>, d0: Disk<V>, d1: Disk<V>) {
    d.Keys == d1.Keys && d0.Keys <= d1.Keys
    && forall a :: a in d ==> d[a] == d1[a] || (a in d0 && d[a] == d0[a])
  }

  /** Until a new bitmap and journal are committed, a crash sees the old table,
      whichever of the new blocks have reached the device. */
  lemma CrashSeesOld<V>(t0: Table<V>, t1: Table<V>, moved: set<nat>, d: Disk<V>, key: nat)
    requires t0.Valid() && t1.Valid() && OldCopiesKept(t0, t1, moved)
    requires Between(d, t0.disk, t1.disk) && key < t0.nblocks * t0.per
    ensures t0.HasBlocks(d)
    ensures View(t0, d, t0.second, t0.journal, key) == t0.Stored(key)
  {
    forall off: nat, b: bool | off < t0.nblocks
      ensures t0.layout.Addr(off, b) in d && |d[t0.layout.Addr(off, b)]| == t0.per
    {
      assert t0.layout.Addr(off, b) in t0.disk;
      assert t1.layout.Addr(off, b) in t1.disk && |t1.disk[t1.layout.Addr(off, b)]| == t1.per;
    }
    BlockOf(t0.per, t0.nblocks, key);
    var off := key / t0.per;
    assert t0.Current(off) == t0.layout.Addr(off, off in t0.second);
    assert t0.Current(off) in d;
  }
}
