/** The NAT as a cache over a journal over twin blocks (fs/f2fs/node.c), as values. */
module NatState {
  import opened ShadowTable

  datatype BlkAddr = NullAddr | NewAddr | At(blk: nat)

  /** version is an unsigned char. */
  datatype NodeInfo = NodeInfo(ino: nat, blk: BlkAddr, version: nat)

  datatype NatEntry = NatEntry(info: NodeInfo, dirty: bool, checkpointed: bool, fsyncedInode: bool, lastFsync: bool)

  /** cleanList is nm_i->nat_entries; sets maps a NAT block to the entry_list of its dirty set. */
  datatype Nat = Nat(
    cache: map<nat, NatEntry>,
    cleanList: seq<nat>,
    sets: map<nat, seq<nat>>,
    natCnt: int,
    dirtyCnt: int,
    t: Table<NodeInfo>)
  {
    predicate InRange(nid: nat) { nid < t.nblocks * t.per }
    predicate Dirty(nid: nat) { nid in cache && cache[nid].dirty }
    predicate Clean(nid: nat) { nid in cache && !cache[nid].dirty }
    predicate Listed(nid: nat) requires 0 < t.per { nid / t.per in sets && nid in sets[nid / t.per] }

    /** The logical map: cache, else journal, else current block. */
    ghost function Logical(nid: nat): NodeInfo
      requires t.Valid() && InRange(nid)
    {
      if nid in cache then cache[nid].info else t.Stored(nid)
    }

    /** Cached nids are in range and clean entries agree with what is stored. */
    ghost predicate Coherent()
      requires t.Valid()
    {
      && (forall nid :: nid in cache ==> InRange(nid))
      && (forall nid :: Clean(nid) ==> cache[nid].info == t.Stored(nid))
    }

    /** The clean list and the dirty sets list what the flags say, each nid once. */
    ghost predicate ListsOk()
      requires 0 < t.per
    {
      && NoDup(cleanList) && (forall nid :: nid in cleanList <==> Clean(nid))
      && (forall nid :: Dirty(nid) ==> Listed(nid))
      && (forall k :: k in sets ==> SetOk(k))
    }

    ghost predicate CountsOk() {
      natCnt == |cache| && dirtyCnt == |DirtyNids()|
    }

    ghost predicate Valid() {
      t.Valid() && Coherent() && ListsOk() && CountsOk()
    }

    /** A set's list holds dirty nids of its block, each once. */
    ghost predicate SetOk(k: nat)
      requires k in sets && 0 < t.per
    {
      k < t.nblocks && NoDup(sets[k]) && forall nid :: nid in sets[k] ==> Dirty(nid) && nid / t.per == k
    }

    ghost function DirtyNids(): set<nat> { set nid | nid in cache && cache[nid].dirty }
  }

  // ----- lists -----

  ghost predicate NoDup<T>(s: seq<T>) {
    forall i, j :: 0 <= i < j < |s| ==> s[i] != s[j]
  }

  /** list_del. */
  function Without(s: seq<nat>, x: nat): seq<nat> {
    if s == [] then [] else if s[0] == x then s[1..] else [s[0]] + Without(s[1..], x)
  }

  lemma {:induction false} WithoutMembers(s: seq<nat>, x: nat)
    requires NoDup(s)
    ensures NoDup(Without(s, x))
    ensures forall y :: y in Without(s, x) <==> y in s && y != x
    ensures |Without(s, x)| == if x in s then |s| - 1 else |s|
  {
    if s != [] {
      assert s == [s[0]] + s[1..];
      assert NoDup(s[1..]);
      WithoutMembers(s[1..], x);
      assert s[0] !in s[1..];
    }
  }

  lemma AppendMembers(s: seq<nat>, x: nat)
    requires NoDup(s) && x !in s
    ensures NoDup(s + [x])
    ensures forall y :: y in s + [x] <==> y in s || y == x
  {
  }

  /** A duplicate-free list is as long as the set of its members. */
  lemma {:induction false} ListWithinSet(s: seq<nat>, m: set<nat>)
    requires NoDup(s) && forall x :: x in s ==> x in m
    ensures |s| <= |m|
  {
    if s != [] {
      assert NoDup(s[1..]);
      assert s[0] in s;
      forall x | x in s[1..] ensures x in m - {s[0]} {
        assert x in s;
      }
      ListWithinSet(s[1..], m - {s[0]});
    }
  }

  // ----- steps -----

  /** grab_nat_entry with the given contents, flags reset, on the clean list. */
  function Grab(s: Nat, nid: nat, info: NodeInfo): Nat {
    s.(cache := s.cache[nid := NatEntry(info, false, true, false, true)],
       cleanList := s.cleanList + [nid],
       natCnt := s.natCnt + 1)
  }

  /** __del_from_nat_cache of a clean entry. */
  function Evict(s: Nat, nid: nat): Nat {
    s.(cache := s.cache - {nid}, cleanList := Without(s.cleanList, nid), natCnt := s.natCnt - 1)
  }

  /** Replace a dirty entry's contents and flags. */
  function Rewrite(s: Nat, nid: nat, e: NatEntry): Nat {
    s.(cache := s.cache[nid := e])
  }

  /** __set_nat_cache_dirty. */
  function MarkDirty(s: Nat, nid: nat): Nat
    requires nid in s.cache && 0 < s.t.per
  {
    if s.cache[nid].dirty then s
    else
      var k := nid / s.t.per;
      var list := if k in s.sets then s.sets[k] else [];
      s.(cache := s.cache[nid := s.cache[nid].(dirty := true)],
         cleanList := Without(s.cleanList, nid),
         sets := s.sets[k := list + [nid]],
         dirtyCnt := s.dirtyCnt + 1)
  }

  /** nat_reset_flag and __clear_nat_cache_dirty, after the entry went to table t. */
  function Flushed(s: Nat, nid: nat, t: Table<NodeInfo>): Nat
    requires nid in s.cache && 0 < s.t.per && nid / s.t.per in s.sets
  {
    var k := nid / s.t.per;
    s.(cache := s.cache[nid := NatEntry(s.cache[nid].info, false, true, false, true)],
       cleanList := s.cleanList + [nid],
       sets := s.sets[k := Without(s.sets[k], nid)],
       dirtyCnt := s.dirtyCnt - 1,
       t := t)
  }

  /** radix_tree_delete of an emptied set. */
  function DropSet(s: Nat, k: nat): Nat {
    s.(sets := s.sets - {k})
  }

  // ----- steps keep the invariant -----

  ghost predicate SameLogical(s: Nat, r: Nat)
    requires s.t.Valid() && r.t.Valid()
  {
    && r.t.nblocks == s.t.nblocks && r.t.per == s.t.per
    && forall nid: nat :: s.InRange(nid) ==> r.Logical(nid) == s.Logical(nid)
  }

  lemma GrabKeeps(s: Nat, nid: nat, info: NodeInfo)
    requires s.Valid() && s.InRange(nid) && nid !in s.cache && info == s.t.Stored(nid)
    ensures Grab(s, nid, info).Valid() && SameLogical(s, Grab(s, nid, info))
    ensures Grab(s, nid, info).DirtyNids() == s.DirtyNids()
  {
    var r := Grab(s, nid, info);
    assert nid !in s.cleanList;
    AppendMembers(s.cleanList, nid);
    assert r.DirtyNids() == s.DirtyNids();
    forall x | r.Dirty(x) ensures r.Listed(x) {
      assert s.Dirty(x) && s.Listed(x);
    }
    forall k | k in r.sets ensures r.SetOk(k) {
      assert s.SetOk(k);
      forall x | x in r.sets[k] ensures r.Dirty(x) { assert s.Dirty(x); }
    }
    forall x | r.Clean(x) ensures r.cache[x].info == r.t.Stored(x) {
      assert x != nid ==> s.Clean(x);
    }
  }

  lemma EvictKeeps(s: Nat, nid: nat)
    requires s.Valid() && s.Clean(nid)
    ensures Evict(s, nid).Valid() && SameLogical(s, Evict(s, nid))
    ensures Evict(s, nid).DirtyNids() == s.DirtyNids()
  {
    EvictLists(s, nid);
    EvictCounts(s, nid);
    var r := Evict(s, nid);
    forall x | r.Clean(x) ensures r.cache[x].info == r.t.Stored(x) {
      assert s.Clean(x);
    }
  }

  lemma EvictLists(s: Nat, nid: nat)
    requires 0 < s.t.per && s.ListsOk() && s.Clean(nid)
    ensures Evict(s, nid).ListsOk()
  {
    var r := Evict(s, nid);
    WithoutMembers(s.cleanList, nid);
    forall x | r.Dirty(x) ensures r.Listed(x) {
      assert s.Dirty(x) && s.Listed(x);
    }
    forall k | k in r.sets ensures r.SetOk(k) {
      assert s.SetOk(k);
      forall x | x in r.sets[k] ensures r.Dirty(x) { assert s.Dirty(x); }
    }
  }

  lemma EvictCounts(s: Nat, nid: nat)
    requires s.CountsOk() && s.Clean(nid)
    ensures Evict(s, nid).CountsOk() && Evict(s, nid).DirtyNids() == s.DirtyNids()
  {
    var r := Evict(s, nid);
    assert r.DirtyNids() == s.DirtyNids();
    assert s.cache == r.cache[nid := s.cache[nid]];
    assert |r.cache| == |s.cache| - 1;
  }

  lemma MarkDirtyKeeps(s: Nat, nid: nat)
    requires s.Valid() && nid in s.cache
    ensures MarkDirty(s, nid).Valid() && SameLogical(s, MarkDirty(s, nid))
    ensures MarkDirty(s, nid).DirtyNids() == s.DirtyNids() + {nid}
  {
    if !s.cache[nid].dirty {
      MarkDirtyLists(s, nid);
      var r := MarkDirty(s, nid);
      assert r.DirtyNids() == s.DirtyNids() + {nid};
      assert |r.cache| == |s.cache| by { assert r.cache.Keys == s.cache.Keys; }
      forall x | r.Clean(x) ensures r.cache[x].info == r.t.Stored(x) {
        assert s.Clean(x);
      }
    } else {
      assert s.DirtyNids() + {nid} == s.DirtyNids();
    }
  }

  lemma MarkDirtyLists(s: Nat, nid: nat)
    requires s.Valid() && s.Clean(nid)
    ensures MarkDirty(s, nid).ListsOk()
  {
    var r := MarkDirty(s, nid);
    var k := nid / s.t.per;
    WithoutMembers(s.cleanList, nid);
    BlockOf(s.t.per, s.t.nblocks, nid);
    forall x | r.Dirty(x) ensures r.Listed(x) {
      if x != nid {
        assert s.Dirty(x) && s.Listed(x);
      }
    }
    forall j | j in r.sets ensures r.SetOk(j) {
      if j in s.sets {
        assert s.SetOk(j);
        assert nid !in s.sets[j];
      }
      if j == k && k in s.sets {
        AppendMembers(s.sets[k], nid);
      }
      forall x | x in r.sets[j] ensures r.Dirty(x) && x / r.t.per == j {
        if x != nid {
          assert s.Dirty(x);
        }
      }
    }
  }

  /** Rewriting a dirty entry changes the logical map at that nid only. */
  lemma RewriteKeeps(s: Nat, nid: nat, e: NatEntry)
    requires s.Valid() && s.Dirty(nid) && e.dirty
    ensures var r := Rewrite(s, nid, e);
            && r.Valid() && r.Logical(nid) == e.info
            && forall x: nat :: s.InRange(x) && x != nid ==> r.Logical(x) == s.Logical(x)
  {
    var r := Rewrite(s, nid, e);
    assert r.DirtyNids() == s.DirtyNids();
    assert r.cache.Keys == s.cache.Keys;
    forall x | r.Dirty(x) ensures r.Listed(x) {
      assert s.Dirty(x) && s.Listed(x);
    }
    forall k | k in r.sets ensures r.SetOk(k) {
      assert s.SetOk(k);
      forall x | x in r.sets[k] ensures r.Dirty(x) { assert s.Dirty(x); }
    }
    forall x | r.Clean(x) ensures r.cache[x].info == r.t.Stored(x) {
      assert s.Clean(x);
    }
  }

  /** Table t stores the entry of nid; otherwise it stores what s.t stores. */
  ghost predicate Stores(s: Nat, nid: nat, t: Table<NodeInfo>)
    requires s.t.Valid() && nid in s.cache
  {
    && t.Valid() && t.nblocks == s.t.nblocks && t.per == s.t.per
    && forall x: nat :: s.InRange(x) ==> t.Stored(x) == (if x == nid then s.cache[nid].info else s.t.Stored(x))
  }

  lemma FlushedLogical(s: Nat, nid: nat, t: Table<NodeInfo>)
    requires s.Valid() && s.Dirty(nid) && s.Listed(nid) && Stores(s, nid, t)
    ensures var r := Flushed(s, nid, t);
            SameLogical(s, r) && r.Coherent()
  {
    var r := Flushed(s, nid, t);
    forall x | r.Clean(x) ensures s.InRange(x) && r.cache[x].info == r.t.Stored(x) {
      assert x != nid ==> s.Clean(x);
    }
    forall x | x in r.cache ensures r.InRange(x) {
      assert x in s.cache;
    }
    forall x: nat | s.InRange(x) ensures r.Logical(x) == s.Logical(x) {
    }
  }

  lemma FlushedKeeps(s: Nat, nid: nat, t: Table<NodeInfo>)
    requires s.Valid() && s.Dirty(nid) && Stores(s, nid, t)
    ensures s.Listed(nid)
    ensures Flushed(s, nid, t).Valid() && SameLogical(s, Flushed(s, nid, t))
    ensures Flushed(s, nid, t).DirtyNids() == s.DirtyNids() - {nid}
  {
    assert s.Listed(nid);
    FlushedLists(s, nid, t);
    FlushedLogical(s, nid, t);
    FlushedCounts(s, nid, t);
  }

  lemma FlushedCounts(s: Nat, nid: nat, t: Table<NodeInfo>)
    requires s.CountsOk() && s.Dirty(nid) && 0 < s.t.per && s.Listed(nid)
    ensures Flushed(s, nid, t).CountsOk() && Flushed(s, nid, t).DirtyNids() == s.DirtyNids() - {nid}
  {
    var r := Flushed(s, nid, t);
    assert r.cache.Keys == s.cache.Keys;
    assert |r.cache| == |s.cache|;
    assert nid in s.DirtyNids();
    assert r.DirtyNids() == s.DirtyNids() - {nid};
  }

  lemma FlushedLists(s: Nat, nid: nat, t: Table<NodeInfo>)
    requires s.Valid() && s.Dirty(nid) && s.Listed(nid) && t.per == s.t.per && t.nblocks == s.t.nblocks
    ensures Flushed(s, nid, t).ListsOk()
  {
    var r := Flushed(s, nid, t);
    var k := nid / s.t.per;
    assert nid !in s.cleanList;
    AppendMembers(s.cleanList, nid);
    assert s.SetOk(k);
    WithoutMembers(s.sets[k], nid);
    forall x | r.Dirty(x) ensures r.Listed(x) {
      assert s.Dirty(x) && s.Listed(x) && x != nid;
    }
    forall j | j in r.sets ensures r.SetOk(j) {
      assert s.SetOk(j);
      forall x | x in r.sets[j] ensures r.Dirty(x) && x / r.t.per == j {
        assert s.Dirty(x);
        assert j == k || x / s.t.per != k;
      }
    }
  }

  lemma DropSetKeeps(s: Nat, k: nat)
    requires s.Valid() && k in s.sets && s.sets[k] == []
    ensures DropSet(s, k).Valid() && SameLogical(s, DropSet(s, k)) && DropSet(s, k).DirtyNids() == s.DirtyNids()
  {
    var r := DropSet(s, k);
    assert r.DirtyNids() == s.DirtyNids();
    forall x | r.Dirty(x) ensures r.Listed(x) {
      assert s.Dirty(x) && s.Listed(x);
    }
    forall j | j in r.sets ensures r.SetOk(j) {
      assert s.SetOk(j);
      forall x | x in r.sets[j] ensures r.Dirty(x) { assert s.Dirty(x); }
    }
    forall x | r.Clean(x) ensures r.cache[x].info == r.t.Stored(x) {
      assert s.Clean(x);
    }
  }

  /** Emptying the journal once all its nids are dirty in the cache changes no
      logical value: the cache already overrides every entry lost. */
  lemma SpillKeeps(s: Nat)
    requires s.Valid() && forall i :: 0 <= i < |s.t.journal| ==> s.Dirty(s.t.journal[i].0)
    ensures var r := s.(t := s.t.(journal := []));
            r.Valid() && SameLogical(s, r) && r.DirtyNids() == s.DirtyNids()
  {
    var r := s.(t := s.t.(journal := []));
    assert r.t.Valid();
    forall x: nat | s.InRange(x) && !s.Dirty(x)
      ensures r.t.Stored(x) == s.t.Stored(x)
    {
      assert Lookup(s.t.journal, x) == |s.t.journal|;
    }
    assert r.DirtyNids() == s.DirtyNids();
    forall x | r.Dirty(x) ensures r.Listed(x) {
      assert s.Dirty(x) && s.Listed(x);
    }
    forall j | j in r.sets ensures r.SetOk(j) {
      assert s.SetOk(j);
      forall x | x in r.sets[j] ensures r.Dirty(x) { assert s.Dirty(x); }
    }
    forall x | r.Clean(x) ensures r.cache[x].info == r.t.Stored(x) {
      assert s.Clean(x);
    }
    forall x | x in r.cleanList ensures r.Clean(x) {
      assert s.Clean(x);
    }
  }

  lemma SameLogicalChain(a: Nat, b: Nat, c: Nat)
    requires a.t.Valid() && b.t.Valid() && c.t.Valid() && SameLogical(a, b) && SameLogical(b, c)
    ensures SameLogical(a, c)
  {
  }

  /** The oldest clean entry heads the clean list. */
  lemma CleanHead(s: Nat)
    requires s.Valid() && s.cleanList != []
    ensures s.Clean(s.cleanList[0]) && Without(s.cleanList, s.cleanList[0]) == s.cleanList[1..]
  {
    assert s.cleanList[0] in s.cleanList;
  }
}
