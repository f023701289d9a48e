/** The NAT manager of fs/f2fs/node.c: lookups, updates, evictions and the checkpoint flush. */
module NatManager {
  import opened ShadowTable
  import opened NatState

  class Manager {
    var cache: map<nat, NatEntry>
    var cleanList: seq<nat>
    var sets: map<nat, seq<nat>>
    var natCnt: int
    var dirtyCnt: int
    var t: Table<NodeInfo>

    ghost function State(): Nat
      reads this
    {
      Nat(cache, cleanList, sets, natCnt, dirtyCnt, t)
    }

    ghost predicate Valid()
      reads this
    {
      State().Valid()
    }

    /** The journal is searched before the current block. */
    method ReadTable(nid: nat) returns (ni: NodeInfo)
      requires t.Valid() && State().InRange(nid)
      ensures ni == t.Stored(nid)
    {
      var i := Lookup(t.journal, nid);
      if i < |t.journal| {
        ni := t.journal[i].1;
      } else {
        StoredInBlock(t, nid);
        ni := t.disk[t.Current(nid / t.per)][nid % t.per];
      }
    }

    /** get_node_info: answers the logical map; at most a clean cache entry appears. */
    method GetNodeInfo(nid: nat) returns (ni: NodeInfo)
      requires Valid() && State().InRange(nid)
      modifies this`cache, this`cleanList, this`natCnt
      ensures Valid() && SameLogical(old(State()), State())
      ensures ni == old(State()).Logical(nid)
      ensures State().DirtyNids() == old(State()).DirtyNids()
    {
      if nid in cache {
        return cache[nid].info;
      }
      ni := ReadTable(nid);
      GrabKeeps(State(), nid, ni);
      GrabNatEntry(nid, ni);
    }

    /** grab_nat_entry. */
    method GrabNatEntry(nid: nat, info: NodeInfo)
      modifies this`cache, this`cleanList, this`natCnt
      ensures State() == Grab(old(State()), nid, info)
    {
      cache := cache[nid := NatEntry(info, false, true, false, true)];
      cleanList := cleanList + [nid];
      natCnt := natCnt + 1;
    }

    /** __set_nat_cache_dirty. */
    method SetNatCacheDirty(nid: nat)
      requires nid in cache && 0 < t.per
      modifies this`cache, this`cleanList, this`sets, this`dirtyCnt
      ensures State() == MarkDirty(old(State()), nid)
    {
      if cache[nid].dirty {
        return;
      }
      var k := nid / t.per;
      if k !in sets {
        sets := sets[k := []];
      }
      cleanList := Without(cleanList, nid);
      sets := sets[k := sets[k] + [nid]];
      dirtyCnt := dirtyCnt + 1;
      cache := cache[nid := cache[nid].(dirty := true)];
    }

    /** __del_from_nat_cache of the oldest clean entry. */
    method EvictOldest()
      requires Valid() && cleanList != []
      modifies this`cache, this`cleanList, this`natCnt
      ensures Valid() && SameLogical(old(State()), State())
      ensures State().DirtyNids() == old(State()).DirtyNids()
    {
      var nid := cleanList[0];
      CleanHead(State());
      EvictKeeps(State(), nid);
      cleanList := cleanList[1..];
      cache := cache - {nid};
      natCnt := natCnt - 1;
      assert State() == Evict(old(State()), nid);
    }

    /** try_to_free_nats: the oldest clean entries go; no logical value changes. */
    method TryToFreeNats(nrShrink: nat, memoryAvailable: bool) returns (left: nat)
      requires Valid()
      modifies this`cache, this`cleanList, this`natCnt
      ensures Valid() && SameLogical(old(State()), State())
      ensures State().DirtyNids() == old(State()).DirtyNids()
      ensures memoryAvailable ==> left == 0 && cache == old(cache)
      ensures !memoryAvailable ==> left == 0 || cleanList == []
    {
      if memoryAvailable {
        return 0;
      }
      left := nrShrink;
      while left > 0 && cleanList != []
        invariant Valid() && SameLogical(old(State()), State())
        invariant State().DirtyNids() == old(State()).DirtyNids()
      {
        ghost var before := State();
        EvictOldest();
        SameLogicalChain(old(State()), before, State());
        left := left - 1;
      }
    }

    /** The entry set_node_addr starts from: the cached one, unless there is none
        or the nid is being allocated anew. */
    function StartInfo(nid: nat, ni: NodeInfo, newBlk: BlkAddr): NodeInfo
      reads this
    {
      if nid in cache && !newBlk.NewAddr? then cache[nid].info else ni
    }

    /** What set_node_addr's bug checks ask of its caller. */
    ghost predicate CanSet(nid: nat, ni: NodeInfo, newBlk: BlkAddr)
      requires t.Valid()
      reads this
    {
      var b := StartInfo(nid, ni, newBlk).blk;
      && State().InRange(nid)
      && (nid !in cache ==> !ni.blk.NewAddr?)
      && (nid in cache && newBlk.NewAddr? ==> ni.blk.NullAddr?)
      && b == ni.blk
      && !(b.NullAddr? && newBlk.NullAddr?) && !(b.NewAddr? && newBlk.NewAddr?) && !(b.At? && newBlk.NewAddr?)
    }

    /** The information set_node_addr leaves for nid: a removed node's version goes up, modulo 256. */
    ghost function NewInfo(nid: nat, ni: NodeInfo, newBlk: BlkAddr): NodeInfo
      reads this
    {
      var start := StartInfo(nid, ni, newBlk);
      NodeInfo(start.ino, newBlk, if !start.blk.NewAddr? && newBlk.NullAddr? then (start.version + 1) % 256 else start.version)
    }

    /** The state with nid cached, holding whatever the logical map says. */
    ghost function Cached(nid: nat): Nat
      requires t.Valid() && State().InRange(nid)
      reads this
    {
      if nid in cache then State() else Grab(State(), nid, t.Stored(nid))
    }

    lemma CachedKeeps(nid: nat)
      requires Valid() && State().InRange(nid)
      ensures Cached(nid).Valid() && SameLogical(State(), Cached(nid)) && nid in Cached(nid).cache
    {
      if nid !in cache {
        GrabKeeps(State(), nid, t.Stored(nid));
      }
    }

    /** The IS_CHECKPOINTED flag it leaves: dropped when a node is reserved or removed, and
        otherwise as it was; an entry made anew has it. */
    predicate NewCheckpointed(nid: nat, newBlk: BlkAddr)
      reads this
    {
      newBlk.At? && (nid in cache ==> cache[nid].checkpointed)
    }

    /** The entry part of set_node_addr. */
    method ChangeEntry(nid: nat, ni: NodeInfo, newBlk: BlkAddr)
      requires t.Valid() && CanSet(nid, ni, newBlk)
      modifies this`cache, this`cleanList, this`sets, this`natCnt, this`dirtyCnt
      ensures nid in cache && cache[nid].dirty && cache[nid].info == old(NewInfo(nid, ni, newBlk))
      ensures cache[nid].checkpointed == old(NewCheckpointed(nid, newBlk))
      ensures State() == Rewrite(MarkDirty(old(Cached(nid)), nid), nid, cache[nid])
    {
      ghost var s1 := Cached(nid);
      if nid !in cache {
        GrabNatEntry(nid, ni);
      } else if newBlk.NewAddr? {
        cache := cache[nid := cache[nid].(info := ni)];
      }
      var e := cache[nid];
      if !e.info.blk.NewAddr? && newBlk.NullAddr? {
        e := e.(info := e.info.(version := (e.info.version + 1) % 256));
      }
      e := e.(info := e.info.(blk := newBlk));
      if newBlk.NewAddr? || newBlk.NullAddr? {
        e := e.(checkpointed := false);
      }
      cache := cache[nid := e];
      assert cache == s1.cache[nid := e];
      assert State() == Rewrite(s1, nid, e);
      SetNatCacheDirty(nid);
      RewriteCommutes(s1, nid, e);
    }

    /** set_node_addr is the one operation that changes the logical map, and it
        changes it at one nid. */
    method SetNodeAddr(nid: nat, ni: NodeInfo, newBlk: BlkAddr, fsyncDone: bool)
      requires Valid() && CanSet(nid, ni, newBlk)
      modifies this`cache, this`cleanList, this`sets, this`natCnt, this`dirtyCnt
      ensures Valid() && t == old(t)
      ensures nid in State().DirtyNids()
      ensures State().Logical(nid) == old(NewInfo(nid, ni, newBlk))
      ensures nid in cache && cache[nid].checkpointed == old(NewCheckpointed(nid, newBlk))
      ensures ni.ino in cache ==> cache[ni.ino].lastFsync == fsyncDone
      ensures ni.ino == nid && fsyncDone ==> cache[nid].fsyncedInode
      ensures forall x: nat :: State().InRange(x) && x != nid ==> State().Logical(x) == old(State()).Logical(x)
    {
      CachedKeeps(nid);
      ghost var s1 := Cached(nid);
      ChangeEntry(nid, ni, newBlk);
      DirtyRewriteKeeps(s1, nid, cache[nid]);
      MarkFsync(nid, ni.ino, fsyncDone);
    }

    /** The fsync marks that set_node_addr leaves on the inode's own entry, if cached. */
    method MarkFsync(nid: nat, ino: nat, fsyncDone: bool)
      requires Valid()
      modifies this`cache
      ensures Valid() && SameLogical(old(State()), State())
      ensures State().DirtyNids() == old(State()).DirtyNids()
      ensures cache.Keys == old(cache).Keys
      ensures forall x :: x in old(cache) ==> cache[x].info == old(cache)[x].info && cache[x].checkpointed == old(cache)[x].checkpointed
      ensures ino in old(cache) ==> ino in cache && cache[ino].lastFsync == fsyncDone
      ensures ino in old(cache) && fsyncDone && nid == ino ==> cache[ino].fsyncedInode
    {
      if ino in cache {
        var e := cache[ino];
        if fsyncDone && nid == ino {
          e := e.(fsyncedInode := true);
        }
        e := e.(lastFsync := fsyncDone);
        ReflagKeeps(State(), ino, e);
        cache := cache[ino := e];
      }
    }

    // ----- checkpoint flush -----

    /** One journal entry becomes a dirty cache entry; a cached one is not overwritten. */
    method SpillOne(nid: nat, ni: NodeInfo)
      requires Valid() && State().InRange(nid) && ni == t.Stored(nid)
      modifies this`cache, this`cleanList, this`sets, this`natCnt, this`dirtyCnt
      ensures Valid() && SameLogical(old(State()), State())
      ensures State().DirtyNids() == old(State()).DirtyNids() + {nid}
    {
      ghost var s1 := Cached(nid);
      CachedKeeps(nid);
      if nid !in cache {
        GrabNatEntry(nid, ni);
      }
      MarkDirtyKeeps(s1, nid);
      SetNatCacheDirty(nid);
      SameLogicalChain(old(State()), s1, State());
    }

    /** The body of that loop: journal entry i goes. */
    method SpillEntry(i: nat, ghost s0: Nat)
      requires i < |t.journal| && Valid() && s0.t.Valid() && SameLogical(s0, State())
      modifies this`cache, this`cleanList, this`sets, this`natCnt, this`dirtyCnt
      ensures Valid() && SameLogical(s0, State())
      ensures State().DirtyNids() == old(State()).DirtyNids() + {t.journal[i].0}
    {
      ghost var before := State();
      JournalEntryStored(t, i);
      SpillOne(t.journal[i].0, t.journal[i].1);
      SameLogicalChain(s0, before, State());
    }

    /** remove_nats_in_journal: every journal entry moves into the cache as dirty. */
    method RemoveNatsInJournal()
      requires Valid()
      modifies this
      ensures Valid() && SameLogical(old(State()), State())
      ensures t == old(t).(journal := [])
    {
      var i := 0;
      while i < |t.journal|
        invariant i <= |t.journal| && t == old(t)
        invariant Valid() && SameLogical(old(State()), State())
        invariant forall m :: 0 <= m < i ==> t.journal[m].0 in State().DirtyNids()
      {
        SpillEntry(i, old(State()));
        i := i + 1;
      }
      DropJournal();
    }

    method DropJournal()
      requires Valid() && forall m :: 0 <= m < |t.journal| ==> t.journal[m].0 in State().DirtyNids()
      modifies this`t
      ensures Valid() && SameLogical(old(State()), State()) && t == old(t).(journal := [])
    {
      assert forall m :: 0 <= m < |t.journal| ==> State().Dirty(t.journal[m].0);
      SpillKeeps(State());
      t := t.(journal := []);
    }

    /** nat_reset_flag and __clear_nat_cache_dirty for an entry now held by t2. */
    method ClearDirty(nid: nat, t2: Table<NodeInfo>)
      requires nid in cache && 0 < t.per && nid / t.per in sets && t2.per == t.per
      modifies this
      ensures State() == Flushed(old(State()), nid, t2)
    {
      sets := sets[nid / t.per := Without(sets[nid / t.per], nid)];
      t := t2;
      cache := cache[nid := NatEntry(cache[nid].info, false, true, false, true)];
      cleanList := cleanList + [nid];
      dirtyCnt := dirtyCnt - 1;
    }

    /** One entry of __flush_nat_entry_set, written to table t2 that stores it. */
    method FlushTo(nid: nat, t2: Table<NodeInfo>)
      requires Valid() && nid in State().DirtyNids() && Stores(State(), nid, t2)
      modifies this
      ensures Valid() && SameLogical(old(State()), State())
      ensures nid / old(t).per in old(sets) && State() == Flushed(old(State()), nid, t2)
      ensures State().DirtyNids() == old(State()).DirtyNids() - {nid}
    {
      assert State().Dirty(nid);
      FlushedKeeps(State(), nid, t2);
      ClearDirty(nid, t2);
    }


    /** raw_nat_from_node_info into the journal. */
    method FlushToJournal(nid: nat, ghost t0: Table<NodeInfo>, ghost moved: set<nat>)
      requires Valid() && nid in State().DirtyNids() && |t.journal| < t.cap
      requires t0.Valid() && OldCopiesKept(t0, t, moved)
      modifies this
      ensures Valid() && SameLogical(old(State()), State()) && OldCopiesKept(t0, t, moved)
      ensures FlushedOne(old(State()), State(), nid)
      ensures t.journal == Put(old(t).journal, nid, old(cache)[nid].info)
    {
      var info := cache[nid].info;
      JournalPutStored(t, nid, info);
      var t2 := JournalPut(t, nid, info);
      assert OldCopiesKept(t0, t2, moved);
      FlushTo(nid, t2);
    }

    /** raw_nat_from_node_info into the page of the block just switched to. */
    method FlushToBlock(nid: nat, ghost t0: Table<NodeInfo>, ghost moved: set<nat>)
      requires Valid() && nid in State().DirtyNids()
      requires t0.Valid() && OldCopiesKept(t0, t, moved) && nid / t.per in moved
      requires Lookup(t.journal, nid) == |t.journal|
      modifies this
      ensures Valid() && SameLogical(old(State()), State()) && OldCopiesKept(t0, t, moved)
      ensures FlushedOne(old(State()), State(), nid)
      ensures t.journal == old(t).journal
    {
      var info := cache[nid].info;
      SetEntryStored(t, nid, info);
      SetEntryKeepsOld(t0, t, moved, nid, info);
      var t2 := SetEntry(t, nid, info);
      FlushTo(nid, t2);
    }

    method FlushEntry(nid: nat, toJournal: bool, ghost t0: Table<NodeInfo>, ghost moved: set<nat>)
      requires Valid() && nid in State().DirtyNids()
      requires t0.Valid() && OldCopiesKept(t0, t, moved)
      requires if toJournal then |t.journal| < t.cap
               else nid / t.per in moved && Lookup(t.journal, nid) == |t.journal|
      modifies this
      ensures Valid() && SameLogical(old(State()), State()) && OldCopiesKept(t0, t, moved)
      ensures FlushedOne(old(State()), State(), nid)
      ensures t.journal == if toJournal then Put(old(t).journal, nid, old(cache)[nid].info) else old(t).journal
    {
      if toJournal {
        FlushToJournal(nid, t0, moved);
      } else {
        FlushToBlock(nid, t0, moved);
      }
    }

    /** The loop body of __flush_nat_entry_set: reserved nids are passed over. */
    method FlushNext(ghost s0: Nat, list: seq<nat>, i: nat, k: nat, toJournal: bool, ghost t0: Table<NodeInfo>, ghost moved: set<nat>)
      requires i < |list| && Progress(s0, State(), list, i, k, toJournal)
      requires t0.Valid() && OldCopiesKept(t0, t, moved) && (!toJournal ==> k in moved)
      modifies this
      ensures Progress(s0, State(), list, i + 1, k, toJournal) && OldCopiesKept(t0, t, moved)
    {
      var nid := list[i];
      assert nid in State().DirtyNids();
      if cache[nid].info.blk.NewAddr? {
        SkipStep(s0, State(), list, i, k, toJournal);
        return;
      }
      ghost var before := State();
      if !toJournal {
        assert Lookup(t.journal, nid) == |t.journal|;
      }
      FlushEntry(nid, toJournal, t0, moved);
      ProgressStep(s0, before, State(), list, i, k, toJournal);
    }

    /** The loop of __flush_nat_entry_set. */
    method FlushList(list: seq<nat>, k: nat, toJournal: bool, ghost t0: Table<NodeInfo>, ghost moved: set<nat>)
      requires Progress(State(), State(), list, 0, k, toJournal)
      requires t0.Valid() && OldCopiesKept(t0, t, moved) && (!toJournal ==> k in moved)
      modifies this
      ensures Progress(old(State()), State(), list, |list|, k, toJournal) && OldCopiesKept(t0, t, moved)
    {
      ghost var s0 := State();
      var i := 0;
      while i < |list|
        invariant i <= |list|
        invariant Progress(s0, State(), list, i, k, toJournal) && OldCopiesKept(t0, t, moved)
      {
        FlushNext(s0, list, i, k, toJournal, t0, moved);
        i := i + 1;
      }
    }

    /** The end of __flush_nat_entry_set: an emptied set leaves the tree. */
    method ReleaseSet(k: nat) returns (entryCnt: nat)
      requires Valid() && k in sets
      modifies this`sets
      ensures Valid() && SameLogical(old(State()), State()) && State().DirtyNids() == old(State()).DirtyNids()
      ensures entryCnt == |old(sets)[k]|
      ensures sets == if entryCnt == 0 then old(sets) - {k} else old(sets)
    {
      entryCnt := |sets[k]|;
      if entryCnt == 0 {
        DropSetKeeps(State(), k);
        sets := sets - {k};
      }
    }

    /** __flush_nat_entry_set once its destination is chosen and at hand. */
    method FlushSetBody(k: nat, toJournal: bool, ghost t0: Table<NodeInfo>, ghost moved: set<nat>) returns (entryCnt: nat)
      requires Valid() && k in sets
      requires if toJournal then |t.journal| + |sets[k]| <= t.cap else NoneOfBlock(t, k)
      requires t0.Valid() && OldCopiesKept(t0, t, moved) && (!toJournal ==> k in moved)
      modifies this
      ensures Valid() && SameLogical(old(State()), State()) && OldCopiesKept(t0, t, moved)
      ensures entryCnt > 0 <==> HasReserved(old(State()), old(sets)[k])
      ensures sets - {k} == old(sets) - {k} && (k in sets <==> entryCnt > 0)
      ensures k in sets ==> |sets[k]| == entryCnt && OnlyReserved(old(State()), old(sets)[k], sets[k])
      ensures SameInfos(old(cache), cache) && t.cap == old(t).cap
      ensures State().DirtyNids() <= old(State()).DirtyNids()
      ensures |State().DirtyNids()| + |t.journal| <= |old(State()).DirtyNids()| + |old(t).journal|
      ensures JournalOnlyGains(old(t), t, k)
    {
      var list := sets[k];
      ghost var s0 := State();
      StartProgress(s0, list, k, toJournal);
      FlushList(list, k, toJournal, t0, moved);
      ghost var s1 := State();
      LeftOver(s0, s1, k, toJournal);
      entryCnt := ReleaseSet(k);
      SameLogicalChain(s0, s1, State());
    }

    /** __flush_nat_entry_set for set k: to the journal if all of it fits, else to
        the twin of block k. Reserved nids stay behind; the bug check at the end
        fires exactly when there are some. */
    method FlushNatEntrySet(k: nat, ghost t0: Table<NodeInfo>, ghost moved0: set<nat>)
      returns (entryCnt: nat, ghost moved: set<nat>)
      requires Valid() && k in sets && k < t.nblocks
      requires t0.Valid() && OldCopiesKept(t0, t, moved0) && k !in moved0
      requires |sets[k]| > t.cap - |t.journal| ==> NoneOfBlock(t, k)
      modifies this
      ensures Valid() && SameLogical(old(State()), State()) && OldCopiesKept(t0, t, moved)
      ensures moved == if |old(sets)[k]| <= t.cap - |old(t).journal| then moved0 else moved0 + {k}
      ensures entryCnt > 0 <==> HasReserved(old(State()), old(sets)[k])
      ensures sets - {k} == old(sets) - {k} && (k in sets <==> entryCnt > 0)
      ensures k in sets ==> |sets[k]| == entryCnt && OnlyReserved(old(State()), old(sets)[k], sets[k])
      ensures SameInfos(old(cache), cache)
      ensures State().DirtyNids() <= old(State()).DirtyNids()
      ensures |State().DirtyNids()| + |t.journal| <= |old(State()).DirtyNids()| + |old(t).journal|
      ensures JournalOnlyGains(old(t), t, k)
    {
      var toJournal := |sets[k]| <= t.cap - |t.journal|;
      moved := moved0;
      if !toJournal {
        moved := moved0 + {k};
        TakeTwin(k, t0, moved0);
      }
      ghost var s0 := State();
      entryCnt := FlushSetBody(k, toJournal, t0, moved);
      SameLogicalChain(old(State()), s0, State());
    }

    /** __adjust_nat_entry_set: set k goes before the first set at least as large, or last. */
    method AdjustNatEntrySet(order: seq<nat>, k: nat, max: nat) returns (r: seq<nat>)
      requires k in sets && k !in order && NoDup(order) && (forall x :: x in order ==> x in sets)
      requires Ascending(sets, order, max)
      ensures NoDup(r) && (forall x :: x in r <==> x in order || x == k)
      ensures Ascending(sets, r, max)
    {
      if |sets[k]| >= max {
        return order + [k];
      }
      var i := 0;
      while i < |order| && |sets[order[i]]| < |sets[k]|
        invariant i <= |order|
        invariant forall j :: 0 <= j < i ==> |sets[order[j]]| < |sets[k]|
      {
        i := i + 1;
      }
      InsertedOrder(order, i, k);
      r := order[..i] + [k] + order[i..];
    }

    /** The gang lookups of flush_nat_entries: all sets, smallest first as far as the journal could take them. */
    method OrderSets(max: nat) returns (order: seq<nat>)
      requires Valid()
      ensures NoDup(order) && (forall x :: x in order <==> x in sets)
      ensures Ascending(sets, order, max)
    {
      order := [];
      var k := 0;
      while k < t.nblocks
        invariant k <= t.nblocks
        invariant NoDup(order) && (forall x :: x in order <==> x in sets && x < k)
        invariant Ascending(sets, order, max)
      {
        if k in sets {
          order := AdjustNatEntrySet(order, k, max);
        }
        k := k + 1;
      }
      forall x | x in sets ensures x < t.nblocks {
        assert State().SetOk(x);
      }
    }

    /** One set of the flush: with nothing reserved it always goes completely. */
    method FlushOneSet(k: nat, ghost t0: Table<NodeInfo>, ghost moved0: set<nat>) returns (ghost moved: set<nat>)
      requires Valid() && NoneReserved(State()) && Room(State()) && k in sets && k !in moved0
      requires t0.Valid() && OldCopiesKept(t0, t, moved0)
      modifies this
      ensures Valid() && SameLogical(old(State()), State()) && NoneReserved(State()) && Room(State())
      ensures sets == old(sets) - {k}
      ensures OldCopiesKept(t0, t, moved) && moved <= moved0 + {k}
    {
      ghost var before := State();
      RoomForSet(before, k);
      NoReservedSet(before, k);
      var entryCnt;
      entryCnt, moved := FlushNatEntrySet(k, t0, moved0);
      RoomAfterSet(before, State(), k);
    }

    /** The second loop of flush_nat_entries. */
    method FlushInOrder(order: seq<nat>, ghost t0: Table<NodeInfo>) returns (ghost moved: set<nat>)
      requires Valid() && NoneReserved(State()) && Room(State())
      requires t0.Valid() && OldCopiesKept(t0, t, {})
      requires NoDup(order) && (forall x :: x in order <==> x in sets)
      modifies this
      ensures Valid() && SameLogical(old(State()), State()) && OldCopiesKept(t0, t, moved)
      ensures forall k :: k !in sets
    {
      moved := {};
      var i := 0;
      while i < |order|
        invariant i <= |order|
        invariant Valid() && SameLogical(old(State()), State()) && NoneReserved(State()) && Room(State())
        invariant OldCopiesKept(t0, t, moved)
        invariant forall k :: k in sets <==> k in order[i..]
        invariant forall k :: k in moved ==> k in order[..i]
      {
        SplitOrder(order, i);
        ghost var before := State();
        moved := FlushOneSet(order[i], t0, moved);
        SameLogicalChain(old(State()), before, State());
        i := i + 1;
      }
    }

    /** flush_nat_entries: afterwards nothing is dirty, what is stored is exactly
        the logical map, which has not changed, the journal has not overflowed,
        and every block that was current before is still as it was. */
    method FlushNatEntries() returns (ghost moved: set<nat>)
      requires Valid() && NoneReserved(State())
      modifies this
      ensures Valid() && SameLogical(old(State()), State())
      ensures State().DirtyNids() == {} && dirtyCnt == 0
      ensures forall nid: nat :: State().InRange(nid) ==> t.Stored(nid) == old(State()).Logical(nid)
      ensures OldCopiesKept(old(t), t, moved)
    {
      moved := {};
      if dirtyCnt == 0 {
        NothingDirty(State());
        return;
      }
      ghost var t0 := t;
      if dirtyCnt > t.cap - |t.journal| {
        RemoveNatsInJournal();
      }
      ghost var s0 := State();
      var order := OrderSets(t.cap - |t.journal|);
      moved := FlushInOrder(order, t0);
      NothingListed(State());
      NothingDirty(State());
      SameLogicalChain(old(State()), s0, State());
    }

    /** get_next_nat_page: the twin becomes current; nothing stored changes. */
    method TakeTwin(k: nat, ghost t0: Table<NodeInfo>, ghost moved: set<nat>)
      requires Valid() && k < t.nblocks
      requires t0.Valid() && OldCopiesKept(t0, t, moved) && k !in moved
      modifies this`t
      ensures Valid() && SameLogical(old(State()), State()) && OldCopiesKept(t0, t, moved + {k})
      ensures t.journal == old(t).journal && t.cap == old(t).cap && t.per == old(t).per && t.nblocks == old(t).nblocks
      ensures State().DirtyNids() == old(State()).DirtyNids()
      ensures OldCopiesKept(t0, t, moved + {k})
    {
      SwitchStored(t, k);
      SwitchKeepsOld(t0, t, moved, k);
      NewTableKeeps(State(), Switch(t, k));
      t := Switch(t, k);
    }
  }

  /** Of the set's list, the first i nids are clean unless reserved, the rest still dirty. */
  ghost predicate ListProgress(s0: Nat, s: Nat, list: seq<nat>, i: nat, k: nat)
    requires 0 < s0.t.per
  {
    && NoDup(list)
    && (forall j :: 0 <= j < |list| ==> list[j] in s0.cache && list[j] / s0.t.per == k)
    && (forall j :: i <= j < |list| ==> list[j] in s.DirtyNids())
    && (forall j :: 0 <= j < i && j < |list| ==> (list[j] in s.DirtyNids() <==> s0.cache[list[j]].info.blk.NewAddr?))
    && s.DirtyNids() <= s0.DirtyNids()
    && s.sets.Keys == s0.sets.Keys && (forall j :: j in s.sets && j != k ==> s.sets[j] == s0.sets[j])
    && SameInfos(s0.cache, s.cache)
  }

  /** The journal still has room for what is left of the list, or was never used for it. */
  ghost predicate JournalProgress(s0: Nat, s: Nat, left: nat, k: nat, toJournal: bool)
    requires 0 < s.t.per
  {
    && s.t.cap == s0.t.cap
    && (if toJournal then |s.t.journal| + left <= s.t.cap else NoneOfBlock(s.t, k))
    && |s.DirtyNids()| + |s.t.journal| <= |s0.DirtyNids()| + |s0.t.journal|
    && JournalOnlyGains(s0.t, s.t, k)
  }

  /** The first i nids of the set's list have been dealt with since s0. */
  ghost predicate Progress(s0: Nat, s: Nat, list: seq<nat>, i: nat, k: nat, toJournal: bool) {
    && i <= |list|
    && s0.t.Valid() && s.Valid() && SameLogical(s0, s)
    && ListProgress(s0, s, list, i, k) && JournalProgress(s0, s, |list| - i, k, toJournal)
  }

  lemma ListStep(s0: Nat, b: Nat, s: Nat, list: seq<nat>, i: nat, k: nat)
    requires 0 < s0.t.per == b.t.per && i < |list| && ListProgress(s0, b, list, i, k)
    requires !s0.cache[list[i]].info.blk.NewAddr? && FlushedOne(b, s, list[i])
    ensures ListProgress(s0, s, list, i + 1, k)
  {
  }

  /** A reserved nid is passed over. */
  lemma SkipStep(s0: Nat, s: Nat, list: seq<nat>, i: nat, k: nat, toJournal: bool)
    requires i < |list| && Progress(s0, s, list, i, k, toJournal) && s0.cache[list[i]].info.blk.NewAddr?
    ensures Progress(s0, s, list, i + 1, k, toJournal)
  {
  }

  lemma JournalStep(s0: Nat, b: Nat, s: Nat, left: nat, nid: nat, k: nat, toJournal: bool)
    requires 0 < b.t.per == s.t.per && left > 0 && JournalProgress(s0, b, left, k, toJournal)
    requires DistinctKeys(b.t.journal) && nid in b.DirtyNids() && nid / b.t.per == k && nid in b.cache
    requires s.t.cap == b.t.cap && s.DirtyNids() == b.DirtyNids() - {nid}
    requires s.t.journal == if toJournal then Put(b.t.journal, nid, b.cache[nid].info) else b.t.journal
    ensures JournalProgress(s0, s, left - 1, k, toJournal)
  {
    var v := b.cache[nid].info;
    if toJournal {
      PutLookup(b.t.journal, nid, v, nid);
    }
    PutGains(s0.t, b.t, s.t, k, nid, v, toJournal);
    OneFewer(b.DirtyNids(), nid);
  }

  lemma ProgressStep(s0: Nat, b: Nat, s: Nat, list: seq<nat>, i: nat, k: nat, toJournal: bool)
    requires i < |list| && Progress(s0, b, list, i, k, toJournal) && !b.cache[list[i]].info.blk.NewAddr?
    requires s.Valid() && SameLogical(b, s) && s.t.cap == b.t.cap && FlushedOne(b, s, list[i])
    requires s.t.journal == if toJournal then Put(b.t.journal, list[i], b.cache[list[i]].info) else b.t.journal
    ensures Progress(s0, s, list, i + 1, k, toJournal)
  {
    SameLogicalChain(s0, b, s);
    ListStep(s0, b, s, list, i, k);
    JournalStep(s0, b, s, |list| - i, list[i], k, toJournal);
  }

  lemma StartProgress(s: Nat, list: seq<nat>, k: nat, toJournal: bool)
    requires s.Valid() && k in s.sets && list == s.sets[k]
    requires if toJournal then |s.t.journal| + |list| <= s.t.cap else NoneOfBlock(s.t, k)
    ensures Progress(s, s, list, 0, k, toJournal)
  {
    SetMembers(s, k);
    forall j | 0 <= j < |list|
      ensures list[j] in s.cache && list[j] / s.t.per == k && list[j] in s.DirtyNids()
    {
      assert list[j] in list;
    }
    FoundInItself(s.t, k);
  }

  lemma OneFewer(m: set<nat>, x: nat)
    requires x in m
    ensures |m - {x}| == |m| - 1
  {
  }

  /** From s to r exactly nid stopped being dirty. */
  ghost predicate FlushedOne(s: Nat, r: Nat, nid: nat)
    requires 0 < s.t.per
  {
    && r.DirtyNids() == s.DirtyNids() - {nid}
    && r.sets.Keys == s.sets.Keys && (forall k :: k in s.sets && k != nid / s.t.per ==> r.sets[k] == s.sets[k])
    && SameInfos(s.cache, r.cache)
  }

  /** A set lists exactly the dirty nids of its block. */
  lemma SetMembers(s: Nat, k: nat)
    requires s.Valid() && k in s.sets
    ensures NoDup(s.sets[k])
    ensures forall nid :: nid in s.sets[k] <==> nid in s.DirtyNids() && nid / s.t.per == k
  {
    assert s.SetOk(k);
    forall nid ensures nid in s.sets[k] <==> nid in s.DirtyNids() && nid / s.t.per == k {
      if nid in s.sets[k] {
        assert s.Dirty(nid);
      }
      if nid in s.DirtyNids() && nid / s.t.per == k {
        assert s.Dirty(nid) && s.Listed(nid);
      }
    }
  }

  ghost predicate SameInfos(a: map<nat, NatEntry>, b: map<nat, NatEntry>) {
    a.Keys == b.Keys && forall x :: x in a ==> b[x].info == a[x].info
  }

  /** A table that stores the same leaves the manager valid. */
  lemma NewTableKeeps(s: Nat, t: Table<NodeInfo>)
    requires s.Valid() && t.Valid() && t.nblocks == s.t.nblocks && t.per == s.t.per
    requires forall x :: 0 <= x < t.nblocks * t.per ==> t.Stored(x) == s.t.Stored(x)
    ensures s.(t := t).Valid() && SameLogical(s, s.(t := t)) && s.(t := t).DirtyNids() == s.DirtyNids()
  {
    var r := s.(t := t);
    assert r.DirtyNids() == s.DirtyNids();
    forall x | r.Dirty(x) ensures r.Listed(x) {
      assert s.Dirty(x) && s.Listed(x);
    }
    forall k | k in r.sets ensures r.SetOk(k) {
      assert s.SetOk(k);
      forall x | x in r.sets[k] ensures r.Dirty(x) { assert s.Dirty(x); }
    }
    forall x | r.Clean(x) ensures r.cache[x].info == r.t.Stored(x) {
      assert s.Clean(x);
    }
    forall x ensures x in r.cleanList <==> r.Clean(x) {
      assert x in s.cleanList <==> s.Clean(x);
    }
  }

  lemma InsertedOrder(order: seq<nat>, i: nat, k: nat)
    requires NoDup(order) && k !in order && i <= |order|
    ensures var r := order[..i] + [k] + order[i..]; NoDup(r) && forall x :: x in r <==> x in order || x == k
  {
    var r := order[..i] + [k] + order[i..];
    assert order == order[..i] + order[i..];
    forall a, b | 0 <= a < b < |r| ensures r[a] != r[b] {
      assert a != i ==> r[a] == order[if a < i then a else a - 1];
      assert b != i ==> r[b] == order[if b < i then b else b - 1];
    }
  }

  function AtMost(n: nat, max: nat): nat { if n < max then n else max }

  /** Sets in order of size, sizes counted only as far as the journal's room. */
  ghost predicate Ascending(sets: map<nat, seq<nat>>, order: seq<nat>, max: nat)
    requires forall x :: x in order ==> x in sets
  {
    forall i, j :: 0 <= i < j < |order| ==> AtMost(|sets[order[i]]|, max) <= AtMost(|sets[order[j]]|, max)
  }

  /** No node in the whole map is reserved without a block: what a checkpoint
      establishes by writing all dirty nodes first. */
  ghost predicate NoneReserved(s: Nat) {
    s.t.Valid() && forall nid: nat :: s.InRange(nid) ==> !s.Logical(nid).blk.NewAddr?
  }

  /** Either the journal has room for all that is dirty, or what it holds
      belongs to no set still waiting. */
  ghost predicate Room(s: Nat)
    requires 0 < s.t.per
  {
    || |s.DirtyNids()| + |s.t.journal| <= s.t.cap
    || forall m :: 0 <= m < |s.t.journal| ==> s.t.journal[m].0 / s.t.per !in s.sets
  }

  lemma RoomForSet(s: Nat, k: nat)
    requires s.Valid() && k in s.sets && Room(s)
    ensures |s.sets[k]| > s.t.cap - |s.t.journal| ==> NoneOfBlock(s.t, k)
    ensures k < s.t.nblocks
  {
    assert s.SetOk(k);
    SetMembers(s, k);
    ListWithinSet(s.sets[k], s.DirtyNids());
  }

  lemma RoomAfterSet(s: Nat, r: Nat, k: nat)
    requires 0 < s.t.per == r.t.per && s.t.cap == r.t.cap && Room(s)
    requires |r.DirtyNids()| + |r.t.journal| <= |s.DirtyNids()| + |s.t.journal|
    requires JournalOnlyGains(s.t, r.t, k) && r.sets == s.sets - {k}
    ensures Room(r)
  {
    if |r.DirtyNids()| + |r.t.journal| > r.t.cap {
      forall m | 0 <= m < |r.t.journal|
        ensures r.t.journal[m].0 / r.t.per !in r.sets
      {
        var key := r.t.journal[m].0;
        if key / r.t.per != k {
          assert s.t.journal[Lookup(s.t.journal, key)].0 == key;
        }
      }
    }
  }

  lemma NoReservedSet(s: Nat, k: nat)
    requires s.Valid() && NoneReserved(s) && k in s.sets
    ensures !HasReserved(s, s.sets[k])
  {
    SetMembers(s, k);
    forall nid | nid in s.sets[k] && nid in s.cache
      ensures !s.cache[nid].info.blk.NewAddr?
    {
      assert s.InRange(nid);
      assert s.Logical(nid) == s.cache[nid].info;
    }
  }

  lemma SplitOrder(order: seq<nat>, i: nat)
    requires i < |order| && NoDup(order)
    ensures order[i] in order[i..] && order[i] !in order[..i]
    ensures forall k :: k in order[i..] <==> k in order[i + 1..] || k == order[i]
    ensures order[i] !in order[i + 1..]
    ensures forall k :: k in order[..i + 1] <==> k in order[..i] || k == order[i]
  {
    assert order[i..] == [order[i]] + order[i + 1..];
    assert order[..i + 1] == order[..i] + [order[i]];
  }

  lemma NothingListed(s: Nat)
    requires s.Valid() && forall k :: k !in s.sets
    ensures s.DirtyNids() == {} && s.dirtyCnt == 0
  {
    forall nid: nat ensures nid !in s.DirtyNids() {
      assert s.Dirty(nid) ==> s.Listed(nid);
    }
    assert s.DirtyNids() == {};
  }

  /** With nothing dirty, the stored table is the logical map. */
  lemma NothingDirty(s: Nat)
    requires s.Valid() && s.dirtyCnt == 0
    ensures s.DirtyNids() == {}
    ensures forall nid: nat :: s.InRange(nid) ==> s.t.Stored(nid) == s.Logical(nid)
  {
    assert s.DirtyNids() == {};
    forall nid: nat | s.InRange(nid) ensures s.t.Stored(nid) == s.Logical(nid) {
      if nid in s.cache {
        assert nid !in s.DirtyNids();
        assert s.Clean(nid);
      }
    }
  }

  /** Some nid of the list is reserved but has no block yet. */
  ghost predicate HasReserved(s: Nat, list: seq<nat>) {
    exists nid :: nid in list && nid in s.cache && s.cache[nid].info.blk.NewAddr?
  }

  /** left holds exactly those nids of the list. */
  ghost predicate OnlyReserved(s: Nat, list: seq<nat>, left: seq<nat>) {
    NoDup(left) && forall nid :: nid in left <==> nid in list && nid in s.cache && s.cache[nid].info.blk.NewAddr?
  }

  /** After the loop the set's list holds exactly its reserved nids. */
  lemma LeftOver(s0: Nat, s: Nat, k: nat, toJournal: bool)
    requires s0.Valid() && k in s0.sets && Progress(s0, s, s0.sets[k], |s0.sets[k]|, k, toJournal)
    ensures k in s.sets && (|s.sets[k]| > 0 <==> HasReserved(s0, s0.sets[k]))
    ensures OnlyReserved(s0, s0.sets[k], s.sets[k])
    ensures s.sets - {k} == s0.sets - {k}
  {
    var list := s0.sets[k];
    SetMembers(s0, k);
    SetMembers(s, k);
    forall nid ensures nid in s.sets[k] <==> nid in list && nid in s0.cache && s0.cache[nid].info.blk.NewAddr? {
      if nid in list {
        var j :| 0 <= j < |list| && list[j] == nid;
      }
    }
    if |s.sets[k]| > 0 {
      assert s.sets[k][0] in s.sets[k];
    }
  }

  /** Marking dirty and rewriting an entry: the logical map changes at that nid only. */
  lemma DirtyRewriteKeeps(s: Nat, nid: nat, e: NatEntry)
    requires s.Valid() && nid in s.cache && e.dirty
    ensures var r := Rewrite(MarkDirty(s, nid), nid, e);
            && r.Valid() && nid in r.DirtyNids() && r.Logical(nid) == e.info
            && r.t == s.t && forall x: nat :: s.InRange(x) && x != nid ==> r.Logical(x) == s.Logical(x)
  {
    var m := MarkDirty(s, nid);
    MarkDirtyKeeps(s, nid);
    assert nid in m.DirtyNids();
    RewriteKeeps(m, nid, e);
    assert Rewrite(m, nid, e).cache[nid] == e;
  }

  /** Rewriting first and marking dirty second comes to the same. */
  lemma RewriteCommutes(s: Nat, nid: nat, e: NatEntry)
    requires nid in s.cache && 0 < s.t.per && e.dirty == s.cache[nid].dirty
    ensures MarkDirty(Rewrite(s, nid, e), nid) == Rewrite(MarkDirty(s, nid), nid, e.(dirty := true))
  {
    assert s.cache[nid := e][nid := e.(dirty := true)] == s.cache[nid := s.cache[nid].(dirty := true)][nid := e.(dirty := true)];
    assert s.cache[nid := e][nid := e] == s.cache[nid := e];
  }

  lemma ReflagKeeps(s: Nat, nid: nat, e: NatEntry)
    requires s.Valid() && nid in s.cache && e.info == s.cache[nid].info && e.dirty == s.cache[nid].dirty
    ensures Rewrite(s, nid, e).Valid() && SameLogical(s, Rewrite(s, nid, e))
    ensures Rewrite(s, nid, e).DirtyNids() == s.DirtyNids()
  {
    var r := Rewrite(s, nid, e);
    assert r.DirtyNids() == s.DirtyNids();
    assert r.cache.Keys == s.cache.Keys;
    forall x | r.Dirty(x) ensures r.Listed(x) {
      assert s.Dirty(x) && s.Listed(x);
    }
    forall k | k in r.sets ensures r.SetOk(k) {
      assert s.SetOk(k);
      forall x | x in r.sets[k] ensures r.Dirty(x) { assert s.Dirty(x); }
    }
    forall x | r.Clean(x) ensures r.cache[x].info == r.t.Stored(x) {
      assert s.Clean(x);
    }
    forall x ensures x in r.cleanList <==> r.Clean(x) {
      assert x in s.cleanList <==> s.Clean(x);
    }
  }

  /** A journal entry is what is stored for its nid. */
  lemma JournalEntryStored(t: Table<NodeInfo>, i: nat)
    requires t.Valid() && i < |t.journal|
    ensures t.journal[i].0 < t.nblocks * t.per && t.Stored(t.journal[i].0) == t.journal[i].1
  {
    FoundAt(t.journal, t.journal[i].0, i);
  }
}
