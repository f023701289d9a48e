/** The SIT as a journal over twin blocks: flush_sit_entries and its entry sets
    (fs/f2fs/segment.c), next to the in-memory entries it writes out. */
module SitTable {
  import opened Division
  import opened ShadowTable

  function Of(m: set<nat>, f: nat -> nat, k: nat): set<nat> {
    set s | s in m && f(s) == k
  }

  ghost predicate DistinctBlocks(sets: seq<(nat, nat)>) {
    forall i, j :: 0 <= i < j < |sets| ==> sets[i].0 != sets[j].0
  }

  ghost predicate Ascending(sets: seq<(nat, nat)>) {
    forall i, j :: 0 <= i < j < |sets| ==> sets[i].1 <= sets[j].1
  }

  ghost predicate HasBlock(sets: seq<(nat, nat)>, k: nat) {
    exists i :: 0 <= i < |sets| && sets[i].0 == k
  }

  /** The entry sets count the members of m block by block, smallest set first. */
  ghost predicate SetsFor(sets: seq<(nat, nat)>, m: set<nat>, f: nat -> nat)
  {
    && DistinctBlocks(sets) && Ascending(sets)
    && (forall i :: 0 <= i < |sets| ==> sets[i].1 == |Of(m, f, sets[i].0)|)
    && (forall s :: s in m ==> HasBlock(sets, f(s)))
  }

  lemma OfAdd(m: set<nat>, f: nat -> nat, s: nat, k: nat)
    requires s !in m
    ensures |Of(m + {s}, f, k)| == |Of(m, f, k)| + (if f(s) == k then 1 else 0)
  {
    if f(s) == k {
      assert Of(m + {s}, f, k) == Of(m, f, k) + {s};
    } else {
      assert Of(m + {s}, f, k) == Of(m, f, k);
    }
  }

  /** sets with entry i's count raised and moved right to its place j. */
  function Moved(sets: seq<(nat, nat)>, i: nat, j: nat): seq<(nat, nat)>
    requires i < j <= |sets|
  {
    sets[..i] + sets[i + 1..j] + [(sets[i].0, sets[i].1 + 1)] + sets[j..]
  }

  lemma MovedBlocks(sets: seq<(nat, nat)>, i: nat, j: nat, k: nat)
    requires i < j <= |sets|
    ensures HasBlock(Moved(sets, i, j), k) <==> HasBlock(sets, k)
  {
    var r := Moved(sets, i, j);
    if HasBlock(sets, k) {
      var a :| 0 <= a < |sets| && sets[a].0 == k;
      assert a < i ==> r[a] == sets[a];
      assert i < a < j ==> r[a - 1] == sets[a];
      assert a == i ==> r[j - 1].0 == k;
      assert j <= a ==> r[a] == sets[a];
    }
    if HasBlock(r, k) {
      var a :| 0 <= a < |r| && r[a].0 == k;
      assert a < i ==> sets[a] == r[a];
      assert i <= a < j - 1 ==> sets[a + 1] == r[a];
      assert a == j - 1 ==> sets[i].0 == k;
      assert j <= a ==> sets[a] == r[a];
    }
  }

  lemma MovedAt(sets: seq<(nat, nat)>, i: nat, j: nat)
    requires i < j <= |sets|
    ensures |Moved(sets, i, j)| == |sets|
    ensures forall a :: 0 <= a < |sets| ==>
              Moved(sets, i, j)[a] ==
              (if a == j - 1 then (sets[i].0, sets[i].1 + 1) else if i <= a < j - 1 then sets[a + 1] else sets[a])
  {
  }

  lemma MovedOrder(sets: seq<(nat, nat)>, i: nat, j: nat)
    requires i < j <= |sets| && DistinctBlocks(sets) && Ascending(sets)
    requires forall a :: i < a < j ==> sets[a].1 < sets[i].1 + 1
    requires j < |sets| ==> sets[i].1 + 1 <= sets[j].1
    ensures DistinctBlocks(Moved(sets, i, j)) && Ascending(Moved(sets, i, j))
  {
    MovedAt(sets, i, j);
    var r := Moved(sets, i, j);
    forall a, b | 0 <= a < b < |r|
      ensures r[a].0 != r[b].0 && r[a].1 <= r[b].1
    {
    }
  }

  lemma MovedSets(sets: seq<(nat, nat)>, i: nat, j: nat, m: set<nat>, f: nat -> nat, s: nat)
    requires SetsFor(sets, m, f) && s !in m
    requires i < j <= |sets| && sets[i].0 == f(s)
    requires forall a :: i < a < j ==> sets[a].1 < sets[i].1 + 1
    requires j < |sets| ==> sets[i].1 + 1 <= sets[j].1
    ensures SetsFor(Moved(sets, i, j), m + {s}, f)
  {
    var r := Moved(sets, i, j);
    MovedAt(sets, i, j);
    MovedOrder(sets, i, j);
    forall a | 0 <= a < |r|
      ensures r[a].1 == |Of(m + {s}, f, r[a].0)|
    {
      OfAdd(m, f, s, r[a].0);
      assert a != j - 1 ==> r[a].0 != sets[i].0;
    }
    forall x | x in m + {s} ensures HasBlock(r, f(x)) {
      assert x == s ==> HasBlock(sets, f(x));
      MovedBlocks(sets, i, j, f(x));
    }
  }

  lemma NewSet(sets: seq<(nat, nat)>, m: set<nat>, f: nat -> nat, s: nat)
    requires SetsFor(sets, m, f) && s !in m && !HasBlock(sets, f(s))
    requires Counted(sets)
    ensures SetsFor([(f(s), 1)] + sets, m + {s}, f)
  {
    var r := [(f(s), 1)] + sets;
    OfAdd(m, f, s, f(s));
    assert Of(m, f, f(s)) == {} by {
      forall x | x in m ensures f(x) != f(s) {
        assert HasBlock(sets, f(x));
      }
    }
    forall a | 0 <= a < |r|
      ensures r[a].1 == |Of(m + {s}, f, r[a].0)|
    {
      OfAdd(m, f, s, r[a].0);
    }
    forall x | x in m + {s} ensures HasBlock(r, f(x)) {
      if x in m {
        var i :| 0 <= i < |sets| && sets[i].0 == f(x);
        assert r[i + 1].0 == f(x);
      } else {
        assert r[0].0 == f(x);
      }
    }
  }

  /** adjust_sit_entry_set: where set i belongs once its count is raised. */
  method AdjustSitEntrySet(sets: seq<(nat, nat)>, i: nat) returns (j: nat)
    requires i < |sets|
    ensures i < j <= |sets|
    ensures forall a :: i < a < j ==> sets[a].1 < sets[i].1 + 1
    ensures j < |sets| ==> sets[i].1 + 1 <= sets[j].1
  {
    j := i + 1;
    while j < |sets| && sets[j].1 < sets[i].1 + 1
      invariant i < j <= |sets|
      invariant forall a :: i < a < j ==> sets[a].1 < sets[i].1 + 1
    {
      j := j + 1;
    }
  }

  /** add_sit_entry: the segment's set grows by one and keeps its place in the order. */
  method AddSitEntry(sets: seq<(nat, nat)>, segno: nat, f: nat -> nat, ghost m: set<nat>) returns (r: seq<(nat, nat)>)
    requires SetsFor(sets, m, f) && segno !in m && Counted(sets)
    ensures SetsFor(r, m + {segno}, f) && Counted(r)
  {
    var i := 0;
    while i < |sets|
      invariant i <= |sets|
      invariant forall a :: 0 <= a < i ==> sets[a].0 != f(segno)
    {
      if sets[i].0 == f(segno) {
        var j := AdjustSitEntrySet(sets, i);
        MovedSets(sets, i, j, m, f, segno);
        MovedAt(sets, i, j);
        return Moved(sets, i, j);
      }
      i := i + 1;
    }
    NewSet(sets, m, f, segno);
    r := [(f(segno), 1)] + sets;
  }

  /** No set is empty. */
  ghost predicate Counted(sets: seq<(nat, nat)>) {
    forall i :: 0 <= i < |sets| ==> 0 < sets[i].1
  }

  // ----- the state -----

  datatype Sit<V> = Sit(sentries: seq<V>, dirty: set<nat>, nDirty: int, t: Table<V>)
  {
    /** A clean entry is stored as it is in memory. */
    ghost predicate Valid() {
      && t.Valid() && |sentries| <= t.nblocks * t.per
      && (forall i :: i in dirty ==> i < |sentries|)
      && nDirty == |dirty|
      && (forall k :: 0 <= k < |t.journal| ==> t.journal[k].0 < |sentries|)
      && (forall i :: 0 <= i < |sentries| && i !in dirty ==> t.Stored(i) == sentries[i])
    }
  }

  function Marked<V>(s: Sit<V>, segno: nat): Sit<V> {
    if segno in s.dirty then s else s.(dirty := s.dirty + {segno}, nDirty := s.nDirty + 1)
  }

  lemma MarkedKeeps<V>(s: Sit<V>, segno: nat)
    requires s.Valid() && segno < |s.sentries|
    ensures Marked(s, segno).Valid()
  {
  }

  /** The entry of segno is now what t2 stores; everything else is stored as before. */
  lemma WrittenKeeps<V>(s: Sit<V>, segno: nat, t2: Table<V>)
    requires s.Valid() && segno in s.dirty
    requires t2.Valid() && t2.nblocks == s.t.nblocks && t2.per == s.t.per
    requires forall x :: 0 <= x < t2.nblocks * t2.per ==> t2.Stored(x) == (if x == segno then s.sentries[segno] else s.t.Stored(x))
    requires forall k :: 0 <= k < |t2.journal| ==> t2.journal[k].0 < |s.sentries|
    ensures s.(dirty := s.dirty - {segno}, nDirty := s.nDirty - 1, t := t2).Valid()
  {
  }

  /** Dropping a journal whose segments are all dirty loses nothing that counts. */
  lemma SpilledKeeps<V>(s: Sit<V>)
    requires s.Valid() && forall k :: 0 <= k < |s.t.journal| ==> s.t.journal[k].0 in s.dirty
    ensures s.(t := s.t.(journal := [])).Valid()
  {
    var r := s.(t := s.t.(journal := []));
    forall i | 0 <= i < |r.sentries| && i !in r.dirty
      ensures r.t.Stored(i) == r.sentries[i]
    {
      assert Lookup(s.t.journal, i) == |s.t.journal|;
    }
  }

  /** SIT_BLOCK_OFFSET. */
  function BlockFn(per: nat): nat -> nat
    requires 0 < per
  {
    (s: nat) => s / per
  }

  /** No journal entry belongs to one of the sets still to come. */
  ghost predicate Apart<V>(s: Sit<V>, rest: seq<(nat, nat)>)
    requires 0 < s.t.per
  {
    forall m :: 0 <= m < |s.t.journal| ==> !HasBlock(rest, BlockFn(s.t.per)(s.t.journal[m].0))
  }

  /** Either the journal has room for all that is dirty, or it holds nothing of
      the sets still to come; once blocks are used only the latter will do. */
  ghost predicate Room<V>(s: Sit<V>, rest: seq<(nat, nat)>, toJournal: bool)
    requires 0 < s.t.per
  {
    (toJournal && |s.dirty| + |s.t.journal| <= s.t.cap) || Apart(s, rest)
  }

  /** The sets still to come cover exactly what is dirty. */
  ghost predicate Covers<V>(s: Sit<V>, rest: seq<(nat, nat)>)
    requires 0 < s.t.per
  {
    SetsFor(rest, s.dirty, BlockFn(s.t.per))
  }

  lemma OfBound(m: set<nat>, f: nat -> nat, k: nat)
    ensures |Of(m, f, k)| <= |m|
  {
    assert m == Of(m, f, k) + (m - Of(m, f, k));
  }

  /** Dropping the first set and its members leaves the sets of the rest. */
  lemma RestCovers(rest: seq<(nat, nat)>, m: set<nat>, f: nat -> nat)
    requires rest != [] && SetsFor(rest, m, f)
    ensures SetsFor(rest[1..], m - Of(m, f, rest[0].0), f)
    ensures !HasBlock(rest[1..], rest[0].0)
    ensures forall k :: HasBlock(rest, k) <==> k == rest[0].0 || HasBlock(rest[1..], k)
  {
    var k := rest[0].0;
    var m2 := m - Of(m, f, k);
    var r := rest[1..];
    forall i | 0 <= i < |r|
      ensures r[i].1 == |Of(m2, f, r[i].0)|
    {
      assert r[i] == rest[i + 1] && r[i].0 != k;
      assert Of(m2, f, r[i].0) == Of(m, f, r[i].0);
    }
    forall j ensures HasBlock(rest, j) <==> j == k || HasBlock(r, j) {
      if HasBlock(rest, j) {
        var i :| 0 <= i < |rest| && rest[i].0 == j;
        assert i > 0 ==> r[i - 1].0 == j;
      }
      if HasBlock(r, j) {
        var i :| 0 <= i < |r| && r[i].0 == j;
        assert rest[i + 1].0 == j;
      }
    }
    forall s | s in m2 ensures HasBlock(r, f(s)) {
      assert HasBlock(rest, f(s));
    }
  }

  // ----- one set -----

  lemma InBlock(per: nat, k: nat, segno: nat)
    requires 0 < per
    ensures BlockFn(per)(segno) == k <==> k * per <= segno < k * per + per
  {
    if k * per <= segno < k * per + per {
      DivUnique(segno, per, k, segno - k * per);
    }
  }

  /** Since s0 the dirty entries of block k below segno have been written out. */
  ghost predicate Written<V>(s0: Sit<V>, s: Sit<V>, k: nat, segno: nat)
    requires 0 < s0.t.per
  {
    && s.sentries == s0.sentries
    && s.t.cap == s0.t.cap && s.t.per == s0.t.per && s.t.nblocks == s0.t.nblocks
    && s.dirty <= s0.dirty
    && forall x :: x in s0.dirty ==> (x in s.dirty <==> !(BlockFn(s0.t.per)(x) == k && x < segno))
  }

  /** The journal has room for the rest of the block, or is left alone. */
  ghost predicate JournalProgress<V>(s0: Sit<V>, s: Sit<V>, k: nat, toJournal: bool)
    requires 0 < s0.t.per == s.t.per
  {
    && JournalOnlyGains(s0.t, s.t, k)
    && |s.dirty| + |s.t.journal| <= |s0.dirty| + |s0.t.journal|
    && if toJournal then |s.t.journal| + |Of(s.dirty, BlockFn(s.t.per), k)| <= s.t.cap
       else s.t.journal == s0.t.journal && NoneOfBlock(s.t, k)
  }

  ghost predicate Progress<V>(s0: Sit<V>, s: Sit<V>, k: nat, segno: nat, toJournal: bool) {
    s0.Valid() && s.Valid() && Written(s0, s, k, segno) && JournalProgress(s0, s, k, toJournal)
  }

  /** What flush_sit_entries does with one dirty entry. */
  function Written1<V>(s: Sit<V>, segno: nat, t2: Table<V>): Sit<V> {
    s.(dirty := s.dirty - {segno}, nDirty := s.nDirty - 1, t := t2)
  }

  lemma SkipStep<V>(s0: Sit<V>, s: Sit<V>, k: nat, segno: nat, toJournal: bool)
    requires Progress(s0, s, k, segno, toJournal) && segno !in s.dirty
    ensures Progress(s0, s, k, segno + 1, toJournal)
  {
  }

  lemma JournalStep<V>(s0: Sit<V>, b: Sit<V>, s: Sit<V>, k: nat, segno: nat, toJournal: bool)
    requires 0 < s0.t.per == s.t.per == b.t.per && JournalProgress(s0, b, k, toJournal) && b.t.Valid()
    requires segno in b.dirty && BlockFn(b.t.per)(segno) == k && segno < |b.sentries|
    requires s.dirty == b.dirty - {segno} && s.t.cap == b.t.cap
    requires s.t.journal == if toJournal then Put(b.t.journal, segno, b.sentries[segno]) else b.t.journal
    ensures JournalProgress(s0, s, k, toJournal)
  {
    var v := b.sentries[segno];
    if toJournal {
      PutLookup(b.t.journal, segno, v, segno);
    }
    PutGains(s0.t, b.t, s.t, k, segno, v, toJournal);
    assert |s.dirty| == |b.dirty| - 1;
    OfAdd(s.dirty, BlockFn(s.t.per), segno, k);
    assert s.dirty + {segno} == b.dirty;
  }

  lemma EntryStep<V>(s0: Sit<V>, b: Sit<V>, s: Sit<V>, k: nat, segno: nat, toJournal: bool)
    requires Progress(s0, b, k, segno, toJournal) && segno in b.dirty && BlockFn(b.t.per)(segno) == k
    requires s == Written1(b, segno, s.t) && s.Valid()
    requires s.t.cap == b.t.cap && s.t.per == b.t.per && s.t.nblocks == b.t.nblocks
    requires s.t.journal == if toJournal then Put(b.t.journal, segno, b.sentries[segno]) else b.t.journal
    ensures Progress(s0, s, k, segno + 1, toJournal)
  {
    JournalStep(s0, b, s, k, segno, toJournal);
  }

  lemma PutInRange<V>(j: seq<(nat, V)>, key: nat, v: V, n: nat)
    requires key < n && forall k :: 0 <= k < |j| ==> j[k].0 < n
    ensures forall k :: 0 <= k < |Put(j, key, v)| ==> Put(j, key, v)[k].0 < n
  {
  }

  /** A journal with room for one more of the block has room for this one. */
  lemma RoomForEntry<V>(s0: Sit<V>, s: Sit<V>, k: nat, segno: nat)
    requires Progress(s0, s, k, segno, true) && segno in s.dirty && BlockFn(s.t.per)(segno) == k
    ensures |s.t.journal| < s.t.cap
  {
    assert segno in Of(s.dirty, BlockFn(s.t.per), k);
  }

  lemma NotJournalled<V>(t: Table<V>, k: nat, key: nat)
    requires 0 < t.per && NoneOfBlock(t, k) && BlockFn(t.per)(key) == k
    ensures Lookup(t.journal, key) == |t.journal|
  {
    forall m | 0 <= m < |t.journal| ensures t.journal[m].0 != key {
      assert t.journal[m].0 / t.per != k;
    }
  }

  /** Once all of block k is written, the sets that remain cover what is dirty. */
  lemma SetDone<V>(s0: Sit<V>, s: Sit<V>, rest: seq<(nat, nat)>, end: nat, toJournal: bool)
    requires rest != [] && s0.Valid() && Covers(s0, rest) && Room(s0, rest, toJournal)
    requires Progress(s0, s, rest[0].0, end, toJournal)
    requires forall x :: x in s0.dirty && BlockFn(s0.t.per)(x) == rest[0].0 ==> x < end
    ensures Covers(s, rest[1..]) && Room(s, rest[1..], toJournal)
  {
    var k := rest[0].0;
    var f := BlockFn(s0.t.per);
    RestCovers(rest, s0.dirty, f);
    assert s.dirty == s0.dirty - Of(s0.dirty, f, k);
    if Apart(s0, rest) {
      forall m | 0 <= m < |s.t.journal|
        ensures !HasBlock(rest[1..], f(s.t.journal[m].0))
      {
        var key := s.t.journal[m].0;
        if f(key) != k {
          assert s0.t.journal[Lookup(s0.t.journal, key)].0 == key;
        }
      }
    }
  }

  /** Starting on the first set: its room in the journal is what the code tests. */
  lemma SetStarts<V>(s: Sit<V>, rest: seq<(nat, nat)>, was: bool, toJournal: bool, start: nat)
    requires rest != [] && s.Valid() && Covers(s, rest) && Room(s, rest, was)
    requires toJournal <==> was && rest[0].1 <= s.t.cap - |s.t.journal|
    requires start == rest[0].0 * s.t.per
    ensures Room(s, rest, toJournal) && Progress(s, s, rest[0].0, start, toJournal)
    ensures !toJournal ==> NoneOfBlock(s.t, rest[0].0)
  {
    var k := rest[0].0;
    var f := BlockFn(s.t.per);
    assert rest[0].1 == |Of(s.dirty, f, k)|;
    OfBound(s.dirty, f, k);
    FoundInItself(s.t, k);
    assert HasBlock(rest, k);
    forall x | x in s.dirty ensures !(f(x) == k && x < start) {
      InBlock(s.t.per, k, x);
    }
    if !toJournal {
      assert Apart(s, rest);
      forall m | 0 <= m < |s.t.journal| ensures s.t.journal[m].0 / s.t.per != k {
        assert !HasBlock(rest, f(s.t.journal[m].0));
      }
    }
  }

  lemma SwitchedKeeps<V>(s: Sit<V>, t2: Table<V>)
    requires s.Valid() && t2.Valid() && t2.nblocks == s.t.nblocks && t2.per == s.t.per && t2.journal == s.t.journal
    requires forall x :: 0 <= x < t2.nblocks * t2.per ==> t2.Stored(x) == s.t.Stored(x)
    ensures s.(t := t2).Valid()
  {
  }

  /** A set's block exists. */
  lemma SetInTable<V>(s: Sit<V>, rest: seq<(nat, nat)>)
    requires rest != [] && s.Valid() && Covers(s, rest) && Counted(rest)
    ensures rest[0].0 < s.t.nblocks
  {
    var m := Of(s.dirty, BlockFn(s.t.per), rest[0].0);
    assert rest[0].1 == |m|;
    assert m != {};
    var x :| x in m;
    BlockOf(s.t.per, s.t.nblocks, x);
  }

  /** The journal's entries from i on are all dirty in memory. */
  ghost predicate Spilling<V>(s0: Sit<V>, s: Sit<V>, sets: seq<(nat, nat)>, i: nat) {
    && s.t == s0.t && s.sentries == s0.sentries
    && s.Valid() && Covers(s, sets) && Counted(sets) && i <= |s.t.journal|
    && forall m :: i <= m < |s.t.journal| ==> s.t.journal[m].0 in s.dirty
  }

  lemma SpillingStep<V>(s0: Sit<V>, b: Sit<V>, s: Sit<V>, was: seq<(nat, nat)>, sets: seq<(nat, nat)>, i: nat)
    requires Spilling(s0, b, was, i + 1) && s == Marked(b, b.t.journal[i].0) && s.Valid()
    requires b.t.journal[i].0 in b.dirty ==> sets == was
    requires b.t.journal[i].0 !in b.dirty ==>
               SetsFor(sets, b.dirty + {b.t.journal[i].0}, BlockFn(b.t.per)) && Counted(sets)
    ensures Spilling(s0, s, sets, i)
  {
  }

  /** None of the blocks still to come has been switched. */
  ghost predicate Waiting(sets: seq<(nat, nat)>, moved: set<nat>) {
    forall k :: k in moved ==> !HasBlock(sets, k)
  }

  /** What each turn of the outer loop starts from. */
  ghost predicate Ready<V>(s: Sit<V>, sets: seq<(nat, nat)>, toJournal: bool) {
    s.Valid() && Covers(s, sets) && Counted(sets) && Room(s, sets, toJournal)
  }

  class Manager<V> {
    var sentries: seq<V>
    var dirty: set<nat>
    var nDirty: int
    var t: Table<V>
    var sets: seq<(nat, nat)>

    ghost function State(): Sit<V>
      reads this
    {
      Sit(sentries, dirty, nDirty, t)
    }

    ghost predicate Valid()
      reads this
    {
      State().Valid()
    }

    /** __mark_sit_entry_dirty: true if it was dirty already. */
    method MarkSitEntryDirty(segno: nat) returns (was: bool)
      requires Valid() && segno < |sentries|
      modifies this`dirty, this`nDirty
      ensures Valid() && State() == Marked(old(State()), segno)
      ensures was <==> segno in old(dirty)
    {
      MarkedKeeps(State(), segno);
      was := segno in dirty;
      if !was {
        dirty := dirty + {segno};
        nDirty := nDirty + 1;
      }
    }

    /** Any change of an entry goes with the dirty mark (update_sit_entry, __set_sit_entry_type). */
    method ChangeEntry(segno: nat, v: V)
      requires Valid() && segno < |sentries|
      modifies this`sentries, this`dirty, this`nDirty
      ensures Valid() && sentries == old(sentries)[segno := v] && dirty == old(dirty) + {segno}
    {
      var was := MarkSitEntryDirty(segno);
      sentries := sentries[segno := v];
    }

    /** add_sits_in_set. */
    method AddSitsInSet()
      requires Valid() && sets == []
      modifies this`sets
      ensures Covers(State(), sets) && Counted(sets)
    {
      ghost var done: set<nat> := {};
      var segno := 0;
      while segno < |sentries|
        invariant segno <= |sentries|
        invariant forall s: nat :: s in done <==> s in dirty && s < segno
        invariant SetsFor(sets, done, BlockFn(t.per)) && Counted(sets)
      {
        if segno in dirty {
          sets := AddSitEntry(sets, segno, BlockFn(t.per), done);
          done := done + {segno};
        }
        segno := segno + 1;
      }
      assert done == dirty;
    }

    /** The body of remove_sits_in_journal's loop. */
    method UnjournalEntry(i: nat, ghost s0: Sit<V>)
      requires Spilling(s0, State(), sets, i + 1)
      modifies this`dirty, this`nDirty, this`sets
      ensures Spilling(s0, State(), sets, i)
    {
      var segno := t.journal[i].0;
      ghost var b, before := State(), dirty;
      var dirtied := MarkSitEntryDirty(segno);
      ghost var was := sets;
      if !dirtied {
        sets := AddSitEntry(sets, segno, BlockFn(t.per), before);
      }
      SpillingStep(s0, b, State(), was, sets, i);
    }

    /** remove_sits_in_journal, from the last entry down. */
    method RemoveSitsInJournal()
      requires Valid() && Covers(State(), sets) && Counted(sets)
      modifies this`dirty, this`nDirty, this`sets, this`t
      ensures Valid() && Covers(State(), sets) && Counted(sets) && t == old(t).(journal := [])
    {
      var i := |t.journal|;
      while i > 0
        invariant 0 <= i && Spilling(old(State()), State(), sets, i)
      {
        i := i - 1;
        UnjournalEntry(i, old(State()));
      }
      SpilledKeeps(State());
      t := t.(journal := []);
    }

    /** The body of the inner loop for a dirty segment. */
    method FlushEntry(segno: nat, toJournal: bool, k: nat, ghost s0: Sit<V>, ghost t0: Table<V>, ghost moved: set<nat>)
      requires Progress(s0, State(), k, segno, toJournal) && segno in dirty && BlockFn(t.per)(segno) == k
      requires t0.Valid() && OldCopiesKept(t0, t, moved) && (toJournal || k in moved)
      modifies this`dirty, this`nDirty, this`t
      ensures Progress(s0, State(), k, segno + 1, toJournal) && OldCopiesKept(t0, t, moved)
    {
      ghost var b := State();
      WriteOut(segno, toJournal, k, s0, t0, moved);
      dirty := dirty - {segno};
      nDirty := nDirty - 1;
      EntryStep(s0, b, State(), k, segno, toJournal);
    }

    /** seg_info_to_raw_sit, into the journal or into the block switched to. */
    method WriteOut(segno: nat, toJournal: bool, k: nat, ghost s0: Sit<V>, ghost t0: Table<V>, ghost moved: set<nat>)
      requires Progress(s0, State(), k, segno, toJournal) && segno in dirty && BlockFn(t.per)(segno) == k
      requires t0.Valid() && OldCopiesKept(t0, t, moved) && (toJournal || k in moved)
      modifies this`t
      ensures t.Valid() && OldCopiesKept(t0, t, moved) && t.cap == old(t).cap && t.per == old(t).per && t.nblocks == old(t).nblocks
      ensures segno < |sentries| && t.journal == if toJournal then Put(old(t).journal, segno, sentries[segno]) else old(t).journal
      ensures Written1(old(State()), segno, t).Valid()
    {
      if toJournal {
        ToJournal(segno, k, s0, t0, moved);
      } else {
        ToBlock(segno, k, s0, t0, moved);
      }
    }

    method ToJournal(segno: nat, k: nat, ghost s0: Sit<V>, ghost t0: Table<V>, ghost moved: set<nat>)
      requires Progress(s0, State(), k, segno, true) && segno in dirty && BlockFn(t.per)(segno) == k
      requires t0.Valid() && OldCopiesKept(t0, t, moved)
      modifies this`t
      ensures t.Valid() && OldCopiesKept(t0, t, moved) && t.cap == old(t).cap && t.per == old(t).per && t.nblocks == old(t).nblocks
      ensures segno < |sentries| && t.journal == Put(old(t).journal, segno, sentries[segno])
      ensures Written1(old(State()), segno, t).Valid()
    {
      var v := sentries[segno];
      RoomForEntry(s0, State(), k, segno);
      JournalPutStored(t, segno, v);
      PutInRange(t.journal, segno, v, |sentries|);
      WrittenKeeps(State(), segno, JournalPut(t, segno, v));
      t := JournalPut(t, segno, v);
    }

    method ToBlock(segno: nat, k: nat, ghost s0: Sit<V>, ghost t0: Table<V>, ghost moved: set<nat>)
      requires Progress(s0, State(), k, segno, false) && segno in dirty && BlockFn(t.per)(segno) == k
      requires t0.Valid() && OldCopiesKept(t0, t, moved) && k in moved
      modifies this`t
      ensures t.Valid() && OldCopiesKept(t0, t, moved) && t.cap == old(t).cap && t.per == old(t).per && t.nblocks == old(t).nblocks
      ensures segno < |sentries| && t.journal == old(t).journal
      ensures Written1(old(State()), segno, t).Valid()
    {
      var v := sentries[segno];
      NotJournalled(t, k, segno);
      SetEntryStored(t, segno, v);
      SetEntryKeepsOld(t0, t, moved, segno, v);
      WrittenKeeps(State(), segno, SetEntry(t, segno, v));
      t := SetEntry(t, segno, v);
    }

    /** One step of the inner loop. */
    method FlushNext(segno: nat, toJournal: bool, k: nat, ghost s0: Sit<V>, ghost t0: Table<V>, ghost moved: set<nat>)
      requires Progress(s0, State(), k, segno, toJournal) && BlockFn(t.per)(segno) == k
      requires t0.Valid() && OldCopiesKept(t0, t, moved) && (toJournal || k in moved)
      modifies this`dirty, this`nDirty, this`t
      ensures Progress(s0, State(), k, segno + 1, toJournal) && OldCopiesKept(t0, t, moved)
    {
      if segno in dirty {
        FlushEntry(segno, toJournal, k, s0, t0, moved);
      } else {
        SkipStep(s0, State(), k, segno, toJournal);
      }
    }

    /** The inner loop: the dirty segments of block k, to the journal or to the block. */
    method FlushRegion(k: nat, toJournal: bool, ghost t0: Table<V>, ghost moved: set<nat>) returns (ghost end: nat)
      requires Progress(State(), State(), k, k * t.per, toJournal)
      requires t0.Valid() && OldCopiesKept(t0, t, moved) && (toJournal || k in moved)
      modifies this`dirty, this`nDirty, this`t
      ensures Progress(old(State()), State(), k, end, toJournal) && Reaches(old(State()), k, end)
      ensures OldCopiesKept(t0, t, moved)
    {
      ghost var s0 := State();
      var start, per, n := k * t.per, t.per, |sentries|;
      var segno := start;
      while segno < start + per && segno < n
        invariant start <= segno && t.per == per
        invariant Progress(s0, State(), k, segno, toJournal) && OldCopiesKept(t0, t, moved)
      {
        InBlock(per, k, segno);
        FlushNext(segno, toJournal, k, s0, t0, moved);
        segno := segno + 1;
      }
      end := segno;
      RegionReached(s0, k, segno);
    }

    /** get_next_sit_page: the twin becomes current; nothing stored changes. */
    method TakeTwin(k: nat, ghost t0: Table<V>, ghost moved: set<nat>)
      requires Valid() && k < t.nblocks
      requires t0.Valid() && OldCopiesKept(t0, t, moved) && k !in moved
      modifies this`t
      ensures Valid() && OldCopiesKept(t0, t, moved + {k})
      ensures t.journal == old(t).journal && t.cap == old(t).cap && t.per == old(t).per && t.nblocks == old(t).nblocks
    {
      SwitchStored(t, k);
      SwitchKeepsOld(t0, t, moved, k);
      SwitchedKeeps(State(), Switch(t, k));
      t := Switch(t, k);
    }

    /** One turn of the outer loop, on the first set left. */
    method FlushSet(was: bool, ghost t0: Table<V>, ghost moved: set<nat>) returns (toJournal: bool, ghost now: set<nat>)
      requires sets != [] && Ready(State(), sets, was)
      requires t0.Valid() && OldCopiesKept(t0, t, moved) && Waiting(sets, moved)
      modifies this`dirty, this`nDirty, this`t, this`sets
      ensures sets == old(sets)[1..] && Ready(State(), sets, toJournal)
      ensures OldCopiesKept(t0, t, now) && Waiting(sets, now)
    {
      var (k, cnt) := sets[0];
      ghost var s0 := State();
      toJournal := was && cnt <= t.cap - |t.journal|;
      SetStarts(s0, sets, was, toJournal, k * t.per);
      now := OpenSet(k, toJournal, s0, t0, moved);
      ghost var s1 := State();
      SetStartsAgain(s0, s1, sets, toJournal);
      ghost var end := FlushRegion(k, toJournal, t0, now);
      SetDone(s1, State(), sets, end, toJournal);
      RestCovers(sets, s0.dirty, BlockFn(s0.t.per));
      sets := sets[1..];
    }

    /** What the first set left is not put in the journal for goes to the twin of its
        block, which is switched to. */
    method OpenSet(k: nat, toJournal: bool, ghost s0: Sit<V>, ghost t0: Table<V>, ghost moved: set<nat>) returns (ghost now: set<nat>)
      requires sets != [] && sets[0].0 == k && s0 == State() && s0.Valid() && Covers(s0, sets) && Counted(sets)
      requires t0.Valid() && OldCopiesKept(t0, t, moved) && Waiting(sets, moved)
      modifies this`t
      ensures Valid() && State() == s0.(t := t) && OldCopiesKept(t0, t, now)
      ensures t.journal == s0.t.journal && t.cap == s0.t.cap && t.per == s0.t.per && t.nblocks == s0.t.nblocks
      ensures now == if toJournal then moved else moved + {k}
    {
      now := moved;
      if !toJournal {
        assert HasBlock(sets, k);
        SetInTable(s0, sets);
        TakeTwin(k, t0, moved);
        now := moved + {k};
      }
    }

    /** The outer loop. */
    method FlushSets(ghost t0: Table<V>) returns (ghost moved: set<nat>)
      requires Ready(State(), sets, true)
      requires t0.Valid() && OldCopiesKept(t0, t, {})
      modifies this`dirty, this`nDirty, this`t, this`sets
      ensures Valid() && sets == [] && Covers(State(), sets)
      ensures OldCopiesKept(t0, t, moved)
    {
      var toJournal := true;
      moved := {};
      while sets != []
        invariant Ready(State(), sets, toJournal)
        invariant OldCopiesKept(t0, t, moved) && Waiting(sets, moved)
        decreases |sets|
      {
        toJournal, moved := FlushSet(toJournal, t0, moved);
      }
    }

    /** flush_sit_entries: afterwards nothing is dirty, what is stored is exactly
        the in-memory entries, which have not changed, the journal has not
        overflowed, and every block that was current before is still as it was. */
    method FlushSitEntries() returns (ghost moved: set<nat>)
      requires Valid() && sets == []
      modifies this`dirty, this`nDirty, this`t, this`sets
      ensures Valid() && sets == [] && dirty == {} && nDirty == 0
      ensures forall i :: 0 <= i < |sentries| ==> t.Stored(i) == sentries[i]
      ensures OldCopiesKept(old(t), t, moved)
    {
      moved := {};
      if nDirty == 0 {
        return;
      }
      AddSitsInSet();
      if nDirty > t.cap - |t.journal| {
        RemoveSitsInJournal();
      }
      moved := FlushSets(old(t));
      NothingDirty(State());
    }
  }

  /** Everything dirty in block k lies below end. */
  ghost predicate Reaches<V>(s: Sit<V>, k: nat, end: nat)
    requires 0 < s.t.per
  {
    forall x :: x in s.dirty && BlockFn(s.t.per)(x) == k ==> x < end
  }

  lemma RegionReached<V>(s: Sit<V>, k: nat, segno: nat)
    requires s.Valid() && (segno >= k * s.t.per + s.t.per || segno >= |s.sentries|)
    ensures Reaches(s, k, segno)
  {
    forall x | x in s.dirty && BlockFn(s.t.per)(x) == k ensures x < segno {
      InBlock(s.t.per, k, x);
    }
  }

  /** Switching to the twin disturbs nothing a set's flush starts from. */
  lemma SetStartsAgain<V>(s0: Sit<V>, s1: Sit<V>, rest: seq<(nat, nat)>, toJournal: bool)
    requires rest != [] && s0.Valid() && s1.Valid() && s1 == s0.(t := s1.t)
    requires s1.t.journal == s0.t.journal && s1.t.cap == s0.t.cap && s1.t.per == s0.t.per && s1.t.nblocks == s0.t.nblocks
    requires Covers(s0, rest) && Room(s0, rest, toJournal)
    requires Progress(s0, s0, rest[0].0, rest[0].0 * s0.t.per, toJournal)
    ensures Covers(s1, rest) && Room(s1, rest, toJournal)
    ensures Progress(s1, s1, rest[0].0, rest[0].0 * s1.t.per, toJournal)
  {
    FoundInItself(s1.t, rest[0].0);
  }

  lemma NothingDirty<V>(s: Sit<V>)
    requires s.Valid() && Covers(s, [])
    ensures s.dirty == {} && s.nDirty == 0
  {
    assert forall x :: x in s.dirty ==> HasBlock([], BlockFn(s.t.per)(x));
    assert s.dirty == {};
  }
}
