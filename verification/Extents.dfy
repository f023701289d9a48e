/** Extents as values (fs/f2fs/f2fs.h, fs/f2fs/data.c): what a list of cached
    extents says about a file, and what inserting, removing and splitting do to it. */
module Extents {

  /** F2FS_MIN_EXTENT_LEN. */
  const MIN_EXTENT_LEN: nat := 64

  /** len blocks from file offset fofs on, at consecutive addresses from blk on. */
  datatype Extent = Extent(fofs: nat, blk: nat, len: nat) {
    function End(): nat { fofs + len }
    predicate Covers(o: nat) { fofs <= o < End() }

    /** Offset o is cached as lying at address a. */
    predicate Maps(o: nat, a: int) { Covers(o) && a == blk + o - fofs }
  }

  /** __is_extent_mergeable. */
  predicate Mergeable(back: Extent, front: Extent) {
    back.fofs + back.len == front.fofs && back.blk + back.len == front.blk
  }

  ghost predicate Sorted(s: seq<Extent>) {
    forall i, j :: 0 <= i < j < |s| ==> s[i].End() <= s[j].fofs
  }

  /** Non-empty, sorted, disjoint, and no two neighbours that could be one. */
  ghost predicate WellFormed(s: seq<Extent>) {
    && Sorted(s)
    && (forall i :: 0 <= i < |s| ==> s[i].len > 0)
    && (forall i, j :: 0 <= i < j < |s| && j == i + 1 ==> !Mergeable(s[i], s[j]))
  }

  ghost predicate Caches(s: seq<Extent>, o: nat, a: int) {
    exists k :: 0 <= k < |s| && s[k].Maps(o, a)
  }

  /** Everything cached is what the file really has there. */
  ghost predicate Agrees(s: seq<Extent>, file: map<nat, nat>) {
    forall o: nat, a: int :: Caches(s, o, a) ==> o in file && file[o] == a
  }

  /** No extent of s meets x. */
  ghost predicate Apart(s: seq<Extent>, x: Extent) {
    forall k :: 0 <= k < |s| ==> s[k].End() <= x.fofs || x.End() <= s[k].fofs
  }

  // ----- inserting -----

  /** x goes between s[i - 1] and s[i]. */
  ghost predicate IsPlace(s: seq<Extent>, x: Extent, i: nat) {
    && i <= |s|
    && (forall k :: 0 <= k < i ==> s[k].End() <= x.fofs)
    && (forall k :: i <= k < |s| ==> x.End() <= s[k].fofs)
  }

  predicate MergesBack(s: seq<Extent>, i: nat, x: Extent) { 0 < i <= |s| && Mergeable(s[i - 1], x) }
  predicate MergesFront(s: seq<Extent>, i: nat, x: Extent) { i < |s| && Mergeable(x, s[i]) }

  /** x grown by the neighbours it continues or is continued by. */
  function Grown(s: seq<Extent>, i: nat, x: Extent): Extent
    requires i <= |s|
  {
    var y := if MergesBack(s, i, x) then Extent(s[i - 1].fofs, s[i - 1].blk, s[i - 1].len + x.len) else x;
    if MergesFront(s, i, x) then y.(len := y.len + s[i].len) else y
  }

  function InsertAt(s: seq<Extent>, i: nat, x: Extent): seq<Extent>
    requires i <= |s|
  {
    s[..if MergesBack(s, i, x) then i - 1 else i] + [Grown(s, i, x)] + s[if MergesFront(s, i, x) then i + 1 else i..]
  }

  function RemoveAt(s: seq<Extent>, i: nat): seq<Extent>
    requires i < |s|
  {
    s[..i] + s[i + 1..]
  }

  /** The merged extent covers exactly x and the neighbours it swallows. */
  lemma GrownMaps(s: seq<Extent>, i: nat, x: Extent, o: nat, a: int)
    requires WellFormed(s) && IsPlace(s, x, i)
    ensures Grown(s, i, x).Maps(o, a) <==>
              x.Maps(o, a) || (MergesBack(s, i, x) && s[i - 1].Maps(o, a)) || (MergesFront(s, i, x) && s[i].Maps(o, a))
  {
  }

  /** Replacing s[lo..hi] by y: what is cached afterwards, if y says what they said and x besides. */
  lemma SpliceCaches(s: seq<Extent>, lo: nat, y: Extent, hi: nat, o: nat, a: int)
    requires lo <= hi <= |s|
    ensures Caches(s[..lo] + [y] + s[hi..], o, a) <==>
              y.Maps(o, a) || exists k :: 0 <= k < |s| && (k < lo || hi <= k) && s[k].Maps(o, a)
  {
    var r := s[..lo] + [y] + s[hi..];
    assert r[lo] == y;
    if k :| 0 <= k < |s| && (k < lo || hi <= k) && s[k].Maps(o, a) {
      assert r[if k < lo then k else lo + 1 + (k - hi)] == s[k];
    }
    if k :| 0 <= k < |r| && k != lo && r[k].Maps(o, a) {
      assert s[if k < lo then k else hi + (k - lo - 1)] == r[k];
    }
  }

  /** Inserting adds exactly what x says. */
  lemma InsertCaches(s: seq<Extent>, i: nat, x: Extent, o: nat, a: int)
    requires WellFormed(s) && IsPlace(s, x, i)
    ensures Caches(InsertAt(s, i, x), o, a) <==> Caches(s, o, a) || x.Maps(o, a)
  {
    GrownMaps(s, i, x, o, a);
    var lo := if MergesBack(s, i, x) then i - 1 else i;
    var hi := if MergesFront(s, i, x) then i + 1 else i;
    SpliceCaches(s, lo, Grown(s, i, x), hi, o, a);
  }

  /** Inserting keeps the list sorted, disjoint and merged. */
  lemma InsertKeeps(s: seq<Extent>, i: nat, x: Extent)
    requires WellFormed(s) && IsPlace(s, x, i) && x.len > 0
    ensures WellFormed(InsertAt(s, i, x))
  {
    var lo := if MergesBack(s, i, x) then i - 1 else i;
    var hi := if MergesFront(s, i, x) then i + 1 else i;
    SpliceKeeps(s, lo, Grown(s, i, x), hi);
  }

  /** Putting y in place of s[lo..hi] keeps the list in shape if y fits there. */
  lemma SpliceKeeps(s: seq<Extent>, lo: nat, y: Extent, hi: nat)
    requires WellFormed(s) && lo <= hi <= |s| && y.len > 0
    requires lo > 0 ==> s[lo - 1].End() <= y.fofs && !Mergeable(s[lo - 1], y)
    requires hi < |s| ==> y.End() <= s[hi].fofs && !Mergeable(y, s[hi])
    ensures WellFormed(s[..lo] + [y] + s[hi..])
  {
    var r := s[..lo] + [y] + s[hi..];
    assert forall k :: 0 <= k < lo ==> r[k] == s[k];
    assert r[lo] == y;
    assert forall k :: lo < k < |r| ==> r[k] == s[k - lo - 1 + hi];
    SpliceSorted(s, lo, y, hi);
    forall j, k | 0 <= j < k < |r| && k == j + 1 ensures !Mergeable(r[j], r[k]) {
    }
  }

  lemma SpliceSorted(s: seq<Extent>, lo: nat, y: Extent, hi: nat)
    requires Sorted(s) && lo <= hi <= |s| && y.len > 0 && forall k :: 0 <= k < |s| ==> s[k].len > 0
    requires lo > 0 ==> s[lo - 1].End() <= y.fofs
    requires hi < |s| ==> y.End() <= s[hi].fofs
    ensures Sorted(s[..lo] + [y] + s[hi..])
  {
    var r := s[..lo] + [y] + s[hi..];
    assert forall k :: 0 <= k < lo ==> r[k] == s[k] && s[k].End() <= s[lo - 1].End();
    assert r[lo] == y;
    assert forall k :: lo < k < |r| ==> r[k] == s[k - lo - 1 + hi] && s[hi].fofs <= r[k].fofs;
  }

  // ----- removing -----

  lemma RemoveKeeps(s: seq<Extent>, i: nat)
    requires WellFormed(s) && i < |s|
    ensures WellFormed(RemoveAt(s, i))
  {
    var r := RemoveAt(s, i);
    forall j, k | 0 <= j < k < |r| && k == j + 1 ensures !Mergeable(r[j], r[k]) {
      assert j == i - 1 ==> s[j].End() <= s[i].fofs && s[i].End() <= s[i + 1].fofs && s[i].len > 0;
    }
  }

  /** Removing takes away exactly what the extent said. */
  lemma RemoveCaches(s: seq<Extent>, i: nat, o: nat, a: int)
    requires WellFormed(s) && i < |s|
    ensures Caches(RemoveAt(s, i), o, a) <==> Caches(s, o, a) && !s[i].Covers(o)
  {
    var r := RemoveAt(s, i);
    if k :| 0 <= k < |s| && s[k].Maps(o, a) {
      assert k < i ==> r[k] == s[k];
      assert k > i ==> r[k - 1] == s[k];
      assert k != i ==> !s[i].Covers(o);
    }
    if k :| 0 <= k < |r| && r[k].Maps(o, a) {
      assert k < i ==> s[k] == r[k];
      assert k >= i ==> s[k + 1] == r[k];
    }
  }

  // ----- f2fs_update_extent_tree -----

  /** The extent holding fofs, or |s|. */
  function Find(s: seq<Extent>, fofs: nat): (i: nat)
    ensures i <= |s|
    ensures i < |s| ==> s[i].Covers(fofs)
    ensures forall k :: 0 <= k < i ==> !s[k].Covers(fofs)
  {
    if s == [] then 0 else if s[0].Covers(fofs) then 0 else 1 + Find(s[1..], fofs)
  }

  /** How many extents lie before x. */
  function Place(s: seq<Extent>, x: Extent): (i: nat)
    ensures i <= |s|
    ensures WellFormed(s) && Apart(s, x) && x.len > 0 ==> IsPlace(s, x, i)
  {
    if s == [] || s[0].End() > x.fofs then 0 else 1 + Place(s[1..], x)
  }

  function Insert(s: seq<Extent>, x: Extent): seq<Extent> { InsertAt(s, Place(s, x), x) }

  function LeftPart(e: Extent, fofs: nat): Extent
    requires e.Covers(fofs)
  {
    Extent(e.fofs, e.blk, fofs - e.fofs)
  }

  /** bias is 1 for the right half's true address; the code as written has 0. */
  function RightPart(e: Extent, fofs: nat, bias: nat): Extent
    requires e.Covers(fofs)
  {
    Extent(fofs + 1, e.blk + (fofs - e.fofs) + bias, e.End() - 1 - fofs)
  }

  function KeepsLeft(e: Extent, fofs: nat): bool
    requires e.Covers(fofs)
  {
    e.len > 1 && fofs - e.fofs >= MIN_EXTENT_LEN
  }

  function KeepsRight(e: Extent, fofs: nat): bool
    requires e.Covers(fofs)
  {
    e.len > 1 && e.End() - 1 - fofs >= MIN_EXTENT_LEN
  }

  function WithLeft(s: seq<Extent>, e: Extent, fofs: nat): seq<Extent>
    requires e.Covers(fofs)
  {
    if KeepsLeft(e, fofs) then Insert(s, LeftPart(e, fofs)) else s
  }

  function WithRight(s: seq<Extent>, e: Extent, fofs: nat, bias: nat): seq<Extent>
    requires e.Covers(fofs)
  {
    if KeepsRight(e, fofs) then Insert(s, RightPart(e, fofs, bias)) else s
  }

  /** Steps 1 and 2: the extent holding fofs gives way to what is worth keeping of it. */
  function CutOut(s: seq<Extent>, fofs: nat, bias: nat): seq<Extent> {
    var i := Find(s, fofs);
    if i < |s| then WithRight(WithLeft(RemoveAt(s, i), s[i], fofs), s[i], fofs, bias) else s
  }

  function Updated(s: seq<Extent>, fofs: nat, blk: nat, bias: nat): seq<Extent> {
    var s1 := CutOut(s, fofs, bias);
    if blk == 0 then s1 else Insert(s1, Extent(fofs, blk, 1))
  }

  function FileAfter(file: map<nat, nat>, fofs: nat, blk: nat): map<nat, nat> {
    if blk == 0 then file - {fofs} else file[fofs := blk]
  }

  lemma InsertGood(s: seq<Extent>, x: Extent)
    requires WellFormed(s) && Apart(s, x) && x.len > 0
    ensures WellFormed(Insert(s, x))
    ensures forall o: nat, a: int :: Caches(Insert(s, x), o, a) <==> Caches(s, o, a) || x.Maps(o, a)
  {
    var i := Place(s, x);
    InsertKeeps(s, i, x);
    forall o: nat, a: int
      ensures Caches(Insert(s, x), o, a) <==> Caches(s, o, a) || x.Maps(o, a)
    {
      InsertCaches(s, i, x, o, a);
    }
  }

  /** Nothing cached in x's range means every extent is apart from x. */
  lemma FreeRange(s: seq<Extent>, x: Extent)
    requires WellFormed(s) && x.len > 0
    requires forall o: nat, a: int :: x.Covers(o) ==> !Caches(s, o, a)
    ensures Apart(s, x)
  {
    forall k | 0 <= k < |s|
      ensures s[k].End() <= x.fofs || x.End() <= s[k].fofs
    {
      var o := if x.fofs <= s[k].fofs then s[k].fofs else x.fofs;
      if s[k].Covers(o) {
        assert s[k].Maps(o, s[k].blk + o - s[k].fofs);
        assert Caches(s, o, s[k].blk + o - s[k].fofs);
      }
    }
  }

  /** What is left of e after the cut says this and nothing more. */
  ghost predicate KeptMaps(e: Extent, fofs: nat, bias: nat, o: nat, a: int)
    requires e.Covers(fofs)
  {
    || (KeepsLeft(e, fofs) && LeftPart(e, fofs).Maps(o, a))
    || (KeepsRight(e, fofs) && RightPart(e, fofs, bias).Maps(o, a))
  }

  /** What the cut leaves cached. */
  ghost predicate CutMaps(s: seq<Extent>, fofs: nat, bias: nat, o: nat, a: int) {
    var i := Find(s, fofs);
    (Caches(s, o, a) && (i < |s| ==> !s[i].Covers(o))) || (i < |s| && KeptMaps(s[i], fofs, bias, o, a))
  }

  lemma CutOutGood(s: seq<Extent>, fofs: nat, bias: nat)
    requires WellFormed(s)
    ensures WellFormed(CutOut(s, fofs, bias))
    ensures forall o: nat, a: int :: Caches(CutOut(s, fofs, bias), o, a) <==> CutMaps(s, fofs, bias, o, a)
  {
    var i := Find(s, fofs);
    if i < |s| {
      var e := s[i];
      var s0 := RemoveAt(s, i);
      RemoveKeeps(s, i);
      forall o: nat, a: int ensures Caches(s0, o, a) <==> Caches(s, o, a) && !e.Covers(o) {
        RemoveCaches(s, i, o, a);
      }
      WithLeftGood(s0, e, fofs);
      WithRightGood(s0, WithLeft(s0, e, fofs), e, fofs, bias);
    }
  }

  /** Nothing of e's range is cached in s. */
  ghost predicate Clear(s: seq<Extent>, e: Extent) {
    forall o: nat, a: int :: Caches(s, o, a) ==> !e.Covers(o)
  }

  lemma WithLeftGood(s: seq<Extent>, e: Extent, fofs: nat)
    requires WellFormed(s) && e.Covers(fofs) && Clear(s, e)
    ensures WellFormed(WithLeft(s, e, fofs))
    ensures forall o: nat, a: int :: Caches(WithLeft(s, e, fofs), o, a) <==>
                                       Caches(s, o, a) || (KeepsLeft(e, fofs) && LeftPart(e, fofs).Maps(o, a))
  {
    if KeepsLeft(e, fofs) {
      FreeRange(s, LeftPart(e, fofs));
      InsertGood(s, LeftPart(e, fofs));
    }
  }

  lemma WithRightGood(s: seq<Extent>, s1: seq<Extent>, e: Extent, fofs: nat, bias: nat)
    requires WellFormed(s1) && e.Covers(fofs) && Clear(s, e)
    requires forall o: nat, a: int :: Caches(s1, o, a) <==> Caches(s, o, a) || (KeepsLeft(e, fofs) && LeftPart(e, fofs).Maps(o, a))
    ensures WellFormed(WithRight(s1, e, fofs, bias))
    ensures forall o: nat, a: int :: Caches(WithRight(s1, e, fofs, bias), o, a) <==>
                                       Caches(s, o, a) || KeptMaps(e, fofs, bias, o, a)
  {
    if KeepsRight(e, fofs) {
      FreeRange(s1, RightPart(e, fofs, bias));
      InsertGood(s1, RightPart(e, fofs, bias));
    }
  }

  /** The cut leaves nothing cached for fofs itself. */
  lemma CutClears(s: seq<Extent>, fofs: nat, bias: nat, a: int)
    requires WellFormed(s)
    ensures !CutMaps(s, fofs, bias, fofs, a)
  {
  }

  /** An update keeps the tree's list in shape, whatever the file holds. */
  lemma UpdatedKeeps(s: seq<Extent>, fofs: nat, blk: nat, bias: nat)
    requires WellFormed(s)
    ensures WellFormed(Updated(s, fofs, blk, bias))
    ensures forall o: nat, a: int ::
              Caches(Updated(s, fofs, blk, bias), o, a) <==>
                CutMaps(s, fofs, bias, o, a) || (blk != 0 && o == fofs && a == blk)
  {
    CutOutGood(s, fofs, bias);
    var s1 := CutOut(s, fofs, bias);
    if blk != 0 {
      var x := Extent(fofs, blk, 1);
      forall o: nat, a: int ensures x.Covers(o) ==> !Caches(s1, o, a) {
        CutClears(s, fofs, bias, a);
      }
      FreeRange(s1, x);
      InsertGood(s1, x);
    }
  }

  /** Where no right half is kept, or at its true address, the cut says nothing new. */
  lemma CutSaysNothingNew(s: seq<Extent>, fofs: nat, bias: nat, o: nat, a: int)
    requires WellFormed(s) && CutMaps(s, fofs, bias, o, a)
    requires bias == 1 || Find(s, fofs) == |s| || !KeepsRight(s[Find(s, fofs)], fofs)
    ensures Caches(s, o, a) && o != fofs
  {
    CutClears(s, fofs, bias, a);
    var i := Find(s, fofs);
    if i < |s| && KeptMaps(s[i], fofs, bias, o, a) {
      assert s[i].Maps(o, a);
    }
  }

  /** With the right half at its true address, what is cached stays true of the file. */
  lemma UpdatedAgrees(s: seq<Extent>, file: map<nat, nat>, fofs: nat, blk: nat, bias: nat)
    requires WellFormed(s) && Agrees(s, file)
    requires bias == 1 || Find(s, fofs) == |s| || !KeepsRight(s[Find(s, fofs)], fofs)
    ensures WellFormed(Updated(s, fofs, blk, bias)) && Agrees(Updated(s, fofs, blk, bias), FileAfter(file, fofs, blk))
  {
    UpdatedKeeps(s, fofs, blk, bias);
    var r := FileAfter(file, fofs, blk);
    forall o: nat, a: int | Caches(Updated(s, fofs, blk, bias), o, a)
      ensures o in r && r[o] == a
    {
      if CutMaps(s, fofs, bias, o, a) {
        CutSaysNothingNew(s, fofs, bias, o, a);
      }
    }
  }

  lemma RightHalfWrong(s: seq<Extent>, file: map<nat, nat>, fofs: nat, blk: nat)
    requires WellFormed(s) && Agrees(s, file)
    requires Find(s, fofs) < |s| && KeepsRight(s[Find(s, fofs)], fofs)
    ensures !Agrees(Updated(s, fofs, blk, 0), FileAfter(file, fofs, blk))
  {
    var e := s[Find(s, fofs)];
    var a := e.blk + (fofs - e.fofs);
    RightHalfCached(s, fofs, blk);
    assert e.Maps(fofs + 1, a + 1);
    assert Caches(s, fofs + 1, a + 1);
  }

  lemma RightHalfCached(s: seq<Extent>, fofs: nat, blk: nat)
    requires WellFormed(s)
    requires Find(s, fofs) < |s| && KeepsRight(s[Find(s, fofs)], fofs)
    ensures var e := s[Find(s, fofs)]; Caches(Updated(s, fofs, blk, 0), fofs + 1, e.blk + (fofs - e.fofs))
  {
    var e := s[Find(s, fofs)];
    assert RightPart(e, fofs, 0).Maps(fofs + 1, e.blk + (fofs - e.fofs));
    assert KeptMaps(e, fofs, 0, fofs + 1, e.blk + (fofs - e.fofs));
    UpdatedKeeps(s, fofs, blk, 0);
  }

  /** As written, the update keeps agreement exactly when no cached extent reaches
      MIN_EXTENT_LEN blocks beyond fofs: when it inserts no right half. */
  lemma AsWrittenAgreesIff(s: seq<Extent>, file: map<nat, nat>, fofs: nat, blk: nat)
    requires WellFormed(s) && Agrees(s, file)
    ensures Agrees(Updated(s, fofs, blk, 0), FileAfter(file, fofs, blk)) <==>
              forall i :: 0 <= i < |s| && s[i].Covers(fofs) ==> s[i].End() - 1 - fofs < MIN_EXTENT_LEN
  {
    var i := Find(s, fofs);
    if i < |s| && KeepsRight(s[i], fofs) {
      RightHalfWrong(s, file, fofs, blk);
    } else {
      assert forall k :: 0 <= k < |s| && s[k].Covers(fofs) ==> k == i;
      UpdatedAgrees(s, file, fofs, blk, 0);
    }
  }

  /** The file whose block o lies at blk + o, for every o below n. */
  function Consecutive(n: nat, blk: nat): (r: map<nat, nat>)
    ensures forall o: nat :: o in r <==> o < n
    ensures forall o :: o in r ==> r[o] == blk + o
  {
    if n == 0 then map[] else Consecutive(n - 1, blk)[n - 1 := blk + n - 1]
  }

  /** Rewriting the first block of a 66-block extent: the next block is then
      looked up one address too low. */
  lemma AsWrittenFails()
    ensures var s := [Extent(0, 1000, 66)];
            var file := Consecutive(66, 1000);
            && WellFormed(s) && Agrees(s, file)
            && !Agrees(Updated(s, 0, 5000, 0), FileAfter(file, 0, 5000))
  {
    var s := [Extent(0, 1000, 66)];
    var file := Consecutive(66, 1000);
    AsWrittenAgreesIff(s, file, 0, 5000);
    assert s[0].Covers(0) && s[0].End() - 1 - 0 == 65;
  }

  // ----- runs -----

  /** A pointer change, a lookup or an init has no other effect on the extents;
      shrinking drops any of them. */
  datatype Event = Update(fofs: nat, blk: nat) | Drop(i: nat)

  function ExtentsAfter(s: seq<Extent>, e: Event): seq<Extent> {
    match e
    case Update(fofs, blk) => Updated(s, fofs, blk, 1)
    case Drop(i) => if i < |s| then RemoveAt(s, i) else s
  }

  function ExtentsAfterAll(s: seq<Extent>, es: seq<Event>): seq<Extent>
    decreases |es|
  {
    if es == [] then s else ExtentsAfterAll(ExtentsAfter(s, es[0]), es[1..])
  }

  function FileAfterAll(file: map<nat, nat>, es: seq<Event>): map<nat, nat>
    decreases |es|
  {
    if es == [] then file
    else FileAfterAll(if es[0].Update? then FileAfter(file, es[0].fofs, es[0].blk) else file, es[1..])
  }

  lemma DropAgrees(s: seq<Extent>, file: map<nat, nat>, i: nat)
    requires WellFormed(s) && Agrees(s, file) && i < |s|
    ensures WellFormed(RemoveAt(s, i)) && Agrees(RemoveAt(s, i), file)
  {
    RemoveKeeps(s, i);
    forall o: nat, a: int | Caches(RemoveAt(s, i), o, a) ensures Caches(s, o, a) {
      RemoveCaches(s, i, o, a);
    }
  }

  /** After any sequence of pointer updates and evictions the extents are sorted,
      disjoint and merged, and every cached offset gives the file's real block. */
  lemma {:induction false} RunAgrees(s: seq<Extent>, file: map<nat, nat>, es: seq<Event>)
    requires WellFormed(s) && Agrees(s, file)
    ensures WellFormed(ExtentsAfterAll(s, es)) && Agrees(ExtentsAfterAll(s, es), FileAfterAll(file, es))
    decreases |es|
  {
    if es != [] {
      match es[0] {
        case Update(fofs, blk) =>
          UpdatedAgrees(s, file, fofs, blk, 1);
          RunAgrees(ExtentsAfter(s, es[0]), FileAfter(file, fofs, blk), es[1..]);
        case Drop(i) =>
          if i < |s| {
            DropAgrees(s, file, i);
          }
          RunAgrees(ExtentsAfter(s, es[0]), file, es[1..]);
      }
    }
  }

  // ----- runs as written -----

  /** The right half one address too low, as written. */
  function AsWrittenAfter(s: seq<Extent>, e: Event): seq<Extent> {
    match e
    case Update(fofs, blk) => Updated(s, fofs, blk, 0)
    case Drop(i) => if i < |s| then RemoveAt(s, i) else s
  }

  function FileAfterOne(file: map<nat, nat>, e: Event): map<nat, nat> {
    if e.Update? then FileAfter(file, e.fofs, e.blk) else file
  }

  /** What is cached is true of the file before and after every event. */
  ghost predicate AgreesThroughout(s: seq<Extent>, file: map<nat, nat>, es: seq<Event>)
    decreases |es|
  {
    Agrees(s, file) && (es == [] || AgreesThroughout(AsWrittenAfter(s, es[0]), FileAfterOne(file, es[0]), es[1..]))
  }

  /** No update cuts an extent that reaches MIN_EXTENT_LEN blocks beyond it. */
  ghost predicate NoRightHalves(s: seq<Extent>, es: seq<Event>)
    decreases |es|
  {
    es == []
    || ((es[0].Update? ==> forall i :: 0 <= i < |s| && s[i].Covers(es[0].fofs) ==> s[i].End() - 1 - es[0].fofs < MIN_EXTENT_LEN)
        && NoRightHalves(AsWrittenAfter(s, es[0]), es[1..]))
  }

  /** As written, a run keeps agreement throughout if and only if none of its updates
      keeps a right half. */
  lemma {:induction false} AsWrittenRunIff(s: seq<Extent>, file: map<nat, nat>, es: seq<Event>)
    requires WellFormed(s) && Agrees(s, file)
    ensures AgreesThroughout(s, file, es) <==> NoRightHalves(s, es)
    decreases |es|
  {
    if es != [] {
      var r, f := AsWrittenAfter(s, es[0]), FileAfterOne(file, es[0]);
      match es[0] {
        case Update(fofs, blk) =>
          AsWrittenAgreesIff(s, file, fofs, blk);
          UpdatedKeeps(s, fofs, blk, 0);
        case Drop(i) =>
          if i < |s| {
            DropAgrees(s, file, i);
          }
      }
      if Agrees(r, f) {
        AsWrittenRunIff(r, f, es[1..]);
      }
    }
  }
}
