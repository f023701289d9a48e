/** Collecting small discards at a checkpoint (add_discard_addrs, fs/f2fs/segment.c). */
module Discard {
  import opened BitSearch

  /** A discard_entry: len blocks from blkaddr on. */
  datatype Entry = Entry(blkaddr: nat, len: nat)

  ghost predicate Covers(list: seq<Entry>, a: nat) {
    exists k :: 0 <= k < |list| && list[k].blkaddr <= a < list[k].blkaddr + list[k].len
  }

  function Total(list: seq<Entry>): nat {
    if list == [] then 0 else Total(list[..|list| - 1]) + list[|list| - 1].len
  }

  function Xor(v: Word, w: Word): Word { Or(And(v, Not(w)), And(Not(v), w)) }

  /** dmap: what the checkpoint has and the running map has not, or, when forced,
      everything the checkpoint has not. */
  function DiscardMap(cur: seq<Word>, ckpt: seq<Word>, force: bool): (d: seq<Word>)
    requires |cur| == |ckpt|
    ensures |d| == |cur|
  {
    seq(|cur|, (i: nat) requires i < |cur| => if force then Not(ckpt[i]) else And(Xor(cur[i], ckpt[i]), ckpt[i]))
  }

  lemma DiscardMapAt(cur: seq<Word>, ckpt: seq<Word>, force: bool, k: nat)
    requires |cur| == |ckpt| && k < 64 * |cur|
    ensures Bit(DiscardMap(cur, ckpt, force), k) <==> if force then !Bit(ckpt, k) else Bit(ckpt, k) && !Bit(cur, k)
  {
  }

  class Discards {
    var list: seq<Entry>
    var nr: nat
    var trimmed: nat

    ghost predicate Valid()
      reads this
    {
      nr == Total(list)
    }

    constructor ()
      ensures Valid() && list == [] && trimmed == 0
    {
      list, nr, trimmed := [], 0, 0;
    }

    /** __add_discard_entry: start..end of the segment at base, joined to the last
        entry when it continues it. */
    method AddDiscardEntry(base: nat, start: nat, end: nat)
      requires Valid() && start <= end
      modifies this
      ensures Valid() && nr == old(nr) + (end - start) && trimmed == old(trimmed) + (end - start)
      ensures forall a: nat :: Covers(list, a) <==> Covers(old(list), a) || base + start <= a < base + end
    {
      if list != [] && base + start == list[|list| - 1].blkaddr + list[|list| - 1].len {
        var last := list[|list| - 1];
        LastGrows(list, end - start);
        list := list[..|list| - 1] + [last.(len := last.len + end - start)];
      } else {
        EntryAppended(list, Entry(base + start, end - start));
        list := list + [Entry(base + start, end - start)];
      }
      nr := nr + (end - start);
      trimmed := trimmed + (end - start);
    }

    /** add_discard_addrs for the segment at base: every block it adds is one the
        running map does not have, and all it had before stays. prefree says that
        the whole segment will be discarded anyway. */
    method AddDiscardAddrs(base: nat, cur: seq<Word>, ckpt: seq<Word>, blocks: nat, validBlocks: nat, prefree: bool,
                           force: bool, minLen: nat, option: bool, maxDiscards: nat)
      requires Valid() && |cur| == |ckpt| && blocks <= 64 * |cur| && blocks % 8 == 0
      requires force ==> forall k :: 0 <= k < blocks ==> Bit(cur, k) == Bit(ckpt, k)
      requires validBlocks == 0 ==> NoneSet(cur, 0, blocks)
      modifies this
      ensures Valid() && nr >= old(nr)
      ensures forall a: nat :: Covers(old(list), a) ==> Covers(list, a)
      ensures forall a: nat :: Covers(list, a) ==> Covers(old(list), a) || (base <= a < base + blocks && !Bit(cur, a - base))
    {
      if !force && (!option || nr >= maxDiscards) {
        return;
      }
      if force && validBlocks == 0 {
        if prefree {
          trimmed := trimmed + blocks;
          return;
        }
        AddDiscardEntry(base, 0, blocks);
        return;
      }
      if validBlocks == 0 || validBlocks == blocks {
        return;
      }
      var dmap := DiscardMap(cur, ckpt, force);
      var next := 0;
      while force || nr <= maxDiscards
        invariant Valid() && nr >= old(nr)
        invariant forall a: nat :: Covers(old(list), a) ==> Covers(list, a)
        invariant forall a: nat :: Covers(list, a) ==> Covers(old(list), a) || (base <= a < base + blocks && !Bit(cur, a - base))
        decreases blocks + 1 - next
      {
        var start := FindRevNextBit(dmap, blocks, next);
        if start >= blocks {
          break;
        }
        var end := FindRevNextZeroBit(dmap, blocks, start + 1);
        RunIsStale(cur, ckpt, force, blocks, start, end);
        next := end + 1;
        if force && end - start < minLen {
          continue;
        }
        AddDiscardEntry(base, start, end);
      }
    }
  }

  /** What lies between a set bit of dmap and the next clear one is not valid. */
  lemma RunIsStale(cur: seq<Word>, ckpt: seq<Word>, force: bool, blocks: nat, start: nat, end: nat)
    requires |cur| == |ckpt| && start < end <= blocks <= 64 * |cur|
    requires force ==> forall k :: 0 <= k < blocks ==> Bit(cur, k) == Bit(ckpt, k)
    requires Bit(DiscardMap(cur, ckpt, force), start) && AllSet(DiscardMap(cur, ckpt, force), start + 1, end)
    ensures NoneSet(cur, start, end)
  {
    forall k | start <= k < end ensures !Bit(cur, k) {
      DiscardMapAt(cur, ckpt, force, k);
    }
  }

  lemma EntryAppended(list: seq<Entry>, e: Entry)
    ensures Total(list + [e]) == Total(list) + e.len
    ensures forall a: nat :: Covers(list + [e], a) <==> Covers(list, a) || e.blkaddr <= a < e.blkaddr + e.len
  {
    var r := list + [e];
    assert r[..|r| - 1] == list;
    forall a: nat ensures Covers(r, a) <==> Covers(list, a) || e.blkaddr <= a < e.blkaddr + e.len {
      if k :| 0 <= k < |list| && list[k].blkaddr <= a < list[k].blkaddr + list[k].len {
        assert r[k] == list[k];
      }
      assert r[|list|] == e;
    }
  }

  lemma LastGrows(list: seq<Entry>, n: nat)
    requires list != []
    ensures var last := list[|list| - 1];
            var r := list[..|list| - 1] + [last.(len := last.len + n)];
            && Total(r) == Total(list) + n
            && forall a: nat :: Covers(r, a) <==>
                 Covers(list, a) || last.blkaddr + last.len <= a < last.blkaddr + last.len + n
  {
    var rest, last := list[..|list| - 1], list[|list| - 1];
    assert list == rest + [last];
    EntryAppended(rest, last);
    EntryAppended(rest, last.(len := last.len + n));
  }
}
