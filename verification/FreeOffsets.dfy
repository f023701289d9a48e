/** __next_free_blkoff on bitmaps kept as words (fs/f2fs/segment.c): the word-level search
    finds the offset the segment model's NextFree says. */
module FreeOffsets {
  import opened SegmentState
  import opened BitSearch

  /** The set bits below n. */
  function BitsBelow(ws: seq<Word>, n: nat): set<nat>
    requires n <= 64 * |ws|
  {
    set k: nat | k < n && Bit(ws, k)
  }

  /** The entry e has these two bitmaps. */
  ghost predicate HasMaps(e: SegEntry, cur: seq<Word>, ckpt: seq<Word>, bps: nat) {
    bps <= 64 * |cur| && |ckpt| == |cur| && e.curMap == BitsBelow(cur, bps) && e.ckptMap == BitsBelow(ckpt, bps)
  }

  lemma OrAt(target: seq<Word>, cur: seq<Word>, ckpt: seq<Word>, k: nat)
    requires |target| == |cur| == |ckpt| && k < 64 * |cur|
    requires forall i :: 0 <= i < |cur| ==> target[i] == Or(ckpt[i], cur[i])
    ensures Bit(target, k) <==> Bit(cur, k) || Bit(ckpt, k)
  {
    assert target[k / 64] == Or(ckpt[k / 64], cur[k / 64]);
  }

  /** The first offset from start on that is not taken, or bps, is NextFree. */
  lemma {:induction false} FirstFree(e: SegEntry, bps: nat, start: nat, off: nat)
    requires off <= bps && (start >= bps ==> off == bps) && (start < bps ==> start <= off)
    requires forall o :: start <= o < off ==> !OffFree(e, o)
    requires off < bps ==> OffFree(e, off)
    ensures NextFree(e, bps, start) == off
    decreases bps - start
  {
    if start < bps && start < off {
      FirstFree(e, bps, start + 1, off);
    }
  }

  /** The union of the two maps, word by word, and the first zero bit in it. */
  method NextFreeBlkoff(cur: seq<Word>, ckpt: seq<Word>, bps: nat, start: nat) returns (off: nat)
    requires |ckpt| == |cur| && bps <= 64 * |cur| && bps % 8 == 0
    ensures forall e :: HasMaps(e, cur, ckpt, bps) ==> off == NextFree(e, bps, start)
  {
    var target: seq<Word> := [];
    var i := 0;
    while i < |cur|
      invariant i <= |cur| && |target| == i && forall j :: 0 <= j < i ==> target[j] == Or(ckpt[j], cur[j])
    {
      target := target + [Or(ckpt[i], cur[i])];
      i := i + 1;
    }
    off := FindRevNextZeroBit(target, bps, start);
    forall e | HasMaps(e, cur, ckpt, bps) ensures off == NextFree(e, bps, start) {
      forall o: nat | o < bps ensures OffFree(e, o) <==> !Bit(target, o) {
        OrAt(target, cur, ckpt, o);
      }
      FirstFree(e, bps, start, off);
    }
  }
}
