/** The word-level bitmap searches of fs/f2fs/segment.c. A bitmap is an array of
    64-bit words whose bytes are read from the low end, but whose bits are numbered
    from the high end of each byte (f2fs_test_bit, fs/f2fs/f2fs.h). */
module BitSearch {

  /** A machine word: w[i] is the bit of value 2^i. */
  type Word = w: seq<bool> | |w| == 64 witness seq(64, i => false)

  /** Where bit k of a word's numbering lies in the word. */
  function Pos(k: nat): (p: nat)
    requires k < 64
    ensures p < 64
  {
    8 * (k / 8) + 7 - k % 8
  }

  /** f2fs_test_bit. */
  function Bit(ws: seq<Word>, k: nat): bool
    requires k < 64 * |ws|
  {
    ws[k / 64][Pos(k % 64)]
  }

  // ----- word operations -----

  function MakeWord(f: nat -> bool): (r: Word)
    ensures forall i :: 0 <= i < 64 ==> r[i] == f(i)
  {
    seq(64, (i: nat) requires i < 64 => f(i))
  }

  function Ones(): Word { MakeWord((i: nat) => true) }
  function Not(w: Word): Word { MakeWord((i: nat) => i < 64 && !w[i]) }
  function And(v: Word, w: Word): Word { MakeWord((i: nat) => i < 64 && v[i] && w[i]) }
  function Or(v: Word, w: Word): Word { MakeWord((i: nat) => i < 64 && (v[i] || w[i])) }
  function Shl(w: Word, n: nat): Word { MakeWord((i: nat) => n <= i < 64 && w[i - n]) }
  function Shr(w: Word, n: nat): Word { MakeWord((i: nat) => i + n < 64 && w[i + n]) }

  /** The n lowest bits set. */
  function Low(n: nat): Word { MakeWord((i: nat) => i < n) }

  /** A cast to unsigned char. */
  function ToByte(w: Word): Word { And(w, Low(8)) }

  predicate Zero(w: Word) { forall i :: 0 <= i < 64 ==> !w[i] }

  /** The bits of w under the mask are all clear. */
  predicate Clear(w: Word, mask: Word) { Zero(And(w, mask)) }

  // ----- the first bit of a word -----

  /** Bits lo..hi of the word are all clear. */
  ghost predicate ClearIn(w: Word, lo: nat, hi: nat) {
    forall i :: lo <= i < hi && i < 64 ==> !w[i]
  }

  /** r is the lowest-numbered set bit of w. */
  ghost predicate IsFirst(w: Word, r: nat) {
    r < 64 && w[Pos(r)] && forall k :: 0 <= k < r ==> !w[Pos(k)]
  }

  lemma PosBytes(k: nat, m: nat)
    requires k + 8 * m < 64
    ensures Pos(k + 8 * m) == Pos(k) + 8 * m
  {
  }

  /** If the low n bytes are clear, the first bit is that of the word shifted down. */
  lemma SkipBytes(w: Word, n: nat, r: nat)
    requires n < 8 && ClearIn(w, 0, 8 * n) && IsFirst(Shr(w, 8 * n), r)
    ensures IsFirst(w, r + 8 * n)
  {
    SkippedBit(w, n, r);
    forall k | 0 <= k < r + 8 * n ensures !w[Pos(k)] {
      if k >= 8 * n {
        SkippedBit(w, n, k - 8 * n);
      } else {
        SkippedLow(k, n);
      }
    }
  }

  lemma SkippedBit(w: Word, n: nat, k: nat)
    requires n < 8 && k < 64 && (Pos(k) + 8 * n < 64 || Shr(w, 8 * n)[Pos(k)])
    ensures k + 8 * n < 64 && Shr(w, 8 * n)[Pos(k)] == w[Pos(k + 8 * n)]
  {
    assert Pos(k) + 8 * n < 64;
    PosBytes(k, n);
  }

  lemma SkippedLow(k: nat, n: nat)
    requires k < 8 * n && n < 8
    ensures Pos(k) < 8 * n
  {
  }

  /** Within the lowest byte the first bit is the highest set one. */
  ghost predicate HighestInByte(w: Word, r: nat) {
    r < 8 && w[7 - r] && forall i :: 7 - r < i < 8 ==> !w[i]
  }

  lemma HighestIsFirst(w: Word, r: nat)
    requires HighestInByte(w, r)
    ensures IsFirst(w, r)
  {
    forall k | 0 <= k < 8 ensures Pos(k) == 7 - k {
    }
  }

  /** __reverse_ffs on the lowest byte: halving the nibble twice. */
  method ReverseFfsByte(w: Word) returns (num: nat)
    requires !ClearIn(w, 0, 8)
    ensures HighestInByte(w, num)
  {
    num := 0;
    var v := w;
    var n4 := !w[4] && !w[5] && !w[6] && !w[7];
    if n4 {
      num := num + 4;
    } else {
      v := Shr(v, 4);
    }
    if !v[2] && !v[3] {
      num := num + 2;
    } else {
      v := Shr(v, 2);
    }
    if !v[1] {
      num := num + 1;
    }
  }

  /** __reverse_ffs: halving to the lowest byte with a set bit, then within it. */
  method ReverseFfs(word: Word) returns (num: nat)
    requires !Zero(word)
    ensures IsFirst(word, num)
  {
    var v1, n1 := HalveBytes(word, 4);
    var v2, n2 := HalveBytes(v1, 2);
    var v3, n3 := HalveBytes(v2, 1);
    var n4 := ReverseFfsByte(v3);
    HighestIsFirst(v3, n4);
    num := n1 + n2 + n3 + n4;
    Halved(v2, v3, n3, n4);
    Halved(v1, v2, n2, n3 + n4);
    Halved(word, v1, n1, n2 + n3 + n4);
  }

  lemma Halved(w: Word, v: Word, num: nat, r: nat)
    requires num in {0, 8, 16, 32} && IsFirst(v, r)
    requires if num == 0 then v == w else v == Shr(w, num) && ClearIn(w, 0, num)
    ensures IsFirst(w, num + r)
  {
    if num > 0 {
      assert num == 8 * (num / 8);
      SkipBytes(w, num / 8, r);
    }
  }

  /** One halving: when the low half's n bytes are clear they are shifted out. */
  method HalveBytes(w: Word, n: nat) returns (v: Word, num: nat)
    requires n in {1, 2, 4} && !ClearIn(w, 0, 16 * n)
    ensures !ClearIn(v, 0, 8 * n)
    ensures if num == 0 then v == w else num == 8 * n && v == Shr(w, 8 * n) && ClearIn(w, 0, 8 * n)
  {
    if Clear(w, Low(8 * n)) {
      forall i | 0 <= i < 8 * n ensures !w[i] {
        assert !And(w, Low(8 * n))[i];
      }
      v, num := Shr(w, 8 * n), 8 * n;
      var i :| 0 <= i < 16 * n && i < 64 && w[i];
      assert v[i - 8 * n];
    } else {
      var i :| 0 <= i < 64 && And(w, Low(8 * n))[i];
      v, num := w, 0;
    }
  }

  // ----- masks -----

  function ByteStart(off: nat): nat { 8 * (off / 8) }

  /** The next-bit search's mask of its first word: ~0 << quot, cut down to the
      byte's bits from rest on. */
  function FromMask(off: nat): Word {
    var quot, rest := ByteStart(off), off % 8;
    And(Shl(Ones(), quot), Shl(Shr(ToByte(Shl(Low(8), rest)), rest), quot))
  }

  /** The zero-bit search's mask: everything below quot, and the byte's bits before
      rest. The two parts share no bit, so adding them is or-ing them. */
  function BeforeMask(off: nat): Word {
    var quot, rest := ByteStart(off), off % 8;
    Or(Not(Shl(Ones(), quot)), Shl(ToByte(Not(Shr(ToByte(Shl(Low(8), rest)), rest))), quot))
  }

  lemma PosInByte(off: nat, k: nat)
    requires off < 64 && k < 64
    ensures k < ByteStart(off) <==> Pos(k) < ByteStart(off)
    ensures ByteStart(off) + 8 <= k <==> ByteStart(off) + 8 <= Pos(k)
    ensures ByteStart(off) <= k < ByteStart(off) + 8 ==> Pos(k) - ByteStart(off) == 7 - (k - ByteStart(off))
  {
  }

  /** That mask keeps one byte of the word only: from off to the byte's end. */
  lemma FromMaskAt(off: nat, k: nat)
    requires off < 64 && k < 64
    ensures FromMask(off)[Pos(k)] <==> off <= k < ByteStart(off) + 8
  {
    PosInByte(off, k);
    var quot, rest, p := ByteStart(off), off % 8, Pos(k);
    var byte := Shr(ToByte(Shl(Low(8), rest)), rest);
    assert forall i :: 0 <= i < 64 ==> (byte[i] <==> i + rest < 8);
    assert off == quot + rest;
  }

  lemma BeforeMaskAt(off: nat, k: nat)
    requires off < 64 && k < 64
    ensures BeforeMask(off)[Pos(k)] <==> k < off
  {
    PosInByte(off, k);
    var quot, rest, p := ByteStart(off), off % 8, Pos(k);
    var byte := Shr(ToByte(Shl(Low(8), rest)), rest);
    assert forall i :: 0 <= i < 64 ==> (byte[i] <==> i + rest < 8);
    assert forall i :: 0 <= i < 64 ==> (ToByte(Not(byte))[i] <==> i < 8 && !(i + rest < 8));
    assert off == quot + rest;
  }

  /** Counting whole bytes, the low n bits are the first n. */
  lemma LowAt(n: nat, k: nat)
    requires n % 8 == 0 && k < 64
    ensures Pos(k) < n <==> k < n
  {
  }

  // ----- the searches -----

  ghost predicate NoneSet(ws: seq<Word>, lo: nat, hi: nat)
    requires hi <= 64 * |ws|
  {
    forall k :: lo <= k < hi ==> !Bit(ws, k)
  }

  ghost predicate AllSet(ws: seq<Word>, lo: nat, hi: nat)
    requires hi <= 64 * |ws|
  {
    forall k :: lo <= k < hi ==> Bit(ws, k)
  }

  lemma InWord(ws: seq<Word>, base: nat, k: nat)
    requires base % 64 == 0 && k < 64 && base + 64 <= 64 * |ws|
    ensures Bit(ws, base + k) == ws[base / 64][Pos(k)]
  {
    assert (base + k) / 64 == base / 64 && (base + k) % 64 == k;
  }

  /** tmp marks exactly the clear bits of the word at base between lo and hi. */
  ghost predicate MarksClear(ws: seq<Word>, base: nat, lo: nat, hi: nat, tmp: Word)
    requires base + 64 <= 64 * |ws|
  {
    forall k :: 0 <= k < 64 ==> (tmp[Pos(k)] <==> lo <= k < hi && !Bit(ws, base + k))
  }

  /** tmp marks exactly the set bits of the word at base between lo and hi. */
  ghost predicate MarksSet(ws: seq<Word>, base: nat, lo: nat, hi: nat, tmp: Word)
    requires base + 64 <= 64 * |ws|
  {
    forall k :: 0 <= k < 64 ==> (tmp[Pos(k)] <==> lo <= k < hi && Bit(ws, base + k))
  }

  lemma PosOnto(p: nat)
    requires p < 64
    ensures Pos(Pos(p)) == p
  {
  }

  lemma ClearWordMarks(ws: seq<Word>, base: nat, lo: nat, hi: nat, tmp: Word)
    requires base + 64 <= 64 * |ws| && MarksClear(ws, base, lo, hi, tmp) && hi <= 64
    ensures Zero(tmp) <==> AllSet(ws, base + lo, base + hi)
  {
    if Zero(tmp) {
      forall k | base + lo <= k < base + hi ensures Bit(ws, k) {
        assert !tmp[Pos(k - base)];
        assert Bit(ws, base + (k - base));
      }
    }
    if AllSet(ws, base + lo, base + hi) {
      forall p | 0 <= p < 64 ensures !tmp[p] {
        PosOnto(p);
        assert lo <= Pos(p) < hi ==> Bit(ws, base + Pos(p));
        assert tmp[Pos(Pos(p))] == tmp[p];
      }
    }
  }

  lemma SetWordMarks(ws: seq<Word>, base: nat, lo: nat, hi: nat, tmp: Word)
    requires base + 64 <= 64 * |ws| && MarksSet(ws, base, lo, hi, tmp) && hi <= 64
    ensures Zero(tmp) <==> NoneSet(ws, base + lo, base + hi)
  {
    if Zero(tmp) {
      forall k | base + lo <= k < base + hi ensures !Bit(ws, k) {
        assert !tmp[Pos(k - base)];
        assert !Bit(ws, base + (k - base));
      }
    }
    if NoneSet(ws, base + lo, base + hi) {
      forall p | 0 <= p < 64 ensures !tmp[p] {
        PosOnto(p);
        assert lo <= Pos(p) < hi ==> !Bit(ws, base + Pos(p));
        assert tmp[Pos(Pos(p))] == tmp[p];
      }
    }
  }

  lemma MarkClear(ws: seq<Word>, base: nat, off: nat, hi: nat, tmp: Word)
    requires base % 64 == 0 && base + 64 <= 64 * |ws| && off < 64 && hi <= 64 && hi % 8 == 0
    requires tmp == Or(Or(ws[base / 64], BeforeMask(off)), Shl(Ones(), hi))
    ensures MarksClear(ws, base, off, hi, Not(tmp))
  {
    forall k | 0 <= k < 64 ensures Not(tmp)[Pos(k)] <==> off <= k < hi && !Bit(ws, base + k) {
      InWord(ws, base, k);
      BeforeMaskAt(off, k);
      LowAt(hi, k);
    }
  }

  lemma MarkSet(ws: seq<Word>, base: nat, hi: nat, tmp: Word)
    requires base % 64 == 0 && base + 64 <= 64 * |ws| && 0 < hi <= 64 && hi % 8 == 0
    requires tmp == And(ws[base / 64], Shr(Ones(), 64 - hi))
    ensures MarksSet(ws, base, 0, hi, tmp)
  {
    forall k | 0 <= k < 64 ensures tmp[Pos(k)] <==> 0 <= k < hi && Bit(ws, base + k) {
      InWord(ws, base, k);
      LowAt(hi, k);
    }
  }

  /** The first marked bit is the answer. */
  lemma FirstClear(ws: seq<Word>, base: nat, lo: nat, hi: nat, tmp: Word, num: nat)
    requires base + 64 <= 64 * |ws| && MarksClear(ws, base, lo, hi, tmp) && IsFirst(tmp, num)
    ensures lo <= num < hi && !Bit(ws, base + num) && AllSet(ws, base + lo, base + num)
  {
    forall k | base + lo <= k < base + num ensures Bit(ws, k) {
      assert !tmp[Pos(k - base)];
      assert Bit(ws, base + (k - base));
    }
  }

  lemma FirstSet(ws: seq<Word>, base: nat, lo: nat, hi: nat, tmp: Word, num: nat)
    requires base + 64 <= 64 * |ws| && MarksSet(ws, base, lo, hi, tmp) && IsFirst(tmp, num)
    ensures lo <= num < hi && Bit(ws, base + num) && NoneSet(ws, base + lo, base + num)
  {
    forall k | base + lo <= k < base + num ensures !Bit(ws, k) {
      assert !tmp[Pos(k - base)];
      assert !Bit(ws, base + (k - base));
    }
  }

  /** One word of the zero-bit search, from off to hi. */
  method ZeroInWord(ws: seq<Word>, base: nat, off: nat, hi: nat) returns (r: nat)
    requires base % 64 == 0 && base + 64 <= 64 * |ws| && off < hi <= 64 && hi % 8 == 0
    ensures off <= r <= hi && AllSet(ws, base + off, base + r) && (r < hi ==> !Bit(ws, base + r))
  {
    var tmp := Or(Or(ws[base / 64], BeforeMask(off)), Shl(Ones(), hi));
    MarkClear(ws, base, off, hi, tmp);
    ClearWordMarks(ws, base, off, hi, Not(tmp));
    if Zero(Not(tmp)) {
      return hi;
    }
    r := ReverseFfs(Not(tmp));
    FirstClear(ws, base, off, hi, Not(tmp), r);
  }

  /** Where a search stands: at a word, a whole number of bytes from the end. */
  predicate Aligned(size: nat, result: nat, left: nat) {
    size % 8 == 0 && result % 64 == 0 && left % 8 == 0 && result + left == size
  }

  lemma AlignedNext(size: nat, result: nat, left: nat)
    requires Aligned(size, result, left) && left >= 64
    ensures Aligned(size, result + 64, left - 64)
  {
  }

  lemma AlignedAt(size: nat, offset: nat)
    requires size % 8 == 0 && offset < size
    ensures Aligned(size, offset / 64 * 64, size - offset / 64 * 64)
    ensures offset / 64 * 64 + offset % 64 == offset
  {
  }

  /** __find_rev_next_zero_bit: the first clear bit at or after offset, for sizes of
      whole bytes. */
  method FindRevNextZeroBit(ws: seq<Word>, size: nat, offset: nat) returns (r: nat)
    requires size <= 64 * |ws| && size % 8 == 0
    ensures r <= size && (offset >= size ==> r == size)
    ensures offset < size ==> offset <= r && AllSet(ws, offset, r) && (r < size ==> !Bit(ws, r))
  {
    if offset >= size {
      return size;
    }
    var result: nat := offset / 64 * 64;
    var left: nat := size - result;
    var off: nat := offset % 64;
    AlignedAt(size, offset);
    while left > 0
      invariant Aligned(size, result, left) && off < 64
      invariant if left > 0 then off < left else off == 0
      invariant offset <= result + off && AllSet(ws, offset, result + off)
      decreases left
    {
      var hi := if left < 64 then left else 64;
      r := ZeroInWord(ws, result, off, hi);
      if r < hi || left < 64 {
        return result + r;
      }
      AlignedNext(size, result, left);
      result, left, off := result + 64, left - 64, 0;
    }
    r := result;
  }

  /** A full word of the next-bit search, or its last part. */
  method SetInWord(ws: seq<Word>, base: nat, hi: nat) returns (r: nat)
    requires base % 64 == 0 && base + 64 <= 64 * |ws| && 0 < hi <= 64 && hi % 8 == 0
    ensures r <= hi && NoneSet(ws, base, base + r) && (r < hi ==> Bit(ws, base + r))
  {
    var tmp := And(ws[base / 64], Shr(Ones(), 64 - hi));
    MarkSet(ws, base, hi, tmp);
    SetWordMarks(ws, base, 0, hi, tmp);
    if Zero(tmp) {
      return hi;
    }
    r := ReverseFfs(tmp);
    FirstSet(ws, base, 0, hi, tmp, r);
  }

  lemma MarkByte(ws: seq<Word>, base: nat, off: nat, tmp: Word)
    requires base % 64 == 0 && base + 64 <= 64 * |ws| && off < 64
    requires tmp == And(ws[base / 64], FromMask(off))
    ensures MarksSet(ws, base, off, ByteStart(off) + 8, tmp)
  {
    forall k | 0 <= k < 64 ensures tmp[Pos(k)] <==> off <= k < ByteStart(off) + 8 && Bit(ws, base + k) {
      InWord(ws, base, k);
      FromMaskAt(off, k);
    }
  }

  /** The first word of the next-bit search when offset is inside it: the mask leaves
      one byte, so a miss says nothing about the bytes after it. */
  method SetInFirstByte(ws: seq<Word>, base: nat, off: nat) returns (r: nat)
    requires base % 64 == 0 && base + 64 <= 64 * |ws| && off < 64
    ensures off < r <= ByteStart(off) + 8 || r == off
    ensures r <= ByteStart(off) + 8 <= 64 && NoneSet(ws, base + off, base + r)
    ensures r < ByteStart(off) + 8 ==> Bit(ws, base + r)
  {
    var tmp := And(ws[base / 64], FromMask(off));
    MarkByte(ws, base, off, tmp);
    SetWordMarks(ws, base, off, ByteStart(off) + 8, tmp);
    if Zero(tmp) {
      return ByteStart(off) + 8;
    }
    r := ReverseFfs(tmp);
    FirstSet(ws, base, off, ByteStart(off) + 8, tmp, r);
  }

  /** When the next-bit search finds the first set bit: it starts at a word, or the
      rest of offset's byte has one, or the rest of offset's word has none. */
  ghost predicate SearchesRight(ws: seq<Word>, size: nat, offset: nat)
    requires size <= 64 * |ws| && size % 8 == 0 && offset < size
  {
    var byteEnd := offset / 8 * 8 + 8;
    var wordEnd := if offset / 64 * 64 + 64 < size then offset / 64 * 64 + 64 else size;
    offset % 64 == 0 || !NoneSet(ws, offset, byteEnd) || NoneSet(ws, byteEnd, wordEnd)
  }

  /** The words from base on. */
  method SetFromWord(ws: seq<Word>, size: nat, base: nat) returns (r: nat)
    requires size <= 64 * |ws| && size % 8 == 0 && base % 64 == 0 && base <= size
    ensures base <= r <= size && NoneSet(ws, base, r) && (r < size ==> Bit(ws, r))
  {
    var result := base;
    var left: nat := size - base;
    while left > 0
      invariant base <= result && Aligned(size, result, left)
      invariant NoneSet(ws, base, result)
      decreases left
    {
      var hi := if left < 64 then left else 64;
      r := SetInWord(ws, result, hi);
      if r < hi || left < 64 {
        return result + r;
      }
      AlignedNext(size, result, left);
      result, left := result + 64, left - 64;
    }
    r := result;
  }

  lemma FirstWordEnds(size: nat, offset: nat)
    requires size % 8 == 0 && offset < size
    ensures var base, off := offset / 64 * 64, offset % 64;
            base + off == offset && base + ByteStart(off) + 8 == offset / 8 * 8 + 8 <= size
  {
  }

  /** __find_rev_next_bit as written: whatever it returns below size is a set bit at or
      after offset, and it is the first one exactly when SearchesRight holds. */
  method FindRevNextBit(ws: seq<Word>, size: nat, offset: nat) returns (r: nat)
    requires size <= 64 * |ws| && size % 8 == 0
    ensures r <= size && (offset >= size ==> r == size)
    ensures offset < size ==> offset <= r && (r < size ==> Bit(ws, r))
    ensures offset < size ==> (NoneSet(ws, offset, r) <==> SearchesRight(ws, size, offset))
  {
    if offset >= size {
      return size;
    }
    var base := offset / 64 * 64;
    var off := offset % 64;
    AlignedAt(size, offset);
    if off == 0 {
      r := SetFromWord(ws, size, base);
      return;
    }
    FirstWordEnds(size, offset);
    var k := SetInFirstByte(ws, base, off);
    if k < ByteStart(off) + 8 {
      return base + k;
    }
    if size - base < 64 {
      return size;
    }
    r := SetFromWord(ws, size, base + 64);
  }

  /** With one bit set, the 9th of a word, a search from the 2nd on misses it. */
  lemma NextBitMisses()
    ensures var w := MakeWord((i: nat) => i == Pos(8));
            Bit([w], 8) && !SearchesRight([w], 64, 1)
  {
    var w := MakeWord((i: nat) => i == Pos(8));
    forall k | 1 <= k < 8 ensures !Bit([w], k) {
      assert Pos(k) != Pos(8);
    }
    assert Bit([w], 8);
  }
}
