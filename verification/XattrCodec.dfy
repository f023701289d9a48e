/** The extended-attribute list as bytes (fs/f2fs/xattr.h): a header, entries one
    after another, and a zero word where the next entry would start. */
module XattrCodec {
  import opened Division

  type Byte = b: int | 0 <= b < 256
  type Bytes = seq<Byte>

  /** sizeof(struct f2fs_xattr_header) and of an entry before its name. */
  const HEADER: nat := 24
  const ENTRY: nat := 4
  const NAME_LEN: nat := 255

  datatype Key = Key(index: Byte, name: Bytes)
  datatype Entry = Entry(key: Key, value: Bytes) {
    /** What fits the entry's fields; index 0 is no name index. */
    predicate Valid() { key.index != 0 && |key.name| <= NAME_LEN && |value| < 0x1_0000 }
  }

  /** The sizes of the inline area, of a node block and of its footer. */
  datatype Layout = Layout(inlineSize: nat, page: nat, footer: nat) {
    predicate Valid() {
      inlineSize % 4 == 0 && page % 4 == 0 && footer % 4 == 0 && HEADER + ENTRY + footer + 4 <= page && inlineSize + page < 0x1_0000
    }

    /** MIN_OFFSET. */
    function MinOffset(): nat requires Valid() { inlineSize + page - footer - 4 }
    function MaxValueLen(): nat requires Valid() { MinOffset() - HEADER - ENTRY }
  }

  /** XATTR_ALIGN. */
  function Align(n: nat): (r: nat)
    ensures n <= r < n + 4 && r % 4 == 0
  {
    (n + 3) / 4 * 4
  }

  function Zeros(n: nat): (r: Bytes)
    ensures |r| == n && forall i :: 0 <= i < n ==> r[i] == 0
  {
    seq(n, i => 0)
  }

  function EntrySize(e: Entry): nat { Align(ENTRY + |e.key.name| + |e.value|) }

  function Head(e: Entry): (r: Bytes)
    requires e.Valid()
    ensures |r| == ENTRY
  {
    [e.key.index, |e.key.name|, |e.value| % 256, |e.value| / 256]
  }

  /** One entry: index, name length, value size (low byte first), name, value, padding. */
  function EncodeEntry(e: Entry): (r: Bytes)
    requires e.Valid()
    ensures |r| == EntrySize(e)
  {
    Head(e) + e.key.name + e.value + Zeros(EntrySize(e) - ENTRY - |e.key.name| - |e.value|)
  }

  ghost predicate AllValid(es: seq<Entry>) { forall i :: 0 <= i < |es| ==> es[i].Valid() }

  function Encode(es: seq<Entry>): Bytes
    requires AllValid(es)
  {
    if es == [] then [] else EncodeEntry(es[0]) + Encode(es[1..])
  }

  lemma {:induction false} EncodeConcat(a: seq<Entry>, b: seq<Entry>)
    requires AllValid(a) && AllValid(b)
    ensures Encode(a + b) == Encode(a) + Encode(b)
  {
    if a == [] {
      assert a + b == b;
    } else {
      EncodeConcat(a[1..], b);
      assert (a + b)[1..] == a[1..] + b;
    }
  }

  lemma {:induction false} EncodeAligned(es: seq<Entry>)
    requires AllValid(es)
    ensures |Encode(es)| % 4 == 0
  {
    if es != [] {
      EncodeAligned(es[1..]);
    }
  }

  lemma EncodeOne(e: Entry)
    requires e.Valid()
    ensures Encode([e]) == EncodeEntry(e)
  {
    assert Encode([e][1..]) == [];
  }

  // ----- the whole buffer -----

  ghost predicate IsZero(b: Bytes, lo: nat, hi: nat) {
    hi <= |b| && forall i :: lo <= i < hi ==> b[i] == 0
  }

  /** IS_XATTR_LAST_ENTRY. */
  predicate IsLast(b: Bytes, off: nat)
    requires off + 4 <= |b|
  {
    b[off] == 0 && b[off + 1] == 0 && b[off + 2] == 0 && b[off + 3] == 0
  }

  ghost predicate DistinctKeys(es: seq<Entry>) {
    forall i, j :: 0 <= i < j < |es| ==> es[i].key != es[j].key
  }

  function EndOf(es: seq<Entry>): nat
    requires AllValid(es)
  {
    HEADER + |Encode(es)|
  }

  /** The buffer holds es, zero from there to the end of the last possible
      terminator; the node footer after that may be anything. */
  ghost predicate Holds(l: Layout, b: Bytes, es: seq<Entry>)
    requires l.Valid()
  {
    && |b| == l.inlineSize + l.page
    && AllValid(es) && DistinctKeys(es)
    && EndOf(es) <= l.MinOffset()
    && b[HEADER..EndOf(es)] == Encode(es)
    && IsZero(b, EndOf(es), l.MinOffset() + 4)
  }

  /** Splitting the list at an entry splits the buffer there. */
  lemma EntryAt(l: Layout, b: Bytes, es: seq<Entry>, i: nat)
    requires l.Valid() && Holds(l, b, es) && i < |es|
    ensures var off := EndOf(es[..i]);
            && off + EntrySize(es[i]) == EndOf(es[..i + 1]) <= EndOf(es)
            && EndOf(es) - EndOf(es[..i + 1]) == |Encode(es[i + 1..])|
            && b[off..off + EntrySize(es[i])] == EncodeEntry(es[i])
            && b[HEADER..off] == Encode(es[..i])
            && b[off + EntrySize(es[i])..EndOf(es)] == Encode(es[i + 1..])
  {
    EncodeSplit(es, i);
    ThreeParts(b, HEADER, Encode(es[..i]), EncodeEntry(es[i]), Encode(es[i + 1..]));
  }

  lemma EncodeSplit(es: seq<Entry>, i: nat)
    requires AllValid(es) && i < |es|
    ensures Encode(es) == Encode(es[..i]) + (EncodeEntry(es[i]) + Encode(es[i + 1..]))
    ensures Encode(es[..i + 1]) == Encode(es[..i]) + EncodeEntry(es[i])
  {
    SplitAt(es, i);
    SplitAfter(es, i);
  }

  lemma EncodeHead(es: seq<Entry>, i: nat)
    requires AllValid(es) && i < |es|
    ensures AllValid(es[i..]) && Encode(es[i..]) == EncodeEntry(es[i]) + Encode(es[i + 1..])
  {
    assert es[i..][0] == es[i] && es[i..][1..] == es[i + 1..];
  }

  lemma SplitAt(es: seq<Entry>, i: nat)
    requires AllValid(es) && i < |es|
    ensures Encode(es) == Encode(es[..i]) + (EncodeEntry(es[i]) + Encode(es[i + 1..]))
  {
    EncodeHead(es, i);
    EncodeHalves(es, i);
  }

  lemma {:induction false} EncodeHalves(es: seq<Entry>, i: nat)
    requires AllValid(es) && i <= |es|
    ensures AllValid(es[..i]) && AllValid(es[i..])
    ensures Encode(es) == Encode(es[..i]) + Encode(es[i..])
  {
    if i == 0 {
      assert es[..0] == [] && es[0..] == es;
    } else {
      EncodeHalves(es[1..], i - 1);
      assert es[..i][1..] == es[1..][..i - 1] && es[..i][0] == es[0];
      assert es[1..][i - 1..] == es[i..];
    }
  }

  lemma SplitAfter(es: seq<Entry>, i: nat)
    requires AllValid(es) && i < |es|
    ensures Encode(es[..i + 1]) == Encode(es[..i]) + EncodeEntry(es[i])
  {
    EncodeConcat(es[..i], [es[i]]);
    EncodeOne(es[i]);
    assert es[..i + 1] == es[..i] + [es[i]];
  }

  lemma ThreeParts(b: Bytes, at: nat, x: Bytes, y: Bytes, z: Bytes)
    requires at + |x| + |y| + |z| <= |b| && b[at..at + |x| + |y| + |z|] == x + (y + z)
    ensures b[at..at + |x|] == x && b[at + |x|..at + |x| + |y|] == y && b[at + |x| + |y|..at + |x| + |y| + |z|] == z
  {
    var w := x + (y + z);
    Window(b, at, w, 0, |x|);
    Window(b, at, w, |x|, |x| + |y|);
    Window(b, at, w, |x| + |y|, |w|);
    assert w[..|x|] == x && w[|x|..|x| + |y|] == y && w[|x| + |y|..] == z;
  }

  /** A part of a part. */
  lemma Window(b: Bytes, at: nat, w: Bytes, lo: nat, hi: nat)
    requires at + |w| <= |b| && b[at..at + |w|] == w && lo <= hi <= |w|
    ensures b[at + lo..at + hi] == w[lo..hi]
  {
    var x, y := b[at + lo..at + hi], w[lo..hi];
    forall i | 0 <= i < hi - lo ensures x[i] == y[i] {
      assert b[at..at + |w|][lo + i] == w[lo + i];
    }
  }

  // ----- what the bytes at an entry say -----

  function NameLenAt(b: Bytes, off: nat): nat
    requires off + 4 <= |b|
  {
    b[off + 1]
  }

  /** e_value_size, low byte first. */
  function ValueLenAt(b: Bytes, off: nat): nat
    requires off + 4 <= |b|
  {
    var lo: int, hi: int := b[off + 2], b[off + 3];
    lo + 256 * hi
  }

  /** ENTRY_SIZE. */
  function SizeAt(b: Bytes, off: nat): nat
    requires off + 4 <= |b|
  {
    Align(ENTRY + NameLenAt(b, off) + ValueLenAt(b, off))
  }

  function KeyAt(b: Bytes, off: nat): Key
    requires off + 4 <= |b| && off + 4 + NameLenAt(b, off) <= |b|
  {
    Key(b[off], b[off + 4..off + 4 + NameLenAt(b, off)])
  }

  function ValueAt(b: Bytes, off: nat): Bytes
    requires off + 4 <= |b| && off + 4 + NameLenAt(b, off) + ValueLenAt(b, off) <= |b|
  {
    b[off + 4 + NameLenAt(b, off)..off + 4 + NameLenAt(b, off) + ValueLenAt(b, off)]
  }

  /** Reading an encoded entry gives it back. */
  lemma DecodeEntry(b: Bytes, off: nat, e: Entry)
    requires e.Valid() && off + EntrySize(e) <= |b| && b[off..off + EntrySize(e)] == EncodeEntry(e)
    ensures off + 4 <= |b| && !IsLast(b, off) && SizeAt(b, off) == EntrySize(e)
    ensures b[off] == e.key.index && NameLenAt(b, off) == |e.key.name| && ValueLenAt(b, off) == |e.value|
    ensures off + 4 + NameLenAt(b, off) + ValueLenAt(b, off) <= |b|
    ensures KeyAt(b, off) == e.key && ValueAt(b, off) == e.value
  {
    var r := EncodeEntry(e);
    var n, v := |e.key.name|, |e.value|;
    Window(b, off, r, 0, 4);
    Window(b, off, r, 4, 4 + n);
    Window(b, off, r, 4 + n, 4 + n + v);
    assert b[off..off + 4] == Head(e);
    assert b[off] == b[off..off + 4][0] && b[off + 1] == b[off..off + 4][1];
    assert b[off + 2] == b[off..off + 4][2] && b[off + 3] == b[off..off + 4][3];
    assert r[4..4 + n] == e.key.name;
    assert r[4 + n..4 + n + v] == e.value;
  }

  /** A buffer holds one list only: the encoding loses nothing. */
  lemma HoldsUnique(l: Layout, b: Bytes, e1: seq<Entry>, e2: seq<Entry>)
    requires l.Valid() && Holds(l, b, e1) && Holds(l, b, e2)
    ensures e1 == e2
  {
    var n := if |e1| <= |e2| then |e1| else |e2|;
    CommonPrefix(l, b, e1, e2, n);
    assert e1[..n] == e2[..n];
    if n < |e1| {
      EntryAt(l, b, e1, n);
      DecodeEntry(b, EndOf(e1[..n]), e1[n]);
      assert e2[..n] == e2;
      EndIsLast(l, b, e2);
    }
    if n < |e2| {
      EntryAt(l, b, e2, n);
      DecodeEntry(b, EndOf(e2[..n]), e2[n]);
      assert e1[..n] == e1;
      EndIsLast(l, b, e1);
    }
  }

  lemma EndIsLast(l: Layout, b: Bytes, es: seq<Entry>)
    requires l.Valid() && Holds(l, b, es)
    ensures EndOf(es) + 4 <= |b| && IsLast(b, EndOf(es))
  {
  }

  lemma {:induction false} CommonPrefix(l: Layout, b: Bytes, e1: seq<Entry>, e2: seq<Entry>, n: nat)
    requires l.Valid() && Holds(l, b, e1) && Holds(l, b, e2) && n <= |e1| && n <= |e2|
    ensures e1[..n] == e2[..n]
  {
    if n > 0 {
      CommonPrefix(l, b, e1, e2, n - 1);
      SameEntry(l, b, e1, e2, n - 1);
      assert e1[..n] == e1[..n - 1] + [e1[n - 1]];
      assert e2[..n] == e2[..n - 1] + [e2[n - 1]];
    }
  }

  lemma SameEntry(l: Layout, b: Bytes, e1: seq<Entry>, e2: seq<Entry>, i: nat)
    requires l.Valid() && Holds(l, b, e1) && Holds(l, b, e2) && i < |e1| && i < |e2| && e1[..i] == e2[..i]
    ensures e1[i] == e2[i]
  {
    EntryAt(l, b, e1, i);
    EntryAt(l, b, e2, i);
    DecodeEntry(b, EndOf(e1[..i]), e1[i]);
    DecodeEntry(b, EndOf(e1[..i]), e2[i]);
  }

  // ----- the map a list stands for -----

  function MapOf(es: seq<Entry>): map<Key, Bytes> {
    if es == [] then map[] else MapOf(es[..|es| - 1])[es[|es| - 1].key := es[|es| - 1].value]
  }

  lemma {:induction false} MapOfAt(es: seq<Entry>)
    requires DistinctKeys(es)
    ensures forall k :: k in MapOf(es) <==> exists i :: 0 <= i < |es| && es[i].key == k
    ensures forall i :: 0 <= i < |es| ==> es[i].key in MapOf(es) && MapOf(es)[es[i].key] == es[i].value
  {
    if es != [] {
      var n := |es| - 1;
      MapOfAt(es[..n]);
      forall k ensures k in MapOf(es) <==> exists i :: 0 <= i < |es| && es[i].key == k {
        if i :| 0 <= i < |es| && es[i].key == k {
          assert i < n ==> es[..n][i].key == k;
        }
        if i :| 0 <= i < n && es[..n][i].key == k {
          assert es[i].key == k;
        }
      }
      forall i | 0 <= i < |es| ensures es[i].key in MapOf(es) && MapOf(es)[es[i].key] == es[i].value {
        assert i < n ==> es[..n][i] == es[i];
      }
    }
  }

  function Removed(es: seq<Entry>, i: nat): seq<Entry>
    requires i < |es|
  {
    es[..i] + es[i + 1..]
  }

  lemma RemovedKeys(es: seq<Entry>, i: nat, k: Key)
    requires DistinctKeys(es) && i < |es|
    ensures (exists j :: 0 <= j < |Removed(es, i)| && Removed(es, i)[j].key == k) <==>
            k != es[i].key && exists j :: 0 <= j < |es| && es[j].key == k
  {
    var r := Removed(es, i);
    if j :| 0 <= j < |es| && es[j].key == k && j != i {
      assert r[if j < i then j else j - 1] == es[j];
    }
    if j :| 0 <= j < |r| && r[j].key == k {
      assert r[j] == es[if j < i then j else j + 1];
    }
  }

  lemma RemovedAt(es: seq<Entry>, i: nat)
    requires DistinctKeys(es) && i < |es|
    ensures DistinctKeys(Removed(es, i))
    ensures forall j :: 0 <= j < |Removed(es, i)| ==> Removed(es, i)[j] == es[if j < i then j else j + 1]
  {
  }

  lemma RemovedMap(es: seq<Entry>, i: nat)
    requires DistinctKeys(es) && i < |es|
    ensures DistinctKeys(Removed(es, i)) && MapOf(Removed(es, i)) == MapOf(es) - {es[i].key}
  {
    var m, n := MapOf(Removed(es, i)), MapOf(es);
    RemovedAt(es, i);
    forall k ensures k in m <==> k in n && k != es[i].key {
      RemovedIn(es, i, k);
    }
    forall k | k in m ensures k in n && m[k] == n[k] {
      RemovedValue(es, i, k);
    }
    WithoutKey(m, n, es[i].key);
  }

  lemma WithoutKey(m: map<Key, Bytes>, n: map<Key, Bytes>, x: Key)
    requires forall k :: k in m <==> k in n && k != x
    requires forall k :: k in m ==> m[k] == n[k]
    ensures m == n - {x}
  {
  }

  lemma RemovedIn(es: seq<Entry>, i: nat, k: Key)
    requires DistinctKeys(es) && i < |es|
    ensures k in MapOf(Removed(es, i)) <==> k in MapOf(es) && k != es[i].key
  {
    RemovedAt(es, i);
    MapOfAt(es);
    MapOfAt(Removed(es, i));
    RemovedKeys(es, i, k);
  }

  lemma RemovedValue(es: seq<Entry>, i: nat, k: Key)
    requires DistinctKeys(es) && i < |es| && k in MapOf(Removed(es, i))
    ensures k in MapOf(es) && MapOf(Removed(es, i))[k] == MapOf(es)[k]
  {
    RemovedAt(es, i);
    MapOfAt(es);
    MapOfAt(Removed(es, i));
    var j :| 0 <= j < |Removed(es, i)| && Removed(es, i)[j].key == k;
    assert es[if j < i then j else j + 1].key == k;
  }

  lemma AppendedMap(es: seq<Entry>, e: Entry)
    requires DistinctKeys(es) && forall i :: 0 <= i < |es| ==> es[i].key != e.key
    ensures DistinctKeys(es + [e]) && MapOf(es + [e]) == MapOf(es)[e.key := e.value]
  {
    assert (es + [e])[..|es|] == es;
  }
}
