/** Reading and editing extended attributes in place (fs/f2fs/xattr.c): one buffer
    over the inode's inline area and the xattr node block. */
module XattrManager {
  import opened Options
  import opened XattrCodec

  datatype Errno = Success | ERANGE | ENODATA | EEXIST | ENOSPC

  // ----- what the byte moves amount to -----

  /** Moving the entries after the i-th over it and zeroing what they leave. */
  function CutBytes(b: Bytes, here: nat, next: nat, last: nat): Bytes
    requires here <= next <= last <= |b|
  {
    b[..here] + b[next..last] + Zeros(next - here) + b[last..]
  }

  lemma RemovedEnd(es: seq<Entry>, i: nat)
    requires AllValid(es) && i < |es|
    ensures AllValid(Removed(es, i)) && Encode(Removed(es, i)) == Encode(es[..i]) + Encode(es[i + 1..])
    ensures EndOf(Removed(es, i)) + EntrySize(es[i]) == EndOf(es)
  {
    EncodeConcat(es[..i], es[i + 1..]);
    EncodeSplit(es, i);
  }

  lemma CutHolds(l: Layout, b: Bytes, es: seq<Entry>, i: nat)
    requires l.Valid() && Holds(l, b, es) && i < |es|
    ensures var here, next, last := EndOf(es[..i]), EndOf(es[..i + 1]), EndOf(es);
            here <= next <= last <= |b| && Holds(l, CutBytes(b, here, next, last), Removed(es, i))
  {
    var here, next, last := EndOf(es[..i]), EndOf(es[..i + 1]), EndOf(es);
    EntryAt(l, b, es, i);
    RemovedEnd(es, i);
    RemovedAt(es, i);
    var r := CutBytes(b, here, next, last);
    assert r[HEADER..EndOf(Removed(es, i))] == b[HEADER..here] + b[next..last];
    CutZeros(l, b, here, next, last);
  }

  lemma CutZeros(l: Layout, b: Bytes, here: nat, next: nat, last: nat)
    requires l.Valid() && here <= next <= last <= |b| && IsZero(b, last, l.MinOffset() + 4)
    ensures IsZero(CutBytes(b, here, next, last), last - (next - here), l.MinOffset() + 4)
  {
  }

  function PasteBytes(b: Bytes, at: nat, x: Bytes): Bytes
    requires at + |x| <= |b|
  {
    b[..at] + x + b[at + |x|..]
  }

  lemma PasteHolds(l: Layout, b: Bytes, es: seq<Entry>, e: Entry)
    requires l.Valid() && Holds(l, b, es) && e.Valid() && forall i :: 0 <= i < |es| ==> es[i].key != e.key
    requires EndOf(es) + EntrySize(e) <= l.MinOffset()
    ensures Holds(l, PasteBytes(b, EndOf(es), EncodeEntry(e)), es + [e])
    ensures EndOf(es + [e]) == EndOf(es) + EntrySize(e)
  {
    EncodeConcat(es, [e]);
    EncodeOne(e);
    PasteRegions(b, EndOf(es), EncodeEntry(e), l.MinOffset() + 4);
  }

  lemma PasteRegions(b: Bytes, at: nat, x: Bytes, end: nat)
    requires HEADER <= at && at + |x| <= end && IsZero(b, at, end)
    ensures var r := PasteBytes(b, at, x);
            |r| == |b| && r[HEADER..at + |x|] == b[HEADER..at] + x && IsZero(r, at + |x|, end)
  {
  }

  // ----- memory -----

  lemma PasteGrows(b: Bytes, at: nat, x: Bytes, y: Byte)
    requires at + |x| < |b|
    ensures PasteBytes(b, at, x)[at + |x| := y] == PasteBytes(b, at, x + [y])
    ensures forall k :: at + |x| <= k < |b| ==> PasteBytes(b, at, x)[k] == b[k]
  {
  }

  method Memmove(a: array<Byte>, dst: nat, src: nat, n: nat)
    requires dst <= src && src + n <= a.Length
    modifies a
    ensures a[..] == old(a[..dst]) + old(a[src..src + n]) + old(a[dst + n..])
  {
    ghost var b := a[..];
    var i := 0;
    while i < n
      invariant i <= n && a[..] == PasteBytes(b, dst, b[src..src + i])
    {
      MoveByte(a, dst, src, i, b);
      i := i + 1;
    }
  }

  method MoveByte(a: array<Byte>, dst: nat, src: nat, i: nat, ghost b: Bytes)
    requires dst <= src && src + i < a.Length == |b| && a[..] == PasteBytes(b, dst, b[src..src + i])
    modifies a
    ensures a[..] == PasteBytes(b, dst, b[src..src + (i + 1)])
  {
    PasteGrows(b, dst, b[src..src + i], b[src + i]);
    assert a[src + i] == a[..][src + i] == b[src + i];
    a[dst + i] := a[src + i];
    assert b[src..src + i] + [b[src + i]] == b[src..src + (i + 1)];
  }

  method Memcpy(a: array<Byte>, dst: nat, x: Bytes)
    requires dst + |x| <= a.Length
    modifies a
    ensures a[..] == PasteBytes(old(a[..]), dst, x)
  {
    var i := 0;
    while i < |x|
      invariant i <= |x|
      invariant a[..] == PasteBytes(old(a[..]), dst, x[..i])
    {
      PasteGrows(old(a[..]), dst, x[..i], x[i]);
      a[dst + i] := x[i];
      assert x[..i] + [x[i]] == x[..i + 1];
      i := i + 1;
    }
    assert x[..|x|] == x;
  }

  method Memset(a: array<Byte>, dst: nat, n: nat)
    requires dst + n <= a.Length
    modifies a
    ensures a[..] == PasteBytes(old(a[..]), dst, Zeros(n))
  {
    Memcpy(a, dst, Zeros(n));
  }

  /** The memmove and the memset of a removal. */
  method MoveUp(a: array<Byte>, here: nat, next: nat, last: nat)
    requires here <= next <= last <= a.Length
    modifies a
    ensures a[..] == CutBytes(old(a[..]), here, next, last)
  {
    ghost var b := a[..];
    Memmove(a, here, next, last - next);
    assert a[..] == b[..here] + b[next..last] + b[here + (last - next)..];
    MoveThenClear(b, here, next, last);
    Memset(a, last - (next - here), next - here);
  }

  lemma MoveThenClear(b: Bytes, here: nat, next: nat, last: nat)
    requires here <= next <= last <= |b|
    ensures var moved := b[..here] + b[next..last] + b[here + (last - next)..];
            |moved| == |b| && PasteBytes(moved, last - (next - here), Zeros(next - here)) == CutBytes(b, here, next, last)
  {
    var moved := b[..here] + b[next..last] + b[here + (last - next)..];
    assert moved[last..] == b[last..];
    assert moved[..last - (next - here)] == b[..here] + b[next..last];
  }

  lemma PasteInside(b: Bytes, at: nat, z: Bytes, k: nat, y: Bytes)
    requires at + |z| <= |b| && k + |y| <= |z|
    ensures PasteBytes(PasteBytes(b, at, z), at + k, y) == PasteBytes(b, at, z[..k] + y + z[k + |y|..])
  {
  }

  /** Zeroing, then the header bytes, the name and the value, is the whole entry. */
  lemma EntryPieces(e: Entry)
    requires e.Valid()
    ensures var size, n, v := EntrySize(e), |e.key.name|, |e.value|;
            var z0, z1, z2 := Zeros(size), Head(e) + Zeros(size - ENTRY), Head(e) + e.key.name + Zeros(size - ENTRY - n);
            && |z0| == |z1| == |z2| == size
            && z1 == z0[..0] + Head(e) + z0[0 + ENTRY..]
            && z2 == z1[..ENTRY] + e.key.name + z1[ENTRY + n..]
            && EncodeEntry(e) == z2[..ENTRY + n] + e.value + z2[ENTRY + n + v..]
  {
  }

  // ----- the inode -----

  class XattrInode {
    const l: Layout
    var inlineArea: Bytes
    var xnode: Option<Bytes>
    ghost var es: seq<Entry>

    /** Inline area, then the xattr block or, without one, zeroes. */
    ghost function Buffer(): Bytes
      reads this
    {
      inlineArea + (if xnode.Some? then xnode.value else Zeros(l.page))
    }

    ghost predicate Valid()
      reads this
    {
      && l.Valid() && |inlineArea| == l.inlineSize && (xnode.Some? ==> |xnode.value| == l.page)
      && Holds(l, Buffer(), es)
    }

    ghost function Map(): map<Key, Bytes>
      reads this
    {
      MapOf(es)
    }

    constructor (l: Layout)
      requires l.Valid()
      ensures Valid() && es == [] && this.l == l
    {
      this.l := l;
      inlineArea, xnode, es := Zeros(l.inlineSize), None, [];
    }

    /** read_all_xattrs. */
    method ReadAllXattrs() returns (base: array<Byte>)
      requires Valid()
      ensures fresh(base) && base.Length == l.inlineSize + l.page && Holds(l, base[..], es)
    {
      base := ReadAreas();
      if !(base[0] == 0x11 && base[1] == 0x20 && base[2] == 0xF5 && base[3] == 0xF2) {
        Memcpy(base, 0, [0x11, 0x20, 0xF5, 0xF2, 1, 0, 0, 0]);
      }
      SameBeyondHeader(l, Buffer(), base[..], es);
    }

    /** The two areas copied behind each other. */
    method ReadAreas() returns (base: array<Byte>)
      requires Valid()
      ensures fresh(base) && base.Length == l.inlineSize + l.page && base[..] == Buffer()
    {
      base := new Byte[l.inlineSize + l.page](i => 0);
      ghost var zeros := Zeros(l.inlineSize + l.page);
      assert base[..] == zeros;
      Memcpy(base, 0, inlineArea);
      assert base[..] == inlineArea + Zeros(l.page);
      if xnode.Some? {
        Memcpy(base, l.inlineSize, xnode.value);
      }
    }

    /** __find_xattr: the offset of the entry with this key, or of the terminator. */
    method FindXattr(base: array<Byte>, key: Key, ghost list: seq<Entry>) returns (off: nat, ghost i: nat)
      requires l.Valid() && Holds(l, base[..], list)
      ensures i <= |list| && off == EndOf(list[..i]) && off + 4 <= base.Length
      ensures IsLast(base[..], off) <==> i == |list|
      ensures i < |list| ==> list[i].key == key
      ensures forall j :: 0 <= j < i ==> list[j].key != key
    {
      off, i := HEADER, 0;
      EntryOrEnd(l, base[..], list, 0);
      while !IsLast(base[..], off)
        invariant i <= |list| && off == EndOf(list[..i]) && off + 4 <= base.Length
        invariant IsLast(base[..], off) <==> i == |list|
        invariant forall j :: 0 <= j < i ==> list[j].key != key
        decreases |list| - i
      {
        EntryFacts(l, base[..], list, i);
        if base[off] == key.index && NameLenAt(base[..], off) == |key.name|
           && base[off + 4..off + 4 + |key.name|] == key.name {
          return;
        }
        off := off + SizeAt(base[..], off);
        i := i + 1;
        EntryOrEnd(l, base[..], list, i);
      }
    }

    /** The walk from here to the terminator. */
    method FindLast(base: array<Byte>, here: nat, ghost list: seq<Entry>, ghost at: nat) returns (last: nat)
      requires l.Valid() && Holds(l, base[..], list) && at <= |list| && here == EndOf(list[..at])
      ensures last == EndOf(list) && last + 4 <= base.Length
    {
      last := here;
      ghost var i := at;
      EntryOrEnd(l, base[..], list, i);
      while !IsLast(base[..], last)
        invariant i <= |list| && last == EndOf(list[..i]) && last + 4 <= base.Length
        invariant IsLast(base[..], last) <==> i == |list|
        decreases |list| - i
      {
        EntryFacts(l, base[..], list, i);
        last := last + SizeAt(base[..], last);
        i := i + 1;
        EntryOrEnd(l, base[..], list, i);
      }
      assert list[..i] == list;
    }

    /** write_all_xattrs: with room in the inline area the node goes; otherwise all
        but the footer is written. The list held is the buffer's. */
    method WriteAllXattrs(base: array<Byte>, hsize: nat, canAlloc: bool, newFooter: Bytes, ghost list: seq<Entry>) returns (err: Errno)
      requires Valid() && base.Length == l.inlineSize + l.page && Holds(l, base[..], list) && hsize == EndOf(list)
      requires |newFooter| == l.footer
      modifies this
      ensures Valid()
      ensures err == if hsize > l.inlineSize && old(xnode).None? && !canAlloc then ENOSPC else Success
      ensures if err == Success then es == list else es == old(es) && Buffer() == old(Buffer())
    {
      if hsize > l.inlineSize && xnode.None? && !canAlloc {
        return ENOSPC;
      }
      err := Success;
      ghost var b := base[..];
      es := list;
      if l.inlineSize > 0 {
        inlineArea := base[..l.inlineSize];
        if hsize <= l.inlineSize {
          xnode := None;
          InlineHolds(l, b, list);
          return;
        }
      }
      WriteNode(base, newFooter, list);
    }

    /** What follows the inline area goes to the node, all but its footer. */
    method WriteNode(base: array<Byte>, newFooter: Bytes, ghost list: seq<Entry>)
      requires l.Valid() && base.Length == l.inlineSize + l.page && Holds(l, base[..], list) && |newFooter| == l.footer
      requires inlineArea == base[..l.inlineSize] && (xnode.Some? ==> |xnode.value| == l.page) && es == list
      modifies this`xnode
      ensures Valid()
    {
      var footer := if xnode.Some? then xnode.value[l.page - l.footer..] else newFooter;
      xnode := Some(base[l.inlineSize..l.inlineSize + l.page - l.footer] + footer);
      NewFooterHolds(l, base[..], footer, list);
      TwoAreas(base[..], inlineArea, l.inlineSize + l.page - l.footer, footer);
    }

    /** Which error a set or remove reports, in the order the checks are made. */
    ghost function Outcome(key: Key, value: Option<Bytes>, create: bool, replace: bool, canAlloc: bool): Errno
      reads this
      requires Valid()
    {
      var size := if value.Some? then |value.value| else 0;
      if |key.name| > NAME_LEN || size > l.MaxValueLen() then ERANGE
      else if replace && key !in Map() then ENODATA
      else if create && key in Map() then EEXIST
      else MapOutcome(l, es, key, value, xnode.None? && !canAlloc)
    }

    /** f2fs_getxattr with a buffer of the given size, or none. */
    method GetXattr(key: Key, bufferSize: Option<nat>) returns (err: Errno, value: Bytes)
      requires Valid() && key.index != 0
      ensures err == if |key.name| > NAME_LEN then ERANGE
                     else if key !in Map() then ENODATA
                     else if bufferSize.Some? && |Map()[key]| > bufferSize.value then ERANGE
                     else Success
      ensures err == Success ==> value == Map()[key]
    {
      value := [];
      if |key.name| > NAME_LEN {
        return ERANGE, [];
      }
      var base := ReadAllXattrs();
      ghost var i;
      var off;
      off, i := FindXattr(base, key, es);
      KeyPlace(es, key, i);
      if IsLast(base[..], off) {
        return ENODATA, [];
      }
      EntryFacts(l, base[..], es, i);
      var size := ValueLenAt(base[..], off);
      if bufferSize.Some? && size > bufferSize.value {
        return ERANGE, [];
      }
      err, value := Success, ValueAt(base[..], off);
    }

    /** Step 2 of __f2fs_setxattr: the entry at here, if there is one, goes. */
    method RemoveOldEntry(base: array<Byte>, here: nat, last: nat, key: Key, ghost list: seq<Entry>, ghost i: nat) returns (newLast: nat)
      requires l.Valid() && Holds(l, base[..], list) && Found(list, key, i) && here == EndOf(list[..i]) && last == EndOf(list)
      modifies base
      ensures Holds(l, base[..], Without(list, i)) && newLast == EndOf(Without(list, i))
    {
      newLast := last;
      EntryOrEnd(l, base[..], list, i);
      if !IsLast(base[..], here) {
        newLast := CloseGap(base, here, last, list, i);
      }
    }

    /** The entries after the i-th move up, and the gap at the end is cleared. */
    method CloseGap(base: array<Byte>, here: nat, last: nat, ghost list: seq<Entry>, ghost i: nat) returns (newLast: nat)
      requires l.Valid() && Holds(l, base[..], list) && i < |list| && here == EndOf(list[..i]) && last == EndOf(list)
      modifies base
      ensures Holds(l, base[..], Without(list, i)) && newLast == EndOf(Without(list, i))
    {
      ghost var b := base[..];
      RemoveFacts(l, b, list, i, here, last);
      var oldsize := SizeAt(base[..], here);
      newLast := last - oldsize;
      MoveUp(base, here, here + oldsize, last);
      assert base[..] == CutBytes(b, here, here + SizeAt(b, here), last);
    }

    /** Step 3: the new entry, if any, goes to the end. */
    method WriteNewEntry(base: array<Byte>, last: nat, key: Key, value: Option<Bytes>, ghost list: seq<Entry>) returns (hsize: nat)
      requires l.Valid() && Holds(l, base[..], list) && last == EndOf(list)
      requires forall j :: 0 <= j < |list| ==> list[j].key != key
      requires value.Some? ==> var e := Entry(key, value.value); e.Valid() && last + EntrySize(e) <= l.MinOffset()
      modifies base
      ensures Holds(l, base[..], list + NewOnes(key, value)) && hsize == EndOf(list + NewOnes(key, value))
    {
      hsize := last;
      if value.Some? {
        var e := Entry(key, value.value);
        PasteHolds(l, base[..], list, e);
        PasteEntry(base, last, e);
        hsize := last + EntrySize(e);
      } else {
        assert list + NewOnes(key, value) == list;
      }
    }

    /** The space check: what is free behind the list, plus the entry to be replaced. */
    method HasSpace(base: array<Byte>, here: nat, last: nat, newsize: nat, ghost list: seq<Entry>, ghost i: nat, ghost key: Key) returns (ok: bool)
      requires l.Valid() && Holds(l, base[..], list) && Found(list, key, i) && here == EndOf(list[..i]) && last == EndOf(list)
      ensures ok <==> EndOf(Without(list, i)) + newsize <= l.MinOffset()
    {
      EntryOrEnd(l, base[..], list, i);
      var free := l.MinOffset() - last;
      if !IsLast(base[..], here) {
        CutFacts(l, base[..], list, i);
        free := free + SizeAt(base[..], here);
      }
      ok := free >= newsize;
    }

    /** __f2fs_setxattr from the space check on. */
    method EditAndWrite(base: array<Byte>, here: nat, key: Key, value: Option<Bytes>, canAlloc: bool, newFooter: Bytes, ghost i: nat)
      returns (err: Errno)
      requires Valid() && base.Length == l.inlineSize + l.page && Holds(l, base[..], es) && |newFooter| == l.footer
      requires Found(es, key, i) && here == EndOf(es[..i])
      requires value.Some? ==> Entry(key, value.value).Valid()
      modifies this, base
      ensures Valid()
      ensures err == old(SpaceOutcome(l, es, i, key, value, xnode.None? && !canAlloc))
      ensures if err == Success then es == old(Edited(es, i, key, value)) else es == old(es) && Buffer() == old(Buffer())
    {
      EditedFacts(es, i, key, value);
      var last := FindLast(base, here, es, i);
      if value.Some? {
        var newsize := Align(ENTRY + |key.name| + |value.value|);
        var ok := HasSpace(base, here, last, newsize, es, i, key);
        if !ok {
          return ENOSPC;
        }
      }
      last := RemoveOldEntry(base, here, last, key, es, i);
      var newHsize := WriteNewEntry(base, last, key, value, Without(es, i));
      err := WriteAllXattrs(base, newHsize, canAlloc, newFooter, Edited(es, i, key, value));
    }

    /** __f2fs_setxattr: on success the map has exactly this key set or removed; on any
        error it is as it was, and so is every byte. */
    method SetXattr(key: Key, value: Option<Bytes>, create: bool, replace: bool, canAlloc: bool, newFooter: Bytes) returns (err: Errno)
      requires Valid() && key.index != 0 && |newFooter| == l.footer
      modifies this
      ensures Valid() && err == old(Outcome(key, value, create, replace, canAlloc))
      ensures err == Success ==>
                Map() == if value.Some? then old(Map())[key := value.value] else old(Map()) - {key}
      ensures err != Success ==> Map() == old(Map()) && Buffer() == old(Buffer())
    {
      var size := if value.Some? then |value.value| else 0;
      if |key.name| > NAME_LEN || size > l.MaxValueLen() {
        return ERANGE;
      }
      var base := ReadAllXattrs();
      ghost var i;
      var here, found;
      here, found, i := FindKey(base, key);
      if replace && !found {
        return ENODATA;
      } else if create && found {
        return EEXIST;
      }
      OutcomeIs(l, es, i, key, value, xnode.None? && !canAlloc);
      EditedMap(es, i, key, value);
      err := EditAndWrite(base, here, key, value, canAlloc, newFooter, i);
    }

    /** Whether the key is there, and the offset of its entry or of the terminator. */
    method FindKey(base: array<Byte>, key: Key) returns (here: nat, found: bool, ghost i: nat)
      requires Valid() && Holds(l, base[..], es)
      ensures Found(es, key, i) && here == EndOf(es[..i]) && (found <==> key in Map())
    {
      here, i := FindXattr(base, key, es);
      KeyPlace(es, key, i);
      found := !IsLast(base[..], here);
    }
  }

  /** i is where the search for key stops: its entry, or the end. */
  ghost predicate Found(es: seq<Entry>, key: Key, i: nat) {
    && i <= |es| && (i < |es| ==> es[i].key == key)
    && forall j :: 0 <= j < i ==> es[j].key != key
  }

  function NewOnes(key: Key, value: Option<Bytes>): seq<Entry> {
    if value.Some? then [Entry(key, value.value)] else []
  }

  ghost function Without(es: seq<Entry>, i: nat): seq<Entry> {
    if i < |es| then Removed(es, i) else es
  }

  /** The list with key's entry taken out and the new one, if any, at the end. */
  ghost function Edited(es: seq<Entry>, i: nat, key: Key, value: Option<Bytes>): seq<Entry> {
    Without(es, i) + NewOnes(key, value)
  }

  /** The new list must end within MIN_OFFSET if something is added, and within the
      inline area if no node can be had. */
  ghost function SpaceFor(l: Layout, end: int, adds: bool, noNode: bool): Errno
    requires l.Valid()
  {
    if adds && end > l.MinOffset() then ENOSPC
    else if end > l.inlineSize && noNode then ENOSPC
    else Success
  }

  ghost function SpaceOutcome(l: Layout, es: seq<Entry>, i: nat, key: Key, value: Option<Bytes>, noNode: bool): Errno
    requires l.Valid() && AllValid(es)
  {
    var old_ := if i < |es| then EntrySize(es[i]) else 0;
    var new_ := if value.Some? then EntrySize(Entry(key, value.value)) else 0;
    SpaceFor(l, EndOf(es) - old_ + new_, value.Some?, noNode)
  }

  /** The same told by the map. */
  ghost function MapOutcome(l: Layout, es: seq<Entry>, key: Key, value: Option<Bytes>, noNode: bool): Errno
    requires l.Valid() && AllValid(es)
  {
    var old_ := if key in MapOf(es) then EntrySize(Entry(key, MapOf(es)[key])) else 0;
    var new_ := if value.Some? then EntrySize(Entry(key, value.value)) else 0;
    SpaceFor(l, EndOf(es) - old_ + new_, value.Some?, noNode)
  }

  lemma OutcomeIs(l: Layout, es: seq<Entry>, i: nat, key: Key, value: Option<Bytes>, noNode: bool)
    requires l.Valid() && AllValid(es) && DistinctKeys(es) && Found(es, key, i)
    ensures key in MapOf(es) <==> i < |es|
    ensures SpaceOutcome(l, es, i, key, value, noNode) == MapOutcome(l, es, key, value, noNode)
  {
    KeyPlace(es, key, i);
  }

  lemma WithoutFacts(es: seq<Entry>, i: nat, key: Key)
    requires AllValid(es) && DistinctKeys(es) && Found(es, key, i)
    ensures AllValid(Without(es, i))
    ensures EndOf(Without(es, i)) == EndOf(es) - if i < |es| then EntrySize(es[i]) else 0
    ensures forall j :: 0 <= j < |Without(es, i)| ==> Without(es, i)[j].key != key
  {
    KeyPlace(es, key, i);
    if i < |es| {
      RemovedEnd(es, i);
      RemovedAt(es, i);
    }
  }

  lemma EditedFacts(es: seq<Entry>, i: nat, key: Key, value: Option<Bytes>)
    requires AllValid(es) && DistinctKeys(es) && Found(es, key, i) && (value.Some? ==> Entry(key, value.value).Valid())
    ensures AllValid(Without(es, i)) && AllValid(Edited(es, i, key, value))
    ensures EndOf(Without(es, i)) == EndOf(es) - if i < |es| then EntrySize(es[i]) else 0
    ensures forall j :: 0 <= j < |Without(es, i)| ==> Without(es, i)[j].key != key
    ensures EndOf(Edited(es, i, key, value)) ==
            EndOf(Without(es, i)) + if value.Some? then EntrySize(Entry(key, value.value)) else 0
  {
    WithoutFacts(es, i, key);
    EncodeConcat(Without(es, i), NewOnes(key, value));
    if value.Some? {
      EncodeOne(Entry(key, value.value));
    }
  }

  lemma EditedMap(es: seq<Entry>, i: nat, key: Key, value: Option<Bytes>)
    requires DistinctKeys(es) && Found(es, key, i)
    ensures DistinctKeys(Edited(es, i, key, value))
    ensures MapOf(Edited(es, i, key, value)) == if value.Some? then MapOf(es)[key := value.value] else MapOf(es) - {key}
  {
    var left := Without(es, i);
    KeyPlace(es, key, i);
    if i < |es| {
      RemovedMap(es, i);
      RemovedAt(es, i);
    }
    assert MapOf(left) == MapOf(es) - {key};
    if value.Some? {
      AppendedMap(left, Entry(key, value.value));
      assert (MapOf(es) - {key})[key := value.value] == MapOf(es)[key := value.value];
    } else {
      assert left + NewOnes(key, value) == left;
    }
  }

  lemma CutFacts(l: Layout, b: Bytes, es: seq<Entry>, i: nat)
    requires l.Valid() && Holds(l, b, es) && i < |es|
    ensures var here, next, last := EndOf(es[..i]), EndOf(es[..i + 1]), EndOf(es);
            && here <= next <= last <= |b| && here + 4 <= |b| && SizeAt(b, here) == next - here
            && Holds(l, CutBytes(b, here, next, last), Removed(es, i)) && EndOf(Removed(es, i)) == last - (next - here)
  {
    EntryFacts(l, b, es, i);
    CutHolds(l, b, es, i);
    RemovedEnd(es, i);
  }

  /** What the removal step leaves. */
  lemma RemoveFacts(l: Layout, b: Bytes, es: seq<Entry>, i: nat, here: nat, last: nat)
    requires l.Valid() && Holds(l, b, es) && i < |es| && here == EndOf(es[..i]) && last == EndOf(es)
    ensures here + 4 <= |b| && here + SizeAt(b, here) <= last <= |b|
    ensures AllValid(Without(es, i)) && EndOf(Without(es, i)) == last - SizeAt(b, here)
    ensures Holds(l, CutBytes(b, here, here + SizeAt(b, here), last), Without(es, i))
  {
    CutFacts(l, b, es, i);
    assert here + SizeAt(b, here) == EndOf(es[..i + 1]);
  }

  /** One entry written piece by piece over zeroed bytes. */
  method PasteEntry(a: array<Byte>, at: nat, e: Entry)
    requires e.Valid() && at + EntrySize(e) <= a.Length
    modifies a
    ensures a[..] == PasteBytes(old(a[..]), at, EncodeEntry(e))
  {
    ghost var b := a[..];
    var size, n := EntrySize(e), |e.key.name|;
    ghost var z1, z2 := Head(e) + Zeros(size - ENTRY), Head(e) + e.key.name + Zeros(size - ENTRY - n);
    EntryPieces(e);
    Memset(a, at, size);
    PasteWithin(a, at, Head(e), b, at, Zeros(size), z1);
    PasteWithin(a, at + ENTRY, e.key.name, b, at, z1, z2);
    PasteWithin(a, at + ENTRY + n, e.value, b, at, z2, EncodeEntry(e));
  }

  /** Writing y inside what was pasted at at. */
  method PasteWithin(a: array<Byte>, dst: nat, y: Bytes, ghost b: Bytes, ghost at: nat, ghost z: Bytes, ghost r: Bytes)
    requires |b| == a.Length && at + |z| <= |b| && at <= dst && dst + |y| <= at + |z| && a[..] == PasteBytes(b, at, z)
    requires r == z[..dst - at] + y + z[dst - at + |y|..]
    modifies a
    ensures a[..] == PasteBytes(b, at, r)
  {
    PasteInside(b, at, z, dst - at, y);
    Memcpy(a, dst, y);
  }

  lemma SameBeyondHeader(l: Layout, b: Bytes, r: Bytes, es: seq<Entry>)
    requires l.Valid() && Holds(l, b, es) && |r| == |b| && r[HEADER..] == b[HEADER..]
    ensures Holds(l, r, es)
  {
    assert forall k :: HEADER <= k < |b| ==> r[k] == r[HEADER..][k - HEADER];
    assert r[HEADER..EndOf(es)] == b[HEADER..EndOf(es)];
  }

  /** At the place of the i-th entry there is an entry, or after the last the terminator. */
  lemma EntryOrEnd(l: Layout, b: Bytes, es: seq<Entry>, i: nat)
    requires l.Valid() && Holds(l, b, es) && i <= |es|
    ensures EndOf(es[..i]) + 4 <= |b| && (IsLast(b, EndOf(es[..i])) <==> i == |es|)
    ensures i == 0 ==> EndOf(es[..i]) == HEADER
  {
    if i < |es| {
      EntryFacts(l, b, es, i);
    } else {
      assert es[..i] == es;
      EndIsLast(l, b, es);
    }
  }

  lemma EntryFacts(l: Layout, b: Bytes, es: seq<Entry>, i: nat)
    requires l.Valid() && Holds(l, b, es) && i < |es|
    ensures var off, e := EndOf(es[..i]), es[i];
            && off + 4 <= |b| && !IsLast(b, off)
            && SizeAt(b, off) == EntrySize(e) && off + EntrySize(e) == EndOf(es[..i + 1]) <= EndOf(es)
            && b[off] == e.key.index && NameLenAt(b, off) == |e.key.name| && ValueLenAt(b, off) == |e.value|
            && off + 4 + NameLenAt(b, off) + ValueLenAt(b, off) <= |b|
            && KeyAt(b, off) == e.key && ValueAt(b, off) == e.value
  {
    EntryAt(l, b, es, i);
    DecodeEntry(b, EndOf(es[..i]), es[i]);
  }

  lemma TwoAreas(b: Bytes, x: Bytes, end: nat, footer: Bytes)
    requires |x| <= end <= |b| && x == b[..|x|]
    ensures x + (b[|x|..end] + footer) == b[..end] + footer
  {
  }

  /** A list that fits the inline area reads back without the node. */
  lemma InlineHolds(l: Layout, b: Bytes, es: seq<Entry>)
    requires l.Valid() && Holds(l, b, es) && EndOf(es) <= l.inlineSize
    ensures Holds(l, b[..l.inlineSize] + Zeros(l.page), es)
  {
    var r := b[..l.inlineSize] + Zeros(l.page);
    assert r[HEADER..EndOf(es)] == b[HEADER..EndOf(es)];
  }

  /** The footer is beyond the last terminator. */
  lemma NewFooterHolds(l: Layout, b: Bytes, footer: Bytes, es: seq<Entry>)
    requires l.Valid() && Holds(l, b, es) && |footer| == l.footer
    ensures Holds(l, b[..l.inlineSize + l.page - l.footer] + footer, es)
  {
    var r := b[..l.inlineSize + l.page - l.footer] + footer;
    assert r[HEADER..EndOf(es)] == b[HEADER..EndOf(es)];
  }

  /** Where the search stops tells whether the key is in the map, and with what value. */
  lemma KeyPlace(es: seq<Entry>, key: Key, i: nat)
    requires DistinctKeys(es) && i <= |es| && (i < |es| ==> es[i].key == key)
    requires forall j :: 0 <= j < i ==> es[j].key != key
    ensures key in MapOf(es) <==> i < |es|
    ensures i < |es| ==> es[i] == Entry(key, MapOf(es)[key])
    ensures i < |es| ==> forall j :: 0 <= j < |es| && j != i ==> es[j].key != key
  {
    MapOfAt(es);
  }
}
