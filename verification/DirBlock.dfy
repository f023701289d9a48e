/** One dentry block (fs/f2fs/dir.c): a slot bitmap, a dentry per slot and name
    bytes, 8 per slot; a name takes as many slots in a row as it needs. */
module DirBlock {

  type Byte = b: int | 0 <= b < 256
  type Name = seq<Byte>

  /** F2FS_SLOT_LEN. */
  const SLOT_LEN: nat := 8

  /** GET_DENTRY_SLOTS. */
  function Slots(len: nat): nat { (len + SLOT_LEN - 1) / SLOT_LEN }

  datatype Dentry = Dentry(hash: nat, nameLen: nat, ino: nat)

  datatype Block = Block(bits: seq<bool>, dentry: seq<Dentry>, filename: seq<Byte>) {
    function Max(): nat { |bits| }

    predicate Shape() { |dentry| == |bits| && |filename| == SLOT_LEN * |bits| }

    /** The run of slots of the entry at p lies inside the block and is marked. */
    ghost predicate Run(p: nat)
      requires Shape()
    {
      && p < Max() && dentry[p].nameLen > 0 && p + Slots(dentry[p].nameLen) <= Max()
      && forall k :: p <= k < p + Slots(dentry[p].nameLen) ==> bits[k]
    }

    function RunEnd(p: nat): nat
      requires Shape() && p < Max()
    {
      p + Slots(dentry[p].nameLen)
    }

    function NameAt(p: nat): Name
      requires Shape() && p < Max() && RunEnd(p) <= Max()
    {
      NameFits(p, dentry[p].nameLen, Max());
      filename[SLOT_LEN * p..SLOT_LEN * p + dentry[p].nameLen]
    }

    /** starts are where the entries start: their runs are apart and are all that is marked. */
    ghost predicate Holds(starts: set<nat>) {
      && Shape()
      && (forall p :: p in starts ==> Run(p))
      && (forall p, q :: p in starts && q in starts && p < q ==> RunEnd(p) <= q)
      && (forall k :: 0 <= k < Max() && bits[k] ==> InSome(starts, k))
    }

    ghost predicate InSome(starts: set<nat>, k: nat)
      requires Shape()
    {
      exists p :: p in starts && p < Max() && p <= k < RunEnd(p)
    }

    /** len free slots from p on. */
    ghost predicate FreeRun(p: nat, len: nat) {
      p + len <= Max() && forall k :: p <= k < p + len ==> !bits[k]
    }
  }

  lemma NameFits(p: nat, len: nat, max: nat)
    requires p + Slots(len) <= max
    ensures SLOT_LEN * p + len <= SLOT_LEN * (p + Slots(len)) <= SLOT_LEN * max
  {
  }

  lemma SlotsPositive(len: nat)
    ensures len > 0 <==> Slots(len) > 0
  {
  }

  function EmptyBlock(max: nat): (b: Block)
    ensures b.Shape() && b.Max() == max && b.Holds({})
  {
    Block(seq(max, i => false), seq(max, i => Dentry(0, 0, 0)), seq(SLOT_LEN * max, i => 0))
  }

  // ----- searching -----

  /** The walk never stands inside a run. */
  ghost predicate AtBoundary(b: Block, starts: set<nat>, pos: nat)
    requires b.Holds(starts)
  {
    forall p :: p in starts ==> pos <= p || b.RunEnd(p) <= pos
  }

  /** A marked slot at a boundary starts an entry. */
  lemma MarkedStarts(b: Block, starts: set<nat>, pos: nat)
    requires b.Holds(starts) && AtBoundary(b, starts, pos) && pos < b.Max() && b.bits[pos]
    ensures pos in starts && AtBoundary(b, starts, b.RunEnd(pos)) && pos < b.RunEnd(pos)
  {
    assert b.InSome(starts, pos);
    SlotsPositive(b.dentry[pos].nameLen);
  }

  /** maxSlots is the length of the longest free run that ends by pos, len that of the
      free run at pos. */
  ghost predicate RoomSeen(b: Block, pos: nat, maxSlots: nat, len: nat) {
    && len <= pos <= b.Max() && b.FreeRun(pos - len, len) && (len < pos ==> b.bits[pos - len - 1])
    && (forall p: nat, k: nat :: b.FreeRun(p, k) && p + k <= pos ==> k <= maxSlots || k <= len)
    && (maxSlots > 0 ==> exists p: nat :: b.FreeRun(p, maxSlots))
  }

  /** find_target_dentry: the slot of the entry with this name and hash, or, when the
      block has none, Max and the size of its largest free run. */
  method FindTargetDentry(b: Block, name: Name, hash: nat, ghost starts: set<nat>) returns (pos: nat, maxSlots: nat)
    requires b.Holds(starts)
    ensures pos <= b.Max()
    ensures pos < b.Max() ==> pos in starts && b.NameAt(pos) == name && b.dentry[pos].hash == hash
    ensures pos == b.Max() ==> forall p :: p in starts ==> b.NameAt(p) != name || b.dentry[p].hash != hash
    ensures pos == b.Max() ==> (forall p: nat, k: nat :: b.FreeRun(p, k) ==> k <= maxSlots)
    ensures pos == b.Max() && maxSlots > 0 ==> exists p: nat :: b.FreeRun(p, maxSlots)
  {
    pos, maxSlots := 0, 0;
    var maxLen := 0;
    while pos < b.Max()
      invariant pos <= b.Max() && AtBoundary(b, starts, pos)
      invariant forall p :: p in starts && p < pos ==> b.NameAt(p) != name || b.dentry[p].hash != hash
      invariant RoomSeen(b, pos, maxSlots, maxLen)
      decreases b.Max() - pos
    {
      if !b.bits[pos] {
        RoomGrows(b, pos, maxSlots, maxLen);
        pos, maxLen := pos + 1, maxLen + 1;
        continue;
      }
      MarkedStarts(b, starts, pos);
      if b.dentry[pos].nameLen == |name| && b.dentry[pos].hash == hash && b.NameAt(pos) == name {
        return;
      }
      RoomEnds(b, pos, b.RunEnd(pos), maxSlots, maxLen);
      if maxLen > maxSlots {
        maxSlots := maxLen;
      }
      maxLen := 0;
      pos := b.RunEnd(pos);
    }
    if maxLen > maxSlots {
      maxSlots := maxLen;
    }
  }

  lemma RoomGrows(b: Block, pos: nat, maxSlots: nat, len: nat)
    requires pos < b.Max() && !b.bits[pos] && RoomSeen(b, pos, maxSlots, len)
    ensures RoomSeen(b, pos + 1, maxSlots, len + 1)
  {
    forall p: nat, k: nat | b.FreeRun(p, k) && p + k <= pos + 1
      ensures k <= maxSlots || k <= len + 1
    {
      if p + k == pos + 1 && len < pos {
        var before := pos - len - 1;
        assert b.bits[before];
      }
    }
  }

  lemma RoomEnds(b: Block, pos: nat, end: nat, maxSlots: nat, len: nat)
    requires RoomSeen(b, pos, maxSlots, len) && pos < end <= b.Max() && forall k :: pos <= k < end ==> b.bits[k]
    ensures RoomSeen(b, end, if len > maxSlots then len else maxSlots, 0)
  {
    forall p: nat, k: nat | b.FreeRun(p, k) && p + k <= end
      ensures k <= maxSlots || k <= len
    {
      var met := if p > pos then p else pos;
      var marked := met < b.Max() && b.bits[met];
    }
  }

  // ----- room -----

  /** find_next_zero_bit_le / find_next_bit_le. */
  method FindNext(bits: seq<bool>, want: bool, start: nat) returns (r: nat)
    requires start <= |bits|
    ensures start <= r <= |bits| && (r < |bits| ==> bits[r] == want)
    ensures forall k :: start <= k < r ==> bits[k] != want
  {
    r := start;
    while r < |bits| && bits[r] != want
      invariant start <= r <= |bits| && forall k :: start <= k < r ==> bits[k] != want
    {
      r := r + 1;
    }
  }

  /** room_for_filename: the first place with room for slots slots, else Max. */
  method RoomForFilename(b: Block, slots: nat) returns (r: nat)
    requires slots > 0
    ensures r <= b.Max()
    ensures r < b.Max() ==> b.FreeRun(r, slots)
    ensures forall p: nat :: p < r ==> !b.FreeRun(p, slots)
  {
    var start := 0;
    while true
      invariant start <= b.Max()
      invariant forall p: nat :: p < start ==> !b.FreeRun(p, slots)
      decreases b.Max() - start
    {
      var zeroStart := FindNext(b.bits, false, start);
      assert forall p :: start <= p < zeroStart && b.FreeRun(p, slots) ==> !b.bits[p];
      if zeroStart >= b.Max() {
        return b.Max();
      }
      var zeroEnd := FindNext(b.bits, true, zeroStart);
      if zeroEnd - zeroStart >= slots {
        return zeroStart;
      }
      assert forall p :: zeroStart <= p <= zeroEnd && zeroEnd < b.Max() && b.FreeRun(p, slots) ==> !b.bits[zeroEnd];
      start := zeroEnd + 1;
      if zeroEnd + 1 >= b.Max() {
        return b.Max();
      }
    }
  }

  // ----- changing -----

  function Marked(bits: seq<bool>, p: nat, n: nat, v: bool): (r: seq<bool>)
    ensures |r| == |bits| && forall k :: 0 <= k < |bits| ==> r[k] == if p <= k < p + n then v else bits[k]
  {
    seq(|bits|, (k: nat) requires k < |bits| => if p <= k < p + n then v else bits[k])
  }

  /** f2fs_update_dentry. */
  function Added(b: Block, p: nat, name: Name, hash: nat, ino: nat): Block
    requires b.Shape() && p + Slots(|name|) <= b.Max() && |name| > 0
  {
    SlotsPositive(|name|);
    NameFits(p, |name|, b.Max());
    Block(Marked(b.bits, p, Slots(|name|), true),
          b.dentry[p := Dentry(hash, |name|, ino)],
          b.filename[..SLOT_LEN * p] + name + b.filename[SLOT_LEN * p + |name|..])
  }

  /** f2fs_delete_entry, the block's part: only the bitmap changes. */
  function Deleted(b: Block, p: nat): Block
    requires b.Shape() && p < b.Max()
  {
    b.(bits := Marked(b.bits, p, Slots(b.dentry[p].nameLen), false))
  }

  /** Adding into a free run leaves every other entry as it is. */
  lemma AddedHolds(b: Block, starts: set<nat>, p: nat, name: Name, hash: nat, ino: nat)
    requires b.Holds(starts) && |name| > 0 && b.FreeRun(p, Slots(|name|)) && p < b.Max()
    ensures var r := Added(b, p, name, hash, ino);
            && p !in starts && r.Holds(starts + {p}) && r.Max() == b.Max()
            && r.NameAt(p) == name && r.dentry[p] == Dentry(hash, |name|, ino)
    ensures var r := Added(b, p, name, hash, ino);
            forall q :: q in starts ==> r.dentry[q] == b.dentry[q] && r.NameAt(q) == b.NameAt(q)
  {
    var r := Added(b, p, name, hash, ino);
    SlotsPositive(|name|);
    NameFits(p, |name|, b.Max());
    forall q | q in starts ensures b.RunEnd(q) <= p || p + Slots(|name|) <= q {
      RunsApart(b, starts, q, p, Slots(|name|));
    }
    if p in starts {
      RunsApart(b, starts, p, p, Slots(|name|));
    }
    forall k | 0 <= k < r.Max() && r.bits[k] ensures r.InSome(starts + {p}, k) {
      if p <= k < p + Slots(|name|) {
        assert r.RunEnd(p) == p + Slots(|name|);
      } else {
        assert b.InSome(starts, k);
        var q :| q in starts && q < b.Max() && q <= k < b.RunEnd(q);
        assert r.RunEnd(q) == b.RunEnd(q);
      }
    }
    forall q | q in starts ensures r.NameAt(q) == b.NameAt(q) {
      OtherName(b, p, name, hash, ino, q);
    }
  }

  /** A free run meets no entry. */
  lemma RunsApart(b: Block, starts: set<nat>, q: nat, p: nat, len: nat)
    requires b.Holds(starts) && q in starts && b.FreeRun(p, len) && len > 0
    ensures q < b.RunEnd(q) && (b.RunEnd(q) <= p || p + len <= q)
  {
    SlotsPositive(b.dentry[q].nameLen);
    var k := if p <= q then q else p;
    var met := k < b.Max() && b.bits[k];
  }

  lemma OtherName(b: Block, p: nat, name: Name, hash: nat, ino: nat, q: nat)
    requires b.Shape() && p + Slots(|name|) <= b.Max() && |name| > 0 && q < b.Max() && b.RunEnd(q) <= b.Max() && q != p
    requires b.RunEnd(q) <= p || p + Slots(|name|) <= q
    ensures p < b.Max() && Added(b, p, name, hash, ino).NameAt(q) == b.NameAt(q)
  {
    SlotsPositive(|name|);
    NameFits(p, |name|, b.Max());
    NameFits(q, b.dentry[q].nameLen, b.Max());
  }

  /** Deleting an entry leaves every other entry as it is. */
  lemma DeletedHolds(b: Block, starts: set<nat>, p: nat)
    requires b.Holds(starts) && p in starts
    ensures Deleted(b, p).Holds(starts - {p}) && Deleted(b, p).Max() == b.Max()
    ensures forall q :: q in starts ==> Deleted(b, p).dentry[q] == b.dentry[q] && Deleted(b, p).NameAt(q) == b.NameAt(q)
  {
    var r := Deleted(b, p);
    forall q | q in starts - {p} ensures r.Run(q) {
      assert b.Run(q);
      assert q < p ==> b.RunEnd(q) <= p;
      assert p < q ==> b.RunEnd(p) <= q;
    }
    forall k | 0 <= k < r.Max() && r.bits[k] ensures r.InSome(starts - {p}, k) {
      assert b.InSome(starts, k);
      var q :| q in starts && q < b.Max() && q <= k < b.RunEnd(q);
      assert r.RunEnd(q) == b.RunEnd(q);
    }
  }

  /** No slot is marked exactly when there is no entry. */
  lemma EmptyIffNoStart(b: Block, starts: set<nat>)
    requires b.Holds(starts)
    ensures (forall k :: 0 <= k < b.Max() ==> !b.bits[k]) <==> starts == {}
  {
    if p :| p in starts {
      assert b.Run(p);
      SlotsPositive(b.dentry[p].nameLen);
      assert b.bits[p];
    } else {
      assert forall k :: 0 <= k < b.Max() && b.bits[k] ==> b.InSome(starts, k);
    }
  }
}
