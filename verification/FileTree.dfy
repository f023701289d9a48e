/** A file's index tree as a value: the inode's own addresses, two direct nodes, two
    indirect ones and a double indirect one (fs/f2fs/node.c, fs/f2fs/file.c). */
module FileTree {
  import opened Options
  import opened Division
  import opened NodePath

  /** NULL_ADDR, NEW_ADDR, or a block. */
  datatype Addr = Null | New | At(blk: nat)

  type Leaf = Option<seq<Addr>>
  type Ind = Option<seq<Leaf>>
  type Dind = Option<seq<Ind>>

  datatype File = File(addrs: seq<Addr>, direct: seq<Leaf>, ind: seq<Ind>, dind: Dind)

  predicate LeafOk(f: Fan, l: Leaf) { l.Some? ==> |l.value| == f.a }

  ghost predicate IndOk(f: Fan, i: Ind) {
    i.Some? ==> |i.value| == f.n && forall k :: 0 <= k < f.n ==> LeafOk(f, i.value[k])
  }

  ghost predicate DindOk(f: Fan, d: Dind) {
    d.Some? ==> |d.value| == f.n && forall k :: 0 <= k < f.n ==> IndOk(f, d.value[k])
  }

  ghost predicate FileOk(f: Fan, t: File) {
    && |t.addrs| == f.a0 && |t.direct| == 2 && |t.ind| == 2
    && LeafOk(f, t.direct[0]) && LeafOk(f, t.direct[1]) && IndOk(f, t.ind[0]) && IndOk(f, t.ind[1]) && DindOk(f, t.dind)
  }

  /** Child k of an indirect node; a missing node has none. */
  function LeafIn(i: Ind, k: nat): Leaf { if i.Some? && k < |i.value| then i.value[k] else None }

  function IndIn(d: Dind, k: nat): Ind { if d.Some? && k < |d.value| then d.value[k] else None }

  /** The q-th leaf after the inode. */
  function LeafOf(f: Fan, t: File, q: nat): Leaf
    requires f.Valid() && |t.direct| == 2 && |t.ind| == 2
  {
    if q < 2 then t.direct[q]
    else if q < 2 + f.n then LeafIn(t.ind[0], q - 2)
    else if q < 2 + 2 * f.n then LeafIn(t.ind[1], q - 2 - f.n)
    else LeafBelow(f, t.dind, q - 2 - 2 * f.n)
  }

  /** The p-th leaf below the double indirect node. */
  function LeafBelow(f: Fan, d: Dind, p: nat): Leaf
    requires f.Valid()
  {
    LeafIn(IndIn(d, p / f.n), p % f.n)
  }

  /** What the file maps block b to. */
  function Lookup(f: Fan, t: File, b: nat): Addr
    requires f.Valid() && |t.addrs| == f.a0 && |t.direct| == 2 && |t.ind| == 2
  {
    if b < f.a0 then t.addrs[b]
    else InLeaf(LeafOf(f, t, (b - f.a0) / f.a), (b - f.a0) % f.a)
  }

  /** Slot k of a direct node; a missing node maps nothing. */
  function InLeaf(l: Leaf, k: nat): Addr { if l.Some? && k < |l.value| then l.value[k] else Null }

  // ----- sizes -----

  function DataIn(s: seq<Addr>): nat {
    if s == [] then 0 else DataIn(s[..|s| - 1]) + (if s[|s| - 1].Null? then 0 else 1)
  }

  /** Blocks a node stands for: itself, what is below it, and with data also the data blocks. */
  function LeafSize(l: Leaf, data: bool): nat {
    match l case None => 0 case Some(s) => 1 + (if data then DataIn(s) else 0)
  }

  function LeavesSize(s: seq<Leaf>, data: bool): nat {
    if s == [] then 0 else LeavesSize(s[..|s| - 1], data) + LeafSize(s[|s| - 1], data)
  }

  function IndSize(i: Ind, data: bool): nat {
    match i case None => 0 case Some(s) => 1 + LeavesSize(s, data)
  }

  function IndsSize(s: seq<Ind>, data: bool): nat {
    if s == [] then 0 else IndsSize(s[..|s| - 1], data) + IndSize(s[|s| - 1], data)
  }

  function DindSize(d: Dind, data: bool): nat {
    match d case None => 0 case Some(s) => 1 + IndsSize(s, data)
  }

  /** What the file takes up beside its inode block. */
  function FileSize(t: File, data: bool): nat
    requires |t.direct| == 2 && |t.ind| == 2
  {
    (if data then DataIn(t.addrs) else 0)
    + LeafSize(t.direct[0], data) + LeafSize(t.direct[1], data)
    + IndSize(t.ind[0], data) + IndSize(t.ind[1], data) + DindSize(t.dind, data)
  }

  lemma {:induction false} DataUpdate(s: seq<Addr>, i: nat)
    requires i < |s|
    ensures DataIn(s[i := Null]) == DataIn(s) - if s[i].Null? then 0 else 1
  {
    var n := |s| - 1;
    if i < n {
      DataUpdate(s[..n], i);
      assert s[i := Null][..n] == s[..n][i := Null];
    } else {
      assert s[i := Null][..n] == s[..n];
    }
  }

  lemma {:induction false} LeavesUpdate(s: seq<Leaf>, i: nat, l: Leaf, data: bool)
    requires i < |s|
    ensures LeavesSize(s[i := l], data) == LeavesSize(s, data) - LeafSize(s[i], data) + LeafSize(l, data)
  {
    var n := |s| - 1;
    if i < n {
      LeavesUpdate(s[..n], i, l, data);
      assert s[i := l][..n] == s[..n][i := l];
    } else {
      assert s[i := l][..n] == s[..n];
    }
  }

  lemma {:induction false} IndsUpdate(s: seq<Ind>, i: nat, x: Ind, data: bool)
    requires i < |s|
    ensures IndsSize(s[i := x], data) == IndsSize(s, data) - IndSize(s[i], data) + IndSize(x, data)
  {
    var n := |s| - 1;
    if i < n {
      IndsUpdate(s[..n], i, x, data);
      assert s[i := x][..n] == s[..n][i := x];
    } else {
      assert s[i := x][..n] == s[..n];
    }
  }

  lemma {:induction false} EmptyLeaves(s: seq<Leaf>, data: bool)
    requires forall k :: 0 <= k < |s| ==> s[k] == None
    ensures LeavesSize(s, data) == 0
  {
    if s != [] {
      EmptyLeaves(s[..|s| - 1], data);
    }
  }

  lemma {:induction false} EmptyInds(s: seq<Ind>, data: bool)
    requires forall k :: 0 <= k < |s| ==> s[k] == None
    ensures IndsSize(s, data) == 0
  {
    if s != [] {
      EmptyInds(s[..|s| - 1], data);
    }
  }

  // ----- cutting -----

  /** Everything from ofs on gone. */
  function CutAddrs(s: seq<Addr>, ofs: nat): (r: seq<Addr>)
    requires ofs <= |s|
    ensures |r| == |s| && forall k :: 0 <= k < |s| ==> r[k] == if k < ofs then s[k] else Null
  {
    seq(|s|, (k: nat) requires k < |s| => if k < ofs then s[k] else Null)
  }

  function CutLeaves(s: seq<Leaf>, ofs: nat): (r: seq<Leaf>)
    requires ofs <= |s|
    ensures |r| == |s| && forall k :: 0 <= k < |s| ==> r[k] == if k < ofs then s[k] else None
  {
    seq(|s|, (k: nat) requires k < |s| => if k < ofs then s[k] else None)
  }

  function CutInds(s: seq<Ind>, ofs: nat): (r: seq<Ind>)
    requires ofs <= |s|
    ensures |r| == |s| && forall k :: 0 <= k < |s| ==> r[k] == if k < ofs then s[k] else None
  {
    seq(|s|, (k: nat) requires k < |s| => if k < ofs then s[k] else None)
  }

  /** An indirect node cut from its first child on goes itself. */
  function CutInd(i: Ind, ofs: nat): Ind
    requires i.Some? ==> ofs <= |i.value|
  {
    if i.None? || ofs == 0 then None else Some(CutLeaves(i.value, ofs))
  }

  function CutDind(d: Dind, ofs: nat): Dind
    requires d.Some? ==> ofs <= |d.value|
  {
    if d.None? || ofs == 0 then None else Some(CutInds(d.value, ofs))
  }

  /** The double indirect node cut from leaf y of child x on: with that child missing
      there is nothing to keep of it, and the cut is at x. */
  function CutDindAt(f: Fan, d: Dind, x: nat, y: nat): Dind
    requires f.Valid() && (d.Some? ==> |d.value| == f.n) && x < f.n && y < f.n
    requires IndIn(d, x).Some? ==> |IndIn(d, x).value| == f.n
  {
    if d.None? || y == 0 || d.value[x].None? then CutDind(d, x)
    else Some(CutInds(d.value[x := CutInd(d.value[x], y)], x + 1))
  }

  /** The file without its leaves from leaf on. */
  function CutFile(f: Fan, t: File, leaf: nat): File
    requires f.Valid() && FileOk(f, t) && leaf < Leaves(f)
  {
    var n := f.n;
    BelowDouble(f, leaf);
    File(t.addrs,
         [if 0 < leaf then t.direct[0] else None, if 1 < leaf then t.direct[1] else None],
         [CutSub(f, t.ind[0], 2, leaf), CutSub(f, t.ind[1], 2 + n, leaf)],
         if leaf <= 2 + 2 * n then None else CutDeep(f, t.dind, leaf - 2 - 2 * n))
  }

  lemma BelowDouble(f: Fan, leaf: nat)
    requires f.Valid() && leaf < Leaves(f)
    ensures leaf >= 2 + 2 * f.n ==> (leaf - 2 - 2 * f.n) / f.n < f.n
  {
    if leaf >= 2 + 2 * f.n {
      DivBelow(leaf - 2 - 2 * f.n, f.n, f.n);
    }
  }

  /** The double indirect node without its leaves from the p-th on. */
  function CutDeep(f: Fan, d: Dind, p: nat): Dind
    requires f.Valid() && DindOk(f, d) && p / f.n < f.n
  {
    CutDindAt(f, d, p / f.n, p % f.n)
  }

  /** An indirect node whose leaves are start.. */
  function CutSub(f: Fan, i: Ind, start: nat, leaf: nat): Ind
    requires f.Valid() && IndOk(f, i)
  {
    if leaf <= start then None else if leaf >= start + f.n then i else CutInd(i, leaf - start)
  }

  lemma CutSubLeaves(f: Fan, i: Ind, start: nat, leaf: nat, k: nat)
    requires f.Valid() && IndOk(f, i) && k < f.n
    ensures IndOk(f, CutSub(f, i, start, leaf))
    ensures LeafIn(CutSub(f, i, start, leaf), k) == if start + k < leaf then LeafIn(i, k) else None
    ensures CutSub(f, i, start, leaf).Some? <==> i.Some? && start < leaf
  {
  }

  lemma CutDindLeaves(f: Fan, d: Dind, x: nat, y: nat, j: nat, k: nat)
    requires f.Valid() && DindOk(f, d) && x < f.n && y < f.n && j < f.n && k < f.n
    ensures DindOk(f, CutDindAt(f, d, x, y))
    ensures LeafIn(IndIn(CutDindAt(f, d, x, y), j), k) ==
              if j < x || (j == x && k < y) then LeafIn(IndIn(d, j), k) else None
    ensures IndIn(CutDindAt(f, d, x, y), j).Some? <==> IndIn(d, j).Some? && (j < x || (j == x && 0 < y))
    ensures CutDindAt(f, d, x, y).Some? <==> d.Some? && (0 < x || (0 < y && IndIn(d, 0).Some?))
  {
  }

  lemma DivOrder(q: nat, r: nat, n: nat)
    requires 0 < n
    ensures q < r <==> q / n < r / n || (q / n == r / n && q % n < r % n)
  {
    Divided(q, n);
    Divided(r, n);
    if q / n < r / n {
      TimesMono(q / n + 1, r / n, n);
      assert (q / n + 1) * n == (q / n) * n + n;
    } else if q / n > r / n {
      TimesMono(r / n + 1, q / n, n);
      assert (r / n + 1) * n == (r / n) * n + n;
    }
  }

  /** Cutting at a leaf keeps every leaf before it and none from it on. */
  lemma CutFileLeaves(f: Fan, t: File, leaf: nat, q: nat)
    requires f.Valid() && FileOk(f, t) && leaf < Leaves(f) && q < Leaves(f)
    ensures FileOk(f, CutFile(f, t, leaf))
    ensures LeafOf(f, CutFile(f, t, leaf), q) == if q < leaf then LeafOf(f, t, q) else None
  {
    var n := f.n;
    CutSubLeaves(f, t.ind[0], 2, leaf, if 2 <= q < 2 + n then q - 2 else 0);
    CutSubLeaves(f, t.ind[1], 2 + n, leaf, if 2 + n <= q < 2 + 2 * n then q - 2 - n else 0);
    BelowDouble(f, leaf);
    BelowDouble(f, q);
    DivUnique(0, n, 0, 0);
    if leaf > 2 + 2 * n {
      CutDeepLeaves(f, t.dind, leaf - 2 - 2 * n, if q >= 2 + 2 * n then q - 2 - 2 * n else 0);
    }
  }

  lemma CutDeepLeaves(f: Fan, d: Dind, r: nat, p: nat)
    requires f.Valid() && DindOk(f, d) && r / f.n < f.n && p / f.n < f.n
    ensures DindOk(f, CutDeep(f, d, r)) && LeafBelow(f, CutDeep(f, d, r), p) == if p < r then LeafBelow(f, d, p) else None
  {
    DivOrder(p, r, f.n);
    CutDindOrder(f, d, r / f.n, r % f.n, p / f.n, p % f.n, p < r);
  }

  lemma CutDindOrder(f: Fan, d: Dind, x: nat, y: nat, j: nat, k: nat, before: bool)
    requires f.Valid() && DindOk(f, d) && x < f.n && y < f.n && j < f.n && k < f.n
    requires before <==> j < x || (j == x && k < y)
    ensures DindOk(f, CutDindAt(f, d, x, y))
    ensures LeafIn(IndIn(CutDindAt(f, d, x, y), j), k) == if before then LeafIn(IndIn(d, j), k) else None
  {
    CutDindLeaves(f, d, x, y, j, k);
  }

  /** A node block goes exactly when the leaves below it all come at or after the cut;
      the double indirect node also when the cut is in its first child and that
      child is missing. */
  lemma CutFileNodes(f: Fan, t: File, leaf: nat, x: nat)
    requires f.Valid() && FileOk(f, t) && leaf < Leaves(f) && x < f.n
    ensures CutFile(f, t, leaf).ind[0].Some? <==> t.ind[0].Some? && 2 < leaf
    ensures CutFile(f, t, leaf).ind[1].Some? <==> t.ind[1].Some? && 2 + f.n < leaf
    ensures IndIn(CutFile(f, t, leaf).dind, x).Some? <==> IndIn(t.dind, x).Some? && 2 + 2 * f.n + x * f.n < leaf
    ensures CutFile(f, t, leaf).dind.Some? <==>
              t.dind.Some? && 2 + 2 * f.n < leaf && !(leaf < 2 + 3 * f.n && IndIn(t.dind, 0).None?)
  {
    CutSubLeaves(f, t.ind[0], 2, leaf, 0);
    CutSubLeaves(f, t.ind[1], 2 + f.n, leaf, 0);
    TimesMono(0, x, f.n);
    BelowDouble(f, leaf);
    if leaf > 2 + 2 * f.n {
      CutDeepNodes(f, t.dind, leaf - 2 - 2 * f.n, x);
    }
  }

  lemma CutDeepNodes(f: Fan, d: Dind, r: nat, x: nat)
    requires f.Valid() && DindOk(f, d) && 0 < r && r / f.n < f.n && x < f.n
    ensures IndIn(CutDeep(f, d, r), x).Some? <==> IndIn(d, x).Some? && x * f.n < r
    ensures CutDeep(f, d, r).Some? <==> d.Some? && !(r < f.n && IndIn(d, 0).None?)
  {
    var n := f.n;
    DivBelow(r, n, 1);
    Divided(r, n);
    TimesMono(0, x, n);
    DivUnique(x * n, n, x, 0);
    DivOrder(x * n, r, n);
    CutDindLeaves(f, d, r / n, r % n, x, 0);
  }
}
