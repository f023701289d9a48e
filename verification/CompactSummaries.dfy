/** Compacted data summaries (fs/f2fs/segment.c): both journals and the summary
    entries of the three data logs packed into as few pages as possible. */
module CompactSummaries {
  import opened Division

  type Byte = b: int | 0 <= b < 256
  type Bytes = seq<Byte>

  /** PAGE_CACHE_SIZE, SUM_JOURNAL_SIZE, SUMMARY_SIZE, SUM_FOOTER_SIZE and blocks_per_seg. */
  datatype Geo = Geo(page: nat, journal: nat, sum: nat, footer: nat, blocksPerSeg: nat) {
    predicate Valid() { 0 < sum && 2 * journal + sum + footer <= page }
    function Room(): nat requires Valid() { page - footer }
  }

  /** A data log: whether it fills holes, how far it has come, and its summary entries. */
  datatype Log = Log(ssr: bool, blkoff: nat, entries: seq<Bytes>) {
    ghost predicate Valid(g: Geo) {
      && |entries| == g.blocksPerSeg && blkoff <= g.blocksPerSeg
      && forall j :: 0 <= j < |entries| ==> |entries[j]| == g.sum
    }

    /** How many of its entries are kept. */
    function Count(g: Geo): nat { if ssr then g.blocksPerSeg else blkoff }

    function Kept(g: Geo): seq<Bytes>
      requires Count(g) <= |entries|
    {
      entries[..Count(g)]
    }
  }

  /** The kept entries of the first k logs, one after another. */
  function Flat(g: Geo, logs: seq<Log>, k: nat): (r: seq<Bytes>)
    requires k <= |logs| && forall i :: 0 <= i < |logs| ==> logs[i].Count(g) <= |logs[i].entries|
  {
    if k == 0 then [] else Flat(g, logs, k - 1) + logs[k - 1].Kept(g)
  }

  // ----- where entry n goes -----

  datatype Slot = Slot(page: nat, off: nat)

  /** After an entry at s: the next place in the page, or the start of the next one. */
  function NextSlot(g: Geo, s: Slot): Slot
    requires g.Valid()
  {
    if s.off + g.sum + g.sum <= g.Room() then Slot(s.page, s.off + g.sum) else Slot(s.page + 1, 0)
  }

  function SlotOf(g: Geo, n: nat): (s: Slot)
    requires g.Valid()
    ensures s.off + g.sum <= g.Room()
  {
    if n == 0 then Slot(0, 2 * g.journal) else NextSlot(g, SlotOf(g, n - 1))
  }

  /** How many pages n entries take up. */
  function PagesUsed(g: Geo, n: nat): nat
    requires g.Valid()
  {
    if n == 0 then 1 else SlotOf(g, n - 1).page + 1
  }

  /** Entries never overlap, each other or the journals. */
  lemma {:induction false} SlotsApart(g: Geo, m: nat, n: nat)
    requires g.Valid() && m < n
    ensures var s, t := SlotOf(g, m), SlotOf(g, n); s.page < t.page || (s.page == t.page && s.off + g.sum <= t.off)
  {
    if m + 1 < n {
      SlotsApart(g, m, n - 1);
    }
  }

  lemma {:induction false} AfterJournals(g: Geo, n: nat)
    requires g.Valid()
    ensures SlotOf(g, n).page == 0 ==> SlotOf(g, n).off >= 2 * g.journal
  {
    if n > 0 {
      AfterJournals(g, n - 1);
    }
  }

  // ----- how many pages that is -----

  function FirstPageSums(g: Geo): int
    requires g.Valid()
  {
    (g.page - 2 * g.journal - g.footer) / g.sum
  }

  function PageSums(g: Geo): int
    requires g.Valid()
  {
    (g.page - g.footer) / g.sum
  }

  /** npages_for_summary_flush for n entries in all. */
  function NumPages(g: Geo, n: nat): nat
    requires g.Valid()
  {
    if n <= FirstPageSums(g) then 1
    else if n - FirstPageSums(g) <= PageSums(g) then 2
    else 3
  }

  lemma Fits(room: nat, sum: nat, n: nat)
    requires 0 < sum
    ensures n * sum <= room <==> n <= room / sum
  {
    var q, r := room / sum, room % sum;
    assert room == q * sum + r;
    if n <= q {
      TimesMono(n, q, sum);
    } else {
      TimesMono(q + 1, n, sum);
    }
  }

  lemma {:induction false} FirstPageSlot(g: Geo, n: nat)
    requires g.Valid() && n < FirstPageSums(g)
    ensures SlotOf(g, n) == Slot(0, 2 * g.journal + n * g.sum)
  {
    if n > 0 {
      FirstPageSlot(g, n - 1);
      Fits(g.page - 2 * g.journal - g.footer, g.sum, n + 1);
      assert (n + 1) * g.sum == (n - 1) * g.sum + g.sum + g.sum;
      assert n * g.sum == (n - 1) * g.sum + g.sum;
    }
  }

  lemma SecondPageStart(g: Geo)
    requires g.Valid()
    ensures 0 < FirstPageSums(g) && SlotOf(g, FirstPageSums(g)) == Slot(1, 0)
  {
    var e := FirstPageSums(g);
    Fits(g.page - 2 * g.journal - g.footer, g.sum, 1);
    FirstPageSlot(g, e - 1);
    Fits(g.page - 2 * g.journal - g.footer, g.sum, e + 1);
    TwoMore(e - 1, g.sum);
  }

  lemma TwoMore(n: nat, k: nat)
    ensures (n + 2) * k == n * k + k + k
    ensures (n + 1) * k == n * k + k
  {
  }

  lemma {:induction false} SecondPageSlot(g: Geo, m: nat)
    requires g.Valid() && m < PageSums(g) && 0 < FirstPageSums(g)
    ensures SlotOf(g, FirstPageSums(g) + m) == Slot(1, m * g.sum)
  {
    if m == 0 {
      SecondPageStart(g);
    } else {
      SecondPageSlot(g, m - 1);
      Fits(g.page - g.footer, g.sum, m + 1);
      TwoMore(m - 1, g.sum);
    }
  }

  /** Compacting uses exactly the pages npages_for_summary_flush promises, as long as
      that is fewer than the three of normal summaries. */
  lemma PagesAsPromised(g: Geo, n: nat)
    requires g.Valid() && NumPages(g, n) < 3
    ensures PagesUsed(g, n) == NumPages(g, n)
  {
    Fits(g.page - 2 * g.journal - g.footer, g.sum, 1);
    if 0 < n <= FirstPageSums(g) {
      FirstPageSlot(g, n - 1);
    } else if n > 0 {
      SecondPageSlot(g, n - 1 - FirstPageSums(g));
    }
  }

  // ----- writing and reading -----

  ghost predicate PagesOk(g: Geo, pages: seq<Bytes>) {
    forall p :: 0 <= p < |pages| ==> |pages[p]| == g.page
  }

  ghost predicate Holds(g: Geo, pages: seq<Bytes>, s: Slot, e: Bytes)
    requires g.Valid()
  {
    s.page < |pages| && s.off + g.sum <= |pages[s.page]| && pages[s.page][s.off..s.off + g.sum] == e
  }

  /** The pages hold both journals and the first n of the entries. */
  ghost predicate Packed(g: Geo, pages: seq<Bytes>, nats: Bytes, sits: Bytes, entries: seq<Bytes>, n: nat)
    requires g.Valid() && n <= |entries|
  {
    && PagesOk(g, pages) && |pages| > 0 && |nats| == g.journal && |sits| == g.journal
    && pages[0][..g.journal] == nats && pages[0][g.journal..2 * g.journal] == sits
    && forall k :: 0 <= k < n ==> Holds(g, pages, SlotOf(g, k), entries[k])
  }

  /** memcpy of an entry into its page. */
  function Stored(pages: seq<Bytes>, s: Slot, e: Bytes): seq<Bytes>
    requires s.page < |pages| && s.off + |e| <= |pages[s.page]|
  {
    pages[s.page := pages[s.page][..s.off] + e + pages[s.page][s.off + |e|..]]
  }

  lemma StoredElsewhere(g: Geo, pages: seq<Bytes>, s: Slot, e: Bytes, t: Slot, x: Bytes)
    requires g.Valid() && PagesOk(g, pages) && s.page < |pages| && |e| == g.sum && s.off + g.sum <= g.page
    requires Holds(g, pages, t, x) && (t.page < s.page || (t.page == s.page && t.off + g.sum <= s.off))
    ensures Holds(g, Stored(pages, s, e), t, x)
  {
    var p := pages[s.page];
    var q := p[..s.off] + e + p[s.off + |e|..];
    if t.page == s.page {
      assert q[t.off..t.off + g.sum] == p[t.off..t.off + g.sum];
    }
  }

  /** Writing entry n in its slot disturbs nothing written before. */
  lemma StoreOne(g: Geo, pages: seq<Bytes>, nats: Bytes, sits: Bytes, entries: seq<Bytes>, n: nat)
    requires g.Valid() && n < |entries| && |entries[n]| == g.sum
    requires Packed(g, pages, nats, sits, entries, n) && SlotOf(g, n).page < |pages|
    ensures Packed(g, Stored(pages, SlotOf(g, n), entries[n]), nats, sits, entries, n + 1)
  {
    var s := SlotOf(g, n);
    var r := Stored(pages, s, entries[n]);
    AfterJournals(g, n);
    forall k | 0 <= k < n ensures Holds(g, r, SlotOf(g, k), entries[k]) {
      SlotsApart(g, k, n);
      StoredElsewhere(g, pages, s, entries[n], SlotOf(g, k), entries[k]);
    }
    assert r[s.page][s.off..s.off + g.sum] == entries[n];
    assert r[0][..g.journal] == pages[0][..g.journal];
    assert r[0][g.journal..2 * g.journal] == pages[0][g.journal..2 * g.journal];
  }

  lemma MorePages(g: Geo, pages: seq<Bytes>, nats: Bytes, sits: Bytes, entries: seq<Bytes>, n: nat, fresh_: Bytes)
    requires g.Valid() && n <= |entries| && Packed(g, pages, nats, sits, entries, n) && |fresh_| == g.page
    ensures Packed(g, pages + [fresh_], nats, sits, entries, n)
  {
    forall k | 0 <= k < n ensures Holds(g, pages + [fresh_], SlotOf(g, k), entries[k]) {
      assert Holds(g, pages, SlotOf(g, k), entries[k]);
    }
  }

  ghost predicate LogsOk(g: Geo, logs: seq<Log>) {
    forall i :: 0 <= i < |logs| ==> logs[i].Valid(g)
  }

  lemma {:induction false} FlatSizes(g: Geo, logs: seq<Log>, k: nat)
    requires k <= |logs| && LogsOk(g, logs)
    ensures forall n :: 0 <= n < |Flat(g, logs, k)| ==> |Flat(g, logs, k)[n]| == g.sum
  {
    if k > 0 {
      FlatSizes(g, logs, k - 1);
    }
  }

  lemma {:induction false} FlatPrefix(g: Geo, logs: seq<Log>, k: nat, m: nat)
    requires k <= m <= |logs| && LogsOk(g, logs)
    ensures |Flat(g, logs, k)| <= |Flat(g, logs, m)| && Flat(g, logs, m)[..|Flat(g, logs, k)|] == Flat(g, logs, k)
  {
    if k < m {
      FlatPrefix(g, logs, k, m - 1);
      var a, b := Flat(g, logs, m - 1), Flat(g, logs, m);
      assert b[..|Flat(g, logs, k)|] == a[..|Flat(g, logs, k)|];
    }
  }

  /** Entry j of log i among all entries. */
  lemma FlatAt(g: Geo, logs: seq<Log>, i: nat, j: nat)
    requires i < |logs| && LogsOk(g, logs) && j < logs[i].Count(g)
    ensures |Flat(g, logs, i)| + j < |Flat(g, logs, i + 1)| <= |Flat(g, logs, |logs|)|
    ensures Flat(g, logs, |logs|)[|Flat(g, logs, i)| + j] == logs[i].entries[j]
  {
    FlatPrefix(g, logs, i + 1, |logs|);
    var a, b := Flat(g, logs, i + 1), Flat(g, logs, |logs|);
    assert a[|Flat(g, logs, i)| + j] == b[..|a|][|Flat(g, logs, i)| + j];
  }

  /** The first n entries are written, on as many pages as they need, and s is next. */
  ghost predicate Writing(g: Geo, pages: seq<Bytes>, nats: Bytes, sits: Bytes, logs: seq<Log>, n: nat, s: Slot) {
    && g.Valid() && LogsOk(g, logs) && n <= |Flat(g, logs, |logs|)|
    && Packed(g, pages, nats, sits, Flat(g, logs, |logs|), n) && |pages| == PagesUsed(g, n) && s == SlotOf(g, n)
  }

  class Summaries {
    const g: Geo

    constructor (g: Geo)
      requires g.Valid()
      ensures this.g == g
    {
      this.g := g;
    }

    /** The page an entry goes to: grabbed, with whatever it held before, when the one
        before it is full. */
    method GrabPage(pages: seq<Bytes>, stale: Bytes, ghost nats: Bytes, ghost sits: Bytes, ghost entries: seq<Bytes>, ghost n: nat, page: nat)
      returns (r: seq<Bytes>)
      requires g.Valid() && |stale| == g.page && n < |entries| && Packed(g, pages, nats, sits, entries, n)
      requires |pages| == PagesUsed(g, n) && page == SlotOf(g, n).page
      ensures Packed(g, r, nats, sits, entries, n) && |r| == PagesUsed(g, n + 1)
    {
      r := pages;
      if page == |pages| {
        MorePages(g, pages, nats, sits, entries, n, stale);
        r := pages + [stale];
      }
    }

    /** One entry of write_compacted_summaries' loop. */
    method WriteEntry(pages: seq<Bytes>, stale: Bytes, s: Slot, e: Bytes, ghost nats: Bytes, ghost sits: Bytes, ghost entries: seq<Bytes>, ghost n: nat)
      returns (r: seq<Bytes>, next: Slot)
      requires g.Valid() && |stale| == g.page && n < |entries| && entries[n] == e && |e| == g.sum
      requires Packed(g, pages, nats, sits, entries, n) && |pages| == PagesUsed(g, n) && s == SlotOf(g, n)
      ensures Packed(g, r, nats, sits, entries, n + 1) && |r| == PagesUsed(g, n + 1) && next == SlotOf(g, n + 1)
    {
      r := GrabPage(pages, stale, nats, sits, entries, n, s.page);
      StoreOne(g, r, nats, sits, entries, n);
      r := Stored(r, s, e);
      next := NextSlot(g, s);
    }

    /** The entries of one log. */
    method WriteLog(pages: seq<Bytes>, stale: Bytes, s: Slot, logs: seq<Log>, i: nat, ghost nats: Bytes, ghost sits: Bytes)
      returns (r: seq<Bytes>, next: Slot)
      requires g.Valid() && |stale| == g.page && LogsOk(g, logs) && i < |logs|
      requires Writing(g, pages, nats, sits, logs, |Flat(g, logs, i)|, s)
      ensures Writing(g, r, nats, sits, logs, |Flat(g, logs, i + 1)|, next)
    {
      r, next := pages, s;
      var j := 0;
      while j < logs[i].Count(g)
        invariant j <= logs[i].Count(g)
        invariant Writing(g, r, nats, sits, logs, |Flat(g, logs, i)| + j, next)
      {
        FlatAt(g, logs, i, j);
        r, next := WriteEntry(r, stale, next, logs[i].entries[j], nats, sits, Flat(g, logs, |logs|), |Flat(g, logs, i)| + j);
        j := j + 1;
      }
    }

    /** write_compacted_summaries: the pages hold both journals and every kept entry, and
        are as many as the entries need. */
    method WriteCompactedSummaries(nats: Bytes, sits: Bytes, logs: seq<Log>, stale: Bytes) returns (pages: seq<Bytes>)
      requires g.Valid() && |nats| == g.journal && |sits| == g.journal && LogsOk(g, logs) && |stale| == g.page
      ensures var entries := Flat(g, logs, |logs|);
              Packed(g, pages, nats, sits, entries, |entries|) && |pages| == PagesUsed(g, |entries|)
    {
      pages := [nats + sits + stale[2 * g.journal..]];
      assert pages[0][..g.journal] == nats && pages[0][g.journal..2 * g.journal] == sits;
      var s := Slot(0, 2 * g.journal);
      var i := 0;
      while i < |logs|
        invariant i <= |logs| && Writing(g, pages, nats, sits, logs, |Flat(g, logs, i)|, s)
      {
        pages, s := WriteLog(pages, stale, s, logs, i, nats, sits);
        i := i + 1;
      }
    }

    /** One log of read_compacted_summaries, whose pages go on wherever they end. */
    method ReadLog(pages: seq<Bytes>, start: Slot, count: nat, ghost nats: Bytes, ghost sits: Bytes, ghost entries: seq<Bytes>, ghost n: nat)
      returns (kept: seq<Bytes>, next: Slot)
      requires g.Valid() && n + count <= |entries| && Packed(g, pages, nats, sits, entries, |entries|) && start == SlotOf(g, n)
      ensures kept == entries[n..n + count] && next == SlotOf(g, n + count)
    {
      kept, next := [], start;
      while |kept| < count
        invariant |kept| <= count && kept == entries[n..n + |kept|] && next == SlotOf(g, n + |kept|)
        decreases count - |kept|
      {
        var e;
        SliceGrows(entries, n, |kept|);
        e, next := ReadEntry(pages, next, nats, sits, entries, n + |kept|);
        kept := kept + [e];
      }
    }

    /** One entry, and where the next one is. */
    method ReadEntry(pages: seq<Bytes>, s: Slot, ghost nats: Bytes, ghost sits: Bytes, ghost entries: seq<Bytes>, ghost n: nat)
      returns (e: Bytes, next: Slot)
      requires g.Valid() && n < |entries| && Packed(g, pages, nats, sits, entries, |entries|) && s == SlotOf(g, n)
      ensures e == entries[n] && next == SlotOf(g, n + 1)
    {
      EntryRead(g, pages, nats, sits, entries, n);
      e, next := pages[s.page][s.off..s.off + g.sum], NextSlot(g, s);
    }

    /** read_compacted_summaries gives back both journals and, for each log, exactly the
        entries that were kept. */
    method ReadCompactedSummaries(pages: seq<Bytes>, ssr: seq<bool>, blkoff: seq<nat>, ghost nats: Bytes, ghost sits: Bytes, ghost logs: seq<Log>)
      returns (rnats: Bytes, rsits: Bytes, rlogs: seq<seq<Bytes>>)
      requires g.Valid() && LogsOk(g, logs) && |ssr| == |logs| == |blkoff|
      requires forall i :: 0 <= i < |logs| ==> ssr[i] == logs[i].ssr && blkoff[i] == logs[i].blkoff
      requires var entries := Flat(g, logs, |logs|); Packed(g, pages, nats, sits, entries, |entries|)
      ensures rnats == nats && rsits == sits && |rlogs| == |logs|
      ensures forall i :: 0 <= i < |logs| ==> rlogs[i] == logs[i].Kept(g)
    {
      rnats := pages[0][..g.journal];
      rsits := pages[0][g.journal..2 * g.journal];
      rlogs := [];
      var s := Slot(0, 2 * g.journal);
      while |rlogs| < |ssr|
        invariant |rlogs| <= |logs| && s == SlotOf(g, |Flat(g, logs, |rlogs|)|)
        invariant forall i :: 0 <= i < |rlogs| ==> rlogs[i] == logs[i].Kept(g)
        decreases |ssr| - |rlogs|
      {
        var kept;
        kept, s := ReadKept(pages, s, ssr[|rlogs|], blkoff[|rlogs|], nats, sits, logs, |rlogs|);
        rlogs := rlogs + [kept];
      }
    }

    /** The kept entries of log i. */
    method ReadKept(pages: seq<Bytes>, start: Slot, ssr: bool, blkoff: nat, ghost nats: Bytes, ghost sits: Bytes, ghost logs: seq<Log>, ghost i: nat)
      returns (kept: seq<Bytes>, next: Slot)
      requires g.Valid() && LogsOk(g, logs) && i < |logs| && ssr == logs[i].ssr && blkoff == logs[i].blkoff
      requires var entries := Flat(g, logs, |logs|); Packed(g, pages, nats, sits, entries, |entries|)
      requires start == SlotOf(g, |Flat(g, logs, i)|)
      ensures kept == logs[i].Kept(g) && next == SlotOf(g, |Flat(g, logs, i + 1)|)
    {
      LogSlice(g, logs, i);
      kept, next := ReadLog(pages, start, if ssr then g.blocksPerSeg else blkoff, nats, sits, Flat(g, logs, |logs|), |Flat(g, logs, i)|);
    }
  }

  lemma EntryRead(g: Geo, pages: seq<Bytes>, nats: Bytes, sits: Bytes, entries: seq<Bytes>, n: nat)
    requires g.Valid() && n < |entries| && Packed(g, pages, nats, sits, entries, |entries|)
    ensures var s := SlotOf(g, n);
            s.page < |pages| && s.off + g.sum <= |pages[s.page]| && pages[s.page][s.off..s.off + g.sum] == entries[n]
  {
    assert Holds(g, pages, SlotOf(g, n), entries[n]);
  }

  lemma SliceGrows(s: seq<Bytes>, n: nat, k: nat)
    requires n + k < |s|
    ensures s[n..n + k] + [s[n + k]] == s[n..n + (k + 1)]
  {
  }

  lemma LogSlice(g: Geo, logs: seq<Log>, i: nat)
    requires i < |logs| && LogsOk(g, logs)
    ensures var n, c, all := |Flat(g, logs, i)|, logs[i].Count(g), Flat(g, logs, |logs|);
            && n + c == |Flat(g, logs, i + 1)| <= |all|
            && all[n..n + c] == logs[i].Kept(g)
  {
    FlatPrefix(g, logs, i + 1, |logs|);
    var n, c, all := |Flat(g, logs, i)|, logs[i].Count(g), Flat(g, logs, |logs|);
    assert all[n..n + c] == all[..n + c][n..];
  }
}
