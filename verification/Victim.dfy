/** Victim selection for cleaning and for SSR (fs/f2fs/gc.c). */
module Victim {
  import opened Options
  import opened SegmentState
  import opened SegmentInvariant
  import opened Division

  const UINT_MAX: nat := 0xFFFF_FFFF

  datatype GcMode = CostBenefit | Greedy
  datatype GcType = BgGc | FgGc

  // ----- cost-benefit -----

  function Percent(part: nat, whole: nat): (r: nat)
    requires part <= whole && 0 < whole
    ensures r <= 100
  {
    PercentBound(part, whole);
    100 * part / whole
  }

  lemma PercentBound(part: nat, whole: nat)
    requires part <= whole && 0 < whole
    ensures 100 * part / whole <= 100
  {
    DivMono(100 * part, 100 * whole, whole);
    assert 100 * whole / whole == 100;
  }

  /** 100 minus how far mtime stands in [lo, hi], in percent: 100 is the oldest. */
  function Age(mtime: nat, lo: nat, hi: nat): (r: nat)
    requires lo <= mtime <= hi
    ensures r <= 100
  {
    if lo == hi then 0 else 100 - Percent(mtime - lo, hi - lo)
  }

  /** get_cb_cost for utilisation u percent and the given age. */
  function CbCost(u: nat, age: nat): (r: nat)
    requires u <= 100 && age <= 100
    ensures UINT_MAX - 10000 <= r <= UINT_MAX
  {
    BenefitBound(u, age);
    UINT_MAX - 100 * (100 - u) * age / (100 + u)
  }

  lemma BenefitBound(u: nat, age: nat)
    requires u <= 100 && age <= 100
    ensures 0 <= 100 * (100 - u) * age / (100 + u) <= 10000
  {
    var x := 100 * (100 - u);
    Product(x, age, 10000, 100);
    AtMost(x * age, 100 + u, 10000);
  }

  lemma AtMost(y: nat, d: nat, q: nat)
    requires 100 <= d && y <= 1000000 && q == 10000
    ensures 0 <= y / d <= q
  {
    DivMono(y, 1000000, d);
    DivLess(1000000, 100, d);
  }

  lemma Product(a: nat, b: nat, c: nat, d: nat)
    requires a <= c && b <= d
    ensures a * b <= c * d
  {
    assert a * b <= c * b <= c * d;
  }

  lemma DivLess(a: nat, b: nat, c: nat)
    requires 0 < b <= c
    ensures a / c <= a / b
  {
    var p := a / c;
    Product(p, b, p, c);
    DivMono(p * b, a, b);
    DivIs(p * b, b, p);
  }

  /** Emptier and older sections are never dearer. */
  lemma CbPrefersEmptyAndOld(u1: nat, age1: nat, u2: nat, age2: nat)
    requires u1 <= u2 <= 100 && age2 <= age1 <= 100
    ensures CbCost(u1, age1) <= CbCost(u2, age2)
  {
    var x1, x2 := 100 * (100 - u1) * age1, 100 * (100 - u2) * age2;
    Product(100 * (100 - u2), age2, 100 * (100 - u1), age1);
    assert x2 <= x1;
    DivMono(x2, x1, 100 + u2);
    DivLess(x1, 100 + u1, 100 + u2);
  }

  // ----- one selection -----

  /** What one selection looks at. Arrays are by segment; with unit > 1 a
      section's segments share cost, utilisation and mtime. */
  datatype Policy = Policy(
    bitmap: set<nat>,
    n: nat,
    segsPerSec: nat,
    unit: nat,
    maxSearch: nat,
    costs: seq<nat>,
    maxCost: nat,
    barred: set<nat>,
    costBenefit: bool,
    utils: seq<nat>,
    mtimes: seq<nat>)
  {
    predicate Valid() {
      && 0 < segsPerSec
      && (unit == 1 || unit == segsPerSec)
      && |costs| == n && |utils| == n && |mtimes| == n
      && (forall i :: i in bitmap ==> i < n)
      && (forall i :: 0 <= i < n ==> utils[i] <= 100)
      && (unit > 1 ==> forall i, j :: 0 <= i < n && 0 <= j < n ==> Alike(i, j))
    }

    /** Segments of one section look alike. */
    predicate Alike(i: nat, j: nat)
      requires 0 < segsPerSec && i < |costs| && j < |costs| && |utils| == |costs| && |mtimes| == |costs|
    {
      i / segsPerSec == j / segsPerSec ==> costs[i] == costs[j] && utils[i] == utils[j] && mtimes[i] == mtimes[j]
    }

    predicate Eligible(i: nat) requires 0 < segsPerSec {
      i in bitmap && i / segsPerSec !in barred
    }

    /** Costs cannot move while scanning from this mtime range. */
    ghost predicate Fixed(lo: nat, hi: nat) requires Valid() {
      costBenefit ==> forall i :: i in bitmap ==> lo <= mtimes[i] <= hi
    }

    function Cost(i: nat, lo: nat, hi: nat): nat
      requires Valid() && i < n && lo <= mtimes[i] <= hi
    {
      if costBenefit then CbCost(utils[i], Age(mtimes[i], lo, hi)) else costs[i]
    }

    /** The cost as seen from a range that may not contain the segment's mtime. */
    function CostFrom(i: nat, lo: nat, hi: nat): nat
      requires Valid() && i < n
    {
      Cost(i, if mtimes[i] < lo then mtimes[i] else lo, if mtimes[i] > hi then mtimes[i] else hi)
    }
  }

  /** get_gc_cost; on the cost-benefit path the mtime range widens to the segment. */
  method GetGcCost(p: Policy, segno: nat, minMtime: nat, maxMtime: nat) returns (cost: nat, lo: nat, hi: nat)
    requires p.Valid() && segno < p.n
    ensures cost == if p.costBenefit then p.CostFrom(segno, minMtime, maxMtime) else p.costs[segno]
    ensures p.costBenefit ==> lo <= p.mtimes[segno] <= hi
    ensures lo == minMtime && hi == maxMtime <==> !p.costBenefit || minMtime <= p.mtimes[segno] <= maxMtime
  {
    lo, hi := minMtime, maxMtime;
    if !p.costBenefit {
      return p.costs[segno], lo, hi;
    }
    var mtime, age := p.mtimes[segno], 0;
    if mtime < lo {
      lo := mtime;
    }
    if mtime > hi {
      hi := mtime;
    }
    if hi != lo {
      age := 100 - Percent(mtime - lo, hi - lo);
    }
    cost := CbCost(p.utils[segno], age);
  }

  /** find_next_bit: the first set bit at or after k, else n. */
  function FindNext(m: set<nat>, n: nat, k: nat): (r: nat)
    ensures r <= n
    ensures r < n ==> k <= r && r in m
    ensures forall i :: k <= i < r && i < n ==> i !in m
    decreases n - k
  {
    if k >= n then n else if k in m then k else FindNext(m, n, k + 1)
  }

  function UnitEnd(segno: nat, unit: nat): (r: nat)
    requires 0 < unit
    ensures segno < r
  {
    if unit > 1 then segno + unit - segno % unit else segno + unit
  }

  lemma SameUnit(segno: nat, unit: nat, i: nat)
    requires 1 < unit && segno <= i < UnitEnd(segno, unit)
    ensures i / unit == segno / unit
  {
    var q := segno / unit;
    assert segno == q * unit + segno % unit;
    assert q * unit <= i < q * unit + unit;
    DivIs(i, unit, q);
  }

  /** The true costs of one selection when they are fixed. */
  ghost function FixedCost(p: Policy, i: nat, lo: nat, hi: nat): nat
    requires p.Valid() && i < p.n
  {
    if p.costBenefit then p.CostFrom(i, lo, hi) else p.costs[i]
  }

  /** truth lists the fixed costs, section by section. */
  ghost predicate Truth(p: Policy, lo: nat, hi: nat, truth: seq<nat>)
    requires p.Valid()
  {
    && |truth| == p.n
    && (forall i: nat {:trigger FixedCost(p, i, lo, hi)} :: i < p.n ==> FixedCost(p, i, lo, hi) == truth[i])
    && BySection(p, truth)
  }

  ghost predicate SameTruth(p: Policy, truth: seq<nat>, i: nat, j: nat)
    requires p.Valid() && i < |truth| && j < |truth|
  {
    i / p.segsPerSec == j / p.segsPerSec ==> truth[i] == truth[j]
  }

  ghost predicate BySection(p: Policy, truth: seq<nat>)
    requires p.Valid()
  {
    p.unit > 1 ==> forall i: nat, j: nat :: i < |truth| && j < |truth| ==> SameTruth(p, truth, i, j)
  }

  lemma TruthExists(p: Policy, lo: nat, hi: nat) returns (truth: seq<nat>)
    requires p.Valid()
    ensures Truth(p, lo, hi, truth)
  {
    truth := seq(p.n, i requires 0 <= i < p.n => FixedCost(p, i, lo, hi));
    if p.unit > 1 {
      forall i: nat, j: nat | i < p.n && j < p.n
        ensures SameTruth(p, truth, i, j)
      {
        assert p.Alike(i, j);
      }
    }
  }

  /** get_gc_cost measured against the fixed costs. */
  method Price(p: Policy, segno: nat, lo0: nat, hi0: nat, ghost minMtime: nat, ghost maxMtime: nat, ghost truth: seq<nat>)
    returns (cost: nat, lo: nat, hi: nat)
    requires p.Valid() && Truth(p, minMtime, maxMtime, truth) && segno < p.n && segno in p.bitmap
    ensures p.Fixed(minMtime, maxMtime) && lo0 == minMtime && hi0 == maxMtime
        ==> cost == truth[segno] && lo == minMtime && hi == maxMtime
    ensures !p.costBenefit ==> cost == p.costs[segno]
  {
    cost, lo, hi := GetGcCost(p, segno, lo0, hi0);
    assert FixedCost(p, segno, minMtime, maxMtime) == truth[segno];
  }

  /** No eligible segment in [from, to) is cheaper. */
  ghost predicate CheapestIn(p: Policy, truth: seq<nat>, cost: nat, from: nat, to: nat)
    requires p.Valid() && |truth| == p.n
  {
    forall i: nat :: from <= i < to && p.Eligible(i) ==> cost <= truth[i]
  }

  lemma ExtendCheapest(p: Policy, truth: seq<nat>, cost: nat, newCost: nat, from: nat, offset: nat, segno: nat)
    requires p.Valid() && |truth| == p.n
    requires BySection(p, truth)
    requires CheapestIn(p, truth, cost, from, offset) && offset <= segno && segno in p.bitmap
    requires forall i :: offset <= i < segno ==> i !in p.bitmap
    requires newCost <= cost
    requires p.Eligible(segno) ==> newCost <= truth[segno]
    ensures CheapestIn(p, truth, newCost, from, UnitEnd(segno, p.unit))
  {
    forall i: nat | from <= i < UnitEnd(segno, p.unit) && p.Eligible(i)
      ensures newCost <= truth[i]
    {
      if segno <= i && p.unit > 1 {
        SameUnit(segno, p.unit, i);
        assert SameTruth(p, truth, segno, i);
      }
    }
  }

  /** What a finished scan has established about its choice. */
  ghost predicate BestOf(p: Policy, best: Option<nat>, truth: seq<nat>)
    requires p.Valid() && |truth| == p.n
  {
    match best
    case Some(b) =>
      && b < p.n && truth[b] < p.maxCost
      && forall i: nat :: p.Eligible(i) ==> truth[b] <= truth[i]
    case None => forall i: nat :: p.Eligible(i) ==> p.maxCost <= truth[i]
  }

  /** The cheapest choice so far, at cost minCost. */
  ghost predicate Chosen(p: Policy, best: Option<nat>, minCost: nat, truth: seq<nat>, fixed: bool)
    requires p.Valid() && |truth| == p.n
  {
    match best
    case None => minCost == p.maxCost
    case Some(b) =>
      && p.Eligible(b) && minCost < p.maxCost
      && (fixed ==> truth[b] == minCost) && (!p.costBenefit ==> p.costs[b] == minCost)
  }

  /** Nothing passed so far is cheaper: from start on in the first pass, and in the second
      from 0 on as well. */
  ghost predicate Passed(p: Policy, truth: seq<nat>, minCost: nat, start: nat, offset: nat, firstPass: bool)
    requires p.Valid() && |truth| == p.n
  {
    if firstPass then CheapestIn(p, truth, minCost, start, offset)
    else CheapestIn(p, truth, minCost, 0, offset) && (start != 0 ==> CheapestIn(p, truth, minCost, start, p.n))
  }

  /** The segments counted against the search bound in either pass. */
  ghost predicate Counted(p: Policy, first: set<nat>, second: set<nat>, start: nat, offset: nat, firstPass: bool) {
    && (forall i :: i in first ==> i in p.bitmap && start <= i && (firstPass ==> i < offset))
    && (forall i :: i in second ==> i in p.bitmap && i < offset)
    && (if firstPass then second == {} else start == 0 ==> first == {})
  }

  /** One eligible segment is priced and taken if it is the cheapest so far; counts says
      whether it counts against the bound. */
  method Consider(p: Policy, segno: nat, best0: Option<nat>, minCost0: nat, lo0: nat, hi0: nat,
                  ghost minMtime: nat, ghost maxMtime: nat, ghost truth: seq<nat>)
    returns (best: Option<nat>, minCost: nat, lo: nat, hi: nat, counts: bool)
    requires p.Valid() && Truth(p, minMtime, maxMtime, truth) && segno < p.n && p.Eligible(segno)
    requires Chosen(p, best0, minCost0, truth, p.Fixed(minMtime, maxMtime))
    requires p.Fixed(minMtime, maxMtime) ==> lo0 == minMtime && hi0 == maxMtime
    ensures Chosen(p, best, minCost, truth, p.Fixed(minMtime, maxMtime)) && minCost <= minCost0
    ensures p.Fixed(minMtime, maxMtime) ==> lo == minMtime && hi == maxMtime && minCost <= truth[segno]
  {
    var cost;
    best, minCost := best0, minCost0;
    cost, lo, hi := Price(p, segno, lo0, hi0, minMtime, maxMtime, truth);
    counts := minCost > cost || cost != p.maxCost;
    if minCost > cost {
      best, minCost := Some(segno), cost;
    }
  }

  /** A second pass that has come to the end, or back to the start, has passed all. */
  lemma PassedAll(p: Policy, best: Option<nat>, minCost: nat, truth: seq<nat>, start: nat, offset: nat)
    requires p.Valid() && |truth| == p.n && Chosen(p, best, minCost, truth, true)
    requires Passed(p, truth, minCost, start, offset, false)
    requires (start != 0 && start <= offset) || forall i :: offset <= i < p.n ==> i !in p.bitmap
    ensures BestOf(p, best, truth)
  {
    forall i: nat | p.Eligible(i) ensures minCost <= truth[i] {
      assert i < p.n;
    }
  }

  lemma PassedMore(p: Policy, truth: seq<nat>, minCost: nat, newCost: nat, start: nat, offset: nat, segno: nat, firstPass: bool)
    requires p.Valid() && |truth| == p.n && BySection(p, truth)
    requires Passed(p, truth, minCost, start, offset, firstPass) && offset <= segno && segno in p.bitmap
    requires forall i :: offset <= i < segno ==> i !in p.bitmap
    requires newCost <= minCost && (p.Eligible(segno) ==> newCost <= truth[segno])
    ensures Passed(p, truth, newCost, start, UnitEnd(segno, p.unit), firstPass)
  {
    ExtendCheapest(p, truth, minCost, newCost, if firstPass then start else 0, offset, segno);
  }

  lemma PassTurns(p: Policy, truth: seq<nat>, minCost: nat, start: nat, offset: nat)
    requires p.Valid() && |truth| == p.n && Passed(p, truth, minCost, start, offset, true)
    requires forall i :: offset <= i < p.n ==> i !in p.bitmap
    ensures Passed(p, truth, minCost, start, 0, false)
  {
  }

  /** The circular scan of get_victim_by_default. It always ends and never
      returns a barred section. When the bound allows looking at every dirty
      segment and no cost moves, the choice is the cheapest of all, wherever the
      scan began. */
  method Scan(p: Policy, start: nat, minMtime: nat, maxMtime: nat, ghost truth: seq<nat>)
    returns (best: Option<nat>, lastVictim: nat, lo: nat, hi: nat)
    requires p.Valid() && Truth(p, minMtime, maxMtime, truth)
    ensures best.Some? ==> p.Eligible(best.value)
    ensures |p.bitmap| <= p.maxSearch && p.Fixed(minMtime, maxMtime) ==> BestOf(p, best, truth)
    ensures p.Fixed(minMtime, maxMtime) ==> lo == minMtime && hi == maxMtime
    ensures best.Some? && !p.costBenefit ==> p.costs[best.value] < p.maxCost
  {
    var offset, minCost, nsearched := start, p.maxCost, 0;
    best, lastVictim, lo, hi := None, start, minMtime, maxMtime;
    ghost var fixed := p.Fixed(minMtime, maxMtime);
    ghost var first: set<nat>, second: set<nat> := {}, {};
    while true
      invariant 0 <= offset && (lastVictim == start || lastVictim == 0)
      invariant Chosen(p, best, minCost, truth, fixed)
      invariant fixed ==> lo == minMtime && hi == maxMtime
      invariant fixed ==> Passed(p, truth, minCost, start, offset, lastVictim != 0)
      invariant nsearched == |first| + |second| && Counted(p, first, second, start, offset, lastVictim != 0)
      decreases lastVictim != 0, p.n - offset
    {
      var segno := FindNext(p.bitmap, p.n, offset);
      if segno >= p.n {
        if lastVictim != 0 {
          if fixed {
            PassTurns(p, truth, minCost, start, offset);
          }
          lastVictim, offset := 0, 0;
          continue;
        }
        if fixed {
          PassedAll(p, best, minCost, truth, start, offset);
        }
        break;
      }
      ghost var from, was := offset, minCost;
      offset := UnitEnd(segno, p.unit);
      if !p.Eligible(segno) {
        if fixed {
          PassedMore(p, truth, minCost, minCost, start, from, segno, lastVictim != 0);
        }
        continue;
      }
      var counts;
      best, minCost, lo, hi, counts := Consider(p, segno, best, minCost, lo, hi, minMtime, maxMtime, truth);
      if fixed {
        PassedMore(p, truth, was, minCost, start, from, segno, lastVictim != 0);
      }
      if !counts {
        continue;
      }
      if nsearched >= p.maxSearch {
        EnoughSearched(p, first, second, segno, start, lastVictim != 0);
        if fixed && |p.bitmap| <= p.maxSearch {
          PassedAll(p, best, minCost, truth, start, offset);
        }
        lastVictim := segno;
        break;
      }
      nsearched := nsearched + 1;
      if lastVictim != 0 {
        first := first + {segno};
      } else {
        second := second + {segno};
      }
    }
  }

  /** If every dirty segment may be looked at, the bound can only stop the scan
      once it has come round to where it began. */
  lemma EnoughSearched(p: Policy, first: set<nat>, second: set<nat>, segno: nat, start: nat, firstPass: bool)
    requires segno in p.bitmap && p.maxSearch <= |first| + |second|
    requires forall i :: i in first ==> i in p.bitmap && start <= i
    requires forall i :: i in second ==> i in p.bitmap && i < segno
    requires firstPass ==> second == {} && segno !in first
    requires !firstPass && start == 0 ==> first == {}
    ensures |p.bitmap| <= p.maxSearch ==> !firstPass && start <= segno && start != 0
  {
    if |p.bitmap| <= p.maxSearch && (firstPass || segno < start || start == 0) {
      var all := first + second;
      assert first * second == {} by {
        assert forall i :: i in first && i in second ==> false;
      }
      assert |all| == |first| + |second|;
      assert all < p.bitmap by {
        assert segno !in all;
      }
      ProperSubset(all, p.bitmap);
    }
  }

  lemma ProperSubset(a: set<nat>, b: set<nat>)
    requires a < b
    ensures |a| < |b|
  {
    assert b == a + (b - a);
    assert b - a != {};
  }
}
