/** get_new_segment (fs/f2fs/segment.c): choosing the next segment of a log. */
module Allocator {
  import opened Division
  import opened SegmentState
  import opened SegmentInvariant

  /** find_next_zero_bit over the first n bits: the first clear one at or after k, else n. */
  function FindNextZero(m: set<nat>, n: nat, k: nat): (r: nat)
    ensures r <= n
    ensures r < n ==> k <= r && r !in m
    ensures forall i :: k <= i < r ==> i in m
    decreases n - k
  {
    if k >= n then n else if k !in m then k else FindNextZero(m, n, k + 1)
  }

  lemma {:induction false} ZeroFound(m: set<nat>, n: nat, k: nat, i: nat)
    requires k <= i < n && i !in m
    ensures FindNextZero(m, n, k) <= i
    decreases n - k
  {
    if k in m {
      ZeroFound(m, n, k + 1, i);
    }
  }

  datatype Dir = Right | Left

  /** The last clear bit below k. */
  function LastZeroBelow(m: set<nat>, k: nat): (r: nat)
    requires exists i :: 0 <= i < k && i !in m
    ensures r < k && r !in m
    ensures forall i :: r < i < k ==> i in m
  {
    if k - 1 !in m then k - 1 else LastZeroBelow(m, k - 1)
  }

  ghost predicate SomeFree(secmap: set<nat>, mainSecs: nat) {
    exists i :: 0 <= i < mainSecs && i !in secmap
  }

  /** One search from hint: the nearest free section at or right of it; failing
      that, the first of all (going right) or the nearest left of it (going left). */
  function Nearest(secmap: set<nat>, mainSecs: nat, hint: nat, dir: Dir): (r: nat)
    requires SomeFree(secmap, mainSecs) && hint < mainSecs
    ensures r < mainSecs && r !in secmap
  {
    var right := FindNextZero(secmap, mainSecs, hint);
    if right < mainSecs then right
    else if dir == Right then
      FirstExists(secmap, mainSecs);
      FindNextZero(secmap, mainSecs, 0)
    else
      AllLeft(secmap, mainSecs, hint);
      LastZeroBelow(secmap, hint)
  }

  /** The search had to turn left. */
  predicate TurnsLeft(secmap: set<nat>, mainSecs: nat, hint: nat, dir: Dir) {
    dir == Left && FindNextZero(secmap, mainSecs, hint) == mainSecs
  }

  lemma FirstExists(secmap: set<nat>, mainSecs: nat)
    requires SomeFree(secmap, mainSecs)
    ensures FindNextZero(secmap, mainSecs, 0) < mainSecs
  {
    var i :| 0 <= i < mainSecs && i !in secmap;
    ZeroFound(secmap, mainSecs, 0, i);
  }

  lemma AllLeft(secmap: set<nat>, mainSecs: nat, hint: nat)
    requires SomeFree(secmap, mainSecs) && FindNextZero(secmap, mainSecs, hint) == mainSecs
    ensures exists i :: 0 <= i < hint && i !in secmap
  {
    var i :| 0 <= i < mainSecs && i !in secmap;
    if hint <= i {
      assert false;
    }
  }

  /** The section chosen when no segment of the old section will do. A zone that
      some log already uses is left for another one, but only once, and never
      when the first search turned left. */
  function SectionChoice(secmap: set<nat>, mainSecs: nat, secsPerZone: nat, zones: set<nat>,
                         hint: nat, dir: Dir): (r: nat)
    requires 0 < secsPerZone && SomeFree(secmap, mainSecs) && hint < mainSecs
    ensures r < mainSecs && r !in secmap
  {
    var first := Nearest(secmap, mainSecs, hint, dir);
    var zone := first / secsPerZone;
    var last := zone + 1 >= mainSecs / secsPerZone;
    if secsPerZone == 1 || zone == hint / secsPerZone || zone !in zones then first
    else if TurnsLeft(secmap, mainSecs, hint, dir) || (dir == Left && last) then first
    else
      NextZoneStart(zone, secsPerZone, mainSecs);
      Nearest(secmap, mainSecs, if last then 0 else (zone + 1) * secsPerZone, dir)
  }

  lemma NextZoneStart(zone: nat, secsPerZone: nat, mainSecs: nat)
    requires 0 < secsPerZone
    ensures zone + 1 < mainSecs / secsPerZone ==> (zone + 1) * secsPerZone < mainSecs
  {
    var total := mainSecs / secsPerZone;
    if zone + 1 < total {
      assert (zone + 2) * secsPerZone <= total * secsPerZone <= mainSecs;
    }
  }

  /** A free segment to the right of the current one inside its section, or mainSegs. */
  function SameSection(g: Geo, inuse: set<nat>, newseg: nat): (r: nat)
    requires g.Valid()
  {
    FindNextZero(inuse, g.Sec(newseg) * g.segsPerSec + g.segsPerSec, newseg + 1)
  }

  /** The segment get_new_segment returns. */
  function NewSegment(g: Geo, f: FreeMap, secsPerZone: nat, zones: set<nat>,
                      newseg: nat, newSec: bool, dir: Dir): (segno: nat)
    requires g.Valid() && 0 < secsPerZone && SomeFree(f.inuseSecs, g.mainSecs) && newseg < g.MainSegs()
  {
    SecInRange(g, newseg);
    var end := g.Sec(newseg) * g.segsPerSec + g.segsPerSec;
    if !newSec && SameSection(g, f.inuse, newseg) < end then SameSection(g, f.inuse, newseg)
    else SectionChoice(f.inuseSecs, g.mainSecs, secsPerZone, zones, g.Sec(newseg), dir) * g.segsPerSec
  }

  lemma FreeSectionSegment(g: Geo, f: FreeMap, secno: nat, segno: nat)
    requires g.Valid() && FreeOk(g, f) && secno < g.mainSecs && secno !in f.inuseSecs
    requires secno * g.segsPerSec <= segno < secno * g.segsPerSec + g.segsPerSec
    ensures segno < g.MainSegs() && segno !in f.inuse
  {
    SecBounds(g, secno);
    OtherSection(g, segno, secno);
    assert segno in f.inuse ==> g.Sec(segno) in SecsOf(g, f.inuse);
  }

  /** The assertion that the segment was free never fires, for either
      direction, any hint and any zones. */
  lemma NewSegmentFree(g: Geo, f: FreeMap, secsPerZone: nat, zones: set<nat>, newseg: nat, newSec: bool, dir: Dir)
    requires g.Valid() && 0 < secsPerZone && FreeOk(g, f) && newseg < g.MainSegs()
    requires SomeFree(f.inuseSecs, g.mainSecs)
    ensures var r := NewSegment(g, f, secsPerZone, zones, newseg, newSec, dir);
            && r < g.MainSegs() && r !in f.inuse
            && (g.Sec(r) == g.Sec(newseg) || g.Sec(r) !in f.inuseSecs)
  {
    var r := NewSegment(g, f, secsPerZone, zones, newseg, newSec, dir);
    var sec := g.Sec(newseg);
    SecInRange(g, newseg);
    SecBounds(g, sec);
    if !newSec && SameSection(g, f.inuse, newseg) < sec * g.segsPerSec + g.segsPerSec {
      OtherSection(g, r, sec);
    } else {
      var c := SectionChoice(f.inuseSecs, g.mainSecs, secsPerZone, zones, sec, dir);
      FreeSectionSegment(g, f, c, c * g.segsPerSec);
      OtherSection(g, r, c);
    }
  }

  /** A log that turned left stays in the zone it found, even one other logs use. */
  lemma TurningLeftKeepsZone(secmap: set<nat>, mainSecs: nat, secsPerZone: nat, zones: set<nat>, hint: nat)
    requires 0 < secsPerZone && hint < mainSecs && SomeFree(secmap, mainSecs) && TurnsLeft(secmap, mainSecs, hint, Left)
    ensures var r := SectionChoice(secmap, mainSecs, secsPerZone, zones, hint, Left);
            r < hint && r !in secmap && forall i :: r < i < mainSecs ==> i in secmap
  {
    AllLeft(secmap, mainSecs, hint);
  }

  /** get_new_segment with its two searches, the wrap to the left and the zone retry. */
  method GetNewSegment(g: Geo, f: FreeMap, secsPerZone: nat, zones: set<nat>, newseg: nat, newSec: bool, dir: Dir)
    returns (segno: nat)
    requires g.Valid() && 0 < secsPerZone && FreeOk(g, f) && newseg < g.MainSegs()
    requires SomeFree(f.inuseSecs, g.mainSecs)
    ensures segno == NewSegment(g, f, secsPerZone, zones, newseg, newSec, dir)
    ensures segno < g.MainSegs() && segno !in f.inuse
  {
    NewSegmentFree(g, f, secsPerZone, zones, newseg, newSec, dir);
    var hint := newseg / g.segsPerSec;
    if !newSec && (newseg + 1) % g.segsPerSec != 0 {
      segno := FindNextZero(f.inuse, g.MainSegs(), newseg + 1);
      SameSectionFound(g, f.inuse, newseg);
      if segno - newseg < g.segsPerSec - newseg % g.segsPerSec {
        return;
      }
    } else if !newSec {
      NothingLeftInSection(g, f.inuse, newseg);
    }
    SecInRange(g, newseg);
    segno := ChooseSection(f.inuseSecs, g.mainSecs, secsPerZone, zones, hint, dir);
    segno := segno * g.segsPerSec;
  }

  /** The part of get_new_segment from find_other_zone on: at most two searches. */
  method ChooseSection(secmap: set<nat>, mainSecs: nat, secsPerZone: nat, zones: set<nat>, oldSec: nat, dir: Dir)
    returns (secno: nat)
    requires 0 < secsPerZone && oldSec < mainSecs && SomeFree(secmap, mainSecs)
    ensures secno == SectionChoice(secmap, mainSecs, secsPerZone, zones, oldSec, dir)
  {
    var totalZones := mainSecs / secsPerZone;
    var hint, leftStart, goLeft, init := oldSec, oldSec, false, true;
    ghost var first := Nearest(secmap, mainSecs, oldSec, dir);
    ghost var choice := SectionChoice(secmap, mainSecs, secsPerZone, zones, oldSec, dir);
    while true
      invariant 0 <= hint < mainSecs && 0 <= leftStart
      invariant init ==> hint == oldSec && !goLeft
      invariant !init && goLeft ==> leftStart == first == choice && hint <= leftStart
      invariant !init && !goLeft ==> Nearest(secmap, mainSecs, hint, dir) == choice
      decreases init
    {
      secno, goLeft, leftStart := SearchOnce(secmap, mainSecs, hint, goLeft, leftStart, dir);
      hint := secno;
      var zoneno := secno / secsPerZone;
      if !init || secsPerZone == 1 || zoneno == oldSec / secsPerZone {
        break;
      }
      if dir == Left && ((!goLeft && zoneno + 1 >= totalZones) || (goLeft && zoneno == 0)) {
        break;
      }
      if zoneno !in zones {
        break;
      }
      if goLeft {
        ZoneStart(secno, secsPerZone);
        hint := zoneno * secsPerZone - 1;
      } else if zoneno + 1 >= totalZones {
        hint := 0;
      } else {
        NextZoneStart(zoneno, secsPerZone, mainSecs);
        hint := (zoneno + 1) * secsPerZone;
      }
      init := false;
    }
  }

  /** One pass from find_other_zone to skip_left. Once a search has gone left
      its position stays: a later pass ends where that one ended. */
  method SearchOnce(secmap: set<nat>, mainSecs: nat, hint: nat, wentLeft: bool, left: nat, dir: Dir)
    returns (secno: nat, goLeft: bool, leftStart: nat)
    requires hint < mainSecs && SomeFree(secmap, mainSecs)
    requires wentLeft ==> hint <= left < mainSecs && left !in secmap
    ensures goLeft <==> wentLeft || TurnsLeft(secmap, mainSecs, hint, dir)
    ensures goLeft ==> leftStart == secno
    ensures secno == if wentLeft then left else Nearest(secmap, mainSecs, hint, dir)
  {
    goLeft, leftStart := wentLeft, left;
    secno := FindNextZero(secmap, mainSecs, hint);
    if wentLeft {
      ZeroFound(secmap, mainSecs, hint, left);
    }
    ghost var target := if wentLeft then left else Nearest(secmap, mainSecs, hint, dir);
    if secno >= mainSecs {
      if dir == Right {
        FirstExists(secmap, mainSecs);
        secno := FindNextZero(secmap, mainSecs, 0);
      } else {
        AllLeft(secmap, mainSecs, hint);
        goLeft, leftStart := true, hint - 1;
      }
    }
    if goLeft {
      while leftStart in secmap
        invariant exists i :: 0 <= i < leftStart + 1 && i !in secmap
        invariant LastZeroBelow(secmap, leftStart + 1) == target
        decreases leftStart
      {
        leftStart := leftStart - 1;
      }
      secno := leftStart;
    }
  }

  lemma ZoneStart(secno: nat, secsPerZone: nat)
    requires 0 < secsPerZone && secno / secsPerZone > 0
    ensures 0 < (secno / secsPerZone) * secsPerZone <= secno
  {
  }

  lemma SameSectionFound(g: Geo, inuse: set<nat>, newseg: nat)
    requires g.Valid() && newseg < g.MainSegs()
    ensures var r := FindNextZero(inuse, g.MainSegs(), newseg + 1);
            var end := g.Sec(newseg) * g.segsPerSec + g.segsPerSec;
            if r - newseg < g.segsPerSec - newseg % g.segsPerSec then r == SameSection(g, inuse, newseg) && r < end
            else SameSection(g, inuse, newseg) == end
  {
    var sec := g.Sec(newseg);
    var end := sec * g.segsPerSec + g.segsPerSec;
    SecInRange(g, newseg);
    SecBounds(g, sec);
    assert newseg == sec * g.segsPerSec + newseg % g.segsPerSec;
    var r := FindNextZero(inuse, g.MainSegs(), newseg + 1);
    var q := SameSection(g, inuse, newseg);
    if q < end {
      ZeroFound(inuse, g.MainSegs(), newseg + 1, q);
    }
    if r < end {
      ZeroFound(inuse, end, newseg + 1, r);
    }
  }

  lemma NothingLeftInSection(g: Geo, inuse: set<nat>, newseg: nat)
    requires g.Valid() && (newseg + 1) % g.segsPerSec == 0
    ensures SameSection(g, inuse, newseg) == g.Sec(newseg) * g.segsPerSec + g.segsPerSec
  {
    var sps := g.segsPerSec;
    var k := (newseg + 1) / sps;
    assert newseg + 1 == k * sps;
    assert newseg == (k - 1) * sps + (sps - 1);
    DivUnique(newseg, sps, k - 1, sps - 1);
  }
}
