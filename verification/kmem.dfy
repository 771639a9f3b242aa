/** Carving kernel memory out of RAM (`add_kmem_area_on_ram` in server/src/startup.cc). */
module KernelMemory {
  import opened Options
  import opened Regions
  import opened RegionLists
  import opened RegionStore

  const KMEM_NAME: nat := 7

  function KmemRegion(begin: nat, end: nat): Region {
    Region(begin, end, KMEM_NAME, Kmem, 0, false)
  }

  /** The attributes of kernel memory: no subtype, and not eager. */
  ghost predicate IsKmem(a: Region) {
    a.kind == Kmem && a.name == KMEM_NAME && a.sub == 0 && !a.eager
  }

  /* ---- the scan, round by round ---- */

  /** The scan at entry `k`, with the area from `b` on still to do; or its end. */
  datatype Carving = Going(st: State, b: nat, k: nat, added: bool) | Done(st: State, added: bool) | Panicked

  ghost function Start(st: State, b: nat): Carving { Going(st, b, 0, false) }

  /** One round. Whatever was added in front of an entry, the scan starts over. */
  ghost function Round(c: Carving, capacity: nat, lim: Limits, e: nat): (r: Carving)
    requires lim.Valid() && e < TOP && (c.Going? ==> c.b <= e)
    ensures r.Going? ==> r.b <= e
  {
    if !c.Going? then c
    else if c.k >= |c.st.entries| then
      match AddStep(c.st, capacity, lim, KmemRegion(c.b, e), false)
      case None => Panicked
      case Some(t) => Done(t, true)
    else
      var g := c.st.entries[c.k];
      if !Plain(c.b, e).Overlaps(g) then c.(k := c.k + 1)
      else if c.b < g.begin then
        match AddStep(c.st, capacity, lim, KmemRegion(c.b, g.begin - 1), false)
        case None => Panicked
        case Some(t) => Going(t, c.b, 0, true)
      else if e <= g.end then Done(c.st, c.added)
      else Going(c.st, g.end + 1, c.k + 1, c.added)
  }

  ghost function Rounds(c: Carving, capacity: nat, lim: Limits, e: nat, n: nat): (r: Carving)
    requires lim.Valid() && e < TOP && (c.Going? ==> c.b <= e)
    ensures r.Going? ==> r.b <= e
    decreases n
  {
    if n == 0 then c else Rounds(Round(c, capacity, lim, e), capacity, lim, e, n - 1)
  }

  lemma {:induction false} RoundsStop(c: Carving, capacity: nat, lim: Limits, e: nat, n: nat)
    requires lim.Valid() && e < TOP && !c.Going?
    ensures Rounds(c, capacity, lim, e, n) == c
    decreases n
  {
    if n > 0 {
      RoundsStop(c, capacity, lim, e, n - 1);
    }
  }

  lemma RoundsNext(c: Carving, capacity: nat, lim: Limits, e: nat, n: nat)
    requires lim.Valid() && e < TOP && c.Going? && c.b <= e && !Rounds(c, capacity, lim, e, n).Going?
    ensures n > 0 && Rounds(c, capacity, lim, e, n) == Rounds(Round(c, capacity, lim, e), capacity, lim, e, n - 1)
  {
  }

  /* More rounds than needed make no difference. */
  lemma {:induction false} RoundsSettled(c: Carving, capacity: nat, lim: Limits, e: nat, n: nat, m: nat)
    requires lim.Valid() && e < TOP && (c.Going? ==> c.b <= e) && n <= m && !Rounds(c, capacity, lim, e, n).Going?
    ensures Rounds(c, capacity, lim, e, m) == Rounds(c, capacity, lim, e, n)
    decreases n
  {
    if n == 0 {
      RoundsStop(c, capacity, lim, e, m);
    } else {
      RoundsSettled(Round(c, capacity, lim, e), capacity, lim, e, n - 1, m - 1);
    }
  }

  /* ---- gaps ---- */

  /** A gap of a single byte in front of an entry. */
  ghost predicate LoneGap(s: seq<Region>, b: nat, e: nat, x: nat) {
    b <= x < e && !Covered(s, x) && Covered(s, x + 1) && (x == b || Covered(s, x - 1))
  }

  ghost predicate NoLoneGaps(s: seq<Region>, b: nat, e: nat) {
    forall x: nat :: !LoneGap(s, b, e, x)
  }

  /** A gap of a single byte at the end of the area. */
  ghost predicate LoneTail(s: seq<Region>, b: nat, e: nat) {
    b <= e && !Covered(s, e) && (e == b || Covered(s, e - 1))
  }

  /** Every stretch of uncovered addresses in `[b, e]` has at least two bytes. */
  ghost predicate GapsOfTwo(s: seq<Region>, b: nat, e: nat) {
    forall x: nat :: b <= x <= e && !Covered(s, x) ==> HasNeighbour(s, b, e, x)
  }

  ghost predicate HasNeighbour(s: seq<Region>, b: nat, e: nat, x: nat) {
    (x < e && !Covered(s, x + 1)) || (b < x && !Covered(s, x - 1))
  }

  lemma GapsOfTwoExact(s: seq<Region>, b: nat, e: nat)
    requires b <= e
    ensures GapsOfTwo(s, b, e) <==> NoLoneGaps(s, b, e) && !LoneTail(s, b, e)
  {
    hide Covered;
    if GapsOfTwo(s, b, e) {
      forall x: nat
        ensures !LoneGap(s, b, e, x)
      {
        assert LoneGap(s, b, e, x) ==> HasNeighbour(s, b, e, x);
      }
      assert Covered(s, e) || HasNeighbour(s, b, e, e);
    } else {
      var x: nat :| b <= x <= e && !Covered(s, x) && !HasNeighbour(s, b, e, x);
      assert x == e || LoneGap(s, b, e, x);
    }
  }

  /** The list after carving: exactly the uncovered addresses of the area became kernel memory. */
  ghost predicate Carved(before: seq<Region>, after: seq<Region>, begin: nat, end: int) {
    forall x: nat, a: Region :: Has(after, x, a) <==>
      Has(before, x, a) || (begin <= x <= end && !Covered(before, x) && IsKmem(a))
  }

  /** What a scan that ends has done: a single uncovered byte at the end of the area is left out, although
      the scan reports success. */
  ghost predicate CarvedOrTail(before: seq<Region>, c: Carving, begin: nat, end: nat) {
    && c.Done? && Sorted(c.st.entries)
    && Carved(before, c.st.entries, begin, if LoneTail(before, begin, end) then end - 1 else end)
    && (c.added <==> exists x: nat :: begin <= x <= end && !Covered(before, x))
  }

  /** The addresses of `(b, e]` that end a gap. */
  ghost function GapEnds(s: seq<Region>, b: nat, e: nat): set<nat> {
    set x: nat | b < x <= e && EndsGap(s, x)
  }

  ghost predicate EndsGap(s: seq<Region>, x: nat) {
    x > 0 && Covered(s, x) && !Covered(s, x - 1)
  }

  /** Room in the store for one entry per gap, and within the limits of the list for the whole area. */
  ghost predicate Roomy(st: State, capacity: nat, lim: Limits, b: nat, e: nat) {
    && |st.entries| + |GapEnds(st.entries, b, e)| + 1 <= capacity
    && lim.Valid() && e <= lim.address && st.combined + (e - b + 1) <= lim.size
  }

  lemma AddWithinLimits(st: State, capacity: nat, lim: Limits, begin: nat, end: nat)
    requires Sorted(st.entries) && |st.entries| < capacity && lim.Valid() && begin < end < TOP
    requires end <= lim.address && st.combined + (end - begin + 1) <= lim.size
    requires Clear(st.entries, KmemRegion(begin, end))
    ensures var t := AddStep(st, capacity, lim, KmemRegion(begin, end), false);
      && t.Some? && Sorted(t.value.entries) && |t.value.entries| == |st.entries| + 1
      && t.value.combined == st.combined + (end - begin + 1)
      && forall x, a :: Has(t.value.entries, x, a) <==> Has(st.entries, x, a) || KmemRegion(begin, end).Gives(x, a)
  {
    var r := KmemRegion(begin, end);
    assert Cut(r, lim, st.combined) == Kept(r);
    AddedMeaning(st.entries, capacity, r);
  }

  /** A region of a single byte is dropped by `add` without a trace. */
  lemma OneByteDropped(st: State, capacity: nat, lim: Limits, x: nat)
    requires lim.Valid() && x <= lim.address && x < TOP
    ensures AddStep(st, capacity, lim, KmemRegion(x, x), false) == Some(st)
  {
  }

  /* ---- the state between two rounds of the scan ---- */

  /** Part of the area is done, up to an entry at `f`: what was there is still there, anything new is kernel
      memory on uncovered addresses below `f`, and everything below `b` and below `f` is covered. */
  ghost predicate Partial(s0: seq<Region>, s: seq<Region>, b0: nat, b: nat, f: nat, e: nat) {
    && b0 <= b <= e && b0 <= f <= e
    && (forall x: nat, a: Region :: Has(s, x, a) <==>
        Has(s0, x, a) || (b0 <= x < f && !Covered(s0, x) && IsKmem(a)))
    && (forall x: nat :: b0 <= x < b || b0 <= x < f ==> Covered(s, x))
    && (b0 < f ==> Covered(s0, f) && !Covered(s0, f - 1))
  }

  /** The scan is under way. */
  ghost predicate Under(s0: seq<Region>, c: Carving, capacity: nat, lim: Limits, b0: nat, f: nat, e: nat) {
    && c.Going? && e < TOP && Sorted(c.st.entries) && c.k <= |c.st.entries| && Partial(s0, c.st.entries, b0, c.b, f, e)
    && (forall j :: 0 <= j < c.k ==> !c.st.entries[j].Overlaps(Plain(c.b, e)))
    && |c.st.entries| + |GapEnds(s0, f, e)| + 1 <= capacity
    && lim.Valid() && e <= lim.address && c.st.combined + (e - f + 1) <= lim.size
  }

  lemma CoveredHas(s: seq<Region>, x: nat)
    requires Covered(s, x)
    ensures exists a :: Has(s, x, a)
  {
    var i :| 0 <= i < |s| && s[i].Holds(x);
    assert s[i].Gives(x, s[i]);
    assert Has(s, x, s[i]);
  }

  lemma HasCovered(s: seq<Region>, x: nat, a: Region)
    requires Has(s, x, a)
    ensures Covered(s, x)
  {
    var i :| 0 <= i < |s| && s[i].Gives(x, a);
    assert s[i].Holds(x);
  }

  /* Coverage after one addition. */
  lemma CoveredAdd(s: seq<Region>, t: seq<Region>, r: Region, x: nat)
    requires forall y: nat, a: Region :: Has(t, y, a) <==> Has(s, y, a) || r.Gives(y, a)
    ensures Covered(t, x) <==> Covered(s, x) || r.Holds(x)
  {
    if Covered(t, x) {
      CoveredHas(t, x);
      var a :| Has(t, x, a);
      if Has(s, x, a) { HasCovered(s, x, a); }
    }
    if Covered(s, x) {
      CoveredHas(s, x);
      var a :| Has(s, x, a);
      HasCovered(t, x, a);
    }
    if r.Holds(x) {
      assert r.Gives(x, r);
      HasCovered(t, x, r);
    }
  }

  /* Coverage while part of the area is done. */
  lemma CoveredPart(s0: seq<Region>, s: seq<Region>, b0: nat, b: nat, f: nat, e: nat, x: nat)
    requires Partial(s0, s, b0, b, f, e)
    ensures Covered(s, x) <==> Covered(s0, x) || b0 <= x < f
  {
    if Covered(s, x) {
      CoveredHas(s, x);
      var a :| Has(s, x, a);
      if Has(s0, x, a) { HasCovered(s0, x, a); }
    }
    if Covered(s0, x) {
      CoveredHas(s0, x);
      var a :| Has(s0, x, a);
      HasCovered(s, x, a);
    }
  }

  /* Entry `i` is the first that overlaps the rest of the area, and starts behind `b`. */
  ghost predicate GapBefore(s: seq<Region>, i: nat, b: nat, e: nat) {
    && Sorted(s) && i < |s| && b < s[i].begin <= e
    && forall j :: 0 <= j < i ==> !s[j].Overlaps(Plain(b, e))
  }

  lemma GapIsFree(s: seq<Region>, i: nat, b: nat, e: nat)
    requires GapBefore(s, i, b, e)
    ensures forall x: nat :: b <= x < s[i].begin ==> !Covered(s, x)
    ensures Covered(s, s[i].begin) && Clear(s, KmemRegion(b, s[i].begin - 1))
  {
    var g := s[i].begin;
    forall j | 0 <= j < |s|
      ensures !s[j].Overlaps(KmemRegion(b, g - 1)) && forall x: nat :: b <= x < g ==> !s[j].Holds(x)
    {
    }
    assert s[i].Holds(g);
  }

  /* In terms of the list at the start, a gap is where it is found; and it has one byte exactly if it is
     one of the lone ones. */
  lemma GapFound(s0: seq<Region>, s: seq<Region>, i: nat, b0: nat, b: nat, f: nat, e: nat)
    requires Partial(s0, s, b0, b, f, e) && GapBefore(s, i, b, e)
    ensures f <= b && s[i].begin in GapEnds(s0, f, e)
    ensures forall x: nat :: b <= x < s[i].begin ==> !Covered(s0, x)
    ensures Covered(s0, s[i].begin)
    ensures b + 1 == s[i].begin <==> LoneGap(s0, b0, e, b)
  {
    var g := s[i].begin;
    GapIsFree(s, i, b, e);
    forall x: nat
      ensures Covered(s, x) <==> Covered(s0, x) || b0 <= x < f
    {
      CoveredPart(s0, s, b0, b, f, e, x);
    }
    hide Covered;
    assert !Covered(s, b) && Covered(s, g) && !Covered(s, g - 1);
  }

  /* The gap in front of entry `i` is filled. */
  lemma FillGap(s0: seq<Region>, s: seq<Region>, t: seq<Region>, i: nat, b0: nat, b: nat, f: nat, e: nat)
    requires Partial(s0, s, b0, b, f, e) && GapBefore(s, i, b, e)
    requires forall x: nat, a: Region :: Has(t, x, a) <==> Has(s, x, a) || KmemRegion(b, s[i].begin - 1).Gives(x, a)
    ensures f <= b && Partial(s0, t, b0, b, s[i].begin, e)
    ensures |GapEnds(s0, s[i].begin, e)| < |GapEnds(s0, f, e)|
  {
    var g := s[i].begin;
    GapFound(s0, s, i, b0, b, f, e);
    GapIsFree(s, i, b, e);
    Smaller(GapEnds(s0, g, e), GapEnds(s0, f, e), g);
    forall x: nat
      ensures Covered(t, x) <==> Covered(s, x) || b <= x < g
    {
      CoveredAdd(s, t, KmemRegion(b, g - 1), x);
      CoveredPart(s0, s, b0, b, f, e, x);
    }
    FillHas(s0, s, t, b0, b, f, g);
  }

  lemma FillHas(s0: seq<Region>, s: seq<Region>, t: seq<Region>, b0: nat, b: nat, f: nat, g: nat)
    requires b0 <= f <= b < g
    requires forall x: nat, a: Region :: Has(s, x, a) <==>
        Has(s0, x, a) || (b0 <= x < f && !Covered(s0, x) && IsKmem(a))
    requires forall x: nat, a: Region :: Has(t, x, a) <==> Has(s, x, a) || KmemRegion(b, g - 1).Gives(x, a)
    requires forall x: nat :: b <= x < g ==> !Covered(s0, x)
    requires forall x: nat :: b0 <= x < b ==> Covered(s, x)
    ensures forall x: nat, a: Region :: Has(t, x, a) <==>
        Has(s0, x, a) || (b0 <= x < g && !Covered(s0, x) && IsKmem(a))
  {
    hide Has;
    forall x: nat | f <= x < b
      ensures Covered(s0, x)
    {
      CoveredHas(s, x);
      var c :| Has(s, x, c);
      HasCovered(s0, x, c);
    }
  }

  lemma Smaller(a: set<nat>, b: set<nat>, x: nat)
    requires a <= b && x in b && x !in a
    ensures |a| < |b|
  {
    assert a <= b - {x};
    SubsetSize(a, b - {x});
  }

  lemma {:induction false} SubsetSize(a: set<nat>, b: set<nat>)
    requires a <= b
    ensures |a| <= |b|
  {
    if a != {} {
      var x :| x in a;
      SubsetSize(a - {x}, b - {x});
    }
  }

  /* Going on behind an entry that covers the start of the rest. */
  lemma SkipEntry(s0: seq<Region>, s: seq<Region>, i: nat, b0: nat, b: nat, f: nat, e: nat)
    requires Partial(s0, s, b0, b, f, e) && i < |s| && s[i].begin <= b <= s[i].end < e
    ensures Partial(s0, s, b0, s[i].end + 1, f, e)
  {
    assert forall x: nat :: b <= x <= s[i].end ==> s[i].Holds(x) && Covered(s, x);
    hide Covered, Has;
  }

  /* ---- one round ---- */

  /** The gap that is filled next has one byte. */
  ghost predicate AtLoneGap(s0: seq<Region>, c: Carving, b0: nat, e: nat) {
    && c.Going? && c.k < |c.st.entries| && LoneGap(s0, b0, e, c.b)
    && c.b + 1 == c.st.entries[c.k].begin && Plain(c.b, e).Overlaps(c.st.entries[c.k])
  }

  /** A round that goes on either fills a gap and the done part grows, or moves on in the list; only at a
      gap of one byte it starts over with the same list. */
  lemma RoundKeeps(s0: seq<Region>, c: Carving, capacity: nat, lim: Limits, b0: nat, f: nat, e: nat) returns (f1: nat)
    requires Under(s0, c, capacity, lim, b0, f, e)
    ensures var d := Round(c, capacity, lim, e);
      && !d.Panicked?
      && (d.Going? ==> Under(s0, d, capacity, lim, b0, f1, e))
      && (d.Going? && AtLoneGap(s0, c, b0, e) ==> f1 == f && d == Going(c.st, c.b, 0, true))
      && (d.Going? && !AtLoneGap(s0, c, b0, e) ==>
        if f1 == f then d.st == c.st && d.k == c.k + 1 && d.added == c.added else f < f1 && d.added)
      && (d.Done? ==> !AtLoneGap(s0, c, b0, e))
  {
    hide Partial, Sorted, Has, Covered, GapEnds, AddStep, LoneGap;
    f1 := f;
    var s := c.st.entries;
    PartBounds(s0, s, b0, c.b, f, e);
    if c.k == |s| {
      RestUncovered(s0, s, b0, c.b, f, e);
      if c.b == e {
        OneByteDropped(c.st, capacity, lim, e);
      } else {
        AddWithinLimits(c.st, capacity, lim, c.b, e);
      }
    } else if Plain(c.b, e).Overlaps(s[c.k]) {
      var g := s[c.k].begin;
      if c.b < g {
        GapFound(s0, s, c.k, b0, c.b, f, e);
        GapIsFree(s, c.k, c.b, e);
        if c.b + 1 == g {
          OneByteDropped(c.st, capacity, lim, c.b);
        } else {
          AddWithinLimits(c.st, capacity, lim, c.b, g - 1);
          FillGap(s0, s, AddStep(c.st, capacity, lim, KmemRegion(c.b, g - 1), false).value.entries, c.k, b0, c.b, f, e);
          f1 := g;
        }
      } else if s[c.k].end < e {
        SkipEntry(s0, s, c.k, b0, c.b, f, e);
      }
    }
  }

  lemma PartBounds(s0: seq<Region>, s: seq<Region>, b0: nat, b: nat, f: nat, e: nat)
    requires Partial(s0, s, b0, b, f, e)
    ensures b0 <= b <= e && b0 <= f <= e && forall x: nat :: b0 <= x < b ==> Covered(s, x)
  {
  }

  /* When the scan has passed the last entry. */
  lemma RestUncovered(s0: seq<Region>, s: seq<Region>, b0: nat, b: nat, f: nat, e: nat)
    requires Partial(s0, s, b0, b, f, e) && forall j :: 0 <= j < |s| ==> !s[j].Overlaps(Plain(b, e))
    ensures Clear(s, KmemRegion(b, e)) && f <= b
    ensures forall x: nat :: b <= x <= e ==> !Covered(s, x) && !Covered(s0, x)
    ensures LoneTail(s0, b0, e) <==> b == e
  {
    forall x: nat
      ensures b <= x <= e ==> !Covered(s, x)
      ensures Covered(s, x) <==> Covered(s0, x) || b0 <= x < f
    {
      CoveredPart(s0, s, b0, b, f, e, x);
    }
    hide Covered;
    assert !Covered(s, b) && !Covered(s, e);
  }

  /* ---- the whole run ---- */

  /** At the last round. */
  lemma LastRound(s0: seq<Region>, c: Carving, capacity: nat, lim: Limits, b0: nat, f: nat, e: nat)
    requires Under(s0, c, capacity, lim, b0, f, e) && (c.added <==> b0 < f) && Round(c, capacity, lim, e).Done?
    ensures CarvedOrTail(s0, Round(c, capacity, lim, e), b0, e)
  {
    hide Partial, Sorted, Has, Covered, AddStep;
    var s := c.st.entries;
    PartBounds(s0, s, b0, c.b, f, e);
    if c.k == |s| {
      RestUncovered(s0, s, b0, c.b, f, e);
      assert !Covered(s0, e);
      if c.b == e {
        OneByteDropped(c.st, capacity, lim, e);
        PartialDone(s0, s, b0, c.b, f, e, e - 1);
      } else {
        AddWithinLimits(c.st, capacity, lim, c.b, e);
        PartialFilled(s0, s, AddStep(c.st, capacity, lim, KmemRegion(c.b, e), false).value.entries, b0, c.b, f, e);
      }
    } else {
      RestCovered(s0, s, c.k, b0, c.b, f, e);
      PartialDone(s0, s, b0, c.b, f, e, e);
    }
  }

  lemma RestCovered(s0: seq<Region>, s: seq<Region>, i: nat, b0: nat, b: nat, f: nat, e: nat)
    requires Partial(s0, s, b0, b, f, e) && i < |s| && s[i].begin <= b && e <= s[i].end
    ensures forall x: nat :: b0 <= x <= e ==> Covered(s, x)
    ensures !LoneTail(s0, b0, e)
    ensures b0 < f <==> exists x: nat :: b0 <= x <= e && !Covered(s0, x)
  {
    assert forall x: nat :: b <= x <= e ==> s[i].Holds(x) && Covered(s, x);
    forall x: nat
      ensures Covered(s, x) <==> Covered(s0, x) || b0 <= x < f
    {
      CoveredPart(s0, s, b0, b, f, e, x);
    }
    hide Covered;
    assert b0 < f ==> !Covered(s0, f - 1);
    assert Covered(s, e);
  }

  /* Nothing more is left uncovered up to `e1`. */
  lemma PartialDone(s0: seq<Region>, s: seq<Region>, b0: nat, b: nat, f: nat, e: nat, e1: int)
    requires Partial(s0, s, b0, b, f, e) && forall x: nat :: b0 <= x <= e1 ==> Covered(s, x)
    requires f <= e1 + 1
    ensures Carved(s0, s, b0, e1)
  {
    forall x: nat | b0 <= x <= e1 && !Covered(s0, x)
      ensures x < f
    {
      CoveredPart(s0, s, b0, b, f, e, x);
    }
    hide Covered, Has;
  }

  /* The rest behind the last overlapping entry is filled. */
  lemma PartialFilled(s0: seq<Region>, s: seq<Region>, t: seq<Region>, b0: nat, b: nat, f: nat, e: nat)
    requires Partial(s0, s, b0, b, f, e) && f <= b < e && forall x: nat :: b <= x <= e ==> !Covered(s0, x)
    requires forall x: nat, a: Region :: Has(t, x, a) <==> Has(s, x, a) || KmemRegion(b, e).Gives(x, a)
    ensures Carved(s0, t, b0, e)
  {
    FillHas(s0, s, t, b0, b, f, e + 1);
  }

  /** Without a gap of one byte in front of an entry the scan ends: the done part grows, or else the scan
      moves on in the list. */
  lemma {:induction false} CarvingEnds(s0: seq<Region>, c: Carving, capacity: nat, lim: Limits, b0: nat, f: nat, e: nat)
      returns (n: nat)
    requires Under(s0, c, capacity, lim, b0, f, e) && (c.added <==> b0 < f) && NoLoneGaps(s0, b0, e)
    ensures CarvedOrTail(s0, Rounds(c, capacity, lim, e, n), b0, e)
    decreases e - f, |c.st.entries| - c.k
  {
    hide CarvedOrTail, Round, LoneGap;
    PartBounds(s0, c.st.entries, b0, c.b, f, e);
    var f1 := RoundKeeps(s0, c, capacity, lim, b0, f, e);
    var d := Round(c, capacity, lim, e);
    if d.Going? {
      hide Sorted;
      PartBounds(s0, d.st.entries, b0, d.b, f1, e);
      n := CarvingEnds(s0, d, capacity, lim, b0, f1, e);
      n := n + 1;
    } else {
      LastRound(s0, c, capacity, lim, b0, f, e);
      n := 1;
      assert Rounds(d, capacity, lim, e, 0) == d;
    }
  }

  /** A gap of one byte in front of an entry is never filled, and the scan never gets past it. */
  lemma {:induction false} CarvingStalls(s0: seq<Region>, c: Carving, capacity: nat, lim: Limits, b0: nat, f: nat,
      e: nat, x: nat, n: nat)
    requires Under(s0, c, capacity, lim, b0, f, e) && LoneGap(s0, b0, e, x) && !Covered(c.st.entries, x)
    ensures var d := Rounds(c, capacity, lim, e, n); d.Going? && !Covered(d.st.entries, x)
    decreases n
  {
    hide Covered;
    if n > 0 {
      var f1 := RoundKeeps(s0, c, capacity, lim, b0, f, e);
      StallRound(s0, c, capacity, lim, b0, f, e, x);
      CarvingStalls(s0, Round(c, capacity, lim, e), capacity, lim, b0, f1, e, x, n - 1);
    }
  }

  lemma StallRound(s0: seq<Region>, c: Carving, capacity: nat, lim: Limits, b0: nat, f: nat, e: nat, x: nat)
    requires Under(s0, c, capacity, lim, b0, f, e) && LoneGap(s0, b0, e, x) && !Covered(c.st.entries, x)
    ensures var d := Round(c, capacity, lim, e); d.Going? && !Covered(d.st.entries, x)
  {
    hide AddStep, Has, Sorted, Partial, Covered, GapEnds;
    var s := c.st.entries;
    var f1 := RoundKeeps(s0, c, capacity, lim, b0, f, e);
    var h := StillAhead(s0, s, b0, c.b, f, e, x);
    assert c.k < |s|;
    var g := s[c.k].begin;
    if Plain(c.b, e).Overlaps(s[c.k]) && c.b < g {
      GapIsFree(s, c.k, c.b, e);
      GapFound(s0, s, c.k, b0, c.b, f, e);
      if c.b + 1 < g {
        PartBounds(s0, s, b0, c.b, f, e);
        assert g <= x;
        AddWithinLimits(c.st, capacity, lim, c.b, g - 1);
        CoveredAdd(s, AddStep(c.st, capacity, lim, KmemRegion(c.b, g - 1), false).value.entries, KmemRegion(c.b, g - 1),
          x);
      }
    } else if Plain(c.b, e).Overlaps(s[c.k]) {
      NotHeld(s, c.k, x);
    }
  }

  lemma NotHeld(s: seq<Region>, i: nat, x: nat)
    requires i < |s| && !Covered(s, x)
    ensures !s[i].Holds(x)
  {
  }

  /* The entry behind a gap of one byte overlaps the rest. */
  lemma StillAhead(s0: seq<Region>, s: seq<Region>, b0: nat, b: nat, f: nat, e: nat, x: nat) returns (h: nat)
    requires Partial(s0, s, b0, b, f, e) && LoneGap(s0, b0, e, x) && !Covered(s, x)
    ensures h < |s| && s[h].Overlaps(Plain(b, e)) && b <= x && Covered(s, x + 1)
    ensures x == b || Covered(s, x - 1)
  {
    CoveredPart(s0, s, b0, b, f, e, x + 1);
    if x > 0 { CoveredPart(s0, s, b0, b, f, e, x - 1); }
    h :| 0 <= h < |s| && s[h].Holds(x + 1);
  }

  lemma UnderStart(st: State, capacity: nat, lim: Limits, b: nat, e: nat)
    requires Sorted(st.entries) && b <= e < TOP && Roomy(st, capacity, lim, b, e)
    ensures Under(st.entries, Start(st, b), capacity, lim, b, b, e)
  {
    hide Sorted;
  }

  /** The exact condition: the scan ends if and only if no gap in front of an entry has a single byte. It
      carves the whole area if and only if no gap at all has. It never panics. */
  lemma CarvingExact(st: State, capacity: nat, lim: Limits, b: nat, e: nat)
    requires Sorted(st.entries) && b <= e < TOP && Roomy(st, capacity, lim, b, e)
    ensures (exists n: nat :: !Rounds(Start(st, b), capacity, lim, e, n).Going?) <==> NoLoneGaps(st.entries, b, e)
    ensures forall n: nat ::
      var d := Rounds(Start(st, b), capacity, lim, e, n); d.Going? || CarvedOrTail(st.entries, d, b, e)
    ensures GapsOfTwo(st.entries, b, e) <==>
      exists n: nat ::
        var d := Rounds(Start(st, b), capacity, lim, e, n); d.Done? && Carved(st.entries, d.st.entries, b, e)
  {
    assert lim.Valid();
    hide Sorted, Roomy, Under, Round, Carved, GapsOfTwo, CarvedOrTail, LoneGap;
    var s := st.entries;
    UnderStart(st, capacity, lim, b, e);
    GapsOfTwoExact(s, b, e);
    if NoLoneGaps(s, b, e) {
      var n := CarvingEnds(s, Start(st, b), capacity, lim, b, b, e);
      var r := Rounds(Start(st, b), capacity, lim, e, n);
      ResultParts(s, r, b, e);
      forall m: nat
        ensures Rounds(Start(st, b), capacity, lim, e, m).Going? || Rounds(Start(st, b), capacity, lim, e, m) == r
      {
        var d := Rounds(Start(st, b), capacity, lim, e, m);
        if m <= n && !d.Going? {
          RoundsSettled(Start(st, b), capacity, lim, e, m, n);
        } else if n <= m {
          RoundsSettled(Start(st, b), capacity, lim, e, n, m);
        }
      }
    } else {
      var x: nat :| LoneGap(s, b, e, x);
      LoneUncovered(s, b, e, x);
      forall n: nat
        ensures Rounds(Start(st, b), capacity, lim, e, n).Going?
      {
        CarvingStalls(s, Start(st, b), capacity, lim, b, b, e, x, n);
      }
    }
  }

  lemma LoneUncovered(s: seq<Region>, b: nat, e: nat, x: nat)
    requires LoneGap(s, b, e, x)
    ensures !Covered(s, x)
  {
  }

  /* A result carves the whole area unless a single byte is left at its end. */
  lemma ResultParts(s: seq<Region>, r: Carving, b: nat, e: nat)
    requires CarvedOrTail(s, r, b, e) && b <= e
    ensures r.Done? && (Carved(s, r.st.entries, b, e) <==> !LoneTail(s, b, e))
  {
    hide Covered, Has, Sorted;
    if LoneTail(s, b, e) {
      if Has(s, e, KmemRegion(0, 1)) { HasCovered(s, e, KmemRegion(0, 1)); }
      assert !Has(r.st.entries, e, KmemRegion(0, 1));
    }
  }

  /* ---- the method ---- */

  /** Add kernel memory on the part of `[begin, end]` that no entry covers; `added` tells whether
      there was any. The scan has to end after some number of rounds. */
  method AddKmemAreaOnRam(regions: RegionList, begin: nat, end: nat, ghost rounds: nat) returns (added: bool, ok: bool)
    requires regions.Valid() && Sorted(regions.Contents()) && begin <= end < TOP
    requires !Rounds(Start(regions.Abstract(), begin), regions.store.Length, regions.limits, end, rounds).Going?
    modifies regions, regions.store
    ensures regions.Valid()
    ensures var r := Rounds(Start(old(regions.Abstract()), begin), regions.store.Length, regions.limits, end, rounds);
      if ok then r == Done(regions.Abstract(), added) else r == Panicked
    ensures Roomy(old(regions.Abstract()), regions.store.Length, regions.limits, begin, end) ==>
      ok && CarvedOrTail(old(regions.Contents()), Done(regions.Abstract(), added), begin, end)
  {
    hide Sorted, AddStep, Roomy, CarvedOrTail, Rounds;
    ghost var st0, capacity, lim := regions.Abstract(), regions.store.Length, regions.limits;
    ghost var last := Rounds(Start(st0, begin), capacity, lim, end, rounds);
    if Roomy(st0, capacity, lim, begin, end) {
      CarvingExact(st0, capacity, lim, begin, end);
      ResultParts(st0.entries, last, begin, end);
    }
    var b, k := begin, 0;
    ghost var n := rounds;
    added := false;
    while k != regions.len
      invariant k <= regions.len && regions.Valid() && Sorted(regions.Contents()) && begin <= b <= end
      invariant regions.store.Length == capacity && regions.limits == lim
      invariant Rounds(Going(regions.Abstract(), b, k, added), capacity, lim, end, n) == last
      decreases n
    {
      var g := regions.store[k];
      assert g == regions.Contents()[k];
      RoundsNext(Going(regions.Abstract(), b, k, added), capacity, lim, end, n);
      n := n - 1;
      if Plain(b, end).Overlaps(g) {
        if b < g.begin {
          AddedSortedStep(regions.Abstract(), capacity, lim, KmemRegion(b, g.begin - 1));
          ok := regions.AddRegion(KmemRegion(b, g.begin - 1), false);
          if !ok {
            RoundsStop(Panicked, capacity, lim, end, n);
            return;
          }
          added := true;
          k := 0;
          continue;
        }
        if end <= g.end {
          RoundsStop(Done(regions.Abstract(), added), capacity, lim, end, n);
          return added, true;
        }
        b := g.end + 1;
      }
      k := k + 1;
    }
    RoundsNext(Going(regions.Abstract(), b, k, added), capacity, lim, end, n);
    ok := regions.AddRegion(KmemRegion(b, end), false);
    added := true;
    RoundsStop(if ok then Done(regions.Abstract(), true) else Panicked, capacity, lim, end, n - 1);
  }

  lemma AddedSortedStep(st: State, capacity: nat, lim: Limits, r: Region)
    requires Sorted(st.entries) && |st.entries| <= capacity && lim.Valid() && r.Valid()
    ensures var t := AddStep(st, capacity, lim, r, false); t.Some? ==> Sorted(t.value.entries)
  {
    AddedSorted(st.entries, capacity, lim, st.combined, r);
  }
}
