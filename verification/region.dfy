/** Memory regions (server/src/region.h) and what the operations of a region list mean on the
    sequence of its entries (server/src/region.cc). */
module Regions {

  const TOP: nat := 0x1_0000_0000_0000_0000
  const PAGE: nat := 0x1000

  /** The name of the regions that hold boot modules. */
  const MOD_REG: nat := 1

  datatype Kind = NoMem | Kernel | Sigma0 | Boot | Root | Arch | Ram | Info | Kmem

  /** An address interval with an inclusive end.  The name is compared by pointer, so it is kept as
      a number. */
  datatype Region = Region(begin: nat, end: nat, name: nat, kind: Kind, sub: nat, eager: bool) {
    predicate Valid() { begin <= end < TOP }

    /* Number of bytes, in 64 bits. */
    function Size(): nat
      requires Valid()
    {
      (end - begin + 1) % TOP
    }

    /* `operator <`: entirely below. */
    predicate Below(o: Region) { end < o.begin }

    predicate Overlaps(o: Region) { !Below(o) && !o.Below(this) }

    predicate Contains(o: Region) { begin <= o.begin && o.end <= end }

    predicate Holds(x: nat) { begin <= x <= end }

    predicate SameAttributes(o: Region) {
      kind == o.kind && sub == o.sub && name == o.name && eager == o.eager
    }

    /* Address `x` lies here, and with the attributes of `a`. */
    predicate Gives(x: nat, a: Region) { Holds(x) && SameAttributes(a) }

    /* The common part; an invalid region when there is none. */
    function Intersect(o: Region): Region {
      if !Overlaps(o) then Plain(0, 0)
      else
        var b, e := if begin > o.begin then begin else o.begin, if end < o.end then end else o.end;
        Region(b, e, name, kind, sub, false)
    }
  }

  /** A region with no attributes, as made for look-ups. */
  function Plain(begin: nat, end: nat): Region {
    Region(begin, end, 0, NoMem, 0, false)
  }

  /** `overlaps` is true exactly of intervals with a common address, and `intersect` is the set of
      those; `contains` is inclusion. */
  lemma OverlapMeansCommon(a: Region, b: Region)
    requires a.Valid() && b.Valid()
    ensures a.Contains(b) <==> forall x :: b.Holds(x) ==> a.Holds(x)
    ensures a.Overlaps(b) <==> exists x :: a.Holds(x) && b.Holds(x)
    ensures a.Overlaps(b) ==> forall x :: a.Intersect(b).Holds(x) <==> a.Holds(x) && b.Holds(x)
  {
    if a.Overlaps(b) {
      var x := if a.begin > b.begin then a.begin else b.begin;
      assert a.Holds(x) && b.Holds(x);
    }
    assert b.Holds(b.begin) && b.Holds(b.end);
  }

  /* ---- lists ---- */

  /** Entries in ascending order without a common address. */
  ghost predicate Sorted(s: seq<Region>) {
    && (forall i :: 0 <= i < |s| ==> s[i].Valid())
    && (forall i, j :: 0 <= i < j < |s| ==> s[i].end < s[j].begin)
  }

  ghost predicate AllValid(s: seq<Region>) {
    forall i :: 0 <= i < |s| ==> s[i].Valid()
  }

  lemma SortedAllValid(s: seq<Region>)
    requires Sorted(s)
    ensures AllValid(s)
  {
  }

  ghost predicate Covered(s: seq<Region>, x: nat) {
    exists i :: 0 <= i < |s| && s[i].Holds(x)
  }

  /** Address `x` lies in an entry with the attributes of `a`. */
  ghost predicate Has(s: seq<Region>, x: nat, a: Region) {
    exists i :: 0 <= i < |s| && s[i].Gives(x, a)
  }

  ghost predicate Clear(s: seq<Region>, r: Region) {
    forall i :: 0 <= i < |s| ==> !s[i].Overlaps(r)
  }

  lemma NotClear(s: seq<Region>, r: Region, i: nat)
    requires i < |s| && s[i].Overlaps(r)
    ensures !Clear(s, r)
  {
  }

  /* The sum of the sizes, unbounded. */
  ghost function Total(s: seq<Region>): nat
    requires AllValid(s)
  {
    if s == [] then 0
    else
      assert s[0].Valid() && AllValid(s[1..]);
      (s[0].end - s[0].begin + 1) + Total(s[1..])
  }

  /* ---- insertion ---- */

  /** The position of the first entry that is not below `r`. */
  function Place(s: seq<Region>, r: Region): (p: nat)
    ensures p <= |s|
    ensures forall i :: 0 <= i < p ==> s[i].Below(r)
    ensures p < |s| ==> !s[p].Below(r)
  {
    if s == [] then 0
    else if !s[0].Below(r) then 0
    else 1 + Place(s[1..], r)
  }

  lemma PlaceUnique(s: seq<Region>, r: Region, p: nat)
    requires p <= |s| && (forall i :: 0 <= i < p ==> s[i].Below(r)) && (p < |s| ==> !s[p].Below(r))
    ensures Place(s, r) == p
  {
  }

  function Inserted(s: seq<Region>, r: Region): seq<Region> {
    var p := Place(s, r);
    s[..p] + [r] + s[p..]
  }

  /** Looking at the first entry that is not below `r` detects every overlap. */
  lemma FirstNotBelowDecides(s: seq<Region>, r: Region)
    requires Sorted(s) && r.Valid()
    ensures var p := Place(s, r);
      (p < |s| ==> r.Below(s[p])) <==> Clear(s, r)
  {
    var p := Place(s, r);
    if p < |s| && r.Below(s[p]) {
      forall i | 0 <= i < |s|
        ensures !s[i].Overlaps(r)
      {
      }
    }
  }

  lemma SortedConcat(s: seq<Region>, t: seq<Region>)
    requires Sorted(s) && Sorted(t)
    requires s != [] && t != [] ==> s[|s| - 1].end < t[0].begin
    ensures Sorted(s + t)
  {
    forall i, j | 0 <= i < |s| && 0 <= j < |t|
      ensures s[i].end < t[j].begin
    {
      assert s[i].end <= s[|s| - 1].end && t[0].begin <= t[j].begin;
    }
  }

  lemma SlicesSorted(s: seq<Region>, i: nat)
    requires Sorted(s) && i < |s|
    ensures Sorted(s[..i]) && Sorted(s[i + 1..]) && Sorted(s[i..]) && s[i].Valid()
    ensures i > 0 ==> s[..i][i - 1].end < s[i].begin
    ensures s[i + 1..] != [] ==> s[i].end < s[i + 1..][0].begin
  {
  }

  lemma InsertedSorted(s: seq<Region>, r: Region)
    requires Sorted(s) && r.Valid() && Clear(s, r)
    ensures Sorted(Inserted(s, r))
  {
    FirstNotBelowDecides(s, r);
    var p := Place(s, r);
    SortedConcat(s[..p], [r]);
    SortedConcat(s[..p] + [r], s[p..]);
  }

  lemma HasConcat(s: seq<Region>, t: seq<Region>, x: nat, a: Region)
    ensures Has(s + t, x, a) <==> Has(s, x, a) || Has(t, x, a)
  {
    hide Region.Gives;
    var u := s + t;
    if Has(s, x, a) {
      var i :| 0 <= i < |s| && s[i].Gives(x, a);
      assert u[i] == s[i];
    }
    if Has(t, x, a) {
      var i :| 0 <= i < |t| && t[i].Gives(x, a);
      assert u[|s| + i] == t[i];
    }
    if Has(u, x, a) {
      var i :| 0 <= i < |u| && u[i].Gives(x, a);
      assert if i < |s| then s[i].Gives(x, a) else t[i - |s|].Gives(x, a);
    }
  }

  lemma HasOne(r: Region, x: nat, a: Region)
    ensures Has([r], x, a) <==> r.Gives(x, a)
  {
    assert [r][0] == r;
  }

  /** Insertion adds the addresses of the new entry, with its attributes, and changes no other. */
  lemma InsertedHas(s: seq<Region>, r: Region, x: nat, a: Region)
    ensures Has(Inserted(s, r), x, a) <==> Has(s, x, a) || r.Gives(x, a)
  {
    hide Has, Region.Gives, Place;
    var p := Place(s, r);
    assert s == s[..p] + s[p..];
    HasConcat(s[..p], s[p..], x, a);
    HasConcat(s[..p] + [r], s[p..], x, a);
    HasConcat(s[..p], [r], x, a);
    HasOne(r, x, a);
  }

  /* ---- merging ---- */

  function TruncPage(x: nat): nat { x / PAGE * PAGE }

  function RoundPage(x: nat): nat { (x + PAGE - 1) % TOP / PAGE * PAGE }

  /** `optimize` joins `c` and its successor `n`. */
  predicate Mergeable(c: Region, n: Region) {
    c.SameAttributes(n) && RoundPage(c.end) >= TruncPage(n.begin)
  }

  /** Two entries are joined if they agree in everything but their addresses and there is no whole page from
      the last byte of the first on that ends before the second. */
  lemma MergeableExact(c: Region, n: Region)
    requires c.end + 0x1000 <= 0x1_0000_0000_0000_0000
    ensures Mergeable(c, n) <==>
      && c.kind == n.kind && c.sub == n.sub && c.name == n.name && c.eager == n.eager
      && !exists p: nat :: PageBetween(c.end, p, n.begin)
  {
    var r, t := RoundPage(c.end), TruncPage(n.begin);
    if r < t {
      assert PageBetween(c.end, r, n.begin);
    }
    if p: nat :| PageBetween(c.end, p, n.begin) {
      assert r <= p && p + 0x1000 <= t;
    }
  }

  ghost predicate PageBetween(a: nat, p: nat, b: nat) {
    p % 0x1000 == 0 && a <= p && p + 0x1000 <= b
  }

  function Merge(c: Region, n: Region): Region {
    c.(end := n.end)
  }

  function Optimized(s: seq<Region>): (r: seq<Region>)
    ensures |r| <= |s|
    ensures s != [] ==> r != [] && r[0].begin == s[0].begin && r[0].SameAttributes(s[0])
    decreases |s|
  {
    if |s| <= 1 then s
    else if Mergeable(s[0], s[1]) then Optimized([Merge(s[0], s[1])] + s[2..])
    else [s[0]] + Optimized(s[1..])
  }

  ghost predicate NoMerge(s: seq<Region>) {
    forall i :: 0 <= i < |s| - 1 ==> !Mergeable(s[i], s[i + 1])
  }

  lemma MergedSorted(s: seq<Region>)
    requires Sorted(s) && |s| >= 2
    ensures Sorted([Merge(s[0], s[1])] + s[2..]) && Merge(s[0], s[1]).Valid()
    ensures s[0].begin <= s[0].end < s[1].begin <= s[1].end
  {
  }

  /** Putting back a first entry that does not merge with its successor. */
  lemma KeptFirst(s: seq<Region>, t: seq<Region>)
    requires Sorted(s) && |s| > 1 && !Mergeable(s[0], s[1])
    requires Sorted(t) && NoMerge(t) && t != [] && t[0].begin == s[1].begin && t[0].SameAttributes(s[1])
    ensures Sorted([s[0]] + t) && NoMerge([s[0]] + t)
  {
    hide RoundPage, TruncPage;
    var r := [s[0]] + t;
    forall i | 0 <= i < |r| - 1
      ensures !Mergeable(r[i], r[i + 1])
    {
      if i > 0 {
        assert !Mergeable(t[i - 1], t[i]);
      }
    }
  }

  lemma {:induction false} OptimizedSorted(s: seq<Region>)
    requires Sorted(s)
    ensures Sorted(Optimized(s)) && NoMerge(Optimized(s))
    decreases |s|
  {
    if |s| > 1 {
      if Mergeable(s[0], s[1]) {
        MergedSorted(s);
        OptimizedSorted([Merge(s[0], s[1])] + s[2..]);
      } else {
        OptimizedSorted(s[1..]);
        KeptFirst(s, Optimized(s[1..]));
      }
    }
  }

  lemma {:induction false} OptimizedStops(s: seq<Region>)
    requires NoMerge(s)
    ensures Optimized(s) == s
    decreases |s|
  {
    if |s| > 1 {
      assert !Mergeable(s[0], s[1]);
      forall i | 0 <= i < |s[1..]| - 1
        ensures !Mergeable(s[1..][i], s[1..][i + 1])
      {
        assert !Mergeable(s[i + 1], s[i + 2]);
      }
      OptimizedStops(s[1..]);
    }
  }

  /** It makes the list shorter exactly when there are neighbours to join. */
  lemma {:induction false} OptimizedShorter(s: seq<Region>)
    ensures |Optimized(s)| < |s| <==> !NoMerge(s)
    decreases |s|
  {
    if NoMerge(s) {
      OptimizedStops(s);
    } else if !Mergeable(s[0], s[1]) {
      var i :| 0 <= i < |s| - 1 && Mergeable(s[i], s[i + 1]);
      assert s[1..][i - 1] == s[i] && s[1..][i - 1 + 1] == s[i + 1];
      OptimizedShorter(s[1..]);
    }
  }

  /** Optimizing a second time changes nothing. */
  lemma OptimizedIdempotent(s: seq<Region>)
    requires Sorted(s)
    ensures Optimized(Optimized(s)) == Optimized(s)
  {
    OptimizedSorted(s);
    OptimizedStops(Optimized(s));
  }

  /* `x` lies strictly between two neighbours that are joined and have the attributes of `a`. */
  predicate Gap(c: Region, n: Region, x: nat, a: Region) {
    Mergeable(c, n) && c.end < x < n.begin && c.SameAttributes(a)
  }

  ghost predicate Between(s: seq<Region>, x: nat, a: Region) {
    exists i :: 0 <= i < |s| - 1 && Gap(s[i], s[i + 1], x, a)
  }

  lemma BetweenCons(r: Region, s: seq<Region>, x: nat, a: Region)
    requires s != []
    ensures Between([r] + s, x, a) <==> Gap(r, s[0], x, a) || Between(s, x, a)
  {
    hide Gap;
    var t := [r] + s;
    assert t[0] == r && t[1] == s[0];
    if Between(t, x, a) {
      var i :| 0 <= i < |t| - 1 && Gap(t[i], t[i + 1], x, a);
      assert i > 0 ==> t[i] == s[i - 1] && t[i + 1] == s[i - 1 + 1];
    }
    if Between(s, x, a) {
      var i :| 0 <= i < |s| - 1 && Gap(s[i], s[i + 1], x, a);
      assert t[i + 1] == s[i] && t[i + 1 + 1] == s[i + 1];
    }
  }

  lemma HasCons(r: Region, s: seq<Region>, x: nat, a: Region)
    ensures Has([r] + s, x, a) <==> r.Gives(x, a) || Has(s, x, a)
  {
    HasConcat([r], s, x, a);
    HasOne(r, x, a);
  }

  lemma MergeGives(c: Region, n: Region, m: Region, x: nat, a: Region)
    requires c.begin <= c.end < n.begin <= n.end && Mergeable(c, n)
    ensures Merge(c, n).Gives(x, a) <==> c.Gives(x, a) || n.Gives(x, a) || Gap(c, n, x, a)
    ensures Gap(Merge(c, n), m, x, a) <==> Gap(n, m, x, a)
  {
  }

  /** Optimizing loses no covered address and no attribute, and the addresses it adds are exactly
      those strictly between two joined neighbours. */
  lemma {:induction false} OptimizedCovers(s: seq<Region>, x: nat, a: Region)
    requires Sorted(s)
    ensures Has(Optimized(s), x, a) <==> Has(s, x, a) || Between(s, x, a)
    decreases |s|
  {
    if |s| > 1 {
      var rest, tail := s[1..], s[2..];
      assert s == [s[0]] + rest && rest == [s[1]] + tail;
      HasCons(s[0], rest, x, a);
      BetweenCons(s[0], rest, x, a);
      if Mergeable(s[0], s[1]) {
        OptimizedCoversMerge(s, x, a);
      } else {
        OptimizedCovers(rest, x, a);
        HasCons(s[0], Optimized(rest), x, a);
      }
    } else {
      BetweenShort(s, x, a);
    }
  }

  lemma {:induction false} OptimizedCoversMerge(s: seq<Region>, x: nat, a: Region)
    requires Sorted(s) && |s| >= 2 && Mergeable(s[0], s[1])
    ensures Has(Optimized(s), x, a) <==>
      s[0].Gives(x, a) || Gap(s[0], s[1], x, a) || Has(s[1..], x, a) || Between(s[1..], x, a)
    decreases |s|, 0
  {
    hide Region.Gives, Gap, Has, Between, Sorted;
    var m, tail := Merge(s[0], s[1]), s[2..];
    assert s[1..] == [s[1]] + tail;
    assert Sorted([m] + tail) && s[0].begin <= s[0].end < s[1].begin <= s[1].end by {
      MergedSorted(s);
    }
    OptimizedCovers([m] + tail, x, a);
    HasCons(m, tail, x, a);
    HasCons(s[1], tail, x, a);
    MergeGives(s[0], s[1], if tail != [] then tail[0] else m, x, a);
    if tail != [] {
      BetweenCons(m, tail, x, a);
      BetweenCons(s[1], tail, x, a);
    } else {
      BetweenShort([m], x, a);
      BetweenShort([s[1]], x, a);
      assert [m] + tail == [m] && s[1..] == [s[1]];
    }
  }

  lemma BetweenShort(s: seq<Region>, x: nat, a: Region)
    requires |s| <= 1
    ensures !Between(s, x, a)
  {
  }
}
