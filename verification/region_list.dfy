/** The fixed-size, sorted region list (server/src/region.cc, server/src/region.h). */
module RegionLists {
  import opened Options
  import opened Regions

  /** The address limit and the limit on the combined size of a list. */
  datatype Limits = Limits(address: nat, size: nat) {
    predicate Valid() { address < TOP && size < TOP }
  }

  /* ---- what `add` does, on the sequence of entries ---- */

  /** A new region after the limits of the list: dropped, cut, or stopped by the assertion in the
      setter of the end address. */
  datatype Limited = Dropped | Refused | Kept(region: Region)

  function CutAddress(r: Region, lim: Limits): Limited
    requires lim.Valid()
  {
    if r.begin == 0 && r.end == 0 then Dropped
    else if r.begin > lim.address then Dropped
    else if r.end <= lim.address then Kept(r)
    else
      var end := (lim.address + TOP - 1) % TOP;
      if end < r.begin then Refused else Kept(r.(end := end))
  }

  function CutSize(m: Region, lim: Limits, combined: nat): (r: Limited)
    requires m.Valid() && lim.Valid()
    ensures r != Refused
    ensures r.Kept? ==> r.region.Valid() && r.region == m.(end := r.region.end) && r.region.end <= m.end
  {
    if combined >= lim.size then Dropped
    else if (combined + m.Size()) % TOP > lim.size then Kept(m.(end := m.begin + lim.size - combined - 1))
    else Kept(m)
  }

  function Cut(r: Region, lim: Limits, combined: nat): Limited
    requires r.Valid() && lim.Valid()
  {
    var m := CutAddress(r, lim);
    if m.Kept? then CutSize(m.region, lim, combined) else m
  }

  /** What the limits leave of a region, address by address. Beyond the address limit, which is above zero, all
      addresses from the limit on are cut off, also the limit itself; a region that begins right there stops in
      the assertion, and one further up is dropped. As many bytes are left as the size limit has room for. */
  lemma CutExact(r: Region, lim: Limits, combined: nat)
    requires r.Valid() && lim.Valid() && 0 < lim.address && combined + (r.end - r.begin + 1) < 0x1_0000_0000_0000_0000
    ensures var k := CutAddress(r, lim);
      && (k == Dropped <==> r.end == 0 || lim.address < r.begin)
      && (k == Refused <==> r.begin == lim.address < r.end)
      && (k.Kept? ==>
        && SameButEnd(k.region, r)
        && forall x: nat :: k.region.Holds(x) <==> r.Holds(x) && (r.end <= lim.address || x < lim.address))
    ensures var k := CutSize(r, lim, combined);
      && (k == Dropped <==> lim.size <= combined)
      && (k.Kept? ==>
        && SameButEnd(k.region, r)
        && k.region.end - k.region.begin + 1 ==
          (if combined + (r.end - r.begin + 1) <= lim.size then r.end - r.begin + 1 else lim.size - combined))
    ensures Cut(r, lim, combined) == match CutAddress(r, lim)
      case Dropped => Dropped
      case Refused => Refused
      case Kept(m) => CutSize(m, lim, combined)
  {
  }

  ghost predicate SameButEnd(m: Region, r: Region) {
    m.begin == r.begin && m.name == r.name && m.kind == r.kind && m.sub == r.sub && m.eager == r.eager
  }

  /** Where `add_nolimitcheck` puts a region. */
  function Slot(s: seq<Region>, r: Region): (p: nat)
    ensures p <= |s|
  {
    if s == [] || s[|s| - 1].Below(r) then |s| else Place(s, r)
  }

  /** The entries after `add_nolimitcheck`; nothing when it panics. */
  function AddedUnlimited(s: seq<Region>, capacity: nat, r: Region, mayOverlap: bool): Option<seq<Region>> {
    if r.begin == r.end then Some(s)
    else
      var t := if |s| >= capacity then Optimized(s) else s;
      if |t| >= capacity then None
      else
        var p := Slot(t, r);
        if p < |t| && !mayOverlap && !r.Below(t[p]) then None
        else Some(t[..p] + [r] + t[p..])
  }

  /** The entries after `add`; nothing when it panics. */
  function Added(s: seq<Region>, capacity: nat, lim: Limits, combined: nat, r: Region,
      mayOverlap: bool): Option<seq<Region>>
    requires r.Valid() && lim.Valid()
  {
    match Cut(r, lim, combined)
    case Dropped => Some(s)
    case Refused => None
    case Kept(m) => AddedUnlimited(s, capacity, m, mayOverlap)
  }

  lemma SlotIsPlace(s: seq<Region>, r: Region)
    requires Sorted(s) && r.Valid()
    ensures Slot(s, r) == Place(s, r)
  {
    if s != [] && s[|s| - 1].Below(r) {
      PlaceUnique(s, r, |s|);
    }
  }

  lemma CutAddressValid(r: Region, lim: Limits)
    requires r.Valid() && lim.Valid()
    ensures CutAddress(r, lim).Kept? ==> CutAddress(r, lim).region.Valid()
  {
  }

  lemma CutValid(r: Region, lim: Limits, combined: nat)
    requires r.Valid() && lim.Valid()
    ensures Cut(r, lim, combined).Kept? ==> Cut(r, lim, combined).region.Valid()
  {
  }

  /** A list without room to spare for optimizing: an `add` that may not overlap panics exactly when
      the region, as cut, overlaps an entry or does not fit, and otherwise adds just that region. */
  lemma AddedMeaning(s: seq<Region>, capacity: nat, r: Region)
    requires Sorted(s) && |s| < capacity && r.Valid() && r.begin < r.end
    ensures AddedUnlimited(s, capacity, r, false).Some? <==> Clear(s, r)
    ensures AddedUnlimited(s, capacity, r, false).Some? ==>
      var t := AddedUnlimited(s, capacity, r, false).value;
      Sorted(t) && |t| == |s| + 1 && forall x, a :: Has(t, x, a) <==> Has(s, x, a) || r.Gives(x, a)
  {
    SlotIsPlace(s, r);
    FirstNotBelowDecides(s, r);
    if Clear(s, r) {
      InsertedSorted(s, r);
      forall x, a
        ensures Has(Inserted(s, r), x, a) <==> Has(s, x, a) || r.Gives(x, a)
      {
        InsertedHas(s, r, x, a);
      }
    }
  }

  /** A list that fills its store is optimized first: an `add` panics exactly when no neighbours are joined by
      that, or when the region may not overlap and does. Otherwise the region is added, and the addresses between
      joined neighbours. */
  lemma AddedFull(s: seq<Region>, capacity: nat, r: Region, mayOverlap: bool)
    requires Sorted(s) && |s| == capacity && r.Valid() && r.begin < r.end
    ensures AddedUnlimited(s, capacity, r, mayOverlap).Some? <==> !NoMerge(s) && (mayOverlap || Clear(Optimized(s), r))
    ensures AddedUnlimited(s, capacity, r, mayOverlap).Some? ==>
      var t := AddedUnlimited(s, capacity, r, mayOverlap).value;
      |t| <= capacity && forall x, a :: Has(t, x, a) <==> Has(s, x, a) || Between(s, x, a) || r.Gives(x, a)
  {
    hide Sorted, NoMerge, Has, Between, Clear, Region.Gives, Optimized, AddedUnlimited, Inserted, Region.Below;
    var o := Optimized(s);
    OptimizedSorted(s);
    OptimizedShorter(s);
    FullIs(s, capacity, r, mayOverlap);
    FirstNotBelowDecides(o, r);
    forall x, a
      ensures Has(Inserted(o, r), x, a) <==> Has(s, x, a) || Between(s, x, a) || r.Gives(x, a)
    {
      OptimizedCovers(s, x, a);
      InsertedHas(o, r, x, a);
    }
  }

  lemma FullIs(s: seq<Region>, capacity: nat, r: Region, mayOverlap: bool)
    requires |s| == capacity && r.Valid() && r.begin < r.end && Sorted(Optimized(s))
    ensures var o := Optimized(s);
      var p := Place(o, r);
      AddedUnlimited(s, capacity, r, mayOverlap) ==
        if |o| >= capacity || (p < |o| && !mayOverlap && !r.Below(o[p])) then None else Some(Inserted(o, r))
    ensures |Inserted(Optimized(s), r)| == |Optimized(s)| + 1
  {
    hide Sorted, Optimized, Slot, Place;
    SlotIsPlace(Optimized(s), r);
  }

  /** Whatever the store holds, an `add` that may not overlap and does not panic keeps the list
      sorted and within its store. */
  lemma AddedSorted(s: seq<Region>, capacity: nat, lim: Limits, combined: nat, r: Region)
    requires Sorted(s) && |s| <= capacity && r.Valid() && lim.Valid()
    ensures Added(s, capacity, lim, combined, r, false).Some? ==>
      var t := Added(s, capacity, lim, combined, r, false).value;
      Sorted(t) && |t| <= capacity
  {
    CutValid(r, lim, combined);
    hide Cut;
    var k := Cut(r, lim, combined);
    if k.Kept? && k.region.begin < k.region.end {
      var t := if |s| >= capacity then Optimized(s) else s;
      OptimizedSorted(s);
      if |t| < capacity {
        AddedMeaning(t, capacity, k.region);
      }
    }
  }

  /* ---- what `sub` leaves ---- */

  function Pieces(c: Region, r: Region): seq<Region>
    requires c.Contains(r)
  {
    (if c.begin < r.begin then [c.(end := r.begin - 1)] else []) +
    (if r.end < c.end then [c.(begin := r.end + 1)] else [])
  }

  /** The entries with `r` cut out of entry `i`. */
  function Without(s: seq<Region>, i: nat, r: Region): seq<Region>
    requires i < |s| && s[i].Contains(r)
  {
    s[..i] + Pieces(s[i], r) + s[i + 1..]
  }

  lemma PiecesGive(c: Region, r: Region, x: nat, a: Region)
    requires c.Contains(r) && r.begin <= r.end
    ensures Has(Pieces(c, r), x, a) <==> c.Gives(x, a) && !r.Holds(x)
  {
    var left := if c.begin < r.begin then [c.(end := r.begin - 1)] else [];
    var right := if r.end < c.end then [c.(begin := r.end + 1)] else [];
    assert Has(left, x, a) <==> c.Gives(x, a) && x < r.begin by {
      if c.begin < r.begin { HasOne(c.(end := r.begin - 1), x, a); }
    }
    assert Has(right, x, a) <==> c.Gives(x, a) && r.end < x by {
      if r.end < c.end { HasOne(c.(begin := r.end + 1), x, a); }
    }
    HasConcat(left, right, x, a);
  }

  /** Cutting out an interval removes exactly that interval and leaves the attributes of every other
      address alone. */
  lemma WithoutMeaning(s: seq<Region>, i: nat, r: Region, x: nat, a: Region)
    requires Sorted(s) && i < |s| && s[i].Contains(r) && r.begin <= r.end
    ensures Sorted(Without(s, i, r))
    ensures Has(Without(s, i, r), x, a) <==> Has(s, x, a) && !r.Holds(x)
  {
    var p := Pieces(s[i], r);
    WithoutSorted(s, i, r);
    PiecesGive(s[i], r, x, a);
    HasConcat(s[..i] + p, s[i + 1..], x, a);
    HasConcat(s[..i], p, x, a);
    assert s == s[..i] + [s[i]] + s[i + 1..];
    HasConcat(s[..i] + [s[i]], s[i + 1..], x, a);
    HasConcat(s[..i], [s[i]], x, a);
    HasOne(s[i], x, a);
  }

  lemma PiecesSorted(c: Region, r: Region)
    requires c.Valid() && c.Contains(r) && r.begin <= r.end
    ensures var p := Pieces(c, r);
      Sorted(p) && (p != [] ==> c.begin <= p[0].begin && p[|p| - 1].end <= c.end)
  {
  }

  lemma WithoutSorted(s: seq<Region>, i: nat, r: Region)
    requires Sorted(s) && i < |s| && s[i].Contains(r) && r.begin <= r.end
    ensures Sorted(Without(s, i, r))
  {
    hide Sorted, Pieces, Region.Contains;
    var p := Pieces(s[i], r);
    SlicesSorted(s, i);
    PiecesSorted(s[i], r);
    SortedConcat(s[..i], p);
    SortedConcat(s[..i] + p, s[i + 1..]);
  }

  /** `r` lies strictly inside `c`, so that two pieces remain. */
  predicate Splits(c: Region, r: Region) { c.begin < r.begin && r.end < c.end }

  /** The second piece survives the checks of `add`: it has more than one byte, and the size limit
      has room for it although nothing was given back for the bytes cut out. */
  predicate TailFits(c: Region, r: Region, lim: Limits, combined: nat)
    requires c.Valid() && r.begin <= r.end < c.end
  {
    && r.end + 1 < c.end
    && combined < lim.size
    && (combined + c.(begin := r.end + 1).Size()) % TOP <= lim.size
  }

  /* The entries after the splitting branch of `sub`. */
  function SplitResult(s: seq<Region>, i: nat, capacity: nat, lim: Limits, combined: nat,
      r: Region): Option<seq<Region>>
    requires i < |s| && s[i].Valid() && s[i].Contains(r) && r.begin <= r.end && Splits(s[i], r) && lim.Valid()
  {
    Added(s[i := s[i].(end := r.begin - 1)], capacity, lim, combined, s[i].(begin := r.end + 1), false)
  }

  /* The head of a split entry and a region behind it, no further than the old end. */
  lemma SplitInsert(s: seq<Region>, i: nat, head: Region, m: Region)
    requires Sorted(s) && i < |s| && head.Valid() && m.Valid()
    requires s[i].begin == head.begin && head.end < m.begin && m.end <= s[i].end
    ensures var h := s[i := head]; Sorted(h) && Clear(h, m) && Place(h, m) == i + 1
  {
    var h := s[i := head];
    forall j | 0 <= j < |h|
      ensures !h[j].Overlaps(m) && (j <= i <==> h[j].Below(m))
    {
      assert j < i ==> s[j].end < s[i].begin;
      assert i < j ==> s[i].end < s[j].begin;
    }
    PlaceUnique(h, m, i + 1);
  }

  lemma NotCovered(s: seq<Region>, i: nat, head: Region, x: nat)
    requires Sorted(s) && i < |s| && x == s[i].end && head.end < x
    ensures !Covered(s[i := head], x)
  {
    var h := s[i := head];
    forall j | 0 <= j < |h|
      ensures !h[j].Holds(x)
    {
      assert j != i ==> h[j] == s[j];
    }
  }

  /* What is kept of the second piece. */
  lemma CutTail(tail: Region, lim: Limits, combined: nat)
    requires tail.Valid() && lim.Valid() && 0 < tail.begin && tail.end <= lim.address
    ensures Cut(tail, lim, combined) == CutSize(tail, lim, combined)
    ensures var k := CutSize(tail, lim, combined);
      if combined < lim.size && (combined + tail.Size()) % TOP <= lim.size then k == Kept(tail)
      else k.Dropped? || (k.Kept? && k.region == tail.(end := k.region.end) && k.region.end < tail.end)
  {
  }

  lemma SplitIsWithout(s: seq<Region>, i: nat, r: Region)
    requires i < |s| && s[i].Contains(r) && Splits(s[i], r)
    ensures var h := s[i := s[i].(end := r.begin - 1)];
      h[..i + 1] + [s[i].(begin := r.end + 1)] + h[i + 1..] == Without(s, i, r)
  {
    var h := s[i := s[i].(end := r.begin - 1)];
    assert h[..i + 1] == s[..i] + [h[i]] && h[i + 1..] == s[i + 1..];
  }

  /** With room in the store, splitting removes exactly the interval if and only if the second piece
      fits; otherwise the last byte of the entry is lost as well. */
  lemma SplitExact(s: seq<Region>, i: nat, capacity: nat, lim: Limits, combined: nat, r: Region)
    requires Sorted(s) && |s| < capacity && lim.Valid()
    requires i < |s| && s[i].Valid() && s[i].Contains(r) && r.begin <= r.end && Splits(s[i], r)
    requires s[i].end <= lim.address
    ensures SplitResult(s, i, capacity, lim, combined, r).Some?
    ensures var t := SplitResult(s, i, capacity, lim, combined, r).value;
      if TailFits(s[i], r, lim, combined) then t == Without(s, i, r)
      else !Covered(t, s[i].end) && Covered(s, s[i].end) && !r.Holds(s[i].end)
  {
    hide Sorted, Covered, Cut, CutSize, AddedUnlimited, Clear, Without, Place, Region.Overlaps;
    var c := s[i];
    var head, tail := c.(end := r.begin - 1), c.(begin := r.end + 1);
    var h := s[i := head];
    CutTail(tail, lim, combined);
    NotCovered(s, i, head, c.end);
    CoveredBy(s, i, c.end);
    CutValid(tail, lim, combined);
    var k := Cut(tail, lim, combined);
    if k.Kept? && k.region.begin < k.region.end {
      var m := k.region;
      SplitInsert(s, i, head, m);
      AddedAt(h, capacity, m, i + 1);
      if m == tail {
        SplitIsWithout(s, i, r);
      } else {
        CoveredInsert(h, i + 1, m, c.end);
      }
    } else if k.Kept? {
      AddedNothing(h, capacity, k.region);
    }
  }

  lemma AddedAt(s: seq<Region>, capacity: nat, r: Region, p: nat)
    requires Sorted(s) && |s| < capacity && r.Valid() && r.begin < r.end && Clear(s, r) && Place(s, r) == p
    ensures AddedUnlimited(s, capacity, r, false) == Some(s[..p] + [r] + s[p..])
  {
    SlotIsPlace(s, r);
    FirstNotBelowDecides(s, r);
  }

  lemma AddedNothing(s: seq<Region>, capacity: nat, r: Region)
    requires r.begin == r.end
    ensures AddedUnlimited(s, capacity, r, false) == Some(s)
  {
  }

  lemma CoveredBy(s: seq<Region>, i: nat, x: nat)
    requires i < |s| && s[i].Holds(x)
    ensures Covered(s, x)
  {
  }

  lemma CoveredInsert(h: seq<Region>, p: nat, m: Region, x: nat)
    requires p <= |h|
    ensures Covered(h[..p] + [m] + h[p..], x) ==> Covered(h, x) || m.Holds(x)
  {
    var t := h[..p] + [m] + h[p..];
    if Covered(t, x) {
      var j :| 0 <= j < |t| && t[j].Holds(x);
      assert j != p ==> t[j] == h[if j < p then j else j - 1];
    }
  }

  /* ---- look-ups ---- */

  /** The first entry that overlaps `o`, as an index; the length of the list when there is none. */
  function FirstOverlap(s: seq<Region>, o: Region): (i: nat)
    ensures i <= |s| && (forall j :: 0 <= j < i ==> !s[j].Overlaps(o))
    ensures i < |s| ==> s[i].Overlaps(o)
  {
    if s == [] || s[0].Overlaps(o) then 0 else 1 + FirstOverlap(s[1..], o)
  }

  function FirstContaining(s: seq<Region>, o: Region): (i: nat)
    ensures i <= |s| && (forall j :: 0 <= j < i ==> !s[j].Contains(o))
    ensures i < |s| ==> s[i].Contains(o)
  {
    if s == [] || s[0].Contains(o) then 0 else 1 + FirstContaining(s[1..], o)
  }

  function RemoveAt(s: seq<Region>, i: nat): seq<Region>
    requires i < |s|
  {
    s[..i] + s[i + 1..]
  }

  /** The entries that `drop` does not select. */
  function Remaining(s: seq<Region>, drop: Region -> bool): (r: seq<Region>)
    ensures |r| <= |s|
  {
    if s == [] then []
    else (if drop(s[0]) then [] else [s[0]]) + Remaining(s[1..], drop)
  }

  /* ---- runs of operations ---- */

  /** A list as a value: its entries and the running total `_combined_size`. */
  datatype State = State(entries: seq<Region>, combined: nat)

  datatype Op =
    | Add(region: Region)
    | Remove(index: nat)
    | RemoveIf(drop: Region -> bool)
    | Sub(region: Region)
    | Optimize

  ghost predicate Invariant(st: State, capacity: nat) {
    Sorted(st.entries) && |st.entries| <= capacity && st.combined < TOP
  }

  /* The running total after `add`. */
  function Combined(combined: nat, lim: Limits, r: Region): nat
    requires r.Valid() && lim.Valid()
  {
    var k := Cut(r, lim, combined);
    CutAddressValid(r, lim);
    if k.Kept? && k.region.begin != k.region.end then (combined + k.region.Size()) % TOP else combined
  }

  function AddStep(st: State, capacity: nat, lim: Limits, r: Region, mayOverlap: bool): Option<State>
    requires r.Valid() && lim.Valid()
  {
    match Added(st.entries, capacity, lim, st.combined, r, mayOverlap)
    case None => None
    case Some(t) => Some(State(t, Combined(st.combined, lim, r)))
  }

  /** What `sub` does; a list without an entry that contains `r` stays as it is. */
  ghost function SubStep(st: State, capacity: nat, lim: Limits, r: Region): Option<State>
    requires r.Valid() && lim.Valid() && AllValid(st.entries)
  {
    var s := st.entries;
    var i := FirstContaining(s, r);
    assert i < |s| ==> s[i].Valid();
    if i == |s| then Some(st)
    else if Splits(s[i], r) then
      AddStep(State(s[i := s[i].(end := r.begin - 1)], st.combined), capacity, lim, s[i].(begin := r.end + 1), false)
    else Some(State(Without(s, i, r), st.combined))
  }

  ghost function Step(st: State, capacity: nat, lim: Limits, op: Op): Option<State>
    requires lim.Valid() && AllValid(st.entries)
    requires op.Add? || op.Sub? ==> op.region.Valid()
    requires op.Remove? ==> op.index < |st.entries|
  {
    match op
    case Add(r) => AddStep(st, capacity, lim, r, false)
    case Remove(i) => Some(State(RemoveAt(st.entries, i), st.combined))
    case RemoveIf(drop) => Some(State(Remaining(st.entries, drop), st.combined))
    case Sub(r) => SubStep(st, capacity, lim, r)
    case Optimize => Some(State(Optimized(st.entries), st.combined))
  }

  /** `remove_if` keeps exactly the entries that are not selected. */
  lemma {:induction false} RemainingMeaning(s: seq<Region>, drop: Region -> bool, e: Region)
    ensures e in Remaining(s, drop) <==> e in s && !drop(e)
  {
    if s != [] {
      RemainingMeaning(s[1..], drop, e);
      assert e in s <==> e == s[0] || e in s[1..];
    }
  }

  lemma {:induction false} RemainingSorted(s: seq<Region>, drop: Region -> bool)
    requires Sorted(s)
    ensures Sorted(Remaining(s, drop))
  {
    hide Remaining;
    if s == [] {
      NothingRemains(drop);
    } else {
      var t := Remaining(s[1..], drop);
      RemainingHead(s, drop);
      SlicesSorted(s, 0);
      RemainingSorted(s[1..], drop);
      if t != [] {
        RemainingMeaning(s[1..], drop, t[0]);
        FirstIsLowest(s, t[0]);
      }
      OneMoreSorted(s[0], t);
    }
  }

  lemma NothingRemains(drop: Region -> bool)
    ensures Remaining([], drop) == []
  {
  }

  lemma OneMoreSorted(r: Region, t: seq<Region>)
    requires r.Valid() && Sorted(t) && (t != [] ==> r.end < t[0].begin)
    ensures Sorted([r] + t)
  {
    assert Sorted([r]);
    if t != [] {
      SortedConcat([r], t);
    } else {
      assert [r] + t == [r];
    }
  }

  lemma RemainingHead(s: seq<Region>, drop: Region -> bool)
    requires s != []
    ensures Remaining(s, drop) == if drop(s[0]) then Remaining(s[1..], drop) else [s[0]] + Remaining(s[1..], drop)
  {
  }

  lemma FirstIsLowest(s: seq<Region>, e: Region)
    requires Sorted(s) && s != [] && e in s[1..]
    ensures s[0].end < e.begin && Sorted(s[..1])
  {
  }

  lemma SubSorted(st: State, capacity: nat, lim: Limits, r: Region)
    requires Invariant(st, capacity) && lim.Valid() && r.Valid()
    requires AllValid(st.entries)
    ensures var t := SubStep(st, capacity, lim, r); t.Some? ==> Invariant(t.value, capacity)
  {
    hide Sorted, Without, Added, AllValid;
    var s := st.entries;
    var i := FirstContaining(s, r);
    if i < |s| {
      SlicesSorted(s, i);
      if Splits(s[i], r) {
        HeadSorted(s, i, r.begin - 1);
        AddedSorted(s[i := s[i].(end := r.begin - 1)], capacity, lim, st.combined, s[i].(begin := r.end + 1));
      } else {
        WithoutSorted(s, i, r);
        WithoutShort(s, i, r);
      }
    }
  }

  lemma WithoutShort(s: seq<Region>, i: nat, r: Region)
    requires i < |s| && s[i].Contains(r) && !Splits(s[i], r)
    ensures |Without(s, i, r)| <= |s|
  {
  }

  lemma HeadSorted(s: seq<Region>, i: nat, end: nat)
    requires Sorted(s) && i < |s| && s[i].begin <= end <= s[i].end
    ensures Sorted(s[i := s[i].(end := end)])
  {
  }

  /** Every operation that does not panic keeps the list sorted, disjoint and within its store. */
  lemma StepKeeps(st: State, capacity: nat, lim: Limits, op: Op)
    requires Invariant(st, capacity) && lim.Valid() && AllValid(st.entries)
    requires op.Add? || op.Sub? ==> op.region.Valid()
    requires op.Remove? ==> op.index < |st.entries|
    ensures var t := Step(st, capacity, lim, op); t.Some? ==> Invariant(t.value, capacity)
  {
    match op
    case Add(r) => AddedSorted(st.entries, capacity, lim, st.combined, r);
    case Remove(i) =>
      SlicesSorted(st.entries, i);
      SortedConcat(st.entries[..i], st.entries[i + 1..]);
    case RemoveIf(drop) => RemainingSorted(st.entries, drop);
    case Sub(r) => SubSorted(st, capacity, lim, r);
    case Optimize => OptimizedSorted(st.entries);
  }

  /** The list after a run of operations; nothing when one of them panics or is not allowed. */
  ghost function Run(st: State, capacity: nat, lim: Limits, ops: seq<Op>): Option<State>
    requires lim.Valid()
    decreases |ops|
  {
    if ops == [] then Some(st)
    else if !AllValid(st.entries)
      || ((ops[0].Add? || ops[0].Sub?) && !ops[0].region.Valid())
      || (ops[0].Remove? && ops[0].index >= |st.entries|) then None
    else
      match Step(st, capacity, lim, ops[0])
      case None => None
      case Some(t) => Run(t, capacity, lim, ops[1..])
  }

  lemma {:induction false} RunKeeps(st: State, capacity: nat, lim: Limits, ops: seq<Op>)
    requires Invariant(st, capacity) && lim.Valid()
    ensures Run(st, capacity, lim, ops).Some? ==> Invariant(Run(st, capacity, lim, ops).value, capacity)
    decreases |ops|
  {
    if ops != [] && Run(st, capacity, lim, ops).Some? {
      StepKeeps(st, capacity, lim, ops[0]);
      RunKeeps(Step(st, capacity, lim, ops[0]).value, capacity, lim, ops[1..]);
    }
  }

  /* ---- the limits over runs of `add` ---- */

  lemma {:induction false} TotalConcat(s: seq<Region>, t: seq<Region>)
    requires AllValid(s) && AllValid(t)
    ensures AllValid(s + t)
    ensures Total(s + t) == Total(s) + Total(t)
  {
    if s == [] {
      assert s + t == t;
    } else {
      assert (s + t)[1..] == s[1..] + t;
      TotalConcat(s[1..], t);
    }
  }

  lemma {:induction false} TotalBound(s: seq<Region>)
    requires Sorted(s) && s != []
    ensures Total(s) <= s[|s| - 1].end - s[0].begin + 1
  {
    if |s| > 1 {
      TotalBound(s[1..]);
    }
  }

  /** The running total is exact and within its limit, and no entry reaches beyond the address
      limit. */
  ghost predicate WithinLimits(st: State, lim: Limits) {
    && AllValid(st.entries)
    && (forall e :: e in st.entries ==> e.end <= lim.address && e.end < TOP - 1)
    && Total(st.entries) == st.combined <= lim.size
  }

  lemma InsertedTotal(s: seq<Region>, p: nat, m: Region)
    requires p <= |s| && AllValid(s) && m.Valid()
    ensures var t := s[..p] + [m] + s[p..]; AllValid(t) && Total(t) == Total(s) + (m.end - m.begin + 1)
  {
    assert s == s[..p] + s[p..];
    assert [m][1..] == [];
    TotalConcat(s[..p], s[p..]);
    TotalConcat(s[..p], [m]);
    TotalConcat(s[..p] + [m], s[p..]);
  }

  lemma CutWithin(r: Region, lim: Limits, combined: nat)
    requires lim.Valid() && 0 < lim.address && r.Valid() && r.end < TOP - 1 && combined <= lim.size
    ensures var k := Cut(r, lim, combined);
      k.Kept? ==>
        && k.region.Valid() && k.region.end <= lim.address && k.region.end < TOP - 1
        && (combined + (k.region.end - k.region.begin + 1) < TOP ==>
          combined + (k.region.end - k.region.begin + 1) <= lim.size)
  {
  }

  /** An address limit of zero does not limit: the decrement wraps, and a region that starts at zero
      is extended to the top of the address space. A region further up is dropped, and any other limit is
      kept. */
  lemma ZeroAddressLimitExtends(r: Region, lim: Limits)
    requires r.Valid() && lim.Valid()
    ensures var k := CutAddress(r, lim);
      && ((k.Kept? ==> k.region.end <= lim.address) <==> !(lim.address == 0 && r.begin == 0 < r.end))
      && (lim.address == 0 && r.begin == 0 < r.end ==> k == Kept(r.(end := TOP - 1)))
      && (lim.address == 0 < r.begin ==> k == Dropped)
  {
  }

  /* An `add` that stores something. */
  lemma AddStores(st: State, capacity: nat, lim: Limits, r: Region)
    requires Sorted(st.entries) && |st.entries| < capacity && lim.Valid() && r.Valid()
    requires Cut(r, lim, st.combined).Kept? && AddStep(st, capacity, lim, r, false).Some?
    requires var m := Cut(r, lim, st.combined).region; m.Valid() && m.begin != m.end
    ensures var m := Cut(r, lim, st.combined).region;
      var p := Place(st.entries, m);
      var t := st.entries[..p] + [m] + st.entries[p..];
      Sorted(t) && AddStep(st, capacity, lim, r, false) == Some(State(t, (st.combined + m.Size()) % TOP))
  {
    var m := Cut(r, lim, st.combined).region;
    hide Cut, Sorted;
    AddedMeaning(st.entries, capacity, m);
    AddedAt(st.entries, capacity, m, Place(st.entries, m));
  }

  /** One `add` into a list with room keeps both limits. */
  lemma AddKeepsLimits(st: State, capacity: nat, lim: Limits, r: Region)
    requires Sorted(st.entries) && WithinLimits(st, lim) && |st.entries| < capacity
    requires lim.Valid() && 0 < lim.address && r.Valid() && r.end < TOP - 1
    ensures var t := AddStep(st, capacity, lim, r, false); t.Some? ==> WithinLimits(t.value, lim)
  {
    hide Cut, AddedUnlimited, Sorted, Total, AllValid, Place, CutAddress;
    var k := Cut(r, lim, st.combined);
    CutWithin(r, lim, st.combined);
    if AddStep(st, capacity, lim, r, false).Some? && k.Kept? {
      if k.region.begin != k.region.end {
        AddStores(st, capacity, lim, r);
        InsertKeepsLimits(st, Place(st.entries, k.region), k.region, lim);
      } else {
        AddedNothing(st.entries, capacity, k.region);
      }
    }
  }

  lemma InsertKeepsLimits(st: State, p: nat, m: Region, lim: Limits)
    requires WithinLimits(st, lim) && p <= |st.entries| && lim.Valid()
    requires m.Valid() && m.end <= lim.address && m.end < TOP - 1
    requires st.combined + (m.end - m.begin + 1) < TOP ==> st.combined + (m.end - m.begin + 1) <= lim.size
    requires Sorted(st.entries[..p] + [m] + st.entries[p..])
    ensures WithinLimits(State(st.entries[..p] + [m] + st.entries[p..], (st.combined + m.Size()) % TOP), lim)
  {
    hide Sorted, Total;
    var t := st.entries[..p] + [m] + st.entries[p..];
    InsertedWithin(st.entries, p, m, lim);
    InsertedTotal(st.entries, p, m);
    TotalBound(t);
    assert t[|t| - 1] in t;
  }

  lemma InsertedWithin(s: seq<Region>, p: nat, m: Region, lim: Limits)
    requires p <= |s| && m.end <= lim.address && m.end < TOP - 1
    requires forall e :: e in s ==> e.end <= lim.address && e.end < TOP - 1
    ensures forall e :: e in s[..p] + [m] + s[p..] ==> e.end <= lim.address && e.end < TOP - 1
  {
  }

  ghost predicate AddsOnly(ops: seq<Op>) {
    forall i :: 0 <= i < |ops| ==> ops[i].Add? && ops[i].region.Valid() && ops[i].region.end < TOP - 1
  }

  /** Over every run of additions that never fills the store. */
  lemma {:induction false} AddsKeepLimits(st: State, capacity: nat, lim: Limits, ops: seq<Op>)
    requires Invariant(st, capacity) && WithinLimits(st, lim) && lim.Valid() && 0 < lim.address
    requires AddsOnly(ops) && |st.entries| + |ops| <= capacity
    ensures Run(st, capacity, lim, ops).Some? ==> WithinLimits(Run(st, capacity, lim, ops).value, lim)
    decreases |ops|
  {
    if ops != [] && Run(st, capacity, lim, ops).Some? {
      var t := Step(st, capacity, lim, ops[0]).value;
      StepKeeps(st, capacity, lim, ops[0]);
      AddKeepsLimits(st, capacity, lim, ops[0].region);
      AddGrowsByOne(st, capacity, lim, ops[0].region);
      hide Invariant, WithinLimits, AddStep;
      assert AddsOnly(ops[1..]);
      AddsKeepLimits(t, capacity, lim, ops[1..]);
    }
  }

  lemma AddGrowsByOne(st: State, capacity: nat, lim: Limits, r: Region)
    requires lim.Valid() && r.Valid() && |st.entries| < capacity
    ensures var t := AddStep(st, capacity, lim, r, false); t.Some? ==> |t.value.entries| <= |st.entries| + 1
  {
  }

  /** How many bytes of a region the limits leave. */
  ghost function Allowed(r: Region, lim: Limits, combined: nat): int {
    var end := if r.end <= lim.address then r.end else lim.address - 1;
    var room := lim.size - combined;
    if r.end == 0 || lim.address < r.begin || room <= 0 then 0
    else if end - r.begin + 1 <= room then end - r.begin + 1
    else room
  }

  /** The first `n` addresses of `r` are added, with its attributes, and nothing else changes. */
  ghost predicate GainsOnly(before: seq<Region>, after: seq<Region>, r: Region, n: nat) {
    forall x: nat, a: Region :: Has(after, x, a) <==>
      Has(before, x, a) || (r.begin <= x < r.begin + n && r.SameAttributes(a))
  }

  /** One `add` into a list with room. It panics when the region begins right at the address limit and goes on, or
      when what the limits leave of it overlaps an entry; otherwise exactly that is added, unless it is a
      single byte. */
  lemma AddExact(st: State, capacity: nat, lim: Limits, r: Region)
    requires Sorted(st.entries) && |st.entries| < capacity && lim.Valid() && 0 < lim.address && r.Valid()
    requires st.combined + (r.end - r.begin + 1) < 0x1_0000_0000_0000_0000
    ensures var n := Allowed(r, lim, st.combined);
      var t := AddStep(st, capacity, lim, r, false);
      if r.begin == lim.address < r.end then t == None
      else if n <= 1 then t == Some(st)
      else
        && (t.Some? <==> Clear(st.entries, r.(end := r.begin + n - 1)))
        && (t.Some? ==>
          && t.value.combined == st.combined + n && Sorted(t.value.entries)
          && GainsOnly(st.entries, t.value.entries, r, n))
  {
    CutAllowed(r, lim, st.combined);
    hide Sorted, Clear, AddedUnlimited, GainsOnly, Cut, AddStep;
    var n := Allowed(r, lim, st.combined);
    if r.begin == lim.address < r.end || n <= 1 {
      NotStored(st, capacity, lim, r);
    } else {
      AddKept(st, capacity, lim, r, r.(end := r.begin + n - 1));
    }
  }

  lemma NotStored(st: State, capacity: nat, lim: Limits, r: Region)
    requires lim.Valid() && r.Valid()
    ensures var k := Cut(r, lim, st.combined);
      (k.Kept? && k.region.begin != k.region.end) ||
        AddStep(st, capacity, lim, r, false) == if k.Refused? then None else Some(st)
  {
    hide Cut;
  }

  lemma AddKept(st: State, capacity: nat, lim: Limits, r: Region, m: Region)
    requires Sorted(st.entries) && |st.entries| < capacity && lim.Valid() && r.Valid()
    requires Cut(r, lim, st.combined) == Kept(m) && m == r.(end := m.end) && m.Valid() && m.begin < m.end
    requires st.combined + (m.end - m.begin + 1) < TOP
    ensures var t := AddStep(st, capacity, lim, r, false);
      && (t.Some? <==> Clear(st.entries, m))
      && (t.Some? ==>
        && t.value.combined == st.combined + (m.end - m.begin + 1) && Sorted(t.value.entries)
        && GainsOnly(st.entries, t.value.entries, r, m.end - m.begin + 1))
  {
    hide Sorted, Has, Clear, AddedUnlimited, GainsOnly, Cut;
    AddedMeaning(st.entries, capacity, m);
    if Clear(st.entries, m) {
      Gained(st.entries, AddedUnlimited(st.entries, capacity, m, false).value, r, m);
    }
  }

  lemma Gained(before: seq<Region>, after: seq<Region>, r: Region, m: Region)
    requires r.Valid() && m.Valid() && m == r.(end := m.end)
    requires forall x, a :: Has(after, x, a) <==> Has(before, x, a) || m.Gives(x, a)
    ensures GainsOnly(before, after, r, m.end - m.begin + 1)
  {
    hide Has;
  }

  lemma CutAllowed(r: Region, lim: Limits, combined: nat)
    requires lim.Valid() && 0 < lim.address && r.Valid() && combined + (r.end - r.begin + 1) < TOP
    ensures var n := Allowed(r, lim, combined);
      Cut(r, lim, combined) == if r.begin == lim.address < r.end then Refused
        else if n <= 0 then Dropped
        else Kept(r.(end := r.begin + n - 1))
  {
    CutExact(r, lim, combined);
  }

  /** The whole of `sub`: without an entry that contains the region nothing happens; otherwise exactly its bytes go,
      except when two pieces would remain and the second does not fit. */
  lemma SubExact(st: State, capacity: nat, lim: Limits, r: Region, i: nat)
    requires Sorted(st.entries) && AllValid(st.entries) && |st.entries| < capacity && lim.Valid() && r.Valid()
    requires i < |st.entries| ==> st.entries[i].Contains(r) && st.entries[i].end <= lim.address
    requires i >= |st.entries| ==> forall j :: 0 <= j < |st.entries| ==> !st.entries[j].Contains(r)
    ensures var s, t := st.entries, SubStep(st, capacity, lim, r);
      if i >= |s| then t == Some(st)
      else
        && t.Some?
        && (if s[i].begin < r.begin && r.end < s[i].end && !TailFits(s[i], r, lim, st.combined) then
              Covered(s, s[i].end) && !r.Holds(s[i].end) && !Covered(t.value.entries, s[i].end)
            else forall x, a :: Has(t.value.entries, x, a) <==> Has(s, x, a) && !r.Holds(x))
  {
    var s := st.entries;
    var k := FirstContaining(s, r);
    if i < |s| {
      ContainingUnique(s, r, k, i);
      hide Sorted, Has, Covered, TailFits, FirstContaining, Without;
      forall x, a
        ensures Has(Without(s, i, r), x, a) <==> Has(s, x, a) && !r.Holds(x)
      {
        WithoutMeaning(s, i, r, x, a);
      }
      if Splits(s[i], r) {
        SplitExact(s, i, capacity, lim, st.combined, r);
      }
    }
  }

  lemma ContainingUnique(s: seq<Region>, r: Region, k: nat, i: nat)
    requires Sorted(s) && r.Valid() && k <= i < |s| && s[k].Contains(r) && s[i].Contains(r)
    ensures k == i
  {
  }

  /* ---- reserving a region when there is room ---- */

  /** The list after reserving `n`: one entry more, or none for a single byte. */
  ghost predicate Reserved(before: seq<Region>, after: seq<Region>, n: Region) {
    if n.begin == n.end then after == before
    else exists p :: 0 <= p <= |before| && after == before[..p] + [n] + before[p..]
  }

  /* Whether the limits of the list leave the region whole. */
  predicate Whole(lim: Limits, combined: nat, n: Region) {
    n.end <= lim.address && combined + (n.end - n.begin + 1) <= lim.size
  }

  /** With room to spare a region is added as it is, next to or (if that is allowed) over others. */
  lemma ReserveMeaning(st: State, capacity: nat, lim: Limits, n: Region, mayOverlap: bool)
    requires AllValid(st.entries) && |st.entries| < capacity && lim.Valid() && n.Valid() && n.end > 0
    requires Whole(lim, st.combined, n) && (mayOverlap || (Sorted(st.entries) && Clear(st.entries, n)))
    ensures var t := AddStep(st, capacity, lim, n, mayOverlap);
      && t.Some? && Reserved(st.entries, t.value.entries, n)
      && |t.value.entries| <= |st.entries| + 1
      && t.value.combined <= st.combined + (n.end - n.begin + 1)
      && (Sorted(st.entries) && Clear(st.entries, n) ==> Sorted(t.value.entries))
  {
    assert Cut(n, lim, st.combined) == Kept(n);
    hide Cut, CutSize, CutAddress;
    InsertionSorted(st.entries, n);
    if !mayOverlap {
      SlotIsPlace(st.entries, n);
      FirstNotBelowDecides(st.entries, n);
    }
  }

  lemma InsertionSorted(s: seq<Region>, n: Region)
    requires n.Valid()
    ensures Sorted(s) && Clear(s, n) ==> Sorted(s[..Slot(s, n)] + [n] + s[Slot(s, n)..])
  {
    if Sorted(s) && Clear(s, n) {
      SlotIsPlace(s, n);
      InsertedSorted(s, n);
    }
  }

  lemma ReservedMember(before: seq<Region>, after: seq<Region>, n: Region, e: Region)
    requires Reserved(before, after, n)
    ensures e in after <==> e in before || (e == n && n.begin != n.end)
  {
    if n.begin != n.end {
      var p :| 0 <= p <= |before| && after == before[..p] + [n] + before[p..];
      assert before == before[..p] + before[p..];
    }
  }
}
