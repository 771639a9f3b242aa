/** The region list as the program keeps it: a fixed array of which the first entries are in use
    (server/src/region.h, server/src/region.cc). */
module RegionStore {
  import opened Options
  import opened Regions
  import opened RegionLists
  import opened FreeSearch
  import opened BackwardSearch

  class RegionList {
    const store: array<Region>
    const limits: Limits
    var len: nat
    var combined: nat

    ghost predicate Valid()
      reads this, store
    {
      && len <= store.Length && combined < TOP && limits.Valid()
      && (forall i :: 0 <= i < len ==> store[i].Valid())
    }

    /** The entries in use. */
    ghost function Contents(): seq<Region>
      reads this, store
      requires len <= store.Length
    {
      store[..len]
    }

    ghost function Abstract(): State
      reads this, store
      requires len <= store.Length
    {
      State(store[..len], combined)
    }

    constructor (capacity: nat, limits: Limits)
      requires limits.Valid()
      ensures Valid() && Contents() == [] && combined == 0 && fresh(store)
      ensures this.limits == limits && store.Length == capacity
    {
      store := new Region[capacity];
      this.limits := limits;
      len, combined := 0, 0;
    }

    /** The first entry that overlaps `o`. */
    method Find(o: Region) returns (r: Option<nat>)
      requires Valid()
      ensures match r
        case Some(i) => i < len && store[i].Overlaps(o) && i == FirstOverlap(Contents(), o)
        case None => Clear(Contents(), o)
    {
      var i := 0;
      while i < len
        invariant i <= len && forall j :: 0 <= j < i ==> !store[j].Overlaps(o)
      {
        if store[i].Overlaps(o) {
          FirstOverlapIs(Contents(), o, i);
          return Some(i);
        }
        i := i + 1;
      }
      return None;
    }

    /** The last entry that overlaps `o`. */
    method FindRev(o: Region) returns (r: Option<nat>)
      requires Valid()
      ensures match r
        case Some(i) => i < len && store[i].Overlaps(o) && forall j :: i < j < len ==> !store[j].Overlaps(o)
        case None => Clear(Contents(), o)
    {
      if len == 0 {
        return None;
      }
      var c := len;
      while c != 0
        invariant 0 <= c <= len && forall j :: c <= j < len ==> !store[j].Overlaps(o)
      {
        c := c - 1;
        if store[c].Overlaps(o) {
          return Some(c);
        }
      }
      return None;
    }

    /** The first entry that contains `o`. */
    method ContainsRegion(o: Region) returns (r: Option<nat>)
      requires Valid()
      ensures match r
        case Some(i) => i < len && i == FirstContaining(Contents(), o)
        case None => FirstContaining(Contents(), o) == len
    {
      var i := 0;
      while i < len
        invariant i <= len && forall j :: 0 <= j < i ==> !store[j].Contains(o)
      {
        if store[i].Contains(o) {
          FirstContainingIs(Contents(), o, i);
          return Some(i);
        }
        i := i + 1;
      }
      FirstContainingIs(Contents(), o, len);
      return None;
    }

    method Remove(i: nat)
      requires Valid() && i < len
      modifies this`len, store
      ensures Valid() && Contents() == RemoveAt(old(Contents()), i) && combined == old(combined)
    {
      forall k | i <= k < len - 1 {
        store[k] := store[k + 1];
      }
      len := len - 1;
      assert Contents() == RemoveAt(old(Contents()), i);
    }

    method RemoveMatching(drop: Region -> bool)
      requires Valid()
      modifies this`len, store
      ensures Valid() && Contents() == Remaining(old(Contents()), drop) && combined == old(combined)
    {
      ghost var s := Contents();
      var i := 0;
      while i != len
        invariant i <= len && Valid() && combined == old(combined)
        invariant Remaining(s, drop) == Contents()[..i] + Remaining(Contents()[i..], drop)
        decreases len - i
      {
        ghost var t := Contents();
        RemainingStep(t, i, drop);
        if drop(store[i]) {
          Remove(i);
        } else {
          i := i + 1;
        }
      }
      assert Contents()[i..] == [];
    }

    /** Merge neighbours with the same attributes on touching pages. */
    method Optimize()
      requires Valid() && Sorted(Contents())
      modifies this`len, store
      ensures Valid() && Contents() == Optimized(old(Contents())) && combined == old(combined)
      ensures len <= old(len)
    {
      hide Mergeable, Merge, Optimized, Sorted;
      ghost var s := Contents();
      var c := 0;
      while c < len
        invariant c <= len <= old(len) && Valid() && Sorted(Contents()) && combined == old(combined)
        invariant Optimized(s) == Contents()[..c] + Optimized(Contents()[c..])
        decreases len - c
      {
        ghost var t := Contents();
        var n := c + 1;
        if n == len {
          OptimizedShort(t[c..]);
          assert t[..c] + t[c..] == t;
          return;
        }
        OptimizedStep(t, c);
        if Mergeable(store[c], store[n]) {
          store[c] := Merge(store[c], store[n]);
          assert Contents() == t[c := Merge(t[c], t[n])];
          Remove(n);
        } else {
          c := c + 1;
        }
      }
      OptimizedShort(Contents()[c..]);
      assert Contents()[..c] == Contents();
    }

    /** Store a region without looking at the limits; false when the program panics. */
    method AddNoLimitCheck(region: Region, mayOverlap: bool) returns (ok: bool)
      requires Valid() && region.Valid() && (len < store.Length || Sorted(Contents()))
      modifies this, store
      ensures Valid()
      ensures ok <==> AddedUnlimited(old(Contents()), store.Length, region, mayOverlap).Some?
      ensures ok ==> Contents() == AddedUnlimited(old(Contents()), store.Length, region, mayOverlap).value
      ensures ok ==>
        combined == if region.begin == region.end then old(combined) else (old(combined) + region.Size()) % TOP
    {
      hide Mergeable, Optimized, Place;
      if region.begin == region.end {
        return true;
      }
      if len >= store.Length {
        Optimize();
        if len >= store.Length {
          return false;
        }
      }
      ghost var t := Contents();
      var r := FindSlot(region);
      if r != len && !mayOverlap && !region.Below(store[r]) {
        return false;
      }
      InsertAt(r, region);
      combined := (combined + region.Size()) % TOP;
      ok := true;
    }

    /** Where a region goes: behind the last entry, or before the first that is not below it. */
    method FindSlot(region: Region) returns (r: nat)
      requires Valid() && region.Valid()
      ensures r == Slot(Contents(), region)
    {
      if len == 0 || store[len - 1].Below(region) {
        return len;
      }
      r := 0;
      while r != len && store[r].Below(region)
        invariant r <= len && forall j :: 0 <= j < r ==> store[j].Below(region)
      {
        r := r + 1;
      }
      PlaceUnique(Contents(), region, r);
    }

    /* The `memmove` that makes room, and the store. */
    method InsertAt(r: nat, region: Region)
      requires Valid() && region.Valid() && r <= len < store.Length
      modifies this`len, store
      ensures Valid() && Contents() == old(Contents())[..r] + [region] + old(Contents())[r..]
      ensures combined == old(combined)
    {
      ghost var t := Contents();
      forall k | r < k <= len {
        store[k] := store[k - 1];
      }
      store[r] := region;
      len := len + 1;
      assert Contents() == t[..r] + [region] + t[r..];
    }

    /** Store a region within the limits of the list; false when the program panics. */
    method AddRegion(region: Region, mayOverlap: bool) returns (ok: bool)
      requires Valid() && region.Valid() && (len < store.Length || Sorted(Contents()))
      modifies this, store
      ensures Valid()
      ensures ok <==> AddStep(old(Abstract()), store.Length, limits, region, mayOverlap).Some?
      ensures ok ==> Abstract() == AddStep(old(Abstract()), store.Length, limits, region, mayOverlap).value
    {
      hide AddedUnlimited, Sorted;
      CutValid(region, limits, combined);
      var mem := region;
      if mem.begin == 0 && mem.end == 0 {
        return true;
      }
      if mem.begin > limits.address {
        return true;
      }
      if mem.end > limits.address {
        var end := (limits.address + TOP - 1) % TOP;
        if end < mem.begin {
          return false;
        }
        mem := mem.(end := end);
      }
      if combined >= limits.size {
        return true;
      }
      if (combined + mem.Size()) % TOP > limits.size {
        mem := mem.(end := mem.begin + limits.size - combined - 1);
      }
      assert Cut(region, limits, combined) == Kept(mem);
      hide Cut;
      ok := AddNoLimitCheck(mem, mayOverlap);
    }

    /** Cut an interval out of the entry that contains it; `ok` is false when the program panics. */
    method SubRegion(r: Region) returns (found: bool, ok: bool)
      requires Valid() && Sorted(Contents()) && r.Valid()
      modifies this, store
      ensures Valid()
      ensures found <==> FirstContaining(old(Contents()), r) < old(len)
      ensures ok <==> SubStep(old(Abstract()), store.Length, limits, r).Some?
      ensures ok ==> Abstract() == SubStep(old(Abstract()), store.Length, limits, r).value
    {
      hide Sorted, AddStep, Pieces;
      ghost var s := Contents();
      var i := ContainsRegion(r);
      if i.None? {
        return false, true;
      }
      found, ok := true, true;
      var c := i.value;
      WithoutCases(s, c, r);
      if store[c].begin == r.begin && store[c].end == r.end {
        Remove(c);
      } else if store[c].begin == r.begin {
        store[c] := store[c].(begin := r.end + 1);
        assert Contents() == s[c := s[c].(begin := r.end + 1)];
      } else if store[c].end == r.end {
        store[c] := store[c].(end := r.begin - 1);
        assert Contents() == s[c := s[c].(end := r.begin - 1)];
      } else {
        var tail := store[c].(begin := r.end + 1);
        HeadSorted(s, c, r.begin - 1);
        store[c] := store[c].(end := r.begin - 1);
        assert Contents() == s[c := s[c].(end := r.begin - 1)];
        ok := AddRegion(tail, false);
      }
    }

    /** The lowest aligned block of the rounded size inside `area` that no entry overlaps. */
    method FindFree(area: Region, size0: nat, unit: nat) returns (r: nat)
      requires Valid() && area.Valid() && unit > 0 && size0 > 0 && size0 + unit <= TOP
      requires NoWrap(Contents(), area, RoundTo(size0, unit), unit)
      ensures RoundTo(size0, unit) > 0
      ensures LowestFree(Contents(), area, RoundTo(size0, unit), unit, r)
    {
      RoundLeast(size0, unit);
      hide RoundTo, NoWrap, FreeAt, LowestFree;
      ghost var s := Contents();
      var size := RoundTo(size0, unit);
      var start := area.begin;
      NoWrapStart(s, area, size, unit);
      while true
        invariant area.begin <= start && start + unit + size <= TOP
        invariant forall a: nat :: FreeAt(s, area, size, unit, a) ==> start <= a
        decreases TOP - start
      {
        RoundLeast(start, unit);
        ghost var from := start;
        start := RoundTo(start, unit);
        FreeIsAligned(s, area, size, unit, from);
        ForwardMeaning(s, area, size, unit, start);
        if start + size - 1 > area.end {
          return 0;
        }
        var z := Find(Block(start, size));
        if z.None? {
          return start;
        }
        SkipForward(s, area, size, unit, start, z.value);
        NoWrapNext(s, area, size, unit, start, z.value);
        start := store[z.value].end + 1;
      }
    }

    /** The highest such block; nothing when the program stops in an assertion. The search has to end after
        some number of rounds. */
    method FindFreeRev(area: Region, size0: nat, unit: nat, ghost rounds: nat) returns (r: Option<nat>)
      requires Valid() && area.Valid() && unit > 0 && size0 > 0 && size0 + unit <= TOP
      requires AllValid(Contents()) && 0 < RoundTo(size0, unit) <= TOP
      requires !RevRounds(Contents(), area, RoundTo(size0, unit), unit, Upto(area.end), rounds).Upto?
      ensures RevRounds(Contents(), area, RoundTo(size0, unit), unit, Upto(area.end), rounds) ==
        if r.Some? then Answer(r.value) else Stopped
    {
      hide RoundTo, RevCandidate, FirstOverlap, Region.Overlaps, RevRounds;
      ghost var s := Contents();
      var size := RoundTo(size0, unit);
      var start, end := area.begin, area.end;
      ghost var n := rounds;
      ghost var last := RevRounds(s, area, size, unit, Upto(end), n);
      while true
        invariant 0 <= end < TOP && RevRounds(s, area, size, unit, Upto(end), n) == last
        decreases n
      {
        RevNextRound(s, area, size, unit, end, n);
        n := n - 1;
        end := RevCandidate(end, size, unit);
        if end < start {
          RevStop(s, area, size, unit, Answer(0), n);
          return Some(0);
        }
        if end > (end + size - 1) % TOP {
          RevStop(s, area, size, unit, Stopped, n);
          return None;
        }
        var z := Find(Block(end, size));
        if z.None? {
          FirstOverlapIs(s, Block(end, size), |s|);
          RevStop(s, area, size, unit, Answer(end), n);
          return Some(end);
        }
        end := (store[z.value].begin + TOP - 1) % TOP;
      }
    }
  }

  lemma FreeIsAligned(s: seq<Region>, area: Region, size: nat, unit: nat, start: nat)
    requires size > 0 && unit > 0 && start + unit - 1 < TOP
    requires forall a: nat :: FreeAt(s, area, size, unit, a) ==> start <= a
    ensures forall a: nat :: FreeAt(s, area, size, unit, a) ==> RoundTo(start, unit) <= a
  {
    RoundLeast(start, unit);
  }

  lemma FirstOverlapIs(s: seq<Region>, o: Region, i: nat)
    requires i <= |s| && (forall j :: 0 <= j < i ==> !s[j].Overlaps(o)) && (i < |s| ==> s[i].Overlaps(o))
    ensures FirstOverlap(s, o) == i
  {
  }

  lemma FirstContainingIs(s: seq<Region>, o: Region, i: nat)
    requires i <= |s| && (forall j :: 0 <= j < i ==> !s[j].Contains(o)) && (i < |s| ==> s[i].Contains(o))
    ensures FirstContaining(s, o) == i
  {
  }

  lemma RemainingStep(s: seq<Region>, i: nat, drop: Region -> bool)
    requires i < |s|
    ensures var t := if drop(s[i]) then RemoveAt(s, i) else s;
      var j := if drop(s[i]) then i else i + 1;
      t[..j] + Remaining(t[j..], drop) == s[..i] + Remaining(s[i..], drop)
  {
    assert s[i..][0] == s[i] && s[i..][1..] == s[i + 1..];
    if drop(s[i]) {
      assert RemoveAt(s, i)[..i] == s[..i] && RemoveAt(s, i)[i..] == s[i + 1..];
    } else {
      assert s[..i + 1] == s[..i] + [s[i]];
    }
  }

  lemma OptimizedShort(s: seq<Region>)
    requires |s| <= 1
    ensures Optimized(s) == s
  {
  }

  /* One round of the loop of `optimize`. */
  lemma OptimizedStep(s: seq<Region>, c: nat)
    requires Sorted(s) && c + 1 < |s|
    ensures Mergeable(s[c], s[c + 1]) ==>
      var m := Merge(s[c], s[c + 1]);
      var t := RemoveAt(s[c := m], c + 1);
      && m.Valid() && Sorted(t)
      && t[..c] + Optimized(t[c..]) == s[..c] + Optimized(s[c..])
    ensures !Mergeable(s[c], s[c + 1]) ==> s[..c + 1] + Optimized(s[c + 1..]) == s[..c] + Optimized(s[c..])
  {
    hide Sorted, Mergeable;
    var u := s[c..];
    assert u[0] == s[c] && u[1] == s[c + 1] && u[2..] == s[c + 2..] && u[1..] == s[c + 1..];
    if Mergeable(s[c], s[c + 1]) {
      var m := Merge(s[c], s[c + 1]);
      var t := RemoveAt(s[c := m], c + 1);
      SlicesSorted(s, c);
      MergedSorted(u);
      SortedConcat(s[..c], [m] + u[2..]);
      assert t == s[..c] + ([m] + u[2..]);
      assert t[c..] == [m] + u[2..];
    } else {
      assert s[..c + 1] == s[..c] + [s[c]];
    }
  }

  /* `Without` in the branches that do not split. */
  lemma WithoutCases(s: seq<Region>, c: nat, r: Region)
    requires c < |s| && s[c].Contains(r) && s[c].Valid() && r.begin <= r.end
    ensures s[c].begin == r.begin && s[c].end == r.end ==> Without(s, c, r) == RemoveAt(s, c)
    ensures s[c].begin == r.begin && r.end < s[c].end ==> Without(s, c, r) == s[c := s[c].(begin := r.end + 1)]
    ensures s[c].begin < r.begin && r.end == s[c].end ==> Without(s, c, r) == s[c := s[c].(end := r.begin - 1)]
  {
  }

  lemma NoWrapStart(s: seq<Region>, area: Region, size: nat, unit: nat)
    requires NoWrap(s, area, size, unit)
    ensures area.begin + unit + size <= TOP
  {
  }

  lemma NoWrapNext(s: seq<Region>, area: Region, size: nat, unit: nat, start: nat, i: nat)
    requires NoWrap(s, area, size, unit) && i < |s| && size > 0
    requires area.begin <= start && start + size - 1 <= area.end && s[i].Overlaps(Block(start, size))
    ensures s[i].end + 1 + unit + size <= TOP && start <= s[i].end
  {
  }
}
