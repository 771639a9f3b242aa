/** The allocator on top of the region lists (server/src/memory.cc), without a `validate` callback. */
module MemoryManager {
  import opened Options
  import opened Arithmetic
  import opened Regions
  import opened RegionLists
  import opened FreeSearch
  import opened BackwardSearch
  import opened RegionStore

  const LOWEST: nat := 8

  /** The lists and bounds of one request. */
  datatype Request = Request(ram: seq<Region>, sysalloc: seq<Region>, regions: seq<Region>,
                             min: nat, max: nat, size: nat, unit: nat) {
    ghost predicate Valid() {
      && Sorted(ram) && Sorted(sysalloc) && AllValid(regions)
      && 8 <= min <= max < TOP && 0 < size && 0 < unit
    }

    /** An aligned block inside one RAM region and one region free for allocation, within the bounds,
        that no reserved region overlaps. */
    ghost predicate Usable(a: nat)
      requires size > 0 && unit > 0
    {
      && a % unit == 0 && min <= a && a + size - 1 <= max
      && (exists i :: 0 <= i < |ram| && ram[i].Contains(Block(a, size)))
      && (exists j :: 0 <= j < |sysalloc| && sysalloc[j].Contains(Block(a, size)))
      && Clear(regions, Block(a, size))
    }

    /** A single byte at the end of a RAM region where the bounds begin, or at the begin of one where they
        end: the tests of the bounds pass over it. */
    ghost predicate Lost(a: nat) {
      && size == 1
      && ((a == min && exists i :: 0 <= i < |ram| && ram[i].Valid() && a == ram[i].end)
        || (a == max && exists i :: 0 <= i < |ram| && ram[i].Valid() && a == ram[i].begin))
    }

    /** Usable, and looked at by the search. */
    ghost predicate Kept(a: nat)
      requires size > 0 && unit > 0
    {
      Usable(a) && !Lost(a)
    }

    /* The part of RAM region `i` within the bounds. */
    function Area(i: nat): Region
      requires i < |ram|
    {
      Plain(Max(ram[i].begin, min), Min(ram[i].end, max))
    }

    /** `b` lies in `area` and in one region free for allocation. */
    ghost predicate UsableIn(area: Region, a: nat)
      requires size > 0 && unit > 0
    {
      && a % unit == 0 && area.Contains(Block(a, size))
      && (exists j :: 0 <= j < |sysalloc| && sysalloc[j].Contains(Block(a, size)))
      && Clear(regions, Block(a, size))
    }

    /** Neither RAM nor a reserved region comes so close to the top that a sum could wrap around. */
    ghost predicate ForwardSafe() {
      && (forall i :: 0 <= i < |ram| ==> ram[i].end + 1 + unit + size <= TOP)
      && (forall k :: 0 <= k < |regions| ==> regions[k].end + 1 + unit + size <= TOP)
    }

    /** When the backward search cannot be wrong: there is a block to find, or in every area it stays in
        range or has a unit that fits below every place where it can stand. */
    ghost predicate BackwardSafe()
      requires unit > 0 && size > 0
    {
      (exists a: nat :: Kept(a))
      || forall i, j :: 0 <= i < |ram| && 0 <= j < |sysalloc| && sysalloc[j].Overlaps(Area(i)) && Area(i).Valid() ==>
        SafeOrCoarse(regions, sysalloc[j].Intersect(Area(i)), size, unit)
    }
  }

  /** The bytes from `a` on, `n` of them, all lie in `r`. */
  ghost predicate AllHeld(r: Region, a: nat, n: nat) {
    forall x: nat :: a <= x < a + n ==> r.Holds(x)
  }

  /** A usable block in bytes. */
  lemma UsableMeansBytes(q: Request, a: nat)
    requires q.Valid()
    ensures q.Usable(a) <==>
      && a % q.unit == 0 && q.min <= a && a + q.size - 1 <= q.max
      && (exists i :: 0 <= i < |q.ram| && AllHeld(q.ram[i], a, q.size))
      && (exists j :: 0 <= j < |q.sysalloc| && AllHeld(q.sysalloc[j], a, q.size))
      && forall x: nat :: a <= x < a + q.size ==> !Covered(q.regions, x)
  {
    hide Sorted, AllValid, Covered;
    forall i | 0 <= i < |q.ram|
      ensures q.ram[i].Contains(Block(a, q.size)) <==> AllHeld(q.ram[i], a, q.size)
    {
      HeldContains(q.ram[i], a, q.size);
    }
    forall i | 0 <= i < |q.sysalloc|
      ensures q.sysalloc[i].Contains(Block(a, q.size)) <==> AllHeld(q.sysalloc[i], a, q.size)
    {
      HeldContains(q.sysalloc[i], a, q.size);
    }
    ClearBytes(q.regions, a, q.size);
    hide Clear, AllHeld, Block, Region.Contains;
  }

  lemma HeldContains(r: Region, a: nat, n: nat)
    requires 0 < n
    ensures r.Contains(Block(a, n)) <==> AllHeld(r, a, n)
  {
    if AllHeld(r, a, n) {
      assert r.Holds(a) && r.Holds(a + n - 1);
    }
  }

  lemma ClearBytes(s: seq<Region>, a: nat, n: nat)
    requires 0 < n && AllValid(s)
    ensures Clear(s, Block(a, n)) <==> forall x: nat :: a <= x < a + n ==> !Covered(s, x)
  {
    FreeMeansBytes(s, Block(a, n), n, 1, a);
    hide Clear, Covered;
  }

  ghost predicate SafeOrCoarse(s: seq<Region>, area: Region, size: nat, unit: nat)
    requires size > 0 && unit > 0
  {
    RevSafe(s, area, size, unit) || Coarse(s, area, size, unit)
  }

  /** A search result over all RAM: the lowest usable block, or zero when there is none. */
  ghost predicate Lowest(q: Request, r: nat)
    requires q.size > 0 && q.unit > 0
  {
    && (r != 0 ==> q.Usable(r))
    && (forall a: nat :: q.Usable(a) ==> r != 0 && r <= a)
  }

  ghost predicate Highest(q: Request, r: nat)
    requires q.size > 0 && q.unit > 0
  {
    && (r != 0 ==> q.Usable(r))
    && (forall a: nat :: q.Usable(a) ==> a <= r)
  }

  ghost predicate LowestKept(q: Request, r: nat)
    requires q.size > 0 && q.unit > 0
  {
    && (r != 0 ==> q.Kept(r))
    && (forall a: nat :: q.Kept(a) ==> r != 0 && r <= a)
  }

  ghost predicate HighestKept(q: Request, r: nat)
    requires q.size > 0 && q.unit > 0
  {
    && (r != 0 ==> q.Kept(r))
    && (forall a: nat :: q.Kept(a) ==> a <= r)
  }

  /** Exactly when the answers are right: for blocks of two bytes or more always, and for single bytes if no
      lost byte is usable where the search begins, nor, when it finds nothing, where it ends. */
  lemma OneByteExact(q: Request, lo: nat, hi: nat)
    requires q.Valid() && LowestKept(q, lo) && HighestKept(q, hi)
    ensures q.size > 1 ==> Lowest(q, lo) && Highest(q, hi)
    ensures Lowest(q, lo) <==> !LostAt(q, q.min) && (LostAt(q, q.max) ==> exists a: nat :: q.Kept(a))
    ensures Highest(q, hi) <==> !LostAt(q, q.max) && (LostAt(q, q.min) ==> exists a: nat :: q.Kept(a))
  {
    hide Request.Usable;
    assert LostAt(q, q.min) ==> q.Usable(q.min) && !q.Kept(q.min);
    assert LostAt(q, q.max) ==> q.Usable(q.max) && !q.Kept(q.max);
    UsableBounds(q);
    forall a: nat | q.Usable(a)
      ensures q.Kept(a) || (a == q.min && LostAt(q, a)) || (a == q.max && LostAt(q, a))
    {
    }
  }

  lemma UsableBounds(q: Request)
    requires q.Valid()
    ensures forall a: nat :: q.Usable(a) ==> q.min <= a <= q.max
  {
  }

  /** A usable byte that the search passes over. */
  ghost predicate LostAt(q: Request, a: nat)
    requires q.size > 0 && q.unit > 0
  {
    q.Lost(a) && q.Usable(a)
  }

  ghost predicate LowestIn(q: Request, area: Region, r: nat)
    requires q.size > 0 && q.unit > 0
  {
    && (r != 0 ==> q.UsableIn(area, r))
    && (forall a: nat :: q.UsableIn(area, a) ==> r != 0 && r <= a)
  }

  ghost predicate HighestIn(q: Request, area: Region, r: nat)
    requires q.size > 0 && q.unit > 0
  {
    && (r != 0 ==> q.UsableIn(area, r))
    && (forall a: nat :: q.UsableIn(area, a) ==> a <= r)
  }

  /* Nothing usable starts below `cur`. */
  ghost predicate From(q: Request, area: Region, cur: nat)
    requires q.size > 0 && q.unit > 0
  {
    forall a: nat :: q.UsableIn(area, a) ==> cur <= a
  }

  /* Nothing usable ends above `cur`. */
  ghost predicate UpTo(q: Request, area: Region, cur: nat)
    requires q.size > 0 && q.unit > 0
  {
    forall a: nat :: q.UsableIn(area, a) ==> a + q.size - 1 <= cur
  }

  /* Nothing usable lies in the RAM regions at the given positions. */
  ghost predicate NoneIn(q: Request, lo: nat, hi: nat)
    requires q.size > 0 && q.unit > 0 && lo <= hi <= |q.ram|
  {
    forall a: nat, i :: lo <= i < hi && q.Kept(a) ==> !q.ram[i].Contains(Block(a, q.size))
  }

  /* ---- one area, upwards ---- */

  /** The first region that overlaps what is left of the area decides: a block found there is the
      lowest of the area, and otherwise the search can go on behind it. */
  lemma ForwardArea(q: Request, area: Region, cur: Region, j: nat, to: nat)
    requires q.Valid() && area.Valid() && cur.Valid() && cur.end == area.end && area.begin <= cur.begin
    requires LOWEST <= area.begin && From(q, area, cur.begin)
    requires j < |q.sysalloc| && j == FirstOverlap(q.sysalloc, cur)
    requires LowestFree(q.regions, q.sysalloc[j].Intersect(cur), q.size, q.unit, to)
    ensures to != 0 ==> LowestIn(q, area, to)
    ensures to == 0 ==> From(q, area, q.sysalloc[j].Intersect(cur).end + 1)
  {
    var z := q.sysalloc[j].Intersect(cur);
    forall a: nat | q.UsableIn(area, a)
      ensures to != 0 ==> to <= a
      ensures to == 0 ==> z.end + 1 <= a
    {
      var i :| 0 <= i < |q.sysalloc| && q.sysalloc[i].Contains(Block(a, q.size));
      assert q.sysalloc[i].Overlaps(cur);
      assert i >= j;
      if i == j {
        assert FreeAt(q.regions, z, q.size, q.unit, a);
      }
    }
    if to != 0 {
      assert q.sysalloc[j].Contains(Block(to, q.size));
    }
  }

  lemma ForwardNothing(q: Request, area: Region, cur: Region)
    requires q.Valid() && area.Valid() && cur.end == area.end && area.begin <= cur.begin
    requires From(q, area, cur.begin) && (cur.begin <= cur.end ==> Clear(q.sysalloc, cur))
    ensures LowestIn(q, area, 0)
  {
  }

  /* ---- one area, downwards ---- */

  lemma BackwardArea(q: Request, area: Region, cur: Region, j: nat, to: nat)
    requires q.Valid() && area.Valid() && cur.Valid() && cur.begin == area.begin && cur.end <= area.end
    requires LOWEST <= area.begin && UpTo(q, area, cur.end)
    requires j < |q.sysalloc| && q.sysalloc[j].Overlaps(cur)
    requires forall i :: j < i < |q.sysalloc| ==> !q.sysalloc[i].Overlaps(cur)
    requires HighestFree(q.regions, q.sysalloc[j].Intersect(cur), q.size, q.unit, to)
    ensures to != 0 ==> HighestIn(q, area, to)
    ensures to == 0 ==> UpTo(q, area, q.sysalloc[j].Intersect(cur).begin - 1)
  {
    var z := q.sysalloc[j].Intersect(cur);
    forall a: nat | q.UsableIn(area, a)
      ensures to != 0 ==> a <= to
      ensures to == 0 ==> a + q.size <= z.begin
    {
      var i :| 0 <= i < |q.sysalloc| && q.sysalloc[i].Contains(Block(a, q.size));
      assert q.sysalloc[i].Overlaps(cur);
      assert i <= j;
      if i == j {
        assert FreeAt(q.regions, z, q.size, q.unit, a);
      }
    }
    if to != 0 {
      assert q.sysalloc[j].Contains(Block(to, q.size));
    }
  }

  lemma BackwardNothing(q: Request, area: Region, cur: Region)
    requires q.Valid() && area.Valid() && cur.begin == area.begin && cur.end <= area.end
    requires UpTo(q, area, cur.end) && (cur.begin <= cur.end ==> Clear(q.sysalloc, cur))
    ensures HighestIn(q, area, 0)
  {
  }

  /* ---- from areas to RAM ---- */

  lemma UsableInArea(q: Request, i: nat, a: nat)
    requires q.Valid() && i < |q.ram| && q.ram[i].Contains(Block(a, q.size))
    ensures q.Usable(a) ==> q.UsableIn(q.Area(i), a)
    ensures q.UsableIn(q.Area(i), a) ==> q.Usable(a)
  {
  }

  /** A RAM region that leaves less than two bytes within the bounds holds no block that is not lost. */
  lemma SkipRam(q: Request, i: nat)
    requires q.Valid() && i < |q.ram|
    requires q.min >= q.ram[i].end || q.max <= q.ram[i].begin
    ensures NoneIn(q, i, i + 1)
  {
    forall a: nat | q.Kept(a)
      ensures !q.ram[i].Contains(Block(a, q.size))
    {
    }
  }

  /* The others lose nothing. */
  lemma NotSkipped(q: Request, i: nat, a: nat)
    requires q.Valid() && i < |q.ram| && q.min < q.ram[i].end && q.ram[i].begin < q.max
    requires q.ram[i].Contains(Block(a, q.size))
    ensures !q.Lost(a)
  {
  }

  lemma AreaDone(q: Request, i: nat)
    requires q.Valid() && i < |q.ram| && (LowestIn(q, q.Area(i), 0) || HighestIn(q, q.Area(i), 0))
    ensures NoneIn(q, i, i + 1)
  {
    forall a: nat | q.Kept(a)
      ensures !q.ram[i].Contains(Block(a, q.size))
    {
      if q.ram[i].Contains(Block(a, q.size)) {
        UsableInArea(q, i, a);
      }
    }
  }

  lemma LowestFound(q: Request, i: nat, r: nat)
    requires q.Valid() && i < |q.ram| && r != 0 && q.min < q.ram[i].end && q.ram[i].begin < q.max
    requires LowestIn(q, q.Area(i), r) && NoneIn(q, 0, i)
    ensures LowestKept(q, r)
  {
    UsableInArea(q, i, r);
    NotSkipped(q, i, r);
    forall a: nat | q.Kept(a)
      ensures r <= a
    {
      var k :| 0 <= k < |q.ram| && q.ram[k].Contains(Block(a, q.size));
      if k == i {
        UsableInArea(q, i, a);
      }
    }
  }

  lemma HighestFound(q: Request, i: nat, r: nat)
    requires q.Valid() && i < |q.ram| && r != 0 && q.min < q.ram[i].end && q.ram[i].begin < q.max
    requires HighestIn(q, q.Area(i), r) && NoneIn(q, i + 1, |q.ram|)
    ensures HighestKept(q, r)
  {
    UsableInArea(q, i, r);
    NotSkipped(q, i, r);
    forall a: nat | q.Kept(a)
      ensures a <= r
    {
      var k :| 0 <= k < |q.ram| && q.ram[k].Contains(Block(a, q.size));
      if k == i {
        UsableInArea(q, i, a);
      }
    }
  }

  /* Blocks of more than a byte are never lost. */
  lemma LargeBlocks(q: Request, r: nat)
    requires q.size > 0 && q.unit > 0
    ensures q.size > 1 && LowestKept(q, r) ==> Lowest(q, r)
    ensures q.size > 1 && HighestKept(q, r) ==> Highest(q, r)
  {
    hide Request.Usable, Request.Valid;
    assert q.size > 1 ==> forall a: nat :: q.Kept(a) <==> q.Usable(a);
  }

  lemma NothingFound(q: Request)
    requires q.Valid() && NoneIn(q, 0, |q.ram|)
    ensures LowestKept(q, 0) && HighestKept(q, 0)
  {
  }

  class Memory {
    const ram: RegionList
    const sysalloc: RegionList
    const regions: RegionList

    ghost predicate Valid()
      reads this, ram, ram.store, sysalloc, sysalloc.store, regions, regions.store
    {
      && ram.Valid() && sysalloc.Valid() && regions.Valid()
      && Sorted(ram.Contents()) && Sorted(sysalloc.Contents())
    }

    /** A request for `size0` bytes against the current lists. */
    ghost function Ask(size0: nat, minAddr: nat, maxAddr: nat, unit: nat): Request
      requires unit > 0 && Valid()
      reads this, ram, ram.store, sysalloc, sysalloc.store, regions, regions.store
    {
      Request(ram.Contents(), sysalloc.Contents(), regions.Contents(), if minAddr < 8 then 8 else minAddr, maxAddr,
              RoundTo(size0, unit), unit)
    }

    constructor (ram: RegionList, sysalloc: RegionList, regions: RegionList)
      ensures this.ram == ram && this.sysalloc == sysalloc && this.regions == regions
    {
      this.ram, this.sysalloc, this.regions := ram, sysalloc, regions;
    }

    /** The lowest aligned free block between the bounds; zero when there is none. */
    method FindFreeRam(size0: nat, minAddr: nat, maxAddr: nat, unit: nat) returns (r: nat)
      requires Valid() && unit > 0 && size0 > 0 && size0 + unit <= TOP
      requires Ask(size0, minAddr, maxAddr, unit).Valid() && Ask(size0, minAddr, maxAddr, unit).ForwardSafe()
      ensures LowestKept(Ask(size0, minAddr, maxAddr, unit), r)
      ensures Ask(size0, minAddr, maxAddr, unit).size > 1 ==> Lowest(Ask(size0, minAddr, maxAddr, unit), r)
    {
      hide Sorted, AllValid, LowestIn, HighestIn, Lowest, Highest, LowestKept, HighestKept, NoneIn, RoundTo,
        Request.ForwardSafe;
      ghost var q := Ask(size0, minAddr, maxAddr, unit);
      var min := Max(minAddr, LOWEST);
      var k := 0;
      NoneInEmpty(q);
      while k != ram.len
        invariant k <= ram.len && NoneIn(q, 0, k)
        invariant q.min <= min && (min == q.min || forall j :: k <= j < ram.len ==> min < ram.store[j].begin)
        decreases ram.len - k
      {
        MinPassed(q, min, k);
        if min >= ram.store[k].end {
          SkipRam(q, k);
        } else if maxAddr <= ram.store[k].begin {
          SkipRam(q, k);
        } else {
          min := Max(ram.store[k].begin, min);
          var area := Plain(min, Min(ram.store[k].end, maxAddr));
          assert area == q.Area(k);
          r := SearchUp(area, size0, unit, q, k);
          if r != 0 {
            LowestFound(q, k, r);
            LargeBlocks(q, r);
            return r;
          }
          AreaDone(q, k);
        }
        NoneInExtend(q, k);
        k := k + 1;
      }
      NothingFound(q);
      LargeBlocks(q, 0);
      return 0;
    }

    /** The loop over the allocatable regions that overlap one area of RAM, upwards. */
    method SearchUp(area: Region, size0: nat, unit: nat, ghost q: Request, ghost k: nat) returns (r: nat)
      requires Valid() && unit > 0 && size0 > 0 && size0 + unit <= TOP && q.Valid() && q.ForwardSafe()
      requires q.ram == ram.Contents() && q.sysalloc == sysalloc.Contents() && q.regions == regions.Contents()
      requires q.size == RoundTo(size0, unit) && q.unit == unit && k < |q.ram| && area == q.Area(k) && area.Valid()
      ensures LowestIn(q, area, r)
    {
      hide Sorted, AllValid, LowestIn, From, RoundTo, Request.ForwardSafe, LowestFree, NoWrap, Clear, FirstOverlap;
      var search := area;
      FromStart(q, area);
      while true
        invariant search.Valid() && area.begin <= search.begin && search.end == area.end
        invariant search == Plain(search.begin, search.end)
        invariant From(q, area, search.begin)
        decreases search.end - search.begin
      {
        var j := sysalloc.Find(search);
        if j.None? {
          ForwardNothing(q, area, search);
          return 0;
        }
        var part := sysalloc.store[j.value].Intersect(search);
        PartOf(sysalloc.store[j.value], search);
        NoWrapInArea(q, k, part);
        var to := regions.FindFree(part, size0, unit);
        ForwardArea(q, area, search, j.value, to);
        if to != 0 {
          return to;
        }
        if part.end + 1 > search.end {
          ForwardNothing(q, area, Plain(part.end + 1, area.end));
          return 0;
        }
        search := Plain(part.end + 1, search.end);
      }
    }

    /** The highest aligned free block between the bounds; zero when there is none. Nothing when the program
        stops in an assertion, which it can only do when there is none. */
    method FindFreeRamRev(size0: nat, minAddr: nat, maxAddr: nat, unit: nat) returns (r: Option<nat>)
      requires Valid() && unit > 0 && size0 > 0 && size0 + unit <= TOP
      requires Ask(size0, minAddr, maxAddr, unit).Valid() && Ask(size0, minAddr, maxAddr, unit).BackwardSafe()
      ensures HighestKept(Ask(size0, minAddr, maxAddr, unit), if r.Some? then r.value else 0)
      ensures Ask(size0, minAddr, maxAddr, unit).size > 1 ==>
        Highest(Ask(size0, minAddr, maxAddr, unit), if r.Some? then r.value else 0)
      ensures (exists a: nat :: Ask(size0, minAddr, maxAddr, unit).Kept(a)) ==> r.Some? && r.value != 0
    {
      hide Sorted, AllValid, LowestIn, HighestIn, Lowest, Highest, LowestKept, HighestKept, NoneIn, RoundTo,
        Request.BackwardSafe, Request.Kept;
      ghost var q := Ask(size0, minAddr, maxAddr, unit);
      var min, max := Max(minAddr, LOWEST), maxAddr;
      var k := ram.len;
      NoneInEmpty(q);
      while k > 0
        invariant 0 <= k <= ram.len && NoneIn(q, k, ram.len)
        invariant max <= q.max && (max == q.max || forall j :: 0 <= j < k ==> ram.store[j].end < max)
        decreases k
      {
        k := k - 1;
        MaxPassed(q, max, k);
        if min >= ram.store[k].end {
          SkipRam(q, k);
        } else if max <= ram.store[k].begin {
          SkipRam(q, k);
        } else {
          max := Min(ram.store[k].end, max);
          var area := Plain(Max(ram.store[k].begin, min), max);
          assert area == q.Area(k);
          r := SearchDown(area, size0, unit, q, k);
          if r.None? {
            NothingKept(q);
            LargeBlocks(q, 0);
            return None;
          }
          if r.value != 0 {
            HighestFound(q, k, r.value);
            LargeBlocks(q, r.value);
            return r;
          }
          AreaDone(q, k);
        }
        NoneInExtendDown(q, k);
      }
      NothingFound(q);
      LargeBlocks(q, 0);
      NothingKept(q);
      return Some(0);
    }

    /** The loop over the allocatable regions that overlap one area of RAM, downwards. */
    method SearchDown(area: Region, size0: nat, unit: nat, ghost q: Request, ghost k: nat) returns (r: Option<nat>)
      requires Valid() && unit > 0 && size0 > 0 && size0 + unit <= TOP && q.Valid() && q.BackwardSafe()
      requires q.ram == ram.Contents() && q.sysalloc == sysalloc.Contents() && q.regions == regions.Contents()
      requires q.size == RoundTo(size0, unit) && q.unit == unit && k < |q.ram| && area == q.Area(k) && area.Valid()
      requires NoneIn(q, k + 1, |q.ram|)
      ensures r.None? ==> !exists a: nat :: q.Kept(a)
      ensures r.Some? ==> HighestIn(q, area, r.value)
    {
      hide Sorted, AllValid, HighestIn, UpTo, RoundTo, Request.BackwardSafe, HighestFree, NoneFree, RevSafe, Clear,
        NoneIn, SafeOrCoarse, Request.Kept;
      var search := area;
      UpToStart(q, area);
      while true
        invariant search.Valid() && area.begin == search.begin && search.end <= area.end
        invariant search == Plain(search.begin, search.end)
        invariant UpTo(q, area, search.end)
        invariant forall j :: 0 <= j < sysalloc.len && sysalloc.store[j].Overlaps(search) ==>
          sysalloc.store[j].Intersect(search) == sysalloc.store[j].Intersect(area)
        decreases search.end - search.begin
      {
        var j := sysalloc.FindRev(search);
        if j.None? {
          BackwardNothing(q, area, search);
          return Some(0);
        }
        var part := sysalloc.store[j.value].Intersect(search);
        PartOf(sysalloc.store[j.value], search);
        SafeInArea(q, k, j.value, search);
        ghost var rounds := SearchEnds(regions.Contents(), part, size0, unit);
        var found := regions.FindFreeRev(part, size0, unit, rounds);
        if found.None? {
          NoBlockStops(q, k, j.value, search);
          return None;
        }
        var to := found.value;
        BackwardArea(q, area, search, j.value, to);
        if to != 0 {
          return found;
        }
        if part.begin - 1 < search.begin {
          BackwardNothing(q, area, Plain(area.begin, part.begin - 1));
          return Some(0);
        }
        PartsBelow(q, area, search, j.value);
        search := Plain(search.begin, part.begin - 1);
      }
    }
  }

  /* Where the backward search is never wrong, it ends. */
  lemma SearchEnds(s: seq<Region>, part: Region, size0: nat, unit: nat) returns (n: nat)
    requires AllValid(s) && part.Valid() && unit > 0 && size0 > 0 && size0 + unit <= TOP
    requires 0 < RoundTo(size0, unit) && SafeOrCoarse(s, part, RoundTo(size0, unit), unit)
    ensures RoundTo(size0, unit) <= TOP
    ensures var r := RevRounds(s, part, RoundTo(size0, unit), unit, Upto(part.end), n);
      match r
      case Upto(_) => false
      case Answer(b) => HighestFree(s, part, RoundTo(size0, unit), unit, b)
      case Stopped => !RevSafe(s, part, RoundTo(size0, unit), unit)
  {
    RoundLeast(size0, unit);
    hide RoundTo, RevSafe, Coarse, HighestFree;
    if RevSafe(s, part, RoundTo(size0, unit), unit) {
      n := RevEnds(s, part, RoundTo(size0, unit), unit);
    } else {
      n := RevNeverWrong(s, part, RoundTo(size0, unit), unit);
    }
  }

  lemma NoneInEmpty(q: Request)
    requires q.size > 0 && q.unit > 0
    ensures NoneIn(q, 0, 0) && NoneIn(q, |q.ram|, |q.ram|)
  {
  }

  lemma NoneInExtend(q: Request, k: nat)
    requires q.size > 0 && q.unit > 0 && k < |q.ram| && NoneIn(q, 0, k) && NoneIn(q, k, k + 1)
    ensures NoneIn(q, 0, k + 1)
  {
  }

  lemma NoneInExtendDown(q: Request, k: nat)
    requires q.size > 0 && q.unit > 0 && k < |q.ram| && NoneIn(q, k + 1, |q.ram|) && NoneIn(q, k, k + 1)
    ensures NoneIn(q, k, |q.ram|)
  {
  }

  lemma FromStart(q: Request, area: Region)
    requires q.size > 0 && q.unit > 0
    ensures From(q, area, area.begin)
  {
  }

  lemma UpToStart(q: Request, area: Region)
    requires q.size > 0 && q.unit > 0
    ensures UpTo(q, area, area.end)
  {
  }

  lemma PartOf(z: Region, search: Region)
    requires z.Overlaps(search) && z.Valid() && search.Valid()
    ensures z.Intersect(search).Valid() && search.Contains(z.Intersect(search))
  {
  }

  /* A bound that an earlier, lower RAM region raised means nothing to a later one. */
  lemma MinPassed(q: Request, min: nat, k: nat)
    requires q.Valid() && k < |q.ram| && q.min <= min
    requires min == q.min || forall j :: k <= j < |q.ram| ==> min < q.ram[j].begin
    ensures Max(q.ram[k].begin, min) == Max(q.ram[k].begin, q.min)
    ensures min >= q.ram[k].end ==> q.min >= q.ram[k].end
    ensures forall j :: k < j < |q.ram| ==>
      Max(q.ram[k].begin, min) < q.ram[j].begin || Max(q.ram[k].begin, min) == q.min
    ensures q.ram[k].Valid()
  {
  }

  lemma MaxPassed(q: Request, max: nat, k: nat)
    requires q.Valid() && k < |q.ram| && max <= q.max
    requires max == q.max || forall j :: 0 <= j <= k ==> q.ram[j].end < max
    ensures Min(q.ram[k].end, max) == Min(q.ram[k].end, q.max)
    ensures max <= q.ram[k].begin ==> q.max <= q.ram[k].begin
    ensures forall j :: 0 <= j < k ==> q.ram[j].end < Min(q.ram[k].end, max) || Min(q.ram[k].end, max) == q.max
    ensures q.ram[k].Valid()
  {
  }

  lemma NoWrapInArea(q: Request, k: nat, part: Region)
    requires q.Valid() && q.ForwardSafe() && k < |q.ram| && q.Area(k).Contains(part) && part.Valid()
    ensures NoWrap(q.regions, part, q.size, q.unit)
  {
  }

  /* A block that is still to be found lies in the part that is searched or below it, and then the
     differences stay in range there. */
  lemma KeptIsSafe(q: Request, k: nat, j: nat, search: Region, a: nat)
    requires q.Valid() && k < |q.ram| && j < |q.sysalloc| && q.Area(k).Valid() && search.Valid() && q.Kept(a)
    requires NoneIn(q, k + 1, |q.ram|) && UpTo(q, q.Area(k), search.end)
    requires search.begin == q.Area(k).begin && search.end <= q.Area(k).end
    requires q.sysalloc[j].Overlaps(search) && forall i :: j < i < |q.sysalloc| ==> !q.sysalloc[i].Overlaps(search)
    ensures RevSafe(q.regions, q.sysalloc[j].Intersect(search), q.size, q.unit)
  {
    var part := q.sysalloc[j].Intersect(search);
    var i :| 0 <= i < |q.ram| && q.ram[i].Contains(Block(a, q.size));
    assert i <= k;
    if i == k {
      UsableInArea(q, k, a);
    }
    if a + q.size - 1 < part.begin {
      BelowIsSafe(q.regions, part, q.size, q.unit, a);
    } else {
      var l :| 0 <= l < |q.sysalloc| && q.sysalloc[l].Contains(Block(a, q.size));
      assert i == k && l == j;
      assert FreeAt(q.regions, part, q.size, q.unit, a);
    }
  }

  lemma BelowIsSafe(s: seq<Region>, part: Region, size: nat, unit: nat, a: nat)
    requires size > 0 && part.Valid() && a + size - 1 < part.begin && Clear(s, Block(a, size)) && AllValid(s)
    ensures NoUnderflow(s, part, size)
  {
  }

  lemma SafeInArea(q: Request, k: nat, j: nat, search: Region)
    requires q.Valid() && q.BackwardSafe() && k < |q.ram| && j < |q.sysalloc| && q.Area(k).Valid() && search.Valid()
    requires NoneIn(q, k + 1, |q.ram|) && UpTo(q, q.Area(k), search.end)
    requires search.begin == q.Area(k).begin && search.end <= q.Area(k).end
    requires q.sysalloc[j].Overlaps(search) && forall i :: j < i < |q.sysalloc| ==> !q.sysalloc[i].Overlaps(search)
    requires q.sysalloc[j].Intersect(search) == q.sysalloc[j].Intersect(q.Area(k))
    ensures SafeOrCoarse(q.regions, q.sysalloc[j].Intersect(search), q.size, q.unit)
  {
    hide NoneIn, UpTo, RevSafe, Coarse, Request.Kept, Sorted, AllValid;
    if a: nat :| q.Kept(a) {
      KeptIsSafe(q, k, j, search, a);
    }
  }

  lemma NoBlockStops(q: Request, k: nat, j: nat, search: Region)
    requires q.Valid() && k < |q.ram| && j < |q.sysalloc| && q.Area(k).Valid() && search.Valid()
    requires NoneIn(q, k + 1, |q.ram|) && UpTo(q, q.Area(k), search.end)
    requires search.begin == q.Area(k).begin && search.end <= q.Area(k).end
    requires q.sysalloc[j].Overlaps(search) && forall i :: j < i < |q.sysalloc| ==> !q.sysalloc[i].Overlaps(search)
    requires !RevSafe(q.regions, q.sysalloc[j].Intersect(search), q.size, q.unit)
    ensures !exists a: nat :: q.Kept(a)
  {
    hide NoneIn, UpTo, RevSafe, Request.Kept, Sorted, AllValid;
    if a: nat :| q.Kept(a) {
      KeptIsSafe(q, k, j, search, a);
    }
  }

  lemma NothingKept(q: Request)
    requires q.size > 0 && q.unit > 0 && q.Valid()
    ensures HighestKept(q, 0) <==> !exists a: nat :: q.Kept(a)
  {
    assert forall a: nat :: q.Kept(a) ==> a >= LOWEST;
  }

  /* Cutting the area below one allocatable region leaves the lower ones whole. */
  lemma PartsBelow(q: Request, area: Region, search: Region, j: nat)
    requires q.Valid() && search.Valid() && j < |q.sysalloc| && q.sysalloc[j].Overlaps(search)
    requires area.begin == search.begin && search.end <= area.end
    requires search.begin < q.sysalloc[j].Intersect(search).begin
    requires forall i :: 0 <= i < |q.sysalloc| && q.sysalloc[i].Overlaps(search) ==>
      q.sysalloc[i].Intersect(search) == q.sysalloc[i].Intersect(area)
    ensures var next := Plain(search.begin, q.sysalloc[j].Intersect(search).begin - 1);
      forall i :: 0 <= i < |q.sysalloc| && q.sysalloc[i].Overlaps(next) ==>
        q.sysalloc[i].Intersect(next) == q.sysalloc[i].Intersect(area)
  {
  }

  /* ---- requests that cannot wrap around ---- */

  /** The bound within which no sum of addresses, sizes and alignments wraps around. */
  const SAFE: nat := 0x4000_0000_0000_0000

  /** The list of RAM and the reserved regions stay clear of the upper part of the address space. */
  ghost predicate LowLists(m: Memory)
    requires m.Valid()
    reads m, m.ram, m.ram.store, m.sysalloc, m.sysalloc.store, m.regions, m.regions.store
  {
    && (forall i :: 0 <= i < m.ram.len ==> m.ram.store[i].end < SAFE)
    && (forall i :: 0 <= i < m.regions.len ==> m.regions.store[i].end < SAFE)
  }

  /* The lists are distinct objects with distinct stores. */
  ghost predicate Separate(m: Memory)
    reads m
  {
    && m.ram != m.regions && m.sysalloc != m.regions
    && m.ram.store != m.regions.store && m.sysalloc.store != m.regions.store
  }

  /** Some block satisfies the request. */
  ghost predicate Possible(q: Request) {
    q.size > 0 && q.unit > 0 && exists a: nat {:trigger q.Usable(a)} :: q.Usable(a)
  }

  /* A request that cannot wrap around. */
  lemma AskIsSafe(m: Memory, size0: nat, minAddr: nat, align: nat)
    requires m.Valid() && LowLists(m) && 2 <= size0 <= SAFE && 0 < align <= SAFE / 2 && minAddr < SAFE
    ensures size0 + align <= TOP
    ensures m.Ask(size0, minAddr, TOP - 1, align).Valid() && m.Ask(size0, minAddr, TOP - 1, align).ForwardSafe()
    ensures RoundTo(size0, align) >= size0
  {
    RoundLeast(size0, align);
    hide RoundTo;
  }
}
