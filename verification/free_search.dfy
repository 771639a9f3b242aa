/** Aligned blocks in an area that no region of a list overlaps: what `find_free` and
    `find_free_rev` (server/src/region.cc) look for. */
module FreeSearch {
  import opened Arithmetic
  import opened Regions

  /** `l4_trunc_size` and `l4_round_size` to a unit, in 64 bits. */
  function TruncTo(x: nat, unit: nat): nat
    requires unit > 0
  {
    x - x % unit
  }

  function RoundTo(x: nat, unit: nat): nat
    requires unit > 0
  {
    TruncTo((x + unit - 1) % TOP, unit)
  }

  lemma TruncGreatest(x: nat, unit: nat)
    requires unit > 0
    ensures TruncTo(x, unit) <= x < TruncTo(x, unit) + unit && TruncTo(x, unit) % unit == 0
    ensures forall a: nat :: a % unit == 0 && a <= x ==> a <= TruncTo(x, unit)
  {
    var q := x / unit;
    assert x == q * unit + x % unit;
    MultipleModZero(q, unit);
    forall a: nat | a % unit == 0 && a <= x
      ensures a <= TruncTo(x, unit)
    {
      var k := a / unit;
      assert a == k * unit;
      if k > q {
        MulMonotone(q + 1, k, unit);
      }
      MulMonotone(if k < q then k else q, q, unit);
    }
  }

  lemma RoundLeast(x: nat, unit: nat)
    requires unit > 0 && x + unit - 1 < TOP
    ensures x <= RoundTo(x, unit) < x + unit && RoundTo(x, unit) % unit == 0
    ensures forall a: nat :: a % unit == 0 && x <= a ==> RoundTo(x, unit) <= a
  {
    TruncGreatest(x + unit - 1, unit);
    var t := TruncTo(x + unit - 1, unit);
    assert t == RoundTo(x, unit);
    forall a: nat | a % unit == 0 && x <= a
      ensures t <= a
    {
      if a < t {
        assert t - a < unit;
        NoMultipleBetween(a, t, unit);
      }
    }
  }

  /** The bytes `[a, a + size - 1]`. */
  function Block(a: nat, size: nat): Region
    requires size > 0
  {
    Plain(a, a + size - 1)
  }

  /** An aligned block inside `area` that no entry of `s` overlaps. */
  ghost predicate FreeAt(s: seq<Region>, area: Region, size: nat, unit: nat, a: nat)
    requires size > 0 && unit > 0
  {
    a % unit == 0 && area.Contains(Block(a, size)) && Clear(s, Block(a, size))
  }

  /** In bytes: all of them lie in the area, and none in an entry. */
  lemma FreeMeansBytes(s: seq<Region>, area: Region, size: nat, unit: nat, a: nat)
    requires size > 0 && unit > 0 && AllValid(s)
    ensures FreeAt(s, area, size, unit, a) <==>
      a % unit == 0 && forall x: nat :: a <= x < a + size ==> area.Holds(x) && !Covered(s, x)
  {
    var b := Block(a, size);
    if FreeAt(s, area, size, unit, a) {
      forall x: nat | a <= x < a + size
        ensures area.Holds(x) && !Covered(s, x)
      {
        assert forall i :: 0 <= i < |s| ==> !s[i].Overlaps(b);
      }
    }
    if forall x: nat :: a <= x < a + size ==> area.Holds(x) && !Covered(s, x) {
      assert area.Holds(a) && area.Holds(a + size - 1);
      forall i | 0 <= i < |s|
        ensures !s[i].Overlaps(b)
      {
        var x := if s[i].begin > a then s[i].begin else a;
        assert s[i].Overlaps(b) ==> a <= x < a + size && s[i].Holds(x) && Covered(s, x);
      }
    }
  }

  /** A search result: the lowest free block, or zero when there is none. */
  ghost predicate LowestFree(s: seq<Region>, area: Region, size: nat, unit: nat, r: nat)
    requires size > 0 && unit > 0
  {
    && (r != 0 ==> FreeAt(s, area, size, unit, r))
    && (forall a: nat :: FreeAt(s, area, size, unit, a) ==> r <= a && FreeAt(s, area, size, unit, r))
  }

  /** The mirror image: the highest free block, or zero when there is none. */
  ghost predicate HighestFree(s: seq<Region>, area: Region, size: nat, unit: nat, r: nat)
    requires size > 0 && unit > 0
  {
    && (r != 0 ==> FreeAt(s, area, size, unit, r))
    && (forall a: nat :: FreeAt(s, area, size, unit, a) ==> a <= r && FreeAt(s, area, size, unit, r))
  }

  /** The sums of the forward search stay below the top of the address space. */
  ghost predicate NoWrap(s: seq<Region>, area: Region, size: nat, unit: nat) {
    && area.begin + unit + size <= TOP
    && forall i :: 0 <= i < |s| && s[i].Overlaps(area) ==> s[i].end + 1 + unit + size <= TOP
  }

  /* ---- one step of the forward search ---- */

  /* A region that overlaps the lowest remaining candidate rules out every start up to its end. */
  lemma SkipForward(s: seq<Region>, area: Region, size: nat, unit: nat, start: nat, i: nat)
    requires size > 0 && unit > 0 && i < |s| && s[i].Overlaps(Block(start, size))
    requires forall a: nat :: FreeAt(s, area, size, unit, a) ==> start <= a
    ensures forall a: nat :: FreeAt(s, area, size, unit, a) ==> s[i].end + 1 <= a
  {
    forall a: nat | FreeAt(s, area, size, unit, a)
      ensures s[i].end + 1 <= a
    {
      assert !s[i].Overlaps(Block(a, size));
    }
  }

  /** The lowest candidate at or above `start` that no region overlaps is the lowest free block. */
  lemma ForwardMeaning(s: seq<Region>, area: Region, size: nat, unit: nat, start: nat)
    requires size > 0 && unit > 0 && area.begin <= start && start % unit == 0
    requires forall a: nat :: FreeAt(s, area, size, unit, a) ==> start <= a
    ensures start + size > area.end + 1 ==> LowestFree(s, area, size, unit, 0)
    ensures start + size <= area.end + 1 && Clear(s, Block(start, size)) ==> LowestFree(s, area, size, unit, start)
  {
  }
}
