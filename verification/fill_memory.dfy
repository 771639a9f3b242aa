/** Presetting physical memory (`fill_mem` in server/src/startup.cc). */
module FillMemory {
  import opened Arithmetic
  import opened Regions
  import opened RegionStore

  /** The byte at `x` is free RAM at or below `memEnd`. */
  ghost predicate Fillable(ram: seq<Region>, regions: seq<Region>, memEnd: nat, x: nat) {
    Covered(ram, x) && x <= memEnd && !Covered(regions, x)
  }

  /** A reserved region that reaches up to the top address begins in the working range of the RAM region `r`. */
  ghost predicate TopReserved(r: Region, regions: seq<Region>, memEnd: nat) {
    && r.begin <= memEnd
    && exists j :: 0 <= j < |regions| && regions[j].end == TOP - 1 && regions[j].begin <= Min(r.end, memEnd)
  }

  /** Then the cursor behind that region is zero, and everything from there up to the end of the working range
      is filled. */
  ghost predicate Overrun(ram: seq<Region>, regions: seq<Region>, memEnd: nat, x: nat) {
    exists k :: 0 <= k < |ram| && TopReserved(ram[k], regions, memEnd) && x <= Min(ram[k].end, memEnd)
  }

  /** Exactly the free RAM is filled if and only if no such region exists. */
  lemma FillExact(ram: seq<Region>, regions: seq<Region>, memEnd: nat)
    requires AllValid(regions)
    ensures (forall x: nat :: Overrun(ram, regions, memEnd, x) ==> Fillable(ram, regions, memEnd, x)) <==>
      forall k :: 0 <= k < |ram| ==> !TopReserved(ram[k], regions, memEnd)
  {
    if k :| 0 <= k < |ram| && TopReserved(ram[k], regions, memEnd) {
      var j :| 0 <= j < |regions| && regions[j].end == TOP - 1 && regions[j].begin <= Min(ram[k].end, memEnd);
      assert regions[j].Valid() && regions[j].Holds(regions[j].begin);
      assert Overrun(ram, regions, memEnd, regions[j].begin);
    }
  }

  class PhysicalMemory {
    const bytes: array<bv8>

    constructor (size: nat)
      ensures bytes.Length == size && fresh(bytes)
    {
      bytes := new bv8[size];
    }

    /** `verbose_memset`: set the bytes from `begin` up to and including `end`. */
    method Preset(begin: nat, end: nat, val: bv8)
      requires begin <= end < bytes.Length
      modifies bytes
      ensures forall x :: 0 <= x < bytes.Length ==> bytes[x] == if begin <= x <= end then val else old(bytes[x])
    {
      forall x | begin <= x <= end {
        bytes[x] := val;
      }
    }

    /** Fill the RAM at or below `memEnd` that no reserved region covers, and nothing else. */
    method FillMem(ram: RegionList, regions: RegionList, memEnd: nat, val: bv8)
      requires ram.Valid() && regions.Valid() && Sorted(ram.Contents()) && Sorted(regions.Contents())
      requires forall i :: 0 <= i < ram.len ==> ram.store[i].end < bytes.Length
      requires bytes as object != ram.store && bytes as object != regions.store
      modifies bytes
      ensures forall x :: 0 <= x < bytes.Length ==>
        bytes[x] == if Fillable(ram.Contents(), regions.Contents(), memEnd, x) ||
          Overrun(ram.Contents(), regions.Contents(), memEnd, x)
          then val else old(bytes[x])
    {
      hide Sorted, Covered, TopReserved;
      ghost var rs, gs := ram.Contents(), regions.Contents();
      var k := 0;
      assert rs[..0] == [];
      NothingCovered();
      while k != ram.len
        invariant k <= ram.len && ram.Valid() && regions.Valid()
        invariant ram.Contents() == rs && regions.Contents() == gs
        invariant forall x :: 0 <= x < bytes.Length ==>
          bytes[x] == if Fillable(rs[..k], gs, memEnd, x) || Overrun(rs[..k], gs, memEnd, x) then val else old(bytes[x])
        decreases ram.len - k
      {
        FillArea(ram, regions, k, memEnd, val);
        forall x: nat
          ensures Fillable(rs[..k + 1], gs, memEnd, x) <==>
            Fillable(rs[..k], gs, memEnd, x) || (rs[k].Holds(x) && Fillable(rs, gs, memEnd, x))
        {
          CoveredPrefix(rs, k, x);
        }
        forall x: nat
          ensures Overrun(rs[..k + 1], gs, memEnd, x) <==>
            Overrun(rs[..k], gs, memEnd, x) || (TopReserved(rs[k], gs, memEnd) && x <= Min(rs[k].end, memEnd))
        {
          OverrunPrefix(rs, k, gs, memEnd, x);
        }
        k := k + 1;
      }
      assert rs[..k] == rs;
    }

    /** One RAM region: the loop over the reserved regions and the rest behind them. */
    method FillArea(ram: RegionList, regions: RegionList, k: nat, memEnd: nat, val: bv8)
      requires ram.Valid() && regions.Valid() && Sorted(regions.Contents())
      requires k < ram.len && ram.store[k].end < bytes.Length
      requires bytes as object != ram.store && bytes as object != regions.store
      modifies bytes
      ensures forall x :: 0 <= x < bytes.Length ==>
        bytes[x] == if (ram.store[k].Holds(x) && Fillable(ram.Contents(), regions.Contents(), memEnd, x))
          || (TopReserved(ram.store[k], regions.Contents(), memEnd) && x <= Min(ram.store[k].end, memEnd))
          then val else old(bytes[x])
    {
      hide Sorted, Covered, TopReserved;
      ghost var gs := regions.Contents();
      var begin, end := ram.store[k].begin, ram.store[k].end;
      CoveredWithin(ram.Contents(), k);
      TopStarts(ram.store[k], gs, memEnd);
      if begin > memEnd {
        return;
      }
      if end > memEnd {
        end := memEnd;
      }
      ghost var first := begin;
      ghost var top := false;
      var j := 0;
      while j != regions.len
        invariant j <= regions.len && begin < TOP && regions.Valid() && regions.Contents() == gs
        invariant top ==> j == regions.len && begin == 0 && TopReserved(ram.store[k], gs, memEnd)
        invariant !top ==> first <= begin && forall i :: 0 <= i < j ==> gs[i].end < begin
        invariant forall x :: 0 <= x < bytes.Length && (!top || end < x) ==>
          bytes[x] == if first <= x < begin && x <= end && !Covered(gs, x) then val else old(bytes[x])
        decreases regions.len - j
      {
        var g := regions.store[j];
        if g.end < begin {
          j := j + 1;
          continue;
        }
        if g.begin > end {
          break;
        }
        if g.begin > begin {
          NotCoveredBefore(gs, j, begin);
          Preset(begin, g.begin - 1, val);
        }
        CoveredWithin(gs, j);
        if j + 1 < regions.len {
          NotLast(gs, j);
        }
        if g.end == TOP - 1 {
          top := true;
          TopHere(ram.store[k], gs, memEnd, j);
        }
        begin := (g.end + 1) % TOP;
        j := j + 1;
      }
      if !top {
        NotTop(ram.store[k], gs, memEnd, j, begin, end);
      }
      if begin <= end {
        if !top {
          NotCoveredAfter(gs, j, begin, end);
        }
        Preset(begin, end, val);
      }
    }
  }

  lemma OverrunPrefix(s: seq<Region>, k: nat, regions: seq<Region>, memEnd: nat, x: nat)
    requires k < |s|
    ensures Overrun(s[..k + 1], regions, memEnd, x) <==>
      Overrun(s[..k], regions, memEnd, x) || (TopReserved(s[k], regions, memEnd) && x <= Min(s[k].end, memEnd))
  {
    hide TopReserved;
    assert s[..k + 1][k] == s[k] && forall i :: 0 <= i < k ==> s[..k + 1][i] == s[..k][i];
  }

  /* Only the last region can end at the top. */
  lemma NotLast(s: seq<Region>, j: nat)
    requires Sorted(s) && j + 1 < |s|
    ensures s[j].end < TOP - 1
  {
    assert s[j].end < s[j + 1].begin <= s[j + 1].end < TOP;
  }

  lemma TopStarts(r: Region, s: seq<Region>, memEnd: nat)
    ensures TopReserved(r, s, memEnd) ==> r.begin <= memEnd
  {
  }

  lemma TopHere(r: Region, s: seq<Region>, memEnd: nat, j: nat)
    requires j < |s| && s[j].end == TOP - 1 && s[j].begin <= Min(r.end, memEnd) && r.begin <= memEnd
    ensures TopReserved(r, s, memEnd)
  {
  }

  lemma NotTop(r: Region, s: seq<Region>, memEnd: nat, j: nat, begin: nat, end: nat)
    requires Sorted(s) && j <= |s| && begin < TOP && end == Min(r.end, memEnd)
    requires (forall i :: 0 <= i < j ==> s[i].end < begin) && (j < |s| ==> s[j].begin > end)
    ensures !TopReserved(r, s, memEnd)
  {
  }

  lemma NothingCovered()
    ensures forall x: nat :: !Covered([], x)
  {
  }

  lemma CoveredPrefix(s: seq<Region>, k: nat, x: nat)
    requires k < |s|
    ensures Covered(s[..k + 1], x) <==> Covered(s[..k], x) || s[k].Holds(x)
    ensures s[k].Holds(x) ==> Covered(s, x)
  {
    if Covered(s[..k + 1], x) {
      var i :| 0 <= i < k + 1 && s[..k + 1][i].Holds(x);
      assert i < k ==> s[..k][i].Holds(x);
    }
    if Covered(s[..k], x) {
      var i :| 0 <= i < k && s[..k][i].Holds(x);
      assert s[..k + 1][i].Holds(x);
    }
    assert s[..k + 1][k] == s[k];
  }

  /* Between the cursor and the next region nothing is covered. */
  lemma NotCoveredBefore(s: seq<Region>, j: nat, begin: nat)
    requires Sorted(s) && j < |s| && forall i :: 0 <= i < j ==> s[i].end < begin
    ensures forall x: nat :: begin <= x < s[j].begin ==> !Covered(s, x)
  {
  }

  lemma CoveredWithin(s: seq<Region>, j: nat)
    requires j < |s|
    ensures forall x: nat :: s[j].begin <= x <= s[j].end ==> Covered(s, x)
  {
  }

  lemma NotCoveredAfter(s: seq<Region>, j: nat, begin: nat, end: nat)
    requires Sorted(s) && j <= |s| && (forall i :: 0 <= i < j ==> s[i].end < begin)
    requires j < |s| ==> s[j].begin > end
    ensures forall x: nat :: begin <= x <= end ==> !Covered(s, x)
  {
  }
}
