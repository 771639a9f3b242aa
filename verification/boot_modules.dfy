/** Moving the boot modules (`_move_module`, `calc_modules_size` and `move_modules` in
    server/src/boot_modules.cc). */
module BootModules {
  import opened Options
  import opened Regions
  import opened RegionLists
  import opened FreeSearch
  import opened MemoryManager
  import opened CopySchedule
  import opened ModuleOrder
  import opened ModulePlans

  /** Modules of at least one byte, on pages of their own, within memory, and without a common byte. */
  ghost predicate ModulesValid(mods: seq<Module>, limit: nat) {
    && (forall i :: 0 <= i < |mods| ==>
      0 < mods[i].size && PageAligned(mods[i].start) && mods[i].start + mods[i].size <= limit)
    && (forall i, j :: 0 <= i < j < |mods| ==>
        mods[i].start + mods[i].size <= mods[j].start || mods[j].start + mods[j].size <= mods[i].start)
  }

  /* ---- the targets ---- */

  ghost function Slots(mods: seq<Module>, order: seq<nat>, to: nat): (s: seq<Slot>)
    requires forall k :: 0 <= k < |order| ==> order[k] < |mods|
    ensures |s| == |order|
    ensures forall k :: 0 <= k < |s| ==> s[k] == SlotAt(mods, order, to, k)
  {
    seq(|order|, k requires 0 <= k < |order| &&
      (forall i :: 0 <= i < |order| ==> order[i] < |mods|) => SlotAt(mods, order, to, k))
  }

  ghost function SlotAt(mods: seq<Module>, order: seq<nat>, to: nat, k: nat): Slot
    requires k < |order| && forall i :: 0 <= i < |order| ==> order[i] < |mods|
  {
    Slot(order[k], mods[order[k]], to + Sum(mods, order[..k]), to + Sum(mods, order[..k + 1]))
  }

  lemma {:induction false} TargetAligned(mods: seq<Module>, order: seq<nat>, to: nat, k: nat)
    requires (forall i :: 0 <= i < |order| ==> order[i] < |mods|) && k <= |order| && PageAligned(to)
    requires forall i :: 0 <= i < |mods| ==> mods[i].size + PAGE <= TOP
    ensures PageAligned(to + Sum(mods, order[..k]))
  {
    hide PageRound, PageAligned;
    if k == 0 {
      assert order[..0] == [];
    } else {
      hide Sum;
      TargetAligned(mods, order, to, k - 1);
      SumNext(mods, order, k - 1);
      PageRoundFacts(mods[order[k - 1]].size);
      PageSteps(to + Sum(mods, order[..k - 1]), PageRound(mods[order[k - 1]].size));
    }
  }

  lemma SizesBounded(mods: seq<Module>, size: nat)
    requires ModulesValid(mods, size) && size + PAGE <= TOP
    ensures forall i :: 0 <= i < |mods| ==> mods[i].size + PAGE <= TOP
  {
  }

  lemma TargetFits(index: nat, m: Module, dst: nat, size: nat)
    requires 0 < m.size && m.start + m.size <= size && size + PAGE <= TOP
    requires 0 < dst && PageAligned(dst) && dst + PageRound(m.size) <= size
    ensures Slot(index, m, dst, dst + PageRound(m.size)).Fits(size)
  {
    hide PageRound, PageAligned;
    PageRoundFacts(m.size);
    PageRoundAdd(dst, m.size);
  }

  /* A module and its target, given where the target starts. */
  lemma SlotFits(mods: seq<Module>, order: seq<nat>, to: nat, k: nat, size: nat)
    requires ModulesValid(mods, size) && (forall i :: 0 <= i < |order| ==> order[i] < |mods|) && size + PAGE <= TOP
    requires k < |order| && 0 < to && PageAligned(to) && to + Sum(mods, order) <= size
    ensures SlotAt(mods, order, to, k).Fits(size)
    ensures to <= SlotAt(mods, order, to, k).dst && SlotAt(mods, order, to, k).end <= to + Sum(mods, order)
    ensures SlotAt(mods, order, to, k).end == SlotAt(mods, order, to, k).dst + PageRound(mods[order[k]].size)
    ensures PageAligned(SlotAt(mods, order, to, k).dst)
  {
    hide Sum, PageRound, PageAligned, ModulesValid, Slot.Fits;
    var m := mods[order[k]];
    StartsWithin(mods, order[k], size);
    SumNext(mods, order, k);
    SumGrows(mods, order, k + 1, |order|);
    assert order[..|order|] == order;
    SizesBounded(mods, size);
    TargetAligned(mods, order, to, k);
    TargetFits(order[k], m, to + Sum(mods, order[..k]), size);
  }

  /** Consecutive modules do not share a page, so each lies further ahead of its target than the
      one before. */
  lemma NextInOrder(mods: seq<Module>, order: seq<nat>, to: nat, k: nat, size: nat)
    requires ModulesValid(mods, size) && IsOrder(mods, order, |mods|) && size + PAGE <= TOP
    requires k + 1 < |order| && 0 < to && PageAligned(to) && to + Sum(mods, order) <= size
    ensures |order| == |mods| && forall i :: 0 <= i < |order| ==> order[i] < |mods|
    ensures var a, b := SlotAt(mods, order, to, k), SlotAt(mods, order, to, k + 1);
      InOrder(a, b) && a.end == b.dst
  {
    hide Sum, PageRound, PageAligned, ModulesValid, IsOrder;
    OrderInRange(mods, order);
    OrderDistinct(mods, order, |mods|, k, k + 1);
    SlotFits(mods, order, to, k, size);
    var a, b := mods[order[k]], mods[order[k + 1]];
    StartsApart(mods, order[k], order[k + 1], size);
    assert a.start <= b.start by { OrderStep(mods, order, k); }
    PageSteps(b.start, a.start);
    PagesApart(a.size, b.start - a.start);
    assert to + Sum(mods, order[..k + 1]) == SlotAt(mods, order, to, k).end;
  }

  lemma OrderStep(mods: seq<Module>, order: seq<nat>, k: nat)
    requires IsOrder(mods, order, |mods|) && k + 1 < |order|
    ensures order[k] < |mods| && order[k + 1] < |mods| && mods[order[k]].start <= mods[order[k + 1]].start
  {
  }

  lemma OrderInRange(mods: seq<Module>, order: seq<nat>)
    requires IsOrder(mods, order, |mods|)
    ensures |order| == |mods| && forall i :: 0 <= i < |order| ==> order[i] < |mods|
  {
  }

  lemma StartsWithin(mods: seq<Module>, i: nat, size: nat)
    requires ModulesValid(mods, size) && i < |mods|
    ensures 0 < mods[i].size <= size && mods[i].start + mods[i].size <= size
  {
  }

  lemma StartsApart(mods: seq<Module>, i: nat, j: nat, size: nat)
    requires ModulesValid(mods, size) && i < |mods| && j < |mods| && i != j
    ensures mods[i].start + mods[i].size <= mods[j].start || mods[j].start + mods[j].size <= mods[i].start
    ensures 0 < mods[i].size && 0 < mods[j].size && PageAligned(mods[i].start) && PageAligned(mods[j].start)
    ensures mods[i].size <= size
  {
  }

  lemma PagesApart(size: nat, distance: nat)
    requires size <= distance && PageAligned(distance) && size + PAGE <= TOP
    ensures size <= PageRound(size) <= distance
  {
    RoundLeast(size, PAGE);
  }

  lemma {:induction false} SlotsInOrder(mods: seq<Module>, order: seq<nat>, to: nat, i: nat, j: nat, size: nat)
    requires ModulesValid(mods, size) && IsOrder(mods, order, |mods|) && size + PAGE <= TOP
    requires i < j < |order| && 0 < to && PageAligned(to) && to + Sum(mods, order) <= size
    ensures InOrder(SlotAt(mods, order, to, i), SlotAt(mods, order, to, j))
    decreases j
  {
    hide Sum, PageRound, PageAligned;
    NextInOrder(mods, order, to, j - 1, size);
    if i < j - 1 {
      SlotsInOrder(mods, order, to, i, j - 1, size);
      SlotFits(mods, order, to, j - 1, size);
      OrderDistinct(mods, order, |mods|, i, j);
    }
  }

  /** The targets, one behind the other, make a proper layout. */
  lemma SlotsLayout(mods: seq<Module>, order: seq<nat>, to: nat, size: nat)
    requires ModulesValid(mods, size) && IsOrder(mods, order, |mods|) && size + PAGE <= TOP
    requires 0 < to && PageAligned(to) && to + Sum(mods, order) <= size
    ensures Layout(Slots(mods, order, to), size)
    ensures mods != [] ==> var s := Slots(mods, order, to);
      s[0].dst == to && s[|s| - 1].end == to + Sum(mods, order)
  {
    var s := Slots(mods, order, to);
    forall k | 0 <= k < |s|
      ensures s[k].Fits(size)
    {
      SlotFits(mods, order, to, k, size);
    }
    forall i, j | 0 <= i < j < |s|
      ensures InOrder(s[i], s[j])
    {
      SlotsInOrder(mods, order, to, i, j, size);
    }
    assert order[..0] == [] && order[..|order|] == order;
  }

  /* ---- what the whole operation achieves ---- */

  /** A module at its new place: whole, on pages of its own within the block, and followed by zeros
      up to the end of its last page unless it did not have to be moved. */
  ghost predicate Settled(m: Module, n: Module, was: seq<bv8>, now: seq<bv8>, block: Region) {
    && n == m.(start := n.start) && n.start % 0x1000 == 0
    && block.begin <= n.start && n.start + PageRound(n.size) <= block.end + 1
    && m.start + m.size <= |was| && m.size <= PageRound(m.size) && n.start + PageRound(m.size) <= |now|
    && now[n.start..n.start + m.size] == was[m.start..m.start + m.size]
    && (n.start != m.start ==> now[n.start + m.size..n.start + PageRound(m.size)] == Zeros(PageRound(m.size) - m.size))
  }

  /** All modules are at their new places, in the order they had, and no byte outside the block was
      written. */
  ghost predicate AllSettled(mods: seq<Module>, after: seq<Module>, was: seq<bv8>, now: seq<bv8>, block: Region) {
    && |after| == |mods| && |now| == |was|
    && (forall i :: 0 <= i < |mods| ==> Settled(mods[i], after[i], was, now, block))
    && (forall i, j :: 0 <= i < |mods| && 0 <= j < |mods| && mods[i].start < mods[j].start ==>
        after[i].start + PageRound(after[i].size) <= after[j].start)
    && (forall x :: 0 <= x < |was| && !block.Holds(x) ==> now[x] == was[x])
  }

  /** The entries kept, and one for every module of more than one byte. */
  ghost predicate KeptAndReserved(kept: seq<Region>, after: seq<Module>, entries: seq<Region>) {
    && Sorted(entries)
    && (forall e :: e in entries <==> e in kept || ReservesOne(after, e))
  }

  /** The entries there were, except for those of boot modules, and one for every module of more than one byte. */
  ghost predicate ModulesReserved(before: seq<Region>, after: seq<Module>, entries: seq<Region>) {
    && Sorted(entries)
    && (forall e :: e in entries <==> (e in before && e.name != MOD_REG) || ReservesOne(after, e))
  }

  lemma KeptAreOthers(before: seq<Region>, after: seq<Module>, entries: seq<Region>)
    requires KeptAndReserved(Remaining(before, IsModRegion), after, entries)
    ensures ModulesReserved(before, after, entries)
  {
    hide Sorted, ReservesOne;
    forall e
      ensures e in Remaining(before, IsModRegion) <==> e in before && e.name != MOD_REG
    {
      RemainingMeaning(before, IsModRegion, e);
    }
  }

  ghost predicate ReservesOne(after: seq<Module>, e: Region) {
    exists i :: 0 <= i < |after| && after[i].size > 1 && e == ModuleEntry(after[i])
  }

  /** The entry that covers a module from its first to its last byte, with its own attributes. */
  ghost function ModuleEntry(m: Module): Region
    requires m.size > 0
  {
    Region(m.start, m.start + m.size - 1, m.name, m.kind, m.sub, false)
  }

  /** Afterwards every byte of every module of more than one byte is reserved. */
  lemma ModulesCovered(before: seq<Region>, after: seq<Module>, entries: seq<Region>, i: nat, x: nat)
    requires ModulesReserved(before, after, entries) && i < |after| && after[i].size > 1
    requires after[i].start <= x < after[i].start + after[i].size
    ensures Covered(entries, x)
  {
    assert ReservesOne(after, ModuleEntry(after[i]));
    var k :| 0 <= k < |entries| && entries[k] == ModuleEntry(after[i]);
    assert entries[k].Holds(x);
  }

  /* The position of module `i` in the order. */
  lemma PositionOf(mods: seq<Module>, order: seq<nat>, i: nat) returns (k: nat)
    requires IsOrder(mods, order, |mods|) && i < |mods|
    ensures k < |order| && order[k] == i
  {
    OrderMember(mods, order, |mods|, i);
    k :| 0 <= k < |order| && order[k] == i;
  }

  lemma SlotSettled(s: Slot, m: Module, n: Module, was: seq<bv8>, now: seq<bv8>, block: Region)
    requires |now| == |was| && s.Fits(|was|) && s.m == m && n == m.(start := s.dst) && |was| + PAGE <= TOP
    requires now[s.dst..s.dst + |s.Image(was)|] == s.Image(was)
    requires block.begin <= s.dst && s.end <= block.end + 1 && s.end == s.dst + PageRound(m.size) && PageAligned(s.dst)
    ensures Settled(m, n, was, now, block)
  {
    hide PageRound;
    PageRoundFacts(m.size);
    SplitImage(now, s.dst, was[m.start..m.start + m.size],
      Zeros(if m.start == s.dst then 0 else s.end - (s.dst + m.size)));
  }

  lemma SplitImage(now: seq<bv8>, at: nat, a: seq<bv8>, z: seq<bv8>)
    requires at + |a + z| <= |now| && now[at..at + |a + z|] == a + z
    ensures now[at..at + |a|] == a && now[at + |a|..at + |a| + |z|] == z
  {
    assert now[at..at + |a|] == now[at..at + |a + z|][..|a|];
    assert now[at + |a|..at + |a| + |z|] == now[at..at + |a + z|][|a|..];
  }

  lemma StageAt(s: seq<Slot>, was: seq<bv8>, w: World, kept: State, k: nat)
    requires Layout(s, |was|) && Stage(s, was, w, kept, 0, |s|) && k < |s|
    ensures |w.bytes| == |was| && s[k].index < |w.mods| && w.mods[s[k].index] == s[k].m.(start := s[k].dst)
    ensures s[k].Fits(|was|) && s[k].dst + |s[k].Image(was)| <= |was|
    ensures w.bytes[s[k].dst..s[k].dst + |s[k].Image(was)|] == s[k].Image(was)
  {
    hide PageRound, RegionsStage, Slot.Image, Slot.Fits, InOrder, Touched;
    assert Jobs(s, was)[k] == s[k].Copy(was);
  }

  lemma ModuleSettled(mods: seq<Module>, order: seq<nat>, to: nat, was: seq<bv8>, w: World, kept: State, k: nat)
    requires ModulesValid(mods, |was|) && IsOrder(mods, order, |mods|) && |was| + PAGE <= TOP
    requires 0 < to && PageAligned(to) && to + Sum(mods, order) <= |was| && k < |order|
    requires Layout(Slots(mods, order, to), |was|) && Stage(Slots(mods, order, to), was, w, kept, 0, |order|)
    ensures |w.bytes| == |was| && order[k] < |mods| && order[k] < |w.mods|
    ensures w.mods[order[k]] == mods[order[k]].(start := SlotAt(mods, order, to, k).dst)
    ensures Settled(mods[order[k]], w.mods[order[k]], was, w.bytes, Plain(to, to + Sum(mods, order) - 1))
  {
    hide Sum, PageRound, PageAligned, ModulesValid, Stage, Layout, Slot.Image, Settled, IsOrder, Slot.Fits;
    OrderInRange(mods, order);
    SlotFits(mods, order, to, k, |was|);
    var s := Slots(mods, order, to);
    StageAt(s, was, w, kept, k);
    assert s[k] == SlotAt(mods, order, to, k);
    SlotSettled(s[k], mods[order[k]], w.mods[order[k]], was, w.bytes, Plain(to, to + Sum(mods, order) - 1));
  }

  lemma UntouchedOutside(s: seq<Slot>, was: seq<bv8>, now: seq<bv8>, block: Region)
    requires Layout(s, |was|) && Progress(was, now, Jobs(s, was), 0, |s|)
    requires forall k :: 0 <= k < |s| ==> block.begin <= s[k].dst && s[k].end <= block.end + 1
    ensures forall x :: 0 <= x < |was| && !block.Holds(x) ==> now[x] == was[x]
  {
    hide PageRound;
    forall x | 0 <= x < |was| && !block.Holds(x)
      ensures !Touched(Jobs(s, was), 0, |s|, x)
    {
      forall k | 0 <= k < |s|
        ensures !Jobs(s, was)[k].Writes(x)
      {
        JobShape(s, was, k);
      }
    }
  }

  lemma OrderPosition(mods: seq<Module>, order: seq<nat>, k: nat, l: nat)
    requires IsOrder(mods, order, |mods|) && k < |order| && l < |order|
    ensures order[k] < |mods| && order[l] < |mods|
    ensures mods[order[k]].start < mods[order[l]].start ==> k < l
  {
  }

  /** When every module has been moved, all is well. */
  lemma FinalStage(mods: seq<Module>, order: seq<nat>, to: nat, was: seq<bv8>, w: World, kept: State)
    requires ModulesValid(mods, |was|) && IsOrder(mods, order, |mods|) && |was| + PAGE <= TOP && |w.mods| == |mods|
    requires 0 < to && PageAligned(to) && to + Sum(mods, order) <= |was| && mods != []
    requires Layout(Slots(mods, order, to), |was|) && Stage(Slots(mods, order, to), was, w, kept, 0, |order|)
    ensures AllSettled(mods, w.mods, was, w.bytes, Plain(to, to + Sum(mods, order) - 1))
    ensures KeptAndReserved(kept.entries, w.mods, w.regions.entries)
  {
    hide Sum, PageRound, PageAligned, ModulesValid, Settled, IsOrder, Layout, Stage, Slot.Fits;
    OrderInRange(mods, order);
    var s := Slots(mods, order, to);
    var block := Plain(to, to + Sum(mods, order) - 1);
    forall i | 0 <= i < |mods|
      ensures Settled(mods[i], w.mods[i], was, w.bytes, block)
    {
      var k := PositionOf(mods, order, i);
      ModuleSettled(mods, order, to, was, w, kept, k);
    }
    forall i, j | 0 <= i < |mods| && 0 <= j < |mods| && mods[i].start < mods[j].start
      ensures w.mods[i].start + PageRound(w.mods[i].size) <= w.mods[j].start
    {
      var k := PositionOf(mods, order, i);
      var l := PositionOf(mods, order, j);
      ModuleSettled(mods, order, to, was, w, kept, k);
      ModuleSettled(mods, order, to, was, w, kept, l);
      OrderPosition(mods, order, k, l);
      SlotFits(mods, order, to, k, |was|);
      SlotsInOrder(mods, order, to, k, l, |was|);
    }
    forall k | 0 <= k < |s|
      ensures block.begin <= s[k].dst && s[k].end <= block.end + 1
    {
      SlotFits(mods, order, to, k, |was|);
    }
    StageParts(s, was, w, kept);
    UntouchedOutside(s, was, w.bytes, block);
    forall e
      ensures ReservesOne(w.mods, e) <==> Placed(s, 0, |s|, e)
    {
      FinalRegions(mods, order, to, was, w, kept, e);
    }
  }

  lemma StageParts(s: seq<Slot>, was: seq<bv8>, w: World, kept: State)
    requires Layout(s, |was|) && Stage(s, was, w, kept, 0, |s|)
    ensures |w.bytes| == |was| && Progress(was, w.bytes, Jobs(s, was), 0, |s|)
    ensures RegionsStage(s, w.regions, kept, 0, |s|)
  {
  }

  lemma FinalRegions(mods: seq<Module>, order: seq<nat>, to: nat, was: seq<bv8>, w: World, kept: State, e: Region)
    requires IsOrder(mods, order, |mods|) && |w.mods| == |mods|
    requires Layout(Slots(mods, order, to), |was|) && Stage(Slots(mods, order, to), was, w, kept, 0, |order|)
    ensures ReservesOne(w.mods, e) <==> Placed(Slots(mods, order, to), 0, |order|, e)
  {
    hide Sum, PageRound, IsOrder, RegionsStage, Progress;
    OrderInRange(mods, order);
    var s := Slots(mods, order, to);
    if ReservesOne(w.mods, e) {
      var i :| 0 <= i < |w.mods| && w.mods[i].size > 1 && e == ModuleEntry(w.mods[i]);
      var k := PositionOf(mods, order, i);
      assert s[k].index == i;
      assert e == s[k].Reserved();
    }
    if Placed(s, 0, |order|, e) {
      var k :| 0 <= k < |order| && s[k].m.size > 1 && e == s[k].Reserved();
      assert w.mods[s[k].index] == s[k].m.(start := s[k].dst);
    }
  }

  predicate IsModRegion(r: Region) { r.name == MOD_REG }

  /** The boot modules in physical memory, and the region lists. */
  class ModuleMemory {
    const memory: Memory
    const bytes: array<bv8>
    const sorter: ModuleSorter
    var mods: seq<Module>

    ghost predicate Valid()
      reads this, bytes, sorter, sorter.slots, memory, memory.ram, memory.ram.store,
        memory.sysalloc, memory.sysalloc.store, memory.regions, memory.regions.store
    {
      && memory.Valid() && Separate(memory) && sorter.Valid() && bytes.Length + PAGE <= TOP
      && bytes as object != memory.ram.store && bytes as object != memory.sysalloc.store &&
        bytes as object != memory.regions.store
      && sorter.slots as object != memory.ram.store && sorter.slots as object != memory.sysalloc.store
      && sorter.slots as object != memory.regions.store && sorter.slots as object != bytes
    }

    ghost function Now(): World
      reads this, bytes, memory, memory.regions, memory.regions.store
      requires memory.regions.len <= memory.regions.store.Length
    {
      World(bytes[..], mods, memory.regions.Abstract())
    }

    constructor (memory: Memory, bytes: array<bv8>, mods: seq<Module>)
      ensures this.memory == memory && this.bytes == bytes && this.mods == mods
      ensures fresh(sorter) && fresh(sorter.slots) && sorter.Valid() && sorter.Contents() == []
    {
      this.memory, this.bytes, this.mods := memory, bytes, mods;
      sorter := new ModuleSorter();
    }

    /** Move one module and reserve its new place; false when the program panics. */
    method MoveModule(index: nat, dest: nat) returns (ok: bool)
      requires Valid() && CanMove(Now(), index, dest) && memory.regions.len < memory.regions.store.Length
      modifies this`mods, bytes, memory.regions, memory.regions.store
      ensures Valid()
      ensures ok <==>
        MoveStep(old(Now()), memory.ram.Contents(), memory.regions.store.Length, memory.regions.limits, index,
          dest).Some?
      ensures ok ==>
        MoveStep(old(Now()), memory.ram.Contents(), memory.regions.store.Length, memory.regions.limits, index, dest) ==
          Some(Now())
    {
      hide AddStep, Sorted, Clear, PageRound, MovedBytes, FirstContaining, FirstOverlap, Region.Overlaps,
        Region.Contains;
      ghost var was := bytes[..];
      var m := mods[index];
      if m.start != dest {
        var inRam := memory.ram.ContainsRegion(Plain(dest, dest));
        if inRam.None? {
          return false;
        }
        var overlap := memory.regions.Find(Plain(dest, dest));
        if overlap.Some? {
          NotClear(memory.regions.Contents(), Plain(dest, dest), overlap.value);
          return false;
        }
        CopyAndClear(m, dest);
      }
      MovedNowhere(was, m, dest);
      ok := memory.regions.AddRegion(m.At(dest), false);
      mods := mods[index := m.(start := dest)];
    }

    /* `memmove` of the module, and `memset` of the rest of its last page. */
    method CopyAndClear(m: Module, dest: nat)
      requires m.start + m.size <= bytes.Length <= TOP && m.start != dest
      requires dest + m.size <= PageRound(dest + m.size) <= bytes.Length
      modifies bytes
      ensures bytes[..] == MovedBytes(old(bytes[..]), m, dest)
    {
      hide PageRound, Overwrite;
      ghost var was := bytes[..];
      var end := PageRound(dest + m.size);
      forall i | 0 <= i < m.size {
        bytes[dest + i] := bytes[m.start + i];
      }
      forall i | dest + m.size <= i < end {
        bytes[i] := 0;
      }
      OverwriteIs(was, bytes[..], dest, was[m.start..m.start + m.size] + Zeros(end - (dest + m.size)));
    }

    /** The bytes that all modules take up. */
    method CalcModulesSize() returns (s: nat)
      requires ModulesValid(mods, bytes.Length) && bytes.Length + PAGE <= TOP
      requires Sum(mods, Indices(|mods|)) < TOP
      ensures s == Sum(mods, Indices(|mods|))
    {
      hide Sum, PageRound;
      s := 0;
      var i := 0;
      IndicesNone(mods);
      while i < |mods|
        invariant i <= |mods| && s == Sum(mods, Indices(i))
      {
        SumPrefix(mods, i);
        SumOfFirst(mods, i + 1);
        s := (s + PageRound(mods[i].size)) % TOP;
        i := i + 1;
      }
    }

    /* Put all modules into the sorter. */
    method SortModules() returns (ok: bool)
      requires Valid() && sorter.Contents() == []
      modifies sorter, sorter.slots
      ensures Valid() && ok == (|mods| <= 256)
      ensures ok ==> IsOrder(mods, sorter.Contents(), |mods|)
      ensures ok ==> Sum(mods, sorter.Contents()) == Sum(mods, Indices(|mods|))
    {
      hide Sum, OrderInsert, Sorted;
      var i := 0;
      OrderNone(mods);
      IndicesNone(mods);
      while i < |mods|
        invariant i <= |mods| && i <= 256 && Valid() && IsOrder(mods, sorter.Contents(), i)
        invariant Sum(mods, sorter.Contents()) == Sum(mods, Indices(i))
      {
        OrderNext(mods, sorter.Contents(), i);
        OrderLength(mods, sorter.Contents(), i);
        SumPrefix(mods, i);
        ok := sorter.InsertSorted(mods, i);
        if !ok {
          return false;
        }
        i := i + 1;
      }
      return true;
    }

    /** The run is under way: the modules `a` up to `b` from below are at their targets. */
    ghost predicate Running(s: seq<Slot>, was: seq<bv8>, kept: State, a: nat, b: nat)
      requires Valid()
      reads this, bytes, sorter, sorter.slots, memory, memory.ram, memory.ram.store,
        memory.sysalloc, memory.sysalloc.store, memory.regions, memory.regions.store
    {
      && s != [] && Layout(s, |was|) && |was| == bytes.Length && Stage(s, was, Now(), kept, a, b)
      && Room(s, memory.ram.Contents(), kept, memory.regions.store.Length, memory.regions.limits)
      && sorter.len == |s| && (forall k :: 0 <= k < |s| ==> sorter.slots[k] == s[k].index)
    }

    /* One step of either loop. */
    method MoveNext(ghost s: seq<Slot>, ghost was: seq<bv8>, ghost kept: State, ghost a: nat, ghost b: nat, k: nat,
        dest: nat)
      requires Valid() && Running(s, was, kept, a, b)
      requires k < |s| && (k == b || k + 1 == a) && Spared(Jobs(s, was), a, b, k) && dest == s[k].dst
      modifies this`mods, bytes, memory.regions, memory.regions.store
      ensures Valid() && |mods| == |old(mods)|
      ensures Running(s, was, kept, if k == b then a else k, if k == b then b + 1 else b)
    {
      hide Layout, Stage, Room, MoveStep, CanMove, Spared, Sorted;
      StageStep(s, was, Now(), kept, memory.ram.Contents(), memory.regions.store.Length, memory.regions.limits, a, b,
        k);
      SpareRoom(s, was, Now(), kept, memory.ram.Contents(), memory.regions.store.Length, memory.regions.limits, a, b,
        k);
      SameCount(Now(), memory.ram.Contents(), memory.regions.store.Length, memory.regions.limits, s[k].index, s[k].dst);
      var ok := MoveModule(sorter.slots[k], dest);
    }

    /** The first module that has to move down, and its target. */
    method FindSplit(to: nat, ghost s: seq<Slot>, ghost was: seq<bv8>, ghost kept: State) returns (e: nat, cursor: nat)
      requires Valid() && Running(s, was, kept, 0, 0) && Tiled(s, to)
      ensures s != [] && e <= |s| && Split(s, e) && cursor == if e < |s| then s[e].dst else s[|s| - 1].end
    {
      hide Layout, Stage, Room, PageRound;
      cursor := to;
      e := 0;
      while e < sorter.len
        invariant e <= sorter.len && cursor == if e < |s| then s[e].dst else s[|s| - 1].end
        invariant forall k :: 0 <= k < e ==> s[k].m.start <= s[k].dst
      {
        PendingModule(s, was, Now(), kept, 0, 0, e);
        var m := mods[sorter.slots[e]];
        if cursor < m.start {
          break;
        }
        cursor := cursor + PageRound(m.size);
        e := e + 1;
      }
    }

    /** Move modules up, in reverse order. */
    method MoveUp(e: nat, cursor: nat, to: nat, ghost s: seq<Slot>, ghost was: seq<bv8>, ghost kept: State)
      requires Valid() && Running(s, was, kept, e, e) && Tiled(s, to) && Split(s, e)
      requires s != [] && cursor == if e < |s| then s[e].dst else s[|s| - 1].end
      modifies this`mods, bytes, memory.regions, memory.regions.store
      ensures Valid() && |mods| == |old(mods)| && Running(s, was, kept, 0, e)
    {
      hide Layout, Stage, Room, PageRound, Sorted;
      var at := cursor;
      var i := e;
      while i > 0
        invariant 0 <= i <= e && Valid() && |mods| == |old(mods)| && Running(s, was, kept, i, e)
        invariant at == if i < |s| then s[i].dst else s[|s| - 1].end
        decreases i
      {
        i := i - 1;
        PendingModule(s, was, Now(), kept, i + 1, e, i);
        at := at - PageRound(mods[sorter.slots[i]].size);
        UpSpares(s, was, e, i);
        MoveNext(s, was, kept, i + 1, e, i, at);
      }
    }

    /** Move modules down, in order. */
    method MoveDown(e: nat, cursor0: nat, to: nat, ghost s: seq<Slot>, ghost was: seq<bv8>, ghost kept: State)
      requires Valid() && Running(s, was, kept, 0, e) && Tiled(s, to) && Split(s, e)
      requires s != [] && cursor0 == if e < |s| then s[e].dst else s[|s| - 1].end
      modifies this`mods, bytes, memory.regions, memory.regions.store
      ensures Valid() && |mods| == |old(mods)| && Running(s, was, kept, 0, |s|)
    {
      hide Layout, Stage, Room, PageRound, Sorted;
      var cursor := cursor0;
      var i := e;
      while i < sorter.len
        invariant e <= i <= |s| && Valid() && |mods| == |old(mods)| && Running(s, was, kept, 0, i)
        invariant cursor == if i < |s| then s[i].dst else s[|s| - 1].end
        decreases |s| - i
      {
        PendingModule(s, was, Now(), kept, 0, i, i);
        var size := mods[sorter.slots[i]].size;
        DownSpares(s, was, e, i);
        MoveNext(s, was, kept, 0, i, i, cursor);
        cursor := cursor + PageRound(size);
        i := i + 1;
      }
    }

    /* Both groups, one after the other. */
    method MoveAll(to: nat, ghost s: seq<Slot>, ghost was: seq<bv8>, ghost kept: State)
      requires Valid() && Running(s, was, kept, 0, 0) && Tiled(s, to)
      modifies this`mods, bytes, memory.regions, memory.regions.store
      ensures Valid() && |mods| == |old(mods)| && Running(s, was, kept, 0, |s|)
    {
      hide Layout, Stage, Room, Tiled, Split, Sorted;
      var e, cursor := FindSplit(to, s, was, kept);
      NothingMoved(s, was, Now(), kept, e);
      MoveUp(e, cursor, to, s, was, kept);
      MoveDown(e, cursor, to, s, was, kept);
    }

    /** Move all modules into one free block; false when the program panics, which it does exactly when
        there is no block large enough or there are more than 256 modules. */
    method MoveModules(modaddr: nat) returns (ok: bool, ghost to: nat)
      requires Valid() && mods != [] && ModulesValid(mods, bytes.Length) && Sum(mods, Indices(|mods|)) <= SAFE
      requires LowLists(memory) && Sorted(memory.regions.Contents()) && sorter.Contents() == [] && modaddr < SAFE
      requires forall i :: 0 <= i < memory.ram.len ==> memory.ram.store[i].end < bytes.Length
      requires |Remaining(memory.regions.Contents(), IsModRegion)| + |mods| <= memory.regions.store.Length
      requires bytes.Length <= memory.regions.limits.address
      requires memory.regions.combined + Sum(mods, Indices(|mods|)) <= memory.regions.limits.size
      modifies this`mods, bytes, sorter, sorter.slots, memory.regions, memory.regions.store
      ensures Valid()
      ensures ok <==> Possible(old(BlockWanted(modaddr))) && |old(mods)| <= 256
      ensures ok ==> Found(old(BlockWanted(modaddr)), to)
      ensures ok ==>
        AllSettled(old(mods), mods, old(bytes[..]), bytes[..], Plain(to, to + Sum(old(mods), Indices(|old(mods)|)) - 1))
      ensures ok ==> ModulesReserved(old(memory.regions.Contents()), mods, memory.regions.Contents())
    {
      hide Sum, Sorted, Layout, Stage, Room, PageRound, Remaining, ModulesValid, IsOrder, Request.Usable, Lowest, Found,
        RoundTo, LowLists, AllSettled, ModulesReserved, KeptAndReserved, Indices, PageAligned, Possible, BlockWanted,
        Split, Tiled;
      to := 0;
      ghost var was, start, before := bytes[..], mods, memory.regions.Contents();
      ghost var q := BlockWanted(modaddr);
      var total, t := FindTarget(modaddr);
      if t == 0 {
        return false, 0;
      }
      ghost var kept := memory.regions.Abstract();
      to := t;
      ok := SortModules();
      if !ok {
        return false, to;
      }
      ghost var order := sorter.Contents();
      ghost var s := BeginMoves(mods, order, t, total, was, q, kept, memory.regions.store.Length,
        memory.regions.limits);
      MoveAll(t, s, was, kept);
      FinalStage(start, order, t, was, Now(), kept);
      KeptAreOthers(before, mods, memory.regions.Contents());
    }

    /** Remove the entries of the modules and look for a block that holds all modules. */
    method FindTarget(modaddr: nat) returns (total: nat, t: nat)
      requires Valid() && mods != [] && ModulesValid(mods, bytes.Length) && Sum(mods, Indices(|mods|)) <= SAFE
      requires LowLists(memory) && Sorted(memory.regions.Contents()) && modaddr < SAFE
      modifies memory.regions, memory.regions.store
      ensures Valid() && Sorted(memory.regions.Contents()) && memory.regions.combined == old(memory.regions.combined)
      ensures memory.regions.Contents() == Remaining(old(memory.regions.Contents()), IsModRegion)
      ensures memory.regions.len <= old(memory.regions.len)
      ensures 0 < total == Sum(mods, Indices(|mods|)) && (t != 0 <==> Possible(old(BlockWanted(modaddr))))
      ensures var q := old(BlockWanted(modaddr));
        && q.ram == memory.ram.Contents() && q.regions == memory.regions.Contents() && q.size == total && q.unit == PAGE
        && (t != 0 ==> Found(q, t) && q.Usable(t))
    {
      hide Sum, Sorted, PageRound, Remaining, ModulesValid, RoundTo, Indices, PageAligned;
      ghost var q := BlockWanted(modaddr);
      RemovalKeepsLow(memory);
      memory.regions.RemoveMatching(IsModRegion);
      TotalFacts(mods, bytes.Length);
      total := CalcModulesSize();
      assert LowLists(memory) by {
        assert forall i :: 0 <= i < memory.regions.len ==> memory.regions.store[i] == memory.regions.Contents()[i];
      }
      AskIsSafe(memory, total, modaddr, PAGE);
      t := memory.FindFreeRam(total, modaddr, TOP - 1, PAGE);
      LowestDecides(q, t);
    }

    /** The request for the target block, made after the entries of the modules were removed. */
    ghost function BlockWanted(modaddr: nat): Request
      requires Valid()
      reads this, bytes, sorter, sorter.slots, memory, memory.ram, memory.ram.store,
        memory.sysalloc, memory.sysalloc.store, memory.regions, memory.regions.store
    {
      memory.Ask(Sum(mods, Indices(|mods|)), modaddr, TOP - 1, PAGE).(regions :=
        Remaining(memory.regions.Contents(), IsModRegion))
    }
  }

  ghost predicate Found(q: Request, to: nat) {
    q.size > 0 && q.unit > 0 && to > 0 && Lowest(q, to)
  }

  /** One slot behind the other. */
  ghost predicate Tiled(s: seq<Slot>, to: nat) {
    && (s != [] ==> s[0].dst == to)
    && (forall k :: 0 <= k < |s| ==> s[k].end == s[k].dst + PageRound(s[k].m.size))
    && (forall k, l :: 0 <= k && l == k + 1 && l < |s| ==> s[k].end == s[l].dst)
  }

  /* Removing entries leaves the others where they are. */
  lemma RemovalKeepsLow(m: Memory)
    requires m.Valid() && LowLists(m) && Sorted(m.regions.Contents())
    ensures var kept := Remaining(m.regions.Contents(), IsModRegion);
      Sorted(kept) && AllValid(kept) && forall i :: 0 <= i < |kept| ==> kept[i].end < SAFE
  {
    hide Sorted;
    var s := m.regions.Contents();
    var kept := Remaining(s, IsModRegion);
    RemainingSorted(s, IsModRegion);
    SortedAllValid(kept);
    forall i | 0 <= i < |kept|
      ensures kept[i].end < SAFE
    {
      RemainingMeaning(s, IsModRegion, kept[i]);
    }
  }

  lemma {:induction false} SumAligned(mods: seq<Module>, n: nat)
    requires n <= |mods| && forall i :: 0 <= i < |mods| ==> mods[i].size + PAGE <= TOP
    ensures PageAligned(Sum(mods, Indices(n)))
  {
    hide PageRound, PageAligned;
    if n == 0 {
      IndicesNone(mods);
      AlignedZero();
    } else {
      hide Sum;
      SumAligned(mods, n - 1);
      SumPrefix(mods, n - 1);
      PageRoundFacts(mods[n - 1].size);
      PageSteps(Sum(mods, Indices(n - 1)), PageRound(mods[n - 1].size));
    }
  }

  lemma TotalFacts(mods: seq<Module>, size: nat)
    requires ModulesValid(mods, size) && mods != [] && size + PAGE <= TOP && Sum(mods, Indices(|mods|)) <= SAFE
    ensures var total := Sum(mods, Indices(|mods|));
      2 <= total <= SAFE && PageAligned(total) && RoundTo(total, PAGE) == total
  {
    hide Sum, PageRound;
    SizesBounded(mods, size);
    SumAligned(mods, |mods|);
    SumPrefix(mods, 0);
    SumOfFirst(mods, 1);
    PageRoundFacts(mods[0].size);
    AlignedIsRounded(Sum(mods, Indices(|mods|)));
    AtLeastOnePage(PageRound(mods[0].size));
  }

  lemma LowestDecides(q: Request, t: nat)
    requires q.size > 0 && q.unit > 0 && Lowest(q, t)
    ensures t != 0 <==> Possible(q)
  {
  }

  /* Nothing has been moved yet. */
  lemma NothingMoved(s: seq<Slot>, was: seq<bv8>, w: World, kept: State, e: nat)
    requires Layout(s, |was|) && Stage(s, was, w, kept, 0, 0) && e <= |s|
    ensures Stage(s, was, w, kept, e, e)
  {
    hide Layout;
  }

  /* The layout of the targets in the block found. */
  lemma BeginMoves(mods: seq<Module>, order: seq<nat>, to: nat, total: nat, was: seq<bv8>, q: Request, kept: State,
      capacity: nat, lim: Limits)
    returns (s: seq<Slot>)
    requires ModulesValid(mods, |was|) && IsOrder(mods, order, |mods|) && |was| + PAGE <= TOP && mods != []
    requires total == Sum(mods, order) && 0 < total
    requires q.size == total && q.unit == PAGE && q.regions == kept.entries && 0 < to && q.Usable(to)
    requires forall i :: 0 <= i < |q.ram| ==> q.ram[i].end < |was|
    requires Sorted(kept.entries) && |kept.entries| + |mods| <= capacity && lim.Valid()
    requires |was| <= lim.address && kept.combined + total <= lim.size
    ensures |s| == |mods| == |order| && (forall k :: 0 <= k < |s| ==> order[k] < |mods| && s[k].index == order[k])
    ensures s == Slots(mods, order, to) && s != []
    ensures PageAligned(to) && to + total <= |was|
    ensures Layout(s, |was|) && Stage(s, was, World(was, mods, kept), kept, 0, 0)
    ensures Room(s, q.ram, kept, capacity, lim) && Tiled(s, to)
  {
    hide Sum, PageRound, Sorted, Layout, Slot.Fits, ModulesValid, IsOrder;
    OrderInRange(mods, order);
    InsideRam(q, to, |was|);
    hide Request.Usable;
    SlotsLayout(mods, order, to, |was|);
    s := Slots(mods, order, to);
    assert Target(s) == Block(to, total);
    SlotsTiled(mods, order, to, |was|);
    RoomInBlock(q, to, s, kept, capacity, lim);
    StageZero(s, was, mods, kept);
  }

  lemma InsideRam(q: Request, to: nat, size: nat)
    requires q.size > 0 && q.unit == PAGE && q.Usable(to) && forall i :: 0 <= i < |q.ram| ==> q.ram[i].end < size
    ensures PageAligned(to) && to + q.size <= size
  {
  }

  lemma RoomInBlock(q: Request, to: nat, s: seq<Slot>, kept: State, capacity: nat, lim: Limits)
    requires q.size > 0 && q.unit == PAGE && q.regions == kept.entries && q.Usable(to)
    requires s != [] && 0 < s[|s| - 1].end && Target(s) == Block(to, q.size)
    requires Sorted(kept.entries) && |kept.entries| + |s| <= capacity && lim.Valid()
    requires to + q.size <= lim.address + 1 && kept.combined + q.size <= lim.size
    ensures Room(s, q.ram, kept, capacity, lim)
  {
    hide Sorted;
  }

  lemma SlotsTiled(mods: seq<Module>, order: seq<nat>, to: nat, size: nat)
    requires ModulesValid(mods, size) && IsOrder(mods, order, |mods|) && size + PAGE <= TOP && mods != []
    requires 0 < to && PageAligned(to) && to + Sum(mods, order) <= size
    ensures |order| == |mods| && (forall i :: 0 <= i < |order| ==> order[i] < |mods|)
    ensures Tiled(Slots(mods, order, to), to)
  {
    hide Sum, PageRound, ModulesValid, IsOrder, Slot.Fits, InOrder, Layout, PageAligned;
    OrderInRange(mods, order);
    var s := Slots(mods, order, to);
    SlotsLayout(mods, order, to, size);
    forall k | 0 <= k < |s|
      ensures s[k].end == s[k].dst + PageRound(s[k].m.size)
    {
      SlotFits(mods, order, to, k, size);
    }
    forall k, l | 0 <= k && l == k + 1 && l < |s|
      ensures s[k].end == s[l].dst
    {
      NextInOrder(mods, order, to, k, size);
    }
  }

  lemma StageZero(s: seq<Slot>, was: seq<bv8>, mods: seq<Module>, kept: State)
    requires Layout(s, |was|) && Sorted(kept.entries)
    requires forall k :: 0 <= k < |s| ==> s[k].index < |mods| && mods[s[k].index] == s[k].m
    ensures Stage(s, was, World(was, mods, kept), kept, 0, 0)
  {
    hide Layout, Sorted;
    NothingDone(was, Jobs(s, was), 0);
  }

  lemma OrderLength(mods: seq<Module>, s: seq<nat>, n: nat)
    requires IsOrder(mods, s, n)
    ensures |s| == n && forall k :: 0 <= k < |s| ==> s[k] < |mods|
  {
  }

  lemma PendingModule(s: seq<Slot>, was: seq<bv8>, w: World, kept: State, a: nat, b: nat, k: nat)
    requires Layout(s, |was|) && Stage(s, was, w, kept, a, b) && k < |s| && !(a <= k < b)
    ensures s[k].index < |w.mods| && w.mods[s[k].index] == s[k].m
  {
    hide Progress, RegionsStage, Layout;
  }

  lemma SpareRoom(s: seq<Slot>, was: seq<bv8>, w: World, kept: State, ram: seq<Region>, capacity: nat, lim: Limits,
      a: nat, b: nat, k: nat)
    requires Layout(s, |was|) && Stage(s, was, w, kept, a, b) && Room(s, ram, kept, capacity, lim) && k < |s|
    requires !(a <= k < b)
    ensures |w.regions.entries| < capacity
  {
    hide Progress, Layout, ModsStage, Clear, Sorted;
  }

  lemma SameCount(w: World, ram: seq<Region>, capacity: nat, lim: Limits, index: nat, dest: nat)
    requires CanMove(w, index, dest) && lim.Valid()
    ensures var r := MoveStep(w, ram, capacity, lim, index, dest); r.Some? ==> |r.value.mods| == |w.mods|
  {
    hide AddStep, PageRound, MovedBytes, Clear, FirstContaining;
  }

  lemma MovedNowhere(was: seq<bv8>, m: Module, dest: nat)
    requires m.start + m.size <= |was| && dest + m.size <= PageRound(dest + m.size) <= |was|
    ensures m.start == dest ==> MovedBytes(was, m, dest) == was
  {
  }

  lemma IndicesNone(mods: seq<Module>)
    ensures Sum(mods, Indices(0)) == 0
  {
  }

  lemma SumOfFirst(mods: seq<Module>, n: nat)
    requires n <= |mods|
    ensures Sum(mods, Indices(n)) <= Sum(mods, Indices(|mods|))
  {
    SumGrows(mods, Indices(|mods|), n, |mods|);
    assert Indices(|mods|)[..n] == Indices(n) && Indices(|mods|)[..|mods|] == Indices(|mods|);
  }
}
