/** The program that unpacks the boot modules: the search for a target, and the run over the modules
    (`decompress_mods`, `decomp_move_mod`, `decompress_mod` and `drop_mod_region` in
    server/src/boot_modules.cc). */
module UnpackRun {
  import opened Options
  import opened Regions
  import opened RegionLists
  import opened FreeSearch
  import opened MemoryManager
  import opened CopySchedule
  import opened ModuleOrder
  import opened UnpackPlans
  import opened UnpackStages
  import opened UnpackModules
  import opened UnpackScan

  /** Every compressed module to be unpacked decompresses to its full size. */
  ghost predicate AllExpand(mods: seq<Packed>, was: seq<bv8>, expand: Decompressor) {
    forall i :: 0 <= i < |mods| && !mods[i].base ==>
      && mods[i].m.start + mods[i].m.size <= |was|
      && (mods[i].m.size != mods[i].unpacked ==>
        |expand(was[mods[i].m.start..mods[i].m.start + mods[i].m.size])| == mods[i].unpacked)
  }

  class Unpacker {
    const memory: Memory
    const bytes: array<bv8>
    const sorter: ModuleSorter
    var mods: seq<Packed>

    ghost predicate Valid()
      reads this, bytes, sorter, sorter.slots, memory, memory.ram, memory.ram.store,
        memory.sysalloc, memory.sysalloc.store, memory.regions, memory.regions.store
    {
      && memory.Valid() && Separate(memory) && sorter.Valid() && bytes.Length + PAGE <= TOP
      && bytes as object != memory.ram.store && bytes as object != memory.sysalloc.store &&
        bytes as object != memory.regions.store
      && sorter.slots as object != memory.ram.store && sorter.slots as object != memory.sysalloc.store
      && sorter.slots as object != memory.regions.store && sorter.slots as object != bytes
    }

    ghost function Now(): World
      reads this, bytes, memory, memory.regions, memory.regions.store
      requires memory.regions.len <= memory.regions.store.Length
    {
      World(bytes[..], mods, memory.regions.Abstract())
    }

    constructor (memory: Memory, bytes: array<bv8>, mods: seq<Packed>)
      ensures this.memory == memory && this.bytes == bytes && this.mods == mods
      ensures fresh(sorter) && fresh(sorter.slots) && sorter.Valid() && sorter.Contents() == []
    {
      this.memory, this.bytes, this.mods := memory, bytes, mods;
      sorter := new ModuleSorter();
    }

    /** Remove the entry of one module, if there is one. */
    method DropModRegion(index: nat)
      requires Valid()
      modifies memory.regions, memory.regions.store
      ensures Valid() && memory.regions.Contents() == DropFirst(old(memory.regions.Contents()), index)
      ensures memory.regions.combined == old(memory.regions.combined) && memory.regions.len <= old(memory.regions.len)
    {
      var i := 0;
      while i < memory.regions.len
        invariant i <= memory.regions.len && forall j :: 0 <= j < i ==> !Marks(index, memory.regions.store[j])
      {
        if Marks(index, memory.regions.store[i]) {
          FirstMarkedIs(memory.regions.Contents(), index, i);
          memory.regions.Remove(i);
          return;
        }
        i := i + 1;
      }
      FirstMarkedIs(memory.regions.Contents(), index, i);
    }

    method StoreBytes(dest: nat, data: seq<bv8>)
      requires dest + |data| <= bytes.Length
      modifies bytes
      ensures bytes[..] == Overwrite(old(bytes[..]), dest, data)
    {
      hide Overwrite;
      ghost var was := bytes[..];
      forall i | 0 <= i < |data| {
        bytes[dest + i] := data[i];
      }
      OverwriteIs(was, bytes[..], dest, data);
    }

    /** Unpack or move one module, and reserve its new place; false when the program panics. */
    method DecompMoveMod(index: nat, dest: nat, expand: Decompressor) returns (ok: bool)
      requires Valid() && CanUnpack(Now(), index, dest)
      requires |DropFirst(memory.regions.Contents(), index)| < memory.regions.store.Length
      modifies this`mods, bytes, memory.regions, memory.regions.store
      ensures Valid()
      ensures ok <==>
        UnpackStep(old(Now()), memory.ram.Contents(), memory.regions.store.Length, memory.regions.limits, expand, index,
          dest).Some?
      ensures ok ==>
        UnpackStep(old(Now()), memory.ram.Contents(), memory.regions.store.Length, memory.regions.limits, expand, index,
          dest) == Some(Now())
    {
      hide AddStep, Sorted, PageRound, FirstContaining, DropFirst, FirstMarked, Overwrite, Region.Contains,
        Region.Overlaps, Content, Marks, Region.Valid, Done;
      var p := mods[index];
      var data := Content(p, bytes[..], expand);
      if p.Compressed() {
        if dest == 0 {
          return false;
        }
        var inRam := memory.ram.ContainsRegion(Plain(dest, dest + p.unpacked - 1));
        if inRam.None? || |data| != p.unpacked {
          return false;
        }
      } else {
        assert |data| == p.unpacked by { PlainContent(p, bytes[..], expand); }
      }
      StoreBytes(dest, data);
      ok := Rereserve(index, Task(index, p, dest).Reserved());
      mods := mods[index := Done(p, dest)];
    }

    /* Exchange the entry of one module. */
    method Rereserve(index: nat, r: Region) returns (ok: bool)
      requires Valid() && r.begin <= r.end < TOP
      requires |DropFirst(memory.regions.Contents(), index)| < memory.regions.store.Length
      modifies memory.regions, memory.regions.store
      ensures Valid()
      ensures var t := AddStep(State(DropFirst(old(memory.regions.Contents()), index), old(memory.regions.combined)),
          memory.regions.store.Length, memory.regions.limits, r, false);
        ok == t.Some? && (ok ==> t == Some(memory.regions.Abstract()))
    {
      hide AddStep, Sorted, DropFirst;
      assert r.Valid();
      DropModRegion(index);
      ok := memory.regions.AddRegion(r, false);
    }

    /* Put all modules that are not base modules into the sorter. */
    method SortNonBase() returns (ok: bool)
      requires Valid() && sorter.Contents() == []
      modifies sorter, sorter.slots
      ensures Valid() && ok == (|NonBase(mods, |mods|)| <= 256)
      ensures ok ==> Sorts(mods, sorter.Contents(), NonBase(mods, |mods|)) && sorter.len == |NonBase(mods, |mods|)|
    {
      hide Sum, OrderInsert, Sorted, NonBase, SortedUpTo;
      var i := 0;
      SortedNone(mods);
      while i < |mods|
        invariant i <= |mods| && Valid() && SortedUpTo(mods, sorter.Contents(), i)
      {
        SortedNext(mods, sorter.Contents(), i);
        if !mods[i].base {
          ok := sorter.InsertSorted(Unpacked(mods), i);
          if !ok {
            return false;
          }
        }
        i := i + 1;
      }
      SortedDone(mods, sorter.Contents());
      return true;
    }

    /** The scan over the header: from the starting points behind and before the first module, move
        the two targets until every module allows them. The second becomes zero when it would have to
        move below address zero. The entries of the modules are removed. */
    method Scan(r0: nat, l0: nat) returns (rdest: nat, ldest: nat)
      requires Valid() && PackedValid(mods, bytes.Length) && bytes.Length + PAGE <= SAFE
      requires Sum(Unpacked(mods), NonBase(mods, |mods|)) <= SAFE && Sorted(memory.regions.Contents())
      requires PageAligned(r0) && r0 <= bytes.Length + PAGE && FrontStart(mods, l0, bytes.Length)
      requires AllReserved(mods, memory.regions.Contents())
      modifies memory.regions, memory.regions.store
      ensures Valid() && memory.regions.combined == old(memory.regions.combined)
      ensures PageAligned(rdest) && r0 <= rdest <= bytes.Length + PAGE
      ensures BehindInHeader(mods, NonBase(mods, |mods|), rdest)
      ensures Nearest(mods, NonBase(mods, |mods|), r0, rdest) && FrontTarget(mods, l0, bytes.Length, ldest)
      ensures WithoutModules(old(memory.regions.Contents()), memory.regions.Contents(), NonBase(mods, |mods|))
    {
      hide Sum, NonBase, PageRound, PageAligned, PackedValid, Sorted, Remaining, BehindScan, FrontScan, FrontStart,
        FrontTarget, Wrap, WithoutModules, AllReserved;
      rdest, ldest := r0, l0;
      var rpos: nat, lpos: nat := r0, l0;
      var i := 0;
      ScanStart(mods, r0, l0, bytes.Length, memory.regions.Contents());
      while i < |mods|
        invariant i <= |mods| && Valid() && memory.regions.combined == old(memory.regions.combined)
        invariant r0 <= rdest <= bytes.Length + PAGE && BehindScan(mods, i, r0, rpos, rdest)
        invariant FrontScan(mods, i, l0, Front(ldest, lpos), bytes.Length)
        invariant WithoutModules(old(memory.regions.Contents()), memory.regions.Contents(), NonBase(mods, i))
      {
        ghost var r1, rpos1, c := rdest, rpos, Front(ldest, lpos);
        NonBaseNext(mods, i);
        if !mods[i].base {
          var mstart, mend, unpacked := mods[i].m.start, mods[i].End(), mods[i].unpacked;
          ghost var entries := memory.regions.Contents();
          memory.regions.RemoveMatching(e => Marks(i, e));
          OneFacts(mods, i, bytes.Length);
          WithoutNext(mods, old(memory.regions.Contents()), entries, memory.regions.Contents(), NonBase(mods, i), i);
          ScanSafe(mods, i, bytes.Length);
          if rpos < mend {
            var delta := PageRound(mend) - rpos;
            rpos, rdest := rpos + delta, rdest + delta;
          }
          var last := Wrap(lpos + unpacked);
          if ldest != 0 && last > mstart {
            var delta := PageRound(last - mstart);
            if ldest > delta {
              lpos, ldest := Wrap(lpos - delta), ldest - delta;
            } else {
              ldest := 0;
            }
          }
          rpos := rpos + PageRound(unpacked);
          lpos := Wrap(lpos + PageRound(unpacked));
          BehindStep(mods, i, r0, rpos1, r1, rpos, rdest, bytes.Length);
          FrontStep(mods, i, l0, c, bytes.Length);
          assert Front(ldest, lpos) == FrontNext(c, mstart, unpacked);
        } else {
          ScanSkip(mods, i, r0, rpos, rdest, l0, c, bytes.Length);
        }
        i := i + 1;
      }
      ScanEnd(mods, r0, rpos, rdest);
      FrontEnd(mods, l0, Front(ldest, lpos), bytes.Length);
    }

    /** After the scan: before the modules if that block is free RAM, else behind them, else anywhere
        further up. Only the first of these is unpacked upwards. */
    method ChooseNear(rdest: nat, ldest: nat, total: nat) returns (dest: nat, up: bool)
      requires Valid() && bytes.Length <= SAFE && LowLists(memory) && LOWEST <= rdest < SAFE && ldest + total <= TOP
      requires 2 <= total <= SAFE && RoundTo(total, PAGE) == total
      requires forall i :: 0 <= i < memory.ram.len ==> memory.ram.store[i].end < bytes.Length
      ensures dest != 0 ==>
        FreeBlock(memory.ram.Contents(), memory.regions.Contents(), dest, total) && dest + total <= bytes.Length
      ensures NearChoice(memory.ram.Contents(), memory.regions.Contents(), memory.Ask(total, rdest, TOP - 1, PAGE),
        total, rdest, ldest, dest, up)
      ensures dest != 0 ==> if up then dest == ldest else rdest <= dest
      ensures dest == 0 ==> !up && !Possible(memory.Ask(total, rdest, TOP - 1, PAGE))
    {
      hide FreeBlock, RoundTo, Lowest, Possible;
      var before := ldest != 0;
      if before {
        before := IsFreeBlock(ldest, total);
      }
      NoBlockAtZero(memory.ram.Contents(), memory.regions.Contents(), total);
      FreeBlockFits(memory.ram.Contents(), memory.regions.Contents(), ldest, total, bytes.Length);
      FreeBlockFits(memory.ram.Contents(), memory.regions.Contents(), rdest, total, bytes.Length);
      if before {
        up, dest := true, ldest;
      } else {
        up, dest := false, rdest;
        var behind := IsFreeBlock(rdest, total);
        if !behind {
          AskIsSafe(memory, total, rdest, PAGE);
          dest := memory.FindFreeRam(total, rdest, TOP - 1, PAGE);
          LowestBlock(memory.Ask(total, rdest, TOP - 1, PAGE), dest, bytes.Length);
        }
      }
    }

    /** The look-ups that a target has to pass. */
    method IsFreeBlock(at: nat, total: nat) returns (isFree: bool)
      requires Valid() && 0 < at && 0 < total
      ensures isFree <==> FreeBlock(memory.ram.Contents(), memory.regions.Contents(), at, total)
    {
      hide Clear, FirstContaining, Sorted;
      var block := Plain(at, at + total - 1);
      var inRam := memory.ram.ContainsRegion(block);
      var overlap := memory.regions.Find(block);
      FreeBlockIs(memory.ram.Contents(), memory.regions.Contents(), at, total);
      if overlap.Some? {
        assert !Clear(memory.regions.Contents(), block) by {
          NotClear(memory.regions.Contents(), block, overlap.value);
        }
      }
      isFree := inRam.Some? && overlap.None?;
    }

    /** The rule for the target: the lowest free block if it begins no higher than right behind the lowest
        module; otherwise, with the entries of the modules removed, a block next to the modules, as close
        to them as all of them allow. The program stops if the block before them has no end in 64 bits. */
    ghost predicate TargetRule(q: Request, low: nat, total: nat, behind: nat, before: nat, dest: nat, up: bool,
        stopped: bool)
      requires Valid()
      reads this, bytes, sorter, sorter.slots, memory, memory.ram, memory.ram.store,
        memory.sysalloc, memory.sysalloc.store, memory.regions, memory.regions.store
    {
      && 0 < sorter.len && sorter.slots[0] < |mods| && 0 < total && q.size > 0 && q.unit > 0 && Lowest(q, low)
      && var first := mods[sorter.slots[0]];
      if 0 < low <= PageRound(first.End()) then !stopped && dest == low && up && memory.regions.Contents() == q.regions
      else
        && BehindInHeader(mods, NonBase(mods, |mods|), behind)
        && Nearest(mods, NonBase(mods, |mods|), PageRound(first.End()), behind)
        && FrontTarget(mods, BeforeStart(first.m.start, first.unpacked), bytes.Length, before)
        && (stopped <==> TOP < before + total) && (stopped <==> CandidateWraps(mods, first))
        && (!stopped ==>
          NearChoice(memory.ram.Contents(), memory.regions.Contents(), memory.Ask(total, behind, TOP - 1, PAGE), total,
            behind, before, dest, up))
    }

    /** The target for all modules, and the direction: zero when there is no memory. `stopped` means that the
        program ended in the assertion that a region does not end before it begins. */
    method Choose(total: nat, modAddr: nat)
        returns (dest: nat, up: bool, stopped: bool, ghost low: nat, ghost behind: nat, ghost before: nat)
      requires Valid() && PackedValid(mods, bytes.Length) && bytes.Length + 2 * PAGE <= SAFE
      requires Sorts(mods, sorter.Contents(), NonBase(mods, |mods|)) && 0 < sorter.len
      requires total == Sum(Unpacked(mods), NonBase(mods, |mods|)) && 2 <= total <= SAFE
      requires RoundTo(total, PAGE) == total
      requires LowLists(memory) && Sorted(memory.regions.Contents()) && modAddr < SAFE
      requires forall i :: 0 <= i < memory.ram.len ==> memory.ram.store[i].end < bytes.Length
      requires AllReserved(mods, memory.regions.Contents())
      modifies memory.regions, memory.regions.store
      ensures Valid() && memory.regions.combined == old(memory.regions.combined)
      ensures memory.regions.Contents() == old(memory.regions.Contents())
        || WithoutModules(old(memory.regions.Contents()), memory.regions.Contents(), NonBase(mods, |mods|))
      ensures TargetRule(old(memory.Ask(total, modAddr, TOP - 1, PAGE)), low, total, behind, before, dest, up, stopped)
      ensures stopped ==> dest == 0
      ensures dest != 0 ==> SafeTarget(mods, sorter.Contents(), dest, up)
      ensures dest != 0 ==>
        FreeBlock(memory.ram.Contents(), memory.regions.Contents(), dest, total) && dest + total <= bytes.Length
      ensures dest == 0 && !stopped ==> NoRoomBehind(mods, memory.Ask(total, behind, TOP - 1, PAGE), behind)
      ensures dest == 0 ==>
        WithoutModules(old(memory.regions.Contents()), memory.regions.Contents(), NonBase(mods, |mods|))
    {
      hide Sum, NonBase, PageRound, PackedValid, Sorted, Sorts, BeforeStart, SafeTarget, FreeBlock, RoundTo, FrontStart,
        FrontTarget, PageAligned, BehindInHeader, BeforeInHeader, WithoutModules, AllReserved, Possible, NearChoice,
        Nearest, CandidateWraps, Wrap;
      ghost var order, picks := sorter.Contents(), NonBase(mods, |mods|);
      FirstFacts(mods, order, bytes.Length);
      var first := mods[sorter.slots[0]];
      var rdest: nat := PageRound(first.End());
      var ldest := BeforeStart(first.m.start, first.unpacked);
      AskIsSafe(memory, total, modAddr, PAGE);
      dest := memory.FindFreeRam(total, modAddr, TOP - 1, PAGE);
      up, stopped, low, behind, before := true, false, dest, 0, 0;
      SumOfOrder(mods, order, picks);
      if dest == 0 || dest > rdest {
        assert forall i :: 0 <= i < memory.regions.len ==> memory.regions.Contents()[i] == memory.regions.store[i];
        rdest, ldest := Scan(rdest, ldest);
        StillLow(old(memory.regions.Contents()), memory.regions.Contents(), picks);
        assert forall i :: 0 <= i < memory.regions.len ==> memory.regions.store[i] == memory.regions.Contents()[i];
        behind, before := rdest, ldest;
        CandidateExact(mods, order, ldest, bytes.Length);
        EndsBefore(mods, BeforeStart(first.m.start, first.unpacked), ldest, total, bytes.Length);
        if ldest > Wrap(ldest + total - 1) {
          return 0, up, true, low, behind, before;
        }
        dest, up := ChooseNear(rdest, ldest, total);
        NearIsSafe(mods, order, rdest, BeforeStart(first.m.start, first.unpacked), ldest, dest, up, bytes.Length);
        assert dest == 0 ==> NoRoomBehind(mods, memory.Ask(total, behind, TOP - 1, PAGE), behind);
      } else {
        LowestBlock(memory.Ask(total, modAddr, TOP - 1, PAGE), dest, bytes.Length);
        FreeIsSafe(mods, order, dest, total, bytes.Length, memory.ram.Contents(), memory.regions.Contents());
      }
    }

    /** The run is under way: the modules `a` up to `b` from below are at their targets. */
    ghost predicate Running(s: seq<Task>, old0: World, kept: State, expand: Decompressor, a: nat, b: nat)
      requires Valid()
      reads this, bytes, sorter, sorter.slots, memory, memory.ram, memory.ram.store,
        memory.sysalloc, memory.sysalloc.store, memory.regions, memory.regions.store
    {
      && s != [] && Row(s, |old0.bytes|) && Expands(s, old0.bytes, expand) && |old0.bytes| == bytes.Length
      && Stage(s, old0, Now(), kept, expand, a, b)
      && Room(s, memory.ram.Contents(), kept, memory.regions.store.Length, memory.regions.limits)
      && sorter.len == |s| && (forall k :: 0 <= k < |s| ==> sorter.slots[k] == s[k].index)
    }

    /* One step of either loop. */
    method UnpackNext(ghost s: seq<Task>, ghost old0: World, ghost kept: State, expand: Decompressor, ghost a: nat,
        ghost b: nat, k: nat, dest: nat)
      requires Valid() && Running(s, old0, kept, expand, a, b)
      requires k < |s| && (k == b || k + 1 == a) && Spared(Jobs(s, old0.bytes, expand), a, b, k) && s[k].Misses(s[k])
      requires dest == s[k].dst
      modifies this`mods, bytes, memory.regions, memory.regions.store
      ensures Valid() && Running(s, old0, kept, expand, if k == b then a else k, if k == b then b + 1 else b)
    {
      hide Row, Stage, Room, UnpackStep, CanUnpack, Spared, Sorted, Expands, Content;
      StageStep(s, old0, Now(), kept, expand, memory.ram.Contents(), memory.regions.store.Length, memory.regions.limits,
        a, b, k);
      PendingModule(s, old0, Now(), kept, expand, a, b, k);
      var ok := DecompMoveMod(sorter.slots[k], dest, expand);
    }

    /** Unpack all modules upwards. */
    method UnpackUp(dest: nat, expand: Decompressor, ghost s: seq<Task>, ghost old0: World, ghost kept: State)
      requires Valid() && Running(s, old0, kept, expand, 0, 0) && Tiled(s, dest) && SafeUp(s)
      modifies this`mods, bytes, memory.regions, memory.regions.store
      ensures Valid() && Running(s, old0, kept, expand, 0, |s|)
    {
      hide Row, Stage, Room, PageRound, Sorted, Expands, Content, SafeUp;
      var at := dest;
      var i := 0;
      while i < sorter.len
        invariant i <= |s| && Valid() && Running(s, old0, kept, expand, 0, i)
        invariant at == if i < |s| then s[i].dst else s[|s| - 1].End()
        decreases |s| - i
      {
        PendingModule(s, old0, Now(), kept, expand, 0, i, i);
        var size := PageRound(mods[sorter.slots[i]].unpacked);
        UpSpares(s, old0.bytes, expand, i);
        UnpackNext(s, old0, kept, expand, 0, i, i, at);
        at := at + size;
        i := i + 1;
      }
    }

    /** Unpack all modules downwards. */
    method UnpackDown(dest: nat, total: nat, expand: Decompressor, ghost s: seq<Task>, ghost old0: World,
        ghost kept: State)
      requires Valid() && Running(s, old0, kept, expand, 0, 0) && Tiled(s, dest) && SafeDown(s)
      requires s != [] && dest + total == s[|s| - 1].End()
      modifies this`mods, bytes, memory.regions, memory.regions.store
      ensures Valid() && Running(s, old0, kept, expand, 0, |s|)
    {
      hide Row, Stage, Room, PageRound, Sorted, Expands, Content, SafeDown;
      var at := dest + total;
      var i := sorter.len;
      NothingUnpacked(s, old0, Now(), kept, expand, i);
      while i > 0
        invariant 0 <= i <= |s| && Valid() && Running(s, old0, kept, expand, i, |s|)
        invariant at == if i < |s| then s[i].dst else s[|s| - 1].End()
        decreases i
      {
        i := i - 1;
        PendingModule(s, old0, Now(), kept, expand, i + 1, |s|, i);
        at := at - PageRound(mods[sorter.slots[i]].unpacked);
        DownSpares(s, old0.bytes, expand, i);
        UnpackNext(s, old0, kept, expand, i + 1, |s|, i, at);
      }
    }

    /* All modules, in the direction chosen. */
    method UnpackAll(dest: nat, total: nat, up: bool, expand: Decompressor, ghost s: seq<Task>, ghost old0: World,
        ghost kept: State)
      requires Valid() && Running(s, old0, kept, expand, 0, 0) && Tiled(s, dest)
      requires if up then SafeUp(s) else SafeDown(s)
      requires s != [] && dest + total == s[|s| - 1].End()
      modifies this`mods, bytes, memory.regions, memory.regions.store
      ensures Valid() && Stage(s, old0, Now(), kept, expand, 0, |s|)
    {
      hide Tiled, SafeUp, SafeDown, Row, Stage, Room, Sorted, PageRound;
      if up {
        UnpackUp(dest, expand, s, old0, kept);
      } else {
        UnpackDown(dest, total, expand, s, old0, kept);
      }
    }

    /** What the program can rely on before it unpacks the modules. */
    ghost predicate Ready(total: nat, modAddr: nat)
      requires Valid()
      reads this, bytes, sorter, sorter.slots, memory, memory.ram, memory.ram.store,
        memory.sysalloc, memory.sysalloc.store, memory.regions, memory.regions.store
    {
      && PackedValid(mods, bytes.Length) && bytes.Length + 2 * PAGE <= SAFE && modAddr < SAFE
      && total == Sum(Unpacked(mods), NonBase(mods, |mods|)) && 0 < total <= SAFE && NonBase(mods, |mods|) != []
      && LowLists(memory) && Sorted(memory.regions.Contents()) && sorter.Contents() == []
      && (forall i :: 0 <= i < memory.ram.len ==> memory.ram.store[i].end < bytes.Length)
      && (|NonBase(mods, |mods|)| > 256 || (|mods| <= 256 && AllReserved(mods, memory.regions.Contents())))
      && OneEach(memory.regions.Contents())
      && bytes.Length <= memory.regions.limits.address && memory.regions.combined + total <= memory.regions.limits.size
    }

    /** With the entries of the modules removed, there is no free block behind all modules. */
    ghost predicate NoTarget(packed: seq<Packed>, before: seq<Region>, total: nat, behind: nat)
      requires Valid()
      reads this, bytes, sorter, sorter.slots, memory, memory.ram, memory.ram.store,
        memory.sysalloc, memory.sysalloc.store, memory.regions, memory.regions.store
    {
      && NoRoomBehind(packed, memory.Ask(total, behind, TOP - 1, PAGE), behind)
      && WithoutModules(before, memory.regions.Contents(), NonBase(packed, |packed|))
    }

    /** Unpack all modules but the base modules; false when the program panics or stops in an assertion.
        `total` is the size that the modules will take up. */
    method DecompressMods(total: nat, modAddr: nat, expand: Decompressor)
        returns (ok: bool, ghost dest: nat, ghost behind: nat, ghost low: nat, ghost first: nat)
      requires Valid() && Ready(total, modAddr) && AllExpand(mods, bytes[..], expand)
      modifies this`mods, bytes, sorter, sorter.slots, memory.regions, memory.regions.store
      ensures Valid()
      ensures ok ==> AllUnpacked(old(mods), mods, old(bytes[..]), bytes[..], expand, Block(dest, total))
      ensures ok ==> RegionsAfter(old(mods), mods, old(memory.regions.Contents()), memory.regions.Contents())
      ensures ok ==> OthersSpared(old(mods), old(memory.regions.Contents()), Block(dest, total))
      ensures |NonBase(old(mods), |old(mods)|)| <= 256 ==>
        LowestSpots(old(mods), first, old(memory.Ask(total, modAddr, TOP - 1, PAGE)), low)
      ensures ok ==> |NonBase(old(mods), |old(mods)|)| <= 256 && !StopsAtTop(old(mods), first, low)
      ensures !ok ==>
        || |NonBase(old(mods), |old(mods)|)| > 256
        || StopsAtTop(old(mods), first, low)
        || NoTarget(old(mods), old(memory.regions.Contents()), total, behind)
    {
      hide Sum, NonBase, PageRound, PackedValid, Sorted, SafeTarget, FreeBlock, RoundTo, Sorts, Row, Expands, Stage,
        Room, Tiled, SafeUp, SafeDown, NoRoomBehind, PageAligned, NearChoice, Nearest, FrontTarget, CandidateWraps,
        BeforeStart, WithoutModules, AllReserved, AllExpand, OneEach, AllUnpacked, RegionsAfter, OthersSpared, LowLists,
        Lowest;
      dest, behind, low, first := 0, 0, 0, 0;
      ghost var old0 := Now();
      ghost var picks := NonBase(mods, |mods|);
      ok := SortNonBase();
      if !ok {
        return;
      }
      ghost var order := sorter.Contents();
      TotalFacts(mods, bytes.Length);
      FirstFacts(mods, order, bytes.Length);
      first := order[0];
      var at, up, stopped;
      ghost var before;
      at, up, stopped, low, behind, before := Choose(total, modAddr);
      if at == 0 {
        return false, dest, behind, low, first;
      }
      dest := at;
      ghost var kept := memory.regions.Abstract();
      ghost var s := BeginUnpacking(mods, order, at, total, up, old0, kept, old0.regions.entries, memory.ram.Contents(),
        memory.regions.store.Length, memory.regions.limits, expand);
      UnpackAll(at, total, up, expand, s, old0, kept);
      FinalStage(order, at, old0, Now(), kept, expand);
      FinalRegions(order, at, old0, Now(), kept, old0.regions.entries, expand);
      return true, dest, behind, low, first;
    }
  }

  /** The lowest of the modules to be unpacked. */
  ghost predicate IsLowest(mods: seq<Packed>, i: nat) {
    i < |mods| && !mods[i].base && forall j :: 0 <= j < |mods| && !mods[j].base ==> mods[i].m.start <= mods[j].m.start
  }

  /** The lowest module, and the lowest free block; zero if there is none. */
  ghost predicate LowestSpots(mods: seq<Packed>, first: nat, q: Request, low: nat) {
    IsLowest(mods, first) && q.size > 0 && q.unit > 0 && Lowest(q, low)
  }

  /** The program stops while it looks for a target: the lowest free block is not used, since it begins behind
      the lowest module, and the block before the modules reaches beyond the top. */
  ghost predicate StopsAtTop(mods: seq<Packed>, lowest: nat, low: nat)
  {
    lowest < |mods| && !(0 < low <= PageRound(mods[lowest].End())) && CandidateWraps(mods, mods[lowest])
  }

  /** Nothing that was reserved lies in the block, except for the modules that are unpacked. */
  ghost predicate OthersSpared(mods: seq<Packed>, before: seq<Region>, block: Region) {
    forall e :: e in before && !MarksUnpacked(mods, e) ==> !e.Overlaps(block)
  }

  /** One target behind the other. */
  ghost predicate Tiled(s: seq<Task>, dest: nat) {
    && (s != [] ==> s[0].dst == dest)
    && (forall k, l :: 0 <= k && l == k + 1 && l < |s| ==> s[k].End() == s[l].dst)
  }

  lemma PendingModule(s: seq<Task>, old0: World, w: World, kept: State, expand: Decompressor, a: nat, b: nat, k: nat)
    requires Expands(s, old0.bytes, expand) && Stage(s, old0, w, kept, expand, a, b) && k < |s| && !(a <= k < b)
    ensures s[k].index < |w.mods| && w.mods[s[k].index] == s[k].p
  {
    hide Progress, RegionsStage;
  }

  lemma NothingUnpacked(s: seq<Task>, old0: World, w: World, kept: State, expand: Decompressor, n: nat)
    requires Expands(s, old0.bytes, expand) && Stage(s, old0, w, kept, expand, 0, 0) && n <= |s|
    ensures Stage(s, old0, w, kept, expand, n, n)
  {
  }

  lemma PlainContent(p: Packed, was: seq<bv8>, expand: Decompressor)
    requires p.End() <= |was| && !p.Compressed()
    ensures |Content(p, was, expand)| == p.unpacked
  {
  }

  /* The unpacked size of at least one module. */
  lemma TotalFacts(mods: seq<Packed>, limit: nat)
    requires PackedValid(mods, limit) && NonBase(mods, |mods|) != []
    ensures var total := Sum(Unpacked(mods), NonBase(mods, |mods|));
      2 <= total && (total <= SAFE ==> RoundTo(total, PAGE) == total)
  {
    hide Sum, NonBase, PageRound, PageAligned, PackedValid;
    var s, u := NonBase(mods, |mods|), Unpacked(mods);
    var total := Sum(u, s);
    SumAligned(mods, limit, |mods|);
    OneFacts(mods, s[0], limit);
    UnpackedRound(mods[s[0]], limit);
    SumNext(u, s, 0);
    SumGrows(u, s, 1, |s|);
    assert s[..|s|] == s;
    AtLeastOnePage(PageRound(mods[s[0]].unpacked));
    if total <= SAFE {
      AlignedIsRounded(total);
    }
  }

  /* Everything in place for the run. */
  lemma BeginUnpacking(mods: seq<Packed>, order: seq<nat>, at: nat, total: nat, up: bool, old0: World, kept: State,
      before: seq<Region>,
      ram: seq<Region>, capacity: nat, lim: Limits, expand: Decompressor) returns (s: seq<Task>)
    requires mods == old0.mods && PackedValid(mods, |old0.bytes|) && Sorts(mods, order, NonBase(mods, |mods|))
    requires order != []
    requires 0 < total == Sum(Unpacked(mods), NonBase(mods, |mods|)) && SafeTarget(mods, order, at, up)
    requires FreeBlock(ram, kept.entries, at, total) && at + total <= |old0.bytes|
    requires AllExpand(mods, old0.bytes, expand) && OneEach(before) && Sorted(before)
    requires kept.entries == before || WithoutModules(before, kept.entries, NonBase(mods, |mods|))
    requires |before| <= capacity && AllReserved(mods, before) && lim.Valid() && |old0.bytes| <= lim.address
    requires kept.combined + total <= lim.size
    ensures (forall i :: 0 <= i < |order| ==> order[i] < |mods|) && s == Tasks(mods, order, at)
    ensures s != [] && Row(s, |old0.bytes|) && Expands(s, old0.bytes, expand)
    ensures Stage(s, old0, World(old0.bytes, mods, kept), kept, expand, 0, 0) && Room(s, ram, kept, capacity, lim)
    ensures Tiled(s, at) && at + total == s[|s| - 1].End() && if up then SafeUp(s) else SafeDown(s)
    ensures 0 < at && total == Sum(Unpacked(mods), order)
    ensures forall e :: e in kept.entries && !MarksUnpacked(mods, e) <==> e in before && !MarksUnpacked(mods, e)
    ensures OthersSpared(mods, before, Block(at, total))
  {
    hide Sum, NonBase, PageRound, PackedValid, Sorted, Sorts, WithoutModules, AllExpand, OneEach, SafeUp, SafeDown,
      MarksUnpacked, Task.Fits, Row, Expands, Stage, Room, FreeBlock, OthersSpared;
    var picks := NonBase(mods, |mods|);
    SumOfOrder(mods, order, picks);
    SortsRange(mods, order, picks);
    s := Tasks(mods, order, at);
    BlockFacts(ram, kept.entries, at, total);
    TasksRow(mods, order, at, |old0.bytes|);
    TasksExpand(mods, order, at, old0.bytes, expand);
    TargetIsBlock(mods, order, at, |old0.bytes|);
    TasksTiled(mods, order, at, |old0.bytes|);
    KeptOrRemoved(mods, before, kept.entries);
    StageZero(s, old0, kept, expand);
    OrderSizes(mods, order, |old0.bytes|);
    ExtraFits(mods, order, at, before, kept.entries);
    RoomInBlock(s, ram, kept, capacity, lim, at, total, |old0.bytes|);
    OthersOutside(mods, before, kept.entries, Block(at, total));
  }

  lemma BlockFacts(ram: seq<Region>, entries: seq<Region>, at: nat, total: nat)
    requires total > 0 && FreeBlock(ram, entries, at, total)
    ensures 0 < at && Clear(entries, Block(at, total))
    ensures exists i :: 0 <= i < |ram| && ram[i].Contains(Block(at, total))
  {
  }

  lemma {:induction false} TasksExpand(mods: seq<Packed>, order: seq<nat>, at: nat, was: seq<bv8>, expand: Decompressor)
    requires Sorts(mods, order, NonBase(mods, |mods|)) && AllExpand(mods, was, expand)
    ensures (forall i :: 0 <= i < |order| ==> order[i] < |mods|) && Expands(Tasks(mods, order, at), was, expand)
  {
    hide Sum, NonBase;
    OrderOfNonBase(mods, order);
    hide Sorts;
    var s := Tasks(mods, order, at);
    forall k | 0 <= k < |s|
      ensures s[k].p.End() <= |was| && |Content(s[k].p, was, expand)| == s[k].p.unpacked
    {
      var p := mods[order[k]];
      assert s[k].p == p;
      assert p.m.size != p.unpacked ==> |expand(was[p.m.start..p.m.start + p.m.size])| == p.unpacked;
    }
  }

  lemma TasksTiled(mods: seq<Packed>, order: seq<nat>, at: nat, size: nat)
    requires PackedValid(mods, size) && (forall i :: 0 <= i < |order| ==> order[i] < |mods|) && order != []
    requires 0 < at && at + Sum(Unpacked(mods), order) <= size
    ensures Tiled(Tasks(mods, order, at), at)
  {
    hide PageRound, PackedValid, Task.Fits;
    var s := Tasks(mods, order, at);
    forall k, l | 0 <= k && l == k + 1 && l < |s|
      ensures s[k].End() == s[l].dst
    {
      TaskFits(mods, order, at, k, size);
    }
    assert order[..0] == [];
  }

  lemma KeptOrRemoved(mods: seq<Packed>, before: seq<Region>, kept: seq<Region>)
    requires Sorted(before) && OneEach(before)
    requires kept == before || WithoutModules(before, kept, NonBase(mods, |mods|))
    ensures Sorted(kept) && OneEach(kept) && |kept| <= |before|
    ensures forall e :: e in kept && !MarksUnpacked(mods, e) <==> e in before && !MarksUnpacked(mods, e)
  {
    hide Sorted, NonBase;
    var picks := NonBase(mods, |mods|);
    if kept != before {
      forall e
        ensures (exists k :: 0 <= k < |picks| && Marks(picks[k], e)) ==> MarksUnpacked(mods, e)
      {
        if k :| 0 <= k < |picks| && Marks(picks[k], e) {
          assert !mods[picks[k]].base;
        }
      }
      assert forall e :: e in kept ==> e in before;
    }
  }

  lemma StageZero(s: seq<Task>, old0: World, kept: State, expand: Decompressor)
    requires Expands(s, old0.bytes, expand) && Sorted(kept.entries)
    requires forall k :: 0 <= k < |s| ==> s[k].index < |old0.mods| && old0.mods[s[k].index] == s[k].p
    ensures Stage(s, old0, World(old0.bytes, old0.mods, kept), kept, expand, 0, 0)
  {
    hide Sorted, Expands;
    NothingDone(old0.bytes, Jobs0(s, old0, expand), 0);
  }

  /* The jobs, which exist because the data of every module lies in memory. */
  ghost function Jobs0(s: seq<Task>, old0: World, expand: Decompressor): seq<Job>
    requires Expands(s, old0.bytes, expand)
  {
    Jobs(s, old0.bytes, expand)
  }

  lemma RoomInBlock(s: seq<Task>, ram: seq<Region>, kept: State, capacity: nat, lim: Limits, at: nat, total: nat,
      size: nat)
    requires s != [] && 0 < total && 0 < s[|s| - 1].End() && Target(s) == Block(at, total)
    requires s[|s| - 1].End() - s[0].dst == total
    requires Clear(kept.entries, Block(at, total)) && exists i :: 0 <= i < |ram| && ram[i].Contains(Block(at, total))
    requires Sorted(kept.entries) && OneEach(kept.entries)
    requires |kept.entries| + Extra(s, kept.entries, 0, |s|) <= capacity && lim.Valid()
    requires at + total <= size <= lim.address && kept.combined + total <= lim.size
    ensures Room(s, ram, kept, capacity, lim)
  {
    hide Sorted, OneEach, PageRound, Extra;
  }

  /* However the target was chosen, the list gets no longer than it was at the start. */
  lemma ExtraFits(mods: seq<Packed>, order: seq<nat>, at: nat, before: seq<Region>, kept: seq<Region>)
    requires (forall i :: 0 <= i < |order| ==> order[i] < |mods| && 0 < mods[order[i]].m.size)
    requires AllReserved(mods, before) && |order| == |NonBase(mods, |mods|)|
    requires kept == before || WithoutModules(before, kept, NonBase(mods, |mods|))
    ensures |kept| + Extra(Tasks(mods, order, at), kept, 0, |order|) <= |before|
  {
    hide AllReserved, NonBase, Sorted;
    if kept == before {
      NoneExtra(mods, order, at, kept, |order|);
    } else {
      ExtraAtMost(Tasks(mods, order, at), kept, |order|);
    }
  }

  lemma OrderSizes(mods: seq<Packed>, order: seq<nat>, limit: nat)
    requires PackedValid(mods, limit) && Sorts(mods, order, NonBase(mods, |mods|))
    ensures forall i :: 0 <= i < |order| ==> order[i] < |mods| && 0 < mods[order[i]].m.size
    ensures |order| == |NonBase(mods, |mods|)|
  {
    hide NonBase, Ascending, PackedOne;
    var picks := NonBase(mods, |mods|);
    assert |multiset(order)| == |order| && |multiset(picks)| == |picks|;
    OrderOfNonBase(mods, order);
    hide Sorts;
    forall i | 0 <= i < |order|
      ensures 0 < mods[order[i]].m.size
    {
      OneFacts(mods, order[i], limit);
    }
  }

  lemma {:induction false} ExtraAtMost(s: seq<Task>, kept: seq<Region>, n: nat)
    requires n <= |s|
    ensures Extra(s, kept, 0, n) <= n
  {
    if n > 0 {
      ExtraAtMost(s, kept, n - 1);
    }
  }

  lemma {:induction false} NoneExtra(mods: seq<Packed>, order: seq<nat>, at: nat, kept: seq<Region>, n: nat)
    requires (forall i :: 0 <= i < |order| ==> order[i] < |mods| && 0 < mods[order[i]].m.size)
    requires AllReserved(mods, kept) && n <= |order|
    ensures Extra(Tasks(mods, order, at), kept, 0, n) == 0
  {
    if n > 0 {
      NoneExtra(mods, order, at, kept, n - 1);
      var i := order[n - 1];
      assert Tasks(mods, order, at)[n - 1].index == i;
      assert SourceRegion(mods[i], i) in kept && Marks(i, SourceRegion(mods[i], i));
    }
  }

  lemma OthersOutside(mods: seq<Packed>, before: seq<Region>, kept: seq<Region>, block: Region)
    requires Clear(kept, block)
    requires forall e :: e in kept && !MarksUnpacked(mods, e) <==> e in before && !MarksUnpacked(mods, e)
    ensures OthersSpared(mods, before, block)
  {
    hide MarksUnpacked;
    forall e | e in before && !MarksUnpacked(mods, e)
      ensures !e.Overlaps(block)
    {
      assert e in kept;
    }
  }

  /** A block inside one RAM region that no entry touches. */
  ghost predicate FreeBlock(ram: seq<Region>, regions: seq<Region>, dest: nat, total: nat)
    requires total > 0
  {
    && 0 < dest && Clear(regions, Block(dest, total))
    && exists i :: 0 <= i < |ram| && ram[i].Contains(Block(dest, total))
  }

  /** In front of the modules if that block is free, else right behind them if that one is, else the lowest
      free block further up. */
  ghost predicate NearChoice(ram: seq<Region>, regions: seq<Region>, q: Request, total: nat, rdest: nat, ldest: nat,
      dest: nat, up: bool)
    requires total > 0
  {
    && (up <==> FreeBlock(ram, regions, ldest, total))
    && (up ==> dest == ldest)
    && (!up && FreeBlock(ram, regions, rdest, total) ==> dest == rdest)
    && (!up && !FreeBlock(ram, regions, rdest, total) ==> q.size > 0 && q.unit > 0 && Lowest(q, dest))
  }

  /** Unpacking in the given direction spares all data that is still needed. */
  ghost predicate SafeTarget(mods: seq<Packed>, order: seq<nat>, dest: nat, up: bool) {
    && (forall i :: 0 <= i < |order| ==> order[i] < |mods|)
    && if up then SafeUp(Tasks(mods, order, dest)) else SafeDown(Tasks(mods, order, dest))
  }

  /** There is no free block from an address on that is behind all modules as far as needed. */
  ghost predicate NoRoomBehind(mods: seq<Packed>, q: Request, behind: nat) {
    BehindInHeader(mods, NonBase(mods, |mods|), behind) && q.min <= behind && !Possible(q)
  }

  lemma FreeBlockIs(ram: seq<Region>, regions: seq<Region>, dest: nat, total: nat)
    requires total > 0
    ensures FreeBlock(ram, regions, dest, total) <==>
      var block := Plain(dest, dest + total - 1);
      0 < dest && FirstContaining(ram, block) < |ram| && Clear(regions, block)
  {
    var i := FirstContaining(ram, Plain(dest, dest + total - 1));
    hide FirstContaining;
    assert i < |ram| ==> ram[i].Contains(Block(dest, total));
  }

  lemma FreeBlockFits(ram: seq<Region>, regions: seq<Region>, dest: nat, total: nat, size: nat)
    requires total > 0 && forall i :: 0 <= i < |ram| ==> ram[i].end < size
    ensures FreeBlock(ram, regions, dest, total) ==> dest + total <= size
  {
  }

  lemma NoBlockAtZero(ram: seq<Region>, regions: seq<Region>, total: nat)
    requires total > 0
    ensures !FreeBlock(ram, regions, 0, total)
  {
  }

  lemma LowestBlock(q: Request, r: nat, size: nat)
    requires q.size > 0 && q.unit > 0 && Lowest(q, r) && forall i :: 0 <= i < |q.ram| ==> q.ram[i].end < size
    ensures r != 0 ==> FreeBlock(q.ram, q.regions, r, q.size) && q.min <= r && r + q.size <= size
    ensures r == 0 ==> !Possible(q)
  {
  }

  /* The lowest module, where the search starts. */
  lemma FirstFacts(mods: seq<Packed>, order: seq<nat>, limit: nat)
    requires PackedValid(mods, limit) && Sorts(mods, order, NonBase(mods, |mods|)) && order != [] && limit + PAGE < SAFE
    ensures order[0] < |mods| && IsLowest(mods, order[0])
    ensures var p := mods[order[0]];
      && PageAligned(PageRound(p.End())) && PAGE <= PageRound(p.End()) <= limit + PAGE
      && FrontStart(mods, BeforeStart(p.m.start, p.unpacked), limit)
  {
    hide NonBase, PageRound, PackedValid, BeforeStart, PageAligned, PackedOne;
    var p := mods[order[0]];
    OneFacts(mods, order[0], limit);
    StartAligned(mods, order[0], limit);
    PageRoundFacts(p.End());
    AtLeastOnePage(PageRound(p.End()));
    OrderOfNonBase(mods, order);
    forall j | 0 <= j < |mods| && !mods[j].base
      ensures p.m.start <= mods[j].m.start
    {
      var k := PositionOf(mods, order, j);
      OrderedFirst(mods, order, NonBase(mods, |mods|), k);
    }
    BeforeStartExact(p.m.start, p.unpacked);
    var f := NonBase(mods, |mods|)[0];
    if mods[f].m.start == 0 {
      SameModule(mods, order[0], f, limit);
    }
  }

  lemma SameModule(mods: seq<Packed>, i: nat, j: nat, limit: nat)
    requires PackedValid(mods, limit) && i < |mods| && j < |mods| && mods[i].m.start == mods[j].m.start
    ensures i == j
  {
    hide PackedOne;
    OneFacts(mods, i, limit);
    OneFacts(mods, j, limit);
  }

  /* When a block does not end in 64 bits. */
  lemma EndsBefore(mods: seq<Packed>, l0: nat, ldest: nat, total: nat, limit: nat)
    requires FrontTarget(mods, l0, limit, ldest) && limit < SAFE && 0 < total <= SAFE
    ensures ldest > Wrap(ldest + total - 1) <==> TOP < ldest + total
  {
    hide Closest, BeforeInHeader, Sum, NonBase;
    WrapOnce(ldest + total - 1);
    hide Wrap;
  }

  /** When the lowest module comes first in the header, the block before the modules reaches beyond the top
      exactly if that module lies below its unpacked size. */
  lemma WrapsInOrder(mods: seq<Packed>, limit: nat)
    requires PackedValid(mods, limit) && limit + PAGE < SAFE && NonBase(mods, |mods|) != []
    requires var first := NonBase(mods, |mods|)[0]; IsLowest(mods, first) && 0 < mods[first].m.start
    ensures var p := mods[NonBase(mods, |mods|)[0]]; CandidateWraps(mods, p) <==> p.m.start < p.unpacked
  {
    hide NonBase, PackedValid, PageRound, BeforeStart, PageAligned, PackedOne;
    var s := NonBase(mods, |mods|);
    OneFacts(mods, s[0], limit);
    StartAligned(mods, s[0], limit);
    UnpackedRound(mods[s[0]], limit);
    BeforeStartExact(mods[s[0]].m.start, mods[s[0]].unpacked);
    assert !mods[s[|s| - 1]].base;
  }

  lemma OrderedFirst(mods: seq<Packed>, order: seq<nat>, s: seq<nat>, k: nat)
    requires Sorts(mods, order, s) && k < |order|
    ensures order[0] < |mods| && order[k] < |mods| && mods[order[0]].m.start <= mods[order[k]].m.start
  {
    var u := Unpacked(mods);
    assert u[order[0]].start == mods[order[0]].m.start && u[order[k]].start == mods[order[k]].m.start;
  }

  /* Sorting does not change the total. */
  lemma SumOfOrder(mods: seq<Packed>, order: seq<nat>, s: seq<nat>)
    requires Sorts(mods, order, s)
    ensures (forall k :: 0 <= k < |order| ==> order[k] < |mods|) && (forall k :: 0 <= k < |s| ==> s[k] < |mods|)
    ensures Sum(Unpacked(mods), order) == Sum(Unpacked(mods), s)
  {
    hide Sum, BelowSum;
    forall k | 0 <= k < |s|
      ensures s[k] < |mods|
    {
      var p := MemberOf(s, order, k);
    }
    var u := Unpacked(mods);
    var v := AboveAll(u, |u|);
    BelowPermutation(u, order, s, v);
    BelowAll(u, order, v);
    BelowAll(u, s, v);
  }

  lemma {:induction false} AboveAll(u: seq<Module>, n: nat) returns (v: nat)
    requires n <= |u|
    ensures forall i :: 0 <= i < n ==> u[i].start < v
  {
    v := 0;
    if n > 0 {
      v := AboveAll(u, n - 1);
      v := v + u[n - 1].start + 1;
    }
  }

  lemma StillLow(before: seq<Region>, now: seq<Region>, s: seq<nat>)
    requires WithoutModules(before, now, s) && forall i :: 0 <= i < |before| ==> before[i].end < SAFE
    ensures Sorted(now) && |now| <= |before| && forall i :: 0 <= i < |now| ==> now[i].end < SAFE
  {
    hide Sorted, Marks;
    forall i | 0 <= i < |now|
      ensures now[i].end < SAFE
    {
      assert now[i] in before;
    }
  }

  lemma NearIsSafe(mods: seq<Packed>, order: seq<nat>, rdest: nat, l0: nat, ldest: nat, dest: nat, up: bool, size: nat)
    requires PackedValid(mods, size) && Sorts(mods, order, NonBase(mods, |mods|)) && size < SAFE
    requires BehindInHeader(mods, NonBase(mods, |mods|), rdest) && FrontTarget(mods, l0, size, ldest)
    requires dest != 0 ==> dest <= size && if up then dest == ldest else rdest <= dest
    ensures dest != 0 ==> SafeTarget(mods, order, dest, up)
  {
    hide Sorts, NonBase, PackedValid, Sum;
    if dest != 0 {
      if up {
        BeforeIsSafe(mods, order, NonBase(mods, |mods|), dest, size);
      } else {
        assert BehindInHeader(mods, NonBase(mods, |mods|), dest);
        BehindIsSafe(mods, order, NonBase(mods, |mods|), dest, size);
      }
    }
  }

  lemma FreeIsSafe(mods: seq<Packed>, order: seq<nat>, dest: nat, total: nat, size: nat, ram: seq<Region>,
      regions: seq<Region>)
    requires PackedValid(mods, size) && (forall i :: 0 <= i < |order| ==> order[i] < |mods|)
    requires 0 < total == Sum(Unpacked(mods), order) && dest + total <= size && FreeBlock(ram, regions, dest, total)
    requires AllReserved(mods, regions)
    ensures SafeTarget(mods, order, dest, true)
  {
    hide Sum, PackedValid, AllReserved;
    ElsewhereIsSafe(mods, order, dest, size, regions);
  }

  /** The modules to be unpacked among the first `i`, by ascending address. */
  ghost predicate SortedUpTo(mods: seq<Packed>, s: seq<nat>, i: nat) {
    && i <= |mods| && Ascending(Unpacked(mods), s) && multiset(s) == multiset(NonBase(mods, i)) &&
      |s| == |NonBase(mods, i)|
  }

  lemma SortedNone(mods: seq<Packed>)
    ensures SortedUpTo(mods, [], 0)
  {
  }

  lemma SortedNext(mods: seq<Packed>, s: seq<nat>, i: nat)
    requires SortedUpTo(mods, s, i) && i < |mods|
    ensures forall k :: 0 <= k < |s| ==> s[k] < |Unpacked(mods)|
    ensures SortedUpTo(mods, if mods[i].base then s else OrderInsert(Unpacked(mods), s, i), i + 1)
    ensures |s| <= |NonBase(mods, |mods|)| && (!mods[i].base ==> |s| < |NonBase(mods, |mods|)|)
  {
    hide NonBase, OrderInsert, Sum;
    NonBaseNext(mods, i);
    NonBaseGrows(mods, i + 1, |mods|);
    if !mods[i].base {
      InsertionKeepsOrder(Unpacked(mods), s, i);
      hide Ascending;
      SameLength(OrderInsert(Unpacked(mods), s, i), s, i);
    }
  }

  lemma SortedDone(mods: seq<Packed>, s: seq<nat>)
    requires SortedUpTo(mods, s, |mods|)
    ensures Sorts(mods, s, NonBase(mods, |mods|)) && |s| == |NonBase(mods, |mods|)|
  {
    var t := NonBase(mods, |mods|);
    hide NonBase, Ascending;
    forall i, j | 0 <= i < j < |s|
      ensures s[i] != s[j]
    {
      if s[i] == s[j] {
        TwiceCounts(s, i, j);
      }
      var p := MemberOf(s, t, i);
      OnceCounts(t, p);
    }
  }

  lemma OnceCounts(t: seq<nat>, p: nat)
    requires p < |t| && forall i, j :: 0 <= i < j < |t| ==> t[i] < t[j]
    ensures multiset(t)[t[p]] == 1
  {
    assert t == t[..p] + [t[p]] + t[p + 1..];
    assert t[p] !in t[..p] && t[p] !in t[p + 1..];
  }

  lemma FirstMarkedIs(s: seq<Region>, index: nat, i: nat)
    requires i <= |s| && (forall j :: 0 <= j < i ==> !Marks(index, s[j])) && (i < |s| ==> Marks(index, s[i]))
    ensures FirstMarked(s, index) == i
  {
  }

  lemma SameLength(s: seq<nat>, t: seq<nat>, v: nat)
    requires multiset(s) == multiset(t) + multiset{v}
    ensures |s| == |t| + 1
  {
    assert |multiset(s)| == |s| && |multiset(t)| == |t|;
  }
}
