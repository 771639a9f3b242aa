/** Unpacking the boot modules in place (`decompress_mods` in server/src/boot_modules.cc). */
module UnpackModules {
  import opened Regions
  import opened RegionLists
  import opened FreeSearch
  import opened CopySchedule
  import opened ModuleOrder
  import opened UnpackPlans
  import opened UnpackStages

  /* ---- the targets ---- */

  ghost function TaskAt(mods: seq<Packed>, order: seq<nat>, dest: nat, k: nat): Task
    requires k < |order| && forall i :: 0 <= i < |order| ==> order[i] < |mods|
  {
    Task(order[k], mods[order[k]], dest + Sum(Unpacked(mods), order[..k]))
  }

  ghost function Tasks(mods: seq<Packed>, order: seq<nat>, dest: nat): (s: seq<Task>)
    requires forall i :: 0 <= i < |order| ==> order[i] < |mods|
    ensures |s| == |order| && forall k :: 0 <= k < |s| ==> s[k] == TaskAt(mods, order, dest, k)
  {
    seq(|order|, k requires 0 <= k < |order| &&
      (forall i :: 0 <= i < |order| ==> order[i] < |mods|) => TaskAt(mods, order, dest, k))
  }

  lemma SortsRange(mods: seq<Packed>, order: seq<nat>, s: seq<nat>)
    requires Sorts(mods, order, s)
    ensures forall i :: 0 <= i < |order| ==> order[i] < |mods|
    ensures forall i, j :: 0 <= i < j < |order| ==> order[i] != order[j]
  {
  }

  lemma TaskFits(mods: seq<Packed>, order: seq<nat>, dest: nat, k: nat, size: nat)
    requires PackedValid(mods, size) && (forall i :: 0 <= i < |order| ==> order[i] < |mods|)
    requires k < |order| && 0 < dest && dest + Sum(Unpacked(mods), order) <= size
    ensures var t := TaskAt(mods, order, dest, k);
      t.Fits(size) && dest <= t.dst &&
        t.End() == dest + Sum(Unpacked(mods), order[..k + 1]) <= dest + Sum(Unpacked(mods), order)
  {
    hide Sum, PageRound, PackedOne, PageAligned;
    var u := Unpacked(mods);
    SumNext(u, order, k);
    SumGrows(u, order, k + 1, |order|);
    assert order[..|order|] == order;
    assert PackedOne(mods[order[k]], size);
    UnpackedRound(mods[order[k]], size);
    PackedShape(mods[order[k]], size);
  }

  lemma PackedShape(p: Packed, size: nat)
    requires PackedOne(p, size)
    ensures 0 < p.m.size && p.End() <= size && 0 < p.unpacked <= size
  {
  }

  lemma TasksRow(mods: seq<Packed>, order: seq<nat>, dest: nat, size: nat)
    requires PackedValid(mods, size) && (forall i :: 0 <= i < |order| ==> order[i] < |mods|)
    requires forall i, j :: 0 <= i < j < |order| ==> order[i] != order[j]
    requires 0 < dest && dest + Sum(Unpacked(mods), order) <= size
    ensures Row(Tasks(mods, order, dest), size)
  {
    hide Sum, PageRound, PackedValid, Task.Fits;
    var s := Tasks(mods, order, dest);
    forall k | 0 <= k < |s|
      ensures s[k].Fits(size)
    {
      TaskFits(mods, order, dest, k, size);
    }
    forall i, j | 0 <= i < j < |s|
      ensures InRow(s[i], s[j])
    {
      TaskFits(mods, order, dest, i, size);
      SumGrows(Unpacked(mods), order, i + 1, j);
    }
  }

  /** Before the data, going up is safe. */
  lemma BeforeIsSafe(mods: seq<Packed>, order: seq<nat>, s: seq<nat>, dest: nat, size: nat)
    requires PackedValid(mods, size) && Sorts(mods, order, s) && BeforeInHeader(mods, s, dest)
    ensures (forall i :: 0 <= i < |order| ==> order[i] < |mods|) && SafeUp(Tasks(mods, order, dest))
  {
    hide Sum, PageRound, PackedValid, BeforeInHeader, Sorts;
    SortsRange(mods, order, s);
    var t := Tasks(mods, order, dest);
    forall k, j | 0 <= k <= j < |t|
      ensures t[k].Misses(t[j])
    {
      BeforeInAnyOrder(mods, size, order, s, dest, k);
      if k < j {
        AroundPosition(mods, size, order, s, j);
      }
    }
  }

  /** Behind the data, going down is safe. */
  lemma BehindIsSafe(mods: seq<Packed>, order: seq<nat>, s: seq<nat>, dest: nat, size: nat)
    requires PackedValid(mods, size) && Sorts(mods, order, s) && BehindInHeader(mods, s, dest)
    ensures (forall i :: 0 <= i < |order| ==> order[i] < |mods|) && SafeDown(Tasks(mods, order, dest))
  {
    hide Sum, PageRound, PackedValid, BehindInHeader, Sorts;
    SortsRange(mods, order, s);
    var t := Tasks(mods, order, dest);
    forall k, j | 0 <= j <= k < |t|
      ensures t[k].Misses(t[j])
    {
      BehindInAnyOrder(mods, size, order, s, dest, k);
      if j < k {
        AroundPosition(mods, size, order, s, k);
      }
      SizePositive(mods, size, order[k]);
    }
  }

  lemma SizePositive(mods: seq<Packed>, size: nat, i: nat)
    requires PackedValid(mods, size) && i < |mods|
    ensures 0 < mods[i].m.size
  {
    assert PackedOne(mods[i], size);
  }

  /** Every module of the header is reserved where it lies. */
  ghost predicate AllReserved(mods: seq<Packed>, regions: seq<Region>) {
    forall i :: 0 <= i < |mods| && 0 < mods[i].m.size ==> SourceRegion(mods[i], i) in regions
  }

  function SourceRegion(p: Packed, i: nat): Region
    requires 0 < p.m.size
  {
    Region(p.m.start, p.End() - 1, MOD_REG, Boot, i, false)
  }

  /** A block that no reserved region touches is safe in any direction. */
  lemma ElsewhereIsSafe(mods: seq<Packed>, order: seq<nat>, dest: nat, size: nat, regions: seq<Region>)
    requires PackedValid(mods, size) && (forall i :: 0 <= i < |order| ==> order[i] < |mods|)
    requires 0 < dest && dest + Sum(Unpacked(mods), order) <= size && 0 < Sum(Unpacked(mods), order)
    requires AllReserved(mods, regions) && Clear(regions, Block(dest, Sum(Unpacked(mods), order)))
    ensures SafeUp(Tasks(mods, order, dest))
  {
    hide Sum, PageRound, PackedValid;
    var t := Tasks(mods, order, dest);
    forall k, j | 0 <= k <= j < |t|
      ensures t[k].Misses(t[j])
    {
      TaskFits(mods, order, dest, k, size);
      SizePositive(mods, size, order[j]);
      var e := SourceRegion(mods[order[j]], order[j]);
      var i :| 0 <= i < |regions| && regions[i] == e;
      assert !regions[i].Overlaps(Block(dest, Sum(Unpacked(mods), order)));
    }
  }

  /* ---- the scan ---- */

  /* One module further in the header: the target is moved on if the new module demands it. */
  lemma BehindNext(mods: seq<Packed>, s: seq<nat>, i: nat, dest: nat, next: nat)
    requires BehindInHeader(mods, s, dest) && i < |mods| && dest <= next
    requires mods[i].End() <= next + Sum(Unpacked(mods), s)
    ensures BehindInHeader(mods, s + [i], next)
  {
    hide Sum;
    var t := s + [i];
    forall p | 0 <= p < |t|
      ensures mods[t[p]].End() <= next + Sum(Unpacked(mods), t[..p])
    {
      assert t[..p] == s[..p];
      assert s[..|s|] == s;
    }
  }

  lemma BeforeNext(mods: seq<Packed>, s: seq<nat>, i: nat, dest: nat, next: nat)
    requires BeforeInHeader(mods, s, dest) && i < |mods| && next <= dest
    requires next + Sum(Unpacked(mods), s) + mods[i].unpacked <= mods[i].m.start
    ensures BeforeInHeader(mods, s + [i], next)
  {
    hide Sum;
    var t := s + [i];
    forall p | 0 <= p < |t|
      ensures next + Sum(Unpacked(mods), t[..p]) + mods[t[p]].unpacked <= mods[t[p]].m.start
    {
      assert t[..p] == s[..p];
      assert s[..|s|] == s;
    }
  }

  lemma SumAdd(u: seq<Module>, s: seq<nat>, i: nat)
    requires (forall k :: 0 <= k < |s| ==> s[k] < |u|) && i < |u|
    ensures Sum(u, s + [i]) == Sum(u, s) + PageRound(u[i].size)
  {
    assert (s + [i])[..|s|] == s;
  }

  /** The entries left after the entries of the modules `s` were removed. */
  ghost predicate WithoutModules(before: seq<Region>, now: seq<Region>, s: seq<nat>) {
    && Sorted(now) && |now| + |s| <= |before|
    && forall e :: e in now <==> e in before && !(exists k :: 0 <= k < |s| && Marks(s[k], e))
  }

  /* One more module is taken off the list, which had an entry for it. */
  lemma WithoutNext(mods: seq<Packed>, before: seq<Region>, now: seq<Region>, next: seq<Region>, s: seq<nat>, i: nat)
    requires WithoutModules(before, now, s) && next == Remaining(now, e => Marks(i, e))
    requires i < |mods| && 0 < mods[i].m.size && AllReserved(mods, before) && forall k :: 0 <= k < |s| ==> s[k] != i
    ensures WithoutModules(before, next, s + [i])
  {
    var own := SourceRegion(mods[i], i);
    assert Marks(i, own) && !(exists k :: 0 <= k < |s| && Marks(s[k], own)) && own in now;
    hide Sorted, Marks, AllReserved;
    RemainingSorted(now, e => Marks(i, e));
    OneLess(now, e => Marks(i, e), own);
    forall e
      ensures e in next <==> e in before && !(exists k :: 0 <= k < |s + [i]| && Marks((s + [i])[k], e))
    {
      RemainingMeaning(now, x => Marks(i, x), e);
      SomeNext(s, i, e);
    }
  }

  lemma {:induction false} OneLess(s: seq<Region>, drop: Region -> bool, e: Region)
    requires e in s && drop(e)
    ensures |Remaining(s, drop)| < |s|
  {
    if e == s[0] {
      NotMore(s[1..], drop);
    } else {
      OneLess(s[1..], drop, e);
    }
  }

  lemma {:induction false} NotMore(s: seq<Region>, drop: Region -> bool)
    ensures |Remaining(s, drop)| <= |s|
  {
    if s != [] {
      NotMore(s[1..], drop);
    }
  }

  lemma SomeNext(s: seq<nat>, i: nat, e: Region)
    ensures (exists k :: 0 <= k < |s + [i]| && Marks((s + [i])[k], e)) <==>
      (exists k :: 0 <= k < |s| && Marks(s[k], e)) || Marks(i, e)
  {
    hide Marks;
    var t := s + [i];
    if Marks(i, e) {
      assert t[|s|] == i;
    }
    if k :| 0 <= k < |s| && Marks(s[k], e) {
      assert t[k] == s[k];
    }
  }

  /* ---- the whole operation ---- */

  /** Every module that is not a base module holds its unpacked content, on pages of its own within the
      block. The modules are in the order they had; the base modules are untouched. */
  ghost predicate AllUnpacked(mods: seq<Packed>, after: seq<Packed>, was: seq<bv8>, now: seq<bv8>, expand: Decompressor,
      block: Region) {
    && |after| == |mods| && |now| == |was|
    && (forall i :: 0 <= i < |mods| ==>
        if mods[i].base then after[i] == mods[i] else Settled(mods[i], after[i], was, now, expand, block))
    && (forall i, j ::
      0 <= i < |mods| && 0 <= j < |mods| && !mods[i].base && !mods[j].base && mods[i].m.start < mods[j].m.start ==>
        after[i].m.start + PageRound(after[i].unpacked) <= after[j].m.start)
    && (forall x :: 0 <= x < |was| && !block.Holds(x) ==> now[x] == was[x])
  }

  ghost predicate Settled(p: Packed, q: Packed, was: seq<bv8>, now: seq<bv8>, expand: Decompressor, block: Region) {
    && q == Packed(Module(q.m.start, p.unpacked, p.m.name, p.m.kind, p.m.sub), p.unpacked, p.base)
    && p.m.start + p.m.size <= |was| && q.m.start + p.unpacked <= |now|
    && block.begin <= q.m.start && q.m.start + PageRound(q.unpacked) <= block.end + 1
    && var data := was[p.m.start..p.m.start + p.m.size];
      now[q.m.start..q.m.start + p.unpacked] == if p.m.size != p.unpacked then expand(data) else data
  }

  lemma TaskSettled(t: Task, q: Packed, was: seq<bv8>, now: seq<bv8>, expand: Decompressor, block: Region)
    requires |now| == |was| && t.Fits(|was|) && q == Done(t.p, t.dst) && |Content(t.p, was, expand)| == t.p.unpacked
    requires now[t.dst..t.dst + |Content(t.p, was, expand)|] == Content(t.p, was, expand)
    requires block.begin <= t.dst && t.End() <= block.end + 1
    ensures Settled(t.p, q, was, now, expand, block)
  {
    hide PageRound;
    assert t.p.m.size == t.p.unpacked ||
      Content(t.p, was, expand) == expand(was[t.p.m.start..t.p.m.start + t.p.m.size]);
  }

  lemma TaskDone(s: seq<Task>, old0: World, w: World, kept: State, expand: Decompressor, block: Region, k: nat)
    requires Row(s, |old0.bytes|) && Expands(s, old0.bytes, expand) && Stage(s, old0, w, kept, expand, 0, |s|)
    requires s != [] && k < |s| && 0 < s[|s| - 1].End() && block == Target(s)
    ensures |w.bytes| == |old0.bytes| && s[k].index < |w.mods| == |old0.mods|
    ensures w.mods[s[k].index] == Done(s[k].p, s[k].dst)
    ensures Settled(s[k].p, w.mods[s[k].index], old0.bytes, w.bytes, expand, block)
  {
    hide PageRound, RegionsStage, Content, Touched, InRow;
    InTarget(s, |old0.bytes|, k);
    assert Jobs(s, old0.bytes, expand)[k] == s[k].Copy(old0.bytes, expand);
    TaskSettled(s[k], w.mods[s[k].index], old0.bytes, w.bytes, expand, block);
  }

  lemma UntouchedOutside(s: seq<Task>, was: seq<bv8>, now: seq<bv8>, expand: Decompressor, block: Region)
    requires Row(s, |was|) && Expands(s, was, expand) && Progress(was, now, Jobs(s, was, expand), 0, |s|)
    requires s != [] && 0 < s[|s| - 1].End() && block == Target(s)
    ensures forall x :: 0 <= x < |was| && !block.Holds(x) ==> now[x] == was[x]
  {
    hide PageRound, Content;
    forall x | 0 <= x < |was| && !block.Holds(x)
      ensures !Touched(Jobs(s, was, expand), 0, |s|, x)
    {
      forall k | 0 <= k < |s|
        ensures !Jobs(s, was, expand)[k].Writes(x)
      {
        InTarget(s, |was|, k);
        assert s[k].Fits(|was|);
      }
    }
  }

  /** The entries afterwards: those that were there, except for the old ones of the unpacked modules,
      and the new ones of the unpacked modules, rounded to whole pages. */
  ghost predicate RegionsAfter(mods: seq<Packed>, after: seq<Packed>, before: seq<Region>, now: seq<Region>) {
    && Sorted(now) && |after| == |mods|
    && forall e :: e in now <==>
      (e in before && !MarksUnpacked(mods, e)) || (exists i :: 0 <= i < |mods| && NewRegion(mods, after, i, e))
  }

  ghost predicate MarksUnpacked(mods: seq<Packed>, e: Region) {
    exists i :: 0 <= i < |mods| && !mods[i].base && e.name == MOD_REG && e.sub == i
  }

  ghost predicate NewRegion(mods: seq<Packed>, after: seq<Packed>, i: nat, e: Region)
    requires i < |mods| == |after|
  {
    && !mods[i].base && 0 < PageRound(after[i].unpacked)
    && e == Region(after[i].m.start, after[i].m.start + PageRound(after[i].unpacked) - 1, MOD_REG,
                   if mods[i].m.size != mods[i].unpacked then Boot else Root, i, false)
  }

  lemma OrderOfNonBase(mods: seq<Packed>, order: seq<nat>)
    requires Sorts(mods, order, NonBase(mods, |mods|))
    ensures forall k :: 0 <= k < |order| ==> order[k] < |mods| && !mods[order[k]].base
    ensures forall i :: 0 <= i < |mods| && !mods[i].base ==> i in order
  {
    hide NonBase, Ascending;
    var s := NonBase(mods, |mods|);
    forall k | 0 <= k < |order|
      ensures order[k] in s
    {
      var p := MemberOf(order, s, k);
    }
    forall i | i in s
      ensures i in order
    {
      var p :| 0 <= p < |s| && s[p] == i;
      var k := MemberOf(s, order, p);
    }
  }

  lemma {:induction false} PositionOf(mods: seq<Packed>, order: seq<nat>, i: nat) returns (k: nat)
    requires Sorts(mods, order, NonBase(mods, |mods|)) && i < |mods| && !mods[i].base
    ensures k < |order| && order[k] == i
  {
    OrderOfNonBase(mods, order);
    k :| 0 <= k < |order| && order[k] == i;
  }

  lemma OrderedStarts(mods: seq<Packed>, order: seq<nat>, s: seq<nat>, k: nat, l: nat)
    requires Sorts(mods, order, s) && k < |order| && l < |order|
    ensures order[k] < |mods| && order[l] < |mods|
    ensures mods[order[k]].m.start < mods[order[l]].m.start ==> k < l
  {
    var u := Unpacked(mods);
    assert u[order[k]].start == mods[order[k]].m.start && u[order[l]].start == mods[order[l]].m.start;
  }

  lemma PairInOrder(order: seq<nat>, dest: nat, old0: World, w: World, kept: State, expand: Decompressor, block: Region,
      i: nat, j: nat)
    requires Sorts(old0.mods, order, NonBase(old0.mods, |old0.mods|))
    requires forall k :: 0 <= k < |order| ==> order[k] < |old0.mods|
    requires Row(Tasks(old0.mods, order, dest), |old0.bytes|)
    requires Expands(Tasks(old0.mods, order, dest), old0.bytes, expand)
    requires Stage(Tasks(old0.mods, order, dest), old0, w, kept, expand, 0, |order|)
    requires order != [] && 0 < Tasks(old0.mods, order, dest)[|order| - 1].End()
    requires block == Target(Tasks(old0.mods, order, dest))
    requires i < |old0.mods| && j < |old0.mods| && !old0.mods[i].base && !old0.mods[j].base
    requires old0.mods[i].m.start < old0.mods[j].m.start
    ensures i < |w.mods| && j < |w.mods| && w.mods[i].m.start + PageRound(w.mods[i].unpacked) <= w.mods[j].m.start
  {
    hide Sum, PageRound, Sorts, Row, Stage, Task.Fits, Expands, NonBase, Done, Task.End;
    var mods, s := old0.mods, Tasks(old0.mods, order, dest);
    var k := PositionOf(mods, order, i);
    var l := PositionOf(mods, order, j);
    OrderedStarts(mods, order, NonBase(mods, |mods|), k, l);
    InOrderAfter(s, old0, w, kept, expand, block, k, l);
  }

  /** When every module has been unpacked, all is well. */
  lemma FinalStage(order: seq<nat>, dest: nat, old0: World, w: World, kept: State, expand: Decompressor)
    requires PackedValid(old0.mods, |old0.bytes|) && Sorts(old0.mods, order, NonBase(old0.mods, |old0.mods|))
    requires order != []
    requires forall i :: 0 <= i < |order| ==> order[i] < |old0.mods|
    requires 0 < dest && dest + Sum(Unpacked(old0.mods), order) <= |old0.bytes| && 0 < Sum(Unpacked(old0.mods), order)
    requires Row(Tasks(old0.mods, order, dest), |old0.bytes|)
    requires Expands(Tasks(old0.mods, order, dest), old0.bytes, expand)
    requires Stage(Tasks(old0.mods, order, dest), old0, w, kept, expand, 0, |order|)
    ensures AllUnpacked(old0.mods, w.mods, old0.bytes, w.bytes, expand, Block(dest, Sum(Unpacked(old0.mods), order)))
  {
    hide Sum, PageRound, PackedValid, Settled, Sorts, Row, Stage, Task.Fits, Expands, NonBase, Progress, ModsStage,
      RegionsStage, Done, Task.End, Target, Content, Sorted, PackedOne, PageAligned, InRow;
    var mods, s := old0.mods, Tasks(old0.mods, order, dest);
    var block := Block(dest, Sum(Unpacked(mods), order));
    TargetIsBlock(mods, order, dest, |old0.bytes|);
    OrderOfNonBase(mods, order);
    StageParts(s, old0, w, kept, expand);
    forall i | 0 <= i < |mods|
      ensures if mods[i].base then w.mods[i] == mods[i]
        else Settled(mods[i], w.mods[i], old0.bytes, w.bytes, expand, block)
    {
      if mods[i].base {
        BaseUntouched(s, mods, w.mods, i);
      } else {
        var k := PositionOf(mods, order, i);
        TaskDone(s, old0, w, kept, expand, block, k);
      }
    }
    forall i, j | 0 <= i < |mods| && 0 <= j < |mods| && !mods[i].base && !mods[j].base &&
      mods[i].m.start < mods[j].m.start
      ensures w.mods[i].m.start + PageRound(w.mods[i].unpacked) <= w.mods[j].m.start
    {
      PairInOrder(order, dest, old0, w, kept, expand, block, i, j);
    }
    UntouchedOutside(s, old0.bytes, w.bytes, expand, block);
  }

  lemma BaseUntouched(s: seq<Task>, mods: seq<Packed>, after: seq<Packed>, i: nat)
    requires ModsStage(s, mods, after, 0, |s|) && i < |mods|
    requires forall k :: 0 <= k < |s| ==> s[k].index != i
    ensures |after| == |mods| && after[i] == mods[i]
  {
  }

  lemma InOrderAfter(s: seq<Task>, old0: World, w: World, kept: State, expand: Decompressor, block: Region, k: nat,
      l: nat)
    requires Row(s, |old0.bytes|) && Expands(s, old0.bytes, expand) && Stage(s, old0, w, kept, expand, 0, |s|)
    requires s != [] && k < l < |s| && 0 < s[|s| - 1].End() && block == Target(s)
    ensures s[k].index < |w.mods| && s[l].index < |w.mods|
    ensures w.mods[s[k].index].m.start + PageRound(w.mods[s[k].index].unpacked) <= w.mods[s[l].index].m.start
  {
    hide Row, Expands, Stage, PageRound, Settled;
    TaskDone(s, old0, w, kept, expand, block, k);
    TaskDone(s, old0, w, kept, expand, block, l);
    RowStep(s, |old0.bytes|, k, l);
  }

  lemma RowStep(s: seq<Task>, size: nat, k: nat, l: nat)
    requires Row(s, size) && k < l < |s|
    ensures s[k].dst + PageRound(s[k].p.unpacked) <= s[l].dst
  {
    hide PageRound, Task.Fits;
    assert InRow(s[k], s[l]);
  }

  lemma StageParts(s: seq<Task>, old0: World, w: World, kept: State, expand: Decompressor)
    requires Expands(s, old0.bytes, expand) && Stage(s, old0, w, kept, expand, 0, |s|)
    ensures |w.bytes| == |old0.bytes| && |w.mods| == |old0.mods|
    ensures Progress(old0.bytes, w.bytes, Jobs(s, old0.bytes, expand), 0, |s|)
    ensures ModsStage(s, old0.mods, w.mods, 0, |s|)
    ensures RegionsStage(s, w.regions, kept, 0, |s|)
  {
  }

  lemma TargetIsBlock(mods: seq<Packed>, order: seq<nat>, dest: nat, size: nat)
    requires PackedValid(mods, size) && (forall i :: 0 <= i < |order| ==> order[i] < |mods|) && order != []
    requires 0 < dest && dest + Sum(Unpacked(mods), order) <= size && 0 < Sum(Unpacked(mods), order)
    ensures var s := Tasks(mods, order, dest);
      && 0 < s[|s| - 1].End() && Target(s) == Block(dest, Sum(Unpacked(mods), order))
      && s[|s| - 1].End() - s[0].dst == Sum(Unpacked(mods), order) && s[0].dst == dest
  {
    hide PageRound, PackedValid, Task.Fits;
    TaskFits(mods, order, dest, |order| - 1, size);
    assert order[..|order|] == order && order[..0] == [];
    assert Sum(Unpacked(mods), order[..0]) == 0;
  }

  lemma FinalRegions(order: seq<nat>, dest: nat, old0: World, w: World, kept: State, before: seq<Region>,
      expand: Decompressor)
    requires Sorts(old0.mods, order, NonBase(old0.mods, |old0.mods|))
    requires forall i :: 0 <= i < |order| ==> order[i] < |old0.mods|
    requires Expands(Tasks(old0.mods, order, dest), old0.bytes, expand)
    requires Stage(Tasks(old0.mods, order, dest), old0, w, kept, expand, 0, |order|)
    requires forall e :: e in kept.entries && !MarksUnpacked(old0.mods, e) <==>
      e in before && !MarksUnpacked(old0.mods, e)
    ensures RegionsAfter(old0.mods, w.mods, before, w.regions.entries)
  {
    hide Sum, PageRound, Sorts, Stage, Expands, NonBase, Marks, MarksUnpacked, NewRegion;
    var mods, s := old0.mods, Tasks(old0.mods, order, dest);
    StageParts(s, old0, w, kept, expand);
    hide ModsStage;
    forall e
      ensures TakenOff(s, 0, |s|, e) <==> MarksUnpacked(mods, e)
      ensures Placed(s, 0, |s|, e) <==> exists i :: 0 <= i < |mods| && NewRegion(mods, w.mods, i, e)
    {
      SameMarks(order, dest, old0, e);
      SameRegions(order, dest, old0, w, e);
    }
  }

  lemma SameMarks(order: seq<nat>, dest: nat, old0: World, e: Region)
    requires Sorts(old0.mods, order, NonBase(old0.mods, |old0.mods|))
    requires forall i :: 0 <= i < |order| ==> order[i] < |old0.mods|
    ensures TakenOff(Tasks(old0.mods, order, dest), 0, |order|, e) <==> MarksUnpacked(old0.mods, e)
  {
    hide Sum, PageRound, Sorts, NonBase;
    var mods, s := old0.mods, Tasks(old0.mods, order, dest);
    OrderOfNonBase(mods, order);
    if MarksUnpacked(mods, e) {
      var i :| 0 <= i < |mods| && !mods[i].base && e.name == MOD_REG && e.sub == i;
      assert Marks(i, e);
      var k := PositionOf(mods, order, i);
      assert s[k].index == i;
    }
  }

  lemma SameRegions(order: seq<nat>, dest: nat, old0: World, w: World, e: Region)
    requires Sorts(old0.mods, order, NonBase(old0.mods, |old0.mods|)) && |w.mods| == |old0.mods|
    requires forall i :: 0 <= i < |order| ==> order[i] < |old0.mods|
    requires ModsStage(Tasks(old0.mods, order, dest), old0.mods, w.mods, 0, |order|)
    ensures Placed(Tasks(old0.mods, order, dest), 0, |order|, e) <==>
      exists i :: 0 <= i < |old0.mods| && NewRegion(old0.mods, w.mods, i, e)
  {
    hide Sum, PageRound, Sorts, NonBase;
    var mods, s := old0.mods, Tasks(old0.mods, order, dest);
    OrderOfNonBase(mods, order);
    if Placed(s, 0, |s|, e) {
      var k :| 0 <= k < |s| && 0 < PageRound(s[k].p.unpacked) && e == s[k].Reserved();
      assert NewRegion(mods, w.mods, order[k], e);
    }
    if i :| 0 <= i < |mods| && NewRegion(mods, w.mods, i, e) {
      var k := PositionOf(mods, order, i);
      assert s[k].index == i && e == s[k].Reserved();
    }
  }
}
