/** The state of a run that unpacks boot modules (`decomp_move_mod`, `decompress_mod` and the loops of
    `decompress_mods` in server/src/boot_modules.cc). The decompressor is a parameter: it maps the
    bytes of a compressed module to the bytes it stands for. */
module UnpackStages {
  import opened Options
  import opened Regions
  import opened RegionLists
  import opened CopySchedule
  import opened ModuleOrder
  import opened UnpackPlans

  type Decompressor = seq<bv8> -> seq<bv8>

  /** One module, its index, and the start of the pages it is unpacked to. */
  datatype Task = Task(index: nat, p: Packed, dst: nat) {
    function End(): nat { dst + PageRound(p.unpacked) }

    predicate Fits(size: nat) {
      && 0 < p.m.size && p.End() <= size && 0 < dst && 0 < p.unpacked <= PageRound(p.unpacked) && End() <= size
    }

    /** What is written misses the data of the other module. */
    predicate Misses(o: Task) { dst + p.unpacked <= o.p.m.start || o.p.End() <= dst }

    function Reserved(): Region
      requires 0 < PageRound(p.unpacked)
    {
      Region(dst, End() - 1, MOD_REG, if p.Compressed() then Boot else Root, index, false)
    }

    function Copy(was: seq<bv8>, expand: Decompressor): Job
      requires p.End() <= |was|
    {
      Job(p.m.start, p.m.size, dst, Content(p, was, expand))
    }
  }

  /** The bytes that the data of a module stands for. */
  function Content(p: Packed, was: seq<bv8>, expand: Decompressor): seq<bv8>
    requires p.End() <= |was|
  {
    if p.Compressed() then expand(was[p.m.start..p.End()]) else was[p.m.start..p.End()]
  }

  /** Targets one behind the other. */
  ghost predicate Row(s: seq<Task>, size: nat) {
    && (forall k :: 0 <= k < |s| ==> s[k].Fits(size))
    && (forall i, j :: 0 <= i < j < |s| ==> InRow(s[i], s[j]))
  }

  predicate InRow(a: Task, b: Task) { a.index != b.index && a.End() <= b.dst }

  /** Every compressed module can be decompressed. */
  ghost predicate Expands(s: seq<Task>, was: seq<bv8>, expand: Decompressor) {
    forall k :: 0 <= k < |s| ==> s[k].p.End() <= |was| && |Content(s[k].p, was, expand)| == s[k].p.unpacked
  }

  /** Going up, no target hits the data of its own module or of one above. */
  ghost predicate SafeUp(s: seq<Task>) {
    forall k, j :: 0 <= k <= j < |s| ==> s[k].Misses(s[j])
  }

  /** Going down, no target hits the data of its own module or of one below. */
  ghost predicate SafeDown(s: seq<Task>) {
    forall k, j :: 0 <= j <= k < |s| ==> s[k].Misses(s[j])
  }

  ghost function Jobs(s: seq<Task>, was: seq<bv8>, expand: Decompressor): (jobs: seq<Job>)
    requires forall k :: 0 <= k < |s| ==> s[k].p.End() <= |was|
    ensures |jobs| == |s| && forall k :: 0 <= k < |s| ==> jobs[k] == s[k].Copy(was, expand)
  {
    seq(|s|, k requires 0 <= k < |s| && s[k].p.End() <= |was| => s[k].Copy(was, expand))
  }

  lemma JobsWellPlaced(s: seq<Task>, was: seq<bv8>, expand: Decompressor)
    requires Row(s, |was|) && Expands(s, was, expand)
    ensures WellPlaced(Jobs(s, was, expand), |was|)
  {
    hide PageRound;
    var jobs := Jobs(s, was, expand);
    forall i, j | 0 <= i < j < |s|
      ensures jobs[i].Apart(jobs[j])
    {
      assert InRow(s[i], s[j]);
    }
  }

  lemma UpSpares(s: seq<Task>, was: seq<bv8>, expand: Decompressor, k: nat)
    requires Expands(s, was, expand) && SafeUp(s) && k < |s|
    ensures Spared(Jobs(s, was, expand), 0, k, k) && s[k].Misses(s[k])
  {
    forall i | 0 <= i < k
      ensures Jobs(s, was, expand)[i].Spares(Jobs(s, was, expand)[k])
    {
      assert s[i].Misses(s[k]);
    }
  }

  lemma DownSpares(s: seq<Task>, was: seq<bv8>, expand: Decompressor, k: nat)
    requires Expands(s, was, expand) && SafeDown(s) && k < |s|
    ensures Spared(Jobs(s, was, expand), k + 1, |s|, k) && s[k].Misses(s[k])
  {
    forall i | k + 1 <= i < |s|
      ensures Jobs(s, was, expand)[i].Spares(Jobs(s, was, expand)[k])
    {
      assert s[i].Misses(s[k]);
    }
  }

  /* ---- one module ---- */

  datatype World = World(bytes: seq<bv8>, mods: seq<Packed>, regions: State)

  /** An entry that reserves the module with the given index. */
  predicate Marks(index: nat, e: Region) { e.name == MOD_REG && e.sub == index }

  function FirstMarked(s: seq<Region>, index: nat): (i: nat)
    ensures i <= |s| && (forall j :: 0 <= j < i ==> !Marks(index, s[j])) && (i < |s| ==> Marks(index, s[i]))
  {
    if s == [] || Marks(index, s[0]) then 0 else 1 + FirstMarked(s[1..], index)
  }

  /** The list after `drop_mod_region`. */
  function DropFirst(s: seq<Region>, index: nat): (t: seq<Region>)
    ensures |t| == if FirstMarked(s, index) < |s| then |s| - 1 else |s|
  {
    var i := FirstMarked(s, index);
    if i < |s| then RemoveAt(s, i) else s
  }

  /** A module that can be written to its target: the decompressor must not overwrite what it reads. */
  predicate CanUnpack(w: World, index: nat, dest: nat) {
    && index < |w.mods| && 0 < w.mods[index].m.size && w.mods[index].End() <= |w.bytes| <= TOP
    && 0 < w.mods[index].unpacked <= PageRound(w.mods[index].unpacked)
    && dest + PageRound(w.mods[index].unpacked) <= |w.bytes|
    && (w.mods[index].Compressed() ==> Task(index, w.mods[index], dest).Misses(Task(index, w.mods[index], dest)))
  }

  /** What `decomp_move_mod` does; nothing when it panics. */
  ghost function UnpackStep(w: World, ram: seq<Region>, capacity: nat, lim: Limits, expand: Decompressor, index: nat,
      dest: nat): Option<World>
    requires CanUnpack(w, index, dest) && lim.Valid()
  {
    var p := w.mods[index];
    var data := Content(p, w.bytes, expand);
    if p.Compressed() && (dest == 0 || FirstContaining(ram, Plain(dest, dest + p.unpacked - 1)) == |ram| ||
      |data| != p.unpacked) then None
    else
      match AddStep(State(DropFirst(w.regions.entries, index), w.regions.combined), capacity, lim,
        Task(index, p, dest).Reserved(), false)
      case None => None
      case Some(st) => Some(World(Overwrite(w.bytes, dest, data), w.mods[index := Done(p, dest)], st))
  }

  function Done(p: Packed, dest: nat): Packed {
    p.(m := p.m.(start := dest, size := p.unpacked))
  }

  /* ---- the state of a run ---- */

  ghost predicate Placed(s: seq<Task>, a: nat, b: nat, e: Region)
    requires b <= |s|
  {
    exists k :: a <= k < b && 0 < PageRound(s[k].p.unpacked) && e == s[k].Reserved()
  }

  ghost predicate TakenOff(s: seq<Task>, a: nat, b: nat, e: Region)
    requires b <= |s|
  {
    exists k :: a <= k < b && Marks(s[k].index, e)
  }

  /** The entries that are added without one being removed: those of the modules that have none in the list. */
  ghost function Extra(s: seq<Task>, kept: seq<Region>, a: nat, b: nat): nat
    requires a <= b <= |s|
    decreases b - a
  {
    if a == b then 0 else Extra(s, kept, a, b - 1) + Own(kept, s[b - 1].index)
  }

  ghost function Own(kept: seq<Region>, index: nat): nat {
    if FirstMarked(kept, index) < |kept| then 0 else 1
  }

  lemma {:induction false} ExtraNext(s: seq<Task>, kept: seq<Region>, a: nat, b: nat, k: nat)
    requires a <= b <= |s| && k < |s| && (k == b || k + 1 == a)
    ensures var c, d := if k == b then a else k, if k == b then b + 1 else b;
      Extra(s, kept, c, d) == Extra(s, kept, a, b) + Own(kept, s[k].index)
    decreases b - a
  {
    if k + 1 == a {
      if a < b {
        ExtraNext(s, kept, a, b - 1, k);
      } else {
        assert Extra(s, kept, k, k) == 0;
      }
    }
  }

  lemma {:induction false} ExtraGrows(s: seq<Task>, kept: seq<Region>, a: nat, b: nat)
    requires a <= b <= |s|
    ensures Extra(s, kept, a, b) <= Extra(s, kept, 0, |s|)
    decreases |s| - b + a
  {
    if b < |s| {
      ExtraNext(s, kept, a, b, b);
      ExtraGrows(s, kept, a, b + 1);
    } else if 0 < a {
      ExtraNext(s, kept, a, b, a - 1);
      ExtraGrows(s, kept, a - 1, b);
    }
  }

  ghost predicate RegionsStage(s: seq<Task>, st: State, kept: State, a: nat, b: nat)
    requires a <= b <= |s|
  {
    && Sorted(st.entries)
    && (forall e :: e in st.entries <==> (e in kept.entries && !TakenOff(s, a, b, e)) || Placed(s, a, b, e))
    && |st.entries| <= |kept.entries| + Extra(s, kept.entries, a, b)
    && st.combined <= kept.combined + (if a == b then 0 else s[b - 1].End() - s[a].dst)
  }

  ghost predicate ModsStage(s: seq<Task>, was: seq<Packed>, mods: seq<Packed>, a: nat, b: nat) {
    && |mods| == |was|
    && (forall k :: 0 <= k < |s| ==>
      s[k].index < |mods| && mods[s[k].index] == if a <= k < b then Done(s[k].p, s[k].dst) else s[k].p)
    && (forall i :: 0 <= i < |was| && (forall k :: 0 <= k < |s| ==> s[k].index != i) ==> mods[i] == was[i])
  }

  /** The modules `a` up to `b` (from below) are at their targets, and nothing else has changed. */
  ghost predicate Stage(s: seq<Task>, old0: World, w: World, kept: State, expand: Decompressor, a: nat, b: nat)
    requires Expands(s, old0.bytes, expand)
  {
    && a <= b <= |s|
    && Progress(old0.bytes, w.bytes, Jobs(s, old0.bytes, expand), a, b)
    && ModsStage(s, old0.mods, w.mods, a, b)
    && RegionsStage(s, w.regions, kept, a, b)
  }

  function Target(s: seq<Task>): Region
    requires s != [] && 0 < s[|s| - 1].End()
  {
    Plain(s[0].dst, s[|s| - 1].End() - 1)
  }

  /** The target block is in one RAM region and free, the list has room for all modules, and no
      module has more than one entry. */
  ghost predicate Room(s: seq<Task>, ram: seq<Region>, kept: State, capacity: nat, lim: Limits) {
    && s != [] && 0 < s[|s| - 1].End() && Sorted(kept.entries) &&
      |kept.entries| + Extra(s, kept.entries, 0, |s|) <= capacity && lim.Valid()
    && Clear(kept.entries, Target(s)) && OneEach(kept.entries)
    && (exists i :: 0 <= i < |ram| && ram[i].Contains(Target(s)))
    && Target(s).end <= lim.address && kept.combined + (s[|s| - 1].End() - s[0].dst) <= lim.size
  }

  ghost predicate OneEach(s: seq<Region>) {
    forall e, f :: e in s && f in s && e.name == MOD_REG && f.name == MOD_REG && e.sub == f.sub ==> e == f
  }

  lemma InTarget(s: seq<Task>, size: nat, k: nat)
    requires Row(s, size) && k < |s|
    ensures 0 < s[|s| - 1].End()
    ensures Target(s).begin <= s[k].dst && s[k].End() - 1 <= Target(s).end
  {
    hide PageRound;
    assert k > 0 ==> InRow(s[0], s[k]);
    assert k + 1 < |s| ==> InRow(s[k], s[|s| - 1]);
  }

  lemma SpanGrows(s: seq<Task>, size: nat, a: nat, b: nat, k: nat)
    requires Row(s, size) && a <= b <= |s| && k < |s| && (k == b || k + 1 == a)
    ensures var c, d := if k == b then a else k, if k == b then b + 1 else b;
      (if a == b then 0 else s[b - 1].End() - s[a].dst) +
        PageRound(s[k].p.unpacked) <= s[d - 1].End() - s[c].dst <= s[|s| - 1].End() - s[0].dst
  {
    hide PageRound;
    var c, d := if k == b then a else k, if k == b then b + 1 else b;
    if a < b {
      assert if k == b then InRow(s[b - 1], s[k]) else InRow(s[k], s[a]);
      assert a < b - 1 ==> InRow(s[a], s[b - 1]);
    }
    InTarget(s, size, c);
    InTarget(s, size, d - 1);
  }

  /* The list without the entry of one module. */
  lemma DropMeaning(s: seq<Region>, index: nat)
    requires Sorted(s)
    requires forall e, f :: e in s && f in s && Marks(index, e) && Marks(index, f) ==> e == f
    ensures Sorted(DropFirst(s, index))
    ensures forall e :: e in DropFirst(s, index) <==> e in s && !Marks(index, e)
  {
    var i := FirstMarked(s, index);
    if i < |s| {
      DropSorted(s, i);
      forall e
        ensures e in RemoveAt(s, i) <==> e in s && !Marks(index, e)
      {
        RemovedOnce(s, i, e);
        assert s[i] in s;
      }
    } else {
      assert forall e :: e in s ==> !Marks(index, e);
    }
  }

  /* The entries of a sorted list are distinct. */
  lemma RemovedOnce(s: seq<Region>, i: nat, e: Region)
    requires Sorted(s) && i < |s|
    ensures e in RemoveAt(s, i) <==> e in s && e != s[i]
  {
    var t := RemoveAt(s, i);
    if e in t {
      var j :| 0 <= j < |t| && t[j] == e;
      assert t[j] == s[if j < i then j else j + 1];
    }
    if e in s && e != s[i] {
      var j :| 0 <= j < |s| && s[j] == e;
      assert t[if j < i then j else j - 1] == e;
    }
  }

  lemma DropSorted(s: seq<Region>, i: nat)
    requires Sorted(s) && i < |s|
    ensures Sorted(RemoveAt(s, i))
  {
  }

  lemma StageBytes(s: seq<Task>, was: seq<bv8>, expand: Decompressor, now: seq<bv8>, a: nat, b: nat, k: nat)
    requires Row(s, |was|) && Expands(s, was, expand) && k < |s|
    requires Progress(was, now, Jobs(s, was, expand), a, b) && Spared(Jobs(s, was, expand), a, b, k)
    ensures |now| == |was| && s[k].Fits(|was|)
    ensures var data := Content(s[k].p, now, expand);
      |data| == s[k].p.unpacked && s[k].dst + |data| <= |now| &&
        Did(now, Overwrite(now, s[k].dst, data), Jobs(s, was, expand)[k])
  {
    hide PageRound, Did;
    SourceIntact(was, now, Jobs(s, was, expand), a, b, k);
    hide Progress, Spared;
    assert Jobs(s, was, expand)[k] == s[k].Copy(was, expand);
    var data := Content(s[k].p, now, expand);
    DoesJob(now, Jobs(s, was, expand)[k], data);
  }

  lemma DoesJob(now: seq<bv8>, job: Job, data: seq<bv8>)
    requires job.want == data && job.Inside(|now|)
    ensures Did(now, Overwrite(now, job.dst, data), job)
  {
    Overwritten(now, job.dst, data);
  }

  /* The entries that stay do not reach into the next target. */
  lemma StillClear(s: seq<Task>, size: nat, entries: seq<Region>, kept: seq<Region>, a: nat, b: nat, k: nat)
    requires Row(s, size) && a <= b <= |s| && k < |s| && !(a <= k < b)
    requires 0 < s[|s| - 1].End() && Clear(kept, Target(s))
    requires forall e :: e in entries ==> e in kept || Placed(s, a, b, e)
    ensures 0 < PageRound(s[k].p.unpacked) && Clear(entries, s[k].Reserved())
  {
    hide PageRound;
    assert s[k].Fits(size);
    InTarget(s, size, k);
    forall i | 0 <= i < |entries|
      ensures !entries[i].Overlaps(s[k].Reserved())
    {
      var e := entries[i];
      assert e in entries;
      if e in kept {
        var j :| 0 <= j < |kept| && kept[j] == e;
        assert !kept[j].Overlaps(Target(s));
      } else {
        var j :| a <= j < b && 0 < PageRound(s[j].p.unpacked) && e == s[j].Reserved();
        assert if j < k then InRow(s[j], s[k]) else InRow(s[k], s[j]);
      }
    }
  }

  lemma PlacedNext(s: seq<Task>, a: nat, b: nat, k: nat, e: Region)
    requires a <= b <= |s| && k < |s| && (k == b || k + 1 == a) && 0 < PageRound(s[k].p.unpacked)
    ensures var c, d := if k == b then a else k, if k == b then b + 1 else b;
      && (Placed(s, c, d, e) <==> Placed(s, a, b, e) || e == s[k].Reserved())
      && (TakenOff(s, c, d, e) <==> TakenOff(s, a, b, e) || Marks(s[k].index, e))
  {
    hide PageRound;
  }

  /* A module is marked by its own entry only. */
  lemma PlacedMarks(s: seq<Task>, size: nat, a: nat, b: nat, k: nat, e: Region)
    requires Row(s, size) && a <= b <= |s| && k < |s| && !(a <= k < b) && Placed(s, a, b, e)
    ensures !Marks(s[k].index, e)
  {
    hide PageRound;
    var j :| a <= j < b && 0 < PageRound(s[j].p.unpacked) && e == s[j].Reserved();
    assert if j < k then InRow(s[j], s[k]) else InRow(s[k], s[j]);
  }

  /* The entry of a module that is still to be unpacked is still there. */
  lemma StillMarked(s: seq<Task>, size: nat, st: State, kept: State, a: nat, b: nat, k: nat, e: Region)
    requires Row(s, size) && a <= b <= |s| && k < |s| && !(a <= k < b)
    requires RegionsStage(s, st, kept, a, b) && e in kept.entries && Marks(s[k].index, e)
    ensures FirstMarked(st.entries, s[k].index) < |st.entries|
  {
    hide Sorted, Placed, PageRound;
    forall j | a <= j < b
      ensures s[j].index != s[k].index
    {
      assert if j < k then InRow(s[j], s[k]) else InRow(s[k], s[j]);
    }
    assert e in st.entries;
  }

  lemma DropStage(s: seq<Task>, size: nat, st: State, kept: State, a: nat, b: nat, k: nat)
    requires Row(s, size) && a <= b <= |s| && k < |s| && !(a <= k < b)
    requires RegionsStage(s, st, kept, a, b) && OneEach(kept.entries)
    ensures Sorted(DropFirst(st.entries, s[k].index))
    ensures forall e :: e in DropFirst(st.entries, s[k].index) <==>
      (e in kept.entries && !TakenOff(s, a, b, e) && !Marks(s[k].index, e)) || Placed(s, a, b, e)
    ensures |DropFirst(st.entries, s[k].index)| + 1 <= |kept.entries| + Extra(s, kept.entries, a, b) +
      Own(kept.entries, s[k].index)
  {
    hide Sorted, Placed, TakenOff, Row, PageRound;
    var i := FirstMarked(kept.entries, s[k].index);
    if i < |kept.entries| {
      StillMarked(s, size, st, kept, a, b, k, kept.entries[i]);
    }
    hide DropFirst;
    forall e | Placed(s, a, b, e)
      ensures !Marks(s[k].index, e)
    {
      PlacedMarks(s, size, a, b, k, e);
    }
    DropMeaning(st.entries, s[k].index);
  }

  lemma StageRegions(s: seq<Task>, size: nat, st: State, kept: State, ram: seq<Region>, capacity: nat, lim: Limits,
      a: nat, b: nat, k: nat)
    requires Row(s, size) && a <= b <= |s| && RegionsStage(s, st, kept, a, b) && Room(s, ram, kept, capacity, lim)
    requires size <= TOP && k < |s| && (k == b || k + 1 == a)
    ensures 0 < PageRound(s[k].p.unpacked) && lim.Valid() && |DropFirst(st.entries, s[k].index)| < capacity
    ensures var t := AddStep(State(DropFirst(st.entries, s[k].index), st.combined), capacity, lim, s[k].Reserved(),
      false);
      t.Some? && RegionsStage(s, t.value, kept, if k == b then a else k, if k == b then b + 1 else b)
  {
    hide Clear, Sorted, AddStep, PageRound, Placed, TakenOff, DropFirst, FirstMarked;
    assert s[k].Fits(size);
    var n := s[k].Reserved();
    var left := State(DropFirst(st.entries, s[k].index), st.combined);
    DropStage(s, size, st, kept, a, b, k);
    ExtraNext(s, kept.entries, a, b, k);
    ExtraGrows(s, kept.entries, if k == b then a else k, if k == b then b + 1 else b);
    hide Extra, Own;
    StillClear(s, size, left.entries, kept.entries, a, b, k);
    SpanGrows(s, size, a, b, k);
    InTarget(s, size, k);
    SortedAllValid(left.entries);
    ReserveMeaning(left, capacity, lim, n, false);
    var t := AddStep(left, capacity, lim, n, false).value;
    var c, d := if k == b then a else k, if k == b then b + 1 else b;
    forall e
      ensures e in t.entries <==> (e in kept.entries && !TakenOff(s, c, d, e)) || Placed(s, c, d, e)
    {
      MoreThanOneByte(s[k], size);
      ReservedMember(left.entries, t.entries, n, e);
      PlacedNext(s, a, b, k, e);
    }
  }

  lemma MoreThanOneByte(t: Task, size: nat)
    requires t.Fits(size)
    ensures t.Reserved().begin < t.Reserved().end
  {
  }

  lemma StageMods(s: seq<Task>, size: nat, was: seq<Packed>, mods: seq<Packed>, a: nat, b: nat, k: nat)
    requires Row(s, size) && ModsStage(s, was, mods, a, b)
    requires a <= b <= |s| && k < |s| && (k == b || k + 1 == a)
    ensures s[k].index < |mods| && mods[s[k].index] == s[k].p
    ensures ModsStage(s, was, mods[s[k].index := Done(s[k].p, s[k].dst)], if k == b then a
      else k, if k == b then b + 1 else b)
  {
    hide PageRound;
    forall j | 0 <= j < |s| && j != k
      ensures s[j].index != s[k].index
    {
      assert if j < k then InRow(s[j], s[k]) else InRow(s[k], s[j]);
    }
  }

  lemma InRam(s: seq<Task>, size: nat, ram: seq<Region>, kept: State, capacity: nat, lim: Limits, k: nat)
    requires Row(s, size) && Room(s, ram, kept, capacity, lim) && k < |s|
    ensures 0 < s[k].p.unpacked && FirstContaining(ram, Plain(s[k].dst, s[k].dst + s[k].p.unpacked - 1)) < |ram|
  {
    hide PageRound, Sorted, Clear;
    InTarget(s, size, k);
    assert s[k].Fits(size);
    var i :| 0 <= i < |ram| && ram[i].Contains(Target(s));
    assert ram[i].Contains(Plain(s[k].dst, s[k].dst + s[k].p.unpacked - 1));
  }

  /** One module more, whose data was spared: unpacking it cannot panic. */
  lemma StageStep(s: seq<Task>, old0: World, w: World, kept: State, expand: Decompressor, ram: seq<Region>,
      capacity: nat, lim: Limits, a: nat, b: nat, k: nat)
    requires Row(s, |old0.bytes|) && Expands(s, old0.bytes, expand) && |old0.bytes| <= TOP
    requires Stage(s, old0, w, kept, expand, a, b) && Room(s, ram, kept, capacity, lim)
    requires k < |s| && (k == b || k + 1 == a) && Spared(Jobs(s, old0.bytes, expand), a, b, k) && s[k].Misses(s[k])
    ensures CanUnpack(w, s[k].index, s[k].dst) && lim.Valid()
    ensures |DropFirst(w.regions.entries, s[k].index)| < capacity
    ensures var r := UnpackStep(w, ram, capacity, lim, expand, s[k].index, s[k].dst);
      r.Some? && Stage(s, old0, r.value, kept, expand, if k == b then a else k, if k == b then b + 1 else b)
  {
    hide Clear, Sorted, AddStep, RegionsStage, Progress, Spared, Did, Room, FirstContaining, PageRound, Row, ModsStage,
      Content, DropFirst, Overwrite, Expands;
    StageBytes(s, old0.bytes, expand, w.bytes, a, b, k);
    StageMods(s, |old0.bytes|, old0.mods, w.mods, a, b, k);
    StageRegions(s, |old0.bytes|, w.regions, kept, ram, capacity, lim, a, b, k);
    InRam(s, |old0.bytes|, ram, kept, capacity, lim, k);
    JobsWellPlaced(s, old0.bytes, expand);
    JobDone(old0.bytes, w.bytes, Overwrite(w.bytes, s[k].dst, Content(s[k].p, w.bytes, expand)),
      Jobs(s, old0.bytes, expand), a, b, k);
  }
}
