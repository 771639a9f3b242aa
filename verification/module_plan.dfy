/** Moving all boot modules next to each other: where every module goes, and why no move destroys a
    module that still has to be moved (`move_modules` in server/src/boot_modules.cc). */
module ModulePlans {
  import opened Options
  import opened Regions
  import opened RegionLists
  import opened CopySchedule
  import opened ModuleOrder

  ghost function Zeros(n: nat): (s: seq<bv8>)
    ensures |s| == n && forall i :: 0 <= i < n ==> s[i] == 0
  {
    seq(n, _ => 0)
  }

  /** One module, its index, and the pages it is moved to. */
  datatype Slot = Slot(index: nat, m: Module, dst: nat, end: nat) {
    predicate Fits(size: nat) {
      0 < m.size && m.start + m.size <= size && dst + m.size <= end <= size && 0 < dst && end == PageRound(dst + m.size)
    }

    function Reserved(): Region
      requires 0 < m.size
    {
      m.At(dst)
    }

    /** What has to be at the target in the end: the bytes of the module, and zeros up to the end of
        the page unless the module did not have to be moved. */
    ghost function Image(was: seq<bv8>): seq<bv8>
      requires Fits(|was|)
    {
      was[m.start..m.start + m.size] + Zeros(if m.start == dst then 0 else end - (dst + m.size))
    }

    ghost function Copy(was: seq<bv8>): Job
      requires Fits(|was|)
    {
      Job(m.start, m.size, dst, Image(was))
    }
  }

  /** The modules from below to above: neither the modules nor their targets overlap, both are in
      order, and a module lies further and further ahead of its target. */
  ghost predicate Layout(s: seq<Slot>, size: nat) {
    && (forall k :: 0 <= k < |s| ==> s[k].Fits(size))
    && (forall i, j :: 0 <= i < j < |s| ==> InOrder(s[i], s[j]))
  }

  predicate InOrder(a: Slot, b: Slot) {
    && a.index != b.index && a.end <= b.dst && a.m.start + a.m.size <= b.m.start
    && a.m.start - a.dst <= b.m.start - b.dst
  }

  ghost function Jobs(s: seq<Slot>, was: seq<bv8>): (jobs: seq<Job>)
    requires Layout(s, |was|)
    ensures |jobs| == |s| && forall k :: 0 <= k < |s| ==> jobs[k] == s[k].Copy(was)
  {
    seq(|s|, k requires 0 <= k < |s| && Layout(s, |was|) => s[k].Copy(was))
  }

  lemma JobShape(s: seq<Slot>, was: seq<bv8>, k: nat)
    requires Layout(s, |was|) && k < |s|
    ensures var j := Jobs(s, was)[k];
      j.src == s[k].m.start && j.len == s[k].m.size && j.dst == s[k].dst && j.dst + |j.want| <= s[k].end <= |was|
      && j.src + j.len <= |was|
  {
    hide PageRound;
  }

  lemma JobsWellPlaced(s: seq<Slot>, was: seq<bv8>)
    requires Layout(s, |was|)
    ensures WellPlaced(Jobs(s, was), |was|)
  {
    forall k | 0 <= k < |s|
      ensures Jobs(s, was)[k].Inside(|was|)
    {
      JobShape(s, was, k);
    }
    forall i, j | 0 <= i < j < |s|
      ensures Jobs(s, was)[i].Apart(Jobs(s, was)[j])
    {
      JobShape(s, was, i);
      JobShape(s, was, j);
      assert InOrder(s[i], s[j]);
    }
  }

  /** The split point: everything before it moves up or stays, the next one moves down. */
  predicate Split(s: seq<Slot>, e: nat) {
    && e <= |s|
    && (forall k :: 0 <= k < e ==> s[k].m.start <= s[k].dst)
    && (e < |s| ==> s[e].dst < s[e].m.start)
  }

  /** Moving up in reverse order spares every module that still has to be moved. */
  lemma UpSpares(s: seq<Slot>, was: seq<bv8>, e: nat, k: nat)
    requires Layout(s, |was|) && Split(s, e) && k < e
    ensures Spared(Jobs(s, was), k + 1, e, k)
  {
    forall i | k + 1 <= i < e
      ensures Jobs(s, was)[i].Spares(Jobs(s, was)[k])
    {
      JobShape(s, was, i);
      JobShape(s, was, k);
      assert InOrder(s[k], s[i]);
    }
  }

  /** And so does moving down in order, after all modules that move up. */
  lemma DownSpares(s: seq<Slot>, was: seq<bv8>, e: nat, k: nat)
    requires Layout(s, |was|) && Split(s, e) && e <= k < |s|
    ensures Spared(Jobs(s, was), 0, k, k)
  {
    forall i | 0 <= i < k
      ensures Jobs(s, was)[i].Spares(Jobs(s, was)[k])
    {
      JobShape(s, was, i);
      JobShape(s, was, k);
      assert e < k ==> InOrder(s[e], s[k]);
      assert InOrder(s[i], s[k]);
    }
  }

  /* ---- one move ---- */

  /** Memory, the modules, and the list of reserved regions. */
  datatype World = World(bytes: seq<bv8>, mods: seq<Module>, regions: State)

  /** A move that stays within memory. */
  predicate CanMove(w: World, index: nat, dest: nat) {
    && index < |w.mods| && 0 < w.mods[index].size && w.mods[index].start + w.mods[index].size <= |w.bytes|
    && dest + w.mods[index].size <= PageRound(dest + w.mods[index].size) <= |w.bytes| <= TOP
  }

  /** What `_move_module` does; nothing when it panics. */
  ghost function MoveStep(w: World, ram: seq<Region>, capacity: nat, lim: Limits, index: nat, dest: nat): Option<World>
    requires CanMove(w, index, dest) && lim.Valid()
  {
    var m := w.mods[index];
    var here := Plain(dest, dest);
    if m.start != dest && (FirstContaining(ram, here) == |ram| || !Clear(w.regions.entries, here)) then None
    else
      match AddStep(w.regions, capacity, lim, m.At(dest), false)
      case None => None
      case Some(st) => Some(World(MovedBytes(w.bytes, m, dest), w.mods[index := m.(start := dest)], st))
  }

  ghost function MovedBytes(s: seq<bv8>, m: Module, dest: nat): seq<bv8>
    requires m.start + m.size <= |s| && dest + m.size <= PageRound(dest + m.size) <= |s|
  {
    if m.start == dest then s
    else Overwrite(s, dest, s[m.start..m.start + m.size] + Zeros(PageRound(dest + m.size) - (dest + m.size)))
  }

  /* ---- the state of a run ---- */

  /** Entry `e` reserves one of the modules `a` up to `b` at its target. */
  ghost predicate Placed(s: seq<Slot>, a: nat, b: nat, e: Region)
    requires b <= |s|
  {
    exists k :: a <= k < b && s[k].m.size > 1 && e == s[k].Reserved()
  }

  ghost predicate RegionsStage(s: seq<Slot>, st: State, kept: State, a: nat, b: nat)
    requires a <= b <= |s|
  {
    && Sorted(st.entries) && (forall e :: e in st.entries <==> e in kept.entries || Placed(s, a, b, e))
    && |st.entries| <= |kept.entries| + (b - a)
    && st.combined <= kept.combined + (if a == b then 0 else s[b - 1].end - s[a].dst)
  }

  ghost predicate ModsStage(s: seq<Slot>, mods: seq<Module>, a: nat, b: nat) {
    forall k :: 0 <= k < |s| ==>
      s[k].index < |mods| && mods[s[k].index] == if a <= k < b then s[k].m.(start := s[k].dst) else s[k].m
  }

  /** The modules `a` up to `b` (from below) are at their targets, and nothing else has changed. */
  ghost predicate Stage(s: seq<Slot>, was: seq<bv8>, w: World, kept: State, a: nat, b: nat)
    requires Layout(s, |was|)
  {
    && a <= b <= |s|
    && Progress(was, w.bytes, Jobs(s, was), a, b)
    && ModsStage(s, w.mods, a, b)
    && RegionsStage(s, w.regions, kept, a, b)
  }

  /** The target block is in one RAM region and free, and the list has room for all modules. */
  ghost predicate Room(s: seq<Slot>, ram: seq<Region>, kept: State, capacity: nat, lim: Limits) {
    && s != [] && 0 < s[|s| - 1].end && Sorted(kept.entries) && |kept.entries| + |s| <= capacity && lim.Valid()
    && Clear(kept.entries, Target(s))
    && (exists i :: 0 <= i < |ram| && ram[i].Contains(Target(s)))
    && Target(s).end <= lim.address && kept.combined + (s[|s| - 1].end - s[0].dst) <= lim.size
  }

  /** The block that takes up all modules. */
  function Target(s: seq<Slot>): Region
    requires s != [] && 0 < s[|s| - 1].end
  {
    Plain(s[0].dst, s[|s| - 1].end - 1)
  }

  lemma InTarget(s: seq<Slot>, size: nat, k: nat)
    requires Layout(s, size) && k < |s|
    ensures 0 < s[|s| - 1].end
    ensures Target(s).begin <= s[k].dst && s[k].end - 1 <= Target(s).end
  {
    hide PageRound;
    assert k > 0 ==> InOrder(s[0], s[k]);
    assert k + 1 < |s| ==> InOrder(s[k], s[|s| - 1]);
  }

  lemma SpanGrows(s: seq<Slot>, size: nat, a: nat, b: nat, k: nat)
    requires Layout(s, size) && a <= b <= |s| && k < |s| && (k == b || k + 1 == a)
    ensures var c, d := if k == b then a else k, if k == b then b + 1 else b;
      (if a == b then 0 else s[b - 1].end - s[a].dst) +
        s[k].m.size <= s[d - 1].end - s[c].dst <= s[|s| - 1].end - s[0].dst
  {
    hide PageRound;
    var c, d := if k == b then a else k, if k == b then b + 1 else b;
    if a < b {
      assert if k == b then InOrder(s[b - 1], s[k]) else InOrder(s[k], s[a]);
      assert a < b - 1 ==> InOrder(s[a], s[b - 1]);
    }
    InTarget(s, size, c);
    InTarget(s, size, d - 1);
  }

  /* A module whose source is intact is moved as wanted. */
  lemma MovesAsWanted(slot: Slot, was: seq<bv8>, now: seq<bv8>)
    requires |now| == |was| && slot.Fits(|was|)
    requires now[slot.m.start..slot.m.start + slot.m.size] == was[slot.m.start..slot.m.start + slot.m.size]
    ensures Did(now, MovedBytes(now, slot.m, slot.dst), slot.Copy(was))
  {
    hide PageRound, Overwrite;
    var m, dest := slot.m, slot.dst;
    if m.start != dest {
      var data := now[m.start..m.start + m.size] + Zeros(slot.end - (dest + m.size));
      assert data == slot.Image(was);
      Overwritten(now, dest, data);
    } else {
      assert slot.Image(was) == now[m.start..m.start + m.size];
    }
  }

  lemma StageBytes(s: seq<Slot>, was: seq<bv8>, now: seq<bv8>, a: nat, b: nat, k: nat)
    requires Layout(s, |was|) && Progress(was, now, Jobs(s, was), a, b) && k < |s| && Spared(Jobs(s, was), a, b, k)
    ensures |now| == |was| && s[k].Fits(|was|) && Did(now, MovedBytes(now, s[k].m, s[k].dst), Jobs(s, was)[k])
  {
    hide PageRound, Did, MovedBytes, Slot.Image;
    JobShape(s, was, k);
    SourceIntact(was, now, Jobs(s, was), a, b, k);
    hide Progress, Spared;
    MovesAsWanted(s[k], was, now);
  }

  /* A part of a slot that was not taken yet is free. */
  lemma StillClear(s: seq<Slot>, size: nat, st: State, kept: State, a: nat, b: nat, k: nat, n: Region)
    requires Layout(s, size) && a <= b <= |s| && RegionsStage(s, st, kept, a, b)
    requires k < |s| && !(a <= k < b) && 0 < s[|s| - 1].end && Clear(kept.entries, Target(s))
    requires s[k].dst <= n.begin <= n.end < s[k].end
    ensures Clear(st.entries, n)
  {
    hide PageRound, Sorted;
    InTarget(s, size, k);
    forall i | 0 <= i < |st.entries|
      ensures !st.entries[i].Overlaps(n)
    {
      var e := st.entries[i];
      assert e in st.entries;
      if e in kept.entries {
        var j :| 0 <= j < |kept.entries| && kept.entries[j] == e;
        assert !kept.entries[j].Overlaps(Target(s));
      } else {
        var j :| a <= j < b && s[j].m.size > 1 && e == s[j].Reserved();
        assert if j < k then InOrder(s[j], s[k]) else InOrder(s[k], s[j]);
      }
    }
  }

  lemma PlacedNext(s: seq<Slot>, a: nat, b: nat, k: nat, e: Region)
    requires a <= b <= |s| && k < |s| && (k == b || k + 1 == a) && 0 < s[k].m.size
    ensures var c, d := if k == b then a else k, if k == b then b + 1 else b;
      Placed(s, c, d, e) <==> Placed(s, a, b, e) || (s[k].m.size > 1 && e == s[k].Reserved())
  {
  }

  lemma StageRegions(s: seq<Slot>, size: nat, st: State, kept: State, ram: seq<Region>, capacity: nat, lim: Limits,
      a: nat, b: nat, k: nat)
    requires Layout(s, size) && a <= b <= |s| && RegionsStage(s, st, kept, a, b) && Room(s, ram, kept, capacity, lim)
    requires size <= TOP && k < |s| && (k == b || k + 1 == a)
    ensures 0 < s[k].m.size && lim.Valid()
    ensures Clear(st.entries, Plain(s[k].dst, s[k].dst))
    ensures var t := AddStep(st, capacity, lim, s[k].Reserved(), false);
      t.Some? && RegionsStage(s, t.value, kept, if k == b then a else k, if k == b then b + 1 else b)
  {
    hide Clear, Sorted, AddStep, PageRound, Placed;
    assert s[k].Fits(size);
    var n := s[k].Reserved();
    StillClear(s, size, st, kept, a, b, k, n);
    StillClear(s, size, st, kept, a, b, k, Plain(n.begin, n.begin));
    SpanGrows(s, size, a, b, k);
    InTarget(s, size, k);
    SortedAllValid(st.entries);
    ReserveMeaning(st, capacity, lim, n, false);
    var t := AddStep(st, capacity, lim, n, false).value;
    var c, d := if k == b then a else k, if k == b then b + 1 else b;
    forall e
      ensures e in t.entries <==> e in kept.entries || Placed(s, c, d, e)
    {
      ReservedMember(st.entries, t.entries, n, e);
      PlacedNext(s, a, b, k, e);
    }
  }

  lemma StageMods(s: seq<Slot>, size: nat, mods: seq<Module>, a: nat, b: nat, k: nat)
    requires Layout(s, size) && ModsStage(s, mods, a, b)
    requires a <= b <= |s| && k < |s| && (k == b || k + 1 == a)
    ensures s[k].index < |mods| && mods[s[k].index] == s[k].m
    ensures ModsStage(s, mods[s[k].index := s[k].m.(start := s[k].dst)],
      if k == b then a else k, if k == b then b + 1 else b)
  {
    hide PageRound;
    forall j | 0 <= j < |s| && j != k
      ensures s[j].index != s[k].index
    {
      assert if j < k then InOrder(s[j], s[k]) else InOrder(s[k], s[j]);
    }
  }

  lemma InRam(s: seq<Slot>, size: nat, ram: seq<Region>, kept: State, capacity: nat, lim: Limits, k: nat)
    requires Layout(s, size) && Room(s, ram, kept, capacity, lim) && k < |s|
    ensures FirstContaining(ram, Plain(s[k].dst, s[k].dst)) < |ram|
  {
    hide PageRound, Sorted, Clear;
    InTarget(s, size, k);
    assert s[k].Fits(size);
    var i :| 0 <= i < |ram| && ram[i].Contains(Target(s));
    assert ram[i].Contains(Plain(s[k].dst, s[k].dst));
  }

  /** One module more, whose source was spared: the move cannot panic. */
  lemma StageStep(s: seq<Slot>, was: seq<bv8>, w: World, kept: State, ram: seq<Region>, capacity: nat, lim: Limits,
      a: nat, b: nat, k: nat)
    requires Layout(s, |was|) && Stage(s, was, w, kept, a, b) && Room(s, ram, kept, capacity, lim) && |was| <= TOP
    requires k < |s| && (k == b || k + 1 == a) && Spared(Jobs(s, was), a, b, k)
    ensures CanMove(w, s[k].index, s[k].dst) && lim.Valid()
    ensures var r := MoveStep(w, ram, capacity, lim, s[k].index, s[k].dst);
      r.Some? && Stage(s, was, r.value, kept, if k == b then a else k, if k == b then b + 1 else b)
  {
    hide Clear, Sorted, AddStep, RegionsStage, Progress, Spared, Did, Room, FirstContaining, PageRound, Layout,
      ModsStage;
    StageBytes(s, was, w.bytes, a, b, k);
    StageMods(s, |was|, w.mods, a, b, k);
    StageRegions(s, |was|, w.regions, kept, ram, capacity, lim, a, b, k);
    InRam(s, |was|, ram, kept, capacity, lim, k);
    JobsWellPlaced(s, was);
    JobDone(was, w.bytes, MovedBytes(w.bytes, s[k].m, s[k].dst), Jobs(s, was), a, b, k);
  }
}
