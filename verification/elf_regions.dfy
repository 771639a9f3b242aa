/** Reserving and relocating the segments of an ELF binary (`add_elf_regions` and its callbacks in
    server/src/startup.cc). */
module ElfRegions {
  import opened Options
  import opened Arithmetic
  import opened Regions
  import opened RegionLists
  import opened FreeSearch
  import opened RegionStore
  import opened MemoryManager

  /* ---- powers of two ---- */

  function Pow2(k: nat): (p: nat)
    ensures p > 0
  {
    if k == 0 then 1 else 2 * Pow2(k - 1)
  }

  ghost predicate PowerOfTwo(n: nat) {
    exists k: nat :: n == Pow2(k)
  }

  lemma {:induction false} Pow2Add(a: nat, b: nat)
    ensures Pow2(a + b) == Pow2(a) * Pow2(b)
  {
    if a > 0 {
      Pow2Add(a - 1, b);
      assert Pow2(a + b) == 2 * Pow2(a - 1 + b);
    }
  }

  lemma Pow2Top()
    ensures Pow2(64) == TOP
  {
    assert Pow2(4) == 16;
    Pow2Add(4, 4);
    Pow2Add(8, 8);
    Pow2Add(16, 16);
    Pow2Add(32, 32);
  }

  lemma Pow2Large(k: nat)
    requires k >= 64
    ensures Pow2(k) >= TOP
  {
    Pow2Top();
    Pow2Add(k - 64, 64);
    MulMonotone(1, Pow2(k - 64), TOP);
  }

  /** The address space is a whole number of aligned units. */
  lemma TopIsMultiple(n: nat)
    requires PowerOfTwo(n) && n < TOP
    ensures n > 0 && TOP % n == 0
  {
    var k: nat :| n == Pow2(k);
    Pow2Top();
    if k >= 64 { Pow2Large(k); }
    Pow2Add(64 - k, k);
    MultipleModZero(Pow2(64 - k), n);
  }

  /* ---- program headers ---- */

  datatype PhdrKind = Load | Dynamic | OtherKind

  /** A program header, without the file offsets. */
  datatype Phdr = Phdr(kind: PhdrKind, paddr: nat, memsz: nat, align: nat, rights: nat) {
    /* A segment that takes up memory. */
    predicate Loads() { kind == Load && memsz > 0 }

    function Last(): int { paddr + memsz - 1 }
  }

  ghost predicate ValidHeader(h: Phdr) {
    && h.paddr + h.memsz < SAFE && (h.align == 0 || (PowerOfTwo(h.align) && h.align <= SAFE / 2))
    && (h.Loads() ==> 0 < h.Last())
  }

  /** Valid headers whose loadable segments do not overlap. */
  ghost predicate ValidHeaders(hs: seq<Phdr>) {
    && (forall i :: 0 <= i < |hs| ==> ValidHeader(hs[i]))
    && (forall i, j :: 0 <= i < j < |hs| && hs[i].Loads() && hs[j].Loads() ==>
        hs[i].Last() < hs[j].paddr || hs[j].Last() < hs[i].paddr)
  }

  /** What `l4_exec_gather_info` accumulates. */
  datatype SectionInfo = SectionInfo(start: nat, end: nat, align: nat, hasDynamic: bool, needsRelocation: bool)

  const NO_SECTIONS := SectionInfo(TOP - 1, 0, 1, false, false)

  /** The span of the loadable segments and their largest alignment: the least first and the greatest last
      address, and an alignment of at least one. Without a segment the span is empty. */
  ghost predicate Gathered(hs: seq<Phdr>, si: SectionInfo) {
    && (forall i :: 0 <= i < |hs| && hs[i].Loads() ==>
        si.start <= hs[i].paddr && hs[i].Last() <= si.end && hs[i].align <= si.align)
    && si.end < SAFE && PowerOfTwo(si.align) && si.align <= SAFE / 2 && si.start < TOP
    && Attained(hs, si)
  }

  ghost predicate Attained(hs: seq<Phdr>, si: SectionInfo) {
    && (si.start == 0xFFFF_FFFF_FFFF_FFFF || exists i :: IsLoaded(hs, i) && hs[i].paddr == si.start)
    && (si.end == 0 || exists i :: IsLoaded(hs, i) && hs[i].paddr + hs[i].memsz - 1 == si.end)
    && (si.align == 1 || exists i :: IsLoaded(hs, i) && hs[i].align == si.align)
  }

  ghost predicate IsLoaded(hs: seq<Phdr>, i: int) {
    0 <= i < |hs| && hs[i].kind == Load && hs[i].memsz > 0
  }

  ghost predicate HasDynamic(hs: seq<Phdr>) {
    exists i :: 0 <= i < |hs| && hs[i].kind == Dynamic && hs[i].memsz > 0
  }

  /* ---- the regions a segment must avoid, and the one it becomes ---- */

  const BOOT_TEMPORARY: nat := 5

  /** A reserved region that a new segment must not overlap: everything but boot modules and regions
      that are discarded before loading. */
  predicate Blocks(r: Region, n: Region) {
    r.Overlaps(n) && r.name != MOD_REG && !(r.kind == Boot && r.sub == BOOT_TEMPORARY)
  }

  ghost predicate Unblocked(s: seq<Region>, n: Region) {
    forall i :: 0 <= i < |s| ==>
      s[i].end < n.begin || n.end < s[i].begin || s[i].name == MOD_REG || (s[i].kind == Boot && s[i].sub == 5)
  }

  ghost predicate InOne(s: seq<Region>, n: Region) {
    exists i :: 0 <= i < |s| && s[i].Contains(n)
  }

  /** The segment as linked. */
  function Segment(h: Phdr): Region
    requires h.Loads()
  {
    Plain(h.paddr, h.paddr + h.memsz - 1)
  }

  /** The segment moved by the 64-bit offset, as it is reserved. */
  function ElfRegion(h: Phdr, offset: nat, name: nat, kind: Kind): Region
    requires h.Loads()
  {
    var begin := (h.paddr + offset) % TOP;
    Region(begin, begin + h.memsz - 1, name, kind, if kind == Root then h.rights else 0, kind != Kernel)
  }

  ghost predicate Placeable(m: Memory, h: Phdr, n: Region)
    requires m.Valid()
    reads m, m.ram, m.ram.store, m.sysalloc, m.sysalloc.store, m.regions, m.regions.store
  {
    InOne(m.sysalloc.Contents(), n) && InOne(m.ram.Contents(), n) && Unblocked(m.regions.Contents(), n)
  }

  /** Some segment cannot stay where it is linked. */
  ghost predicate SomeMisplaced(m: Memory, hs: seq<Phdr>)
    requires m.Valid()
    reads m, m.ram, m.ram.store, m.sysalloc, m.sysalloc.store, m.regions, m.regions.store
  {
    exists i :: IsLoaded(hs, i) && !Placeable(m, hs[i], Plain(hs[i].paddr, hs[i].paddr + hs[i].memsz - 1))
  }

  method FindRegionOverlap(regions: RegionList, n: Region) returns (found: bool)
    requires regions.Valid()
    ensures found <==> !Unblocked(regions.Contents(), n)
  {
    var i := 0;
    while i != regions.len
      invariant i <= regions.len && forall j :: 0 <= j < i ==> !Blocks(regions.store[j], n)
      decreases regions.len - i
    {
      if Blocks(regions.store[i], n) {
        assert Blocks(regions.Contents()[i], n);
        return true;
      }
      i := i + 1;
    }
    return false;
  }

  /** The first pass over the program headers. */
  method GatherInfo(m: Memory, hs: seq<Phdr>, reloc: bool) returns (si: SectionInfo)
    requires m.Valid() && ValidHeaders(hs)
    ensures Gathered(hs, si)
    ensures si.hasDynamic <==> HasDynamic(hs)
    ensures si.needsRelocation <==> reloc || SomeMisplaced(m, hs)
  {
    hide PowerOfTwo, Gathered, Placeable, Sorted, HasDynamic, SomeMisplaced, ValidHeaders;
    si := NO_SECTIONS.(needsRelocation := reloc);
    GatherNone(m, hs, reloc);
    var k := 0;
    while k != |hs|
      invariant k <= |hs| && Gathered(hs[..k], si)
      invariant si.hasDynamic <==> HasDynamic(hs[..k])
      invariant si.needsRelocation <==> reloc || SomeMisplaced(m, hs[..k])
      decreases |hs| - k
    {
      var h := hs[k];
      ghost var before := si;
      FlagsStep(m, hs, k);
      if h.memsz != 0 {
        if h.kind == Dynamic {
          si := si.(hasDynamic := true);
        }
        if h.kind == Load {
          si := si.(start := Min(si.start, h.paddr), end := Max(si.end, h.paddr + h.memsz - 1),
            align := Max(si.align, h.align));
          var misplaced := Misplaced(m, h);
          if misplaced {
            si := si.(needsRelocation := true);
          }
        }
      }
      GatherStep(hs, k, before, si);
      k := k + 1;
    }
    assert hs[..k] == hs;
  }

  /** A segment that cannot stay where it is linked. */
  method Misplaced(m: Memory, h: Phdr) returns (misplaced: bool)
    requires m.Valid() && h.Loads()
    ensures misplaced <==> !Placeable(m, h, Plain(h.paddr, h.paddr + h.memsz - 1))
  {
    var inSys := m.sysalloc.ContainsRegion(Segment(h));
    var inRam := m.ram.ContainsRegion(Segment(h));
    var blocked := FindRegionOverlap(m.regions, Segment(h));
    ContainsInOne(m.sysalloc.Contents(), Segment(h), inSys);
    ContainsInOne(m.ram.Contents(), Segment(h), inRam);
    misplaced := inSys.None? || inRam.None? || blocked;
  }

  lemma GatherNone(m: Memory, hs: seq<Phdr>, reloc: bool)
    requires m.Valid()
    ensures Gathered(hs[..0], NO_SECTIONS.(needsRelocation := reloc))
    ensures !HasDynamic(hs[..0]) && !SomeMisplaced(m, hs[..0])
  {
    assert Pow2(0) == 1;
  }

  lemma FlagsStep(m: Memory, hs: seq<Phdr>, k: nat)
    requires m.Valid() && k < |hs|
    ensures HasDynamic(hs[..k + 1]) <==> HasDynamic(hs[..k]) || (hs[k].kind == Dynamic && hs[k].memsz > 0)
    ensures SomeMisplaced(m, hs[..k + 1]) <==>
      || SomeMisplaced(m, hs[..k])
      || (IsLoaded(hs, k) && !Placeable(m, hs[k], Plain(hs[k].paddr, hs[k].paddr + hs[k].memsz - 1)))
  {
    hide Placeable;
    var a, b := hs[..k], hs[..k + 1];
    assert forall i :: 0 <= i < k ==> a[i] == b[i];
    assert b[k] == hs[k];
    if SomeMisplaced(m, a) {
      var i :| IsLoaded(a, i) && !Placeable(m, a[i], Plain(a[i].paddr, a[i].paddr + a[i].memsz - 1));
      assert IsLoaded(b, i);
    }
    if hs[k].kind == Load && hs[k].memsz > 0 {
      assert IsLoaded(b, k);
    }
    if SomeMisplaced(m, b) {
      var i :| IsLoaded(b, i) && !Placeable(m, b[i], Plain(b[i].paddr, b[i].paddr + b[i].memsz - 1));
      assert i < k ==> IsLoaded(a, i);
    }
  }

  lemma GatherStep(hs: seq<Phdr>, k: nat, a: SectionInfo, b: SectionInfo)
    requires k < |hs| && ValidHeaders(hs) && Gathered(hs[..k], a)
    requires hs[k].Loads() ==>
      && b.start == Min(a.start, hs[k].paddr) && b.end == Max(a.end, hs[k].paddr + hs[k].memsz - 1)
      && b.align == Max(a.align, hs[k].align)
    requires !hs[k].Loads() ==> b.start == a.start && b.end == a.end && b.align == a.align
    ensures Gathered(hs[..k + 1], b)
  {
    hide PowerOfTwo;
    assert ValidHeader(hs[k]);
    AttainedStep(hs, k, a, b);
    hide Attained;
    forall i | 0 <= i < k + 1 && hs[..k + 1][i].Loads()
      ensures b.start <= hs[i].paddr && hs[i].Last() <= b.end && hs[i].align <= b.align
    {
      assert i < k ==> hs[..k][i] == hs[i];
    }
  }

  lemma AttainedStep(hs: seq<Phdr>, k: nat, a: SectionInfo, b: SectionInfo)
    requires k < |hs| && Attained(hs[..k], a)
    requires hs[k].Loads() ==>
      && b.start == Min(a.start, hs[k].paddr) && b.end == Max(a.end, hs[k].paddr + hs[k].memsz - 1)
      && b.align == Max(a.align, hs[k].align)
    requires !hs[k].Loads() ==> b.start == a.start && b.end == a.end && b.align == a.align
    ensures Attained(hs[..k + 1], b)
  {
    var s, t := hs[..k], hs[..k + 1];
    assert t[k] == hs[k];
    assert hs[k].Loads() ==> IsLoaded(t, k);
    assert forall i :: 0 <= i < k ==> t[i] == s[i];
    assert forall i :: IsLoaded(s, i) ==> IsLoaded(t, i);
  }

  lemma ContainsInOne(s: seq<Region>, n: Region, r: Option<nat>)
    requires match r case Some(i) => i < |s| && i == FirstContaining(s, n) case None => FirstContaining(s, n) == |s|
    ensures r.Some? <==> InOne(s, n)
  {
  }

  /* ---- the second pass ---- */

  /* One more reserved region. */
  ghost predicate ReservedStep(st: State, t: State, n: Region) {
    && Reserved(st.entries, t.entries, n)
    && |t.entries| <= |st.entries| + 1
    && t.combined <= st.combined + (n.end - n.begin + 1)
    && (Sorted(st.entries) && Clear(st.entries, n) ==> Sorted(t.entries))
  }

  /* In a sorted list the first entry that overlaps a contained interval contains it. */
  lemma FindContains(s: seq<Region>, n: Region)
    requires Sorted(s) && n.Valid() && InOne(s, n)
    ensures FirstOverlap(s, n) < |s| && s[FirstOverlap(s, n)].Contains(n) && !Clear(s, n)
  {
    var i :| 0 <= i < |s| && s[i].Contains(n);
    assert s[i].Overlaps(n);
  }

  /** Reserve one segment; false when the program panics: exactly if something blocks it, or no allocatable
      region contains it, or the list cannot take it. */
  method AddSegment(m: Memory, h: Phdr, offset: nat, name: nat, kind: Kind) returns (ok: bool)
    requires m.Valid() && Separate(m)
    requires offset < TOP && (h.Loads() ==> ElfRegion(h, offset, name, kind).Valid())
    requires m.regions.len < m.regions.store.Length
    modifies m.regions, m.regions.store
    ensures m.Valid()
    ensures ok ==> m.regions.len <= old(m.regions.len) + 1
    ensures !h.Loads() ==> ok && m.regions.Abstract() == old(m.regions.Abstract())
    ensures h.Loads() ==> var n := ElfRegion(h, offset, name, kind);
      var t := AddStep(old(m.regions.Abstract()), m.regions.store.Length, m.regions.limits, n, true);
      && (ok <==> old(Unblocked(m.regions.Contents(), n) && InOne(m.sysalloc.Contents(), n)) && t.Some?)
      && (ok ==> m.regions.Abstract() == t.value)
  {
    hide Sorted, Unblocked, InOne, AddStep, Clear, ElfRegion;
    if h.memsz == 0 || h.kind != Load {
      return true;
    }
    var n := ElfRegion(h, offset, name, kind);
    var blocked := FindRegionOverlap(m.regions, n);
    if blocked {
      return false;
    }
    var i := m.sysalloc.Find(n);
    if InOne(m.sysalloc.Contents(), n) {
      FindContains(m.sysalloc.Contents(), n);
    }
    if i.Some? && m.sysalloc.store[i.value].Contains(n) {
      ContainedInOne(m.sysalloc.Contents(), n, i.value);
      SortedOrNot(m.regions);
      GrowsByOne(m.regions.Abstract(), m.regions.store.Length, m.regions.limits, n);
      ok := m.regions.AddRegion(n, true);
      return ok;
    }
    return false;
  }

  lemma ContainedInOne(s: seq<Region>, n: Region, i: nat)
    requires i < |s| && s[i].Contains(n)
    ensures InOne(s, n)
  {
  }

  lemma GrowsByOne(st: State, capacity: nat, lim: Limits, n: Region)
    requires lim.Valid() && n.Valid() && |st.entries| < capacity
    ensures var t := AddStep(st, capacity, lim, n, true); t.Some? ==> |t.value.entries| <= |st.entries| + 1
  {
  }

  lemma SortedOrNot(l: RegionList)
    requires l.Valid()
    ensures AllValid(l.Contents())
  {
  }

  /* ---- all segments ---- */

  /** The 64-bit offset moves every segment by `shift`, without wrapping around. */
  ghost predicate Shifted(hs: seq<Phdr>, offset: nat, shift: int) {
    offset < TOP && forall i :: 0 <= i < |hs| && hs[i].Loads() ==>
      0 <= hs[i].paddr + shift && 0 < hs[i].paddr + shift + hs[i].memsz - 1 < TOP
      && (hs[i].paddr + offset) % TOP == hs[i].paddr + shift
  }

  ghost function TotalSize(hs: seq<Phdr>): nat {
    if hs == [] then 0 else (if hs[0].Loads() then hs[0].memsz else 0) + TotalSize(hs[1..])
  }

  /** Every segment, moved, finds its place: one allocatable region holds it, no reserved region
      blocks it, and the limits and the store of the list leave room. */
  ghost predicate Fits(regs: seq<Region>, sys: seq<Region>, lim: Limits, combined: nat, hs: seq<Phdr>, offset: nat,
      name: nat, kind: Kind) {
    && (forall i {:trigger hs[i].Loads()} :: 0 <= i < |hs| && hs[i].Loads() ==>
        var n := ElfRegion(hs[i], offset, name, kind);
        Unblocked(regs, n) && InOne(sys, n) && n.end <= lim.address)
    && combined + TotalSize(hs) <= lim.size
  }

  /** `e` is one of the first `k` segments, moved. */
  ghost predicate IsSegment(hs: seq<Phdr>, k: nat, offset: nat, name: nat, kind: Kind, e: Region)
    requires k <= |hs|
  {
    exists i :: 0 <= i < k && hs[i].kind == Load && hs[i].memsz > 1 && e == SegmentEntry(hs[i], offset, name, kind)
  }

  /** The entry of a moved segment: its addresses in 64 bits, its access rights if it belongs to the root task,
      and eager unless it belongs to the kernel. */
  ghost function SegmentEntry(h: Phdr, offset: nat, name: nat, kind: Kind): Region {
    var begin := (h.paddr + offset) % 0x1_0000_0000_0000_0000;
    Region(begin, if h.memsz > 0 then begin + h.memsz - 1 else begin, name, kind,
      match kind case Root => h.rights case _ => 0, match kind case Kernel => false case _ => true)
  }

  lemma EntryIsRegion(h: Phdr, offset: nat, name: nat, kind: Kind)
    requires h.Loads()
    ensures SegmentEntry(h, offset, name, kind) == ElfRegion(h, offset, name, kind)
  {
  }

  /** The list afterwards: what was there, and the segments of more than one byte. */
  ghost predicate Loaded(before: seq<Region>, after: seq<Region>, hs: seq<Phdr>, k: nat, offset: nat, name: nat,
      kind: Kind)
    requires k <= |hs|
  {
    forall e :: e in after <==> e in before || IsSegment(hs, k, offset, name, kind, e)
  }

  ghost predicate AllClear(regs: seq<Region>, hs: seq<Phdr>, offset: nat, name: nat, kind: Kind) {
    forall i {:trigger hs[i].Loads()} :: 0 <= i < |hs| && hs[i].Loads() ==>
      Clear(regs, ElfRegion(hs[i], offset, name, kind))
  }

  lemma SegmentsApart(hs: seq<Phdr>, offset: nat, shift: int, name: nat, kind: Kind, i: nat, k: nat)
    requires ValidHeaders(hs) && Shifted(hs, offset, shift)
    requires i < k < |hs| && hs[i].Loads() && hs[k].Loads()
    ensures !ElfRegion(hs[i], offset, name, kind).Overlaps(ElfRegion(hs[k], offset, name, kind))
  {
  }

  /* The next segment is as free as it was in the list at the start. */
  lemma NextUnblocked(before: seq<Region>, now: seq<Region>, hs: seq<Phdr>, k: nat, offset: nat, shift: int, name: nat,
      kind: Kind)
    requires ValidHeaders(hs) && Shifted(hs, offset, shift) && k < |hs| && hs[k].Loads()
    requires Loaded(before, now, hs, k, offset, name, kind)
    ensures var n := ElfRegion(hs[k], offset, name, kind);
      (Unblocked(before, n) <==> Unblocked(now, n)) && (Clear(before, n) ==> Clear(now, n))
  {
    var n := ElfRegion(hs[k], offset, name, kind);
    forall j | 0 <= j < |before| && Blocks(before[j], n)
      ensures !Unblocked(now, n)
    {
      assert before[j] in now;
    }
    forall j | 0 <= j < |now|
      ensures Unblocked(before, n) ==> !Blocks(now[j], n)
      ensures Clear(before, n) ==> !now[j].Overlaps(n)
    {
      var e := now[j];
      if !(e in before) {
        var i :| 0 <= i < k && hs[i].Loads() && hs[i].memsz > 1 && e == SegmentEntry(hs[i], offset, name, kind);
        EntryIsRegion(hs[i], offset, name, kind);
        SegmentsApart(hs, offset, shift, name, kind, i, k);
      }
    }
  }

  lemma LoadedStep(before: seq<Region>, now: seq<Region>, next: seq<Region>, hs: seq<Phdr>, k: nat, offset: nat,
      name: nat, kind: Kind)
    requires k < |hs| && Loaded(before, now, hs, k, offset, name, kind)
    requires if hs[k].Loads() then Reserved(now, next, ElfRegion(hs[k], offset, name, kind)) else next == now
    ensures Loaded(before, next, hs, k + 1, offset, name, kind)
  {
    forall e
      ensures e in next <==> e in before || IsSegment(hs, k + 1, offset, name, kind, e)
    {
      if hs[k].Loads() {
        EntryIsRegion(hs[k], offset, name, kind);
        ReservedMember(now, next, ElfRegion(hs[k], offset, name, kind), e);
      }
      assert IsSegment(hs, k + 1, offset, name, kind, e) <==>
        (IsSegment(hs, k, offset, name, kind, e) ||
         (hs[k].Loads() && hs[k].memsz > 1 && e == SegmentEntry(hs[k], offset, name, kind)));
    }
  }

  /** Segment `i`, moved, finds its place. */
  ghost predicate Finds(regs: seq<Region>, sys: seq<Region>, hs: seq<Phdr>, i: nat, offset: nat, name: nat, kind: Kind)
    requires i < |hs| && hs[i].Loads()
  {
    Unblocked(regs, ElfRegion(hs[i], offset, name, kind)) && InOne(sys, ElfRegion(hs[i], offset, name, kind))
  }

  /** The second pass over the program headers; false when the program panics, which it does exactly if some
      segment does not find its place. */
  method AddSegments(m: Memory, hs: seq<Phdr>, offset: nat, name: nat, kind: Kind, ghost shift: int)
    returns (ok: bool)
    requires m.Valid() && Separate(m) && ValidHeaders(hs) && Shifted(hs, offset, shift)
    requires m.regions.len + |hs| <= m.regions.store.Length
    requires m.regions.limits.address == TOP - 1 && m.regions.combined + TotalSize(hs) <= m.regions.limits.size
    modifies m.regions, m.regions.store
    ensures m.Valid()
    ensures ok <==> old(Fits(m.regions.Contents(), m.sysalloc.Contents(), m.regions.limits, m.regions.combined, hs,
      offset, name, kind))
    ensures ok ==> Loaded(old(m.regions.Contents()), m.regions.Contents(), hs, |hs|, offset, name, kind)
    ensures ok && old(Sorted(m.regions.Contents()) && AllClear(m.regions.Contents(), hs, offset, name, kind)) ==>
      Sorted(m.regions.Contents())
  {
    hide Sorted, Unblocked, InOne, Clear, Loaded, ValidHeaders, Reserved, ElfRegion, AddStep, Finds, TotalSize, Whole;
    ghost var before, sys, combined := m.regions.Contents(), m.sysalloc.Contents(), m.regions.combined;
    var k := 0;
    assert hs[0..] == hs;
    LoadedNone(before, hs, offset, name, kind);
    while k != |hs|
      invariant k <= |hs| && m.Valid() && m.sysalloc.Contents() == sys
      invariant m.regions.len + (|hs| - k) <= m.regions.store.Length
      invariant m.regions.combined + TotalSize(hs[k..]) <= m.regions.limits.size
      invariant Loaded(before, m.regions.Contents(), hs, k, offset, name, kind)
      invariant forall i :: 0 <= i < k && hs[i].Loads() ==> Finds(before, sys, hs, i, offset, name, kind)
      invariant Sorted(before) && AllClear(before, hs, offset, name, kind) ==> Sorted(m.regions.Contents())
      decreases |hs| - k
    {
      ghost var st := m.regions.Abstract();
      var h := hs[k];
      NextSize(hs, k);
      if h.Loads() {
        SegmentShape(hs, offset, shift, name, kind, k);
        NextUnblocked(before, st.entries, hs, k, offset, shift, name, kind);
        NextReserved(st, m.regions.store.Length, m.regions.limits, ElfRegion(h, offset, name, kind), h.memsz);
        NextFinds(before, st.entries, sys, hs, k, offset, name, kind);
      }
      SortedOrNot(m.regions);
      ok := AddSegment(m, h, offset, name, kind);
      if !ok {
        NotFits(before, sys, m.regions.limits, combined, hs, k, offset, name, kind);
        return false;
      }
      LoadedStep(before, st.entries, m.regions.Contents(), hs, k, offset, name, kind);
      k := k + 1;
    }
    AllFit(before, sys, m.regions.limits, combined, hs, offset, shift, name, kind);
    return true;
  }

  lemma NextSize(hs: seq<Phdr>, k: nat)
    requires k < |hs|
    ensures TotalSize(hs[k..]) == (if hs[k].Loads() then hs[k].memsz else 0) + TotalSize(hs[k + 1..])
  {
    assert hs[k..][0] == hs[k] && hs[k..][1..] == hs[k + 1..];
  }

  lemma NextFinds(before: seq<Region>, now: seq<Region>, sys: seq<Region>, hs: seq<Phdr>, k: nat, offset: nat,
      name: nat, kind: Kind)
    requires k < |hs| && hs[k].Loads()
    requires var n := ElfRegion(hs[k], offset, name, kind); Unblocked(before, n) <==> Unblocked(now, n)
    ensures var n := ElfRegion(hs[k], offset, name, kind);
      Finds(before, sys, hs, k, offset, name, kind) <==> Unblocked(now, n) && InOne(sys, n)
  {
  }

  /* A segment within the limits is reserved. */
  lemma NextReserved(st: State, capacity: nat, lim: Limits, n: Region, size: nat)
    requires AllValid(st.entries) && |st.entries| < capacity && lim.Valid() && n.Valid() && 0 < n.end
    requires lim.address == TOP - 1 && n.end - n.begin + 1 == size && st.combined + size <= lim.size
    ensures var t := AddStep(st, capacity, lim, n, true); t.Some? && ReservedStep(st, t.value, n)
  {
    hide AddStep;
    ReserveMeaning(st, capacity, lim, n, true);
  }

  lemma NotFits(before: seq<Region>, sys: seq<Region>, lim: Limits, combined: nat, hs: seq<Phdr>, k: nat, offset: nat,
      name: nat, kind: Kind)
    requires k < |hs| && hs[k].Loads() && !Finds(before, sys, hs, k, offset, name, kind)
    ensures !Fits(before, sys, lim, combined, hs, offset, name, kind)
  {
    hide ElfRegion, Unblocked, InOne;
    assert hs[k].Loads();
  }

  lemma AllFit(before: seq<Region>, sys: seq<Region>, lim: Limits, combined: nat, hs: seq<Phdr>, offset: nat,
      shift: int, name: nat, kind: Kind)
    requires forall i :: 0 <= i < |hs| && hs[i].Loads() ==> Finds(before, sys, hs, i, offset, name, kind)
    requires Shifted(hs, offset, shift) && lim.address == TOP - 1 && combined + TotalSize(hs) <= lim.size
    ensures Fits(before, sys, lim, combined, hs, offset, name, kind)
  {
    hide ElfRegion, Unblocked, InOne, TotalSize;
    forall i | 0 <= i < |hs| && hs[i].Loads()
      ensures ElfRegion(hs[i], offset, name, kind).end <= lim.address
    {
      SegmentShape(hs, offset, shift, name, kind, i);
    }
  }

  lemma LoadedNone(before: seq<Region>, hs: seq<Phdr>, offset: nat, name: nat, kind: Kind)
    ensures Loaded(before, before, hs, 0, offset, name, kind)
  {
  }

  lemma SegmentShape(hs: seq<Phdr>, offset: nat, shift: int, name: nat, kind: Kind, k: nat)
    requires Shifted(hs, offset, shift) && k < |hs| && hs[k].Loads()
    ensures var n := ElfRegion(hs[k], offset, name, kind);
      n.Valid() && 0 < n.end && n.begin == hs[k].paddr + shift && n.end - n.begin + 1 == hs[k].memsz
  {
  }

  /* ---- relocation ---- */

  /** All segments, moved along with the block found for them, lie inside it. */
  lemma SegmentsInBlock(q: Request, hs: seq<Phdr>, si: SectionInfo, start: nat, addr: nat, name: nat, kind: Kind,
      i: nat)
    requires q.Valid() && q.Usable(addr) && Gathered(hs, si) && start <= si.start
    requires si.end - start + 1 <= q.size
    requires i < |hs| && hs[i].Loads() && hs[i].paddr + hs[i].memsz < SAFE
    ensures var n := ElfRegion(hs[i], (addr + TOP - start) % TOP, name, kind);
      && Block(addr, q.size).Contains(n) && n.begin == hs[i].paddr + (addr - start)
      && InOne(q.ram, n) && InOne(q.sysalloc, n) && Clear(q.regions, n) && Unblocked(q.regions, n)
  {
    SegmentMoved(hs[i], si, start, addr, q.size, name, kind);
    hide ElfRegion;
    var n := ElfRegion(hs[i], (addr + TOP - start) % TOP, name, kind);
    PartInOne(q.ram, Block(addr, q.size), n);
    PartInOne(q.sysalloc, Block(addr, q.size), n);
    PartClear(q.regions, Block(addr, q.size), n);
  }

  lemma SegmentMoved(h: Phdr, si: SectionInfo, start: nat, addr: nat, size: nat, name: nat, kind: Kind)
    requires h.Loads() && h.paddr + h.memsz < SAFE && start <= si.start <= h.paddr && h.Last() <= si.end
    requires 0 < si.end - start + 1 <= size && addr + size <= TOP
    ensures var n := ElfRegion(h, (addr + TOP - start) % TOP, name, kind);
      n.Valid() && Block(addr, size).Contains(n) && n.begin == h.paddr + (addr - start)
  {
  }

  lemma PartInOne(s: seq<Region>, b: Region, n: Region)
    requires InOne(s, b) && b.Contains(n)
    ensures InOne(s, n)
  {
    var r :| 0 <= r < |s| && s[r].Contains(b);
    assert s[r].Contains(n);
  }

  lemma PartClear(s: seq<Region>, b: Region, n: Region)
    requires Clear(s, b) && b.Contains(n) && n.begin <= n.end
    ensures Clear(s, n) && Unblocked(s, n)
  {
    forall k | 0 <= k < |s|
      ensures !s[k].Overlaps(n) && !Blocks(s[k], n)
    {
      assert !s[k].Overlaps(b);
    }
  }

  /** The offset is a multiple of the alignment, also when the binary moves down. */
  lemma OffsetAligned(addr: nat, start: nat, align: nat)
    requires PowerOfTwo(align) && align < TOP && addr < TOP && start < TOP
    requires addr % align == 0 && start % align == 0
    ensures ((addr + TOP - start) % TOP) % align == 0
  {
    TopIsMultiple(align);
    var a, b, t := addr / align, start / align, TOP / align;
    var x := (addr + TOP - start) % TOP;
    if addr >= start {
      assert x == addr - start;
      MulMonotone(b, a, align);
      assert x == (a - b) * align;
      MultipleModZero(a - b, align);
    } else {
      assert x == addr + TOP - start;
      assert x == (a + t - b) * align;
      MultipleModZero(a + t - b, align);
    }
  }

  /* Nothing wraps around for a binary that stays where it is linked. */
  lemma NotShifted(hs: seq<Phdr>)
    requires ValidHeaders(hs)
    ensures Shifted(hs, 0, 0)
  {
    forall i | 0 <= i < |hs| && hs[i].Loads()
      ensures (hs[i].paddr + 0) % TOP == hs[i].paddr
    {
      assert ValidHeader(hs[i]);
    }
  }

  lemma SegmentUnmoved(m: Memory, h: Phdr, name: nat, kind: Kind)
    requires m.Valid() && ValidHeader(h) && h.Loads() && Placeable(m, h, Segment(h))
    ensures var n := ElfRegion(h, 0, name, kind);
      Unblocked(m.regions.Contents(), n) && InOne(m.sysalloc.Contents(), n) && n.end <= TOP - 1
      && InOne(m.ram.Contents(), n)
  {
    var n, p := ElfRegion(h, 0, name, kind), Segment(h);
    PartInOne(m.sysalloc.Contents(), p, n);
    PartInOne(m.ram.Contents(), p, n);
    SameBlocks(m.regions.Contents(), p, n);
  }

  lemma NoneMisplaced(m: Memory, hs: seq<Phdr>)
    requires m.Valid() && !SomeMisplaced(m, hs)
    ensures forall i :: 0 <= i < |hs| && hs[i].Loads() ==> Placeable(m, hs[i], Segment(hs[i]))
  {
    hide Placeable;
    forall i | 0 <= i < |hs| && hs[i].Loads()
      ensures Placeable(m, hs[i], Segment(hs[i]))
    {
      assert IsLoaded(hs, i);
    }
  }

  lemma FitsUnmoved(m: Memory, hs: seq<Phdr>, name: nat, kind: Kind)
    requires m.Valid() && ValidHeaders(hs) && m.regions.limits.address == TOP - 1
    requires m.regions.combined + TotalSize(hs) <= m.regions.limits.size
    requires forall i :: 0 <= i < |hs| && hs[i].Loads() ==> Placeable(m, hs[i], Segment(hs[i]))
    ensures Fits(m.regions.Contents(), m.sysalloc.Contents(), m.regions.limits, m.regions.combined, hs, 0, name, kind)
  {
    hide ElfRegion, TotalSize, Segment, Placeable, InOne, Unblocked, Sorted;
    forall i | 0 <= i < |hs| && hs[i].Loads()
      ensures var n := ElfRegion(hs[i], 0, name, kind);
        Unblocked(m.regions.Contents(), n) && InOne(m.sysalloc.Contents(), n) && n.end <= TOP - 1
    {
      assert ValidHeader(hs[i]);
      SegmentUnmoved(m, hs[i], name, kind);
    }
  }

  lemma SameBlocks(s: seq<Region>, p: Region, n: Region)
    requires Unblocked(s, p) && p.begin == n.begin && p.end == n.end
    ensures Unblocked(s, n)
  {
    forall k | 0 <= k < |s|
      ensures !Blocks(s[k], n)
    {
      assert !Blocks(s[k], p);
    }
  }

  lemma FitsMoved(q: Request, lim: Limits, combined: nat, hs: seq<Phdr>, si: SectionInfo, start: nat, addr: nat,
      name: nat, kind: Kind)
    requires q.Valid() && q.Usable(addr) && Gathered(hs, si) && start <= si.start && ValidHeaders(hs)
    requires 2 <= si.end - start + 1 <= q.size && LOWEST <= addr && addr + q.size <= TOP
    requires lim.address == TOP - 1 && combined + TotalSize(hs) <= lim.size
    ensures var offset := (addr + TOP - start) % TOP;
      && Shifted(hs, offset, addr - start)
      && Fits(q.regions, q.sysalloc, lim, combined, hs, offset, name, kind)
      && AllClear(q.regions, hs, offset, name, kind)
      && forall i :: 0 <= i < |hs| && hs[i].Loads() ==> InOne(q.ram, ElfRegion(hs[i], offset, name, kind))
  {
    hide Request.Usable, Gathered, InOne, Unblocked, Clear;
    var offset := (addr + TOP - start) % TOP;
    forall i | 0 <= i < |hs| && hs[i].Loads()
      ensures var n := ElfRegion(hs[i], offset, name, kind);
        n.Valid() && n.begin == hs[i].paddr + (addr - start) && 0 < n.end && InOne(q.ram, n) && InOne(q.sysalloc, n)
        && Clear(q.regions, n) && Unblocked(q.regions, n) && n.end - n.begin + 1 == hs[i].memsz
    {
      assert ValidHeader(hs[i]);
      SegmentsInBlock(q, hs, si, start, addr, name, kind, i);
    }
    hide ElfRegion;
  }

  /* ---- the whole operation ---- */

  /** The block chosen for a binary: the lowest one behind the boot program, and only if there is
      none the lowest one anywhere; zero if there is none at all. */
  ghost predicate Chosen(behind: Request, anywhere: Request, addr: nat) {
    && behind.size > 0 && behind.unit > 0 && anywhere.size > 0 && anywhere.unit > 0
    && (Possible(behind) ==> Lowest(behind, addr))
    && (!Possible(behind) ==> Lowest(anywhere, addr))
  }

  method FindBlock(m: Memory, size0: nat, bootstrap: nat, align: nat) returns (addr: nat)
    requires m.Valid() && LowLists(m) && 2 <= size0 <= SAFE && 0 < align <= SAFE / 2 && bootstrap < SAFE
    ensures Chosen(m.Ask(size0, bootstrap, TOP - 1, align), m.Ask(size0, 0, TOP - 1, align), addr)
    ensures addr != 0 <==> Possible(m.Ask(size0, 0, TOP - 1, align))
    ensures addr != 0 ==> m.Ask(size0, 0, TOP - 1, align).Usable(addr)
  {
    hide Request.Valid, Request.ForwardSafe, RoundTo;
    AskIsSafe(m, size0, bootstrap, align);
    AskIsSafe(m, size0, 0, align);
    addr := m.FindFreeRam(size0, bootstrap, TOP - 1, align);
    if addr == 0 {
      addr := m.FindFreeRam(size0, 0, TOP - 1, align);
    } else {
      assert m.Ask(size0, bootstrap, TOP - 1, align).Usable(addr);
      assert m.Ask(size0, 0, TOP - 1, align).Usable(addr);
    }
  }

  /** Whether the binary is moved: on request or if it cannot stay, and only if it has a dynamic section and
      takes up more than a byte. */
  ghost predicate Moves(m: Memory, hs: seq<Phdr>, reloc: bool, si: SectionInfo)
    requires m.Valid()
    reads m, m.ram, m.ram.store, m.sysalloc, m.sysalloc.store, m.regions, m.regions.store
  {
    (reloc || SomeMisplaced(m, hs)) && HasDynamic(hs) && si.start < si.end
  }

  /** The alignment of the block: the largest that a segment or the caller asks for. */
  function Unit(si: SectionInfo, minAlign: nat): (n: nat)
    ensures n > 0
  {
    Max(1, Max(si.align, minAlign))
  }

  /** The address that the start of the block stands for. */
  function First(si: SectionInfo, minAlign: nat): int {
    TruncTo(si.start, Unit(si, minAlign))
  }

  /** The larger one of the alignments that the segments and the caller ask for. */
  ghost function BlockUnit(si: SectionInfo, minAlign: nat): (n: nat)
    ensures n > 0
  {
    if si.align < minAlign then minAlign else if si.align == 0 then 1 else si.align
  }

  /** The last multiple of it that is not above the first segment. */
  ghost function BlockBase(si: SectionInfo, minAlign: nat): nat {
    si.start / BlockUnit(si, minAlign) * BlockUnit(si, minAlign)
  }

  lemma BlockIs(si: SectionInfo, minAlign: nat)
    ensures BlockUnit(si, minAlign) == Unit(si, minAlign) && BlockBase(si, minAlign) == First(si, minAlign)
  {
  }

  /** The request for a block that holds a whole binary. */
  ghost function Wanted(m: Memory, si: SectionInfo, minAlign: nat, minAddr: nat): Request
    requires m.Valid()
    reads m, m.ram, m.ram.store, m.sysalloc, m.sysalloc.store, m.regions, m.regions.store
  {
    var first := BlockBase(si, minAlign);
    m.Ask(if first <= si.end then si.end - first + 1 else 1, minAddr, 0xFFFF_FFFF_FFFF_FFFF, BlockUnit(si, minAlign))
  }

  /** Every segment of a moved binary keeps its place relative to the others, lies inside the block
      found for the whole binary, and thereby in one RAM region and one allocatable region, free of
      everything reserved before. The offset is a multiple of the alignment. */
  ghost predicate Relocated(q: Request, hs: seq<Phdr>, offset: nat, shift: int, addr: nat, name: nat, kind: Kind) {
    && q.size > 0 && q.unit > 0 && offset % q.unit == 0 && Shifted(hs, offset, shift)
    && forall i {:trigger hs[i].Loads()} :: 0 <= i < |hs| && hs[i].Loads() ==>
      var n := ElfRegion(hs[i], offset, name, kind);
      && n.begin == hs[i].paddr + shift && n.end == n.begin + hs[i].memsz - 1
      && Block(addr, q.size).Contains(n)
      && InOne(q.ram, n) && InOne(q.sysalloc, n) && Clear(q.regions, n)
  }

  lemma RelocatedInBlock(q: Request, hs: seq<Phdr>, si: SectionInfo, start: nat, addr: nat, name: nat, kind: Kind)
    requires q.Valid() && q.Usable(addr) && Gathered(hs, si) && start <= si.start && ValidHeaders(hs)
    requires si.end - start + 1 <= q.size && addr < TOP && start < TOP
    requires Shifted(hs, (addr + TOP - start) % TOP, addr - start)
    requires PowerOfTwo(q.unit) && q.unit < TOP && start % q.unit == 0
    ensures Relocated(q, hs, (addr + TOP - start) % TOP, addr - start, addr, name, kind)
  {
    hide PowerOfTwo, Shifted, Gathered;
    OffsetAligned(addr, start, q.unit);
    forall i | 0 <= i < |hs| && hs[i].Loads()
      ensures var n := ElfRegion(hs[i], (addr + TOP - start) % TOP, name, kind);
        && n.begin == hs[i].paddr + (addr - start) && n.end == n.begin + hs[i].memsz - 1
        && Block(addr, q.size).Contains(n) && InOne(q.ram, n) && InOne(q.sysalloc, n) && Clear(q.regions, n)
    {
      assert ValidHeader(hs[i]);
      SegmentsInBlock(q, hs, si, start, addr, name, kind, i);
    }
  }

  lemma UnitFacts(hs: seq<Phdr>, si: SectionInfo, minAlign: nat)
    requires Gathered(hs, si) && si.start < si.end
    requires minAlign == 0 || (PowerOfTwo(minAlign) && minAlign <= SAFE / 2)
    ensures var unit, first := Unit(si, minAlign), First(si, minAlign);
      && unit == Max(si.align, minAlign) && PowerOfTwo(unit) && unit <= SAFE / 2
      && 0 <= first <= si.start && first % unit == 0 && 2 <= si.end - first + 1 <= SAFE
  {
    TruncGreatest(si.start, Unit(si, minAlign));
    hide TruncTo;
  }

  /* Where every segment goes, once a block was found. */
  lemma BlockFits(m: Memory, hs: seq<Phdr>, si: SectionInfo, minAlign: nat, addr: nat, name: nat, kind: Kind)
    requires m.Valid() && LowLists(m) && ValidHeaders(hs) && Gathered(hs, si) && si.start < si.end
    requires minAlign == 0 || (PowerOfTwo(minAlign) && minAlign <= SAFE / 2)
    requires m.regions.limits.address == TOP - 1 && m.regions.combined + TotalSize(hs) <= m.regions.limits.size
    requires var q := Wanted(m, si, minAlign, 0); q.size > 0 && q.unit > 0 && q.Usable(addr)
    ensures var first := First(si, minAlign);
      && 0 <= first < TOP && addr < TOP
      && var offset := (addr + TOP - first) % TOP;
      && Shifted(hs, offset, addr - first)
      && Fits(m.regions.Contents(), m.sysalloc.Contents(), m.regions.limits, m.regions.combined, hs, offset, name, kind)
      && AllClear(m.regions.Contents(), hs, offset, name, kind)
      && Relocated(Wanted(m, si, minAlign, 0), hs, offset, addr - first, addr, name, kind)
  {
    BlockIs(si, minAlign);
    hide BlockUnit, BlockBase, Unit;
    hide Sorted, Fits, AllClear, Shifted, PowerOfTwo, TotalSize, Relocated, ElfRegion, ValidHeaders, LowLists, RoundTo,
      First;
    UnitFacts(hs, si, minAlign);
    var first := First(si, minAlign);
    var q := Wanted(m, si, minAlign, 0);
    AskIsSafe(m, si.end - first + 1, 0, Unit(si, minAlign));
    FitsMoved(q, m.regions.limits, m.regions.combined, hs, si, first, addr, name, kind);
    RelocatedInBlock(q, hs, si, first, addr, name, kind);
  }

  /** Every segment can be reserved where it is linked. */
  ghost predicate FitsAsLinked(m: Memory, hs: seq<Phdr>, name: nat, kind: Kind)
    requires m.Valid()
    reads m, m.ram, m.ram.store, m.sysalloc, m.sysalloc.store, m.regions, m.regions.store
  {
    Fits(m.regions.Contents(), m.sysalloc.Contents(), m.regions.limits, m.regions.combined, hs, 0, name, kind)
  }

  /** The two passes over a binary. Without relocation it is loaded where it is linked, provided that
      every segment fits. With relocation it fails exactly when no block is large enough, and none
      of the checks of the second pass can fail. */
  method AddElfRegions(m: Memory, hs: seq<Phdr>, reloc: bool, name: nat, kind: Kind, bootstrap: nat, minAlign: nat)
    returns (ok: bool, offset: nat, ghost si: SectionInfo, ghost addr: nat)
    requires m.Valid() && Separate(m) && LowLists(m) && ValidHeaders(hs) && bootstrap < SAFE
    requires minAlign == 0 || (PowerOfTwo(minAlign) && minAlign <= SAFE / 2)
    requires m.regions.len + |hs| <= m.regions.store.Length
    requires m.regions.limits.address == TOP - 1 && m.regions.combined + TotalSize(hs) <= m.regions.limits.size
    modifies m.regions, m.regions.store
    ensures m.Valid() && Gathered(hs, si)
    ensures !reloc && old(!SomeMisplaced(m, hs)) ==> ok
    ensures old(!Moves(m, hs, reloc, si)) ==> offset == 0 && (ok <==> old(FitsAsLinked(m, hs, name, kind)))
    ensures old(!Moves(m, hs, reloc, si)) && ok ==>
      Loaded(old(m.regions.Contents()), m.regions.Contents(), hs, |hs|, 0, name, kind)
    ensures old(Moves(m, hs, reloc, si)) ==>
      && Chosen(old(Wanted(m, si, minAlign, bootstrap)), old(Wanted(m, si, minAlign, 0)), addr)
      && (ok <==> Possible(old(Wanted(m, si, minAlign, 0))))
    ensures old(Moves(m, hs, reloc, si)) && ok ==>
      && Relocated(old(Wanted(m, si, minAlign, 0)), hs, offset, addr - BlockBase(si, minAlign), addr, name, kind)
      && Loaded(old(m.regions.Contents()), m.regions.Contents(), hs, |hs|, offset, name, kind)
      && (old(Sorted(m.regions.Contents())) ==> Sorted(m.regions.Contents()))
  {
    hide Sorted, Fits, Loaded, ElfRegion, Placeable, PowerOfTwo, Chosen, Relocated, TotalSize, AllClear, Shifted,
      ValidHeaders, First, RoundTo, Request.Usable, LowLists, Gathered, BlockUnit, BlockBase, Unit, SomeMisplaced,
      HasDynamic;
    addr, offset := 0, 0;
    var info := GatherInfo(m, hs, reloc);
    si := info;
    BlockIs(si, minAlign);
    if info.needsRelocation && info.hasDynamic && info.start < info.end {
      UnitFacts(hs, info, minAlign);
      var first := First(info, minAlign);
      var a := FindBlock(m, info.end - first + 1, bootstrap, Unit(info, minAlign));
      addr := a;
      if a == 0 {
        return false, 0, si, addr;
      }
      BlockFits(m, hs, info, minAlign, a, name, kind);
      offset := (a + TOP - first) % TOP;
      ok := AddSegments(m, hs, offset, name, kind, a - first);
    } else {
      NotShifted(hs);
      if !info.needsRelocation {
        NoneMisplaced(m, hs);
        FitsUnmoved(m, hs, name, kind);
      }
      ok := AddSegments(m, hs, 0, name, kind, 0);
    }
  }
}
