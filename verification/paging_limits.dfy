/** A start inside an existing large page makes `ptab_map_range` leave a hole, or map an address outside the range:
    the smallest cases. */
module PagingLimits {
  import opened Options
  import opened PageTables
  import opened PageEffects
  import opened PagingSteps
  import opened PagingRuns
  import opened Paging

  const CPU := Cpu(true, true)
  const ROOT: nat := 0x1000

  /* The 2 MiB page with number `k` of the first gigabyte, mapped to itself, and nothing else. */
  ghost function OneLargePage(k: nat, pool: seq<nat>): Heap
    requires k < 512
  {
    Heap(map[0x1000 := ZeroTable()[0 := Entry(2, VALID, 0)],
             0x2000 := ZeroTable()[0 := Entry(3, VALID, 0)],
             0x3000 := ZeroTable()[k := Entry(k * 0x200, VALID | PS, 0)]],
         pool,
         map[0x1000 := Place(3, 0), 0x2000 := Place(2, 0), 0x3000 := Place(1, 0)])
  }

  lemma TablesPlaced(k: nat, pool: seq<nat>)
    requires k < 512
    ensures forall t :: t in OneLargePage(k, pool).tables ==> PlacedTable(OneLargePage(k, pool), t)
  {
  }

  lemma EntriesPlaced(k: nat, pool: seq<nat>, t: nat, i: nat)
    requires k < 512
    requires t in OneLargePage(k, pool).tables && i < 512 && PlacedTable(OneLargePage(k, pool), t)
    ensures PlacedEntry(CPU, OneLargePage(k, pool), t, i)
  {
    assert !ZERO_ENTRY.Valid();
  }

  lemma TablesLinked(k: nat, pool: seq<nat>, t: nat, u: nat)
    requires k < 512
    requires t in OneLargePage(k, pool).tables && u in OneLargePage(k, pool).tables
    requires PlacedTable(OneLargePage(k, pool), t) && PlacedTable(OneLargePage(k, pool), u)
    ensures Linked(OneLargePage(k, pool), t, u) && OwnPlace(OneLargePage(k, pool), t, u)
  {
    assert Index(3, 0) == 0 && Index(2, 0) == 0 && Index(1, 0) == 0;
  }

  lemma OneLargePageValid(k: nat, pool: seq<nat>)
    requires k < 512 && PoolFree(OneLargePage(k, pool))
    ensures ValidHeap(CPU, OneLargePage(k, pool), ROOT)
  {
    hide PlacedTable, PlacedEntry, Linked, OwnPlace, PoolFree;
    var h := OneLargePage(k, pool);
    TablesPlaced(k, pool);
    forall t, i | t in h.tables && 0 <= i < 512
      ensures PlacedEntry(CPU, h, t, i)
    {
      EntriesPlaced(k, pool, t, i);
    }
    forall t, u | t in h.tables && u in h.tables
      ensures Linked(h, t, u) && OwnPlace(h, t, u)
    {
      TablesLinked(k, pool, t, u);
    }
  }

  lemma LookUp(k: nat, pool: seq<nat>, x: nat)
    requires k < 512 && x < 0x4000_0000
    ensures LeafAt(CPU, OneLargePage(k, pool), ROOT, x) ==
      if x / 0x20_0000 == k then Some(Leaf(1, Entry(k * 0x200, VALID | PS, 0))) else None
  {
    var h := OneLargePage(k, pool);
    assert Index(3, x) == 0 && Index(2, x) == 0;
    assert Index(1, x) == x / 0x20_0000;
    assert LeafAt(CPU, h, ROOT, x) == Walk(CPU, h.tables, 0x2000, 2, x);
    assert Walk(CPU, h.tables, 0x2000, 2, x) == Walk(CPU, h.tables, 0x3000, 1, x);
  }

  /** From the second page of the first large page on: as much as a large page holds, and two pages. */
  const HOLE := Cursor(0x1000, 0x1000, 0x20_2000)

  /** The same from the second page of the last large page of a gigabyte on. */
  const SPILL := Cursor(0x3FE0_1000, 0x3FE0_1000, 0x20_2000)

  lemma NoWrap(la: nat, size: nat)
    requires 2 <= size && la + size <= WORD
    ensures Asserted(la, size)
  {
  }

  lemma AlignedRange(la: nat, pa: nat, size: nat)
    requires la % 0x1000 == 0 && pa % 0x1000 == 0 && size % 0x1000 == 0 && 0 < size && pa + size <= PA_LIMIT
    ensures PageRange(la, pa, size) == Cursor(la, pa, size) && GoodCursor(Cursor(la, pa, size))
  {
    SlotAligned(0, la);
    SlotAligned(0, pa);
    TruncIs(0, size + 0xfff);
  }

  lemma HoleIsRounded()
    ensures HOLE == PageRange(0x1000, 0x1000, 0x20_2000) && GoodCursor(HOLE) && InLimits(HOLE)
  {
    AlignedRange(0x1000, 0x1000, 0x20_2000);
    hide PageRange, GoodCursor;
  }

  lemma SpillIsRounded()
    ensures SPILL == PageRange(0x3FE0_1000, 0x3FE0_1000, 0x20_2000) && GoodCursor(SPILL) && InLimits(SPILL)
  {
    AlignedRange(0x3FE0_1000, 0x3FE0_1000, 0x20_2000);
    hide PageRange, GoodCursor;
  }

  lemma StartsUnclean(h: Heap, c: Cursor, e: Entry)
    requires LeafAt(CPU, h, ROOT, c.la) == Some(Leaf(1, e)) && c.la % 0x20_0000 == 0x1000 && c.size >= 0x20_0000
    ensures !StartsClean(CPU, h, ROOT, c.la, c.End())
  {
  }

  /** A range that meets every other demand of `ptab_map_range` and yet skips a page. */
  lemma MidPageStartSkips(pool: seq<nat>)
    requires PoolFree(OneLargePage(0, pool))
    ensures var h := OneLargePage(0, pool);
      && ValidHeap(CPU, h, ROOT) && GoodCursor(HOLE) && InLimits(HOLE)
      && RunLands(CPU, h, ROOT, HOLE) == Clean(0x20_1000)
      && SkipsPage(CPU, h, ROOT, HOLE, 0x20_0000) && !KeepsPromise(CPU, h, ROOT, HOLE)
  {
    hide OneLargePage, LeafAt, ValidHeap, GoodCursor, Land, StartsClean, PageRange, Asserted;
    var h := OneLargePage(0, pool);
    OneLargePageValid(0, pool);
    HoleIsRounded();
    LookUp(0, pool, 0x1000);
    LookUp(0, pool, 0x20_0000);
    LookUp(0, pool, 0x20_1000);
    StartsUnclean(h, HOLE, LeafAt(CPU, h, ROOT, 0x1000).value.entry);
    FirstStep(CPU, h, ROOT, HOLE);
    assert Trunc(2, 0x1000) == 0;
    hide Trunc;
  }

  /** And one that writes to the begin of the table instead of the next table. */
  lemma LastPageStartSpills(pool: seq<nat>)
    requires PoolFree(OneLargePage(511, pool))
    ensures var h := OneLargePage(511, pool);
      && ValidHeap(CPU, h, ROOT) && GoodCursor(SPILL) && InLimits(SPILL)
      && RunLands(CPU, h, ROOT, SPILL) == Spill(0x4000_1000, 0x1000)
      && LeafAt(CPU, h, ROOT, 0x1000) == None && !KeepsPromise(CPU, h, ROOT, SPILL)
  {
    hide OneLargePage, LeafAt, ValidHeap, GoodCursor, Land, StartsClean, PageRange, Asserted;
    var h := OneLargePage(511, pool);
    OneLargePageValid(511, pool);
    SpillIsRounded();
    LookUp(511, pool, 0x3FE0_1000);
    LookUp(511, pool, 0x1000);
    StartsUnclean(h, SPILL, LeafAt(CPU, h, ROOT, 0x3FE0_1000).value.entry);
    FirstStep(CPU, h, ROOT, SPILL);
    assert Trunc(2, 0x3FE0_1000) == 0;
    hide Trunc;
  }

  /** The page behind the large page is not mapped as the range asks. */
  method MapFromMidPage(m: PageMemory, bits: bv12) returns (ok: bool)
    requires m.cpu == CPU && m.H() == OneLargePage(0, m.pool) && PoolFree(m.H()) && GoodBits(bits)
    modifies m
    ensures MissesPage(CPU, m.H(), ROOT, HOLE, 0x20_0000)
    ensures ok ==> !Effect(CPU, old(m.H()), m.H(), ROOT, HOLE.la, HOLE.pa, HOLE.End(), bits)
  {
    hide OneLargePage, LeafAt, ValidHeap, PageRange, GoodCursor, StartsClean, SkipsPage, MissesPage, RunDone,
      KeepsPromise, Effect, PoolFree, Asserted;
    MidPageStartSkips(m.pool);
    HoleIsRounded();
    NoWrap(HOLE.la, HOLE.size);
    ghost var reached;
    ok, reached := m.MapRange(ROOT, HOLE.la, HOLE.pa, HOLE.size, bits);
  }

  /** An address outside the range is mapped. */
  method MapFromLastPage(m: PageMemory, bits: bv12) returns (ok: bool)
    requires m.cpu == CPU && m.H() == OneLargePage(511, m.pool) && PoolFree(m.H()) && GoodBits(bits)
    modifies m
    ensures ok ==> Spilled(CPU, m.H(), ROOT, 0x1000, 0x4000_1000)
    ensures ok ==> !EffectAt(CPU, old(m.H()), m.H(), ROOT, SPILL.la, SPILL.pa, SPILL.End(), bits, 0x1000)
    ensures ok ==> !Effect(CPU, old(m.H()), m.H(), ROOT, SPILL.la, SPILL.pa, SPILL.End(), bits)
  {
    hide OneLargePage, LeafAt, ValidHeap, PageRange, GoodCursor, StartsClean, SkipsPage, MissesPage, KeepsPromise,
      Effect, PoolFree, Land, Asserted;
    LastPageStartSpills(m.pool);
    SpillIsRounded();
    NoWrap(SPILL.la, SPILL.size);
    ghost var reached;
    ok, reached := m.MapRange(ROOT, SPILL.la, SPILL.pa, SPILL.size, bits);
  }
}
