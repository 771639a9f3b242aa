/** The first page tables (server/src/ARCH-amd64/boot32/boot_cpu.c): a static pool of six pages, and
    the identity mapping built from it. */
module BootPaging {
  import opened Options
  import opened Arithmetic
  import opened PageTables
  import opened PageEffects
  import opened PagingSteps
  import opened Paging

  const POOL_PAGES: nat := 6
  const GIB: nat := 0x4000_0000

  /** The pages the allocator hands out before it panics, in order. */
  function HandOut(pool: nat): (s: seq<nat>)
    ensures |s| == 7 && forall k :: 0 <= k < 7 ==> s[k] == pool + k * 0x1000
  {
    seq(POOL_PAGES + 1, k requires 0 <= k => pool + k * 0x1000)
  }

  class PtabPool {
    const pool: nat
    var pdirs: nat
    var initialized: bool

    /* `k` pages have been handed out. */
    ghost predicate Used(k: nat)
      reads this
    {
      if k == 0 then !initialized else initialized && pdirs == pool + k * 0x1000
    }

    constructor (pool: nat)
      requires pool % 0x1000 == 0
      ensures Used(0) && this.pool == pool
    {
      this.pool := pool;
      pdirs, initialized := 0, false;
    }

    /** The next page, or nothing when the code would panic.  The bound check lets one page behind
        the pool through. */
    method PtabAlloc(ghost k: nat) returns (r: Option<nat>)
      requires Used(k) && pool % 0x1000 == 0
      modifies this
      ensures r == if k < |HandOut(pool)| then Some(HandOut(pool)[k]) else None
      ensures r.Some? ==> Used(k + 1)
      ensures r.Some? ==> (pool <= r.value && r.value + 0x1000 <= pool + 0x6000 <==> k < 6)
    {
      if !initialized {
        initialized := true;
        pdirs := (pool + 0xfff) / 0x1000 * 0x1000;
      }
      if pdirs > pool + POOL_PAGES * 0x1000 {
        return None;
      }
      r := Some(pdirs);
      pdirs := pdirs + 0x1000;
    }
  }

  /* ---- counting the tables of a superpage-aligned identity mapping ---- */

  /** The places a run over at most 4 GiB from address zero can need a table at. */
  function LowPlaces(): (s: set<Place>)
    ensures |s| == 5
  {
    {Place(2, 0), Place(1, 0), Place(1, GIB), Place(1, 2 * GIB), Place(1, 3 * GIB)}
  }

  lemma NewTableIsLow(cpu: Cpu, h: Heap, c: Cursor, n: nat)
    requires n in h.tables && PlacedTable(h, n) && NewAt(cpu, h, c, 3, n)
    requires cpu.pse && Super(c) && c.la == 0 && c.End() <= 4 * GIB
    ensures h.place[n] in LowPlaces()
  {
    var p := h.place[n];
    if p.level == 2 {
      assert p.base % 0x80_0000_0000 == 0;
    } else {
      assert p.base % GIB == 0;
    }
  }

  lemma {:induction false} InjectionBound(ts: set<nat>, place: map<nat, Place>, ps: set<Place>)
    requires forall t :: t in ts ==> t in place && place[t] in ps
    requires forall t, u :: t in ts && u in ts && place[t] == place[u] ==> t == u
    ensures |ts| <= |ps|
  {
    if ts != {} {
      var t :| t in ts;
      InjectionBound(ts - {t}, place, ps - {place[t]});
    }
  }

  lemma {:induction false} TakenCount(pool: seq<nat>, n: nat)
    requires n <= |pool|
    requires forall j, k :: 0 <= j < k < |pool| ==> pool[j] != pool[k]
    ensures |Taken(pool, n)| == n
  {
    if n > 0 {
      TakenCount(pool, n - 1);
      assert Taken(pool, n) == Taken(pool, n - 1) + {pool[n - 1]};
    }
  }

  /** At most five tables are allocated below the root. */
  lemma FiveTables(cpu: Cpu, a: Heap, b: Heap, root: nat, c: Cursor)
    requires ValidHeap(cpu, a, root) && ValidHeap(cpu, b, root) && Extends(a, b)
    requires NewPlaces(cpu, a, b, c, 3)
    requires cpu.pse && Super(c) && c.la == 0 && c.End() <= 4 * GIB
    ensures |a.pool| - |b.pool| <= 5
    ensures b.tables.Keys <= b.place.Keys
    ensures forall n :: n in b.tables && n !in a.tables ==> b.place[n] in LowPlaces()
  {
    var m := |a.pool| - |b.pool|;
    var added := Taken(a.pool, m);
    forall n | n in b.tables && n !in a.tables
      ensures b.place[n] in LowPlaces()
    {
      assert PlacedTable(b, n) && NewAt(cpu, b, c, 3, n);
      NewTableIsLow(cpu, b, c, n);
    }
    forall t, u | t in added && u in added && b.place[t] == b.place[u]
      ensures t == u
    {
      assert OwnPlace(b, t, u);
    }
    InjectionBound(added, b.place, LowPlaces());
    TakenCount(a.pool, m);
  }

  ghost function RootOnly(root: nat, pool: seq<nat>): Heap {
    Heap(map[root := ZeroTable()], pool, map[root := Place(3, 0)])
  }

  /** One empty root table is well-formed and maps nothing. */
  lemma RootOnlyValid(cpu: Cpu, root: nat, pool: seq<nat>)
    requires root % 0x1000 == 0 && root < 0x1_0000_0000
    requires root !in pool && PoolFree(RootOnly(root, pool))
    ensures ValidHeap(cpu, RootOnly(root, pool), root)
    ensures forall x :: LeafAt(cpu, RootOnly(root, pool), root, x) == None
  {
    var h := RootOnly(root, pool);
    assert !ZERO_ENTRY.Valid();
    assert PlacedTable(h, root);
    assert forall i :: 0 <= i < 512 ==> PlacedEntry(cpu, h, root, i);
  }

  /** Every address below `limit` is mapped to itself, by a leaf that is valid, writable and open to user mode. */
  ghost predicate IdentityMapped(cpu: Cpu, h: Heap, root: nat, limit: nat) {
    forall x :: 0 <= x < limit ==>
      var leaf := LeafAt(cpu, h, root, x);
      && leaf.Some? && leaf.value.level <= 3 && Translate(leaf.value, x) == x
      && leaf.value.entry.flags == (if leaf.value.level == 1 || leaf.value.level == 2 then 0x087 else 0x007)
      && leaf.value.entry.high == 0
  }

  lemma IdentityFromEffect(cpu: Cpu, a: Heap, b: Heap, root: nat, limit: nat, bits: bv12)
    requires bits == WRITE | USER
    requires Effect(cpu, a, b, root, 0, 0, limit, bits) && limit <= LA_LIMIT
    requires forall x :: LeafAt(cpu, a, root, x) == None
    ensures IdentityMapped(cpu, b, root, limit)
  {
    forall x | 0 <= x < limit
      ensures var leaf := LeafAt(cpu, b, root, x);
        && leaf.Some? && leaf.value.level <= 3 && Translate(leaf.value, x) == x
        && leaf.value.entry.flags == (if leaf.value.level == 1 || leaf.value.level == 2 then 0x087 else 0x007)
        && leaf.value.entry.high == 0
    {
      assert EffectAt(cpu, a, b, root, 0, 0, limit, bits, x);
    }
  }

  /** Map physical memory up to `physMemMax` one to one, from the pages of the pool at `pool`.
      With superpages no panic happens, and neither does the page behind the pool get used. */
  method BasePagingInit(m: PageMemory, pool: nat, physMemMax: nat) returns (ok: bool, pml4: nat)
    requires pool % 0x1000 == 0 && pool + 7 * 0x1000 <= 0x1_0000_0000
    requires m.tables == map[] && m.place == map[] && m.pool == HandOut(pool)
    requires m.cpu.pse && 0 < physMemMax <= 4 * GIB && physMemMax % 0x20_0000 == 0
    modifies m
    ensures ok && ValidHeap(m.cpu, m.H(), pml4) && IdentityMapped(m.cpu, m.H(), pml4, physMemMax)
    ensures HandOut(pool)[POOL_PAGES] in m.pool && HandOut(pool)[POOL_PAGES] !in m.tables
    ensures forall t :: t in m.tables && t != pml4 ==> m.place[t] in LowPlaces()
  {
    hide Extends, Placed, NewPlaces, Effect, StartsClean, AllMapped, LeafAt, IdentityMapped, LowPlaces, PoolFree, Taken,
      Super, PageRange, Trunc;
    var root := m.PtabAlloc(Place(3, 0));
    pml4 := root.value;
    ghost var h0 := m.H();
    InitialHeap(m.cpu, pool, pml4);
    assert h0 == RootOnly(pml4, HandOut(pool)[1..]);
    ghost var c := PageRange(0, 0, physMemMax);
    ghost var reached;
    SuperRange(physMemMax);
    CleanWhenEmpty(m.cpu, h0, pml4, c);
    ok, reached := m.MapRange(pml4, 0, 0, physMemMax, WRITE | USER);
    FiveTables(m.cpu, h0, m.H(), pml4, c);
    IdentityFromEffect(m.cpu, h0, m.H(), pml4, physMemMax, WRITE | USER);
    LastPageUnused(m.cpu, h0, m.H(), pool);
  }

  lemma RoundExact(size: nat)
    requires size % 0x1000 == 0
    ensures Trunc(0, size + 0xfff) == size
  {
    DivModUnique(size + 0xfff, 0x1000, size / 0x1000, 0xfff);
  }

  lemma SuperRange(size: nat)
    requires size % Size(1) == 0
    ensures PageRange(0, 0, size) == Cursor(0, 0, size) && Super(Cursor(0, 0, size))
  {
    hide Trunc;
    SizeDivides(0, 1, size);
    RoundExact(size);
    TruncZero();
  }

  lemma TruncZero()
    ensures Trunc(0, 0) == 0
  {
  }

  lemma CleanWhenEmpty(cpu: Cpu, h: Heap, root: nat, c: Cursor)
    requires LeafAt(cpu, h, root, c.la) == None
    ensures StartsClean(cpu, h, root, c.la, c.End())
  {
  }

  lemma InitialHeap(cpu: Cpu, pool: nat, root: nat)
    requires pool % 0x1000 == 0 && pool + 7 * 0x1000 <= 0x1_0000_0000 && root == HandOut(pool)[0]
    ensures var h := RootOnly(root, HandOut(pool)[1..]);
      ValidHeap(cpu, h, root) && forall x :: LeafAt(cpu, h, root, x) == None
  {
    RootOnlyValid(cpu, root, HandOut(pool)[1..]);
  }

  /* While at most five of the six pages after the first are gone, the last one is still there. */
  lemma LastPageUnused(cpu: Cpu, a: Heap, b: Heap, pool: nat)
    requires a.pool == HandOut(pool)[1..] && Extends(a, b) && Placed(cpu, b) && |a.pool| - |b.pool| <= 5
    ensures |b.pool| > 0 && HandOut(pool)[POOL_PAGES] in b.pool && HandOut(pool)[POOL_PAGES] !in b.tables
    ensures forall t :: t in b.tables <==> t in a.tables || t in Taken(a.pool, |a.pool| - |b.pool|)
  {
    assert b.pool[|b.pool| - 1] == HandOut(pool)[POOL_PAGES];
  }
}
