/** The page-table builder (server/src/ARCH-amd64/paging.c). */
module Paging {
  import opened Options
  import opened Arithmetic
  import opened PageTables
  import opened PageEffects
  import opened PagingSteps
  import opened PagingRuns

  const WORD: nat := 0x1_0000_0000_0000_0000

  /** What the assertions at the start of `ptab_map_range` let through: two bytes or more that do not pass the end
      of the address space. */
  ghost predicate Asserted(la: nat, size: nat) {
    1 < size && la + size <= 0x1_0000_0000_0000_0000
  }

  /** The range lies below 2^48 and its physical addresses below 2^52. */
  predicate InLimits(c: Cursor) {
    c.End() <= LA_LIMIT && c.pa + c.size <= PA_LIMIT
  }

  lemma PageRangeFull(la: nat, pa: nat, size: nat)
    requires size > 0
    ensures PageRange(la, pa, size).size > 0 && PageRange(la, pa, size).la == Trunc(0, la)
    ensures PageRange(la, pa, size).pa == Trunc(0, pa)
  {
  }

  lemma Smaller(cpu: Cpu, a: Heap, b: Heap, root: nat, level: nat, t: nat, c: Cursor, d: Cursor, bits: bv12,
      regular: bool, ok: bool)
    requires TableAt(a, t, level) && Ran(cpu, a, b, root, level, t, c, d, bits, regular, ok)
    ensures ok ==> d.size < c.size
  {
  }

  lemma LeafWritten(cpu: Cpu, h: Heap, root: nat, level: nat, t: nat, i: nat, pa: nat, bits: bv12)
    requires ValidHeap(cpu, h, root) && TableAt(h, t, level) && i < 512 && AllowLeaf(cpu, level)
    requires !h.tables[t][i].Valid() && pa < PA_LIMIT && GoodBits(bits)
    ensures Written(h, SetEntry(h, t, i, LeafEntry(level, pa, bits)), bits)
  {
    WrittenLeaf(h, t, i, pa, bits);
  }

  lemma LinkWritten(cpu: Cpu, h: Heap, root: nat, level: nat, t: nat, i: nat, e: Entry, bits: bv12)
    requires ValidHeap(cpu, h, root) && TableAt(h, t, level) && 0 < level && i < 512 && GoodBits(bits)
    requires !h.tables[t][i].Valid() && |h.pool| > 0
    requires e == Entry(e.frame, VALID | bits, 0) && e.frame == h.pool[0] / 0x1000
    ensures Written(h, LinkEntry(h, t, i, e), bits)
  {
    assert h.pool[0] % 0x1000 == 0 && h.pool[0] !in h.tables;
    WrittenLink(h, t, i, e, bits);
  }

  /** A run with a clean start lands there. */
  lemma CleanRun(cpu: Cpu, a: Heap, b: Heap, root: nat, c: Cursor, reached: nat, bits: bv12, ok: bool)
    requires c.size > 0 && StartsClean(cpu, a, root, c.la, c.End()) && RunDone(cpu, a, b, root, c, reached, bits, ok)
    ensures Effect(cpu, a, b, root, c.la, c.pa, reached, bits)
  {
    hide StartsClean, Effect, LeafAt;
  }

  class PageMemory {
    const cpu: Cpu
    var tables: map<nat, Table>
    var pool: seq<nat>
    ghost var place: map<nat, Place>

    ghost function H(): Heap
      reads this
    {
      Heap(tables, pool, place)
    }

    /** Hand out the next free page, zeroed, for a table at the given place. */
    method PtabAlloc(ghost at: Place) returns (r: Option<nat>)
      modifies this
      ensures r.None? <==> old(pool) == []
      ensures r.None? ==> H() == old(H())
      ensures r.Some? ==>
        && r.value == old(pool)[0] && pool == old(pool)[1..]
        && tables == old(tables)[r.value := ZeroTable()]
        && place == old(place)[r.value := at]
    {
      if |pool| == 0 {
        return None;
      }
      var n := pool[0];
      pool := pool[1..];
      tables := tables[n := ZeroTable()];
      place := place[n := at];
      return Some(n);
    }

    /** One round of the loop of `ptab_map_level`: deal with the entry for `c.la`. */
    method MapEntry(level: nat, t: nat, c: Cursor, bits: bv12, ghost root: nat, ghost regular: bool)
      returns (ok: bool, d: Cursor)
      requires Ready(cpu, H(), root, level, t, c, bits, regular)
      modifies this
      ensures Ran(cpu, old(H()), H(), root, level, t, c, d, bits, regular, ok)
      ensures ok && d.size > 0 && level > 0 && Super(c) ==> Super(d)
      decreases level, 0
    {
      hide Placed, Extends, Above, Effect, NewPlaces, Serves, StartsClean, AllMapped, Index, Trunc, Size, LeafEntry,
        Follows, Ran, Super, Written;
      var i := Index(level, c.la);
      var e := tables[t][i];
      var page := Size(level);
      ghost var h0 := H();
      AlignedForPages(level, c);
      if AllowLeaf(cpu, level) {
        d := Cursor(c.la + page, c.pa + page, c.size - if page <= c.size then page else c.size);
        PageAdvances(level, c, d);
        if !e.Valid() && c.la % page == 0 && c.pa % page == 0 && c.size >= page {
          StepLeaf(cpu, h0, root, level, t, c, bits);
          FollowsLeaf(cpu, h0, root, level, t, c, d, bits);
          LeafIsOne(cpu, h0, level, t, c.pa, bits);
          LeafWritten(cpu, h0, root, level, t, i, c.pa, bits);
          e := LeafEntry(level, c.pa, bits);
          tables := tables[t := tables[t][i := e]];
        } else if e.Valid() && IsLeaf(level, e) {
          FollowsExisting(cpu, h0, root, level, t, c, d, bits);
          GrowsSame(cpu, h0, root, c.pa);
          HeapWrittenSame(cpu, h0, root, bits);
        }
        if e.Valid() && IsLeaf(level, e) {
          RanLeaf(cpu, h0, H(), root, level, t, c, d, bits, regular);
          if d.size > 0 && level > 0 && Super(c) {
            SuperByPage(level, c, d);
          }
          return true, d;
        }
      }
      if e.Valid() && IsLeaf(level, e) {
        LeafOnlyWhereAllowed(cpu, h0, level, t, i);
      }
      assert level > 0;
      ok, d := Descend(level, t, i, c, bits, root, regular);
    }

    /** The second half of a round: enter the table below the entry, making it if need be. */
    method Descend(level: nat, t: nat, i: nat, c: Cursor, bits: bv12, ghost root: nat, ghost regular: bool)
      returns (ok: bool, d: Cursor)
      requires Ready(cpu, H(), root, level, t, c, bits, regular)
      requires level > 0 && i == Index(level, c.la)
      requires tables[t][i].Valid() ==> !IsLeaf(level, tables[t][i])
      requires cpu.pse && level == 1 && Super(c) ==> tables[t][i].Valid()
      modifies this
      ensures Ran(cpu, old(H()), H(), root, level, t, c, d, bits, regular, ok)
      ensures ok && d.size > 0 && Super(c) ==> Super(d)
      decreases level, 0, 0
    {
      hide Placed, Extends, Above, Effect, NewPlaces, Serves, StartsClean, AllMapped, Size, LeafAt, Follows, Super,
        Written;
      var e := tables[t][i];
      ghost var h0 := H();
      GrowsSame(cpu, h0, root, c.pa);
      SameRefl(cpu, h0, root);
      HeapWrittenSame(cpu, h0, root, bits);
      if regular {
        NewPlacesNone(cpu, h0, h0, root, c, level);
        EntryOf(cpu, h0, root, level, t, c);
      }
      if !e.Valid() {
        var n := PtabAlloc(Place(level - 1, place[t].base + i * Size(level)));
        if n.None? {
          RanNothing(cpu, h0, root, level, t, c, bits, regular);
          return false, c;
        }
        StepLink(cpu, h0, root, level, t, c, bits);
        e := Entry(n.value / 0x1000, VALID | bits, 0);
        tables := tables[t := tables[t][i := e]];
        assert H() == LinkEntry(h0, t, i, e);
        StillServes(cpu, h0, H(), root, level, t);
        LinkWritten(cpu, h0, root, level, t, i, e, bits);
        if regular {
          NewPlacesLink(cpu, h0, root, level, t, c, e);
        }
      }
      ghost var h1 := H();
      DownReady(cpu, h1, root, level, t, c, bits, regular);
      ok, d := MapLevel(level - 1, e.Target(), c, bits, root, regular);
      RanBelow(cpu, h0, h1, H(), root, level, t, e.Target(), c, d, bits, regular, ok);
      if ok && d.size > 0 && Super(c) {
        SuperByPage(level, c, d);
      }
    }

    /** Map `c` in the table at `t` and those below it, up to the end of that table. */
    method MapLevel(level: nat, t: nat, c: Cursor, bits: bv12, ghost root: nat, ghost regular: bool)
      returns (ok: bool, d: Cursor)
      requires Ready(cpu, H(), root, level, t, c, bits, regular)
      modifies this
      ensures Ran(cpu, old(H()), H(), root, level, t, c, d, bits, regular, ok)
      ensures ok && d.size > 0 ==> d.la % Size(level + 1) == 0
      decreases level, 1
    {
      hide Ran, Regular, Size, Super, ValidHeap, Serves;
      ghost var h0 := H();
      ok, d := MapEntry(level, t, c, bits, root, regular);
      while ok && d.size > 0 && d.la % Size(level + 1) != 0
        invariant Ran(cpu, h0, H(), root, level, t, c, d, bits, regular, ok)
        invariant ok && d.size > 0 && level > 0 && Super(c) ==> Super(d)
        decreases if ok then d.size + 1 else 0
      {
        ghost var h1 := H();
        var d1 := d;
        NextReady(cpu, h0, h1, root, level, t, c, d1, bits, regular);
        ok, d := MapEntry(level, t, d1, bits, root, regular);
        RanRound(cpu, h0, h1, H(), root, level, t, c, d1, d, bits, regular, ok);
        Smaller(cpu, h1, H(), root, level, t, d1, d, bits, regular, ok);
      }
    }

    /** Map the pages of `[la, la + size)` to physical memory from `pa` on. False when an assertion fails at the
        start, or when no page is left. */
    method MapRange(pml4: nat, la: nat, pa: nat, size: nat, bits: bv12) returns (ok: bool, ghost reached: nat)
      requires ValidHeap(cpu, H(), pml4) && GoodBits(bits) && la < WORD && size < WORD
      requires Asserted(la, size) ==> InLimits(PageRange(la, pa, size))
      modifies this
      ensures ValidHeap(cpu, H(), pml4) && Extends(old(H()), H())
      ensures !Asserted(la, size) ==> !ok && H() == old(H())
      ensures Asserted(la, size) ==> if ok then reached == PageRange(la, pa, size).End() else pool == []
      ensures Written(old(H()), H(), bits)
      ensures Asserted(la, size) ==> RunDone(cpu, old(H()), H(), pml4, PageRange(la, pa, size), reached, bits, ok)
      ensures var c := PageRange(la, pa, size);
        Asserted(la, size) && old(StartsClean(cpu, H(), pml4, c.la, c.End())) ==>
          && Effect(cpu, old(H()), H(), pml4, c.la, c.pa, reached, bits)
          && NewPlaces(cpu, old(H()), H(), c, 3)
          && (old(AllMapped(cpu, H(), pml4, c.la, c.End())) ==> ok && H() == old(H()))
      ensures var c := PageRange(la, pa, size);
        ok ==> (Effect(cpu, old(H()), H(), pml4, c.la, c.pa, c.End(), bits) <==> old(KeepsPromise(cpu, H(), pml4, c)))
      ensures var c := PageRange(la, pa, size);
        Asserted(la, size) ==> forall y: nat :: old(SkipsPage(cpu, H(), pml4, c, y)) ==>
          MissesPage(cpu, H(), pml4, c, y)
    {
      hide Placed, Extends, Above, Effect, NewPlaces, Serves, StartsClean, AllMapped, Index, Trunc, Size, LeafAt,
        SkipsPage, MissesPage, Land, RunDone, KeepsPromise, Follows, Written;
      reached := 0;
      if size == 0 || (la + size - 1) % WORD <= la {
        ghost var h := H();
        assert h.pool[0..] == h.pool;
        assert Extends(h, h) by { GrowsSame(cpu, h, pml4, 0); }
        HeapWrittenSame(cpu, h, pml4, bits);
        return false, 0;
      }
      ghost var h0 := H();
      var c := PageRange(la, pa, size);
      PageRangeGood(la, pa, size);
      PageRangeFull(la, pa, size);
      RunStart(cpu, h0, pml4, c);
      ghost var regular := StartsClean(cpu, h0, pml4, c.la, c.End());
      RootServes(cpu, h0, pml4);
      var d;
      ok, d := MapLevel(3, pml4, c, bits, pml4, regular);
      reached := Min(d.la, c.End());
      if ok {
        RunStop(c, d);
      }
      RunEnd(cpu, h0, H(), pml4, c, d, bits, ok);
      Misses(cpu, h0, H(), pml4, c, reached, bits, ok);
      if regular {
        CleanRun(cpu, h0, H(), pml4, c, reached, bits, ok);
      }
      if ok {
        PromiseExact(cpu, h0, H(), pml4, c, bits);
      }
    }

    /** Mapping the same range a second time allocates no table and changes no entry. */
    method MapRangeTwice(pml4: nat, la: nat, pa: nat, size: nat, bits: bv12)
      returns (ok: bool, ghost first: Heap)
      requires ValidHeap(cpu, H(), pml4) && GoodBits(bits) && la < WORD && size < WORD
      requires Asserted(la, size) ==> InLimits(PageRange(la, pa, size))
      requires Asserted(la, size) ==>
        StartsClean(cpu, H(), pml4, PageRange(la, pa, size).la, PageRange(la, pa, size).End())
      modifies this
      ensures ok ==> H() == first
      ensures ok ==> Effect(cpu, old(H()), first, pml4, Trunc(0, la), Trunc(0, pa), PageRange(la, pa, size).End(), bits)
    {
      hide RunDone, KeepsPromise, SkipsPage, MissesPage, Effect, NewPlaces, AllMapped, StartsClean, ValidHeap, Extends;
      ghost var reached;
      var c := PageRange(la, pa, size);
      ok, reached := MapRange(pml4, la, pa, size, bits);
      first := H();
      if ok {
        PageRangeFull(la, pa, size);
        MappedAfter(cpu, old(H()), first, pml4, c.la, c.pa, c.End(), bits);
        ok, reached := MapRange(pml4, la, pa, size, bits);
      }
    }
  }
}
