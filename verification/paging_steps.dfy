/** The steps of the page-table builder, on values (server/src/ARCH-amd64/paging.c). */
module PagingSteps {
  import opened Arithmetic
  import opened PageTables
  import opened PageEffects

  /** The linear address, physical address and size that `ptab_map_level` advances by reference. */
  datatype Cursor = Cursor(la: nat, pa: nat, size: nat) {
    function End(): nat { la + size }
  }

  /* What the caller of `ptab_map_level` has established about the range still to be mapped. */
  ghost predicate GoodCursor(c: Cursor) {
    && c.size > 0
    && c.la % 0x1000 == 0 && c.pa % 0x1000 == 0 && c.size % 0x1000 == 0
    && c.pa + c.size <= PA_LIMIT
  }

  /* `d` is `c` advanced to some later address. */
  ghost predicate Advanced(c: Cursor, d: Cursor) {
    && c.la <= d.la && d.pa - c.pa == d.la - c.la
    && d.la % 0x1000 == 0
    && d.size == if c.End() <= d.la then 0 else c.End() - d.la
  }

  /** The mapping bits leave the large-page bit to the builder. */
  predicate GoodBits(bits: bv12) { bits & PS == 0 }

  ghost predicate ValidHeap(cpu: Cpu, h: Heap, root: nat) {
    Placed(cpu, h) && IsRoot(h, root)
  }

  ghost predicate TableAt(h: Heap, t: nat, level: nat) {
    t in h.tables && PlacedTable(h, t) && h.place[t].level == level
  }

  /** The table at `t` is the one the walk of every address in its span goes through, and the range
      starts inside it at an address that no existing leaf straddles. */
  ghost predicate Regular(cpu: Cpu, h: Heap, root: nat, t: nat, c: Cursor) {
    && t in h.place && h.place[t].level <= 3
    && Serves(cpu, h, root, t) && InSpan(h.place[t], c.la)
    && StartsClean(cpu, h, root, c.la, c.End())
    && c.End() <= LA_LIMIT
  }

  /** The whole range is mapped already, from a regular start. */
  ghost predicate Done(cpu: Cpu, h: Heap, root: nat, t: nat, c: Cursor) {
    Regular(cpu, h, root, t, c) && AllMapped(cpu, h, root, c.la, c.End())
  }

  ghost predicate Grows(cpu: Cpu, a: Heap, b: Heap, root: nat, pa: nat) {
    ValidHeap(cpu, b, root) && Extends(a, b) && Above(cpu, a, b, root, pa)
  }

  /* ---- the branches of one round ---- */

  lemma StepLeaf(cpu: Cpu, h: Heap, root: nat, level: nat, t: nat, c: Cursor, bits: bv12)
    requires ValidHeap(cpu, h, root) && TableAt(h, t, level) && GoodCursor(c)
    requires !h.tables[t][Index(level, c.la)].Valid() && AllowLeaf(cpu, level)
    requires c.pa % Size(level) == 0
    ensures LeafFor(cpu, h, t, LeafEntry(level, c.pa, bits))
    ensures Grows(cpu, h, SetEntry(h, t, Index(level, c.la), LeafEntry(level, c.pa, bits)), root, c.pa)
  {
    LeafEntryFits(cpu, h, t, c.pa, bits);
    SetLeafPlaced(cpu, h, t, Index(level, c.la), LeafEntry(level, c.pa, bits));
    AboveLeaf(cpu, h, root, t, Index(level, c.la), c.pa, bits);
  }

  lemma StepLeafEffect(cpu: Cpu, h: Heap, root: nat, level: nat, t: nat, la: nat, pa: nat, bits: bv12)
    requires ValidHeap(cpu, h, root) && TableAt(h, t, level)
    requires Serves(cpu, h, root, t) && InSpan(h.place[t], la)
    requires !h.tables[t][Index(level, la)].Valid() && AllowLeaf(cpu, level)
    requires la % Size(level) == 0 && pa % Size(level) == 0 && pa < PA_LIMIT
    ensures la == Trunc(level, la)
    ensures var upto := la + Size(level);
      Effect(cpu, h, SetEntry(h, t, Index(level, la), LeafEntry(level, pa, bits)), root, la, pa, upto, bits)
  {
    IndexInSpan(level, h.place[t].base, la);
    EffectLeaf(cpu, h, root, t, Index(level, la), la, pa, la + Size(level), bits);
  }

  lemma EntryOf(cpu: Cpu, h: Heap, root: nat, level: nat, t: nat, c: Cursor)
    requires TableAt(h, t, level) && Regular(cpu, h, root, t, c) && c.size > 0
    ensures Done(cpu, h, root, t, c) ==> h.tables[t][Index(level, c.la)].Valid()
  {
    WalkThrough(cpu, h.tables, root, 3, t, level, c.la);
  }

  lemma GrowsSame(cpu: Cpu, h: Heap, root: nat, pa: nat)
    requires ValidHeap(cpu, h, root)
    ensures Grows(cpu, h, h, root, pa)
  {
    assert h.pool[0..] == h.pool;
  }

  lemma StepLink(cpu: Cpu, h: Heap, root: nat, level: nat, t: nat, c: Cursor, bits: bv12)
    requires ValidHeap(cpu, h, root) && TableAt(h, t, level) && level > 0 && GoodBits(bits)
    requires !h.tables[t][Index(level, c.la)].Valid() && |h.pool| > 0
    ensures h.pool[0] / 0x1000 < 0x100_0000_0000
    ensures var e := Entry(h.pool[0] / 0x1000, VALID | bits, 0);
      var b := LinkEntry(h, t, Index(level, c.la), e);
      && e.Valid() && !IsLeaf(level, e)
      && Grows(cpu, h, b, root, c.pa)
      && TableAt(b, t, level)
      && (forall x :: 0 <= x < LA_LIMIT ==> LeafAt(cpu, b, root, x) == LeafAt(cpu, h, root, x))
      && (Regular(cpu, h, root, t, c) ==> Regular(cpu, b, root, t, c))
  {
    var i := Index(level, c.la);
    var e := Entry(h.pool[0] / 0x1000, VALID | bits, 0);
    var b := LinkEntry(h, t, i, e);
    assert (VALID | bits) & VALID == VALID;
    assert bits & PS == 0 ==> (VALID | bits) & PS == 0;
    PointerIsNoLeaf(level, e);
    LinkPlaced(cpu, h, t, i, e);
    EffectLink(cpu, h, root, t, i, e);
    assert PlacedTable(b, t);
    if Regular(cpu, h, root, t, c) {
      ServesStays(cpu, h, b, root, t);
    }
  }

  /* Entering the table below the entry for `c.la`. */
  lemma StepDown(cpu: Cpu, h: Heap, root: nat, level: nat, t: nat, c: Cursor)
    requires ValidHeap(cpu, h, root) && TableAt(h, t, level)
    requires var e := h.tables[t][Index(level, c.la)]; e.Valid() && !IsLeaf(level, e)
    ensures level > 0
    ensures var n := h.tables[t][Index(level, c.la)].Target();
      && TableAt(h, n, level - 1)
      && (Regular(cpu, h, root, t, c) ==> Regular(cpu, h, root, n, c) && h.place[n].base == Trunc(level, c.la))
  {
    var i := Index(level, c.la);
    var n := h.tables[t][i].Target();
    assert PlacedEntry(cpu, h, t, i) && PlacedTable(h, n);
    if Regular(cpu, h, root, t, c) {
      IndexInSpan(level, h.place[t].base, c.la);
      ServesBelow(cpu, h, root, t, i);
      SizeStep(level - 1);
    }
  }

  lemma LeafOnlyWhereAllowed(cpu: Cpu, h: Heap, level: nat, t: nat, i: nat)
    requires Placed(cpu, h) && TableAt(h, t, level) && i < 512
    requires h.tables[t][i].Valid() && IsLeaf(level, h.tables[t][i])
    ensures AllowLeaf(cpu, level)
  {
    assert PlacedEntry(cpu, h, t, i);
  }

  lemma GrowsTransitive(cpu: Cpu, a: Heap, b: Heap, c: Heap, root: nat, pa: nat, pb: nat)
    requires pa <= pb && Grows(cpu, a, b, root, pa) && Grows(cpu, b, c, root, pb)
    ensures Grows(cpu, a, c, root, pa)
  {
    ExtendsTransitive(a, b, c);
    AboveTransitive(cpu, a, b, c, root, pa, pb);
  }

  /* At the last level a leaf can always be written, so the descent never goes below it. */
  lemma AlignedForPages(level: nat, c: Cursor)
    requires level <= 3 && GoodCursor(c)
    ensures level == 0 || (level == 1 && Super(c)) ==>
      c.la % Size(level) == 0 && c.pa % Size(level) == 0 && c.size >= Size(level)
  {
  }

  lemma PageAdvances(level: nat, c: Cursor, d: Cursor)
    requires level <= 3 && GoodCursor(c)
    requires d.la == c.la + Size(level) && d.pa == c.pa + Size(level)
    requires d.size == c.size - if Size(level) <= c.size then Size(level) else c.size
    ensures Advanced(c, d) && d.size < c.size
  {
  }

  lemma TableStays(cpu: Cpu, h1: Heap, h2: Heap, level: nat, t: nat)
    requires TableAt(h1, t, level) && Extends(h1, h2) && Placed(cpu, h2)
    ensures TableAt(h2, t, level) && h2.place[t] == h1.place[t]
  {
    assert KeepsTable(h1, h2, t) && PlacedTable(h2, t);
  }

  lemma AdvancedGood(c: Cursor, d: Cursor)
    requires GoodCursor(c) && Advanced(c, d) && d.size > 0
    ensures GoodCursor(d) && d.End() == c.End()
  {
  }

  lemma AdvancedTransitive(c: Cursor, d: Cursor, e: Cursor)
    requires Advanced(c, d) && Advanced(d, e) && d.size > 0
    ensures Advanced(c, e) && d.End() == c.End() && d.pa == c.pa + (d.la - c.la) && c.la <= d.la <= Min(e.la, c.End())
    ensures Min(e.la, d.End()) == Min(e.la, c.End()) && Min(d.la, c.End()) == d.la
  {
  }

  /* The next round starts at a regular place of the same table, or the table is finished. */
  ghost predicate NextRegular(cpu: Cpu, h: Heap, root: nat, level: nat, t: nat, e: Cursor)
    requires TableAt(h, t, level)
  {
    if e.la % Size(level + 1) == 0 then e.la == h.place[t].base + Size(level + 1)
    else Regular(cpu, h, root, t, e)
  }

  lemma DoneLater(cpu: Cpu, h: Heap, root: nat, t: nat, c: Cursor, d: Cursor)
    requires Advanced(c, d) && d.size > 0
    ensures Done(cpu, h, root, t, c) && Regular(cpu, h, root, t, d) ==> Done(cpu, h, root, t, d)
  {
  }

  /* The end of a slot is a regular place of the same table, or the end of it. */
  lemma SlotRegular(cpu: Cpu, h: Heap, root: nat, level: nat, t: nat, v: nat, e: Cursor)
    requires TableAt(h, t, level) && Serves(cpu, h, root, t) && InSpan(h.place[t], v)
    requires e.la == Trunc(level, v) + Size(level) && e.End() <= LA_LIMIT
    ensures NextRegular(cpu, h, root, level, t, e)
  {
    hide Index, Trunc, Size, InSpan, StartsClean, Serves;
    SlotEndOf(h, level, t, v, e.la);
    if e.la % Size(level + 1) != 0 {
      CleanAtSlot(cpu, h, root, level, t, e.la, e.End());
    }
  }

  lemma SlotEndOf(h: Heap, level: nat, t: nat, la: nat, next: nat)
    requires TableAt(h, t, level) && InSpan(h.place[t], la) && next == Trunc(level, la) + Size(level)
    ensures next % Size(level) == 0
    ensures if next % Size(level + 1) == 0 then next == h.place[t].base + Size(level + 1) else InSpan(h.place[t], next)
  {
    SlotEnd(level, h.place[t].base, la, next);
    if next == h.place[t].base + Size(level + 1) {
      MultipleNext(Size(level + 1), h.place[t].base);
    }
  }

  /* No leaf of a table straddles the end of one of its slots. */
  lemma CleanAtSlot(cpu: Cpu, h: Heap, root: nat, level: nat, t: nat, la: nat, upto: nat)
    requires TableAt(h, t, level) && Serves(cpu, h, root, t) && InSpan(h.place[t], la)
    requires level <= 3 && la % Size(level) == 0
    ensures StartsClean(cpu, h, root, la, upto)
  {
    hide Trunc, Index, PlacedTable;
    if LeafAt(cpu, h, root, la).Some? {
      WalkThrough(cpu, h.tables, root, 3, t, level, la);
      WalkLevel(cpu, h.tables, t, level, la);
      SizeDivides(LeafAt(cpu, h, root, la).value.level, level, la);
    }
  }

  /** The page-rounded range `ptab_map_range` works on. */
  function PageRange(la: nat, pa: nat, size: nat): Cursor {
    Cursor(Trunc(0, la), Trunc(0, pa), Trunc(0, la % 0x1000 + size + 0xfff))
  }

  /** It consists of the pages that hold a byte of the range, at the physical pages from the one of `pa` on. */
  lemma PageRangeCovers(la: nat, pa: nat, size: nat)
    requires size > 0
    ensures var c := PageRange(la, pa, size);
      && c.la % 0x1000 == 0 && c.la <= la < c.la + 0x1000
      && c.End() % 0x1000 == 0 && c.End() - 0x1000 < la + size <= c.End()
      && c.pa % 0x1000 == 0 && c.pa <= pa < c.pa + 0x1000
      && (pa % 0x1000 == la % 0x1000 ==> pa - c.pa == la - c.la)
  {
  }

  lemma PageRangeGood(la: nat, pa: nat, size: nat)
    requires size > 0
    requires PageRange(la, pa, size).pa + PageRange(la, pa, size).size <= PA_LIMIT
    ensures GoodCursor(PageRange(la, pa, size))
  {
  }

  lemma RootServes(cpu: Cpu, h: Heap, root: nat)
    requires ValidHeap(cpu, h, root)
    ensures TableAt(h, root, 3) && h.place[root] == Place(3, 0) && Serves(cpu, h, root, root)
  {
    assert PlacedTable(h, root);
  }

  /* At the start of a run the root table serves every address. */
  lemma RunStart(cpu: Cpu, h: Heap, root: nat, c: Cursor)
    requires ValidHeap(cpu, h, root) && c.size > 0 && c.End() <= LA_LIMIT
    ensures TableAt(h, root, 3) && h.place[root].base == 0
    ensures StartsClean(cpu, h, root, c.la, c.End()) ==> Regular(cpu, h, root, root, c)
    ensures LeafAt(cpu, h, root, c.la).Some? ==> LeafAt(cpu, h, root, c.la).value.level <= 3
  {
    RootServes(cpu, h, root);
    if LeafAt(cpu, h, root, c.la).Some? {
      WalkLevel(cpu, h.tables, root, 3, c.la);
    }
  }

  /* A run in the root table only stops at the end of the range. */
  lemma RunStop(c: Cursor, d: Cursor)
    requires c.End() <= LA_LIMIT && Advanced(c, d) && d.size < c.size
    requires d.size > 0 ==> d.la % Size(4) == 0
    ensures d.size == 0 && Min(d.la, c.End()) == c.End()
  {
  }

  /* ---- the tables a run allocates ---- */

  /** Everything is a multiple of the 2 MiB superpage. */
  predicate Super(c: Cursor) {
    c.la % 0x20_0000 == 0 && c.pa % 0x20_0000 == 0 && c.size % 0x20_0000 == 0
  }

  ghost predicate NewAt(cpu: Cpu, h: Heap, c: Cursor, level: nat, n: nat)
    requires n in h.place
  {
    var p := h.place[n];
    && p.level < level <= 3
    && p.base < c.End() && c.la < p.base + Size(p.level + 1)
    && (cpu.pse && Super(c) ==> p.level > 0)
  }

  /** The tables a run over `c` allocates are below `level`, serve some of `c`, and are not of the
      last level when superpages do. */
  ghost predicate NewPlaces(cpu: Cpu, a: Heap, b: Heap, c: Cursor, level: nat) {
    && a.tables.Keys <= b.tables.Keys <= b.place.Keys
    && forall n {:trigger NewAt(cpu, b, c, level, n)} :: n in b.tables && n !in a.tables ==> NewAt(cpu, b, c, level, n)
  }

  lemma NewPlacesNone(cpu: Cpu, a: Heap, b: Heap, root: nat, c: Cursor, level: nat)
    requires ValidHeap(cpu, a, root) && b.tables.Keys == a.tables.Keys && b.place == a.place
    ensures NewPlaces(cpu, a, b, c, level)
  {
  }

  lemma NewPlacesTransitive(cpu: Cpu, h0: Heap, h1: Heap, h2: Heap, c: Cursor, d: Cursor, l: nat, level: nat)
    requires NewPlaces(cpu, h0, h1, c, level) && NewPlaces(cpu, h1, h2, d, l) && l <= level <= 3
    requires Extends(h1, h2)
    requires c.la <= d.la && d.End() == c.End()
    requires Super(c) ==> Super(d) || l == 0
    ensures NewPlaces(cpu, h0, h2, c, level)
  {
    forall n | n in h2.tables && n !in h0.tables
      ensures NewAt(cpu, h2, c, level, n)
    {
      if n in h1.tables {
        assert NewAt(cpu, h1, c, level, n) && KeepsTable(h1, h2, n);
      } else {
        assert NewAt(cpu, h2, d, l, n);
      }
    }
  }

  /* The table linked below the entry for `c.la`. */
  lemma NewPlacesLink(cpu: Cpu, h: Heap, root: nat, level: nat, t: nat, c: Cursor, e: Entry)
    requires ValidHeap(cpu, h, root) && TableAt(h, t, level) && level > 0 && |h.pool| > 0 && c.size > 0
    requires InSpan(h.place[t], c.la)
    requires cpu.pse && Super(c) ==> level > 1
    ensures NewPlaces(cpu, h, LinkEntry(h, t, Index(level, c.la), e), c, level)
  {
    var b := LinkEntry(h, t, Index(level, c.la), e);
    IndexInSpan(level, h.place[t].base, c.la);
    SizeStep(level - 1);
    assert NewAt(cpu, b, c, level, h.pool[0]);
  }

  lemma SuperAdvanced(c: Cursor, d: Cursor)
    requires Super(c) && Advanced(c, d) && d.size > 0 && d.la % 0x20_0000 == 0
    ensures Super(d)
  {
    assert d.pa == c.pa + (d.la - c.la) && d.size == c.size - (d.la - c.la);
  }

  /** After a complete run the whole range is mapped, and its start is clean for another run. */
  lemma MappedAfter(cpu: Cpu, a: Heap, b: Heap, root: nat, la: nat, pa: nat, upto: nat, bits: bv12)
    requires Effect(cpu, a, b, root, la, pa, upto, bits) && la < upto <= LA_LIMIT
    requires StartsClean(cpu, a, root, la, upto)
    ensures AllMapped(cpu, b, root, la, upto) && StartsClean(cpu, b, root, la, upto)
  {
    forall x | la <= x < upto
      ensures LeafAt(cpu, b, root, x).Some?
    {
      assert EffectAt(cpu, a, b, root, la, pa, upto, bits, x);
    }
    assert EffectAt(cpu, a, b, root, la, pa, upto, bits, la);
  }
}
