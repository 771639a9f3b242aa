/** Four-level page tables as the hardware reads them (server/src/ARCH-amd64/paging.h and the
    Long-Mode Page Translation of the AMD64 Architecture Programmer's Manual, Volume 2, section 5.3).

    A 64-bit page-table entry is kept as its three fields: the flag bits 0-11, the frame number in
    bits 12-51 and the upper bits 52-63.  Physical memory is the map from the physical address of
    each page-table page to its 512 entries. */
module PageTables {
  import opened Options
  import opened Arithmetic

  /* Flag bits of an entry. */
  const VALID: bv12 := 0x001
  const WRITE: bv12 := 0x002
  const USER: bv12 := 0x004
  const PS: bv12 := 0x080

  type Frame = n: nat | n < 0x100_0000_0000

  datatype Entry = Entry(frame: Frame, flags: bv12, high: bv12) {
    predicate Valid() { flags & VALID != 0 }

    predicate LargePage() { flags & PS != 0 }

    /* The physical address in bits 12-51. */
    function Target(): nat { frame * 0x1000 }
  }

  const ZERO_ENTRY := Entry(0, 0, 0)

  type Table = s: seq<Entry> | |s| == 512 witness seq(512, _ => ZERO_ENTRY)

  /** A page after `memset(page, 0, PAGE_SIZE)`. */
  function ZeroTable(): (r: Table)
    ensures forall i :: 0 <= i < 512 ==> r[i] == ZERO_ENTRY
  {
    seq(512, i => ZERO_ENTRY)
  }

  /* The CPU features that decide which large pages exist. */
  datatype Cpu = Cpu(pse: bool, pdpe1gb: bool)

  /** The number of bytes one entry at this level spans; one whole table at level `l` spans
      `Size(l + 1)`. */
  function Size(level: nat): (s: nat)
    requires level <= 4
    ensures s > 0
  {
    match level
    case 0 => 0x1000
    case 1 => 0x20_0000
    case 2 => 0x4000_0000
    case 3 => 0x80_0000_0000
    case _ => 0x1_0000_0000_0000
  }

  const LA_LIMIT: nat := 0x1_0000_0000_0000
  const PA_LIMIT: nat := 0x10_0000_0000_0000

  function Index(level: nat, la: nat): (i: nat)
    requires level <= 3
    ensures i < 512
  {
    la / Size(level) % 512
  }

  function Trunc(level: nat, x: nat): nat
    requires level <= 4
  {
    x - x % Size(level)
  }

  predicate AllowLeaf(cpu: Cpu, level: nat) {
    match level
    case 0 => true
    case 1 => cpu.pse
    case 2 => cpu.pdpe1gb
    case _ => false
  }

  function LeafBit(level: nat): bv12 {
    if level == 1 || level == 2 then PS else 0
  }

  predicate IsLeaf(level: nat, e: Entry) {
    level == 0 || e.flags & LeafBit(level) != 0
  }

  /* What a completed walk ends in: an entry and the level it was found at. */
  datatype Leaf = Leaf(level: nat, entry: Entry)

  /** The walk the hardware does from the table at `t`.  A large-page bit the CPU does not support
      is a reserved bit, so the walk faults there as it does at an invalid entry. */
  ghost function Walk(cpu: Cpu, tables: map<nat, Table>, t: nat, level: nat, x: nat): Option<Leaf>
    requires level <= 3
    decreases level
  {
    if t !in tables then None else
    var e := tables[t][Index(level, x)];
    if !e.Valid() then None
    else if level == 0 then Some(Leaf(0, e))
    else if e.LargePage() then if AllowLeaf(cpu, level) then Some(Leaf(level, e)) else None
    else Walk(cpu, tables, e.Target(), level - 1, x)
  }

  /** The physical address a leaf translates `x` to. */
  ghost function Translate(leaf: Leaf, x: nat): nat
    requires leaf.level <= 3
  {
    Trunc(leaf.level, leaf.entry.Target()) + x % Size(leaf.level)
  }

  /** The walk once more, level by level, in the numbers of the manual: bit 0 of an entry is the valid bit, bit 7
      the large-page bit, which only the third and the second level can have and only with the CPU feature. */
  ghost function ManualWalk(cpu: Cpu, tables: map<nat, Table>, root: nat, x: nat): Option<Leaf> {
    var none: Option<Leaf> := None;
    if root !in tables then none else
    var e3 := tables[root][x / 0x80_0000_0000 % 512];
    if e3.flags & 0x001 == 0 || e3.flags & 0x080 != 0 || e3.frame * 0x1000 !in tables then none else
    var e2 := tables[e3.frame * 0x1000][x / 0x4000_0000 % 512];
    if e2.flags & 0x001 == 0 then none
    else if e2.flags & 0x080 != 0 then if cpu.pdpe1gb then Some(Leaf(2, e2)) else none
    else if e2.frame * 0x1000 !in tables then none else
    var e1 := tables[e2.frame * 0x1000][x / 0x20_0000 % 512];
    if e1.flags & 0x001 == 0 then none
    else if e1.flags & 0x080 != 0 then if cpu.pse then Some(Leaf(1, e1)) else none
    else if e1.frame * 0x1000 !in tables then none else
    var e0 := tables[e1.frame * 0x1000][x / 0x1000 % 512];
    if e0.flags & 0x001 == 0 then none else Some(Leaf(0, e0))
  }

  /** The physical address in those numbers: the upper bits of the frame and the offset in the page. */
  ghost function ManualAddress(leaf: Leaf, x: nat): nat {
    var frame := leaf.entry.frame;
    if leaf.level == 0 then frame * 0x1000 + x % 0x1000
    else if leaf.level == 1 then frame / 0x200 * 0x20_0000 + x % 0x20_0000
    else frame / 0x4_0000 * 0x4000_0000 + x % 0x4000_0000
  }

  lemma WalkIsManual(cpu: Cpu, tables: map<nat, Table>, root: nat, x: nat)
    ensures Walk(cpu, tables, root, 3, x) == ManualWalk(cpu, tables, root, x)
    ensures Walk(cpu, tables, root, 3, x).Some? ==>
      Walk(cpu, tables, root, 3, x).value.level <= 2
      && Translate(Walk(cpu, tables, root, 3, x).value, x) == ManualAddress(Walk(cpu, tables, root, 3, x).value, x)
  {
    if root in tables {
      var e3 := tables[root][Index(3, x)];
      if e3.Valid() && !e3.LargePage() && e3.Target() in tables {
        var e2 := tables[e3.Target()][Index(2, x)];
        assert Walk(cpu, tables, root, 3, x) == Walk(cpu, tables, e3.Target(), 2, x);
        if e2.Valid() && !e2.LargePage() && e2.Target() in tables {
          var e1 := tables[e2.Target()][Index(1, x)];
          assert Walk(cpu, tables, e3.Target(), 2, x) == Walk(cpu, tables, e2.Target(), 1, x);
          if e1.Valid() && !e1.LargePage() {
            assert Walk(cpu, tables, e2.Target(), 1, x) == Walk(cpu, tables, e1.Target(), 0, x);
          }
        }
      }
    }
    var w := Walk(cpu, tables, root, 3, x);
    if w.Some? {
      FrameTruncated(w.value.level, w.value.entry.frame);
    }
  }

  lemma FrameTruncated(level: nat, frame: nat)
    requires level <= 2
    ensures Trunc(level, frame * 0x1000) ==
      match level
      case 0 => frame * 0x1000
      case 1 => frame / 0x200 * 0x20_0000
      case _ => frame / 0x4_0000 * 0x4000_0000
  {
    var n := if level == 0 then 1 else if level == 1 then 0x200 else 0x4_0000;
    DivModUnique(frame * 0x1000, n * 0x1000, frame / n, frame % n * 0x1000);
  }

  /** Where a table sits in the hierarchy: its level, and the lowest linear address it serves. */
  datatype Place = Place(level: nat, base: nat)

  /** Page-table memory: the tables in use, the pages the allocator will hand out next, in order,
      and the place of every table. */
  datatype Heap = Heap(tables: map<nat, Table>, pool: seq<nat>, place: map<nat, Place>)

  ghost predicate PlacedTable(h: Heap, t: nat) {
    && t % 0x1000 == 0 && t < 0x1_0000_0000
    && t in h.place
    && var p := h.place[t];
    && p.level <= 3
    && p.base % Size(p.level + 1) == 0
    && p.base + Size(p.level + 1) <= LA_LIMIT
  }

  ghost predicate PlacedEntry(cpu: Cpu, h: Heap, t: nat, i: nat)
    requires t in h.tables && i < 512 && PlacedTable(h, t)
  {
    var e, p := h.tables[t][i], h.place[t];
    e.Valid() ==>
      if IsLeaf(p.level, e)
      then AllowLeaf(cpu, p.level) && e.Target() % Size(p.level) == 0
      else !e.LargePage()
           && e.Target() in h.tables
           && e.Target() in h.place
           && p.level > 0
           && h.place[e.Target()] == Place(p.level - 1, p.base + i * Size(p.level))
  }

  ghost predicate InSpan(p: Place, x: nat)
    requires p.level <= 3
  {
    p.base <= x < p.base + Size(p.level + 1)
  }

  /* A table placed below `t` is found through the entry of `t` that spans it. */
  ghost predicate Linked(h: Heap, t: nat, u: nat)
    requires t in h.tables && PlacedTable(h, t) && PlacedTable(h, u)
  {
    var p, q := h.place[t], h.place[u];
    q.level < p.level && InSpan(p, q.base) ==>
      var e := h.tables[t][Index(p.level, q.base)];
      e.Valid() && !IsLeaf(p.level, e) && (q.level + 1 == p.level ==> e.Target() == u)
  }

  ghost predicate OwnPlace(h: Heap, t: nat, u: nat)
    requires t in h.place && u in h.place
  {
    h.place[t] == h.place[u] ==> t == u
  }

  ghost predicate PoolFree(h: Heap) {
    && (forall k :: 0 <= k < |h.pool| ==>
      h.pool[k] !in h.tables && h.pool[k] % 0x1000 == 0 && h.pool[k] < 0x1_0000_0000)
    && (forall j, k :: 0 <= j < k < |h.pool| ==> h.pool[j] != h.pool[k])
  }

  /** Well-formed page-table memory: every table has its own place, every valid entry is a leaf of a
      size the CPU supports or leads to the table that belongs there, every table below another is
      linked from it, and the pages the allocator still holds are free. */
  ghost predicate Placed(cpu: Cpu, h: Heap) {
    && h.tables.Keys == h.place.Keys
    && (forall t {:trigger PlacedTable(h, t)} :: t in h.tables ==> PlacedTable(h, t))
    && (forall t, i {:trigger PlacedEntry(cpu, h, t, i)} :: t in h.tables && 0 <= i < 512 ==> PlacedEntry(cpu, h, t, i))
    && (forall t, u {:trigger Linked(h, t, u)} :: t in h.tables && u in h.tables ==> Linked(h, t, u))
    && (forall t, u {:trigger OwnPlace(h, t, u)} :: t in h.tables && u in h.tables ==> OwnPlace(h, t, u))
    && PoolFree(h)
  }

  /** The walk from `t` at level `k` down to level `l` for `x` arrives at table `u`. */
  ghost predicate Reaches(cpu: Cpu, tables: map<nat, Table>, t: nat, k: nat, u: nat, l: nat, x: nat)
    requires k <= 3
    decreases k
  {
    if k <= l then k == l && t == u else
    && t in tables
    && var e := tables[t][Index(k, x)];
    && e.Valid() && !e.LargePage() && Reaches(cpu, tables, e.Target(), k - 1, u, l, x)
  }

  /** Every address the table `t` is placed at is translated through `t`. */
  ghost predicate Serves(cpu: Cpu, h: Heap, root: nat, t: nat)
    requires t in h.place && h.place[t].level <= 3
  {
    forall x {:trigger Reaches(cpu, h.tables, root, 3, t, h.place[t].level, x)} :: InSpan(h.place[t], x) ==>
      Reaches(cpu, h.tables, root, 3, t, h.place[t].level, x)
  }

  ghost predicate IsRoot(h: Heap, root: nat) {
    root in h.tables && root in h.place && h.place[root] == Place(3, 0)
  }

  lemma SizeStep(level: nat)
    requires level <= 3
    ensures Size(level + 1) == 512 * Size(level)
  {
  }

  lemma SizeDivides(j: nat, k: nat, x: nat)
    requires j <= k <= 4
    requires x % Size(k) == 0
    ensures x % Size(j) == 0
    decreases k - j
  {
    if j < k {
      assert x % Size(j + 1) == 0 by { SizeDivides(j + 1, k, x); }
    }
  }

  /* ---- arithmetic of levels ---- */

  /** The slot `i` of a table at `base` holds exactly the addresses whose index there is `i`. */
  lemma SlotOf(level: nat, base: nat, i: nat, x: nat)
    requires level <= 3 && base % Size(level + 1) == 0 && i < 512
    requires base + i * Size(level) <= x < base + i * Size(level) + Size(level)
    ensures Index(level, x) == i && Trunc(level, x) == base + i * Size(level)
    ensures base <= x < base + Size(level + 1) && Trunc(level + 1, x) == base
    ensures Trunc(level, x) % Size(level) == 0
  {
    var s, q := Size(level), base / Size(level + 1);
    var off := x - base - i * s;
    SizeStep(level);
    assert base == q * (512 * s);
    assert i * s + off < 512 * s by { assert i * s <= 511 * s; }
    assert x == (512 * q + i) * s + off;
    DivModUnique(x, s, 512 * q + i, off);
    DivModUnique(512 * q + i, 512, q, i);
    DivModUnique(x, 512 * s, q, i * s + off);
    DivModUnique(x - off, s, 512 * q + i, 0);
  }

  /** Inside the span of a table, the index of an address is its distance from the base. */
  lemma IndexInSpan(level: nat, base: nat, x: nat)
    requires level <= 3 && base % Size(level + 1) == 0
    requires base <= x < base + Size(level + 1)
    ensures Trunc(level + 1, x) == base
    ensures Trunc(level, x) == base + Index(level, x) * Size(level)
    ensures Trunc(level, x) <= x < Trunc(level, x) + Size(level)
    ensures Trunc(level, x) % Size(level) == 0
    ensures base <= Trunc(level, x) && Trunc(level, x) + Size(level) <= base + Size(level + 1)
  {
    var s := Size(level);
    var i := (x - base) / s;
    SizeStep(level);
    assert i * s <= x - base < i * s + s;
    if i >= 512 { MulMonotone(512, i, s); }
    SlotOf(level, base, i, x);
    MulMonotone(i + 1, 512, s);
  }

  /** Truncating an address to a smaller unit leaves the index at a higher level alone. */
  lemma TruncKeepsIndex(j: nat, k: nat, x: nat)
    requires j <= k <= 3
    ensures Index(k, Trunc(j, x)) == Index(k, x)
    ensures Trunc(k, x) <= Trunc(j, x) <= x
  {
    var s, z := Size(j), Size(k);
    var m := x / z * z;
    assert x == m + x % z;
    DivModUnique(m, z, x / z, 0);
    SizeDivides(j, k, m);
    var a, b := m / s, x / s;
    assert m == a * s && x == b * s + x % s;
    MulMonotone(a, b, s);
    DivModUnique(Trunc(j, x), z, x / z, Trunc(j, x) - m);
  }

  lemma PointerIsNoLeaf(level: nat, e: Entry)
    requires level > 0 && !e.LargePage()
    ensures !IsLeaf(level, e)
  {
    assert LeafBit(level) == PS || LeafBit(level) == 0;
  }

  /** The end of the slot of an address is a slot boundary of the same table or the end of it. */
  lemma SlotEnd(level: nat, base: nat, la: nat, next: nat)
    requires level <= 3 && base % Size(level + 1) == 0
    requires base <= la < base + Size(level + 1) && next == Trunc(level, la) + Size(level)
    ensures next % Size(level) == 0 && base < next <= base + Size(level + 1)
    ensures next % Size(level + 1) == 0 ==> next == base + Size(level + 1)
  {
    IndexInSpan(level, base, la);
    MultipleNext(Size(level), Trunc(level, la));
    if next % Size(level + 1) == 0 {
      MultipleInSpan(Size(level + 1), base, next);
    }
  }
}
