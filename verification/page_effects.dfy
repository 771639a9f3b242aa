/** What one store into a page table does to the walks of the hardware, and how such effects add
    up over a run of `ptab_map_level`. */
module PageEffects {
  import opened Options
  import opened PageTables

  ghost function LeafAt(cpu: Cpu, h: Heap, root: nat, x: nat): Option<Leaf> {
    Walk(cpu, h.tables, root, 3, x)
  }

  /** Nothing valid is ever overwritten: tables and places only grow, valid entries stay, and new
      tables come from the front of the pool. */
  ghost predicate Extends(a: Heap, b: Heap) {
    && a.tables.Keys <= a.place.Keys
    && (forall t {:trigger KeepsTable(a, b, t)} :: t in a.tables ==> KeepsTable(a, b, t))
    && |b.pool| <= |a.pool|
    && b.pool == a.pool[|a.pool| - |b.pool|..]
    && b.tables.Keys == a.tables.Keys + Taken(a.pool, |a.pool| - |b.pool|)
  }

  ghost predicate KeepsTable(a: Heap, b: Heap, t: nat)
    requires t in a.tables && t in a.place
  {
    && t in b.tables && t in b.place && b.place[t] == a.place[t]
    && forall i :: 0 <= i < 512 && a.tables[t][i].Valid() ==> b.tables[t][i] == a.tables[t][i]
  }

  /* The first `n` pages of a pool. */
  ghost function Taken(pool: seq<nat>, n: nat): set<nat>
    requires n <= |pool|
  {
    set k | 0 <= k < n :: pool[k]
  }

  lemma TakenSplit(pool: seq<nat>, m: nat, n: nat)
    requires m <= n <= |pool|
    ensures Taken(pool, n) == Taken(pool, m) + Taken(pool[m..], n - m)
  {
    forall t | t in Taken(pool, n)
      ensures t in Taken(pool, m) + Taken(pool[m..], n - m)
    {
      var k :| 0 <= k < n && pool[k] == t;
      assert k >= m ==> pool[m..][k - m] == t;
    }
  }

  lemma ExtendsTransitive(a: Heap, b: Heap, c: Heap)
    requires Extends(a, b) && Extends(b, c)
    ensures Extends(a, c)
  {
    var m, n := |a.pool| - |b.pool|, |a.pool| - |c.pool|;
    TakenSplit(a.pool, m, n);
    assert a.pool[m..][n - m..] == a.pool[n..];
    forall t | t in a.tables
      ensures KeepsTable(a, c, t)
    {
      assert KeepsTable(a, b, t) && KeepsTable(b, c, t);
    }
  }

  /** The heap after one entry store. */
  ghost function SetEntry(h: Heap, t: nat, i: nat, e: Entry): Heap
    requires t in h.tables && i < 512
  {
    Heap(h.tables[t := h.tables[t][i := e]], h.pool, h.place)
  }

  /** The heap after taking a zeroed page for a table placed below slot `i` of `t` and linking it. */
  ghost function LinkEntry(h: Heap, t: nat, i: nat, e: Entry): Heap
    requires t in h.tables && t in h.place && i < 512 && |h.pool| > 0
    requires 0 < h.place[t].level <= 3
  {
    var p := h.place[t];
    var n := h.pool[0];
    Heap(h.tables[n := ZeroTable()][t := h.tables[t][i := e]], h.pool[1..],
         h.place[n := Place(p.level - 1, p.base + i * Size(p.level))])
  }

  /* The slot of entry `i` of table `t`. */
  ghost predicate InSlot(h: Heap, t: nat, i: nat, x: nat)
    requires t in h.place && h.place[t].level <= 3
  {
    var p := h.place[t];
    p.base + i * Size(p.level) <= x < p.base + i * Size(p.level) + Size(p.level)
  }

  /** A leaf entry that fits slot `i` of `t`. */
  ghost predicate LeafFor(cpu: Cpu, h: Heap, t: nat, e: Entry)
    requires t in h.place && h.place[t].level <= 3
  {
    var l := h.place[t].level;
    e.Valid() && IsLeaf(l, e) && AllowLeaf(cpu, l) && e.Target() % Size(l) == 0
  }

  /* No table is placed inside the slot of an entry that is not valid. */
  lemma NothingBelow(cpu: Cpu, h: Heap, t: nat, i: nat, u: nat)
    requires Placed(cpu, h) && t in h.tables && u in h.tables && i < 512
    requires PlacedTable(h, t) && PlacedTable(h, u)
    requires !h.tables[t][i].Valid()
    requires h.place[u].level < h.place[t].level
    ensures !InSlot(h, t, i, h.place[u].base)
  {
    assert PlacedTable(h, t) && PlacedTable(h, u) && Linked(h, t, u);
    var p := h.place[t];
    if InSlot(h, t, i, h.place[u].base) {
      SlotOf(p.level, p.base, i, h.place[u].base);
    }
  }

  lemma SetLeafPlaced(cpu: Cpu, h: Heap, t: nat, i: nat, e: Entry)
    requires Placed(cpu, h) && t in h.tables && i < 512
    requires PlacedTable(h, t) && !h.tables[t][i].Valid() && LeafFor(cpu, h, t, e)
    ensures Placed(cpu, SetEntry(h, t, i, e)) && Extends(h, SetEntry(h, t, i, e))
  {
    var b := SetEntry(h, t, i, e);
    forall u | u in b.tables
      ensures PlacedTable(b, u)
    {
      assert PlacedTable(h, u);
    }
    forall u, j | u in b.tables && 0 <= j < 512
      ensures PlacedEntry(cpu, b, u, j)
    {
      assert PlacedTable(h, u) && PlacedEntry(cpu, h, u, j);
    }
    forall u, v | u in b.tables && v in b.tables
      ensures Linked(b, u, v) && OwnPlace(b, u, v)
    {
      assert PlacedTable(h, u) && PlacedTable(h, v) && Linked(h, u, v) && OwnPlace(h, u, v);
    }
  }

  /** The entry of a table linked into slot `i` of `t`. */
  ghost predicate PointerFor(h: Heap, e: Entry) {
    |h.pool| > 0 && e.Valid() && !e.LargePage() && e.Target() == h.pool[0]
  }

  /** A table linked into an invalid slot stands in the right relation to every other table. */
  lemma LinkNew(cpu: Cpu, h: Heap, t: nat, i: nat, e: Entry, u: nat)
    requires Placed(cpu, h) && t in h.tables && i < 512 && u in h.tables
    requires PlacedTable(h, t) && h.place[t].level > 0 && !h.tables[t][i].Valid() && PointerFor(h, e)
    requires PlacedTable(h, u)
    requires PlacedTable(LinkEntry(h, t, i, e), u)
    requires PlacedTable(LinkEntry(h, t, i, e), h.pool[0])
    ensures OwnPlace(LinkEntry(h, t, i, e), u, h.pool[0]) && OwnPlace(LinkEntry(h, t, i, e), h.pool[0], u)
    ensures Linked(LinkEntry(h, t, i, e), u, h.pool[0]) && Linked(LinkEntry(h, t, i, e), h.pool[0], u)
  {
    var p, q := h.place[t], h.place[u];
    var base := p.base + i * Size(p.level);
    if q.level < p.level {
      // u would have to sit in the slot of an entry that is not valid
      NothingBelow(cpu, h, t, i, u);
    } else if InSpan(q, base) {
      LinkAncestor(cpu, h, t, i, e, u);
    }
  }

  lemma LinkAncestor(cpu: Cpu, h: Heap, t: nat, i: nat, e: Entry, u: nat)
    requires Placed(cpu, h) && t in h.tables && i < 512 && u in h.tables
    requires PlacedTable(h, t) && h.place[t].level > 0 && !h.tables[t][i].Valid() && PointerFor(h, e)
    requires PlacedTable(h, u) && h.place[u].level >= h.place[t].level
    requires InSpan(h.place[u], h.place[t].base + i * Size(h.place[t].level))
    ensures var b, q := LinkEntry(h, t, i, e), h.place[u];
      var d := b.tables[u][Index(q.level, h.place[t].base + i * Size(h.place[t].level))];
      d.Valid() && !IsLeaf(q.level, d) && (q.level == h.place[t].level ==> d.Target() == h.pool[0])
  {
    hide Size, Index, Trunc;
    var p, q := h.place[t], h.place[u];
    var base := p.base + i * Size(p.level);
    SlotOf(p.level, p.base, i, base);
    IndexInSpan(q.level, q.base, base);
    PointerIsNoLeaf(p.level, e);
    if q.level == p.level {
      assert OwnPlace(h, t, u);
    } else {
      TruncKeepsIndex(p.level + 1, q.level, base);
      assert Linked(h, u, t);
    }
  }

  lemma LinkPlaced(cpu: Cpu, h: Heap, t: nat, i: nat, e: Entry)
    requires Placed(cpu, h) && t in h.tables && i < 512
    requires PlacedTable(h, t) && h.place[t].level > 0 && !h.tables[t][i].Valid() && PointerFor(h, e)
    ensures Placed(cpu, LinkEntry(h, t, i, e)) && Extends(h, LinkEntry(h, t, i, e))
  {
    hide Size, Index, Trunc, InSpan;
    var b, n, p := LinkEntry(h, t, i, e), h.pool[0], h.place[t];
    LinkTables(cpu, h, t, i, e);
    forall u, j | u in b.tables && 0 <= j < 512
      ensures PlacedEntry(cpu, b, u, j)
    {
      PointerIsNoLeaf(p.level, e);
      if u != n {
        assert PlacedTable(h, u) && PlacedEntry(cpu, h, u, j);
      }
    }
    forall u, v | u in b.tables && v in b.tables
      ensures Linked(b, u, v) && OwnPlace(b, u, v)
    {
      if u != n && v != n {
        assert PlacedTable(h, u) && PlacedTable(h, v) && Linked(h, u, v) && OwnPlace(h, u, v);
      } else if u != n || v != n {
        var w := if u == n then v else u;
        assert PlacedTable(h, w);
        LinkNew(cpu, h, t, i, e, w);
      }
    }
    assert b.tables.Keys == h.tables.Keys + Taken(h.pool, 1);
  }

  lemma LinkTables(cpu: Cpu, h: Heap, t: nat, i: nat, e: Entry)
    requires Placed(cpu, h) && t in h.tables && i < 512
    requires PlacedTable(h, t) && h.place[t].level > 0 && PointerFor(h, e)
    ensures var b := LinkEntry(h, t, i, e);
      && PoolFree(b) && b.tables.Keys == b.place.Keys
      && forall u :: u in b.tables ==> PlacedTable(b, u)
  {
    var b, n, p := LinkEntry(h, t, i, e), h.pool[0], h.place[t];
    var base := p.base + i * Size(p.level);
    SlotOf(p.level, p.base, i, base);
    IndexInSpan(p.level, p.base, base);
    forall u | u in b.tables
      ensures PlacedTable(b, u)
    {
      assert u != n ==> PlacedTable(h, u);
    }
  }

  /* ---- what a store does to the walks ---- */

  /* Away from the slot of the changed entry every walk reads the same entries. */
  lemma WalkElsewhere(cpu: Cpu, a: Heap, b: Heap, t: nat, i: nat, u: nat, k: nat, x: nat)
    requires Placed(cpu, a) && t in a.tables && i < 512 && PlacedTable(a, t)
    requires a.tables.Keys <= b.tables.Keys
    requires forall v, j :: v in a.tables && 0 <= j < 512 && (v != t || j != i) ==> b.tables[v][j] == a.tables[v][j]
    requires u in a.tables && PlacedTable(a, u) && k == a.place[u].level && InSpan(a.place[u], x)
    requires !InSlot(a, t, i, x)
    ensures Walk(cpu, b.tables, u, k, x) == Walk(cpu, a.tables, u, k, x)
    decreases k
  {
    var p, j := a.place[u], Index(k, x);
    IndexInSpan(k, p.base, x);
    assert PlacedEntry(cpu, a, u, j);
    var e := a.tables[u][j];
    if e.Valid() && !IsLeaf(k, e) {
      assert PlacedTable(a, e.Target());
      WalkElsewhere(cpu, a, b, t, i, e.Target(), k - 1, x);
    }
    assert u == t ==> j != i;
  }

  /* Inside the slot, the walk either avoids the changed entry or ends in the new leaf. */
  lemma WalkNewLeaf(cpu: Cpu, a: Heap, t: nat, i: nat, e: Entry, u: nat, k: nat, x: nat)
    requires Placed(cpu, a) && t in a.tables && i < 512 && PlacedTable(a, t)
    requires !a.tables[t][i].Valid() && LeafFor(cpu, a, t, e)
    requires u in a.tables && PlacedTable(a, u) && k == a.place[u].level && InSpan(a.place[u], x)
    ensures var w := Walk(cpu, SetEntry(a, t, i, e).tables, u, k, x);
      w == Walk(cpu, a.tables, u, k, x) || (w == Some(Leaf(a.place[t].level, e)) && InSlot(a, t, i, x))
    decreases k
  {
    var p, j := a.place[u], Index(k, x);
    IndexInSpan(k, p.base, x);
    assert PlacedEntry(cpu, a, u, j);
    if u != t || j != i {
      var d := a.tables[u][j];
      if d.Valid() && !IsLeaf(k, d) {
        assert PlacedTable(a, d.Target());
        WalkNewLeaf(cpu, a, t, i, e, d.Target(), k - 1, x);
      }
    }
  }

  lemma WalkNewLeafWasNone(cpu: Cpu, a: Heap, t: nat, i: nat, e: Entry, u: nat, k: nat, x: nat)
    requires Placed(cpu, a) && t in a.tables && i < 512 && PlacedTable(a, t)
    requires !a.tables[t][i].Valid()
    requires u in a.tables && PlacedTable(a, u) && k == a.place[u].level && InSpan(a.place[u], x)
    requires Walk(cpu, SetEntry(a, t, i, e).tables, u, k, x) != Walk(cpu, a.tables, u, k, x)
    ensures Walk(cpu, a.tables, u, k, x) == None
    decreases k
  {
    var p, j := a.place[u], Index(k, x);
    IndexInSpan(k, p.base, x);
    assert PlacedEntry(cpu, a, u, j);
    if u != t || j != i {
      var d := a.tables[u][j];
      assert PlacedTable(a, d.Target());
      WalkNewLeafWasNone(cpu, a, t, i, e, d.Target(), k - 1, x);
    }
  }

  /* Linking a table of invalid entries changes no walk. */
  lemma WalkNewTable(cpu: Cpu, a: Heap, t: nat, i: nat, e: Entry, u: nat, k: nat, x: nat)
    requires Placed(cpu, a) && t in a.tables && i < 512 && PlacedTable(a, t) && a.place[t].level > 0
    requires !a.tables[t][i].Valid() && PointerFor(a, e)
    requires u in a.tables && PlacedTable(a, u) && k == a.place[u].level && InSpan(a.place[u], x)
    ensures Walk(cpu, LinkEntry(a, t, i, e).tables, u, k, x) == Walk(cpu, a.tables, u, k, x)
    decreases k
  {
    var p, j := a.place[u], Index(k, x);
    var b := LinkEntry(a, t, i, e);
    IndexInSpan(k, p.base, x);
    assert PlacedEntry(cpu, a, u, j);
    if u != t || j != i {
      var d := a.tables[u][j];
      if d.Valid() && !IsLeaf(k, d) {
        assert PlacedTable(a, d.Target());
        WalkNewTable(cpu, a, t, i, e, d.Target(), k - 1, x);
      }
    } else {
      assert Walk(cpu, b.tables, a.pool[0], k - 1, x) == None;
    }
  }

  /* ---- tables that serve their span ---- */

  lemma ReachesStep(cpu: Cpu, tables: map<nat, Table>, t: nat, k: nat, u: nat, l: nat, x: nat)
    requires 0 < l <= k <= 3 && u in tables
    requires Reaches(cpu, tables, t, k, u, l, x)
    requires var e := tables[u][Index(l, x)]; e.Valid() && !e.LargePage()
    ensures Reaches(cpu, tables, t, k, tables[u][Index(l, x)].Target(), l - 1, x)
    decreases k
  {
    if k > l {
      ReachesStep(cpu, tables, tables[t][Index(k, x)].Target(), k - 1, u, l, x);
    }
  }

  lemma ReachesStays(cpu: Cpu, a: Heap, b: Heap, t: nat, k: nat, u: nat, l: nat, x: nat)
    requires k <= 3 && Extends(a, b) && u in a.tables && Reaches(cpu, a.tables, t, k, u, l, x)
    ensures Reaches(cpu, b.tables, t, k, u, l, x)
    decreases k
  {
    if k > l {
      assert KeepsTable(a, b, t);
      ReachesStays(cpu, a, b, a.tables[t][Index(k, x)].Target(), k - 1, u, l, x);
    }
  }

  lemma WalkThrough(cpu: Cpu, tables: map<nat, Table>, t: nat, k: nat, u: nat, l: nat, x: nat)
    requires k <= 3 && l <= k && Reaches(cpu, tables, t, k, u, l, x)
    ensures Walk(cpu, tables, t, k, x) == Walk(cpu, tables, u, l, x)
    decreases k
  {
    if k > l {
      WalkThrough(cpu, tables, tables[t][Index(k, x)].Target(), k - 1, u, l, x);
    }
  }

  lemma WalkLevel(cpu: Cpu, tables: map<nat, Table>, t: nat, k: nat, x: nat)
    requires k <= 3 && Walk(cpu, tables, t, k, x).Some?
    ensures Walk(cpu, tables, t, k, x).value.level <= k
    decreases k
  {
    var e := tables[t][Index(k, x)];
    if k > 0 && !e.LargePage() {
      WalkLevel(cpu, tables, e.Target(), k - 1, x);
    }
  }

  /* ---- the effect of a mapping run ---- */

  /** A leaf made by a run that maps `[la, upto)` to physical addresses from `pa` on: it lies inside
      the range, translates `x` with the offset of the run, and holds the frame, the flags asked for, the
      large-page bit if it needs one, and nothing else. */
  ghost predicate FreshLeaf(leaf: Leaf, x: nat, la: nat, pa: nat, upto: nat, bits: bv12) {
    && leaf.level <= 3
    && la <= Trunc(leaf.level, x) && Trunc(leaf.level, x) + Size(leaf.level) <= upto
    && x >= la && Translate(leaf, x) == pa + (x - la)
    && leaf.entry.frame * 0x1000 == pa + (Trunc(leaf.level, x) - la)
    && leaf.entry.flags == 0x001 | bits | (if leaf.level == 1 || leaf.level == 2 then 0x080 else 0)
    && leaf.entry.high == 0
  }

  /** Entry `i` of table `t` is what it was, and zero in a new table; or a run with these mapping bits has
      written a leaf or the link to a new table, with no bit set but these, the valid bit, and the large-page
      bit of a large leaf. */
  ghost predicate WrittenEntry(a: Heap, b: Heap, bits: bv12, t: nat, i: nat)
    requires t in b.tables && t in b.place && i < 512
  {
    var was := if t in a.tables then a.tables[t][i] else Entry(0, 0, 0);
    var now := b.tables[t][i];
    now == was
    || (was.flags & 0x001 == 0 && now.high == 0
      && if b.place[t].level == 0 then now.flags == 0x001 | bits
        else if now.flags & 0x080 == 0 then
          now.flags == 0x001 | bits && now.frame * 0x1000 in b.tables && now.frame * 0x1000 !in a.tables
        else now.flags == 0x081 | bits && b.place[t].level <= 2)
  }

  ghost predicate Written(a: Heap, b: Heap, bits: bv12) {
    && b.tables.Keys <= b.place.Keys
    && forall t, i {:trigger WrittenEntry(a, b, bits, t, i)} ::
      t in b.tables && 0 <= i < 512 ==> WrittenEntry(a, b, bits, t, i)
  }

  lemma WrittenSame(h: Heap, bits: bv12)
    requires h.tables.Keys <= h.place.Keys
    ensures Written(h, h, bits)
  {
  }

  lemma WrittenTransitive(a: Heap, b: Heap, c: Heap, bits: bv12)
    requires Extends(a, b) && Extends(b, c) && Written(a, b, bits) && Written(b, c, bits)
    ensures Written(a, c, bits)
  {
    hide Extends;
    forall t, i | t in c.tables && 0 <= i < 512
      ensures WrittenEntry(a, c, bits, t, i)
    {
      assert WrittenEntry(b, c, bits, t, i);
      assert t in b.tables ==> WrittenEntry(a, b, bits, t, i);
      WrittenTwice(a, b, c, bits, t, i);
    }
  }

  lemma WrittenTwice(a: Heap, b: Heap, c: Heap, bits: bv12, t: nat, i: nat)
    requires Extends(a, b) && Extends(b, c) && t in c.tables && t in c.place && i < 512
    requires t in b.tables ==> t in b.place && WrittenEntry(a, b, bits, t, i)
    requires WrittenEntry(b, c, bits, t, i)
    ensures WrittenEntry(a, c, bits, t, i)
  {
    TablesKept(a, b, c, t);
    TablesKept(a, b, c, c.tables[t][i].frame * 0x1000);
    if t in b.tables {
      StillValid(bits, b.tables[t][i].flags);
      TablesKept(a, b, c, b.tables[t][i].frame * 0x1000);
      assert KeepsTable(b, c, t);
    }
    hide Extends;
  }

  lemma StillValid(bits: bv12, flags: bv12)
    ensures flags == 0x001 | bits || flags == 0x081 | bits ==> flags & 0x001 != 0 && flags & VALID != 0
  {
  }

  lemma TablesKept(a: Heap, b: Heap, c: Heap, t: nat)
    requires Extends(a, b) && Extends(b, c)
    ensures t in a.tables ==> t in b.tables
    ensures t in b.tables ==> t in c.tables
  {
    assert t in a.tables ==> KeepsTable(a, b, t);
    assert t in b.tables ==> KeepsTable(b, c, t);
  }

  /* A leaf is written. */
  lemma WrittenLeaf(h: Heap, t: nat, i: nat, pa: nat, bits: bv12)
    requires h.tables.Keys <= h.place.Keys && t in h.tables && t in h.place && i < 512 && h.place[t].level <= 2
    requires !h.tables[t][i].Valid() && pa < PA_LIMIT && bits & PS == 0
    ensures Written(h, SetEntry(h, t, i, LeafEntry(h.place[t].level, pa, bits)), bits)
  {
    var l, b := h.place[t].level, SetEntry(h, t, i, LeafEntry(h.place[t].level, pa, bits));
    LargeBits(bits);
    forall u, j | u in b.tables && 0 <= j < 512
      ensures WrittenEntry(h, b, bits, u, j)
    {
    }
  }

  lemma LargeBits(bits: bv12)
    requires bits & 0x080 == 0
    ensures (0x001 | bits | 0x080) == 0x081 | bits
    ensures (0x081 | bits) & 0x080 != 0 && (0x001 | bits) & 0x080 == 0
    ensures (0x001 | bits | 0) == 0x001 | bits
  {
  }

  /* A table is linked. */
  lemma WrittenLink(h: Heap, t: nat, i: nat, e: Entry, bits: bv12)
    requires h.tables.Keys <= h.place.Keys && t in h.tables && t in h.place && i < 512 && 0 < h.place[t].level <= 3
    requires !h.tables[t][i].Valid() && |h.pool| > 0 && h.pool[0] !in h.tables && bits & PS == 0
    requires e == Entry(e.frame, VALID | bits, 0) && e.Target() == h.pool[0]
    ensures Written(h, LinkEntry(h, t, i, e), bits)
  {
    var b := LinkEntry(h, t, i, e);
    LargeBits(bits);
    forall u, j | u in b.tables && 0 <= j < 512
      ensures WrittenEntry(h, b, bits, u, j)
    {
    }
  }

  ghost predicate EffectAt(cpu: Cpu, a: Heap, b: Heap, root: nat, la: nat, pa: nat, upto: nat, bits: bv12, x: nat) {
    var was, now := LeafAt(cpu, a, root, x), LeafAt(cpu, b, root, x);
    if was.Some? || x < la || upto <= x then now == was
    else now.Some? && FreshLeaf(now.value, x, la, pa, upto, bits)
  }

  /** What `ptab_map_range` promises: inside `[la, upto)` the addresses that were unmapped now
      translate with the offset of the run, and every other translation is what it was. */
  ghost predicate Effect(cpu: Cpu, a: Heap, b: Heap, root: nat, la: nat, pa: nat, upto: nat, bits: bv12) {
    forall x {:trigger EffectAt(cpu, a, b, root, la, pa, upto, bits, x)} :: 0 <= x < LA_LIMIT ==>
      EffectAt(cpu, a, b, root, la, pa, upto, bits, x)
  }

  ghost predicate AboveAt(cpu: Cpu, a: Heap, b: Heap, root: nat, pa: nat, x: nat) {
    var was, now := LeafAt(cpu, a, root, x), LeafAt(cpu, b, root, x);
    now == was || (was == None && now.value.level <= 3 && Translate(now.value, x) >= pa)
  }

  /** Existing translations stay, and new ones go to `pa` or above. */
  ghost predicate Above(cpu: Cpu, a: Heap, b: Heap, root: nat, pa: nat) {
    forall x {:trigger AboveAt(cpu, a, b, root, pa, x)} :: 0 <= x < LA_LIMIT ==> AboveAt(cpu, a, b, root, pa, x)
  }

  ghost predicate AllMapped(cpu: Cpu, h: Heap, root: nat, la: nat, upto: nat) {
    forall x :: la <= x < upto && x < LA_LIMIT ==> LeafAt(cpu, h, root, x).Some?
  }

  /** The condition on the first address of a run: an existing leaf that holds it starts there, or
      holds the whole range. */
  ghost predicate StartsClean(cpu: Cpu, h: Heap, root: nat, la: nat, upto: nat) {
    match LeafAt(cpu, h, root, la)
    case None => true
    case Some(leaf) =>
      leaf.level <= 3 && (la % Size(leaf.level) == 0 || upto <= Trunc(leaf.level, la) + Size(leaf.level))
  }

  lemma EffectTransitive(cpu: Cpu, a: Heap, b: Heap, c: Heap, root: nat, la: nat, pa: nat, mid: nat, upto: nat,
      bits: bv12)
    requires la <= mid <= upto
    requires Effect(cpu, a, b, root, la, pa, mid, bits)
    requires Effect(cpu, b, c, root, mid, pa + (mid - la), upto, bits)
    ensures Effect(cpu, a, c, root, la, pa, upto, bits)
  {
    forall x: nat | x < LA_LIMIT
      ensures EffectAt(cpu, a, c, root, la, pa, upto, bits, x)
    {
      assert EffectAt(cpu, a, b, root, la, pa, mid, bits, x);
      assert EffectAt(cpu, b, c, root, mid, pa + (mid - la), upto, bits, x);
    }
  }

  lemma AboveTransitive(cpu: Cpu, a: Heap, b: Heap, c: Heap, root: nat, pa: nat, pb: nat)
    requires pa <= pb && Above(cpu, a, b, root, pa) && Above(cpu, b, c, root, pb)
    ensures Above(cpu, a, c, root, pa)
  {
    forall x: nat | x < LA_LIMIT
      ensures AboveAt(cpu, a, c, root, pa, x)
    {
      assert AboveAt(cpu, a, b, root, pa, x) && AboveAt(cpu, b, c, root, pb, x);
    }
  }

  /* Nothing happens over a stretch that is already mapped. */
  lemma EffectNone(cpu: Cpu, h: Heap, root: nat, la: nat, pa: nat, upto: nat, bits: bv12)
    requires AllMapped(cpu, h, root, la, upto)
    ensures Effect(cpu, h, h, root, la, pa, upto, bits)
  {
    forall x: nat | x < LA_LIMIT
      ensures EffectAt(cpu, h, h, root, la, pa, upto, bits, x)
    {
    }
  }

  /** A valid leaf entry of a serving table translates its whole slot. */
  lemma LeafServes(cpu: Cpu, h: Heap, root: nat, t: nat, i: nat)
    requires Placed(cpu, h) && t in h.tables && i < 512 && PlacedTable(h, t) && Serves(cpu, h, root, t)
    requires h.tables[t][i].Valid() && IsLeaf(h.place[t].level, h.tables[t][i])
    ensures forall x :: InSlot(h, t, i, x) ==> LeafAt(cpu, h, root, x) == Some(Leaf(h.place[t].level, h.tables[t][i]))
  {
    var p := h.place[t];
    assert PlacedEntry(cpu, h, t, i);
    forall x | InSlot(h, t, i, x)
      ensures LeafAt(cpu, h, root, x) == Some(Leaf(p.level, h.tables[t][i]))
    {
      SlotOf(p.level, p.base, i, x);
      WalkThrough(cpu, h.tables, root, 3, t, p.level, x);
    }
  }

  lemma ServesStays(cpu: Cpu, a: Heap, b: Heap, root: nat, t: nat)
    requires Extends(a, b) && t in a.tables && a.place[t].level <= 3 && Serves(cpu, a, root, t)
    ensures KeepsTable(a, b, t) && Serves(cpu, b, root, t)
  {
    assert KeepsTable(a, b, t);
    forall x | InSpan(a.place[t], x)
      ensures Reaches(cpu, b.tables, root, 3, t, a.place[t].level, x)
    {
      ReachesStays(cpu, a, b, root, 3, t, a.place[t].level, x);
    }
  }

  /** The table a valid pointer entry of a serving table leads to serves the slot. */
  lemma ServesBelow(cpu: Cpu, h: Heap, root: nat, t: nat, i: nat)
    requires Placed(cpu, h) && t in h.tables && i < 512 && PlacedTable(h, t) && Serves(cpu, h, root, t)
    requires h.tables[t][i].Valid() && !IsLeaf(h.place[t].level, h.tables[t][i])
    ensures var n := h.tables[t][i].Target();
      n in h.tables && PlacedTable(h, n) && h.place[n].level + 1 == h.place[t].level && Serves(cpu, h, root, n)
  {
    var p, n := h.place[t], h.tables[t][i].Target();
    assert PlacedEntry(cpu, h, t, i) && PlacedTable(h, n);
    SizeStep(p.level - 1);
    forall x | InSpan(h.place[n], x)
      ensures Reaches(cpu, h.tables, root, 3, n, p.level - 1, x)
    {
      SlotOf(p.level, p.base, i, x);
      ReachesStep(cpu, h.tables, root, 3, t, p.level, x);
    }
  }

  /** The entry `ptab_map_level` writes for a leaf page. */
  function LeafEntry(level: nat, pa: nat, bits: bv12): Entry
    requires pa < PA_LIMIT
  {
    Entry(pa / 0x1000, VALID | bits | LeafBit(level), 0)
  }

  lemma LeafEntryFits(cpu: Cpu, h: Heap, t: nat, pa: nat, bits: bv12)
    requires t in h.place && h.place[t].level <= 3
    requires AllowLeaf(cpu, h.place[t].level) && pa < PA_LIMIT && pa % Size(h.place[t].level) == 0
    ensures LeafFor(cpu, h, t, LeafEntry(h.place[t].level, pa, bits))
    ensures LeafEntry(h.place[t].level, pa, bits).Target() == pa
  {
    var l := h.place[t].level;
    SizeDivides(0, l, pa);
    assert (VALID | bits | LeafBit(l)) & VALID == VALID;
    assert (VALID | bits | LeafBit(l)) & LeafBit(l) == LeafBit(l);
    assert 1 <= l <= 2 ==> LeafBit(l) != 0;
  }

  /** Writing a leaf adds translations to `pa` and above only, whether or not the table is in use. */
  lemma AboveLeaf(cpu: Cpu, h: Heap, root: nat, t: nat, i: nat, pa: nat, bits: bv12)
    requires Placed(cpu, h) && IsRoot(h, root) && t in h.tables && i < 512 && PlacedTable(h, t)
    requires !h.tables[t][i].Valid() && AllowLeaf(cpu, h.place[t].level)
    requires pa < PA_LIMIT && pa % Size(h.place[t].level) == 0
    ensures Above(cpu, h, SetEntry(h, t, i, LeafEntry(h.place[t].level, pa, bits)), root, pa)
  {
    var l := h.place[t].level;
    var e := LeafEntry(l, pa, bits);
    var b := SetEntry(h, t, i, e);
    LeafEntryFits(cpu, h, t, pa, bits);
    assert PlacedTable(h, root);
    forall x: nat | x < LA_LIMIT
      ensures AboveAt(cpu, h, b, root, pa, x)
    {
      WalkNewLeaf(cpu, h, t, i, e, root, 3, x);
      if LeafAt(cpu, b, root, x) != LeafAt(cpu, h, root, x) {
        WalkNewLeafWasNone(cpu, h, t, i, e, root, 3, x);
      }
    }
  }

  lemma LeafIsFresh(l: nat, x: nat, la: nat, pa: nat, upto: nat, bits: bv12)
    requires l <= 3 && pa < PA_LIMIT && pa % Size(l) == 0 && la == Trunc(l, x) && upto == la + Size(l)
    ensures FreshLeaf(Leaf(l, LeafEntry(l, pa, bits)), x, la, pa, upto, bits)
  {
    SizeDivides(0, l, pa);
  }

  /** Writing a leaf in a table that serves its span maps exactly the slot. */
  lemma EffectLeaf(cpu: Cpu, h: Heap, root: nat, t: nat, i: nat, la: nat, pa: nat, upto: nat, bits: bv12)
    requires Placed(cpu, h) && IsRoot(h, root) && t in h.tables && i < 512 && PlacedTable(h, t)
    requires !h.tables[t][i].Valid() && AllowLeaf(cpu, h.place[t].level)
    requires pa < PA_LIMIT && pa % Size(h.place[t].level) == 0
    requires Serves(cpu, h, root, t)
    requires la == h.place[t].base + i * Size(h.place[t].level) && upto == la + Size(h.place[t].level)
    ensures Effect(cpu, h, SetEntry(h, t, i, LeafEntry(h.place[t].level, pa, bits)), root, la, pa, upto, bits)
  {
    var l := h.place[t].level;
    var e := LeafEntry(l, pa, bits);
    var b := SetEntry(h, t, i, e);
    LeafEntryFits(cpu, h, t, pa, bits);
    SetLeafPlaced(cpu, h, t, i, e);
    ServesStays(cpu, h, b, root, t);
    assert PlacedTable(b, t);
    LeafServes(cpu, b, root, t, i);
    forall x: nat | x < LA_LIMIT
      ensures EffectAt(cpu, h, b, root, la, pa, upto, bits, x)
    {
      if InSlot(h, t, i, x) {
        SlotOf(l, h.place[t].base, i, x);
        WalkThrough(cpu, h.tables, root, 3, t, l, x);
        assert LeafAt(cpu, b, root, x) == Some(Leaf(l, e));
        LeafIsFresh(l, x, la, pa, upto, bits);
      } else {
        WalkUnchanged(cpu, h, b, root, t, i, x);
      }
    }
  }

  lemma WalkUnchanged(cpu: Cpu, a: Heap, b: Heap, root: nat, t: nat, i: nat, x: nat)
    requires Placed(cpu, a) && IsRoot(a, root) && t in a.tables && i < 512 && PlacedTable(a, t)
    requires a.tables.Keys <= b.tables.Keys && x < LA_LIMIT
    requires forall v, j :: v in a.tables && 0 <= j < 512 && (v != t || j != i) ==> b.tables[v][j] == a.tables[v][j]
    ensures InSlot(a, t, i, x) || LeafAt(cpu, b, root, x) == LeafAt(cpu, a, root, x)
  {
    assert PlacedTable(a, root);
    if !InSlot(a, t, i, x) {
      WalkElsewhere(cpu, a, b, t, i, root, 3, x);
    }
  }

  /** Linking an empty table maps nothing. */
  lemma EffectLink(cpu: Cpu, h: Heap, root: nat, t: nat, i: nat, e: Entry)
    requires Placed(cpu, h) && IsRoot(h, root) && t in h.tables && i < 512 && PlacedTable(h, t)
    requires h.place[t].level > 0 && !h.tables[t][i].Valid() && PointerFor(h, e)
    ensures forall x :: 0 <= x < LA_LIMIT ==> LeafAt(cpu, LinkEntry(h, t, i, e), root, x) == LeafAt(cpu, h, root, x)
  {
    assert PlacedTable(h, root);
    forall x: nat | x < LA_LIMIT
      ensures LeafAt(cpu, LinkEntry(h, t, i, e), root, x) == LeafAt(cpu, h, root, x)
    {
      WalkNewTable(cpu, h, t, i, e, root, 3, x);
    }
  }
}
