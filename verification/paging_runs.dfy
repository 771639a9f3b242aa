/** Where a run of the page-table builder goes when it does not start on the boundary of an existing leaf
    (server/src/ARCH-amd64/paging.c). The walk adds the whole size of every leaf that exists, so it can pass over
    addresses, and it can leave the span of the table that it goes on writing to. */
module PagingRuns {
  import opened Options
  import opened Arithmetic
  import opened PageTables
  import opened PageEffects
  import opened PagingSteps

  /* ---- the address that an entry really is for ---- */

  /** In the table `t` the linear address `la` selects the entry for this address of its span. */
  ghost function Real(h: Heap, t: nat, la: nat): nat
    requires t in h.place && h.place[t].level <= 3
  {
    h.place[t].base + la % Size(h.place[t].level + 1)
  }

  lemma RealFacts(h: Heap, t: nat, level: nat, la: nat)
    requires TableAt(h, t, level)
    ensures InSpan(h.place[t], Real(h, t, la)) && Real(h, t, la) < LA_LIMIT
    ensures InSpan(h.place[t], la) ==> Real(h, t, la) == la
    ensures Index(level, Real(h, t, la)) == Index(level, la)
    ensures Real(h, t, la) % Size(level) == la % Size(level)
    ensures Trunc(level + 1, Real(h, t, la)) == h.place[t].base
  {
    var s, big, base := Size(level), Size(level + 1), h.place[t].base;
    var r, other := la % big, la - la % big;
    MultipleBelow(la, big);
    IndexInSpan(level, other, la);
    IndexInSpan(level, base, base + r);
    SizeStep(level);
    SlotOfRest(level, base, r);
    SlotOfRest(level, other, r);
    if InSpan(h.place[t], la) {
      IndexInSpan(level, base, la);
      TruncIs(level + 1, la);
    }
    TruncIs(level, la);
    TruncIs(level, base + r);
  }

  lemma TruncIs(level: nat, x: nat)
    requires level <= 4
    ensures Trunc(level, x) == x - x % Size(level)
  {
  }

  lemma SlotOfRest(level: nat, base: nat, r: nat)
    requires level <= 3 && base % Size(level + 1) == 0 && r < Size(level + 1)
    ensures Index(level, base + r) == r / Size(level)
  {
    var s, i := Size(level), r / Size(level);
    SizeStep(level);
    assert i * s <= r < i * s + s;
    if i >= 512 { MulMonotone(512, i, s); }
    SlotOf(level, base, i, base + r);
  }

  /** Where a run that stands at `v` in a table at `level` goes on with the linear address `la`: in that table,
      or, if `la` is the end of a table, in one further up. */
  ghost function Next(level: nat, v: nat, la: nat): nat
    requires level <= 3
    decreases 3 - level
  {
    if level == 3 || la % Size(level + 1) != 0 then Trunc(level + 1, v) + la % Size(level + 1)
    else Next(level + 1, v, la)
  }

  lemma NextSame(level: nat, v: nat, w: nat, la: nat)
    requires level <= 3 && Trunc(level + 1, v) == Trunc(level + 1, w)
    ensures Next(level, v, la) == Next(level, w, la)
    decreases 3 - level
  {
    hide Trunc, Size;
    if level < 3 {
      TruncUp(level + 1, v);
      TruncUp(level + 1, w);
      NextSame(level + 1, v, w, la);
    }
  }

  /* Truncating in two steps. */
  lemma TruncUp(level: nat, v: nat)
    requires level <= 3
    ensures Trunc(level + 1, v) == Trunc(level + 1, Trunc(level, v))
  {
    var s, big := Size(level), Size(level + 1);
    SizeStep(level);
    var q, b := v / big, v / s;
    TruncIs(level, v);
    TruncIs(level + 1, v);
    var m := q * big;
    assert m == (q * 512) * s;
    DivModUnique(m, s, q * 512, 0);
    DivAtLeast(v, q * 512, s);
    MulMonotone(q * 512, b, s);
    DivModUnique(b * s, big, q, b * s - m);
  }

  lemma NextBound(level: nat, v: nat, la: nat)
    requires level <= 3 && v < LA_LIMIT
    ensures Next(level, v, la) < LA_LIMIT
    decreases 3 - level
  {
    if level == 3 || la % Size(level + 1) != 0 {
      var big := Size(level + 1);
      SizeDividesLimit(level + 1);
      TruncIs(level + 1, v);
      MultipleBelow(v, big);
      MultipleFits(Trunc(level + 1, v), big);
    } else {
      NextBound(level + 1, v, la);
    }
  }

  lemma SizeDividesLimit(level: nat)
    requires level <= 4
    ensures LA_LIMIT % Size(level) == 0
  {
  }

  lemma MultipleFits(x: nat, s: nat)
    requires s > 0 && x % s == 0 && x < LA_LIMIT && LA_LIMIT % s == 0
    ensures x + s <= LA_LIMIT
  {
    NoMultipleBetween(x, LA_LIMIT, s);
  }

  lemma NextHere(h: Heap, level: nat, t: nat, v: nat, la: nat)
    requires TableAt(h, t, level) && InSpan(h.place[t], v)
    requires la % Size(level + 1) != 0 || level == 3
    ensures Next(level, v, la) == Real(h, t, la)
  {
    IndexInSpan(level, h.place[t].base, v);
  }

  /* ---- where a run begins to map ---- */

  /** A run lands at a place from where it does what was asked for, or it spills the translation of `la` into
      another address `v`, or it passes over the whole range. */
  datatype Landing = Clean(at: nat) | Spill(la: nat, v: nat) | Through

  /** Follow the existing leaves from the linear address `la`, standing at `v`. */
  ghost function Land(cpu: Cpu, h: Heap, root: nat, la: nat, v: nat, end: nat): Landing
    decreases end - la
  {
    if la >= end then Through
    else
      match LeafAt(cpu, h, root, v)
      case None => if v == la then Clean(la) else Spill(la, v)
      case Some(leaf) =>
        WalkLevel(cpu, h.tables, root, 3, v);
        if v == la && StartsClean(cpu, h, root, la, end) then Clean(la)
        else
          var next := la + Size(leaf.level);
          Land(cpu, h, root, next, Next(leaf.level, v, next), end)
  }

  /** The linear address from which on something can be mapped. */
  function LandsAt(l: Landing, end: nat): nat {
    match l
    case Clean(m) => m
    case Spill(la, _) => la
    case Through => end
  }

  lemma {:induction false} LandFacts(cpu: Cpu, h: Heap, root: nat, la: nat, v: nat, end: nat)
    requires la <= end <= LA_LIMIT && v < LA_LIMIT
    ensures var l := Land(cpu, h, root, la, v, end);
      && la <= LandsAt(l, end) <= end
      && (l.Clean? ==> l.at < end && StartsClean(cpu, h, root, l.at, end))
      && (l.Spill? ==> l.la < end && l.v != l.la && l.v < LA_LIMIT && LeafAt(cpu, h, root, l.v) == None)
    decreases end - la
  {
    hide StartsClean, LeafAt, Next, Size;
    if la < end && LeafAt(cpu, h, root, v).Some? && !(v == la && StartsClean(cpu, h, root, la, end)) {
      var level := LeafAt(cpu, h, root, v).value.level;
      LeafLevel(cpu, h, root, v);
      var next := la + Size(level);
      NextBound(level, v, next);
      assert Land(cpu, h, root, la, v, end) == Land(cpu, h, root, next, Next(level, v, next), end);
      if next <= end {
        LandFacts(cpu, h, root, next, Next(level, v, next), end);
      }
    } else if la < end && LeafAt(cpu, h, root, v) == None && v == la {
      CleanWhenUnmapped(cpu, h, root, la, end);
    }
  }

  lemma LeafLevel(cpu: Cpu, h: Heap, root: nat, x: nat)
    ensures LeafAt(cpu, h, root, x).Some? ==> LeafAt(cpu, h, root, x).value.level <= 3
  {
    if LeafAt(cpu, h, root, x).Some? {
      WalkLevel(cpu, h.tables, root, 3, x);
    }
  }

  lemma CleanWhenUnmapped(cpu: Cpu, h: Heap, root: nat, la: nat, end: nat)
    requires LeafAt(cpu, h, root, la) == None
    ensures StartsClean(cpu, h, root, la, end)
  {
  }

  /** No translation has changed. */
  ghost predicate Same(cpu: Cpu, a: Heap, b: Heap, root: nat) {
    forall x :: 0 <= x < LA_LIMIT ==> LeafAt(cpu, b, root, x) == LeafAt(cpu, a, root, x)
  }

  lemma {:induction false} LandSame(cpu: Cpu, a: Heap, b: Heap, root: nat, la: nat, v: nat, end: nat)
    requires Same(cpu, a, b, root) && end <= LA_LIMIT && v < LA_LIMIT
    ensures Land(cpu, b, root, la, v, end) == Land(cpu, a, root, la, v, end)
    decreases end - la
  {
    hide LeafAt, Next, Size;
    if la < end && LeafAt(cpu, a, root, v).Some? && !(v == la && StartsClean(cpu, a, root, la, end)) {
      var level := LeafAt(cpu, a, root, v).value.level;
      LeafLevel(cpu, a, root, v);
      var next := la + Size(level);
      NextBound(level, v, next);
      LandSame(cpu, a, b, root, next, Next(level, v, next), end);
    }
  }

  /* ---- what a part of a run does ---- */

  /** After the run from `c` to `d` in the table `t`: as long as it has not landed, nothing has changed and it
      still lands in the same place; and then what was asked for has been mapped from that place on, or one
      address has received the translation of another. Anything new is for addresses from the landing on. */
  ghost predicate Follows(cpu: Cpu, a: Heap, b: Heap, root: nat, level: nat, t: nat, c: Cursor, d: Cursor, bits: bv12,
      ok: bool)
    requires TableAt(a, t, level) && TableAt(b, t, level)
  {
    var v := Real(a, t, c.la);
    var l := Land(cpu, a, root, c.la, v, c.End());
    && c.la <= LandsAt(l, c.End())
    && Above(cpu, a, b, root, c.pa + (LandsAt(l, c.End()) - c.la))
    && if Pending(l, d) then
        Same(cpu, a, b, root) && (ok && d.size > 0 ==> Land(cpu, b, root, d.la, Next(level, v, d.la), c.End()) == l)
      else Landed(cpu, a, b, root, level, t, c, d, l, bits, ok)
  }

  /** The run has not landed at `d`. */
  predicate Pending(l: Landing, d: Cursor) {
    l.Through? || (d.size > 0 && d.la <= LandsAt(l, d.End()))
  }

  ghost predicate Landed(cpu: Cpu, a: Heap, b: Heap, root: nat, level: nat, t: nat, c: Cursor, d: Cursor, l: Landing,
      bits: bv12, ok: bool)
    requires TableAt(b, t, level)
  {
    match l
    case Through => false
    case Clean(m) =>
      && c.la <= m && Effect(cpu, a, b, root, m, c.pa + (m - c.la), Min(d.la, c.End()), bits)
      && (ok && d.size > 0 ==> NextRegular(cpu, b, root, level, t, d))
    case Spill(la, w) => c.la <= la && w < LA_LIMIT && Spilled(cpu, b, root, w, c.pa + (la - c.la))
  }

  /** Address `w` translates to `pa`. */
  ghost predicate Spilled(cpu: Cpu, h: Heap, root: nat, w: nat, pa: nat) {
    match LeafAt(cpu, h, root, w)
    case None => false
    case Some(leaf) => leaf.level <= 3 && Translate(leaf, w) == pa
  }

  lemma SameEffect(cpu: Cpu, a: Heap, b: Heap, root: nat, la: nat, pa: nat, upto: nat, bits: bv12)
    requires Same(cpu, a, b, root) && upto <= la
    ensures Effect(cpu, a, b, root, la, pa, upto, bits)
  {
    forall x: nat | x < LA_LIMIT
      ensures EffectAt(cpu, a, b, root, la, pa, upto, bits, x)
    {
    }
  }

  lemma SameAbove(cpu: Cpu, a: Heap, b: Heap, root: nat, pa: nat)
    requires Same(cpu, a, b, root)
    ensures Above(cpu, a, b, root, pa)
  {
    forall x: nat | x < LA_LIMIT
      ensures AboveAt(cpu, a, b, root, pa, x)
    {
    }
  }

  lemma SameRefl(cpu: Cpu, h: Heap, root: nat)
    ensures Same(cpu, h, h, root)
  {
  }

  /* ---- the branches of one round ---- */

  /** A run that does not get anywhere. */
  lemma FollowsNothing(cpu: Cpu, h: Heap, root: nat, level: nat, t: nat, c: Cursor, bits: bv12)
    requires TableAt(h, t, level) && c.size > 0 && c.End() <= LA_LIMIT
    ensures Follows(cpu, h, h, root, level, t, c, c, bits, false)
  {
    hide LeafAt, Above;
    var v := Real(h, t, c.la);
    RealFacts(h, t, level, c.la);
    LandFacts(cpu, h, root, c.la, v, c.End());
    SameRefl(cpu, h, root);
    SameAbove(cpu, h, h, root, c.pa + (LandsAt(Land(cpu, h, root, c.la, v, c.End()), c.End()) - c.la));
  }

  /** A leaf is written. */
  lemma FollowsLeaf(cpu: Cpu, h: Heap, root: nat, level: nat, t: nat, c: Cursor, d: Cursor, bits: bv12)
    requires ValidHeap(cpu, h, root) && TableAt(h, t, level) && Serves(cpu, h, root, t) && GoodCursor(c)
    requires c.End() <= LA_LIMIT
    requires !h.tables[t][Index(level, c.la)].Valid() && AllowLeaf(cpu, level)
    requires c.la % Size(level) == 0 && c.pa % Size(level) == 0 && Size(level) <= c.size
    requires d == Cursor(c.la + Size(level), c.pa + Size(level), c.size - Size(level))
    ensures var b := SetEntry(h, t, Index(level, c.la), LeafEntry(level, c.pa, bits));
      TableAt(b, t, level) && Follows(cpu, h, b, root, level, t, c, d, bits, true)
  {
    hide Index, Trunc, Size, InSpan, StartsClean, Serves, Placed, Extends, Above, Effect;
    var v, b := Real(h, t, c.la), SetEntry(h, t, Index(level, c.la), LeafEntry(level, c.pa, bits));
    RealFacts(h, t, level, c.la);
    StepLeaf(cpu, h, root, level, t, c, bits);
    TableStays(cpu, h, b, level, t);
    ServesStays(cpu, h, b, root, t);
    EntryFor(cpu, h, root, level, t, v);
    EntryFor(cpu, b, root, level, t, v);
    LeafIsOne(cpu, h, level, t, c.pa, bits);
    SizePositive(level);
    if v == c.la {
      StepLeafEffect(cpu, h, root, level, t, c.la, c.pa, bits);
      SlotRegular(cpu, b, root, level, t, c.la, d);
    } else {
      TranslateLeaf(level, v, c.pa, bits);
    }
  }

  lemma SizePositive(level: nat)
    requires level <= 4
    ensures Size(level) > 0
  {
  }

  lemma LeafIsOne(cpu: Cpu, h: Heap, level: nat, t: nat, pa: nat, bits: bv12)
    requires TableAt(h, t, level) && pa < PA_LIMIT && pa % Size(level) == 0 && AllowLeaf(cpu, level)
    ensures LeafEntry(level, pa, bits).Valid() && IsLeaf(level, LeafEntry(level, pa, bits))
  {
    LeafEntryFits(cpu, h, t, pa, bits);
  }

  lemma TranslateLeaf(level: nat, v: nat, pa: nat, bits: bv12)
    requires level <= 3 && v % Size(level) == 0 && pa < PA_LIMIT && pa % Size(level) == 0
    ensures Translate(Leaf(level, LeafEntry(level, pa, bits)), v) == pa
  {
    SizeDivides(0, level, pa);
    SlotAligned(level, pa);
  }

  /** The entry of a serving table decides about the walk. */
  lemma EntryFor(cpu: Cpu, h: Heap, root: nat, level: nat, t: nat, v: nat)
    requires Placed(cpu, h) && TableAt(h, t, level) && Serves(cpu, h, root, t) && InSpan(h.place[t], v)
    ensures var e := h.tables[t][Index(level, v)];
      && (!e.Valid() ==> LeafAt(cpu, h, root, v) == None)
      && (e.Valid() && IsLeaf(level, e) ==> LeafAt(cpu, h, root, v) == Some(Leaf(level, e)))
  {
    WalkThrough(cpu, h.tables, root, 3, t, level, v);
    var i := Index(level, v);
    assert PlacedEntry(cpu, h, t, i);
    if h.tables[t][i].Valid() && IsLeaf(level, h.tables[t][i]) {
      LeafServes(cpu, h, root, t, i);
      IndexInSpan(level, h.place[t].base, v);
    }
  }

  /** An existing leaf is passed over. */
  lemma FollowsExisting(cpu: Cpu, h: Heap, root: nat, level: nat, t: nat, c: Cursor, d: Cursor, bits: bv12)
    requires ValidHeap(cpu, h, root) && TableAt(h, t, level) && Serves(cpu, h, root, t) && c.size > 0
    requires c.End() <= LA_LIMIT
    requires var e := h.tables[t][Index(level, c.la)]; e.Valid() && IsLeaf(level, e)
    requires d.la == c.la + Size(level) && d.pa == c.pa + Size(level)
    requires d.size == c.size - if Size(level) <= c.size then Size(level) else c.size
    ensures Follows(cpu, h, h, root, level, t, c, d, bits, true)
  {
    hide Index, Size, InSpan, Serves, Placed, Extends, Above, Effect, LeafAt;
    var v := Real(h, t, c.la);
    var l := Land(cpu, h, root, c.la, v, c.End());
    RealFacts(h, t, level, c.la);
    EntryFor(cpu, h, root, level, t, v);
    LandFacts(cpu, h, root, c.la, v, c.End());
    SameRefl(cpu, h, root);
    SameAbove(cpu, h, h, root, c.pa + (LandsAt(l, c.End()) - c.la));
    SizePositive(level);
    if v == c.la && StartsClean(cpu, h, root, c.la, c.End()) {
      StepExisting(cpu, h, root, level, t, c, d, bits);
    } else {
      LeafLevel(cpu, h, root, v);
      NextBound(level, v, d.la);
      if d.la <= c.End() {
        LandFacts(cpu, h, root, d.la, Next(level, v, d.la), c.End());
      }
    }
  }

  /* From a clean start nothing is to be done for it, and the next place is regular. */
  lemma StepExisting(cpu: Cpu, h: Heap, root: nat, level: nat, t: nat, c: Cursor, d: Cursor, bits: bv12)
    requires ValidHeap(cpu, h, root) && TableAt(h, t, level) && Serves(cpu, h, root, t) && InSpan(h.place[t], c.la)
    requires c.size > 0 && c.End() <= LA_LIMIT && StartsClean(cpu, h, root, c.la, c.End())
    requires var e := h.tables[t][Index(level, c.la)];
      e.Valid() && IsLeaf(level, e) && LeafAt(cpu, h, root, c.la) == Some(Leaf(level, e))
    requires d.la == c.la + Size(level) && d.pa == c.pa + Size(level)
    requires d.size == c.size - if Size(level) <= c.size then Size(level) else c.size
    ensures Effect(cpu, h, h, root, c.la, c.pa, Min(d.la, c.End()), bits)
    ensures d.size > 0 ==> NextRegular(cpu, h, root, level, t, d)
  {
    hide Trunc, Serves, Placed, InSpan, Index, Effect, NextRegular, IsLeaf;
    var i := Index(level, c.la);
    LeafServes(cpu, h, root, t, i);
    SlotBounds(h, level, t, c.la);
    SlotAligned(level, c.la);
    assert forall x :: c.la <= x < Min(d.la, c.End()) ==> InSlot(h, t, i, x) by { hide InSlot; }
    hide InSlot;
    EffectNone(cpu, h, root, c.la, c.pa, Min(d.la, c.End()), bits);
    if d.size > 0 {
      SlotRegular(cpu, h, root, level, t, c.la, d);
    }
  }

  lemma SlotBounds(h: Heap, level: nat, t: nat, la: nat)
    requires TableAt(h, t, level) && InSpan(h.place[t], la)
    ensures Trunc(level, la) <= la < Trunc(level, la) + Size(level)
    ensures forall x :: Trunc(level, la) <= x < Trunc(level, la) + Size(level) ==> InSlot(h, t, Index(level, la), x)
  {
    IndexInSpan(level, h.place[t].base, la);
  }

  lemma SlotAligned(level: nat, la: nat)
    requires level <= 3
    ensures la % Size(level) == 0 ==> Trunc(level, la) == la
  {
    TruncIs(level, la);
  }

  /** The run in the table below is a run in this one. */
  lemma FollowsBelow(cpu: Cpu, a: Heap, b: Heap, root: nat, level: nat, t: nat, n: nat, c: Cursor, d: Cursor,
      bits: bv12, ok: bool)
    requires 0 < level && TableAt(a, t, level) && TableAt(b, t, level) && TableAt(a, n, level - 1)
    requires TableAt(b, n, level - 1)
    requires b.place[t] == a.place[t] && Serves(cpu, b, root, t) && c.End() <= LA_LIMIT
    requires d.size > 0 ==> d.End() <= LA_LIMIT
    requires a.place[n].base == Trunc(level, Real(a, t, c.la)) && b.place[n] == a.place[n]
    requires Follows(cpu, a, b, root, level - 1, n, c, d, bits, ok)
    requires ok && d.size > 0 ==> d.la % Size(level) == 0
    ensures Follows(cpu, a, b, root, level, t, c, d, bits, ok)
  {
    hide Serves, Effect, Above, LeafAt, StartsClean, Land, Trunc, Index, InSpan, Same, Spilled, Regular;
    var v := Real(a, t, c.la);
    RealFacts(a, t, level, c.la);
    RealFacts(a, n, level - 1, c.la);
    RealBelow(a, level, t, n, c.la);
    var l := Land(cpu, a, root, c.la, v, c.End());
    if ok && d.size > 0 && l.Clean? && !Pending(l, d) {
      assert d.la == a.place[n].base + Size(level);
      SlotRegular(cpu, b, root, level, t, v, d);
    }
  }

  lemma RealBelow(h: Heap, level: nat, t: nat, n: nat, la: nat)
    requires 0 < level && TableAt(h, t, level) && TableAt(h, n, level - 1)
    requires h.place[n].base == Trunc(level, Real(h, t, la))
    ensures Real(h, n, la) == Real(h, t, la)
  {
    RealFacts(h, t, level, la);
    TruncIs(level, Real(h, t, la));
  }

  /** Nothing changed before. */
  lemma FollowsFrom(cpu: Cpu, a: Heap, b: Heap, x: Heap, root: nat, level: nat, t: nat, c: Cursor, d: Cursor,
      bits: bv12, ok: bool)
    requires TableAt(a, t, level) && TableAt(b, t, level) && TableAt(x, t, level) && b.place[t] == a.place[t]
    requires Same(cpu, a, b, root) && c.End() <= LA_LIMIT && Follows(cpu, b, x, root, level, t, c, d, bits, ok)
    ensures Follows(cpu, a, x, root, level, t, c, d, bits, ok)
  {
    hide LeafAt, StartsClean, Land, Next, Trunc, Effect, Above, Spilled, NextRegular, InSpan;
    var v := Real(a, t, c.la);
    RealFacts(a, t, level, c.la);
    LandSame(cpu, a, b, root, c.la, v, c.End());
    var l := Land(cpu, a, root, c.la, v, c.End());
    AboveFrom(cpu, a, b, x, root, c.pa + (LandsAt(l, c.End()) - c.la));
    if l.Clean? && !Pending(l, d) {
      EffectFrom(cpu, a, b, x, root, l.at, c.pa + (l.at - c.la), Min(d.la, c.End()), bits);
    }
  }

  lemma AboveFrom(cpu: Cpu, a: Heap, b: Heap, x: Heap, root: nat, pa: nat)
    requires Same(cpu, a, b, root) && Above(cpu, b, x, root, pa)
    ensures Above(cpu, a, x, root, pa)
  {
    forall y: nat | y < LA_LIMIT
      ensures AboveAt(cpu, a, x, root, pa, y)
    {
      assert AboveAt(cpu, b, x, root, pa, y);
    }
  }

  lemma EffectFrom(cpu: Cpu, a: Heap, b: Heap, x: Heap, root: nat, la: nat, pa: nat, upto: nat, bits: bv12)
    requires Same(cpu, a, b, root) && Effect(cpu, b, x, root, la, pa, upto, bits)
    ensures Effect(cpu, a, x, root, la, pa, upto, bits)
  {
    forall y: nat | y < LA_LIMIT
      ensures EffectAt(cpu, a, x, root, la, pa, upto, bits, y)
    {
      assert EffectAt(cpu, b, x, root, la, pa, upto, bits, y);
    }
  }

  lemma EffectTo(cpu: Cpu, a: Heap, b: Heap, x: Heap, root: nat, la: nat, pa: nat, upto: nat, bits: bv12)
    requires Same(cpu, b, x, root) && Effect(cpu, a, b, root, la, pa, upto, bits)
    ensures Effect(cpu, a, x, root, la, pa, upto, bits)
  {
    forall y: nat | y < LA_LIMIT
      ensures EffectAt(cpu, a, x, root, la, pa, upto, bits, y)
    {
      assert EffectAt(cpu, a, b, root, la, pa, upto, bits, y);
    }
  }

  /* ---- one more round ---- */

  lemma RegularLands(cpu: Cpu, h: Heap, root: nat, level: nat, t: nat, c: Cursor)
    requires TableAt(h, t, level) && Regular(cpu, h, root, t, c) && c.size > 0
    ensures Real(h, t, c.la) == c.la && Land(cpu, h, root, c.la, c.la, c.End()) == Clean(c.la)
  {
    RealFacts(h, t, level, c.la);
  }

  /** One more round in the same table, from `d` to `e`. */
  lemma FollowsRound(cpu: Cpu, a: Heap, b: Heap, x: Heap, root: nat, level: nat, t: nat, c: Cursor, d: Cursor,
      e: Cursor, bits: bv12, ok: bool)
    requires TableAt(a, t, level) && TableAt(b, t, level) && TableAt(x, t, level)
    requires b.place[t] == a.place[t] && x.place[t] == a.place[t] && c.End() <= LA_LIMIT
    requires Advanced(c, d) && Advanced(d, e) && d.size > 0 && d.la % Size(level + 1) != 0 && (ok ==> e.size < d.size)
    requires Follows(cpu, a, b, root, level, t, c, d, bits, true) && Follows(cpu, b, x, root, level, t, d, e, bits, ok)
    ensures Follows(cpu, a, x, root, level, t, c, e, bits, ok)
  {
    hide LeafAt, StartsClean, Land, Effect, Above, Spilled, Next, Trunc, InSpan, Same, Regular, NextRegular;
    var v, w := Real(a, t, c.la), Real(b, t, d.la);
    RealFacts(a, t, level, c.la);
    RealFacts(b, t, level, d.la);
    NextHere(b, level, t, v, d.la);
    NextSame(level, v, w, e.la);
    var l := Land(cpu, a, root, c.la, v, c.End());
    AdvancedTransitive(c, d, e);
    LandFacts(cpu, b, root, d.la, w, d.End());
    if Pending(l, d) {
      AboveFrom(cpu, a, b, x, root, c.pa + (LandsAt(l, c.End()) - c.la));
      if l.Clean? && !Pending(l, e) {
        EffectFrom(cpu, a, b, x, root, l.at, c.pa + (l.at - c.la), Min(e.la, c.End()), bits);
      }
      SameTwice(cpu, a, b, x, root);
    } else {
      LandedRound(cpu, a, b, x, root, level, t, c, d, e, l, bits, ok);
    }
  }

  lemma SameTwice(cpu: Cpu, a: Heap, b: Heap, x: Heap, root: nat)
    ensures Same(cpu, a, b, root) && Same(cpu, b, x, root) ==> Same(cpu, a, x, root)
  {
    hide LeafAt;
  }

  /* A round after landing. */
  lemma LandedRound(cpu: Cpu, a: Heap, b: Heap, x: Heap, root: nat, level: nat, t: nat, c: Cursor, d: Cursor, e: Cursor,
      l: Landing, bits: bv12, ok: bool)
    requires TableAt(a, t, level) && TableAt(b, t, level) && TableAt(x, t, level)
    requires b.place[t] == a.place[t] && x.place[t] == a.place[t] && c.End() <= LA_LIMIT
    requires Advanced(c, d) && Advanced(d, e) && d.size > 0 && d.la % Size(level + 1) != 0 && (ok ==> e.size < d.size)
    requires c.la <= LandsAt(l, c.End()) && !Pending(l, d) && Landed(cpu, a, b, root, level, t, c, d, l, bits, true)
    requires Above(cpu, a, b, root, c.pa + (LandsAt(l, c.End()) - c.la))
    requires Follows(cpu, b, x, root, level, t, d, e, bits, ok)
    requires LandsAt(Land(cpu, b, root, d.la, Real(b, t, d.la), d.End()), d.End()) >= d.la
    ensures !Pending(l, e) && Landed(cpu, a, x, root, level, t, c, e, l, bits, ok)
    ensures Above(cpu, a, x, root, c.pa + (LandsAt(l, c.End()) - c.la))
  {
    hide LeafAt, StartsClean, Effect, Above, Spilled, Next, Trunc, InSpan, Same, Regular, Land;
    var m := Land(cpu, b, root, d.la, Real(b, t, d.la), d.End());
    AdvancedTransitive(c, d, e);
    AboveTransitive(cpu, a, b, x, root, c.pa + (LandsAt(l, c.End()) - c.la), d.pa + (LandsAt(m, d.End()) - d.la));
    match l
    case Clean(at) =>
      RegularLands(cpu, b, root, level, t, d);
      if Pending(m, e) {
        EffectTo(cpu, a, b, x, root, at, c.pa + (at - c.la), d.la, bits);
      } else {
        EffectTransitive(cpu, a, b, x, root, at, c.pa + (at - c.la), d.la, Min(e.la, c.End()), bits);
      }
    case Spill(la, w) =>
      SpillStays(cpu, b, x, root, w, c.pa + (la - c.la), d.pa + (LandsAt(m, d.End()) - d.la));
  }

  lemma SpillStays(cpu: Cpu, a: Heap, b: Heap, root: nat, w: nat, pa: nat, above: nat)
    requires Spilled(cpu, a, root, w, pa) && Above(cpu, a, b, root, above) && w < LA_LIMIT
    ensures Spilled(cpu, b, root, w, pa)
  {
    assert AboveAt(cpu, a, b, root, above, w);
  }

  /* ---- the contract of the walk ---- */

  /** What the caller of a part of the walk has established. */
  ghost predicate Ready(cpu: Cpu, h: Heap, root: nat, level: nat, t: nat, c: Cursor, bits: bv12, regular: bool) {
    && ValidHeap(cpu, h, root) && TableAt(h, t, level) && Serves(cpu, h, root, t)
    && GoodCursor(c) && c.End() <= LA_LIMIT && GoodBits(bits)
    && (regular ==> Regular(cpu, h, root, t, c))
  }

  /** What a part of the walk does. From a regular start the tables it makes serve the range, and it does nothing
      if everything is mapped. */
  ghost predicate Ran(cpu: Cpu, a: Heap, b: Heap, root: nat, level: nat, t: nat, c: Cursor, d: Cursor, bits: bv12,
                      regular: bool, ok: bool)
    requires TableAt(a, t, level)
  {
    && TableAt(b, t, level) && b.place[t] == a.place[t] && Serves(cpu, b, root, t)
    && Grows(cpu, a, b, root, c.pa) && Advanced(c, d) && (if ok then d.size < c.size else b.pool == [])
    && Follows(cpu, a, b, root, level, t, c, d, bits, ok)
    && Written(a, b, bits)
    && (regular ==> NewPlaces(cpu, a, b, c, level))
    && (regular && Done(cpu, a, root, t, c) ==> ok && b == a)
  }

  /* The next round in the same table can begin. */
  lemma NextReady(cpu: Cpu, a: Heap, b: Heap, root: nat, level: nat, t: nat, c: Cursor, d: Cursor, bits: bv12,
      regular: bool)
    requires Ready(cpu, a, root, level, t, c, bits, regular)
    requires Ran(cpu, a, b, root, level, t, c, d, bits, regular, true)
    requires d.size > 0 && d.la % Size(level + 1) != 0
    ensures Ready(cpu, b, root, level, t, d, bits, regular)
  {
    hide Placed, Extends, Above, Effect, NewPlaces, Serves, StartsClean, AllMapped, Size, InSpan, LeafAt, Land, Same;
    AdvancedGood(c, d);
    if regular {
      RegularLands(cpu, a, root, level, t, c);
    }
  }

  /** One more round. */
  lemma RanRound(cpu: Cpu, a: Heap, b: Heap, x: Heap, root: nat, level: nat, t: nat, c: Cursor, d: Cursor, e: Cursor,
                 bits: bv12, regular: bool, ok: bool)
    requires Ready(cpu, a, root, level, t, c, bits, regular)
    requires Ran(cpu, a, b, root, level, t, c, d, bits, regular, true)
    requires d.size > 0 && d.la % Size(level + 1) != 0 && (level > 0 && Super(c) ==> Super(d))
    requires Ready(cpu, b, root, level, t, d, bits, regular) && Ran(cpu, b, x, root, level, t, d, e, bits, regular, ok)
    ensures Ran(cpu, a, x, root, level, t, c, e, bits, regular, ok)
  {
    hide Placed, Extends, Above, Effect, NewPlaces, Serves, StartsClean, AllMapped, Size, InSpan, LeafAt, Follows,
      PlacedTable, Written;
    WrittenTransitive(a, b, x, bits);
    GrowsTransitive(cpu, a, b, x, root, c.pa, d.pa);
    AdvancedTransitive(c, d, e);
    FollowsRound(cpu, a, b, x, root, level, t, c, d, e, bits, ok);
    DoneLater(cpu, a, root, t, c, d);
    if regular {
      NewPlacesTransitive(cpu, a, b, x, c, d, level, level);
    }
  }

  /* The table below an entry can be entered. */
  lemma DownReady(cpu: Cpu, h: Heap, root: nat, level: nat, t: nat, c: Cursor, bits: bv12, regular: bool)
    requires Ready(cpu, h, root, level, t, c, bits, regular)
    requires var e := h.tables[t][Index(level, c.la)]; e.Valid() && !IsLeaf(level, e)
    ensures level > 0
    ensures var n := h.tables[t][Index(level, c.la)].Target();
      Ready(cpu, h, root, level - 1, n, c, bits, regular) && h.place[n].base == Trunc(level, Real(h, t, c.la))
  {
    hide Placed, Extends, Serves, StartsClean, Trunc, Size, LeafAt;
    StepDown(cpu, h, root, level, t, c);
    RealFacts(h, t, level, c.la);
    BelowPlace(cpu, h, root, level, t, Real(h, t, c.la));
  }

  lemma BelowPlace(cpu: Cpu, h: Heap, root: nat, level: nat, t: nat, v: nat)
    requires Placed(cpu, h) && TableAt(h, t, level) && Serves(cpu, h, root, t) && InSpan(h.place[t], v)
    requires var e := h.tables[t][Index(level, v)]; e.Valid() && !IsLeaf(level, e)
    ensures var n := h.tables[t][Index(level, v)].Target();
      n in h.tables && PlacedTable(h, n) && Serves(cpu, h, root, n) && h.place[n].base == Trunc(level, v)
  {
    var i := Index(level, v);
    assert PlacedEntry(cpu, h, t, i);
    ServesBelow(cpu, h, root, t, i);
    IndexInSpan(level, h.place[t].base, v);
  }

  /** A walk in the table below an entry, which may just have been made, is a part of the walk in this one. */
  lemma RanBelow(cpu: Cpu, a: Heap, b: Heap, x: Heap, root: nat, level: nat, t: nat, n: nat, c: Cursor, d: Cursor,
                 bits: bv12, regular: bool, ok: bool)
    requires 0 < level && Ready(cpu, a, root, level, t, c, bits, regular)
    requires Ready(cpu, b, root, level, t, c, bits, regular)
    requires Same(cpu, a, b, root) && Grows(cpu, a, b, root, c.pa) && b.place[t] == a.place[t] && Written(a, b, bits)
    requires regular ==> NewPlaces(cpu, a, b, c, level)
    requires regular && Done(cpu, a, root, t, c) ==> b == a
    requires Ready(cpu, b, root, level - 1, n, c, bits, regular) && b.place[n].base == Trunc(level, Real(b, t, c.la))
    requires Ran(cpu, b, x, root, level - 1, n, c, d, bits, regular, ok)
    requires ok && d.size > 0 ==> d.la % Size(level) == 0
    ensures Ran(cpu, a, x, root, level, t, c, d, bits, regular, ok)
  {
    hide Placed, Extends, Above, Effect, NewPlaces, Serves, StartsClean, AllMapped, Size, InSpan, LeafAt, Follows, Same,
      Trunc, Written;
    WrittenTransitive(a, b, x, bits);
    GrowsTransitive(cpu, a, b, x, root, c.pa, c.pa);
    TableStays(cpu, b, x, level, t);
    StillServes(cpu, b, x, root, level, t);
    AdvancedEnd(c, d);
    FollowsBelow(cpu, b, x, root, level, t, n, c, d, bits, ok);
    FollowsFrom(cpu, a, b, x, root, level, t, c, d, bits, ok);
    if regular {
      NewPlacesTransitive(cpu, a, b, x, c, c, level - 1, level);
    }
    if regular && Done(cpu, a, root, t, c) {
      DoneBelow(cpu, b, root, t, n, c);
    }
  }

  lemma DoneBelow(cpu: Cpu, h: Heap, root: nat, t: nat, n: nat, c: Cursor)
    requires Done(cpu, h, root, t, c) && Regular(cpu, h, root, n, c)
    ensures Done(cpu, h, root, n, c)
  {
  }

  lemma StillServes(cpu: Cpu, a: Heap, b: Heap, root: nat, level: nat, t: nat)
    requires TableAt(a, t, level) && Extends(a, b) && Serves(cpu, a, root, t)
    ensures t in b.place && b.place[t] == a.place[t] && Serves(cpu, b, root, t)
  {
    ServesStays(cpu, a, b, root, t);
  }

  lemma AdvancedEnd(c: Cursor, d: Cursor)
    requires Advanced(c, d)
    ensures d.size > 0 ==> d.End() == c.End()
  {
  }

  /* A round in which a leaf was written or found. */
  lemma RanLeaf(cpu: Cpu, a: Heap, b: Heap, root: nat, level: nat, t: nat, c: Cursor, d: Cursor, bits: bv12,
      regular: bool)
    requires Ready(cpu, a, root, level, t, c, bits, regular) && TableAt(b, t, level) && Grows(cpu, a, b, root, c.pa)
    requires b.tables.Keys == a.tables.Keys && b.place == a.place && Advanced(c, d) && d.size < c.size
    requires Written(a, b, bits)
    requires Follows(cpu, a, b, root, level, t, c, d, bits, true)
    requires a.tables[t][Index(level, c.la)].Valid() ==> b == a
    ensures Ran(cpu, a, b, root, level, t, c, d, bits, regular, true)
  {
    hide Placed, Extends, Above, Effect, Serves, StartsClean, AllMapped, Size, InSpan, LeafAt, Follows, Index, Trunc;
    StillServes(cpu, a, b, root, level, t);
    if regular {
      NewPlacesNone(cpu, a, b, root, c, level);
      EntryOf(cpu, a, root, level, t, c);
    }
  }

  lemma HeapWrittenSame(cpu: Cpu, h: Heap, root: nat, bits: bv12)
    requires ValidHeap(cpu, h, root)
    ensures Written(h, h, bits)
  {
    WrittenSame(h, bits);
  }

  /* A walk that ran out of pages at its first table. */
  lemma RanNothing(cpu: Cpu, h: Heap, root: nat, level: nat, t: nat, c: Cursor, bits: bv12, regular: bool)
    requires Ready(cpu, h, root, level, t, c, bits, regular) && h.pool == [] && !h.tables[t][Index(level, c.la)].Valid()
    ensures Ran(cpu, h, h, root, level, t, c, c, bits, regular, false)
  {
    hide Placed, Extends, Above, Effect, Serves, StartsClean, AllMapped, Size, InSpan, LeafAt, Follows, Index, Trunc;
    GrowsSame(cpu, h, root, c.pa);
    HeapWrittenSame(cpu, h, root, bits);
    FollowsNothing(cpu, h, root, level, t, c, bits);
    if regular {
      NewPlacesNone(cpu, h, h, root, c, level);
      EntryOf(cpu, h, root, level, t, c);
    }
  }

  lemma SuperByPage(level: nat, c: Cursor, d: Cursor)
    requires 0 < level <= 3 && Super(c) && Advanced(c, d) && d.size > 0
    requires d.la == c.la + Size(level) || d.la % Size(level) == 0
    ensures Super(d)
  {
    SuperBySize(level, c.la, d.la);
    hide Size;
    SuperAdvanced(c, d);
  }

  lemma SuperBySize(level: nat, x: nat, y: nat)
    requires 0 < level <= 3 && x % 0x20_0000 == 0 && (y == x + Size(level) || y % Size(level) == 0)
    ensures y % 0x20_0000 == 0
  {
    if y % Size(level) == 0 {
      SizeDivides(1, level, y);
    } else {
      assert Size(level) % 0x20_0000 == 0;
      hide Size;
      var q, k := x / 0x20_0000, Size(level) / 0x20_0000;
      DivModUnique(y, 0x20_0000, q + k, 0);
    }
  }

  /* ---- the whole run ---- */

  /** Where a run from the root lands. */
  ghost function RunLands(cpu: Cpu, h: Heap, root: nat, c: Cursor): Landing {
    Land(cpu, h, root, c.la, c.la, c.End())
  }

  /** The condition on the tables before the run: every address that the run passes over before it lands is mapped
      already, and nothing is spilled. */
  ghost predicate KeepsPromise(cpu: Cpu, h: Heap, root: nat, c: Cursor) {
    match RunLands(cpu, h, root, c)
    case Clean(m) => AllMapped(cpu, h, root, c.la, m)
    case Spill(_, _) => false
    case Through => AllMapped(cpu, h, root, c.la, c.End())
  }

  /** What a run leaves behind that reached its end or ran out of pages at `reached`. */
  ghost predicate RunDone(cpu: Cpu, a: Heap, b: Heap, root: nat, c: Cursor, reached: nat, bits: bv12, ok: bool) {
    var l := RunLands(cpu, a, root, c);
    && c.la <= LandsAt(l, c.End()) && Above(cpu, a, b, root, c.pa + (LandsAt(l, c.End()) - c.la))
    && match l
      case Clean(m) => c.la <= m && Effect(cpu, a, b, root, m, c.pa + (m - c.la), reached, bits)
      case Spill(la, w) => c.la <= la && (ok ==> Spilled(cpu, b, root, w, c.pa + (la - c.la)))
      case Through => Same(cpu, a, b, root)
  }

  /** The end of a run in the root table. */
  lemma RunEnd(cpu: Cpu, a: Heap, b: Heap, root: nat, c: Cursor, d: Cursor, bits: bv12, ok: bool)
    requires ValidHeap(cpu, a, root) && ValidHeap(cpu, b, root) && TableAt(a, root, 3) && TableAt(b, root, 3)
    requires c.End() <= LA_LIMIT && c.size > 0 && Advanced(c, d) && (ok ==> d.size == 0)
    requires Follows(cpu, a, b, root, 3, root, c, d, bits, ok)
    ensures RunDone(cpu, a, b, root, c, Min(d.la, c.End()), bits, ok)
  {
    hide LeafAt, StartsClean, Land, Effect, Above, Spilled, Placed;
    RealFacts(a, root, 3, c.la);
    RootReal(a, root, c);
    var l := RunLands(cpu, a, root, c);
    if l.Clean? && Pending(l, d) {
      SameEffect(cpu, a, b, root, l.at, c.pa + (l.at - c.la), d.la, bits);
    }
  }

  lemma RootReal(h: Heap, root: nat, c: Cursor)
    requires IsRoot(h, root) && c.End() <= LA_LIMIT && 0 < c.size
    ensures Real(h, root, c.la) == c.la
  {
  }

  /** The promise is kept if and only if the condition holds. */
  lemma PromiseExact(cpu: Cpu, a: Heap, b: Heap, root: nat, c: Cursor, bits: bv12)
    requires c.End() <= LA_LIMIT && c.size > 0 && RunDone(cpu, a, b, root, c, c.End(), bits, true)
    ensures Effect(cpu, a, b, root, c.la, c.pa, c.End(), bits) <==> KeepsPromise(cpu, a, root, c)
  {
    hide LeafAt, StartsClean, Above;
    var l := RunLands(cpu, a, root, c);
    LandFacts(cpu, a, root, c.la, c.la, c.End());
    hide Land;
    match l
    case Clean(m) => PassedOver(cpu, a, b, root, c, m, bits);
    case Through => PassedAll(cpu, a, b, root, c, bits);
    case Spill(la, w) =>
      assert !EffectAt(cpu, a, b, root, c.la, c.pa, c.End(), bits, w);
  }

  lemma PassedOver(cpu: Cpu, a: Heap, b: Heap, root: nat, c: Cursor, m: nat, bits: bv12)
    requires c.la <= m < c.End() <= LA_LIMIT && Effect(cpu, a, b, root, m, c.pa + (m - c.la), c.End(), bits)
    ensures Effect(cpu, a, b, root, c.la, c.pa, c.End(), bits) <==> AllMapped(cpu, a, root, c.la, m)
  {
    hide LeafAt;
    if Effect(cpu, a, b, root, c.la, c.pa, c.End(), bits) {
      forall x: nat | c.la <= x < m
        ensures LeafAt(cpu, a, root, x).Some?
      {
        assert EffectAt(cpu, a, b, root, c.la, c.pa, c.End(), bits, x);
        assert EffectAt(cpu, a, b, root, m, c.pa + (m - c.la), c.End(), bits, x);
      }
    }
    if AllMapped(cpu, a, root, c.la, m) {
      forall x: nat | x < LA_LIMIT
        ensures EffectAt(cpu, a, b, root, c.la, c.pa, c.End(), bits, x)
      {
        assert EffectAt(cpu, a, b, root, m, c.pa + (m - c.la), c.End(), bits, x);
      }
    }
  }

  lemma PassedAll(cpu: Cpu, a: Heap, b: Heap, root: nat, c: Cursor, bits: bv12)
    requires c.End() <= LA_LIMIT && Same(cpu, a, b, root)
    ensures Effect(cpu, a, b, root, c.la, c.pa, c.End(), bits) <==> AllMapped(cpu, a, root, c.la, c.End())
  {
    hide LeafAt;
    if Effect(cpu, a, b, root, c.la, c.pa, c.End(), bits) {
      forall x: nat | c.la <= x < c.End()
        ensures LeafAt(cpu, a, root, x).Some?
      {
        assert EffectAt(cpu, a, b, root, c.la, c.pa, c.End(), bits, x);
      }
    }
    if AllMapped(cpu, a, root, c.la, c.End()) {
      EffectNone(cpu, a, root, c.la, c.pa, c.End(), bits);
      EffectTo(cpu, a, a, b, root, c.la, c.pa, c.End(), bits);
    }
  }

  /** The run passes over the unmapped address `y`. */
  ghost predicate SkipsPage(cpu: Cpu, h: Heap, root: nat, c: Cursor, y: nat) {
    c.la <= y < LandsAt(RunLands(cpu, h, root, c), c.End()) && y < c.End() && LeafAt(cpu, h, root, y) == None
  }

  /** Address `y` does not get the translation the range asks for. */
  ghost predicate MissesPage(cpu: Cpu, h: Heap, root: nat, c: Cursor, y: nat) {
    match LeafAt(cpu, h, root, y)
    case None => true
    case Some(leaf) => leaf.level > 3 || Translate(leaf, y) != c.pa + (y - c.la)
  }

  /** What a run has passed over does not get the translation asked for, whether the run succeeds or not. */
  lemma Misses(cpu: Cpu, a: Heap, b: Heap, root: nat, c: Cursor, reached: nat, bits: bv12, ok: bool)
    requires c.End() <= LA_LIMIT && RunDone(cpu, a, b, root, c, reached, bits, ok)
    ensures forall y: nat :: SkipsPage(cpu, a, root, c, y) ==> MissesPage(cpu, b, root, c, y)
  {
    hide LeafAt, Land;
    var pa := c.pa + (LandsAt(RunLands(cpu, a, root, c), c.End()) - c.la);
    forall y: nat | SkipsPage(cpu, a, root, c, y)
      ensures MissesPage(cpu, b, root, c, y)
    {
      assert AboveAt(cpu, a, b, root, pa, y);
    }
  }

  /** Unless something is spilled, no translation outside the range changes. */
  lemma OutsideKept(cpu: Cpu, a: Heap, b: Heap, root: nat, c: Cursor, reached: nat, bits: bv12, ok: bool, x: nat)
    requires RunDone(cpu, a, b, root, c, reached, bits, ok) && reached <= c.End() && !RunLands(cpu, a, root, c).Spill?
    requires x < LA_LIMIT && (x < c.la || c.End() <= x)
    ensures LeafAt(cpu, b, root, x) == LeafAt(cpu, a, root, x)
  {
    hide LeafAt, Land, Above;
    var l := RunLands(cpu, a, root, c);
    if l.Clean? {
      assert EffectAt(cpu, a, b, root, l.at, c.pa + (l.at - c.la), reached, bits, x);
    }
  }

  /** The first step from the middle of a leaf: it stays in the table that holds the leaf if the advanced address
      lies in the span of that table, and otherwise goes back to its begin. If nothing is mapped there, the run
      lands in the first case and spills in the second. */
  lemma FirstStep(cpu: Cpu, h: Heap, root: nat, c: Cursor)
    requires LeafAt(cpu, h, root, c.la).Some? && !StartsClean(cpu, h, root, c.la, c.End())
    requires LeafAt(cpu, h, root, c.la).value.level < 3
    requires c.la + Size(LeafAt(cpu, h, root, c.la).value.level) < c.End() <= LA_LIMIT
    ensures var level := LeafAt(cpu, h, root, c.la).value.level;
      var next, table := c.la + Size(level), Trunc(level + 1, c.la);
      var back := if next < table + Size(level + 1) then next else next - Size(level + 1);
      && table <= back < table + Size(level + 1)
      && (LeafAt(cpu, h, root, back) == None ==>
        RunLands(cpu, h, root, c) == if back == next then Clean(next) else Spill(next, back))
  {
    hide LeafAt, Size, Trunc, Next, StartsClean;
    var level := LeafAt(cpu, h, root, c.la).value.level;
    var next := c.la + Size(level);
    assert c.la % Size(level) != 0 by { UncleanStart(cpu, h, root, c); }
    BackInTable(level, c.la, next);
    assert RunLands(cpu, h, root, c) == Land(cpu, h, root, next, Next(level, c.la, next), c.End());
  }

  lemma UncleanStart(cpu: Cpu, h: Heap, root: nat, c: Cursor)
    requires LeafAt(cpu, h, root, c.la).Some? && !StartsClean(cpu, h, root, c.la, c.End())
    requires LeafAt(cpu, h, root, c.la).value.level <= 3
    ensures c.la % Size(LeafAt(cpu, h, root, c.la).value.level) != 0
  {
  }

  lemma BackInTable(level: nat, la: nat, next: nat)
    requires level < 3 && la % Size(level) != 0 && next == la + Size(level)
    ensures var table := Trunc(level + 1, la);
      var back := if next < table + Size(level + 1) then next else next - Size(level + 1);
      table <= back < table + Size(level + 1) && Next(level, la, next) == back
  {
    var table, big := Trunc(level + 1, la), Size(level + 1);
    TruncIs(level + 1, la);
    SizeStep(level);
    NotAligned(level, la, next);
    hide Size, Trunc;
    MultipleBelow(la, big);
    var q := table / big;
    assert table == q * big;
    if next < table + big {
      DivModUnique(next, big, q, next - table);
    } else {
      assert table + big == (q + 1) * big;
      DivModUnique(next, big, q + 1, next - table - big);
    }
  }

  lemma NotAligned(level: nat, la: nat, next: nat)
    requires level < 3 && la % Size(level) != 0 && next == la + Size(level)
    ensures next % Size(level + 1) != 0
  {
    var s := Size(level);
    if next % Size(level + 1) == 0 {
      SizeDivides(level, level + 1, next);
      MultipleMinus(next, s, s);
    }
  }
}
