/** How the buffer develops while Multiboot2 tags are rotated to its end, and what the parts that are
    set aside say (server/src/multiboot2.cc). */
module MultibootLayout {
  import opened Options
  import opened MultibootFormat

  /* ---- the buffer ---- */

  /** `k` bytes at `pos` moved behind everything up to `size`. */
  function Rotated(b: seq<byte>, pos: nat, size: nat, k: nat): (r: seq<byte>)
    requires pos + k <= size <= |b|
    ensures |r| == |b|
  {
    b[..pos] + b[pos + k..size] + b[pos..pos + k] + b[size..]
  }

  /** Rotating in pieces is rotating as a whole. */
  lemma {:induction false} RotatedTwice(b: seq<byte>, pos: nat, size: nat, j: nat, k: nat)
    requires pos + j + k <= size <= |b|
    ensures Rotated(Rotated(b, pos, size, j), pos, size, k) == Rotated(b, pos, size, j + k)
  {
    var r := Rotated(b, pos, size, j);
    var moved, next, tail := b[pos..pos + j], b[pos + j..pos + j + k], b[pos + j + k..size];
    SliceSplits(b, pos + j, pos + j + k, size);
    SliceSplits(b, pos, pos + j, pos + j + k);
    assert r == b[..pos] + next + tail + moved + b[size..];
    assert r[pos..pos + k] == next && r[pos + k..size] == tail + moved;
    assert r[..pos] == b[..pos] && r[size..] == b[size..];
    assert b[..pos] + (tail + moved) + next + b[size..] == b[..pos] + tail + (moved + next) + b[size..];
  }

  lemma SliceSplits(b: seq<byte>, lo: nat, mid: nat, hi: nat)
    requires lo <= mid <= hi <= |b|
    ensures b[lo..hi] == b[lo..mid] + b[mid..hi]
  {
  }

  /* A slice of a slice. */
  lemma SubSlice(b: seq<byte>, lo: nat, hi: nat, i: nat, j: nat)
    requires lo <= hi <= |b| && i <= j <= hi - lo
    ensures b[lo..hi][i..j] == b[lo + i..lo + j]
  {
    var x, y := b[lo..hi][i..j], b[lo + i..lo + j];
    forall k | 0 <= k < j - i
      ensures x[k] == y[k]
    {
    }
  }

  function Put(b: seq<byte>, at: nat, s: seq<byte>): (r: seq<byte>)
    requires at + |s| <= |b|
    ensures |r| == |b|
  {
    b[..at] + s + b[at + |s|..]
  }

  /** The tags still to be looked at start at `pos`; behind them, up to `size`, are the terminator and
      what was left over from tags already dealt with. */
  ghost predicate Reading(b: seq<byte>, pos: nat, size: nat, rest: seq<Tag>, junk: seq<byte>) {
    8 <= pos <= size <= |b| && b[pos..size] == Flat(rest) + junk && ValidTags(rest) && Ending(junk)
  }

  lemma ReadTag(b: seq<byte>, pos: nat, size: nat, rest: seq<Tag>, junk: seq<byte>)
    requires Reading(b, pos, size, rest, junk)
    ensures pos + 8 <= size
    ensures rest == [] ==> U32(b, pos) == TERMINATOR
    ensures rest != [] ==> var t := rest[0];
      && ValidTag(t) && U32(b, pos) == Type(t) && U32(b, pos + 4) == Size(t) && |t| == Round8(Size(t))
      && pos + |t| + 8 <= size && b[pos..pos + |t|] == t && b[pos + |t|..size] == Flat(rest[1..]) + junk
  {
    var s := Flat(rest) + junk;
    if rest == [] {
      assert s == junk;
      U32Slice(b, pos, size, 0);
    } else {
      var t := rest[0];
      assert s == t + (Flat(rest[1..]) + junk);
      assert b[pos..pos + |t|] == b[pos..size][..|t|];
      assert b[pos + |t|..size] == b[pos..size][|t|..];
      U32Slice(b, pos, pos + |t|, 0);
      U32Slice(b, pos, pos + |t|, 4);
    }
  }

  lemma U32Slice(b: seq<byte>, lo: nat, hi: nat, o: nat)
    requires lo + o + 4 <= hi <= |b|
    ensures U32(b[lo..hi], o) == U32(b, lo + o)
  {
  }

  lemma EndingGrows(junk: seq<byte>, more: seq<byte>)
    requires Ending(junk)
    ensures Ending(junk + more)
  {
  }

  /** Moving the first tag behind the rest, and setting aside its last `r` bytes. */
  lemma {:induction false} RotateTag(b: seq<byte>, pos: nat, size: nat, rest: seq<Tag>, junk: seq<byte>, r: nat)
    requires Reading(b, pos, size, rest, junk) && rest != [] && r <= |rest[0]|
    ensures var t := rest[0];
      && pos + |t| + 8 <= size
      && var c := Rotated(b, pos, size, |t|);
      && Reading(c, pos, size - r, rest[1..], junk + t[..|t| - r])
      && c[size - |t|..size] == t && c[size..] == b[size..]
  {
    ReadTag(b, pos, size, rest, junk);
    var t := rest[0];
    var k := |t|;
    EndingGrows(junk, t[..k - r]);
    TailValid(rest);
    hide U32, ValidTag, Ending, Round8, Rotated, Size, Type, Flat, ValidTags;
    RotateSlices(b, pos, size, t, Flat(rest[1..]), junk, r);
  }

  lemma {:induction false} RotateSlices(b: seq<byte>, pos: nat, size: nat, t: seq<byte>, f: seq<byte>, junk: seq<byte>,
      r: nat)
    requires pos + |t| + |f + junk| == size <= |b| && b[pos..pos + |t|] == t && b[pos + |t|..size] == f + junk
    requires r <= |t|
    ensures var c := Rotated(b, pos, size, |t|);
      c[pos..size - r] == f + (junk + t[..|t| - r]) && c[size - |t|..size] == t && c[size..] == b[size..]
  {
    RotatedParts(b, pos, size, t, f + junk);
    var c := Rotated(b, pos, size, |t|);
    hide Rotated;
    SliceSplits(c, pos, size - |t|, size - r);
    SubSlice(c, size - |t|, size, 0, |t| - r);
    assert f + junk + t[..|t| - r] == f + (junk + t[..|t| - r]);
  }

  lemma TailValid(rest: seq<Tag>)
    requires ValidTags(rest) && rest != []
    ensures ValidTags(rest[1..]) && ValidTag(rest[0])
  {
  }

  lemma RotatedParts(b: seq<byte>, pos: nat, size: nat, t: seq<byte>, more: seq<byte>)
    requires pos + |t| + |more| == size <= |b| && b[pos..pos + |t|] == t && b[pos + |t|..size] == more
    ensures var c := Rotated(b, pos, size, |t|);
      c[pos..size - |t|] == more && c[size - |t|..size] == t && c[size..] == b[size..] && c[..pos] == b[..pos]
  {
  }

  lemma RoundLess(x: nat, h: nat)
    requires h % 8 == 0 && h <= x
    ensures Round8(x - h) == Round8(x) - h
  {
    var k := h / 8;
    assert (x - h + 7) / 8 == (x + 7) / 8 - k;
  }

  /* What is set aside of a rotated tag. */
  lemma Payload(c: seq<byte>, size: nat, t: Tag, h: nat)
    requires ValidTag(t) && |t| <= size <= |c| && c[size - |t|..size] == t && h % 8 == 0 && h <= Size(t)
    ensures Round8(Size(t) - h) == |t| - h
    ensures size - |t| + Size(t) <= |c| && c[size - |t| + h..size - |t| + Size(t)] == t[h..Size(t)]
  {
    RoundLess(Size(t), h);
    hide Round8, U32;
    SubSlice(c, size - |t|, size, h, Size(t));
  }

  /* ---- what the result says ---- */

  /** A table or block of bytes in the buffer. */
  datatype Table = Table(at: nat, n: nat)

  /** The part of the v1 information structure that the conversion fills in; addresses are offsets in
      the buffer. */
  datatype Info = Info(cmdline: Option<nat>, mods: Option<Table>, memmap: Option<Table>, rsdp: Option<Table>)

  const EMPTY := Info(None, None, None, None)

  /** The bytes `s` are at `at`, not below `lo`. */
  ghost predicate Holds(b: seq<byte>, lo: nat, at: nat, s: seq<byte>) {
    lo <= at && at + |s| <= |b| && b[at..at + |s|] == s
  }

  /** A v1 module entry at `e` for the module `m`: the address range, a pointer to the command line, and
      a zero. */
  ghost predicate ModAt(b: seq<byte>, lo: nat, base: nat, e: nat, m: Mod) {
    && e + 16 <= |b| && b[e..e + 8] == m.range && base <= U32(b, e + 8)
    && Holds(b, lo, U32(b, e + 8) - base, m.name) && U32(b, e + 12) == 0
  }

  ghost predicate ModTable(b: seq<byte>, lo: nat, base: nat, at: nat, mods: seq<Mod>) {
    && at + 16 * |mods| <= |b|
    && forall i :: 0 <= i < |mods| ==> ModAt(b, lo, base, at + 16 * i, mods[i])
  }

  /** Everything that was told so far can be found through the pointers, and lies at or above `lo`. */
  ghost predicate Denotes(b: seq<byte>, lo: nat, base: nat, info: Info, s: Summary) {
    && (match (info.cmdline, s.cmdline)
        case (None, None) => true
        case (Some(at), Some(c)) => Holds(b, lo, at, c)
        case _ => false)
    && (match (info.mods, s.mods)
        case (None, None) => true
        case (Some(t), Some(m)) => lo <= t.at && t.n == |m| && ModTable(b, lo, base, t.at, m)
        case _ => false)
    && (match (info.memmap, s.memmap)
        case (None, None) => true
        case (Some(t), Some(m)) =>
          && 24 <= m.entry < WORD && Whole(|m.raw|, m.entry) && t.n == |m.raw|
          && Holds(b, lo, t.at, Converted(m.raw, m.entry))
        case _ => false)
    && (match (info.rsdp, s.rsdp)
        case (None, None) => true
        case (Some(t), Some(r)) => t.n == |r| && Holds(b, lo, t.at, r)
        case _ => false)
  }

  /* Bytes set aside stay where they are. */
  lemma HoldsKept(b: seq<byte>, c: seq<byte>, lo: nat, lower: nat, at: nat, s: seq<byte>)
    requires Holds(b, lo, at, s) && |c| == |b| && lower <= lo <= |b| && c[lo..] == b[lo..]
    ensures Holds(c, lower, at, s)
  {
    SubSlice(c, lo, |c|, at - lo, at - lo + |s|);
    SubSlice(b, lo, |b|, at - lo, at - lo + |s|);
  }

  /** A table of modules that moved as a whole, while the command lines stayed. */
  lemma TableMoved(b: seq<byte>, c: seq<byte>, lo: nat, lower: nat, base: nat, at: nat, to: nat, mods: seq<Mod>)
    requires ModTable(b, lo, base, at, mods) && |c| == |b| && lower <= lo <= |b| && c[lo..] == b[lo..]
    requires to + 16 * |mods| <= |c| && c[to..to + 16 * |mods|] == b[at..at + 16 * |mods|]
    ensures ModTable(c, lower, base, to, mods)
  {
    hide Holds, U32;
    forall i | 0 <= i < |mods|
      ensures ModAt(c, lower, base, to + 16 * i, mods[i])
    {
      var e, f := at + 16 * i, to + 16 * i;
      assert ModAt(b, lo, base, e, mods[i]);
      SameEntry(b, c, e, f, at, to, 16 * |mods|);
      HoldsKept(b, c, lo, lower, U32(b, e + 8) - base, mods[i].name);
    }
  }

  lemma SameEntry(b: seq<byte>, c: seq<byte>, e: nat, f: nat, at: nat, to: nat, n: nat)
    requires at + n <= |b| && to + n <= |c| && c[to..to + n] == b[at..at + n]
    requires at <= e && e + 16 <= at + n && f - to == e - at
    ensures c[f..f + 8] == b[e..e + 8] && U32(c, f + 8) == U32(b, e + 8) && U32(c, f + 12) == U32(b, e + 12)
  {
    hide U32;
    SubSlice(c, to, to + n, f - to, f - to + 16);
    SubSlice(b, at, at + n, e - at, e - at + 16);
    SubSlice(c, f, f + 16, 0, 8);
    SubSlice(b, e, e + 16, 0, 8);
    U32Slice(c, f, f + 16, 8);
    U32Slice(b, e, e + 16, 8);
    U32Slice(c, f, f + 16, 12);
    U32Slice(b, e, e + 16, 12);
  }

  /** Whatever happens below the part set aside, what it says does not change. */
  lemma DenotesKept(b: seq<byte>, c: seq<byte>, lo: nat, lower: nat, base: nat, info: Info, s: Summary)
    requires Denotes(b, lo, base, info, s) && |c| == |b| && lower <= lo <= |b| && c[lo..] == b[lo..]
    ensures Denotes(c, lower, base, info, s)
  {
    hide ModTable, Holds, Converted, Whole;
    if info.cmdline.Some? {
      HoldsKept(b, c, lo, lower, info.cmdline.value, s.cmdline.value);
    }
    if info.mods.Some? {
      TableInPlace(b, c, lo, lower, base, info.mods.value.at, s.mods.value);
    }
    if info.memmap.Some? {
      HoldsKept(b, c, lo, lower, info.memmap.value.at, Converted(s.memmap.value.raw, s.memmap.value.entry));
    }
    if info.rsdp.Some? {
      HoldsKept(b, c, lo, lower, info.rsdp.value.at, s.rsdp.value);
    }
  }

  lemma TableInPlace(b: seq<byte>, c: seq<byte>, lo: nat, lower: nat, base: nat, at: nat, mods: seq<Mod>)
    requires ModTable(b, lo, base, at, mods) && |c| == |b| && lower <= lo <= |b| && c[lo..] == b[lo..] && lo <= at
    ensures ModTable(c, lower, base, at, mods)
  {
    var n := 16 * |mods|;
    SubSlice(c, lo, |c|, at - lo, at - lo + n);
    SubSlice(b, lo, |b|, at - lo, at - lo + n);
    TableMoved(b, c, lo, lower, base, at, at, mods);
  }
}
