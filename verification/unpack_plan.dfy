/** Unpacking compressed boot modules next to each other, next to or over their compressed data: where
    they go, and why nothing that is still needed is overwritten (`decompress_mods` in
    server/src/boot_modules.cc). */
module UnpackPlans {
  import opened Regions
  import opened ModuleOrder

  /** A module of the boot image: where it lies, how large it will be, and whether it is one of the
      base modules, which stay as they are. */
  datatype Packed = Packed(m: Module, unpacked: nat, base: bool) {
    predicate Compressed() { m.size != unpacked }

    function End(): nat { m.start + m.size }
  }

  /** The modules with their sizes after unpacking. */
  function Unpacked(mods: seq<Packed>): (s: seq<Module>)
    ensures |s| == |mods| && forall i :: 0 <= i < |s| ==> s[i] == mods[i].m.(size := mods[i].unpacked)
  {
    seq(|mods|, i requires 0 <= i < |mods| => mods[i].m.(size := mods[i].unpacked))
  }

  /** The indexes of the modules to be unpacked among the first `n`, in the order of the header. */
  function NonBase(mods: seq<Packed>, n: nat): (s: seq<nat>)
    requires n <= |mods|
    ensures forall k :: 0 <= k < |s| ==> s[k] < n && !mods[s[k]].base
    ensures forall i :: 0 <= i < n && !mods[i].base ==> i in s
    ensures forall i, j :: 0 <= i < j < |s| ==> s[i] < s[j]
  {
    if n == 0 then []
    else if mods[n - 1].base then NonBase(mods, n - 1)
    else
      var s := NonBase(mods, n - 1);
      assert forall i :: 0 <= i < n - 1 && !mods[i].base ==> i in s + [n - 1];
      assert (s + [n - 1])[|s|] == n - 1;
      s + [n - 1]
  }

  /** Non-empty modules on pages of their own, within memory, and without a common byte. */
  ghost predicate PackedValid(mods: seq<Packed>, limit: nat) {
    && limit + PAGE <= TOP
    && (forall i :: 0 <= i < |mods| ==> PackedOne(mods[i], limit))
    && (forall i, j :: 0 <= i < j < |mods| ==> mods[i].End() <= mods[j].m.start || mods[j].End() <= mods[i].m.start)
  }

  predicate PackedOne(p: Packed, limit: nat) {
    0 < p.m.size && PageAligned(p.m.start) && p.End() <= limit && 0 < p.unpacked <= limit
  }

  /* ---- sums below an address ---- */

  /** The unpacked sizes of the modules in `s` that start below `v`. */
  ghost function BelowSum(u: seq<Module>, s: seq<nat>, v: nat): nat
    requires forall k :: 0 <= k < |s| ==> s[k] < |u|
  {
    if s == [] then 0
    else
      var x := s[|s| - 1];
      BelowSum(u, s[..|s| - 1], v) + if u[x].start < v then PageRound(u[x].size) else 0
  }

  lemma {:induction false} BelowConcat(u: seq<Module>, s: seq<nat>, t: seq<nat>, v: nat)
    requires forall k :: 0 <= k < |s| ==> s[k] < |u|
    requires forall k :: 0 <= k < |t| ==> t[k] < |u|
    ensures BelowSum(u, s + t, v) == BelowSum(u, s, v) + BelowSum(u, t, v)
  {
    hide PageRound;
    if t == [] {
      assert s + t == s;
    } else {
      BelowConcat(u, s, t[..|t| - 1], v);
      assert (s + t)[..|s + t| - 1] == s + t[..|t| - 1];
    }
  }

  lemma {:induction false} BelowPermutation(u: seq<Module>, s: seq<nat>, t: seq<nat>, v: nat)
    requires multiset(s) == multiset(t)
    requires (forall k :: 0 <= k < |s| ==> s[k] < |u|) && (forall k :: 0 <= k < |t| ==> t[k] < |u|)
    ensures BelowSum(u, s, v) == BelowSum(u, t, v)
    decreases |s|
  {
    hide PageRound;
    assert |s| == |multiset(s)| == |multiset(t)| == |t|;
    if s != [] {
      hide BelowSum;
      var x, r := s[|s| - 1], s[..|s| - 1];
      var j := Remove(s, t);
      BelowPermutation(u, r, t[..j] + t[j + 1..], v);
      BelowConcat(u, t[..j], [x], v);
      BelowConcat(u, t[..j] + [x], t[j + 1..], v);
      BelowConcat(u, t[..j], t[j + 1..], v);
      BelowConcat(u, r, [x], v);
    }
  }

  /* The last element of `s`, taken out of both. */
  lemma Remove(s: seq<nat>, t: seq<nat>) returns (j: nat)
    requires s != [] && multiset(s) == multiset(t)
    ensures j < |t| && t[j] == s[|s| - 1]
    ensures s == s[..|s| - 1] + [s[|s| - 1]] && t == t[..j] + [t[j]] + t[j + 1..]
    ensures multiset(s[..|s| - 1]) == multiset(t[..j] + t[j + 1..])
      {
    var x := s[|s| - 1];
    assert x in multiset(t);
    j :| 0 <= j < |t| && t[j] == x;
    TakeOut(s, |s| - 1);
    TakeOut(t, j);
    assert s[..|s| - 1] + s[|s| - 1 + 1..] == s[..|s| - 1];
  }

  lemma TakeOut(s: seq<nat>, j: nat)
    requires j < |s|
    ensures s == s[..j] + [s[j]] + s[j + 1..] && multiset(s[..j] + s[j + 1..]) == multiset(s) - multiset{s[j]}
  {
    assert s == s[..j] + [s[j]] + s[j + 1..];
    assert multiset(s) == multiset(s[..j]) + multiset{s[j]} + multiset(s[j + 1..]);
  }

  /* All of them, or none of them, start below. */
  lemma {:induction false} BelowAll(u: seq<Module>, s: seq<nat>, v: nat)
    requires forall k :: 0 <= k < |s| ==> s[k] < |u|
    ensures BelowSum(u, s, v) <= Sum(u, s)
    ensures (forall k :: 0 <= k < |s| ==> u[s[k]].start < v) ==> BelowSum(u, s, v) == Sum(u, s)
    ensures (forall k :: 0 <= k < |s| ==> v <= u[s[k]].start) ==> BelowSum(u, s, v) == 0
  {
    hide PageRound;
    if s != [] {
      BelowAll(u, s[..|s| - 1], v);
    }
  }

  /* The sum splits at a position. */
  lemma BelowSplit(u: seq<Module>, s: seq<nat>, p: nat, v: nat)
    requires (forall k :: 0 <= k < |s| ==> s[k] < |u|) && p <= |s|
    ensures BelowSum(u, s, v) == BelowSum(u, s[..p], v) + BelowSum(u, s[p..], v)
  {
    BelowConcat(u, s[..p], s[p..], v);
    assert s == s[..p] + s[p..];
  }

  /* ---- the scan over the header ---- */

  /** What the scan establishes for the placement behind the modules: it goes through the header and
      keeps the target of each module, in header order, behind the end of its data. */
  ghost predicate BehindInHeader(mods: seq<Packed>, s: seq<nat>, dest: nat) {
    && (forall k :: 0 <= k < |s| ==> s[k] < |mods|)
    && forall p :: 0 <= p < |s| ==> mods[s[p]].End() <= dest + Sum(Unpacked(mods), s[..p])
  }

  /** And for the placement before them. */
  ghost predicate BeforeInHeader(mods: seq<Packed>, s: seq<nat>, dest: nat) {
    && (forall k :: 0 <= k < |s| ==> s[k] < |mods|)
    && forall p :: 0 <= p < |s| ==> dest + Sum(Unpacked(mods), s[..p]) + mods[s[p]].unpacked <= mods[s[p]].m.start
  }

  /** `order` lists the modules of `s` by ascending address. */
  ghost predicate Sorts(mods: seq<Packed>, order: seq<nat>, s: seq<nat>) {
    && Ascending(Unpacked(mods), order) && multiset(order) == multiset(s)
    && (forall i, j :: 0 <= i < j < |order| ==> order[i] != order[j])
  }

  lemma Apart(mods: seq<Packed>, limit: nat, i: nat, j: nat)
    requires PackedValid(mods, limit) && i < |mods| && j < |mods| && i != j && mods[i].m.start <= mods[j].m.start
    ensures mods[i].End() <= mods[j].m.start && mods[i].m.start + PAGE <= mods[j].m.start
  {
    hide PageAligned;
    assert PackedOne(mods[i], limit) && PackedOne(mods[j], limit);
    PageApart(mods[i].m.start, mods[j].m.start);
  }

  lemma PageApart(a: nat, b: nat)
    requires PageAligned(a) && PageAligned(b) && a < b
    ensures a + PAGE <= b
  {
  }

  /* In the order by address, the modules before position `k` are those that start below. */
  lemma SumBefore(mods: seq<Packed>, limit: nat, order: seq<nat>, s: seq<nat>, k: nat)
    requires PackedValid(mods, limit) && Sorts(mods, order, s) && k < |order|
    requires forall i :: 0 <= i < |s| ==> s[i] < |mods|
    ensures order[k] < |mods|
    ensures var u, v := Unpacked(mods), mods[order[k]].m.start;
      && Sum(u, order[..k]) == BelowSum(u, s, v)
      && Sum(u, order[..k + 1]) == BelowSum(u, s, v + 1)
  {
    hide PageRound, Sum, BelowSum, PackedOne;
    var u, v := Unpacked(mods), mods[order[k]].m.start;
    AroundPosition(mods, limit, order, s, k);
    BelowPermutation(u, order, s, v);
    BelowPermutation(u, order, s, v + 1);
    hide PackedValid, Sorts;
    SumUpTo(u, order, k, v);
    SumUpTo(u, order, k + 1, v + 1);
  }

  lemma SumUpTo(u: seq<Module>, order: seq<nat>, k: nat, v: nat)
    requires (forall i :: 0 <= i < |order| ==> order[i] < |u|) && k <= |order|
    requires forall i :: 0 <= i < k ==> u[order[i]].start < v
    requires forall i :: k <= i < |order| ==> v <= u[order[i]].start
    ensures Sum(u, order[..k]) == BelowSum(u, order, v)
  {
    hide Sum, BelowSum;
    BelowSplit(u, order, k, v);
    BelowAll(u, order[..k], v);
    BelowAll(u, order[k..], v);
  }

  lemma AroundPosition(mods: seq<Packed>, limit: nat, order: seq<nat>, s: seq<nat>, k: nat)
    requires PackedValid(mods, limit) && Sorts(mods, order, s) && k < |order|
    ensures forall i :: 0 <= i < |order| ==> order[i] < |mods|
    ensures forall i :: 0 <= i < k ==>
      mods[order[i]].End() <= mods[order[k]].m.start && mods[order[i]].m.start < mods[order[k]].m.start
    ensures forall i :: k < i < |order| ==> mods[order[k]].m.start < mods[order[i]].m.start
  {
    hide PackedValid;
    var u := Unpacked(mods);
    forall i | 0 <= i < |order| && i != k
      ensures if i < k
        then mods[order[i]].End() <= mods[order[k]].m.start && mods[order[i]].m.start < mods[order[k]].m.start
        else mods[order[k]].m.start < mods[order[i]].m.start
    {
      var a, b := if i < k then i else k, if i < k then k else i;
      assert u[order[a]].start <= u[order[b]].start;
      Apart(mods, limit, order[a], order[b]);
    }
  }

  lemma MemberOf(order: seq<nat>, s: seq<nat>, k: nat) returns (p: nat)
    requires multiset(order) == multiset(s) && k < |order|
    ensures p < |s| && s[p] == order[k]
  {
    assert order[k] in multiset(s);
    p :| 0 <= p < |s| && s[p] == order[k];
  }

  /** Whatever the order of the header: with the targets handed out by ascending address, every target
      begins behind the data of its module. */
  lemma BehindInAnyOrder(mods: seq<Packed>, limit: nat, order: seq<nat>, s: seq<nat>, dest: nat, k: nat)
    requires PackedValid(mods, limit) && Sorts(mods, order, s) && BehindInHeader(mods, s, dest) && k < |order|
    ensures order[k] < |mods| && mods[order[k]].End() <= dest + Sum(Unpacked(mods), order[..k])
  {
    hide PageRound, Sum, BelowSum, PackedOne;
    SumBefore(mods, limit, order, s, k);
    var u, v := Unpacked(mods), mods[order[k]].m.start;
    var q := MemberOf(order, s, k);
    var p := FirstFrom(u, s, v, q);
    BelowSplit(u, s, p, v);
    BelowAll(u, s[..p], v);
    if s[p] != order[k] {
      Apart(mods, limit, order[k], s[p]);
    }
  }

  /* The first module in the header that does not start below `v`. */
  lemma {:induction false} FirstFrom(u: seq<Module>, s: seq<nat>, v: nat, q: nat) returns (p: nat)
    requires (forall k :: 0 <= k < |s| ==> s[k] < |u|) && q < |s| && v <= u[s[q]].start
    ensures p < |s| && v <= u[s[p]].start && forall k :: 0 <= k < p ==> u[s[k]].start < v
  {
    p := 0;
    while u[s[p]].start < v
      invariant 0 <= p <= q && forall k :: 0 <= k < p ==> u[s[k]].start < v
      decreases q - p
    {
      p := p + 1;
    }
  }

  /** And before the modules, every target ends before the data of its module. */
  lemma BeforeInAnyOrder(mods: seq<Packed>, limit: nat, order: seq<nat>, s: seq<nat>, dest: nat, k: nat)
    requires PackedValid(mods, limit) && Sorts(mods, order, s) && BeforeInHeader(mods, s, dest) && k < |order|
    ensures order[k] < |mods|
    ensures dest + Sum(Unpacked(mods), order[..k]) + mods[order[k]].unpacked <= mods[order[k]].m.start
  {
    hide PageRound, Sum, BelowSum, PackedOne, PageAligned;
    SumBefore(mods, limit, order, s, k);
    var u, x := Unpacked(mods), order[k];
    var v := mods[x].m.start;
    var q := MemberOf(order, s, k);
    var p := LastUpTo(u, s, v, q);
    var y := s[p];
    BelowSplit(u, s, p + 1, v + 1);
    BelowAll(u, s[..p + 1], v + 1);
    BelowAll(u, s[p + 1..], v + 1);
    SumNext(u, order, k);
    SumNext(u, s, p);
    assert PackedOne(mods[x], limit) && PackedOne(mods[y], limit);
    UnpackedRound(mods[x], limit);
    UnpackedRound(mods[y], limit);
    if y != x {
      Apart(mods, limit, y, x);
    }
  }

  lemma UnpackedRound(p: Packed, limit: nat)
    requires PackedOne(p, limit) && limit + PAGE <= TOP
    ensures p.unpacked <= PageRound(p.unpacked) < p.unpacked + PAGE && PageAligned(PageRound(p.unpacked))
  {
    PageRoundFacts(p.unpacked);
  }

  lemma {:induction false} LastUpTo(u: seq<Module>, s: seq<nat>, v: nat, q: nat) returns (p: nat)
    requires (forall k :: 0 <= k < |s| ==> s[k] < |u|) && q < |s| && u[s[q]].start <= v
    ensures p < |s| && u[s[p]].start <= v && forall k :: p < k < |s| ==> v < u[s[k]].start
  {
    p := |s| - 1;
    while v < u[s[p]].start
      invariant q <= p < |s| && forall k :: p < k < |s| ==> v < u[s[k]].start
      decreases p
    {
      p := p - 1;
    }
  }
}
