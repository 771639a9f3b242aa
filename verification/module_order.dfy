/** Boot modules in the order of their addresses (`mod_sorter` and `calc_modules_size` in
    server/src/boot_modules.cc). */
module ModuleOrder {
  import opened Regions
  import opened FreeSearch

  /** A boot module, and the attributes of the region that reserves it. */
  datatype Module = Module(start: nat, size: nat, name: nat, kind: Kind, sub: nat) {
    /* The region of the module at address `a`. */
    function At(a: nat): Region
      requires size > 0
    {
      Region(a, a + size - 1, name, kind, sub, false)
    }
  }

  function PageRound(x: nat): nat { RoundTo(x, PAGE) }

  predicate PageAligned(x: nat) { x % PAGE == 0 }

  lemma PageRoundFacts(x: nat)
    requires x + PAGE <= TOP
    ensures x <= PageRound(x) < x + PAGE && PageAligned(PageRound(x))
  {
    RoundLeast(x, PAGE);
  }

  lemma AlignedZero()
    ensures PageAligned(0)
  {
  }

  lemma AtLeastOnePage(x: nat)
    requires PageAligned(x) && 0 < x
    ensures PAGE <= x
  {
  }

  lemma AlignedIsRounded(x: nat)
    requires PageAligned(x) && x + PAGE <= TOP
    ensures RoundTo(x, PAGE) == x
  {
    RoundLeast(x, PAGE);
  }

  /* Sums and differences of whole pages. */
  lemma PageSteps(a: nat, b: nat)
    requires PageAligned(a) && PageAligned(b)
    ensures PageAligned(a + b) && (b <= a ==> PageAligned(a - b))
  {
  }

  /* Multiples of the page size less than a page apart are the same. */
  lemma AlignedClose(a: nat, b: nat)
    requires PageAligned(a) && PageAligned(b) && a - PAGE < b < a + PAGE
    ensures a == b
  {
  }

  lemma PageRoundAdd(base: nat, x: nat)
    requires PageAligned(base) && x + PAGE <= TOP && base + x + PAGE <= TOP
    ensures PageRound(base + x) == base + PageRound(x)
  {
    PageRoundFacts(x);
    PageRoundFacts(base + x);
    hide PageRound, PageAligned;
    PageSteps(base, PageRound(x));
    AlignedClose(PageRound(base + x), base + PageRound(x));
  }

  /** The bytes that the modules named by `s` take up, each on pages of its own. */
  ghost function Sum(mods: seq<Module>, s: seq<nat>): nat
    requires forall k :: 0 <= k < |s| ==> s[k] < |mods|
  {
    if s == [] then 0 else Sum(mods, s[..|s| - 1]) + PageRound(mods[s[|s| - 1]].size)
  }

  lemma {:induction false} SumConcat(mods: seq<Module>, s: seq<nat>, t: seq<nat>)
    requires forall k :: 0 <= k < |s| ==> s[k] < |mods|
    requires forall k :: 0 <= k < |t| ==> t[k] < |mods|
    ensures Sum(mods, s + t) == Sum(mods, s) + Sum(mods, t)
  {
    if t == [] {
      assert s + t == s;
    } else {
      var u := t[..|t| - 1];
      SumConcat(mods, s, u);
      assert (s + t)[..|s + t| - 1] == s + u;
    }
  }

  lemma SumNext(mods: seq<Module>, s: seq<nat>, k: nat)
    requires (forall i :: 0 <= i < |s| ==> s[i] < |mods|) && k < |s|
    ensures Sum(mods, s[..k + 1]) == Sum(mods, s[..k]) + PageRound(mods[s[k]].size)
  {
    assert s[..k + 1][..k] == s[..k];
  }

  lemma {:induction false} SumGrows(mods: seq<Module>, s: seq<nat>, j: nat, k: nat)
    requires (forall i :: 0 <= i < |s| ==> s[i] < |mods|) && j <= k <= |s|
    ensures Sum(mods, s[..j]) <= Sum(mods, s[..k])
    decreases k - j
  {
    if j < k {
      SumNext(mods, s, j);
      SumGrows(mods, s, j + 1, k);
    }
  }

  /* ---- the sorter ---- */

  /** Where a module goes: before the first one that starts above it. */
  function Position(mods: seq<Module>, s: seq<nat>, v: nat): (p: nat)
    requires v < |mods| && forall k :: 0 <= k < |s| ==> s[k] < |mods|
    ensures p <= |s|
  {
    if s == [] || mods[v].start < mods[s[0]].start then 0 else 1 + Position(mods, s[1..], v)
  }

  lemma {:induction false} PositionIs(mods: seq<Module>, s: seq<nat>, v: nat, p: nat)
    requires v < |mods| && (forall k :: 0 <= k < |s| ==> s[k] < |mods|) && p <= |s|
    requires forall k :: 0 <= k < p ==> mods[s[k]].start <= mods[v].start
    requires p < |s| ==> mods[v].start < mods[s[p]].start
    ensures Position(mods, s, v) == p
  {
    if p > 0 {
      PositionIs(mods, s[1..], v, p - 1);
    }
  }

  function OrderInsert(mods: seq<Module>, s: seq<nat>, v: nat): seq<nat>
    requires v < |mods| && forall k :: 0 <= k < |s| ==> s[k] < |mods|
  {
    var p := Position(mods, s, v);
    s[..p] + [v] + s[p..]
  }

  ghost predicate Ascending(mods: seq<Module>, s: seq<nat>) {
    && (forall k :: 0 <= k < |s| ==> s[k] < |mods|)
    && (forall i, j :: 0 <= i < j < |s| ==> mods[s[i]].start <= mods[s[j]].start)
  }

  /** Insertion keeps the order by start address, adds exactly the one index, and its size. */
  lemma InsertionKeepsOrder(mods: seq<Module>, s: seq<nat>, v: nat)
    requires Ascending(mods, s) && v < |mods|
    ensures var t := OrderInsert(mods, s, v);
      Ascending(mods, t) && multiset(t) == multiset(s) + multiset{v} &&
        Sum(mods, t) == Sum(mods, s) + PageRound(mods[v].size)
  {
    PositionSplits(mods, s, v);
    hide Position, Sum, PageRound;
    var p := Position(mods, s, v);
    InsertionAscends(mods, s, v, p);
    hide Ascending;
    InsertionSum(mods, s, v, p);
    assert s == s[..p] + s[p..];
  }

  lemma InsertionAscends(mods: seq<Module>, s: seq<nat>, v: nat, p: nat)
    requires Ascending(mods, s) && v < |mods| && p <= |s|
    requires forall k :: 0 <= k < p ==> mods[s[k]].start <= mods[v].start
    requires forall k :: p <= k < |s| ==> mods[v].start < mods[s[k]].start
    ensures Ascending(mods, s[..p] + [v] + s[p..])
  {
    var t := s[..p] + [v] + s[p..];
    forall i, j | 0 <= i < j < |t|
      ensures mods[t[i]].start <= mods[t[j]].start
    {
      var a, b := if i < p then i else i - 1, if j < p then j else j - 1;
      assert i != p ==> t[i] == s[a];
      assert j != p ==> t[j] == s[b];
    }
  }

  lemma InsertionSum(mods: seq<Module>, s: seq<nat>, v: nat, p: nat)
    requires (forall k :: 0 <= k < |s| ==> s[k] < |mods|) && v < |mods| && p <= |s|
    ensures Sum(mods, s[..p] + [v] + s[p..]) == Sum(mods, s) + PageRound(mods[v].size)
  {
    assert s == s[..p] + s[p..];
    assert [v][..0] == [];
    assert Sum(mods, [v]) == PageRound(mods[v].size);
    hide Sum, PageRound;
    SumConcat(mods, s[..p], s[p..]);
    SumConcat(mods, s[..p], [v]);
    SumConcat(mods, s[..p] + [v], s[p..]);
  }

  lemma {:induction false} PositionSplits(mods: seq<Module>, s: seq<nat>, v: nat)
    requires Ascending(mods, s) && v < |mods|
    ensures var p := Position(mods, s, v);
      && (forall k :: 0 <= k < p ==> mods[s[k]].start <= mods[v].start)
      && (forall k :: p <= k < |s| ==> mods[v].start < mods[s[k]].start)
  {
    if s != [] && mods[v].start >= mods[s[0]].start {
      PositionSplits(mods, s[1..], v);
    }
  }

  /** All modules below `n`, each once, in ascending order of their start addresses. */
  ghost predicate IsOrder(mods: seq<Module>, s: seq<nat>, n: nat) {
    && n <= |mods| && Ascending(mods, s) && |s| == n
    && multiset(s) == multiset(Indices(n))
  }

  ghost function Indices(n: nat): (s: seq<nat>)
    ensures |s| == n && forall i :: 0 <= i < n ==> s[i] == i
  {
    seq(n, i => i)
  }

  lemma OrderNone(mods: seq<Module>)
    ensures IsOrder(mods, [], 0) && Sum(mods, []) == 0
  {
    assert Indices(0) == [];
  }

  lemma OrderNext(mods: seq<Module>, s: seq<nat>, n: nat)
    requires IsOrder(mods, s, n) && n < |mods|
    ensures IsOrder(mods, OrderInsert(mods, s, n), n + 1)
    ensures Sum(mods, OrderInsert(mods, s, n)) == Sum(mods, s) + PageRound(mods[n].size)
  {
    InsertionKeepsOrder(mods, s, n);
    assert Indices(n + 1) == Indices(n) + [n];
  }

  lemma SumPrefix(mods: seq<Module>, n: nat)
    requires n < |mods|
    ensures Sum(mods, Indices(n + 1)) == Sum(mods, Indices(n)) + PageRound(mods[n].size)
  {
    assert Indices(n + 1)[..n] == Indices(n);
  }

  lemma OrderMember(mods: seq<Module>, s: seq<nat>, n: nat, i: nat)
    requires IsOrder(mods, s, n)
    ensures i in s <==> i < n
  {
    assert i in s <==> multiset(s)[i] > 0;
    assert i in Indices(n) <==> multiset(Indices(n))[i] > 0;
    if i < n { assert Indices(n)[i] == i; }
  }

  lemma OrderDistinct(mods: seq<Module>, s: seq<nat>, n: nat, i: nat, j: nat)
    requires IsOrder(mods, s, n) && i < j < n
    ensures s[i] != s[j]
  {
    var v := s[i];
    OrderMember(mods, s, n, v);
    IndexOnce(n, v);
    if s[j] == v {
      TwiceCounts(s, i, j);
    }
  }

  lemma IndexOnce(n: nat, v: nat)
    requires v < n
    ensures multiset(Indices(n))[v] == 1
  {
    var a: seq<nat> := Indices(n)[..v];
    var b: seq<nat> := Indices(n)[v + 1..];
    assert Indices(n) == a + [v] + b;
    assert v !in a && v !in b;
    assert multiset(a)[v] == 0 && multiset(b)[v] == 0;
  }

  lemma TwiceCounts(s: seq<nat>, i: nat, j: nat)
    requires i < j < |s| && s[i] == s[j]
    ensures multiset(s)[s[i]] >= 2
  {
    assert s == s[..i] + [s[i]] + s[i + 1..j] + [s[j]] + s[j + 1..];
  }

  class ModuleSorter {
    const slots: array<nat>
    var len: nat

    ghost predicate Valid()
      reads this, slots
    {
      slots.Length == 256 && len <= 256
    }

    ghost function Contents(): seq<nat>
      reads this, slots
      requires Valid()
    {
      slots[..len]
    }

    constructor ()
      ensures Valid() && Contents() == [] && fresh(slots)
    {
      slots := new nat[256];
      len := 0;
    }

    /* The `memmove` that makes room, and the store. */
    method InsertAt(i: nat, v: nat)
      requires Valid() && i <= len < slots.Length
      modifies this`len, slots
      ensures Valid() && Contents() == old(Contents())[..i] + [v] + old(Contents())[i..]
    {
      ghost var s := Contents();
      forall k | i < k <= len {
        slots[k] := slots[k - 1];
      }
      slots[i] := v;
      len := len + 1;
      assert Contents() == s[..i] + [v] + s[i..];
    }

    /** Insert an index; false when the program panics because the sorter is full. */
    method InsertSorted(mods: seq<Module>, v: nat) returns (ok: bool)
      requires Valid() && v < |mods| && forall k :: 0 <= k < len ==> slots[k] < |mods|
      modifies this, slots
      ensures Valid() && ok == (old(len) < 256)
      ensures ok ==> Contents() == OrderInsert(mods, old(Contents()), v)
    {
      hide Position;
      if len >= slots.Length {
        return false;
      }
      ghost var s := Contents();
      var i := 0;
      while i < len && !(mods[v].start < mods[slots[i]].start)
        invariant i <= len && forall k :: 0 <= k < i ==> mods[slots[k]].start <= mods[v].start
      {
        i := i + 1;
      }
      PositionIs(mods, s, v, i);
      InsertAt(i, v);
      return true;
    }
  }
}
