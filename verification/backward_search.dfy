/** The backward search for an aligned free block (`find_free_rev` in server/src/region.cc), round by round. */
module BackwardSearch {
  import opened Arithmetic
  import opened Regions
  import opened RegionLists
  import opened FreeSearch

  /** The differences of the backward search do not go below zero. */
  ghost predicate NoUnderflow(s: seq<Region>, area: Region, size: nat) {
    && size <= area.end + 1
    && forall i :: 0 <= i < |s| && s[i].Overlaps(area) ==> size <= s[i].begin
  }

  /** When the backward search is right: the differences stay in range, or there is a block to find. */
  ghost predicate RevSafe(s: seq<Region>, area: Region, size: nat, unit: nat)
    requires size > 0 && unit > 0
  {
    NoUnderflow(s, area, size) || exists a: nat :: FreeAt(s, area, size, unit, a)
  }

  /** The candidate the backward search derives from the last usable address. */
  function RevCandidate(end: nat, size: nat, unit: nat): nat
    requires unit > 0 && 0 < size <= TOP && end < TOP
  {
    TruncTo((end + TOP - (size - 1)) % TOP, unit)
  }

  /** The search with `end` as the last usable address; its answer; or its end in the assertion that a region
      does not end before it begins. */
  datatype Search = Upto(end: nat) | Answer(block: nat) | Stopped

  /** One round. */
  function RevRound(s: seq<Region>, area: Region, size: nat, unit: nat, c: Search): (r: Search)
    requires AllValid(s) && unit > 0 && 0 < size <= TOP && (c.Upto? ==> c.end < TOP)
    ensures r.Upto? ==> r.end < TOP
  {
    if !c.Upto? then c
    else
      var b := RevCandidate(c.end, size, unit);
      if b < area.begin then Answer(0)
      else if b > (b + size - 1) % TOP then Stopped
      else
        var i := FirstOverlap(s, Block(b, size));
        if i == |s| then Answer(b) else Upto((s[i].begin + TOP - 1) % TOP)
  }

  function RevRounds(s: seq<Region>, area: Region, size: nat, unit: nat, c: Search, n: nat): (r: Search)
    requires AllValid(s) && unit > 0 && 0 < size <= TOP && (c.Upto? ==> c.end < TOP)
    decreases n
  {
    if n == 0 then c else RevRounds(s, area, size, unit, RevRound(s, area, size, unit, c), n - 1)
  }

  lemma {:induction false} RevStop(s: seq<Region>, area: Region, size: nat, unit: nat, c: Search, n: nat)
    requires AllValid(s) && unit > 0 && 0 < size <= TOP && !c.Upto?
    ensures RevRounds(s, area, size, unit, c, n) == c
    decreases n
  {
    if n > 0 {
      RevStop(s, area, size, unit, c, n - 1);
    }
  }

  lemma RevNextRound(s: seq<Region>, area: Region, size: nat, unit: nat, end: nat, n: nat)
    requires AllValid(s) && unit > 0 && 0 < size <= TOP && end < TOP
    requires !RevRounds(s, area, size, unit, Upto(end), n).Upto?
    ensures n > 0
    ensures RevRounds(s, area, size, unit, Upto(end), n) ==
      RevRounds(s, area, size, unit, RevRound(s, area, size, unit, Upto(end)), n - 1)
  {
  }

  lemma StopsAbove(b: nat, size: nat)
    requires b < TOP && 0 < size <= TOP
    ensures b > (b + size - 1) % TOP <==> b + size > TOP
  {
  }

  /** The last usable address when the first `rem` addresses are left, in 64 bits: none is left below zero. */
  function Before(rem: nat): (end: nat)
    requires rem <= TOP
    ensures end < TOP && (rem > 0 ==> end == rem - 1) && (rem == 0 ==> end == TOP - 1)
  {
    (rem + TOP - 1) % TOP
  }

  /* ---- one round within the area ---- */

  /** No free block ends above the first `rem` addresses. */
  ghost predicate Bounded(s: seq<Region>, area: Region, size: nat, unit: nat, rem: nat)
    requires size > 0 && unit > 0
  {
    rem <= area.end + 1 && forall a: nat :: FreeAt(s, area, size, unit, a) ==> a + size <= rem
  }

  lemma RevCandidateMeaning(s: seq<Region>, area: Region, size: nat, unit: nat, rem: nat)
    requires 0 < size <= rem <= TOP && unit > 0 && Bounded(s, area, size, unit, rem)
    ensures var c := RevCandidate(rem - 1, size, unit);
      && c + size <= rem
      && (forall a: nat :: FreeAt(s, area, size, unit, a) ==> a <= c)
      && (c < area.begin ==> NoneFree(s, area, size, unit) && HighestFree(s, area, size, unit, 0))
      && (area.begin <= c && Clear(s, Block(c, size)) ==> HighestFree(s, area, size, unit, c))
  {
    TruncGreatest(rem - size, unit);
  }

  ghost predicate NoneFree(s: seq<Region>, area: Region, size: nat, unit: nat)
    requires size > 0 && unit > 0
  {
    forall a: nat :: !FreeAt(s, area, size, unit, a)
  }

  /* A region that overlaps the highest remaining candidate: the search goes on below it. */
  lemma BelowOverlap(s: seq<Region>, area: Region, size: nat, unit: nat, rem: nat, i: nat)
    requires 0 < size <= rem <= TOP && unit > 0 && Bounded(s, area, size, unit, rem)
    requires var c := RevCandidate(rem - 1, size, unit);
      area.begin <= c && i < |s| && s[i].Overlaps(Block(c, size))
    ensures s[i].begin < rem && s[i].Overlaps(area) && Bounded(s, area, size, unit, s[i].begin)
  {
    RevCandidateMeaning(s, area, size, unit, rem);
    forall a: nat | FreeAt(s, area, size, unit, a)
      ensures a + size <= s[i].begin
    {
      assert !s[i].Overlaps(Block(a, size));
    }
  }

  /* ---- the run downwards ---- */

  /** Where the search may stand: at the end of the area or in front of a region in it. */
  ghost predicate Stands(s: seq<Region>, area: Region, rem: nat) {
    rem == area.end + 1 || exists i :: 0 <= i < |s| && s[i].Overlaps(area) && rem == s[i].begin
  }

  lemma AllMissed(s: seq<Region>, b: Region)
    requires FirstOverlap(s, b) == |s|
    ensures Clear(s, b)
  {
  }

  ghost predicate GoesOn(s: seq<Region>, area: Region, size: nat, unit: nat, rem: nat, next: nat)
    requires size > 0 && unit > 0
  {
    next < rem && Stands(s, area, next) && Bounded(s, area, size, unit, next)
  }

  /** One round with room for a block: a right answer, or the search goes on further down. */
  lemma RevRoundDown(s: seq<Region>, area: Region, size: nat, unit: nat, rem: nat)
    requires AllValid(s) && area.Valid() && unit > 0 && 0 < size <= rem <= TOP && Bounded(s, area, size, unit, rem)
    ensures var r := RevRound(s, area, size, unit, Upto(Before(rem)));
      match r
      case Upto(end) => exists next: nat :: GoesOn(s, area, size, unit, rem, next) && end == Before(next)
      case Answer(b) => HighestFree(s, area, size, unit, b)
      case Stopped => false
  {
    hide FreeAt, HighestFree, RevCandidate, FirstOverlap, Clear, Bounded;
    var c := RevCandidate(rem - 1, size, unit);
    RevCandidateMeaning(s, area, size, unit, rem);
    StopsAbove(c, size);
    var i := FirstOverlap(s, Block(c, size));
    if area.begin <= c && i == |s| {
      AllMissed(s, Block(c, size));
    } else if area.begin <= c {
      BelowOverlap(s, area, size, unit, rem, i);
      assert GoesOn(s, area, size, unit, rem, s[i].begin);
    }
  }

  /** Whatever the list and the area: the search runs downwards to a right answer, or until less than the size
      of a block is left, and then nothing is free. */
  lemma {:induction false} RevDescends(s: seq<Region>, area: Region, size: nat, unit: nat, rem: nat)
    returns (n: nat, last: nat)
    requires AllValid(s) && area.Valid() && unit > 0 && 0 < size < TOP && rem <= TOP
    requires Bounded(s, area, size, unit, rem) && Stands(s, area, rem)
    ensures last <= rem && Stands(s, area, last)
    ensures var r := RevRounds(s, area, size, unit, Upto(Before(rem)), n);
      if last < size then r == Upto(Before(last)) && NoneFree(s, area, size, unit)
      else r.Answer? && HighestFree(s, area, size, unit, r.block)
    decreases rem
  {
    hide AllValid, HighestFree, RevRound, Before, Stands;
    if rem < size {
      n, last := 0, rem;
    } else {
      RevRoundDown(s, area, size, unit, rem);
      hide Bounded;
      var r := RevRound(s, area, size, unit, Upto(Before(rem)));
      if r.Upto? {
        var next: nat :| GoesOn(s, area, size, unit, rem, next) && r.end == Before(next);
        n, last := RevDescends(s, area, size, unit, next);
        n := n + 1;
      } else {
        n, last := 1, rem;
        assert RevRounds(s, area, size, unit, r, 0) == r;
      }
    }
  }

  lemma SearchStart(s: seq<Region>, area: Region, size: nat, unit: nat)
    requires size > 0 && unit > 0 && area.Valid()
    ensures Bounded(s, area, size, unit, area.end + 1) && Stands(s, area, area.end + 1)
    ensures Before(area.end + 1) == area.end
  {
  }

  /** When the differences stay in range, or there is a block to find, the search ends with the right answer. */
  lemma RevEnds(s: seq<Region>, area: Region, size: nat, unit: nat) returns (n: nat)
    requires AllValid(s) && area.Valid() && unit > 0 && 0 < size < TOP && RevSafe(s, area, size, unit)
    ensures var r := RevRounds(s, area, size, unit, Upto(area.end), n);
      r.Answer? && HighestFree(s, area, size, unit, r.block)
  {
    hide FreeAt, HighestFree, RevRounds, Bounded;
    SearchStart(s, area, size, unit);
    var last;
    n, last := RevDescends(s, area, size, unit, area.end + 1);
  }

  /* ---- below zero ---- */

  /** When less than `size` bytes are left, the candidate lies near the top: its block reaches beyond the top
      if a unit is left, and otherwise it ends right there. */
  lemma UnderflowExact(rem: nat, size: nat, unit: nat)
    requires unit > 0 && rem < size < TOP && TOP % unit == 0 && size % unit == 0
    ensures RevCandidate(Before(rem), size, unit) + size > TOP <==> unit <= rem
    ensures rem < unit ==> RevCandidate(Before(rem), size, unit) == TOP - size
    ensures TOP - size <= RevCandidate(Before(rem), size, unit) < TOP
  {
    var w := rem + TOP - size;
    WrapsTo(rem, size);
    TruncGreatest(w, unit);
    MultipleMinus(TOP, size, unit);
    var t, c := TOP - size, RevCandidate(Before(rem), size, unit);
    assert c == TruncTo(w, unit);
    hide TruncTo, Before;
    if c > t {
      NoMultipleBetween(t, c, unit);
    }
    if unit <= rem {
      MultipleNext(unit, t);
    }
  }

  lemma WrapsTo(rem: nat, size: nat)
    requires rem < size < TOP
    ensures (Before(rem) + TOP - (size - 1)) % TOP == rem + TOP - size
  {
  }

  /** What the search does with less than `size` bytes left, wherever it stands: it stops in the assertion
      exactly if a unit is left. If not, a free block at the very top is the answer, although it is no free
      block of the area; and if that one is not free, the search goes on from the top. */
  lemma UnderflowEscapes(s: seq<Region>, area: Region, size: nat, unit: nat, rem: nat)
    requires AllValid(s) && area.Valid() && unit > 0 && TOP % unit == 0 && size % unit == 0
    requires rem < size < TOP && size + area.begin <= TOP && Bounded(s, area, size, unit, rem)
    ensures var r := RevRound(s, area, size, unit, Upto(Before(rem)));
      && (r == Stopped <==> unit <= rem)
      && (r == Answer(TOP - size) <==> rem < unit && Clear(s, Block(TOP - size, size)))
      && (r.Upto? <==> rem < unit && !Clear(s, Block(TOP - size, size)))
      && NoneFree(s, area, size, unit)
  {
    UnderflowExact(rem, size, unit);
    hide RevCandidate, Before;
    StopsAbove(RevCandidate(Before(rem), size, unit), size);
    hide FirstOverlap;
    var i := FirstOverlap(s, Block(TOP - size, size));
    assert i < |s| ==> !Clear(s, Block(TOP - size, size)) by {
      if i < |s| { NotClear(s, Block(TOP - size, size), i); }
    }
    assert i == |s| ==> Clear(s, Block(TOP - size, size)) by {
      if i == |s| { AllMissed(s, Block(TOP - size, size)); }
    }
  }

  /** The outcome of every search with a unit that divides the address space, by the last place where it
      stands: with room for a block, the right answer; with room for a unit, the assertion, and nothing is
      free; with less, nothing is free, but the search goes on at the top of the address space, and answers
      with the block there if no region overlaps it. */
  lemma RevExact(s: seq<Region>, area: Region, size: nat, unit: nat) returns (n: nat, last: nat)
    requires AllValid(s) && area.Valid() && unit > 0 && TOP % unit == 0 && size % unit == 0
    requires 0 < size < TOP && size + area.begin <= TOP
    ensures Stands(s, area, last)
    ensures var r := RevRounds(s, area, size, unit, Upto(area.end), n);
      && (size <= last ==> r.Answer? && HighestFree(s, area, size, unit, r.block))
      && (last < size ==> NoneFree(s, area, size, unit) && (r == Stopped <==> unit <= last))
      && (last < size && last < unit ==>
        if Clear(s, Block(TOP - size, size)) then r == Answer(TOP - size) else r.Upto?)
  {
    hide FreeAt, HighestFree, RevRounds, RevRound, Clear, Stands, Before;
    SearchStart(s, area, size, unit);
    n, last := RevDescends(s, area, size, unit, area.end + 1);
    if last < size {
      StandsLow(s, area, size, unit, last);
      UnderflowEscapes(s, area, size, unit, last);
      RoundMore(s, area, size, unit, Upto(area.end), n);
      n := n + 1;
    }
  }

  lemma StandsLow(s: seq<Region>, area: Region, size: nat, unit: nat, rem: nat)
    requires AllValid(s) && area.Valid() && unit > 0 && 0 < size && NoneFree(s, area, size, unit)
    requires Stands(s, area, rem)
    ensures Bounded(s, area, size, unit, rem)
  {
    hide FreeAt;
  }

  lemma {:induction false} RoundMore(s: seq<Region>, area: Region, size: nat, unit: nat, c: Search, n: nat)
    requires AllValid(s) && unit > 0 && 0 < size <= TOP && (c.Upto? ==> c.end < TOP)
    ensures var r := RevRounds(s, area, size, unit, c, n);
      (r.Upto? ==> r.end < TOP) && RevRounds(s, area, size, unit, c, n + 1) == RevRound(s, area, size, unit, r)
    decreases n
  {
    hide RevRound;
    if n > 0 {
      RoundMore(s, area, size, unit, RevRound(s, area, size, unit, c), n - 1);
    } else {
      var d := RevRound(s, area, size, unit, c);
      assert RevRounds(s, area, size, unit, d, 0) == d;
    }
  }

  /** A unit that divides the address space and fits below all places where the search can stand. */
  ghost predicate Coarse(s: seq<Region>, area: Region, size: nat, unit: nat)
    requires unit > 0
  {
    && TOP % unit == 0 && size % unit == 0 && unit <= area.end + 1
    && forall i :: 0 <= i < |s| && s[i].Overlaps(area) ==> unit <= s[i].begin
  }

  /** Then no answer is wrong: the search ends, in the assertion only if nothing is free. */
  lemma RevNeverWrong(s: seq<Region>, area: Region, size: nat, unit: nat) returns (n: nat)
    requires AllValid(s) && area.Valid() && unit > 0 && 0 < size < TOP && Coarse(s, area, size, unit)
    ensures var r := RevRounds(s, area, size, unit, Upto(area.end), n);
      match r
      case Upto(_) => false
      case Answer(b) => HighestFree(s, area, size, unit, b)
      case Stopped => NoneFree(s, area, size, unit)
  {
    hide FreeAt, HighestFree, RevRounds, RevCandidate, Before, Bounded;
    SearchStart(s, area, size, unit);
    var last;
    n, last := RevDescends(s, area, size, unit, area.end + 1);
    if last < size {
      UnderflowExact(last, size, unit);
      StopsAbove(RevCandidate(Before(last), size, unit), size);
      RoundMore(s, area, size, unit, Upto(area.end), n);
      NoneIsZero(s, area, size, unit);
      n := n + 1;
    }
  }

  lemma NoneIsZero(s: seq<Region>, area: Region, size: nat, unit: nat)
    requires size > 0 && unit > 0 && NoneFree(s, area, size, unit)
    ensures HighestFree(s, area, size, unit, 0)
  {
  }

  /** For example, a page is asked for in an area that ends below the first page. */
  lemma EscapesFirstPage()
    ensures var area := Plain(0x80, 0x100);
      RevRound([], area, 0x1000, 0x1000, Upto(area.end)) == Answer(TOP - 0x1000) && TOP - 0x1000 > area.end
  {
    var area := Plain(0x80, 0x100);
    SearchStart([], area, 0x1000, 0x1000);
    UnderflowEscapes([], area, 0x1000, 0x1000, 0x101);
  }

  /** Or a page in an area that a region from address zero on covers: the search goes on in front of that
      region, below zero. */
  lemma EscapesBelowZero()
    ensures var s, area := [Plain(0, 0x1fff)], Plain(8, 0x1fff);
      && RevRounds(s, area, 0x1000, 0x1000, Upto(area.end), 2) == Answer(TOP - 0x1000) && TOP - 0x1000 > area.end
  {
    var s, area := [Plain(0, 0x1fff)], Plain(8, 0x1fff);
    assert !FreeAt(s, area, 0x1000, 0x1000, 0);
    SearchStart(s, area, 0x1000, 0x1000);
    RevCandidateMeaning(s, area, 0x1000, 0x1000, 0x2000);
    assert RevCandidate(0x1fff, 0x1000, 0x1000) == 0x1000;
    BelowOverlap(s, area, 0x1000, 0x1000, 0x2000, 0);
    assert FirstOverlap(s, Block(0x1000, 0x1000)) == 0;
    assert RevRound(s, area, 0x1000, 0x1000, Upto(0x1fff)) == Upto(Before(0));
    UnderflowEscapes(s, area, 0x1000, 0x1000, 0);
    RoundMore(s, area, 0x1000, 0x1000, Upto(0x1fff), 1);
    RoundMore(s, area, 0x1000, 0x1000, Upto(0x1fff), 0);
  }
}
