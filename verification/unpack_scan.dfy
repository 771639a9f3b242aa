/** The scan over the header of the boot image for a target next to the modules (the loop in
    `decompress_mods`, server/src/boot_modules.cc), on values. */
module UnpackScan {
  import opened Regions
  import opened FreeSearch
  import opened MemoryManager
  import opened ModuleOrder
  import opened UnpackPlans
  import opened UnpackModules

  /** No page-aligned target from `r0` on that all modules in `s` allow is lower. */
  ghost predicate Nearest(mods: seq<Packed>, s: seq<nat>, r0: nat, rdest: nat) {
    forall d: nat :: r0 <= d && PageAligned(d) && BehindInHeader(mods, s, d) ==> rdest <= d
  }

  /** No page-aligned target up to `l0` that all modules in `s` allow is higher; zero if there is none. */
  ghost predicate Closest(mods: seq<Packed>, s: seq<nat>, l0: nat, ldest: nat) {
    forall d: nat :: 0 < d <= l0 && PageAligned(d) && BeforeInHeader(mods, s, d) ==> d <= ldest
  }

  /** The target behind the modules, after the first `i` entries of the header: every module seen so
      far allows it, and `rpos` is where the next one would go. */
  ghost predicate BehindScan(mods: seq<Packed>, i: nat, r0: nat, rpos: nat, rdest: nat) {
    && i <= |mods| && PageAligned(rdest) && Nearest(mods, NonBase(mods, i), r0, rdest)
    && BehindInHeader(mods, NonBase(mods, i), rdest)
    && rpos == rdest + Sum(Unpacked(mods), NonBase(mods, i))
  }

  /** The same for the target before the modules, unless it was given up. */
  ghost predicate BeforeScan(mods: seq<Packed>, i: nat, l0: nat, lpos: nat, ldest: nat) {
    && i <= |mods| && PageAligned(ldest) && Closest(mods, NonBase(mods, i), l0, ldest)
    && (ldest != 0 ==>
      && BeforeInHeader(mods, NonBase(mods, i), ldest)
      && lpos == ldest + Sum(Unpacked(mods), NonBase(mods, i)))
  }

  lemma ScanStart(mods: seq<Packed>, r0: nat, l0: nat, limit: nat, regions: seq<Region>)
    requires Sorted(regions) && PageAligned(r0)
    ensures BehindScan(mods, 0, r0, r0, r0) && FrontScan(mods, 0, l0, Front(l0, l0), limit)
    ensures WithoutModules(regions, regions, NonBase(mods, 0))
  {
    hide PageAligned;
  }

  lemma ScanSkip(mods: seq<Packed>, i: nat, r0: nat, rpos: nat, rdest: nat, l0: nat, c: Front, limit: nat)
    requires i < |mods| && mods[i].base && BehindScan(mods, i, r0, rpos, rdest) && FrontScan(mods, i, l0, c, limit)
    ensures BehindScan(mods, i + 1, r0, rpos, rdest) && FrontScan(mods, i + 1, l0, c, limit)
  {
    hide NonBase, Sum, PageAligned, PageRound, BehindInHeader, BeforeInHeader, StaysHigh, Closest, Nearest;
    NonBaseNext(mods, i);
  }

  lemma ScanEnd(mods: seq<Packed>, r0: nat, rpos: nat, rdest: nat)
    requires BehindScan(mods, |mods|, r0, rpos, rdest)
    ensures Nearest(mods, NonBase(mods, |mods|), r0, rdest)
    ensures PageAligned(rdest) && BehindInHeader(mods, NonBase(mods, |mods|), rdest)
  {
    hide NonBase, Sum, PageAligned, BehindInHeader;
  }

  lemma ScanSafe(mods: seq<Packed>, i: nat, limit: nat)
    requires PackedValid(mods, limit) && i < |mods|
    ensures mods[i].End() <= PageRound(mods[i].End())
  {
    hide NonBase, Sum, PageAligned, PageRound;
    OneFacts(mods, i, limit);
    PageRoundFacts(mods[i].End());
  }

  lemma OneFacts(mods: seq<Packed>, i: nat, limit: nat)
    requires PackedValid(mods, limit) && i < |mods|
    ensures mods[i].End() <= limit && 0 < mods[i].unpacked <= limit && mods[i].m.start < mods[i].End()
    ensures limit + PAGE <= TOP && PackedOne(mods[i], limit)
  {
    assert PackedOne(mods[i], limit);
  }

  lemma {:induction false} SumOfNonBase(mods: seq<Packed>, i: nat, n: nat)
    requires i <= n <= |mods|
    ensures Sum(Unpacked(mods), NonBase(mods, i)) <= Sum(Unpacked(mods), NonBase(mods, n))
    decreases n - i
  {
    hide NonBase, Sum, PageRound;
    if i < n {
      NonBaseNext(mods, i);
      if !mods[i].base {
        SumAdd(Unpacked(mods), NonBase(mods, i), i);
      }
      SumOfNonBase(mods, i + 1, n);
    }
  }

  lemma {:induction false} SumAligned(mods: seq<Packed>, limit: nat, n: nat)
    requires PackedValid(mods, limit) && n <= |mods|
    ensures PageAligned(Sum(Unpacked(mods), NonBase(mods, n)))
  {
    hide Sum, NonBase, PageRound, PageAligned, PackedValid, PackedOne;
    if n == 0 {
      NothingSummed(mods);
    } else {
      SumAligned(mods, limit, n - 1);
      NonBaseNext(mods, n - 1);
      OneFacts(mods, n - 1, limit);
      UnpackedRound(mods[n - 1], limit);
      if !mods[n - 1].base {
        SumAdd(Unpacked(mods), NonBase(mods, n - 1), n - 1);
        PageSteps(Sum(Unpacked(mods), NonBase(mods, n - 1)), PageRound(mods[n - 1].unpacked));
      }
    }
  }

  lemma NothingSummed(mods: seq<Packed>)
    ensures PageAligned(Sum(Unpacked(mods), NonBase(mods, 0)))
  {
  }

  /* One module further, behind. */
  lemma BehindStep(mods: seq<Packed>, i: nat, r0: nat, rpos: nat, rdest: nat, rpos1: nat, rdest1: nat, limit: nat)
    requires PackedValid(mods, limit) && i < |mods| && !mods[i].base && rdest <= limit + PAGE && limit <= SAFE
    requires BehindScan(mods, i, r0, rpos, rdest)
    requires var delta := if rpos < mods[i].End() then PageRound(mods[i].End()) - rpos else 0;
      rdest1 == rdest + delta && rpos1 == rpos + delta + PageRound(mods[i].unpacked)
    ensures rdest <= rdest1 <= limit + PAGE && BehindScan(mods, i + 1, r0, rpos1, rdest1)
  {
    hide NonBase, Sum, PageAligned, PageRound, PackedValid, BehindInHeader, PackedOne;
    var s := NonBase(mods, i);
    var sum := Sum(Unpacked(mods), s);
    OneFacts(mods, i, limit);
    NonBaseNext(mods, i);
    SumAligned(mods, limit, i);
    PageRoundFacts(mods[i].End());
    PageSteps(PageRound(mods[i].End()), sum);
    BehindNext(mods, s, i, rdest, rdest1);
    SumAdd(Unpacked(mods), s, i);
    NearestStep(mods, s, i, r0, rdest, rdest1);
  }

  /* One module further, before. */
  lemma BeforeStep(mods: seq<Packed>, i: nat, l0: nat, lpos: nat, ldest: nat, lpos1: nat, ldest1: nat, limit: nat)
    requires PackedValid(mods, limit) && i < |mods| && !mods[i].base && BeforeScan(mods, i, l0, lpos, ldest)
    requires lpos + mods[i].unpacked + PAGE <= TOP + mods[i].m.start
    requires if ldest != 0 && lpos + mods[i].unpacked > mods[i].m.start then
        var delta := PageRound(lpos + mods[i].unpacked - mods[i].m.start);
        if ldest > delta then ldest1 == ldest - delta && lpos1 == lpos - delta + PageRound(mods[i].unpacked)
          else ldest1 == 0
      else ldest1 == ldest && (ldest != 0 ==> lpos1 == lpos + PageRound(mods[i].unpacked))
    ensures ldest1 <= ldest && BeforeScan(mods, i + 1, l0, lpos1, ldest1)
    ensures ldest1 != 0 ==> ldest1 + mods[i].unpacked <= mods[i].m.start
  {
    hide NonBase, Sum, PageAligned, PageRound, PackedValid, BeforeInHeader, PackedOne;
    var s := NonBase(mods, i);
    AlignedZero();
    OneFacts(mods, i, limit);
    NonBaseNext(mods, i);
    SumAdd(Unpacked(mods), s, i);
    if ldest != 0 && lpos + mods[i].unpacked > mods[i].m.start {
      PageRoundFacts(lpos + mods[i].unpacked - mods[i].m.start);
      if ldest1 != 0 {
        PageSteps(ldest, PageRound(lpos + mods[i].unpacked - mods[i].m.start));
        BeforeNext(mods, s, i, ldest, ldest1);
      }
    } else if ldest != 0 {
      BeforeNext(mods, s, i, ldest, ldest1);
    }
    ClosestStep(mods, s, i, l0, ldest, ldest1);
  }

  /* ---- the target before the modules, in 64 bits ---- */

  /** The start of the search before the modules: one unpacked first module in front of the first
      module, in 64 bits. */
  function BeforeStart(start: nat, unpacked: nat): nat {
    TruncTo(Wrap(start - unpacked), PAGE)
  }

  /** A sum or difference in 64 bits. */
  function Wrap(x: int): nat { x % TOP }

  lemma WrapOnce(x: int)
    ensures 0 <= x < TOP ==> Wrap(x) == x
    ensures x < 0 <= x + TOP ==> Wrap(x) == x + TOP
    ensures TOP <= x < 2 * TOP ==> Wrap(x) == x - TOP
  {
  }

  /** The first module, unpacked there, ends before its data exactly when the subtraction does not go
      below zero; otherwise it would end at the same place beyond the top. */
  lemma BeforeStartExact(start: nat, unpacked: nat)
    requires start + PAGE < SAFE && 0 < unpacked && unpacked + PAGE < SAFE
    ensures BeforeStart(start, unpacked) + unpacked <= start <==> unpacked <= start
    ensures PageAligned(BeforeStart(start, unpacked))
    ensures unpacked <= start ==> BeforeStart(start, unpacked) <= start
    ensures start < unpacked ==> TOP - SAFE <= BeforeStart(start, unpacked) < TOP
    ensures start < unpacked && PageAligned(start) ==> BeforeStart(start, unpacked) + PageRound(unpacked) == TOP + start
  {
    var l := BeforeStart(start, unpacked);
    WrapOnce(start - unpacked);
    TruncGreatest(Wrap(start - unpacked), PAGE);
    TruncAligned(Wrap(start - unpacked));
    PageRoundFacts(unpacked);
    hide Wrap, TruncTo, PageRound, PageAligned;
    if start < unpacked && PageAligned(start) {
      PageSteps(l, PageRound(unpacked));
      AlignedTop(start);
      AlignedClose(l + PageRound(unpacked), TOP + start);
    }
  }

  lemma TruncAligned(x: nat)
    ensures PageAligned(TruncTo(x, PAGE))
  {
    TruncGreatest(x, PAGE);
  }

  lemma AlignedTop(a: nat)
    requires PageAligned(a)
    ensures PageAligned(TOP + a)
  {
  }

  /** The target and the place of the next module during the scan. */
  datatype Front = Front(dest: nat, pos: nat)

  /** One more module in 64 bits: when it would end behind the start of its own data, the target moves
      down, or is given up. */
  function FrontNext(c: Front, start: nat, unpacked: nat): Front {
    var last := Wrap(c.pos + unpacked);
    var moved :=
      if c.dest == 0 || last <= start then c
      else if PageRound(last - start) < c.dest then
        Front(c.dest - PageRound(last - start), Wrap(c.pos - PageRound(last - start)))
      else Front(0, c.pos);
    moved.(pos := Wrap(moved.pos + PageRound(unpacked)))
  }

  /** A scan that begins near the top stays there: the first module of the header would end beyond the top,
      and thereby before its data. */
  ghost predicate StaysHigh(mods: seq<Packed>, l0: nat) {
    var s := NonBase(mods, |mods|);
    s != [] && TOP - SAFE <= l0 && (mods[s[0]].m.start == 0 || TOP <= l0 + mods[s[0]].unpacked)
  }

  /** Where the scan begins: within memory or near the top. */
  ghost predicate FrontStart(mods: seq<Packed>, l0: nat, limit: nat) {
    var s := NonBase(mods, |mods|);
    && s != [] && PageAligned(l0) && l0 < TOP
    && (l0 <= limit || (TOP - SAFE <= l0 && (mods[s[0]].m.start == 0 ==> l0 + PageRound(mods[s[0]].unpacked) == TOP)))
  }

  /** After the first `i` entries of the header, near the top: the modules reach from the target beyond
      the top, down to zero only if the last of them begins there. */
  ghost predicate HighScan(mods: seq<Packed>, i: nat, l0: nat, c: Front) {
    && i <= |mods|
    && var s := NonBase(mods, i);
      && s != [] && PageAligned(c.dest) && TOP - SAFE <= c.dest < TOP && c.dest + Sum(Unpacked(mods), s) == TOP + c.pos
      && if |s| > 1 then c.pos == 0 <==> mods[s[|s| - 1]].m.start == 0
        else l0 + PageRound(mods[s[0]].unpacked) == TOP + mods[s[0]].m.start ==> c.pos == mods[s[0]].m.start
  }

  ghost predicate FrontScan(mods: seq<Packed>, i: nat, l0: nat, c: Front, limit: nat) {
    && i <= |mods|
    && if NonBase(mods, i) == [] then c == Front(l0, l0)
      else if StaysHigh(mods, l0) then HighScan(mods, i, l0, c)
      else BeforeScan(mods, i, l0, c.pos, c.dest) && c.dest <= limit
  }

  /** What the scan finds: as close to the modules as all of them allow, or a target near the top, from which
      the modules reach beyond the top. */
  ghost predicate FrontTarget(mods: seq<Packed>, l0: nat, limit: nat, ldest: nat) {
    var s := NonBase(mods, |mods|);
    && s != [] && PageAligned(ldest) && Closest(mods, s, l0, ldest)
    && if StaysHigh(mods, l0) then
        && TOP - SAFE <= ldest < TOP
        && (|s| > 1 || l0 + PageRound(mods[s[0]].unpacked) == TOP + mods[s[0]].m.start ==>
          (TOP < ldest + Sum(Unpacked(mods), s) <==> 0 < mods[s[|s| - 1]].m.start))
      else ldest <= limit && (ldest != 0 ==> BeforeInHeader(mods, s, ldest))
  }

  /** The target found before the modules reaches beyond the top: the lowest module lies below its unpacked
      size, and the first module of the header does not move the target down into memory. */
  ghost predicate CandidateWraps(mods: seq<Packed>, lowest: Packed) {
    var s := NonBase(mods, |mods|);
    && lowest.m.start < lowest.unpacked && StaysHigh(mods, BeforeStart(lowest.m.start, lowest.unpacked))
    && 0 < mods[s[|s| - 1]].m.start
  }

  /** One module further in the header. */
  lemma FrontStep(mods: seq<Packed>, i: nat, l0: nat, c: Front, limit: nat)
    requires PackedValid(mods, limit) && i < |mods| && !mods[i].base && limit + PAGE <= SAFE
    requires Sum(Unpacked(mods), NonBase(mods, |mods|)) <= SAFE && FrontStart(mods, l0, limit)
    requires FrontScan(mods, i, l0, c, limit)
    ensures FrontScan(mods, i + 1, l0, FrontNext(c, mods[i].m.start, mods[i].unpacked), limit)
  {
    hide NonBase, Sum, PackedValid, HighScan, BeforeScan, FrontNext, PageRound, PageAligned, Wrap, PackedOne;
    NonBaseNext(mods, i);
    OneFacts(mods, i, limit);
    StartAligned(mods, i, limit);
    if NonBase(mods, i) == [] {
      FirstStep(mods, i, l0, limit);
    } else if StaysHigh(mods, l0) {
      HighStep(mods, i, l0, c, limit);
    } else {
      LowStep(mods, i, l0, c, limit);
    }
  }

  lemma FirstStep(mods: seq<Packed>, i: nat, l0: nat, limit: nat)
    requires PackedValid(mods, limit) && i < |mods| && !mods[i].base && limit + PAGE <= SAFE
    requires NonBase(mods, i) == [] && NonBase(mods, i + 1) == [i]
    requires Sum(Unpacked(mods), NonBase(mods, |mods|)) <= SAFE && FrontStart(mods, l0, limit)
    ensures FrontScan(mods, i + 1, l0, FrontNext(Front(l0, l0), mods[i].m.start, mods[i].unpacked), limit)
  {
    hide NonBase, Sum, PackedValid, HighScan, BeforeScan, FrontNext, PageRound, PageAligned, Wrap, PackedOne;
    OneFacts(mods, i, limit);
    StartAligned(mods, i, limit);
    NonBaseBegin(mods, i + 1, |mods|);
    if StaysHigh(mods, l0) {
      HighFirst(mods, i, l0, limit);
    } else {
      BeforeNone(mods, i, l0);
      LowStep(mods, i, l0, Front(l0, l0), limit);
    }
  }

  lemma StartAligned(mods: seq<Packed>, i: nat, limit: nat)
    requires PackedValid(mods, limit) && i < |mods|
    ensures PageAligned(mods[i].m.start) && (0 < mods[i].m.start ==> PAGE <= mods[i].m.start)
  {
    assert PackedOne(mods[i], limit);
  }

  lemma BeforeNone(mods: seq<Packed>, i: nat, l0: nat)
    requires i <= |mods| && NonBase(mods, i) == [] && PageAligned(l0)
    ensures BeforeScan(mods, i, l0, l0, l0)
  {
    assert Sum(Unpacked(mods), []) == 0;
    hide PageAligned, NonBase, Sum;
  }

  lemma {:induction false} NonBaseBegin(mods: seq<Packed>, i: nat, n: nat)
    requires i <= n <= |mods| && NonBase(mods, i) != []
    ensures NonBase(mods, n) != [] && NonBase(mods, n)[0] == NonBase(mods, i)[0]
    decreases n - i
  {
    hide NonBase;
    if i < n {
      NonBaseNext(mods, i);
      NonBaseBegin(mods, i + 1, n);
    }
  }

  /* A difference in 64 bits followed by a sum. */
  lemma WrapAdd(a: int, b: nat)
    requires 0 <= a + TOP && a < TOP && 0 <= a + b < 2 * TOP
    ensures Wrap(Wrap(a) + b) == if a + b < TOP then a + b else a + b - TOP
  {
  }

  lemma LowStep(mods: seq<Packed>, i: nat, l0: nat, c: Front, limit: nat)
    requires PackedValid(mods, limit) && i < |mods| && !mods[i].base && limit + PAGE <= SAFE
    requires Sum(Unpacked(mods), NonBase(mods, |mods|)) <= SAFE && BeforeScan(mods, i, l0, c.pos, c.dest)
    requires c.dest <= limit || (c.dest == c.pos && c.pos + mods[i].unpacked < TOP && PAGE <= mods[i].m.start)
    ensures var c1 := FrontNext(c, mods[i].m.start, mods[i].unpacked);
      c1.dest <= limit && BeforeScan(mods, i + 1, l0, c1.pos, c1.dest)
  {
    hide NonBase, Sum, PageAligned, PageRound, PackedValid, PackedOne, BeforeInHeader, Closest, Wrap;
    var p := mods[i];
    var c1 := FrontNext(c, p.m.start, p.unpacked);
    OneFacts(mods, i, limit);
    UnpackedRound(p, limit);
    SumOfNonBase(mods, i, |mods|);
    if c.dest == 0 {
      NonBaseNext(mods, i);
      AlignedZero();
      GivenUp(mods, NonBase(mods, i), i, l0);
    } else {
      WrapOnce(c.pos + p.unpacked);
      WrapOnce(c.pos + PageRound(p.unpacked));
      if c.pos + p.unpacked > p.m.start {
        var delta := PageRound(c.pos + p.unpacked - p.m.start);
        PageRoundFacts(c.pos + p.unpacked - p.m.start);
        if delta < c.dest {
          WrapAdd(c.pos - delta, PageRound(p.unpacked));
        }
      }
      BeforeStep(mods, i, l0, c.pos, c.dest, c1.pos, c1.dest, limit);
    }
  }

  lemma GivenUp(mods: seq<Packed>, s: seq<nat>, i: nat, l0: nat)
    requires i < |mods| && Closest(mods, s, l0, 0)
    ensures Closest(mods, s + [i], l0, 0)
  {
    hide BeforeInHeader, PageAligned;
    forall d: nat | BeforeInHeader(mods, s + [i], d)
      ensures BeforeInHeader(mods, s, d)
    {
      InHeaderPrefix(mods, s, i, d);
    }
  }

  /* The first module of a scan near the top. */
  lemma HighFirst(mods: seq<Packed>, i: nat, l0: nat, limit: nat)
    requires PackedValid(mods, limit) && i < |mods| && !mods[i].base && limit + PAGE <= SAFE
    requires NonBase(mods, i) == [] && NonBase(mods, i + 1) == [i]
    requires PageAligned(l0) && TOP - SAFE <= l0 < TOP
    requires (mods[i].m.start == 0 ==> l0 + PageRound(mods[i].unpacked) == TOP)
    requires mods[i].m.start == 0 || TOP <= l0 + mods[i].unpacked
    requires Sum(Unpacked(mods), NonBase(mods, |mods|)) <= SAFE
    ensures HighScan(mods, i + 1, l0, FrontNext(Front(l0, l0), mods[i].m.start, mods[i].unpacked))
  {
    hide NonBase, Sum, PageAligned, PageRound, PackedValid;
    var p := mods[i];
    OneFacts(mods, i, limit);
    UnpackedRound(p, limit);
    SumAdd(Unpacked(mods), [], i);
    SumOfNonBase(mods, i + 1, |mods|);
    NothingToSum(mods);
    assert [] + [i] == [i];
    hide PackedOne;
    FrontWraps(l0, p.m.start, p.unpacked);
  }

  lemma NothingToSum(mods: seq<Packed>)
    ensures Sum(Unpacked(mods), []) == 0
  {
  }

  /* In numbers: the target stays near the top, and the module reaches to `c.pos` beyond it. */
  lemma FrontWraps(l0: nat, start: nat, unpacked: nat)
    requires PageAligned(l0) && PageAligned(start) && TOP - SAFE <= l0 < TOP && start < SAFE && 0 < unpacked
    requires unpacked + PAGE <= SAFE
    requires PageRound(unpacked) <= SAFE
    requires if start == 0 then l0 + PageRound(unpacked) == TOP else TOP <= l0 + unpacked
    ensures var c := FrontNext(Front(l0, l0), start, unpacked);
      && PageAligned(c.dest) && TOP - SAFE <= c.dest < TOP && c.dest + PageRound(unpacked) == TOP + c.pos
      && (l0 + PageRound(unpacked) == TOP + start ==> c.pos == start)
  {
    hide PageRound, PageAligned, Wrap;
    PageRoundFacts(unpacked);
    var sum := l0 + unpacked;
    WrapOnce(sum);
    WrapOnce(l0 + PageRound(unpacked));
    WrapOnce(l0);
    if sum < TOP {
      RoundsToZero(sum);
      WrapAdd(l0, PageRound(unpacked));
    } else if sum - TOP > start {
      var delta := PageRound(sum - TOP - start);
      PageRoundFacts(sum - TOP - start);
      PageSteps(l0, delta);
      PageSteps(l0 - delta, PageRound(unpacked));
      AlignedTop(start);
      AlignedNotBetween(TOP + start, l0 - delta + PageRound(unpacked));
      WrapAdd(l0 - delta, PageRound(unpacked));
    } else {
      WrapAdd(l0, PageRound(unpacked));
    }
  }

  lemma RoundsToZero(x: nat)
    requires TOP - PAGE < x < TOP
    ensures PageRound(x) == 0
  {
    assert (x + PAGE - 1) % TOP == x + PAGE - 1 - TOP;
  }

  lemma AlignedNotBetween(a: nat, b: nat)
    requires PageAligned(a) && PageAligned(b) && a < b + PAGE
    ensures a <= b
  {
  }

  /* A later module of a scan near the top. */
  lemma HighStep(mods: seq<Packed>, i: nat, l0: nat, c: Front, limit: nat)
    requires PackedValid(mods, limit) && i < |mods| && !mods[i].base && limit + PAGE <= SAFE
    requires Sum(Unpacked(mods), NonBase(mods, |mods|)) <= SAFE && HighScan(mods, i, l0, c)
    ensures HighScan(mods, i + 1, l0, FrontNext(c, mods[i].m.start, mods[i].unpacked))
  {
    hide NonBase, Sum, PageAligned, PageRound, PackedValid, FrontNext, Wrap, Unpacked;
    var p, s := mods[i], NonBase(mods, i);
    OneFacts(mods, i, limit);
    NonBaseNext(mods, i);
    SumOfNonBase(mods, i + 1, |mods|);
    SumAdd(Unpacked(mods), s, i);
    UnpackedRound(p, limit);
    hide PackedOne;
    HighPos(mods, i, l0, c, limit);
    HighMoves(c, p.m.start, p.unpacked);
  }

  lemma HighPos(mods: seq<Packed>, i: nat, l0: nat, c: Front, limit: nat)
    requires PackedValid(mods, limit) && i <= |mods| && HighScan(mods, i, l0, c)
    ensures PageAligned(c.pos)
  {
    hide NonBase, Sum, PageAligned, PackedValid;
    var sum := Sum(Unpacked(mods), NonBase(mods, i));
    SumAligned(mods, limit, i);
    PageSteps(c.dest, sum);
    AlignedTop(0);
    PageSteps(c.dest + sum, TOP);
  }

  /* In numbers: the target moves down by what the module lacks. */
  lemma HighMoves(c: Front, start: nat, unpacked: nat)
    requires PageAligned(c.dest) && PageAligned(c.pos) && PageAligned(start) && TOP - SAFE <= c.dest < TOP
    requires c.pos < SAFE
    requires start < SAFE && 0 < unpacked && unpacked + PAGE <= SAFE && PageRound(unpacked) <= SAFE
    ensures var c1 := FrontNext(c, start, unpacked);
      && PageAligned(c1.dest) && c1.dest < TOP && c1.dest - c1.pos == c.dest - c.pos - PageRound(unpacked)
      && (c1.pos == 0 <==> start == 0)
  {
    hide PageRound, PageAligned, Wrap;
    PageRoundFacts(unpacked);
    PageSteps(c.pos, PageRound(unpacked));
    var sum := c.pos + unpacked;
    WrapOnce(sum);
    WrapOnce(c.pos + PageRound(unpacked));
    if sum > start {
      var delta := PageRound(sum - start);
      PageRoundFacts(sum - start);
      PageSteps(c.dest, delta);
      PageSteps(start, delta);
      AlignedNotBetween(start + delta, c.pos + PageRound(unpacked));
      if start == 0 {
        AlignedClose(delta, c.pos + PageRound(unpacked));
      }
      WrapAdd(c.pos - delta, PageRound(unpacked));
    } else {
      WrapAdd(c.pos, PageRound(unpacked));
    }
  }

  /** At the end of the header. */
  lemma FrontEnd(mods: seq<Packed>, l0: nat, c: Front, limit: nat)
    requires PackedValid(mods, limit) && limit + PAGE <= SAFE && FrontStart(mods, l0, limit)
    requires FrontScan(mods, |mods|, l0, c, limit)
    ensures FrontTarget(mods, l0, limit, c.dest)
  {
    hide NonBase, Sum, PageAligned, PageRound, PackedValid;
    var s := NonBase(mods, |mods|);
    if StaysHigh(mods, l0) {
      forall d: nat | 0 < d <= l0 && PageAligned(d) && BeforeInHeader(mods, s, d)
        ensures d <= c.dest
      {
        OneFacts(mods, s[0], limit);
        assert d + Sum(Unpacked(mods), s[..0]) + mods[s[0]].unpacked <= mods[s[0]].m.start;
      }
    }
  }

  /** The lowest module decides with the first and the last one of the header whether the target reaches
      beyond the top. */
  lemma CandidateExact(mods: seq<Packed>, order: seq<nat>, ldest: nat, limit: nat)
    requires PackedValid(mods, limit) && Sorts(mods, order, NonBase(mods, |mods|)) && order != [] && limit + PAGE < SAFE
    requires order[0] < |mods| && Sum(Unpacked(mods), NonBase(mods, |mods|)) <= SAFE
    requires FrontTarget(mods, BeforeStart(mods[order[0]].m.start, mods[order[0]].unpacked), limit, ldest)
    ensures TOP < ldest + Sum(Unpacked(mods), NonBase(mods, |mods|)) <==> CandidateWraps(mods, mods[order[0]])
  {
    hide NonBase, Sum, PageAligned, PageRound, PackedValid, BeforeStart, Closest, BeforeInHeader;
    var p, s := mods[order[0]], NonBase(mods, |mods|);
    OneFacts(mods, order[0], limit);
    BeforeStartExact(p.m.start, p.unpacked);
    if |s| == 1 {
      OnlyOne(order, s);
    }
  }

  lemma OnlyOne(order: seq<nat>, s: seq<nat>)
    requires multiset(order) == multiset(s) && |s| == 1
    ensures order == s
  {
    assert |order| == |multiset(order)| == 1;
    assert order[0] in multiset(s);
  }

  /* What all modules allow, those without the last one allow. */
  lemma InHeaderPrefix(mods: seq<Packed>, s: seq<nat>, i: nat, d: nat)
    requires i < |mods|
    ensures BehindInHeader(mods, s + [i], d) ==>
      BehindInHeader(mods, s, d) && mods[i].End() <= d + Sum(Unpacked(mods), s)
    ensures BeforeInHeader(mods, s + [i], d) ==>
      BeforeInHeader(mods, s, d) && d + Sum(Unpacked(mods), s) + mods[i].unpacked <= mods[i].m.start
  {
    hide Sum;
    var t := s + [i];
    assert forall p :: 0 <= p < |s| ==> t[p] == s[p] && t[..p] == s[..p];
    assert t[|s|] == i && t[..|s|] == s;
  }

  lemma NearestStep(mods: seq<Packed>, s: seq<nat>, i: nat, r0: nat, rdest: nat, next: nat)
    requires i < |mods| && (forall k :: 0 <= k < |s| ==> s[k] < |mods|) && Nearest(mods, s, r0, rdest)
    requires mods[i].End() + PAGE <= TOP && PageAligned(Sum(Unpacked(mods), s))
    requires var rpos := rdest + Sum(Unpacked(mods), s);
      next == if rpos < mods[i].End() then rdest + (PageRound(mods[i].End()) - rpos) else rdest
    ensures Nearest(mods, s + [i], r0, next)
  {
    hide Sum, PageRound, PageAligned, BehindInHeader;
    forall d: nat | r0 <= d && PageAligned(d) && BehindInHeader(mods, s + [i], d)
      ensures next <= d
    {
      InHeaderPrefix(mods, s, i, d);
      PageSteps(d, Sum(Unpacked(mods), s));
      RoundIsLeast(mods[i].End(), d + Sum(Unpacked(mods), s));
    }
  }

  lemma ClosestStep(mods: seq<Packed>, s: seq<nat>, i: nat, l0: nat, ldest: nat, next: nat)
    requires i < |mods| && (forall k :: 0 <= k < |s| ==> s[k] < |mods|) && Closest(mods, s, l0, ldest)
    requires PageAligned(ldest)
    requires ldest != 0 ==> ldest + Sum(Unpacked(mods), s) + mods[i].unpacked + PAGE <= TOP + mods[i].m.start
    requires var lpos := ldest + Sum(Unpacked(mods), s);
      if ldest != 0 && lpos + mods[i].unpacked > mods[i].m.start then
        var delta := PageRound(lpos + mods[i].unpacked - mods[i].m.start);
        next == if ldest > delta then ldest - delta else 0
      else next == ldest
    ensures Closest(mods, s + [i], l0, next)
  {
    hide Sum, PageRound, PageAligned, BeforeInHeader;
    var lpos := ldest + Sum(Unpacked(mods), s);
    forall d: nat | 0 < d <= l0 && PageAligned(d) && BeforeInHeader(mods, s + [i], d)
      ensures d <= next
    {
      InHeaderPrefix(mods, s, i, d);
      if ldest != 0 && lpos + mods[i].unpacked > mods[i].m.start {
        PageSteps(ldest, d);
        RoundIsLeast(lpos + mods[i].unpacked - mods[i].m.start, ldest - d);
      }
    }
  }

  lemma RoundIsLeast(x: nat, a: nat)
    requires x + PAGE <= TOP
    ensures PageAligned(a) && x <= a ==> PageRound(x) <= a
  {
    RoundLeast(x, PAGE);
  }

  lemma NonBaseNext(mods: seq<Packed>, i: nat)
    requires i < |mods|
    ensures NonBase(mods, i + 1) == if mods[i].base then NonBase(mods, i) else NonBase(mods, i) + [i]
  {
  }

  lemma {:induction false} NonBaseGrows(mods: seq<Packed>, i: nat, n: nat)
    requires i <= n <= |mods|
    ensures |NonBase(mods, i)| <= |NonBase(mods, n)|
    decreases n - i
  {
    hide NonBase;
    if i < n {
      NonBaseNext(mods, i);
      NonBaseGrows(mods, i + 1, n);
    }
  }
}
