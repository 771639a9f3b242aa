/** The in-place conversion of a Multiboot2 information structure (class Mbi2_convertible_buffer and
    `_multiboot2_to_multiboot` in server/src/multiboot2.cc). */
module Multiboot {
  import opened Options
  import opened MultibootFormat
  import opened MultibootLayout

  /** The buffer, whose first `size` bytes have not been set aside yet. */
  class ConvertibleBuffer {
    const buf: array<byte>
    const base: nat
    var size: nat
    var info: Info

    ghost predicate Valid()
      reads this, buf
    {
      size <= buf.Length && base + buf.Length < WORD
    }

    constructor (buf: array<byte>, base: nat)
      requires base + buf.Length < WORD
      ensures Valid() && this.buf == buf && this.base == base && size == buf.Length && info == EMPTY
    {
      this.buf, this.base := buf, base;
      size, info := buf.Length, EMPTY;
    }

    /** What has been told so far can be found in the part that was set aside. */
    ghost predicate Tells(s: Summary)
      requires Valid()
      reads this, buf
    {
      Denotes(buf[..], size, base, info, s)
    }

    method CopyTo(at: nat, s: seq<byte>)
      requires at + |s| <= buf.Length
      modifies buf
      ensures buf[..] == Put(old(buf[..]), at, s)
    {
      ghost var was := buf[..];
      forall i | 0 <= i < |s| {
        buf[at + i] := s[i];
      }
      PutIs(was, buf[..], at, s);
    }

    /* One piece of at most 1024 bytes, through a buffer on the stack. */
    method RotatePiece(src: nat, copied: nat)
      requires Valid() && src + copied <= size && copied <= 1024
      modifies buf
      ensures buf[..] == Rotated(old(buf[..]), src, size, copied)
    {
      hide Rotated;
      ghost var was := buf[..];
      var piece := buf[src..src + copied];
      forall i | src <= i < size - copied {
        buf[i] := buf[i + copied];
      }
      forall i | 0 <= i < copied {
        buf[size - copied + i] := piece[i];
      }
      RotatedIs(was, buf[..], src, size, copied);
    }

    /** Move a tag behind everything that was not set aside; its new place is returned. */
    method RotateToEnd(tag: nat) returns (dst: nat)
      requires Valid() && tag + 8 <= size && tag + Round8(U32(buf[..], tag + 4)) <= size
      modifies buf
      ensures var k := Round8(U32(old(buf[..]), tag + 4));
        dst == size - k && buf[..] == Rotated(old(buf[..]), tag, size, k)
    {
      hide Rotated, U32, Round8;
      ghost var was := buf[..];
      var left := Round8(U32(buf[..], tag + 4));
      ghost var k := left;
      dst := size - left;
      RotatedNone(was, tag, size);
      while left > 0
        invariant 0 <= left <= k && buf[..] == Rotated(was, tag, size, k - left)
        decreases left
      {
        var copied := if 1024 < left then 1024 else left;
        RotatePiece(tag, copied);
        RotatedTwice(was, tag, size, k - left, copied);
        left := left - copied;
      }
    }

    method ReserveFromEnd(n: nat)
      requires Valid() && Round8(n) <= size
      modifies this`size
      ensures Valid() && size == old(size) - Round8(n)
    {
      size := size - Round8(n);
    }

    method ProcessCmdline(tag: nat, ghost rest: seq<Tag>, ghost junk: seq<byte>, ghost s: Summary)
      requires Valid() && Reading(buf[..], tag, size, rest, junk) && Tells(s)
      requires rest != [] && Type(rest[0]) == CMDLINE
      modifies this, buf
      ensures Valid() && Reading(buf[..], tag, size, rest[1..], junk + rest[0][..8])
      ensures Tells(Tell(s, rest[0])) && size == old(size) - TakenBy(rest[0])
    {
      hide Denotes, Rotated, ValidTag, ValidTags, Ending, Flat, Reading, U32, Round8, TakenBy;
      ghost var was, lo, told := buf[..], size, info;
      FirstTaken(buf[..], tag, size, rest, junk);
      ReadTag(buf[..], tag, size, rest, junk);
      RotateTag(buf[..], tag, size, rest, junk, |rest[0]| - 8);
      var dst := RotateToEnd(tag);
      Payload(buf[..], size, rest[0], 8);
      var n := U32(buf[..], dst + 4);
      SizeOfMoved(buf[..], dst, rest[0]);
      ReserveFromEnd(n - 8);
      info := info.(cmdline := Some(dst + 8));
      CmdlineTold(was, buf[..], lo, base, told, s, rest[0], dst);
    }

    method ProcessRsdp(tag: nat, ghost rest: seq<Tag>, ghost junk: seq<byte>, ghost s: Summary)
      requires Valid() && Reading(buf[..], tag, size, rest, junk) && Tells(s)
      requires rest != [] && IsRsdp(rest[0])
      modifies this, buf
      ensures Valid() && Reading(buf[..], tag, size, rest[1..], junk + rest[0][..8])
      ensures Tells(Tell(s, rest[0])) && size == old(size) - TakenBy(rest[0])
    {
      hide Denotes, Rotated, ValidTag, ValidTags, Ending, Flat, Reading, U32, Round8, TakenBy;
      ghost var was, lo, told := buf[..], size, info;
      FirstTaken(buf[..], tag, size, rest, junk);
      ReadTag(buf[..], tag, size, rest, junk);
      RotateTag(buf[..], tag, size, rest, junk, |rest[0]| - 8);
      var dst := RotateToEnd(tag);
      Payload(buf[..], size, rest[0], 8);
      SizeOfMoved(buf[..], dst, rest[0]);
      var n := U32(buf[..], dst + 4) - 8;
      ReserveFromEnd(n);
      info := info.(rsdp := Some(Table(size, n)));
      RsdpTold(was, buf[..], lo, base, told, s, rest[0], dst);
    }

    /** Convert the entries of a memory map, one by one. */
    method ConvertEntries(at: nat, end: nat, entry: nat, ghost raw: seq<byte>)
      requires at <= end <= buf.Length && buf[at..end] == raw && 24 <= entry < WORD && Whole(|raw|, entry)
      modifies buf
      ensures buf[..] == Put(old(buf[..]), at, Converted(raw, entry))
    {
      hide Put, ConvertedEntry, Converted, LE32, Whole;
      ghost var was := buf[..];
      ghost var done: seq<byte> := [];
      var e := at;
      PutIs(was, was, at, done);
      assert raw[0..] == raw && done + Converted(raw, entry) == Converted(raw, entry);
      while e < end
        invariant at <= e <= end && |done| == e - at && Whole(end - e, entry)
        invariant Converted(raw, entry) == done + Converted(raw[e - at..], entry)
        invariant buf[..] == Put(was, at, done)
        decreases end - e
      {
        ghost var more;
        more := ConvertEntry(e, entry, was, at, done, raw);
        ConvertedNext(raw, entry, e - at, done);
        done := done + more;
        e := e + entry;
      }
      ConvertedAll(raw, entry, done);
    }

    /* One entry. */
    method ConvertEntry(e: nat, entry: nat, ghost was: seq<byte>, ghost at: nat, ghost done: seq<byte>,
        ghost raw: seq<byte>)
      returns (ghost more: seq<byte>)
      requires at + |raw| <= |was| && was[at..at + |raw|] == raw && e == at + |done| < at + |raw|
      requires 24 <= entry < WORD && Whole(at + |raw| - e, entry) && buf[..] == Put(was, at, done)
      modifies buf
      ensures e + entry <= at + |raw| && Whole(at + |raw| - e - entry, entry)
      ensures more == ConvertedEntry(raw[e - at..e - at + entry]) && buf[..] == Put(was, at, done + more)
    {
      hide Put, ConvertedEntry, LE32, Whole;
      EntryUntouched(was, at, done, raw, e, entry);
      EntryConverted(was, buf[..], at, done, raw, e, entry);
      assert buf[e..e + 20] == buf[..][e..e + 20];
      CopyTo(e, LE32(entry - 4) + buf[e..e + 20]);
      more := ConvertedEntry(raw[e - at..e - at + entry]);
    }

    method ProcessMemmap(tag: nat, ghost rest: seq<Tag>, ghost junk: seq<byte>, ghost s: Summary)
      requires Valid() && Reading(buf[..], tag, size, rest, junk) && Tells(s)
      requires rest != [] && Type(rest[0]) == MEMMAP
      modifies this, buf
      ensures Valid() && Reading(buf[..], tag, size, rest[1..], junk + rest[0][..16])
      ensures Tells(Tell(s, rest[0])) && size == old(size) - TakenBy(rest[0])
    {
      hide Denotes, Rotated, ValidTag, ValidTags, Ending, Flat, Reading, U32, Round8, Whole, Converted, Put, TakenBy;
      ghost var was, lo, told, t := buf[..], size, info, rest[0];
      FirstTaken(buf[..], tag, size, rest, junk);
      ReadTag(buf[..], tag, size, rest, junk);
      RotateTag(buf[..], tag, size, rest, junk, |t| - 16);
      var dst := RotateToEnd(tag);
      MovedMap(buf[..], size, t);
      var n := U32(buf[..], dst + 4);
      var entry := U32(buf[..], dst + 8);
      ghost var mid, raw := buf[..], MemMapOf(t).raw;
      ConvertEntries(dst + 16, dst + n, entry, raw);
      ConvertedBelow(mid, tag, dst + 16, rest[1..], junk + t[..16], Converted(raw, entry), lo);
      ReserveFromEnd(n - 16);
      info := info.(memmap := Some(Table(size, n - 16)));
      MemmapTold(was, buf[..], lo, base, told, s, t, dst);
    }

    /** Move one module tag, set its command line aside, and leave a v1 entry in place of its header. */
    method ProcessModule(tag: nat, ghost rest: seq<Tag>, ghost junk: seq<byte>, ghost i: nat)
        returns (ghost left: seq<byte>)
      requires Valid() && Block(buf[..], tag, size, base, rest, junk, i) && i < ModuleRun(rest)
      modifies this`size, buf
      ensures Valid() && Block(buf[..], tag, size, base, rest, left, i + 1) && tag + 8 <= size <= old(size)
      ensures size == old(size) - TakenBy(rest[i]) + 16 && buf[..][old(size)..] == old(buf[..][size..])
    {
      hide Block, Rotated, ValidTag, ValidTags, U32, Round8, Put, Entry, ModsOf, TakenBy, LE32, ModTable, Reading, Flat,
        ModuleRun;
      BlockTag(buf[..], tag, size, base, rest, junk, i);
      BlockStep(buf[..], tag, size, base, rest, junk, i);
      ghost var t := rest[i];
      MovedModule(buf[..], tag, size, t);
      var dst := RotateToEnd(tag);
      var entry := buf[dst + 8..dst + 16] + LE32(base + dst + 16) + LE32(0);
      EntryIs(t, base + dst + 16, buf[dst + 8..dst + 16]);
      ReserveFromEnd(U32(buf[..], dst + 4) - 16);
      CopyTo(dst, entry);
      left := junk + entry;
    }

    /** Turn a block of module tags into a table. */
    method ProcessModules(tag: nat, ghost rest: seq<Tag>, ghost junk: seq<byte>, ghost s: Summary)
        returns (ghost left: seq<byte>)
      requires Valid() && Reading(buf[..], tag, size, rest, junk) && Tells(s)
      requires rest != [] && Type(rest[0]) == MODULE
      modifies this, buf
      ensures Valid() && Reading(buf[..], tag, size, rest[ModuleRun(rest)..], left)
      ensures Tells(s.(mods := Some(ModsOf(rest[..ModuleRun(rest)]))))
      ensures size == old(size) - Taken(rest[..ModuleRun(rest)])
    {
      hide Denotes, Rotated, ValidTag, Ending, Flat, Reading, U32, Round8, Put, Entry, Block, ModsOf, Taken, TakenBy,
        ModTable, LE32, NumberAt, Type, Size;
      TagsRead(buf[..], tag, size, rest, junk);
      ghost var was, lo, told, n := buf[..], size, info, ModuleRun(rest);
      left := junk;
      var cnt := 0;
      BlockStart(was, tag, size, base, rest, junk);
      while U32(buf[..], tag) == MODULE
        invariant Valid() && cnt <= n && info == told && buf[lo..] == was[lo..]
        invariant tag + 8 <= size <= lo && Block(buf[..], tag, size, base, rest, left, cnt)
        invariant U32(buf[..], tag) == MODULE <==> cnt < n
        invariant size == lo - Taken(rest[..cnt]) + 16 * cnt
        decreases n - cnt
      {
        TakenNext(rest, cnt);
        ghost var now, top := buf[..], size;
        left := ProcessModule(tag, rest, left, cnt);
        TailKept(was, now, buf[..], lo, top);
        cnt := cnt + 1;
        BlockNext(buf[..], tag, size, base, rest, left, cnt, n);
      }
      BlockEnd(was, buf[..], lo, tag, size, base, told, s, rest, left, n);
      ReserveFromEnd(16 * cnt);
      left := left[..|left| - 16 * n];
      info := info.(mods := Some(Table(size, cnt)));
    }

    /** Write the v1 information structure to the front and clear the rest; false when it does not fit. */
    method Finalize(image: Info -> seq<byte>, ghost s: Summary) returns (ok: bool)
      requires Valid() && Tells(s)
      modifies buf
      ensures Valid() && Tells(s) && ok == (|image(info)| <= size)
      ensures ok ==> buf[..|image(info)|] == image(info) && forall x :: |image(info)| <= x < size ==> buf[x] == 0
    {
      hide Denotes, Put;
      var bytes := image(info);
      if |bytes| > size {
        return false;
      }
      ghost var was := buf[..];
      CopyTo(0, bytes);
      PutParts(was, 0, bytes);
      PutAbove(was, 0, bytes, size, |was|);
      ghost var mid := buf[..];
      forall x | |bytes| <= x < size {
        buf[x] := 0;
      }
      assert buf[..|bytes|] == mid[..|bytes|];
      assert buf[..][size..] == mid[size..];
      DenotesKept(was, buf[..], size, size, base, info, s);
      return true;
    }

    /** The whole conversion: whatever the tags, everything they say can be found through the result, and
        stays out of reach of the structure written last. It fails exactly when the bytes not set aside
        do not hold that structure. */
    method Convert(image: Info -> seq<byte>, ghost tags: seq<Tag>, ghost ending: seq<byte>) returns (ok: bool)
      requires Valid() && size == buf.Length && info == EMPTY && Reading(buf[..], 8, size, tags, ending)
      modifies this, buf
      ensures Valid() && ValidTags(tags) && size == buf.Length - Taken(tags)
      ensures ok == (|image(info)| <= size)
      ensures Tells(Told(NOTHING, tags))
      ensures ok ==> buf[..|image(info)|] == image(info) && forall x :: |image(info)| <= x < size ==> buf[x] == 0
    {
      assert ValidTags(tags);
      hide Denotes, Reading, ValidTag, ValidTags, Flat, U32, Round8, Tell, Told, Taken, TakenBy, Ending, ModsOf,
        ModuleRun;
      var tag: nat := 8;
      ghost var rest, junk, s := tags, ending, NOTHING;
      NothingTold(buf[..], size, base);
      while true
        invariant Valid() && Reading(buf[..], tag, size, rest, junk) && ValidTags(tags) && ValidTags(rest) && Tells(s)
        invariant Told(NOTHING, tags) == Told(s, rest) && size - Taken(rest) == buf.Length - Taken(tags)
        decreases |rest|
      {
        ReadTag(buf[..], tag, size, rest, junk);
        var type_ := U32(buf[..], tag);
        if type_ == TERMINATOR {
          break;
        }
        ghost var t := rest[0];
        NextTag(s, rest);
        if type_ == CMDLINE {
          ProcessCmdline(tag, rest, junk, s);
          s, rest, junk := Tell(s, t), rest[1..], junk + t[..8];
        } else if type_ == MODULE {
          ghost var n := ModuleRun(rest);
          junk := ProcessModules(tag, rest, junk, s);
          s, rest := s.(mods := Some(ModsOf(rest[..n]))), rest[n..];
        } else if type_ == MEMMAP {
          ProcessMemmap(tag, rest, junk, s);
          s, rest, junk := Tell(s, t), rest[1..], junk + t[..16];
        } else if type_ == RSDP_OLD || type_ == RSDP_NEW {
          ProcessRsdp(tag, rest, junk, s);
          s, rest, junk := Tell(s, t), rest[1..], junk + t[..8];
        } else {
          SkipTag(buf[..], tag, size, rest, junk);
          tag := tag + Round8(U32(buf[..], tag + 4));
          rest := rest[1..];
        }
      }
      LastTag(s, rest);
      ok := Finalize(image, s);
    }
  }

  lemma TagsRead(b: seq<byte>, pos: nat, size: nat, rest: seq<Tag>, junk: seq<byte>)
    requires Reading(b, pos, size, rest, junk)
    ensures ValidTags(rest)
  {
  }

  lemma FirstTaken(b: seq<byte>, pos: nat, size: nat, rest: seq<Tag>, junk: seq<byte>)
    requires Reading(b, pos, size, rest, junk) && rest != []
    ensures ValidTag(rest[0])
    ensures TakenBy(rest[0]) == if Type(rest[0]) == CMDLINE || IsRsdp(rest[0]) then |rest[0]| - 8
      else if Type(rest[0]) == MODULE then |rest[0]|
      else if Type(rest[0]) == MEMMAP then |rest[0]| - 16
      else 0
  {
    TakenByType(rest[0]);
  }

  lemma NothingTold(b: seq<byte>, size: nat, base: nat)
    ensures Denotes(b, size, base, EMPTY, NOTHING)
  {
  }

  lemma {:induction false} LastTag(s: Summary, rest: seq<Tag>)
    requires ValidTags(rest) && rest == []
    ensures Told(s, rest) == s && Taken(rest) == 0
  {
  }

  /* How one tag, or one block of module tags, counts. */
  lemma {:induction false} NextTag(s: Summary, rest: seq<Tag>)
    requires ValidTags(rest) && rest != []
    ensures ValidTag(rest[0]) && ValidTags(rest[1..])
    ensures Type(rest[0]) != MODULE ==> Told(s, rest) == Told(Tell(s, rest[0]), rest[1..])
    ensures Type(rest[0]) == MODULE ==> var n := ModuleRun(rest);
      && 0 < n && ValidTags(rest[n..]) && ValidTags(rest[..n]) &&
        (forall j :: 0 <= j < n ==> Type(rest[..n][j]) == MODULE)
      && Told(s, rest) == Told(s.(mods := Some(ModsOf(rest[..n]))), rest[n..])
      && Taken(rest) == Taken(rest[..n]) + Taken(rest[n..])
    ensures Taken(rest) == TakenBy(rest[0]) + Taken(rest[1..])
    ensures !(Type(rest[0]) in {CMDLINE, MODULE, MEMMAP, RSDP_OLD, RSDP_NEW}) ==>
      Tell(s, rest[0]) == s && TakenBy(rest[0]) == 0
  {
    var n := ModuleRun(rest);
    assert rest == rest[..n] + rest[n..];
    hide ModsOf;
    TakenConcat(rest[..n], rest[n..]);
  }

  /* A tag that is passed over. */
  lemma {:induction false} SkipTag(b: seq<byte>, tag: nat, size: nat, rest: seq<Tag>, junk: seq<byte>)
    requires Reading(b, tag, size, rest, junk) && rest != []
    ensures tag + 8 <= size <= |b|
    ensures Reading(b, tag + Round8(U32(b, tag + 4)), size, rest[1..], junk)
  {
    ReadTag(b, tag, size, rest, junk);
    TailValid(rest);
  }

  lemma PutIs(was: seq<byte>, now: seq<byte>, at: nat, s: seq<byte>)
    requires |now| == |was| && at + |s| <= |was|
    requires forall x :: 0 <= x < |was| ==> now[x] == if at <= x < at + |s| then s[x - at] else was[x]
    ensures now == Put(was, at, s)
  {
  }

  lemma {:induction false} RotatedIs(was: seq<byte>, now: seq<byte>, src: nat, size: nat, k: nat)
    requires |now| == |was| && src + k <= size <= |was|
    requires forall x :: 0 <= x < src || size <= x < |was| ==> now[x] == was[x]
    requires forall x :: src <= x < size - k ==> now[x] == was[x + k]
    requires forall x :: size - k <= x < size ==> now[x] == was[src + (x - (size - k))]
    ensures now == Rotated(was, src, size, k)
  {
    var r := Rotated(was, src, size, k);
    forall x | 0 <= x < |was|
      ensures now[x] == r[x]
    {
    }
  }

  lemma RotatedNone(b: seq<byte>, pos: nat, size: nat)
    requires pos <= size <= |b|
    ensures Rotated(b, pos, size, 0) == b
  {
  }

  lemma SizeOfMoved(c: seq<byte>, dst: nat, t: Tag)
    requires 8 <= |t| && dst + |t| <= |c| && c[dst..dst + |t|] == t
    ensures U32(c, dst + 4) == Size(t)
  {
    U32Slice(c, dst, dst + |t|, 4);
  }

  /** The payload of a rotated command line tag is told, and nothing said before is lost. */
  lemma {:induction false} CmdlineTold(b: seq<byte>, c: seq<byte>, lo: nat, base: nat, info: Info, s: Summary, t: Tag,
      dst: nat)
    requires ValidTag(t) && Type(t) == CMDLINE && |c| == |b| && dst + |t| == lo <= |b| && c[lo..] == b[lo..]
    requires dst + Size(t) <= |c| && c[dst + 8..dst + Size(t)] == t[8..Size(t)] && Denotes(b, lo, base, info, s)
    ensures Denotes(c, dst + 8, base, info.(cmdline := Some(dst + 8)), Tell(s, t))
  {
    DenotesKept(b, c, lo, dst + 8, base, info, s);
    hide ModTable, Converted, Whole, U32, Round8;
  }

  lemma {:induction false} RsdpTold(b: seq<byte>, c: seq<byte>, lo: nat, base: nat, info: Info, s: Summary, t: Tag,
      dst: nat)
    requires ValidTag(t) && IsRsdp(t) && |c| == |b| && dst + |t| == lo <= |b| && c[lo..] == b[lo..]
    requires dst + Size(t) <= |c| && c[dst + 8..dst + Size(t)] == t[8..Size(t)] && Denotes(b, lo, base, info, s)
    ensures Denotes(c, dst + 8, base, info.(rsdp := Some(Table(dst + 8, Size(t) - 8))), Tell(s, t))
  {
    DenotesKept(b, c, lo, dst + 8, base, info, s);
    hide ModTable, Converted, Whole, U32, Round8;
  }

  lemma {:induction false} MemmapTold(b: seq<byte>, c: seq<byte>, lo: nat, base: nat, info: Info, s: Summary, t: Tag,
      dst: nat)
    requires ValidTag(t) && Type(t) == MEMMAP && |c| == |b| && dst + |t| == lo <= |b| && c[lo..] == b[lo..]
    requires dst + Size(t) <= |c| && Denotes(b, lo, base, info, s)
    requires c[dst + 16..dst + Size(t)] == Converted(MemMapOf(t).raw, MemMapOf(t).entry)
    ensures Denotes(c, dst + 16, base, info.(memmap := Some(Table(dst + 16, Size(t) - 16))), Tell(s, t))
  {
    DenotesKept(b, c, lo, dst + 16, base, info, s);
    hide ModTable, U32, Round8;
  }

  lemma {:induction false} ReadingBelow(b: seq<byte>, c: seq<byte>, pos: nat, size: nat, rest: seq<Tag>,
      junk: seq<byte>)
    requires Reading(b, pos, size, rest, junk) && |c| == |b| && c[pos..size] == b[pos..size]
    ensures Reading(c, pos, size, rest, junk)
  {
  }

  lemma {:induction false} ReadingExtends(b: seq<byte>, pos: nat, size: nat, rest: seq<Tag>, junk: seq<byte>,
      more: seq<byte>)
    requires Reading(b, pos, size, rest, junk) && size + |more| <= |b| && b[size..size + |more|] == more
    ensures Reading(b, pos, size + |more|, rest, junk + more)
  {
    EndingGrows(junk, more);
    hide Ending, ValidTag;
    SliceSplits(b, pos, size, size + |more|);
    assert Flat(rest) + junk + more == Flat(rest) + (junk + more);
  }

  lemma {:induction false} ReadingShrinks(b: seq<byte>, pos: nat, size: nat, rest: seq<Tag>, junk: seq<byte>, m: nat)
    requires Reading(b, pos, size, rest, junk) && m + 8 <= |junk|
    ensures pos <= size - m && Reading(b, pos, size - m, rest, junk[..|junk| - m])
  {
    hide ValidTag;
    var f := Flat(rest);
    assert b[pos..size - m] == b[pos..size][..size - m - pos];
    assert (f + junk)[..|f| + |junk| - m] == f + junk[..|junk| - m];
  }

  lemma PutParts(b: seq<byte>, at: nat, s: seq<byte>)
    requires at + |s| <= |b|
    ensures var c := Put(b, at, s);
      c[at..at + |s|] == s && c[at + |s|..] == b[at + |s|..] && c[..at] == b[..at]
  {
  }

  /* Slices on either side. */
  lemma PutBelow(b: seq<byte>, at: nat, s: seq<byte>, lo: nat, hi: nat)
    requires at + |s| <= |b| && lo <= hi <= at
    ensures Put(b, at, s)[lo..hi] == b[lo..hi]
  {
  }

  lemma PutAbove(b: seq<byte>, at: nat, s: seq<byte>, lo: nat, hi: nat)
    requires at + |s| <= lo <= hi <= |b|
    ensures Put(b, at, s)[lo..hi] == b[lo..hi] && Put(b, at, s)[lo..] == b[lo..]
  {
  }

  /* ---- module tags ---- */

  /** The v1 entry for a module tag whose command line begins at the address `name`. */
  function Entry(t: Tag, name: nat): (e: seq<byte>)
    requires 16 <= |t| && name < WORD
    ensures |e| == 16
  {
    t[8..16] + LE32(name) + LE32(0)
  }

  /** In the middle of a block of module tags: the entries made so far stand at the end of the part that
      was not set aside. */
  ghost predicate Block(b: seq<byte>, tag: nat, size: nat, base: nat, rest: seq<Tag>, junk: seq<byte>, i: nat) {
    && i <= |rest| && ValidTags(rest) && (forall j :: 0 <= j < i ==> Type(rest[j]) == MODULE)
    && Reading(b, tag, size, rest[i..], junk) && 8 + 16 * i <= |junk| && 16 * i <= size
    && ModTable(b, size, base, size - 16 * i, ModsOf(rest[..i]))
  }

  lemma EntryIs(t: Tag, name: nat, range: seq<byte>)
    requires 16 <= |t| && name < WORD && range == t[8..16]
    ensures range + LE32(name) + LE32(0) == Entry(t, name)
  {
  }

  lemma EntryAt(d: seq<byte>, base: nat, dst: nat, t: Tag)
    requires ValidTag(t) && Type(t) == MODULE && dst + |t| <= |d| && base + |d| < WORD
    requires d[dst..dst + 16] == Entry(t, base + dst + 16) && d[dst + 16..dst + |t|] == t[16..]
    ensures ModAt(d, dst + 16, base, dst, ModOf(t))
  {
    var e := Entry(t, base + dst + 16);
    ReadWritten(base + dst + 16);
    ReadWritten(0);
    EntryFields(t[8..16], LE32(base + dst + 16), LE32(0));
    hide LE32, Round8, Whole;
    U32Slice(d, dst, dst + 16, 8);
    U32Slice(d, dst, dst + 16, 12);
    SubSlice(d, dst, dst + 16, 0, 8);
    SubSlice(d, dst + 16, dst + |t|, 0, Size(t) - 16);
    assert t[16..][..Size(t) - 16] == t[16..Size(t)];
    hide U32;
    assert d[dst..dst + 16][..8] == t[8..16];
  }

  lemma EntryFields(a: seq<byte>, p: seq<byte>, z: seq<byte>)
    requires |a| == 8 && |p| == 4 && |z| == 4
    ensures var e := a + p + z; e[..8] == a && U32(e, 8) == U32(p, 0) && U32(e, 12) == U32(z, 0)
  {
  }

  /** One module tag more. */
  lemma {:induction false} BlockStep(b: seq<byte>, tag: nat, size: nat, base: nat, rest: seq<Tag>, junk: seq<byte>,
      i: nat)
    requires Block(b, tag, size, base, rest, junk, i) && i < |rest| && Type(rest[i]) == MODULE && base + |b| < WORD
    ensures var t := rest[i];
      && ValidTag(t) && tag + |t| <= size && 16 <= |t|
      && var dst := size - |t|;
      && var d := Put(Rotated(b, tag, size, |t|), dst, Entry(t, base + dst + 16));
      Block(d, tag, dst + 16, base, rest, junk + Entry(t, base + dst + 16), i + 1) && d[size..] == b[size..]
  {
    hide Block, Entry, Put, Rotated, ModTable, Ending, U32, Round8, ValidTag, ValidTags, ModsOf, ModOf, Reading, Flat;
    BlockReading(b, tag, size, base, rest, junk, i);
    var t := rest[i];
    var dst := size - |t|;
    var c := Rotated(b, tag, size, |t|);
    var e := Entry(t, base + dst + 16);
    var d := Put(c, dst, e);
    PutParts(c, dst, e);
    PutBelow(c, dst, e, tag, dst);
    PutAbove(c, dst, e, dst + 16, size);
    PutAbove(c, dst, e, size, |c|);
    ReadingBelow(c, d, tag, dst, rest[i + 1..], junk);
    ReadingExtends(d, tag, dst, rest[i + 1..], junk, e);
    EntryAt(d, base, dst, t);
    BlockTable(b, tag, size, base, rest, junk, i, e);
    BlockGrows(b, d, tag, size, base, dst, rest, junk, e, i);
  }

  /* The entry behind the table makes the table one longer. */
  lemma {:induction false} BlockGrows(b: seq<byte>, d: seq<byte>, tag: nat, size: nat, base: nat, dst: nat,
      rest: seq<Tag>, junk: seq<byte>, e: seq<byte>, i: nat)
    requires Block(b, tag, size, base, rest, junk, i) && i < |rest| && Type(rest[i]) == MODULE && |e| == 16
    requires Reading(d, tag, dst + 16, rest[i + 1..], junk + e) && 16 * i <= dst && dst + 16 <= |d|
    requires ModTable(d, dst + 16, base, dst - 16 * i, ModsOf(rest[..i]))
    requires ModAt(d, dst + 16, base, dst, ModOf(rest[i]))
    ensures Block(d, tag, dst + 16, base, rest, junk + e, i + 1)
  {
    TableGrows(d, base, dst, rest, i);
    hide ModTable, Reading, ValidTag, ModsOf, ModAt;
  }

  /* The rotation of a module tag. */
  lemma {:induction false} BlockReading(b: seq<byte>, tag: nat, size: nat, base: nat, rest: seq<Tag>, junk: seq<byte>,
      i: nat)
    requires Block(b, tag, size, base, rest, junk, i) && i < |rest| && Type(rest[i]) == MODULE
    ensures var t := rest[i];
      && ValidTag(t) && tag + |t| <= size <= |b| && 16 <= |t|
      && var c, dst := Rotated(b, tag, size, |t|), size - |t|;
      && Reading(c, tag, dst, rest[i + 1..], junk) && c[dst..size] == t && c[dst + 16..dst + |t|] == t[16..] &&
        c[size..] == b[size..]
  {
    var t := rest[i];
    var left := rest[i..];
    assert left[0] == t && left[1..] == rest[i + 1..];
    ReadTag(b, tag, size, left, junk);
    TagShape(t);
    RotateTag(b, tag, size, left, junk, |t|);
    hide Rotated, ModTable, U32, Round8, ValidTag, ModsOf, Reading, Flat;
    assert junk + t[..0] == junk;
    SubSlice(Rotated(b, tag, size, |t|), size - |t|, size, 16, |t|);
  }

  lemma TagShape(t: Tag)
    requires ValidTag(t) && Type(t) == MODULE
    ensures 16 <= |t|
  {
  }

  /* The table moves down together with everything behind the tag. */
  lemma {:induction false} BlockTable(b: seq<byte>, tag: nat, size: nat, base: nat, rest: seq<Tag>, junk: seq<byte>,
      i: nat, e: seq<byte>)
    requires Block(b, tag, size, base, rest, junk, i) && i < |rest| && tag + |rest[i]| <= size && |e| == 16 <= |rest[i]|
    ensures var t := rest[i];
      && tag <= size - |t| - 16 * i
      && var dst := size - |t|;
      && var d := Put(Rotated(b, tag, size, |t|), dst, e);
      ModTable(d, dst + 16, base, dst - 16 * i, ModsOf(rest[..i]))
  {
    hide ModTable, ValidTag, U32, ModsOf, Rotated, Put, Ending;
    var t := rest[i];
    var dst := size - |t|;
    assert rest[i..][0] == t;
    assert |b[tag..size]| == |Flat(rest[i..])| + |junk| && |Flat(rest[i..])| >= |t|;
    hide Flat;
    var c := Rotated(b, tag, size, |t|);
    RotatedTail(b, tag, size, |t|, 16 * i);
    PutBelow(c, dst, e, dst - 16 * i, dst);
    PutAbove(c, dst, e, size, |c|);
    TableMoved(b, Put(c, dst, e), size, dst + 16, base, size - 16 * i, dst - 16 * i, ModsOf(rest[..i]));
  }

  lemma RotatedTail(b: seq<byte>, tag: nat, size: nat, k: nat, n: nat)
    requires tag + k + n <= size <= |b|
    ensures var c := Rotated(b, tag, size, k);
      c[size - k - n..size - k] == b[size - n..size] && c[size..] == b[size..]
  {
    var c := Rotated(b, tag, size, k);
    forall x | size - k - n <= x < size - k
      ensures c[x] == b[x + k]
    {
    }
  }

  lemma {:induction false} TableGrows(d: seq<byte>, base: nat, dst: nat, rest: seq<Tag>, i: nat)
    requires ValidTags(rest) && i < |rest| && (forall j :: 0 <= j <= i ==> Type(rest[j]) == MODULE) && 16 * i <= dst
    requires dst + 16 <= |d|
    requires ModTable(d, dst + 16, base, dst - 16 * i, ModsOf(rest[..i]))
    requires ModAt(d, dst + 16, base, dst, ModOf(rest[i]))
    ensures ModTable(d, dst + 16, base, dst + 16 - 16 * (i + 1), ModsOf(rest[..i + 1]))
  {
    hide ModAt, ModOf;
    var m, n := ModsOf(rest[..i]), ModsOf(rest[..i + 1]);
    assert forall j :: 0 <= j < i ==> rest[..i][j] == rest[..i + 1][j];
    forall j | 0 <= j < i + 1
      ensures ModAt(d, dst + 16, base, dst + 16 - 16 * (i + 1) + 16 * j, n[j])
    {
      if j < i {
        assert n[j] == m[j];
        assert ModAt(d, dst + 16, base, dst - 16 * i + 16 * j, m[j]);
      }
    }
  }

  lemma {:induction false} ModulesTold(b: seq<byte>, c: seq<byte>, lo: nat, size: nat, base: nat, info: Info,
      s: Summary, n: nat, mods: seq<Mod>)
    requires Denotes(b, lo, base, info, s) && |c| == |b| && size <= lo <= |b| && c[lo..] == b[lo..]
    requires |mods| == n && 16 * n <= size && ModTable(c, size, base, size - 16 * n, mods)
    ensures Denotes(c, size - 16 * n, base, info.(mods := Some(Table(size - 16 * n, n))), s.(mods := Some(mods)))
  {
    DenotesKept(b, c, lo, size - 16 * n, base, info, s);
    assert c[size - 16 * n..][16 * n..] == c[size..];
    hide Converted, Whole, U32;
    TableMoved(c, c, size, size - 16 * n, base, size - 16 * n, size - 16 * n, mods);
  }

  lemma {:induction false} TakenConcat(a: seq<Tag>, b: seq<Tag>)
    requires ValidTags(a) && ValidTags(b)
    ensures ValidTags(a + b) && Taken(a + b) == Taken(a) + Taken(b)
  {
    hide TakenBy, ValidTag;
    if a == [] {
      assert a + b == b;
    } else {
      TakenConcat(a[1..], b);
      assert (a + b)[1..] == a[1..] + b;
    }
  }

  lemma {:induction false} TakenNext(rest: seq<Tag>, i: nat)
    requires ValidTags(rest) && i < |rest|
    ensures Taken(rest[..i + 1]) == Taken(rest[..i]) + TakenBy(rest[i])
  {
    var one: seq<Tag> := [rest[i]];
    TakenConcat(rest[..i], one);
    assert rest[..i] + one == rest[..i + 1];
    assert |one[1..]| == 0;
  }

  /* The start of a block of module tags. */
  lemma {:induction false} BlockStart(b: seq<byte>, tag: nat, size: nat, base: nat, rest: seq<Tag>, junk: seq<byte>)
    requires Reading(b, tag, size, rest, junk)
    ensures Block(b, tag, size, base, rest, junk, 0) && Taken(rest[..0]) == 0 && tag + 8 <= size
    ensures U32(b, tag) == MODULE <==> 0 < ModuleRun(rest)
  {
    assert rest[0..] == rest;
    ReadTag(b, tag, size, rest, junk);
  }

  /* The tag at the front of what is left of a block. */
  lemma {:induction false} BlockTag(b: seq<byte>, tag: nat, size: nat, base: nat, rest: seq<Tag>, junk: seq<byte>,
      i: nat)
    requires Block(b, tag, size, base, rest, junk, i) && i < ModuleRun(rest)
    ensures var t := rest[i];
      && ValidTag(t) && Type(t) == MODULE && 16 <= |t| && tag + |t| + 8 <= size && b[tag..tag + |t|] == t
      && U32(b, tag + 4) == Size(t) && Round8(Size(t)) == |t|
  {
    assert rest[i..][0] == rest[i];
    ReadTag(b, tag, size, rest[i..], junk);
  }

  lemma {:induction false} BlockNext(b: seq<byte>, tag: nat, size: nat, base: nat, rest: seq<Tag>, junk: seq<byte>,
      i: nat, n: nat)
    requires Block(b, tag, size, base, rest, junk, i) && n == ModuleRun(rest) && i <= n
    ensures tag + 8 <= size && (U32(b, tag) == MODULE <==> i < n)
  {
    ReadTag(b, tag, size, rest[i..], junk);
    if i < |rest| {
      assert rest[i..][0] == rest[i];
    }
  }

  /* A module tag at its new place. */
  lemma {:induction false} MovedModule(b: seq<byte>, tag: nat, size: nat, t: Tag)
    requires ValidTag(t) && Type(t) == MODULE && tag + |t| <= size <= |b| && b[tag..tag + |t|] == t
    ensures TakenBy(t) == |t| && 16 <= |t| && Round8(Size(t) - 16) == |t| - 16
    ensures var c, dst := Rotated(b, tag, size, |t|), size - |t|;
      && U32(c, dst + 4) == Size(t) && c[dst + 8..dst + 16] == t[8..16] && c[size..] == b[size..]
  {
    RotatedParts(b, tag, size, t, b[tag + |t|..size]);
    var c, dst := Rotated(b, tag, size, |t|), size - |t|;
    Payload(c, size, t, 16);
    SizeOfMoved(c, dst, t);
    SubSlice(c, dst, size, 8, 16);
  }

  lemma TailKept(was: seq<byte>, now: seq<byte>, c: seq<byte>, lo: nat, top: nat)
    requires |was| == |now| == |c| && top <= lo <= |was| && now[lo..] == was[lo..] && c[top..] == now[top..]
    ensures c[lo..] == was[lo..]
  {
    SubSlice(c, top, |c|, lo - top, |c| - top);
    SubSlice(now, top, |c|, lo - top, |c| - top);
  }

  /* The end of a block of module tags: the table can be set aside. */
  lemma {:induction false} BlockEnd(was: seq<byte>, c: seq<byte>, lo: nat, tag: nat, size: nat, base: nat, info: Info,
      s: Summary, rest: seq<Tag>, junk: seq<byte>, n: nat)
    requires Block(c, tag, size, base, rest, junk, n) && Denotes(was, lo, base, info, s)
    requires |was| == |c| && size <= lo <= |was| && c[lo..] == was[lo..]
    ensures Round8(16 * n) == 16 * n <= size && 16 * n <= |junk|
    ensures Reading(c, tag, size - 16 * n, rest[n..], junk[..|junk| - 16 * n])
    ensures ValidTags(rest[..n]) && forall j :: 0 <= j < n ==> Type(rest[..n][j]) == MODULE
    ensures Denotes(c, size - 16 * n, base, info.(mods := Some(Table(size - 16 * n, n))),
      s.(mods := Some(ModsOf(rest[..n]))))
  {
    hide Denotes, Reading, ModTable, ModsOf, ValidTag;
    PrefixModules(rest, n);
    ReadingShrinks(c, tag, size, rest[n..], junk, 16 * n);
    ModulesTold(was, c, lo, size, base, info, s, n, ModsOf(rest[..n]));
  }

  lemma {:induction false} PrefixModules(rest: seq<Tag>, n: nat)
    requires ValidTags(rest) && n <= |rest| && forall j :: 0 <= j < n ==> Type(rest[j]) == MODULE
    ensures ValidTags(rest[..n]) && forall j :: 0 <= j < n ==> Type(rest[..n][j]) == MODULE
    ensures Round8(16 * n) == 16 * n
  {
    hide ValidTag;
  }

  lemma {:induction false} ConvertedNext(raw: seq<byte>, entry: nat, j: nat, done: seq<byte>)
    requires 24 <= entry < WORD && Whole(|raw|, entry) && j + entry <= |raw| && Whole(|raw| - j, entry)
    requires Converted(raw, entry) == done + Converted(raw[j..], entry)
    ensures Whole(|raw| - j - entry, entry)
    ensures Converted(raw, entry) == done + ConvertedEntry(raw[j..j + entry]) + Converted(raw[j + entry..], entry)
  {
    hide ConvertedEntry;
    assert raw[j..][..entry] == raw[j..j + entry] && raw[j..][entry..] == raw[j + entry..];
  }

  lemma ConvertedAll(raw: seq<byte>, entry: nat, done: seq<byte>)
    requires 24 <= entry < WORD && Whole(|raw|, entry) && |done| == |raw|
    requires Converted(raw, entry) == done + Converted(raw[|raw|..], entry)
    ensures Converted(raw, entry) == done
  {
    assert raw[|raw|..] == [];
  }

  lemma {:induction false} EntryUntouched(was: seq<byte>, at: nat, done: seq<byte>, raw: seq<byte>, e: nat, entry: nat)
    requires at + |raw| <= |was| && was[at..at + |raw|] == raw && e == at + |done| < at + |raw|
    requires 24 <= entry && Whole(at + |raw| - e, entry)
    ensures e + entry <= at + |raw| && Whole(at + |raw| - e - entry, entry)
    ensures Put(was, at, done)[e..e + entry] == raw[e - at..e - at + entry]
  {
    SubSlice(was, at, at + |raw|, e - at, e - at + entry);
    PutAbove(was, at, done, e, e + entry);
  }

  lemma {:induction false} EntryConverted(was: seq<byte>, now: seq<byte>, at: nat, done: seq<byte>, raw: seq<byte>,
      e: nat, entry: nat)
    requires at + |raw| <= |was| && e == at + |done| && 24 <= entry < WORD && e + entry <= at + |raw|
    requires now == Put(was, at, done) && now[e..e + entry] == raw[e - at..e - at + entry]
    ensures Put(now, e, LE32(entry - 4) + now[e..e + 20]) ==
      Put(was, at, done + ConvertedEntry(raw[e - at..e - at + entry]))
  {
    var r := raw[e - at..e - at + entry];
    SubSlice(now, e, e + entry, 0, 20);
    SubSlice(now, e, e + entry, 24, entry);
    SameConversion(now, e, r);
    PutTwice(was, at, done, ConvertedEntry(r));
  }

  /* Overwriting the first 24 bytes converts the whole entry. */
  lemma SameConversion(now: seq<byte>, e: nat, r: seq<byte>)
    requires 24 <= |r| < WORD && e + |r| <= |now| && now[e..e + 20] == r[..20] && now[e + 24..e + |r|] == r[24..]
    ensures Put(now, e, LE32(|r| - 4) + now[e..e + 20]) == Put(now, e, ConvertedEntry(r))
  {
    hide LE32;
    assert now[e + 24..] == now[e + 24..e + |r|] + now[e + |r|..];
  }

  lemma PutTwice(was: seq<byte>, at: nat, a: seq<byte>, b: seq<byte>)
    requires at + |a| + |b| <= |was|
    ensures Put(Put(was, at, a), at + |a|, b) == Put(was, at, a + b)
  {
  }

  /* A memory map tag at its new place. */
  lemma {:induction false} MovedMap(c: seq<byte>, size: nat, t: Tag)
    requires ValidTag(t) && Type(t) == MEMMAP && |t| <= size <= |c| && c[size - |t|..size] == t
    ensures var dst, m := size - |t|, MemMapOf(t);
      && TakenBy(t) == |t| - 16 && 16 <= Size(t) <= |t| && Round8(Size(t) - 16) == |t| - 16
      && U32(c, dst + 4) == Size(t) && U32(c, dst + 8) == m.entry && 24 <= m.entry < WORD && Whole(|m.raw|, m.entry)
      && |m.raw| == Size(t) - 16 && c[dst + 16..dst + Size(t)] == m.raw
  {
    Payload(c, size, t, 16);
    SizeOfMoved(c, size - |t|, t);
    EntrySizeOfMoved(c, size - |t|, t);
  }

  /* Converting the entries changes neither the tags still to be read nor what was set aside before. */
  lemma {:induction false} ConvertedBelow(b: seq<byte>, tag: nat, at: nat, rest: seq<Tag>, junk: seq<byte>,
      done: seq<byte>, lo: nat)
    requires Reading(b, tag, at, rest, junk) && at + |done| <= lo <= |b|
    ensures var c := Put(b, at, done);
      Reading(c, tag, at, rest, junk) && c[at..at + |done|] == done && c[lo..] == b[lo..]
  {
    PutParts(b, at, done);
    PutBelow(b, at, done, tag, at);
    PutAbove(b, at, done, lo, |b|);
    hide Put;
    ReadingBelow(b, Put(b, at, done), tag, at, rest, junk);
  }

  lemma EntrySizeOfMoved(c: seq<byte>, dst: nat, t: Tag)
    requires ValidTag(t) && Type(t) == MEMMAP && dst + |t| <= |c| && c[dst..dst + |t|] == t
    ensures 16 <= |t| && U32(c, dst + 8) == U32(t, 8) && 24 <= U32(t, 8) < WORD && Whole(Size(t) - 16, U32(t, 8))
  {
    U32Slice(c, dst, dst + |t|, 8);
  }
}
