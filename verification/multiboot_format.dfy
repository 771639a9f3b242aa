/** The parts of the Multiboot2 information structure (section 3.6 of the Multiboot2 Specification,
    version 2.0) and of its predecessor that the conversion in server/src/multiboot2.cc deals with.
    The declarations of both formats, mb_info.h, are not part of this model: the layouts are those of
    the specification. */
module MultibootFormat {
  import opened Options

  type byte = x: int | 0 <= x < 0x100

  const WORD: nat := 0x1_0000_0000

  /** The little-endian 32-bit number at offset `o`. */
  function U32(b: seq<byte>, o: nat): (x: nat)
    requires o + 4 <= |b|
    ensures x < WORD
  {
    b[o] as int + 0x100 * b[o + 1] as int + 0x1_0000 * b[o + 2] as int + 0x100_0000 * b[o + 3] as int
  }

  /** The same, byte by byte, as a measure for what is read and written. */
  ghost function NumberAt(b: seq<byte>, o: nat): nat
    requires o + 4 <= |b|
  {
    b[o] as int + 256 * (b[o + 1] as int + 256 * (b[o + 2] as int + 256 * (b[o + 3] as int)))
  }

  function LE32(x: nat): (s: seq<byte>)
    requires x < WORD
    ensures |s| == 4
  {
    [x % 0x100, x / 0x100 % 0x100, x / 0x1_0000 % 0x100, x / 0x100_0000]
  }

  lemma ReadWritten(x: nat)
    requires x < WORD
    ensures U32(LE32(x), 0) == x
  {
    var a := x / 0x100;
    var c := a / 0x100;
    assert x / 0x1_0000 == c && x / 0x100_0000 == c / 0x100;
  }

  function Round8(x: nat): (r: nat)
    ensures x <= r < x + 8 && r % 8 == 0
  {
    (x + 7) / 8 * 8
  }

  /* ---- tags ---- */

  const TERMINATOR: nat := 0
  const CMDLINE: nat := 1
  const MODULE: nat := 3
  const MEMMAP: nat := 6
  const FRAMEBUFFER: nat := 8
  const RSDP_OLD: nat := 14
  const RSDP_NEW: nat := 15

  /** A tag as it lies in memory, padded to a multiple of eight bytes. */
  type Tag = seq<byte>

  function Type(t: Tag): nat
    requires 8 <= |t|
  {
    U32(t, 0)
  }

  /* The size in the header, without the padding. */
  function Size(t: Tag): nat
    requires 8 <= |t|
  {
    U32(t, 4)
  }

  predicate IsRsdp(t: Tag)
    requires 8 <= |t|
  {
    Type(t) == RSDP_OLD || Type(t) == RSDP_NEW
  }

  /** A tag other than the terminator; framebuffer tags are excluded. */
  predicate ValidTag(t: Tag) {
    && 8 <= |t| && 8 <= Size(t) && |t| == Round8(Size(t))
    && Type(t) != TERMINATOR && Type(t) != FRAMEBUFFER
    && (Type(t) == MODULE ==> 16 <= Size(t))
    && (Type(t) == MEMMAP ==> 16 <= Size(t) && 24 <= U32(t, 8) && Whole(Size(t) - 16, U32(t, 8)))
  }

  /* A memory map of `n` bytes consists of whole entries. */
  predicate Whole(n: int, entry: nat)
    requires 0 < entry
    decreases n
  {
    n == 0 || (entry <= n && Whole(n - entry, entry))
  }

  ghost predicate ValidTags(tags: seq<Tag>) {
    forall i :: 0 <= i < |tags| ==> ValidTag(tags[i])
  }

  /** The tags one behind the other. */
  function Flat(tags: seq<Tag>): seq<byte> {
    if tags == [] then [] else tags[0] + Flat(tags[1..])
  }

  /** What ends the tags: a terminator, and anything behind it. */
  predicate Ending(s: seq<byte>) {
    8 <= |s| && U32(s, 0) == TERMINATOR
  }

  /* ---- what the tags say ---- */

  /** A boot module: the bytes of its start and end address, and of its command line. */
  datatype Mod = Mod(range: seq<byte>, name: seq<byte>)

  /** A memory map: the bytes of its entries, and the size of each. */
  datatype MemMap = MemMap(raw: seq<byte>, entry: nat)

  /** The information that is passed on. */
  datatype Summary = Summary(cmdline: Option<seq<byte>>, mods: Option<seq<Mod>>, memmap: Option<MemMap>,
    rsdp: Option<seq<byte>>)

  const NOTHING := Summary(None, None, None, None)

  function ModOf(t: Tag): Mod
    requires ValidTag(t) && Type(t) == MODULE
  {
    Mod(t[8..16], t[16..Size(t)])
  }

  function MemMapOf(t: Tag): MemMap
    requires ValidTag(t) && Type(t) == MEMMAP
  {
    MemMap(t[16..Size(t)], U32(t, 8))
  }

  /** The number of module tags at the front. */
  function ModuleRun(tags: seq<Tag>): (n: nat)
    requires ValidTags(tags)
    ensures n <= |tags| && forall i :: 0 <= i < n ==> Type(tags[i]) == MODULE
    ensures n < |tags| ==> Type(tags[n]) != MODULE
  {
    if tags == [] || Type(tags[0]) != MODULE then 0 else 1 + ModuleRun(tags[1..])
  }

  function ModsOf(tags: seq<Tag>): (m: seq<Mod>)
    requires ValidTags(tags) && forall i :: 0 <= i < |tags| ==> Type(tags[i]) == MODULE
    ensures |m| == |tags|
  {
    seq(|tags|, i requires 0 <= i < |tags| && ValidTags(tags) && Type(tags[i]) == MODULE => ModOf(tags[i]))
  }

  /** What one tag other than a module tag says: it replaces an earlier one of its kind. */
  function Tell(s: Summary, t: Tag): (r: Summary)
    requires ValidTag(t) && Type(t) != MODULE
    ensures r.mods == s.mods
  {
    if Type(t) == CMDLINE then s.(cmdline := Some(t[8..Size(t)]))
    else if Type(t) == MEMMAP then s.(memmap := Some(MemMapOf(t)))
    else if IsRsdp(t) then s.(rsdp := Some(t[8..Size(t)]))
    else s
  }

  /** What the tags say, one after the other: a later block of module tags replaces an earlier one. */
  function Told(s: Summary, tags: seq<Tag>): Summary
    requires ValidTags(tags)
    decreases |tags|
  {
    if tags == [] then s
    else if Type(tags[0]) == MODULE then
      var n := ModuleRun(tags);
      Told(s.(mods := Some(ModsOf(tags[..n]))), tags[n..])
    else Told(Tell(s, tags[0]), tags[1..])
  }

  /** The bytes that the conversion takes from the end of the buffer. */
  ghost function Taken(tags: seq<Tag>): nat
    requires ValidTags(tags)
  {
    if tags == [] then 0 else TakenBy(tags[0]) + Taken(tags[1..])
  }

  ghost function TakenBy(t: Tag): (n: nat)
    requires ValidTag(t)
    ensures n <= |t|
  {
    var kind := NumberAt(t, 0);
    if kind == 1 || kind == 14 || kind == 15 then |t| - 8
    else if kind == 3 then |t|
    else if kind == 6 then |t| - 16
    else 0
  }

  lemma TakenByType(t: Tag)
    requires ValidTag(t)
    ensures TakenBy(t) == if Type(t) == CMDLINE || IsRsdp(t) then |t| - 8
      else if Type(t) == MODULE then |t|
      else if Type(t) == MEMMAP then |t| - 16
      else 0
  {
  }

  /** Module tags that follow each other: the block that the table is made of holds all of them. */
  predicate OneBlock(tags: seq<Tag>)
    requires ValidTags(tags)
  {
    if tags == [] then true
    else if Type(tags[0]) != MODULE then OneBlock(tags[1..])
    else forall i :: ModuleRun(tags) <= i < |tags| ==> Type(tags[i]) != MODULE
  }

  /** The modules that the tags of type 3 describe. */
  ghost function AllModules(tags: seq<Tag>): seq<Mod>
    requires ValidTags(tags)
  {
    if tags == [] then []
    else
      var t := tags[0];
      (if NumberAt(t, 0) == 3 then [Mod(t[8..16], t[16..NumberAt(t, 4)])] else []) + AllModules(tags[1..])
  }

  lemma {:induction false} RunOfModules(tags: seq<Tag>, n: nat)
    requires ValidTags(tags) && n <= |tags| && forall i :: 0 <= i < n ==> Type(tags[i]) == MODULE
    ensures AllModules(tags) == ModsOf(tags[..n]) + AllModules(tags[n..])
    decreases n
  {
    hide ModOf, ModsOf, AllModules, ValidTag, Type;
    if n > 0 {
      ModuleListed(tags);
      RunOfModules(tags[1..], n - 1);
      assert tags[1..][..n - 1] == tags[1..n] && tags[1..][n - 1..] == tags[n..];
      ModsFront(tags, n);
      var a, b, c := [ModOf(tags[0])], ModsOf(tags[1..n]), AllModules(tags[n..]);
      assert a + (b + c) == (a + b) + c;
    } else {
      assert tags[0..] == tags;
      NoMods(tags);
    }
  }

  lemma ModuleListed(tags: seq<Tag>)
    requires ValidTags(tags) && tags != [] && Type(tags[0]) == MODULE
    ensures AllModules(tags) == [ModOf(tags[0])] + AllModules(tags[1..])
  {
  }

  lemma NoMods(tags: seq<Tag>)
    requires ValidTags(tags)
    ensures ModsOf(tags[..0]) == []
  {
  }

  lemma ModsFront(tags: seq<Tag>, n: nat)
    requires ValidTags(tags) && 0 < n <= |tags| && forall i :: 0 <= i < n ==> Type(tags[i]) == MODULE
    ensures ModsOf(tags[..n]) == [ModOf(tags[0])] + ModsOf(tags[1..n])
  {
    hide ModOf;
  }

  /** The last tag of one of two types; -1 if there is none. */
  ghost predicate LastOf(tags: seq<Tag>, type1: nat, type2: nat, i: int)
    requires ValidTags(tags)
  {
    && -1 <= i < |tags|
    && (0 <= i ==> NumberAt(tags[i], 0) == type1 || NumberAt(tags[i], 0) == type2)
    && forall j :: i < j < |tags| ==> NumberAt(tags[j], 0) != type1 && NumberAt(tags[j], 0) != type2
  }

  /** What the result says besides the modules: the command line of the last tag of type 1, the memory map of
      the last one of type 6, and the RSDP of the last one of type 14 or 15, if there is one. */
  lemma {:induction false} LastTold(s: Summary, tags: seq<Tag>, c: int, m: int, r: int)
    requires ValidTags(tags) && LastOf(tags, 1, 1, c) && LastOf(tags, 6, 6, m) && LastOf(tags, 14, 15, r)
    ensures var told := Told(s, tags);
      && told.cmdline == (if c < 0 then s.cmdline else Some(tags[c][8..NumberAt(tags[c], 4)]))
      && told.memmap == (if m < 0 then s.memmap
        else Some(MemMap(tags[m][16..NumberAt(tags[m], 4)], NumberAt(tags[m], 8))))
      && told.rsdp == (if r < 0 then s.rsdp else Some(tags[r][8..NumberAt(tags[r], 4)]))
    decreases |tags|
  {
    if tags != [] {
      NumbersAgree(tags);
      var n := if Type(tags[0]) == MODULE then ModuleRun(tags) else 1;
      LastLater(tags, n, 1, 1, c);
      LastLater(tags, n, 6, 6, m);
      LastLater(tags, n, 14, 15, r);
      if Type(tags[0]) == MODULE {
        hide ValidTag, ModsOf, NumberAt, Type, Size, LastOf;
        LastTold(s.(mods := Some(ModsOf(tags[..n]))), tags[n..], Later(c, n), Later(m, n), Later(r, n));
      } else {
        TellOne(s, tags[0]);
        hide ValidTag, Tell, NumberAt, Type, Size, LastOf;
        LastTold(Tell(s, tags[0]), tags[1..], Later(c, 1), Later(m, 1), Later(r, 1));
      }
    }
  }

  lemma LastLater(tags: seq<Tag>, n: nat, type1: nat, type2: nat, i: int)
    requires ValidTags(tags) && n <= |tags| && LastOf(tags, type1, type2, i)
    ensures LastOf(tags[n..], type1, type2, Later(i, n))
    ensures Later(i, n) >= 0 ==> tags[n..][Later(i, n)] == tags[i]
    ensures 0 <= i < n ==> NumberAt(tags[i], 0) == type1 || NumberAt(tags[i], 0) == type2
    ensures 0 < n && i < 0 ==> NumberAt(tags[0], 0) != type1 && NumberAt(tags[0], 0) != type2
  {
    hide NumberAt, ValidTag;
    assert forall j :: n <= j < |tags| ==> tags[n..][j - n] == tags[j];
  }

  ghost function Later(i: int, n: nat): int { if i < n then -1 else i - n }

  lemma NumbersAgree(tags: seq<Tag>)
    requires ValidTags(tags)
    ensures forall i :: 0 <= i < |tags| ==>
      Type(tags[i]) == NumberAt(tags[i], 0) && Size(tags[i]) == NumberAt(tags[i], 4)
  {
  }

  lemma TellOne(s: Summary, t: Tag)
    requires ValidTag(t) && Type(t) != MODULE
    ensures Type(t) == NumberAt(t, 0) && Size(t) == NumberAt(t, 4)
    ensures Tell(s, t).cmdline == if NumberAt(t, 0) == 1 then Some(t[8..NumberAt(t, 4)]) else s.cmdline
    ensures Tell(s, t).memmap ==
      if NumberAt(t, 0) == 6 then Some(MemMap(t[16..NumberAt(t, 4)], NumberAt(t, 8))) else s.memmap
    ensures Tell(s, t).rsdp ==
      if NumberAt(t, 0) == 14 || NumberAt(t, 0) == 15 then Some(t[8..NumberAt(t, 4)]) else s.rsdp
  {
  }

  lemma {:induction false} NoneListed(tags: seq<Tag>)
    requires ValidTags(tags)
    ensures AllModules(tags) == [] <==> forall i :: 0 <= i < |tags| ==> Type(tags[i]) != MODULE
  {
    hide ModOf;
    if tags != [] {
      NoneListed(tags[1..]);
      assert forall i :: 0 < i < |tags| ==> tags[i] == tags[1..][i - 1];
    }
  }

  /** `told` is the end of `all`. */
  predicate EndOf(told: Option<seq<Mod>>, all: seq<Mod>) {
    told.Some? && 0 < |told.value| <= |all| && told.value == all[|all| - |told.value|..]
  }

  lemma EndOfLonger(told: Option<seq<Mod>>, front: seq<Mod>, rest: seq<Mod>)
    requires EndOf(told, rest)
    ensures EndOf(told, front + rest)
  {
    var m := told.value;
    assert (front + rest)[|front| + |rest| - |m|..] == rest[|rest| - |m|..];
  }

  /* A block of module tags at the front is the only one if no module follows it. */
  lemma OneBlockFront(tags: seq<Tag>)
    requires ValidTags(tags) && tags != [] && Type(tags[0]) == MODULE
    ensures var n := ModuleRun(tags);
      && 0 < n && AllModules(tags) == ModsOf(tags[..n]) + AllModules(tags[n..]) && |ModsOf(tags[..n])| == n
      && (OneBlock(tags) <==> AllModules(tags[n..]) == [])
  {
    hide ModOf, ModsOf, AllModules;
    var n := ModuleRun(tags);
    RunOfModules(tags, n);
    NoneListed(tags[n..]);
    assert forall i :: n <= i < |tags| ==> tags[i] == tags[n..][i - n];
  }

  /** The modules passed on are the last ones, in order; all of them exactly if the module tags follow each
      other, since otherwise a later block has replaced an earlier one. */
  lemma {:induction false} ModulesTold(s: Summary, tags: seq<Tag>)
    requires ValidTags(tags)
    ensures AllModules(tags) == [] ==> Told(s, tags).mods == s.mods && OneBlock(tags)
    ensures AllModules(tags) != [] ==> EndOf(Told(s, tags).mods, AllModules(tags))
    ensures AllModules(tags) != [] ==> (Told(s, tags).mods.value == AllModules(tags) <==> OneBlock(tags))
    decreases |tags|
  {
    hide Tell, ModOf, ModsOf;
    if tags != [] {
      if Type(tags[0]) == MODULE {
        var n := ModuleRun(tags);
        OneBlockFront(tags);
        hide OneBlock, ModuleRun, AllModules;
        var front, rest := ModsOf(tags[..n]), AllModules(tags[n..]);
        ModulesTold(s.(mods := Some(front)), tags[n..]);
        if rest != [] {
          EndOfLonger(Told(s, tags).mods, front, rest);
        } else {
          assert front + rest == front;
        }
      } else {
        assert AllModules(tags) == AllModules(tags[1..]);
        ModulesTold(Tell(s, tags[0]), tags[1..]);
      }
    }
  }

  /** Every module is passed on, in order, if and only if the module tags follow each other. */
  lemma EveryModuleTold(s: Summary, tags: seq<Tag>)
    requires ValidTags(tags) && s.mods == None
    ensures Told(s, tags).mods == (if AllModules(tags) == [] then None else Some(AllModules(tags))) <==> OneBlock(tags)
    ensures !OneBlock(tags) ==> Told(s, tags).mods.Some? && |Told(s, tags).mods.value| < |AllModules(tags)|
  {
    ModulesTold(s, tags);
  }

  /* ---- memory maps ---- */

  /** One entry of the old format in place of a new one: the size of the rest, and then address, length
      and type. */
  function ConvertedEntry(e: seq<byte>): (c: seq<byte>)
    requires 24 <= |e| < WORD
    ensures |c| == |e|
  {
    LE32(|e| - 4) + e[..20] + e[24..]
  }

  function Converted(raw: seq<byte>, entry: nat): (c: seq<byte>)
    requires 24 <= entry < WORD && Whole(|raw|, entry)
    ensures |c| == |raw|
  {
    if raw == [] then [] else ConvertedEntry(raw[..entry]) + Converted(raw[entry..], entry)
  }

  /** Reading a map of the new format: the address, length and type of every entry. */
  function NewEntries(raw: seq<byte>, entry: nat): seq<seq<byte>>
    requires 24 <= entry && Whole(|raw|, entry)
  {
    if raw == [] then [] else [raw[..20]] + NewEntries(raw[entry..], entry)
  }

  /** Reading a map of the old format, where every entry tells its own size; nothing if it is damaged. */
  function OldEntries(c: seq<byte>): Option<seq<seq<byte>>> {
    if c == [] then Some([])
    else if |c| < 24 || U32(c, 0) < 20 || |c| < U32(c, 0) + 4 then None
    else
      match OldEntries(c[U32(c, 0) + 4..])
      case None => None
      case Some(rest) => Some([c[4..24]] + rest)
  }

  /** The converted map says the same as the original. */
  lemma {:induction false} ConvertedMeaning(raw: seq<byte>, entry: nat)
    requires 24 <= entry < WORD && Whole(|raw|, entry)
    ensures OldEntries(Converted(raw, entry)) == Some(NewEntries(raw, entry))
  {
    if raw != [] {
      ConvertedHead(raw[..entry], Converted(raw[entry..], entry));
      assert raw[..entry][..20] == raw[..20];
      ConvertedMeaning(raw[entry..], entry);
    }
  }

  lemma ConvertedHead(e: seq<byte>, rest: seq<byte>)
    requires 24 <= |e| < WORD
    ensures var c := ConvertedEntry(e) + rest;
      U32(c, 0) == |e| - 4 && c[4..24] == e[..20] && c[|e|..] == rest
  {
    ReadWritten(|e| - 4);
    hide U32, LE32;
    U32Prefix(LE32(|e| - 4), e[..20] + e[24..] + rest);
    assert ConvertedEntry(e) + rest == LE32(|e| - 4) + (e[..20] + e[24..] + rest);
  }

  lemma U32Prefix(a: seq<byte>, b: seq<byte>)
    requires 4 <= |a|
    ensures U32(a + b, 0) == U32(a, 0)
  {
  }
}
