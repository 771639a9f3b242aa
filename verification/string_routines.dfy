/** The word-wise string routines of the 32-bit start-up code (server/src/ARCH-amd64/libc32). Memory is
    an array of bytes; the address of a byte is its index. */
module StringRoutines {
  import opened Options

  const WORDS: nat := 0x1_0000_0000

  /* ---- words ---- */

  const ONES: bv32 := 0x0101_0101
  const HIGHS: bv32 := 0x8080_8080

  /** A little-endian word. */
  function Word(b0: bv8, b1: bv8, b2: bv8, b3: bv8): bv32 {
    (b0 as bv32) | ((b1 as bv32) << 8) | ((b2 as bv32) << 16) | ((b3 as bv32) << 24)
  }

  function Byte0(w: bv32): bv8 { (w & 0xFF) as bv8 }
  function Byte1(w: bv32): bv8 { ((w >> 8) & 0xFF) as bv8 }
  function Byte2(w: bv32): bv8 { ((w >> 16) & 0xFF) as bv8 }
  function Byte3(w: bv32): bv8 { ((w >> 24) & 0xFF) as bv8 }

  lemma BytesOfWord(b0: bv8, b1: bv8, b2: bv8, b3: bv8)
    ensures var w := Word(b0, b1, b2, b3); Byte0(w) == b0 && Byte1(w) == b1 && Byte2(w) == b2 && Byte3(w) == b3
  {
  }

  /** The same byte four times. */
  function Repeated(c: bv8): bv32 { ONES * (c as bv32) }

  lemma BytesRepeated(c: bv8)
    ensures var w := Repeated(c); Byte0(w) == c && Byte1(w) == c && Byte2(w) == c && Byte3(w) == c
  {
  }

  /** The bit trick both searches rest on. */
  function HasZero(x: bv32): bv32 { (x - ONES) & !x & HIGHS }

  /** It is non-zero exactly when some byte of the word is zero. */
  lemma HasZeroMeaning(b0: bv8, b1: bv8, b2: bv8, b3: bv8)
    ensures HasZero(Word(b0, b1, b2, b3)) != 0 <==> b0 == 0 || b1 == 0 || b2 == 0 || b3 == 0
  {
  }

  /** And of the word combined with a repeated byte, exactly when that byte occurs. */
  lemma HasByteMeaning(b0: bv8, b1: bv8, b2: bv8, b3: bv8, c: bv8)
    ensures HasZero(Word(b0, b1, b2, b3) ^ Repeated(c)) != 0 <==> b0 == c || b1 == c || b2 == c || b3 == c
  {
    XorRepeated(b0, b1, b2, b3, c);
    XorZero(b0, c);
    XorZero(b1, c);
    XorZero(b2, c);
    XorZero(b3, c);
    hide Word, HasZero, Repeated;
    HasZeroMeaning(b0 ^ c, b1 ^ c, b2 ^ c, b3 ^ c);
  }

  lemma XorRepeated(b0: bv8, b1: bv8, b2: bv8, b3: bv8, c: bv8)
    ensures Word(b0, b1, b2, b3) ^ Repeated(c) == Word(b0 ^ c, b1 ^ c, b2 ^ c, b3 ^ c)
  {
    RepeatedIsWord(c);
    hide Repeated;
    assert Word(b0, b1, b2, b3) ^ Word(c, c, c, c) == Word(b0 ^ c, b1 ^ c, b2 ^ c, b3 ^ c);
  }

  lemma RepeatedIsWord(c: bv8)
    ensures Repeated(c) == Word(c, c, c, c)
  {
  }

  lemma XorZero(b: bv8, c: bv8)
    ensures b ^ c == 0 <==> b == c
  {
  }

  method Load32(m: array<bv8>, at: nat) returns (w: bv32)
    requires at + 4 <= m.Length
    ensures w == Word(m[at], m[at + 1], m[at + 2], m[at + 3])
  {
    w := Word(m[at], m[at + 1], m[at + 2], m[at + 3]);
  }

  method Store32(m: array<bv8>, at: nat, w: bv32)
    requires at + 4 <= m.Length
    modifies m
    ensures m[at] == Byte0(w) && m[at + 1] == Byte1(w) && m[at + 2] == Byte2(w) && m[at + 3] == Byte3(w)
    ensures forall x :: 0 <= x < m.Length && !(at <= x < at + 4) ==> m[x] == old(m[x])
  {
    m[at], m[at + 1], m[at + 2], m[at + 3] := Byte0(w), Byte1(w), Byte2(w), Byte3(w);
  }

  /* ---- searching ---- */

  /** The length of the string at `s`: the distance of the first zero byte. */
  method Strlen(m: array<bv8>, s: nat) returns (r: nat)
    requires m.Length % 4 == 0 && exists z :: s <= z < m.Length && m[z] == 0
    ensures s + r < m.Length && m[s + r] == 0 && forall x :: s <= x < s + r ==> m[x] != 0
  {
    hide Word, HasZero;
    ghost var z :| s <= z < m.Length && m[z] == 0;
    var p := s;
    while p % 4 != 0
      invariant s <= p <= z && forall x :: s <= x < p ==> m[x] != 0
      decreases z - p
    {
      if m[p] == 0 {
        return p - s;
      }
      p := p + 1;
    }
    while true
      invariant s <= p <= z && p % 4 == 0 && forall x :: s <= x < p ==> m[x] != 0
      decreases z - p
    {
      WholeWord(p, m.Length);
      var w := Load32(m, p);
      HasZeroMeaning(m[p], m[p + 1], m[p + 2], m[p + 3]);
      if HasZero(w) != 0 {
        break;
      }
      p := p + 4;
    }
    while m[p] != 0
      invariant s <= p <= z && forall x :: s <= x < p ==> m[x] != 0
      decreases z - p
    {
      p := p + 1;
    }
    return p - s;
  }

  lemma WholeWord(p: nat, length: nat)
    requires p % 4 == 0 && length % 4 == 0 && p < length
    ensures p + 4 <= length
  {
  }

  /** The first of `n` bytes at `src` that equals the low byte of `c`. */
  method Memchr(m: array<bv8>, src: nat, c: bv32, n: nat) returns (r: Option<nat>)
    requires src + n <= m.Length
    ensures match r
      case Some(p) => src <= p < src + n && m[p] == Byte0(c) && forall x :: src <= x < p ==> m[x] != Byte0(c)
      case None => forall x :: src <= x < src + n ==> m[x] != Byte0(c)
  {
    hide Word, HasZero, Byte0, Repeated;
    var b := Byte0(c);
    var s, left := src, n;
    while s % 4 != 0 && left > 0 && m[s] != b
      invariant 0 <= left && src <= s && s + left == src + n && forall x :: src <= x < s ==> m[x] != b
      decreases left
    {
      s, left := s + 1, left - 1;
    }
    if left > 0 && m[s] != b {
      var k := Repeated(b);
      while left >= 4
        invariant 0 <= left && src <= s && s + left == src + n && forall x :: src <= x < s ==> m[x] != b
        decreases left
      {
        var w := Load32(m, s);
        HasByteMeaning(m[s], m[s + 1], m[s + 2], m[s + 3], b);
        if HasZero(w ^ k) != 0 {
          break;
        }
        s, left := s + 4, left - 4;
      }
    }
    while left > 0 && m[s] != b
      invariant 0 <= left && src <= s && s + left == src + n && forall x :: src <= x < s ==> m[x] != b
      decreases left
    {
      s, left := s + 1, left - 1;
    }
    return if left > 0 then Some(s) else None;
  }

  /* ---- copying ---- */

  /** Memory after the bytes `s` up to `s + n` of `was` were copied to `d`. */
  ghost predicate Copied(was: seq<bv8>, now: seq<bv8>, d: nat, s: nat, n: nat)
    requires s + n <= |was|
  {
    && |now| == |was|
    && forall x {:trigger now[x]} :: 0 <= x < |was| ==> now[x] == if d <= x < d + n then was[s + (x - d)] else was[x]
  }

  /** The comparison, in 32-bit arithmetic, that is meant to recognise buffers without a common byte. */
  predicate LooksDisjoint(d: nat, s: nat, n: nat)
    requires n <= WORDS && d < WORDS && s < WORDS
  {
    (s + 2 * WORDS - d - n) % WORDS <= (2 * WORDS - 2 * n) % WORDS
  }

  /** For different buffers within the address space it does so exactly up to half the address space;
      beyond that it takes every pair for disjoint. */
  lemma LooksDisjointExact(d: nat, s: nat, n: nat)
    requires 0 < n && d != s && s + n <= WORDS && d + n <= WORDS
    ensures LooksDisjoint(d, s, n) <==> s + n <= d || d + n <= s || n > WORDS / 2
  {
  }

  /** The assembly `memcpy`: a copy between buffers without a common byte. */
  method Memcpy(m: array<bv8>, d: nat, s: nat, n: nat)
    requires s + n <= m.Length && d + n <= m.Length && (s + n <= d || d + n <= s)
    modifies m
    ensures Copied(old(m[..]), m[..], d, s, n)
  {
    forall i | 0 <= i < n {
      m[d + i] := m[s + i];
    }
  }

  method CopyByte(m: array<bv8>, d: nat, s: nat)
    requires s < m.Length && d < m.Length
    modifies m
    ensures Copied(old(m[..]), m[..], d, s, 1)
  {
    m[d] := m[s];
  }

  /** What was copied first is not read again, so the copies add up: upwards for a destination below the
      source, downwards for one above it. */
  lemma CopiesAddUp(was: seq<bv8>, now: seq<bv8>, next: seq<bv8>, d: nat, s: nat, i: nat, k: nat)
    requires d < s && s + i + k <= |was| && Copied(was, now, d, s, i) && Copied(now, next, d + i, s + i, k)
    ensures Copied(was, next, d, s, i + k)
  {
    forall x | 0 <= x < |was|
      ensures next[x] == if d <= x < d + i + k then was[s + (x - d)] else was[x]
    {
      if d + i <= x < d + i + k {
        var y := s + i + (x - (d + i));
        assert next[x] == now[y] && now[y] == was[y] && y == s + (x - d);
      } else if d <= x < d + i {
        assert next[x] == now[x];
      }
    }
  }

  lemma CopiesAddDown(was: seq<bv8>, now: seq<bv8>, next: seq<bv8>, d: nat, s: nat, i: nat, k: nat)
    requires s < d && s + k + i <= |was| && Copied(was, now, d + k, s + k, i) && Copied(now, next, d, s, k)
    ensures Copied(was, next, d, s, k + i)
  {
    forall x | 0 <= x < |was|
      ensures next[x] == if d <= x < d + k + i then was[s + (x - d)] else was[x]
    {
      if d <= x < d + k {
        var y := s + (x - d);
        assert next[x] == now[y] && now[y] == was[y];
      } else if d + k <= x < d + k + i {
        var y := s + k + (x - (d + k));
        assert next[x] == now[x] && now[x] == was[y] && y == s + (x - d);
      }
    }
  }

  lemma NothingCopied(was: seq<bv8>, d: nat, s: nat)
    requires s <= |was|
    ensures Copied(was, was, d, s, 0)
  {
  }

  method CopyWord(m: array<bv8>, d: nat, s: nat)
    requires s + 4 <= m.Length && d + 4 <= m.Length
    modifies m
    ensures Copied(old(m[..]), m[..], d, s, 4)
  {
    hide Word, Byte0, Byte1, Byte2, Byte3;
    BytesOfWord(m[s], m[s + 1], m[s + 2], m[s + 3]);
    var w := Load32(m, s);
    Store32(m, d, w);
    forall x | d <= x < d + 4
      ensures m[x] == old(m[s + (x - d)])
    {
      assert x == d || x == d + 1 || x == d + 2 || x == d + 3;
    }
  }

  /* One byte or word more, upwards and downwards. */
  method StepUp(m: array<bv8>, d: nat, s: nat, word: bool, ghost was: seq<bv8>, ghost dest: nat, ghost src: nat,
      ghost i: nat)
    requires dest < src && d == dest + i && s == src + i && s + (if word then 4 else 1) <= m.Length
    requires src + i <= |was| && Copied(was, m[..], dest, src, i)
    modifies m
    ensures Copied(was, m[..], dest, src, i + if word then 4 else 1)
  {
    hide Copied;
    ghost var now := m[..];
    CopiedLength(was, now, dest, src, i);
    if word {
      CopyWord(m, d, s);
    } else {
      CopyByte(m, d, s);
    }
    CopiesAddUp(was, now, m[..], dest, src, i, if word then 4 else 1);
  }

  method StepDown(m: array<bv8>, d: nat, s: nat, word: bool, ghost was: seq<bv8>, ghost i: nat)
    requires s < d && d + (if word then 4 else 1) + i <= m.Length && |was| == m.Length
    requires Copied(was, m[..], d + (if word then 4 else 1), s + (if word then 4 else 1), i)
    modifies m
    ensures Copied(was, m[..], d, s, i + if word then 4 else 1)
  {
    hide Copied;
    ghost var now := m[..];
    if word {
      CopyWord(m, d, s);
    } else {
      CopyByte(m, d, s);
    }
    CopiesAddDown(was, now, m[..], d, s, i, if word then 4 else 1);
  }

  lemma CopiedLength(was: seq<bv8>, now: seq<bv8>, d: nat, s: nat, n: nat)
    requires s + n <= |was| && Copied(was, now, d, s, n)
    ensures |now| == |was|
  {
  }

  /** Copying upwards, for a destination below the source. */
  method CopyUp(m: array<bv8>, dest: nat, src: nat, n: nat)
    requires dest < src && src + n <= m.Length
    modifies m
    ensures Copied(old(m[..]), m[..], dest, src, n)
  {
    hide Copied;
    ghost var was := m[..];
    NothingCopied(was, dest, src);
    var d, s, left := dest, src, n;
    if s % 4 == d % 4 {
      while d % 4 != 0
        invariant 0 <= left <= n && d == dest + (n - left) && s == src + (n - left)
        invariant Copied(was, m[..], dest, src, n - left)
        decreases left
      {
        if left == 0 {
          return;
        }
        StepUp(m, d, s, false, was, dest, src, n - left);
        left, d, s := left - 1, d + 1, s + 1;
      }
      while left >= 4
        invariant 0 <= left <= n && d == dest + (n - left) && s == src + (n - left)
        invariant Copied(was, m[..], dest, src, n - left)
        decreases left
      {
        StepUp(m, d, s, true, was, dest, src, n - left);
        left, d, s := left - 4, d + 4, s + 4;
      }
    }
    while left > 0
      invariant 0 <= left <= n && d == dest + (n - left) && s == src + (n - left)
      invariant Copied(was, m[..], dest, src, n - left)
      decreases left
    {
      StepUp(m, d, s, false, was, dest, src, n - left);
      left, d, s := left - 1, d + 1, s + 1;
    }
  }

  /** Copying downwards, for a destination above the source. */
  method CopyDown(m: array<bv8>, d: nat, s: nat, n: nat)
    requires s < d && d + n <= m.Length
    modifies m
    ensures Copied(old(m[..]), m[..], d, s, n)
  {
    hide Copied;
    ghost var was := m[..];
    NothingCopied(was, d + n, s + n);
    var left := n;
    if s % 4 == d % 4 {
      while (d + left) % 4 != 0
        invariant 0 <= left <= n && Copied(was, m[..], d + left, s + left, n - left)
        decreases left
      {
        if left == 0 {
          return;
        }
        left := left - 1;
        StepDown(m, d + left, s + left, false, was, n - left - 1);
      }
      while left >= 4
        invariant 0 <= left <= n && Copied(was, m[..], d + left, s + left, n - left)
        decreases left
      {
        left := left - 4;
        StepDown(m, d + left, s + left, true, was, n - left - 4);
      }
    }
    while left > 0
      invariant 0 <= left <= n && Copied(was, m[..], d + left, s + left, n - left)
      decreases left
    {
      left := left - 1;
      StepDown(m, d + left, s + left, false, was, n - left - 1);
    }
  }

  /** `memmove`, for buffers of up to half the address space that may overlap. */
  method Memmove(m: array<bv8>, dest: nat, src: nat, n: nat)
    requires m.Length <= WORDS && src + n <= m.Length && dest + n <= m.Length && src < WORDS && dest < WORDS
    requires n <= WORDS / 2
    modifies m
    ensures Copied(old(m[..]), m[..], dest, src, n)
  {
    hide LooksDisjoint;
    if dest == src {
      return;
    }
    if n > 0 {
      LooksDisjointExact(dest, src, n);
    } else {
      NothingLooksOverlapping(dest, src);
    }
    if LooksDisjoint(dest, src, n) {
      Memcpy(m, dest, src, n);
    } else if dest < src {
      CopyUp(m, dest, src, n);
    } else {
      CopyDown(m, dest, src, n);
    }
  }

  lemma NothingLooksOverlapping(d: nat, s: nat)
    requires d < WORDS && s < WORDS && d != s
    ensures !LooksDisjoint(d, s, 0)
  {
  }

  /* ---- filling ---- */

  /** Memory after `n` bytes at `at` were set. */
  ghost predicate SetTo(was: seq<bv8>, now: seq<bv8>, at: nat, n: nat, b: bv8) {
    && |now| == |was|
    && forall x {:trigger now[x]} :: 0 <= x < |was| ==> now[x] == if at <= x < at + n then b else was[x]
  }

  lemma SetTwice(was: seq<bv8>, mid: seq<bv8>, now: seq<bv8>, at: nat, j: nat, k: nat, b: bv8)
    requires SetTo(was, mid, at, j, b) && SetTo(mid, now, at + j, k, b)
    ensures SetTo(was, now, at, j + k, b)
  {
    forall x | 0 <= x < |was|
      ensures now[x] == if at <= x < at + j + k then b else was[x]
    {
      assert mid[x] == if at <= x < at + j then b else was[x];
    }
  }

  method Set8(m: array<bv8>, at: nat, b: bv8)
    requires at < m.Length
    modifies m
    ensures SetTo(old(m[..]), m[..], at, 1, b)
  {
    m[at] := b;
  }

  method Set32(m: array<bv8>, at: nat, c32: bv32, ghost b: bv8)
    requires at + 4 <= m.Length && c32 == Repeated(b)
    modifies m
    ensures SetTo(old(m[..]), m[..], at, 4, b)
  {
    BytesRepeated(b);
    hide Repeated, Byte0, Byte1, Byte2, Byte3;
    Store32(m, at, c32);
    forall x | at <= x < at + 4
      ensures m[x] == b
    {
      assert x == at || x == at + 1 || x == at + 2 || x == at + 3;
    }
  }

  /* Two and four words in a row. */
  method Set2x32(m: array<bv8>, at: nat, c32: bv32, ghost b: bv8)
    requires at + 8 <= m.Length && c32 == Repeated(b)
    modifies m
    ensures SetTo(old(m[..]), m[..], at, 8, b)
  {
    hide SetTo, Repeated;
    ghost var was := m[..];
    Set32(m, at, c32, b);
    ghost var mid := m[..];
    Set32(m, at + 4, c32, b);
    SetTwice(was, mid, m[..], at, 4, 4, b);
  }

  method Set4x32(m: array<bv8>, at: nat, c32: bv32, ghost b: bv8)
    requires at + 16 <= m.Length && c32 == Repeated(b)
    modifies m
    ensures SetTo(old(m[..]), m[..], at, 16, b)
  {
    hide SetTo, Repeated;
    ghost var was := m[..];
    Set2x32(m, at, c32, b);
    ghost var mid := m[..];
    Set2x32(m, at + 8, c32, b);
    SetTwice(was, mid, m[..], at, 8, 8, b);
  }

  /** A 64-bit word made of the same 32-bit word twice. */
  function Doubled(w: bv32): bv64 { (w as bv64) | ((w as bv64) << 32) }

  function LowHalf(w: bv64): bv32 { (w & 0xFFFF_FFFF) as bv32 }
  function HighHalf(w: bv64): bv32 { (w >> 32) as bv32 }

  lemma HalvesOfDoubled(w: bv32)
    ensures LowHalf(Doubled(w)) == w && HighHalf(Doubled(w)) == w
  {
  }

  method Set64(m: array<bv8>, at: nat, c64: bv64, ghost b: bv8)
    requires at + 8 <= m.Length && c64 == Doubled(Repeated(b))
    modifies m
    ensures SetTo(old(m[..]), m[..], at, 8, b)
  {
    HalvesOfDoubled(Repeated(b));
    hide SetTo, Repeated, Doubled, LowHalf, HighHalf;
    ghost var was := m[..];
    Set32(m, at, LowHalf(c64), b);
    ghost var mid := m[..];
    Set32(m, at + 4, HighHalf(c64), b);
    SetTwice(was, mid, m[..], at, 4, 4, b);
  }

  method Set4x64(m: array<bv8>, at: nat, c64: bv64, ghost b: bv8)
    requires at + 32 <= m.Length && c64 == Doubled(Repeated(b))
    modifies m
    ensures SetTo(old(m[..]), m[..], at, 32, b)
  {
    hide SetTo, Repeated, Doubled;
    ghost var was := m[..];
    Set64(m, at, c64, b);
    ghost var one := m[..];
    Set64(m, at + 8, c64, b);
    SetTwice(was, one, m[..], at, 8, 8, b);
    ghost var two := m[..];
    Set64(m, at + 16, c64, b);
    SetTwice(was, two, m[..], at, 16, 8, b);
    ghost var three := m[..];
    Set64(m, at + 24, c64, b);
    SetTwice(was, three, m[..], at, 24, 8, b);
  }

  /** A buffer that is filled from `lo` up to `head` and from `tail` up to `hi`, with nothing written
      outside. */
  ghost predicate Filling(was: seq<bv8>, now: seq<bv8>, lo: nat, hi: nat, head: nat, tail: nat, b: bv8) {
    && |now| == |was| && lo <= head <= hi <= |was| && lo <= tail <= hi
    && (forall x {:trigger now[x]} :: 0 <= x < |was| && !(lo <= x < hi) ==> now[x] == was[x])
    && (forall x {:trigger now[x]} :: lo <= x < head || tail <= x < hi ==> now[x] == b)
  }

  lemma HeadGrows(was: seq<bv8>, now: seq<bv8>, next: seq<bv8>, lo: nat, hi: nat, head: nat, tail: nat, b: bv8, at: nat,
      k: nat)
    requires Filling(was, now, lo, hi, head, tail, b) && SetTo(now, next, at, k, b)
    requires lo <= at <= head <= at + k <= hi
    ensures Filling(was, next, lo, hi, at + k, tail, b)
  {
    forall x | 0 <= x < |was|
      ensures !(lo <= x < hi) ==> next[x] == was[x]
      ensures lo <= x < at + k || tail <= x < hi ==> next[x] == b
    {
      assert next[x] == if at <= x < at + k then b else now[x];
    }
  }

  lemma TailGrows(was: seq<bv8>, now: seq<bv8>, next: seq<bv8>, lo: nat, hi: nat, head: nat, tail: nat, b: bv8, at: nat,
      k: nat)
    requires Filling(was, now, lo, hi, head, tail, b) && SetTo(now, next, at, k, b)
    requires lo <= at <= tail <= at + k <= hi
    ensures Filling(was, next, lo, hi, head, at, b)
  {
    forall x | 0 <= x < |was|
      ensures !(lo <= x < hi) ==> next[x] == was[x]
      ensures lo <= x < head || at <= x < hi ==> next[x] == b
    {
      assert next[x] == if at <= x < at + k then b else now[x];
    }
  }

  lemma NothingFilled(was: seq<bv8>, lo: nat, hi: nat, b: bv8)
    requires lo <= hi <= |was|
    ensures Filling(was, was, lo, hi, lo, hi, b)
  {
  }

  /* Head and tail have met. */
  lemma AllFilled(was: seq<bv8>, now: seq<bv8>, lo: nat, hi: nat, head: nat, tail: nat, b: bv8)
    requires Filling(was, now, lo, hi, head, tail, b) && tail <= head
    ensures SetTo(was, now, lo, hi - lo, b)
  {
  }

  /* One byte at either end. */
  method BothEnds(m: array<bv8>, i: nat, j: nat, b: bv8, ghost was: seq<bv8>, ghost lo: nat, ghost hi: nat,
      ghost head: nat, ghost tail: nat)
    requires Filling(was, m[..], lo, hi, head, tail, b) && lo <= i <= head <= i + 1 <= hi
    requires lo <= j <= tail <= j + 1 <= hi && hi <= m.Length
    modifies m
    ensures Filling(was, m[..], lo, hi, i + 1, j, b)
  {
    hide Filling, SetTo;
    ghost var now := m[..];
    Set8(m, i, b);
    ghost var mid := m[..];
    HeadGrows(was, now, mid, lo, hi, head, tail, b, i, 1);
    Set8(m, j, b);
    TailGrows(was, mid, m[..], lo, hi, i + 1, tail, b, j, 1);
  }

  /** `memset`: every byte of the buffer, and no other, whatever its length and alignment. */
  method Memset(m: array<bv8>, dest: nat, c: bv32, n: nat)
    requires m.Length <= WORDS && dest + n <= m.Length
    modifies m
    ensures SetTo(old(m[..]), m[..], dest, n, Byte0(c))
  {
    hide Filling, SetTo, Byte0, Repeated, Doubled;
    ghost var was, hi := m[..], dest + n;
    var b := Byte0(c);
    var s := dest;
    NothingFilled(was, dest, hi, b);
    AllFilledIf(was, was, dest, hi, dest, hi, b);
    if n == 0 {
      return;
    }
    BothEnds(m, s, s + n - 1, b, was, dest, hi, dest, hi);
    AllFilledIf(was, m[..], dest, hi, dest + 1, hi - 1, b);
    if n <= 2 {
      return;
    }
    BothEnds(m, s + 1, s + n - 2, b, was, dest, hi, dest + 1, hi - 1);
    BothEnds(m, s + 2, s + n - 3, b, was, dest, hi, dest + 2, hi - 2);
    AllFilledIf(was, m[..], dest, hi, dest + 3, hi - 3, b);
    if n <= 6 {
      return;
    }
    BothEnds(m, s + 3, s + n - 4, b, was, dest, hi, dest + 3, hi - 3);
    AllFilledIf(was, m[..], dest, hi, dest + 4, hi - 4, b);
    if n <= 8 {
      return;
    }
    var k := (WORDS - s) % 4;
    var left := n - k;
    left := left - left % 4;
    FillWords(m, s + k, left, Repeated(b), b, was, dest, hi);
  }

  lemma AllFilledIf(was: seq<bv8>, now: seq<bv8>, lo: nat, hi: nat, head: nat, tail: nat, b: bv8)
    requires Filling(was, now, lo, hi, head, tail, b)
    ensures tail <= head ==> SetTo(was, now, lo, hi - lo, b)
  {
    if tail <= head { AllFilled(was, now, lo, hi, head, tail, b); }
  }

  lemma FillingBounds(was: seq<bv8>, now: seq<bv8>, lo: nat, hi: nat, head: nat, tail: nat, b: bv8)
    requires Filling(was, now, lo, hi, head, tail, b)
    ensures |now| == |was| && lo <= head <= hi <= |was| && lo <= tail <= hi
  {
  }

  lemma Multiples(n: nat)
    requires n % 4 == 0
    ensures (n > 8 ==> n >= 12) && (n > 24 ==> n >= 28) && (24 <= n ==> (n - 24) % 4 == 0)
    ensures (28 <= n ==> (n - 28) % 4 == 0)
  {
  }

  /** The word-wise part: an aligned start and a length that is a multiple of four, with four bytes at
      either end of the buffer already set. */
  method FillWords(m: array<bv8>, s: nat, n: nat, c32: bv32, ghost b: bv8, ghost was: seq<bv8>, ghost lo: nat,
      ghost hi: nat)
    requires c32 == Repeated(b) && s % 4 == 0 && n % 4 == 0 && 4 <= n && hi <= m.Length
    requires lo <= s <= lo + 3 && hi - 3 <= s + n <= hi && lo + 8 < hi
    requires Filling(was, m[..], lo, hi, lo + 4, hi - 4, b)
    modifies m
    ensures SetTo(was, m[..], lo, hi - lo, b)
  {
    hide Filling, SetTo, Repeated, Doubled;
    FillingBounds(was, m[..], lo, hi, lo + 4, hi - 4, b);
    Multiples(n);
    ghost var now := m[..];
    Set32(m, s, c32, b);
    HeadGrows(was, now, m[..], lo, hi, lo + 4, hi - 4, b, s, 4);
    now := m[..];
    Set32(m, s + n - 4, c32, b);
    TailGrows(was, now, m[..], lo, hi, s + 4, hi - 4, b, s + n - 4, 4);
    AllFilledIf(was, m[..], lo, hi, s + 4, s + n - 4, b);
    if n <= 8 {
      return;
    }
    now := m[..];
    Set2x32(m, s + 4, c32, b);
    HeadGrows(was, now, m[..], lo, hi, s + 4, s + n - 4, b, s + 4, 8);
    now := m[..];
    Set2x32(m, s + n - 12, c32, b);
    TailGrows(was, now, m[..], lo, hi, s + 12, s + n - 4, b, s + n - 12, 8);
    AllFilledIf(was, m[..], lo, hi, s + 12, s + n - 12, b);
    if n <= 24 {
      return;
    }
    now := m[..];
    Set4x32(m, s + 12, c32, b);
    HeadGrows(was, now, m[..], lo, hi, s + 12, s + n - 12, b, s + 12, 16);
    now := m[..];
    Set4x32(m, s + n - 28, c32, b);
    TailGrows(was, now, m[..], lo, hi, s + 28, s + n - 12, b, s + n - 28, 16);
    var k := 24 + s / 4 % 2 * 4;
    assert k == 24 || k == 28;
    FillBlocks(m, s + k, n - k, Doubled(c32), b, was, lo, hi, s + 28, s + n - 28);
  }

  /** The loop over blocks of 32 bytes; what is left at the end was set before. */
  method FillBlocks(m: array<bv8>, start: nat, n: nat, c64: bv64, ghost b: bv8, ghost was: seq<bv8>, ghost lo: nat,
      ghost hi: nat, ghost head: nat, ghost tail: nat)
    requires c64 == Doubled(Repeated(b)) && n % 4 == 0 && hi <= m.Length
    requires lo <= start <= head && start + n <= hi && tail + 28 == start + n && head <= start + 4
    requires Filling(was, m[..], lo, hi, head, tail, b)
    modifies m
    ensures SetTo(was, m[..], lo, hi - lo, b)
  {
    hide Filling, SetTo, Repeated, Doubled;
    var s, left := start, n;
    ghost var filled := head;
    while left >= 32
      invariant 0 <= left && left % 4 == 0 && s + left == start + n && start <= s <= filled <= s + 4
      invariant Filling(was, m[..], lo, hi, filled, tail, b)
      decreases left
    {
      ghost var now := m[..];
      Set4x64(m, s, c64, b);
      HeadGrows(was, now, m[..], lo, hi, filled, tail, b, s, 32);
      left, s := left - 32, s + 32;
      filled := s;
    }
    AllFilled(was, m[..], lo, hi, filled, tail, b);
  }
}
