/**
 * The sparse memory image of runner/stim_utils.py: a map from word-aligned
 * address to word value, and the merge of a byte range into it
 * (`__add_mem_word`, `__add_mem`), as the code is written.
 *
 * The word update is stated byte by byte. For a width of 1, 2, 4 or 8 the
 * clear mask `((1 << width) - 1) << (shift * 8)` lies inside byte `shift`,
 * so the update is: byte `shift` becomes `(prev & ClearMask(width)) | d[0]`,
 * the following bytes of the chunk become `prev | d[i]`, and every other
 * byte of the word is kept. Only for width 8 does the mask clear the whole
 * byte `shift`; the other bytes of a chunk are OR-ed, not replaced.
 */
module MemImage {
  import opened Numerals
  import opened LittleEndian

  /** The word widths the image is built with (1 for the flat binary, 8 for SLM), and 2 and 4. */
  predicate IsWidth(w: nat) { w == 1 || w == 2 || w == 4 || w == 8 }

  /**
   * `a % w`, spelled out per width so that every remainder is by a constant.
   */
  function Rem(a: nat, w: nat): (r: nat)
    requires IsWidth(w)
    ensures r < w
  {
    if w == 1 then 0 else if w == 2 then a % 2 else if w == 4 then a % 4 else a % 8
  }

  /** `a` is a multiple of `w`: a word boundary. */
  predicate OnBoundary(a: nat, w: nat)
    requires IsWidth(w)
  {
    Rem(a, w) == 0
  }

  /**
   * `base & ~(width - 1)`: the start of the word holding `base`. For the
   * power-of-two widths above, clearing the low bits is subtracting the
   * remainder.
   */
  function Align(base: nat, w: nat): (k: nat)
    requires IsWidth(w)
    ensures OnBoundary(k, w) && k <= base < k + w
  {
    base - Rem(base, w)
  }

  /*
   * The mask the source aligns with, `base & ~(width - 1)` on a 64-bit
   * address, takes off the remainder modulo the width, as `Align` does
   * (for width 1 the mask keeps every bit and the remainder is 0).
   */
  lemma AlignMaskEight(x: bv64)
    ensures x & !7 == x - x % 8
  {
  }

  lemma AlignMaskFour(x: bv64)
    ensures x & !3 == x - x % 4
  {
  }

  lemma AlignMaskTwo(x: bv64)
    ensures x & !1 == x - x % 2
  {
  }

  /** A multiple of `w` is the aligned start of exactly the `w` addresses above it. */
  lemma AlignedWord(k: nat, a: nat, w: nat)
    requires IsWidth(w) && OnBoundary(k, w)
    ensures Align(a, w) == k <==> k <= a < k + w
    ensures k < a < k + w ==> !OnBoundary(a, w)
  {
    if w == 8 {
      AlignedWordBy(k, a, 8);
    } else if w == 4 {
      AlignedWordBy(k, a, 4);
    } else if w == 2 {
      AlignedWordBy(k, a, 2);
    }
  }

  lemma AlignedWordBy(k: nat, a: nat, n: nat)
    requires n == 2 || n == 4 || n == 8
    requires k % n == 0
    ensures a - a % n == k <==> k <= a < k + n
    ensures k < a < k + n ==> a % n != 0
  {
    if n == 2 {
    } else if n == 4 {
    } else {
    }
  }

  /**
   * `iter_size` of `__add_mem_word`: the bytes from `base` to the end of its
   * word, but no more than `size`. The chunk is never empty, stays in the
   * word of `base`, and when it does not finish the range the next chunk
   * starts on a word boundary.
   */
  function Chunk(base: nat, size: nat, w: nat): (c: nat)
    requires IsWidth(w) && size >= 1
    ensures 1 <= c <= w && c <= size
    ensures base + c <= Align(base, w) + w
    ensures c < size ==> OnBoundary(base + c, w)
  {
    var shift := base - Align(base, w);
    if w - shift > size then size else w - shift
  }

  function Sum(s: seq<nat>): nat
  {
    if s == [] then 0 else s[0] + Sum(s[1..])
  }

  /** The chunk sizes the `while size > 0` loop of `__add_mem` goes through. */
  function ChunkSizes(base: nat, size: nat, w: nat): (cs: seq<nat>)
    requires IsWidth(w)
    ensures Sum(cs) == size
    ensures forall i :: 0 <= i < |cs| ==> 1 <= cs[i] <= w
    ensures |cs| <= size
    decreases size
  {
    if size == 0 then []
    else
      var c := Chunk(base, size, w);
      var cs := [c] + ChunkSizes(base + c, size - c, w);
      assert cs[1..] == ChunkSizes(base + c, size - c, w);
      cs
  }

  /**
   * The byte mask that `~(((1 << width) - 1) << (shift * 8))` leaves on
   * byte `shift`: it clears the low `width` bits of that byte, which is the
   * whole byte only for width 8.
   */
  function ClearMask(w: nat): (m: Byte)
    requires IsWidth(w)
  {
    if w == 8 then 0x00 else if w == 4 then 0xF0 else if w == 2 then 0xFC else 0xFE
  }

  /** `ClearMask` is the complement of `(1 << width) - 1`, taken on one byte. */
  lemma ClearMaskIsShifted(w: nat)
    requires IsWidth(w)
    ensures ClearMask(w) as bv8 == !(((((1 as bv16) << w) - 1) & 0xFF) as bv8)
  {
    if w == 8 {
      assert (((1 as bv16) << 8) - 1) & 0xFF == 0xFF;
    } else if w == 4 {
      assert (((1 as bv16) << 4) - 1) & 0xFF == 0x0F;
    } else if w == 2 {
      assert (((1 as bv16) << 2) - 1) & 0xFF == 0x03;
    } else {
      assert (((1 as bv16) << 1) - 1) & 0xFF == 0x01;
    }
  }

  // ---------------------------------------------------------------------
  // Bitwise operations on bytes

  /** The low `n` bits of `x | y`, from the lowest bit up. */
  function OrLow(x: nat, y: nat, n: nat): (r: nat)
    ensures r < Pow(2, n)
  {
    if n == 0 then 0
    else 2 * OrLow(x / 2, y / 2, n - 1) + (if x % 2 == 1 || y % 2 == 1 then 1 else 0)
  }

  /** The low `n` bits of `x & y`, from the lowest bit up. */
  function AndLow(x: nat, y: nat, n: nat): (r: nat)
    ensures r < Pow(2, n)
  {
    if n == 0 then 0
    else 2 * AndLow(x / 2, y / 2, n - 1) + (if x % 2 == 1 && y % 2 == 1 then 1 else 0)
  }

  /** `x | y` on bytes. */
  function Or(x: Byte, y: Byte): Byte
  {
    assert Pow(2, 8) == 256;
    OrLow(x, y, 8)
  }

  /** `x & y` on bytes. */
  function And(x: Byte, y: Byte): Byte
  {
    assert Pow(2, 8) == 256;
    AndLow(x, y, 8)
  }

  /** Or-ing with 0 keeps a number of `n` bits. */
  lemma {:induction false} OrLowZero(y: nat, n: nat)
    requires y < Pow(2, n)
    ensures OrLow(0, y, n) == y
  {
    if n > 0 {
      OrLowZero(y / 2, n - 1);
    }
  }

  lemma {:induction false} AndLowZero(y: nat, n: nat)
    ensures AndLow(0, y, n) == 0
  {
    if n > 0 {
      AndLowZero(y / 2, n - 1);
    }
  }

  /** `(x | d) | d == x | d`. */
  lemma {:induction false} OrLowTwice(x: nat, d: nat, n: nat)
    ensures OrLow(OrLow(x, d, n), d, n) == OrLow(x, d, n)
  {
    if n > 0 {
      var r := OrLow(x, d, n);
      assert r / 2 == OrLow(x / 2, d / 2, n - 1) && r % 2 == (if x % 2 == 1 || d % 2 == 1 then 1 else 0);
      OrLowTwice(x / 2, d / 2, n - 1);
    }
  }

  /** `(((x & k) | d) & k) | d == (x & k) | d`. */
  lemma {:induction false} ClearOrLowTwice(x: nat, k: nat, d: nat, n: nat)
    ensures OrLow(AndLow(OrLow(AndLow(x, k, n), d, n), k, n), d, n) == OrLow(AndLow(x, k, n), d, n)
  {
    if n > 0 {
      var y := AndLow(x, k, n);
      assert y / 2 == AndLow(x / 2, k / 2, n - 1) && y % 2 == (if x % 2 == 1 && k % 2 == 1 then 1 else 0);
      var z := OrLow(y, d, n);
      assert z / 2 == OrLow(y / 2, d / 2, n - 1) && z % 2 == (if y % 2 == 1 || d % 2 == 1 then 1 else 0);
      var u := AndLow(z, k, n);
      assert u / 2 == AndLow(z / 2, k / 2, n - 1) && u % 2 == (if z % 2 == 1 && k % 2 == 1 then 1 else 0);
      ClearOrLowTwice(x / 2, k / 2, d / 2, n - 1);
    }
  }

  /** A byte that was 0 becomes what is or-ed into it, whatever the mask. */
  lemma OrZero(k: Byte, y: Byte)
    ensures And(0, k) == 0 && Or(0, y) == y
  {
    assert Pow(2, 8) == 256;
    OrLowZero(y, 8);
    AndLowZero(k, 8);
  }

  lemma OrTwice(x: Byte, d: Byte)
    ensures Or(Or(x, d), d) == Or(x, d)
  {
    OrLowTwice(x, d, 8);
  }

  lemma ClearOrTwice(x: Byte, k: Byte, d: Byte)
    ensures Or(And(Or(And(x, k), d), k), d) == Or(And(x, k), d)
  {
    ClearOrLowTwice(x, k, d, 8);
  }

  /** Byte `j` of a word after writing `d` at byte offset `shift`. */
  function PatchByte(prev: Byte, j: nat, shift: nat, d: seq<Byte>, w: nat): Byte
    requires IsWidth(w)
  {
    if j == shift && |d| > 0 then Or(And(prev, ClearMask(w)), d[0])
    else if shift < j < shift + |d| then Or(prev, d[j - shift])
    else prev
  }

  /** A word (its little-endian bytes) after writing `d` at byte offset `shift`. */
  function Patch(word: seq<Byte>, shift: nat, d: seq<Byte>, w: nat): (r: seq<Byte>)
    requires IsWidth(w)
    ensures |r| == |word|
  {
    seq(|word|, j requires 0 <= j < |word| => PatchByte(word[j], j, shift, d, w))
  }

  /** `2^(8*w)`, the bound on a `w`-byte word. */
  function WordLimit(w: nat): nat
    requires IsWidth(w)
  {
    if w == 1 then 0x100
    else if w == 2 then 0x1_0000
    else if w == 4 then 0x1_0000_0000
    else 0x1_0000_0000_0000_0000
  }

  lemma WordLimitIsPow(w: nat)
    requires IsWidth(w)
    ensures WordLimit(w) == Pow(256, w)
  {
    assert Pow(256, 1) == 0x100;
    assert Pow(256, 2) == 0x1_0000;
    assert Pow(256, 3) == 0x100_0000;
    assert Pow(256, 4) == 0x1_0000_0000;
    assert Pow(256, 5) == 0x100_0000_0000;
    assert Pow(256, 6) == 0x1_0000_0000_0000;
    assert Pow(256, 7) == 0x100_0000_0000_0000;
    assert Pow(256, 8) == 0x1_0000_0000_0000_0000;
  }

  /** The image invariant: keys are aligned and values fit in a word. */
  predicate Valid(m: map<nat, nat>, w: nat)
    requires IsWidth(w)
  {
    forall k :: k in m ==> OnBoundary(k, w) && m[k] < WordLimit(w)
  }

  /** The word stored at `k`; `self.mem.get` returns None for a missing word, read as 0. */
  function Get(m: map<nat, nat>, k: nat): nat
  {
    if k in m then m[k] else 0
  }

  /** `value &= ~mask; value |= chunk << (shift * 8)`, byte by byte. */
  function NewWord(prev: nat, shift: nat, chunk: seq<Byte>, w: nat): nat
    requires IsWidth(w)
  {
    FromLE(Patch(ToLE(prev, w), shift, chunk, w))
  }

  /** `__add_mem_word`: merge the first chunk of `data` into the word holding `base`. */
  function WriteWord(m: map<nat, nat>, base: nat, data: seq<Byte>, w: nat): map<nat, nat>
    requires IsWidth(w) && |data| >= 1
  {
    var k := Align(base, w);
    m[k := NewWord(Get(m, k), base - k, data[..Chunk(base, |data|, w)], w)]
  }

  /** `__add_mem`: merge `data` at `base`, chunk by chunk. */
  function MemWrite(m: map<nat, nat>, base: nat, data: seq<Byte>, w: nat): map<nat, nat>
    requires IsWidth(w)
    decreases |data|
  {
    if data == [] then m
    else
      var c := Chunk(base, |data|, w);
      MemWrite(WriteWord(m, base, data, w), base + c, data[c..], w)
  }

  /** A chunk write keeps the image invariant: the new word is aligned and fits. */
  lemma WriteWordValid(m: map<nat, nat>, base: nat, data: seq<Byte>, w: nat)
    requires IsWidth(w) && |data| >= 1 && Valid(m, w)
    ensures Valid(WriteWord(m, base, data, w), w)
  {
    var k := Align(base, w);
    var p := Patch(ToLE(Get(m, k), w), base - k, data[..Chunk(base, |data|, w)], w);
    FromLEBound(p);
    WordLimitIsPow(w);
  }

  /** Merging a range keeps the image invariant. */
  lemma {:induction false} MemWriteValid(m: map<nat, nat>, base: nat, data: seq<Byte>, w: nat)
    requires IsWidth(w) && Valid(m, w)
    ensures Valid(MemWrite(m, base, data, w), w)
    decreases |data|
  {
    if data != [] {
      var c := Chunk(base, |data|, w);
      WriteWordValid(m, base, data, w);
      MemWriteValid(WriteWord(m, base, data, w), base + c, data[c..], w);
    }
  }

  // ---------------------------------------------------------------------
  // The byte view of an image

  /** The byte at address `a`; a byte of a word never written reads 0. */
  function ByteAt(m: map<nat, nat>, a: nat, w: nat): Byte
    requires IsWidth(w)
  {
    var k := Align(a, w);
    if k in m then ToLE(m[k], w)[a - k] else 0
  }

  /**
   * What merging `d` at `b` does to the byte at `a`: a byte that starts a
   * chunk (the first byte, or the first byte of a word) keeps only the bits
   * `ClearMask` leaves and gets the new bits OR-ed in; any other byte in
   * range is OR-ed with the new byte; a byte out of range is kept.
   */
  function Merge(prev: Byte, a: nat, b: nat, d: seq<Byte>, w: nat): Byte
    requires IsWidth(w)
  {
    if b <= a < b + |d| then
      if a == b || OnBoundary(a, w) then Or(And(prev, ClearMask(w)), d[a - b]) else Or(prev, d[a - b])
    else prev
  }

  /** Whether the merge of `n` bytes at `b` touches the word at `k`. */
  predicate Touched(k: nat, b: nat, n: nat, w: nat)
    requires IsWidth(w)
  {
    n >= 1 && OnBoundary(k, w) && b < k + w && k < b + n
  }

  /** One chunk write changes the bytes of its chunk as `Merge` says and no other byte. */
  lemma WriteWordBytes(m: map<nat, nat>, b: nat, d: seq<Byte>, w: nat, a: nat)
    requires IsWidth(w) && |d| >= 1
    ensures ByteAt(WriteWord(m, b, d, w), a, w) ==
              Merge(ByteAt(m, a, w), a, b, d[..Chunk(b, |d|, w)], w)
  {
    var k := Align(b, w);
    AlignedWord(k, a, w);
    if Align(a, w) == k {
      WriteWordSameWord(m, b, d, w, a);
    }
  }

  lemma WriteWordSameWord(m: map<nat, nat>, b: nat, d: seq<Byte>, w: nat, a: nat)
    requires IsWidth(w) && |d| >= 1 && Align(a, w) == Align(b, w)
    ensures ByteAt(WriteWord(m, b, d, w), a, w) ==
              Merge(ByteAt(m, a, w), a, b, d[..Chunk(b, |d|, w)], w)
  {
    var k := Align(b, w);
    var c := Chunk(b, |d|, w);
    var word := ToLE(Get(m, k), w);
    var p := Patch(word, b - k, d[..c], w);
    var m' := WriteWord(m, b, d, w);
    assert k in m' && m'[k] == FromLE(p);
    ToFromLE(p);
    assert ByteAt(m', a, w) == ToLE(m'[k], w)[a - k] == p[a - k];
    assert word[a - k] == ByteAt(m, a, w) by {
      if k !in m { ToLEZero(w, a - k); }
    }
    assert p[a - k] == PatchByte(word[a - k], a - k, b - k, d[..c], w);
    PatchIsMerge(word[a - k], a, b, d[..c], w);
  }

  /** Within the word of `b`, patching at the offset of `b` is merging at `b`. */
  lemma PatchIsMerge(x: Byte, a: nat, b: nat, e: seq<Byte>, w: nat)
    requires IsWidth(w) && Align(a, w) == Align(b, w)
    ensures var k := Align(b, w); PatchByte(x, a - k, b - k, e, w) == Merge(x, a, b, e, w)
  {
    var k := Align(b, w);
    if b < a < b + |e| {
      AlignedWord(k, a, w);
    }
  }

  /** Merging a whole range changes every byte as `Merge` says. */
  lemma {:induction false} MemWriteBytes(m: map<nat, nat>, b: nat, d: seq<Byte>, w: nat, a: nat)
    requires IsWidth(w)
    ensures ByteAt(MemWrite(m, b, d, w), a, w) == Merge(ByteAt(m, a, w), a, b, d, w)
    decreases |d|, 1
  {
    if d != [] {
      MemWriteBytesStep(m, b, d, w, a, Chunk(b, |d|, w));
    }
  }

  /** The first chunk by `WriteWordBytes`, the rest by induction, joined by `MergeSplit`. */
  lemma {:induction false} MemWriteBytesStep(m: map<nat, nat>, b: nat, d: seq<Byte>, w: nat, a: nat, c: nat)
    requires IsWidth(w) && d != [] && c == Chunk(b, |d|, w)
    ensures ByteAt(MemWrite(m, b, d, w), a, w) == Merge(ByteAt(m, a, w), a, b, d, w)
    decreases |d|, 0
  {
    calc {
      ByteAt(MemWrite(m, b, d, w), a, w);
    == { MemWriteFirst(m, b, d, w, a); }
      ByteAt(MemWrite(WriteWord(m, b, d, w), b + c, d[c..], w), a, w);
    == { MemWriteBytes(WriteWord(m, b, d, w), b + c, d[c..], w, a); }
      Merge(ByteAt(WriteWord(m, b, d, w), a, w), a, b + c, d[c..], w);
    == { WriteWordBytes(m, b, d, w, a); }
      Merge(Merge(ByteAt(m, a, w), a, b, d[..c], w), a, b + c, d[c..], w);
    == { MergeSplit(ByteAt(m, a, w), a, b, d, c, w); }
      Merge(ByteAt(m, a, w), a, b, d, w);
    }
  }

  /** A merge is the write of its first chunk followed by the merge of the rest. */
  lemma MemWriteFirst(m: map<nat, nat>, b: nat, d: seq<Byte>, w: nat, a: nat)
    requires IsWidth(w) && d != []
    ensures ByteAt(MemWrite(m, b, d, w), a, w) ==
              ByteAt(MemWrite(WriteWord(m, b, d, w), b + Chunk(b, |d|, w), d[Chunk(b, |d|, w)..], w), a, w)
  {
  }

  /** Merging the first chunk and then the rest is merging the whole range. */
  lemma MergeSplit(x: Byte, a: nat, b: nat, d: seq<Byte>, c: nat, w: nat)
    requires IsWidth(w) && |d| >= 1 && c == Chunk(b, |d|, w)
    ensures Merge(Merge(x, a, b, d[..c], w), a, b + c, d[c..], w) == Merge(x, a, b, d, w)
  {
    if a < b || b + |d| <= a {
    } else if a < b + c {
      MergeInFirstChunk(x, a, b, d, c, w);
    } else {
      MergeAfterFirstChunk(x, a, b, d, c, w);
    }
  }

  lemma MergeInFirstChunk(x: Byte, a: nat, b: nat, d: seq<Byte>, c: nat, w: nat)
    requires IsWidth(w) && |d| >= 1 && c == Chunk(b, |d|, w) && b <= a < b + c
    ensures Merge(x, a, b, d[..c], w) == Merge(x, a, b, d, w)
  {
    if a != b {
      AlignedWord(Align(b, w), a, w);
    }
    assert d[..c][a - b] == d[a - b];
  }

  lemma MergeAfterFirstChunk(x: Byte, a: nat, b: nat, d: seq<Byte>, c: nat, w: nat)
    requires IsWidth(w) && |d| >= 1 && c == Chunk(b, |d|, w) && b + c <= a < b + |d|
    ensures Merge(x, a, b + c, d[c..], w) == Merge(x, a, b, d, w)
  {
    assert d[c..][a - (b + c)] == d[a - b];
  }

  /** Merging a range creates exactly the words it touches. */
  lemma {:induction false} MemWriteKeys(m: map<nat, nat>, b: nat, d: seq<Byte>, w: nat, k: nat)
    requires IsWidth(w)
    ensures k in MemWrite(m, b, d, w) <==> k in m || Touched(k, b, |d|, w)
    decreases |d|, 1
  {
    if d != [] {
      MemWriteKeysStep(m, b, d, w, k, Chunk(b, |d|, w));
    }
  }

  /** The first chunk creates the word of `b`, the rest by induction, joined by `TouchedSplit`. */
  lemma {:induction false} MemWriteKeysStep(m: map<nat, nat>, b: nat, d: seq<Byte>, w: nat, k: nat, c: nat)
    requires IsWidth(w) && d != [] && c == Chunk(b, |d|, w)
    ensures k in MemWrite(m, b, d, w) <==> k in m || Touched(k, b, |d|, w)
    decreases |d|, 0
  {
    MemWriteKeysFirst(m, b, d, w, k, c);
    WriteWordKeys(m, b, d, w, k);
    MemWriteKeys(WriteWord(m, b, d, w), b + c, d[c..], w, k);
    TouchedSplit(k, b, |d|, c, |d[c..]|, w);
  }

  lemma MemWriteKeysFirst(m: map<nat, nat>, b: nat, d: seq<Byte>, w: nat, k: nat, c: nat)
    requires IsWidth(w) && d != [] && c == Chunk(b, |d|, w)
    ensures k in MemWrite(m, b, d, w) <==> k in MemWrite(WriteWord(m, b, d, w), b + c, d[c..], w)
  {
    MemWriteUnfold(m, b, d, w);
  }

  lemma MemWriteUnfold(m: map<nat, nat>, b: nat, d: seq<Byte>, w: nat)
    requires IsWidth(w) && d != []
    ensures MemWrite(m, b, d, w) == MemWrite(WriteWord(m, b, d, w), b + Chunk(b, |d|, w), d[Chunk(b, |d|, w)..], w)
  {
  }

  lemma WriteWordKeys(m: map<nat, nat>, b: nat, d: seq<Byte>, w: nat, k: nat)
    requires IsWidth(w) && d != []
    ensures k in WriteWord(m, b, d, w) <==> k in m || k == Align(b, w)
  {
  }

  /** The words a range touches are the word of its first chunk and those the rest touches. */
  lemma TouchedSplit(k: nat, b: nat, n: nat, c: nat, r: nat, w: nat)
    requires IsWidth(w) && n >= 1 && c == Chunk(b, n, w) && c + r == n
    ensures Touched(k, b, n, w) <==> k == Align(b, w) || Touched(k, b + c, r, w)
  {
    AlignedWord(Align(b, w), k, w);
    if OnBoundary(k, w) {
      AlignedWord(k, b, w);
      AlignedWord(k, b + c, w);
    }
  }

  // ---------------------------------------------------------------------
  // Consequences

  /** Two valid images with the same words and the same bytes are the same image. */
  lemma ImageExtensionality(m1: map<nat, nat>, m2: map<nat, nat>, w: nat)
    requires IsWidth(w) && Valid(m1, w) && Valid(m2, w) && m1.Keys == m2.Keys
    requires forall a :: ByteAt(m1, a, w) == ByteAt(m2, a, w)
    ensures m1 == m2
  {
    forall k | k in m1
      ensures m1[k] == m2[k]
    {
      forall j | 0 <= j < w
        ensures ToLE(m1[k], w)[j] == ToLE(m2[k], w)[j]
      {
        AlignedWord(k, k + j, w);
        assert ByteAt(m1, k + j, w) == ByteAt(m2, k + j, w);
      }
      assert ToLE(m1[k], w) == ToLE(m2[k], w);
      WordLimitIsPow(w);
      FromToLE(m1[k], w);
      FromToLE(m2[k], w);
    }
  }

  lemma MergeTwice(x: Byte, a: nat, b: nat, d: seq<Byte>, w: nat)
    requires IsWidth(w)
    ensures Merge(Merge(x, a, b, d, w), a, b, d, w) == Merge(x, a, b, d, w)
  {
    if b <= a < b + |d| {
      if a == b || OnBoundary(a, w) {
        ClearOrTwice(x, ClearMask(w), d[a - b]);
      } else {
        OrTwice(x, d[a - b]);
      }
    }
  }

  /** Writing the same bytes at the same address twice is writing them once. */
  lemma MemWriteIdempotent(m: map<nat, nat>, b: nat, d: seq<Byte>, w: nat)
    requires IsWidth(w) && Valid(m, w)
    ensures MemWrite(MemWrite(m, b, d, w), b, d, w) == MemWrite(m, b, d, w)
  {
    var r1 := MemWrite(m, b, d, w);
    var r2 := MemWrite(r1, b, d, w);
    MemWriteValid(m, b, d, w);
    MemWriteValid(r1, b, d, w);
    forall k
      ensures k in r2 <==> k in r1
    {
      MemWriteKeys(r1, b, d, w, k);
      MemWriteKeys(m, b, d, w, k);
    }
    forall a
      ensures ByteAt(r2, a, w) == ByteAt(r1, a, w)
    {
      MemWriteBytes(r1, b, d, w, a);
      MemWriteBytes(m, b, d, w, a);
      MergeTwice(ByteAt(m, a, w), a, b, d, w);
    }
    ImageExtensionality(r2, r1, w);
  }

  /**
   * Writing into a word that is not in the image: the chunk's bytes land
   * at their offsets in the word and every other byte of the word is 0.
   */
  lemma WriteWordFresh(m: map<nat, nat>, b: nat, d: seq<Byte>, w: nat, a: nat)
    requires IsWidth(w) && |d| >= 1 && Align(b, w) !in m && Align(a, w) == Align(b, w)
    ensures ByteAt(WriteWord(m, b, d, w), a, w) == if b <= a < b + Chunk(b, |d|, w) then d[a - b] else 0
  {
    WriteWordBytes(m, b, d, w, a);
    MergeOverZeroTake(a, b, d, Chunk(b, |d|, w), w);
  }

  /** Merging the first `c` bytes of `d` over a zero byte. */
  lemma MergeOverZeroTake(a: nat, b: nat, d: seq<Byte>, c: nat, w: nat)
    requires IsWidth(w) && c <= |d|
    ensures Merge(0, a, b, d[..c], w) == if b <= a < b + c then d[a - b] else 0
  {
    MergeOverZero(a, b, d[..c], w);
    TakeIndex(d, c, a - b);
  }

  lemma TakeIndex(d: seq<Byte>, c: nat, i: int)
    requires c <= |d|
    ensures 0 <= i < c ==> d[..c][i] == d[i]
  {
  }

  lemma MergeOverZero(a: nat, b: nat, d: seq<Byte>, w: nat)
    requires IsWidth(w)
    ensures Merge(0, a, b, d, w) == if b <= a < b + |d| then d[a - b] else 0
  {
    if b <= a < b + |d| {
      OrZero(ClearMask(w), d[a - b]);
    }
  }

  /** Bytes that read 0 before a merge read exactly the merged data after it. */
  lemma MemWriteOverZeros(m: map<nat, nat>, b: nat, d: seq<Byte>, w: nat, a: nat)
    requires IsWidth(w) && b <= a < b + |d| && ByteAt(m, a, w) == 0
    ensures ByteAt(MemWrite(m, b, d, w), a, w) == d[a - b]
  {
    MemWriteBytes(m, b, d, w, a);
    OrZero(ClearMask(w), d[a - b]);
  }

  /**
   * Merging `d1` and then `d2` over the same fresh range does not leave
   * `d2`: a byte that starts a chunk keeps the bits of `d1` that
   * `ClearMask` keeps, and every other byte is `d1 | d2`.
   */
  lemma RewriteOverFresh(m: map<nat, nat>, b: nat, d1: seq<Byte>, d2: seq<Byte>, w: nat, a: nat)
    requires IsWidth(w) && |d1| == |d2| && b <= a < b + |d1| && ByteAt(m, a, w) == 0
    ensures ByteAt(MemWrite(MemWrite(m, b, d1, w), b, d2, w), a, w) ==
              if a == b || OnBoundary(a, w) then Or(And(d1[a - b], ClearMask(w)), d2[a - b])
              else Or(d1[a - b], d2[a - b])
  {
    MemWriteOverZeros(m, b, d1, w, a);
    MemWriteBytes(MemWrite(m, b, d1, w), b, d2, w, a);
  }

  /** With width 8, writing 0x01 and then 0x02 to byte 1 of a fresh word leaves 0x03. */
  lemma RewriteOrsInWidthEight(m: map<nat, nat>)
    requires ByteAt(m, 1, 8) == 0
    ensures ByteAt(MemWrite(MemWrite(m, 0, [0x00, 0x01], 8), 0, [0x00, 0x02], 8), 1, 8) == 0x03
  {
    assert Rem(1, 8) == 1;
    RewriteOverFresh(m, 0, [0x00, 0x01], [0x00, 0x02], 8, 1);
    OrOneTwo();
  }

  lemma OrOneTwo()
    ensures Or(0x01, 0x02) == 0x03
  {
    assert Pow(2, 7) == 128;
    OrLowZero(1, 7);
    assert OrLow(1, 2, 8) == 2 * OrLow(0, 1, 7) + 1;
  }

  /** With width 1, writing 0x10 and then 0x01 to a fresh byte leaves 0x11: only bit 0 is cleared. */
  lemma RewriteOrsInWidthOne(m: map<nat, nat>)
    requires ByteAt(m, 5, 1) == 0
    ensures ByteAt(MemWrite(MemWrite(m, 5, [0x10], 1), 5, [0x01], 1), 5, 1) == 0x11
  {
    RewriteOverFresh(m, 5, [0x10], [0x01], 1, 5);
    ClearThenOr();
  }

  lemma ClearThenOr()
    ensures Or(And(0x10, 0xFE), 0x01) == 0x11
  {
    ClearBitZero();
    SetBitZero();
  }

  lemma ClearBitZero()
    ensures And(0x10, 0xFE) == 0x10
  {
    AndLowZero(7, 3);
    assert AndLow(1, 15, 4) == 2 * AndLow(0, 7, 3) + 1 == 1;
    assert AndLow(2, 31, 5) == 2 * AndLow(1, 15, 4) == 2;
    assert AndLow(4, 63, 6) == 2 * AndLow(2, 31, 5) == 4;
    assert AndLow(8, 127, 7) == 2 * AndLow(4, 63, 6) == 8;
    assert AndLow(16, 254, 8) == 2 * AndLow(8, 127, 7) == 16;
  }

  lemma SetBitZero()
    ensures Or(0x10, 0x01) == 0x11
  {
    assert Pow(2, 3) == 8;
    OrLowZero(0, 3);
    assert OrLow(1, 0, 4) == 2 * OrLow(0, 0, 3) + 1 == 1;
    assert OrLow(2, 0, 5) == 2 * OrLow(1, 0, 4) == 2;
    assert OrLow(4, 0, 6) == 2 * OrLow(2, 0, 5) == 4;
    assert OrLow(8, 0, 7) == 2 * OrLow(4, 0, 6) == 8;
    assert OrLow(16, 1, 8) == 2 * OrLow(8, 0, 7) + 1 == 17;
  }
}
