// The stimulus generator: segments of the loaded binaries are merged into a
// sparse word image, which is then written out as `ADDR_VALUE` text lines
// or as a dense byte stream.
module Stimuli {
  import opened Wrappers
  import opened Numerals
  import opened LittleEndian
  import opened MemImage
  import opened DecOrder

  datatype SegmentType = Load | Other

  /** A program header and the bytes the file holds for it; `p_filesz` is `|data|`. */
  datatype Segment = Segment(ptype: SegmentType, paddr: nat, memsz: nat, data: seq<Byte>)

  /** The segments of one ELF file, in file order. */
  type Binary = seq<Segment>

  /** One `__add_mem` call: bytes to merge at an address. */
  datatype Write = Write(base: nat, bytes: seq<Byte>)

  function Zeros(n: nat): (z: seq<Byte>)
    ensures |z| == n && forall i :: 0 <= i < n ==> z[i] == 0
  {
    seq(n, i => 0)
  }

  /** A segment is kept when no area is set, or when one area holds all its file bytes. */
  predicate InAreas(addr: nat, size: nat, areas: seq<(nat, nat)>)
  {
    areas == [] || exists i :: 0 <= i < |areas| && areas[i].0 <= addr && addr + size <= areas[i].1
  }

  /** The merges one segment causes: its file bytes, then zeros up to `p_memsz`. */
  function SegmentWrites(s: Segment, areas: seq<(nat, nat)>): seq<Write>
  {
    if s.ptype == Load && InAreas(s.paddr, |s.data|, areas) then
      [Write(s.paddr, s.data)] +
      (if |s.data| < s.memsz then [Write(s.paddr + |s.data|, Zeros(s.memsz - |s.data|))] else [])
    else []
  }

  function BinaryWrites(b: Binary, areas: seq<(nat, nat)>): seq<Write>
  {
    if b == [] then [] else BinaryWrites(b[..|b| - 1], areas) + SegmentWrites(b[|b| - 1], areas)
  }

  function AllWrites(bs: seq<Binary>, areas: seq<(nat, nat)>): seq<Write>
  {
    if bs == [] then [] else AllWrites(bs[..|bs| - 1], areas) + BinaryWrites(bs[|bs| - 1], areas)
  }

  /** The image after the merges `ws`, in order. */
  function Apply(m: map<nat, nat>, ws: seq<Write>, w: nat): map<nat, nat>
    requires IsWidth(w)
  {
    if ws == [] then m
    else
      var last := ws[|ws| - 1];
      MemWrite(Apply(m, ws[..|ws| - 1], w), last.base, last.bytes, w)
  }

  /** What `__parse_binaries(w)` leaves in `mem`. */
  function BuildImage(bs: seq<Binary>, areas: seq<(nat, nat)>, w: nat): map<nat, nat>
    requires IsWidth(w)
  {
    Apply(map[], AllWrites(bs, areas), w)
  }

  lemma {:induction false} ApplyConcat(m: map<nat, nat>, ws1: seq<Write>, ws2: seq<Write>, w: nat)
    requires IsWidth(w)
    ensures Apply(m, ws1 + ws2, w) == Apply(Apply(m, ws1, w), ws2, w)
    decreases |ws2|
  {
    if ws2 == [] {
      assert ws1 + ws2 == ws1;
    } else {
      assert (ws1 + ws2)[..|ws1 + ws2| - 1] == ws1 + ws2[..|ws2| - 1];
      ApplyConcat(m, ws1, ws2[..|ws2| - 1], w);
    }
  }

  /** Every image the generator builds keeps the image invariant. */
  lemma {:induction false} ApplyValid(m: map<nat, nat>, ws: seq<Write>, w: nat)
    requires IsWidth(w) && Valid(m, w)
    ensures Valid(Apply(m, ws, w), w)
  {
    if ws != [] {
      ApplyValid(m, ws[..|ws| - 1], w);
      var last := ws[|ws| - 1];
      MemWriteValid(Apply(m, ws[..|ws| - 1], w), last.base, last.bytes, w);
    }
  }

  lemma ImageValid(bs: seq<Binary>, areas: seq<(nat, nat)>, w: nat)
    requires IsWidth(w)
    ensures Valid(BuildImage(bs, areas, w), w)
  {
    ApplyValid(map[], AllWrites(bs, areas), w);
  }

  /** Merging one more segment of a binary extends the merges so far. */
  lemma SegmentStep(m: map<nat, nat>, b: Binary, j: nat, areas: seq<(nat, nat)>, w: nat)
    requires IsWidth(w) && j < |b|
    ensures Apply(m, BinaryWrites(b[..j + 1], areas), w) ==
              Apply(Apply(m, BinaryWrites(b[..j], areas), w), SegmentWrites(b[j], areas), w)
  {
    assert b[..j + 1][..j] == b[..j];
    ApplyConcat(m, BinaryWrites(b[..j], areas), SegmentWrites(b[j], areas), w);
  }

  /** Merging one more binary extends the merges so far. */
  lemma BinaryStep(bs: seq<Binary>, i: nat, areas: seq<(nat, nat)>, w: nat)
    requires IsWidth(w) && i < |bs|
    ensures Apply(map[], AllWrites(bs[..i + 1], areas), w) ==
              Apply(Apply(map[], AllWrites(bs[..i], areas), w), BinaryWrites(bs[i], areas), w)
  {
    assert bs[..i + 1][..i] == bs[..i];
    ApplyConcat(map[], AllWrites(bs[..i], areas), BinaryWrites(bs[i], areas), w);
  }

  lemma ApplyOne(m: map<nat, nat>, x: Write, w: nat)
    requires IsWidth(w)
    ensures Apply(m, [x], w) == MemWrite(m, x.base, x.bytes, w)
  {
    assert [x][..0] == [];
  }

  lemma ApplyTwo(m: map<nat, nat>, x: Write, y: Write, w: nat)
    requires IsWidth(w)
    ensures Apply(m, [x, y], w) == MemWrite(MemWrite(m, x.base, x.bytes, w), y.base, y.bytes, w)
  {
    assert [x, y][..1] == [x];
    ApplyOne(m, x, w);
  }

  lemma OneSegmentWrites(s: Segment, areas: seq<(nat, nat)>)
    ensures AllWrites([[s]], areas) == SegmentWrites(s, areas)
  {
    assert [[s]][..0] == [] && [s][..0] == [];
    assert BinaryWrites([s], areas) == [] + SegmentWrites(s, areas);
    assert AllWrites([[s]], areas) == [] + BinaryWrites([s], areas);
  }

  lemma ByteAtEmpty(a: nat, w: nat)
    requires IsWidth(w)
    ensures ByteAt(map[], a, w) == 0
  {
  }

  lemma MergeZeros(x: Byte, a: nat, b: nat, n: nat, w: nat)
    requires IsWidth(w)
    ensures x == 0 ==> Merge(x, a, b, Zeros(n), w) == 0
    ensures !(b <= a < b + n) ==> Merge(x, a, b, Zeros(n), w) == x
  {
    OrZero(ClearMask(w), 0);
  }

  /** Merging zeros keeps a byte that reads 0 or lies outside the range. */
  lemma ZerosKeep(m: map<nat, nat>, b: nat, n: nat, w: nat, a: nat, x: Byte)
    requires IsWidth(w) && ByteAt(m, a, w) == x && (x == 0 || !(b <= a < b + n))
    ensures ByteAt(MemWrite(m, b, Zeros(n), w), a, w) == x
  {
    MemWriteBytes(m, b, Zeros(n), w, a);
    MergeZeros(x, a, b, n, w);
  }

  /** Over a byte that reads 0, a merge leaves its data byte, and 0 outside its range. */
  lemma OverZeroBytes(m: map<nat, nat>, p: nat, d: seq<Byte>, w: nat, a: nat)
    requires IsWidth(w) && ByteAt(m, a, w) == 0
    ensures ByteAt(MemWrite(m, p, d, w), a, w) == if p <= a < p + |d| then d[a - p] else 0
  {
    MemWriteBytes(m, p, d, w, a);
    MergeOverZero(a, p, d, w);
  }

  /** The zeroed tail merged after the data keeps a byte of the data, and a 0 anywhere. */
  lemma TailKeeps(m: map<nat, nat>, p: nat, d: seq<Byte>, n: nat, w: nat, a: nat, x: Byte)
    requires IsWidth(w) && ByteAt(MemWrite(m, p, d, w), a, w) == x && (x == 0 || !(p + |d| <= a < p + |d| + n))
    ensures ByteAt(MemWrite(MemWrite(m, p, d, w), p + |d|, Zeros(n), w), a, w) == x
  {
    ZerosKeep(MemWrite(m, p, d, w), p + |d|, n, w, a, x);
  }

  /** A merge leaves a byte outside its range as it was. */
  lemma OutsideKeeps(m: map<nat, nat>, p: nat, d: seq<Byte>, w: nat, a: nat, x: Byte)
    requires IsWidth(w) && ByteAt(m, a, w) == x && !(p <= a < p + |d|)
    ensures ByteAt(MemWrite(m, p, d, w), a, w) == x
  {
    MemWriteBytes(m, p, d, w, a);
  }

  /** The bytes a segment claims: its file bytes, then its zeroed tail. */
  function Extent(s: Segment): nat
  {
    if |s.data| < s.memsz then s.memsz else |s.data|
  }

  /** `__parse_binaries` merges the segment. */
  predicate Kept(s: Segment, areas: seq<(nat, nat)>)
  {
    s.ptype == Load && InAreas(s.paddr, |s.data|, areas)
  }

  predicate Covers(s: Segment, a: nat)
  {
    s.paddr <= a < s.paddr + Extent(s)
  }

  /** The byte a segment leaves at `a`: a file byte, or 0 in its tail and beyond. */
  function SegmentByte(s: Segment, a: nat): Byte
  {
    if s.paddr <= a < s.paddr + |s.data| then s.data[a - s.paddr] else 0
  }

  /**
   * Merging one kept segment over a byte that reads 0 leaves the segment's
   * byte there.
   */
  lemma SegmentOverZero(m: map<nat, nat>, s: Segment, areas: seq<(nat, nat)>, w: nat, a: nat)
    requires IsWidth(w) && Kept(s, areas) && ByteAt(m, a, w) == 0
    ensures ByteAt(Apply(m, SegmentWrites(s, areas), w), a, w) == SegmentByte(s, a)
  {
    if |s.data| < s.memsz {
      TailOverZero(m, s, areas, w, a, s.paddr, s.data, s.memsz - |s.data|);
    } else {
      ApplyLoad(m, s, areas, w);
      OverZeroBytes(m, s.paddr, s.data, w, a);
    }
  }

  lemma TailOverZero(m: map<nat, nat>, s: Segment, areas: seq<(nat, nat)>, w: nat, a: nat, p: nat, d: seq<Byte>, n: nat)
    requires IsWidth(w) && Kept(s, areas) && ByteAt(m, a, w) == 0
    requires p == s.paddr && d == s.data && |d| + n == s.memsz && n > 0
    ensures ByteAt(Apply(m, SegmentWrites(s, areas), w), a, w) == SegmentByte(s, a)
  {
    ApplyLoadTail(m, s, areas, w, p, d, n);
    OverZeroBytes(m, p, d, w, a);
    TailKeeps(m, p, d, n, w, a, SegmentByte(s, a));
  }

  /** A segment that is dropped, or does not cover `a`, leaves the byte at `a` as it was. */
  lemma SegmentOutside(m: map<nat, nat>, s: Segment, areas: seq<(nat, nat)>, w: nat, a: nat, x: Byte)
    requires IsWidth(w) && ByteAt(m, a, w) == x && !(Kept(s, areas) && Covers(s, a))
    ensures ByteAt(Apply(m, SegmentWrites(s, areas), w), a, w) == x
  {
    if !Kept(s, areas) {
      assert SegmentWrites(s, areas) == [];
    } else if |s.data| < s.memsz {
      TailOutside(m, s, areas, w, a, x, s.paddr, s.data, s.memsz - |s.data|);
    } else {
      ApplyLoad(m, s, areas, w);
      OutsideKeeps(m, s.paddr, s.data, w, a, x);
    }
  }

  lemma TailOutside(m: map<nat, nat>, s: Segment, areas: seq<(nat, nat)>, w: nat, a: nat, x: Byte, p: nat, d: seq<Byte>, n: nat)
    requires IsWidth(w) && ByteAt(m, a, w) == x && Kept(s, areas) && !Covers(s, a)
    requires p == s.paddr && d == s.data && |d| + n == s.memsz && n > 0
    ensures ByteAt(Apply(m, SegmentWrites(s, areas), w), a, w) == x
  {
    ApplyLoadTail(m, s, areas, w, p, d, n);
    OutsideKeeps(m, p, d, w, a, x);
    TailKeeps(m, p, d, n, w, a, x);
  }

  /**
   * A single loaded segment over an empty image: its file bytes are at
   * their addresses, and every other byte reads 0, the zeroed tail
   * included.
   */
  lemma OneSegmentImage(s: Segment, areas: seq<(nat, nat)>, w: nat, a: nat)
    requires IsWidth(w) && s.ptype == Load && InAreas(s.paddr, |s.data|, areas)
    ensures ByteAt(BuildImage([[s]], areas, w), a, w) ==
              if s.paddr <= a < s.paddr + |s.data| then s.data[a - s.paddr] else 0
  {
    OneSegmentBuild(s, areas, w);
    ByteAtEmpty(a, w);
    SegmentOverZero(map[], s, areas, w, a);
  }

  lemma ApplyLoad(m: map<nat, nat>, s: Segment, areas: seq<(nat, nat)>, w: nat)
    requires IsWidth(w) && s.ptype == Load && InAreas(s.paddr, |s.data|, areas) && |s.data| >= s.memsz
    ensures Apply(m, SegmentWrites(s, areas), w) == MemWrite(m, s.paddr, s.data, w)
  {
    var x := Write(s.paddr, s.data);
    var ws := SegmentWrites(s, areas);
    assert ws == [x];
    ApplyOne(m, x, w);
    assert Apply(m, ws, w) == Apply(m, [x], w);
  }

  lemma ApplyLoadTail(m: map<nat, nat>, s: Segment, areas: seq<(nat, nat)>, w: nat, p: nat, d: seq<Byte>, n: nat)
    requires IsWidth(w) && s.ptype == Load && InAreas(s.paddr, |s.data|, areas)
    requires p == s.paddr && d == s.data && |d| + n == s.memsz && n > 0
    ensures Apply(m, SegmentWrites(s, areas), w) == MemWrite(MemWrite(m, p, d, w), p + |d|, Zeros(n), w)
  {
    var x, y := Write(p, d), Write(p + |d|, Zeros(n));
    assert s.memsz - |s.data| == n;
    assert SegmentWrites(s, areas) == [x, y];
    ApplyTwo(m, x, y, w);
  }

  lemma OneSegmentBuild(s: Segment, areas: seq<(nat, nat)>, w: nat)
    requires IsWidth(w)
    ensures BuildImage([[s]], areas, w) == Apply(map[], SegmentWrites(s, areas), w)
  {
    OneSegmentWrites(s, areas);
  }

  // ---------------------------------------------------------------------
  // Several segments in one image

  /** The segments of all binaries, in the order `__parse_binaries` merges them. */
  function Segments(bs: seq<Binary>): seq<Segment>
  {
    if bs == [] then [] else Segments(bs[..|bs| - 1]) + bs[|bs| - 1]
  }

  /** No two kept segments claim a common byte. */
  predicate Disjoint(ss: seq<Segment>, areas: seq<(nat, nat)>)
  {
    forall i, j :: 0 <= i < j < |ss| && Kept(ss[i], areas) && Kept(ss[j], areas) ==>
      ss[i].paddr + Extent(ss[i]) <= ss[j].paddr || ss[j].paddr + Extent(ss[j]) <= ss[i].paddr
  }

  /** The byte the kept segments leave at `a`: that of the last one covering it, 0 when none does. */
  function SegmentsByte(ss: seq<Segment>, areas: seq<(nat, nat)>, a: nat): Byte
  {
    if ss == [] then 0
    else if Kept(ss[|ss| - 1], areas) && Covers(ss[|ss| - 1], a) then SegmentByte(ss[|ss| - 1], a)
    else SegmentsByte(ss[..|ss| - 1], areas, a)
  }

  lemma {:induction false} BinaryWritesConcat(b1: Binary, b2: Binary, areas: seq<(nat, nat)>)
    ensures BinaryWrites(b1 + b2, areas) == BinaryWrites(b1, areas) + BinaryWrites(b2, areas)
    decreases |b2|
  {
    if b2 == [] {
      assert b1 + b2 == b1;
    } else {
      assert (b1 + b2)[..|b1 + b2| - 1] == b1 + b2[..|b2| - 1];
      assert (b1 + b2)[|b1 + b2| - 1] == b2[|b2| - 1];
      BinaryWritesConcat(b1, b2[..|b2| - 1], areas);
    }
  }

  /** The merges of all binaries are those of their segments, one after another. */
  lemma {:induction false} AllWritesFlat(bs: seq<Binary>, areas: seq<(nat, nat)>)
    ensures AllWrites(bs, areas) == BinaryWrites(Segments(bs), areas)
  {
    if bs != [] {
      AllWritesFlat(bs[..|bs| - 1], areas);
      BinaryWritesConcat(Segments(bs[..|bs| - 1]), bs[|bs| - 1], areas);
    }
  }

  lemma {:induction false} UncoveredZero(ss: seq<Segment>, areas: seq<(nat, nat)>, a: nat)
    requires forall i :: 0 <= i < |ss| && Kept(ss[i], areas) ==> !Covers(ss[i], a)
    ensures SegmentsByte(ss, areas, a) == 0
  {
    if ss != [] {
      UncoveredZero(ss[..|ss| - 1], areas, a);
    }
  }

  /** When the last of disjoint segments covers `a`, none before it does. */
  lemma LastCovering(ss: seq<Segment>, areas: seq<(nat, nat)>, a: nat)
    requires Disjoint(ss, areas) && ss != [] && Kept(ss[|ss| - 1], areas) && Covers(ss[|ss| - 1], a)
    ensures SegmentsByte(ss[..|ss| - 1], areas, a) == 0
  {
    var init := ss[..|ss| - 1];
    assert forall i :: 0 <= i < |init| ==> init[i] == ss[i];
    UncoveredZero(init, areas, a);
  }

  /** Among disjoint segments, the byte at `a` is that of the one kept segment covering it. */
  lemma {:induction false} SegmentsByteCovering(ss: seq<Segment>, areas: seq<(nat, nat)>, a: nat, i: nat)
    requires Disjoint(ss, areas) && i < |ss| && Kept(ss[i], areas) && Covers(ss[i], a)
    ensures SegmentsByte(ss, areas, a) == SegmentByte(ss[i], a)
  {
    if i < |ss| - 1 {
      assert Disjoint(ss[..|ss| - 1], areas);
      assert ss[..|ss| - 1][i] == ss[i];
      SegmentsByteCovering(ss[..|ss| - 1], areas, a, i);
    }
  }

  /**
   * Disjoint segments merged one after another: every byte is that of the
   * last kept segment covering it, or 0, whichever words they share.
   */
  lemma {:induction false} SegmentsImage(ss: seq<Segment>, areas: seq<(nat, nat)>, w: nat, a: nat)
    requires IsWidth(w) && Disjoint(ss, areas)
    ensures ByteAt(Apply(map[], BinaryWrites(ss, areas), w), a, w) == SegmentsByte(ss, areas, a)
  {
    if ss == [] {
      ByteAtEmpty(a, w);
    } else {
      assert Disjoint(ss[..|ss| - 1], areas);
      SegmentsImage(ss[..|ss| - 1], areas, w, a);
      ApplyConcat(map[], BinaryWrites(ss[..|ss| - 1], areas), SegmentWrites(ss[|ss| - 1], areas), w);
      if Kept(ss[|ss| - 1], areas) && Covers(ss[|ss| - 1], a) {
        LastCovering(ss, areas, a);
        SegmentOverZero(Apply(map[], BinaryWrites(ss[..|ss| - 1], areas), w), ss[|ss| - 1], areas, w, a);
      } else {
        SegmentOutside(Apply(map[], BinaryWrites(ss[..|ss| - 1], areas), w), ss[|ss| - 1], areas, w, a,
                       SegmentsByte(ss[..|ss| - 1], areas, a));
      }
    }
  }

  /**
   * The image of binaries whose kept segments claim disjoint bytes: a byte
   * a kept segment covers is that segment's (a file byte, or 0 in its
   * tail), even where another segment wrote the same word.
   */
  lemma PlacedBytes(bs: seq<Binary>, areas: seq<(nat, nat)>, w: nat, a: nat, i: nat)
    requires IsWidth(w) && Disjoint(Segments(bs), areas)
    requires i < |Segments(bs)| && Kept(Segments(bs)[i], areas) && Covers(Segments(bs)[i], a)
    ensures ByteAt(BuildImage(bs, areas, w), a, w) == SegmentByte(Segments(bs)[i], a)
  {
    AllWritesFlat(bs, areas);
    SegmentsImage(Segments(bs), areas, w, a);
    SegmentsByteCovering(Segments(bs), areas, a, i);
  }

  /** ... and a byte no kept segment covers reads 0. */
  lemma UnplacedBytes(bs: seq<Binary>, areas: seq<(nat, nat)>, w: nat, a: nat)
    requires IsWidth(w) && Disjoint(Segments(bs), areas)
    requires forall i :: 0 <= i < |Segments(bs)| && Kept(Segments(bs)[i], areas) ==> !Covers(Segments(bs)[i], a)
    ensures ByteAt(BuildImage(bs, areas, w), a, w) == 0
  {
    AllWritesFlat(bs, areas);
    SegmentsImage(Segments(bs), areas, w, a);
    UncoveredZero(Segments(bs), areas, a);
  }

  /**
   * The merge order does not matter: binaries holding the same disjoint
   * segments, in any order, build images with the same bytes.
   */
  lemma MergeOrderFree(bs1: seq<Binary>, bs2: seq<Binary>, areas: seq<(nat, nat)>, w: nat, a: nat)
    requires IsWidth(w) && Disjoint(Segments(bs1), areas) && Disjoint(Segments(bs2), areas)
    requires forall s :: s in Segments(bs1) <==> s in Segments(bs2)
    ensures ByteAt(BuildImage(bs1, areas, w), a, w) == ByteAt(BuildImage(bs2, areas, w), a, w)
  {
    if i :| 0 <= i < |Segments(bs1)| && Kept(Segments(bs1)[i], areas) && Covers(Segments(bs1)[i], a) {
      assert Segments(bs1)[i] in Segments(bs2);
      var j :| 0 <= j < |Segments(bs2)| && Segments(bs2)[j] == Segments(bs1)[i];
      PlacedBytes(bs1, areas, w, a, i);
      PlacedBytes(bs2, areas, w, a, j);
    } else {
      assert forall j :: 0 <= j < |Segments(bs2)| && Kept(Segments(bs2)[j], areas) ==> !Covers(Segments(bs2)[j], a) by {
        forall j | 0 <= j < |Segments(bs2)| && Kept(Segments(bs2)[j], areas)
          ensures !Covers(Segments(bs2)[j], a)
        {
          assert Segments(bs2)[j] in Segments(bs1);
        }
      }
      UnplacedBytes(bs1, areas, w, a);
      UnplacedBytes(bs2, areas, w, a);
    }
  }

  /**
   * Two segments of one binary, one after the other: the file bytes of
   * both survive the merge, also where they share a word.
   */
  lemma TwoSegments(s1: Segment, s2: Segment, w: nat, a1: nat, a2: nat)
    requires IsWidth(w) && s1.ptype == Load && s2.ptype == Load && s1.paddr + Extent(s1) <= s2.paddr
    requires s1.paddr <= a1 < s1.paddr + |s1.data| && s2.paddr <= a2 < s2.paddr + |s2.data|
    ensures ByteAt(BuildImage([[s1, s2]], [], w), a1, w) == s1.data[a1 - s1.paddr]
    ensures ByteAt(BuildImage([[s1, s2]], [], w), a2, w) == s2.data[a2 - s2.paddr]
  {
    OneBinary([s1, s2]);
    PairDisjoint(s1, s2);
    TwoSegmentsFirst([[s1, s2]], s1, s2, w, a1);
    TwoSegmentsSecond([[s1, s2]], s1, s2, w, a2);
  }

  lemma OneBinary(b: Binary)
    ensures Segments([b]) == b
  {
    assert [b][..0] == [];
  }

  lemma PairDisjoint(s1: Segment, s2: Segment)
    requires s1.paddr + Extent(s1) <= s2.paddr
    ensures Disjoint([s1, s2], [])
  {
  }

  lemma TwoSegmentsFirst(bs: seq<Binary>, s1: Segment, s2: Segment, w: nat, a1: nat)
    requires IsWidth(w) && s1.ptype == Load && Segments(bs) == [s1, s2] && Disjoint([s1, s2], [])
    requires s1.paddr <= a1 < s1.paddr + |s1.data|
    ensures ByteAt(BuildImage(bs, [], w), a1, w) == s1.data[a1 - s1.paddr]
  {
    assert Segments(bs)[0] == s1 && Kept(s1, []) && Covers(s1, a1);
    PlacedBytes(bs, [], w, a1, 0);
  }

  lemma TwoSegmentsSecond(bs: seq<Binary>, s1: Segment, s2: Segment, w: nat, a2: nat)
    requires IsWidth(w) && s2.ptype == Load && Segments(bs) == [s1, s2] && Disjoint([s1, s2], [])
    requires s2.paddr <= a2 < s2.paddr + |s2.data|
    ensures ByteAt(BuildImage(bs, [], w), a2, w) == s2.data[a2 - s2.paddr]
  {
    assert Segments(bs)[1] == s2 && Kept(s2, []) && Covers(s2, a2);
    PlacedBytes(bs, [], w, a2, 1);
  }

  // ---------------------------------------------------------------------
  // `%X_%0*X` lines

  /** One line's fields: the address in upper-case hex, the word padded to `2*w` digits. */
  function SlmField(m: map<nat, nat>, k: nat, w: nat): Fields
  {
    Fields(Hex(k, true), HexPad(Get(m, k), 2 * w, true))
  }

  /** The lines' fields: each address in upper-case hex, its word padded to `2*w` digits. */
  function SlmFields(m: map<nat, nat>, ks: seq<nat>, w: nat): (fs: seq<Fields>)
    ensures |fs| == |ks|
  {
    if ks == [] then [] else [SlmField(m, ks[0], w)] + SlmFields(m, ks[1..], w)
  }

  lemma {:induction false} SlmFieldsAt(m: map<nat, nat>, ks: seq<nat>, w: nat, i: nat)
    requires i < |ks|
    ensures SlmFields(m, ks, w)[i] == SlmField(m, ks[i], w)
  {
    if i > 0 {
      SlmFieldsAt(m, ks[1..], w, i - 1);
    }
  }

  lemma {:induction false} SlmFieldsSnoc(m: map<nat, nat>, ks: seq<nat>, k: nat, w: nat)
    ensures SlmFields(m, ks + [k], w) == SlmFields(m, ks, w) + [SlmField(m, k, w)]
  {
    if ks == [] {
      assert [k][1..] == [];
    } else {
      assert (ks + [k])[1..] == ks[1..] + [k];
      SlmFieldsSnoc(m, ks[1..], k, w);
    }
  }

  /** The text `__gen_stim_slm` writes for the image `m`. */
  ghost function SlmText(m: map<nat, nat>, w: nat): string
  {
    Render("", '_', SlmFields(m, DecSort(m.Keys), w))
  }

  lemma SlmFieldReads(m: map<nat, nat>, k: nat, w: nat)
    ensures WellFormed(SlmField(m, k, w))
    ensures Value(SlmField(m, k, w).left, 16) == k && Value(SlmField(m, k, w).right, 16) == Get(m, k)
  {
    ValuePadded(Get(m, k), 2 * w, true);
  }

  lemma TakeSnoc<T>(s: seq<T>, i: nat)
    requires i < |s|
    ensures s[..i + 1] == s[..i] + [s[i]]
  {
  }

  /** The address and word each line stands for. */
  function Pairs(m: map<nat, nat>, ks: seq<nat>): (ps: seq<(nat, nat)>)
    ensures |ps| == |ks|
  {
    seq(|ks|, i requires 0 <= i < |ks| => (ks[i], Get(m, ks[i])))
  }

  /** Lines for any list of addresses read back as those addresses and their words. */
  lemma SlmParse(m: map<nat, nat>, ks: seq<nat>, w: nat)
    ensures ParseLines(Render("", '_', SlmFields(m, ks, w)), "", '_') == Some(Pairs(m, ks))
  {
    var fs := SlmFields(m, ks, w);
    forall i | 0 <= i < |fs|
      ensures fs[i] == SlmField(m, ks[i], w)
      ensures WellFormed(fs[i])
      ensures Value(fs[i].left, 16) == ks[i] && Value(fs[i].right, 16) == Get(m, ks[i])
    {
      SlmFieldsAt(m, ks, w, i);
      SlmFieldReads(m, ks[i], w);
    }
    ParseRender("", '_', fs);
    var d, p := Denoted(fs), Pairs(m, ks);
    forall i | 0 <= i < |d|
      ensures d[i] == p[i]
    {
    }
    assert d == p;
  }

  /**
   * Reading the text back gives one pair per word of the image, in the
   * visiting order, with its stored value.
   */
  lemma SlmRoundTrip(m: map<nat, nat>, w: nat)
    ensures var ks := DecSort(m.Keys);
      forall i :: 0 <= i < |ks| ==> ks[i] in m
    ensures var ks, r := DecSort(m.Keys), ParseLines(SlmText(m, w), "", '_');
      r.Some? && |r.value| == |ks| && forall i :: 0 <= i < |ks| ==> r.value[i] == (ks[i], m[ks[i]])
  {
    var ks := DecSort(m.Keys);
    DecSortKeys(m.Keys);
    SlmParse(m, ks, w);
  }

  /** In a valid image every value field is exactly `2*w` digits wide. */
  lemma SlmValueWidth(m: map<nat, nat>, w: nat, k: nat)
    requires IsWidth(w) && Valid(m, w) && k in m
    ensures |HexPad(m[k], 2 * w, true)| == 2 * w
  {
    WordLimitIsPow(w);
    PowSquare(w);
    HexPadLength(m[k], 2 * w, true);
  }

  /** Every word of the image gets exactly one line. */
  lemma SlmOneLinePerWord(m: map<nat, nat>)
    ensures var ks := DecSort(m.Keys);
      (forall k :: k in m <==> k in ks) &&
      (forall i, j :: 0 <= i < j < |ks| ==> ks[i] != ks[j])
  {
    var ks := DecSort(m.Keys);
    DecSortKeys(m.Keys);
    forall k
      ensures k in m <==> k in ks
    {
      assert k in m <==> k in m.Keys;
    }
    DecSortSorted(m.Keys);
    forall i, j | 0 <= i < j < |ks|
      ensures ks[i] != ks[j]
    {
      SortedDistinct(ks, i, j);
    }
  }

  // ---------------------------------------------------------------------
  // The dense byte stream of `gen_stim_bin`

  /** The byte `struct.pack('B', v)` writes for a word of a byte image. */
  function LowByte(v: nat): Byte
  {
    v % 256
  }

  predicate Ascending(ks: seq<nat>)
  {
    forall i, j :: 0 <= i < j < |ks| ==> ks[i] < ks[j]
  }

  /** The byte written for address `a` once the keys in `seen` have been visited. */
  function Cell(m: map<nat, nat>, seen: seq<nat>, a: nat): Byte
  {
    if a in seen then LowByte(Get(m, a)) else 0
  }

  function Dense(m: map<nat, nat>, seen: seq<nat>, lo: nat, hi: nat): (s: seq<Byte>)
    requires lo <= hi
    ensures |s| == hi - lo + 1
  {
    seq<Byte>(hi - lo + 1, j requires 0 <= j => Cell(m, seen, lo + j))
  }

  /** The bytes of addresses `lo` to `hi`: each word's value, 0 where there is none. */
  function Fill(m: map<nat, nat>, lo: nat, hi: nat): (s: seq<Byte>)
    requires lo <= hi
    ensures |s| == hi - lo + 1
  {
    seq<Byte>(hi - lo + 1, j requires 0 <= j => LowByte(Get(m, lo + j)))
  }

  /**
   * What `gen_stim_bin` writes for the image `m`; None when the visiting
   * order is not numeric, where the gap loop never ends.
   */
  ghost function BinStream(m: map<nat, nat>): Option<seq<Byte>>
  {
    var ks := DecSort(m.Keys);
    if ks == [] then Some([])
    else if Ascending(ks) then Some(Fill(m, ks[0], ks[|ks| - 1]))
    else None
  }

  /** Once every key has been visited, the visited cells are the image's bytes. */
  lemma DenseIsFill(m: map<nat, nat>, seen: seq<nat>, lo: nat, hi: nat)
    requires lo <= hi && forall a :: a in seen <==> a in m
    ensures Dense(m, seen, lo, hi) == Fill(m, lo, hi)
  {
    var d, f := Dense(m, seen, lo, hi), Fill(m, lo, hi);
    forall j | 0 <= j < |d|
      ensures d[j] == f[j]
    {
      assert d[j] == Cell(m, seen, lo + j);
      if lo + j !in m {
        assert Get(m, lo + j) == 0 && LowByte(0) == 0;
      }
    }
  }

  lemma DensePad(m: map<nat, nat>, seen: seq<nat>, lo: nat, hi: nat)
    requires lo <= hi && hi + 1 !in seen
    ensures Dense(m, seen, lo, hi) + [0] == Dense(m, seen, lo, hi + 1)
  {
    var d1 := Dense(m, seen, lo, hi) + [0];
    var d2 := Dense(m, seen, lo, hi + 1);
    forall j | 0 <= j < |d2|
      ensures d1[j] == d2[j]
    {
      if j < hi - lo + 1 {
        assert d1[j] == Cell(m, seen, lo + j);
      } else {
        assert lo + j == hi + 1;
      }
    }
  }

  lemma DenseVisit(m: map<nat, nat>, seen: seq<nat>, lo: nat, x: nat)
    requires lo < x && x !in seen
    ensures Dense(m, seen, lo, x - 1) + [LowByte(Get(m, x))] == Dense(m, seen + [x], lo, x)
  {
    var d1 := Dense(m, seen, lo, x - 1) + [LowByte(Get(m, x))];
    var d2 := Dense(m, seen + [x], lo, x);
    forall j | 0 <= j < |d2|
      ensures d1[j] == d2[j]
    {
      if lo + j < x {
        assert (lo + j in seen) <==> (lo + j in seen + [x]);
      }
    }
  }

  /**
   * When the visiting order is numeric the stream runs from the least to
   * the greatest address, and the byte at offset `j` is the word at
   * `first + j`, or 0 where there is none.
   */
  lemma BinStreamContents(m: map<nat, nat>)
    requires Valid(m, 1) && m != map[] && BinStream(m).Some?
    ensures var ks, s := DecSort(m.Keys), BinStream(m).value;
      (forall k :: k in m ==> ks[0] <= k <= ks[|ks| - 1]) &&
      |s| == ks[|ks| - 1] - ks[0] + 1 &&
      (forall j :: 0 <= j < |s| ==> s[j] == Get(m, ks[0] + j))
  {
    BinStreamShape(m);
    var ks := DecSort(m.Keys);
    FillContents(m, ks[0], ks[|ks| - 1]);
  }

  /** A stream that exists spans the image's least to greatest address. */
  lemma BinStreamShape(m: map<nat, nat>)
    requires m != map[] && BinStream(m).Some?
    ensures var ks := DecSort(m.Keys);
      ks != [] && BinStream(m).value == Fill(m, ks[0], ks[|ks| - 1]) &&
      forall k :: k in m ==> ks[0] <= k <= ks[|ks| - 1]
  {
    var ks := DecSort(m.Keys);
    DecSortKeys(m.Keys);
    assert ks != [] by {
      var k :| k in m;
    }
    AscendingBounds(ks, m);
  }

  /** The keys of an ascending enumeration lie between its first and last element. */
  lemma AscendingBounds(ks: seq<nat>, m: map<nat, nat>)
    requires ks != [] && Ascending(ks)
    requires forall k :: k in m ==> k in ks
    ensures forall k :: k in m ==> ks[0] <= k <= ks[|ks| - 1]
  {
    forall k | k in m
      ensures ks[0] <= k <= ks[|ks| - 1]
    {
      var j :| 0 <= j < |ks| && ks[j] == k;
      assert j == 0 || ks[0] < k;
      assert j == |ks| - 1 || k < ks[|ks| - 1];
    }
  }

  /** A byte image's stream holds each word's value at its offset and 0 elsewhere. */
  lemma FillContents(m: map<nat, nat>, lo: nat, hi: nat)
    requires lo <= hi && Valid(m, 1)
    ensures forall j :: 0 <= j <= hi - lo ==> Fill(m, lo, hi)[j] == Get(m, lo + j)
  {
    var s := Fill(m, lo, hi);
    forall j | 0 <= j <= hi - lo
      ensures s[j] == Get(m, lo + j)
    {
      var v := Get(m, lo + j);
      assert s[j] == LowByte(v);
      assert v < 256;
    }
  }

  /** Addresses of one decimal length are visited in numeric order, so the stream exists. */
  lemma BinStreamSameLength(m: map<nat, nat>)
    requires forall x, y :: x in m && y in m ==> |Dec(x)| == |Dec(y)|
    ensures BinStream(m).Some?
  {
    var ks := DecSort(m.Keys);
    DecSortSorted(m.Keys);
    DecSortKeys(m.Keys);
    forall i, j | 0 <= i < j < |ks|
      ensures ks[i] < ks[j]
    {
      SameLengthNumeric(ks[i], ks[j]);
    }
  }

  /** Words at 9 and 10 are visited as 10, 9: `gen_stim_bin` never finishes. */
  lemma BinStreamNineTen()
    ensures BinStream(map[9 := 1, 10 := 2]) == None
  {
    assert map[9 := 1, 10 := 2].Keys == {9, 10};
    SortNineTen();
  }

  /** Each of the first `n` keys is below the next one. */
  predicate Chain(ks: seq<nat>, n: nat)
  {
    n <= |ks| && forall j :: 0 < j < n ==> ks[j - 1] < ks[j]
  }

  lemma {:induction false} ChainAscending(ks: seq<nat>, n: nat)
    requires Chain(ks, n)
    ensures Ascending(ks[..n])
  {
    if n > 1 {
      ChainAscending(ks, n - 1);
      forall i, j | 0 <= i < j < n
        ensures ks[..n][i] < ks[..n][j]
      {
        if j < n - 1 {
          assert ks[..n - 1][i] < ks[..n - 1][j];
        } else if i < n - 2 {
          assert ks[..n - 1][i] < ks[..n - 1][n - 2];
        }
      }
    }
  }

  /** Under a chain, every visited key is at most the last one. */
  lemma ChainBelow(ks: seq<nat>, n: nat)
    requires Chain(ks, n) && n >= 1
    ensures forall j :: 0 <= j < n ==> ks[..n][j] <= ks[n - 1]
  {
    ChainAscending(ks, n);
    forall j | 0 <= j < n
      ensures ks[..n][j] <= ks[n - 1]
    {
      if j < n - 1 {
        assert ks[..n][j] < ks[..n][n - 1];
      }
    }
  }

  lemma DenseFirst(m: map<nat, nat>, ks: seq<nat>)
    requires ks != []
    ensures [LowByte(Get(m, ks[0]))] == Dense(m, ks[..1], ks[0], ks[0])
  {
    assert ks[..1] == [ks[0]];
    assert Cell(m, ks[..1], ks[0]) == LowByte(Get(m, ks[0]));
  }

  lemma MemWriteStep(m: map<nat, nat>, b: nat, d: seq<Byte>, w: nat)
    requires IsWidth(w) && |d| >= 1
    ensures var c := Chunk(b, |d|, w);
      MemWrite(WriteWord(m, b, d, w), b + c, d[c..], w) == MemWrite(m, b, d, w)
  {
  }

  // ---------------------------------------------------------------------
  // The generator object

  class Stim {
    var binaries: seq<Binary>
    var areas: seq<(nat, nat)>
    var mem: map<nat, nat>

    constructor ()
      ensures binaries == [] && areas == [] && mem == map[]
    {
      binaries := [];
      areas := [];
      mem := map[];
    }

    method AddBinary(b: Binary)
      modifies this
      ensures binaries == old(binaries) + [b]
      ensures areas == old(areas) && mem == old(mem)
    {
      binaries := binaries + [b];
    }

    /** Adds the half-open area `[start, start + size)`. */
    method AddArea(start: nat, size: nat)
      modifies this
      ensures areas == old(areas) + [(start, start + size)]
      ensures binaries == old(binaries) && mem == old(mem)
    {
      areas := areas + [(start, start + size)];
    }

    /** Merges the first chunk of `data` into its word; returns the chunk size. */
    method AddMemWord(base: nat, size: nat, data: seq<Byte>, width: nat) returns (chunk: nat)
      requires IsWidth(width) && size >= 1 && |data| == size
      modifies this
      ensures chunk == Chunk(base, size, width) && 1 <= chunk <= size
      ensures mem == WriteWord(old(mem), base, data, width)
      ensures binaries == old(binaries) && areas == old(areas)
    {
      chunk := Chunk(base, size, width);
      mem := WriteWord(mem, base, data, width);
    }

    /** Merges `data` at `base`, one word-sized chunk at a time. */
    method AddMem(base: nat, size: nat, data: seq<Byte>, width: nat)
      requires IsWidth(width) && |data| == size
      modifies this
      ensures mem == MemWrite(old(mem), base, data, width)
      ensures binaries == old(binaries) && areas == old(areas)
    {
      var b, n, d := base, size, data;
      while n > 0
        invariant |d| == n
        invariant MemWrite(mem, b, d, width) == MemWrite(old(mem), base, data, width)
        invariant binaries == old(binaries) && areas == old(areas)
        decreases n
      {
        ghost var prev := mem;
        var c := AddMemWord(b, n, d, width);
        MemWriteStep(prev, b, d, width);
        n := n - c;
        b := b + c;
        d := d[c..];
      }
    }

    /** Whether a segment at `addr` with `size` file bytes passes the area filter. */
    method Loads(addr: nat, size: nat) returns (load: bool)
      ensures load == InAreas(addr, size, areas)
    {
      load := true;
      if |areas| != 0 {
        load := false;
        var i := 0;
        while i < |areas|
          invariant 0 <= i <= |areas|
          invariant forall j :: 0 <= j < i ==> !(areas[j].0 <= addr && addr + size <= areas[j].1)
        {
          if addr >= areas[i].0 && addr + size <= areas[i].1 {
            load := true;
            break;
          }
          i := i + 1;
        }
      }
    }

    /** Merges one segment when it is loadable and passes the area filter, then its zeroed tail. */
    method AddSegment(seg: Segment, width: nat)
      requires IsWidth(width)
      modifies this
      ensures mem == Apply(old(mem), SegmentWrites(seg, areas), width)
      ensures binaries == old(binaries) && areas == old(areas)
    {
      if seg.ptype == Load {
        var load := Loads(seg.paddr, |seg.data|);
        if load {
          AddLoaded(seg, width);
          return;
        }
      }
      assert SegmentWrites(seg, areas) == [];
    }

    /** Merges a segment that passed the filters: its file bytes, then its zeroed tail. */
    method AddLoaded(seg: Segment, width: nat)
      requires IsWidth(width) && seg.ptype == Load && InAreas(seg.paddr, |seg.data|, areas)
      modifies this
      ensures mem == Apply(old(mem), SegmentWrites(seg, areas), width)
      ensures binaries == old(binaries) && areas == old(areas)
    {
      if |seg.data| < seg.memsz {
        AddWithTail(seg, seg.memsz - |seg.data|, width);
      } else {
        ghost var before := mem;
        AddMem(seg.paddr, |seg.data|, seg.data, width);
        ApplyLoad(before, seg, areas, width);
      }
    }

    /** Merges the file bytes of `seg`, then the `n` zeros of its tail. */
    method AddWithTail(seg: Segment, n: nat, width: nat)
      requires IsWidth(width) && seg.ptype == Load && InAreas(seg.paddr, |seg.data|, areas)
      requires |seg.data| + n == seg.memsz && n > 0
      modifies this
      ensures mem == Apply(old(mem), SegmentWrites(seg, areas), width)
      ensures binaries == old(binaries) && areas == old(areas)
    {
      ghost var before := mem;
      AddMem(seg.paddr, |seg.data|, seg.data, width);
      AddMem(seg.paddr + |seg.data|, n, Zeros(n), width);
      ApplyLoadTail(before, seg, areas, width, seg.paddr, seg.data, n);
    }

    /** Merges the segments of one binary, in file order. */
    method AddSegments(b: Binary, width: nat)
      requires IsWidth(width)
      modifies this
      ensures mem == Apply(old(mem), BinaryWrites(b, areas), width)
      ensures binaries == old(binaries) && areas == old(areas)
    {
      var j := 0;
      assert b[..0] == [];
      while j < |b|
        invariant 0 <= j <= |b|
        invariant binaries == old(binaries) && areas == old(areas)
        invariant mem == Apply(old(mem), BinaryWrites(b[..j], areas), width)
      {
        AddSegment(b[j], width);
        SegmentStep(old(mem), b, j, areas, width);
        j := j + 1;
      }
      assert b[..j] == b;
    }

    /** Rebuilds `mem` from the binaries, in the order they were added. */
    method ParseBinaries(width: nat)
      requires IsWidth(width)
      modifies this
      ensures mem == BuildImage(binaries, areas, width)
      ensures binaries == old(binaries) && areas == old(areas)
    {
      mem := map[];
      var i := 0;
      assert binaries[..0] == [];
      while i < |binaries|
        invariant 0 <= i <= |binaries|
        invariant binaries == old(binaries) && areas == old(areas)
        invariant mem == Apply(map[], AllWrites(binaries[..i], areas), width)
      {
        AddSegments(binaries[i], width);
        BinaryStep(binaries, i, areas, width);
        i := i + 1;
      }
      assert binaries[..i] == binaries;
    }

    /** Writes the image as `%X_%0*X` lines, in the order of `sorted(mem.keys())`. */
    method GenStimSlm(width: nat) returns (text: string)
      ensures text == SlmText(mem, width)
    {
      var ks := SortKeys(mem.Keys);
      DecSortKeys(mem.Keys);
      text := "";
      var i := 0;
      while i < |ks|
        invariant 0 <= i <= |ks|
        invariant text == Render("", '_', SlmFields(mem, ks[..i], width))
      {
        var k := ks[i];
        var f := Fields(Hex(k, true), HexPad(mem[k], 2 * width, true));
        assert f == SlmField(mem, k, width);
        RenderAppend("", '_', SlmFields(mem, ks[..i], width), f);
        SlmFieldsSnoc(mem, ks[..i], k, width);
        TakeSnoc(ks, i);
        text := text + RenderLine("", '_', f);
        i := i + 1;
      }
      assert ks[..i] == ks;
    }

    /** `gen_stim_slm_64`: the image at width 8, as text. */
    method GenStimSlm64() returns (text: string)
      modifies this
      ensures mem == BuildImage(binaries, areas, 8) && text == SlmText(mem, 8)
      ensures binaries == old(binaries) && areas == old(areas)
    {
      ParseBinaries(8);
      text := GenStimSlm(8);
    }

    /** The byte stream of the current image; None where the source's gap loop would not end. */
    method BinBytes() returns (r: Option<seq<Byte>>)
      ensures r == BinStream(mem)
    {
      var ks := SortKeys(mem.Keys);
      if ks == [] {
        return Some([]);
      }
      var first := ks[0];
      var out := [LowByte(Get(mem, first))];
      var prev := first;
      var i := 1;
      DenseFirst(mem, ks);
      while i < |ks|
        invariant 1 <= i <= |ks|
        invariant prev == ks[i - 1] && first <= prev
        invariant Chain(ks, i)
        invariant out == Dense(mem, ks[..i], first, prev)
      {
        var addr := ks[i];
        if addr <= prev {
          return None;
        }
        ghost var seen := ks[..i];
        ChainBelow(ks, i);
        while prev != addr - 1
          invariant ks[i - 1] <= prev <= addr - 1
          invariant out == Dense(mem, seen, first, prev)
          decreases addr - 1 - prev
        {
          DensePad(mem, seen, first, prev);
          out := out + [0];
          prev := prev + 1;
        }
        DenseVisit(mem, seen, first, addr);
        assert ks[..i + 1] == seen + [addr];
        out := out + [LowByte(Get(mem, addr))];
        prev := addr;
        i := i + 1;
      }
      assert ks[..i] == ks;
      ChainAscending(ks, i);
      DecSortKeys(mem.Keys);
      DenseIsFill(mem, ks, first, prev);
      r := Some(out);
    }

    /** `gen_stim_bin`: the image at width 1, as a dense byte stream. */
    method GenStimBin() returns (r: Option<seq<Byte>>)
      modifies this
      ensures mem == BuildImage(binaries, areas, 1) && r == BinStream(mem)
      ensures binaries == old(binaries) && areas == old(areas)
    {
      ParseBinaries(1);
      r := BinBytes();
    }
  }
}
