/**
 * The HSA runner's image builder: the loadable segments of a binary are
 * packed into one byte image per memory window, L1 (the TCDM) and L2,
 * each starting at its window's base and zero-filled between segments.
 */
module Hsa {
  import opened LittleEndian
  import opened Stimuli

  const L1Base: nat := 0x1000_0000
  const L1End: nat := 0x1100_0000
  const L2Base: nat := 0x1C00_0000
  const L2End: nat := 0x2000_0000

  /**
   * What `append_data` returns for segment bytes `data` at `addr`, the
   * image so far and its cursor: zeros up to `addr` when it lies past the
   * cursor, then the bytes; the new cursor is the end of the segment.
   */
  function Appended(data: seq<Byte>, addr: nat, buf: seq<Byte>, cursor: nat): (seq<Byte>, nat)
  {
    (buf + Zeros(if addr > cursor then addr - cursor else 0) + data, addr + |data|)
  }

  method AppendData(data: seq<Byte>, addr: nat, memData: seq<Byte>, memAddr: nat) returns (out: seq<Byte>, next: nat)
    ensures (out, next) == Appended(data, addr, memData, memAddr)
  {
    out := memData;
    if addr > memAddr {
      var i := 0;
      while i < addr - memAddr
        invariant 0 <= i <= addr - memAddr
        invariant out == memData + Zeros(i)
      {
        assert Zeros(i + 1) == Zeros(i) + [0];
        out := out + [0];
        i := i + 1;
      }
    } else {
      assert memData + Zeros(0) == memData;
    }
    out := out + data;
    next := addr + |data|;
  }

  /**
   * An image whose length matches its cursor keeps doing so when the next
   * segment does not start below the cursor: the segment's bytes sit at
   * their offset from the base, the gap before them is zero, and what was
   * placed is kept.
   */
  lemma AppendPlaces(data: seq<Byte>, addr: nat, buf: seq<Byte>, cursor: nat, base: nat)
    requires base <= cursor <= addr && |buf| == cursor - base
    ensures var (out, next) := Appended(data, addr, buf, cursor);
      |out| == next - base && next == addr + |data| &&
      out[..|buf|] == buf &&
      (forall o :: |buf| <= o < addr - base ==> out[o] == 0) &&
      (forall j :: 0 <= j < |data| ==> out[addr - base + j] == data[j])
  {
    var (out, next) := Appended(data, addr, buf, cursor);
    var z := Zeros(addr - cursor);
    assert out == buf + z + data;
    forall j | 0 <= j < |data|
      ensures out[addr - base + j] == data[j]
    {
      assert addr - base + j == |buf| + |z| + j;
    }
  }

  /**
   * A segment that starts below the cursor is not placed at its address:
   * its bytes follow those already in the image, `cursor - addr` bytes
   * above where they belong, and the image becomes longer than its new
   * cursor says.
   */
  lemma AppendBehind(data: seq<Byte>, addr: nat, buf: seq<Byte>, cursor: nat, base: nat)
    requires base <= addr < cursor && |buf| == cursor - base
    ensures var (out, next) := Appended(data, addr, buf, cursor);
      |out| == next - base + (cursor - addr) &&
      forall j :: 0 <= j < |data| ==> out[addr - base + (cursor - addr) + j] == data[j]
  {
    var (out, next) := Appended(data, addr, buf, cursor);
    assert out == buf + data;
  }

  /** A loadable segment whose address lies in the window `[lo, hi)`. */
  predicate InWindow(s: Segment, lo: nat, hi: nat)
  {
    s.ptype == Load && lo <= s.paddr < hi
  }

  /**
   * The image and cursor for the window `[lo, hi)` after the segments
   * `segs`, in file order, starting empty at `lo`; the other segments are
   * skipped.
   */
  function Pack(segs: seq<Segment>, lo: nat, hi: nat): (seq<Byte>, nat)
  {
    if segs == [] then ([], lo)
    else
      var (buf, cursor) := Pack(segs[..|segs| - 1], lo, hi);
      var s := segs[|segs| - 1];
      if InWindow(s, lo, hi) then Appended(s.data, s.paddr, buf, cursor) else (buf, cursor)
  }

  /** The end of the last segment in the window, or `lo` when there is none. */
  function Reach(segs: seq<Segment>, lo: nat, hi: nat): (r: nat)
    ensures r >= lo
  {
    if segs == [] then lo
    else
      var s := segs[|segs| - 1];
      if InWindow(s, lo, hi) then s.paddr + |s.data| else Reach(segs[..|segs| - 1], lo, hi)
  }

  /** Each segment in the window starts at or after the end of the one before it in the window. */
  predicate Ordered(segs: seq<Segment>, lo: nat, hi: nat)
  {
    segs == [] ||
    (Ordered(segs[..|segs| - 1], lo, hi) &&
     (InWindow(segs[|segs| - 1], lo, hi) ==> Reach(segs[..|segs| - 1], lo, hi) <= segs[|segs| - 1].paddr))
  }

  /** The byte the segments in the window give address `a`: that of the last one covering it, else 0. */
  function ImageByte(segs: seq<Segment>, lo: nat, hi: nat, a: nat): Byte
  {
    if segs == [] then 0
    else
      var s := segs[|segs| - 1];
      if InWindow(s, lo, hi) && s.paddr <= a < s.paddr + |s.data| then s.data[a - s.paddr]
      else ImageByte(segs[..|segs| - 1], lo, hi, a)
  }

  /** The cursor is always the end of the last segment in the window. */
  lemma {:induction false} PackCursor(segs: seq<Segment>, lo: nat, hi: nat)
    ensures Pack(segs, lo, hi).1 == Reach(segs, lo, hi)
    ensures |Pack(segs, lo, hi).0| >= Reach(segs, lo, hi) - lo
  {
    if segs != [] {
      PackCursor(segs[..|segs| - 1], lo, hi);
    }
  }

  /** Bytes of the segments in the window lie below their reach. */
  lemma {:induction false} ImageBeyondReach(segs: seq<Segment>, lo: nat, hi: nat, a: nat)
    requires Ordered(segs, lo, hi) && a >= Reach(segs, lo, hi)
    ensures ImageByte(segs, lo, hi, a) == 0
  {
    if segs != [] {
      var init := segs[..|segs| - 1];
      var s := segs[|segs| - 1];
      if !InWindow(s, lo, hi) {
        ImageBeyondReach(init, lo, hi, a);
      } else {
        assert a >= s.paddr + |s.data|;
        ImageBeyondReach(init, lo, hi, a);
      }
    }
  }

  /**
   * With the segments in the window in address order, the image is the
   * window's memory from `lo` up to the end of the last segment: every
   * byte is that of the segment covering its address, zero in the gaps.
   */
  lemma {:induction false} PackImage(segs: seq<Segment>, lo: nat, hi: nat)
    requires Ordered(segs, lo, hi)
    ensures var (buf, cursor) := Pack(segs, lo, hi);
      cursor == Reach(segs, lo, hi) && |buf| == cursor - lo &&
      forall o :: 0 <= o < |buf| ==> buf[o] == ImageByte(segs, lo, hi, lo + o)
  {
    if segs != [] {
      var init := segs[..|segs| - 1];
      var s := segs[|segs| - 1];
      PackImage(init, lo, hi);
      var (buf, cursor) := Pack(init, lo, hi);
      if InWindow(s, lo, hi) {
        AppendPlaces(s.data, s.paddr, buf, cursor, lo);
        var (out, next) := Appended(s.data, s.paddr, buf, cursor);
        forall o | 0 <= o < |out|
          ensures out[o] == ImageByte(segs, lo, hi, lo + o)
        {
          if o < |buf| {
            assert out[o] == out[..|buf|][o];
          } else if o < s.paddr - lo {
            ImageBeyondReach(init, lo, hi, lo + o);
          } else {
            assert out[s.paddr - lo + (o - (s.paddr - lo))] == s.data[o - (s.paddr - lo)];
          }
        }
      }
    }
  }

  /**
   * `prepare` without the file I/O: the two images it writes, one per
   * window, built in a single pass over the segments.
   */
  method Prepare(segs: Binary) returns (l1: seq<Byte>, l2: seq<Byte>)
    ensures l1 == Pack(segs, L1Base, L1End).0 && l2 == Pack(segs, L2Base, L2End).0
  {
    l1, l2 := [], [];
    var c1, c2 := L1Base, L2Base;
    var i := 0;
    while i < |segs|
      invariant 0 <= i <= |segs|
      invariant (l1, c1) == Pack(segs[..i], L1Base, L1End)
      invariant (l2, c2) == Pack(segs[..i], L2Base, L2End)
    {
      var s := segs[i];
      assert segs[..i + 1][..i] == segs[..i];
      if s.ptype == Load {
        var addr := s.paddr;
        if L1Base <= addr < L1End {
          l1, c1 := AppendData(s.data, addr, l1, c1);
        } else if L2Base <= addr < L2End {
          l2, c2 := AppendData(s.data, addr, l2, c2);
        }
      }
      i := i + 1;
    }
    assert segs[..i] == segs;
  }

  /** The two windows are disjoint, so a segment lands in at most one image. */
  lemma WindowsDisjoint(s: Segment)
    ensures !(InWindow(s, L1Base, L1End) && InWindow(s, L2Base, L2End))
  {
  }

  /** Segments outside a window leave its image as it was. */
  lemma {:induction false} PackSkips(segs: seq<Segment>, others: seq<Segment>, lo: nat, hi: nat)
    requires forall s :: s in others ==> !InWindow(s, lo, hi)
    ensures Pack(segs + others, lo, hi) == Pack(segs, lo, hi)
    decreases |others|
  {
    if others != [] {
      var all := segs + others;
      var init := others[..|others| - 1];
      assert all[..|all| - 1] == segs + init;
      assert all[|all| - 1] == others[|others| - 1];
      PackSkips(segs, init, lo, hi);
    } else {
      assert segs + others == segs;
    }
  }
}
