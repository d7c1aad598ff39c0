/**
 * The fuse preload encoder driven by boot options: the boot mode, an
 * optional AES key and IV and the crystal check become fuse entries
 * appended to the caller's list, and the list becomes the preload file.
 */
module EfuseOption {
  import opened Wrappers
  import opened Numerals
  import opened FuseMap

  /**
   * The boot-mode byte of a boot-mode name; `jtag_dev`, `spi_dev` and
   * unknown names give none.
   */
  function ModeByte(loadMode: string): (r: Option<nat>)
    ensures r.Some? ==> r.value < 64
    ensures r.Some? <==> loadMode in ["rom", "spi", "jtag", "hyper", "rom_spim", "rom_spim_qpi"]
  {
    ModeTable("hyper", loadMode)
  }

  /** `int(fraction * 32767)` for a fraction `num / den`: rounded toward zero. */
  function XtalDelta(num: nat, den: nat): (d: nat)
    requires den > 0
    ensures d * den <= num * 32767 < (d + 1) * den
  {
    DivMod(num * 32767, den);
    Distrib(num * 32767 / den, 1, den);
    (num * 32767) / den
  }

  /**
   * Appends the entries the options derive to `efuses`, then writes the
   * preload file for the whole list over `efuseSize` bits and returns its
   * text (None when the list is empty, as the encoder then writes no file).
   * A key without an IV raises `TypeError` before any file is written.
   */
  method GenStimuliFromOption(efuses: EntryList, efuseSize: nat, loadMode: string,
                              aesKey: Option<string>, aesIv: Option<string>, xtalCheck: bool,
                              deltaNum: nat, deltaDen: nat, xtalMin: nat, xtalMax: nat)
    returns (r: Result<Option<string>, Error>)
    requires deltaDen > 0
    modifies efuses
    ensures var d := Derive(ModeByte(loadMode), aesKey, aesIv, xtalCheck, XtalDelta(deltaNum, deltaDen), xtalMin, xtalMax);
      efuses.items == old(efuses.items) + d.entries &&
      r == (if d.raised.Some? then Err(d.raised.value) else Preload(efuses.items, efuseSize, false))
  {
    var delta := XtalDelta(deltaNum, deltaDen);
    var raised := AppendDerived(efuses, ModeByte(loadMode), aesKey, aesIv, xtalCheck, delta, xtalMin, xtalMax);
    if raised.Some? {
      return Err(raised.value);
    }
    r := WritePreload(efuses.items, efuseSize, false);
  }

  /** The default fraction 0.1 gives 3276, burnt as 0xcc in entry 26 and 0xc in entry 27. */
  lemma DefaultDelta()
    ensures XtalDelta(1, 10) == 3276
    ensures XtalDelta(1, 10) % 256 == 0xcc && (XtalDelta(1, 10) / 256) % 256 == 0x0c
  {
  }

  /** `10` has bits 1 and 3 set among the eight that are burnt. */
  lemma TenBits(k: nat)
    requires k < 8
    ensures Bit(10, k) <==> k == 1 || k == 3
  {
    assert Pow(2, 0) == 1 && Pow(2, 1) == 2 && Pow(2, 2) == 4 && Pow(2, 3) == 8;
    assert Pow(2, 4) == 16 && Pow(2, 5) == 32 && Pow(2, 6) == 64 && Pow(2, 7) == 128;
  }

  /**
   * SPI boot with nothing else: the only entry is `0:10`, and the file
   * sets exactly bits 128 and 384 of a fresh list.
   */
  lemma SpiBoot(size: nat)
    requires size > 384
    ensures var d := Derive(ModeByte("spi"), None, None, false, 0, 0, 0);
      d == Derived([ModeEntry(10)], None) &&
      var r := Preload(d.entries, size, false);
      r.Ok? && r.value.Some? && ReadTokens(r.value.value) == Some(seq(size, p => p == 128 || p == 384))
  {
    SpiDerived();
    SpiEntry(size);
    PreloadOne(ModeEntry(10), size, false);
    SpiHits(size);
  }

  lemma SpiDerived()
    ensures Derive(ModeByte("spi"), None, None, false, 0, 0, 0) == Derived([ModeEntry(10)], None)
  {
  }

  lemma SpiHits(size: nat)
    requires size > 384
    ensures seq(size, p requires 0 <= p < size => EntryHits(ModeEntry(10), false, p)) == seq(size, p => p == 128 || p == 384)
  {
    SpiEntry(size);
  }

  /** The entry `0:10` parses, fits above bit 384, and sets bits 128 and 384 only. */
  lemma SpiEntry(size: nat)
    requires size > 384
    ensures EntryOk(ModeEntry(10), false, size)
    ensures forall p: nat :: EntryHits(ModeEntry(10), false, p) <==> p == 128 || p == 384
  {
    ParseDecEntry(0, 10, false);
    forall p: nat
      ensures Hits(0, 10, p, 0) <==> p == 128 || p == 384
    {
      if p % 128 == 0 && p / 128 < 8 {
        TenBits(p / 128);
      }
    }
    forall k | 0 <= k < 8 && Bit(10, k)
      ensures 128 * k < size
    {
      TenBits(k);
    }
  }

  /**
   * The crystal check burns delta's low and high byte and the bounds into
   * entries 26 to 29 and sets bit 7 of the boot-mode byte, which is burnt
   * last, into entry 0, whether or not the mode gave a byte.
   */
  lemma XtalBoot(loadMode: string, delta: nat, xmin: nat, xmax: nat)
    ensures var d := Derive(ModeByte(loadMode), None, None, true, delta, xmin, xmax);
      d.raised.None? && |d.entries| == 5 &&
      ParseEntry(d.entries[0], false) == Ok((26, delta % 256)) &&
      ParseEntry(d.entries[1], false) == Ok((27, (delta / 256) % 256)) &&
      ParseEntry(d.entries[2], false) == Ok((28, xmin)) &&
      ParseEntry(d.entries[3], false) == Ok((29, xmax)) &&
      ParseEntry(d.entries[4], false).Ok? && ParseEntry(d.entries[4], false).value.0 == 0 &&
      Bit(ParseEntry(d.entries[4], false).value.1, 7)
  {
    var d := Derive(ModeByte(loadMode), None, None, true, delta, xmin, xmax);
    var m := XtalMode(ModeByte(loadMode), true).value;
    assert d.entries == XtalEntries(delta, xmin, xmax) + [ModeEntry(m)];
    XtalEntriesRead(delta, xmin, xmax);
    ParseDecEntry(0, m, false);
  }

  /**
   * With a boot mode, a 32-digit key and a 16-digit IV, entries 2 to 17
   * burn the key's bytes and 18 to 25 the IV's, low byte first, and the
   * boot-mode byte, last, carries bit 6.
   */
  lemma AesBoot(loadMode: string, key: string, iv: string)
    requires ModeByte(loadMode).Some?
    requires |key| == 32 && AllDigits(key, 16) && |iv| == 16 && AllDigits(iv, 16)
    ensures var d := Derive(ModeByte(loadMode), Some(key), Some(iv), false, 0, 0, 0);
      d.raised.None? && |d.entries| == 25 &&
      (forall i :: 0 <= i < 16 ==> ParseEntry(d.entries[i], false) == Ok((2 + i, (Value(key, 16) / Pow(256, i)) % 256))) &&
      (forall i :: 0 <= i < 8 ==> ParseEntry(d.entries[16 + i], false) == Ok((18 + i, (Value(iv, 16) / Pow(256, i)) % 256))) &&
      ParseEntry(d.entries[24], false) == Ok((0, SetBit(ModeByte(loadMode).value, 6)))
  {
    var d := Derive(ModeByte(loadMode), Some(key), Some(iv), false, 0, 0, 0);
    var m := ModeByte(loadMode).value;
    assert d.entries == KeyEntries(key) + IvEntries(iv) + [ModeEntry(SetBit(m, 6))];
    forall i | 0 <= i < 16
      ensures ParseEntry(d.entries[i], false) == Ok((2 + i, (Value(key, 16) / Pow(256, i)) % 256))
    {
      assert d.entries[i] == KeyEntry(key, i);
      KeyEntryByte(key, i);
    }
    forall i | 0 <= i < 8
      ensures ParseEntry(d.entries[16 + i], false) == Ok((18 + i, (Value(iv, 16) / Pow(256, i)) % 256))
    {
      assert d.entries[16 + i] == IvEntry(iv, i);
      IvEntryByte(iv, i);
    }
    ParseDecEntry(0, SetBit(m, 6), false);
  }

  /** A key without an IV stops after the sixteen key entries, before the mode entry. */
  lemma KeyWithoutIv(loadMode: string, key: string)
    requires ModeByte(loadMode).Some?
    ensures var d := Derive(ModeByte(loadMode), Some(key), None, false, 0, 0, 0);
      d.raised == Some(TypeError) && d.entries == KeyEntries(key)
  {
  }
}
