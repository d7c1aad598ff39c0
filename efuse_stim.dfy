/**
 * The fuse preload generator of the stimulus tools: the configured fuse
 * list, extended for the `gap` chip with the entries its boot options
 * derive, becomes the preload file of `nb_regs * 8` bits.
 */
module EfuseStim {
  import opened Wrappers
  import opened Numerals
  import opened FuseMap
  import EfuseOption

  /** The configuration keys the generator reads. */
  datatype EfuseConfig = EfuseConfig(
    nbRegs: Option<nat>,      // efuse/nb_regs
    chip: string,             // chip/name
    bootMode: string,         // runner/boot-mode
    aesKey: Option<string>,   // efuse/aes_key
    aesIv: Option<string>,    // efuse/aes_iv
    xtalCheck: bool,          // efuse/xtal_check
    xtalDelta: bool,          // efuse/xtal_check_delta, read as a boolean
    xtalMin: bool,            // efuse/xtal_check_min, read as a boolean
    xtalMax: bool)            // efuse/xtal_check_max, read as a boolean

  /**
   * The boot-mode table of this generator: the option encoder's, with
   * `rom_hyper` where that one has `hyper`.
   */
  function GapModeByte(loadMode: string): (r: Option<nat>)
    ensures r.Some? ==> r.value < 64
    ensures r.Some? <==> loadMode in ["rom", "spi", "jtag", "rom_hyper", "rom_spim", "rom_spim_qpi"]
  {
    ModeTable("rom_hyper", loadMode)
  }

  /** A boolean used as a number: `True * 32767 == 32767`, `'0x%x' % True == '0x1'`. */
  function BoolInt(b: bool): nat { if b then 1 else 0 }

  /** The entries the `gap` options derive. */
  function GapDerived(cfg: EfuseConfig): Derived
  {
    Derive(GapModeByte(cfg.bootMode), cfg.aesKey, cfg.aesIv, cfg.xtalCheck,
           32767 * BoolInt(cfg.xtalDelta), BoolInt(cfg.xtalMin), BoolInt(cfg.xtalMax))
  }

  /** The entries the generator appends to the list for `cfg`. */
  function Appended(cfg: EfuseConfig): seq<string>
  {
    if cfg.chip == "gap" then GapDerived(cfg).entries else []
  }

  /** The exception deriving the `gap` entries raised, if any. */
  function Raised(cfg: EfuseConfig): Option<Error>
  {
    if cfg.chip == "gap" then GapDerived(cfg).raised else None
  }

  /**
   * The tail of the generator once the list is `items`: a raised exception
   * propagates, an empty list writes nothing, a missing `nb_regs` is a
   * `TypeError`, and otherwise the file covers `nb_regs * 8` bits.
   */
  function Outcome(items: seq<string>, nbRegs: Option<nat>, raised: Option<Error>, dumpInts: bool): Result<Option<string>, Error>
  {
    if raised.Some? then Err(raised.value)
    else if |items| == 0 then Ok(None)
    else if nbRegs.None? then Err(TypeError)
    else Preload(items, nbRegs.value * 8, dumpInts)
  }

  /**
   * The outcome for the configuration `cfg` and the configured list
   * `base`: the exception raised while deriving, else the file for the
   * extended list, over `nb_regs * 8` bits (`TypeError` when `nb_regs` is
   * missing and there is something to write). `dumpInts` says whether the
   * debug line's `int(...)` calls are evaluated.
   */
  function TxtResult(cfg: EfuseConfig, base: seq<string>, dumpInts: bool): Result<Option<string>, Error>
  {
    Outcome(base + Appended(cfg), cfg.nbRegs, Raised(cfg), dumpInts)
  }

  /**
   * The generator as written: `values` is the configured list (null when
   * there is none, and then a fresh empty list is used), extended in
   * place; the debug line's `int(...)` calls are always evaluated.
   */
  method GenStimTxt(cfg: EfuseConfig, values: EntryList?) returns (r: Result<Option<string>, Error>, efuses: EntryList)
    modifies values
    ensures values != null ==> efuses == values
    ensures values == null ==> fresh(efuses)
    ensures var base := if values == null then [] else old(values.items);
      efuses.items == base + Appended(cfg) && r == TxtResult(cfg, base, true)
  {
    if values == null {
      efuses := new EntryList([]);
    } else {
      efuses := values;
    }
    ghost var base := efuses.items;
    var raised: Option<Error> := None;
    if cfg.chip == "gap" {
      raised := AppendDerived(efuses, GapModeByte(cfg.bootMode), cfg.aesKey, cfg.aesIv, cfg.xtalCheck,
                              32767 * BoolInt(cfg.xtalDelta), BoolInt(cfg.xtalMin), BoolInt(cfg.xtalMax));
    } else {
      assert base + [] == base;
    }
    r := Finish(efuses.items, cfg.nbRegs, raised);
  }

  /** The generator's checks after the appends, in its order. */
  method Finish(items: seq<string>, nbRegs: Option<nat>, raised: Option<Error>) returns (r: Result<Option<string>, Error>)
    ensures r == Outcome(items, nbRegs, raised, true)
  {
    if raised.Some? {
      return Err(raised.value);
    }
    if |items| == 0 {
      return Ok(None);
    }
    if nbRegs.None? {
      return Err(TypeError);
    }
    r := WritePreload(items, nbRegs.value * 8, true);
  }

  /**
   * As written, turning the crystal check on for `gap` always fails: its
   * entries are written `26:0x..`, and the debug line's `int(value)`
   * rejects a hexadecimal literal, whatever else is configured.
   */
  lemma XtalCheckRaises(cfg: EfuseConfig, base: seq<string>)
    requires cfg.chip == "gap" && cfg.xtalCheck && cfg.nbRegs.Some?
    ensures TxtResult(cfg, base, true).Err?
    ensures base == [] ==> TxtResult(cfg, base, true).error == (if GapDerived(cfg).raised.Some? then TypeError else ValueError)
  {
    var d := GapDerived(cfg);
    if d.raised.None? {
      var items := base + d.entries;
      var x := XtalEntries(32767 * BoolInt(cfg.xtalDelta), BoolInt(cfg.xtalMin), BoolInt(cfg.xtalMax))[0];
      assert items[|base|] == x;
      assert ParseEntry(x, true).Err? by {
        XtalEntriesRead(32767 * BoolInt(cfg.xtalDelta), BoolInt(cfg.xtalMin), BoolInt(cfg.xtalMax));
      }
      assert !EntryOk(x, true, cfg.nbRegs.value * 8);
      PreloadSpec(items, cfg.nbRegs.value * 8, true);
      if base == [] {
        assert items[0] == x;
      }
    }
  }

  /**
   * With the dump evaluated, an entry of the list written `0x...` makes
   * the generator raise, whatever the chip.
   */
  lemma HexEntryRaises(cfg: EfuseConfig, base: seq<string>, index: nat, t: string)
    requires Entry(index, "0x" + t) in base + Appended(cfg)
    ensures TxtResult(cfg, base, true).Err?
  {
    if Raised(cfg).None? && cfg.nbRegs.Some? {
      HexDumpFails(index, t);
      PreloadSpec(base + Appended(cfg), cfg.nbRegs.value * 8, true);
    }
  }

  /**
   * On `gap`, with the dump evaluated, an AES key makes the generator
   * raise whenever a mode byte reaches the key entries: they are written
   * `0x...`.
   */
  lemma AesKeyRaises(cfg: EfuseConfig, base: seq<string>)
    requires cfg.chip == "gap" && cfg.aesKey.Some? && (cfg.xtalCheck || GapModeByte(cfg.bootMode).Some?)
    ensures TxtResult(cfg, base, true).Err?
  {
    KeyDerived(GapModeByte(cfg.bootMode), cfg.aesKey.value, cfg.aesIv, cfg.xtalCheck,
               32767 * BoolInt(cfg.xtalDelta), BoolInt(cfg.xtalMin), BoolInt(cfg.xtalMax));
    HexEntryRaises(cfg, base, 2, Slice(cfg.aesKey.value, 30, 32));
  }

  /**
   * The generator as evidently intended, with the values parsed by
   * `int(..., 0)` alone: the crystal entries are burnt. Starting from an
   * empty list, without a key, with the crystal check on and room for
   * bit 7 of entry 29, the file is written; it carries the crystal flag
   * (bit 7 of entry 0, position 896) and the low bit of entries 26, 28
   * and 29 for each of the delta, min and max options that is on.
   */
  lemma IntendedXtalBits(cfg: EfuseConfig)
    requires cfg.chip == "gap" && cfg.aesKey.None? && cfg.xtalCheck
    requires cfg.nbRegs.Some? && cfg.nbRegs.value * 8 > 925
    ensures var r := TxtResult(cfg, [], false);
      r.Ok? && r.value.Some? &&
      var bits := ReadTokens(r.value.value);
      bits.Some? && |bits.value| == cfg.nbRegs.value * 8 && bits.value[896] &&
      (cfg.xtalDelta ==> bits.value[26]) && (cfg.xtalMin ==> bits.value[28]) && (cfg.xtalMax ==> bits.value[29])
  {
    var dv, mn, mx := 32767 * BoolInt(cfg.xtalDelta), BoolInt(cfg.xtalMin), BoolInt(cfg.xtalMax);
    IntendedList(cfg);
    LowBitsOn();
    assert cfg.xtalDelta ==> dv % 256 == 32767 % 256;
    XtalBurnt(dv, mn, mx, XtalMode(GapModeByte(cfg.bootMode), true).value, cfg.nbRegs.value * 8);
  }

  /** Without a key and with the crystal check on, the list is the crystal entries and the mode entry. */
  lemma IntendedList(cfg: EfuseConfig)
    requires cfg.chip == "gap" && cfg.aesKey.None? && cfg.xtalCheck && cfg.nbRegs.Some?
    ensures XtalMode(GapModeByte(cfg.bootMode), true).Some?
    ensures TxtResult(cfg, [], false) ==
      Preload(XtalEntries(32767 * BoolInt(cfg.xtalDelta), BoolInt(cfg.xtalMin), BoolInt(cfg.xtalMax)) +
              [ModeEntry(XtalMode(GapModeByte(cfg.bootMode), true).value)], cfg.nbRegs.value * 8, false)
  {
    XtalNoKey(GapModeByte(cfg.bootMode), cfg.aesIv, 32767 * BoolInt(cfg.xtalDelta), BoolInt(cfg.xtalMin), BoolInt(cfg.xtalMax));
    EmptyPrefix(Appended(cfg));
  }

  /** With the crystal check on and no key, the derived list is the crystal entries and the mode entry. */
  lemma XtalNoKey(mode: Option<nat>, aesIv: Option<string>, delta: nat, xmin: nat, xmax: nat)
    ensures XtalMode(mode, true).Some?
    ensures Derive(mode, None, aesIv, true, delta, xmin, xmax) ==
      Derived(XtalEntries(delta, xmin, xmax) + [ModeEntry(XtalMode(mode, true).value)], None)
  {
  }

  lemma EmptyPrefix(s: seq<string>)
    ensures [] + s == s
  {
  }

  /** The low bit of a `True` option, and of the low byte of `True * 32767`. */
  lemma LowBitsOn()
    ensures Bit(BoolInt(true), 0) && Bit(32767 % 256, 0)
  {
    assert Pow(2, 0) == 1;
  }

  /**
   * Parsed as intended, this generator and the option encoder write the
   * same file for the same list and options, wherever the two boot-mode
   * tables agree (everywhere but `hyper` and `rom_hyper`).
   */
  lemma EncodersAgree(cfg: EfuseConfig, base: seq<string>)
    requires cfg.chip == "gap" && cfg.nbRegs.Some?
    requires cfg.bootMode != "hyper" && cfg.bootMode != "rom_hyper"
    ensures var d := Derive(EfuseOption.ModeByte(cfg.bootMode), cfg.aesKey, cfg.aesIv, cfg.xtalCheck,
                            32767 * BoolInt(cfg.xtalDelta), BoolInt(cfg.xtalMin), BoolInt(cfg.xtalMax));
      TxtResult(cfg, base, false) ==
        if d.raised.Some? then Err(d.raised.value) else Preload(base + d.entries, cfg.nbRegs.value * 8, false)
  {
    ModeTableRename("rom_hyper", "hyper", cfg.bootMode);
    var items := base + Appended(cfg);
    if |items| == 0 {
      assert Preload(items, cfg.nbRegs.value * 8, false) == Ok(None);
    }
  }
}
