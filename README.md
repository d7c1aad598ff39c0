# Stimulus and fuse-preload generators of the PULP runner, in Dafny

This project models the parts of the PULP platform runner that turn
program images and boot options into the files a simulator preloads.
Everything the runner reads from disk or from its configuration is passed
in as a value, and every file it writes is returned as a value.

- **The stimulus generator** (`stim` in `python/runner/stim_utils.py`) is
  the class `Stimuli.Stim`. It keeps a list of binaries, a list of address
  areas and a sparse memory image. `__parse_binaries` rebuilds the image:
  it merges the loadable segments of each binary, in order, one
  word-sized chunk at a time. `gen_stim_slm_64` writes the image as
  `ADDR_VALUE` lines. `gen_stim_bin` writes it as a dense byte stream.
  Each class method is a Dafny method that updates the class's fields.
  The methods are proved against functions:
  - `MemImage.WriteWord` and `MemImage.MemWrite` (one chunk, one range);
  - `Stimuli.BuildImage` (the whole image);
  - `Stimuli.SlmText` and `Stimuli.BinStream` (the two outputs).
  The lemmas about those functions state what the image holds, byte by
  byte, and what the output files read back as.
- **The fuse preload encoders** are `efuse_genStimuli_fromOption` in
  `python/efuse.py` and `Efuse.gen_stim_txt` in
  `python/runner/stim_utils.py`. They share one model, `FuseMap`.
  - The caller's entry list is the class `FuseMap.EntryList`. The encoders
    append to it in place.
  - The entries the boot options derive are `FuseMap.Derive`.
  - Each entry `"<index>:<value>"` is parsed. Bit `k` of its value is burnt
    at position `index + 128*k` of a cleared bit array. The burning loop
    works on an `array<bool>`.
  - The array is written out as `"0 "`/`"1 "` tokens.
  - The two encoders are `EfuseOption.GenStimuliFromOption` and
    `EfuseStim.GenStimTxt`.
- **The HSA image builder** (`append_data` and `prepare` in
  `python/plp_hsa_runner.py`) is module `Hsa`. It packs loadable segments
  into one image for L1 and one for L2.
- **The flash stimulus writer** (`genFlashStimuli` in
  `python/plp_rtl_runner.py`) is module `Flash`. It writes one
  `@AAAAAAAA VV` line per byte of a flash image.

Conventions:
- A byte is `LittleEndian.Byte`, a `nat` below 256.
- Words are sequences of bytes, least significant first, as
  `int.from_bytes(..., 'little')` reads them.
- Bitwise `|` and `&` on bytes (`MemImage.Or`, `MemImage.And`) are defined
  bit by bit.
- Python's `sorted` on the image's string keys is
  `DecOrder.DecSort`. It is the code-point order of the decimal strings.
- Python exceptions are the values of `FuseMap.Error`.

Three behaviours of the code are easy to misread. The model follows the
code in each:
1. **The clear mask.** `__add_mem_word` clears with
   `~(((1<<width) - 1) << (shift*8))`. That mask covers the low `width`
   bits of byte `shift`, not `width` bytes. Only for width 8 does it clear
   a whole byte. Other bytes of a chunk are OR-ed into what was there
   (`MemImage.RewriteOrsInWidthOne`, `MemImage.RewriteOrsInWidthEight`).
   Merging over bytes that read 0 is unaffected. So when the loaded
   segments claim disjoint bytes, each byte of the image is that of the
   segment covering it, whatever the merge order
   (`Stimuli.PlacedBytes`, `Stimuli.MergeOrderFree`).
2. **Key order.** The image is keyed by `str(address)`, so both writers
   visit addresses in string order, where 10 comes before 9
   (`DecOrder.TenBeforeNine`). For `gen_stim_bin` this means the
   gap-filling loop never ends when a key is visited below the previous
   one. `Stimuli.BinStream` is `None` there (`Stimuli.BinStreamNineTen`).
3. **The crystal delta.** `int(fraction * 32767)` rounds toward zero, so
   the default 0.1 gives 3276, not 3277 (`EfuseOption.DefaultDelta`).

## Model

| member | source | states |
|---|---|---|
| Stimuli.Stim.constructor | python/runner/stim_utils.py:31-35 | a new generator has no binaries, no areas and an empty image |
| Stimuli.Stim.AddBinary | python/runner/stim_utils.py:43-45 | the binary is appended to the list; areas and image are unchanged |
| Stimuli.Stim.AddArea | python/runner/stim_utils.py:47-49 | the area `[start, start + size)` is appended; binaries and image are unchanged |
| Stimuli.Stim.AddMemWord | python/runner/stim_utils.py:52-70 | returns the chunk size (1 to `size`, staying inside the word of `base`); the image becomes the first chunk merged into its aligned word |
| Stimuli.Stim.AddMem | python/runner/stim_utils.py:76-84 | the chunk loop leaves the image equal to `MemWrite` of the whole range over the old image |
| Stimuli.Stim.Loads | python/runner/stim_utils.py:117-123 | the segment loads iff no area is set or some area holds all its file bytes |
| Stimuli.Stim.AddSegment | python/runner/stim_utils.py:111-139 | the image becomes the old one with this segment's merges applied: its file bytes, then zeros up to `p_memsz`; a bypassed or non-loadable segment changes nothing |
| Stimuli.Stim.AddLoaded | python/runner/stim_utils.py:125-135 | a segment that passed the filters merges its file bytes, then its zeroed tail when `p_filesz < p_memsz` |
| Stimuli.Stim.AddWithTail | python/runner/stim_utils.py:129-135 | the file bytes then the `p_memsz - p_filesz` zeros after them are merged |
| Stimuli.Stim.AddSegments | python/runner/stim_utils.py:109-139 | the segments of one binary are merged in file order |
| Stimuli.Stim.ParseBinaries | python/runner/stim_utils.py:100-139 | the image is rebuilt from empty: it equals `BuildImage` of the binaries, in the order they were added, under the areas |
| Stimuli.Stim.GenStimSlm | python/runner/stim_utils.py:87-98 | the text is one `%X_%0*X` line per word, in `sorted` order of the string keys |
| Stimuli.Stim.GenStimSlm64 | python/runner/stim_utils.py:144-148 | the image is rebuilt at width 8 and written as that text |
| Stimuli.Stim.BinBytes | python/runner/stim_utils.py:160-170 | the loop's output is `BinStream` of the image: the bytes from the first to the last key with zeros in the gaps, or no output where the gap loop would not end |
| Stimuli.Stim.GenStimBin | python/runner/stim_utils.py:151-170 | the image is rebuilt at width 1 and written as that stream |
| Stimuli.Zeros | python/runner/stim_utils.py:135 | `[0] * size` has `size` bytes, all 0 |
| Stimuli.ApplyConcat | python/runner/stim_utils.py:104-135 | applying two runs of merges is applying the first and then the second |
| Stimuli.ApplyValid | python/runner/stim_utils.py:104-135 | any run of merges keeps the image invariant (aligned keys, values below `2^(8*width)`) |
| Stimuli.ImageValid | python/runner/stim_utils.py:100-135 | every image the generator builds satisfies the invariant |
| Stimuli.OneSegmentImage | python/runner/stim_utils.py:111-135 | a single loaded segment over an empty image leaves its file bytes at their addresses and 0 at every other address, including its zeroed tail |
| Stimuli.SegmentOverZero | python/runner/stim_utils.py:125-135 | merging one loaded segment over a byte that reads 0 leaves the segment's byte there: a file byte, or 0 in its tail and beyond |
| Stimuli.SegmentOutside | python/runner/stim_utils.py:117-135 | a bypassed segment, or one whose bytes and tail do not cover the address, leaves that byte as it was |
| Stimuli.AllWritesFlat | python/runner/stim_utils.py:104-135 | the merges of all binaries are those of their segments, one binary after another, each in file order |
| Stimuli.SegmentsByteCovering | python/runner/stim_utils.py:111-135 | among segments whose claimed bytes are disjoint, the byte the merges leave is that of the one segment covering the address |
| Stimuli.SegmentsImage | python/runner/stim_utils.py:104-135 | merging disjoint segments one after another leaves at every address the byte of the last segment covering it, or 0 |
| Stimuli.PlacedBytes | python/runner/stim_utils.py:100-135 | when the loaded segments claim disjoint bytes, every byte a segment covers is that segment's (a file byte, or 0 in its tail), also in a word other segments wrote |
| Stimuli.UnplacedBytes | python/runner/stim_utils.py:100-135 | under the same condition, a byte no loaded segment covers reads 0 |
| Stimuli.MergeOrderFree | python/runner/stim_utils.py:104-135 | binaries holding the same disjoint segments build images with the same bytes, whatever order they are merged in |
| Stimuli.TwoSegments | python/runner/stim_utils.py:109-135 | two segments of one binary, one after the other: the file bytes of both survive, also where they share a word |
| Stimuli.SlmFieldReads | python/runner/stim_utils.py:98 | a line's address field reads back as the address, and its value field as the stored word |
| Stimuli.SlmParse | python/runner/stim_utils.py:97-98 | lines for any list of addresses parse back as those addresses and their words, in order |
| Stimuli.SlmRoundTrip | python/runner/stim_utils.py:97-98 | the SLM text parses back as one `(address, word)` pair per image word, in visiting order, with the stored value |
| Stimuli.SlmOneLinePerWord | python/runner/stim_utils.py:97 | the visiting order lists exactly the image's words, each once |
| Stimuli.SlmValueWidth | python/runner/stim_utils.py:98 | in a valid image every value field is exactly `2*width` digits wide |
| Stimuli.BinStreamShape | python/runner/stim_utils.py:160-170 | a stream that exists runs from the first visited key to the last, and every key lies between them |
| Stimuli.BinStreamContents | python/runner/stim_utils.py:160-170 | at width 1 the stream has `last - first + 1` bytes and byte `j` is the word at `first + j`, or 0 where there is none |
| Stimuli.FillContents | python/runner/stim_utils.py:165-170 | in a byte image the filled stream holds each word's value at its offset and 0 elsewhere |
| Stimuli.BinStreamSameLength | python/runner/stim_utils.py:162-167 | when all addresses have decimal forms of one length, the stream exists |
| Stimuli.BinStreamNineTen | python/runner/stim_utils.py:162-167 | with words at 9 and 10 the gap loop starts at 10, goes to 9 and never ends: no stream |
| MemImage.Align | python/runner/stim_utils.py:54 | the aligned address (`base` less its remainder modulo `width`, the mask of the `AlignMask` lemmas) is a word boundary at or below `base`, less than `width` below it |
| MemImage.AlignMaskEight | python/runner/stim_utils.py:54 | for width 8, `base & ~7` on a 64-bit address is `base` less its remainder modulo 8, which is what `Align` computes |
| MemImage.AlignMaskFour | python/runner/stim_utils.py:54 | for width 4, `base & ~3` is `base` less its remainder modulo 4 |
| MemImage.AlignMaskTwo | python/runner/stim_utils.py:54 | for width 2, `base & ~1` is `base` less its remainder modulo 2 |
| MemImage.AlignedWord | python/runner/stim_utils.py:54 | a boundary `k` is the aligned start of exactly the addresses `k` to `k + width - 1` |
| MemImage.Chunk | python/runner/stim_utils.py:56-59 | `iter_size` is between 1 and both `width` and `size`, stays inside the word of `base`, and when it does not finish the range the next chunk starts on a boundary |
| MemImage.ChunkSizes | python/runner/stim_utils.py:78-84 | the chunks the loop goes through are each 1 to `width` bytes and add up to `size` |
| MemImage.ClearMaskIsShifted | python/runner/stim_utils.py:65 | the byte mask the model uses is the complement of `(1 << width) - 1`, taken on one byte |
| MemImage.WriteWordValid | python/runner/stim_utils.py:61-68 | a chunk write keeps keys aligned and values below `2^(8*width)` |
| MemImage.MemWriteValid | python/runner/stim_utils.py:76-84 | merging a whole range keeps the invariant |
| MemImage.WriteWordBytes | python/runner/stim_utils.py:61-68 | one chunk write changes each byte of its chunk as clear-then-OR (first byte) or OR (later bytes) and leaves every other byte |
| MemImage.MemWriteBytes | python/runner/stim_utils.py:76-84 | merging a range changes every byte as `Merge` says: in range, the byte at the start or on a boundary is clear-then-OR and the others OR; out of range, kept |
| MemImage.MemWriteKeys | python/runner/stim_utils.py:76-84 | merging a range creates exactly the words it touches and keeps the others |
| MemImage.MemWriteIdempotent | python/runner/stim_utils.py:76-84 | merging the same bytes at the same address twice gives the image a single merge gives |
| MemImage.WriteWordFresh | python/runner/stim_utils.py:61-66 | writing into a word not yet in the image puts the chunk's bytes at their offsets and 0 in the rest of the word |
| MemImage.MemWriteOverZeros | python/runner/stim_utils.py:76-84 | a byte that read 0 reads exactly the merged data byte afterwards |
| MemImage.RewriteOverFresh | python/runner/stim_utils.py:65-66 | two merges over a fresh range leave `d1` masked and OR-ed with `d2` at a chunk start, and `d1` OR-ed with `d2` elsewhere, not `d2` |
| MemImage.RewriteOrsInWidthEight | python/runner/stim_utils.py:65-66 | at width 8, writing 0x01 and then 0x02 to byte 1 of a fresh word leaves 0x03 |
| MemImage.RewriteOrsInWidthOne | python/runner/stim_utils.py:65-66 | at width 1, writing 0x10 and then 0x01 to a fresh byte leaves 0x11: only bit 0 is cleared |
| LittleEndian.ToFromLE | python/runner/stim_utils.py:66 | packing bytes little-endian and unpacking gives the same bytes |
| LittleEndian.FromToLE | python/runner/stim_utils.py:66 | unpacking the `n` low bytes of a number below `256^n` gives the number |
| LittleEndian.FromLEBound | python/runner/stim_utils.py:66 | `n` bytes hold a number below `256^n` |
| DecOrder.KeyOrder | python/runner/stim_utils.py:97 | the string order of `str(address)` is irreflexive, transitive and total on distinct addresses |
| DecOrder.SameLengthNumeric | python/runner/stim_utils.py:97 | between addresses with decimal forms of one length, the string order is the numeric order |
| DecOrder.TenBeforeNine | python/runner/stim_utils.py:97 | `"10"` sorts before `"9"` |
| DecOrder.DecSortKeys | python/runner/stim_utils.py:97 | `sorted` lists exactly the keys of the set |
| DecOrder.DecSortSorted | python/runner/stim_utils.py:97 | `sorted` lists its keys in strictly increasing string order |
| DecOrder.SortedUnique | python/runner/stim_utils.py:97 | any strictly sorted list of exactly the set's keys is `sorted` of the set |
| DecOrder.SortKeys | python/runner/stim_utils.py:162 | the selection loop computes `sorted` of the key set |
| DecOrder.SortNineTen | python/runner/stim_utils.py:162 | `sorted` visits the keys 9 and 10 as 10, 9 |
| Numerals.Numeral | python/runner/stim_utils.py:98 | `%X` / `%x` / `%d` give a digit string that reads back as the number and starts with 0 only for 0 |
| Numerals.ValuePadded | python/runner/stim_utils.py:98 | zero padding keeps the number a rendering denotes |
| Numerals.HexPadLength | python/runner/stim_utils.py:98 | a number below `16^digits` padded to `digits` characters takes exactly that many |
| Numerals.ParseRender | python/plp_rtl_runner.py:306 | a text of `<lead><hex><sep><hex>` lines parses back as the numbers its lines denote |
| Numerals.ParseInt0 | python/efuse.py:49-50 | `int(s, 0)` gives the value of a `0x` literal's digits, or of a decimal literal's digits |
| Numerals.ParseDec | python/efuse.py:40-50 | `str(n)` read back by `int(..., 0)` is `n` |
| Numerals.ParseHexLiteral | python/efuse.py:27-50 | `'0x' + digits` read back by `int(..., 0)` is the digits' value |
| FuseMap.EntryList.Append | python/efuse.py:27 | `efuses.append(e)` adds `e` at the end of the caller's list |
| FuseMap.SplitEntry | python/efuse.py:48 | an entry splits into two colon-free sides joined by its only `:` |
| FuseMap.SplitJoin | python/efuse.py:48 | splitting undoes joining two colon-free sides with `:` |
| FuseMap.ParseEntry | python/runner/stim_utils.py:250-253 | parsing an entry fails only with `ValueError` |
| FuseMap.ParseHexEntry | python/runner/stim_utils.py:250-253 | an entry written `'%d:0x%x'` parses as its index and value, but the base-10 `int(value)` of the debug line rejects it |
| FuseMap.ParseDecEntry | python/efuse.py:40-50 | an entry written `'%d:%s' % (i, str(v))` parses as `(i, v)`, debug line or not |
| FuseMap.SetBitsSpec | python/efuse.py:51-52 | burning one value succeeds iff every set bit lands inside the array, and then sets exactly its positions `id + 128*k`, keeping every bit already set |
| FuseMap.BurnEntry | python/efuse.py:51-52 | the array loop burns the bits of one value, as `SetBits` says, or reports the `IndexError` |
| FuseMap.BurnSpec | python/efuse.py:47-52 | burning a list succeeds iff every entry parses and fits; then bit `p` is set iff it was set before or some entry sets it |
| FuseMap.BurnOrderFree | python/efuse.py:47-52 | the burnt array depends only on the set of entries, not on their order or repeats |
| FuseMap.BurnValues | python/efuse.py:46-52 | the entry loop over a cleared array of `size` bits computes `Burn`, stopping at the first exception |
| FuseMap.Cleared | python/efuse.py:46 | `[0] * size` has `size` bits, none set |
| FuseMap.WriteTokens | python/efuse.py:55-56 | the write loop emits one `'%d '` token per bit |
| FuseMap.TokensShape | python/efuse.py:55-56 | the text is two characters per bit: its digit, then a space |
| FuseMap.ReadTokensBack | python/efuse.py:55-56 | the tokens read back as the bit array |
| FuseMap.WritePreload | python/efuse.py:44-62 | no file for an empty list; otherwise the burn's exception or the text of the burnt array |
| FuseMap.PreloadSpec | python/efuse.py:44-62 | a non-empty list gives a file iff every entry parses and fits; the file reads back as `size` bits, bit `p` set iff some entry sets it |
| FuseMap.PreloadOne | python/efuse.py:44-56 | a single fitting entry gives a file holding exactly the bits it sets |
| FuseMap.SetBit | python/efuse.py:25 | OR-ing `1 << k` into the mode byte leaves bit `k` set |
| FuseMap.Slice | python/efuse.py:36 | a slice inside the string is the substring; outside it Python clamps the ends |
| FuseMap.XtalEntriesRead | python/efuse.py:27-30 | the crystal entries parse as (26, delta's low byte), (27, its high byte), (28, min), (29, max), and each fails the base-10 read |
| FuseMap.HexDumpFails | python/runner/stim_utils.py:251 | with the debug line evaluated, any entry whose value is written `0x...` fails with `ValueError` |
| FuseMap.KeyDerived | python/efuse.py:32-36 | once a mode byte reaches them, options with a key derive entry 2 written `0x` and the key's last two characters |
| FuseMap.ModeTable | python/efuse.py:14-21 | a boot-mode table gives a byte exactly for `rom`, `spi`, `jtag`, its HyperBus name, `rom_spim`, `rom_spim_qpi`, and every byte leaves bits 6 and 7 free |
| FuseMap.ModeTableRename | python/runner/stim_utils.py:209-223 | two tables that differ only in the HyperBus name agree on every other name |
| FuseMap.AppendXtal | python/efuse.py:27-30 | the four crystal entries are appended, 26 to 29 |
| FuseMap.AppendKey | python/efuse.py:35-36 | the sixteen key entries are appended, index 2 first |
| FuseMap.AppendIv | python/efuse.py:37-38 | the eight IV entries are appended, index 18 first |
| FuseMap.AppendAes | python/efuse.py:32-40 | with a mode byte: the key entries, the IV entries and the mode byte with bit 6 set, or the mode byte alone without a key; a key without an IV raises `TypeError` after the key entries |
| FuseMap.AppendDerived | python/efuse.py:23-40 | the caller's list grows by exactly the derived entries, in order, and the raised exception is the derived one |
| FuseMap.ModeEntryLast | python/efuse.py:40 | with a mode byte and no exception, the last entry is index 0 with the final mode byte (bit 6 added when there is a key) |
| FuseMap.NoModeNoEntries | python/efuse.py:32 | without a mode byte and without the crystal check nothing is appended, key or no key |
| FuseMap.KeyEntryByte | python/efuse.py:35-36 | with a 32-digit key, entry `2 + i` burns byte `i` of the key, low byte first |
| FuseMap.IvEntryByte | python/efuse.py:37-38 | with a 16-digit IV, entry `18 + i` burns byte `i` of the IV, low byte first |
| FuseMap.ShortKeyRejected | python/efuse.py:36 | a key of 30 characters or fewer gives entry 2 an empty literal, which `int(..., 0)` rejects |
| FuseMap.XtalBurnt | python/efuse.py:23-56 | the crystal entries and a mode byte with bit 7 give a file with the crystal flag at position 896 and the low bits of delta, min and max at 26, 28 and 29 |
| EfuseOption.ModeByte | python/efuse.py:14-21 | the boot-mode byte exists exactly for `rom`, `spi`, `jtag`, `hyper`, `rom_spim`, `rom_spim_qpi`, and leaves bits 6 and 7 free |
| EfuseOption.XtalDelta | python/efuse.py:26 | `int(fraction * 32767)` is the quotient rounded toward zero |
| EfuseOption.GenStimuliFromOption | python/efuse.py:11-62 | the caller's list grows by the derived entries; the result is the raised exception, or the preload file of the whole list over `efuseSize` bits |
| EfuseOption.DefaultDelta | python/efuse.py:11-28 | the default fraction 0.1 gives 3276, burnt as 0xcc in entry 26 and 0x0c in entry 27 |
| EfuseOption.SpiBoot | python/efuse.py:16-56 | SPI boot alone gives the single entry `0:10`, and the file sets exactly bits 128 and 384 |
| EfuseOption.XtalBoot | python/efuse.py:23-40 | the crystal check gives entries 26 to 29 for delta, min and max, then entry 0 with bit 7 set, whatever the mode |
| EfuseOption.AesBoot | python/efuse.py:32-40 | with a key and an IV, entries 2 to 17 burn the key's bytes, 18 to 25 the IV's, and entry 0 carries bit 6 |
| EfuseOption.KeyWithoutIv | python/efuse.py:33-38 | a key without an IV raises `TypeError` after the sixteen key entries |
| EfuseStim.GapModeByte | python/runner/stim_utils.py:209-223 | the boot-mode byte exists exactly for `rom`, `spi`, `jtag`, `rom_hyper`, `rom_spim`, `rom_spim_qpi`, and leaves bits 6 and 7 free |
| EfuseStim.GenStimTxt | python/runner/stim_utils.py:187-261 | the configured list, or a fresh one when there is none, grows by the entries the `gap` options derive; the result is `TxtResult` of the original list, evaluating the debug line's base-10 `int` calls |
| EfuseStim.Finish | python/runner/stim_utils.py:246-261 | after the appends: the raised exception, no file for an empty list, `TypeError` without `nb_regs`, else the file over `nb_regs * 8` bits |
| EfuseStim.XtalCheckRaises | python/runner/stim_utils.py:225-251 | as written, the crystal check on `gap` always ends in an exception; from an empty list it is `ValueError` (or the key's `TypeError`) |
| EfuseStim.HexEntryRaises | python/runner/stim_utils.py:246-253 | an entry written `0x...` in the configured or derived list makes the generator raise, on any chip |
| EfuseStim.AesKeyRaises | python/runner/stim_utils.py:234-253 | on `gap`, an AES key makes the generator raise whenever a mode byte reaches the key entries |
| EfuseStim.IntendedXtalBits | python/runner/stim_utils.py:225-255 | parsed with `int(..., 0)` alone and without a key, the crystal check writes the file over `nb_regs * 8` bits, with the flag at 896 and bits 26, 28, 29 for each option that is on |
| EfuseStim.IntendedList | python/runner/stim_utils.py:225-242 | without a key, the crystal check makes the list the four crystal entries and the mode entry |
| EfuseStim.EncodersAgree | python/runner/stim_utils.py:197-255 | parsed as intended, this generator and the option encoder write the same file wherever their boot-mode tables agree |
| Hsa.AppendData | python/plp_hsa_runner.py:28-34 | the image gets zeros up to `addr` when that lies past the cursor, then the bytes; the new cursor is the segment's end |
| Hsa.AppendPlaces | python/plp_hsa_runner.py:28-34 | for a segment at or after the cursor: the image keeps what it had, is zero up to the segment and holds its bytes at their offset from the base |
| Hsa.AppendBehind | python/plp_hsa_runner.py:28-34 | a segment below the cursor is placed `cursor - addr` bytes too high and the image outgrows its cursor |
| Hsa.Prepare | python/plp_hsa_runner.py:37-59 | one pass gives the L1 image of the segments in `[0x10000000, 0x11000000)` and the L2 image of those in `[0x1C000000, 0x20000000)` |
| Hsa.PackCursor | python/plp_hsa_runner.py:41-59 | the cursor is the end of the last segment in the window |
| Hsa.PackImage | python/plp_hsa_runner.py:41-59 | with the window's segments in address order, byte `o` of the image is that of the segment covering `base + o`, zero in the gaps |
| Hsa.WindowsDisjoint | python/plp_hsa_runner.py:56-59 | no segment goes to both images |
| Hsa.PackSkips | python/plp_hsa_runner.py:56-59 | segments outside a window leave its image unchanged |
| Flash.FlashFields | python/plp_rtl_runner.py:305-306 | one line per byte |
| Flash.GenFlashStimuli | python/plp_rtl_runner.py:296-307 | the loop writes one `@%8.8x %2.2x` line per byte, addresses counting from 0 |
| Flash.FlashRoundTrip | python/plp_rtl_runner.py:304-307 | the text parses back as `(i, image[i])` for every byte, in order |
| Flash.FlashTextLength | python/plp_rtl_runner.py:306 | below 4 GiB every line is 13 characters long |

## Left out

- ELF parsing (`ELFFile`, `iter_segments`) is not part of this model. A binary is given as its list of program headers with their file bytes (`Stimuli.Segment`), where `p_filesz` is the length of the bytes.
- File I/O, `os.makedirs`, `os.symlink` and `os.system` are left out. Each writer returns the text or bytes it would write instead of writing a file, and `prepare` returns the two images instead of calling the simulator. So the two fuse encoders return the text of the file (or `None`), where `efuse_genStimuli_fromOption` returns the file name (python/efuse.py:58) and `gen_stim_txt` returns nothing.
- The verbose `dump`/`print` messages are left out. The debug line's arguments in `gen_stim_txt` are the exception: Python evaluates them even when nothing is printed, so they are modelled (`dumpInts`).
- Configuration lookups (`config.get`, `get_child_int`, `get_child_str`, `get_child_bool`, `getOption`) are parameters. A missing `nb_regs` is modelled as `None`. A `None` from `get_child_bool` is not modelled: the options are plain booleans.
- EfuseOption.XtalDelta: the float fraction `xtalCheck_delta` is modelled as the exact quotient `num / den`. Floating-point rounding of the product is not modelled.
- Negative numbers (addresses, sizes, fuse values) are not modelled. Every quantity is a `nat`.
- Numerals.ParseInt0: accepts only `0x`/`0X` literals and decimal literals. Python's `int(s, 0)` also accepts signs, surrounding whitespace, underscores and `0o`/`0b` literals, which the encoders never write. A configured entry using those forms is a `ValueError` in the model.
- FuseMap.ParseInt10: the base-10 `int(...)` of the debug line is modelled without sign, whitespace or underscores, for the same reason.
- FuseMap.SetBit: states only that bit `k` is set afterwards, not that the other bits of `m` are kept. The consumers of the mode byte need only bits 6 and 7.
- MemImage.IsWidth: word widths are restricted to 1, 2, 4 and 8. The runner uses 1 and 8.
- The other runner classes and launchers (`plp_*_runner.py` beyond the two functions named above, `runner/rtl`, `binary_tools.py`, `dpi_models.py`) are not part of this model.

## Findings

| source | as written | input that shows it | evidently intended | confidence | as-written member | corrected member |
|---|---|---|---|---|---|---|
| python/runner/stim_utils.py:251 | The debug line formats `int(efuseId)` and `int(value)` with base 10 for every entry, even when `verbose` is off. So every entry whose value is written `0x...` raises `ValueError` before any bit is burnt. That covers the crystal-check entries (`'26:0x%x'`, lines 229-232), the AES key and IV entries (`'%d:0x%s'`, lines 238 and 240), and any `0x` entry in the configured list, on any chip. | chip `gap`, `xtal_check` on, `nb_regs` set, any boot mode: the first crystal entry `26:0x..` (also: chip `gap`, `rom` boot, an AES key: entry `2:0x..`) | values are parsed by `int(..., 0)` alone, as in `efuse.py`, and those entries are burnt | not executed | EfuseStim.XtalCheckRaises | EfuseStim.IntendedXtalBits |
