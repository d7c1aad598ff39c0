/**
 * The fuse preload map shared by efuse.py and the `Efuse` generator of
 * runner/stim_utils.py: a list of `"<index>:<value>"` entries is parsed
 * entry by entry, bit `k` of each value is burnt at `index + 128*k` of an
 * all-zero bit array, and the array is written as `"%d "` tokens.
 *
 * A burnt bit is `true` (the source's `1`), an untouched one `false` (`0`).
 */
module FuseMap {
  import opened Wrappers
  import opened Numerals

  /** The Python exceptions the encoders can raise. */
  datatype Error = ValueError | IndexError | TypeError

  /** The caller's list of entries, which both encoders extend in place. */
  class EntryList {
    var items: seq<string>

    constructor (items0: seq<string>)
      ensures items == items0
    {
      items := items0;
    }

    method Append(e: string)
      modifies this
      ensures items == old(items) + [e]
    {
      items := items + [e];
    }
  }

  // ---------------------------------------------------------------------
  // Entries

  /** `'0x%x' % v`. */
  function HexLit(v: nat): string { "0x" + Hex(v, false) }

  /** `'%d:%s' % (index, lit)`. */
  function Entry(index: nat, lit: string): string { Dec(index) + ":" + lit }

  /** The position of the first `':'` in `s`, or `|s|` when there is none. */
  function Colon(s: string): (i: nat)
    ensures i <= |s|
    ensures forall j :: 0 <= j < i ==> s[j] != ':'
    ensures i < |s| ==> s[i] == ':'
  {
    if s == [] then 0 else if s[0] == ':' then 0 else 1 + Colon(s[1..])
  }

  predicate NoColon(s: string) { forall j :: 0 <= j < |s| ==> s[j] != ':' }

  /**
   * `index, value = e.split(':')`: the two sides of the only `':'`; a
   * string with no `':'` or with several does not unpack into two names.
   */
  function SplitEntry(e: string): (r: Option<(string, string)>)
    ensures r.Some? ==> e == r.value.0 + ":" + r.value.1 && NoColon(r.value.0) && NoColon(r.value.1)
  {
    var i := Colon(e);
    if i == |e| then None
    else
      var rest := e[i + 1..];
      if Colon(rest) < |rest| then None
      else
        assert e == e[..i] + ":" + rest;
        Some((e[..i], rest))
  }

  lemma ColonAbsent(s: string)
    requires NoColon(s)
    ensures Colon(s) == |s|
  {
  }

  /** Splitting undoes the joining of two colon-free sides. */
  lemma SplitJoin(a: string, b: string)
    requires NoColon(a) && NoColon(b)
    ensures SplitEntry(a + ":" + b) == Some((a, b))
  {
    var e := a + ":" + b;
    assert e[|a|] == ':';
    assert forall j :: 0 <= j < |a| ==> e[j] == a[j];
    assert Colon(e) == |a|;
    assert e[|a| + 1..] == b;
    ColonAbsent(b);
    assert e[..|a|] == a;
  }

  lemma DigitsNoColon(s: string, base: nat)
    requires AllDigits(s, base)
    ensures NoColon(s)
  {
    forall j | 0 <= j < |s|
      ensures s[j] != ':'
    {
      assert IsHexChar(s[j]);
    }
  }

  /** `int(s)` with base 10: a non-empty run of decimal digits (leading zeros allowed). */
  function ParseInt10(s: string): (r: Option<nat>)
    ensures r.Some? ==> AllDigits(s, 10) && r.value == Value(s, 10)
  {
    if |s| >= 1 && AllDigits(s, 10) then Some(Value(s, 10)) else None
  }

  /**
   * One entry, parsed as the generation loop parses it: split at `':'`,
   * then `int(..., 0)` on both sides. With `dumpInts` the debug line of
   * runner/stim_utils.py is evaluated first, and its `int(index)` and
   * `int(value)` (base 10) must succeed too.
   */
  function ParseEntry(e: string, dumpInts: bool): (r: Result<(nat, nat), Error>)
    ensures r.Err? ==> r.error == ValueError
  {
    match SplitEntry(e)
    case None => Err(ValueError)
    case Some((a, b)) =>
      if dumpInts && (ParseInt10(a).None? || ParseInt10(b).None?) then Err(ValueError)
      else
        match (ParseInt0(a), ParseInt0(b))
        case (Some(i), Some(v)) => Ok((i, v))
        case _ => Err(ValueError)
  }

  /** An entry built with `'%d:0x%x'` parses as its index and value, unless the dump is evaluated. */
  lemma ParseHexEntry(index: nat, v: nat)
    ensures ParseEntry(Entry(index, HexLit(v)), false) == Ok((index, v))
    ensures ParseEntry(Entry(index, HexLit(v)), true) == Err(ValueError)
  {
    ParseLitEntry(index, Hex(v, false));
  }

  /** An entry built with `'%d:%s' % (index, str(v))` parses as its index and value, dump or not. */
  lemma ParseDecEntry(index: nat, v: nat, dumpInts: bool)
    ensures ParseEntry(Entry(index, Dec(v)), dumpInts) == Ok((index, v))
  {
    DigitsNoColon(Dec(index), 10);
    DigitsNoColon(Dec(v), 10);
    SplitJoin(Dec(index), Dec(v));
    ParseDec(index);
    ParseDec(v);
  }

  // ---------------------------------------------------------------------
  // Burning bits

  /** `(value >> k) & 1 == 1`. */
  function Bit(v: nat, k: nat): bool
  {
    (v / Pow(2, k)) % 2 == 1
  }

  /** `for index in range(k, 8): if bit: values[id + index*128] = 1`; an index past the end raises. */
  function SetBits(vals: seq<bool>, id: nat, v: nat, k: nat): Result<seq<bool>, Error>
    requires k <= 8
    decreases 8 - k
  {
    if k == 8 then Ok(vals)
    else if !Bit(v, k) then SetBits(vals, id, v, k + 1)
    else if id + 128 * k < |vals| then SetBits(vals[id + 128 * k := true], id, v, k + 1)
    else Err(IndexError)
  }

  /** The loop over entries: parse one, burn its bits, go on with the rest. */
  function Burn(vals: seq<bool>, es: seq<string>, dumpInts: bool): Result<seq<bool>, Error>
    decreases |es|
  {
    if es == [] then Ok(vals)
    else
      match ParseEntry(es[0], dumpInts)
      case Err(x) => Err(x)
      case Ok((id, v)) =>
        match SetBits(vals, id, v, 0)
        case Err(x) => Err(x)
        case Ok(vals') => Burn(vals', es[1..], dumpInts)
  }

  /** Position `p` is `id + 128*k` for a set bit `k`, with `k0 <= k < 8`. */
  predicate Hits(id: nat, v: nat, p: nat, k0: nat)
  {
    id <= p && (p - id) % 128 == 0 && k0 <= (p - id) / 128 < 8 && Bit(v, (p - id) / 128)
  }

  /** Every set bit `k >= k0` of `v` lands inside an array of `size` bits. */
  predicate FitsFrom(id: nat, v: nat, size: nat, k0: nat)
  {
    forall k :: k0 <= k < 8 && Bit(v, k) ==> id + 128 * k < size
  }

  lemma HitsStep(id: nat, v: nat, p: nat, k: nat)
    requires k < 8
    ensures Hits(id, v, p, k) <==> Hits(id, v, p, k + 1) || (Bit(v, k) && p == id + 128 * k)
  {
    if id <= p && (p - id) % 128 == 0 && (p - id) / 128 == k {
      assert p == id + 128 * k;
    }
    if p == id + 128 * k {
      assert p - id == 128 * k;
      assert (p - id) / 128 == k && (p - id) % 128 == 0;
    }
  }

  /** Burning the bits of one value sets exactly its positions and fails iff one is out of range. */
  lemma {:induction false} SetBitsSpec(vals: seq<bool>, id: nat, v: nat, k: nat)
    requires k <= 8
    ensures SetBits(vals, id, v, k).Ok? <==> FitsFrom(id, v, |vals|, k)
    ensures SetBits(vals, id, v, k).Ok? ==>
      var r := SetBits(vals, id, v, k).value;
      |r| == |vals| && forall p :: 0 <= p < |vals| ==> r[p] == (vals[p] || Hits(id, v, p, k))
    decreases 8 - k
  {
    if k < 8 {
      var next := if Bit(v, k) && id + 128 * k < |vals| then vals[id + 128 * k := true] else vals;
      SetBitsSpec(next, id, v, k + 1);
      forall p | 0 <= p < |vals|
        ensures Hits(id, v, p, k) <==> Hits(id, v, p, k + 1) || (Bit(v, k) && p == id + 128 * k)
      {
        HitsStep(id, v, p, k);
      }
    }
  }

  /** An entry that parses and whose bits all land in the array. */
  predicate EntryOk(e: string, dumpInts: bool, size: nat)
  {
    ParseEntry(e, dumpInts).Ok? &&
    FitsFrom(ParseEntry(e, dumpInts).value.0, ParseEntry(e, dumpInts).value.1, size, 0)
  }

  /** An entry that parses and sets bit `p`. */
  predicate EntryHits(e: string, dumpInts: bool, p: nat)
  {
    ParseEntry(e, dumpInts).Ok? && Hits(ParseEntry(e, dumpInts).value.0, ParseEntry(e, dumpInts).value.1, p, 0)
  }

  /**
   * The burn succeeds iff every entry parses and fits; then bit `p` is set
   * iff it was set before or some entry sets it. Bits are only ever set.
   */
  lemma {:induction false} BurnSpec(vals: seq<bool>, es: seq<string>, dumpInts: bool)
    ensures Burn(vals, es, dumpInts).Ok? <==> forall e :: e in es ==> EntryOk(e, dumpInts, |vals|)
    ensures Burn(vals, es, dumpInts).Ok? ==>
      var r := Burn(vals, es, dumpInts).value;
      |r| == |vals| &&
      forall p :: 0 <= p < |vals| ==> (r[p] <==> vals[p] || exists e :: e in es && EntryHits(e, dumpInts, p))
    decreases |es|
  {
    if es != [] {
      var e := es[0];
      assert forall x :: x in es <==> x == e || x in es[1..];
      var pe := ParseEntry(e, dumpInts);
      if pe.Ok? {
        var (id, v) := pe.value;
        SetBitsSpec(vals, id, v, 0);
        var s := SetBits(vals, id, v, 0);
        if s.Ok? {
          var s' := s.value;
          BurnSpec(s', es[1..], dumpInts);
          assert Burn(vals, es, dumpInts) == Burn(s', es[1..], dumpInts);
          if Burn(s', es[1..], dumpInts).Ok? {
            var r := Burn(s', es[1..], dumpInts).value;
            forall p | 0 <= p < |vals|
              ensures r[p] <==> vals[p] || exists x :: x in es && EntryHits(x, dumpInts, p)
            {
              assert EntryHits(e, dumpInts, p) == Hits(id, v, p, 0);
              if exists x :: x in es && EntryHits(x, dumpInts, p) {
                var x :| x in es && EntryHits(x, dumpInts, p);
                assert x == e || x in es[1..];
              }
            }
          }
        } else {
          assert !EntryOk(e, dumpInts, |vals|);
        }
      } else {
        assert !EntryOk(e, dumpInts, |vals|);
      }
    }
  }

  /** The burnt array does not depend on the order of the entries, nor on repeats. */
  lemma BurnOrderFree(vals: seq<bool>, es1: seq<string>, es2: seq<string>, dumpInts: bool)
    requires forall e :: e in es1 <==> e in es2
    ensures Burn(vals, es1, dumpInts).Ok? <==> Burn(vals, es2, dumpInts).Ok?
    ensures Burn(vals, es1, dumpInts).Ok? ==> Burn(vals, es1, dumpInts) == Burn(vals, es2, dumpInts)
  {
    BurnSpec(vals, es1, dumpInts);
    BurnSpec(vals, es2, dumpInts);
    if Burn(vals, es1, dumpInts).Ok? {
      var r1, r2 := Burn(vals, es1, dumpInts).value, Burn(vals, es2, dumpInts).value;
      forall p | 0 <= p < |vals|
        ensures r1[p] == r2[p]
      {
        if exists e :: e in es1 && EntryHits(e, dumpInts, p) {
          var e :| e in es1 && EntryHits(e, dumpInts, p);
          assert e in es2;
        }
        if exists e :: e in es2 && EntryHits(e, dumpInts, p) {
          var e :| e in es2 && EntryHits(e, dumpInts, p);
          assert e in es1;
        }
      }
      assert r1 == r2;
    }
  }

  /** `[0] * size`. */
  function Cleared(size: nat): (vals: seq<bool>)
    ensures |vals| == size && forall p :: 0 <= p < size ==> !vals[p]
  {
    seq(size, _ => false)
  }

  /** The generation loop, on an array of `size` bits that starts cleared. */
  method BurnValues(es: seq<string>, size: nat, dumpInts: bool) returns (r: Result<seq<bool>, Error>)
    ensures r == Burn(Cleared(size), es, dumpInts)
  {
    var values := new bool[size](_ => false);
    assert values[..] == Cleared(size);
    var i := 0;
    while i < |es|
      invariant 0 <= i <= |es| && values.Length == size
      invariant Burn(values[..], es[i..], dumpInts) == Burn(Cleared(size), es, dumpInts)
    {
      assert es[i..][0] == es[i] && es[i..][1..] == es[i + 1..];
      var pe := ParseEntry(es[i], dumpInts);
      if pe.Err? {
        return Err(pe.error);
      }
      var (id, v) := pe.value;
      ghost var before := values[..];
      var ok := BurnEntry(values, id, v);
      if !ok {
        return Err(IndexError);
      }
      assert Burn(before, es[i..], dumpInts) == Burn(values[..], es[i + 1..], dumpInts);
      i := i + 1;
    }
    r := Ok(values[..]);
  }

  /** The inner loop: burns the set bits of `v` into positions `id + 128*k`, failing on the first one out of range. */
  method BurnEntry(values: array<bool>, id: nat, v: nat) returns (ok: bool)
    modifies values
    ensures SetBits(old(values[..]), id, v, 0) == if ok then Ok(values[..]) else Err(IndexError)
  {
    var k := 0;
    while k < 8
      invariant 0 <= k <= 8
      invariant SetBits(values[..], id, v, k) == SetBits(old(values[..]), id, v, 0)
    {
      if Bit(v, k) {
        if id + 128 * k >= values.Length {
          return false;
        }
        ghost var before := values[..];
        values[id + 128 * k] := true;
        assert values[..] == before[id + 128 * k := true];
      }
      k := k + 1;
    }
    return true;
  }

  // ---------------------------------------------------------------------
  // The preload text

  function Token(b: bool): string { if b then "1 " else "0 " }

  /** `for value in values: file.write('%d ' % value)`. */
  function Tokens(vals: seq<bool>): string
  {
    if vals == [] then "" else Token(vals[0]) + Tokens(vals[1..])
  }

  lemma {:induction false} TokensSnoc(vals: seq<bool>, b: bool)
    ensures Tokens(vals + [b]) == Tokens(vals) + Token(b)
  {
    if vals == [] {
      assert [b][1..] == [];
    } else {
      assert (vals + [b])[1..] == vals[1..] + [b];
      TokensSnoc(vals[1..], b);
    }
  }

  /** Two characters per bit: its digit, then a space. */
  lemma {:induction false} TokensShape(vals: seq<bool>, i: nat)
    requires i < |vals|
    ensures |Tokens(vals)| == 2 * |vals|
    ensures Tokens(vals)[2 * i] == (if vals[i] then '1' else '0') && Tokens(vals)[2 * i + 1] == ' '
  {
    if i > 0 {
      TokensShape(vals[1..], i - 1);
    } else if |vals| > 1 {
      TokensShape(vals[1..], 0);
    }
  }

  /** Reads `"%d "` tokens back into bits. */
  function ReadTokens(t: string): Option<seq<bool>>
  {
    if t == [] then Some([])
    else if |t| >= 2 && (t[0] == '0' || t[0] == '1') && t[1] == ' ' then
      match ReadTokens(t[2..])
      case None => None
      case Some(rest) => Some([t[0] == '1'] + rest)
    else None
  }

  /** The preload text reads back as the bit array. */
  lemma {:induction false} ReadTokensBack(vals: seq<bool>)
    ensures ReadTokens(Tokens(vals)) == Some(vals)
  {
    if vals != [] {
      ReadTokensBack(vals[1..]);
      var t := Tokens(vals);
      assert t[2..] == Tokens(vals[1..]);
      assert [vals[0]] + vals[1..] == vals;
    }
  }

  method WriteTokens(vals: seq<bool>) returns (text: string)
    ensures text == Tokens(vals)
  {
    text := "";
    var i := 0;
    while i < |vals|
      invariant 0 <= i <= |vals|
      invariant text == Tokens(vals[..i])
    {
      TokensSnoc(vals[..i], vals[i]);
      assert vals[..i + 1] == vals[..i] + [vals[i]];
      text := text + (if vals[i] then "1 " else "0 ");
      i := i + 1;
    }
    assert vals[..i] == vals;
  }

  /**
   * The file the encoders write for the entries `es` and an array of
   * `size` bits: nothing (None) when there are no entries.
   */
  function Preload(es: seq<string>, size: nat, dumpInts: bool): Result<Option<string>, Error>
  {
    if |es| == 0 then Ok(None)
    else
      match Burn(Cleared(size), es, dumpInts)
      case Err(x) => Err(x)
      case Ok(vals) => Ok(Some(Tokens(vals)))
  }

  method WritePreload(es: seq<string>, size: nat, dumpInts: bool) returns (r: Result<Option<string>, Error>)
    ensures r == Preload(es, size, dumpInts)
  {
    if |es| == 0 {
      return Ok(None);
    }
    var burnt := BurnValues(es, size, dumpInts);
    if burnt.Err? {
      return Err(burnt.error);
    }
    var text := WriteTokens(burnt.value);
    r := Ok(Some(text));
  }

  // ---------------------------------------------------------------------
  // Entries derived from the boot options

  /** `m | (1 << k)` for a non-negative `m`. */
  function SetBit(m: nat, k: nat): (r: nat)
    ensures Bit(r, k)
  {
    if Bit(m, k) then m else BitAdd(m, k); m + Pow(2, k)
  }

  lemma BitAdd(m: nat, k: nat)
    requires !Bit(m, k)
    ensures Bit(m + Pow(2, k), k)
  {
    AddDivisor(m, Pow(2, k));
  }

  /** Adding the divisor adds one to the quotient. */
  lemma AddDivisor(m: nat, b: nat)
    requires b > 0
    ensures (m + b) / b == m / b + 1
  {
    var q, r := m / b, m % b;
    DivMod(m, b);
    Distrib(q, 1, b);
    DivUnique(m + b, b, q + 1, r);
  }

  lemma DivUnique(n: nat, b: nat, q: nat, r: nat)
    requires b > 0 && r < b && n == q * b + r
    ensures n / b == q && n % b == r
  {
    DivMod(n, b);
    var q', r' := n / b, n % b;
    if q' < q {
      MulMono(q' + 1, q, b);
      Distrib(q', 1, b);
    } else if q < q' {
      MulMono(q + 1, q', b);
      Distrib(q, 1, b);
    }
  }

  /** `aesKey[a:b]`: Python clamps both ends of a slice to the string. */
  function Slice(s: string, a: nat, b: nat): (r: string)
    requires a <= b
    ensures a + (b - a) <= |s| ==> r == s[a..b]
  {
    var lo := if a < |s| then a else |s|;
    var hi := if b < |s| then b else |s|;
    s[lo..hi]
  }

  /** Entries 26 to 29 of the crystal check: `delta` low and high byte, then min and max. */
  function XtalEntries(delta: nat, xmin: nat, xmax: nat): (es: seq<string>)
    ensures |es| == 4
  {
    [Entry(26, HexLit(delta % 256)), Entry(27, HexLit((delta / 256) % 256)),
     Entry(28, HexLit(xmin)), Entry(29, HexLit(xmax))]
  }

  /** Entry `2 + i` holds characters `30 - 2i` to `32 - 2i` of the key: its pairs from the end. */
  function KeyEntry(key: string, i: nat): string
    requires i < 16
  {
    Entry(2 + i, "0x" + Slice(key, 30 - 2 * i, 32 - 2 * i))
  }

  /** Entry `18 + i` holds characters `14 - 2i` to `16 - 2i` of the IV. */
  function IvEntry(iv: string, i: nat): string
    requires i < 8
  {
    Entry(18 + i, "0x" + Slice(iv, 14 - 2 * i, 16 - 2 * i))
  }

  function KeyEntries(key: string): (es: seq<string>)
    ensures |es| == 16
  {
    seq(16, i requires 0 <= i < 16 => KeyEntry(key, i))
  }

  function IvEntries(iv: string): (es: seq<string>)
    ensures |es| == 8
  {
    seq(8, i requires 0 <= i < 8 => IvEntry(iv, i))
  }

  /**
   * The boot-mode byte of a boot-mode name, for a table whose HyperBus
   * mode is named `hyper`: `rom` and `rom_spim_qpi` share 0x3A, and
   * other names give none. Every byte leaves bits 6 and 7 free for the
   * AES and crystal flags.
   */
  function ModeTable(hyper: string, loadMode: string): (r: Option<nat>)
    ensures r.Some? ==> r.value < 64
    ensures r.Some? <==> loadMode in ["rom", "spi", "jtag", hyper, "rom_spim", "rom_spim_qpi"]
  {
    if loadMode == "rom" then Some(0x3A)
    else if loadMode == "spi" then Some(0x0A)
    else if loadMode == "jtag" then Some(0x12)
    else if loadMode == hyper then Some(0x2A)
    else if loadMode == "rom_spim" then Some(0x32)
    else if loadMode == "rom_spim_qpi" then Some(0x3A)
    else None
  }

  /** Two tables differing only in the HyperBus name agree on every other name. */
  lemma ModeTableRename(hyper1: string, hyper2: string, loadMode: string)
    requires loadMode != hyper1 && loadMode != hyper2
    ensures ModeTable(hyper1, loadMode) == ModeTable(hyper2, loadMode)
  {
  }

  /** The entries the options add, and the exception that stopped the adding, if any. */
  datatype Derived = Derived(entries: seq<string>, raised: Option<Error>)

  /** Entry 0, the boot-mode byte, written in decimal. */
  function ModeEntry(mode: nat): string { Entry(0, Dec(mode)) }

  /** The boot-mode byte after the crystal check: bit 7 set, from 0 when the mode gave none. */
  function XtalMode(mode: Option<nat>, xtalCheck: bool): Option<nat>
  {
    if xtalCheck then Some(SetBit(if mode.None? then 0 else mode.value, 7)) else mode
  }

  /**
   * What follows the crystal entries, given the final mode byte `m`: with
   * a key the key and IV entries and the mode byte with bit 6 set, without
   * one the mode byte alone, written with `str`. A key without an IV
   * raises `TypeError` once the key entries are in.
   */
  function AesTail(m: Option<nat>, aesKey: Option<string>, aesIv: Option<string>): Derived
  {
    if m.None? then Derived([], None)
    else if aesKey.None? then Derived([ModeEntry(m.value)], None)
    else if aesIv.None? then Derived(KeyEntries(aesKey.value), Some(TypeError))
    else Derived(KeyEntries(aesKey.value) + IvEntries(aesIv.value) + [ModeEntry(SetBit(m.value, 6))], None)
  }

  /**
   * The entries derived from the mode byte `mode` (None when the boot-mode
   * name gave none) and the options: the crystal entries, then what
   * `AesTail` adds for the mode byte after the crystal check.
   */
  function Derive(mode: Option<nat>, aesKey: Option<string>, aesIv: Option<string>,
                  xtalCheck: bool, delta: nat, xmin: nat, xmax: nat): Derived
  {
    var xs := if xtalCheck then XtalEntries(delta, xmin, xmax) else [];
    var t := AesTail(XtalMode(mode, xtalCheck), aesKey, aesIv);
    Derived(xs + t.entries, t.raised)
  }

  /** Appends the sixteen key entries, index 2 first. */
  method AppendKey(efuses: EntryList, key: string)
    modifies efuses
    ensures efuses.items == old(efuses.items) + KeyEntries(key)
  {
    var i := 0;
    while i < 16
      invariant 0 <= i <= 16
      invariant efuses.items == old(efuses.items) + KeyEntries(key)[..i]
    {
      efuses.Append(Entry(2 + i, "0x" + Slice(key, 30 - 2 * i, 32 - 2 * i)));
      assert KeyEntries(key)[..i + 1] == KeyEntries(key)[..i] + [KeyEntry(key, i)];
      i := i + 1;
    }
    assert KeyEntries(key)[..16] == KeyEntries(key);
  }

  /** Appends the eight IV entries, index 18 first. */
  method AppendIv(efuses: EntryList, iv: string)
    modifies efuses
    ensures efuses.items == old(efuses.items) + IvEntries(iv)
  {
    var i := 0;
    while i < 8
      invariant 0 <= i <= 8
      invariant efuses.items == old(efuses.items) + IvEntries(iv)[..i]
    {
      efuses.Append(Entry(18 + i, "0x" + Slice(iv, 14 - 2 * i, 16 - 2 * i)));
      assert IvEntries(iv)[..i + 1] == IvEntries(iv)[..i] + [IvEntry(iv, i)];
      i := i + 1;
    }
    assert IvEntries(iv)[..8] == IvEntries(iv);
  }

  /** The appends that follow the crystal entries. */
  method AppendAes(efuses: EntryList, m: Option<nat>, aesKey: Option<string>, aesIv: Option<string>)
    returns (raised: Option<Error>)
    modifies efuses
    ensures efuses.items == old(efuses.items) + AesTail(m, aesKey, aesIv).entries
    ensures raised == AesTail(m, aesKey, aesIv).raised
  {
    raised := None;
    if m.None? {
      return;
    }
    var hex := m.value;
    if aesKey.Some? {
      hex := SetBit(hex, 6);
      AppendKey(efuses, aesKey.value);
      if aesIv.None? {
        return Some(TypeError);
      }
      AppendIv(efuses, aesIv.value);
    }
    efuses.Append(ModeEntry(hex));
  }

  /** The appends both encoders make to the caller's list, in the order they make them. */
  method AppendDerived(efuses: EntryList, mode: Option<nat>, aesKey: Option<string>, aesIv: Option<string>,
                       xtalCheck: bool, delta: nat, xmin: nat, xmax: nat) returns (raised: Option<Error>)
    modifies efuses
    ensures var d := Derive(mode, aesKey, aesIv, xtalCheck, delta, xmin, xmax);
      efuses.items == old(efuses.items) + d.entries && raised == d.raised
  {
    var xs: seq<string> := [];
    var m := mode;
    if xtalCheck {
      if m.None? {
        m := Some(0);
      }
      m := Some(SetBit(m.value, 7));
      xs := XtalEntries(delta, xmin, xmax);
      AppendXtal(efuses, delta, xmin, xmax);
    }
    assert m == XtalMode(mode, xtalCheck);
    ghost var t := AesTail(m, aesKey, aesIv);
    assert Derive(mode, aesKey, aesIv, xtalCheck, delta, xmin, xmax) == Derived(xs + t.entries, t.raised);
    raised := AppendAes(efuses, m, aesKey, aesIv);
    AppendAssoc(old(efuses.items), xs, t.entries);
  }

  /** The four crystal entries, 26 to 29. */
  method AppendXtal(efuses: EntryList, delta: nat, xmin: nat, xmax: nat)
    modifies efuses
    ensures efuses.items == old(efuses.items) + XtalEntries(delta, xmin, xmax)
  {
    var xs := XtalEntries(delta, xmin, xmax);
    efuses.Append(xs[0]);
    efuses.Append(xs[1]);
    efuses.Append(xs[2]);
    efuses.Append(xs[3]);
  }

  lemma AppendAssoc(a: seq<string>, b: seq<string>, c: seq<string>)
    ensures a + b + c == a + (b + c)
  {
  }

  /** With a mode byte and no exception, the last entry is the mode byte, read back as written. */
  lemma ModeEntryLast(mode: Option<nat>, aesKey: Option<string>, aesIv: Option<string>,
                      xtalCheck: bool, delta: nat, xmin: nat, xmax: nat, dumpInts: bool)
    requires XtalMode(mode, xtalCheck).Some?
    ensures var d := Derive(mode, aesKey, aesIv, xtalCheck, delta, xmin, xmax);
      d.raised.None? ==>
        |d.entries| >= 1 &&
        ParseEntry(d.entries[|d.entries| - 1], dumpInts) ==
          Ok((0, if aesKey.Some? then SetBit(XtalMode(mode, xtalCheck).value, 6) else XtalMode(mode, xtalCheck).value))
  {
    var m := XtalMode(mode, xtalCheck).value;
    ParseDecEntry(0, m, dumpInts);
    ParseDecEntry(0, SetBit(m, 6), dumpInts);
  }

  /** Without a mode byte (and so without the crystal check) nothing is added, key or no key. */
  lemma NoModeNoEntries(aesKey: Option<string>, aesIv: Option<string>, delta: nat, xmin: nat, xmax: nat)
    ensures Derive(None, aesKey, aesIv, false, delta, xmin, xmax) == Derived([], None)
  {
  }

  // ---------------------------------------------------------------------
  // What the derived entries burn

  /** An entry built with `'%d:0x%s'` from hexadecimal digits parses as its index and their value. */
  lemma ParseLitEntry(index: nat, digits: string)
    requires |digits| >= 1 && AllDigits(digits, 16)
    ensures ParseEntry(Entry(index, "0x" + digits), false) == Ok((index, Value(digits, 16)))
    ensures ParseEntry(Entry(index, "0x" + digits), true) == Err(ValueError)
  {
    LitEntrySplit(index, digits);
    ParseDec(index);
    ParseHexLiteral(digits);
    LitNotDecimal(digits);
  }

  lemma LitEntrySplit(index: nat, digits: string)
    requires AllDigits(digits, 16)
    ensures SplitEntry(Entry(index, "0x" + digits)) == Some((Dec(index), "0x" + digits))
  {
    assert !IsHexChar('x') && !IsHexChar(':');
    DigitsNoColon(Dec(index), 10);
    assert NoColon("0x" + digits) by {
      DigitsNoColon(digits, 16);
    }
    SplitJoin(Dec(index), "0x" + digits);
  }

  /** `int('0x..')` with base 10 fails on the `x`. */
  lemma LitNotDecimal(digits: string)
    ensures ParseInt10("0x" + digits).None?
  {
    assert ("0x" + digits)[1] == 'x' && !IsHexChar('x');
  }

  /**
   * With the dump evaluated, an entry whose value is written `0x...` fails
   * whatever follows the prefix: `int(value)` in base 10 stops at the `x`.
   */
  lemma HexDumpFails(index: nat, t: string)
    ensures ParseEntry(Entry(index, "0x" + t), true) == Err(ValueError)
  {
    var e := Entry(index, "0x" + t);
    DigitsNoColon(Dec(index), 10);
    assert e[|Dec(index)|] == ':';
    assert forall j :: 0 <= j < |Dec(index)| ==> e[j] == Dec(index)[j];
    assert Colon(e) == |Dec(index)|;
    assert e[|Dec(index)| + 1..] == "0x" + t;
    LitNotDecimal(t);
  }

  /** Once a mode byte reaches them, the options with a key derive the first key entry. */
  lemma KeyDerived(mode: Option<nat>, key: string, aesIv: Option<string>, xtalCheck: bool, delta: nat, xmin: nat, xmax: nat)
    requires XtalMode(mode, xtalCheck).Some?
    ensures Entry(2, "0x" + Slice(key, 30, 32)) in Derive(mode, Some(key), aesIv, xtalCheck, delta, xmin, xmax).entries
  {
    var xs := if xtalCheck then XtalEntries(delta, xmin, xmax) else [];
    var t := AesTail(XtalMode(mode, xtalCheck), Some(key), aesIv);
    assert t.entries[0] == KeyEntries(key)[0] == KeyEntry(key, 0);
    assert (xs + t.entries)[|xs|] == t.entries[0];
  }

  /** The crystal entries parse as (26, low byte), (27, high byte), (28, min), (29, max) and fail the dump. */
  lemma XtalEntriesRead(delta: nat, xmin: nat, xmax: nat)
    ensures var es := XtalEntries(delta, xmin, xmax);
      ParseEntry(es[0], false) == Ok((26, delta % 256)) &&
      ParseEntry(es[1], false) == Ok((27, (delta / 256) % 256)) &&
      ParseEntry(es[2], false) == Ok((28, xmin)) &&
      ParseEntry(es[3], false) == Ok((29, xmax)) &&
      ParseEntry(es[0], true) == Err(ValueError) && ParseEntry(es[1], true) == Err(ValueError) &&
      ParseEntry(es[2], true) == Err(ValueError) && ParseEntry(es[3], true) == Err(ValueError)
  {
    ParseHexEntry(26, delta % 256);
    ParseHexEntry(27, (delta / 256) % 256);
    ParseHexEntry(28, xmin);
    ParseHexEntry(29, xmax);
  }

  /**
   * The two hexadecimal digits ending `2i` characters before the end of
   * `s` are byte `i` of the number `s` denotes, counting from the low end.
   */
  lemma PairByte(s: string, i: nat)
    requires 2 * i + 2 <= |s| && AllDigits(s, 16)
    ensures var n := |s|;
      AllDigits(s[n - 2 * i - 2..n - 2 * i], 16) &&
      Value(s[n - 2 * i - 2..n - 2 * i], 16) == (Value(s, 16) / Pow(256, i)) % 256
  {
    var n := |s|;
    var a, p, b := s[..n - 2 * i - 2], s[n - 2 * i - 2..n - 2 * i], s[n - 2 * i..];
    assert s == a + p + b;
    assert s == (a + p) + b;
    ValueConcat(a + p, b, 16);
    ValueConcat(a, p, 16);
    ValueBound(b, 16);
    ValueBound(p, 16);
    PowSquare(i);
    assert Pow(16, 2) == 256;
    var P := Pow(256, i);
    DivUnique(Value(s, 16), P, Value(a + p, 16), Value(b, 16));
    DivUnique(Value(a + p, 16), 256, Value(a, 16), Value(p, 16));
  }

  /** With a 32-digit key, entry `2 + i` burns byte `i` of the key, low byte first. */
  lemma KeyEntryByte(key: string, i: nat)
    requires |key| == 32 && AllDigits(key, 16) && i < 16
    ensures ParseEntry(KeyEntry(key, i), false) == Ok((2 + i, (Value(key, 16) / Pow(256, i)) % 256))
  {
    SlicePair(key, i, 30 - 2 * i, 32 - 2 * i);
    ParseLitEntry(2 + i, Slice(key, 30 - 2 * i, 32 - 2 * i));
  }

  /** With a 16-digit IV, entry `18 + i` burns byte `i` of the IV, low byte first. */
  lemma IvEntryByte(iv: string, i: nat)
    requires |iv| == 16 && AllDigits(iv, 16) && i < 8
    ensures ParseEntry(IvEntry(iv, i), false) == Ok((18 + i, (Value(iv, 16) / Pow(256, i)) % 256))
  {
    SlicePair(iv, i, 14 - 2 * i, 16 - 2 * i);
    ParseLitEntry(18 + i, Slice(iv, 14 - 2 * i, 16 - 2 * i));
  }

  /** The slice `[lo:hi]` with `hi == len - 2i` is the digit pair of byte `i`. */
  lemma SlicePair(s: string, i: nat, lo: nat, hi: nat)
    requires AllDigits(s, 16) && hi == |s| - 2 * i && lo + 2 == hi && 2 * i + 2 <= |s|
    ensures var d := Slice(s, lo, hi);
      |d| >= 1 && AllDigits(d, 16) && Value(d, 16) == (Value(s, 16) / Pow(256, i)) % 256
  {
    PairByte(s, i);
  }

  /** A key of 30 characters or fewer gives entry 2 an empty literal, which `int(..., 0)` rejects. */
  lemma ShortKeyRejected(key: string)
    requires |key| <= 30
    ensures ParseEntry(KeyEntry(key, 0), false) == Err(ValueError)
  {
    assert Slice(key, 30, 32) == [];
    var e := KeyEntry(key, 0);
    assert e == Dec(2) + ":" + "0x";
    DigitsNoColon(Dec(2), 10);
    assert NoColon("0x");
    SplitJoin(Dec(2), "0x");
  }

  /**
   * The preload file of a non-empty entry list: it is written iff every
   * entry parses and fits, and then it reads back as `size` bits, bit `p`
   * set iff some entry sets it.
   */
  lemma PreloadSpec(es: seq<string>, size: nat, dumpInts: bool)
    requires es != []
    ensures Preload(es, size, dumpInts).Ok? <==> forall e :: e in es ==> EntryOk(e, dumpInts, size)
    ensures Preload(es, size, dumpInts).Ok? ==>
      Preload(es, size, dumpInts).value.Some? &&
      var bits := ReadTokens(Preload(es, size, dumpInts).value.value);
      bits.Some? && |bits.value| == size &&
      forall p :: 0 <= p < size ==> (bits.value[p] <==> exists e :: e in es && EntryHits(e, dumpInts, p))
  {
    BurnSpec(Cleared(size), es, dumpInts);
    var b := Burn(Cleared(size), es, dumpInts);
    if b.Ok? {
      ReadTokensBack(b.value);
    }
  }

  /** A parsed entry whose index leaves room for bit 7 fits, whatever its value. */
  lemma ParsedFits(e: string, dumpInts: bool, id: nat, v: nat, size: nat)
    requires ParseEntry(e, dumpInts) == Ok((id, v)) && id + 128 * 7 < size
    ensures EntryOk(e, dumpInts, size)
  {
  }

  /** A list of one entry that fits: the file reads back as exactly the bits that entry sets. */
  lemma PreloadOne(e: string, size: nat, dumpInts: bool)
    requires EntryOk(e, dumpInts, size)
    ensures var r := Preload([e], size, dumpInts);
      r.Ok? && r.value.Some? && ReadTokens(r.value.value) == Some(seq(size, p requires 0 <= p < size => EntryHits(e, dumpInts, p)))
  {
    PreloadSpec([e], size, dumpInts);
    var bits := ReadTokens(Preload([e], size, dumpInts).value.value).value;
    forall p | 0 <= p < size
      ensures bits[p] == EntryHits(e, dumpInts, p)
    {
      assert (exists x :: x in [e] && EntryHits(x, dumpInts, p)) <==> EntryHits(e, dumpInts, p);
    }
    assert bits == seq(size, p requires 0 <= p < size => EntryHits(e, dumpInts, p));
  }

  /** When every entry parses and fits, the file is written and reads back as `size` bits. */
  lemma PreloadWritten(es: seq<string>, size: nat, dumpInts: bool)
    requires es != [] && forall i :: 0 <= i < |es| ==> EntryOk(es[i], dumpInts, size)
    ensures var r := Preload(es, size, dumpInts);
      r.Ok? && r.value.Some? && ReadTokens(r.value.value).Some? && |ReadTokens(r.value.value).value| == size
  {
    PreloadSpec(es, size, dumpInts);
  }

  /** A written file has every bit set that some entry of the list sets. */
  lemma PreloadSets(es: seq<string>, size: nat, dumpInts: bool, i: nat, p: nat)
    requires es != [] && Preload(es, size, dumpInts).Ok? && i < |es| && p < size
    requires ParseEntry(es[i], dumpInts).Ok? && Hits(ParseEntry(es[i], dumpInts).value.0, ParseEntry(es[i], dumpInts).value.1, p, 0)
    ensures var r := Preload(es, size, dumpInts);
      r.value.Some? && ReadTokens(r.value.value).Some? && |ReadTokens(r.value.value).value| == size &&
      ReadTokens(r.value.value).value[p]
  {
    PreloadSpec(es, size, dumpInts);
    assert EntryHits(es[i], dumpInts, p);
  }

  /** Bit 7 of entry 0 is position 896. */
  lemma FlagHit(m: nat)
    requires Bit(m, 7)
    ensures Hits(0, m, 896, 0)
  {
    assert (896 - 0) / 128 == 7 && (896 - 0) % 128 == 0;
  }

  /** Each of the four crystal entries and the mode entry parses and fits. */
  lemma XtalListFits(delta: nat, xmin: nat, xmax: nat, m: nat, size: nat)
    requires size > 29 + 128 * 7
    ensures var es := XtalEntries(delta, xmin, xmax) + [ModeEntry(m)];
      forall i :: 0 <= i < |es| ==> EntryOk(es[i], false, size)
  {
    XtalFits(delta, xmin, xmax, size);
    ParseDecEntry(0, m, false);
    ParsedFits(ModeEntry(m), false, 0, m, size);
    AllOkSnoc(XtalEntries(delta, xmin, xmax), ModeEntry(m), size);
  }

  lemma XtalFits(delta: nat, xmin: nat, xmax: nat, size: nat)
    requires size > 29 + 128 * 7
    ensures forall i :: 0 <= i < 4 ==> EntryOk(XtalEntries(delta, xmin, xmax)[i], false, size)
  {
    XtalEntryFits(26, delta % 256, size);
    XtalEntryFits(27, (delta / 256) % 256, size);
    XtalEntryFits(28, xmin, size);
    XtalEntryFits(29, xmax, size);
    forall i | 0 <= i < 4
      ensures EntryOk(XtalEntries(delta, xmin, xmax)[i], false, size)
    {
      assert i == 0 || i == 1 || i == 2 || i == 3;
    }
  }

  lemma AllOkSnoc(xs: seq<string>, e: string, size: nat)
    requires forall i :: 0 <= i < |xs| ==> EntryOk(xs[i], false, size)
    requires EntryOk(e, false, size)
    ensures forall i :: 0 <= i < |xs + [e]| ==> EntryOk((xs + [e])[i], false, size)
  {
    forall i | 0 <= i < |xs + [e]|
      ensures EntryOk((xs + [e])[i], false, size)
    {
      if i < |xs| {
        assert (xs + [e])[i] == xs[i];
      }
    }
  }

  lemma XtalEntryFits(id: nat, v: nat, size: nat)
    requires id + 128 * 7 < size
    ensures EntryOk(Entry(id, HexLit(v)), false, size)
  {
    ParseHexEntry(id, v);
    ParsedFits(Entry(id, HexLit(v)), false, id, v, size);
  }

  /**
   * The crystal entries and a mode entry carrying bit 7, alone in the
   * list: the file is written (bit 7 of entry 29 fits), it carries the
   * crystal flag at position 896 and the low bit of delta, min and max at
   * positions 26, 28 and 29.
   */
  lemma XtalBurnt(delta: nat, xmin: nat, xmax: nat, m: nat, size: nat)
    requires Bit(m, 7) && size > 29 + 128 * 7
    ensures var r := Preload(XtalEntries(delta, xmin, xmax) + [ModeEntry(m)], size, false);
      r.Ok? && r.value.Some? &&
      var bits := ReadTokens(r.value.value);
      bits.Some? && |bits.value| == size && bits.value[896] &&
      (Bit(delta % 256, 0) ==> bits.value[26]) && (Bit(xmin, 0) ==> bits.value[28]) && (Bit(xmax, 0) ==> bits.value[29])
  {
    XtalEntriesRead(delta, xmin, xmax);
    FlagBurnt(delta, xmin, xmax, m, size);
    if Bit(delta % 256, 0) {
      LowBurnt(delta, xmin, xmax, m, size, 0, 26, delta % 256);
    }
    if Bit(xmin, 0) {
      LowBurnt(delta, xmin, xmax, m, size, 2, 28, xmin);
    }
    if Bit(xmax, 0) {
      LowBurnt(delta, xmin, xmax, m, size, 3, 29, xmax);
    }
  }

  /** Bit `p` of the file written for `es` over `size` bits is set. */
  predicate BurntAt(es: seq<string>, size: nat, p: nat)
  {
    var r := Preload(es, size, false);
    r.Ok? && r.value.Some? &&
    var bits := ReadTokens(r.value.value);
    bits.Some? && |bits.value| == size && p < size && bits.value[p]
  }

  /** The mode entry's bit 7 is the crystal flag, position 896. */
  lemma FlagBurnt(delta: nat, xmin: nat, xmax: nat, m: nat, size: nat)
    requires Bit(m, 7) && size > 29 + 128 * 7
    ensures BurntAt(XtalEntries(delta, xmin, xmax) + [ModeEntry(m)], size, 896)
  {
    var es := XtalEntries(delta, xmin, xmax) + [ModeEntry(m)];
    assert es[4] == ModeEntry(m);
    ParseDecEntry(0, m, false);
    FlagHit(m);
    XtalBitSet(delta, xmin, xmax, m, size, 4, 0, m, 896);
  }

  /** A crystal entry `id` whose value has its low bit set sets bit `id` of the file. */
  lemma LowBurnt(delta: nat, xmin: nat, xmax: nat, m: nat, size: nat, i: nat, id: nat, v: nat)
    requires size > 29 + 128 * 7 && i < 4 && id < 30
    requires ParseEntry(XtalEntries(delta, xmin, xmax)[i], false) == Ok((id, v)) && Bit(v, 0)
    ensures BurntAt(XtalEntries(delta, xmin, xmax) + [ModeEntry(m)], size, id)
  {
    var es := XtalEntries(delta, xmin, xmax) + [ModeEntry(m)];
    assert es[i] == XtalEntries(delta, xmin, xmax)[i];
    LowHit(id, v);
    XtalBitSet(delta, xmin, xmax, m, size, i, id, v, id);
  }

  lemma LowHit(id: nat, v: nat)
    requires Bit(v, 0)
    ensures Hits(id, v, id, 0)
  {
    assert (id - id) / 128 == 0 && (id - id) % 128 == 0;
  }

  /** Entry `i` of the crystal list, read as `(id, v)`, sets bit `p` of the written file. */
  lemma XtalBitSet(delta: nat, xmin: nat, xmax: nat, m: nat, size: nat, i: nat, id: nat, v: nat, p: nat)
    requires size > 29 + 128 * 7 && i < 5 && p < size
    requires ParseEntry((XtalEntries(delta, xmin, xmax) + [ModeEntry(m)])[i], false) == Ok((id, v)) && Hits(id, v, p, 0)
    ensures BurntAt(XtalEntries(delta, xmin, xmax) + [ModeEntry(m)], size, p)
  {
    var es := XtalEntries(delta, xmin, xmax) + [ModeEntry(m)];
    XtalListFits(delta, xmin, xmax, m, size);
    PreloadWritten(es, size, false);
    PreloadSets(es, size, false, i, p);
  }
}
