/** Little-endian packing of words, as `int.from_bytes(..., byteorder='little')` does. */
module LittleEndian {
  import opened Numerals

  /** A byte, as `struct.unpack('B', ...)` and indexing a `bytes` object give it. */
  type Byte = b: nat | b < 256

  /** The number whose little-endian bytes are `s`. */
  function FromLE(s: seq<Byte>): nat
  {
    if s == [] then 0 else s[0] + 256 * FromLE(s[1..])
  }

  /** The `n` low bytes of `v`, least significant first. */
  function ToLE(v: nat, n: nat): (s: seq<Byte>)
    ensures |s| == n
  {
    if n == 0 then [] else [v % 256] + ToLE(v / 256, n - 1)
  }

  /** `n` bytes hold a number below `256^n`. */
  lemma {:induction false} FromLEBound(s: seq<Byte>)
    ensures FromLE(s) < Pow(256, |s|)
  {
    if s != [] {
      FromLEBound(s[1..]);
      var x, P := FromLE(s[1..]), Pow(256, |s| - 1);
      MulMono(x + 1, P, 256);
      Distrib(x, 1, 256);
    }
  }

  /** Packing bytes and reading them back gives the same bytes. */
  lemma {:induction false} ToFromLE(s: seq<Byte>)
    ensures ToLE(FromLE(s), |s|) == s
  {
    if s != [] {
      var v := FromLE(s);
      DivMod(v, 256);
      assert v % 256 == s[0] && v / 256 == FromLE(s[1..]);
      ToFromLE(s[1..]);
    }
  }

  /** Reading the `n` low bytes of a number below `256^n` gives the number back. */
  lemma {:induction false} FromToLE(v: nat, n: nat)
    requires v < Pow(256, n)
    ensures FromLE(ToLE(v, n)) == v
  {
    if n == 0 {
    } else {
      DivMod(v, 256);
      DivBelow(v, 256, Pow(256, n - 1));
      FromToLE(v / 256, n - 1);
      var s := ToLE(v, n);
      assert s[1..] == ToLE(v / 256, n - 1);
    }
  }

  /** Every byte of the number 0 is 0. */
  lemma {:induction false} ToLEZero(n: nat, j: nat)
    requires j < n
    ensures ToLE(0, n)[j] == 0
  {
    if j > 0 {
      ToLEZero(n - 1, j - 1);
    }
  }
}
