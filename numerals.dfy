/**
 * Numerals: the hexadecimal and decimal renderings used by the stimulus
 * files (`%X`, `%0*X`, `%8.8x`, `%2.2x`, `%d`, `str(n)`), their values,
 * the subset of Python's `int(s, 0)` the fuse encoders rely on, and a parser
 * for files made of `<lead><hex><sep><hex>\n` lines.
 */
module Numerals {
  import opened Wrappers

  function Pow(b: nat, e: nat): (r: nat)
    requires b >= 1
    ensures r >= 1
    ensures e >= 1 ==> r >= b
  {
    if e == 0 then 1 else b * Pow(b, e - 1)
  }

  predicate IsDecChar(c: char) { '0' <= c <= '9' }

  predicate IsHexChar(c: char) { '0' <= c <= '9' || 'a' <= c <= 'f' || 'A' <= c <= 'F' }

  /**
   * The value of one digit; Python accepts both cases of a-f. Characters
   * that are not digits are given 0 here; every parser checks `AllDigits`
   * before it takes a value.
   */
  function DigitValue(c: char): (d: nat)
    ensures d < 16
    ensures IsHexChar(c) ==> (IsDecChar(c) <==> d < 10)
    ensures IsHexChar(c) ==> (d == 0 <==> c == '0')
  {
    if '0' <= c <= '9' then c as nat - '0' as nat
    else if 'a' <= c <= 'f' then c as nat - 'a' as nat + 10
    else if 'A' <= c <= 'F' then c as nat - 'A' as nat + 10
    else 0
  }

  /** The digit for `d`; `upper` selects `%X` rather than `%x`. */
  function DigitChar(d: nat, upper: bool): (c: char)
    requires d < 16
    ensures IsHexChar(c) && DigitValue(c) == d
  {
    if d < 10 then ('0' as int + d) as char
    else if upper then ('A' as int + d - 10) as char
    else ('a' as int + d - 10) as char
  }

  predicate IsDigit(c: char, base: nat) { IsHexChar(c) && DigitValue(c) < base }

  predicate AllDigits(s: string, base: nat)
  {
    forall i :: 0 <= i < |s| ==> IsDigit(s[i], base)
  }

  /** The number a digit string denotes in `base`, most significant digit first. */
  function Value(s: string, base: nat): nat
  {
    if s == [] then 0 else Value(s[..|s| - 1], base) * base + DigitValue(s[|s| - 1])
  }

  /**
   * The shortest rendering of `n` in `base` (Python's `%x`, `%X` for base
   * 16 and `%d`, `str` for base 10): it reads back as `n`, and it starts
   * with `0` only when it is `"0"`.
   */
  function Numeral(n: nat, base: nat, upper: bool): (s: string)
    requires 2 <= base <= 16
    ensures |s| >= 1 && AllDigits(s, base) && Value(s, base) == n
    ensures s[0] == '0' <==> n == 0
    ensures n == 0 ==> s == "0"
    decreases n
  {
    if n < base then
      var c := DigitChar(n, upper);
      AppendDigit([], c, base);
      assert [] + [c] == [c];
      [c]
    else
      DivShrinks(n, base);
      var p := Numeral(n / base, base, upper);
      var c := DigitChar(n % base, upper);
      NumeralStep(n, base, p, c);
      p + [c]
  }

  lemma DivShrinks(n: nat, b: nat)
    requires 2 <= b <= n
    ensures 1 <= n / b < n && n % b < b
  {
    DivMod(n, b);
    AtLeastDouble(n / b, b);
  }

  lemma AtLeastDouble(q: nat, b: nat)
    requires b >= 2
    ensures q * b >= q + q
  {
    Distrib(2, b - 2, q);
    assert (b - 2) * q >= 0;
  }

  /** One more digit after the rendering of `n / base` renders `n`. */
  lemma NumeralStep(n: nat, base: nat, p: string, c: char)
    requires 2 <= base <= 16 && n >= base
    requires |p| >= 1 && AllDigits(p, base) && Value(p, base) == n / base && (p[0] == '0' <==> n / base == 0)
    requires IsDigit(c, base) && DigitValue(c) == n % base
    ensures var s := p + [c]; |s| >= 1 && AllDigits(s, base) && Value(s, base) == n && s[0] != '0'
  {
    DivMod(n, base);
    AppendDigit(p, c, base);
  }

  lemma AppendDigit(p: string, c: char, base: nat)
    requires AllDigits(p, base) && IsDigit(c, base)
    ensures var s := p + [c];
      AllDigits(s, base) && Value(s, base) == Value(p, base) * base + DigitValue(c) &&
      (|p| >= 1 ==> s[0] == p[0])
  {
    var s := p + [c];
    assert s[..|s| - 1] == p && s[|s| - 1] == c;
    forall i | 0 <= i < |s|
      ensures IsDigit(s[i], base)
    {
      if i < |p| {
        assert s[i] == p[i];
      }
    }
  }

  lemma DivMod(n: nat, b: nat)
    requires b > 0
    ensures n == (n / b) * b + n % b && n % b < b
    ensures b <= n ==> n / b >= 1
  {
  }

  lemma Distrib(x: nat, y: nat, k: nat)
    ensures (x + y) * k == x * k + y * k
  {
  }

  lemma MulAssoc(x: nat, y: nat, k: nat)
    ensures (x * y) * k == x * (y * k)
  {
  }

  lemma DivBelow(n: nat, b: nat, p: nat)
    requires b > 0 && n < b * p
    ensures n / b < p
  {
    DivMod(n, b);
    if n / b >= p {
      MulMono(p, n / b, b);
    }
  }

  lemma MulMono(x: nat, y: nat, k: nat)
    requires x <= y
    ensures x * k <= y * k
  {
  }

  /** Two hexadecimal digits per byte. */
  lemma {:induction false} PowSquare(e: nat)
    ensures Pow(16, 2 * e) == Pow(256, e)
  {
    if e > 0 {
      PowSquare(e - 1);
      assert Pow(16, 2 * e) == 16 * (16 * Pow(16, 2 * (e - 1)));
    }
  }
  function Hex(n: nat, upper: bool): string { Numeral(n, 16, upper) }

  function Dec(n: nat): string { Numeral(n, 10, false) }

  /** Left padding with `'0'` up to `width` characters, as `%0*X` and `%8.8x` do. */
  function ZeroPad(s: string, width: nat): (r: string)
    ensures |r| == if |s| < width then width else |s|
  {
    if |s| < width then seq(width - |s|, _ => '0') + s else s
  }

  /** The padded text ends with the original and is `'0'` before it. */
  lemma ZeroPadShape(s: string, width: nat)
    ensures var r := ZeroPad(s, width);
      r[|r| - |s|..] == s && forall i :: 0 <= i < |r| - |s| ==> r[i] == '0'
  {
  }

  function HexPad(n: nat, width: nat, upper: bool): string { ZeroPad(Hex(n, upper), width) }

  lemma {:induction false} ValueConcat(a: string, b: string, base: nat)
    requires 1 <= base
    ensures AllDigits(a, base) && AllDigits(b, base) ==> AllDigits(a + b, base)
    ensures Value(a + b, base) == Value(a, base) * Pow(base, |b|) + Value(b, base)
    decreases |b|, 1
  {
    DigitsConcat(a, b, base);
    if b == [] {
      assert a + b == a;
    } else {
      ValueConcatStep(a, b, base);
    }
  }

  /** The last digit of `b` comes off `a + b` as it comes off `b`; the rest by induction. */
  lemma {:induction false} ValueConcatStep(a: string, b: string, base: nat)
    requires 1 <= base && b != []
    ensures Value(a + b, base) == Value(a, base) * Pow(base, |b|) + Value(b, base)
    decreases |b|, 0
  {
    assert (a + b)[..|a + b| - 1] == a + b[..|b| - 1];
    assert (a + b)[|a + b| - 1] == b[|b| - 1];
    ValueConcat(a, b[..|b| - 1], base);
    ShiftDigit(Value(a, base), Pow(base, |b| - 1), Value(b[..|b| - 1], base), base, DigitValue(b[|b| - 1]));
  }

  lemma ShiftDigit(va: nat, p: nat, vb: nat, base: nat, d: nat)
    ensures (va * p + vb) * base + d == va * (base * p) + (vb * base + d)
  {
    Distrib(va * p, vb, base);
    MulAssoc(va, p, base);
  }

  lemma DigitsConcat(a: string, b: string, base: nat)
    ensures AllDigits(a, base) && AllDigits(b, base) ==> AllDigits(a + b, base)
  {
    if AllDigits(a, base) && AllDigits(b, base) {
      forall i | 0 <= i < |a + b|
        ensures IsDigit((a + b)[i], base)
      {
        if i >= |a| {
          assert (a + b)[i] == b[i - |a|];
        }
      }
    }
  }

  lemma {:induction false} ValueZeros(s: string, base: nat)
    requires forall i :: 0 <= i < |s| ==> s[i] == '0'
    ensures AllDigits(s, base) ==> Value(s, base) == 0
  {
    if s != [] {
      ValueZeros(s[..|s| - 1], base);
    }
  }

  lemma {:induction false} ValueBound(s: string, base: nat)
    requires 1 <= base && AllDigits(s, base)
    ensures Value(s, base) < Pow(base, |s|)
  {
    if s != [] {
      var p := s[..|s| - 1];
      ValueBound(p, base);
      var v, d, P := Value(p, base), DigitValue(s[|s| - 1]), Pow(base, |p|);
      assert Pow(base, |s|) == base * P;
      MulMono(v + 1, P, base);
      assert d < base;
      Distrib(v, 1, base);
    }
  }

  /** Zero padding does not change the number a rendering denotes. */
  lemma ValuePadded(n: nat, width: nat, upper: bool)
    ensures AllDigits(HexPad(n, width, upper), 16)
    ensures Value(HexPad(n, width, upper), 16) == n
  {
    var h := Hex(n, upper);
    if |h| < width {
      var z := seq(width - |h|, _ => '0');
      assert AllDigits(z, 16);
      ValueConcat(z, h, 16);
      ValueZeros(z, 16);
    }
  }

  /** A number below `base^d` takes at most `d` digits. */
  lemma {:induction false} NumeralLength(n: nat, base: nat, d: nat, upper: bool)
    requires 2 <= base <= 16 && d >= 1 && n < Pow(base, d)
    ensures |Numeral(n, base, upper)| <= d
    decreases d
  {
    if n >= base {
      DivMod(n, base);
      var q, P := n / base, Pow(base, d - 1);
      assert d >= 2;
      assert Pow(base, d) == base * P;
      assert q < P by {
        if q >= P {
          MulMono(P, q, base);
        }
      }
      NumeralLength(q, base, d - 1, upper);
    }
  }

  /** `%0*X` with `2*width` digits renders a `width`-byte word in exactly that many digits. */
  lemma HexPadLength(n: nat, digits: nat, upper: bool)
    requires digits >= 1 && n < Pow(16, digits)
    ensures |HexPad(n, digits, upper)| == digits
  {
    NumeralLength(n, 16, digits, upper);
  }

  // ---------------------------------------------------------------------
  // Python's int(s, 0), for the literals the fuse encoders produce and read

  predicate AllZeroChars(s: string) { forall i :: 0 <= i < |s| ==> s[i] == '0' }

  /**
   * `int(s, 0)` on a prefixed hexadecimal literal (`0x1f`, `0XA`) or a
   * decimal literal without leading zeros (`0`, `00` and `58` are accepted,
   * `058` is not); every other string is the `ValueError` case (None).
   */
  function ParseInt0(s: string): (r: Option<nat>)
    ensures r.Some? && |s| >= 2 && s[0] == '0' && (s[1] == 'x' || s[1] == 'X') ==>
              AllDigits(s[2..], 16) && r.value == Value(s[2..], 16)
    ensures r.Some? && !(|s| >= 2 && s[0] == '0' && (s[1] == 'x' || s[1] == 'X')) ==>
              AllDigits(s, 10) && r.value == Value(s, 10)
    ensures r.Some? ==> |s| >= 1
  {
    if |s| >= 2 && s[0] == '0' && (s[1] == 'x' || s[1] == 'X') then
      if |s| > 2 && AllDigits(s[2..], 16) then Some(Value(s[2..], 16)) else None
    else if |s| >= 1 && AllDigits(s, 10) && (s[0] != '0' || AllZeroChars(s)) then Some(Value(s, 10))
    else None
  }

  /** `str(n)` reads back through `int(..., 0)`. */
  lemma ParseDec(n: nat)
    ensures ParseInt0(Dec(n)) == Some(n)
  {
    var s := Dec(n);
    if |s| >= 2 {
      assert !IsHexChar('x') && !IsHexChar('X');
      assert s[1] != 'x' && s[1] != 'X' by { assert IsHexChar(s[1]); }
    }
  }

  /** `'0x' + digits` reads back through `int(..., 0)` as the digits' value. */
  lemma ParseHexLiteral(digits: string)
    requires |digits| >= 1 && AllDigits(digits, 16)
    ensures ParseInt0("0x" + digits) == Some(Value(digits, 16))
  {
    assert ("0x" + digits)[2..] == digits;
  }

  // ---------------------------------------------------------------------
  // Files of `<lead><hex><sep><hex>\n` lines

  /** The length of the longest prefix of hexadecimal digits. */
  function HexRun(s: string): (n: nat)
    ensures n <= |s|
    ensures forall i :: 0 <= i < n ==> IsHexChar(s[i])
    ensures n < |s| ==> !IsHexChar(s[n])
  {
    if s == [] || !IsHexChar(s[0]) then 0 else 1 + HexRun(s[1..])
  }

  /** The two fields of one line, as text. */
  datatype Fields = Fields(left: string, right: string)

  predicate WellFormed(f: Fields)
  {
    |f.left| >= 1 && |f.right| >= 1 && AllDigits(f.left, 16) && AllDigits(f.right, 16)
  }

  function RenderLine(lead: string, sep: char, f: Fields): string
  {
    lead + f.left + [sep] + f.right + "\n"
  }

  function Render(lead: string, sep: char, fs: seq<Fields>): string
  {
    if fs == [] then "" else RenderLine(lead, sep, fs[0]) + Render(lead, sep, fs[1..])
  }

  lemma {:induction false} RenderAppend(lead: string, sep: char, fs: seq<Fields>, f: Fields)
    ensures Render(lead, sep, fs + [f]) == Render(lead, sep, fs) + RenderLine(lead, sep, f)
  {
    if fs == [] {
      assert Render(lead, sep, [f][1..]) == "";
    } else {
      assert (fs + [f])[1..] == fs[1..] + [f];
      RenderAppend(lead, sep, fs[1..], f);
    }
  }

  /** The numbers a line's fields denote. */
  function Denoted(fs: seq<Fields>): (r: seq<(nat, nat)>)
    requires forall i :: 0 <= i < |fs| ==> WellFormed(fs[i])
    ensures |r| == |fs|
    ensures forall i :: 0 <= i < |fs| ==> r[i] == (Value(fs[i].left, 16), Value(fs[i].right, 16))
  {
    if fs == [] then [] else [(Value(fs[0].left, 16), Value(fs[0].right, 16))] + Denoted(fs[1..])
  }

  /** Reads a run of digits ended by `stop`: its value and the text after `stop`. */
  function ParseField(t: string, stop: char): (r: Option<(nat, string)>)
    ensures r.Some? ==> |r.value.1| < |t|
  {
    var i := HexRun(t);
    if i == 0 || i == |t| || t[i] != stop then None else Some((Value(t[..i], 16), t[i + 1..]))
  }

  /**
   * Reads one `<lead><hex><sep><hex>\n` line at the start of `s`: the two
   * numbers and the text after the line.
   */
  function ParseOne(s: string, lead: string, sep: char): (r: Option<((nat, nat), string)>)
    ensures r.Some? ==> |r.value.1| < |s|
  {
    if !(|lead| <= |s| && s[..|lead|] == lead) then None
    else
      match ParseField(s[|lead|..], sep)
      case None => None
      case Some((a, u)) =>
        match ParseField(u, '\n')
        case None => None
        case Some((b, rest)) => Some(((a, b), rest))
  }

  /** Reads a file of such lines back into number pairs. */
  function ParseLines(s: string, lead: string, sep: char): Option<seq<(nat, nat)>>
    decreases |s|
  {
    if s == [] then Some([])
    else
      match ParseOne(s, lead, sep)
      case None => None
      case Some((pair, rest)) =>
        match ParseLines(rest, lead, sep)
        case None => None
        case Some(tail) => Some([pair] + tail)
  }

  /** Rendering then parsing gives back the numbers each line denotes. */
  lemma {:induction false} ParseRender(lead: string, sep: char, fs: seq<Fields>)
    requires !IsHexChar(sep) && sep != '\n'
    requires forall i :: 0 <= i < |fs| ==> WellFormed(fs[i])
    ensures ParseLines(Render(lead, sep, fs), lead, sep) == Some(Denoted(fs))
  {
    if fs != [] {
      var rest := Render(lead, sep, fs[1..]);
      ParseRender(lead, sep, fs[1..]);
      ParseLine(lead, sep, fs[0], rest);
      assert Render(lead, sep, fs) == RenderLine(lead, sep, fs[0]) + rest;
    }
  }

  /** One well-formed line is read as its two numbers, followed by the rest of the text. */
  lemma ParseLine(lead: string, sep: char, f: Fields, rest: string)
    requires !IsHexChar(sep) && sep != '\n' && WellFormed(f)
    ensures ParseOne(RenderLine(lead, sep, f) + rest, lead, sep) ==
              Some(((Value(f.left, 16), Value(f.right, 16)), rest))
  {
    var s := RenderLine(lead, sep, f) + rest;
    var u := f.right + ("\n" + rest);
    var t := f.left + ([sep] + u);
    assert s == lead + t;
    assert s[..|lead|] == lead && s[|lead|..] == t;
    FieldThen(f.left, sep, u);
    FieldThen(f.right, '\n', rest);
  }

  /** A run of digits followed by a non-digit `c` reads as its value, up to `c`. */
  lemma FieldThen(digits: string, c: char, rest: string)
    requires |digits| >= 1 && AllDigits(digits, 16) && !IsHexChar(c)
    ensures ParseField(digits + ([c] + rest), c) == Some((Value(digits, 16), rest))
  {
    var t := digits + ([c] + rest);
    assert forall i :: 0 <= i < |digits| ==> t[i] == digits[i] && IsDigit(digits[i], 16);
    assert t[|digits|] == c;
    assert t[..|digits|] == digits;
    assert t[|digits| + 1..] == rest;
  }
}
