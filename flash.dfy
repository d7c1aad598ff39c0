/**
 * The flash stimulus file of the RTL runner: one `@AAAAAAAA VV` line per
 * byte of the flash image, the address counting up from 0, both fields in
 * lower-case hexadecimal (`%8.8x`, `%2.2x`).
 */
module Flash {
  import opened Wrappers
  import opened Numerals
  import opened LittleEndian

  /** The fields of the line for byte `b` at address `addr`. */
  function FlashField(addr: nat, b: Byte): Fields
  {
    Fields(HexPad(addr, 8, false), HexPad(b, 2, false))
  }

  /** The fields of every line of the image, in byte order: line `i` stands for byte `i`. */
  function FlashFields(image: seq<Byte>): (fs: seq<Fields>)
    ensures |fs| == |image|
  {
    seq(|image|, i requires 0 <= i < |image| => FlashField(i, image[i]))
  }

  /** The text the runner writes for the image. */
  function FlashText(image: seq<Byte>): string
  {
    Render("@", ' ', FlashFields(image))
  }

  /** The generation loop, one line and one address step per byte read. */
  method GenFlashStimuli(image: seq<Byte>) returns (text: string)
    ensures text == FlashText(image)
  {
    text := "";
    var addr := 0;
    while addr < |image|
      invariant 0 <= addr <= |image|
      invariant text == Render("@", ' ', FlashFields(image[..addr]))
    {
      var b := image[addr];
      FlashFieldsSnoc(image, addr);
      RenderAppend("@", ' ', FlashFields(image[..addr]), FlashField(addr, b));
      var line := "@" + HexPad(addr, 8, false) + " " + HexPad(b, 2, false) + "\n";
      assert line == RenderLine("@", ' ', FlashField(addr, b));
      text := text + line;
      addr := addr + 1;
    }
    assert image[..addr] == image;
  }

  lemma FlashFieldsSnoc(image: seq<Byte>, i: nat)
    requires i < |image|
    ensures FlashFields(image[..i + 1]) == FlashFields(image[..i]) + [FlashField(i, image[i])]
  {
    assert image[..i + 1][..i] == image[..i];
  }

  /**
   * Reading the text back gives, line by line, each byte's address and
   * value: one line per byte, in image order, addresses 0, 1, 2, ...
   */
  lemma FlashRoundTrip(image: seq<Byte>)
    ensures ParseLines(FlashText(image), "@", ' ') == Some(seq(|image|, i requires 0 <= i < |image| => (i, image[i])))
  {
    var fs := FlashFields(image);
    forall i | 0 <= i < |fs|
      ensures WellFormed(fs[i])
      ensures Value(fs[i].left, 16) == i && Value(fs[i].right, 16) == image[i]
    {
      ValuePadded(i, 8, false);
      ValuePadded(image[i], 2, false);
    }
    assert !IsHexChar(' ');
    ParseRender("@", ' ', fs);
    var d, p := Denoted(fs), seq(|image|, i requires 0 <= i < |image| => (i, image[i]));
    assert d == p;
  }

  /** Below 4 GiB every line is 13 characters long: `@`, 8 digits, a space, 2 digits, a newline. */
  lemma {:induction false} FlashTextLength(image: seq<Byte>)
    requires |image| <= Pow(16, 8)
    ensures |FlashText(image)| == 13 * |image|
    decreases |image|
  {
    if image != [] {
      var n := |image| - 1;
      FlashTextLength(image[..n]);
      FlashFieldsSnoc(image, n);
      assert image[..n + 1] == image;
      RenderAppend("@", ' ', FlashFields(image[..n]), FlashField(n, image[n]));
      HexPadLength(n, 8, false);
      assert (image[n]) < Pow(16, 2);
      HexPadLength(image[n], 2, false);
    }
  }
}
