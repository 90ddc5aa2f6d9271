// printBitmap of printer.c: the lines of dots sent to the printer, 48 bytes
// of bitmap wide before scaling.

module Printing {
  import opened Octets
  import opened Radix
  import opened RowBits
  import opened Scaling
  import opened Bitmap

  const PRINTER_BYTES := 48

  // The bytes of one bitmap row, filled up with zeros.
  function FullRow(row: seq<byte>): (r: seq<byte>)
    requires |row| <= PRINTER_BYTES
    ensures |r| == PRINTER_BYTES
  {
    row + seq(PRINTER_BYTES - |row|, _ => 0)
  }

  // ----- Zeros stay zeros -----

  lemma {:induction false} ZeroDigitsOfZero(w: nat)
    ensures Digits(2, 0, w) == Zeros(w)
    decreases w
  {
    if w > 0 {
      ZeroDigitsOfZero(w - 1);
      DigitsStep(2, 0, w);
    }
  }

  lemma {:induction false} BitsOfZeros(n: nat)
    ensures Bits(seq(n, _ => 0)) == Zeros(8 * n)
    decreases n
  {
    hide Digits;
    if n > 0 {
      var z: seq<byte> := seq(n, _ => 0);
      BitsOfZeros(n - 1);
      assert z[..n - 1] == seq(n - 1, _ => 0);
      ZeroDigitsOfZero(8);
    }
  }

  lemma ScaledZero(scale: nat)
    ensures ScaledBits(0, scale) == Zeros(8 * scale)
  {
    forall x: nat | x < 8 * scale ensures ScaledBits(0, scale)[x] == 0 {
      ScaledBit(0, scale, x);
      ZeroDigitsOfZero(8);
    }
  }

  // ----- What is printed -----

  // Dot x of a printed line is module x / scale of the bitmap row, and blank
  // from the end of the row on.
  lemma PrintedDot(row: seq<byte>, scale: nat, x: nat)
    requires scale > 0 && |row| <= 48 && x < 384 * scale
    ensures x / scale >= 0
    ensures ScaledRow(FullRow(row), scale)[x] == if x / scale < 8 * |row| then Bits(row)[x / scale] else 0
  {
    hide Bits, ScaledRow;
    var blank: seq<byte> := seq(PRINTER_BYTES - |row|, _ => 0);
    ScaledDot(FullRow(row), scale, x);
    BitsAppend(row, blank);
    BitsOfZeros(PRINTER_BYTES - |row|);
  }

  // ----- The code -----

  // The bytes of one byte of bitmap, or as many blanks.
  method SendByte(newBytes: array<byte>, blank: bool, sent0: seq<byte>) returns (sent: seq<byte>)
    ensures sent == sent0 + if blank then seq(newBytes.Length, _ => 0) else newBytes[..]
  {
    sent := sent0;
    for l := 0 to newBytes.Length
      invariant sent == sent0 + if blank then seq(l, _ => 0) else newBytes[..l]
    {
      sent := sent + [if blank then 0 else newBytes[l]];
    }
    assert newBytes[..newBytes.Length] == newBytes[..];
  }

  // One line: every byte of the row scaled, then blanks.
  method SendLine(row: seq<byte>, scale: nat) returns (sent: seq<byte>)
    requires |row| <= PRINTER_BYTES
    ensures Bits(sent) == ScaledRow(FullRow(row), scale)
  {
    hide Bits, ScaledRow, ScaledBits;
    sent := [];
    ghost var full := FullRow(row);
    NothingSent(scale);
    assert full[..0] == [];
    for k := 0 to PRINTER_BYTES
      invariant Bits(sent) == ScaledRow(full[..k], scale)
    {
      ghost var was := sent;
      var newBytes := new byte[scale];
      if k < |row| {
        ScaleByte(newBytes, row[k], scale);
      } else {
        ScaledZero(scale);
        BitsOfZeros(scale);
      }
      sent := SendByte(newBytes, k >= |row|, sent);
      ghost var chunk: seq<byte> := if k >= |row| then seq(scale, _ => 0) else newBytes[..];
      BitsAppend(was, chunk);
      OneByteMore(full, k, scale);
    }
    assert full[..PRINTER_BYTES] == full;
  }

  lemma NothingSent(scale: nat)
    ensures Bits([]) == [] && ScaledRow([], scale) == []
  {}

  lemma OneByteMore(full: seq<byte>, k: nat, scale: nat)
    requires k < |full|
    ensures ScaledRow(full[..k + 1], scale) == ScaledRow(full[..k], scale) + ScaledBits(full[k], scale)
  {
    hide ScaledBits;
    assert full[..k + 1][..k] == full[..k];
  }

  // The image fits the printer.
  predicate Fits(columns: nat, scale: nat) {
    scale > 0 && scale * RowBytes(columns) <= PRINTER_BYTES
  }

  lemma RowFits(columns: nat, scale: nat)
    requires Fits(columns, scale)
    ensures RowBytes(columns) <= PRINTER_BYTES
  {
    hide RowBytes;
    MulMonotone(1, scale, RowBytes(columns));
  }

  lemma RowInside(rows: nat, width: nat, i: nat)
    requires i < rows
    ensures 0 <= i * width && i * width + width <= rows * width
  {
    MulMonotone(i + 1, rows, width);
    MulMonotone(0, i, width);
    MulDistributes(i, 1, width);
  }

  function RowAt(input: seq<byte>, rows: nat, columns: nat, i: nat): (row: seq<byte>)
    requires rows * RowBytes(columns) <= |input| && i < rows
    ensures |row| == RowBytes(columns)
  {
    RowInside(rows, RowBytes(columns), i);
    input[i * RowBytes(columns)..i * RowBytes(columns) + RowBytes(columns)]
  }

  // Does a line print row i?
  ghost predicate IsLine(line: seq<byte>, input: seq<byte>, rows: nat, columns: nat, scale: nat, i: nat)
    requires rows * RowBytes(columns) <= |input|
  {
    && i < rows && RowBytes(columns) <= PRINTER_BYTES
    && Bits(line) == ScaledRow(FullRow(RowAt(input, rows, columns, i)), scale)
  }

  // n rows are printed: line y prints row y / scale.
  ghost predicate AreLines(lines: seq<seq<byte>>, input: seq<byte>, rows: nat, columns: nat, scale: nat, n: nat)
    requires rows * RowBytes(columns) <= |input| && scale > 0
  {
    && |lines| == n * scale
    && forall y: nat :: y < |lines| ==> y / scale >= 0 && IsLine(lines[y], input, rows, columns, scale, y / scale)
  }

  // Dot x of line y is module x / scale of row y / scale, and blank from the
  // end of the row on.
  lemma PrintedDots(lines: seq<seq<byte>>, input: seq<byte>, rows: nat, columns: nat, scale: nat, x: nat, y: nat)
    requires rows * RowBytes(columns) <= |input| && Fits(columns, scale)
    requires AreLines(lines, input, rows, columns, scale, rows) && y < |lines| && x < 384 * scale
    ensures x / scale >= 0 && 0 <= y / scale < rows && x < |Bits(lines[y])|
    ensures Bits(lines[y])[x]
            == if x / scale < 8 * RowBytes(columns) then Bits(RowAt(input, rows, columns, y / scale))[x / scale] else 0
  {
    hide Bits, ScaledRow, FullRow, RowAt, RowBytes;
    assert IsLine(lines[y], input, rows, columns, scale, y / scale);
    PrintedDot(RowAt(input, rows, columns, y / scale), scale, x);
  }

  lemma BitOfSlice(s: seq<byte>, a: nat, n: nat, m: nat, k: nat)
    requires a + n <= |s| && m < 8 * n && k == 8 * a + m
    ensures Bits(s)[k] == Bits(s[a..a + n])[m]
  {
    hide Bits;
    assert s == s[..a] + (s[a..a + n] + s[a + n..]);
    BitsAppend(s[..a], s[a..a + n] + s[a + n..]);
    BitsAppend(s[a..a + n], s[a + n..]);
  }

  // Module m of row i of a packed image.
  lemma PixelModule(input: seq<byte>, pixels: seq<bv8>, rows: nat, columns: nat, bytesPerPixel: nat, mask: bv8, i: nat,
      m: nat)
    requires HasPixels(pixels, columns, rows, bytesPerPixel) && |input| == rows * RowBytes(columns)
    requires Bits(input) == Image(pixels, columns, rows, bytesPerPixel, mask, rows)
    requires i < rows && m < 8 * RowBytes(columns)
    ensures m < columns ==> 0 <= (i * columns + m) * bytesPerPixel < |pixels|
    ensures Bits(RowAt(input, rows, columns, i))[m]
            == if m < columns && pixels[(i * columns + m) * bytesPerPixel] & mask != 0 then 1 else 0
  {
    hide Bits, HasPixels, RowAt, Image, PixelIndex, RowBytes;
    var w := RowBytes(columns);
    RowInside(rows, w, i);
    RowAtIs(input, rows, columns, i);
    EightTimes(i, w);
    BitOfSlice(input, i * w, w, m, i * (8 * w) + m);
    ImageBit(pixels, columns, rows, bytesPerPixel, mask, rows, i, m);
  }

  // From pixels to dots: of a packed image, dot x of line y is black exactly
  // when pixel (y / scale, x / scale) is.
  lemma PrintedPixels(lines: seq<seq<byte>>, input: seq<byte>, pixels: seq<bv8>, rows: nat, columns: nat,
      bytesPerPixel: nat, mask: bv8, scale: nat, x: nat, y: nat, i: nat, m: nat)
    requires HasPixels(pixels, columns, rows, bytesPerPixel) && |input| == rows * RowBytes(columns)
    requires Bits(input) == Image(pixels, columns, rows, bytesPerPixel, mask, rows)
    requires Fits(columns, scale) && AreLines(lines, input, rows, columns, scale, rows)
    requires y < |lines| && x < 384 * scale && i == y / scale && m == x / scale
    ensures i < rows && x < |Bits(lines[y])|
    ensures m < columns ==> 0 <= (i * columns + m) * bytesPerPixel < |pixels|
    ensures Bits(lines[y])[x] == if m < columns && pixels[(i * columns + m) * bytesPerPixel] & mask != 0 then 1 else 0
  {
    assert columns <= 8 * RowBytes(columns);
    hide Bits, HasPixels, AreLines, RowAt, Image, PixelIndex, RowBytes, Fits, IsLine, FullRow;
    PrintedDots(lines, input, rows, columns, scale, x, y);
    if m < 8 * RowBytes(columns) {
      PixelModule(input, pixels, rows, columns, bytesPerPixel, mask, i, m);
    }
  }

  lemma RowAtIs(input: seq<byte>, rows: nat, columns: nat, i: nat)
    requires rows * RowBytes(columns) <= |input| && i < rows
    ensures var w := RowBytes(columns);
            0 <= i * w && i * w + w <= |input| && RowAt(input, rows, columns, i) == input[i * w..i * w + w]
  {
    RowInside(rows, RowBytes(columns), i);
  }

  // Every row of the bitmap, `scale` times; nothing if the image is too wide.
  method PrintBitmap(input: seq<byte>, rows: nat, columns: nat, scale: nat) returns (lines: seq<seq<byte>>)
    requires rows * RowBytes(columns) <= |input|
    ensures if scale > 0 && scale * ((columns + 7) / 8) <= 48 then AreLines(lines, input, rows, columns, scale, rows)
            else lines == []
  {
    hide IsLine, AreLines;
    lines := [];
    if scale * RowBytes(columns) > PRINTER_BYTES {
      return;
    }
    if Fits(columns, scale) { NoLines(input, rows, columns, scale); }
    for i := 0 to rows
      invariant if Fits(columns, scale) then AreLines(lines, input, rows, columns, scale, i) else lines == []
    {
      lines := PrintRow(lines, input, rows, columns, scale, i);
    }
  }

  // One row of the bitmap.
  method PrintRow(lines0: seq<seq<byte>>, input: seq<byte>, rows: nat, columns: nat, scale: nat, i: nat)
    returns (lines: seq<seq<byte>>)
    requires rows * RowBytes(columns) <= |input| && scale * RowBytes(columns) <= PRINTER_BYTES && i < rows
    requires if Fits(columns, scale) then AreLines(lines0, input, rows, columns, scale, i) else lines0 == []
    ensures if Fits(columns, scale) then AreLines(lines, input, rows, columns, scale, i + 1) else lines == []
  {
    hide RowBytes, RowAt, AreLines, Bits, ScaledRow, FullRow;
    lines := lines0;
    for j := 0 to scale
      invariant lines0 <= lines && |lines| == |lines0| + j
      invariant forall y :: |lines0| <= y < |lines| ==> IsLine(lines[y], input, rows, columns, scale, i)
    {
      RowFits(columns, scale);
      var line := SendLine(RowAt(input, rows, columns, i), scale);
      lines := lines + [line];
    }
    if Fits(columns, scale) { MoreLines(lines0, lines, input, rows, columns, scale, i); }
  }

  lemma NoLines(input: seq<byte>, rows: nat, columns: nat, scale: nat)
    requires rows * RowBytes(columns) <= |input| && scale > 0
    ensures AreLines([], input, rows, columns, scale, 0)
  {}

  lemma MoreLines(was: seq<seq<byte>>, lines: seq<seq<byte>>, input: seq<byte>, rows: nat, columns: nat, scale: nat,
      i: nat)
    requires rows * RowBytes(columns) <= |input| && scale > 0
    requires AreLines(was, input, rows, columns, scale, i)
    requires was <= lines && |lines| == |was| + scale
    requires forall x :: |was| <= x < |lines| ==> IsLine(lines[x], input, rows, columns, scale, i)
    ensures AreLines(lines, input, rows, columns, scale, i + 1)
  {
    hide IsLine, RowBytes;
    MulDistributes(i, 1, scale);
    forall y: nat | y < |lines| ensures y / scale >= 0 && IsLine(lines[y], input, rows, columns, scale, y / scale) {
      if y < |was| {
        assert lines[y] == was[y];
      } else {
        DivModOfSum(i, scale, y - i * scale);
      }
    }
  }
}
