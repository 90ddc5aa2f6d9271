// printer.c: packing pixels into a one-bit bitmap, and scaling its bytes for
// the printer.

module Bitmap {
  import opened Octets
  import opened Radix
  import opened RowBits

  // ----- make1bitBitmap -----

  function RowBytes(width: nat): nat {
    (width + 7) / 8
  }

  function PadBits(width: nat): (n: nat)
    ensures n < 8 && width + n == 8 * RowBytes(width)
  {
    8 * RowBytes(width) - width
  }

  // Where the pixel of row r and column c starts.
  function PixelIndex(width: nat, bytesPerPixel: nat, r: nat, c: nat): nat {
    r * bytesPerPixel * width + c * bytesPerPixel
  }

  function IsBlack(x: bv8, mask: bv8): nat {
    if x & mask != 0 then 1 else 0
  }

  // Every pixel has its bytes in the input.
  ghost predicate HasPixels(input: seq<bv8>, width: nat, height: nat, bytesPerPixel: nat) {
    forall r: nat, c: nat :: r < height && c < width ==> PixelIndex(width, bytesPerPixel, r, c) < |input|
  }

  ghost function PixelRow(input: seq<bv8>, width: nat, height: nat, bytesPerPixel: nat, mask: bv8, r: nat,
      n: nat): (s: seq<int>)
    requires HasPixels(input, width, height, bytesPerPixel) && r < height && n <= width
    ensures |s| == n
  {
    seq(n, c requires 0 <= c < n => IsBlack(input[PixelIndex(width, bytesPerPixel, r, c)], mask))
  }

  // The rows, each padded with zeros to a whole byte.
  ghost function Image(input: seq<bv8>, width: nat, height: nat, bytesPerPixel: nat, mask: bv8, n: nat): (s: seq<int>)
    requires HasPixels(input, width, height, bytesPerPixel) && n <= height
    ensures |s| == n * (8 * RowBytes(width))
  {
    if n == 0 then []
    else
      MulStep(n, 8 * RowBytes(width));
      Image(input, width, height, bytesPerPixel, mask, n - 1)
      + (PixelRow(input, width, height, bytesPerPixel, mask, n - 1, width) + Zeros(PadBits(width)))
  }

  lemma PixelPlace(width: nat, bytesPerPixel: nat, r: nat, c: nat)
    ensures PixelIndex(width, bytesPerPixel, r, c) == (r * width + c) * bytesPerPixel
  {
    MulAssociates(r, bytesPerPixel, width);
    MulAssociates(r, width, bytesPerPixel);
    MulDistributes(r * width, c, bytesPerPixel);
  }

  // The bit of pixel (r, c), and the padding after the last one of a row.
  lemma {:induction false} ImageBit(input: seq<bv8>, width: nat, height: nat, bytesPerPixel: nat, mask: bv8, n: nat,
      r: nat, c: nat)
    requires HasPixels(input, width, height, bytesPerPixel) && r < n <= height && c < 8 * RowBytes(width)
    ensures 0 <= r * (8 * RowBytes(width)) + c < |Image(input, width, height, bytesPerPixel, mask, n)|
    ensures c < width ==> 0 <= (r * width + c) * bytesPerPixel < |input|
    ensures Image(input, width, height, bytesPerPixel, mask, n)[r * (8 * RowBytes(width)) + c]
            == if c < width && input[(r * width + c) * bytesPerPixel] & mask != 0 then 1 else 0
    decreases n
  {
    PixelPlace(width, bytesPerPixel, r, c);
    hide RowBytes, PixelIndex;
    MulStep(n, 8 * RowBytes(width));
    MulStep(r + 1, 8 * RowBytes(width));
    if r < n - 1 {
      ImageBit(input, width, height, bytesPerPixel, mask, n - 1, r, c);
    }
  }

  lemma ByteOfPixel(width: nat, height: nat, r: nat, c: nat, size: nat)
    requires r < height && c / 8 < RowBytes(width) && 8 * size == height * (8 * RowBytes(width))
    ensures size == height * RowBytes(width)
    ensures 0 <= r * RowBytes(width) + c / 8 < size
    ensures 8 * (r * RowBytes(width) + c / 8) + c % 8 == r * (8 * RowBytes(width)) + c
  {
    var w := RowBytes(width);
    hide RowBytes;
    MulMonotone(r + 1, height, w);
    MulDistributes(r, 1, w);
    MulMonotone(0, r, w);
    MulAssociates(r, 8, w);
    MulAssociates(height, 8, w);
  }

  // The same in the bytes of the packed image: a row takes a byte for every
  // eight pixels begun, and the pixels run from the most significant bit on.
  lemma PackedPixel(out: seq<byte>, input: seq<bv8>, width: nat, height: nat, bytesPerPixel: nat, mask: bv8, r: nat,
      c: nat)
    requires HasPixels(input, width, height, bytesPerPixel) && r < height && c / 8 < RowBytes(width)
    requires Bits(out) == Image(input, width, height, bytesPerPixel, mask, height)
    ensures 0 <= r * RowBytes(width) + c / 8 < |out| == height * RowBytes(width)
    ensures c < width ==> 0 <= (r * width + c) * bytesPerPixel < |input|
    ensures out[r * RowBytes(width) + c / 8] / BitWeight(c % 8) % 2
            == if c < width && input[(r * width + c) * bytesPerPixel] & mask != 0 then 1 else 0
  {
    hide Bits, Image, HasPixels, PixelIndex, BitWeight, RowBytes;
    ByteOfPixel(width, height, r, c, |out|);
    ImageBit(input, width, height, bytesPerPixel, mask, height, r, c);
    BitIs(out, r * RowBytes(width) + c / 8, c % 8);
  }

  lemma BitFits(out: seq<byte>, D: seq<int>, b: nat)
    requires Holds(out, D) && |D| < 8 * |out| && b <= 1
    ensures out[|D| / 8] + Shl(b, 7 - |D| % 8) < 256
  {
    hide Pow, Bits, Digits, Shl, Holds;
    HoldsInside(out, D);
    AddBit(out[|D| / 8], |D| % 8, b);
  }

  // One more bit, most significant first.
  lemma BitHolds(out: seq<byte>, D: seq<int>, b: nat, out': seq<byte>)
    requires b <= 1 && |D| < 8 * |out| && Holds(out, D)
    requires |out'| == |out| && out'[|D| / 8] == out[|D| / 8] + Shl(b, 7 - |D| % 8)
    requires forall i :: 0 <= i < |out| && i != |D| / 8 ==> out'[i] == out[i]
    ensures Holds(out', D + [b])
  {
    hide Pow, Bits, Digits, Shl;
    Pow2Values();
    var q, bit := |D| / 8, |D| % 8;
    AddBit(out[q], bit, b);
    assert out'[..q] == out[..q];
    if bit < 7 {
      assert |D + [b]| / 8 == q && |D + [b]| % 8 == bit + 1;
    } else {
      assert |D + [b]| == 8 * (q + 1);
      BitsLast(out', q);
      assert Digits(2, out'[q], 8)[..8] == Digits(2, out'[q], 8);
      HoldsAtByte(out', D + [b], q + 1);
    }
  }

  lemma AddBit(x: byte, bit: nat, b: nat)
    requires bit < 8 && x % Pow(2, 8 - bit) == 0 && b <= 1
    ensures var v := x + Shl(b, 7 - bit);
            v < 256 && v % Pow(2, 7 - bit) == 0 && Digits(2, v, 8)[..bit + 1] == Digits(2, x, 8)[..bit] + [b]
  {
    hide Digits, Value, Pow, Shl, Zeros;
    var m := Pow(2, 7 - bit);
    Room(x, bit);
    PowTwice(7 - bit);
    TrailingZeros(x, 8, 8 - bit);
    var hi := Digits(2, x, 8)[..bit];
    DigitsOfValue(2, hi);
    RaisedByBit(x, Value(2, hi), b, 7 - bit);
    var v := x + Shl(b, 7 - bit);
    TrailingZeros(v, 8, 7 - bit);
    var hi' := Digits(2, v, 8)[..bit + 1];
    SameFactor(Value(2, hi'), Value(2, hi) * 2 + b, m);
    ValueSnoc(2, hi, b);
    EqualValues(hi', hi + [b]);
  }

  lemma RaisedByBit(x: nat, h: nat, b: nat, k: nat)
    requires h * Pow(2, k + 1) == x && b <= 1 && Pow(2, k + 1) == 2 * Pow(2, k) && x + Pow(2, k) < 256
    ensures var v := x + Shl(b, k);
            v < 256 && v == (h * 2 + b) * Pow(2, k) && v % Pow(2, k) == 0
  {
    var m := Pow(2, k);
    hide Pow;
    ShlBit(b, k);
    assert h * (2 * m) == h * 2 * m;
    MulDistributes(h * 2, b, m);
    DivModOfSum(h * 2 + b, m, 0);
  }

  lemma PowTwice(n: nat)
    ensures Pow(2, n + 1) == 2 * Pow(2, n)
  {}

  lemma SameFactor(a: int, b: int, m: int)
    requires m > 0 && a * m == b * m
    ensures a == b
  {
    if a < b { MulMonotone(a + 1, b, m); assert false; }
    else if b < a { MulMonotone(b + 1, a, m); assert false; }
  }

  lemma Room(x: byte, bit: nat)
    requires bit < 8 && x % Pow(2, 8 - bit) == 0
    ensures x + Pow(2, 7 - bit) < 256 && Pow(2, 8) == 256
  {
    hide Pow;
    Pow2Values();
  }

  method Make1bitBitmap(output: array<byte>, input: seq<bv8>, width: nat, height: nat, bytesPerPixel: nat, mask: bv8)
    requires bytesPerPixel > 0 && HasPixels(input, width, height, bytesPerPixel)
    requires height * RowBytes(width) <= output.Length
    requires forall i :: 0 <= i < output.Length ==> output[i] == 0
    modifies output
    ensures Bits(output[..height * RowBytes(width)]) == Image(input, width, height, bytesPerPixel, mask, height)
    ensures forall i :: height * RowBytes(width) <= i < output.Length ==> output[i] == 0
  {
    hide Bits, PixelRow, HasPixels, RowBytes, Pow, Image, Holds, Zeros;
    var whatByte, whatBit, i := 0, 0, 0;
    ghost var r := 0;
    HoldsAtByte(output[..], [], 0);
    NoRows(input, width, height, bytesPerPixel, mask);
    while i < height * bytesPerPixel
      invariant r <= height && i == r * bytesPerPixel
      invariant whatByte == r * RowBytes(width) && whatBit == 0
      invariant Holds(output[..], Image(input, width, height, bytesPerPixel, mask, r))
      decreases height - r
    {
      BelowLimit(r, height, bytesPerPixel);
      MulStep(r + 1, RowBytes(width));
      MulStep(r + 1, bytesPerPixel);
      MulMonotone(r + 1, height, RowBytes(width));
      whatByte, whatBit := PackPaddedRow(output, input, width, height, bytesPerPixel, mask, r, i, whatByte);
      i := i + bytesPerPixel;
      r := r + 1;
    }
    BelowLimit(r, height, bytesPerPixel);
    ImageLength(input, width, height, bytesPerPixel, mask, height);
    WholeImage(output[..], Image(input, width, height, bytesPerPixel, mask, height), height * RowBytes(width));
    assert output[..][..height * RowBytes(width)] == output[..height * RowBytes(width)];
  }

  lemma WholeImage(out: seq<byte>, D: seq<int>, n: nat)
    requires Holds(out, D) && n <= |out| && |D| == 8 * n
    ensures Bits(out[..n]) == D && forall j :: n <= j < |out| ==> out[j] == 0
  {
    HoldsAtByte(out, D, n);
  }

  // One row, padding included.
  method PackPaddedRow(output: array<byte>, input: seq<bv8>, width: nat, height: nat, bytesPerPixel: nat, mask: bv8,
      ghost r: nat, i: nat, whatByte0: nat)
    returns (whatByte: nat, whatBit: nat)
    requires bytesPerPixel > 0 && HasPixels(input, width, height, bytesPerPixel) && r < height && i == r * bytesPerPixel
    requires whatByte0 == r * RowBytes(width) && whatByte0 + RowBytes(width) <= output.Length
    requires Holds(output[..], Image(input, width, height, bytesPerPixel, mask, r))
    modifies output
    ensures whatByte == whatByte0 + RowBytes(width) && whatBit == 0
    ensures Holds(output[..], Image(input, width, height, bytesPerPixel, mask, r + 1))
  {
    hide Bits, PixelRow, HasPixels, RowBytes, Pow, Image, Holds, Zeros;
    ImageSnoc(input, width, height, bytesPerPixel, mask, r);
    ghost var D := Image(input, width, height, bytesPerPixel, mask, r);
    whatByte, whatBit := PackRow(output, input, width, height, bytesPerPixel, mask, r, i, whatByte0, D);
    PadHolds(output[..], D + PixelRow(input, width, height, bytesPerPixel, mask, r, width), PadBits(width));
  }

  lemma BelowLimit(r: nat, height: nat, step: nat)
    requires step > 0
    ensures r * step < height * step <==> r < height
  {
    if r < height { MulMonotone(r + 1, height, step); } else { MulMonotone(height, r, step); }
  }

  lemma NoRows(input: seq<bv8>, width: nat, height: nat, bytesPerPixel: nat, mask: bv8)
    requires HasPixels(input, width, height, bytesPerPixel)
    ensures Image(input, width, height, bytesPerPixel, mask, 0) == []
  {}

  lemma ImageLength(input: seq<bv8>, width: nat, height: nat, bytesPerPixel: nat, mask: bv8, r: nat)
    requires HasPixels(input, width, height, bytesPerPixel) && r <= height
    ensures |Image(input, width, height, bytesPerPixel, mask, r)| == 8 * (r * RowBytes(width))
  {
    hide Image, RowBytes, HasPixels;
    assert r * (8 * RowBytes(width)) == 8 * (r * RowBytes(width));
  }

  lemma ImageSnoc(input: seq<bv8>, width: nat, height: nat, bytesPerPixel: nat, mask: bv8, r: nat)
    requires HasPixels(input, width, height, bytesPerPixel) && r < height
    ensures Image(input, width, height, bytesPerPixel, mask, r + 1)
            == Image(input, width, height, bytesPerPixel, mask, r)
               + PixelRow(input, width, height, bytesPerPixel, mask, r, width) + Zeros(PadBits(width))
    ensures |Image(input, width, height, bytesPerPixel, mask, r)| == 8 * (r * RowBytes(width))
    ensures |Image(input, width, height, bytesPerPixel, mask, r + 1)| == 8 * ((r + 1) * RowBytes(width))
    ensures width + PadBits(width) == 8 * RowBytes(width)
  {
    hide PixelRow, HasPixels, RowBytes, Zeros;
    ImageLength(input, width, height, bytesPerPixel, mask, r);
    ImageLength(input, width, height, bytesPerPixel, mask, r + 1);
    var a, b, c := Image(input, width, height, bytesPerPixel, mask, r),
                   PixelRow(input, width, height, bytesPerPixel, mask, r, width), Zeros(PadBits(width));
    assert a + (b + c) == a + b + c;
  }

  // One row of pixels: a bit each, and on to the next byte at its end.
  method PackRow(output: array<byte>, input: seq<bv8>, width: nat, height: nat, bytesPerPixel: nat, mask: bv8,
      ghost r: nat, i: nat, whatByte0: nat, ghost D: seq<int>)
    returns (whatByte: nat, whatBit: nat)
    requires bytesPerPixel > 0 && HasPixels(input, width, height, bytesPerPixel) && r < height && i == r * bytesPerPixel
    requires Holds(output[..], D) && |D| == 8 * whatByte0 && whatByte0 + RowBytes(width) <= output.Length
    modifies output
    ensures whatByte == whatByte0 + RowBytes(width) && whatBit == 0
    ensures Holds(output[..], D + PixelRow(input, width, height, bytesPerPixel, mask, r, width))
  {
    hide Holds, PixelRow, IsBlack, Pow, Shl, HasPixels;
    whatByte, whatBit := whatByte0, 0;
    var j := 0;
    ghost var c := 0;
    NoPixels(input, width, height, bytesPerPixel, mask, r);
    assert D + [] == D;
    while j < width * bytesPerPixel
      invariant c <= width && j == c * bytesPerPixel
      invariant whatBit < 8 && whatByte * 8 + whatBit == |D| + c
      invariant Holds(output[..], D + PixelRow(input, width, height, bytesPerPixel, mask, r, c))
      decreases width - c
    {
      BelowLimit(c, width, bytesPerPixel);
      ghost var S := D + PixelRow(input, width, height, bytesPerPixel, mask, r, c);
      ghost var was := output[..];
      PixelInside(input, width, height, bytesPerPixel, r, c);
      ghost var b := IsBlack(input[PixelIndex(width, bytesPerPixel, r, c)], mask);
      BlackIsBit(input[PixelIndex(width, bytesPerPixel, r, c)], mask);
      BitFits(was, S, b);
      OnePixel(input, width, height, bytesPerPixel, mask, r, c);
      assert |S| / 8 == whatByte && |S| % 8 == whatBit;
      if input[i * width + j] & mask != 0 {
        output[whatByte] := output[whatByte] + Shl(1, 7 - whatBit);
      }
      ShlBit(b, 7 - whatBit);
      BitHolds(was, S, b, output[..]);
      assert S + [b] == D + PixelRow(input, width, height, bytesPerPixel, mask, r, c + 1);
      whatBit := whatBit + 1;
      if whatBit % 8 == 0 {
        whatBit := 0;
        whatByte := whatByte + 1;
      }
      j := j + bytesPerPixel;
      c := c + 1;
      MulStep(c, bytesPerPixel);
    }
    BelowLimit(c, width, bytesPerPixel);
    if whatBit % 8 != 0 {
      whatByte := whatByte + 1;
    }
    whatBit := 0;
  }

  lemma PixelInside(input: seq<bv8>, width: nat, height: nat, bytesPerPixel: nat, r: nat, c: nat)
    requires HasPixels(input, width, height, bytesPerPixel) && r < height && c < width
    ensures PixelIndex(width, bytesPerPixel, r, c) < |input|
  {}

  lemma NoPixels(input: seq<bv8>, width: nat, height: nat, bytesPerPixel: nat, mask: bv8, r: nat)
    requires HasPixels(input, width, height, bytesPerPixel) && r < height
    ensures PixelRow(input, width, height, bytesPerPixel, mask, r, 0) == []
  {}

  lemma OnePixel(input: seq<bv8>, width: nat, height: nat, bytesPerPixel: nat, mask: bv8, r: nat, c: nat)
    requires HasPixels(input, width, height, bytesPerPixel) && r < height && c < width
    ensures PixelRow(input, width, height, bytesPerPixel, mask, r, c + 1)
            == PixelRow(input, width, height, bytesPerPixel, mask, r, c)
               + [IsBlack(input[PixelIndex(width, bytesPerPixel, r, c)], mask)]
  {}

  lemma BlackIsBit(x: bv8, mask: bv8)
    ensures 0 <= IsBlack(x, mask) <= 1 && (IsBlack(x, mask) == 1 <==> x & mask != 0)
  {}
}
