// scaleByte of printer.c: every bit of a byte repeated `scale` times, filled in
// from the last bit of the last byte backwards.

module Scaling {
  import opened Octets
  import opened Radix
  import opened RowBits

  // Bit x of the scaled byte, most significant first.
  function RepeatedBit(oldByte: byte, scale: nat, x: nat): int
    requires x < 8 * scale
  {
    DivBound(x, scale);
    Digits(2, oldByte, 8)[x / scale]
  }

  function ScaledBits(oldByte: byte, scale: nat): (s: seq<int>)
    ensures |s| == 8 * scale
  {
    seq(8 * scale, x requires 0 <= x < 8 * scale => RepeatedBit(oldByte, scale, x))
  }

  lemma DivBound(x: nat, scale: nat)
    requires x < 8 * scale
    ensures 0 <= x / scale < 8
  {
    DivModBounds(x, scale, 8);
  }

  // The last bits are S, and nothing is set before them.
  ghost predicate HoldsLow(out: seq<byte>, S: seq<int>) {
    && |S| <= 8 * |out|
    && var q, bit := |out| - |S| / 8, |S| % 8;
    && (forall i :: 0 <= i < q - 1 ==> out[i] == 0)
    && (q > 0 ==> out[q - 1] < Pow(2, bit))
    && S == (if q > 0 then Digits(2, out[q - 1], 8)[8 - bit..] else []) + Bits(out[q..])
  }

  lemma BitsHead(out: seq<byte>, q: nat)
    requires q < |out|
    ensures Bits(out[q..]) == Digits(2, out[q], 8) + Bits(out[q + 1..])
    decreases |out| - q
  {
    hide Digits;
    BitsAppend([out[q]], out[q + 1..]);
    assert [out[q]] + out[q + 1..] == out[q..];
    assert [out[q]][..0] == [] && Bits([out[q]]) == [] + Digits(2, out[q], 8);
  }

  // Setting bit `bit` above lower ones prepends it to the digits.
  lemma {:induction false} HighBit(x: nat, bit: nat, b: nat, w: nat)
    requires bit < w && x < Pow(2, bit) && b <= 1
    ensures x + Shl(b, bit) < Pow(2, bit + 1)
    ensures Digits(2, x + Shl(b, bit), w)[w - bit - 1..] == [b] + Digits(2, x, w)[w - bit..]
    decreases w
  {
    hide Pow, Shl, Digits;
    var v := x + Shl(b, bit);
    DigitsStep(2, v, w);
    DigitsStep(2, x, w);
    if bit == 0 {
      LowestBit(b);
      assert Digits(2, v, w)[w - 1..] == [v % 2];
    } else {
      HalfOfBit(x, bit, b);
      HighBit(x / 2, bit - 1, b, w - 1);
      var A, B := Digits(2, v / 2, w - 1), Digits(2, x / 2, w - 1);
      assert (A + [v % 2])[w - bit - 1..] == A[w - bit - 1..] + [v % 2];
      assert (B + [x % 2])[w - bit..] == B[w - bit..] + [x % 2];
    }
  }

  lemma LowestBit(b: nat)
    ensures Pow(2, 0) == 1 && Pow(2, 1) == 2 && Shl(b, 0) == b
  {
    assert Pow(2, 1) == 2 * Pow(2, 0);
  }

  lemma HalfOfBit(x: nat, bit: nat, b: nat)
    requires bit > 0 && x < Pow(2, bit) && b <= 1
    ensures x / 2 < Pow(2, bit - 1) && (x + Shl(b, bit)) / 2 == x / 2 + Shl(b, bit - 1)
            && (x + Shl(b, bit)) % 2 == x % 2
    ensures x / 2 + Shl(b, bit - 1) < Pow(2, bit) ==> x + Shl(b, bit) < Pow(2, bit + 1)
  {
    ShlBit(b, bit);
    ShlBit(b, bit - 1);
    assert Pow(2, bit) == 2 * Pow(2, bit - 1) && Pow(2, bit + 1) == 2 * Pow(2, bit);
  }

  lemma OrCommutes(a: nat, b: nat, n: nat)
    ensures Or(a, b, n) == Or(b, a, n)
  {}

  lemma LowInside(out: seq<byte>, S: seq<int>)
    requires HoldsLow(out, S) && |S| < 8 * |out|
    ensures var p, bit := |out| - |S| / 8 - 1, |S| % 8;
            && 0 <= p < |out| && out[p] < Pow(2, bit)
            && S == Digits(2, out[p], 8)[8 - bit..] + Bits(out[p + 1..])
            && forall i :: 0 <= i < p ==> out[i] == 0
  {
    hide Digits, Bits, Pow;
  }

  lemma LowInByte(out: seq<byte>, S: seq<int>, p: nat, bit: nat)
    requires p < |out| && 0 < bit < 8 && |S| == 8 * (|out| - p - 1) + bit
    requires out[p] < Pow(2, bit) && S == Digits(2, out[p], 8)[8 - bit..] + Bits(out[p + 1..])
    requires forall i :: 0 <= i < p ==> out[i] == 0
    ensures HoldsLow(out, S)
  {
    hide Digits, Bits, Pow;
    assert |S| / 8 == |out| - p - 1 && |S| % 8 == bit;
  }

  lemma LowAtByte(out: seq<byte>, S: seq<int>, p: nat)
    requires p <= |out| && S == Bits(out[p..])
    requires forall i :: 0 <= i < p ==> out[i] == 0
    ensures HoldsLow(out, S)
  {
    hide Digits, Bits;
    assert |S| / 8 == |out| - p && |S| % 8 == 0;
    if p > 0 {
      assert Digits(2, out[p - 1], 8)[8..] == [];
    }
  }

  lemma LowFits(out: seq<byte>, S: seq<int>, b: nat)
    requires HoldsLow(out, S) && |S| < 8 * |out| && b <= 1
    ensures var p, bit := |out| - |S| / 8 - 1, |S| % 8;
            0 <= p < |out| && OrByte(out[p], Shl(b, bit)) == out[p] + Shl(b, bit)
  {
    hide HoldsLow, Pow, OrByte, Digits, Bits, Shl;
    LowInside(out, S);
    LowOr(out[|out| - |S| / 8 - 1], b, |S| % 8);
  }

  // One more bit at the front of what is there.
  lemma LowStep(out: seq<byte>, S: seq<int>, b: nat, p: nat, out': seq<byte>)
    requires HoldsLow(out, S) && |S| < 8 * |out| && b <= 1
    requires p == |out| - |S| / 8 - 1 && |out'| == |out| && out'[p] == out[p] + Shl(b, |S| % 8)
    requires forall i :: 0 <= i < |out| && i != p ==> out'[i] == out[i]
    ensures HoldsLow(out', [b] + S)
  {
    hide HoldsLow, Pow, OrByte, Digits, Bits, Shl;
    var bit := |S| % 8;
    LowInside(out, S);
    HighBit(out[p], bit, b, 8);
    assert out'[p + 1..] == out[p + 1..];
    assert [b] + S == ([b] + Digits(2, out[p], 8)[8 - bit..]) + Bits(out[p + 1..]);
    if bit < 7 {
      LowInByte(out', [b] + S, p, bit + 1);
    } else {
      BitsHead(out', p);
      assert Digits(2, out'[p], 8)[0..] == Digits(2, out'[p], 8);
      LowAtByte(out', [b] + S, p);
    }
  }

  lemma LowOr(x: byte, b: nat, bit: nat)
    requires bit < 8 && x < Pow(2, bit) && b <= 1
    ensures OrByte(x, Shl(b, bit)) == x + Shl(b, bit)
  {
    hide Pow, Or;
    Pow2Values();
    var y := Shl(b, bit);
    ShlBit(b, bit);
    hide Shl;
    assert y < 256 && y % Pow(2, bit) == 0;
    OrDisjoint(y, x, 8, bit);
    OrCommutes(x, y, 8);
  }

  // The i-th bit from the right of a byte is digit 7 - i.
  lemma BitIsDigit(x: byte, i: nat)
    requires i < 8
    ensures x / Pow(2, i) % 2 == Digits(2, x, 8)[7 - i]
  {
    DigitAt(x, 8, i);
  }

  lemma {:induction false} DigitAt(x: nat, w: nat, i: nat)
    requires i < w
    ensures x / Pow(2, i) % 2 == Digits(2, x, w)[w - 1 - i]
    decreases w
  {
    if i > 0 {
      DigitAt(x / 2, w - 1, i - 1);
      DivDiv(x, Pow(2, i - 1));
    }
  }

  lemma DivDiv(x: nat, p: nat)
    requires p > 0
    ensures x / (2 * p) == x / 2 / p
  {
    var q, r := x / 2 / p, x / 2 % p;
    DivMod(x / 2, p);
    assert x == (q * p + r) * 2 + x % 2 == q * (2 * p) + (2 * r + x % 2);
    DivModOfSum(q, 2 * p, 2 * r + x % 2);
  }

  // The bit that goes in next, with i bits of the byte done and j repeats of
  // the current one.
  lemma NextBit(oldByte: byte, scale: nat, i: nat, j: nat)
    requires i < 8 && j < scale
    ensures var x := 8 * scale - 1 - (i * scale + j);
            0 <= x < 8 * scale && ScaledBits(oldByte, scale)[x] == oldByte / Pow(2, i) % 2
  {
    hide Pow, Digits;
    MulMonotone(i + 1, 8, scale);
    MulMonotone(0, i, scale);
    var x := 8 * scale - 1 - (i * scale + j);
    assert x == (7 - i) * scale + (scale - 1 - j);
    DivModOfSum(7 - i, scale, scale - 1 - j);
    BitIsDigit(oldByte, i);
  }

  method ScaleByte(newBytes: array<byte>, oldByte: byte, scale: nat)
    requires newBytes.Length == scale
    modifies newBytes
    ensures Bits(newBytes[..]) == ScaledBits(oldByte, scale)
  {
    hide HoldsLow, ScaledBits, Pow, Bits, Digits, OrByte;
    ghost var all := ScaledBits(oldByte, scale);
    var bitIndex, spotInArray := 0, 0;
    for k := 0 to scale
      invariant forall x :: 0 <= x < k ==> newBytes[x] == 0
    {
      newBytes[k] := 0;
    }
    NothingLow(newBytes[..]);
    assert all[8 * scale..] == [];
    for i := 0 to 8
      invariant bitIndex == i * scale && spotInArray == bitIndex / 8
      invariant bitIndex <= 8 * scale && HoldsLow(newBytes[..], all[8 * scale - bitIndex..])
    {
      RowLength(i, scale);
      var isSet: nat := if oldByte / Pow(2, i) % 2 != 0 then 1 else 0;
      bitIndex, spotInArray := RepeatBit(newBytes, oldByte, scale, i, isSet, bitIndex, spotInArray);
    }
    AllLow(newBytes[..], all);
    assert all[0..] == all;
  }

  lemma RowLength(i: nat, scale: nat)
    ensures (i + 1) * scale == i * scale + scale && i * scale >= 0
    ensures i < 8 ==> i * scale + scale <= 8 * scale
  {
    MulMonotone(0, i, scale);
    if i < 8 { MulMonotone(i + 1, 8, scale); }
  }

  // One bit of the byte, `scale` times.
  method RepeatBit(newBytes: array<byte>, oldByte: byte, scale: nat, i: nat, isSet: nat, bitIndex0: nat,
      spotInArray0: nat)
    returns (bitIndex: nat, spotInArray: nat)
    requires newBytes.Length == scale && i < 8 && bitIndex0 == i * scale && spotInArray0 == bitIndex0 / 8
    requires bitIndex0 + scale <= 8 * scale
    requires isSet == if oldByte / Pow(2, i) % 2 != 0 then 1 else 0
    requires HoldsLow(newBytes[..], ScaledBits(oldByte, scale)[8 * scale - bitIndex0..])
    modifies newBytes
    ensures bitIndex == bitIndex0 + scale && spotInArray == bitIndex / 8
    ensures HoldsLow(newBytes[..], ScaledBits(oldByte, scale)[8 * scale - bitIndex..])
  {
    hide HoldsLow, ScaledBits, Pow, OrByte, Shl;
    ghost var all := ScaledBits(oldByte, scale);
    bitIndex, spotInArray := bitIndex0, spotInArray0;
    BitIsBit(oldByte, i);
    for j := 0 to scale
      invariant bitIndex == bitIndex0 + j && spotInArray == bitIndex / 8
      invariant HoldsLow(newBytes[..], all[8 * scale - bitIndex..])
    {
      NextBit(oldByte, scale, i, j);
      ghost var S, was := all[8 * scale - bitIndex..], newBytes[..];
      LowFits(was, S, isSet);
      var at := scale - spotInArray - 1;
      newBytes[at] := OrByte(newBytes[at], Shl(isSet, bitIndex % 8));
      LowStep(was, S, isSet, at, newBytes[..]);
      assert [isSet] + S == all[8 * scale - (bitIndex + 1)..];
      bitIndex := bitIndex + 1;
      if bitIndex % 8 == 0 {
        spotInArray := spotInArray + 1;
      }
    }
  }

  lemma BitIsBit(x: byte, i: nat)
    ensures 0 <= x / Pow(2, i) % 2 <= 1
  {}

  lemma NothingLow(out: seq<byte>)
    requires forall i :: 0 <= i < |out| ==> out[i] == 0
    ensures HoldsLow(out, [])
  {
    assert out[|out|..] == [];
    if out != [] {
      assert Digits(2, out[|out| - 1], 8)[8..] == [];
    }
  }

  lemma AllLow(out: seq<byte>, S: seq<int>)
    requires HoldsLow(out, S) && |S| == 8 * |out|
    ensures Bits(out) == S
  {
    assert out[0..] == out;
    assert [] + Bits(out) == Bits(out);
  }

  // ----- A row of the printer -----

  // The bits the printer is sent for a row of bitmap bytes.
  function ScaledRow(bytes: seq<byte>, scale: nat): (s: seq<int>)
    ensures |s| == 8 * scale * |bytes|
    decreases |bytes|
  {
    if bytes == [] then [] else
      RowStep(|bytes|, scale);
      ScaledRow(bytes[..|bytes| - 1], scale) + ScaledBits(bytes[|bytes| - 1], scale)
  }

  lemma RowStep(n: nat, scale: nat)
    requires n > 0
    ensures 8 * scale * n == 8 * scale * (n - 1) + 8 * scale
  {}

  // Dot x of the scaled row is module x / scale of the bitmap row.
  lemma {:induction false} ScaledDot(bytes: seq<byte>, scale: nat, x: nat)
    requires scale > 0 && x < 8 * scale * |bytes|
    ensures 0 <= x / scale < |Bits(bytes)| && ScaledRow(bytes, scale)[x] == Bits(bytes)[x / scale]
    decreases |bytes|
  {
    hide Digits, Bits, ScaledBits;
    var n := |bytes|;
    var init := bytes[..n - 1];
    RowStep(n, scale);
    BitsLast(bytes, n - 1);
    assert bytes[..n] == bytes;
    if x < 8 * scale * (n - 1) {
      ScaledDot(init, scale, x);
    } else {
      DotPlace(n, scale, x);
      ScaledBit(bytes[n - 1], scale, x - 8 * scale * (n - 1));
    }
  }

  lemma ScaledBit(oldByte: byte, scale: nat, x: nat)
    requires x < 8 * scale
    ensures 0 <= x / scale < 8 && ScaledBits(oldByte, scale)[x] == Digits(2, oldByte, 8)[x / scale]
  {
    hide Digits;
    DivBound(x, scale);
  }

  lemma DotPlace(n: nat, scale: nat, x: nat)
    requires n > 0 && scale > 0 && 8 * scale * (n - 1) <= x < 8 * scale * n
    ensures var y := x - 8 * scale * (n - 1);
            0 <= y < 8 * scale && x / scale == 8 * (n - 1) + y / scale
  {
    RowStep(n, scale);
    var y := x - 8 * scale * (n - 1);
    DivBound(y, scale);
    DivMod(y, scale);
    assert 8 * scale * (n - 1) == 8 * (n - 1) * scale;
    MulDistributes(8 * (n - 1), y / scale, scale);
    DivModOfSum(8 * (n - 1) + y / scale, scale, y % scale);
  }
}
