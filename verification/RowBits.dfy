// outPaintCode: the rows of the symbol as a packed bit stream. A codeword is
// OR-ed into the three bytes its 17 bits fall on.

module RowBits {
  import opened Octets
  import opened Radix

  const START_PATTERN := 0x1fea8
  const STOP_PATTERN := 0x3fa29
  const START_CODE_SIZE := 17
  const STOP_SIZE := 18

  // ----- Bytes and bits -----

  function Shr(x: nat, s: nat): nat {
    x / Pow(2, s)
  }

  function Shl(x: nat, s: nat): nat {
    x * Pow(2, s)
  }

  lemma ShlBit(b: nat, s: nat)
    requires b <= 1
    ensures Shl(b, s) == if b == 1 then Pow(2, s) else 0
  {}

  // Bitwise OR of the low n bits.
  function Or(a: nat, b: nat, n: nat): nat
    decreases n
  {
    if n == 0 then 0
    else 2 * Or(a / 2, b / 2, n - 1) + if a % 2 == 1 || b % 2 == 1 then 1 else 0
  }

  // |= on a byte
  function OrByte(a: byte, x: nat): (r: byte) {
    OrIsByte(a, x % 256, 8);
    Or(a, x % 256, 8)
  }

  lemma {:induction false} OrIsByte(a: nat, b: nat, n: nat)
    ensures Or(a, b, n) < Pow(2, n)
    ensures Pow(2, 8) == 256
    decreases n
  {
    Pow2Values();
    if n > 0 { OrIsByte(a / 2, b / 2, n - 1); }
  }

  lemma Pow2Values()
    ensures Pow(2, 0) == 1 && Pow(2, 1) == 2 && Pow(2, 2) == 4 && Pow(2, 3) == 8 && Pow(2, 4) == 16
    ensures Pow(2, 5) == 32 && Pow(2, 6) == 64 && Pow(2, 7) == 128 && Pow(2, 8) == 256 && Pow(2, 9) == 512
    ensures Pow(2, 10) == 1024 && Pow(2, 11) == 2048 && Pow(2, 12) == 4096 && Pow(2, 13) == 8192
    ensures Pow(2, 14) == 16384 && Pow(2, 15) == 32768 && Pow(2, 16) == 65536 && Pow(2, 17) == 131072
    ensures Pow(2, 18) == 262144
  {
    assert Pow(2, 1) == 2 * Pow(2, 0);
    assert Pow(2, 2) == 2 * Pow(2, 1);
    assert Pow(2, 3) == 2 * Pow(2, 2);
    assert Pow(2, 4) == 2 * Pow(2, 3);
    assert Pow(2, 5) == 2 * Pow(2, 4);
    assert Pow(2, 6) == 2 * Pow(2, 5);
    assert Pow(2, 7) == 2 * Pow(2, 6);
    assert Pow(2, 8) == 2 * Pow(2, 7);
    assert Pow(2, 9) == 2 * Pow(2, 8);
    assert Pow(2, 10) == 2 * Pow(2, 9);
    assert Pow(2, 11) == 2 * Pow(2, 10);
    assert Pow(2, 12) == 2 * Pow(2, 11);
    assert Pow(2, 13) == 2 * Pow(2, 12);
    assert Pow(2, 14) == 2 * Pow(2, 13);
    assert Pow(2, 15) == 2 * Pow(2, 14);
    assert Pow(2, 16) == 2 * Pow(2, 15);
    assert Pow(2, 17) == 2 * Pow(2, 16);
    assert Pow(2, 18) == 2 * Pow(2, 17);
  }

  // OR-ing bits below the lowest one set is adding.
  lemma {:induction false} OrDisjoint(a: nat, b: nat, n: nat, k: nat)
    requires a < Pow(2, n) && k <= n && b < Pow(2, k) && a % Pow(2, k) == 0
    ensures Or(a, b, n) == a + b
    decreases n
  {
    if n > 0 {
      if k == 0 {
        OrZero(a, n);
      } else {
        var p := Pow(2, k - 1);
        assert Pow(2, k) == 2 * p && Pow(2, n) == 2 * Pow(2, n - 1);
        Halved(a, p);
        OrDisjoint(a / 2, b / 2, n - 1, k - 1);
      }
    }
  }

  lemma Halved(a: nat, p: nat)
    requires p > 0 && a % (2 * p) == 0
    ensures a % 2 == 0 && a / 2 % p == 0
  {
    var q := a / (2 * p);
    assert a == 2 * p * q;
    assert a == 2 * (p * q);
    assert a / 2 == p * q;
    DivModOfSum(q, p, 0);
    assert q * p == p * q;
  }

  lemma {:induction false} OrZero(a: nat, n: nat)
    requires a < Pow(2, n)
    ensures Or(a, 0, n) == a
    decreases n
  {
    if n > 0 {
      assert Pow(2, n) == 2 * Pow(2, n - 1);
      OrZero(a / 2, n - 1);
    }
  }

  // The bits of a byte string, most significant first.
  function Bits(bytes: seq<byte>): (b: seq<int>)
    ensures |b| == 8 * |bytes|
    decreases |bytes|
  {
    if bytes == [] then [] else Bits(bytes[..|bytes| - 1]) + Digits(2, bytes[|bytes| - 1], 8)
  }

  lemma {:induction false} BitsAppend(a: seq<byte>, b: seq<byte>)
    ensures Bits(a + b) == Bits(a) + Bits(b)
    decreases |b|
  {
    hide Digits;
    if b == [] {
      assert a + b == a;
    } else {
      BitsAppend(a, b[..|b| - 1]);
      assert (a + b)[..|a + b| - 1] == a + b[..|b| - 1];
    }
  }

  lemma EightDigits(x: byte)
    ensures Digits(2, x, 8)
            == [x / 128 % 2, x / 64 % 2, x / 32 % 2, x / 16 % 2, x / 8 % 2, x / 4 % 2, x / 2 % 2, x % 2]
  {
    hide Digits;
    Halves(x);
    DigitsStep(2, x, 8);
    DigitsStep(2, x / 2, 7);
    DigitsStep(2, x / 4, 6);
    DigitsStep(2, x / 8, 5);
    DigitsStep(2, x / 16, 4);
    DigitsStep(2, x / 32, 3);
    DigitsStep(2, x / 64, 2);
    DigitsStep(2, x / 128, 1);
    assert Digits(2, x / 256, 0) == [];
  }

  lemma Halves(x: nat)
    ensures x / 2 / 2 == x / 4 && x / 4 / 2 == x / 8 && x / 8 / 2 == x / 16 && x / 16 / 2 == x / 32
    ensures x / 32 / 2 == x / 64 && x / 64 / 2 == x / 128 && x / 128 / 2 == x / 256
  {}

  // What the bits of a byte stand for, from the most significant one on.
  function BitWeight(b: nat): (w: nat)
    requires b < 8
    ensures w > 0
  {
    [128, 64, 32, 16, 8, 4, 2, 1][b]
  }

  lemma DigitIs(x: byte, b: nat)
    requires b < 8
    ensures Digits(2, x, 8)[b] == x / BitWeight(b) % 2
  {
    hide Digits;
    EightDigits(x);
  }

  lemma BitsAround(a: seq<byte>, x: byte, b: seq<byte>)
    ensures Bits(a + [x] + b) == Bits(a) + Digits(2, x, 8) + Bits(b)
  {
    hide Digits, Bits;
    BitsAppend(a + [x], b);
    BitsAppend(a, [x]);
    BitsOfOne(x);
  }

  lemma Around(bytes: seq<byte>, k: nat)
    requires k < |bytes|
    ensures bytes[..k] + [bytes[k]] + bytes[k + 1..] == bytes
  {}

  lemma DigitsInside(bytes: seq<byte>, k: nat)
    requires k < |bytes|
    ensures Bits(bytes) == Bits(bytes[..k]) + Digits(2, bytes[k], 8) + Bits(bytes[k + 1..])
  {
    hide Digits, Bits;
    Around(bytes, k);
    BitsAround(bytes[..k], bytes[k], bytes[k + 1..]);
  }

  // Bit b of byte k.
  lemma BitIs(bytes: seq<byte>, k: nat, b: nat)
    requires k < |bytes| && b < 8
    ensures Bits(bytes)[8 * k + b] == bytes[k] / BitWeight(b) % 2
  {
    hide Digits, Bits, BitWeight;
    DigitsInside(bytes, k);
    DigitIs(bytes[k], b);
  }

  lemma BitsOfOne(x: byte)
    ensures Bits([x]) == Digits(2, x, 8)
  {
    assert [x][..0] == [];
  }

  function Zeros(n: nat): seq<int> {
    seq(n, _ => 0)
  }

  // ----- A codeword in its window of three bytes -----

  lemma ThreeBytes(n: nat)
    requires n < 16777216
    ensures n == n / 65536 * 65536 + n / 256 % 256 * 256 + n % 256
  {
    assert n / 65536 == n / 256 / 256;
  }

  // Bits of the third byte of the window that stay free.
  function Free(width: nat, bit: nat): int {
    24 - width - bit
  }

  // The three bytes after the OR, with the codeword's bits right after the
  // `bit` bits already there.
  function First(b0: byte, codeword: nat, width: nat, bit: nat): byte
    requires width >= 16
  {
    OrByte(b0, Shr(codeword, width - 8 + bit))
  }

  function Second(codeword: nat, width: nat, bit: nat): byte
    requires width >= 16
  {
    OrByte(0, Shr(codeword, width - 16 + bit))
  }

  function Third(codeword: nat, width: nat, bit: nat): byte
    requires width >= 16
  {
    OrByte(0, Shr(codeword * 256, width - 16 + bit))
  }

  // The bytes with these three in place.
  function Window(out: seq<byte>, q: nat, codeword: nat, width: nat, bit: nat): seq<byte>
    requires q + 2 < |out| && width >= 16
  {
    out[q := First(out[q], codeword, width, bit)]
       [q + 1 := Second(codeword, width, bit)]
       [q + 2 := Third(codeword, width, bit)]
  }

  lemma WindowValue(b0: byte, codeword: nat, width: nat, bit: nat)
    requires 17 <= width <= 18 && bit < 8 && Free(width, bit) >= 0
    requires b0 % Pow(2, 8 - bit) == 0 && codeword < Pow(2, width)
    ensures var m := Pow(2, Free(width, bit));
            && First(b0, codeword, width, bit) * 65536 + Second(codeword, width, bit) * 256
               + Third(codeword, width, bit)
               == b0 * 65536 + codeword * m
            && Third(codeword, width, bit) % m == 0
  {
    hide OrByte, Pow, Shr;
    Pow2Values();
    var top, mid, low := Shr(codeword, width - 8 + bit), Shr(codeword, width - 16 + bit),
        Shr(codeword * 256, width - 16 + bit);
    ShiftedParts(codeword, width, bit);
    OrByteAdds(b0, top, 8 - bit);
    OrByteAdds(0, mid, 8);
    OrByteAdds(0, low, 8);
    ThreePlaces(b0, top, mid % 256, low % 256);
  }

  lemma OrByteAdds(a: byte, x: nat, k: nat)
    requires k <= 8 && a % Pow(2, k) == 0 && x % 256 < Pow(2, k)
    ensures OrByte(a, x) == a + x % 256
  {
    hide Or, Pow;
    Pow2Values();
    OrDisjoint(a, x % 256, 8, k);
  }

  lemma ThreePlaces(a: int, x: int, y: int, z: int)
    ensures (a + x) * 65536 + y * 256 + z == a * 65536 + (x * 65536 + y * 256 + z)
  {}

  lemma ShiftedParts(codeword: nat, width: nat, bit: nat)
    requires 17 <= width <= 18 && bit < 8 && Free(width, bit) >= 0 && codeword < Pow(2, width)
    ensures var m := Pow(2, Free(width, bit));
            var top, mid, low := Shr(codeword, width - 8 + bit), Shr(codeword, width - 16 + bit),
                Shr(codeword * 256, width - 16 + bit);
            && top < Pow(2, 8 - bit) <= 256
            && top * 65536 + mid % 256 * 256 + low % 256 == codeword * m
            && low % 256 % m == 0
  {
    hide Pow;
    var m, d, k := Pow(2, Free(width, bit)), Pow(2, width - 16 + bit), Pow(2, 8 - bit);
    SmallShift(width, bit);
    ShiftScales(codeword, m, d);
    var n := codeword * m;
    NonNegative(codeword, m);
    MulMonotone(codeword + 1, Pow(2, width), m);
    TopBound(n, k, m);
    ThreeBytes(n);
    LowBits(codeword, m);
  }

  lemma SmallShift(width: nat, bit: nat)
    requires 17 <= width <= 18 && bit < 8 && Free(width, bit) >= 0
    ensures var m, d := Pow(2, Free(width, bit)), Pow(2, width - 16 + bit);
            && m in {1, 2, 4, 8, 16, 32, 64, 128} && d > 0 && m * d == 256
            && Pow(2, width - 8 + bit) == d * 256 && Pow(2, width) * m == 65536 * Pow(2, 8 - bit)
            && Pow(2, 8 - bit) <= 256
  {
    hide Pow;
    Pow2Values();
  }

  lemma NonNegative(x: nat, y: nat)
    ensures x * y >= 0
  {}

  lemma TopBound(n: nat, k: nat, m: nat)
    requires n + m <= 65536 * k && m > 0
    ensures n / 65536 < k
  {}

  lemma LowBits(x: nat, m: nat)
    requires m in {1, 2, 4, 8, 16, 32, 64, 128}
    ensures x * m % 256 % m == 0
  {
    ModOfMod(x * m, m, 256 / m);
    DivModOfSum(x, m, 0);
  }

  lemma ModOfMod(n: nat, m: nat, k: nat)
    requires m > 0 && k > 0 && m * k == 256
    ensures n % 256 % m == n % m
  {
    var q, r := n / 256, n % 256;
    assert n == q * 256 + r;
    assert q * 256 == q * k * m;
    var q', r' := r / m, r % m;
    assert r == q' * m + r';
    assert (q * k + q') * m + r' == n;
    NonNegative(q, k);
    DivModOfSum(q * k + q', m, r');
  }

  // Shifting right by s is shifting left by 8 - s and dropping a byte.
  lemma ShiftScales(x: nat, m: nat, d: nat)
    requires d > 0 && m > 0 && m * d == 256
    ensures x / d == x * m / 256 && x * 256 / d == x * m && x / (d * 256) == x * m / 65536
  {
    ShiftScalesOnce(x, m, d);
    NonNegative(x, m);
    assert x * 256 == x * m * d;
    DivModOfSum(x * m, d, 0);
    DivTwice(x, d);
    assert x * m / 65536 == x * m / 256 / 256;
  }

  lemma ShiftScalesOnce(x: nat, m: nat, d: nat)
    requires d > 0 && m > 0 && m * d == 256
    ensures x / d == x * m / 256
  {
    var q, r := x / d, x % d;
    DivMod(x, d);
    assert q * d * m == q * 256 by { assert q * d * m == q * (m * d); }
    assert x * m == (q * d + r) * m == q * d * m + r * m;
    MulMonotone(r + 1, d, m);
    NonNegative(r, m);
    NonNegative(x, m);
    DivModOfSum(q, 256, r * m);
  }

  lemma DivTwice(x: nat, d: nat)
    requires d > 0
    ensures x / (d * 256) == x / d / 256
  {
    var q, r := x / d, x % d;
    DivMod(x, d);
    var t, u := q / 256, q % 256;
    assert q * d == t * 256 * d + u * d;
    assert t * 256 * d == t * (d * 256);
    MulMonotone(u + 1, 256, d);
    NonNegative(u, d);
    DivModOfSum(t, d * 256, u * d + r);
  }

  // ----- From values to bits -----

  // When the low j places of a number are zero, its digits end in j zeros.
  lemma TrailingZeros(n: nat, w: nat, j: nat)
    requires j <= w && n < Pow(2, w) && n % Pow(2, j) == 0
    ensures Digits(2, n, w) == Digits(2, n, w)[..w - j] + Zeros(j)
    ensures Value(2, Digits(2, n, w)[..w - j]) * Pow(2, j) == n
  {
    hide Digits, Value, Pow, Zeros;
    var s := Digits(2, n, w);
    var hi, lo := s[..w - j], s[w - j..];
    assert hi + lo == s;
    ValueOfDigits(2, n, w);
    ValueAppend(2, hi, lo);
    DigitsOfValue(2, lo);
    DigitsOfValue(2, hi);
    LowIsZero(n, Value(2, hi), Pow(2, j), Value(2, lo));
    ZeroDigits(lo);
  }

  lemma LowIsZero(n: nat, v: nat, p: nat, r: nat)
    requires n == v * p + r && r < p && n % p == 0
    ensures r == 0
  {
    DivModOfSum(v, p, r);
  }

  lemma ZeroDigits(s: seq<int>)
    requires InBase(2, s) && Value(2, s) == 0
    ensures s == Zeros(|s|)
  {
    hide Value;
    ZeroValue(2, Zeros(|s|));
    EqualValues(s, Zeros(|s|));
  }

  lemma EqualValues(s: seq<int>, t: seq<int>)
    requires InBase(2, s) && InBase(2, t) && |s| == |t| && Value(2, s) == Value(2, t)
    ensures s == t
  {
    hide Value, Digits;
    DigitsOfValue(2, s);
    DigitsOfValue(2, t);
  }

  lemma ThreeByteValue(c0: byte, c1: byte, c2: byte)
    ensures Value(2, Digits(2, c0, 8) + Digits(2, c1, 8) + Digits(2, c2, 8)) == c0 * 65536 + c1 * 256 + c2
  {
    hide Digits, Value, Pow;
    Pow2Values();
    ValueAppend(2, Digits(2, c0, 8) + Digits(2, c1, 8), Digits(2, c2, 8));
    ValueAppend(2, Digits(2, c0, 8), Digits(2, c1, 8));
    ValueOfDigits(2, c0, 8);
    ValueOfDigits(2, c1, 8);
    ValueOfDigits(2, c2, 8);
  }

  // The bits already there, the codeword's bits, and what stays free.
  lemma WindowBits(b0: byte, codeword: nat, width: nat, bit: nat)
    requires 17 <= width <= 18 && bit < 8 && Free(width, bit) >= 0
    requires b0 % Pow(2, 8 - bit) == 0 && codeword < Pow(2, width)
    ensures Digits(2, First(b0, codeword, width, bit), 8) + Digits(2, Second(codeword, width, bit), 8)
            + Digits(2, Third(codeword, width, bit), 8)
            == Digits(2, b0, 8)[..bit] + Digits(2, codeword, width) + Zeros(Free(width, bit))
  {
    hide Digits, Value, Pow, First, Second, Third, Zeros;
    var c0, c1, c2 := First(b0, codeword, width, bit), Second(codeword, width, bit), Third(codeword, width, bit);
    WindowValue(b0, codeword, width, bit);
    ThreeByteValue(c0, c1, c2);
    Pow2Values();
    TrailingZeros(b0, 8, 8 - bit);
    var f, hi := Free(width, bit), Digits(2, b0, 8)[..bit];
    SmallShift(width, bit);
    ValueOfParts(hi, codeword, width, f);
    SameValue(Value(2, hi), codeword, b0, Pow(2, 8 - bit), Pow(2, width), Pow(2, f));
    EqualValues(Digits(2, c0, 8) + Digits(2, c1, 8) + Digits(2, c2, 8), hi + Digits(2, codeword, width) + Zeros(f));
  }

  lemma ValueOfParts(hi: seq<int>, codeword: nat, width: nat, f: nat)
    requires InBase(2, hi) && codeword < Pow(2, width)
    ensures var s := hi + Digits(2, codeword, width) + Zeros(f);
            && InBase(2, s) && |s| == |hi| + width + f
            && Value(2, s) == (Value(2, hi) * Pow(2, width) + codeword) * Pow(2, f)
  {
    hide Digits, Value, Pow;
    var mid, z := Digits(2, codeword, width), Zeros(f);
    ValueOfDigits(2, codeword, width);
    ZeroValue(2, z);
    ValueAppend(2, hi + mid, z);
    ValueAppend(2, hi, mid);
  }

  lemma SameValue(v: int, codeword: int, b0: int, k: int, w: int, m: int)
    requires v * k == b0 && w * m == 65536 * k
    ensures (v * w + codeword) * m == b0 * 65536 + codeword * m
  {
    assert v * w * m == v * (65536 * k);
  }

  // The bits D are in place from the start of the bytes, and nothing is set
  // after them.
  ghost predicate Holds(out: seq<byte>, D: seq<int>) {
    && |D| <= 8 * |out|
    && var q, bit := |D| / 8, |D| % 8;
    && (forall i :: q < i < |out| ==> out[i] == 0)
    && (q < |out| ==> out[q] % Pow(2, 8 - bit) == 0)
    && D == Bits(out[..q]) + if q < |out| then Digits(2, out[q], 8)[..bit] else []
  }

  lemma BitsOfThree(pre: seq<byte>, c0: byte, c1: byte, c2: byte)
    ensures Bits(pre + [c0, c1, c2]) == Bits(pre) + (Digits(2, c0, 8) + Digits(2, c1, 8) + Digits(2, c2, 8))
  {
    hide Digits;
    BitsOfTwo(pre, c0, c1);
    assert (pre + [c0, c1, c2])[..|pre| + 2] == pre + [c0, c1];
    assert Bits(pre + [c0, c1, c2]) == Bits(pre + [c0, c1]) + Digits(2, c2, 8);
  }

  lemma BitsOfTwo(pre: seq<byte>, c0: byte, c1: byte)
    ensures Bits(pre + [c0, c1]) == Bits(pre) + (Digits(2, c0, 8) + Digits(2, c1, 8))
  {
    hide Digits;
    assert (pre + [c0, c1])[..|pre| + 1] == pre + [c0];
    assert (pre + [c0])[..|pre|] == pre;
  }

  lemma CodewordHolds(out: seq<byte>, D: seq<int>, codeword: nat, width: nat)
    requires Holds(out, D) && 17 <= width <= 18 && codeword < Pow(2, width)
    requires |D| + width <= 8 * |out| && Free(width, |D| % 8) >= 0
    ensures var q, bit := |D| / 8, |D| % 8;
            q + 2 < |out| && out[q + 1] == 0 && out[q + 2] == 0
            && Holds(Window(out, q, codeword, width, bit), D + Digits(2, codeword, width))
  {
    hide Digits, Pow, First, Second, Third, Bits, Value, Zeros;
    var q, bit := |D| / 8, |D| % 8;
    assert q + 2 < |out|;
    var c0, c1, c2 := First(out[q], codeword, width, bit), Second(codeword, width, bit), Third(codeword, width, bit);
    var out' := out[q := c0][q + 1 := c1][q + 2 := c2];
    var D' := D + Digits(2, codeword, width);
    var pre := out[..q];
    WindowBits(out[q], codeword, width, bit);
    WindowValue(out[q], codeword, width, bit);
    var free := Free(width, bit);
    var d2 := Digits(2, c2, 8);
    assert D' == Bits(pre) + (Digits(2, out[q], 8)[..bit] + Digits(2, codeword, width));
    if free == 0 {
      BitsOfThree(pre, c0, c1, c2);
      assert out'[..q + 3] == pre + [c0, c1, c2];
      assert |D'| / 8 == q + 3 && |D'| % 8 == 0;
      Pow2Values();
      assert q + 3 < |out| ==> Digits(2, out[q + 3], 8)[..0] == [];
    } else {
      BitsOfTwo(pre, c0, c1);
      assert out'[..q + 2] == pre + [c0, c1];
      assert |D'| / 8 == q + 2 && |D'| % 8 == 8 - free;
      PrefixOfSum(Digits(2, c0, 8) + Digits(2, c1, 8), d2,
                  Digits(2, out[q], 8)[..bit] + Digits(2, codeword, width), Zeros(free));
    }
  }

  lemma PrefixOfSum(a: seq<int>, b: seq<int>, c: seq<int>, z: seq<int>)
    requires a + b == c + z && |z| <= |b|
    ensures c == a + b[..|b| - |z|]
  {
    assert (a + b)[..|c|] == c;
  }

  method OutCodeword17(out: array<byte>, bitPtr: nat, codeword: nat, ghost D: seq<int>) returns (next: nat)
    requires codeword < Pow(2, 17)
    requires Holds(out[..], D) && |D| == bitPtr && bitPtr + 17 <= 8 * out.Length
    modifies out
    ensures next == bitPtr + 17 && Holds(out[..], D + Digits(2, codeword, 17))
  {
    hide Holds, Pow, Digits, OrByte, Shr;
    var bytePtr := bitPtr / 8;
    var bit := bitPtr - bytePtr * 8;
    ghost var was := out[..];
    CodewordHolds(was, D, codeword, 17);
    out[bytePtr] := OrByte(out[bytePtr], Shr(codeword, 9 + bit));
    out[bytePtr + 1] := OrByte(out[bytePtr + 1], Shr(codeword, 1 + bit));
    out[bytePtr + 2] := OrByte(out[bytePtr + 2], Shr(codeword * 256, 1 + bit));
    assert out[..] == Window(was, bytePtr, codeword, 17, bit);
    next := bitPtr + 17;
  }

  lemma BitsLast(out: seq<byte>, q: nat)
    requires q < |out|
    ensures Bits(out[..q + 1]) == Bits(out[..q]) + Digits(2, out[q], 8)
  {
    assert out[..q + 1][..q] == out[..q];
  }

  lemma HoldsAtByte(out: seq<byte>, D: seq<int>, q: nat)
    requires q <= |out| && |D| == 8 * q
    ensures Holds(out, D) <==> D == Bits(out[..q]) && forall i :: q <= i < |out| ==> out[i] == 0
  {
    hide Digits, Pow, Bits;
    Pow2Values();
    assert |D| / 8 == q && |D| % 8 == 0;
    if q < |out| {
      assert Digits(2, out[q], 8)[..0] == [];
    }
  }

  // The stop pattern, one bit wider, ends in the next byte when it starts at
  // bit 7; its last bit is then set outright, which is right for an odd one.
  lemma HalvedWindow(b0: byte, codeword: nat)
    ensures First(b0, codeword, 18, 7) == First(b0, codeword / 2, 17, 7)
    ensures Second(codeword, 18, 7) == Second(codeword / 2, 17, 7)
    ensures Third(codeword, 18, 7) == Third(codeword / 2, 17, 7)
  {
    hide Or, Pow;
    Pow2Values();
    assert codeword * 256 / 512 == codeword / 2;
  }

  lemma LastBitHolds(out: seq<byte>, D: seq<int>)
    requires Holds(out, D) && |D| % 8 == 0 && |D| < 8 * |out|
    ensures out[|D| / 8] == 0
    ensures OrByte(0, 128) == 128
    ensures Holds(out[|D| / 8 := 128], D + [1])
  {
    hide Pow, Or, Bits, Digits;
    Pow2Values();
    OrDisjoint(0, 128, 8, 8);
    var q := |D| / 8;
    HoldsAtByte(out, D, q);
    var out' := out[q := 128];
    assert out'[..q] == out[..q];
    FirstDigit();
    assert |D + [1]| / 8 == q && |D + [1]| % 8 == 1;
  }

  lemma FirstDigit()
    ensures Digits(2, 128, 8)[..1] == [1]
  {
    var s := Digits(2, 128, 8)[..1];
    Pow2Values();
    TrailingZeros(128, 8, 7);
    assert s[..0] == [];
    assert Value(2, s) == s[0];
  }

  method OutCodeword18(out: array<byte>, bitPtr: nat, codeword: nat, ghost D: seq<int>) returns (next: nat)
    requires codeword < Pow(2, 18) && codeword % 2 == 1
    requires Holds(out[..], D) && |D| == bitPtr && bitPtr + 18 <= 8 * out.Length
    modifies out
    ensures next == bitPtr + 18 && Holds(out[..], D + Digits(2, codeword, 18))
  {
    hide Holds, Pow, OrByte, Shr, Digits;
    var bytePtr := bitPtr / 8;
    var bit := bitPtr - bytePtr * 8;
    ghost var was := out[..];
    DigitsStep(2, codeword, 18);
    if bit < 7 {
      CodewordHolds(was, D, codeword, 18);
    } else {
      HalvedWindow(was[bytePtr], codeword);
      Pow2Values();
      CodewordHolds(was, D, codeword / 2, 17);
    }
    out[bytePtr] := OrByte(out[bytePtr], Shr(codeword, 10 + bit));
    out[bytePtr + 1] := OrByte(out[bytePtr + 1], Shr(codeword, 2 + bit));
    out[bytePtr + 2] := OrByte(out[bytePtr + 2], Shr(codeword * 256, 2 + bit));
    ghost var now := out[..];
    assert now == Window(was, bytePtr, codeword, 18, bit);
    if bit == 7 {
      LastBitHolds(now, D + Digits(2, codeword / 2, 17));
      out[bytePtr + 3] := OrByte(out[bytePtr + 3], 0x80);
      assert out[..] == now[bytePtr + 3 := 128];
      assert (D + Digits(2, codeword / 2, 17)) + [1] == D + Digits(2, codeword, 18);
    }
    next := bitPtr + 18;
  }

  // The rest of a byte is zero.
  lemma PadHolds(out: seq<byte>, D: seq<int>, pad: nat)
    requires Holds(out, D) && pad < 8 && (|D| + pad) % 8 == 0 && |D| + pad <= 8 * |out|
    ensures Holds(out, D + Zeros(pad))
  {
    hide Digits, Pow, Bits, Zeros, Holds;
    if pad == 0 {
      assert D + Zeros(0) == D by { NoZeros(); }
    } else {
      var q := |D| / 8;
      assert |D| % 8 == 8 - pad;
      HoldsInside(out, D);
      ByteEnd(out, q, pad);
      ZerosLength(pad);
      assert D + Zeros(pad) == Bits(out[..q]) + (Digits(2, out[q], 8)[..8 - pad] + Zeros(pad));
      HoldsAtByte(out, D + Zeros(pad), q + 1);
    }
  }

  lemma HoldsInside(out: seq<byte>, D: seq<int>)
    requires Holds(out, D) && |D| < 8 * |out|
    ensures var q, bit := |D| / 8, |D| % 8;
            && out[q] % Pow(2, 8 - bit) == 0
            && D == Bits(out[..q]) + Digits(2, out[q], 8)[..bit]
            && forall i :: q < i < |out| ==> out[i] == 0
  {
    hide Digits, Pow, Bits;
  }

  lemma ByteEnd(out: seq<byte>, q: nat, pad: nat)
    requires q < |out| && pad <= 8 && out[q] % Pow(2, pad) == 0
    ensures Digits(2, out[q], 8) == Digits(2, out[q], 8)[..8 - pad] + Zeros(pad)
    ensures Bits(out[..q + 1]) == Bits(out[..q]) + Digits(2, out[q], 8)
  {
    hide Digits, Pow, Bits, Zeros, Value;
    Pow2Values();
    TrailingZeros(out[q], 8, pad);
    BitsLast(out, q);
  }

  lemma NoZeros()
    ensures Zeros(0) == []
  {}

  lemma ZerosLength(n: nat)
    ensures |Zeros(n)| == n
  {}
}
