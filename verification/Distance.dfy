// How far apart two messages with their check codewords are: with n check
// codewords, words that differ in at most n places are the same word
// (section 5.10 of ISO/IEC 15438:2006).

module Distance {
  import opened Radix
  import opened ErrorCorrection

  // ----- The integers mod 929 have no divisors of zero -----

  lemma CongIsZero(a: int)
    ensures Cong(a, 0) <==> a % MOD == 0
  {
    if a % MOD == 0 { assert Times929(a / MOD) == a - 0; }
    if Cong(a, 0) {
      var q: int :| Times929(q) == a - 0;
      assert a == q * 929;
    }
  }

  lemma SmallDivisors(d: nat)
    requires 2 <= d <= 30
    ensures MOD % d != 0
  {
    if d <= 10 {
      assert 929 % 2 == 1 && 929 % 3 == 2 && 929 % 4 == 1 && 929 % 5 == 4 && 929 % 6 == 5;
      assert 929 % 7 == 5 && 929 % 8 == 1 && 929 % 9 == 2 && 929 % 10 == 9;
    } else if d <= 20 {
      assert 929 % 11 == 5 && 929 % 12 == 5 && 929 % 13 == 6 && 929 % 14 == 5 && 929 % 15 == 14;
      assert 929 % 16 == 1 && 929 % 17 == 11 && 929 % 18 == 11 && 929 % 19 == 17 && 929 % 20 == 9;
    } else {
      assert 929 % 21 == 5 && 929 % 22 == 5 && 929 % 23 == 9 && 929 % 24 == 17 && 929 % 25 == 4;
      assert 929 % 26 == 19 && 929 % 27 == 11 && 929 % 28 == 5 && 929 % 29 == 1 && 929 % 30 == 29;
    }
  }

  lemma NoDivisor(d: nat)
    requires 2 <= d < MOD
    ensures MOD % d != 0
  {
    if MOD % d == 0 {
      var c := MOD / d;
      assert d * c == 929;
      if d <= 30 {
        SmallDivisors(d);
      } else {
        if c > 30 { MulMonotone(31, d, c); MulMonotone(31, c, 31); assert false; }
        if c < 2 { MulMonotone(c, 1, d); assert false; }
        DivModOfSum(d, c, 0);
        SmallDivisors(c);
      }
    }
  }

  // Dividing 929 by a and going on with the remainder.
  lemma {:induction false} Inverse(a: nat) returns (x: int)
    requires 0 < a < MOD
    ensures Cong(a * x, 1)
    decreases a
  {
    if a == 1 {
      x := 1;
      CongRefl(1);
    } else {
      NoDivisor(a);
      var q, r := MOD / a, MOD % a;
      DivMod(MOD, a);
      var y := Inverse(r);
      x := -(q * y);
      InverseStep(a, q, r, y);
    }
  }

  lemma InverseStep(a: int, q: int, r: int, y: int)
    requires MOD == q * a + r && Cong(r * y, 1)
    ensures Cong(a * -(q * y), 1)
  {
    var p: int :| Times929(p) == r * y - 1;
    assert a * -(q * y) == -(q * a * y);
    assert q * a * y == (929 - r) * y == 929 * y - r * y;
    assert Times929(p - y) == a * -(q * y) - 1;
  }

  lemma ZeroProduct(a: int, b: int)
    requires Cong(a * b, 0)
    ensures Cong(a, 0) || Cong(b, 0)
  {
    CongIsZero(a);
    if a % MOD != 0 {
      var x := Inverse(a % MOD);
      hide Cong;
      CongMod(a);
      CancelInverse(a % MOD, a, b, x);
    }
  }

  lemma CancelInverse(r: int, a: int, b: int, x: int)
    requires Cong(r, a) && Cong(a * b, 0) && Cong(r * x, 1)
    ensures Cong(b, 0)
  {
    hide Cong;
    CongMul(r, a, b);
    CongTrans(r * b, a * b, 0);
    CongMul(r * b, 0, x);
    CongMul(r * x, 1, b);
    assert r * b * x == r * x * b;
    CongSym(r * x * b, 1 * b);
    CongTrans(1 * b, r * x * b, 0 * x);
  }

  // ----- The powers of 3 below the 928th differ -----

  lemma {:induction false} PowerSum(i: nat, j: nat)
    ensures PowerOf3(i + j) == PowerOf3(i) * PowerOf3(j) % MOD
    decreases i
  {
    PowerIsResidue(j);
    if i > 0 {
      PowerSum(i - 1, j);
      TimesThree(PowerOf3(i - 1), PowerOf3(j));
    }
  }

  lemma TimesThree(a: int, b: int)
    ensures a * b % MOD * 3 % MOD == a * 3 % MOD * b % MOD
  {
    ModOfProduct(a * b, 3);
    ModOfProduct(a * 3, b);
    assert a * b * 3 == a * 3 * b;
  }

  lemma PowerIsResidue(j: nat)
    ensures 0 <= PowerOf3(j) < MOD
  {}

  lemma ModOfProduct(x: int, y: int)
    ensures x % MOD * y % MOD == x * y % MOD
  {
    var q := x / MOD;
    assert x * y == q * MOD * y + x % MOD * y;
    assert q * MOD * y == q * y * MOD;
    ModOfMultiple(x % MOD * y, q * y);
  }

  lemma ModOfMultiple(a: int, k: int)
    ensures (k * MOD + a) % MOD == a % MOD
  {}

  lemma PowerStep(i: nat, j: nat, c: int)
    requires PowerOf3(i) * PowerOf3(j) % MOD == c
    ensures PowerOf3(i + j) == c
  {
    hide PowerOf3;
    PowerSum(i, j);
  }

  lemma PowersTo32()
    ensures PowerOf3(16) == 577 && PowerOf3(32) == 347
  {
    hide PowerOf3;
    SmallPowersOf3();
    PowerStep(8, 8, 577);
    PowerStep(16, 16, 347);
  }

  lemma PowersTo256()
    ensures PowerOf3(64) == 568 && PowerOf3(128) == 261 && PowerOf3(256) == 304
  {
    hide PowerOf3;
    PowersTo32();
    PowerStep(32, 32, 568);
    PowerStep(64, 64, 261);
    PowerStep(128, 128, 304);
  }

  lemma PowersTo928()
    ensures PowerOf3(464) == 928 && PowerOf3(928) == 1
  {
    hide PowerOf3;
    PowersTo32();
    PowersTo256();
    PowerStep(256, 128, 379);
    PowerStep(384, 64, 673);
    PowerStep(448, 16, 928);
    PowerStep(464, 464, 1);
  }

  // Does 3^d come out as 1?
  predicate IsOne(d: nat) {
    PowerOf3(d) == 1
  }

  lemma {:induction false} MultipleIsOne(g: nat, k: nat)
    requires IsOne(g)
    ensures IsOne(g * k)
    decreases k
  {
    if k == 0 {
      assert PowerOf3(0) == 1;
    } else {
      MultipleIsOne(g, k - 1);
      assert g * k == g + g * (k - 1);
      PowerSum(g, g * (k - 1));
    }
  }

  lemma RemainderIsOne(a: nat, b: nat)
    requires IsOne(a) && IsOne(b) && b > 0
    ensures IsOne(a % b)
  {
    hide IsOne;
    var q := a / b;
    DivMod(a, b);
    NonNegativeProduct(b, q);
    MultipleIsOne(b, q);
    assert a == b * q + a % b;
    PowerSum(b * q, a % b);
    assert IsOne(a % b) by { SumIsOne(b * q, a % b); }
  }

  lemma NonNegativeProduct(x: nat, y: nat)
    ensures x * y >= 0
  {}

  lemma SumIsOne(a: nat, b: nat)
    requires IsOne(a) && IsOne(a + b)
    ensures IsOne(b)
  {
    hide PowerOf3;
    PowerSum(a, b);
    PowerIsResidue(b);
  }

  // A common divisor of two exponents that give 1 gives 1.
  lemma {:induction false} CommonDivisor(a: nat, b: nat) returns (g: nat)
    requires IsOne(a) && IsOne(b) && a > 0
    ensures 0 < g <= a && a % g == 0 && b % g == 0 && IsOne(g)
    decreases a
  {
    hide IsOne;
    if b % a == 0 {
      g := a;
      DivModOfSum(1, a, 0);
    } else {
      RemainderIsOne(b, a);
      DivMod(b, a);
      g := CommonDivisor(b % a, a);
      SumOfMultiples(b, a, g);
    }
  }

  lemma SumOfMultiples(b: nat, a: nat, g: nat)
    requires a > 0 && g > 0 && a % g == 0 && b % a % g == 0
    ensures b % g == 0
  {
    DivMod(b, a);
    var q, u, v := b / a, a / g, b % a / g;
    assert a == u * g && b % a == v * g && b == q * a + b % a;
    assert q * (u * g) == q * u * g;
    MulDistributes(q * u, v, g);
    NonNegativeProduct(q, u);
    DivModOfSum(q * u + v, g, 0);
  }

  // A proper divisor of 928, which is 32 times 29, divides 464 or 32.
  lemma ProperDivisor(g: nat, h: nat)
    requires g * h == 928 && h > 1
    ensures h % 2 == 0 || g == 32
  {
    if h % 2 == 1 {
      OddFactor(g, h, 464);
      OddFactor(g / 2, h, 232);
      OddFactor(g / 4, h, 116);
      OddFactor(g / 8, h, 58);
      OddFactor(g / 16, h, 29);
      TwentyNine(g / 32, h);
    }
  }

  lemma OddFactor(g: nat, h: nat, n: nat)
    requires g * h == 2 * n && h % 2 == 1
    ensures g % 2 == 0 && g / 2 * h == n
  {
    var k := h / 2;
    assert g * h == g * (2 * k + 1) == 2 * (g * k) + g;
    assert g / 2 * 2 * h == 2 * (g / 2 * h);
  }

  lemma TwentyNine(k: nat, h: nat)
    requires k * h == 29 && h > 1
    ensures k == 1
  {
    assert 29 % 2 == 1 && 29 % 3 == 2 && 29 % 4 == 1 && 29 % 5 == 4 && 29 % 6 == 5 && 29 % 7 == 1 && 29 % 8 == 5;
    assert 29 % 9 == 2 && 29 % 10 == 9 && 29 % 11 == 7 && 29 % 12 == 5 && 29 % 13 == 3 && 29 % 14 == 1;
    MulMonotone(2, h, k);
    assert k <= 14;
    if k > 1 {
      assert h * k == 29;
      DivModOfSum(h, k, 0);
    }
  }

  lemma OnlyWhole(g: nat, h: nat)
    requires IsOne(g) && g * h == 928
    ensures h == 1
  {
    hide PowerOf3;
    PowersTo32();
    PowersTo928();
    if h > 1 {
      ProperDivisor(g, h);
      if h % 2 == 0 {
        HalfOf(g, h);
        MultipleIsOne(g, h / 2);
      }
    }
  }

  lemma HalfOf(g: nat, h: nat)
    requires g * h == 928 && h % 2 == 0
    ensures g * (h / 2) == 464
  {
    assert g * h == g * (h / 2 * 2) == g * (h / 2) * 2;
  }

  lemma DivisorIsAll(g: nat)
    requires IsOne(g) && g > 0 && 928 % g == 0
    ensures g == 928
  {
    hide IsOne;
    var h := 928 / g;
    DivMod(928, g);
    assert g * h == h * g == 928;
    OnlyWhole(g, h);
  }

  lemma NoSmallerOrder(d: nat)
    requires 0 < d < 928
    ensures !IsOne(d)
  {
    if IsOne(d) {
      PowersTo928();
      hide PowerOf3;
      assert IsOne(928);
      hide IsOne;
      var g := CommonDivisor(d, 928);
      DivisorIsAll(g);
    }
  }

  lemma PowersDiffer(i: nat, j: nat)
    requires i < j < 928
    ensures !Cong(PowerOf3(j) - PowerOf3(i), 0)
  {
    hide Cong, PowerOf3;
    var a, b := PowerOf3(i), PowerOf3(j - i);
    PowerNotZero(i);
    NoSmallerOrder(j - i);
    PowerIsResidue(j - i);
    PowerSum(i, j - i);
    CongMod(a * b);
    if Cong(PowerOf3(j) - a, 0) {
      CongRefl(a);
      CongAdd(PowerOf3(j), a * b, a, a);
      CongSym(PowerOf3(j) - a, a * b - a);
      CongTrans(a * b - a, PowerOf3(j) - a, 0);
      assert a * b - a == a * (b - 1);
      ZeroProduct(a, b - 1);
      CongIsZero(b - 1);
    }
  }

  lemma {:induction false} PowerNotZero(i: nat)
    ensures !Cong(PowerOf3(i), 0)
    decreases i
  {
    hide Cong;
    CongIsZero(PowerOf3(i));
    if i > 0 {
      PowerNotZero(i - 1);
      CongIsZero(PowerOf3(i - 1) * 3);
      CongIsZero(3);
      if PowerOf3(i) % MOD == 0 { ZeroProduct(PowerOf3(i - 1), 3); }
    }
  }

  // ----- As many equations as unknowns -----

  // The sum of the values, each times a power of its own base.
  function PowerSums(E: seq<int>, X: seq<int>, j: nat): int
    requires |E| == |X|
  {
    if E == [] then 0
    else PowerSums(E[..|E| - 1], X[..|X| - 1], j) + E[|E| - 1] * Pow(X[|X| - 1], j)
  }

  // Every value times the difference of its base from x.
  function Reduced(E: seq<int>, X: seq<int>, x: int): (R: seq<int>)
    requires |E| == |X|
    ensures |R| == |E|
  {
    seq(|E|, i requires 0 <= i < |E| => E[i] * (X[i] - x))
  }

  lemma {:induction false} ReducedSums(E: seq<int>, X: seq<int>, x: int, j: nat)
    requires |E| == |X|
    ensures PowerSums(Reduced(E, X, x), X, j) == PowerSums(E, X, j + 1) - x * PowerSums(E, X, j)
    decreases |E|
  {
    if E != [] {
      var E', X', e, y := E[..|E| - 1], X[..|X| - 1], E[|E| - 1], X[|X| - 1];
      ReducedSums(E', X', x, j);
      assert Reduced(E, X, x)[..|E| - 1] == Reduced(E', X', x);
      LastTerm(e, y, x, Pow(y, j), PowerSums(E', X', j));
    }
  }

  lemma LastTerm(e: int, y: int, x: int, p: int, s: int)
    ensures e * (y - x) * p == e * (y * p) - x * (e * p)
    ensures x * (s + e * p) == x * s + x * (e * p)
  {
    assert e * (y - x) == e * y - e * x;
    assert (e * y - e * x) * p == e * y * p - e * x * p;
  }

  ghost predicate DistinctBases(X: seq<int>) {
    && (forall i :: 0 <= i < |X| ==> !Cong(X[i], 0))
    && (forall i, j :: 0 <= i < j < |X| ==> !Cong(X[i] - X[j], 0))
  }

  ghost predicate SumsVanish(E: seq<int>, X: seq<int>, n: nat)
    requires |E| == |X|
  {
    forall j :: 1 <= j <= n ==> Cong(PowerSums(E, X, j), 0)
  }

  // With distinct bases other than zero, and as many vanishing sums as there
  // are values, every value is zero.
  lemma {:induction false} OnlyZeroValues(E: seq<int>, X: seq<int>)
    requires |E| == |X| && DistinctBases(X) && SumsVanish(E, X, |E|)
    ensures forall i :: 0 <= i < |E| ==> Cong(E[i], 0)
    decreases |E|
  {
    hide Cong, PowerSums, Reduced;
    if E != [] {
      var n := |E| - 1;
      var E', X' := E[..n], X[..n];
      FewerSumsVanish(E, X);
      BasesPrefix(X);
      OnlyZeroValues(Reduced(E', X', X[n]), X');
      forall i | 0 <= i < n ensures Cong(E[i], 0) {
        ReducedIsZero(E, X, i);
      }
      LastIsZero(E, X);
    }
  }

  lemma BasesPrefix(X: seq<int>)
    requires DistinctBases(X) && X != []
    ensures DistinctBases(X[..|X| - 1])
  {
    hide Cong;
  }

  lemma FewerSumsVanish(E: seq<int>, X: seq<int>)
    requires |E| == |X| > 0 && SumsVanish(E, X, |E|)
    ensures var n := |E| - 1; SumsVanish(Reduced(E[..n], X[..n], X[n]), X[..n], n)
  {
    hide Cong, Reduced;
    var n := |E| - 1;
    var E', X', x := E[..n], X[..n], X[n];
    forall j | 1 <= j <= n ensures Cong(PowerSums(Reduced(E', X', x), X', j), 0) {
      ReducedSums(E', X', x, j);
      var s, t := PowerSums(E, X, j + 1), PowerSums(E, X, j);
      LastDropsOut(PowerSums(E', X', j + 1), PowerSums(E', X', j), E[n], x, j);
      assert PowerSums(Reduced(E', X', x), X', j) == s - x * t;
      CongMul(t, 0, x);
      CongAdd(s, 0, t * x, 0 * x);
      assert t * x == x * t;
    }
  }

  lemma LastDropsOut(s: int, t: int, e: int, x: int, j: nat)
    ensures s - x * t == s + e * Pow(x, j + 1) - x * (t + e * Pow(x, j))
  {
    var p := Pow(x, j);
    assert Pow(x, j + 1) == x * p;
    assert e * (x * p) == x * (e * p);
    MulDistributes(t, e * p, x);
    assert x * (t + e * p) == x * t + x * (e * p);
  }

  lemma ReducedIsZero(E: seq<int>, X: seq<int>, i: nat)
    requires |E| == |X| > 0 && DistinctBases(X) && i < |E| - 1
    requires var n := |E| - 1; Cong(Reduced(E[..n], X[..n], X[n])[i], 0)
    ensures Cong(E[i], 0)
  {
    hide Cong;
    var n := |E| - 1;
    assert Reduced(E[..n], X[..n], X[n])[i] == E[i] * (X[i] - X[n]);
    ZeroProduct(E[i], X[i] - X[n]);
  }

  lemma {:induction false} ZeroSum(E: seq<int>, X: seq<int>, j: nat)
    requires |E| == |X| && forall i :: 0 <= i < |E| ==> Cong(E[i], 0)
    ensures Cong(PowerSums(E, X, j), 0)
    decreases |E|
  {
    hide Cong;
    if E == [] {
      CongRefl(0);
    } else {
      var n := |E| - 1;
      ZeroSum(E[..n], X[..n], j);
      CongMul(E[n], 0, Pow(X[n], j));
      CongAdd(PowerSums(E[..n], X[..n], j), 0, E[n] * Pow(X[n], j), 0 * Pow(X[n], j));
    }
  }

  lemma LastIsZero(E: seq<int>, X: seq<int>)
    requires |E| == |X| > 0 && DistinctBases(X) && SumsVanish(E, X, |E|)
    requires forall i :: 0 <= i < |E| - 1 ==> Cong(E[i], 0)
    ensures Cong(E[|E| - 1], 0)
  {
    hide Cong;
    var n := |E| - 1;
    ZeroSum(E[..n], X[..n], 1);
    var s, t := PowerSums(E, X, 1), PowerSums(E[..n], X[..n], 1);
    assert Cong(s, 0);
    CongAdd(s, 0, t, 0);
    assert Pow(X[n], 1) == X[n] by { assert Pow(X[n], 0) == 1; }
    assert s - t == E[n] * X[n];
    ZeroProduct(E[n], X[n]);
  }

  // ----- Words -----

  // The places, counted from the end, where a word is not zero, and what is
  // there.
  function Places(u: seq<int>): seq<nat> {
    if u == [] then [] else (if u[0] == 0 then [] else [|u| - 1]) + Places(u[1..])
  }

  function Values(u: seq<int>): (E: seq<int>)
    ensures |E| == |Places(u)|
  {
    if u == [] then [] else (if u[0] == 0 then [] else [u[0]]) + Values(u[1..])
  }

  lemma {:induction false} PlacesDescend(u: seq<int>)
    ensures forall i :: 0 <= i < |Places(u)| ==> Places(u)[i] < |u|
    ensures forall i, j :: 0 <= i < j < |Places(u)| ==> Places(u)[i] > Places(u)[j]
    decreases |u|
  {
    if u != [] {
      PlacesDescend(u[1..]);
      var P, rest := Places(u), Places(u[1..]);
      if u[0] == 0 {
        assert P == rest;
      } else {
        assert P == [|u| - 1] + rest;
        assert forall i :: 0 < i < |P| ==> P[i] == rest[i - 1];
      }
    }
  }

  lemma {:induction false} ValuesInRange(u: seq<int>)
    requires forall i :: 0 <= i < |u| ==> -MOD < u[i] < MOD
    ensures forall i :: 0 <= i < |Values(u)| ==> -MOD < Values(u)[i] < MOD && Values(u)[i] != 0
    decreases |u|
  {
    if u != [] { ValuesInRange(u[1..]); }
  }

  function Bases(P: seq<nat>): (X: seq<int>)
    ensures |X| == |P|
  {
    seq(|P|, i requires 0 <= i < |P| => PowerOf3(P[i]))
  }

  lemma {:induction false} SumsFromFront(e: int, E: seq<int>, x: int, X: seq<int>, j: nat)
    requires |E| == |X|
    ensures PowerSums([e] + E, [x] + X, j) == e * Pow(x, j) + PowerSums(E, X, j)
    decreases |E|
  {
    hide Pow;
    var E1, X1 := [e] + E, [x] + X;
    if E == [] {
      assert E1[..0] == [] && X1[..0] == [];
      assert PowerSums(E1[..0], X1[..0], j) == 0;
    } else {
      var n := |E| - 1;
      SumsFromFront(e, E[..n], x, X[..n], j);
      assert E1[..n + 1] == [e] + E[..n] && X1[..n + 1] == [x] + X[..n];
    }
  }

  // Raising 3^i to the k-th power and 3^k to the i-th comes to the same.
  lemma {:induction false} PowOfPower(i: nat, k: nat)
    ensures i * k >= 0 && Cong(Pow(PowerOf3(i), k), PowerOf3(i * k))
    decreases k
  {
    hide Cong, PowerOf3;
    NonNegativeProduct(i, k);
    if k == 0 {
      assert PowerOf3(0) == 1 by { PowerZero(); }
      CongRefl(1);
    } else {
      var p := PowerOf3(i);
      PowOfPower(i, k - 1);
      assert i * k == i + i * (k - 1);
      PowerSum(i, i * (k - 1));
      CongMul(Pow(p, k - 1), PowerOf3(i * (k - 1)), p);
      CongMod(p * PowerOf3(i * (k - 1)));
      CongSym(PowerOf3(i * k), p * PowerOf3(i * (k - 1)));
      assert Pow(p, k) == Pow(p, k - 1) * p;
      CongTrans(Pow(p, k), PowerOf3(i * (k - 1)) * p, PowerOf3(i * k));
    }
  }

  lemma PowerZero()
    ensures PowerOf3(0) == 1
  {}

  lemma PowersSwap(i: nat, k: nat)
    ensures Cong(Pow(PowerOf3(i), k), Pow(PowerOf3(k), i))
  {
    hide Cong, PowerOf3, Pow;
    PowOfPower(i, k);
    PowOfPower(k, i);
    assert i * k == k * i;
    CongSym(Pow(PowerOf3(k), i), PowerOf3(i * k));
    CongTrans(Pow(PowerOf3(i), k), PowerOf3(i * k), Pow(PowerOf3(k), i));
  }

  lemma NextPlace(u: seq<int>)
    requires u != []
    ensures u[0] == 0 ==> Values(u) == Values(u[1..]) && Places(u) == Places(u[1..])
    ensures u[0] != 0 ==> Values(u) == [u[0]] + Values(u[1..]) && Places(u) == [|u| - 1] + Places(u[1..])
  {}

  lemma NextBase(p: nat, P: seq<nat>)
    ensures Bases([p] + P) == [PowerOf3(p)] + Bases(P)
  {
    hide PowerOf3;
  }

  lemma CongOfSums(e: int, p: int, q: int, v: int, s: int)
    requires Cong(p, q) && Cong(v, s)
    ensures Cong(e * p + v, e * q + s)
  {
    hide Cong;
    CongMul(p, q, e);
    CongAdd(p * e, q * e, v, s);
    assert p * e == e * p && q * e == e * q;
  }

  // A word read at 3^j is the sum over its nonzero places.
  lemma {:induction false} WordSum(u: seq<int>, j: nat)
    ensures Cong(Value(PowerOf3(j), u), PowerSums(Values(u), Bases(Places(u)), j))
    decreases |u|
  {
    hide Cong, PowerOf3, Pow, PowerSums, Value, Values, Places, Bases;
    if u == [] {
      EmptySums(PowerOf3(j), j);
      CongRefl(0);
    } else {
      var r, k, rest := PowerOf3(j), |u| - 1, u[1..];
      WordSum(rest, j);
      LeadEval(u, r);
      NextPlace(u);
      if u[0] != 0 {
        NextBase(k, Places(rest));
        SumsFromFront(u[0], Values(rest), PowerOf3(k), Bases(Places(rest)), j);
        PowersSwap(j, k);
        CongOfSums(u[0], Pow(r, k), Pow(PowerOf3(k), j), Value(r, rest),
            PowerSums(Values(rest), Bases(Places(rest)), j));
      }
    }
  }

  lemma EmptySums(r: int, j: nat)
    ensures Value(r, []) == 0 && PowerSums(Values([]), Bases(Places([])), j) == 0
  {}

  lemma BasesDiffer(P: seq<nat>)
    requires forall i :: 0 <= i < |P| ==> P[i] < 928
    requires forall i, j :: 0 <= i < j < |P| ==> P[i] > P[j]
    ensures DistinctBases(Bases(P))
  {
    hide Cong, PowerOf3;
    var X := Bases(P);
    forall i | 0 <= i < |X| ensures !Cong(X[i], 0) { PowerNotZero(P[i]); }
    forall i, j | 0 <= i < j < |X| ensures !Cong(X[i] - X[j], 0) { PowersDiffer(P[j], P[i]); }
  }

  // A word of residues' differences that is zero at 3, 3^2, ..., 3^n and has
  // at most n places that are not zero has none.
  lemma NoLightWord(u: seq<int>, n: nat)
    requires |u| <= 928 && |Places(u)| <= n
    requires forall i :: 0 <= i < |u| ==> -MOD < u[i] < MOD
    requires forall j :: 1 <= j <= n ==> Cong(Value(PowerOf3(j), u), 0)
    ensures Places(u) == []
  {
    hide Cong, PowerOf3, Value, PowerSums, Bases, Values, Places;
    var E, X := Values(u), Bases(Places(u));
    PlacesDescend(u);
    ValuesInRange(u);
    BasesDiffer(Places(u));
    forall j | 1 <= j <= |E| ensures Cong(PowerSums(E, X, j), 0) {
      WordSum(u, j);
      CongSym(Value(PowerOf3(j), u), PowerSums(E, X, j));
      CongTrans(PowerSums(E, X, j), Value(PowerOf3(j), u), 0);
    }
    OnlyZeroValues(E, X);
    if E != [] {
      CongIsZero(E[0]);
      SmallResidue(E[0]);
    }
  }

  lemma SmallResidue(e: int)
    requires -MOD < e < MOD && e % MOD == 0
    ensures e == 0
  {}

  // ----- Two words -----

  function Differences(c: seq<int>, d: seq<int>): nat
    requires |c| == |d|
  {
    if c == [] then 0 else (if c[0] == d[0] then 0 else 1) + Differences(c[1..], d[1..])
  }

  function Minus(c: seq<int>, d: seq<int>): (u: seq<int>)
    requires |c| == |d|
    ensures |u| == |c|
  {
    seq(|c|, i requires 0 <= i < |c| => c[i] - d[i])
  }

  lemma {:induction false} DifferencesArePlaces(c: seq<int>, d: seq<int>)
    requires |c| == |d|
    ensures |Places(Minus(c, d))| == Differences(c, d) && (Places(Minus(c, d)) == [] ==> c == d)
    decreases |c|
  {
    if c != [] {
      DifferencesArePlaces(c[1..], d[1..]);
      assert Minus(c, d)[1..] == Minus(c[1..], d[1..]);
      assert c == [c[0]] + c[1..] && d == [d[0]] + d[1..];
    }
  }

  lemma {:induction false} ValueOfMinus(r: int, c: seq<int>, d: seq<int>)
    requires |c| == |d|
    ensures Value(r, Minus(c, d)) == Value(r, c) - Value(r, d)
    decreases |c|
  {
    if c != [] {
      var n := |c| - 1;
      ValueOfMinus(r, c[..n], d[..n]);
      assert Minus(c, d)[..n] == Minus(c[..n], d[..n]);
      assert (Value(r, c[..n]) - Value(r, d[..n])) * r == Value(r, c[..n]) * r - Value(r, d[..n]) * r;
    }
  }

  // Two words of one length, up to 928 codewords, that are zero at 3, 3^2,
  // ..., 3^n and differ in at most n places are equal.
  lemma SameWord(c: seq<int>, d: seq<int>, n: nat)
    requires |c| == |d| <= 928 && Differences(c, d) <= n
    requires forall i :: 0 <= i < |c| ==> 0 <= c[i] < MOD && 0 <= d[i] < MOD
    requires forall j :: 1 <= j <= n ==> Cong(Value(PowerOf3(j), c), 0) && Cong(Value(PowerOf3(j), d), 0)
    ensures c == d
  {
    hide Cong, PowerOf3, Value, Places, Differences;
    var u := Minus(c, d);
    DifferencesArePlaces(c, d);
    forall j | 1 <= j <= n ensures Cong(Value(PowerOf3(j), u), 0) {
      var r := PowerOf3(j);
      ValueOfMinus(r, c, d);
      CongAdd(Value(r, c), 0, Value(r, d), 0);
    }
    NoLightWord(u, n);
  }

  // Two words that are both within reach of a third are equal.
  lemma {:induction false} DifferencesAdd(c: seq<int>, w: seq<int>, d: seq<int>)
    requires |c| == |w| == |d|
    ensures Differences(c, d) <= Differences(c, w) + Differences(w, d)
    decreases |c|
  {
    if c != [] { DifferencesAdd(c[1..], w[1..], d[1..]); }
  }

  lemma {:induction false} FewDifferences(c: seq<int>, d: seq<int>)
    requires |c| == |d|
    ensures Differences(c, d) <= |c|
    decreases |c|
  {
    if c != [] { FewDifferences(c[1..], d[1..]); }
  }

  lemma {:induction false} SameHead(data: seq<int>, R: seq<int>, R': seq<int>)
    requires |R| == |R'|
    ensures Differences(data + R, data + R') == Differences(R, R')
    decreases |data|
  {
    if data == [] {
      assert data + R == R && data + R' == R';
    } else {
      assert (data + R)[1..] == data[1..] + R && (data + R')[1..] == data[1..] + R';
      SameHead(data[1..], R, R');
    }
  }

  // Is the word zero at 3, 3^2, ..., 3^n?
  ghost predicate ZeroAtPowers(c: seq<int>, n: nat) {
    forall j :: 1 <= j <= n ==> Cong(Value(PowerOf3(j), c), 0)
  }

  // The check codewords are the only n codewords that, behind the data, make
  // a word that is zero at 3, 3^2, ..., 3^n.
  lemma CheckCodewordsAreOnly(data: seq<int>, R: seq<int>, n: nat)
    requires n == |R| > 0 && |data| + n <= 928
    requires forall i :: 0 <= i < |data| ==> 0 <= data[i] < 929
    requires forall i :: 0 <= i < n ==> 0 <= R[i] < 929
    ensures |Generator(n).ToSeq()| == n
    ensures R == CheckCodewords(Generator(n).ToSeq(), data) <==> ZeroAtPowers(data + R, n)
  {
    hide Cong, Root, PowerOf3, Value, Generator, Differences, CheckCodewords;
    GeneratorRoots(n, 1);
    var A := Generator(n).ToSeq();
    var C := CheckCodewords(A, data);
    forall j | 1 <= j <= n ensures Cong(Value(PowerOf3(j), data + C), 0) {
      GeneratorRoots(n, j);
      CodeVanishesAtRoots(A, data, PowerOf3(j));
    }
    if ZeroAtPowers(data + R, n) {
      SameHead(data, R, C);
      FewDifferences(R, C);
      SameWord(data + R, data + C, n);
      assert R == (data + R)[|data|..] && C == (data + C)[|data|..];
    }
  }

  // The bound is exact: a generator, its leading 1 in front, is such a word,
  // and differs from the zero word in no more than n + 1 places.
  lemma GeneratorIsLight(n: nat, j: nat)
    requires 1 <= j <= n
    ensures var A := Generator(n).ToSeq();
            var c, zero := [1] + Reversed(A), seq(n + 1, _ => 0);
            && |c| == n + 1 && c != zero && Differences(c, zero) <= n + 1
            && Cong(Value(PowerOf3(j), c), 0) && Cong(Value(PowerOf3(j), zero), 0)
  {
    hide Cong, PowerOf3, Value, Generator, Pow;
    var A, r := Generator(n).ToSeq(), PowerOf3(j);
    GeneratorRoots(n, j);
    EvalReversed(A, r);
    LeadEval([1] + Reversed(A), r);
    assert ([1] + Reversed(A))[1..] == Reversed(A);
    ZeroValue(r, seq(n + 1, _ => 0));
    CongRefl(0);
    FewDifferences([1] + Reversed(A), seq(n + 1, _ => 0));
  }
}
