// calculateErrorCorrection: the remainder of the message polynomial modulo a
// generator over the integers mod 929, computed in place (section 5.10 of
// ISO/IEC 15438:2006).

module ErrorCorrection {
  import opened Radix

  const MOD := 929

  // Congruence, with the multiple made explicit.
  ghost predicate Cong(a: int, b: int) {
    exists q: int :: Times929(q) == a - b
  }

  function Times929(q: int): int { q * 929 }

  lemma CongAdd(a: int, b: int, c: int, d: int)
    requires Cong(a, b) && Cong(c, d)
    ensures Cong(a + c, b + d) && Cong(a - c, b - d)
  {
    var p: int :| Times929(p) == a - b;
    var q: int :| Times929(q) == c - d;
    assert Times929(p + q) == a + c - (b + d);
    assert Times929(p - q) == a - c - (b - d);
  }

  lemma CongMul(a: int, b: int, c: int)
    requires Cong(a, b)
    ensures Cong(a * c, b * c)
  {
    var p: int :| Times929(p) == a - b;
    assert p * c * 929 == (p * 929) * c;
    assert Times929(p * c) == a * c - b * c;
  }

  lemma CongRefl(a: int)
    ensures Cong(a, a)
  {
    assert Times929(0) == a - a;
  }

  lemma CongSym(a: int, b: int)
    requires Cong(a, b)
    ensures Cong(b, a)
  {
    var p: int :| Times929(p) == a - b;
    assert Times929(-p) == b - a;
  }

  lemma CongTrans(a: int, b: int, c: int)
    requires Cong(a, b) && Cong(b, c)
    ensures Cong(a, c)
  {
    CongAdd(a, b, b, c);
    var p: int :| Times929(p) == a + b - (b + c);
    assert Times929(p) == a - c;
  }

  lemma CongMod(a: int)
    ensures Cong(a % MOD, a)
  {
    assert Times929(-(a / MOD)) == a % MOD - a;
  }

  // Read in base r, a sequence is the value at r of the polynomial with these
  // coefficients, highest first.

  // The value at r of the polynomial with these coefficients, lowest first.
  function EvalLow(a: seq<int>, r: int): int {
    if a == [] then 0 else EvalLow(a[1..], r) * r + a[0]
  }

  // r is a root mod 929 of x^n + A[n-1] x^(n-1) + ... + A[0].
  ghost predicate Root(A: seq<int>, r: int) {
    Cong(Pow(r, |A|) + EvalLow(A, r), 0)
  }

  // ----- The specification: one coefficient of the message at a time -----

  // The remainder after one more message codeword: shift up, and take off the
  // generator times what was shifted out.
  function Shift(A: seq<int>, E: seq<int>, d: int): (R: seq<int>)
    requires |E| == |A| > 0
    ensures |R| == |A| && forall e :: 0 <= e < |R| ==> 0 <= R[e] < MOD
  {
    var t1 := d + E[0];
    seq(|E|, e requires 0 <= e < |E| => Shifted(A, E, t1, e))
  }

  function Shifted(A: seq<int>, E: seq<int>, t1: int, e: nat): int
    requires e < |E| == |A|
  {
    ((if e == |E| - 1 then 0 else E[e + 1]) + (MOD - t1 * A[|A| - 1 - e] % MOD)) % MOD
  }

  function Remainder(A: seq<int>, data: seq<int>): (R: seq<int>)
    requires |A| > 0
    ensures |R| == |A| && forall e :: 0 <= e < |R| ==> 0 <= R[e] < MOD
  {
    if data == [] then seq(|A|, _ => 0)
    else Shift(A, Remainder(A, data[..|data| - 1]), data[|data| - 1])
  }

  function Negated(E: seq<int>): (R: seq<int>)
    ensures |R| == |E|
    ensures forall e :: 0 <= e < |R| ==> 0 <= R[e] < MOD
  {
    seq(|E|, e requires 0 <= e < |E| => (MOD - E[e]) % MOD)
  }

  function CheckCodewords(A: seq<int>, data: seq<int>): (R: seq<int>)
    requires |A| > 0
    ensures |R| == |A| && forall e :: 0 <= e < |R| ==> 0 <= R[e] < MOD
  {
    Negated(Remainder(A, data))
  }

  // ----- Why it works -----

  // The coefficients e, e+1, ... of one shifted remainder, congruent term by
  // term to r times the old ones less t1 times the generator.
  lemma {:induction false} ShiftEval(A: seq<int>, E: seq<int>, t1: int, n: nat, r: int)
    requires |E| == |A| && 0 < n <= |E|
    ensures Cong(Value(r, seq(n, e requires 0 <= e < n => Shifted(A, E, t1, e))),
                 Value(r, seq(n, e requires 0 <= e < n => (if e == |E| - 1 then 0 else E[e + 1])))
                 - t1 * Value(r, seq(n, e requires 0 <= e < n => A[|A| - 1 - e])))
    decreases n
  {
    var s := seq(n, e requires 0 <= e < n => Shifted(A, E, t1, e));
    var u := seq(n, e requires 0 <= e < n => (if e == |E| - 1 then 0 else E[e + 1]));
    var w := seq(n, e requires 0 <= e < n => A[|A| - 1 - e]);
    var s', u', w' := s[..n - 1], u[..n - 1], w[..n - 1];
    if n > 1 {
      ShiftEval(A, E, t1, n - 1, r);
      assert s' == seq(n - 1, e requires 0 <= e < n - 1 => Shifted(A, E, t1, e));
      assert u' == seq(n - 1, e requires 0 <= e < n - 1 => (if e == |E| - 1 then 0 else E[e + 1]));
      assert w' == seq(n - 1, e requires 0 <= e < n - 1 => A[|A| - 1 - e]);
    } else {
      CongRefl(0);
    }
    ShiftedCong(u[n - 1], t1, w[n - 1]);
    HornerCong(Value(r, s'), Value(r, u'), Value(r, w'), t1, r, s[n - 1], u[n - 1], w[n - 1]);
  }

  lemma ShiftedCong(x: int, t1: int, a: int)
    ensures Cong((x + (MOD - t1 * a % MOD)) % MOD, x - t1 * a)
  {
    var m := t1 * a;
    CongMod(x + (MOD - m % MOD));
    assert Times929(m / MOD + 1) == x + (MOD - m % MOD) - (x - m);
    CongTrans((x + (MOD - m % MOD)) % MOD, x + (MOD - m % MOD), x - m);
  }

  lemma HornerCong(s: int, u: int, w: int, t: int, r: int, a: int, b: int, c: int)
    requires Cong(s, u - t * w) && Cong(a, b - t * c)
    ensures Cong(s * r + a, (u * r + b) - t * (w * r + c))
  {
    CongMul(s, u - t * w, r);
    CongAdd(s * r, (u - t * w) * r, a, b - t * c);
    assert (u - t * w) * r == u * r - t * (w * r);
    assert t * (w * r + c) == t * (w * r) + t * c;
  }

  // The last place of a sum of two parts.
  lemma EvalSingle(x: int, r: int)
    ensures Value(r, [x]) == x
  {
    assert [x][..0] == [];
  }

  function Reversed(A: seq<int>): seq<int> {
    seq(|A|, e requires 0 <= e < |A| => A[|A| - 1 - e])
  }

  lemma {:induction false} EvalReversed(A: seq<int>, r: int)
    ensures Value(r, Reversed(A)) == EvalLow(A, r)
    decreases |A|
  {
    if A != [] {
      EvalReversed(A[1..], r);
      assert Reversed(A)[..|A| - 1] == Reversed(A[1..]);
    }
  }

  lemma LeadEval(E: seq<int>, r: int)
    requires E != []
    ensures Value(r, E) == E[0] * Pow(r, |E| - 1) + Value(r, E[1..])
  {
    hide Value;
    ValueAppend(r, [E[0]], E[1..]);
    EvalSingle(E[0], r);
    assert [E[0]] + E[1..] == E;
  }

  lemma UpEval(s: seq<int>, r: int)
    ensures Value(r, s + [0]) == Value(r, s) * r
  {
    assert (s + [0])[..|s|] == s;
  }

  lemma ShiftCong(A: seq<int>, E: seq<int>, d: int, r: int)
    requires |E| == |A| > 0
    ensures Cong(Value(r, Shift(A, E, d)), Value(r, E[1..]) * r - (d + E[0]) * EvalLow(A, r))
  {
    hide Value, EvalLow, Shifted, Cong;
    var n := |A|;
    ShiftEval(A, E, d + E[0], n, r);
    assert seq(n, e requires 0 <= e < n => Shifted(A, E, d + E[0], e)) == Shift(A, E, d);
    assert seq(n, e requires 0 <= e < n => (if e == |E| - 1 then 0 else E[e + 1])) == E[1..] + [0];
    assert seq(n, e requires 0 <= e < n => A[|A| - 1 - e]) == Reversed(A);
    EvalReversed(A, r);
    UpEval(E[1..], r);
  }

  // One shift multiplies the remainder by r and adds the new codeword times
  // r^n, as far as a root r of the generator can tell.
  lemma ShiftAtRoot(A: seq<int>, E: seq<int>, d: int, r: int)
    requires |E| == |A| > 0 && Root(A, r)
    ensures Cong(Value(r, Shift(A, E, d)), Value(r, E) * r + d * Pow(r, |A|))
  {
    hide Value, EvalLow, Shift, Cong, Pow;
    var n := |A|;
    ShiftCong(A, E, d, r);
    LeadEval(E, r);
    PowStep(r, n);
    RootStep(Value(r, E), Value(r, E[1..]), E[0], d, EvalLow(A, r), Pow(r, n - 1), Pow(r, n), r);
    CongTrans(Value(r, Shift(A, E, d)), Value(r, E[1..]) * r - (d + E[0]) * EvalLow(A, r),
              Value(r, E) * r + d * Pow(r, n));
  }

  lemma PowStep(r: int, n: nat)
    requires n > 0
    ensures Pow(r, n) == Pow(r, n - 1) * r
  {}

  lemma RootStep(v: int, rest: int, e0: int, d: int, low: int, p: int, q: int, r: int)
    requires v == e0 * p + rest && q == p * r && Cong(q + low, 0)
    ensures Cong(rest * r - (d + e0) * low, v * r + d * q)
  {
    hide Cong;
    CongMul(q + low, 0, -(d + e0));
    CongRefl(v * r + d * q);
    CongAdd(v * r + d * q, v * r + d * q, (q + low) * -(d + e0), 0 * -(d + e0));
    assert v * r == e0 * q + rest * r;
    assert (q + low) * -(d + e0) == -(d * q) - e0 * q - (d + e0) * low;
  }

  lemma {:induction false} RemainderAtRoot(A: seq<int>, data: seq<int>, r: int)
    requires |A| > 0 && Root(A, r)
    ensures Cong(Value(r, Remainder(A, data)), Value(r, data) * Pow(r, |A|))
    decreases |data|
  {
    hide Cong, Shift, Root;
    var n := |A|;
    if data == [] {
      ZeroValue(r, Remainder(A, data));
      CongRefl(0);
    } else {
      var data', d := data[..|data| - 1], data[|data| - 1];
      var E := Remainder(A, data');
      RemainderAtRoot(A, data', r);
      ShiftAtRoot(A, E, d, r);
      CongMul(Value(r, E), Value(r, data') * Pow(r, n), r);
      CongRefl(d * Pow(r, n));
      CongAdd(Value(r, E) * r, Value(r, data') * Pow(r, n) * r, d * Pow(r, n), d * Pow(r, n));
      assert Value(r, data') * Pow(r, n) * r + d * Pow(r, n) == (Value(r, data') * r + d) * Pow(r, n);
      CongTrans(Value(r, Remainder(A, data)), Value(r, E) * r + d * Pow(r, n), Value(r, data) * Pow(r, n));
    }
  }

  lemma {:induction false} EvalNegated(E: seq<int>, r: int)
    ensures Cong(Value(r, Negated(E)), -Value(r, E))
    decreases |E|
  {
    hide Cong;
    if E == [] {
      CongRefl(0);
    } else {
      var E', x := E[..|E| - 1], E[|E| - 1];
      EvalNegated(E', r);
      assert Negated(E)[..|E| - 1] == Negated(E');
      NegatedCong(x);
      NegatedHorner(Value(r, Negated(E')), Value(r, E'), (MOD - x) % MOD, x, r);
    }
  }

  lemma NegatedHorner(u: int, v: int, y: int, x: int, r: int)
    requires Cong(u, -v) && Cong(y, -x)
    ensures Cong(u * r + y, -(v * r + x))
  {
    hide Cong;
    CongMul(u, -v, r);
    CongAdd(u * r, -v * r, y, -x);
    assert -v * r == -(v * r);
  }

  lemma NegatedCong(x: int)
    ensures Cong((MOD - x) % MOD, -x)
  {
    CongMod(MOD - x);
    assert Times929(1) == (MOD - x) - (-x);
    CongTrans((MOD - x) % MOD, MOD - x, -x);
  }

  // The message followed by its check codewords is a multiple of the
  // generator: it vanishes at every root of it.
  lemma CodeVanishesAtRoots(A: seq<int>, data: seq<int>, r: int)
    requires |A| > 0 && Root(A, r)
    ensures Cong(Value(r, data + CheckCodewords(A, data)), 0)
  {
    hide Cong, Root, Value;
    var R := Remainder(A, data);
    ValueAppend(r, data, CheckCodewords(A, data));
    RemainderAtRoot(A, data, r);
    EvalNegated(R, r);
    var p := Value(r, data) * Pow(r, |A|);
    CongRefl(p);
    CongAdd(p, p, Value(r, Negated(R)), -Value(r, R));
    CongRefl(p);
    CongAdd(p, p, Value(r, R), p);
    CongSym(p - Value(r, R), p - p);
    CongSym(0, p - Value(r, R));
    CongTrans(p + Value(r, Negated(R)), p - Value(r, R), 0);
  }

  // ----- The generators: roots 3, 3^2, ..., 3^n -----

  // Coefficients below the leading 1, lowest first.
  datatype Coefficients = Nil | Cons(head: int, tail: Coefficients) {
    function ToSeq(): seq<int> {
      match this
      case Nil => []
      case Cons(h, t) => [h] + t.ToSeq()
    }
  }

  // The coefficients of (x - a) times x^|l| + l; prev is the one carried in.
  function TimesRoot(l: Coefficients, prev: int, a: int): Coefficients {
    match l
    case Nil => Cons((prev - a) % MOD, Nil)
    case Cons(h, t) => Cons((prev - a * h) % MOD, TimesRoot(t, h, a))
  }

  function PowerOf3(j: nat): int {
    if j == 0 then 1 else PowerOf3(j - 1) * 3 % MOD
  }

  function Generator(n: nat): Coefficients {
    if n == 0 then Nil else TimesRoot(Generator(n - 1), 0, PowerOf3(n))
  }

  // The value at x of x^|s| + s.
  function Monic(s: seq<int>, x: int): int {
    Pow(x, |s|) + EvalLow(s, x)
  }

  lemma MonicCons(h: int, s: seq<int>, x: int)
    ensures Monic([h] + s, x) == Monic(s, x) * x + h
  {
    assert ([h] + s)[1..] == s;
    assert Pow(x, |s| + 1) == Pow(x, |s|) * x;
  }

  lemma MonicNil(x: int)
    ensures Monic([], x) == 1
  {}

  lemma {:induction false} TimesRootEval(l: Coefficients, prev: int, a: int, x: int)
    ensures |TimesRoot(l, prev, a).ToSeq()| == |l.ToSeq()| + 1
    ensures Cong(Monic(TimesRoot(l, prev, a).ToSeq(), x), prev + (x - a) * Monic(l.ToSeq(), x))
  {
    hide Cong, Monic;
    match l
    case Nil =>
      TimesRootOfNil(prev, a, x);
    case Cons(h, t) =>
      TimesRootEval(t, h, a, x);
      MonicCons(h, t.ToSeq(), x);
      MonicCons((prev - a * h) % MOD, TimesRoot(t, h, a).ToSeq(), x);
      RootHorner(Monic(TimesRoot(t, h, a).ToSeq(), x), Monic(t.ToSeq(), x), prev, h, a, x,
                 Monic(TimesRoot(l, prev, a).ToSeq(), x), Monic(l.ToSeq(), x));
  }

  lemma TimesRootOfNil(prev: int, a: int, x: int)
    ensures TimesRoot(Nil, prev, a).ToSeq() == [(prev - a) % MOD]
    ensures Cong(Monic(TimesRoot(Nil, prev, a).ToSeq(), x), prev + (x - a) * Monic([], x))
  {
    hide Cong, Monic;
    MonicNil(x);
    MonicCons((prev - a) % MOD, [], x);
    assert TimesRoot(Nil, prev, a).ToSeq() == [(prev - a) % MOD] + [];
    CongMod(prev - a);
    CongRefl(x);
    CongAdd(x, x, (prev - a) % MOD, prev - a);
  }

  lemma RootHorner(u: int, w: int, prev: int, h: int, a: int, x: int, v: int, m: int)
    requires Cong(u, h + (x - a) * w)
    requires v == u * x + (prev - a * h) % MOD && m == w * x + h
    ensures Cong(v, prev + (x - a) * m)
  {
    hide Cong;
    CongMod(prev - a * h);
    CongMul(u, h + (x - a) * w, x);
    CongAdd(u * x, (h + (x - a) * w) * x, (prev - a * h) % MOD, prev - a * h);
    assert (h + (x - a) * w) * x == h * x + (x - a) * (w * x);
    assert (x - a) * (w * x + h) == (x - a) * (w * x) + (x * h - a * h);
  }

  // The generator of degree n vanishes at every power of 3 up to the n-th.
  lemma {:induction false} GeneratorRoots(n: nat, j: nat)
    requires 1 <= j <= n
    ensures |Generator(n).ToSeq()| == n && Root(Generator(n).ToSeq(), PowerOf3(j))
    decreases n
  {
    hide Cong, Monic, TimesRoot, PowerOf3;
    GeneratorLength(n);
    var s, a, x := Generator(n - 1).ToSeq(), PowerOf3(n), PowerOf3(j);
    TimesRootEval(Generator(n - 1), 0, a, x);
    MonicIsRoot(s, x);
    MonicIsRoot(Generator(n).ToSeq(), x);
    if j < n {
      GeneratorRoots(n - 1, j);
    }
    RootOfProduct(Monic(Generator(n).ToSeq(), x), Monic(s, x), a, x);
  }

  lemma RootOfProduct(v: int, w: int, a: int, x: int)
    requires Cong(v, 0 + (x - a) * w) && (x == a || Cong(w, 0))
    ensures Cong(v, 0)
  {
    hide Cong;
    if x == a {
      assert (x - a) * w == 0;
    } else {
      CongMul(w, 0, x - a);
      assert w * (x - a) == (x - a) * w;
      CongTrans(v, (x - a) * w, 0);
    }
  }

  lemma MonicIsRoot(A: seq<int>, x: int)
    ensures Root(A, x) <==> Cong(Monic(A, x), 0)
  {}

  lemma {:induction false} GeneratorLength(n: nat)
    ensures |Generator(n).ToSeq()| == n
  {
    if n > 0 {
      GeneratorLength(n - 1);
      TimesRootEval(Generator(n - 1), 0, PowerOf3(n), 0);
    }
  }

  const ERROR_LEVEL0 := [27, 917]
  const ERROR_LEVEL1 := [522, 568, 723, 809]
  const ERROR_LEVEL2 := [237, 308, 436, 284, 646, 653, 428, 379]

  lemma SmallPowersOf3()
    ensures PowerOf3(1) == 3 && PowerOf3(2) == 9 && PowerOf3(3) == 27 && PowerOf3(4) == 81
    ensures PowerOf3(5) == 243 && PowerOf3(6) == 729 && PowerOf3(7) == 329 && PowerOf3(8) == 58
  {
    assert PowerOf3(0) == 1;
    assert PowerOf3(1) == 3;
    assert PowerOf3(2) == 9;
    assert PowerOf3(3) == 27;
    assert PowerOf3(4) == 81;
    assert PowerOf3(5) == 243;
    assert PowerOf3(6) == 729;
    assert PowerOf3(7) == 329;
    assert PowerOf3(8) == 58;
  }

  lemma SmallGenerators()
    ensures Generator(2) == Cons(27, Cons(917, Nil))
    ensures Generator(4) == Cons(522, Cons(568, Cons(723, Cons(809, Nil))))
    ensures Generator(8) == Cons(237, Cons(308, Cons(436, Cons(284, Cons(646, Cons(653, Cons(428, Cons(379, Nil))))))))
  {
    SmallPowersOf3();
    hide PowerOf3;
    assert Generator(0) == Nil;
    assert TimesRoot(Nil, 0, PowerOf3(1)) == Cons(926, Nil);
    assert TimesRoot(Cons(926, Nil), 0, PowerOf3(2)) == Cons(27, Cons(917, Nil));
    assert TimesRoot(Cons(27, Cons(917, Nil)), 0, PowerOf3(3)) == Cons(200, Cons(351, Cons(890, Nil)));
    assert TimesRoot(Cons(200, Cons(351, Cons(890, Nil))), 0, PowerOf3(4))
           == Cons(522, Cons(568, Cons(723, Cons(809, Nil))));
    assert TimesRoot(Cons(522, Cons(568, Cons(723, Cons(809, Nil)))), 0, PowerOf3(5))
           == Cons(427, Cons(919, Cons(460, Cons(155, Cons(566, Nil)))));
    assert TimesRoot(Cons(427, Cons(919, Cons(460, Cons(155, Cons(566, Nil))))), 0, PowerOf3(6))
           == Cons(861, Cons(285, Cons(19, Cons(803, Cons(17, Cons(766, Nil))))));
    assert TimesRoot(Cons(861, Cons(285, Cons(19, Cons(803, Cons(17, Cons(766, Nil)))))), 0, PowerOf3(7))
           == Cons(76, Cons(925, Cons(537, Cons(597, Cons(784, Cons(691, Cons(437, Nil)))))));
    assert TimesRoot(Cons(76, Cons(925, Cons(537, Cons(597, Cons(784, Cons(691, Cons(437, Nil))))))), 0, PowerOf3(8))
           == Cons(237, Cons(308, Cons(436, Cons(284, Cons(646, Cons(653, Cons(428, Cons(379, Nil))))))));
  }

  // The tables of levels 0, 1 and 2 are the generators of degree 2, 4 and 8.
  lemma TablesAreGenerators()
    ensures Generator(2).ToSeq() == ERROR_LEVEL0
    ensures Generator(4).ToSeq() == ERROR_LEVEL1
    ensures Generator(8).ToSeq() == ERROR_LEVEL2
  {
    SmallGenerators();
    hide Generator;
  }

  // ----- The code -----

  // One pass of the inner loop: every place takes what the next one held.
  method ShiftIn(codewords: array<int>, dest: nat, A: seq<int>, d: int)
    requires |A| > 0 && dest + |A| <= codewords.Length
    modifies codewords
    ensures codewords[dest..dest + |A|] == Shift(A, old(codewords[dest..dest + |A|]), d)
    ensures codewords[..dest] == old(codewords[..dest])
    ensures codewords[dest + |A|..] == old(codewords[dest + |A|..])
  {
    ghost var E := codewords[dest..dest + |A|];
    var lastE := |A| - 1;
    var t1 := d + codewords[dest];
    for e := 0 to |A|
      invariant forall i :: dest <= i < dest + e ==> codewords[i] == Shifted(A, E, t1, i - dest)
      invariant codewords[dest + e..dest + |A|] == E[e..]
      invariant codewords[..dest] == old(codewords[..dest])
      invariant codewords[dest + |A|..] == old(codewords[dest + |A|..])
    {
      var t2 := t1 * A[lastE - e] % MOD;
      var t3 := MOD - t2;
      assert codewords[dest + e..dest + |A|][0] == codewords[dest + e];
      assert e < lastE ==> codewords[dest + e + 1] == codewords[dest + e..dest + |A|][1] == E[e..][1];
      codewords[dest + e] := ((if e == lastE then 0 else codewords[dest + e + 1]) + t3) % MOD;
      assert codewords[dest + e + 1..dest + |A|] == E[e..][1..] == E[e + 1..];
    }
  }

  method Calculate(codewords: array<int>, lenCodewords: nat, dest: nat, A: seq<int>)
    requires |A| > 0 && lenCodewords <= dest && dest + |A| <= codewords.Length
    requires forall i :: 0 <= i < lenCodewords ==> 0 <= codewords[i]
    modifies codewords
    ensures codewords[dest..dest + |A|] == CheckCodewords(A, codewords[..lenCodewords])
    ensures codewords[..dest] == old(codewords[..dest])
    ensures codewords[dest + |A|..] == old(codewords[dest + |A|..])
  {
    hide Shift, Negated;
    ghost var data := codewords[..lenCodewords];
    ghost var was := codewords[..dest];
    assert data == was[..lenCodewords];
    for i := dest to dest + |A|
      invariant forall j :: dest <= j < i ==> codewords[j] == 0
      invariant codewords[..dest] == old(codewords[..dest])
      invariant codewords[dest + |A|..] == old(codewords[dest + |A|..])
    {
      codewords[i] := 0;
    }
    assert data[..0] == [];
    for k := 0 to lenCodewords
      invariant codewords[dest..dest + |A|] == Remainder(A, data[..k])
      invariant codewords[..dest] == was
      invariant codewords[dest + |A|..] == old(codewords[dest + |A|..])
    {
      assert codewords[k] == was[k] == data[k];
      assert data[..k + 1][..k] == data[..k];
      ShiftIn(codewords, dest, A, codewords[k]);
    }
    assert data[..lenCodewords] == data;
    NegateAll(codewords, dest, |A|);
    assert codewords[..lenCodewords] == codewords[..dest][..lenCodewords];
  }

  method NegateAll(codewords: array<int>, dest: nat, n: nat)
    requires dest + n <= codewords.Length
    modifies codewords
    ensures codewords[dest..dest + n] == Negated(old(codewords[dest..dest + n]))
    ensures codewords[..dest] == old(codewords[..dest])
    ensures codewords[dest + n..] == old(codewords[dest + n..])
  {
    for j := dest to dest + n
      invariant forall i :: dest <= i < j ==> codewords[i] == (MOD - old(codewords[i])) % MOD
      invariant forall i :: j <= i < dest + n ==> codewords[i] == old(codewords[i])
      invariant codewords[..dest] == old(codewords[..dest])
      invariant codewords[dest + n..] == old(codewords[dest + n..])
    {
      codewords[j] := (MOD - codewords[j]) % MOD;
    }
  }
}
