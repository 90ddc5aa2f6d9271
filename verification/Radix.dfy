// Positional notation: the values that the in-place big-number loops of the
// encoder compute, and the fact that a value has one expansion per width.

module Radix {

  function Pow(b: int, e: nat): (p: int)
    ensures b >= 0 ==> p >= 0
    ensures b > 0 ==> p > 0
  {
    if e == 0 then 1 else b * Pow(b, e - 1)
  }

  // The value of a digit sequence, most significant digit first.
  function Value(b: int, s: seq<int>): int {
    if s == [] then 0 else Value(b, s[..|s| - 1]) * b + s[|s| - 1]
  }

  ghost predicate InBase(b: nat, s: seq<int>) {
    forall i :: 0 <= i < |s| ==> 0 <= s[i] < b
  }

  // The w low digits of n, most significant digit first.
  function Digits(b: nat, n: nat, w: nat): (s: seq<int>)
    requires b >= 2
    ensures |s| == w && InBase(b, s)
    decreases w
  {
    if w == 0 then [] else Digits(b, n / b, w - 1) + [n % b]
  }

  lemma MulAssociates(x: int, y: int, z: int)
    ensures x * (y * z) == x * y * z
  {}

  lemma MulDistributes(x: int, y: int, z: int)
    ensures (x + y) * z == x * z + y * z
  {}

  lemma MulMonotone(x: int, y: int, z: int)
    requires x <= y && z >= 0
    ensures x * z <= y * z
  {}

  lemma MulStep(n: nat, w: nat)
    requires n > 0
    ensures n * w == (n - 1) * w + w && (n - 1) * w >= 0
  {
    MulMonotone(0, n - 1, w);
  }

  lemma EightTimes(i: nat, w: nat)
    ensures i * (8 * w) == 8 * (i * w)
  {}

  lemma DivModBounds(n: nat, b: nat, p: nat)
    requires b > 0 && n < b * p
    ensures 0 <= n / b < p && 0 <= n % b < b && n == n / b * b + n % b
  {
    var q := n / b;
    if q >= p {
      MulMonotone(p, q, b);
      assert false;
    }
  }

  lemma {:induction false} ValueOfDigits(b: nat, n: nat, w: nat)
    requires b >= 2 && n < Pow(b, w)
    ensures Value(b, Digits(b, n, w)) == n
    decreases w
  {
    if w > 0 {
      DivModBounds(n, b, Pow(b, w - 1));
      ValueOfDigits(b, n / b, w - 1);
      assert Digits(b, n, w)[..w - 1] == Digits(b, n / b, w - 1);
    }
  }

  lemma DivModOfSum(q: nat, b: nat, r: nat)
    requires r < b
    ensures (q * b + r) / b == q && (q * b + r) % b == r
  {
    QuotientUnique(q * b + r, b, (q * b + r) / b, (q * b + r) % b, q, r);
  }

  lemma QuotientUnique(n: int, b: int, q: int, r: int, q': int, r': int)
    requires 0 <= r < b && 0 <= r' < b
    requires n == q * b + r == q' * b + r'
    ensures q == q' && r == r'
  {
    if q < q' {
      MulMonotone(q + 1, q', b);
      assert false;
    } else if q' < q {
      MulMonotone(q' + 1, q, b);
      assert false;
    }
  }

  lemma PlaceBounds(b: nat, q: nat, d: nat, p: nat)
    requires q < p && d < b
    ensures 0 <= q * b + d < b * p
    ensures (q * b + d) / b == q && (q * b + d) % b == d
  {
    MulMonotone(q + 1, p, b);
    MulMonotone(0, q, b);
    DivModOfSum(q, b, d);
  }

  // A sequence of w digits is the expansion of its value, and of nothing else.
  lemma {:induction false} DigitsOfValue(b: nat, s: seq<int>)
    requires b >= 2 && InBase(b, s)
    ensures 0 <= Value(b, s) < Pow(b, |s|)
    ensures Digits(b, Value(b, s), |s|) == s
    decreases |s|
  {
    if s != [] {
      var t, d := s[..|s| - 1], s[|s| - 1];
      DigitsOfValue(b, t);
      PlaceBounds(b, Value(b, t), d, Pow(b, |t|));
      DigitsStep(b, Value(b, s), |s|);
    }
  }

  lemma DigitsStep(b: nat, n: nat, w: nat)
    requires b >= 2 && w > 0
    ensures Digits(b, n, w) == Digits(b, n / b, w - 1) + [n % b]
  {}

  lemma {:induction false} PowSum(b: nat, i: nat, j: nat)
    ensures Pow(b, i + j) == Pow(b, i) * Pow(b, j)
    decreases i
  {
    if i > 0 {
      PowSum(b, i - 1, j);
      MulAssociates(b, Pow(b, i - 1), Pow(b, j));
    }
  }

  lemma {:induction false} PowGrows(b: nat, i: nat, j: nat)
    requires b > 0 && i <= j
    ensures Pow(b, i) <= Pow(b, j)
    decreases j
  {
    if i < j {
      PowGrows(b, i, j - 1);
      MulMonotone(1, b, Pow(b, j - 1));
    }
  }

  lemma {:induction false} ValueAppend(b: int, s: seq<int>, t: seq<int>)
    ensures Value(b, s + t) == Value(b, s) * Pow(b, |t|) + Value(b, t)
    decreases |t|
  {
    if t == [] {
      assert s + t == s;
    } else {
      var t', d := t[..|t| - 1], t[|t| - 1];
      ValueAppend(b, s, t');
      assert (s + t)[..|s + t| - 1] == s + t';
      AppendStep(b, Value(b, s), Pow(b, |t'|), Value(b, t'));
    }
  }

  lemma AppendStep(b: int, v: int, p: int, u: int)
    ensures (v * p + u) * b == v * (b * p) + u * b
  {
    MulDistributes(v * p, u, b);
    MulAssociates(v, p, b);
    assert p * b == b * p;
  }

  lemma ValueSnoc(b: int, s: seq<int>, x: int)
    ensures Value(b, s + [x]) == Value(b, s) * b + x
  {
    assert (s + [x])[..|s|] == s;
  }

  // Replacing adjacent places (x, y) by (x + c, y - c * b) keeps the value.
  lemma ValueCarry(b: nat, s: seq<int>, i: nat, c: int)
    requires i + 1 < |s|
    ensures Value(b, s[i := s[i] + c][i + 1 := s[i + 1] - c * b]) == Value(b, s)
  {
    hide Value, Pow;
    var x, y := s[i], s[i + 1];
    var z := s[i := x + c][i + 1 := y - c * b];
    var pre, post := s[..i], s[i + 2..];
    assert s == (pre + [x, y]) + post;
    assert z == (pre + [x + c, y - c * b]) + post;
    SplitValue(b, pre, x, y, post);
    SplitValue(b, pre, x + c, y - c * b, post);
    MulDistributes(x, c, b);
  }

  lemma SplitValue(b: nat, pre: seq<int>, x: int, y: int, post: seq<int>)
    ensures Value(b, (pre + [x, y]) + post)
            == (Value(b, pre) * Pow(b, 2) + (x * b + y)) * Pow(b, |post|) + Value(b, post)
  {
    hide Value, Pow;
    ValueAppend(b, pre + [x, y], post);
    ValueAppend(b, pre, [x, y]);
    ValueOfPair(b, x, y);
  }

  lemma ValueOfPair(b: nat, x: int, y: int)
    ensures Value(b, [x, y]) == x * b + y
  {
    assert [x, y][..1] == [x];
    assert [x][..0] == [];
    assert Value(b, [x]) == x;
  }

  // The leading place is bounded by the value when the others are in range.
  lemma LeadBound(b: nat, s: seq<int>)
    requires b >= 2 && |s| > 0 && InBase(b, s[1..]) && 0 <= Value(b, s) < Pow(b, |s|)
    ensures 0 <= s[0] < b
  {
    var t := s[1..];
    assert s == [s[0]] + t;
    ValueAppend(b, [s[0]], t);
    assert Value(b, [s[0]]) == s[0] by { assert [s[0]][..0] == []; }
    DigitsOfValue(b, t);
    var p := Pow(b, |t|);
    if s[0] >= b {
      MulMonotone(b, s[0], p);
      assert false;
    } else if s[0] < 0 {
      MulMonotone(s[0], -1, p);
      assert false;
    }
  }

  // Multiplies the number in a[lo..hi] by m and adds d, leaving base-b
  // digits: the inner loops of both number compactions.
  method MultiplyAdd(a: array<int>, lo: nat, hi: nat, b: nat, m: nat, d: nat)
    requires lo < hi <= a.Length && b >= 2
    requires InBase(b, a[lo..hi])
    requires Value(b, a[lo..hi]) * m + d < Pow(b, hi - lo)
    modifies a
    ensures InBase(b, a[lo..hi])
    ensures Value(b, a[lo..hi]) == old(Value(b, a[lo..hi])) * m + d
    ensures a[..lo] == old(a[..lo]) && a[hi..] == old(a[hi..])
  {
    hide Value, Pow, Scaled;
    ghost var s := a[lo..hi];
    ScaleAll(a, lo, hi, m);
    ghost var z := a[lo..hi];
    ScaleAndAdd(b, s, m, d);
    a[hi - 1] := a[hi - 1] + d;
    assert a[lo..hi] == z[|z| - 1 := z[|z| - 1] + d];
    assert forall i :: lo <= i < hi ==> a[i] == a[lo..hi][i - lo];
    PropagateCarry(a, lo, hi, b);
  }

  method ScaleAll(a: array<int>, lo: nat, hi: nat, m: nat)
    requires lo < hi <= a.Length
    modifies a
    ensures a[lo..hi] == Scaled(old(a[lo..hi]), m)
    ensures a[..lo] == old(a[..lo]) && a[hi..] == old(a[hi..])
  {
    var k := hi - 1;
    while k >= lo
      invariant lo - 1 <= k < hi
      invariant forall i :: lo <= i <= k ==> a[i] == old(a[i])
      invariant forall i :: k < i < hi ==> a[i] == old(a[i]) * m
      invariant a[..lo] == old(a[..lo]) && a[hi..] == old(a[hi..])
    {
      a[k] := a[k] * m;
      k := k - 1;
    }
  }

  lemma ScaleAndAdd(b: nat, s: seq<int>, m: nat, d: nat)
    requires b >= 2 && s != [] && InBase(b, s)
    ensures var z := Scaled(s, m);
            var t := z[|z| - 1 := z[|z| - 1] + d];
            && (forall i :: 0 <= i < |t| ==> t[i] >= 0)
            && 0 <= Value(b, t) == Value(b, s) * m + d
  {
    ValueScaled(b, s, m);
    ScaledNonNeg(b, s, m);
    AddToLast(b, Scaled(s, m), d);
  }

  method PropagateCarry(a: array<int>, lo: nat, hi: nat, b: nat)
    requires lo < hi <= a.Length && b >= 2
    requires forall i :: lo <= i < hi ==> a[i] >= 0
    requires 0 <= Value(b, a[lo..hi]) < Pow(b, hi - lo)
    modifies a
    ensures InBase(b, a[lo..hi])
    ensures Value(b, a[lo..hi]) == old(Value(b, a[lo..hi]))
    ensures a[..lo] == old(a[..lo]) && a[hi..] == old(a[hi..])
  {
    hide Value, Pow;
    var k := hi - 1;
    while k > lo
      invariant lo <= k < hi
      invariant Value(b, a[lo..hi]) == old(Value(b, a[lo..hi]))
      invariant forall i :: lo <= i <= k ==> a[i] >= 0
      invariant forall i :: k < i < hi ==> 0 <= a[i] < b
      invariant a[..lo] == old(a[..lo]) && a[hi..] == old(a[hi..])
    {
      CarryOne(a, lo, hi, b, k);
      k := k - 1;
    }
    LeadBound(b, a[lo..hi]);
  }

  // Place k keeps its remainder, the quotient goes to the place before.
  method CarryOne(a: array<int>, lo: nat, hi: nat, b: nat, k: nat)
    requires lo < k < hi <= a.Length && b >= 2 && a[k] >= 0
    modifies a
    ensures Value(b, a[lo..hi]) == old(Value(b, a[lo..hi]))
    ensures a[k - 1] >= old(a[k - 1]) && 0 <= a[k] < b
    ensures forall i :: 0 <= i < a.Length && i != k - 1 && i != k ==> a[i] == old(a[i])
  {
    hide Value;
    ghost var t, c, j := a[lo..hi], a[k] / b, k - lo;
    DivMod(a[k], b);
    a[k - 1] := a[k - 1] + a[k] / b;
    a[k] := a[k] % b;
    assert a[lo..hi] == t[j - 1 := t[j - 1] + c][j := t[j] - c * b];
    ValueCarry(b, t, j - 1, c);
  }

  lemma DivMod(x: nat, b: nat)
    requires b > 0
    ensures x / b >= 0 && 0 <= x % b < b && x % b == x - x / b * b
  {}

  lemma ScaledNonNeg(b: nat, s: seq<int>, m: nat)
    requires b >= 2 && InBase(b, s)
    ensures forall i :: 0 <= i < |s| ==> Scaled(s, m)[i] >= 0
    ensures Value(b, s) >= 0 && Value(b, s) * m >= 0
  {
    forall i | 0 <= i < |s| ensures Scaled(s, m)[i] >= 0 {
      MulMonotone(0, s[i], m);
    }
    DigitsOfValue(b, s);
    MulMonotone(0, Value(b, s), m);
  }

  lemma AddToLast(b: nat, s: seq<int>, d: int)
    requires s != []
    ensures Value(b, s[|s| - 1 := s[|s| - 1] + d]) == Value(b, s) + d
  {
    assert s[|s| - 1 := s[|s| - 1] + d][..|s| - 1] == s[..|s| - 1];
  }

  ghost function Scaled(s: seq<int>, m: int): seq<int> {
    seq(|s|, i requires 0 <= i < |s| => s[i] * m)
  }

  lemma {:induction false} ValueScaled(b: nat, s: seq<int>, m: int)
    ensures Value(b, Scaled(s, m)) == Value(b, s) * m
    decreases |s|
  {
    if s != [] {
      var t, d := s[..|s| - 1], s[|s| - 1];
      ValueScaled(b, t, m);
      assert Scaled(s, m)[..|s| - 1] == Scaled(t, m);
      MulDistributes(Value(b, t) * b, d, m);
      MulAssociates(Value(b, t), m, b);
      MulAssociates(Value(b, t), b, m);
      assert m * b == b * m;
    }
  }

  lemma {:induction false} ZeroValue(b: int, s: seq<int>)
    requires forall i :: 0 <= i < |s| ==> s[i] == 0
    ensures Value(b, s) == 0
    decreases |s|
  {
    if s != [] { ZeroValue(b, s[..|s| - 1]); }
  }

  // The number v < b in a[lo..hi]: zeros and a last digit.
  method SetSmall(a: array<int>, lo: nat, hi: nat, b: nat, v: int)
    requires lo < hi <= a.Length && 0 <= v < b
    modifies a
    ensures InBase(b, a[lo..hi]) && Value(b, a[lo..hi]) == v
    ensures a[..lo] == old(a[..lo]) && a[hi..] == old(a[hi..])
  {
    for k := lo to hi
      invariant forall i :: lo <= i < k ==> a[i] == 0
      invariant a[..lo] == old(a[..lo]) && a[hi..] == old(a[hi..])
    {
      a[k] := 0;
    }
    ZeroValue(b, a[lo..hi][..hi - 1 - lo]);
    a[hi - 1] := v;
    assert a[lo..hi][..hi - 1 - lo] == a[lo..hi - 1];
    ZeroValue(b, a[lo..hi - 1]);
  }
}
