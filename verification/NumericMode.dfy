// Numeric compaction: blocks of up to 44 digits, each written with a leading
// 1 as a number in base 900, and the reading of section 5.4.4 of
// ISO/IEC 15438:2006.

module NumericMode {
  import opened Octets
  import opened Pdf417
  import opened Radix

  const BLOCK := 44
  const GROUP := 15

  function DigitValues(text: seq<byte>): (d: seq<int>)
    requires IsDigits(text)
    ensures |d| == |text| && InBase(10, d)
  {
    seq(|text|, i requires 0 <= i < |text| => text[i] - '0' as int)
  }

  function DigitChars(d: seq<int>): seq<byte> {
    seq(|d|, i requires 0 <= i < |d| => (d[i] % 10) + '0' as int)
  }

  // The digits of a block after a leading 1, as a number.
  function BlockNumber(text: seq<byte>): nat
    requires IsDigits(text)
  {
    DigitsOfValue(10, [1] + DigitValues(text));
    Value(10, [1] + DigitValues(text))
  }

  function BlockCodewords(text: seq<byte>): seq<int>
    requires IsDigits(text)
  {
    Digits(900, BlockNumber(text), |text| / 3 + 1)
  }

  function NumericCodewords(text: seq<byte>): seq<int>
    requires IsDigits(text)
    decreases |text|
  {
    if text == [] then []
    else if |text| <= BLOCK then BlockCodewords(text)
    else BlockCodewords(text[..BLOCK]) + NumericCodewords(text[BLOCK..])
  }

  // The encoder's forecast of the number of codewords.
  function NumericSize(length: nat): nat {
    if length % BLOCK == 0 then length / BLOCK * GROUP
    else length / BLOCK * GROUP + length % BLOCK / 3 + 1
  }

  // ----- The reader of section 5.4.4 -----

  function Decimal(n: nat): seq<int> {
    if n < 10 then [n] else Decimal(n / 10) + [n % 10]
  }

  // Groups of fifteen codewords (the last may be shorter), each a number
  // whose first decimal digit is dropped.
  function ReadNumeric(cws: seq<int>): seq<byte>
    decreases |cws|
  {
    if cws == [] then []
    else
      var g := if |cws| < 15 then |cws| else 15;
      var v := Value(900, cws[..g]);
      DigitChars(Decimal(if v < 0 then 0 else v)[1..]) + ReadNumeric(cws[g..])
  }

  // ----- A block fits, and reads back -----

  lemma PowersAt44()
    ensures Pow(10, 44) == 100000000000000000000000000000000000000000000
    ensures Pow(900, 15) == 205891132094649000000000000000000000000000000
  {
    assert Pow(10, 1) == 10 * Pow(10, 0);
    PowSum(10, 1, 1);
    PowSum(10, 2, 2);
    PowSum(10, 4, 4);
    PowSum(10, 8, 2);
    PowSum(10, 10, 1);
    PowSum(10, 11, 11);
    PowSum(10, 22, 22);
    assert Pow(900, 1) == 900 * Pow(900, 0);
    PowSum(900, 1, 1);
    PowSum(900, 2, 1);
    PowSum(900, 3, 2);
    PowSum(900, 5, 5);
    PowSum(900, 10, 5);
  }

  lemma {:induction false} WorstBlockFits(q: nat)
    requires q <= 14
    ensures 2 * Pow(10, 3 * q + 2) <= Pow(900, q + 1)
    decreases 14 - q
  {
    hide Pow;
    if q == 14 {
      PowersAt44();
    } else {
      WorstBlockFits(q + 1);
      ThreeMore(3 * q + 2);
      OneMore(q + 1);
    }
  }

  lemma ThreeMore(n: nat)
    ensures Pow(10, n + 3) == 1000 * Pow(10, n)
  {
    assert Pow(10, n + 1) == 10 * Pow(10, n);
    assert Pow(10, n + 2) == 10 * Pow(10, n + 1);
  }

  lemma OneMore(n: nat)
    ensures Pow(900, n + 1) == 900 * Pow(900, n)
  {}

  // Twice ten to the number of digits is within the codewords allotted; at 44
  // digits the margin is under three per cent.
  lemma BlockFits(len: nat)
    requires len <= BLOCK
    ensures 2 * Pow(10, len) <= Pow(900, len / 3 + 1)
  {
    hide Pow;
    WorstBlockFits(len / 3);
    PowGrows(10, len, 3 * (len / 3) + 2);
  }

  lemma LeadingOne(d: seq<int>)
    requires InBase(10, d)
    ensures Value(10, [1] + d) == Pow(10, |d|) + Value(10, d) < 2 * Pow(10, |d|)
  {
    hide Value, Pow, Digits;
    ValueAppend(10, [1], d);
    ValueOfOne();
    DigitsOfValue(10, d);
  }

  lemma BlockNumberFits(text: seq<byte>)
    requires IsDigits(text) && |text| <= BLOCK
    ensures BlockNumber(text) < Pow(900, |text| / 3 + 1)
  {
    LeadingOne(DigitValues(text));
    BlockFits(|text|);
  }

  lemma {:induction false} DecimalOfValue(s: seq<int>)
    requires s != [] && InBase(10, s) && s[0] > 0
    ensures Value(10, s) >= 1 && Decimal(Value(10, s)) == s
    decreases |s|
  {
    var t, d := s[..|s| - 1], s[|s| - 1];
    if t != [] {
      DecimalOfValue(t);
    }
  }

  lemma BlockReadsBack(text: seq<byte>)
    requires IsDigits(text) && |text| <= BLOCK
    ensures DigitChars(Decimal(BlockNumber(text))[1..]) == text
    ensures Value(900, BlockCodewords(text)) == BlockNumber(text)
  {
    hide Value, Digits, Pow, Decimal;
    var d := DigitValues(text);
    DecimalOfValue([1] + d);
    assert ([1] + d)[1..] == d;
    BlockNumberFits(text);
    ValueOfDigits(900, BlockNumber(text), |text| / 3 + 1);
  }

  lemma {:induction false} NumericRoundTrip(text: seq<byte>)
    requires IsDigits(text)
    ensures ReadNumeric(NumericCodewords(text)) == text
    decreases |text|
  {
    hide Decimal, DigitChars, BlockNumber;
    if text != [] {
      var head, tail := text, [];
      if |text| > BLOCK {
        head, tail := text[..BLOCK], text[BLOCK..];
      }
      BlockReadsBack(head);
      NumericRoundTrip(tail);
      var cws, block := NumericCodewords(text), BlockCodewords(head);
      assert cws == block + NumericCodewords(tail);
      assert cws[..|block|] == block && cws[|block|..] == NumericCodewords(tail);
    }
  }

  lemma {:induction false} NumericLength(text: seq<byte>)
    requires IsDigits(text)
    ensures |NumericCodewords(text)| == NumericSize(|text|)
    ensures NumericSize(|text|) == |text| / 44 * 15 + if |text| % 44 == 0 then 0 else |text| % 44 / 3 + 1
    decreases |text|
  {
    hide BlockNumber, Digits;
    if |text| > BLOCK {
      NumericLength(text[BLOCK..]);
      SizeStep(|text|);
    }
  }

  lemma SizeStep(n: nat)
    requires n > BLOCK
    ensures NumericSize(n) == GROUP + NumericSize(n - BLOCK)
  {
    assert n / BLOCK == (n - BLOCK) / BLOCK + 1 && n % BLOCK == (n - BLOCK) % BLOCK;
  }

  lemma {:induction false} NumericInBase(text: seq<byte>)
    requires IsDigits(text)
    ensures InBase(900, NumericCodewords(text))
    decreases |text|
  {
    if |text| > BLOCK {
      NumericInBase(text[BLOCK..]);
    }
  }

  // ----- The encoder -----

  // A block's number, built in place digit by digit from the 1.
  method BasicNumberCompaction(p: Encoder, start: nat, length: nat)
    requires p.Valid() && start + length <= |p.text| && length <= BLOCK
    requires IsDigits(p.text[start..start + length])
    requires p.cwPtr + length / 3 + 1 <= p.codewords.Length
    modifies p`cwPtr, p.codewords
    ensures p.Valid() && p.cwPtr == old(p.cwPtr) + length / 3 + 1
    ensures p.Written() == old(p.Written()) + BlockCodewords(p.text[start..start + length])
    ensures p.codewords[p.cwPtr..] == old(p.codewords[p.cwPtr + length / 3 + 1..])
  {
    hide Value, Digits, Pow, BlockNumber, DigitValues;
    ghost var block := p.text[start..start + length];
    var lo := p.cwPtr;
    var hi := lo + length / 3 + 1;
    p.cwPtr := hi;
    SetSmall(p.codewords, lo, hi, 900, 1);
    DigitsLoop(p.codewords, p.text, lo, hi, start, length);
    WholeBlock(block, p.codewords[lo..hi]);
    assert p.codewords[..hi] == p.codewords[..lo] + p.codewords[lo..hi];
  }

  lemma WholeBlock(block: seq<byte>, cws: seq<int>)
    requires IsDigits(block) && InBase(900, cws) && |cws| == |block| / 3 + 1
    requires Value(900, cws) == Value(10, [1] + DigitValues(block))
    ensures cws == BlockCodewords(block)
  {
    hide Value, Digits, Pow, DigitValues;
    DigitsOfValue(900, cws);
  }

  method DigitsLoop(a: array<int>, text: seq<byte>, lo: nat, hi: nat, start: nat, length: nat)
    requires start + length <= |text| && length <= BLOCK && IsDigits(text[start..start + length])
    requires hi == lo + length / 3 + 1 && hi <= a.Length
    requires InBase(900, a[lo..hi]) && Value(900, a[lo..hi]) == 1
    modifies a
    ensures InBase(900, a[lo..hi])
    ensures Value(900, a[lo..hi]) == Value(10, [1] + DigitValues(text[start..start + length]))
    ensures a[..lo] == old(a[..lo]) && a[hi..] == old(a[hi..])
  {
    hide Value, Digits, Pow;
    ghost var d := DigitValues(text[start..start + length]);
    BlockFits(length);
    assert [1] + d[..0] == [1];
    ValueOfOne();
    for ni := start to start + length
      invariant InBase(900, a[lo..hi])
      invariant Value(900, a[lo..hi]) == Value(10, [1] + d[..ni - start])
      invariant a[..lo] == old(a[..lo]) && a[hi..] == old(a[hi..])
    {
      PrefixFits(d, ni - start);
      MultiplyAdd(a, lo, hi, 900, 10, text[ni] - '0' as int);
    }
    assert d[..length] == d;
  }

  lemma ValueOfOne()
    ensures Value(10, [1]) == 1
  {
    assert [1][..0] == [];
    assert Value(10, []) == 0;
  }

  lemma PrefixFits(d: seq<int>, i: nat)
    requires InBase(10, d) && i < |d| <= BLOCK
    ensures Value(10, [1] + d[..i + 1]) == Value(10, [1] + d[..i]) * 10 + d[i]
    ensures Value(10, [1] + d[..i]) * 10 + d[i] < Pow(900, |d| / 3 + 1)
  {
    hide Pow, Digits, Value;
    ValueSnoc(10, [1] + d[..i], d[i]);
    assert ([1] + d[..i]) + [d[i]] == [1] + d[..i + 1];
    LeadingOne(d[..i + 1]);
    PowGrows(10, i + 1, |d|);
    BlockFits(|d|);
  }

  lemma NumericUnfold(text: seq<byte>)
    requires IsDigits(text) && text != []
    ensures var n := if |text| < BLOCK then |text| else BLOCK;
            && NumericCodewords(text) == BlockCodewords(text[..n]) + NumericCodewords(text[n..])
            && |BlockCodewords(text[..n])| == n / 3 + 1
  {
    hide BlockNumber, Digits;
    if |text| <= BLOCK {
      assert text[..|text|] == text && text[|text|..] == [];
    }
  }

  lemma NumericEmpty(text: seq<byte>)
    requires text == []
    ensures IsDigits(text) && NumericCodewords(text) == []
  {}

  method NumberCompaction(p: Encoder, start: nat, length: nat)
    requires p.Valid() && start + length <= |p.text|
    requires IsDigits(p.text[start..start + length])
    modifies p, p.codewords
    ensures Appended(p, NumericCodewords(p.text[start..start + length]))
  {
    hide NumericCodewords;
    var full := length / BLOCK * GROUP;
    var size := length % BLOCK;
    if size == 0 {
      size := full;
    } else {
      size := full + size / 3 + 1;
    }
    NumericLength(p.text[start..start + length]);
    if size + p.cwPtr > MAX_DATA_CODEWORDS {
      p.error := TextTooBig;
      return;
    }
    WriteBlocks(p, start, start + length);
  }

  // One block for every 44 digits.
  method WriteBlocks(p: Encoder, start: nat, end: nat)
    requires p.Valid() && start <= end <= |p.text|
    requires IsDigits(p.text[start..end])
    requires p.cwPtr + |NumericCodewords(p.text[start..end])| <= MAX_DATA_CODEWORDS
    modifies p`cwPtr, p.codewords
    ensures p.Valid() && p.cwPtr == old(p.cwPtr) + |NumericCodewords(p.text[start..end])|
    ensures p.Written() == old(p.Written()) + NumericCodewords(p.text[start..end])
    ensures p.codewords[p.cwPtr..] == old(p.codewords[p.cwPtr + |NumericCodewords(p.text[start..end])|..])
  {
    hide BlockCodewords, NumericCodewords, BlockNumber, Digits;
    ghost var pre, last := p.Written(), p.cwPtr + |NumericCodewords(p.text[start..end])|;
    var k := start;
    while k < end
      invariant start <= k <= end
      invariant p.Valid()
      invariant IsDigits(p.text[k..end])
      invariant p.cwPtr + |NumericCodewords(p.text[k..end])| == last
      invariant p.Written() + NumericCodewords(p.text[k..end]) == pre + NumericCodewords(p.text[start..end])
      invariant p.codewords[last..] == old(p.codewords[last..])
    {
      ghost var rest, before := p.text[k..end], p.Written();
      var size := if end - k < BLOCK then end - k else BLOCK;
      assert p.text[k..k + size] == rest[..size] && rest[size..] == p.text[k + size..end];
      ghost var block, tail := BlockCodewords(rest[..size]), NumericCodewords(rest[size..]);
      NumericUnfold(rest);
      BasicNumberCompaction(p, k, size);
      assert (before + block) + tail == before + (block + tail);
      k := k + size;
    }
    NumericEmpty(p.text[k..end]);
  }
}
