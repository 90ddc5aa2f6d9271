// Byte compaction: six bytes to five base-900 codewords, the rest one each,
// and the reading of section 5.4.3 of ISO/IEC 15438:2006.

module ByteMode {
  import opened Octets
  import opened Pdf417
  import opened Radix

  // The mode latch the encoder writes before a segment of bytes.
  function ByteLatch(length: nat): int {
    if length % 6 != 0 then BYTE_MODE else BYTE_MODE_6
  }

  function SixNumber(text: seq<byte>): nat
    requires |text| == 6
  {
    DigitsOfValue(256, text);
    Value(256, text)
  }

  function SixCodewords(text: seq<byte>): seq<int>
    requires |text| == 6
  {
    Digits(900, SixNumber(text), 5)
  }

  function ByteCodewords(text: seq<byte>): seq<int>
    decreases |text|
  {
    if |text| < 6 then text else SixCodewords(text[..6]) + ByteCodewords(text[6..])
  }

  // ----- The reader of section 5.4.3 -----

  // n groups of five codewords, six bytes each, then single bytes.
  function ReadGroups(cws: seq<int>, n: nat): seq<byte>
    requires 5 * n <= |cws|
    decreases n
  {
    if n == 0 then seq(|cws|, i requires 0 <= i < |cws| => cws[i] % 256)
    else
      var v := Value(900, cws[..5]);
      Digits(256, if v < 0 then 0 else v, 6) + ReadGroups(cws[5..], n - 1)
  }

  // Under latch 924 every group is full; under 901 one to five codewords at
  // the end stand for single bytes, even when five would make a group.
  function GroupCount(latch: int, n: nat): nat {
    if latch == 924 then n / 5 else if n == 0 then 0 else (n - 1) / 5
  }

  function ReadBytes(latch: int, cws: seq<int>): seq<byte> {
    ReadGroups(cws, GroupCount(latch, |cws|))
  }

  // ----- Reading back -----

  lemma SixFits()
    ensures Pow(256, 6) < Pow(900, 5)
  {
    assert Pow(256, 1) == 256 * Pow(256, 0);
    PowSum(256, 1, 1);
    PowSum(256, 2, 2);
    PowSum(256, 4, 2);
    assert Pow(900, 1) == 900 * Pow(900, 0);
    PowSum(900, 1, 1);
    PowSum(900, 2, 2);
    PowSum(900, 4, 1);
  }

  lemma SixReadsBack(text: seq<byte>)
    requires |text| == 6
    ensures Value(900, SixCodewords(text)) == SixNumber(text) < Pow(900, 5)
    ensures Digits(256, SixNumber(text), 6) == text
  {
    hide Value, Digits, Pow;
    DigitsOfValue(256, text);
    SixFits();
    ValueOfDigits(900, SixNumber(text), 5);
  }

  lemma {:induction false} ByteLength(text: seq<byte>)
    ensures |ByteCodewords(text)| == |text| / 6 * 5 + |text| % 6
    decreases |text|
  {
    hide Digits, SixNumber;
    if |text| >= 6 {
      ByteLength(text[6..]);
      assert |text| / 6 == (|text| - 6) / 6 + 1;
    }
  }

  lemma {:induction false} GroupsReadBack(text: seq<byte>)
    ensures 5 * (|text| / 6) <= |ByteCodewords(text)|
    ensures ReadGroups(ByteCodewords(text), |text| / 6) == text
    decreases |text|
  {
    hide Value, Digits, SixNumber;
    ByteLength(text);
    if |text| >= 6 {
      var head, tail := text[..6], text[6..];
      SixReadsBack(head);
      GroupsReadBack(tail);
      var cws, block := ByteCodewords(text), SixCodewords(head);
      assert cws[..5] == block && cws[5..] == ByteCodewords(tail);
      assert |text| / 6 == |tail| / 6 + 1;
      assert head + tail == text;
    }
  }

  // The reader, which sees only the latch and the codewords, finds the groups
  // the encoder made.
  lemma GroupCountIsExact(length: nat)
    ensures GroupCount(ByteLatch(length), length / 6 * 5 + length % 6) == length / 6
  {
    var q, r := length / 6, length % 6;
    if r == 0 {
      assert q * 5 / 5 == q;
    } else {
      assert (q * 5 + (r - 1)) / 5 == q;
    }
  }

  lemma ByteRoundTrip(text: seq<byte>)
    ensures ReadBytes(ByteLatch(|text|), ByteCodewords(text)) == text
  {
    hide ReadGroups, ByteCodewords, GroupCount, ByteLatch;
    ByteLength(text);
    GroupCountIsExact(|text|);
    GroupsReadBack(text);
  }

  lemma {:induction false} ByteInBase(text: seq<byte>)
    ensures InBase(900, ByteCodewords(text))
    decreases |text|
  {
    if |text| >= 6 {
      ByteInBase(text[6..]);
    }
  }

  // ----- The encoder -----

  method ByteCompaction6(p: Encoder, start: nat)
    requires p.Valid() && start + 6 <= |p.text| && p.cwPtr + 5 <= p.codewords.Length
    modifies p`cwPtr, p.codewords
    ensures p.Valid() && p.cwPtr == old(p.cwPtr) + 5
    ensures p.Written() == old(p.Written()) + SixCodewords(p.text[start..start + 6])
    ensures p.codewords[p.cwPtr..] == old(p.codewords[p.cwPtr + 5..])
  {
    hide Value, Digits, Pow;
    ghost var six := p.text[start..start + 6];
    var lo := p.cwPtr;
    var hi := lo + 5;
    p.cwPtr := hi;
    SetSmall(p.codewords, lo, hi, 900, 0);
    EmptyValue(six[..0]);
    for ni := start to start + 6
      invariant p.cwPtr == hi
      invariant InBase(900, p.codewords[lo..hi])
      invariant Value(900, p.codewords[lo..hi]) == Value(256, six[..ni - start])
      invariant p.codewords[..lo] == old(p.codewords[..lo]) && p.codewords[hi..] == old(p.codewords[hi..])
    {
      PrefixFits(six, ni - start);
      MultiplyAdd(p.codewords, lo, hi, 900, 256, p.text[ni]);
    }
    assert six[..6] == six;
    DigitsOfValue(900, p.codewords[lo..hi]);
    assert p.codewords[..hi] == p.codewords[..lo] + p.codewords[lo..hi];
  }

  lemma EmptyValue(s: seq<int>)
    requires s == []
    ensures Value(256, s) == 0
  {}

  lemma PrefixFits(s: seq<byte>, i: nat)
    requires i < |s| <= 6
    ensures Value(256, s[..i + 1]) == Value(256, s[..i]) * 256 + s[i]
    ensures Value(256, s[..i]) * 256 + s[i] < Pow(900, 5)
  {
    hide Digits, Pow;
    assert s[..i + 1][..i] == s[..i];
    DigitsOfValue(256, s[..i + 1]);
    PowGrows(256, i + 1, 6);
    SixFits();
  }

  method ByteCompaction(p: Encoder, start: nat, length: nat)
    requires p.Valid() && start + length <= |p.text|
    modifies p, p.codewords
    ensures Appended(p, ByteCodewords(p.text[start..start + length]))
  {
    hide ByteCodewords;
    var size := length / 6 * 5 + length % 6;
    ByteLength(p.text[start..start + length]);
    if size + p.cwPtr > MAX_DATA_CODEWORDS {
      p.error := TextTooBig;
      return;
    }
    WriteGroups(p, start, start + length);
  }

  method WriteGroups(p: Encoder, start: nat, end: nat)
    requires p.Valid() && start <= end <= |p.text|
    requires p.cwPtr + |ByteCodewords(p.text[start..end])| <= MAX_DATA_CODEWORDS
    modifies p`cwPtr, p.codewords
    ensures p.Valid() && p.cwPtr == old(p.cwPtr) + |ByteCodewords(p.text[start..end])|
    ensures p.Written() == old(p.Written()) + ByteCodewords(p.text[start..end])
    ensures p.codewords[p.cwPtr..] == old(p.codewords[p.cwPtr + |ByteCodewords(p.text[start..end])|..])
  {
    hide ByteCodewords, SixCodewords;
    ghost var pre, last := p.Written(), p.cwPtr + |ByteCodewords(p.text[start..end])|;
    var k := start;
    while k < end
      invariant start <= k <= end
      invariant p.Valid()
      invariant p.cwPtr + |ByteCodewords(p.text[k..end])| == last
      invariant p.Written() + ByteCodewords(p.text[k..end]) == pre + ByteCodewords(p.text[start..end])
      invariant p.codewords[last..] == old(p.codewords[last..])
    {
      ghost var rest, before := p.text[k..end], p.Written();
      ByteUnfold(rest);
      var size := if end - k < 44 then end - k else 6;
      if size < 6 {
        WriteRaw(p, k, size);
        assert rest[size..] == [];
        k := end;
        ByteEmpty(p.text[k..end]);
      } else {
        assert p.text[k..k + 6] == rest[..6] && rest[6..] == p.text[k + 6..end];
        ghost var block, tail := SixCodewords(rest[..6]), ByteCodewords(rest[6..]);
        ByteCompaction6(p, k);
        assert (before + block) + tail == before + (block + tail);
        k := k + 6;
      }
    }
    ByteEmpty(p.text[k..end]);
  }

  method WriteRaw(p: Encoder, k: nat, size: nat)
    requires p.Valid() && k + size <= |p.text| && p.cwPtr + size <= p.codewords.Length
    modifies p`cwPtr, p.codewords
    ensures p.Valid() && p.cwPtr == old(p.cwPtr) + size
    ensures p.Written() == old(p.Written()) + p.text[k..k + size]
    ensures p.codewords[p.cwPtr..] == old(p.codewords[p.cwPtr + size..])
  {
    ghost var last := p.cwPtr + size;
    for j := 0 to size
      invariant p.Valid() && p.cwPtr == old(p.cwPtr) + j
      invariant p.Written() == old(p.Written()) + p.text[k..k + j]
      invariant p.codewords[last..] == old(p.codewords[last..])
    {
      p.codewords[p.cwPtr] := p.text[k + j];
      p.cwPtr := p.cwPtr + 1;
    }
  }

  lemma ByteEmpty(text: seq<byte>)
    requires text == []
    ensures ByteCodewords(text) == []
  {}

  lemma ByteUnfold(text: seq<byte>)
    ensures |text| < 6 ==> ByteCodewords(text) == text
    ensures |text| >= 6 ==>
      ByteCodewords(text) == SixCodewords(text[..6]) + ByteCodewords(text[6..]) && |SixCodewords(text[..6])| == 5
  {}
}
