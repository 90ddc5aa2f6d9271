// base64.c: encoding and decoding as in section 4 of RFC 4648.

module Base64 {
  import opened Octets

  const PAD: byte := 61

  function AlphabetOf(v: nat): (c: byte)
    requires v < 64
    ensures c != PAD && c != 10 && c != 0
  {
    if v < 26 then 'A' as int + v
    else if v < 52 then 'a' as int + (v - 26)
    else if v < 62 then '0' as int + (v - 52)
    else if v == 62 then '+' as int else '/' as int
  }

  lemma AlphabetInjective(v: nat, w: nat)
    requires v < 64 && w < 64 && AlphabetOf(v) == AlphabetOf(w)
    ensures v == w
  {}

  // ----- Encoding -----

  function Octet(d: seq<byte>, i: nat): byte {
    if i < |d| then d[i] else 0
  }

  function Triple(d: seq<byte>): (t: nat)
    ensures t < 16777216
  {
    Octet(d, 0) * 65536 + Octet(d, 1) * 256 + Octet(d, 2)
  }

  function Group(t: nat): (g: seq<byte>)
    requires t < 16777216
    ensures |g| == 4
  {
    [AlphabetOf(t / 262144 % 64), AlphabetOf(t / 4096 % 64), AlphabetOf(t / 64 % 64), AlphabetOf(t % 64)]
  }

  // Groups of four, the last from data extended with zeros.
  function Unpadded(d: seq<byte>): (s: seq<byte>)
    ensures |s| == 4 * ((|d| + 2) / 3)
    decreases |d|
  {
    if d == [] then []
    else if |d| <= 3 then Group(Triple(d))
    else Group(Triple(d)) + Unpadded(d[3..])
  }

  function Fill(n: nat, c: byte): (s: seq<byte>)
    ensures |s| == n && forall i :: 0 <= i < n ==> s[i] == c
  {
    seq(n, _ => c)
  }

  function PadCount(n: nat): nat {
    if n % 3 == 0 then 0 else 3 - n % 3
  }

  function Encode(d: seq<byte>): (s: seq<byte>)
    ensures |s| == 4 * ((|d| + 2) / 3)
    ensures |s| % 4 == 0 && (d != [] ==> |s| >= 4)
  {
    EncodedLength(|d|);
    var u := Unpadded(d);
    u[..|u| - PadCount(|d|)] + Fill(PadCount(|d|), PAD)
  }

  lemma EncodedLength(n: nat)
    ensures 4 * ((n + 2) / 3) % 4 == 0 && (n > 0 ==> 4 * ((n + 2) / 3) >= 4)
    ensures PadCount(n) <= 4 * ((n + 2) / 3)
  {}

  // ----- Decoding -----

  function Sextet(table: seq<byte>, c: byte): byte
    requires |table| == 256
  {
    if c == PAD then 0 else table[c]
  }

  function GroupValue(table: seq<byte>, g: seq<byte>): nat
    requires |table| == 256 && |g| >= 4
  {
    Sextet(table, g[0]) * 262144 + Sextet(table, g[1]) * 4096 + Sextet(table, g[2]) * 64 + Sextet(table, g[3])
  }

  function Bytes(t: nat): seq<byte> {
    [t / 65536 % 256, t / 256 % 256, t % 256]
  }

  function DecodeGroups(table: seq<byte>, s: seq<byte>): (d: seq<byte>)
    requires |table| == 256 && |s| % 4 == 0
    ensures |d| == |s| / 4 * 3
    decreases |s|
  {
    if s == [] then []
    else Bytes(GroupValue(table, s)) + DecodeGroups(table, s[4..])
  }

  function DecodedLength(s: seq<byte>): (n: nat)
    requires |s| >= 4 && |s| % 4 == 0
    ensures |s| / 4 * 3 - 2 <= n <= |s| / 4 * 3
  {
    |s| / 4 * 3 - (if s[|s| - 1] == PAD then 1 else 0) - (if s[|s| - 2] == PAD then 1 else 0)
  }

  function Decode(table: seq<byte>, s: seq<byte>): seq<byte>
    requires |table| == 256 && |s| >= 4 && |s| % 4 == 0
  {
    DecodeGroups(table, s)[..DecodedLength(s)]
  }

  // The table inverts the alphabet; its other places are whatever they were.
  ghost predicate Inverts(table: seq<byte>) {
    |table| == 256 && forall v :: 0 <= v < 64 ==> table[AlphabetOf(v)] == v
  }

  // ----- Undoing -----

  lemma SplitTriple(t: nat)
    requires t < 16777216
    ensures t == t / 262144 * 262144 + t / 4096 % 64 * 4096 + t / 64 % 64 * 64 + t % 64
    ensures t / 262144 % 64 == t / 262144
  {
    assert t / 4096 / 64 == t / 262144;
    assert t / 64 / 64 == t / 4096;
  }

  lemma JoinSextets(a: nat, b: nat, c: nat, d: nat)
    requires a < 64 && b < 64 && c < 64 && d < 64
    ensures var t := a * 262144 + b * 4096 + c * 64 + d;
            t < 16777216 && t / 262144 == a && t / 4096 % 64 == b && t / 64 % 64 == c && t % 64 == d
  {
    var t := a * 262144 + b * 4096 + c * 64 + d;
    assert t / 64 == a * 4096 + b * 64 + c;
    assert t / 4096 == a * 64 + b;
  }

  lemma JoinBytes(a: nat, b: nat, c: nat)
    requires a < 256 && b < 256 && c < 256
    ensures Bytes(a * 65536 + b * 256 + c) == [a, b, c]
  {
    var t := a * 65536 + b * 256 + c;
    assert t / 256 == a * 256 + b;
  }

  lemma SplitBytes(t: nat)
    requires t < 16777216
    ensures t / 65536 % 256 * 65536 + t / 256 % 256 * 256 + t % 256 == t
  {
    assert t / 256 / 256 == t / 65536;
  }

  lemma GroupValueOfGroup(table: seq<byte>, t: nat)
    requires Inverts(table) && t < 16777216
    ensures GroupValue(table, Group(t)) == t
  {
    hide AlphabetOf;
    SplitTriple(t);
  }

  lemma EncodeUnfold(d: seq<byte>)
    ensures |d| > 3 ==> Encode(d) == Group(Triple(d)) + Encode(d[3..])
    ensures 0 < |d| <= 3 ==>
      Encode(d) == Group(Triple(d))[..4 - PadCount(|d|)] + Fill(PadCount(|d|), PAD)
  {
    hide Group, Triple, PadCount;
    PadCountOf(|d|);
    if |d| > 3 {
      var g, r, k := Group(Triple(d)), Unpadded(d[3..]), PadCount(|d|);
      assert (g + r)[..|g + r| - k] == g + r[..|r| - k];
      assert Encode(d) == (g + r[..|r| - k]) + Fill(k, PAD);
    }
  }

  lemma PadCountOf(n: nat)
    ensures PadCount(n) < 3 && (n >= 3 ==> PadCount(n) == PadCount(n - 3))
    ensures n == 1 ==> PadCount(n) == 2
    ensures n == 2 ==> PadCount(n) == 1
    ensures n == 3 ==> PadCount(n) == 0
  {
    assert n >= 3 ==> n % 3 == (n - 3) % 3;
  }

  lemma LowSextets(d: seq<byte>)
    ensures |d| < 3 ==> Triple(d) % 64 == 0
    ensures |d| < 2 ==> Triple(d) / 64 % 64 == 0
  {
    if |d| < 3 {
      assert Triple(d) == (Octet(d, 0) * 1024 + Octet(d, 1) * 4) * 64;
      assert Triple(d) / 64 == Octet(d, 0) * 1024 + Octet(d, 1) * 4;
    }
  }

  lemma LastGroupPads(d: seq<byte>)
    requires 0 < |d| <= 3
    ensures |Encode(d)| == 4
    ensures Encode(d)[3] == PAD <==> |d| < 3
    ensures Encode(d)[2] == PAD <==> |d| < 2
    ensures forall i :: 0 <= i < 4 ==> Encode(d)[i] == if i < 4 - PadCount(|d|) then Group(Triple(d))[i] else PAD
  {
    hide AlphabetOf, Triple, Encode, Unpadded, PadCount;
    EncodeUnfold(d);
    PadCountOf(|d|);
  }

  // Padding stands for sextets that are zero anyway.
  lemma LastGroupValue(table: seq<byte>, d: seq<byte>)
    requires Inverts(table) && 0 < |d| <= 3
    ensures |Encode(d)| == 4 && GroupValue(table, Encode(d)) == Triple(d)
  {
    hide AlphabetOf, Triple, Encode, PadCount;
    SplitTriple(Triple(d));
    LowSextets(d);
    LastGroupPads(d);
    PadCountOf(|d|);
  }

  lemma OctetsBack(d: seq<byte>)
    ensures Bytes(Triple(d)) == [Octet(d, 0), Octet(d, 1), Octet(d, 2)]
    ensures 0 < |d| <= 3 ==> Bytes(Triple(d)) == d + Fill(PadCount(|d|), 0)
    ensures |d| > 3 ==> Bytes(Triple(d)) == d[..3]
  {
    hide PadCount, Bytes;
    PadCountOf(|d|);
    JoinBytes(Octet(d, 0), Octet(d, 1), Octet(d, 2));
  }

  lemma GroupsOfLast(table: seq<byte>, d: seq<byte>)
    requires Inverts(table) && 0 < |d| <= 3
    ensures DecodeGroups(table, Encode(d)) == d + Fill(PadCount(|d|), 0)
  {
    hide Encode, GroupValue, Bytes, PadCount, Triple, AlphabetOf;
    LastGroupValue(table, d);
    OctetsBack(d);
    var s := Encode(d);
    assert s + [] == s;
    GroupsStep(table, s, []);
    assert Bytes(Triple(d)) + [] == Bytes(Triple(d));
  }

  lemma GroupsStep(table: seq<byte>, g: seq<byte>, rest: seq<byte>)
    requires |table| == 256 && |g| == 4 && |rest| % 4 == 0
    ensures |g + rest| % 4 == 0
    ensures DecodeGroups(table, g + rest) == Bytes(GroupValue(table, g)) + DecodeGroups(table, rest)
  {
    hide GroupValue, Bytes;
    assert (g + rest)[..4] == g && (g + rest)[4..] == rest;
    GroupValueLocal(table, g, g + rest);
  }

  lemma {:induction false} LengthOfEncode(d: seq<byte>)
    requires d != []
    ensures DecodedLength(Encode(d)) == |d|
    decreases |d|
  {
    hide Encode, Group, Triple, DecodedLength, PadCount;
    EncodeUnfold(d);
    if |d| <= 3 {
      LastGroupPads(d);
      LengthOfLast(Encode(d), d);
    } else {
      LengthOfEncode(d[3..]);
      LengthOfMore(Group(Triple(d)), Encode(d[3..]));
    }
  }

  lemma {:induction false} GroupsOfEncode(table: seq<byte>, d: seq<byte>)
    requires Inverts(table) && d != []
    ensures DecodeGroups(table, Encode(d)) == d + Fill(PadCount(|d|), 0)
    decreases |d|
  {
    hide Encode, GroupValue, Group, Bytes, PadCount, Triple, AlphabetOf, DecodeGroups;
    if |d| <= 3 {
      GroupsOfLast(table, d);
    } else {
      EncodeUnfold(d);
      GroupValueOfGroup(table, Triple(d));
      GroupsOfEncode(table, d[3..]);
      GroupsStep(table, Group(Triple(d)), Encode(d[3..]));
      OctetsBack(d);
      JoinHead(d);
    }
  }

  lemma JoinHead(d: seq<byte>)
    requires |d| > 3
    ensures PadCount(|d|) == PadCount(|d[3..]|)
    ensures d[..3] + (d[3..] + Fill(PadCount(|d|), 0)) == d + Fill(PadCount(|d|), 0)
  {
    PadCountOf(|d|);
  }

  lemma LengthOfLast(s: seq<byte>, d: seq<byte>)
    requires |s| == 4 && 0 < |d| <= 3 && (s[3] == PAD <==> |d| < 3) && (s[2] == PAD <==> |d| < 2)
    ensures DecodedLength(s) == |d|
  {}

  lemma LengthOfMore(g: seq<byte>, s: seq<byte>)
    requires |g| == 4 && |s| >= 4 && |s| % 4 == 0
    ensures |g + s| % 4 == 0 && DecodedLength(g + s) == DecodedLength(s) + 3
  {
    assert (g + s)[|g + s| - 1] == s[|s| - 1] && (g + s)[|g + s| - 2] == s[|s| - 2];
  }

  lemma GroupValueLocal(table: seq<byte>, g: seq<byte>, s: seq<byte>)
    requires |table| == 256 && |g| == 4 && |s| >= 4 && s[..4] == g
    ensures GroupValue(table, s) == GroupValue(table, g)
  {
    assert forall i :: 0 <= i < 4 ==> s[i] == s[..4][i];
  }

  // Decoding undoes encoding, whatever the table holds elsewhere.
  lemma DecodeEncode(table: seq<byte>, d: seq<byte>)
    requires Inverts(table) && d != []
    ensures Decode(table, Encode(d)) == d
  {
    hide Encode, DecodeGroups, DecodedLength, PadCount;
    GroupsOfEncode(table, d);
    LengthOfEncode(d);
  }

  // Nothing in an encoding is a newline or NUL.
  lemma {:induction false} EncodingIsPrintable(d: seq<byte>)
    ensures forall i :: 0 <= i < |Encode(d)| ==> Encode(d)[i] != 10 && Encode(d)[i] != 0
    ensures forall i :: 0 <= i < |Encode(d)| - 2 ==> Encode(d)[i] != PAD
    decreases |d|
  {
    hide AlphabetOf;
    EncodeUnfold(d);
    if |d| > 3 {
      EncodingIsPrintable(d[3..]);
    }
  }

  // ----- Canonical encodings -----

  ghost predicate InAlphabet(c: byte) {
    exists v: nat :: v < 64 && AlphabetOf(v) == c
  }

  ghost function ValueOf(c: byte): (v: nat)
    requires InAlphabet(c)
    ensures v < 64 && AlphabetOf(v) == c
  {
    var v: nat :| v < 64 && AlphabetOf(v) == c;
    v
  }

  ghost predicate IsFull(g: seq<byte>) {
    |g| == 4 && InAlphabet(g[0]) && InAlphabet(g[1]) && InAlphabet(g[2]) && InAlphabet(g[3])
  }

  // A last group may end in padding, with no stray bits before it.
  ghost predicate IsLast(g: seq<byte>) {
    || IsFull(g)
    || (|g| == 4 && InAlphabet(g[0]) && InAlphabet(g[1]) && InAlphabet(g[2]) && g[3] == PAD && ValueOf(g[2]) % 4 == 0)
    || (|g| == 4 && InAlphabet(g[0]) && InAlphabet(g[1]) && g[2] == PAD && g[3] == PAD && ValueOf(g[1]) % 16 == 0)
  }

  ghost predicate IsCanonical(s: seq<byte>)
    decreases |s|
  {
    if |s| <= 4 then IsLast(s) else IsFull(s[..4]) && IsCanonical(s[4..])
  }

  lemma {:induction false} CanonicalLength(s: seq<byte>)
    requires IsCanonical(s)
    ensures |s| >= 4 && |s| % 4 == 0
    decreases |s|
  {
    if |s| > 4 { CanonicalLength(s[4..]); }
  }

  lemma SextetOf(table: seq<byte>, c: byte)
    requires Inverts(table) && InAlphabet(c)
    ensures Sextet(table, c) == ValueOf(c)
  {}

  lemma FullGroup(table: seq<byte>, g: seq<byte>)
    requires Inverts(table) && IsFull(g)
    ensures GroupValue(table, g) < 16777216 && Group(GroupValue(table, g)) == g
  {
    hide AlphabetOf, Sextet, InAlphabet;
    SextetOf(table, g[0]);
    SextetOf(table, g[1]);
    SextetOf(table, g[2]);
    SextetOf(table, g[3]);
    JoinSextets(ValueOf(g[0]), ValueOf(g[1]), ValueOf(g[2]), ValueOf(g[3]));
    var t := GroupValue(table, g);
    SplitTriple(t);
  }

  lemma TripleOfBytes(t: nat, rest: seq<byte>)
    requires t < 16777216
    ensures Triple(Bytes(t) + rest) == t
  {
    SplitBytes(t);
    var d := Bytes(t) + rest;
    assert d[0] == t / 65536 % 256 && d[1] == t / 256 % 256 && d[2] == t % 256;
  }

  lemma LastGroup(table: seq<byte>, g: seq<byte>)
    requires Inverts(table) && IsLast(g)
    ensures Encode(Decode(table, g)) == g
  {
    hide AlphabetOf, InAlphabet, Sextet, Group, Triple;
    var t := GroupValue(table, g);
    assert g[4..] == [];
    assert DecodeGroups(table, g) == Bytes(t) + [];
    var d := Decode(table, g);
    EncodeUnfold(d);
    if IsFull(g) {
      FullGroup(table, g);
      AlphabetIsNotPad(g[2]);
      AlphabetIsNotPad(g[3]);
      TripleOfBytes(t, []);
      assert d == Bytes(t) + [];
    } else if g[2] != PAD {
      SextetOf(table, g[0]);
      SextetOf(table, g[1]);
      SextetOf(table, g[2]);
      PadSextet(table);
      OnePad(ValueOf(g[0]), ValueOf(g[1]), ValueOf(g[2]), d);
    } else {
      SextetOf(table, g[0]);
      SextetOf(table, g[1]);
      PadSextet(table);
      TwoPads(ValueOf(g[0]), ValueOf(g[1]), d);
    }
  }

  lemma PadSextet(table: seq<byte>)
    requires |table| == 256
    ensures Sextet(table, PAD) == 0
  {}

  lemma AlphabetIsNotPad(c: byte)
    requires InAlphabet(c)
    ensures c != PAD
  {}

  lemma OnePad(a: nat, b: nat, c: nat, d: seq<byte>)
    requires a < 64 && b < 64 && c < 64 && c % 4 == 0
    requires d == Bytes(a * 262144 + b * 4096 + c * 64)[..2]
    ensures Triple(d) == a * 262144 + b * 4096 + c * 64 < 16777216
    ensures Group(Triple(d))[..3] == [AlphabetOf(a), AlphabetOf(b), AlphabetOf(c)]
  {
    hide AlphabetOf;
    var t := a * 262144 + b * 4096 + c * 64;
    JoinSextets(a, b, c, 0);
    LowByteZero(a * 1024 + b * 16, c);
    SplitBytes(t);
    TripleOfTwo(d, t / 65536 % 256, t / 256 % 256);
    SplitTriple(t);
  }

  lemma LowByteZero(x: nat, c: nat)
    requires c % 4 == 0
    ensures (x * 256 + c * 64) % 256 == 0
  {
    assert x * 256 + c * 64 == (x + c / 4) * 256;
  }

  lemma TripleOfTwo(d: seq<byte>, x: byte, y: byte)
    requires d == [x, y]
    ensures Triple(d) == x * 65536 + y * 256
  {}

  lemma HighByteOnly(x: nat)
    ensures x * 65536 % 256 == 0 && x * 65536 / 256 % 256 == 0
  {
    assert x * 65536 / 256 == x * 256;
  }

  lemma TwoPads(a: nat, b: nat, d: seq<byte>)
    requires a < 64 && b < 64 && b % 16 == 0
    requires d == Bytes(a * 262144 + b * 4096)[..1]
    ensures Triple(d) == a * 262144 + b * 4096 < 16777216
    ensures Group(Triple(d))[..2] == [AlphabetOf(a), AlphabetOf(b)]
  {
    hide AlphabetOf;
    var t := a * 262144 + b * 4096;
    JoinSextets(a, b, 0, 0);
    SplitBytes(t);
    assert t == (a * 4 + b / 16) * 65536;
    HighByteOnly(a * 4 + b / 16);
    SplitTriple(t);
  }

  // Encoding undoes decoding on every canonical encoding.
  lemma {:induction false} EncodeDecode(table: seq<byte>, s: seq<byte>)
    requires Inverts(table) && IsCanonical(s)
    ensures |s| >= 4 && |s| % 4 == 0 && Encode(Decode(table, s)) == s
    decreases |s|
  {
    hide GroupValue, IsLast, IsFull, Encode, Group, Triple;
    CanonicalLength(s);
    if |s| <= 4 {
      LastGroup(table, s);
    } else {
      var g, rest := s[..4], s[4..];
      CanonicalLength(rest);
      EncodeDecode(table, rest);
      FullGroup(table, g);
      GroupValueLocal(table, g, s);
      var t := GroupValue(table, g);
      var d := Decode(table, rest);
      assert DecodedLength(s) == DecodedLength(rest) + 3 by {
        assert s[|s| - 1] == rest[|rest| - 1] && s[|s| - 2] == rest[|rest| - 2];
      }
      assert Decode(table, s) == Bytes(t) + d;
      assert (Bytes(t) + d)[3..] == d;
      EncodeUnfold(Bytes(t) + d);
      TripleOfBytes(t, d);
      assert d != [];
    }
  }
}
