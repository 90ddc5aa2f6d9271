// A reader of base64 written from section 4 of RFC 4648 alone: every
// character stands for six bits, and every eight bits make an octet.

module Base64Reader {
  import opened Octets
  import opened Radix
  import opened RowBits
  import opened Base64

  // ----- The alphabet of the standard, in four rows -----

  function Row0(): (s: string) ensures |s| == 16 { "ABCDEFGHIJKLMNOP" }
  function Row1(): (s: string) ensures |s| == 16 { "QRSTUVWXYZabcdef" }
  function Row2(): (s: string) ensures |s| == 16 { "ghijklmnopqrstuv" }
  function Row3(): (s: string) ensures |s| == 16 { "wxyz0123456789+/" }

  function Alphabet(): (s: string)
    ensures |s| == 64
  {
    Row0() + Row1() + Row2() + Row3()
  }

  lemma RowsAgree(i: nat)
    requires i < 16
    ensures Row0()[i] as int == AlphabetOf(i) && Row1()[i] as int == AlphabetOf(16 + i)
    ensures Row2()[i] as int == AlphabetOf(32 + i) && Row3()[i] as int == AlphabetOf(48 + i)
  {}

  // The encoder's alphabet is the standard's.
  lemma AlphabetIsStandard(v: nat)
    requires v < 64
    ensures AlphabetOf(v) == Alphabet()[v] as int
  {
    hide Row0, Row1, Row2, Row3, AlphabetOf;
    RowsAgree(v % 16);
  }

  // ----- The reader -----

  // The first place of a character, or the length of the string.
  function Position(s: string, c: byte): (v: nat)
    ensures v <= |s| && (v < |s| ==> s[v] as int == c)
    ensures forall i :: 0 <= i < v ==> s[i] as int != c
  {
    if s == [] || s[0] as int == c then 0 else 1 + Position(s[1..], c)
  }

  // Six bits for every character, up to the first that has no value.
  function ReadSextets(s: seq<byte>): seq<int> {
    if s == [] || Position(Alphabet(), s[0]) == 64 then []
    else Digits(2, Position(Alphabet(), s[0]), 6) + ReadSextets(s[1..])
  }

  // As many octets as there are whole ones.
  function ReadOctets(bits: seq<int>): seq<int>
    decreases |bits|
  {
    if |bits| < 8 then [] else [Value(2, bits[..8])] + ReadOctets(bits[8..])
  }

  function ReadBase64(s: seq<byte>): seq<int> {
    ReadOctets(ReadSextets(s))
  }

  // ----- What the reader makes of a group -----

  lemma PositionOf(v: nat)
    requires v < 64
    ensures Position(Alphabet(), AlphabetOf(v)) == v
  {
    hide Alphabet, AlphabetOf;
    AlphabetIsStandard(v);
    var p := Position(Alphabet(), AlphabetOf(v));
    assert p <= v;
    AlphabetIsStandard(p);
    AlphabetInjective(v, p);
  }

  lemma PadHasNoPosition()
    ensures Position(Alphabet(), PAD) == 64
  {
    hide Alphabet, AlphabetOf;
    var p := Position(Alphabet(), PAD);
    if p < 64 { AlphabetIsStandard(p); }
  }

  lemma OneSextet(v: nat, rest: seq<byte>)
    requires v < 64
    ensures ReadSextets([AlphabetOf(v)] + rest) == Digits(2, v, 6) + ReadSextets(rest)
  {
    hide Alphabet, AlphabetOf, Digits, Position;
    PositionOf(v);
    assert ([AlphabetOf(v)] + rest)[1..] == rest;
  }

  lemma PadEndsSextets(rest: seq<byte>)
    ensures ReadSextets([PAD] + rest) == []
  {
    hide Alphabet;
    PadHasNoPosition();
  }

  // The four sextets of a number below 2^24, and its three octets.
  lemma SextetsOf(t: nat)
    requires t < 16777216
    ensures Digits(2, t / 262144 % 64, 6) + Digits(2, t / 4096 % 64, 6) + Digits(2, t / 64 % 64, 6)
            + Digits(2, t % 64, 6)
            == Digits(2, t, 24)
  {
    hide Digits, Pow;
    Pow2To24();
    Quotients(t);
    LowDigits(t, 18);
    LowDigits(t / 64, 12);
    LowDigits(t / 64 / 64, 6);
    SplitTriple(t);
  }

  lemma Pow2To24()
    ensures Pow(2, 6) == 64 && Pow(2, 12) == 4096 && Pow(2, 18) == 262144 && Pow(2, 24) == 16777216
  {
    hide Pow;
    Pow2Values();
    PowSum(2, 12, 12);
  }

  lemma Quotients(t: nat)
    ensures t / 64 / 64 == t / 4096 && t / 64 / 64 / 64 == t / 262144
  {
    assert t / 64 / 64 == t / 4096;
  }

  // The low six digits of a number, and the others.
  lemma LowDigits(n: nat, w: nat)
    requires n < Pow(2, w) * 64 && Pow(2, w + 6) == Pow(2, w) * 64 && Pow(2, 6) == 64
    ensures Digits(2, n, w + 6) == Digits(2, n / 64, w) + Digits(2, n % 64, 6)
  {
    hide Digits, Pow, Value;
    var a, b := Digits(2, n / 64, w), Digits(2, n % 64, 6);
    ValueOfDigits(2, n, w + 6);
    ValueOfDigits(2, n / 64, w);
    ValueOfDigits(2, n % 64, 6);
    ValueAppend(2, a, b);
    EqualValues(Digits(2, n, w + 6), a + b);
  }

  lemma OctetsOf(x: byte, y: byte, z: byte)
    ensures Digits(2, x * 65536 + y * 256 + z, 24) == Digits(2, x, 8) + Digits(2, y, 8) + Digits(2, z, 8)
  {
    hide Digits, Value, Pow;
    var s := Digits(2, x, 8) + Digits(2, y, 8) + Digits(2, z, 8);
    ThreeByteValue(x, y, z);
    DigitsOfValue(2, s);
  }

  // ----- Reading an encoding -----

  lemma {:induction false} SextetsAppend(a: seq<byte>, b: seq<byte>)
    requires forall i :: 0 <= i < |a| ==> Position(Alphabet(), a[i]) < 64
    ensures ReadSextets(a + b) == ReadSextets(a) + ReadSextets(b)
    decreases |a|
  {
    hide Alphabet, Digits, Position;
    if a == [] {
      assert a + b == b;
    } else {
      assert (a + b)[1..] == a[1..] + b;
      SextetsAppend(a[1..], b);
    }
  }

  // The first n characters of a group are its first 6 * n bits.
  lemma GroupBits(t: nat, n: nat)
    requires t < 16777216 && n <= 4
    ensures forall i :: 0 <= i < n ==> Position(Alphabet(), Group(t)[i]) < 64
    ensures ReadSextets(Group(t)[..n]) == Digits(2, t, 24)[..6 * n]
  {
    hide Alphabet, AlphabetOf, Digits, Position;
    var v := [t / 262144 % 64, t / 4096 % 64, t / 64 % 64, t % 64];
    forall i | 0 <= i < 4 ensures Position(Alphabet(), Group(t)[i]) < 64 { PositionOf(v[i]); }
    SextetsOf(t);
    FirstBits(v, n);
    assert Group(t)[..n] == Characters(v)[..n];
  }

  function Characters(v: seq<nat>): (s: seq<byte>)
    requires forall i :: 0 <= i < |v| ==> v[i] < 64
    ensures |s| == |v|
  {
    seq(|v|, i requires 0 <= i < |v| => AlphabetOf(v[i]))
  }

  lemma {:induction false} FirstBits(v: seq<nat>, n: nat)
    requires |v| == 4 && n <= 4 && forall i :: 0 <= i < |v| ==> v[i] < 64
    ensures ReadSextets(Characters(v)[..n])
            == (Digits(2, v[0], 6) + Digits(2, v[1], 6) + Digits(2, v[2], 6) + Digits(2, v[3], 6))[..6 * n]
    decreases n
  {
    hide Alphabet, AlphabetOf, Digits, Position;
    var s, all := Characters(v), Digits(2, v[0], 6) + Digits(2, v[1], 6) + Digits(2, v[2], 6) + Digits(2, v[3], 6);
    if n == 0 {
      assert s[..0] == [] && all[..0] == [];
    } else {
      FirstBits(v, n - 1);
      var part := s[..n - 1];
      forall i | 0 <= i < |part| ensures Position(Alphabet(), part[i]) < 64 { PositionOf(v[i]); }
      assert s[..n] == part + [AlphabetOf(v[n - 1])];
      SextetsAppend(part, [AlphabetOf(v[n - 1])]);
      OneSextet(v[n - 1], []);
      assert [AlphabetOf(v[n - 1])] + [] == [AlphabetOf(v[n - 1])];
      assert all[..6 * n] == all[..6 * (n - 1)] + Digits(2, v[n - 1], 6);
    }
  }

  lemma OctetsFirst(x: byte, rest: seq<int>)
    ensures ReadOctets(Digits(2, x, 8) + rest) == [x] + ReadOctets(rest)
  {
    hide Digits, Value, Pow;
    Pow2Values();
    ValueOfDigits(2, x, 8);
    var bits := Digits(2, x, 8) + rest;
    assert bits[..8] == Digits(2, x, 8) && bits[8..] == rest;
  }

  lemma {:induction false} OctetsOfBits(d: seq<byte>, rest: seq<int>)
    ensures ReadOctets(Bits(d) + rest) == d + ReadOctets(rest)
    decreases |d|
  {
    hide Digits, ReadOctets;
    if d == [] {
      assert Bits(d) + rest == rest && d + ReadOctets(rest) == ReadOctets(rest);
    } else {
      var n := |d| - 1;
      OctetsOfBits(d[..n], Digits(2, d[n], 8) + rest);
      OctetsFirst(d[n], rest);
      assert Bits(d) + rest == Bits(d[..n]) + (Digits(2, d[n], 8) + rest);
      assert d == d[..n] + [d[n]];
      assert d[..n] + ([d[n]] + ReadOctets(rest)) == d + ReadOctets(rest);
    }
  }

  // The bits of three octets, zero past the end.
  lemma TripleBits(d: seq<byte>)
    ensures Digits(2, Triple(d), 24)
            == Digits(2, Octet(d, 0), 8) + Digits(2, Octet(d, 1), 8) + Digits(2, Octet(d, 2), 8)
  {
    hide Digits;
    OctetsOf(Octet(d, 0), Octet(d, 1), Octet(d, 2));
  }

  // The bits of an encoding are the bits of the data, and fewer than eight
  // more.
  lemma {:induction false} EncodingBits(d: seq<byte>)
    ensures Bits(d) <= ReadSextets(Encode(d)) && |ReadSextets(Encode(d))| < |Bits(d)| + 8
    decreases |d|
  {
    hide Digits, Triple, Group, Encode, Alphabet, Position;
    EncodeUnfold(d);
    if d == [] {
      EmptyEncoding();
    } else if |d| <= 3 {
      LastBits(d);
    } else {
      EncodingBits(d[3..]);
      GroupBits(Triple(d), 4);
      assert Group(Triple(d))[..4] == Group(Triple(d));
      SextetsAppend(Group(Triple(d)), Encode(d[3..]));
      assert Digits(2, Triple(d), 24)[..24] == Digits(2, Triple(d), 24);
      FirstThree(d);
    }
  }

  lemma EmptyEncoding()
    ensures Encode([]) == [] && ReadSextets([]) == [] && Bits([]) == []
  {}

  lemma FirstThree(d: seq<byte>)
    requires |d| > 3
    ensures Bits(d) == Digits(2, Triple(d), 24) + Bits(d[3..])
  {
    hide Digits, Triple, Bits;
    var h := d[..3];
    FirstOctets(d);
    ThreeBits(h);
    BitsAppend(h, d[3..]);
    assert h + d[3..] == d;
    TripleBits(d);
    TripleBits(h);
  }

  lemma ThreeBits(d: seq<byte>)
    requires |d| == 3
    ensures Bits(d) == Digits(2, Octet(d, 0), 8) + Digits(2, Octet(d, 1), 8) + Digits(2, Octet(d, 2), 8)
  {
    hide Digits, Bits, Octet;
    BitsOfFew(d);
    Whole(Digits(2, Octet(d, 0), 8) + Digits(2, Octet(d, 1), 8) + Digits(2, Octet(d, 2), 8));
  }

  lemma FirstOctets(d: seq<byte>)
    requires |d| > 3
    ensures Octet(d[..3], 0) == Octet(d, 0) && Octet(d[..3], 1) == Octet(d, 1) && Octet(d[..3], 2) == Octet(d, 2)
  {}

  lemma Whole(s: seq<int>)
    ensures s[..|s|] == s
  {}

  lemma LastBits(d: seq<byte>)
    requires 0 < |d| <= 3
    ensures Bits(d) <= ReadSextets(Encode(d)) && |ReadSextets(Encode(d))| < |Bits(d)| + 8
  {
    hide Digits, Triple, Group, Encode, Alphabet, Position, Bits;
    EncodeUnfold(d);
    PadCountOf(|d|);
    var n, g := |d| + 1, Group(Triple(d));
    var p := Fill(PadCount(|d|), PAD);
    GroupBits(Triple(d), n);
    SextetsAppend(g[..n], p);
    if p != [] {
      assert p == [PAD] + p[1..];
      PadEndsSextets(p[1..]);
    }
    TripleBits(d);
    BitsOfFew(d);
  }

  lemma BitsOfFew(d: seq<byte>)
    requires 0 < |d| <= 3
    ensures Bits(d) == (Digits(2, Octet(d, 0), 8) + Digits(2, Octet(d, 1), 8) + Digits(2, Octet(d, 2), 8))[..8 * |d|]
  {
    hide Digits;
    var a := Digits(2, Octet(d, 0), 8) + Digits(2, Octet(d, 1), 8) + Digits(2, Octet(d, 2), 8);
    assert Bits([]) == [];
    assert [d[0]][..0] == [];
    assert Bits([d[0]]) == [] + Digits(2, d[0], 8);
    if |d| == 1 {
      assert d == [d[0]];
    } else if |d| == 2 {
      assert d[..1] == [d[0]];
    } else {
      assert d == [] + [d[0], d[1], d[2]];
      BitsOfThree([], d[0], d[1], d[2]);
    }
  }

  // The reader gets every byte string back from its encoding.
  lemma StandardReads(d: seq<byte>)
    ensures ReadBase64(Encode(d)) == d
  {
    hide ReadSextets, ReadOctets, Encode, Bits;
    EncodingBits(d);
    var bits := ReadSextets(Encode(d));
    var rest := bits[|Bits(d)|..];
    assert bits == Bits(d) + rest;
    OctetsOfBits(d, rest);
    NoOctet(rest);
  }

  lemma NoOctet(bits: seq<int>)
    requires |bits| < 8
    ensures ReadOctets(bits) == []
  {}

  // And from every canonical encoding it reads what the decoder decodes.
  lemma DecodeIsStandard(table: seq<byte>, s: seq<byte>)
    requires Inverts(table) && IsCanonical(s)
    ensures |s| >= 4 && |s| % 4 == 0 && Decode(table, s) == ReadBase64(s)
  {
    hide Decode, Encode, ReadBase64, IsCanonical;
    EncodeDecode(table, s);
    StandardReads(Decode(table, s));
  }

  // The characters of a canonical encoding, padding apart, are the standard's.
  lemma InAlphabetIs(c: byte)
    ensures InAlphabet(c) <==> exists v :: 0 <= v < 64 && Alphabet()[v] as int == c
  {
    hide Alphabet, AlphabetOf;
    if InAlphabet(c) {
      AlphabetIsStandard(ValueOf(c));
    }
    if v :| 0 <= v < 64 && Alphabet()[v] as int == c {
      AlphabetIsStandard(v);
      assert AlphabetOf(v) == c;
    }
  }

  // The table a decoder looks characters up in.
  ghost predicate IsStandardTable(table: seq<byte>) {
    |table| == 256 && forall v :: 0 <= v < 64 ==> Alphabet()[v] as int < 256 && table[Alphabet()[v] as int] == v
  }

  lemma InvertsIsStandard(table: seq<byte>)
    ensures Inverts(table) <==> IsStandardTable(table)
  {
    hide Alphabet, AlphabetOf;
    forall v | 0 <= v < 64 ensures Alphabet()[v] as int == AlphabetOf(v) { AlphabetIsStandard(v); }
  }

  // How many '=' the standard wants behind n octets.
  function PadsFor(n: nat): nat {
    match n % 3
    case 0 => 0
    case 1 => 2
    case _ => 1
  }

  // Four characters for three octets, begun or whole; '=' stands where the
  // octets of the last group are missing, and nowhere else.
  lemma {:induction false} EncodingShape(d: seq<byte>)
    ensures |Encode(d)| == 4 * ((|d| + 2) / 3)
    ensures forall i :: 0 <= i < |Encode(d)| ==> (Encode(d)[i] == 61 <==> i >= |Encode(d)| - PadsFor(|d|))
    decreases |d|
  {
    hide AlphabetOf, Encode, PadsFor, PadCount, Triple;
    EncodeUnfold(d);
    PadsForIs(|d|);
    if |d| > 3 {
      EncodingShape(d[3..]);
      assert forall i :: 0 <= i < 4 ==> Group(Triple(d))[i] != 61;
    } else if d != [] {
      assert forall i :: 0 <= i < 4 ==> Group(Triple(d))[i] != 61;
    }
  }

  lemma PadsForIs(n: nat)
    ensures PadsFor(n) == PadCount(n) <= 2
    ensures n > 3 ==> PadsFor(n) == PadsFor(n - 3)
  {
    assert n > 3 ==> n % 3 == (n - 3) % 3;
  }

  // The octets FB EF BE are four times the sextet 62.
  lemma SextetExample()
    ensures Encode([251, 239, 190]) == [43, 43, 43, 43]
  {
    hide Encode, Triple, AlphabetOf;
    EncodeUnfold([251, 239, 190]);
    TripleOfExample();
    Sextet62();
  }

  lemma TripleOfExample()
    ensures Triple([251, 239, 190]) == 16510910
  {}

  lemma Sextet62()
    ensures AlphabetOf(62) == 43 && 16510910 / 262144 % 64 == 62
    ensures 16510910 / 4096 % 64 == 62 && 16510910 / 64 % 64 == 62 && 16510910 % 64 == 62
  {}
}
