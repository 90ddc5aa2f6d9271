// The loops of base64.c, against the functions of module Base64.

module Base64Codec {
  import opened Octets
  import opened Base64
  import Base64Reader

  class Codec {
    const decodingTable: array<byte>

    ghost predicate Valid()
      reads this, decodingTable
    {
      Inverts(decodingTable[..])
    }

    // base64_new: only the 64 places of the alphabet are set.
    constructor ()
      ensures Valid() && fresh(decodingTable) && Base64Reader.IsStandardTable(decodingTable[..])
    {
      var table := new byte[256];
      for i := 0 to 64
        invariant forall v :: 0 <= v < i ==> table[AlphabetOf(v)] == v
      {
        forall v | 0 <= v < i ensures AlphabetOf(v) != AlphabetOf(i) {
          if AlphabetOf(v) == AlphabetOf(i) { AlphabetInjective(v, i); }
        }
        table[AlphabetOf(i)] := i;
      }
      decodingTable := table;
      new;
      Base64Reader.InvertsIsStandard(decodingTable[..]);
    }

    method EncodeData(data: seq<byte>) returns (encoded: array<byte>)
      ensures fresh(encoded) && encoded[..] == Base64.Encode(data) && Base64Reader.ReadBase64(encoded[..]) == data
    {
      hide Unpadded, Base64Reader.ReadBase64;
      encoded := EncodeGroups(data);
      PadCountOf(|data|);
      var k := if |data| % 3 == 0 then 0 else 3 - |data| % 3;
      PadEnd(encoded, |data|, k);
      Base64Reader.StandardReads(data);
    }

    // The first loop, before the padding.
    method EncodeGroups(data: seq<byte>) returns (encoded: array<byte>)
      ensures fresh(encoded) && encoded[..] == Unpadded(data)
    {
      hide Unpadded, Group, Triple, AlphabetOf;
      encoded := new byte[4 * ((|data| + 2) / 3)];
      var i, j := 0, 0;
      assert encoded[..0] == [] && data[0..] == data;
      while i < |data|
        invariant i <= |data| && j + |Unpadded(data[i..])| == encoded.Length
        invariant encoded[..j] + Unpadded(data[i..]) == Unpadded(data)
      {
        ghost var done, rest := encoded[..j], data[i..];
        UnpaddedUnfold(rest);
        var triple;
        triple, i := TakeThree(data, i);
        PutFour(encoded, j, triple);
        j := j + 4;
        assert data[i..] == if |rest| <= 3 then [] else rest[3..];
        Regroup(done, Group(triple), Unpadded(data[i..]));
      }
      UnpaddedEmpty(data[i..]);
      assert encoded[..j] == encoded[..];
    }

    // The next three octets, zeros after the end.
    method TakeThree(data: seq<byte>, i0: nat) returns (triple: nat, i: nat)
      requires i0 < |data|
      ensures triple == Triple(data[i0..])
      ensures i == if |data| - i0 <= 3 then |data| else i0 + 3
    {
      i := i0;
      var octetA: nat, octetB: nat, octetC: nat := 0, 0, 0;
      if i < |data| { octetA := data[i]; i := i + 1; }
      if i < |data| { octetB := data[i]; i := i + 1; }
      if i < |data| { octetC := data[i]; i := i + 1; }
      triple := octetA * 65536 + octetB * 256 + octetC;
    }

    method PutFour(encoded: array<byte>, j: nat, triple: nat)
      requires triple < 16777216 && j + 4 <= encoded.Length
      modifies encoded
      ensures encoded[..j + 4] == old(encoded[..j]) + Group(triple)
    {
      hide AlphabetOf;
      encoded[j] := AlphabetOf(triple / 262144 % 64);
      encoded[j + 1] := AlphabetOf(triple / 4096 % 64);
      encoded[j + 2] := AlphabetOf(triple / 64 % 64);
      encoded[j + 3] := AlphabetOf(triple % 64);
    }

    method PadEnd(encoded: array<byte>, n: nat, k: nat)
      requires k == PadCount(n) <= encoded.Length
      modifies encoded
      ensures encoded[..] == old(encoded[..encoded.Length - k]) + Fill(k, PAD)
    {
      var length := encoded.Length;
      for i := 0 to k
        invariant encoded[..length - i] == old(encoded[..length - i])
        invariant forall x :: length - i <= x < length ==> encoded[x] == PAD
      {
        encoded[length - 1 - i] := PAD;
      }
      assert encoded[..] == encoded[..length - k] + encoded[length - k..];
    }

    lemma UnpaddedUnfold(d: seq<byte>)
      requires d != []
      ensures Unpadded(d) == Group(Triple(d)) + Unpadded(if |d| <= 3 then [] else d[3..])
    {
      hide Group, Triple;
    }

    lemma UnpaddedEmpty(d: seq<byte>)
      requires d == []
      ensures Unpadded(d) == []
    {}

    method DecodeData(data: seq<byte>) returns (decoded: array?<byte>)
      requires Valid() && data != []
      ensures decoded == null <==> |data| % 4 != 0
      ensures decoded != null ==> fresh(decoded) && decoded[..] == Base64.Decode(decodingTable[..], data)
    {
      hide Inverts, DecodeGroups, Decode, DecodedLength;
      if |data| % 4 != 0 {
        return null;
      }
      TableSize();
      ghost var table := decodingTable[..];
      var length := |data| / 4 * 3;
      if data[|data| - 1] == PAD { length := length - 1; }
      if data[|data| - 2] == PAD { length := length - 1; }
      DecodeIs(table, data);
      decoded := new byte[length];
      DecodeInto(data, decoded);
      assert decoded[..] == decoded[..length];
    }

    // Every group, as far as there is room.
    method DecodeInto(data: seq<byte>, decoded: array<byte>)
      requires Valid() && decoded != decodingTable && |decodingTable[..]| == 256
      requires |data| % 4 == 0 && decoded.Length <= |data| / 4 * 3
      modifies decoded
      ensures decoded[..] == DecodeGroups(decodingTable[..], data)[..decoded.Length]
    {
      hide Inverts, DecodeGroups;
      ghost var all := DecodeGroups(decodingTable[..], data);
      var i, j := 0, 0;
      ghost var n := 0;
      assert data[0..] == data && all[0..] == all;
      while i < |data|
        invariant i == 4 * n && i <= |data|
        invariant j == if 3 * n < decoded.Length then 3 * n else decoded.Length
        invariant 3 * n <= |all|
        invariant all[3 * n..] == DecodeGroups(decodingTable[..], data[i..])
        invariant decoded[..j] == all[..j]
      {
        i, j := DecodeGroup(data, i, decoded, j, n, all);
        n := n + 1;
      }
      assert decoded[..] == decoded[..j];
    }

    // Four characters more.
    method DecodeGroup(data: seq<byte>, i0: nat, decoded: array<byte>, j0: nat, ghost n: nat, ghost all: seq<byte>)
      returns (i: nat, j: nat)
      requires Valid() && decoded != decodingTable && |decodingTable[..]| == 256
      requires i0 == 4 * n < |data| && |data| % 4 == 0 && 3 * n <= |all|
      requires all[3 * n..] == DecodeGroups(decodingTable[..], data[i0..])
      requires j0 == if 3 * n < decoded.Length then 3 * n else decoded.Length
      requires decoded.Length <= |all| && decoded[..j0] == all[..j0]
      modifies decoded
      ensures i == i0 + 4 <= |data|
      ensures j == if 3 * n + 3 < decoded.Length then 3 * n + 3 else decoded.Length
      ensures 3 * n + 3 <= |all| && all[3 * n + 3..] == DecodeGroups(decodingTable[..], data[i..])
      ensures decoded[..j] == all[..j]
    {
      hide Inverts, GroupValue, DecodeGroups, Bytes;
      ghost var rest := data[i0..];
      DecodeUnfold(decodingTable[..], rest);
      assert data[i0 + 4..] == rest[4..];
      var triple := GroupAt(data, i0);
      i := i0 + 4;
      j := PutThree(decoded, j0, triple, all, 3 * n, DecodeGroups(decodingTable[..], rest[4..]));
    }

    lemma DecodeIs(table: seq<byte>, s: seq<byte>)
      requires |table| == 256 && |s| >= 4 && |s| % 4 == 0
      ensures 0 <= DecodedLength(s) <= |DecodeGroups(table, s)| == |s| / 4 * 3
      ensures DecodedLength(s) == |s| / 4 * 3 - (if s[|s| - 1] == PAD then 1 else 0)
              - (if s[|s| - 2] == PAD then 1 else 0)
      ensures Base64.Decode(table, s) == DecodeGroups(table, s)[..DecodedLength(s)]
    {}

    lemma DecodeUnfold(table: seq<byte>, s: seq<byte>)
      requires |table| == 256 && |s| % 4 == 0 && s != []
      ensures DecodeGroups(table, s) == Bytes(GroupValue(table, s)) + DecodeGroups(table, s[4..])
    {}

    // Writes as many of a group's bytes as there is room for.
    method PutThree(decoded: array<byte>, j0: nat, triple: nat, ghost all: seq<byte>, ghost at: nat,
        ghost after: seq<byte>)
      returns (j: nat)
      requires at <= |all| && all[at..] == Bytes(triple) + after
      requires j0 == if at < decoded.Length then at else decoded.Length
      requires decoded.Length <= |all| && decoded[..j0] == all[..j0]
      modifies decoded
      ensures j == if at + 3 < decoded.Length then at + 3 else decoded.Length
      ensures at + 3 <= |all| && all[at + 3..] == after && decoded[..j] == all[..j]
    {
      assert all[at..][0] == all[at] && all[at..][1] == all[at + 1] && all[at..][2] == all[at + 2];
      assert all[at..][3..] == all[at + 3..];
      j := j0;
      if j < decoded.Length { decoded[j] := triple / 65536 % 256; j := j + 1; }
      if j < decoded.Length { decoded[j] := triple / 256 % 256; j := j + 1; }
      if j < decoded.Length { decoded[j] := triple % 256; j := j + 1; }
    }

    lemma TableSize()
      requires Valid()
      ensures decodingTable.Length == 256
    {}

    // The four sextets of a group, '=' counting as zero.
    method GroupAt(data: seq<byte>, i: nat) returns (triple: nat)
      requires Valid() && decodingTable.Length == 256 && i + 4 <= |data|
      ensures triple == GroupValue(decodingTable[..], data[i..])
    {
      var a: nat := if data[i] == PAD then 0 else decodingTable[data[i]];
      var b: nat := if data[i + 1] == PAD then 0 else decodingTable[data[i + 1]];
      var c: nat := if data[i + 2] == PAD then 0 else decodingTable[data[i + 2]];
      var d: nat := if data[i + 3] == PAD then 0 else decodingTable[data[i + 3]];
      triple := a * 262144 + b * 4096 + c * 64 + d;
    }
  }

  lemma Regroup(done: seq<byte>, group: seq<byte>, rest: seq<byte>)
    ensures (done + group) + rest == done + (group + rest)
  {}
}
