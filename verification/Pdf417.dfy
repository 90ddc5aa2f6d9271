// Constants of the PDF417 encoder and the state its functions share.

module Pdf417 {

  import opened Octets

  // Latch codewords and limits.
  const TEXT_MODE := 900
  const BYTE_MODE := 901
  const NUMERIC_MODE := 902
  const BYTESHIFT := 913
  const BYTE_MODE_6 := 924
  const ABSOLUTE_MAX_TEXT_SIZE := 5420
  const MAX_DATA_CODEWORDS := 926
  const CODEWORDS_LENGTH := 928

  predicate IsDigit(c: byte) {
    '0' as int <= c <= '9' as int
  }

  predicate IsDigits(text: seq<byte>) {
    forall i :: 0 <= i < |text| ==> IsDigit(text[i])
  }

  datatype Error = Success | TextTooBig | InvalidParams

  // The fields of pdf417class and pdf417param that the compaction functions
  // read and write. The codewords array has room for 928 entries.
  class Encoder {
    const text: seq<byte>
    const codewords: array<int>
    var cwPtr: nat
    var error: Error

    ghost predicate Valid()
      reads this
    {
      codewords.Length == 928 && cwPtr <= codewords.Length
    }

    // The codewords written so far.
    ghost function Written(): seq<int>
      requires Valid()
      reads this, codewords
    {
      codewords[..cwPtr]
    }

    constructor (text: seq<byte>)
      ensures Valid() && this.text == text && error == Success
      ensures fresh(codewords)
    {
      this.text := text;
      codewords := new int[CODEWORDS_LENGTH];
      cwPtr := 0;
      error := Success;
    }
  }

  // The outcome of a compaction: its codewords are appended to the message, or
  // they do not fit and nothing but the error changes.
  twostate predicate Appended(p: Encoder, cws: seq<int>)
    requires old(p.Valid())
    reads p, p.codewords
  {
    && p.Valid()
    && (if old(p.cwPtr) + |cws| > 926 then
          p.error == TextTooBig && p.cwPtr == old(p.cwPtr) && p.codewords[..] == old(p.codewords[..])
        else
          p.error == old(p.error) && p.cwPtr == old(p.cwPtr) + |cws|
          && p.Written() == old(p.Written()) + cws
          && p.codewords[p.cwPtr..] == old(p.codewords[p.cwPtr + |cws|..]))
  }
}
