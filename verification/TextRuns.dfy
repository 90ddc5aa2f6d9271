// Text compaction in plain characters and numbers: which latch, shift or byte
// escape the encoder chooses for a character, and what a run of characters
// costs.

module TextRuns {
  import opened Octets
  import opened TextMode

  // ----- The characters of each sub-mode -----

  predicate IsCapital(c: byte) {
    65 <= c <= 90
  }

  predicate IsSmall(c: byte) {
    97 <= c <= 122
  }

  predicate InMixed(c: byte) {
    exists j :: 0 <= j < 25 && MixedTable()[j] == c
  }

  predicate InPunctuation(c: byte) {
    exists j :: 0 <= j < 29 && PunctuationTable()[j] == c
  }

  lemma NoLettersInTables()
    ensures forall j :: 0 <= j < 25 ==>
              var c := MixedTable()[j]; !IsCapital(c) && !IsSmall(c) && c != 32 && c != 0
  {}

  lemma NoLettersInPunctuation()
    ensures forall j :: 0 <= j < 29 ==>
              var c := PunctuationTable()[j]; !IsCapital(c) && !IsSmall(c) && c != 32 && c != 0
  {}

  lemma PunctuationIsOnce(i: nat, j: nat)
    requires i < 29 && j < 29 && PunctuationTable()[i] == PunctuationTable()[j]
    ensures i == j
  {}

  // The Mixed characters that are not in Punctuation.
  predicate IsMixedOnly(c: byte) {
    48 <= c <= 57 || c == 38 || c == 35 || c == 43 || c == 37 || c == 61 || c == 94
  }

  lemma MixedOrSame(i: nat)
    requires i < 25
    ensures IsMixedOnly(MixedTable()[i]) || MixedTable()[i] == PunctuationTable()[i]
  {}

  lemma NoneMixedOnly(j: nat)
    requires j < 29
    ensures !IsMixedOnly(PunctuationTable()[j])
  {}

  // Characters of both tables have the same value in both.
  lemma SharedCharacters(i: nat, j: nat)
    requires i < 25 && j < 29
    ensures MixedTable()[i] == PunctuationTable()[j] ==> i == j
  {
    hide MixedTable, PunctuationTable;
    MixedOrSame(i);
    NoneMixedOnly(j);
    if MixedTable()[i] == PunctuationTable()[i] == PunctuationTable()[j] {
      PunctuationIsOnce(i, j);
    }
  }

  // The sub-modes a character belongs to, and its value there.
  lemma ClassIs(c: byte)
    requires c != 0
    ensures var x := ClassOf(c);
            && (x.alpha <==> IsCapital(c) || c == 32) && (x.lower <==> IsSmall(c) || c == 32)
            && (x.mixed <==> InMixed(c) || c == 32) && (x.punctuation <==> InPunctuation(c))
            && (x.isByte <==> !IsCapital(c) && !IsSmall(c) && c != 32 && !InMixed(c) && !InPunctuation(c))
    ensures var v := ClassOf(c).value;
            && (IsCapital(c) ==> v == c - 65) && (IsSmall(c) ==> v == c - 97) && (c == 32 ==> v == 26)
            && (InMixed(c) ==> v < 25 && MixedTable()[v] == c)
            && (InPunctuation(c) ==> v < 29 && PunctuationTable()[v] == c)
            && (ClassOf(c).isByte ==> v == c)
  {
    TablesAgree();
    NoLettersInTables();
    NoLettersInPunctuation();
    hide MixedSet, PunctuationSet, MixedTable, PunctuationTable;
    var ms, ps := Find(MixedSet(), c), Find(PunctuationSet(), c);
    if ms >= 0 && ps >= 0 { SharedCharacters(ms, ps); }
  }

  // No character stands twice in a table.
  lemma MixedIsOnce(i: nat, j: nat)
    requires i < 25 && j < 25 && MixedTable()[i] == MixedTable()[j]
    ensures i == j
  {
    assert i < 10 ==> MixedTable()[i] == 48 + i;
    assert j < 10 ==> MixedTable()[j] == 48 + j;
    assert i >= 10 ==> !(48 <= MixedTable()[i] <= 57);
    assert j >= 10 ==> !(48 <= MixedTable()[j] <= 57);
  }

  predicate CapitalOrBlank(c: byte) {
    IsCapital(c) || c == 32
  }

  predicate OnlyPunctuation(c: byte) {
    InPunctuation(c) && !InMixed(c)
  }

  // What the encoder looks ahead for: two characters of the sub-mode, which
  // NUL and the end of the segment never are.
  lemma LooksAhead(text: seq<byte>, k: nat)
    ensures BothNext(text, k, Alpha)
            <==> k + 2 < |text| && CapitalOrBlank(text[k + 1]) && CapitalOrBlank(text[k + 2])
    ensures BothNext(text, k, Punctuation)
            <==> k + 2 < |text| && InPunctuation(text[k + 1]) && InPunctuation(text[k + 2])
  {
    NulIsMixed();
    NoLettersInPunctuation();
    hide ClassOf, MixedTable, PunctuationTable;
    forall i | 0 <= i < |text| && text[i] != 0
      ensures ClassOf(text[i]).alpha <==> CapitalOrBlank(text[i])
      ensures ClassOf(text[i]).punctuation <==> InPunctuation(text[i])
    {
      ClassIs(text[i]);
    }
  }

  // ----- What is written for one character -----

  lemma CapitalInLower(text: seq<byte>, k: nat, odd: bool)
    requires k < |text| && IsCapital(text[k])
    ensures Entries(text, k, Lower, odd)
            == if k + 2 < |text| && CapitalOrBlank(text[k + 1]) && CapitalOrBlank(text[k + 2])
               then [28, 28, text[k] - 65] + Entries(text, k + 1, Alpha, !odd)
               else [27, text[k] - 65] + Entries(text, k + 1, Lower, odd)
  {
    hide ClassOf, Entries, BothNext;
    EntriesUnfold(text, k, Lower, odd);
    ClassIs(text[k]);
    LooksAhead(text, k);
  }

  lemma CapitalInMixed(text: seq<byte>, k: nat, odd: bool)
    requires k < |text| && IsCapital(text[k])
    ensures Entries(text, k, Mixed, odd) == [28, text[k] - 65] + Entries(text, k + 1, Alpha, odd)
  {
    NoLettersInTables();
    hide ClassOf, Entries, BothNext, MixedTable, PunctuationTable;
    EntriesUnfold(text, k, Mixed, odd);
    ClassIs(text[k]);
  }

  lemma SmallLetter(text: seq<byte>, k: nat, mode: SubMode, odd: bool)
    requires k < |text| && IsSmall(text[k]) && (mode == Alpha || mode == Mixed)
    ensures Entries(text, k, mode, odd) == [27, text[k] - 97] + Entries(text, k + 1, Lower, odd)
  {
    NoLettersInTables();
    hide ClassOf, Entries, BothNext, MixedTable, PunctuationTable;
    EntriesUnfold(text, k, mode, odd);
    ClassIs(text[k]);
  }

  // A digit or other Mixed character, v places into the standard's table.
  lemma MixedCharacter(text: seq<byte>, k: nat, v: nat, mode: SubMode, odd: bool)
    requires k < |text| && v < 25 && MixedTable()[v] == text[k] && (mode == Alpha || mode == Lower)
    ensures Entries(text, k, mode, odd) == [28, v] + Entries(text, k + 1, Mixed, odd)
  {
    NoLettersInTables();
    hide ClassOf, Entries, BothNext, MixedTable, PunctuationTable;
    EntriesUnfold(text, k, mode, odd);
    ClassIs(text[k]);
    MixedIsOnce(v, ClassOf(text[k]).value);
  }

  // A character of Punctuation alone: a latch for three in a row, else a shift.
  lemma PunctuationCharacter(text: seq<byte>, k: nat, v: nat, mode: SubMode, odd: bool)
    requires k < |text| && v < 29 && PunctuationTable()[v] == text[k] && !InMixed(text[k]) && mode != Punctuation
    ensures Entries(text, k, mode, odd)
            == if k + 2 < |text| && InPunctuation(text[k + 1]) && InPunctuation(text[k + 2])
               then if mode == Mixed then [25, v] + Entries(text, k + 1, Punctuation, odd)
                    else [28, 25, v] + Entries(text, k + 1, Punctuation, !odd)
               else [29, v] + Entries(text, k + 1, mode, odd)
  {
    NoLettersInPunctuation();
    hide ClassOf, Entries, BothNext, MixedTable, PunctuationTable;
    EntriesUnfold(text, k, mode, odd);
    ClassIs(text[k]);
    PunctuationIsOnce(v, ClassOf(text[k]).value);
    LooksAhead(text, k);
  }

  // Anything that stays expressible but not in Punctuation: back to Alpha,
  // and the character is looked at again.
  lemma LeavePunctuation(text: seq<byte>, k: nat, odd: bool)
    requires k < |text| && (CapitalOrBlank(text[k]) || IsSmall(text[k]) || InMixed(text[k])) && !InPunctuation(text[k])
    ensures Entries(text, k, Punctuation, odd) == [29] + Entries(text, k, Alpha, !odd)
  {
    NoLettersInTables();
    hide ClassOf, Entries, BothNext, MixedTable, PunctuationTable;
    EntriesUnfold(text, k, Punctuation, odd);
    ClassIs(text[k]);
  }

  // A character of no sub-mode: codeword 913 and the byte, brought to an even
  // place by a shift, or out of Punctuation by its latch.
  lemma ByteCharacter(text: seq<byte>, k: nat, mode: SubMode, odd: bool)
    requires k < |text| && !CapitalOrBlank(text[k]) && !IsSmall(text[k])
    requires text[k] != 0 && !InMixed(text[k]) && !InPunctuation(text[k])
    ensures Entries(text, k, mode, odd)
            == if odd then [29, 913, text[k]] + Entries(text, k + 1, if mode == Punctuation then Alpha else mode, false)
               else [913, text[k]] + Entries(text, k + 1, mode, false)
  {
    hide ClassOf, Entries, BothNext, MixedTable, PunctuationTable;
    EntriesUnfold(text, k, mode, odd);
    ClassIs(text[k]);
  }

  // ----- A character in a sub-mode of its own -----

  predicate Belongs(c: byte, mode: SubMode) {
    match mode
    case Alpha => CapitalOrBlank(c)
    case Lower => IsSmall(c) || c == 32
    case Mixed => InMixed(c) || c == 32
    case Punctuation => InPunctuation(c)
  }

  // Its value there, as the standard numbers the characters of a sub-mode.
  ghost predicate Denotes(v: int, c: byte, mode: SubMode) {
    match mode
    case Alpha => if c == 32 then v == 26 else v == c - 65
    case Lower => if c == 32 then v == 26 else v == c - 97
    case Mixed => if c == 32 then v == 26 else 0 <= v < 25 && MixedTable()[v] == c
    case Punctuation => 0 <= v < 29 && PunctuationTable()[v] == c
  }

  lemma InOwnMode(text: seq<byte>, k: nat, mode: SubMode, odd: bool) returns (v: int)
    requires k < |text| && Belongs(text[k], mode)
    ensures Denotes(v, text[k], mode) && Entries(text, k, mode, odd) == [v] + Entries(text, k + 1, mode, !odd)
  {
    NoLettersInTables();
    NoLettersInPunctuation();
    hide ClassOf, Entries, BothNext, MixedTable, PunctuationTable;
    EntriesUnfold(text, k, mode, odd);
    ClassIs(text[k]);
    v := ClassOf(text[k]).value;
  }

  ghost predicate RunIn(text: seq<byte>, k: nat, n: nat, mode: SubMode) {
    k + n <= |text| && forall i :: k <= i < k + n ==> Belongs(text[i], mode)
  }

  // A run in its own sub-mode takes one entry a character.
  lemma {:induction false} SameRun(text: seq<byte>, k: nat, n: nat, mode: SubMode, odd: bool)
    requires RunIn(text, k, n, mode)
    ensures |Entries(text, k, mode, odd)| == n + |Entries(text, k + n, mode, odd != (n % 2 == 1))|
    decreases n
  {
    hide Entries, Belongs, Denotes;
    if n > 0 {
      var v := InOwnMode(text, k, mode, odd);
      SameRun(text, k + 1, n - 1, mode, !odd);
    }
  }

  // ----- What a run costs from another sub-mode -----

  function Min(a: nat, b: nat): nat {
    if a < b then a else b
  }

  // A run of n capitals met in Lower takes 2n entries with shifts or n + 2
  // with a latch, whichever is less.
  lemma CapitalRun(text: seq<byte>, k: nat, n: nat, odd: bool)
    requires 0 < n && k + n <= |text| && forall i :: k <= i < k + n ==> IsCapital(text[i])
    requires k + n < |text| ==> !CapitalOrBlank(text[k + n])
    ensures |Entries(text, k, Lower, odd)|
            == Min(2 * n, n + 2)
               + |Entries(text, k + n, if n < 3 then Lower else Alpha, if n < 3 then odd else odd != (n % 2 == 1))|
  {
    hide Entries;
    CapitalInLower(text, k, odd);
    if n == 2 {
      CapitalInLower(text, k + 1, odd);
    } else if n >= 3 {
      SameRun(text, k + 1, n - 1, Alpha, !odd);
    }
  }

  // A run of n characters of Punctuation alone likewise, except that Mixed is
  // one latch away and the latch still waits for three.
  lemma PunctuationRun(text: seq<byte>, k: nat, n: nat, mode: SubMode, odd: bool)
    requires 0 < n && k + n <= |text| && forall i :: k <= i < k + n ==> OnlyPunctuation(text[i])
    requires mode != Punctuation && (k + n < |text| ==> !InPunctuation(text[k + n]))
    ensures var latches := if mode == Mixed then 1 else 2;
            |Entries(text, k, mode, odd)|
            == if n < 3 then 2 * n + |Entries(text, k + n, mode, odd)|
               else n + latches + |Entries(text, k + n, Punctuation, odd != ((n + latches) % 2 == 1))|
  {
    hide Entries, MixedTable, PunctuationTable;
    assert OnlyPunctuation(text[k]);
    var v: nat :| v < 29 && PunctuationTable()[v] == text[k];
    PunctuationCharacter(text, k, v, mode, odd);
    if n == 2 {
      assert OnlyPunctuation(text[k + 1]);
      var w: nat :| w < 29 && PunctuationTable()[w] == text[k + 1];
      PunctuationCharacter(text, k + 1, w, mode, odd);
    } else if n >= 3 {
      assert OnlyPunctuation(text[k + 1]) && OnlyPunctuation(text[k + 2]);
      SameRun(text, k + 1, n - 1, Punctuation, if mode == Mixed then odd else !odd);
    }
  }
}
