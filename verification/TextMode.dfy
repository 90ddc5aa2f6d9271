// Text compaction: how the encoder turns a text segment into sub-mode
// entries and packs them two to a codeword, and the reading of such codewords
// given by section 5.4.2 of ISO/IEC 15438:2006.

module TextMode {
  import opened Octets
  import opened Pdf417
  import opened Transducer

  datatype SubMode = Alpha | Lower | Mixed | Punctuation

  // Entries with a special meaning, by the sub-mode they are read in.
  const PL := 25    // Mixed: latch to Punctuation
  const SPACE := 26
  const LL := 27    // Alpha, Mixed: latch to Lower
  const AS := 27    // Lower: shift to Alpha
  const ML := 28    // Alpha, Lower: latch to Mixed
  const AL := 28    // Mixed: latch to Alpha
  const PS := 29    // Alpha, Lower, Mixed: shift to Punctuation
  const PAL := 29   // Punctuation: latch to Alpha

  function MixedSet(): (s: string)
    ensures |s| == 25
  {
    "0123456789&\r\t,:#-.$/+%*=^"
  }

  function PunctuationSet(): (s: string)
    ensures |s| == 29
  {
    ";<>@[\\]_`~!\r\t,:\n-.$/\"|*()?{}'"
  }

  // The characters of the two tables are 7-bit and never NUL.
  lemma SetsAreAscii()
    ensures forall j :: 0 <= j < 25 ==> 0 < MixedSet()[j] as int < 128
    ensures forall j :: 0 <= j < 29 ==> 0 < PunctuationSet()[j] as int < 128
  {}

  // The sub-modes that can express a character, whether it needs a byte shift
  // instead, and its value.
  datatype CharClass = CharClass(alpha: bool, lower: bool, mixed: bool, punctuation: bool, isByte: bool, value: nat) {
    predicate In(m: SubMode) {
      match m
      case Alpha => alpha
      case Lower => lower
      case Mixed => mixed
      case Punctuation => punctuation
    }
  }

  const NO_CHAR := CharClass(false, false, false, false, false, 0)

  function Find(s: string, c: byte): (i: int)
    ensures -1 <= i < |s|
    ensures i >= 0 ==> s[i] as int == c
    ensures forall j :: 0 <= j < (if i == -1 then |s| else i) ==> s[j] as int != c
  {
    if s == [] then -1
    else if s[0] as int == c then 0
    else var i := Find(s[1..], c); if i == -1 then -1 else i + 1
  }

  // The offset strchr finds: the terminator counts as part of the string.
  function Strchr(s: string, c: byte): (i: int)
  {
    var i := Find(s, c);
    if i == -1 && c == 0 then |s| else i
  }

  function ClassOf(c: byte): CharClass {
    if 'A' as int <= c <= 'Z' as int then CharClass(true, false, false, false, false, c - 'A' as int)
    else if 'a' as int <= c <= 'z' as int then CharClass(false, true, false, false, false, c - 'a' as int)
    else if c == ' ' as int then CharClass(true, true, true, false, false, SPACE)
    else
      var ms := Strchr(MixedSet(), c);
      var ps := Strchr(PunctuationSet(), c);
      if ms == -1 && ps == -1 then CharClass(false, false, false, false, true, c)
      else if ms == ps then CharClass(false, false, true, true, false, ms)
      else if ms != -1 then CharClass(false, false, true, false, false, ms)
      else CharClass(false, false, false, true, false, ps)
  }

  function Classify(text: seq<byte>, idx: nat): CharClass {
    if idx >= |text| then NO_CHAR else ClassOf(text[idx])
  }

  // Do the next two characters both belong to sub-mode m?
  predicate BothNext(text: seq<byte>, k: nat, m: SubMode) {
    Classify(text, k + 1).In(m) && Classify(text, k + 2).In(m)
  }

  // What one round of the encoder's loop does at position k: the entries it
  // emits, the sub-mode it moves to, and whether the character is finished.
  datatype Round = Round(entries: seq<int>, mode: SubMode, advance: bool)

  function Encode1(text: seq<byte>, k: nat, mode: SubMode, odd: bool): Round
    requires k < |text|
  {
    Choose(ClassOf(text[k]), mode, odd, BothNext(text, k, Punctuation), BothNext(text, k, Alpha))
  }

  function Choose(c: CharClass, mode: SubMode, odd: bool, punctuationAhead: bool, alphaAhead: bool): Round {
    if c.In(mode) then
      Round([c.value], mode, true)
    else if c.isByte then
      if odd then
        Round([if mode == Punctuation then PAL else PS, BYTESHIFT, c.value],
              if mode == Punctuation then Alpha else mode, true)
      else
        Round([BYTESHIFT, c.value], mode, true)
    else match mode
      case Alpha =>
        if c.lower then Round([LL, c.value], Lower, true)
        else if c.mixed then Round([ML, c.value], Mixed, true)
        else if punctuationAhead then Round([ML, PL, c.value], Punctuation, true)
        else Round([PS, c.value], Alpha, true)
      case Lower =>
        if c.alpha then
          if alphaAhead then Round([ML, AL, c.value], Alpha, true)
          else Round([AS, c.value], Lower, true)
        else if c.mixed then Round([ML, c.value], Mixed, true)
        else if punctuationAhead then Round([ML, PL, c.value], Punctuation, true)
        else Round([PS, c.value], Lower, true)
      case Mixed =>
        if c.lower then Round([LL, c.value], Lower, true)
        else if c.alpha then Round([AL, c.value], Alpha, true)
        else if punctuationAhead then Round([PL, c.value], Punctuation, true)
        else Round([PS, c.value], Mixed, true)
      case Punctuation =>
        Round([PAL], Alpha, false)
  }

  lemma Encode1Progress(text: seq<byte>, k: nat, mode: SubMode, odd: bool)
    requires k < |text|
    ensures var r := Encode1(text, k, mode, odd);
            1 <= |r.entries| <= 3 && (r.advance || (mode == Punctuation && r.mode == Alpha))
  {}

  predicate Flip(odd: bool, n: nat) {
    odd != (n % 2 == 1)
  }

  // All entries emitted from position k on.
  function Entries(text: seq<byte>, k: nat, mode: SubMode, odd: bool): seq<int>
    decreases |text| - k, if mode == Punctuation then 1 else 0
  {
    if k >= |text| then []
    else
      var r := Encode1(text, k, mode, odd);
      r.entries + Entries(text, if r.advance then k + 1 else k, r.mode, Flip(odd, |r.entries|))
  }

  lemma EntriesUnfold(text: seq<byte>, k: nat, mode: SubMode, odd: bool)
    ensures k >= |text| ==> Entries(text, k, mode, odd) == []
    ensures k < |text| ==>
      var r := Encode1(text, k, mode, odd);
      Entries(text, k, mode, odd)
      == r.entries + Entries(text, if r.advance then k + 1 else k, r.mode, Flip(odd, |r.entries|))
  {
    hide Encode1;
  }

  // The entries of a whole segment, padded to an even number.
  function Padded(text: seq<byte>): seq<int> {
    var es := Entries(text, 0, Alpha, false);
    if |es| % 2 == 1 then es + [PS] else es
  }

  function Pack(es: seq<int>): seq<int> {
    if |es| < 2 then []
    else if es[0] >= 30 then es[..2] + Pack(es[2..])
    else [es[0] * 30 + es[1]] + Pack(es[2..])
  }

  function TextCodewords(text: seq<byte>): seq<int> {
    Pack(Padded(text))
  }

  // ----- The reader of section 5.4.2 -----

  // A one-character shift in force, or the byte that must follow codeword 913.
  datatype Pending = None | ShiftAlpha | ShiftPunctuation | NextByte

  datatype TextState = TextState(sub: SubMode, pending: Pending)

  const START_OF_TEXT := TextState(Alpha, None)

  // The characters of the Mixed and Punctuation sub-modes by value, as the
  // standard tabulates them.
  function MixedTable(): (t: seq<byte>)
    ensures |t| == 25
  {
    [48, 49, 50, 51, 52, 53, 54, 55, 56, 57, 38, 13, 9, 44, 58, 35, 45, 46, 36, 47, 43, 37, 42, 61, 94]
  }

  function PunctuationTable(): (t: seq<byte>)
    ensures |t| == 29
  {
    [59, 60, 62, 64, 91, 92, 93, 95, 96, 126, 33, 13, 9, 44, 58, 10, 45, 46, 36, 47,
     34, 124, 42, 40, 41, 63, 123, 125, 39]
  }

  // The encoder's two strings hold the same characters at the same places.
  lemma MixedAgrees()
    ensures forall j :: 0 <= j < 25 ==> MixedSet()[j] as int == MixedTable()[j]
  {}

  lemma PunctuationAgrees()
    ensures forall j :: 0 <= j < 29 ==> PunctuationSet()[j] as int == PunctuationTable()[j]
  {}

  lemma TablesAgree()
    ensures forall j :: 0 <= j < 25 ==> MixedSet()[j] as int == MixedTable()[j]
    ensures forall j :: 0 <= j < 29 ==> PunctuationSet()[j] as int == PunctuationTable()[j]
  {
    MixedAgrees();
    PunctuationAgrees();
  }

  // The character or sub-mode change that value v stands for.
  function ReadPlain(sub: SubMode, v: int): Reading<TextState, byte> {
    match sub
    case Alpha =>
      if 0 <= v < 26 then Reading(TextState(Alpha, None), ['A' as int + v])
      else if v == 26 then Reading(TextState(Alpha, None), [' ' as int])
      else if v == 27 then Reading(TextState(Lower, None), [])
      else if v == 28 then Reading(TextState(Mixed, None), [])
      else Reading(TextState(Alpha, ShiftPunctuation), [])
    case Lower =>
      if 0 <= v < 26 then Reading(TextState(Lower, None), ['a' as int + v])
      else if v == 26 then Reading(TextState(Lower, None), [' ' as int])
      else if v == 27 then Reading(TextState(Lower, ShiftAlpha), [])
      else if v == 28 then Reading(TextState(Mixed, None), [])
      else Reading(TextState(Lower, ShiftPunctuation), [])
    case Mixed =>
      if 0 <= v < 25 then Reading(TextState(Mixed, None), [MixedTable()[v]])
      else if v == 25 then Reading(TextState(Punctuation, None), [])
      else if v == 26 then Reading(TextState(Mixed, None), [' ' as int])
      else if v == 27 then Reading(TextState(Lower, None), [])
      else if v == 28 then Reading(TextState(Alpha, None), [])
      else Reading(TextState(Mixed, ShiftPunctuation), [])
    case Punctuation =>
      if 0 <= v < 29 then Reading(TextState(Punctuation, None), [PunctuationTable()[v]])
      else Reading(TextState(Alpha, None), [])
  }

  // A shift lasts for one value, whatever it is.
  function ReadValue(st: TextState, v: int): Reading<TextState, byte> {
    match st.pending
    case ShiftAlpha => Reading(TextState(st.sub, None), ReadPlain(Alpha, v).out)
    case ShiftPunctuation => Reading(TextState(st.sub, None), ReadPlain(Punctuation, v).out)
    case _ => ReadPlain(st.sub, v)
  }

  // A codeword is two values, the byte shift, or the byte after the shift.
  // The byte shift cancels a one-character shift in force.
  function ReadCodeword(st: TextState, c: int): Reading<TextState, byte> {
    if st.pending == NextByte then
      Reading(TextState(st.sub, None), if 0 <= c < 256 then [c] else [])
    else if c == 913 then
      Reading(TextState(st.sub, NextByte), [])
    else
      var first := ReadValue(st, c / 30);
      var second := ReadValue(first.state, c % 30);
      Reading(second.state, first.out + second.out)
  }

  function ReadText(cws: seq<int>): seq<byte> {
    Run(ReadCodeword, START_OF_TEXT, cws).out
  }

  // ----- Reading back what was written -----

  // The reader taken one entry at a time; `odd` is the entry's parity.
  datatype EntryState = EntryState(odd: bool, text: TextState)

  function ReadEntry(s: EntryState, e: int): Reading<EntryState, byte> {
    if s.text.pending == NextByte then
      Reading(EntryState(!s.odd, TextState(s.text.sub, None)), if 0 <= e < 256 then [e] else [])
    else if !s.odd && e == BYTESHIFT then
      Reading(EntryState(!s.odd, TextState(s.text.sub, NextByte)), [])
    else
      var r := ReadValue(s.text, e);
      Reading(EntryState(!s.odd, r.state), r.out)
  }

  lemma RunTwo<S, O>(step: (S, int) -> Reading<S, O>, s: S, x: int, y: int)
    ensures var r1 := step(s, x);
            var r2 := step(r1.state, y);
            Run(step, s, [x, y]) == Reading(r2.state, r1.out + r2.out)
  {
    RunCons(step, s, x, [y]);
    RunOne(step, step(s, x).state, y);
    assert [x] + [y] == [x, y];
  }

  lemma RunThree<S, O>(step: (S, int) -> Reading<S, O>, s: S, x: int, y: int, z: int)
    ensures var r1 := step(s, x);
            var r2 := step(r1.state, y);
            var r3 := step(r2.state, z);
            Run(step, s, [x, y, z]) == Reading(r3.state, r1.out + (r2.out + r3.out))
  {
    RunCons(step, s, x, [y, z]);
    RunTwo(step, step(s, x).state, y, z);
    assert [x] + [y, z] == [x, y, z];
  }

  // A character read in one of its own sub-modes comes back as itself.
  lemma ClassReadsBack(c: byte, mode: SubMode)
    requires c != 0
    ensures ClassOf(c).In(mode) ==> ReadPlain(mode, ClassOf(c).value) == Reading(TextState(mode, None), [c])
  {
    TablesAgree();
    hide MixedSet, PunctuationSet, MixedTable, PunctuationTable;
  }

  lemma ClassIsOneKind(c: byte)
    requires c != 0
    ensures var x := ClassOf(c);
            if x.isByte then x.value == c && forall m: SubMode :: !x.In(m)
            else x.value < 29 && (x.alpha || x.lower || x.mixed || x.punctuation)
  {
    hide MixedSet, PunctuationSet;
  }

  // The terminator found by strchr makes NUL look like value 25 of Mixed.
  lemma NulIsMixed()
    ensures ClassOf(0) == CharClass(false, false, true, false, false, 25)
  {
    hide MixedSet, PunctuationSet;
    SetsAreAscii();
  }

  ghost predicate ReadsBack(x: CharClass, c: byte) {
    && (forall m: SubMode :: x.In(m) ==> ReadPlain(m, x.value) == Reading(TextState(m, None), [c]))
    && (if x.isByte then x.value == c else x.value < 29 && (x.alpha || x.lower || x.mixed || x.punctuation))
  }

  lemma ClassReadsBackInAll(c: byte)
    requires c != 0
    ensures ReadsBack(ClassOf(c), c)
  {
    hide ClassOf, ReadPlain;
    ClassIsOneKind(c);
    forall m: SubMode | ClassOf(c).In(m)
      ensures ReadPlain(m, ClassOf(c).value) == Reading(TextState(m, None), [c])
    {
      ClassReadsBack(c, m);
    }
  }

  lemma Switches()
    ensures ReadPlain(Alpha, LL).state == TextState(Lower, None) && ReadPlain(Alpha, LL).out == []
    ensures ReadPlain(Alpha, ML).state == TextState(Mixed, None) && ReadPlain(Alpha, ML).out == []
    ensures ReadPlain(Alpha, PS).state == TextState(Alpha, ShiftPunctuation) && ReadPlain(Alpha, PS).out == []
    ensures ReadPlain(Lower, ML).state == TextState(Mixed, None) && ReadPlain(Lower, ML).out == []
    ensures ReadPlain(Lower, AS).state == TextState(Lower, ShiftAlpha) && ReadPlain(Lower, AS).out == []
    ensures ReadPlain(Lower, PS).state == TextState(Lower, ShiftPunctuation) && ReadPlain(Lower, PS).out == []
    ensures ReadPlain(Mixed, PL).state == TextState(Punctuation, None) && ReadPlain(Mixed, PL).out == []
    ensures ReadPlain(Mixed, LL).state == TextState(Lower, None) && ReadPlain(Mixed, LL).out == []
    ensures ReadPlain(Mixed, AL).state == TextState(Alpha, None) && ReadPlain(Mixed, AL).out == []
    ensures ReadPlain(Mixed, PS).state == TextState(Mixed, ShiftPunctuation) && ReadPlain(Mixed, PS).out == []
    ensures ReadPlain(Punctuation, PAL).state == TextState(Alpha, None) && ReadPlain(Punctuation, PAL).out == []
  {}

  lemma ReadPlainEntry(odd: bool, st: TextState, e: int)
    requires st.pending != NextByte && e < 30
    ensures ReadEntry(EntryState(odd, st), e)
            == Reading(EntryState(!odd, ReadValue(st, e).state), ReadValue(st, e).out)
  {
    hide ReadValue;
  }

  // A character in a sub-mode it belongs to; after a switch to one; after a
  // shift to one.
  lemma DirectReadsBack(x: CharClass, c: byte, mode: SubMode, odd: bool)
    requires ReadsBack(x, c) && x.In(mode) && !x.isByte
    ensures Run(ReadEntry, EntryState(odd, TextState(mode, None)), [x.value])
            == Reading(EntryState(!odd, TextState(mode, None)), [c])
  {
    hide ReadPlain, ReadEntry, Run;
    RunOne(ReadEntry, EntryState(odd, TextState(mode, None)), x.value);
    ReadPlainEntry(odd, TextState(mode, None), x.value);
  }

  lemma LatchReadsBack(x: CharClass, c: byte, from: SubMode, latch: int, mode: SubMode, odd: bool)
    requires ReadsBack(x, c) && x.In(mode) && !x.isByte && latch < 30
    requires ReadPlain(from, latch) == Reading(TextState(mode, None), [])
    ensures Run(ReadEntry, EntryState(odd, TextState(from, None)), [latch, x.value])
            == Reading(EntryState(odd, TextState(mode, None)), [c])
  {
    hide ReadPlain, ReadEntry, Run;
    ReadPlainEntry(odd, TextState(from, None), latch);
    ReadPlainEntry(!odd, TextState(mode, None), x.value);
    RunTwo(ReadEntry, EntryState(odd, TextState(from, None)), latch, x.value);
    assert [] + [c] == [c];
  }

  lemma ShiftReadsBack(x: CharClass, c: byte, from: SubMode, shift: int, pending: Pending, odd: bool)
    requires ReadsBack(x, c) && !x.isByte && shift < 30
    requires ReadPlain(from, shift) == Reading(TextState(from, pending), [])
    requires (pending == ShiftAlpha && x.alpha) || (pending == ShiftPunctuation && x.punctuation)
    ensures Run(ReadEntry, EntryState(odd, TextState(from, None)), [shift, x.value])
            == Reading(EntryState(odd, TextState(from, None)), [c])
  {
    hide ReadPlain, ReadEntry, Run;
    assert x.In(if pending == ShiftAlpha then Alpha else Punctuation);
    ReadPlainEntry(odd, TextState(from, None), shift);
    ReadPlainEntry(!odd, TextState(from, pending), x.value);
    RunTwo(ReadEntry, EntryState(odd, TextState(from, None)), shift, x.value);
    assert [] + [c] == [c];
  }

  lemma TwoLatchesReadBack(x: CharClass, c: byte, from: SubMode, l1: int, via: SubMode, l2: int, mode: SubMode,
      odd: bool)
    requires ReadsBack(x, c) && x.In(mode) && !x.isByte && l1 < 30 && l2 < 30
    requires ReadPlain(from, l1) == Reading(TextState(via, None), [])
    requires ReadPlain(via, l2) == Reading(TextState(mode, None), [])
    ensures Run(ReadEntry, EntryState(odd, TextState(from, None)), [l1, l2, x.value])
            == Reading(EntryState(!odd, TextState(mode, None)), [c])
  {
    hide ReadPlain, ReadEntry, Run;
    var s := EntryState(odd, TextState(from, None));
    ReadPlainEntry(odd, TextState(from, None), l1);
    RunCons(ReadEntry, s, l1, [l2, x.value]);
    LatchReadsBack(x, c, via, l2, mode, !odd);
    assert [l1] + [l2, x.value] == [l1, l2, x.value];
    assert [] + [c] == [c];
  }

  lemma ByteReadsBack(x: CharClass, c: byte, mode: SubMode, odd: bool)
    requires ReadsBack(x, c) && x.isByte
    ensures Run(ReadEntry, EntryState(false, TextState(mode, None)), [BYTESHIFT, x.value])
            == Reading(EntryState(false, TextState(mode, None)), [c])
    ensures Run(ReadEntry, EntryState(true, TextState(mode, None)),
            [if mode == Punctuation then PAL else PS, BYTESHIFT, x.value])
            == Reading(EntryState(false, TextState(if mode == Punctuation then Alpha else mode, None)), [c])
  {
    hide Run;
    Switches();
    hide ReadPlain;
    RunTwo(ReadEntry, EntryState(false, TextState(mode, None)), BYTESHIFT, x.value);
    RunThree(ReadEntry, EntryState(true, TextState(mode, None)),
             if mode == Punctuation then PAL else PS, BYTESHIFT, x.value);
  }

  lemma ChooseReadsBack(x: CharClass, c: byte, mode: SubMode, odd: bool, pa: bool, aa: bool)
    requires ReadsBack(x, c) && (x.isByte ==> forall m: SubMode :: !x.In(m))
    ensures var r := Choose(x, mode, odd, pa, aa);
            Run(ReadEntry, EntryState(odd, TextState(mode, None)), r.entries)
            == Reading(EntryState(Flip(odd, |r.entries|), TextState(r.mode, None)), if r.advance then [c] else [])
  {
    hide ReadPlain, ReadEntry, Run;
    Switches();
    assert !x.isByte ==> x.alpha || x.lower || x.mixed || x.punctuation;
    hide ReadsBack;
    if x.In(mode) {
      DirectReadsBack(x, c, mode, odd);
    } else if x.isByte {
      ByteReadsBack(x, c, mode, odd);
    } else {
      match mode
      case Alpha =>
        if x.lower { LatchReadsBack(x, c, mode, LL, Lower, odd); }
        else if x.mixed { LatchReadsBack(x, c, mode, ML, Mixed, odd); }
        else if pa { TwoLatchesReadBack(x, c, mode, ML, Mixed, PL, Punctuation, odd); }
        else { ShiftReadsBack(x, c, mode, PS, ShiftPunctuation, odd); }
      case Lower =>
        if x.alpha && aa { TwoLatchesReadBack(x, c, mode, ML, Mixed, AL, Alpha, odd); }
        else if x.alpha { ShiftReadsBack(x, c, mode, AS, ShiftAlpha, odd); }
        else if x.mixed { LatchReadsBack(x, c, mode, ML, Mixed, odd); }
        else if pa { TwoLatchesReadBack(x, c, mode, ML, Mixed, PL, Punctuation, odd); }
        else { ShiftReadsBack(x, c, mode, PS, ShiftPunctuation, odd); }
      case Mixed =>
        if x.lower { LatchReadsBack(x, c, mode, LL, Lower, odd); }
        else if x.alpha { LatchReadsBack(x, c, mode, AL, Alpha, odd); }
        else if pa { LatchReadsBack(x, c, mode, PL, Punctuation, odd); }
        else { ShiftReadsBack(x, c, mode, PS, ShiftPunctuation, odd); }
      case Punctuation =>
        RunOne(ReadEntry, EntryState(odd, TextState(mode, None)), PAL);
        ReadPlainEntry(odd, TextState(mode, None), PAL);
    }
  }

  // One round of the encoder, read back, moves the reader to the encoder's
  // sub-mode and yields exactly the character consumed.
  lemma Encode1ReadsBack(text: seq<byte>, k: nat, mode: SubMode, odd: bool)
    requires k < |text| && text[k] != 0
    ensures var r := Encode1(text, k, mode, odd);
            Run(ReadEntry, EntryState(odd, TextState(mode, None)), r.entries)
            == Reading(EntryState(Flip(odd, |r.entries|), TextState(r.mode, None)), if r.advance then [text[k]] else [])
  {
    hide ClassOf, Choose, ReadEntry, Run, ReadsBack;
    ClassReadsBackInAll(text[k]);
    ClassIsLegal(text[k]);
    ChooseReadsBack(ClassOf(text[k]), text[k], mode, odd, BothNext(text, k, Punctuation), BothNext(text, k, Alpha));
  }

  lemma {:induction false} EntriesReadBack(text: seq<byte>, k: nat, mode: SubMode, odd: bool)
    requires k <= |text| && 0 !in text
    ensures Run(ReadEntry, EntryState(odd, TextState(mode, None)), Entries(text, k, mode, odd)).out == text[k..]
    ensures Run(ReadEntry, EntryState(odd, TextState(mode, None)),
                Entries(text, k, mode, odd)).state.text.pending == None
    decreases |text| - k, if mode == Punctuation then 1 else 0
  {
    hide Encode1, ReadEntry, Run, Entries;
    if k == |text| {
      EntriesUnfold(text, k, mode, odd);
      RunEmpty(ReadEntry, EntryState(odd, TextState(mode, None)));
    } else {
      var r := Encode1(text, k, mode, odd);
      var k' := if r.advance then k + 1 else k;
      var odd' := Flip(odd, |r.entries|);
      var rest := Entries(text, k', r.mode, odd');
      assert text[k] in text;
      EntriesUnfold(text, k, mode, odd);
      Encode1Progress(text, k, mode, odd);
      Encode1ReadsBack(text, k, mode, odd);
      EntriesReadBack(text, k', r.mode, odd');
      RunAppend(ReadEntry, EntryState(odd, TextState(mode, None)), r.entries, rest);
    }
  }

  // ----- The shape of the entries -----

  // Entries are below 30, except that the byte shift, at an even place, is
  // followed by a byte, which is never NUL.
  ghost predicate Legal(odd: bool, nextByte: bool, es: seq<int>)
    decreases |es|
  {
    if es == [] then !nextByte
    else if nextByte then 0 < es[0] < 256 && Legal(!odd, false, es[1..])
    else if es[0] == BYTESHIFT then !odd && Legal(!odd, true, es[1..])
    else 0 <= es[0] < 30 && Legal(!odd, false, es[1..])
  }

  lemma {:induction false} LegalAppend(odd: bool, nextByte: bool, a: seq<int>, b: seq<int>)
    requires Legal(odd, nextByte, a) && Legal(Flip(odd, |a|), false, b)
    ensures Legal(odd, nextByte, a + b)
    decreases |a|
  {
    if a == [] {
      assert a + b == b;
    } else {
      assert (a + b)[1..] == a[1..] + b;
      LegalAppend(!odd, !nextByte && a[0] == BYTESHIFT, a[1..], b);
    }
  }

  lemma ChooseIsLegal(x: CharClass, mode: SubMode, odd: bool, pa: bool, aa: bool)
    requires if x.isByte then 0 < x.value < 256 && forall m: SubMode :: !x.In(m) else x.value < 30
    ensures Legal(odd, false, Choose(x, mode, odd, pa, aa).entries)
  {
    var es := Choose(x, mode, odd, pa, aa).entries;
    if |es| == 3 {
      assert es == [es[0]] + ([es[1]] + [es[2]]);
      if es[1] == BYTESHIFT {
        assert Legal(true, true, [es[2]]);
        assert Legal(false, false, [es[1]] + [es[2]]);
      } else {
        assert Legal(odd, false, [es[2]]);
        assert Legal(!odd, false, [es[1]] + [es[2]]);
      }
    } else if |es| == 2 {
      assert es == [es[0]] + [es[1]];
    }
  }

  lemma ClassIsLegal(c: byte)
    ensures var x := ClassOf(c);
            if x.isByte then 0 < x.value < 256 && forall m: SubMode :: !x.In(m) else x.value < 30
  {
    hide ClassOf;
    if c == 0 { NulIsMixed(); } else { ClassIsOneKind(c); }
  }

  lemma {:induction false} EntriesAreLegal(text: seq<byte>, k: nat, mode: SubMode, odd: bool)
    requires k <= |text|
    ensures Legal(odd, false, Entries(text, k, mode, odd))
    decreases |text| - k, if mode == Punctuation then 1 else 0
  {
    hide Choose, ClassOf, Entries;
    EntriesUnfold(text, k, mode, odd);
    if k < |text| {
      var r := Encode1(text, k, mode, odd);
      var k' := if r.advance then k + 1 else k;
      Encode1Progress(text, k, mode, odd);
      ClassIsLegal(text[k]);
      ChooseIsLegal(ClassOf(text[k]), mode, odd, BothNext(text, k, Punctuation), BothNext(text, k, Alpha));
      EntriesAreLegal(text, k', r.mode, Flip(odd, |r.entries|));
      LegalAppend(odd, false, r.entries, Entries(text, k', r.mode, Flip(odd, |r.entries|)));
    }
  }

  lemma PaddedIsLegal(text: seq<byte>)
    ensures |Padded(text)| % 2 == 0 && Legal(false, false, Padded(text))
    ensures var es := Entries(text, 0, Alpha, false); Padded(text) == es || Padded(text) == es + [29]
  {
    hide Entries;
    EntriesAreLegal(text, 0, Alpha, false);
    var es := Entries(text, 0, Alpha, false);
    if |es| % 2 == 1 {
      LegalAppend(false, false, es, [PS]);
    }
  }

  // ----- Packing two entries to a codeword loses nothing -----

  lemma {:induction false} PackReads(st: TextState, es: seq<int>)
    requires |es| % 2 == 0 && st.pending != NextByte && Legal(false, false, es)
    ensures Run(ReadCodeword, st, Pack(es)).out == Run(ReadEntry, EntryState(false, st), es).out
    decreases |es|
  {
    hide ReadValue, Run;
    if es == [] {
      RunEmpty(ReadCodeword, st);
      RunEmpty(ReadEntry, EntryState(false, st));
    } else {
      assert es == [es[0], es[1]] + es[2..];
      assert es[1..][0] == es[1] && es[1..][1..] == es[2..];
      RunTwo(ReadEntry, EntryState(false, st), es[0], es[1]);
      RunAppend(ReadEntry, EntryState(false, st), [es[0], es[1]], es[2..]);
      if es[0] == BYTESHIFT {
        assert es[..2] == [es[0], es[1]];
        RunTwo(ReadCodeword, st, es[0], es[1]);
        RunAppend(ReadCodeword, st, [es[0], es[1]], Pack(es[2..]));
        PackReads(TextState(st.sub, None), es[2..]);
      } else {
        var c := es[0] * 30 + es[1];
        assert c / 30 == es[0] && c % 30 == es[1];
        ValueLeavesNoByte(st, es[0]);
        var st1 := ReadValue(st, es[0]).state;
        ValueLeavesNoByte(st1, es[1]);
        RunCons(ReadCodeword, st, c, Pack(es[2..]));
        PackReads(ReadValue(st1, es[1]).state, es[2..]);
      }
    }
  }

  lemma ValueLeavesNoByte(st: TextState, v: int)
    ensures ReadValue(st, v).state.pending != NextByte
  {}

  // Text compaction emits values below 900, byte shifts, and bytes: never a
  // mode latch.
  ghost predicate Unlatched(cws: seq<int>) {
    forall i :: 0 <= i < |cws| ==> 0 <= cws[i] < TEXT_MODE || cws[i] == BYTESHIFT
  }

  lemma {:induction false} PackIsUnlatched(es: seq<int>)
    requires |es| % 2 == 0 && Legal(false, false, es)
    ensures Unlatched(Pack(es))
    decreases |es|
  {
    if es != [] {
      assert es[1..][0] == es[1] && es[1..][1..] == es[2..];
      PackIsUnlatched(es[2..]);
    }
  }

  lemma TextIsUnlatched(text: seq<byte>)
    ensures Unlatched(TextCodewords(text))
  {
    hide Padded, Pack;
    PaddedIsLegal(text);
    PackIsUnlatched(Padded(text));
  }

  // ----- The round trip -----

  lemma PaddingIsSilent(text: seq<byte>)
    requires 0 !in text
    ensures Run(ReadEntry, EntryState(false, START_OF_TEXT), Padded(text)).out == text
  {
    hide Entries, Run;
    var es := Entries(text, 0, Alpha, false);
    var s := EntryState(false, START_OF_TEXT);
    EntriesReadBack(text, 0, Alpha, false);
    if |es| % 2 == 1 {
      RunAppend(ReadEntry, s, es, [PS]);
      RunOne(ReadEntry, Run(ReadEntry, s, es).state, PS);
    }
  }

  lemma {:induction false} LegalReadsNoNul(odd: bool, st: TextState, es: seq<int>)
    requires Legal(odd, st.pending == NextByte, es)
    ensures 0 !in Run(ReadEntry, EntryState(odd, st), es).out
    decreases |es|
  {
    hide ReadValue;
    if es != [] {
      var r := ReadEntry(EntryState(odd, st), es[0]);
      ValueIsNotNul(st, es[0]);
      ValueLeavesNoByte(st, es[0]);
      LegalReadsNoNul(!odd, r.state.text, es[1..]);
    }
  }

  lemma ValueIsNotNul(st: TextState, v: int)
    ensures 0 !in ReadValue(st, v).out
  {
    TablesAgree();
    SetsAreAscii();
    hide MixedSet, PunctuationSet, MixedTable, PunctuationTable;
  }

  lemma TextReadsNoNul(text: seq<byte>)
    ensures 0 !in ReadText(TextCodewords(text))
  {
    hide Padded, Pack, Run;
    PaddedIsLegal(text);
    PackReads(START_OF_TEXT, Padded(text));
    LegalReadsNoNul(false, START_OF_TEXT, Padded(text));
  }

  // Reading a compacted segment gives the segment back, through every latch,
  // shift, lookahead, byte escape and pad, exactly when it holds no NUL.
  lemma TextRoundTrip(text: seq<byte>)
    ensures ReadText(TextCodewords(text)) == text <==> 0 !in text
  {
    hide Padded, Pack, Run;
    PaddedIsLegal(text);
    PackReads(START_OF_TEXT, Padded(text));
    LegalReadsNoNul(false, START_OF_TEXT, Padded(text));
    if 0 !in text {
      PaddingIsSilent(text);
    }
  }

  // ----- How many entries and codewords a segment takes -----

  predicate AllIn(text: seq<byte>, k: nat, n: nat, mode: SubMode) {
    k + n <= |text| && forall i :: k <= i < k + n ==> Classify(text, i).In(mode)
  }

  // The entries that may exceed two per character left to read: none in
  // general; one when the next entry falls on an odd place; one or two to get
  // out of Punctuation. `ahead` characters known to stay in the sub-mode pay
  // for one more.
  function Slack(mode: SubMode, odd: bool, ahead: nat): int {
    if ahead >= 2 then (if odd then -1 else 0)
    else if ahead == 0 && mode == Punctuation && !odd then 2
    else if odd then 1 else 0
  }

  lemma BothNextMeans(text: seq<byte>, k: nat, m: SubMode)
    requires BothNext(text, k, m)
    ensures AllIn(text, k + 1, 2, m)
  {
    hide ClassOf;
  }

  // The characters known to stay in the new sub-mode after a round.
  function AheadAfter(x: CharClass, mode: SubMode, r: Round, ahead: nat): nat {
    if x.In(mode) then if ahead > 0 then ahead - 1 else 0
    else if r.advance && (if mode == Lower then r.mode == Alpha || r.mode == Punctuation
                          else mode != Punctuation && r.mode == Punctuation) then 2
    else 0
  }

  lemma ChooseSlack(x: CharClass, mode: SubMode, odd: bool, pa: bool, aa: bool, ahead: nat)
    requires ahead <= 2 && (ahead > 0 ==> x.In(mode))
    ensures var r := Choose(x, mode, odd, pa, aa);
            var after := AheadAfter(x, mode, r, ahead);
            && |r.entries| + Slack(r.mode, Flip(odd, |r.entries|), after)
               <= Slack(mode, odd, ahead) + (if r.advance then 2 else 0)
            && (x.In(mode) ==> r.mode == mode && r.advance)
            && (!x.In(mode) && after > 0 ==> if r.mode == Punctuation then pa else r.mode == Alpha && aa)
  {}

  lemma {:induction false} EntriesBound(text: seq<byte>, k: nat, mode: SubMode, odd: bool, ahead: nat)
    requires k <= |text| && ahead <= 2 && AllIn(text, k, ahead, mode)
    ensures |Entries(text, k, mode, odd)| <= 2 * (|text| - k) + Slack(mode, odd, ahead)
    decreases |text| - k, if mode == Punctuation then 1 else 0
  {
    hide Choose, ClassOf, Entries, Slack;
    EntriesUnfold(text, k, mode, odd);
    if k == |text| {
      SlackNonNegative(mode, odd);
    } else {
      var x := ClassOf(text[k]);
      var pa, aa := BothNext(text, k, Punctuation), BothNext(text, k, Alpha);
      var r := Choose(x, mode, odd, pa, aa);
      var k' := if r.advance then k + 1 else k;
      assert ahead > 0 ==> Classify(text, k).In(mode);
      Encode1Progress(text, k, mode, odd);
      ChooseSlack(x, mode, odd, pa, aa, ahead);
      if !x.In(mode) && pa { BothNextMeans(text, k, Punctuation); }
      if !x.In(mode) && aa { BothNextMeans(text, k, Alpha); }
      EntriesBound(text, k', r.mode, Flip(odd, |r.entries|), AheadAfter(x, mode, r, ahead));
    }
  }

  lemma SlackNonNegative(mode: SubMode, odd: bool)
    ensures Slack(mode, odd, 0) >= 0
  {}

  // The scratch array, with two places per character of the segment, is never
  // overrun, and cannot be smaller: a segment of bytes fills it.
  lemma ScratchBound(text: seq<byte>)
    ensures |Entries(text, 0, Alpha, false)| <= 2 * |text|
    ensures |Padded(text)| <= 2 * |text|
  {
    hide Entries;
    EntriesBound(text, 0, Alpha, false, 0);
  }

  lemma {:induction false} BytesFillScratch(text: seq<byte>, k: nat)
    requires k <= |text| && forall i :: 0 <= i < |text| ==> ClassOf(text[i]).isByte
    ensures |Entries(text, k, Alpha, false)| == 2 * (|text| - k)
    decreases |text| - k
  {
    hide ClassOf;
    if k < |text| {
      ClassIsLegal(text[k]);
      EntriesUnfold(text, k, Alpha, false);
      BytesFillScratch(text, k + 1);
    }
  }

  // Byte shifts among the entries.
  function Shifts(es: seq<int>): nat {
    multiset(es)[BYTESHIFT]
  }

  lemma ShiftsEmpty()
    ensures Shifts([]) == 0
  {}

  lemma ShiftsAppend(a: seq<int>, b: seq<int>)
    ensures Shifts(a + b) == Shifts(a) + Shifts(b)
  {}

  lemma ChooseShifts(x: CharClass, mode: SubMode, odd: bool, pa: bool, aa: bool)
    requires if x.isByte then x.value < 256 && forall m: SubMode :: !x.In(m) else x.value < 30
    ensures Shifts(Choose(x, mode, odd, pa, aa).entries) == if x.isByte then 1 else 0
  {}

  // The encoder's forecast of the codewords: every pair of entries makes one,
  // and every byte shift makes its pair into two.
  lemma {:induction false} PackLength(es: seq<int>)
    requires |es| % 2 == 0 && Legal(false, false, es)
    ensures 2 * |Pack(es)| == |es| + 2 * Shifts(es)
    decreases |es|
  {
    if es != [] {
      assert es == [es[0], es[1]] + es[2..];
      assert multiset(es) == multiset([es[0], es[1]]) + multiset(es[2..]);
      assert es[1..][0] == es[1] && es[1..][1..] == es[2..];
      PackLength(es[2..]);
    }
  }

  lemma PaddedShifts(text: seq<byte>)
    ensures Shifts(Padded(text)) == Shifts(Entries(text, 0, Alpha, false))
  {
    hide Entries;
  }
}
