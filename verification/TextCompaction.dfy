// The in-place text compaction of the encoder, against TextMode.TextCodewords.

module TextCompaction {
  import opened Octets
  import opened Pdf417
  import opened TextMode

  // dest[ptr++] = v
  method Put(dest: array<int>, ptr: nat, v: int) returns (next: nat)
    requires ptr < dest.Length
    modifies dest
    ensures next == ptr + 1 && dest[..next] == old(dest[..ptr]) + [v]
  {
    dest[ptr] := v;
    next := ptr + 1;
  }

  method PutTwo(dest: array<int>, ptr: nat, v: int, w: int) returns (next: nat)
    requires ptr + 1 < dest.Length
    modifies dest
    ensures next == ptr + 2 && dest[..next] == old(dest[..ptr]) + [v, w]
  {
    next := Put(dest, ptr, v);
    next := Put(dest, next, w);
  }

  method PutThree(dest: array<int>, ptr: nat, v: int, w: int, x: int) returns (next: nat)
    requires ptr + 2 < dest.Length
    modifies dest
    ensures next == ptr + 3 && dest[..next] == old(dest[..ptr]) + [v, w, x]
  {
    next := PutTwo(dest, ptr, v, w);
    next := Put(dest, next, x);
  }

  // The entries still to come make up, with those in dest, the whole segment's.
  ghost predicate Filling(text: seq<byte>, dest: seq<int>, k: int, mode: SubMode, ptr: nat, fullBytes: nat) {
    && 0 <= k <= |text| && ptr <= |dest|
    && dest[..ptr] + Entries(text, k, mode, ptr % 2 == 1) == Entries(text, 0, Alpha, false)
    && fullBytes == 2 * Shifts(dest[..ptr])
  }

  lemma FillingStarts(text: seq<byte>, dest: seq<int>)
    ensures Filling(text, dest, 0, Alpha, 0, 0)
  {
    hide Entries;
    assert dest[..0] == [];
    ShiftsEmpty();
    assert [] + Entries(text, 0, Alpha, false) == Entries(text, 0, Alpha, false);
  }

  lemma FillingFits(text: seq<byte>, dest: seq<int>, k: nat, mode: SubMode, ptr: nat, fullBytes: nat)
    requires Filling(text, dest, k, mode, ptr, fullBytes) && k < |text| && 2 * |text| <= |dest|
    ensures ptr + |Encode1(text, k, mode, ptr % 2 == 1).entries| <= |dest|
  {
    hide Encode1, Entries;
    ScratchBound(text);
    EntriesUnfold(text, k, mode, ptr % 2 == 1);
  }

  lemma FillingEnds(text: seq<byte>, dest: seq<int>, mode: SubMode, ptr: nat, fullBytes: nat)
    requires Filling(text, dest, |text|, mode, ptr, fullBytes)
    ensures dest[..ptr] == Entries(text, 0, Alpha, false) && fullBytes == 2 * Shifts(dest[..ptr])
  {
    hide Entries;
    EntriesUnfold(text, |text|, mode, ptr % 2 == 1);
    assert dest[..ptr] + [] == dest[..ptr];
  }

  lemma FillingStep(text: seq<byte>, was: seq<int>, dest: seq<int>, k: nat, mode: SubMode, ptr: nat, fullBytes: nat)
    requires Filling(text, was, k, mode, ptr, fullBytes) && k < |text|
    requires var r := Encode1(text, k, mode, ptr % 2 == 1);
             ptr + |r.entries| <= |dest| && dest[..ptr + |r.entries|] == was[..ptr] + r.entries
    ensures var r := Encode1(text, k, mode, ptr % 2 == 1);
            Filling(text, dest, if r.advance then k + 1 else k, r.mode, ptr + |r.entries|,
                    fullBytes + 2 * Shifts(r.entries))
  {
    hide Encode1, Entries, Shifts;
    var odd := ptr % 2 == 1;
    var r := Encode1(text, k, mode, odd);
    EntriesUnfold(text, k, mode, odd);
    var rest := Entries(text, if r.advance then k + 1 else k, r.mode, Flip(odd, |r.entries|));
    ShiftsAppend(was[..ptr], r.entries);
    assert (was[..ptr] + r.entries) + rest == was[..ptr] + (r.entries + rest);
    assert Flip(odd, |r.entries|) == ((ptr + |r.entries|) % 2 == 1);
  }

  // Fills dest with the entries of a segment and counts its byte shifts.
  method FillEntries(text: seq<byte>, dest: array<int>) returns (ptr: nat, fullBytes: nat)
    requires 2 * |text| <= dest.Length
    modifies dest
    ensures ptr <= dest.Length && dest[..ptr] == Entries(text, 0, Alpha, false)
    ensures fullBytes == 2 * Shifts(dest[..ptr])
  {
    hide ClassOf, Choose, Entries, Shifts, BothNext, Classify, Encode1, Filling;
    var mode := Alpha;
    ptr, fullBytes := 0, 0;
    var k: int := 0;
    FillingStarts(text, dest[..]);
    while k < |text|
      invariant 0 <= k <= |text| && ptr <= dest.Length
      invariant Filling(text, dest[..], k, mode, ptr, fullBytes)
      decreases |text| - k, if mode == Punctuation then 1 else 0
    {
      ghost var was, k0, mode0, ptr0, fullBytes0 := dest[..], k, mode, ptr, fullBytes;
      FillingFits(text, was, k, mode, ptr, fullBytes);
      mode, ptr, fullBytes, k := FillRound(text, k, mode, dest, ptr, fullBytes);
      assert dest[..][..ptr] == dest[..ptr];
      FillingStep(text, was, dest[..], k0, mode0, ptr0, fullBytes0);
    }
    FillingEnds(text, dest[..], mode, ptr, fullBytes);
    assert dest[..][..ptr] == dest[..ptr];
  }

  // One round of the loop.
  method FillRound(text: seq<byte>, k0: nat, mode0: SubMode, dest: array<int>, ptr0: nat, fullBytes0: nat)
    returns (mode: SubMode, ptr: nat, fullBytes: nat, k: int)
    requires k0 < |text|
    requires ptr0 + |Encode1(text, k0, mode0, ptr0 % 2 == 1).entries| <= dest.Length
    modifies dest
    ensures var r := Encode1(text, k0, mode0, ptr0 % 2 == 1);
            && mode == r.mode && ptr == ptr0 + |r.entries| <= dest.Length
            && k == (if r.advance then k0 + 1 else k0)
            && (r.advance || (mode0 == Punctuation && mode != Punctuation))
            && dest[..ptr] == old(dest[..ptr0]) + r.entries
            && fullBytes == fullBytes0 + 2 * Shifts(r.entries)
  {
    hide ClassOf, Shifts, BothNext;
    mode, ptr, fullBytes, k := mode0, ptr0, fullBytes0, k0;
    var v := Classify(text, k);
    ghost var pa, aa := BothNext(text, k, Punctuation), BothNext(text, k, Alpha);
    ClassIsLegal(text[k]);
    ChooseShifts(v, mode, ptr % 2 == 1, pa, aa);
    if v.In(mode) {
      ptr := Put(dest, ptr, v.value);
    } else if v.isByte {
      if ptr % 2 == 1 {
        ptr := PutThree(dest, ptr, if mode == Punctuation then PAL else PS, BYTESHIFT, v.value);
        mode := if mode == Punctuation then Alpha else mode;
      } else {
        ptr := PutTwo(dest, ptr, BYTESHIFT, v.value);
      }
      fullBytes := fullBytes + 2;
    } else {
      match mode
      case Alpha =>
        if v.lower {
          ptr := PutTwo(dest, ptr, LL, v.value);
          mode := Lower;
        } else if v.mixed {
          ptr := PutTwo(dest, ptr, ML, v.value);
          mode := Mixed;
        } else if BothNext(text, k, Punctuation) {
          ptr := PutThree(dest, ptr, ML, PL, v.value);
          mode := Punctuation;
        } else {
          ptr := PutTwo(dest, ptr, PS, v.value);
        }
      case Lower =>
        if v.alpha {
          if BothNext(text, k, Alpha) {
            ptr := PutThree(dest, ptr, ML, AL, v.value);
            mode := Alpha;
          } else {
            ptr := PutTwo(dest, ptr, AS, v.value);
          }
        } else if v.mixed {
          ptr := PutTwo(dest, ptr, ML, v.value);
          mode := Mixed;
        } else if BothNext(text, k, Punctuation) {
          ptr := PutThree(dest, ptr, ML, PL, v.value);
          mode := Punctuation;
        } else {
          ptr := PutTwo(dest, ptr, PS, v.value);
        }
      case Mixed =>
        if v.lower {
          ptr := PutTwo(dest, ptr, LL, v.value);
          mode := Lower;
        } else if v.alpha {
          ptr := PutTwo(dest, ptr, AL, v.value);
          mode := Alpha;
        } else if BothNext(text, k, Punctuation) {
          ptr := PutTwo(dest, ptr, PL, v.value);
          mode := Punctuation;
        } else {
          ptr := PutTwo(dest, ptr, PS, v.value);
        }
      case Punctuation =>
        ptr := Put(dest, ptr, PAL);
        mode := Alpha;
        k := k - 1;
    }
    k := k + 1;
  }

  method TextCompact(p: Encoder, start: nat, length: nat)
    requires p.Valid()
    requires start + length <= |p.text| && length <= ABSOLUTE_MAX_TEXT_SIZE
    modifies p, p.codewords
    ensures Appended(p, TextCodewords(p.text[start..start + length]))
  {
    hide Entries, Pack, Shifts, Legal;
    var text := p.text[start..start + length];
    var dest := new int[ABSOLUTE_MAX_TEXT_SIZE * 2];
    var ptr, fullBytes := FillEntries(text, dest);
    ScratchBound(text);
    if ptr % 2 == 1 {
      ptr := Put(dest, ptr, PS);
    }
    PaddedIsLegal(text);
    PaddedShifts(text);
    ghost var es := Padded(text);
    assert dest[..ptr] == es;
    PackLength(es);
    var size := (ptr + fullBytes) / 2;
    assert size == |Pack(es)|;
    if size + p.cwPtr > MAX_DATA_CODEWORDS {
      p.error := TextTooBig;
      return;
    }
    PackInto(p, dest, ptr, es);
  }

  // Packs the entries two to a codeword.
  method PackInto(p: Encoder, dest: array<int>, length: nat, ghost es: seq<int>)
    requires p.Valid() && dest != p.codewords
    requires length <= dest.Length && dest[..length] == es
    requires length % 2 == 0 && Legal(false, false, es)
    requires p.cwPtr + |Pack(es)| <= MAX_DATA_CODEWORDS
    modifies p`cwPtr, p.codewords
    ensures p.Valid() && p.cwPtr == old(p.cwPtr) + |Pack(es)|
    ensures p.Written() == old(p.Written()) + Pack(es)
    ensures p.codewords[p.cwPtr..] == old(p.codewords[p.cwPtr + |Pack(es)|..])
  {
    hide Pack, Legal;
    ghost var pre, end := p.Written(), p.cwPtr + |Pack(es)|;
    var ptr := 0;
    assert es[0..] == es;
    while ptr < length
      invariant ptr <= length && ptr % 2 == 0
      invariant Legal(false, false, es[ptr..])
      invariant p.cwPtr + |Pack(es[ptr..])| == end
      invariant p.codewords[..p.cwPtr] + Pack(es[ptr..]) == pre + Pack(es)
      invariant p.codewords[end..] == old(p.codewords[end..])
    {
      ghost var done, tail := p.Written(), Pack(es[ptr + 2..]);
      EntriesPair(es, ptr);
      var v := dest[ptr];
      assert v == es[ptr];
      ptr := ptr + 1;
      if v >= 30 {
        p.codewords[p.cwPtr] := v;
        p.codewords[p.cwPtr + 1] := dest[ptr];
        p.cwPtr := p.cwPtr + 2;
        assert p.Written() == done + [es[ptr - 1], es[ptr]];
        assert (done + [es[ptr - 1], es[ptr]]) + tail == done + ([es[ptr - 1], es[ptr]] + tail);
      } else {
        p.codewords[p.cwPtr] := v * 30 + dest[ptr];
        p.cwPtr := p.cwPtr + 1;
        assert p.Written() == done + [es[ptr - 1] * 30 + es[ptr]];
        assert (done + [es[ptr - 1] * 30 + es[ptr]]) + tail == done + ([es[ptr - 1] * 30 + es[ptr]] + tail);
      }
      ptr := ptr + 1;
    }
    PackEmpty(es[ptr..]);
    assert p.Written() + [] == p.Written();
  }

  lemma PackEmpty(es: seq<int>)
    requires es == []
    ensures Pack(es) == []
  {}

  lemma EntriesPair(es: seq<int>, ptr: nat)
    requires ptr % 2 == 0 && ptr < |es| && |es| % 2 == 0 && Legal(false, false, es[ptr..])
    ensures ptr + 2 <= |es| && Legal(false, false, es[ptr + 2..])
    ensures Pack(es[ptr..])
            == (if es[ptr] >= 30 then [es[ptr], es[ptr + 1]] else [es[ptr] * 30 + es[ptr + 1]]) + Pack(es[ptr + 2..])
  {
    var rest := es[ptr..];
    assert rest[1..][0] == es[ptr + 1] && rest[1..][1..] == es[ptr + 2..];
    assert rest[..2] == [es[ptr], es[ptr + 1]] && rest[2..] == es[ptr + 2..];
  }
}
