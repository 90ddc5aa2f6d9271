// What the passes of breakString do to a list, in plain lengths: when a pass
// changes it, where it starts, what it puts there, and what is left when it
// is through.

module SegmentLists {
  import opened Octets
  import opened Pdf417
  import opened Segmentation
  import opened Merging
  import opened BreakString
  import opened TailLoss

  // ----- The split -----

  predicate ThirteenFrom(text: seq<byte>, a: nat) {
    a + 13 <= |text| && forall j :: a <= j < a + 13 ==> 48 <= text[j] <= 57
  }

  // A position is in a number when it lies in thirteen digits in a row; else
  // it is text when it is printable ASCII, TAB, LF or CR.
  lemma LabelIs(text: seq<byte>, i: nat)
    requires i < |text|
    ensures Label(text, i) == N <==> exists a: nat :: a <= i < a + 13 && ThirteenFrom(text, a)
    ensures Label(text, i) == T
            <==> Label(text, i) != N && (32 <= text[i] <= 126 || text[i] == 9 || text[i] == 10 || text[i] == 13)
  {
    forall a: nat ensures ThirteenFrom(text, a) <==> ThirteenDigits(text, a) {}
    assert InLongRun(text, i) ==> exists a: nat :: a <= i < a + 13 && ThirteenFrom(text, a) by {
      if InLongRun(text, i) {
        var a: nat :| a <= i < a + LONG_RUN && ThirteenDigits(text, a);
        assert ThirteenFrom(text, a);
      }
    }
  }

  // A text of digits alone is a number from eight digits on, and text below.
  lemma DigitsAlone(text: seq<byte>)
    requires text != [] && forall i :: 0 <= i < |text| ==> 48 <= text[i] <= 57
    ensures Segments(text) == [Segment(if |text| >= 8 then N else T, 0, |text|)]
  {
    hide Runs, RunShort, RunPass, AllNumbers, InLongRun, LosesTail;
    var kind := if |text| >= 13 then N else T;
    forall i: nat | i < |text| ensures Label(text, i) == kind {
      DigitStretch(text, 0, |text|, i);
    }
    RunsStep(text, 0, |text|);
    RunsAtEnd(text);
    var one := [Segment(kind, 0, |text|)];
    assert Runs(text, 0) == one + [] == one;
    NothingShort(one, 0);
    forall m: Pass ensures RunPass(m, one, 0) == one { NothingFires(m, one, 0); }
    CheckOne(text, kind);
  }

  lemma CheckOne(text: seq<byte>, kind: Kind)
    requires text != [] && forall i :: 0 <= i < |text| ==> 48 <= text[i] <= 57
    requires kind == T || (kind == N && |text| >= 13)
    ensures AllNumbers(text, [Segment(kind, 0, |text|)]) == [Segment(if |text| >= 8 then N else kind, 0, |text|)]
  {
    assert text[0..|text|] == text;
  }

  // The last check changes nothing else.
  lemma OtherListsStay(text: seq<byte>, list: seq<Segment>)
    requires forall i :: 0 <= i < |list| ==> 0 <= list[i].start <= list[i].end <= |text|
    requires |list| != 1 || list[0].kind != T || list[0].end - list[0].start < 8
             || exists j :: list[0].start <= j < list[0].end && !(48 <= text[j] <= 57)
    ensures AllNumbers(text, list) == list
  {
    if |list| == 1 && list[0].kind == T && list[0].end - list[0].start >= 8 {
      var j :| list[0].start <= j < list[0].end && !(48 <= text[j] <= 57);
      assert !IsDigit(text[list[0].start..list[0].end][j - list[0].start]);
    }
  }

  // ----- Lone bytes between texts -----

  // A byte alone between two texts that together have at least three
  // characters.
  predicate LoneBetween(list: seq<Segment>, k: nat)
    requires 0 < k < |list| - 1
  {
    && list[k - 1].kind == T && list[k + 1].kind == T
    && list[k].kind == B && list[k].end - list[k].start == 1
    && list[k - 1].end - list[k - 1].start + list[k + 1].end - list[k + 1].start >= 3
  }

  ghost predicate NoneBetween(list: seq<Segment>) {
    forall k :: 0 < k < |list| - 1 ==> !LoneBetween(list, k)
  }

  lemma {:induction false} ShortSkips(list: seq<Segment>, k: nat)
    requires ShortSettled(list, k)
    ensures RunShort(list, 0) == RunShort(list, k)
    decreases k
  {
    hide ShortFires, ShortStep;
    if k > 0 { ShortSkips(list, k - 1); }
  }

  lemma {:induction false} ShortShrinks(list: seq<Segment>, k: nat)
    ensures |RunShort(list, k)| <= |list|
    decreases |list|, |list| - k
  {
    hide ShortFires, ShortStep;
    if k < |list| {
      if ShortFires(list, k) {
        ShortStepSmaller(list, k);
        ShortShrinks(ShortStep(list, k), 0);
      } else {
        ShortShrinks(list, k + 1);
      }
    }
  }

  // The first such byte and both texts become one text, and the pass starts
  // again.
  lemma ShortPassStep(list: seq<Segment>, k: nat)
    requires 0 < k < |list| - 1 && LoneBetween(list, k)
    requires forall j :: 0 < j < k ==> !LoneBetween(list, j)
    ensures var next := list[..k - 1] + [Segment(T, list[k - 1].start, list[k + 1].end)] + list[k + 2..];
            RunShort(list, 0) == RunShort(next, 0) != list
  {
    forall j: nat | j < k ensures !ShortFires(list, j) {
      if j > 0 { assert !LoneBetween(list, j); }
    }
    ShortSkips(list, k);
    ShortShrinks(ShortStep(list, k), 0);
  }

  // A list without any stays as it is.
  lemma ShortPassStays(list: seq<Segment>)
    ensures RunShort(list, 0) == list <==> NoneBetween(list)
  {
    if NoneBetween(list) {
      forall j: nat | j < |list| ensures !ShortFires(list, j) {
        if 0 < j < |list| - 1 { assert !LoneBetween(list, j); }
      }
      ShortSkips(list, |list|);
    } else {
      var k := FirstBetween(list, 1);
      ShortPassStep(list, k);
    }
  }

  lemma FirstBetween(list: seq<Segment>, from: nat) returns (k: nat)
    requires from > 0 && !NoneBetween(list) && forall j :: 0 < j < from && j < |list| - 1 ==> !LoneBetween(list, j)
    ensures 0 < k < |list| - 1 && LoneBetween(list, k)
    ensures forall j :: 0 < j < k ==> !LoneBetween(list, j)
    decreases |list| - from
  {
    if from < |list| - 1 && LoneBetween(list, from) { k := from; }
    else { k := FirstBetween(list, from + 1); }
  }

  // The list after the pass has none.
  lemma FirstPassLeavesNone(text: seq<byte>)
    ensures NoneBetween(AfterShort(text))
  {
    hide Runs, RunShort, WellSplit;
    RunsWellSplit(text, 0);
    RunsAlternate(text, 0, Runs(text, 0));
    ShortSettles(Runs(text, 0), 0);
    var list := AfterShort(text);
    forall k | 0 < k < |list| - 1 ensures !LoneBetween(list, k) {
      assert !ShortFires(list, k);
    }
  }

  // ----- The text pass -----

  // What a long text takes in: a byte alone, or text.
  predicate TakenByText(s: Segment) {
    s.kind == T || (s.kind == B && s.end - s.start == 1)
  }

  // A text of five or more characters beside something to take in.
  predicate TextGrows(list: seq<Segment>, k: nat)
    requires k < |list|
  {
    && list[k].kind == T && list[k].end - list[k].start >= 5
    && ((k > 0 && TakenByText(list[k - 1])) || (k + 1 < |list| && TakenByText(list[k + 1])))
  }

  // ----- The binary pass -----

  // What bytes take in: text of fewer than five characters, or bytes.
  predicate TakenByBytes(s: Segment) {
    s.kind == B || (s.kind == T && s.end - s.start < 5)
  }

  predicate BytesGrow(list: seq<Segment>, k: nat)
    requires k < |list|
  {
    && list[k].kind == B
    && ((k > 0 && TakenByBytes(list[k - 1])) || (k + 1 < |list| && TakenByBytes(list[k + 1])))
  }

  // ----- Both -----

  predicate Taken(m: Pass, s: Segment) {
    match m
    case TextPass => TakenByText(s)
    case BinaryPass => TakenByBytes(s)
  }

  predicate Grows(m: Pass, list: seq<Segment>, k: nat)
    requires k < |list|
  {
    match m
    case TextPass => TextGrows(list, k)
    case BinaryPass => BytesGrow(list, k)
  }

  // The list after the pass has dealt with segment k: the segment before it,
  // or else the one after it, is taken in. After taking in the one before, the
  // code looks one too far for the other side: the next segment is thrown away
  // when the one after it, or it itself when it is the last, could be taken.
  function AfterGrowing(m: Pass, list: seq<Segment>, k: nat): seq<Segment>
    requires k < |list| && Grows(m, list, k)
  {
    if k > 0 && Taken(m, list[k - 1]) then
      list[..k - 1] + [Segment(list[k].kind, list[k - 1].start, list[k].end)]
      + if k + 2 < |list| then (if Taken(m, list[k + 2]) then list[k + 2..] else list[k + 1..])
        else if k + 1 < |list| && Taken(m, list[k + 1]) then []
        else list[k + 1..]
    else
      list[..k] + [Segment(list[k].kind, list[k].start, list[k + 1].end)] + list[k + 2..]
  }

  lemma GrowsIsFires(m: Pass, list: seq<Segment>, k: nat)
    requires k < |list|
    ensures Grows(m, list, k) == Fires(m, list, k)
  {}

  lemma GrowingIsStep(m: Pass, list: seq<Segment>, k: nat)
    requires k < |list| && Grows(m, list, k)
    ensures Fires(m, list, k) && AfterGrowing(m, list, k) == Step(m, list, k)
  {}

  lemma {:induction false} PassSkips(m: Pass, list: seq<Segment>, k: nat)
    requires Settled(m, list, k)
    ensures RunPass(m, list, 0) == RunPass(m, list, k)
    decreases k
  {
    hide Fires, Step;
    if k > 0 {
      assert !Fires(m, list, k - 1);
      PassSkips(m, list, k - 1);
    }
  }

  lemma {:induction false} PassShrinks(m: Pass, list: seq<Segment>, k: nat)
    ensures |RunPass(m, list, k)| <= |list|
    decreases |list|, |list| - k
  {
    hide Fires, Step;
    if k < |list| {
      if Fires(m, list, k) { PassShrinks(m, Step(m, list, k), 0); } else { PassShrinks(m, list, k + 1); }
    }
  }

  // The first segment that can grow does, and the pass starts again.
  lemma PassStep(m: Pass, list: seq<Segment>, k: nat)
    requires k < |list| && Grows(m, list, k) && forall j :: 0 <= j < k ==> !Grows(m, list, j)
    ensures RunPass(m, list, 0) == RunPass(m, AfterGrowing(m, list, k), 0) != list
  {
    hide Fires, Step, Grows, AfterGrowing;
    forall j | 0 <= j < k ensures !Fires(m, list, j) { GrowsIsFires(m, list, j); }
    PassSkips(m, list, k);
    GrowingIsStep(m, list, k);
    PassShrinks(m, Step(m, list, k), 0);
  }

  ghost predicate NoneGrows(m: Pass, list: seq<Segment>) {
    forall k :: 0 <= k < |list| ==> !Grows(m, list, k)
  }

  lemma PassStays(m: Pass, list: seq<Segment>)
    ensures RunPass(m, list, 0) == list <==> NoneGrows(m, list)
  {
    hide Fires, Step, Grows;
    if NoneGrows(m, list) {
      forall j | 0 <= j < |list| ensures !Fires(m, list, j) { GrowsIsFires(m, list, j); }
      PassSkips(m, list, |list|);
    } else {
      var k := FirstGrowing(m, list, 0);
      PassStep(m, list, k);
    }
  }

  lemma FirstGrowing(m: Pass, list: seq<Segment>, from: nat) returns (k: nat)
    requires !NoneGrows(m, list) && forall j :: 0 <= j < from && j < |list| ==> !Grows(m, list, j)
    ensures k < |list| && Grows(m, list, k) && forall j :: 0 <= j < k ==> !Grows(m, list, j)
    decreases |list| - from
  {
    hide Grows;
    if from < |list| && Grows(m, list, from) { k := from; } else { k := FirstGrowing(m, list, from + 1); }
  }

  // A pass ends with nothing left that can grow.
  lemma {:induction false} PassLeavesNone(m: Pass, list: seq<Segment>, k: nat)
    requires Settled(m, list, k)
    ensures NoneGrows(m, RunPass(m, list, k))
    decreases |list|, |list| - k
  {
    hide Fires, Step, Grows;
    if k >= |list| {
      forall j | 0 <= j < |list| ensures !Grows(m, list, j) {
        GrowsIsFires(m, list, j);
        assert !Fires(m, list, j);
      }
    } else if Fires(m, list, k) {
      PassLeavesNone(m, Step(m, list, k), 0);
    } else {
      PassLeavesNone(m, list, k + 1);
    }
  }

  // What breakString ends with, before the check for numbers: no long text
  // beside a lone byte or text goes into the last pass, and no bytes beside
  // bytes or a short text come out of it.
  lemma NothingLeftToGrow(text: seq<byte>)
    ensures NoneGrows(TextPass, AfterText(text)) && NoneGrows(BinaryPass, AfterBinary(text))
  {
    hide RunPass, NoneGrows;
    PassLeavesNone(TextPass, AfterShort(text), 0);
    PassLeavesNone(BinaryPass, AfterText(text), 0);
  }

  // ----- Two letters, or one, on either side of a byte -----

  // Two and two are merged around the byte, and nothing is lost.
  lemma TwoAndTwo()
    ensures var text: seq<byte> := [97, 98, 128, 99, 100];
            AfterShort(text) == [Segment(T, 0, 5)] && !LosesText(text)
  {
    hide Runs, RunShort, EndIsLost, LosesText;
    var text: seq<byte> := [97, 98, 128, 99, 100];
    forall i | 0 <= i < |text| ensures !InLongRun(text, i) {}
    RunsStep(text, 0, 2);
    RunsStep(text, 2, 3);
    RunsStep(text, 3, 5);
    RunsAtEnd(text);
    var list, one := [Segment(T, 0, 2), Segment(B, 2, 3), Segment(T, 3, 5)], [Segment(T, 0, 5)];
    assert Runs(text, 0) == list;
    ShortPassStep(list, 1);
    assert list[..0] + [Segment(T, 0, 5)] + list[3..] == one;
    ShortPassStays(one);
    LosesTextExactly(text);
    TwoShapes(one);
  }

  // One and one are not, and the last letter is lost.
  lemma OneAndOne()
    ensures var text: seq<byte> := [97, 128, 98];
            AfterShort(text) == [Segment(T, 0, 1), Segment(B, 1, 2), Segment(T, 2, 3)] && LosesText(text)
  {
    hide Runs, RunShort, EndIsLost, LosesText;
    var text: seq<byte> := [97, 128, 98];
    forall i | 0 <= i < |text| ensures !InLongRun(text, i) {}
    RunsStep(text, 0, 1);
    RunsStep(text, 1, 2);
    RunsStep(text, 2, 3);
    RunsAtEnd(text);
    var list := [Segment(T, 0, 1), Segment(B, 1, 2), Segment(T, 2, 3)];
    assert Runs(text, 0) == list;
    ShortPassStays(list);
    LosesTextExactly(text);
    TwoShapes(list);
  }
}
