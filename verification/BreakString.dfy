// breakString as a whole: the segment list it hands to assemble, and how much
// of the text that list covers.

module BreakString {
  import opened Octets
  import opened Pdf417
  import opened Segmentation
  import opened Merging

  // A single text segment of eight or more digits becomes numeric.
  function AllNumbers(text: seq<byte>, list: seq<Segment>): seq<Segment>
    requires forall i :: 0 <= i < |list| ==> 0 <= list[i].start <= list[i].end <= |text|
  {
    if |list| == 1 && list[0].kind == T && list[0].Length() >= 8
       && IsDigits(text[list[0].start..list[0].end])
    then [list[0].(kind := N)] else list
  }

  ghost function AfterShort(text: seq<byte>): seq<Segment> {
    RunShort(Runs(text, 0), 0)
  }

  ghost function AfterText(text: seq<byte>): seq<Segment> {
    RunPass(TextPass, AfterShort(text), 0)
  }

  ghost function AfterBinary(text: seq<byte>): seq<Segment> {
    RunPass(BinaryPass, AfterText(text), 0)
  }

  // Does a merge pass drop the end of the text?
  ghost predicate LosesText(text: seq<byte>) {
    LosesTail(TextPass, AfterShort(text), 0) || LosesTail(BinaryPass, AfterText(text), 0)
  }

  // ----- The split -----

  // The list cuts the text from position i on into its maximal uniform
  // stretches; digit runs are at least thirteen long.
  ghost predicate WellSplit(text: seq<byte>, i: nat, list: seq<Segment>)
    decreases |list|
  {
    if list == [] then i == |text|
    else
      var s := list[0];
      && s.start == i < s.end <= |text|
      && SameLabel(text, s.kind, s.start, s.end)
      && (s.kind == N ==> s.Length() >= LONG_RUN)
      && (|list| > 1 ==> list[1].kind != s.kind)
      && WellSplit(text, s.end, list[1..])
  }

  lemma LongRunFromCut(text: seq<byte>, i: nat, e: nat)
    requires i < e <= |text| && Label(text, i) == N
    requires i == 0 || Label(text, i - 1) != N
    requires e == |text| || Label(text, e) != N
    requires SameLabel(text, N, i, e)
    ensures e - i >= LONG_RUN
  {
    var a: nat :| a <= i < a + LONG_RUN && ThirteenDigits(text, a);
    assert forall j :: a <= j < a + LONG_RUN ==> Label(text, j) == N;
  }

  lemma {:induction false} RunsWellSplit(text: seq<byte>, i: nat)
    requires i <= |text| && (0 < i < |text| ==> Label(text, i - 1) != Label(text, i))
    ensures WellSplit(text, i, Runs(text, i))
    decreases |text| - i
  {
    hide InLongRun;
    if i < |text| {
      var e := RunEnd(text, i, i + 1);
      if Label(text, i) == N { LongRunFromCut(text, i, e); }
      RunsWellSplit(text, e);
      assert Runs(text, i)[1..] == Runs(text, e);
    }
  }

  ghost predicate ContiguousFrom(list: seq<Segment>, i: int) {
    && (forall j :: 0 <= j < |list| ==> list[j].start < list[j].end)
    && (list != [] ==> list[0].start == i)
    && (forall j :: 0 < j < |list| ==> list[j - 1].end == list[j].start)
  }

  lemma {:induction false} WellSplitIsContiguous(text: seq<byte>, i: nat, list: seq<Segment>)
    requires WellSplit(text, i, list)
    ensures ContiguousFrom(list, i) && (if list == [] then i == |text| else EndOf(list) == |text|)
    decreases |list|
  {
    if list != [] {
      var rest := list[1..];
      WellSplitIsContiguous(text, list[0].end, rest);
      forall j | 0 <= j < |list| ensures list[j].start < list[j].end {
        if j > 0 { assert list[j] == rest[j - 1]; }
      }
      forall j | 0 < j < |list| ensures list[j - 1].end == list[j].start {
        assert list[j] == rest[j - 1];
        if j > 1 { assert list[j - 1] == rest[j - 2]; }
      }
    }
  }

  // ----- What the passes do to numeric segments: nothing -----

  ghost predicate Numeric(text: seq<byte>, s: Segment) {
    s.kind == N ==> 0 <= s.start <= s.end <= |text| && IsDigits(text[s.start..s.end])
  }

  ghost predicate AllNumeric(text: seq<byte>, list: seq<Segment>) {
    forall i :: 0 <= i < |list| ==> Numeric(text, list[i])
  }

  lemma LongRunIsDigit(text: seq<byte>, i: nat)
    requires i < |text| && Label(text, i) == N
    ensures IsDigit(text[i])
  {}

  lemma {:induction false} WellSplitNumeric(text: seq<byte>, i: nat, list: seq<Segment>)
    requires WellSplit(text, i, list)
    ensures AllNumeric(text, list)
    decreases |list|
  {
    if list != [] {
      var s := list[0];
      if s.kind == N {
        forall j | s.start <= j < s.end ensures IsDigit(text[j]) { LongRunIsDigit(text, j); }
      }
      WellSplitNumeric(text, s.end, list[1..]);
      assert forall j :: 0 < j < |list| ==> list[j] == list[1..][j - 1];
    }
  }

  lemma StepNumeric(text: seq<byte>, m: Pass, list: seq<Segment>, k: nat)
    requires AllNumeric(text, list) && k < |list| && Fires(m, list, k)
    ensures AllNumeric(text, Step(m, list, k))
  {
    hide Numeric, Absorbs;
    var r := Step(m, list, k);
    var a := if TakesLeft(m, list, k) then k - 1 else k;
    EligibleNotNumeric(text, m, list[k], r[a]);
    assert forall j :: 0 <= j < a ==> r[j] == list[j];
    assert forall j :: a < j < |r| ==> r[j] == list[j + |list| - |r|];
  }

  lemma EligibleNotNumeric(text: seq<byte>, m: Pass, s: Segment, x: Segment)
    requires Eligible(m, s) && x.kind == s.kind
    ensures Numeric(text, x)
  {}

  lemma {:induction false} PassNumeric(text: seq<byte>, m: Pass, list: seq<Segment>, k: nat)
    requires AllNumeric(text, list)
    ensures AllNumeric(text, RunPass(m, list, k))
    decreases |list|, |list| - k
  {
    hide Fires, Step, AllNumeric;
    if k < |list| {
      if Fires(m, list, k) {
        StepNumeric(text, m, list, k);
        PassNumeric(text, m, Step(m, list, k), 0);
      } else {
        PassNumeric(text, m, list, k + 1);
      }
    }
  }

  lemma ShortStepKeeps(text: seq<byte>, list: seq<Segment>, k: nat)
    requires Contiguous(list) && AllNumeric(text, list) && k < |list| && ShortFires(list, k)
    ensures var r := ShortStep(list, k);
            Contiguous(r) && EndOf(r) == EndOf(list) && r != [] && AllNumeric(text, r)
  {
    hide Numeric;
    var r := ShortStep(list, k);
    var x := r[k - 1];
    assert Numeric(text, x) by { TextNotNumeric(text, x); }
    assert forall j :: 0 <= j < k - 1 ==> r[j] == list[j];
    assert forall j :: k - 1 < j < |r| ==> r[j] == list[j + 2];
    assert list[k - 1].end == list[k].start && list[k].end == list[k + 1].start;
    forall j | 0 < j < |r| ensures r[j - 1].end == r[j].start {
      if j == k - 1 { assert list[j - 1].end == list[j].start; }
      else if j == k { assert k + 2 < |list| ==> list[k + 1].end == list[k + 2].start; }
      else if j > k { assert list[j + 1].end == list[j + 2].start; }
      else { assert list[j - 1].end == list[j].start; }
    }
  }

  lemma TextNotNumeric(text: seq<byte>, x: Segment)
    requires x.kind == T
    ensures Numeric(text, x)
  {}

  // The short-binary pass keeps the partition.
  lemma {:induction false} ShortKeepsPartition(text: seq<byte>, list: seq<Segment>, k: nat)
    requires Contiguous(list) && AllNumeric(text, list)
    ensures var r := RunShort(list, k);
            Contiguous(r) && EndOf(r) == EndOf(list) && (list != [] ==> r != []) && AllNumeric(text, r)
    decreases |list|, |list| - k
  {
    hide ShortFires, ShortStep, Contiguous, AllNumeric, EndOf;
    if k < |list| {
      if ShortFires(list, k) {
        ShortStepKeeps(text, list, k);
        ShortStepSmaller(list, k);
        ShortKeepsPartition(text, ShortStep(list, k), 0);
      } else {
        ShortKeepsPartition(text, list, k + 1);
      }
    }
  }

  lemma ShortStepSmaller(list: seq<Segment>, k: nat)
    requires k < |list| && ShortFires(list, k)
    ensures 0 < k && k + 1 < |list| && |ShortStep(list, k)| == |list| - 2
  {}

  // ----- The result -----

  // The list breakString leaves covers a prefix of the text without gaps, in
  // nonempty segments, numeric ones all digits; the prefix is the whole text
  // exactly when no merge pass drops its tail.
  lemma BreakStringCovers(text: seq<byte>)
    ensures var list := AfterBinary(text);
            && Contiguous(list) && EndOf(list) <= |text|
            && (EndOf(list) == |text| <==> !LosesText(text))
            && (text != [] ==> list != [])
            && AllNumeric(text, list)
  {
    hide Contiguous, AllNumeric, Runs, RunPass, RunShort, LosesTail;
    RunsWellSplit(text, 0);
    var list := Runs(text, 0);
    WellSplitIsContiguous(text, 0, list);
    assert Contiguous(list) by { FromZero(list); }
    WellSplitNumeric(text, 0, list);
    ShortKeepsPartition(text, list, 0);
    ContiguousIsMended(TextPass, AfterShort(text));
    PassKeepsAPrefix(TextPass, AfterShort(text), 0);
    ContiguousIsMended(BinaryPass, AfterText(text));
    PassKeepsAPrefix(BinaryPass, AfterText(text), 0);
    PassNumeric(text, TextPass, AfterShort(text), 0);
    PassNumeric(text, BinaryPass, AfterText(text), 0);
  }

  lemma FromZero(list: seq<Segment>)
    requires ContiguousFrom(list, 0)
    ensures Contiguous(list)
  {}

  lemma InBounds(list: seq<Segment>, n: int)
    requires Contiguous(list) && EndOf(list) <= n
    ensures forall i :: 0 <= i < |list| ==> 0 <= list[i].start < list[i].end <= n
  {
    forall i | 0 <= i < |list| ensures 0 <= list[i].start < list[i].end <= n {
      if i > 0 { Increasing(list, 0, i); }
      if i < |list| - 1 { Increasing(list, i, |list| - 1); }
    }
  }

  ghost function Segments(text: seq<byte>): seq<Segment> {
    BreakStringCovers(text);
    InBounds(AfterBinary(text), |text|);
    AllNumbers(text, AfterBinary(text))
  }

  lemma {:induction false} EmptyText(text: seq<byte>)
    requires text == []
    ensures Segments(text) == []
  {
    hide AllNumbers;
    assert Runs(text, 0) == [];
    assert RunShort([], 0) == [];
    assert RunPass(TextPass, [], 0) == [] && RunPass(BinaryPass, [], 0) == [];
    NothingToCheck(text);
  }

  lemma NothingToCheck(text: seq<byte>)
    ensures AllNumbers(text, []) == []
  {}

  // ----- The code -----

  method BreakUp(text: seq<byte>) returns (list: ArrayList)
    ensures fresh(list) && fresh(list.store) && list.Valid()
    ensures list.Elements() == Segments(text)
  {
    hide AfterShort, AfterText, AfterBinary, Runs, RunPass, RunShort, LosesText;
    list := new ArrayList();
    Split(text, list);
    ShortPass(list);
    assert list.Elements() == AfterShort(text) by { AfterShortIs(text); }
    MergePass(list, TextPass);
    assert list.Elements() == AfterText(text) by { AfterTextIs(text); }
    MergePass(list, BinaryPass);
    assert list.Elements() == AfterBinary(text) by { AfterBinaryIs(text); }
    BreakStringCovers(text);
    InBounds(AfterBinary(text), |text|);
    AllNumbersCheck(text, list);
  }

  lemma AfterShortIs(text: seq<byte>)
    ensures AfterShort(text) == RunShort(Runs(text, 0), 0)
  {}

  lemma AfterTextIs(text: seq<byte>)
    ensures AfterText(text) == RunPass(TextPass, AfterShort(text), 0)
  {}

  lemma AfterBinaryIs(text: seq<byte>)
    ensures AfterBinary(text) == RunPass(BinaryPass, AfterText(text), 0)
  {}

  // check if all numbers
  method AllNumbersCheck(text: seq<byte>, list: ArrayList)
    requires list.Valid()
    requires forall i :: 0 <= i < |list.Elements()| ==>
               0 <= list.Elements()[i].start <= list.Elements()[i].end <= |text|
    modifies list.store
    ensures list.Valid() && list.Elements() == AllNumbers(text, old(list.Elements()))
  {
    ghost var was := list.Elements();
    if list.size == 1 {
      var v := list.store[0];
      assert was == [v];
      if v.kind == T && v.Length() >= 8 {
        var k := v.start;
        while k < v.end && IsDigit(text[k])
          invariant v.start <= k <= v.end
          invariant forall j :: v.start <= j < k ==> IsDigit(text[j])
        {
          k := k + 1;
        }
        if k == v.end {
          list.store[0] := v.(kind := N);
        } else {
          assert !IsDigit(text[v.start..v.end][k - v.start]);
        }
      }
    }
  }

  // ----- Text that nothing is lost from, and text that loses its end -----

  lemma {:induction false} NothingFires(m: Pass, list: seq<Segment>, k: nat)
    requires forall i :: 0 <= i < |list| ==> !Fires(m, list, i)
    ensures RunPass(m, list, k) == list && !LosesTail(m, list, k)
    decreases |list| - k
  {
    hide Fires, Step;
    if k < |list| { NothingFires(m, list, k + 1); }
  }

  lemma {:induction false} NothingShort(list: seq<Segment>, k: nat)
    requires forall i :: 0 <= i < |list| ==> list[i].kind != B
    ensures RunShort(list, k) == list
    decreases |list| - k
  {
    hide ShortStep;
    if k < |list| { NothingShort(list, k + 1); }
  }

  lemma {:induction false} PlainKinds(text: seq<byte>, i: nat, list: seq<Segment>)
    requires WellSplit(text, i, list) && forall j :: 0 <= j < |text| ==> IsText(text[j])
    ensures forall j :: 0 <= j < |list| ==> list[j].kind != B
    ensures forall j :: 0 < j < |list| ==> list[j - 1].kind != list[j].kind
    decreases |list|
  {
    if list != [] {
      var rest := list[1..];
      PlainKinds(text, list[0].end, rest);
      assert Label(text, list[0].start) == list[0].kind;
      forall j | 0 <= j < |list| ensures list[j].kind != B {
        if j > 0 { assert list[j] == rest[j - 1]; }
      }
      forall j | 0 < j < |list| ensures list[j - 1].kind != list[j].kind {
        assert list[j] == rest[j - 1];
        if j > 1 { assert list[j - 1] == rest[j - 2]; }
      }
    }
  }

  // In text of printable characters, CR, LF and TAB no merge can fire.
  lemma PlainTextIsKept(text: seq<byte>)
    requires forall i :: 0 <= i < |text| ==> 32 <= text[i] <= 126 || text[i] == 9 || text[i] == 10 || text[i] == 13
    ensures AfterBinary(text) == Runs(text, 0) && !LosesText(text)
  {
    hide Runs, WellSplit;
    var list := Runs(text, 0);
    RunsWellSplit(text, 0);
    PlainKinds(text, 0, list);
    NothingShort(list, 0);
    NothingFires(TextPass, list, 0);
    NothingFires(BinaryPass, list, 0);
  }

  // Five letters between two bytes: the text pass takes the first byte in and
  // drops the last one.
  lemma LostByteExample()
    ensures var text: seq<byte> := [128, 104, 101, 108, 108, 111, 128];
            LosesText(text) && EndOf(AfterBinary(text)) == 6
  {
    hide RunPass, RunShort, LosesTail, Runs;
    var text: seq<byte> := [128, 104, 101, 108, 108, 111, 128];
    forall i | 0 <= i < |text| ensures !InLongRun(text, i) {}
    RunsStep(text, 0, 1);
    RunsStep(text, 1, 6);
    RunsStep(text, 6, 7);
    RunsAtEnd(text);
    var list := [Segment(B, 0, 1), Segment(T, 1, 6), Segment(B, 6, 7)];
    assert Runs(text, 0) == list;
    ExampleShort(list);
    ExamplePass(list);
  }

  // Three letters on either side of a NUL: the lone byte is merged away.
  lemma NulExample()
    ensures var text: seq<byte> := [97, 98, 99, 0, 100, 101, 102];
            Segments(text) == [Segment(T, 0, 7)] && !LosesText(text)
  {
    hide RunPass, RunShort, LosesTail, Runs, AllNumbers;
    var text: seq<byte> := [97, 98, 99, 0, 100, 101, 102];
    forall i | 0 <= i < |text| ensures !InLongRun(text, i) {}
    RunsStep(text, 0, 3);
    RunsStep(text, 3, 4);
    RunsStep(text, 4, 7);
    RunsAtEnd(text);
    var list, one := [Segment(T, 0, 3), Segment(B, 3, 4), Segment(T, 4, 7)], [Segment(T, 0, 7)];
    assert Runs(text, 0) == list;
    NulExampleShort(list, one);
    forall m: Pass ensures RunPass(m, one, 0) == one && !LosesTail(m, one, 0) {
      NothingFires(m, one, 0);
    }
    SevenStay(text, one);
  }

  lemma NulExampleShort(list: seq<Segment>, one: seq<Segment>)
    requires list == [Segment(T, 0, 3), Segment(B, 3, 4), Segment(T, 4, 7)] && one == [Segment(T, 0, 7)]
    ensures RunShort(list, 0) == one
  {
    assert ShortStep(list, 1) == one;
    assert RunShort(one, 1) == one && RunShort(one, 0) == one;
    assert RunShort(list, 1) == one;
  }

  lemma SevenStay(text: seq<byte>, list: seq<Segment>)
    requires list == [Segment(T, 0, 7)] && |text| == 7
    ensures AllNumbers(text, list) == list
  {}

  lemma ExampleShort(list: seq<Segment>)
    requires list == [Segment(B, 0, 1), Segment(T, 1, 6), Segment(B, 6, 7)]
    ensures RunShort(list, 0) == list
  {
    assert RunShort(list, 3) == list;
    assert RunShort(list, 2) == list;
    assert RunShort(list, 1) == list;
  }

  lemma ExamplePass(list: seq<Segment>)
    requires list == [Segment(B, 0, 1), Segment(T, 1, 6), Segment(B, 6, 7)]
    ensures LosesTail(TextPass, list, 0)
    ensures var r := RunPass(BinaryPass, RunPass(TextPass, list, 0), 0); r == [Segment(T, 0, 6)]
  {
    var one := [Segment(T, 0, 6)];
    assert Step(TextPass, list, 1) == one;
    assert DropsTail(TextPass, list, 1);
    assert RunPass(TextPass, one, 1) == one && RunPass(TextPass, one, 0) == one;
    assert RunPass(TextPass, list, 1) == one;
    assert LosesTail(TextPass, list, 1);
    assert RunPass(BinaryPass, one, 1) == one && RunPass(BinaryPass, one, 0) == one;
  }
}
