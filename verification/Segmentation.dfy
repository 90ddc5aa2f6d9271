// breakString: the segment list, the digit-run split, and the merge passes.

module Segmentation {
  import opened Octets
  import opened Pdf417

  datatype Kind = T | B | N

  datatype Segment = Segment(kind: Kind, start: int, end: int) {
    function Length(): int { end - start }
  }

  const NO_SEGMENT := Segment(T, 0, 0)

  // ----- The array list -----

  // Pointers into the list are indices; NULL is -1. The slots from size on
  // keep whatever was last stored in them.
  class ArrayList {
    var store: array<Segment>
    var size: nat

    ghost predicate Valid()
      reads this
    {
      size <= store.Length && 0 < store.Length
    }

    ghost function Elements(): (s: seq<Segment>)
      requires Valid()
      reads this, store
    {
      store[..size]
    }

    constructor ()
      ensures Valid() && Elements() == [] && fresh(store)
    {
      store := new Segment[20](i => NO_SEGMENT);
      size := 0;
    }

    method Add(kind: Kind, start: int, end: int)
      requires Valid()
      modifies this, store
      ensures Valid() && (store == old(store) || fresh(store))
      ensures Elements() == old(Elements()) + [Segment(kind, start, end)]
    {
      if size == store.Length {
        var temp := new Segment[store.Length * 2](i => NO_SEGMENT);
        for i := 0 to size
          invariant size == old(size) && store == old(store) && temp != store
          invariant store[..] == old(store[..])
          invariant temp[..i] == store[..i]
        {
          temp[i] := store[i];
        }
        store := temp;
      }
      store[size] := Segment(kind, start, end);
      size := size + 1;
    }

    // The index of an element, or -1 for NULL.
    function Get(idx: int): (i: int)
      requires Valid()
      reads this
      ensures -1 <= i < size && (0 <= idx < size ==> i == idx) && (i >= 0 ==> i == idx)
    {
      if idx >= size || idx < 0 then -1 else idx
    }

    method Remove(idx: int)
      requires Valid()
      modifies this`size, store
      ensures Valid() && store == old(store)
      ensures !(0 <= idx < old(size)) ==> size == old(size) && store[..] == old(store[..])
      ensures 0 <= idx < old(size) ==>
        && size == old(size) - 1
        && Elements() == old(Elements()[..idx] + Elements()[idx + 1..])
        // memmove leaves the last slot, and all beyond it, as they were
        && store[size..] == old(store[size - 1..])
    {
      if idx >= size || idx < 0 {
        return;
      }
      size := size - 1;
      for i := idx to size
        invariant size == old(size) - 1 && store == old(store)
        invariant forall j :: 0 <= j < idx ==> store[j] == old(store[j])
        invariant forall j :: idx <= j < i ==> store[j] == old(store[j + 1])
        invariant forall j :: i <= j < store.Length ==> store[j] == old(store[j])
      {
        store[i] := store[i + 1];
      }
    }
  }

  // ----- Splitting into digit runs, text runs and byte runs -----

  predicate IsText(c: byte) {
    32 <= c < 127 || c == 13 || c == 10 || c == 9
  }

  const LONG_RUN := 13

  ghost predicate DigitsFrom(text: seq<byte>, a: nat, b: nat) {
    b <= |text| && forall j :: a <= j < b ==> IsDigit(text[j])
  }

  ghost predicate ThirteenDigits(text: seq<byte>, a: nat) {
    DigitsFrom(text, a, a + LONG_RUN)
  }

  // Is position i inside a run of at least 13 digits?
  ghost predicate InLongRun(text: seq<byte>, i: nat) {
    exists a: nat :: a <= i < a + LONG_RUN && ThirteenDigits(text, a)
  }

  ghost function Label(text: seq<byte>, i: nat): Kind
    requires i < |text|
  {
    if InLongRun(text, i) then N else if IsText(text[i]) then T else B
  }

  ghost predicate SameLabel(text: seq<byte>, kind: Kind, i: nat, j: nat) {
    j <= |text| && forall x :: i <= x < j ==> Label(text, x) == kind
  }

  // The end of the longest stretch from i on with one label.
  ghost function RunEnd(text: seq<byte>, i: nat, j: nat): (e: nat)
    requires i < j <= |text| && SameLabel(text, Label(text, i), i, j)
    ensures j <= e <= |text| && SameLabel(text, Label(text, i), i, e)
    ensures e == |text| || Label(text, e) != Label(text, i)
    decreases |text| - j
  {
    if j < |text| && Label(text, j) == Label(text, i) then RunEnd(text, i, j + 1) else j
  }

  // The text from i on, cut wherever the label changes.
  ghost function Runs(text: seq<byte>, i: nat): seq<Segment>
    requires i <= |text|
    decreases |text| - i
  {
    if i == |text| then []
    else
      var e := RunEnd(text, i, i + 1);
      [Segment(Label(text, i), i, e)] + Runs(text, e)
  }

  lemma RunEndIs(text: seq<byte>, i: nat, j: nat)
    requires i < j <= |text| && SameLabel(text, Label(text, i), i, j)
    requires j == |text| || Label(text, j) != Label(text, i)
    ensures RunEnd(text, i, i + 1) == j
  {
  }

  lemma RunsStep(text: seq<byte>, i: nat, j: nat)
    requires i < j <= |text| && SameLabel(text, Label(text, i), i, j)
    requires j == |text| || Label(text, j) != Label(text, i)
    ensures Runs(text, i) == [Segment(Label(text, i), i, j)] + Runs(text, j)
  {
    RunEndIs(text, i, j);
  }

  // Cuts text[lastP..startN], which no long digit run meets, wherever it
  // changes between text and other bytes.
  method SplitRange(text: seq<byte>, list: ArrayList, lastP0: nat, startN: nat)
    requires list.Valid() && lastP0 < startN <= |text|
    requires forall i :: lastP0 <= i < startN ==> !InLongRun(text, i)
    requires startN < |text| ==> InLongRun(text, startN)
    modifies list, list.store
    ensures list.Valid() && (list.store == old(list.store) || fresh(list.store))
    ensures list.Elements() + Runs(text, startN) == old(list.Elements()) + Runs(text, lastP0)
  {
    hide Runs, RunEnd, InLongRun;
    var lastP := lastP0;
    var lastTxt := IsText(text[lastP]);
    for j := lastP to startN
      invariant lastP0 <= lastP <= j && (j > lastP0 ==> lastP < j)
      invariant list.Valid() && (list.store == old(list.store) || fresh(list.store))
      invariant lastP < startN && lastTxt == IsText(text[lastP])
      invariant SameLabel(text, if lastTxt then T else B, lastP, j)
      invariant list.Elements() + Runs(text, lastP) == old(list.Elements()) + Runs(text, lastP0)
    {
      var txt := IsText(text[j]);
      if txt != lastTxt {
        ghost var before := list.Elements();
        RunsStep(text, lastP, j);
        list.Add(if lastTxt then T else B, lastP, j);
        assert (before + [Segment(if lastTxt then T else B, lastP, j)]) + Runs(text, j) == before + Runs(text, lastP);
        lastP := j;
        lastTxt := txt;
      }
    }
    ghost var before := list.Elements();
    RunsStep(text, lastP, startN);
    list.Add(if lastTxt then T else B, lastP, startN);
    assert (before + [Segment(if lastTxt then T else B, lastP, startN)]) + Runs(text, startN)
           == before + Runs(text, lastP);
  }

  // A maximal stretch of digits [a, b) is a long run exactly from 13 digits.
  lemma DigitStretch(text: seq<byte>, a: nat, b: nat, i: nat)
    requires a <= i < b && DigitsFrom(text, a, b)
    requires a == 0 || !IsDigit(text[a - 1])
    requires b == |text| || !IsDigit(text[b])
    ensures InLongRun(text, i) <==> b - a >= LONG_RUN
  {
    if b - a >= LONG_RUN {
      var s := if i + LONG_RUN <= b then i else b - LONG_RUN;
      assert ThirteenDigits(text, s);
    }
    forall s: nat | s <= i < s + LONG_RUN && ThirteenDigits(text, s)
      ensures a <= s && s + LONG_RUN <= b
    {}
  }

  lemma NonDigitNotLong(text: seq<byte>, i: nat)
    requires i < |text| && !IsDigit(text[i])
    ensures !InLongRun(text, i)
  {
  }

  // The stretch of digits right before k: none of it, or all of it, is in a
  // long run.
  lemma StretchLabels(text: seq<byte>, k: nat, nd: nat)
    requires nd <= k && DigitsFrom(text, k - nd, k)
    requires k - nd == 0 || !IsDigit(text[k - nd - 1])
    requires k == |text| || !IsDigit(text[k])
    ensures forall i :: k - nd <= i < k ==> (InLongRun(text, i) <==> nd >= LONG_RUN)
    ensures k < |text| ==> !InLongRun(text, k)
  {
    hide InLongRun;
    forall i | k - nd <= i < k ensures InLongRun(text, i) <==> nd >= LONG_RUN {
      DigitStretch(text, k - nd, k, i);
    }
    if k < |text| { NonDigitNotLong(text, k); }
  }

  // Adds what precedes a long digit run, and the run.
  method AddRun(text: seq<byte>, list: ArrayList, lastP: nat, startN: nat, k: nat)
    requires list.Valid() && lastP <= startN < k <= |text|
    requires forall i :: lastP <= i < startN ==> !InLongRun(text, i)
    requires forall i :: startN <= i < k ==> InLongRun(text, i)
    requires k < |text| ==> !InLongRun(text, k)
    modifies list, list.store
    ensures list.Valid() && (list.store == old(list.store) || fresh(list.store))
    ensures list.Elements() + Runs(text, k) == old(list.Elements()) + Runs(text, lastP)
  {
    hide Runs, RunEnd, InLongRun;
    if lastP != startN {
      SplitRange(text, list, lastP, startN);
    }
    ghost var before := list.Elements();
    RunsStep(text, startN, k);
    list.Add(N, startN, k);
    assert (before + [Segment(N, startN, k)]) + Runs(text, k) == before + ([Segment(N, startN, k)] + Runs(text, k));
  }

  // The first part of breakString.
  method Split(text: seq<byte>, list: ArrayList)
    requires list.Valid() && list.size == 0
    modifies list, list.store
    ensures list.Valid() && (list.store == old(list.store) || fresh(list.store))
    ensures list.Elements() == Runs(text, 0)
  {
    hide Runs, RunEnd, InLongRun;
    var lastP, startN, nd := 0, 0, 0;
    assert list.Elements() == [];
    for k := 0 to |text|
      invariant list.Valid() && (list.store == old(list.store) || fresh(list.store))
      invariant 0 <= nd <= k && lastP <= k - nd && (nd > 0 ==> startN == k - nd)
      invariant DigitsFrom(text, k - nd, k) && (k - nd == 0 || !IsDigit(text[k - nd - 1]))
      invariant forall i :: lastP <= i < k - nd ==> !InLongRun(text, i)
      invariant list.Elements() + Runs(text, lastP) == Runs(text, 0)
    {
      if IsDigit(text[k]) {
        if nd == 0 {
          startN := k;
        }
        nd := nd + 1;
      } else {
        StretchLabels(text, k, nd);
        if nd >= LONG_RUN {
          AddRun(text, list, lastP, startN, k);
          lastP := k;
        }
        nd := 0;
      }
    }
    StretchLabels(text, |text|, nd);
    RunsAtEnd(text);
    if nd >= LONG_RUN {
      AddRun(text, list, lastP, startN, |text|);
    } else {
      startN := |text|;
      if lastP != startN {
        SplitRange(text, list, lastP, startN);
      }
    }
  }

  lemma RunsAtEnd(text: seq<byte>)
    ensures Runs(text, |text|) == []
  {}
}
