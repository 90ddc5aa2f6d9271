// The merge passes of breakString over the segment list. A pass restarts from
// the first segment after every merge. Its pointers stay fixed while removals
// shift the list under them, so a step that merges on both sides reads and
// drops the wrong neighbour; the lemmas say exactly what that costs.

module Merging {
  import opened Segmentation

  datatype Pass = TextPass | BinaryPass

  // The segments a pass grows, and the neighbours it grows them over.
  predicate Eligible(m: Pass, s: Segment) {
    match m
    case TextPass => s.kind == T && s.Length() >= 5
    case BinaryPass => s.kind == B
  }

  predicate Absorbs(m: Pass, s: Segment) {
    match m
    case TextPass => (s.kind == B && s.Length() == 1) || s.kind == T
    case BinaryPass => (s.kind == T && s.Length() < 5) || s.kind == B
  }

  // Does segment k take over the one before it?
  predicate TakesLeft(m: Pass, list: seq<Segment>, k: nat)
    requires k < |list|
  {
    k > 0 && Absorbs(m, list[k - 1])
  }

  // The segment that the pointer to the next one reads: after the list has
  // shifted it is the one after the next, or the stale copy of the last.
  function Probe(m: Pass, list: seq<Segment>, k: nat): Segment
    requires k + 1 < |list|
  {
    if TakesLeft(m, list, k) && k + 2 < |list| then list[k + 2] else list[k + 1]
  }

  predicate TakesRight(m: Pass, list: seq<Segment>, k: nat)
    requires k < |list|
  {
    k + 1 < |list| && Absorbs(m, Probe(m, list, k))
  }

  predicate Fires(m: Pass, list: seq<Segment>, k: nat)
    requires k < |list|
  {
    Eligible(m, list[k]) && (TakesLeft(m, list, k) || TakesRight(m, list, k))
  }

  function Step(m: Pass, list: seq<Segment>, k: nat): (r: seq<Segment>)
    requires k < |list| && Fires(m, list, k)
    ensures |r| < |list|
  {
    var v := list[k];
    if TakesLeft(m, list, k) then
      list[..k - 1] + [Segment(v.kind, list[k - 1].start, v.end)]
      + list[if TakesRight(m, list, k) then k + 2 else k + 1..]
    else
      list[..k] + [Segment(v.kind, v.start, list[k + 1].end)] + list[k + 2..]
  }

  // The list after the pass, from position k on.
  function RunPass(m: Pass, list: seq<Segment>, k: nat): seq<Segment>
    decreases |list|, |list| - k
  {
    if k >= |list| then list
    else if Fires(m, list, k) then RunPass(m, Step(m, list, k), 0)
    else RunPass(m, list, k + 1)
  }

  // ----- The code -----

  function LeftMerged(was: seq<Segment>, k: nat): seq<Segment>
    requires 0 < k < |was|
  {
    was[..k - 1] + [Segment(was[k].kind, was[k - 1].start, was[k].end)] + was[k + 1..]
  }

  // The left merge, and what the fixed pointers to segments k and k + 1 see
  // after it.
  method MergeLeft(list: ArrayList, k: nat)
    requires list.Valid() && 0 < k < list.size
    modifies list`size, list.store
    ensures list.Valid() && list.store == old(list.store) && list.size == old(list.size) - 1
    ensures var was := old(list.Elements());
            && list.Elements() == LeftMerged(was, k)
            && (k + 1 < |was| ==> list.store[k] == was[k + 1]
                                  && list.store[k + 1] == if k + 2 < |was| then was[k + 2] else was[k + 1])
  {
    ghost var was := list.Elements();
    list.store[k] := list.store[k].(start := list.store[k - 1].start);
    ghost var now := list.Elements();
    assert now == was[k := Segment(was[k].kind, was[k - 1].start, was[k].end)];
    ghost var slots := list.store[|was| - 1..];
    assert slots[0] == list.store[|was| - 1] == now[|was| - 1];
    list.Remove(k - 1);
    assert list.store[list.size..] == slots && list.store[list.size..][0] == list.store[list.size];
    assert list.Elements() == now[..k - 1] + now[k..];
    assert now[k..] == [now[k]] + was[k + 1..];
    if k + 1 < |was| {
      assert list.store[k] == list.Elements()[k];
      if k + 2 < |was| {
        assert list.store[k + 1] == list.Elements()[k + 1];
      }
    }
  }

  // The right merge through the pointers v and vn, when the list has k before
  // the segment that is removed.
  method MergeRight(list: ArrayList, v: nat, vn: nat, k: nat)
    requires list.Valid() && v < list.store.Length && vn < list.store.Length
    requires k + 1 < list.size && (v == k || v == k + 1)
    modifies list`size, list.store
    ensures list.Valid() && list.store == old(list.store)
    ensures var was := old(list.Elements());
            list.Elements()
            == was[..k] + [if v == k then was[k].(end := old(list.store[vn]).end) else was[k]] + was[k + 2..]
  {
    ghost var was := list.Elements();
    list.store[v] := list.store[v].(end := list.store[vn].end);
    list.Remove(k + 1);
  }

  lemma DropSecond(was: seq<Segment>, k0: nat, k: nat)
    requires k0 + 1 < |was| && k + 1 == k0
    ensures var mid := LeftMerged(was, k0);
            mid[..k] + [mid[k]] + mid[k + 2..]
            == was[..k] + [Segment(was[k0].kind, was[k].start, was[k0].end)] + was[k0 + 2..]
  {}

  method MergeAt(list: ArrayList, m: Pass, k0: nat) returns (redo: bool)
    requires list.Valid() && k0 < list.size
    modifies list`size, list.store
    ensures list.Valid() && list.store == old(list.store)
    ensures redo == Fires(m, old(list.Elements()), k0)
    ensures list.Elements() == if redo then Step(m, old(list.Elements()), k0) else old(list.Elements())
  {
    hide Eligible, Absorbs;
    ghost var was := list.Elements();
    var k: int := k0;
    var v, vp, vn := list.Get(k), list.Get(k - 1), list.Get(k + 1);
    redo := false;
    if Eligible(m, list.store[v]) {
      if vp != -1 && Absorbs(m, list.store[vp]) {
        redo := true;
        MergeLeft(list, k);
        k := k - 1;
      }
      if vn != -1 && Absorbs(m, list.store[vn]) {
        redo := true;
        if k < k0 { DropSecond(was, k0, k); }
        MergeRight(list, v, vn, k);
      }
    }
  }

  method MergePass(list: ArrayList, m: Pass)
    requires list.Valid()
    modifies list`size, list.store
    ensures list.Valid() && list.store == old(list.store)
    ensures list.Elements() == RunPass(m, old(list.Elements()), 0)
  {
    hide Fires, Step;
    var k := 0;
    while k < list.size
      invariant list.Valid() && list.store == old(list.store)
      invariant RunPass(m, list.Elements(), k) == RunPass(m, old(list.Elements()), 0)
      decreases list.size, list.size - k
    {
      var redo := MergeAt(list, m, k);
      k := if redo then 0 else k + 1;
    }
  }

  // ----- The first pass: a lone byte between two texts -----

  predicate ShortFires(list: seq<Segment>, k: nat)
    requires k < |list|
  {
    && list[k].kind == B && list[k].Length() == 1
    && 0 < k && k + 1 < |list| && list[k - 1].kind == T && list[k + 1].kind == T
    && list[k - 1].Length() + list[k + 1].Length() >= 3
  }

  function ShortStep(list: seq<Segment>, k: nat): seq<Segment>
    requires 0 < k && k + 1 < |list|
  {
    list[..k - 1] + [Segment(list[k - 1].kind, list[k - 1].start, list[k + 1].end)] + list[k + 2..]
  }

  function RunShort(list: seq<Segment>, k: nat): seq<Segment>
    decreases |list|, |list| - k
  {
    if k >= |list| then list
    else if ShortFires(list, k) then RunShort(ShortStep(list, k), 0)
    else RunShort(list, k + 1)
  }

  method ShortAt(list: ArrayList, k: nat)
    requires list.Valid() && k < list.size && ShortFires(list.Elements(), k)
    modifies list`size, list.store
    ensures list.Valid() && list.store == old(list.store)
    ensures list.Elements() == ShortStep(old(list.Elements()), k) && list.size == old(list.size) - 2
  {
    list.store[k - 1] := list.store[k - 1].(end := list.store[k + 1].end);
    list.Remove(k);
    list.Remove(k);
  }

  method ShortPass(list: ArrayList)
    requires list.Valid()
    modifies list`size, list.store
    ensures list.Valid() && list.store == old(list.store)
    ensures list.Elements() == RunShort(old(list.Elements()), 0)
  {
    hide ShortStep;
    var k := 0;
    while k < list.size
      invariant list.Valid() && list.store == old(list.store)
      invariant RunShort(list.Elements(), k) == RunShort(old(list.Elements()), 0)
      decreases list.size, list.size - k
    {
      var v, vp, vn := list.Get(k), list.Get(k - 1), list.Get(k + 1);
      if list.store[v].kind == B && list.store[v].Length() == 1
         && vp != -1 && list.store[vp].kind == T && vn != -1 && list.store[vn].kind == T
         && list.store[vp].Length() + list.store[vn].Length() >= 3 {
        ShortAt(list, k);
        k := 0;
      } else {
        k := k + 1;
      }
    }
  }

  // ----- What the passes keep -----

  function EndOf(list: seq<Segment>): int {
    if list == [] then 0 else list[|list| - 1].end
  }

  // Neighbours that touch, or that the pass will merge over the gap.
  ghost predicate Linked(m: Pass, s: Segment, t: Segment) {
    s.end == t.start || (s.end < t.start && Eligible(m, s) && Absorbs(m, t))
  }

  // A list that may skip text, but only between a segment the pass will grow
  // and a neighbour it will grow over.
  ghost predicate Mended(m: Pass, list: seq<Segment>) {
    && (forall i :: 0 <= i < |list| ==> list[i].start < list[i].end)
    && (list != [] ==> list[0].start == 0)
    && (forall i :: 0 < i < |list| ==> Linked(m, list[i - 1], list[i]))
  }

  // Nonempty segments, one after the other, from the first character on.
  ghost predicate Contiguous(list: seq<Segment>) {
    && (forall i :: 0 <= i < |list| ==> list[i].start < list[i].end)
    && (list != [] ==> list[0].start == 0)
    && (forall i :: 0 < i < |list| ==> list[i - 1].end == list[i].start)
  }

  // The step that merges on both sides of the segment before the last.
  predicate DropsTail(m: Pass, list: seq<Segment>, k: nat)
    requires k < |list|
  {
    Fires(m, list, k) && TakesLeft(m, list, k) && TakesRight(m, list, k) && k + 2 == |list|
  }

  // Segments a and a + 1 become x, and what follows starts at b: the next
  // segment, or the one after it when that one will be absorbed.
  lemma SpliceMended(m: Pass, list: seq<Segment>, a: nat, x: Segment, b: nat)
    requires Mended(m, list) && a + 1 < |list| && a + 2 <= b <= |list|
    requires x.start == list[a].start && x.end == list[a + 1].end
    requires Eligible(m, x)
    requires b == a + 2 || (b == a + 3 && (b < |list| ==> Absorbs(m, list[b])))
    ensures Mended(m, list[..a] + [x] + list[b..])
  {
    hide Eligible, Absorbs, Linked;
    EligibleAbsorbs(m, x);
    var r := list[..a] + [x] + list[b..];
    assert forall i :: 0 <= i < a ==> r[i] == list[i];
    assert r[a] == x;
    assert forall i :: a < i < |r| ==> r[i] == list[i - a - 1 + b];
    SpliceLinked(m, list, a, x, b);
    forall i | 0 < i < |r| ensures Linked(m, r[i - 1], r[i]) {
      if i < a {
        assert Linked(m, list[i - 1], list[i]);
      } else if i > a + 1 {
        assert Linked(m, list[i - a - 1 + b - 1], list[i - a - 1 + b]);
      }
    }
    assert x.start < x.end by { LinkedOrder(m, list[a], list[a + 1]); }
  }

  lemma LinkedOrder(m: Pass, s: Segment, t: Segment)
    requires Linked(m, s, t)
    ensures s.end <= t.start
  {}

  lemma SpliceLinked(m: Pass, list: seq<Segment>, a: nat, x: Segment, b: nat)
    requires Mended(m, list) && a + 1 < |list| && a + 2 <= b <= |list|
    requires x.start == list[a].start && x.end == list[a + 1].end
    requires Eligible(m, x) && Absorbs(m, x)
    requires b == a + 2 || (b == a + 3 && (b < |list| ==> Absorbs(m, list[b])))
    ensures a > 0 ==> Linked(m, list[a - 1], x)
    ensures b < |list| ==> Linked(m, x, list[b])
  {
    hide Eligible, Absorbs;
    if b < |list| {
      assert Linked(m, list[b - 1], list[b]);
      if b == a + 3 {
        assert Linked(m, list[a + 1], list[a + 2]);
      }
    }
  }

  lemma EligibleAbsorbs(m: Pass, s: Segment)
    requires Eligible(m, s)
    ensures Absorbs(m, s)
  {}

  lemma EligibleGrows(m: Pass, s: Segment, x: Segment)
    requires Eligible(m, s) && x.kind == s.kind && x.start <= s.start && s.end <= x.end
    ensures Eligible(m, x)
  {}

  lemma StepStaysMended(m: Pass, list: seq<Segment>, k: nat)
    requires Mended(m, list) && k < |list| && Fires(m, list, k)
    ensures Mended(m, Step(m, list, k)) && Step(m, list, k) != []
  {
    hide Eligible, Absorbs, Linked;
    if TakesLeft(m, list, k) {
      var x := Segment(list[k].kind, list[k - 1].start, list[k].end);
      LinkedOrder(m, list[k - 1], list[k]);
      EligibleGrows(m, list[k], x);
      SpliceMended(m, list, k - 1, x, if TakesRight(m, list, k) then k + 2 else k + 1);
    } else {
      var x := Segment(list[k].kind, list[k].start, list[k + 1].end);
      LinkedOrder(m, list[k], list[k + 1]);
      EligibleGrows(m, list[k], x);
      SpliceMended(m, list, k, x, k + 2);
    }
  }

  lemma StepEnd(m: Pass, list: seq<Segment>, k: nat)
    requires Mended(m, list) && k < |list| && Fires(m, list, k)
    ensures EndOf(Step(m, list, k)) <= EndOf(list)
    ensures EndOf(Step(m, list, k)) == EndOf(list) <==> !DropsTail(m, list, k)
  {
    hide Eligible, Absorbs, Linked;
    if k + 1 < |list| {
      LinkedOrder(m, list[k], list[k + 1]);
    }
  }

  // No segment before k has anything to merge.
  ghost predicate Settled(m: Pass, list: seq<Segment>, k: nat) {
    k <= |list| && forall i :: 0 <= i < k ==> !Fires(m, list, i)
  }

  lemma GapFires(m: Pass, list: seq<Segment>, i: nat)
    requires Mended(m, list) && 0 < i < |list| && list[i - 1].end < list[i].start
    ensures Fires(m, list, i - 1)
  {
    hide Eligible, Absorbs;
    assert Linked(m, list[i - 1], list[i]);
  }

  lemma SettledIsContiguous(m: Pass, list: seq<Segment>)
    requires Mended(m, list) && Settled(m, list, |list|)
    ensures Contiguous(list)
  {
    hide Eligible, Absorbs;
    forall i | 0 < i < |list| ensures list[i - 1].end == list[i].start {
      if list[i - 1].end < list[i].start {
        GapFires(m, list, i);
        assert false;
      }
    }
  }

  // Does the pass, on its way from position k, drop the tail of the list?
  predicate LosesTail(m: Pass, list: seq<Segment>, k: nat)
    decreases |list|, |list| - k
  {
    if k >= |list| then false
    else if Fires(m, list, k) then DropsTail(m, list, k) || LosesTail(m, Step(m, list, k), 0)
    else LosesTail(m, list, k + 1)
  }

  // A pass over a gap-free list ends in a gap-free list: whatever a two-sided
  // merge skipped is taken up again, unless it was the end of the list.
  lemma {:induction false} PassKeepsAPrefix(m: Pass, list: seq<Segment>, k: nat)
    requires Mended(m, list) && Settled(m, list, k)
    ensures Contiguous(RunPass(m, list, k))
    ensures EndOf(RunPass(m, list, k)) <= EndOf(list)
    ensures EndOf(RunPass(m, list, k)) == EndOf(list) <==> !LosesTail(m, list, k)
    ensures list != [] ==> RunPass(m, list, k) != []
    decreases |list|, |list| - k
  {
    hide Fires, Step, DropsTail, Mended, Contiguous, EndOf;
    if k >= |list| {
      SettledIsContiguous(m, list);
    } else if Fires(m, list, k) {
      StepStaysMended(m, list, k);
      StepEnd(m, list, k);
      PassKeepsAPrefix(m, Step(m, list, k), 0);
    } else {
      PassKeepsAPrefix(m, list, k + 1);
    }
  }

  lemma ContiguousIsMended(m: Pass, list: seq<Segment>)
    requires Contiguous(list)
    ensures Mended(m, list)
  {}

  // ----- One step, position by position -----

  ghost predicate Holds(s: Segment, i: int) {
    s.start <= i < s.end
  }

  ghost predicate Covers(list: seq<Segment>, i: int) {
    exists j :: 0 <= j < |list| && Holds(list[j], i)
  }

  // A one-sided merge of a gap-free list covers the same text; a two-sided
  // one loses exactly the segment that followed.
  lemma StepCoverage(m: Pass, list: seq<Segment>, k: nat, i: int)
    requires Contiguous(list) && k < |list| && Fires(m, list, k)
    ensures Covers(Step(m, list, k), i)
            <==> Covers(list, i) && !(TakesLeft(m, list, k) && TakesRight(m, list, k) && Holds(list[k + 1], i))
  {
    hide Eligible, Absorbs;
    var a := if TakesLeft(m, list, k) then k - 1 else k;
    var b := if TakesLeft(m, list, k) && !TakesRight(m, list, k) then k + 1 else k + 2;
    var x := Step(m, list, k)[a];
    assert Step(m, list, k) == list[..a] + [x] + list[b..];
    SpliceCoverage(list, a, x, b, i);
  }

  lemma SpliceCoverage(list: seq<Segment>, a: nat, x: Segment, b: nat, i: int)
    requires Contiguous(list) && a + 1 < |list| && a + 2 <= b <= a + 3 && b <= |list|
    requires x.start == list[a].start && x.end == list[a + 1].end
    ensures Covers(list[..a] + [x] + list[b..], i) <==> Covers(list, i) && !(b == a + 3 && Holds(list[a + 2], i))
  {
    hide Contiguous;
    if Covers(list[..a] + [x] + list[b..], i) { SpliceCoversLess(list, a, x, b, i); }
    if Covers(list, i) && !(b == a + 3 && Holds(list[a + 2], i)) { SpliceCoversRest(list, a, x, b, i); }
  }

  lemma SpliceCoversLess(list: seq<Segment>, a: nat, x: Segment, b: nat, i: int)
    requires Contiguous(list) && a + 1 < |list| && a + 2 <= b <= a + 3 && b <= |list|
    requires x.start == list[a].start && x.end == list[a + 1].end
    requires Covers(list[..a] + [x] + list[b..], i)
    ensures Covers(list, i) && !(b == a + 3 && Holds(list[a + 2], i))
  {
    var r := list[..a] + [x] + list[b..];
    assert list[a].end == list[a + 1].start;
    var j :| 0 <= j < |r| && Holds(r[j], i);
    var j' := if j < a then j else if j > a then j - a - 1 + b else if i < list[a].end then a else a + 1;
    assert j != a ==> r[j] == list[j'];
    hide Contiguous;
    assert Holds(list[j'], i);
    if b == a + 3 { OnlyOne(list, j', a + 2, i); }
  }

  lemma SpliceCoversRest(list: seq<Segment>, a: nat, x: Segment, b: nat, i: int)
    requires Contiguous(list) && a + 1 < |list| && a + 2 <= b <= a + 3 && b <= |list|
    requires x.start == list[a].start && x.end == list[a + 1].end
    requires Covers(list, i) && !(b == a + 3 && Holds(list[a + 2], i))
    ensures Covers(list[..a] + [x] + list[b..], i)
  {
    var r := list[..a] + [x] + list[b..];
    assert list[a].end == list[a + 1].start && list[a].start < list[a].end && list[a + 1].start < list[a + 1].end;
    var j :| 0 <= j < |list| && Holds(list[j], i);
    hide Contiguous;
    var j' := if j < a then j else if j <= a + 1 then a else j - b + a + 1;
    assert r[j'] == if j < a then list[j] else if j <= a + 1 then x else list[j];
    assert Holds(r[j'], i);
  }

  lemma {:induction false} Increasing(list: seq<Segment>, i: nat, j: nat)
    requires Contiguous(list) && i < j < |list|
    ensures list[i].end <= list[j].start
    decreases j
  {
    if i + 1 < j { Increasing(list, i, j - 1); }
  }

  lemma OnlyOne(list: seq<Segment>, j: nat, k: nat, i: int)
    requires Contiguous(list) && j < |list| && k < |list| && j != k && Holds(list[j], i)
    ensures !Holds(list[k], i)
  {
    if j < k { Increasing(list, j, k); } else { Increasing(list, k, j); }
  }
}
