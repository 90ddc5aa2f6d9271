// Which texts lose their end in the merge passes: one walk over the segments
// that the first pass leaves, group by group between the numbers, decides it.

module TailLoss {
  import opened Octets
  import opened Segmentation
  import opened Merging
  import opened BreakString
  import opened Stream

  // ----- The walk -----

  // The segments before the first number.
  function GroupEnd(list: seq<Segment>): (e: nat)
    ensures e <= |list| && (e < |list| ==> list[e].kind == N)
    ensures forall i :: 0 <= i < e ==> list[i].kind != N
  {
    if list == [] || list[0].kind == N then 0 else 1 + GroupEnd(list[1..])
  }

  // A group whose second segment grows over its first: a long text after a
  // lone byte in the text pass, bytes after a short text in the binary pass.
  predicate Starts(m: Pass, list: seq<Segment>) {
    |list| >= 2 && list[0].kind != list[1].kind && Absorbs(m, list[0]) && Eligible(m, list[1])
  }

  predicate OneGroup(list: seq<Segment>) {
    GroupEnd(list) == |list|
  }

  // The segments after the first number.
  function NextGroups(list: seq<Segment>): (rest: seq<Segment>)
    requires !OneGroup(list)
    ensures |rest| < |list|
  {
    list[GroupEnd(list) + 1..]
  }

  predicate Begins(m: Pass, list: seq<Segment>) {
    list != [] && Absorbs(m, list[0])
  }

  // Does one pass drop the end? In a group that starts so, the segment after
  // the first two is skipped. If that is a number, it is gone when the next
  // group begins with something to absorb, and the two groups are one; if it
  // is the last segment, it is lost. `carried` is true for a group reached
  // over a lost number.
  predicate PassDropsEnd(m: Pass, list: seq<Segment>, carried: bool)
    decreases |list|
  {
    var starts := !carried && Starts(m, list);
    if OneGroup(list) then starts && |list| == 3 && Absorbs(m, list[2])
    else PassDropsEnd(m, NextGroups(list), starts && GroupEnd(list) == 2 && Begins(m, NextGroups(list)))
  }

  // Does either pass drop the end? Both are followed at once: a group that
  // starts for the text pass begins with a long text by the time of the other.
  predicate EndIsLost(list: seq<Segment>, inText: bool, inBytes: bool)
    decreases |list|
  {
    var text := !inText && Starts(TextPass, list);
    var bytes := !inText && !inBytes && Starts(BinaryPass, list);
    if OneGroup(list) then
      |list| == 3 && ((text && Absorbs(TextPass, list[2])) || (bytes && Absorbs(BinaryPass, list[2])))
    else
      EndIsLost(NextGroups(list), text && GroupEnd(list) == 2 && Begins(TextPass, NextGroups(list)),
                bytes && GroupEnd(list) == 2 && BeginsWithBytes(NextGroups(list)))
  }

  // Is there something for the binary pass to absorb, once the text pass is
  // through?
  predicate BeginsWithBytes(list: seq<Segment>) {
    Begins(BinaryPass, list) && !Starts(TextPass, list)
  }

  lemma GroupEndIs(list: seq<Segment>, e: nat)
    requires e <= |list| && (e < |list| ==> list[e].kind == N)
    requires forall i :: 0 <= i < e ==> list[i].kind != N
    ensures GroupEnd(list) == e
  {}

  // ----- What the lists of a pass have in common -----

  ghost predicate Regular(m: Pass, list: seq<Segment>) {
    match m
    case TextPass =>
      && (forall i :: 0 < i < |list| ==> !(list[i - 1].kind == B && list[i].kind == B))
      && (forall i :: 0 < i < |list| && list[i - 1].kind == T && list[i].kind == T ==> Eligible(m, list[i - 1]))
      && (forall i :: 1 < i < |list| && list[i - 2].kind == T && Absorbs(m, list[i - 1]) && Eligible(m, list[i])
                      ==> Eligible(m, list[i - 2]))
    case BinaryPass =>
      forall i :: 0 < i < |list| ==> !(list[i - 1].kind == T && list[i].kind == T)
  }

  lemma NumbersStay(m: Pass, s: Segment)
    ensures Eligible(m, s) ==> Absorbs(m, s) && s.kind == (if m == TextPass then T else B)
    ensures s.kind == N ==> !Absorbs(m, s)
  {}

  // With nothing to merge before it, a segment merges to the left only as the
  // second of its group.
  lemma OnlyStartsMergeLeft(m: Pass, list: seq<Segment>, k: nat)
    requires Regular(m, list) && Settled(m, list, k) && k < |list|
    requires Eligible(m, list[k]) && TakesLeft(m, list, k)
    ensures Starts(m, list[k - 1..]) && (k == 1 || list[k - 2].kind == N)
  {
    assert !Fires(m, list, k - 1);
    assert k > 1 ==> !Fires(m, list, k - 2);
  }

  ghost predicate Ordered(list: seq<Segment>) {
    && (forall i :: 0 <= i < |list| ==> list[i].start < list[i].end)
    && (forall i :: 0 < i < |list| ==> list[i - 1].end <= list[i].start)
  }

  lemma MendedIsOrdered(m: Pass, list: seq<Segment>)
    requires Mended(m, list)
    ensures Ordered(list)
  {
    hide Linked;
    forall i | 0 < i < |list| ensures list[i - 1].end <= list[i].start {
      LinkedOrder(m, list[i - 1], list[i]);
    }
  }

  // A step puts one grown segment for two, or for three that lose the last.
  function From(m: Pass, list: seq<Segment>, k: nat): nat
    requires k < |list|
  {
    if TakesLeft(m, list, k) then k - 1 else k
  }

  function UpTo(m: Pass, list: seq<Segment>, k: nat): nat
    requires k < |list|
  {
    if TakesLeft(m, list, k) && !TakesRight(m, list, k) then k + 1 else k + 2
  }

  function Grown(m: Pass, list: seq<Segment>, k: nat): Segment
    requires k < |list| && Fires(m, list, k)
  {
    if TakesLeft(m, list, k) then Segment(list[k].kind, list[k - 1].start, list[k].end)
    else Segment(list[k].kind, list[k].start, list[k + 1].end)
  }

  lemma StepIs(m: Pass, list: seq<Segment>, k: nat)
    requires k < |list| && Fires(m, list, k)
    ensures From(m, list, k) <= k < UpTo(m, list, k) <= |list|
    ensures Step(m, list, k) == list[..From(m, list, k)] + [Grown(m, list, k)] + list[UpTo(m, list, k)..]
    ensures Grown(m, list, k).kind == list[k].kind
  {
    hide Eligible, Absorbs;
  }

  lemma StepShape(m: Pass, list: seq<Segment>, k: nat)
    requires Ordered(list) && k < |list| && Fires(m, list, k)
    ensures From(m, list, k) <= k < UpTo(m, list, k) <= |list|
    ensures Step(m, list, k) == list[..From(m, list, k)] + [Grown(m, list, k)] + list[UpTo(m, list, k)..]
    ensures Grown(m, list, k).kind == list[k].kind && Eligible(m, Grown(m, list, k))
  {
    hide Eligible, Absorbs, Step;
    StepIs(m, list, k);
    EligibleGrows(m, list[k], Grown(m, list, k));
  }

  // Putting a grown segment x for the segments from a up to b keeps a text
  // list regular.
  lemma SpliceRegularText(list: seq<Segment>, a: nat, x: Segment, b: nat)
    requires Regular(TextPass, list) && a < b <= |list| && Eligible(TextPass, x)
    requires Eligible(TextPass, list[a]) || a == 0 || list[a - 1].kind == N
    ensures Regular(TextPass, list[..a] + [x] + list[b..])
  {
    hide Eligible, Absorbs;
    var r := list[..a] + [x] + list[b..];
    assert forall i :: 0 <= i < a ==> r[i] == list[i];
    assert forall i :: a < i < |r| ==> r[i] == list[i - a - 1 + b];
    NumbersStay(TextPass, x);
    NumbersStay(TextPass, list[a]);
    forall i | 0 < i < |r| ensures !(r[i - 1].kind == B && r[i].kind == B) {
      if i > a + 1 { assert list[i - a - 2 + b] == r[i - 1]; }
    }
    forall i | 0 < i < |r| && r[i - 1].kind == T && r[i].kind == T ensures Eligible(TextPass, r[i - 1]) {
      if i > a + 1 { assert list[i - a - 2 + b] == r[i - 1]; }
    }
    forall i | 1 < i < |r| && r[i - 2].kind == T && Absorbs(TextPass, r[i - 1]) && Eligible(TextPass, r[i])
      ensures Eligible(TextPass, r[i - 2])
    {
      SpliceThree(list, a, x, b, i);
    }
  }

  lemma SpliceThree(list: seq<Segment>, a: nat, x: Segment, b: nat, i: nat)
    requires Regular(TextPass, list) && a < b <= |list| && Eligible(TextPass, x)
    requires Eligible(TextPass, list[a]) || a == 0 || list[a - 1].kind == N
    requires var r := list[..a] + [x] + list[b..];
             1 < i < |r| && r[i - 2].kind == T && Absorbs(TextPass, r[i - 1]) && Eligible(TextPass, r[i])
    ensures Eligible(TextPass, (list[..a] + [x] + list[b..])[i - 2])
  {
    hide Eligible, Absorbs;
    NumbersStay(TextPass, x);
    NumbersStay(TextPass, list[a]);
    if a > 0 { NumbersStay(TextPass, list[a - 1]); }
    if i < a {
      assert list[i - 2].kind == T;
    } else if i > a + 2 {
      assert list[i - a - 3 + b].kind == T;
    }
  }

  lemma SpliceRegularBinary(list: seq<Segment>, a: nat, x: Segment, b: nat)
    requires Regular(BinaryPass, list) && a < b <= |list| && Eligible(BinaryPass, x)
    ensures Regular(BinaryPass, list[..a] + [x] + list[b..])
  {
    var r := list[..a] + [x] + list[b..];
    assert forall i :: 0 <= i < a ==> r[i] == list[i];
    assert forall i :: a < i < |r| ==> r[i] == list[i - a - 1 + b];
    forall i | 0 < i < |r| ensures !(r[i - 1].kind == T && r[i].kind == T) {
      if i > a + 1 { assert list[i - a - 2 + b] == r[i - 1]; }
    }
  }

  lemma StepStaysRegular(m: Pass, list: seq<Segment>, k: nat)
    requires Regular(m, list) && Mended(m, list) && Settled(m, list, k) && k < |list| && Fires(m, list, k)
    ensures Regular(m, Step(m, list, k))
  {
    hide Regular, Mended, Settled, Absorbs, Starts, Step, Grown, UpTo;
    MendedIsOrdered(m, list);
    hide Ordered;
    StepShape(m, list, k);
    if TakesLeft(m, list, k) { OnlyStartsMergeLeft(m, list, k); }
    var a, x, b := From(m, list, k), Grown(m, list, k), UpTo(m, list, k);
    match m
    case TextPass => SpliceRegularText(list, a, x, b);
    case BinaryPass => SpliceRegularBinary(list, a, x, b);
  }

  // ----- Behind a number a pass goes on as on a list of its own -----

  lemma TakesBehind(m: Pass, list: seq<Segment>, n: nat, j: nat)
    requires 0 < n && n + j < |list| && list[n - 1].kind == N
    ensures TakesLeft(m, list, n + j) == TakesLeft(m, list[n..], j)
    ensures TakesRight(m, list, n + j) == TakesRight(m, list[n..], j)
  {
    hide Absorbs;
    NumbersStay(m, list[n - 1]);
  }

  lemma StepBehind(m: Pass, list: seq<Segment>, n: nat, j: nat)
    requires 0 < n && n + j < |list| && list[n - 1].kind == N
    ensures Fires(m, list, n + j) == Fires(m, list[n..], j)
    ensures DropsTail(m, list, n + j) == DropsTail(m, list[n..], j)
    ensures Fires(m, list, n + j) ==> Step(m, list, n + j) == list[..n] + Step(m, list[n..], j)
  {
    FiresBehind(m, list, n, j);
    if Fires(m, list, n + j) {
      hide Absorbs, Eligible, DropsTail;
      TakesBehind(m, list, n, j);
      NoLeftAtStart(m, list[n..]);
      if !TakesLeft(m, list[n..], j) { TakesSome(m, list[n..], j); }
      hide TakesLeft, TakesRight, Fires;
      SameStep(m, list, n, j);
    }
  }

  lemma FiresBehind(m: Pass, list: seq<Segment>, n: nat, j: nat)
    requires 0 < n && n + j < |list| && list[n - 1].kind == N
    ensures Fires(m, list, n + j) == Fires(m, list[n..], j)
    ensures DropsTail(m, list, n + j) == DropsTail(m, list[n..], j)
  {
    hide Absorbs, Eligible;
    TakesBehind(m, list, n, j);
    hide TakesLeft, TakesRight;
  }

  lemma SameStep(m: Pass, list: seq<Segment>, n: nat, j: nat)
    requires 0 < n && n + j < |list|
    requires Fires(m, list, n + j) && Fires(m, list[n..], j)
    requires TakesLeft(m, list, n + j) == TakesLeft(m, list[n..], j)
             && TakesRight(m, list, n + j) == TakesRight(m, list[n..], j)
    requires TakesLeft(m, list[n..], j) ==> j > 0
    requires !TakesLeft(m, list[n..], j) ==> j + 1 < |list[n..]|
    ensures Step(m, list, n + j) == list[..n] + Step(m, list[n..], j)
  {
    hide TakesLeft, TakesRight, Fires, Step;
    var s := list[n..];
    StepIs(m, list, n + j);
    StepIs(m, s, j);
    assert Grown(m, list, n + j) == Grown(m, s, j);
    Splice(list, n, From(m, s, j), Grown(m, s, j), UpTo(m, s, j));
  }

  lemma Splice(list: seq<Segment>, n: nat, a: nat, x: Segment, b: nat)
    requires a <= b && n + b <= |list|
    ensures list[..n + a] + [x] + list[n + b..] == list[..n] + (list[n..][..a] + [x] + list[n..][b..])
  {}

  lemma NoLeftAtStart(m: Pass, list: seq<Segment>)
    ensures list != [] ==> !TakesLeft(m, list, 0)
  {}

  lemma TakesSome(m: Pass, list: seq<Segment>, k: nat)
    requires k < |list| && Fires(m, list, k) && !TakesLeft(m, list, k)
    ensures k + 1 < |list| && Absorbs(m, list[k + 1])
  {}

  lemma RegularBehind(m: Pass, list: seq<Segment>, n: nat)
    requires Regular(m, list) && n <= |list|
    ensures Regular(m, list[n..])
  {
    hide Absorbs, Eligible;
    var s := list[n..];
    match m
    case TextPass =>
      forall i | 0 < i < |s| ensures !(s[i - 1].kind == B && s[i].kind == B) {
        assert list[n + i - 1] == s[i - 1];
      }
      forall i | 0 < i < |s| && s[i - 1].kind == T && s[i].kind == T ensures Eligible(m, s[i - 1]) {
        assert list[n + i - 1] == s[i - 1];
      }
      forall i | 1 < i < |s| && s[i - 2].kind == T && Absorbs(m, s[i - 1]) && Eligible(m, s[i])
        ensures Eligible(m, s[i - 2])
      {
        assert list[n + i - 2] == s[i - 2] && list[n + i - 1] == s[i - 1];
      }
    case BinaryPass =>
      forall i | 0 < i < |s| ensures !(s[i - 1].kind == T && s[i].kind == T) {
        assert list[n + i - 1] == s[i - 1];
      }
  }

  lemma SettledBehind(m: Pass, list: seq<Segment>, n: nat, k: nat)
    requires Settled(m, list, k) && 0 < n <= k <= |list| && list[n - 1].kind == N
    ensures Settled(m, list[n..], k - n)
  {
    hide Fires;
    forall i | 0 <= i < k - n ensures !Fires(m, list[n..], i) {
      StepBehind(m, list, n, i);
      assert !Fires(m, list, n + i);
    }
  }

  // ----- One step keeps what the walk says -----

  // A group that starts has not been passed by.
  lemma StartFires(m: Pass, list: seq<Segment>, k: nat)
    requires Starts(m, list) && Settled(m, list, k)
    ensures k <= 1 && Fires(m, list, 1) && TakesLeft(m, list, 1) && !Eligible(m, list[0])
  {
    hide TakesRight;
    assert Fires(m, list, 1);
  }

  lemma SameGroups(list: seq<Segment>, r: seq<Segment>, e: nat)
    requires e <= |r| && r[e..] == list[GroupEnd(list)..] && forall i :: 0 <= i < e ==> r[i].kind != N
    ensures GroupEnd(r) == e && OneGroup(r) == OneGroup(list)
    ensures !OneGroup(list) ==> NextGroups(r) == NextGroups(list)
  {
    var d := GroupEnd(list);
    if d < |list| {
      assert list[d..][0] == list[d] && r[e..][0] == r[e];
      assert list[d + 1..] == list[d..][1..] && r[e + 1..] == r[e..][1..];
    }
    hide GroupEnd;
    GroupEndIs(r, e);
  }

  // A step to the right in a group leaves its beginning as it was.
  lemma MergeRightInGroup(m: Pass, list: seq<Segment>, k: nat)
    requires Ordered(list) && Settled(m, list, k) && k < GroupEnd(list) && Fires(m, list, k) && !TakesLeft(m, list, k)
    ensures var r, e := Step(m, list, k), GroupEnd(list);
            && e >= k + 2 && GroupEnd(r) == e - 1 && |r| == |list| - 1
            && OneGroup(r) == OneGroup(list) && (!OneGroup(list) ==> NextGroups(r) == NextGroups(list))
    ensures !Starts(m, list) && !Starts(m, Step(m, list, k))
  {
    hide Ordered, GroupEnd, Step, OneGroup, NextGroups;
    var r, e := Step(m, list, k), GroupEnd(list);
    StepShape(m, list, k);
    TakesSome(m, list, k);
    NumbersStay(m, list[k + 1]);
    NumbersStay(m, list[k]);
    NumbersStay(m, r[k]);
    if Starts(m, list) { StartFires(m, list, k); }
    hide Grown, Settled;
    assert k + 1 < e;
    SameGroups(list, r, e - 1);
  }

  // A group that starts becomes one grown segment and what the step leaves.
  lemma MergeStart(m: Pass, list: seq<Segment>)
    requires Ordered(list) && Starts(m, list) && Fires(m, list, 1) && TakesLeft(m, list, 1)
    ensures |list| >= 2 && GroupEnd(list) >= 2
    ensures var r := Step(m, list, 1);
            && r != [] && Eligible(m, r[0]) && r[0].kind != N && !Starts(m, r)
            && (TakesRight(m, list, 1) ==> |list| > 2)
            && r == [r[0]] + list[if TakesRight(m, list, 1) then 3 else 2..]
  {
    hide Ordered, Absorbs, Eligible, Step, TakesRight, Grown;
    var r := Step(m, list, 1);
    StepShape(m, list, 1);
    NumbersStay(m, list[0]);
    NumbersStay(m, list[1]);
    NumbersStay(m, r[0]);
    if |r| > 1 { NumbersStay(m, r[1]); }
    assert list[..0] == [];
  }

  lemma RightOfStart(m: Pass, list: seq<Segment>)
    requires |list| >= 2 && TakesLeft(m, list, 1)
    ensures TakesRight(m, list, 1) <==> |list| > 2 && Absorbs(m, if |list| > 3 then list[3] else list[2])
    ensures |list| > 2 && list[2].kind == N ==> !Absorbs(m, list[2])
  {
    if |list| > 2 { NumbersStay(m, list[2]); }
    hide Absorbs;
  }

  // The step leaves no number behind the group, and the next group follows at
  // once.
  lemma MergeOver(m: Pass, list: seq<Segment>)
    requires Ordered(list) && Starts(m, list) && Fires(m, list, 1) && TakesLeft(m, list, 1)
    requires |list| >= 2 && GroupEnd(list) == 2 && TakesRight(m, list, 1)
    ensures !OneGroup(list) && Begins(m, NextGroups(list)) && !DropsTail(m, list, 1)
    ensures OneGroup(Step(m, list, 1)) == OneGroup(NextGroups(list))
    ensures !OneGroup(NextGroups(list)) ==> NextGroups(Step(m, list, 1)) == NextGroups(NextGroups(list))
  {
    MergeStart(m, list);
    RightOfStart(m, list);
    hide Ordered, Absorbs, Eligible, Step, TakesRight, GroupEnd, Starts;
    assert !DropsTail(m, list, 1);
    assert !OneGroup(list) && NextGroups(list) == list[3..];
    hide OneGroup, NextGroups, DropsTail, Fires, TakesLeft;
    assert list[3..][0..] == list[3..];
    AfterGrown(list[3..], Step(m, list, 1)[0], 0);
  }

  lemma MergeWithin(m: Pass, list: seq<Segment>)
    requires Ordered(list) && Starts(m, list) && Fires(m, list, 1) && TakesLeft(m, list, 1)
    requires |list| >= 2 && !(GroupEnd(list) == 2 && TakesRight(m, list, 1))
    ensures GroupEnd(list) == 2 && !OneGroup(list) ==> !Begins(m, NextGroups(list))
    ensures DropsTail(m, list, 1) <==> OneGroup(list) && |list| == 3 && Absorbs(m, list[2])
    ensures OneGroup(Step(m, list, 1)) == OneGroup(list)
    ensures !OneGroup(list) ==> NextGroups(Step(m, list, 1)) == NextGroups(list)
  {
    MergeStart(m, list);
    RightOfStart(m, list);
    hide Ordered, Absorbs, Eligible, Step, TakesRight, Starts;
    assert DropsTail(m, list, 1) <==> TakesRight(m, list, 1) && |list| == 3;
    hide GroupEnd, DropsTail, Fires, TakesLeft;
    AfterGrown(list, Step(m, list, 1)[0], if TakesRight(m, list, 1) then 3 else 2);
  }

  // One segment for the first b of a group.
  lemma AfterGrown(list: seq<Segment>, x: Segment, b: nat)
    requires b <= GroupEnd(list) && x.kind != N
    ensures OneGroup([x] + list[b..]) == OneGroup(list)
    ensures !OneGroup(list) ==> NextGroups([x] + list[b..]) == NextGroups(list)
  {
    hide GroupEnd, OneGroup, NextGroups;
    var r, e := [x] + list[b..], GroupEnd(list);
    assert r[e - b + 1..] == list[e..];
    SameGroups(list, r, e - b + 1);
  }

  // A group that does not start, or was reached over a lost number, is passed
  // by.
  lemma PassedBy(m: Pass, list: seq<Segment>, carried: bool)
    requires carried || !Starts(m, list)
    ensures PassDropsEnd(m, list, carried) <==> !OneGroup(list) && PassDropsEnd(m, NextGroups(list), false)
  {
    hide OneGroup, NextGroups, GroupEnd, Starts, Begins;
  }

  lemma WalkOfStart(m: Pass, list: seq<Segment>)
    requires Starts(m, list)
    ensures PassDropsEnd(m, list, false)
            <==> if OneGroup(list) then |list| == 3 && Absorbs(m, list[2])
                 else PassDropsEnd(m, NextGroups(list), GroupEnd(list) == 2 && Begins(m, NextGroups(list)))
  {
    hide OneGroup, NextGroups, GroupEnd, Absorbs, Starts, Begins;
  }

  lemma StartKeepsWalk(m: Pass, list: seq<Segment>)
    requires Ordered(list) && Starts(m, list) && Fires(m, list, 1) && TakesLeft(m, list, 1)
    ensures PassDropsEnd(m, list, false) <==> DropsTail(m, list, 1) || PassDropsEnd(m, Step(m, list, 1), false)
  {
    MergeStart(m, list);
    hide Ordered, OneGroup, NextGroups, GroupEnd, Step, DropsTail, Absorbs, Eligible, TakesLeft, TakesRight, Starts,
         Begins;
    hide Fires, PassDropsEnd;
    WalkOfStart(m, list);
    PassedBy(m, Step(m, list, 1), false);
    if GroupEnd(list) == 2 && TakesRight(m, list, 1) {
      MergeOver(m, list);
      PassedBy(m, NextGroups(list), true);
    } else {
      MergeWithin(m, list);
    }
  }

  lemma {:induction false} StepKeepsWalk(m: Pass, list: seq<Segment>, k: nat)
    requires Regular(m, list) && Ordered(list) && Settled(m, list, k) && k < |list| && Fires(m, list, k)
    ensures PassDropsEnd(m, list, false) <==> DropsTail(m, list, k) || PassDropsEnd(m, Step(m, list, k), false)
    decreases |list|
  {
    hide Regular, Ordered, Settled, GroupEnd, OneGroup, NextGroups, Starts, Step, DropsTail, Fires, TakesLeft,
         PassDropsEnd;
    var r, e := Step(m, list, k), GroupEnd(list);
    NotAtNumber(m, list, k);
    if k > e {
      NumberPassed(m, list, k);
      StepKeepsWalk(m, NextGroups(list), k - e - 1);
      PassedBy(m, list, false);
      PassedBy(m, r, false);
    } else if TakesLeft(m, list, k) {
      FirstGroupMergesLeft(m, list, k);
      StartKeepsWalk(m, list);
    } else {
      MergeRightInGroup(m, list, k);
      PassedBy(m, list, false);
      PassedBy(m, r, false);
      NoLeftNoDrop(m, list, k);
    }
  }

  lemma NotAtNumber(m: Pass, list: seq<Segment>, k: nat)
    requires k < |list| && Fires(m, list, k)
    ensures k != GroupEnd(list) && Eligible(m, list[k])
  {
    NumbersStay(m, list[k]);
  }

  lemma NoLeftNoDrop(m: Pass, list: seq<Segment>, k: nat)
    requires k < |list| && !TakesLeft(m, list, k)
    ensures !DropsTail(m, list, k)
  {}

  lemma FirstGroupMergesLeft(m: Pass, list: seq<Segment>, k: nat)
    requires Regular(m, list) && Settled(m, list, k) && k < GroupEnd(list) && Fires(m, list, k) && TakesLeft(m, list, k)
    ensures k == 1 && Starts(m, list)
  {
    hide Regular, Settled, Starts, Absorbs, Eligible;
    OnlyStartsMergeLeft(m, list, k);
    assert list[0..] == list;
  }

  // A step behind the first number: the group before it is passed by, before
  // the step and after.
  lemma NumberPassed(m: Pass, list: seq<Segment>, k: nat)
    requires Regular(m, list) && Ordered(list) && Settled(m, list, k) && k < |list| && Fires(m, list, k)
    requires k > GroupEnd(list)
    ensures !OneGroup(list)
    ensures var rest, j := NextGroups(list), k - GroupEnd(list) - 1;
            && j < |rest| && Regular(m, rest) && Ordered(rest) && Settled(m, rest, j) && Fires(m, rest, j)
            && DropsTail(m, list, k) == DropsTail(m, rest, j)
            && !OneGroup(Step(m, list, k)) && NextGroups(Step(m, list, k)) == Step(m, rest, j)
    ensures GroupEnd(Step(m, list, k)) == GroupEnd(list)
    ensures !Starts(m, list) && !Starts(m, Step(m, list, k))
    ensures Starts(BinaryPass, Step(m, list, k)) == Starts(BinaryPass, list)
  {
    hide Regular, Ordered, GroupEnd, Step, Fires, Settled, Absorbs, Eligible, TakesLeft, TakesRight, DropsTail;
    var e := GroupEnd(list);
    RegularBehind(m, list, e + 1);
    SettledBehind(m, list, e + 1, k);
    OrderedBehind(list, e + 1);
    StepBehind(m, list, e + 1, k - e - 1);
    var r := Step(m, list, k);
    assert r[..e + 1] == list[..e + 1];
    assert forall i :: 0 <= i <= e ==> r[i] == r[..e + 1][i] == list[i];
    GroupEndIs(r, e);
    SameStart(m, list, r, e + 1);
    SameStart(BinaryPass, list, r, e + 1);
    NumbersStay(m, list[e]);
    if Starts(m, list) { StartFires(m, list, k); }
  }

  lemma SameStart(m: Pass, list: seq<Segment>, r: seq<Segment>, n: nat)
    requires 0 < n <= |list| && n <= |r| && r[..n] == list[..n] && list[n - 1].kind == N
    ensures Starts(m, r) == Starts(m, list)
  {
    hide Absorbs, Eligible;
    NumbersStay(m, list[n - 1]);
    assert forall i :: 0 <= i < n ==> r[i] == r[..n][i] == list[i];
  }

  lemma OrderedBehind(list: seq<Segment>, n: nat)
    requires Ordered(list) && n <= |list|
    ensures Ordered(list[n..])
  {
    var s := list[n..];
    forall i | 0 < i < |s| ensures s[i - 1].end <= s[i].start {
      assert list[n + i - 1] == s[i - 1];
    }
  }

  // ----- A whole pass -----

  lemma {:induction false} NothingLeftToDrop(m: Pass, list: seq<Segment>)
    requires Settled(m, list, |list|)
    ensures !PassDropsEnd(m, list, false)
    decreases |list|
  {
    hide GroupEnd, PassDropsEnd, Settled;
    if Starts(m, list) { StartFires(m, list, |list|); }
    PassedBy(m, list, false);
    if !OneGroup(list) {
      SettledBehind(m, list, GroupEnd(list) + 1, |list|);
      NothingLeftToDrop(m, NextGroups(list));
    }
  }

  // A pass, from any list whose segments before k have nothing to merge.
  lemma {:induction false} PassDropsExactly(m: Pass, list: seq<Segment>, k: nat)
    requires Regular(m, list) && Mended(m, list) && Settled(m, list, k)
    ensures LosesTail(m, list, k) <==> PassDropsEnd(m, list, false)
    decreases |list|, |list| - k
  {
    hide Regular, Mended, Fires, Step, DropsTail, PassDropsEnd;
    if k >= |list| {
      NothingLeftToDrop(m, list);
    } else if Fires(m, list, k) {
      MendedIsOrdered(m, list);
      StepKeepsWalk(m, list, k);
      StepStaysMended(m, list, k);
      StepStaysRegular(m, list, k);
      PassDropsExactly(m, Step(m, list, k), 0);
    } else {
      PassDropsExactly(m, list, k + 1);
    }
  }

  // ----- Both passes -----

  lemma PassedByBoth(list: seq<Segment>, inText: bool, inBytes: bool)
    requires inText || (!Starts(TextPass, list) && (inBytes || !Starts(BinaryPass, list)))
    ensures EndIsLost(list, inText, inBytes) <==> !OneGroup(list) && EndIsLost(NextGroups(list), false, false)
  {
    hide OneGroup, NextGroups, GroupEnd, Starts, Begins, BeginsWithBytes;
  }

  lemma StartsForOne(list: seq<Segment>)
    ensures Starts(TextPass, list) ==> !Starts(BinaryPass, list)
    ensures list != [] && Eligible(TextPass, list[0]) ==> !Starts(TextPass, list) && !Starts(BinaryPass, list)
    ensures list != [] && Eligible(TextPass, list[0]) ==> !BeginsWithBytes(list)
    ensures Starts(BinaryPass, list) ==> !Eligible(TextPass, list[0]) && !Eligible(TextPass, list[1])
    ensures list != [] && list[0].kind == N ==> !BeginsWithBytes(list)
  {}

  lemma EndOfStart(list: seq<Segment>, inBytes: bool)
    requires Starts(TextPass, list)
    ensures EndIsLost(list, false, inBytes)
            <==> if OneGroup(list) then |list| == 3 && Absorbs(TextPass, list[2])
                 else EndIsLost(NextGroups(list), GroupEnd(list) == 2 && Begins(TextPass, NextGroups(list)), false)
  {
    StartsForOne(list);
    hide OneGroup, NextGroups, GroupEnd, Absorbs, Starts, Begins, BeginsWithBytes;
  }

  lemma StartKeepsEnd(list: seq<Segment>, inBytes: bool)
    requires Ordered(list) && Starts(TextPass, list) && Fires(TextPass, list, 1) && TakesLeft(TextPass, list, 1)
    ensures EndIsLost(list, false, inBytes)
            <==> DropsTail(TextPass, list, 1) || EndIsLost(Step(TextPass, list, 1), false, inBytes)
  {
    var m := TextPass;
    MergeStart(m, list);
    hide Ordered, OneGroup, NextGroups, GroupEnd, Step, DropsTail, Absorbs, Eligible, TakesLeft, TakesRight, Starts,
         Begins;
    hide Fires, EndIsLost;
    EndOfStart(list, inBytes);
    StartsForOne(Step(m, list, 1));
    PassedByBoth(Step(m, list, 1), false, inBytes);
    if GroupEnd(list) == 2 && TakesRight(m, list, 1) {
      MergeOver(m, list);
      PassedByBoth(NextGroups(list), true, false);
    } else {
      MergeWithin(m, list);
    }
  }

  // A step of the text pass behind a number leaves what the binary pass will
  // find there first.
  lemma StepKeepsBeginning(list: seq<Segment>, k: nat)
    requires Regular(TextPass, list) && Ordered(list) && Settled(TextPass, list, k) && k < |list|
             && Fires(TextPass, list, k)
    ensures BeginsWithBytes(Step(TextPass, list, k)) == BeginsWithBytes(list)
  {
    var m := TextPass;
    hide Regular, Ordered, Settled, Step, TakesRight;
    var r := Step(m, list, k);
    StepShape(m, list, k);
    StartsForOne(r);
    StartsForOne(list);
    hide Absorbs, Eligible;
    if TakesLeft(m, list, k) {
      OnlyStartsMergeLeft(m, list, k);
      assert k == 1 ==> list[0..] == list;
    }
  }

  // In a group that the binary pass will start, a step of the text pass
  // leaves the first two segments, and does not make the third one shorter.
  lemma MergeRightBehindStart(list: seq<Segment>, k: nat)
    requires Ordered(list) && Settled(TextPass, list, k) && k < GroupEnd(list)
    requires Fires(TextPass, list, k) && !TakesLeft(TextPass, list, k)
    ensures var r, e := Step(TextPass, list, k), GroupEnd(list);
            && Starts(BinaryPass, r) == Starts(BinaryPass, list)
            && (Starts(BinaryPass, list) ==> e >= 4 && |r| > 2 && (e == 4 ==> !Absorbs(BinaryPass, r[2])))
  {
    var m := TextPass;
    hide Ordered, Settled, Step, TakesRight, GroupEnd;
    var r := Step(m, list, k);
    StepShape(m, list, k);
    MergeRightInGroup(m, list, k);
    StartsForOne(r);
    StartsForOne(list);
    if Starts(BinaryPass, list) {
      assert k >= 2;
      TakesSome(m, list, k);
      NumbersStay(m, list[k + 1]);
    }
  }

  lemma {:induction false} StepKeepsEnd(list: seq<Segment>, k: nat, inBytes: bool)
    requires Regular(TextPass, list) && Ordered(list) && Settled(TextPass, list, k) && k < |list|
             && Fires(TextPass, list, k)
    ensures EndIsLost(list, false, inBytes)
            <==> DropsTail(TextPass, list, k) || EndIsLost(Step(TextPass, list, k), false, inBytes)
    decreases |list|
  {
    var m := TextPass;
    hide Regular, Ordered, Settled, GroupEnd, OneGroup, NextGroups, Starts, Step, DropsTail, Fires, TakesLeft, Absorbs;
    hide Begins, BeginsWithBytes;
    var r, e := Step(m, list, k), GroupEnd(list);
    NotAtNumber(m, list, k);
    if k > e {
      NumberPassed(m, list, k);
      var rest := NextGroups(list);
      StepKeepsBeginning(rest, k - e - 1);
      StepKeepsEnd(rest, k - e - 1, !inBytes && Starts(BinaryPass, list) && e == 2 && BeginsWithBytes(rest));
    } else if TakesLeft(m, list, k) {
      FirstGroupMergesLeft(m, list, k);
      StartKeepsEnd(list, inBytes);
    } else {
      MergeRightInGroup(m, list, k);
      MergeRightBehindStart(list, k);
      NoLeftNoDrop(m, list, k);
    }
  }

  // When the text pass has nothing left to merge, only the binary one counts.
  lemma {:induction false} OnlyBytesLeft(list: seq<Segment>, inBytes: bool)
    requires Settled(TextPass, list, |list|)
    ensures EndIsLost(list, false, inBytes) <==> PassDropsEnd(BinaryPass, list, inBytes)
    decreases |list|
  {
    hide GroupEnd, Settled, Absorbs, Eligible;
    if Starts(TextPass, list) { StartFires(TextPass, list, |list|); }
    if !OneGroup(list) {
      var rest := NextGroups(list);
      SettledBehind(TextPass, list, GroupEnd(list) + 1, |list|);
      if Starts(TextPass, rest) { StartFires(TextPass, rest, |rest|); }
      OnlyBytesLeft(rest, !inBytes && Starts(BinaryPass, list) && GroupEnd(list) == 2 && BeginsWithBytes(rest));
    }
  }

  lemma {:induction false} BothPasses(list: seq<Segment>, k: nat)
    requires Regular(TextPass, list) && Mended(TextPass, list) && Settled(TextPass, list, k)
    ensures LosesTail(TextPass, list, k) || PassDropsEnd(BinaryPass, RunPass(TextPass, list, k), false)
            <==> EndIsLost(list, false, false)
    ensures Regular(BinaryPass, RunPass(TextPass, list, k))
    decreases |list|, |list| - k
  {
    var m := TextPass;
    hide Regular, Mended, Fires, Step, DropsTail, PassDropsEnd, EndIsLost;
    if k >= |list| {
      PassDropsExactly(m, list, k);
      NothingLeftToDrop(m, list);
      OnlyBytesLeft(list, false);
      NoTwoTexts(list);
    } else if Fires(m, list, k) {
      MendedIsOrdered(m, list);
      StepKeepsEnd(list, k, false);
      StepStaysMended(m, list, k);
      StepStaysRegular(m, list, k);
      BothPasses(Step(m, list, k), 0);
    } else {
      BothPasses(list, k + 1);
    }
  }

  lemma NoTwoTexts(list: seq<Segment>)
    requires Regular(TextPass, list) && Settled(TextPass, list, |list|)
    ensures Regular(BinaryPass, list)
  {
    forall i | 0 < i < |list| ensures !(list[i - 1].kind == T && list[i].kind == T) {
      assert !Fires(TextPass, list, i - 1);
    }
  }

  // ----- After the first pass -----

  ghost predicate Alternating(list: seq<Segment>) {
    forall i :: 0 < i < |list| ==> list[i - 1].kind != list[i].kind
  }

  ghost predicate ShortSettled(list: seq<Segment>, k: nat) {
    k <= |list| && forall i :: 0 <= i < k ==> !ShortFires(list, i)
  }

  lemma ShortStepAlternates(list: seq<Segment>, k: nat)
    requires Alternating(list) && k < |list| && ShortFires(list, k)
    ensures Alternating(ShortStep(list, k))
  {
    var r := ShortStep(list, k);
    assert forall j :: 0 <= j < k - 1 ==> r[j] == list[j];
    assert r[k - 1].kind == T;
    assert forall j :: k - 1 < j < |r| ==> r[j] == list[j + 2];
    forall i | 0 < i < |r| ensures r[i - 1].kind != r[i].kind {
      if i < k { assert list[i - 1].kind != list[i].kind; } else { assert list[i + 1].kind != list[i + 2].kind; }
    }
  }

  lemma {:induction false} ShortSettles(list: seq<Segment>, k: nat)
    requires Alternating(list) && ShortSettled(list, k)
    ensures var r := RunShort(list, k); Alternating(r) && ShortSettled(r, |r|)
    decreases |list|, |list| - k
  {
    hide ShortFires, ShortStep, Alternating;
    if k < |list| {
      if ShortFires(list, k) {
        ShortStepAlternates(list, k);
        ShortStepSmaller(list, k);
        ShortSettles(ShortStep(list, k), 0);
      } else {
        ShortSettles(list, k + 1);
      }
    }
  }

  lemma ShortSettledIsRegular(list: seq<Segment>)
    requires Contiguous(list) && Alternating(list) && ShortSettled(list, |list|)
    ensures Regular(TextPass, list)
  {
    forall i | 1 < i < |list|
      ensures !(list[i - 2].kind == T && Absorbs(TextPass, list[i - 1]) && Eligible(TextPass, list[i]))
    {
      assert list[i - 2].kind != list[i - 1].kind;
      assert !ShortFires(list, i - 1);
    }
  }

  lemma {:induction false} RunsAlternate(text: seq<byte>, i: nat, list: seq<Segment>)
    requires WellSplit(text, i, list)
    ensures Alternating(list)
    decreases |list|
  {
    if list != [] {
      var rest := list[1..];
      RunsAlternate(text, list[0].end, rest);
      forall j | 0 < j < |list| ensures list[j - 1].kind != list[j].kind {
        assert list[j] == rest[j - 1];
        if j > 1 { assert list[j - 1] == rest[j - 2]; }
      }
    }
  }

  lemma FirstPassLeaves(text: seq<byte>)
    ensures var list := AfterShort(text);
            Contiguous(list) && Alternating(list) && Regular(TextPass, list) && Mended(TextPass, list)
  {
    hide Runs, RunShort, WellSplit, Contiguous, AllNumeric, Alternating, Regular, Mended;
    var list := Runs(text, 0);
    RunsWellSplit(text, 0);
    RunsAlternate(text, 0, list);
    ShortSettles(list, 0);
    WellSplitIsContiguous(text, 0, list);
    FromZero(list);
    WellSplitNumeric(text, 0, list);
    ShortKeepsPartition(text, list, 0);
    ShortSettledIsRegular(AfterShort(text));
    ContiguousIsMended(TextPass, AfterShort(text));
  }

  // ----- The text -----

  // Each pass drops the end of its list exactly when the walk over that list
  // says so.
  lemma EachPassExactly(text: seq<byte>)
    ensures LosesTail(TextPass, AfterShort(text), 0) <==> PassDropsEnd(TextPass, AfterShort(text), false)
    ensures LosesTail(BinaryPass, AfterText(text), 0) <==> PassDropsEnd(BinaryPass, AfterText(text), false)
    ensures LosesText(text)
            <==> PassDropsEnd(TextPass, AfterShort(text), false) || PassDropsEnd(BinaryPass, AfterText(text), false)
  {
    hide AfterShort, LosesTail, PassDropsEnd, RunPass, Mended, Regular, Contiguous, Alternating;
    FirstPassLeaves(text);
    PassDropsExactly(TextPass, AfterShort(text), 0);
    PassKeepsAPrefix(TextPass, AfterShort(text), 0);
    BothPasses(AfterShort(text), 0);
    ContiguousIsMended(BinaryPass, AfterText(text));
    PassDropsExactly(BinaryPass, AfterText(text), 0);
  }

  // A text loses its end exactly when one walk over the segments left by the
  // first pass says so.
  lemma LosesTextExactly(text: seq<byte>)
    ensures LosesText(text) <==> EndIsLost(AfterShort(text), false, false)
  {
    hide AfterShort, LosesTail, PassDropsEnd, EndIsLost, Mended, Regular, Contiguous, Alternating;
    FirstPassLeaves(text);
    EachPassExactly(text);
    BothPasses(AfterShort(text), 0);
  }

  // So a text comes back from its codewords exactly when the walk finds
  // nothing and no text segment holds a NUL.
  lemma RoundTripExactly(text: seq<byte>)
    requires text != []
    ensures Encodable(text, Segments(text))
    ensures ReadMessage(Message(text, Segments(text), 0)) == text
            <==> !EndIsLost(AfterShort(text), false, false) && !NulInText(text, Segments(text), 0)
  {
    hide Segments, LosesText, NulInText, ReadMessage, Message, Encodable, AfterShort, EndIsLost;
    EncoderRoundTrip(text);
    LosesTextExactly(text);
  }

  // ----- Two shapes without numbers, and what a number changes -----

  // Without a number only a lone byte on either side of a long text, or a
  // short text on either side of bytes, loses its end.
  lemma TwoShapes(list: seq<Segment>)
    requires Alternating(list) && forall i :: 0 <= i < |list| ==> list[i].kind != N
    ensures EndIsLost(list, false, false)
            <==> |list| == 3 && ((list[0].kind == B && list[0].Length() == 1 && list[1].Length() >= 5
                                  && list[2].Length() == 1)
                                 || (list[0].kind == T && list[0].Length() < 5 && list[2].Length() < 5))
  {
    GroupEndIs(list, |list|);
    hide GroupEnd;
    assert |list| > 1 ==> list[0].kind != list[1].kind;
    assert |list| > 2 ==> list[1].kind != list[2].kind;
  }

  // The first shape behind thirteen digits still loses its end; the second
  // behind a number that is itself lost does not.
  lemma NumberExamples()
    ensures EndIsLost([Segment(N, 0, 13), Segment(B, 13, 14), Segment(T, 14, 19), Segment(B, 19, 20)], false, false)
    ensures !EndIsLost([Segment(T, 0, 1), Segment(B, 1, 2), Segment(N, 2, 15), Segment(T, 15, 16), Segment(B, 16, 18),
                        Segment(T, 18, 19)], false, false)
  {
    var a := [Segment(N, 0, 13), Segment(B, 13, 14), Segment(T, 14, 19), Segment(B, 19, 20)];
    GroupEndIs(a, 0);
    GroupEndIs(a[1..], 3);
    var b := [Segment(T, 0, 1), Segment(B, 1, 2), Segment(N, 2, 15), Segment(T, 15, 16), Segment(B, 16, 18),
              Segment(T, 18, 19)];
    GroupEndIs(b, 2);
    GroupEndIs(b[3..], 3);
    hide GroupEnd;
    assert EndIsLost(a[1..], false, false);
    assert !EndIsLost(b[3..], false, true);
  }
}
