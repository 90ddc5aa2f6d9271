// pigeon_frame_pipe.c: two ring buffers shared by any number of threads. A
// step is what one thread does while it holds one mutex; the steps of
// different threads interleave in any order.

module FramePipe {
  import opened Octets
  import opened PointerFifo

  const PIGEON_FRAME_PIPE_SIZE := 100

  type Frame = seq<byte>
  type Thread = nat

  datatype Direction = TX | RX
  datatype Side = TxSide | RxSide

  function WriteSide(d: Direction): Side {
    if d == TX then TxSide else RxSide
  }

  function ReadSide(d: Direction): Side {
    if d == TX then RxSide else TxSide
  }

  // What became of a frame that was accepted and is no longer queued.
  datatype Fate = Popped | Cleared
  datatype Settled = Settled(frame: Frame, fate: Fate)

  // A buffer, with the frames ever accepted and those settled so far.
  datatype Channel = Channel(ring: Ring<Frame>, accepted: seq<Frame>, settled: seq<Settled>)

  // Where a thread is inside pop, which waits for a frame before it takes one,
  // and inside reset, which clears one buffer after the other.
  datatype Activity = Idle | MayPop(side: Side) | HalfReset

  // `emptied` holds the threads whose buffer was cleared after they saw a
  // frame in it, as long as nothing has been accepted there since.
  datatype State = State(tx: Channel, rx: Channel, doing: map<Thread, Activity>, emptied: set<Thread>) {
    function At(side: Side): Channel {
      if side == TxSide then tx else rx
    }

    function With(side: Side, c: Channel): State {
      if side == TxSide then this.(tx := c) else this.(rx := c)
    }

    function Doing(t: Thread): Activity {
      if t in doing then doing[t] else Idle
    }

    function Now(t: Thread, a: Activity): State {
      this.(doing := doing[t := a])
    }
  }

  datatype Step =
    | Push(t: Thread, d: Direction, frame: Frame)
    | SeeFrame(t: Thread, d: Direction)
    | SeeEmpty(t: Thread, d: Direction)
    | TryPop(t: Thread)
    | ResetTx(t: Thread)
    | ResetRx(t: Thread)

  function NewChannel(): Channel {
    Channel(Ring(seq(PIGEON_FRAME_PIPE_SIZE, _ => []), 0, 0), [], [])
  }

  function Init(): State {
    State(NewChannel(), NewChannel(), map[], {})
  }

  ghost predicate Sound(s: State) {
    ChannelInv(s.tx) && ChannelInv(s.rx)
  }

  function Frames(settled: seq<Settled>): seq<Frame> {
    seq(|settled|, i requires 0 <= i < |settled| => settled[i].frame)
  }

  // Frames leave a buffer in the order in which they were accepted.
  ghost predicate ChannelInv(c: Channel) {
    && c.ring.Valid() && |c.ring.buffer| == PIGEON_FRAME_PIPE_SIZE
    && c.accepted == Frames(c.settled) + c.ring.Contents()
  }

  ghost predicate Enabled(s: State, step: Step)
    requires Sound(s)
  {
    match step
    case Push(t, d, f) => s.Doing(t) == Idle
    case SeeFrame(t, d) => s.Doing(t) == Idle && s.At(ReadSide(d)).ring.Count() != 0
    case SeeEmpty(t, d) => s.Doing(t) == Idle && s.At(ReadSide(d)).ring.Count() == 0
    case TryPop(t) => s.Doing(t).MayPop?
    case ResetTx(t) => s.Doing(t) == Idle
    case ResetRx(t) => s.Doing(t) == HalfReset
  }

  function PushOn(c: Channel, f: Frame): Channel
    requires c.ring.Valid()
  {
    var (ring, ok) := c.ring.Push(f);
    if ok then Channel(ring, c.accepted + [f], c.settled) else c.(ring := ring)
  }

  predicate Accepts(c: Channel)
    requires c.ring.Valid()
  {
    c.ring.Count() != |c.ring.buffer| - 1
  }

  function PopOff(c: Channel): Channel
    requires c.ring.Valid()
  {
    var (ring, x) := c.ring.Pop();
    if x == None then c.(ring := ring) else Channel(ring, c.accepted, c.settled + [Settled(x.value, Popped)])
  }

  function ClearAll(c: Channel): Channel
    requires c.ring.Valid()
  {
    var q := c.ring.Contents();
    Channel(c.ring.Clear(), c.accepted, c.settled + seq(|q|, i requires 0 <= i < |q| => Settled(q[i], Cleared)))
  }

  ghost function Waiting(s: State, side: Side): set<Thread> {
    set t | t in s.doing && s.doing[t] == MayPop(side)
  }

  ghost function Apply(s: State, step: Step): State
    requires Sound(s) && Enabled(s, step)
  {
    match step
    case Push(t, d, f) =>
      var side := WriteSide(d);
      s.With(side, PushOn(s.At(side), f)).(
        emptied := if Accepts(s.At(side)) then s.emptied - Waiting(s, side) else s.emptied)
    case SeeFrame(t, d) => s.Now(t, MayPop(ReadSide(d))).(emptied := s.emptied - {t})
    case SeeEmpty(t, d) => s
    case TryPop(t) => s.With(s.Doing(t).side, PopOff(s.At(s.Doing(t).side))).Now(t, Idle)
    case ResetTx(t) =>
      s.With(TxSide, ClearAll(s.tx)).Now(t, HalfReset).(emptied := s.emptied + Waiting(s, TxSide))
    case ResetRx(t) =>
      s.With(RxSide, ClearAll(s.rx)).Now(t, Idle).(emptied := s.emptied + Waiting(s, RxSide))
  }

  // ----- What every step keeps -----

  lemma FramesSnoc(s: seq<Settled>, x: Settled)
    ensures Frames(s + [x]) == Frames(s) + [x.frame]
  {}

  lemma PushSound(c: Channel, f: Frame)
    requires ChannelInv(c)
    ensures ChannelInv(PushOn(c, f)) && PushOn(c, f).ring.Contents() != []
    ensures Accepts(c) || c.ring.Contents() != []
  {
    PushRefines(c.ring, f);
    hide Ring.Push, Ring.Contents, Frames;
    assert Frames(c.settled) + (c.ring.Contents() + [f]) == c.accepted + [f];
  }

  lemma PopSound(c: Channel)
    requires ChannelInv(c)
    ensures ChannelInv(PopOff(c))
  {
    PopRefines(c.ring);
    var q := c.ring.Contents();
    hide Ring.Pop, Ring.Contents, Frames;
    if q != [] {
      FramesSnoc(c.settled, Settled(q[0], Popped));
      assert (Frames(c.settled) + [q[0]]) + q[1..] == Frames(c.settled) + q;
    }
  }

  lemma ClearSound(c: Channel)
    requires ChannelInv(c)
    ensures ChannelInv(ClearAll(c)) && ClearAll(c).ring.Contents() == []
  {
    ClearRefines(c.ring);
    hide Ring.Contents, Ring.Clear;
    assert Frames(ClearAll(c).settled) == Frames(c.settled) + c.ring.Contents();
  }

  lemma ChannelStepsSound(c: Channel, f: Frame)
    requires ChannelInv(c)
    ensures ChannelInv(PushOn(c, f)) && ChannelInv(PopOff(c)) && ChannelInv(ClearAll(c))
    ensures PushOn(c, f).ring.Contents() != [] && ClearAll(c).ring.Contents() == []
    ensures Accepts(c) || c.ring.Contents() != []
  {
    PushSound(c, f);
    PopSound(c);
    ClearSound(c);
  }

  lemma StepSound(s: State, step: Step)
    requires Sound(s) && Enabled(s, step)
    ensures Sound(Apply(s, step))
  {
    hide ChannelInv, PushOn, PopOff, ClearAll, Accepts;
    ChannelStepsSound(s.tx, if step.Push? then step.frame else []);
    ChannelStepsSound(s.rx, if step.Push? then step.frame else []);
  }

  // ----- Runs -----

  // The state after some steps, if every one of them was possible.
  ghost function Run(steps: seq<Step>): Option<State>
    ensures Run(steps).Some? ==> Sound(Run(steps).value)
  {
    if steps == [] then InitSound(); Some(Init())
    else
      var before := Run(steps[..|steps| - 1]);
      if before.Some? && Enabled(before.value, steps[|steps| - 1])
      then StepSound(before.value, steps[|steps| - 1]); Some(Apply(before.value, steps[|steps| - 1]))
      else None
  }

  lemma InitSound()
    ensures Sound(Init())
  {
    var r := NewChannel().ring;
    assert r.Count() == 0;
    assert Frames([]) == [] && r.Contents() == [];
  }

  function WithFate(settled: seq<Settled>, fate: Fate): seq<Frame> {
    if settled == [] then []
    else WithFate(settled[..|settled| - 1], fate)
         + if settled[|settled| - 1].fate == fate then [settled[|settled| - 1].frame] else []
  }

  lemma NoFrames()
    ensures Frames([]) == [] && forall fate :: WithFate([], fate) == []
  {}

  lemma WithFateSnoc(settled: seq<Settled>, last: Settled, fate: Fate)
    ensures WithFate(settled + [last], fate)
            == if last.fate == fate then WithFate(settled, fate) + [last.frame] else WithFate(settled, fate)
  {
    assert (settled + [last])[..|settled|] == settled;
    assert WithFate(settled, fate) + [] == WithFate(settled, fate);
  }

  // Is a obtained from b by leaving elements out?
  ghost predicate Subsequence(a: seq<Frame>, b: seq<Frame>)
    decreases |b|
  {
    if b == [] then a == []
    else Subsequence(a, b[..|b| - 1])
         || (a != [] && a[|a| - 1] == b[|b| - 1] && Subsequence(a[..|a| - 1], b[..|b| - 1]))
  }

  lemma {:induction false} FateIsSubsequence(settled: seq<Settled>, rest: seq<Frame>, fate: Fate)
    ensures Subsequence(WithFate(settled, fate), Frames(settled) + rest)
    decreases |settled| + |rest|
  {
    hide Frames, WithFate;
    var a, b := WithFate(settled, fate), Frames(settled) + rest;
    if rest != [] {
      FateIsSubsequence(settled, rest[..|rest| - 1], fate);
      assert b[..|b| - 1] == Frames(settled) + rest[..|rest| - 1];
    } else if settled != [] {
      var init, last := settled[..|settled| - 1], settled[|settled| - 1];
      FateIsSubsequence(init, [], fate);
      assert settled == init + [last];
      FramesSnoc(init, last);
      WithFateSnoc(init, last, fate);
      assert b == Frames(init) + [last.frame];
      assert b[..|b| - 1] == Frames(init) + [];
      if last.fate == fate {
        assert a[..|a| - 1] == WithFate(init, fate);
      }
    } else {
      NoFrames();
    }
  }

  lemma {:induction false} FatesAddUp(settled: seq<Settled>)
    ensures multiset(Frames(settled)) == multiset(WithFate(settled, Popped)) + multiset(WithFate(settled, Cleared))
    decreases |settled|
  {
    hide Frames, WithFate;
    NoFrames();
    if settled != [] {
      var init, last := settled[..|settled| - 1], settled[|settled| - 1];
      FatesAddUp(init);
      assert settled == init + [last];
      FramesSnoc(init, last);
      WithFateSnoc(init, last, Popped);
      WithFateSnoc(init, last, Cleared);
    }
  }

  // In every run, on each side: frames are popped in the order they were
  // accepted; every accepted frame is popped, cleared or still queued, and
  // only once; at most 99 are queued.
  lemma PipeSafety(steps: seq<Step>, side: Side)
    requires Run(steps).Some?
    ensures var c := Run(steps).value.At(side);
            && Subsequence(WithFate(c.settled, Popped), c.accepted)
            && c.ring.Valid()
            && multiset(c.accepted)
               == multiset(WithFate(c.settled, Popped)) + multiset(WithFate(c.settled, Cleared))
                  + multiset(c.ring.Contents())
            && |c.ring.Contents()| <= 99
  {
    hide Run;
    var c := Run(steps).value.At(side);
    assert ChannelInv(c);
    FateIsSubsequence(c.settled, c.ring.Contents(), Popped);
    FatesAddUp(c.settled);
  }

  // ----- One reader -----

  // Only thread t waits for frames on a side.
  ghost predicate OnlyReader(steps: seq<Step>, side: Side, t: Thread) {
    forall i :: 0 <= i < |steps| && steps[i].SeeFrame? && ReadSide(steps[i].d) == side ==> steps[i].t == t
  }

  // No other thread is about to pop from the side, and the reader has nothing
  // to take exactly when the buffer was emptied meanwhile.
  ghost predicate ReaderInv(s: State, side: Side, t: Thread)
    requires Sound(s)
  {
    && (forall u :: u in s.doing && u != t ==> s.doing[u] != MayPop(side))
    && (s.Doing(t) == MayPop(side) ==> (t in s.emptied <==> s.At(side).ring.Contents() == []))
  }

  lemma ReaderStep(s: State, step: Step, side: Side, t: Thread)
    requires Sound(s) && Enabled(s, step) && ReaderInv(s, side, t)
    requires step.SeeFrame? && ReadSide(step.d) == side ==> step.t == t
    ensures Sound(Apply(s, step)) && ReaderInv(Apply(s, step), side, t)
  {
    hide ChannelInv, PushOn, PopOff, ClearAll, Accepts, Ring.Contents;
    StepSound(s, step);
    ChannelStepsSound(s.tx, if step.Push? then step.frame else []);
    ChannelStepsSound(s.rx, if step.Push? then step.frame else []);
  }

  lemma {:induction false} ReaderRun(steps: seq<Step>, side: Side, t: Thread)
    requires Run(steps).Some? && OnlyReader(steps, side, t)
    ensures ReaderInv(Run(steps).value, side, t)
    decreases |steps|
  {
    hide ReaderInv, Sound, Enabled, Apply;
    if steps == [] {
      ReaderStart(side, t);
    } else {
      var init := steps[..|steps| - 1];
      assert OnlyReader(init, side, t);
      ReaderRun(init, side, t);
      ReaderStep(Run(init).value, steps[|steps| - 1], side, t);
    }
  }

  lemma ReaderStart(side: Side, t: Thread)
    ensures Sound(Init()) && ReaderInv(Init(), side, t)
  {
    InitSound();
  }

  // The frame a thread about to pop would get.
  ghost function NextPop(s: State, t: Thread): Option<Frame>
    requires Sound(s) && s.Doing(t).MayPop?
  {
    s.At(s.Doing(t).side).ring.Pop().1
  }

  // With one reader, pop comes back without a frame exactly when the buffer
  // was cleared between the check that saw a frame and the pop, and nothing
  // was accepted after.
  lemma SingleReaderGetsFrame(steps: seq<Step>, side: Side, t: Thread)
    requires Run(steps).Some? && OnlyReader(steps, side, t)
    requires Run(steps).value.Doing(t) == MayPop(side)
    ensures NextPop(Run(steps).value, t) == None <==> t in Run(steps).value.emptied
  {
    hide Run;
    ReaderRun(steps, side, t);
    PopRefines(Run(steps).value.At(side).ring);
  }

  // So it does when a reset falls between the two, with one reader.
  lemma ResetEmptiesPop(f: Frame)
    ensures var steps := [Push(0, TX, f), SeeFrame(1, RX), ResetTx(0)];
            && Run(steps).Some? && OnlyReader(steps, TxSide, 1) && Run(steps).value.Doing(1) == MayPop(TxSide)
            && 1 in Run(steps).value.emptied && NextPop(Run(steps).value, 1) == None
  {
    hide Apply, Enabled, Sound, Run, Ring.Contents, Ring.Pop, Ring.Push, Init;
    var p, a, b := Push(0, TX, f), SeeFrame(1, RX), ResetTx(0);
    RunStart();
    RaceStart(f);
    RunSnoc([], p);
    assert [] + [p] == [p];
    RaceSee(Run([p]).value, 1);
    RunSnoc([p], a);
    assert [p] + [a] == [p, a];
    RaceReset(Run([p, a]).value);
    RunSnoc([p, a], b);
    assert [p, a] + [b] == [p, a, b];
    SingleReaderGetsFrame([p, a, b], TxSide, 1);
  }

  lemma RaceReset(s: State)
    requires Sound(s) && s.Doing(0) == Idle && s.Doing(1) == MayPop(TxSide)
    ensures Enabled(s, ResetTx(0))
    ensures var s' := Apply(s, ResetTx(0)); s'.Doing(1) == MayPop(TxSide) && 1 in s'.emptied
  {
    assert 1 in Waiting(s, TxSide);
  }

  // With two readers it may come back empty-handed although nothing was reset.
  lemma TwoReadersRace(f: Frame)
    ensures var steps := [Push(0, TX, f), SeeFrame(1, RX), SeeFrame(2, RX), TryPop(1)];
            && Run(steps).Some? && Run(steps).value.Doing(2) == MayPop(TxSide)
            && NextPop(Run(steps).value, 2) == None && Run(steps).value.emptied == {}
  {
    hide Apply, Enabled, Sound, Run, Ring.Contents, Ring.Pop, Ring.Push, Init;
    var p, a, b, c := Push(0, TX, f), SeeFrame(1, RX), SeeFrame(2, RX), TryPop(1);
    RunStart();
    RaceStart(f);
    RunSnoc([], p);
    assert [] + [p] == [p];
    RaceSee(Run([p]).value, 1);
    RunSnoc([p], a);
    assert [p] + [a] == [p, a];
    RaceSee(Run([p, a]).value, 2);
    RunSnoc([p, a], b);
    assert [p, a] + [b] == [p, a, b];
    RacePop(Run([p, a, b]).value, 1, f);
    RunSnoc([p, a, b], c);
    assert [p, a, b] + [c] == [p, a, b, c];
    PopRefines(Run([p, a, b, c]).value.tx.ring);
  }

  lemma RaceStart(f: Frame)
    ensures Sound(Init()) && Enabled(Init(), Push(0, TX, f))
    ensures var s := Apply(Init(), Push(0, TX, f));
            s.tx.ring.Valid() && s.tx.ring.Contents() == [f] && s.doing == map[] && s.emptied == {}
  {
    InitSound();
    PushRefines(Init().tx.ring, f);
    assert Init().tx.ring.Contents() == [];
  }

  lemma RaceSee(s: State, t: Thread)
    requires Sound(s) && s.Doing(t) == Idle && s.tx.ring.Contents() != []
    ensures Enabled(s, SeeFrame(t, RX))
    ensures Apply(s, SeeFrame(t, RX)) == s.Now(t, MayPop(TxSide)).(emptied := s.emptied - {t})
  {}

  lemma RacePop(s: State, t: Thread, f: Frame)
    requires Sound(s) && s.Doing(t) == MayPop(TxSide) && s.tx.ring.Contents() == [f]
    ensures Enabled(s, TryPop(t))
    ensures var s' := Apply(s, TryPop(t));
            && s'.tx.ring.Valid() && s'.tx.ring.Contents() == []
            && s'.doing == s.doing[t := Idle] && s'.emptied == s.emptied
  {
    PopRefines(s.tx.ring);
  }

  lemma RunStart()
    ensures Run([]) == Some(Init())
  {}

  lemma RunSnoc(steps: seq<Step>, step: Step)
    requires Run(steps).Some? && Enabled(Run(steps).value, step)
    ensures Run(steps + [step]) == Some(Apply(Run(steps).value, step))
  {
    assert (steps + [step])[..|steps|] == steps;
  }
}
