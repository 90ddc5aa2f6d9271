// The pipe seen from its handles: what was pushed through one, what was
// popped through the other, told from the steps alone.

module PipeHistory {
  import opened Octets
  import opened PointerFifo
  import opened FramePipe

  function Queued(s: State, d: Direction): seq<Frame>
    requires Sound(s)
  {
    match d
    case TX => s.tx.ring.Contents()
    case RX => s.rx.ring.Contents()
  }

  // The frames pushed through a handle while fewer than 99 were queued, in
  // order. A TX handle writes the tx buffer, an RX handle the rx buffer.
  ghost function Pushed(steps: seq<Step>, d: Direction): seq<Frame>
    requires Run(steps).Some?
  {
    if steps == [] then []
    else
      var last := steps[|steps| - 1];
      RunBefore(steps);
      Pushed(steps[..|steps| - 1], d)
      + if last.Push? && last.d == d && |Queued(Run(steps[..|steps| - 1]).value, d)| < 99 then [last.frame] else []
  }

  lemma RunBefore(steps: seq<Step>)
    requires Run(steps).Some? && steps != []
    ensures var before := Run(steps[..|steps| - 1]);
            && before.Some? && Enabled(before.value, steps[|steps| - 1])
            && Run(steps).value == Apply(before.value, steps[|steps| - 1])
  {
    hide Apply, Enabled, Sound;
  }

  // The handle through which a thread last saw a frame.
  function LastSeen(steps: seq<Step>, t: Thread): Option<Direction> {
    if steps == [] then None
    else
      var last := steps[|steps| - 1];
      if last.SeeFrame? && last.t == t then Some(last.d) else LastSeen(steps[..|steps| - 1], t)
  }

  // The frames that pop returned through a handle, in order.
  ghost function Returned(steps: seq<Step>, d: Direction): seq<Frame>
    requires Run(steps).Some?
  {
    if steps == [] then []
    else
      var init, last := steps[..|steps| - 1], steps[|steps| - 1];
      RunBefore(steps);
      Returned(init, d)
      + if last.TryPop? && LastSeen(init, last.t) == Some(d) && NextPop(Run(init).value, last.t) != None
        then [NextPop(Run(init).value, last.t).value] else []
  }

  // ----- What the buffers have recorded -----

  function Opposite(d: Direction): Direction {
    match d
    case TX => RX
    case RX => TX
  }

  function Buffer(s: State, d: Direction): Channel {
    match d
    case TX => s.tx
    case RX => s.rx
  }

  // A push is accepted below 99, and a popped frame is the oldest one.
  lemma PushRecords(c: Channel, f: Frame)
    requires ChannelInv(c)
    ensures PushOn(c, f).accepted == if |c.ring.Contents()| < 99 then c.accepted + [f] else c.accepted
    ensures PushOn(c, f).settled == c.settled
  {
    PushRefines(c.ring, f);
    hide Ring.Push, Ring.Contents;
  }

  lemma PopRecords(c: Channel)
    requires ChannelInv(c)
    ensures PopOff(c).accepted == c.accepted
    ensures WithFate(PopOff(c).settled, Popped)
            == WithFate(c.settled, Popped) + match c.ring.Pop().1 case None => [] case Some(f) => [f]
  {
    var x := c.ring.Pop().1;
    hide Ring.Pop, WithFate;
    if x != None {
      WithFateSnoc(c.settled, Settled(x.value, Popped), Popped);
    } else {
      assert WithFate(c.settled, Popped) + [] == WithFate(c.settled, Popped);
    }
  }

  lemma {:induction false} ClearedNotPopped(settled: seq<Settled>, more: seq<Settled>)
    requires forall i :: 0 <= i < |more| ==> more[i].fate == Cleared
    ensures WithFate(settled + more, Popped) == WithFate(settled, Popped)
    decreases |more|
  {
    hide WithFate;
    if more == [] {
      assert settled + more == settled;
    } else {
      var n := |more| - 1;
      ClearedNotPopped(settled, more[..n]);
      WithFateSnoc(settled + more[..n], more[n], Popped);
      assert settled + more == (settled + more[..n]) + [more[n]];
    }
  }

  lemma ClearRecords(c: Channel)
    requires ChannelInv(c)
    ensures ClearAll(c).accepted == c.accepted
    ensures WithFate(ClearAll(c).settled, Popped) == WithFate(c.settled, Popped)
  {
    hide Ring.Contents, Ring.Clear, WithFate;
    var q := c.ring.Contents();
    ClearedNotPopped(c.settled, seq(|q|, i requires 0 <= i < |q| => Settled(q[i], Cleared)));
  }

  // What one step adds to the record of the buffer that a handle writes.
  lemma StepRecords(s: State, step: Step, d: Direction)
    requires Sound(s) && Enabled(s, step)
    ensures var c, c' := Buffer(s, d), Buffer(Apply(s, step), d);
            && c'.accepted
               == c.accepted + (if step.Push? && step.d == d && |Queued(s, d)| < 99 then [step.frame] else [])
            && WithFate(c'.settled, Popped)
               == WithFate(c.settled, Popped)
                  + (if step.TryPop? && s.Doing(step.t).side == (if d == TX then TxSide else RxSide)
                     then (match NextPop(s, step.t) case None => [] case Some(f) => [f]) else [])
  {
    var c := Buffer(s, d);
    assert c.accepted + [] == c.accepted && WithFate(c.settled, Popped) + [] == WithFate(c.settled, Popped);
    match step {
      case Push(_, _, frame) => PushRecords(c, frame);
      case TryPop(_) => PopRecords(c);
      case _ => ClearRecords(c);
    }
    hide PushOn, PopOff, ClearAll, WithFate, ChannelInv, Ring.Contents, Ring.Pop;
  }

  // A thread about to pop takes from the buffer its handle reads: an RX handle
  // reads tx, a TX handle reads rx.
  lemma {:induction false} SeenSide(steps: seq<Step>, t: Thread)
    requires Run(steps).Some?
    ensures Run(steps).value.Doing(t).MayPop? ==>
              && LastSeen(steps, t).Some?
              && Run(steps).value.Doing(t).side == if LastSeen(steps, t).value == RX then TxSide else RxSide
    decreases |steps|
  {
    hide Sound, ChannelInv, PushOn, PopOff, ClearAll;
    if steps != [] {
      RunBefore(steps);
      SeenSide(steps[..|steps| - 1], t);
      hide Run;
    }
  }

  // For every run, what a handle's buffer has accepted is what was pushed
  // through the handle, and what was popped from it is what pop returned
  // through the opposite one.
  lemma {:induction false} HistoryIsRecorded(steps: seq<Step>, d: Direction)
    requires Run(steps).Some?
    ensures Buffer(Run(steps).value, d).accepted == Pushed(steps, d)
    ensures WithFate(Buffer(Run(steps).value, d).settled, Popped) == Returned(steps, Opposite(d))
    decreases |steps|
  {
    hide Sound, Apply, Enabled, Run, WithFate, Queued, NextPop;
    if steps == [] {
      EmptyHistory(d);
    } else {
      var init, last := steps[..|steps| - 1], steps[|steps| - 1];
      RunBefore(steps);
      HistoryIsRecorded(init, d);
      StepRecords(Run(init).value, last, d);
      if last.TryPop? {
        SeenSide(init, last.t);
        PopsWhatItSaw(Run(init).value, last.t);
      }
    }
  }

  lemma PopsWhatItSaw(s: State, t: Thread)
    requires Sound(s) && Enabled(s, TryPop(t))
    ensures s.Doing(t).MayPop?
  {}

  lemma EmptyHistory(d: Direction)
    ensures Run([]).Some?
    ensures Buffer(Run([]).value, d).accepted == [] && WithFate(Buffer(Run([]).value, d).settled, Popped) == []
  {}

  // ----- What the two ends see of each other -----

  // In every run, pop through RX returns frames pushed through TX, in their
  // order, each at most once, and pop through TX frames pushed through RX;
  // what was pushed and not returned is queued or was cleared by a reset.
  lemma HandleSafety(steps: seq<Step>, d: Direction)
    requires Run(steps).Some?
    ensures Subsequence(Returned(steps, Opposite(d)), Pushed(steps, d))
    ensures exists cleared: multiset<Frame> ::
              multiset(Pushed(steps, d))
              == multiset(Returned(steps, Opposite(d))) + cleared + multiset(Queued(Run(steps).value, d))
    ensures |Queued(Run(steps).value, d)| <= 99
  {
    hide Run, WithFate, Subsequence, Pushed, Returned;
    HistoryIsRecorded(steps, d);
    var side := if d == TX then TxSide else RxSide;
    PipeSafety(steps, side);
    var c := Buffer(Run(steps).value, d);
    var cleared := multiset(WithFate(c.settled, Cleared));
    assert multiset(Pushed(steps, d))
        == multiset(Returned(steps, Opposite(d))) + cleared + multiset(Queued(Run(steps).value, d));
  }

  ghost predicate NoReset(steps: seq<Step>) {
    forall i :: 0 <= i < |steps| ==> !steps[i].ResetTx? && !steps[i].ResetRx?
  }

  lemma StepWithoutReset(s: State, step: Step, d: Direction)
    requires Sound(s) && Enabled(s, step) && !step.ResetTx? && !step.ResetRx?
    requires AllPopped(Buffer(s, d).settled)
    ensures AllPopped(Buffer(Apply(s, step), d).settled)
  {
    hide Ring.Push, Ring.Pop, Ring.Contents, ChannelInv;
  }

  ghost predicate AllPopped(settled: seq<Settled>) {
    forall i :: 0 <= i < |settled| ==> settled[i].fate == Popped
  }

  lemma {:induction false} AllPoppedFrames(settled: seq<Settled>)
    requires AllPopped(settled)
    ensures WithFate(settled, Popped) == Frames(settled)
    decreases |settled|
  {
    hide WithFate, Frames;
    NoFrames();
    if settled != [] {
      var n := |settled| - 1;
      AllPoppedFrames(settled[..n]);
      assert settled == settled[..n] + [settled[n]];
      WithFateSnoc(settled[..n], settled[n], Popped);
      FramesSnoc(settled[..n], settled[n]);
    }
  }

  lemma {:induction false} NothingCleared(steps: seq<Step>, d: Direction)
    requires Run(steps).Some? && NoReset(steps)
    ensures AllPopped(Buffer(Run(steps).value, d).settled)
    decreases |steps|
  {
    hide Sound, Apply, Enabled, AllPopped;
    if steps == [] {
      NothingYet(d);
    } else {
      RunBefore(steps);
      NothingCleared(steps[..|steps| - 1], d);
      StepWithoutReset(Run(steps[..|steps| - 1]).value, steps[|steps| - 1], d);
    }
  }

  lemma NothingYet(d: Direction)
    ensures Run([]).Some? && AllPopped(Buffer(Run([]).value, d).settled)
  {}

  // Without a reset nothing is lost: what was pushed is what was returned and
  // then what is queued.
  lemma NothingLostWithoutReset(steps: seq<Step>, d: Direction)
    requires Run(steps).Some? && NoReset(steps)
    ensures Pushed(steps, d) == Returned(steps, Opposite(d)) + Queued(Run(steps).value, d)
  {
    hide Run, WithFate, Pushed, Returned, Frames;
    HistoryIsRecorded(steps, d);
    NothingCleared(steps, d);
    AllPoppedFrames(Buffer(Run(steps).value, d).settled);
    assert ChannelInv(Run(steps).value.tx) && ChannelInv(Run(steps).value.rx);
  }

  // A reset empties first tx, then rx, and leaves the other one alone.
  lemma ResetEmpties(s: State, t: Thread)
    requires Sound(s)
    ensures Enabled(s, ResetTx(t)) ==>
              var r := Apply(s, ResetTx(t)); Sound(r) && Queued(r, TX) == [] && r.rx == s.rx && Enabled(r, ResetRx(t))
    ensures Enabled(s, ResetRx(t)) ==>
              var r := Apply(s, ResetRx(t)); Sound(r) && Queued(r, RX) == [] && r.tx == s.tx && r.Doing(t) == Idle
  {
    hide ChannelInv, ClearAll, Ring.Contents;
    if Enabled(s, ResetTx(t)) { StepSound(s, ResetTx(t)); ClearSound(s.tx); }
    if Enabled(s, ResetRx(t)) { StepSound(s, ResetRx(t)); ClearSound(s.rx); }
  }
}
