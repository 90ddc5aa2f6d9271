// A reader that consumes one symbol at a time, carries a state, and yields a
// piece of output for every symbol.

module Transducer {

  datatype Reading<S, O> = Reading(state: S, out: seq<O>)

  function Run<S, O>(step: (S, int) -> Reading<S, O>, s: S, es: seq<int>): Reading<S, O>
    decreases |es|
  {
    if es == [] then Reading(s, [])
    else
      var first := step(s, es[0]);
      var rest := Run(step, first.state, es[1..]);
      Reading(rest.state, first.out + rest.out)
  }

  lemma {:induction false} RunAppend<S, O>(step: (S, int) -> Reading<S, O>, s: S, a: seq<int>, b: seq<int>)
    ensures var first := Run(step, s, a);
            var rest := Run(step, first.state, b);
            Run(step, s, a + b) == Reading(rest.state, first.out + rest.out)
    decreases |a|
  {
    if a == [] {
      assert a + b == b;
      assert [] + Run(step, s, b).out == Run(step, s, b).out;
    } else {
      var zero := step(s, a[0]);
      RunAppend(step, zero.state, a[1..], b);
      assert (a + b)[1..] == a[1..] + b;
      var first := Run(step, zero.state, a[1..]);
      var rest := Run(step, first.state, b);
      assert zero.out + (first.out + rest.out) == (zero.out + first.out) + rest.out;
    }
  }

  lemma RunEmpty<S, O>(step: (S, int) -> Reading<S, O>, s: S)
    ensures Run(step, s, []) == Reading(s, [])
  {}

  lemma RunOne<S, O>(step: (S, int) -> Reading<S, O>, s: S, x: int)
    ensures Run(step, s, [x]) == step(s, x)
  {
    var first := step(s, x);
    assert Run(step, first.state, [x][1..]) == Reading(first.state, []);
    assert first.out + [] == first.out;
  }

  lemma RunCons<S, O>(step: (S, int) -> Reading<S, O>, s: S, x: int, es: seq<int>)
    ensures var first := step(s, x);
            var rest := Run(step, first.state, es);
            Run(step, s, [x] + es) == Reading(rest.state, first.out + rest.out)
  {
    RunAppend(step, s, [x], es);
    RunOne(step, s, x);
  }
}
