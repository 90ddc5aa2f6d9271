// pointer_fifo.c: a ring buffer that holds one item less than its size, and
// the sequence it stands for.

module PointerFifo {
  import opened Radix

  datatype Option<T> = None | Some(value: T)

  // The fields of the C struct.
  datatype Ring<T> = Ring(buffer: seq<T>, head: nat, tail: nat) {
    ghost predicate Valid() {
      |buffer| > 0 && head < |buffer| && tail < |buffer|
    }

    function Count(): (n: int)
      requires Valid()
      ensures 0 <= n < |buffer|
    {
      if head < tail then |buffer| - (tail - head) else head - tail
    }

    function Push(x: T): (Ring<T>, bool)
      requires Valid()
    {
      if Count() == |buffer| - 1 then (this, false)
      else (Ring(buffer[head := x], (head + 1) % |buffer|, tail), true)
    }

    function Pop(): (Ring<T>, Option<T>)
      requires Valid()
    {
      if Count() == 0 then (this, None)
      else (Ring(buffer, head, (tail + 1) % |buffer|), Some(buffer[tail]))
    }

    function Clear(): Ring<T> {
      Ring(buffer, 0, 0)
    }

    // The items held, oldest first.
    function Contents(): (c: seq<T>)
      requires Valid()
      ensures |c| == Count()
    {
      seq(Count(), i requires 0 <= i < Count() => buffer[Wrap(tail + i)])
    }

    function Wrap(i: nat): (j: nat)
      requires |buffer| > 0
      ensures j < |buffer|
    {
      i % |buffer|
    }
  }

  lemma WrapOnce<T>(r: Ring<T>, i: nat)
    requires r.Valid() && i < 2 * |r.buffer|
    ensures r.Wrap(i) == if i < |r.buffer| then i else i - |r.buffer|
  {
    var n := |r.buffer|;
    if i < n {
      DivModOfSum(0, n, i);
    } else {
      DivModOfSum(1, n, i - n);
    }
  }

  // Push appends unless the ring holds one less than its size.
  lemma PushRefines<T>(r: Ring<T>, x: T)
    requires r.Valid()
    ensures var (r', ok) := r.Push(x);
            && r'.Valid() && |r'.buffer| == |r.buffer|
            && ok == (|r.Contents()| < |r.buffer| - 1)
            && r'.Contents() == if ok then r.Contents() + [x] else r.Contents()
  {
    var (r', ok) := r.Push(x);
    WrapOnce(r, r.head + 1);
    if ok {
      WrapOnce(r, r.tail + r.Count());
      forall i | 0 <= i < r.Count() ensures r'.Contents()[i] == r.Contents()[i] {
        WrapOnce(r, r.tail + i);
        WrapOnce(r', r.tail + i);
      }
      WrapOnce(r', r.tail + r.Count());
    }
  }

  // Pop takes the oldest item, or nothing from an empty ring.
  lemma PopRefines<T>(r: Ring<T>)
    requires r.Valid()
    ensures var (r', x) := r.Pop();
            && r'.Valid() && |r'.buffer| == |r.buffer|
            && (if r.Contents() == [] then x == None && r'.Contents() == []
                else x == Some(r.Contents()[0]) && r'.Contents() == r.Contents()[1..])
  {
    var (r', x) := r.Pop();
    WrapOnce(r, r.tail + 1);
    WrapOnce(r, r.tail);
    if r.Count() > 0 {
      forall i | 0 <= i < r'.Count() ensures r'.Contents()[i] == r.Contents()[i + 1] {
        WrapOnce(r, r.tail + i + 1);
        WrapOnce(r', r'.tail + i);
      }
    }
  }

  lemma ClearRefines<T>(r: Ring<T>)
    requires r.Valid()
    ensures r.Clear().Valid() && |r.Clear().buffer| == |r.buffer| && r.Clear().Contents() == []
  {}

  class PointerFifo<T> {
    var buffer: array<T>
    var head: nat
    var tail: nat

    ghost function Model(): Ring<T>
      reads this, buffer
    {
      Ring(buffer[..], head, tail)
    }

    ghost predicate Valid()
      reads this, buffer
    {
      Model().Valid()
    }

    ghost function Contents(): seq<T>
      requires Valid()
      reads this, buffer
    {
      Model().Contents()
    }

    // pointer_fifo_new; the blank slots hold whatever stands for NULL.
    constructor (size: nat, blank: T)
      requires size > 0
      ensures Valid() && fresh(buffer) && buffer.Length == size && Contents() == []
    {
      buffer := new T[size](_ => blank);
      head, tail := 0, 0;
    }

    function Count(): (n: int)
      requires Valid()
      reads this, buffer
      ensures n == |Contents()|
    {
      if head < tail then buffer.Length - (tail - head) else head - tail
    }

    predicate IsEmpty()
      requires Valid()
      reads this, buffer
      ensures IsEmpty() <==> Contents() == []
    {
      Count() == 0
    }

    predicate IsFull()
      requires Valid()
      reads this, buffer
      ensures IsFull() <==> |Contents()| == buffer.Length - 1
    {
      Count() == buffer.Length - 1
    }

    method Push(data: T) returns (ok: bool)
      requires Valid()
      modifies this`head, buffer
      ensures Valid() && buffer == old(buffer)
      ensures ok == (|old(Contents())| < buffer.Length - 1)
      ensures Contents() == if ok then old(Contents()) + [data] else old(Contents())
      ensures (Model(), ok) == old(Model()).Push(data)
    {
      PushRefines(Model(), data);
      if !IsFull() {
        buffer[head] := data;
        head := (head + 1) % buffer.Length;
        assert buffer[..] == old(buffer[..])[old(head) := data];
        return true;
      } else {
        return false;
      }
    }

    method Pop() returns (result: Option<T>)
      requires Valid()
      modifies this`tail
      ensures Valid() && buffer == old(buffer)
      ensures if old(Contents()) == [] then result == None && Contents() == []
              else result == Some(old(Contents())[0]) && Contents() == old(Contents())[1..]
      ensures (Model(), result) == old(Model()).Pop()
    {
      PopRefines(Model());
      if !IsEmpty() {
        result := Some(buffer[tail]);
        tail := (tail + 1) % buffer.Length;
      } else {
        result := None;
      }
    }

    method Clear()
      requires Valid()
      modifies this`head, this`tail
      ensures Valid() && buffer == old(buffer) && Contents() == []
      ensures Model() == old(Model()).Clear()
    {
      head := 0;
      tail := 0;
    }
  }
}
