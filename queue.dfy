/** The slice-backed FIFO queue of queue.go. The reader pushes raw bytes on
    it; a consumer pops them in arrival order. The mutex is not modelled. */
module Fifo {
  import opened Prelude

  /** The box the queue stores around every pushed item. */
  datatype Element<T> = Element(data: T)

  class Queue<T> {
    /** The queue's slice, head first. */
    var container: seq<Element<T>>

    /** NewQueue: a queue with nothing in it. */
    constructor ()
      ensures container == []
    {
      container := [];
    }

    /** Push: boxes `data` and appends it at the tail; earlier elements keep their places. */
    method Push(data: T)
      modifies this
      ensures container == old(container) + [Element(data)]
      ensures |container| == |old(container)| + 1
      ensures container[..|old(container)|] == old(container)
    {
      container := container + [Element(data)];
    }

    /** Clear: replaces the slice by an empty one, whatever it held. */
    method Clear()
      modifies this
      ensures container == []
    {
      container := [];
    }

    /** Pop: nil on an empty queue (which stays as it was); otherwise the head
        element (the box, not its data, exactly as queue.go returns it),
        which is removed. */
    method Pop() returns (r: Option<Element<T>>)
      modifies this
      ensures old(container) == [] ==> r == None && container == old(container)
      ensures old(container) != [] ==>
                r == Some(old(container)[0]) && container == old(container)[1..]
    {
      if |container| == 0 {
        return None;
      }
      r := Some(container[0]);
      container := container[1..];
    }
  }

  /** What a run of Push calls appends: each item in its box, in call order. */
  function Boxed<T>(items: seq<T>): (r: seq<Element<T>>)
    ensures |r| == |items|
    ensures forall i :: 0 <= i < |items| ==> r[i] == Element(items[i])
  {
    if items == [] then [] else [Element(items[0])] + Boxed(items[1..])
  }

  /** What successive Pop calls hand back (unboxed) until the first nil. */
  function Drain<T>(c: seq<Element<T>>): (r: seq<T>)
    ensures |r| == |c|
    ensures forall i :: 0 <= i < |c| ==> r[i] == c[i].data
  {
    if c == [] then [] else [c[0].data] + Drain(c[1..])
  }

  /** Pushing a run of items one by one appends them as one block. */
  lemma BoxedAppend<T>(a: seq<T>, b: seq<T>)
    ensures Boxed(a + b) == Boxed(a) + Boxed(b)
  {
  }

  /** Draining and boxing are inverse: a queue is determined by what it pops. */
  lemma DrainBoxedRoundTrip<T>(items: seq<T>, c: seq<Element<T>>)
    ensures Drain(Boxed(items)) == items
    ensures Boxed(Drain(c)) == c
  {
  }

  /** FIFO over contents: pushing `items` onto a queue holding `c` leaves
      contents that drain to what `c` held and then `items`, in push order. */
  lemma FirstInFirstOut<T>(c: seq<Element<T>>, items: seq<T>)
    ensures Drain(c + Boxed(items)) == Drain(c) + items
  {
  }

  /** Pops until Pop returns nil, collecting the data of each element: the
      result is Drain of the contents, and the queue ends empty. */
  method PopAll<T>(q: Queue<T>) returns (out: seq<T>)
    modifies q
    ensures out == Drain(old(q.container)) && q.container == []
  {
    out := [];
    while true
      invariant Drain(old(q.container)) == out + Drain(q.container)
      decreases |q.container|
    {
      var r := q.Pop();
      if r.None? {
        break;
      }
      Associative(out, [r.value.data], Drain(q.container));
      out := out + [r.value.data];
    }
  }

  /** FIFO with the queue's own operations: Push each of `items` in turn, then
      Pop until nil; the pops return the queue's former contents and then
      `items`, in push order. */
  method PushThenPopAll<T>(q: Queue<T>, items: seq<T>) returns (out: seq<T>)
    modifies q
    ensures out == Drain(old(q.container)) + items && q.container == []
  {
    var i := 0;
    while i < |items|
      invariant 0 <= i <= |items|
      invariant q.container == old(q.container) + Boxed(items[..i])
    {
      q.Push(items[i]);
      BoxedAppend(items[..i], [items[i]]);
      assert items[..i + 1] == items[..i] + [items[i]];
      i := i + 1;
    }
    assert items[..i] == items;
    FirstInFirstOut(old(q.container), items);
    out := PopAll(q);
  }
}
