/** The bounded byte FIFO the communication layer is built on. Its
    implementation is not part of this model; it is described by what its
    callers rely on: a push into a full FIFO fails and changes nothing, a
    pop from an empty FIFO fails and changes nothing, and bytes leave in
    the order they arrived. */
module Fifo {
  import opened Bytes

  /** `items` are the buffered bytes, oldest first; `len` is the capacity
      the owner assigned to the FIFO's `len` field. */
  datatype Fifo = Fifo(items: seq<uint8>, len: nat)

  predicate Valid(q: Fifo) {
    |q.items| <= q.len
  }

  predicate IsEmpty(q: Fifo) {
    |q.items| == 0
  }

  predicate IsFull(q: Fifo) {
    |q.items| >= q.len
  }

  /** A FIFO registered over a fresh buffer of `len` bytes. */
  function Create(len: nat): (q: Fifo)
    ensures Valid(q) && IsEmpty(q) && q.len == len
  {
    Fifo([], len)
  }

  /** Result of a push: `ok` mirrors a zero return code. */
  datatype Pushed = Pushed(ok: bool, q: Fifo)

  function Push(q: Fifo, b: uint8): (r: Pushed)
    requires Valid(q)
    ensures Valid(r.q) && r.q.len == q.len
    ensures r.ok <==> !IsFull(q)
    ensures r.ok ==> r.q.items == q.items + [b]
    ensures !r.ok ==> r.q == q
  {
    if |q.items| < q.len then Pushed(true, q.(items := q.items + [b]))
    else Pushed(false, q)
  }

  /** Result of a pop: the oldest byte and the remaining FIFO, or `Empty`
      when there was nothing to take. */
  datatype Popped = Popped(b: uint8, rest: Fifo) | Empty

  function Pop(q: Fifo): (r: Popped)
    requires Valid(q)
    ensures r.Empty? <==> IsEmpty(q)
    ensures r.Popped? ==> [r.b] + r.rest.items == q.items
    ensures r.Popped? ==> Valid(r.rest) && r.rest.len == q.len
  {
    if |q.items| == 0 then Empty
    else Popped(q.items[0], q.(items := q.items[1..]))
  }

  /** Pushes every byte of `bs` in order, dropping those that do not fit. */
  function PushAll(q: Fifo, bs: seq<uint8>): (r: Fifo)
    requires Valid(q)
    ensures Valid(r) && r.len == q.len
    decreases |bs|
  {
    if bs == [] then q else PushAll(Push(q, bs[0]).q, bs[1..])
  }

  /** Pops `n` bytes (or until empty) and returns them in the order popped. */
  function PopAll(q: Fifo, n: nat): (out: seq<uint8>)
    requires Valid(q)
    ensures |out| <= n
    decreases n
  {
    if n == 0 then []
    else match Pop(q)
      case Empty => []
      case Popped(b, rest) => [b] + PopAll(rest, n - 1)
  }

  /** FIFO law: bytes pushed while there is room come out after the bytes
      already buffered, in the order they were pushed. */
  lemma {:induction false} PushThenPopInOrder(q: Fifo, bs: seq<uint8>)
    requires Valid(q)
    requires |q.items| + |bs| <= q.len
    ensures PushAll(q, bs).items == q.items + bs
    ensures PopAll(PushAll(q, bs), |q.items| + |bs|) == q.items + bs
    decreases |bs|
  {
    if bs == [] {
      PopAllTakesEverything(q);
    } else {
      var q' := Push(q, bs[0]).q;
      PushThenPopInOrder(q', bs[1..]);
      assert q.items + [bs[0]] + bs[1..] == q.items + bs;
    }
  }

  /** Popping as many bytes as are buffered yields exactly the contents. */
  lemma {:induction false} PopAllTakesEverything(q: Fifo)
    requires Valid(q)
    ensures PopAll(q, |q.items|) == q.items
    decreases |q.items|
  {
    if |q.items| > 0 {
      var p := Pop(q);
      PopAllTakesEverything(p.rest);
    }
  }
}
