/** The abstract specification that both ring buffers of the firmware implement:
    a byte queue of fixed capacity that truncates what it cannot hold. */
module BoundedQueue {
  import opened Words

  datatype Op = Put(data: seq<byte>) | Take(n: nat) | Peek(n: nat)

  /** The bytes an operation hands to its caller, and how many it moved. */
  datatype Reply = Reply(count: nat, bytes: seq<byte>)

  function Step(q: seq<byte>, cap: nat, op: Op): (r: (seq<byte>, Reply))
    requires |q| <= cap
    ensures |r.0| <= cap
  {
    match op
    case Put(d) =>
      var n := Min(|d|, cap - |q|);
      (q + d[..n], Reply(n, []))
    case Take(k) =>
      var n := Min(k, |q|);
      (q[n..], Reply(n, q[..n]))
    case Peek(k) =>
      var n := Min(k, |q|);
      (q, Reply(n, q[..n]))
  }

  function Run(q: seq<byte>, cap: nat, ops: seq<Op>): (r: (seq<byte>, seq<Reply>))
    requires |q| <= cap
    ensures |r.0| <= cap && |r.1| == |ops|
    decreases |ops|
  {
    if ops == [] then (q, []) else
      var (q1, a) := Step(q, cap, ops[0]);
      var (q2, rest) := Run(q1, cap, ops[1..]);
      (q2, [a] + rest)
  }

  /** The bytes one operation put into the queue, given its reply. */
  function AcceptedBy(op: Op, a: Reply): seq<byte> {
    if op.Put? then op.data[..Min(a.count, |op.data|)] else []
  }

  function DeliveredBy(op: Op, a: Reply): seq<byte> {
    if op.Take? then a.bytes else []
  }

  /** All bytes that the puts of a run accepted, given their replies. */
  function Accepted(ops: seq<Op>, replies: seq<Reply>): seq<byte>
    requires |ops| == |replies|
  {
    if ops == [] then [] else AcceptedBy(ops[0], replies[0]) + Accepted(ops[1..], replies[1..])
  }

  /** All bytes that the takes of a run delivered. */
  function Delivered(ops: seq<Op>, replies: seq<Reply>): seq<byte>
    requires |ops| == |replies|
  {
    if ops == [] then [] else DeliveredBy(ops[0], replies[0]) + Delivered(ops[1..], replies[1..])
  }

  lemma StepConserves(q: seq<byte>, cap: nat, op: Op)
    requires |q| <= cap
    ensures var (q', a) := Step(q, cap, op); DeliveredBy(op, a) + q' == q + AcceptedBy(op, a)
  {
  }

  lemma Chain(q: seq<byte>, q1: seq<byte>, q2: seq<byte>,
              d: seq<byte>, D: seq<byte>, a: seq<byte>, A: seq<byte>)
    requires d + q1 == q + a && D + q2 == q1 + A
    ensures (d + D) + q2 == q + (a + A)
  {
    assert (d + D) + q2 == d + (D + q2);
    assert d + (q1 + A) == (d + q1) + A;
    assert (q + a) + A == q + (a + A);
  }

  /** Conservation: nothing is lost, duplicated or reordered on any run. */
  lemma {:induction false} RunConserves(q: seq<byte>, cap: nat, ops: seq<Op>)
    requires |q| <= cap
    ensures var (q', replies) := Run(q, cap, ops);
      Delivered(ops, replies) + q' == q + Accepted(ops, replies)
    decreases |ops|
  {
    if ops != [] {
      var (q1, a) := Step(q, cap, ops[0]);
      var (q2, rest) := Run(q1, cap, ops[1..]);
      StepConserves(q, cap, ops[0]);
      RunConserves(q1, cap, ops[1..]);
      assert ([a] + rest)[1..] == rest;
      Chain(q, q1, q2, DeliveredBy(ops[0], a), Delivered(ops[1..], rest),
            AcceptedBy(ops[0], a), Accepted(ops[1..], rest));
    }
  }

  /** A peek announces exactly what the next take of the same size delivers. */
  lemma PeekThenTake(q: seq<byte>, cap: nat, n: nat)
    requires |q| <= cap
    ensures Step(q, cap, Peek(n)).1 == Step(Step(q, cap, Peek(n)).0, cap, Take(n)).1
  {
  }
}
