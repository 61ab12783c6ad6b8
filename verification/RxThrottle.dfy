/** app/app.c: the counter that keeps at most two receive notifications on their way from any
    number of senders to the core thread. Interrupt-disabled regions are atomic steps. */
module RxThrottle {
  /** BUS_MSG_T by type: a receive notification, or any other message of the shared queue. */
  datatype Msg = Rx(arg: nat) | Other

  /** Where a sender stands in bmsg_rx_sender: after the increment, or after a failed push. */
  datatype SenderPc = Counted | PushFailed

  /** Where the core thread stands: waiting in pop, holding a receive notification, or having
      decremented the counter with rxl_cntrl_evt still to start. */
  datatype CorePc = Waiting | Popped | Decremented

  /** bmsg_rx_count, the queue, the senders inside bmsg_rx_sender, the core thread, and as
      history: the calls since the last start of rxl_cntrl_evt whose notification is owed, and
      whether a push has failed. */
  datatype World = World(count: int, queue: seq<Msg>, senders: map<nat, SenderPc>, core: CorePc,
                         owed: nat, pushFailed: bool)

  datatype Step =
    | Call(sender: nat)
    | Push(sender: nat, ok: bool)
    | Undo(sender: nat)
    | PushOther
    | Pop
    | Decrement
    | StartEvt

  function Start(): World {
    World(0, [], map[], Waiting, 0, false)
  }

  const LIMIT := 2

  /** The guarded decrement at the start of bmsg_rx_handler. */
  function HandlerCount(count: int): int {
    if count > 0 then count - 1 else count
  }

  function Next(w: World, s: Step): World {
    match s
    case Call(i) =>
      if i in w.senders then w
      else if w.count >= LIMIT then w.(owed := w.owed + 1)
      else w.(count := w.count + 1, senders := w.senders[i := Counted], owed := w.owed + 1)
    case Push(i, ok) =>
      if i !in w.senders || w.senders[i] != Counted then w
      else if ok then w.(queue := w.queue + [Rx(i)], senders := w.senders - {i})
      else w.(senders := w.senders[i := PushFailed], pushFailed := true)
    case Undo(i) =>
      if i !in w.senders || w.senders[i] != PushFailed then w
      else w.(count := w.count - 1, senders := w.senders - {i})
    case PushOther => w.(queue := w.queue + [Other])
    case Pop =>
      if w.core != Waiting || w.queue == [] then w
      else w.(queue := w.queue[1..], core := if w.queue[0].Rx? then Popped else Waiting)
    case Decrement => if w.core != Popped then w else w.(count := HandlerCount(w.count), core := Decremented)
    case StartEvt => if w.core != Decremented then w else w.(core := Waiting, owed := 0)
  }

  function Run(steps: seq<Step>): World {
    if steps == [] then Start() else Next(Run(steps[..|steps| - 1]), steps[|steps| - 1])
  }

  // ---------------------------------------------------------------- invariants

  function RxQueued(q: seq<Msg>): nat {
    if q == [] then 0 else (if q[0].Rx? then 1 else 0) + RxQueued(q[1..])
  }

  lemma {:induction false} RxQueuedSnoc(q: seq<Msg>, m: Msg)
    ensures RxQueued(q + [m]) == RxQueued(q) + (if m.Rx? then 1 else 0)
    decreases |q|
  {
    if q == [] {
      assert q + [m] == [m] && [m][1..] == [];
    } else {
      assert (q + [m])[1..] == q[1..] + [m];
      RxQueuedSnoc(q[1..], m);
    }
  }

  /** The counter accounts for every notification from the increment to the decrement. */
  ghost predicate CountInv(w: World) {
    w.count == RxQueued(w.queue) + |w.senders| + (if w.core == Popped then 1 else 0) && w.count <= LIMIT
  }

  /** Notifications whose rxl_cntrl_evt has not started. */
  function Pending(w: World): nat {
    RxQueued(w.queue) + |w.senders| + (if w.core != Waiting then 1 else 0)
  }

  lemma SenderCount(senders: map<nat, SenderPc>, i: nat, pc: SenderPc)
    ensures i !in senders ==> |senders[i := pc]| == |senders| + 1
    ensures i in senders ==> |senders[i := pc]| == |senders| && |senders - {i}| == |senders| - 1
  {
    assert senders[i := pc].Keys == senders.Keys + {i};
    assert (senders - {i}).Keys == senders.Keys - {i};
    assert |senders| == |senders.Keys| && |senders[i := pc]| == |senders[i := pc].Keys|;
    assert |senders - {i}| == |(senders - {i}).Keys|;
  }

  lemma PushKeepsCount(w: World, i: nat, ok: bool)
    requires CountInv(w)
    ensures CountInv(Next(w, Push(i, ok)))
  {
    SenderCount(w.senders, i, PushFailed);
    RxQueuedSnoc(w.queue, Rx(i));
  }

  lemma NextKeepsCount(w: World, s: Step)
    requires CountInv(w)
    ensures CountInv(Next(w, s))
  {
    match s
    case Call(i) => SenderCount(w.senders, i, Counted);
    case Push(i, ok) => PushKeepsCount(w, i, ok);
    case Undo(i) => SenderCount(w.senders, i, PushFailed);
    case PushOther => RxQueuedSnoc(w.queue, Other);
    case Pop =>
    case Decrement =>
    case StartEvt =>
  }

  /** RX throttle invariant over all interleavings of any number of senders with the core
      thread, pushes failing at will: the counter is the number of notifications queued, held
      by senders between increment and push (or undo), or popped and not yet decremented; it
      stays within 0..2, so the handler's guard never fails. */
  lemma {:induction false} ThrottleInvariant(steps: seq<Step>)
    ensures var w := Run(steps);
      && w.count == RxQueued(w.queue) + |w.senders| + (if w.core == Popped then 1 else 0)
      && 0 <= w.count <= 2
      && (w.core == Popped ==> w.count > 0)
    decreases |steps|
  {
    hide Next;
    if steps != [] {
      ThrottleInvariant(steps[..|steps| - 1]);
      NextKeepsCount(Run(steps[..|steps| - 1]), steps[|steps| - 1]);
    }
  }

  /** Right after a call that returned early, two other notifications are under way. */
  lemma EarlyReturnCovered(steps: seq<Step>, i: nat)
    requires i !in Run(steps).senders && Run(steps).count >= LIMIT
    ensures Pending(Next(Run(steps), Call(i))) >= 2
  {
    ThrottleInvariant(steps);
  }

  // ---------------------------------------------------------------- wake-ups

  /** Whoever called since the last event is covered by a notification under way. */
  ghost predicate Covered(w: World) {
    w.owed > 0 ==> Pending(w) > 0
  }

  /** The undo of a failed push that withdraws the only notification while calls are owed one. */
  ghost predicate LossyUndo(w: World, s: Step) {
    && s.Undo? && s.sender in w.senders && w.senders[s.sender] == PushFailed
    && w.owed > 0 && Pending(w) == 1
  }

  lemma SendersEmpty(senders: map<nat, SenderPc>)
    ensures |senders| > 0 <==> exists i :: i in senders
  {
    if |senders| > 0 {
      assert senders.Keys != {};
      var i :| i in senders.Keys;
    }
  }

  lemma PushCovers(w: World, i: nat, ok: bool)
    requires Covered(w)
    ensures Covered(Next(w, Push(i, ok)))
  {
    SenderCount(w.senders, i, PushFailed);
    RxQueuedSnoc(w.queue, Rx(i));
  }

  lemma CallCovers(w: World, i: nat)
    requires CountInv(w) && Covered(w)
    ensures Covered(Next(w, Call(i)))
  {
    SenderCount(w.senders, i, Counted);
    SendersEmpty(w.senders);
  }

  /** Exactly which step breaks the coverage of a call. */
  lemma StepCovers(w: World, s: Step)
    requires CountInv(w) && Covered(w)
    ensures Covered(Next(w, s)) <==> !LossyUndo(w, s)
  {
    match s
    case Call(i) => CallCovers(w, i);
    case Push(i, ok) => PushCovers(w, i, ok);
    case Undo(i) => SenderCount(w.senders, i, PushFailed);
    case PushOther => RxQueuedSnoc(w.queue, Other);
    case Pop =>
    case Decrement =>
    case StartEvt =>
  }

  lemma PrefixRun(steps: seq<Step>, n: nat)
    requires n < |steps|
    ensures Run(steps[..n + 1]) == Next(Run(steps[..n]), steps[n])
  {
    assert steps[..n + 1][..n] == steps[..n];
  }

  /** Over any run, pushes failing at will: every call stays covered throughout if and only if
      no failed push is undone while it is the last notification owed to some call. */
  lemma {:induction false} CoveredUnlessLossyUndo(steps: seq<Step>)
    ensures (forall n :: 0 <= n <= |steps| ==> Covered(Run(steps[..n])))
       <==> forall n :: 0 <= n < |steps| ==> !LossyUndo(Run(steps[..n]), steps[n])
  {
    hide Next, Run, Covered, LossyUndo;
    if forall n :: 0 <= n <= |steps| ==> Covered(Run(steps[..n])) {
      forall n | 0 <= n < |steps|
        ensures !LossyUndo(Run(steps[..n]), steps[n])
      {
        PrefixRun(steps, n);
        ReachableCount(steps[..n]);
        assert Covered(Run(steps[..n + 1]));
        StepCovers(Run(steps[..n]), steps[n]);
      }
    }
    if forall n :: 0 <= n < |steps| ==> !LossyUndo(Run(steps[..n]), steps[n]) {
      forall n | 0 <= n <= |steps|
        ensures Covered(Run(steps[..n]))
      {
        CoveredSoFar(steps, n);
      }
    }
  }

  lemma {:induction false} CoveredSoFar(steps: seq<Step>, n: nat)
    requires n <= |steps|
    requires forall m :: 0 <= m < n ==> !LossyUndo(Run(steps[..m]), steps[m])
    ensures Covered(Run(steps[..n]))
  {
    hide Next, LossyUndo;
    if n > 0 {
      CoveredSoFar(steps, n - 1);
      ReachableCount(steps[..n - 1]);
      PrefixRun(steps, n - 1);
      StepCovers(Run(steps[..n - 1]), steps[n - 1]);
    }
  }

  lemma ReachableCount(steps: seq<Step>)
    ensures CountInv(Run(steps))
  {
    ThrottleInvariant(steps);
  }

  lemma {:induction false} NoFailureSoFar(steps: seq<Step>, n: nat)
    requires n <= |steps| && !Run(steps).pushFailed
    ensures !Run(steps[..n]).pushFailed
    decreases |steps| - n
  {
    if n == |steps| {
      assert steps[..n] == steps;
    } else {
      NoFailureSoFar(steps, n + 1);
      PrefixRun(steps, n);
    }
  }

  /** No sender is past a failed push while none has failed. */
  lemma {:induction false} OnlyCounted(steps: seq<Step>)
    requires !Run(steps).pushFailed
    ensures PushFailed !in Run(steps).senders.Values
    decreases |steps|
  {
    if steps != [] {
      OnlyCounted(steps[..|steps| - 1]);
    }
  }

  /** No lost wake-up: if no push fails, every call of bmsg_rx_sender since the last event
      started, including one that returned early, is covered by a notification whose event has
      not started; so once queue, senders and core thread are at rest, no call is owed one. */
  lemma NoLostWakeUp(steps: seq<Step>)
    requires !Run(steps).pushFailed
    ensures var w := Run(steps);
      && (w.owed > 0 ==> Pending(w) > 0)
      && (RxQueued(w.queue) == 0 && w.senders == map[] && w.core == Waiting ==> w.owed == 0)
  {
    hide Next, Run;
    forall n | 0 <= n < |steps|
      ensures !LossyUndo(Run(steps[..n]), steps[n])
    {
      NoFailureSoFar(steps, n);
      OnlyCounted(steps[..n]);
    }
    CoveredSoFar(steps, |steps|);
    assert steps[..|steps|] == steps;
  }

  /** What is left to do when no more calls come: to push, to pop, to count down, to start. */
  ghost function Work(w: World): nat {
    4 * |w.senders| + 3 * |w.queue| + (match w.core case Waiting => 0 case Popped => 2 case Decremented => 1)
  }

  /** A step of a sender or of the core thread that is possible now, every push succeeding. */
  lemma WorkStep(w: World) returns (s: Step)
    requires Work(w) > 0
    ensures Work(Next(w, s)) < Work(w) && !s.Call? && (Next(w, s).pushFailed ==> w.pushFailed)
  {
    SendersEmpty(w.senders);
    if w.core == Decremented {
      s := StartEvt;
    } else if w.core == Popped {
      s := Decrement;
    } else if w.queue != [] {
      s := Pop;
    } else {
      var i :| i in w.senders;
      SenderCount(w.senders, i, Counted);
      s := if w.senders[i] == Counted then Push(i, true) else Undo(i);
    }
  }

  /** From every reachable state, once no more calls come and pushes succeed, senders and core
      thread come to rest; and if no push failed, every call has then been followed by an event. */
  lemma {:induction false} CallsGetServed(steps: seq<Step>) returns (more: seq<Step>)
    ensures forall s :: s in more ==> !s.Call?
    ensures var w := Run(steps + more);
      && w.queue == [] && w.senders == map[] && w.core == Waiting
      && (!Run(steps).pushFailed ==> w.owed == 0)
    decreases Work(Run(steps))
  {
    var w := Run(steps);
    if Work(w) == 0 {
      more := [];
      assert steps + more == steps;
      assert w.senders.Keys == {} by { SendersEmpty(w.senders); }
      if !w.pushFailed {
        NoLostWakeUp(steps);
      }
    } else {
      var s := WorkStep(w);
      RunSnoc(steps, s);
      var rest := CallsGetServed(steps + [s]);
      more := [s] + rest;
      assert steps + more == steps + [s] + rest;
    }
  }

  lemma RunSnoc(steps: seq<Step>, s: Step)
    ensures Run(steps + [s]) == Next(Run(steps), s)
  {
    assert (steps + [s])[..|steps|] == steps;
  }

  lemma ThreeCallers()
    ensures Run([Call(1), Call(2), Call(3)])
         == World(2, [], map[1 := Counted, 2 := Counted], Waiting, 3, false)
  {
    RunSnoc([], Call(1));
    assert [Call(1)] + [Call(2)] == [Call(1), Call(2)];
    RunSnoc([Call(1)], Call(2));
    assert [Call(1), Call(2)] + [Call(3)] == [Call(1), Call(2), Call(3)];
    RunSnoc([Call(1), Call(2)], Call(3));
  }

  lemma BothFail(steps: seq<Step>)
    requires Run(steps) == World(2, [], map[1 := Counted, 2 := Counted], Waiting, 3, false)
    ensures Run(steps + [Push(1, false)] + [Push(2, false)])
         == World(2, [], map[1 := PushFailed, 2 := PushFailed], Waiting, 3, true)
  {
    RunSnoc(steps, Push(1, false));
    RunSnoc(steps + [Push(1, false)], Push(2, false));
  }

  lemma BothUndo(steps: seq<Step>)
    requires Run(steps) == World(2, [], map[1 := PushFailed, 2 := PushFailed], Waiting, 3, true)
    ensures Run(steps + [Undo(1)] + [Undo(2)]) == World(0, [], map[], Waiting, 3, true)
  {
    var w := Run(steps);
    RunSnoc(steps, Undo(1));
    assert w.senders - {1} == map[2 := PushFailed];
    RunSnoc(steps + [Undo(1)], Undo(2));
    assert w.senders - {1} - {2} == map[];
  }

  /** Such a run exists: senders 1 and 2 fail after sender 3 returned early, and nothing is
      left to start an event for sender 3. */
  lemma FailedPushLosesWakeUp()
    ensures var w := Run([Call(1), Call(2), Call(3), Push(1, false), Push(2, false), Undo(1), Undo(2)]);
      w.owed > 0 && Pending(w) == 0
  {
    hide Next, Run;
    ThreeCallers();
    var s := [Call(1), Call(2), Call(3)];
    BothFail(s);
    BothUndo(s + [Push(1, false)] + [Push(2, false)]);
    assert s + [Push(1, false)] + [Push(2, false)] + [Undo(1)] + [Undo(2)]
        == [Call(1), Call(2), Call(3), Push(1, false), Push(2, false), Undo(1), Undo(2)];
  }

  // ---------------------------------------------------------------- the code, region by region

  datatype PopResult = Got(msg: Msg) | Nothing

  /** The counter and queue as app.c keeps them; each method is one region that runs with
      interrupts disabled, or one queue operation. The history is the world they refine. */
  class WifiCore {
    var bmsgRxCount: int
    var ioQueue: seq<Msg>
    ghost var steps: seq<Step>

    ghost predicate Valid()
      reads this
    {
      bmsgRxCount == Run(steps).count && ioQueue == Run(steps).queue
    }

    constructor ()
      ensures Valid() && steps == []
    {
      bmsgRxCount, ioQueue, steps := 0, [], [];
    }

    /** bmsg_rx_sender up to its first interrupt restore; false is the early return. */
    method CountIn(sender: nat) returns (go: bool)
      requires Valid() && sender !in Run(steps).senders
      modifies this
      ensures Valid() && steps == old(steps) + [Call(sender)]
      ensures go <==> sender in Run(steps).senders
      ensures go <==> old(bmsgRxCount) < 2
    {
      RunSnoc(steps, Call(sender));
      go := bmsgRxCount < LIMIT;
      if go {
        bmsgRxCount := bmsgRxCount + 1;
      }
      steps := steps + [Call(sender)];
    }

    /** rtos_push_to_queue without waiting; `room` is what the queue's capacity allows. */
    method PushRx(sender: nat, room: bool) returns (ok: bool)
      requires Valid() && sender in Run(steps).senders && Run(steps).senders[sender] == Counted
      modifies this
      ensures Valid() && ok == room && steps == old(steps) + [Push(sender, ok)]
      ensures ok ==> sender !in Run(steps).senders && ioQueue == old(ioQueue) + [Rx(sender)]
      ensures !ok ==> sender in Run(steps).senders && Run(steps).senders[sender] == PushFailed
    {
      RunSnoc(steps, Push(sender, room));
      ok := room;
      if ok {
        ioQueue := ioQueue + [Rx(sender)];
      }
      steps := steps + [Push(sender, ok)];
    }

    /** The decrement after a failed push. */
    method CountOut(sender: nat)
      requires Valid() && sender in Run(steps).senders && Run(steps).senders[sender] == PushFailed
      modifies this
      ensures Valid() && steps == old(steps) + [Undo(sender)]
      ensures sender !in Run(steps).senders && bmsgRxCount == old(bmsgRxCount) - 1 >= 0
    {
      RunSnoc(steps, Undo(sender));
      bmsgRxCount := bmsgRxCount - 1;
      steps := steps + [Undo(sender)];
      ThrottleInvariant(steps);
    }

    /** One rtos_pop_from_queue of the dispatch loop. */
    method PopMessage() returns (r: PopResult)
      requires Valid() && Run(steps).core == Waiting
      modifies this
      ensures Valid() && steps == old(steps) + [Pop]
      ensures r.Nothing? <==> old(ioQueue) == []
      ensures r.Got? ==> old(ioQueue) == [r.msg] + ioQueue
      ensures Run(steps).core == if r.Got? && r.msg.Rx? then Popped else Waiting
    {
      RunSnoc(steps, Pop);
      if ioQueue == [] {
        r := Nothing;
      } else {
        r := Got(ioQueue[0]);
        ioQueue := ioQueue[1..];
      }
      steps := steps + [Pop];
    }

    /** bmsg_rx_handler up to its interrupt restore; by the throttle invariant the guard holds. */
    method CountHandled()
      requires Valid() && Run(steps).core == Popped
      modifies this
      ensures Valid() && steps == old(steps) + [Decrement]
      ensures bmsgRxCount == old(bmsgRxCount) - 1 >= 0
    {
      ThrottleInvariant(steps);
      RunSnoc(steps, Decrement);
      if bmsgRxCount > 0 {
        bmsgRxCount := bmsgRxCount - 1;
      }
      steps := steps + [Decrement];
    }

    /** The call of rxl_cntrl_evt that ends bmsg_rx_handler. */
    method StartEvent()
      requires Valid() && Run(steps).core == Decremented
      modifies this
      ensures Valid() && steps == old(steps) + [StartEvt]
      ensures Run(steps).core == Waiting && Run(steps).owed == 0
    {
      RunSnoc(steps, StartEvt);
      steps := steps + [StartEvt];
    }
  }
}
