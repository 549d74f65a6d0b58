/** One port of the relaying and multiplexing task as a state machine over simulation events:
    its queues, the waiting counters, the ready and blocked flags and the events it has pending.
    From src/DIF/RMT/RMTPort.cc, RMTQueue.cc and RMT.cc. */
module RmtProtocol {

  datatype Pdu = Pdu(id: nat, bitError: bool)

  datatype Direction = Input | Output

  /** A queue with the history of the PDUs it kept and of those it let go. */
  datatype Queue = Queue(contents: seq<Pdu>, threshold: int, accepted: seq<Pdu>, released: seq<Pdu>)

  /** One direction of a port: its queues, the counter of waiting PDUs and the flags. activated
      records that the resource allocator has switched the direction on. */
  datatype Side = Side(queues: seq<Queue>, waiting: nat, ready: bool, blocked: bool, activated: bool)

  /** A PDU on its way from output queue `queue` to the wire. */
  datatype Departure = Departure(queue: nat, pdu: Pdu)

  /** toPort holds the PDUs sent by output queues that the port has not yet received; onWire the
      ones the port has put on the wire. The last three count the pending portTransmitEnd,
      readyToServe and readyForRead self-messages. */
  datatype Port = Port(
    input: Side, output: Side, toPort: seq<Departure>, onWire: seq<Departure>,
    pendingTransmitEnds: nat, pendingWrites: nat, pendingReads: nat)
  {
    function Get(d: Direction): Side { if d == Input then input else output }

    function With(d: Direction, s: Side): Port {
      if d == Input then this.(input := s) else this.(output := s)
    }
  }

  /** Subtraction on the unsigned long counters wraps around below zero. */
  function Decrement(n: nat): nat { if n == 0 then 0xFFFF_FFFF_FFFF_FFFF else n - 1 }

  /** So it is subtraction modulo 2^64. */
  lemma DecrementWraps(n: nat)
    requires n < 0x1_0000_0000_0000_0000
    ensures Decrement(n) == (n + 0xFFFF_FFFF_FFFF_FFFF) % 0x1_0000_0000_0000_0000
  {}

  // ---- Steps ----

  function Drops(q: Queue, pdu: Pdu, full: bool): bool {
    pdu.bitError || (|q.contents| + 1 >= q.threshold && full)
  }

  function Enqueue(q: Queue, pdu: Pdu): Queue {
    q.(contents := q.contents + [pdu], accepted := q.accepted + [pdu])
  }

  function Dequeue(q: Queue): Queue
    requires q.contents != []
  {
    q.(contents := q.contents[1..], released := q.released + [q.contents[0]])
  }

  /** A PDU that is not dropped joins the back of queue k and is counted. */
  function Admit(s: Side, k: nat, pdu: Pdu): Side
    requires k < |s.queues|
  {
    s.(queues := s.queues[k := Enqueue(s.queues[k], pdu)], waiting := s.waiting + 1)
  }

  /** The allocator adds a queue at the end of the list. */
  function Extend(s: Side, threshold: int): Side {
    s.(queues := s.queues + [Queue([], threshold, [], [])])
  }

  /** The first PDU of queue k leaves and is discounted, and the direction stops being ready. */
  function Depart(s: Side, k: nat): Side
    requires k < |s.queues| && s.queues[k].contents != []
  {
    s.(queues := s.queues[k := Dequeue(s.queues[k])], waiting := Decrement(s.waiting), ready := false)
  }

  /** RMTQueue::releasePDU and RMT::postQueueDeparture for queue k; nothing if it is empty. */
  function Release(p: Port, d: Direction, k: nat): Port {
    var s := p.Get(d);
    if k >= |s.queues| || s.queues[k].contents == [] then p
    else if d == Input then
      p.(input := Depart(s, k), pendingReads := p.pendingReads + 1)
    else
      p.(output := Depart(s, k), toPort := p.toPort + [Departure(k, s.queues[k].contents[0])])
  }

  /** The scheduling policy: any queues of the given port and direction, in any order. */
  function Schedule(p: Port, d: Direction, picks: seq<nat>): Port
    decreases |picks|
  {
    if picks == [] then p
    else Release(Schedule(p, d, picks[..|picks| - 1]), d, picks[|picks| - 1])
  }

  /** setOutputReady and setInputReady: nothing happens while the direction is blocked. */
  function SetReady(p: Port, d: Direction, picks: seq<nat>): Port {
    if p.Get(d).blocked then p else Schedule(p.With(d, p.Get(d).(ready := true)), d, picks)
  }

  datatype Link = Channel(busy: bool) | NoChannel

  /** picks is what the scheduler chooses if the event invokes it; full what the max-queue policy
      answers if it is asked. */
  datatype Event =
    | Arrive(d: Direction, k: nat, pdu: Pdu, full: bool, picks: seq<nat>)
    | Transmit(link: Link, picks: seq<nat>)
    | TransmitEnd
    | ReadyToServe(picks: seq<nat>)
    | ReadyForRead(picks: seq<nat>)
    | BlockOutput
    | BlockInput
    | Unblock(d: Direction, picks: seq<nat>)
    | Activate(d: Direction, picks: seq<nat>)
    | Reinvoke(d: Direction, picks: seq<nat>)
    | AddQueue(d: Direction, threshold: int)

  predicate Enabled(p: Port, e: Event) {
    match e
    case Arrive(d, k, _, _, _) => k < |p.Get(d).queues|
    case Transmit(_, _) => p.toPort != []
    case TransmitEnd => p.pendingTransmitEnds > 0
    case ReadyToServe(_) => p.pendingWrites > 0
    case ReadyForRead(_) => p.pendingReads > 0
    case _ => true
  }

  function OnArrive(p: Port, d: Direction, k: nat, pdu: Pdu, full: bool, picks: seq<nat>): Port
    requires k < |p.Get(d).queues|
  {
    if Drops(p.Get(d).queues[k], pdu, full) then p
    else Schedule(p.With(d, Admit(p.Get(d), k, pdu)), d, picks)
  }

  /** A PDU from an output queue reaches the port and is put on the wire. */
  function PassDown(p: Port): Port
    requires p.toPort != []
  {
    p.(output := p.output.(ready := false), toPort := p.toPort[1..], onWire := p.onWire + [p.toPort[0]])
  }

  function OnTransmit(p: Port, link: Link, picks: seq<nat>): Port
    requires p.toPort != []
  {
    var p1 := PassDown(p);
    match link
    case Channel(true) => p1.(pendingTransmitEnds := p1.pendingTransmitEnds + 1)
    case Channel(false) => p1.(pendingWrites := p1.pendingWrites + 1)
    case NoChannel => Schedule(p1.(pendingWrites := p1.pendingWrites + 1), Output, picks)
  }

  function Step(p: Port, e: Event): Port
    requires Enabled(p, e)
  {
    match e
    case Arrive(d, k, pdu, full, picks) => OnArrive(p, d, k, pdu, full, picks)
    case Transmit(link, picks) => OnTransmit(p, link, picks)
    case TransmitEnd =>
      p.(pendingTransmitEnds := p.pendingTransmitEnds - 1, pendingWrites := p.pendingWrites + 1)
    case ReadyToServe(picks) => SetReady(p.(pendingWrites := p.pendingWrites - 1), Output, picks)
    case ReadyForRead(picks) => SetReady(p.(pendingReads := p.pendingReads - 1), Input, picks)
    case BlockOutput => p.(output := p.output.(blocked := true, ready := false))
    case BlockInput => p.(input := p.input.(blocked := true))
    case Unblock(d, picks) => SetReady(p.With(d, p.Get(d).(blocked := false)), d, picks)
    case Activate(d, picks) => SetReady(p.With(d, p.Get(d).(activated := true)), d, picks)
    case Reinvoke(d, picks) => Schedule(p, d, picks)
    case AddQueue(d, threshold) => p.With(d, Extend(p.Get(d), threshold))
  }

  // ---- The invariant ----

  function Waiting(qs: seq<Queue>): nat {
    if qs == [] then 0 else |qs[0].contents| + Waiting(qs[1..])
  }

  /** The PDUs of one output queue among the departures. */
  function From(k: nat, ds: seq<Departure>): seq<Pdu> {
    if ds == [] then []
    else From(k, ds[..|ds| - 1]) + (if ds[|ds| - 1].queue == k then [ds[|ds| - 1].pdu] else [])
  }

  ghost predicate Counted(s: Side) { s.waiting == Waiting(s.queues) }

  ghost predicate Conserved(s: Side) {
    forall k :: 0 <= k < |s.queues| ==> s.queues[k].accepted == s.queues[k].released + s.queues[k].contents
  }

  /** What left an output queue is on its way to the port or on the wire, in order. */
  ghost predicate Traced(p: Port) {
    && (forall k :: 0 <= k < |p.output.queues| ==>
          p.output.queues[k].released == From(k, p.onWire + p.toPort))
    && (forall i :: 0 <= i < |p.onWire + p.toPort| ==> (p.onWire + p.toPort)[i].queue < |p.output.queues|)
  }

  /** No lost wakeup: a direction that is neither blocked nor ready has a pending event that will
      make it ready. */
  ghost predicate Live(p: Port) {
    && (p.output.blocked ==> !p.output.ready)
    && (p.output.activated && !p.output.blocked && !p.output.ready ==>
          p.toPort != [] || p.pendingTransmitEnds > 0 || p.pendingWrites > 0)
    && (p.input.activated && !p.input.blocked && !p.input.ready ==> p.pendingReads > 0)
  }

  ghost predicate Invariant(p: Port) {
    && Counted(p.input) && Counted(p.output)
    && Conserved(p.input) && Conserved(p.output)
    && Traced(p)
    && Live(p)
  }

  lemma {:induction false} WaitingUpdate(qs: seq<Queue>, k: nat, q: Queue)
    requires k < |qs|
    ensures Waiting(qs[k := q]) == Waiting(qs) - |qs[k].contents| + |q.contents|
    ensures Waiting(qs) >= |qs[k].contents|
    decreases |qs|
  {
    if k > 0 {
      assert qs[k := q][1..] == qs[1..][k - 1 := q];
      WaitingUpdate(qs[1..], k - 1, q);
    } else {
      assert qs[0 := q][1..] == qs[1..];
    }
  }

  lemma FromAppend(k: nat, ds: seq<Departure>, x: Departure)
    ensures From(k, ds + [x]) == From(k, ds) + (if x.queue == k then [x.pdu] else [])
  {
    assert (ds + [x])[..|ds|] == ds;
  }

  lemma DepartKeeps(s: Side, k: nat)
    requires Counted(s) && Conserved(s) && k < |s.queues| && s.queues[k].contents != []
    ensures Counted(Depart(s, k)) && Conserved(Depart(s, k)) && s.waiting > 0
  {
    var q := s.queues[k];
    WaitingUpdate(s.queues, k, Dequeue(q));
    assert q.released + q.contents == Dequeue(q).released + Dequeue(q).contents;
  }

  lemma AdmitKeeps(s: Side, k: nat, pdu: Pdu)
    requires Counted(s) && Conserved(s) && k < |s.queues|
    ensures Counted(Admit(s, k, pdu)) && Conserved(Admit(s, k, pdu))
  {
    var q := s.queues[k];
    WaitingUpdate(s.queues, k, Enqueue(q, pdu));
    assert q.released + q.contents + [pdu] == q.released + Enqueue(q, pdu).contents;
  }

  lemma ReleaseKeepsInvariant(p: Port, d: Direction, k: nat)
    requires Invariant(p)
    ensures Invariant(Release(p, d, k))
  {
    hide Counted, Conserved;
    var s := p.Get(d);
    if k < |s.queues| && s.queues[k].contents != [] {
      DepartKeeps(s, k);
      if d == Output {
        var t := Release(p, d, k);
        var ds, x := p.onWire + p.toPort, Departure(k, s.queues[k].contents[0]);
        assert t.onWire + t.toPort == ds + [x];
        forall i | 0 <= i < |t.output.queues|
          ensures t.output.queues[i].released == From(i, t.onWire + t.toPort)
        {
          FromAppend(i, ds, x);
        }
      }
    }
  }

  lemma {:induction false} ScheduleKeepsInvariant(p: Port, d: Direction, picks: seq<nat>)
    requires Invariant(p)
    ensures Invariant(Schedule(p, d, picks))
    decreases |picks|
  {
    hide Invariant, Release;
    if picks != [] {
      ScheduleKeepsInvariant(p, d, picks[..|picks| - 1]);
      ReleaseKeepsInvariant(Schedule(p, d, picks[..|picks| - 1]), d, picks[|picks| - 1]);
    }
  }

  lemma ArriveKeepsInvariant(p: Port, d: Direction, k: nat, pdu: Pdu, full: bool, picks: seq<nat>)
    requires Invariant(p) && k < |p.Get(d).queues|
    ensures Invariant(OnArrive(p, d, k, pdu, full, picks))
  {
    hide Schedule, Counted, Conserved;
    if !Drops(p.Get(d).queues[k], pdu, full) {
      AdmitKeeps(p.Get(d), k, pdu);
      ScheduleKeepsInvariant(p.With(d, Admit(p.Get(d), k, pdu)), d, picks);
    }
  }

  lemma TransmitKeepsInvariant(p: Port, link: Link, picks: seq<nat>)
    requires Invariant(p) && p.toPort != []
    ensures Invariant(OnTransmit(p, link, picks))
  {
    hide Schedule, From, Waiting;
    var p1 := PassDown(p);
    assert p1.onWire + p1.toPort == p.onWire + p.toPort;
    if link.NoChannel? {
      ScheduleKeepsInvariant(p1.(pendingWrites := p.pendingWrites + 1), Output, picks);
    }
  }

  lemma SetReadyKeepsInvariant(p: Port, before: Port, d: Direction, picks: seq<nat>)
    requires Invariant(before)
    requires p == before.With(d, before.Get(d).(blocked := p.Get(d).blocked, activated := p.Get(d).activated))
                        .(pendingWrites := p.pendingWrites, pendingReads := p.pendingReads)
    requires d == Input ==> p.pendingWrites == before.pendingWrites
    requires d == Output ==> p.pendingReads == before.pendingReads
    requires p.Get(d).blocked ==> before.Get(d).blocked
    ensures Invariant(SetReady(p, d, picks))
  {
    hide Schedule, From, Waiting;
    if !p.Get(d).blocked {
      ScheduleKeepsInvariant(p.With(d, p.Get(d).(ready := true)), d, picks);
    }
  }

  lemma {:induction false} WaitingExtend(qs: seq<Queue>, q: Queue)
    requires q.contents == []
    ensures Waiting(qs + [q]) == Waiting(qs)
  {
    if qs == [] {
      assert qs + [q] == [q] && [q][1..] == [];
    } else {
      assert (qs + [q])[1..] == qs[1..] + [q];
      WaitingExtend(qs[1..], q);
    }
  }

  lemma {:induction false} FromNone(k: nat, ds: seq<Departure>)
    requires forall i :: 0 <= i < |ds| ==> ds[i].queue != k
    ensures From(k, ds) == []
    decreases |ds|
  {
    if ds != [] { FromNone(k, ds[..|ds| - 1]); }
  }

  lemma AddQueueKeepsInvariant(p: Port, d: Direction, threshold: int)
    requires Invariant(p)
    ensures Invariant(p.With(d, Extend(p.Get(d), threshold)))
  {
    hide From, Waiting;
    WaitingExtend(p.Get(d).queues, Queue([], threshold, [], []));
    FromNone(|p.output.queues|, p.onWire + p.toPort);
  }

  lemma StepKeepsInvariant(p: Port, e: Event)
    requires Invariant(p) && Enabled(p, e)
    ensures Invariant(Step(p, e))
  {
    match e
    case Arrive(d, k, pdu, full, picks) => ArriveKeepsInvariant(p, d, k, pdu, full, picks);
    case Transmit(link, picks) => TransmitKeepsInvariant(p, link, picks);
    case ReadyToServe(picks) =>
      SetReadyKeepsInvariant(p.(pendingWrites := p.pendingWrites - 1), p, Output, picks);
    case ReadyForRead(picks) =>
      SetReadyKeepsInvariant(p.(pendingReads := p.pendingReads - 1), p, Input, picks);
    case Unblock(d, picks) =>
      SetReadyKeepsInvariant(p.With(d, p.Get(d).(blocked := false)), p, d, picks);
    case Activate(d, picks) =>
      SetReadyKeepsInvariant(p.With(d, p.Get(d).(activated := true)), p, d, picks);
    case Reinvoke(d, picks) => ScheduleKeepsInvariant(p, d, picks);
    case AddQueue(d, threshold) => AddQueueKeepsInvariant(p, d, threshold);
    case _ =>
  }

  // ---- Whole runs ----

  ghost predicate InitialSide(s: Side) {
    && s == Side(s.queues, 0, false, false, false)
    && forall k :: 0 <= k < |s.queues| ==> s.queues[k] == Queue([], s.queues[k].threshold, [], [])
  }

  /** A port as RMTPort::initialize leaves it, with empty queues. */
  ghost predicate Initial(p: Port) {
    && InitialSide(p.input) && InitialSide(p.output)
    && p == Port(p.input, p.output, [], [], 0, 0, 0)
  }

  /** The port after a sequence of events, or nothing if one of them was not enabled. */
  datatype Outcome = Reached(port: Port) | Impossible

  function Run(p: Port, events: seq<Event>): Outcome
    decreases |events|
  {
    if events == [] then Reached(p)
    else
      match Run(p, events[..|events| - 1])
      case Reached(q) =>
        var e := events[|events| - 1];
        if Enabled(q, e) then Reached(Step(q, e)) else Impossible
      case Impossible => Impossible
  }

  lemma {:induction false} WaitingNone(qs: seq<Queue>)
    requires forall k :: 0 <= k < |qs| ==> qs[k].contents == []
    ensures Waiting(qs) == 0
  {
    if qs != [] { WaitingNone(qs[1..]); }
  }

  /** The counters, conservation and no lost wakeup hold at every event boundary of every run,
      whatever the scheduler releases and the policies drop. */
  lemma {:induction false} InvariantOverRuns(p: Port, events: seq<Event>)
    requires Initial(p)
    ensures Run(p, events).Reached? ==> Invariant(Run(p, events).port)
    decreases |events|
  {
    if events == [] {
      WaitingNone(p.input.queues);
      WaitingNone(p.output.queues);
    } else {
      hide Invariant, Step, Initial;
      var earlier := events[..|events| - 1];
      InvariantOverRuns(p, earlier);
      if Run(p, earlier).Reached? && Enabled(Run(p, earlier).port, events[|events| - 1]) {
        StepKeepsInvariant(Run(p, earlier).port, events[|events| - 1]);
      }
    }
  }

  lemma {:induction false} FromSplit(k: nat, ds: seq<Departure>, es: seq<Departure>)
    ensures From(k, ds + es) == From(k, ds) + From(k, es)
    decreases |es|
  {
    if es == [] {
      assert ds + es == ds;
    } else {
      assert (ds + es)[..|ds + es| - 1] == ds + es[..|es| - 1];
      FromSplit(k, ds, es[..|es| - 1]);
    }
  }

  /** End to end: what output queue k accepted is, in order, what it has put on the wire, what is
      between it and the port, and what it still holds. */
  lemma FirstInFirstOut(p: Port, events: seq<Event>, k: nat)
    requires Initial(p)
    ensures Run(p, events).Reached? && k < |Run(p, events).port.output.queues| ==>
              var t := Run(p, events).port;
              t.output.queues[k].accepted == From(k, t.onWire) + From(k, t.toPort) + t.output.queues[k].contents
  {
    InvariantOverRuns(p, events);
    hide Initial, Live, Counted;
    if Run(p, events).Reached? && k < |Run(p, events).port.output.queues| {
      var t := Run(p, events).port;
      FromSplit(k, t.onWire, t.toPort);
    }
  }

  // ---- What is let in ----

  /** A damaged PDU leaves no trace. Any other joins the back of its queue and is counted, and the
      scheduler runs, unless the queue reaches its threshold with it and the policy refuses it. */
  lemma ArriveExactly(p: Port, d: Direction, k: nat, pdu: Pdu, full: bool, picks: seq<nat>)
    requires k < |p.Get(d).queues|
    ensures
      var s, q, t := p.Get(d), p.Get(d).queues[k], OnArrive(p, d, k, pdu, full, picks);
      if !pdu.bitError && (|q.contents| + 1 < q.threshold || !full) then
        var joined := q.(contents := q.contents + [pdu], accepted := q.accepted + [pdu]);
        t == Schedule(p.With(d, s.(queues := s.queues[k := joined], waiting := s.waiting + 1)), d, picks)
      else t == p
  {
    hide Schedule;
  }

  ghost predicate Undamaged(s: Side) {
    forall k, i :: 0 <= k < |s.queues| && 0 <= i < |s.queues[k].accepted| ==> !s.queues[k].accepted[i].bitError
  }

  lemma {:induction false} ScheduleKeepsUndamaged(p: Port, d: Direction, picks: seq<nat>)
    requires Undamaged(p.input) && Undamaged(p.output)
    ensures Undamaged(Schedule(p, d, picks).input) && Undamaged(Schedule(p, d, picks).output)
    decreases |picks|
  {
    if picks != [] { ScheduleKeepsUndamaged(p, d, picks[..|picks| - 1]); }
  }

  lemma StepKeepsUndamaged(p: Port, e: Event)
    requires Enabled(p, e) && Undamaged(p.input) && Undamaged(p.output)
    ensures Undamaged(Step(p, e).input) && Undamaged(Step(p, e).output)
  {
    hide Schedule;
    match e
    case Arrive(d, k, pdu, full, picks) =>
      if !Drops(p.Get(d).queues[k], pdu, full) {
        ScheduleKeepsUndamaged(p.With(d, Admit(p.Get(d), k, pdu)), d, picks);
      }
    case Transmit(link, picks) =>
      ScheduleKeepsUndamaged(PassDown(p).(pendingWrites := p.pendingWrites + 1), Output, picks);
    case ReadyToServe(picks) =>
      ScheduleKeepsUndamaged(p.(pendingWrites := p.pendingWrites - 1, output := p.output.(ready := true)), Output, picks);
    case ReadyForRead(picks) =>
      ScheduleKeepsUndamaged(p.(pendingReads := p.pendingReads - 1, input := p.input.(ready := true)), Input, picks);
    case Unblock(d, picks) =>
      ScheduleKeepsUndamaged(p.With(d, p.Get(d).(blocked := false, ready := true)), d, picks);
    case Activate(d, picks) =>
      ScheduleKeepsUndamaged(p.With(d, p.Get(d).(activated := true, ready := true)), d, picks);
    case Reinvoke(d, picks) => ScheduleKeepsUndamaged(p, d, picks);
    case _ =>
  }

  lemma {:induction false} FromHolds(k: nat, ds: seq<Departure>, i: nat)
    requires i < |ds| && ds[i].queue == k
    ensures ds[i].pdu in From(k, ds)
    decreases |ds|
  {
    if i < |ds| - 1 { FromHolds(k, ds[..|ds| - 1], i); }
  }

  lemma {:induction false} UndamagedOverRuns(p: Port, events: seq<Event>)
    requires Initial(p)
    ensures Run(p, events).Reached? ==>
              Undamaged(Run(p, events).port.input) && Undamaged(Run(p, events).port.output)
    decreases |events|
  {
    if events != [] {
      hide Initial, Step, Undamaged;
      var earlier, e := events[..|events| - 1], events[|events| - 1];
      UndamagedOverRuns(p, earlier);
      if Run(p, earlier).Reached? && Enabled(Run(p, earlier).port, e) {
        StepKeepsUndamaged(Run(p, earlier).port, e);
      }
    }
  }

  /** In every run no PDU with a bit error is accepted by a queue, is on its way to the port, or is put
      on the wire. */
  lemma NoDamagedPdu(p: Port, events: seq<Event>)
    requires Initial(p)
    ensures Run(p, events).Reached? ==>
              var t := Run(p, events).port;
              && (forall d: Direction, k, i :: 0 <= k < |t.Get(d).queues| && 0 <= i < |t.Get(d).queues[k].accepted| ==>
                    !t.Get(d).queues[k].accepted[i].bitError)
              && (forall i :: 0 <= i < |t.toPort| ==> !t.toPort[i].pdu.bitError)
              && (forall i :: 0 <= i < |t.onWire| ==> !t.onWire[i].pdu.bitError)
  {
    UndamagedOverRuns(p, events);
    InvariantOverRuns(p, events);
    hide Initial, Live, Counted, Run;
    if Run(p, events).Reached? {
      var t := Run(p, events).port;
      var ds := t.onWire + t.toPort;
      forall i | 0 <= i < |ds| ensures !ds[i].pdu.bitError {
        var k := ds[i].queue;
        FromHolds(k, ds, i);
        var q := t.output.queues[k];
        assert ds[i].pdu in q.released;
        assert ds[i].pdu in q.accepted;
      }
      assert forall i :: 0 <= i < |t.toPort| ==> ds[|t.onWire| + i] == t.toPort[i];
      assert forall i :: 0 <= i < |t.onWire| ==> ds[i] == t.onWire[i];
    }
  }

  // ---- Pending events ----

  /** How many of the events are of some kind. */
  function Count(events: seq<Event>, kind: Event -> bool): nat
    decreases |events|
  {
    if events == [] then 0 else Count(events[..|events| - 1], kind) + (if kind(events[|events| - 1]) then 1 else 0)
  }

  /** How many PDUs the queues of a direction have let go. */
  function Let(qs: seq<Queue>): nat { if qs == [] then 0 else |qs[0].released| + Let(qs[1..]) }

  lemma {:induction false} LetUpdate(qs: seq<Queue>, k: nat, q: Queue)
    requires k < |qs|
    ensures Let(qs[k := q]) == Let(qs) - |qs[k].released| + |q.released|
    decreases |qs|
  {
    if k > 0 {
      assert qs[k := q][1..] == qs[1..][k - 1 := q];
      LetUpdate(qs[1..], k - 1, q);
    } else {
      assert qs[0 := q][1..] == qs[1..];
    }
  }

  lemma {:induction false} LetExtend(qs: seq<Queue>, q: Queue)
    requires q.released == []
    ensures Let(qs + [q]) == Let(qs)
  {
    if qs == [] {
      assert qs + [q] == [q] && [q][1..] == [];
    } else {
      assert (qs + [q])[1..] == qs[1..] + [q];
      LetExtend(qs[1..], q);
    }
  }

  lemma {:induction false} LetNone(qs: seq<Queue>)
    requires forall k :: 0 <= k < |qs| ==> qs[k].released == []
    ensures Let(qs) == 0
  {
    if qs != [] { LetNone(qs[1..]); }
  }

  /** A release from an input queue makes one read pending; nothing else about the link changes. */
  lemma {:induction false} ScheduleBalance(p: Port, d: Direction, picks: seq<nat>)
    ensures var t := Schedule(p, d, picks);
      && t.pendingTransmitEnds == p.pendingTransmitEnds && t.pendingWrites == p.pendingWrites && t.onWire == p.onWire
      && t.pendingReads - Let(t.input.queues) == p.pendingReads - Let(p.input.queues)
    decreases |picks|
  {
    hide Let, Decrement;
    if picks != [] {
      var q, k := Schedule(p, d, picks[..|picks| - 1]), picks[|picks| - 1];
      ScheduleBalance(p, d, picks[..|picks| - 1]);
      if d == Input && k < |q.input.queues| && q.input.queues[k].contents != [] {
        LetUpdate(q.input.queues, k, Dequeue(q.input.queues[k]));
      }
    }
  }

  lemma StepBalance(p: Port, e: Event)
    requires Enabled(p, e)
    ensures var t := Step(p, e);
      && t.pendingTransmitEnds + (if e.TransmitEnd? then 1 else 0)
         == p.pendingTransmitEnds + (if e.Transmit? && e.link == Channel(true) then 1 else 0)
      && t.pendingWrites + (if e.ReadyToServe? then 1 else 0)
         == p.pendingWrites + (if e.TransmitEnd? || (e.Transmit? && e.link != Channel(true)) then 1 else 0)
      && t.pendingReads - Let(t.input.queues) + (if e.ReadyForRead? then 1 else 0) == p.pendingReads - Let(p.input.queues)
      && |t.onWire| == |p.onWire| + (if e.Transmit? then 1 else 0)
  {
    hide Schedule, Let;
    match e
    case Arrive(d, k, pdu, full, picks) =>
      if !Drops(p.Get(d).queues[k], pdu, full) {
        LetUpdate(p.Get(d).queues, k, Enqueue(p.Get(d).queues[k], pdu));
        ScheduleBalance(p.With(d, Admit(p.Get(d), k, pdu)), d, picks);
      }
    case Transmit(link, picks) =>
      ScheduleBalance(PassDown(p).(pendingWrites := p.pendingWrites + 1), Output, picks);
    case ReadyToServe(picks) =>
      ScheduleBalance(p.(pendingWrites := p.pendingWrites - 1, output := p.output.(ready := true)), Output, picks);
    case ReadyForRead(picks) =>
      ScheduleBalance(p.(pendingReads := p.pendingReads - 1, input := p.input.(ready := true)), Input, picks);
    case Unblock(d, picks) => ScheduleBalance(p.With(d, p.Get(d).(blocked := false, ready := true)), d, picks);
    case Activate(d, picks) => ScheduleBalance(p.With(d, p.Get(d).(activated := true, ready := true)), d, picks);
    case Reinvoke(d, picks) => ScheduleBalance(p, d, picks);
    case AddQueue(d, threshold) => LetExtend(p.Get(d).queues, Queue([], threshold, [], []));
    case _ =>
  }

  function IsBusy(e: Event): bool { e.Transmit? && e.link == Channel(true) }
  function IsSent(e: Event): bool { e.Transmit? && e.link != Channel(true) }
  function IsTransmit(e: Event): bool { e.Transmit? }
  function IsTransmitEnd(e: Event): bool { e.TransmitEnd? }
  function IsReadyToServe(e: Event): bool { e.ReadyToServe? }
  function IsReadyForRead(e: Event): bool { e.ReadyForRead? }

  /** The pending events of every run, counted from what happened: each PDU put on a busy channel ends
      its transmission once; each end, and each PDU that needed no time, makes the port ready to serve
      once; each PDU let go by an input queue makes it ready for a read once; and the wire has one PDU
      for each that the port received. */
  lemma {:induction false} EventsBalance(p: Port, events: seq<Event>)
    requires Initial(p)
    ensures Run(p, events).Reached? ==>
              var t := Run(p, events).port;
              && Count(events, IsBusy) == Count(events, IsTransmitEnd) + t.pendingTransmitEnds
              && Count(events, IsTransmitEnd) + Count(events, IsSent) == Count(events, IsReadyToServe) + t.pendingWrites
              && Let(t.input.queues) == Count(events, IsReadyForRead) + t.pendingReads
              && Count(events, IsTransmit) == |t.onWire|
    decreases |events|
  {
    if events == [] {
      LetNone(p.input.queues);
    } else {
      hide Initial, Step, Let;
      var earlier, e := events[..|events| - 1], events[|events| - 1];
      EventsBalance(p, earlier);
      if Run(p, earlier).Reached? && Enabled(Run(p, earlier).port, e) {
        StepBalance(Run(p, earlier).port, e);
      }
    }
  }

  // ---- When the scheduler runs ----

  /** The same event with a scheduler that picks nothing. */
  function Unscheduled(e: Event): Event {
    match e
    case Arrive(d, k, pdu, full, _) => Arrive(d, k, pdu, full, [])
    case Transmit(link, _) => Transmit(link, [])
    case ReadyToServe(_) => ReadyToServe([])
    case ReadyForRead(_) => ReadyForRead([])
    case Unblock(d, _) => Unblock(d, [])
    case Activate(d, _) => Activate(d, [])
    case Reinvoke(d, _) => Reinvoke(d, [])
    case _ => e
  }

  /** The scheduler is invoked by a PDU that is let in, by one that leaves on no channel, and by whatever
      makes a direction ready that is not blocked. */
  predicate Invokes(p: Port, e: Event) {
    match e
    case Arrive(d, k, pdu, full, _) =>
      k < |p.Get(d).queues| && !pdu.bitError && (|p.Get(d).queues[k].contents| + 1 < p.Get(d).queues[k].threshold || !full)
    case Transmit(link, _) => link.NoChannel?
    case ReadyToServe(_) => !p.output.blocked
    case ReadyForRead(_) => !p.input.blocked
    case Unblock(_, _) => true
    case Activate(d, _) => !p.Get(d).blocked
    case Reinvoke(_, _) => true
    case _ => false
  }

  function Picks(e: Event): seq<nat> {
    if e.Arrive? || e.Transmit? || e.ReadyToServe? || e.ReadyForRead? || e.Unblock? || e.Activate? || e.Reinvoke?
    then e.picks else []
  }

  function DirectionOf(e: Event): Direction {
    if e.Arrive? || e.Unblock? || e.Activate? || e.Reinvoke? then e.d else if e.ReadyForRead? then Input else Output
  }

  /** Every event is its own effect, followed by a run of the scheduler exactly if it invokes it. */
  lemma SchedulerRunsExactly(p: Port, e: Event)
    requires Enabled(p, e)
    ensures Enabled(p, Unscheduled(e))
    ensures Step(p, e) ==
      if Invokes(p, e) then Schedule(Step(p, Unscheduled(e)), DirectionOf(e), Picks(e)) else Step(p, Unscheduled(e))
  {
    assert forall q: Port, d: Direction :: Schedule(q, d, []) == q;
    hide Schedule;
  }

  /** What the events do that make a direction ready or not, before the scheduler runs. */
  lemma ReadyExactly(p: Port, e: Event)
    requires Enabled(p, e)
    ensures var t := Step(p, Unscheduled(e));
      && t.output.ready == (if e == BlockOutput || e.Transmit? then false
                            else p.output.ready
                                 || (!p.output.blocked && (e.ReadyToServe? || (e.Activate? && e.d == Output)))
                                 || (e.Unblock? && e.d == Output))
      && t.input.ready == (p.input.ready
                           || (!p.input.blocked && (e.ReadyForRead? || (e.Activate? && e.d == Input)))
                           || (e.Unblock? && e.d == Input))
      && t.output.blocked == (e == BlockOutput || (p.output.blocked && !(e.Unblock? && e.d == Output)))
      && t.input.blocked == (e == BlockInput || (p.input.blocked && !(e.Unblock? && e.d == Input)))
  {
    assert forall q: Port, d: Direction :: Schedule(q, d, []) == q;
    hide Schedule;
  }

  // ---- Longest queue ----

  /** waiting is zero exactly when every queue is empty. */
  lemma {:induction false} WaitingZero(qs: seq<Queue>)
    ensures Waiting(qs) == 0 <==> forall k :: 0 <= k < |qs| ==> qs[k].contents == []
  {
    if qs != [] {
      WaitingZero(qs[1..]);
      if Waiting(qs) == 0 {
        forall k | 0 <= k < |qs|
          ensures qs[k].contents == []
        {
          if k > 0 { assert qs[k] == qs[1..][k - 1]; }
        }
      } else if |qs[0].contents| == 0 {
        var k :| 0 <= k < |qs[1..]| && qs[1..][k].contents != [];
        assert qs[k + 1].contents != [];
      }
    }
  }

  // ---- Serving one PDU at a time ----

  /** The number of PDUs released and not yet followed by a readyToServe. */
  function InService(p: Port): nat { |p.toPort| + p.pendingTransmitEnds + p.pendingWrites }

  /** A ready output is idle, and at most one PDU is in service. */
  ghost predicate OneAtATime(p: Port) {
    InService(p) <= 1 && (p.output.ready ==> InService(p) == 0)
  }

  /** A scheduler that, like the supplied ones, releases at most one output PDU at a time, and
      that only when the output is ready. */
  predicate Polite(d: Direction, ready: bool, picks: seq<nat>) {
    d == Output ==> |picks| <= 1 && (!ready ==> picks == [])
  }

  /** The picks of an event are polite for the readiness the scheduler sees when it is invoked. */
  predicate PoliteEvent(p: Port, e: Event) {
    match e
    case Arrive(d, _, _, _, picks) => Polite(d, p.output.ready, picks)
    case Transmit(_, picks) => Polite(Output, false, picks)
    case ReadyToServe(picks) => Polite(Output, true, picks)
    case Unblock(d, picks) => Polite(d, true, picks)
    case Activate(d, picks) => Polite(d, true, picks)
    case Reinvoke(d, picks) => Polite(d, p.output.ready, picks)
    case _ => true
  }

  lemma {:induction false} ScheduleInputKeepsService(p: Port, picks: seq<nat>)
    ensures InService(Schedule(p, Input, picks)) == InService(p)
    ensures Schedule(p, Input, picks).output == p.output
    decreases |picks|
  {
    if picks != [] { ScheduleInputKeepsService(p, picks[..|picks| - 1]); }
  }

  lemma ScheduleKeepsService(p: Port, d: Direction, picks: seq<nat>)
    requires InService(p) <= 1 && Polite(d, p.output.ready, picks)
    ensures OneAtATime(Schedule(p, d, picks)) <==> OneAtATime(p)
  {
    if d == Input {
      ScheduleInputKeepsService(p, picks);
    } else if picks != [] {
      assert picks[..|picks| - 1] == [];
      assert Schedule(p, Output, picks) == Release(p, Output, picks[0]);
    }
  }

  lemma ArriveKeepsService(p: Port, d: Direction, k: nat, pdu: Pdu, full: bool, picks: seq<nat>)
    requires OneAtATime(p) && k < |p.Get(d).queues| && Polite(d, p.output.ready, picks)
    ensures OneAtATime(OnArrive(p, d, k, pdu, full, picks))
  {
    hide Schedule;
    if !Drops(p.Get(d).queues[k], pdu, full) {
      ScheduleKeepsService(p.With(d, Admit(p.Get(d), k, pdu)), d, picks);
    }
  }

  lemma TransmitKeepsService(p: Port, link: Link, picks: seq<nat>)
    requires OneAtATime(p) && p.toPort != [] && Polite(Output, false, picks)
    ensures OneAtATime(OnTransmit(p, link, picks))
  {
    hide Schedule;
    var p1 := PassDown(p);
    ScheduleKeepsService(p1.(pendingWrites := p.pendingWrites + 1), Output, picks);
  }

  lemma SetReadyService(p: Port, d: Direction, picks: seq<nat>)
    requires InService(p) <= 1 && (p.output.ready ==> InService(p) == 0) && Polite(d, true, picks)
    ensures OneAtATime(SetReady(p, d, picks))
            <==> (d == Output && !p.output.blocked ==> InService(p) == 0)
  {
    hide Schedule;
    if !p.Get(d).blocked {
      ScheduleKeepsService(p.With(d, p.Get(d).(ready := true)), d, picks);
    }
  }

  /** Under a polite scheduler every event keeps one-at-a-time service, except that unblocking or
      switching on an output that is still serving a PDU breaks it: the port then counts as ready
      while a PDU is in service. */
  lemma OneAtATimeExactly(p: Port, e: Event)
    requires OneAtATime(p) && Enabled(p, e) && PoliteEvent(p, e)
    ensures
      var makesReady := (e.Unblock? || (e.Activate? && !p.output.blocked)) && e.d == Output;
      OneAtATime(Step(p, e)) <==> (makesReady ==> InService(p) == 0)
  {
    hide OnArrive, OnTransmit, SetReady, Schedule;
    match e
    case Arrive(d, k, pdu, full, picks) => ArriveKeepsService(p, d, k, pdu, full, picks);
    case Transmit(link, picks) => TransmitKeepsService(p, link, picks);
    case ReadyToServe(picks) => SetReadyService(p.(pendingWrites := p.pendingWrites - 1), Output, picks);
    case ReadyForRead(picks) => SetReadyService(p.(pendingReads := p.pendingReads - 1), Input, picks);
    case Unblock(d, picks) => SetReadyService(p.With(d, p.Get(d).(blocked := false)), d, picks);
    case Activate(d, picks) => SetReadyService(p.With(d, p.Get(d).(activated := true)), d, picks);
    case Reinvoke(d, picks) => ScheduleKeepsService(p, d, picks);
    case _ =>
  }

  /** The event makes the output ready at once. */
  predicate MakesReady(p: Port, e: Event) { (e.Unblock? || (e.Activate? && !p.output.blocked)) && e.d == Output }

  /** An event under a polite scheduler that does not unblock or switch on an output still serving. */
  predicate Careful(p: Port, e: Event) { PoliteEvent(p, e) && (MakesReady(p, e) ==> InService(p) == 0) }

  ghost predicate CarefulRun(p: Port, events: seq<Event>)
    decreases |events|
  {
    events == []
    || (&& CarefulRun(p, events[..|events| - 1])
        && (Run(p, events[..|events| - 1]).Reached? ==>
              Careful(Run(p, events[..|events| - 1]).port, events[|events| - 1])))
  }

  /** Over whole runs: while outputs are unblocked and switched on only when idle, at most one PDU is
      in service and a ready output is idle, at every event boundary. */
  lemma {:induction false} OneAtATimeOverRuns(p: Port, events: seq<Event>)
    requires Initial(p) && CarefulRun(p, events)
    ensures Run(p, events).Reached? ==> OneAtATime(Run(p, events).port)
    decreases |events|
  {
    if events != [] {
      hide Initial, Step, OneAtATime, InService;
      var earlier, e := events[..|events| - 1], events[|events| - 1];
      OneAtATimeOverRuns(p, earlier);
      if Run(p, earlier).Reached? && Enabled(Run(p, earlier).port, e) {
        OneAtATimeExactly(Run(p, earlier).port, e);
      }
    }
  }

  /** The first event that unblocks or switches on a serving output ends that. */
  lemma FirstCarelessEvent(p: Port, events: seq<Event>, e: Event)
    requires Initial(p) && CarefulRun(p, events) && Run(p, events).Reached?
    requires Enabled(Run(p, events).port, e) && PoliteEvent(Run(p, events).port, e)
    ensures Run(p, events + [e]) == Reached(Step(Run(p, events).port, e))
    ensures OneAtATime(Step(Run(p, events).port, e)) <==> Careful(Run(p, events).port, e)
  {
    hide Initial, Step, OneAtATime, InService;
    OneAtATimeOverRuns(p, events);
    OneAtATimeExactly(Run(p, events).port, e);
    assert (events + [e])[..|events + [e]| - 1] == events;
  }

  /** Such an event is reachable from every initial port with an output queue: a PDU arrives at the
      output, is released, and the output is blocked and unblocked before the PDU has been served. */
  lemma UnblockedWhileServing(p: Port, pdu: Pdu)
    requires Initial(p) && |p.output.queues| > 0 && !pdu.bitError
    ensures
      var events := [Activate(Output, []), Arrive(Output, 0, pdu, false, [0]), BlockOutput, Unblock(Output, [])];
      Run(p, events).Reached? && !OneAtATime(Run(p, events).port)
  {
    var a, b, c, e := Activate(Output, []), Arrive(Output, 0, pdu, false, [0]), BlockOutput, Unblock(Output, []);
    assert [a][..0] == [] && [a, b][..1] == [a] && [a, b, c][..2] == [a, b] && [a, b, c, e][..3] == [a, b, c];
    assert Schedule(p, Output, []) == p;
    var p1 := Step(p, a);
    assert Run(p, [a]) == Reached(p1) && p1.output.ready && p1.output.queues == p.output.queues && p1.toPort == [];
    var admitted := p1.(output := Admit(p1.output, 0, pdu));
    assert [0][..0] == [];
    var p2 := Step(p1, b);
    assert p2 == Release(admitted, Output, 0);
    assert |p2.toPort| == 1 && Run(p, [a, b]) == Reached(p2);
    var p3 := Step(p2, c);
    assert Run(p, [a, b, c]) == Reached(p3);
    var p4 := Step(p3, e);
    assert p4.output.ready && |p4.toPort| == 1;
    assert Run(p, [a, b, c, e]) == Reached(p4);
  }
}
