/** Queues, ports, the queue index and the event hooks of the relaying and multiplexing task as
    objects. Every method that changes a port is proved against its function in RmtProtocol.
    The events a port has pending in the simulator are fields of the port. */
module Rmt {
  import opened RmtProtocol

  class RmtQueue {
    const name: string
    const dir: Direction
    var queue: seq<Pdu>
    var threshold: int
    ghost var accepted: seq<Pdu>
    ghost var released: seq<Pdu>

    ghost function State(): Queue
      reads this
    {
      Queue(queue, threshold, accepted, released)
    }

    constructor (name: string, dir: Direction, threshold: int)
      ensures this.name == name && this.dir == dir
      ensures State() == Queue([], threshold, [], [])
    {
      this.name := name;
      this.dir := dir;
      this.threshold := threshold;
      queue := [];
      accepted := [];
      released := [];
    }

    function GetLength(): nat
      reads this
    {
      |queue|
    }

    method PushBack(pdu: Pdu)
      modifies this
      ensures State() == Enqueue(old(State()), pdu)
    {
      queue := queue + [pdu];
      accepted := accepted + [pdu];
    }

    method PopFront() returns (pdu: Pdu)
      requires queue != []
      modifies this
      ensures State() == Dequeue(old(State())) && pdu == old(queue[0])
    {
      pdu := queue[0];
      queue := queue[1..];
      released := released + [pdu];
    }

    /** enqueuePDU with the arrival hook: a damaged PDU, or one the max-queue policy refuses when
        the queue has reached its threshold, is taken back. */
    method EnqueuePdu(pdu: Pdu, full: bool) returns (dropped: bool)
      modifies this
      ensures dropped == Drops(old(State()), pdu, full)
      ensures dropped <==> pdu.bitError || (|old(queue)| + 1 >= old(threshold) && full)
      ensures dropped ==> State() == old(State())
      ensures !dropped ==> State() == Queue(old(queue) + [pdu], old(threshold), old(accepted) + [pdu], old(released))
    {
      PushBack(pdu);
      if pdu.bitError {
        var _ := DropLast();
        return true;
      }
      if GetLength() >= threshold && full {
        var _ := DropLast();
        return true;
      }
      return false;
    }

    /** Takes the newest PDU back, as if it had never been accepted. */
    method DropLast() returns (dropped: Pdu)
      requires queue != [] && accepted != []
      modifies this
      ensures State() == Queue(old(queue)[..|old(queue)| - 1], threshold,
                               old(accepted)[..|old(accepted)| - 1], old(released))
      ensures threshold == old(threshold) && dropped == old(queue)[|old(queue)| - 1]
    {
      dropped := queue[|queue| - 1];
      queue := queue[..|queue| - 1];
      accepted := accepted[..|accepted| - 1];
    }
  }

  ghost function States(qs: seq<RmtQueue>): (s: seq<Queue>)
    reads qs
    ensures |s| == |qs|
    ensures forall k {:trigger s[k]} :: 0 <= k < |qs| ==> s[k] == qs[k].State()
  {
    seq(|qs|, k requires 0 <= k < |qs| reads qs => qs[k].State())
  }

  /** The states of the queues when only the k-th has changed since `before`. */
  lemma OneStateChanged(qs: seq<RmtQueue>, before: seq<Queue>, k: nat)
    requires |qs| == |before| && k < |qs|
    requires forall i :: 0 <= i < |qs| && i != k ==> qs[i].State() == before[i]
    ensures States(qs) == before[k := qs[k].State()]
  {}

  lemma NoStateChanged(qs: seq<RmtQueue>, before: seq<Queue>)
    requires |qs| == |before|
    requires forall i :: 0 <= i < |qs| ==> qs[i].State() == before[i]
    ensures States(qs) == before
  {}

  lemma ReleaseNowhere(p: Port, d: Direction, k: nat)
    requires k >= |p.Get(d).queues|
    ensures Release(p, d, k) == p
  {}

  class RmtPort {
    var inputQueues: seq<RmtQueue>
    var outputQueues: seq<RmtQueue>
    var inputReady: bool
    var outputReady: bool
    var blockedInput: bool
    var blockedOutput: bool
    var waitingOnInput: nat
    var waitingOnOutput: nat
    ghost var inputActivated: bool
    ghost var outputActivated: bool
    // What the simulator holds for this port.
    var toPort: seq<Departure>
    var onWire: seq<Departure>
    var pendingTransmitEnds: nat
    var pendingWrites: nat
    var pendingReads: nat

    ghost predicate Valid()
      reads this`inputQueues, this`outputQueues
    {
      && (forall i, j :: 0 <= i < j < |inputQueues| ==> inputQueues[i] != inputQueues[j])
      && (forall i, j :: 0 <= i < j < |outputQueues| ==> outputQueues[i] != outputQueues[j])
      && (forall i :: 0 <= i < |inputQueues| ==> inputQueues[i].dir == Input)
      && (forall i :: 0 <= i < |outputQueues| ==> outputQueues[i].dir == Output)
    }

    ghost function InputSide(): Side
      reads this`inputQueues, this`waitingOnInput, this`inputReady, this`blockedInput,
            this`inputActivated, inputQueues
    {
      Side(States(inputQueues), waitingOnInput, inputReady, blockedInput, inputActivated)
    }

    ghost function OutputSide(): Side
      reads this`outputQueues, this`waitingOnOutput, this`outputReady, this`blockedOutput,
            this`outputActivated, outputQueues
    {
      Side(States(outputQueues), waitingOnOutput, outputReady, blockedOutput, outputActivated)
    }

    ghost function State(): Port
      reads this, inputQueues, outputQueues
    {
      Port(InputSide(), OutputSide(), toPort, onWire, pendingTransmitEnds, pendingWrites, pendingReads)
    }

    constructor ()
      ensures Valid() && inputQueues == [] && outputQueues == []
      ensures Initial(State())
    {
      inputQueues, outputQueues := [], [];
      inputReady, outputReady, blockedInput, blockedOutput := false, false, false, false;
      waitingOnInput, waitingOnOutput := 0, 0;
      toPort, onWire := [], [];
      pendingTransmitEnds, pendingWrites, pendingReads := 0, 0, 0;
      inputActivated, outputActivated := false, false;
    }

    function QueuesOf(dir: Direction): seq<RmtQueue>
      reads this`inputQueues, this`outputQueues
    {
      if dir == Input then inputQueues else outputQueues
    }

    function GetWaiting(dir: Direction): nat
      reads this
    {
      if dir == Input then waitingOnInput else waitingOnOutput
    }

    /** The first of the longest queues, or null if all are empty. */
    method GetLongestQueue(dir: Direction) returns (result: RmtQueue?)
      requires Valid()
      ensures result == null <==> forall q :: q in QueuesOf(dir) ==> q.queue == []
      ensures result != null ==>
                && result in QueuesOf(dir) && result.queue != []
                && forall q :: q in QueuesOf(dir) ==> |q.queue| <= |result.queue|
      ensures Counted(State().Get(dir)) ==> (result == null <==> GetWaiting(dir) == 0)
    {
      var queues := QueuesOf(dir);
      var longest := 0;
      result := null;
      for k := 0 to |queues|
        invariant result == null ==> longest == 0
        invariant result != null ==> result in queues && longest == |result.queue| > 0
        invariant forall i :: 0 <= i < k ==> |queues[i].queue| <= longest
      {
        if queues[k].GetLength() > longest {
          longest := queues[k].GetLength();
          result := queues[k];
        }
      }
      ghost var states := States(queues);
      WaitingZero(states);
      if result == null {
        forall k | 0 <= k < |states| ensures states[k].contents == [] {}
      } else {
        var k :| 0 <= k < |queues| && queues[k] == result;
        assert states[k].contents != [];
      }
    }

    // ---- Input direction ----

    method PopInput(k: nat)
      requires Valid() && k < |inputQueues| && inputQueues[k].queue != []
      modifies this`waitingOnInput, this`inputReady, this`pendingReads, inputQueues[k]
      ensures InputSide() == Depart(old(InputSide()), k)
      ensures pendingReads == old(pendingReads) + 1
    {
      hide States;
      ghost var before := States(inputQueues);
      var _ := inputQueues[k].PopFront();
      OneStateChanged(inputQueues, before, k);
      waitingOnInput := if waitingOnInput == 0 then 0xFFFF_FFFF_FFFF_FFFF else waitingOnInput - 1;
      ScheduleNextRead();
    }

    method ScheduleNextRead()
      modifies this`inputReady, this`pendingReads
      ensures !inputReady && pendingReads == old(pendingReads) + 1
    {
      inputReady := false;
      pendingReads := pendingReads + 1;
    }

    method PushInput(k: nat, pdu: Pdu, full: bool) returns (dropped: bool)
      requires Valid() && k < |inputQueues|
      modifies this`waitingOnInput, inputQueues[k]
      ensures dropped == Drops(old(inputQueues[k].State()), pdu, full)
      ensures InputSide() == if dropped then old(InputSide()) else Admit(old(InputSide()), k, pdu)
    {
      hide States;
      ghost var before := States(inputQueues);
      dropped := inputQueues[k].EnqueuePdu(pdu, full);
      if dropped {
        NoStateChanged(inputQueues, before);
      } else {
        OneStateChanged(inputQueues, before, k);
        waitingOnInput := waitingOnInput + 1;
      }
    }

    // ---- Output direction ----

    method PopOutput(k: nat)
      requires Valid() && k < |outputQueues| && outputQueues[k].queue != []
      modifies this`waitingOnOutput, this`outputReady, this`toPort, outputQueues[k]
      ensures OutputSide() == Depart(old(OutputSide()), k)
      ensures toPort == old(toPort) + [Departure(k, old(outputQueues[k].queue[0]))]
    {
      hide States;
      ghost var before := States(outputQueues);
      var pdu := outputQueues[k].PopFront();
      toPort := toPort + [Departure(k, pdu)];
      OneStateChanged(outputQueues, before, k);
      waitingOnOutput := if waitingOnOutput == 0 then 0xFFFF_FFFF_FFFF_FFFF else waitingOnOutput - 1;
      outputReady := false;
    }

    method PushOutput(k: nat, pdu: Pdu, full: bool) returns (dropped: bool)
      requires Valid() && k < |outputQueues|
      modifies this`waitingOnOutput, outputQueues[k]
      ensures dropped == Drops(old(outputQueues[k].State()), pdu, full)
      ensures OutputSide() == if dropped then old(OutputSide()) else Admit(old(OutputSide()), k, pdu)
    {
      hide States;
      ghost var before := States(outputQueues);
      dropped := outputQueues[k].EnqueuePdu(pdu, full);
      if dropped {
        NoStateChanged(outputQueues, before);
      } else {
        OneStateChanged(outputQueues, before, k);
        waitingOnOutput := waitingOnOutput + 1;
      }
    }

    // ---- Events ----

    /** RMTQueue::releasePDU on the k-th queue, with the departure hook it triggers. */
    method ReleasePdu(dir: Direction, k: nat)
      requires Valid() && k < |QueuesOf(dir)|
      modifies this`waitingOnInput, this`inputReady, this`pendingReads,
               this`waitingOnOutput, this`outputReady, this`toPort, QueuesOf(dir)[k]
      ensures State() == Release(old(State()), dir, k)
    {
      hide States, Depart;
      if QueuesOf(dir)[k].GetLength() > 0 {
        if dir == Input {
          PopInput(k);
        } else {
          PopOutput(k);
        }
      }
    }

    /** The scheduling policy, standing for any policy: it releases the queues in picks. */
    method ProcessQueues(dir: Direction, picks: seq<nat>)
      requires Valid()
      modifies this`waitingOnInput, this`inputReady, this`pendingReads,
               this`waitingOnOutput, this`outputReady, this`toPort, QueuesOf(dir)
      ensures State() == Schedule(old(State()), dir, picks)
    {
      hide Release, States;
      ghost var before := State();
      for i := 0 to |picks|
        invariant State() == Schedule(before, dir, picks[..i])
      {
        assert picks[..i + 1][..i] == picks[..i];
        if picks[i] < |QueuesOf(dir)| {
          ReleasePdu(dir, picks[i]);
        } else {
          ReleaseNowhere(State(), dir, picks[i]);
        }
      }
      assert picks[..|picks|] == picks;
    }

    /** RMTQueue::enqueuePDU on the k-th queue with the arrival hook it triggers. */
    method EnqueuePdu(dir: Direction, k: nat, pdu: Pdu, full: bool, picks: seq<nat>)
      requires Valid() && k < |QueuesOf(dir)|
      modifies this`waitingOnInput, this`inputReady, this`pendingReads,
               this`waitingOnOutput, this`outputReady, this`toPort, QueuesOf(dir)
      ensures State() == OnArrive(old(State()), dir, k, pdu, full, picks)
    {
      hide Schedule, Admit, States, Drops;
      var dropped;
      if dir == Input {
        dropped := PushInput(k, pdu, full);
      } else {
        dropped := PushOutput(k, pdu, full);
      }
      if !dropped {
        ProcessQueues(dir, picks);
      }
    }

    method SetOutputReady(picks: seq<nat>)
      requires Valid()
      modifies this`waitingOnInput, this`inputReady, this`pendingReads,
               this`waitingOnOutput, this`outputReady, this`toPort, outputQueues
      ensures State() == SetReady(old(State()), Output, picks)
    {
      hide Schedule, States;
      if blockedOutput == false {
        outputReady := true;
        ProcessQueues(Output, picks);
      }
    }

    method SetInputReady(picks: seq<nat>)
      requires Valid()
      modifies this`waitingOnInput, this`inputReady, this`pendingReads,
               this`waitingOnOutput, this`outputReady, this`toPort, inputQueues
      ensures State() == SetReady(old(State()), Input, picks)
    {
      hide Schedule, States;
      if blockedInput == false {
        inputReady := true;
        ProcessQueues(Input, picks);
      }
    }

    method SendSouth()
      requires toPort != []
      modifies this`toPort, this`onWire, this`outputReady
      ensures State() == PassDown(old(State()))
    {
      hide States;
      var pdu := toPort[0];
      toPort := toPort[1..];
      outputReady := false;
      onWire := onWire + [pdu];
    }

    /** A PDU from an output queue reaches the port. */
    method HandlePdu(link: Link, picks: seq<nat>)
      requires Valid() && toPort != []
      modifies this`waitingOnInput, this`inputReady, this`pendingReads,
               this`waitingOnOutput, this`outputReady, this`toPort, this`onWire,
               this`pendingTransmitEnds, this`pendingWrites, outputQueues
      ensures State() == OnTransmit(old(State()), link, picks)
    {
      hide Schedule, States, PassDown;
      SendSouth();
      match link
      case Channel(busy) =>
        if busy {
          pendingTransmitEnds := pendingTransmitEnds + 1;
        } else {
          pendingWrites := pendingWrites + 1;
        }
      case NoChannel =>
        pendingWrites := pendingWrites + 1;
        ProcessQueues(Output, picks);
    }

    method HandlePortTransmitEnd()
      requires pendingTransmitEnds > 0
      modifies this`pendingTransmitEnds, this`pendingWrites
      ensures State() == Step(old(State()), TransmitEnd)
    {
      pendingTransmitEnds := pendingTransmitEnds - 1;
      pendingWrites := pendingWrites + 1;
    }

    method HandleReadyToServe(picks: seq<nat>)
      requires Valid() && pendingWrites > 0
      modifies this`waitingOnInput, this`inputReady, this`pendingReads,
               this`waitingOnOutput, this`outputReady, this`toPort, this`pendingWrites, outputQueues
      ensures State() == Step(old(State()), ReadyToServe(picks))
    {
      hide SetReady, States;
      pendingWrites := pendingWrites - 1;
      SetOutputReady(picks);
    }

    method HandleReadyForRead(picks: seq<nat>)
      requires Valid() && pendingReads > 0
      modifies this`waitingOnInput, this`inputReady, this`pendingReads,
               this`waitingOnOutput, this`outputReady, this`toPort, inputQueues
      ensures State() == Step(old(State()), ReadyForRead(picks))
    {
      hide SetReady, States;
      pendingReads := pendingReads - 1;
      SetInputReady(picks);
    }

    method BlockOutput()
      modifies this`blockedOutput, this`outputReady
      ensures State() == Step(old(State()), RmtProtocol.BlockOutput)
    {
      blockedOutput := true;
      if outputReady {
        outputReady := false;
      }
    }

    method UnblockOutput(picks: seq<nat>)
      requires Valid()
      modifies this`waitingOnInput, this`inputReady, this`pendingReads,
               this`waitingOnOutput, this`outputReady, this`toPort, this`blockedOutput, outputQueues
      ensures State() == Step(old(State()), Unblock(Output, picks))
    {
      hide SetReady, States;
      blockedOutput := false;
      SetOutputReady(picks);
    }

    method BlockInput()
      modifies this`blockedInput
      ensures State() == Step(old(State()), RmtProtocol.BlockInput)
    {
      blockedInput := true;
    }

    method UnblockInput(picks: seq<nat>)
      requires Valid()
      modifies this`waitingOnInput, this`inputReady, this`pendingReads,
               this`waitingOnOutput, this`outputReady, this`toPort, this`blockedInput, inputQueues
      ensures State() == Step(old(State()), Unblock(Input, picks))
    {
      hide SetReady, States;
      blockedInput := false;
      SetInputReady(picks);
    }

    /** The resource allocator switches the output on. */
    method ActivateOutput(picks: seq<nat>)
      requires Valid()
      modifies this`waitingOnInput, this`inputReady, this`pendingReads, this`outputActivated,
               this`waitingOnOutput, this`outputReady, this`toPort, outputQueues
      ensures State() == Step(old(State()), Activate(Output, picks))
    {
      hide SetReady, States;
      outputActivated := true;
      SetOutputReady(picks);
    }

    method ActivateInput(picks: seq<nat>)
      requires Valid()
      modifies this`waitingOnInput, this`inputReady, this`pendingReads, this`inputActivated,
               this`waitingOnOutput, this`outputReady, this`toPort, inputQueues
      ensures State() == Step(old(State()), Activate(Input, picks))
    {
      hide SetReady, States;
      inputActivated := true;
      SetInputReady(picks);
    }

    // ---- Queue registration and search ----

    ghost predicate NamesUnique()
      reads this`inputQueues, this`outputQueues
    {
      && (forall i, j :: 0 <= i < j < |inputQueues| ==> inputQueues[i].name != inputQueues[j].name)
      && (forall i, j :: 0 <= i < j < |outputQueues| ==> outputQueues[i].name != outputQueues[j].name)
    }

    method Register(queue: RmtQueue)
      requires Valid() && queue !in QueuesOf(queue.dir)
      modifies this`inputQueues, this`outputQueues
      ensures Valid()
      ensures inputQueues == old(inputQueues) + if queue.dir == Input then [queue] else []
      ensures outputQueues == old(outputQueues) + if queue.dir == Output then [queue] else []
      ensures old(NamesUnique()) && (forall q :: q in old(QueuesOf(queue.dir)) ==> q.name != queue.name) ==> NamesUnique()
    {
      if queue.dir == Output {
        outputQueues := outputQueues + [queue];
      } else {
        inputQueues := inputQueues + [queue];
      }
    }

    method GetQueueById(dir: Direction, queueId: string) returns (result: RmtQueue?)
      ensures result != null ==> result in QueuesOf(dir) && result.name == QueueName(dir, queueId)
      ensures result == null <==> forall q :: q in QueuesOf(dir) ==> q.name != QueueName(dir, queueId)
    {
      var queues := QueuesOf(dir);
      for k := 0 to |queues|
        invariant forall i :: 0 <= i < k ==> queues[i].name != QueueName(dir, queueId)
      {
        if queues[k].name == QueueName(dir, queueId) {
          return queues[k];
        }
      }
      return null;
    }
  }

  function QueueName(dir: Direction, queueId: string): string {
    (if dir == Input then "inQ_" else "outQ_") + queueId
  }

  lemma QueueNameInjective(dir: Direction, id1: string, id2: string)
    ensures QueueName(dir, id1) == QueueName(dir, id2) ==> id1 == id2
    ensures QueueName(Input, id1) != QueueName(Output, id2)
    ensures QueueName(Input, id1)[..4] == "inQ_" && QueueName(Output, id2)[..5] == "outQ_"
  {
    assert QueueName(Input, id1)[0] == 'i' && QueueName(Output, id2)[0] == 'o';
    var n := |QueueName(dir, "")|;
    assert QueueName(dir, id1)[n..] == id1;
    assert QueueName(dir, id2)[n..] == id2;
  }

  class RmtModuleAllocator {
    var queueToPort: map<RmtQueue, RmtPort>

    /** Names are unique for each direction of the port, and the index knows its queues. */
    ghost predicate PortAgrees(p: RmtPort)
      reads this, p`inputQueues, p`outputQueues
    {
      && p.Valid() && p.NamesUnique()
      && (forall q :: q in p.inputQueues ==> q in queueToPort && queueToPort[q] == p)
      && (forall q :: q in p.outputQueues ==> q in queueToPort && queueToPort[q] == p)
    }

    /** The index and the queue lists of the ports describe the same queues. */
    ghost predicate Agrees(ports: set<RmtPort>)
      reads this, ports
    {
      && (forall p :: p in ports ==> PortAgrees(p))
      && (forall q :: q in queueToPort ==> queueToPort[q] in ports && q in queueToPort[q].QueuesOf(q.dir))
    }

    constructor ()
      ensures queueToPort == map[]
    {
      queueToPort := map[];
    }

    method Lookup(port: RmtPort, dir: Direction, queueName: string) returns (result: RmtQueue?)
      ensures result != null ==> result in port.QueuesOf(dir) && result.name == queueName
      ensures result == null <==> forall q :: q in port.QueuesOf(dir) ==> q.name != queueName
    {
      var queues := port.QueuesOf(dir);
      for k := 0 to |queues|
        invariant forall i :: 0 <= i < k ==> queues[i].name != queueName
      {
        if queues[k].name == queueName {
          return queues[k];
        }
      }
      return null;
    }

    /** Instantiates a queue module and wires it to the port. */
    method CreateQueue(dir: Direction, port: RmtPort, name: string, threshold: int) returns (queue: RmtQueue)
      requires PortAgrees(port)
      requires forall q :: q in port.QueuesOf(dir) ==> q.name != name
      modifies this, port`inputQueues, port`outputQueues
      ensures PortAgrees(port)
      ensures fresh(queue) && queue.name == name && queue.dir == dir
      ensures queue.State() == Queue([], threshold, [], [])
      ensures port.inputQueues == old(port.inputQueues) + if dir == Input then [queue] else []
      ensures port.outputQueues == old(port.outputQueues) + if dir == Output then [queue] else []
      ensures queueToPort == old(queueToPort)[queue := port]
    {
      hide RmtPort.NamesUnique, RmtPort.Valid;
      queue := new RmtQueue(name, dir, threshold);
      port.Register(queue);
      queueToPort := queueToPort[queue := port];
    }

    /** The same, for an allocator that serves several ports. */
    method AddNewQueue(dir: Direction, port: RmtPort, name: string, threshold: int, ghost ports: set<RmtPort>)
      returns (queue: RmtQueue)
      requires Agrees(ports) && port in ports
      requires forall q :: q in port.QueuesOf(dir) ==> q.name != name
      modifies this, port`inputQueues, port`outputQueues
      ensures Agrees(ports)
      ensures fresh(queue) && queue.name == name && queue.dir == dir
      ensures queue.State() == Queue([], threshold, [], [])
      ensures port.QueuesOf(dir) == old(port.QueuesOf(dir)) + [queue]
      ensures queueToPort == old(queueToPort)[queue := port]
    {
      hide RmtPort.NamesUnique, RmtPort.Valid;
      queue := CreateQueue(dir, port, name, threshold);
      forall p | p in ports && p != port
        ensures PortAgrees(p)
      {
        assert queue !in p.inputQueues && queue !in p.outputQueues;
      }
    }

    /** Returns the queue of that id if the port has one and otherwise adds an empty queue at the
        end of the port's list. */
    method AddQueue(dir: Direction, port: RmtPort, queueId: string, threshold: int, ghost ports: set<RmtPort>)
      returns (queue: RmtQueue)
      requires Agrees(ports) && port in ports
      modifies this, port`inputQueues, port`outputQueues
      ensures Agrees(ports)
      ensures queue.name == QueueName(dir, queueId) && queue in port.QueuesOf(dir)
      ensures queueToPort == old(queueToPort)[queue := port]
      ensures !fresh(queue) ==>
                queue in old(port.QueuesOf(dir)) && port.QueuesOf(dir) == old(port.QueuesOf(dir))
      ensures fresh(queue) ==>
                && (forall q :: q in old(port.QueuesOf(dir)) ==> q.name != QueueName(dir, queueId))
                && queue.State() == Queue([], threshold, [], [])
                && port.QueuesOf(dir) == old(port.QueuesOf(dir)) + [queue]
    {
      var found := Lookup(port, dir, QueueName(dir, queueId));
      if found != null {
        queue := found;
        assert PortAgrees(port) && (queue in port.inputQueues || queue in port.outputQueues);
      } else {
        queue := AddNewQueue(dir, port, QueueName(dir, queueId), threshold, ports);
      }
    }
  }
}
