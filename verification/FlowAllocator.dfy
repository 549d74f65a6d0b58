/** The flow allocator as the object it is: src/DIF/FA/FA.cc with its table, its instances (FAI.cc,
    one for each entry) and what the RIB daemon does for it. Its methods are the functions of
    modules FlowAllocation, FlowRelay and FlowManagement. */
module FlowAllocator {
  import opened Names
  import opened Flow
  import opened FlowTable
  import opened FlowAllocation
  import opened FlowDirectory
  import opened FlowRelay
  import opened FlowManagement
  import FlowAddressing

  class FlowAllocator {
    const faiTable: FaiTable
    const me: string
    var invoke: nat
    var sent: seq<Message>
    var pendingFlows: seq<nat>
    var timers: nat
    ghost var history: History

    ghost function Now(): Node
      reads this, faiTable
    {
      Node(faiTable.entries, invoke)
    }

    ghost function Current(): State
      reads this, faiTable
    {
      State(Now(), sent, pendingFlows, timers, history)
    }

    /** The invoke-id counter starts at a random number. */
    constructor (name: string, start: nat)
      ensures fresh(faiTable) && me == name
      ensures Current() == State(Node([], start), [], [], 0, History([], {}))
      ensures Invariant(Current())
    {
      me := name;
      faiTable := new FaiTable();
      invoke := start;
      sent := [];
      pendingFlows := [];
      timers := 0;
      history := History([], {});
    }

    ghost method Note()
      modifies this`history
      ensures history == old(history).(reached := old(history).reached + Transferring(faiTable.entries))
    {
      history := history.(reached := history.reached + Transferring(faiTable.entries));
    }

    // ---- RIB daemon ----

    method SendCreateRequestFlow(k: nat)
      requires k < |faiTable.entries|
      modifies this`invoke, this`sent, faiTable
      ensures var r := SendCreate(old(Now()), k); Now() == r.node && sent == old(sent) + r.sent
    {
      var flow := faiTable.entries[k].flow;
      if flow.allocInvokeId == 0 {
        invoke := invoke + 1;
        flow := flow.(allocInvokeId := invoke);
        faiTable.AssignFlow(k, flow);
      }
      sent := sent + [Create(flow)];
    }

    method SendDeleteRequestFlow(k: nat)
      requires k < |faiTable.entries|
      modifies this`invoke, this`sent, faiTable
      ensures var r := SendDelete(old(Now()), k); Now() == r.node && sent == old(sent) + r.sent
    {
      var flow := faiTable.entries[k].flow;
      if flow.deallocInvokeId == 0 {
        invoke := invoke + 1;
        flow := flow.(deallocInvokeId := invoke);
        faiTable.AssignFlow(k, flow);
      }
      sent := sent + [Delete(flow)];
    }

    // ---- The instance of entry k ----

    method StatusOf(k: nat) returns (status: Status)
      requires k < |faiTable.entries|
      ensures status == faiTable.entries[FindByFlow(faiTable.entries, faiTable.entries[k].flow)].status
    {
      SameReflexive(faiTable.entries, k);
      var j := faiTable.FindEntryByFlow(faiTable.entries[k].flow);
      status := faiTable.entries[j].status;
    }

    method FaiReceiveAllocateRequest(k: nat, o: Outcome) returns (ok: bool)
      requires k < |faiTable.entries|
      modifies this`invoke, this`sent, faiTable
      ensures var r := AllocateRequest(old(Now()), k, o); Now() == r.node && sent == old(sent) + r.sent
      ensures ok ==> o.Ready?
    {
      hide FindByFlow, ChangeStatus, SendCreate;
      var status := StatusOf(k);
      if status != AllocPend {
        return false;
      }
      var flow := faiTable.entries[k].flow;
      if o.Refused? {
        faiTable.ChangeAllocStatus(flow, AllocNega);
        return false;
      }
      flow := flow.(conId := flow.conId.(qosId := o.qosId));
      faiTable.AssignFlow(k, flow);
      if o.NoInstance? {
        faiTable.ChangeAllocStatus(flow, AllocNega);
        return false;
      }
      if o.bound {
        SendCreateRequestFlow(k);
      }
      ok := true;
    }

    method FaiReceiveAllocateResponsePositive(k: nat, ready: bool, bound: bool) returns (ok: bool)
      requires k < |faiTable.entries|
      modifies this`sent, faiTable
      ensures var r := AllocateResponse(old(Now()), k, true, ready, bound); Now() == r.node && sent == old(sent) + r.sent
      ensures ok ==> ready
    {
      hide FindByFlow, ChangeStatus;
      var status := StatusOf(k);
      if status != AllocPend {
        return false;
      }
      var flow := faiTable.entries[k].flow;
      if !ready {
        faiTable.ChangeAllocStatus(flow, AllocNega);
        sent := sent + [CreateResponse(false, flow)];
        return false;
      }
      faiTable.ChangeAllocStatus(flow, Transfer);
      if bound {
        sent := sent + [CreateResponse(true, flow)];
      }
      ok := true;
    }

    method FaiReceiveAllocateResponseNegative(k: nat)
      requires k < |faiTable.entries|
      modifies this`sent, faiTable
      ensures forall ready, bound ::
                var r := AllocateResponse(old(Now()), k, false, ready, bound); Now() == r.node && sent == old(sent) + r.sent
    {
      hide FindByFlow, ChangeStatus;
      var status := StatusOf(k);
      if status != AllocPend {
        return;
      }
      var flow := faiTable.entries[k].flow;
      faiTable.ChangeAllocStatus(flow, AllocNega);
      sent := sent + [CreateResponse(false, flow)];
    }

    method FaiReceiveCreateRequest(k: nat, accepted: bool) returns (ok: bool)
      requires k < |faiTable.entries|
      modifies this`sent, faiTable
      ensures var r := CreateDecided(old(Now()), k, accepted); Now() == r.node && sent == old(sent) + r.sent
      ensures ok ==> accepted
    {
      hide FindByFlow, ChangeStatus;
      var status := StatusOf(k);
      if status != AllocPend {
        return false;
      }
      var flow := faiTable.entries[k].flow;
      if !accepted {
        faiTable.ChangeAllocStatus(flow, AllocNega);
        sent := sent + [CreateResponse(false, flow)];
        return false;
      }
      ok := true;
    }

    method FaiReceiveCreateResponsePositive(k: nat, flow: FlowValue)
      requires k < |faiTable.entries| && faiTable.entries[k].fai.Fai?
      modifies faiTable
      ensures Now() == Handle(old(Now()), k, CreatePositive(flow)).node
    {
      hide FindByFlow, ChangeStatus;
      var e := faiTable.entries[k];
      var g := e.flow.(dstPortId := flow.dstPortId, conId := e.flow.conId.(dstCepId := flow.conId.dstCepId));
      faiTable.AssignEntry(k, g, e.fai.(remotePortId := flow.dstPortId, remoteCepId := flow.conId.dstCepId));
      faiTable.ChangeAllocStatus(g, Transfer);
    }

    method FaiReceiveCreateResponseNegative(k: nat, flow: FlowValue, retry: bool) returns (ok: bool)
      requires k < |faiTable.entries| && faiTable.entries[k].fai.Fai?
      modifies this`invoke, this`sent, faiTable
      ensures ok == retry
      ensures var r := Handle(old(Now()), k, CreateNegative(flow, retry)); Now() == r.node && sent == old(sent) + r.sent
    {
      hide FindByFlow, ChangeStatus, SendCreate;
      var e := faiTable.entries[k];
      var g := e.flow.(createFlowRetries := e.flow.createFlowRetries + 1);
      faiTable.AssignFlow(k, g);
      if retry {
        SendCreateRequestFlow(k);
      } else {
        faiTable.ChangeAllocStatus(g, AllocNega);
      }
      ok := retry;
    }

    method FaiReceiveDeleteRequest(k: nat, flow: FlowValue)
      requires k < |faiTable.entries| && faiTable.entries[k].fai.Fai?
      modifies this`sent, faiTable
      ensures var r := Handle(old(Now()), k, DeleteRequest(flow)); Now() == r.node && sent == old(sent) + r.sent
    {
      var status := StatusOf(k);
      if status != Transfer {
        return;
      }
      var e := faiTable.entries[k];
      faiTable.ChangeAllocStatus(e.flow, DeallocPend);
      var g := e.flow.(deallocInvokeId := flow.deallocInvokeId);
      faiTable.AssignFlow(k, g);
      sent := sent + [DeleteResponse(g)];
      faiTable.ChangeAllocStatus(g, Deallocated);
      PendingThenDone(old(faiTable.entries), k, g);
    }

    method FaiReceiveDeleteResponse(k: nat, flow: FlowValue)
      requires k < |faiTable.entries| && faiTable.entries[k].fai.Fai?
      modifies faiTable
      ensures var r := Handle(old(Now()), k, DeleteAnswer(flow)); Now() == r.node && r.sent == []
    {
      hide FindByFlow, ChangeStatus;
      var status := StatusOf(k);
      if status != DeallocPend {
        return;
      }
      faiTable.ChangeAllocStatus(faiTable.entries[k].flow, Deallocated);
    }

    // ---- Flow allocator ----

    /** Handing entry k's flow to its instance. */
    method HandOn(k: nat, o: Outcome) returns (ok: bool)
      requires k < |faiTable.entries|
      modifies this`invoke, this`sent, this`history, faiTable
      ensures Current() == Hand(old(Current()), k, o)
      ensures ok ==> o.Ready?
    {
      hide AllocateRequest, Transferring;
      history := history.(handed := history.handed + [faiTable.entries[k].flow]);
      ok := FaiReceiveAllocateRequest(k, o);
      Note();
    }

    method CreateFai(k: nat, port: int, cep: int)
      requires k < |faiTable.entries|
      modifies faiTable
      ensures faiTable.entries == WithFai(old(faiTable.entries), k, port, cep)
    {
      hide FindByFlow, SetFai, ChangeStatus;
      var flow := faiTable.entries[k].flow;
      faiTable.SetFaiToFlow(Fai(port, cep, UNDEFINED_ID, UNDEFINED_ID), flow);
      faiTable.ChangeAllocStatus(flow, AllocPend);
      SetFaiLength(old(faiTable.entries), flow, Fai(port, cep, UNDEFINED_ID, UNDEFINED_ID));
      faiTable.AssignFlow(k, Identified(flow, port, cep));
    }

    method ReceiveLocalMgmtAllocateRequest(d: Directory, flow: FlowValue, c: Choice) returns (ok: bool)
      modifies this`invoke, this`sent, this`history, faiTable
      ensures Current() == MgmtRequested(d, old(Current()), flow, c)
    {
      hide FindByFlow, ChangeStatus, Hand, WithFai, WithNeighbours, Transferring;
      var k := |faiTable.entries|;
      faiTable.InsertNew(flow);
      faiTable.ChangeAllocStatus(flow, AllocPend);
      var g := flow.(srcAddr := ParseAddress(flow.srcApni.apn), dstAddr := ParseAddress(flow.dstApni.apn), ddtFlag := false);
      var known;
      g, known := SetNeighborAddresses(d, g);
      faiTable.AssignFlow(k, g);
      CreateFai(k, c.port, c.cep);
      Note();
      assert sent + [] == sent;
      ok := HandOn(k, c.outcome);
    }

    /** The first half of receiveAllocateRequest; g is the flow with its addresses. */
    method PrepareRequest(d: Directory, flow: FlowValue, mgmt: Choice) returns (g: FlowValue)
      modifies this`invoke, this`sent, this`history, faiTable
      ensures g == Completed(d, flow) && FlowAddressing.Addressed(d, flow, g)
      ensures Current() == Prepare(d, old(Current()), flow, mgmt)
    {
      hide FindByFlow, ChangeStatus, MgmtRequested, WithNeighbours, WithOriginals, FindMgmtByDstAddr, Transferring,
        FlowAddressing.Addressed;
      FlowAddressing.CompletedExactly(d, flow);
      var k := |faiTable.entries|;
      faiTable.InsertNew(flow);
      faiTable.ChangeAllocStatus(flow, AllocPend);
      g := flow;
      if g.srcAddr == UNSPECIFIED && g.srcNeighbor == UNSPECIFIED {
        var known;
        g, known := SetOriginalAddresses(d, g);
        g, known := SetNeighborAddresses(d, g);
      }
      if d.isLocal(g.dstApni.apn) {
        g := g.(ddtFlag := true);
      }
      faiTable.AssignFlow(k, g);
      Note();
      assert sent + [] == sent;
      var j := faiTable.FindMgmtEntryByDstAddr(g.dstAddr);
      if !g.ddtFlag && j == |faiTable.entries| {
        var _ := ReceiveLocalMgmtAllocateRequest(d, DupToMgmt(g), mgmt);
      }
    }

    method ReceiveAllocateRequest(d: Directory, flow: FlowValue, own: Choice, mgmt: Choice) returns (ok: bool)
      modifies this`invoke, this`sent, this`history, faiTable
      ensures Current() == Requested(d, old(Current()), flow, own, mgmt)
      ensures FlowAddressing.RequestMade(d, old(Current()), flow, Current())
    {
      hide FindByFlow, ChangeStatus, Prepare, Hand, WithFai, Completed, FindMgmtByDstAddr, Transferring,
        FlowAddressing.Addressed, FlowAddressing.RequestMade;
      FlowAddressing.RequestAddressed(d, Current(), flow, own, mgmt);
      var k := |faiTable.entries|;
      var g := PrepareRequest(d, flow, mgmt);
      if Malformed(g) {
        faiTable.ChangeAllocStatus(g, AllocErr);
        Note();
        assert sent + [] == sent;
        return false;
      }
      CreateFai(k, own.port, own.cep);
      Note();
      assert sent + [] == sent;
      var j := faiTable.FindMgmtEntryByDstAddr(g.dstAddr);
      if g.ddtFlag || (j < |faiTable.entries| && faiTable.entries[j].status == Transfer) {
        ok := HandOn(k, own.outcome);
      } else {
        ok := true;
      }
    }

    method ReceiveNM1FlowCreated(d: Directory, k: nat)
      requires k < |faiTable.entries|
      modifies this`invoke, this`sent, faiTable
      ensures var r := SendOn(d, old(Now()), k); Now() == r.node && sent == old(sent) + r.sent
    {
      hide FindByFlow, ChangeStatus, WithNeighbours;
      var flow := faiTable.entries[k].flow;
      var tmp := Dup(flow);
      faiTable.ChangeAllocStatus(flow, Forwarded);
      var known;
      tmp, known := SetNeighborAddresses(d, tmp);
      assert tmp.allocInvokeId == flow.allocInvokeId by { NeighboursOnly(d, Dup(flow)); }
      if tmp.allocInvokeId == 0 {
        invoke := invoke + 1;
        tmp := tmp.(allocInvokeId := invoke);
      }
      sent := sent + [Create(tmp)];
    }

    method ForwardCreateRequest(d: Directory, flow: FlowValue, bound: bool) returns (ok: bool)
      modifies this`invoke, this`sent, faiTable
      ensures var r := RelayRequest(d, old(Now()), flow, bound); Now() == r.node && sent == old(sent) + r.sent
    {
      hide FindByFlow, WithNeighbours, SendOn;
      var k := |faiTable.entries|;
      var g := Swap(flow);
      faiTable.InsertNew(g);
      var known;
      g, known := SetNeighborAddresses(d, g);
      faiTable.AssignFlow(k, g);
      assert faiTable.entries == old(faiTable.entries) + [Entry(g, Unknown, NoFai)];
      faiTable.ChangeAllocStatus(g, Forwarding);
      g := g.(hopCount := LessOneHop(g.hopCount));
      faiTable.AssignFlow(k, g);
      if g.hopCount == 0 {
        faiTable.ChangeAllocStatus(g, AllocErr);
        sent := sent + [CreateResponse(false, g)];
        return false;
      }
      if bound {
        ReceiveNM1FlowCreated(d, k);
      }
      ok := bound;
    }

    /** A new entry and instance for a request for an application of this system. */
    method InsertCreated(d: Directory, flow: FlowValue, port: int, cep: int)
      modifies faiTable
      ensures faiTable.entries == CreatedTable(d, old(faiTable.entries), flow, port, cep)
    {
      hide FindByFlow, ChangeStatus, SetFai, WithNeighbours;
      var k := |faiTable.entries|;
      faiTable.InsertNew(flow);
      var g, known := SetNeighborAddresses(d, flow);
      faiTable.AssignFlow(k, g);
      assert faiTable.entries == old(faiTable.entries) + [Entry(g, Unknown, NoFai)];
      faiTable.ChangeAllocStatus(g, AllocPend);
      var fai := Fai(port, cep, g.dstPortId, g.conId.dstCepId);
      SetFaiLength(faiTable.entries, g, fai);
      faiTable.SetFaiToFlow(fai, g);
      faiTable.ChangeAllocStatus(g, AllocPend);
      var own := Identified(g, port, cep);
      if d.isLocal(g.dstApni.apn) {
        own := own.(ddtFlag := true);
      }
      faiTable.AssignFlow(k, own);
    }

    method ReceiveCreateFlowRequestFromRibd(d: Directory, flow: FlowValue, port: int, cep: int,
                                            accepted: bool, bound: bool) returns (ok: bool)
      modifies this`invoke, this`sent, this`history, faiTable
      ensures Current() == Became(old(Current()), CreateArrived(d, old(Now()), flow, port, cep, accepted, bound))
    {
      hide RelayRequest, CreateDecided, CreatedTable, FindByInvokeId, Transferring;
      if d.isLocal(flow.srcApni.apn) {
        var j := faiTable.FindEntryByInvokeId(flow.allocInvokeId);
        if !d.isLocal(flow.dstApni.apn) && j < |faiTable.entries| {
          Note();
          assert sent + [] == sent;
          return false;
        }
        var k := |faiTable.entries|;
        InsertCreated(d, flow, port, cep);
        ok := FaiReceiveCreateRequest(k, accepted);
      } else {
        ok := ForwardCreateRequest(d, flow, bound);
      }
      Note();
    }

    /** The application answered a request: LisFAIAllocResPosi and LisFAIAllocResNega. */
    method Respond(k: nat, positive: bool, ready: bool, bound: bool)
      requires k < |faiTable.entries|
      modifies this`sent, this`history, faiTable
      ensures Current() == Became(old(Current()), AllocateResponse(old(Now()), k, positive, ready, bound))
    {
      hide AllocateResponse, Transferring;
      if positive {
        var _ := FaiReceiveAllocateResponsePositive(k, ready, bound);
      } else {
        FaiReceiveAllocateResponseNegative(k);
      }
      Note();
    }

    /** What FA and the instance of entry k do with a request to deallocate its flow. */
    method DeallocateEntry(k: nat)
      requires k < |faiTable.entries|
      modifies this`invoke, this`sent, faiTable
      ensures var r := DeallocateRequest(old(Now()), k); Now() == r.node && sent == old(sent) + r.sent
    {
      hide FindByFlow, SendDelete;
      faiTable.AssignStatus(k, DeallocPend);
      var status := StatusOf(k);
      if status == DeallocPend {
        SendDeleteRequestFlow(k);
      }
    }

    /** FA::receiveDeallocateRequest. */
    method ReceiveDeallocateRequest(flow: FlowValue) returns (ok: bool)
      modifies this`invoke, this`sent, faiTable
      ensures
        var k := FindByFlow(old(faiTable.entries), flow);
        if k < |old(faiTable.entries)| && old(faiTable.entries)[k].fai.Fai? then
          var r := DeallocateRequest(old(Now()), k);
          ok && Now() == r.node && sent == old(sent) + r.sent
        else !ok && Now() == old(Now()) && sent == old(sent)
    {
      hide FindByFlow, DeallocateRequest;
      var k := faiTable.FindEntryByFlow(flow);
      if k == |faiTable.entries| || faiTable.entries[k].fai.NoFai? {
        return false;
      }
      DeallocateEntry(k);
      ok := true;
    }

    // ---- Signals ----

    /** LisFAAllocFinMgmt. */
    method ManagementFinished(flow: FlowValue)
      modifies this`pendingFlows, this`timers
      ensures Current() == MgmtFinished(old(Current()), me, flow)
    {
      if me == flow.srcApni.apn && IsLocalManagement(flow) {
        var entries := faiTable.FindEntriesAffectedByMgmt(flow);
        pendingFlows := pendingFlows + entries;
        timers := timers + 1;
      }
    }

    method HandleSignal(k: nat, x: Signal)
      requires k < |faiTable.entries| && faiTable.entries[k].fai.Fai?
      modifies this, faiTable
      ensures Current() == Handles(old(Current()), me, k, x)
    {
      hide Handle, Transferring, MgmtFinished;
      match x
      case CreatePositive(flow) =>
        assert Handle(Now(), k, x).sent == [] by { PositiveSendsNothing(Now(), k, flow); }
        assert sent + [] == sent;
        FaiReceiveCreateResponsePositive(k, flow);
        Note();
        var g := faiTable.entries[k].flow;
        if IsLocalManagement(g) {
          history := history.(reached := history.reached + {g.dstAddr});
          ManagementFinished(g);
        }
      case CreateNegative(flow, retry) =>
        var _ := FaiReceiveCreateResponseNegative(k, flow, retry);
        Note();
      case DeleteRequest(flow) =>
        FaiReceiveDeleteRequest(k, flow);
        Note();
      case DeleteAnswer(flow) =>
        assert sent + [] == sent;
        FaiReceiveDeleteResponse(k, flow);
        Note();
    }

    /** A signal of the RIB daemon reaches the listener of every instance. */
    method Emit(x: Signal)
      modifies this, faiTable
      ensures Current() == Signalled(old(Current()), me, x, 0)
    {
      hide Handles, Listens;
      var k := 0;
      while k < |faiTable.entries|
        invariant k <= |faiTable.entries|
        invariant Signalled(Current(), me, x, k) == Signalled(old(Current()), me, x, 0)
        decreases |faiTable.entries| - k
      {
        if Listens(faiTable.entries[k], x) {
          assert faiTable.entries[k].fai.Fai? by { ListensHasFai(faiTable.entries[k], x); }
          HandleSignal(k, x);
        }
        k := k + 1;
      }
    }

    /** The waiting requests to the named neighbour are sent on. */
    method ResumeForwarding(d: Directory, name: string)
      modifies this`invoke, this`sent, faiTable
      ensures var r := Resume(d, old(Now()), name); Now() == r.node && sent == old(sent) + r.sent
    {
      hide SendOn, Waiting;
      var entries := faiTable.FindEntriesByDstNeighborAndFwd(name);
      var i := 0;
      assert entries[0..] == entries;
      assert sent + SendAllOn(d, Now(), entries[0..]).sent == old(sent) + Resume(d, old(Now()), name).sent;
      while i < |entries|
        invariant i <= |entries| && |faiTable.entries| == |old(faiTable.entries)|
        invariant SendAllOn(d, Now(), entries[i..]).node == Resume(d, old(Now()), name).node
        invariant sent + SendAllOn(d, Now(), entries[i..]).sent == old(sent) + Resume(d, old(Now()), name).sent
      {
        assert entries[i..][1..] == entries[i + 1..];
        ReceiveNM1FlowCreated(d, entries[i]);
        i := i + 1;
      }
    }

    /** LisFACreFloPosi. */
    method FlowCreated(d: Directory, flow: FlowValue)
      modifies this`invoke, this`sent, this`history, faiTable
      ensures Current() == LowerFlowCreated(d, me, old(Current()), flow)
    {
      hide Resume, Transferring;
      if me == flow.srcApni.apn && !IsLocalManagement(flow) {
        ResumeForwarding(d, flow.dstApni.apn);
        Note();
      }
    }

    /** handleMessage, for the self-message that a finished management flow scheduled. */
    method HandleMessage(outcomes: nat -> Outcome)
      requires timers > 0 && forall i :: 0 <= i < |pendingFlows| ==> pendingFlows[i] < |faiTable.entries|
      modifies this, faiTable
      ensures Current() == Drained(old(Current()), outcomes).(timers := old(timers) - 1)
    {
      hide FindByFlow, Hand;
      while pendingFlows != []
        invariant forall i :: 0 <= i < |pendingFlows| ==> pendingFlows[i] < |faiTable.entries|
        invariant Drained(Current(), outcomes) == Drained(old(Current()), outcomes)
        invariant timers == old(timers)
        decreases |pendingFlows|
      {
        var k := pendingFlows[0];
        SameReflexive(faiTable.entries, k);
        var j := faiTable.FindEntryByFlow(faiTable.entries[k].flow);
        if faiTable.entries[j].fai.Fai? {
          var _ := HandOn(j, outcomes(j));
        }
        pendingFlows := pendingFlows[1..];
      }
      timers := timers - 1;
    }

    /** Any event: the object takes the step of the allocator's specification, and what is true of
        every run stays true of it: flows are handed on in order only, and no collected flow is
        without a timer. */
    method Take(d: Directory, v: Event)
      requires Possible(Current(), v)
      modifies this, faiTable
      ensures Current() == Step(d, me, old(Current()), v)
      ensures old(Invariant(Current())) ==> Invariant(Current())
    {
      hide Invariant, Requested, CreateArrived, AllocateResponse, DeallocateRequest, Signalled, LowerFlowCreated, Drained,
        Became, Transferring;
      ghost var before := Current();
      TakeOne(d, v);
      if Invariant(before) { StepKeepsInvariant(d, me, before, v); }
    }

    method TakeOne(d: Directory, v: Event)
      requires Possible(Current(), v)
      modifies this, faiTable
      ensures Current() == Step(d, me, old(Current()), v)
    {
      hide Requested, CreateArrived, AllocateResponse, DeallocateRequest, Signalled, LowerFlowCreated, Drained, Transferring;
      match v
      case Request(f, own, mgmt) => var _ := ReceiveAllocateRequest(d, f, own, mgmt);
      case CreateArrives(f, port, cep, accepted, bound) =>
        var _ := ReceiveCreateFlowRequestFromRibd(d, f, port, cep, accepted, bound);
      case Respond(k, positive, ready, bound) => Respond(k, positive, ready, bound);
      case Deallocate(k) =>
        DeallocateEntry(k);
        Note();
      case Signals(x) => Emit(x);
      case LowerFlow(f) => FlowCreated(d, f);
      case Timer(outcomes) => HandleMessage(outcomes);
    }
  }

  lemma PositiveSendsNothing(n: Node, k: nat, f: FlowValue)
    requires k < |n.table| && n.table[k].fai.Fai?
    ensures Handle(n, k, CreatePositive(f)).sent == []
  {}

  lemma ListensHasFai(e: Entry, x: Signal)
    requires Listens(e, x)
    ensures e.fai.Fai?
  {}

  lemma SetFaiLength(t: seq<Entry>, f: FlowValue, fai: Fai)
    ensures |SetFai(t, f, fai)| == |t|
  {}

  /** The status that a deallocation passes through leaves no trace. */
  lemma PendingThenDone(t: seq<Entry>, k: nat, g: FlowValue)
    requires k < |t| && g == t[k].flow.(deallocInvokeId := g.deallocInvokeId)
    ensures ChangeStatus(SetFlow(ChangeStatus(t, t[k].flow, DeallocPend), k, g), g, Deallocated)
         == ChangeStatus(t[k := t[k].(flow := g)], g, Deallocated)
  {
    hide FindByFlow;
    SameReflexive(t, k);
    var f := t[k].flow;
    var j := FindByFlow(t, f);
    var u := SetFlow(ChangeStatus(t, f, DeallocPend), k, g);
    var v := t[k := t[k].(flow := g)];
    assert forall e :: Same(e, f) <==> Same(e, g);
    assert forall i :: 0 <= i < j ==> !Same(u[i].flow, g) && !Same(v[i].flow, g);
    assert Same(u[j].flow, g) && Same(v[j].flow, g);
    assert FindByFlow(u, g) == j;
    assert FindByFlow(v, g) == j;
  }
}
