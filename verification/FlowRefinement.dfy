/** The steps of module FlowNetwork are steps of the whole allocator of module FlowManagement,
    whenever identifiers are fresh. */
module FlowRefinement {
  import opened Names
  import opened Flow
  import opened FlowTable
  import opened FlowAllocation
  import opened FlowDirectory
  import opened FlowRelay
  import opened FlowManagement
  import FlowNetwork

  /** A request from another system is what FlowNetwork's responder does with it. */
  lemma CreatedAsInNetwork(d: Directory, n: Node, f: FlowValue, port: int, cep: int, accepted: bool, bound: bool)
    requires d.isLocal(f.srcApni.apn) && !d.isLocal(f.dstApni.apn)
    requires Unlike(n.table, WithNeighbours(d, f)) && Unlike(n.table, Identified(WithNeighbours(d, f), port, cep))
    ensures
      var g := WithNeighbours(d, f);
      CreateArrived(d, n, f, port, cep, accepted, bound)
      == CreateRequest(n, f, port, cep, g.srcNeighbor, g.dstNeighbor, accepted)
  {
    var t := n.table;
    var g := WithNeighbours(d, f);
    NeighboursOnly(d, f);
    hide FindByFlow, ChangeStatus, SetFai, WithNeighbours;
    if FindByInvokeId(t, f.allocInvokeId) == |t| {
      var fai := Fai(port, cep, g.dstPortId, g.conId.dstCepId);
      LastFound(t, Entry(g, Unknown, NoFai));
      LastFound(t, Entry(g, AllocPend, NoFai));
      LastFound(t, Entry(g, AllocPend, fai));
      var e := Entry(Identified(g, port, cep), AllocPend, fai);
      assert CreatedTable(d, t, f, port, cep) == t + [e];
      LastFound(t, e);
    }
  }

  /** The first management flow to the address transfers. */
  ghost predicate ManagementTransfers(t: seq<Entry>, a: Address) {
    exists j :: 0 <= j < |t| && t[j].status == Transfer && t[j].flow.dstAddr == a && IsLocalManagement(t[j].flow)
                && forall i :: 0 <= i < j ==> !(t[i].flow.dstAddr == a && IsLocalManagement(t[i].flow))
  }

  lemma ManagementFound(t: seq<Entry>, a: Address)
    ensures var j := FindMgmtByDstAddr(t, a); ManagementTransfers(t, a) <==> j < |t| && t[j].status == Transfer
  {
    hide IsLocalManagement;
  }

  /** A local request that is degenerate, or for which management is ready, is FlowNetwork's opening of
      a flow followed by its allocation request. */
  lemma RequestedAsInNetwork(d: Directory, s: State, f: FlowValue, own: Choice, mgmt: Choice)
    requires
      var g := Completed(d, f);
      && g.dstApni.apn != "AppERR" && Unlike(s.node.table, f) && Unlike(s.node.table, g)
      && (g.ddtFlag || ManagementTransfers(s.node.table, g.dstAddr))
    ensures
      var g := Completed(d, f);
      Requested(d, s, f, own, mgmt).node
      == AllocateRequest(OpenFlow(s.node, g, own.port, own.cep), |s.node.table|, own.outcome).node
    ensures
      var g := Completed(d, f);
      Requested(d, s, f, own, mgmt).sent
      == s.sent + AllocateRequest(OpenFlow(s.node, g, own.port, own.cep), |s.node.table|, own.outcome).sent
  {
    var t := s.node.table;
    var k := |t|;
    var g := Completed(d, f);
    hide FindByFlow, ChangeStatus, SetFai, Completed, Transferring, AllocateRequest, FindMgmtByDstAddr;
    LastFound(t, Entry(f, Unknown, NoFai));
    var t1 := SetFlow(Inserted(t, f), k, g);
    assert t1 == t + [Entry(g, AllocPend, NoFai)];
    ManagementStays(t, Entry(g, AllocPend, NoFai), g);
    LastFound(t, Entry(g, AllocPend, NoFai));
    LastFound(t, Entry(g, AllocPend, Fai(own.port, own.cep, UNDEFINED_ID, UNDEFINED_ID)));
    var e := Entry(Identified(g, own.port, own.cep), AllocPend, Fai(own.port, own.cep, UNDEFINED_ID, UNDEFINED_ID));
    assert WithFai(t1, k, own.port, own.cep) == t + [e];
    ManagementStays(t, e, g);
    ManagementFound(t, g.dstAddr);
    assert OpenFlow(s.node, g, own.port, own.cep).table == t + [e];
    assert s.sent + [] == s.sent;
  }

  /** If there is a management flow that is not ready, it is only the opening: the allocation request
      comes when the timer resumes the flow. */
  lemma WaitingAsInNetwork(d: Directory, s: State, f: FlowValue, own: Choice, mgmt: Choice)
    requires
      var g := Completed(d, f);
      && g.dstApni.apn != "AppERR" && Unlike(s.node.table, f) && Unlike(s.node.table, g) && !g.ddtFlag
      && FindMgmtByDstAddr(s.node.table, g.dstAddr) < |s.node.table| && !ManagementTransfers(s.node.table, g.dstAddr)
    ensures Requested(d, s, f, own, mgmt).node == OpenFlow(s.node, Completed(d, f), own.port, own.cep)
    ensures Requested(d, s, f, own, mgmt).sent == s.sent
  {
    var t, k, g := s.node.table, |s.node.table|, Completed(d, f);
    hide FindByFlow, ChangeStatus, SetFai, Completed, Transferring, FindMgmtByDstAddr;
    LastFound(t, Entry(f, Unknown, NoFai));
    var t1 := SetFlow(Inserted(t, f), k, g);
    assert t1 == t + [Entry(g, AllocPend, NoFai)];
    FirstManagementStays(t, Entry(g, AllocPend, NoFai), g.dstAddr);
    LastFound(t, Entry(g, AllocPend, NoFai));
    LastFound(t, Entry(g, AllocPend, Fai(own.port, own.cep, UNDEFINED_ID, UNDEFINED_ID)));
    var e := Entry(Identified(g, own.port, own.cep), AllocPend, Fai(own.port, own.cep, UNDEFINED_ID, UNDEFINED_ID));
    assert WithFai(t1, k, own.port, own.cep) == t + [e];
    FirstManagementStays(t, e, g.dstAddr);
    ManagementFound(t, g.dstAddr);
    assert s.sent + [] == s.sent;
  }

  /** A malformed request gets an entry with an error, and no instance. */
  lemma MalformedRequest(d: Directory, s: State, f: FlowValue, own: Choice, mgmt: Choice)
    requires
      var g := Completed(d, f);
      && g.dstApni.apn == "AppERR" && Unlike(s.node.table, f) && Unlike(s.node.table, g)
      && (g.ddtFlag || FindMgmtByDstAddr(s.node.table, g.dstAddr) < |s.node.table|)
    ensures Requested(d, s, f, own, mgmt).node == s.node.(table := s.node.table + [Entry(Completed(d, f), AllocErr, NoFai)])
    ensures Requested(d, s, f, own, mgmt).sent == s.sent
  {
    var t, k, g := s.node.table, |s.node.table|, Completed(d, f);
    hide FindByFlow, ChangeStatus, SetFai, Completed, Transferring, FindMgmtByDstAddr;
    LastFound(t, Entry(f, Unknown, NoFai));
    var t1 := SetFlow(Inserted(t, f), k, g);
    assert t1 == t + [Entry(g, AllocPend, NoFai)];
    ManagementStays(t, Entry(g, AllocPend, NoFai), g);
    LastFound(t, Entry(g, AllocPend, NoFai));
    assert s.sent + [] == s.sent;
  }

  lemma ManagementStays(t: seq<Entry>, e: Entry, g: FlowValue)
    requires g.ddtFlag || FindMgmtByDstAddr(t, g.dstAddr) < |t|
    ensures g.ddtFlag || FindMgmtByDstAddr(t + [e], g.dstAddr) == FindMgmtByDstAddr(t, g.dstAddr)
  {
    if !g.ddtFlag { FirstManagementStays(t, e, g.dstAddr); }
  }

  /** A request between two applications that are both here is never taken for a duplicate, and its
      flow is degenerate. */
  lemma DegenerateArrival(d: Directory, n: Node, f: FlowValue, port: int, cep: int, accepted: bool, bound: bool)
    requires d.isLocal(f.srcApni.apn) && d.isLocal(f.dstApni.apn)
    requires Unlike(n.table, WithNeighbours(d, f)) && Unlike(n.table, Identified(WithNeighbours(d, f), port, cep).(ddtFlag := true))
    ensures
      var r, g := CreateArrived(d, n, f, port, cep, accepted, bound), Identified(WithNeighbours(d, f), port, cep);
      && r.node.invoke == n.invoke
      && r.node.table == n.table + [Entry(g.(ddtFlag := true), if accepted then AllocPend else AllocNega,
                                          Fai(port, cep, f.dstPortId, f.conId.dstCepId))]
      && r.sent == if accepted then [] else [CreateResponse(false, g.(ddtFlag := true))]
  {
    var t := n.table;
    var g := WithNeighbours(d, f);
    NeighboursOnly(d, f);
    hide FindByFlow, ChangeStatus, SetFai, WithNeighbours, FindByInvokeId;
    var fai := Fai(port, cep, g.dstPortId, g.conId.dstCepId);
    LastFound(t, Entry(g, Unknown, NoFai));
    LastFound(t, Entry(g, AllocPend, NoFai));
    LastFound(t, Entry(g, AllocPend, fai));
    var e := Entry(Identified(g, port, cep).(ddtFlag := true), AllocPend, fai);
    assert CreatedTable(d, t, f, port, cep) == t + [e];
    LastFound(t, e);
  }

  /** Of lower flows only those that this IPC process made for itself count, and no management flows;
      then the waiting requests to its other end are sent on. */
  lemma LowerFlowExactly(d: Directory, me: string, s: State, f: FlowValue)
    ensures
      var r, mgmt := LowerFlowCreated(d, me, s, f),
                     f.qos == ManagementQos && f.srcApni.apn == f.srcAddr.apname && f.dstApni.apn == f.dstAddr.apname;
      if f.srcApni.apn == me && !mgmt then
        r.node == Resume(d, s.node, f.dstApni.apn).node && r.sent == s.sent + Resume(d, s.node, f.dstApni.apn).sent
      else r == s
  {
    hide Resume, Transferring;
  }

  /** A signal sets a timer exactly when it tells the instance of a local management flow of this
      process that it succeeded. */
  lemma TimerSetExactly(s: State, me: string, k: nat, x: Signal)
    requires k < |s.node.table| && s.node.table[k].fai.Fai?
    ensures
      var r := Handles(s, me, k, x);
      var g := r.node.table[k].flow;
      var finished := x.CreatePositive? && g.qos == ManagementQos && g.srcApni.apn == me
                      && g.srcApni.apn == g.srcAddr.apname && g.dstApni.apn == g.dstAddr.apname;
      && r.timers == s.timers + (if finished then 1 else 0) && (!finished ==> r.pending == s.pending)
      && (!x.CreatePositive? ==> r == Became(s, Handle(s.node, k, x)))
  {
    hide Handle, Transferring;
  }

  /** The timer's resumption of a flow is FlowNetwork's allocation request. */
  lemma ResumedAsInNetwork(s: State, k: nat, outcomes: nat -> Outcome)
    requires Identifiable(s.node.table, k)
    ensures ResumeOne(s, k, outcomes).node == AllocateRequest(s.node, k, outcomes(k)).node
    ensures ResumeOne(s, k, outcomes).sent == s.sent + AllocateRequest(s.node, k, outcomes(k)).sent
  {
    hide AllocateRequest, Transferring;
    FindsItself(s.node.table, k);
  }

  /** The management flow itself is opened and requested at once, as in FlowNetwork. */
  lemma ManagementAsInNetwork(d: Directory, s: State, g: FlowValue, c: Choice)
    requires Unlike(s.node.table, DupToMgmt(g)) && Unlike(s.node.table, WithNeighbours(d, Readdress(DupToMgmt(g))))
    ensures
      var h := WithNeighbours(d, Readdress(DupToMgmt(g)));
      var r := AllocateRequest(OpenFlow(s.node, h, c.port, c.cep), |s.node.table|, c.outcome);
      MgmtRequested(d, s, DupToMgmt(g), c).node == r.node && MgmtRequested(d, s, DupToMgmt(g), c).sent == s.sent + r.sent
  {
    var t, h := s.node.table, WithNeighbours(d, Readdress(DupToMgmt(g)));
    hide FindByFlow, ChangeStatus, SetFai, WithNeighbours, Readdress, DupToMgmt, Transferring, AllocateRequest;
    var fai := Fai(c.port, c.cep, UNDEFINED_ID, UNDEFINED_ID);
    LastFound(t, Entry(DupToMgmt(g), Unknown, NoFai));
    LastFound(t, Entry(h, AllocPend, NoFai));
    LastFound(t, Entry(h, AllocPend, fai));
    assert SetFlow(Inserted(t, DupToMgmt(g)), |t|, h) == t + [Entry(h, AllocPend, NoFai)];
    var e := Entry(Identified(h, c.port, c.cep), AllocPend, fai);
    assert WithFai(t + [Entry(h, AllocPend, NoFai)], |t|, c.port, c.cep) == t + [e];
    assert OpenFlow(s.node, h, c.port, c.cep).table == t + [e];
    assert s.sent + [] == s.sent;
  }

  lemma FirstManagementStays(t: seq<Entry>, e: Entry, a: Address)
    requires FindMgmtByDstAddr(t, a) < |t|
    ensures FindMgmtByDstAddr(t + [e], a) == FindMgmtByDstAddr(t, a)
  {
    hide FindMgmtByDstAddr;
    var u := t + [e];
    var j := FindMgmtByDstAddr(t, a);
    assert u[j] == t[j];
    assert forall i :: 0 <= i < |t| ==> u[i] == t[i];
  }

  lemma HandledAsInNetwork(s: State, me: string, k: nat, x: Signal)
    requires k < |s.node.table| && s.node.table[k].fai.Fai?
    ensures var r := Handles(s, me, k, x);
      r.node == Handle(s.node, k, x).node && r.sent == s.sent + Handle(s.node, k, x).sent
  {
    hide Handle, Transferring, IsLocalManagement;
  }

  /** Signals: the allocator's table and messages are those of FlowNetwork's broadcast. */
  lemma {:induction false} SignalledAsInNetwork(s: State, me: string, x: Signal, k: nat)
    requires k <= |s.node.table|
    ensures var r := Signalled(s, me, x, k);
      r.node == Dispatch(s.node, x, k).node && r.sent == s.sent + Dispatch(s.node, x, k).sent
    decreases |s.node.table| - k
  {
    hide Handle, Handles;
    if k < |s.node.table| {
      if Listens(s.node.table[k], x) {
        HandledAsInNetwork(s, me, k, x);
        SignalledAsInNetwork(Handles(s, me, k, x), me, x, k + 1);
      } else {
        SignalledAsInNetwork(s, me, x, k + 1);
      }
    }
  }

  /** What a relay sends on is what FlowNetwork's relays send on. */
  lemma RelayedAsInNetwork(s: Stop, f: FlowValue)
    requires 1 < f.hopCount <= 0xFFFF_FFFF && f.allocInvokeId != 0
    ensures Next(s, f) == FlowNetwork.Forward(f, Next(s, f).srcNeighbor, Next(s, f).dstNeighbor)
  {
    var g := Swap(Arrived(f));
    NeighboursOnly(s.arriving, g);
    NeighboursOnly(s.leaving, Dup(RelayFlow(s.arriving, Arrived(f))));
    hide WithNeighbours;
    OneHop(f.hopCount);
  }
}
