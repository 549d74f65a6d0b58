/** Flow descriptions: src/Common/Flow.cc and ConnectionId.cc. FlowValue is the value of a flow
    object; class Flow is the object whose methods change it in place. */
module Flow {
  import opened Names

  datatype Apni = Apni(apn: string, apInstance: string, aeName: string, aeInstance: string)

  datatype ConnectionId = ConnectionId(qosId: string, srcCepId: int, dstCepId: int)

  /** Quality requirements, of which only being the management ones matters here. */
  datatype QosReq = ManagementQos | DataQos(id: int)

  const UNDEFINED_ID := -1
  const MAX_HOP_COUNT: nat := 16

  datatype FlowValue = FlowValue(
    srcApni: Apni, dstApni: Apni,
    srcPortId: int, dstPortId: int,
    srcAddr: Address, dstAddr: Address,
    srcNeighbor: Address, dstNeighbor: Address,
    conId: ConnectionId,
    createFlowRetries: nat, maxCreateFlowRetries: nat, hopCount: nat,
    allocInvokeId: int, deallocInvokeId: int,
    qos: QosReq, ddtFlag: bool)

  // ---- Operations, on values ----

  function SwapCepIds(c: ConnectionId): ConnectionId { ConnectionId(c.qosId, c.dstCepId, c.srcCepId) }

  /** swapFlow turns the flow round; neighbours, counters and invoke-ids stay. */
  function Swap(f: FlowValue): FlowValue {
    f.(srcApni := f.dstApni, dstApni := f.srcApni, srcPortId := f.dstPortId, dstPortId := f.srcPortId,
       srcAddr := f.dstAddr, dstAddr := f.srcAddr, conId := SwapCepIds(f.conId))
  }

  /** dup copies everything except the degenerate-transfer flag. */
  function Dup(f: FlowValue): FlowValue { f.(ddtFlag := false) }

  function DupToMgmt(f: FlowValue): FlowValue {
    Dup(f).(qos := ManagementQos, srcApni := Apni(f.srcAddr.apname, [], [], []),
            dstApni := Apni(f.dstAddr.apname, [], [], []))
  }

  /** Flow::compare. */
  predicate Compare(f: FlowValue, g: FlowValue) {
    && f.srcApni == g.srcApni && f.dstApni == g.dstApni
    && f.srcPortId == g.srcPortId && f.dstPortId == g.dstPortId
    && f.srcAddr == g.srcAddr && f.dstAddr == g.dstAddr
    && f.conId == g.conId
  }

  /** Flow::operator==, which looks neither at the invoke-ids nor at the requirements. */
  predicate Same(f: FlowValue, g: FlowValue) {
    && Compare(f, g)
    && f.createFlowRetries == g.createFlowRetries && f.maxCreateFlowRetries == g.maxCreateFlowRetries
    && f.hopCount == g.hopCount
    && f.srcNeighbor == g.srcNeighbor && f.dstNeighbor == g.dstNeighbor
    && f.ddtFlag == g.ddtFlag
  }

  /** isManagementFlowLocalToIPCP. */
  predicate IsLocalManagement(f: FlowValue) {
    f.qos == ManagementQos && f.srcApni.apn == f.srcAddr.apname && f.dstApni.apn == f.dstAddr.apname
  }

  /** FA::receiveLocalMgmtAllocateRequest parses both addresses again from the names. */
  function Readdress(f: FlowValue): FlowValue {
    f.(srcAddr := ParseAddress(f.srcApni.apn), dstAddr := ParseAddress(f.dstApni.apn), ddtFlag := false)
  }

  // ---- Laws ----

  lemma SwapInvolution(f: FlowValue, g: FlowValue)
    ensures Swap(Swap(f)) == f
    ensures Compare(Swap(f), g) <==> Compare(f, Swap(g))
    ensures Compare(Swap(f), Swap(g)) <==> Compare(f, g)
  {}

  /** compare sees exactly who talks to whom: putting those parts of f into g changes nothing. operator==
      sees everything but the invoke-ids and the requirements. A duplicate differs in the flag only. */
  lemma ComparisonsExactly(f: FlowValue, g: FlowValue)
    ensures Compare(f, g) <==>
              g == g.(srcApni := f.srcApni, dstApni := f.dstApni, srcAddr := f.srcAddr, dstAddr := f.dstAddr,
                      srcPortId := f.srcPortId, dstPortId := f.dstPortId, conId := f.conId)
    ensures Same(f, g) <==>
              g == f.(allocInvokeId := g.allocInvokeId, deallocInvokeId := g.deallocInvokeId, qos := g.qos)
    ensures Dup(f).(ddtFlag := f.ddtFlag) == f && !Dup(f).ddtFlag
  {}

  /** The management twin of any flow is a local management flow. It still is one after its
      addresses are parsed again exactly when both addresses were named by two parts, or not
      named at all. */
  lemma ManagementTwin(f: FlowValue)
    ensures IsLocalManagement(DupToMgmt(f))
    ensures IsLocalManagement(Readdress(DupToMgmt(f))) <==>
              ParseAddress(f.srcAddr.apname).apname == f.srcAddr.apname
              && ParseAddress(f.dstAddr.apname).apname == f.dstAddr.apname
    ensures Canonical(f.srcAddr) && Canonical(f.dstAddr) ==>
              IsLocalManagement(Readdress(DupToMgmt(f)))
              && Readdress(DupToMgmt(f)).srcAddr == f.srcAddr && Readdress(DupToMgmt(f)).dstAddr == f.dstAddr
  {
    hide ParseAddress;
  }

  // ---- The flow object ----

  class Flow {
    var srcApni: Apni
    var dstApni: Apni
    var srcPortId: int
    var dstPortId: int
    var srcAddr: Address
    var dstAddr: Address
    var srcNeighbor: Address
    var dstNeighbor: Address
    var conId: ConnectionId
    var createFlowRetries: nat
    var maxCreateFlowRetries: nat
    var hopCount: nat
    var allocInvokeId: int
    var deallocInvokeId: int
    var qos: QosReq
    var ddtFlag: bool

    ghost function Value(): FlowValue
      reads this
    {
      FlowValue(srcApni, dstApni, srcPortId, dstPortId, srcAddr, dstAddr, srcNeighbor, dstNeighbor, conId,
                createFlowRetries, maxCreateFlowRetries, hopCount, allocInvokeId, deallocInvokeId, qos, ddtFlag)
    }

    constructor (src: Apni, dst: Apni, qos: QosReq)
      ensures Value() == FlowValue(src, dst, UNDEFINED_ID, UNDEFINED_ID, UNSPECIFIED, UNSPECIFIED,
                                   UNSPECIFIED, UNSPECIFIED, ConnectionId([], UNDEFINED_ID, UNDEFINED_ID),
                                   0, 3, MAX_HOP_COUNT, 0, 0, qos, false)
    {
      srcApni, dstApni := src, dst;
      srcPortId, dstPortId := UNDEFINED_ID, UNDEFINED_ID;
      srcAddr, dstAddr, srcNeighbor, dstNeighbor := UNSPECIFIED, UNSPECIFIED, UNSPECIFIED, UNSPECIFIED;
      conId := ConnectionId([], UNDEFINED_ID, UNDEFINED_ID);
      createFlowRetries, maxCreateFlowRetries, hopCount := 0, 3, MAX_HOP_COUNT;
      allocInvokeId, deallocInvokeId := 0, 0;
      this.qos := qos;
      ddtFlag := false;
    }

    method SwapFlow()
      modifies this`srcApni, this`dstApni, this`srcPortId, this`dstPortId, this`srcAddr, this`dstAddr, this`conId
      ensures Value() == Swap(old(Value()))
    {
      var tmpApni := srcApni;
      srcApni := dstApni;
      dstApni := tmpApni;
      var tmpAddr := srcAddr;
      srcAddr := dstAddr;
      dstAddr := tmpAddr;
      var tmpPort := srcPortId;
      srcPortId := dstPortId;
      dstPortId := tmpPort;
      var tmpCep := conId.srcCepId;
      conId := conId.(srcCepId := conId.dstCepId);
      conId := conId.(dstCepId := tmpCep);
    }

    method SetEndpoints(other: Flow)
      modifies this`srcAddr, this`dstAddr, this`srcPortId, this`dstPortId, this`conId
      ensures Value() == old(Value()).(srcAddr := old(other.srcAddr), dstAddr := old(other.dstAddr),
                                       srcPortId := old(other.srcPortId), dstPortId := old(other.dstPortId),
                                       conId := old(other.conId))
    {
      srcAddr, dstAddr := other.srcAddr, other.dstAddr;
      srcPortId, dstPortId := other.srcPortId, other.dstPortId;
      conId := other.conId;
    }

    method SetRouting(other: Flow)
      modifies this`srcNeighbor, this`dstNeighbor, this`hopCount, this`createFlowRetries, this`maxCreateFlowRetries
      ensures Value() == old(Value()).(
                srcNeighbor := old(other.srcNeighbor), dstNeighbor := old(other.dstNeighbor),
                hopCount := old(other.hopCount), createFlowRetries := old(other.createFlowRetries),
                maxCreateFlowRetries := old(other.maxCreateFlowRetries))
    {
      maxCreateFlowRetries, hopCount, createFlowRetries :=
        other.maxCreateFlowRetries, other.hopCount, other.createFlowRetries;
      srcNeighbor, dstNeighbor := other.srcNeighbor, other.dstNeighbor;
    }

    method Duplicate() returns (flow: Flow)
      ensures fresh(flow) && flow.Value() == Dup(Value())
    {
      flow := new Flow(srcApni, dstApni, qos);
      flow.SetEndpoints(this);
      flow.SetRouting(this);
      flow.allocInvokeId, flow.deallocInvokeId := allocInvokeId, deallocInvokeId;
    }

    method DuplicateToMgmt() returns (flow: Flow)
      ensures fresh(flow) && flow.Value() == DupToMgmt(Value())
    {
      flow := Duplicate();
      flow.qos := ManagementQos;
      flow.srcApni := Apni(srcAddr.apname, [], [], []);
      flow.dstApni := Apni(dstAddr.apname, [], [], []);
    }
  }
}
