/** One flow allocator and its instances: src/DIF/FA/FA.cc, FAI.cc, FAIListeners.cc and the
    RIB daemon code that turns their signals into messages (src/DIF/RIB/RIBd.cc). */
module FlowAllocation {
  import opened Names
  import opened Flow
  import opened FlowTable

  datatype Message =
    | Create(flow: FlowValue)
    | CreateResponse(positive: bool, flow: FlowValue)
    | Delete(flow: FlowValue)
    | DeleteResponse(flow: FlowValue)

  /** The table, and the invoke-id counter of the RIB daemon. */
  datatype Node = Node(table: seq<Entry>, invoke: nat)

  datatype Reaction = Reaction(node: Node, sent: seq<Message>)

  function Update(n: Node, k: nat, e: Entry): Node
    requires k < |n.table|
  {
    n.(table := n.table[k := e])
  }

  // ---- RIB daemon ----

  /** sendCreateRequestFlow: the flow gets an invoke-id unless it has one. */
  function SendCreate(n: Node, k: nat): Reaction
    requires k < |n.table|
  {
    var e := n.table[k];
    if e.flow.allocInvokeId != 0 then Reaction(n, [Create(e.flow)])
    else
      var f := e.flow.(allocInvokeId := n.invoke + 1);
      Reaction(Update(n, k, e.(flow := f)).(invoke := n.invoke + 1), [Create(f)])
  }

  function SendDelete(n: Node, k: nat): Reaction
    requires k < |n.table|
  {
    var e := n.table[k];
    if e.flow.deallocInvokeId != 0 then Reaction(n, [Delete(e.flow)])
    else
      var f := e.flow.(deallocInvokeId := n.invoke + 1);
      Reaction(Update(n, k, e.(flow := f)).(invoke := n.invoke + 1), [Delete(f)])
  }

  /** A flow as the RIB daemon hands it on after it arrived in a message. */
  function Arrived(f: FlowValue): FlowValue { Swap(Dup(f)) }

  // ---- Allocation ----

  /** FA: insertion of a flow, and an instance created for it with the given identifiers. */
  function OpenFlow(n: Node, f: FlowValue, port: int, cep: int): Node {
    n.(table := n.table + [Entry(f.(srcPortId := port, conId := f.conId.(srcCepId := cep)), AllocPend,
                                 Fai(port, cep, UNDEFINED_ID, UNDEFINED_ID))])
  }

  /** How the new-flow policy, the EFCP instance, the bindings and the lower flow turn out. */
  datatype Outcome = Refused | NoInstance(qosId: string) | Ready(qosId: string, bound: bool)

  /** FAI::receiveAllocateRequest. */
  function AllocateRequest(n: Node, k: nat, o: Outcome): Reaction
    requires k < |n.table|
  {
    var e := n.table[k];
    if n.table[FindByFlow(n.table, e.flow)].status != AllocPend then Reaction(n, [])
    else match o
      case Refused => Reaction(n.(table := ChangeStatus(n.table, e.flow, AllocNega)), [])
      case NoInstance(qosId) =>
        var f := e.flow.(conId := e.flow.conId.(qosId := qosId));
        var m := Update(n, k, e.(flow := f));
        Reaction(m.(table := ChangeStatus(m.table, f, AllocNega)), [])
      case Ready(qosId, bound) =>
        var m := Update(n, k, e.(flow := e.flow.(conId := e.flow.conId.(qosId := qosId))));
        if bound then SendCreate(m, k) else Reaction(m, [])
  }

  /** FA::receiveCreateFlowRequestFromRibd for an application of this system, with the instance's
      receiveCreateRequest; f is the flow as it arrived. */
  function CreateRequest(n: Node, f: FlowValue, port: int, cep: int, src: Address, dst: Address, accepted: bool): Reaction {
    if FindByInvokeId(n.table, f.allocInvokeId) < |n.table| then Reaction(n, [])
    else
      var g := f.(srcNeighbor := src, dstNeighbor := dst, srcPortId := port, conId := f.conId.(srcCepId := cep));
      var fai := Fai(port, cep, f.dstPortId, f.conId.dstCepId);
      if accepted then Reaction(n.(table := n.table + [Entry(g, AllocPend, fai)]), [])
      else Reaction(n.(table := n.table + [Entry(g, AllocNega, fai)]), [CreateResponse(false, g)])
  }

  /** FAI::receiveAllocateResponsePositive (ready: its EFCP instance and bindings were created) and
      receiveAllocateResponseNegative. */
  function AllocateResponse(n: Node, k: nat, positive: bool, ready: bool, bound: bool): Reaction
    requires k < |n.table|
  {
    var f := n.table[k].flow;
    if n.table[FindByFlow(n.table, f)].status != AllocPend then Reaction(n, [])
    else if positive && ready then
      Reaction(n.(table := ChangeStatus(n.table, f, Transfer)), if bound then [CreateResponse(true, f)] else [])
    else
      Reaction(n.(table := ChangeStatus(n.table, f, AllocNega)), [CreateResponse(false, f)])
  }

  // ---- Deallocation by the local application ----

  /** FA and FAI::receiveDeallocateRequest. */
  function DeallocateRequest(n: Node, k: nat): Reaction
    requires k < |n.table|
  {
    var m := Update(n, k, n.table[k].(status := DeallocPend));
    if m.table[FindByFlow(m.table, m.table[k].flow)].status != DeallocPend then Reaction(m, [])
    else SendDelete(m, k)
  }

  // ---- Signals every instance listens to ----

  datatype Signal =
    | CreatePositive(flow: FlowValue)
    | CreateNegative(flow: FlowValue, retry: bool)
    | DeleteRequest(flow: FlowValue)
    | DeleteAnswer(flow: FlowValue)

  /** The guards of FAIListeners.cc. */
  predicate Listens(e: Entry, s: Signal) {
    e.fai.Fai? &&
    match s
    case CreatePositive(f) => e.flow.srcPortId == f.srcPortId && e.flow.conId.srcCepId == f.conId.srcCepId
    case CreateNegative(f, _) => e.flow.srcPortId == f.srcPortId && e.flow.conId.srcCepId == f.conId.srcCepId
    case DeleteRequest(f) => Compare(e.flow, f)
    case DeleteAnswer(f) => Compare(e.flow, f)
  }

  /** An instance hears the answers to requests by its two identifiers, and deallocation by everything
      that says who talks to whom. */
  lemma ListensExactly(e: Entry, f: FlowValue, retry: bool)
    ensures Listens(e, CreatePositive(f)) <==>
              e.fai.Fai? && (e.flow.srcPortId, e.flow.conId.srcCepId) == (f.srcPortId, f.conId.srcCepId)
    ensures Listens(e, CreateNegative(f, retry)) <==> Listens(e, CreatePositive(f))
    ensures Listens(e, DeleteRequest(f)) <==>
              e.fai.Fai?
              && f == f.(srcApni := e.flow.srcApni, dstApni := e.flow.dstApni, srcAddr := e.flow.srcAddr,
                         dstAddr := e.flow.dstAddr, srcPortId := e.flow.srcPortId, dstPortId := e.flow.dstPortId,
                         conId := e.flow.conId)
    ensures Listens(e, DeleteAnswer(f)) <==> Listens(e, DeleteRequest(f))
  {}

  /** What the instance of entry k does with a signal it listens to. */
  function Handle(n: Node, k: nat, s: Signal): (r: Reaction)
    requires k < |n.table| && n.table[k].fai.Fai?
    ensures |r.node.table| == |n.table|
  {
    var e := n.table[k];
    match s
    case CreatePositive(f) =>
      // There is no check of the allocation status here.
      var g := e.flow.(dstPortId := f.dstPortId, conId := e.flow.conId.(dstCepId := f.conId.dstCepId));
      var fai := e.fai.(remotePortId := f.dstPortId, remoteCepId := f.conId.dstCepId);
      var m := Update(n, k, e.(flow := g, fai := fai));
      Reaction(m.(table := ChangeStatus(m.table, g, Transfer)), [])
    case CreateNegative(_, retry) =>
      var g := e.flow.(createFlowRetries := e.flow.createFlowRetries + 1);
      var m := Update(n, k, e.(flow := g));
      if retry then SendCreate(m, k)
      else Reaction(m.(table := ChangeStatus(m.table, g, AllocNega)), [])
    case DeleteRequest(f) =>
      if n.table[FindByFlow(n.table, e.flow)].status != Transfer then Reaction(n, [])
      else
        var g := e.flow.(deallocInvokeId := f.deallocInvokeId);
        var m := Update(n, k, e.(flow := g));
        Reaction(m.(table := ChangeStatus(m.table, g, Deallocated)), [DeleteResponse(g)])
    case DeleteAnswer(_) =>
      if n.table[FindByFlow(n.table, e.flow)].status != DeallocPend then Reaction(n, [])
      else Reaction(n.(table := ChangeStatus(n.table, e.flow, Deallocated)), [])
  }

  /** A signal reaches the instances one after the other, from entry k on. */
  function Dispatch(n: Node, s: Signal, k: nat): (r: Reaction)
    requires k <= |n.table|
    decreases |n.table| - k
  {
    if k == |n.table| then Reaction(n, [])
    else
      var first := if Listens(n.table[k], s) then Handle(n, k, s) else Reaction(n, []);
      var rest := Dispatch(first.node, s, k + 1);
      Reaction(rest.node, first.sent + rest.sent)
  }

  // ---- Distinct identifiers make the searches precise ----

  ghost predicate SameKey(f: FlowValue, g: FlowValue) {
    f.srcPortId == g.srcPortId && f.conId.srcCepId == g.conId.srcCepId
  }

  /** Entry k has an instance and no other entry has its identifiers. */
  ghost predicate Identifiable(t: seq<Entry>, k: nat) {
    && k < |t| && t[k].fai.Fai?
    && forall i :: 0 <= i < |t| && i != k ==> !SameKey(t[i].flow, t[k].flow)
  }

  /** Every entry with an instance is identifiable. */
  ghost predicate Distinct(t: seq<Entry>) {
    forall i, k :: 0 <= i < |t| && 0 <= k < |t| && i != k && t[k].fai.Fai? ==> !SameKey(t[i].flow, t[k].flow)
  }

  lemma FindsItself(t: seq<Entry>, k: nat)
    requires Identifiable(t, k)
    ensures FindByFlow(t, t[k].flow) == k
    ensures forall s :: ChangeStatus(t, t[k].flow, s) == t[k := t[k].(status := s)]
  {
    hide FindByFlow;
    assert Same(t[k].flow, t[k].flow);
    assert forall i :: 0 <= i < |t| && i != k ==> !Same(t[i].flow, t[k].flow);
  }

  /** What Handle does to entry k when identifiers are distinct. */
  function Handled(e: Entry, s: Signal): Entry
    requires e.fai.Fai?
  {
    match s
    case CreatePositive(f) =>
      Entry(e.flow.(dstPortId := f.dstPortId, conId := e.flow.conId.(dstCepId := f.conId.dstCepId)), Transfer,
            e.fai.(remotePortId := f.dstPortId, remoteCepId := f.conId.dstCepId))
    case CreateNegative(_, retry) =>
      e.(flow := e.flow.(createFlowRetries := e.flow.createFlowRetries + 1),
         status := if retry then e.status else AllocNega)
    case DeleteRequest(f) =>
      if e.status != Transfer then e
      else e.(flow := e.flow.(deallocInvokeId := f.deallocInvokeId), status := Deallocated)
    case DeleteAnswer(_) =>
      if e.status != DeallocPend then e else e.(status := Deallocated)
  }

  function HandledReaction(n: Node, k: nat, s: Signal): Reaction
    requires k < |n.table| && n.table[k].fai.Fai?
  {
    var m := Update(n, k, Handled(n.table[k], s));
    match s
    case CreatePositive(_) => Reaction(m, [])
    case CreateNegative(_, retry) => if retry then SendCreate(m, k) else Reaction(m, [])
    case DeleteRequest(_) =>
      Reaction(m, if n.table[k].status == Transfer then [DeleteResponse(m.table[k].flow)] else [])
    case DeleteAnswer(_) => Reaction(m, [])
  }

  lemma DistinctUpdate(t: seq<Entry>, k: nat, e: Entry)
    requires Distinct(t) && k < |t| && (e.fai.Fai? ==> t[k].fai.Fai?) && SameKey(e.flow, t[k].flow)
    ensures Distinct(t[k := e])
  {}

  lemma IdentifiableUpdate(t: seq<Entry>, k: nat, e: Entry)
    requires Identifiable(t, k) && e.fai.Fai? && SameKey(e.flow, t[k].flow)
    ensures Identifiable(t[k := e], k)
  {}

  lemma HandleExactly(n: Node, k: nat, s: Signal)
    requires Identifiable(n.table, k)
    ensures Handle(n, k, s) == HandledReaction(n, k, s)
  {
    hide FindByFlow, ChangeStatus, Same;
    var e := n.table[k];
    var g := Handled(e, s);
    FindsItself(n.table, k);
    var m := Update(n, k, e.(flow := g.flow, fai := g.fai));
    IdentifiableUpdate(n.table, k, e.(flow := g.flow, fai := g.fai));
    FindsItself(m.table, k);
  }

  lemma {:induction false} DispatchToNone(n: Node, s: Signal, k: nat)
    requires k <= |n.table|
    requires forall i :: k <= i < |n.table| ==> !Listens(n.table[i], s)
    ensures Dispatch(n, s, k) == Reaction(n, [])
    decreases |n.table| - k
  {
    if k < |n.table| { DispatchToNone(n, s, k + 1); }
  }

  /** The broadcast reaches exactly the one instance that listens. */
  lemma {:induction false} DispatchToOne(n: Node, s: Signal, k: nat, m: nat)
    requires Identifiable(n.table, m) && k <= m && Listens(n.table[m], s)
    requires forall i :: k <= i < |n.table| && i != m ==> !Listens(n.table[i], s)
    ensures Dispatch(n, s, k) == HandledReaction(n, m, s)
    decreases m - k
  {
    hide Handle, HandledReaction;
    if k < m {
      DispatchToOne(n, s, k + 1, m);
    } else {
      var r := Handle(n, m, s);
      HandleExactly(n, m, s);
      HandledElsewhere(n, m, s);
      forall i | m < i < |n.table| ensures !Listens(r.node.table[i], s) {
        assert !Listens(n.table[i], s);
      }
      DispatchToNone(r.node, s, m + 1);
    }
  }

  lemma HandledElsewhere(n: Node, m: nat, s: Signal)
    requires m < |n.table| && n.table[m].fai.Fai?
    ensures var t := HandledReaction(n, m, s).node.table;
      |t| == |n.table| && forall i :: 0 <= i < |t| && i != m ==> t[i] == n.table[i]
  {}

  /** When only entry m can listen, the broadcast does what that entry's instance does, if any. */
  lemma DispatchEffect(n: Node, s: Signal, m: nat)
    requires Identifiable(n.table, m)
    requires forall k :: 0 <= k < |n.table| && Listens(n.table[k], s) ==> k == m
    ensures Dispatch(n, s, 0) == if Listens(n.table[m], s) then HandledReaction(n, m, s) else Reaction(n, [])
  {
    if Listens(n.table[m], s) { DispatchToOne(n, s, 0, m); } else { DispatchToNone(n, s, 0); }
  }

  /** SendCreate on an entry just updated to e. */
  function CreatedEntry(e: Entry, invoke: nat): Entry {
    if e.flow.allocInvokeId != 0 then e else e.(flow := e.flow.(allocInvokeId := invoke + 1))
  }

  function CreatedInvoke(e: Entry, invoke: nat): nat {
    if e.flow.allocInvokeId != 0 then invoke else invoke + 1
  }

  lemma SendCreateExactly(n: Node, k: nat, e: Entry)
    requires k < |n.table|
    ensures SendCreate(Update(n, k, e), k) ==
      Reaction(Node(n.table[k := CreatedEntry(e, n.invoke)], CreatedInvoke(e, n.invoke)),
               [Create(CreatedEntry(e, n.invoke).flow)])
  {
    assert n.table[k := e][k := CreatedEntry(e, n.invoke)] == n.table[k := CreatedEntry(e, n.invoke)];
  }

  /** AllocateRequest when identifiers are distinct: the entry afterwards. */
  function AllocatedEntry(e: Entry, o: Outcome, invoke: nat): Entry {
    if e.status != AllocPend then e
    else match o
      case Refused => e.(status := AllocNega)
      case NoInstance(qosId) => e.(flow := e.flow.(conId := e.flow.conId.(qosId := qosId)), status := AllocNega)
      case Ready(qosId, bound) =>
        var g := e.(flow := e.flow.(conId := e.flow.conId.(qosId := qosId)));
        if bound then CreatedEntry(g, invoke) else g
  }

  predicate AllocateSends(e: Entry, o: Outcome) { e.status == AllocPend && o.Ready? && o.bound }

  lemma AllocateExactly(n: Node, k: nat, o: Outcome)
    requires Identifiable(n.table, k)
    ensures
      var e := n.table[k];
      var g := AllocatedEntry(e, o, n.invoke);
      var sends := AllocateSends(e, o);
      AllocateRequest(n, k, o) ==
      Reaction(Node(n.table[k := g], if sends then CreatedInvoke(e, n.invoke) else n.invoke),
               if sends then [Create(g.flow)] else [])
  {
    hide FindByFlow, ChangeStatus, Same;
    var e := n.table[k];
    FindsItself(n.table, k);
    if e.status != AllocPend {
      assert n.table[k := e] == n.table;
    } else if !o.Refused? {
      var g := e.(flow := e.flow.(conId := e.flow.conId.(qosId := o.qosId)));
      IdentifiableUpdate(n.table, k, g);
      FindsItself(n.table[k := g], k);
      SendCreateExactly(n, k, g);
      assert n.table[k := g][k := g.(status := AllocNega)] == n.table[k := g.(status := AllocNega)];
    }
  }

  lemma DeallocateExactly(n: Node, k: nat)
    requires Identifiable(n.table, k)
    ensures
      var e := n.table[k].(status := DeallocPend);
      var numbered := e.flow.deallocInvokeId != 0;
      var g := if numbered then e else e.(flow := e.flow.(deallocInvokeId := n.invoke + 1));
      DeallocateRequest(n, k) ==
      Reaction(Node(n.table[k := g], if numbered then n.invoke else n.invoke + 1), [Delete(g.flow)])
  {
    hide FindByFlow, Same;
    var e := n.table[k].(status := DeallocPend);
    IdentifiableUpdate(n.table, k, e);
    FindsItself(n.table[k := e], k);
    var g := e.(flow := e.flow.(deallocInvokeId := n.invoke + 1));
    assert n.table[k := e][k := g] == n.table[k := g];
  }

  lemma RespondExactly(n: Node, k: nat, positive: bool, ready: bool, bound: bool)
    requires Identifiable(n.table, k)
    ensures
      var e := n.table[k];
      var status := if e.status != AllocPend then e.status
                    else if positive && ready then Transfer else AllocNega;
      var sent := if e.status != AllocPend then []
                  else if positive && ready then (if bound then [CreateResponse(true, e.flow)] else [])
                  else [CreateResponse(false, e.flow)];
      AllocateResponse(n, k, positive, ready, bound) == Reaction(Update(n, k, e.(status := status)), sent)
  {
    hide FindByFlow, ChangeStatus, Same;
    FindsItself(n.table, k);
    assert n.table[k := n.table[k]] == n.table;
  }
}
