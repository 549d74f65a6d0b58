/** Runs of a whole flow allocator in which the random identifiers are fresh and the flows are
    structurally distinct: every instance stays identifiable, and so the timer resumes exactly the
    flows that were collected. */
module FlowIdentifiers {
  import opened Names
  import opened Flow
  import opened FlowTable
  import opened FlowAllocation
  import opened FlowDirectory
  import opened FlowRelay
  import opened FlowManagement
  import RelayRuns

  ghost predicate FreshKey(t: seq<Entry>, port: int, cep: int) {
    && port >= 0
    && forall k :: 0 <= k < |t| ==> t[k].flow.srcPortId != port || t[k].flow.conId.srcCepId != cep
  }

  /** The management flow that goes with g, as it is inserted and with its addresses. */
  function Twin(g: FlowValue): FlowValue { DupToMgmt(g) }

  function AddressedTwin(d: Directory, g: FlowValue): FlowValue { WithNeighbours(d, Readdress(Twin(g))) }

  /** The request of flow f meets a table with other flows and other identifiers. */
  ghost predicate FreshRequest(d: Directory, t: seq<Entry>, f: FlowValue, own: Choice, mgmt: Choice) {
    var g := Completed(d, f);
    && f.srcPortId == UNDEFINED_ID && Unlike(t, f) && Unlike(t, g)
    && FreshKey(t, own.port, own.cep) && FreshKey(t, mgmt.port, mgmt.cep)
    && (own.port != mgmt.port || own.cep != mgmt.cep)
    && Unlike(t + [Entry(g, AllocPend, NoFai)], Twin(g)) && Unlike(t + [Entry(g, AllocPend, NoFai)], AddressedTwin(d, g))
  }

  ghost predicate FreshArrival(d: Directory, t: seq<Entry>, f: FlowValue, port: int, cep: int) {
    if d.isLocal(f.srcApni.apn) then
      && FreshKey(t, port, cep)
      && Unlike(t, WithNeighbours(d, f)) && Unlike(t, Identified(WithNeighbours(d, f), port, cep))
      && Unlike(t, Identified(WithNeighbours(d, f), port, cep).(ddtFlag := true))
    else
      forall k :: 0 <= k < |t| && t[k].fai.Fai? ==> !SameKey(t[k].flow, Swap(f))
  }

  ghost predicate FreshEvent(d: Directory, s: State, v: Event) {
    match v
    case Request(f, own, mgmt) => FreshRequest(d, s.node.table, f, own, mgmt)
    case CreateArrives(f, port, cep, _, _) => FreshArrival(d, s.node.table, f, port, cep)
    case _ => true
  }

  // ---- Invariant ----

  /** Instances have distinct identifiers, which are numbers, and a flow that waits has an instance. */
  ghost predicate Proper(t: seq<Entry>) {
    && Distinct(t)
    && (forall k :: 0 <= k < |t| && t[k].fai.Fai? ==> t[k].flow.srcPortId >= 0)
    && (forall k :: 0 <= k < |t| && t[k].status == AllocPend ==> t[k].fai.Fai?)
  }

  ghost predicate PendingProper(s: State) {
    forall i :: 0 <= i < |s.pending| ==> s.pending[i] < |s.node.table| && s.node.table[s.pending[i]].fai.Fai?
  }

  ghost predicate Well(s: State) { Proper(s.node.table) && PendingProper(s) }

  lemma WellIsIdentifiable(s: State)
    requires Well(s)
    ensures AllIdentifiable(s)
  {}

  // ---- Steps that make no entry ----

  ghost predicate KeepsKeys(t: seq<Entry>, u: seq<Entry>) {
    SameKeys(t, u) && forall k :: 0 <= k < |t| && u[k].status == AllocPend ==> t[k].status == AllocPend
  }

  lemma KeepsProper(t: seq<Entry>, u: seq<Entry>)
    requires Proper(t) && KeepsKeys(t, u)
    ensures Proper(u)
  {}

  lemma KeepsTransitive(t: seq<Entry>, u: seq<Entry>, v: seq<Entry>)
    requires KeepsKeys(t, u) && KeepsKeys(u, v)
    ensures KeepsKeys(t, v)
  {}

  lemma StatusKeeps(t: seq<Entry>, f: FlowValue, st: Status)
    requires st != AllocPend
    ensures KeepsKeys(t, ChangeStatus(t, f, st))
  {
    hide FindByFlow;
  }

  lemma UpdateKeeps(t: seq<Entry>, k: nat, e: Entry)
    requires k < |t| && SameKey(e.flow, t[k].flow) && e.fai.Fai? == t[k].fai.Fai?
    requires e.status == AllocPend ==> t[k].status == AllocPend
    ensures KeepsKeys(t, t[k := e])
  {}

  lemma ResponseKeepsKeys(n: Node, k: nat, positive: bool, ready: bool, bound: bool)
    requires k < |n.table|
    ensures KeepsKeys(n.table, AllocateResponse(n, k, positive, ready, bound).node.table)
  {
    hide FindByFlow, ChangeStatus;
    StatusKeeps(n.table, n.table[k].flow, Transfer);
    StatusKeeps(n.table, n.table[k].flow, AllocNega);
  }

  lemma DeallocationKeepsKeys(n: Node, k: nat)
    requires k < |n.table|
    ensures KeepsKeys(n.table, DeallocateRequest(n, k).node.table)
  {
    hide FindByFlow;
  }

  lemma HandleKeepsKeys(n: Node, k: nat, x: Signal)
    requires k < |n.table| && n.table[k].fai.Fai?
    ensures KeepsKeys(n.table, Handle(n, k, x).node.table)
  {
    hide FindByFlow, ChangeStatus, Same;
    var e := n.table[k];
    match x
    case CreatePositive(f) =>
      var g := e.flow.(dstPortId := f.dstPortId, conId := e.flow.conId.(dstCepId := f.conId.dstCepId));
      var m := n.table[k := e.(flow := g, fai := e.fai.(remotePortId := f.dstPortId, remoteCepId := f.conId.dstCepId))];
      StatusKeeps(m, g, Transfer);
      KeepsTransitive(n.table, m, ChangeStatus(m, g, Transfer));
    case CreateNegative(_, retry) =>
      var g := e.flow.(createFlowRetries := e.flow.createFlowRetries + 1);
      var m := n.table[k := e.(flow := g)];
      StatusKeeps(m, g, AllocNega);
      KeepsTransitive(n.table, m, ChangeStatus(m, g, AllocNega));
    case DeleteRequest(f) =>
      var g := e.flow.(deallocInvokeId := f.deallocInvokeId);
      var m := n.table[k := e.(flow := g)];
      StatusKeeps(m, g, Deallocated);
      KeepsTransitive(n.table, m, ChangeStatus(m, g, Deallocated));
    case DeleteAnswer(_) =>
      StatusKeeps(n.table, e.flow, Deallocated);
  }

  lemma {:induction false} SendAllOnKeepsKeys(d: Directory, n: Node, ks: seq<nat>)
    requires forall i :: 0 <= i < |ks| ==> ks[i] < |n.table|
    ensures KeepsKeys(n.table, SendAllOn(d, n, ks).node.table)
    decreases |ks|
  {
    if ks != [] {
      hide SentOn, ChangeStatus, KeepsKeys;
      var n1 := SendOn(d, n, ks[0]).node;
      StatusKeeps(n.table, n.table[ks[0]].flow, Forwarded);
      SendAllOnKeepsKeys(d, n1, ks[1..]);
      KeepsTransitive(n.table, n1.table, SendAllOn(d, n1, ks[1..]).node.table);
    } else {
      hide SendAllOn;
    }
  }

  // ---- Signals and the timer ----

  lemma HandlesKeepsWell(s: State, me: string, k: nat, x: Signal)
    requires Well(s) && k < |s.node.table| && s.node.table[k].fai.Fai?
    ensures Well(Handles(s, me, k, x))
  {
    hide Transferring, Handle;
    HandleKeepsKeys(s.node, k, x);
    KeepsProper(s.node.table, Handle(s.node, k, x).node.table);
    hide Distinct, AffectedByMgmt;
    var g := Became(s, Handle(s.node, k, x)).node.table[k].flow;
    var t := Handle(s.node, k, x).node.table;
    var ks := Affected(t, g, |t|);
    forall i | 0 <= i < |ks| ensures t[ks[i]].fai.Fai? { WaitsForMgmt(t[ks[i]], g); }
  }

  lemma WaitsForMgmt(e: Entry, f: FlowValue)
    ensures AffectedByMgmt(e, f) ==> e.status == AllocPend
  {}

  lemma {:induction false} SignalledKeepsWell(s: State, me: string, x: Signal, k: nat)
    requires Well(s) && k <= |s.node.table|
    ensures Well(Signalled(s, me, x, k))
    decreases |s.node.table| - k
  {
    if k < |s.node.table| {
      hide Well, Handles;
      if Listens(s.node.table[k], x) { HandlesKeepsWell(s, me, k, x); }
      SignalledKeepsWell(if Listens(s.node.table[k], x) then Handles(s, me, k, x) else s, me, x, k + 1);
    }
  }

  lemma ResumedKeepsKeys(s: State, r: State, k: nat, o: Outcome)
    requires k < |s.node.table| && Resumed(s, r, k, o)
    ensures KeepsKeys(s.node.table, r.node.table)
  {}

  lemma {:induction false} DrainedKeepsWell(s: State, outcomes: nat -> Outcome)
    requires Well(s)
    ensures Well(Drained(s, outcomes))
    decreases |s.pending|
  {
    if s.pending != [] {
      var k := s.pending[0];
      var s1 := ResumeOne(s, k, outcomes).(pending := s.pending[1..]);
      WellIsIdentifiable(s);
      ResumeOneExactly(s, outcomes);
      ResumedKeepsKeys(s, s1, k, outcomes(k));
      KeepsProper(s.node.table, s1.node.table);
      assert PendingProper(s1) by {
        hide Distinct, ResumeOne;
        forall i | 0 <= i < |s1.pending| ensures s1.node.table[s1.pending[i]].fai.Fai? {
          assert s1.pending[i] == s.pending[i + 1];
        }
      }
      hide ResumeOne, Proper, PendingProper;
      DrainedKeepsWell(s1, outcomes);
    }
  }

  // ---- Steps that make an entry ----

  lemma AppendProper(t: seq<Entry>, e: Entry)
    requires Proper(t)
    requires if e.fai.Fai? then FreshKey(t, e.flow.srcPortId, e.flow.conId.srcCepId)
             else e.status != AllocPend && forall k :: 0 <= k < |t| && t[k].fai.Fai? ==> !SameKey(t[k].flow, e.flow)
    ensures Proper(t + [e])
  {
    var u := t + [e];
    assert u[|t|] == e && forall k :: 0 <= k < |t| ==> u[k] == t[k];
  }

  /** Entries are not lost and keep having instances. */
  ghost predicate KeepsInstances(t: seq<Entry>, u: seq<Entry>) {
    |t| <= |u| && forall k :: 0 <= k < |t| ==> u[k].fai.Fai? == t[k].fai.Fai?
  }

  lemma RelayKeepsProper(d: Directory, n: Node, f: FlowValue, bound: bool)
    requires Proper(n.table) && forall k :: 0 <= k < |n.table| && n.table[k].fai.Fai? ==> !SameKey(n.table[k].flow, Swap(f))
    ensures Proper(RelayRequest(d, n, f, bound).node.table)
    ensures KeepsInstances(n.table, RelayRequest(d, n, f, bound).node.table)
  {
    var t, k, g, h := n.table, |n.table|, WithNeighbours(d, Swap(f)), RelayFlow(d, f);
    NeighboursOnly(d, Swap(f));
    assert SameKey(g, Swap(f)) && SameKey(h, g);
    hide FindByFlow, ChangeStatus, WithNeighbours, RelayFlow, SentOn;
    var t0 := t + [Entry(g, Unknown, NoFai)];
    AppendProper(t, t0[k]);
    hide Proper;
    var t1 := ChangeStatus(t0, g, Forwarding);
    StatusKeeps(t0, g, Forwarding);
    var t2 := SetFlow(t1, k, h);
    assert SameKey(t1[k].flow, t0[k].flow) && SameKey(t0[k].flow, g);
    UpdateKeeps(t1, k, t1[k].(flow := h));
    KeepsTransitive(t0, t1, t2);
    StatusKeeps(t2, h, AllocErr);
    StatusKeeps(t2, h, Forwarded);
    KeepsTransitive(t0, t2, ChangeStatus(t2, h, AllocErr));
    KeepsTransitive(t0, t2, ChangeStatus(t2, h, Forwarded));
    assert t2 == RelayEntry(d, t, f) && t2[k].flow == h;
    var u := RelayRequest(d, n, f, bound).node.table;
    assert KeepsKeys(t0, u);
    KeepsProper(t0, u);
    assert forall i :: 0 <= i < |t| ==> t0[i] == t[i];
  }

  lemma CreatedEntry(d: Directory, t: seq<Entry>, f: FlowValue, port: int, cep: int)
    requires FreshArrival(d, t, f, port, cep) && d.isLocal(f.srcApni.apn)
    ensures var g := WithNeighbours(d, f);
      CreatedTable(d, t, f, port, cep)
      == t + [Entry(Identified(g, port, cep).(ddtFlag := g.ddtFlag || d.isLocal(g.dstApni.apn)), AllocPend,
                    Fai(port, cep, g.dstPortId, g.conId.dstCepId))]
  {
    var g := WithNeighbours(d, f);
    hide FindByFlow, ChangeStatus, SetFai, WithNeighbours;
    var fai := Fai(port, cep, g.dstPortId, g.conId.dstCepId);
    LastFound(t, Entry(g, Unknown, NoFai));
    LastFound(t, Entry(g, AllocPend, NoFai));
    LastFound(t, Entry(g, AllocPend, fai));
  }

  lemma LocalArrivalKeepsProper(d: Directory, n: Node, f: FlowValue, port: int, cep: int, accepted: bool)
    requires Proper(n.table) && FreshArrival(d, n.table, f, port, cep) && d.isLocal(f.srcApni.apn)
    ensures
      var u := CreateDecided(n.(table := CreatedTable(d, n.table, f, port, cep)), |n.table|, accepted).node.table;
      Proper(u) && KeepsInstances(n.table, u)
  {
    hide FindByFlow, ChangeStatus, SetFai, WithNeighbours, CreatedTable, Distinct, Same;
    CreatedEntry(d, n.table, f, port, cep);
    var u := CreatedTable(d, n.table, f, port, cep);
    var e := u[|n.table|];
    AppendProper(n.table, e);
    StatusKeeps(u, e.flow, AllocNega);
    KeepsProper(u, ChangeStatus(u, e.flow, AllocNega));
  }

  lemma ArrivalKeepsProper(d: Directory, n: Node, f: FlowValue, port: int, cep: int, accepted: bool, bound: bool)
    requires Proper(n.table) && FreshArrival(d, n.table, f, port, cep)
    ensures Proper(CreateArrived(d, n, f, port, cep, accepted, bound).node.table)
    ensures KeepsInstances(n.table, CreateArrived(d, n, f, port, cep, accepted, bound).node.table)
  {
    hide Proper, RelayRequest, CreatedTable, CreateDecided, FindByInvokeId;
    if !d.isLocal(f.srcApni.apn) {
      RelayKeepsProper(d, n, f, bound);
    } else {
      LocalArrivalKeepsProper(d, n, f, port, cep, accepted);
    }
  }

  // ---- Requests ----

  /** u is t with one entry for each request: one with the own identifiers or, for a flow with an
      error, without an instance, and perhaps one for the management flow. */
  ghost predicate Extended(t: seq<Entry>, u: seq<Entry>, own: Choice, mgmt: Choice) {
    && |t| < |u| <= |t| + 2 && (forall k :: 0 <= k < |t| ==> u[k] == t[k])
    && (if u[|t|].fai.Fai? then u[|t|].flow.srcPortId == own.port && u[|t|].flow.conId.srcCepId == own.cep
        else u[|t|].flow.srcPortId == UNDEFINED_ID)
    && (|u| == |t| + 2 ==>
          var e := u[|t| + 1];
          e.fai.Fai? && e.flow.srcPortId == mgmt.port && e.flow.conId.srcCepId == mgmt.cep)
  }

  lemma ExtendedProper(t: seq<Entry>, u: seq<Entry>, own: Choice, mgmt: Choice)
    requires Proper(t) && Extended(t, u, own, mgmt) && (u[|t|].status == AllocPend ==> u[|t|].fai.Fai?)
    requires FreshKey(t, own.port, own.cep) && FreshKey(t, mgmt.port, mgmt.cep)
    requires own.port != mgmt.port || own.cep != mgmt.cep
    ensures Proper(u) && KeepsInstances(t, u)
  {}

  lemma CompletedKey(d: Directory, f: FlowValue)
    ensures Completed(d, f).srcPortId == f.srcPortId && Completed(d, f).conId == f.conId
    ensures AddressedTwin(d, f).srcPortId == f.srcPortId
  {
    hide AddressFromDa, ParseAddress;
  }

  /** The management flow gets an entry of its own. */
  lemma MgmtEntry(d: Directory, s: State, g: FlowValue, c: Choice)
    requires Unlike(s.node.table, Twin(g)) && Unlike(s.node.table, AddressedTwin(d, g))
    requires FreshKey(s.node.table, c.port, c.cep)
    ensures var t, u := s.node.table, MgmtRequested(d, s, Twin(g), c).node.table;
      && |u| == |t| + 1 && (forall k :: 0 <= k < |t| ==> u[k] == t[k])
      && u[|t|].fai.Fai? && u[|t|].flow.srcPortId == c.port && u[|t|].flow.conId.srcCepId == c.cep
  {
    var t, h := s.node.table, AddressedTwin(d, g);
    hide FindByFlow, ChangeStatus, SetFai, WithNeighbours, Readdress, DupToMgmt, AddressedTwin, Transferring, Hand;
    LastFound(t, Entry(Twin(g), Unknown, NoFai));
    assert h == WithNeighbours(d, Readdress(Twin(g))) by { TwinAddressed(d, g); }
    var fai := Fai(c.port, c.cep, UNDEFINED_ID, UNDEFINED_ID);
    LastFound(t, Entry(h, AllocPend, NoFai));
    LastFound(t, Entry(h, AllocPend, fai));
    var t1 := SetFlow(Inserted(t, Twin(g)), |t|, h);
    assert t1 == t + [Entry(h, AllocPend, NoFai)];
    var e := Entry(FlowManagement.Identified(h, c.port, c.cep), AllocPend, fai);
    assert WithFai(t1, |t|, c.port, c.cep) == t + [e];
    var s1 := WithTable(s, t + [e]);
    assert s1.node.table == t + [e];
    assert Identifiable(s1.node.table, |t|);
    HandExactly(s1, |t|, c.outcome);
  }

  lemma TwinAddressed(d: Directory, g: FlowValue)
    ensures AddressedTwin(d, g) == WithNeighbours(d, Readdress(Twin(g)))
  {}

  /** u is t with an entry for flow g, still without an instance, and perhaps the management flow's. */
  ghost predicate Prepared(t: seq<Entry>, u: seq<Entry>, g: FlowValue, mgmt: Choice) {
    && |t| < |u| <= |t| + 2 && (forall k :: 0 <= k < |t| ==> u[k] == t[k])
    && u[|t|] == Entry(g, AllocPend, NoFai)
    && (|u| == |t| + 2 ==>
          var e := u[|t| + 1];
          e.fai.Fai? && e.flow.srcPortId == mgmt.port && e.flow.conId.srcCepId == mgmt.cep)
  }

  lemma PreparedTable(d: Directory, s: State, f: FlowValue, own: Choice, mgmt: Choice)
    requires FreshRequest(d, s.node.table, f, own, mgmt)
    ensures Prepared(s.node.table, Prepare(d, s, f, mgmt).node.table, Completed(d, f), mgmt)
  {
    var t, g := s.node.table, Completed(d, f);
    CompletedKey(d, f);
    hide FindByFlow, ChangeStatus, Completed, MgmtRequested, DupToMgmt, AddressedTwin, FindMgmtByDstAddr, Transferring;
    LastFound(t, Entry(f, Unknown, NoFai));
    var t1 := SetFlow(Inserted(t, f), |t|, g);
    assert t1 == t + [Entry(g, AllocPend, NoFai)];
    var s1 := WithTable(s, t1);
    assert s1.node.table == t1;
    if !g.ddtFlag && FindMgmtByDstAddr(s1.node.table, g.dstAddr) == |s1.node.table| {
      assert Twin(g) == DupToMgmt(g);
      MgmtEntry(d, s1, g, mgmt);
    }
  }

  lemma FirstFound(u: seq<Entry>, k: nat)
    requires k < |u| && forall i :: 0 <= i < k ==> !Same(u[i].flow, u[k].flow)
    ensures FindByFlow(u, u[k].flow) == k
  {
    hide FindByFlow;
    assert Same(u[k].flow, u[k].flow);
  }

  lemma OwnEntry(t: seq<Entry>, k: nat, own: Choice)
    requires k < |t| && FindByFlow(t, t[k].flow) == k
    ensures WithFai(t, k, own.port, own.cep)
            == t[k := Entry(FlowManagement.Identified(t[k].flow, own.port, own.cep), AllocPend,
                            Fai(own.port, own.cep, UNDEFINED_ID, UNDEFINED_ID))]
  {
    hide FindByFlow;
    var f := t[k].flow;
    var t1 := SetFai(t, f, Fai(own.port, own.cep, UNDEFINED_ID, UNDEFINED_ID));
    RelayRuns.FindSameFlows(t, t1, f);
  }

  lemma HandPending(s: State, k: nat, o: Outcome)
    requires k < |s.node.table|
    ensures Hand(s, k, o).pending == s.pending
  {}

  lemma PreparedPending(d: Directory, s: State, f: FlowValue, mgmt: Choice)
    ensures Prepare(d, s, f, mgmt).pending == s.pending
  {
    hide Completed, Inserted, WithFai, Transferring, AllocateRequest, FindMgmtByDstAddr, WithNeighbours, Readdress;
  }

  lemma OwnAdded(t: seq<Entry>, u: seq<Entry>, g: FlowValue, own: Choice, mgmt: Choice)
    requires Prepared(t, u, g, mgmt) && Unlike(t, g) && FreshKey(t, own.port, own.cep)
    requires own.port != mgmt.port || own.cep != mgmt.cep
    ensures var v := WithFai(u, |t|, own.port, own.cep); Extended(t, v, own, mgmt) && Identifiable(v, |t|)
  {
    hide FindByFlow, WithFai, Same;
    FirstFound(u, |t|);
    OwnEntry(u, |t|, own);
  }

  lemma ExtendedStays(t: seq<Entry>, u: seq<Entry>, v: seq<Entry>, own: Choice, mgmt: Choice)
    requires Extended(t, u, own, mgmt) && u[|t|].fai.Fai? && SameKeys(u, v)
    requires forall i :: 0 <= i < |u| && i != |t| ==> v[i] == u[i]
    ensures Extended(t, v, own, mgmt) && v[|t|].fai.Fai?
  {}

  lemma FailedAdded(t: seq<Entry>, u: seq<Entry>, g: FlowValue, own: Choice, mgmt: Choice)
    requires Prepared(t, u, g, mgmt) && Unlike(t, g) && g.srcPortId == UNDEFINED_ID
    ensures var v := ChangeStatus(u, g, AllocErr); Extended(t, v, own, mgmt) && v[|t|].status == AllocErr
  {
    hide FindByFlow, Same;
    FirstFound(u, |t|);
  }

  lemma RequestedTable(d: Directory, s: State, f: FlowValue, own: Choice, mgmt: Choice)
    requires FreshRequest(d, s.node.table, f, own, mgmt)
    ensures var t, u := s.node.table, Requested(d, s, f, own, mgmt).node.table;
      Extended(t, u, own, mgmt) && (u[|t|].status == AllocPend ==> u[|t|].fai.Fai?)
    ensures Requested(d, s, f, own, mgmt).pending == s.pending
  {
    var t, k, g := s.node.table, |s.node.table|, Completed(d, f);
    PreparedTable(d, s, f, own, mgmt);
    CompletedKey(d, f);
    PreparedPending(d, s, f, mgmt);
    hide Prepared, Completed, Prepare, AddressedTwin, Twin, FindMgmtByDstAddr, Transferring, Hand, ChangeStatus, WithFai,
      FreshKey, Identifiable;
    var s1 := Prepare(d, s, f, mgmt);
    if Malformed(g) {
      FailedAdded(t, s1.node.table, g, own, mgmt);
    } else {
      OwnAdded(t, s1.node.table, g, own, mgmt);
      var s2 := WithTable(s1, WithFai(s1.node.table, k, own.port, own.cep));
      assert s2.node.table[k].fai.Fai? by { IdentifiableHasFai(s2.node.table, k); }
      if MgmtReady(s2.node.table, g) {
        HandExactly(s2, k, own.outcome);
        HandPending(s2, k, own.outcome);
        ExtendedStays(t, s2.node.table, Hand(s2, k, own.outcome).node.table, own, mgmt);
      }
    }
  }

  lemma IdentifiableHasFai(t: seq<Entry>, k: nat)
    requires Identifiable(t, k)
    ensures t[k].fai.Fai?
  {}

  // ---- Whole runs ----

  lemma RequestKeepsWell(d: Directory, s: State, f: FlowValue, own: Choice, mgmt: Choice)
    requires Well(s) && FreshRequest(d, s.node.table, f, own, mgmt)
    ensures Well(Requested(d, s, f, own, mgmt))
  {
    hide Proper, Requested, Completed, AddressedTwin, Twin;
    RequestedTable(d, s, f, own, mgmt);
    ExtendedProper(s.node.table, Requested(d, s, f, own, mgmt).node.table, own, mgmt);
  }

  lemma StepKeepsWell(d: Directory, me: string, s: State, v: Event)
    requires Well(s) && Possible(s, v) && FreshEvent(d, s, v)
    ensures Well(Step(d, me, s, v))
  {
    hide Proper, Requested, CreateArrived, AllocateResponse, DeallocateRequest, Signalled, SendAllOn, Drained, Transferring,
      FreshRequest, FreshArrival;
    match v
    case Request(f, own, mgmt) => RequestKeepsWell(d, s, f, own, mgmt);
    case CreateArrives(f, port, cep, accepted, bound) => ArrivalKeepsProper(d, s.node, f, port, cep, accepted, bound);
    case Respond(k, positive, ready, bound) =>
      ResponseKeepsKeys(s.node, k, positive, ready, bound);
      KeepsProper(s.node.table, AllocateResponse(s.node, k, positive, ready, bound).node.table);
    case Deallocate(k) =>
      DeallocationKeepsKeys(s.node, k);
      KeepsProper(s.node.table, DeallocateRequest(s.node, k).node.table);
    case Signals(x) => SignalledKeepsWell(s, me, x, 0);
    case LowerFlow(f) =>
      var ks := Waiting(s.node.table, f.dstApni.apn, |s.node.table|);
      SendAllOnKeepsKeys(d, s.node, ks);
      KeepsProper(s.node.table, SendAllOn(d, s.node, ks).node.table);
    case Timer(outcomes) => DrainedKeepsWell(s, outcomes);
  }

  ghost predicate IsFreshRun(me: string, ds: seq<Directory>, run: seq<State>, events: seq<Event>) {
    && IsRun(me, ds, run, events)
    && forall k :: 0 <= k < |events| ==> FreshEvent(ds[k], run[k], events[k])
  }

  lemma {:induction false} RunKeepsWell(me: string, ds: seq<Directory>, run: seq<State>, events: seq<Event>, k: nat)
    requires IsFreshRun(me, ds, run, events) && k < |run|
    ensures Well(run[k])
  {
    if k > 0 {
      hide Well, Step, Possible, FreshEvent;
      RunKeepsWell(me, ds, run, events, k - 1);
      StepKeepsWell(ds[k - 1], me, run[k - 1], events[k - 1]);
    }
  }

  /** When the timer fires in a run with fresh identifiers and distinct flows, every collected flow is
      handed to its instance in order, and if it still waits it is refused or its M_CREATE is sent,
      unless no lower flow can be bound yet. */
  lemma TimerResumesAllInRuns(me: string, ds: seq<Directory>, run: seq<State>, events: seq<Event>, k: nat, i: nat)
    requires IsFreshRun(me, ds, run, events) && k < |events| && events[k].Timer? && i < |run[k].pending|
    ensures
      var s, r := run[k], run[k + 1];
      && r.pending == [] && |r.node.table| == |s.node.table| && s.sent <= r.sent
      && |r.history.handed| == |s.history.handed| + |s.pending|
      && s.pending[i] < |s.node.table|
      && SameKey(r.history.handed[|s.history.handed| + i], s.node.table[s.pending[i]].flow)
      && Served(s, r, s.pending[i], events[k].outcomes(s.pending[i]))
  {
    hide Proper, FreshEvent, Served, Drained;
    RunKeepsWell(me, ds, run, events, k);
    WellIsIdentifiable(run[k]);
    IndicesKnown(run[k]);
    TimerResumesAll(run[k], events[k].outcomes, i);
    assert run[k + 1] == Drained(run[k], events[k].outcomes).(timers := run[k].timers - 1);
    ServedLater(run[k], Drained(run[k], events[k].outcomes), run[k + 1], run[k].pending[i],
                events[k].outcomes(run[k].pending[i]));
  }

  lemma ServedLater(s: State, r: State, q: State, p: nat, o: Outcome)
    requires p < |s.node.table| == |r.node.table| && |s.sent| <= |r.sent| && Served(s, r, p, o)
    requires q.node == r.node && q.sent == r.sent
    ensures Served(s, q, p, o)
  {}
}
