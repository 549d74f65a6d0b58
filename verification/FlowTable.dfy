/** The flow allocator's table: src/DIF/FA/FAITable.cc. A flow is stored in its entry by value. */
module FlowTable {
  import opened Names
  import opened Flow

  datatype Status =
    | Unknown | AllocPend | Transfer | AllocNega | AllocErr | DeallocPend | Deallocated
    | DeinstPend | Deinstantiated | Forwarding | Forwarded

  /** The flow allocator instance that serves an entry, with the identifiers it keeps. */
  datatype Fai = NoFai | Fai(localPortId: int, localCepId: int, remotePortId: int, remoteCepId: int)

  datatype Entry = Entry(flow: FlowValue, status: Status, fai: Fai)

  // ---- Searches, on values: the first match, or the length of the table ----

  function FindByFlow(t: seq<Entry>, f: FlowValue): (k: nat)
    ensures k <= |t|
    ensures k < |t| ==> Same(t[k].flow, f)
    ensures forall i :: 0 <= i < k ==> !Same(t[i].flow, f)
  {
    if t == [] || Same(t[0].flow, f) then 0 else 1 + FindByFlow(t[1..], f)
  }

  function FirstInvoke(t: seq<Entry>, id: int): (k: nat)
    ensures k <= |t|
    ensures k < |t| ==> t[k].flow.allocInvokeId == id
    ensures forall i :: 0 <= i < k ==> t[i].flow.allocInvokeId != id
  {
    if t == [] || t[0].flow.allocInvokeId == id then 0 else 1 + FirstInvoke(t[1..], id)
  }

  /** Zero means that no invoke-id was assigned and never matches. */
  function FindByInvokeId(t: seq<Entry>, id: int): (k: nat)
    ensures k == |t| <==> id == 0 || forall i :: 0 <= i < |t| ==> t[i].flow.allocInvokeId != id
  {
    if id == 0 then |t| else FirstInvoke(t, id)
  }

  function FindMgmtByDstAddr(t: seq<Entry>, a: Address): (k: nat)
    ensures k <= |t|
    ensures k < |t| ==> t[k].flow.dstAddr == a && IsLocalManagement(t[k].flow)
    ensures forall i :: 0 <= i < k ==> !(t[i].flow.dstAddr == a && IsLocalManagement(t[i].flow))
  {
    if t == [] || (t[0].flow.dstAddr == a && IsLocalManagement(t[0].flow)) then 0
    else 1 + FindMgmtByDstAddr(t[1..], a)
  }

  /** Waiting for the management flow f: the entry's addresses are named like f's applications. */
  predicate AffectedByMgmt(e: Entry, f: FlowValue) {
    && e.flow.srcAddr.apname == f.srcApni.apn && e.flow.dstAddr.apname == f.dstApni.apn
    && e.status == AllocPend
  }

  /** The entries below m that wait for the management flow f, in order. */
  function Affected(t: seq<Entry>, f: FlowValue, m: nat): (ks: seq<nat>)
    requires m <= |t|
    ensures forall k: nat :: k in ks <==> k < m && AffectedByMgmt(t[k], f)
    ensures forall i :: 0 <= i < |ks| ==> ks[i] < m && AffectedByMgmt(t[ks[i]], f)
    ensures forall i, j :: 0 <= i < j < |ks| ==> ks[i] < ks[j]
  {
    if m == 0 then [] else Affected(t, f, m - 1) + (if AffectedByMgmt(t[m - 1], f) then [m - 1] else [])
  }

  /** Relayed requests that wait for a lower flow to the neighbour with the given name. */
  predicate WaitsFor(e: Entry, name: string) { e.flow.dstNeighbor.apname == name && e.status == Forwarding }

  function Waiting(t: seq<Entry>, name: string, m: nat): (ks: seq<nat>)
    requires m <= |t|
    ensures forall k: nat :: k in ks <==> k < m && WaitsFor(t[k], name)
    ensures forall i :: 0 <= i < |ks| ==> ks[i] < m
    ensures forall i, j :: 0 <= i < j < |ks| ==> ks[i] < ks[j]
  {
    if m == 0 then [] else Waiting(t, name, m - 1) + (if WaitsFor(t[m - 1], name) then [m - 1] else [])
  }

  function SetFlow(t: seq<Entry>, k: nat, f: FlowValue): seq<Entry>
    requires k < |t|
  {
    t[k := t[k].(flow := f)]
  }

  /** setFaiToFlow: the source dereferences the entry it finds. */
  function SetFai(t: seq<Entry>, f: FlowValue, fai: Fai): seq<Entry> {
    var k := FindByFlow(t, f);
    if k < |t| then t[k := t[k].(fai := fai)] else t
  }

  function ChangeStatus(t: seq<Entry>, f: FlowValue, s: Status): (u: seq<Entry>)
    ensures |u| == |t|
  {
    var k := FindByFlow(t, f);
    if k < |t| then t[k := t[k].(status := s)] else t
  }

  ghost predicate Unlike(t: seq<Entry>, f: FlowValue) { forall i :: 0 <= i < |t| ==> !Same(t[i].flow, f) }

  /** A flow that is like no other is found where it was put. */
  lemma LastFound(t: seq<Entry>, e: Entry)
    requires Unlike(t, e.flow)
    ensures FindByFlow(t + [e], e.flow) == |t|
    ensures forall s :: ChangeStatus(t + [e], e.flow, s) == t + [e.(status := s)]
    ensures forall i :: SetFai(t + [e], e.flow, i) == t + [e.(fai := i)]
  {
    hide FindByFlow;
    var u := t + [e];
    assert Same(u[|t|].flow, e.flow);
    assert forall i :: 0 <= i < |t| ==> !Same(u[i].flow, e.flow);
  }

  // ---- The table object ----

  class FaiTable {
    var entries: seq<Entry>

    constructor ()
      ensures entries == []
    {
      entries := [];
    }

    method InsertNew(flow: FlowValue)
      modifies this
      ensures entries == old(entries) + [Entry(flow, Unknown, NoFai)]
    {
      entries := entries + [Entry(flow, Unknown, NoFai)];
    }

    method FindEntryByFlow(flow: FlowValue) returns (k: nat)
      ensures k == FindByFlow(entries, flow)
    {
      k := 0;
      while k < |entries|
        invariant k <= |entries|
        invariant forall i :: 0 <= i < k ==> !Same(entries[i].flow, flow)
      {
        if Same(entries[k].flow, flow) {
          return;
        }
        k := k + 1;
      }
    }

    method FindEntryByInvokeId(id: int) returns (k: nat)
      ensures k == FindByInvokeId(entries, id)
    {
      if id == 0 {
        return |entries|;
      }
      k := 0;
      while k < |entries|
        invariant k <= |entries|
        invariant forall i :: 0 <= i < k ==> entries[i].flow.allocInvokeId != id
      {
        if entries[k].flow.allocInvokeId == id {
          return;
        }
        k := k + 1;
      }
    }

    method FindMgmtEntryByDstAddr(addr: Address) returns (k: nat)
      ensures k == FindMgmtByDstAddr(entries, addr)
    {
      k := 0;
      while k < |entries|
        invariant k <= |entries|
        invariant forall i :: 0 <= i < k ==> !(entries[i].flow.dstAddr == addr && IsLocalManagement(entries[i].flow))
      {
        if entries[k].flow.dstAddr == addr && IsLocalManagement(entries[k].flow) {
          return;
        }
        k := k + 1;
      }
    }

    method FindEntriesAffectedByMgmt(flow: FlowValue) returns (ks: seq<nat>)
      ensures ks == Affected(entries, flow, |entries|)
    {
      hide AffectedByMgmt;
      ks := [];
      for k := 0 to |entries|
        invariant ks == Affected(entries, flow, k)
      {
        if AffectedByMgmt(entries[k], flow) {
          ks := ks + [k];
        }
      }
    }

    method FindEntriesByDstNeighborAndFwd(name: string) returns (ks: seq<nat>)
      ensures ks == Waiting(entries, name, |entries|)
    {
      hide WaitsFor;
      ks := [];
      for k := 0 to |entries|
        invariant ks == Waiting(entries, name, k)
      {
        if WaitsFor(entries[k], name) {
          ks := ks + [k];
        }
      }
    }

    /** A write through the pointer to the flow object that entry k holds. */
    method AssignFlow(k: nat, flow: FlowValue)
      requires k < |entries|
      modifies this
      ensures entries == SetFlow(old(entries), k, flow)
    {
      entries := entries[k := entries[k].(flow := flow)];
    }

    /** The same, and a write to the remote identifiers of its instance. */
    method AssignEntry(k: nat, flow: FlowValue, fai: Fai)
      requires k < |entries|
      modifies this
      ensures entries == old(entries)[k := old(entries)[k].(flow := flow, fai := fai)]
    {
      entries := entries[k := entries[k].(flow := flow, fai := fai)];
    }

    /** changeAllocStatus for the entry that holds an instance. */
    method AssignStatus(k: nat, status: Status)
      requires k < |entries|
      modifies this
      ensures entries == old(entries)[k := old(entries)[k].(status := status)]
    {
      entries := entries[k := entries[k].(status := status)];
    }

    method SetFaiToFlow(fai: Fai, flow: FlowValue)
      modifies this
      ensures entries == SetFai(old(entries), flow, fai)
    {
      var k := FindEntryByFlow(flow);
      if k < |entries| {
        entries := entries[k := entries[k].(fai := fai)];
      }
    }

    method ChangeAllocStatus(flow: FlowValue, status: Status)
      modifies this
      ensures entries == ChangeStatus(old(entries), flow, status)
    {
      var k := FindEntryByFlow(flow);
      if k < |entries| {
        entries := entries[k := entries[k].(status := status)];
      }
    }
  }
}
