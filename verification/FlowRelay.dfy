/** Relaying of M_CREATE by a flow allocator between the two ends: src/DIF/FA/FA.cc:242-277 and
    413-422, LisFACreFloPosi of src/DIF/FA/FAListeners.cc:58-77. */
module FlowRelay {
  import opened Names
  import opened Flow
  import opened FlowTable
  import opened FlowAllocation
  import opened FlowDirectory

  /** The hop count is an unsigned 32-bit number. */
  function LessOneHop(hops: nat): nat { (hops + 0xFFFF_FFFF) % 0x1_0000_0000 }

  /** The RIB daemon numbers a request that has no invoke-id yet. */
  function Numbered(f: FlowValue, invoke: nat): FlowValue {
    if f.allocInvokeId != 0 then f else f.(allocInvokeId := invoke + 1)
  }

  // ---- One relay ----

  /** The flow of the relay's own entry, for a request that arrived with flow f. */
  function RelayFlow(d: Directory, f: FlowValue): FlowValue {
    var g := WithNeighbours(d, Swap(f));
    g.(hopCount := LessOneHop(g.hopCount))
  }

  /** What is sent on for an entry with flow g. */
  function SentOn(d: Directory, g: FlowValue, invoke: nat): FlowValue {
    Numbered(WithNeighbours(d, Dup(g)), invoke)
  }

  /** receiveNM1FlowCreated: the request of entry k is sent on. */
  function SendOn(d: Directory, n: Node, k: nat): (r: Reaction)
    requires k < |n.table|
    ensures |r.node.table| == |n.table|
  {
    var g := n.table[k].flow;
    var h := SentOn(d, g, n.invoke);
    Reaction(Node(ChangeStatus(n.table, g, Forwarded), if g.allocInvokeId != 0 then n.invoke else n.invoke + 1),
             [Create(h)])
  }

  /** The new entry before it is decided what becomes of the request. */
  function RelayEntry(d: Directory, t: seq<Entry>, f: FlowValue): (u: seq<Entry>)
    ensures |u| == |t| + 1
  {
    var g := WithNeighbours(d, Swap(f));
    SetFlow(ChangeStatus(t + [Entry(g, Unknown, NoFai)], g, Forwarding), |t|, RelayFlow(d, f))
  }

  /** receiveCreateFlowRequestFromRibd for an application elsewhere; bound: a lower flow is there. */
  function RelayRequest(d: Directory, n: Node, f: FlowValue, bound: bool): Reaction {
    var k := |n.table|;
    var t := RelayEntry(d, n.table, f);
    var g := RelayFlow(d, f);
    if g.hopCount == 0 then Reaction(n.(table := ChangeStatus(t, g, AllocErr)), [CreateResponse(false, g)])
    else if bound then SendOn(d, n.(table := t), k)
    else Reaction(n.(table := t), [])
  }

  function SendAllOn(d: Directory, n: Node, ks: seq<nat>): (r: Reaction)
    requires forall i :: 0 <= i < |ks| ==> ks[i] < |n.table|
    ensures |r.node.table| == |n.table|
    decreases |ks|
  {
    if ks == [] then Reaction(n, []) else
      var first := SendOn(d, n, ks[0]);
      var rest := SendAllOn(d, first.node, ks[1..]);
      Reaction(rest.node, first.sent + rest.sent)
  }

  /** A lower flow to the named neighbour was created. */
  function Resume(d: Directory, n: Node, name: string): Reaction {
    SendAllOn(d, n, Waiting(n.table, name, |n.table|))
  }

  // ---- A request on its way ----

  /** Where the RIB daemon sends a message. */
  function Destination(m: Message): Address { if m.Create? then m.flow.dstNeighbor else m.flow.dstAddr }

  /** A relay on the way: what its DIF allocator knows when the request arrives and when it is
      sent on, and its invoke-id counter. */
  datatype Stop = Stop(arriving: Directory, leaving: Directory, invoke: nat)

  function Next(s: Stop, f: FlowValue): FlowValue { SentOn(s.leaving, RelayFlow(s.arriving, Arrived(f)), s.invoke) }

  /** The flows in the requests sent along a way through any relays, each of which still had hops
      left; the same relay may occur again and again. */
  ghost predicate Way(fs: seq<FlowValue>, stops: seq<Stop>) {
    && |fs| == |stops| + 1
    && forall i :: 0 <= i < |stops| ==>
         RelayFlow(stops[i].arriving, Arrived(fs[i])).hopCount != 0 && fs[i + 1] == Next(stops[i], fs[i])
  }

  lemma RelaySends(d: Directory, n: Node, f: FlowValue, bound: bool)
    ensures RelayRequest(d, n, Arrived(f), bound).sent ==
      if RelayFlow(d, Arrived(f)).hopCount == 0 then [CreateResponse(false, RelayFlow(d, Arrived(f)))]
      else if bound then [Create(Next(Stop(d, d, n.invoke), f))]
      else []
  {
    var t := RelayEntry(d, n.table, Arrived(f));
    assert t[|n.table|].flow == RelayFlow(d, Arrived(f));
  }

  lemma NextTransparent(s: Stop, f: FlowValue)
    ensures Compare(Next(s, f), f) && Compare(RelayFlow(s.arriving, Arrived(f)), f)
    ensures RelayFlow(s.arriving, Arrived(f)).hopCount == LessOneHop(f.hopCount) == Next(s, f).hopCount
    ensures f.allocInvokeId != 0 ==> Next(s, f).allocInvokeId == f.allocInvokeId
    ensures RelayFlow(s.arriving, Arrived(f)).allocInvokeId == f.allocInvokeId
  {
    hide AddressFromDa;
  }

  /** Whatever the topology, cycles included, a request of at most h > 0 hops is relayed fewer than
      h times, its hop count falls by one each time and never wraps, and every copy compares equal
      to the request and has its invoke-id. */
  lemma {:induction false} RelayingEnds(fs: seq<FlowValue>, stops: seq<Stop>, i: nat)
    requires Way(fs, stops) && 0 < fs[0].hopCount <= 0xFFFF_FFFF && i < |fs|
    ensures fs[i].hopCount == fs[0].hopCount - i && fs[i].hopCount > 0
    ensures Compare(fs[i], fs[0])
    ensures fs[0].allocInvokeId != 0 ==> fs[i].allocInvokeId == fs[0].allocInvokeId
  {
    hide RelayFlow, Next, LessOneHop;
    if i > 0 {
      RelayingEnds(fs, stops, i - 1);
      NextTransparent(stops[i - 1], fs[i - 1]);
      OneHop(fs[i - 1].hopCount);
      HopsLeft(fs, stops, i - 1);
    }
  }

  lemma OneHop(h: nat)
    requires 0 < h <= 0xFFFF_FFFF
    ensures LessOneHop(h) == h - 1
  {}

  lemma HopsLeft(fs: seq<FlowValue>, stops: seq<Stop>, i: nat)
    requires Way(fs, stops) && i < |stops|
    ensures fs[i + 1].hopCount != 0
  {
    hide LessOneHop;
    NextTransparent(stops[i], fs[i]);
  }

  /** A new request is relayed at most 15 times. */
  lemma AtMostFifteenRelays(fs: seq<FlowValue>, stops: seq<Stop>)
    requires Way(fs, stops) && fs[0].hopCount == MAX_HOP_COUNT
    ensures |stops| <= 15
  {
    RelayingEnds(fs, stops, |stops|);
  }

  /** A request that runs out of hops is answered towards its destination, so the answer is
      addressed to the requester exactly when the two addresses are the same; and no instance that
      serves the requester's flow takes it, unless the flow's local identifiers are also its
      remote ones. */
  lemma ExhaustionMissesRequester(d: Directory, n: Node, f: FlowValue, bound: bool, e: Entry, retry: bool)
    requires f.hopCount == 1 && e.fai.Fai? && SameKey(e.flow, f)
    ensures
      var sent := RelayRequest(d, n, Arrived(f), bound).sent;
      && |sent| == 1 && sent[0].CreateResponse? && !sent[0].positive
      && (Destination(sent[0]) == f.srcAddr <==> f.srcAddr == f.dstAddr)
      && (Listens(e, CreateNegative(Arrived(sent[0].flow), retry)) <==>
            f.srcPortId == f.dstPortId && f.conId.srcCepId == f.conId.dstCepId)
  {
    hide AddressFromDa;
    RelaySends(d, n, f, bound);
    NextTransparent(Stop(d, d, n.invoke), f);
  }

  // ---- How often an entry's request is sent on ----

  lemma SameReflexive(t: seq<Entry>, k: nat)
    requires k < |t|
    ensures FindByFlow(t, t[k].flow) <= k
  {
    assert Same(t[k].flow, t[k].flow);
  }

  lemma SendOnKeepsFlows(d: Directory, n: Node, k: nat)
    requires k < |n.table|
    ensures var t := SendOn(d, n, k).node.table;
      forall i :: 0 <= i < |t| ==> t[i].flow == n.table[i].flow && t[i].fai == n.table[i].fai
  {}

  lemma SentOnKeeps(d: Directory, g: FlowValue, invoke: nat)
    ensures var h := SentOn(d, g, invoke);
      && Compare(h, g) && h.hopCount == g.hopCount
      && (g.allocInvokeId != 0 ==> h.allocInvokeId == g.allocInvokeId)
  {
    hide AddressFromDa;
  }

  /** A lower flow makes the allocator send exactly one request for each waiting entry, in order. */
  lemma {:induction false} OneRequestEach(d: Directory, n: Node, ks: seq<nat>, i: nat)
    requires forall j :: 0 <= j < |ks| ==> ks[j] < |n.table|
    requires i < |ks|
    ensures var sent := SendAllOn(d, n, ks).sent;
      && |sent| == |ks| && sent[i].Create?
      && Compare(sent[i].flow, n.table[ks[i]].flow) && sent[i].flow.hopCount == n.table[ks[i]].flow.hopCount
      && (n.table[ks[i]].flow.allocInvokeId != 0 ==> sent[i].flow.allocInvokeId == n.table[ks[i]].flow.allocInvokeId)
    decreases |ks|
  {
    hide WithNeighbours, ChangeStatus;
    var first := SendOn(d, n, ks[0]);
    SendOnKeepsFlows(d, n, ks[0]);
    SentOnKeeps(d, n.table[ks[0]].flow, n.invoke);
    if |ks| > 1 {
      OneRequestEach(d, first.node, ks[1..], if i > 0 then i - 1 else 0);
    }
    if i > 0 { assert ks[1..][i - 1] == ks[i]; }
  }
}
