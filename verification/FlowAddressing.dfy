/** Where a flow goes: the addresses and neighbours that a request gets, from the DIF allocator's
    answers alone, and that it keeps them. */
module FlowAddressing {
  import opened Names
  import opened Flow
  import opened FlowTable
  import opened FlowAllocation
  import opened FlowDirectory
  import opened FlowRelay
  import opened FlowManagement

  // ---- Neighbours ----

  predicate InDifOf(name: string, a: Address) { ParseAddress(name).difName == a.difName }

  /** n is the first listed neighbour of a in the DIF of a, or a itself if none is listed. */
  ghost predicate Nearest(d: Directory, a: Address, n: Address) {
    var names := d.neighbours(a.apname);
    || (n == a && forall i :: 0 <= i < |names| ==> !InDifOf(names[i], a))
    || (exists k :: 0 <= k < |names| && InDifOf(names[k], a) && n == ParseAddress(names[k])
                    && forall i :: 0 <= i < k ==> !InDifOf(names[i], a))
  }

  lemma {:induction false} FirstOfDifExactly(names: seq<string>, a: Address)
    ensures (forall i :: 0 <= i < |names| ==> !InDifOf(names[i], a)) ==> FirstOfDif(names, a) == a
    ensures forall k :: 0 <= k < |names| && InDifOf(names[k], a) && (forall i :: 0 <= i < k ==> !InDifOf(names[i], a)) ==>
              FirstOfDif(names, a) == ParseAddress(names[k])
  {
    hide ParseAddress;
    if names != [] && !InDifOf(names[0], a) {
      FirstOfDifExactly(names[1..], a);
      forall k | 0 <= k < |names| && InDifOf(names[k], a) && forall i :: 0 <= i < k ==> !InDifOf(names[i], a)
        ensures FirstOfDif(names, a) == ParseAddress(names[k])
      {
        assert names[k] == names[1..][k - 1];
        assert forall i :: 0 <= i < k - 1 ==> names[1..][i] == names[i + 1];
      }
    }
  }

  lemma {:induction false} FirstInDif(names: seq<string>, a: Address)
    ensures (forall i :: 0 <= i < |names| ==> !InDifOf(names[i], a))
            || exists k :: 0 <= k < |names| && InDifOf(names[k], a) && forall i :: 0 <= i < k ==> !InDifOf(names[i], a)
    decreases |names|
  {
    if names != [] {
      var m := |names| - 1;
      FirstInDif(names[..m], a);
      if k :| 0 <= k < m && InDifOf(names[..m][k], a) && forall i :: 0 <= i < k ==> !InDifOf(names[..m][i], a) {
        assert forall i :: 0 <= i < k ==> names[..m][i] == names[i];
      } else {
        assert forall i :: 0 <= i < m ==> names[..m][i] == names[i];
      }
    }
  }

  /** The neighbour towards an application whose address is known. */
  lemma NearestExactly(d: Directory, a: Address)
    ensures Nearest(d, a, FirstOfDif(d.neighbours(a.apname), a))
    ensures forall n :: Nearest(d, a, n) ==> n == FirstOfDif(d.neighbours(a.apname), a)
  {
    hide ParseAddress, FirstOfDif, InDifOf;
    FirstInDif(d.neighbours(a.apname), a);
    FirstOfDifExactly(d.neighbours(a.apname), a);
  }

  predicate Specified(a: Address) { !(a.ipcAddress == [] && a.difName == []) }

  /** n is what getAddressFromDa finds as the neighbour towards an application whose address is a. */
  ghost predicate Towards(d: Directory, a: Address, n: Address) { if a == UNSPECIFIED then n == a else Nearest(d, a, n) }

  /** g has the neighbours of its two applications, as far as both are known; the search ends at the
      first that is not. The destination neighbour of a local management flow is looked for from the
      address that its own destination names, and the source neighbour stays. */
  ghost predicate HasNeighbours(d: Directory, f: FlowValue, g: FlowValue) {
    if f.qos == ManagementQos && f.srcApni.apn == f.srcAddr.apname && f.dstApni.apn == f.dstAddr.apname then
      && g.srcNeighbor == f.srcNeighbor
      && exists n :: Nearest(d, ParseAddress(f.dstApni.apn), n)
                     && g.dstNeighbor == if Specified(n) then n else f.dstNeighbor
    else
      exists m, n :: Towards(d, d.resolve(f.srcApni.apn), m) && Towards(d, d.resolve(f.dstApni.apn), n)
                     && g.srcNeighbor == (if Specified(m) then m else f.srcNeighbor)
                     && g.dstNeighbor == (if Specified(m) && Specified(n) then n else f.dstNeighbor)
  }

  /** Everything that a step on the way may not change. */
  predicate SameRequest(f: FlowValue, g: FlowValue) {
    && g.srcApni == f.srcApni && g.dstApni == f.dstApni && g.qos == f.qos
    && g.srcAddr == f.srcAddr && g.dstAddr == f.dstAddr
  }

  lemma NeighboursExactly(d: Directory, f: FlowValue)
    ensures HasNeighbours(d, f, WithNeighbours(d, f)) && SameRequest(f, WithNeighbours(d, f))
  {
    hide ParseAddress, FirstOfDif, Nearest;
    var a, b, c := d.resolve(f.srcApni.apn), d.resolve(f.dstApni.apn), ParseAddress(f.dstApni.apn);
    NearestExactly(d, a);
    NearestExactly(d, b);
    NearestExactly(d, c);
    var g := WithNeighbours(d, f);
    if IsLocalManagement(f) {
      var n := FirstOfDif(d.neighbours(c.apname), c);
      assert Nearest(d, c, n);
    } else {
      var m := if a == UNSPECIFIED then a else FirstOfDif(d.neighbours(a.apname), a);
      var n := if b == UNSPECIFIED then b else FirstOfDif(d.neighbours(b.apname), b);
      assert Towards(d, a, m) && Towards(d, b, n);
    }
  }

  // ---- Requests ----

  /** The addresses of both applications; the destination is asked for only if the source is known. */
  predicate HasAddresses(d: Directory, f: FlowValue, g: FlowValue) {
    var a, b := d.resolve(f.srcApni.apn), d.resolve(f.dstApni.apn);
    && g.srcAddr == (if Specified(a) then a else f.srcAddr)
    && g.dstAddr == (if Specified(a) && Specified(b) then b else f.dstAddr)
  }

  /** The applications, the requirements and the hop count are those of the request. */
  predicate SameDemand(f: FlowValue, g: FlowValue) {
    g.srcApni == f.srcApni && g.dstApni == f.dstApni && g.qos == f.qos && g.hopCount == f.hopCount
  }

  /** What becomes of requested flow f: it gets both addresses and both neighbours, unless it came with
      a source address or neighbour, and is degenerate exactly if it was or its destination is here. */
  ghost predicate Addressed(d: Directory, f: FlowValue, g: FlowValue) {
    && SameDemand(f, g)
    && (g.ddtFlag <==> f.ddtFlag || d.isLocal(f.dstApni.apn))
    && if f.srcAddr == UNSPECIFIED && f.srcNeighbor == UNSPECIFIED
       then HasAddresses(d, f, g) && HasNeighbours(d, f.(srcAddr := g.srcAddr, dstAddr := g.dstAddr), g)
       else
         && g.srcAddr == f.srcAddr && g.dstAddr == f.dstAddr
         && g.srcNeighbor == f.srcNeighbor && g.dstNeighbor == f.dstNeighbor
  }

  lemma CompletedExactly(d: Directory, f: FlowValue)
    ensures Addressed(d, f, Completed(d, f))
  {
    hide HasNeighbours, WithNeighbours;
    var h := WithOriginals(d, f);
    assert h == f.(srcAddr := h.srcAddr, dstAddr := h.dstAddr);
    NeighboursExactly(d, h);
    NeighboursOnly(d, h);
    if f.srcAddr == UNSPECIFIED && f.srcNeighbor == UNSPECIFIED {
      SameNeighbours(d, h, WithNeighbours(d, h), Completed(d, f));
    }
  }

  lemma SameNeighbours(d: Directory, f: FlowValue, g: FlowValue, h: FlowValue)
    requires HasNeighbours(d, f, g) && h.srcNeighbor == g.srcNeighbor && h.dstNeighbor == g.dstNeighbor
    ensures HasNeighbours(d, f, h)
  {
    hide ParseAddress, Nearest;
  }

  /** The usual case: a new data flow between two applications that are both known, and known in a
      DIF, has their addresses and the nearest neighbours of these. */
  lemma NewDataFlow(d: Directory, f: FlowValue, g: FlowValue)
    requires Addressed(d, f, g) && f.qos != ManagementQos && f.srcAddr == UNSPECIFIED && f.srcNeighbor == UNSPECIFIED
    requires d.resolve(f.srcApni.apn).difName != [] && d.resolve(f.dstApni.apn).difName != []
    ensures g.srcAddr == d.resolve(f.srcApni.apn) && g.dstAddr == d.resolve(f.dstApni.apn)
    ensures Nearest(d, g.srcAddr, g.srcNeighbor) && Nearest(d, g.dstAddr, g.dstNeighbor)
  {
    hide ParseAddress;
  }

  // ---- What the steps keep ----

  /** Where flow f goes. */
  datatype Route = Route(
    srcApni: Apni, dstApni: Apni, qos: QosReq, srcAddr: Address, dstAddr: Address,
    srcNeighbor: Address, dstNeighbor: Address, hopCount: nat, ddtFlag: bool)

  function RouteOf(f: FlowValue): Route {
    Route(f.srcApni, f.dstApni, f.qos, f.srcAddr, f.dstAddr, f.srcNeighbor, f.dstNeighbor, f.hopCount, f.ddtFlag)
  }

  ghost predicate KeepsRoutes(t: seq<Entry>, u: seq<Entry>) {
    |t| <= |u| && forall k :: 0 <= k < |t| ==> RouteOf(u[k].flow) == RouteOf(t[k].flow)
  }

  /** m goes where the flow of some entry goes. */
  ghost predicate OnRoute(t: seq<Entry>, m: Message) {
    m.Create? ==> exists k :: 0 <= k < |t| && RouteOf(m.flow) == RouteOf(t[k].flow)
  }

  /** Entries keep their routes, and each M_CREATE that was sent is on the route of an entry. */
  ghost predicate Routed(n: Node, r: Reaction) {
    KeepsRoutes(n.table, r.node.table) && forall m :: m in r.sent ==> OnRoute(r.node.table, m)
  }

  /** The same from state to state. */
  ghost predicate RoutedOn(s: State, r: State) {
    && KeepsRoutes(s.node.table, r.node.table) && s.sent <= r.sent
    && forall i :: |s.sent| <= i < |r.sent| ==> OnRoute(r.node.table, r.sent[i])
  }

  lemma OnRouteLater(t: seq<Entry>, u: seq<Entry>, m: Message)
    requires KeepsRoutes(t, u) && OnRoute(t, m)
    ensures OnRoute(u, m)
  {
    hide RouteOf;
    if m.Create? {
      var k :| 0 <= k < |t| && RouteOf(m.flow) == RouteOf(t[k].flow);
      assert RouteOf(m.flow) == RouteOf(u[k].flow);
    }
  }

  lemma RoutedThen(s: State, r: State, q: State)
    requires RoutedOn(s, r) && RoutedOn(r, q)
    ensures RoutedOn(s, q)
  {
    hide OnRoute;
    forall i | |s.sent| <= i < |q.sent| ensures OnRoute(q.node.table, q.sent[i]) {
      if i < |r.sent| {
        assert q.sent[i] == r.sent[i];
        OnRouteLater(r.node.table, q.node.table, r.sent[i]);
      }
    }
  }

  lemma BecameRouted(s: State, r: Reaction)
    requires Routed(s.node, r)
    ensures RoutedOn(s, Became(s, r))
  {
    hide OnRoute, RouteOf, Transferring;
  }

  lemma AllocateRouted(n: Node, k: nat, o: Outcome)
    requires k < |n.table|
    ensures Routed(n, AllocateRequest(n, k, o))
  {
    hide FindByFlow;
    var r := AllocateRequest(n, k, o);
    if r.sent != [] { assert r.sent[0].flow == r.node.table[k].flow; }
  }

  lemma HandRouted(s: State, k: nat, o: Outcome)
    requires k < |s.node.table|
    ensures RoutedOn(s, Hand(s, k, o))
  {
    AllocateRouted(s.node, k, o);
    hide AllocateRequest, OnRoute, RouteOf, Transferring;
  }

  lemma HandleRouted(n: Node, k: nat, x: Signal)
    requires k < |n.table| && n.table[k].fai.Fai?
    ensures Routed(n, Handle(n, k, x))
  {
    hide FindByFlow;
    var r := Handle(n, k, x);
    if r.sent != [] && r.sent[0].Create? { assert r.sent[0].flow == r.node.table[k].flow; }
  }

  lemma {:induction false} SignalledRouted(s: State, me: string, x: Signal, k: nat)
    requires k <= |s.node.table|
    ensures RoutedOn(s, Signalled(s, me, x, k))
    decreases |s.node.table| - k
  {
    hide RoutedOn;
    if k == |s.node.table| {
      NothingRouted(s, s);
    } else if Listens(s.node.table[k], x) {
      HandlesRouted(s, me, k, x);
      SignalledRouted(Handles(s, me, k, x), me, x, k + 1);
      RoutedThen(s, Handles(s, me, k, x), Signalled(s, me, x, k));
    } else {
      SignalledRouted(s, me, x, k + 1);
    }
  }

  lemma NothingRouted(s: State, r: State)
    requires r.node.table == s.node.table && r.sent == s.sent
    ensures RoutedOn(s, r)
  {}

  lemma HandlesRouted(s: State, me: string, k: nat, x: Signal)
    requires k < |s.node.table| && s.node.table[k].fai.Fai?
    ensures RoutedOn(s, Handles(s, me, k, x))
  {
    HandleRouted(s.node, k, x);
    BecameRouted(s, Handle(s.node, k, x));
    hide Handle, Became, OnRoute, RouteOf, Routed;
  }

  lemma {:induction false} DrainedRouted(s: State, outcomes: nat -> Outcome)
    requires forall i :: 0 <= i < |s.pending| ==> s.pending[i] < |s.node.table|
    ensures RoutedOn(s, Drained(s, outcomes))
    decreases |s.pending|
  {
    hide RoutedOn, Hand, FindByFlow;
    if s.pending == [] {
      NothingRouted(s, s);
    } else {
      var k := s.pending[0];
      SameReflexive(s.node.table, k);
      var j := FindByFlow(s.node.table, s.node.table[k].flow);
      var r := ResumeOne(s, k, outcomes);
      var s1 := r.(pending := s.pending[1..]);
      if s.node.table[j].fai.Fai? { HandRouted(s, j, outcomes(j)); } else { NothingRouted(s, s); }
      NothingRouted(r, s1);
      RoutedThen(s, r, s1);
      assert forall i :: 0 <= i < |s1.pending| ==> s1.pending[i] == s.pending[i + 1];
      DrainedRouted(s1, outcomes);
      RoutedThen(s, s1, Drained(s1, outcomes));
    }
  }

  // ---- A whole request ----

  /** h is the management flow that goes with g: between the two addresses' names, which are parsed
      into its own addresses. */
  ghost predicate IsTwin(d: Directory, g: FlowValue, h: FlowValue) {
    && h.qos == ManagementQos && !h.ddtFlag
    && h.srcApni == Apni(g.srcAddr.apname, [], [], []) && h.dstApni == Apni(g.dstAddr.apname, [], [], [])
    && h.srcAddr == ParseAddress(g.srcAddr.apname) && h.dstAddr == ParseAddress(g.dstAddr.apname)
    && HasNeighbours(d, h.(srcNeighbor := g.srcNeighbor, dstNeighbor := g.dstNeighbor), h)
  }

  lemma TwinExactly(d: Directory, g: FlowValue)
    ensures IsTwin(d, g, WithNeighbours(d, Readdress(DupToMgmt(g))))
  {
    hide HasNeighbours, ParseAddress;
    var f := Readdress(DupToMgmt(g));
    NeighboursExactly(d, f);
    NeighboursOnly(d, f);
    hide WithNeighbours;
    var h := WithNeighbours(d, f);
    SameSearch(d, f, h.(srcNeighbor := g.srcNeighbor, dstNeighbor := g.dstNeighbor), h);
  }

  lemma SameSearch(d: Directory, f: FlowValue, g: FlowValue, h: FlowValue)
    requires HasNeighbours(d, f, h) && SameRequest(f, g)
    requires g.srcNeighbor == f.srcNeighbor && g.dstNeighbor == f.dstNeighbor
    ensures HasNeighbours(d, g, h)
  {
    hide ParseAddress, Nearest;
  }

  /** These two say the same of any flow with the same route. */
  lemma OfRoute(d: Directory, f: FlowValue, g: FlowValue, h: FlowValue)
    requires RouteOf(g) == RouteOf(h)
    ensures Addressed(d, f, g) <==> Addressed(d, f, h)
    ensures IsTwin(d, f, g) <==> IsTwin(d, f, h)
  {
    hide ParseAddress, Nearest;
  }

  lemma TableRouted(s: State, u: seq<Entry>)
    requires KeepsRoutes(s.node.table, u)
    ensures RoutedOn(s, WithTable(s, u)) && WithTable(s, u).node.table == u && WithTable(s, u).sent == s.sent
  {
    hide Transferring, RouteOf;
  }

  /** The table with a new entry for flow g, inserted as f, and then with its instance. */
  lemma InsertedRoutes(t: seq<Entry>, f: FlowValue, g: FlowValue)
    ensures var u := SetFlow(Inserted(t, f), |t|, g); |u| == |t| + 1 && KeepsRoutes(t, u) && u[|t|].flow == g
  {
    InsertedKeeps(t, f, g);
    hide Inserted;
  }

  lemma WithFaiRoutes(t: seq<Entry>, k: nat, c: Choice)
    requires k < |t|
    ensures KeepsRoutes(t, WithFai(t, k, c.port, c.cep))
  {
    WithFaiKeeps(t, k, c.port, c.cep);
    hide WithFai;
  }

  /** Only entry k's M_CREATE may be sent. */
  lemma HandSends(s: State, k: nat, o: Outcome)
    requires k < |s.node.table|
    ensures var r := Hand(s, k, o);
      |r.node.table| == |s.node.table| && s.sent <= r.sent
      && forall i :: |s.sent| <= i < |r.sent| ==> r.sent[i].Create? && RouteOf(r.sent[i].flow) == RouteOf(s.node.table[k].flow)
  {
    hide Transferring, FindByFlow;
  }

  /** The request of the management flow: its entry is the twin's, and only its M_CREATE may be sent. */
  lemma MgmtAddressed(d: Directory, s: State, g: FlowValue, c: Choice)
    ensures var k, r := |s.node.table|, MgmtRequested(d, s, DupToMgmt(g), c);
      && |r.node.table| == k + 1 && IsTwin(d, g, r.node.table[k].flow) && RoutedOn(s, r)
      && forall i :: |s.sent| <= i < |r.sent| ==> r.sent[i].Create? && RouteOf(r.sent[i].flow) == RouteOf(r.node.table[k].flow)
  {
    hide RoutedOn, RouteOf, IsTwin, WithNeighbours, Readdress, DupToMgmt, Inserted, WithFai, Hand, Became;
    var k, f := |s.node.table|, DupToMgmt(g);
    var h := WithNeighbours(d, Readdress(f));
    TwinExactly(d, g);
    var t := SetFlow(Inserted(s.node.table, f), k, h);
    InsertedRoutes(s.node.table, f, h);
    WithFaiRoutes(t, k, c);
    var u := WithFai(t, k, c.port, c.cep);
    TableRouted(s, u);
    var s1 := WithTable(s, u);
    HandRouted(s1, k, c.outcome);
    HandSends(s1, k, c.outcome);
    var r := Hand(s1, k, c.outcome);
    RoutedThen(s, s1, r);
    RoutedEntry(s1, r, k);
    OfRoute(d, g, h, r.node.table[k].flow);
  }

  lemma RoutedEntry(s: State, r: State, k: nat)
    requires RoutedOn(s, r) && k < |s.node.table|
    ensures k < |r.node.table| && RouteOf(r.node.table[k].flow) == RouteOf(s.node.table[k].flow)
  {}

  /** From s to r the request of f got an entry that is addressed as the DIF allocator says, with an
      entry for its management flow exactly if it needs one and there was none, and every M_CREATE that
      was sent is for one of the two and goes where that one goes. */
  ghost predicate RequestMade(d: Directory, s: State, f: FlowValue, r: State) {
    var k := |s.node.table|;
    && k < |r.node.table| <= k + 2 && Addressed(d, f, r.node.table[k].flow)
    && (|r.node.table| == k + 1 <==> HasManagement(s.node.table, r.node.table[k].flow))
    && (|r.node.table| == k + 2 ==> IsTwin(d, r.node.table[k].flow, r.node.table[k + 1].flow))
    && RoutedOn(s, r)
    && (forall i :: |s.sent| <= i < |r.sent| ==>
          && r.sent[i].Create?
          && (RouteOf(r.sent[i].flow) == RouteOf(r.node.table[k].flow)
              || (|r.node.table| == k + 2 && RouteOf(r.sent[i].flow) == RouteOf(r.node.table[k + 1].flow))))
  }

  /** The request up to the instance: the flow's own entry, and perhaps one for its management flow. */
  lemma PrepareAddressed(d: Directory, s: State, f: FlowValue, mgmt: Choice)
    ensures RequestMade(d, s, f, Prepare(d, s, f, mgmt))
  {
    hide RoutedOn, RouteOf, IsTwin, Addressed, Completed, MgmtRequested, Inserted, Became, DupToMgmt, FindMgmtByDstAddr,
      IsLocalManagement;
    var k, g := |s.node.table|, Completed(d, f);
    CompletedExactly(d, f);
    var u := SetFlow(Inserted(s.node.table, f), k, g);
    InsertedRoutes(s.node.table, f, g);
    TableRouted(s, u);
    var s1 := WithTable(s, u);
    InsertedManagement(s.node.table, f, g);
    MgmtAddressed(d, s1, g, mgmt);
    var r := MgmtRequested(d, s1, DupToMgmt(g), mgmt);
    RoutedThen(s, s1, r);
    RoutedEntry(s1, r, k);
    OfRoute(d, f, g, r.node.table[k].flow);
    TwinOfRoute(d, g, r.node.table[k].flow, r.node.table[k + 1].flow);
    RouteFields(g, r.node.table[k].flow);
  }

  /** The flow is degenerate, is a management flow itself, or the table has a management flow to its
      destination address. */
  ghost predicate HasManagement(t: seq<Entry>, g: FlowValue) {
    g.ddtFlag || IsLocalManagement(g)
    || exists k :: 0 <= k < |t| && t[k].flow.dstAddr == g.dstAddr && IsLocalManagement(t[k].flow)
  }

  lemma InsertedManagement(t: seq<Entry>, f: FlowValue, g: FlowValue)
    ensures var u := SetFlow(Inserted(t, f), |t|, g);
      g.ddtFlag || FindMgmtByDstAddr(u, g.dstAddr) < |u| <==> HasManagement(t, g)
  {
    hide FindMgmtByDstAddr, IsLocalManagement;
    InsertedKeeps(t, f, g);
    hide Inserted;
    var u := SetFlow(Inserted(t, f), |t|, g);
    var j := FindMgmtByDstAddr(u, g.dstAddr);
    if j < |t| { assert t[j].flow == u[j].flow; }
    if k :| 0 <= k < |t| && t[k].flow.dstAddr == g.dstAddr && IsLocalManagement(t[k].flow) {
      assert u[k].flow == t[k].flow;
    }
    assert u[|t|].flow == g;
  }

  lemma TwinOfRoute(d: Directory, g: FlowValue, g': FlowValue, h: FlowValue)
    requires RouteOf(g) == RouteOf(g')
    ensures IsTwin(d, g, h) <==> IsTwin(d, g', h)
  {
    hide ParseAddress, HasNeighbours;
  }

  lemma RouteFields(g: FlowValue, h: FlowValue)
    requires RouteOf(g) == RouteOf(h)
    ensures g.ddtFlag == h.ddtFlag && g.dstAddr == h.dstAddr && (IsLocalManagement(g) <==> IsLocalManagement(h))
  {}

  /** A whole request, whatever is in the table. */
  lemma RequestAddressed(d: Directory, s: State, f: FlowValue, own: Choice, mgmt: Choice)
    ensures RequestMade(d, s, f, Requested(d, s, f, own, mgmt))
  {
    hide RoutedOn, RouteOf, IsTwin, Addressed, Completed, Prepare, WithFai, Hand, Became, HasManagement, ChangeStatus,
      FindMgmtByDstAddr, MgmtReady;
    var k, g := |s.node.table|, Completed(d, f);
    PrepareAddressed(d, s, f, mgmt);
    var s1 := Prepare(d, s, f, mgmt);
    if Malformed(g) {
      StatusRoutes(s1.node.table, g, AllocErr);
      var u := ChangeStatus(s1.node.table, g, AllocErr);
      TableRouted(s1, u);
      FinishAddressed(d, s, f, s1, WithTable(s1, u));
    } else {
      WithFaiRoutes(s1.node.table, k, own);
      var u := WithFai(s1.node.table, k, own.port, own.cep);
      TableRouted(s1, u);
      var s2 := WithTable(s1, u);
      FinishAddressed(d, s, f, s1, s2);
      if MgmtReady(s2.node.table, g) {
        HandRouted(s2, k, own.outcome);
        HandSends(s2, k, own.outcome);
        FinishAddressed(d, s, f, s2, Hand(s2, k, own.outcome));
      }
    }
  }

  /** So every M_CREATE for a new data flow between two known applications is sent to the neighbour of
      this system that is nearest to the destination, in the destination's DIF. */
  lemma RequestReachesNearest(d: Directory, s: State, f: FlowValue, own: Choice, mgmt: Choice, i: nat)
    requires f.qos != ManagementQos && f.srcAddr == UNSPECIFIED && f.srcNeighbor == UNSPECIFIED
    requires d.resolve(f.srcApni.apn).difName != [] && d.resolve(f.dstApni.apn).difName != []
    ensures
      var r := Requested(d, s, f, own, mgmt);
      |s.sent| <= i < |r.sent| && r.sent[i].flow.qos != ManagementQos ==>
        && r.sent[i].Create? && r.sent[i].flow.dstApni == f.dstApni
        && Nearest(d, d.resolve(f.dstApni.apn), Destination(r.sent[i]))
  {
    var k, r := |s.node.table|, Requested(d, s, f, own, mgmt);
    RequestAddressed(d, s, f, own, mgmt);
    hide Requested, HasNeighbours, RoutedOn, HasManagement, Nearest, ParseAddress, IsLocalManagement,
      Addressed;
    if |s.sent| <= i < |r.sent| && r.sent[i].flow.qos != ManagementQos {
      NewDataFlow(d, f, r.node.table[k].flow);
      AddressedDemand(d, f, r.node.table[k].flow);
    }
  }

  lemma AddressedDemand(d: Directory, f: FlowValue, g: FlowValue)
    requires Addressed(d, f, g)
    ensures SameDemand(f, g)
  {}

  lemma StatusRoutes(t: seq<Entry>, f: FlowValue, st: Status)
    ensures KeepsRoutes(t, ChangeStatus(t, f, st))
  {
    hide RouteOf, FindByFlow;
  }

  lemma FinishAddressed(d: Directory, s: State, f: FlowValue, s1: State, r: State)
    requires RequestMade(d, s, f, s1) && RoutedOn(s1, r) && |r.node.table| == |s1.node.table|
    requires forall i :: |s1.sent| <= i < |r.sent| ==>
               r.sent[i].Create? && RouteOf(r.sent[i].flow) == RouteOf(s1.node.table[|s.node.table|].flow)
    ensures RequestMade(d, s, f, r)
  {
    hide RouteOf, IsTwin, Addressed, HasManagement, OnRoute;
    var k := |s.node.table|;
    RoutedThen(s, s1, r);
    RoutedEntry(s1, r, k);
    OfRoute(d, f, s1.node.table[k].flow, r.node.table[k].flow);
    ManagementOfRoute(s.node.table, s1.node.table[k].flow, r.node.table[k].flow);
    if |r.node.table| == k + 2 {
      RoutedEntry(s1, r, k + 1);
      OfRoute(d, s1.node.table[k].flow, s1.node.table[k + 1].flow, r.node.table[k + 1].flow);
      TwinOfRoute(d, s1.node.table[k].flow, r.node.table[k].flow, r.node.table[k + 1].flow);
    }
    forall i | |s.sent| <= i < |s1.sent| ensures r.sent[i] == s1.sent[i] {}
  }

  lemma ManagementOfRoute(t: seq<Entry>, g: FlowValue, h: FlowValue)
    requires RouteOf(g) == RouteOf(h)
    ensures HasManagement(t, g) <==> HasManagement(t, h)
  {
    RouteFields(g, h);
    hide IsLocalManagement, RouteOf;
  }

  // ---- Waiting for management ----

  /** Entry e waits, between addresses with the names of g's two applications. */
  predicate WaitsBetween(e: Entry, g: FlowValue) {
    && e.status == AllocPend
    && e.flow.srcAddr.apname == g.srcApni.apn && e.flow.dstAddr.apname == g.dstApni.apn
  }

  /** A finished local management flow of this IPC process collects exactly the flows that wait between
      its two addresses, in table order, and sets a timer; any other does nothing. */
  lemma CollectedExactly(s: State, me: string, g: FlowValue)
    ensures
      var r, n := MgmtFinished(s, me, g), |s.pending|;
      if me == g.srcApni.apn && IsLocalManagement(g) then
        && r == s.(pending := r.pending, timers := s.timers + 1) && s.pending <= r.pending
        && (forall k: nat :: k in r.pending[n..] <==> k < |s.node.table| && WaitsBetween(s.node.table[k], g))
        && (forall i, j :: n <= i < j < |r.pending| ==> r.pending[i] < r.pending[j])
      else r == s
  {
    var r, ks := MgmtFinished(s, me, g), Affected(s.node.table, g, |s.node.table|);
    if me == g.srcApni.apn && IsLocalManagement(g) {
      assert r.pending[|s.pending|..] == ks;
      assert forall i :: |s.pending| <= i < |r.pending| ==> r.pending[i] == ks[i - |s.pending|];
    }
  }

  /** The instance of a management flow that is told of its success collects every flow that it was
      requested for and that still waits. */
  lemma TwinCollects(d: Directory, s: State, me: string, k: nat, e: nat, f: FlowValue)
    requires k < |s.node.table| && s.node.table[k].fai.Fai? && e < |s.node.table| && e != k
    requires IsTwin(d, s.node.table[e].flow, s.node.table[k].flow) && IsLocalManagement(s.node.table[k].flow)
    requires s.node.table[e].flow.srcAddr.apname == me
    ensures var r := Handles(s, me, k, CreatePositive(f));
      r.node.table[e].status == AllocPend ==> e in r.pending
  {
    var x := CreatePositive(f);
    HandleRouted(s.node, k, x);
    hide Handle, Transferring, ParseAddress, HasNeighbours, OnRoute;
    var s1 := Became(s, Handle(s.node, k, x));
    var s2 := s1.(history := s1.history.(reached := s1.history.reached + {s1.node.table[k].flow.dstAddr}));
    CollectedExactly(s2, me, s1.node.table[k].flow);
  }

  // ---- Requests from elsewhere ----

  /** A relay's own entry, what it sends on, and the entry of a request that ends here get the
      neighbours of that moment, in the direction of the request. */
  lemma ArrivalAddressed(d: Directory, t: seq<Entry>, f: FlowValue, port: int, cep: int)
    ensures var g := RelayFlow(d, f); HasNeighbours(d, Swap(f), g) && SameRequest(Swap(f), g)
    ensures forall invoke :: var g := SentOn(d, f, invoke); HasNeighbours(d, Dup(f), g) && SameRequest(f, g)
    ensures var g := CreatedTable(d, t, f, port, cep)[|t|].flow;
      && HasNeighbours(d, f, g) && SameRequest(f, g)
      && (g.ddtFlag <==> f.ddtFlag || d.isLocal(f.dstApni.apn))
  {
    hide ParseAddress, Nearest, WithNeighbours;
    NeighboursExactly(d, Swap(f));
    NeighboursExactly(d, Dup(f));
    NeighboursExactly(d, f);
    NeighboursOnly(d, f);
  }

  // ---- Whole runs ----

  lemma StepRouted(d: Directory, me: string, s: State, v: Event)
    requires Possible(s, v)
    ensures KeepsRoutes(s.node.table, Step(d, me, s, v).node.table)
    ensures !v.CreateArrives? && !v.LowerFlow? ==> RoutedOn(s, Step(d, me, s, v))
  {
    hide Requested, CreateArrived, AllocateResponse, DeallocateRequest, Signalled, Drained, Transferring, SendAllOn, OnRoute,
      RequestMade, RouteOf;
    match v
    case Request(f, own, mgmt) =>
      RequestAddressed(d, s, f, own, mgmt);
      MadeRouted(d, s, f, Requested(d, s, f, own, mgmt));
    case CreateArrives(f, port, cep, accepted, bound) => CreateArrivedKeeps(d, s.node, f, port, cep, accepted, bound);
    case Respond(k, positive, ready, bound) =>
      ResponseRouted(s.node, k, positive, ready, bound);
      BecameRouted(s, AllocateResponse(s.node, k, positive, ready, bound));
    case Deallocate(k) =>
      DeallocationRouted(s.node, k);
      BecameRouted(s, DeallocateRequest(s.node, k));
    case Signals(x) => SignalledRouted(s, me, x, 0);
    case LowerFlow(f) => SendAllOnKeeps(d, s.node, Waiting(s.node.table, f.dstApni.apn, |s.node.table|));
    case Timer(outcomes) => DrainedRouted(s, outcomes);
  }

  lemma MadeRouted(d: Directory, s: State, f: FlowValue, r: State)
    requires RequestMade(d, s, f, r)
    ensures RoutedOn(s, r)
  {}

  lemma ResponseRouted(n: Node, k: nat, positive: bool, ready: bool, bound: bool)
    requires k < |n.table|
    ensures Routed(n, AllocateResponse(n, k, positive, ready, bound))
  {
    ResponseKeeps(n, k, positive, ready, bound);
  }

  lemma DeallocationRouted(n: Node, k: nat)
    requires k < |n.table|
    ensures Routed(n, DeallocateRequest(n, k))
  {
    hide FindByFlow;
  }

  lemma {:induction false} RoutesOverRuns(me: string, ds: seq<Directory>, run: seq<State>, events: seq<Event>, j: nat, k: nat)
    requires IsRun(me, ds, run, events) && j <= k < |run|
    ensures KeepsRoutes(run[j].node.table, run[k].node.table)
    decreases k
  {
    hide Step, KeepsRoutes, Possible, RoutedOn, IsRun;
    if j < k {
      assert |run| == |events| + 1 by { RunLength(me, ds, run, events); }
      RoutesOverRuns(me, ds, run, events, j, k - 1);
      RunStep(me, ds, run, events, k - 1);
      StepRouted(ds[k - 1], me, run[k - 1], events[k - 1]);
      KeepsThen(run[j].node.table, run[k - 1].node.table, run[k].node.table);
    } else {
      KeepsSame(run[j].node.table);
    }
  }

  lemma RunStep(me: string, ds: seq<Directory>, run: seq<State>, events: seq<Event>, k: nat)
    requires IsRun(me, ds, run, events) && k < |events|
    ensures |run| == |events| + 1 && |ds| == |events|
    ensures Possible(run[k], events[k]) && run[k + 1] == Step(ds[k], me, run[k], events[k])
  {
    hide Step, Possible;
  }

  lemma RunLength(me: string, ds: seq<Directory>, run: seq<State>, events: seq<Event>)
    requires IsRun(me, ds, run, events)
    ensures |run| == |events| + 1
  {}

  lemma KeepsSame(t: seq<Entry>)
    ensures KeepsRoutes(t, t)
  {}

  lemma KeepsThen(t: seq<Entry>, u: seq<Entry>, v: seq<Entry>)
    requires KeepsRoutes(t, u) && KeepsRoutes(u, v)
    ensures KeepsRoutes(t, v)
  {
    hide RouteOf;
  }

  /** In every run: the flow of a request that was made in step j has ever after the addresses and
      neighbours that the DIF allocator gave it then, and every M_CREATE that the allocator sends, except
      where it relays, goes where the flow of one of its entries goes. */
  lemma RequestsOverRuns(me: string, ds: seq<Directory>, run: seq<State>, events: seq<Event>, j: nat, k: nat)
    requires IsRun(me, ds, run, events) && j < k < |run|
    ensures events[j].Request? ==>
      var e := |run[j].node.table|;
      e < |run[k].node.table| && Addressed(ds[j], events[j].flow, run[k].node.table[e].flow)
    ensures !events[k - 1].CreateArrives? && !events[k - 1].LowerFlow? ==>
      && run[k - 1].sent <= run[k].sent
      && forall i :: |run[k - 1].sent| <= i < |run[k].sent| ==> OnRoute(run[k].node.table, run[k].sent[i])
  {
    hide Step, RouteOf, OnRoute, RequestMade, Addressed, Requested;
    if events[j].Request? {
      RequestAddressed(ds[j], run[j], events[j].flow, events[j].own, events[j].mgmt);
      RoutesOverRuns(me, ds, run, events, j + 1, k);
      RequestStep(me, ds, run, events, j);
      MadeEntry(ds[j], run[j], events[j].flow, run[j + 1], run[k]);
    }
    StepRouted(ds[k - 1], me, run[k - 1], events[k - 1]);
  }

  lemma RequestStep(me: string, ds: seq<Directory>, run: seq<State>, events: seq<Event>, j: nat)
    requires IsRun(me, ds, run, events) && j < |events| && events[j].Request?
    ensures run[j + 1] == Requested(ds[j], run[j], events[j].flow, events[j].own, events[j].mgmt)
  {}

  lemma MadeEntry(d: Directory, s: State, f: FlowValue, r: State, q: State)
    requires RequestMade(d, s, f, r) && KeepsRoutes(r.node.table, q.node.table)
    ensures var e := |s.node.table|; e < |q.node.table| && Addressed(d, f, q.node.table[e].flow)
  {
    hide Addressed, RouteOf, IsTwin, HasManagement, RoutedOn;
    var e := |s.node.table|;
    OfRoute(d, f, r.node.table[e].flow, q.node.table[e].flow);
  }
}
