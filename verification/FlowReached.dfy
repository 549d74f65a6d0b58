/** What it takes for an address to count as reached by management: a positive answer. */
module FlowReached {
  import opened Names
  import opened Flow
  import opened FlowTable
  import opened FlowAllocation
  import opened FlowDirectory
  import opened FlowRelay
  import opened FlowManagement
  import opened FlowAddressing

  /** Nothing transfers in u that did not in t. */
  ghost predicate NoNewTransfer(t: seq<Entry>, u: seq<Entry>) {
    forall k :: 0 <= k < |u| && u[k].status == Transfer ==>
      k < |t| && t[k].status == Transfer && RouteOf(u[k].flow) == RouteOf(t[k].flow)
  }

  lemma LocalByRoute(f: FlowValue, g: FlowValue)
    requires RouteOf(f) == RouteOf(g)
    ensures (IsLocalManagement(f) <==> IsLocalManagement(g)) && f.dstAddr == g.dstAddr
  {}

  lemma TransferringLess(t: seq<Entry>, u: seq<Entry>)
    requires NoNewTransfer(t, u)
    ensures Transferring(u) <= Transferring(t)
  {
    hide RouteOf, IsLocalManagement;
    forall a | a in Transferring(u) ensures a in Transferring(t) {
      var k :| 0 <= k < |u| && IsLocalManagement(u[k].flow) && u[k].status == Transfer && a == u[k].flow.dstAddr;
      LocalByRoute(u[k].flow, t[k].flow);
    }
  }

  lemma NoNewThen(t: seq<Entry>, u: seq<Entry>, v: seq<Entry>)
    requires NoNewTransfer(t, u) && NoNewTransfer(u, v)
    ensures NoNewTransfer(t, v)
  {
    hide RouteOf;
  }

  /** From s to r nothing is reached that was not, and nothing starts to transfer. */
  ghost predicate Quiet(s: State, r: State) {
    r.history.reached == s.history.reached && NoNewTransfer(s.node.table, r.node.table)
  }

  lemma QuietBecame(s: State, r: Reaction)
    requires Known(s) && NoNewTransfer(s.node.table, r.node.table)
    ensures Quiet(s, Became(s, r)) && Known(Became(s, r))
  {
    TransferringLess(s.node.table, r.node.table);
    hide Transferring, NoNewTransfer;
  }

  lemma QuietThen(s: State, r: State, q: State)
    requires Quiet(s, r) && Quiet(r, q)
    ensures Quiet(s, q)
  {
    NoNewThen(s.node.table, r.node.table, q.node.table);
    hide NoNewTransfer;
  }

  lemma StatusQuiet(t: seq<Entry>, f: FlowValue, st: Status)
    requires st != Transfer
    ensures NoNewTransfer(t, ChangeStatus(t, f, st))
  {
    hide FindByFlow;
  }

  lemma AllocateQuiet(n: Node, k: nat, o: Outcome)
    requires k < |n.table|
    ensures NoNewTransfer(n.table, AllocateRequest(n, k, o).node.table)
  {
    hide FindByFlow;
  }

  lemma HandQuiet(s: State, k: nat, o: Outcome)
    requires Known(s) && k < |s.node.table|
    ensures Quiet(s, Hand(s, k, o)) && Known(Hand(s, k, o))
  {
    AllocateQuiet(s.node, k, o);
    var s1 := s.(history := s.history.(handed := s.history.handed + [s.node.table[k].flow]));
    QuietBecame(s1, AllocateRequest(s.node, k, o));
    hide AllocateRequest, NoNewTransfer, Transferring;
  }

  lemma InsertedQuiet(t: seq<Entry>, f: FlowValue, g: FlowValue)
    ensures NoNewTransfer(t, SetFlow(Inserted(t, f), |t|, g))
  {
    hide FindByFlow;
  }

  lemma WithFaiQuiet(t: seq<Entry>, k: nat, c: Choice)
    requires k < |t| && t[k].status != Transfer
    ensures NoNewTransfer(t, WithFai(t, k, c.port, c.cep))
  {
    hide FindByFlow;
  }

  lemma NewestWaits(t: seq<Entry>, f: FlowValue, g: FlowValue)
    ensures SetFlow(Inserted(t, f), |t|, g)[|t|].status != Transfer
  {
    hide FindByFlow;
  }

  lemma TableQuiet(s: State, u: seq<Entry>)
    requires Known(s) && NoNewTransfer(s.node.table, u)
    ensures Quiet(s, WithTable(s, u)) && Known(WithTable(s, u)) && WithTable(s, u).node.table == u
  {
    QuietBecame(s, Reaction(s.node.(table := u), []));
    hide NoNewTransfer, Transferring;
  }

  lemma MgmtRequestedQuiet(d: Directory, s: State, f: FlowValue, c: Choice)
    requires Known(s)
    ensures Quiet(s, MgmtRequested(d, s, f, c)) && Known(MgmtRequested(d, s, f, c))
  {
    hide Quiet, NoNewTransfer, Known, WithNeighbours, Readdress, Inserted, WithFai, Hand, Became;
    var k := |s.node.table|;
    var t := SetFlow(Inserted(s.node.table, f), k, WithNeighbours(d, Readdress(f)));
    InsertedQuiet(s.node.table, f, WithNeighbours(d, Readdress(f)));
    NewestWaits(s.node.table, f, WithNeighbours(d, Readdress(f)));
    WithFaiQuiet(t, k, c);
    var u := WithFai(t, k, c.port, c.cep);
    NoNewThen(s.node.table, t, u);
    TableQuiet(s, u);
    HandQuiet(WithTable(s, u), k, c.outcome);
    QuietThen(s, WithTable(s, u), Hand(WithTable(s, u), k, c.outcome));
  }

  lemma PrepareQuiet(d: Directory, s: State, f: FlowValue, mgmt: Choice)
    requires Known(s)
    ensures var r := Prepare(d, s, f, mgmt);
      Quiet(s, r) && Known(r) && r.node.table[|s.node.table|].status != Transfer
  {
    hide Quiet, Known, Completed, Inserted, MgmtRequested, Became, DupToMgmt, FindMgmtByDstAddr;
    var k, g := |s.node.table|, Completed(d, f);
    var u := SetFlow(Inserted(s.node.table, f), k, g);
    InsertedQuiet(s.node.table, f, g);
    NewestWaits(s.node.table, f, g);
    TableQuiet(s, u);
    var s1 := WithTable(s, u);
    MgmtRequestedQuiet(d, s1, DupToMgmt(g), mgmt);
    QuietThen(s, s1, MgmtRequested(d, s1, DupToMgmt(g), mgmt));
    NotNew(s1, MgmtRequested(d, s1, DupToMgmt(g), mgmt), k);
  }

  lemma NotNew(s: State, r: State, k: nat)
    requires Quiet(s, r) && k < |s.node.table| && s.node.table[k].status != Transfer && k < |r.node.table|
    ensures r.node.table[k].status != Transfer
  {}

  /** Asking for a flow reaches nobody. */
  lemma RequestedQuiet(d: Directory, s: State, f: FlowValue, own: Choice, mgmt: Choice)
    requires Known(s)
    ensures Quiet(s, Requested(d, s, f, own, mgmt)) && Known(Requested(d, s, f, own, mgmt))
  {
    hide Quiet, Known, Completed, Prepare, WithFai, Hand, Became, ChangeStatus, NoNewTransfer, FindMgmtByDstAddr;
    var k, g := |s.node.table|, Completed(d, f);
    PrepareQuiet(d, s, f, mgmt);
    var s1 := Prepare(d, s, f, mgmt);
    if Malformed(g) {
      var u := ChangeStatus(s1.node.table, g, AllocErr);
      StatusQuiet(s1.node.table, g, AllocErr);
      TableQuiet(s1, u);
      QuietThen(s, s1, WithTable(s1, u));
    } else {
      var u := WithFai(s1.node.table, k, own.port, own.cep);
      WithFaiQuiet(s1.node.table, k, own);
      TableQuiet(s1, u);
      var s2 := WithTable(s1, u);
      QuietThen(s, s1, s2);
      if MgmtReady(s2.node.table, g) {
        HandQuiet(s2, k, own.outcome);
        QuietThen(s, s2, Hand(s2, k, own.outcome));
      }
    }
  }

  // ---- Positive answers ----

  function Destinations(t: seq<Entry>): set<Address> { set k | 0 <= k < |t| :: t[k].flow.dstAddr }

  /** From s to r at most the given addresses are reached in addition. */
  ghost predicate Reaches(s: State, r: State, more: set<Address>) {
    r.history.reached <= s.history.reached + more
  }

  lemma HandleReaches(n: Node, k: nat, x: Signal)
    requires k < |n.table| && n.table[k].fai.Fai?
    ensures var u := Handle(n, k, x).node.table;
      if x.CreatePositive? then Transferring(u) <= Transferring(n.table) + {n.table[k].flow.dstAddr}
      else NoNewTransfer(n.table, u)
  {
    hide FindByFlow, Transferring;
    if x.CreatePositive? {
      PositiveReaches(n, k, x);
    }
  }

  lemma PositiveReaches(n: Node, k: nat, x: Signal)
    requires k < |n.table| && n.table[k].fai.Fai? && x.CreatePositive?
    ensures Transferring(Handle(n, k, x).node.table) <= Transferring(n.table) + {n.table[k].flow.dstAddr}
  {
    hide FindByFlow;
    var t, u := n.table, Handle(n, k, x).node.table;
    forall i | 0 <= i < |u| && u[i].status == Transfer && i != k
      ensures u[i].flow == t[i].flow && (t[i].status == Transfer || u[i].flow.dstAddr == t[k].flow.dstAddr)
    {}
    assert u[k].flow.dstAddr == t[k].flow.dstAddr;
  }

  lemma HandlesReaches(s: State, me: string, k: nat, x: Signal)
    requires Known(s) && k < |s.node.table| && s.node.table[k].fai.Fai?
    ensures var r := Handles(s, me, k, x);
      && Known(r) && Reaches(s, r, if x.CreatePositive? then {s.node.table[k].flow.dstAddr} else {})
      && Destinations(r.node.table) == Destinations(s.node.table)
  {
    HandleReaches(s.node, k, x);
    HandleRouted(s.node, k, x);
    if !x.CreatePositive? { TransferringLess(s.node.table, Handle(s.node, k, x).node.table); }
    SameDestinations(s.node.table, Handle(s.node, k, x).node.table);
    hide Handle, Transferring, Destinations, OnRoute, NoNewTransfer, IsLocalManagement;
  }

  lemma SameDestinations(t: seq<Entry>, u: seq<Entry>)
    requires KeepsRoutes(t, u) && |t| == |u|
    ensures Destinations(u) == Destinations(t)
  {
    assert forall k :: 0 <= k < |t| ==> RouteOf(u[k].flow).dstAddr == RouteOf(t[k].flow).dstAddr;
    hide RouteOf;
    assert forall k :: 0 <= k < |t| ==> u[k].flow.dstAddr == t[k].flow.dstAddr;
    forall a | a in Destinations(t) ensures a in Destinations(u) {
      var k :| 0 <= k < |t| && t[k].flow.dstAddr == a;
      assert u[k].flow.dstAddr == a;
    }
  }

  lemma {:induction false} SignalledReaches(s: State, me: string, x: Signal, k: nat)
    requires Known(s) && k <= |s.node.table|
    ensures var r := Signalled(s, me, x, k);
      Known(r) && Reaches(s, r, if x.CreatePositive? then Destinations(s.node.table) else {})
    decreases |s.node.table| - k
  {
    hide Known, Handles, Listens;
    if k < |s.node.table| {
      if Listens(s.node.table[k], x) {
        assert s.node.table[k].fai.Fai? by { HeardByFai(s.node.table[k], x); }
        HandlesReaches(s, me, k, x);
        SignalledReaches(Handles(s, me, k, x), me, x, k + 1);
        assert s.node.table[k].flow.dstAddr in Destinations(s.node.table);
      } else {
        SignalledReaches(s, me, x, k + 1);
      }
    }
  }

  lemma HeardByFai(e: Entry, x: Signal)
    requires Listens(e, x)
    ensures e.fai.Fai?
  {}

  lemma {:induction false} DrainedQuiet(s: State, outcomes: nat -> Outcome)
    requires Known(s) && forall i :: 0 <= i < |s.pending| ==> s.pending[i] < |s.node.table|
    ensures Quiet(s, Drained(s, outcomes)) && Known(Drained(s, outcomes))
    decreases |s.pending|
  {
    if s.pending != [] {
      hide Known, Quiet, Hand, FindByFlow;
      var k := s.pending[0];
      SameReflexive(s.node.table, k);
      var j := FindByFlow(s.node.table, s.node.table[k].flow);
      var r := ResumeOne(s, k, outcomes);
      var s1 := r.(pending := s.pending[1..]);
      if s.node.table[j].fai.Fai? { HandQuiet(s, j, outcomes(j)); } else { QuietSame(s, s); }
      QuietSame(r, s1);
      QuietThen(s, r, s1);
      assert forall i :: 0 <= i < |s1.pending| ==> s1.pending[i] == s.pending[i + 1];
      DrainedQuiet(s1, outcomes);
      QuietThen(s, s1, Drained(s1, outcomes));
    }
  }

  lemma QuietSame(s: State, r: State)
    requires r.node == s.node && r.history == s.history
    ensures Quiet(s, r) && (Known(s) ==> Known(r))
  {}

  // ---- Every step ----

  lemma RelayQuiet(d: Directory, n: Node, f: FlowValue, bound: bool)
    ensures NoNewTransfer(n.table, RelayRequest(d, n, f, bound).node.table)
  {
    hide FindByFlow, WithNeighbours, RelayFlow, SentOn;
  }

  lemma CreatedQuiet(d: Directory, n: Node, f: FlowValue, port: int, cep: int, accepted: bool, bound: bool)
    ensures NoNewTransfer(n.table, CreateArrived(d, n, f, port, cep, accepted, bound).node.table)
  {
    RelayQuiet(d, n, f, bound);
    CreatedTableQuiet(d, n.table, f, port, cep);
    hide CreatedTable, FindByInvokeId, RelayRequest;
    if d.isLocal(f.srcApni.apn) && (d.isLocal(f.dstApni.apn) || FindByInvokeId(n.table, f.allocInvokeId) == |n.table|) {
      var t := CreatedTable(d, n.table, f, port, cep);
      StatusQuiet(t, t[|n.table|].flow, AllocNega);
      NoNewThen(n.table, t, ChangeStatus(t, t[|n.table|].flow, AllocNega));
      hide ChangeStatus, FindByFlow, NoNewTransfer;
    }
  }

  lemma CreatedTableQuiet(d: Directory, t: seq<Entry>, f: FlowValue, port: int, cep: int)
    ensures NoNewTransfer(t, CreatedTable(d, t, f, port, cep))
  {
    hide FindByFlow, WithNeighbours;
  }

  lemma {:induction false} SendAllOnQuiet(d: Directory, n: Node, ks: seq<nat>)
    requires forall i :: 0 <= i < |ks| ==> ks[i] < |n.table|
    ensures NoNewTransfer(n.table, SendAllOn(d, n, ks).node.table)
    decreases |ks|
  {
    if ks != [] {
      hide SentOn, NoNewTransfer, ChangeStatus;
      var n1 := SendOn(d, n, ks[0]).node;
      StatusQuiet(n.table, n.table[ks[0]].flow, Forwarded);
      SendAllOnQuiet(d, n1, ks[1..]);
      NoNewThen(n.table, n1.table, SendAllOn(d, n1, ks[1..]).node.table);
    } else {
      assert NoNewTransfer(n.table, n.table);
    }
  }

  lemma ResponseReaches(n: Node, k: nat, positive: bool, ready: bool, bound: bool)
    requires k < |n.table|
    ensures var u := AllocateResponse(n, k, positive, ready, bound).node.table;
      if positive && ready then Transferring(u) <= Transferring(n.table) + {n.table[k].flow.dstAddr}
      else NoNewTransfer(n.table, u)
  {
    hide FindByFlow;
  }

  lemma DeallocationQuiet(n: Node, k: nat)
    requires k < |n.table|
    ensures NoNewTransfer(n.table, DeallocateRequest(n, k).node.table)
  {
    hide FindByFlow;
  }

  /** A positive answer: an M_CREATE_R that arrives, or one that an application here gives. */
  predicate Answers(v: Event) {
    (v.Signals? && v.x.CreatePositive?) || (v.Respond? && v.positive && v.ready)
  }

  /** A step reaches nobody unless it is a positive answer, and then only destinations of the table. */
  lemma StepReaches(d: Directory, me: string, s: State, v: Event)
    requires Known(s) && Possible(s, v)
    ensures Known(Step(d, me, s, v))
    ensures Reaches(s, Step(d, me, s, v), if Answers(v) then Destinations(s.node.table) else {})
  {
    hide Requested, CreateArrived, AllocateResponse, DeallocateRequest, Signalled, Drained, Transferring, SendAllOn, NoNewTransfer;
    match v
    case Request(f, own, mgmt) => RequestedQuiet(d, s, f, own, mgmt);
    case CreateArrives(f, port, cep, accepted, bound) =>
      CreatedQuiet(d, s.node, f, port, cep, accepted, bound);
      QuietBecame(s, CreateArrived(d, s.node, f, port, cep, accepted, bound));
    case Respond(k, positive, ready, bound) =>
      ResponseReaches(s.node, k, positive, ready, bound);
      if positive && ready {
        assert s.node.table[k].flow.dstAddr in Destinations(s.node.table);
      } else {
        QuietBecame(s, AllocateResponse(s.node, k, positive, ready, bound));
      }
    case Deallocate(k) =>
      DeallocationQuiet(s.node, k);
      QuietBecame(s, DeallocateRequest(s.node, k));
    case Signals(x) => SignalledReaches(s, me, x, 0);
    case LowerFlow(f) =>
      SendAllOnQuiet(d, s.node, Waiting(s.node.table, f.dstApni.apn, |s.node.table|));
      QuietBecame(s, Resume(d, s.node, f.dstApni.apn));
    case Timer(outcomes) => DrainedQuiet(s, outcomes);
  }

  /** In every run, an address counts as reached only if some step before was a positive answer and a
      flow of the table went there then. */
  lemma {:induction false} ReachedByAnswer(me: string, ds: seq<Directory>, run: seq<State>, events: seq<Event>, k: nat, a: Address)
    requires IsRun(me, ds, run, events) && k < |run|
    ensures Known(run[k])
    ensures a in run[k].history.reached ==>
              exists j :: 0 <= j < k && Answers(events[j]) && a in Destinations(run[j].node.table)
  {
    if k == 0 {
      assert Transferring([]) == {};
    } else {
      hide Known, Step, Possible, Destinations, Answers;
      ReachedByAnswer(me, ds, run, events, k - 1, a);
      StepReaches(ds[k - 1], me, run[k - 1], events[k - 1]);
    }
  }
}
