/** A whole flow allocator, step by step and with its searches as they are, whichever entry they find:
    src/DIF/FA/FA.cc, FAListeners.cc, and the instances' handlers, where the flow of an instance is that
    of the entry holding it. Proved here: data flows wait for a management flow, and are resumed when
    there is one. */
module FlowManagement {
  import opened Names
  import opened Flow
  import opened FlowTable
  import opened FlowAllocation
  import opened FlowDirectory
  import opened FlowRelay

  /** What is not in the code: the random identifiers, and how the allocation goes on. */
  datatype Choice = Choice(port: int, cep: int, outcome: Outcome)

  /** History variables: the flows handed to FAI::receiveAllocateRequest, and the destination addresses
      that a management flow has been transferring to. */
  datatype History = History(handed: seq<FlowValue>, reached: set<Address>)

  /** pending are the entries of PendingFlows, timers the scheduled self-messages. */
  datatype State = State(node: Node, sent: seq<Message>, pending: seq<nat>, timers: nat, history: History)

  function Transferring(t: seq<Entry>): set<Address> {
    set k | 0 <= k < |t| && IsLocalManagement(t[k].flow) && t[k].status == Transfer :: t[k].flow.dstAddr
  }

  /** Every change goes through here, so that the history notes what transfers. */
  function Became(s: State, r: Reaction): State {
    s.(node := r.node, sent := s.sent + r.sent,
       history := s.history.(reached := s.history.reached + Transferring(r.node.table)))
  }

  function WithTable(s: State, t: seq<Entry>): State { Became(s, Reaction(s.node.(table := t), [])) }

  // ---- Allocation ----

  /** FAI::receiveAllocateRequest of entry k. */
  function Hand(s: State, k: nat, o: Outcome): (r: State)
    requires k < |s.node.table|
    ensures |r.node.table| == |s.node.table|
  {
    Became(s.(history := s.history.(handed := s.history.handed + [s.node.table[k].flow])),
           AllocateRequest(s.node, k, o))
  }

  function Inserted(t: seq<Entry>, f: FlowValue): (u: seq<Entry>)
    ensures |u| == |t| + 1
  {
    ChangeStatus(t + [Entry(f, Unknown, NoFai)], f, AllocPend)
  }

  function Identified(f: FlowValue, port: int, cep: int): FlowValue {
    f.(srcPortId := port, conId := f.conId.(srcCepId := cep))
  }

  /** createFAI for entry k, and the update of its flow. */
  function WithFai(t: seq<Entry>, k: nat, port: int, cep: int): (u: seq<Entry>)
    requires k < |t|
    ensures |u| == |t|
  {
    var f := t[k].flow;
    SetFlow(ChangeStatus(SetFai(t, f, Fai(port, cep, UNDEFINED_ID, UNDEFINED_ID)), f, AllocPend), k,
            Identified(f, port, cep))
  }

  /** receiveLocalMgmtAllocateRequest. */
  function MgmtRequested(d: Directory, s: State, f: FlowValue, c: Choice): (r: State)
    ensures |r.node.table| >= |s.node.table| + 1
  {
    hide WithNeighbours, Readdress, Hand, Inserted, WithFai;
    var k := |s.node.table|;
    var t := SetFlow(Inserted(s.node.table, f), k, WithNeighbours(d, Readdress(f)));
    Hand(WithTable(s, WithFai(t, k, c.port, c.cep)), k, c.outcome)
  }

  /** A flow as FA::receiveAllocateRequest completes it. */
  function Completed(d: Directory, f: FlowValue): FlowValue {
    var g := if f.srcAddr == UNSPECIFIED && f.srcNeighbor == UNSPECIFIED
             then WithNeighbours(d, WithOriginals(d, f)) else f;
    if d.isLocal(g.dstApni.apn) then g.(ddtFlag := true) else g
  }

  predicate Malformed(f: FlowValue) { f.dstApni.apn == "AppERR" }

  /** The flow has been inserted and its management flow requested if there was none. */
  function Prepare(d: Directory, s: State, f: FlowValue, mgmt: Choice): (r: State)
    ensures |r.node.table| > |s.node.table|
  {
    var k := |s.node.table|;
    var g := Completed(d, f);
    var s1 := WithTable(s, SetFlow(Inserted(s.node.table, f), k, g));
    if !g.ddtFlag && FindMgmtByDstAddr(s1.node.table, g.dstAddr) == |s1.node.table|
    then MgmtRequested(d, s1, DupToMgmt(g), mgmt) else s1
  }

  predicate MgmtReady(t: seq<Entry>, f: FlowValue) {
    var j := FindMgmtByDstAddr(t, f.dstAddr);
    f.ddtFlag || (j < |t| && t[j].status == Transfer)
  }

  /** FA::receiveAllocateRequest. */
  function Requested(d: Directory, s: State, f: FlowValue, own: Choice, mgmt: Choice): State {
    var k := |s.node.table|;
    var g := Completed(d, f);
    var s1 := Prepare(d, s, f, mgmt);
    if Malformed(g) then WithTable(s1, ChangeStatus(s1.node.table, g, AllocErr))
    else
      var s2 := WithTable(s1, WithFai(s1.node.table, k, own.port, own.cep));
      if MgmtReady(s2.node.table, g) then Hand(s2, k, own.outcome) else s2
  }

  // ---- Requests from elsewhere ----

  /** The entry and instance of a request for an application of this system. */
  function CreatedTable(d: Directory, t: seq<Entry>, f: FlowValue, port: int, cep: int): (u: seq<Entry>)
    ensures |u| == |t| + 1
  {
    var k := |t|;
    var g := WithNeighbours(d, f);
    var t1 := ChangeStatus(t + [Entry(g, Unknown, NoFai)], g, AllocPend);
    var t2 := ChangeStatus(SetFai(t1, g, Fai(port, cep, g.dstPortId, g.conId.dstCepId)), g, AllocPend);
    SetFlow(t2, k, Identified(g, port, cep).(ddtFlag := g.ddtFlag || d.isLocal(g.dstApni.apn)))
  }

  /** FAI::receiveCreateRequest of entry k. */
  function CreateDecided(n: Node, k: nat, accepted: bool): Reaction
    requires k < |n.table|
  {
    var f := n.table[k].flow;
    if n.table[FindByFlow(n.table, f)].status != AllocPend || accepted then Reaction(n, [])
    else Reaction(n.(table := ChangeStatus(n.table, f, AllocNega)), [CreateResponse(false, f)])
  }

  /** FA::receiveCreateFlowRequestFromRibd; f is the flow as it arrived. */
  function CreateArrived(d: Directory, n: Node, f: FlowValue, port: int, cep: int, accepted: bool, bound: bool): Reaction {
    if !d.isLocal(f.srcApni.apn) then RelayRequest(d, n, f, bound)
    else if !d.isLocal(f.dstApni.apn) && FindByInvokeId(n.table, f.allocInvokeId) < |n.table| then Reaction(n, [])
    else CreateDecided(n.(table := CreatedTable(d, n.table, f, port, cep)), |n.table|, accepted)
  }

  // ---- Signals, and the flows waiting for management ----

  /** LisFAAllocFinMgmt: every allocator hears that g's instance finished. */
  function MgmtFinished(s: State, me: string, g: FlowValue): State {
    if me == g.srcApni.apn && IsLocalManagement(g) then
      s.(pending := s.pending + Affected(s.node.table, g, |s.node.table|), timers := s.timers + 1)
    else s
  }

  /** The instance of entry k handles a signal it listens to; that it is told of a management flow
      goes into the history as well. */
  function Handles(s: State, me: string, k: nat, x: Signal): (r: State)
    requires k < |s.node.table| && s.node.table[k].fai.Fai?
    ensures |r.node.table| == |s.node.table|
  {
    var s1 := Became(s, Handle(s.node, k, x));
    var g := s1.node.table[k].flow;
    if x.CreatePositive? && IsLocalManagement(g) then
      MgmtFinished(s1.(history := s1.history.(reached := s1.history.reached + {g.dstAddr})), me, g)
    else s1
  }

  /** A signal reaches every instance from entry k on. */
  function Signalled(s: State, me: string, x: Signal, k: nat): State
    requires k <= |s.node.table|
    decreases |s.node.table| - k
  {
    if k == |s.node.table| then s
    else Signalled(if Listens(s.node.table[k], x) then Handles(s, me, k, x) else s, me, x, k + 1)
  }

  /** The body of the loop over PendingFlows, for the flow of entry k. */
  function ResumeOne(s: State, k: nat, outcomes: nat -> Outcome): State
    requires k < |s.node.table|
  {
    var j := FindByFlow(s.node.table, s.node.table[k].flow);
    if s.node.table[j].fai.Fai? then Hand(s, j, outcomes(j)) else s
  }

  function Drained(s: State, outcomes: nat -> Outcome): (r: State)
    requires forall i :: 0 <= i < |s.pending| ==> s.pending[i] < |s.node.table|
    ensures r.pending == []
    decreases |s.pending|
  {
    if s.pending == [] then s
    else
      var s1 := ResumeOne(s, s.pending[0], outcomes);
      Drained(s1.(pending := s.pending[1..]), outcomes)
  }

  /** LisFACreFloPosi: a flow f was created, perhaps a lower one of this IPC process. */
  function LowerFlowCreated(d: Directory, me: string, s: State, f: FlowValue): State {
    if me == f.srcApni.apn && !IsLocalManagement(f) then Became(s, Resume(d, s.node, f.dstApni.apn)) else s
  }

  // ---- Steps ----

  datatype Event =
    | Request(flow: FlowValue, own: Choice, mgmt: Choice)
    | CreateArrives(flow: FlowValue, port: int, cep: int, accepted: bool, bound: bool)
    | Respond(k: nat, positive: bool, ready: bool, bound: bool)
    | Deallocate(k: nat)
    | Signals(x: Signal)
    | LowerFlow(flow: FlowValue)
    | Timer(outcomes: nat -> Outcome)

  predicate Possible(s: State, v: Event) {
    match v
    case Respond(k, _, _, _) => k < |s.node.table|
    case Deallocate(k) => k < |s.node.table|
    case Timer(_) => s.timers > 0 && forall i :: 0 <= i < |s.pending| ==> s.pending[i] < |s.node.table|
    case _ => true
  }

  /** d: what the DIF allocator knows at that moment; me: the name of this IPC process. */
  function Step(d: Directory, me: string, s: State, v: Event): State
    requires Possible(s, v)
  {
    match v
    case Request(f, own, mgmt) => Requested(d, s, f, own, mgmt)
    case CreateArrives(f, port, cep, accepted, bound) =>
      Became(s, CreateArrived(d, s.node, f, port, cep, accepted, bound))
    case Respond(k, positive, ready, bound) => Became(s, AllocateResponse(s.node, k, positive, ready, bound))
    case Deallocate(k) => Became(s, DeallocateRequest(s.node, k))
    case Signals(x) => Signalled(s, me, x, 0)
    case LowerFlow(f) => LowerFlowCreated(d, me, s, f)
    case Timer(outcomes) => Drained(s, outcomes).(timers := s.timers - 1)
  }

  // ---- Management first ----

  /** The request of a management flow, as receiveLocalMgmtAllocateRequest makes it. */
  predicate ManagementRequest(f: FlowValue) {
    f.qos == ManagementQos && f.srcAddr == ParseAddress(f.srcApni.apn) && f.dstAddr == ParseAddress(f.dstApni.apn)
  }

  /** It is a local management flow exactly when both names are printed addresses, or empty. */
  lemma ManagementRequestIsLocal(f: FlowValue)
    requires ManagementRequest(f)
    ensures IsLocalManagement(f) <==>
              (f.srcApni.apn == [] || |Pieces(f.srcApni.apn, '_')| == 2)
              && (f.dstApni.apn == [] || |Pieces(f.dstApni.apn, '_')| == 2)
  {
    ParsedName(f.srcApni.apn);
    ParsedName(f.dstApni.apn);
  }

  /** A management flow has been transferring to an address with the name of f's destination. */
  ghost predicate Reached(f: FlowValue, reached: set<Address>) {
    exists a :: a in reached && a.apname == f.dstAddr.apname
  }

  /** Then it was to that very address, if addresses are those that their names denote. */
  lemma ReachedAddress(f: FlowValue, reached: set<Address>)
    requires Reached(f, reached) && Canonical(f.dstAddr) && forall a :: a in reached ==> Canonical(a)
    ensures f.dstAddr in reached
  {
    hide ParseAddress;
  }

  /** Handing the flow on is in order. */
  ghost predicate InOrder(f: FlowValue, reached: set<Address>) {
    f.ddtFlag || ManagementRequest(f) || Reached(f, reached)
  }

  ghost predicate Known(s: State) { Transferring(s.node.table) <= s.history.reached }

  ghost predicate AllInOrder(h: History) {
    forall i :: 0 <= i < |h.handed| ==> InOrder(h.handed[i], h.reached)
  }

  ghost predicate PendingKnown(s: State) {
    forall i :: 0 <= i < |s.pending| ==>
      s.pending[i] < |s.node.table| && Reached(s.node.table[s.pending[i]].flow, s.history.reached)
  }

  /** Flows are handed on in order only, and collected flows have a management flow to their
      destination and a timer that will resume them. */
  ghost predicate Invariant(s: State) {
    && Known(s) && AllInOrder(s.history) && PendingKnown(s)
    && (s.pending != [] ==> s.timers > 0)
  }

  /** Entries stay and keep their flows' destination. */
  ghost predicate KeepsDst(t: seq<Entry>, u: seq<Entry>) {
    |t| <= |u| && forall k :: 0 <= k < |t| ==> u[k].flow.dstAddr == t[k].flow.dstAddr
  }

  ghost predicate KeepsFlows(t: seq<Entry>, u: seq<Entry>) {
    |t| <= |u| && forall k :: 0 <= k < |t| ==> u[k].flow == t[k].flow
  }

  lemma BecameKeepsInvariant(s: State, r: Reaction)
    requires Invariant(s) && KeepsDst(s.node.table, r.node.table)
    ensures Invariant(Became(s, r))
  {
    hide Transferring, ManagementRequest;
  }

  lemma HandKeepsInvariant(s: State, k: nat, o: Outcome)
    requires Invariant(s) && k < |s.node.table| && InOrder(s.node.table[k].flow, s.history.reached)
    ensures Invariant(Hand(s, k, o))
    ensures forall i :: 0 <= i < |s.node.table| && i != k ==>
              Hand(s, k, o).node.table[i].flow == s.node.table[i].flow
  {
    hide Transferring, ManagementRequest, FindByFlow;
    var s1 := s.(history := s.history.(handed := s.history.handed + [s.node.table[k].flow]));
    assert Invariant(s1);
    BecameKeepsInvariant(s1, AllocateRequest(s.node, k, o));
  }

  lemma WithFaiKeeps(t: seq<Entry>, k: nat, port: int, cep: int)
    requires k < |t|
    ensures WithFai(t, k, port, cep)[k].flow == Identified(t[k].flow, port, cep)
    ensures forall i :: 0 <= i < |t| && i != k ==> WithFai(t, k, port, cep)[i].flow == t[i].flow
  {
    hide FindByFlow;
  }

  lemma InsertedKeeps(t: seq<Entry>, f: FlowValue, g: FlowValue)
    ensures var u := SetFlow(Inserted(t, f), |t|, g);
      KeepsFlows(t, u) && u[|t|].flow == g
  {
    hide FindByFlow;
  }

  lemma MgmtRequestedKeepsInvariant(d: Directory, s: State, f: FlowValue, c: Choice)
    requires Invariant(s) && f.qos == ManagementQos
    ensures Invariant(MgmtRequested(d, s, f, c))
    ensures KeepsFlows(s.node.table, MgmtRequested(d, s, f, c).node.table)
  {
    var k := |s.node.table|;
    var g := WithNeighbours(d, Readdress(f));
    NeighboursOnly(d, Readdress(f));
    assert ManagementRequest(g);
    hide WithNeighbours, Readdress, Hand, Inserted, WithFai, ParseAddress, Invariant, Became;
    var t := SetFlow(Inserted(s.node.table, f), k, g);
    InsertedKeeps(s.node.table, f, g);
    WithFaiKeeps(t, k, c.port, c.cep);
    var u := WithFai(t, k, c.port, c.cep);
    BecameKeepsInvariant(s, Reaction(s.node.(table := u), []));
    var s1 := WithTable(s, u);
    assert s1.node.table == u by { BecameTable(s, Reaction(s.node.(table := u), [])); }
    HandKeepsInvariant(s1, k, c.outcome);
  }

  lemma BecameTable(s: State, r: Reaction)
    ensures Became(s, r).node == r.node && Became(s, r).pending == s.pending && Became(s, r).timers == s.timers
    ensures Known(Became(s, r))
  {
    hide Transferring;
  }

  lemma PrepareKeepsInvariant(d: Directory, s: State, f: FlowValue, mgmt: Choice)
    requires Invariant(s)
    ensures var r := Prepare(d, s, f, mgmt);
      && Invariant(r) && KeepsFlows(s.node.table, r.node.table)
      && r.node.table[|s.node.table|].flow == Completed(d, f)
  {
    hide Completed, MgmtRequested, Inserted, Became, Invariant, DupToMgmt, FindMgmtByDstAddr;
    var k := |s.node.table|;
    var g := Completed(d, f);
    var u := SetFlow(Inserted(s.node.table, f), k, g);
    InsertedKeeps(s.node.table, f, g);
    BecameKeepsInvariant(s, Reaction(s.node.(table := u), []));
    BecameTable(s, Reaction(s.node.(table := u), []));
    assert DupToMgmt(g).qos == ManagementQos by { TwinRequirements(g); }
    MgmtRequestedKeepsInvariant(d, WithTable(s, u), DupToMgmt(g), mgmt);
  }

  lemma TwinRequirements(f: FlowValue)
    ensures DupToMgmt(f).qos == ManagementQos
  {}

  lemma RequestedKeepsInvariant(d: Directory, s: State, f: FlowValue, own: Choice, mgmt: Choice)
    requires Invariant(s)
    ensures Invariant(Requested(d, s, f, own, mgmt))
  {
    var k := |s.node.table|;
    var g := Completed(d, f);
    PrepareKeepsInvariant(d, s, f, mgmt);
    hide Completed, Prepare, WithFai, ChangeStatus, Hand, Became, AllInOrder, PendingKnown, FindMgmtByDstAddr, ParseAddress;
    var s1 := Prepare(d, s, f, mgmt);
    if Malformed(g) {
      var t := ChangeStatus(s1.node.table, g, AllocErr);
      assert KeepsFlows(s1.node.table, t) by { ChangeStatusKeeps(s1.node.table, g, AllocErr); }
      BecameKeepsInvariant(s1, Reaction(s1.node.(table := t), []));
    } else {
      WithFaiKeeps(s1.node.table, k, own.port, own.cep);
      var r := Reaction(s1.node.(table := WithFai(s1.node.table, k, own.port, own.cep)), []);
      BecameKeepsInvariant(s1, r);
      BecameTable(s1, r);
      var s2 := Became(s1, r);
      if MgmtReady(s2.node.table, g) {
        ReadyIsInOrder(s2, s2.node.table[k].flow);
        HandKeepsInvariant(s2, k, own.outcome);
      }
    }
  }

  lemma ChangeStatusKeeps(t: seq<Entry>, f: FlowValue, st: Status)
    ensures KeepsFlows(t, ChangeStatus(t, f, st))
  {}

  lemma ReadyIsInOrder(s: State, f: FlowValue)
    requires Known(s) && MgmtReady(s.node.table, f)
    ensures InOrder(f, s.history.reached)
  {
    var j := FindMgmtByDstAddr(s.node.table, f.dstAddr);
    if !f.ddtFlag {
      assert s.node.table[j].flow.dstAddr in Transferring(s.node.table);
    }
  }

  lemma {:induction false} SendAllOnKeeps(d: Directory, n: Node, ks: seq<nat>)
    requires forall i :: 0 <= i < |ks| ==> ks[i] < |n.table|
    ensures KeepsFlows(n.table, SendAllOn(d, n, ks).node.table)
    decreases |ks|
  {
    if ks != [] {
      hide SentOn;
      var n1 := SendOn(d, n, ks[0]).node;
      ChangeStatusKeeps(n.table, n.table[ks[0]].flow, Forwarded);
      SendAllOnKeeps(d, n1, ks[1..]);
    }
  }

  lemma RelayKeeps(d: Directory, n: Node, f: FlowValue, bound: bool)
    ensures KeepsFlows(n.table, RelayRequest(d, n, f, bound).node.table)
  {
    hide FindByFlow, WithNeighbours, RelayFlow, SentOn;
  }

  lemma CreatedTableKeeps(d: Directory, t: seq<Entry>, f: FlowValue, port: int, cep: int)
    ensures KeepsFlows(t, CreatedTable(d, t, f, port, cep))
  {
    hide FindByFlow, WithNeighbours, Identified;
  }

  lemma CreateArrivedKeeps(d: Directory, n: Node, f: FlowValue, port: int, cep: int, accepted: bool, bound: bool)
    ensures KeepsFlows(n.table, CreateArrived(d, n, f, port, cep, accepted, bound).node.table)
  {
    hide FindByFlow, CreatedTable, RelayRequest, FindByInvokeId;
    RelayKeeps(d, n, f, bound);
    CreatedTableKeeps(d, n.table, f, port, cep);
  }

  lemma HandlesKeepsInvariant(s: State, me: string, k: nat, x: Signal)
    requires Invariant(s) && k < |s.node.table| && s.node.table[k].fai.Fai?
    ensures Invariant(Handles(s, me, k, x))
  {
    hide FindByFlow, Transferring, Became, Handle, ManagementRequest;
    var r := Handle(s.node, k, x);
    HandleKeeps(s.node, k, x);
    BecameKeepsInvariant(s, r);
    BecameTable(s, r);
  }

  lemma HandleKeeps(n: Node, k: nat, x: Signal)
    requires k < |n.table| && n.table[k].fai.Fai?
    ensures KeepsDst(n.table, Handle(n, k, x).node.table)
  {
    hide FindByFlow;
  }

  lemma {:induction false} SignalledKeepsInvariant(s: State, me: string, x: Signal, k: nat)
    requires Invariant(s) && k <= |s.node.table|
    ensures Invariant(Signalled(s, me, x, k))
    decreases |s.node.table| - k
  {
    if k < |s.node.table| {
      hide Invariant, Handles;
      if Listens(s.node.table[k], x) { HandlesKeepsInvariant(s, me, k, x); }
      SignalledKeepsInvariant(if Listens(s.node.table[k], x) then Handles(s, me, k, x) else s, me, x, k + 1);
    }
  }

  lemma ResumeOneKeepsInvariant(s: State, outcomes: nat -> Outcome)
    requires Invariant(s) && s.pending != []
    ensures Invariant(ResumeOne(s, s.pending[0], outcomes).(pending := s.pending[1..]))
  {
    var k := s.pending[0];
    SameReflexive(s.node.table, k);
    var j := FindByFlow(s.node.table, s.node.table[k].flow);
    hide Hand, Transferring, ManagementRequest;
    if s.node.table[j].fai.Fai? {
      HandKeepsInvariant(s, j, outcomes(j));
    }
  }

  lemma {:induction false} DrainedKeepsInvariant(s: State, outcomes: nat -> Outcome)
    requires Invariant(s)
    ensures Invariant(Drained(s, outcomes))
    decreases |s.pending|
  {
    if s.pending != [] {
      ResumeOneKeepsInvariant(s, outcomes);
      DrainedKeepsInvariant(ResumeOne(s, s.pending[0], outcomes).(pending := s.pending[1..]), outcomes);
    }
  }

  lemma ResponseKeeps(n: Node, k: nat, positive: bool, ready: bool, bound: bool)
    requires k < |n.table|
    ensures KeepsFlows(n.table, AllocateResponse(n, k, positive, ready, bound).node.table)
  {
    hide ChangeStatus, FindByFlow;
    ChangeStatusKeeps(n.table, n.table[k].flow, Transfer);
    ChangeStatusKeeps(n.table, n.table[k].flow, AllocNega);
  }

  lemma DeallocationKeeps(n: Node, k: nat)
    requires k < |n.table|
    ensures KeepsDst(n.table, DeallocateRequest(n, k).node.table)
  {
    hide FindByFlow;
  }

  lemma StepKeepsInvariant(d: Directory, me: string, s: State, v: Event)
    requires Invariant(s) && Possible(s, v)
    ensures Invariant(Step(d, me, s, v))
  {
    hide Requested, CreateArrived, AllocateResponse, DeallocateRequest, Signalled, Became, AllInOrder, Transferring;
    match v
    case Request(f, own, mgmt) =>
      RequestedKeepsInvariant(d, s, f, own, mgmt);
    case CreateArrives(f, port, cep, accepted, bound) =>
      CreateArrivedKeeps(d, s.node, f, port, cep, accepted, bound);
      BecameKeepsInvariant(s, CreateArrived(d, s.node, f, port, cep, accepted, bound));
    case Respond(k, positive, ready, bound) =>
      ResponseKeeps(s.node, k, positive, ready, bound);
      BecameKeepsInvariant(s, AllocateResponse(s.node, k, positive, ready, bound));
    case Deallocate(k) =>
      DeallocationKeeps(s.node, k);
      BecameKeepsInvariant(s, DeallocateRequest(s.node, k));
    case Signals(x) =>
      SignalledKeepsInvariant(s, me, x, 0);
    case LowerFlow(f) =>
      SendAllOnKeeps(d, s.node, Waiting(s.node.table, f.dstApni.apn, |s.node.table|));
      BecameKeepsInvariant(s, Resume(d, s.node, f.dstApni.apn));
    case Timer(outcomes) =>
      DrainedKeepsInvariant(s, outcomes);
  }

  // ---- Whole runs ----

  ghost predicate IsRun(me: string, ds: seq<Directory>, run: seq<State>, events: seq<Event>) {
    && |run| == |events| + 1 && |ds| == |events|
    && run[0] == State(Node([], run[0].node.invoke), [], [], 0, History([], {}))
    && forall k :: 0 <= k < |events| ==>
         Possible(run[k], events[k]) && run[k + 1] == Step(ds[k], me, run[k], events[k])
  }

  lemma {:induction false} RunKeepsInvariant(me: string, ds: seq<Directory>, run: seq<State>, events: seq<Event>, k: nat)
    requires IsRun(me, ds, run, events) && k < |run|
    ensures Invariant(run[k])
  {
    if k > 0 {
      hide Invariant, Step, Possible;
      RunKeepsInvariant(me, ds, run, events, k - 1);
      StepKeepsInvariant(ds[k - 1], me, run[k - 1], events[k - 1]);
    }
  }

  /** Management first, in every state of every run, also when searches find another entry with equal
      identifiers: each flow the flow allocator has handed to an instance for allocation is a
      degenerate transfer, is a request for a management flow, or goes to an address with the name of
      one that a management flow has been transferring to. And no collected flow is forgotten: a timer is running for it. */
  lemma ManagementFirst(me: string, ds: seq<Directory>, run: seq<State>, events: seq<Event>, k: nat)
    requires IsRun(me, ds, run, events) && k < |run|
    ensures forall i :: 0 <= i < |run[k].history.handed| ==>
              var f := run[k].history.handed[i];
              f.ddtFlag || ManagementRequest(f) || Reached(f, run[k].history.reached)
    ensures run[k].pending != [] ==> run[k].timers > 0
  {
    RunKeepsInvariant(me, ds, run, events, k);
    hide ManagementRequest;
    assert AllInOrder(run[k].history);
  }

  // ---- What the timer does ----

  ghost predicate AllIdentifiable(s: State) {
    forall i :: 0 <= i < |s.pending| ==> Identifiable(s.node.table, s.pending[i])
  }

  ghost predicate SameKeys(t: seq<Entry>, u: seq<Entry>) {
    |t| == |u| && forall k :: 0 <= k < |t| ==> SameKey(u[k].flow, t[k].flow) && u[k].fai.Fai? == t[k].fai.Fai?
  }

  lemma SameKeysIdentifiable(t: seq<Entry>, u: seq<Entry>, k: nat)
    requires SameKeys(t, u) && Identifiable(t, k)
    ensures Identifiable(u, k)
  {}

  /** What one resumption does. */
  ghost predicate Resumed(s: State, r: State, k: nat, o: Outcome)
    requires k < |s.node.table|
  {
    var e := s.node.table[k];
    && SameKeys(s.node.table, r.node.table)
    && (forall i :: 0 <= i < |s.node.table| && i != k ==> r.node.table[i] == s.node.table[i])
    && r.history.handed == s.history.handed + [e.flow]
    && s.sent <= r.sent
    && (e.status != AllocPend ==> r.node.table[k] == e && r.sent == s.sent)
    && (e.status == AllocPend ==>
          && (o.Refused? || o.NoInstance? ==> r.node.table[k].status == AllocNega && r.sent == s.sent)
          && (o.Ready? ==> r.node.table[k].status == AllocPend)
          && (o.Ready? && o.bound ==> exists m :: Requests(m, e.flow) && r.sent == s.sent + [m]))
  }

  /** m is an M_CREATE for the flow with f's local identifiers. */
  ghost predicate Requests(m: Message, f: FlowValue) { m.Create? && SameKey(m.flow, f) }

  lemma RefusedExactly(n: Node, k: nat, o: Outcome)
    requires Identifiable(n.table, k) && n.table[k].status == AllocPend && !o.Ready?
    ensures var r := AllocateRequest(n, k, o);
      && r.sent == [] && |r.node.table| == |n.table|
      && SameKeys(n.table, r.node.table) && r.node.table[k].status == AllocNega
      && forall i :: 0 <= i < |n.table| && i != k ==> r.node.table[i] == n.table[i]
  {
    hide FindByFlow, ChangeStatus, Same;
    FindsItself(n.table, k);
    if o.NoInstance? {
      var e := n.table[k];
      var t := n.table[k := e.(flow := e.flow.(conId := e.flow.conId.(qosId := o.qosId)))];
      SameKeysIdentifiable(n.table, t, k);
      FindsItself(t, k);
    }
  }

  lemma ReadyExactly(n: Node, k: nat, o: Outcome)
    requires Identifiable(n.table, k) && n.table[k].status == AllocPend && o.Ready?
    ensures var r := AllocateRequest(n, k, o);
      && |r.node.table| == |n.table| && SameKeys(n.table, r.node.table)
      && r.node.table[k].status == AllocPend
      && (forall i :: 0 <= i < |n.table| && i != k ==> r.node.table[i] == n.table[i])
      && if o.bound then |r.sent| == 1 && Requests(r.sent[0], n.table[k].flow) else r.sent == []
  {
    hide FindByFlow, ChangeStatus, Same;
    FindsItself(n.table, k);
  }

  lemma HandExactly(s: State, k: nat, o: Outcome)
    requires Identifiable(s.node.table, k)
    ensures Resumed(s, Hand(s, k, o), k, o)
  {
    hide FindByFlow, ChangeStatus, Same, Transferring;
    FindsItself(s.node.table, k);
    var r := AllocateRequest(s.node, k, o);
    if s.node.table[k].status == AllocPend {
      hide AllocateRequest;
      if o.Ready? {
        ReadyExactly(s.node, k, o);
        if o.bound { assert r.sent == [r.sent[0]]; }
      } else {
        RefusedExactly(s.node, k, o);
      }
    }
  }

  lemma ResumeOneExactly(s: State, outcomes: nat -> Outcome)
    requires AllIdentifiable(s) && s.pending != []
    ensures var s1 := ResumeOne(s, s.pending[0], outcomes).(pending := s.pending[1..]);
      Resumed(s, s1, s.pending[0], outcomes(s.pending[0])) && AllIdentifiable(s1)
  {
    hide Hand, FindByFlow;
    var k := s.pending[0];
    assert Identifiable(s.node.table, k);
    FindsItself(s.node.table, k);
    HandExactly(s, k, outcomes(k));
    var h := Hand(s, k, outcomes(k));
    var s1 := h.(pending := s.pending[1..]);
    forall i | 0 <= i < |s1.pending| ensures Identifiable(s1.node.table, s1.pending[i]) {
      assert Identifiable(s.node.table, s.pending[i + 1]);
      SameKeysIdentifiable(s.node.table, s1.node.table, s.pending[i + 1]);
    }
  }

  /** Draining keeps identifiers, only adds to what was sent and handed on, and leaves entries alone
      that are not waiting. */
  ghost predicate Drains(s: State, r: State) {
    && SameKeys(s.node.table, r.node.table)
    && s.sent <= r.sent && s.history.handed <= r.history.handed
    && forall p :: 0 <= p < |s.node.table| && s.node.table[p].status != AllocPend ==>
         r.node.table[p] == s.node.table[p]
  }

  lemma {:induction false} DrainedKeeps(s: State, outcomes: nat -> Outcome)
    requires AllIdentifiable(s)
    ensures var r := Drained(s, outcomes);
      Drains(s, r) && |r.history.handed| == |s.history.handed| + |s.pending|
    decreases |s.pending|
  {
    if s.pending != [] {
      hide ResumeOne, Identifiable, AllIdentifiable, Drains;
      IndicesKnown(s);
      ResumeOneExactly(s, outcomes);
      var s1 := ResumeOne(s, s.pending[0], outcomes).(pending := s.pending[1..]);
      DrainedKeeps(s1, outcomes);
      DrainsAfter(s, s1, Drained(s, outcomes), s.pending[0], outcomes(s.pending[0]));
    }
  }

  lemma DrainsAfter(s: State, s1: State, r: State, h: nat, o: Outcome)
    requires h < |s.node.table| && Resumed(s, s1, h, o) && Drains(s1, r)
    ensures Drains(s, r)
  {
    forall p | 0 <= p < |s.node.table| && s.node.table[p].status != AllocPend
      ensures r.node.table[p] == s.node.table[p]
    {
      assert s1.node.table[p] == s.node.table[p];
    }
  }

  lemma IndicesKnown(s: State)
    requires AllIdentifiable(s)
    ensures forall i :: 0 <= i < |s.pending| ==> s.pending[i] < |s.node.table|
  {
    forall i | 0 <= i < |s.pending| ensures s.pending[i] < |s.node.table| {
      assert Identifiable(s.node.table, s.pending[i]);
    }
  }

  /** What became of the flow of entry p when the timer fired in s. */
  ghost predicate Served(s: State, r: State, p: nat, o: Outcome)
    requires p < |s.node.table| == |r.node.table| && |s.sent| <= |r.sent|
  {
    s.node.table[p].status == AllocPend ==>
      && (!o.Ready? ==> r.node.table[p].status == AllocNega)
      && (o.Ready? && o.bound ==> exists m :: m in r.sent[|s.sent|..] && Requests(m, s.node.table[p].flow))
  }

  /** The timer empties PendingFlows and hands on every collected flow exactly as often as it was
      collected, in order; and each of them that still waits is refused, or its M_CREATE is sent
      unless no lower flow can be bound yet. */
  lemma {:induction false} TimerResumesAll(s: State, outcomes: nat -> Outcome, i: nat)
    requires AllIdentifiable(s) && i < |s.pending| && s.pending[i] < |s.node.table|
    ensures var r := Drained(s, outcomes);
      && r.pending == [] && |r.node.table| == |s.node.table| && s.sent <= r.sent
      && |r.history.handed| == |s.history.handed| + |s.pending|
      && SameKey(r.history.handed[|s.history.handed| + i], s.node.table[s.pending[i]].flow)
      && Served(s, r, s.pending[i], outcomes(s.pending[i]))
    decreases |s.pending|
  {
    hide ResumeOne, Identifiable;
    IndicesKnown(s);
    DrainedKeeps(s, outcomes);
    ResumeOneExactly(s, outcomes);
    var h := s.pending[0];
    var s1 := ResumeOne(s, h, outcomes).(pending := s.pending[1..]);
    var r := Drained(s, outcomes);
    DrainedKeeps(s1, outcomes);
    IndicesKnown(s1);
    var p := s.pending[i];
    if i > 0 {
      TimerResumesAll(s1, outcomes, i - 1);
    }
    if p == h {
      HeadServed(s, s1, r, h, outcomes(h));
    } else {
      TailServed(s, s1, r, p, outcomes(p));
    }
  }

  lemma HeadServed(s: State, s1: State, r: State, h: nat, o: Outcome)
    requires h < |s.node.table| && Resumed(s, s1, h, o) && Drains(s1, r)
    ensures |r.node.table| == |s.node.table| && s.sent <= r.sent && Served(s, r, h, o)
  {
    if s.node.table[h].status == AllocPend && o.Ready? && o.bound {
      var m :| Requests(m, s.node.table[h].flow) && s1.sent == s.sent + [m];
      assert r.sent[|s.sent|] == s1.sent[|s.sent|] == m;
      assert m in r.sent[|s.sent|..];
    }
  }

  lemma TailServed(s: State, s1: State, r: State, p: nat, o: Outcome)
    requires p < |s.node.table| == |s1.node.table| == |r.node.table|
    requires s1.node.table[p] == s.node.table[p] && s.sent <= s1.sent <= r.sent && Served(s1, r, p, o)
    ensures Served(s, r, p, o)
  {
    if s.node.table[p].status == AllocPend && o.Ready? && o.bound {
      var m :| m in r.sent[|s1.sent|..] && Requests(m, s.node.table[p].flow);
      assert r.sent[|s1.sent|..] == r.sent[|s.sent|..][|s1.sent| - |s.sent|..];
    }
  }
}
