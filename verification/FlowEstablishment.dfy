/** Allocation run to completion, whatever else happens in between, and what colliding invoke-ids do
    to it. */
module FlowEstablishment {
  import opened Names
  import opened Flow
  import opened FlowTable
  import opened FlowAllocation
  import opened FlowNetwork
  import opened FlowRuns
  import opened FlowDeallocation

  // ---- Allocation over whole runs ----

  predicate AcceptanceFor(p: Packet, sent: set<Packet>, who: nat) {
    p in sent && p.body.CreateResponse? && p.body.positive && p.who == who
  }

  /** Entry j was made for own entry i of x, and waits for its application. */
  ghost predicate Asking(x: End, y: End, i: nat, j: nat) {
    && i < |x.node.table| && j < |y.node.table| && Ends(x, y, i, j)
    && y.node.table[j].status == AllocPend && i !in x.book.asked && j !in y.book.asked
  }

  /** Its application has accepted; t: own entry i knows. */
  ghost predicate Accepted(x: End, y: End, i: nat, j: nat, t: bool) {
    && i < |x.node.table| && j < |y.node.table| && Ends(x, y, i, j)
    && y.node.table[j].status == Transfer && i !in x.book.asked && j !in y.book.asked
    && (exists q :: AcceptanceFor(q, x.inbox, j))
    && (t ==> i in x.book.peer && x.book.peer[i] == j && x.node.table[i].status == Transfer)
  }

  /** A step of the responder concerns j, and leaves it alone. */
  lemma ResponderIdle(x: End, y: End, act: Action, i: nat, j: nat)
    requires Joint(y, x) && Enabled(y, act) && i < |x.node.table| && j < |y.node.table| && Ends(x, y, i, j)
    requires Concerned(y, x, act) == j && act != Deallocate(j)
    requires y.node.table[j].status == AllocPend || (y.node.table[j].status == Transfer && i !in x.book.asked)
    requires y.node.table[j].status == AllocPend ==> !act.Respond?
    ensures Step(y, x, act) == Both(y, x)
  {
    hide Mirrors, Target, OpenStep, AllocateStep, PositiveStep, NegativeStep, DeallocateStep, DeleteStep, AnswerStep,
      RelayStep, CreateStep, RespondStep, OpenOtherStep, ChangeOtherStep, Half;
    match act
    case Respond(_, positive, ready, bound) => RespondIdle(y, x, j, positive, ready, bound);
    case Positive(p) => PositiveExactly(y, x, p);
    case Negative(p, retry) => NegativeExactly(y, x, p, retry);
    case DeleteArrives(p) =>
      if y.node.table[j].status == AllocPend { DeleteLeaves(y, x, p); } else { NotAskedNotDeleted(x, y, p, i, j); }
    case AnswerArrives(p) => AnswerLeaves(y, x, p);
    case _ =>
  }

  /** While the requester has not asked, no M_DELETE reaches the responder's entry. */
  lemma NotAskedNotDeleted(x: End, y: End, p: Packet, i: nat, j: nat)
    requires Joint(y, x) && p in y.inbox && p.body.Delete? && Target(x, p.who) == j
    requires Ends(x, y, i, j) && j < |y.node.table| && i !in x.book.asked
    ensures DeleteStep(y, x, p) == Both(y, x)
  {
    assert PacketOk(x, p);
    DeallocationFinds(y, x, p);
    assert IsOwn(x, p.who) && Undirected(p.body.flow);
    StrayDelete(y, x, p);
  }

  lemma AskedOnlyByAsking(x: End, y: End, act: Action, k: nat)
    requires Enabled(x, act) && act != Deallocate(k)
    ensures k in Step(x, y, act).me.book.asked <==> k in x.book.asked
  {
    hide Dispatch, AllocateRequest, DeallocateRequest, CreateRequest, AllocateResponse, Target, FreshKey, Fits, OpenFlow;
  }

  /** The requester takes a step. */
  lemma RequesterSteps(x: End, y: End, act: Action, i: nat, j: nat)
    requires Joint(x, y) && Enabled(x, act) && act != Deallocate(i)
    ensures var r := Step(x, y, act);
      && (Asking(x, y, i, j) ==> Asking(r.me, r.other, i, j))
      && (Accepted(x, y, i, j, false) ==> Accepted(r.me, r.other, i, j, false))
  {
    hide Half, Step, Concerned, Grows, SameMember, Enabled;
    StepKeepsInvariant(x, y, act);
    AskedOnlyByAsking(x, y, act, i);
    var r := Step(x, y, act);
    if Accepted(x, y, i, j, false) {
      var q :| AcceptanceFor(q, x.inbox, j);
      assert AcceptanceFor(q, r.me.inbox, j);
    }
  }

  /** The responder takes a step. */
  lemma ResponderSteps(x: End, y: End, act: Action, i: nat, j: nat)
    requires Joint(y, x) && Enabled(y, act) && act != Deallocate(j)
    ensures var r := Step(y, x, act);
      && (Asking(x, y, i, j) && !(act.Respond? && act.j == j) ==> Asking(r.other, r.me, i, j))
      && (forall t :: Accepted(x, y, i, j, t) ==> Accepted(r.other, r.me, i, j, t))
  {
    hide Half, Step, Grows, SameMember, Enabled, Target;
    StepKeepsInvariant(y, x, act);
    AskedOnlyByAsking(y, x, act, j);
    var r := Step(y, x, act);
    if (Asking(x, y, i, j) && !(act.Respond? && act.j == j)) || Accepted(x, y, i, j, false) {
      if Concerned(y, x, act) == j { ResponderIdle(x, y, act, i, j); }
      assert r.me.node.table[j] == y.node.table[j];
    }
    if Accepted(x, y, i, j, false) {
      var q :| AcceptanceFor(q, x.inbox, j);
      assert AcceptanceFor(q, r.other.inbox, j);
    }
  }

  lemma RespondAccepts(x: End, y: End, i: nat, j: nat)
    requires Joint(y, x) && Asking(x, y, i, j)
    ensures var r := RespondStep(y, x, j, true, true, true); Accepted(r.other, r.me, i, j, false)
  {
    OwnFacts(y, x, j);
    RespondExactly(y.node, j, true, true, true);
    hide Joint, AllocateResponse;
    var r := RespondStep(y, x, j, true, true, true);
    SentOne(CreateResponse(true, y.node.table[j].flow), j);
    assert AcceptanceFor(Packet(CreateResponse(true, y.node.table[j].flow), j), r.other.inbox, j);
  }

  lemma ResponseEstablishes(x: End, y: End, q: Packet, i: nat, j: nat)
    requires Joint(x, y) && Accepted(x, y, i, j, false) && AcceptanceFor(q, x.inbox, j)
    ensures var r := PositiveStep(x, y, q); Accepted(r.me, r.other, i, j, true)
  {
    PositiveEffect(x, y, q);
    hide Joint, PositiveStep;
    assert AcceptanceFor(q, PositiveStep(x, y, q).me.inbox, j);
  }

  /** An established flow stays established while its ends do not ask for deallocation. */
  lemma EstablishedSteps(x: End, y: End, act: Action, i: nat, j: nat)
    requires Joint(x, y) && Enabled(x, act) && act != Deallocate(i) && Accepted(x, y, i, j, true)
    ensures var r := Step(x, y, act); Accepted(r.me, r.other, i, j, true)
  {
    hide Half, Step, Target, Enabled;
    RequesterSteps(x, y, act, i, j);
    StepKeepsInvariant(x, y, act);
    var r := Step(x, y, act);
    if Concerned(x, y, act) != i {
      assert SameMember(x.book, r.me.book, i);
    } else {
      EstablishedIdle(x, y, act, i, j);
    }
  }

  lemma EstablishedIdle(x: End, y: End, act: Action, i: nat, j: nat)
    requires Joint(x, y) && Enabled(x, act) && act != Deallocate(i) && Accepted(x, y, i, j, true)
    requires Concerned(x, y, act) == i
    ensures var r := Step(x, y, act);
      i < |r.me.node.table| && r.me.node.table[i].status == Transfer && i in r.me.book.peer && r.me.book.peer[i] == j
  {
    hide Half, Mirrors, Target, OpenStep, AllocateStep, PositiveStep, NegativeStep, DeallocateStep, DeleteStep, AnswerStep,
      RelayStep, CreateStep, RespondStep, OpenOtherStep, ChangeOtherStep;
    assert Paired(x, y, i, j);
    if act.Positive? {
      PositiveEffect(x, y, act.p);
    } else if act.AnswerArrives? {
      AnswerLeaves(x, y, act.p);
    } else {
      StrayOnly(x, y, act, i, j);
      Idle(x, y, act, i, j);
    }
  }

  /** In move k the responder gets a request for own entry i of the given side, whose invoke-id is in
      no entry of its table; entry j is made for it, and the new-flow policy agrees. */
  ghost predicate Delivered(run: seq<Both>, moves: seq<Move>, k: nat, left: bool, i: nat, j: nat) {
    && IsRun(run, moves) && k < |moves| && moves[k].left != left
    && var v, act := View(run[k], left), moves[k].action;
    && act.CreateArrives? && act.p.who == i && act.accepted && j == |v.other.node.table|
    && i !in v.me.book.asked
    && forall e :: 0 <= e < j ==> v.other.node.table[e].flow.allocInvokeId != act.p.body.flow.allocInvokeId
  }

  ghost predicate NotAnswered(moves: seq<Move>, k: nat, m: nat, left: bool, j: nat)
    requires m <= |moves|
  {
    forall l :: k < l < m ==> !(moves[l].left != left && moves[l].action.Respond? && moves[l].action.j == j)
  }

  lemma RequestArrives(x: End, y: End, p: Packet, port: int, cep: int, src: Address, dst: Address)
    requires Joint(y, x) && p in y.inbox && p.body.Create? && FreshKey(y.node.table, port, cep) && p.who !in x.book.asked
    requires forall e :: 0 <= e < |y.node.table| ==> y.node.table[e].flow.allocInvokeId != p.body.flow.allocInvokeId
    ensures var r := CreateStep(y, x, p, port, cep, src, dst, true); Asking(r.other, r.me, p.who, |y.node.table|)
  {
    CreateExactly(y, x, p, port, cep, src, dst, true);
    NewRoom(y, x);
    hide Joint, CreateRequest, FreshKey, Mirrors;
  }

  lemma DeliveredRun(run: seq<Both>, moves: seq<Move>, k: nat, left: bool, i: nat, j: nat)
    requires Delivered(run, moves, k, left, i, j)
    ensures IsRun(run, moves)
  {}

  lemma AskingBegins(run: seq<Both>, moves: seq<Move>, k: nat, left: bool, i: nat, j: nat)
    requires Delivered(run, moves, k, left, i, j)
    ensures Asking(View(run[k + 1], left).me, View(run[k + 1], left).other, i, j)
  {
    hide Joint, Asking, CreateStep, FreshKey, Fits;
    GoodAt(run, moves, k, !left);
    var v, act := View(run[k], left), moves[k].action;
    assert Possible(run[k], moves[k]) && run[k + 1] == After(run[k], moves[k]);
    RequestArrives(v.me, v.other, act.p, act.port, act.cep, act.src, act.dst);
  }

  lemma {:induction false} AskingOverRun(run: seq<Both>, moves: seq<Move>, k: nat, m: nat, left: bool, i: nat, j: nat)
    requires Delivered(run, moves, k, left, i, j) && k < m < |run|
    requires NoOtherRequest(moves, k, m, left, i, j) && NotAnswered(moves, k, m, left, j)
    ensures Asking(View(run[m], left).me, View(run[m], left).other, i, j)
    decreases m
  {
    hide Delivered, Asking, Good, After, Possible, Initial, View;
    DeliveredRun(run, moves, k, left, i, j);
    if m == k + 1 {
      AskingBegins(run, moves, k, left, i, j);
    } else {
      AskingOverRun(run, moves, k, m - 1, left, i, j);
      RunMove(run, moves, m - 1);
      AskingMove(run[m - 1], moves[m - 1], left, i, j);
    }
  }

  lemma AskingMove(s: Both, m: Move, left: bool, i: nat, j: nat)
    requires Good(s) && Possible(s, m) && m != Move(left, Deallocate(i)) && m != Move(!left, Deallocate(j))
    requires Asking(View(s, left).me, View(s, left).other, i, j)
    requires !(m.left != left && m.action.Respond? && m.action.j == j)
    ensures Asking(View(After(s, m), left).me, View(After(s, m), left).other, i, j)
  {
    hide Half, Step, Enabled, Asking;
    GoodEitherWay(s, true);
    GoodEitherWay(s, false);
    var v := View(s, left);
    if m.left == left { RequesterSteps(v.me, v.other, m.action, i, j); } else { ResponderSteps(v.me, v.other, m.action, i, j); }
  }

  lemma AcceptedMove(s: Both, m: Move, left: bool, i: nat, j: nat, t: bool)
    requires Good(s) && Possible(s, m) && m != Move(left, Deallocate(i)) && m != Move(!left, Deallocate(j))
    requires Accepted(View(s, left).me, View(s, left).other, i, j, t)
    ensures Accepted(View(After(s, m), left).me, View(After(s, m), left).other, i, j, t)
  {
    hide Half, Step, Enabled;
    GoodEitherWay(s, true);
    GoodEitherWay(s, false);
    var v := View(s, left);
    if m.left != left {
      ResponderSteps(v.me, v.other, m.action, i, j);
    } else if t {
      EstablishedSteps(v.me, v.other, m.action, i, j);
    } else {
      RequesterSteps(v.me, v.other, m.action, i, j);
    }
  }

  lemma {:induction false} AcceptedOverRun(run: seq<Both>, moves: seq<Move>, k: nat, m: nat, left: bool, i: nat, j: nat, t: bool)
    requires IsRun(run, moves) && 0 < k <= m < |run| && NoOtherRequest(moves, k - 1, m, left, i, j)
    requires Accepted(View(run[k], left).me, View(run[k], left).other, i, j, t)
    ensures Accepted(View(run[m], left).me, View(run[m], left).other, i, j, t)
    decreases m
  {
    hide Accepted, Good, After, Possible, Initial, View;
    if k < m {
      AcceptedOverRun(run, moves, k, m - 1, left, i, j, t);
      RunMove(run, moves, m - 1);
      AcceptedMove(run[m - 1], moves[m - 1], left, i, j, t);
    }
  }

  lemma AcceptanceMove(s: Both, m: Move, left: bool, i: nat, j: nat)
    requires Good(s) && Possible(s, m) && m == Move(!left, Respond(j, true, true, true))
    requires Asking(View(s, left).me, View(s, left).other, i, j)
    ensures Accepted(View(After(s, m), left).me, View(After(s, m), left).other, i, j, false)
  {
    hide Half, RespondStep, Asking, Accepted;
    GoodEitherWay(s, !left);
    RespondAccepts(View(s, left).me, View(s, left).other, i, j);
  }

  lemma ResponseMove(s: Both, m: Move, left: bool, i: nat, j: nat)
    requires Good(s) && Possible(s, m) && m.left == left && m.action.Positive? && m.action.p.who == j
    requires Accepted(View(s, left).me, View(s, left).other, i, j, false)
    ensures Accepted(View(After(s, m), left).me, View(After(s, m), left).other, i, j, true)
  {
    hide Half, PositiveStep, Accepted;
    GoodEitherWay(s, left);
    ResponseEstablishes(View(s, left).me, View(s, left).other, m.action.p, i, j);
  }

  /** Both ends transfer data, with flows that compare equal when seen from one side. */
  ghost predicate BothTransfer(x: End, y: End, i: nat, j: nat) {
    Agreed(x, y, i, j) && x.node.table[i].status == Transfer && y.node.table[j].status == Transfer
  }

  lemma AcceptedAgree(x: End, y: End, i: nat, j: nat)
    requires Joint(x, y) && Accepted(x, y, i, j, true)
    ensures BothTransfer(x, y, i, j)
  {
    PeersAgree(x, y, i);
  }

  /** Allocation over whole runs, whatever else happens in between: if any copy of a request, relayed
      or not, reaches the responder while its invoke-id is in no entry there (move k), the first
      answer of the responder's application is positive (move l), and any positive response for that
      entry reaches the requester (move n), then from then on both ends transfer data and agree on
      the flow, for as long as neither application asks for deallocation. */
  lemma AllocationCompletes(run: seq<Both>, moves: seq<Move>, left: bool, i: nat, j: nat, k: nat, l: nat, n: nat, m: nat)
    requires Delivered(run, moves, k, left, i, j) && k < l < n < m < |run|
    requires NotAnswered(moves, k, l, left, j) && moves[l] == Move(!left, Respond(j, true, true, true))
    requires moves[n].left == left && moves[n].action.Positive? && moves[n].action.p.who == j
    requires NoOtherRequest(moves, k, m, left, i, j)
    ensures BothTransfer(View(run[m], left).me, View(run[m], left).other, i, j)
  {
    hide Accepted, Asking, Good, After, Possible, Initial, Delivered, BothTransfer;
    DeliveredRun(run, moves, k, left, i, j);
    AskingOverRun(run, moves, k, l, left, i, j);
    RunMove(run, moves, l);
    AcceptanceMove(run[l], moves[l], left, i, j);
    AcceptedOverRun(run, moves, l + 1, n, left, i, j, false);
    RunMove(run, moves, n);
    ResponseMove(run[n], moves[n], left, i, j);
    AcceptedOverRun(run, moves, n + 1, m, left, i, j, true);
    GoodAt(run, moves, m, left);
    AcceptedAgree(View(run[m], left).me, View(run[m], left).other, i, j);
  }

  predicate RequestFor(p: Packet, sent: set<Packet>, who: nat) { p in sent && p.body.Create? && p.who == who }

  lemma AllocateSendsRequest(x: End, y: End, i: nat, qosId: string)
    requires Joint(x, y) && i < |x.node.table| && IsOwn(x, i) && x.node.table[i].status == AllocPend
    ensures exists p :: RequestFor(p, AllocateStep(x, y, i, Ready(qosId, true)).other.inbox, i)
  {
    OwnFacts(x, y, i);
    AllocateExactly(x.node, i, Ready(qosId, true));
    hide Joint, AllocateRequest;
    var g := AllocatedEntry(x.node.table[i], Ready(qosId, true), x.node.invoke);
    SentOne(Create(g.flow), i);
    assert RequestFor(Packet(Create(g.flow), i), AllocateStep(x, y, i, Ready(qosId, true)).other.inbox, i);
  }

  lemma {:induction false} InboxGrows(run: seq<Both>, moves: seq<Move>, k: nat, m: nat, left: bool, p: Packet)
    requires IsRun(run, moves) && k <= m < |run| && p in View(run[k], left).me.inbox
    ensures p in View(run[m], left).me.inbox
    decreases m
  {
    hide Good, After, Possible, Initial;
    if k < m {
      InboxGrows(run, moves, k, m - 1, left, p);
      RunMove(run, moves, m - 1);
      MoveKeeps(run[m - 1], moves[m - 1]);
    }
  }

  /** The deliveries that AllocationCompletes speaks of are possible: from the first effective
      allocation request on there is an M_CREATE for it in the network, and from the acceptance on a
      positive M_CREATE_R. */
  lemma AllocationCanComplete(run: seq<Both>, moves: seq<Move>, k: nat, m: nat, left: bool, i: nat, qosId: string)
    requires IsRun(run, moves) && k < m < |run| && moves[k] == Move(left, Allocate(i, Ready(qosId, true)))
    requires var x := View(run[k], left).me; i < |x.node.table| && x.node.table[i].status == AllocPend
    ensures exists p :: RequestFor(p, View(run[m], left).other.inbox, i)
  {
    hide Joint, AllocateStep;
    GoodAt(run, moves, k, left);
    var v := View(run[k], left);
    assert Possible(run[k], moves[k]) && run[k + 1] == After(run[k], moves[k]);
    AllocateSendsRequest(v.me, v.other, i, qosId);
    var w := View(run[k + 1], left);
    assert w == AllocateStep(v.me, v.other, i, Ready(qosId, true));
    var p :| RequestFor(p, w.other.inbox, i);
    assert View(run[k + 1], !left).me == w.other && View(run[m], !left).me == View(run[m], left).other;
    InboxGrows(run, moves, k + 1, m, !left, p);
    assert RequestFor(p, View(run[m], left).other.inbox, i);
  }

  lemma AcceptanceCanArrive(run: seq<Both>, moves: seq<Move>, left: bool, i: nat, j: nat, k: nat, l: nat, m: nat)
    requires Delivered(run, moves, k, left, i, j) && k < l < m < |run|
    requires NotAnswered(moves, k, l, left, j) && moves[l] == Move(!left, Respond(j, true, true, true))
    requires NoOtherRequest(moves, k, m, left, i, j)
    ensures exists q :: AcceptanceFor(q, View(run[m], left).me.inbox, j)
  {
    hide Asking, Good, After, Possible, Initial, Delivered;
    DeliveredRun(run, moves, k, left, i, j);
    AskingOverRun(run, moves, k, l, left, i, j);
    RunMove(run, moves, l);
    AcceptanceMove(run[l], moves[l], left, i, j);
    AcceptedOverRun(run, moves, l + 1, m, left, i, j, false);
  }

  // ---- Colliding invoke-ids ----

  /** The one entry of x is an own request with the given status and invoke-id. */
  ghost predicate Single(x: End, status: Status, id: int) {
    && |x.node.table| == 1 && IsOwn(x, 0)
    && x.node.table[0].status == status && x.node.table[0].flow.allocInvokeId == id
  }

  lemma InitialJoint(x: End, y: End)
    requires Initial(x) && Initial(y)
    ensures Joint(x, y)
  {}

  lemma Opened(x: End, y: End, f: FlowValue, port: int, cep: int)
    requires Initial(x) && f.allocInvokeId == 0
    ensures var r := OpenStep(x, y, f, port, cep);
      Single(r.me, AllocPend, 0) && r.me.node.invoke == x.node.invoke && r.other == y && r.me.inbox == x.inbox
  {}

  lemma Numbers(x: End, y: End, qosId: string)
    requires Joint(x, y) && Single(x, AllocPend, 0)
    ensures var r := AllocateStep(x, y, 0, Ready(qosId, true));
      && Joint(r.me, r.other) && Single(r.me, AllocPend, x.node.invoke + 1) && r.me.inbox == x.inbox
      && r.other.node == y.node && r.other.book == y.book && y.inbox <= r.other.inbox
      && exists p :: RequestFor(p, r.other.inbox, 0)
  {
    AllocateSendsRequest(x, y, 0, qosId);
    AllocateKeeps(x, y, 0, Ready(qosId, true));
    OwnFacts(x, y, 0);
    AllocateExactly(x.node, 0, Ready(qosId, true));
    hide Joint, AllocateRequest, Moves;
  }

  lemma Collide(x: End, y: End, id: int, p: Packet, port: int, cep: int, src: Address, dst: Address, accepted: bool)
    requires Joint(x, y) && Single(x, AllocPend, id) && Single(y, AllocPend, id)
    requires RequestFor(p, x.inbox, 0) && FreshKey(x.node.table, port, cep)
    ensures CreateStep(x, y, p, port, cep, src, dst, accepted) == Both(x, y)
  {
    assert PacketOk(y, p);
    assert x.node.table[0].flow.allocInvokeId == p.body.flow.allocInvokeId;
    RequestDroppedExactly(x, y, p, port, cep, src, dst, accepted);
  }

  /** Two allocators whose invoke-id counters are equal each open a flow to the other and request it:
      one allocator after both requests, seen from the first and from the second. */
  function Crossed(x: End, y: End, f: FlowValue, g: FlowValue, port: int, cep: int, qosId: string): Both {
    var s1 := OpenStep(x, y, f, port, cep);
    var s2 := OpenStep(s1.other, s1.me, g, port, cep);
    var s3 := if 0 < |s2.other.node.table| then AllocateStep(s2.other, s2.me, 0, Ready(qosId, true)) else s2;
    if 0 < |s3.other.node.table| then AllocateStep(s3.other, s3.me, 0, Ready(qosId, true)) else s3
  }

  lemma CrossedState(x: End, y: End, f: FlowValue, g: FlowValue, port: int, cep: int, qosId: string)
    requires Initial(x) && Initial(y) && x.node.invoke == y.node.invoke && port >= 0 && cep >= 0
    requires Undirected(f) && Undirected(g) && f.allocInvokeId == 0 && g.allocInvokeId == 0
    ensures var s, id := Crossed(x, y, f, g, port, cep, qosId), x.node.invoke + 1;
      && Joint(s.me, s.other) && Joint(s.other, s.me)
      && Single(s.me, AllocPend, id) && Single(s.other, AllocPend, id)
      && (exists p :: RequestFor(p, s.me.inbox, 0)) && (exists p :: RequestFor(p, s.other.inbox, 0))
  {
    hide Half, OpenStep, AllocateStep, Moves;
    InitialJoint(x, y);
    OpenKeeps(x, y, f, port, cep);
    Opened(x, y, f, port, cep);
    var s1 := OpenStep(x, y, f, port, cep);
    OpenKeeps(s1.other, s1.me, g, port, cep);
    Opened(s1.other, s1.me, g, port, cep);
    var s2 := OpenStep(s1.other, s1.me, g, port, cep);
    Numbers(s2.other, s2.me, qosId);
    var s3 := AllocateStep(s2.other, s2.me, 0, Ready(qosId, true));
    Numbers(s3.other, s3.me, qosId);
    var s4 := AllocateStep(s3.other, s3.me, 0, Ready(qosId, true));
    var p :| RequestFor(p, s3.other.inbox, 0);
    assert RequestFor(p, s4.me.inbox, 0);
  }

  /** Then both M_CREATEs carry the same invoke-id, and each side drops the other's, whenever and
      however often it arrives, although neither has an entry for it. */
  lemma CrossingRequestsDropped(x: End, y: End, f: FlowValue, g: FlowValue, port: int, cep: int, qosId: string,
                                p: Packet, port': int, cep': int, src: Address, dst: Address, accepted: bool)
    requires Initial(x) && Initial(y) && x.node.invoke == y.node.invoke && port >= 0 && cep >= 0
    requires Undirected(f) && Undirected(g) && f.allocInvokeId == 0 && g.allocInvokeId == 0
    ensures var s := Crossed(x, y, f, g, port, cep, qosId);
      && (exists q :: RequestFor(q, s.me.inbox, 0)) && (exists q :: RequestFor(q, s.other.inbox, 0))
      && (RequestFor(p, s.me.inbox, 0) && FreshKey(s.me.node.table, port', cep') ==>
            CreateStep(s.me, s.other, p, port', cep', src, dst, accepted) == s)
      && (RequestFor(p, s.other.inbox, 0) && FreshKey(s.other.node.table, port', cep') ==>
            CreateStep(s.other, s.me, p, port', cep', src, dst, accepted) == Both(s.other, s.me))
  {
    hide Joint, Crossed, Single, CreateStep, FreshKey, Initial;
    CrossedState(x, y, f, g, port, cep, qosId);
    var s, id := Crossed(x, y, f, g, port, cep, qosId), x.node.invoke + 1;
    if RequestFor(p, s.me.inbox, 0) && FreshKey(s.me.node.table, port', cep') {
      Collide(s.me, s.other, id, p, port', cep', src, dst, accepted);
    }
    if RequestFor(p, s.other.inbox, 0) && FreshKey(s.other.node.table, port', cep') {
      Collide(s.other, s.me, id, p, port', cep', src, dst, accepted);
    }
  }
}
