/** Whole runs of two flow allocators: agreement of the endpoints, one instance for each request,
    agreement on deallocation, and refusal. */
module FlowRuns {
  import opened Names
  import opened Flow
  import opened FlowTable
  import opened FlowAllocation
  import opened FlowNetwork

  /** A step of the left or of the right allocator. */
  datatype Move = Move(left: bool, action: Action)

  /** The state with the allocator on the given side first. */
  function View(s: Both, left: bool): Both { if left then s else Both(s.other, s.me) }

  ghost predicate Possible(s: Both, m: Move) { Enabled(View(s, m.left).me, m.action) }

  ghost function After(s: Both, m: Move): Both
    requires Possible(s, m)
  {
    View(Step(View(s, m.left).me, View(s, m.left).other, m.action), m.left)
  }

  /** Nothing has happened; the invoke-id counter may start anywhere. */
  ghost predicate Initial(x: End) { x == End(Node([], x.node.invoke), Book([], map[], {}, {}, {}), {}) }

  ghost predicate IsRun(run: seq<Both>, moves: seq<Move>) {
    && |run| == |moves| + 1
    && Initial(run[0].me) && Initial(run[0].other)
    && forall k :: 0 <= k < |moves| ==> Possible(run[k], moves[k]) && run[k + 1] == After(run[k], moves[k])
  }

  ghost predicate Good(s: Both) { Joint(s.me, s.other) }

  lemma GoodEitherWay(s: Both, left: bool)
    requires Good(s)
    ensures Joint(View(s, left).me, View(s, left).other)
  {
    hide Half;
  }

  /** A move as seen from either side: the mover makes a step, and to the other one it only sends. */
  lemma MoveKeeps(s: Both, m: Move)
    requires Good(s) && Possible(s, m)
    ensures Good(After(s, m))
    ensures var v, w := View(s, m.left), View(After(s, m), m.left);
      w == Step(v.me, v.other, m.action) && Moves(v.me, v.other, w, Concerned(v.me, v.other, m.action))
  {
    hide Half, Step, Moves, Concerned, Enabled;
    GoodEitherWay(s, m.left);
    StepKeepsInvariant(View(s, m.left).me, View(s, m.left).other, m.action);
  }

  lemma {:induction false} RunKeepsInvariant(run: seq<Both>, moves: seq<Move>, k: nat)
    requires IsRun(run, moves) && k < |run|
    ensures Good(run[k])
  {
    if k > 0 {
      hide Good, Possible, After, Initial;
      RunKeepsInvariant(run, moves, k - 1);
      MoveKeeps(run[k - 1], moves[k - 1]);
    }
  }

  lemma GoodAt(run: seq<Both>, moves: seq<Move>, k: nat, left: bool)
    requires IsRun(run, moves) && k < |run|
    ensures Joint(View(run[k], left).me, View(run[k], left).other)
  {
    hide Good, Possible, After, Initial;
    RunKeepsInvariant(run, moves, k);
    GoodEitherWay(run[k], left);
  }

  // ---- Endpoints ----

  /** Entry j of y is the other end of own entry i of x, with the identifiers of both exchanged. */
  ghost predicate Agreed(x: End, y: End, i: nat, j: nat) {
    && i < |x.node.table| && j < |y.node.table| && Ends(x, y, i, j) && j in y.book.accepted
    && Compare(Swap(y.node.table[j].flow), x.node.table[i].flow)
    && y.node.table[j].flow.allocInvokeId == x.node.table[i].flow.allocInvokeId
  }

  lemma PeersAgree(me: End, other: End, i: nat)
    requires Joint(me, other) && i in me.book.peer && i < |me.node.table| && IsOwn(me, i)
    ensures Agreed(me, other, i, me.book.peer[i])
  {
    hide Distinct;
    assert EntryOk(me, other, i) && EntryOk(other, me, me.book.peer[i]);
  }

  /** Endpoint agreement in every state of every run, whatever is duplicated and whenever
      deallocation is asked for: a flow that the requester transfers data on was accepted by the
      responder's application, and the two descriptions, seen from one side, compare equal, so that
      each side's remote port and CEP ids are the other's local ones. */
  lemma EndpointAgreement(run: seq<Both>, moves: seq<Move>, k: nat, left: bool, i: nat)
    requires IsRun(run, moves) && k < |run|
    ensures var x, y := View(run[k], left).me, View(run[k], left).other;
      i < |x.node.table| && IsOwn(x, i) && (x.node.table[i].status == Transfer || x.node.table[i].status == Deallocated) ==>
        exists j: nat :: Agreed(x, y, i, j) && Established(y.node.table[j].status)
  {
    hide Initial, Possible, After;
    GoodAt(run, moves, k, left);
    var x, y := View(run[k], left).me, View(run[k], left).other;
    if i < |x.node.table| && IsOwn(x, i)
       && (x.node.table[i].status == Transfer || x.node.table[i].status == Deallocated) {
      assert EntryOk(x, y, i);
      PeersAgree(x, y, i);
      assert EntryOk(y, x, x.book.peer[i]);
    }
  }

  // ---- At most one instance for each request ----

  ghost predicate MadeFor(x: End, y: End, j: nat) {
    && j < |x.node.table| && j < |x.book.roles| && x.book.roles[j].For?
    && var i := x.book.roles[j].origin;
       i < |y.node.table| && IsOwn(y, i) && Mirrors(x.node.table[j].flow, y.node.table[i].flow)
  }

  /** Duplicate suppression in every state of every run: however often requests are delivered, the
      entries made for requests of the other allocator have pairwise distinct, assigned invoke-ids,
      and each mirrors the one own entry of the other allocator that it was made for. */
  lemma AtMostOneInstancePerRequest(run: seq<Both>, moves: seq<Move>, k: nat, left: bool)
    requires IsRun(run, moves) && k < |run|
    ensures var x, y := View(run[k], left).me, View(run[k], left).other;
      && |x.book.roles| == |x.node.table|
      && (forall j :: 0 <= j < |x.node.table| && x.book.roles[j].For? ==>
            MadeFor(x, y, j) && x.node.table[j].flow.allocInvokeId != 0)
      && (forall i, j :: 0 <= i < |x.node.table| && 0 <= j < |x.node.table| && i != j
                         && x.book.roles[i].For? && x.book.roles[j].For? ==>
            x.node.table[i].flow.allocInvokeId != x.node.table[j].flow.allocInvokeId
            && x.book.roles[i] != x.book.roles[j])
  {
    hide Initial, Possible, After;
    GoodAt(run, moves, k, left);
    var x, y := View(run[k], left).me, View(run[k], left).other;
    hide Distinct;
    forall j | 0 <= j < |x.node.table| && x.book.roles[j].For?
      ensures MadeFor(x, y, j) && x.node.table[j].flow.allocInvokeId != 0
    {
      assert EntryOk(x, y, j);
    }
  }

  /** A request is dropped exactly when its invoke-id is in the table already: that of the entry made
      for it before, of a request of the responder's own, or of a flow with anybody else. */
  lemma RequestDroppedExactly(me: End, other: End, p: Packet, port: int, cep: int, src: Address, dst: Address, accepted: bool)
    requires Joint(me, other) && p in me.inbox && p.body.Create? && FreshKey(me.node.table, port, cep)
    ensures
      CreateStep(me, other, p, port, cep, src, dst, accepted) == Both(me, other)
      <==> exists k :: 0 <= k < |me.node.table| && me.node.table[k].flow.allocInvokeId == p.body.flow.allocInvokeId
  {
    hide Joint, FreshKey, Mirrors;
    CreateExactly(me, other, p, port, cep, src, dst, accepted);
    assert Packets([], |me.node.table|) == {};
    assert Sends(other, [], |me.node.table|) == other;
  }

  lemma RepeatedRequestIgnored(me: End, other: End, p: Packet, j: nat, port: int, cep: int,
                               src: Address, dst: Address, accepted: bool)
    requires Joint(me, other) && p in me.inbox && p.body.Create? && FreshKey(me.node.table, port, cep)
    requires IsFor(me, j, p.who)
    ensures CreateStep(me, other, p, port, cep, src, dst, accepted) == Both(me, other)
  {
    hide Distinct, FreshKey;
    assert PacketOk(other, p) && EntryOk(me, other, j);
    assert me.node.table[j].flow.allocInvokeId == p.body.flow.allocInvokeId;
    RequestDroppedExactly(me, other, p, port, cep, src, dst, accepted);
  }

  // ---- Refusal ----

  /** The request of entry i was refused by entry j. */
  ghost predicate Refused(x: End, y: End, i: nat, j: nat) {
    && i < |x.node.table| && j < |y.node.table| && Ends(x, y, i, j)
    && j !in y.book.accepted && y.node.table[j].status != AllocPend
  }

  lemma RefusedStays(s: Both, m: Move, left: bool, i: nat, j: nat)
    requires Good(s) && Possible(s, m) && Refused(View(s, left).me, View(s, left).other, i, j)
    ensures Refused(View(After(s, m), left).me, View(After(s, m), left).other, i, j)
  {
    hide Half, After, Possible;
    MoveKeeps(s, m);
    hide Concerned, Only, KeepsIdentity;
  }

  lemma RefusedNotEstablished(x: End, y: End, i: nat, j: nat)
    requires Joint(x, y) && Refused(x, y, i, j)
    ensures i !in x.book.peer && Unestablished(x.node.table[i].status)
  {
    RefusedHasNoPeer(x, y, i, j);
    assert EntryOk(x, y, i);
  }

  /** A refusal is final: once the responder has refused a request, the requester's flow is neither
      transferring nor deallocated in any later state, whatever its retry policy, because the retries
      carry the same invoke-id and are taken for duplicates. */
  lemma {:induction false} RefusalIsFinal(run: seq<Both>, moves: seq<Move>, k: nat, l: nat, left: bool, i: nat, j: nat)
    requires IsRun(run, moves) && k <= l < |run|
    requires Refused(View(run[k], left).me, View(run[k], left).other, i, j)
    ensures var x, y := View(run[l], left).me, View(run[l], left).other;
      Refused(x, y, i, j) && i !in x.book.peer && Unestablished(x.node.table[i].status)
    decreases l
  {
    hide Initial, Possible, After, Refused, Good;
    if k < l {
      RefusalIsFinal(run, moves, k, l - 1, left, i, j);
      RunKeepsInvariant(run, moves, l - 1);
      RefusedStays(run[l - 1], moves[l - 1], left, i, j);
    }
    GoodAt(run, moves, l, left);
    RefusedNotEstablished(View(run[l], left).me, View(run[l], left).other, i, j);
  }

  /** An entry in the status of a refusal is one: its application never accepted. */
  lemma NegativeIsRefused(x: End, y: End, i: nat, j: nat)
    requires Joint(x, y) && Ends(x, y, i, j) && i < |x.node.table| && j < |y.node.table|
    requires y.node.table[j].status == AllocNega
    ensures Refused(x, y, i, j)
  {
    hide Distinct;
    assert EntryOk(y, x, j);
  }

  // ---- Deallocation ----

  /** The requester's side in every state of every run: an own entry that is deallocated while the
      other side never asked has a deallocated peer. */
  lemma RequesterDeallocated(run: seq<Both>, moves: seq<Move>, k: nat, left: bool, i: nat)
    requires IsRun(run, moves) && k < |run|
    ensures var x, y := View(run[k], left).me, View(run[k], left).other;
      i < |x.node.table| && IsOwn(x, i) && x.node.table[i].status == Deallocated ==>
        && i in x.book.peer && Agreed(x, y, i, x.book.peer[i])
        && (x.book.peer[i] !in y.book.asked ==> y.node.table[x.book.peer[i]].status == Deallocated)
  {
    hide Initial, Possible, After;
    GoodAt(run, moves, k, left);
    var x, y := View(run[k], left).me, View(run[k], left).other;
    if i < |x.node.table| && IsOwn(x, i) && x.node.table[i].status == Deallocated {
      assert EntryOk(x, y, i);
      PeersAgree(x, y, i);
    }
  }

  /** The responder's side: when its entry j is deallocated and the requester never asked, the
      requester's entry is deallocated as well, exactly unless a positive response has reached it
      after it was deallocated. */
  lemma ResponderDeallocated(run: seq<Both>, moves: seq<Move>, k: nat, left: bool, i: nat, j: nat)
    requires IsRun(run, moves) && k < |run|
    ensures var x, y := View(run[k], left).me, View(run[k], left).other;
      Ends(x, y, i, j) && i < |x.node.table| && j < |y.node.table|
      && y.node.table[j].status == Deallocated && i !in x.book.asked ==>
        && Agreed(x, y, i, j)
        && (x.node.table[i].status == Deallocated <==> i !in x.book.reopened)
        && (x.node.table[i].status == Transfer <==> i in x.book.reopened)
  {
    hide Initial, Possible, After;
    GoodAt(run, moves, k, left);
    var x, y := View(run[k], left).me, View(run[k], left).other;
    if Ends(x, y, i, j) && i < |x.node.table| && j < |y.node.table|
       && y.node.table[j].status == Deallocated && i !in x.book.asked {
      assert EntryOk(y, x, j) && EntryOk(x, y, i);
      PeersAgree(x, y, i);
      OneAnswerer(x, y, j, x.book.peer[i], i);
    }
  }

  /** A move that delivers a positive response to own entry i, which is deallocated. */
  ghost predicate Reopens(s: Both, m: Move, left: bool, i: nat) {
    && m.left == left && m.action.Positive?
    && Target(View(s, left).other, m.action.p.who) == i
    && i < |View(s, left).me.node.table| && View(s, left).me.node.table[i].status == Deallocated
  }

  /** A move that delivers an M_DELETE to own entry i, which answers it. */
  ghost predicate Closes(s: Both, m: Move, left: bool, i: nat) {
    && m.left == left && m.action.DeleteArrives? && m.action.p.body.Delete?
    && Target(View(s, left).other, m.action.p.who) == i
    && Dispatch(View(s, left).me.node, DeleteRequest(Arrived(m.action.p.body.flow)), 0).sent != []
  }

  lemma ReopenedStep(s: Both, m: Move, left: bool, i: nat)
    requires Possible(s, m)
    ensures i in View(After(s, m), left).me.book.reopened <==>
              Reopens(s, m, left, i) || (i in View(s, left).me.book.reopened && !Closes(s, m, left, i))
  {
    hide Dispatch, AllocateRequest, DeallocateRequest, CreateRequest, AllocateResponse, Target, Packets, FreshKey, Fits,
      OpenFlow;
    var v := View(s, m.left);
    if m.left == left {
      match m.action
      case Positive(p) =>
      case DeleteArrives(p) =>
      case _ =>
    }
  }

  ghost predicate ReopenedAt(run: seq<Both>, moves: seq<Move>, l: nat, k: nat, left: bool, i: nat)
    requires k < |run| == |moves| + 1
  {
    l < k && Reopens(run[l], moves[l], left, i) && forall n :: l < n < k ==> !Closes(run[n], moves[n], left, i)
  }

  ghost predicate ReopenedBefore(run: seq<Both>, moves: seq<Move>, k: nat, left: bool, i: nat)
    requires k < |run| == |moves| + 1
  {
    exists l: nat :: ReopenedAt(run, moves, l, k, left, i)
  }

  lemma ReopenedNext(run: seq<Both>, moves: seq<Move>, k: nat, left: bool, i: nat)
    requires k < |moves| && |run| == |moves| + 1
    ensures ReopenedBefore(run, moves, k + 1, left, i) <==>
              Reopens(run[k], moves[k], left, i)
              || (ReopenedBefore(run, moves, k, left, i) && !Closes(run[k], moves[k], left, i))
  {
    hide Reopens, Closes;
    if ReopenedBefore(run, moves, k + 1, left, i) {
      var l: nat :| ReopenedAt(run, moves, l, k + 1, left, i);
      assert l < k ==> ReopenedAt(run, moves, l, k, left, i);
    }
    if Reopens(run[k], moves[k], left, i) {
      assert ReopenedAt(run, moves, k, k + 1, left, i);
    } else if ReopenedBefore(run, moves, k, left, i) && !Closes(run[k], moves[k], left, i) {
      var l: nat :| ReopenedAt(run, moves, l, k, left, i);
      assert ReopenedAt(run, moves, l, k + 1, left, i);
    }
  }

  lemma NotReopenedYet(run: seq<Both>, moves: seq<Move>, left: bool, i: nat)
    requires IsRun(run, moves)
    ensures |run| == |moves| + 1
    ensures i !in View(run[0], left).me.book.reopened && !ReopenedBefore(run, moves, 0, left, i)
  {
    hide Possible, After;
  }

  lemma RunNext(run: seq<Both>, moves: seq<Move>, k: nat)
    requires IsRun(run, moves) && k < |moves|
    ensures |run| == |moves| + 1 && Possible(run[k], moves[k]) && run[k + 1] == After(run[k], moves[k])
  {
    hide Possible, After, Initial;
  }

  /** `reopened` is what it is said to be: some positive response was delivered to the deallocated
      entry, and no M_DELETE has closed it since. */
  lemma {:induction false} ReopenedExactly(run: seq<Both>, moves: seq<Move>, k: nat, left: bool, i: nat)
    requires IsRun(run, moves) && k < |run|
    ensures |run| == |moves| + 1
    ensures i in View(run[k], left).me.book.reopened <==> ReopenedBefore(run, moves, k, left, i)
  {
    hide IsRun, Possible, After, Reopens, Closes, View, ReopenedBefore;
    NotReopenedYet(run, moves, left, i);
    if k > 0 {
      ReopenedExactly(run, moves, k - 1, left, i);
      RunNext(run, moves, k - 1);
      ReopenedStep(run[k - 1], moves[k - 1], left, i);
      ReopenedNext(run, moves, k - 1, left, i);
    }
  }
}
