/** Deallocation run to completion, whatever else happens in between: the status of both ends is what
    the deliveries so far make it. */
module FlowDeallocation {
  import opened Names
  import opened Flow
  import opened FlowTable
  import opened FlowAllocation
  import opened FlowNetwork
  import opened FlowRuns

  // ---- The two ends of an established flow ----

  /** Entry a of x and entry b of y are the two ends of one flow. */
  ghost predicate Paired(x: End, y: End, a: nat, b: nat) {
    && a < |x.node.table| && b < |y.node.table|
    && ((IsOwn(x, a) && a in x.book.peer && x.book.peer[a] == b)
        || (IsOwn(y, b) && b in y.book.peer && y.book.peer[b] == a))
  }

  lemma PairFacts(x: End, y: End, a: nat, b: nat)
    requires Joint(x, y) && Paired(x, y, a, b)
    ensures Sized(x) && Sized(y) && !x.book.roles[a].Foreign? && !y.book.roles[b].Foreign?
    ensures Target(y, b) == a && Target(x, a) == b
    ensures Compare(Swap(y.node.table[b].flow), x.node.table[a].flow)
    ensures x.node.table[a].fai.Fai? && y.node.table[b].fai.Fai?
    ensures IsOwn(x, a) ==> a in x.book.peer && x.book.peer[a] == b
    ensures Established(x.node.table[a].status) && Established(y.node.table[b].status)
  {
    hide Distinct;
    if IsOwn(x, a) && a in x.book.peer && x.book.peer[a] == b {
      PeersAgree(x, y, a);
      assert EntryOk(x, y, a) && EntryOk(y, x, b);
    } else {
      PeersAgree(y, x, b);
      assert EntryOk(y, x, b) && EntryOk(x, y, a);
    }
  }

  /** An M_DELETE from b reaches a, unless it was sent before b knew of a. */
  lemma DeleteReaches(x: End, y: End, a: nat, b: nat, p: Packet)
    requires Joint(x, y) && Paired(x, y, a, b) && p in x.inbox && p.body.Delete? && p.who == b
    requires !Undirected(p.body.flow)
    ensures b in y.book.asked && x.node.table[a].fai.Fai?
    ensures Dispatch(x.node, DeleteRequest(Arrived(p.body.flow)), 0)
            == HandledReaction(x.node, a, DeleteRequest(Arrived(p.body.flow)))
  {
    PairFacts(x, y, a, b);
    assert PacketOk(y, p);
    SignalTo(x.node, DeleteRequest(Arrived(p.body.flow)), a);
  }

  lemma AnswerReaches(x: End, y: End, a: nat, b: nat, p: Packet)
    requires Joint(x, y) && Paired(x, y, a, b) && p in x.inbox && p.body.DeleteResponse? && p.who == b
    ensures x.node.table[a].fai.Fai?
    ensures Dispatch(x.node, DeleteAnswer(Arrived(p.body.flow)), 0)
            == HandledReaction(x.node, a, DeleteAnswer(Arrived(p.body.flow)))
  {
    PairFacts(x, y, a, b);
    assert PacketOk(y, p);
    SignalTo(x.node, DeleteAnswer(Arrived(p.body.flow)), a);
  }

  predicate DeleteFor(p: Packet, sent: set<Packet>, who: nat) {
    p in sent && p.body.Delete? && p.who == who && !Undirected(p.body.flow)
  }

  predicate AnswerFor(p: Packet, sent: set<Packet>, who: nat) { p in sent && p.body.DeleteResponse? && p.who == who }

  lemma SentOne(m: Message, who: nat)
    ensures Packets([m], who) == {Packet(m, who)}
  {
    assert m in [m];
  }

  lemma SentNone(who: nat)
    ensures Packets([], who) == {}
  {}

  lemma DeleteEffect(x: End, y: End, a: nat, b: nat, p: Packet)
    requires Joint(x, y) && Paired(x, y, a, b) && p in x.inbox && p.body.Delete? && p.who == b
    requires !Undirected(p.body.flow)
    ensures var r := DeleteStep(x, y, p);
      && a < |r.me.node.table| == |x.node.table| && r.me.inbox == x.inbox && r.me.book.roles == x.book.roles
      && r.other.node == y.node && r.other.book == y.book && y.inbox <= r.other.inbox
      && (forall q :: q in r.other.inbox ==> q in y.inbox || q.body.DeleteResponse?)
      && (x.node.table[a].status != Transfer ==> r.me.node.table[a].status == x.node.table[a].status && r.other.inbox == y.inbox)
      && (x.node.table[a].status == Transfer ==>
            r.me.node.table[a].status == Deallocated
            && AnswerFor(Packet(DeleteResponse(r.me.node.table[a].flow), a), r.other.inbox, a))
      && r.me.book.peer == x.book.peer && r.me.book.asked == x.book.asked
  {
    PairFacts(x, y, a, b);
    DeleteReaches(x, y, a, b, p);
    hide Joint, Dispatch;
    var r := DeleteStep(x, y, p);
    SentNone(a);
    SentOne(DeleteResponse(r.me.node.table[a].flow), a);
    assert y.inbox + {} == y.inbox;
  }

  lemma AnswerEffect(x: End, y: End, a: nat, b: nat, p: Packet)
    requires Joint(x, y) && Paired(x, y, a, b) && p in x.inbox && p.body.DeleteResponse? && p.who == b
    ensures var r := AnswerStep(x, y, p);
      && a < |r.me.node.table| == |x.node.table| && r.other == y && r.me.book == x.book && r.me.inbox == x.inbox
      && r.me.node.table[a].status ==
           (if x.node.table[a].status == DeallocPend then Deallocated else x.node.table[a].status)
  {
    PairFacts(x, y, a, b);
    AnswerReaches(x, y, a, b, p);
    hide Joint, Dispatch;
    SentNone(a);
    assert y.inbox + {} == y.inbox;
  }

  /** What is past allocation is not allocated or answered again. */
  lemma AllocateIdle(x: End, y: End, a: nat, o: Outcome)
    requires Joint(x, y) && a < |x.node.table| && IsOwn(x, a) && x.node.table[a].status != AllocPend
    ensures AllocateStep(x, y, a, o) == Both(x, y)
  {
    OwnFacts(x, y, a);
    AllocateExactly(x.node, a, o);
    hide Joint, AllocateRequest;
    SameUpdate(x.node, a);
    SentNone(a);
    assert y.inbox + {} == y.inbox;
  }

  lemma RespondIdle(x: End, y: End, a: nat, positive: bool, ready: bool, bound: bool)
    requires Joint(x, y) && a < |x.node.table| && a < |x.book.roles| && x.book.roles[a].For?
    requires x.node.table[a].status != AllocPend
    ensures RespondStep(x, y, a, positive, ready, bound) == Both(x, y)
  {
    OwnFacts(x, y, a);
    RespondExactly(x.node, a, positive, ready, bound);
    hide Joint, AllocateResponse;
    SameUpdate(x.node, a);
    SentNone(a);
    assert y.inbox + {} == y.inbox && x.book.accepted + {} == x.book.accepted;
  }

  /** A positive response makes its entry transfer, and sends nothing. */
  lemma PositiveEffect(x: End, y: End, p: Packet)
    requires Joint(x, y) && p in x.inbox && p.body.CreateResponse? && p.body.positive
    ensures var r, a := PositiveStep(x, y, p), Target(y, p.who);
      && a < |r.me.node.table| == |x.node.table| && r.me.node.table[a].status == Transfer && IsOwn(x, a)
      && r.other == y && r.me.inbox == x.inbox && r.me.book.roles == x.book.roles && r.me.book.asked == x.book.asked
      && r.me.book.peer == x.book.peer[a := p.who] && (a in x.book.peer ==> x.book.peer[a] == p.who)
  {
    PositiveExactly(x, y, p);
    hide Joint, Dispatch;
    SentNone(Target(y, p.who));
    assert y.inbox + {} == y.inbox;
  }

  /** A negative response never reaches an established flow. */
  lemma NoNegative(x: End, y: End, a: nat, p: Packet, retry: bool)
    requires Joint(x, y) && p in x.inbox && p.body.CreateResponse? && !p.body.positive && Target(y, p.who) == a
    ensures a !in x.book.peer && IsOwn(x, a)
  {
    NegativeExactly(x, y, p, retry);
  }

  /** A deallocation message sent before its sender knew the other end does nothing. */
  lemma StrayDelete(x: End, y: End, p: Packet)
    requires Joint(x, y) && p in x.inbox && p.body.Delete? && IsOwn(y, p.who) && Undirected(p.body.flow)
    ensures DeleteStep(x, y, p) == Both(x, y)
  {
    DeallocationFinds(x, y, p);
    SignalToNone(x, DeleteRequest(Arrived(p.body.flow)));
    hide Joint, Dispatch;
    SentNone(Target(y, p.who));
    SameReopened(x.book);
    assert y.inbox + {} == y.inbox;
  }

  /** Whose message concerns a: that of its other end, or a stray one. */
  lemma WhoConcerns(x: End, y: End, a: nat, b: nat, p: Packet)
    requires Joint(x, y) && Paired(x, y, a, b) && p in x.inbox && !p.body.Create? && Target(y, p.who) == a
    ensures p.who == b || (p.body.Delete? && IsOwn(y, p.who) && Undirected(p.body.flow))
  {
    hide Distinct;
    assert PacketOk(y, p);
    PairFacts(x, y, a, b);
    if IsFor(y, p.who, a) {
      assert EntryOk(y, x, p.who);
      assert IsOwn(x, a);
      assert EntryOk(y, x, b);
      OneAnswerer(x, y, p.who, b, a);
    } else if p.who in y.book.peer {
      assert EntryOk(y, x, p.who);
      assert IsFor(x, a, p.who);
      if IsOwn(y, b) { assert EntryOk(y, x, b); }
    }
  }

  lemma DeleteLeaves(x: End, y: End, p: Packet)
    requires Joint(x, y) && p in x.inbox && p.body.Delete?
    requires var k := Target(y, p.who); k < |x.node.table| ==> x.node.table[k].status != Transfer
    ensures DeleteStep(x, y, p) == Both(x, y)
  {
    DeallocationExactly(x, y, p, DeleteRequest(Arrived(p.body.flow)));
    hide Joint, Dispatch, Target;
    SameUpdate(x.node, Target(y, p.who));
    SentNone(Target(y, p.who));
    SameReopened(x.book);
    assert y.inbox + {} == y.inbox;
  }

  lemma AnswerLeaves(x: End, y: End, p: Packet)
    requires Joint(x, y) && p in x.inbox && p.body.DeleteResponse?
    requires var k := Target(y, p.who); k < |x.node.table| ==> x.node.table[k].status != DeallocPend
    ensures AnswerStep(x, y, p) == Both(x, y)
  {
    DeallocationExactly(x, y, p, DeleteAnswer(Arrived(p.body.flow)));
    hide Joint, Dispatch, Target;
    SameUpdate(x.node, Target(y, p.who));
    SentNone(Target(y, p.who));
    assert y.inbox + {} == y.inbox;
  }

  // ---- Deallocation, delivery by delivery ----

  /** a asked for deallocation; d: an M_DELETE for the flow has been delivered to b; r: an M_DELETE_R
      for it has been delivered to a. */
  ghost predicate Statuses(x: End, y: End, a: nat, b: nat, d: bool, r: bool) {
    && a < |x.node.table| && b < |y.node.table|
    && x.node.table[a].status == (if r then Deallocated else DeallocPend)
    && y.node.table[b].status == (if d then Deallocated else Transfer)
  }

  ghost predicate Phase(x: End, y: End, a: nat, b: nat, d: bool, r: bool) {
    && Paired(x, y, a, b) && b !in y.book.asked
    && Statuses(x, y, a, b, d, r) && (r ==> d)
    && (exists p :: DeleteFor(p, y.inbox, a))
    && (forall p :: p in y.inbox && p.body.Delete? && p.who == a ==> !Undirected(p.body.flow))
    && (d <==> exists q :: AnswerFor(q, x.inbox, b))
  }

  lemma PhaseElsewhere(x: End, y: End, r: Both, k: nat, a: nat, b: nat, d: bool, done: bool)
    requires Moves(x, y, r, k) && k != a && Phase(x, y, a, b, d, done)
    ensures Phase(r.me, r.other, a, b, d, done)
  {
    hide Grows;
    assert r.me.node.table[a] == x.node.table[a] && SameMember(x.book, r.me.book, a);
    var p :| DeleteFor(p, y.inbox, a);
    assert DeleteFor(p, r.other.inbox, a);
    if d {
      var q :| AnswerFor(q, x.inbox, b);
      assert AnswerFor(q, r.me.inbox, b);
    } else {
      forall q ensures !AnswerFor(q, r.me.inbox, b) { assert !AnswerFor(q, x.inbox, b); }
    }
  }

  lemma PhaseElsewhereOther(x: End, y: End, r: Both, k: nat, a: nat, b: nat, d: bool, done: bool)
    requires Moves(y, x, r, k) && k != b && Phase(x, y, a, b, d, done)
    ensures Phase(r.other, r.me, a, b, d, done)
  {
    hide Grows;
    assert r.me.node.table[b] == y.node.table[b] && SameMember(y.book, r.me.book, b);
    var p :| DeleteFor(p, y.inbox, a);
    assert DeleteFor(p, r.me.inbox, a);
    if d {
      var q :| AnswerFor(q, x.inbox, b);
      assert AnswerFor(q, r.other.inbox, b);
    } else {
      forall q ensures !AnswerFor(q, r.other.inbox, b) { assert !AnswerFor(q, x.inbox, b); }
    }
  }

  /** A step that concerns a and does nothing to it. */
  lemma Idle(x: End, y: End, act: Action, a: nat, b: nat)
    requires Joint(x, y) && Enabled(x, act) && Paired(x, y, a, b) && Concerned(x, y, act) == a
    requires act != Deallocate(a) && !act.Positive? && !act.AnswerArrives?
    requires act.DeleteArrives? ==> IsOwn(y, act.p.who) && Undirected(act.p.body.flow)
    ensures Step(x, y, act) == Both(x, y)
  {
    hide Joint, Target, Mirrors, OpenStep, AllocateStep, PositiveStep, NegativeStep, DeallocateStep, DeleteStep, AnswerStep,
      RelayStep, CreateStep, RespondStep, OpenOtherStep, ChangeOtherStep;
    PairFacts(x, y, a, b);
    match act
    case Allocate(_, o) => AllocateIdle(x, y, a, o);
    case Respond(_, positive, ready, bound) => RespondIdle(x, y, a, positive, ready, bound);
    case Negative(p, retry) => NoNegative(x, y, a, p, retry);
    case DeleteArrives(p) => StrayDelete(x, y, p);
    case _ =>
  }

  lemma AskerAnswered(x: End, y: End, p: Packet, a: nat, b: nat, d: bool, done: bool)
    requires Joint(x, y) && Enabled(x, AnswerArrives(p)) && Phase(x, y, a, b, d, done) && p.who == b
    ensures var r := AnswerStep(x, y, p); Phase(r.me, r.other, a, b, d, true)
  {
    AnswerEffect(x, y, a, b, p);
    hide Joint, AnswerStep;
    var r := AnswerStep(x, y, p);
    assert AnswerFor(p, x.inbox, b);
    assert forall q :: AnswerFor(q, x.inbox, b) ==> AnswerFor(q, r.me.inbox, b);
  }

  /** The asking side takes a step. */
  lemma AskerSteps(x: End, y: End, act: Action, a: nat, b: nat, d: bool, done: bool)
    requires Joint(x, y) && Enabled(x, act) && Phase(x, y, a, b, d, done)
    requires act != Deallocate(a) && !(act.Positive? && act.p.who == b)
    ensures var r := Step(x, y, act);
      Phase(r.me, r.other, a, b, d, done || (act.AnswerArrives? && act.p.who == b))
  {
    hide Joint, Moves, Half, OpenStep, AllocateStep, PositiveStep, NegativeStep, DeallocateStep, DeleteStep, AnswerStep,
      RelayStep, CreateStep, RespondStep, OpenOtherStep, ChangeOtherStep;
    PairFacts(x, y, a, b);
    StepKeepsInvariant(x, y, act);
    var k := Concerned(x, y, act);
    if k != a {
      PhaseElsewhere(x, y, Step(x, y, act), k, a, b, d, done);
    } else if act.AnswerArrives? {
      WhoConcerns(x, y, a, b, act.p);
      AskerAnswered(x, y, act.p, a, b, d, done);
    } else {
      StrayOnly(x, y, act, a, b);
      if act.Positive? { WhoConcerns(x, y, a, b, act.p); }
      Idle(x, y, act, a, b);
    }
  }

  /** Before the other side asks, its entry sends no M_DELETE that a would take. */
  lemma StrayOnly(x: End, y: End, act: Action, a: nat, b: nat)
    requires Joint(x, y) && Enabled(x, act) && Paired(x, y, a, b) && b !in y.book.asked && Concerned(x, y, act) == a
    ensures act.DeleteArrives? ==> IsOwn(y, act.p.who) && Undirected(act.p.body.flow)
  {
    if act.DeleteArrives? {
      WhoConcerns(x, y, a, b, act.p);
      assert PacketOk(y, act.p);
    }
  }

  lemma OtherDeleted(x: End, y: End, p: Packet, a: nat, b: nat, d: bool, done: bool)
    requires Joint(y, x) && Enabled(y, DeleteArrives(p)) && Phase(x, y, a, b, d, done) && p.who == a
    ensures var r := DeleteStep(y, x, p); Phase(r.other, r.me, a, b, true, done)
  {
    assert Paired(y, x, b, a);
    assert DeleteFor(p, y.inbox, a);
    DeleteEffect(y, x, b, a, p);
    hide Joint, DeleteStep;
    var r := DeleteStep(y, x, p);
    assert DeleteFor(p, r.me.inbox, a);
    if d {
      var q :| AnswerFor(q, x.inbox, b);
      assert AnswerFor(q, r.other.inbox, b);
    }
  }

  lemma OtherPositive(x: End, y: End, p: Packet, a: nat, b: nat, d: bool, done: bool)
    requires Joint(y, x) && Enabled(y, Positive(p)) && Phase(x, y, a, b, d, done) && Target(x, p.who) == b && !d
    ensures var r := PositiveStep(y, x, p); Phase(r.other, r.me, a, b, d, done)
  {
    assert Paired(y, x, b, a);
    PositiveEffect(y, x, p);
    WhoConcerns(y, x, b, a, p);
    hide Joint, PositiveStep;
    var r := PositiveStep(y, x, p);
    var q :| DeleteFor(q, y.inbox, a);
    assert DeleteFor(q, r.me.inbox, a);
    forall q ensures !AnswerFor(q, r.other.inbox, b) { assert !AnswerFor(q, x.inbox, b); }
  }

  /** The other side takes a step. */
  lemma OtherSteps(x: End, y: End, act: Action, a: nat, b: nat, d: bool, done: bool)
    requires Joint(y, x) && Enabled(y, act) && Phase(x, y, a, b, d, done)
    requires act != Deallocate(b) && !(act.Positive? && act.p.who == a && d)
    ensures var r := Step(y, x, act);
      Phase(r.other, r.me, a, b, d || (act.DeleteArrives? && act.p.who == a), done)
  {
    hide Joint, Moves, Half, OpenStep, AllocateStep, PositiveStep, NegativeStep, DeallocateStep, DeleteStep, AnswerStep,
      RelayStep, CreateStep, RespondStep, OpenOtherStep, ChangeOtherStep;
    assert Paired(y, x, b, a);
    PairFacts(y, x, b, a);
    StepKeepsInvariant(y, x, act);
    var k := Concerned(y, x, act);
    if k != b {
      PhaseElsewhereOther(x, y, Step(y, x, act), k, a, b, d, done);
    } else if act.DeleteArrives? && act.p.who == a {
      OtherDeleted(x, y, act.p, a, b, d, done);
    } else if act.Positive? {
      WhoConcerns(y, x, b, a, act.p);
      OtherPositive(x, y, act.p, a, b, d, done);
    } else if act.AnswerArrives? {
      WhoConcerns(y, x, b, a, act.p);
      OtherAnswered(x, y, act.p, a, b, d, done);
    } else {
      if act.DeleteArrives? { WhoConcerns(y, x, b, a, act.p); }
      Idle(y, x, act, b, a);
    }
  }

  /** An M_DELETE_R means nothing to b, which did not ask. */
  lemma OtherAnswered(x: End, y: End, p: Packet, a: nat, b: nat, d: bool, done: bool)
    requires Joint(y, x) && Enabled(y, AnswerArrives(p)) && Phase(x, y, a, b, d, done) && p.who == a
    ensures var r := AnswerStep(y, x, p); Phase(r.other, r.me, a, b, d, done)
  {
    assert Paired(y, x, b, a);
    AnswerEffect(y, x, b, a, p);
    hide Joint, AnswerStep;
    var r := AnswerStep(y, x, p);
    var q :| DeleteFor(q, y.inbox, a);
    assert DeleteFor(q, r.me.inbox, a);
  }

  lemma PairDirected(x: End, y: End, a: nat, b: nat)
    requires Joint(x, y) && Paired(x, y, a, b)
    ensures !Undirected(x.node.table[a].flow)
  {
    PairFacts(x, y, a, b);
    hide Distinct;
    assert y.node.table[b].fai.Fai?;
  }

  lemma NoAnswerYet(x: End, y: End, a: nat, b: nat, q: Packet)
    requires Joint(x, y) && Paired(x, y, a, b) && y.node.table[b].status == Transfer
    requires a !in x.book.asked && b !in y.book.asked
    ensures !AnswerFor(q, x.inbox, b)
  {
    hide Distinct;
    PairFacts(x, y, a, b);
    assert EntryOk(y, x, b);
    assert q in x.inbox ==> PacketOk(y, q);
  }

  lemma DeleteMeansAsked(x: End, y: End, p: Packet)
    requires Joint(x, y) && p in y.inbox && p.body.Delete?
    ensures p.who in x.book.asked
  {
    hide Distinct;
    assert PacketOk(x, p);
  }

  lemma AskStarts(x: End, y: End, a: nat, b: nat)
    requires Joint(x, y) && Paired(x, y, a, b) && a !in x.book.asked && b !in y.book.asked
    requires x.node.table[a].status == Transfer && y.node.table[b].status == Transfer
    ensures var r := DeallocateStep(x, y, a); Phase(r.me, r.other, a, b, false, false)
  {
    PairFacts(x, y, a, b);
    PairDirected(x, y, a, b);
    OwnFacts(x, y, a);
    DeallocateExactly(x.node, a);
    forall q ensures !AnswerFor(q, x.inbox, b) { NoAnswerYet(x, y, a, b, q); }
    forall p | p in y.inbox && p.body.Delete? ensures p.who in x.book.asked { DeleteMeansAsked(x, y, p); }
    hide Joint, DeallocateRequest;
    var r := DeallocateStep(x, y, a);
    SentOne(Delete(r.me.node.table[a].flow), a);
    assert DeleteFor(Packet(Delete(r.me.node.table[a].flow), a), r.other.inbox, a);
  }

  // ---- Deallocation over whole runs ----

  /** Between moves k and m an M_DELETE of entry a of the given side was delivered to the other side. */
  ghost predicate DeleteDelivered(moves: seq<Move>, k: nat, m: nat, left: bool, a: nat)
    requires m <= |moves|
  {
    exists l :: k < l < m && moves[l].left != left && moves[l].action.DeleteArrives? && moves[l].action.p.who == a
  }

  /** Between moves k and m an M_DELETE_R of entry b of the other side was delivered to the given side. */
  ghost predicate AnswerDelivered(moves: seq<Move>, k: nat, m: nat, left: bool, b: nat)
    requires m <= |moves|
  {
    exists l :: k < l < m && moves[l].left == left && moves[l].action.AnswerArrives? && moves[l].action.p.who == b
  }

  ghost predicate NoOtherRequest(moves: seq<Move>, k: nat, m: nat, left: bool, a: nat, b: nat)
    requires m <= |moves|
  {
    forall l :: k < l < m ==> moves[l] != Move(left, Deallocate(a)) && moves[l] != Move(!left, Deallocate(b))
  }

  /** A positive response is delivered to the end that asked, or to the other end once it is no longer
      transferring. */
  ghost predicate Disturbs(s: Both, m: Move, left: bool, a: nat, b: nat) {
    && m.action.Positive?
    && ((m.left == left && m.action.p.who == b)
        || (m.left != left && m.action.p.who == a
            && b < |View(s, left).other.node.table| && View(s, left).other.node.table[b].status != Transfer))
  }

  /** The situation when move k is the first request to deallocate a flow that both ends transfer
      data on. */
  ghost predicate FirstRequest(run: seq<Both>, moves: seq<Move>, k: nat, left: bool, a: nat, b: nat) {
    && IsRun(run, moves) && k < |moves| && moves[k] == Move(left, Deallocate(a))
    && var v := View(run[k], left);
    && Paired(v.me, v.other, a, b) && a !in v.me.book.asked && b !in v.other.book.asked
    && v.me.node.table[a].status == Transfer && v.other.node.table[b].status == Transfer
  }

  lemma PhaseMove(s: Both, m: Move, left: bool, a: nat, b: nat, d: bool, done: bool)
    requires Good(s) && Possible(s, m) && Phase(View(s, left).me, View(s, left).other, a, b, d, done)
    requires m != Move(left, Deallocate(a)) && m != Move(!left, Deallocate(b)) && !Disturbs(s, m, left, a, b)
    ensures Phase(View(After(s, m), left).me, View(After(s, m), left).other, a, b,
                  d || (m.left != left && m.action.DeleteArrives? && m.action.p.who == a),
                  done || (m.left == left && m.action.AnswerArrives? && m.action.p.who == b))
  {
    hide Half, Step, Enabled;
    GoodEitherWay(s, true);
    GoodEitherWay(s, false);
    var v := View(s, left);
    if m.left == left {
      hide Phase;
      AskerSteps(v.me, v.other, m.action, a, b, d, done);
    } else {
      OtherSteps(v.me, v.other, m.action, a, b, d, done);
    }
  }

  lemma DeliveredNext(moves: seq<Move>, k: nat, m: nat, left: bool, a: nat, b: nat)
    requires k < m < |moves|
    ensures DeleteDelivered(moves, k, m + 1, left, a) <==>
              DeleteDelivered(moves, k, m, left, a)
              || (moves[m].left != left && moves[m].action.DeleteArrives? && moves[m].action.p.who == a)
    ensures AnswerDelivered(moves, k, m + 1, left, b) <==>
              AnswerDelivered(moves, k, m, left, b)
              || (moves[m].left == left && moves[m].action.AnswerArrives? && moves[m].action.p.who == b)
  {}

  lemma PhaseBegins(run: seq<Both>, moves: seq<Move>, k: nat, left: bool, a: nat, b: nat)
    requires FirstRequest(run, moves, k, left, a, b)
    ensures Phase(View(run[k + 1], left).me, View(run[k + 1], left).other, a, b, false, false)
  {
    hide Joint, Phase, DeallocateStep;
    GoodAt(run, moves, k, left);
    var v := View(run[k], left);
    AskStarts(v.me, v.other, a, b);
    assert run[k + 1] == After(run[k], moves[k]);
  }

  lemma RunMove(run: seq<Both>, moves: seq<Move>, k: nat)
    requires IsRun(run, moves) && k < |moves|
    ensures Good(run[k]) && Possible(run[k], moves[k]) && run[k + 1] == After(run[k], moves[k])
  {
    hide Good, After, Possible, Initial;
    RunKeepsInvariant(run, moves, k);
  }

  lemma {:induction false} PhaseOverRun(run: seq<Both>, moves: seq<Move>, k: nat, m: nat, left: bool, a: nat, b: nat)
    requires FirstRequest(run, moves, k, left, a, b) && k < m < |run| && NoOtherRequest(moves, k, m, left, a, b)
    requires forall l :: k < l < m ==> !Disturbs(run[l], moves[l], left, a, b)
    ensures Phase(View(run[m], left).me, View(run[m], left).other, a, b,
                  DeleteDelivered(moves, k, m, left, a), AnswerDelivered(moves, k, m, left, b))
    decreases m
  {
    hide Phase, Good, After, Possible, Initial, Paired, Disturbs, View;
    if m == k + 1 {
      assert !DeleteDelivered(moves, k, m, left, a) && !AnswerDelivered(moves, k, m, left, b);
      PhaseBegins(run, moves, k, left, a, b);
    } else {
      PhaseOverRun(run, moves, k, m - 1, left, a, b);
      RunMove(run, moves, m - 1);
      DeliveredNext(moves, k, m - 1, left, a, b);
      PhaseMove(run[m - 1], moves[m - 1], left, a, b,
                DeleteDelivered(moves, k, m - 1, left, a), AnswerDelivered(moves, k, m - 1, left, b));
    }
  }

  // ---- The pair stays a pair ----

  lemma PairStays(s: Both, m: Move, left: bool, a: nat, b: nat)
    requires Good(s) && Possible(s, m) && Paired(View(s, left).me, View(s, left).other, a, b)
    ensures Paired(View(After(s, m), left).me, View(After(s, m), left).other, a, b)
  {
    GoodEitherWay(s, left);
    PairFacts(View(s, left).me, View(s, left).other, a, b);
    MoveKeeps(s, m);
    hide Joint, Step, After, Possible, Concerned, Only, KeepsIdentity;
  }

  lemma {:induction false} PairOverRun(run: seq<Both>, moves: seq<Move>, k: nat, m: nat, left: bool, a: nat, b: nat)
    requires IsRun(run, moves) && k <= m < |run| && Paired(View(run[k], left).me, View(run[k], left).other, a, b)
    ensures Paired(View(run[m], left).me, View(run[m], left).other, a, b)
    decreases m
  {
    hide Good, After, Possible, Initial, Paired, View;
    if k < m {
      PairOverRun(run, moves, k, m - 1, left, a, b);
      RunMove(run, moves, m - 1);
      PairStays(run[m - 1], moves[m - 1], left, a, b);
    }
  }

  /** A disturbing delivery leaves its target transferring. */
  lemma Disturbed(s: Both, m: Move, left: bool, a: nat, b: nat)
    requires Good(s) && Possible(s, m) && Paired(View(s, left).me, View(s, left).other, a, b)
    requires Disturbs(s, m, left, a, b)
    ensures var w := View(After(s, m), left);
      if m.left == left then a < |w.me.node.table| && w.me.node.table[a].status == Transfer
      else b < |w.other.node.table| && w.other.node.table[b].status == Transfer
  {
    GoodEitherWay(s, true);
    GoodEitherWay(s, false);
    var v := View(s, left);
    PairFacts(v.me, v.other, a, b);
    hide Joint, PositiveStep;
    PositiveEffect(View(s, m.left).me, View(s, m.left).other, m.action.p);
  }

  /** Deallocation over whole runs. After the first request for a flow that both ends transfer data
      on, and while neither application asks again, the statuses of both ends are at every moment
      what the deliveries so far make them, whatever else happens: the asking end waits until an
      M_DELETE_R for the flow is delivered and is then deallocated, the other end transfers until an
      M_DELETE for it is delivered and is then deallocated. This is so exactly if no positive response
      is delivered in between to the end that asked, or to the other one after its deallocation. */
  lemma DeallocationRunsExactly(run: seq<Both>, moves: seq<Move>, k: nat, n: nat, left: bool, a: nat, b: nat)
    requires FirstRequest(run, moves, k, left, a, b) && k < n < |run| && NoOtherRequest(moves, k, n, left, a, b)
    ensures
      (forall m :: k < m <= n ==>
         Statuses(View(run[m], left).me, View(run[m], left).other, a, b,
                  DeleteDelivered(moves, k, m, left, a), AnswerDelivered(moves, k, m, left, b)))
      <==> (forall l :: k < l < n ==> !Disturbs(run[l], moves[l], left, a, b))
  {
    hide Good, After, Possible, Initial, View, Disturbs, Paired, Phase, Statuses;
    if forall l :: k < l < n ==> !Disturbs(run[l], moves[l], left, a, b) {
      forall m | k < m <= n
        ensures Statuses(View(run[m], left).me, View(run[m], left).other, a, b,
                         DeleteDelivered(moves, k, m, left, a), AnswerDelivered(moves, k, m, left, b))
      {
        PhaseOverRun(run, moves, k, m, left, a, b);
        PhaseStatuses(View(run[m], left).me, View(run[m], left).other, a, b,
                      DeleteDelivered(moves, k, m, left, a), AnswerDelivered(moves, k, m, left, b));
      }
    } else {
      var l :| k < l < n && Disturbs(run[l], moves[l], left, a, b);
      DisturbedRun(run, moves, k, l, left, a, b);
    }
  }

  lemma PhaseStatuses(x: End, y: End, a: nat, b: nat, d: bool, done: bool)
    requires Phase(x, y, a, b, d, done)
    ensures Statuses(x, y, a, b, d, done)
  {}

  lemma DisturbedRun(run: seq<Both>, moves: seq<Move>, k: nat, l: nat, left: bool, a: nat, b: nat)
    requires FirstRequest(run, moves, k, left, a, b) && k < l < |moves| && Disturbs(run[l], moves[l], left, a, b)
    ensures !Statuses(View(run[l], left).me, View(run[l], left).other, a, b,
                      DeleteDelivered(moves, k, l, left, a), AnswerDelivered(moves, k, l, left, b))
            || !Statuses(View(run[l + 1], left).me, View(run[l + 1], left).other, a, b,
                         DeleteDelivered(moves, k, l + 1, left, a), AnswerDelivered(moves, k, l + 1, left, b))
  {
    hide Good, After, Possible, Initial, View, Paired;
    PairOverRun(run, moves, k, l, left, a, b);
    RunMove(run, moves, l);
    Disturbed(run[l], moves[l], left, a, b);
    DeliveredNext(moves, k, l, left, a, b);
  }

  /** And the two deliveries are always possible: an M_DELETE for the flow is in the network from the
      request on, and an M_DELETE_R for it as soon as one has been delivered. */
  lemma DeallocationCanComplete(run: seq<Both>, moves: seq<Move>, k: nat, m: nat, left: bool, a: nat, b: nat)
    requires FirstRequest(run, moves, k, left, a, b) && k < m < |run| && NoOtherRequest(moves, k, m, left, a, b)
    requires forall l :: k < l < m ==> !Disturbs(run[l], moves[l], left, a, b)
    ensures exists p :: DeleteFor(p, View(run[m], left).other.inbox, a)
    ensures DeleteDelivered(moves, k, m, left, a) <==> exists q :: AnswerFor(q, View(run[m], left).me.inbox, b)
  {
    hide FirstRequest, Paired, Disturbs;
    PhaseOverRun(run, moves, k, m, left, a, b);
  }

  // ---- A duplicated positive response ----

  /** Own entry i, whose application has not asked for deallocation, has a positive response q of
      entry j of the other side still to come. */
  ghost predicate Awaits(x: End, y: End, i: nat, j: nat, q: Packet) {
    && Joint(x, y) && IsOwn(x, i) && i !in x.book.asked
    && q in x.inbox && q.body.CreateResponse? && q.body.positive && q.who == j
  }

  lemma ResponderAsks(x: End, y: End, i: nat, j: nat, q: Packet)
    requires Awaits(x, y, i, j, q) && Paired(x, y, i, j) && j !in y.book.asked
    requires x.node.table[i].status == Transfer && y.node.table[j].status == Transfer
    ensures var s := DeallocateStep(y, x, j); Phase(s.me, s.other, j, i, false, false) && Awaits(s.other, s.me, i, j, q)
  {
    hide Joint, Phase, DeallocateRequest, Moves;
    assert Paired(y, x, j, i);
    JointEitherWay(x, y);
    PairFacts(y, x, j, i);
    AskStarts(y, x, j, i);
    DeallocateKeeps(y, x, j);
    JointEitherWay(DeallocateStep(y, x, j).me, DeallocateStep(y, x, j).other);
  }

  lemma JointEitherWay(x: End, y: End)
    ensures Joint(x, y) <==> Joint(y, x)
  {
    hide Half;
  }

  lemma RequesterDeletes(x: End, y: End, p: Packet, i: nat, j: nat, q: Packet)
    requires Awaits(x, y, i, j, q) && Phase(y, x, j, i, false, false) && DeleteFor(p, x.inbox, j)
    ensures var s := DeleteStep(x, y, p); Phase(s.other, s.me, j, i, true, false) && Awaits(s.me, s.other, i, j, q)
  {
    hide Joint, Phase, Dispatch, Moves;
    DeleteKeeps(x, y, p);
    OtherDeleted(y, x, p, j, i, false, false);
  }

  lemma ResponderDone(x: End, y: End, r: Packet, i: nat, j: nat, q: Packet)
    requires Awaits(x, y, i, j, q) && Phase(y, x, j, i, true, false) && AnswerFor(r, y.inbox, i)
    ensures var s := AnswerStep(y, x, r); Phase(s.me, s.other, j, i, true, true) && Awaits(s.other, s.me, i, j, q)
  {
    hide Joint, Phase, Dispatch, Moves;
    JointEitherWay(x, y);
    AnswerKeeps(y, x, r);
    AskerAnswered(y, x, r, j, i, true, false);
    JointEitherWay(AnswerStep(y, x, r).me, AnswerStep(y, x, r).other);
  }

  /** The requester's entry transfers, its peer is deallocated, and the requester never asked. */
  ghost predicate HalfOpen(x: End, y: End, i: nat, j: nat) {
    && i < |x.node.table| && j < |y.node.table| && i !in x.book.asked
    && x.node.table[i].status == Transfer && y.node.table[j].status == Deallocated
  }

  lemma ResponseReopens(x: End, y: End, i: nat, j: nat, q: Packet)
    requires Awaits(x, y, i, j, q) && Phase(y, x, j, i, true, true)
    ensures var s := PositiveStep(x, y, q); HalfOpen(s.me, s.other, i, j)
  {
    assert Paired(x, y, i, j);
    PairFacts(x, y, i, j);
    PositiveEffect(x, y, q);
  }

  lemma PhasePackets(x: End, y: End, a: nat, b: nat, d: bool, done: bool)
    requires Phase(x, y, a, b, d, done)
    ensures exists p :: DeleteFor(p, y.inbox, a)
    ensures d ==> exists q :: AnswerFor(q, x.inbox, b)
  {}

  /** Own entry i of x and entry j of y transfer data, and a positive response from j is still in the
      network. The responder asks for deallocation, M_DELETE and M_DELETE_R are delivered, and then
      the response: the requester's entry transfers again while the responder's stays deallocated. */
  lemma DuplicateAnswerReopens(x: End, y: End, i: nat, j: nat, q: Packet)
    requires Awaits(x, y, i, j, q) && Paired(x, y, i, j) && j !in y.book.asked
    requires x.node.table[i].status == Transfer && y.node.table[j].status == Transfer
    ensures
      var s1 := DeallocateStep(y, x, j);
      && (exists p :: DeleteFor(p, s1.other.inbox, j))
      && forall p :: DeleteFor(p, s1.other.inbox, j) ==>
           var s2 := DeleteStep(s1.other, s1.me, p);
           && (exists r :: AnswerFor(r, s2.other.inbox, i))
           && forall r :: AnswerFor(r, s2.other.inbox, i) ==>
                var s3 := AnswerStep(s2.other, s2.me, r);
                && Statuses(s3.me, s3.other, j, i, true, true)
                && HalfOpen(PositiveStep(s3.other, s3.me, q).me, PositiveStep(s3.other, s3.me, q).other, i, j)
  {
    ResponderAsks(x, y, i, j, q);
    hide Awaits, Paired, Phase, DeallocateStep, DeleteStep, AnswerStep, PositiveStep, Statuses, HalfOpen;
    var s1 := DeallocateStep(y, x, j);
    PhasePackets(s1.me, s1.other, j, i, false, false);
    forall p | DeleteFor(p, s1.other.inbox, j)
      ensures
        var s2 := DeleteStep(s1.other, s1.me, p);
        && (exists r :: AnswerFor(r, s2.other.inbox, i))
        && forall r :: AnswerFor(r, s2.other.inbox, i) ==>
             var s3 := AnswerStep(s2.other, s2.me, r);
             && Statuses(s3.me, s3.other, j, i, true, true)
             && HalfOpen(PositiveStep(s3.other, s3.me, q).me, PositiveStep(s3.other, s3.me, q).other, i, j)
    {
      RequesterDeletes(s1.other, s1.me, p, i, j, q);
      var s2 := DeleteStep(s1.other, s1.me, p);
      PhasePackets(s2.other, s2.me, j, i, true, false);
      forall r | AnswerFor(r, s2.other.inbox, i)
        ensures
          var s3 := AnswerStep(s2.other, s2.me, r);
          && Statuses(s3.me, s3.other, j, i, true, true)
          && HalfOpen(PositiveStep(s3.other, s3.me, q).me, PositiveStep(s3.other, s3.me, q).other, i, j)
      {
        ResponderDone(s2.me, s2.other, r, i, j, q);
        var s3 := AnswerStep(s2.other, s2.me, r);
        PhaseStatuses(s3.me, s3.other, j, i, true, true);
        ResponseReopens(s3.other, s3.me, i, j, q);
      }
    }
  }
}
