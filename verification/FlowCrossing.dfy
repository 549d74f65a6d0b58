/** Deallocation that both applications ask for: each end refuses the other's M_DELETE, so neither is
    ever answered. */
module FlowCrossing {
  import opened Names
  import opened Flow
  import opened FlowTable
  import opened FlowAllocation
  import opened FlowNetwork
  import opened FlowRuns
  import opened FlowDeallocation

  predicate Closing(st: Status) { st == DeallocPend || st == Deallocated }

  /** Entry a waits for an M_DELETE_R from b, which has sent none and does not transfer any more. */
  ghost predicate Stuck(x: End, y: End, a: nat, b: nat) {
    && Paired(x, y, a, b)
    && x.node.table[a].status == DeallocPend && Closing(y.node.table[b].status)
    && !exists q :: AnswerFor(q, x.inbox, b)
  }

  lemma StuckElsewhere(x: End, y: End, r: Both, k: nat, a: nat, b: nat)
    requires Moves(x, y, r, k) && k != a && Stuck(x, y, a, b)
    ensures Stuck(r.me, r.other, a, b)
  {
    hide Grows;
    assert r.me.node.table[a] == x.node.table[a] && SameMember(x.book, r.me.book, a);
    forall q ensures !AnswerFor(q, r.me.inbox, b) { assert !AnswerFor(q, x.inbox, b); }
  }

  lemma StuckElsewhereOther(x: End, y: End, r: Both, k: nat, a: nat, b: nat)
    requires Moves(y, x, r, k) && k != b && Stuck(x, y, a, b)
    ensures Stuck(r.other, r.me, a, b)
  {
    hide Grows;
    assert r.me.node.table[b] == y.node.table[b] && SameMember(y.book, r.me.book, b);
    forall q ensures !AnswerFor(q, r.other.inbox, b) { assert !AnswerFor(q, x.inbox, b); }
  }

  /** Asking once more sends another M_DELETE, and that is all. */
  lemma AskEffect(x: End, y: End, a: nat, b: nat)
    requires Joint(x, y) && Paired(x, y, a, b)
    ensures var r := DeallocateStep(x, y, a);
      && Paired(r.me, r.other, a, b) && r.me.node.table[a].status == DeallocPend
      && r.other.node == y.node && r.other.book == y.book && r.me.inbox == x.inbox
      && forall q, who: nat :: AnswerFor(q, r.other.inbox, who) ==> AnswerFor(q, y.inbox, who)
  {
    PairFacts(x, y, a, b);
    OwnFacts(x, y, a);
    DeallocateExactly(x.node, a);
    hide Joint, DeallocateRequest;
    var r := DeallocateStep(x, y, a);
    SentOne(Delete(r.me.node.table[a].flow), a);
  }

  /** The waiting end takes a step. */
  lemma WaitingSteps(x: End, y: End, act: Action, a: nat, b: nat)
    requires Joint(x, y) && Enabled(x, act) && Stuck(x, y, a, b) && !(act.Positive? && act.p.who == b)
    ensures var r := Step(x, y, act); Stuck(r.me, r.other, a, b)
  {
    hide Joint, Moves, Half, OpenStep, AllocateStep, PositiveStep, NegativeStep, DeallocateStep, DeleteStep, AnswerStep,
      RelayStep, CreateStep, RespondStep, OpenOtherStep, ChangeOtherStep;
    StepKeepsInvariant(x, y, act);
    assert forall q :: AnswerFor(q, x.inbox, b) <==> q in x.inbox && q.body.DeleteResponse? && q.who == b;
    var k := Concerned(x, y, act);
    if k != a {
      StuckElsewhere(x, y, Step(x, y, act), k, a, b);
    } else if act == Deallocate(a) {
      AskEffect(x, y, a, b);
    } else if act.DeleteArrives? {
      DeleteLeaves(x, y, act.p);
    } else {
      if act.Positive? || act.AnswerArrives? { WhoConcerns(x, y, a, b, act.p); }
      Idle(x, y, act, a, b);
    }
  }

  lemma CloserAnswered(x: End, y: End, p: Packet, a: nat, b: nat)
    requires Joint(y, x) && Stuck(x, y, a, b) && p in y.inbox && p.body.DeleteResponse? && p.who == a
    ensures var r := AnswerStep(y, x, p); Stuck(r.other, r.me, a, b)
  {
    assert Paired(y, x, b, a);
    AnswerEffect(y, x, b, a, p);
    hide Joint, AnswerStep;
  }

  /** The other end takes a step. */
  lemma CloserSteps(x: End, y: End, act: Action, a: nat, b: nat)
    requires Joint(y, x) && Enabled(y, act) && Stuck(x, y, a, b) && !(act.Positive? && act.p.who == a)
    ensures var r := Step(y, x, act); Stuck(r.other, r.me, a, b)
  {
    hide Joint, Moves, Half, OpenStep, AllocateStep, PositiveStep, NegativeStep, DeallocateStep, DeleteStep, AnswerStep,
      RelayStep, CreateStep, RespondStep, OpenOtherStep, ChangeOtherStep;
    assert Paired(y, x, b, a);
    StepKeepsInvariant(y, x, act);
    var k := Concerned(y, x, act);
    if k != b {
      StuckElsewhereOther(x, y, Step(y, x, act), k, a, b);
    } else if act == Deallocate(b) {
      AskEffect(y, x, b, a);
    } else if act.DeleteArrives? {
      DeleteLeaves(y, x, act.p);
    } else if act.AnswerArrives? {
      WhoConcerns(y, x, b, a, act.p);
      CloserAnswered(x, y, act.p, a, b);
    } else {
      if act.Positive? { WhoConcerns(y, x, b, a, act.p); }
      Idle(y, x, act, b, a);
    }
  }

  // ---- Over whole runs ----

  /** A positive response is delivered to one of the two ends. */
  predicate Revives(m: Move, left: bool, a: nat, b: nat) {
    m.action.Positive? && m.action.p.who == if m.left == left then b else a
  }

  lemma StuckMove(s: Both, m: Move, left: bool, a: nat, b: nat)
    requires Good(s) && Possible(s, m) && Stuck(View(s, left).me, View(s, left).other, a, b) && !Revives(m, left, a, b)
    ensures Stuck(View(After(s, m), left).me, View(After(s, m), left).other, a, b)
  {
    hide Half, Step, Enabled, Stuck;
    GoodEitherWay(s, true);
    GoodEitherWay(s, false);
    var v := View(s, left);
    if m.left == left { WaitingSteps(v.me, v.other, m.action, a, b); } else { CloserSteps(v.me, v.other, m.action, a, b); }
  }

  lemma {:induction false} StuckOverRun(run: seq<Both>, moves: seq<Move>, k: nat, n: nat, left: bool, a: nat, b: nat)
    requires IsRun(run, moves) && k <= n < |run| && Stuck(View(run[k], left).me, View(run[k], left).other, a, b)
    requires forall l :: k <= l < n ==> !Revives(moves[l], left, a, b)
    ensures Stuck(View(run[n], left).me, View(run[n], left).other, a, b)
    decreases n
  {
    hide Stuck, Good, After, Possible, Initial, View, Revives;
    if k < n {
      StuckOverRun(run, moves, k, n - 1, left, a, b);
      RunMove(run, moves, n - 1);
      StuckMove(run[n - 1], moves[n - 1], left, a, b);
    }
  }

  /** Entry a waits for its answer, and entry b will not give one. */
  ghost predicate Waits(x: End, y: End, a: nat, b: nat) {
    && a < |x.node.table| && b < |y.node.table|
    && x.node.table[a].status == DeallocPend && Closing(y.node.table[b].status)
  }

  lemma StuckWaits(x: End, y: End, a: nat, b: nat)
    requires Stuck(x, y, a, b)
    ensures Waits(x, y, a, b)
  {}

  lemma Revived(s: Both, m: Move, left: bool, a: nat, b: nat)
    requires Good(s) && Possible(s, m) && Stuck(View(s, left).me, View(s, left).other, a, b) && Revives(m, left, a, b)
    ensures !Waits(View(After(s, m), left).me, View(After(s, m), left).other, a, b)
  {
    GoodEitherWay(s, true);
    GoodEitherWay(s, false);
    var v := View(s, left);
    PairFacts(v.me, v.other, a, b);
    hide Joint, PositiveStep;
    PositiveEffect(View(s, m.left).me, View(s, m.left).other, m.action.p);
  }

  /** A stuck deallocation never completes: whatever else happens, and however often either
      application asks again, the entry waits exactly until a positive response to the original
      request is delivered once more to one of the two ends. */
  lemma StuckExactly(run: seq<Both>, moves: seq<Move>, k: nat, n: nat, left: bool, a: nat, b: nat)
    requires IsRun(run, moves) && k <= n < |run| && Stuck(View(run[k], left).me, View(run[k], left).other, a, b)
    ensures (forall m :: k <= m <= n ==> Waits(View(run[m], left).me, View(run[m], left).other, a, b))
            <==> (forall l :: k <= l < n ==> !Revives(moves[l], left, a, b))
  {
    hide Stuck, Waits, Good, After, Possible, Initial, View, Revives;
    if forall l :: k <= l < n ==> !Revives(moves[l], left, a, b) {
      forall m | k <= m <= n ensures Waits(View(run[m], left).me, View(run[m], left).other, a, b) {
        StuckOverRun(run, moves, k, m, left, a, b);
        StuckWaits(View(run[m], left).me, View(run[m], left).other, a, b);
      }
    } else {
      FirstRevived(run, moves, k, n, left, a, b);
    }
  }

  lemma {:induction false} FirstRevived(run: seq<Both>, moves: seq<Move>, k: nat, n: nat, left: bool, a: nat, b: nat)
    requires IsRun(run, moves) && k <= n < |run| && Stuck(View(run[k], left).me, View(run[k], left).other, a, b)
    requires exists l :: k <= l < n && Revives(moves[l], left, a, b)
    ensures exists m :: k <= m <= n && !Waits(View(run[m], left).me, View(run[m], left).other, a, b)
    decreases n
  {
    hide Stuck, Waits, Good, After, Possible, Initial, View, Revives;
    if exists l :: k <= l < n - 1 && Revives(moves[l], left, a, b) {
      FirstRevived(run, moves, k, n - 1, left, a, b);
    } else {
      StuckOverRun(run, moves, k, n - 1, left, a, b);
      RunMove(run, moves, n - 1);
      Revived(run[n - 1], moves[n - 1], left, a, b);
    }
  }

  /** It comes about when both applications ask, in either order, before an M_DELETE is delivered:
      then both ends are stuck. */
  lemma CrossingDeallocations(x: End, y: End, a: nat, b: nat)
    requires Joint(x, y) && Paired(x, y, a, b) && a !in x.book.asked && b !in y.book.asked
    requires x.node.table[a].status == Transfer && y.node.table[b].status == Transfer
    ensures var s := DeallocateStep(x, y, a); var t := DeallocateStep(s.other, s.me, b);
      Stuck(t.other, t.me, a, b) && Stuck(t.me, t.other, b, a)
  {
    forall q ensures !AnswerFor(q, x.inbox, b) { NoAnswerYet(x, y, a, b, q); }
    JointEitherWay(x, y);
    assert Paired(y, x, b, a);
    forall q ensures !AnswerFor(q, y.inbox, a) { NoAnswerYet(y, x, b, a, q); }
    PairFacts(x, y, a, b);
    DeallocateKeeps(x, y, a);
    AskEffect(x, y, a, b);
    hide Joint, DeallocateStep, Moves;
    var s := DeallocateStep(x, y, a);
    JointEitherWay(s.me, s.other);
    assert Paired(s.other, s.me, b, a);
    AskEffect(s.other, s.me, b, a);
  }

  lemma SecondAsks(x: End, y: End, a: nat, b: nat, d: bool)
    requires Joint(y, x) && Phase(x, y, a, b, d, false)
    ensures var r := DeallocateStep(y, x, b); Stuck(r.other, r.me, a, b) <==> !d
  {
    hide DeallocateStep, Joint;
    assert Paired(y, x, b, a);
    AskEffect(y, x, b, a);
    AskKeepsAnswers(x, y, a, b);
  }

  lemma AskKeepsAnswers(x: End, y: End, a: nat, b: nat)
    requires Joint(y, x) && Paired(y, x, b, a)
    ensures x.inbox <= DeallocateStep(y, x, b).other.inbox
    ensures forall q :: AnswerFor(q, x.inbox, b) ==> AnswerFor(q, DeallocateStep(y, x, b).other.inbox, b)
  {}

  /** In runs: when the other application asks for deallocation too, before the first request is
      answered, the first request is stuck exactly if no M_DELETE for it was delivered before. */
  lemma SecondRequestExactly(run: seq<Both>, moves: seq<Move>, k: nat, m: nat, left: bool, a: nat, b: nat)
    requires FirstRequest(run, moves, k, left, a, b) && k < m < |moves| && NoOtherRequest(moves, k, m, left, a, b)
    requires forall l :: k < l < m ==> !Disturbs(run[l], moves[l], left, a, b)
    requires moves[m] == Move(!left, Deallocate(b)) && !AnswerDelivered(moves, k, m, left, b)
    ensures Stuck(View(run[m + 1], left).me, View(run[m + 1], left).other, a, b) <==> !DeleteDelivered(moves, k, m, left, a)
  {
    hide Phase, Stuck, Joint, Paired, Disturbs, DeallocateStep, Initial;
    PhaseOverRun(run, moves, k, m, left, a, b);
    GoodAt(run, moves, m, !left);
    assert Possible(run[m], moves[m]) && run[m + 1] == After(run[m], moves[m]);
    SecondAsks(View(run[m], left).me, View(run[m], left).other, a, b, DeleteDelivered(moves, k, m, left, a));
  }
}
