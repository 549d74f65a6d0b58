/** The retransmission queue and the sender's left window edge: src/DIF/EFCP/DTCP/DTCPState.cc,
    with the acknowledgement loop of DTCP.cc and the default sender-ack policy. A PDU is its
    32-bit sequence number. */
module Retransmission {

  type SeqNum = n: nat | n < 0x1_0000_0000

  /** Unsigned 32-bit addition. */
  function Plus(a: nat, b: nat): SeqNum { (a + b) % 0x1_0000_0000 }

  // ---- Specification ----

  /** What remains of a queue when everything from low to last is acknowledged. */
  function Outside(q: seq<SeqNum>, low: nat, last: nat): seq<SeqNum> {
    if q == [] then [] else (if low <= q[0] <= last then [] else [q[0]]) + Outside(q[1..], low, last)
  }

  function RemoveFirst(q: seq<SeqNum>, n: nat): seq<SeqNum> {
    if q == [] then [] else if q[0] == n then q[1..] else [q[0]] + RemoveFirst(q[1..], n)
  }

  function LeftEdge(q: seq<SeqNum>, otherwise: SeqNum): SeqNum { if q != [] then q[0] else otherwise }

  lemma {:induction false} RemoveFirstAt(q: seq<SeqNum>, k: nat)
    requires k < |q| && q[k] !in q[..k]
    ensures RemoveFirst(q, q[k]) == q[..k] + q[k + 1..]
  {
    if k > 0 {
      assert q[1..][..k - 1] == q[..k][1..];
      RemoveFirstAt(q[1..], k - 1);
      assert q[0] == q[..k][0];
    }
  }

  class DtcpState {
    var rxQ: seq<SeqNum>
    var senderLeftWinEdge: SeqNum

    constructor ()
      ensures rxQ == [] && senderLeftWinEdge == 0
    {
      rxQ := [];
      senderLeftWinEdge := 0;
    }

    method PushBackToRxQ(n: SeqNum)
      modifies this`rxQ
      ensures rxQ == old(rxQ) + [n]
    {
      rxQ := rxQ + [n];
    }

    method DeleteRxTimer(n: SeqNum)
      modifies this`rxQ
      ensures rxQ == RemoveFirst(old(rxQ), n)
    {
      for k := 0 to |rxQ|
        invariant rxQ == old(rxQ) && n !in rxQ[..k]
      {
        if rxQ[k] == n {
          RemoveFirstAt(rxQ, k);
          rxQ := rxQ[..k] + rxQ[k + 1..];
          return;
        }
      }
      RemoveNone(rxQ, n);
    }

    method UpdateSndLwe(n: SeqNum)
      modifies this`senderLeftWinEdge
      ensures senderLeftWinEdge == LeftEdge(rxQ, n)
    {
      if rxQ != [] {
        senderLeftWinEdge := rxQ[0];
      } else {
        senderLeftWinEdge := n;
      }
    }

    /** DTCP::ackPDU: what is between start and the end plus the allowed gap leaves the queue; without
        an end, which zero stands for, everything up to start and the gap does. */
    method AckPdu(start: SeqNum, end: SeqNum, gap: SeqNum)
      modifies this`rxQ
      ensures rxQ == Outside(old(rxQ), if end == 0 then 0 else start, Plus(if end == 0 then start else end, gap))
    {
      hide RemoveFirst, Outside;
      var startTrue := end == 0;
      var last := Plus(if end == 0 then start else end, gap);
      ghost var low := if end == 0 then 0 else start;
      ghost var expected := Outside(rxQ, low, last);
      assert rxQ[..0] + Outside(rxQ[0..], low, last) == expected by { assert rxQ[0..] == rxQ; }
      var index := 0;
      while index < |rxQ|
        invariant index <= |rxQ|
        invariant rxQ[..index] + Outside(rxQ[index..], low, last) == expected
        invariant forall i :: 0 <= i < index ==> !(low <= rxQ[i] <= last)
        decreases |rxQ| - index
      {
        var seqNum := rxQ[index];
        ghost var before := rxQ;
        OutsideStep(before, index, low, last);
        if (seqNum >= start || startTrue) && seqNum <= last {
          RemoveFirstAt(rxQ, index);
          DeleteRxTimer(seqNum);
          assert rxQ[..index] == before[..index] && rxQ[index..] == before[index + 1..];
          continue;
        }
        index := index + 1;
      }
      OutsideNone(low, last);
      assert rxQ[..index] == rxQ && rxQ[index..] == [];
    }

    /** The default sender-ack policy. */
    method SenderAck(n: SeqNum, gap: SeqNum)
      modifies this
      ensures rxQ == Outside(old(rxQ), 0, Plus(n, gap))
      ensures senderLeftWinEdge == LeftEdge(rxQ, Plus(n, 1))
    {
      AckPdu(n, 0, gap);
      UpdateSndLwe(Plus(n, 1));
    }

    /** DTP's treatment of a selective acknowledgement, range by range. */
    method SelectiveAck(ranges: seq<Range>, gap: SeqNum)
      modifies this
      ensures Window(rxQ, senderLeftWinEdge, 0) == Selected(Window(old(rxQ), old(senderLeftWinEdge), 0), ranges, gap, 0)
    {
      hide Outside;
      var last: SeqNum := 0;
      ghost var expected := Selected(Window(rxQ, senderLeftWinEdge, 0), ranges, gap, 0);
      assert ranges[0..] == ranges;
      for i := 0 to |ranges|
        invariant Selected(Window(rxQ, senderLeftWinEdge, 0), ranges[i..], gap, last) == expected
      {
        assert ranges[i..][1..] == ranges[i + 1..];
        last := if ranges[i].end > last then ranges[i].end else last;
        AckPdu(ranges[i].start, ranges[i].end, gap);
        UpdateSndLwe(Plus(last, 1));
      }
    }

    /** Handing a PDU over: it is queued, and the left edge is taken from the queue. */
    method Send(n: SeqNum)
      modifies this
      ensures rxQ == old(rxQ) + [n]
      ensures senderLeftWinEdge == rxQ[0]
    {
      PushBackToRxQ(n);
      UpdateSndLwe(rxQ[0]);
    }
  }

  lemma OutsideStep(q: seq<SeqNum>, k: nat, low: nat, last: nat)
    requires k < |q|
    ensures q[..k] + Outside(q[k..], low, last) ==
      if low <= q[k] <= last then q[..k] + Outside(q[k + 1..], low, last)
      else q[..k + 1] + Outside(q[k + 1..], low, last)
  {
    assert q[k..][1..] == q[k + 1..] && q[..k + 1] == q[..k] + [q[k]];
  }

  lemma OutsideNone(low: nat, last: nat)
    ensures Outside([], low, last) == []
  {}

  /** Exactly the numbers that are not acknowledged remain. */
  lemma {:induction false} OutsideExactly(q: seq<SeqNum>, low: nat, last: nat)
    ensures forall n :: n in Outside(q, low, last) <==> n in q && !(low <= n <= last)
  {
    if q != [] {
      OutsideExactly(q[1..], low, last);
      assert forall n :: n in q <==> n == q[0] || n in q[1..];
    }
  }

  lemma {:induction false} RemoveNone(q: seq<SeqNum>, n: nat)
    requires n !in q
    ensures RemoveFirst(q, n) == q
  {
    if q != [] { RemoveNone(q[1..], n); }
  }

  // ---- Window invariants over whole runs ----

  /** `next` bounds what was sent so far. */
  datatype Window = Window(rxQ: seq<SeqNum>, left: SeqNum, next: nat)

  /** One range of a selective acknowledgement. */
  datatype Range = Range(start: SeqNum, end: SeqNum)

  /** Send n, receive an acknowledgement of n, or of a range, with what the left edge becomes if
      nothing is queued any more. */
  datatype Event =
    | Send(n: SeqNum)
    | Ack(n: SeqNum, gap: SeqNum)
    | AckRange(range: Range, gap: SeqNum, otherwise: SeqNum)

  /** The first and the last number that an acknowledgement covers. */
  function Low(e: Event): nat { if e.AckRange? && e.range.end != 0 then e.range.start else 0 }

  function Last(e: Event): nat {
    match e
    case Send(_) => 0
    case Ack(n, gap) => Plus(n, gap)
    case AckRange(range, gap, _) => Plus(if range.end == 0 then range.start else range.end, gap)
  }

  predicate Covers(e: Event, n: nat) { !e.Send? && Low(e) <= n <= Last(e) }

  function Otherwise(e: Event): SeqNum {
    match e
    case Send(n) => n
    case Ack(n, _) => Plus(n, 1)
    case AckRange(_, _, otherwise) => otherwise
  }

  function Step(w: Window, e: Event): Window {
    if e.Send? then
      Window(w.rxQ + [e.n], (w.rxQ + [e.n])[0], e.n + 1)
    else
      var q := Outside(w.rxQ, Low(e), Last(e));
      Window(q, LeftEdge(q, Otherwise(e)), w.next)
  }

  /** A selective acknowledgement, range by range; `last` is the greatest end so far. */
  function Selected(w: Window, ranges: seq<Range>, gap: SeqNum, last: SeqNum): Window
    decreases |ranges|
  {
    if ranges == [] then w
    else
      var r, top := ranges[0], if ranges[0].end > last then ranges[0].end else last;
      Selected(Step(w, AckRange(r, gap, Plus(top, 1))), ranges[1..], gap, top)
  }

  ghost predicate Sorted(q: seq<SeqNum>) { forall i, j :: 0 <= i < j < |q| ==> q[i] < q[j] }

  ghost predicate WindowInvariant(w: Window) {
    && Sorted(w.rxQ)
    && (forall i :: 0 <= i < |w.rxQ| ==> w.rxQ[i] < w.next)
    && (w.rxQ != [] ==> w.left == w.rxQ[0])
  }

  /** Sequence numbers are handed out in increasing order. */
  predicate Increasing(w: Window, e: Event) { e.Send? ==> w.next <= e.n }

  lemma {:induction false} OutsideSorted(q: seq<SeqNum>, low: nat, last: nat)
    requires Sorted(q)
    ensures Sorted(Outside(q, low, last))
  {
    if q != [] {
      OutsideSorted(q[1..], low, last);
      OutsideExactly(q[1..], low, last);
      var rest := Outside(q[1..], low, last);
      forall i | 0 <= i < |rest| ensures q[0] < rest[i] {
        assert rest[i] in rest;
      }
    }
  }

  lemma OutsideFirst(q: seq<SeqNum>, low: nat, last: nat)
    requires Sorted(q)
    ensures Outside(q, low, last) == [] <==> forall i :: 0 <= i < |q| ==> low <= q[i] <= last
    ensures Outside(q, low, last) != [] ==> q != [] && q[0] <= Outside(q, low, last)[0]
  {
    hide Outside;
    OutsideExactly(q, low, last);
    var rest := Outside(q, low, last);
    if rest != [] {
      assert rest[0] in rest;
    } else {
      forall i | 0 <= i < |q| ensures low <= q[i] <= last { assert q[i] in q; }
    }
  }

  /** n is in the range of a selective acknowledgement, with the allowed gap: up to the end if start
      comes before it, and everything up to start if there is no end. */
  predicate InRange(r: Range, gap: SeqNum, n: SeqNum) {
    if r.end == 0 then n <= (r.start + gap) % 0x1_0000_0000
    else r.start <= n <= (r.end + gap) % 0x1_0000_0000
  }

  lemma RangeExactly(w: Window, r: Range, gap: SeqNum, otherwise: SeqNum, n: SeqNum)
    ensures n in Step(w, AckRange(r, gap, otherwise)).rxQ <==> n in w.rxQ && !InRange(r, gap, n)
    ensures Sorted(w.rxQ) ==> Sorted(Step(w, AckRange(r, gap, otherwise)).rxQ)
  {
    var e := AckRange(r, gap, otherwise);
    hide Outside, Sorted;
    OutsideExactly(w.rxQ, Low(e), Last(e));
    if Sorted(w.rxQ) { OutsideSorted(w.rxQ, Low(e), Last(e)); }
  }

  /** Of a selective acknowledgement exactly the numbers in none of its ranges remain queued, in their
      order. */
  lemma {:induction false} SelectedExactly(w: Window, ranges: seq<Range>, gap: SeqNum, last: SeqNum, n: SeqNum)
    ensures n in Selected(w, ranges, gap, last).rxQ <==>
              n in w.rxQ && forall i :: 0 <= i < |ranges| ==> !InRange(ranges[i], gap, n)
    ensures Sorted(w.rxQ) ==> Sorted(Selected(w, ranges, gap, last).rxQ)
    decreases |ranges|
  {
    hide Step, Sorted, InRange, Plus;
    if ranges != [] {
      var r, top := ranges[0], if ranges[0].end > last then ranges[0].end else last;
      RangeExactly(w, r, gap, Plus(top, 1), n);
      SelectedExactly(Step(w, AckRange(r, gap, Plus(top, 1))), ranges[1..], gap, top, n);
      assert forall i :: 0 < i < |ranges| ==> ranges[i] == ranges[1..][i - 1];
      assert (forall i :: 0 <= i < |ranges| ==> !InRange(ranges[i], gap, n)) <==>
        !InRange(r, gap, n) && forall i :: 0 <= i < |ranges[1..]| ==> !InRange(ranges[1..][i], gap, n);
    }
  }

  /** top is the greatest of last and the ends of the ranges. */
  ghost predicate Greatest(ranges: seq<Range>, last: SeqNum, top: SeqNum) {
    && last <= top && (forall i :: 0 <= i < |ranges| ==> ranges[i].end <= top)
    && (top == last || exists i :: 0 <= i < |ranges| && ranges[i].end == top)
  }

  /** Its left edge is the least number still queued, or if there is none, one more than the greatest
      end. */
  lemma {:induction false} SelectedEdge(w: Window, ranges: seq<Range>, gap: SeqNum, last: SeqNum)
    requires ranges != []
    ensures var r := Selected(w, ranges, gap, last);
      exists top: SeqNum :: Greatest(ranges, last, top) && r.left == LeftEdge(r.rxQ, Plus(top, 1))
    decreases |ranges|
  {
    hide Outside, Plus, Low, Last;
    var top := if ranges[0].end > last then ranges[0].end else last;
    var w1 := Step(w, AckRange(ranges[0], gap, Plus(top, 1)));
    if |ranges| == 1 {
      assert ranges[1..] == [] && Selected(w, ranges, gap, last) == w1;
      assert Greatest(ranges, last, top);
    } else {
      SelectedEdge(w1, ranges[1..], gap, top);
      var r := Selected(w1, ranges[1..], gap, top);
      var t: SeqNum :| Greatest(ranges[1..], top, t) && r.left == LeftEdge(r.rxQ, Plus(t, 1));
      assert forall i :: 0 < i < |ranges| ==> ranges[i] == ranges[1..][i - 1];
      assert Greatest(ranges, last, t);
    }
  }

  /** Between events the queue is strictly sorted and the left edge is its least number. */
  lemma WindowKept(w: Window, e: Event)
    requires WindowInvariant(w) && Increasing(w, e)
    ensures WindowInvariant(Step(w, e))
  {
    if !e.Send? {
      hide Outside, Plus, Low, Last;
      OutsideExactly(w.rxQ, Low(e), Last(e));
      OutsideSorted(w.rxQ, Low(e), Last(e));
      var q := Outside(w.rxQ, Low(e), Last(e));
      forall i | 0 <= i < |q| ensures q[i] < w.next { assert q[i] in q; }
    }
  }

  /** An event that cannot move the left edge back: what is sent is not below it, and an
      acknowledgement leaves something queued or is not older than the edge. */
  predicate Forward(w: Window, e: Event) {
    (if e.Send? then w.rxQ != [] else exists i :: 0 <= i < |w.rxQ| && !Covers(e, w.rxQ[i])) || w.left <= Otherwise(e)
  }

  /** The left edge moves back exactly on the other events: an acknowledgement that empties the
      queue, or meets an empty one, and is older than the edge. */
  lemma LeftEdgeMovesForwardExactly(w: Window, e: Event)
    requires WindowInvariant(w)
    ensures w.left <= Step(w, e).left <==> Forward(w, e)
  {
    if !e.Send? {
      hide Outside, Plus, Sorted, Low, Last;
      OutsideFirst(w.rxQ, Low(e), Last(e));
    }
  }

  ghost predicate IsRun(run: seq<Window>, events: seq<Event>) {
    && |run| == |events| + 1
    && run[0] == Window([], 0, 0)
    && forall k :: 0 <= k < |events| ==> Increasing(run[k], events[k]) && run[k + 1] == Step(run[k], events[k])
  }

  lemma {:induction false} WindowOverRuns(run: seq<Window>, events: seq<Event>, k: nat)
    requires IsRun(run, events) && k < |run|
    ensures WindowInvariant(run[k])
  {
    if k > 0 {
      WindowOverRuns(run, events, k - 1);
      WindowKept(run[k - 1], events[k - 1]);
    }
  }

  ghost predicate AckedBetween(events: seq<Event>, i: nat, k: nat, n: SeqNum)
    requires k <= |events|
  {
    exists j :: i <= j < k && Covers(events[j], n)
  }

  /** n is among the numbers sent by the i-th event, and no later acknowledgement covered it. */
  ghost predicate SentUnacked(events: seq<Event>, i: nat, k: nat, n: SeqNum)
    requires k <= |events|
  {
    i < k && events[i] == Send(n) && !AckedBetween(events, i + 1, k, n)
  }

  ghost predicate Unacked(events: seq<Event>, k: nat, n: SeqNum)
    requires k <= |events|
  {
    exists i :: 0 <= i < k && SentUnacked(events, i, k, n)
  }

  lemma UnackedStep(events: seq<Event>, k: nat, n: SeqNum)
    requires 0 < k <= |events|
    ensures Unacked(events, k, n) <==>
      events[k - 1] == Send(n) || (!Covers(events[k - 1], n) && Unacked(events, k - 1, n))
  {
    hide Covers;
    if Unacked(events, k - 1, n) && !Covers(events[k - 1], n) {
      var i: nat :| i < k - 1 && SentUnacked(events, i, k - 1, n);
      assert SentUnacked(events, i, k, n);
    }
    if events[k - 1] == Send(n) {
      assert SentUnacked(events, k - 1, k, n);
    }
    if Unacked(events, k, n) {
      var i: nat :| i < k && SentUnacked(events, i, k, n);
      if i < k - 1 { assert SentUnacked(events, i, k - 1, n); }
    }
  }

  /** Conservation in every state of every run: the queue holds exactly the numbers that were sent
      and not acknowledged since. */
  lemma {:induction false} QueueIsUnacknowledged(run: seq<Window>, events: seq<Event>, k: nat, n: SeqNum)
    requires IsRun(run, events) && k < |run|
    ensures n in run[k].rxQ <==> Unacked(events, k, n)
  {
    if k > 0 {
      hide Plus, Unacked, Low, Last;
      QueueIsUnacknowledged(run, events, k - 1, n);
      UnackedStep(events, k, n);
      if !events[k - 1].Send? { OutsideExactly(run[k - 1].rxQ, Low(events[k - 1]), Last(events[k - 1])); }
    }
  }

  /** So the left edge is the least unacknowledged number whenever there is one. */
  lemma LeftEdgeIsLeast(run: seq<Window>, events: seq<Event>, k: nat, n: SeqNum)
    requires IsRun(run, events) && k < |run| && Unacked(events, k, n)
    ensures run[k].left <= n && Unacked(events, k, run[k].left)
  {
    hide Unacked, Step;
    WindowOverRuns(run, events, k);
    QueueIsUnacknowledged(run, events, k, n);
    QueueIsUnacknowledged(run, events, k, run[k].left);
    var i :| 0 <= i < |run[k].rxQ| && run[k].rxQ[i] == n;
    assert run[k].rxQ[0] in run[k].rxQ;
  }

  /** Over a run of forward events the left edge never decreases. */
  lemma {:induction false} LeftEdgeOverRuns(run: seq<Window>, events: seq<Event>, j: nat, k: nat)
    requires IsRun(run, events) && j <= k < |run|
    requires forall i :: 0 <= i < |events| ==> Forward(run[i], events[i])
    ensures run[j].left <= run[k].left
    decreases k
  {
    if j < k {
      LeftEdgeOverRuns(run, events, j, k - 1);
      WindowOverRuns(run, events, k - 1);
      LeftEdgeMovesForwardExactly(run[k - 1], events[k - 1]);
    }
  }

  function Sends(n: nat): seq<Event>
    requires n < 0xFFFF_FFFF
  {
    seq(n, k requires 0 <= k < n => Send(k + 1))
  }

  function FirstNumbers(n: nat): seq<SeqNum>
    requires n < 0xFFFF_FFFF
  {
    seq(n, k requires 0 <= k < n => k + 1)
  }

  /** The window after sending 1 to n. */
  function AfterSends(n: nat): Window
    requires n < 0xFFFF_FFFF
  {
    if n == 0 then Window([], 0, 0) else Window(FirstNumbers(n), 1, n + 1)
  }

  lemma {:induction false} OutsideAll(q: seq<SeqNum>, last: nat)
    requires forall i :: 0 <= i < |q| ==> q[i] <= last
    ensures Outside(q, 0, last) == []
  {
    if q != [] { OutsideAll(q[1..], last); }
  }

  /** Sends(n) and the two acknowledgements pass through these windows. */
  function StaleWindow(n: nat, k: nat): Window
    requires 2 <= n < 0xFFFF_FFFE && k <= n + 2
  {
    if k <= n then AfterSends(k) else Window([], if k == n + 1 then n + 1 else 2, n + 1)
  }

  function StaleEvents(n: nat): seq<Event>
    requires n < 0xFFFF_FFFE
  {
    Sends(n) + [Ack(n, 0), Ack(1, 0)]
  }

  lemma SendStep(k: nat)
    requires k < 0xFFFF_FFFE
    ensures Increasing(AfterSends(k), Send(k + 1))
    ensures Step(AfterSends(k), Send(k + 1)) == AfterSends(k + 1)
  {
    hide Outside, Plus;
    assert AfterSends(k).rxQ + [k + 1] == FirstNumbers(k + 1);
  }

  lemma AckAll(n: nat)
    requires 1 <= n < 0xFFFF_FFFE
    ensures Step(AfterSends(n), Ack(n, 0)) == Window([], n + 1, n + 1)
  {
    hide Outside;
    OutsideAll(FirstNumbers(n), n);
  }

  lemma StaleStep(n: nat, k: nat)
    requires 2 <= n < 0xFFFF_FFFE && k < n + 2
    ensures
      var w, e := StaleWindow(n, k), StaleEvents(n)[k];
      Increasing(w, e) && Step(w, e) == StaleWindow(n, k + 1)
  {
    hide Plus, AfterSends, Step;
    if k < n {
      SendStep(k);
    } else if k == n {
      AckAll(n);
    } else {
      AckNothing(n);
    }
  }

  lemma AckNothing(n: nat)
    requires n < 0xFFFF_FFFE
    ensures Step(Window([], n + 1, n + 1), Ack(1, 0)) == Window([], 2, n + 1)
  {}

  /** A duplicate of an old acknowledgement does move it back: after sending 1 to n and acknowledging
      n the edge is n + 1, and a late acknowledgement of 1 returns it to 2. */
  lemma StaleAckMovesBack(n: nat)
    requires 2 <= n < 0xFFFF_FFFE
    ensures exists run: seq<Window> ::
      IsRun(run, Sends(n) + [Ack(n, 0), Ack(1, 0)]) && run[n + 1].left == n + 1 && run[n + 2].left == 2
  {
    hide Step, Increasing;
    var run := seq(n + 3, k requires 0 <= k <= n + 2 => StaleWindow(n, k));
    forall k: nat | k < n + 2
      ensures Increasing(run[k], StaleEvents(n)[k]) && run[k + 1] == Step(run[k], StaleEvents(n)[k])
    {
      StaleStep(n, k);
    }
    assert IsRun(run, StaleEvents(n));
  }
}
