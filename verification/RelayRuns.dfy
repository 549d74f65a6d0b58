/** A relay over whole runs of arriving requests and new lower flows: how often each request is sent
    on, and when the marks in the table say so. */
module RelayRuns {
  import opened Names
  import opened Flow
  import opened FlowTable
  import opened FlowAllocation
  import opened FlowDirectory
  import opened FlowRelay

  /** The table, and how often the request of each entry has been sent on. */
  datatype Relay = Relay(node: Node, sends: seq<nat>)

  function Sent(d: Directory, f: FlowValue, bound: bool): bool { bound && RelayFlow(d, f).hopCount != 0 }

  function OnRequest(d: Directory, s: Relay, f: FlowValue, bound: bool): Relay {
    Relay(RelayRequest(d, s.node, f, bound).node, s.sends + [if Sent(d, f, bound) then 1 else 0])
  }

  function Counted(sends: seq<nat>, ks: seq<nat>): (r: seq<nat>)
    ensures |r| == |sends|
    decreases |ks|
  {
    if ks == [] then sends
    else Counted(if ks[0] < |sends| then sends[ks[0] := sends[ks[0]] + 1] else sends, ks[1..])
  }

  function OnLowerFlow(d: Directory, s: Relay, name: string): Relay {
    Relay(Resume(d, s.node, name).node, Counted(s.sends, Waiting(s.node.table, name, |s.node.table|)))
  }

  // ---- What one request does to the statuses ----

  lemma SameSymmetric(f: FlowValue, g: FlowValue)
    ensures Same(f, f) && (Same(f, g) <==> Same(g, f))
  {}

  lemma FindExtended(t: seq<Entry>, e: Entry, g: FlowValue)
    ensures FindByFlow(t + [e], g) ==
      if FindByFlow(t, g) < |t| then FindByFlow(t, g) else if Same(e.flow, g) then |t| else |t| + 1
  {
    hide FindByFlow;
    var u := t + [e];
    assert u[|t|] == e && forall i :: 0 <= i < |t| ==> u[i] == t[i];
    var j := FindByFlow(u, g);
    if j < |t| { assert Same(t[j].flow, g); }
  }

  lemma FindSameFlows(t: seq<Entry>, u: seq<Entry>, g: FlowValue)
    requires |t| == |u| && forall i :: 0 <= i < |t| ==> u[i].flow == t[i].flow
    ensures FindByFlow(u, g) == FindByFlow(t, g)
  {
    hide FindByFlow;
    var i, j := FindByFlow(t, g), FindByFlow(u, g);
    assert i < |t| ==> Same(u[i].flow, g);
    assert j < |t| ==> Same(t[j].flow, g);
  }

  /** The mark that a request gets at once, if any. */
  function Mark(d: Directory, f: FlowValue, bound: bool, before: Status): Status {
    if RelayFlow(d, f).hopCount == 0 then AllocErr else if bound then Forwarded else before
  }

  /** The status of entry i after the request: the status for waiting goes to the first entry with the
      flow as it arrived, the mark to the first entry with the flow after its hop was counted. */
  function StatusAfter(d: Directory, t: seq<Entry>, f: FlowValue, bound: bool, i: nat): Status
    requires i <= |t|
  {
    var before := if i == FindByFlow(t, WithNeighbours(d, Swap(f))) then Forwarding
                  else if i == |t| then Unknown else t[i].status;
    if i == FindByFlow(t, RelayFlow(d, f)) then Mark(d, f, bound, before) else before
  }

  lemma EntryAfter(d: Directory, t: seq<Entry>, f: FlowValue)
    ensures var u, g, k := RelayEntry(d, t, f), WithNeighbours(d, Swap(f)), |t|;
      && u[k].flow == RelayFlow(d, f) && (forall i :: 0 <= i < k ==> u[i].flow == t[i].flow)
      && forall i :: 0 <= i <= k ==>
           u[i].status == if i == FindByFlow(t, g) then Forwarding else if i == k then Unknown else t[i].status
  {
    hide FindByFlow, WithNeighbours, Same;
    var g := WithNeighbours(d, Swap(f));
    SameSymmetric(g, g);
    FindExtended(t, Entry(g, Unknown, NoFai), g);
  }

  lemma RelayStatuses(d: Directory, n: Node, f: FlowValue, bound: bool)
    ensures var t, u := n.table, RelayRequest(d, n, f, bound).node.table;
      && |u| == |t| + 1 && u[|t|].flow == RelayFlow(d, f) && (forall i :: 0 <= i < |t| ==> u[i].flow == t[i].flow)
      && forall i :: 0 <= i <= |t| ==> u[i].status == StatusAfter(d, t, f, bound, i)
  {
    hide FindByFlow, WithNeighbours, RelayEntry;
    var t, h := n.table, RelayFlow(d, f);
    var u := RelayEntry(d, t, f);
    EntryAfter(d, t, f);
    assert Same(h, h);
    assert u == u[..|t|] + [u[|t|]];
    FindSameFlows(t, u[..|t|], h);
    FindExtended(u[..|t|], u[|t|], h);
  }

  /** The entry of a request gets the right status, forwarded, failed or waiting, and no other entry
      loses its own, exactly on these conditions; they say nothing about the entry made. */
  lemma MarkedForwardedExactly(d: Directory, n: Node, f: FlowValue, bound: bool)
    ensures
      var t, u := n.table, RelayRequest(d, n, f, bound).node.table;
      var i, j := FindByFlow(t, WithNeighbours(d, Swap(f))), FindByFlow(t, RelayFlow(d, f));
      && |u| == |t| + 1
      && (u[|t|].status == Mark(d, f, bound, Forwarding) && (forall e :: 0 <= e < |t| ==> u[e].status == t[e].status)
          <==> if Mark(d, f, bound, Forwarding) == Forwarding then i == |t|
               else j == |t| && (i == |t| || t[i].status == Forwarding))
  {
    hide FindByFlow, WithNeighbours, RelayFlow, RelayRequest;
    RelayStatuses(d, n, f, bound);
    var t, u := n.table, RelayRequest(d, n, f, bound).node.table;
    var i, j := FindByFlow(t, WithNeighbours(d, Swap(f))), FindByFlow(t, RelayFlow(d, f));
    assert i < |t| && Mark(d, f, bound, Forwarding) != Forwarding && i != j ==> u[i].status == Forwarding;
  }

  // ---- The marks are right ----

  /** No two flows are equal; an entry is marked as forwarded exactly if its request has been sent on,
      and that happened once; entries made for requests wait, are forwarded or have failed. The first
      `base` entries are no relayed requests. */
  ghost predicate Marked(s: Relay, base: nat) {
    var t := s.node.table;
    && |s.sends| == |t| && base <= |t|
    && (forall i, k :: 0 <= i < k < |t| ==> !Same(t[i].flow, t[k].flow))
    && (forall k :: 0 <= k < |t| ==> s.sends[k] == if t[k].status == Forwarded then 1 else 0)
    && (forall k :: 0 <= k < base ==> t[k].status != Forwarding && t[k].status != Forwarded)
    && (forall k :: base <= k < |t| ==>
          (t[k].status == Forwarding || t[k].status == Forwarded || t[k].status == AllocErr)
          && (t[k].status == AllocErr <==> t[k].flow.hopCount == 0))
  }

  /** No entry has the flow of the request after its hop was counted; and none has the flow as it
      arrived, except that one which still waits does not matter if the new request need not wait. */
  ghost predicate Clean(d: Directory, t: seq<Entry>, f: FlowValue, bound: bool) {
    var i := FindByFlow(t, WithNeighbours(d, Swap(f)));
    && FindByFlow(t, RelayFlow(d, f)) == |t|
    && (i == |t| || (t[i].status == Forwarding && (bound || RelayFlow(d, f).hopCount == 0)))
  }

  lemma CleanKeepsMarks(d: Directory, s: Relay, f: FlowValue, bound: bool, base: nat)
    requires Marked(s, base) && 0 < f.hopCount <= 0xFFFF_FFFF && Clean(d, s.node.table, f, bound)
    ensures Marked(OnRequest(d, s, f, bound), base)
  {
    RelayStatuses(d, s.node, f, bound);
    HopsOnce(d, f);
    hide FindByFlow, WithNeighbours, RelayFlow, RelayRequest, Same;
  }

  /** The hop count of the flow as it arrives is that of the request, and then one less. */
  lemma HopsOnce(d: Directory, f: FlowValue)
    ensures WithNeighbours(d, Swap(f)).hopCount == f.hopCount
    ensures 0 < f.hopCount <= 0xFFFF_FFFF ==> RelayFlow(d, f).hopCount == f.hopCount - 1
  {
    NeighboursOnly(d, Swap(f));
    hide WithNeighbours;
  }

  lemma UncleanBreaksMarks(d: Directory, s: Relay, f: FlowValue, bound: bool, base: nat)
    requires Marked(s, base) && 0 < f.hopCount <= 0xFFFF_FFFF && !Clean(d, s.node.table, f, bound)
    ensures !Marked(OnRequest(d, s, f, bound), base)
  {
    RelayStatuses(d, s.node, f, bound);
    HopsOnce(d, f);
    var t, u := s.node.table, OnRequest(d, s, f, bound).node.table;
    var i, j := FindByFlow(t, WithNeighbours(d, Swap(f))), FindByFlow(t, RelayFlow(d, f));
    hide FindByFlow, WithNeighbours, RelayFlow, RelayRequest;
    if j < |t| {
      assert Same(u[j].flow, u[|t|].flow);
    } else {
      assert i < |t| && t[i].flow.hopCount == f.hopCount;
      assert u[i].status == Forwarding;
    }
  }

  /** A request keeps all marks right exactly if it is clean: in particular, otherwise a request that
      was sent on is marked as waiting again, or one that waits is not marked so, or two entries have
      the same flow and share a mark from then on. */
  lemma RequestKeepsMarksExactly(d: Directory, s: Relay, f: FlowValue, bound: bool, base: nat)
    requires Marked(s, base) && 0 < f.hopCount <= 0xFFFF_FFFF
    ensures Marked(OnRequest(d, s, f, bound), base) <==> Clean(d, s.node.table, f, bound)
  {
    if Clean(d, s.node.table, f, bound) {
      CleanKeepsMarks(d, s, f, bound, base);
    } else {
      UncleanBreaksMarks(d, s, f, bound, base);
    }
  }

  // ---- A lower flow ----

  lemma FindsInDistinct(t: seq<Entry>, k: nat)
    requires k < |t| && forall i, j :: 0 <= i < j < |t| ==> !Same(t[i].flow, t[j].flow)
    ensures FindByFlow(t, t[k].flow) == k
  {
    hide FindByFlow;
    assert Same(t[k].flow, t[k].flow);
    var j := FindByFlow(t, t[k].flow);
    assert j < |t| ==> Same(t[j].flow, t[k].flow);
  }

  lemma SendOnMarks(d: Directory, s: Relay, k: nat, base: nat)
    requires Marked(s, base) && k < |s.node.table| && s.node.table[k].status == Forwarding
    ensures var r := Relay(SendOn(d, s.node, k).node, s.sends[k := s.sends[k] + 1]);
      && Marked(r, base) && |r.node.table| == |s.node.table|
      && (forall i :: 0 <= i < |s.node.table| ==> r.node.table[i].flow == s.node.table[i].flow)
      && (forall i :: 0 <= i < |s.node.table| && i != k ==> r.node.table[i].status == s.node.table[i].status)
  {
    hide Same, SentOn;
    FindsInDistinct(s.node.table, k);
    hide FindByFlow;
  }

  lemma {:induction false} SendAllOnMarks(d: Directory, s: Relay, ks: seq<nat>, base: nat)
    requires Marked(s, base)
    requires forall i :: 0 <= i < |ks| ==> ks[i] < |s.node.table| && s.node.table[ks[i]].status == Forwarding
    requires forall i, j :: 0 <= i < j < |ks| ==> ks[i] < ks[j]
    ensures Marked(Relay(SendAllOn(d, s.node, ks).node, Counted(s.sends, ks)), base)
    decreases |ks|
  {
    if ks != [] {
      hide Marked, SendOn;
      assert |s.sends| == |s.node.table| by { MarkedSize(s, base); }
      SendOnMarks(d, s, ks[0], base);
      SendAllOnMarks(d, Relay(SendOn(d, s.node, ks[0]).node, s.sends[ks[0] := s.sends[ks[0]] + 1]), ks[1..], base);
    } else {
      assert Relay(s.node, s.sends) == s;
    }
  }

  lemma MarkedSize(s: Relay, base: nat)
    requires Marked(s, base)
    ensures |s.sends| == |s.node.table| && forall k :: 0 <= k < |s.sends| ==> s.sends[k] <= 1
    ensures forall k :: 0 <= k < |s.sends| ==> (s.sends[k] == 1 <==> s.node.table[k].status == Forwarded)
  {}

  /** A lower flow keeps all marks right, whatever is waiting. */
  lemma LowerFlowKeepsMarks(d: Directory, s: Relay, name: string, base: nat)
    requires Marked(s, base)
    ensures Marked(OnLowerFlow(d, s, name), base)
  {
    var ks := Waiting(s.node.table, name, |s.node.table|);
    hide Marked;
    forall i | 0 <= i < |ks| ensures s.node.table[ks[i]].status == Forwarding {
      assert ks[i] in ks;
    }
    SendAllOnMarks(d, s, ks, base);
  }

  // ---- Whole runs ----

  datatype RelayEvent = Request(d: Directory, flow: FlowValue, bound: bool) | LowerFlow(d: Directory, name: string)

  function Next(s: Relay, v: RelayEvent): Relay {
    match v
    case Request(d, f, bound) => OnRequest(d, s, f, bound)
    case LowerFlow(d, name) => OnLowerFlow(d, s, name)
  }

  /** A run from a table without relayed requests. */
  ghost predicate IsRun(run: seq<Relay>, events: seq<RelayEvent>) {
    && |run| == |events| + 1
    && Marked(run[0], |run[0].node.table|)
    && forall k :: 0 <= k < |events| ==>
         run[k + 1] == Next(run[k], events[k])
         && (events[k].Request? ==> 0 < events[k].flow.hopCount <= 0xFFFF_FFFF)
  }

  lemma {:induction false} MarkedOverRun(run: seq<Relay>, events: seq<RelayEvent>, k: nat)
    requires IsRun(run, events) && k < |run|
    requires forall l :: 0 <= l < k && events[l].Request? ==>
               Clean(events[l].d, run[l].node.table, events[l].flow, events[l].bound)
    ensures Marked(run[k], |run[0].node.table|)
  {
    if k > 0 {
      hide Marked, Clean, OnRequest, OnLowerFlow;
      MarkedOverRun(run, events, k - 1);
      var base := |run[0].node.table|;
      match events[k - 1]
      case Request(d, f, bound) => RequestKeepsMarksExactly(d, run[k - 1], f, bound, base);
      case LowerFlow(d, name) => LowerFlowKeepsMarks(d, run[k - 1], name, base);
    }
  }

  /** In every state of every run of clean requests and lower flows, each received request has been
      sent on at most once, and exactly if its entry is marked as forwarded. */
  lemma RelayedAtMostOnce(run: seq<Relay>, events: seq<RelayEvent>, k: nat, e: nat)
    requires IsRun(run, events) && k < |run| && e < |run[k].sends|
    requires forall l :: 0 <= l < k && events[l].Request? ==>
               Clean(events[l].d, run[l].node.table, events[l].flow, events[l].bound)
    ensures run[k].sends[e] <= 1
    ensures e < |run[k].node.table| && (run[k].sends[e] == 1 <==> run[k].node.table[e].status == Forwarded)
  {
    hide Clean, Marked, Next;
    MarkedOverRun(run, events, k);
    MarkedSize(run[k], |run[0].node.table|);
  }

  /** The first request that is not clean ends that: with it the marks are wrong. */
  lemma FirstUncleanRequest(run: seq<Relay>, events: seq<RelayEvent>, k: nat)
    requires IsRun(run, events) && k < |events| && events[k].Request?
    requires forall l :: 0 <= l < k && events[l].Request? ==>
               Clean(events[l].d, run[l].node.table, events[l].flow, events[l].bound)
    ensures Marked(run[k + 1], |run[0].node.table|)
            <==> Clean(events[k].d, run[k].node.table, events[k].flow, events[k].bound)
  {
    hide Clean, Marked, OnRequest, OnLowerFlow;
    MarkedOverRun(run, events, k);
    RequestKeepsMarksExactly(events[k].d, run[k], events[k].flow, events[k].bound, |run[0].node.table|);
  }

  // ---- Two ways to a second copy ----

  lemma {:induction false} CountedAt(sends: seq<nat>, ks: seq<nat>, k: nat)
    requires k < |sends| && forall i, j :: 0 <= i < j < |ks| ==> ks[i] < ks[j]
    ensures Counted(sends, ks)[k] == if k in ks then sends[k] + 1 else sends[k]
    decreases |ks|
  {
    if ks != [] {
      var next := if ks[0] < |sends| then sends[ks[0] := sends[ks[0]] + 1] else sends;
      CountedAt(next, ks[1..], k);
      assert k in ks <==> k == ks[0] || k in ks[1..];
      assert k == ks[0] ==> k !in ks[1..];
    }
  }

  /** An entry that looks as if it waited, although its request was sent on, is sent on again as soon
      as a lower flow to its neighbour is created. */
  lemma SentTwice(d: Directory, s: Relay, k: nat)
    requires |s.sends| == |s.node.table| && k < |s.sends| && s.sends[k] == 1
    requires s.node.table[k].status == Forwarding
    ensures OnLowerFlow(d, s, s.node.table[k].flow.dstNeighbor.apname).sends[k] == 2
  {
    CountedAt(s.sends, Waiting(s.node.table, s.node.table[k].flow.dstNeighbor.apname, |s.node.table|), k);
  }

  /** No entry has either flow of the request. */
  ghost predicate NewFlow(d: Directory, t: seq<Entry>, f: FlowValue) {
    FindByFlow(t, WithNeighbours(d, Swap(f))) == |t| && FindByFlow(t, RelayFlow(d, f)) == |t|
  }

  /** The request that a relay sends on, looked up when it comes back to the same relay: it looks like
      the flow of the relay's own entry. */
  lemma LoopedFlow(d: Directory, f: FlowValue, invoke: nat)
    requires !f.ddtFlag
    ensures var back := Arrived(SentOn(d, RelayFlow(d, f), invoke));
      Same(WithNeighbours(d, Swap(back)), RelayFlow(d, f)) && !back.ddtFlag && back.hopCount == RelayFlow(d, f).hopCount
  {
    hide AddressFromDa;
  }

  /** A loop: a relay sends a request on at once, and its copy comes back to it with hops left. The
      first entry is marked as waiting again, although its request was sent on, and the next lower
      flow to its neighbour sends it a second time. If the copy cannot be sent on at once, its own
      entry is marked neither as waiting nor as forwarded, so it never is. */
  lemma LoopRelayedAgain(d: Directory, s: Relay, f: FlowValue, bound: bool)
    requires |s.sends| == |s.node.table| && NewFlow(d, s.node.table, f) && !f.ddtFlag
    requires 3 <= f.hopCount <= 0xFFFF_FFFF
    ensures
      var k := |s.node.table|;
      var once := OnRequest(d, s, f, true);
      var twice := OnRequest(d, once, Arrived(SentOn(d, RelayFlow(d, f), s.node.invoke)), bound);
      && RelayRequest(d, s.node, f, true).sent == [Create(SentOn(d, RelayFlow(d, f), s.node.invoke))]
      && |once.node.table| == k + 1 && once.node.table[k].status == Forwarded && once.sends[k] == 1
      && |twice.node.table| == k + 2 && twice.node.table[k].status == Forwarding && twice.sends[k] == 1
      && OnLowerFlow(d, twice, twice.node.table[k].flow.dstNeighbor.apname).sends[k] == 2
      && (!bound ==> twice.node.table[k + 1].status == Unknown)
  {
    var t, k, g := s.node.table, |s.node.table|, RelayFlow(d, f);
    var once := OnRequest(d, s, f, true);
    RelayStatuses(d, s.node, f, true);
    RelaySendsOne(d, s.node, f);
    HopsOnce(d, f);
    LoopedFlow(d, f, s.node.invoke);
    var back := Arrived(SentOn(d, g, s.node.invoke));
    RelayStatuses(d, once.node, back, bound);
    HopsOnce(d, back);
    hide WithNeighbours, RelayFlow, RelayRequest, FindByFlow;
    LoopFinds(once.node.table, k, g, WithNeighbours(d, Swap(back)));
    assert FindByFlow(once.node.table, RelayFlow(d, back)) != k;
    var twice := OnRequest(d, once, back, bound);
    SentTwice(d, twice, k);
  }

  lemma RelaySendsOne(d: Directory, n: Node, f: FlowValue)
    requires RelayFlow(d, f).hopCount != 0
    ensures RelayRequest(d, n, f, true).sent == [Create(SentOn(d, RelayFlow(d, f), n.invoke))]
  {
    hide WithNeighbours, SentOn;
    EntryAfter(d, n.table, f);
  }

  lemma LoopFinds(t: seq<Entry>, k: nat, g: FlowValue, h: FlowValue)
    requires k + 1 == |t| && t[k].flow == g && Same(h, g) && forall i :: 0 <= i < k ==> !Same(t[i].flow, g)
    ensures FindByFlow(t, h) == k
  {
    hide FindByFlow;
    assert Same(t[k].flow, h);
    assert forall i :: 0 <= i < k ==> !Same(t[i].flow, h);
  }

  /** A duplicate: the same request reaches a relay twice, and is sent on at once both times. The first
      entry gets both marks, the second one looks as if it waited, and the next lower flow to its
      neighbour sends it on once more. */
  lemma DuplicateRelayedAgain(d: Directory, s: Relay, f: FlowValue)
    requires |s.sends| == |s.node.table| && NewFlow(d, s.node.table, f) && 2 <= f.hopCount <= 0xFFFF_FFFF
    ensures
      var k := |s.node.table|;
      var twice := OnRequest(d, OnRequest(d, s, f, true), f, true);
      && |twice.node.table| == k + 2
      && twice.node.table[k].status == Forwarded && twice.sends[k] == 1
      && twice.node.table[k + 1].status == Forwarding && twice.sends[k + 1] == 1
      && OnLowerFlow(d, twice, twice.node.table[k + 1].flow.dstNeighbor.apname).sends[k + 1] == 2
  {
    var t, k, g, h := s.node.table, |s.node.table|, WithNeighbours(d, Swap(f)), RelayFlow(d, f);
    var once := OnRequest(d, s, f, true);
    RelayStatuses(d, s.node, f, true);
    RelayStatuses(d, once.node, f, true);
    HopsOnce(d, f);
    var u := once.node.table;
    hide WithNeighbours, RelayFlow, RelayRequest, FindByFlow;
    LoopFinds(u, k, h, h);
    assert u[..k + 1] == u;
    assert forall i :: 0 <= i <= k ==> !Same(u[i].flow, g);
    assert FindByFlow(u, g) == k + 1;
    var twice := OnRequest(d, once, f, true);
    SentTwice(d, twice, k + 1);
  }
}
