/** What each side of an enrollment has become, read off the messages it received, whoever sent them
    and in whatever order. */
module EnrollmentHistory {
  import opened EnrollmentProtocol

  // ---- The member ----

  /** The i-th message is an M_CONNECT of somebody entitled, in the right syntax (8) and with the right
      operation code (1). */
  ghost predicate LetsIn(c: Config, inbox: seq<Message>, i: int) {
    && 0 <= i < |inbox| && inbox[i].Connect? && inbox[i].absSyntax == 8 && inbox[i].opCode == 1
    && Entitled(inbox[i].auth, c.auth)
  }

  ghost predicate Connected(c: Config, inbox: seq<Message>) { exists i :: LetsIn(c, inbox, i) }

  ghost predicate StartedAt(c: Config, inbox: seq<Message>, j: int) {
    0 <= j < |inbox| && inbox[j].Start? && exists i :: i < j && LetsIn(c, inbox, i)
  }

  ghost predicate Started(c: Config, inbox: seq<Message>) { exists j :: StartedAt(c, inbox, j) }

  ghost predicate StoppedAt(c: Config, inbox: seq<Message>, l: int) {
    0 <= l < |inbox| && inbox[l].StopR? && exists j :: j < l && StartedAt(c, inbox, j)
  }

  ghost predicate Stopped(c: Config, inbox: seq<Message>) { exists l :: StoppedAt(c, inbox, l) }

  lemma MemberNext(c: Config, inbox: seq<Message>, x: Message)
    ensures var now := inbox + [x];
      && (Connected(c, now) <==> Connected(c, inbox)
                                 || (x.Connect? && x.absSyntax == 8 && x.opCode == 1 && Entitled(x.auth, c.auth)))
      && (Started(c, now) <==> Started(c, inbox) || (Connected(c, inbox) && x.Start?))
      && (Stopped(c, now) <==> Stopped(c, inbox) || (Started(c, inbox) && x.StopR?))
  {
    hide Entitled;
    var now, k := inbox + [x], |inbox|;
    assert forall i :: i != k ==> (LetsIn(c, now, i) <==> LetsIn(c, inbox, i));
    assert LetsIn(c, now, k) <==> x.Connect? && x.absSyntax == 8 && x.opCode == 1 && Entitled(x.auth, c.auth);
    assert forall j :: j != k ==> (StartedAt(c, now, j) <==> StartedAt(c, inbox, j));
    assert StartedAt(c, now, k) <==> x.Start? && Connected(c, inbox);
    assert forall l :: l != k ==> (StoppedAt(c, now, l) <==> StoppedAt(c, inbox, l));
    assert StoppedAt(c, now, k) <==> x.StopR? && Started(c, inbox);
  }

  /** The member's status, whatever arrived: it connects once somebody entitled asked, starts once an
      M_START came after that, and is enrolled once an M_STOP_R came after that. */
  lemma {:induction false} MemberExactly(c: Config, n: Node, inbox: seq<Message>)
    requires n.entry.con == ConnectPending && n.entry.enroll == EnrollNil
    ensures
      var e := ReceiveAll(c, n, inbox).entry;
      && e.con == (if Connected(c, inbox) then Established else ConnectPending)
      && e.enroll == (if Stopped(c, inbox) then Enrolled
                      else if Started(c, inbox) then WaitStopResponse
                      else if Connected(c, inbox) then WaitStartEnrollment else EnrollNil)
      && (Started(c, inbox) ==> e.immediate)
      && (Stopped(c, inbox) ==> Started(c, inbox)) && (Started(c, inbox) ==> Connected(c, inbox))
    decreases |inbox|
  {
    hide CredentialsMatch, Entitled, Connected, Started, Stopped;
    if inbox == [] {
      NothingYet(c);
    } else {
      var k := |inbox| - 1;
      MemberExactly(c, n, inbox[..k]);
      assert inbox[..k] + [inbox[k]] == inbox;
      MemberNext(c, inbox[..k], inbox[k]);
      if inbox[k].Connect? { EntitledExactly(inbox[k].auth, c.auth); }
    }
  }

  /** An M_STOP_R alone enrolls nobody who did not announce to go on at once. */
  lemma NotImmediateNotEnrolled(c: Config, n: Node, m: Message)
    requires n.entry.con == Established && n.entry.enroll == WaitStopResponse && !n.entry.immediate
    ensures Receive(c, n, m).node.entry.enroll == WaitStopResponse
  {
    hide CredentialsMatch;
  }

  lemma NothingYet(c: Config)
    ensures !Connected(c, []) && !Started(c, []) && !Stopped(c, [])
  {}

  // ---- The initiator ----

  function Replies(inbox: seq<Message>): nat {
    if inbox == [] then 0 else Replies(inbox[..|inbox| - 1]) + (if inbox[|inbox| - 1].ConnectR? then 1 else 0)
  }

  function Limit(c: Config): nat { if c.maxConRetries <= 0 then 0 else c.maxConRetries }

  ghost predicate Refused(inbox: seq<Message>) { forall i :: 0 <= i < |inbox| ==> inbox[i] != ConnectR(0) }

  /** The i-th message is the first positive answer, and comes before the retries are used up. */
  ghost predicate AcceptedAt(c: Config, inbox: seq<Message>, i: int) {
    0 <= i < |inbox| && inbox[i] == ConnectR(0) && Refused(inbox[..i]) && Replies(inbox[..i]) <= Limit(c)
  }

  ghost predicate Accepted(c: Config, inbox: seq<Message>) { exists i :: AcceptedAt(c, inbox, i) }

  /** The j-th message is the first M_START_R after that. */
  ghost predicate AssignedAt(c: Config, inbox: seq<Message>, j: int) {
    && 0 <= j < |inbox| && inbox[j].StartR?
    && exists i :: AcceptedAt(c, inbox, i) && i < j && forall m :: i < m < j ==> !inbox[m].StartR?
  }

  ghost predicate Assigned(c: Config, inbox: seq<Message>) { exists j :: AssignedAt(c, inbox, j) }

  /** The l-th message is the first M_STOP after that. */
  ghost predicate EndedAt(c: Config, inbox: seq<Message>, l: int) {
    && 0 <= l < |inbox| && inbox[l].Stop?
    && exists j :: AssignedAt(c, inbox, j) && j < l && forall m :: j < m < l ==> !inbox[m].Stop?
  }

  ghost predicate Ended(c: Config, inbox: seq<Message>, immediate: bool) {
    exists l :: EndedAt(c, inbox, l) && inbox[l].immediate == immediate
  }

  lemma AcceptedNext(c: Config, inbox: seq<Message>, x: Message)
    ensures var now := inbox + [x];
      && Replies(now) == Replies(inbox) + (if x.ConnectR? then 1 else 0)
      && (Refused(now) <==> Refused(inbox) && x != ConnectR(0))
      && (forall i :: i != |inbox| ==> (AcceptedAt(c, now, i) <==> AcceptedAt(c, inbox, i)))
      && (AcceptedAt(c, now, |inbox|) <==> x == ConnectR(0) && Refused(inbox) && Replies(inbox) <= Limit(c))
  {
    var now, k := inbox + [x], |inbox|;
    assert now[..k] == inbox;
    assert forall i :: 0 <= i < k ==> now[..i] == inbox[..i];
    hide Replies, Limit;
    assert forall i :: 0 <= i < k ==> now[i] == inbox[i];
    assert Replies(now) == Replies(inbox) + (if x.ConnectR? then 1 else 0) by { RepliesNext(inbox, x); }
    assert Refused(now) ==> now[k] != ConnectR(0);
  }

  lemma RepliesNext(inbox: seq<Message>, x: Message)
    ensures Replies(inbox + [x]) == Replies(inbox) + (if x.ConnectR? then 1 else 0)
  {
    assert (inbox + [x])[..|inbox|] == inbox;
  }

  lemma AssignedNext(c: Config, inbox: seq<Message>, x: Message)
    ensures var now := inbox + [x];
      && (forall j :: j != |inbox| ==> (AssignedAt(c, now, j) <==> AssignedAt(c, inbox, j)))
      && (AssignedAt(c, now, |inbox|) <==> x.StartR? && Accepted(c, inbox) && !Assigned(c, inbox))
  {
    var now, k := inbox + [x], |inbox|;
    AcceptedNext(c, inbox, x);
    OneAcceptance(c, inbox);
    hide AcceptedAt;
    assert forall m :: 0 <= m < k ==> now[m] == inbox[m];
    forall j | 0 <= j < k ensures AssignedAt(c, now, j) <==> AssignedAt(c, inbox, j) {}
    if x.StartR? && Accepted(c, inbox) && !Assigned(c, inbox) {
      var i :| AcceptedAt(c, inbox, i);
      assert 0 <= i;
      NoneAssigned(c, inbox, i);
      assert AcceptedAt(c, now, i) && i < k;
    }
    if AssignedAt(c, now, k) {
      var i :| AcceptedAt(c, now, i) && i < k && forall m :: i < m < k ==> !now[m].StartR?;
      assert AcceptedAt(c, inbox, i);
      forall j ensures !AssignedAt(c, inbox, j) {}
    }
  }

  lemma OneAcceptance(c: Config, inbox: seq<Message>)
    ensures forall i, j :: AcceptedAt(c, inbox, i) && AcceptedAt(c, inbox, j) ==> i == j
    ensures forall i :: AcceptedAt(c, inbox, i) ==> 0 <= i < |inbox|
  {
    assert forall i, j :: 0 <= i < j < |inbox| ==> inbox[..j][i] == inbox[i];
  }

  /** If no M_START_R counts, there is none after the acceptance: the first would. */
  lemma NoneAssigned(c: Config, inbox: seq<Message>, i: nat)
    requires AcceptedAt(c, inbox, i) && !Assigned(c, inbox)
    ensures forall m :: i < m < |inbox| ==> !inbox[m].StartR?
  {
    hide AcceptedAt;
    if exists m :: i < m < |inbox| && inbox[m].StartR? {
      var m :| i < m < |inbox| && inbox[m].StartR?;
      FirstAssigned(c, inbox, i, m);
    }
  }

  lemma {:induction false} FirstAssigned(c: Config, inbox: seq<Message>, i: nat, m: nat)
    requires AcceptedAt(c, inbox, i) && i < m < |inbox| && inbox[m].StartR?
    ensures Assigned(c, inbox)
    decreases m
  {
    hide AcceptedAt;
    if exists q :: i < q < m && inbox[q].StartR? {
      var q :| i < q < m && inbox[q].StartR?;
      FirstAssigned(c, inbox, i, q);
    } else {
      assert AssignedAt(c, inbox, m);
    }
  }

  lemma EndedNext(c: Config, inbox: seq<Message>, x: Message, immediate: bool)
    ensures Ended(c, inbox + [x], immediate) <==>
      Ended(c, inbox, immediate)
      || (x == Stop(immediate) && Assigned(c, inbox) && !Ended(c, inbox, true) && !Ended(c, inbox, false))
  {
    var now, k := inbox + [x], |inbox|;
    AssignedNext(c, inbox, x);
    OneAssignment(c, inbox);
    hide AssignedAt;
    assert forall m :: 0 <= m < k ==> now[m] == inbox[m];
    forall l | 0 <= l < k ensures EndedAt(c, now, l) <==> EndedAt(c, inbox, l) {}
    if x == Stop(immediate) && Assigned(c, inbox) && !Ended(c, inbox, true) && !Ended(c, inbox, false) {
      var j :| AssignedAt(c, inbox, j);
      NoneEnded(c, inbox, j);
      assert AssignedAt(c, now, j) && j < k;
      assert EndedAt(c, now, k);
    }
    if EndedAt(c, now, k) {
      var j :| AssignedAt(c, now, j) && j < k && forall m :: j < m < k ==> !now[m].Stop?;
      assert AssignedAt(c, inbox, j);
      forall l ensures !EndedAt(c, inbox, l) {}
    }
  }

  lemma OneAssignment(c: Config, inbox: seq<Message>)
    ensures forall i, j :: AssignedAt(c, inbox, i) && AssignedAt(c, inbox, j) ==> i == j
    ensures forall i :: AssignedAt(c, inbox, i) ==> 0 <= i < |inbox|
  {
    OneAcceptance(c, inbox);
    hide AcceptedAt;
  }

  lemma NoneEnded(c: Config, inbox: seq<Message>, j: nat)
    requires AssignedAt(c, inbox, j) && !Ended(c, inbox, true) && !Ended(c, inbox, false)
    ensures forall m :: j < m < |inbox| ==> !inbox[m].Stop?
  {
    hide AssignedAt;
    if exists m :: j < m < |inbox| && inbox[m].Stop? {
      var m :| j < m < |inbox| && inbox[m].Stop?;
      FirstEnded(c, inbox, j, m);
    }
  }

  lemma {:induction false} FirstEnded(c: Config, inbox: seq<Message>, j: nat, m: nat)
    requires AssignedAt(c, inbox, j) && j < m < |inbox| && inbox[m].Stop?
    ensures Ended(c, inbox, true) || Ended(c, inbox, false)
    decreases m
  {
    hide AssignedAt;
    if exists q :: j < q < m && inbox[q].Stop? {
      var q :| j < q < m && inbox[q].Stop?;
      FirstEnded(c, inbox, j, q);
    } else {
      assert EndedAt(c, inbox, m);
    }
  }

  lemma NothingReceived(c: Config)
    ensures !Accepted(c, []) && !Assigned(c, []) && !Ended(c, [], true) && !Ended(c, [], false)
    ensures Replies([]) == 0 && Refused([])
  {}

  /** What the messages so far amount to. */
  datatype Progress = Progress(accepted: bool, addressed: bool, enrolled: bool, waits: bool)

  ghost function Read(c: Config, inbox: seq<Message>): Progress {
    Progress(Accepted(c, inbox), Assigned(c, inbox), Ended(c, inbox, true), Ended(c, inbox, false))
  }

  lemma InitiatorNext(c: Config, inbox: seq<Message>, x: Message)
    ensures var p, q := Read(c, inbox), Read(c, inbox + [x]);
      && q.accepted == (p.accepted || (x == ConnectR(0) && Refused(inbox) && Replies(inbox) <= Limit(c)))
      && q.addressed == (p.addressed || (x.StartR? && p.accepted))
      && q.enrolled == (p.enrolled || (x == Stop(true) && p.addressed && !p.waits))
      && q.waits == (p.waits || (x == Stop(false) && p.addressed && !p.enrolled))
      && (Refused(inbox + [x]) <==> Refused(inbox) && x != ConnectR(0))
      && Replies(inbox + [x]) == Replies(inbox) + (if x.ConnectR? then 1 else 0)
  {
    var k := |inbox|;
    AcceptedNext(c, inbox, x);
    AssignedNext(c, inbox, x);
    EndedNext(c, inbox, x, true);
    EndedNext(c, inbox, x, false);
    OneAcceptance(c, inbox);
    OneAssignment(c, inbox);
    hide AcceptedAt, AssignedAt, EndedAt, Ended, Refused, Replies, Limit;
    assert forall i :: AcceptedAt(c, inbox, i) ==> AcceptedAt(c, inbox + [x], i);
    assert forall j :: AssignedAt(c, inbox, j) ==> AssignedAt(c, inbox + [x], j);
    assert forall i :: AcceptedAt(c, inbox + [x], i) ==> i == k || AcceptedAt(c, inbox, i);
    assert forall j :: AssignedAt(c, inbox + [x], j) ==> j == k || AssignedAt(c, inbox, j);
  }

  /** The initiator's status, whatever arrived: it connects with the first positive answer, unless its
      retries were used up before; it takes the address of the first M_START_R after that; and the first
      M_STOP after that decides whether it is enrolled. */
  lemma {:induction false} InitiatorExactly(c: Config, n: Node, inbox: seq<Message>)
    requires n.entry == InitiatorEntry(n.entry.immediate)
    ensures
      var e, p := ReceiveAll(c, n, inbox).entry, Read(c, inbox);
      && e.con == (if p.accepted then Established
                   else if Refused(inbox) && Replies(inbox) <= Limit(c) then Authenticating else ConNil)
      && e.enroll == (if p.enrolled then Enrolled else if p.waits then WaitStartOperation
                      else if p.addressed then WaitStop else if p.accepted then WaitStartResponse else EnrollNil)
      && (e.con == Authenticating ==> e.retries == Replies(inbox))
      && (p.accepted ==> !Refused(inbox)) && (p.addressed ==> p.accepted)
      && (p.enrolled || p.waits ==> p.addressed) && !(p.enrolled && p.waits)
    decreases |inbox|
  {
    hide Read, Refused, Replies;
    if inbox == [] {
      assert Read(c, []) == Progress(false, false, false, false) by { NothingRead(c); }
      NothingReceived(c);
    } else {
      var k := |inbox| - 1;
      InitiatorExactly(c, n, inbox[..k]);
      assert inbox[..k] + [inbox[k]] == inbox;
      InitiatorNext(c, inbox[..k], inbox[k]);
    }
  }

  lemma AddressTaken(c: Config, n: Node, x: Message)
    ensures Receive(c, n, x).node.address ==
      if x.StartR? && n.entry.enroll == WaitStartResponse then x.address else n.address
  {
    hide CredentialsMatch;
  }

  /** Its address is the one in that M_START_R. */
  lemma {:induction false} InitiatorAddress(c: Config, n: Node, inbox: seq<Message>)
    requires n.entry == InitiatorEntry(n.entry.immediate)
    ensures var address := ReceiveAll(c, n, inbox).address;
      && (!Assigned(c, inbox) ==> address == n.address)
      && (forall j :: AssignedAt(c, inbox, j) ==> address == inbox[j].address)
    decreases |inbox|
  {
    if inbox == [] {
      NothingReceived(c);
    } else {
      hide AssignedAt, Accepted, Ended, Receive, Refused, Replies, Limit, ReceiveAll;
      var was, x := inbox[..|inbox| - 1], inbox[|inbox| - 1];
      var r := ReceiveAll(c, n, was);
      assert was + [x] == inbox;
      InitiatorAddress(c, n, was);
      InitiatorExactly(c, n, was);
      InitiatorNext(c, was, x);
      AddressNext(c, was, x);
      AddressTaken(c, r, x);
      assert ReceiveAll(c, n, inbox).address == Receive(c, r, x).node.address by { LastReceived(c, n, inbox); }
      forall j | AssignedAt(c, inbox, j) ensures ReceiveAll(c, n, inbox).address == inbox[j].address {
        if Read(c, was).addressed { assert AssignedAt(c, was, j) && inbox[j] == was[j]; }
      }
    }
  }

  lemma LastReceived(c: Config, n: Node, inbox: seq<Message>)
    requires inbox != []
    ensures ReceiveAll(c, n, inbox) == Receive(c, ReceiveAll(c, n, inbox[..|inbox| - 1]), inbox[|inbox| - 1]).node
  {
    hide Receive;
  }

  /** The message that gave the address stays the same once there is one. */
  lemma AddressNext(c: Config, inbox: seq<Message>, x: Message)
    ensures forall j :: AssignedAt(c, inbox + [x], j) ==>
              if Read(c, inbox).addressed then AssignedAt(c, inbox, j) && (inbox + [x])[j] == inbox[j]
              else j == |inbox| && x.StartR? && Read(c, inbox).accepted
  {
    AssignedNext(c, inbox, x);
    OneAssignment(c, inbox);
    OneAssignment(c, inbox + [x]);
    hide AssignedAt, EndedAt, AcceptedAt;
    assert forall j :: AssignedAt(c, inbox, j) ==> Assigned(c, inbox);
  }

  lemma NothingRead(c: Config)
    ensures Read(c, []) == Progress(false, false, false, false)
  {
    NothingReceived(c);
  }
}
