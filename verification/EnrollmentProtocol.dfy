/** Connection establishment (CACE) and enrollment of one IPC process by another:
    src/DIF/Enrollment/Enrollment.cc and its state table. */
module EnrollmentProtocol {

  // ---- Data ----

  datatype ConStatus =
    | ConError | ConNil | FlowPending | ConnectPending | Authenticating | Established | Releasing

  datatype EnrollStatus =
    | EnrollError | EnrollNil | WaitStartEnrollment | WaitStartResponse | WaitStop | WaitStopResponse
    | WaitReadResponse | WaitStartOperation | CreatingObj | Enrolled

  /** One row of the state table. */
  datatype EntryState = EntryState(
    con: ConStatus, enroll: EnrollStatus, retries: nat, immediate: bool, initiator: bool)

  const AUTH_NONE := 0
  const AUTH_PASSWD := 1
  const GPB := 8
  const M_CONNECT := 1
  const R_SUCCESS := 0
  const R_FAIL := -1

  datatype Auth = Auth(kind: int, name: string, password: string, other: string)

  datatype Config = Config(auth: Auth, maxConRetries: int)

  datatype Message =
    | Connect(auth: Auth, absSyntax: int, opCode: int)
    | ConnectR(result: int)
    | Start(address: string)
    | StartR(address: string)
    | Stop(immediate: bool)
    | StopR

  /** What one handler may read and change: the table entry of the peer and the IPC address
      kept by the RIB daemon. */
  datatype Node = Node(entry: EntryState, address: string)

  datatype Reaction = Reaction(node: Node, sent: seq<Message>)

  /** The part of a string that strcmp sees. */
  function CString(s: string): string {
    if s == [] || s[0] == '\0' then [] else [s[0]] + CString(s[1..])
  }

  predicate CredentialsMatch(claimed: Auth, expected: Auth) {
    && claimed.kind == expected.kind
    && (claimed.kind == AUTH_NONE
        || (claimed.kind == AUTH_PASSWD && CString(claimed.password) == CString(expected.password)))
  }

  function ConnectMessage(c: Config): Message { Connect(c.auth, GPB, M_CONNECT) }

  // ---- Handlers, on values ----

  function InitiatorEntry(immediate: bool): EntryState {
    EntryState(Authenticating, EnrollNil, 0, immediate, true)
  }

  function MemberEntry(immediate: bool): EntryState {
    EntryState(ConnectPending, EnrollNil, 0, immediate, false)
  }

  function OnConnect(c: Config, n: Node, m: Message): Reaction
    requires m.Connect?
  {
    var e := n.entry;
    if e.con != ConnectPending then
      Reaction(n, [])
    else if m.absSyntax == GPB && m.opCode == M_CONNECT && CredentialsMatch(m.auth, c.auth) then
      Reaction(n.(entry := e.(con := Established, enroll := WaitStartEnrollment)), [ConnectR(R_SUCCESS)])
    else
      Reaction(n.(entry := e.(retries := e.retries + 1)), [ConnectR(R_FAIL)])
  }

  function OnConnectR(c: Config, n: Node, m: Message): Reaction
    requires m.ConnectR?
  {
    var e := n.entry;
    if e.con != Authenticating then
      Reaction(n, [])
    else if m.result == R_SUCCESS then
      Reaction(n.(entry := e.(con := Established, enroll := WaitStartResponse)), [Start(n.address)])
    else if c.maxConRetries <= e.retries then
      Reaction(n.(entry := e.(con := ConNil)), [])
    else
      Reaction(n.(entry := e.(retries := e.retries + 1)), [ConnectMessage(c)])
  }

  function OnStart(n: Node, m: Message): Reaction
    requires m.Start?
  {
    if n.entry.enroll != WaitStartEnrollment then
      Reaction(n, [])
    else
      Reaction(n.(entry := n.entry.(enroll := WaitStopResponse, immediate := true)),
               [StartR(m.address), Stop(true)])
  }

  function OnStartR(n: Node, m: Message): Reaction
    requires m.StartR?
  {
    if n.entry.enroll != WaitStartResponse then
      Reaction(n, [])
    else
      Reaction(Node(n.entry.(enroll := WaitStop), m.address), [])
  }

  function OnStop(n: Node, m: Message): Reaction
    requires m.Stop?
  {
    if n.entry.enroll != WaitStop then
      Reaction(n, [])
    else
      var next := if m.immediate then Enrolled else WaitStartOperation;
      Reaction(n.(entry := n.entry.(immediate := m.immediate, enroll := next)), [StopR])
  }

  function OnStopR(n: Node): Reaction {
    if n.entry.enroll == WaitStopResponse && n.entry.immediate then
      Reaction(n.(entry := n.entry.(enroll := Enrolled)), [])
    else
      Reaction(n, [])
  }

  function Receive(c: Config, n: Node, m: Message): Reaction {
    match m
    case Connect(_, _, _) => OnConnect(c, n, m)
    case ConnectR(_) => OnConnectR(c, n, m)
    case Start(_) => OnStart(n, m)
    case StartR(_) => OnStartR(n, m)
    case Stop(_) => OnStop(n, m)
    case StopR => OnStopR(n)
  }

  // ---- Who is let in ----

  /** The character at i, where the end of a string counts as a NUL. */
  function CharAt(s: string, i: nat): char { if i < |s| then s[i] else '\0' }

  /** Position i belongs to both strings as strcmp sees them: no NUL comes before it. */
  ghost predicate Reached(s: string, t: string, i: nat) {
    forall j: nat :: j < i ==> CharAt(s, j) != '\0' && CharAt(t, j) != '\0'
  }

  /** The types are equal, and either there is no authentication (0), or it is by password (1) and the
      passwords agree up to their first NUL. */
  ghost predicate Entitled(claimed: Auth, expected: Auth) {
    && claimed.kind == expected.kind
    && (claimed.kind == 0
        || (claimed.kind == 1
            && forall i: nat :: Reached(claimed.password, expected.password, i) ==>
                 CharAt(claimed.password, i) == CharAt(expected.password, i)))
  }

  lemma ReachedTail(s: string, t: string, i: nat)
    requires s != [] && t != [] && s[0] != '\0' && t[0] != '\0'
    ensures Reached(s, t, i + 1) <==> Reached(s[1..], t[1..], i)
  {
    forall j: nat ensures CharAt(s, j + 1) == CharAt(s[1..], j) && CharAt(t, j + 1) == CharAt(t[1..], j) {}
    if Reached(s, t, i + 1) {
      forall j: nat | j < i ensures CharAt(s[1..], j) != '\0' && CharAt(t[1..], j) != '\0' {
        assert CharAt(s, j + 1) != '\0' && CharAt(t, j + 1) != '\0';
      }
    }
    if Reached(s[1..], t[1..], i) {
      forall j: nat | j < i + 1 ensures CharAt(s, j) != '\0' && CharAt(t, j) != '\0' {
        if j > 0 { assert CharAt(s[1..], j - 1) != '\0' && CharAt(t[1..], j - 1) != '\0'; }
      }
    }
  }

  lemma {:induction false} SameCharacters(s: string, t: string, i: nat)
    requires CString(s) == CString(t) && Reached(s, t, i)
    ensures CharAt(s, i) == CharAt(t, i)
    decreases |s|
  {
    if s == [] || s[0] == '\0' {
      assert t == [] || t[0] == '\0';
      assert i > 0 ==> CharAt(s, 0) != '\0';
    } else {
      assert t != [] && t[0] == s[0] && CString(s)[1..] == CString(t)[1..];
      if i > 0 {
        ReachedTail(s, t, i - 1);
        SameCharacters(s[1..], t[1..], i - 1);
      }
    }
  }

  lemma {:induction false} SameStrings(s: string, t: string)
    requires forall i: nat :: Reached(s, t, i) ==> CharAt(s, i) == CharAt(t, i)
    ensures CString(s) == CString(t)
    decreases |s|
  {
    assert Reached(s, t, 0) && CharAt(s, 0) == CharAt(t, 0);
    if s != [] && s[0] != '\0' {
      forall i: nat | Reached(s[1..], t[1..], i) ensures CharAt(s[1..], i) == CharAt(t[1..], i) {
        ReachedTail(s, t, i);
        assert CharAt(s, i + 1) == CharAt(t, i + 1);
      }
      SameStrings(s[1..], t[1..]);
    }
  }

  lemma EntitledExactly(claimed: Auth, expected: Auth)
    ensures CredentialsMatch(claimed, expected) <==> Entitled(claimed, expected)
  {
    hide CString, Reached;
    var s, t := claimed.password, expected.password;
    if CString(s) == CString(t) {
      forall i: nat | Reached(s, t, i) ensures CharAt(s, i) == CharAt(t, i) { SameCharacters(s, t, i); }
    }
    if forall i: nat :: Reached(s, t, i) ==> CharAt(s, i) == CharAt(t, i) { SameStrings(s, t); }
  }

  /** A waiting member lets in exactly who is entitled and speaks its syntax (8) with the operation
      code of M_CONNECT (1); anybody else gets a failure (-1), and the refusal is counted. */
  lemma ConnectDecidedExactly(c: Config, n: Node, m: Message)
    requires m.Connect? && n.entry.con == ConnectPending
    ensures
      var r := OnConnect(c, n, m);
      if m.absSyntax == 8 && m.opCode == 1 && Entitled(m.auth, c.auth) then
        r.sent == [ConnectR(0)] && r.node.entry.con == Established && r.node.entry.enroll == WaitStartEnrollment
        && r.node.entry.retries == n.entry.retries
      else
        r.sent == [ConnectR(-1)] && r.node.entry == n.entry.(retries := n.entry.retries + 1)
  {
    hide CredentialsMatch, Entitled;
    EntitledExactly(m.auth, c.auth);
  }

  /** Two passwords that differ where no NUL comes before are refused. */
  lemma WrongPasswordRefused(c: Config, n: Node, m: Message, i: nat)
    requires m.Connect? && n.entry.con == ConnectPending && c.auth.kind == 1
    requires forall j: nat :: j < i ==> CharAt(m.auth.password, j) != '\0' && CharAt(c.auth.password, j) != '\0'
    requires CharAt(m.auth.password, i) != CharAt(c.auth.password, i)
    ensures OnConnect(c, n, m).sent == [ConnectR(-1)] && OnConnect(c, n, m).node.entry.con == ConnectPending
  {
    ConnectDecidedExactly(c, n, m);
    assert Reached(m.auth.password, c.auth.password, i);
  }

  // ---- One side against arbitrary, even forged, messages ----

  function ReceiveAll(c: Config, n: Node, inbox: seq<Message>): Node
    decreases |inbox|
  {
    if inbox == [] then n else Receive(c, ReceiveAll(c, n, inbox[..|inbox| - 1]), inbox[|inbox| - 1]).node
  }

  ghost predicate EnrollingNeedsConnection(e: EntryState) {
    e.enroll != EnrollNil ==> e.con == Established
  }

  lemma ReceiveKeepsConnection(c: Config, n: Node, m: Message)
    ensures n.entry.con == Established ==> Receive(c, n, m).node.entry.con == Established
    ensures EnrollingNeedsConnection(n.entry) ==> EnrollingNeedsConnection(Receive(c, n, m).node.entry)
  {
    hide CredentialsMatch;
  }

  /** Whatever arrives, an established connection stays established, and a side that is
      anywhere in the enrollment phase has an established connection. */
  lemma {:induction false} ConnectionKept(c: Config, n: Node, inbox: seq<Message>)
    ensures n.entry.con == Established ==> ReceiveAll(c, n, inbox).entry.con == Established
    ensures EnrollingNeedsConnection(n.entry) ==> EnrollingNeedsConnection(ReceiveAll(c, n, inbox).entry)
    decreases |inbox|
  {
    hide Receive, EnrollingNeedsConnection;
    if inbox != [] {
      var k := |inbox| - 1;
      ConnectionKept(c, n, inbox[..k]);
      ReceiveKeepsConnection(c, ReceiveAll(c, n, inbox[..k]), inbox[k]);
    }
  }

  /** Authentication safety against a network that may also forge: a member's connection is
      established exactly if it received an M_CONNECT from somebody entitled. */
  lemma {:induction false} EstablishedOnlyByCredentials(c: Config, n: Node, inbox: seq<Message>)
    requires n.entry.con == ConnectPending
    ensures var con := ReceiveAll(c, n, inbox).entry.con;
      && (con == ConnectPending || con == Established)
      && (con == Established <==>
          exists k :: 0 <= k < |inbox| && inbox[k].Connect? && inbox[k].absSyntax == 8
                      && inbox[k].opCode == 1 && Entitled(inbox[k].auth, c.auth))
    decreases |inbox|
  {
    hide CredentialsMatch, Entitled;
    if inbox != [] {
      var k := |inbox| - 1;
      EstablishedOnlyByCredentials(c, n, inbox[..k]);
      if inbox[k].Connect? { EntitledExactly(inbox[k].auth, c.auth); }
    }
  }

  // ---- Initiator and member over a lossy, duplicating, reordering channel ----

  datatype Pair = Pair(initiator: Config, member: Config)

  /** The sets hold everything ever sent. A step delivers any of it, so messages may be lost,
      duplicated and reordered, but not forged. */
  datatype System = System(i: Node, m: Node, toMember: set<Message>, toInitiator: set<Message>)

  ghost predicate Initial(p: Pair, s: System) {
    && s.i.entry == InitiatorEntry(s.i.entry.immediate)
    && s.m.entry == MemberEntry(s.m.entry.immediate)
    && s.toMember == {ConnectMessage(p.initiator)}
    && s.toInitiator == {}
  }

  function ToSet(ms: seq<Message>): set<Message> { set x | x in ms }

  function DeliverToMember(p: Pair, s: System, x: Message): System {
    var r := Receive(p.member, s.m, x);
    s.(m := r.node, toInitiator := s.toInitiator + ToSet(r.sent))
  }

  function DeliverToInitiator(p: Pair, s: System, x: Message): System {
    var r := Receive(p.initiator, s.i, x);
    s.(i := r.node, toMember := s.toMember + ToSet(r.sent))
  }

  ghost predicate Step(p: Pair, s: System, t: System) {
    || (exists x :: x in s.toMember && t == DeliverToMember(p, s, x))
    || (exists x :: x in s.toInitiator && t == DeliverToInitiator(p, s, x))
  }

  ghost predicate IsRun(p: Pair, run: seq<System>) {
    && |run| > 0
    && Initial(p, run[0])
    && forall k :: 0 < k < |run| ==> Step(p, run[k - 1], run[k])
  }

  ghost predicate MemberAnswered(m: EntryState) {
    (m.enroll == WaitStopResponse || m.enroll == Enrolled) && m.immediate
  }

  ghost predicate InitiatorInvariant(p: Pair, s: System) {
    var e := s.i.entry;
    && (e.con == Authenticating || e.con == ConNil || e.con == Established)
    && (e.con != Established ==> e.enroll == EnrollNil)
    && (e.con == Established ==>
        && s.m.entry.con == Established
        && (e.enroll == WaitStartResponse || e.enroll == WaitStop || e.enroll == Enrolled))
    && (e.enroll == WaitStop || e.enroll == Enrolled ==> MemberAnswered(s.m.entry))
  }

  ghost predicate MemberInvariant(p: Pair, s: System) {
    var e := s.m.entry;
    && (e.con == ConnectPending || e.con == Established)
    && (e.con == ConnectPending ==> e.enroll == EnrollNil)
    && (e.con == Established ==>
        && CredentialsMatch(p.initiator.auth, p.member.auth)
        && (e.enroll == WaitStartEnrollment || MemberAnswered(e)))
    && (e.enroll == Enrolled ==> s.i.entry.enroll == Enrolled)
  }

  ghost predicate InMember(p: Pair, s: System, address: string, x: Message) {
    match x
    case Connect(_, _, _) => x == ConnectMessage(p.initiator)
    case Start(a) => s.i.entry.con == Established && a == address
    case StopR => s.i.entry.enroll == Enrolled
    case _ => false
  }

  ghost predicate InInitiator(p: Pair, s: System, address: string, x: Message) {
    match x
    case ConnectR(r) => r == R_SUCCESS ==> s.m.entry.con == Established
    case StartR(a) => MemberAnswered(s.m.entry) && a == address
    case Stop(immediate) => MemberAnswered(s.m.entry) && immediate
    case _ => false
  }

  ghost predicate Invariant(p: Pair, s: System, address: string) {
    && s.i.address == address
    && InitiatorInvariant(p, s)
    && MemberInvariant(p, s)
    && (forall x :: x in s.toMember ==> InMember(p, s, address, x))
    && (forall x :: x in s.toInitiator ==> InInitiator(p, s, address, x))
  }

  ghost predicate Progress(s: System, t: System) {
    && (s.i.entry.con == Established ==> t.i.entry.con == Established)
    && (s.m.entry.con == Established ==> t.m.entry.con == Established)
    && (s.i.entry.enroll == Enrolled ==> t.i.entry.enroll == Enrolled)
    && (s.m.entry.enroll == Enrolled ==> t.m.entry.enroll == Enrolled)
    && t.i.address == s.i.address
  }

  lemma MemberDeliveryKeepsInvariant(p: Pair, s: System, x: Message, address: string)
    requires Invariant(p, s, address) && x in s.toMember
    ensures var t := DeliverToMember(p, s, x); Invariant(p, t, address) && Progress(s, t)
  {
    hide CredentialsMatch;
    var t := DeliverToMember(p, s, x);
    assert InMember(p, s, address, x);
    assert InitiatorInvariant(p, t) && MemberInvariant(p, t);
    forall y | y in t.toInitiator
      ensures InInitiator(p, t, address, y)
    {
      assert y in s.toInitiator ==> InInitiator(p, s, address, y);
    }
    forall y | y in t.toMember
      ensures InMember(p, t, address, y)
    {
      assert InMember(p, s, address, y);
    }
  }

  lemma InitiatorDeliveryKeepsInvariant(p: Pair, s: System, x: Message, address: string)
    requires Invariant(p, s, address) && x in s.toInitiator
    ensures var t := DeliverToInitiator(p, s, x); Invariant(p, t, address) && Progress(s, t)
  {
    hide CredentialsMatch;
    var t := DeliverToInitiator(p, s, x);
    assert InInitiator(p, s, address, x);
    assert InitiatorInvariant(p, t) && MemberInvariant(p, t);
    forall y | y in t.toMember
      ensures InMember(p, t, address, y)
    {
      assert y in s.toMember ==> InMember(p, s, address, y);
    }
    forall y | y in t.toInitiator
      ensures InInitiator(p, t, address, y)
    {
      assert InInitiator(p, s, address, y);
    }
  }

  lemma StepKeepsInvariant(p: Pair, s: System, t: System, address: string)
    requires Invariant(p, s, address) && Step(p, s, t)
    ensures Invariant(p, t, address) && Progress(s, t)
  {
    hide Invariant, Progress, DeliverToMember, DeliverToInitiator;
    if x :| x in s.toMember && t == DeliverToMember(p, s, x) {
      MemberDeliveryKeepsInvariant(p, s, x, address);
    } else {
      var x :| x in s.toInitiator && t == DeliverToInitiator(p, s, x);
      InitiatorDeliveryKeepsInvariant(p, s, x, address);
    }
  }

  lemma {:induction false} RunKeepsInvariant(p: Pair, run: seq<System>, k: nat)
    requires IsRun(p, run) && k < |run|
    ensures Invariant(p, run[k], run[0].i.address)
  {
    if k > 0 {
      hide Invariant, Step;
      RunKeepsInvariant(p, run, k - 1);
      StepKeepsInvariant(p, run[k - 1], run[k], run[0].i.address);
    }
  }

  /** Enrollment agreement in every state of every run: an enrolled initiator has a member that
      answered and will move to the operational state at once; an enrolled member has an
      enrolled initiator. */
  lemma EnrollmentAgreement(p: Pair, run: seq<System>, k: nat)
    requires IsRun(p, run) && k < |run|
    ensures run[k].i.entry.enroll == Enrolled ==>
              && (run[k].m.entry.enroll == WaitStopResponse || run[k].m.entry.enroll == Enrolled)
              && run[k].m.entry.immediate
    ensures run[k].m.entry.enroll == Enrolled ==> run[k].i.entry.enroll == Enrolled
  {
    RunKeepsInvariant(p, run, k);
  }

  /** Authentication safety in every state of every run. */
  lemma Authenticated(p: Pair, run: seq<System>, k: nat)
    requires IsRun(p, run) && k < |run|
    ensures run[k].i.entry.con == Established ==> run[k].m.entry.con == Established
    ensures run[k].m.entry.con == Established ==> Entitled(p.initiator.auth, p.member.auth)
    ensures run[k].i.entry.enroll != EnrollNil ==> run[k].i.entry.con == Established
    ensures run[k].m.entry.enroll != EnrollNil ==> run[k].m.entry.con == Established
  {
    hide CredentialsMatch, Entitled;
    EntitledExactly(p.initiator.auth, p.member.auth);
    RunKeepsInvariant(p, run, k);
  }

  lemma ProgressTransitive(s: System, t: System, u: System)
    requires Progress(s, t) && Progress(t, u)
    ensures Progress(s, u)
  {}

  /** Between any two states of a run: once established a connection stays so, once enrolled a
      side stays so, and the address the initiator is assigned is the one it already had. */
  lemma {:induction false} ProgressIsStable(p: Pair, run: seq<System>, j: nat, k: nat)
    requires IsRun(p, run) && j <= k < |run|
    ensures Progress(run[j], run[k])
    decreases k
  {
    hide Invariant, Step, Initial;
    if j < k {
      hide Progress;
      RunKeepsInvariant(p, run, k - 1);
      StepKeepsInvariant(p, run[k - 1], run[k], run[0].i.address);
      ProgressIsStable(p, run, j, k - 1);
      ProgressTransitive(run[j], run[k - 1], run[k]);
    }
  }

  // ---- The same two sides over lossless first-in first-out channels ----

  /** connects counts the M_CONNECT messages sent so far. */
  datatype Fifo = Fifo(i: Node, m: Node, toMember: seq<Message>, toInitiator: seq<Message>, connects: nat)

  ghost predicate FifoInitial(p: Pair, s: Fifo) {
    && s.i.entry == InitiatorEntry(s.i.entry.immediate)
    && s.m.entry == MemberEntry(s.m.entry.immediate)
    && s.toMember == [ConnectMessage(p.initiator)]
    && s.toInitiator == []
    && s.connects == 1
  }

  function CountConnects(ms: seq<Message>): nat {
    if ms == [] then 0 else (if ms[0].Connect? then 1 else 0) + CountConnects(ms[1..])
  }

  function MemberTurn(p: Pair, s: Fifo): Fifo
    requires s.toMember != []
  {
    var r := Receive(p.member, s.m, s.toMember[0]);
    s.(m := r.node, toMember := s.toMember[1..], toInitiator := s.toInitiator + r.sent)
  }

  function InitiatorTurn(p: Pair, s: Fifo): Fifo
    requires s.toInitiator != []
  {
    var r := Receive(p.initiator, s.i, s.toInitiator[0]);
    s.(i := r.node, toInitiator := s.toInitiator[1..], toMember := s.toMember + r.sent,
       connects := s.connects + CountConnects(r.sent))
  }

  ghost predicate FifoStep(p: Pair, s: Fifo, t: Fifo) {
    || (s.toMember != [] && t == MemberTurn(p, s))
    || (s.toInitiator != [] && t == InitiatorTurn(p, s))
  }

  ghost predicate Quiet(s: Fifo) { s.toMember == [] && s.toInitiator == [] }

  ghost predicate IsFifoRun(p: Pair, run: seq<Fifo>) {
    && |run| > 0
    && FifoInitial(p, run[0])
    && forall k :: 0 < k < |run| ==> FifoStep(p, run[k - 1], run[k])
  }

  function Retries(p: Pair): nat { if p.initiator.maxConRetries < 0 then 0 else p.initiator.maxConRetries }

  /** The phases a run goes through. */
  datatype Phase =
    | Connecting(r: nat) | Refused(r: nat) | GivenUp
    | Accepted | Starting | Responding | Stopping | Confirming | Finished

  function Next(p: Pair, ph: Phase): Phase {
    match ph
    case Connecting(r) => if CredentialsMatch(p.initiator.auth, p.member.auth) then Accepted else Refused(r)
    case Refused(r) => if r < Retries(p) then Connecting(r + 1) else GivenUp
    case GivenUp => GivenUp
    case Accepted => Starting
    case Starting => Responding
    case Responding => Stopping
    case Stopping => Confirming
    case Confirming => Finished
    case Finished => Finished
  }

  /** How many deliveries are left. */
  function Left(p: Pair, ph: Phase): nat {
    match ph
    case Connecting(r) =>
      if CredentialsMatch(p.initiator.auth, p.member.auth) then 6
      else if r <= Retries(p) then 2 * (Retries(p) - r) + 2 else 2
    case Refused(r) => if r <= Retries(p) then 2 * (Retries(p) - r) + 1 else 1
    case GivenUp => 0
    case Accepted => 5
    case Starting => 4
    case Responding => 3
    case Stopping => 2
    case Confirming => 1
    case Finished => 0
  }

  ghost predicate Connected(p: Pair, s: Fifo, i: EnrollStatus, m: EnrollStatus) {
    && CredentialsMatch(p.initiator.auth, p.member.auth)
    && s.i.entry.con == Established && s.i.entry.enroll == i
    && s.m.entry.con == Established && s.m.entry.enroll == m
    && s.connects == 1
  }

  ghost predicate At(p: Pair, s: Fifo, ph: Phase, address: string) {
    var matching := CredentialsMatch(p.initiator.auth, p.member.auth);
    var i, m := s.i.entry, s.m.entry;
    && s.i.address == address
    && match ph
       case Connecting(r) =>
         && r <= Retries(p) && (matching ==> r == 0)
         && i.con == Authenticating && i.enroll == EnrollNil && i.retries == r
         && m.con == ConnectPending && m.enroll == EnrollNil && m.retries == r
         && s.toMember == [ConnectMessage(p.initiator)] && s.toInitiator == [] && s.connects == r + 1
       case Refused(r) =>
         && r <= Retries(p) && !matching
         && i.con == Authenticating && i.enroll == EnrollNil && i.retries == r
         && m.con == ConnectPending && m.enroll == EnrollNil && m.retries == r + 1
         && s.toMember == [] && s.toInitiator == [ConnectR(R_FAIL)] && s.connects == r + 1
       case GivenUp =>
         && !matching
         && i.con == ConNil && i.enroll == EnrollNil && i.retries == Retries(p)
         && m.con == ConnectPending && m.enroll == EnrollNil && m.retries == Retries(p) + 1
         && Quiet(s) && s.connects == Retries(p) + 1
       case Accepted =>
         && matching && s.connects == 1
         && i.con == Authenticating && i.enroll == EnrollNil
         && m.con == Established && m.enroll == WaitStartEnrollment
         && s.toMember == [] && s.toInitiator == [ConnectR(R_SUCCESS)]
       case Starting =>
         && Connected(p, s, WaitStartResponse, WaitStartEnrollment)
         && s.toMember == [Start(address)] && s.toInitiator == []
       case Responding =>
         && Connected(p, s, WaitStartResponse, WaitStopResponse) && m.immediate
         && s.toMember == [] && s.toInitiator == [StartR(address), Stop(true)]
       case Stopping =>
         && Connected(p, s, WaitStop, WaitStopResponse) && m.immediate
         && s.toMember == [] && s.toInitiator == [Stop(true)]
       case Confirming =>
         && Connected(p, s, Enrolled, WaitStopResponse) && m.immediate
         && s.toMember == [StopR] && s.toInitiator == []
       case Finished => Connected(p, s, Enrolled, Enrolled) && Quiet(s)
  }

  lemma CountOne(x: Message)
    ensures CountConnects([x]) == if x.Connect? then 1 else 0
  {
    assert [x][1..] == [];
  }

  lemma MemberTurnAdvances(p: Pair, s: Fifo, ph: Phase, address: string)
    requires At(p, s, ph, address) && s.toMember != []
    ensures At(p, MemberTurn(p, s), Next(p, ph), address)
    ensures ph.Connecting? || ph.Starting? || ph.Confirming?
  {
    hide CredentialsMatch;
    var t := MemberTurn(p, s);
    assert s.toMember[1..] == [] && s.toInitiator == [];
    match ph
    case Connecting(r) =>
      assert s.toMember[0] == ConnectMessage(p.initiator);
    case Starting =>
      assert s.toMember[0] == Start(address);
    case Confirming =>
      assert s.toMember[0] == StopR;
  }

  lemma InitiatorTurnAdvances(p: Pair, s: Fifo, ph: Phase, address: string)
    requires At(p, s, ph, address) && s.toInitiator != []
    ensures At(p, InitiatorTurn(p, s), Next(p, ph), address)
    ensures ph.Refused? || ph.Accepted? || ph.Responding? || ph.Stopping?
  {
    hide CredentialsMatch;
    var t := InitiatorTurn(p, s);
    match ph
    case Refused(r) =>
      assert s.toInitiator[0] == ConnectR(R_FAIL) && t.toInitiator == [];
      CountOne(ConnectMessage(p.initiator));
      if r < Retries(p) {
        assert t.toMember == [ConnectMessage(p.initiator)] && t.connects == s.connects + 1;
      } else {
        assert t.toMember == [] && t.connects == s.connects;
      }
    case Accepted =>
      assert s.toInitiator[0] == ConnectR(R_SUCCESS) && t.toInitiator == [];
      CountOne(Start(address));
      assert t.toMember == [Start(address)] && t.connects == 1;
    case Responding =>
      assert s.toInitiator[0] == StartR(address) && t.toInitiator == [Stop(true)];
      assert t.toMember == [] && t.connects == 1;
    case Stopping =>
      assert s.toInitiator[0] == Stop(true) && t.toInitiator == [];
      CountOne(StopR);
      assert t.toMember == [StopR] && t.connects == 1;
  }

  lemma StepToNextPhase(p: Pair, s: Fifo, t: Fifo, ph: Phase, address: string)
    requires At(p, s, ph, address) && FifoStep(p, s, t)
    ensures At(p, t, Next(p, ph), address)
    ensures Left(p, Next(p, ph)) + 1 == Left(p, ph)
  {
    RefusalsWithinRetries(p, s, ph, address);
    hide CredentialsMatch, At, MemberTurn, InitiatorTurn, Receive;
    if s.toMember != [] && t == MemberTurn(p, s) {
      MemberTurnAdvances(p, s, ph, address);
    } else {
      InitiatorTurnAdvances(p, s, ph, address);
    }
  }

  lemma RefusalsWithinRetries(p: Pair, s: Fifo, ph: Phase, address: string)
    requires At(p, s, ph, address)
    ensures ph.Connecting? || ph.Refused? ==> ph.r <= Retries(p)
    ensures ph.Connecting? && CredentialsMatch(p.initiator.auth, p.member.auth) ==> ph.r == 0
  {
    hide CredentialsMatch;
  }

  /** The phase reached after k deliveries. */
  function PhaseAfter(p: Pair, k: nat): Phase {
    if k == 0 then Connecting(0) else Next(p, PhaseAfter(p, k - 1))
  }

  lemma {:induction false} RunFollowsPhases(p: Pair, run: seq<Fifo>, k: nat)
    requires IsFifoRun(p, run) && k < |run|
    ensures At(p, run[k], PhaseAfter(p, k), run[0].i.address)
    ensures Left(p, PhaseAfter(p, k)) + k == Left(p, Connecting(0))
  {
    if k > 0 {
      RunFollowsPhases(p, run, k - 1);
      StepToNextPhase(p, run[k - 1], run[k], PhaseAfter(p, k - 1), run[0].i.address);
    }
  }

  ghost predicate Succeeded(s: Fifo) {
    s.i.entry.enroll == Enrolled && s.m.entry.enroll == Enrolled && s.connects == 1
  }

  ghost predicate Failed(p: Pair, s: Fifo) {
    && s.i.entry.con == ConNil && s.m.entry.con == ConnectPending
    && s.connects == Retries(p) + 1 && s.m.entry.retries == Retries(p) + 1
  }

  lemma QuietAtTheEnd(p: Pair, s: Fifo, ph: Phase, address: string)
    requires At(p, s, ph, address)
    ensures Quiet(s) <==> Left(p, ph) == 0
    ensures !Quiet(s) ==> exists t :: FifoStep(p, s, t)
    ensures Quiet(s) ==>
      if Entitled(p.initiator.auth, p.member.auth) then Succeeded(s) else Failed(p, s)
  {
    hide CredentialsMatch, Entitled, Receive;
    EntitledExactly(p.initiator.auth, p.member.auth);
    if s.toMember != [] {
      assert FifoStep(p, s, MemberTurn(p, s));
    } else if s.toInitiator != [] {
      assert FifoStep(p, s, InitiatorTurn(p, s));
    }
  }

  /** Every run over lossless first-in first-out channels ends, after a number of deliveries
      fixed by the credentials and the retry limit, in one of two outcomes: both sides enrolled
      after a single M_CONNECT, or the initiator gives up after its last retry with the member
      back to waiting for a connection. */
  lemma EnrollmentTerminates(p: Pair, run: seq<Fifo>)
    requires IsFifoRun(p, run)
    ensures
      var last := run[|run| - 1];
      var success := Entitled(p.initiator.auth, p.member.auth);
      var total := if success then 6 else 2 * Retries(p) + 2;
      && |run| - 1 <= total
      && (Quiet(last) <==> |run| - 1 == total)
      && (!Quiet(last) ==> exists t :: FifoStep(p, last, t))
      && (Quiet(last) ==> if success then Succeeded(last) else Failed(p, last))
  {
    hide CredentialsMatch, Entitled, At, FifoStep;
    EntitledExactly(p.initiator.auth, p.member.auth);
    var k := |run| - 1;
    RunFollowsPhases(p, run, k);
    QuietAtTheEnd(p, run[k], PhaseAfter(p, k), run[0].i.address);
  }
}
