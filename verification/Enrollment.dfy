/** The enrollment module as an object: the state table it searches and the handlers that
    update one entry and emit messages. Each handler is proved against its function in
    module EnrollmentProtocol. */
module Enrollment {
  import opened EnrollmentProtocol

  class EnrollmentStateTableEntry {
    const dstName: string
    var con: ConStatus
    var enroll: EnrollStatus
    var retries: nat
    var immediate: bool
    const initiator: bool

    ghost function State(): EntryState
      reads this
    {
      EntryState(con, enroll, retries, immediate, initiator)
    }

    /** The source leaves the immediate flag uninitialised, so any value may be passed for it. */
    constructor (dstName: string, status: ConStatus, initiator: bool, garbage: bool)
      ensures this.dstName == dstName
      ensures State() == EntryState(status, EnrollNil, 0, garbage, initiator)
    {
      this.dstName := dstName;
      con := status;
      enroll := EnrollNil;
      retries := 0;
      immediate := garbage;
      this.initiator := initiator;
    }
  }

  /** The position of the first entry for a peer, or the number of entries if there is none. */
  function FirstFor(table: seq<EnrollmentStateTableEntry>, peer: string): (k: nat)
    ensures k <= |table|
    ensures k < |table| ==> table[k].dstName == peer
    ensures forall i :: 0 <= i < k ==> table[i].dstName != peer
  {
    if table == [] || table[0].dstName == peer then 0 else 1 + FirstFor(table[1..], peer)
  }

  class Enrollment {
    const config: Config
    var ipcAddress: string
    var table: seq<EnrollmentStateTableEntry>

    ghost predicate Valid()
      reads this
    {
      forall i, j :: 0 <= i < j < |table| ==> table[i] != table[j]
    }

    ghost function NodeAt(k: nat): Node
      requires k < |table|
      reads this, table
    {
      Node(table[k].State(), ipcAddress)
    }

    /** Entry k and the address became what r says, and no other entry changed. */
    twostate predicate Became(k: nat, r: Reaction)
      reads this, table
    {
      && table == old(table)
      && k < |table|
      && NodeAt(k) == r.node
      && forall i :: 0 <= i < |table| && i != k ==> table[i].State() == old(table[i].State())
    }

    constructor (config: Config, ipcAddress: string)
      ensures Valid() && table == [] && this.ipcAddress == ipcAddress && this.config == config
    {
      this.config := config;
      this.ipcAddress := ipcAddress;
      table := [];
    }

    method FindEntryByDstApn(peer: string) returns (entry: EnrollmentStateTableEntry?)
      ensures entry == null <==> FirstFor(table, peer) == |table|
      ensures entry != null ==> entry == table[FirstFor(table, peer)]
    {
      for k := 0 to |table|
        invariant forall i :: 0 <= i < k ==> table[i].dstName != peer
      {
        if table[k].dstName == peer {
          return table[k];
        }
      }
      return null;
    }

    method StartCace(peer: string, garbage: bool) returns (sent: seq<Message>)
      requires Valid()
      modifies this`table
      ensures Valid()
      ensures |table| == |old(table)| + 1 && table[..|old(table)|] == old(table)
      ensures fresh(table[|old(table)|]) && table[|old(table)|].dstName == peer
      ensures table[|old(table)|].State() == InitiatorEntry(garbage)
      ensures sent == [ConnectMessage(config)]
    {
      var entry := new EnrollmentStateTableEntry(peer, Authenticating, true, garbage);
      table := table + [entry];
      sent := [Connect(config.auth, GPB, M_CONNECT)];
    }

    /** Only the first flow to a peer, the management flow, gets an entry. */
    method InsertStateTableEntry(peer: string, garbage: bool)
      requires Valid()
      modifies this`table
      ensures Valid()
      ensures FirstFor(old(table), peer) < |old(table)| ==> table == old(table)
      ensures FirstFor(old(table), peer) == |old(table)| ==>
                && |table| == |old(table)| + 1 && table[..|old(table)|] == old(table)
                && fresh(table[|old(table)|]) && table[|old(table)|].dstName == peer
                && table[|old(table)|].State() == MemberEntry(garbage)
    {
      var found := FindEntryByDstApn(peer);
      if found != null {
        return;
      }
      var entry := new EnrollmentStateTableEntry(peer, ConnectPending, false, garbage);
      table := table + [entry];
    }

    method ReceivePositiveConnectResponse(src: string, m: Message) returns (sent: seq<Message>)
      requires Valid() && FirstFor(table, src) < |table|
      requires m.ConnectR? && m.result == R_SUCCESS
      modifies this`ipcAddress, table
      ensures Valid()
      ensures var r := OnConnectR(config, old(NodeAt(FirstFor(table, src))), m);
              Became(FirstFor(table, src), r) && sent == r.sent
    {
      var entry := FindEntryByDstApn(src);
      if entry.con != Authenticating {
        return [];
      }
      entry.con := Established;
      sent := StartEnrollment(entry);
    }

    method StartEnrollment(entry: EnrollmentStateTableEntry) returns (sent: seq<Message>)
      modifies entry
      ensures entry.State() == old(entry.State()).(enroll := WaitStartResponse)
      ensures sent == [Start(ipcAddress)]
    {
      sent := [Start(ipcAddress)];
      entry.enroll := WaitStartResponse;
    }

    method ReceiveNegativeConnectResponse(src: string, m: Message) returns (sent: seq<Message>)
      requires Valid() && FirstFor(table, src) < |table|
      requires m.ConnectR? && m.result != R_SUCCESS
      modifies this`ipcAddress, table
      ensures Valid()
      ensures var r := OnConnectR(config, old(NodeAt(FirstFor(table, src))), m);
              Became(FirstFor(table, src), r) && sent == r.sent
    {
      var entry := FindEntryByDstApn(src);
      if entry.con != Authenticating {
        return [];
      }
      if config.maxConRetries <= entry.retries {
        entry.con := ConNil;
        return [];
      }
      entry.con := ConnectPending;
      entry.retries := entry.retries + 1;
      sent := ProcessNewConReq(entry);
    }

    method ProcessNewConReq(entry: EnrollmentStateTableEntry) returns (sent: seq<Message>)
      modifies entry
      ensures entry.State() == old(entry.State()).(con := Authenticating)
      ensures sent == [ConnectMessage(config)]
    {
      sent := [Connect(config.auth, GPB, M_CONNECT)];
      entry.con := Authenticating;
    }

    method ReceiveConnectRequest(src: string, m: Message) returns (sent: seq<Message>)
      requires Valid() && FirstFor(table, src) < |table|
      requires m.Connect?
      modifies this`ipcAddress, table
      ensures Valid()
      ensures var r := OnConnect(config, old(NodeAt(FirstFor(table, src))), m);
              Became(FirstFor(table, src), r) && sent == r.sent
    {
      var entry := FindEntryByDstApn(src);
      if entry.con != ConnectPending {
        return [];
      }
      if m.absSyntax != GPB || m.opCode != M_CONNECT {
        sent := ProcessConResNega(entry);
        return;
      }
      entry.con := Authenticating;
      EntitledExactly(m.auth, config.auth);
      sent := Authenticate(entry, m.auth);
    }

    method Authenticate(entry: EnrollmentStateTableEntry, auth: Auth) returns (sent: seq<Message>)
      modifies entry
      ensures Entitled(auth, config.auth) ==>
                && entry.State() == old(entry.State()).(con := Established, enroll := WaitStartEnrollment)
                && sent == [ConnectR(R_SUCCESS)]
      ensures !Entitled(auth, config.auth) ==>
                && entry.State() == old(entry.State()).(con := ConnectPending, retries := old(entry.retries) + 1)
                && sent == [ConnectR(R_FAIL)]
    {
      hide CString, Entitled;
      EntitledExactly(auth, config.auth);
      if auth.kind == config.auth.kind {
        if auth.kind == AUTH_NONE {
          sent := ProcessConResPosi(entry);
          return;
        } else if auth.kind == AUTH_PASSWD {
          if CString(auth.password) == CString(config.auth.password) {
            sent := ProcessConResPosi(entry);
            return;
          }
        }
      }
      sent := ProcessConResNega(entry);
    }

    method ProcessConResPosi(entry: EnrollmentStateTableEntry) returns (sent: seq<Message>)
      modifies entry
      ensures entry.State() == old(entry.State()).(con := Established, enroll := WaitStartEnrollment)
      ensures sent == [ConnectR(R_SUCCESS)]
    {
      sent := [ConnectR(R_SUCCESS)];
      entry.con := Established;
      entry.enroll := WaitStartEnrollment;
    }

    method ProcessConResNega(entry: EnrollmentStateTableEntry) returns (sent: seq<Message>)
      modifies entry
      ensures entry.State() == old(entry.State()).(con := ConnectPending, retries := old(entry.retries) + 1)
      ensures sent == [ConnectR(R_FAIL)]
    {
      sent := [ConnectR(R_FAIL)];
      entry.con := ConnectPending;
      entry.retries := entry.retries + 1;
    }

    method ReceiveStartEnrollmentRequest(src: string, m: Message) returns (sent: seq<Message>)
      requires Valid() && FirstFor(table, src) < |table|
      requires m.Start?
      modifies this`ipcAddress, table
      ensures Valid()
      ensures var r := OnStart(old(NodeAt(FirstFor(table, src))), m);
              Became(FirstFor(table, src), r) && sent == r.sent
    {
      var entry := FindEntryByDstApn(src);
      if entry.enroll != WaitStartEnrollment {
        return [];
      }
      sent := [StartR(m.address)];
      entry.immediate := true;
      sent := sent + [Stop(true)];
      entry.enroll := WaitStopResponse;
    }

    method ReceiveStartEnrollmentResponse(src: string, m: Message) returns (sent: seq<Message>)
      requires Valid() && FirstFor(table, src) < |table|
      requires m.StartR?
      modifies this`ipcAddress, table
      ensures Valid()
      ensures var r := OnStartR(old(NodeAt(FirstFor(table, src))), m);
              Became(FirstFor(table, src), r) && sent == r.sent
    {
      var entry := FindEntryByDstApn(src);
      sent := [];
      if entry.enroll != WaitStartResponse {
        return;
      }
      ipcAddress := m.address;
      entry.enroll := WaitStop;
    }

    method ReceiveStopEnrollmentRequest(src: string, m: Message) returns (sent: seq<Message>)
      requires Valid() && FirstFor(table, src) < |table|
      requires m.Stop?
      modifies this`ipcAddress, table
      ensures Valid()
      ensures var r := OnStop(old(NodeAt(FirstFor(table, src))), m);
              Became(FirstFor(table, src), r) && sent == r.sent
    {
      var entry := FindEntryByDstApn(src);
      if entry.enroll != WaitStop {
        return [];
      }
      entry.immediate := m.immediate;
      entry.enroll := WaitReadResponse;
      sent := [StopR];
      if entry.immediate {
        entry.enroll := Enrolled;
      } else {
        entry.enroll := WaitStartOperation;
      }
    }

    method ReceiveStopEnrollmentResponse(src: string, m: Message) returns (sent: seq<Message>)
      requires Valid() && FirstFor(table, src) < |table|
      requires m.StopR?
      modifies this`ipcAddress, table
      ensures Valid()
      ensures var r := OnStopR(old(NodeAt(FirstFor(table, src))));
              Became(FirstFor(table, src), r) && sent == r.sent
    {
      var entry := FindEntryByDstApn(src);
      sent := [];
      if entry.enroll != WaitStopResponse {
        return;
      }
      if entry.immediate {
        entry.enroll := Enrolled;
      }
    }
  }
}
