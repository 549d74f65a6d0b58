/** The CDAP message log and the splitter that filters unsolicited responses:
    src/DAF/CDAP/CDAPMsgLog.cc and CDAPSplitter.cc. */
module CdapLog {

  /** Whether the message class belongs to connection management or to object operations. */
  datatype Kind = ConnectionMessage | ObjectMessage

  datatype Message = Message(kind: Kind, opCode: int, invokeId: int)

  /** The log keeps the operation code in an unsigned char. */
  datatype LogEntry = LogEntry(opCode: nat, invokeId: int, sent: bool)

  datatype Gate = ToCace | ToCdap | ToSouth

  predicate IsResponse(m: Message) { m.opCode % 2 == 0 }

  function Entry(m: Message, sent: bool): LogEntry { LogEntry(m.opCode % 256, m.invokeId, sent) }

  predicate Solicits(e: LogEntry, m: Message) { e.opCode == m.opCode - 1 && e.invokeId == m.invokeId }

  ghost predicate Accepted(log: seq<LogEntry>, m: Message) {
    IsResponse(m) ==> exists k :: 0 <= k < |log| && Solicits(log[k], m)
  }

  class CdapMsgLog {
    var entries: seq<LogEntry>

    constructor ()
      ensures entries == []
    {
      entries := [];
    }

    method Insert(m: Message, sent: bool)
      modifies this
      ensures entries == old(entries) + [Entry(m, sent)]
    {
      entries := entries + [Entry(m, sent)];
    }

    method FindRequestByInvId(m: Message) returns (found: bool)
      ensures found <==> exists k :: 0 <= k < |entries| && Solicits(entries[k], m)
    {
      for k := 0 to |entries|
        invariant forall i :: 0 <= i < k ==> !Solicits(entries[i], m)
      {
        if Solicits(entries[k], m) {
          return true;
        }
      }
      return false;
    }
  }

  class CdapSplitter {
    const msgLog: CdapMsgLog

    constructor (msgLog: CdapMsgLog)
      ensures this.msgLog == msgLog
    {
      this.msgLog := msgLog;
    }

    /** Returns the gates the message is forwarded to, none if it is discarded. */
    method HandleMessage(m: Message, fromSouth: bool) returns (out: seq<Gate>)
      modifies msgLog
      ensures
        var log := old(msgLog.entries);
        var solicited := exists k :: 0 <= k < |log| && log[k].opCode == m.opCode - 1 && log[k].invokeId == m.invokeId;
        if m.opCode % 2 == 0 && !solicited then out == [] && msgLog.entries == log
        else
          && msgLog.entries == log + [LogEntry(m.opCode % 256, m.invokeId, !fromSouth)]
          && out == [if !fromSouth then ToSouth else if m.kind == ConnectionMessage then ToCace else ToCdap]
      ensures Accepted(old(msgLog.entries), m) <==> out != []
    {
      if m.opCode % 2 == 0 {
        var found := msgLog.FindRequestByInvId(m);
        if !found {
          return [];
        }
      }
      if fromSouth {
        msgLog.Insert(m, false);
        if m.kind == ConnectionMessage {
          out := [ToCace];
        } else {
          out := [ToCdap];
        }
      } else {
        msgLog.Insert(m, true);
        out := [ToSouth];
      }
    }
  }

  // ---- Whole runs ----

  datatype Arrival = Arrival(message: Message, fromSouth: bool)

  /** The arrivals that were forwarded, in order. */
  ghost function Forwarded(inbox: seq<Arrival>): seq<Arrival>
    decreases |inbox|
  {
    if inbox == [] then []
    else
      var before := Forwarded(inbox[..|inbox| - 1]);
      var x := inbox[|inbox| - 1];
      if Accepted(LogOf(before), x.message) then before + [x] else before
  }

  ghost function LogOf(arrivals: seq<Arrival>): (log: seq<LogEntry>)
    ensures |log| == |arrivals|
    ensures forall k :: 0 <= k < |log| ==> log[k] == Entry(arrivals[k].message, !arrivals[k].fromSouth)
  {
    seq(|arrivals|, k requires 0 <= k < |arrivals| => Entry(arrivals[k].message, !arrivals[k].fromSouth))
  }

  ghost predicate Answers(response: Message, request: Message) {
    response.opCode - 1 == request.opCode % 256 && response.invokeId == request.invokeId
  }

  /** Only solicited responses are forwarded, in whatever order and direction messages arrive:
      every forwarded response has an operation code between 1 and 256 and follows a forwarded
      message with the same invoke-id whose code is one less, up to the eight bits that are kept. */
  lemma {:induction false} NoUnsolicitedResponse(inbox: seq<Arrival>, k: nat)
    ensures var fs := Forwarded(inbox);
      k < |fs| && fs[k].message.opCode % 2 == 0 ==>
        1 <= fs[k].message.opCode <= 256
        && exists j :: 0 <= j < k && Answers(fs[k].message, fs[j].message)
    decreases |inbox|
  {
    if inbox != [] {
      var before := Forwarded(inbox[..|inbox| - 1]);
      NoUnsolicitedResponse(inbox[..|inbox| - 1], k);
      var m := inbox[|inbox| - 1].message;
      if k < |before| && IsResponse(before[k].message) {
        var j :| 0 <= j < k && Answers(before[k].message, before[j].message);
        var fs := Forwarded(inbox);
        assert fs[k] == before[k] && fs[j] == before[j];
        assert Answers(fs[k].message, fs[j].message);
      }
      if k == |before| && Accepted(LogOf(before), m) && IsResponse(m) {
        var j :| 0 <= j < |before| && Solicits(LogOf(before)[j], m);
        var fs := Forwarded(inbox);
        assert fs[k].message == m && fs[j] == before[j];
        assert Answers(fs[k].message, fs[j].message);
      }
    }
  }

  /** With the operation codes of the protocol, all below 256, the answered message is exactly
      the matching request. */
  lemma SolicitedByRequest(inbox: seq<Arrival>, k: nat)
    ensures var fs := Forwarded(inbox);
      k < |fs| && fs[k].message.opCode % 2 == 0
      && (forall i :: 0 <= i < |fs| ==> 0 <= fs[i].message.opCode < 256) ==>
        exists j :: 0 <= j < k && fs[j].message.opCode == fs[k].message.opCode - 1
                    && fs[j].message.invokeId == fs[k].message.invokeId
  {
    var fs := Forwarded(inbox);
    NoUnsolicitedResponse(inbox, k);
    if k < |fs| && IsResponse(fs[k].message)
       && (forall i :: 0 <= i < |fs| ==> 0 <= fs[i].message.opCode < 256)
    {
      hide Forwarded;
      var j :| 0 <= j < k && Answers(fs[k].message, fs[j].message);
      assert fs[j].message.opCode == fs[k].message.opCode - 1;
    }
  }

  /** The nine responses of the protocol, code by code: one that is forwarded follows the request with
      the code before its own and the same invoke-id. */
  lemma ResponsesFollowRequests(inbox: seq<Arrival>, k: nat)
    requires forall i :: 0 <= i < |inbox| ==> 0 <= inbox[i].message.opCode <= 18
    ensures var fs := Forwarded(inbox);
      k < |fs| ==>
        var c := fs[k].message.opCode;
        c == 2 || c == 4 || c == 6 || c == 8 || c == 10 || c == 12 || c == 14 || c == 16 || c == 18 ==>
          exists j :: 0 <= j < k && fs[j].message.opCode == c - 1 && fs[j].message.invokeId == fs[k].message.invokeId
  {
    var fs := Forwarded(inbox);
    ForwardedArrived(inbox);
    hide Forwarded;
    forall i | 0 <= i < |fs| ensures 0 <= fs[i].message.opCode < 256 { assert fs[i] in inbox; }
    SolicitedByRequest(inbox, k);
  }

  lemma {:induction false} ForwardedArrived(inbox: seq<Arrival>)
    ensures forall x :: x in Forwarded(inbox) ==> x in inbox
    decreases |inbox|
  {
    if inbox != [] {
      hide Accepted;
      ForwardedArrived(inbox[..|inbox| - 1]);
    }
  }

  /** A request, and anything else with an odd code, is always forwarded. */
  lemma {:induction false} RequestsForwarded(inbox: seq<Arrival>, i: nat)
    requires i < |inbox| && inbox[i].message.opCode % 2 != 0
    ensures inbox[i] in Forwarded(inbox)
    decreases |inbox|
  {
    if i < |inbox| - 1 { RequestsForwarded(inbox[..|inbox| - 1], i); }
  }

  /** Some message forwarded before is the request that m responds to. */
  ghost predicate TrulyRequested(before: seq<Arrival>, m: Message) {
    exists j :: 0 <= j < |before| && before[j].message.opCode == m.opCode - 1 && before[j].message.invokeId == m.invokeId
  }

  /** Some message forwarded before only looks like it in the eight bits that the log keeps. */
  ghost predicate LooksRequested(before: seq<Arrival>, m: Message) {
    exists j :: 0 <= j < |before| && Answers(m, before[j].message) && before[j].message.opCode != m.opCode - 1
  }

  /** A response passes the filter without its request exactly if the request was not forwarded and
      some message that looks like it was, which takes an operation code outside 0 to 255. */
  lemma PassesUnrequestedExactly(before: seq<Arrival>, m: Message)
    requires m.opCode % 2 == 0
    ensures Accepted(LogOf(before), m) && !TrulyRequested(before, m)
            <==> LooksRequested(before, m) && !TrulyRequested(before, m)
    ensures LooksRequested(before, m) ==>
              exists j :: 0 <= j < |before| && !(0 <= before[j].message.opCode < 256)
  {
    var log := LogOf(before);
    if Accepted(log, m) {
      var j :| 0 <= j < |log| && Solicits(log[j], m);
      assert Answers(m, before[j].message);
    }
    if LooksRequested(before, m) {
      var j :| 0 <= j < |before| && Answers(m, before[j].message) && before[j].message.opCode != m.opCode - 1;
      assert Solicits(log[j], m);
      assert !(0 <= before[j].message.opCode < 256);
    }
  }

  /** The protocol's own codes are all in that range. With one that is not, 257, logged as 1, an
      M_CONNECT_R would pass without its request. */
  lemma TruncatedCodePasses(id: int)
    ensures
      var stray, response := Message(ObjectMessage, 257, id), Message(ConnectionMessage, 2, id);
      Forwarded([Arrival(stray, true), Arrival(response, true)]) == [Arrival(stray, true), Arrival(response, true)]
  {
    var x1, x2 := Arrival(Message(ObjectMessage, 257, id), true), Arrival(Message(ConnectionMessage, 2, id), true);
    assert [x1][..0] == [] && [x1, x2][..1] == [x1];
    assert Forwarded([x1]) == [x1];
    assert Solicits(LogOf([x1])[0], x2.message);
  }
}
