/** Flow allocation between two flow allocators, each of which requests, responds and has any other
    entries besides, over relays and a network that loses, duplicates and reorders messages. Proved
    from the handlers of module FlowAllocation: what every step keeps. */
module FlowNetwork {
  import opened Names
  import opened Flow
  import opened FlowTable
  import opened FlowAllocation

  /** A message in the network; `who` is the entry of the sender it was sent for. It is a history
      variable: no handler looks at it. */
  datatype Packet = Packet(body: Message, who: nat)

  /** What an entry is: for a request of this system, for a request that entry `origin` of the other
      allocator made, or anything else, such as a relayed request or a flow with a third party. */
  datatype Role = Own | For(origin: nat) | Foreign

  /** History variables. peer gives for each own entry the entry of the other allocator that
      answered it; asked are the entries whose application asked for deallocation, accepted the ones
      whose application accepted a request; reopened the own entries that a positive response
      reached after they were deallocated, and that were not deallocated again. */
  datatype Book = Book(roles: seq<Role>, peer: map<nat, nat>, asked: set<nat>, accepted: set<nat>, reopened: set<nat>)

  /** A flow allocator, its history, and everything ever sent to it by the other one. */
  datatype End = End(node: Node, book: Book, inbox: set<Packet>)

  /** The allocator that takes a step, and the other one. */
  datatype Both = Both(me: End, other: End)

  predicate IsOwn(x: End, k: nat) { k < |x.book.roles| && x.book.roles[k].Own? }

  predicate IsFor(x: End, k: nat, i: nat) { k < |x.book.roles| && x.book.roles[k] == For(i) }

  /** Own entry i of x and the entry j that y made for it. */
  predicate Ends(x: End, y: End, i: nat, j: nat) { IsOwn(x, i) && IsFor(y, j, i) }

  function Packets(sent: seq<Message>, who: nat): set<Packet> { set m | m in sent :: Packet(m, who) }

  function Sends(x: End, sent: seq<Message>, who: nat): End { x.(inbox := x.inbox + Packets(sent, who)) }

  /** The entry of the receiver that a message of entry `who` is for. */
  function Target(sender: End, who: nat): nat {
    if who >= |sender.book.roles| then 0
    else if sender.book.roles[who].For? then sender.book.roles[who].origin
    else if who in sender.book.peer then sender.book.peer[who] else 0
  }

  // ---- Steps ----

  datatype Action =
    | Open(flow: FlowValue, port: int, cep: int)
    | Allocate(i: nat, outcome: Outcome)
    | Positive(p: Packet)
    | Negative(p: Packet, retry: bool)
    | Deallocate(k: nat)
    | DeleteArrives(p: Packet)
    | AnswerArrives(p: Packet)
    | Relay(p: Packet, src: Address, dst: Address)
    | CreateArrives(p: Packet, port: int, cep: int, src: Address, dst: Address, accepted: bool)
    | Respond(j: nat, positive: bool, ready: bool, bound: bool)
    | OpenOther(e: Entry, invoke: nat)
    | ChangeOther(k: nat, e: Entry, invoke: nat)

  /** The identifiers of a new instance: random numbers that are not in use here. */
  ghost predicate FreshKey(t: seq<Entry>, port: int, cep: int) {
    && port >= 0 && cep >= 0
    && forall k :: 0 <= k < |t| ==> t[k].flow.srcPortId != port || t[k].flow.conId.srcCepId != cep
  }

  /** Entry e can be at position k: its identifiers belong to no instance but its own. */
  ghost predicate Fits(t: seq<Entry>, k: nat, e: Entry) {
    && (e.fai.Fai? ==> e.flow.srcPortId >= 0 && e.flow.conId.srcCepId >= 0)
    && forall i :: 0 <= i < |t| && i != k && (e.fai.Fai? || t[i].fai.Fai?) ==> !SameKey(t[i].flow, e.flow)
  }

  /** The new-flow policy chooses the same QoS-cube for a flow each time it is asked. */
  predicate ConsistentPolicy(e: Entry, o: Outcome) {
    o.Refused? || e.flow.allocInvokeId == 0 || o.qosId == e.flow.conId.qosId
  }

  ghost predicate Enabled(me: End, x: Action) {
    var t := me.node.table;
    match x
    case Open(f, port, cep) =>
      FreshKey(t, port, cep)
      && f.dstPortId == UNDEFINED_ID && f.conId.dstCepId == UNDEFINED_ID && f.allocInvokeId == 0
    case Allocate(i, o) => i < |t| && IsOwn(me, i) && ConsistentPolicy(t[i], o)
    case Positive(p) => p in me.inbox && p.body.CreateResponse? && p.body.positive
    case Negative(p, _) => p in me.inbox && p.body.CreateResponse? && !p.body.positive
    case Deallocate(k) => k < |t| && k < |me.book.roles| && !me.book.roles[k].Foreign?
    case DeleteArrives(p) => p in me.inbox && p.body.Delete?
    case AnswerArrives(p) => p in me.inbox && p.body.DeleteResponse?
    case Relay(p, _, _) => p in me.inbox && p.body.Create? && p.body.flow.hopCount > 1
    case CreateArrives(p, port, cep, _, _, _) => p in me.inbox && p.body.Create? && FreshKey(t, port, cep)
    case Respond(j, _, _, _) => j < |t| && j < |me.book.roles| && me.book.roles[j].For?
    case OpenOther(e, invoke) => Fits(t, |t|, e) && invoke >= me.node.invoke
    case ChangeOther(k, e, invoke) =>
      k < |t| && k < |me.book.roles| && me.book.roles[k].Foreign? && Fits(t, k, e) && invoke >= me.node.invoke
  }

  function AddRole(b: Book, r: Role): Book { b.(roles := b.roles + [r]) }

  function OpenStep(me: End, other: End, f: FlowValue, port: int, cep: int): Both {
    Both(End(OpenFlow(me.node, f, port, cep), AddRole(me.book, Own), me.inbox), other)
  }

  function AllocateStep(me: End, other: End, i: nat, o: Outcome): Both
    requires i < |me.node.table|
  {
    var r := AllocateRequest(me.node, i, o);
    Both(me.(node := r.node), Sends(other, r.sent, i))
  }

  function PositiveStep(me: End, other: End, p: Packet): Both
    requires p.body.CreateResponse?
  {
    var r := Dispatch(me.node, CreatePositive(Arrived(p.body.flow)), 0);
    var i := Target(other, p.who);
    var again := if i < |me.node.table| && me.node.table[i].status == Deallocated then {i} else {};
    Both(End(r.node, me.book.(peer := me.book.peer[i := p.who], reopened := me.book.reopened + again), me.inbox),
         Sends(other, r.sent, i))
  }

  function NegativeStep(me: End, other: End, p: Packet, retry: bool): Both
    requires p.body.CreateResponse?
  {
    var r := Dispatch(me.node, CreateNegative(Arrived(p.body.flow), retry), 0);
    Both(me.(node := r.node), Sends(other, r.sent, Target(other, p.who)))
  }

  function DeallocateStep(me: End, other: End, k: nat): Both
    requires k < |me.node.table|
  {
    var r := DeallocateRequest(me.node, k);
    Both(me.(node := r.node, book := me.book.(asked := me.book.asked + {k})), Sends(other, r.sent, k))
  }

  function DeleteStep(me: End, other: End, p: Packet): Both
    requires p.body.Delete?
  {
    var r := Dispatch(me.node, DeleteRequest(Arrived(p.body.flow)), 0);
    var k := Target(other, p.who);
    var gone := if r.sent != [] then {k} else {};
    Both(me.(node := r.node, book := me.book.(reopened := me.book.reopened - gone)), Sends(other, r.sent, k))
  }

  function AnswerStep(me: End, other: End, p: Packet): Both
    requires p.body.DeleteResponse?
  {
    var r := Dispatch(me.node, DeleteAnswer(Arrived(p.body.flow)), 0);
    Both(me.(node := r.node), Sends(other, r.sent, Target(other, p.who)))
  }

  /** What a relay sends on: FA's forwarding branch, from the message to the next message. */
  function Forward(f: FlowValue, src: Address, dst: Address): FlowValue
    requires f.hopCount > 1
  {
    Dup(Swap(Arrived(f)).(srcNeighbor := src, dstNeighbor := dst, hopCount := f.hopCount - 1))
  }

  /** A relay between the two has the request p and sends it on. */
  function RelayStep(me: End, other: End, p: Packet, src: Address, dst: Address): Both
    requires p.body.Create? && p.body.flow.hopCount > 1
  {
    Both(Sends(me, [Create(Forward(p.body.flow, src, dst))], p.who), other)
  }

  function CreateStep(me: End, other: End, p: Packet, port: int, cep: int, src: Address, dst: Address, accepted: bool): Both
    requires p.body.Create?
  {
    var n := |me.node.table|;
    var r := CreateRequest(me.node, Arrived(p.body.flow), port, cep, src, dst, accepted);
    Both(End(r.node, if |r.node.table| > n then AddRole(me.book, For(p.who)) else me.book, me.inbox),
         Sends(other, r.sent, n))
  }

  function RespondStep(me: End, other: End, j: nat, positive: bool, ready: bool, bound: bool): Both
    requires j < |me.node.table|
  {
    var r := AllocateResponse(me.node, j, positive, ready, bound);
    var yes := if me.node.table[j].status == AllocPend && positive && ready then {j} else {};
    Both(me.(node := r.node, book := me.book.(accepted := me.book.accepted + yes)), Sends(other, r.sent, j))
  }

  function OpenOtherStep(me: End, other: End, e: Entry, invoke: nat): Both {
    Both(End(Node(me.node.table + [e], invoke), AddRole(me.book, Foreign), me.inbox), other)
  }

  function ChangeOtherStep(me: End, other: End, k: nat, e: Entry, invoke: nat): Both
    requires k < |me.node.table|
  {
    Both(me.(node := Node(me.node.table[k := e], invoke)), other)
  }

  ghost function Step(me: End, other: End, x: Action): Both
    requires Enabled(me, x)
  {
    match x
    case Open(f, port, cep) => OpenStep(me, other, f, port, cep)
    case Allocate(i, o) => AllocateStep(me, other, i, o)
    case Positive(p) => PositiveStep(me, other, p)
    case Negative(p, retry) => NegativeStep(me, other, p, retry)
    case Deallocate(k) => DeallocateStep(me, other, k)
    case DeleteArrives(p) => DeleteStep(me, other, p)
    case AnswerArrives(p) => AnswerStep(me, other, p)
    case Relay(p, src, dst) => RelayStep(me, other, p, src, dst)
    case CreateArrives(p, port, cep, src, dst, accepted) => CreateStep(me, other, p, port, cep, src, dst, accepted)
    case Respond(j, positive, ready, bound) => RespondStep(me, other, j, positive, ready, bound)
    case OpenOther(e, invoke) => OpenOtherStep(me, other, e, invoke)
    case ChangeOther(k, e, invoke) => ChangeOtherStep(me, other, k, e, invoke)
  }

  // ---- Invariant ----

  /** The flow is being transferred or is past that. */
  predicate Established(st: Status) { st == Transfer || st == DeallocPend || st == Deallocated }

  /** The flow has not been transferred. */
  predicate Unestablished(st: Status) { st == AllocPend || st == AllocNega || st == DeallocPend }

  /** The responder's flow f is the requester's flow e as seen from the other end, but for the
      requester's knowledge of the responder's identifiers. */
  predicate Mirrors(f: FlowValue, e: FlowValue) {
    && f.srcApni == e.dstApni && f.dstApni == e.srcApni
    && f.srcAddr == e.dstAddr && f.dstAddr == e.srcAddr
    && f.dstPortId == e.srcPortId && f.conId.dstCepId == e.conId.srcCepId
    && f.conId.qosId == e.conId.qosId
    && f.allocInvokeId == e.allocInvokeId && e.allocInvokeId != 0
  }

  predicate Undirected(f: FlowValue) { f.dstPortId == UNDEFINED_ID && f.conId.dstCepId == UNDEFINED_ID }

  /** g is a copy of the requester's flow e made before the responder's identifiers were known. */
  ghost predicate Copies(g: FlowValue, e: FlowValue) {
    && g.srcApni == e.srcApni && g.dstApni == e.dstApni
    && g.srcAddr == e.srcAddr && g.dstAddr == e.dstAddr
    && SameKey(g, e) && g.conId.qosId == e.conId.qosId
    && g.allocInvokeId == e.allocInvokeId && e.allocInvokeId != 0
    && Undirected(g)
  }

  /** f is directed to the instance of e. */
  predicate Directed(f: FlowValue, e: FlowValue) {
    f.dstPortId == e.srcPortId && f.conId.dstCepId == e.conId.srcCepId
  }

  ghost predicate Sized(x: End) { |x.book.roles| == |x.node.table| }

  /** Entries with an instance have distinct identifiers; own entries have distinct invoke-ids, and so
      do those made for requests of the other allocator. */
  ghost predicate Tables(x: End) {
    var t, roles := x.node.table, x.book.roles;
    && Sized(x)
    && Distinct(t)
    && (forall k :: 0 <= k < |t| && t[k].fai.Fai? ==> t[k].flow.srcPortId >= 0 && t[k].flow.conId.srcCepId >= 0)
    && (forall k :: 0 <= k < |t| && !roles[k].Foreign? ==> t[k].fai.Fai?)
    && (forall i, k :: 0 <= i < |t| && 0 <= k < |t| && i != k && roles[i].Own? && roles[k].Own?
                       && t[i].flow.allocInvokeId != 0 ==>
          t[i].flow.allocInvokeId != t[k].flow.allocInvokeId)
    && (forall i, k :: 0 <= i < |t| && 0 <= k < |t| && i != k && roles[i].For? && roles[k].For? ==>
          t[i].flow.allocInvokeId != t[k].flow.allocInvokeId)
    && (forall k :: k in x.book.peer || k in x.book.asked || k in x.book.accepted || k in x.book.reopened ==>
          k < |t|)
  }

  /** Own entry k was answered by entry j of the other allocator. */
  ghost predicate PeerOk(me: End, other: End, k: nat, j: nat)
    requires k < |me.node.table| && Sized(other)
  {
    var e := me.node.table[k];
    && IsFor(other, j, k) && j in other.book.accepted
    && Directed(e.flow, other.node.table[j].flow)
    && Established(e.status)
    && (e.status == Deallocated && j !in other.book.asked ==> other.node.table[j].status == Deallocated)
    && (k in me.book.reopened && k !in me.book.asked ==> e.status == Transfer)
    && (e.status == Deallocated || k in me.book.reopened ==> k in me.book.asked || j in other.book.asked)
  }

  ghost predicate OwnOk(me: End, other: End, k: nat)
    requires k < |me.node.table| && Sized(other)
  {
    var e := me.node.table[k];
    && 0 <= e.flow.allocInvokeId <= me.node.invoke
    && (e.status == DeallocPend ==> k in me.book.asked)
    && (k !in me.book.peer ==> Undirected(e.flow) && Unestablished(e.status) && k !in me.book.reopened)
    && (k in me.book.peer ==> PeerOk(me, other, k, me.book.peer[k]))
  }

  /** Entry k was made for own entry i of the other allocator. */
  ghost predicate ForOk(me: End, other: End, k: nat, i: nat)
    requires k < |me.node.table| && Sized(other)
  {
    var e := me.node.table[k];
    && IsOwn(other, i) && Mirrors(e.flow, other.node.table[i].flow)
    && (if k in me.book.accepted then Established(e.status) else Unestablished(e.status))
    && (e.status == DeallocPend ==> k in me.book.asked)
    && (e.status == Deallocated ==> k in me.book.asked || i in other.book.asked)
    && (e.status == Deallocated && i !in other.book.asked ==>
          i in other.book.peer && (other.node.table[i].status == Deallocated || i in other.book.reopened))
  }

  ghost predicate EntryOk(me: End, other: End, k: nat)
    requires k < |me.node.table| && Sized(me) && Sized(other)
  {
    match me.book.roles[k]
    case Own => OwnOk(me, other, k)
    case For(i) => ForOk(me, other, k, i)
    case Foreign => true
  }

  /** A packet that x has sent. */
  ghost predicate PacketOk(x: End, p: Packet)
    requires Sized(x)
  {
    && p.who < |x.node.table|
    && var e, role, b := x.node.table[p.who], x.book.roles[p.who], x.book;
    match p.body
    case Create(g) => role.Own? && Copies(g, e.flow)
    case CreateResponse(positive, g) =>
      role.For? && Compare(g, e.flow)
      && if positive then p.who in b.accepted else p.who !in b.accepted && e.status != AllocPend
    case Delete(g) =>
      p.who in b.asked && !role.Foreign?
      && ((role.Own? && Undirected(g)) || (Compare(g, e.flow) && (role.Own? ==> p.who in b.peer)))
    case DeleteResponse(g) =>
      !role.Foreign? && Compare(g, e.flow)
      && (role.Own? ==> p.who in b.peer)
      && (p.who in b.asked || e.status == Deallocated || (role.Own? && p.who in b.reopened))
  }

  ghost predicate Half(me: End, other: End) {
    && Tables(me) && Sized(other)
    && (forall k :: 0 <= k < |me.node.table| ==> EntryOk(me, other, k))
    && (forall p :: p in me.inbox ==> PacketOk(other, p))
  }

  ghost predicate Joint(me: End, other: End) { Half(me, other) && Half(other, me) }

  // ---- Which instance a message finds ----

  /** A flow with the identifiers of entry t reaches no instance but that of entry t. */
  lemma SignalTo(n: Node, x: Signal, t: nat)
    requires Distinct(n.table) && t < |n.table| && n.table[t].fai.Fai? && SameKey(x.flow, n.table[t].flow)
    ensures Dispatch(n, x, 0) == if Listens(n.table[t], x) then HandledReaction(n, t, x) else Reaction(n, [])
  {
    forall k | 0 <= k < |n.table| && Listens(n.table[k], x) ensures k == t {
      assert SameKey(n.table[k].flow, x.flow);
    }
    DispatchEffect(n, x, t);
  }

  lemma SignalToNone(me: End, x: Signal)
    requires Tables(me) && x.flow.srcPortId == UNDEFINED_ID
    ensures Dispatch(me.node, x, 0) == Reaction(me.node, [])
  {
    hide Distinct;
    forall k | 0 <= k < |me.node.table| ensures !Listens(me.node.table[k], x) {}
    DispatchToNone(me.node, x, 0);
  }

  /** A response to a request is for the own entry that made it, and that entry listens. */
  lemma ResponseFinds(me: End, other: End, p: Packet)
    requires Joint(me, other) && p in me.inbox && p.body.CreateResponse?
    ensures var i := Target(other, p.who);
      && p.who < |other.node.table| && IsFor(other, p.who, i) && IsOwn(me, i) && i < |me.node.table|
      && me.node.table[i].fai.Fai? && SameKey(Arrived(p.body.flow), me.node.table[i].flow)
      && Directed(Swap(Arrived(p.body.flow)), me.node.table[i].flow)
  {
    hide Distinct;
    assert PacketOk(other, p) && EntryOk(other, me, p.who);
  }

  /** A deallocation message is for the entry at the other end of the sender's flow; one that was sent
      before the sender knew the other end is for nobody. */
  lemma DeallocationFinds(me: End, other: End, p: Packet)
    requires Joint(me, other) && p in me.inbox && (p.body.Delete? || p.body.DeleteResponse?)
    ensures p.who < |other.node.table|
    ensures IsOwn(other, p.who) && Undirected(p.body.flow) && p.body.Delete? ==>
              Arrived(p.body.flow).srcPortId == UNDEFINED_ID
    ensures !(IsOwn(other, p.who) && Undirected(p.body.flow) && p.body.Delete?) ==>
      var k := Target(other, p.who);
      && k < |me.node.table| && me.node.table[k].fai.Fai? && !me.book.roles[k].Foreign?
      && SameKey(Arrived(p.body.flow), me.node.table[k].flow)
      && (Ends(me, other, k, p.who) || (p.who in other.book.peer && Ends(other, me, p.who, k)))
  {
    hide Distinct;
    assert PacketOk(other, p) && EntryOk(other, me, p.who);
  }

  // ---- Frames: one entry changes, and messages are sent for it ----

  ghost predicate KeepsIdentity(e: Entry, e': Entry) {
    && (e.fai.Fai? <==> e'.fai.Fai?)
    && e'.flow.srcApni == e.flow.srcApni && e'.flow.dstApni == e.flow.dstApni
    && e'.flow.srcAddr == e.flow.srcAddr && e'.flow.dstAddr == e.flow.dstAddr
    && SameKey(e'.flow, e.flow)
    && (e.flow.allocInvokeId != 0 ==>
          e'.flow.allocInvokeId == e.flow.allocInvokeId && e'.flow.conId.qosId == e.flow.conId.qosId)
  }

  ghost predicate SameMember(b: Book, b': Book, i: nat) {
    && (i in b'.asked <==> i in b.asked) && (i in b'.accepted <==> i in b.accepted)
    && (i in b'.reopened <==> i in b.reopened) && (i in b'.peer <==> i in b.peer)
    && (i in b.peer ==> b'.peer[i] == b.peer[i])
  }

  /** At most entry k, its history and the invoke-id counter are different. */
  ghost predicate OneEntry(x: End, y: End, k: nat) {
    && Sized(x) && k < |x.node.table|
    && y.inbox == x.inbox && y.book.roles == x.book.roles
    && |y.node.table| == |x.node.table| && y.node.invoke >= x.node.invoke
    && (forall i :: 0 <= i < |x.node.table| && i != k ==> y.node.table[i] == x.node.table[i])
    && (forall i: nat :: i != k ==> SameMember(x.book, y.book, i))
  }

  /** What entry k may become, for what the other allocator and sent packets rely on. */
  ghost predicate Progress(x: End, y: End, k: nat)
    requires k < |x.node.table| && k < |y.node.table| && k < |x.book.roles|
  {
    var e, e', role := x.node.table[k], y.node.table[k], x.book.roles[k];
    && KeepsIdentity(e, e')
    && (e.flow.allocInvokeId == 0 ==>
          e'.flow.allocInvokeId == 0 || (role.Own? && x.node.invoke < e'.flow.allocInvokeId <= y.node.invoke))
    && (role.For? || k in x.book.peer ==>
          (e'.flow.dstPortId == e.flow.dstPortId && e'.flow.conId == e.flow.conId))
    && (k in x.book.asked ==> k in y.book.asked)
    && (k in x.book.peer ==> k in y.book.peer && y.book.peer[k] == x.book.peer[k])
    && (k in x.book.accepted ==> k in y.book.accepted)
    && (k in y.book.accepted && k !in x.book.accepted ==> e.status == AllocPend)
    && (e.status != AllocPend ==> e'.status != AllocPend)
    && (e.status == Deallocated || (role.Own? && k in x.book.reopened) ==>
          k in y.book.asked || e'.status == Deallocated || (role.Own? && k in y.book.reopened))
  }

  /** No entry but the k-th has changed, and none was lost. */
  ghost predicate Only(x: End, y: End, k: nat) {
    && Sized(x) && Sized(y) && x.book.roles <= y.book.roles
    && forall i :: 0 <= i < |x.node.table| && i != k ==>
         y.node.table[i] == x.node.table[i] && SameMember(x.book, y.book, i)
  }

  /** Every entry of this allocator and the other one is what it was or has made progress. */
  ghost predicate Grows(x: End, y: End) {
    && Sized(x) && Sized(y) && x.book.roles <= y.book.roles
    && forall i :: 0 <= i < |x.node.table| && !x.book.roles[i].Foreign? ==> Progress(x, y, i)
  }

  /** A step of one allocator that concerns its entry k: to the other one it only sends. */
  ghost predicate Moves(me: End, other: End, r: Both, k: nat) {
    && Only(me, r.me, k) && Grows(me, r.me)
    && r.other.node == other.node && r.other.book == other.book
    && other.inbox <= r.other.inbox && (forall p :: p in r.other.inbox ==> p in other.inbox || p.who == k)
    && me.inbox <= r.me.inbox && (forall p :: p in r.me.inbox ==> p in me.inbox || p.body.Create?)
  }

  lemma OneEntryGrows(x: End, y: End, k: nat)
    requires OneEntry(x, y, k) && (x.book.roles[k].Foreign? || Progress(x, y, k))
    ensures Only(x, y, k) && Grows(x, y)
  {
    forall i | 0 <= i < |x.node.table| && i != k ensures SameMember(x.book, y.book, i) && Progress(x, y, i) {
      assert SameMember(x.book, y.book, i);
    }
  }

  lemma OneEntryMine(x: End, y: End, k: nat, other: End, i: nat)
    requires OneEntry(x, y, k) && Sized(other) && i < |x.node.table| && i != k && EntryOk(x, other, i)
    ensures EntryOk(y, other, i)
  {
    assert SameMember(x.book, y.book, i);
  }

  lemma OneEntryTheirs(x: End, y: End, k: nat, other: End, i: nat)
    requires OneEntry(x, y, k) && (x.book.roles[k].Foreign? || Progress(x, y, k))
    requires Sized(other) && i < |other.node.table| && EntryOk(other, x, i)
    ensures EntryOk(other, y, i)
  {
    var j := Target(other, i);
    if j != k { assert SameMember(x.book, y.book, j); }
    hide SameMember;
  }

  lemma OneEntryPacket(x: End, y: End, k: nat, p: Packet)
    requires OneEntry(x, y, k) && (x.book.roles[k].Foreign? || Progress(x, y, k)) && PacketOk(x, p)
    ensures PacketOk(y, p)
  {
    if p.who != k { assert SameMember(x.book, y.book, p.who); }
    hide SameMember;
  }

  lemma OwnNumbers(me: End, other: End)
    requires Half(me, other)
    ensures forall i :: 0 <= i < |me.node.table| && me.book.roles[i].Own? ==>
              me.node.table[i].flow.allocInvokeId <= me.node.invoke
  {
    hide Distinct, PeerOk;
    forall i | 0 <= i < |me.node.table| && me.book.roles[i].Own?
      ensures me.node.table[i].flow.allocInvokeId <= me.node.invoke
    {
      assert EntryOk(me, other, i);
    }
  }

  lemma ForNumbers(me: End, other: End)
    requires Half(me, other)
    ensures forall i :: 0 <= i < |me.node.table| && me.book.roles[i].For? ==> me.node.table[i].flow.allocInvokeId != 0
  {
    hide Distinct;
    forall i | 0 <= i < |me.node.table| && me.book.roles[i].For? ensures me.node.table[i].flow.allocInvokeId != 0 {
      assert EntryOk(me, other, i);
    }
  }

  lemma BookBounds(x: End, y: End, k: nat)
    requires Tables(x) && OneEntry(x, y, k)
    ensures forall i :: i in y.book.peer || i in y.book.asked || i in y.book.accepted || i in y.book.reopened ==>
              i < |y.node.table|
  {
    hide Distinct;
    forall i | i in y.book.peer || i in y.book.asked || i in y.book.accepted || i in y.book.reopened
      ensures i < |y.node.table|
    {
      if i != k { assert SameMember(x.book, y.book, i); }
    }
  }

  lemma TablesKept(x: End, y: End, k: nat)
    requires Tables(x) && OneEntry(x, y, k) && !x.book.roles[k].Foreign? && Progress(x, y, k)
    requires forall i :: 0 <= i < |x.node.table| && x.book.roles[i].Own? ==>
               x.node.table[i].flow.allocInvokeId <= x.node.invoke
    requires forall i :: 0 <= i < |x.node.table| && x.book.roles[i].For? ==> x.node.table[i].flow.allocInvokeId != 0
    ensures Tables(y)
  {
    BookBounds(x, y, k);
    var e := y.node.table[k];
    DistinctUpdate(x.node.table, k, e);
    assert y.node.table == x.node.table[k := e];
    hide Distinct, SameMember;
  }

  /** Entry k, which is not a foreign one, changes and messages are sent for it. */
  lemma Frame(me: End, y: End, k: nat, other: End, sent: seq<Message>)
    requires Joint(me, other) && OneEntry(me, y, k) && !me.book.roles[k].Foreign? && Progress(me, y, k)
    requires EntryOk(y, other, k)
    requires forall m :: m in sent ==> PacketOk(y, Packet(m, k))
    ensures Joint(y, Sends(other, sent, k)) && Moves(me, other, Both(y, Sends(other, sent, k)), k)
  {
    OneEntryGrows(me, y, k);
    OwnNumbers(me, other);
    ForNumbers(me, other);
    TablesKept(me, y, k);
    hide Tables, Progress, PeerOk, OwnOk, ForOk, SameMember, KeepsIdentity, Copies, Mirrors, Only, Grows;
    var theirs := Sends(other, sent, k);
    assert theirs.node == other.node && theirs.book == other.book;
    forall i | 0 <= i < |y.node.table| ensures EntryOk(y, theirs, i) {
      if i != k { OneEntryMine(me, y, k, other, i); }
      SameOther(y, other, theirs, i);
    }
    forall i | 0 <= i < |theirs.node.table| ensures EntryOk(theirs, y, i) {
      OneEntryTheirs(me, y, k, other, i);
      SameMine(other, theirs, y, i);
    }
    forall p | p in theirs.inbox ensures PacketOk(y, p) {
      if p in other.inbox { OneEntryPacket(me, y, k, p); }
    }
    forall p | p in y.inbox ensures PacketOk(theirs, p) {
      assert PacketOk(other, p);
      SamePacket(other, theirs, p);
    }
    assert Tables(theirs) by { SameTables(other, theirs); }
  }

  // Inboxes do not matter for entries and packets.

  lemma SameOther(me: End, other: End, theirs: End, i: nat)
    requires theirs.node == other.node && theirs.book == other.book && Sized(me) && Sized(other)
    requires i < |me.node.table| && EntryOk(me, other, i)
    ensures EntryOk(me, theirs, i)
  {}

  lemma SameMine(me: End, mine: End, other: End, i: nat)
    requires mine.node == me.node && mine.book == me.book && Sized(me) && Sized(other)
    requires i < |me.node.table| && EntryOk(me, other, i)
    ensures EntryOk(mine, other, i)
  {}

  lemma SamePacket(x: End, y: End, p: Packet)
    requires x.node == y.node && x.book == y.book && Sized(x) && PacketOk(x, p)
    ensures PacketOk(y, p)
  {}

  lemma SameTables(x: End, y: End)
    requires x.node == y.node && x.book == y.book && Tables(x)
    ensures Tables(y)
  {
    hide Distinct;
  }

  // ---- Every step keeps the invariant ----

  lemma OwnFacts(me: End, other: End, k: nat)
    requires Joint(me, other) && k < |me.node.table| && k < |me.book.roles| && !me.book.roles[k].Foreign?
    ensures Sized(me) && Sized(other) && Identifiable(me.node.table, k) && EntryOk(me, other, k)
  {}

  lemma AllocateKeeps(me: End, other: End, i: nat, o: Outcome)
    requires Joint(me, other) && i < |me.node.table| && IsOwn(me, i) && ConsistentPolicy(me.node.table[i], o)
    ensures var r := AllocateStep(me, other, i, o); Joint(r.me, r.other) && Moves(me, other, r, i)
  {
    OwnFacts(me, other, i);
    AllocateExactly(me.node, i, o);
    hide Joint, AllocateRequest, Identifiable;
    var e := me.node.table[i];
    var g := AllocatedEntry(e, o, me.node.invoke);
    var y := AllocateStep(me, other, i, o).me;
    assert y.node.table[i] == g;
    assert OneEntry(me, y, i);
    assert Progress(me, y, i);
    Frame(me, y, i, other, AllocateRequest(me.node, i, o).sent);
  }

  lemma DeallocateKeeps(me: End, other: End, k: nat)
    requires Joint(me, other) && k < |me.node.table| && k < |me.book.roles| && !me.book.roles[k].Foreign?
    ensures var r := DeallocateStep(me, other, k); Joint(r.me, r.other) && Moves(me, other, r, k)
  {
    OwnFacts(me, other, k);
    DeallocateExactly(me.node, k);
    hide Joint, DeallocateRequest, Identifiable;
    var y := DeallocateStep(me, other, k).me;
    assert OneEntry(me, y, k);
    assert Progress(me, y, k);
    Frame(me, y, k, other, DeallocateRequest(me.node, k).sent);
  }

  lemma RespondKeeps(me: End, other: End, j: nat, positive: bool, ready: bool, bound: bool)
    requires Joint(me, other) && j < |me.node.table| && j < |me.book.roles| && me.book.roles[j].For?
    ensures var r := RespondStep(me, other, j, positive, ready, bound); Joint(r.me, r.other) && Moves(me, other, r, j)
  {
    OwnFacts(me, other, j);
    RespondExactly(me.node, j, positive, ready, bound);
    hide Joint, AllocateResponse, Identifiable;
    var y := RespondStep(me, other, j, positive, ready, bound).me;
    assert OneEntry(me, y, j);
    assert Progress(me, y, j);
    Frame(me, y, j, other, AllocateResponse(me.node, j, positive, ready, bound).sent);
  }

  /** At most one entry is made for a request. */
  lemma OneAnswerer(me: End, other: End, j: nat, k: nat, i: nat)
    requires Joint(me, other) && IsFor(other, j, i) && IsFor(other, k, i)
    ensures j == k
  {
    hide Distinct;
    assert EntryOk(other, me, j) && EntryOk(other, me, k);
  }

  lemma RefusedHasNoPeer(me: End, other: End, i: nat, j: nat)
    requires Joint(me, other) && i < |me.node.table| && IsOwn(me, i) && IsFor(other, j, i) && j !in other.book.accepted
    ensures i !in me.book.peer
  {
    hide Distinct;
    assert EntryOk(me, other, i);
    if i in me.book.peer { OneAnswerer(me, other, j, me.book.peer[i], i); }
  }

  lemma NegativeExactly(me: End, other: End, p: Packet, retry: bool)
    requires Joint(me, other) && p in me.inbox && p.body.CreateResponse? && !p.body.positive
    ensures var i, x := Target(other, p.who), CreateNegative(Arrived(p.body.flow), retry);
      && i < |me.node.table| && IsOwn(me, i) && me.node.table[i].fai.Fai? && i !in me.book.peer
      && Sized(me) && Sized(other) && EntryOk(me, other, i)
      && Dispatch(me.node, x, 0) == HandledReaction(me.node, i, x)
  {
    ResponseFinds(me, other, p);
    var i := Target(other, p.who);
    SignalTo(me.node, CreateNegative(Arrived(p.body.flow), retry), i);
    assert PacketOk(other, p) && EntryOk(me, other, i);
    RefusedHasNoPeer(me, other, i, p.who);
  }

  lemma NegativeKeeps(me: End, other: End, p: Packet, retry: bool)
    requires Joint(me, other) && p in me.inbox && p.body.CreateResponse? && !p.body.positive
    ensures var r := NegativeStep(me, other, p, retry); Joint(r.me, r.other) && Moves(me, other, r, Target(other, p.who))
  {
    NegativeExactly(me, other, p, retry);
    var i, x := Target(other, p.who), CreateNegative(Arrived(p.body.flow), retry);
    SendCreateExactly(me.node, i, Handled(me.node.table[i], x));
    IsRequested(me, other, p);
    hide Joint, Dispatch, SendCreate, Target;
    var y := NegativeStep(me, other, p, retry).me;
    assert OneEntry(me, y, i);
    assert Progress(me, y, i);
    Frame(me, y, i, other, Dispatch(me.node, x, 0).sent);
  }

  /** Only a request with an invoke-id is answered. */
  lemma IsRequested(me: End, other: End, p: Packet)
    requires Joint(me, other) && p in me.inbox && p.body.CreateResponse?
    ensures var i := Target(other, p.who); i < |me.node.table| && me.node.table[i].flow.allocInvokeId != 0
  {
    hide Distinct;
    assert PacketOk(other, p) && EntryOk(other, me, p.who);
  }

  lemma PositiveExactly(me: End, other: End, p: Packet)
    requires Joint(me, other) && p in me.inbox && p.body.CreateResponse? && p.body.positive
    ensures var i, x := Target(other, p.who), CreatePositive(Arrived(p.body.flow));
      && i < |me.node.table| && IsOwn(me, i) && me.node.table[i].fai.Fai?
      && IsFor(other, p.who, i) && p.who in other.book.accepted && p.who < |other.node.table|
      && x.flow.dstPortId == other.node.table[p.who].flow.srcPortId
      && x.flow.conId.dstCepId == other.node.table[p.who].flow.conId.srcCepId
      && (i in me.book.peer ==> me.book.peer[i] == p.who)
      && Sized(me) && Sized(other) && EntryOk(me, other, i)
      && Dispatch(me.node, x, 0) == HandledReaction(me.node, i, x)
  {
    ResponseFinds(me, other, p);
    var i := Target(other, p.who);
    SignalTo(me.node, CreatePositive(Arrived(p.body.flow)), i);
    assert PacketOk(other, p) && EntryOk(me, other, i);
    if i in me.book.peer { OneAnswerer(me, other, p.who, me.book.peer[i], i); }
  }

  lemma PositiveKeeps(me: End, other: End, p: Packet)
    requires Joint(me, other) && p in me.inbox && p.body.CreateResponse? && p.body.positive
    ensures var r := PositiveStep(me, other, p); Joint(r.me, r.other) && Moves(me, other, r, Target(other, p.who))
  {
    PositiveExactly(me, other, p);
    var i, x := Target(other, p.who), CreatePositive(Arrived(p.body.flow));
    hide Joint, Dispatch, Target;
    var y := PositiveStep(me, other, p).me;
    assert OneEntry(me, y, i);
    assert Progress(me, y, i);
    Frame(me, y, i, other, []);
  }

  /** A deallocation message finds the entry at the other end, or nobody. */
  lemma DeallocationExactly(me: End, other: End, p: Packet, x: Signal)
    requires Joint(me, other) && p in me.inbox && x.flow == Arrived(p.body.flow)
    requires (p.body.Delete? && x.DeleteRequest?) || (p.body.DeleteResponse? && x.DeleteAnswer?)
    ensures Dispatch(me.node, x, 0) == Reaction(me.node, [])
            || (var k := Target(other, p.who);
                && k < |me.node.table| && k < |me.book.roles| && !me.book.roles[k].Foreign?
                && Listens(me.node.table[k], x) && Dispatch(me.node, x, 0) == HandledReaction(me.node, k, x)
                && (Ends(me, other, k, p.who) || Ends(other, me, p.who, k)))
  {
    DeallocationFinds(me, other, p);
    if IsOwn(other, p.who) && Undirected(p.body.flow) && p.body.Delete? {
      SignalToNone(me, x);
    } else {
      SignalTo(me.node, x, Target(other, p.who));
    }
  }

  lemma Unchanged(me: End, other: End, k: nat)
    requires Joint(me, other)
    ensures Joint(me, Sends(other, [], k)) && Moves(me, other, Both(me, Sends(other, [], k)), k)
  {
    hide Distinct, PeerOk, Copies;
    assert Packets([], k) == {};
    StaysAsItWas(me, me);
    assert Sends(other, [], k) == other;
  }

  lemma DeleteKeeps(me: End, other: End, p: Packet)
    requires Joint(me, other) && p in me.inbox && p.body.Delete?
    ensures var r := DeleteStep(me, other, p); Joint(r.me, r.other) && Moves(me, other, r, Target(other, p.who))
  {
    var x := DeleteRequest(Arrived(p.body.flow));
    DeallocationExactly(me, other, p, x);
    var k := Target(other, p.who);
    if k < |me.node.table| && Listens(me.node.table[k], x) && me.node.table[k].status == Transfer
       && Dispatch(me.node, x, 0) == HandledReaction(me.node, k, x) {
      OwnFacts(me, other, k);
      assert PacketOk(other, p);
      if IsOwn(me, k) { OneAnswerer(me, other, p.who, if k in me.book.peer then me.book.peer[k] else p.who, k); }
      DeletedKeeps(me, other, p, k);
    } else {
      assert DeleteStep(me, other, p).me == me by { SameUpdate(me.node, k); SameReopened(me.book); }
      Unchanged(me, other, k);
    }
  }

  lemma SameUpdate(n: Node, k: nat)
    ensures k < |n.table| ==> Update(n, k, n.table[k]) == n
  {
    if k < |n.table| { assert n.table[k := n.table[k]] == n.table; }
  }

  lemma SameReopened(b: Book)
    ensures b.(reopened := b.reopened - {}) == b
  {}

  lemma DeletedKeeps(me: End, other: End, p: Packet, k: nat)
    requires Joint(me, other) && p in me.inbox && p.body.Delete? && PacketOk(other, p)
    requires k == Target(other, p.who) && k < |me.node.table| && k < |me.book.roles| && !me.book.roles[k].Foreign?
    requires EntryOk(me, other, k) && me.node.table[k].fai.Fai? && me.node.table[k].status == Transfer
    requires Sized(me) && Sized(other) && (Ends(me, other, k, p.who) || Ends(other, me, p.who, k))
    requires me.book.roles[k].Own? && k in me.book.peer ==> me.book.peer[k] == p.who
    requires Dispatch(me.node, DeleteRequest(Arrived(p.body.flow)), 0)
             == HandledReaction(me.node, k, DeleteRequest(Arrived(p.body.flow)))
    ensures var r := DeleteStep(me, other, p); Joint(r.me, r.other) && Moves(me, other, r, k)
  {
    hide Joint, Dispatch, Target;
    var y := DeleteStep(me, other, p).me;
    assert OneEntry(me, y, k);
    assert Progress(me, y, k);
    Frame(me, y, k, other, Dispatch(me.node, DeleteRequest(Arrived(p.body.flow)), 0).sent);
  }

  lemma AnswerKeeps(me: End, other: End, p: Packet)
    requires Joint(me, other) && p in me.inbox && p.body.DeleteResponse?
    ensures var r := AnswerStep(me, other, p); Joint(r.me, r.other) && Moves(me, other, r, Target(other, p.who))
  {
    var x := DeleteAnswer(Arrived(p.body.flow));
    DeallocationExactly(me, other, p, x);
    var k := Target(other, p.who);
    if k < |me.node.table| && Listens(me.node.table[k], x) && me.node.table[k].status == DeallocPend
       && Dispatch(me.node, x, 0) == HandledReaction(me.node, k, x) {
      OwnFacts(me, other, k);
      assert PacketOk(other, p);
      AnsweredKnowsPeer(me, other, p, k);
      AnsweredKeeps(me, other, p, k);
    } else {
      assert AnswerStep(me, other, p).me == me by { SameUpdate(me.node, k); }
      Unchanged(me, other, k);
    }
  }

  /** An entry that takes an M_DELETE_R was established. */
  lemma AnsweredKnowsPeer(me: End, other: End, p: Packet, k: nat)
    requires Joint(me, other) && p in me.inbox && p.body.DeleteResponse? && k == Target(other, p.who)
    requires k < |me.node.table| && k < |me.book.roles| && Listens(me.node.table[k], DeleteAnswer(Arrived(p.body.flow)))
    requires Sized(me) && Sized(other) && (Ends(me, other, k, p.who) || Ends(other, me, p.who, k))
    ensures me.book.roles[k].Own? ==> k in me.book.peer && me.book.peer[k] == p.who
    ensures me.book.roles[k].For? ==> k in me.book.accepted
  {
    hide Distinct;
    assert PacketOk(other, p) && EntryOk(me, other, k) && EntryOk(other, me, p.who);
    if me.book.roles[k].Own? {
      assert other.node.table[p.who].fai.Fai?;
      OneAnswerer(me, other, p.who, if k in me.book.peer then me.book.peer[k] else p.who, k);
    } else if me.book.roles[k].For? {
      OneAnswerer(other, me, k, other.book.peer[p.who], p.who);
    }
  }

  lemma AnsweredKeeps(me: End, other: End, p: Packet, k: nat)
    requires Joint(me, other) && p in me.inbox && p.body.DeleteResponse? && PacketOk(other, p)
    requires k == Target(other, p.who) && k < |me.node.table| && k < |me.book.roles| && !me.book.roles[k].Foreign?
    requires EntryOk(me, other, k) && me.node.table[k].fai.Fai? && me.node.table[k].status == DeallocPend
    requires Sized(me) && Sized(other) && (Ends(me, other, k, p.who) || Ends(other, me, p.who, k))
    requires me.book.roles[k].Own? ==> k in me.book.peer && me.book.peer[k] == p.who
    requires me.book.roles[k].For? ==> k in me.book.accepted
    requires Dispatch(me.node, DeleteAnswer(Arrived(p.body.flow)), 0)
             == HandledReaction(me.node, k, DeleteAnswer(Arrived(p.body.flow)))
    ensures var r := AnswerStep(me, other, p); Joint(r.me, r.other) && Moves(me, other, r, k)
  {
    hide Joint, Dispatch, Target;
    var y := AnswerStep(me, other, p).me;
    assert OneEntry(me, y, k);
    assert Progress(me, y, k);
    Frame(me, y, k, other, []);
  }

  // ---- Frames: a new entry ----

  ghost predicate Appended(x: End, y: End, e: Entry, role: Role) {
    && Sized(x) && y.inbox == x.inbox && y.book == AddRole(x.book, role)
    && y.node.table == x.node.table + [e] && y.node.invoke >= x.node.invoke
  }

  lemma AppendedTables(x: End, y: End, e: Entry, role: Role)
    requires Tables(x) && Appended(x, y, e, role) && Fits(x.node.table, |x.node.table|, e)
    requires !role.Foreign? ==> e.fai.Fai?
    requires role.Own? ==> e.flow.allocInvokeId == 0
    requires role.For? ==> forall i :: 0 <= i < |x.node.table| ==> x.node.table[i].flow.allocInvokeId != e.flow.allocInvokeId
    ensures Tables(y)
  {
    var t, u := x.node.table, y.node.table;
    assert forall i :: 0 <= i < |t| ==> u[i] == t[i] && y.book.roles[i] == x.book.roles[i];
    assert u[|t|] == e && y.book.roles[|t|] == role;
  }

  lemma AppendedMine(x: End, y: End, e: Entry, role: Role, other: End, i: nat)
    requires Appended(x, y, e, role) && Sized(other) && i < |x.node.table| && EntryOk(x, other, i)
    ensures EntryOk(y, other, i)
  {}

  lemma AppendedTheirs(x: End, y: End, e: Entry, role: Role, other: End, i: nat)
    requires Appended(x, y, e, role) && Sized(other) && i < |other.node.table| && EntryOk(other, x, i)
    ensures EntryOk(other, y, i)
  {}

  lemma AppendedPacket(x: End, y: End, e: Entry, role: Role, p: Packet)
    requires Appended(x, y, e, role) && PacketOk(x, p)
    ensures PacketOk(y, p)
  {}

  lemma AppendedGrows(x: End, y: End, e: Entry, role: Role)
    requires Appended(x, y, e, role)
    ensures Only(x, y, |x.node.table|) && Grows(x, y)
  {}

  lemma Append(me: End, y: End, e: Entry, role: Role, other: End, sent: seq<Message>)
    requires Joint(me, other) && Appended(me, y, e, role) && Fits(me.node.table, |me.node.table|, e)
    requires !role.Foreign? ==> e.fai.Fai?
    requires role.Own? ==> e.flow.allocInvokeId == 0
    requires role.For? ==>
               forall i :: 0 <= i < |me.node.table| ==> me.node.table[i].flow.allocInvokeId != e.flow.allocInvokeId
    requires Sized(y) && Sized(other) && EntryOk(y, other, |me.node.table|)
    requires forall m :: m in sent ==> PacketOk(y, Packet(m, |me.node.table|))
    ensures Joint(y, Sends(other, sent, |me.node.table|))
    ensures Moves(me, other, Both(y, Sends(other, sent, |me.node.table|)), |me.node.table|)
  {
    AppendedTables(me, y, e, role);
    AppendedGrows(me, y, e, role);
    hide Only, Grows, Tables, PeerOk, OwnOk, ForOk, Copies, Mirrors, Fits;
    var n := |me.node.table|;
    var theirs := Sends(other, sent, n);
    assert theirs.node == other.node && theirs.book == other.book;
    forall i | 0 <= i < |y.node.table| ensures EntryOk(y, theirs, i) {
      if i != n { AppendedMine(me, y, e, role, other, i); }
      SameOther(y, other, theirs, i);
    }
    forall i | 0 <= i < |theirs.node.table| ensures EntryOk(theirs, y, i) {
      AppendedTheirs(me, y, e, role, other, i);
      SameMine(other, theirs, y, i);
    }
    forall p | p in theirs.inbox ensures PacketOk(y, p) {
      if p in other.inbox { AppendedPacket(me, y, e, role, p); }
    }
    forall p | p in y.inbox ensures PacketOk(theirs, p) {
      assert PacketOk(other, p);
      SamePacket(other, theirs, p);
    }
    assert Tables(theirs) by { SameTables(other, theirs); }
  }

  lemma FreshFits(t: seq<Entry>, e: Entry)
    requires FreshKey(t, e.flow.srcPortId, e.flow.conId.srcCepId)
    ensures Fits(t, |t|, e)
  {}

  lemma OpenKeeps(me: End, other: End, f: FlowValue, port: int, cep: int)
    requires Joint(me, other) && FreshKey(me.node.table, port, cep) && Undirected(f) && f.allocInvokeId == 0
    ensures var r := OpenStep(me, other, f, port, cep); Joint(r.me, r.other) && Moves(me, other, r, |me.node.table|)
  {
    var y := OpenStep(me, other, f, port, cep).me;
    var n := |me.node.table|;
    var e := y.node.table[n];
    FreshFits(me.node.table, e);
    assert n !in me.book.peer && n !in me.book.reopened;
    hide Distinct;
    Append(me, y, e, Own, other, []);
    assert Sends(other, [], n) == other by { assert Packets([], n) == {}; }
  }

  lemma OpenOtherKeeps(me: End, other: End, e: Entry, invoke: nat)
    requires Joint(me, other) && Fits(me.node.table, |me.node.table|, e) && invoke >= me.node.invoke
    ensures var r := OpenOtherStep(me, other, e, invoke); Joint(r.me, r.other) && Moves(me, other, r, |me.node.table|)
  {
    hide Distinct, Fits;
    var n := |me.node.table|;
    Append(me, OpenOtherStep(me, other, e, invoke).me, e, Foreign, other, []);
    assert Sends(other, [], n) == other by { assert Packets([], n) == {}; }
  }

  /** What an arriving request does: nothing exactly when its invoke-id is already in the table, and
      otherwise it makes an entry that mirrors the requester's. */
  lemma CreateExactly(me: End, other: End, p: Packet, port: int, cep: int, src: Address, dst: Address, accepted: bool)
    requires Joint(me, other) && p in me.inbox && p.body.Create? && FreshKey(me.node.table, port, cep)
    ensures p.who < |other.node.table| && IsOwn(other, p.who)
    ensures
      var r := CreateRequest(me.node, Arrived(p.body.flow), port, cep, src, dst, accepted);
      var n := |me.node.table|;
      if exists k :: 0 <= k < n && me.node.table[k].flow.allocInvokeId == p.body.flow.allocInvokeId then
        r == Reaction(me.node, [])
      else
        && |r.node.table| == n + 1 && r.node == me.node.(table := me.node.table + [r.node.table[n]])
        && r.node.table[n].fai.Fai?
        && FreshKey(me.node.table, r.node.table[n].flow.srcPortId, r.node.table[n].flow.conId.srcCepId)
        && r.node.table[n].status == (if accepted then AllocPend else AllocNega)
        && r.node.table[n].flow.allocInvokeId == p.body.flow.allocInvokeId
        && Mirrors(r.node.table[n].flow, other.node.table[p.who].flow)
        && r.sent == if accepted then [] else [CreateResponse(false, r.node.table[n].flow)]
  {
    hide Distinct;
    assert PacketOk(other, p);
    var f := Arrived(p.body.flow);
    assert f.allocInvokeId == p.body.flow.allocInvokeId != 0;
  }

  lemma CreateKeeps(me: End, other: End, p: Packet, port: int, cep: int, src: Address, dst: Address, accepted: bool)
    requires Joint(me, other) && p in me.inbox && p.body.Create? && FreshKey(me.node.table, port, cep)
    ensures var r := CreateStep(me, other, p, port, cep, src, dst, accepted);
      Joint(r.me, r.other) && Moves(me, other, r, |me.node.table|)
  {
    CreateExactly(me, other, p, port, cep, src, dst, accepted);
    NewRoom(me, other);
    hide Joint, CreateRequest, FreshKey, Mirrors;
    var n := |me.node.table|;
    var y := CreateStep(me, other, p, port, cep, src, dst, accepted).me;
    if exists k :: 0 <= k < n && me.node.table[k].flow.allocInvokeId == p.body.flow.allocInvokeId {
      assert y == me;
      Unchanged(me, other, n);
    } else {
      var e := y.node.table[n];
      FreshFits(me.node.table, e);
      Append(me, y, e, For(p.who), other, CreateRequest(me.node, Arrived(p.body.flow), port, cep, src, dst, accepted).sent);
    }
  }

  lemma NewRoom(me: End, other: End)
    requires Joint(me, other)
    ensures var n := |me.node.table|;
      Sized(me) && Sized(other)
      && n !in me.book.peer && n !in me.book.reopened && n !in me.book.accepted && n !in me.book.asked
  {
    hide Distinct;
  }

  // ---- Other entries, and relays ----

  lemma ForeignTables(x: End, y: End, k: nat)
    requires Tables(x) && OneEntry(x, y, k) && x.book.roles[k].Foreign? && Fits(x.node.table, k, y.node.table[k])
    ensures Tables(y)
  {
    BookBounds(x, y, k);
    hide SameMember;
  }

  lemma ChangeOtherKeeps(me: End, other: End, k: nat, e: Entry, invoke: nat)
    requires Joint(me, other) && k < |me.node.table| && k < |me.book.roles| && me.book.roles[k].Foreign?
    requires Fits(me.node.table, k, e) && invoke >= me.node.invoke
    ensures var r := ChangeOtherStep(me, other, k, e, invoke); Joint(r.me, r.other) && Moves(me, other, r, k)
  {
    var y := ChangeOtherStep(me, other, k, e, invoke).me;
    assert OneEntry(me, y, k);
    OneEntryGrows(me, y, k);
    ForeignTables(me, y, k);
    hide Only, Grows, Tables, PeerOk, OwnOk, ForOk, SameMember, Copies, Mirrors, Fits;
    forall i | 0 <= i < |y.node.table| ensures EntryOk(y, other, i) {
      if i != k { OneEntryMine(me, y, k, other, i); }
    }
    forall i | 0 <= i < |other.node.table| ensures EntryOk(other, y, i) {
      OneEntryTheirs(me, y, k, other, i);
    }
    forall p | p in other.inbox ensures PacketOk(y, p) {
      OneEntryPacket(me, y, k, p);
    }
  }

  lemma StaysAsItWas(x: End, y: End)
    requires Sized(x) && x.node == y.node && x.book == y.book
    ensures Grows(x, y) && forall k :: Only(x, y, k)
  {}

  lemma RelayKeeps(me: End, other: End, p: Packet, src: Address, dst: Address)
    requires Joint(me, other) && p in me.inbox && p.body.Create? && p.body.flow.hopCount > 1
    ensures var r := RelayStep(me, other, p, src, dst); Joint(r.me, r.other) && Moves(me, other, r, |me.node.table|)
  {
    hide Distinct, PeerOk, OwnOk, ForOk;
    var x := RelayStep(me, other, p, src, dst).me;
    StaysAsItWas(me, x);
    assert PacketOk(other, p);
    assert Tables(x) by { SameTables(me, x); }
    forall i | 0 <= i < |x.node.table| ensures EntryOk(x, other, i) {
      SameMine(me, x, other, i);
    }
    forall i | 0 <= i < |other.node.table| ensures EntryOk(other, x, i) {
      SameOther(other, me, x, i);
    }
    forall q | q in x.inbox ensures PacketOk(other, q) {}
    forall q | q in other.inbox ensures PacketOk(x, q) { SamePacket(me, x, q); }
  }

  /** The entry that an action concerns; none for an action that makes a new one. */
  function Concerned(me: End, other: End, x: Action): nat {
    match x
    case Allocate(i, _) => i
    case Positive(p) => Target(other, p.who)
    case Negative(p, _) => Target(other, p.who)
    case Deallocate(k) => k
    case DeleteArrives(p) => Target(other, p.who)
    case AnswerArrives(p) => Target(other, p.who)
    case Respond(j, _, _, _) => j
    case ChangeOther(k, _, _) => k
    case _ => |me.node.table|
  }

  /** Every step keeps the joint invariant, loses no entry, lets entries make progress only, and
      changes none but the one that it concerns. */
  lemma StepKeepsInvariant(me: End, other: End, x: Action)
    requires Joint(me, other) && Enabled(me, x)
    ensures var r := Step(me, other, x); Joint(r.me, r.other) && Moves(me, other, r, Concerned(me, other, x))
  {
    hide Moves, Target, Joint, OpenStep, AllocateStep, PositiveStep, NegativeStep, DeallocateStep, DeleteStep, AnswerStep,
      RelayStep, CreateStep, RespondStep, OpenOtherStep, ChangeOtherStep, FreshKey, Fits;
    match x
    case Open(f, port, cep) => OpenKeeps(me, other, f, port, cep);
    case Allocate(i, o) => AllocateKeeps(me, other, i, o);
    case Positive(p) => PositiveKeeps(me, other, p);
    case Negative(p, retry) => NegativeKeeps(me, other, p, retry);
    case Deallocate(k) => DeallocateKeeps(me, other, k);
    case DeleteArrives(p) => DeleteKeeps(me, other, p);
    case AnswerArrives(p) => AnswerKeeps(me, other, p);
    case Relay(p, src, dst) => RelayKeeps(me, other, p, src, dst);
    case CreateArrives(p, port, cep, src, dst, accepted) => CreateKeeps(me, other, p, port, cep, src, dst, accepted);
    case Respond(j, positive, ready, bound) => RespondKeeps(me, other, j, positive, ready, bound);
    case OpenOther(e, invoke) => OpenOtherKeeps(me, other, e, invoke);
    case ChangeOther(k, e, invoke) => ChangeOtherKeeps(me, other, k, e, invoke);
  }
}
