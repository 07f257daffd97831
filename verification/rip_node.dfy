/** A routing node: construction, the UPDataInd dispatch on the PDU tag, and the RIPGET,
    RIPSET, RIPIND and RIPRQT handlers. Each event maps the node's state to a new state plus
    the UPDataReq calls it made, in order. A timer tick is one more event, which propagates. */
module RipNode {
  import opened Wrappers
  import opened JavaText
  import opened Utils
  import opened Unicast
  import opened RipConfig
  import opened RipCodec
  import opened RipState
  import opened DistanceVector

  const GET_TAG: string := "RIPGET"
  const SET_TAG: string := "RIPSET"
  const RQT_TAG: string := "RIPRQT"

  // ---------------------------------------------------------------------------
  // Construction

  datatype StartError = InvalidId | TopologyUnavailable | TransportFailed(cause: CreateError)

  /** A constructed node, its transport and the requests of the initial propagation. */
  datatype Started = Started(node: Node, transport: Transport, out: seq<Request>)

  /** The constructor's id check: the manager's id and ids above MAX_NODES are refused. */
  predicate IdAccepted(id: int) {
    id != MANAGER_ID && id <= MAX_NODES
  }

  /** new RIPNode(id, ...): check the id, load the topology (which must name the node), set
      up the table, create the transport, then propagate the initial vector. `order` is the
      iteration order of the neighbour map. */
  function Init(id: int, addressLines: seq<string>, topologyLines: seq<string>, order: seq<int>, socketsBind: bool): (r: Result<Started, StartError>)
    requires InShort(id)
    requires LoadTopology(topologyLines).Some? && id in LoadTopology(topologyLines).value ==>
      Enumerates(order, LoadTopology(topologyLines).value[id].Keys)
    ensures r.Success? <==>
      IdAccepted(id) && LoadTopology(topologyLines).Some? && id in LoadTopology(topologyLines).value &&
      Create(true, id, addressLines, socketsBind).Success?
    ensures !IdAccepted(id) ==> r == Failure(InvalidId)
    ensures IdAccepted(id) && (LoadTopology(topologyLines).None? || id !in LoadTopology(topologyLines).value) ==>
      r == Failure(TopologyUnavailable)
    ensures r.Success? ==>
      var t := LoadTopology(topologyLines).value;
      && Valid(r.value.node) && DeadLinksCleared(r.value.node)
      && r.value.node.id == id && r.value.node.neighbors == t[id] && r.value.node.order == order
      && r.value.transport == Create(true, id, addressLines, socketsBind).value
      && r.value.out == Propagate(r.value.node)
  {
    if !IdAccepted(id) then Failure(InvalidId)
    else match LoadTopology(topologyLines)
      case None => Failure(TopologyUnavailable)
      case Some(t) =>
        if id !in t then Failure(TopologyUnavailable)
        else match Create(true, id, addressLines, socketsBind)
          case Failure(e) => Failure(TransportFailed(e))
          case Success(tr) =>
            TopologySymmetric(topologyLines);
            var n := Seed(id, t, order);
            SeedDeadLinksCleared(id, t, order);
            Success(Started(n, tr, Propagate(n)))
  }

  /** A started node describes itself and its links as the topology file says, its first
      advertisement goes to every neighbour whose configured cost is not INFINITY, and its
      initial row 0 holds those link costs (0 for itself unless a line links it to itself). */
  lemma InitialState(id: int, addressLines: seq<string>, topologyLines: seq<string>, order: seq<int>, socketsBind: bool)
    requires InShort(id)
    requires LoadTopology(topologyLines).Some? && id in LoadTopology(topologyLines).value ==>
      Enumerates(order, LoadTopology(topologyLines).value[id].Keys)
    requires Init(id, addressLines, topologyLines, order, socketsBind).Success?
    ensures var s := Init(id, addressLines, topologyLines, order, socketsBind).value;
      var t := LoadTopology(topologyLines).value;
      && s.node.id == id && s.node.neighbors == t[id] && |s.node.ids| == |t|
      && (forall x :: x in Dests(s.out) <==> x in t[id] && t[id][x] != INFINITY)
      && (forall k :: 0 <= k < |s.out| ==> s.out[k].data == IndPdu(id, s.node.table[0]))
      && (forall x :: x in t[id] ==> s.node.table[0][Column(s.node, x)] == t[id][x])
      && (id !in t[id] ==> s.node.table[0][Column(s.node, id)] == 0)
      && (forall x :: x in t && x != id && x !in t[id] ==> s.node.table[0][Column(s.node, x)] == INFINITY)
  {
    var t := LoadTopology(topologyLines).value;
    TopologySymmetric(topologyLines);
    InitialShape(id, t, order);
    InitialRow(id, t, order);
    var s := Init(id, addressLines, topologyLines, order, socketsBind).value;
    assert s.node == Seed(id, t, order);
    PropagationTargets(s.node);
  }

  // ---------------------------------------------------------------------------
  // PDU fields

  /** "RIPGET A B": the split payload needs two `short` fields; more are ignored. */
  function ParseGet(payload: string): (r: Option<(int, int)>)
    ensures r.Some? ==> InShort(r.value.0) && InShort(r.value.1)
    ensures |Split(payload, ' ')| < 2 ==> r.None?
  {
    var parts := Split(payload, ' ');
    if |parts| < 2 then None
    else match (ParseShort(parts[0]), ParseShort(parts[1]))
      case (Some(a), Some(b)) => Some((a, b))
      case _ => None
  }

  /** "RIPSET A B cost": two `short` fields and an `int`; more are ignored. */
  function ParseSet(payload: string): (r: Option<(int, int, int)>)
    ensures r.Some? ==> InShort(r.value.0) && InShort(r.value.1) && InInt(r.value.2)
    ensures |Split(payload, ' ')| < 3 ==> r.None?
  {
    var parts := Split(payload, ' ');
    if |parts| < 3 then None
    else match (ParseShort(parts[0]), ParseShort(parts[1]), ParseInt32(parts[2]))
      case (Some(a), Some(b), Some(c)) => Some((a, b, c))
      case _ => None
  }

  /** "RIPIND S vector": the sender as a `short`, then the rest of the payload as a vector. */
  function ParseInd(payload: string): (r: Option<(int, seq<int>)>)
    ensures r.Some? ==> AllInt(r.value.1)
  {
    var parts := SplitOnce(payload, ' ');
    if |parts| < 2 then None
    else match (ParseShort(parts[0]), ParseVector(parts[1]))
      case (Some(s), Some(v)) => Some((s, v))
      case _ => None
  }

  /** The payloads the manager writes are read back field for field. */
  lemma GetDecodes(a: int, b: int)
    requires InShort(a) && InShort(b)
    ensures ParseGet(Join([IntStr(a), IntStr(b)], ' ')) == Some((a, b))
  {
    IntStrHasNoSpace(a);
    IntStrHasNoSpace(b);
    SplitOfJoin([IntStr(a), IntStr(b)], ' ');
    ShortRoundTrip(a);
    ShortRoundTrip(b);
  }

  lemma SetDecodes(a: int, b: int, cost: int)
    requires InShort(a) && InShort(b) && InInt(cost)
    ensures ParseSet(Join([IntStr(a), IntStr(b), IntStr(cost)], ' ')) == Some((a, b, cost))
  {
    IntStrHasNoSpace(a);
    IntStrHasNoSpace(b);
    IntStrHasNoSpace(cost);
    SplitOfJoin([IntStr(a), IntStr(b), IntStr(cost)], ' ');
    ShortRoundTrip(a);
    ShortRoundTrip(b);
    Int32RoundTrip(cost);
  }

  // ---------------------------------------------------------------------------
  // Handlers

  /** neighbors.getOrDefault(x, INFINITY) */
  function LinkCost(n: Node, x: int): (c: int)
    ensures x in n.neighbors ==> c == n.neighbors[x]
    ensures x !in n.neighbors ==> c == INFINITY
  {
    if x in n.neighbors then n.neighbors[x] else INFINITY
  }

  /** Whether a RIPGET passes every check of the handler. */
  predicate GetAccepted(n: Node, source: int, payload: string) {
    source == MANAGER_ID && ParseGet(payload).Some? && ParseGet(payload).value.0 == n.id
  }

  /** handleRIPGet: a read-only query answered with the current cost of the link A-B. */
  function OnGet(n: Node, source: int, payload: string): (r: Reaction)
    ensures r.node == n && |r.out| <= 1
    ensures |r.out| == 1 <==> GetAccepted(n, source, payload)
  {
    if source != MANAGER_ID then Reaction(n, [])
    else match ParseGet(payload)
      case None => Reaction(n, [])
      case Some((a, b)) =>
        if a != n.id then Reaction(n, [])
        else Reaction(n, [Request(MANAGER_ID, NtfPdu(n.id, b, LinkCost(n, b)))])
  }

  /** The new link cost, and for an INFINITY cost the neighbour's row wiped to INFINITY. */
  function ApplySet(n: Node, b: int, cost: int): (m: Node)
    requires Valid(n) && b in n.neighbors && InInt(cost)
    ensures Valid(m)
    ensures m.neighbors == n.neighbors[b := cost]
    ensures m.id == n.id && m.topology == n.topology && m.ids == n.ids && m.order == n.order
    ensures |m.table| == |n.table|
    ensures forall r :: 0 <= r < |n.table| && r != RowOf(n, b) ==> m.table[r] == n.table[r]
    ensures cost == INFINITY ==> m.table[RowOf(n, b)] == Infinities(|n.ids|)
    ensures cost != INFINITY ==> m.table[RowOf(n, b)] == n.table[RowOf(n, b)]
  {
    var m := n.(neighbors := n.neighbors[b := cost]);
    assert m.neighbors.Keys == n.neighbors.Keys;
    if cost == INFINITY then m.(table := m.table[RowOf(n, b) := Infinities(|n.ids|)]) else m
  }

  /** Whether a RIPSET passes every check of the handler. */
  predicate SetAccepted(n: Node, source: int, payload: string)
    requires Valid(n)
  {
    source == MANAGER_ID && ParseSet(payload).Some? &&
    ParseSet(payload).value.0 == n.id && ParseSet(payload).value.1 in n.topology[n.id]
  }

  /** handleRIPSet: update the link, relax (propagating on change), confirm to the manager. */
  function OnSet(n: Node, source: int, payload: string): (r: Reaction)
    requires Valid(n)
    ensures Valid(r.node)
  {
    if source != MANAGER_ID then Reaction(n, [])
    else match ParseSet(payload)
      case None => Reaction(n, [])
      case Some((a, b, cost)) =>
        if a != n.id || b !in n.topology[n.id] then Reaction(n, [])
        else
          var relaxed := Recalculate(ApplySet(n, b, cost));
          Reaction(relaxed.node, relaxed.out + [Request(MANAGER_ID, NtfPdu(n.id, b, cost))])
  }

  /** The neighbour's row replaced by the vector it advertised. */
  function AcceptVector(n: Node, x: int, v: seq<int>): (m: Node)
    requires Valid(n) && x in n.neighbors && |v| == |n.ids| && AllInt(v)
    ensures Valid(m)
    ensures |m.table| == |n.table| && m.table[RowOf(n, x)] == v
    ensures forall r :: 0 <= r < |n.table| && r != RowOf(n, x) ==> m.table[r] == n.table[r]
    ensures m.id == n.id && m.topology == n.topology && m.neighbors == n.neighbors
    ensures m.ids == n.ids && m.order == n.order
  {
    n.(table := n.table[RowOf(n, x) := v])
  }

  /** Whether a RIPIND passes every check of the handler. */
  predicate IndAccepted(n: Node, source: int, payload: string)
    requires Valid(n)
  {
    source in n.neighbors && n.neighbors[source] != INFINITY && ParseInd(payload).Some? &&
    ParseInd(payload).value.0 == source && |ParseInd(payload).value.1| == |n.ids|
  }

  /** handleRIPInd: store a live neighbour's vector in its row and relax. */
  function OnInd(n: Node, source: int, payload: string): (r: Reaction)
    requires Valid(n)
    ensures Valid(r.node)
  {
    if source !in n.neighbors then Reaction(n, [])
    else match ParseInd(payload)
      case None => Reaction(n, [])
      case Some((sender, v)) =>
        if sender != source || n.neighbors[source] == INFINITY || |v| != |n.ids| then Reaction(n, [])
        else Recalculate(AcceptVector(n, source, v))
  }

  /** handleRIPRqt: the whole distance table, answered to the manager. */
  function OnRqt(n: Node, source: int): (r: Reaction)
    ensures r.node == n && |r.out| <= 1
  {
    if source != MANAGER_ID then Reaction(n, [])
    else Reaction(n, [Request(MANAGER_ID, RspPdu(n.id, n.table))])
  }

  /** UPDataInd: split off the tag at the first space and hand the rest to its handler;
      an unknown tag is dropped. */
  function Dispatch(n: Node, source: int, data: string): (r: Reaction)
    requires Valid(n)
    ensures Valid(r.node)
  {
    var parts := SplitOnce(data, ' ');
    var payload := if |parts| > 1 then parts[1] else "";
    if parts[0] == GET_TAG then OnGet(n, source, payload)
    else if parts[0] == SET_TAG then OnSet(n, source, payload)
    else if parts[0] == IND_TAG then OnInd(n, source, payload)
    else if parts[0] == RQT_TAG then OnRqt(n, source)
    else Reaction(n, [])
  }

  datatype Event = Tick | Receive(source: int, data: string)

  /** One event: a timer tick propagates row 0; a received PDU is dispatched. */
  function Step(n: Node, e: Event): (r: Reaction)
    requires Valid(n)
    ensures Valid(r.node)
  {
    match e
    case Tick => Reaction(n, Propagate(n))
    case Receive(source, data) => Dispatch(n, source, data)
  }

  // ---------------------------------------------------------------------------
  // Properties

  lemma TagsAreWords()
    ensures ' ' !in GET_TAG && ' ' !in SET_TAG && ' ' !in RQT_TAG && ' ' !in IND_TAG
  {
    assert forall k :: 0 <= k < 6 ==> GET_TAG[k] != ' ' && SET_TAG[k] != ' ' && RQT_TAG[k] != ' ';
    TagsHaveNoSpace();
  }

  /** "TAG payload" reaches the handler of TAG with exactly that payload; a bare tag reaches
      it with the empty payload; any other first word is dropped. */
  lemma DispatchRoutes(n: Node, source: int, tag: string, payload: string)
    requires Valid(n) && ' ' !in tag
    ensures var r := Dispatch(n, source, tag + " " + payload);
      && (tag == GET_TAG ==> r == OnGet(n, source, payload))
      && (tag == SET_TAG ==> r == OnSet(n, source, payload))
      && (tag == IND_TAG ==> r == OnInd(n, source, payload))
      && (tag == RQT_TAG ==> r == OnRqt(n, source))
      && (tag !in {GET_TAG, SET_TAG, IND_TAG, RQT_TAG} ==> r == Reaction(n, []))
    ensures Dispatch(n, source, tag) ==
      if tag == GET_TAG then OnGet(n, source, "")
      else if tag == SET_TAG then OnSet(n, source, "")
      else if tag == IND_TAG then OnInd(n, source, "")
      else if tag == RQT_TAG then OnRqt(n, source)
      else Reaction(n, [])
  {
    assert tag + " " + payload == tag + [' '] + payload;
    SplitOnceAt(tag, payload, ' ');
  }

  /** Only the manager may query, change or read a node: from anyone else RIPGET, RIPSET and
      RIPRQT leave the node as it was and send nothing. */
  lemma NonManagerDropped(n: Node, source: int, tag: string, payload: string)
    requires Valid(n) && source != MANAGER_ID && tag in {GET_TAG, SET_TAG, RQT_TAG}
    ensures Dispatch(n, source, tag + " " + payload) == Reaction(n, [])
    ensures Dispatch(n, source, tag) == Reaction(n, [])
  {
    TagsAreWords();
    DispatchRoutes(n, source, tag, payload);
  }

  /** RIPGET from the manager for this node is answered with "RIPNTF self B cost", the cost
      being the current link cost or INFINITY for a node that is not a neighbour. */
  lemma GetReply(n: Node, b: int)
    requires Valid(n) && InShort(b)
    ensures OnGet(n, MANAGER_ID, Join([IntStr(n.id), IntStr(b)], ' ')) ==
      Reaction(n, [Request(MANAGER_ID, NtfPdu(n.id, b, LinkCost(n, b)))])
  {
    GetDecodes(n.id, b);
  }

  /** A RIPGET changes nothing and sends nothing unless it comes from the manager, reads as
      two `short`s and names this node as A; an accepted one is answered with the cost of the
      link to B. */
  lemma GetDropConditions(n: Node, source: int, payload: string)
    ensures !GetAccepted(n, source, payload) ==> OnGet(n, source, payload) == Reaction(n, [])
    ensures GetAccepted(n, source, payload) ==> var b := ParseGet(payload).value.1;
      OnGet(n, source, payload) == Reaction(n, [Request(MANAGER_ID, NtfPdu(n.id, b, LinkCost(n, b)))])
  {
  }

  /** A RIPGET for another node is dropped, even from the manager. */
  lemma GetForOtherDropped(n: Node, a: int, b: int)
    requires InShort(a) && InShort(b) && a != n.id
    ensures OnGet(n, MANAGER_ID, Join([IntStr(a), IntStr(b)], ' ')) == Reaction(n, [])
  {
    GetDecodes(a, b);
  }

  /** A RIPSET changes nothing and sends nothing unless it comes from the manager, names this
      node as A and a neighbour of the static topology as B; an accepted one always answers. */
  lemma SetDropConditions(n: Node, source: int, payload: string)
    requires Valid(n)
    ensures !SetAccepted(n, source, payload) ==> OnSet(n, source, payload) == Reaction(n, [])
    ensures SetAccepted(n, source, payload) ==> OnSet(n, source, payload).out != []
  {
  }

  /** An accepted RIPSET A B cost sets the link cost to B (wiping B's row when the cost is
      INFINITY), relaxes, and ends with the notification "RIPNTF A B cost" to the manager,
      after any advertisements the relaxation sent. */
  lemma SetEffect(n: Node, source: int, payload: string)
    requires Valid(n) && SetAccepted(n, source, payload)
    ensures var (a, b, cost) := ParseSet(payload).value;
      var r := OnSet(n, source, payload);
      && b in n.neighbors && InInt(cost)
      && r.node == Relax(ApplySet(n, b, cost))
      && r.out == Recalculate(ApplySet(n, b, cost)).out + [Request(MANAGER_ID, NtfPdu(a, b, cost))]
      && r.node.neighbors == n.neighbors[b := cost]
      && (cost == INFINITY ==> r.node.table[RowOf(n, b)] == Infinities(|n.ids|))
  {
  }

  /** A RIPIND changes nothing and sends nothing unless it comes from a neighbour whose link
      is not INFINITY, names that neighbour as its sender and carries a vector of numNodes
      integers. */
  lemma IndDropConditions(n: Node, source: int, payload: string)
    requires Valid(n)
    ensures !IndAccepted(n, source, payload) ==> OnInd(n, source, payload) == Reaction(n, [])
  {
  }

  /** An accepted RIPIND overwrites exactly the sender's row before relaxing. */
  lemma IndEffect(n: Node, source: int, payload: string)
    requires Valid(n) && IndAccepted(n, source, payload)
    ensures var v := ParseInd(payload).value.1;
      var r := OnInd(n, source, payload);
      && r == Recalculate(AcceptVector(n, source, v))
      && r.node.table[RowOf(n, source)] == v
      && (forall q :: 1 <= q < |n.table| && q != RowOf(n, source) ==> r.node.table[q] == n.table[q])
      && r.node.neighbors == n.neighbors
  {
  }

  /** A node whose row 0 is already relaxed ignores, in effect, a repeated advertisement: it
      keeps its state and sends nothing. */
  lemma IndRepeatIsQuiet(n: Node, source: int, payload: string)
    requires Valid(n) && n.table[0] == RelaxedRow(n) && IndAccepted(n, source, payload)
    requires ParseInd(payload).value.1 == n.table[RowOf(n, source)]
    ensures OnInd(n, source, payload) == Reaction(n, [])
  {
    var v := ParseInd(payload).value.1;
    IndEffect(n, source, payload);
    assert AcceptVector(n, source, v) == n;
    assert n.table[0 := RelaxedRow(n)] == n.table;
    assert Relax(n) == n;
  }

  /** What one node advertises, its neighbour accepts: the advertisement of row 0 sent to a
      neighbour with a live link back lands, unchanged, in the sender's row there. */
  lemma NeighbourAcceptsAdvert(m: Node, n: Node)
    requires Valid(m) && Valid(n) && Live(n, m.id) && |m.table[0]| == |n.ids|
    ensures Dispatch(n, m.id, IndPdu(m.id, m.table[0])) == Recalculate(AcceptVector(n, m.id, m.table[0]))
    ensures Dispatch(n, m.id, IndPdu(m.id, m.table[0])).node.table[RowOf(n, m.id)] == m.table[0]
  {
    var v := m.table[0];
    var rest := Join([IntStr(m.id), FormatVector(v)], ' ');
    IndPayloadDecodes(m.id, v);
    TagsAreWords();
    assert IndPdu(m.id, v) == IND_TAG + " " + rest;
    DispatchRoutes(n, m.id, IND_TAG, rest);
  }

  /** The payload of an advertisement reads back as its sender and vector. */
  lemma IndPayloadDecodes(id: int, v: seq<int>)
    requires InShort(id) && AllInt(v) && 1 <= |v|
    ensures ParseInd(Join([IntStr(id), FormatVector(v)], ' ')) == Some((id, v))
  {
    IndDecodes(id, v);
  }

  /** RIPRQT from the manager is answered with "RIPRSP self" and every row of the table in
      row order, each of which the manager reads back exactly. */
  lemma RqtReply(n: Node)
    requires Valid(n)
    ensures OnRqt(n, MANAGER_ID) == Reaction(n, [Request(MANAGER_ID, RspPdu(n.id, n.table))])
    ensures var parts := Split(RspPdu(n.id, n.table), ' ');
      |parts| == |n.table| + 2 && parts[0] == RSP_TAG && ParseDecimal(parts[1]) == Some(n.id) &&
      forall q :: 0 <= q < |n.table| ==> ParseVector(parts[q + 2]) == Some(n.table[q])
  {
    assert n.id in n.ids;
    RspDecodes(n.id, n.table);
  }

  predicate AsciiOut(out: seq<Request>) {
    forall k :: 0 <= k < |out| ==> IsAscii(out[k].data)
  }

  lemma PropagateAscii(n: Node)
    requires Valid(n)
    ensures AsciiOut(Propagate(n))
  {
    PropagationTargets(n);
    PdusAreAscii(n.id, 0, 0, 0, n.table[0], []);
  }

  lemma RecalculateAscii(n: Node)
    requires Valid(n)
    ensures AsciiOut(Recalculate(n).out)
  {
    PropagateAscii(Relax(n));
  }

  lemma GetAscii(n: Node, source: int, payload: string)
    requires Valid(n)
    ensures AsciiOut(OnGet(n, source, payload).out)
  {
    if ParseGet(payload).Some? {
      var b := ParseGet(payload).value.1;
      PdusAreAscii(n.id, n.id, b, LinkCost(n, b), [], []);
    }
  }

  lemma SetAscii(n: Node, source: int, payload: string)
    requires Valid(n)
    ensures AsciiOut(OnSet(n, source, payload).out)
  {
    if SetAccepted(n, source, payload) {
      var (a, b, cost) := ParseSet(payload).value;
      SetEffect(n, source, payload);
      AcceptedSetAscii(n, a, b, cost);
    }
  }

  lemma AcceptedSetAscii(n: Node, a: int, b: int, cost: int)
    requires Valid(n) && b in n.neighbors && InInt(cost)
    ensures AsciiOut(Recalculate(ApplySet(n, b, cost)).out + [Request(MANAGER_ID, NtfPdu(a, b, cost))])
  {
    var m := ApplySet(n, b, cost);
    RecalculateAscii(m);
    NotificationAfterAscii(Recalculate(m).out, a, b, cost);
  }

  lemma NotificationAfterAscii(out: seq<Request>, a: int, b: int, cost: int)
    requires AsciiOut(out)
    ensures AsciiOut(out + [Request(MANAGER_ID, NtfPdu(a, b, cost))])
  {
    PdusAreAscii(a, a, b, cost, [], []);
    AsciiOutConcat(out, [Request(MANAGER_ID, NtfPdu(a, b, cost))]);
  }

  lemma AsciiOutConcat(a: seq<Request>, b: seq<Request>)
    requires AsciiOut(a) && AsciiOut(b)
    ensures AsciiOut(a + b)
  {
    forall k | 0 <= k < |a + b| ensures IsAscii((a + b)[k].data) {
      if k < |a| {
        assert (a + b)[k] == a[k];
      } else {
        assert (a + b)[k] == b[k - |a|];
      }
    }
  }

  lemma IndAscii(n: Node, source: int, payload: string)
    requires Valid(n)
    ensures AsciiOut(OnInd(n, source, payload).out)
  {
    if IndAccepted(n, source, payload) {
      RecalculateAscii(AcceptVector(n, source, ParseInd(payload).value.1));
    }
  }

  lemma RqtAscii(n: Node, source: int)
    requires Valid(n)
    ensures AsciiOut(OnRqt(n, source).out)
  {
    PdusAreAscii(n.id, 0, 0, 0, [], n.table);
  }

  /** The received data goes to one handler with the text after the tag as its payload. */
  lemma DispatchCases(n: Node, source: int, data: string)
    requires Valid(n)
    ensures var parts := SplitOnce(data, ' ');
      var payload := if |parts| > 1 then parts[1] else "";
      var r := Dispatch(n, source, data);
      r == OnGet(n, source, payload) || r == OnSet(n, source, payload) ||
      r == OnInd(n, source, payload) || r == OnRqt(n, source) || r == Reaction(n, [])
  {
  }

  /** Every payload a node hands to the transport is ASCII, as UPDataReq's byte count needs. */
  lemma OutputsAscii(n: Node, e: Event)
    requires Valid(n)
    ensures AsciiOut(Step(n, e).out)
  {
    match e
    case Tick => PropagateAscii(n);
    case Receive(source, data) =>
      var parts := SplitOnce(data, ' ');
      var payload := if |parts| > 1 then parts[1] else "";
      DispatchCases(n, source, data);
      GetAscii(n, source, payload);
      SetAscii(n, source, payload);
      IndAscii(n, source, payload);
      RqtAscii(n, source);
  }

  lemma RecalculateKeepsDeadLinksCleared(n: Node)
    requires Valid(n) && DeadLinksCleared(n)
    ensures DeadLinksCleared(Recalculate(n).node)
  {
    var m := Relax(n);
    forall x | x in m.neighbors ensures RowOf(m, x) == RowOf(n, x) {
    }
  }

  lemma SetKeepsDeadLinksCleared(n: Node, source: int, payload: string)
    requires Valid(n) && DeadLinksCleared(n)
    ensures DeadLinksCleared(OnSet(n, source, payload).node)
  {
    if SetAccepted(n, source, payload) {
      var (a, b, cost) := ParseSet(payload).value;
      var m := ApplySet(n, b, cost);
      ApplySetKeepsDeadLinksCleared(n, b, cost);
      RecalculateKeepsDeadLinksCleared(m);
    }
  }

  lemma ApplySetKeepsDeadLinksCleared(n: Node, b: int, cost: int)
    requires Valid(n) && DeadLinksCleared(n) && b in n.neighbors && InInt(cost)
    ensures DeadLinksCleared(ApplySet(n, b, cost))
  {
    var m := ApplySet(n, b, cost);
    forall x, c | x in m.neighbors && m.neighbors[x] == INFINITY && 0 <= c < |m.ids|
      ensures m.table[RowOf(m, x)][c] == INFINITY
    {
      var r := RowOf(n, x);
      assert RowOf(m, x) == r;
      if x != b {
        assert n.order[r - 1] != n.order[RowOf(n, b) - 1];
      }
    }
  }

  lemma AcceptVectorKeepsDeadLinksCleared(n: Node, x: int, v: seq<int>)
    requires Valid(n) && DeadLinksCleared(n) && Live(n, x) && |v| == |n.ids| && AllInt(v)
    ensures DeadLinksCleared(AcceptVector(n, x, v))
  {
    var m := AcceptVector(n, x, v);
    forall y, c | y in m.neighbors && m.neighbors[y] == INFINITY && 0 <= c < |m.ids|
      ensures m.table[RowOf(m, y)][c] == INFINITY
    {
      var r := RowOf(n, y);
      assert RowOf(m, y) == r;
      assert n.order[r - 1] != n.order[RowOf(n, x) - 1];
    }
  }

  lemma IndKeepsDeadLinksCleared(n: Node, source: int, payload: string)
    requires Valid(n) && DeadLinksCleared(n)
    ensures DeadLinksCleared(OnInd(n, source, payload).node)
  {
    if IndAccepted(n, source, payload) {
      var v := ParseInd(payload).value.1;
      AcceptVectorKeepsDeadLinksCleared(n, source, v);
      RecalculateKeepsDeadLinksCleared(AcceptVector(n, source, v));
    }
  }

  /** Row 0 keeps 0 in the node's own column through every event: the handlers that change
      the table end by relaxing, and the others leave the node as it was. */
  lemma StepKeepsSelfZero(n: Node, e: Event)
    requires Valid(n) && SelfZero(n)
    ensures SelfZero(Step(n, e).node)
  {
    match e
    case Tick =>
    case Receive(source, data) => DispatchCases(n, source, data);
  }

  /** A neighbour whose link is INFINITY keeps an all-INFINITY row through every event. */
  lemma StepKeepsDeadLinksCleared(n: Node, e: Event)
    requires Valid(n) && DeadLinksCleared(n)
    ensures DeadLinksCleared(Step(n, e).node)
  {
    match e
    case Tick =>
    case Receive(source, data) =>
      var parts := SplitOnce(data, ' ');
      var payload := if |parts| > 1 then parts[1] else "";
      DispatchCases(n, source, data);
      SetKeepsDeadLinksCleared(n, source, payload);
      IndKeepsDeadLinksCleared(n, source, payload);
  }
}
