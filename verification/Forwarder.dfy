/** The table of queries under way upstream (dataplane/src/dns/forwarder.cpp).

    Besides the table the model keeps the history of successful forwards and of
    what became of each, so that properties of whole runs can be stated: every
    forward is pending, consumed by one response, or pruned, and never two of these. */
module Forwarder {
  import opened Wire
  import opened Parser
  import Responses

  const MAX_PENDING := 2048
  const TIMEOUT_MS := 2000
  const NANOS_PER_MILLI := 1_000_000

  datatype Address = Address(ip: nat, port: U16)

  datatype Pending = Pending(clientId: U16, client: Address, qname: string, qtype: U16, timestamp: int)

  /** A duration in whole milliseconds, rounded toward zero. */
  function Millis(nanos: int): int {
    if nanos >= 0 then nanos / NANOS_PER_MILLI else -(-nanos / NANOS_PER_MILLI)
  }

  predicate Expired(tx: Pending, now: int) {
    Millis(now - tx.timestamp) > TIMEOUT_MS
  }

  function Live(pending: map<U16, Pending>, now: int): map<U16, Pending> {
    map k | k in pending && !Expired(pending[k], now) :: pending[k]
  }

  function TxFor(packet: Packet, client: Address, now: int): Pending {
    Pending(packet.header.id, client, packet.question.qname, packet.question.qtype, now)
  }

  // ---------------------------------------------------------------------
  // History
  // ---------------------------------------------------------------------

  /** A query sent upstream under the id `txid`. */
  datatype Forwarded = Forwarded(txid: U16, tx: Pending)

  /** A response passed on to a client, and the forward it answers. */
  datatype Accepted = Accepted(forward: nat, tx: Pending, response: Bytes)

  /** The pending table and its history: `origin` says which forward a pending
      id is from, `consumed` and `pruned` which forwards are settled. */
  datatype Ledger = Ledger(
    pending: map<U16, Pending>,
    origin: map<U16, nat>,
    forwards: seq<Forwarded>,
    consumed: set<nat>,
    pruned: set<nat>,
    accepted: seq<Accepted>)

  const EMPTY_LEDGER := Ledger(map[], map[], [], {}, {}, [])

  function Prune(l: Ledger, now: int): Ledger
    requires l.origin.Keys == l.pending.Keys
  {
    l.(pending := Live(l.pending, now),
       origin := map k | k in l.pending && !Expired(l.pending[k], now) :: l.origin[k],
       pruned := l.pruned + set k | k in l.pending && Expired(l.pending[k], now) :: l.origin[k])
  }

  /** The ledger after `forward_query`, which prunes, and, with room left and
      the datagram sent, records the query under a free id. */
  function OnForward(l: Ledger, tx: Pending, txid: U16, sent: bool): Ledger
    requires l.origin.Keys == l.pending.Keys
  {
    var live := Prune(l, tx.timestamp);
    if |live.pending| >= MAX_PENDING || !sent then live
    else live.(pending := live.pending[txid := tx],
               origin := live.origin[txid := |l.forwards|],
               forwards := l.forwards + [Forwarded(txid, tx)])
  }

  function Settle(l: Ledger, txid: U16): Ledger
    requires txid in l.origin
  {
    l.(pending := l.pending - {txid}, origin := l.origin - {txid}, consumed := l.consumed + {l.origin[txid]})
  }

  predicate Matches(q: Question, tx: Pending) {
    q.qname == tx.qname && q.qtype == tx.qtype
  }

  /** A datagram that reaches the table: long enough, from the upstream server,
      a response, with an id under way. */
  predicate Reaches(l: Ledger, upstream: Address, buf: Bytes, from: Address) {
    && |buf| >= HEADER_SIZE && from == upstream
    && ParseHeader(buf).IsResponse() && ParseHeader(buf).id in l.pending
  }

  /** What `validate_response` returns. */
  function Verdict(l: Ledger, upstream: Address, buf: Bytes, from: Address): Result<Pending> {
    if |buf| < HEADER_SIZE then Err(PacketTooShort)
    else if !Reaches(l, upstream, buf, from) then Err(UnexpectedResponse)
    else
      var tx := l.pending[ParseHeader(buf).id];
      var p := Parse(buf);
      if p.Err? then Err(p.error)
      else if !Matches(p.value.question, tx) then Err(UnexpectedResponse)
      else Ok(tx)
  }

  /** The ledger after it: a datagram that reaches the table settles its entry,
      whether the rest of it is in order or not. */
  function OnResponse(l: Ledger, upstream: Address, buf: Bytes, from: Address): Ledger
    requires l.origin.Keys == l.pending.Keys
  {
    if !Reaches(l, upstream, buf, from) then l
    else
      var id := ParseHeader(buf).id;
      var settled := Settle(l, id);
      var v := Verdict(l, upstream, buf, from);
      if v.Err? then settled
      else settled.(accepted := l.accepted + [Accepted(l.origin[id], v.value, buf)])
  }

  // ---------------------------------------------------------------------
  // What every step keeps
  // ---------------------------------------------------------------------

  /** Pending entries are forwards not yet settled, under distinct non-zero ids. */
  ghost predicate Tracked(l: Ledger) {
    && l.origin.Keys == l.pending.Keys
    && |l.pending| <= MAX_PENDING && 0 !in l.pending
    && (forall k {:trigger l.origin[k]} :: k in l.origin ==>
          && l.origin[k] < |l.forwards|
          && l.forwards[l.origin[k]] == Forwarded(k, l.pending[k]))
  }

  /** Every forward is pending, consumed or pruned, and one of these only. */
  ghost predicate Settled(l: Ledger) {
    && (forall i :: i in l.consumed ==> i < |l.forwards| && i !in l.pruned)
    && (forall i :: i in l.pruned ==> i < |l.forwards|)
    && (forall i: nat {:trigger l.forwards[i]} :: i < |l.forwards| ==>
          ((i in l.consumed || i in l.pruned) <==>
           !(l.forwards[i].txid in l.origin && l.origin[l.forwards[i].txid] == i)))
  }

  /** Accepted responses answer different forwards, each consumed, and each
      with its own client, name and type. */
  ghost predicate Answered(l: Ledger) {
    && (forall a :: 0 <= a < |l.accepted| ==>
          && l.accepted[a].forward in l.consumed && l.accepted[a].forward < |l.forwards|
          && l.forwards[l.accepted[a].forward].tx == l.accepted[a].tx
          && Parse(l.accepted[a].response).Ok?
          && Matches(Parse(l.accepted[a].response).value.question, l.accepted[a].tx)
          && ParseHeader(l.accepted[a].response).id == l.forwards[l.accepted[a].forward].txid)
    && (forall a, b :: 0 <= a < b < |l.accepted| ==> l.accepted[a].forward != l.accepted[b].forward)
  }

  ghost predicate Inv(l: Ledger) {
    Tracked(l) && Settled(l) && Answered(l)
  }

  lemma EmptyInv()
    ensures Inv(EMPTY_LEDGER)
  {
  }

  lemma PruneSize(pending: map<U16, Pending>, now: int)
    ensures |Live(pending, now)| <= |pending|
  {
    var live := Live(pending, now);
    assert live.Keys <= pending.Keys;
    assert pending.Keys == live.Keys + (pending.Keys - live.Keys);
    assert |live| == |live.Keys| && |pending| == |pending.Keys|;
  }

  lemma PruneKeepsInv(l: Ledger, now: int)
    requires Inv(l)
    ensures Inv(Prune(l, now))
  {
    var l' := Prune(l, now);
    PruneSize(l.pending, now);
    forall i: nat | i < |l'.forwards|
      ensures (i in l'.consumed || i in l'.pruned) <==>
              !(l'.forwards[i].txid in l'.origin && l'.origin[l'.forwards[i].txid] == i)
    {
      var k := l.forwards[i].txid;
      if k in l.origin && l.origin[k] == i && Expired(l.pending[k], now) {
        assert l.origin[k] in l'.pruned;
      }
      if i in l'.pruned && i !in l.pruned {
        var k' :| k' in l.pending && Expired(l.pending[k'], now) && l.origin[k'] == i;
        assert k' in l.origin;
      }
    }
    forall i | i in l'.pruned ensures i < |l'.forwards| && i !in l'.consumed {
      if i !in l.pruned {
        var k' :| k' in l.pending && Expired(l.pending[k'], now) && l.origin[k'] == i;
        assert k' in l.origin && l.forwards[i].txid == k';
      }
    }
  }

  function Recorded(l: Ledger, tx: Pending, txid: U16): Ledger {
    l.(pending := l.pending[txid := tx], origin := l.origin[txid := |l.forwards|],
       forwards := l.forwards + [Forwarded(txid, tx)])
  }

  lemma RecordKeepsTracked(l: Ledger, tx: Pending, txid: U16)
    requires Tracked(l) && |l.pending| < MAX_PENDING && txid != 0 && txid !in l.pending
    ensures Tracked(Recorded(l, tx, txid))
  {
  }

  lemma RecordKeepsSettled(l: Ledger, tx: Pending, txid: U16)
    requires Tracked(l) && Settled(l) && txid !in l.origin
    ensures Settled(Recorded(l, tx, txid))
  {
    var l' := Recorded(l, tx, txid);
    forall i: nat | i < |l'.forwards|
      ensures (i in l'.consumed || i in l'.pruned) <==>
              !(l'.forwards[i].txid in l'.origin && l'.origin[l'.forwards[i].txid] == i)
    {
      if i < |l.forwards| { assert l'.forwards[i] == l.forwards[i]; }
    }
  }

  /** Recording a query under a free id. */
  lemma RecordKeepsInv(l: Ledger, tx: Pending, txid: U16)
    requires Inv(l) && |l.pending| < MAX_PENDING && txid != 0 && txid !in l.pending
    ensures Inv(Recorded(l, tx, txid))
  {
    RecordKeepsTracked(l, tx, txid);
    RecordKeepsSettled(l, tx, txid);
  }

  lemma ForwardKeepsInv(l: Ledger, tx: Pending, txid: U16, sent: bool)
    requires Inv(l)
    requires |Prune(l, tx.timestamp).pending| < MAX_PENDING ==> txid != 0 && txid !in Prune(l, tx.timestamp).pending
    ensures Inv(OnForward(l, tx, txid, sent))
  {
    PruneKeepsInv(l, tx.timestamp);
    var live := Prune(l, tx.timestamp);
    if |live.pending| < MAX_PENDING {
      RecordKeepsInv(live, tx, txid);
    }
  }

  lemma SettleKeepsInv(l: Ledger, txid: U16)
    requires Inv(l) && txid in l.pending
    ensures Inv(Settle(l, txid))
  {
    var l' := Settle(l, txid);
    assert txid in l.origin && l.forwards[l.origin[txid]].txid == txid;
    assert l'.pending.Keys == l.pending.Keys - {txid};
    assert |l'.pending| == |l'.pending.Keys| && |l.pending| == |l.pending.Keys|;
    forall i: nat | i < |l'.forwards|
      ensures (i in l'.consumed || i in l'.pruned) <==>
              !(l'.forwards[i].txid in l'.origin && l'.origin[l'.forwards[i].txid] == i)
    {
      if i != l.origin[txid] && l.forwards[i].txid == txid { assert l.origin[txid] != i; }
    }
  }

  lemma AcceptKeepsAnswered(l: Ledger, a: Accepted)
    requires Answered(l) && a.forward in l.consumed && a.forward < |l.forwards|
    requires Parse(a.response).Ok? && l.forwards[a.forward] == Forwarded(ParseHeader(a.response).id, a.tx)
    requires Matches(Parse(a.response).value.question, a.tx)
    requires forall b :: 0 <= b < |l.accepted| ==> l.accepted[b].forward != a.forward
    ensures Answered(l.(accepted := l.accepted + [a]))
  {
  }

  /** A response that passes every check settles its entry and is kept. */
  lemma AcceptKeepsInv(l: Ledger, id: U16, response: Bytes)
    requires Inv(l) && id in l.pending && Parse(response).Ok? && ParseHeader(response).id == id
    requires Matches(Parse(response).value.question, l.pending[id])
    ensures var a := Accepted(l.origin[id], l.pending[id], response);
            Inv(Settle(l, id).(accepted := l.accepted + [a]))
  {
    assert id in l.origin && l.forwards[l.origin[id]] == Forwarded(id, l.pending[id]);
    SettleKeepsInv(l, id);
    assert l.origin[id] !in l.consumed;
    AcceptKeepsAnswered(Settle(l, id), Accepted(l.origin[id], l.pending[id], response));
  }

  lemma ResponseKeepsInv(l: Ledger, upstream: Address, buf: Bytes, from: Address)
    requires Inv(l)
    ensures Inv(OnResponse(l, upstream, buf, from))
  {
    if Reaches(l, upstream, buf, from) {
      if Verdict(l, upstream, buf, from).Ok? {
        AcceptKeepsInv(l, ParseHeader(buf).id, buf);
      } else {
        SettleKeepsInv(l, ParseHeader(buf).id);
      }
    }
  }

  lemma ResponseSettles(l: Ledger, upstream: Address, buf: Bytes, from: Address)
    requires l.origin.Keys == l.pending.Keys
    ensures if Reaches(l, upstream, buf, from)
            then OnResponse(l, upstream, buf, from).pending == l.pending - {ParseHeader(buf).id}
            else OnResponse(l, upstream, buf, from) == l
  {
  }

  /** Successful forwards are the pending ones, those a response has consumed
      and those pruned: none is lost and none counted twice. */
  lemma Conservation(l: Ledger)
    requires Inv(l)
    ensures |l.forwards| == |l.pending| + |l.consumed| + |l.pruned|
  {
    ActiveArePending(l, Below(|l.forwards|) - l.consumed - l.pruned);
    ThreeParts(Below(|l.forwards|), l.consumed, l.pruned);
  }

  lemma ThreeParts(all: set<nat>, a: set<nat>, b: set<nat>)
    requires a <= all && b <= all && a !! b
    ensures |all| == |all - a - b| + |a| + |b|
  {
    var rest := all - a - b;
    assert all == rest + a + b;
    assert |rest + a| == |rest| + |a|;
  }

  ghost function Below(n: nat): (s: set<nat>)
    ensures |s| == n && forall i: nat :: i in s <==> i < n
  {
    if n == 0 then {} else Below(n - 1) + {n - 1}
  }

  lemma ActiveArePending(l: Ledger, active: set<nat>)
    requires Inv(l) && active == Below(|l.forwards|) - l.consumed - l.pruned
    ensures |active| == |l.pending|
  {
    assert |l.pending| == |l.pending.Keys| == |l.origin.Keys|;
    forall i | i in active ensures l.forwards[i].txid in l.origin && l.origin[l.forwards[i].txid] == i {}
    forall k | k in l.origin ensures l.origin[k] in active {
      assert l.forwards[l.origin[k]].txid == k;
    }
    SameCount(l.origin, active);
  }

  lemma {:induction false} SameCount(origin: map<U16, nat>, image: set<nat>)
    requires forall k :: k in origin ==> origin[k] in image
    requires forall i :: i in image ==> exists k :: k in origin && origin[k] == i
    requires forall j, k :: j in origin && k in origin && origin[j] == origin[k] ==> j == k
    ensures |origin.Keys| == |image|
  {
    if image == {} {
      assert origin.Keys == {};
    } else {
      var i0 :| i0 in image;
      var k :| k in origin && origin[k] == i0;
      var origin', image' := origin - {k}, image - {i0};
      forall i | i in image' ensures exists j :: j in origin' && origin'[j] == i {
        var j :| j in origin && origin[j] == i;
        assert j in origin';
      }
      SameCount(origin', image');
      assert origin'.Keys == origin.Keys - {k};
    }
  }

  /** An id is always free, whatever 2048 are taken: the draw ends. */
  lemma FreeIdExists(pending: map<U16, Pending>)
    requires |pending| <= MAX_PENDING
    ensures exists id: U16 :: id != 0 && id !in pending
  {
    var taken, ids := pending.Keys, Ids(MAX_PENDING + 1);
    assert |pending| == |taken|;
    assert ids == (ids - taken) + (ids * taken);
    assert taken == (taken - ids) + (ids * taken);
    assert |ids - taken| >= 1;
    var id :| id in ids - taken;
  }

  ghost function Ids(n: nat): (s: set<U16>)
    requires n < 0x1_0000
    ensures |s| == n && forall id: U16 :: id in s <==> 1 <= id <= n
  {
    if n == 0 then {} else Ids(n - 1) + {n}
  }

  /** After a call that passes the socket check no entry is older than 2000 ms. */
  lemma NoOldEntryAfterForward(l: Ledger, tx: Pending, txid: U16, sent: bool)
    requires l.origin.Keys == l.pending.Keys
    ensures forall k :: k in OnForward(l, tx, txid, sent).pending ==>
              Millis(tx.timestamp - OnForward(l, tx, txid, sent).pending[k].timestamp) <= TIMEOUT_MS
  {
  }

  // ---------------------------------------------------------------------
  // Runs
  // ---------------------------------------------------------------------

  datatype Event =
    | Forward(tx: Pending, txid: U16, sent: bool)
    | Respond(buf: Bytes, from: Address)

  /** The id drawn is non-zero and free in the pruned table, if one is drawn. */
  predicate MayHappen(l: Ledger, e: Event) {
    && l.origin.Keys == l.pending.Keys
    && (e.Forward? && |Prune(l, e.tx.timestamp).pending| < MAX_PENDING ==>
          e.txid != 0 && e.txid !in Prune(l, e.tx.timestamp).pending)
  }

  function After(l: Ledger, upstream: Address, e: Event): Ledger
    requires MayHappen(l, e)
  {
    match e
    case Forward(tx, txid, sent) => OnForward(l, tx, txid, sent)
    case Respond(buf, from) => OnResponse(l, upstream, buf, from)
  }

  // What the calls do, in the octets and nanoseconds they are given

  /** The datagram has the id of a pending entry, and comes from upstream as a response. */
  predicate CallsFor(buf: Bytes, from: Address, upstream: Address, id: U16) {
    12 <= |buf| && from == upstream && buf[2] >= 0x80 && (buf[0] as int) * 0x100 + buf[1] == id
  }

  /** And it is in order, with the name and the type of that entry. */
  predicate IsAnswer(buf: Bytes, from: Address, upstream: Address, id: U16, tx: Pending) {
    && CallsFor(buf, from, upstream, id) && Parse(buf).Ok?
    && Parse(buf).value.question.qname == tx.qname && Parse(buf).value.question.qtype == tx.qtype
  }

  /** Exactly the answers to pending entries are accepted; a datagram that calls
      for an entry takes it out of the table, and no other does anything. */
  lemma ResponseIsExact(l: Ledger, upstream: Address, buf: Bytes, from: Address)
    requires l.origin.Keys == l.pending.Keys
    ensures var l' := After(l, upstream, Respond(buf, from));
            && (|l'.accepted| > |l.accepted| <==>
                exists id :: id in l.pending && IsAnswer(buf, from, upstream, id, l.pending[id]))
            && (forall id :: id in l.pending && IsAnswer(buf, from, upstream, id, l.pending[id]) ==>
                  l'.accepted == l.accepted + [Accepted(l.origin[id], l.pending[id], buf)])
            && (forall id :: id in l.pending && CallsFor(buf, from, upstream, id) ==> l'.pending == l.pending - {id})
            && ((forall id :: id in l.pending ==> !CallsFor(buf, from, upstream, id)) ==> l' == l)
  {
    if Reaches(l, upstream, buf, from) {
      var id := ParseHeader(buf).id;
      assert id in l.pending && CallsFor(buf, from, upstream, id);
    }
  }

  lemma VerdictIsExact(l: Ledger, upstream: Address, buf: Bytes, from: Address)
    requires l.origin.Keys == l.pending.Keys
    ensures var v := Verdict(l, upstream, buf, from);
            && (v.Ok? <==> exists id :: id in l.pending && IsAnswer(buf, from, upstream, id, l.pending[id]))
            && (forall id :: id in l.pending && IsAnswer(buf, from, upstream, id, l.pending[id]) ==>
                  v == Ok(l.pending[id]))
    ensures forall id :: id in l.pending && CallsFor(buf, from, upstream, id) ==>
              OnResponse(l, upstream, buf, from).pending == l.pending - {id}
  {
    ResponseIsExact(l, upstream, buf, from);
  }

  /** The entries less than 2001 ms old. */
  function Young(pending: map<U16, Pending>, now: int): map<U16, Pending> {
    map k | k in pending && now - pending[k].timestamp < 2_001_000_000 :: pending[k]
  }

  lemma YoungIsLive(pending: map<U16, Pending>, now: int)
    ensures Young(pending, now) == Live(pending, now)
  {
  }

  lemma ForwardEnters(l: Ledger, tx: Pending, txid: U16, sent: bool)
    requires l.origin.Keys == l.pending.Keys
    ensures var l', young := OnForward(l, tx, txid, sent), Young(l.pending, tx.timestamp);
            if |young| < 2048 && sent
            then l'.pending == young[txid := tx] && l'.forwards == l.forwards + [Forwarded(txid, tx)]
            else l'.pending == young && l'.forwards == l.forwards
  {
    YoungIsLive(l.pending, tx.timestamp);
  }

  /** A forward leaves exactly the entries less than 2001 ms old as they were,
      and is entered exactly when there are fewer than 2048 of them and the
      datagram is sent. */
  lemma ForwardIsExact(l: Ledger, upstream: Address, tx: Pending, txid: U16, sent: bool)
    requires MayHappen(l, Forward(tx, txid, sent))
    ensures var l' := After(l, upstream, Forward(tx, txid, sent));
            && (forall k :: k in l.pending ==>
                  (k in l'.pending && l'.pending[k] == l.pending[k] <==>
                   tx.timestamp - l.pending[k].timestamp < 2_001_000_000))
            && (|l'.forwards| > |l.forwards| <==> |Young(l.pending, tx.timestamp)| < 2048 && sent)
            && (|l'.forwards| > |l.forwards| ==> txid in l'.pending && l'.pending[txid] == tx)
  {
    ForwardEnters(l, tx, txid, sent);
    YoungIsLive(l.pending, tx.timestamp);
  }

  /** The events can happen one after the other, from the empty table to `l`. */
  ghost predicate Reachable(upstream: Address, events: seq<Event>, l: Ledger) {
    if events == [] then l == EMPTY_LEDGER
    else
      var e := events[|events| - 1];
      exists before ::
        Reachable(upstream, events[..|events| - 1], before) && MayHappen(before, e) && l == After(before, upstream, e)
  }

  lemma {:induction false} ReachableInv(upstream: Address, events: seq<Event>, l: Ledger)
    requires Reachable(upstream, events, l)
    ensures Inv(l)
  {
    if events == [] {
      EmptyInv();
    } else {
      var e := events[|events| - 1];
      var before :|
        Reachable(upstream, events[..|events| - 1], before) && MayHappen(before, e) && l == After(before, upstream, e);
      ReachableInv(upstream, events[..|events| - 1], before);
      match e
      case Forward(tx, txid, sent) => ForwardKeepsInv(before, tx, txid, sent);
      case Respond(buf, from) => ResponseKeepsInv(before, upstream, buf, from);
    }
  }

  /** In every run accepted responses answer forwards one to one, each with the
      client, name, type and id of its own forward. */
  lemma AtMostOneAnswer(upstream: Address, events: seq<Event>, l: Ledger)
    requires Reachable(upstream, events, l)
    ensures forall a, b :: 0 <= a < |l.accepted| && 0 <= b < |l.accepted| && a != b ==>
              l.accepted[a].forward != l.accepted[b].forward
    ensures forall a :: 0 <= a < |l.accepted| ==>
              && l.accepted[a].forward < |l.forwards|
              && l.accepted[a].tx == l.forwards[l.accepted[a].forward].tx
              && Parse(l.accepted[a].response).Ok?
              && Matches(Parse(l.accepted[a].response).value.question, l.accepted[a].tx)
    ensures |l.accepted| <= |l.consumed| && |l.forwards| == |l.pending| + |l.consumed| + |l.pruned|
    ensures |l.pending| <= MAX_PENDING && 0 !in l.pending
  {
    ReachableInv(upstream, events, l);
    Conservation(l);
    AcceptedFit(l.accepted, l.consumed);
  }

  lemma {:induction false} AcceptedFit(accepted: seq<Accepted>, consumed: set<nat>)
    requires forall a :: 0 <= a < |accepted| ==> accepted[a].forward in consumed
    requires forall a, b :: 0 <= a < b < |accepted| ==> accepted[a].forward != accepted[b].forward
    ensures |accepted| <= |consumed|
  {
    if accepted != [] {
      var last := accepted[|accepted| - 1].forward;
      AcceptedFit(accepted[..|accepted| - 1], consumed - {last});
    }
  }

  lemma AddThenRemove(pending: map<U16, Pending>, txid: U16, tx: Pending)
    requires txid !in pending
    ensures pending[txid := tx] - {txid} == pending
  {
  }

  /** Where the pruned table is full, nothing is entered. */
  lemma FullTable(l: Ledger, tx: Pending, sent: bool)
    requires Inv(l) && |Prune(l, tx.timestamp).pending| >= MAX_PENDING
    ensures OnForward(l, tx, 0, sent) == Prune(l, tx.timestamp) && Inv(Prune(l, tx.timestamp))
  {
    PruneKeepsInv(l, tx.timestamp);
  }

  // ---------------------------------------------------------------------
  // The forwarder
  // ---------------------------------------------------------------------

  class UpstreamForwarder {
    const upstream: Address
    var socketOpen: bool
    var pending: map<U16, Pending>
    /** What has become of each query so far. */
    ghost var ledger: Ledger

    ghost predicate Valid()
      reads this
    {
      Inv(ledger) && ledger.pending == pending
    }

    constructor (upstream: Address)
      ensures Valid() && ledger == EMPTY_LEDGER && socketOpen && this.upstream == upstream
    {
      this.upstream := upstream;
      socketOpen, pending, ledger := true, map[], EMPTY_LEDGER;
    }

    /** Any free non-zero id: the random draws are not modelled. */
    method GenerateUniqueTxid() returns (txid: U16)
      requires |pending| <= MAX_PENDING
      ensures txid != 0 && txid !in pending
    {
      FreeIdExists(pending);
      txid :| txid != 0 && txid !in pending;
    }

    /** The loop that erases expired entries. */
    method PrunePending(now: int)
      modifies this`pending
      ensures pending == Live(old(pending), now) == Young(old(pending), now)
    {
      YoungIsLive(pending, now);
      var left := pending.Keys;
      while left != {}
        invariant left <= old(pending).Keys
        invariant pending ==
                  map k | k in old(pending) && (k in left || !Expired(old(pending)[k], now)) :: old(pending)[k]
        decreases left
      {
        var k :| k in left;
        if Expired(pending[k], now) {
          pending := pending - {k};
        }
        left := left - {k};
      }
    }

    /** `sent` is whether the datagram could be sent; the datagram is the query
        under the id drawn. */
    method ForwardQuery(packet: Packet, client: Address, now: int, sent: bool)
      returns (r: Result<U16>, datagram: Bytes)
      requires Valid() && |packet.raw| >= 2
      modifies this`pending, this`ledger
      ensures Valid()
      ensures !socketOpen ==> r == Err(UpstreamError) && ledger == old(ledger)
      ensures socketOpen ==>
                ledger == OnForward(old(ledger), TxFor(packet, client, now), if r.Ok? then r.value else 0, sent)
      ensures socketOpen && |Young(old(pending), now)| >= 2048 ==> r == Err(BufferOverflow)
      ensures socketOpen && |Young(old(pending), now)| < 2048 && !sent ==> r == Err(UpstreamError)
      ensures socketOpen && |Young(old(pending), now)| < 2048 && sent ==>
                && r.Ok? && r.value != 0 && r.value !in Young(old(pending), now)
                && datagram == Responses.WithId(packet.raw, r.value)
    {
      if !socketOpen {
        return Err(UpstreamError), [];
      }
      YoungIsLive(pending, now);
      r, datagram := PruneAndSend(packet, client, now, sent);
    }

    /** `forward_query` past its socket check. */
    method PruneAndSend(packet: Packet, client: Address, now: int, sent: bool)
      returns (r: Result<U16>, datagram: Bytes)
      requires Valid() && |packet.raw| >= 2
      modifies this`pending, this`ledger
      ensures Valid()
      ensures ledger == OnForward(old(ledger), TxFor(packet, client, now), if r.Ok? then r.value else 0, sent)
      ensures |Live(old(pending), now)| >= MAX_PENDING ==> r == Err(BufferOverflow)
      ensures |Live(old(pending), now)| < MAX_PENDING ==>
                if sent then r.Ok? && r.value != 0 && r.value !in Live(old(pending), now)
                else r == Err(UpstreamError)
      ensures r.Ok? ==> datagram == Responses.WithId(packet.raw, r.value)
    {
      ghost var before := ledger;
      PrunePending(now);
      if |pending| >= MAX_PENDING {
        FullTable(before, TxFor(packet, client, now), sent);
        ledger := Prune(before, now);
        return Err(BufferOverflow), [];
      }
      r, datagram := SendUnderFreshId(packet, client, now, sent, before);
    }

    /** The rest of `forward_query`, once the table is pruned and has room. */
    method SendUnderFreshId(packet: Packet, client: Address, now: int, sent: bool, ghost before: Ledger)
      returns (r: Result<U16>, datagram: Bytes)
      requires Inv(before) && pending == Prune(before, now).pending && |pending| < MAX_PENDING
      requires |packet.raw| >= 2
      modifies this`pending, this`ledger
      ensures Valid()
      ensures ledger == OnForward(before, TxFor(packet, client, now), if r.Ok? then r.value else 0, sent)
      ensures if sent then r.Ok? && r.value != 0 && r.value !in old(pending) else r == Err(UpstreamError)
      ensures r.Ok? ==> datagram == Responses.WithId(packet.raw, r.value)
    {
      var txid := GenerateUniqueTxid();
      var tx := Pending(packet.header.id, client, packet.question.qname, packet.question.qtype, now);
      ForwardKeepsInv(before, tx, txid, sent);
      ledger := OnForward(before, tx, txid, sent);
      pending := pending[txid := tx];
      datagram := Stamp(packet.raw, txid);
      if !sent {
        AddThenRemove(old(pending), txid, tx);
        pending := pending - {txid};
        return Err(UpstreamError), datagram;
      }
      return Ok(txid), datagram;
    }

    /** The copy of the query, with the id written over its first two octets. */
    static method Stamp(raw: Bytes, txid: U16) returns (datagram: Bytes)
      requires |raw| >= 2
      ensures datagram == Responses.WithId(raw, txid)
    {
      datagram := raw;
      datagram := datagram[0 := High(txid)];
      datagram := datagram[1 := Low(txid)];
    }

    method ValidateResponse(buffer: Bytes, from: Address) returns (r: Result<Pending>)
      requires Valid()
      modifies this`pending, this`ledger
      ensures Valid()
      ensures r == Verdict(old(ledger), upstream, buffer, from)
      ensures ledger == OnResponse(old(ledger), upstream, buffer, from)
      ensures r.Ok? <==> exists id :: id in old(pending) && IsAnswer(buffer, from, upstream, id, old(pending)[id])
      ensures forall id :: id in old(pending) && IsAnswer(buffer, from, upstream, id, old(pending)[id]) ==>
                r == Ok(old(pending)[id])
      ensures forall id :: id in old(pending) && CallsFor(buffer, from, upstream, id) ==> pending == old(pending) - {id}
    {
      VerdictIsExact(ledger, upstream, buffer, from);
      r := CheckResponse(buffer, from);
    }

    /** The checks in their order. */
    method CheckResponse(buffer: Bytes, from: Address) returns (r: Result<Pending>)
      requires Valid()
      modifies this`pending, this`ledger
      ensures Valid()
      ensures r == Verdict(old(ledger), upstream, buffer, from)
      ensures ledger == OnResponse(old(ledger), upstream, buffer, from)
    {
      ResponseKeepsInv(ledger, upstream, buffer, from);
      ghost var after := OnResponse(ledger, upstream, buffer, from);
      ResponseSettles(ledger, upstream, buffer, from);
      if |buffer| < HEADER_SIZE {
        return Err(PacketTooShort);
      }
      if from != upstream {
        return Err(UnexpectedResponse);
      }
      var h := ParseHeader(buffer);
      if !h.IsResponse() {
        return Err(UnexpectedResponse);
      }
      if h.id !in pending {
        return Err(UnexpectedResponse);
      }
      var matched := pending[h.id];
      pending := pending - {h.id};
      ledger := after;
      var parsed := ParsePacket(buffer);
      if parsed.Err? {
        return Err(parsed.error);
      }
      var q := parsed.value.question;
      if q.qname != matched.qname || q.qtype != matched.qtype {
        return Err(UnexpectedResponse);
      }
      return Ok(matched);
    }
  }
}
