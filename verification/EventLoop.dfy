/** The loop body of dataplane/src/main.cpp over the real components, proved to
    take the steps of the state machine. */
module EventLoop {
  import opened Text
  import opened Wire
  import opened Parser
  import opened Policies
  import opened Forwarder
  import opened Machine
  import Cache
  import Responses
  import Ipc
  import PolicyMessage
  import PolicyArrival

  /** What the program meets between two turns of its loop. */
  datatype Event =
    | FromClient(buf: Bytes, client: Address, sent: bool)
    | FromUpstream(buf: Bytes, from: Address)
    | Message(text: string)
    | Elapsed(nanos: nat)

  /** The steps of the machine that an event leads to in a state: a client's
      datagram one if it is dropped and three if it is answered, an upstream
      datagram one if it is refused and three if it is passed on, a policy
      message one if its candidate is refused and three if it is published. */
  ghost predicate IsTurn(e: Event, s: State, upstream: Address, parts: seq<Step>) {
    match e
    case FromClient(buf, client, sent) =>
      if buf == [] then parts == []
      else if Parse(buf).Err? then parts == [Query(buf, client)]
      else
        && |parts| == 3 && parts[0] == Query(buf, client) && parts[1] == LoadGeneration
        && parts[2].Act? && parts[2].sent == sent
    case FromUpstream(buf, from) =>
      if buf == [] then parts == []
      else if Verdict(s.ledger, upstream, buf, from).Err? then parts == [Response(buf, from)]
      else parts == [Response(buf, from), LoadTag, Keep]
    case Message(text) => IsCommand(Ipc.Received(text), s, parts)
    case Elapsed(nanos) => parts == [Tick(nanos)]
  }

  ghost predicate IsCommand(request: string, s: State, parts: seq<Step>) {
    var candidate := Ipc.CandidateOf(request);
    if Ipc.ExtractString(request, "command") != "APPLY_POLICY" then parts == []
    else if candidate.generation > s.generation && candidate.versionHash != ""
    then parts == [Check(candidate), StoreSnapshot, StoreGeneration]
    else parts == [Check(candidate)]
  }

  /** A run, held as its states and steps. */
  datatype Trace = Trace(states: seq<State>, steps: seq<Step>)

  ghost predicate IsTrace(t: Trace, upstream: Address, s: State) {
    IsRun(upstream, t.states, t.steps) && t.states[|t.steps|] == s
  }

  /** One trace continues another by some steps. */
  ghost predicate Continues(t: Trace, parts: seq<Step>, t': Trace) {
    t'.steps == t.steps + parts && t.states <= t'.states
  }

  /** A trace that takes the steps of the events, in their order, and no others. */
  ghost predicate Meets(events: seq<Event>, upstream: Address, t: Trace) {
    if events == [] then t == Trace([INIT], [])
    else
      exists before, parts ::
        Turned(Latest(events), upstream, before, parts, t) && Meets(Earlier(events), upstream, before)
  }

  function Latest(events: seq<Event>): Event
    requires events != []
  {
    events[|events| - 1]
  }

  function Earlier(events: seq<Event>): (r: seq<Event>)
    requires events != []
    ensures |r| == |events| - 1
  {
    events[..|events| - 1]
  }

  ghost predicate Turned(e: Event, upstream: Address, t: Trace, parts: seq<Step>, t': Trace) {
    |t.states| == |t.steps| + 1 && IsTurn(e, t.states[|t.steps|], upstream, parts) && Continues(t, parts, t')
  }

  lemma MeetsMore(events: seq<Event>, i: nat, upstream: Address, t: Trace, parts: seq<Step>, t': Trace)
    requires i < |events| && Meets(events[..i], upstream, t) && Turned(events[i], upstream, t, parts, t')
    ensures Meets(events[..i + 1], upstream, t')
  {
    assert Earlier(events[..i + 1]) == events[..i] && Latest(events[..i + 1]) == events[i];
  }

  lemma TraceGoesOn(t: Trace, upstream: Address, s: State, step: Step, s': State) returns (t': Trace)
    requires IsTrace(t, upstream, s) && IsStep(s, upstream, step, s')
    ensures IsTrace(t', upstream, s') && Continues(t, [step], t')
    ensures Outputs(t'.states) == Outputs(t.states) + Sent(s'.output)
  {
    RunGoesOn(upstream, t.states, t.steps, step, s');
    t' := Trace(t.states + [s'], t.steps + [step]);
  }

  function Sent(output: Option<Output>): seq<Output> {
    if output.Some? then [output.value] else []
  }

  /** The cache once a response has been judged, and what is then sent. */
  function ItemsAfter(items: Cache.List<Cache.Item>, v: Result<Pending>, buf: Bytes, generation: nat, now: int)
    : Cache.List<Cache.Item>
  {
    if v.Err? then items else Cache.Inserted(items, CAPACITY, ResolvedItem(v.value, buf, generation, now))
  }

  function OutputAfter(v: Result<Pending>, buf: Bytes): Option<Output> {
    if v.Err? then None else Some(Resolved(v.value.client, Responses.WithId(buf, v.value.clientId)))
  }

  class Dataplane {
    const manager: SnapshotManager
    const cache: Cache.DnsCache
    const forwarder: UpstreamForwarder

    ghost predicate Valid()
      reads this, manager, manager.activeSnapshot, manager.activeSnapshot.suffixTrie,
            manager.activeSnapshot.suffixTrie.repr, cache, forwarder
    {
      && manager.activeSnapshot.Valid()
      && cache.Valid() && cache.maxEntries == CAPACITY
      && forwarder.Valid() && forwarder.socketOpen
    }

    /** The components are in the machine's state `s`, between two datagrams. */
    ghost predicate InState(s: State)
      reads this, manager, manager.activeSnapshot, manager.activeSnapshot.suffixTrie,
            manager.activeSnapshot.suffixTrie.repr, cache, forwarder
    {
      && Valid()
      && s.loop.Waiting? && s.writer.Idle?
      && s.active == manager.activeSnapshot.View() && s.generation == manager.globalGeneration
      && s.items == cache.Items() && s.ledger == forwarder.ledger
    }

    constructor (upstream: Address)
      ensures InState(INIT) && forwarder.upstream == upstream
    {
      manager := new SnapshotManager();
      cache := new Cache.DnsCache(CAPACITY);
      forwarder := new UpstreamForwarder(upstream);
    }

    /** The work on an accepted query after the two loads. */
    method Answer(query: Packet, client: Address, snapshot: PolicySnapshot, generation: nat, now: int, sent: bool)
      returns (out: Output, ghost txid: U16)
      requires Valid() && snapshot.Valid() && Parse(query.raw) == Ok(query)
      modifies cache, forwarder`pending, forwarder`ledger
      ensures cache.Valid() && forwarder.Valid()
      ensures |Live(old(forwarder.pending), now)| < MAX_PENDING ==>
                txid != 0 && txid !in Live(old(forwarder.pending), now)
      ensures cache.Items() == QueryItems(old(cache.Items()), query, snapshot.View(), generation, now)
      ensures forwarder.ledger ==
                QueryLedger(old(cache.Items()), old(forwarder.ledger), query, client, snapshot.View(), generation, now,
                            txid, sent)
      ensures out ==
                QueryOutput(old(cache.Items()), old(forwarder.ledger), query, client, snapshot.View(), generation, now,
                            txid, sent)
    {
      FreeLiveId(forwarder.pending, forwarder.ledger, now);
      txid :| txid != 0 && txid !in Live(forwarder.pending, now);
      var decision := snapshot.Decide(query.question.qname);
      if decision.action == BlockNxDomain {
        var resp := Responses.BuildErrorResponse(query, NXDOMAIN);
        return Blocked(client, resp), txid;
      }
      if decision.action == BlockRefused {
        var resp := Responses.BuildErrorResponse(query, REFUSED);
        return Refused(client, resp), txid;
      }
      if query.question.qname == SINKHOLE_NAME {
        var resp := Responses.BuildSinkholeResponse(query, LOOPBACK, SINKHOLE_TTL);
        return Sinkholed(client, resp), txid;
      }
      EvaluateMeaning(snapshot.View(), query.question.qname);
      out, txid := AnswerAllowed(query, client, generation, now, sent, txid);
    }

    /** An allowed query: from the cache, or on to the upstream server. */
    method AnswerAllowed(query: Packet, client: Address, generation: nat, now: int, sent: bool, ghost freeId: U16)
      returns (out: Output, ghost txid: U16)
      requires cache.Valid() && forwarder.Valid() && forwarder.socketOpen && Parse(query.raw) == Ok(query)
      requires freeId != 0 && freeId !in Live(forwarder.pending, now)
      modifies cache, forwarder`pending, forwarder`ledger
      ensures cache.Valid() && forwarder.Valid()
      ensures |Live(old(forwarder.pending), now)| < MAX_PENDING ==>
                txid != 0 && txid !in Live(old(forwarder.pending), now)
      ensures cache.Items() == Cache.Looked(old(cache.Items()), QuestionKey(query), now, generation)
      ensures var hit := Cache.Hit(old(cache.Items()), QuestionKey(query), now, generation);
              if hit.Some?
              then out == Hit(client, hit.value, Responses.WithId(hit.value.response, query.header.id))
                   && forwarder.ledger == old(forwarder.ledger)
              else forwarder.ledger == OnForward(old(forwarder.ledger), TxFor(query, client, now), txid, sent)
                   && out == if CanForward(old(forwarder.ledger), now, sent)
                             then SentOn(txid, Responses.WithId(query.raw, txid))
                             else Failed(client, Responses.ErrorResponse(query, SERVFAIL))
    {
      txid := freeId;
      var q := query.question;
      var cached := cache.Find(q.qname, q.qtype, q.qclass, generation, now);
      if cached.Some? {
        var resp := Restamp(cached.value.response, query.header.id);
        return Hit(client, Cache.ItemOf(QuestionKey(query), cached.value), resp), txid;
      }
      out, txid := SendOn(query, client, now, sent, txid);
    }

    /** A query that is not in the cache: on to the upstream server, or SERVFAIL. */
    method SendOn(query: Packet, client: Address, now: int, sent: bool, ghost freeId: U16)
      returns (out: Output, ghost txid: U16)
      requires forwarder.Valid() && forwarder.socketOpen && Parse(query.raw) == Ok(query)
      requires freeId != 0 && freeId !in Live(forwarder.pending, now)
      modifies forwarder`pending, forwarder`ledger
      ensures forwarder.Valid()
      ensures |Live(old(forwarder.pending), now)| < MAX_PENDING ==>
                txid != 0 && txid !in Live(old(forwarder.pending), now)
      ensures forwarder.ledger == OnForward(old(forwarder.ledger), TxFor(query, client, now), txid, sent)
      ensures out == if CanForward(old(forwarder.ledger), now, sent)
                     then SentOn(txid, Responses.WithId(query.raw, txid))
                     else Failed(client, Responses.ErrorResponse(query, SERVFAIL))
    {
      txid := freeId;
      YoungIsLive(forwarder.pending, now);
      var r, datagram := forwarder.ForwardQuery(query, client, now, sent);
      if r.Err? {
        var resp := Responses.BuildErrorResponse(query, SERVFAIL);
        return Failed(client, resp), txid;
      }
      txid := r.value;
      return SentOn(r.value, datagram), txid;
    }

    /** A response under another id. */
    static method Restamp(response: Bytes, id: U16) returns (resp: Bytes)
      ensures resp == Responses.WithId(response, id)
    {
      var buffer := new Byte[|response|](i requires 0 <= i < |response| => response[i]);
      assert buffer[..] == response;
      var ok := Responses.TranslateTxid(buffer, id);
      return buffer[..];
    }

    /** The two loads and the answer; the policy stays as it was. */
    method LoadAndAnswer(query: Packet, client: Address, now: int, sent: bool) returns (out: Output, ghost txid: U16)
      requires Valid() && Parse(query.raw) == Ok(query)
      modifies cache, forwarder`pending, forwarder`ledger
      ensures Valid() && manager.activeSnapshot.View() == old(manager.activeSnapshot.View())
      ensures |Live(old(forwarder.pending), now)| < MAX_PENDING ==>
                txid != 0 && txid !in Live(old(forwarder.pending), now)
      ensures var policy, generation := old(manager.activeSnapshot.View()), manager.globalGeneration;
              && cache.Items() == QueryItems(old(cache.Items()), query, policy, generation, now)
              && forwarder.ledger ==
                   QueryLedger(old(cache.Items()), old(forwarder.ledger), query, client, policy, generation, now,
                               txid, sent)
              && out ==
                   QueryOutput(old(cache.Items()), old(forwarder.ledger), query, client, policy, generation, now,
                               txid, sent)
    {
      var snapshot := manager.activeSnapshot;
      var currentGen := manager.globalGeneration;
      out, txid := Answer(query, client, snapshot, currentGen, now, sent);
    }

    /** A datagram on the client socket: load, load, answer. */
    method OnClientDatagram(buf: Bytes, client: Address, sent: bool, ghost s: State, now: int)
      returns (out: Option<Output>, ghost s': State)
      requires InState(s) && s.now == now && 0 < |buf| <= MAX_PAYLOAD
      modifies cache, forwarder`pending, forwarder`ledger
      ensures InState(s') && out == s'.output
      ensures AfterQuery(s, forwarder.upstream, buf, client, sent, s')
    {
      ghost var up := forwarder.upstream;
      var parsed := ParsePacket(buf);
      ghost var s1 := Next(s, up, Query(buf, client));
      if parsed.Err? {
        return None, s1;
      }
      ghost var s2 := Next(s1, up, LoadGeneration);
      ghost var txid;
      var answer;
      answer, txid := LoadAndAnswer(parsed.value, client, now, sent);
      out := Some(answer);
      s' := Next(s2, up, Act(txid, sent));
      assert IsStep(s, up, Query(buf, client), s1) && IsStep(s1, up, LoadGeneration, s2)
             && IsStep(s2, up, Act(txid, sent), s');
    }

    /** A datagram on the upstream socket: validate, load, keep, send on. */
    method OnUpstreamDatagram(buf: Bytes, from: Address, ghost s: State, now: int)
      returns (out: Option<Output>, ghost s': State)
      requires InState(s) && s.now == now && 0 < |buf| <= MAX_PAYLOAD
      modifies cache, forwarder`pending, forwarder`ledger
      ensures InState(s') && out == s'.output
      ensures AfterResponse(s, forwarder.upstream, buf, from, s')
    {
      s' := ResponseSteps(s, forwarder.upstream, buf, from);
      out := Relay(buf, from, now);
    }

    /** Passing on changes the cache and the table; the policy stays as it was. */
    method Relay(buf: Bytes, from: Address, now: int) returns (out: Option<Output>)
      requires Valid()
      modifies cache, forwarder`pending, forwarder`ledger
      ensures Valid() && manager.activeSnapshot.View() == old(manager.activeSnapshot.View())
      ensures forwarder.ledger == OnResponse(old(forwarder.ledger), forwarder.upstream, buf, from)
      ensures var v := Verdict(old(forwarder.ledger), forwarder.upstream, buf, from);
              && cache.Items() == ItemsAfter(old(cache.Items()), v, buf, manager.globalGeneration, now)
              && out == OutputAfter(v, buf)
    {
      ghost var snapshot := manager.activeSnapshot;
      out := PassOn(buf, from, now);
      assert snapshot == manager.activeSnapshot && snapshot.View() == old(manager.activeSnapshot.View());
    }

    method PassOn(buf: Bytes, from: Address, now: int) returns (out: Option<Output>)
      requires cache.Valid() && cache.maxEntries == CAPACITY && forwarder.Valid()
      modifies cache, forwarder`pending, forwarder`ledger
      ensures cache.Valid() && forwarder.Valid()
      ensures forwarder.ledger == OnResponse(old(forwarder.ledger), forwarder.upstream, buf, from)
      ensures var v := Verdict(old(forwarder.ledger), forwarder.upstream, buf, from);
              && cache.Items() == ItemsAfter(old(cache.Items()), v, buf, manager.globalGeneration, now)
              && out == OutputAfter(v, buf)
    {
      var verdict := forwarder.ValidateResponse(buf, from);
      if verdict.Err? {
        return None;
      }
      var currentGen := manager.globalGeneration;
      var answer := KeepAndSend(verdict.value, buf, currentGen, now);
      return Some(answer);
    }

    /** A copy to the cache, and the response itself, under the client's id, to the client. */
    method KeepAndSend(tx: Pending, buf: Bytes, currentGen: nat, now: int) returns (out: Output)
      requires cache.Valid() && cache.maxEntries == CAPACITY
      modifies cache
      ensures cache.Valid()
      ensures cache.Items() == Cache.Inserted(old(cache.Items()), CAPACITY, ResolvedItem(tx, buf, currentGen, now))
      ensures out == Resolved(tx.client, Responses.WithId(buf, tx.clientId))
    {
      cache.Insert(tx.qname, tx.qtype, 1, buf, CACHE_TTL, currentGen, now);
      var resp := Restamp(buf, tx.clientId);
      return Resolved(tx.client, resp);
    }

    /** A policy message for the writer: check, store, store. */
    method Publish(request: string, ghost s: State) returns (ok: bool, error: string, ghost s': State)
      requires InState(s) && Ipc.ExtractString(request, "command") == "APPLY_POLICY"
      modifies manager
      ensures InState(s') && (ok <==> Acceptable(Ipc.CandidateOf(request), s.generation))
      ensures var s1 := Next(s, forwarder.upstream, Check(Ipc.CandidateOf(request)));
              if ok then s' == Next(Next(s1, forwarder.upstream, StoreSnapshot), forwarder.upstream, StoreGeneration)
              else s' == s1
    {
      ok, error := Ipc.ApplyPolicy(manager, request);
      s' := Next(s, forwarder.upstream, Check(Ipc.CandidateOf(request)));
      if ok {
        s' := Next(Next(s', forwarder.upstream, StoreSnapshot), forwarder.upstream, StoreGeneration);
      }
    }

    /** The loop: it goes through a run of the machine that takes the steps of
        what it meets, in order, and sends what that run sends. */
    method Serve(events: seq<Event>) returns (outputs: seq<Output>, ghost t: Trace)
      requires InState(INIT)
      requires forall i :: 0 <= i < |events| ==>
                 (events[i].FromClient? || events[i].FromUpstream? ==> |events[i].buf| <= MAX_PAYLOAD)
      modifies manager, cache, forwarder`pending, forwarder`ledger
      ensures IsRun(forwarder.upstream, t.states, t.steps) && InState(t.states[|t.steps|])
      ensures Meets(events, forwarder.upstream, t) && outputs == Outputs(t.states)
    {
      outputs := [];
      ghost var up, s := forwarder.upstream, INIT;
      t := Trace([INIT], []);
      assert Outputs([INIT][..0]) == [];
      var now := 0;
      for i := 0 to |events|
        invariant InState(s) && IsTrace(t, up, s) && Meets(events[..i], up, t)
        invariant s.now == now && outputs == Outputs(t.states)
      {
        ghost var before := t;
        ghost var parts;
        var sent;
        sent, now, s, t, parts := Turn(events[i], now, s, t);
        outputs := outputs + sent;
        MeetsMore(events, i, up, before, parts, t);
      }
      assert events[..|events|] == events;
    }

    /** One event. */
    method Turn(e: Event, now: int, ghost s: State, ghost t: Trace)
      returns (sent: seq<Output>, now': int, ghost s': State, ghost t': Trace, ghost parts: seq<Step>)
      requires InState(s) && IsTrace(t, forwarder.upstream, s) && s.now == now
      requires e.FromClient? || e.FromUpstream? ==> |e.buf| <= MAX_PAYLOAD
      modifies manager, cache, forwarder`pending, forwarder`ledger
      ensures InState(s') && IsTrace(t', forwarder.upstream, s') && s'.now == now'
      ensures Turned(e, forwarder.upstream, t, parts, t') && Outputs(t'.states) == Outputs(t.states) + sent
    {
      sent, now', s', t', parts := [], now, s, t, [];
      match e
      case FromClient(buf, client, sendable) =>
        if |buf| > 0 {
          var out;
          out, s', t', parts := TurnForClient(buf, client, sendable, s, t, now);
          sent := Sent(out);
        }
      case FromUpstream(buf, from) =>
        if |buf| > 0 {
          var out;
          out, s', t', parts := TurnForUpstream(buf, from, s, t, now);
          sent := Sent(out);
        }
      case Message(text) =>
        s', t', parts := HandleCommand(Ipc.Received(text), s, t);
      case Elapsed(nanos) =>
        s' := Next(s, forwarder.upstream, Tick(nanos));
        t' := TraceGoesOn(t, forwarder.upstream, s, Tick(nanos), s');
        parts := [Tick(nanos)];
        now' := now + nanos;
    }

    method TurnForClient(buf: Bytes, client: Address, sent: bool, ghost s: State, ghost t: Trace, now: int)
      returns (out: Option<Output>, ghost s': State, ghost t': Trace, ghost parts: seq<Step>)
      requires InState(s) && IsTrace(t, forwarder.upstream, s) && s.now == now && 0 < |buf| <= MAX_PAYLOAD
      modifies cache, forwarder`pending, forwarder`ledger
      ensures InState(s') && IsTrace(t', forwarder.upstream, s') && s'.now == now
      ensures IsTurn(FromClient(buf, client, sent), s, forwarder.upstream, parts) && Continues(t, parts, t')
      ensures Outputs(t'.states) == Outputs(t.states) + Sent(out)
    {
      out, s' := OnClientDatagram(buf, client, sent, s, now);
      t', parts := QueryTrace(t, forwarder.upstream, s, buf, client, sent, s');
    }

    method TurnForUpstream(buf: Bytes, from: Address, ghost s: State, ghost t: Trace, now: int)
      returns (out: Option<Output>, ghost s': State, ghost t': Trace, ghost parts: seq<Step>)
      requires InState(s) && IsTrace(t, forwarder.upstream, s) && s.now == now && 0 < |buf| <= MAX_PAYLOAD
      modifies cache, forwarder`pending, forwarder`ledger
      ensures InState(s') && IsTrace(t', forwarder.upstream, s') && s'.now == now
      ensures IsTurn(FromUpstream(buf, from), s, forwarder.upstream, parts) && Continues(t, parts, t')
      ensures Outputs(t'.states) == Outputs(t.states) + Sent(out)
    {
      out, s' := OnUpstreamDatagram(buf, from, s, now);
      t', parts := ResponseTrace(t, forwarder.upstream, s, buf, from, s');
    }

    /** A message read from the policy socket; only APPLY_POLICY has an effect,
        and then that of the candidate the message stands for. */
    method HandleCommand(request: string, ghost s: State, ghost t: Trace)
      returns (ghost s': State, ghost t': Trace, ghost parts: seq<Step>)
      requires InState(s) && IsTrace(t, forwarder.upstream, s)
      modifies manager
      ensures InState(s') && IsTrace(t', forwarder.upstream, s') && s'.now == s.now
      ensures IsCommand(request, s, parts) && Continues(t, parts, t')
      ensures Outputs(t'.states) == Outputs(t.states)
    {
      s', t', parts := s, t, [];
      var command := Ipc.ExtractString(request, "command");
      if command == "APPLY_POLICY" {
        var ok, error;
        ok, error, s' := Publish(request, s);
        t', parts := PublicationSteps(t, forwarder.upstream, s, Ipc.CandidateOf(request), s');
      }
    }
  }

  /** The machine's steps for a client's datagram: one if it is dropped, three
      if it is answered. */
  ghost predicate AfterQuery(s: State, upstream: Address, buf: Bytes, client: Address, sent: bool, s': State) {
    if Parse(buf).Err? then IsStep(s, upstream, Query(buf, client), s')
    else exists s1, s2, txid ::
           && IsStep(s, upstream, Query(buf, client), s1)
           && IsStep(s1, upstream, LoadGeneration, s2) && IsStep(s2, upstream, Act(txid, sent), s')
  }

  lemma QueryTrace(t: Trace, upstream: Address, s: State, buf: Bytes, client: Address, sent: bool, s': State)
    returns (t': Trace, parts: seq<Step>)
    requires IsTrace(t, upstream, s) && AfterQuery(s, upstream, buf, client, sent, s') && buf != []
    ensures IsTrace(t', upstream, s') && Outputs(t'.states) == Outputs(t.states) + Sent(s'.output) && s'.now == s.now
    ensures IsTurn(FromClient(buf, client, sent), s, upstream, parts) && Continues(t, parts, t')
  {
    if Parse(buf).Err? {
      t' := TraceGoesOn(t, upstream, s, Query(buf, client), s');
      parts := [Query(buf, client)];
    } else {
      var s1, s2, txid :| IsStep(s, upstream, Query(buf, client), s1) && IsStep(s1, upstream, LoadGeneration, s2)
                          && IsStep(s2, upstream, Act(txid, sent), s');
      t' := ThreeSteps(t, upstream, s, Query(buf, client), s1, LoadGeneration, s2, Act(txid, sent), s');
      parts := [Query(buf, client), LoadGeneration, Act(txid, sent)];
    }
  }

  lemma ResponseTrace(t: Trace, upstream: Address, s: State, buf: Bytes, from: Address, s': State)
    returns (t': Trace, parts: seq<Step>)
    requires IsTrace(t, upstream, s) && AfterResponse(s, upstream, buf, from, s') && buf != []
    ensures IsTrace(t', upstream, s') && Outputs(t'.states) == Outputs(t.states) + Sent(s'.output) && s'.now == s.now
    ensures IsTurn(FromUpstream(buf, from), s, upstream, parts) && Continues(t, parts, t')
  {
    if Verdict(s.ledger, upstream, buf, from).Err? {
      t' := TraceGoesOn(t, upstream, s, Response(buf, from), s');
      parts := [Response(buf, from)];
    } else {
      var s1, s2 :| IsStep(s, upstream, Response(buf, from), s1) && IsStep(s1, upstream, LoadTag, s2)
                    && IsStep(s2, upstream, Keep, s');
      t' := ThreeSteps(t, upstream, s, Response(buf, from), s1, LoadTag, s2, Keep, s');
      parts := [Response(buf, from), LoadTag, Keep];
    }
  }

  /** Three steps of which the last only may send. */
  lemma ThreeSteps(t: Trace, upstream: Address, s: State, a: Step, s1: State, b: Step, s2: State, c: Step, s3: State)
    returns (t': Trace)
    requires IsTrace(t, upstream, s)
    requires IsStep(s, upstream, a, s1) && IsStep(s1, upstream, b, s2) && IsStep(s2, upstream, c, s3)
    requires s1.output == None && s2.output == None
    ensures IsTrace(t', upstream, s3) && Continues(t, [a, b, c], t')
    ensures Outputs(t'.states) == Outputs(t.states) + Sent(s3.output)
  {
    var t1 := TraceGoesOn(t, upstream, s, a, s1);
    var t2 := TraceGoesOn(t1, upstream, s1, b, s2);
    t' := TraceGoesOn(t2, upstream, s2, c, s3);
    assert t'.steps == t.steps + [a, b, c];
  }

  /** The machine's steps for a datagram from upstream: one if it is refused,
      three if it is passed on. */
  ghost predicate AfterResponse(s: State, upstream: Address, buf: Bytes, from: Address, s': State) {
    if Verdict(s.ledger, upstream, buf, from).Err? then IsStep(s, upstream, Response(buf, from), s')
    else exists s1, s2 ::
           && IsStep(s, upstream, Response(buf, from), s1)
           && IsStep(s1, upstream, LoadTag, s2) && IsStep(s2, upstream, Keep, s')
  }

  /** The writer's steps for a candidate: one if it is refused, three if not. */
  lemma PublicationSteps(t: Trace, upstream: Address, s: State, candidate: Policy, s': State)
    returns (t': Trace, parts: seq<Step>)
    requires IsTrace(t, upstream, s) && s.writer.Idle?
    requires var s1 := Next(s, upstream, Check(candidate));
             if Acceptable(candidate, s.generation)
             then s' == Next(Next(s1, upstream, StoreSnapshot), upstream, StoreGeneration)
             else s' == s1
    ensures parts == if Acceptable(candidate, s.generation) then [Check(candidate), StoreSnapshot, StoreGeneration]
                     else [Check(candidate)]
    ensures IsTrace(t', upstream, s') && Continues(t, parts, t')
    ensures Outputs(t'.states) == Outputs(t.states) && s'.now == s.now
  {
    var s1 := Next(s, upstream, Check(candidate));
    if Acceptable(candidate, s.generation) {
      var s2 := Next(s1, upstream, StoreSnapshot);
      t' := ThreeSteps(t, upstream, s, Check(candidate), s1, StoreSnapshot, s2, StoreGeneration, s');
      parts := [Check(candidate), StoreSnapshot, StoreGeneration];
    } else {
      t' := TraceGoesOn(t, upstream, s, Check(candidate), s1);
      parts := [Check(candidate)];
    }
  }

  lemma ResponseSteps(s: State, upstream: Address, buf: Bytes, from: Address) returns (s': State)
    requires s.loop.Waiting? && s.writer.Idle? && Inv(s.ledger) && 0 < |buf| <= MAX_PAYLOAD
    ensures AfterResponse(s, upstream, buf, from, s')
    ensures s'.loop.Waiting? && s'.writer.Idle? && s'.active == s.active && s'.generation == s.generation
    ensures s'.ledger == OnResponse(s.ledger, upstream, buf, from)
    ensures var v := Verdict(s.ledger, upstream, buf, from);
            s'.items == ItemsAfter(s.items, v, buf, s.generation, s.now) && s'.output == OutputAfter(v, buf)
  {
    s' := Next(s, upstream, Response(buf, from));
    if Verdict(s.ledger, upstream, buf, from).Ok? {
      var s1 := s';
      var s2 := Next(s1, upstream, LoadTag);
      s' := Next(s2, upstream, Keep);
      assert IsStep(s, upstream, Response(buf, from), s1) && IsStep(s1, upstream, LoadTag, s2)
             && IsStep(s2, upstream, Keep, s');
    }
  }

  lemma FreeLiveId(pending: map<U16, Pending>, l: Ledger, now: int)
    requires Inv(l) && l.pending == pending
    ensures exists id: U16 :: id != 0 && id !in Live(pending, now)
  {
    PruneSize(pending, now);
    FreeIdExists(Live(pending, now));
  }

  /** A policy sent that the read takes in is the active one after its turn, with
      its generation in the counter, exactly when it is newer; otherwise neither
      cell has changed. */
  lemma SentPolicyIsActive(r: PolicyMessage.Request, upstream: Address, t: Trace, parts: seq<Step>, t': Trace)
    requires PolicyMessage.IsReadable(r) && r.command == "APPLY_POLICY" && r.versionHash != ""
    requires |PolicyMessage.Print(r)| <= 8193
    requires IsRun(upstream, t.states, t.steps) && IsRun(upstream, t'.states, t'.steps)
    requires Turned(Message(PolicyMessage.Print(r)), upstream, t, parts, t')
    ensures var s, s' := t.states[|t.steps|], t'.states[|t'.steps|];
            if r.generation > s.generation
            then s'.active == PolicyMessage.Requested(r) && s'.generation == r.generation
            else s'.active == s.active && s'.generation == s.generation
  {
    var n, c := |t.steps|, PolicyMessage.Requested(r);
    var s := t.states[n];
    SentPolicySteps(r, s, upstream, parts);
    assert t'.states[n] == s;
    if r.generation > s.generation {
      Published(upstream, t'.states, t'.steps, n, c);
    } else {
      Unpublished(upstream, t'.states, t'.steps, n, c);
    }
  }

  lemma SentPolicySteps(r: PolicyMessage.Request, s: State, upstream: Address, parts: seq<Step>)
    requires PolicyMessage.IsReadable(r) && r.command == "APPLY_POLICY" && r.versionHash != ""
    requires |PolicyMessage.Print(r)| <= 8193 && IsTurn(Message(PolicyMessage.Print(r)), s, upstream, parts)
    ensures var c := PolicyMessage.Requested(r);
            parts == if r.generation > s.generation then [Check(c), StoreSnapshot, StoreGeneration] else [Check(c)]
  {
    PolicyArrival.SentPolicyArrives(r);
  }

  lemma Published(upstream: Address, states: seq<State>, steps: seq<Step>, n: nat, c: Policy)
    requires IsRun(upstream, states, steps) && n + 3 == |steps|
    requires steps[n] == Check(c) && steps[n + 1] == StoreSnapshot && steps[n + 2] == StoreGeneration
    ensures states[n + 3].active == c && states[n + 3].generation == c.generation
  {
    assert IsStep(states[n + 2], upstream, steps[n + 2], states[n + 3]);
  }

  lemma Unpublished(upstream: Address, states: seq<State>, steps: seq<Step>, n: nat, c: Policy)
    requires IsRun(upstream, states, steps) && n + 1 == |steps| && steps[n] == Check(c)
    ensures states[n + 1].active == states[n].active && states[n + 1].generation == states[n].generation
  {
  }
}
