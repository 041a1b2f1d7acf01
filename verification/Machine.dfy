/** The event loop and the policy writer as one state machine
    (dataplane/src/main.cpp, dataplane/src/runtime/atomic_snapshot.cpp).

    One step is one atomic action: a load or a store of a shared cell, or a
    piece of work between them that no other thread sees. Properties hold in
    every state of every interleaving of the loop, one writer and the clock. */
module Machine {
  import opened Text
  import opened Wire
  import opened Parser
  import opened Policies
  import opened Forwarder
  import Cache
  import Responses

  const CAPACITY := 10000
  const CACHE_TTL: U32 := 60
  const SINKHOLE_NAME := "sinkhole.test"
  const LOOPBACK: Bytes := [127, 0, 0, 1]
  const SINKHOLE_TTL: U32 := 60
  const SERVFAIL: Byte := 2
  const NXDOMAIN: Byte := 3
  const REFUSED: Byte := 5

  // ---------------------------------------------------------------------
  // What the loop does between its loads
  // ---------------------------------------------------------------------

  datatype Output =
    | Blocked(client: Address, response: Bytes)
    | Refused(client: Address, response: Bytes)
    | Sinkholed(client: Address, response: Bytes)
    | Hit(client: Address, item: Cache.Item, response: Bytes)
    | SentOn(txid: U16, datagram: Bytes)
    | Failed(client: Address, response: Bytes)
    | Resolved(client: Address, response: Bytes)

  function QuestionKey(q: Packet): string {
    Cache.MakeKey(q.question.qname, q.question.qtype, q.question.qclass)
  }

  /** A policy lets a query on to the cache and the upstream server. */
  predicate LetsOn(p: Policy, q: Packet) {
    Allows(p, q.question.qname) && q.question.qname != SINKHOLE_NAME
  }

  /** `forward_query` succeeds: the send works and the pruned table has room. */
  predicate CanForward(l: Ledger, now: int, sent: bool) {
    sent && |Live(l.pending, now)| < MAX_PENDING
  }

  function QueryOutput(items: Cache.List<Cache.Item>, l: Ledger, q: Packet, client: Address, policy: Policy,
                       generation: nat, now: int, txid: U16, sent: bool): Output
    requires HEADER_SIZE + q.question.wireBytes <= |q.raw|
  {
    var d := Evaluate(policy, q.question.qname);
    if d.action == BlockNxDomain then Blocked(client, Responses.ErrorResponse(q, NXDOMAIN))
    else if d.action == BlockRefused then Refused(client, Responses.ErrorResponse(q, REFUSED))
    else if q.question.qname == SINKHOLE_NAME then
      Sinkholed(client, Responses.SinkholeResponse(q, LOOPBACK, SINKHOLE_TTL))
    else
      var hit := Cache.Hit(items, QuestionKey(q), now, generation);
      if hit.Some? then Hit(client, hit.value, Responses.WithId(hit.value.response, q.header.id))
      else if CanForward(l, now, sent) then SentOn(txid, Responses.WithId(q.raw, txid))
      else Failed(client, Responses.ErrorResponse(q, SERVFAIL))
  }

  function QueryItems(items: Cache.List<Cache.Item>, q: Packet, policy: Policy, generation: nat, now: int)
    : Cache.List<Cache.Item>
  {
    if LetsOn(policy, q) then Cache.Looked(items, QuestionKey(q), now, generation) else items
  }

  function QueryLedger(items: Cache.List<Cache.Item>, l: Ledger, q: Packet, client: Address, policy: Policy,
                       generation: nat, now: int, txid: U16, sent: bool): Ledger
    requires l.origin.Keys == l.pending.Keys
  {
    if LetsOn(policy, q) && Cache.Hit(items, QuestionKey(q), now, generation).None?
    then OnForward(l, TxFor(q, client, now), txid, sent)
    else l
  }

  /** Responses are kept under class 1, whatever the class of the query. */
  function ResolvedItem(tx: Pending, response: Bytes, generation: nat, now: int): Cache.Item {
    Cache.Stored(Cache.MakeKey(tx.qname, tx.qtype, 1), response, CACHE_TTL, now, generation)
  }

  // ---------------------------------------------------------------------
  // States and steps
  // ---------------------------------------------------------------------

  /** The writer: between calls, past its checks, or between its two stores. */
  datatype Writer = Idle | Checked(candidate: Policy) | HalfStored(candidate: Policy)

  /** The loop: between datagrams, or at work on one. `snapAt` and `genAt` are
      the steps at which the two loads were made. */
  datatype Loop =
    | Waiting
    | GotSnapshot(query: Packet, client: Address, policy: Policy, snapAt: nat)
    | GotGeneration(query: Packet, client: Address, policy: Policy, snapAt: nat, generation: nat, genAt: nat)
    | Validated(tx: Pending, response: Bytes)
    | GotTag(tx: Pending, response: Bytes, generation: nat)

  datatype State = State(
    active: Policy,
    generation: nat,
    writer: Writer,
    loop: Loop,
    items: Cache.List<Cache.Item>,
    ledger: Ledger,
    now: int,
    steps: nat,
    output: Option<Output>)

  const INIT := State(BOOTSTRAP, 1, Idle, Waiting, Cache.Nil, EMPTY_LEDGER, 0, 0, None)

  datatype Step =
    | Tick(nanos: nat)
    | Check(candidate: Policy)
    | StoreSnapshot
    | StoreGeneration
    | Query(buf: Bytes, client: Address)
    | LoadGeneration
    | Act(txid: U16, sent: bool)
    | Response(buf: Bytes, from: Address)
    | LoadTag
    | Keep

  predicate Enabled(s: State, upstream: Address, step: Step) {
    match step
    case Tick(_) => true
    case Check(_) => s.writer.Idle?
    case StoreSnapshot => s.writer.Checked?
    case StoreGeneration => s.writer.HalfStored?
    case Query(buf, _) => s.loop.Waiting? && 0 < |buf| <= MAX_PAYLOAD
    case LoadGeneration => s.loop.GotSnapshot?
    case Act(txid, _) =>
      && s.loop.GotGeneration?
      && s.ledger.origin.Keys == s.ledger.pending.Keys
      && HEADER_SIZE + s.loop.query.question.wireBytes <= |s.loop.query.raw|
      && (|Live(s.ledger.pending, s.now)| < MAX_PENDING ==> txid != 0 && txid !in Live(s.ledger.pending, s.now))
    case Response(buf, _) =>
      s.loop.Waiting? && 0 < |buf| <= MAX_PAYLOAD && s.ledger.origin.Keys == s.ledger.pending.Keys
    case LoadTag => s.loop.Validated?
    case Keep => s.loop.GotTag?
  }

  function Next(s: State, upstream: Address, step: Step): State
    requires Enabled(s, upstream, step)
  {
    var s := s.(steps := s.steps + 1, output := None);
    match step
    case Tick(nanos) => s.(now := s.now + nanos)
    case Check(candidate) => if Acceptable(candidate, s.generation) then s.(writer := Checked(candidate)) else s
    case StoreSnapshot => s.(active := s.writer.candidate, writer := HalfStored(s.writer.candidate))
    case StoreGeneration => s.(generation := s.writer.candidate.generation, writer := Idle)
    case Query(buf, client) =>
      var p := Parse(buf);
      if p.Err? then s else s.(loop := GotSnapshot(p.value, client, s.active, s.steps - 1))
    case LoadGeneration =>
      var l := s.loop;
      s.(loop := GotGeneration(l.query, l.client, l.policy, l.snapAt, s.generation, s.steps - 1))
    case Act(txid, sent) =>
      var l := s.loop;
      s.(loop := Waiting,
         items := QueryItems(s.items, l.query, l.policy, l.generation, s.now),
         ledger := QueryLedger(s.items, s.ledger, l.query, l.client, l.policy, l.generation, s.now, txid, sent),
         output := Some(QueryOutput(s.items, s.ledger, l.query, l.client, l.policy, l.generation, s.now, txid, sent)))
    case Response(buf, from) =>
      var v := Verdict(s.ledger, upstream, buf, from);
      s.(ledger := OnResponse(s.ledger, upstream, buf, from),
         loop := if v.Ok? then Validated(v.value, buf) else Waiting)
    case LoadTag => s.(loop := GotTag(s.loop.tx, s.loop.response, s.generation))
    case Keep =>
      var l := s.loop;
      s.(loop := Waiting,
         items := Cache.Inserted(s.items, CAPACITY, ResolvedItem(l.tx, l.response, l.generation, s.now)),
         output := Some(Resolved(l.tx.client, Responses.WithId(l.response, l.tx.clientId))))
  }

  // ---------------------------------------------------------------------
  // What every step keeps
  // ---------------------------------------------------------------------

  /** The two cells agree, except between the writer's two stores, when the
      snapshot is ahead. */
  ghost predicate Published(s: State) {
    match s.writer
    case Idle => s.active.generation == s.generation
    case Checked(c) => s.active.generation == s.generation && Acceptable(c, s.generation)
    case HalfStored(c) => s.active == c && s.active.generation > s.generation
  }

  /** A stored response parses with the name and type of its own key, and its
      tag is no later than the generation cell. */
  ghost predicate GoodItem(item: Cache.Item, generation: nat) {
    && item.generation <= generation
    && Parse(item.response).Ok?
    && var q := Parse(item.response).value.question;
       item.key == Cache.MakeKey(q.qname, q.qtype, 1)
  }

  ghost predicate GoodItems(items: Cache.List<Cache.Item>, generation: nat) {
    items.Cons? ==> GoodItem(items.head, generation) && GoodItems(items.tail, generation)
  }

  ghost predicate GoodLoop(s: State) {
    match s.loop
    case Waiting => true
    case GotSnapshot(q, _, _, snapAt) => Parse(q.raw) == Ok(q) && snapAt < s.steps
    case GotGeneration(q, _, _, snapAt, generation, genAt) =>
      Parse(q.raw) == Ok(q) && snapAt < genAt < s.steps && generation <= s.generation
    case Validated(tx, response) =>
      Parse(response).Ok? && Matches(Parse(response).value.question, tx)
    case GotTag(tx, response, generation) =>
      Parse(response).Ok? && Matches(Parse(response).value.question, tx) && generation <= s.generation
  }

  ghost predicate MachineInv(s: State) {
    && Published(s) && GoodLoop(s)
    && Cache.Distinct(s.items) && Cache.Length(s.items) <= CAPACITY && GoodItems(s.items, s.generation)
    && Inv(s.ledger)
  }

  lemma {:induction false} LaterGenerationKeepsItems(items: Cache.List<Cache.Item>, generation: nat, later: nat)
    requires GoodItems(items, generation) && generation <= later
    ensures GoodItems(items, later)
  {
    if items.Cons? { LaterGenerationKeepsItems(items.tail, generation, later); }
  }

  lemma {:induction false} GetGood(items: Cache.List<Cache.Item>, generation: nat, key: string)
    requires GoodItems(items, generation)
    ensures Cache.Get(items, key).Some? ==> GoodItem(Cache.Get(items, key).value, generation)
    ensures Cache.Get(items, key).Some? ==> Cache.Get(items, key).value.key == key
  {
    if items.Cons? { GetGood(items.tail, generation, key); }
  }

  lemma {:induction false} WithoutGood(items: Cache.List<Cache.Item>, generation: nat, key: string)
    requires GoodItems(items, generation)
    ensures GoodItems(Cache.Without(items, key), generation)
  {
    if items.Cons? { WithoutGood(items.tail, generation, key); }
  }

  lemma {:induction false} ButLastGood(items: Cache.List<Cache.Item>, generation: nat)
    requires GoodItems(items, generation) && items.Cons?
    ensures GoodItems(Cache.ButLast(items), generation)
  {
    if items.tail.Cons? { ButLastGood(items.tail, generation); }
  }

  lemma LookedGood(items: Cache.List<Cache.Item>, generation: nat, key: string, now: int, asked: nat)
    requires GoodItems(items, generation) && Cache.Distinct(items) && Cache.Length(items) <= CAPACITY
    ensures var items' := Cache.Looked(items, key, now, asked);
            GoodItems(items', generation) && Cache.Distinct(items') && Cache.Length(items') <= CAPACITY
  {
    GetGood(items, generation, key);
    WithoutGood(items, generation, key);
    Cache.StepFacts(items, CAPACITY, Cache.Op.Lookup(key, now, asked));
  }

  lemma InsertedGood(items: Cache.List<Cache.Item>, generation: nat, item: Cache.Item)
    requires GoodItems(items, generation) && GoodItem(item, generation)
    ensures GoodItems(Cache.Inserted(items, CAPACITY, item), generation)
  {
    WithoutGood(items, generation, item.key);
    if items.Cons? { ButLastGood(items, generation); }
  }

  lemma KeptFits(items: Cache.List<Cache.Item>, tx: Pending, response: Bytes, tag: nat, now: int)
    requires Cache.Distinct(items) && Cache.Length(items) <= CAPACITY
    ensures var items' := Cache.Inserted(items, CAPACITY, ResolvedItem(tx, response, tag, now));
            Cache.Distinct(items') && Cache.Length(items') <= CAPACITY
  {
    var item := ResolvedItem(tx, response, tag, now);
    var op := Cache.Op.Insert(item.key, response, CACHE_TTL, now, tag);
    assert Cache.StoredBy(op) == item;
    Cache.StepFacts(items, CAPACITY, op);
  }

  lemma PublicationKeepsInv(s: State, upstream: Address, step: Step)
    requires MachineInv(s) && Enabled(s, upstream, step)
    requires step.Tick? || step.Check? || step.StoreSnapshot? || step.StoreGeneration? || step.LoadGeneration?
    ensures MachineInv(Next(s, upstream, step))
  {
    if step.StoreGeneration? {
      LaterGenerationKeepsItems(s.items, s.generation, s.writer.candidate.generation);
    }
  }

  lemma QueryKeepsInv(s: State, upstream: Address, step: Step)
    requires MachineInv(s) && Enabled(s, upstream, step) && step.Query?
    ensures MachineInv(Next(s, upstream, step))
  {
  }

  lemma ActKeepsItems(items: Cache.List<Cache.Item>, generation: nat, q: Packet, policy: Policy, now: int, asked: nat)
    requires GoodItems(items, generation) && Cache.Distinct(items) && Cache.Length(items) <= CAPACITY
    ensures var items' := QueryItems(items, q, policy, asked, now);
            GoodItems(items', generation) && Cache.Distinct(items') && Cache.Length(items') <= CAPACITY
  {
    LookedGood(items, generation, QuestionKey(q), now, asked);
  }

  lemma ActKeepsLedger(items: Cache.List<Cache.Item>, l: Ledger, q: Packet, client: Address, policy: Policy,
                       generation: nat, now: int, txid: U16, sent: bool)
    requires Inv(l) && (|Live(l.pending, now)| < MAX_PENDING ==> txid != 0 && txid !in Live(l.pending, now))
    ensures Inv(QueryLedger(items, l, q, client, policy, generation, now, txid, sent))
  {
    ForwardKeepsInv(l, TxFor(q, client, now), txid, sent);
  }

  lemma ActKeepsInv(s: State, upstream: Address, step: Step)
    requires MachineInv(s) && Enabled(s, upstream, step) && step.Act?
    ensures MachineInv(Next(s, upstream, step))
  {
    var l := s.loop;
    ActKeepsItems(s.items, s.generation, l.query, l.policy, s.now, l.generation);
    ActKeepsLedger(s.items, s.ledger, l.query, l.client, l.policy, l.generation, s.now, step.txid, step.sent);
  }

  lemma ResponseKeepsInv(s: State, upstream: Address, step: Step)
    requires MachineInv(s) && Enabled(s, upstream, step) && (step.Response? || step.LoadTag? || step.Keep?)
    ensures MachineInv(Next(s, upstream, step))
  {
    match step
    case Response(buf, from) => Forwarder.ResponseKeepsInv(s.ledger, upstream, buf, from);
    case LoadTag =>
    case Keep =>
      var l := s.loop;
      InsertedGood(s.items, s.generation, ResolvedItem(l.tx, l.response, l.generation, s.now));
      KeptFits(s.items, l.tx, l.response, l.generation, s.now);
  }

  lemma StepKeepsInv(s: State, upstream: Address, step: Step)
    requires MachineInv(s) && Enabled(s, upstream, step)
    ensures MachineInv(Next(s, upstream, step))
  {
    match step
    case Query(_, _) => QueryKeepsInv(s, upstream, step);
    case Act(_, _) => ActKeepsInv(s, upstream, step);
    case Response(_, _) => ResponseKeepsInv(s, upstream, step);
    case LoadTag => ResponseKeepsInv(s, upstream, step);
    case Keep => ResponseKeepsInv(s, upstream, step);
    case _ => PublicationKeepsInv(s, upstream, step);
  }

  ghost predicate IsStep(s: State, upstream: Address, step: Step, s': State) {
    Enabled(s, upstream, step) && s' == Next(s, upstream, step)
  }

  lemma SuccessorInv(s: State, upstream: Address, step: Step, s': State)
    requires MachineInv(s) && IsStep(s, upstream, step, s')
    ensures MachineInv(s') && s'.steps == s.steps + 1
  {
    StepKeepsInv(s, upstream, step);
  }

  // ---------------------------------------------------------------------
  // Runs
  // ---------------------------------------------------------------------

  /** A run: a state before and after every step, from the start on. */
  ghost predicate IsRun(upstream: Address, states: seq<State>, steps: seq<Step>) {
    && |states| == |steps| + 1
    && states[0] == INIT
    && forall i {:trigger steps[i]} :: 0 <= i < |steps| ==> IsStep(states[i], upstream, steps[i], states[i + 1])
  }

  /** What the loop sent in a run, in order. */
  function Outputs(states: seq<State>): seq<Output> {
    if states == [] then []
    else
      var last := states[|states| - 1];
      Outputs(states[..|states| - 1]) + (if last.output.Some? then [last.output.value] else [])
  }

  /** A run goes on by any step possible in its last state. */
  lemma RunGoesOn(upstream: Address, states: seq<State>, steps: seq<Step>, step: Step, s': State)
    requires IsRun(upstream, states, steps) && IsStep(states[|steps|], upstream, step, s')
    ensures IsRun(upstream, states + [s'], steps + [step])
    ensures Outputs(states + [s']) == Outputs(states) + (if s'.output.Some? then [s'.output.value] else [])
  {
    var states', steps' := states + [s'], steps + [step];
    forall i {:trigger steps'[i]} | 0 <= i < |steps'| ensures IsStep(states'[i], upstream, steps'[i], states'[i + 1]) {
      if i < |steps| {
        assert steps'[i] == steps[i] && states'[i] == states[i] && states'[i + 1] == states[i + 1];
      }
    }
    assert states'[..|states|] == states;
  }

  lemma {:induction false} RunInv(upstream: Address, states: seq<State>, steps: seq<Step>, i: nat)
    requires IsRun(upstream, states, steps) && i < |states|
    ensures MachineInv(states[i]) && states[i].steps == i
  {
    if i > 0 {
      RunInv(upstream, states, steps, i - 1);
      SuccessorInv(states[i - 1], upstream, steps[i - 1], states[i]);
    }
  }

  /** One step never takes a generation back, nor the clock, nor a forward. */
  lemma StepMonotone(s: State, upstream: Address, step: Step, s': State)
    requires MachineInv(s) && IsStep(s, upstream, step, s')
    ensures && s.generation <= s'.generation && s.active.generation <= s'.active.generation && s.now <= s'.now
            && (s'.generation != s.generation ==> step.StoreGeneration?)
            && (s'.active != s.active ==> step.StoreSnapshot?)
  {
  }

  /** Over a run both cells' generations never decrease. */
  lemma {:induction false} GenerationsNeverDecrease(upstream: Address, states: seq<State>, steps: seq<Step>,
                                                    i: nat, j: nat)
    requires IsRun(upstream, states, steps) && i <= j < |states|
    ensures states[i].generation <= states[j].generation
    ensures states[i].active.generation <= states[j].active.generation
    ensures states[i].now <= states[j].now
  {
    if i < j {
      GenerationsNeverDecrease(upstream, states, steps, i, j - 1);
      RunInv(upstream, states, steps, j - 1);
      StepMonotone(states[j - 1], upstream, steps[j - 1], states[j]);
    }
  }

  /** The cells are equal in every state, except between the two stores of the
      writer, when the snapshot's generation is the larger. */
  lemma CellsAgree(upstream: Address, states: seq<State>, steps: seq<Step>, i: nat)
    requires IsRun(upstream, states, steps) && i < |states|
    ensures states[i].active.generation == states[i].generation <==> !states[i].writer.HalfStored?
    ensures states[i].active.generation >= states[i].generation
  {
    RunInv(upstream, states, steps, i);
  }

  /** The writer is at work on a candidate it found the cells `before` for: both
      cells are as they were, or the snapshot is the candidate already. */
  ghost predicate Writing(s: State, candidate: Policy, before: State) {
    && s.generation == before.generation
    && ((s.writer == Checked(candidate) && s.active == before.active)
        || (s.writer == HalfStored(candidate) && s.active == candidate))
  }

  lemma WriterStep(s: State, upstream: Address, step: Step, s': State, candidate: Policy, before: State)
    requires IsStep(s, upstream, step, s') && Writing(s, candidate, before)
    ensures if step.StoreGeneration?
            then s'.active == candidate && s'.generation == candidate.generation && s'.writer == Idle
            else Writing(s', candidate, before)
  {
  }

  lemma CheckStep(s: State, upstream: Address, candidate: Policy, s': State)
    requires IsStep(s, upstream, Check(candidate), s')
    ensures if Acceptable(candidate, s.generation) then Writing(s', candidate, s)
            else s'.active == s.active && s'.generation == s.generation && s'.writer == Idle
  {
  }

  /** A refused candidate changes no cell. An accepted one, whatever the loop and
      the clock do meanwhile, leaves the cells as they were or the snapshot
      alone replaced until the second store, and both replaced after it. */
  lemma {:induction false} CandidateIsAllOrNothing(upstream: Address, states: seq<State>, steps: seq<Step>,
                                                   i: nat, j: nat)
    requires IsRun(upstream, states, steps) && i < j <= |steps| && steps[i].Check?
    requires forall m :: i < m < j ==> !steps[m].StoreGeneration?
    ensures var c, before := steps[i].candidate, states[i];
            if c.generation > before.generation && c.versionHash != ""
            then Writing(states[j], c, before)
                 && (j < |steps| && steps[j].StoreGeneration? ==>
                       && states[j + 1].active == c && states[j + 1].generation == c.generation
                       && states[j + 1].writer == Idle)
            else states[i + 1].active == before.active && states[i + 1].generation == before.generation
                 && states[i + 1].writer == Idle
  {
    var c, before := steps[i].candidate, states[i];
    CheckStep(before, upstream, c, states[i + 1]);
    if Acceptable(c, before.generation) {
      if i + 1 < j {
        CandidateIsAllOrNothing(upstream, states, steps, i, j - 1);
        WriterStep(states[j - 1], upstream, steps[j - 1], states[j], c, before);
      }
      if j < |steps| {
        WriterStep(states[j], upstream, steps[j], states[j + 1], c, before);
      }
    }
  }

  /** What the loop holds it has loaded at the steps it says. */
  ghost predicate LoadedThen(states: seq<State>, steps: seq<Step>, i: nat)
    requires i < |states| == |steps| + 1
  {
    match states[i].loop
    case GotSnapshot(q, client, policy, snapAt) =>
      snapAt < i && steps[snapAt] == Query(q.raw, client) && states[snapAt].active == policy
    case GotGeneration(q, client, policy, snapAt, generation, genAt) =>
      && snapAt < genAt < i && steps[snapAt] == Query(q.raw, client) && states[snapAt].active == policy
      && steps[genAt].LoadGeneration? && states[genAt].generation == generation
    case _ => true
  }

  /** One step keeps what the loop holds, or loads it. */
  lemma LoadStep(s: State, upstream: Address, step: Step, s': State)
    requires MachineInv(s) && IsStep(s, upstream, step, s')
    ensures s'.loop.GotSnapshot? ==>
              || s'.loop == s.loop
              || (step == Query(s'.loop.query.raw, s'.loop.client) && s.active == s'.loop.policy
                  && s'.loop.snapAt == s.steps)
    ensures s'.loop.GotGeneration? ==>
              || s'.loop == s.loop
              || (step.LoadGeneration? && s.loop.GotSnapshot? && s.generation == s'.loop.generation
                  && s'.loop.genAt == s.steps && s'.loop.policy == s.loop.policy && s'.loop.query == s.loop.query
                  && s'.loop.client == s.loop.client && s'.loop.snapAt == s.loop.snapAt)
  {
  }

  lemma {:induction false} LoopLoadedThen(upstream: Address, states: seq<State>, steps: seq<Step>, i: nat)
    requires IsRun(upstream, states, steps) && i < |states|
    ensures LoadedThen(states, steps, i)
  {
    if i > 0 {
      LoopLoadedThen(upstream, states, steps, i - 1);
      RunInv(upstream, states, steps, i - 1);
      LoadedNext(upstream, states, steps, i - 1, states[i - 1], steps[i - 1], states[i]);
    }
  }

  lemma LoadedNext(upstream: Address, states: seq<State>, steps: seq<Step>, i: nat, s: State, step: Step, s': State)
    requires i < |steps| && |states| == |steps| + 1 && s == states[i] && step == steps[i] && s' == states[i + 1]
    requires LoadedThen(states, steps, i) && MachineInv(s) && s.steps == i && IsStep(s, upstream, step, s')
    ensures LoadedThen(states, steps, i + 1)
  {
    LoadStep(s, upstream, step, s');
  }

  /** Between two states without a store of the writer the cells stay the same. */
  lemma {:induction false} CellsStayWithoutStores(upstream: Address, states: seq<State>, steps: seq<Step>,
                                                  i: nat, j: nat)
    requires IsRun(upstream, states, steps) && i <= j < |states|
    requires forall m :: i <= m < j ==> !steps[m].StoreSnapshot? && !steps[m].StoreGeneration?
    ensures states[i].active == states[j].active && states[i].generation == states[j].generation
  {
    if i < j {
      CellsStayWithoutStores(upstream, states, steps, i, j - 1);
      RunInv(upstream, states, steps, j - 1);
      StepMonotone(states[j - 1], upstream, steps[j - 1], states[j]);
    }
  }

  /** A reader whose two loads disagree overlapped a publication: the writer was
      between its stores at the first load, or stored before the second. */
  lemma DisagreeingLoadsOverlap(upstream: Address, states: seq<State>, steps: seq<Step>, i: nat)
    requires IsRun(upstream, states, steps) && i < |states| && states[i].loop.GotGeneration?
    requires states[i].loop.policy.generation != states[i].loop.generation
    ensures var l := states[i].loop;
            && l.snapAt < l.genAt < i
            && (states[l.snapAt].writer.HalfStored?
                || exists m :: l.snapAt <= m < l.genAt && (steps[m].StoreSnapshot? || steps[m].StoreGeneration?))
  {
    var l := states[i].loop;
    LoopLoadedThen(upstream, states, steps, i);
    RunInv(upstream, states, steps, l.snapAt);
    if forall m :: l.snapAt <= m < l.genAt ==> !steps[m].StoreSnapshot? && !steps[m].StoreGeneration? {
      CellsStayWithoutStores(upstream, states, steps, l.snapAt, l.genAt);
    }
  }

  // ---------------------------------------------------------------------
  // Answers
  // ---------------------------------------------------------------------

  /** A query reaches the cache or the upstream server only if the snapshot
      that was active when the query was read lets its name on. */
  lemma OnlyAllowedQueriesGoOn(upstream: Address, states: seq<State>, steps: seq<Step>, i: nat)
    requires IsRun(upstream, states, steps) && i < |steps| && steps[i].Act?
    ensures var l := states[i].loop;
            && l.snapAt < i && steps[l.snapAt].Query? && Parse(steps[l.snapAt].buf) == Ok(l.query)
            && (LetsOn(states[l.snapAt].active, l.query)
                || (states[i + 1].items == states[i].items && states[i + 1].ledger == states[i].ledger
                    && !states[i + 1].output.value.Hit? && !states[i + 1].output.value.SentOn?))
    ensures states[i + 1].output.Some?
  {
    LoopLoadedThen(upstream, states, steps, i);
    RunInv(upstream, states, steps, i);
  }

  /** What a query leads to under a policy and a generation, and when: NXDOMAIN
      if it is blocked, the sinkhole's answer for its name, the stored response
      if there is one, the query sent on under a free id entered for its client
      if that can be done, and SERVFAIL otherwise. The cases exclude each other. */
  ghost predicate Serves(out: Output, q: Packet, client: Address, policy: Policy, generation: nat,
                         items: Cache.List<Cache.Item>, l: Ledger, l': Ledger, now: int, sent: bool)
    requires HEADER_SIZE + q.question.wireBytes <= |q.raw|
  {
    var hit := Cache.Hit(items, Cache.MakeKey(q.question.qname, q.question.qtype, q.question.qclass), now, generation);
    var tx := Pending(q.header.id, client, q.question.qname, q.question.qtype, now);
    match out
    case Blocked(to, resp) =>
      && to == client && !Allows(policy, q.question.qname) && resp == Responses.ErrorResponse(q, 3)
      && l'.forwards == l.forwards
    case Sinkholed(to, resp) =>
      && to == client && Allows(policy, q.question.qname) && q.question.qname == "sinkhole.test"
      && resp == Responses.SinkholeResponse(q, [127, 0, 0, 1], 60) && l'.forwards == l.forwards
    case Hit(to, item, resp) =>
      && to == client && LetsOn(policy, q) && hit == Some(item)
      && resp == Responses.WithId(item.response, q.header.id) && l'.forwards == l.forwards
    case SentOn(txid, datagram) =>
      && LetsOn(policy, q) && hit.None? && sent && |Young(l.pending, now)| < 2048
      && datagram == Responses.WithId(q.raw, txid) && txid != 0 && txid !in Young(l.pending, now)
      && l'.pending == Young(l.pending, now)[txid := tx] && l'.forwards == l.forwards + [Forwarded(txid, tx)]
    case Failed(to, resp) =>
      && to == client && LetsOn(policy, q) && hit.None? && (!sent || |Young(l.pending, now)| >= 2048)
      && resp == Responses.ErrorResponse(q, 2) && l'.forwards == l.forwards
    case Refused(_, _) => false
    case Resolved(_, _) => false
  }

  lemma OutputServes(items: Cache.List<Cache.Item>, l: Ledger, q: Packet, client: Address, policy: Policy,
                     generation: nat, now: int, txid: U16, sent: bool)
    requires HEADER_SIZE + q.question.wireBytes <= |q.raw|
    requires l.origin.Keys == l.pending.Keys
    requires |Live(l.pending, now)| < MAX_PENDING ==> txid != 0 && txid !in Live(l.pending, now)
    ensures Serves(QueryOutput(items, l, q, client, policy, generation, now, txid, sent), q, client, policy, generation,
                   items, l, QueryLedger(items, l, q, client, policy, generation, now, txid, sent), now, sent)
  {
    YoungIsLive(l.pending, now);
    EvaluateMeaning(policy, q.question.qname);
  }

  /** Every query acted on is served for the client that sent it, under the
      policy active when it was read, the generation loaded after that, and the
      cache and table of the moment. */
  lemma QueryIsServed(upstream: Address, states: seq<State>, steps: seq<Step>, i: nat)
    requires IsRun(upstream, states, steps) && i < |steps| && steps[i].Act?
    ensures var l, s, s' := states[i].loop, states[i], states[i + 1];
            && l.snapAt < l.genAt < i && steps[l.snapAt].Query? && Parse(steps[l.snapAt].buf) == Ok(l.query)
            && steps[l.genAt].LoadGeneration? && s'.output.Some?
            && Serves(s'.output.value, l.query, steps[l.snapAt].client, states[l.snapAt].active,
                      states[l.genAt].generation, s.items, s.ledger, s'.ledger, s.now, steps[i].sent)
  {
    RunInv(upstream, states, steps, i);
    LoopLoadedThen(upstream, states, steps, i);
    var s, l := states[i], states[i].loop;
    OutputServes(s.items, s.ledger, l.query, l.client, l.policy, l.generation, s.now, steps[i].txid, steps[i].sent);
  }

  /** The loop has the query read at step `q` in hand. */
  predicate InHand(s: State, q: nat) {
    (s.loop.GotSnapshot? || s.loop.GotGeneration?) && s.loop.snapAt == q
  }

  /** Step `a` acts on the query read at step `q`. */
  predicate IsServedAt(states: seq<State>, steps: seq<Step>, q: nat, a: nat)
    requires a < |steps| < |states|
  {
    steps[a].Act? && InHand(states[a], q)
  }

  lemma HandStep(s: State, upstream: Address, step: Step, s': State, q: nat)
    requires MachineInv(s) && IsStep(s, upstream, step, s')
    ensures q < s.steps ==> (InHand(s', q) <==> InHand(s, q) && !step.Act?)
    ensures q == s.steps && step.Query? && Parse(step.buf).Ok? ==> InHand(s', q)
  {
  }

  ghost predicate IsUnserved(states: seq<State>, steps: seq<Step>, q: nat, j: nat)
    requires j <= |steps| < |states|
  {
    forall a: nat :: q < a < j ==> !IsServedAt(states, steps, q, a)
  }

  ghost predicate IsServedOnce(states: seq<State>, steps: seq<Step>, q: nat, j: nat)
    requires j <= |steps| < |states|
  {
    exists a: nat :: a < j && IsServedAt(states, steps, q, a) && IsUnserved(states, steps, q, a)
                     && forall b: nat :: a < b < j ==> !IsServedAt(states, steps, q, b)
  }

  lemma ServedMore(states: seq<State>, steps: seq<Step>, q: nat, j: nat)
    requires q < j < |steps| < |states|
    ensures IsServedAt(states, steps, q, j) && IsUnserved(states, steps, q, j) ==> IsServedOnce(states, steps, q, j + 1)
    ensures !IsServedAt(states, steps, q, j) && IsUnserved(states, steps, q, j) ==> IsUnserved(states, steps, q, j + 1)
    ensures !IsServedAt(states, steps, q, j) && IsServedOnce(states, steps, q, j) ==>
              IsServedOnce(states, steps, q, j + 1)
  {
    if !IsServedAt(states, steps, q, j) && IsServedOnce(states, steps, q, j) {
      var a: nat :| a < j && IsServedAt(states, steps, q, a) && IsUnserved(states, steps, q, a)
                    && forall b: nat :: a < b < j ==> !IsServedAt(states, steps, q, b);
      assert forall b: nat :: a < b < j + 1 ==> !IsServedAt(states, steps, q, b);
    }
  }

  /** Every query accepted is in hand until it is served, and it is served once. */
  lemma {:induction false} QueryIsServedOnce(upstream: Address, states: seq<State>, steps: seq<Step>, q: nat, j: nat)
    requires IsRun(upstream, states, steps) && q < j < |states| && steps[q].Query? && Parse(steps[q].buf).Ok?
    ensures if InHand(states[j], q) then IsUnserved(states, steps, q, j) else IsServedOnce(states, steps, q, j)
  {
    var i := j - 1;
    RunInv(upstream, states, steps, i);
    HandStep(states[i], upstream, steps[i], states[j], q);
    if q < i {
      QueryIsServedOnce(upstream, states, steps, q, i);
      ServedMore(states, steps, q, i);
      assert IsServedAt(states, steps, q, i) <==> steps[i].Act? && InHand(states[i], q);
    }
  }

  /** The name of the query finds in what is written the octets it was read from. */
  ghost predicate KeepsName(out: Output, q: Packet, r: Reading)
    requires Parse(q.raw) == Ok(q)
  {
    match out
    case Blocked(_, _) =>
      Responses.ReadsWithin(q.raw, r) && Responses.HeaderStays(q.raw, r, 0x81, Responses.ErrorFlags(NXDOMAIN), 0)
    case Failed(_, _) =>
      Responses.ReadsWithin(q.raw, r) && Responses.HeaderStays(q.raw, r, 0x81, Responses.ErrorFlags(SERVFAIL), 0)
    case Sinkholed(_, _) =>
      Responses.ReadsWithin(q.raw, r) && Responses.HeaderStays(q.raw, r, 0x85, 0x80, 1) && Pointers(r) <= 7
    case SentOn(txid, _) => Responses.IdStays(q.raw, txid, r)
    case _ => true
  }

  /** What is written about a query reads as that: an error with its code, an
      answer about its name, or the query itself under another id. */
  ghost predicate ReadsBack(out: Output, q: Packet) {
    match out
    case Blocked(_, resp) => Responses.ReadsAsError(Parse(resp), q, 3)
    case Failed(_, resp) => Responses.ReadsAsError(Parse(resp), q, 2)
    case Sinkholed(_, resp) =>
      Parse(resp).Ok? && Parse(resp).value.question == q.question && Responses.AnswerNamed(resp, q)
    case SentOn(txid, datagram) => Responses.ReadsUnderId(Parse(datagram), q, txid)
    case _ => true
  }

  lemma OutputReadsBack(out: Output, q: Packet, client: Address, policy: Policy, generation: nat,
                        items: Cache.List<Cache.Item>, l: Ledger, l': Ledger, now: int, sent: bool, r: Reading)
    requires Parse(q.raw) == Ok(q) && Spells(q.raw, HEADER_SIZE, r) && KeepsName(out, q, r)
    requires Serves(out, q, client, policy, generation, items, l, l', now, sent)
    ensures ReadsBack(out, q)
  {
    match out
    case Blocked(_, _) => Responses.ErrorResponseParses(q.raw, NXDOMAIN, r);
    case Failed(_, _) => Responses.ErrorResponseParses(q.raw, SERVFAIL, r);
    case Sinkholed(_, _) => Responses.SinkholeAnswersQuestion(q.raw, LOOPBACK, SINKHOLE_TTL, r);
    case SentOn(txid, _) => Responses.IdRewriteParses(q.raw, txid, r);
    case _ =>
  }

  lemma PlainKeepsName(out: Output, q: Packet, r: Reading)
    requires Parse(q.raw) == Ok(q) && Spells(q.raw, HEADER_SIZE, r) && Pointers(r) == 0
    ensures KeepsName(out, q, r)
  {
    Responses.PlainReadsWithin(q.raw, r);
  }

  /** What is written in a run reads back to the question, where the name finds
      its octets; a name without pointers always does. */
  lemma ServiceReadsBack(upstream: Address, states: seq<State>, steps: seq<Step>, i: nat, r: Reading)
    requires IsRun(upstream, states, steps) && i < |steps| && steps[i].Act?
    requires Parse(states[i].loop.query.raw) == Ok(states[i].loop.query)
    requires Spells(states[i].loop.query.raw, HEADER_SIZE, r)
    ensures states[i + 1].output.Some?
    ensures KeepsName(states[i + 1].output.value, states[i].loop.query, r) ==>
              ReadsBack(states[i + 1].output.value, states[i].loop.query)
    ensures Pointers(r) == 0 ==> KeepsName(states[i + 1].output.value, states[i].loop.query, r)
  {
    QueryIsServed(upstream, states, steps, i);
    var l, s, s' := states[i].loop, states[i], states[i + 1];
    if Pointers(r) == 0 {
      PlainKeepsName(s'.output.value, l.query, r);
    }
    if KeepsName(s'.output.value, l.query, r) {
      OutputReadsBack(s'.output.value, l.query, steps[l.snapAt].client, states[l.snapAt].active,
                      states[l.genAt].generation, s.items, s.ledger, s'.ledger, s.now, steps[i].sent, r);
    }
  }

  /** No stale answer: a stored response served to a query carries the tag of
      the generation cell at the query's own load, so once the cell has passed
      an entry's tag no query that reads the cell afterwards is served that entry. */
  lemma NoStaleAnswer(upstream: Address, states: seq<State>, steps: seq<Step>, i: nat, earlier: nat)
    requires IsRun(upstream, states, steps) && i < |steps| && steps[i].Act?
    requires states[i + 1].output.value.Hit?
    ensures var l := states[i].loop;
            && l.genAt < i && steps[l.genAt].LoadGeneration?
            && states[i + 1].output.value.item.generation == states[l.genAt].generation
            && (earlier <= l.genAt ==> states[earlier].generation <= states[i + 1].output.value.item.generation)
  {
    LoopLoadedThen(upstream, states, steps, i);
    RunInv(upstream, states, steps, i);
    var l := states[i].loop;
    if earlier <= l.genAt {
      GenerationsNeverDecrease(upstream, states, steps, earlier, l.genAt);
    }
  }

  /** A hit answers the question asked: the stored response parses with the
      query's name and type, the query is of class 1, and its policy let it on. */
  lemma HitAnswersQuestion(upstream: Address, states: seq<State>, steps: seq<Step>, i: nat)
    requires IsRun(upstream, states, steps) && i < |steps| && steps[i].Act?
    requires states[i + 1].output.value.Hit?
    ensures var q, out := states[i].loop.query, states[i + 1].output.value;
            && Parse(out.item.response).Ok?
            && Parse(out.item.response).value.question.qname == q.question.qname
            && Parse(out.item.response).value.question.qtype == q.question.qtype
            && q.question.qclass == 1
            && out.client == states[i].loop.client
            && out.response == Responses.WithId(out.item.response, q.header.id)
  {
    RunInv(upstream, states, steps, i);
    var s, q := states[i], states[i].loop.query;
    GetGood(s.items, s.generation, QuestionKey(q));
    var item := states[i + 1].output.value.item;
    var p := Parse(item.response).value.question;
    Cache.MakeKeyInjective(p.qname, p.qtype, 1, q.question.qname, q.question.qtype, q.question.qclass);
  }

  /** The rewritten id leaves the answer's question as it was, where the name
      is not read from the id. */
  lemma HitResponseParses(upstream: Address, states: seq<State>, steps: seq<Step>, i: nat, r: Reading)
    requires IsRun(upstream, states, steps) && i < |steps| && steps[i].Act?
    requires states[i + 1].output.value.Hit?
    requires Spells(states[i + 1].output.value.item.response, HEADER_SIZE, r) && Pointers(r) == 0
    ensures var q, p := states[i].loop.query, Parse(states[i + 1].output.value.response);
            && p.Ok? && p.value.header.id == q.header.id
            && p.value.question.qname == q.question.qname && p.value.question.qtype == q.question.qtype
  {
    HitAnswersQuestion(upstream, states, steps, i);
    Responses.PlainIdRewriteParses(states[i + 1].output.value.item.response, states[i].loop.query.header.id, r);
  }

  lemma {:induction false} TagsWithinGeneration(items: Cache.List<Cache.Item>, generation: nat, key: string)
    requires GoodItems(items, generation) && key in Cache.Keys(items)
    ensures Cache.Get(items, key).Some? && Cache.Get(items, key).value.generation <= generation
  {
    Cache.GetIsMember(items, key);
    GetGood(items, generation, key);
  }

  /** No tag in the cache exceeds the generation cell, in any state. */
  lemma TagsNeverAhead(upstream: Address, states: seq<State>, steps: seq<Step>, i: nat, key: string)
    requires IsRun(upstream, states, steps) && i < |states| && key in Cache.Keys(states[i].items)
    ensures Cache.Get(states[i].items, key).Some?
    ensures Cache.Get(states[i].items, key).value.generation <= states[i].generation
  {
    RunInv(upstream, states, steps, i);
    TagsWithinGeneration(states[i].items, states[i].generation, key);
  }

  /** In every state of a run no forward is lost or counted twice, and the table
      has room for an id. */
  lemma ConservationInRuns(upstream: Address, states: seq<State>, steps: seq<Step>, i: nat)
    requires IsRun(upstream, states, steps) && i < |states|
    ensures var l := states[i].ledger;
            |l.forwards| == |l.pending| + |l.consumed| + |l.pruned| && |l.pending| <= MAX_PENDING && 0 !in l.pending
  {
    RunInv(upstream, states, steps, i);
    Conservation(states[i].ledger);
  }

  // ---------------------------------------------------------------------
  // Who is answered
  // ---------------------------------------------------------------------

  /** At step `m` the client of an entry sent the query the entry is for, and the
      policy then active let it on. */
  ghost predicate Asked(states: seq<State>, steps: seq<Step>, m: nat, tx: Pending)
    requires m < |steps| < |states|
  {
    && steps[m].Query? && Parse(steps[m].buf).Ok?
    && var q := Parse(steps[m].buf).value;
       && LetsOn(states[m].active, q) && tx.client == steps[m].client && tx.clientId == q.header.id
       && tx.qname == q.question.qname && tx.qtype == q.question.qtype
  }

  /** At step `r` the response came from upstream, after the query at `m` that it answers. */
  ghost predicate Delivered(upstream: Address, states: seq<State>, steps: seq<Step>, m: nat, r: nat, a: Accepted)
    requires r < |steps| < |states|
  {
    steps[r] == Response(a.response, upstream) && m < r && Asked(states, steps, m, a.tx)
  }

  /** The steps at which the queries were read that the forwards of a run stand for. */
  function AskedBy(states: seq<State>, steps: seq<Step>, i: nat): seq<nat>
    requires i <= |steps| < |states|
  {
    if i == 0 then []
    else
      var s, s' := states[i - 1], states[i];
      AskedBy(states, steps, i - 1)
      + (if |s'.ledger.forwards| > |s.ledger.forwards| && s.loop.GotGeneration? then [s.loop.snapAt] else [])
  }

  lemma ForwardsStep(s: State, upstream: Address, step: Step, s': State)
    requires MachineInv(s) && IsStep(s, upstream, step, s')
    ensures || s'.ledger.forwards == s.ledger.forwards
            || (&& step.Act? && LetsOn(s.loop.policy, s.loop.query)
                && s'.ledger.forwards
                   == s.ledger.forwards + [Forwarded(step.txid, TxFor(s.loop.query, s.loop.client, s.now))])
  {
  }

  /** The steps named come one after the other, and before the query in hand. */
  ghost predicate Increasing(ms: seq<nat>, s: State) {
    && (forall f, g :: 0 <= f < g < |ms| ==> ms[f] < ms[g])
    && (forall f :: 0 <= f < |ms| ==> ms[f] < s.steps)
    && (s.loop.GotSnapshot? || s.loop.GotGeneration? ==> forall f :: 0 <= f < |ms| ==> ms[f] < s.loop.snapAt)
  }

  lemma IncreasingStep(ms: seq<nat>, s: State, upstream: Address, step: Step, s': State)
    requires MachineInv(s) && IsStep(s, upstream, step, s') && Increasing(ms, s)
    ensures Increasing(if step.Act? then ms + [s.loop.snapAt] else ms, s')
    ensures Increasing(ms, s')
  {
  }

  lemma AskedStep(upstream: Address, states: seq<State>, steps: seq<Step>, i: nat)
    requires i < |steps| && |states| == |steps| + 1 && MachineInv(states[i])
    requires IsStep(states[i], upstream, steps[i], states[i + 1])
    ensures var ms, forwards := AskedBy(states, steps, i), states[i].ledger.forwards;
            if states[i + 1].ledger.forwards == forwards then AskedBy(states, steps, i + 1) == ms
            else && steps[i].Act? && LetsOn(states[i].loop.policy, states[i].loop.query)
                 && AskedBy(states, steps, i + 1) == ms + [states[i].loop.snapAt]
                 && states[i + 1].ledger.forwards
                    == forwards
                       + [Forwarded(steps[i].txid, TxFor(states[i].loop.query, states[i].loop.client, states[i].now))]
  {
    ForwardsStep(states[i], upstream, steps[i], states[i + 1]);
  }

  lemma {:induction false} QueriesIncrease(upstream: Address, states: seq<State>, steps: seq<Step>, i: nat)
    requires IsRun(upstream, states, steps) && i < |states|
    ensures var ms := AskedBy(states, steps, i);
            |ms| == |states[i].ledger.forwards| && Increasing(ms, states[i])
  {
    if i > 0 {
      var j := i - 1;
      RunInv(upstream, states, steps, j);
      QueriesIncrease(upstream, states, steps, j);
      AskedStep(upstream, states, steps, j);
      IncreasingStep(AskedBy(states, steps, j), states[j], upstream, steps[j], states[i]);
    }
  }

  /** Each forward of a run goes back to a query read before, no two of them to
      the same. */
  lemma {:induction false} ForwardsWereAsked(upstream: Address, states: seq<State>, steps: seq<Step>, i: nat)
    requires IsRun(upstream, states, steps) && i < |states|
    ensures var ms, forwards := AskedBy(states, steps, i), states[i].ledger.forwards;
            && |ms| == |forwards| && (forall f, g :: 0 <= f < g < |ms| ==> ms[f] < ms[g])
            && forall f :: 0 <= f < |ms| ==> ms[f] < i && Asked(states, steps, ms[f], forwards[f].tx)
  {
    RunInv(upstream, states, steps, i);
    QueriesIncrease(upstream, states, steps, i);
    forall f: nat | f < |states[i].ledger.forwards|
      ensures Asked(states, steps, AskedBy(states, steps, i)[f], states[i].ledger.forwards[f].tx)
    {
      ForwardWasAsked(upstream, states, steps, i, f);
    }
  }

  lemma {:induction false} ForwardWasAsked(upstream: Address, states: seq<State>, steps: seq<Step>, i: nat, f: nat)
    requires IsRun(upstream, states, steps) && i < |states| && f < |states[i].ledger.forwards|
    ensures f < |AskedBy(states, steps, i)| && AskedBy(states, steps, i)[f] < i
    ensures Asked(states, steps, AskedBy(states, steps, i)[f], states[i].ledger.forwards[f].tx)
  {
    if i > 0 {
      var j := i - 1;
      RunInv(upstream, states, steps, j);
      QueriesIncrease(upstream, states, steps, j);
      AskedStep(upstream, states, steps, j);
      var tx := states[i].ledger.forwards[f].tx;
      if f < |states[j].ledger.forwards| {
        ForwardWasAsked(upstream, states, steps, j, f);
        assert states[j].ledger.forwards[f].tx == tx && AskedBy(states, steps, i)[f] == AskedBy(states, steps, j)[f];
      } else {
        LoopLoadedThen(upstream, states, steps, j);
        AskedAtLoad(states, steps, j, tx);
      }
    }
  }

  lemma AskedAtLoad(states: seq<State>, steps: seq<Step>, i: nat, tx: Pending)
    requires i <= |steps| && |states| == |steps| + 1 && LoadedThen(states, steps, i) && GoodLoop(states[i])
    requires states[i].loop.GotGeneration? && LetsOn(states[i].loop.policy, states[i].loop.query)
    requires tx == TxFor(states[i].loop.query, states[i].loop.client, states[i].now)
    ensures states[i].loop.snapAt < i && Asked(states, steps, states[i].loop.snapAt, tx)
  {
  }

  lemma AcceptedStep(s: State, upstream: Address, step: Step, s': State)
    requires MachineInv(s) && IsStep(s, upstream, step, s')
    ensures || s'.ledger.accepted == s.ledger.accepted
            || (&& step.Response? && step.from == upstream && s'.loop.Validated? && s'.loop.response == step.buf
                && s'.ledger.accepted != [] && var a := s'.ledger.accepted[|s'.ledger.accepted| - 1];
                && s'.ledger.accepted == s.ledger.accepted + [a] && a.response == step.buf && a.tx == s'.loop.tx
                && a.forward < |s.ledger.forwards| && s.ledger.forwards[a.forward].tx == a.tx)
  {
  }

  lemma AskedStays(upstream: Address, states: seq<State>, steps: seq<Step>, i: nat, f: nat)
    requires IsRun(upstream, states, steps) && 0 < i < |states| && f < |AskedBy(states, steps, i - 1)|
    ensures f < |AskedBy(states, steps, i)| && AskedBy(states, steps, i)[f] == AskedBy(states, steps, i - 1)[f]
  {
  }

  lemma NewlyAccepted(s: State, upstream: Address, step: Step, s': State, k: nat)
    requires MachineInv(s) && IsStep(s, upstream, step, s') && k < |s'.ledger.accepted|
    ensures if k < |s.ledger.accepted| then s'.ledger.accepted[k] == s.ledger.accepted[k]
            else
              var a := s'.ledger.accepted[k];
              step == Response(a.response, upstream) && a.forward < |s.ledger.forwards|
              && s.ledger.forwards[a.forward].tx == a.tx
  {
    AcceptedStep(s, upstream, step, s');
  }

  /** In the first `i` steps a response came from upstream, after the query that
      the forward it answers stands for. */
  ghost predicate WasDelivered(upstream: Address, states: seq<State>, steps: seq<Step>, i: nat, a: Accepted)
    requires i <= |steps| < |states|
  {
    && a.forward < |AskedBy(states, steps, i)|
    && exists r: nat :: r < i && Delivered(upstream, states, steps, AskedBy(states, steps, i)[a.forward], r, a)
  }

  lemma DeliveredStays(upstream: Address, states: seq<State>, steps: seq<Step>, i: nat, a: Accepted)
    requires IsRun(upstream, states, steps) && i < |steps| && WasDelivered(upstream, states, steps, i, a)
    ensures WasDelivered(upstream, states, steps, i + 1, a)
  {
    var r: nat :| r < i && Delivered(upstream, states, steps, AskedBy(states, steps, i)[a.forward], r, a);
    AskedStays(upstream, states, steps, i + 1, a.forward);
  }

  lemma DeliveredNow(upstream: Address, states: seq<State>, steps: seq<Step>, i: nat, a: Accepted)
    requires IsRun(upstream, states, steps) && i < |steps| && steps[i] == Response(a.response, upstream)
    requires a.forward < |states[i].ledger.forwards| && states[i].ledger.forwards[a.forward].tx == a.tx
    ensures WasDelivered(upstream, states, steps, i + 1, a)
  {
    ForwardWasAsked(upstream, states, steps, i, a.forward);
    AskedStays(upstream, states, steps, i + 1, a.forward);
    assert Delivered(upstream, states, steps, AskedBy(states, steps, i)[a.forward], i, a);
  }

  lemma AcceptedNext(upstream: Address, states: seq<State>, steps: seq<Step>, i: nat, k: nat)
    requires IsRun(upstream, states, steps) && i < |steps| && k < |states[i + 1].ledger.accepted|
    ensures if k < |states[i].ledger.accepted|
            then states[i + 1].ledger.accepted[k] == states[i].ledger.accepted[k]
            else WasDelivered(upstream, states, steps, i + 1, states[i + 1].ledger.accepted[k])
  {
    RunInv(upstream, states, steps, i);
    NewlyAccepted(states[i], upstream, steps[i], states[i + 1], k);
    if k >= |states[i].ledger.accepted| {
      DeliveredNow(upstream, states, steps, i, states[i + 1].ledger.accepted[k]);
    }
  }

  /** Each accepted response came from upstream, after the query it answers. */
  lemma {:induction false} AcceptedWasDelivered(upstream: Address, states: seq<State>, steps: seq<Step>, i: nat, k: nat)
    requires IsRun(upstream, states, steps) && i < |states| && k < |states[i].ledger.accepted|
    ensures WasDelivered(upstream, states, steps, i, states[i].ledger.accepted[k])
  {
    if i > 0 {
      AcceptedNext(upstream, states, steps, i - 1, k);
      if k < |states[i - 1].ledger.accepted| {
        AcceptedWasDelivered(upstream, states, steps, i - 1, k);
        DeliveredStays(upstream, states, steps, i - 1, states[i].ledger.accepted[k]);
      }
    }
  }

  /** The responses among what was sent. */
  function ResolvedOf(outs: seq<Output>): seq<Output> {
    if outs == [] then []
    else
      var last := outs[|outs| - 1];
      ResolvedOf(outs[..|outs| - 1]) + (if last.Resolved? then [last] else [])
  }

  function AnswerFor(a: Accepted): Output {
    Resolved(a.tx.client, Responses.WithId(a.response, a.tx.clientId))
  }

  /** The loop holds an accepted response that it has not sent yet. */
  predicate Holding(s: State) {
    s.loop.Validated? || s.loop.GotTag?
  }

  /** The responses sent are the accepted ones in order, but for one in hand. */
  ghost predicate SentInOrder(sent: seq<Output>, s: State) {
    var accepted := s.ledger.accepted;
    && |sent| == |accepted| - (if Holding(s) then 1 else 0)
    && (Holding(s) ==> accepted[|accepted| - 1].tx == s.loop.tx && accepted[|accepted| - 1].response == s.loop.response)
    && forall k :: 0 <= k < |sent| ==> sent[k] == AnswerFor(accepted[k])
  }

  lemma HoldStep(s: State, upstream: Address, step: Step, s': State)
    requires MachineInv(s) && IsStep(s, upstream, step, s')
    ensures Holding(s') <==> (Holding(s) && !step.Keep?) || (s'.ledger.accepted != s.ledger.accepted)
    ensures Holding(s) && !step.Keep? ==> s'.loop.tx == s.loop.tx && s'.loop.response == s.loop.response
    ensures Holding(s) ==> s'.ledger.accepted == s.ledger.accepted
    ensures s'.output.Some? && s'.output.value.Resolved? <==> step.Keep?
    ensures step.Keep? ==>
              && Holding(s)
              && s'.output == Some(Resolved(s.loop.tx.client, Responses.WithId(s.loop.response, s.loop.tx.clientId)))
  {
  }

  function ResolvedIn(output: Option<Output>): seq<Output> {
    if output.Some? && output.value.Resolved? then [output.value] else []
  }

  lemma SentAtKeep(sent: seq<Output>, s: State, upstream: Address, step: Step, s': State)
    requires MachineInv(s) && IsStep(s, upstream, step, s') && SentInOrder(sent, s) && step.Keep?
    ensures SentInOrder(sent + ResolvedIn(s'.output), s')
  {
    HoldStep(s, upstream, step, s');
  }

  lemma SentAtAccepted(sent: seq<Output>, s: State, upstream: Address, step: Step, s': State)
    requires MachineInv(s) && IsStep(s, upstream, step, s') && SentInOrder(sent, s)
    requires s'.ledger.accepted != s.ledger.accepted
    ensures SentInOrder(sent, s') && ResolvedIn(s'.output) == []
  {
    AcceptedStep(s, upstream, step, s');
    HoldStep(s, upstream, step, s');
  }

  lemma SentStep(sent: seq<Output>, s: State, upstream: Address, step: Step, s': State)
    requires MachineInv(s) && IsStep(s, upstream, step, s') && SentInOrder(sent, s)
    ensures SentInOrder(sent + ResolvedIn(s'.output), s')
  {
    if step.Keep? {
      SentAtKeep(sent, s, upstream, step, s');
    } else if s'.ledger.accepted != s.ledger.accepted {
      SentAtAccepted(sent, s, upstream, step, s');
      assert sent + [] == sent;
    } else {
      HoldStep(s, upstream, step, s');
      assert sent + [] == sent;
    }
  }

  lemma ResolvedOfMore(outs: seq<Output>, out: Output)
    ensures ResolvedOf(outs + [out]) == ResolvedOf(outs) + (if out.Resolved? then [out] else [])
  {
    assert (outs + [out])[..|outs|] == outs;
  }

  lemma {:induction false} RunSendsInOrder(upstream: Address, states: seq<State>, steps: seq<Step>, i: nat)
    requires IsRun(upstream, states, steps) && i < |states|
    ensures SentInOrder(ResolvedOf(Outputs(states[..i + 1])), states[i])
  {
    if i == 0 {
      ResolvedStep(states, 0);
      assert states[..0] == [] && SentInOrder([], INIT);
    } else {
      RunSendsInOrder(upstream, states, steps, i - 1);
      RunInv(upstream, states, steps, i - 1);
      SendsNext(states, i, states[i - 1], upstream, steps[i - 1], states[i]);
    }
  }

  lemma SendsNext(states: seq<State>, i: nat, s: State, upstream: Address, step: Step, s': State)
    requires 0 < i < |states| && s' == states[i] && MachineInv(s) && IsStep(s, upstream, step, s')
    requires SentInOrder(ResolvedOf(Outputs(states[..i])), s)
    ensures SentInOrder(ResolvedOf(Outputs(states[..i + 1])), s')
  {
    ResolvedStep(states, i);
    SentStep(ResolvedOf(Outputs(states[..i])), s, upstream, step, s');
  }

  lemma ResolvedStep(states: seq<State>, i: nat)
    requires i < |states|
    ensures ResolvedOf(Outputs(states[..i + 1])) ==
              ResolvedOf(Outputs(states[..i])) + ResolvedIn(states[i].output)
  {
    assert states[..i + 1][..i] == states[..i] && states[..i + 1][i] == states[i];
    if states[i].output.Some? {
      ResolvedOfMore(Outputs(states[..i]), states[i].output.value);
    } else {
      assert Outputs(states[..i]) + [] == Outputs(states[..i]);
    }
  }

  /** Over a whole run the responses sent to clients answer, one to one and in
      order, accepted responses: each goes to the client that made its forward,
      under that client's id, came from upstream, and was asked for by an
      earlier query of that client, for that name and type, which the policy
      then active let on. No query is answered twice. */
  lemma EveryAnswerWasAsked(upstream: Address, states: seq<State>, steps: seq<Step>)
    requires IsRun(upstream, states, steps)
    ensures var sent, l := ResolvedOf(Outputs(states)), states[|steps|].ledger;
            var asked := AskedBy(states, steps, |steps|);
            && |sent| <= |l.accepted| && |asked| == |l.forwards|
            && (forall k :: 0 <= k < |sent| ==>
                  var a := l.accepted[k];
                  && a.forward < |l.forwards| && l.forwards[a.forward].tx == a.tx && sent[k] == AnswerFor(a)
                  && Parse(a.response).Ok? && Matches(Parse(a.response).value.question, a.tx)
                  && WasDelivered(upstream, states, steps, |steps|, a))
            && (forall j, k :: 0 <= j < k < |sent| ==> asked[l.accepted[j].forward] != asked[l.accepted[k].forward])
  {
    var n := |steps|;
    RunInv(upstream, states, steps, n);
    RunSendsInOrder(upstream, states, steps, n);
    ForwardsWereAsked(upstream, states, steps, n);
    assert states[..n + 1] == states;
    forall k | 0 <= k < |states[n].ledger.accepted|
      ensures WasDelivered(upstream, states, steps, n, states[n].ledger.accepted[k])
    {
      AcceptedWasDelivered(upstream, states, steps, n, k);
    }
  }

  /** At a Keep step the response in hand goes to the client and to the cache. */
  lemma KeepStep(s: State, upstream: Address, step: Step, s': State)
    requires IsStep(s, upstream, step, s') && step.Keep?
    ensures s'.output == Some(Resolved(s.loop.tx.client, Responses.WithId(s.loop.response, s.loop.tx.clientId)))
    ensures IsKept(s'.items, s.loop.tx, s.loop.response, s.loop.generation, s.now)
  {
  }

  /** A response is stored for sixty seconds under its name and type and class 1. */
  predicate IsKept(items: Cache.List<Cache.Item>, tx: Pending, response: Bytes, generation: nat, now: int) {
    var key := Cache.MakeKey(tx.qname, tx.qtype, 1);
    Cache.Get(items, key) == Some(Cache.Item(key, response, now + 60_000_000_000, generation))
  }

  /** What the loop is about to send is the latest accepted response, which came
      from upstream; it goes to the client of the forward it answers, and to the
      cache under that client's name and type. */
  lemma ResolvedGoesToItsClient(upstream: Address, states: seq<State>, steps: seq<Step>, i: nat)
    requires IsRun(upstream, states, steps) && i < |steps| && steps[i].Keep?
    ensures var l, s, s' := states[i].ledger, states[i], states[i + 1];
            && l.accepted != [] && var a := l.accepted[|l.accepted| - 1];
            && a.forward < |l.forwards| && var tx := l.forwards[a.forward].tx;
            && s'.output == Some(Resolved(tx.client, Responses.WithId(a.response, tx.clientId)))
            && WasDelivered(upstream, states, steps, i, a)
            && IsKept(s'.items, tx, a.response, s.loop.generation, s.now)
  {
    RunInv(upstream, states, steps, i);
    RunSendsInOrder(upstream, states, steps, i);
    var s, last := states[i], |states[i].ledger.accepted| - 1;
    assert Holding(s) && last >= 0;
    var a := s.ledger.accepted[last];
    assert a.forward < |s.ledger.forwards| && s.ledger.forwards[a.forward].tx == a.tx == s.loop.tx;
    KeepStep(s, upstream, steps[i], states[i + 1]);
    AcceptedWasDelivered(upstream, states, steps, i, last);
  }

  // ---------------------------------------------------------------------
  // What becomes of a forward
  // ---------------------------------------------------------------------

  /** A step that takes the entry under `id` out of the table: a datagram that
      calls for it, or a forward 2001 ms after it, or later. */
  predicate Settles(s: State, upstream: Address, step: Step, id: U16, tx: Pending) {
    match step
    case Response(buf, from) => CallsFor(buf, from, upstream, id)
    case Act(_, _) =>
      && s.loop.GotGeneration? && LetsOn(s.loop.policy, s.loop.query)
      && Cache.Hit(s.items, QuestionKey(s.loop.query), s.now, s.loop.generation).None?
      && s.now - tx.timestamp >= 2_001_000_000
    case _ => false
  }

  lemma EntryAtAct(s: State, upstream: Address, step: Step, s': State, id: U16, tx: Pending)
    requires IsStep(s, upstream, step, s') && step.Act? && id in s.ledger.pending && s.ledger.pending[id] == tx
    ensures id in s'.ledger.pending && s'.ledger.pending[id] == tx <==> !Settles(s, upstream, step, id, tx)
  {
    ForwardIsExact(s.ledger, upstream, TxFor(s.loop.query, s.loop.client, s.now), step.txid, step.sent);
  }

  /** And no other step does. */
  lemma EntryStep(s: State, upstream: Address, step: Step, s': State, id: U16, tx: Pending)
    requires IsStep(s, upstream, step, s') && id in s.ledger.pending && s.ledger.pending[id] == tx
    ensures id in s'.ledger.pending && s'.ledger.pending[id] == tx <==> !Settles(s, upstream, step, id, tx)
  {
    match step
    case Act(_, _) => EntryAtAct(s, upstream, step, s', id, tx);
    case Response(buf, from) => ResponseIsExact(s.ledger, upstream, buf, from);
    case _ =>
  }

  /** A forward stays in the table, unchanged, until such a step. */
  lemma {:induction false} EntryStays(upstream: Address, states: seq<State>, steps: seq<Step>, i: nat, j: nat,
                                      id: U16, tx: Pending)
    requires IsRun(upstream, states, steps) && i <= j < |states|
    requires id in states[i].ledger.pending && states[i].ledger.pending[id] == tx
    requires forall m :: i <= m < j ==> !Settles(states[m], upstream, steps[m], id, tx)
    ensures id in states[j].ledger.pending && states[j].ledger.pending[id] == tx
  {
    if i < j {
      EntryStays(upstream, states, steps, i, j - 1, id, tx);
      EntryStep(states[j - 1], upstream, steps[j - 1], states[j], id, tx);
    }
  }

  /** The loop has a response in hand that came at step `i`, with the generation
      of a later load, if it has made that. */
  ghost predicate IsUnderWay(states: seq<State>, steps: seq<Step>, i: nat, j: nat, tx: Pending, response: Bytes)
    requires j <= |steps| < |states|
  {
    match states[j].loop
    case Validated(x, b) => x == tx && b == response
    case GotTag(x, b, generation) =>
      && x == tx && b == response
      && exists a: nat :: i < a < j && steps[a].LoadTag? && states[a].generation == generation
    case _ => false
  }

  lemma UnderWayNext(upstream: Address, states: seq<State>, steps: seq<Step>, i: nat, j: nat, tx: Pending,
                     response: Bytes)
    requires i < j < |steps| && |states| == |steps| + 1 && IsStep(states[j], upstream, steps[j], states[j + 1])
    requires IsUnderWay(states, steps, i, j, tx, response) && !steps[j].Keep?
    ensures IsUnderWay(states, steps, i, j + 1, tx, response)
  {
  }

  lemma AnswerStep(s: State, upstream: Address, step: Step, s': State)
    requires MachineInv(s) && IsStep(s, upstream, step, s') && step.Response?
    ensures forall id :: id in s.ledger.pending && IsAnswer(step.buf, step.from, upstream, id, s.ledger.pending[id]) ==>
              s'.loop == Validated(s.ledger.pending[id], step.buf)
    ensures (forall id :: id in s.ledger.pending ==> !IsAnswer(step.buf, step.from, upstream, id, s.ledger.pending[id]))
            ==> s'.loop == Waiting && s'.output == None
  {
    VerdictIsExact(s.ledger, upstream, step.buf, step.from);
  }

  /** The response goes to the client of the entry under that client's id, and to
      the cache under the generation loaded. */
  ghost predicate IsSentAt(states: seq<State>, steps: seq<Step>, i: nat, m: nat, tx: Pending, response: Bytes)
    requires m < |steps| < |states|
  {
    && steps[m].Keep? && states[m + 1].output == Some(Resolved(tx.client, Responses.WithId(response, tx.clientId)))
    && exists a: nat :: i < a < m && steps[a].LoadTag?
                        && IsKept(states[m + 1].items, tx, response, states[a].generation, states[m].now)
  }

  lemma SentNow(upstream: Address, states: seq<State>, steps: seq<Step>, i: nat, m: nat, tx: Pending, response: Bytes)
    requires i < m < |steps| && |states| == |steps| + 1 && IsStep(states[m], upstream, steps[m], states[m + 1])
    requires IsUnderWay(states, steps, i, m, tx, response) && steps[m].Keep?
    ensures IsSentAt(states, steps, i, m, tx, response)
  {
    KeepStep(states[m], upstream, steps[m], states[m + 1]);
  }

  /** The response that came at step `i` is still in hand, or has been sent. */
  ghost predicate IsAnswering(states: seq<State>, steps: seq<Step>, i: nat, j: nat, tx: Pending, response: Bytes)
    requires j <= |steps| < |states|
  {
    || IsUnderWay(states, steps, i, j, tx, response)
    || exists m: nat :: i < m < j && IsSentAt(states, steps, i, m, tx, response)
  }

  lemma AnswerNext(upstream: Address, states: seq<State>, steps: seq<Step>, i: nat, j: nat, tx: Pending, buf: Bytes)
    requires IsRun(upstream, states, steps) && i < j < |steps| && IsAnswering(states, steps, i, j, tx, buf)
    ensures IsAnswering(states, steps, i, j + 1, tx, buf)
  {
    if IsUnderWay(states, steps, i, j, tx, buf) {
      if steps[j].Keep? {
        SentNow(upstream, states, steps, i, j, tx, buf);
      } else {
        UnderWayNext(upstream, states, steps, i, j, tx, buf);
      }
    }
  }

  /** An answer to a pending entry is in hand until a Keep step sends it to the
      client of that entry. */
  lemma {:induction false} AnswerIsSent(upstream: Address, states: seq<State>, steps: seq<Step>, i: nat, j: nat,
                                        id: U16, tx: Pending, buf: Bytes)
    requires IsRun(upstream, states, steps) && i < j < |states| && steps[i].Response? && steps[i].buf == buf
    requires id in states[i].ledger.pending && states[i].ledger.pending[id] == tx
    requires IsAnswer(buf, steps[i].from, upstream, id, tx)
    ensures IsAnswering(states, steps, i, j, tx, buf)
  {
    if j == i + 1 {
      RunInv(upstream, states, steps, i);
      AnswerStep(states[i], upstream, steps[i], states[j]);
    } else {
      AnswerIsSent(upstream, states, steps, i, j - 1, id, tx, buf);
      AnswerNext(upstream, states, steps, i, j - 1, tx, buf);
    }
  }

  /** An entry is its forward's: the client answered is the one that asked. */
  lemma EntryIsForwards(upstream: Address, states: seq<State>, steps: seq<Step>, i: nat, id: U16)
    requires IsRun(upstream, states, steps) && i < |states| && id in states[i].ledger.pending
    ensures var l := states[i].ledger;
            && id in l.origin && l.origin[id] < |l.forwards| && l.forwards[l.origin[id]] == Forwarded(id, l.pending[id])
            && l.origin[id] < |AskedBy(states, steps, i)| && AskedBy(states, steps, i)[l.origin[id]] < i
            && Asked(states, steps, AskedBy(states, steps, i)[l.origin[id]], l.pending[id])
  {
    RunInv(upstream, states, steps, i);
    ForwardWasAsked(upstream, states, steps, i, states[i].ledger.origin[id]);
  }

  // ---------------------------------------------------------------------
  // The cache over a run
  // ---------------------------------------------------------------------

  /** What a step does to the cache, if anything. */
  function CacheOp(s: State, step: Step): Option<Cache.Op> {
    match step
    case Act(_, _) =>
      if s.loop.GotGeneration? && LetsOn(s.loop.policy, s.loop.query)
      then Some(Cache.Lookup(QuestionKey(s.loop.query), s.now, s.loop.generation)) else None
    case Keep =>
      if s.loop.GotTag?
      then Some(Cache.Insert(Cache.MakeKey(s.loop.tx.qname, s.loop.tx.qtype, 1), s.loop.response, CACHE_TTL, s.now,
                             s.loop.generation))
      else None
    case _ => None
  }

  /** The operations on the cache in the first `i` steps of a run. */
  function CacheHistory(states: seq<State>, steps: seq<Step>, i: nat): seq<Cache.Op>
    requires i <= |steps| < |states|
  {
    if i == 0 then []
    else
      var op := CacheOp(states[i - 1], steps[i - 1]);
      CacheHistory(states, steps, i - 1) + (if op.Some? then [op.value] else [])
  }

  lemma CacheStep(s: State, upstream: Address, step: Step, s': State)
    requires IsStep(s, upstream, step, s')
    ensures var op := CacheOp(s, step);
            s'.items == if op.Some? then Cache.Step(s.items, CAPACITY, op.value) else s.items
  {
  }

  /** The cache of a run is the cache after its own history of operations, so
      all that is proved of histories holds of runs. */
  lemma {:induction false} CacheIsItsHistory(upstream: Address, states: seq<State>, steps: seq<Step>, i: nat)
    requires IsRun(upstream, states, steps) && i <= |steps|
    ensures states[i].items == Cache.Run(10000, CacheHistory(states, steps, i))
  {
    if i > 0 {
      var j := i - 1;
      CacheIsItsHistory(upstream, states, steps, j);
      CacheStep(states[j], upstream, steps[j], states[i]);
      var op := CacheOp(states[j], steps[j]);
      if op.Some? {
        Cache.RunStep(CAPACITY, CacheHistory(states, steps, j), op.value);
      } else {
        assert CacheHistory(states, steps, j) + [] == CacheHistory(states, steps, j);
      }
    }
  }

  /** Every insertion in the history is a response the loop kept at some step. */
  lemma {:induction false} InsertWasKept(states: seq<State>, steps: seq<Step>, i: nat, k: nat)
    requires i <= |steps| < |states| && k < |CacheHistory(states, steps, i)|
    requires CacheHistory(states, steps, i)[k].Insert?
    ensures exists m :: 0 <= m < i && steps[m].Keep? && states[m].loop.GotTag?
                        && CacheOp(states[m], steps[m]) == Some(CacheHistory(states, steps, i)[k])
  {
    var before := CacheHistory(states, steps, i - 1);
    if k < |before| {
      InsertWasKept(states, steps, i - 1, k);
    } else {
      assert CacheOp(states[i - 1], steps[i - 1]) == Some(CacheHistory(states, steps, i)[k]);
    }
  }

  /** Every answer from the cache is a response that came from upstream, was
      kept less than sixty seconds before, and was tagged with the generation
      at which the query is answered. */
  lemma HitWasResolved(upstream: Address, states: seq<State>, steps: seq<Step>, i: nat)
    requires IsRun(upstream, states, steps) && i < |steps| && steps[i].Act?
    requires states[i + 1].output.value.Hit?
    ensures exists r: nat, m: nat ::
              && r < m < i && steps[r] == Response(states[i + 1].output.value.item.response, upstream)
              && steps[m].Keep? && states[m].loop.GotTag?
              && states[m].loop.response == states[i + 1].output.value.item.response
              && states[m].loop.generation == states[i].loop.generation
              && states[i].now < states[m].now + 60_000_000_000
  {
    var m := HitWasKept(upstream, states, steps, i);
    RunSendsInOrder(upstream, states, steps, m);
    var last := |states[m].ledger.accepted| - 1;
    AcceptedWasDelivered(upstream, states, steps, m, last);
    var a := states[m].ledger.accepted[last];
    var r: nat :| r < m && Delivered(upstream, states, steps, AskedBy(states, steps, m)[a.forward], r, a);
    assert r < m < i && steps[m].Keep?;
  }

  /** A hit comes from an insertion in the history. */
  lemma HitWasInserted(h: seq<Cache.Op>, key: string, now: int, generation: nat) returns (k: nat)
    requires Cache.Hit(Cache.Run(CAPACITY, h), key, now, generation).Some?
    ensures k < |h| && h[k].Insert? && h[k].generation == generation
    ensures h[k].response == Cache.Hit(Cache.Run(CAPACITY, h), key, now, generation).value.response
    ensures Cache.InTime(h[k], now, generation)
  {
    Cache.HitServesLastInsert(CAPACITY, h, key, now, generation);
    k :| && Cache.LastInsert(h, key, k)
         && Cache.Hit(Cache.Run(CAPACITY, h), key, now, generation).value.response == h[k].response
         && Cache.InTime(h[k], now, generation);
  }

  lemma HitIsStored(s: State, upstream: Address, step: Step, s': State)
    requires IsStep(s, upstream, step, s') && step.Act? && s'.output.value.Hit?
    ensures Cache.Hit(s.items, QuestionKey(s.loop.query), s.now, s.loop.generation) == Some(s'.output.value.item)
  {
  }

  lemma HitWasKept(upstream: Address, states: seq<State>, steps: seq<Step>, i: nat) returns (m: nat)
    requires IsRun(upstream, states, steps) && i < |steps| && steps[i].Act?
    requires states[i + 1].output.value.Hit?
    ensures m < i && steps[m].Keep? && states[m].loop.GotTag?
            && states[m].loop.response == states[i + 1].output.value.item.response
            && states[m].loop.generation == states[i].loop.generation
            && states[i].now < states[m].now + 60_000_000_000
  {
    var s := states[i];
    var h := CacheHistory(states, steps, i);
    HitIsStored(s, upstream, steps[i], states[i + 1]);
    CacheIsItsHistory(upstream, states, steps, i);
    var k := HitWasInserted(h, QuestionKey(s.loop.query), s.now, s.loop.generation);
    InsertWasKept(states, steps, i, k);
    m :| 0 <= m < i && steps[m].Keep? && states[m].loop.GotTag? && CacheOp(states[m], steps[m]) == Some(h[k]);
  }
}
