/** The response cache (dataplane/src/engine/cache.cpp).

    A hash table and a recency list tied together by stored iterators are
    proved to be one list of items in order of use, and that list to keep
    every entry until it runs out, is outdated or is crowded out. */
module Cache {
  import opened Text
  import opened Wire
  import Decimal

  const NANOS_PER_SECOND := 1_000_000_000

  // ---------------------------------------------------------------------
  // Keys
  // ---------------------------------------------------------------------

  function MakeKey(name: string, qtype: U16, qclass: U16): string {
    name + ":" + Decimal.Print(qtype) + ":" + Decimal.Print(qclass)
  }

  lemma LastColon(a: string, b: string, c: string, d: string)
    requires a + ":" + b == c + ":" + d
    requires ':' !in b && ':' !in d
    ensures a == c && b == d
  {
    var s := a + ":" + b;
    assert s[|a|] == ':' && s[|c|] == ':';
    forall i | |a| < i < |s| ensures s[i] != ':' { assert s[i] == b[i - |a| - 1]; }
    forall i | |c| < i < |s| ensures s[i] != ':' { assert s[i] == d[i - |c| - 1]; }
    assert a == s[..|a|] && c == s[..|c|];
    assert b == s[|a| + 1..] && d == s[|c| + 1..];
  }

  /** Different questions have different keys, whatever colons a name holds. */
  lemma MakeKeyInjective(name: string, qtype: U16, qclass: U16, name': string, qtype': U16, qclass': U16)
    ensures MakeKey(name, qtype, qclass) == MakeKey(name', qtype', qclass') <==>
            name == name' && qtype == qtype' && qclass == qclass'
  {
    if MakeKey(name, qtype, qclass) == MakeKey(name', qtype', qclass') {
      LastColon(name + ":" + Decimal.Print(qtype), Decimal.Print(qclass),
                name' + ":" + Decimal.Print(qtype'), Decimal.Print(qclass'));
      LastColon(name, Decimal.Print(qtype), name', Decimal.Print(qtype'));
      Decimal.PrintInjective(qtype, qtype');
      Decimal.PrintInjective(qclass, qclass');
    }
  }

  // ---------------------------------------------------------------------
  // The list of items in order of use, latest first
  // ---------------------------------------------------------------------

  datatype List<+T> = Nil | Cons(head: T, tail: List<T>)

  function Length<T>(l: List<T>): nat {
    match l
    case Nil => 0
    case Cons(_, tail) => 1 + Length(tail)
  }

  function ButLast<T>(l: List<T>): List<T>
    requires l.Cons?
  {
    if l.tail.Nil? then Nil else Cons(l.head, ButLast(l.tail))
  }

  function Last<T>(l: List<T>): T
    requires l.Cons?
  {
    if l.tail.Nil? then l.head else Last(l.tail)
  }

  datatype Item = Item(key: string, response: Bytes, expiresAt: int, generation: nat)

  function Keys(items: List<Item>): set<string> {
    match items
    case Nil => {}
    case Cons(head, tail) => {head.key} + Keys(tail)
  }

  predicate Distinct(items: List<Item>) {
    items.Cons? ==> items.head.key !in Keys(items.tail) && Distinct(items.tail)
  }

  function Get(items: List<Item>, key: string): Option<Item> {
    match items
    case Nil => None
    case Cons(head, tail) => if head.key == key then Some(head) else Get(tail, key)
  }

  function Without(items: List<Item>, key: string): List<Item> {
    match items
    case Nil => Nil
    case Cons(head, tail) => if head.key == key then tail else Cons(head, Without(tail, key))
  }

  function ClampTtl(ttl: U32): U32 {
    if ttl < 1 then 1 else if ttl > 86400 then 86400 else ttl
  }

  function Stored(key: string, response: Bytes, ttl: U32, now: int, generation: nat): Item {
    Item(key, response, now + ClampTtl(ttl) * NANOS_PER_SECOND, generation)
  }

  /** An item may be served at a time and under a policy generation. */
  predicate Fresh(item: Item, now: int, generation: nat) {
    now < item.expiresAt && item.generation == generation
  }

  function Hit(items: List<Item>, key: string, now: int, generation: nat): Option<Item> {
    var r := Get(items, key);
    if r.Some? && Fresh(r.value, now, generation) then r else None
  }

  /** A lookup serves a fresh item and moves it to the front; an item that is
      not fresh is dropped. */
  function Looked(items: List<Item>, key: string, now: int, generation: nat): List<Item> {
    var r := Hit(items, key, now, generation);
    if r.Some? then Cons(r.value, Without(items, key)) else Without(items, key)
  }

  /** An insertion puts the item in front, in place of an older one of its key
      or, in a full list, of the one used longest ago. */
  function Inserted(items: List<Item>, capacity: nat, item: Item): List<Item>
    requires capacity >= 1
  {
    if item.key in Keys(items) then Cons(item, Without(items, item.key))
    else if Length(items) >= capacity && items.Cons? then Cons(item, ButLast(items))
    else Cons(item, items)
  }

  lemma {:induction false} GetIsMember(items: List<Item>, key: string)
    ensures Get(items, key).Some? <==> key in Keys(items)
    ensures Get(items, key).Some? ==> Get(items, key).value.key == key
  {
    if items.Cons? { GetIsMember(items.tail, key); }
  }

  lemma {:induction false} WithoutFacts(items: List<Item>, key: string)
    requires Distinct(items)
    ensures Distinct(Without(items, key)) && Keys(Without(items, key)) == Keys(items) - {key}
    ensures Length(Without(items, key)) == if key in Keys(items) then Length(items) - 1 else Length(items)
    ensures forall k :: k != key ==> Get(Without(items, key), k) == Get(items, k)
  {
    if items.Cons? {
      WithoutFacts(items.tail, key);
      forall k | k != key ensures Get(Without(items, key), k) == Get(items, k) {}
    }
  }

  lemma {:induction false} WithoutAbsent(items: List<Item>, key: string)
    requires key !in Keys(items)
    ensures Without(items, key) == items && Get(items, key).None?
  {
    if items.Cons? { WithoutAbsent(items.tail, key); }
  }

  lemma {:induction false} ButLastFacts(items: List<Item>)
    requires items.Cons? && Distinct(items)
    ensures Distinct(ButLast(items)) && Keys(ButLast(items)) == Keys(items) - {Last(items).key}
    ensures Last(items).key in Keys(items)
    ensures Length(ButLast(items)) == Length(items) - 1
    ensures forall k :: k != Last(items).key ==> Get(ButLast(items), k) == Get(items, k)
  {
    if items.tail.Cons? {
      ButLastFacts(items.tail);
    }
  }

  // ---------------------------------------------------------------------
  // Histories
  // ---------------------------------------------------------------------

  datatype Op =
    | Lookup(key: string, now: int, generation: nat)
    | Insert(key: string, response: Bytes, ttl: U32, now: int, generation: nat)

  function StoredBy(op: Op): Item
    requires op.Insert?
  {
    Stored(op.key, op.response, op.ttl, op.now, op.generation)
  }

  function Step(items: List<Item>, capacity: nat, op: Op): List<Item>
    requires capacity >= 1
  {
    match op
    case Lookup(key, now, generation) => Looked(items, key, now, generation)
    case Insert(_, _, _, _, _) => Inserted(items, capacity, StoredBy(op))
  }

  function Run(capacity: nat, h: seq<Op>): List<Item>
    requires capacity >= 1
  {
    if h == [] then Nil else Step(Run(capacity, h[..|h| - 1]), capacity, h[|h| - 1])
  }

  lemma RunStep(capacity: nat, h: seq<Op>, op: Op)
    requires capacity >= 1
    ensures Run(capacity, h + [op]) == Step(Run(capacity, h), capacity, op)
  {
    assert (h + [op])[..|h|] == h;
  }

  /** Whether an operation brings its key to the front. */
  predicate Touches(items: List<Item>, op: Op) {
    op.Insert? || Hit(items, op.key, op.now, op.generation).Some?
  }

  /** The other keys brought to the front since `key` last was. */
  function Since(capacity: nat, h: seq<Op>, key: string): set<string>
    requires capacity >= 1
  {
    if h == [] then {}
    else
      var before, op := h[..|h| - 1], h[|h| - 1];
      if !Touches(Run(capacity, before), op) then Since(capacity, before, key)
      else if op.key == key then {}
      else Since(capacity, before, key) + {op.key}
  }

  lemma SinceStep(capacity: nat, h: seq<Op>, op: Op, key: string)
    requires capacity >= 1
    ensures Since(capacity, h + [op], key) ==
              if !Touches(Run(capacity, h), op) then Since(capacity, h, key)
              else if op.key == key then {} else Since(capacity, h, key) + {op.key}
  {
    assert (h + [op])[..|h|] == h;
  }

  /** What one step does to the items, key by key: the touched key is in front,
      an insertion into a full list drops the last item, and a lookup that does
      not hit drops its own. */
  lemma StepFacts(items: List<Item>, capacity: nat, op: Op)
    requires capacity >= 1 && Distinct(items) && Length(items) <= capacity
    ensures var items' := Step(items, capacity, op);
            && Distinct(items') && Length(items') <= capacity
            && (Touches(items, op) <==> op.key in Keys(items'))
            && Get(items', op.key) ==
                 (if op.Insert? then Some(StoredBy(op)) else Hit(items, op.key, op.now, op.generation))
            && (forall k :: k in Keys(items) && k != op.key ==>
                  if op.Insert? && op.key !in Keys(items) && Length(items) == capacity && k == Last(items).key
                  then k !in Keys(items')
                  else k in Keys(items') && Get(items', k) == Get(items, k))
            && (forall k :: k in Keys(items') ==> k in Keys(items) || k == op.key)
  {
    GetIsMember(items, op.key);
    WithoutFacts(items, op.key);
    if items.Cons? { ButLastFacts(items); }
    var items' := Step(items, capacity, op);
    forall k ensures Get(items', k).Some? <==> k in Keys(items') { GetIsMember(items', k); }
    forall k ensures Get(items, k).Some? <==> k in Keys(items) { GetIsMember(items, k); }
  }

  lemma {:induction false} RunKeepsOrder(capacity: nat, h: seq<Op>)
    requires capacity >= 1
    ensures Distinct(Run(capacity, h)) && Length(Run(capacity, h)) <= capacity
  {
    if h != [] {
      RunKeepsOrder(capacity, h[..|h| - 1]);
      StepFacts(Run(capacity, h[..|h| - 1]), capacity, h[|h| - 1]);
    }
  }

  /** The keys in front of a key. */
  function InFront(items: List<Item>, key: string): set<string> {
    match items
    case Nil => {}
    case Cons(head, tail) => if head.key == key then {} else {head.key} + InFront(tail, key)
  }

  lemma {:induction false} InFrontOfWithout(items: List<Item>, dropped: string, key: string)
    requires key != dropped
    ensures InFront(Without(items, dropped), key) <= InFront(items, key)
  {
    if items.Cons? { InFrontOfWithout(items.tail, dropped, key); }
  }

  lemma {:induction false} InFrontOfButLast(items: List<Item>, key: string)
    requires items.Cons?
    ensures InFront(ButLast(items), key) <= InFront(items, key)
  {
    if items.tail.Cons? { InFrontOfButLast(items.tail, key); }
  }

  lemma {:induction false} InFrontOfLast(items: List<Item>)
    requires items.Cons? && Distinct(items)
    ensures |InFront(items, Last(items).key)| == Length(items) - 1
    ensures InFront(items, Last(items).key) <= Keys(items)
  {
    if items.tail.Cons? {
      InFrontOfLast(items.tail);
      ButLastFacts(items.tail);
    }
  }

  /** Every key in front of a key has been used since that key was. */
  lemma {:induction false} FrontIsSince(capacity: nat, h: seq<Op>, key: string)
    requires capacity >= 1 && key in Keys(Run(capacity, h))
    ensures InFront(Run(capacity, h), key) <= Since(capacity, h, key)
  {
    assert h != [];
    var before, op := h[..|h| - 1], h[|h| - 1];
    var items := Run(capacity, before);
    RunKeepsOrder(capacity, before);
    StepFacts(items, capacity, op);
    GetIsMember(items, op.key);
    if key != op.key {
      FrontIsSince(capacity, before, key);
      InFrontOfWithout(items, op.key, key);
      InFrontOfButLast(items, key);
    } else {
      assert InFront(Run(capacity, h), key) == {};
    }
  }

  lemma {:induction false} SinceOmits(capacity: nat, h: seq<Op>, key: string)
    requires capacity >= 1
    ensures key !in Since(capacity, h, key)
  {
    if h != [] { SinceOmits(capacity, h[..|h| - 1], key); }
  }

  lemma NoFewer(a: set<string>, b: set<string>)
    requires a <= b
    ensures |a| <= |b|
  {
    assert b == a + (b - a);
  }

  /** A key leaves the cache only by a lookup that finds it expired or
      outdated, or by an insertion of another key after at least `capacity`
      different other keys have been inserted or hit since its last use. */
  lemma SurvivesUntilCrowdedOut(capacity: nat, h: seq<Op>, op: Op, key: string)
    requires capacity >= 1
    requires key in Keys(Run(capacity, h)) && key !in Keys(Run(capacity, h + [op]))
    ensures op.key == key ==> op.Lookup? && Hit(Run(capacity, h), key, op.now, op.generation).None?
    ensures op.key != key ==>
              op.Insert? && key !in Since(capacity, h + [op], key) && |Since(capacity, h + [op], key)| >= capacity
  {
    var items := Run(capacity, h);
    RunStep(capacity, h, op);
    RunKeepsOrder(capacity, h);
    StepFacts(items, capacity, op);
    if op.key != key {
      FrontIsSince(capacity, h, key);
      SinceOmits(capacity, h + [op], key);
      SinceStep(capacity, h, op, key);
      InFrontOfLast(items);
      NoFewer(InFront(items, key) + {op.key}, Since(capacity, h + [op], key));
    }
  }

  /** Insertion `k` is the last one of `key`. */
  ghost predicate LastInsert(h: seq<Op>, key: string, k: nat) {
    && k < |h| && h[k].Insert? && h[k].key == key
    && forall m :: k < m < |h| && h[m].Insert? ==> h[m].key != key
  }

  lemma LastInsertStep(before: seq<Op>, op: Op, key: string, k: nat)
    requires k < |before|
    ensures LastInsert(before + [op], key, k) <==> LastInsert(before, key, k) && (op.Insert? ==> op.key != key)
    ensures (before + [op])[k] == before[k]
  {
    var h := before + [op];
    assert h[k] == before[k] && h[|before|] == op;
    if LastInsert(h, key, k) {
      forall m | k < m < |before| && before[m].Insert? ensures before[m].key != key { assert h[m] == before[m]; }
    }
  }

  /** Whatever is in the cache is what the last insertion of its key stored. */
  lemma {:induction false} ItemsAreLastInserts(capacity: nat, h: seq<Op>, key: string)
    requires capacity >= 1 && key in Keys(Run(capacity, h))
    ensures exists k: nat :: LastInsert(h, key, k) && Get(Run(capacity, h), key) == Some(StoredBy(h[k]))
  {
    assert h != [];
    var before, op := h[..|h| - 1], h[|h| - 1];
    var items := Run(capacity, before);
    assert h == before + [op];
    RunKeepsOrder(capacity, before);
    StepFacts(items, capacity, op);
    GetIsMember(items, key);
    if op.Insert? && op.key == key {
      assert LastInsert(h, key, |before|);
    } else {
      ItemsAreLastInserts(capacity, before, key);
      var k: nat :| LastInsert(before, key, k) && Get(items, key) == Some(StoredBy(before[k]));
      LastInsertStep(before, op, key, k);
    }
  }

  lemma LastInsertUnique(h: seq<Op>, key: string, j: nat, k: nat)
    requires LastInsert(h, key, j) && LastInsert(h, key, k)
    ensures j == k
  {
  }

  /** The seconds an insertion is kept: its time to live, but one for none and a
      day for more. */
  function SecondsKept(ttl: U32): nat {
    if ttl == 0 then 1 else if ttl > 86400 then 86400 else ttl
  }

  /** Before the time of an insertion has run out, and under its generation. */
  predicate InTime(op: Op, now: int, generation: nat)
    requires op.Insert?
  {
    now < op.now + SecondsKept(op.ttl) * 1_000_000_000 && generation == op.generation
  }

  /** A hit serves the response of the last insertion of its key, before that
      insertion's time has run out and under its generation only. */
  lemma HitServesLastInsert(capacity: nat, h: seq<Op>, key: string, now: int, generation: nat)
    requires capacity >= 1 && Hit(Run(capacity, h), key, now, generation).Some?
    ensures exists k: nat ::
              && LastInsert(h, key, k)
              && Hit(Run(capacity, h), key, now, generation).value.response == h[k].response
              && InTime(h[k], now, generation)
  {
    GetIsMember(Run(capacity, h), key);
    ItemsAreLastInserts(capacity, h, key);
  }

  /** Nothing has happened since insertion `k` that may drop its entry: no
      lookup of it out of time or generation, never `capacity` others in a row. */
  ghost predicate Undisturbed(capacity: nat, h: seq<Op>, key: string, k: nat)
    requires capacity >= 1
  {
    && LastInsert(h, key, k)
    && (forall m :: k < m < |h| && h[m].Lookup? && h[m].key == key ==>
          InTime(h[k], h[m].now, h[m].generation))
    && (forall m :: k < m <= |h| ==> |Since(capacity, h[..m], key)| < capacity)
  }

  lemma UndisturbedBefore(capacity: nat, before: seq<Op>, op: Op, key: string, k: nat)
    requires capacity >= 1 && k < |before| && Undisturbed(capacity, before + [op], key, k)
    ensures Undisturbed(capacity, before, key, k)
    ensures |Since(capacity, before + [op], key)| < capacity
  {
    var h := before + [op];
    LastInsertStep(before, op, key, k);
    assert h[..|h|] == h;
    forall m | k < m < |before| && before[m].Lookup? && before[m].key == key
      ensures InTime(before[k], before[m].now, before[m].generation)
    {
      assert h[m] == before[m];
    }
    forall m | k < m <= |before| ensures |Since(capacity, before[..m], key)| < capacity {
      assert before[..m] == h[..m];
    }
  }

  /** An undisturbed entry is still stored. */
  lemma {:induction false} UndisturbedIsServed(capacity: nat, h: seq<Op>, key: string, k: nat)
    requires capacity >= 1 && Undisturbed(capacity, h, key, k)
    ensures Get(Run(capacity, h), key) == Some(StoredBy(h[k]))
  {
    var before, op := h[..|h| - 1], h[|h| - 1];
    assert before + [op] == h;
    RunKeepsOrder(capacity, before);
    StepFacts(Run(capacity, before), capacity, op);
    if k < |before| {
      UndisturbedBefore(capacity, before, op, key, k);
      UndisturbedIsServed(capacity, before, key, k);
      GetIsMember(Run(capacity, before), key);
      assert h[k] == before[k];
      assert key in Keys(Run(capacity, h)) by {
        if key !in Keys(Run(capacity, h)) { SurvivesUntilCrowdedOut(capacity, before, op, key); }
      }
      ItemsAreLastInserts(capacity, h, key);
      var j: nat :| LastInsert(h, key, j) && Get(Run(capacity, h), key) == Some(StoredBy(h[j]));
      LastInsertUnique(h, key, j, k);
    }
  }

  /** So a lookup returns its response exactly when it is in time. */
  lemma LookupIsExact(capacity: nat, h: seq<Op>, key: string, k: nat, now: int, generation: nat)
    requires capacity >= 1 && Undisturbed(capacity, h, key, k)
    ensures var r := Hit(Run(capacity, h), key, now, generation);
            && (r.Some? <==> InTime(h[k], now, generation))
            && (r.Some? ==> r.value.response == h[k].response)
  {
    UndisturbedIsServed(capacity, h, key, k);
  }

  /** The other keys named since insertion `k`, in insertions or lookups. */
  ghost function NamedSince(h: seq<Op>, key: string, k: nat): set<string> {
    set m | k < m < |h| && h[m].key != key :: h[m].key
  }

  lemma {:induction false} SinceIsNamed(capacity: nat, h: seq<Op>, key: string, k: nat)
    requires capacity >= 1 && k < |h| && h[k].Insert? && h[k].key == key
    ensures Since(capacity, h, key) <= NamedSince(h, key, k)
  {
    var before, op := h[..|h| - 1], h[|h| - 1];
    if k < |before| {
      assert before[k] == h[k];
      SinceIsNamed(capacity, before, key, k);
      forall x | x in NamedSince(before, key, k) ensures x in NamedSince(h, key, k) {
        var m :| k < m < |before| && before[m].key != key && before[m].key == x;
        assert h[m] == before[m];
      }
      assert op.key != key ==> op.key in NamedSince(h, key, k);
    }
  }

  /** An entry whose lookups since were all in time, and since which fewer other
      keys than the capacity were named, is returned exactly while in time. */
  lemma LastInsertIsReturned(capacity: nat, h: seq<Op>, key: string, k: nat, now: int, generation: nat)
    requires LastInsert(h, key, k) && |NamedSince(h, key, k)| < capacity
    requires forall m :: k < m < |h| && h[m].Lookup? && h[m].key == key ==> InTime(h[k], h[m].now, h[m].generation)
    ensures var r := Hit(Run(capacity, h), key, now, generation);
            && (r.Some? <==> InTime(h[k], now, generation))
            && (r.Some? ==> r.value.response == h[k].response)
  {
    forall m | k < m <= |h| ensures |Since(capacity, h[..m], key)| < capacity {
      assert h[..m][k] == h[k];
      SinceIsNamed(capacity, h[..m], key, k);
      forall x | x in NamedSince(h[..m], key, k) ensures x in NamedSince(h, key, k) {
        var i :| k < i < m && h[..m][i].key != key && h[..m][i].key == x;
        assert h[i].key == x;
      }
      NoFewer(Since(capacity, h[..m], key), NamedSince(h, key, k));
    }
    LookupIsExact(capacity, h, key, k, now, generation);
  }

  // ---------------------------------------------------------------------
  // The table and the list
  // ---------------------------------------------------------------------

  /** An element of the recency list, and the iterator that denotes it. */
  datatype Cell = Cell(it: nat, key: string)

  datatype CacheEntry = CacheEntry(response: Bytes, expiresAt: int, generation: nat, lruIt: nat)

  function ItemOf(key: string, e: CacheEntry): Item {
    Item(key, e.response, e.expiresAt, e.generation)
  }

  function CellKeys(cells: List<Cell>): set<string> {
    match cells
    case Nil => {}
    case Cons(head, tail) => {head.key} + CellKeys(tail)
  }

  /** The list without the element an iterator denotes. */
  function Erase(cells: List<Cell>, it: nat): List<Cell> {
    match cells
    case Nil => Nil
    case Cons(head, tail) => if head.it == it then tail else Cons(head, Erase(tail, it))
  }

  /** The element an iterator denotes. */
  function Deref(cells: List<Cell>, it: nat): Option<Cell> {
    match cells
    case Nil => None
    case Cons(head, tail) => if head.it == it then Some(head) else Deref(tail, it)
  }

  /** Each element's key is in the table, whose iterator denotes that element;
      keys and iterators occur once, and iterators below `nextIt` only. */
  ghost predicate Linked(table: map<string, CacheEntry>, cells: List<Cell>, nextIt: nat) {
    cells.Cons? ==>
      && cells.head.key in table && table[cells.head.key].lruIt == cells.head.it < nextIt
      && cells.head.key !in CellKeys(cells.tail)
      && Deref(cells.tail, cells.head.it).None?
      && Linked(table, cells.tail, nextIt)
  }

  ghost function View(table: map<string, CacheEntry>, cells: List<Cell>): List<Item> {
    match cells
    case Nil => Nil
    case Cons(head, tail) =>
      if head.key in table then Cons(ItemOf(head.key, table[head.key]), View(table, tail)) else Nil
  }

  lemma {:induction false} ViewFacts(table: map<string, CacheEntry>, cells: List<Cell>, nextIt: nat)
    requires Linked(table, cells, nextIt)
    ensures Keys(View(table, cells)) == CellKeys(cells) <= table.Keys
    ensures Distinct(View(table, cells)) && Length(View(table, cells)) == Length(cells) == |CellKeys(cells)|
  {
    if cells.Cons? { ViewFacts(table, cells.tail, nextIt); }
  }

  lemma {:induction false} ViewGet(table: map<string, CacheEntry>, cells: List<Cell>, nextIt: nat, key: string)
    requires Linked(table, cells, nextIt)
    ensures Get(View(table, cells), key) ==
              if key in CellKeys(cells) && key in table then Some(ItemOf(key, table[key])) else None
  {
    if cells.Cons? { ViewGet(table, cells.tail, nextIt, key); }
  }

  /** A key's stored iterator denotes the key's own element. */
  lemma {:induction false} IteratorDenotesKey(table: map<string, CacheEntry>, cells: List<Cell>, nextIt: nat,
                                              key: string)
    requires Linked(table, cells, nextIt) && key in CellKeys(cells) && key in table
    ensures Deref(cells, table[key].lruIt) == Some(Cell(table[key].lruIt, key))
  {
    if cells.head.key != key {
      IteratorDenotesKey(table, cells.tail, nextIt, key);
    }
  }

  /** Only the table's entries for the list's own keys matter to the list. */
  lemma {:induction false} SameEntriesSameView(table: map<string, CacheEntry>, table': map<string, CacheEntry>,
                                               cells: List<Cell>, nextIt: nat, nextIt': nat)
    requires Linked(table, cells, nextIt) && nextIt <= nextIt'
    requires forall k :: k in CellKeys(cells) && k in table ==> k in table' && table'[k] == table[k]
    ensures Linked(table', cells, nextIt') && View(table', cells) == View(table, cells)
  {
    if cells.Cons? { SameEntriesSameView(table, table', cells.tail, nextIt, nextIt'); }
  }

  lemma {:induction false} NextItIsFree(table: map<string, CacheEntry>, cells: List<Cell>, nextIt: nat)
    requires Linked(table, cells, nextIt)
    ensures Deref(cells, nextIt).None?
  {
    if cells.Cons? { NextItIsFree(table, cells.tail, nextIt); }
  }

  lemma {:induction false} EraseDenotesNoMore(cells: List<Cell>, it: nat, other: nat)
    requires Deref(cells, other).None?
    ensures Deref(Erase(cells, it), other).None?
  {
    if cells.Cons? { EraseDenotesNoMore(cells.tail, it, other); }
  }

  /** Erasing the element of a key's iterator takes the key's item out. */
  lemma {:induction false} EraseByIterator(table: map<string, CacheEntry>, cells: List<Cell>, nextIt: nat, key: string)
    requires Linked(table, cells, nextIt) && key in CellKeys(cells) && key in table
    ensures var cells' := Erase(cells, table[key].lruIt);
            && Linked(table, cells', nextIt) && CellKeys(cells') == CellKeys(cells) - {key}
            && View(table, cells') == Without(View(table, cells), key)
            && Deref(cells', table[key].lruIt).None? && table[key].lruIt < nextIt
  {
    if cells.head.key != key {
      EraseByIterator(table, cells.tail, nextIt, key);
      IteratorDenotesKey(table, cells.tail, nextIt, key);
      EraseDenotesNoMore(cells.tail, table[key].lruIt, cells.head.it);
    }
  }

  lemma {:induction false} LastByIterator(table: map<string, CacheEntry>, cells: List<Cell>, nextIt: nat)
    requires Linked(table, cells, nextIt) && cells.Cons?
    ensures Last(cells).key in table && View(table, cells).Cons? && Last(View(table, cells)).key == Last(cells).key
    ensures Linked(table, ButLast(cells), nextIt) && CellKeys(ButLast(cells)) == CellKeys(cells) - {Last(cells).key}
    ensures Last(cells).key in CellKeys(cells)
    ensures View(table, ButLast(cells)) == ButLast(View(table, cells))
  {
    if cells.tail.Cons? {
      LastByIterator(table, cells.tail, nextIt);
      ButLastDenotesNoMore(cells.tail, cells.head.it);
    }
  }

  lemma {:induction false} ButLastDenotesNoMore(cells: List<Cell>, other: nat)
    requires cells.Cons? && Deref(cells, other).None?
    ensures Deref(ButLast(cells), other).None?
  {
    if cells.tail.Cons? { ButLastDenotesNoMore(cells.tail, other); }
  }

  /** The table holds exactly the list's keys, each linked to its element. */
  ghost predicate Consistent(table: map<string, CacheEntry>, cells: List<Cell>, nextIt: nat) {
    Linked(table, cells, nextIt) && table.Keys == CellKeys(cells)
  }

  lemma SizeIsLength(table: map<string, CacheEntry>, cells: List<Cell>, nextIt: nat)
    requires Consistent(table, cells, nextIt)
    ensures |table| == Length(View(table, cells)) == Length(cells)
    ensures Keys(View(table, cells)) == table.Keys && Distinct(View(table, cells))
  {
    ViewFacts(table, cells, nextIt);
    assert |table| == |table.Keys|;
  }

  lemma DropKey(table: map<string, CacheEntry>, cells: List<Cell>, nextIt: nat, key: string)
    requires Consistent(table, cells, nextIt) && key in table
    ensures Consistent(table - {key}, Erase(cells, table[key].lruIt), nextIt)
    ensures View(table - {key}, Erase(cells, table[key].lruIt)) == Without(View(table, cells), key)
    ensures |table - {key}| == |table| - 1
  {
    EraseByIterator(table, cells, nextIt, key);
    SameEntriesSameView(table, table - {key}, Erase(cells, table[key].lruIt), nextIt, nextIt);
    assert (table - {key}).Keys == table.Keys - {key} && |table| == |table.Keys|;
    assert |(table - {key}).Keys| == |table - {key}|;
  }

  /** Splicing a key's element to the front, with a new entry perhaps. */
  lemma MoveToFront(table: map<string, CacheEntry>, cells: List<Cell>, nextIt: nat, key: string, e: CacheEntry)
    requires Consistent(table, cells, nextIt) && key in table && e.lruIt == table[key].lruIt
    ensures Consistent(table[key := e], Cons(Cell(e.lruIt, key), Erase(cells, e.lruIt)), nextIt)
    ensures View(table[key := e], Cons(Cell(e.lruIt, key), Erase(cells, e.lruIt))) ==
              Cons(ItemOf(key, e), Without(View(table, cells), key))
    ensures |table[key := e]| == |table|
  {
    EraseByIterator(table, cells, nextIt, key);
    SameEntriesSameView(table, table[key := e], Erase(cells, e.lruIt), nextIt, nextIt);
    assert table[key := e].Keys == table.Keys && |table| == |table.Keys|;
    assert |table[key := e].Keys| == |table[key := e]|;
  }

  lemma EvictLast(table: map<string, CacheEntry>, cells: List<Cell>, nextIt: nat)
    requires Consistent(table, cells, nextIt) && cells.Cons?
    ensures Last(cells).key in table
    ensures Consistent(table - {Last(cells).key}, ButLast(cells), nextIt)
    ensures View(table, cells).Cons?
    ensures View(table - {Last(cells).key}, ButLast(cells)) == ButLast(View(table, cells))
    ensures |table - {Last(cells).key}| == |table| - 1
  {
    LastByIterator(table, cells, nextIt);
    var table' := table - {Last(cells).key};
    SameEntriesSameView(table, table', ButLast(cells), nextIt, nextIt);
    assert table'.Keys == table.Keys - {Last(cells).key} && |table| == |table.Keys| && |table'.Keys| == |table'|;
  }

  lemma PushKey(table: map<string, CacheEntry>, cells: List<Cell>, nextIt: nat, key: string, e: CacheEntry)
    requires Consistent(table, cells, nextIt) && key !in table && e.lruIt == nextIt
    ensures Consistent(table[key := e], Cons(Cell(nextIt, key), cells), nextIt + 1)
    ensures View(table[key := e], Cons(Cell(nextIt, key), cells)) == Cons(ItemOf(key, e), View(table, cells))
    ensures |table[key := e]| == |table| + 1
  {
    NextItIsFree(table, cells, nextIt);
    SameEntriesSameView(table, table[key := e], cells, nextIt, nextIt + 1);
  }

  class DnsCache {
    const maxEntries: nat
    var table: map<string, CacheEntry>
    var lruOrder: List<Cell>
    /** Iterators are never reused. */
    var nextIt: nat

    ghost predicate Valid()
      reads this
    {
      Consistent(table, lruOrder, nextIt) && |table| <= maxEntries && maxEntries >= 1
    }

    /** The items in order of use. */
    ghost function Items(): List<Item>
      reads this
    {
      View(table, lruOrder)
    }

    constructor (maxEntries: nat)
      requires maxEntries >= 1
      ensures Valid() && Items() == Nil && this.maxEntries == maxEntries
    {
      this.maxEntries := maxEntries;
      table, lruOrder, nextIt := map[], Nil, 0;
    }

    method Find(name: string, qtype: U16, qclass: U16, generation: nat, now: int) returns (r: Option<CacheEntry>)
      requires Valid()
      modifies this
      ensures Valid()
      ensures Items() == Looked(old(Items()), MakeKey(name, qtype, qclass), now, generation)
      ensures var hit := Hit(old(Items()), MakeKey(name, qtype, qclass), now, generation);
              r.Some? == hit.Some? && (r.Some? ==> ItemOf(MakeKey(name, qtype, qclass), r.value) == hit.value)
      ensures var item := Get(old(Items()), MakeKey(name, qtype, qclass));
              && (r.Some? <==> item.Some? && now < item.value.expiresAt && generation == item.value.generation)
              && (r.Some? ==> r.value.response == item.value.response)
    {
      var key := MakeKey(name, qtype, qclass);
      SizeIsLength(table, lruOrder, nextIt);
      ViewGet(table, lruOrder, nextIt, key);
      if key !in table {
        WithoutAbsent(Items(), key);
        return None;
      }
      var e := table[key];
      // Expired, or tagged with another policy generation.
      if now >= e.expiresAt || e.generation != generation {
        Drop(key);
        return None;
      }
      Promote(key);
      return Some(e);
    }

    /** An entry out of the list, by its iterator, and out of the table. */
    method Drop(key: string)
      requires Valid() && key in table
      modifies this
      ensures Valid() && Items() == Without(old(Items()), key)
    {
      DropKey(table, lruOrder, nextIt, key);
      lruOrder := Erase(lruOrder, table[key].lruIt);
      table := table - {key};
    }

    /** The element of a key spliced to the front of the list. */
    method Promote(key: string)
      requires Valid() && key in table
      modifies this
      ensures Valid() && Items() == Cons(ItemOf(key, old(table[key])), Without(old(Items()), key))
    {
      var e := table[key];
      MoveToFront(table, lruOrder, nextIt, key, e);
      assert table[key := e] == table;
      lruOrder := Cons(Cell(e.lruIt, key), Erase(lruOrder, e.lruIt));
    }

    method Insert(name: string, qtype: U16, qclass: U16, response: Bytes, ttl: U32, generation: nat, now: int)
      requires Valid()
      modifies this
      ensures Valid()
      ensures Items() ==
                Inserted(old(Items()), maxEntries, Stored(MakeKey(name, qtype, qclass), response, ttl, now, generation))
    {
      var key := MakeKey(name, qtype, qclass);
      var item := Stored(key, response, ttl, now, generation);
      SizeIsLength(table, lruOrder, nextIt);
      ViewGet(table, lruOrder, nextIt, key);
      if key in table {
        Update(item);
        return;
      }
      WithoutAbsent(Items(), key);
      if |table| >= maxEntries {
        EvictOldest();
      }
      PushFront(item);
    }

    /** A key in the table: its entry is replaced, and moved to the front. */
    method Update(item: Item)
      requires Consistent(table, lruOrder, nextIt) && item.key in table
      modifies this`table, this`lruOrder
      ensures Consistent(table, lruOrder, nextIt) && |table| == |old(table)|
      ensures Items() == Cons(item, Without(old(Items()), item.key))
    {
      var e := CacheEntry(item.response, item.expiresAt, item.generation, table[item.key].lruIt);
      MoveToFront(table, lruOrder, nextIt, item.key, e);
      table := table[item.key := e];
      lruOrder := Cons(Cell(e.lruIt, item.key), Erase(lruOrder, e.lruIt));
    }

    /** The key at the back of the list goes. */
    method EvictOldest()
      requires Consistent(table, lruOrder, nextIt) && lruOrder.Cons?
      modifies this`table, this`lruOrder
      ensures Consistent(table, lruOrder, nextIt) && |table| == |old(table)| - 1 && table.Keys <= old(table).Keys
      ensures old(Items()).Cons? && Items() == ButLast(old(Items()))
    {
      EvictLast(table, lruOrder, nextIt);
      var oldestKey := Last(lruOrder).key;
      table := table - {oldestKey};
      lruOrder := ButLast(lruOrder);
    }

    /** A new key in front. */
    method PushFront(item: Item)
      requires Consistent(table, lruOrder, nextIt) && item.key !in table
      modifies this
      ensures Consistent(table, lruOrder, nextIt) && |table| == |old(table)| + 1
      ensures Items() == Cons(item, old(Items()))
    {
      var e := CacheEntry(item.response, item.expiresAt, item.generation, nextIt);
      PushKey(table, lruOrder, nextIt, item.key, e);
      lruOrder := Cons(Cell(nextIt, item.key), lruOrder);
      table := table[item.key := e];
      nextIt := nextIt + 1;
    }

    method Size() returns (n: nat)
      requires Valid()
      ensures n == Length(Items()) <= maxEntries
    {
      SizeIsLength(table, lruOrder, nextIt);
      return |table|;
    }

    method Clear()
      requires Valid()
      modifies this
      ensures Valid() && Items() == Nil
    {
      table, lruOrder := map[], Nil;
    }
  }
}
