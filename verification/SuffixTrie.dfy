/** Domain rules in a tree of reversed labels (dataplane/src/engine/suffix_trie.cpp).

    The heap nodes are proved against the plain meaning of a rule: it covers
    its own name and every name under it, whatever the case of letters. */
module SuffixTrie {
  import opened Text
  import opened Names

  /** One call of `insert` as the caller wrote it. */
  datatype Rule = Rule(domain: string, ruleId: U32)

  /** The rules in force after a history of insertions: a name without labels
      is no rule, and the first id of a rule stays. */
  function Rules(log: seq<Rule>): map<Labels, U32> {
    if log == [] then map[]
    else WithRule(Rules(log[..|log| - 1]), NameLabels(log[|log| - 1].domain), log[|log| - 1].ruleId)
  }

  function WithRule(rules: map<Labels, U32>, key: Labels, id: U32): map<Labels, U32> {
    if key == Root || key in rules then rules else rules[key := id]
  }

  lemma RulesStep(log: seq<Rule>, rule: Rule)
    ensures Rules(log + [rule]) == WithRule(Rules(log), NameLabels(rule.domain), rule.ruleId)
  {
    assert (log + [rule])[..|log|] == log;
  }

  lemma RuleCount(rules: map<Labels, U32>, key: Labels, id: U32)
    requires key !in rules
    ensures |rules[key := id]| == |rules| + 1
  {
  }

  /** The id of the rule with the fewest labels that ends the given labels. */
  function ShortestRule(rules: map<Labels, U32>, labels: Labels): Option<U32> {
    match labels
    case Root => None
    case Label(_, above) =>
      var shorter := ShortestRule(rules, above);
      if shorter.Some? then shorter
      else if labels in rules then Some(rules[labels])
      else None
  }

  /** What `matches` reports for a name under the rules. */
  function Lookup(rules: map<Labels, U32>, domain: string): Option<U32> {
    ShortestRule(rules, NameLabels(domain))
  }

  // ---------------------------------------------------------------------
  // The meaning in terms of names
  // ---------------------------------------------------------------------

  /** The rule has a name, and `domain` is that name or lies under it. */
  ghost predicate Covers(rule: Rule, domain: string) {
    NameLabels(rule.domain) != Root && SameOrUnder(Normalized(domain), Normalized(rule.domain))
  }

  /** The rule reported for `domain`: it covers it, no covering rule has fewer
      labels, and it is the first inserted of its name. */
  ghost predicate Reported(log: seq<Rule>, domain: string, k: nat) {
    && k < |log|
    && Covers(log[k], domain)
    && (forall m :: 0 <= m < |log| && Covers(log[m], domain) ==>
          Count(NameLabels(log[k].domain)) <= Count(NameLabels(log[m].domain)))
    && (forall m :: 0 <= m < k ==> Normalized(log[m].domain) != Normalized(log[k].domain))
  }

  /** Insertion `k` is the first of the rule with the given labels. */
  ghost predicate FirstInsertionOf(log: seq<Rule>, key: Labels, k: nat) {
    && k < |log| && NameLabels(log[k].domain) == key
    && forall m :: 0 <= m < k ==> NameLabels(log[m].domain) != key
  }

  lemma FirstPlace(log: seq<Rule>, key: Labels) returns (k: nat)
    requires exists m :: 0 <= m < |log| && NameLabels(log[m].domain) == key
    ensures FirstInsertionOf(log, key, k)
  {
    k := 0;
    while NameLabels(log[k].domain) != key
      invariant k < |log| && forall m :: 0 <= m < k ==> NameLabels(log[m].domain) != key
      invariant exists m :: k <= m < |log| && NameLabels(log[m].domain) == key
      decreases |log| - k
    {
      k := k + 1;
    }
  }

  lemma FirstInsertionEarlier(log: seq<Rule>, key: Labels, k: nat, n: nat)
    requires k < n <= |log|
    ensures FirstInsertionOf(log, key, k) <==> FirstInsertionOf(log[..n], key, k)
  {
    assert forall m :: 0 <= m <= k ==> log[..n][m] == log[m];
  }

  lemma {:induction false} RulesAreFirstInsertions(log: seq<Rule>, key: Labels)
    ensures key in Rules(log) <==> key != Root && exists k: nat :: FirstInsertionOf(log, key, k)
    ensures forall k: nat :: key != Root && FirstInsertionOf(log, key, k) ==>
              key in Rules(log) && Rules(log)[key] == log[k].ruleId
  {
    if log != [] {
      var before := log[..|log| - 1];
      RulesAreFirstInsertions(before, key);
      if key != Root && key in Rules(before) {
        EarlierRuleStays(log, before, key);
      } else if key != Root {
        LastRuleIsFirst(log, before, key);
      }
    }
  }

  lemma EarlierRuleStays(log: seq<Rule>, before: seq<Rule>, key: Labels)
    requires log != [] && before == log[..|log| - 1] && key != Root && key in Rules(before)
    requires exists k: nat :: FirstInsertionOf(before, key, k)
    requires forall k: nat :: FirstInsertionOf(before, key, k) ==> Rules(before)[key] == before[k].ruleId
    ensures key in Rules(log) && exists k: nat :: FirstInsertionOf(log, key, k)
    ensures forall k: nat :: FirstInsertionOf(log, key, k) ==> Rules(log)[key] == log[k].ruleId
  {
    var k0: nat :| FirstInsertionOf(before, key, k0);
    FirstInsertionEarlier(log, key, k0, |before|);
    forall k: nat | FirstInsertionOf(log, key, k) ensures k == k0 {}
  }

  lemma LastRuleIsFirst(log: seq<Rule>, before: seq<Rule>, key: Labels)
    requires log != [] && before == log[..|log| - 1] && key != Root && key !in Rules(before)
    requires forall k: nat :: !FirstInsertionOf(before, key, k)
    ensures key in Rules(log) <==> exists k: nat :: FirstInsertionOf(log, key, k)
    ensures forall k: nat :: FirstInsertionOf(log, key, k) ==> key in Rules(log) && Rules(log)[key] == log[k].ruleId
  {
    var n := |before|;
    forall k: nat | FirstInsertionOf(log, key, k) ensures k == n {
      if k < n {
        FirstInsertionEarlier(log, key, k, n);
      }
    }
    if NameLabels(log[n].domain) == key {
      var k := FirstPlace(log, key);
    }
  }

  /** A rule is found exactly when some tail of the labels is one, and then it
      is the one with the fewest labels. */
  lemma {:induction false} ShortestRuleMeaning(rules: map<Labels, U32>, labels: Labels)
    ensures var r := ShortestRule(rules, labels);
            && (r.None? <==> forall t :: t in rules && t != Root ==> !IsTail(labels, t))
            && (r.Some? ==> exists t :: t in rules && t != Root && IsTail(labels, t) && r.value == rules[t]
                              && forall u :: u in rules && u != Root && IsTail(labels, u) ==> Count(t) <= Count(u))
  {
    if labels.Label? {
      ShortestRuleMeaning(rules, labels.above);
      forall u | IsTail(labels.above, u) ensures Count(u) < Count(labels) { TailIsShorter(labels.above, u); }
      if ShortestRule(rules, labels.above).None? && labels in rules {
        forall u | u in rules && u != Root && IsTail(labels, u) ensures u == labels {}
      }
    }
  }

  lemma {:induction false} TailIsShorter(d: Labels, r: Labels)
    requires IsTail(d, r)
    ensures Count(r) <= Count(d)
  {
    if d != r { TailIsShorter(d.above, r); }
  }

  /** A rule covers a name exactly when its labels end the name's. */
  lemma CoversIsTail(rule: Rule, domain: string)
    ensures Covers(rule, domain) <==>
            NameLabels(rule.domain) != Root && IsTail(NameLabels(domain), NameLabels(rule.domain))
  {
    NameLabelsAreLabels(domain);
    NameLabelsAreLabels(rule.domain);
    if NameLabels(rule.domain) != Root {
      TailIsUnder(NameLabels(domain), NameLabels(rule.domain));
    }
  }

  /** Every insertion with labels is present among the rules. */
  lemma InsertedIsRule(log: seq<Rule>, k: nat)
    requires k < |log| && NameLabels(log[k].domain) != Root
    ensures NameLabels(log[k].domain) in Rules(log)
  {
    var first := FirstPlace(log, NameLabels(log[k].domain));
    RulesAreFirstInsertions(log, NameLabels(log[k].domain));
  }

  /** `matches` holds exactly when some inserted rule is the name itself or a
      name above it, up to case and stray dots; the id is that of the first
      insertion of the rule with the fewest labels. */
  lemma LookupIsSuffixMatch(log: seq<Rule>, domain: string)
    ensures Lookup(Rules(log), domain).Some? <==> exists k :: 0 <= k < |log| && Covers(log[k], domain)
    ensures Lookup(Rules(log), domain).Some? ==>
              exists k: nat :: Reported(log, domain, k) && Lookup(Rules(log), domain).value == log[k].ruleId
  {
    ShortestRuleMeaning(Rules(log), NameLabels(domain));
    forall k | 0 <= k < |log| && Covers(log[k], domain) ensures Lookup(Rules(log), domain).Some? {
      CoversIsTail(log[k], domain);
      InsertedIsRule(log, k);
    }
    if Lookup(Rules(log), domain).Some? {
      var k := FoundIsReported(log, domain);
    }
  }

  lemma FoundIsReported(log: seq<Rule>, domain: string) returns (k: nat)
    requires Lookup(Rules(log), domain).Some?
    ensures Reported(log, domain, k) && Lookup(Rules(log), domain).value == log[k].ruleId
  {
    var rules, labels := Rules(log), NameLabels(domain);
    ShortestRuleMeaning(rules, labels);
    var t :| t in rules && t != Root && IsTail(labels, t) && Lookup(rules, domain).value == rules[t]
             && forall u :: u in rules && u != Root && IsTail(labels, u) ==> Count(t) <= Count(u);
    RulesAreFirstInsertions(log, t);
    k :| FirstInsertionOf(log, t, k);
    CoversIsTail(log[k], domain);
    forall m | 0 <= m < k ensures Normalized(log[m].domain) != Normalized(log[k].domain) {
      NormalizedDecidesLabels(log[m].domain, log[k].domain);
    }
    forall m | 0 <= m < |log| && Covers(log[m], domain)
      ensures Count(NameLabels(log[k].domain)) <= Count(NameLabels(log[m].domain))
    {
      CoversIsTail(log[m], domain);
      InsertedIsRule(log, m);
    }
  }

  /** For names and rules without empty labels the dots need no care: the name
      equals the rule or ends with a dot and the rule, ignoring case. */
  lemma CoversWellFormed(rule: Rule, domain: string)
    requires rule.domain != "" && NoEmptyLabel(Lower(rule.domain))
    requires domain != "" && NoEmptyLabel(Lower(domain))
    ensures Covers(rule, domain) <==> SameOrUnder(Lower(domain), Lower(rule.domain))
  {
    NormalizedIsLower(rule.domain);
    NormalizedIsLower(domain);
    assert Lower(rule.domain) != "";
  }

  /** The rules are the distinct normal forms of the names inserted. */
  lemma RulesAreNormalForms(log: seq<Rule>)
    ensures Rules(log).Keys ==
              set k | 0 <= k < |log| && NameLabels(log[k].domain) != Root :: NameLabels(log[k].domain)
    ensures |Rules(log)| ==
              |set k | 0 <= k < |log| && NameLabels(log[k].domain) != Root :: Normalized(log[k].domain)|
  {
    var keys := set k | 0 <= k < |log| && NameLabels(log[k].domain) != Root :: NameLabels(log[k].domain);
    var names := set k | 0 <= k < |log| && NameLabels(log[k].domain) != Root :: Normalized(log[k].domain);
    forall key ensures key in Rules(log) <==> key in keys {
      RulesAreFirstInsertions(log, key);
      if key in keys {
        var k := FirstPlace(log, key);
      }
    }
    assert Rules(log).Keys == keys;
    assert |Rules(log)| == |Rules(log).Keys|;
    forall a, b | 0 <= a < |log| && 0 <= b < |log|
      ensures Normalized(log[a].domain) == Normalized(log[b].domain) <==>
              NameLabels(log[a].domain) == NameLabels(log[b].domain)
    {
      NormalizedDecidesLabels(log[a].domain, log[b].domain);
    }
    forall ls | ls in keys ensures AreLabels(ls) && Dotted(ls) in names {
      var k :| 0 <= k < |log| && NameLabels(log[k].domain) != Root && NameLabels(log[k].domain) == ls;
      NameLabelsAreLabels(log[k].domain);
      assert Normalized(log[k].domain) in names;
    }
    forall n | n in names ensures exists ls :: ls in keys && Dotted(ls) == n {
      var k :| 0 <= k < |log| && NameLabels(log[k].domain) != Root && Normalized(log[k].domain) == n;
      assert NameLabels(log[k].domain) in keys;
    }
    SameSize(keys, names);
  }

  lemma {:induction false} SameSize(keys: set<Labels>, names: set<string>)
    requires forall ls :: ls in keys ==> AreLabels(ls) && Dotted(ls) in names
    requires forall n :: n in names ==> exists ls :: ls in keys && Dotted(ls) == n
    ensures |keys| == |names|
  {
    if keys == {} {
      assert names == {};
    } else {
      var ls :| ls in keys;
      forall m | m in keys - {ls} ensures Dotted(m) != Dotted(ls) { DottedInjective(m, ls); }
      SameSize(keys - {ls}, names - {Dotted(ls)});
    }
  }

  // ---------------------------------------------------------------------
  // The splitter
  // ---------------------------------------------------------------------

  /** Labels read from a vector that holds them in reverse. */
  function Down(reversed: seq<string>): Labels {
    if reversed == [] then Root else Label(reversed[|reversed| - 1], Down(reversed[..|reversed| - 1]))
  }

  /** Labels read from a vector that holds the first ones in order. */
  function InFront(vector: seq<string>, rest: Labels): Labels {
    if vector == [] then rest else InFront(vector[..|vector| - 1], Label(vector[|vector| - 1], rest))
  }

  function Reversed(ls: seq<string>): seq<string> {
    if ls == [] then [] else [ls[|ls| - 1]] + Reversed(ls[..|ls| - 1])
  }

  lemma {:induction false} ReversedGoesDown(ls: seq<string>, above: seq<string>)
    ensures Down(above + Reversed(ls)) == InFront(ls, Down(above))
    decreases |ls|
  {
    if ls == [] {
      assert above + Reversed(ls) == above;
    } else {
      var last, front := ls[|ls| - 1], Reversed(ls[..|ls| - 1]);
      DownOne(above, last);
      ReversedGoesDown(ls[..|ls| - 1], above + [last]);
      assert above + ([last] + front) == (above + [last]) + front;
    }
  }

  lemma DownOne(above: seq<string>, last: string)
    ensures Down(above + [last]) == Label(last, Down(above))
  {
    assert (above + [last])[..|above|] == above;
  }

  lemma InFrontStep(vector: seq<string>, piece: string, rest: Labels)
    ensures InFront(vector + [piece], rest) == InFront(vector, Label(piece, rest))
  {
    assert (vector + [piece])[..|vector|] == vector;
  }

  /** The labels of the part not yet split. */
  ghost function Rest(domain: string, start: nat): Labels {
    if start < |domain| then NameLabels(domain[start..]) else Root
  }

  lemma RestStep(domain: string, start: nat)
    requires start < |domain|
    ensures var dot := IndexOf(domain, '.', start);
            var piece := Lower(domain[start..dot]);
            Rest(domain, start) == if piece != "" then Label(piece, Rest(domain, dot + 1)) else Rest(domain, dot + 1)
  {
    var dot := IndexOf(domain, '.', start);
    SplitAtDot(domain, start);
    assert domain[|domain|..] == "";
    PieceAlone("");
    assert Lower(domain[start..dot]) == "" <==> domain[start..dot] == "";
  }

  lemma RestOfAll(domain: string)
    ensures Rest(domain, 0) == NameLabels(domain)
  {
    PieceAlone("");
    assert domain[0..] == domain;
  }

  method SplitLabelsReversed(name: string) returns (labels: seq<string>)
    ensures Down(labels) == NameLabels(name)
  {
    RestOfAll("");
    if name == "" {
      return [];
    }
    var domain := name;
    while domain != "" && domain[0] == '.'
      invariant NameLabels(domain) == NameLabels(name)
      decreases |domain|
    {
      LeadingDot(domain);
      domain := domain[1..];
    }
    while domain != "" && domain[|domain| - 1] == '.'
      invariant NameLabels(domain) == NameLabels(name)
      decreases |domain|
    {
      TrailingDot(domain);
      domain := domain[..|domain| - 1];
    }
    labels := SplitTrimmed(domain);
    ReversedGoesDown(labels, []);
    assert [] + Reversed(labels) == Reversed(labels);
    labels := Reversed(labels);
  }

  /** The main loop of the splitter. */
  method SplitTrimmed(domain: string) returns (labels: seq<string>)
    ensures InFront(labels, Root) == NameLabels(domain)
  {
    labels := [];
    RestOfAll(domain);
    var start := 0;
    while start < |domain|
      invariant 0 <= start && InFront(labels, Rest(domain, start)) == NameLabels(domain)
    {
      var dot := IndexOf(domain, '.', start);
      RestStep(domain, start);
      var piece := LoweredPiece(domain, start, dot);
      if piece != "" {
        InFrontStep(labels, piece, Rest(domain, dot + 1));
        labels := labels + [piece];
      }
      start := dot + 1;
    }
  }

  /** The inner loop of the splitter. */
  method LoweredPiece(domain: string, start: nat, dot: nat) returns (piece: string)
    requires start <= dot <= |domain|
    ensures piece == Lower(domain[start..dot])
  {
    piece := "";
    var i := start;
    while i < dot
      invariant start <= i <= dot && piece == Lower(domain[start..i])
    {
      piece := piece + [ToLower(domain[i])];
      i := i + 1;
    }
  }

  // ---------------------------------------------------------------------
  // The tree
  // ---------------------------------------------------------------------

  class TrieNode {
    var children: map<string, TrieNode>
    var isTerminal: bool
    var ruleId: U32

    /** Where the node is in the tree. */
    ghost const place: Labels

    constructor (ghost place: Labels)
      ensures children == map[] && !isTerminal && ruleId == 0 && this.place == place
    {
      children, isTerminal, ruleId := map[], false, 0;
      this.place := place;
    }
  }

  class DomainSuffixTrie {
    const root: TrieNode
    var size: nat

    /** Every call of `Insert` so far. */
    ghost var log: seq<Rule>
    /** The node at each path of reversed labels. */
    ghost var nodes: map<Labels, TrieNode>
    ghost var repr: set<TrieNode>

    /** The nodes, each at its own place, and the edges between them. */
    ghost predicate IsTree()
      reads this`nodes, this`repr, repr
    {
      && Root in nodes && nodes[Root] == root
      && (forall p {:trigger nodes[p]} :: p in nodes ==> nodes[p] in repr && nodes[p].place == p)
      && (forall p, l {:trigger Label(l, p) in nodes} :: Label(l, p) in nodes ==> p in nodes)
      && (forall p, l {:trigger l in nodes[p].children} :: p in nodes ==>
            (l in nodes[p].children <==> Label(l, p) in nodes))
      && (forall p, l {:trigger nodes[p].children[l]} :: p in nodes && l in nodes[p].children ==>
            nodes[p].children[l] == nodes[Label(l, p)])
    }

    /** The terminal nodes carry the rules. */
    ghost predicate Holds(rules: map<Labels, U32>)
      reads this`nodes, this`repr, repr
    {
      && (forall p {:trigger p in rules} :: p in rules ==> p in nodes && p != Root)
      && (forall p {:trigger nodes[p]} :: p in nodes ==>
            && nodes[p] in repr
            && nodes[p].isTerminal == (p in rules)
            && (p in rules ==> nodes[p].ruleId == rules[p]))
    }

    ghost predicate Carries(rules: map<Labels, U32>)
      reads this`nodes, this`repr, repr
    {
      IsTree() && Holds(rules)
    }

    ghost predicate Valid()
      reads this, repr
    {
      Carries(Rules(log)) && size == |Rules(log)|
    }

    constructor ()
      ensures Valid() && log == [] && fresh(repr)
    {
      root := new TrieNode(Root);
      size := 0;
      log := [];
      new;
      nodes, repr := map[Root := root], {root};
    }

    method Insert(domain: string, ruleId: U32)
      requires Valid()
      modifies this, repr
      ensures Valid() && fresh(repr - old(repr))
      ensures log == old(log) + [Rule(domain, ruleId)]
    {
      RulesStep(log, Rule(domain, ruleId));
      ghost var rules, rules' := Rules(log), Rules(log + [Rule(domain, ruleId)]);
      var labels := SplitLabelsReversed(domain);
      InsertPath(labels, ruleId, rules);
      assert Carries(rules') && size == |rules'|;
      log := log + [Rule(domain, ruleId)];
    }

    /** The walk along the labels, and the mark at its end. */
    method InsertPath(labels: seq<string>, ruleId: U32, ghost rules: map<Labels, U32>)
      requires Carries(rules) && size == |rules|
      modifies this`nodes, this`repr, this`size, repr
      ensures Carries(WithRule(rules, Down(labels), ruleId)) && size == |WithRule(rules, Down(labels), ruleId)|
      ensures fresh(repr - old(repr))
    {
      if labels == [] {
        return;
      }
      var curr := Walk(labels, rules);
      Mark(curr, Down(labels), ruleId, rules);
    }

    /** The walk of `insert` along the labels. */
    method Walk(labels: seq<string>, ghost rules: map<Labels, U32>) returns (curr: TrieNode)
      requires Carries(rules)
      modifies this`nodes, this`repr, repr`children
      ensures Carries(rules) && Down(labels) in nodes && curr == nodes[Down(labels)]
      ensures fresh(repr - old(repr)) && curr in repr
    {
      ghost var path := Root;
      curr := root;
      var i := 0;
      while i < |labels|
        invariant 0 <= i <= |labels| && path == Down(labels[..i])
        invariant Carries(rules)
        invariant path in nodes && curr == nodes[path]
        invariant fresh(repr - old(repr))
      {
        DownStep(labels, i);
        curr := Descend(curr, path, labels[i], rules);
        path := Label(labels[i], path);
        i := i + 1;
      }
      assert labels[..i] == labels;
    }

    /** One label of `insert`: the existing child, or a new node. */
    method Descend(curr: TrieNode, ghost path: Labels, piece: string, ghost rules: map<Labels, U32>)
      returns (next: TrieNode)
      requires Carries(rules) && path in nodes && curr == nodes[path]
      modifies this`nodes, this`repr, curr`children
      ensures Carries(rules) && Label(piece, path) in nodes && next == nodes[Label(piece, path)]
      ensures fresh(repr - old(repr))
    {
      if piece !in curr.children {
        next := AddChild(curr, path, piece);
      } else {
        next := curr.children[piece];
      }
    }

    method AddChild(curr: TrieNode, ghost path: Labels, piece: string) returns (next: TrieNode)
      requires IsTree() && path in nodes && curr == nodes[path]
      requires piece !in curr.children
      modifies this`nodes, this`repr, curr`children
      ensures IsTree() && Label(piece, path) !in old(nodes) && nodes == old(nodes)[Label(piece, path) := next]
      ensures repr == old(repr) + {next} && fresh(next) && !next.isTerminal
    {
      next := new TrieNode(Label(piece, path));
      assert Label(piece, path) !in nodes;
      ghost var place := Label(piece, path);
      assert place !in nodes && forall l :: Label(l, place) !in nodes;
      assert forall p {:trigger nodes[p]} :: p in nodes ==> nodes[p] != next && (nodes[p] == curr ==> p == path);
      curr.children := curr.children[piece := next];
      nodes, repr := nodes[place := next], repr + {next};
      forall p, l | p in nodes
        ensures l in nodes[p].children <==> Label(l, p) in nodes
        ensures l in nodes[p].children ==> nodes[p].children[l] == nodes[Label(l, p)]
      {
        if p == place {
          assert nodes[p] == next;
        } else {
          assert nodes[p] == old(nodes)[p];
        }
      }
    }

    /** The end of `insert`: a rule already there stays as it is. */
    method Mark(curr: TrieNode, ghost path: Labels, ruleId: U32, ghost rules: map<Labels, U32>)
      requires Carries(rules) && size == |rules|
      requires path in nodes && curr == nodes[path] && path != Root
      modifies this`size, curr`isTerminal, curr`ruleId
      ensures Carries(WithRule(rules, path, ruleId)) && size == |WithRule(rules, path, ruleId)|
    {
      if !curr.isTerminal {
        MarkNew(curr, path, ruleId, rules);
      }
    }

    method MarkNew(curr: TrieNode, ghost path: Labels, ruleId: U32, ghost rules: map<Labels, U32>)
      requires Carries(rules) && size == |rules| && path !in rules
      requires path in nodes && curr == nodes[path] && path != Root
      modifies this`size, curr`isTerminal, curr`ruleId
      ensures Carries(rules[path := ruleId]) && size == |rules[path := ruleId]|
    {
      RuleCount(rules, path, ruleId);
      SetRule(curr, path, ruleId);
      size := size + 1;
    }

    /** The two fields of one node; the tree and the other nodes stay. */
    method SetRule(curr: TrieNode, ghost path: Labels, ruleId: U32)
      requires IsTree() && path in nodes && curr == nodes[path]
      modifies curr`isTerminal, curr`ruleId
      ensures IsTree() && curr.isTerminal && curr.ruleId == ruleId
      ensures forall p {:trigger nodes[p]} :: p in nodes && p != path ==>
                nodes[p].isTerminal == old(nodes[p].isTerminal) && nodes[p].ruleId == old(nodes[p].ruleId)
    {
      curr.isTerminal := true;
      curr.ruleId := ruleId;
      forall p {:trigger nodes[p]} | p in nodes && p != path ensures nodes[p] != curr {
        assert nodes[p].place == p;
      }
    }

    /** Whether a rule covers the name, and the id of the shortest one. */
    method Matches(domain: string) returns (found: bool, ruleId: Option<U32>)
      requires Valid()
      ensures found == Lookup(Rules(log), domain).Some?
      ensures ruleId == Lookup(Rules(log), domain)
    {
      var labels := SplitLabelsReversed(domain);
      if labels == [] {
        return false, None;
      }
      ghost var rules := Rules(log);
      var curr := root;
      var i := 0;
      while i < |labels|
        invariant 0 <= i <= |labels|
        invariant Down(labels[..i]) in nodes && curr == nodes[Down(labels[..i])]
        invariant ShortestRule(rules, Down(labels[..i])) == None
      {
        DownStep(labels, i);
        if labels[i] !in curr.children {
          NothingBelow(labels, i + 1);
          return false, None;
        }
        curr := curr.children[labels[i]];
        i := i + 1;
        if curr.isTerminal {
          ShorterStays(rules, labels, i);
          return true, Some(curr.ruleId);
        }
      }
      assert labels[..i] == labels;
      return curr.isTerminal, None;
    }

    /** Where the tree ends, no longer path goes on, so no longer rule matches. */
    lemma {:induction false} NothingBelow(labels: seq<string>, i: nat)
      requires Valid()
      requires i <= |labels| && Down(labels[..i]) !in nodes && ShortestRule(Rules(log), Down(labels[..i])) == None
      ensures ShortestRule(Rules(log), Down(labels)) == None
      decreases |labels| - i
    {
      if i < |labels| {
        DownStep(labels, i);
        NothingBelow(labels, i + 1);
      } else {
        assert labels[..i] == labels;
      }
    }
  }

  lemma DownStep(labels: seq<string>, i: nat)
    requires i < |labels|
    ensures Down(labels[..i + 1]) == Label(labels[i], Down(labels[..i]))
  {
    assert labels[..i + 1][..i] == labels[..i];
  }

  /** A rule found on the way is the one found for the whole name. */
  lemma {:induction false} ShorterStays(rules: map<Labels, U32>, labels: seq<string>, i: nat)
    requires i <= |labels| && ShortestRule(rules, Down(labels[..i])).Some?
    ensures ShortestRule(rules, Down(labels)) == ShortestRule(rules, Down(labels[..i]))
    decreases |labels| - i
  {
    if i < |labels| {
      DownStep(labels, i);
      ShorterStays(rules, labels, i + 1);
    } else {
      assert labels[..i] == labels;
    }
  }
}
