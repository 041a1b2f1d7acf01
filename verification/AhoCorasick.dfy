/** Multi-pattern substring search (dataplane/src/engine/aho_corasick.cpp).

    A trie kept in an index array, failure links set breadth first, and a
    search that stops at the first match. It is proved against plain substring
    search over the patterns inserted so far. */
module AhoCorasickMatcher {
  import opened Text

  datatype Node = Node(transitions: map<char, nat>, failLink: nat, isMatch: bool, ruleId: U32)

  const EMPTY_NODE := Node(map[], 0, false, 0)

  /** One call of `insert` as the caller wrote it. */
  datatype Insertion = Insertion(pattern: string, ruleId: U32)

  // ---------------------------------------------------------------------
  // What the matcher means
  // ---------------------------------------------------------------------

  /** The patterns in force after a history of insertions: lowered, never
      empty, each with the id of its last insertion. */
  function Patterns(log: seq<Insertion>): map<string, U32> {
    if log == [] then map[]
    else
      var last := log[|log| - 1];
      var before := Patterns(log[..|log| - 1]);
      if last.pattern == "" then before else before[Lower(last.pattern) := last.ruleId]
  }

  /** Insertion `k` is the last one of the pattern `p`. */
  ghost predicate LastInsertionOf(log: seq<Insertion>, p: string, k: nat) {
    && k < |log|
    && log[k].pattern != ""
    && Lower(log[k].pattern) == p
    && forall m :: k < m < |log| ==> log[m].pattern == "" || Lower(log[m].pattern) != p
  }

  lemma {:induction false} PatternsAreLastInsertions(log: seq<Insertion>, p: string)
    ensures p in Patterns(log) <==> exists k: nat :: LastInsertionOf(log, p, k)
    ensures forall k: nat :: LastInsertionOf(log, p, k) ==> p in Patterns(log) && Patterns(log)[p] == log[k].ruleId
    ensures p in Patterns(log) ==> p != ""
  {
    if log != [] {
      var n := |log| - 1;
      var before := log[..n];
      PatternsAreLastInsertions(before, p);
      if log[n].pattern != "" && Lower(log[n].pattern) == p {
        assert LastInsertionOf(log, p, n);
        forall k: nat | LastInsertionOf(log, p, k) ensures k == n {}
      } else {
        forall k: nat ensures LastInsertionOf(log, p, k) <==> LastInsertionOf(before, p, k) {
          if LastInsertionOf(before, p, k) {
            forall m | k < m < |log| ensures log[m].pattern == "" || Lower(log[m].pattern) != p {
              if m < n { assert before[m] == log[m]; }
            }
          }
          if LastInsertionOf(log, p, k) {
            assert k != n;
            forall m | k < m < |before| ensures before[m].pattern == "" || Lower(before[m].pattern) != p {
              assert before[m] == log[m];
            }
          }
        }
      }
    }
  }

  lemma PatternsStep(log: seq<Insertion>, ins: Insertion)
    ensures Patterns(log + [ins]) ==
              if ins.pattern == "" then Patterns(log) else Patterns(log)[Lower(ins.pattern) := ins.ruleId]
  {
    assert (log + [ins])[..|log|] == log;
  }

  /** Some pattern is a contiguous piece of the text. */
  ghost predicate Occurs(pats: map<string, U32>, text: string) {
    exists i, j :: 0 <= i < j <= |text| && text[i..j] in pats
  }

  /** No pattern ends at place `j` of the text or before. */
  ghost predicate NoneEndsBy(pats: map<string, U32>, text: string, j: nat)
    requires j <= |text|
  {
    forall i', j' :: 0 <= i' < j' <= j ==> text[i'..j'] !in pats
  }

  /** `id` belongs to the shortest pattern that ends where any pattern ends first. */
  ghost predicate FirstOccurrence(pats: map<string, U32>, text: string, i: nat, j: nat, id: U32) {
    && i < j <= |text|
    && text[i..j] in pats
    && id == pats[text[i..j]]
    && NoneEndsBy(pats, text, j - 1)
    && (forall i' :: i < i' < j ==> text[i'..j] !in pats)
  }

  /** A text has one first occurrence, and so one rule id. */
  lemma FirstOccurrenceIsUnique(pats: map<string, U32>, text: string, i: nat, j: nat, id: U32,
                                i': nat, j': nat, id': U32)
    requires FirstOccurrence(pats, text, i, j, id) && FirstOccurrence(pats, text, i', j', id')
    ensures i == i' && j == j' && id == id'
  {
  }

  // ---------------------------------------------------------------------
  // Suffixes
  // ---------------------------------------------------------------------

  /** The longest suffix of `w` among `words`; the empty string if there is none. */
  function LongestSuffix(words: set<string>, w: string): string {
    if w == "" || w in words then w else LongestSuffix(words, w[1..])
  }

  function Front(w: string): string
    requires w != ""
  {
    w[..|w| - 1]
  }

  /** The id of the shortest non-empty suffix of `w` that is a pattern. */
  function ShortestMatch(pats: map<string, U32>, w: string): Option<U32> {
    if w == "" then None
    else
      var shorter := ShortestMatch(pats, w[1..]);
      if shorter.Some? then shorter
      else if w in pats then Some(pats[w])
      else None
  }

  ghost predicate PrefixClosed(words: set<string>) {
    "" in words && forall w {:trigger Front(w)} :: w in words && w != "" ==> Front(w) in words
  }

  /** `LongestSuffix` says what its name says. */
  lemma {:induction false} LongestSuffixIsLongest(words: set<string>, w: string)
    requires "" in words
    ensures var r := LongestSuffix(words, w);
            && r in words && |r| <= |w| && r == w[|w| - |r|..]
            && forall k :: 0 <= k <= |w| && w[k..] in words ==> |w| - k <= |r|
  {
    if w != "" && w !in words {
      var t := w[1..];
      LongestSuffixIsLongest(words, t);
      forall k | 0 <= k <= |w| && w[k..] in words ensures |w| - k <= |LongestSuffix(words, w)| {
        assert w[0..] == w;
        if k != 0 { assert t[k - 1..] == w[k..]; }
      }
    }
  }

  lemma {:induction false} LongestSuffixIsShort(words: set<string>, w: string)
    ensures |LongestSuffix(words, w)| <= |w|
  {
    if w != "" && w !in words { LongestSuffixIsShort(words, w[1..]); }
  }

  /** Reading one more character only needs the longest suffix known so far. */
  lemma {:induction false} LongestSuffixExtends(words: set<string>, w: string, c: char)
    requires PrefixClosed(words)
    ensures LongestSuffix(words, w + [c]) == LongestSuffix(words, LongestSuffix(words, w) + [c])
  {
    if w != "" && w !in words {
      assert Front(w + [c]) == w;
      assert w + [c] !in words;
      assert (w + [c])[1..] == w[1..] + [c];
      LongestSuffixExtends(words, w[1..], c);
    }
  }

  /** The patterns ending here are those ending at the longest trie suffix. */
  lemma {:induction false} ShortestMatchOfLongestSuffix(pats: map<string, U32>, words: set<string>, w: string)
    requires pats.Keys <= words
    ensures ShortestMatch(pats, w) == ShortestMatch(pats, LongestSuffix(words, w))
  {
    if w != "" && w !in words {
      assert w !in pats;
      ShortestMatchOfLongestSuffix(pats, words, w[1..]);
    }
  }

  lemma {:induction false} ShortestMatchGrows(pats: map<string, U32>, p: string, id: U32, w: string)
    ensures ShortestMatch(pats, w).Some? ==> ShortestMatch(pats[p := id], w).Some?
  {
    if w != "" { ShortestMatchGrows(pats, p, id, w[1..]); }
  }

  /** `ShortestMatch` says what its name says. */
  lemma {:induction false} ShortestMatchMeaning(pats: map<string, U32>, w: string)
    ensures ShortestMatch(pats, w).None? <==> forall k :: 0 <= k < |w| ==> w[k..] !in pats
    ensures ShortestMatch(pats, w).Some? ==>
              exists k :: 0 <= k < |w| && w[k..] in pats && ShortestMatch(pats, w).value == pats[w[k..]]
                          && forall m :: k < m < |w| ==> w[m..] !in pats
  {
    if w != "" {
      var t := w[1..];
      ShortestMatchMeaning(pats, t);
      assert forall k :: 0 <= k < |t| ==> t[k..] == w[k + 1..];
      assert w[0..] == w;
      if ShortestMatch(pats, t).Some? {
        var k :| 0 <= k < |t| && t[k..] in pats && ShortestMatch(pats, t).value == pats[t[k..]]
                 && forall m :: k < m < |t| ==> t[m..] !in pats;
        forall m | k + 1 < m < |w| ensures w[m..] !in pats { assert t[m - 1..] == w[m..]; }
        assert w[k + 1..] in pats;
      } else {
        forall m | 0 < m < |w| ensures w[m..] !in pats { assert t[m - 1..] == w[m..]; }
      }
    }
  }

  /** The same, for the patterns ending at place `j` of a text. */
  lemma MatchesEndingAt(pats: map<string, U32>, text: string, j: nat)
    requires j <= |text|
    ensures ShortestMatch(pats, text[..j]).None? <==> forall i :: 0 <= i < j ==> text[i..j] !in pats
    ensures ShortestMatch(pats, text[..j]).Some? ==>
              exists i :: 0 <= i < j && text[i..j] in pats && ShortestMatch(pats, text[..j]).value == pats[text[i..j]]
                          && forall m :: i < m < j ==> text[m..j] !in pats
  {
    ShortestMatchMeaning(pats, text[..j]);
    assert forall i :: 0 <= i < j ==> text[..j][i..] == text[i..j];
    if ShortestMatch(pats, text[..j]).Some? {
      var w := text[..j];
      var k :| 0 <= k < |w| && w[k..] in pats && ShortestMatch(pats, w).value == pats[w[k..]]
               && forall m :: k < m < |w| ==> w[m..] !in pats;
      assert text[k..j] in pats;
      forall m | k < m < j ensures text[m..j] !in pats { assert w[m..] == text[m..j]; }
    } else {
      forall i | 0 <= i < j ensures text[i..j] !in pats { assert text[..j][i..] == text[i..j]; }
    }
  }

  // ---------------------------------------------------------------------
  // The node array
  // ---------------------------------------------------------------------

  /** Node `i` spells `words[i]`, `at` is the inverse, and the transitions are
      exactly the one-character extensions present. */
  ghost predicate IsTrie(nodes: seq<Node>, words: seq<string>, at: map<string, nat>) {
    && |nodes| == |words| >= 1
    && words[0] == ""
    && PrefixClosed(at.Keys)
    && (forall i :: 0 <= i < |words| ==> words[i] in at && at[words[i]] == i)
    && (forall w :: w in at ==> at[w] < |words| && words[at[w]] == w)
    && (forall i, c {:trigger c in nodes[i].transitions} ::
          0 <= i < |nodes| ==> (c in nodes[i].transitions <==> words[i] + [c] in at))
    && (forall i, c {:trigger nodes[i].transitions[c]} ::
          0 <= i < |nodes| && c in nodes[i].transitions ==> nodes[i].transitions[c] == at[words[i] + [c]])
  }

  ghost predicate LinkCorrect(nodes: seq<Node>, words: seq<string>, at: map<string, nat>, v: nat)
    requires v < |nodes| == |words|
  {
    v != 0 ==>
      && words[v] != ""
      && nodes[v].failLink < |nodes|
      && words[nodes[v].failLink] == LongestSuffix(at.Keys, words[v][1..])
  }

  ghost predicate MatchCorrect(nodes: seq<Node>, words: seq<string>, pats: map<string, U32>, v: nat)
    requires v < |nodes| == |words|
  {
    var s := ShortestMatch(pats, words[v]);
    nodes[v].isMatch == s.Some? && (s.Some? ==> nodes[v].ruleId == s.value)
  }

  /** What a node holds between an insertion and the next build. */
  ghost predicate Seeded(nodes: seq<Node>, words: seq<string>, pats: map<string, U32>, v: nat)
    requires v < |nodes| == |words|
  {
    && (words[v] in pats ==> nodes[v].isMatch)
    && (nodes[v].isMatch ==> ShortestMatch(pats, words[v]).Some?)
    && (words[v] in pats && words[v] != "" && ShortestMatch(pats, words[v][1..]).None? ==>
          nodes[v].ruleId == pats[words[v]])
  }

  ghost predicate AllSeeded(nodes: seq<Node>, words: seq<string>, pats: map<string, U32>)
    requires |nodes| == |words|
  {
    forall v :: 0 <= v < |nodes| ==> Seeded(nodes, words, pats, v)
  }

  /** What every insertion and every build keeps. */
  ghost predicate Sound(nodes: seq<Node>, words: seq<string>, at: map<string, nat>, pats: map<string, U32>) {
    && IsTrie(nodes, words, at)
    && pats.Keys <= at.Keys && "" !in pats
    && AllSeeded(nodes, words, pats)
  }

  ghost predicate Settled(nodes: seq<Node>, words: seq<string>, at: map<string, nat>, pats: map<string, U32>, v: nat)
    requires v < |nodes| == |words|
  {
    LinkCorrect(nodes, words, at, v) && MatchCorrect(nodes, words, pats, v)
  }

  ghost predicate AllSettled(nodes: seq<Node>, words: seq<string>, at: map<string, nat>, pats: map<string, U32>)
    requires |nodes| == |words|
  {
    forall v :: 0 <= v < |nodes| ==> Settled(nodes, words, at, pats, v)
  }

  /** Where a word has no extension by `c`, the search goes on from its
      longest proper suffix. */
  lemma FollowSuffix(words: set<string>, w: string, c: char)
    requires PrefixClosed(words) && w != "" && w + [c] !in words
    ensures LongestSuffix(words, LongestSuffix(words, w[1..]) + [c]) == LongestSuffix(words, w + [c])
    ensures |LongestSuffix(words, w[1..])| < |w|
  {
    assert (w + [c])[1..] == w[1..] + [c];
    LongestSuffixExtends(words, w[1..], c);
    LongestSuffixIsShort(words, w[1..]);
  }

  /** One turn of a failure walk: the current node has no edge for `c`, and the
      suffix to be found is unchanged by following its link. */
  lemma FollowLink(nodes: seq<Node>, words: seq<string>, at: map<string, nat>, f: nat, c: char)
    requires IsTrie(nodes, words, at)
    requires 0 < f < |nodes| && c !in nodes[f].transitions && LinkCorrect(nodes, words, at, f)
    ensures nodes[f].failLink < |nodes|
    ensures LongestSuffix(at.Keys, words[nodes[f].failLink] + [c]) == LongestSuffix(at.Keys, words[f] + [c])
    ensures |words[nodes[f].failLink]| < |words[f]|
  {
    assert words[f] + [c] !in at;
    FollowSuffix(at.Keys, words[f], c);
  }

  /** The end of a failure walk: an edge for `c`, or the root. */
  lemma WalkEnds(nodes: seq<Node>, words: seq<string>, at: map<string, nat>, f: nat, c: char)
    requires IsTrie(nodes, words, at)
    requires f < |nodes| && (f == 0 || c in nodes[f].transitions)
    ensures var t := if c in nodes[f].transitions then nodes[f].transitions[c] else 0;
            t < |nodes| && words[t] == LongestSuffix(at.Keys, words[f] + [c])
  {
    if c !in nodes[f].transitions {
      assert words[f] + [c] !in at;
      assert (words[f] + [c])[1..] == "";
    }
  }

  // ---------------------------------------------------------------------
  // Breadth-first order
  // ---------------------------------------------------------------------

  /** The node spelling all but the last character of a node's word. */
  ghost function Parent(words: seq<string>, at: map<string, nat>, v: nat): nat
    requires v < |words|
  {
    var w := words[v];
    if w != "" && Front(w) in at then at[Front(w)] else 0
  }

  /** The character on the edge from its parent. */
  ghost function EdgeLabel(words: seq<string>, v: nat): char
    requires v < |words|
  {
    var w := words[v];
    if w != "" then w[|w| - 1] else ' '
  }

  lemma ParentEdge(nodes: seq<Node>, words: seq<string>, at: map<string, nat>, v: nat)
    requires IsTrie(nodes, words, at) && 0 < v < |words|
    ensures var p, c := Parent(words, at, v), EdgeLabel(words, v);
            && p < |nodes| && words[v] == words[p] + [c] && |words[v]| == |words[p]| + 1
            && c in nodes[p].transitions && nodes[p].transitions[c] == v
  {
    var w := words[v];
    assert at[words[0]] == 0;
    assert at[words[v]] == v;
    assert Front(w) in at;
    assert w == Front(w) + [w[|w| - 1]];
  }

  lemma ChildEdge(nodes: seq<Node>, words: seq<string>, at: map<string, nat>, u: nat, c: char)
    requires IsTrie(nodes, words, at) && u < |nodes| && c in nodes[u].transitions
    ensures var v := nodes[u].transitions[c];
            && 0 < v < |nodes| && words[v] == words[u] + [c]
            && Parent(words, at, v) == u && EdgeLabel(words, v) == c
  {
    var w := words[u] + [c];
    assert w in at;
    assert words[at[w]] == w;
    assert Front(w) == words[u];
    assert words[u] in at && at[words[u]] == u;
  }

  ghost function Indices(n: nat): (r: set<nat>)
    ensures forall v: nat :: v in r <==> v < n
  {
    if n == 0 then {} else Indices(n - 1) + {n - 1}
  }

  /** A node has been queued, and perhaps taken out again. */
  ghost predicate Found(popped: set<nat>, queue: seq<nat>, v: nat) {
    v in popped || v in queue
  }

  /** The queue holds nodes once each, by depth, none shallower than `u` and
      none more than one level below it. */
  ghost predicate Ordered(words: seq<string>, popped: set<nat>, queue: seq<nat>, u: nat) {
    && 0 in popped && u in popped
    && (forall v :: v in popped ==> v < |words|)
    && (forall i :: 0 <= i < |queue| ==> 0 < queue[i] < |words| && queue[i] !in popped)
    && (forall i, j :: 0 <= i < j < |queue| ==> queue[i] != queue[j])
    && (forall i :: 0 <= i < |queue| ==> |words[u]| <= |words[queue[i]]| <= |words[u]| + 1)
    && (forall i, j :: 0 <= i < j < |queue| ==> |words[queue[i]]| <= |words[queue[j]]|)
  }

  /** While the children of `u` are visited, those under the characters in
      `left` still to come: a node has been found exactly when its parent has
      been taken out. */
  ghost predicate Covered(words: seq<string>, at: map<string, nat>,
                          popped: set<nat>, queue: seq<nat>, u: nat, left: set<char>)
  {
    forall v {:trigger Found(popped, queue, v)} :: 0 < v < |words| ==>
      (Found(popped, queue, v) <==>
       Parent(words, at, v) in popped && !(Parent(words, at, v) == u && EdgeLabel(words, v) in left))
  }

  ghost predicate Frontier(words: seq<string>, at: map<string, nat>,
                           popped: set<nat>, queue: seq<nat>, u: nat, left: set<char>)
  {
    Ordered(words, popped, queue, u) && Covered(words, at, popped, queue, u, left)
  }

  lemma {:induction false} ShallowIsFound(nodes: seq<Node>, words: seq<string>, at: map<string, nat>,
                                          popped: set<nat>, queue: seq<nat>, u: nat, left: set<char>, v: nat)
    requires IsTrie(nodes, words, at) && Frontier(words, at, popped, queue, u, left)
    requires v < |words| && |words[v]| <= |words[u]|
    ensures Found(popped, queue, v)
    decreases |words[v]|
  {
    if v != 0 {
      ParentEdge(nodes, words, at, v);
      ShallowIsFound(nodes, words, at, popped, queue, u, left, Parent(words, at, v));
      assert Parent(words, at, v) !in queue;
    }
  }

  lemma {:induction false} EmptyQueueFoundAll(nodes: seq<Node>, words: seq<string>, at: map<string, nat>,
                                              popped: set<nat>, u: nat, v: nat)
    requires IsTrie(nodes, words, at) && Frontier(words, at, popped, [], u, {})
    requires v < |words|
    ensures v in popped
    decreases |words[v]|
  {
    if v != 0 {
      ParentEdge(nodes, words, at, v);
      EmptyQueueFoundAll(nodes, words, at, popped, u, Parent(words, at, v));
      assert Found(popped, [], v);
    }
  }

  /** Queueing the child of `u` under `c` keeps the order. */
  lemma PushChild(nodes: seq<Node>, words: seq<string>, at: map<string, nat>,
                  popped: set<nat>, queue: seq<nat>, u: nat, left: set<char>, c: char)
    requires IsTrie(nodes, words, at) && Frontier(words, at, popped, queue, u, left)
    requires u < |nodes| && c in left && c in nodes[u].transitions
    ensures !Found(popped, queue, nodes[u].transitions[c])
    ensures Frontier(words, at, popped, queue + [nodes[u].transitions[c]], u, left - {c})
  {
    var v := nodes[u].transitions[c];
    ChildEdge(nodes, words, at, u, c);
    assert !Found(popped, queue, v);
    var queue' := queue + [v];
    forall v' | 0 < v' < |words|
      ensures Found(popped, queue', v') <==>
              Parent(words, at, v') in popped
              && !(Parent(words, at, v') == u && EdgeLabel(words, v') in left - {c})
    {
      ParentEdge(nodes, words, at, v');
      assert Found(popped, queue', v') <==> Found(popped, queue, v') || v' == v;
    }
  }

  /** Taking the front node out turns to its children. */
  lemma PopFront(nodes: seq<Node>, words: seq<string>, at: map<string, nat>,
                 popped: set<nat>, queue: seq<nat>, u: nat)
    requires IsTrie(nodes, words, at) && Frontier(words, at, popped, queue, u, {})
    requires queue != []
    ensures Frontier(words, at, popped + {queue[0]}, queue[1..], queue[0], nodes[queue[0]].transitions.Keys)
  {
    var u' := queue[0];
    var popped', queue' := popped + {u'}, queue[1..];
    forall v | 0 < v < |words|
      ensures Found(popped', queue', v) <==>
              Parent(words, at, v) in popped'
              && !(Parent(words, at, v) == u' && EdgeLabel(words, v) in nodes[u'].transitions.Keys)
    {
      ParentEdge(nodes, words, at, v);
      assert queue == [u'] + queue';
      assert Found(popped', queue', v) <==> Found(popped, queue, v);
    }
  }

  // ---------------------------------------------------------------------
  // Growing the trie
  // ---------------------------------------------------------------------

  /** Adding a fresh leaf under `u` for `c` keeps a trie a trie. */
  lemma GrowTrie(nodes: seq<Node>, words: seq<string>, at: map<string, nat>, u: nat, c: char)
    requires IsTrie(nodes, words, at) && u < |nodes| && c !in nodes[u].transitions
    ensures var n := |nodes|;
            IsTrie((nodes + [EMPTY_NODE])[u := nodes[u].(transitions := nodes[u].transitions[c := n])],
                   words + [words[u] + [c]], at[words[u] + [c] := n])
  {
    var n, w := |nodes|, words[u] + [c];
    var nodes' := (nodes + [EMPTY_NODE])[u := nodes[u].(transitions := nodes[u].transitions[c := n])];
    var words', at' := words + [w], at[w := n];
    assert w !in at;
    assert Front(w) == words[u];
    forall i, d | 0 <= i < |nodes'|
      ensures d in nodes'[i].transitions <==> words'[i] + [d] in at'
      ensures d in nodes'[i].transitions ==> nodes'[i].transitions[d] == at'[words'[i] + [d]]
    {
      var x := words'[i] + [d];
      assert Front(x) == words'[i];
      if i == n {
        // A child of the new word would need the new word to be present already.
        var parent := Front(x);
        assert parent == w && parent !in at;
        assert PrefixClosed(at.Keys) && x !in at.Keys;
        assert x != w;
      } else {
        assert x == w <==> i == u && d == c by {
          if x == w {
            assert Front(x) == Front(w) && x[|x| - 1] == d;
            assert at[words[i]] == i && at[words[u]] == u;
          }
        }
        assert d in nodes[i].transitions <==> x in at;
      }
    }
  }

  /** A node whose word is not a pattern's and holds no match needs nothing. */
  lemma SeededLeaf(nodes: seq<Node>, words: seq<string>, pats: map<string, U32>, v: nat)
    requires v < |nodes| == |words| && words[v] !in pats && nodes[v].isMatch == false
    ensures Seeded(nodes, words, pats, v)
  {
  }

  /** Marking one node as a pattern's end keeps every node seeded. */
  lemma SeedPattern(nodes: seq<Node>, words: seq<string>, at: map<string, nat>, pats: map<string, U32>,
                    v: nat, id: U32)
    requires IsTrie(nodes, words, at) && v < |nodes| && words[v] != ""
    requires AllSeeded(nodes, words, pats)
    ensures IsTrie(nodes[v := nodes[v].(isMatch := true, ruleId := id)], words, at)
    ensures AllSeeded(nodes[v := nodes[v].(isMatch := true, ruleId := id)], words, pats[words[v] := id])
  {
    var nodes' := nodes[v := nodes[v].(isMatch := true, ruleId := id)];
    var pats' := pats[words[v] := id];
    forall i | 0 <= i < |nodes'| ensures Seeded(nodes', words, pats', i) {
      assert at[words[i]] == i && at[words[v]] == v;
      assert Seeded(nodes, words, pats, i);
      ShortestMatchGrows(pats, words[v], id, words[i]);
      if words[i] != "" {
        ShortestMatchGrows(pats, words[v], id, words[i][1..]);
      }
    }
  }

  /** The state of `insert` at the node spelling the lowered part `done` of the pattern. */
  ghost predicate Descending(nodes: seq<Node>, words: seq<string>, at: map<string, nat>, pats: map<string, U32>,
                             done: string, curr: nat)
  {
    && IsTrie(nodes, words, at) && pats.Keys <= at.Keys
    && AllSeeded(nodes, words, pats)
    && curr < |nodes| && words[curr] == done
  }

  lemma DescendToNew(nodes: seq<Node>, words: seq<string>, at: map<string, nat>, pats: map<string, U32>,
                     done: string, curr: nat, c: char)
    requires Descending(nodes, words, at, pats, done, curr) && c !in nodes[curr].transitions
    ensures var n := |nodes|;
            Descending((nodes + [EMPTY_NODE])[curr := nodes[curr].(transitions := nodes[curr].transitions[c := n])],
                       words + [done + [c]], at[done + [c] := n], pats, done + [c], n)
  {
    var n := |nodes|;
    var nodes' := (nodes + [EMPTY_NODE])[curr := nodes[curr].(transitions := nodes[curr].transitions[c := n])];
    var words' := words + [done + [c]];
    GrowTrie(nodes, words, at, curr, c);
    assert done + [c] !in at;
    forall v | 0 <= v < |nodes'| ensures Seeded(nodes', words', pats, v) {
      if v == n { SeededLeaf(nodes', words', pats, v); } else { assert Seeded(nodes, words, pats, v); }
    }
  }

  lemma DescendToOld(nodes: seq<Node>, words: seq<string>, at: map<string, nat>, pats: map<string, U32>,
                     done: string, curr: nat, c: char)
    requires Descending(nodes, words, at, pats, done, curr) && c in nodes[curr].transitions
    ensures Descending(nodes, words, at, pats, done + [c], nodes[curr].transitions[c])
  {
    ChildEdge(nodes, words, at, curr, c);
  }

  lemma FinishInsert(nodes: seq<Node>, words: seq<string>, at: map<string, nat>, log: seq<Insertion>,
                     pattern: string, id: U32, curr: nat)
    requires Descending(nodes, words, at, Patterns(log), Lower(pattern), curr) && pattern != ""
    requires "" !in Patterns(log)
    ensures var nodes' := nodes[curr := nodes[curr].(isMatch := true, ruleId := id)];
            var pats' := Patterns(log + [Insertion(pattern, id)]);
            Sound(nodes', words, at, pats')
  {
    PatternsStep(log, Insertion(pattern, id));
    SeedPattern(nodes, words, at, Patterns(log), curr, id);
  }

  // ---------------------------------------------------------------------
  // Settling one node
  // ---------------------------------------------------------------------

  /** A node one level below the root has the root for its failure link. */
  lemma SettleChildOfRoot(nodes: seq<Node>, words: seq<string>, at: map<string, nat>, pats: map<string, U32>, v: nat)
    requires IsTrie(nodes, words, at) && pats.Keys <= at.Keys
    requires v < |nodes| && |words[v]| == 1 && nodes[v].failLink == 0
    requires Seeded(nodes, words, pats, v)
    ensures Settled(nodes, words, at, pats, v)
  {
    assert words[v][1..] == "";
  }

  /** A deeper node is settled by its link once the linked node is: the match
      of its shortest proper suffix replaces its own. */
  lemma SettleByLink(nodes: seq<Node>, words: seq<string>, at: map<string, nat>, pats: map<string, U32>,
                     v: nat, link: nat)
    requires IsTrie(nodes, words, at) && pats.Keys <= at.Keys
    requires v < |nodes| && link < |nodes| && words[v] != "" && link != v
    requires words[link] == LongestSuffix(at.Keys, words[v][1..])
    requires Seeded(nodes, words, pats, v) && MatchCorrect(nodes, words, pats, link)
    ensures var linked := nodes[v].(failLink := link);
            var settled := if nodes[link].isMatch
                           then linked.(isMatch := true, ruleId := nodes[link].ruleId) else linked;
            Settled(nodes[v := settled], words, at, pats, v)
  {
    ShortestMatchOfLongestSuffix(pats, at.Keys, words[v][1..]);
  }

  /** Setting one node's link and match keeps the trie and what holds of the
      other nodes. */
  lemma OthersStay(nodes: seq<Node>, words: seq<string>, at: map<string, nat>, pats: map<string, U32>,
                   v: nat, node: Node)
    requires IsTrie(nodes, words, at) && v < |nodes| && node.transitions == nodes[v].transitions
    requires AllSeeded(nodes, words, pats) && Settled(nodes[v := node], words, at, pats, v)
    ensures IsTrie(nodes[v := node], words, at)
    ensures AllSeeded(nodes[v := node], words, pats)
    ensures forall i {:trigger Settled(nodes[v := node], words, at, pats, i)} ::
              0 <= i < |nodes| && Settled(nodes, words, at, pats, i) ==> Settled(nodes[v := node], words, at, pats, i)
  {
    var nodes' := nodes[v := node];
    forall i | 0 <= i < |nodes'| ensures Seeded(nodes', words, pats, i) {
      assert Seeded(nodes, words, pats, i);
    }
  }

  /** The state of `build` while the children of `u` are visited: every node
      found so far is settled, every other one is as insertions left it. */
  ghost predicate Visiting(nodes: seq<Node>, words: seq<string>, at: map<string, nat>, pats: map<string, U32>,
                           popped: set<nat>, queue: seq<nat>, u: nat, left: set<char>)
  {
    && IsTrie(nodes, words, at) && pats.Keys <= at.Keys
    && Frontier(words, at, popped, queue, u, left)
    && u < |nodes| && left <= nodes[u].transitions.Keys
    && AllSeeded(nodes, words, pats)
    && (forall v: nat :: Found(popped, queue, v) ==> v < |nodes| && Settled(nodes, words, at, pats, v))
  }

  lemma StartAtRoot(nodes: seq<Node>, words: seq<string>, at: map<string, nat>, pats: map<string, U32>)
    requires Sound(nodes, words, at, pats)
    ensures Visiting(nodes, words, at, pats, {0}, [], 0, nodes[0].transitions.Keys)
  {
    assert Seeded(nodes, words, pats, 0);
    forall v | 0 < v < |words|
      ensures Parent(words, at, v) == 0 ==> EdgeLabel(words, v) in nodes[0].transitions.Keys
    {
      ParentEdge(nodes, words, at, v);
    }
  }

  /** Setting the link of one child of `u`, with the match it inherits, and queueing it. */
  lemma VisitChild(nodes: seq<Node>, words: seq<string>, at: map<string, nat>, pats: map<string, U32>,
                   popped: set<nat>, queue: seq<nat>, u: nat, left: set<char>, c: char, node: Node)
    requires Visiting(nodes, words, at, pats, popped, queue, u, left)
    requires c in left && node.transitions == nodes[nodes[u].transitions[c]].transitions
    requires Settled(nodes[nodes[u].transitions[c] := node], words, at, pats, nodes[u].transitions[c])
    ensures var v := nodes[u].transitions[c];
            Visiting(nodes[v := node], words, at, pats, popped, queue + [v], u, left - {c})
  {
    var v := nodes[u].transitions[c];
    ChildEdge(nodes, words, at, u, c);
    OthersStay(nodes, words, at, pats, v, node);
    PushChild(nodes, words, at, popped, queue, u, left, c);
    assert forall i: nat :: Found(popped, queue + [v], i) ==> i == v || Found(popped, queue, i);
  }

  lemma VisitChildOfRoot(nodes: seq<Node>, words: seq<string>, at: map<string, nat>, pats: map<string, U32>,
                         popped: set<nat>, queue: seq<nat>, left: set<char>, c: char)
    requires Visiting(nodes, words, at, pats, popped, queue, 0, left) && c in left
    ensures var v := nodes[0].transitions[c];
            && v < |nodes|
            && Visiting(nodes[v := nodes[v].(failLink := 0)], words, at, pats, popped, queue + [v], 0, left - {c})
  {
    var v := nodes[0].transitions[c];
    ChildEdge(nodes, words, at, 0, c);
    assert Seeded(nodes, words, pats, v);
    SettleChildOfRoot(nodes[v := nodes[v].(failLink := 0)], words, at, pats, v);
    VisitChild(nodes, words, at, pats, popped, queue, 0, left, c, nodes[v].(failLink := 0));
  }

  lemma NextInQueue(nodes: seq<Node>, words: seq<string>, at: map<string, nat>, pats: map<string, U32>,
                    popped: set<nat>, queue: seq<nat>, u: nat)
    requires Visiting(nodes, words, at, pats, popped, queue, u, {}) && queue != []
    ensures 0 < queue[0] < |nodes| && queue[0] !in popped
    ensures Visiting(nodes, words, at, pats, popped + {queue[0]}, queue[1..], queue[0],
                     nodes[queue[0]].transitions.Keys)
  {
    PopFront(nodes, words, at, popped, queue, u);
    assert queue == [queue[0]] + queue[1..];
    assert Found(popped, queue, queue[0]);
    assert forall v: nat :: Found(popped + {queue[0]}, queue[1..], v) ==> Found(popped, queue, v);
  }

  lemma AllVisited(nodes: seq<Node>, words: seq<string>, at: map<string, nat>, pats: map<string, U32>,
                   popped: set<nat>, u: nat)
    requires Visiting(nodes, words, at, pats, popped, [], u, {})
    ensures AllSettled(nodes, words, at, pats)
    ensures "" !in pats ==> Sound(nodes, words, at, pats)
  {
    forall v | 0 <= v < |nodes| ensures Settled(nodes, words, at, pats, v) {
      EmptyQueueFoundAll(nodes, words, at, popped, u, v);
      assert Found(popped, [], v);
    }
  }

  /** The failure walk for the child of `u` under `c`: it stays above `u`, so
      only settled nodes are met, and it looks for the longest proper suffix. */
  ghost predicate Walking(nodes: seq<Node>, words: seq<string>, at: map<string, nat>, u: nat, c: char, f: nat) {
    && u < |nodes| == |words| && c in nodes[u].transitions && nodes[u].transitions[c] < |words|
    && f < |nodes| && |words[f]| < |words[u]|
    && words[nodes[u].transitions[c]] != ""
    && LongestSuffix(at.Keys, words[f] + [c]) == LongestSuffix(at.Keys, words[nodes[u].transitions[c]][1..])
  }

  lemma StartWalk(nodes: seq<Node>, words: seq<string>, at: map<string, nat>, u: nat, c: char)
    requires IsTrie(nodes, words, at) && 0 < u < |nodes| && LinkCorrect(nodes, words, at, u)
    requires c in nodes[u].transitions
    ensures Walking(nodes, words, at, u, c, nodes[u].failLink)
  {
    ChildEdge(nodes, words, at, u, c);
    assert (words[u] + [c])[1..] == words[u][1..] + [c];
    LongestSuffixExtends(at.Keys, words[u][1..], c);
    LongestSuffixIsShort(at.Keys, words[u][1..]);
  }

  lemma TurnOfWalk(nodes: seq<Node>, words: seq<string>, at: map<string, nat>, pats: map<string, U32>,
                   popped: set<nat>, queue: seq<nat>, u: nat, left: set<char>, c: char, f: nat)
    requires Visiting(nodes, words, at, pats, popped, queue, u, left)
    requires Walking(nodes, words, at, u, c, f) && f > 0 && c !in nodes[f].transitions
    ensures Walking(nodes, words, at, u, c, nodes[f].failLink)
    ensures |words[nodes[f].failLink]| < |words[f]|
  {
    ShallowIsFound(nodes, words, at, popped, queue, u, left, f);
    FollowLink(nodes, words, at, f, c);
  }

  /** What the end of the walk gives: the longest proper suffix, never the
      child itself, and a settled node. */
  lemma EndOfWalk(nodes: seq<Node>, words: seq<string>, at: map<string, nat>, pats: map<string, U32>,
                  popped: set<nat>, queue: seq<nat>, u: nat, left: set<char>, c: char, f: nat)
    requires Visiting(nodes, words, at, pats, popped, queue, u, left)
    requires Walking(nodes, words, at, u, c, f) && (f == 0 || c in nodes[f].transitions)
    ensures var v := nodes[u].transitions[c];
            var link := if c in nodes[f].transitions then nodes[f].transitions[c] else 0;
            && link != v && link < |nodes| && v < |nodes|
            && var linked := nodes[v].(failLink := link);
               var node := if nodes[link].isMatch
                           then linked.(isMatch := true, ruleId := nodes[link].ruleId) else linked;
               Settled(nodes[v := node], words, at, pats, v)
  {
    var v := nodes[u].transitions[c];
    var link := if c in nodes[f].transitions then nodes[f].transitions[c] else 0;
    ChildEdge(nodes, words, at, u, c);
    WalkEnds(nodes, words, at, f, c);
    if c in nodes[f].transitions { ChildEdge(nodes, words, at, f, c); }
    ShallowIsFound(nodes, words, at, popped, queue, u, left, link);
    assert Seeded(nodes, words, pats, v);
    SettleByLink(nodes, words, at, pats, v, link);
  }

  /** The match flag decides whether a pattern ends at place `j`, and the
      node's id is then the one to report. */
  lemma StopOrGoOn(nodes: seq<Node>, words: seq<string>, at: map<string, nat>, pats: map<string, U32>,
                   text: string, j: nat, curr: nat)
    requires |nodes| == |words| && pats.Keys <= at.Keys
    requires curr < |nodes| && 0 < j <= |text|
    requires words[curr] == LongestSuffix(at.Keys, text[..j]) && MatchCorrect(nodes, words, pats, curr)
    requires NoneEndsBy(pats, text, j - 1)
    ensures !nodes[curr].isMatch ==> NoneEndsBy(pats, text, j)
    ensures nodes[curr].isMatch ==> exists i :: FirstOccurrence(pats, text, i, j, nodes[curr].ruleId)
  {
    ShortestMatchOfLongestSuffix(pats, at.Keys, text[..j]);
    MatchesEndingAt(pats, text, j);
    if nodes[curr].isMatch {
      var k :| 0 <= k < j && text[k..j] in pats
               && ShortestMatch(pats, text[..j]).value == pats[text[k..j]]
               && forall m :: k < m < j ==> text[m..j] !in pats;
      assert FirstOccurrence(pats, text, k, j, nodes[curr].ruleId);
    }
  }

  // ---------------------------------------------------------------------
  // The matcher
  // ---------------------------------------------------------------------

  class AhoCorasick {
    var nodes: seq<Node>
    var built: bool

    /** Every call of `Insert` so far. */
    ghost var log: seq<Insertion>
    /** The word each node spells, and the node of each word. */
    ghost var words: seq<string>
    ghost var at: map<string, nat>

    ghost predicate Valid()
      reads this
    {
      && Sound(nodes, words, at, Patterns(log))
      && (built ==> AllSettled(nodes, words, at, Patterns(log)))
    }

    constructor ()
      ensures Valid() && log == [] && !built
    {
      nodes, built := [EMPTY_NODE], false;
      log, words, at := [], [""], map["" := 0];
    }

    method Insert(pattern: string, ruleId: U32)
      requires Valid()
      modifies this
      ensures Valid() && log == old(log) + [Insertion(pattern, ruleId)]
      ensures built == (old(built) && pattern == "")
    {
      ghost var pats := Patterns(log);
      PatternsStep(log, Insertion(pattern, ruleId));
      if pattern == "" {
        log := log + [Insertion(pattern, ruleId)];
        return;
      }
      var curr := Walk(pattern, pats);
      FinishInsert(nodes, words, at, log, pattern, ruleId, curr);
      log := log + [Insertion(pattern, ruleId)];
      nodes := nodes[curr := nodes[curr].(isMatch := true, ruleId := ruleId)];
      built := false;
    }

    /** The walk of `insert` along the characters. */
    method Walk(pattern: string, ghost pats: map<string, U32>) returns (curr: nat)
      requires Sound(nodes, words, at, pats)
      modifies this`nodes, this`words, this`at
      ensures Descending(nodes, words, at, pats, Lower(pattern), curr)
    {
      curr := 0;
      var i := 0;
      while i < |pattern|
        invariant 0 <= i <= |pattern|
        invariant Descending(nodes, words, at, pats, Lower(pattern[..i]), curr)
      {
        var lowerC := ToLower(pattern[i]);
        assert Lower(pattern[..i + 1]) == Lower(pattern[..i]) + [lowerC];
        curr := Descend(curr, lowerC, Lower(pattern[..i]), pats);
        i := i + 1;
      }
      assert pattern[..i] == pattern;
    }

    /** One character of `insert`: the existing edge, or a new node. */
    method Descend(curr: nat, lowerC: char, ghost done: string, ghost pats: map<string, U32>) returns (next: nat)
      requires Descending(nodes, words, at, pats, done, curr)
      modifies this`nodes, this`words, this`at
      ensures Descending(nodes, words, at, pats, done + [lowerC], next)
    {
      if lowerC !in nodes[curr].transitions {
        DescendToNew(nodes, words, at, pats, done, curr, lowerC);
        next := |nodes|;
        words := words + [done + [lowerC]];
        at := at[done + [lowerC] := next];
        nodes := (nodes + [EMPTY_NODE])[curr := nodes[curr].(transitions := nodes[curr].transitions[lowerC := next])];
      } else {
        DescendToOld(nodes, words, at, pats, done, curr, lowerC);
        next := nodes[curr].transitions[lowerC];
      }
    }

    method Build()
      requires Valid()
      modifies this`nodes, this`built
      ensures Valid() && built
    {
      ghost var pats := Patterns(log);
      ghost var popped: set<nat> := {0};
      var queue := QueueChildrenOfRoot(pats);
      ghost var u0: nat := 0;
      while queue != []
        invariant Visiting(nodes, words, at, pats, popped, queue, u0, {})
        decreases Indices(|words|) - popped
      {
        var u := queue[0];
        NextInQueue(nodes, words, at, pats, popped, queue, u0);
        queue := queue[1..];
        popped, u0 := popped + {u}, u;
        var left := nodes[u].transitions.Keys;
        while left != {}
          invariant Visiting(nodes, words, at, pats, popped, queue, u, left)
          decreases left
        {
          var c :| c in left;
          var v := nodes[u].transitions[c];
          var link := FailureTarget(u, c, pats, popped, queue, left);
          var node := nodes[v].(failLink := link);
          // Inherit the match of the link.
          if nodes[link].isMatch {
            node := node.(isMatch := true, ruleId := nodes[link].ruleId);
          }
          VisitChild(nodes, words, at, pats, popped, queue, u, left, c, node);
          nodes := nodes[v := node];
          queue := queue + [v];
          left := left - {c};
        }
      }
      AllVisited(nodes, words, at, pats, popped, u0);
      built := true;
    }

    /** The first loop: the children of the root link to it. */
    method QueueChildrenOfRoot(ghost pats: map<string, U32>) returns (queue: seq<nat>)
      requires Sound(nodes, words, at, pats)
      modifies this`nodes
      ensures Visiting(nodes, words, at, pats, {0}, queue, 0, {})
    {
      StartAtRoot(nodes, words, at, pats);
      queue := [];
      var left := nodes[0].transitions.Keys;
      while left != {}
        invariant Visiting(nodes, words, at, pats, {0}, queue, 0, left)
        decreases left
      {
        var c :| c in left;
        var childIdx := nodes[0].transitions[c];
        VisitChildOfRoot(nodes, words, at, pats, {0}, queue, left, c);
        nodes := nodes[childIdx := nodes[childIdx].(failLink := 0)];
        queue := queue + [childIdx];
        left := left - {c};
      }
    }

    /** The failure walk of `build` for the child of `u` under `c`. */
    method FailureTarget(u: nat, c: char, ghost pats: map<string, U32>, ghost popped: set<nat>,
                         ghost queue: seq<nat>, ghost left: set<char>)
      returns (link: nat)
      requires Visiting(nodes, words, at, pats, popped, queue, u, left)
      requires u != 0 && c in left
      ensures link < |nodes| && link != nodes[u].transitions[c] < |nodes|
      ensures var v := nodes[u].transitions[c];
              var linked := nodes[v].(failLink := link);
              var node := if nodes[link].isMatch
                          then linked.(isMatch := true, ruleId := nodes[link].ruleId) else linked;
              Settled(nodes[v := node], words, at, pats, v)
    {
      assert Found(popped, queue, u);
      StartWalk(nodes, words, at, u, c);
      var f := nodes[u].failLink;
      while f > 0 && c !in nodes[f].transitions
        invariant Walking(nodes, words, at, u, c, f)
        decreases |words[f]|
      {
        TurnOfWalk(nodes, words, at, pats, popped, queue, u, left, c, f);
        f := nodes[f].failLink;
      }
      EndOfWalk(nodes, words, at, pats, popped, queue, u, left, c, f);
      if c in nodes[f].transitions && nodes[f].transitions[c] != nodes[u].transitions[c] {
        link := nodes[f].transitions[c];
      } else {
        link := 0;
      }
    }

    /** Whether some pattern occurs, and then the id of the shortest one ending
        at the earliest place where any ends. */
    method Search(text: string) returns (found: bool, ruleId: Option<U32>)
      requires Valid()
      ensures !built ==> !found
      ensures built ==> (found <==> Occurs(Patterns(log), Lower(text)))
      ensures found ==> ruleId.Some? && exists i, j :: FirstOccurrence(Patterns(log), Lower(text), i, j, ruleId.value)
      ensures !found ==> ruleId == None
    {
      if !built {
        return false, None;
      }
      ghost var pats := Patterns(log);
      ghost var low := Lower(text);
      var curr: nat := 0;
      var i := 0;
      while i < |text|
        invariant 0 <= i <= |text| && curr < |nodes|
        invariant words[curr] == LongestSuffix(at.Keys, low[..i])
        invariant NoneEndsBy(pats, low, i)
      {
        var lowerC := ToLower(text[i]);
        assert low[..i + 1] == low[..i] + [lowerC];
        LongestSuffixExtends(at.Keys, low[..i], lowerC);
        while curr > 0 && lowerC !in nodes[curr].transitions
          invariant curr < |nodes|
          invariant LongestSuffix(at.Keys, words[curr] + [lowerC]) == LongestSuffix(at.Keys, low[..i + 1])
          decreases |words[curr]|
        {
          assert Settled(nodes, words, at, pats, curr);
          FollowLink(nodes, words, at, curr, lowerC);
          curr := nodes[curr].failLink;
        }
        WalkEnds(nodes, words, at, curr, lowerC);
        if lowerC in nodes[curr].transitions {
          curr := nodes[curr].transitions[lowerC];
        } else {
          curr := 0;
        }
        assert Settled(nodes, words, at, pats, curr);
        StopOrGoOn(nodes, words, at, pats, low, i + 1, curr);
        if nodes[curr].isMatch {
          return true, Some(nodes[curr].ruleId);
        }
        i := i + 1;
      }
      assert low[..i] == low;
      return false, None;
    }
  }
}
