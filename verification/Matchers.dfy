/** The two matchers side by side (dataplane/src/engine/suffix_trie.cpp,
    dataplane/src/engine/aho_corasick.cpp). */
module Matchers {
  import opened Text
  import opened Names
  import SuffixTrie
  import AC = AhoCorasickMatcher

  /** The same names given to both matchers. */
  ghost predicate SameRules(rules: seq<SuffixTrie.Rule>, patterns: seq<AC.Insertion>) {
    |rules| == |patterns| && forall k :: 0 <= k < |rules| ==> rules[k].domain == patterns[k].pattern
  }

  /** With the same rules, none with an empty label, whatever the suffix trie
      matches the substring matcher finds as well. */
  lemma TrieMatchIsFound(rules: seq<SuffixTrie.Rule>, patterns: seq<AC.Insertion>, domain: string)
    requires SameRules(rules, patterns)
    requires forall k :: 0 <= k < |rules| ==> NoEmptyLabel(Lower(rules[k].domain))
    requires NoEmptyLabel(Lower(domain))
    ensures SuffixTrie.Lookup(SuffixTrie.Rules(rules), domain).Some? ==>
              AC.Occurs(AC.Patterns(patterns), Lower(domain))
  {
    SuffixTrie.LookupIsSuffixMatch(rules, domain);
    if SuffixTrie.Lookup(SuffixTrie.Rules(rules), domain).Some? {
      var k :| 0 <= k < |rules| && SuffixTrie.Covers(rules[k], domain);
      CoveredOccurs(patterns, rules[k], domain, k);
    }
  }

  lemma CoveredOccurs(patterns: seq<AC.Insertion>, rule: SuffixTrie.Rule, domain: string, k: nat)
    requires k < |patterns| && patterns[k].pattern == rule.domain
    requires NoEmptyLabel(Lower(rule.domain)) && NoEmptyLabel(Lower(domain)) && SuffixTrie.Covers(rule, domain)
    ensures AC.Occurs(AC.Patterns(patterns), Lower(domain))
  {
    var p, t := Lower(rule.domain), Lower(domain);
    NormalizedIsLower(rule.domain);
    NormalizedIsLower(domain);
    NameLabelsAreLabels(rule.domain);
    DottedIsEmpty(NameLabels(rule.domain));
    InsertedIsPattern(patterns, k);
    assert p == if t == p then t[0..] else t[|t| - |"." + p|..][1..];
    assert t[|t| - |p|..|t|] == p;
  }

  lemma InsertedIsPattern(patterns: seq<AC.Insertion>, k: nat)
    requires k < |patterns| && patterns[k].pattern != ""
    ensures Lower(patterns[k].pattern) in AC.Patterns(patterns)
  {
    var p := Lower(patterns[k].pattern);
    var last := k;
    var m := k + 1;
    while m < |patterns|
      invariant k <= last < m <= |patterns|
      invariant patterns[last].pattern != "" && Lower(patterns[last].pattern) == p
      invariant forall j :: last < j < m ==> patterns[j].pattern == "" || Lower(patterns[j].pattern) != p
    {
      if patterns[m].pattern != "" && Lower(patterns[m].pattern) == p { last := m; }
      m := m + 1;
    }
    assert AC.LastInsertionOf(patterns, p, last);
    AC.PatternsAreLastInsertions(patterns, p);
  }

  /** The converse fails: a pattern inside a label is found by the substring
      matcher, and no rule of the trie. */
  lemma FoundIsNotTrieMatch()
    ensures AC.Occurs(AC.Patterns([AC.Insertion("a.b", 1)]), Lower("xa.b"))
    ensures SuffixTrie.Lookup(SuffixTrie.Rules([SuffixTrie.Rule("a.b", 1)]), "xa.b").None?
  {
    var patterns, rules := [AC.Insertion("a.b", 1)], [SuffixTrie.Rule("a.b", 1)];
    assert "a.b" == "a" + "." + "b" && "xa.b" == "xa" + "." + "b";
    InsertedIsPattern(patterns, 0);
    assert Lower("a.b") == "a.b" && Lower("xa.b") == "xa.b";
    assert "xa.b"[1..4] == "a.b";
    SuffixTrie.LookupIsSuffixMatch(rules, "xa.b");
    NotUnder(rules[0], "xa.b");
  }

  lemma NotUnder(rule: SuffixTrie.Rule, domain: string)
    requires rule.domain == "a" + "." + "b" && domain == "xa" + "." + "b"
    ensures !SuffixTrie.Covers(rule, domain)
  {
    TwoLabels("a", "b");
    TwoLabels("xa", "b");
    SuffixTrie.CoversWellFormed(rule, domain);
    assert Lower(domain)[0] == 'x' && Lower(rule.domain)[0] == 'a';
  }

  lemma TwoLabels(x: string, y: string)
    requires x != "" && y != "" && '.' !in x && '.' !in y
    ensures NoEmptyLabel(Lower(x + "." + y))
  {
    PieceAlone(x);
    PieceAlone(y);
    assert Lower(x + "." + y) == Lower(x) + "." + Lower(y);
    PiecesOfJoin(Lower(x), Lower(y));
    assert Append(Label(Lower(x), Root), Label(Lower(y), Root)) == Label(Lower(x), Label(Lower(y), Root));
    assert |Lower(x)| == |x| && |Lower(y)| == |y|;
    assert !HasEmpty(Label(Lower(y), Root));
    assert !HasEmpty(Label(Lower(x), Label(Lower(y), Root)));
  }
}
