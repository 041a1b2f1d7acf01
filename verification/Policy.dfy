/** Policy snapshots and their publication (dataplane/include/runtime/atomic_snapshot.h,
    dataplane/src/runtime/atomic_snapshot.cpp). */
module Policies {
  import opened Text
  import opened Names
  import opened SuffixTrie

  datatype Action = Allow | BlockNxDomain | BlockRefused | BlockSinkhole

  datatype Decision = Decision(action: Action, reason: string, ruleId: U32)

  /** What a snapshot holds: the suffix rules in the order of insertion, and
      the names blocked or allowed as they are. */
  datatype Policy = Policy(generation: nat, versionHash: string, suffixRules: seq<Rule>,
                           exactBlocks: set<string>, allowlist: set<string>)

  const BOOTSTRAP := Policy(1, "bootstrap_v1", [], {}, {})

  function Evaluate(p: Policy, name: string): Decision {
    if name in p.allowlist then Decision(Allow, "EXPLICIT_ALLOWLIST", 0)
    else if name in p.exactBlocks then Decision(BlockNxDomain, "EXACT_BLOCK", 0)
    else
      var r := Lookup(Rules(p.suffixRules), name);
      if r.Some? then Decision(BlockNxDomain, "SUFFIX_TRIE_BLOCK", r.value)
      else Decision(Allow, "DEFAULT_ALLOW", 0)
  }

  predicate Allows(p: Policy, name: string) {
    Evaluate(p, name).action == Allow
  }

  /** A name is blocked exactly when it is not allowed by name, and is blocked
      by name or covered by a suffix rule; it is never refused or sinkholed. */
  lemma EvaluateMeaning(p: Policy, name: string)
    ensures Allows(p, name) <==>
            name in p.allowlist
            || (name !in p.exactBlocks && forall k :: 0 <= k < |p.suffixRules| ==> !Covers(p.suffixRules[k], name))
    ensures !Allows(p, name) ==> Evaluate(p, name).action == BlockNxDomain
    ensures Evaluate(p, name).reason == "SUFFIX_TRIE_BLOCK" ==>
              exists k: nat :: Reported(p.suffixRules, name, k) && Evaluate(p, name).ruleId == p.suffixRules[k].ruleId
  {
    LookupIsSuffixMatch(p.suffixRules, name);
  }

  class PolicySnapshot {
    var generation: nat
    var versionHash: string
    const suffixTrie: DomainSuffixTrie
    var exactBlocks: set<string>
    var allowlist: set<string>

    ghost predicate Valid()
      reads this, suffixTrie, suffixTrie.repr
    {
      suffixTrie.Valid()
    }

    ghost function View(): Policy
      reads this, suffixTrie
    {
      Policy(generation, versionHash, suffixTrie.log, exactBlocks, allowlist)
    }

    constructor (generation: nat, versionHash: string)
      ensures Valid() && fresh(suffixTrie) && fresh(suffixTrie.repr)
      ensures View() == Policy(generation, versionHash, [], {}, {})
    {
      this.generation, this.versionHash := generation, versionHash;
      suffixTrie := new DomainSuffixTrie();
      exactBlocks, allowlist := {}, {};
    }

    method Decide(name: string) returns (d: Decision)
      requires Valid()
      ensures d == Evaluate(View(), name)
    {
      if name in allowlist {
        return Decision(Allow, "EXPLICIT_ALLOWLIST", 0);
      }
      if name in exactBlocks {
        return Decision(BlockNxDomain, "EXACT_BLOCK", 0);
      }
      var found, ruleId := suffixTrie.Matches(name);
      if found {
        return Decision(BlockNxDomain, "SUFFIX_TRIE_BLOCK", ruleId.value);
      }
      return Decision(Allow, "DEFAULT_ALLOW", 0);
    }
  }

  /** A candidate passes the checks of the writer. */
  predicate Acceptable(candidate: Policy, generation: nat) {
    candidate.generation > generation && candidate.versionHash != ""
  }

  class SnapshotManager {
    var activeSnapshot: PolicySnapshot
    var globalGeneration: nat

    constructor ()
      ensures fresh(activeSnapshot) && fresh(activeSnapshot.suffixTrie) && fresh(activeSnapshot.suffixTrie.repr)
      ensures activeSnapshot.Valid() && activeSnapshot.View() == BOOTSTRAP && globalGeneration == 1
    {
      activeSnapshot := new PolicySnapshot(1, "bootstrap_v1");
      globalGeneration := 1;
    }

    /** Check, first store, second store. A rejected candidate changes neither cell. */
    method ApplyCandidate(candidate: PolicySnapshot?) returns (ok: bool, error: string)
      modifies this
      ensures ok <==>
                candidate != null && candidate.generation > old(globalGeneration) && candidate.versionHash != ""
      ensures ok ==> activeSnapshot == candidate && globalGeneration == candidate.generation > old(globalGeneration)
      ensures !ok ==> activeSnapshot == old(activeSnapshot) && globalGeneration == old(globalGeneration) && error != ""
    {
      if candidate == null {
        return false, "Null candidate pointer";
      }
      var currentGen := globalGeneration;
      if candidate.generation <= currentGen {
        return false, "Candidate generation must be > active generation";
      }
      if candidate.versionHash == "" {
        return false, "Candidate missing cryptographic version hash";
      }
      activeSnapshot := candidate;
      globalGeneration := candidate.generation;
      return true, "";
    }
  }
}
