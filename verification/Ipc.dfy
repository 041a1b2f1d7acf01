/** The policy message as the dataplane reads it (dataplane/src/runtime/ipc_server.cpp).

    The reader does not parse JSON; it searches the text for quoted keys. Its
    loops are proved equal to recursive functions, and the candidate it builds
    to be what these functions extract. */
module Ipc {
  import opened Text
  import opened Names
  import opened Policies
  import Decimal
  import SuffixTrie

  // ---------------------------------------------------------------------
  // The reader
  // ---------------------------------------------------------------------

  const READ_SIZE := 8191

  /** What the server hands on of a message: one read, as a C string. */
  function Received(text: string): (r: string)
    ensures |r| <= 8191 && r <= text
  {
    var cut := if |text| > READ_SIZE then text[..READ_SIZE] else text;
    cut[..IndexOf(cut, '\0', 0)]
  }

  predicate StandsAt(s: string, sub: string, p: nat) {
    p + |sub| <= |s| && s[p..p + |sub|] == sub
  }

  /** The first place of `sub` at or after `from`. */
  function Find(s: string, sub: string, from: nat): (r: Option<nat>)
    ensures r.Some? ==> from <= r.value && r.value + |sub| <= |s|
    decreases |s| - from
  {
    if from > |s| then None
    else if StandsAt(s, sub, from) then Some(from)
    else Find(s, sub, from + 1)
  }

  /** The place found is one where `sub` stands, and there is none before it. */
  lemma {:induction false} FindMeaning(s: string, sub: string, from: nat)
    ensures var r := Find(s, sub, from);
            && (r.Some? ==> StandsAt(s, sub, r.value) && forall p: nat :: from <= p < r.value ==> !StandsAt(s, sub, p))
            && (r.None? ==> forall p: nat :: from <= p ==> !StandsAt(s, sub, p))
    decreases |s| - from
  {
    if from <= |s| && !StandsAt(s, sub, from) {
      FindMeaning(s, sub, from + 1);
    }
  }

  function Quote(key: string): string {
    "\"" + key + "\""
  }

  function ExtractString(json: string, key: string): string {
    var k := Find(json, Quote(key), 0);
    if k.None? then ""
    else
      var open := IndexOf(json, '"', k.value + |key| + 2);
      if open == |json| then ""
      else
        var close := IndexOf(json, '"', open + 1);
        if close == |json| then "" else json[open + 1..close]
  }

  predicate IsSpace(c: char) {
    c == ' ' || '\t' <= c <= '\r'
  }

  function SkipSpaces(s: string): string {
    if s != "" && IsSpace(s[0]) then SkipSpaces(s[1..]) else s
  }

  function LeadingDigits(s: string): (d: string)
    ensures Decimal.AreDigits(d)
  {
    if s != "" && Decimal.IsDigit(s[0]) then [s[0]] + LeadingDigits(s[1..]) else ""
  }

  const TWO_64 := 0x1_0000_0000_0000_0000

  /** `strtoull` in base ten: spaces, a sign, digits; too large a number is
      the largest one, and a minus sign negates modulo 2^64. */
  function ToUnsigned(s: string): nat {
    var t := SkipSpaces(s);
    var negative := t != "" && t[0] == '-';
    var u := if t != "" && (t[0] == '-' || t[0] == '+') then t[1..] else t;
    var v := Decimal.Read(LeadingDigits(u));
    if v >= TWO_64 then TWO_64 - 1
    else if negative then (TWO_64 - v) % TWO_64
    else v
  }

  function ExtractUint64(json: string, key: string): nat {
    var k := Find(json, Quote(key), 0);
    if k.None? then 0
    else
      var colon := IndexOf(json, ':', k.value);
      if colon == |json| then 0 else ToUnsigned(json[colon + 1..])
  }

  /** The quoted strings between two places. */
  function QuotedBetween(json: string, curr: nat, end: nat): seq<string>
    requires end < |json|
    decreases |json| - curr
  {
    if curr >= end then []
    else
      var open := IndexOf(json, '"', curr);
      if open >= end then []
      else
        var close := IndexOf(json, '"', open + 1);
        if close >= end then [] else [json[open + 1..close]] + QuotedBetween(json, close + 1, end)
  }

  function ExtractStrings(json: string, key: string): seq<string> {
    var k := Find(json, Quote(key), 0);
    if k.None? then [] else StringsFrom(json, k.value)
  }

  /** The strings of the first list from a place on. */
  function StringsFrom(json: string, k: nat): seq<string>
    requires k <= |json|
  {
    var start := IndexOf(json, '[', k);
    if start == |json| then []
    else
      var end := IndexOf(json, ']', start);
      if end == |json| then [] else QuotedBetween(json, start + 1, end)
  }

  method ExtractJsonStrings(json: string, key: string) returns (result: seq<string>)
    ensures result == ExtractStrings(json, key)
  {
    result := [];
    var k := Find(json, Quote(key), 0);
    if k.None? {
      return;
    }
    var startBracket := IndexOf(json, '[', k.value);
    if startBracket == |json| {
      return;
    }
    var endBracket := IndexOf(json, ']', startBracket);
    if endBracket == |json| {
      return;
    }
    result := ScanQuoted(json, startBracket + 1, endBracket);
  }

  /** The loop over the quoted strings between the brackets. */
  method ScanQuoted(json: string, start: nat, end: nat) returns (result: seq<string>)
    requires end < |json|
    ensures result == QuotedBetween(json, start, end)
  {
    result := [];
    var curr := start;
    GatheredIs(json, start, end, []);
    while curr < end
      invariant Gathered(json, curr, end, result) == Gathered(json, start, end, [])
      decreases |json| - curr
    {
      var open := IndexOf(json, '"', curr);
      if open >= end {
        return;
      }
      var close := IndexOf(json, '"', open + 1);
      if close >= end {
        return;
      }
      result := result + [json[open + 1..close]];
      curr := close + 1;
    }
  }

  /** What the loop gathers from a place on. */
  function Gathered(json: string, curr: nat, end: nat, result: seq<string>): seq<string>
    requires end < |json|
    decreases |json| - curr
  {
    if curr >= end then result
    else
      var open := IndexOf(json, '"', curr);
      if open >= end then result
      else
        var close := IndexOf(json, '"', open + 1);
        if close >= end then result
        else Gathered(json, close + 1, end, result + [json[open + 1..close]])
  }

  lemma {:induction false} GatheredIs(json: string, curr: nat, end: nat, result: seq<string>)
    requires end < |json|
    ensures Gathered(json, curr, end, result) == result + QuotedBetween(json, curr, end)
    decreases |json| - curr
  {
    if curr < end {
      var open := IndexOf(json, '"', curr);
      if open < end {
        var close := IndexOf(json, '"', open + 1);
        if close < end {
          var item, rest := json[open + 1..close], QuotedBetween(json, close + 1, end);
          GatheredIs(json, close + 1, end, result + [item]);
          Shift(result, item, rest);
        }
      }
    }
  }

  lemma Shift(a: seq<string>, x: string, b: seq<string>)
    ensures a + ([x] + b) == (a + [x]) + b
  {
  }

  lemma OneMore(json: string, p: nat, open: nat, item: string, next: nat, end: nat)
    requires p <= open && open + |item| + 2 == next <= end < |json| && json[open + 1..next - 1] == item
    requires IndexOf(json, '"', p) == open && IndexOf(json, '"', open + 1) == next - 1
    ensures QuotedBetween(json, p, end) == [item] + QuotedBetween(json, next, end)
  {
  }

  // ---------------------------------------------------------------------
  // From a message to a candidate
  // ---------------------------------------------------------------------

  /** The rules inserted for the first names of a list, numbered from 1 in 32 bits. */
  function NumberedFirst(names: seq<string>, n: nat): (rules: seq<SuffixTrie.Rule>)
    requires n <= |names|
    ensures |rules| == n
    ensures forall i :: 0 <= i < n ==> rules[i] == SuffixTrie.Rule(names[i], NumberOf(i))
  {
    seq(n, i requires 0 <= i < n => SuffixTrie.Rule(names[i], NumberOf(i)))
  }

  function NumberOf(i: nat): U32 {
    (i + 1) % 0x1_0000_0000
  }

  function NumberedRules(names: seq<string>): seq<SuffixTrie.Rule> {
    NumberedFirst(names, |names|)
  }

  lemma NumberedStep(names: seq<string>, n: nat)
    requires n < |names|
    ensures NumberedFirst(names, n + 1) == NumberedFirst(names, n) + [SuffixTrie.Rule(names[n], NumberOf(n))]
  {
  }

  function Members(names: seq<string>): set<string> {
    set d | d in names
  }

  /** The candidate an APPLY_POLICY message stands for. */
  function CandidateOf(json: string): Policy {
    Policy(ExtractUint64(json, "generation"), ExtractString(json, "version_hash"),
           NumberedRules(ExtractStrings(json, "suffix_blocks")),
           Members(ExtractStrings(json, "exact_blocks")), Members(ExtractStrings(json, "allowlist")))
  }

  method BuildCandidate(json: string) returns (candidate: PolicySnapshot)
    ensures fresh(candidate) && candidate.Valid() && candidate.View() == CandidateOf(json)
  {
    var gen := ExtractUint64(json, "generation");
    var hash := ExtractString(json, "version_hash");
    candidate := new PolicySnapshot(gen, hash);
    var suffixes := ExtractJsonStrings(json, "suffix_blocks");
    InsertSuffixes(candidate.suffixTrie, suffixes);
    InsertNames(candidate, json);
  }

  /** The two sets of names; the rest of the candidate stays. */
  method InsertNames(candidate: PolicySnapshot, json: string)
    modifies candidate`exactBlocks, candidate`allowlist
    ensures candidate.exactBlocks == Members(ExtractStrings(json, "exact_blocks"))
    ensures candidate.allowlist == Members(ExtractStrings(json, "allowlist"))
  {
    var exacts := ExtractJsonStrings(json, "exact_blocks");
    var exactBlocks := InsertAll(exacts);
    var allows := ExtractJsonStrings(json, "allowlist");
    var allowlist := InsertAll(allows);
    candidate.exactBlocks, candidate.allowlist := exactBlocks, allowlist;
  }

  method InsertSuffixes(trie: SuffixTrie.DomainSuffixTrie, suffixes: seq<string>)
    requires trie.Valid() && trie.log == []
    modifies trie, trie.repr
    ensures trie.Valid() && fresh(trie.repr - old(trie.repr)) && trie.log == NumberedRules(suffixes)
  {
    for i := 0 to |suffixes|
      invariant trie.Valid() && fresh(trie.repr - old(trie.repr))
      invariant trie.log == NumberedFirst(suffixes, i)
    {
      NumberedStep(suffixes, i);
      trie.Insert(suffixes[i], NumberOf(i));
    }
  }

  /** A set filled from a list, one name at a time. */
  method InsertAll(names: seq<string>) returns (result: set<string>)
    ensures result == Members(names)
  {
    result := {};
    for i := 0 to |names|
      invariant result == Members(names[..i])
    {
      assert names[..i + 1] == names[..i] + [names[i]];
      result := result + {names[i]};
    }
    assert names[..|names|] == names;
  }

  /** The APPLY_POLICY arm of the command handler. */
  method ApplyPolicy(manager: SnapshotManager, request: string) returns (ok: bool, error: string)
    requires ExtractString(request, "command") == "APPLY_POLICY"
    modifies manager
    ensures ok <==>
              && CandidateOf(request).generation > old(manager.globalGeneration)
              && CandidateOf(request).versionHash != ""
    ensures ok ==> manager.activeSnapshot.Valid() && manager.activeSnapshot.View() == CandidateOf(request)
                   && manager.globalGeneration == CandidateOf(request).generation
    ensures !ok ==> manager.activeSnapshot == old(manager.activeSnapshot)
                    && manager.globalGeneration == old(manager.globalGeneration)
  {
    var candidate := BuildCandidate(request);
    ok, error := manager.ApplyCandidate(candidate);
  }
}
